# Working sets of the Eclipse search plug-in, in Dafny

This project models `WorkingSet.java` from `org.eclipse.search`, which holds two things.

- **A working set.** It pairs a name with a collection of elements (resources or paths) that holds each element once. `setResources` and `setPaths` build that collection from an array. Both reject a null array and reject an array that repeats an element. `setName` rejects a null name. `equals` and `hashCode` look at the name only.
- **The workspace registry.** It holds every working set in a `TreeSet` ordered by name. `add` asserts that the name is not yet registered. `remove` does nothing when the set is absent. `find` scans linearly for the first set with a given name and answers null for a null name or a miss. `getWorkingSets` returns every entry in registry order.

Modules:

- `Wrappers` (`wrappers.dfy`): `Option` stands for a nullable reference and `Result` for success or an assertion failure.
- `Names` (`names.dfy`): the order on names that the registry assumes. It compares character by character, and a proper prefix comes first.
- `WorkingSets` (`working_set.dfy`): the `WS<T>` datatype, the element-building loop, `setName`, `getResources`, `equals` and `hashCode`.
- `WorkingSetRegistry` (`registry.dfy`): the registry as an explicit value. It is a sequence of working sets whose names strictly increase (`Sorted`). `add`, `remove`, `find` and `getWorkingSets` are functions over it.
- `RegistryLaws` (`registry_laws.dfy`): how the operations relate to each other, and to `Contents`, a map from name to elements that serves as the registry's reference meaning.

Two behaviours of the code are worth stating plainly:

- **Failed updates are not atomic.** `setResources` and `setPaths` assign a fresh, empty `HashSet` to the element field before the loop runs. An array that repeats an element therefore fails after the old contents are gone, and the working set is left holding the elements that come before the first repetition. `SetResources` and `SetPaths` return that state together with the error.
- **Empty names are accepted.** `setName` rejects only null.

## Model

| member | source | states |
|---|---|---|
| WorkingSets.Fill | org.eclipse.search/search/org/eclipse/search/internal/workingsets/WorkingSet.java:34-38 | The loop stops at the first element the set already holds exactly when the array has a duplicate. With no duplicate, the set is exactly the array's elements and its size is the array length. At a duplicate, the reported index repeats an earlier element, the prefix before it is duplicate-free, and the set holds that prefix. |
| WorkingSets.NoDuplicatesIffCardinality | org.eclipse.search/search/org/eclipse/search/internal/workingsets/WorkingSet.java:37 | An array repeats no element exactly when its set of distinct values is as large as the array. |
| WorkingSets.SetResources | org.eclipse.search/search/org/eclipse/search/internal/workingsets/WorkingSet.java:32-40 | A null array fails with NullArgument and leaves the working set unchanged. An array with a duplicate fails with DuplicateElement at the first repetition, and the set is left holding exactly the duplicate-free prefix before it. Otherwise the elements are replaced wholesale by the array's elements, with the same cardinality. The name is never touched. |
| WorkingSets.SetPaths | org.eclipse.search/search/org/eclipse/search/internal/workingsets/WorkingSet.java:42-49 | Same contract as setResources. A null array is rejected. A duplicate is rejected at its first repetition, after the old contents are dropped, leaving the prefix before it. On success the contents are replaced by exactly the array's elements, with equal cardinality. |
| WorkingSets.SetName | org.eclipse.search/search/org/eclipse/search/internal/workingsets/WorkingSet.java:58-61 | A null name fails with NullArgument. Any other name replaces the old one and keeps the elements. |
| WorkingSets.SetNameThenGetName | org.eclipse.search/search/org/eclipse/search/internal/workingsets/WorkingSet.java:54-61 | After setName(n), getName() answers n and the elements are unchanged. |
| WorkingSets.Create | org.eclipse.search/search/org/eclipse/search/internal/workingsets/WorkingSet.java:27-30 | Construction succeeds exactly when the name and the array are non-null and the array has no duplicate. A null name or a null array gives NullArgument. On success the set has that name and exactly the array's elements, as many as the array's length. |
| WorkingSets.GetResources | org.eclipse.search/search/org/eclipse/search/internal/workingsets/WorkingSet.java:66-68 | The snapshot holds each stored element exactly once, in unspecified order. Its length is the size of the set. |
| WorkingSets.EqualsIffSameName | org.eclipse.search/search/org/eclipse/search/internal/workingsets/WorkingSet.java:70-72 | Two working sets are equal exactly when their names are equal, whatever their elements. Nothing equals null. |
| WorkingSets.EqualsIsEquivalence | org.eclipse.search/search/org/eclipse/search/internal/workingsets/WorkingSet.java:70-72 | equals is reflexive, symmetric and transitive. |
| WorkingSets.HashConsistentWithEquals | org.eclipse.search/search/org/eclipse/search/internal/workingsets/WorkingSet.java:70-76 | Equal working sets have equal hashes, for any hash function on names. |
| Names.Compare | org.eclipse.search/search/org/eclipse/search/internal/workingsets/WorkingSet.java:22 | The assumed name comparator returns zero exactly for equal names, and its sign agrees with the strict ordinal order in both directions. |
| WorkingSetRegistry.Insert | org.eclipse.search/search/org/eclipse/search/internal/workingsets/WorkingSet.java:134 | Inserting an unregistered name into a sorted registry keeps it sorted and adds one entry. The entries afterwards are exactly the old ones plus the new set. |
| WorkingSetRegistry.Add | org.eclipse.search/search/org/eclipse/search/internal/workingsets/WorkingSet.java:132-135 | add fails with AlreadyRegistered exactly when the name is already registered. Otherwise the result is sorted and holds the new set, its size is the old size plus one, and it holds every old entry and nothing else. |
| WorkingSetRegistry.Remove | org.eclipse.search/search/org/eclipse/search/internal/workingsets/WorkingSet.java:124-126 | After remove(ws), no entry has ws's name, every entry with another name is kept, and removing an absent set returns the registry unchanged. |
| WorkingSetRegistry.RemoveKeepsInvariant | org.eclipse.search/search/org/eclipse/search/internal/workingsets/WorkingSet.java:124-126 | remove keeps a sorted registry sorted. It shrinks the registry by exactly one when the name was registered and leaves the size alone otherwise. |
| WorkingSetRegistry.Scan | org.eclipse.search/search/org/eclipse/search/internal/workingsets/WorkingSet.java:111-117 | The scan finds nothing exactly when no entry has the name. Otherwise it returns the entry with that name that comes first in registry order. |
| WorkingSetRegistry.Find | org.eclipse.search/search/org/eclipse/search/internal/workingsets/WorkingSet.java:107-118 | find(null) finds nothing. find(n) finds something exactly when n is registered, and what it finds is a registered entry named n. |
| WorkingSetRegistry.GetWorkingSets | org.eclipse.search/search/org/eclipse/search/internal/workingsets/WorkingSet.java:90-92 | The snapshot has every entry of the registry and nothing else, the same length, and the registry's increasing name order. |
| RegistryLaws.FindMatchesContents | org.eclipse.search/search/org/eclipse/search/internal/workingsets/WorkingSet.java:107-118 | On a sorted registry, find(n) yields the set named n with the elements the name maps to when n is registered, and not-found otherwise. |
| RegistryLaws.InsertUpdatesContents | org.eclipse.search/search/org/eclipse/search/internal/workingsets/WorkingSet.java:134 | Sorted insertion updates the name-to-elements map at the new name and changes nothing else. |
| RegistryLaws.AddUpdatesContents | org.eclipse.search/search/org/eclipse/search/internal/workingsets/WorkingSet.java:132-135 | A successful add is a map update: the new name maps to the new elements and every other name keeps its elements. |
| RegistryLaws.RemoveDeletesContents | org.eclipse.search/search/org/eclipse/search/internal/workingsets/WorkingSet.java:124-126 | remove deletes the name from the name-to-elements map and keeps every other name. |
| RegistryLaws.AddThenFind | org.eclipse.search/search/org/eclipse/search/internal/workingsets/WorkingSet.java:107-135 | After add(ws), find(ws.name) yields ws. |
| RegistryLaws.AddKeepsOthers | org.eclipse.search/search/org/eclipse/search/internal/workingsets/WorkingSet.java:107-135 | add does not change what find answers for any other name. |
| RegistryLaws.RemoveThenFind | org.eclipse.search/search/org/eclipse/search/internal/workingsets/WorkingSet.java:107-126 | After remove(ws), find(ws.name) finds nothing, and find of every other name answers as before. |
| RegistryLaws.AddThenRemove | org.eclipse.search/search/org/eclipse/search/internal/workingsets/WorkingSet.java:120-135 | Removing a set right after adding it restores the registry exactly. |
| RegistryLaws.AddTwiceFails | org.eclipse.search/search/org/eclipse/search/internal/workingsets/WorkingSet.java:132-135 | Adding a second set with an already registered name fails with AlreadyRegistered, and the registry keeps only the first set. |
| RegistryLaws.ScenarioOrdering | org.eclipse.search/search/org/eclipse/search/internal/workingsets/WorkingSet.java:90-135 | Adding "B", "A" and "C" gives the listing "A", "B", "C". find("Z") on "A" and "B" finds nothing. Removing an absent set changes nothing. |

## Left out

- The `instanceof IResource` check at line 36 is replaced by the element type parameter. As a result `SetResources` and `SetPaths` have the same behaviour, and a null element (which that check rejects in `setResources`) is just another value.
- GetResources: the source copies the set into an `IResource[]`. After `setPaths` with a non-empty array of paths, that copy throws `ArrayStoreException`. With one element type for both setters, this failure is not modelled.
- `WorkingSetComparator` is not part of this model. It is assumed to order working sets by name, ordinally. Names are `seq<char>`, so characters compare by Unicode scalar value. Java compares UTF-16 code units, and the two orders differ only for characters outside the Basic Multilingual Plane.
- The process-wide static registry is an explicit value passed to and returned from the operations. Its initial state is the empty sequence.
- The `fgWorkingSets == null` test in `find` is not modelled, because the static field is initialised at class load and never set to null.
- Assertion failures become error values (`Error`) or a precondition (`Insert`). The messages of the `Assert` calls are not modelled.
- Hash: `Hash` takes the name hash (`String.hashCode`) as a parameter. Its numeric values are not modelled, only its consistency with `equals`.
- Equals: the other object is a working set or null. `equals` against other implementations of `IWorkingSet` is not modelled.
- GetName: this plain accessor carries no contract of its own. `SetNameThenGetName` states what it answers.
- Renaming a working set that is already registered is not modelled. Working sets are immutable values, so a registered entry cannot change its name in place. The source allows this and does not re-sort the `TreeSet`.
- Updating the elements of a registered working set is not modelled. In the source the registry shares the `WorkingSet` object, so `find` and `getWorkingSets` see the new elements after `setResources` or `setPaths`, or the partial prefix after a failed update. Here a working set is a value, so an update reaches the registry only through `Remove` then `Add`. `RegistryLaws.Contents` therefore describes the elements as they were when each set was added.
- The iteration order of `HashSet`: `GetResources` picks elements in an arbitrary order, and its contract states nothing about order.
- Concurrency: the source has none.
