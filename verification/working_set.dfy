/** One working set: a name paired with a collection of elements that holds
    each element once. Equality and hashing depend on the name alone.

    The element type is a parameter: the source's run-time check that every
    element is a resource is replaced by the type. */
module WorkingSets {
  import opened Wrappers

  datatype WS<T> = WS(name: string, elems: set<T>)

  /** The assertion failures of the working-set code, as error values. */
  datatype Error =
    | NullArgument                 // a null name or a null element array
    | DuplicateElement(index: nat) // the array repeats the element at this index
    | AlreadyRegistered            // the registry already holds a set of that name

  /** The distinct values of a sequence. */
  function Elements<T>(s: seq<T>): (e: set<T>)
  {
    set x | x in s
  }

  /** No value occurs twice in `s`. */
  predicate NoDuplicates<T(==)>(s: seq<T>)
  {
    forall i, j :: 0 <= i < j < |s| ==> s[i] != s[j]
  }

  lemma {:induction false} ElementsBound<T>(s: seq<T>)
    ensures |Elements(s)| <= |s|
  {
    if |s| > 0 {
      ElementsBound(s[1..]);
      assert Elements(s) == {s[0]} + Elements(s[1..]);
    }
  }

  /** A sequence repeats nothing exactly when it has as many distinct values
      as positions: the two readings of "each element once". */
  lemma {:induction false} NoDuplicatesIffCardinality<T>(s: seq<T>)
    ensures NoDuplicates(s) <==> |Elements(s)| == |s|
  {
    if |s| > 0 {
      var t := s[1..];
      NoDuplicatesIffCardinality(t);
      assert Elements(s) == {s[0]} + Elements(t);
      if s[0] in t {
        var k :| 0 <= k < |t| && t[k] == s[0];
        assert s[0] == s[k + 1];
        assert Elements(s) == Elements(t);
        ElementsBound(t);
      } else {
        assert NoDuplicates(s) <==> NoDuplicates(t) by {
          if NoDuplicates(t) {
            forall i, j | 0 <= i < j < |s| ensures s[i] != s[j] {
              if i > 0 {
                assert s[i] == t[i - 1] && s[j] == t[j - 1];
              } else {
                assert s[j] == t[j - 1];
              }
            }
          }
          if NoDuplicates(s) {
            forall i, j | 0 <= i < j < |t| ensures t[i] != t[j] {
              assert t[i] == s[i + 1] && t[j] == s[j + 1];
            }
          }
        }
      }
    }
  }

  /** The loop shared by `setResources` and `setPaths`: add the array's
      elements one by one to a fresh set, stopping at the first element the
      set already holds. `elems` is the set built so far, `dup` the index of
      the repeated element, if any. */
  method Fill<T>(s: seq<T>) returns (elems: set<T>, dup: Option<nat>)
    ensures dup.None? <==> NoDuplicates(s)
    ensures dup.None? ==> elems == Elements(s) && |elems| == |s|
    ensures dup.Some? ==>
      && dup.value < |s|
      && s[dup.value] in s[..dup.value]
      && NoDuplicates(s[..dup.value])
      && elems == Elements(s[..dup.value])
  {
    elems := {};
    var i := 0;
    while i < |s|
      invariant 0 <= i <= |s|
      invariant elems == Elements(s[..i])
      invariant NoDuplicates(s[..i])
    {
      if s[i] in elems {
        assert !NoDuplicates(s) by {
          var k :| 0 <= k < i && s[..i][k] == s[i];
          assert s[k] == s[i];
        }
        return elems, Some(i);
      }
      assert s[..i + 1] == s[..i] + [s[i]];
      elems := elems + {s[i]};
      i := i + 1;
    }
    assert s[..i] == s;
    NoDuplicatesIffCardinality(s);
    dup := None;
  }

  /** `setResources`: a null array fails and leaves the set as it was.
      Otherwise the element collection is replaced by a fresh set before the
      loop runs, so a repeated element fails AFTER the replacement: `after`
      then holds the elements that precede the first repetition. On success
      `after` holds exactly the array's elements, one per position. The name
      never changes. */
  method SetResources<T>(ws: WS<T>, elements: Option<seq<T>>)
    returns (after: WS<T>, err: Option<Error>)
    ensures after.name == ws.name
    ensures elements.None? ==> err == Some(NullArgument) && after == ws
    ensures elements.Some? ==> (err.None? <==> NoDuplicates(elements.value))
    ensures elements.Some? && err.None? ==>
      after.elems == Elements(elements.value) && |after.elems| == |elements.value|
    ensures elements.Some? && err.Some? ==>
      && err.value.DuplicateElement?
      && var i := err.value.index;
         i < |elements.value| && elements.value[i] in elements.value[..i]
         && NoDuplicates(elements.value[..i])
         && after.elems == Elements(elements.value[..i])
  {
    if elements.None? {
      return ws, Some(NullArgument);
    }
    var elems, dup := Fill(elements.value);
    after := WS(ws.name, elems);
    err := if dup.Some? then Some(DuplicateElement(dup.value)) else None;
  }

  /** `setPaths`: the same checks and the same replacement as
      `setResources`, for elements that are paths rather than resources. */
  method SetPaths<T>(ws: WS<T>, elements: Option<seq<T>>)
    returns (after: WS<T>, err: Option<Error>)
    ensures after.name == ws.name
    ensures elements.None? ==> err == Some(NullArgument) && after == ws
    ensures elements.Some? ==> (err.None? <==> NoDuplicates(elements.value))
    ensures elements.Some? && err.None? ==>
      after.elems == Elements(elements.value) && |after.elems| == |elements.value|
    ensures elements.Some? && err.Some? ==>
      && err.value.DuplicateElement?
      && var i := err.value.index;
         i < |elements.value| && elements.value[i] in elements.value[..i]
         && NoDuplicates(elements.value[..i])
         && after.elems == Elements(elements.value[..i])
  {
    after, err := SetResources(ws, elements);
  }

  /** `setName`: a null name fails and changes nothing; otherwise the name is
      replaced and the elements are kept. */
  function SetName<T>(ws: WS<T>, name: Option<string>): (r: Result<WS<T>, Error>)
    ensures name.None? ==> r == Failure(NullArgument)
    ensures name.Some? ==> r.Success? && r.value.name == name.value && r.value.elems == ws.elems
  {
    match name
    case None => Failure(NullArgument)
    case Some(n) => Success(ws.(name := n))
  }

  function GetName<T>(ws: WS<T>): (n: string)
  {
    ws.name
  }

  /** After a successful `setName(n)`, `getName()` answers `n`. */
  lemma SetNameThenGetName<T>(ws: WS<T>, n: string)
    ensures SetName(ws, Some(n)).Success?
    ensures GetName(SetName(ws, Some(n)).value) == n
    ensures SetName(ws, Some(n)).value.elems == ws.elems
  {
  }

  /** The constructor: `setName` then `setResources`; either failure means
      no working set is created. */
  method Create<T>(name: Option<string>, elements: Option<seq<T>>)
    returns (r: Result<WS<T>, Error>)
    ensures r.Success? <==> name.Some? && elements.Some? && NoDuplicates(elements.value)
    ensures name.None? ==> r == Failure(NullArgument)
    ensures name.Some? && elements.None? ==> r == Failure(NullArgument)
    ensures r.Success? ==>
      && r.value.name == name.value
      && r.value.elems == Elements(elements.value)
      && |r.value.elems| == |elements.value|
  {
    var named := SetName(WS("", {}), name);
    if named.Failure? {
      return Failure(named.error);
    }
    var ws, err := SetResources(named.value, elements);
    if err.Some? {
      return Failure(err.value);
    }
    r := Success(ws);
  }

  /** `getResources`: a fresh array holding each stored element once, in
      whatever order the set yields them. */
  method GetResources<T>(ws: WS<T>) returns (snapshot: seq<T>)
    ensures Elements(snapshot) == ws.elems
    ensures NoDuplicates(snapshot)
    ensures |snapshot| == |ws.elems|
  {
    snapshot := [];
    var rest := ws.elems;
    while rest != {}
      invariant rest !! Elements(snapshot)
      invariant rest + Elements(snapshot) == ws.elems
      invariant NoDuplicates(snapshot)
      decreases |rest|
    {
      var x :| x in rest;
      assert Elements(snapshot + [x]) == Elements(snapshot) + {x};
      snapshot := snapshot + [x];
      rest := rest - {x};
    }
    NoDuplicatesIffCardinality(snapshot);
  }

  /** `equals`: true exactly for a non-null working set of the same name;
      the elements play no part. */
  predicate Equals<T>(ws: WS<T>, other: Option<WS<T>>)
  {
    other.Some? && other.value.name == ws.name
  }

  /** `hashCode`: the hash of the name. The name hash itself
      (`String.hashCode`) is a parameter. */
  function Hash<T>(ws: WS<T>, nameHash: string -> int): (h: int)
  {
    nameHash(ws.name)
  }

  /** Two working sets of the same name are equal whatever their elements,
      and two of different names are not. */
  lemma EqualsIffSameName<T>(a: WS<T>, b: WS<T>)
    ensures Equals(a, Some(b)) <==> a.name == b.name
    ensures Equals(a, Some(WS(a.name, b.elems)))
    ensures !Equals(a, None)
  {
  }

  /** `equals` is an equivalence on working sets. */
  lemma EqualsIsEquivalence<T>(a: WS<T>, b: WS<T>, c: WS<T>)
    ensures Equals(a, Some(a))
    ensures Equals(a, Some(b)) <==> Equals(b, Some(a))
    ensures Equals(a, Some(b)) && Equals(b, Some(c)) ==> Equals(a, Some(c))
  {
  }

  /** Equal working sets have equal hashes, whatever the name hash is. */
  lemma HashConsistentWithEquals<T>(a: WS<T>, b: WS<T>, nameHash: string -> int)
    requires Equals(a, Some(b))
    ensures Hash(a, nameHash) == Hash(b, nameHash)
  {
  }
}
