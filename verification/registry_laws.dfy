/** Laws relating the registry operations to each other and to a map from
    name to elements, the registry's meaning. */
module RegistryLaws {
  import opened Wrappers
  import opened Names
  import opened WorkingSets
  import opened WorkingSetRegistry

  /** What a registry means: each registered name with its elements. */
  function Contents<T>(r: seq<WS<T>>): (m: map<string, set<T>>)
    decreases |r|
  {
    if |r| == 0 then map[] else Contents(r[1..])[r[0].name := r[0].elems]
  }

  lemma {:induction false} ContentsKeys<T>(r: seq<WS<T>>)
    ensures forall n :: n in Contents(r) <==> Registered(r, n)
    decreases |r|
  {
    if |r| > 0 {
      ContentsKeys(r[1..]);
      RegisteredCons(r);
    }
  }

  /** Looking a name up in a sorted registry is looking it up in the map:
      `find` is found exactly for registered names, with their elements. */
  lemma {:induction false} FindMatchesContents<T>(r: seq<WS<T>>, n: string)
    requires Sorted(r)
    ensures n in Contents(r) ==> Find(r, Some(n)) == Some(WS(n, Contents(r)[n]))
    ensures n !in Contents(r) ==> Find(r, Some(n)) == None
    decreases |r|
  {
    ContentsKeys(r);
    if |r| > 0 && r[0].name != n {
      SortedTail(r);
      FindMatchesContents(r[1..], n);
      RegisteredCons(r);
    }
  }

  /** Updates of two different names commute. */
  lemma UpdatesCommute<T>(m: map<string, set<T>>, a: string, x: set<T>, b: string, y: set<T>)
    requires a != b
    ensures m[a := x][b := y] == m[b := y][a := x]
  {
  }

  lemma {:induction false} InsertUpdatesContents<T>(r: seq<WS<T>>, ws: WS<T>)
    requires Sorted(r) && !Registered(r, ws.name)
    ensures Contents(Insert(r, ws)) == Contents(r)[ws.name := ws.elems]
    decreases |r|
  {
    if |r| > 0 && !Less(ws.name, r[0].name) {
      SortedTail(r);
      RegisteredCons(r);
      InsertUpdatesContents(r[1..], ws);
      var rest := Insert(r[1..], ws);
      assert ([r[0]] + rest)[1..] == rest;
      UpdatesCommute(Contents(r[1..]), ws.name, ws.elems, r[0].name, r[0].elems);
    }
  }

  /** `add` on the list is an update of the map. */
  lemma AddUpdatesContents<T>(r: seq<WS<T>>, ws: WS<T>)
    requires Sorted(r) && !Registered(r, ws.name)
    ensures Add(r, ws).Success?
    ensures Contents(Add(r, ws).value) == Contents(r)[ws.name := ws.elems]
  {
    InsertUpdatesContents(r, ws);
  }

  /** `remove` on the list is a removal from the map. */
  lemma {:induction false} RemoveDeletesContents<T>(r: seq<WS<T>>, ws: WS<T>)
    ensures Contents(Remove(r, ws)) == Contents(r) - {ws.name}
    decreases |r|
  {
    if |r| > 0 {
      RemoveDeletesContents(r[1..], ws);
      if r[0].name != ws.name {
        var rest := Remove(r[1..], ws);
        assert ([r[0]] + rest)[1..] == rest;
      }
    }
  }

  /** Given `add(ws)`, a following `find(ws.name)` yields `ws`. */
  lemma AddThenFind<T>(r: seq<WS<T>>, ws: WS<T>)
    requires Sorted(r) && !Registered(r, ws.name)
    ensures Add(r, ws).Success?
    ensures Find(Add(r, ws).value, Some(ws.name)) == Some(ws)
  {
    var found := Find(Add(r, ws).value, Some(ws.name));
    assert found.value in Elements(Add(r, ws).value);
  }

  /** `add` and `find` of another name: nothing else changes. */
  lemma AddKeepsOthers<T>(r: seq<WS<T>>, ws: WS<T>, n: string)
    requires Sorted(r) && !Registered(r, ws.name) && n != ws.name
    ensures Add(r, ws).Success?
    ensures Find(Add(r, ws).value, Some(n)) == Find(r, Some(n))
  {
    AddUpdatesContents(r, ws);
    FindMatchesContents(r, n);
    FindMatchesContents(Add(r, ws).value, n);
  }

  /** After `remove(ws)` no set of that name is found; every other name is
      found as before. */
  lemma RemoveThenFind<T>(r: seq<WS<T>>, ws: WS<T>, n: string)
    requires Sorted(r)
    ensures Find(Remove(r, ws), Some(ws.name)) == None
    ensures n != ws.name ==> Find(Remove(r, ws), Some(n)) == Find(r, Some(n))
  {
  }

  /** Removing what was just added restores the registry. */
  lemma {:induction false} AddThenRemove<T>(r: seq<WS<T>>, ws: WS<T>)
    requires Sorted(r) && !Registered(r, ws.name)
    ensures Add(r, ws).Success?
    ensures Remove(Add(r, ws).value, ws) == r
    decreases |r|
  {
    if |r| == 0 {
    } else if Less(ws.name, r[0].name) {
      assert Remove([ws] + r, ws) == Remove(r, ws);
    } else {
      SortedTail(r);
      RegisteredCons(r);
      AddThenRemove(r[1..], ws);
      var rest := Insert(r[1..], ws);
      assert ([r[0]] + rest)[1..] == rest;
      assert r == [r[0]] + r[1..];
    }
  }

  /** Registering a name twice fails the second time and leaves the
      registry with the first set only. */
  lemma AddTwiceFails<T>(ws: WS<T>, again: WS<T>)
    requires again.name == ws.name
    ensures Add([], ws) == Success([ws])
    ensures Add([ws], again) == Failure(AlreadyRegistered)
  {
  }

  /** Adding "B", "A", "C" to the empty registry lists them as "A", "B",
      "C"; `find("Z")` on "A" and "B" finds nothing; removing an absent set
      changes nothing. */
  lemma ScenarioOrdering(a: set<int>, b: set<int>, c: set<int>)
    ensures Add([], WS("B", b)) == Success([WS("B", b)])
    ensures Add([WS("B", b)], WS("A", a)) == Success([WS("A", a), WS("B", b)])
    ensures Add([WS("A", a), WS("B", b)], WS("C", c))
         == Success([WS("A", a), WS("B", b), WS("C", c)])
    ensures GetWorkingSets([WS("A", a), WS("B", b), WS("C", c)])
         == [WS("A", a), WS("B", b), WS("C", c)]
    ensures Find([WS("A", a), WS("B", b)], Some("Z")) == None
    ensures Remove([WS("A", a), WS("B", b)], WS("Z", c)) == [WS("A", a), WS("B", b)]
  {
    var wa, wb, wc := WS("A", a), WS("B", b), WS("C", c);
    assert Less("A", "B") && Less("B", "C") && Less("A", "C");
    LessAsymmetric("A", "C");
    LessAsymmetric("B", "C");
    RegisteredCons([wb]);
    RegisteredCons([wa, wb]);
    assert [wa, wb][1..] == [wb];
    assert !Registered([wb], "A");
    assert !Registered([wa, wb], "C");
    assert !Registered([wa, wb], "Z");
    assert Insert([wb], wa) == [wa] + [wb] == [wa, wb];
    assert Add([wb], wa) == Success([wa, wb]);
    assert !Less("C", "A") && !Less("C", "B");
    assert Insert([wb], wc) == [wb] + Insert([], wc) == [wb, wc];
    assert Insert([wa, wb], wc) == [wa] + Insert([wb], wc) == [wa, wb, wc];
    assert Add([wa, wb], wc) == Success([wa, wb, wc]);
  }
}
