/** The workspace's registry of working sets: the source keeps it in a
    process-wide `TreeSet` ordered by name. Here it is an explicit value, a
    sequence of working sets whose names strictly increase, threaded through
    the operations. The registry starts empty. */
module WorkingSetRegistry {
  import opened Wrappers
  import opened Names
  import opened WorkingSets

  /** The registry's invariant: entries in strictly increasing name order,
      so no two entries share a name. */
  ghost predicate Sorted<T>(r: seq<WS<T>>)
  {
    forall i, j :: 0 <= i < j < |r| ==> Less(r[i].name, r[j].name)
  }

  /** Some entry is named `n`. As the comparator answers zero exactly for
      equal names, this is what `TreeSet.contains` answers for a working set
      named `n`. */
  predicate Registered<T>(r: seq<WS<T>>, n: string)
  {
    exists i :: 0 <= i < |r| && r[i].name == n
  }

  /** Every entry's name orders after `n`. */
  ghost predicate Above<T>(n: string, r: seq<WS<T>>)
  {
    forall i :: 0 <= i < |r| ==> Less(n, r[i].name)
  }

  /** The tail of a sorted registry is sorted and lies above the head. */
  lemma SortedTail<T>(r: seq<WS<T>>)
    requires Sorted(r) && |r| > 0
    ensures Sorted(r[1..]) && Above(r[0].name, r[1..])
  {
  }

  /** A name is registered in a non-empty registry when it is the head's
      name or is registered in the tail. */
  lemma RegisteredCons<T>(r: seq<WS<T>>)
    requires |r| > 0
    ensures Registered(r, r[0].name)
    ensures forall n :: Registered(r, n) <==> r[0].name == n || Registered(r[1..], n)
  {
  }

  /** Every entry of `r'` is one of `r`, so `r'` inherits `r`'s lower bound. */
  lemma AboveSubset<T>(n: string, r: seq<WS<T>>, r': seq<WS<T>>)
    requires Above(n, r) && Elements(r') <= Elements(r)
    ensures Above(n, r')
  {
    forall i | 0 <= i < |r'| ensures Less(n, r'[i].name) {
      assert r'[i] in Elements(r);
    }
  }

  /** A name below every entry is not registered. */
  lemma AboveUnregistered<T>(n: string, r: seq<WS<T>>)
    requires Above(n, r)
    ensures !Registered(r, n)
  {
    if Registered(r, n) {
      var i :| 0 <= i < |r| && r[i].name == n;
      LessIrreflexive(n);
    }
  }

  /** A set whose name orders below a sorted registry can go in front. */
  lemma SortedCons<T>(w: WS<T>, r: seq<WS<T>>)
    requires Sorted(r) && Above(w.name, r)
    ensures Sorted([w] + r)
  {
  }

  /** Sorted insertion of a working set whose name is not yet registered. */
  function Insert<T>(r: seq<WS<T>>, ws: WS<T>): (r': seq<WS<T>>)
    requires Sorted(r) && !Registered(r, ws.name)
    ensures Sorted(r')
    ensures |r'| == |r| + 1
    ensures Elements(r') == Elements(r) + {ws}
    ensures forall n :: Above(n, r) && Less(n, ws.name) ==> Above(n, r')
    decreases |r|
  {
    if |r| == 0 then
      [ws]
    else if Less(ws.name, r[0].name) then
      SortedTail(r);
      assert Above(ws.name, r) by {
        forall i | 1 <= i < |r| ensures Less(ws.name, r[i].name) {
          LessTransitive(ws.name, r[0].name, r[i].name);
        }
      }
      SortedCons(ws, r);
      [ws] + r
    else
      SortedTail(r);
      LessTotal(ws.name, r[0].name);
      var rest := Insert(r[1..], ws);
      assert Above(r[0].name, rest);
      SortedCons(r[0], rest);
      assert Elements(r) == {r[0]} + Elements(r[1..]);
      [r[0]] + rest
  }

  /** `add`: registering a name that is already present fails and leaves
      the registry as it was; otherwise the working set is inserted in name
      order, the registry grows by one and every old entry stays. */
  function Add<T>(r: seq<WS<T>>, ws: WS<T>): (res: Result<seq<WS<T>>, Error>)
    requires Sorted(r)
    ensures res.Failure? <==> Registered(r, ws.name)
    ensures res.Failure? ==> res.error == AlreadyRegistered
    ensures res.Success? ==>
      && Sorted(res.value)
      && ws in res.value
      && |res.value| == |r| + 1
      && Elements(res.value) == Elements(r) + {ws}
  {
    if Registered(r, ws.name) then Failure(AlreadyRegistered)
    else Success(Insert(r, ws))
  }

  /** `remove`: drop the entry named like `ws`. A working set that is not
      registered leaves the registry unchanged. */
  function Remove<T>(r: seq<WS<T>>, ws: WS<T>): (r': seq<WS<T>>)
    ensures Elements(r') == set w | w in r && w.name != ws.name
    ensures !Registered(r', ws.name)
    ensures !Registered(r, ws.name) ==> r' == r
    decreases |r|
  {
    if |r| == 0 then
      r
    else
      var rest := Remove(r[1..], ws);
      assert Elements(r) == {r[0]} + Elements(r[1..]);
      assert Registered(r, ws.name) <==> r[0].name == ws.name || Registered(r[1..], ws.name) by {
        RegisteredCons(r);
      }
      if r[0].name == ws.name then
        rest
      else
        assert Elements([r[0]] + rest) == {r[0]} + Elements(rest);
        assert !Registered(r, ws.name) ==> [r[0]] + r[1..] == r;
        assert !Registered([r[0]] + rest, ws.name) by {
          RegisteredCons([r[0]] + rest);
          assert ([r[0]] + rest)[1..] == rest;
        }
        [r[0]] + rest
  }

  /** `remove` keeps the registry sorted and, when the name was registered,
      drops exactly one entry. */
  lemma {:induction false} RemoveKeepsInvariant<T>(r: seq<WS<T>>, ws: WS<T>)
    requires Sorted(r)
    ensures Sorted(Remove(r, ws))
    ensures Registered(r, ws.name) ==> |Remove(r, ws)| == |r| - 1
    ensures !Registered(r, ws.name) ==> |Remove(r, ws)| == |r|
    decreases |r|
  {
    if |r| > 0 {
      SortedTail(r);
      RemoveKeepsInvariant(r[1..], ws);
      RegisteredCons(r);
      if r[0].name == ws.name {
        AboveUnregistered(r[0].name, r[1..]);
      } else {
        var rest := Remove(r[1..], ws);
        AboveSubset(r[0].name, r[1..], rest);
        SortedCons(r[0], rest);
      }
    }
  }

  /** The linear scan of `find` for a non-null name: the first entry, in
      registry order, whose name is `n`. */
  function Scan<T>(r: seq<WS<T>>, n: string): (found: Option<WS<T>>)
    ensures found.None? <==> !Registered(r, n)
    ensures found.Some? ==> exists i ::
      && 0 <= i < |r| && r[i] == found.value && found.value.name == n
      && forall j :: 0 <= j < i ==> r[j].name != n
    decreases |r|
  {
    if |r| == 0 then None
    else if r[0].name == n then Some(r[0])
    else
      var found := Scan(r[1..], n);
      assert Registered(r, n) ==> Registered(r[1..], n) by {
        if Registered(r, n) {
          var i :| 0 <= i < |r| && r[i].name == n;
          assert r[1..][i - 1] == r[i];
        }
      }
      if found.Some? then
        var i :| 0 <= i < |r| - 1 && r[1..][i] == found.value && found.value.name == n
          && forall j :: 0 <= j < i ==> r[1..][j].name != n;
        assert r[i + 1] == found.value;
        assert forall j :: 0 <= j < i + 1 ==> r[j].name != n by {
          forall j | 0 <= j < i + 1 ensures r[j].name != n {
            if j > 0 { assert r[j] == r[1..][j - 1]; }
          }
        }
        found
      else
        found
  }

  /** `find`: a null name finds nothing; otherwise the first entry of that
      name, or nothing if none is registered. */
  function Find<T>(r: seq<WS<T>>, name: Option<string>): (found: Option<WS<T>>)
    ensures name.None? ==> found.None?
    ensures name.Some? ==> (found.Some? <==> Registered(r, name.value))
    ensures found.Some? ==> found.value in r && found.value.name == name.value
  {
    match name
    case None => None
    case Some(n) => Scan(r, n)
  }

  /** `getWorkingSets`: a fresh array of every entry, in registry order, so
      in increasing name order. */
  function GetWorkingSets<T>(r: seq<WS<T>>): (all: seq<WS<T>>)
    ensures |all| == |r|
    ensures Elements(all) == Elements(r)
    ensures Sorted(r) ==> Sorted(all)
  {
    r[..]
  }
}
