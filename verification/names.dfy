/** The order in which the registry keeps working sets.

    The registry is a `TreeSet` built with a `WorkingSetComparator`, which is
    not part of this model. It is ASSUMED here to compare working sets by
    their names, ordinally: character by character, with a proper prefix
    ordered before the longer name, as `String.compareTo` does. */
module Names {

  /** Strict ordinal order on names. */
  predicate Less(a: string, b: string)
    decreases |a|
  {
    if |a| == 0 then |b| > 0
    else if |b| == 0 then false
    else if a[0] != b[0] then a[0] < b[0]
    else Less(a[1..], b[1..])
  }

  /** The assumed comparator: negative, zero or positive as `a` orders
      before, equal to or after `b`. */
  function Compare(a: string, b: string): (c: int)
    ensures c == 0 <==> a == b
    ensures c < 0 <==> Less(a, b)
    ensures c > 0 <==> Less(b, a)
  {
    LessIrreflexive(a);
    LessTotal(a, b);
    if Less(a, b) then LessAsymmetric(a, b); -1
    else if a == b then 0
    else 1
  }

  lemma {:induction false} LessIrreflexive(a: string)
    ensures !Less(a, a)
  {
    if |a| > 0 {
      LessIrreflexive(a[1..]);
    }
  }

  lemma {:induction false} LessAsymmetric(a: string, b: string)
    requires Less(a, b)
    ensures !Less(b, a)
    decreases |a|
  {
    if |a| > 0 && |b| > 0 && a[0] == b[0] {
      LessAsymmetric(a[1..], b[1..]);
    }
  }

  lemma {:induction false} LessTransitive(a: string, b: string, c: string)
    requires Less(a, b) && Less(b, c)
    ensures Less(a, c)
    decreases |a|
  {
    if |a| > 0 && a[0] == b[0] && b[0] == c[0] {
      LessTransitive(a[1..], b[1..], c[1..]);
    }
  }

  /** Any two distinct names are ordered one way or the other, so the
      comparator returns zero only for equal names. */
  lemma {:induction false} LessTotal(a: string, b: string)
    ensures a == b || Less(a, b) || Less(b, a)
    decreases |a|
  {
    if |a| > 0 && |b| > 0 && a[0] == b[0] {
      LessTotal(a[1..], b[1..]);
      if a[1..] == b[1..] {
        assert a == [a[0]] + a[1..];
        assert b == [b[0]] + b[1..];
      }
    }
  }
}
