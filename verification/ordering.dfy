/** Python's `sorted` over a set of strings: lexicographic order by character
    code, and the strictly ascending list that enumerates a set. */
module Ordering {

  /** `a < b` on Python strings: a proper prefix comes first, otherwise the
      first differing character decides. */
  predicate Less(a: string, b: string)
    decreases |a|
  {
    if |a| == 0 then |b| > 0
    else if |b| == 0 then false
    else if a[0] == b[0] then Less(a[1..], b[1..])
    else a[0] < b[0]
  }

  lemma {:induction false} LessIrreflexive(a: string)
    ensures !Less(a, a)
    decreases |a|
  {
    if |a| > 0 {
      LessIrreflexive(a[1..]);
    }
  }

  lemma {:induction false} LessAsymmetric(a: string, b: string)
    requires Less(a, b)
    ensures !Less(b, a)
    decreases |a|
  {
    if |a| > 0 && |b| > 0 && a[0] == b[0] {
      LessAsymmetric(a[1..], b[1..]);
    }
  }

  lemma {:induction false} LessTransitive(a: string, b: string, c: string)
    requires Less(a, b) && Less(b, c)
    ensures Less(a, c)
    decreases |a|
  {
    if |a| > 0 && a[0] == b[0] && b[0] == c[0] {
      LessTransitive(a[1..], b[1..], c[1..]);
    }
  }

  /** Any two different strings are ordered one way or the other. */
  lemma {:induction false} LessTotal(a: string, b: string)
    requires a != b
    ensures Less(a, b) || Less(b, a)
    decreases |a|
  {
    if |a| > 0 && |b| > 0 && a[0] == b[0] {
      assert a == [a[0]] + a[1..] && b == [b[0]] + b[1..];
      LessTotal(a[1..], b[1..]);
    }
  }

  /** Strictly ascending, hence free of duplicates. */
  predicate StrictlySorted(s: seq<string>)
  {
    forall i, j :: 0 <= i < j < |s| ==> Less(s[i], s[j])
  }

  /** Ascending, with repeats allowed only next to each other: a list of
      items grouped by key, groups in strictly ascending order. */
  predicate Ascending(s: seq<string>)
  {
    forall i, j :: 0 <= i < j < |s| ==> s[i] == s[j] || Less(s[i], s[j])
  }

  lemma SortedTail(s: seq<string>)
    requires |s| > 0 && StrictlySorted(s)
    ensures StrictlySorted(s[1..])
    ensures forall x :: x in s[1..] ==> Less(s[0], x)
  {
    var tail := s[1..];
    forall i, j | 0 <= i < j < |tail| ensures Less(tail[i], tail[j]) {
      assert tail[i] == s[i + 1] && tail[j] == s[j + 1];
    }
    forall x | x in tail ensures Less(s[0], x) {
      var m :| 0 <= m < |tail| && tail[m] == x;
      assert s[m + 1] == x;
    }
  }

  /** A string below every element of an ascending list can go in front. */
  lemma SortedCons(x: string, s: seq<string>)
    requires StrictlySorted(s)
    requires forall j :: 0 <= j < |s| ==> Less(x, s[j])
    ensures StrictlySorted([x] + s)
  {
    var t := [x] + s;
    forall i, j | 0 <= i < j < |t|
      ensures Less(t[i], t[j])
    {
      assert t[j] == s[j - 1];
      if i > 0 {
        assert t[i] == s[i - 1];
      }
    }
  }

  /** Adding one string to a strictly ascending list. */
  function Insert(x: string, s: seq<string>): (r: seq<string>)
    requires StrictlySorted(s)
    ensures StrictlySorted(r)
    ensures forall y :: y in r <==> y == x || y in s
  {
    if |s| == 0 then [x]
    else if x == s[0] then s
    else if Less(x, s[0]) then
      assert forall j :: 0 < j < |s| ==> Less(x, s[j]) by {
        forall j | 0 < j < |s| ensures Less(x, s[j]) {
          LessTransitive(x, s[0], s[j]);
        }
      }
      [x] + s
    else
      var rest := Insert(x, s[1..]);
      LessTotal(x, s[0]);
      assert forall y :: y in s[1..] ==> Less(s[0], y);
      [s[0]] + rest
  }

  /** `sorted(set(xs))`: the distinct strings of `xs` in ascending order. */
  function SortedSet(xs: seq<string>): (r: seq<string>)
    ensures StrictlySorted(r)
    ensures forall y :: y in r <==> y in xs
  {
    if |xs| == 0 then []
    else
      var rest := SortedSet(xs[1..]);
      assert forall y :: y in xs <==> y == xs[0] || y in xs[1..];
      Insert(xs[0], rest)
  }

  /** A set has only one strictly ascending enumeration, so `sorted` is
      determined by the set alone. */
  lemma {:induction false} SortedEnumerationUnique(a: seq<string>, b: seq<string>)
    requires StrictlySorted(a) && StrictlySorted(b)
    requires forall y :: y in a <==> y in b
    ensures a == b
    decreases |a|
  {
    assert |a| > 0 ==> a[0] in b;
    assert |b| > 0 ==> b[0] in a;
    if |a| > 0 && |b| > 0 {
      assert a == [a[0]] + a[1..] && b == [b[0]] + b[1..];
      if a[0] != b[0] {
        assert a[0] in b && b[0] in a;
        var i :| 0 <= i < |b| && b[i] == a[0];
        var j :| 0 <= j < |a| && a[j] == b[0];
        LessIrreflexive(a[0]);
        LessIrreflexive(b[0]);
        assert i > 0 && j > 0;
        LessAsymmetric(a[0], b[0]);
        assert false;
      }
      forall y
        ensures y in a[1..] <==> y in b[1..]
      {
        if y in a[1..] {
          var k :| 0 <= k < |a| - 1 && a[1..][k] == y;
          assert Less(a[0], a[k + 1]);
          LessIrreflexive(a[0]);
          assert y != b[0] && y in b;
        }
        if y in b[1..] {
          var k :| 0 <= k < |b| - 1 && b[1..][k] == y;
          assert Less(b[0], b[k + 1]);
          LessIrreflexive(b[0]);
          assert y != a[0] && y in a;
        }
      }
      SortedEnumerationUnique(a[1..], b[1..]);
    }
  }
}
