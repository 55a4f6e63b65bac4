/** The handful of Python string operations the relocation planner relies on,
    each defined with the semantics of Python 2's `str` methods. */
module Strings {

  /** `s.startswith(t)` */
  predicate StartsWith(s: string, t: string)
  {
    |t| <= |s| && s[..|t|] == t
  }

  /** `s.endswith(t)` */
  predicate EndsWith(s: string, t: string)
  {
    |t| <= |s| && s[|s| - |t|..] == t
  }

  /** `t in s`: some suffix of `s` starts with `t`. */
  predicate Contains(s: string, t: string)
    decreases |s|
  {
    StartsWith(s, t) || (|s| > 0 && Contains(s[1..], t))
  }

  /** A substring found at a known offset is contained. */
  lemma {:induction false} ContainsAt(s: string, t: string, i: nat)
    requires i + |t| <= |s| && s[i..i + |t|] == t
    ensures Contains(s, t)
    decreases i
  {
    if i == 0 {
      assert s[..|t|] == t;
    } else {
      assert s[1..][i - 1..i - 1 + |t|] == s[i..i + |t|];
      ContainsAt(s[1..], t, i - 1);
    }
  }

  /** Containment survives putting text on either side. */
  lemma {:induction false} ContainsInfix(a: string, s: string, b: string, t: string)
    requires Contains(s, t)
    ensures Contains(a + s + b, t)
    decreases |s|
  {
    if StartsWith(s, t) {
      assert (a + s + b)[|a|..|a| + |t|] == s[..|t|];
      ContainsAt(a + s + b, t, |a|);
    } else {
      ContainsInfix(a + [s[0]], s[1..], b, t);
      assert (a + [s[0]]) + s[1..] + b == a + s + b;
    }
  }

  /** Number of occurrences of character `c` in `s` (`s.count(c)`). */
  function Count(s: string, c: char): nat
  {
    if |s| == 0 then 0 else (if s[0] == c then 1 else 0) + Count(s[1..], c)
  }

  lemma {:induction false} CountAppend(a: string, b: string, c: char)
    ensures Count(a + b, c) == Count(a, c) + Count(b, c)
    decreases |a|
  {
    if |a| == 0 {
      assert a + b == b;
    } else {
      assert (a + b)[1..] == a[1..] + b;
      CountAppend(a[1..], b, c);
    }
  }

  lemma {:induction false} CountAbsent(s: string, c: char)
    requires c !in s
    ensures Count(s, c) == 0
    decreases |s|
  {
    if |s| > 0 {
      assert forall x :: x in s[1..] ==> x in s;
      CountAbsent(s[1..], c);
    }
  }

  /** `sep.join(parts)` */
  function Join(parts: seq<string>, sep: string): string
  {
    if |parts| == 0 then ""
    else if |parts| == 1 then parts[0]
    else parts[0] + sep + Join(parts[1..], sep)
  }

  /** `s.split(sep)` for a one-character separator: the maximal pieces between
      separators, so there is always one more piece than separator. */
  function Split(s: string, sep: char): (r: seq<string>)
    ensures |r| == Count(s, sep) + 1
    ensures forall i :: 0 <= i < |r| ==> sep !in r[i]
    ensures Join(r, [sep]) == s
    decreases |s|
  {
    if |s| == 0 then [""]
    else
      var rest := Split(s[1..], sep);
      if s[0] == sep then
        assert s == [sep] + s[1..];
        [""] + rest
      else
        var r := [[s[0]] + rest[0]] + rest[1..];
        assert Join(r, [sep]) == [s[0]] + Join(rest, [sep]);
        r
  }

  /** Splitting a piece that has no separator in front of more text peels off that piece. */
  lemma {:induction false} SplitPiece(p: string, rest: string, sep: char)
    requires sep !in p
    ensures Split(p + [sep] + rest, sep) == [p] + Split(rest, sep)
    decreases |p|
  {
    if |p| == 0 {
      assert p + [sep] + rest == [sep] + rest;
      assert ([sep] + rest)[1..] == rest;
    } else {
      var s := p + [sep] + rest;
      assert s[0] == p[0];
      assert s[1..] == p[1..] + [sep] + rest;
      assert sep !in p[1..] by {
        assert forall x :: x in p[1..] ==> x in p;
      }
      SplitPiece(p[1..], rest, sep);
      assert [p[0]] + p[1..] == p;
    }
  }

  /** Splitting is the inverse of joining pieces that carry no separator. */
  lemma {:induction false} SplitJoin(parts: seq<string>, sep: char)
    requires |parts| > 0
    requires forall i :: 0 <= i < |parts| ==> sep !in parts[i]
    ensures Split(Join(parts, [sep]), sep) == parts
    decreases |parts|
  {
    if |parts| == 1 {
      SplitNoSep(parts[0], sep);
    } else {
      SplitJoin(parts[1..], sep);
      SplitPiece(parts[0], Join(parts[1..], [sep]), sep);
      assert parts == [parts[0]] + parts[1..];
    }
  }

  lemma {:induction false} SplitNoSep(s: string, sep: char)
    requires sep !in s
    ensures Split(s, sep) == [s]
    decreases |s|
  {
    if |s| > 0 {
      assert sep !in s[1..] by {
        assert forall x :: x in s[1..] ==> x in s;
      }
      SplitNoSep(s[1..], sep);
      assert [s[0]] + s[1..] == s;
    }
  }

  /** A trailing separator yields a final empty piece. */
  lemma {:induction false} SplitTrailing(s: string, sep: char)
    ensures Split(s + [sep], sep) == Split(s, sep) + [""]
    ensures Split(s + [sep], sep)[|Split(s + [sep], sep)| - 1] == ""
    decreases |s|
  {
    var t := s + [sep];
    if |s| == 0 {
      assert t[1..] == "";
    } else {
      assert t[0] == s[0] && t[1..] == s[1..] + [sep];
      SplitTrailing(s[1..], sep);
      var rest := Split(s[1..], sep);
      if s[0] != sep {
        var longer := rest + [""];
        assert longer[0] == rest[0] && longer[1..] == rest[1..] + [""];
      }
    }
  }

  /** `n` copies of `s`; Python's `s * n` is empty whenever `n <= 0`. */
  function Repeat(s: string, n: int): (r: string)
    ensures n <= 0 ==> r == ""
    ensures |s| > 0 ==> |r| >= (if n <= 0 then 0 else n)
    decreases if n <= 0 then 0 else n
  {
    if n <= 0 then "" else s + Repeat(s, n - 1)
  }

  /** `s.replace(target, repl)`: every non-overlapping occurrence of `target`, scanning
      left to right, is replaced; an empty `target` inserts `repl` around every
      character. */
  function ReplaceAll(s: string, target: string, repl: string): string
    decreases |s|
  {
    if |target| == 0 then
      if |s| == 0 then repl else repl + [s[0]] + ReplaceAll(s[1..], target, repl)
    else if StartsWith(s, target) then repl + ReplaceAll(s[|target|..], target, repl)
    else if |s| == 0 then ""
    else [s[0]] + ReplaceAll(s[1..], target, repl)
  }

  /** Text without any occurrence of `target` is left alone by `replace`. */
  lemma {:induction false} ReplaceAbsent(s: string, target: string, repl: string)
    requires |target| > 0 && !Contains(s, target)
    ensures ReplaceAll(s, target, repl) == s
    decreases |s|
  {
    if |s| > 0 {
      ReplaceAbsent(s[1..], target, repl);
      assert [s[0]] + s[1..] == s;
    }
  }

  /** Removing a prefix that does not reappear in the rest leaves exactly the rest. */
  lemma StripPrefixByReplace(prefix: string, rest: string)
    requires |prefix| > 0 && !Contains(rest, prefix)
    ensures ReplaceAll(prefix + rest, prefix, "") == rest
  {
    assert (prefix + rest)[..|prefix|] == prefix;
    assert (prefix + rest)[|prefix|..] == rest;
    ReplaceAbsent(rest, prefix, "");
  }

  /** The first character of `t` does not occur again in `t`, so no two
      occurrences of `t` can overlap. */
  predicate HeadUnique(t: string)
  {
    |t| > 0 && forall j :: 0 < j < |t| ==> t[j] != t[0]
  }

  /** A non-empty text without `t` cannot start an occurrence of `t` that
      runs on into a following `t`. */
  lemma NoEarlyMatch(stem: string, target: string, rest: string)
    requires |stem| > 0 && HeadUnique(target) && !Contains(stem, target)
    ensures !StartsWith(stem + target + rest, target)
  {
    var s := stem + target + rest;
    if |stem| >= |target| {
      assert s[..|target|] == stem[..|target|];
    } else {
      assert s[|stem|] == target[0] && target[|stem|] != target[0];
    }
  }

  /** `replace` passes over a stretch free of `target`, replaces the
      occurrence that ends it, and carries on with the rest. */
  lemma {:induction false} ReplacePiece(stem: string, target: string, rest: string, repl: string)
    requires HeadUnique(target) && !Contains(stem, target)
    ensures ReplaceAll(stem + target + rest, target, repl) == stem + repl + ReplaceAll(rest, target, repl)
    decreases |stem|
  {
    if |stem| == 0 {
      ReplaceAtTarget(target, rest, repl);
      assert stem + target + rest == target + rest;
    } else {
      var s := stem + target + rest;
      var tail := stem[1..];
      NoEarlyMatch(stem, target, rest);
      ReplacePassOver(s, target, repl);
      assert s[1..] == tail + target + rest;
      ReplacePiece(tail, target, rest, repl);
      ConsAssoc(stem, repl + ReplaceAll(rest, target, repl));
    }
  }

  lemma ConsAssoc(stem: string, more: string)
    requires |stem| > 0
    ensures [stem[0]] + (stem[1..] + more) == stem + more
  {
    assert [stem[0]] + stem[1..] == stem;
  }

  /** An occurrence at the front is replaced and scanning resumes after it. */
  lemma ReplaceAtTarget(target: string, rest: string, repl: string)
    requires |target| > 0
    ensures ReplaceAll(target + rest, target, repl) == repl + ReplaceAll(rest, target, repl)
  {
    var s := target + rest;
    assert s[..|target|] == target && s[|target|..] == rest;
  }

  /** Text that does not start with the target keeps its first character. */
  lemma ReplacePassOver(s: string, target: string, repl: string)
    requires |target| > 0 && |s| > 0 && !StartsWith(s, target)
    ensures ReplaceAll(s, target, repl) == [s[0]] + ReplaceAll(s[1..], target, repl)
  {
  }

  /** `replace` replaces every occurrence: text made of `target`-free pieces
      joined by `target` comes out as the same pieces joined by `repl`. */
  lemma {:induction false} ReplaceJoin(parts: seq<string>, target: string, repl: string)
    requires HeadUnique(target) && |parts| > 0
    requires forall i :: 0 <= i < |parts| ==> !Contains(parts[i], target)
    ensures ReplaceAll(Join(parts, target), target, repl) == Join(parts, repl)
    decreases |parts|
  {
    if |parts| == 1 {
      ReplaceAbsent(parts[0], target, repl);
    } else {
      var rest := parts[1..];
      assert forall i :: 0 <= i < |rest| ==> rest[i] == parts[i + 1];
      ReplaceJoin(rest, target, repl);
      ReplacePiece(parts[0], target, Join(rest, target), repl);
    }
  }

  /** Python 2's `str.strip()` whitespace: space, tab, newline, carriage
      return, vertical tab and form feed. */
  predicate IsSpace(c: char)
  {
    c == ' ' || c == '\t' || c == '\n' || c == '\r' || c == '\U{000B}' || c == '\U{000C}'
  }

  /** `s.lstrip()` */
  function StripLeft(s: string): (r: string)
    ensures |r| <= |s| && r == s[|s| - |r|..]
    ensures forall i :: 0 <= i < |s| - |r| ==> IsSpace(s[i])
    ensures r == "" || !IsSpace(r[0])
    decreases |s|
  {
    if |s| > 0 && IsSpace(s[0]) then StripLeft(s[1..]) else s
  }

  /** `s.rstrip()` */
  function StripRight(s: string): (r: string)
    ensures |r| <= |s| && r == s[..|r|]
    ensures forall i :: |r| <= i < |s| ==> IsSpace(s[i])
    ensures r == "" || !IsSpace(r[|r| - 1])
    decreases |s|
  {
    if |s| > 0 && IsSpace(s[|s| - 1]) then StripRight(s[..|s| - 1]) else s
  }

  /** How many whitespace characters `s.strip()` removes from the front. */
  function LeadingSpaces(s: string): (n: nat)
    ensures n <= |s| && StripLeft(s) == s[n..]
  {
    |s| - |StripLeft(s)|
  }

  /** `s.strip()`: neither starts nor ends with whitespace (see
      `StripKeepsMiddle` for what is removed). */
  function Strip(s: string): (r: string)
    ensures |r| <= |s|
    ensures r == "" || (!IsSpace(r[0]) && !IsSpace(r[|r| - 1]))
  {
    StripRight(StripLeft(s))
  }

  /** `s.strip()` keeps one contiguous piece of `s` and removes only
      whitespace around it. */
  lemma {:induction false} StripKeepsMiddle(s: string, n: nat, r: string)
    requires n == LeadingSpaces(s) && r == Strip(s)
    ensures n + |r| <= |s| && r == s[n..n + |r|]
    ensures forall k :: 0 <= k < n ==> IsSpace(s[k])
    ensures forall k :: n + |r| <= k < |s| ==> IsSpace(s[k])
  {
    MiddleOf(s, StripLeft(s), r);
  }

  /** Whitespace trimmed off the front (giving `l`) and then off the back
      (giving `r`) leaves one slice of `s` with whitespace on both sides. */
  lemma MiddleOf(s: string, l: string, r: string)
    requires |l| <= |s| && l == s[|s| - |l|..]
    requires forall i :: 0 <= i < |s| - |l| ==> IsSpace(s[i])
    requires |r| <= |l| && r == l[..|r|]
    requires forall i :: |r| <= i < |l| ==> IsSpace(l[i])
    ensures r == s[|s| - |l|..|s| - |l| + |r|]
    ensures forall k :: |s| - |l| + |r| <= k < |s| ==> IsSpace(s[k])
  {
    var n := |s| - |l|;
    forall k | n + |r| <= k < |s|
      ensures IsSpace(s[k])
    {
      assert s[k] == l[k - n];
    }
  }

  /** `s.partition(" ")[0]`: everything before the first space. */
  function BeforeSpace(s: string): (r: string)
    ensures |r| <= |s| && r == s[..|r|]
    ensures ' ' !in r
    ensures |r| < |s| ==> s[|r|] == ' '
  {
    if |s| == 0 || s[0] == ' ' then "" else [s[0]] + BeforeSpace(s[1..])
  }

  /** ASCII `str.upper()` (the byte-string behaviour in the C locale). */
  function Upper(s: string): (r: string)
    ensures |r| == |s|
    ensures forall i :: 0 <= i < |s| ==>
              r[i] == (if 'a' <= s[i] <= 'z' then (s[i] as int - 32) as char else s[i])
  {
    if |s| == 0 then ""
    else [if 'a' <= s[0] <= 'z' then (s[0] as int - 32) as char else s[0]] + Upper(s[1..])
  }
}
