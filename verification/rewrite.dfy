/** The install-name rewrite table of `Target.update_cwds` and the way
    `FixInstallNames.run` applies it: every rule is an `re.sub` whose pattern
    is anchored with `^`, and the rules are applied one after another in
    dictionary order, which Python 2 leaves unspecified. */
module Rewrite {
  import opened Strings

  /** One position of an anchored pattern from the table: a literal
      character, or the regular-expression `.` wildcard. */
  datatype PatChar = Lit(c: char) | AnyChar

  type Pattern = seq<PatChar>

  /** Reads pattern text the way `re` does for the table's patterns: `.` is
      the wildcard and every other character stands for itself. */
  function Compile(text: string): Pattern
  {
    seq(|text|, i requires 0 <= i < |text| => if text[i] == '.' then AnyChar else Lit(text[i]))
  }

  /** Python's `.` matches any character except a newline. */
  predicate CharMatches(p: PatChar, c: char)
  {
    match p
    case Lit(d) => c == d
    case AnyChar => c != '\n'
  }

  /** `re.match(pattern, s)` for a pattern anchored with `^`. */
  predicate MatchesPrefix(p: Pattern, s: string)
  {
    |p| <= |s| && forall i :: 0 <= i < |p| ==> CharMatches(p[i], s[i])
  }

  /** One `pattern: replacement` entry of the table. */
  datatype Rule = Rule(pattern: Pattern, replacement: string)

  /** `re.sub(pattern, replacement, s)`: an anchored pattern matches at most
      once, at the start, and only the matched prefix is replaced. */
  function Sub(rule: Rule, s: string): string
  {
    if MatchesPrefix(rule.pattern, s) then rule.replacement + s[|rule.pattern|..] else s
  }

  /** `for k, v in rules: lib = re.sub(k, v, lib)` */
  function ApplyAll(rules: seq<Rule>, s: string): string
    decreases |rules|
  {
    if |rules| == 0 then s else ApplyAll(rules[1..], Sub(rules[0], s))
  }

  /** `re.sub` with an anchored pattern looks only at the first
      `|pattern|` characters: if they match, exactly they are replaced and
      the rest is kept; otherwise nothing changes. */
  lemma SubAnchored(rule: Rule, m: string, rest: string)
    requires |m| == |rule.pattern|
    ensures MatchesPrefix(rule.pattern, m + rest) <==> MatchesPrefix(rule.pattern, m)
    ensures MatchesPrefix(rule.pattern, m) ==> Sub(rule, m + rest) == rule.replacement + rest
    ensures !MatchesPrefix(rule.pattern, m) ==> Sub(rule, m + rest) == m + rest
  {
    assert forall i :: 0 <= i < |m| ==> (m + rest)[i] == m[i];
    assert (m + rest)[|m|..] == rest;
  }

  /** The loop over the rules is sequential: running two lists in a row is
      running their concatenation. */
  lemma {:induction false} ApplyAllAppend(a: seq<Rule>, b: seq<Rule>, s: string)
    ensures ApplyAll(a + b, s) == ApplyAll(b, ApplyAll(a, s))
    decreases |a|
  {
    if |a| > 0 {
      assert (a + b)[0] == a[0] && (a + b)[1..] == a[1..] + b;
      ApplyAllAppend(a[1..], b, Sub(a[0], s));
    } else {
      assert a + b == b;
    }
  }

  /** The two patterns demand different characters at some position, so no
      string matches both. */
  ghost predicate Diverge(p: Pattern, q: Pattern)
  {
    exists k :: 0 <= k < |p| && k < |q| && p[k].Lit? && q[k].Lit? && p[k].c != q[k].c
  }

  /** The pattern demands, at some position, a character other than the one
      `w` has there, so no string beginning with `w` matches it. */
  ghost predicate Blocks(p: Pattern, w: string)
  {
    exists k :: 0 <= k < |p| && k < |w| && p[k].Lit? && p[k].c != w[k]
  }

  /** No string is matched by two different rules. */
  ghost predicate Exclusive(rules: seq<Rule>)
  {
    forall a, b :: a in rules && b in rules && a != b ==> Diverge(a.pattern, b.pattern)
  }

  /** Once a rule has fired, no rule matches its output. */
  ghost predicate Escaping(rules: seq<Rule>)
  {
    forall a, b :: a in rules && b in rules ==> Blocks(b.pattern, a.replacement)
  }

  lemma DivergeExcludes(p: Pattern, q: Pattern, s: string)
    requires Diverge(p, q) && MatchesPrefix(p, s)
    ensures !MatchesPrefix(q, s)
  {
    var k :| 0 <= k < |p| && k < |q| && p[k].Lit? && q[k].Lit? && p[k].c != q[k].c;
    assert CharMatches(p[k], s[k]);
  }

  lemma BlocksExcludes(p: Pattern, w: string, rest: string)
    requires Blocks(p, w)
    ensures !MatchesPrefix(p, w + rest)
  {
    var k :| 0 <= k < |p| && k < |w| && p[k].Lit? && p[k].c != w[k];
    assert (w + rest)[k] == w[k];
  }

  /** When no rule matches, the pass leaves the string alone. */
  lemma {:induction false} ApplyNoMatch(rules: seq<Rule>, s: string)
    requires forall r :: r in rules ==> !MatchesPrefix(r.pattern, s)
    ensures ApplyAll(rules, s) == s
    decreases |rules|
  {
    if |rules| > 0 {
      assert rules[0] in rules;
      assert forall r :: r in rules[1..] ==> r in rules;
      ApplyNoMatch(rules[1..], s);
    }
  }

  /** The output of a rule that fired is matched by no rule. */
  lemma FiredIsFinal(rules: seq<Rule>, rule: Rule, s: string)
    requires Escaping(rules) && rule in rules && MatchesPrefix(rule.pattern, s)
    ensures forall r :: r in rules ==> !MatchesPrefix(r.pattern, Sub(rule, s))
  {
    forall r | r in rules
      ensures !MatchesPrefix(r.pattern, Sub(rule, s))
    {
      BlocksExcludes(r.pattern, rule.replacement, s[|rule.pattern|..]);
    }
  }

  /** With exclusive, escaping rules, the one rule that matches decides the
      result, wherever it sits in the order. */
  lemma {:induction false} ApplyUniqueMatch(rules: seq<Rule>, rule: Rule, s: string)
    requires Exclusive(rules) && Escaping(rules)
    requires rule in rules && MatchesPrefix(rule.pattern, s)
    ensures ApplyAll(rules, s) == Sub(rule, s)
    decreases |rules|
  {
    var h := rules[0];
    assert h in rules;
    var tail := rules[1..];
    assert forall r :: r in tail ==> r in rules;
    if MatchesPrefix(h.pattern, s) {
      if h != rule {
        DivergeExcludes(h.pattern, rule.pattern, s);
        assert false;
      }
      FiredIsFinal(rules, rule, s);
      ApplyNoMatch(tail, Sub(rule, s));
    } else {
      assert rules == [h] + tail;
      assert rule in tail;
      ApplyUniqueMatch(tail, rule, s);
    }
  }

  /** A string changes exactly when some rule matches it, and a changed string
      is matched by no rule any more. */
  lemma RewriteChanges(rules: seq<Rule>, s: string)
    requires Exclusive(rules) && Escaping(rules)
    ensures ApplyAll(rules, s) != s <==> exists r :: r in rules && MatchesPrefix(r.pattern, s)
    ensures forall r :: r in rules ==> !MatchesPrefix(r.pattern, ApplyAll(rules, s)) || ApplyAll(rules, s) == s
  {
    if rule :| rule in rules && MatchesPrefix(rule.pattern, s) {
      ApplyUniqueMatch(rules, rule, s);
      FiredIsFinal(rules, rule, s);
      assert Sub(rule, s) != s;
    } else {
      ApplyNoMatch(rules, s);
    }
  }

  /** Both properties depend only on which rules are present. */
  lemma WellFormedSameMembers(rules: seq<Rule>, other: seq<Rule>)
    requires Exclusive(rules) && Escaping(rules)
    requires forall r :: r in rules <==> r in other
    ensures Exclusive(other) && Escaping(other)
  {
  }

  lemma PermutationSameMembers(rules: seq<Rule>, other: seq<Rule>)
    requires multiset(rules) == multiset(other)
    ensures forall r :: r in rules <==> r in other
  {
    assert forall r :: r in rules <==> r in multiset(rules);
    assert forall r :: r in other <==> r in multiset(other);
  }

  /** The result does not depend on the order in which the rules are tried. */
  lemma RewriteOrderIrrelevant(rules: seq<Rule>, other: seq<Rule>, s: string)
    requires Exclusive(rules) && Escaping(rules)
    requires forall r :: r in rules <==> r in other
    ensures ApplyAll(other, s) == ApplyAll(rules, s)
  {
    WellFormedSameMembers(rules, other);
    if rule :| rule in rules && MatchesPrefix(rule.pattern, s) {
      ApplyUniqueMatch(rules, rule, s);
      ApplyUniqueMatch(other, rule, s);
    } else {
      ApplyNoMatch(rules, s);
      ApplyNoMatch(other, s);
    }
  }

  /** Rewriting a rewritten string changes nothing. */
  lemma RewriteIdempotent(rules: seq<Rule>, s: string)
    requires Exclusive(rules) && Escaping(rules)
    ensures ApplyAll(rules, ApplyAll(rules, s)) == ApplyAll(rules, s)
  {
    if rule :| rule in rules && MatchesPrefix(rule.pattern, s) {
      ApplyUniqueMatch(rules, rule, s);
      FiredIsFinal(rules, rule, s);
      ApplyNoMatch(rules, Sub(rule, s));
    } else {
      ApplyNoMatch(rules, s);
    }
  }

  /** `args.replace` for a build root and distribution name, in the order the
      dictionary literal lists it. */
  function Table(root: string, distname: string): seq<Rule>
  {
    [ Rule(Compile(root + "/local/"), RpathMacro + "extlib/"),
      Rule(Compile(root + "/build/" + distname + "/"), RpathMacro + ""),
      Rule(Compile("libboost_python.dylib"), RpathMacro + "extlib/lib/libboost_python.dylib"),
      Rule(Compile("libEM2.dylib"), RpathMacro + "lib/libEM2.dylib"),
      Rule(Compile("libGLEM2.dylib"), RpathMacro + "lib/libGLEM2.dylib") ]
  }

  /** The loader's package-root token every replacement starts with. */
  const RpathMacro := "@rpath/"

  lemma StartsWithPrefix(p: string, x: string)
    ensures StartsWith(p + x, p)
  {
    assert (p + x)[..|p|] == p;
  }

  lemma DivergeAt(p: Pattern, q: Pattern, k: nat)
    requires k < |p| && k < |q| && p[k].Lit? && q[k].Lit? && p[k].c != q[k].c
    ensures Diverge(p, q) && Diverge(q, p)
  {
  }

  /** What each pattern of the table demands at the positions where they part ways. */
  lemma TablePatternHeads(root: string, distname: string)
    requires |root| > 0 && root[0] == '/'
    ensures var t := Table(root, distname);
      && t[0].pattern[0] == Lit('/') && t[1].pattern[0] == Lit('/')
      && t[0].pattern[|root| + 1] == Lit('l') && t[1].pattern[|root| + 1] == Lit('b')
      && t[2].pattern[0] == Lit('l') && t[3].pattern[0] == Lit('l') && t[4].pattern[0] == Lit('l')
      && t[2].pattern[3] == Lit('b') && t[3].pattern[3] == Lit('E') && t[4].pattern[3] == Lit('G')
  {
    var local := root + "/local/";
    var build := root + "/build/" + distname + "/";
    assert local[0] == '/' && local[|root| + 1] == 'l';
    assert build[0] == '/' && build[|root| + 1] == 'b';
  }

  /** Every replacement in the table starts with `@rpath/`. */
  lemma TableReplacementsAreRpath(root: string, distname: string)
    ensures forall r :: r in Table(root, distname) ==> StartsWith(r.replacement, RpathMacro)
  {
    StartsWithPrefix(RpathMacro, "extlib/");
    StartsWithPrefix(RpathMacro, "");
    StartsWithPrefix(RpathMacro, "extlib/lib/libboost_python.dylib");
    StartsWithPrefix(RpathMacro, "lib/libEM2.dylib");
    StartsWithPrefix(RpathMacro, "lib/libGLEM2.dylib");
  }

  /** Two different entries of the table part ways at a literal character. */
  lemma TablePairDiverges(root: string, distname: string, i: nat, j: nat)
    requires |root| > 0 && root[0] == '/'
    requires i < 5 && j < 5 && i != j
    ensures Diverge(Table(root, distname)[i].pattern, Table(root, distname)[j].pattern)
  {
    var t := Table(root, distname);
    TablePatternHeads(root, distname);
    if (i == 0 && j == 1) || (i == 1 && j == 0) {
      DivergeAt(t[i].pattern, t[j].pattern, |root| + 1);
    } else if i <= 1 || j <= 1 {
      DivergeAt(t[i].pattern, t[j].pattern, 0);
    } else {
      DivergeAt(t[i].pattern, t[j].pattern, 3);
    }
  }

  /** Every pattern of the table starts with a literal other than `@`. */
  lemma TablePatternsAvoidAt(root: string, distname: string)
    requires |root| > 0 && root[0] == '/'
    ensures forall r :: r in Table(root, distname) ==>
              |r.pattern| > 0 && r.pattern[0].Lit? && r.pattern[0].c != '@'
  {
    TablePatternHeads(root, distname);
  }

  /** With a root that starts with `/`, the table's patterns part ways at a
      literal character and none matches text that starts with `@`. */
  lemma TableWellFormed(root: string, distname: string)
    requires |root| > 0 && root[0] == '/'
    ensures Exclusive(Table(root, distname)) && Escaping(Table(root, distname))
  {
    TableExclusive(root, distname, Table(root, distname));
    TableEscaping(root, distname, Table(root, distname));
  }

  lemma TableExclusive(root: string, distname: string, t: seq<Rule>)
    requires |root| > 0 && root[0] == '/' && t == Table(root, distname)
    ensures Exclusive(t)
  {
    forall a, b | a in t && b in t && a != b
      ensures Diverge(a.pattern, b.pattern)
    {
      var i :| 0 <= i < |t| && t[i] == a;
      var j :| 0 <= j < |t| && t[j] == b;
      TablePairDiverges(root, distname, i, j);
    }
  }

  lemma TableEscaping(root: string, distname: string, t: seq<Rule>)
    requires |root| > 0 && root[0] == '/' && t == Table(root, distname)
    ensures Escaping(t)
  {
    TableReplacementsAreRpath(root, distname);
    TablePatternsAvoidAt(root, distname);
    forall a, b | a in t && b in t
      ensures Blocks(b.pattern, a.replacement)
    {
      assert StartsWith(a.replacement, RpathMacro);
      assert a.replacement[0] == RpathMacro[0] == '@';
      assert b.pattern[0].Lit? && b.pattern[0].c != a.replacement[0];
    }
  }

  /** No string is matched by two different entries of the table. */
  lemma TableAtMostOneMatch(root: string, distname: string, a: Rule, b: Rule, s: string)
    requires |root| > 0 && root[0] == '/'
    requires a in Table(root, distname) && b in Table(root, distname)
    requires MatchesPrefix(a.pattern, s) && MatchesPrefix(b.pattern, s)
    ensures a == b
  {
    TableExclusive(root, distname, Table(root, distname));
    if a != b {
      DivergeExcludes(a.pattern, b.pattern, s);
    }
  }

  /** Any ordering of the table: a permutation of its five rules. */
  ghost predicate IsTableOrder(order: seq<Rule>, root: string, distname: string)
  {
    multiset(order) == multiset(Table(root, distname))
  }

  lemma TableOrderWellFormed(order: seq<Rule>, root: string, distname: string)
    requires |root| > 0 && root[0] == '/' && IsTableOrder(order, root, distname)
    ensures Exclusive(order) && Escaping(order)
    ensures forall r :: r in order <==> r in Table(root, distname)
  {
    TableWellFormed(root, distname);
    PermutationSameMembers(order, Table(root, distname));
    WellFormedSameMembers(Table(root, distname), order);
  }

  /** Whatever order the dictionary yields its items in, a reference is
      rewritten the same way. */
  lemma TableOrderIrrelevant(order: seq<Rule>, root: string, distname: string, s: string)
    requires |root| > 0 && root[0] == '/' && IsTableOrder(order, root, distname)
    ensures ApplyAll(order, s) == ApplyAll(Table(root, distname), s)
  {
    TableOrderWellFormed(order, root, distname);
    RewriteOrderIrrelevant(order, Table(root, distname), s);
  }

  /** Running the table over its own output changes nothing. */
  lemma TableIdempotent(order: seq<Rule>, root: string, distname: string, s: string)
    requires |root| > 0 && root[0] == '/' && IsTableOrder(order, root, distname)
    ensures ApplyAll(order, ApplyAll(order, s)) == ApplyAll(order, s)
  {
    TableOrderWellFormed(order, root, distname);
    RewriteIdempotent(order, s);
  }

  /** When every replacement starts with `prefix`, so does every string the
      rules change. */
  lemma RewriteKeepsReplacementPrefix(rules: seq<Rule>, prefix: string, s: string)
    requires Exclusive(rules) && Escaping(rules)
    requires forall r :: r in rules ==> StartsWith(r.replacement, prefix)
    ensures ApplyAll(rules, s) != s ==> StartsWith(ApplyAll(rules, s), prefix)
  {
    if rule :| rule in rules && MatchesPrefix(rule.pattern, s) {
      ApplyUniqueMatch(rules, rule, s);
      assert StartsWith(rule.replacement, prefix);
      assert (rule.replacement + s[|rule.pattern|..])[..|prefix|] == rule.replacement[..|prefix|];
    } else {
      ApplyNoMatch(rules, s);
    }
  }

  /** A reference the table changes becomes an `@rpath/` reference, and it
      changes exactly when one of the five patterns matches it. */
  lemma TableRewritesToRpath(order: seq<Rule>, root: string, distname: string, s: string)
    requires |root| > 0 && root[0] == '/' && IsTableOrder(order, root, distname)
    ensures ApplyAll(order, s) != s <==>
              exists r :: r in Table(root, distname) && MatchesPrefix(r.pattern, s)
    ensures ApplyAll(order, s) != s ==> StartsWith(ApplyAll(order, s), RpathMacro)
  {
    TableOrderWellFormed(order, root, distname);
    RewriteChanges(order, s);
    TableReplacementsAreRpath(root, distname);
    RewriteKeepsReplacementPrefix(order, RpathMacro, s);
  }

  /** The empty reference (the piece after a trailing newline) is never changed. */
  lemma TableKeepsEmpty(order: seq<Rule>, root: string, distname: string)
    requires IsTableOrder(order, root, distname)
    ensures ApplyAll(order, "") == ""
  {
    PermutationSameMembers(order, Table(root, distname));
    ApplyNoMatch(order, "");
  }
}
