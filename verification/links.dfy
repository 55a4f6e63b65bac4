/** The link names of build.py `FixLinks.run`: in the package's library
    directory, every `*.dylib` file gets a symbolic link whose name has each
    `.dylib` replaced by `.so`, so the interpreter can import it.  The
    directory listing is an input; creating the links is left out. */
module Links {
  import opened Strings

  const DylibSuffix := ".dylib"

  /** `f.replace(".dylib", ".so")`: every occurrence, not only the suffix. */
  function LinkName(f: string): (r: string)
    ensures !Contains(f, DylibSuffix) ==> r == f
  {
    var r := ReplaceAll(f, DylibSuffix, ".so");
    assert !Contains(f, DylibSuffix) ==> r == f by {
      if !Contains(f, DylibSuffix) {
        ReplaceAbsent(f, DylibSuffix, ".so");
      }
    }
    r
  }

  /** A library name with one `.dylib`, at the end, is linked under the same
      stem with `.so`. */
  lemma LinkNameOfLibrary(stem: string)
    requires !Contains(stem, DylibSuffix)
    ensures LinkName(stem + DylibSuffix) == stem + ".so"
  {
    assert HeadUnique(DylibSuffix);
    ReplacePiece(stem, DylibSuffix, "", ".so");
    assert stem + DylibSuffix + "" == stem + DylibSuffix;
    ReplaceAbsent("", DylibSuffix, ".so");
  }

  /** Every `.dylib` in the name is replaced, wherever it stands: a name
      made of `.dylib`-free pieces joined by `.dylib` is linked under the
      same pieces joined by `.so`. */
  lemma LinkNameOfParts(parts: seq<string>)
    requires |parts| > 0 && forall i :: 0 <= i < |parts| ==> !Contains(parts[i], DylibSuffix)
    ensures LinkName(Join(parts, DylibSuffix)) == Join(parts, ".so")
  {
    DylibHeadUnique();
    ReplaceJoin(parts, DylibSuffix, ".so");
  }

  /** No two occurrences of `.dylib` overlap. */
  lemma DylibHeadUnique()
    ensures HeadUnique(DylibSuffix)
  {
  }

  /** glob's `*` does not match a leading `.`, so hidden files are not
      listed. */
  predicate Globbed(f: string)
  {
    EndsWith(f, DylibSuffix) && !StartsWith(f, ".")
  }

  /** The `(existing name, link name)` pairs the step creates for one
      directory listing, in listing order. */
  function PlanLinks(names: seq<string>): (r: seq<(string, string)>)
    ensures forall p :: p in r ==> p.0 in names && Globbed(p.0) && p.1 == LinkName(p.0)
    ensures forall f :: f in names && Globbed(f) ==> (f, LinkName(f)) in r
  {
    if |names| == 0 then []
    else
      var rest := PlanLinks(names[1..]);
      assert forall f :: f in names <==> f == names[0] || f in names[1..];
      if Globbed(names[0]) then [(names[0], LinkName(names[0]))] + rest else rest
  }
}
