/** The macOS relocation step (build.py `FixInstallNames`): for every
    candidate that `otool -L` recognises as a Mach-O file, give it a
    root-relative identity, a loader-relative search anchor for its depth,
    and rewrite each linked-library reference the table changes.  What
    `otool` prints for a file is an input. */
module InstallNames {
  import opened Strings
  import opened Paths
  import opened Ordering
  import opened Discovery
  import opened Rewrite
  import opened Commands

  /** The outcome of `check_output(['otool', '-L', f])`: a non-zero exit
      status raises, otherwise the printed text is returned. */
  datatype OtoolRun = OtoolFailed | OtoolPrinted(output: string)

  /** What `find_deps` yields: the file is not a Mach-O binary (it raised),
      or the install names of the libraries it links. */
  datatype Deps = NotMachO | Linked(libs: seq<string>)

  /** The message `otool` prints, with a zero exit status, for files it
      cannot read. */
  const NotObject := "not an object file"

  /** `line.strip().partition(" ")[0]`: the install name at the start of one
      line of the listing, without the version notes after it. */
  function InstallNameOf(line: string): (r: string)
    ensures ' ' !in r
    ensures r == "" || !IsSpace(r[0])
    ensures StartsWith(Strip(line), r)
    ensures |r| < |Strip(line)| ==> Strip(line)[|r|] == ' '
  {
    BeforeSpace(Strip(line))
  }

  function InstallNamesOf(lines: seq<string>): (r: seq<string>)
    ensures |r| == |lines| && forall i :: 0 <= i < |lines| ==> r[i] == InstallNameOf(lines[i])
  {
    seq(|lines|, i requires 0 <= i < |lines| => InstallNameOf(lines[i]))
  }

  /** `find_deps`: the listing is cut at newlines and its first line (the
      `file:` header) dropped, so there is one entry per newline, entry `i`
      read from line `i + 1`; a listing that ends in a newline contributes a
      final empty entry. */
  function FindDeps(run: OtoolRun): (d: Deps)
    ensures d.NotMachO? <==> run.OtoolFailed? || Contains(run.output, NotObject)
    ensures d.Linked? ==> |d.libs| == Count(run.output, '\n')
    ensures d.Linked? ==> forall i :: 0 <= i < |d.libs| ==>
              d.libs[i] == InstallNameOf(Split(run.output, '\n')[i + 1])
    ensures d.Linked? ==> forall i :: 0 <= i < |d.libs| ==> ' ' !in d.libs[i]
    ensures d.Linked? && EndsWith(run.output, "\n") ==> |d.libs| > 0 && d.libs[|d.libs| - 1] == ""
  {
    if run.OtoolFailed? || Contains(run.output, NotObject) then NotMachO
    else
      ListingEntries(run.output);
      ListingLastEntry(run.output, Split(run.output, '\n'));
      Linked(InstallNamesOf(Split(run.output, '\n')[1..]))
  }

  /** The entries read from a listing: one per newline, entry `i` read from
      line `i + 1`. */
  lemma ListingEntries(output: string)
    ensures var libs := InstallNamesOf(Split(output, '\n')[1..]);
      && |libs| == Count(output, '\n')
      && (forall i :: 0 <= i < |libs| ==> libs[i] == InstallNameOf(Split(output, '\n')[i + 1]))
  {
    var lines := Split(output, '\n');
    var libs := InstallNamesOf(lines[1..]);
    assert |libs| == |lines| - 1;
    forall i | 0 <= i < |libs|
      ensures libs[i] == InstallNameOf(lines[i + 1])
    {
      assert lines[1..][i] == lines[i + 1];
    }
  }

  /** A listing that ends in a newline yields an empty last entry. */
  lemma ListingLastEntry(output: string, lines: seq<string>)
    requires lines == Split(output, '\n')
    ensures EndsWith(output, "\n") ==>
      var libs := InstallNamesOf(lines[1..]); |libs| > 0 && libs[|libs| - 1] == ""
  {
    TrailingNewlinePiece(output);
    if EndsWith(output, "\n") {
      LastLineEmpty(lines);
    }
  }

  /** Lines whose last one is empty give an empty last entry. */
  lemma LastLineEmpty(lines: seq<string>)
    requires |lines| >= 2 && lines[|lines| - 1] == ""
    ensures var libs := InstallNamesOf(lines[1..]); |libs| > 0 && libs[|libs| - 1] == ""
  {
    var tail := lines[1..];
    assert tail[|tail| - 1] == "";
    EmptyLineNoName(tail[|tail| - 1]);
  }

  lemma EmptyLineNoName(line: string)
    requires line == ""
    ensures InstallNameOf(line) == ""
  {
    assert |Strip(line)| == 0;
  }

  /** Text ending in a newline splits into a final empty piece. */
  lemma TrailingNewlinePiece(s: string)
    ensures EndsWith(s, "\n") ==> |Split(s, '\n')| >= 2 && Split(s, '\n')[|Split(s, '\n')| - 1] == ""
  {
    if EndsWith(s, "\n") {
      var body := s[..|s| - 1];
      assert s == body + ['\n'];
      SplitTrailing(body, '\n');
      CountAppend(body, "\n", '\n');
    }
  }

  /** A name with no whitespace in front of a space is cut off intact. */
  lemma {:induction false} BeforeSpaceOf(name: string, tail: string)
    requires ' ' !in name
    requires tail == "" || tail[0] == ' '
    ensures BeforeSpace(name + tail) == name
    decreases |name|
  {
    if |name| == 0 {
      assert name + tail == tail;
    } else {
      assert (name + tail)[1..] == name[1..] + tail;
      assert ' ' !in name[1..] by {
        assert forall x :: x in name[1..] ==> x in name;
      }
      BeforeSpaceOf(name[1..], tail);
    }
  }

  /** No character of `s` is whitespace. */
  predicate Solid(s: string)
  {
    forall i :: 0 <= i < |s| ==> !IsSpace(s[i])
  }

  /** A dependency line of the listing, `<tab><name> (<notes>)`, yields the
      name. */
  lemma {:induction false} InstallNameOfEntry(name: string, notes: string)
    requires name != "" && Solid(name)
    ensures InstallNameOf("\t" + name + " " + notes) == name
  {
    EntryLine("\t" + name + " " + notes, name, notes);
  }

  lemma {:induction false} EntryLine(line: string, name: string, notes: string)
    requires name != "" && Solid(name)
    requires line == "\t" + name + " " + notes
    ensures InstallNameOf(line) == name
  {
    var tail := " " + notes;
    var body := name + tail;
    assert line == ['\t'] + body;
    SolidEnds(name);
    assert body[0] == name[0];
    StripLeftOne('\t', body);
    assert Strip(line) == StripRight(body);
    StripRightKeepsHead(name, tail);
    var r := StripRight(body);
    var rest := r[|name|..];
    assert r == body[..|r|];
    assert rest == "" || rest[0] == body[|name|];
    assert r == name + rest;
    BeforeSpaceOf(name, rest);
    assert BeforeSpace(r) == name;
    assert Strip(line) == r;
    assert InstallNameOf(line) == name;
  }

  /** A solid name has no space and neither starts nor ends with whitespace. */
  lemma SolidEnds(name: string)
    requires name != "" && Solid(name)
    ensures ' ' !in name && !IsSpace(name[0]) && !IsSpace(name[|name| - 1])
  {
    forall i | 0 <= i < |name| ensures name[i] != ' ' {
      assert !IsSpace(name[i]);
    }
  }

  /** Stripping one leading whitespace character in front of a non-blank start. */
  lemma StripLeftOne(c: char, body: string)
    requires IsSpace(c) && body != "" && !IsSpace(body[0])
    ensures StripLeft([c] + body) == body
  {
    assert ([c] + body)[1..] == body;
  }

  /** Right-stripping never cuts into a head that ends in a non-blank. */
  lemma StripRightKeepsHead(head: string, tail: string)
    requires head != "" && !IsSpace(head[|head| - 1])
    ensures |head| <= |StripRight(head + tail)|
    ensures StripRight(head + tail)[..|head|] == head
  {
    var s := head + tail;
    assert s[|head| - 1] == head[|head| - 1];
    var r := StripRight(s);
    assert r == s[..|r|];
  }

  /** The lines of an `otool -L` listing: the header, then one tabbed line per
      linked library. */
  function Listing(header: string, names: seq<string>, notes: seq<string>): (lines: seq<string>)
    requires |notes| == |names|
    ensures |lines| == |names| + 1 && lines[0] == header
  {
    [header] + seq(|names|, i requires 0 <= i < |names| => "\t" + names[i] + " " + notes[i])
  }

  /** Reading back a complete listing (each line ended by a newline) yields
      the listed install names, then one empty entry for the text after the
      last newline. */
  lemma FindDepsListing(header: string, names: seq<string>, notes: seq<string>)
    requires |notes| == |names|
    requires '\n' !in header
    requires forall i :: 0 <= i < |names| ==> names[i] != "" && Solid(names[i]) && '\n' !in notes[i]
    requires !Contains(Join(Listing(header, names, notes), "\n") + "\n", NotObject)
    ensures FindDeps(OtoolPrinted(Join(Listing(header, names, notes), "\n") + "\n")) == Linked(names + [""])
  {
    var lines := Listing(header, names, notes);
    ListingSplits(header, names, notes);
    var after := (lines + [""])[1..];
    assert after == lines[1..] + [""];
    forall i | 0 <= i < |names|
      ensures InstallNameOf(after[i]) == names[i]
    {
      assert after[i] == "\t" + names[i] + " " + notes[i];
      InstallNameOfEntry(names[i], notes[i]);
    }
    EmptyLineNoName(after[|names|]);
    assert InstallNamesOf(after) == names + [""];
  }

  /** The listing's lines carry no newline, so cutting the text recovers them. */
  lemma ListingSplits(header: string, names: seq<string>, notes: seq<string>)
    requires |notes| == |names|
    requires '\n' !in header
    requires forall i :: 0 <= i < |names| ==> Solid(names[i]) && '\n' !in notes[i]
    ensures Split(Join(Listing(header, names, notes), "\n") + "\n", '\n') == Listing(header, names, notes) + [""]
  {
    var lines := Listing(header, names, notes);
    forall i | 0 <= i < |lines|
      ensures '\n' !in lines[i]
    {
      if i > 0 {
        var n := names[i - 1];
        assert lines[i] == "\t" + n + " " + notes[i - 1];
        assert forall k :: 0 <= k < |n| ==> n[k] != '\n' by {
          forall k | 0 <= k < |n| ensures n[k] != '\n' { assert !IsSpace(n[k]); }
        }
      }
    }
    SplitJoin(lines, '\n');
    SplitTrailing(Join(lines, "\n"), '\n');
  }

  /** `f.replace(cwd_rpath, "")[1:]`: the path below the package root. */
  function RelativeName(cwdRpath: string, f: string): (frel: string)
    ensures var x := ReplaceAll(f, cwdRpath, "");
      if x == "" then frel == "" else x == [x[0]] + frel
  {
    var x := ReplaceAll(f, cwdRpath, "");
    if |x| == 0 then "" else x[1..]
  }

  /** `id_rpath`: `@loader_path` followed by one `..` for each `/` in the
      root-relative name, reaching the package root from the file's
      directory. */
  function IdRpath(frel: string): (r: string)
    ensures r == "@loader_path" + Repeat("/..", Count(frel, '/'))
  {
    var p := |Split(frel, '/')| - 1;
    JoinCopies("@loader_path", "..", p);
    assert "/" + ".." == "/..";
    PathJoinAll("@loader_path", Copies("..", p))
  }

  /** `os.path.join('@rpath', frel)`: the root-relative identity; an absolute
      name would replace the token altogether. */
  function InstallId(frel: string): (r: string)
    ensures !StartsWith(frel, "/") ==> r == "@rpath/" + frel
    ensures StartsWith(frel, "/") ==> r == frel
  {
    PathJoin("@rpath", frel)
  }

  /** A file `dirs/name` below the root is identified as `@rpath/dirs/name`
      and anchored one `..` per directory above it. */
  lemma NamesForNestedFile(cwdRpath: string, dirs: seq<string>, name: string)
    requires cwdRpath != ""
    requires forall i :: 0 <= i < |dirs| ==> dirs[i] != "" && '/' !in dirs[i]
    requires name != "" && '/' !in name
    requires !Contains("/" + Join(dirs + [name], "/"), cwdRpath)
    ensures RelativeName(cwdRpath, cwdRpath + "/" + Join(dirs + [name], "/")) == Join(dirs + [name], "/")
    ensures InstallId(Join(dirs + [name], "/")) == "@rpath/" + Join(dirs + [name], "/")
    ensures IdRpath(Join(dirs + [name], "/")) == "@loader_path" + Repeat("/..", |dirs|)
  {
    var segs := dirs + [name];
    var rel := Join(segs, "/");
    BelowRoot(cwdRpath, dirs, name);
    assert ("/" + rel)[1..] == rel;
    assert segs[0] != "" && '/' !in segs[0] by {
      if |dirs| > 0 { assert segs[0] == dirs[0]; }
    }
    JoinStartsWithFirst(segs);
    assert segs[0][0] != '/' by { assert segs[0][0] in segs[0]; }
  }

  /** A `/`-joined path starts with the first segment's first character. */
  lemma JoinStartsWithFirst(segs: seq<string>)
    requires |segs| > 0 && segs[0] != ""
    ensures Join(segs, "/") != "" && Join(segs, "/")[0] == segs[0][0]
  {
  }

  /** A file directly in the package root is anchored at `@loader_path`
      itself. */
  lemma AnchorOfTopLevelFile(cwdRpath: string, name: string)
    requires cwdRpath != "" && name != "" && '/' !in name
    requires !Contains("/" + name, cwdRpath)
    ensures RelativeName(cwdRpath, cwdRpath + "/" + name) == name
    ensures InstallId(name) == "@rpath/" + name
    ensures IdRpath(name) == "@loader_path"
  {
    assert [] + [name] == [name];
    NamesForNestedFile(cwdRpath, [], name);
  }

  // The scenario lemmas below take their string constants as parameters
  // fixed by `requires x == "..."`: with the literals written inline, the
  // solver unfolds them character by character in every step and runs out
  // of resources.

  /** One library `lib/foo.so` in a root `/stage/EMAN2`, whose listing shows
      its old identity and one reference into `/stage/local/`, with a single
      rule sending that prefix to `@rpath/extlib/`: the file is renamed to
      `@rpath/lib/foo.so`, anchored one level up, and only the reference is
      changed. */
  lemma MacScenario(notes: seq<string>)
    requires |notes| == 2 && '\n' !in notes[0] && '\n' !in notes[1]
    requires !Contains(Join(Listing("/stage/EMAN2/lib/foo.so:",
                                    ["/build/old/lib/foo.so", "/stage/local/lib/bar.dylib"], notes),
                            "\n") + "\n", NotObject)
    ensures PlanFile("/stage/EMAN2", "/stage/EMAN2/lib/foo.so",
                     OtoolPrinted(Join(Listing("/stage/EMAN2/lib/foo.so:",
                                               ["/build/old/lib/foo.so", "/stage/local/lib/bar.dylib"], notes),
                                       "\n") + "\n"),
                     [Rule(Compile("/stage/local/"), "@rpath/extlib/")])
            == [ SetId("@rpath/lib/foo.so", "/stage/EMAN2/lib/foo.so"),
                 AddRpath("@loader_path/..", "/stage/EMAN2/lib/foo.so"),
                 Change("/stage/local/lib/bar.dylib", "@rpath/extlib/lib/bar.dylib", "/stage/EMAN2/lib/foo.so") ]
  {
    var f := "/stage/EMAN2/lib/foo.so";
    var libs := ["/build/old/lib/foo.so", "/stage/local/lib/bar.dylib", ""];
    var rules := [Rule(Compile("/stage/local/"), "@rpath/extlib/")];
    var run := OtoolPrinted(Join(Listing("/stage/EMAN2/lib/foo.so:",
                                         ["/build/old/lib/foo.so", "/stage/local/lib/bar.dylib"], notes),
                                 "\n") + "\n");
    ScenarioListing(notes);
    PlanFileOfDeps("/stage/EMAN2", f, run, rules, libs);
    ScenarioNames();
    ScenarioChanges();
  }

  /** The plan of a recognised file: identity, anchor, then its changes. */
  lemma PlanFileOfDeps(cwdRpath: string, f: string, run: OtoolRun, rules: seq<Rule>, libs: seq<string>)
    requires FindDeps(run) == Linked(libs)
    ensures PlanFile(cwdRpath, f, run, rules)
            == [SetId(InstallId(RelativeName(cwdRpath, f)), f), AddRpath(IdRpath(RelativeName(cwdRpath, f)), f)]
               + Changes(rules, libs, f)
  {
  }

  lemma ScenarioChanges()
    ensures Changes([Rule(Compile("/stage/local/"), "@rpath/extlib/")],
                    ["/build/old/lib/foo.so", "/stage/local/lib/bar.dylib", ""], "/stage/EMAN2/lib/foo.so")
            == [Change("/stage/local/lib/bar.dylib", "@rpath/extlib/lib/bar.dylib", "/stage/EMAN2/lib/foo.so")]
  {
    var libs := ["/build/old/lib/foo.so", "/stage/local/lib/bar.dylib", ""];
    ScenarioRewrites();
    assert libs[1..] == ["/stage/local/lib/bar.dylib", ""] && libs[2..] == [""] && libs[3..] == [];
  }

  lemma ScenarioListing(notes: seq<string>)
    requires |notes| == 2 && '\n' !in notes[0] && '\n' !in notes[1]
    requires !Contains(Join(Listing("/stage/EMAN2/lib/foo.so:",
                                    ["/build/old/lib/foo.so", "/stage/local/lib/bar.dylib"], notes),
                            "\n") + "\n", NotObject)
    ensures FindDeps(OtoolPrinted(Join(Listing("/stage/EMAN2/lib/foo.so:",
                                               ["/build/old/lib/foo.so", "/stage/local/lib/bar.dylib"], notes),
                                       "\n") + "\n"))
            == Linked(["/build/old/lib/foo.so", "/stage/local/lib/bar.dylib", ""])
  {
    ScenarioListingOf("/stage/EMAN2/lib/foo.so:", "/build/old/lib/foo.so", "/stage/local/lib/bar.dylib", notes);
  }

  lemma ScenarioListingOf(header: string, self: string, bar: string, notes: seq<string>)
    requires header == "/stage/EMAN2/lib/foo.so:"
    requires self == "/build/old/lib/foo.so" && bar == "/stage/local/lib/bar.dylib"
    requires |notes| == 2 && '\n' !in notes[0] && '\n' !in notes[1]
    requires !Contains(Join(Listing(header, [self, bar], notes), "\n") + "\n", NotObject)
    ensures FindDeps(OtoolPrinted(Join(Listing(header, [self, bar], notes), "\n") + "\n"))
            == Linked([self, bar, ""])
  {
    ScenarioSolid(self, bar);
    ScenarioHeader(header);
    FindDepsListing(header, [self, bar], notes);
    assert [self, bar] + [""] == [self, bar, ""];
  }

  lemma ScenarioHeader(header: string)
    requires header == "/stage/EMAN2/lib/foo.so:"
    ensures '\n' !in header
  {
    assert forall i :: 0 <= i < |header| ==> header[i] != '\n';
  }

  lemma ScenarioSolid(self: string, bar: string)
    requires self == "/build/old/lib/foo.so" && bar == "/stage/local/lib/bar.dylib"
    ensures Solid(self) && Solid(bar)
  {
  }

  lemma ScenarioNames()
    ensures RelativeName("/stage/EMAN2", "/stage/EMAN2/lib/foo.so") == "lib/foo.so"
    ensures InstallId("lib/foo.so") == "@rpath/lib/foo.so"
    ensures IdRpath("lib/foo.so") == "@loader_path/.."
  {
    ScenarioRelative("/stage/EMAN2", "lib/foo.so", "/stage/EMAN2/lib/foo.so");
    ScenarioId();
    ScenarioAnchor();
  }

  lemma ScenarioJoin(rel: string)
    requires rel == "lib/foo.so"
    ensures Join(["lib"] + ["foo.so"], "/") == rel
  {
    assert ["lib"] + ["foo.so"] == ["lib", "foo.so"];
    assert ["lib", "foo.so"][1..] == ["foo.so"];
    assert Join(["foo.so"], "/") == "foo.so";
  }

  lemma ScenarioRelative(root: string, rel: string, f: string)
    requires root == "/stage/EMAN2" && rel == "lib/foo.so" && f == "/stage/EMAN2/lib/foo.so"
    ensures RelativeName(root, f) == rel
  {
    ScenarioJoin(rel);
    assert f == root + "/" + rel;
    ShorterNotContained("/" + rel, root);
    NamesForNestedFile(root, ["lib"], "foo.so");
  }

  lemma ScenarioId()
    ensures InstallId("lib/foo.so") == "@rpath/lib/foo.so"
  {
    var rel := "lib/foo.so";
    assert rel[..1] == "l";
    assert "@rpath/" + rel == "@rpath/lib/foo.so";
  }

  lemma ScenarioAnchor()
    ensures IdRpath("lib/foo.so") == "@loader_path/.."
  {
    ScenarioAnchorOf("lib/foo.so", "@loader_path/..");
  }

  lemma ScenarioAnchorOf(rel: string, anchor: string)
    requires rel == "lib/foo.so" && anchor == "@loader_path/.."
    ensures IdRpath(rel) == anchor
  {
    var segs := ["lib", "foo.so"];
    assert segs == ["lib"] + ["foo.so"];
    ScenarioJoin(rel);
    SeparatorsOfSegments(segs);
    assert Count(rel, '/') == 1;
    assert Repeat("/..", 1) == "/.." + Repeat("/..", 0);
    assert "@loader_path" + "/.." == anchor;
  }

  /** Text shorter than `t` cannot contain it. */
  lemma {:induction false} ShorterNotContained(s: string, t: string)
    requires |s| < |t|
    ensures !Contains(s, t)
    decreases |s|
  {
    if |s| > 0 {
      ShorterNotContained(s[1..], t);
    }
  }

  lemma ScenarioRewrites()
    ensures ApplyAll([Rule(Compile("/stage/local/"), "@rpath/extlib/")], "/build/old/lib/foo.so")
            == "/build/old/lib/foo.so"
    ensures ApplyAll([Rule(Compile("/stage/local/"), "@rpath/extlib/")], "/stage/local/lib/bar.dylib")
            == "@rpath/extlib/lib/bar.dylib"
    ensures ApplyAll([Rule(Compile("/stage/local/"), "@rpath/extlib/")], "") == ""
  {
    ScenarioRule(Rule(Compile("/stage/local/"), "@rpath/extlib/"), "/build/old/lib/foo.so",
                 "/stage/local/lib/bar.dylib", "lib/bar.dylib");
  }

  lemma ScenarioRule(rule: Rule, self: string, bar: string, rest: string)
    requires rule == Rule(Compile("/stage/local/"), "@rpath/extlib/")
    requires self == "/build/old/lib/foo.so" && bar == "/stage/local/lib/bar.dylib" && rest == "lib/bar.dylib"
    ensures ApplyAll([rule], self) == self
    ensures ApplyAll([rule], bar) == "@rpath/extlib/" + rest
    ensures ApplyAll([rule], "") == ""
  {
    assert [rule][1..] == [];
    assert rule.pattern[1] == Lit('s') && self[1] == 'b';
    assert |rule.pattern| == 13;
    assert forall i :: 0 <= i < 13 ==> rule.pattern[i] == Lit(bar[i]);
    assert bar[13..] == rest;
  }

  /** The `install_name_tool -change` calls for one file: one per linked
      library the rules change, from its old to its rewritten name. */
  function Changes(rules: seq<Rule>, libs: seq<string>, file: string): (r: seq<Command>)
    ensures |r| <= |libs|
    ensures forall i :: 0 <= i < |r| ==>
              && r[i].Change?
              && r[i] == Change(r[i].oldName, ApplyAll(rules, r[i].oldName), file)
              && r[i].oldName in libs && ApplyAll(rules, r[i].oldName) != r[i].oldName
    ensures forall lib :: lib in libs && ApplyAll(rules, lib) != lib ==>
              Change(lib, ApplyAll(rules, lib), file) in r
  {
    if |libs| == 0 then []
    else
      var rest := Changes(rules, libs[1..], file);
      assert forall x :: x in libs <==> x == libs[0] || x in libs[1..];
      var lib := libs[0];
      if ApplyAll(rules, lib) != lib then [Change(lib, ApplyAll(rules, lib), file)] + rest else rest
  }

  lemma {:induction false} ChangesAppend(rules: seq<Rule>, a: seq<string>, b: seq<string>, file: string)
    ensures Changes(rules, a + b, file) == Changes(rules, a, file) + Changes(rules, b, file)
    decreases |a|
  {
    if |a| == 0 {
      assert a + b == b;
    } else {
      assert (a + b)[0] == a[0];
      assert (a + b)[1..] == a[1..] + b;
      ChangesAppend(rules, a[1..], b, file);
    }
  }

  /** References the rules leave alone need no change. */
  lemma {:induction false} ChangesNone(rules: seq<Rule>, libs: seq<string>, file: string)
    requires forall lib :: lib in libs ==> ApplyAll(rules, lib) == lib
    ensures Changes(rules, libs, file) == []
    decreases |libs|
  {
    if |libs| > 0 {
      assert libs[0] in libs;
      assert forall x :: x in libs[1..] ==> x in libs;
      ChangesNone(rules, libs[1..], file);
    }
  }

  /** Rule lists that rewrite every reference alike issue the same changes. */
  lemma {:induction false} ChangesAgree(rules: seq<Rule>, other: seq<Rule>, libs: seq<string>, file: string)
    requires forall lib :: lib in libs ==> ApplyAll(rules, lib) == ApplyAll(other, lib)
    ensures Changes(rules, libs, file) == Changes(other, libs, file)
    decreases |libs|
  {
    if |libs| > 0 {
      assert libs[0] in libs;
      assert forall x :: x in libs[1..] ==> x in libs;
      ChangesAgree(rules, other, libs[1..], file);
    }
  }

  /** The commands for one candidate, in the order they are issued. */
  function PlanFile(cwdRpath: string, f: string, run: OtoolRun, rules: seq<Rule>): (r: seq<Command>)
    ensures FindDeps(run).NotMachO? <==> r == []
    ensures forall c :: c in r ==> c.file == f
  {
    match FindDeps(run)
    case NotMachO => []
    case Linked(libs) =>
      var frel := RelativeName(cwdRpath, f);
      [SetId(InstallId(frel), f), AddRpath(IdRpath(frel), f)] + Changes(rules, libs, f)
  }

  /** The commands for a list of candidates, file after file. */
  function PlanTargets(cwdRpath: string, targets: seq<string>, otool: string -> OtoolRun,
                       rules: seq<Rule>): (r: seq<Command>)
    ensures forall c :: c in r ==> c.file in targets
  {
    if |targets| == 0 then []
    else
      var here := PlanFile(cwdRpath, targets[0], otool(targets[0]), rules);
      var rest := PlanTargets(cwdRpath, targets[1..], otool, rules);
      assert forall t :: t in targets[1..] ==> t in targets;
      here + rest
  }

  /** Ascending candidates are handled one file at a time, in ascending
      order: all commands for a file come before those for any later file. */
  lemma {:induction false} PlanAscending(cwdRpath: string, targets: seq<string>,
                                         otool: string -> OtoolRun, rules: seq<Rule>)
    requires StrictlySorted(targets)
    ensures Ascending(Files(PlanTargets(cwdRpath, targets, otool, rules)))
    decreases |targets|
  {
    if |targets| > 0 {
      var t := targets[0];
      var here := PlanFile(cwdRpath, t, otool(t), rules);
      var rest := PlanTargets(cwdRpath, targets[1..], otool, rules);
      SortedTail(targets);
      PlanAscending(cwdRpath, targets[1..], otool, rules);
      assert PlanTargets(cwdRpath, targets, otool, rules) == here + rest;
      FilesAppend(here, rest);
      FilesAllFor(t, here);
      FilesAbove(t, rest);
      AscendingAppend(Files(here), Files(rest), t);
    }
  }

  /** A run of one file followed by an ascending list of later files. */
  lemma AscendingAppend(fh: seq<string>, fr: seq<string>, t: string)
    requires forall k :: 0 <= k < |fh| ==> fh[k] == t
    requires forall k :: 0 <= k < |fr| ==> Less(t, fr[k])
    requires Ascending(fr)
    ensures Ascending(fh + fr)
  {
    var s := fh + fr;
    forall i, j | 0 <= i < j < |s|
      ensures s[i] == s[j] || Less(s[i], s[j])
    {
      if j >= |fh| {
        assert s[j] == fr[j - |fh|];
        if i >= |fh| {
          assert s[i] == fr[i - |fh|];
        }
      }
    }
  }

  lemma {:induction false} PlanAppend(cwdRpath: string, a: seq<string>, b: seq<string>,
                                      otool: string -> OtoolRun, rules: seq<Rule>)
    ensures PlanTargets(cwdRpath, a + b, otool, rules)
            == PlanTargets(cwdRpath, a, otool, rules) + PlanTargets(cwdRpath, b, otool, rules)
    decreases |a|
  {
    if |a| == 0 {
      assert a + b == b;
    } else {
      assert (a + b)[0] == a[0];
      assert (a + b)[1..] == a[1..] + b;
      PlanAppend(cwdRpath, a[1..], b, otool, rules);
    }
  }

  /** Files `otool` does not recognise are left untouched, and every command
      for a recognised file is one that file's own plan issues. */
  lemma {:induction false} PlanSound(cwdRpath: string, targets: seq<string>, otool: string -> OtoolRun,
                                     rules: seq<Rule>)
    ensures forall c :: c in PlanTargets(cwdRpath, targets, otool, rules) ==>
              FindDeps(otool(c.file)).Linked? && c in PlanFile(cwdRpath, c.file, otool(c.file), rules)
    decreases |targets|
  {
    if |targets| > 0 {
      PlanSound(cwdRpath, targets[1..], otool, rules);
      var here := PlanFile(cwdRpath, targets[0], otool(targets[0]), rules);
      assert forall c :: c in here ==> c.file == targets[0];
    }
  }

  /** Every recognised candidate gets its whole plan. */
  lemma {:induction false} PlanComplete(cwdRpath: string, targets: seq<string>, otool: string -> OtoolRun,
                                        rules: seq<Rule>)
    ensures forall t, c :: t in targets && c in PlanFile(cwdRpath, t, otool(t), rules) ==>
              c in PlanTargets(cwdRpath, targets, otool, rules)
    decreases |targets|
  {
    if |targets| > 0 {
      PlanComplete(cwdRpath, targets[1..], otool, rules);
      assert forall t :: t in targets ==> t == targets[0] || t in targets[1..];
    }
  }

  /** For a recognised file: first its identity, then its anchor, then only
      changes, in reference order, one for exactly each reference the rules
      rewrite. */
  lemma FilePlanContents(cwdRpath: string, f: string, run: OtoolRun, rules: seq<Rule>)
    requires FindDeps(run).Linked?
    ensures var r := PlanFile(cwdRpath, f, run, rules);
              && |r| >= 2
              && r[0] == SetId(InstallId(RelativeName(cwdRpath, f)), f)
              && r[1] == AddRpath(IdRpath(RelativeName(cwdRpath, f)), f)
              && r[2..] == Changes(rules, FindDeps(run).libs, f)
    ensures SetId(InstallId(RelativeName(cwdRpath, f)), f) in PlanFile(cwdRpath, f, run, rules)
    ensures AddRpath(IdRpath(RelativeName(cwdRpath, f)), f) in PlanFile(cwdRpath, f, run, rules)
    ensures forall o, n :: Change(o, n, f) in PlanFile(cwdRpath, f, run, rules) <==>
              o in FindDeps(run).libs && n == ApplyAll(rules, o) && n != o
    ensures forall k :: 2 <= k < |PlanFile(cwdRpath, f, run, rules)| ==>
              PlanFile(cwdRpath, f, run, rules)[k].Change?
  {
    var libs := FindDeps(run).libs;
    var frel := RelativeName(cwdRpath, f);
    var head := [SetId(InstallId(frel), f), AddRpath(IdRpath(frel), f)];
    var cs := Changes(rules, libs, f);
    PlanFileOfDeps(cwdRpath, f, run, rules, libs);
    HeadThenRest(head, cs);
    ChangesMembers(rules, libs, f);
    HeadThenChanges(head, cs, f);
  }

  /** For ascending candidates, the commands that edit one candidate are
      exactly that candidate's own plan, in its order. */
  lemma {:induction false} PlanPerFile(cwdRpath: string, targets: seq<string>,
                                       otool: string -> OtoolRun, rules: seq<Rule>)
    requires StrictlySorted(targets)
    ensures forall t :: t in targets ==>
              CommandsFor(PlanTargets(cwdRpath, targets, otool, rules), t)
              == PlanFile(cwdRpath, t, otool(t), rules)
    decreases |targets|
  {
    if |targets| > 0 {
      var t0 := targets[0];
      var here := PlanFile(cwdRpath, t0, otool(t0), rules);
      var rest := PlanTargets(cwdRpath, targets[1..], otool, rules);
      SortedTail(targets);
      PlanPerFile(cwdRpath, targets[1..], otool, rules);
      assert PlanTargets(cwdRpath, targets, otool, rules) == here + rest;
      forall t | t in targets
        ensures CommandsFor(here + rest, t) == PlanFile(cwdRpath, t, otool(t), rules)
      {
        CommandsForAppend(here, rest, t);
        if t == t0 {
          CommandsForAll(here, t);
          forall c | c in rest ensures c.file != t {
            LessIrreflexive(t);
          }
          NoneFor(rest, t);
        } else {
          assert t in targets[1..];
          NoneFor(here, t);
        }
      }
    }
  }

  /** Commands none of which edit `t` select nothing for `t`. */
  lemma NoneFor(cs: seq<Command>, t: string)
    requires forall c :: c in cs ==> c.file != t
    ensures CommandsFor(cs, t) == []
  {
    if CommandsFor(cs, t) != [] {
      assert CommandsFor(cs, t)[0] in CommandsFor(cs, t);
    }
  }

  lemma HeadThenRest(head: seq<Command>, cs: seq<Command>)
    requires |head| == 2
    ensures (head + cs)[0] == head[0] && (head + cs)[1] == head[1] && (head + cs)[2..] == cs
  {
  }

  /** A `-change` is in the plan exactly when it is among the changes, since
      the two head commands are not changes. */
  lemma HeadThenChanges(head: seq<Command>, cs: seq<Command>, f: string)
    requires forall c :: c in head ==> !c.Change?
    ensures forall o, n :: Change(o, n, f) in head + cs <==> Change(o, n, f) in cs
  {
  }

  /** A `-change old new` command is issued for a file exactly when `old` is
      one of its references and the rules rewrite it to a different `new`. */
  lemma ChangesMembers(rules: seq<Rule>, libs: seq<string>, file: string)
    ensures forall o, n :: Change(o, n, file) in Changes(rules, libs, file) <==>
              o in libs && n == ApplyAll(rules, o) && n != o
  {
    var cs := Changes(rules, libs, file);
    forall o, n | Change(o, n, file) in cs
      ensures o in libs && n == ApplyAll(rules, o) && n != o
    {
      var i :| 0 <= i < |cs| && cs[i] == Change(o, n, file);
    }
  }

  /** Whatever order the dictionary yields the table in, the plan is the same. */
  lemma {:induction false} PlanOrderIrrelevant(cwdRpath: string, targets: seq<string>,
                                               otool: string -> OtoolRun, order: seq<Rule>,
                                               root: string, distname: string)
    requires |root| > 0 && root[0] == '/' && IsTableOrder(order, root, distname)
    ensures PlanTargets(cwdRpath, targets, otool, order)
            == PlanTargets(cwdRpath, targets, otool, Table(root, distname))
    decreases |targets|
  {
    if |targets| > 0 {
      var t := targets[0];
      if FindDeps(otool(t)).Linked? {
        var libs := FindDeps(otool(t)).libs;
        forall lib | lib in libs
          ensures ApplyAll(order, lib) == ApplyAll(Table(root, distname), lib)
        {
          TableOrderIrrelevant(order, root, distname, lib);
        }
        ChangesAgree(order, Table(root, distname), libs, t);
      }
      PlanOrderIrrelevant(cwdRpath, targets[1..], otool, order, root, distname);
    }
  }

  /** `install_name_tool -change` replaces each reference with its rewritten
      name; a second pass over the rewritten references changes nothing. */
  lemma SecondPassChangesNothing(order: seq<Rule>, root: string, distname: string,
                                 libs: seq<string>, file: string)
    requires |root| > 0 && root[0] == '/' && IsTableOrder(order, root, distname)
    ensures Changes(order, seq(|libs|, i requires 0 <= i < |libs| => ApplyAll(order, libs[i])), file) == []
  {
    var after := seq(|libs|, i requires 0 <= i < |libs| => ApplyAll(order, libs[i]));
    forall lib | lib in after
      ensures ApplyAll(order, lib) == lib
    {
      var i :| 0 <= i < |after| && after[i] == lib;
      TableIdempotent(order, root, distname, libs[i]);
    }
    ChangesNone(order, after, file);
  }

  /** `FixInstallNames.run` over the discovered candidates, in ascending
      order. */
  function FixInstallNames(cwdRpath: string, walk: seq<WalkEntry>, findOutput: string,
                           otool: string -> OtoolRun, rules: seq<Rule>): (r: seq<Command>)
    ensures forall c :: c in r ==> c.file in DiscoverTargets(walk, findOutput)
    ensures forall c :: c in r ==>
              FindDeps(otool(c.file)).Linked? && c in PlanFile(cwdRpath, c.file, otool(c.file), rules)
    ensures forall t, c :: t in DiscoverTargets(walk, findOutput) && c in PlanFile(cwdRpath, t, otool(t), rules) ==>
              c in r
    ensures Ascending(Files(r))
    ensures forall t :: t in DiscoverTargets(walk, findOutput) ==>
              CommandsFor(r, t) == PlanFile(cwdRpath, t, otool(t), rules)
  {
    PlanPerFile(cwdRpath, DiscoverTargets(walk, findOutput), otool, rules);
    PlanSound(cwdRpath, DiscoverTargets(walk, findOutput), otool, rules);
    PlanComplete(cwdRpath, DiscoverTargets(walk, findOutput), otool, rules);
    PlanAscending(cwdRpath, DiscoverTargets(walk, findOutput), otool, rules);
    PlanTargets(cwdRpath, DiscoverTargets(walk, findOutput), otool, rules)
  }
}
