/** The Linux relocation step (build.py `FixLinuxRpath.run`): every candidate
    under the package root, except Python sources and the bundled Python
    tree, gets an `$ORIGIN`-relative search path pointing at the bundled
    library directory, one `patchelf --set-rpath` call per file. */
module LinuxRpath {
  import opened Strings
  import opened Paths
  import opened Ordering
  import opened Discovery
  import opened Commands

  /** The bundled interpreter's library tree, written into the step as a
      literal absolute path. */
  const PythonTree := "/home/eman2/build/stage/eman2.daily/EMAN2/extlib/lib/python2.7"

  /** The library directory every search path points at, relative to the
      package root. */
  const LibDir := "extlib/lib"

  /** The two reasons a candidate is passed over. */
  predicate Skipped(target: string)
  {
    StartsWith(target, PythonTree) || Contains(target, ".py")
  }

  /** A `.py` anywhere in the path, or a path inside the bundled Python
      tree, is passed over. */
  lemma SkipReasons(a: string, b: string)
    ensures Skipped(a + ".py" + b)
    ensures Skipped(PythonTree + b)
  {
    ContainsAt(a + ".py" + b, ".py", |a|);
    assert (PythonTree + b)[..|PythonTree|] == PythonTree;
  }

  /** `len(xtarget.split('/')) - 2`: one less than the number of `/` in the
      root-relative path, so `-1` for the root itself. */
  function Depth(xtarget: string): (d: int)
    ensures d == Count(xtarget, '/') - 1
    ensures d >= -1
  {
    |Split(xtarget, '/')| - 2
  }

  /** `"".join([s] * n)` */
  lemma {:induction false} ConcatCopies(s: string, n: int)
    ensures Join(Copies(s, n), "") == Repeat(s, n)
    decreases if n <= 0 then 0 else n
  {
    if n > 1 {
      assert Copies(s, n)[1..] == Copies(s, n - 1);
      ConcatCopies(s, n - 1);
    } else if n == 1 {
      assert Copies(s, 1) == [s];
    }
  }

  /** `origins`: the target's own directory, then the bundled library
      directory reached by climbing `depth` levels. */
  function Origins(depth: int): seq<string>
  {
    ["$ORIGIN/"] + ["$ORIGIN/" + Join(Copies("../", depth), "") + LibDir + "/"]
  }

  /** The two origins joined with `:`; a depth of zero or less climbs
      nothing. */
  lemma OriginsJoined(depth: int)
    ensures Join(Origins(depth), ":") == "$ORIGIN/:$ORIGIN/" + Repeat("../", depth) + "extlib/lib/"
  {
    ConcatCopies("../", depth);
    var o := Origins(depth);
    assert o[1..] == [o[1]];
    assert Join(o, ":") == o[0] + ":" + o[1];
  }

  /** The search path one target gets, from its path with the root removed. */
  function RpathFor(cwdRpath: string, target: string): (r: string)
    ensures r == "$ORIGIN/:$ORIGIN/"
                 + Repeat("../", Count(ReplaceAll(target, cwdRpath, ""), '/') - 1)
                 + "extlib/lib/"
  {
    var depth := Depth(ReplaceAll(target, cwdRpath, ""));
    OriginsJoined(depth);
    Join(Origins(depth), ":")
  }

  /** A target `dirs/name` below the root climbs exactly one level per
      directory it sits in before descending into the library directory. */
  lemma RpathPerLevel(cwdRpath: string, dirs: seq<string>, name: string)
    requires cwdRpath != ""
    requires forall i :: 0 <= i < |dirs| ==> '/' !in dirs[i]
    requires '/' !in name
    requires !Contains("/" + Join(dirs + [name], "/"), cwdRpath)
    ensures RpathFor(cwdRpath, cwdRpath + "/" + Join(dirs + [name], "/"))
            == "$ORIGIN/:$ORIGIN/" + Repeat("../", |dirs|) + "extlib/lib/"
  {
    BelowRoot(cwdRpath, dirs, name);
    CountAppend("/", Join(dirs + [name], "/"), '/');
  }

  /** A file directly in the root gets no `../` at all. */
  lemma RpathTopLevel(cwdRpath: string, name: string)
    requires cwdRpath != "" && '/' !in name && !Contains("/" + name, cwdRpath)
    ensures RpathFor(cwdRpath, cwdRpath + "/" + name) == "$ORIGIN/:$ORIGIN/extlib/lib/"
  {
    assert [] + [name] == [name];
    RpathPerLevel(cwdRpath, [], name);
  }

  /** The root directory itself (which `find -executable` lists) has depth
      `-1`, and a negative repeat count yields no `../`. */
  lemma RpathOfRoot(cwdRpath: string)
    requires cwdRpath != ""
    ensures RpathFor(cwdRpath, cwdRpath) == "$ORIGIN/:$ORIGIN/extlib/lib/"
  {
    assert cwdRpath + "" == cwdRpath;
    StripPrefixByReplace(cwdRpath, "");
  }

  /** The `patchelf` calls for a list of candidates, in the list's order. */
  function PlanTargets(cwdRpath: string, targets: seq<string>): (r: seq<Command>)
    ensures |r| <= |targets|
    ensures forall i :: 0 <= i < |r| ==>
              && r[i] == SetRpath(RpathFor(cwdRpath, r[i].file), r[i].file)
              && r[i].file in targets && !Skipped(r[i].file)
    ensures forall t :: t in targets && !Skipped(t) ==> SetRpath(RpathFor(cwdRpath, t), t) in r
  {
    if |targets| == 0 then []
    else
      var rest := PlanTargets(cwdRpath, targets[1..]);
      assert forall t :: t in targets <==> t == targets[0] || t in targets[1..];
      if Skipped(targets[0]) then rest
      else [SetRpath(RpathFor(cwdRpath, targets[0]), targets[0])] + rest
  }

  /** Ascending candidates give commands in ascending file order, so no file
      is edited twice. */
  lemma {:induction false} PlanSorted(cwdRpath: string, targets: seq<string>)
    requires StrictlySorted(targets)
    ensures StrictlySorted(Files(PlanTargets(cwdRpath, targets)))
    decreases |targets|
  {
    if |targets| > 0 {
      var tail := targets[1..];
      var rest := PlanTargets(cwdRpath, tail);
      SortedTail(targets);
      PlanSorted(cwdRpath, tail);
      PlanFilesStep(cwdRpath, targets);
      if !Skipped(targets[0]) {
        assert forall c :: c in rest ==> Less(targets[0], c.file);
        FilesAbove(targets[0], rest);
        SortedCons(targets[0], Files(rest));
      }
    }
  }

  /** The files of a plan, one candidate at a time. */
  lemma PlanFilesStep(cwdRpath: string, targets: seq<string>)
    requires |targets| > 0
    ensures Skipped(targets[0]) ==>
              Files(PlanTargets(cwdRpath, targets)) == Files(PlanTargets(cwdRpath, targets[1..]))
    ensures !Skipped(targets[0]) ==>
              Files(PlanTargets(cwdRpath, targets)) == [targets[0]] + Files(PlanTargets(cwdRpath, targets[1..]))
  {
    var rest := PlanTargets(cwdRpath, targets[1..]);
    if !Skipped(targets[0]) {
      var here := SetRpath(RpathFor(cwdRpath, targets[0]), targets[0]);
      assert PlanTargets(cwdRpath, targets) == [here] + rest;
      FilesCons(here, rest);
    }
  }

  /** Planning a concatenation plans each part in turn. */
  lemma {:induction false} PlanAppend(cwdRpath: string, a: seq<string>, b: seq<string>)
    ensures PlanTargets(cwdRpath, a + b) == PlanTargets(cwdRpath, a) + PlanTargets(cwdRpath, b)
    decreases |a|
  {
    if |a| == 0 {
      assert a + b == b;
    } else {
      assert (a + b)[0] == a[0];
      assert (a + b)[1..] == a[1..] + b;
      PlanAppend(cwdRpath, a[1..], b);
    }
  }

  /** `FixLinuxRpath.run`: the discovered candidates in ascending order, each
      one not passed over edited exactly once, with the search path for its
      depth. */
  function FixLinuxRpath(cwdRpath: string, walk: seq<WalkEntry>, findOutput: string): (r: seq<Command>)
    ensures StrictlySorted(Files(r))
    ensures forall t :: t in DiscoverTargets(walk, findOutput) && !Skipped(t) ==>
              SetRpath(RpathFor(cwdRpath, t), t) in r
    ensures forall i :: 0 <= i < |r| ==>
              && r[i] == SetRpath(RpathFor(cwdRpath, r[i].file), r[i].file)
              && r[i].file in DiscoverTargets(walk, findOutput) && !Skipped(r[i].file)
  {
    PlanSorted(cwdRpath, DiscoverTargets(walk, findOutput));
    PlanTargets(cwdRpath, DiscoverTargets(walk, findOutput))
  }

  /** No file is edited twice: the commands' files are pairwise distinct. */
  lemma EachFileOnce(cs: seq<Command>, i: nat, j: nat)
    requires StrictlySorted(Files(cs))
    requires i < j < |cs|
    ensures cs[i].file != cs[j].file
  {
    assert Less(Files(cs)[i], Files(cs)[j]);
    LessIrreflexive(cs[i].file);
  }
}
