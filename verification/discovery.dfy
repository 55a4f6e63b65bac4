/** Candidate discovery (build.py `find_exec`, `find_ext` and the target sets
    built in `FixLinuxRpath.run` and `FixInstallNames.run`).  The directory
    walk and the text printed by `find <root> -executable` are inputs. */
module Discovery {
  import opened Strings
  import opened Paths
  import opened Ordering

  /** One step of `os.walk`: a directory and the names of the files in it. */
  datatype WalkEntry = WalkEntry(dir: string, files: seq<string>)

  /** A non-empty string with no whitespace at either end. */
  predicate Trimmed(x: string)
  {
    x != "" && !IsSpace(x[0]) && !IsSpace(x[|x| - 1])
  }

  /** `filter(None, xs)` on strings: the non-empty ones, in order. */
  function DropEmpty(xs: seq<string>): (r: seq<string>)
    ensures |r| <= |xs|
    ensures forall x :: x in r <==> x in xs && x != ""
  {
    if |xs| == 0 then []
    else
      var rest := DropEmpty(xs[1..]);
      assert forall x :: x in xs <==> x == xs[0] || x in xs[1..];
      if xs[0] == "" then rest else [xs[0]] + rest
  }

  /** `[i.strip() for i in lines]` */
  function StripEach(lines: seq<string>): (r: seq<string>)
    ensures |r| == |lines| && forall i :: 0 <= i < |lines| ==> r[i] == Strip(lines[i])
  {
    seq(|lines|, i requires 0 <= i < |lines| => Strip(lines[i]))
  }

  /** `filter(None, [i.strip() for i in lines])` */
  function NonBlankStripped(lines: seq<string>): (r: seq<string>)
    ensures forall x :: x in r ==> Trimmed(x)
    ensures forall line :: line in lines && Strip(line) != "" ==> Strip(line) in r
    ensures forall x :: x in r ==> exists line :: line in lines && Strip(line) == x
  {
    var r := DropEmpty(StripEach(lines));
    StrippedLinesKept(lines);
    StrippedLinesTrimmed(lines);
    StrippedLinesOrigin(lines);
    r
  }

  lemma StrippedLinesKept(lines: seq<string>)
    ensures forall line :: line in lines ==> Strip(line) in StripEach(lines)
  {
    var stripped := StripEach(lines);
    forall line | line in lines
      ensures Strip(line) in stripped
    {
      var i :| 0 <= i < |lines| && lines[i] == line;
      assert stripped[i] == Strip(line);
    }
  }

  lemma StrippedLinesTrimmed(lines: seq<string>)
    ensures forall x :: x in DropEmpty(StripEach(lines)) ==> Trimmed(x)
  {
    var stripped := StripEach(lines);
    forall x | x in DropEmpty(stripped)
      ensures Trimmed(x)
    {
      var i :| 0 <= i < |stripped| && stripped[i] == x;
      assert x == Strip(lines[i]);
    }
  }

  lemma StrippedLinesOrigin(lines: seq<string>)
    ensures forall x :: x in DropEmpty(StripEach(lines)) ==>
              exists line :: line in lines && Strip(line) == x
  {
    var stripped := StripEach(lines);
    forall x | x in DropEmpty(stripped)
      ensures exists line :: line in lines && Strip(line) == x
    {
      var i :| 0 <= i < |stripped| && stripped[i] == x;
      assert lines[i] in lines && Strip(lines[i]) == x;
    }
  }

  /** `find_exec`: the output of `find` cut at newlines, each line stripped,
      blank lines dropped.  No entry is empty or only whitespace, and every
      line that has a non-blank part contributes that part. */
  function FindExec(output: string): (r: seq<string>)
    ensures forall x :: x in r ==> Trimmed(x)
    ensures forall line :: line in Split(output, '\n') && Strip(line) != "" ==> Strip(line) in r
    ensures forall x :: x in r ==> exists line :: line in Split(output, '\n') && Strip(line) == x
  {
    NonBlankStripped(Split(output, '\n'))
  }

  /** `p` is a file of some walked directory whose name ends in `ext`,
      joined onto that directory. */
  predicate FoundIn(walk: seq<WalkEntry>, ext: string, p: string)
  {
    exists i, f :: 0 <= i < |walk| && f in walk[i].files && EndsWith(f, ext)
                   && p == PathJoin(walk[i].dir, f)
  }

  /** The same, for a single directory. */
  predicate FoundInDir(dir: string, files: seq<string>, ext: string, p: string)
  {
    exists f :: f in files && EndsWith(f, ext) && p == PathJoin(dir, f)
  }

  /** The files of one walked directory whose name ends in `ext`, joined onto
      the directory, in listing order. */
  function FilesWithExt(dir: string, files: seq<string>, ext: string): (r: seq<string>)
    ensures |r| <= |files|
    ensures forall p :: p in r <==> FoundInDir(dir, files, ext, p)
  {
    if |files| == 0 then []
    else
      var rest := FilesWithExt(dir, files[1..], ext);
      FoundInDirStep(dir, files, ext);
      if EndsWith(files[0], ext) then [PathJoin(dir, files[0])] + rest else rest
  }

  lemma FoundInDirStep(dir: string, files: seq<string>, ext: string)
    requires |files| > 0
    ensures forall p :: FoundInDir(dir, files, ext, p) <==>
              (EndsWith(files[0], ext) && p == PathJoin(dir, files[0]))
              || FoundInDir(dir, files[1..], ext, p)
  {
    assert forall f :: f in files <==> f == files[0] || f in files[1..];
  }

  /** `find_ext(ext, root)` over the entries `os.walk(root)` produced: exactly
      the matching files, directory by directory. */
  function FindExt(ext: string, walk: seq<WalkEntry>): (r: seq<string>)
    ensures forall p :: p in r <==> FoundIn(walk, ext, p)
  {
    if |walk| == 0 then []
    else
      var here := FilesWithExt(walk[0].dir, walk[0].files, ext);
      var rest := FindExt(ext, walk[1..]);
      FoundInStep(walk, ext);
      here + rest
  }

  lemma FoundInStep(walk: seq<WalkEntry>, ext: string)
    requires |walk| > 0
    ensures forall p :: FoundIn(walk, ext, p) <==>
              FoundInDir(walk[0].dir, walk[0].files, ext, p) || FoundIn(walk[1..], ext, p)
  {
    forall p
      ensures FoundIn(walk, ext, p) <==>
                FoundInDir(walk[0].dir, walk[0].files, ext, p) || FoundIn(walk[1..], ext, p)
    {
      if FoundIn(walk, ext, p) {
        var i, f :| 0 <= i < |walk| && f in walk[i].files && EndsWith(f, ext)
                    && p == PathJoin(walk[i].dir, f);
        if i > 0 {
          assert walk[1..][i - 1] == walk[i];
        }
      }
      if FoundIn(walk[1..], ext, p) {
        var i, f :| 0 <= i < |walk[1..]| && f in walk[1..][i].files && EndsWith(f, ext)
                    && p == PathJoin(walk[1..][i].dir, f);
        assert walk[i + 1] == walk[1..][i];
      }
    }
  }

  /** `sorted(set(so) | set(dylib) | set(exec))`: every path found by any of the
      three searches exactly once, in ascending order. */
  function Candidates(so: seq<string>, dylib: seq<string>, exec: seq<string>): (r: seq<string>)
    ensures StrictlySorted(r)
    ensures forall p :: p in r <==> p in so || p in dylib || p in exec
  {
    SortedSet(so + dylib + exec)
  }

  /** The targets both relocation steps visit: shared-library files found by
      the walk, plus whatever `find -executable` printed, each once and in
      ascending order. */
  function DiscoverTargets(walk: seq<WalkEntry>, findOutput: string): (r: seq<string>)
    ensures StrictlySorted(r)
    ensures forall p :: p in r <==>
              p in FindExec(findOutput) || FoundIn(walk, ".so", p) || FoundIn(walk, ".dylib", p)
  {
    Candidates(FindExt(".so", walk), FindExt(".dylib", walk), FindExec(findOutput))
  }
}
