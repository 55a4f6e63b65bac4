/** `os.path.join` and the directory layout a build target derives from its
    root (build.py, `Target.update_args` and `Target.update_cwds`). */
module Paths {
  import opened Strings

  /** Two-argument POSIX `os.path.join(a, b)`: an absolute `b` replaces `a`,
      otherwise exactly one `/` separates them. */
  function PathJoin(a: string, b: string): string
  {
    if |b| > 0 && b[0] == '/' then b
    else if a == "" || a[|a| - 1] == '/' then a + b
    else a + ['/'] + b
  }

  /** An absolute second part wins; otherwise the result is the first part,
      then the second, with a `/` right before the second whenever the first
      is non-empty, and at most one character added. */
  lemma PathJoinOneSlash(a: string, b: string)
    ensures |b| > 0 && b[0] == '/' ==> PathJoin(a, b) == b
    ensures !(|b| > 0 && b[0] == '/') ==>
      var r := PathJoin(a, b);
      && |a| + |b| <= |r| <= |a| + |b| + 1
      && StartsWith(r, a) && EndsWith(r, b)
      && (a != "" ==> r[|r| - |b| - 1] == '/')
    ensures !(|b| > 0 && b[0] == '/') ==>
      (|PathJoin(a, b)| == |a| + |b| <==> a == "" || a[|a| - 1] == '/')
  {
    if !(|b| > 0 && b[0] == '/') {
      var r := PathJoin(a, b);
      if a == "" || a[|a| - 1] == '/' {
        assert r[..|a|] == a && r[|r| - |b|..] == b;
      } else {
        assert r[..|a|] == a && r[|r| - |b|..] == b;
      }
    }
  }

  /** Variadic `os.path.join(first, *rest)`. */
  function PathJoinAll(first: string, rest: seq<string>): string
    decreases |rest|
  {
    if |rest| == 0 then first else PathJoinAll(PathJoin(first, rest[0]), rest[1..])
  }

  /** `[c] * n` */
  function Copies(c: string, n: int): (r: seq<string>)
    ensures |r| == (if n <= 0 then 0 else n)
    ensures forall i :: 0 <= i < |r| ==> r[i] == c
    decreases if n <= 0 then 0 else n
  {
    if n <= 0 then [] else [c] + Copies(c, n - 1)
  }

  /** Joining a non-empty component without `/` onto a non-empty base that
      does not end in `/` puts exactly one `/` between them. */
  lemma JoinSegment(a: string, b: string)
    requires a != "" && a[|a| - 1] != '/'
    requires b != "" && '/' !in b
    ensures PathJoin(a, b) == a + "/" + b
    ensures (a + "/" + b)[|a + "/" + b| - 1] != '/'
  {
    assert b[0] in b;
    assert b[|b| - 1] in b;
    assert (a + "/" + b)[|a + "/" + b| - 1] == b[|b| - 1];
  }

  /** Joining a component `n` times onto a base that does not end in `/`
      appends `/component` `n` times. */
  lemma {:induction false} JoinCopies(base: string, c: string, n: nat)
    requires base != "" && base[|base| - 1] != '/'
    requires c != "" && '/' !in c
    ensures PathJoinAll(base, Copies(c, n)) == base + Repeat("/" + c, n)
    decreases n
  {
    if n > 0 {
      JoinSegment(base, c);
      var next := base + "/" + c;
      assert Copies(c, n)[0] == c;
      assert Copies(c, n)[1..] == Copies(c, n - 1);
      JoinCopies(next, c, n - 1);
      var seg := "/" + c;
      assert Repeat(seg, n) == seg + Repeat(seg, n - 1);
      assert next == base + seg;
    }
  }

  /** A path made of `segs` separated by `/`, none of which contains a `/`,
      has exactly one separator fewer than it has segments. */
  lemma {:induction false} SeparatorsOfSegments(segs: seq<string>)
    requires |segs| > 0
    requires forall i :: 0 <= i < |segs| ==> '/' !in segs[i]
    ensures Count(Join(segs, "/"), '/') == |segs| - 1
    decreases |segs|
  {
    CountAbsent(segs[0], '/');
    if |segs| > 1 {
      SeparatorsOfSegments(segs[1..]);
      CountAppend(segs[0] + "/", Join(segs[1..], "/"), '/');
      CountAppend(segs[0], "/", '/');
    }
  }

  /** A path `root/d1/.../dn/name` seen from `root`: removing the root text
      leaves `/d1/.../dn/name`, whose `/`-joined part has one separator per
      directory. */
  lemma BelowRoot(root: string, dirs: seq<string>, name: string)
    requires root != ""
    requires forall i :: 0 <= i < |dirs| ==> '/' !in dirs[i]
    requires '/' !in name
    requires !Contains("/" + Join(dirs + [name], "/"), root)
    ensures ReplaceAll(root + "/" + Join(dirs + [name], "/"), root, "") == "/" + Join(dirs + [name], "/")
    ensures Count(Join(dirs + [name], "/"), '/') == |dirs|
  {
    var segs := dirs + [name];
    var rel := Join(segs, "/");
    assert forall i :: 0 <= i < |segs| ==> '/' !in segs[i] by {
      forall i | 0 <= i < |segs| ensures '/' !in segs[i] {
        if i < |dirs| { assert segs[i] == dirs[i]; }
      }
    }
    StripPrefixByReplace(root, "/" + rel);
    assert root + "/" + rel == root + ("/" + rel);
    SeparatorsOfSegments(segs);
  }

  /** The working directories a target derives from its root. */
  datatype Layout = Layout(
    co: string,
    coDistname: string,
    extlib: string,
    build: string,
    images: string,
    stage: string,
    rpath: string,        // the package root that is made relocatable
    rpathExtlib: string,  // where the trimmed dependency prefix is copied
    rpathLib: string)

  /** `repository.release`, e.g. `eman2.daily` */
  function DistName(repository: string, release: string): string
  {
    repository + "." + release
  }

  /** The directory layout of `update_cwds`, built with `os.path.join`.  With a
      root that does not end in `/` and names without `/`, every directory is
      the plain `/`-concatenation of its components. */
  function MakeLayout(root: string, repository: string, release: string): (r: Layout)
    ensures root != "" && root[|root| - 1] != '/' && repository != ""
            && '/' !in repository && '/' !in release ==>
              && r.extlib == root + "/" + "extlib" + "/" + DistName(repository, release)
              && r.stage == root + "/" + "stage" + "/" + DistName(repository, release)
              && r.rpath == r.stage + "/" + Upper(repository)
              && r.rpathExtlib == r.rpath + "/" + "extlib"
              && r.rpathLib == r.rpath + "/" + "lib"
  {
    var dist := DistName(repository, release);
    var rpath := PathJoinAll(root, ["stage", dist, Upper(repository)]);
    var r := Layout(
      co := PathJoin(root, "co"),
      coDistname := PathJoinAll(root, ["co", dist]),
      extlib := PathJoinAll(root, ["extlib", dist]),
      build := PathJoinAll(root, ["build", dist]),
      images := PathJoinAll(root, ["images", dist]),
      stage := PathJoinAll(root, ["stage", dist]),
      rpath := rpath,
      rpathExtlib := PathJoin(rpath, "extlib"),
      rpathLib := PathJoin(rpath, "lib"));
    if root != "" && root[|root| - 1] != '/' && repository != ""
       && '/' !in repository && '/' !in release then
      NoSlashInNames(repository, release);
      JoinUnder(root, "extlib", dist);
      JoinUnder(root, "stage", dist);
      JoinStage(root, dist, Upper(repository));
      JoinSegment(rpath, "extlib");
      JoinSegment(rpath, "lib");
      r
    else r
  }

  lemma JoinAllOne(a: string, x: string)
    ensures PathJoinAll(a, [x]) == PathJoin(a, x)
  {
    assert [x][1..] == [];
  }

  lemma JoinAllTwo(a: string, x: string, y: string)
    ensures PathJoinAll(a, [x, y]) == PathJoin(PathJoin(a, x), y)
  {
    assert [x, y][1..] == [y];
    JoinAllOne(PathJoin(a, x), y);
  }

  lemma JoinAllThree(a: string, x: string, y: string, z: string)
    ensures PathJoinAll(a, [x, y, z]) == PathJoin(PathJoin(PathJoin(a, x), y), z)
  {
    assert [x, y, z][1..] == [y, z];
    JoinAllTwo(PathJoin(a, x), y, z);
  }

  /** `root/dir/name` for plain components. */
  lemma JoinUnder(root: string, dir: string, name: string)
    requires root != "" && root[|root| - 1] != '/'
    requires dir != "" && '/' !in dir && name != "" && '/' !in name
    ensures PathJoinAll(root, [dir, name]) == root + "/" + dir + "/" + name
  {
    JoinAllTwo(root, dir, name);
    JoinSegment(root, dir);
    JoinSegment(root + "/" + dir, name);
  }

  lemma NoSlashInNames(repository: string, release: string)
    requires '/' !in repository && '/' !in release
    ensures '/' !in DistName(repository, release)
    ensures '/' !in Upper(repository)
  {
    var dist := DistName(repository, release);
    var up := Upper(repository);
    assert forall x :: x in dist ==> x in repository || x == '.' || x in release;
    forall i | 0 <= i < |up|
      ensures up[i] != '/'
    {
      assert repository[i] in repository;
    }
  }

  /** `root/stage/dist/up` */
  lemma JoinStage(root: string, dist: string, up: string)
    requires root != "" && root[|root| - 1] != '/' && dist != "" && up != ""
    requires '/' !in dist && '/' !in up
    ensures PathJoinAll(root, ["stage", dist, up]) == root + "/" + "stage" + "/" + dist + "/" + up
    ensures var p := root + "/" + "stage" + "/" + dist + "/" + up; p[|p| - 1] != '/'
  {
    JoinAllThree(root, "stage", dist, up);
    JoinSegment(root, "stage");
    var a := root + "/" + "stage";
    JoinSegment(a, dist);
    var b := a + "/" + dist;
    JoinSegment(b, up);
  }
}
