/** `change_directory` as virtual_file_system.py:33-44 writes it, over the
    host's own path strings: `root` is the relative path "MyVirtualMachine",
    a successful `cd` into a directory stores an absolute path, and the ".."
    guard compares the two as strings. */
module GuardAsWritten {
  import opened Wrappers
  import opened Text
  import opened FileTree
  import opened Paths
  import opened Vfs

  /** A host path already normalised: absolute, or relative to the process's
      working directory. */
  datatype HostPath = HostPath(absolute: bool, parts: seq<string>)

  /** `self.root`, where `current_path` starts. */
  const Root: HostPath := HostPath(false, [RootName])

  /** `os.path.abspath`, for a working directory `cwd`. */
  function Absolute(cwd: seq<string>, h: HostPath): seq<string> {
    if h.absolute then h.parts else cwd + h.parts
  }

  /** The place in the tree a host path points to, if it points into it. */
  function InTree(cwd: seq<string>, h: HostPath): (r: Option<Path>)
    ensures r.Some? ==> Absolute(cwd, h) == cwd + [RootName] + r.value
  {
    var a := Absolute(cwd, h);
    var top := cwd + [RootName];
    if top <= a then
      assert a == top + a[|top|..];
      Some(a[|top|..])
    else None
  }

  /** `os.path.dirname` of a normalised path: the path without its last
      component, and "/" for "/". */
  function DirName(h: HostPath): (r: HostPath)
    ensures r.absolute == h.absolute && r.parts <= h.parts
    ensures |r.parts| == if h.parts == [] then 0 else |h.parts| - 1
  {
    if h.parts == [] then h else HostPath(h.absolute, h.parts[..|h.parts| - 1])
  }

  /** The host directories the model knows: the working directory and its
      ancestors, and the directories of the tree, which lies under
      `cwd + [RootName]`. Every other host path is taken to be no directory. */
  predicate HostIsDir(t: Tree, cwd: seq<string>, a: seq<string>) {
    || a <= cwd
    || (|a| > |cwd| && a[..|cwd| + 1] == cwd + [RootName] && IsDir(t, a[|cwd| + 1..]))
  }

  /** One component applied to an absolute host path; ".." at "/" stays there. */
  function HostNext(a: seq<string>, c: string): seq<string> {
    if c == "" || c == "." then a
    else if c == ".." then (if a == [] then [] else a[..|a| - 1])
    else a + [c]
  }

  /** `os.path.isdir` of the components applied to `a`, followed by
      `os.path.abspath`: every step has to land on a directory. */
  function HostWalk(t: Tree, cwd: seq<string>, a: seq<string>, comps: seq<string>): (r: Option<seq<string>>)
    ensures r.Some? ==> HostIsDir(t, cwd, r.value)
    decreases |comps|
  {
    if !HostIsDir(t, cwd, a) then None
    else if comps == [] then Some(a)
    else HostWalk(t, cwd, HostNext(a, comps[0]), comps[1..])
  }

  /** `change_directory(path)` as written. The ".." case trusts the string
      comparison with `Root`; any other argument is joined to `current_path`
      (an absolute one replaces it), looked up on the host and, when it is a
      directory, stored absolute, inside the tree or not. */
  function CdAsWritten(t: Tree, cwd: seq<string>, cur: HostPath, path: string): (r: Result<HostPath, VfsError>)
    ensures path == ".." ==> (r.Success? <==> cur != Root)
    ensures r.Success? && path != ".." ==> r.value.absolute && HostIsDir(t, cwd, r.value.parts)
    ensures r.Failure? ==> r.error == (if path == ".." then AlreadyAtRoot else DirectoryNotFound)
  {
    if path == ".." then
      if cur != Root then Success(DirName(cur)) else Failure(AlreadyAtRoot)
    else
      var start := if |path| > 0 && path[0] == '/' then [] else Absolute(cwd, cur);
      match HostWalk(t, cwd, start, SplitOn(path, '/'))
      case Some(a) => Success(HostPath(true, a))
      case None => Failure(DirectoryNotFound)
  }

  lemma TopIsDir(t: Tree, cwd: seq<string>, p: Path)
    ensures HostIsDir(t, cwd, cwd + [RootName] + p) <==> IsDir(t, p)
  {
    var a := cwd + [RootName] + p;
    assert a[..|cwd| + 1] == cwd + [RootName] && a[|cwd| + 1..] == p;
    assert !(a <= cwd);
  }

  /** From the root, `cd d`, `cd ..`, `cd ..` all succeed: the first ".."
      returns to the root under its absolute name, which the guard does not
      recognise, so the second leaves the tree for the working directory. */
  lemma GuardLetsRootEscape(t: Tree, cwd: seq<string>, d: string)
    requires WellFormed(t) && IsPlainName(d) && IsDir(t, [d])
    ensures var s1 := CdAsWritten(t, cwd, Root, d);
            && s1 == Success(HostPath(true, cwd + [RootName, d]))
            && var s2 := CdAsWritten(t, cwd, s1.value, "..");
            && s2 == Success(HostPath(true, cwd + [RootName]))
            && InTree(cwd, s2.value) == Some([])
            && var s3 := CdAsWritten(t, cwd, s2.value, "..");
            && s3 == Success(HostPath(true, cwd))
            && InTree(cwd, s3.value).None?
  {
    var top := cwd + [RootName];
    assert Absolute(cwd, Root) == top;
    assert d != "" && d != "." && d != "..";
    SplitName(d);
    TopIsDir(t, cwd, []);
    TopIsDir(t, cwd, [d]);
    assert top + [] == top;
    assert top + [d] == cwd + [RootName, d];
    assert HostNext(top, d) == cwd + [RootName, d];
    assert [d][0] == d && [d][1..] == [];
    assert d[0] != '/';
    assert HostWalk(t, cwd, top, [d]) == HostWalk(t, cwd, top + [d], []);
    assert (cwd + [RootName, d])[..|cwd| + 1] == top;
    assert top[..|cwd|] == cwd;
    assert InTree(cwd, HostPath(true, top)) == Some([]) by {
      assert top[|top|..] == [];
    }
    assert !(top <= cwd);
  }

  /** `cd ../` at the root succeeds as written and stores the working
      directory, outside the tree, and `cd ../..` goes one level higher. */
  lemma SlashLeavesRoot(t: Tree, cwd: seq<string>)
    requires WellFormed(t)
    ensures CdAsWritten(t, cwd, Root, "../") == Success(HostPath(true, cwd))
    ensures InTree(cwd, HostPath(true, cwd)).None?
    ensures cwd != [] ==> CdAsWritten(t, cwd, Root, "../..") == Success(HostPath(true, cwd[..|cwd| - 1]))
  {
    var top := cwd + [RootName];
    assert Absolute(cwd, Root) == top;
    TopIsDir(t, cwd, []);
    assert top + [] == top;
    assert top[..|top| - 1] == cwd;
    SplitAfterWord("..", "", '/');
    assert ".." + ['/'] + "" == "../";
    assert SplitOn("", '/') == [""];
    assert SplitOn("../", '/') == ["..", ""];
    assert ["..", ""][1..] == [""] && [""][1..] == [];
    assert "../" != ".." && "../"[0] == '.';
    SplitAfterWord("..", "..", '/');
    assert ".." + ['/'] + ".." == "../..";
    SplitOfJoin([".."], '/');
    assert JoinOn([".."], '/') == "..";
    assert SplitOn("../..", '/') == ["..", ".."];
    assert ["..", ".."][1..] == [".."] && [".."][1..] == [];
    assert "../.." != ".." && "../.."[0] == '.';
    assert !(top <= cwd);
    if cwd != [] {
      assert cwd[..|cwd| - 1] <= cwd;
    }
  }

  /** The host path of a place the tree lookup stands on. */
  function HostOf(cwd: seq<string>, pl: Place): seq<string> {
    match pl
    case Inside(p) => cwd + [RootName] + p
    case Host(s) => cwd + s
  }

  lemma StepFollows(t: Tree, cwd: seq<string>, pl: Place, c: string)
    requires Known(t, pl) && Move(pl, c).Some?
    requires Move(pl, c).value.Host? ==> Move(pl, c).value.below == []
    ensures HostNext(HostOf(cwd, pl), c) == HostOf(cwd, Move(pl, c).value)
  {
    var a := HostOf(cwd, pl);
    if c == ".." {
      match pl
      case Inside(p) =>
        if p == [] {
          assert a == cwd + [RootName] && a[..|a| - 1] == cwd + [];
        } else {
          assert a[..|a| - 1] == cwd + [RootName] + Parent(p);
        }
      case Host(s) =>
    } else if c != "" && c != "." {
      match pl
      case Inside(p) =>
        assert a + [c] == cwd + [RootName] + (p + [c]);
      case Host(s) =>
        assert s == [] && c == RootName;
        assert a + [c] == cwd + [RootName] + [];
    }
  }

  lemma {:induction false} HostWalkFollows(t: Tree, cwd: seq<string>, pl: Place, comps: seq<string>)
    requires WellFormed(t) && Known(t, pl) && WalkFrom(t, pl, comps).Reached?
    ensures HostWalk(t, cwd, HostOf(cwd, pl), comps) == Some(cwd + [RootName] + WalkFrom(t, pl, comps).dir)
    decreases |comps|
  {
    match pl {
      case Inside(p) => TopIsDir(t, cwd, p);
      case Host(s) => assert cwd + s <= cwd;
    }
    if comps != [] {
      var q := Move(pl, comps[0]).value;
      StepFollows(t, cwd, pl, comps[0]);
      HostWalkFollows(t, cwd, q, comps[1..]);
    }
  }

  /** Wherever the intended `cd` moves inside the tree by any argument but
      "..", the code as written moves to the same directory, under its
      absolute host path. */
  lemma CdAsWrittenAgrees(t: Tree, cwd: seq<string>, cur: HostPath, p: Path, path: string)
    requires WellFormed(t) && IsDir(t, p) && InTree(cwd, cur) == Some(p)
    requires path != ".." && CdTarget(t, p, path).Success?
    ensures CdAsWritten(t, cwd, cur, path) == Success(HostPath(true, cwd + [RootName] + CdTarget(t, p, path).value))
  {
    HostWalkFollows(t, cwd, Inside(p), SplitOn(path, '/'));
  }

  /** The same three commands under the intended guard: the second ".." is
      refused, and `cd` never leaves the tree. */
  lemma GuardHolds(t: Tree, d: string)
    requires WellFormed(t) && IsPlainName(d) && IsDir(t, [d])
    ensures CdTarget(t, [], d) == Success([d])
    ensures CdTarget(t, [d], "..") == Success([])
    ensures CdTarget(t, [], "..") == Failure(AlreadyAtRoot)
  {
    assert [] + [d] == [d];
    CdThereAndBack(t, [], d);
  }
}
