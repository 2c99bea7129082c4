/** How a command argument names a place in the tree: `os.path.join` of the
    current directory and the argument, normalised the way `os.path.abspath`
    does it, and the prompt's `os.path.relpath` back to text. */
module Paths {
  import opened Wrappers
  import opened Text
  import opened FileTree

  /** A place a path can name while it is being normalised: a path of the
      tree, or `Host(below)`, the path `below` under the process's working
      directory, which holds the tree under `RootName` (`Host([])` is the
      working directory itself). */
  datatype Place = Inside(path: Path) | Host(below: seq<string>)

  /** One component of `os.path.abspath`'s normalisation: empty and "."
      components stay put, ".." goes up one level (from the root to the
      working directory), anything else goes down (from the working
      directory, `RootName` goes back into the tree). None when ".." climbs
      above the working directory, whose own name and ancestors the model
      does not know. */
  function Move(pl: Place, c: string): (r: Option<Place>)
    ensures c == "" || c == "." ==> r == Some(pl)
    ensures pl.Inside? && c != "" && c != "." && c != ".." ==> r == Some(Inside(pl.path + [c]))
  {
    if c == "" || c == "." then Some(pl)
    else if c == ".." then
      match pl
      case Inside(p) => Some(if p == [] then Host([]) else Inside(Parent(p)))
      case Host(s) => if s == [] then None else Some(Host(s[..|s| - 1]))
    else
      match pl
      case Inside(p) => Some(Inside(p + [c]))
      case Host(s) => Some(if s == [] && c == RootName then Inside([]) else Host(s + [c]))
  }

  /** Applies the components of an argument one after the other. */
  function Norm(pl: Place, comps: seq<string>): (r: Option<Place>)
    ensures && r.Some? && r.value.Inside? && (pl.Inside? ==> PlainPath(pl.path))
            && (forall i :: 0 <= i < |comps| ==> '/' !in comps[i] && '\0' !in comps[i])
            ==> PlainPath(r.value.path)
    ensures pl.Inside? && (forall i :: 0 <= i < |comps| ==> comps[i] != "..")
            ==> r.Some? && r.value.Inside? && pl.path <= r.value.path
    decreases |comps|
  {
    if comps == [] then Some(pl)
    else
      var c := comps[0];
      assert forall i :: 1 <= i < |comps| ==> comps[1..][i - 1] == comps[i];
      match Move(pl, c)
      case None => None
      case Some(q) =>
        assert q.Inside? && pl.Inside? && PlainPath(pl.path) && '/' !in c && '\0' !in c ==> PlainPath(q.path) by {
          if q.Inside? && pl.Inside? && PlainPath(pl.path) && '/' !in c && '\0' !in c {
            if c == ".." && pl.path != [] {
              assert forall i :: 0 <= i < |q.path| ==> q.path[i] == pl.path[i];
            }
          }
        }
        var r := Norm(q, comps[1..]);
        assert pl.Inside? && c != ".." && r.Some? && r.value.Inside? && q.path <= r.value.path
               ==> pl.path <= r.value.path by {
          if pl.Inside? && c != ".." && r.Some? && r.value.Inside? && q.path <= r.value.path {
            assert q.path == pl.path || q.path == pl.path + [c];
            assert r.value.path[..|pl.path|] == q.path[..|pl.path|] == pl.path;
          }
        }
        r
  }

  /** `os.path.abspath` of `base` joined with the components, when it is a
      path of the tree. */
  function Normalize(base: Path, comps: seq<string>): (r: Option<Path>)
    ensures r.Some? && PlainPath(base) && (forall i :: 0 <= i < |comps| ==> '/' !in comps[i] && '\0' !in comps[i])
            ==> PlainPath(r.value)
    ensures (forall i :: 0 <= i < |comps| ==> comps[i] != "..") ==> r.Some? && base <= r.value
  {
    match Norm(Inside(base), comps)
    case Some(Inside(p)) => Some(p)
    case _ => None
  }

  /** The tree path that `os.path.join(current, arg)` names, or None when it
      names no place of the tree: an absolute argument (the model does not
      know where the tree lies on the host), or one whose normalised form is
      outside it. */
  function Resolve(cur: Path, arg: string): (r: Option<Path>)
    ensures |arg| > 0 && arg[0] == '/' ==> r.None?
    ensures r.Some? && PlainPath(cur) && '\0' !in arg ==> PlainPath(r.value)
  {
    if |arg| > 0 && arg[0] == '/' then None
    else
      SplitAvoids(arg, '/', '\0');
      Normalize(cur, SplitOn(arg, '/'))
  }

  /** `os.path.relpath(current, root).replace("\\", "/")`: "." at the root,
      otherwise the components joined by "/" with every backslash turned into
      a slash as well. */
  function RelativePath(cur: Path): (r: string)
    ensures r == "." <==> cur == ["."] || cur == []
    ensures |cur| == 1 ==> r == ReplaceChar(cur[0], '\\', '/')
  {
    if cur == [] then "."
    else
      var s := JoinOn(cur, '/');
      var r := ReplaceChar(s, '\\', '/');
      assert r == "." ==> s == "." by {
        if r == "." { assert s[0] == '.'; assert s == [s[0]]; }
      }
      assert s == "." && |cur| > 1 ==> false by {
      }
      r
  }

  lemma {:induction false} NormPlain(base: Path, comps: seq<string>)
    requires PlainPath(comps)
    ensures Norm(Inside(base), comps) == Some(Inside(base + comps))
    decreases |comps|
  {
    if comps == [] {
      assert base + comps == base;
    } else {
      assert PlainPath(comps[1..]) by {
        assert forall i :: 0 <= i < |comps| - 1 ==> comps[1..][i] == comps[i + 1];
      }
      assert IsPlainName(comps[0]);
      NormPlain(base + [comps[0]], comps[1..]);
      assert base + [comps[0]] + comps[1..] == base + comps;
    }
  }

  /** Plain components go straight down from `base`. */
  lemma NormalizePlain(base: Path, comps: seq<string>)
    requires PlainPath(comps)
    ensures Normalize(base, comps) == Some(base + comps)
  {
    NormPlain(base, comps);
  }

  /** A plain name resolves to the child of that name. */
  lemma ResolveName(cur: Path, name: string)
    requires IsPlainName(name)
    ensures Resolve(cur, name) == Some(cur + [name])
  {
    SplitName(name);
    NormalizePlain(cur, [name]);
  }

  /** Typing the prompt's relative path as an argument, from the root, leads
      back to the current directory, as long as no name holds a backslash. */
  lemma RelativePathResolves(p: Path)
    requires PlainPath(p) && forall i :: 0 <= i < |p| ==> '\\' !in p[i]
    ensures Resolve([], RelativePath(p)) == Some(p)
  {
    if p == [] {
      SplitDot();
    } else {
      assert forall i :: 0 <= i < |p| ==> '/' !in p[i];
      JoinOnAvoids(p, '/', '\\');
      ReplaceAbsent(JoinOn(p, '/'), '\\', '/');
      SplitOfJoin(p, '/');
      NormalizePlain([], p);
      assert [] + p == p;
      var s := JoinOn(p, '/');
      SplitHeadEmpty(s);
      assert p[0] != "";
    }
  }

  /** A backslash in a name shows as a slash in the prompt, and the prompt
      then reads as a deeper path than the real one. */
  lemma BackslashNameMisread()
    ensures RelativePath(["a\\b"]) == "a/b"
    ensures Resolve([], RelativePath(["a\\b"])) == Some(["a", "b"])
  {
    BackslashShown();
    SplitAB();
    assert IsPlainName("a") && IsPlainName("b");
    NormalizePlain([], ["a", "b"]);
    assert "a/b"[0] != '/' && [] + ["a", "b"] == ["a", "b"];
  }

  lemma BackslashShown()
    ensures RelativePath(["a\\b"]) == "a/b"
  {
    var s := "a\\b";
    assert JoinOn(["a\\b"], '/') == s;
    var r := ReplaceChar(s, '\\', '/');
    assert |r| == 3 && r[0] == 'a' && r[1] == '/' && r[2] == 'b';
  }

  lemma SplitAB()
    ensures SplitOn("a/b", '/') == ["a", "b"]
  {
    SplitAfterWord("a", "b", '/');
    assert "a" + ['/'] + "b" == "a/b";
    SplitName("b");
  }

  lemma SplitDot()
    ensures SplitOn(".", '/') == ["."]
  {
    var s := ".";
    assert s[0] == '.' && s[1..] == "";
    assert SplitOn("", '/') == [""];
    assert [s[0]] + "" == s;
  }

  lemma SplitHeadEmpty(s: string)
    ensures |s| > 0 && s[0] == '/' ==> SplitOn(s, '/')[0] == ""
  {
  }

  /** For plain paths: the relative path is "." exactly at the root, and a
      top-level directory shows its own name with backslashes as slashes. */
  lemma RelativePathAtRoot(p: Path)
    requires PlainPath(p)
    ensures RelativePath(p) == "." <==> p == []
    ensures |p| == 1 && '\\' !in p[0] ==> RelativePath(p) == p[0]
  {
    if |p| == 1 {
      assert IsPlainName(p[0]);
      if '\\' !in p[0] { ReplaceAbsent(p[0], '\\', '/'); }
    }
  }

  /** How the host's own lookup (`os.path.isdir`, `open`) treats the components
      of an argument: every step has to land on a directory, either one of the
      tree or the working directory. The lookup ends in a directory of the
      tree, in the working directory, somewhere else on the host (which the
      model does not hold), or on a component that is no directory. */
  datatype Walked = Reached(dir: Path) | AtWorkDir | LeftTree | NoDirectory

  /** The places the lookup can stand on. */
  predicate Known(t: Tree, pl: Place) {
    match pl
    case Inside(p) => IsDir(t, p)
    case Host(s) => s == []
  }

  function WalkFrom(t: Tree, pl: Place, comps: seq<string>): (r: Walked)
    requires WellFormed(t) && Known(t, pl)
    ensures r.Reached? ==> IsDir(t, r.dir)
    decreases |comps|
  {
    if comps == [] then (if pl.Inside? then Reached(pl.path) else AtWorkDir)
    else
      match Move(pl, comps[0])
      case None => LeftTree
      case Some(q) =>
        if q.Inside? && !IsDir(t, q.path) then NoDirectory
        else if q.Host? && q.below != [] then LeftTree
        else WalkFrom(t, q, comps[1..])
  }

  /** The lookup from directory `base` of the tree. */
  function Walk(t: Tree, base: Path, comps: seq<string>): (r: Walked)
    requires WellFormed(t) && IsDir(t, base)
    ensures r.Reached? ==> IsDir(t, r.dir)
  {
    WalkFrom(t, Inside(base), comps)
  }

  lemma {:induction false} WalkFromIsLexical(t: Tree, pl: Place, comps: seq<string>)
    requires WellFormed(t) && Known(t, pl)
    ensures WalkFrom(t, pl, comps).Reached? ==> Norm(pl, comps) == Some(Inside(WalkFrom(t, pl, comps).dir))
    ensures WalkFrom(t, pl, comps).AtWorkDir? ==> Norm(pl, comps) == Some(Host([]))
    decreases |comps|
  {
    if comps != [] {
      var m := Move(pl, comps[0]);
      if m.Some? && !(m.value.Inside? && !IsDir(t, m.value.path)) && !(m.value.Host? && m.value.below != []) {
        WalkFromIsLexical(t, m.value, comps[1..]);
      }
    }
  }

  /** Where the lookup lands, `os.path.abspath` lands too: with no links in the
      tree, the lexical normalisation agrees with every lookup that ends in
      the tree or in the working directory. */
  lemma WalkIsLexical(t: Tree, base: Path, comps: seq<string>)
    requires WellFormed(t) && IsDir(t, base)
    ensures Walk(t, base, comps).Reached? ==> Normalize(base, comps) == Some(Walk(t, base, comps).dir)
    ensures Walk(t, base, comps).AtWorkDir? ==> Norm(Inside(base), comps) == Some(Host([]))
  {
    WalkFromIsLexical(t, Inside(base), comps);
  }

  /** A component holding NUL is no directory of the tree and no way back
      into it: the lookup ends neither in the tree nor in the working
      directory. */
  lemma {:induction false} WalkFromNul(t: Tree, pl: Place, comps: seq<string>, j: int)
    requires WellFormed(t) && Known(t, pl) && 0 <= j < |comps| && '\0' in comps[j]
    ensures var w := WalkFrom(t, pl, comps); w.NoDirectory? || w.LeftTree?
    decreases j
  {
    var c := comps[0];
    var m := Move(pl, c);
    if j == 0 {
      assert c != "" && c != "." && c != ".." && c != RootName by {
        assert '\0' !in RootName;
      }
      if pl.Inside? && IsDir(t, pl.path + [c]) {
        var q := pl.path + [c];
        assert q[|q| - 1] == c && !IsPlainName(c);
        PathsArePlain(t, q);
        assert false;
      }
    } else if m.Some? && !(m.value.Inside? && !IsDir(t, m.value.path)) && !(m.value.Host? && m.value.below != []) {
      assert comps[1..][j - 1] == comps[j];
      WalkFromNul(t, m.value, comps[1..], j - 1);
    }
  }

  /** `os.path.isdir` of a joined path holding NUL is false. */
  lemma WalkNul(t: Tree, base: Path, arg: string)
    requires WellFormed(t) && IsDir(t, base) && '\0' in arg
    ensures var w := Walk(t, base, SplitOn(arg, '/')); w.NoDirectory? || w.LeftTree?
  {
    SplitHolds(arg, '/', '\0');
    var comps := SplitOn(arg, '/');
    var j :| 0 <= j < |comps| && '\0' in comps[j];
    WalkFromNul(t, Inside(base), comps, j);
  }

  lemma {:induction false} WalkFromSameDirs(t: Tree, u: Tree, pl: Place, comps: seq<string>)
    requires WellFormed(t) && WellFormed(u) && Known(t, pl)
    requires forall q :: IsDir(t, q) <==> IsDir(u, q)
    ensures WalkFrom(u, pl, comps) == WalkFrom(t, pl, comps)
    decreases |comps|
  {
    if comps != [] {
      var m := Move(pl, comps[0]);
      if m.Some? && !(m.value.Inside? && !IsDir(t, m.value.path)) && !(m.value.Host? && m.value.below != []) {
        WalkFromSameDirs(t, u, m.value, comps[1..]);
      }
    }
  }

  /** The walk only looks at which paths are directories. */
  lemma WalkSameDirs(t: Tree, u: Tree, base: Path, comps: seq<string>)
    requires WellFormed(t) && WellFormed(u) && IsDir(t, base)
    requires forall q :: IsDir(t, q) <==> IsDir(u, q)
    ensures Walk(u, base, comps) == Walk(t, base, comps)
  {
    WalkFromSameDirs(t, u, Inside(base), comps);
  }

  /** Normalising a concatenation normalises the first part, then the second. */
  lemma {:induction false} NormAppend(pl: Place, a: seq<string>, b: seq<string>)
    ensures Norm(pl, a + b)
            == (match Norm(pl, a) case None => None case Some(m) => Norm(m, b))
    decreases |a|
  {
    if a == [] {
      assert a + b == b;
    } else {
      assert (a + b)[0] == a[0] && (a + b)[1..] == a[1..] + b;
      var m := Move(pl, a[0]);
      if m.Some? { NormAppend(m.value, a[1..], b); }
    }
  }

  /** Climbing from the root to the working directory and stepping back in
      through `RootName` is the same as staying at the root. */
  lemma ReEnterRoot(t: Tree, rest: seq<string>)
    requires WellFormed(t)
    ensures Walk(t, [], ["..", RootName] + rest) == Walk(t, [], rest)
  {
    var comps := ["..", RootName] + rest;
    assert comps[0] == ".." && comps[1..] == [RootName] + rest;
    assert ([RootName] + rest)[0] == RootName && ([RootName] + rest)[1..] == rest;
    assert Move(Inside([]), "..") == Some(Host([]));
    assert Move(Host([]), RootName) == Some(Inside([]));
    assert WalkFrom(t, Host([]), [RootName] + rest) == WalkFrom(t, Inside([]), rest);
    assert WalkFrom(t, Inside([]), comps) == WalkFrom(t, Host([]), [RootName] + rest);
  }

  /** One plain name: the walk goes into that directory, or fails. */
  lemma WalkName(t: Tree, base: Path, name: string)
    requires WellFormed(t) && IsDir(t, base) && IsPlainName(name)
    ensures Walk(t, base, SplitOn(name, '/'))
            == if IsDir(t, base + [name]) then Reached(base + [name]) else NoDirectory
  {
    SplitName(name);
    assert [name][0] == name && [name][1..] == [];
    assert Move(Inside(base), name) == Some(Inside(base + [name]));
    var w := WalkFrom(t, Inside(base), [name]);
    assert w == if IsDir(t, base + [name]) then WalkFrom(t, Inside(base + [name]), []) else NoDirectory;
  }

  lemma SplitName(name: string)
    requires IsPlainName(name)
    ensures SplitOn(name, '/') == [name]
  {
    SplitOfJoin([name], '/');
    assert JoinOn([name], '/') == name;
  }
}
