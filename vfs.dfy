/** The `VirtualFileSystem` of virtual_file_system.py over the abstract tree:
    the lookups and updates as functions, and the class whose methods change
    the current directory and the tree proved against them. */
module Vfs {
  import opened Wrappers
  import opened Text
  import opened FileTree
  import opened Paths
  import opened TreeView

  /** The messages `FileNotFoundException` is raised with. */
  datatype VfsError = AlreadyAtRoot | DirectoryNotFound | FileNotFound {
    /** The text `print(e)` shows; the two failed lookups end in " not found". */
    function Message(): (m: string)
      ensures EndsWith(m, " not found") <==> !AlreadyAtRoot?
    {
      match this
      case AlreadyAtRoot => "You are already at the root directory"
      case DirectoryNotFound => "Directory not found"
      case FileNotFound => "File not found"
    }
  }

  /** Each error has a message of its own, so the printed text tells which
      of the three it was. */
  lemma MessageIdentifies(e: VfsError, f: VfsError)
    ensures e.Message() == f.Message() <==> e == f
  {
  }

  /* ---------------------------------------------------------------- cd */

  /** `change_directory(path)`: the directory it moves to, or why it refuses.
      ".." is special-cased; anything else is joined to the current directory
      and accepted when the host's lookup finds a directory there. */
  function CdTarget(t: Tree, cur: Path, path: string): (r: Result<Path, VfsError>)
    requires WellFormed(t) && IsDir(t, cur)
    ensures r.Success? ==> IsDir(t, r.value)
    ensures path == ".." ==> (r.Success? <==> cur != [])
    ensures r.Failure? ==> r.error == (if path == ".." then AlreadyAtRoot else DirectoryNotFound)
  {
    if path == ".." then
      // The source decides "at the root" by comparing `current_path` with the
      // relative string "MyVirtualMachine", which the absolute path stored by
      // any successful `cd` never equals; the guard intended is `cur != []`
      // (module GuardAsWritten models the comparison as written).
      if cur != [] then
        ParentListed(t, cur);
        Success(Parent(cur))
      else Failure(AlreadyAtRoot)
    else if |path| > 0 && path[0] == '/' then Failure(DirectoryNotFound)
    else
      match Walk(t, cur, SplitOn(path, '/'))
      case Reached(d) => Success(d)
      case _ => Failure(DirectoryNotFound)
  }

  /** The directory `cd` moves to is where `os.path.abspath` of the joined path
      points (and, for "..", where `os.path.dirname` points). */
  lemma CdIsLexical(t: Tree, cur: Path, path: string)
    requires WellFormed(t) && IsDir(t, cur)
    ensures var r := CdTarget(t, cur, path);
            r.Success? ==> if path == ".." then cur != [] && r.value == Parent(cur)
                           else Resolve(cur, path) == Some(r.value)
  {
    if path != ".." && !(|path| > 0 && path[0] == '/') {
      WalkIsLexical(t, cur, SplitOn(path, '/'));
    }
  }

  /** `cd name` for a single name: into that child when it is a directory,
      "Directory not found" otherwise (a file, or nothing). */
  lemma CdIntoChild(t: Tree, cur: Path, name: string)
    requires WellFormed(t) && IsDir(t, cur) && IsPlainName(name)
    ensures CdTarget(t, cur, name)
            == if IsDir(t, cur + [name]) then Success(cur + [name]) else Failure(DirectoryNotFound)
  {
    WalkName(t, cur, name);
  }

  /** `cd d` then `cd ..` comes back to where it started, and from the root the
      prompt then shows `d`, with any backslash in it shown as a slash. */
  lemma CdThereAndBack(t: Tree, cur: Path, d: string)
    requires WellFormed(t) && IsDir(t, cur) && IsPlainName(d) && IsDir(t, cur + [d])
    ensures CdTarget(t, cur, d) == Success(cur + [d])
    ensures CdTarget(t, cur + [d], "..") == Success(cur)
    ensures cur == [] ==> RelativePath(cur + [d]) == ReplaceChar(d, '\\', '/')
  {
    CdIntoChild(t, cur, d);
    assert Parent(cur + [d]) == cur;
    if cur == [] {
      assert [] + [d] == [d];
    }
  }

  /* ---------------------------------------------------------- read/write */

  /** Where `os.path.join(current, name)` lands as a file name: a plain last
      component inside a directory of the tree; a spelling that can only name
      a directory (a trailing "", "." or "..", or the root's own name looked
      up from the working directory); a place on the host outside the tree
      (an absolute name, or one that climbs out of the root and does not come
      back); a missing parent; or a name holding NUL, which the host
      refuses (`os.path.isfile` is false, `open` raises `ValueError`). */
  datatype Location = AtName(dir: Path, name: Name) | NamesDirectory | OffTree | NoParent | Unopenable

  function Locate(t: Tree, cur: Path, arg: string): (l: Location)
    requires WellFormed(t) && IsDir(t, cur)
    ensures l.AtName? ==> IsDir(t, l.dir) && IsPlainName(l.name)
    ensures l.Unopenable? <==> '\0' in arg
  {
    var comps := SplitOn(arg, '/');
    var last := comps[|comps| - 1];
    if '\0' in arg then Unopenable
    else if !IsPlainName(last) then NamesDirectory
    else if |arg| > 0 && arg[0] == '/' then OffTree
    else
      match Walk(t, cur, comps[..|comps| - 1])
      case Reached(d) => AtName(d, last)
      case AtWorkDir => if last == RootName then NamesDirectory else OffTree
      case LeftTree => OffTree
      case NoDirectory => NoParent
  }

  /** A plain name lands in the current directory. */
  lemma LocateName(t: Tree, cur: Path, name: string)
    requires WellFormed(t) && IsDir(t, cur) && IsPlainName(name)
    ensures Locate(t, cur, name) == AtName(cur, name)
  {
    SplitName(name);
    assert [name][..0] == [];
  }

  /** The file a name lands on is the lexically normalised joined path. */
  lemma LocateIsLexical(t: Tree, cur: Path, arg: string)
    requires WellFormed(t) && IsDir(t, cur)
    ensures var l := Locate(t, cur, arg);
            l.AtName? ==> Resolve(cur, arg) == Some(l.dir + [l.name])
  {
    var comps := SplitOn(arg, '/');
    var last := comps[|comps| - 1];
    var init := comps[..|comps| - 1];
    if Locate(t, cur, arg).AtName? {
      assert !(|arg| > 0 && arg[0] == '/');
      WalkIsLexical(t, cur, init);
      var d := Walk(t, cur, init).dir;
      assert init + [last] == comps;
      NormAppend(Inside(cur), init, [last]);
      NormPlain(d, [last]);
    }
  }

  /** Which names land where depends only on which paths are directories. */
  lemma LocateSameDirs(t: Tree, u: Tree, cur: Path, arg: string)
    requires WellFormed(t) && WellFormed(u) && IsDir(t, cur)
    requires forall q :: IsDir(t, q) <==> IsDir(u, q)
    ensures Locate(u, cur, arg) == Locate(t, cur, arg)
  {
    var comps := SplitOn(arg, '/');
    WalkSameDirs(t, u, cur, comps[..|comps| - 1]);
  }

  /** Climbing out of the root into the working directory and back in through
      the root's own name, as in `../MyVirtualMachine/notes.txt`, names what
      the rest of the argument names from the root: `cd`, `read_file` and
      `write_file` behave the same, and `cd ../MyVirtualMachine` goes to the
      root. */
  lemma ReEntryFromRoot(t: Tree, arg: string, content: string)
    requires WellFormed(t) && !(|arg| > 0 && arg[0] == '/')
    ensures var up := "../" + RootName + "/" + arg;
            && Locate(t, [], up) == Locate(t, [], arg)
            && ReadAt(t, [], up) == ReadAt(t, [], arg)
            && WriteAt(t, [], up, content) == WriteAt(t, [], arg, content)
            && (arg != ".." ==> CdTarget(t, [], up) == CdTarget(t, [], arg))
    ensures CdTarget(t, [], "../" + RootName) == Success([])
  {
    LocateUp(t, arg);
    if arg != ".." { CdUp(t, arg); }
    CdRootByName(t);
  }

  lemma CdUp(t: Tree, arg: string)
    requires WellFormed(t) && !(|arg| > 0 && arg[0] == '/') && arg != ".."
    ensures CdTarget(t, [], "../" + RootName + "/" + arg) == CdTarget(t, [], arg)
  {
    var up := "../" + RootName + "/" + arg;
    SplitUp(arg);
    ReEnterRoot(t, SplitOn(arg, '/'));
    assert up[0] == '.' && up != "..";
  }

  lemma CdRootByName(t: Tree)
    requires WellFormed(t)
    ensures CdTarget(t, [], "../" + RootName) == Success([])
  {
    UpThenName(RootName);
    var up := "../" + RootName;
    assert |up| > 2 && up[0] == '.';
    ReEnterRoot(t, []);
    assert ["..", RootName] + [] == ["..", RootName];
  }

  lemma UpThenName(n: string)
    requires IsPlainName(n)
    ensures SplitOn("../" + n, '/') == ["..", n]
  {
    SplitAfterWord("..", n, '/');
    SplitName(n);
    assert "../" + n == ".." + ['/'] + n;
  }

  lemma SplitUp(arg: string)
    ensures SplitOn("../" + RootName + "/" + arg, '/') == ["..", RootName] + SplitOn(arg, '/')
  {
    SplitAfterWord(RootName, arg, '/');
    SplitAfterWord("..", RootName + "/" + arg, '/');
    assert "../" + RootName + "/" + arg == ".." + ['/'] + (RootName + ['/'] + arg);
  }

  lemma LocateUp(t: Tree, arg: string)
    requires WellFormed(t) && !(|arg| > 0 && arg[0] == '/')
    ensures Locate(t, [], "../" + RootName + "/" + arg) == Locate(t, [], arg)
  {
    var up := "../" + RootName + "/" + arg;
    SplitUp(arg);
    var s := SplitOn(arg, '/');
    var comps := ["..", RootName] + s;
    var init := s[..|s| - 1];
    assert '\0' in up <==> '\0' in arg by {
      assert up == ("../" + RootName + "/") + arg && '\0' !in "../" + RootName + "/";
    }
    assert comps[|comps| - 1] == s[|s| - 1];
    assert comps[..|comps| - 1] == ["..", RootName] + init;
    ReEnterRoot(t, init);
    assert up[0] == '.';
  }

  /** `read_file(name)`: the content of the regular file the name lands on,
      as text mode reads it, so with no "\r" left. */
  function ReadAt(t: Tree, cur: Path, name: string): (r: Result<string, VfsError>)
    requires WellFormed(t) && IsDir(t, cur)
    ensures r.Failure? ==> r.error == FileNotFound
    ensures r.Success? ==> '\r' !in r.value
  {
    match Locate(t, cur, name)
    case AtName(d, n) =>
      if IsFile(t, d + [n]) then Success(Newlines(t[d + [n]].content)) else Failure(FileNotFound)
    case _ => Failure(FileNotFound)
  }

  /** What `read_file` returns is the stored content of the regular file that
      the joined, normalised path names, with its line breaks read as "\n". */
  lemma ReadIsLexical(t: Tree, cur: Path, name: string)
    requires WellFormed(t) && IsDir(t, cur)
    ensures var r := ReadAt(t, cur, name);
            r.Success? ==> && Resolve(cur, name).Some?
                           && IsFile(t, Resolve(cur, name).value)
                           && r.value == Newlines(t[Resolve(cur, name).value].content)
  {
    LocateIsLexical(t, cur, name);
  }

  /** For a plain name, `read_file` returns the child's content (line breaks
      read as "\n") when it is a regular file and raises "File not found"
      otherwise, directories included. */
  lemma ReadName(t: Tree, cur: Path, name: string)
    requires WellFormed(t) && IsDir(t, cur) && IsPlainName(name)
    ensures ReadAt(t, cur, name)
            == if IsFile(t, cur + [name]) then Success(Newlines(t[cur + [name]].content)) else Failure(FileNotFound)
  {
    LocateName(t, cur, name);
  }

  /** Storing `content` as the file `n` of directory `d`: an existing file is
      overwritten in place, a new one is appended to the directory's listing. */
  function Store(t: Tree, d: Path, n: Name, content: string): (r: Tree)
    requires IsDir(t, d)
    ensures r.Keys == t.Keys + {d + [n]}
    ensures r[d + [n]] == File(content)
    ensures forall q :: q in t && q != d && q != d + [n] ==> r[q] == t[q]
    ensures IsDir(r, d) && r[d].children == if d + [n] in t then t[d].children else t[d].children + [n]
  {
    var q := d + [n];
    assert q != d;
    if q in t then t[q := File(content)]
    else t[q := File(content)][d := Dir(t[d].children + [n])]
  }

  /** Storing a file where there is no directory keeps the tree well formed and
      keeps its directories exactly as they were. */
  lemma StoreWellFormed(t: Tree, d: Path, n: Name, content: string)
    requires WellFormed(t) && IsDir(t, d) && IsPlainName(n) && !IsDir(t, d + [n])
    ensures WellFormed(Store(t, d, n, content))
    ensures forall q :: IsDir(Store(t, d, n, content), q) <==> IsDir(t, q)
  {
    var r := Store(t, d, n, content);
    var f := d + [n];
    assert Parent(f) == d;
    var isNew := f !in t;
    forall q | q in r && q != [] ensures Listed(r, q) {
      if q == f {
        if !isNew { ParentListed(t, f); }
        assert n in r[d].children;
      } else {
        ParentListed(t, q);
        assert Parent(q) != f;
      }
    }
    forall p, i | IsDir(r, p) && 0 <= i < |r[p].children| ensures ChildPresent(r, p, i) {
      assert p != f;
      if p == d && isNew && i == |t[d].children| {
        assert r[p].children[i] == n;
      } else {
        assert r[p].children[i] == t[p].children[i];
        ChildExists(t, p, i);
      }
    }
    forall p, i, j | IsDir(r, p) && 0 <= i < j < |r[p].children| ensures ChildrenDiffer(r, p, i, j) {
      assert p != f;
      if p == d && isNew && j == |t[d].children| {
        ChildExists(t, p, i);
        assert r[p].children[i] == t[p].children[i];
      } else {
        ChildrenDistinct(t, p, i, j);
      }
    }
  }

  /** What `open(path, "w")` does to the tree. A name that leaves the tree
      names a host path this model does not hold: `WrittenOutside` counts it
      as a completed write, although on the host `open` may raise there too
      (a missing directory, a host directory of that name, no permission),
      which would end the process. Inside the tree, a directory, a missing
      parent, a parent that is a file, or a last component "", "." or ".."
      makes `open` raise a built-in `OSError`, and a name holding NUL makes
      it raise `ValueError`; all of these are `WriteFailed`. On a POSIX host
      text mode writes "\n" as it is, so the content is stored unchanged. */
  datatype WriteOutcome = Written(tree: Tree) | WrittenOutside | WriteFailed

  /** `write_file(name, content)`. */
  function WriteAt(t: Tree, cur: Path, name: string, content: string): (r: WriteOutcome)
    requires WellFormed(t) && IsDir(t, cur)
    ensures r.Written? ==> WellFormed(r.tree) && (forall q :: IsDir(r.tree, q) <==> IsDir(t, q))
    ensures r.Written? ==> var l := Locate(t, cur, name);
                           l.AtName? && !IsDir(t, l.dir + [l.name]) && r.tree == Store(t, l.dir, l.name, content)
  {
    match Locate(t, cur, name)
    case AtName(d, n) =>
      if IsDir(t, d + [n]) then WriteFailed
      else
        StoreWellFormed(t, d, n, content);
        Written(Store(t, d, n, content))
    case OffTree => WrittenOutside
    case _ => WriteFailed
  }

  /** `write_file(name, c)` followed by `read_file(name)` gives back `c` with
      its line breaks read as "\n"; that is `c` itself when it holds no "\r". */
  lemma ReadAfterWrite(t: Tree, cur: Path, name: string, content: string)
    requires WellFormed(t) && IsDir(t, cur) && WriteAt(t, cur, name, content).Written?
    ensures ReadAt(WriteAt(t, cur, name, content).tree, cur, name) == Success(Newlines(content))
    ensures '\r' !in content ==> ReadAt(WriteAt(t, cur, name, content).tree, cur, name) == Success(content)
  {
    var u := WriteAt(t, cur, name, content).tree;
    LocateSameDirs(t, u, cur, name);
  }

  /** A write leaves every other name reading as before. */
  lemma WriteLeavesOthers(t: Tree, cur: Path, name: string, content: string, other: string)
    requires WellFormed(t) && IsDir(t, cur) && WriteAt(t, cur, name, content).Written?
    requires Locate(t, cur, other) != Locate(t, cur, name)
    ensures ReadAt(WriteAt(t, cur, name, content).tree, cur, other) == ReadAt(t, cur, other)
  {
    var u := WriteAt(t, cur, name, content).tree;
    LocateSameDirs(t, u, cur, other);
    var l, o := Locate(t, cur, name), Locate(t, cur, other);
    if o.AtName? {
      ChildPathInjective(o.dir, o.name, l.dir, l.name);
    }
  }

  lemma ChildPathInjective(a: Path, x: Name, b: Path, y: Name)
    ensures a + [x] == b + [y] ==> a == b && x == y
  {
    if a + [x] == b + [y] {
      assert a == (a + [x])[..|a|] && b == (b + [y])[..|b|];
    }
  }

  /** For a plain name, `write_file` fails exactly when the name is a
      directory; otherwise the child becomes a file holding the content, a
      new child is appended to the listing, and nothing else changes. */
  lemma WriteName(t: Tree, cur: Path, name: string, content: string)
    requires WellFormed(t) && IsDir(t, cur) && IsPlainName(name)
    ensures var r := WriteAt(t, cur, name, content);
            && (r.WriteFailed? <==> IsDir(t, cur + [name]))
            && !r.WrittenOutside?
            && (r.Written? ==>
                  && r.tree.Keys == t.Keys + {cur + [name]}
                  && r.tree[cur + [name]] == File(content)
                  && (forall q :: q in t && q != cur && q != cur + [name] ==> r.tree[q] == t[q])
                  && r.tree[cur].children
                     == if cur + [name] in t then t[cur].children else t[cur].children + [name])
  {
    LocateName(t, cur, name);
  }

  /** A name holding NUL: `cd` reports "Directory not found" and `read_file`
      "File not found", since the host's lookups answer false, and
      `write_file` fails, since `open` raises `ValueError`. */
  lemma NulRefused(t: Tree, cur: Path, arg: string, content: string)
    requires WellFormed(t) && IsDir(t, cur) && '\0' in arg
    ensures Locate(t, cur, arg) == Unopenable
    ensures ReadAt(t, cur, arg) == Failure(FileNotFound)
    ensures WriteAt(t, cur, arg, content) == WriteFailed
    ensures CdTarget(t, cur, arg) == Failure(DirectoryNotFound)
  {
    assert arg != "..";
    WalkNul(t, cur, arg);
  }

  /* ---------------------------------------------------------------- ls */

  function Spaces(k: nat): (s: string)
    ensures |s| == k && forall i :: 0 <= i < k ==> s[i] == ' '
  {
    if k == 0 then "" else Spaces(k - 1) + " "
  }

  /** `f"{s:<width}"`. */
  function PadRight(s: string, width: nat): (r: string)
    ensures StartsWith(r, s)
    ensures |r| == if |s| < width then width else |s|
    ensures forall i :: |s| <= i < |r| ==> r[i] == ' '
  {
    if |s| < width then s + Spaces(width - |s|) else s
  }

  /** The type column of a listing line: "Directory" for a directory and
      "File" for anything else, both fitting the ten-character column. */
  function Kind(t: Tree, q: Path): (k: string)
    ensures k == "Directory" <==> IsDir(t, q)
    ensures k == "File" <==> !IsDir(t, q)
    ensures |k| <= 10
  {
    if IsDir(t, q) then "Directory" else "File"
  }

  /** One line of `list_directory` for the child `c` of `p`: the type padded to
      ten characters, the size and modification time columns (`stat`, kept
      abstract), and the child's name. The line starts with "Directory"
      exactly when the child is a directory and with "File" exactly when it
      is not, and ends with the child's name. */
  function ListingLine(t: Tree, p: Path, c: Name, stat: Path -> string): (line: string)
    ensures StartsWith(line, "Directory") <==> IsDir(t, p + [c])
    ensures StartsWith(line, "File") <==> !IsDir(t, p + [c])
    ensures EndsWith(line, c)
    ensures StartsWith(line, PadRight(Kind(t, p + [c]), 10) + " ")
  {
    var head := PadRight(Kind(t, p + [c]), 10);
    var line := head + " " + stat(p + [c]) + " " + c;
    assert line == head + (" " + stat(p + [c]) + " ") + c;
    assert line[|line| - |c|..] == c;
    assert line[..|head| + 1] == head + " ";
    assert IsDir(t, p + [c]) ==> line[..9] == head[..9] == "Directory" && line[0] == 'D';
    assert !IsDir(t, p + [c]) ==> line[..4] == head[..4] == "File" && head[4] == ' '
                                  && (|line| < 9 || line[4] != "Directory"[4]);
    line
  }

  function ListingLines(t: Tree, p: Path, cs: seq<Name>, stat: Path -> string): (ls: seq<string>)
    ensures |ls| == |cs| && forall i :: 0 <= i < |cs| ==> ls[i] == ListingLine(t, p, cs[i], stat)
  {
    if cs == [] then []
    else
      var init := ListingLines(t, p, cs[..|cs| - 1], stat);
      assert forall i :: 0 <= i < |cs| - 1 ==> init[i] == ListingLine(t, p, cs[i], stat);
      init + [ListingLine(t, p, cs[|cs| - 1], stat)]
  }

  /** `list_directory()` on directory `p`: one line per child, in listing
      order, joined by newlines; "" for an empty directory and for a path
      that is not a directory. Splitting the listing at newlines gives the
      lines back whenever no name or column holds a newline itself. */
  function Listing(t: Tree, p: Path, stat: Path -> string): (r: string)
    ensures !IsDir(t, p) || t[p].children == [] ==> r == ""
    ensures IsDir(t, p) && t[p].children != []
            && (forall i :: 0 <= i < |t[p].children| ==> '\n' !in ListingLine(t, p, t[p].children[i], stat))
            ==> SplitOn(r, '\n') == ListingLines(t, p, t[p].children, stat)
  {
    if IsDir(t, p) then
      var lines := ListingLines(t, p, t[p].children, stat);
      if t[p].children != [] && (forall i :: 0 <= i < |lines| ==> '\n' !in lines[i]) then
        SplitOfJoin(lines, '\n');
        JoinOn(lines, '\n')
      else JoinOn(lines, '\n')
    else ""
  }

  /* ------------------------------------------------------------ the class */

  /** The filesystem object: the extracted tree and the current directory
      (`current_path`, the root being `[]`). */
  class VirtualFileSystem {
    var tree: Tree
    var current: Path

    ghost predicate Valid()
      reads this
    {
      WellFormed(tree) && IsDir(tree, current)
    }

    /** A filesystem over the freshly extracted tree starts at the root, where
        the prompt shows ".". */
    constructor (extracted: Tree)
      requires WellFormed(extracted)
      ensures Valid() && tree == extracted && current == []
      ensures RelativePath() == "."
    {
      tree := extracted;
      current := [];
    }

    /** `get_relative_path()`: "." exactly at the root. */
    function RelativePath(): (r: string)
      reads this
      requires Valid()
      ensures r == "." <==> current == []
    {
      PathsArePlain(tree, current);
      Paths.RelativePathAtRoot(current);
      Paths.RelativePath(current)
    }

    /** `read_file(name)`: the stored content of the regular file the joined
        path names, read in text mode, or "File not found". */
    function ReadFile(name: string): (r: Result<string, VfsError>)
      reads this
      requires Valid()
      ensures r.Failure? ==> r.error == FileNotFound
      ensures r.Success? ==> && Resolve(current, name).Some?
                             && IsFile(tree, Resolve(current, name).value)
                             && r.value == Newlines(tree[Resolve(current, name).value].content)
    {
      ReadIsLexical(tree, current, name);
      ReadAt(tree, current, name)
    }

    /** `list_directory()`: builds the lines child by child, then joins them. */
    method ListDirectory(stat: Path -> string) returns (text: string)
      requires Valid()
      ensures text == Listing(tree, current, stat)
    {
      var names := tree[current].children;
      var items: seq<string> := [];
      for i := 0 to |names|
        invariant items == ListingLines(tree, current, names[..i], stat)
      {
        var path := current + [names[i]];
        var kind := if IsDir(tree, path) then "Directory" else "File";
        items := items + [PadRight(kind, 10) + " " + stat(path) + " " + names[i]];
        assert names[..i + 1][..i] == names[..i];
      }
      assert names[..|names|] == names;
      text := JoinOn(items, '\n');
    }

    /** `change_directory(path)`: moves to `CdTarget`'s directory, or reports
        its error and stays. */
    method ChangeDirectory(path: string) returns (err: Option<VfsError>)
      requires Valid()
      modifies this`current
      ensures Valid()
      ensures match CdTarget(tree, old(current), path)
              case Success(d) => current == d && err == None
              case Failure(e) => current == old(current) && err == Some(e)
    {
      if path == ".." {
        if current != [] {
          ParentListed(tree, current);
          current := Parent(current);
          err := None;
        } else {
          err := Some(AlreadyAtRoot);
        }
      } else {
        var target := if |path| > 0 && path[0] == '/' then LeftTree
                      else Walk(tree, current, SplitOn(path, '/'));
        if target.Reached? {
          current := target.dir;
          err := None;
        } else {
          err := Some(DirectoryNotFound);
        }
      }
    }

    /** `write_file(name, content)`: false when `open` would raise. */
    method WriteFile(name: string, content: string) returns (ok: bool)
      requires Valid()
      modifies this`tree
      ensures Valid()
      ensures match WriteAt(old(tree), current, name, content)
              case Written(u) => ok && tree == u
              case WrittenOutside => ok && tree == old(tree)
              case WriteFailed => !ok && tree == old(tree)
    {
      var outcome := WriteAt(tree, current, name, content);
      match outcome
      case Written(u) =>
        tree := u;
        ok := true;
      case WrittenOutside =>
        ok := true;
      case WriteFailed =>
        ok := false;
    }

    /** `get_directory_tree()`. */
    method DirectoryTree() returns (text: string)
      requires Valid()
      ensures text == Rendered(tree, current, "")
    {
      text := DirectoryTreeFrom(current, "");
    }

    /** `_get_directory_tree_recursive(p, indent)`: the directory's line, then
        the children in listing order, recursing into sub-directories. */
    method DirectoryTreeFrom(p: Path, indent: string) returns (text: string)
      requires WellFormed(tree) && IsDir(tree, p)
      ensures text == Rendered(tree, p, indent)
      decreases Desc(tree, p)
    {
      var head := indent + BaseName(p) + "/\n";
      text := head;
      var names := tree[p].children;
      for i := 0 to |names|
        invariant text == head + RenderedChildren(tree, p, names[..i], indent)
      {
        var name := names[i];
        ChildExists(tree, p, i);
        assert names[..i + 1][..i] == names[..i] && names[..i + 1][i] == name;
        RenderedChildrenStep(tree, p, names[..i + 1], indent);
        ghost var before := RenderedChildren(tree, p, names[..i], indent);
        var piece;
        if IsDir(tree, p + [name]) {
          DescShrinks(tree, p, name);
          piece := DirectoryTreeFrom(p + [name], indent + "  ");
        } else {
          piece := indent + "  " + name + "\n";
        }
        assert RenderedChildren(tree, p, names[..i + 1], indent) == before + piece;
        text := text + piece;
        assert text == head + (before + piece);
      }
      assert names[..|names|] == names;
      assert text == Rendered(tree, p, indent);
    }
  }
}
