/** The extracted archive as an abstract tree: a map from component paths,
    relative to the virtual root, to files and directories. A directory lists
    its children in the host's enumeration order (what `os.listdir` returns). */
module FileTree {

  type Name = string
  type Path = seq<Name>

  datatype Entry = File(content: string) | Dir(children: seq<Name>)

  type Tree = map<Path, Entry>

  /** The directory the archive is extracted into (virtual_file_system.py:12). */
  const RootName: string := "MyVirtualMachine"

  predicate IsDir(t: Tree, p: Path) {
    p in t && t[p].Dir?
  }

  predicate IsFile(t: Tree, p: Path) {
    p in t && t[p].File?
  }

  /** A single path component as it can occur inside the tree: not empty,
      not "." or "..", no "/", and no NUL, which no host file name holds. */
  predicate IsPlainName(n: string) {
    n != "" && n != "." && n != ".." && '/' !in n && '\0' !in n
  }

  predicate PlainPath(p: Path) {
    forall i :: 0 <= i < |p| ==> IsPlainName(p[i])
  }

  function Parent(p: Path): Path
    requires p != []
  {
    p[..|p| - 1]
  }

  /** `os.path.basename` of a directory: the root shows the root directory's own name. */
  function BaseName(p: Path): (b: string)
    ensures p != [] ==> p == Parent(p) + [b]
    ensures PlainPath(p) ==> IsPlainName(b)
  {
    if p == [] then RootName else p[|p| - 1]
  }

  /** The shape every extracted tree has: the root is a directory, each entry is
      listed by its parent directory, each listed child exists, and a
      directory's children are distinct plain names. */
  ghost predicate WellFormed(t: Tree) {
    && IsDir(t, [])
    && (forall p {:trigger Listed(t, p)} | p in t && p != [] :: Listed(t, p))
    && (forall p, i {:trigger ChildPresent(t, p, i)} | IsDir(t, p) && 0 <= i < |t[p].children| ::
          ChildPresent(t, p, i))
    && (forall p, i, j {:trigger ChildrenDiffer(t, p, i, j)} | IsDir(t, p) && 0 <= i < j < |t[p].children| ::
          ChildrenDiffer(t, p, i, j))
  }

  /** The `i`-th child of directory `p` is an entry with a plain name. */
  ghost predicate ChildPresent(t: Tree, p: Path, i: int)
    requires IsDir(t, p) && 0 <= i < |t[p].children|
  {
    p + [t[p].children[i]] in t && IsPlainName(t[p].children[i])
  }

  ghost predicate ChildrenDiffer(t: Tree, p: Path, i: int, j: int)
    requires IsDir(t, p) && 0 <= i < |t[p].children| && 0 <= j < |t[p].children|
  {
    t[p].children[i] != t[p].children[j]
  }

  /* The quantifiers of `WellFormed` fire only through the three lemmas below;
     left to themselves, they would keep walking up and down the tree. */

  lemma ChildExists(t: Tree, p: Path, i: int)
    requires WellFormed(t) && IsDir(t, p) && 0 <= i < |t[p].children|
    ensures p + [t[p].children[i]] in t && IsPlainName(t[p].children[i])
  {
    assert ChildPresent(t, p, i);
  }

  lemma ChildrenDistinct(t: Tree, p: Path, i: int, j: int)
    requires WellFormed(t) && IsDir(t, p) && 0 <= i < j < |t[p].children|
    ensures t[p].children[i] != t[p].children[j]
  {
    assert ChildrenDiffer(t, p, i, j);
  }

  /** `p` is listed by its parent directory. */
  ghost predicate Listed(t: Tree, p: Path)
    requires p != []
  {
    IsDir(t, Parent(p)) && p[|p| - 1] in t[Parent(p)].children
  }

  /** Every entry but the root is listed by its parent directory. */
  lemma ParentListed(t: Tree, p: Path)
    requires WellFormed(t) && p in t && p != []
    ensures IsDir(t, Parent(p)) && p[|p| - 1] in t[Parent(p)].children
  {
    assert Listed(t, p);
  }

  /** The entries at or below `p`. */
  ghost function Desc(t: Tree, p: Path): set<Path> {
    set q | q in t && p <= q
  }

  /** The entries below a child form a strict part of the entries below its parent. */
  lemma DescShrinks(t: Tree, p: Path, c: Name)
    requires p in t
    ensures Desc(t, p + [c]) < Desc(t, p)
  {
    forall q | q in Desc(t, p + [c]) ensures q in Desc(t, p) {
      assert q[..|p|] == (p + [c])[..|p|] == p;
    }
    assert p in Desc(t, p);
    assert p !in Desc(t, p + [c]);
  }

  /** Every path in a well-formed tree consists of plain names. */
  lemma {:induction false} PathsArePlain(t: Tree, p: Path)
    requires WellFormed(t) && p in t
    ensures PlainPath(p)
    decreases |p|
  {
    if p != [] {
      var q := Parent(p);
      ParentListed(t, p);
      PathsArePlain(t, q);
      var k :| 0 <= k < |t[q].children| && t[q].children[k] == p[|p| - 1];
      ChildExists(t, q, k);
      assert q + [t[q].children[k]] == p;
    }
  }
}
