/** The `tree` rendering (virtual_file_system.py:49-60) and the pre-order
    traversal it follows. */
module TreeView {
  import opened Text
  import opened FileTree

  /** Two spaces per level below the directory being rendered. */
  function Indent(depth: nat): string {
    if depth == 0 then "" else "  " + Indent(depth - 1)
  }

  /** What `_get_directory_tree_recursive(p, indent)` returns: the directory's
      own line, then each child in listing order, a sub-directory rendered
      recursively one level deeper and a file on a line of its own. */
  function Rendered(t: Tree, p: Path, indent: string): (r: string)
    requires WellFormed(t) && IsDir(t, p)
    ensures StartsWith(r, indent + BaseName(p) + "/\n")
    ensures EndsWith(r, "\n")
    decreases Desc(t, p), 1
  {
    var head := indent + BaseName(p) + "/\n";
    var rest := RenderedChildren(t, p, t[p].children, indent);
    assert (head + rest)[..|head|] == head;
    assert rest == [] ==> head + rest == head;
    head + rest
  }

  /** The text the loop of `_get_directory_tree_recursive` has appended after
      visiting the children `cs`, a prefix of the directory's listing. */
  function RenderedChildren(t: Tree, p: Path, cs: seq<Name>, indent: string): (r: string)
    requires WellFormed(t) && IsDir(t, p) && cs <= t[p].children
    ensures r == "" <==> cs == []
    ensures cs != [] ==> StartsWith(r, indent + "  ") && EndsWith(r, "\n")
    decreases Desc(t, p), 0, |cs|
  {
    if cs == [] then ""
    else
      var c := cs[|cs| - 1];
      assert c == t[p].children[|cs| - 1];
      ChildExists(t, p, |cs| - 1);
      var before := RenderedChildren(t, p, cs[..|cs| - 1], indent);
      var piece := if IsDir(t, p + [c]) then
                     DescShrinks(t, p, c);
                     Rendered(t, p + [c], indent + "  ")
                   else
                     indent + "  " + c + "\n";
      assert StartsWith(piece, indent + "  ") by {
        if IsDir(t, p + [c]) {
          assert StartsWith(piece, indent + "  " + BaseName(p + [c]) + "/\n");
          assert piece[..|indent + "  "|] == (indent + "  " + BaseName(p + [c]) + "/\n")[..|indent + "  "|];
        }
      }
      assert EndsWith(before + piece, "\n") by {
        assert (before + piece)[|before + piece| - 1] == piece[|piece| - 1];
      }
      assert before == "" ==> before + piece == piece;
      assert before != "" ==> StartsWith(before + piece, indent + "  ") by {
        if before != "" { StartsWithAppend(before, piece, indent + "  "); }
      }
      before + piece
  }

  /** One more child of the loop: its piece goes at the end. */
  lemma RenderedChildrenStep(t: Tree, p: Path, cs: seq<Name>, indent: string)
    requires WellFormed(t) && IsDir(t, p) && cs <= t[p].children && cs != []
    requires p + [cs[|cs| - 1]] in t
    ensures RenderedChildren(t, p, cs, indent)
            == RenderedChildren(t, p, cs[..|cs| - 1], indent)
               + if IsDir(t, p + [cs[|cs| - 1]]) then Rendered(t, p + [cs[|cs| - 1]], indent + "  ")
                 else indent + "  " + cs[|cs| - 1] + "\n"
  {
  }

  /** The entries at or below `p`, in the pre-order `tree` visits them. */
  ghost function Visit(t: Tree, p: Path): seq<Path>
    requires WellFormed(t) && p in t
    decreases Desc(t, p), 1
  {
    if t[p].File? then [p] else [p] + VisitChildren(t, p, t[p].children)
  }

  ghost function VisitChildren(t: Tree, p: Path, cs: seq<Name>): seq<Path>
    requires WellFormed(t) && IsDir(t, p) && cs <= t[p].children
    decreases Desc(t, p), 0, |cs|
  {
    if cs == [] then []
    else
      var c := cs[|cs| - 1];
      assert c == t[p].children[|cs| - 1];
      ChildExists(t, p, |cs| - 1);
      DescShrinks(t, p, c);
      VisitChildren(t, p, cs[..|cs| - 1]) + Visit(t, p + [c])
  }

  /** The line the rendering of `top` (at `indent`) gives to the entry `q`
      below it: two more spaces per level, the name, and "/" for a directory. */
  function TreeLine(t: Tree, top: Path, indent: string, q: Path): string {
    indent + Indent(Depth(top, q)) + BaseName(q) + (if IsDir(t, q) then "/\n" else "\n")
  }

  /** How many levels `q` lies below `top`. */
  function Depth(top: Path, q: Path): nat {
    if |top| <= |q| then |q| - |top| else 0
  }

  function Lines(t: Tree, top: Path, indent: string, qs: seq<Path>): (ls: seq<string>)
    ensures |ls| == |qs|
    ensures forall i :: 0 <= i < |qs| ==> ls[i] == TreeLine(t, top, indent, qs[i])
  {
    if qs == [] then []
    else Lines(t, top, indent, qs[..|qs| - 1]) + [TreeLine(t, top, indent, qs[|qs| - 1])]
  }

  ghost predicate Distinct<T>(s: seq<T>) {
    forall i, j :: 0 <= i < j < |s| ==> s[i] != s[j]
  }

  lemma {:induction false} ConcatAppend(a: seq<string>, b: seq<string>)
    ensures Concat(a + b) == Concat(a) + Concat(b)
    decreases |b|
  {
    if b == [] {
      assert a + b == a;
    } else {
      assert (a + b)[..|a + b| - 1] == a + b[..|b| - 1];
      ConcatAppend(a, b[..|b| - 1]);
    }
  }

  lemma LinesAppend(t: Tree, top: Path, indent: string, a: seq<Path>, b: seq<Path>)
    ensures Lines(t, top, indent, a + b) == Lines(t, top, indent, a) + Lines(t, top, indent, b)
  {
  }

  /** Rendering a sub-directory one level deeper gives the same lines as
      measuring its entries' depth from the parent. */
  lemma LinesShift(t: Tree, p: Path, c: Name, indent: string, qs: seq<Path>)
    requires forall i :: 0 <= i < |qs| ==> |p| + 1 <= |qs[i]|
    ensures Lines(t, p + [c], indent + "  ", qs) == Lines(t, p, indent, qs)
  {
    var a, b := Lines(t, p + [c], indent + "  ", qs), Lines(t, p, indent, qs);
    forall i | 0 <= i < |qs| ensures a[i] == b[i] {
      TreeLineShift(t, p, c, indent, qs[i]);
    }
  }

  lemma TreeLineShift(t: Tree, p: Path, c: Name, indent: string, q: Path)
    requires |p| + 1 <= |q|
    ensures TreeLine(t, p + [c], indent + "  ", q) == TreeLine(t, p, indent, q)
  {
    var d := Depth(p, q);
    assert Depth(p + [c], q) == d - 1;
    assert Indent(d) == "  " + Indent(d - 1);
    assert (indent + "  ") + Indent(d - 1) == indent + Indent(d);
  }

  /** Every entry `Visit` lists lies at or below `p`. */
  lemma {:induction false} VisitBelow(t: Tree, p: Path)
    requires WellFormed(t) && p in t
    ensures forall i :: 0 <= i < |Visit(t, p)| ==> Visit(t, p)[i] in t && p <= Visit(t, p)[i]
    ensures Visit(t, p) != [] && Visit(t, p)[0] == p
    decreases Desc(t, p), 1
  {
    if t[p].Dir? {
      VisitChildrenBelow(t, p, t[p].children);
    }
  }

  /** Every entry `VisitChildren` lists lies strictly below `p`, under one of `cs`. */
  lemma {:induction false} VisitChildrenBelow(t: Tree, p: Path, cs: seq<Name>)
    requires WellFormed(t) && IsDir(t, p) && cs <= t[p].children
    ensures forall i :: 0 <= i < |VisitChildren(t, p, cs)| ==>
      var q := VisitChildren(t, p, cs)[i];
      q in t && |p| < |q| && q[..|p|] == p && q[|p|] in cs
    decreases Desc(t, p), 0, |cs|
  {
    if cs != [] {
      var c := cs[|cs| - 1];
      var init := cs[..|cs| - 1];
      assert c == t[p].children[|cs| - 1];
      ChildExists(t, p, |cs| - 1);
      DescShrinks(t, p, c);
      VisitChildrenBelow(t, p, init);
      VisitBelow(t, p + [c]);
      var a, b := VisitChildren(t, p, init), Visit(t, p + [c]);
      assert VisitChildren(t, p, cs) == a + b;
      forall i | 0 <= i < |a + b|
        ensures var q := (a + b)[i]; q in t && |p| < |q| && q[..|p|] == p && q[|p|] in cs
      {
        if i < |a| {
          assert (a + b)[i] == a[i];
          assert a[i][|p|] in init;
        } else {
          var q := b[i - |a|];
          assert (a + b)[i] == q;
          assert p + [c] <= q;
          assert q[..|p|] == (p + [c])[..|p|];
          assert q[|p|] == (p + [c])[|p|] == c;
        }
      }
    }
  }

  /** The rendering is the visited entries' lines, in visiting order. */
  lemma {:induction false} RenderedIsLines(t: Tree, p: Path, indent: string)
    requires WellFormed(t) && IsDir(t, p)
    ensures Rendered(t, p, indent) == Concat(Lines(t, p, indent, Visit(t, p)))
    decreases Desc(t, p), 1
  {
    var cs := t[p].children;
    var rest := VisitChildren(t, p, cs);
    RenderedChildrenAreLines(t, p, cs, indent);
    assert Visit(t, p) == [p] + rest;
    var head := TreeLine(t, p, indent, p);
    assert head == indent + BaseName(p) + "/\n" by {
      assert Depth(p, p) == 0 && Indent(0) == "";
      assert indent + "" == indent;
    }
    LinesAppend(t, p, indent, [p], rest);
    assert Lines(t, p, indent, [p]) == [head];
    ConcatAppend([head], Lines(t, p, indent, rest));
    ConcatOne(head);
  }

  lemma ConcatOne(s: string)
    ensures Concat([s]) == s
  {
    assert [s][..0] == [];
  }

  lemma {:induction false} RenderedChildrenAreLines(t: Tree, p: Path, cs: seq<Name>, indent: string)
    requires WellFormed(t) && IsDir(t, p) && cs <= t[p].children
    ensures RenderedChildren(t, p, cs, indent) == Concat(Lines(t, p, indent, VisitChildren(t, p, cs)))
    decreases Desc(t, p), 0, |cs|
  {
    if cs != [] {
      var c := cs[|cs| - 1];
      var init := cs[..|cs| - 1];
      assert c == t[p].children[|cs| - 1];
      ChildExists(t, p, |cs| - 1);
      DescShrinks(t, p, c);
      RenderedChildrenAreLines(t, p, init, indent);
      var a, b := VisitChildren(t, p, init), Visit(t, p + [c]);
      assert VisitChildren(t, p, cs) == a + b;
      LinesAppend(t, p, indent, a, b);
      ConcatAppend(Lines(t, p, indent, a), Lines(t, p, indent, b));
      ChildPieceIsLines(t, p, c, indent);
    }
  }

  /** The text one child contributes is the lines of the entries at and below it. */
  lemma {:induction false} ChildPieceIsLines(t: Tree, p: Path, c: Name, indent: string)
    requires WellFormed(t) && IsDir(t, p) && p + [c] in t
    ensures (if IsDir(t, p + [c]) then Rendered(t, p + [c], indent + "  ")
             else indent + "  " + c + "\n")
            == Concat(Lines(t, p, indent, Visit(t, p + [c])))
    decreases Desc(t, p), 0, 0
  {
    var b := Visit(t, p + [c]);
    DescShrinks(t, p, c);
    if IsDir(t, p + [c]) {
      RenderedIsLines(t, p + [c], indent + "  ");
      VisitBelow(t, p + [c]);
      forall i | 0 <= i < |b| ensures |p| + 1 <= |b[i]| {
        assert p + [c] <= b[i];
      }
      LinesShift(t, p, c, indent, b);
    } else {
      assert b == [p + [c]];
      var line := TreeLine(t, p, indent, p + [c]);
      assert line == indent + "  " + c + "\n" by {
        assert Depth(p, p + [c]) == 1;
        assert Indent(1) == "  " + "" == "  ";
        assert BaseName(p + [c]) == c;
      }
      assert Lines(t, p, indent, b) == [line];
      ConcatOne(line);
    }
  }

  /** Each ancestor of an entry is a directory that lists the next component. */
  lemma {:induction false} AncestorListed(t: Tree, q: Path, k: nat)
    requires WellFormed(t) && q in t && k < |q|
    ensures IsDir(t, q[..k]) && q[k] in t[q[..k]].children && q[..k + 1] in t
    decreases |q| - k
  {
    ParentListed(t, q);
    var r := Parent(q);
    if k == |q| - 1 {
      assert q[..k] == r;
      assert q[..k + 1] == q;
    } else {
      AncestorListed(t, r, k);
      assert r[..k] == q[..k];
      assert r[..k + 1] == q[..k + 1];
    }
  }

  lemma {:induction false} VisitChildrenContains(t: Tree, p: Path, cs: seq<Name>, i: nat)
    requires WellFormed(t) && IsDir(t, p) && cs <= t[p].children && i < |cs|
    ensures p + [cs[i]] in t
    ensures forall x :: x in Visit(t, p + [cs[i]]) ==> x in VisitChildren(t, p, cs)
    decreases |cs|
  {
    assert cs[i] == t[p].children[i];
    ChildExists(t, p, i);
    var c := cs[|cs| - 1];
    var init := cs[..|cs| - 1];
    assert c == t[p].children[|cs| - 1];
    ChildExists(t, p, |cs| - 1);
    DescShrinks(t, p, c);
    assert VisitChildren(t, p, cs) == VisitChildren(t, p, init) + Visit(t, p + [c]);
    if i < |cs| - 1 {
      assert init[i] == cs[i];
      VisitChildrenContains(t, p, init, i);
    }
  }

  /** `Visit` reaches every entry at or below `p`. */
  lemma {:induction false} VisitComplete(t: Tree, p: Path, q: Path)
    requires WellFormed(t) && p in t && q in t && p <= q
    ensures q in Visit(t, p)
    decreases |q| - |p|
  {
    VisitBelow(t, p);
    if q != p {
      var k := |p|;
      AncestorListed(t, q, k);
      assert q[..k] == p;
      var c := q[k];
      var r := q[..k + 1];
      assert r == p + [c];
      VisitComplete(t, r, q);
      var ch := t[p].children;
      var i :| 0 <= i < |ch| && ch[i] == c;
      VisitChildrenContains(t, p, ch, i);
    }
  }

  /** `Visit` lists no entry twice. */
  lemma {:induction false} VisitDistinct(t: Tree, p: Path)
    requires WellFormed(t) && p in t
    ensures Distinct(Visit(t, p))
    decreases Desc(t, p), 1
  {
    if t[p].Dir? {
      var rest := VisitChildren(t, p, t[p].children);
      VisitChildrenDistinct(t, p, t[p].children);
      VisitChildrenBelow(t, p, t[p].children);
      assert Visit(t, p) == [p] + rest;
      forall i, j | 0 <= i < j < |Visit(t, p)| ensures Visit(t, p)[i] != Visit(t, p)[j] {
        if i == 0 {
          assert |Visit(t, p)[j]| > |p|;
        } else {
          assert Visit(t, p)[i] == rest[i - 1] && Visit(t, p)[j] == rest[j - 1];
        }
      }
    }
  }

  lemma {:induction false} VisitChildrenDistinct(t: Tree, p: Path, cs: seq<Name>)
    requires WellFormed(t) && IsDir(t, p) && cs <= t[p].children
    ensures Distinct(VisitChildren(t, p, cs))
    decreases Desc(t, p), 0, |cs|
  {
    if cs != [] {
      var n := |cs| - 1;
      var c := cs[n];
      var init := cs[..n];
      assert c == t[p].children[n];
      ChildExists(t, p, n);
      DescShrinks(t, p, c);
      var a, b := VisitChildren(t, p, init), Visit(t, p + [c]);
      assert VisitChildren(t, p, cs) == a + b;
      VisitChildrenDistinct(t, p, init);
      VisitDistinct(t, p + [c]);
      VisitChildrenBelow(t, p, init);
      VisitBelow(t, p + [c]);
      forall j | 0 <= j < n ensures init[j] != c {
        assert init[j] == t[p].children[j];
        ChildrenDistinct(t, p, j, n);
      }
      forall x, y | x in a && y in b ensures x != y {
        var i :| 0 <= i < |a| && a[i] == x;
        var k :| 0 <= k < |b| && b[k] == y;
        assert x[|p|] in init;
        assert p + [c] <= y;
        assert y[|p|] == (p + [c])[|p|] == c;
      }
      forall i, j | 0 <= i < j < |a + b| ensures (a + b)[i] != (a + b)[j] {
        if j < |a| {
          assert (a + b)[i] == a[i] && (a + b)[j] == a[j];
        } else if i >= |a| {
          assert (a + b)[i] == b[i - |a|] && (a + b)[j] == b[j - |a|];
        } else {
          assert (a + b)[i] in a && (a + b)[j] in b;
        }
      }
    }
  }

  ghost function Elements<T>(s: seq<T>): set<T> {
    set x | x in s
  }

  lemma {:induction false} DistinctCard<T>(s: seq<T>)
    requires Distinct(s)
    ensures |Elements(s)| == |s|
    decreases |s|
  {
    if s != [] {
      var init := s[..|s| - 1];
      assert Distinct(init);
      DistinctCard(init);
      assert Elements(s) == Elements(init) + {s[|s| - 1]};
      assert s[|s| - 1] !in Elements(init) by {
        forall i | 0 <= i < |init| ensures init[i] != s[|s| - 1] {
          assert init[i] == s[i];
        }
      }
    }
  }

  /** The `tree` output of directory `p`: one line per entry at or below `p`
      (so one plus the number of its descendants), each entry exactly once,
      in pre-order, the entry `k` levels down indented by `2k` spaces after
      `indent`, a directory's name followed by "/", every line ending in a
      newline, and the first line `p`'s own name. */
  lemma TreeShape(t: Tree, p: Path, indent: string)
    requires WellFormed(t) && IsDir(t, p)
    ensures forall q :: q in Desc(t, p) <==> q in Visit(t, p)
    ensures Distinct(Visit(t, p)) && |Visit(t, p)| == |Desc(t, p)|
    ensures Visit(t, p)[0] == p
    ensures Rendered(t, p, indent) == Concat(Lines(t, p, indent, Visit(t, p)))
    ensures TreeLine(t, p, indent, p) == indent + BaseName(p) + "/\n"
  {
    RenderedIsLines(t, p, indent);
    VisitBelow(t, p);
    VisitDistinct(t, p);
    forall q | q in Desc(t, p) ensures q in Visit(t, p) {
      VisitComplete(t, p, q);
    }
    assert Elements(Visit(t, p)) == Desc(t, p);
    DistinctCard(Visit(t, p));
    assert Depth(p, p) == 0 && Indent(0) == "";
    assert indent + "" == indent;
  }

  /** Every child `ls` lists shows up one level down in the `tree` output. */
  lemma ListedChildInTree(t: Tree, p: Path, i: nat, indent: string)
    requires WellFormed(t) && IsDir(t, p) && i < |t[p].children|
    ensures var c := t[p].children[i];
            exists k :: 0 <= k < |Visit(t, p)| && Visit(t, p)[k] == p + [c]
              && Lines(t, p, indent, Visit(t, p))[k]
                 == indent + "  " + c + (if IsDir(t, p + [c]) then "/\n" else "\n")
  {
    var c := t[p].children[i];
    ChildExists(t, p, i);
    VisitComplete(t, p, p + [c]);
    var k :| 0 <= k < |Visit(t, p)| && Visit(t, p)[k] == p + [c];
    assert Depth(p, p + [c]) == 1 && Indent(1) == "  " + "" == "  ";
    assert BaseName(p + [c]) == c;
  }
}
