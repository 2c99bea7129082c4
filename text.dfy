/** The handful of Python string built-ins the shell relies on: `startswith`,
    `strip()`, `split()` (on whitespace), `split(sep)` and `sep.join(parts)`. */
module Text {

  /** `s.startswith(prefix)`. */
  predicate StartsWith(s: string, prefix: string) {
    |prefix| <= |s| && s[..|prefix|] == prefix
  }

  /** `s` starts with `prefix` exactly when it is `prefix` followed by the
      rest of `s`. */
  lemma StartsWithRest(s: string, prefix: string)
    ensures StartsWith(s, prefix) <==> |prefix| <= |s| && s == prefix + s[|prefix|..]
  {
    if |prefix| <= |s| && s == prefix + s[|prefix|..] {
      assert s[..|prefix|] == prefix;
    }
  }

  predicate EndsWith(s: string, suffix: string) {
    |suffix| <= |s| && s[|s| - |suffix|..] == suffix
  }

  /** Python's `str.isspace()` on one character. */
  predicate IsSpace(c: char) {
    c == ' ' || c == '\t' || c == '\n' || c == '\r' || c == '\U{0B}' || c == '\U{0C}'
    || ('\U{1C}' <= c <= '\U{1F}') || c == '\U{85}' || c == '\U{A0}' || c == '\U{1680}'
    || ('\U{2000}' <= c <= '\U{200A}') || c == '\U{2028}' || c == '\U{2029}'
    || c == '\U{202F}' || c == '\U{205F}' || c == '\U{3000}'
  }

  /** Every character of `s[lo..hi]` is whitespace. */
  predicate SpaceBetween(s: string, lo: int, hi: int)
    requires 0 <= lo && hi <= |s|
  {
    forall k :: lo <= k < hi ==> IsSpace(s[k])
  }

  predicate NoSpace(s: string) {
    forall k :: 0 <= k < |s| ==> !IsSpace(s[k])
  }

  /** The index of the first non-whitespace character at or after `i`. */
  function SkipSpace(s: string, i: nat): (j: nat)
    requires i <= |s|
    ensures i <= j <= |s| && SpaceBetween(s, i, j)
    ensures j == |s| || !IsSpace(s[j])
    decreases |s| - i
  {
    if i < |s| && IsSpace(s[i]) then SkipSpace(s, i + 1) else i
  }

  /** The index just past the last non-whitespace character of `s[lo..hi]`. */
  function SkipSpaceBack(s: string, lo: nat, hi: nat): (j: nat)
    requires lo <= hi <= |s|
    ensures lo <= j <= hi && SpaceBetween(s, j, hi)
    ensures j == lo || !IsSpace(s[j - 1])
    decreases hi
  {
    if lo < hi && IsSpace(s[hi - 1]) then SkipSpaceBack(s, lo, hi - 1) else hi
  }

  /** The index of the first whitespace character at or after `i`. */
  function SkipWord(s: string, i: nat): (j: nat)
    requires i <= |s|
    ensures i <= j <= |s| && forall k :: i <= k < j ==> !IsSpace(s[k])
    ensures j == |s| || IsSpace(s[j])
    decreases |s| - i
  {
    if i < |s| && !IsSpace(s[i]) then SkipWord(s, i + 1) else i
  }

  /** `s.strip()`: a slice of `s` that neither starts nor ends with whitespace,
      and only whitespace lies outside it. */
  function Strip(s: string): (r: string)
    ensures exists i :: 0 <= i <= |s| - |r| && r == s[i..i + |r|]
                        && SpaceBetween(s, 0, i) && SpaceBetween(s, i + |r|, |s|)
    ensures r == [] || (!IsSpace(r[0]) && !IsSpace(r[|r| - 1]))
    ensures (s == [] || (!IsSpace(s[0]) && !IsSpace(s[|s| - 1]))) ==> r == s
  {
    var i := SkipSpace(s, 0);
    var j := SkipSpaceBack(s, i, |s|);
    s[i..j]
  }

  /** `s.split()` with no separator: the maximal runs of non-whitespace. */
  function Words(s: string): (ws: seq<string>)
    ensures forall i :: 0 <= i < |ws| ==> ws[i] != [] && NoSpace(ws[i])
    decreases |s|
  {
    if s == [] then []
    else if IsSpace(s[0]) then Words(s[1..])
    else
      var j := SkipWord(s, 0);
      [s[..j]] + Words(s[j..])
  }

  /** `sep.join(parts)` for a one-character separator: with two or more parts
      the separator occurs. */
  function JoinOn(parts: seq<string>, sep: char): (r: string)
    ensures |parts| > 1 ==> sep in r
  {
    if |parts| == 0 then ""
    else if |parts| == 1 then parts[0]
    else
      var a := JoinOn(parts[..|parts| - 1], sep);
      var r := a + [sep] + parts[|parts| - 1];
      assert r[|a|] == sep;
      r
  }

  lemma JoinOnSnoc(parts: seq<string>, w: string, sep: char)
    requires parts != []
    ensures JoinOn(parts + [w], sep) == JoinOn(parts, sep) + [sep] + w
  {
    assert (parts + [w])[..|parts|] == parts;
  }

  /** A character that is neither the separator nor in any part is not in the
      joined string. */
  lemma {:induction false} JoinOnAvoids(parts: seq<string>, sep: char, c: char)
    requires c != sep && forall i :: 0 <= i < |parts| ==> c !in parts[i]
    ensures c !in JoinOn(parts, sep)
    decreases |parts|
  {
    if |parts| > 1 {
      JoinOnAvoids(parts[..|parts| - 1], sep, c);
    }
  }

  /** `s.replace(a, b)` for single characters. */
  function ReplaceChar(s: string, a: char, b: char): (r: string)
    ensures |r| == |s| && forall i :: 0 <= i < |s| ==> r[i] == if s[i] == a then b else s[i]
  {
    if s == [] then [] else [if s[0] == a then b else s[0]] + ReplaceChar(s[1..], a, b)
  }

  lemma ReplaceAbsent(s: string, a: char, b: char)
    requires a !in s
    ensures ReplaceChar(s, a, b) == s
  {
  }

  /** What reading a file in Python's text mode makes of its stored text
      (universal newlines): each "\r\n" and each lone "\r" becomes "\n". No
      "\r" is left, and text holding none is returned unchanged. */
  function Newlines(s: string): (r: string)
    ensures '\r' !in r
    ensures '\r' !in s ==> r == s
    ensures |r| <= |s|
  {
    if s == [] then []
    else if s[0] == '\r' then "\n" + Newlines(if |s| > 1 && s[1] == '\n' then s[2..] else s[1..])
    else [s[0]] + Newlines(s[1..])
  }

  /** Translating twice is translating once. */
  lemma NewlinesIdempotent(s: string)
    ensures Newlines(Newlines(s)) == Newlines(s)
  {
  }

  /** A "\r\n" anywhere in the text reads as one "\n", and so does a "\r" that
      no "\n" follows; the text on either side is translated on its own. */
  lemma NewlinesSplice(a: string, b: string)
    ensures Newlines(a + "\r\n" + b) == Newlines(a) + "\n" + Newlines(b)
    ensures (b == [] || b[0] != '\n') ==> Newlines(a + "\r" + b) == Newlines(a) + "\n" + Newlines(b)
  {
    NewlinesAround(a, "\r\n", b);
    if b == [] || b[0] != '\n' {
      NewlinesAround(a, "\r", b);
    }
  }

  lemma NewlinesAround(a: string, br: string, b: string)
    requires br == "\r\n" || (br == "\r" && (b == [] || b[0] != '\n'))
    ensures Newlines(a + br + b) == Newlines(a) + "\n" + Newlines(b)
  {
    assert a + br + b == a + (br + b);
    NewlinesBreak(br + b, b);
    NewlinesAfter(a, br + b, b);
  }

  /** The line break `x` on its own reads as "\n" and leaves `b`. */
  lemma NewlinesBreak(x: string, b: string)
    requires x == "\r\n" + b || (x == "\r" + b && (b == [] || b[0] != '\n'))
    ensures Newlines(x) == "\n" + Newlines(b)
  {
    if x == "\r\n" + b {
      assert x[0] == '\r' && x[1] == '\n' && x[2..] == b;
    } else {
      assert x[0] == '\r' && x[1..] == b;
    }
  }

  /** How many characters the first step of `Newlines` consumes. */
  function BreakLen(s: string): nat
    requires s != []
  {
    if s[0] == '\r' && |s| > 1 && s[1] == '\n' then 2 else 1
  }

  lemma NewlinesUnfold(s: string)
    requires s != []
    ensures BreakLen(s) <= |s|
    ensures Newlines(s) == (if s[0] == '\r' then "\n" else [s[0]]) + Newlines(s[BreakLen(s)..])
  {
  }

  /** Text `a` followed by a line break `x` that reads as "\n" and leaves `b`. */
  lemma {:induction false} NewlinesAfter(a: string, x: string, b: string)
    requires x != [] && x[0] == '\r' && Newlines(x) == "\n" + Newlines(b)
    ensures Newlines(a + x) == Newlines(a) + "\n" + Newlines(b)
    decreases |a|
  {
    if a == [] {
      assert a + x == x;
    } else {
      NewlinesUnfold(a);
      NewlinesAfter(a[BreakLen(a)..], x, b);
      NewlinesAfterStep(a, x, Newlines(b));
    }
  }

  /** One step of `NewlinesAfter`: the first break of `a` is not disturbed by `x`. */
  lemma NewlinesAfterStep(a: string, x: string, nb: string)
    requires a != [] && x != [] && x[0] == '\r'
    requires BreakLen(a) <= |a| && Newlines(a[BreakLen(a)..] + x) == Newlines(a[BreakLen(a)..]) + "\n" + nb
    ensures Newlines(a + x) == Newlines(a) + "\n" + nb
  {
    var s := a + x;
    var k := BreakLen(a);
    assert BreakLen(s) == k by {
      assert s[0] == a[0];
      if |a| > 1 { assert s[1] == a[1]; } else { assert s[1] == x[0]; }
    }
    DropAppend(a, x, k);
    NewlinesUnfold(s);
    NewlinesUnfold(a);
    Regroup(if a[0] == '\r' then "\n" else [a[0]], Newlines(a[k..]), "\n", nb);
  }

  lemma DropAppend(a: string, x: string, k: nat)
    requires k <= |a|
    ensures (a + x)[k..] == a[k..] + x
  {
  }

  lemma Regroup(h: string, p: string, q: string, r: string)
    ensures h + (p + q + r) == (h + p) + q + r
  {
  }

  /** `s.split(sep)`: always at least one (possibly empty) piece. */
  function SplitOn(s: string, sep: char): (parts: seq<string>)
    ensures |parts| >= 1
    ensures forall i :: 0 <= i < |parts| ==> sep !in parts[i]
  {
    if s == [] then [""]
    else
      var rest := SplitOn(s[1..], sep);
      if s[0] == sep then [""] + rest
      else [[s[0]] + rest[0]] + rest[1..]
  }

  /** A character absent from `s` is absent from every piece of its split. */
  lemma {:induction false} SplitAvoids(s: string, sep: char, c: char)
    ensures c !in s ==> forall i :: 0 <= i < |SplitOn(s, sep)| ==> c !in SplitOn(s, sep)[i]
    decreases |s|
  {
    if s != [] && c !in s {
      SplitAvoids(s[1..], sep, c);
      var rest := SplitOn(s[1..], sep);
      if s[0] != sep {
        assert c !in [s[0]] + rest[0];
        assert forall i :: 1 <= i < |rest| ==> (([[s[0]] + rest[0]] + rest[1..])[i] == rest[i]);
      } else {
        assert forall i :: 1 <= i < |rest| + 1 ==> (([""] + rest)[i] == rest[i - 1]);
      }
    }
  }

  /** A character of `s` other than the separator lies in some piece. */
  lemma SplitHolds(s: string, sep: char, c: char)
    requires c in s && c != sep
    ensures exists j :: 0 <= j < |SplitOn(s, sep)| && c in SplitOn(s, sep)[j]
  {
    JoinOfSplit(s, sep);
    if forall j :: 0 <= j < |SplitOn(s, sep)| ==> c !in SplitOn(s, sep)[j] {
      JoinOnAvoids(SplitOn(s, sep), sep, c);
    }
  }

  function Concat(parts: seq<string>): string {
    if parts == [] then "" else Concat(parts[..|parts| - 1]) + parts[|parts| - 1]
  }

  /** `sep.join(s.split(sep)) == s`. */
  lemma {:induction false} JoinOfSplit(s: string, sep: char)
    ensures JoinOn(SplitOn(s, sep), sep) == s
    decreases |s|
  {
    if s != [] {
      var rest := SplitOn(s[1..], sep);
      JoinOfSplit(s[1..], sep);
      if s[0] == sep {
        JoinOnCons("", rest, sep);
      } else {
        JoinOnFirst([s[0]], rest, sep);
      }
    }
  }

  lemma {:induction false} JoinOnFirst(pre: string, parts: seq<string>, sep: char)
    requires parts != []
    ensures JoinOn([pre + parts[0]] + parts[1..], sep) == pre + JoinOn(parts, sep)
    decreases |parts|
  {
    var n := |parts|;
    if n == 1 {
      assert [pre + parts[0]] + parts[1..] == [pre + parts[0]];
    } else {
      var q := [pre + parts[0]] + parts[1..];
      assert q[..n - 1] == [pre + parts[0]] + parts[..n - 1][1..];
      JoinOnFirst(pre, parts[..n - 1], sep);
      assert parts[..n - 1][0] == parts[0];
    }
  }

  lemma {:induction false} JoinOnCons(w: string, ws: seq<string>, sep: char)
    requires ws != []
    ensures JoinOn([w] + ws, sep) == w + [sep] + JoinOn(ws, sep)
    decreases |ws|
  {
    var n := |ws|;
    if n == 1 {
      assert ([w] + ws)[..1] == [w];
    } else {
      assert ([w] + ws)[..n] == [w] + ws[..n - 1];
      JoinOnCons(w, ws[..n - 1], sep);
    }
  }

  /** `s.split(sep)` undoes `sep.join(parts)` when no part holds the separator. */
  lemma {:induction false} SplitOfJoin(parts: seq<string>, sep: char)
    requires |parts| >= 1
    requires forall i :: 0 <= i < |parts| ==> sep !in parts[i]
    ensures SplitOn(JoinOn(parts, sep), sep) == parts
    decreases |parts|
  {
    var w, ws := parts[0], parts[1..];
    assert parts == [w] + ws;
    if ws == [] {
      SplitOfWord(w, [], sep);
      assert w + [] == w;
    } else {
      JoinOnCons(w, ws, sep);
      assert forall i :: 0 <= i < |ws| ==> ws[i] == parts[i + 1];
      SplitOfJoin(ws, sep);
      SplitAfterWord(w, JoinOn(ws, sep), sep);
    }
  }

  lemma {:induction false} SplitOfWord(w: string, tail: string, sep: char)
    requires sep !in w
    requires tail == [] || tail[0] == sep
    ensures SplitOn(w + tail, sep) == [w + SplitOn(tail, sep)[0]] + SplitOn(tail, sep)[1..]
    decreases |w|
  {
    if w == [] {
      assert w + tail == tail;
      var p := SplitOn(tail, sep);
      assert [p[0]] + p[1..] == p;
    } else {
      assert (w + tail)[1..] == w[1..] + tail;
      SplitOfWord(w[1..], tail, sep);
      assert [w[0]] + (w[1..] + SplitOn(tail, sep)[0]) == w + SplitOn(tail, sep)[0];
    }
  }

  /** Splitting a word, the separator and more text splits off the word. */
  lemma SplitAfterWord(w: string, s: string, sep: char)
    requires sep !in w
    ensures SplitOn(w + [sep] + s, sep) == [w] + SplitOn(s, sep)
  {
    SplitOfWord(w, [sep] + s, sep);
    assert w + [sep] + s == w + ([sep] + s);
    assert ([sep] + s)[1..] == s;
    assert w + "" == w;
  }

  lemma StartsWithAppend(a: string, b: string, x: string)
    requires StartsWith(a, x)
    ensures StartsWith(a + b, x)
  {
    assert (a + b)[..|x|] == a[..|x|];
  }

  /** `split()` of whitespace alone is empty. */
  lemma {:induction false} WordsOfSpace(s: string)
    requires SpaceBetween(s, 0, |s|)
    ensures Words(s) == []
    decreases |s|
  {
    if s != [] {
      assert SpaceBetween(s[1..], 0, |s| - 1) by {
        forall k | 0 <= k < |s| - 1 ensures IsSpace(s[1..][k]) {
          assert s[1..][k] == s[k + 1];
        }
      }
      WordsOfSpace(s[1..]);
    }
  }

  /** `split()` skips leading whitespace and then takes a whole word: for
      blanks `sp`, a non-empty word `w` and a rest that is empty or starts
      with whitespace, `(sp + w + rest).split() == [w] + rest.split()`.
      With `WordsOfSpace`, this pins `split()` down on every input. */
  lemma {:induction false} WordsCons(sp: string, w: string, rest: string)
    requires SpaceBetween(sp, 0, |sp|) && w != [] && NoSpace(w)
    requires rest == [] || IsSpace(rest[0])
    ensures Words(sp + w + rest) == [w] + Words(rest)
    decreases |sp|
  {
    var s := sp + w + rest;
    if sp == [] {
      assert s == w + rest;
      SkipWordAt(s, 0, |w|);
      assert s[0] == w[0] && !IsSpace(s[0]);
      assert s[..|w|] == w && s[|w|..] == rest;
    } else {
      assert s[0] == sp[0] && IsSpace(s[0]);
      assert s[1..] == sp[1..] + w + rest;
      assert SpaceBetween(sp[1..], 0, |sp| - 1) by {
        forall k | 0 <= k < |sp| - 1 ensures IsSpace(sp[1..][k]) {
          assert sp[1..][k] == sp[k + 1];
        }
      }
      WordsCons(sp[1..], w, rest);
    }
  }

  lemma {:induction false} SkipWordAt(s: string, i: nat, j: nat)
    requires i <= j <= |s|
    requires forall k :: i <= k < j ==> !IsSpace(s[k])
    requires j == |s| || IsSpace(s[j])
    ensures SkipWord(s, i) == j
    decreases j - i
  {
    if i < j { SkipWordAt(s, i + 1, j); }
  }

  /** `" ".join(ws).split() == ws` for non-empty words without whitespace. */
  lemma {:induction false} WordsOfJoin(ws: seq<string>)
    requires forall i :: 0 <= i < |ws| ==> ws[i] != [] && NoSpace(ws[i])
    ensures Words(JoinOn(ws, ' ')) == ws
    decreases |ws|
  {
    if ws != [] {
      var w, rest := ws[0], ws[1..];
      assert ws == [w] + rest;
      var tail := if rest == [] then "" else [' '] + JoinOn(rest, ' ');
      var s := w + tail;
      if rest == [] {
        assert JoinOn(ws, ' ') == w;
        assert s == w + "" == w;
      } else {
        JoinOnCons(w, rest, ' ');
        assert JoinOn(ws, ' ') == s;
      }
      SkipWordAt(s, 0, |w|);
      assert s[0] == w[0] && !IsSpace(s[0]);
      assert s[..|w|] == w;
      assert s[|w|..] == tail;
      WordsOfJoin(rest);
      if rest != [] {
        assert tail[1..] == JoinOn(rest, ' ');
        assert Words(tail) == rest;
      }
      assert Words(s) == [w] + Words(tail);
    }
  }

  /** `(" " + p).strip() == p` for a `p` that is already stripped. */
  lemma StripAfterSpace(p: string)
    requires p == [] || (!IsSpace(p[0]) && !IsSpace(p[|p| - 1]))
    ensures Strip([' '] + p) == p
  {
    var s := [' '] + p;
    assert SkipSpace(s, 1) == 1;
    assert SkipSpace(s, 0) == 1;
    assert SkipSpaceBack(s, 1, |s|) == |s|;
    assert s[1..] == p;
  }
}
