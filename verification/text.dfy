/** The handful of Python `str` operations the ugit core relies on:
    `splitlines`, `split(sep, 1)`, `split(sep)`, `sep.join`, and the
    code-point ordering that `sorted` uses on strings. */
module Text {

  import opened Wrappers

  // ---------------------------------------------------------------------
  // Line boundaries (str.splitlines)
  // ---------------------------------------------------------------------

  /** The characters Python's `str.splitlines` treats as line boundaries. */
  predicate IsLineBreak(c: char) {
    || c == '\n' || c == '\r' || c == '\U{B}' || c == '\U{C}'
    || c == '\U{1C}' || c == '\U{1D}' || c == '\U{1E}'
    || c == '\U{85}' || c == '\U{2028}' || c == '\U{2029}'
  }

  predicate NoLineBreak(s: string) {
    forall i :: 0 <= i < |s| ==> !IsLineBreak(s[i])
  }

  /** Index of the first line boundary of `s` at or after `from`, or `|s|`
      when there is none. */
  function FirstBreakFrom(s: string, from: nat): (i: nat)
    requires from <= |s|
    ensures from <= i <= |s|
    ensures forall m :: from <= m < i ==> !IsLineBreak(s[m])
    ensures i < |s| ==> IsLineBreak(s[i])
    decreases |s| - from
  {
    if from == |s| then from
    else if IsLineBreak(s[from]) then from
    else FirstBreakFrom(s, from + 1)
  }

  /** Index of the first line boundary of `s`, or `|s|` when there is none. */
  function FirstBreak(s: string): (i: nat)
    ensures i <= |s|
    ensures NoLineBreak(s[..i])
    ensures i < |s| ==> IsLineBreak(s[i])
  {
    FirstBreakFrom(s, 0)
  }

  /** Python's `s.splitlines()`: the lines of `s` without their terminators;
      "\r\n" counts as one terminator and a final terminator does not open an
      empty last line. */
  function SplitLines(s: string): (lines: seq<string>)
    ensures forall k :: 0 <= k < |lines| ==> NoLineBreak(lines[k])
    ensures s != [] <==> lines != []
    decreases |s|
  {
    if s == [] then []
    else
      var i := FirstBreak(s);
      if i == |s| then [s]
      else
        var next := if s[i] == '\r' && i + 1 < |s| && s[i + 1] == '\n' then i + 2 else i + 1;
        [s[..i]] + SplitLines(s[next..])
  }

  /** Each line followed by "\n", concatenated: how ugit writes records. */
  function Unlines(lines: seq<string>): string
  {
    if lines == [] then "" else lines[0] + "\n" + Unlines(lines[1..])
  }

  lemma UnlinesCons(l: string, rest: seq<string>)
    ensures Unlines([l] + rest) == l + "\n" + Unlines(rest)
  {
    assert ([l] + rest)[1..] == rest;
  }

  /** A line free of boundaries followed by "\n" is split off whole. */
  lemma SplitLinesStep(l: string, tail: string)
    requires NoLineBreak(l)
    ensures SplitLines(l + "\n" + tail) == [l] + SplitLines(tail)
  {
    var s := l + "\n" + tail;
    FirstBreakAfterLine(l, tail);
    assert s[|l|] == '\n';
    assert s[..|l|] == l;
    assert s[|l| + 1..] == tail;
  }

  /** A line free of boundaries followed by a lone "\r" (one not starting
      "\r\n") is split off whole, just as before "\n". */
  lemma SplitLinesStepCR(l: string, tail: string)
    requires NoLineBreak(l)
    requires tail == [] || tail[0] != '\n'
    ensures SplitLines(l + "\r" + tail) == [l] + SplitLines(tail)
  {
    var s := l + "\r" + tail;
    assert s[|l|] == '\r';
    assert forall m | 0 <= m < |l| :: s[m] == l[m];
    assert FirstBreak(s) == |l|;
    assert s[..|l|] == l;
    assert s[|l| + 1..] == tail;
  }

  /** Splitting undoes `Unlines` on a prefix, whatever follows it. */
  lemma {:induction false} SplitLinesAppend(lines: seq<string>, rest: string)
    requires forall k :: 0 <= k < |lines| ==> NoLineBreak(lines[k])
    ensures SplitLines(Unlines(lines) + rest) == lines + SplitLines(rest)
  {
    if lines == [] {
      assert Unlines(lines) + rest == rest;
    } else {
      var l := lines[0];
      var tail := Unlines(lines[1..]) + rest;
      calc {
        SplitLines(Unlines(lines) + rest);
        { assert Unlines(lines) + rest == l + "\n" + tail; }
        SplitLines(l + "\n" + tail);
        { SplitLinesStep(l, tail); }
        [l] + SplitLines(tail);
        { SplitLinesAppend(lines[1..], rest); }
        [l] + (lines[1..] + SplitLines(rest));
        { assert lines == [l] + lines[1..]; }
        lines + SplitLines(rest);
      }
    }
  }

  lemma FirstBreakAfterLine(l: string, tail: string)
    requires NoLineBreak(l)
    ensures FirstBreak(l + "\n" + tail) == |l|
  {
    var s := l + "\n" + tail;
    assert s[|l|] == '\n';
    assert forall m | 0 <= m < |l| :: s[m] == l[m];
  }

  /** Splitting undoes `Unlines`: the lines written are the lines read. */
  lemma SplitLinesUnlines(lines: seq<string>)
    requires forall k :: 0 <= k < |lines| ==> NoLineBreak(lines[k])
    ensures SplitLines(Unlines(lines)) == lines
  {
    SplitLinesAppend(lines, "");
    assert Unlines(lines) + "" == Unlines(lines);
  }

  /** Python's `sep.join(parts)`. */
  function Join(sep: string, parts: seq<string>): string
  {
    if parts == [] then ""
    else if |parts| == 1 then parts[0]
    else parts[0] + sep + Join(sep, parts[1..])
  }

  /** A text whose only line boundaries are "\n" is recovered by joining the
      lines of that text followed by one more "\n". */
  lemma {:induction false} JoinSplitLines(m: string)
    requires forall k :: 0 <= k < |m| ==> IsLineBreak(m[k]) ==> m[k] == '\n'
    ensures Join("\n", SplitLines(m + "\n")) == m
    decreases |m|
  {
    var i := FirstBreak(m);
    if i == |m| {
      assert m[..i] == m;
      SplitLinesStep(m, "");
      assert m + "\n" == m + "\n" + "";
    } else {
      var l := m[..i];
      var m' := m[i + 1..];
      assert m[i] == '\n';
      assert m == l + "\n" + m';
      assert m + "\n" == l + "\n" + (m' + "\n");
      SplitLinesStep(l, m' + "\n");
      JoinSplitLines(m');
      var rest := SplitLines(m' + "\n");
      assert rest != [];
      assert ([l] + rest)[1..] == rest;
    }
  }

  // ---------------------------------------------------------------------
  // Separators (str.split)
  // ---------------------------------------------------------------------

  /** Index of the first `c` in `s` at or after `from`, or `|s|` when there
      is none. */
  function FindFrom(s: string, c: char, from: nat): (i: nat)
    requires from <= |s|
    ensures from <= i <= |s|
    ensures forall m :: from <= m < i ==> s[m] != c
    ensures i < |s| ==> s[i] == c
    decreases |s| - from
  {
    if from == |s| then from
    else if s[from] == c then from
    else FindFrom(s, c, from + 1)
  }

  /** Index of the first `c` in `s`, or `|s|` when `c` does not occur. */
  function Find(s: string, c: char): (i: nat)
    ensures i <= |s|
    ensures forall m :: 0 <= m < i ==> s[m] != c
    ensures i < |s| ==> s[i] == c
  {
    FindFrom(s, c, 0)
  }

  /** `a, b = s.split(c, 1)`: the text before and after the first `c`;
      `None` when unpacking would fail because `c` does not occur. */
  function SplitOnce(s: string, c: char): (r: Option<(string, string)>)
    ensures r.None? <==> c !in s
    ensures r.Some? ==> s == r.value.0 + [c] + r.value.1 && c !in r.value.0
  {
    var i := Find(s, c);
    if i == |s| then
      assert s[..i] == s;
      None
    else
      assert s == s[..i] + [c] + s[i + 1..];
      Some((s[..i], s[i + 1..]))
  }

  lemma FindAfterPrefix(p: string, c: char, q: string)
    requires c !in p
    ensures Find(p + [c] + q, c) == |p|
  {
    var s := p + [c] + q;
    assert s[|p|] == c;
    assert forall m | 0 <= m < |p| :: s[m] == p[m];
  }

  /** Splitting at the first `c` recovers the parts a writer joined with it,
      whatever the second part holds. */
  lemma SplitOnceJoin(p: string, c: char, q: string)
    requires c !in p
    ensures SplitOnce(p + [c] + q, c) == Some((p, q))
  {
    var s := p + [c] + q;
    FindAfterPrefix(p, c, q);
    assert s[..|p|] == p;
    assert s[|p| + 1..] == q;
  }

  /** Python's `s.split(c)`: the maximal pieces between occurrences of `c`;
      there is always at least one piece. */
  function Split(s: string, c: char): (parts: seq<string>)
    ensures parts != []
    ensures forall k :: 0 <= k < |parts| ==> c !in parts[k]
    decreases |s|
  {
    var i := Find(s, c);
    if i == |s| then
      assert s[..i] == s;
      [s]
    else [s[..i]] + Split(s[i + 1..], c)
  }

  /** `s[i..j]` is a whole `c`-separated piece of `s`. */
  ghost predicate PieceAt(s: string, c: char, i: int, j: int) {
    && 0 <= i <= j <= |s|
    && (i == 0 || s[i - 1] == c)
    && (j == |s| || s[j] == c)
  }

  /** `x` occurs in `s` as a whole `c`-separated piece. */
  ghost predicate HasPiece(s: string, c: char, x: string) {
    exists i, j :: PieceAt(s, c, i, j) && s[i..j] == x
  }

  /** `Split` returns exactly the whole pieces of `s`: a separator-free `x`
      is among them when it sits in `s` between separators or string ends. */
  lemma SplitPieces(s: string, c: char, x: string)
    requires c !in x
    ensures x in Split(s, c) <==> HasPiece(s, c, x)
  {
    if x in Split(s, c) {
      SplitPiecesSound(s, c, x);
    }
    if HasPiece(s, c, x) {
      var i, j :| PieceAt(s, c, i, j) && s[i..j] == x;
      SplitPiecesComplete(s, c, i, j);
    }
  }

  lemma {:induction false} SplitPiecesSound(s: string, c: char, x: string)
    requires x in Split(s, c)
    ensures HasPiece(s, c, x)
    decreases |s|
  {
    var k := Find(s, c);
    if k == |s| {
      assert s[..k] == s;
      assert PieceAt(s, c, 0, |s|) && s[0..|s|] == x;
    } else if x == s[..k] {
      assert PieceAt(s, c, 0, k) && s[0..k] == x;
    } else {
      var s' := s[k + 1..];
      assert Split(s, c) == [s[..k]] + Split(s', c);
      assert x in Split(s', c);
      SplitPiecesSound(s', c, x);
      var i, j :| PieceAt(s', c, i, j) && s'[i..j] == x;
      PieceAfterSeparator(s, c, k, i, j);
    }
  }

  lemma {:induction false} SplitPiecesComplete(s: string, c: char, i: int, j: int)
    requires PieceAt(s, c, i, j) && c !in s[i..j]
    ensures s[i..j] in Split(s, c)
    decreases |s|
  {
    var k := Find(s, c);
    if i == 0 {
      FirstPieceInSplit(s, c, j);
    } else {
      assert s[i - 1] == c;
      assert i - 1 >= k;
      var s' := s[k + 1..];
      var i', j' := i - k - 1, j - k - 1;
      assert i' == 0 || s'[i' - 1] == s[i - 1];
      assert j' == |s'| || s'[j'] == s[j];
      assert PieceAt(s', c, i', j');
      var x := s[i..j];
      SliceOfSuffix(s, k + 1, i', j');
      assert s'[i'..j'] == x;
      SplitPiecesComplete(s', c, i', j');
      assert x in Split(s', c);
      var parts := Split(s, c);
      assert parts == [s[..k]] + Split(s', c);
      assert x in parts;
    }
  }

  lemma FirstPieceInSplit(s: string, c: char, j: int)
    requires PieceAt(s, c, 0, j) && c !in s[..j]
    ensures s[0..j] in Split(s, c)
  {
    var k := Find(s, c);
    assert forall m :: 0 <= m < j ==> s[m] == s[..j][m];
    assert k == j;
    if k == |s| {
      assert s[..k] == s;
      assert Split(s, c) == [s];
    } else {
      assert Split(s, c) == [s[..k]] + Split(s[k + 1..], c);
    }
  }

  /** A piece of the text after a separator is a piece of the whole text. */
  lemma PieceAfterSeparator(s: string, c: char, k: nat, i: int, j: int)
    requires k < |s| && s[k] == c && PieceAt(s[k + 1..], c, i, j)
    ensures PieceAt(s, c, k + 1 + i, k + 1 + j)
    ensures s[k + 1 + i..k + 1 + j] == s[k + 1..][i..j]
  {
    var s' := s[k + 1..];
    assert i == 0 || s[k + 1 + i - 1] == s'[i - 1];
    assert j == |s'| || s[k + 1 + j] == s'[j];
    SliceOfSuffix(s, k + 1, i, j);
  }

  lemma SliceOfSuffix(s: string, k: nat, a: nat, b: nat)
    requires k + b <= |s| && a <= b
    ensures s[k..][a..b] == s[k + a..k + b]
  {
  }

  // ---------------------------------------------------------------------
  // Ordering (Python compares strings by code point, lexicographically)
  // ---------------------------------------------------------------------

  predicate StrLess(a: string, b: string)
  {
    if a == [] then b != []
    else if b == [] then false
    else a[0] < b[0] || (a[0] == b[0] && StrLess(a[1..], b[1..]))
  }

  lemma {:induction false} StrLessIrreflexive(a: string)
    ensures !StrLess(a, a)
  {
    if a != [] {
      StrLessIrreflexive(a[1..]);
    }
  }

  lemma {:induction false} StrLessTransitive(a: string, b: string, c: string)
    requires StrLess(a, b) && StrLess(b, c)
    ensures StrLess(a, c)
  {
    if a != [] && b != [] && c != [] && a[0] == b[0] == c[0] {
      StrLessTransitive(a[1..], b[1..], c[1..]);
    }
  }

  lemma {:induction false} StrLessTotal(a: string, b: string)
    requires a != b
    ensures StrLess(a, b) || StrLess(b, a)
  {
    if a != [] && b != [] && a[0] == b[0] {
      assert a == [a[0]] + a[1..] && b == [b[0]] + b[1..];
      StrLessTotal(a[1..], b[1..]);
    }
  }
}
