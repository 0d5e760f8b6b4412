/**
 Wrapping of help text (src/argparse.c): lines are taken from the front of the text, cut at a line feed, at
 the last space that lets the line fit, or, failing that, at the full width.
 */
module TextWrap {

  import opened Basics

  predicate Blank(c: char) {
    c == ' ' || c == '\n'
  }

  /** Reading a C string at an index up to its terminator. */
  function At(s: string, i: nat): char
    requires i <= |s|
  {
    if i < |s| then s[i] else NUL
  }

  // ---------------------------------------------------------------- one line

  /** The length of what stands before the first line feed. */
  function Token(s: string): (t: nat)
    ensures t <= |s| && '\n' !in s[..t] && (t < |s| ==> s[t] == '\n')
  {
    if s == [] || s[0] == '\n' then 0
    else
      assert s[..1 + Token(s[1..])] == [s[0]] + s[1..][..Token(s[1..])];
      1 + Token(s[1..])
  }

  /** The last space among the indices 1 to `i`, or 0. */
  function Back(s: string, i: nat): (b: nat)
    requires i <= |s|
    ensures b <= i && (b > 0 ==> At(s, b) == ' ') && forall j :: b < j <= i ==> At(s, j) != ' '
  {
    if i == 0 || At(s, i) == ' ' then i else Back(s, i - 1)
  }

  function Cut(s: string, w: nat): (c: nat)
    requires w > 0
    ensures c <= |s| && c <= w && (s != [] ==> c > 0 || s[0] == '\n')
  {
    var t := Token(s);
    if t < w then t else if Back(s, w) == 0 then w else Back(s, w)
  }

  function Spaces(s: string): (n: nat)
    ensures n <= |s| && (n < |s| ==> s[n] != ' ') && forall i :: 0 <= i < n ==> s[i] == ' '
  {
    if s == [] || s[0] != ' ' then 0 else 1 + Spaces(s[1..])
  }

  /** Where the next line starts: one line feed is skipped, then all spaces. */
  function Next(s: string, w: nat): (n: nat)
    requires w > 0
    ensures Cut(s, w) <= n <= |s| && (s != [] ==> n > 0)
    ensures forall i :: Cut(s, w) <= i < n ==> Blank(s[i])
    ensures n < |s| ==> s[n] != ' '
  {
    var c := Cut(s, w);
    var f := if At(s, c) == '\n' then c + 1 else c;
    f + Spaces(s[f..])
  }

  /** The lines of a text; there is always one. */
  function Wrap(s: string, w: nat): seq<string>
    requires w > 0
    decreases |s|
  {
    var n := Next(s, w);
    [s[..Cut(s, w)]] + if n == |s| then [] else Wrap(s[n..], w)
  }

  // ---------------------------------------------------------------- what wrapping keeps

  lemma {:induction false} LinesFit(s: string, w: nat)
    requires w > 0
    ensures Wrap(s, w) != []
    ensures forall l :: l in Wrap(s, w) ==> |l| <= w && '\n' !in l
    decreases |s|
  {
    var c, n := Cut(s, w), Next(s, w);
    assert s[..c] == s[..Token(s)][..c];
    if n < |s| {
      LinesFit(s[n..], w);
    }
  }

  /** The characters other than spaces and line feeds. */
  function Ink(s: string): string {
    if s == [] then [] else (if Blank(s[0]) then [] else [s[0]]) + Ink(s[1..])
  }

  function InkOf(lines: seq<string>): string {
    if lines == [] then [] else Ink(lines[0]) + InkOf(lines[1..])
  }

  lemma {:induction false} InkConcat(a: string, b: string)
    ensures Ink(a + b) == Ink(a) + Ink(b)
  {
    if a == [] {
      assert a + b == b;
    } else {
      assert (a + b)[1..] == a[1..] + b;
      InkConcat(a[1..], b);
    }
  }

  lemma {:induction false} NoInk(s: string)
    requires forall i :: 0 <= i < |s| ==> Blank(s[i])
    ensures Ink(s) == []
  {
    if s != [] {
      NoInk(s[1..]);
    }
  }

  /** A line, the blanks skipped after it, and the rest. */
  lemma Pieces(s: string, w: nat)
    requires w > 0
    ensures s == s[..Cut(s, w)] + (s[Cut(s, w)..Next(s, w)] + s[Next(s, w)..])
    ensures forall i :: 0 <= i < Next(s, w) - Cut(s, w) ==> Blank(s[Cut(s, w)..Next(s, w)][i])
  {
    hide Cut, Next;
    var c, n := Cut(s, w), Next(s, w);
    assert forall i :: 0 <= i < n - c ==> s[c..n][i] == s[c + i];
  }

  lemma LineOfInk(s: string, w: nat)
    requires w > 0
    ensures Ink(s) == Ink(s[..Cut(s, w)]) + Ink(s[Next(s, w)..])
  {
    hide Cut, Next;
    var c, n := Cut(s, w), Next(s, w);
    Pieces(s, w);
    InkConcat(s[..c], s[c..n] + s[n..]);
    InkConcat(s[c..n], s[n..]);
    NoInk(s[c..n]);
  }

  /** Every other character of the text is printed, in order and exactly once. */
  lemma {:induction false} InkConserved(s: string, w: nat)
    requires w > 0
    ensures InkOf(Wrap(s, w)) == Ink(s)
    decreases |s|
  {
    hide Cut, Next;
    var c, n := Cut(s, w), Next(s, w);
    LineOfInk(s, w);
    if n < |s| {
      InkConserved(s[n..], w);
      assert Wrap(s, w)[1..] == Wrap(s[n..], w);
    } else {
      assert s[n..] == [] && Wrap(s, w) == [s[..c]];
      assert InkOf([s[..c]][1..]) == [];
    }
  }

  // ---------------------------------------------------------------- words

  function WordLen(s: string): (n: nat)
    ensures n <= |s| && (n < |s| ==> Blank(s[n])) && forall i :: 0 <= i < n ==> !Blank(s[i])
  {
    if s == [] || Blank(s[0]) then 0 else 1 + WordLen(s[1..])
  }

  function Words(s: string): seq<string> {
    if s == [] then []
    else if Blank(s[0]) then Words(s[1..])
    else [s[..WordLen(s)]] + Words(s[WordLen(s)..])
  }

  function WordsOf(lines: seq<string>): seq<string> {
    if lines == [] then [] else Words(lines[0]) + WordsOf(lines[1..])
  }

  /** No word is torn by the cut between `a` and `b`. */
  ghost predicate CleanCut(a: string, b: string) {
    a == [] || b == [] || Blank(a[|a| - 1]) || Blank(b[0])
  }

  lemma {:induction false} WordsConcat(a: string, b: string)
    requires CleanCut(a, b)
    ensures Words(a + b) == Words(a) + Words(b)
    decreases |a|
  {
    if a == [] {
      assert a + b == b;
    } else if Blank(a[0]) {
      assert (a + b)[1..] == a[1..] + b;
      WordsConcat(a[1..], b);
    } else {
      var n := WordLen(a);
      WordLenConcat(a, b);
      assert (a + b)[..n] == a[..n] && (a + b)[n..] == a[n..] + b;
      WordsConcat(a[n..], b);
    }
  }

  lemma WordLenConcat(a: string, b: string)
    requires CleanCut(a, b) && a != []
    ensures WordLen(a + b) == WordLen(a)
  {
    var n, m := WordLen(a), WordLen(a + b);
    assert n < |a| ==> (a + b)[n] == a[n];
    assert n == |a| && b != [] ==> (a + b)[n] == b[0];
    assert forall i :: 0 <= i < n ==> (a + b)[i] == a[i];
  }

  lemma {:induction false} NoWords(s: string)
    requires forall i :: 0 <= i < |s| ==> Blank(s[i])
    ensures Words(s) == []
  {
    if s != [] {
      NoWords(s[1..]);
    }
  }

  ghost predicate AllFit(words: seq<string>, w: nat) {
    forall x :: x in words ==> |x| <= w
  }

  /** The family of texts whose first word is torn although it fits: one leading space, then a word of the full width. */
  predicate Torn(s: string, w: nat) {
    w > 1 && s != [] && s[0] == ' ' && WordLen(s[1..]) == w
  }

  lemma {:induction false} WordsNoLonger(s: string)
    ensures AllFit(Words(s), |s|)
    decreases |s|
  {
    if s != [] {
      if Blank(s[0]) {
        WordsNoLonger(s[1..]);
      } else {
        WordsNoLonger(s[WordLen(s)..]);
      }
    }
  }

  /** No printed word is longer than the width. */
  lemma {:induction false} PrintedWordsFit(lines: seq<string>, w: nat)
    requires forall l :: l in lines ==> |l| <= w
    ensures AllFit(WordsOf(lines), w)
  {
    if lines != [] {
      WordsNoLonger(lines[0]);
      PrintedWordsFit(lines[1..], w);
    }
  }

  /** The first word of a text that starts with one. */
  lemma FirstWord(s: string)
    requires s != [] && !Blank(s[0])
    ensures Words(s) != [] && Words(s)[0] == s[..WordLen(s)]
  {
  }

  /** A cut through a word: the text is of the torn family, or a word is too long. */
  lemma ThroughAWord(s: string, w: nat)
    requires w > 0 && !CleanCut(s[..Cut(s, w)], s[Cut(s, w)..])
    ensures Torn(s, w) || !AllFit(Words(s), w)
  {
    UncleanCut(s, w);
    forall i | 0 < i <= w ensures !Blank(s[i]) {
      assert At(s, i) == s[i] == s[..Token(s)][i];
    }
    if Blank(s[0]) {
      assert s[0] == s[..Token(s)][0];
      var r := s[1..];
      FirstWord(r);
      LongWord(r, w);
      assert Words(s) == Words(r);
      assert Words(r)[0] in Words(r);
    } else {
      FirstWord(s);
      LongWord(s, w + 1);
      assert Words(s)[0] in Words(s);
    }
  }

  lemma UncleanCut(s: string, w: nat)
    requires w > 0 && !CleanCut(s[..Cut(s, w)], s[Cut(s, w)..])
    ensures Cut(s, w) == w < Token(s) && Back(s, w) == 0 && (Blank(s[0]) ==> w > 1)
  {
    var c := Cut(s, w);
    assert s[c..][0] == s[c] && s[..c][c - 1] == s[c - 1];
  }

  lemma LongWord(s: string, k: nat)
    requires k <= |s| && forall i :: 0 <= i < k ==> !Blank(s[i])
    ensures WordLen(s) >= k
  {
  }

  lemma LineOfWords(s: string, w: nat)
    requires w > 0 && CleanCut(s[..Cut(s, w)], s[Cut(s, w)..])
    ensures Words(s) == Words(s[..Cut(s, w)]) + Words(s[Next(s, w)..])
  {
    hide Cut, Next, Words;
    var c, n := Cut(s, w), Next(s, w);
    Pieces(s, w);
    assert s[c..] == s[c..n] + s[n..];
    WordsConcat(s[..c], s[c..]);
    assert CleanCut(s[c..n], s[n..]);
    WordsConcat(s[c..n], s[n..]);
    NoWords(s[c..n]);
  }

  lemma {:induction false} WordsKept(s: string, w: nat)
    requires w > 0 && !Torn(s, w) && AllFit(Words(s), w)
    ensures WordsOf(Wrap(s, w)) == Words(s)
    decreases |s|
  {
    var c, n := Cut(s, w), Next(s, w);
    if !CleanCut(s[..c], s[c..]) {
      ThroughAWord(s, w);
    }
    LineOfWords(s, w);
    if n < |s| {
      WordsKept(s[n..], w);
      assert Wrap(s, w)[1..] == Wrap(s[n..], w);
    } else {
      assert s[n..] == [] && Wrap(s, w) == [s[..c]];
      assert WordsOf([s[..c]][1..]) == [];
    }
  }

  lemma TornLosesAWord(s: string, w: nat)
    requires Torn(s, w)
    ensures WordsOf(Wrap(s, w)) != Words(s)
  {
    var r := s[1..];
    FirstWord(r);
    assert |Words(s)[0]| == w;
    TornCut(s, w);
    var line := s[..w];
    assert Wrap(s, w)[0] == line;
    assert line[1..] == r[..w - 1];
    FirstWord(line[1..]);
    assert |Words(line)[0]| <= w - 1;
    assert WordsOf(Wrap(s, w))[0] == Words(line)[0];
  }

  lemma TornCut(s: string, w: nat)
    requires Torn(s, w)
    ensures w < |s| && Cut(s, w) == w
  {
    var r, t, b := s[1..], Token(s), Back(s, w);
    assert forall i :: 0 < i <= w ==> s[i] == r[i - 1] && !Blank(s[i]) && At(s, i) == s[i];
    assert t >= w;
    assert b == 0;
  }

  /**
   Words stay whole exactly for the texts without a word longer than the width, save those that begin with
   one space and a word of the full width, which is cut before its last letter.
   */
  lemma WordsKeptExactly(s: string, w: nat)
    requires w > 0
    ensures WordsOf(Wrap(s, w)) == Words(s) <==> AllFit(Words(s), w) && !Torn(s, w)
  {
    if AllFit(Words(s), w) && !Torn(s, w) {
      WordsKept(s, w);
    } else if Torn(s, w) {
      TornLosesAWord(s, w);
    } else {
      LinesFit(s, w);
      PrintedWordsFit(Wrap(s, w), w);
    }
  }

  // ---------------------------------------------------------------- where lines end

  /** The paragraph of the text ends at this position. */
  predicate EndsAt(s: string, k: nat) {
    k >= |s| || s[k] == '\n'
  }

  /** What stands between two lines: at most one line feed, first, and spaces. */
  predicate GapOk(g: string) {
    forall j :: 0 <= j < |g| ==> g[j] == ' ' || (j == 0 && g[j] == '\n')
  }

  /**
   The first line is filled: if the text goes on in the same paragraph, then the line, one space and the next word reach
   the width, and exceed it unless that word ends the paragraph; a line that is not followed by a blank is full.
   */
  lemma FirstLineFilled(s: string, w: nat)
    requires w > 0 && Next(s, w) < |s|
    ensures s[Cut(s, w)] != '\n' ==>
              var c, k := Cut(s, w), WordLen(s[Next(s, w)..]);
              c + 1 + k >= w && (c + 1 + k == w ==> EndsAt(s, Next(s, w) + k))
    ensures Cut(s, w) == Next(s, w) ==> Cut(s, w) == w
  {
    var t, c, n := Token(s), Cut(s, w), Next(s, w);
    if t >= w && c < w {
      assert forall j :: c < j <= w ==> At(s, j) != ' ';
      assert c > 0 && At(s, c) == ' ' && s[c] == ' ';
      assert n == c + 1 by { OneSpace(s, w); }
      var r := s[n..];
      forall i | 0 <= i < w - n ensures !Blank(r[i]) {
        assert r[i] == s[n + i] == s[..t][n + i] == At(s, n + i);
      }
      LongWord(r, w - n);
      if WordLen(r) == w - n && w < |s| {
        assert r[w - n] == s[w] == At(s, w);
      }
    }
  }

  lemma OneSpace(s: string, w: nat)
    requires w > 0 && Next(s, w) < |s| && 0 < Cut(s, w) < w && s[Cut(s, w)] == ' '
    requires forall j :: Cut(s, w) < j <= w ==> j <= |s| && At(s, j) != ' '
    ensures Next(s, w) == Cut(s, w) + 1
  {
    var c := Cut(s, w);
    var r := s[c..];
    assert r[0] == ' ';
    assert c + 1 < |s| ==> r[1] == s[c + 1] == At(s, c + 1);
  }

  lemma FirstGap(s: string, w: nat)
    requires w > 0
    ensures GapOk(s[Cut(s, w)..Next(s, w)])
  {
    var c, n := Cut(s, w), Next(s, w);
    var f := if At(s, c) == '\n' then c + 1 else c;
    var r := s[f..];
    forall j | 0 <= j < n - c ensures s[c..n][j] == ' ' || (j == 0 && s[c..n][j] == '\n') {
      assert s[c..n][j] == s[c + j];
      if c + j >= f {
        assert r[c + j - f] == s[c + j];
      }
    }
  }

  /** Where the line `i` starts; behind the last line, the end of the text. */
  function Pos(s: string, w: nat, i: nat): nat
    requires w > 0
    decreases |s|
  {
    if i == 0 then 0 else if Next(s, w) == |s| then |s| else Next(s, w) + Pos(s[Next(s, w)..], w, i - 1)
  }

  /** A line begins where the previous one stopped, is cut out of the text there, and is filled. */
  ghost predicate LineOk(s: string, w: nat, p: nat, line: string, q: nat) {
    && p + |line| <= q <= |s| && s[p..p + |line|] == line && GapOk(s[p + |line|..q])
    && (q < |s| ==> s[q] != ' ')
    && (q < |s| && p + |line| == q ==> |line| == w)
    && (q < |s| && s[p + |line|] != '\n' ==>
          |line| + 1 + WordLen(s[q..]) >= w
          && (|line| + 1 + WordLen(s[q..]) == w ==> EndsAt(s, q + WordLen(s[q..]))))
  }

  lemma LineOkShift(s: string, w: nat, n: nat, p: nat, line: string, q: nat)
    requires n <= |s| && LineOk(s[n..], w, p, line, q)
    ensures LineOk(s, w, n + p, line, n + q)
  {
    var r := s[n..];
    assert s[n + p..n + p + |line|] == r[p..p + |line|] && s[n + p + |line|..n + q] == r[p + |line|..q];
    assert s[n + q..] == r[q..];
    if q < |r| {
      assert s[n + q] == r[q] && s[n + p + |line|] == r[p + |line|];
      var k := q + WordLen(r[q..]);
      assert EndsAt(r, k) ==> EndsAt(s, n + k) by { assert k < |r| ==> r[k] == s[n + k]; }
    }
  }

  /** Every line, with the gap behind it; together they are the text. */
  lemma {:induction false} LinesFilled(s: string, w: nat, i: nat)
    requires w > 0 && i < |Wrap(s, w)|
    ensures LineOk(s, w, Pos(s, w, i), Wrap(s, w)[i], Pos(s, w, i + 1))
    ensures i == |Wrap(s, w)| - 1 ==> Pos(s, w, i + 1) == |s|
    decreases |s|
  {
    hide Cut, Next, LineOk, Wrap, Pos;
    var n := Next(s, w);
    WrapLine(s, w);
    PosLine(s, w, i);
    if i == 0 {
      FirstLineOk(s, w);
      if n < |s| {
        assert Wrap(s[n..], w) != [] by { LinesFit(s[n..], w); }
      }
    } else {
      LinesFilled(s[n..], w, i - 1);
      LineOkShift(s, w, n, Pos(s[n..], w, i - 1), Wrap(s[n..], w)[i - 1], Pos(s[n..], w, i));
    }
  }

  lemma PosLine(s: string, w: nat, i: nat)
    requires w > 0
    ensures Pos(s, w, 0) == 0 && Pos(s, w, 1) == Next(s, w)
    ensures i > 0 && Next(s, w) < |s| ==>
              && Pos(s, w, i) == Next(s, w) + Pos(s[Next(s, w)..], w, i - 1)
              && Pos(s, w, i + 1) == Next(s, w) + Pos(s[Next(s, w)..], w, i)
  {
    hide Cut, Next;
  }

  lemma FirstLineOk(s: string, w: nat)
    requires w > 0
    ensures LineOk(s, w, 0, s[..Cut(s, w)], Next(s, w))
  {
    hide Cut, Next, GapOk;
    var c := Cut(s, w);
    FirstGap(s, w);
    assert s[0..c] == s[..c];
    if Next(s, w) < |s| {
      FirstLineFilled(s, w);
    }
  }

  // ---------------------------------------------------------------- the code

  method GetFirstTokenLength(s: string, from: nat) returns (len: nat)
    requires from <= |s| && NUL !in s
    ensures len == Token(s[from..])
  {
    ghost var r := s[from..];
    len := 0;
    while At(s, from + len) != NUL && At(s, from + len) != '\n'
      invariant len <= |r|
      invariant forall i :: 0 <= i < len ==> r[i] != '\n'
      decreases |r| - len
    {
      assert s[from + len] == r[len];
      len := len + 1;
    }
    assert forall i :: 0 <= i < |r| ==> r[i] == s[from + i] && r[i] in s;
    TokenIs(r, len);
  }

  lemma TokenIs(s: string, t: nat)
    requires t <= |s| && (forall i :: 0 <= i < t ==> s[i] != '\n') && (t < |s| ==> s[t] == '\n')
    ensures Token(s) == t
  {
    var u := Token(s);
    assert forall i :: 0 <= i < u ==> s[i] == s[..u][i];
  }

  method FindSplit(s: string, from: nat, w: nat) returns (len: nat)
    requires from <= |s| && 0 < w <= |s[from..]|
    ensures len == if Back(s[from..], w) == 0 then w else Back(s[from..], w)
  {
    ghost var r := s[from..];
    len := w;
    while At(s, from + len) != ' '
      invariant 0 < len <= w && Back(r, w) == Back(r, len)
      decreases len
    {
      assert At(s, from + len) == At(r, len);
      len := len - 1;
      if len == 0 {
        return w;
      }
    }
    assert At(s, from + len) == At(r, len);
  }

  function Padded(header: string, width: int): string {
    header + seq(if width > |header| then width - |header| else 0, _ => ' ')
  }

  /** What is printed: each line behind its indentation, the first of which shows the header. */
  function Rendered(lines: seq<string>, header: string, align: int): string {
    if lines == [] then []
    else Padded(header, align) + lines[0] + "\n" + Rendered(lines[1..], "", align)
  }

  lemma {:induction false} RenderedMore(lines: seq<string>, more: seq<string>, header: string, align: int)
    ensures Rendered(lines + more, header, align)
         == Rendered(lines, header, align) + Rendered(more, if lines == [] then header else "", align)
  {
    if lines == [] {
      assert lines + more == more;
    } else {
      assert (lines + more)[1..] == lines[1..] + more;
      RenderedMore(lines[1..], more, "", align);
    }
  }

  function Indent(header: string, align: int): nat {
    if align > |header| then align else |header|
  }

  /** Where the output of line `i` starts. */
  function PrintedPos(lines: seq<string>, header: string, align: int, i: nat): nat
    requires i <= |lines|
  {
    if i == 0 then 0 else Indent(header, align) + |lines[0]| + 1 + PrintedPos(lines[1..], "", align, i - 1)
  }

  ghost predicate PrintedAt(out: string, p: nat, header: string, align: int, line: string) {
    var k := Indent(header, align);
    && p + k + |line| < |out|
    && out[p..p + |header|] == header && (forall j :: p + |header| <= j < p + k ==> out[j] == ' ')
    && out[p + k..p + k + |line|] == line && out[p + k + |line|] == '\n'
  }

  lemma FirstPrinted(header: string, align: int, line: string, rest: string)
    ensures PrintedAt(Padded(header, align) + line + "\n" + rest, 0, header, align, line)
    ensures |Padded(header, align)| == Indent(header, align)
  {
    var out, k := Padded(header, align) + line + "\n" + rest, Indent(header, align);
    assert out[0..|header|] == header && out[k..k + |line|] == line;
  }

  lemma PrintedShift(front: string, out: string, p: nat, header: string, align: int, line: string)
    requires PrintedAt(out, p, header, align, line)
    ensures PrintedAt(front + out, |front| + p, header, align, line)
  {
    var all, k, n := front + out, Indent(header, align), |front|;
    assert all[n + p..n + p + |header|] == out[p..p + |header|];
    assert all[n + p + k..n + p + k + |line|] == out[p + k..p + k + |line|];
    assert forall j :: n + p + |header| <= j < n + p + k ==> all[j] == out[j - n];
  }

  /** The output: every line behind its indentation of spaces, the first of which shows the header instead. */
  lemma {:induction false} PrintedLines(lines: seq<string>, header: string, align: int, i: nat)
    requires i < |lines|
    ensures PrintedAt(Rendered(lines, header, align), PrintedPos(lines, header, align, i), if i == 0 then header else "",
                      align, lines[i])
    ensures PrintedPos(lines, header, align, |lines|) == |Rendered(lines, header, align)|
    decreases |lines|
  {
    hide Padded, PrintedAt;
    var rest := Rendered(lines[1..], "", align);
    FirstPrinted(header, align, lines[0], rest);
    var front := Padded(header, align) + lines[0] + "\n";
    if |lines| > 1 {
      PrintedLines(lines[1..], "", align, if i == 0 then 0 else i - 1);
      if i > 0 {
        PrintedShift(front, rest, PrintedPos(lines[1..], "", align, i - 1), "", align, lines[i]);
      }
    }
  }

  /** The length of the next line. */
  method LineLength(text: string, pos: nat, w: nat) returns (len: nat)
    requires pos <= |text| && w > 0 && NUL !in text
    ensures len == Cut(text[pos..], w)
  {
    len := GetFirstTokenLength(text, pos);
    if len >= w {
      len := FindSplit(text, pos, w);
    }
  }

  /** The distance to the start of the line after the next. */
  method LineStep(text: string, pos: nat, len: nat, ghost w: nat) returns (next: nat)
    requires pos <= |text| && w > 0 && len == Cut(text[pos..], w)
    ensures next == Next(text[pos..], w)
  {
    ghost var r := text[pos..];
    assert At(text, pos + len) == At(r, len);
    next := if At(text, pos + len) == '\n' then len + 1 else len;
    next := SkipSpaces(text, pos, next);
  }

  lemma WrapLine(s: string, w: nat)
    requires w > 0
    ensures Wrap(s, w) == [s[..Cut(s, w)]] + if Next(s, w) == |s| then [] else Wrap(s[Next(s, w)..], w)
  {
  }

  lemma Unroll(text: string, w: nat, pos: nat, done: seq<string>)
    requires w > 0 && pos <= |text| && Wrap(text, w) == done + Wrap(text[pos..], w)
    ensures var len, next := Cut(text[pos..], w), Next(text[pos..], w);
            var line := text[pos..pos + len];
            Wrap(text, w) == done + [line] + if pos + next == |text| then [] else Wrap(text[pos + next..], w)
  {
    hide Cut, Next, Wrap;
    var r, next := text[pos..], Next(text[pos..], w);
    WrapLine(r, w);
    assert r[next..] == text[pos + next..];
    var line := r[..Cut(r, w)];
    assert line == text[pos..pos + Cut(r, w)];
    var rest := if pos + next == |text| then [] else Wrap(text[pos + next..], w);
    assert Wrap(r, w) == [line] + rest;
    assert done + ([line] + rest) == done + [line] + rest;
  }

  lemma NothingRendered(header: string, align: int)
    ensures Rendered([], header, align) == []
  {
  }

  lemma OneMore(done: seq<string>, line: string, header: string, align: int)
    ensures Rendered(done + [line], header, align)
         == Rendered(done, header, align) + Padded(if done == [] then header else "", align) + line + "\n"
  {
    var head := if done == [] then header else "";
    RenderedMore(done, [line], header, align);
    assert Rendered([line], head, align) == Padded(head, align) + line + "\n" by {
      assert [line][1..] == [];
    }
  }

  /** The lines of the text are printed, indented, with the header on the first. */
  method PrintTextWrapped(lineMax: int, text: string, align: int, header: string) returns (out: string)
    requires lineMax - align > 0 && NUL !in text
    ensures out == Rendered(Wrap(text, lineMax - align), header, align)
  {
    hide Wrap, Cut, Next, Rendered, Padded;
    var w := lineMax - align;
    var pos, head := 0, header;
    ghost var done: seq<string> := [];
    assert text[0..] == text;
    out := [];
    NothingRendered(header, align);
    while true
      invariant pos <= |text| && (pos == |text| ==> done == [])
      invariant head == if done == [] then header else ""
      invariant out == Rendered(done, header, align)
      invariant Wrap(text, w) == done + Wrap(text[pos..], w)
      decreases |text| - pos
    {
      Unroll(text, w, pos, done);
      var len := LineLength(text, pos, w);
      var line := text[pos..pos + len];
      OneMore(done, line, header, align);
      out := out + Padded(head, align) + line + "\n";
      done := done + [line];
      var next := LineStep(text, pos, len, w);
      pos, head := pos + next, "";
      if pos == |text| {
        break;
      }
    }
    assert done == Wrap(text, w);
  }

  method SkipSpaces(s: string, from: nat, start: nat) returns (len: nat)
    requires from + start <= |s|
    ensures len == start + Spaces(s[from..][start..])
    ensures from + len <= |s|
  {
    ghost var r := s[from..][start..];
    len := start;
    while At(s, from + len) == ' '
      invariant start <= len <= |s| - from
      invariant forall i :: 0 <= i < len - start ==> r[i] == ' '
      decreases |s| - from - len
    {
      assert s[from + len] == r[len - start];
      len := len + 1;
    }
    assert from + len < |s| ==> s[from + len] == r[len - start];
  }
}
