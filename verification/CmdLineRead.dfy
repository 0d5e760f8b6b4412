/**
 What the parser makes of lines that were not printed by the escaping code (src/startup-win32.c:111-183). An argument is
 written as segments, each plain, a literal quote behind doubled backslashes, or quoted; arguments are separated by
 any runs of white space. Every such line is read as written, but for two oddities of the code: white space at the
 start makes an empty argument, and backslashes at the end of an argument move to the next one.
 */
module CmdLineRead {
  import opened CmdLine

  const WHITE: seq<char> := [' ', '\t', '\r', '\n', '\U{b}', '\U{c}']

  predicate White(s: string) {
    forall i :: 0 <= i < |s| ==> s[i] in WHITE
  }

  /** A piece of an argument: as it is, a literal quote after `n` backslashes, or quoted after `n` backslashes. */
  datatype Seg = Plain(text: string) | Lit(n: nat) | Quoted(n: nat, arg: string)

  function Text(s: Seg): string {
    match s
    case Plain(t) => t
    case Lit(n) => Slashes(2 * n + 1) + ['"']
    case Quoted(n, arg) => Slashes(2 * n) + Escape(arg)
  }

  function Value(s: Seg): string {
    match s
    case Plain(t) => t
    case Lit(n) => Slashes(n) + ['"']
    case Quoted(n, arg) => Slashes(n) + arg
  }

  /** A plain segment has no white space and no quote, and does not end in a backslash. */
  predicate SegOk(s: Seg) {
    s.Plain? ==>
      && s.text != [] && s.text[|s.text| - 1] != '\\'
      && forall i :: 0 <= i < |s.text| ==> s.text[i] != '"' && s.text[i] !in WHITE
  }

  function Texts(segs: seq<Seg>): string {
    if segs == [] then [] else Texts(segs[..|segs| - 1]) + Text(segs[|segs| - 1])
  }

  function Values(segs: seq<Seg>): string {
    if segs == [] then [] else Values(segs[..|segs| - 1]) + Value(segs[|segs| - 1])
  }

  // ---------------------------------------------------------------- one argument

  lemma SlashesAdd(a: nat, b: nat)
    ensures Slashes(a) + Slashes(b) == Slashes(a + b)
  {
  }

  /** Outside quotes every other character is taken as it is, held backslashes first. */
  lemma {:induction false} ReadsPlain(p: Parser, t: string)
    requires !p.inQuotes && forall i :: 0 <= i < |t| ==> t[i] != '"' && t[i] !in WHITE
    ensures var q := FeedAll(p, t);
            && q.args == p.args && !q.inQuotes && q.prevSpace == (t == [] && p.prevSpace)
            && q.cur + Slashes(q.nb) == p.cur + Slashes(p.nb) + t
            && (t != [] && t[|t| - 1] != '\\' ==> q.nb == 0)
    decreases |t|
  {
    if t == [] {
      assert p.cur + Slashes(p.nb) + t == p.cur + Slashes(p.nb);
    } else {
      var n := |t| - 1;
      var front, c := t[..n], t[n];
      assert t == front + [c];
      ReadsPlain(p, front);
      FeedConcat(p, front, [c]);
      var q := FeedAll(p, front);
      FeedOne(q, c);
      if c == '\\' {
        SlashesAdd(q.nb, 1);
        assert q.cur + Slashes(q.nb + 1) == q.cur + Slashes(q.nb) + [c];
      } else {
        assert Slashes(0) == [];
        assert Feed(q, c).cur + Slashes(0) == q.cur + Slashes(q.nb) + [c];
      }
      assert p.cur + Slashes(p.nb) + front + [c] == p.cur + Slashes(p.nb) + t;
    }
  }

  lemma ReadsLit(p: Parser, n: nat)
    requires !p.inQuotes && p.nb == 0
    ensures FeedAll(p, Slashes(2 * n + 1) + ['"']) == p.(cur := p.cur + (Slashes(n) + ['"']), prevSpace := false)
  {
    FeedConcat(p, Slashes(2 * n + 1), ['"']);
    FeedSlashes(p, 2 * n + 1);
    FeedOne(p.(nb := 2 * n + 1, prevSpace := false), '"');
    assert p.cur + Slashes(n) + ['"'] == p.cur + (Slashes(n) + ['"']);
  }

  lemma ReadsQuoted(p: Parser, n: nat, arg: string)
    requires !p.inQuotes && p.nb == 0
    ensures FeedAll(p, Slashes(2 * n) + Escape(arg)) == p.(cur := p.cur + (Slashes(n) + arg), prevSpace := false)
  {
    FeedConcat(p, Slashes(2 * n), Escape(arg));
    FeedSlashes(p, 2 * n);
    var q := FeedAll(p, Slashes(2 * n));
    FeedConcat(q, ['"'], EscapeFrom(arg, 0));
    FeedOne(q, '"');
    var r := p.(cur := p.cur + Slashes(n), inQuotes := true, prevSpace := false);
    assert Feed(q, '"') == r;
    ReadsBack(r, arg, 0);
    assert p.cur + Slashes(n) + Slashes(0) + arg == p.cur + (Slashes(n) + arg);
  }

  lemma ReadsSeg(p: Parser, s: Seg)
    requires !p.inQuotes && SegOk(s) && (p.nb == 0 || s.Plain?)
    ensures FeedAll(p, Text(s)) == p.(cur := p.cur + Slashes(p.nb) + Value(s), nb := 0, prevSpace := false)
  {
    assert Slashes(0) == [];
    match s
    case Plain(t) =>
      ReadsPlain(p, t);
      var q := FeedAll(p, t);
      assert q.cur + Slashes(0) == q.cur;
    case Lit(n) =>
      ReadsLit(p, n);
      assert p.cur + Slashes(0) + Value(s) == p.cur + Value(s);
    case Quoted(n, arg) =>
      ReadsQuoted(p, n, arg);
      assert p.cur + Slashes(0) + Value(s) == p.cur + Value(s);
  }

  lemma {:induction false} ReadsSegs(p: Parser, segs: seq<Seg>)
    requires !p.inQuotes && p.cur == [] && segs != [] && (p.nb == 0 || segs[0].Plain?)
    requires forall i :: 0 <= i < |segs| ==> SegOk(segs[i])
    ensures FeedAll(p, Texts(segs)) == p.(cur := Slashes(p.nb) + Values(segs), nb := 0, prevSpace := false)
    decreases |segs|
  {
    hide Feed, FeedAll, Texts, Values, Text, Value, SegOk;
    var n := |segs| - 1;
    var front, s := segs[..n], segs[n];
    if n == 0 {
      assert segs == [s];
      SingleSeg(s);
      ReadsSeg(p, s);
      assert [] + Slashes(p.nb) + Value(s) == Slashes(p.nb) + Value(s);
    } else {
      ReadsSegs(p, front);
      SegsSnoc(segs);
      FeedConcat(p, Texts(front), Text(s));
      var q := FeedAll(p, Texts(front));
      ReadsSeg(q, s);
      assert Slashes(0) == [];
      assert q.cur + Slashes(0) + Value(s) == Slashes(p.nb) + (Values(front) + Value(s));
    }
  }

  lemma SingleSeg(s: Seg)
    ensures Texts([s]) == Text(s) && Values([s]) == Value(s)
  {
    assert [s][..0] == [];
    assert [] + Text(s) == Text(s) && [] + Value(s) == Value(s);
  }

  lemma SegsSnoc(segs: seq<Seg>)
    requires segs != []
    ensures Texts(segs) == Texts(segs[..|segs| - 1]) + Text(segs[|segs| - 1])
    ensures Values(segs) == Values(segs[..|segs| - 1]) + Value(segs[|segs| - 1])
  {
  }

  // ---------------------------------------------------------------- the line

  /** An argument as it stands on the line, with the backslashes at its end, and the white space behind it. */
  datatype Piece = Piece(segs: seq<Seg>, tail: nat, gap: string)

  function PieceText(x: Piece): string {
    Texts(x.segs) + Slashes(x.tail)
  }

  function LineText(xs: seq<Piece>): string {
    if xs == [] then [] else LineText(xs[..|xs| - 1]) + PieceText(xs[|xs| - 1]) + xs[|xs| - 1].gap
  }

  /** The arguments meant: backslashes at the end of one stand at the start of the next. */
  function Meant(xs: seq<Piece>): seq<string> {
    if xs == [] then []
    else
      var n := |xs| - 1;
      Meant(xs[..n]) + [Slashes(if n > 0 then xs[n - 1].tail else 0) + Values(xs[n].segs)]
  }

  /** Arguments are set apart by white space; moved backslashes must not meet a quote. */
  ghost predicate LineOk(xs: seq<Piece>) {
    && (forall i :: 0 <= i < |xs| ==> PieceOk(xs[i]))
    && (forall i :: 0 <= i < |xs| - 1 ==> Apart(xs, i))
  }

  ghost predicate Apart(xs: seq<Piece>, i: nat)
    requires i + 1 < |xs|
  {
    xs[i].gap != [] && (xs[i].tail > 0 ==> xs[i + 1].segs != [] && xs[i + 1].segs[0].Plain?)
  }

  ghost predicate PieceOk(x: Piece) {
    x.segs != [] && White(x.gap) && forall i :: 0 <= i < |x.segs| ==> SegOk(x.segs[i])
  }

  lemma {:induction false} ReadsGap(p: Parser, gap: string)
    requires !p.inQuotes && White(gap) && gap != []
    ensures FeedAll(p, gap) == if p.prevSpace then p else p.(args := p.args + [p.cur], cur := [], prevSpace := true)
    decreases |gap|
  {
    var n := |gap| - 1;
    var front, c := gap[..n], gap[n];
    assert gap == front + [c] && c in WHITE;
    FeedConcat(p, front, [c]);
    if n == 0 {
      assert front + [c] == [c];
      FeedOne(p, c);
    } else {
      ReadsGap(p, front);
      FeedOne(FeedAll(p, front), c);
    }
  }

  /** The state of the parser after the pieces: the last argument is finished exactly if white space follows it. */
  function AfterLine(first: seq<string>, xs: seq<Piece>): Parser
    requires xs != []
  {
    var args, n := first + Meant(xs), |xs| - 1;
    if xs[n].gap == [] then Parser(args[..|args| - 1], args[|args| - 1], xs[n].tail, false, false)
    else Parser(args, [], xs[n].tail, false, true)
  }

  function AfterPiece(p: Parser, x: Piece): Parser {
    var arg := Slashes(p.nb) + Values(x.segs);
    if x.gap == [] then Parser(p.args, arg, x.tail, false, false)
    else Parser(p.args + [arg], [], x.tail, false, true)
  }

  lemma ReadsPiece(p: Parser, x: Piece)
    requires !p.inQuotes && p.cur == [] && PieceOk(x) && (p.nb == 0 || x.segs[0].Plain?)
    ensures FeedAll(p, PieceText(x) + x.gap) == AfterPiece(p, x)
  {
    hide Feed, Texts, Values;
    FeedConcat(p, PieceText(x), x.gap);
    FeedConcat(p, Texts(x.segs), Slashes(x.tail));
    ReadsSegs(p, x.segs);
    var q := FeedAll(p, Texts(x.segs));
    FeedSlashes(q, x.tail);
    if x.gap == [] {
      assert PieceText(x) + x.gap == PieceText(x);
    } else {
      ReadsGap(FeedAll(q, Slashes(x.tail)), x.gap);
    }
  }

  lemma {:induction false} ReadsPieces(first: seq<string>, p: Parser, xs: seq<Piece>)
    requires p == Parser(first, [], 0, false, p.prevSpace) && xs != [] && LineOk(xs)
    ensures FeedAll(p, LineText(xs)) == AfterLine(first, xs)
    decreases |xs|
  {
    hide Feed, FeedAll, PieceText, Values;
    var n := |xs| - 1;
    var front, x := xs[..n], xs[n];
    var text := PieceText(x) + x.gap;
    assert PieceOk(x);
    if n == 0 {
      assert LineText(xs) == text by { assert front == [] && [] + PieceText(x) + x.gap == text; }
      ReadsPiece(p, x);
      assert Meant(xs) == [Slashes(0) + Values(x.segs)] by { assert front == []; }
      assert (first + Meant(xs))[..|first|] == first;
    } else {
      assert LineOk(front) by {
        forall i | 0 <= i < n - 1 ensures Apart(front, i) {
          assert Apart(xs, i);
        }
      }
      assert Apart(xs, n - 1);
      ReadsPieces(first, p, front);
      assert LineText(xs) == LineText(front) + text by {
        assert LineText(front) + PieceText(x) + x.gap == LineText(front) + (PieceText(x) + x.gap);
      }
      FeedConcat(p, LineText(front), text);
      assert front[n - 1] == xs[n - 1];
      var q := AfterLine(first, front);
      assert q == Parser(first + Meant(front), [], xs[n - 1].tail, false, true);
      ReadsPiece(q, x);
      var arg := Slashes(xs[n - 1].tail) + Values(x.segs);
      assert Meant(xs) == Meant(front) + [arg];
      assert first + Meant(xs) == first + Meant(front) + [arg];
      assert (first + Meant(front) + [arg])[..|first + Meant(front)|] == first + Meant(front);
    }
  }

  /**
   Every such line is read as written: the arguments meant, after an empty one if the line starts with white space;
   backslashes at the end of the last argument are lost.
   */
  lemma ReadsAnyLine(lead: string, xs: seq<Piece>)
    requires White(lead) && xs != [] && LineOk(xs)
    ensures Parse(lead + LineText(xs)) == (if lead == [] then [] else [[]]) + Meant(xs)
  {
    hide Feed, FeedAll, LineText, Meant, LineOk;
    FeedConcat(START, lead, LineText(xs));
    var first: seq<string> := if lead == [] then [] else [[]];
    if lead != [] {
      ReadsGap(START, lead);
      assert [] + [[]] == first;
    } else {
      NothingFed(START);
    }
    ReadsPieces(first, FeedAll(START, lead), xs);
    var args := first + Meant(xs);
    assert Meant(xs) != [] by { MeantSize(xs); }
    assert args[..|args| - 1] + [args[|args| - 1]] == args;
  }

  lemma NothingFed(p: Parser)
    ensures FeedAll(p, []) == p
  {
  }

  lemma {:induction false} MeantSize(xs: seq<Piece>)
    ensures |Meant(xs)| == |xs|
  {
    if xs != [] {
      MeantSize(xs[..|xs| - 1]);
    }
  }

  /** A line of nothing but white space is one empty argument. */
  lemma ReadsNothing(lead: string)
    requires White(lead)
    ensures Parse(lead) == [[]]
  {
    if lead != [] {
      ReadsGap(START, lead);
    }
  }

  // ---------------------------------------------------------------- bare words

  ghost predicate BareWord(w: string) {
    SegOk(Plain(w))
  }

  function WordPieces(words: seq<string>, sep: char): seq<Piece> {
    seq(|words|, i requires 0 <= i < |words| => Piece([Plain(words[i])], 0, if i == |words| - 1 then [] else [sep]))
  }

  lemma WordPiece(words: seq<string>, sep: char, i: nat)
    requires i < |words|
    ensures var x := WordPieces(words, sep)[i];
            PieceText(x) == words[i] && Values(x.segs) == words[i] && x.tail == 0 && x.gap == if i == |words| - 1 then [] else [sep]
  {
    SingleSeg(Plain(words[i]));
    assert Slashes(0) == [] && words[i] + [] == words[i];
  }

  lemma PiecesSnoc(xs: seq<Piece>, n: nat)
    requires n < |xs|
    ensures LineText(xs[..n + 1]) == LineText(xs[..n]) + PieceText(xs[n]) + xs[n].gap
    ensures Meant(xs[..n + 1]) == Meant(xs[..n]) + [Slashes(if n > 0 then xs[n - 1].tail else 0) + Values(xs[n].segs)]
  {
    assert xs[..n + 1][..n] == xs[..n];
  }

  lemma JoinSnoc(words: seq<string>, sep: char, n: nat)
    requires n < |words|
    ensures Join(words[..n + 1], sep) == (if n == 0 then [] else Join(words[..n], sep) + [sep]) + words[n]
  {
    assert words[..n + 1][..n] == words[..n];
  }

  lemma {:induction false} MeantAt(xs: seq<Piece>, i: nat)
    requires i < |xs|
    ensures |Meant(xs)| == |xs| && Meant(xs)[i] == Slashes(if i > 0 then xs[i - 1].tail else 0) + Values(xs[i].segs)
    decreases |xs|
  {
    hide Values;
    var n := |xs| - 1;
    var front := xs[..n];
    MeantSize(front);
    if i < n {
      MeantAt(front, i);
      assert front[i] == xs[i] && (i > 0 ==> front[i - 1] == xs[i - 1]);
    }
    assert Meant(xs) == Meant(front) + [Slashes(if n > 0 then xs[n - 1].tail else 0) + Values(xs[n].segs)];
  }

  lemma WordsMeant(words: seq<string>, sep: char)
    ensures Meant(WordPieces(words, sep)) == words
  {
    hide Meant, Values, PieceText, WordPieces;
    var xs := WordPieces(words, sep);
    MeantSize(xs);
    assert |xs| == |words| by { WordCount(words, sep); }
    forall i | 0 <= i < |words| ensures Meant(xs)[i] == words[i] {
      MeantAt(xs, i);
      WordPiece(words, sep, i);
      if i > 0 {
        WordPiece(words, sep, i - 1);
      }
      assert Slashes(0) + words[i] == words[i];
    }
  }

  lemma WordCount(words: seq<string>, sep: char)
    ensures |WordPieces(words, sep)| == |words|
  {
  }

  /** The first `n` words with a separator behind each. */
  lemma {:induction false} WordsText(words: seq<string>, sep: char, n: nat)
    requires n <= |words|
    ensures LineText(WordPieces(words, sep)[..n]) == Join(words[..n], sep) + if 0 < n < |words| then [sep] else []
    decreases n
  {
    var xs := WordPieces(words, sep);
    if n == 0 {
      assert xs[..0] == [] && words[..0] == [];
    } else {
      WordsText(words, sep, n - 1);
      hide LineText, Join, PieceText, WordPieces, Meant, Values;
      PiecesSnoc(xs, n - 1);
      JoinSnoc(words, sep, n - 1);
      WordPiece(words, sep, n - 1);
      NoPieces(xs, words, sep);
      var gap := if n < |words| then [sep] else [];
      assert xs[n - 1].gap == gap;
      var before := if n == 1 then [] else Join(words[..n - 1], sep) + [sep];
      assert LineText(xs[..n - 1]) == before;
      assert LineText(xs[..n]) == before + words[n - 1] + gap;
      assert Join(words[..n], sep) == before + words[n - 1];
    }
  }

  lemma NoPieces(xs: seq<Piece>, words: seq<string>, sep: char)
    ensures LineText(xs[..0]) == [] && Join(words[..0], sep) == []
  {
  }

  lemma WordPiecesOk(words: seq<string>, sep: char)
    requires sep in WHITE && forall i :: 0 <= i < |words| ==> BareWord(words[i])
    ensures LineOk(WordPieces(words, sep))
  {
    var xs := WordPieces(words, sep);
    forall i | 0 <= i < |xs| ensures PieceOk(xs[i]) {
      assert BareWord(words[i]);
    }
    forall i | 0 <= i < |xs| - 1 ensures Apart(xs, i) {
    }
  }

  /** Bare words separated by single white-space characters are the arguments. */
  lemma ReadsBareWords(words: seq<string>, sep: char)
    requires words != [] && sep in WHITE && forall i :: 0 <= i < |words| ==> BareWord(words[i])
    ensures Parse(Join(words, sep)) == words
  {
    hide LineText, Meant, Join, LineOk, Parse, BareWord;
    var xs := WordPieces(words, sep);
    WordPiecesOk(words, sep);
    WordsMeant(words, sep);
    WordsText(words, sep, |words|);
    assert xs[..|xs|] == xs && words[..|words|] == words;
    ReadsAnyLine([], xs);
    assert [] + LineText(xs) == LineText(xs) && Join(words, sep) + [] == Join(words, sep);
    assert [] + Meant(xs) == Meant(xs);
  }
}
