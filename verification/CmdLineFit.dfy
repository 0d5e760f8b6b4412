/**
 How many arguments a command line has (src/startup-win32.c): the allocation estimates them by the spaces
 alone, while the parser separates arguments by every unquoted run of white space. A scan of the line that
 remembers only the quotes, the parity of the backslashes and the run it is in decides whether the
 estimate suffices.
 */
module CmdLineFit {
  import opened CmdLine

  function Spaces(s: string): nat {
    if s == [] then 0 else Spaces(s[..|s| - 1]) + if s[|s| - 1] == ' ' then 1 else 0
  }

  lemma FeedSnoc(s: string, k: nat)
    requires k < |s|
    ensures FeedAll(START, s[..k + 1]) == Feed(FeedAll(START, s[..k]), s[k])
  {
    assert s[..k + 1] == s[..k] + [s[k]];
    FeedConcat(START, s[..k], [s[k]]);
    FeedOne(FeedAll(START, s[..k]), s[k]);
  }

  /** A character finishes an argument exactly if it starts a run of unquoted white space. */
  lemma FeedArgs(p: Parser, c: char)
    ensures |Feed(p, c).args| == |p.args| + if IsSpace(c) && !p.inQuotes && !p.prevSpace then 1 else 0
  {
  }

  /** The number of finished arguments only grows. */
  lemma {:induction false} ArgsGrow(p: Parser, s: string)
    ensures |p.args| <= |FeedAll(p, s).args|
    decreases |s|
  {
    if s != [] { ArgsGrow(Feed(p, s[0]), s[1..]); }
  }

  lemma PrefixArgs(s: string, k: nat)
    requires k <= |s|
    ensures |FeedAll(START, s[..k]).args| <= |FeedAll(START, s).args|
  {
    assert s == s[..k] + s[k..];
    FeedConcat(START, s[..k], s[k..]);
    ArgsGrow(FeedAll(START, s[..k]), s[k..]);
  }

  // ---------------------------------------------------------------- the scan

  /** Inside quotes; after an odd number of backslashes; in unquoted white space; runs of it so far. */
  datatype Scan = Scan(quoted: bool, odd: bool, gap: bool, breaks: nat)

  function ScanStep(s: Scan, c: char): Scan {
    if c == '\\' then s.(odd := !s.odd, gap := false)
    else if c == '"' then Scan(if s.odd then s.quoted else !s.quoted, false, false, s.breaks)
    else if IsSpace(c) && !s.quoted then if s.gap then s else s.(gap := true, breaks := s.breaks + 1)
    else s.(odd := false, gap := false)
  }

  function ScanLine(line: string): Scan {
    if line == [] then Scan(false, false, false, 0)
    else ScanStep(ScanLine(line[..|line| - 1]), line[|line| - 1])
  }

  /** The number of arguments: one per run, and one more unless the line ends in a run. */
  function Arguments(line: string): nat {
    ScanLine(line).breaks + if ScanLine(line).gap then 0 else 1
  }

  /** The arguments do not outnumber the estimate made from the spaces alone. */
  predicate TableFits(line: string) {
    Arguments(line) <= Spaces(line) + 1
  }

  lemma {:induction false} ScanFollows(line: string)
    ensures var p := FeedAll(START, line);
            ScanLine(line) == Scan(p.inQuotes, p.nb % 2 == 1, p.prevSpace, |p.args|)
    decreases |line|
  {
    if line != [] {
      var n := |line| - 1;
      ScanFollows(line[..n]);
      assert line[..n + 1] == line;
      FeedSnoc(line, n);
    }
  }

  /**
   The scan counts the arguments of every line; so the last pointer of the table, the null behind the
   arguments, lies within the allocation exactly if `TableFits`.
   */
  lemma FitsExactly(line: string)
    ensures |Parse(line)| == Arguments(line)
    ensures TableFits(line) <==> |Parse(line)| < (Spaces(line) + 1) + 1
  {
    ScanFollows(line);
  }

  // ---------------------------------------------------------------- families of lines

  lemma {:induction false} SpacesConcat(a: string, b: string)
    ensures Spaces(a + b) == Spaces(a) + Spaces(b)
    decreases |b|
  {
    if b == [] {
      assert a + b == a;
    } else {
      assert (a + b)[..|a + b| - 1] == a + b[..|b| - 1];
      SpacesConcat(a, b[..|b| - 1]);
    }
  }

  lemma SpacesSnoc(a: string, c: char)
    ensures Spaces(a + [c]) == Spaces(a) + if c == ' ' then 1 else 0
  {
    assert (a + [c])[..|a|] == a;
  }

  lemma {:induction false} JoinSpaces(strv: seq<string>)
    requires strv != []
    ensures Spaces(Join(strv, ' ')) >= |strv| - 1
  {
    var n := |strv| - 1;
    if n > 0 {
      JoinSpaces(strv[..n]);
      var front := Join(strv[..n], ' ');
      SpacesConcat(front + [' '], strv[n]);
      SpacesSnoc(front, ' ');
    }
  }

  /** Every line that the printer makes can be parsed within the sizes of the allocation. */
  lemma EscapedLineFits(args: seq<string>)
    requires args != []
    ensures TableFits(Join(EscapeAll(args), ' '))
  {
    FitsExactly(Join(EscapeAll(args), ' '));
    RoundTrip(args);
    EscapeAllSize(args);
    JoinSpaces(EscapeAll(args));
  }

  lemma {:induction false} BreaksCostSpaces(s: string)
    requires forall i :: 0 <= i < |s| ==> IsSpace(s[i]) ==> s[i] == ' '
    ensures ScanLine(s).breaks <= Spaces(s)
    decreases |s|
  {
    if s != [] {
      BreaksCostSpaces(s[..|s| - 1]);
    }
  }

  /** So does every line, escaped or not, whose only white space is the space. */
  lemma SpacedLineFits(s: string)
    requires forall i :: 0 <= i < |s| ==> IsSpace(s[i]) ==> s[i] == ' '
    ensures TableFits(s)
  {
    BreaksCostSpaces(s);
  }

  /** The number of maximal runs of white space. */
  function Runs(s: string): nat {
    if s == [] then 0
    else Runs(s[..|s| - 1]) + if IsSpace(s[|s| - 1]) && (|s| == 1 || !IsSpace(s[|s| - 2])) then 1 else 0
  }

  lemma {:induction false} RunsAreBreaks(s: string)
    requires '"' !in s
    ensures ScanLine(s).breaks == Runs(s) && !ScanLine(s).quoted
    ensures ScanLine(s).gap <==> s != [] && IsSpace(s[|s| - 1])
    decreases |s|
  {
    if s != [] {
      var front := s[..|s| - 1];
      assert forall c :: c in front ==> c in s;
      RunsAreBreaks(front);
    }
  }

  /** For lines without quotes, the same condition on runs of white space. */
  lemma UnquotedLineFits(s: string)
    requires '"' !in s
    ensures TableFits(s) <==> Runs(s) + (if s != [] && IsSpace(s[|s| - 1]) then 0 else 1) <= Spaces(s) + 1
  {
    RunsAreBreaks(s);
  }

  /** A word: not empty, without white space and quotes. */
  ghost predicate Word(w: string) {
    w != [] && '"' !in w && forall i :: 0 <= i < |w| ==> !IsSpace(w[i])
  }

  lemma {:induction false} ScanWord(line: string, w: string)
    requires !ScanLine(line).quoted && Word(w)
    ensures var s := ScanLine(line + w);
            !s.quoted && !s.gap && s.breaks == ScanLine(line).breaks && Spaces(line + w) == Spaces(line)
    decreases |w|
  {
    var n := |w| - 1;
    var front := w[..n];
    assert (line + w)[..|line + w| - 1] == line + front;
    assert w[n] in w && forall c :: c in front ==> c in w;
    if n == 0 {
      assert line + front == line;
    } else {
      ScanWord(line, front);
    }
  }

  lemma {:induction false} ScanWords(words: seq<string>, sep: char)
    requires words != [] && IsSpace(sep) && forall i :: 0 <= i < |words| ==> Word(words[i])
    ensures var s := ScanLine(Join(words, sep));
            !s.quoted && !s.gap && s.breaks == |words| - 1
    ensures Spaces(Join(words, sep)) == if sep == ' ' then |words| - 1 else 0
    decreases |words|
  {
    var n := |words| - 1;
    if n == 0 {
      assert [] + words[0] == words[0];
      ScanWord([], words[0]);
    } else {
      var front := Join(words[..n], sep);
      ScanWords(words[..n], sep);
      assert (front + [sep])[..|front|] == front;
      ScanWord(front + [sep], words[n]);
    }
  }

  /**
   Words separated by one white-space character, the tab for example: the estimate suffices exactly if
   that character is the space or there is a single word.
   */
  lemma SeparatedWordsFit(words: seq<string>, sep: char)
    requires words != [] && IsSpace(sep) && forall i :: 0 <= i < |words| ==> Word(words[i])
    ensures TableFits(Join(words, sep)) <==> sep == ' ' || |words| == 1
  {
    ScanWords(words, sep);
  }
}
