/**
 Printing an argument list as a Windows command line (src/process-win32.c) and parsing it back
 (src/startup-win32.c), with the quoting convention documented for CommandLineToArgvW. Code units
 are characters; conversions between encodings are the identity.
 */
module CmdLine {

  // ---------------------------------------------------------------- the two languages

  function Slashes(n: nat): string {
    seq(n, _ => '\\')
  }

  /** The escaped form of the rest of an argument, `nb` backslashes being held back; closes the quote. */
  function EscapeFrom(src: string, nb: nat): string {
    if src == [] then Slashes(2 * nb) + ['"']
    else if src[0] == '\\' then EscapeFrom(src[1..], nb + 1)
    else if src[0] == '"' then Slashes(2 * nb) + ['\\', '"'] + EscapeFrom(src[1..], 0)
    else Slashes(nb) + [src[0]] + EscapeFrom(src[1..], 0)
  }

  function Escape(src: string): string {
    ['"'] + EscapeFrom(src, 0)
  }

  function Join(strv: seq<string>, sep: char): string {
    if strv == [] then [] else if |strv| == 1 then strv[0]
    else Join(strv[..|strv| - 1], sep) + [sep] + strv[|strv| - 1]
  }

  function EscapeAll(args: seq<string>): seq<string> {
    if args == [] then [] else EscapeAll(args[..|args| - 1]) + [Escape(args[|args| - 1])]
  }

  /** The state of the parser: finished arguments, current argument, held backslashes and two flags. */
  datatype Parser = Parser(args: seq<string>, cur: string, nb: nat, inQuotes: bool, prevSpace: bool)

  const START := Parser([], [], 0, false, false)

  predicate IsSpace(c: char) {
    c == ' ' || c == '\t' || c == '\r' || c == '\n' || c == '\U{b}' || c == '\U{c}'
  }

  function Feed(p: Parser, c: char): Parser {
    if c == '\\' then p.(nb := p.nb + 1, prevSpace := false)
    else if c == '"' then
      if p.nb % 2 == 0
      then p.(cur := p.cur + Slashes(p.nb / 2), inQuotes := !p.inQuotes, nb := 0, prevSpace := false)
      else p.(cur := p.cur + Slashes((p.nb - 1) / 2) + ['"'], nb := 0, prevSpace := false)
    else if IsSpace(c) && !p.inQuotes then
      if p.prevSpace then p else p.(args := p.args + [p.cur], cur := [], prevSpace := true)
    else p.(cur := p.cur + Slashes(p.nb) + [c], nb := 0, prevSpace := false)
  }

  function FeedAll(p: Parser, s: string): Parser
    decreases |s|
  {
    if s == [] then p else FeedAll(Feed(p, s[0]), s[1..])
  }

  function Finish(p: Parser): seq<string> {
    if p.prevSpace then p.args else p.args + [p.cur]
  }

  function Parse(line: string): seq<string> {
    Finish(FeedAll(START, line))
  }

  // ---------------------------------------------------------------- the round trip

  lemma {:induction false} FeedConcat(p: Parser, a: string, b: string)
    ensures FeedAll(p, a + b) == FeedAll(FeedAll(p, a), b)
    decreases |a|
  {
    if a == [] {
      assert a + b == b;
    } else {
      assert (a + b)[1..] == a[1..] + b;
      FeedConcat(Feed(p, a[0]), a[1..], b);
    }
  }

  lemma FeedOne(p: Parser, c: char)
    ensures FeedAll(p, [c]) == Feed(p, c)
  {
    assert [c][1..] == [];
  }

  lemma {:induction false} FeedSlashes(p: Parser, n: nat)
    ensures FeedAll(p, Slashes(n)) == p.(nb := p.nb + n, prevSpace := if n > 0 then false else p.prevSpace)
    decreases n
  {
    if n > 0 {
      assert Slashes(n)[1..] == Slashes(n - 1);
      FeedSlashes(Feed(p, '\\'), n - 1);
    }
  }

  /** Backslashes followed by one more character. */
  lemma FeedRun(p: Parser, n: nat, c: char)
    requires !p.prevSpace
    ensures FeedAll(p, Slashes(n) + [c]) == Feed(p.(nb := p.nb + n), c)
  {
    FeedConcat(p, Slashes(n), [c]);
    FeedSlashes(p, n);
    FeedOne(p.(nb := p.nb + n), c);
  }

  /** Reading the escaped rest inside quotes restores the held backslashes and the rest, and closes. */
  lemma {:induction false} ReadsBack(p: Parser, src: string, nb: nat)
    requires p.inQuotes && p.nb == 0 && !p.prevSpace
    ensures FeedAll(p, EscapeFrom(src, nb)) == p.(cur := p.cur + Slashes(nb) + src, inQuotes := false)
    decreases |src|
  {
    if src == [] {
      FeedRun(p, 2 * nb, '"');
      assert p.cur + Slashes(nb) + src == p.cur + Slashes(nb);
    } else {
      var c, rest := src[0], src[1..];
      if c == '\\' {
        ReadsBack(p, rest, nb + 1);
        assert Slashes(nb + 1) + rest == Slashes(nb) + src;
        assert p.cur + Slashes(nb + 1) + rest == p.cur + Slashes(nb) + src;
      } else {
        var k := if c == '"' then 2 * nb + 1 else nb;
        var q := p.(cur := p.cur + Slashes(nb) + [c]);
        assert EscapeFrom(src, nb) == Slashes(k) + [c] + EscapeFrom(rest, 0) by {
          if c == '"' { assert Slashes(2 * nb) + ['\\', '"'] == Slashes(k) + [c]; }
        }
        FeedConcat(p, Slashes(k) + [c], EscapeFrom(rest, 0));
        FeedRun(p, k, c);
        assert Feed(p.(nb := k), c) == q;
        ReadsBack(q, rest, 0);
        assert q.cur + Slashes(0) + rest == p.cur + Slashes(nb) + src;
      }
    }
  }

  /** One escaped argument, read outside quotes, becomes the current argument. */
  lemma ReadsArgument(p: Parser, arg: string)
    requires !p.inQuotes && p.nb == 0 && p.cur == []
    ensures FeedAll(p, Escape(arg)) == Parser(p.args, arg, 0, false, false)
  {
    var q := Parser(p.args, [], 0, true, false);
    FeedConcat(p, ['"'], EscapeFrom(arg, 0));
    FeedOne(p, '"');
    assert [] + Slashes(0) == [];
    assert Feed(p, '"') == q;
    ReadsBack(q, arg, 0);
    assert [] + Slashes(0) + arg == arg;
  }

  lemma {:induction false} ReadsLine(args: seq<string>)
    requires args != []
    ensures FeedAll(START, Join(EscapeAll(args), ' ')) == Parser(args[..|args| - 1], args[|args| - 1], 0, false, false)
    decreases |args|
  {
    var n := |args| - 1;
    var front, last := args[..n], args[n];
    var esc := EscapeAll(args);
    EscapeAllSize(args);
    assert esc[..n] == EscapeAll(front);
    if n == 0 {
      assert esc == [Escape(last)];
      ReadsArgument(START, last);
    } else {
      ReadsLine(front);
      var line := Join(EscapeAll(front), ' ');
      assert Join(esc, ' ') == line + ([' '] + Escape(last));
      FeedConcat(START, line, [' '] + Escape(last));
      var p := FeedAll(START, line);
      FeedConcat(p, [' '], Escape(last));
      FeedOne(p, ' ');
      assert front[..n - 1] + [front[n - 1]] == front;
      ReadsArgument(Parser(front, [], 0, false, true), last);
    }
  }

  lemma {:induction false} EscapeAllSize(args: seq<string>)
    ensures |EscapeAll(args)| == |args|
    ensures forall i :: 0 <= i < |args| ==> EscapeAll(args)[i] == Escape(args[i])
  {
    if args != [] { EscapeAllSize(args[..|args| - 1]); }
  }

  /** Parsing the space-joined escaped arguments returns exactly the original list. */
  lemma RoundTrip(args: seq<string>)
    requires args != []
    ensures Parse(Join(EscapeAll(args), ' ')) == args
  {
    ReadsLine(args);
    assert args[..|args| - 1] + [args[|args| - 1]] == args;
  }
}
