/**
 The text layer of file descriptors (src/file-win32.c, src/utils-win32.h): reading converts CRLF to
 LF in place, chunk by chunk, carrying one character from one chunk to the next in the descriptor's
 info word; writing expands LF to CRLF and corrects the count that the system reports.
 */
module Crlf {
  import opened Basics

  const CR: byte := 13
  const LF: byte := 10

  // ---------------------------------------------------------------- the carried character

  /** The 32-bit info word: a carry flag in bit 6 and a carried character in bits 24-31. */
  type Info = w: int | 0 <= w < 0x1_0000_0000

  const FLAG_CARRY := 0x40
  const CARRY_UNIT := 0x100_0000

  predicate HasCarry(info: Info) {
    info / FLAG_CARRY % 2 == 1
  }

  function SetCarryChar(info: Info, ch: byte): Info {
    info % CARRY_UNIT + ch * CARRY_UNIT + if HasCarry(info) then 0 else FLAG_CARRY
  }

  function GetCarryChar(info: Info): byte {
    info / CARRY_UNIT
  }

  function DropCarry(info: Info): Info {
    if HasCarry(info) then info - FLAG_CARRY else info
  }

  /** The character carried by the info word, as a sequence of at most one. */
  function Carried(info: Info): seq<byte> {
    if HasCarry(info) then [GetCarryChar(info)] else []
  }

  /** The type and the other flags of the descriptor. */
  function OtherBits(info: Info): int {
    DropCarry(info) % CARRY_UNIT
  }

  /** The bits of an info word: below the flag, the flag, between flag and character, the character. */
  lemma InfoParts(info: Info, a: int, f: int, m: int, c: int)
    requires 0 <= a < 64 && 0 <= f <= 1 && 0 <= m < 0x2_0000 && 0 <= c < 256
    requires info == a + 64 * f + 128 * m + CARRY_UNIT * c
    ensures HasCarry(info) <==> f == 1
    ensures GetCarryChar(info) == c && info % CARRY_UNIT == a + 64 * f + 128 * m
  {
    assert info / FLAG_CARRY == f + 2 * (m + 0x2_0000 * c);
  }

  lemma CarryRoundTrip(info: Info, ch: byte)
    ensures Carried(SetCarryChar(info, ch)) == [ch]
    ensures Carried(DropCarry(info)) == []
    ensures OtherBits(SetCarryChar(info, ch)) == OtherBits(info) == OtherBits(DropCarry(info))
  {
    var a, f, m, c := info % 64, info / 64 % 2, info / 128 % 0x2_0000, info / CARRY_UNIT;
    assert info == a + 64 * f + 128 * m + CARRY_UNIT * c by {
      assert info == a + 64 * (info / 64) && info / 64 == f + 2 * (info / 128);
      assert info / 128 == m + 0x2_0000 * (info / 128 / 0x2_0000) && info / 128 / 0x2_0000 == c;
    }
    hide HasCarry, GetCarryChar;
    InfoParts(info, a, f, m, c);
    InfoParts(SetCarryChar(info, ch), a, 1, m, ch);
    InfoParts(DropCarry(info), a, 0, m, c);
    InfoParts(DropCarry(SetCarryChar(info, ch)), a, 0, m, ch);
    assert DropCarry(DropCarry(info)) == DropCarry(info);
  }

  // ---------------------------------------------------------------- the whole stream

  /** The input with each CR directly before LF removed. */
  function Strip(s: seq<byte>): seq<byte> {
    if s == [] then []
    else if |s| >= 2 && s[0] == CR && s[1] == LF then Strip(s[1..])
    else [s[0]] + Strip(s[1..])
  }

  /** The input with a CR inserted before each LF. */
  function Expand(s: seq<byte>): seq<byte> {
    if s == [] then []
    else (if s[0] == LF then [CR, LF] else [s[0]]) + Expand(s[1..])
  }

  lemma StripCons(c: byte, y: seq<byte>)
    ensures Strip([c] + y) == (if c == CR && y != [] && y[0] == LF then [] else [c]) + Strip(y)
  {
    assert ([c] + y)[1..] == y;
  }

  /** What is stripped before a character does not depend on what follows that character. */
  lemma {:induction false} StripSplit(p: seq<byte>, c: byte, y: seq<byte>)
    ensures var s := Strip(p + [c]);
            s != [] && s[|s| - 1] == c && Strip(p + [c] + y) == s[..|s| - 1] + Strip([c] + y)
    decreases |p|
  {
    var s := Strip(p + [c]);
    if p == [] {
      assert p + [c] == [c] && p + [c] + y == [c] + y;
      assert [c][1..] == [];
    } else {
      var d, q := p[0], p[1..];
      StripSplit(q, c, y);
      assert p + [c] == [d] + (q + [c]) && p + [c] + y == [d] + (q + [c] + y);
      StripCons(d, q + [c]);
      StripCons(d, q + [c] + y);
      assert (q + [c])[0] == (q + [c] + y)[0];
      var t := Strip(q + [c]);
      if d == CR && (q + [c])[0] == LF {
        assert s == t;
      } else {
        assert s == [d] + t;
        assert s[..|s| - 1] == [d] + t[..|t| - 1];
        assert s[..|s| - 1] + Strip([c] + y) == [d] + (t[..|t| - 1] + Strip([c] + y));
      }
    }
  }

  lemma {:induction false} StripNotLonger(s: seq<byte>)
    ensures |Strip(s)| <= |s|
  {
    if s != [] { StripNotLonger(s[1..]); }
  }

  /** Appending one character: either it completes a CRLF, or it is simply appended. */
  lemma StripSnoc(p: seq<byte>, prev: byte, c: byte)
    ensures var s := Strip(p + [prev]);
            s != [] && s[|s| - 1] == prev &&
            Strip(p + [prev] + [c]) == (if prev == CR && c == LF then s[..|s| - 1] else s) + [c]
  {
    StripSplit(p, prev, [c]);
    StripCons(prev, [c]);
    assert Strip([c]) == [c] by { assert [c][1..] == []; }
    var s := Strip(p + [prev]);
    assert s == s[..|s| - 1] + [prev];
  }

  /** The three laws that fix the conversion: single bytes stay, CR LF becomes LF, and pieces convert on their own. */
  lemma StripLaws(a: seq<byte>, b: seq<byte>, c: byte)
    ensures Strip([c]) == [c] && Strip([CR, LF]) == [LF]
    ensures !(a != [] && b != [] && a[|a| - 1] == CR && b[0] == LF) ==> Strip(a + b) == Strip(a) + Strip(b)
  {
    assert [c][1..] == [] && [CR, LF][1..] == [LF] && [LF][1..] == [];
    if a == [] {
      assert a + b == b;
    } else if !(b != [] && a[|a| - 1] == CR && b[0] == LF) {
      hide Strip;
      var p, d := a[..|a| - 1], a[|a| - 1];
      assert a == p + [d];
      StripSplit(p, d, b);
      StripCons(d, b);
      LastBack(Strip(a), Strip(b));
    }
  }

  // ---------------------------------------------------------------- one chunk

  /** Converting one chunk: the output and the character carried on. */
  function Convert(carry: seq<byte>, chunk: seq<byte>, maxsz: nat): (seq<byte>, seq<byte>)
    requires chunk != []
  {
    var s, last := Strip(carry + chunk), chunk[|chunk| - 1];
    if s == [] then ([], [])
    else if last == CR || |s| > maxsz then (s[..|s| - 1], [last])
    else (s, [])
  }

  /** The conversion loop after `j` characters: `prev` is pending, the rest of the prefix is in place. */
  ghost predicate Converted(carry: seq<byte>, chunk: seq<byte>, j: nat, prev: byte, out: seq<byte>) {
    && j <= |chunk| && (carry != [] || j > 0)
    && (var p := carry + chunk[..j]; p[|p| - 1] == prev && Strip(p) == out + [prev])
  }

  lemma ConvertedStep(carry: seq<byte>, chunk: seq<byte>, j: nat, prev: byte, out: seq<byte>)
    requires Converted(carry, chunk, j, prev, out) && j < |chunk|
    ensures Converted(carry, chunk, j + 1, chunk[j], if prev == CR && chunk[j] == LF then out else out + [prev])
  {
    var p := carry + chunk[..j];
    var q := p[..|p| - 1];
    assert p == q + [prev];
    StripSnoc(q, prev, chunk[j]);
    assert carry + chunk[..j + 1] == p + [chunk[j]];
  }

  lemma ConvertedSize(carry: seq<byte>, chunk: seq<byte>, j: nat, prev: byte, out: seq<byte>)
    requires Converted(carry, chunk, j, prev, out)
    ensures |out| + 1 <= |carry| + j
  {
    StripNotLonger(carry + chunk[..j]);
  }

  /**
   The in-place loop. `dst` never passes `src`, so no unread character is overwritten, and nothing is
   written at or beyond `maxsz`.
   */
  method ConvertLoop(buf: array<byte>, start: nat, first: byte, rsz: nat, maxsz: nat, ghost carry: seq<byte>)
    returns (prev: byte, dst: nat)
    requires start <= rsz <= maxsz <= buf.Length && |carry| + start > 0
    requires Converted(carry, buf[..rsz], start, first, [])
    modifies buf
    ensures dst <= rsz && Converted(carry, old(buf[..rsz]), rsz, prev, buf[..dst])
    ensures buf[maxsz..] == old(buf[maxsz..])
  {
    ghost var chunk := buf[..rsz];
    var src := start;
    prev, dst := first, 0;
    assert buf[..dst] == [];
    while src < rsz
      invariant src <= rsz && dst <= src && |carry| + src > 0
      invariant Converted(carry, chunk, src, prev, buf[..dst])
      invariant forall i :: src <= i < rsz ==> buf[i] == chunk[i]
      invariant buf[maxsz..] == old(buf[maxsz..])
    {
      hide Converted;
      var curr := buf[src];
      ConvertedStep(carry, chunk, src, prev, buf[..dst]);
      ConvertedSize(carry, chunk, src, prev, buf[..dst]);
      if !(prev == CR && curr == LF) {
        ghost var out := buf[..dst] + [prev];
        buf[dst] := prev;
        dst := dst + 1;
        assert buf[..dst] == out;
      }
      prev := curr;
      src := src + 1;
    }
  }

  /** Converts one chunk in place, with the character carried in and the one carried on. */
  method ConvCrlfToLf(info: Info, buf: array<byte>, rsz: nat, maxsz: nat) returns (info': Info, n: nat)
    requires 0 < rsz <= maxsz <= buf.Length
    modifies buf
    ensures n <= maxsz
    ensures (buf[..n], Carried(info')) == Convert(Carried(info), old(buf[..rsz]), maxsz)
    ensures OtherBits(info') == OtherBits(info)
    ensures buf[maxsz..] == old(buf[maxsz..])
  {
    hide Converted, Convert, OtherBits;
    ghost var chunk, carry := buf[..rsz], Carried(info);
    var prev: byte;
    var src := 0;
    var fdInfo := info;
    CarryRoundTrip(info, 0);
    if HasCarry(info) {
      prev := GetCarryChar(info);
      fdInfo := DropCarry(info);
    } else {
      prev := buf[0];
      src := 1;
    }
    Starting(carry, chunk, src, prev);
    var dst;
    prev, dst := ConvertLoop(buf, src, prev, rsz, maxsz, carry);
    Ending(carry, chunk, prev, buf[..dst], maxsz);
    CarryRoundTrip(fdInfo, prev);
    if prev == CR || dst == maxsz {
      info' := SetCarryChar(fdInfo, prev);
    } else {
      ghost var out := buf[..dst] + [prev];
      buf[dst] := prev;
      dst := dst + 1;
      info' := fdInfo;
      assert buf[..dst] == out;
    }
    n := dst;
  }

  lemma Starting(carry: seq<byte>, chunk: seq<byte>, src: nat, prev: byte)
    requires src <= |chunk| && carry + chunk[..src] == [prev]
    ensures Converted(carry, chunk, src, prev, [])
  {
    assert [prev][1..] == [];
    assert Strip([prev]) == [] + [prev];
  }

  lemma Ending(carry: seq<byte>, chunk: seq<byte>, prev: byte, out: seq<byte>, maxsz: nat)
    requires chunk != [] && |carry| <= 1 && |chunk| <= maxsz && Converted(carry, chunk, |chunk|, prev, out)
    ensures |out| <= maxsz
    ensures Convert(carry, chunk, maxsz) == if prev == CR || |out| == maxsz then (out, [prev]) else (out + [prev], [])
  {
    ConvertedSize(carry, chunk, |chunk|, prev, out);
    assert chunk[..|chunk|] == chunk;
    var s := Strip(carry + chunk);
    assert s[..|s| - 1] == out;
  }

  /** As much as possible is delivered: a character is carried on only if it is a CR or the buffer is full. */
  lemma DeliversMost(carry: seq<byte>, chunk: seq<byte>, maxsz: nat)
    requires |carry| <= 1 && 0 < |chunk| <= maxsz
    ensures var (o, k) := Convert(carry, chunk, maxsz);
            && (k == [] <==> chunk[|chunk| - 1] != CR && |Strip(carry + chunk)| <= maxsz)
            && (k != [] && chunk[|chunk| - 1] != CR ==> |o| == maxsz)
  {
    hide Strip;
    var x := carry + chunk;
    assert x == x[..|x| - 1] + [x[|x| - 1]];
    StripSplit(x[..|x| - 1], x[|x| - 1], []);
    StripNotLonger(x);
  }

  // ---------------------------------------------------------------- any chunking

  datatype Chunk = Chunk(data: seq<byte>, maxsz: nat)

  ghost predicate Readable(chunks: seq<Chunk>) {
    forall i :: 0 <= i < |chunks| ==> 0 < |chunks[i].data| <= chunks[i].maxsz
  }

  ghost function Input(chunks: seq<Chunk>): seq<byte> {
    if chunks == [] then [] else Input(chunks[..|chunks| - 1]) + chunks[|chunks| - 1].data
  }

  /** Threading the carried character through the conversions: all outputs, and what is carried last. */
  ghost function Stream(chunks: seq<Chunk>): (seq<byte>, seq<byte>)
    requires Readable(chunks)
  {
    if chunks == [] then ([], [])
    else
      var (out, carry) := Stream(chunks[..|chunks| - 1]);
      var c := chunks[|chunks| - 1];
      var (o, k) := Convert(carry, c.data, c.maxsz);
      (out + o, k)
  }

  /** What was carried is the last character read, and a final CR is always carried. */
  ghost predicate CarryOk(input: seq<byte>, carry: seq<byte>) {
    |carry| <= 1 && (carry != [] ==> input != [] && carry[0] == input[|input| - 1])
    && (input != [] && input[|input| - 1] == CR ==> carry != [])
  }

  lemma LastBack(s: seq<byte>, t: seq<byte>)
    requires s != []
    ensures s[..|s| - 1] + ([s[|s| - 1]] + t) == s + t
  {
  }

  lemma ContinueAfter(p: seq<byte>, c: byte, out: seq<byte>, carry: seq<byte>, y: seq<byte>)
    requires Strip(p + [c]) == out + carry && (carry == [c] || (carry == [] && c != CR))
    ensures Strip(p + [c] + y) == out + Strip(carry + y)
  {
    hide Strip;
    StripSplit(p, c, y);
    StripCons(c, y);
    if carry == [c] {
      assert (out + carry)[..|out + carry| - 1] == out;
    } else {
      assert carry + y == y && out + carry == out;
      LastBack(out, Strip(y));
    }
  }

  /** Extending the input by `y` extends the conversion by the conversion of the carried character and `y`. */
  lemma Continue(x: seq<byte>, out: seq<byte>, carry: seq<byte>, y: seq<byte>)
    requires Strip(x) == out + carry && CarryOk(x, carry)
    ensures Strip(x + y) == out + Strip(carry + y)
  {
    if x == [] {
      assert out == [] && carry == [] && x + y == y && carry + y == y;
    } else {
      assert x == x[..|x| - 1] + [x[|x| - 1]];
      ContinueAfter(x[..|x| - 1], x[|x| - 1], out, carry, y);
    }
  }

  /**
   Streaming refines the whole-stream conversion: however the input is split into non-empty chunks and
   whatever the buffer sizes, the outputs followed by the carried character are the stripped input.
   */
  lemma {:induction false} StreamStrips(chunks: seq<Chunk>)
    requires Readable(chunks)
    ensures var (out, carry) := Stream(chunks);
            out + carry == Strip(Input(chunks)) && CarryOk(Input(chunks), carry)
  {
    if chunks != [] {
      hide Strip, Convert;
      var front, c := chunks[..|chunks| - 1], chunks[|chunks| - 1];
      StreamStrips(front);
      var (out, carry) := Stream(front);
      var x := Input(front);
      Continue(x, out, carry, c.data);
      ConvertSplits(carry, c.data, c.maxsz);
      var (o, k) := Convert(carry, c.data, c.maxsz);
      assert (out + o) + k == out + (o + k);
    }
  }

  lemma ConvertSplits(carry: seq<byte>, chunk: seq<byte>, maxsz: nat)
    requires chunk != []
    ensures var (o, k) := Convert(carry, chunk, maxsz);
            o + k == Strip(carry + chunk) && |k| <= 1 && (k != [] ==> k[0] == chunk[|chunk| - 1])
            && (chunk[|chunk| - 1] == CR ==> k != [])
  {
    hide Strip;
    var x := carry + chunk;
    var p, c := x[..|x| - 1], x[|x| - 1];
    assert x == p + [c];
    StripSplit(p, c, []);
    var s := Strip(x);
    assert s == s[..|s| - 1] + [c];
  }

  // ---------------------------------------------------------------- writing

  /** Reading back what the writer emits gives the original text, CR and CRLF in it included. */
  lemma {:induction false} StripExpand(s: seq<byte>)
    ensures Strip(Expand(s)) == s
  {
    if s != [] {
      var e := Expand(s[1..]);
      StripExpand(s[1..]);
      if s[0] == LF {
        assert [CR, LF] + e == [CR] + ([LF] + e);
        StripCons(CR, [LF] + e);
        StripCons(LF, e);
        assert [] + Strip([LF] + e) == Strip([LF] + e);
      } else {
        StripCons(s[0], e);
        ExpandHead(s[1..]);
      }
    }
  }

  lemma ExpandHead(s: seq<byte>)
    ensures Expand(s) != [] ==> Expand(s)[0] != LF
  {
  }

  /** The round trip through any chunking, the last carried character counted. */
  lemma WriteThenRead(text: seq<byte>, chunks: seq<Chunk>)
    requires Readable(chunks) && Input(chunks) == Expand(text)
    ensures Stream(chunks).0 + Stream(chunks).1 == text
  {
    StreamStrips(chunks);
    StripExpand(text);
  }

  /** Number of source bytes whose expansion lies completely within the first `r` bytes. */
  function Complete(s: seq<byte>, r: nat): nat {
    if s == [] then 0
    else
      var n := if s[0] == LF then 2 else 1;
      if n > r then 0 else 1 + Complete(s[1..], r - n)
  }

  /** The first `r` bytes end between an inserted CR and its LF. */
  predicate CutInPair(s: seq<byte>, r: nat) {
    if s == [] || r == 0 then false
    else if s[0] == LF then r == 1 || CutInPair(s[1..], r - 2)
    else CutInPair(s[1..], r - 1)
  }

  /** Number of CR LF pairs among the given bytes. */
  function Pairs(e: seq<byte>): nat {
    if |e| < 2 then 0
    else Pairs(e[..|e| - 1]) + if e[|e| - 2] == CR && e[|e| - 1] == LF then 1 else 0
  }

  lemma {:induction false} PairsFront(c: byte, e: seq<byte>)
    ensures Pairs([c] + e) == Pairs(e) + if c == CR && e != [] && e[0] == LF then 1 else 0
    decreases |e|
  {
    if |e| >= 2 {
      assert ([c] + e)[..|[c] + e| - 1] == [c] + e[..|e| - 1];
      PairsFront(c, e[..|e| - 1]);
    } else if |e| == 1 {
      assert ([c] + e)[..1] == [c];
    }
  }

  lemma {:induction false} PairsOfExpansion(s: seq<byte>, r: nat)
    requires r <= |Expand(s)|
    ensures r - Pairs(Expand(s)[..r]) == Complete(s, r) + if CutInPair(s, r) then 1 else 0
    decreases |s|
  {
    if s != [] && r > 0 {
      var e := Expand(s[1..]);
      if s[0] != LF {
        assert Expand(s)[..r] == [s[0]] + e[..r - 1];
        PairsOfExpansion(s[1..], r - 1);
        PairsFront(s[0], e[..r - 1]);
        ExpandHead(s[1..]);
      } else if r >= 2 {
        assert Expand(s)[..r] == [CR] + ([LF] + e[..r - 2]);
        PairsOfExpansion(s[1..], r - 2);
        PairsFront(CR, [LF] + e[..r - 2]);
        PairsFront(LF, e[..r - 2]);
      }
    }
  }

  /** The corrected count is the number of source bytes written exactly when no CR LF pair was cut. */
  lemma CountExactly(s: seq<byte>, r: nat)
    requires r <= |Expand(s)|
    ensures r - Pairs(Expand(s)[..r]) == Complete(s, r) <==> !CutInPair(s, r)
  {
    PairsOfExpansion(s, r);
  }

  lemma {:induction false} ExpandSnoc(s: seq<byte>, c: byte)
    ensures Expand(s + [c]) == Expand(s) + if c == LF then [CR, LF] else [c]
  {
    if s == [] {
      assert [c][1..] == [] && s + [c] == [c];
    } else {
      assert (s + [c])[1..] == s[1..] + [c];
      ExpandSnoc(s[1..], c);
    }
  }

  lemma {:induction false} ExpandSize(s: seq<byte>)
    ensures |Expand(s)| <= 2 * |s|
  {
    if s != [] { ExpandSize(s[1..]); }
  }

  /** Copies the text with LF expanded; twice the size always suffices. */
  method ExpandText(text: seq<byte>) returns (sent: array<byte>, len: nat)
    ensures len <= sent.Length == 2 * |text| && sent[..len] == Expand(text)
  {
    sent := new byte[2 * |text|](_ => 0);
    len := 0;
    for i := 0 to |text|
      invariant len == |Expand(text[..i])| <= 2 * i && sent[..len] == Expand(text[..i])
    {
      ExpandSnoc(text[..i], text[i]);
      assert text[..i + 1] == text[..i] + [text[i]];
      ghost var e := sent[..len];
      if text[i] == LF {
        sent[len] := CR;
        len := len + 1;
      }
      sent[len] := text[i];
      len := len + 1;
      assert sent[..len] == e + if text[i] == LF then [CR, LF] else [text[i]];
    }
    assert text[..|text|] == text;
  }

  /** Removes from the count one for each CR LF pair among the first `written` bytes. */
  method CorrectCount(sent: array<byte>, written: nat) returns (rsz: int)
    requires written <= sent.Length
    ensures rsz == written - Pairs(sent[..written])
  {
    rsz := written;
    var i := 1;
    while i < written
      invariant 1 <= i && (i <= written || i == 1)
      invariant i <= written ==> rsz == written - Pairs(sent[..i])
      invariant i > written ==> rsz == written
    {
      assert sent[..i + 1][..i] == sent[..i];
      if sent[i - 1] == CR && sent[i] == LF {
        rsz := rsz - 1;
      }
      i := i + 1;
    }
  }

  /**
   The text write. `written` is what the system reports for the expanded buffer: a number of bytes, or
   -1, which is handed on.
   */
  method HndWriteText(text: seq<byte>, written: int) returns (sent: array<byte>, len: nat, rsz: int)
    requires -1 <= written <= |Expand(text)|
    ensures len <= sent.Length && sent[..len] == Expand(text)
    ensures written < 0 ==> rsz == written
    ensures written >= 0 ==> rsz == Complete(text, written) + if CutInPair(text, written) then 1 else 0
  {
    sent, len := ExpandText(text);
    if written < 0 {
      rsz := written;
    } else {
      PairsOfExpansion(text, written);
      assert sent[..written] == sent[..len][..written];
      rsz := CorrectCount(sent, written);
    }
  }
}
