/**
 The loops that print and parse command lines in memory (src/process-win32.c, src/startup-win32.c),
 proved against the functions of `CmdLine`, and the proof that the sizes computed in advance suffice.
 */
module CmdLineBuffers {
  import opened CmdLine
  import opened CmdLineFit

  ghost predicate NulFree(s: string) {
    '\0' !in s
  }

  /** Everything outside `[from, to)` is as it was in `before`. */
  ghost predicate OnlyWithin(before: seq<char>, after: seq<char>, from: nat, to: nat) {
    |after| == |before| &&
    forall i :: 0 <= i < |before| && !(from <= i < to) ==> after[i] == before[i]
  }

  // ---------------------------------------------------------------- printing

  /** Writes one character if there is a buffer at all. */
  method SetChar(dst: array?<char>, pos: nat, c: char)
    requires dst != null ==> pos < dst.Length
    modifies if dst == null then {} else {dst}
    ensures dst != null ==> dst[..] == old(dst[..])[pos := c]
  {
    if dst != null {
      dst[pos] := c;
    }
  }

  method SetSlashes(dst: array?<char>, pos: nat, n: nat)
    requires dst != null ==> pos + n <= dst.Length
    modifies if dst == null then {} else {dst}
    ensures dst != null ==> dst[pos..pos + n] == Slashes(n) && OnlyWithin(old(dst[..]), dst[..], pos, pos + n)
  {
    for k := 0 to n
      invariant dst != null ==> dst[pos..pos + k] == Slashes(k) && OnlyWithin(old(dst[..]), dst[..], pos, pos + k)
    {
      SetChar(dst, pos + k, '\\');
    }
  }

  /** `written` has been emitted; what is still to come completes the escaped string. */
  ghost predicate Emitting(src: string, k: nat, nb: nat, written: string) {
    k <= |src| && written + EscapeFrom(src[k..], nb) == Escape(src)
  }

  ghost predicate Holds(dst: array?<char>, at: nat, s: string)
    reads dst
  {
    dst != null ==> at + |s| <= dst.Length && dst[at..at + |s|] == s
  }

  lemma EmitStep(src: string, k: nat, nb: nat, written: string)
    requires Emitting(src, k, nb, written) && k < |src|
    ensures var c := src[k];
            if c == '\\' then Emitting(src, k + 1, nb + 1, written)
            else Emitting(src, k + 1, 0, written + (if c == '"' then Slashes(2 * nb) + ['\\', '"'] else Slashes(nb) + [c]))
    ensures src[k] != '\\' ==>
              |written| + (if src[k] == '"' then 2 * nb + 2 else nb + 1) <= |Escape(src)|
  {
    assert src[k..][1..] == src[k + 1..];
    var c := src[k];
    if c != '\\' {
      var out := if c == '"' then Slashes(2 * nb) + ['\\', '"'] else Slashes(nb) + [c];
      assert EscapeFrom(src[k..], nb) == out + EscapeFrom(src[k + 1..], 0);
      assert written + (out + EscapeFrom(src[k + 1..], 0)) == written + out + EscapeFrom(src[k + 1..], 0);
    }
  }

  /** Appends `nslash` backslashes and the characters `tail` to what was written at `at`. */
  method Emit(dst: array?<char>, at: nat, ghost written: string, i: nat, nslash: nat, tail: string)
    requires i == |written| && Holds(dst, at, written)
    requires dst != null ==> at + i + nslash + |tail| <= dst.Length
    modifies if dst == null then {} else {dst}
    ensures Holds(dst, at, written + Slashes(nslash) + tail)
    ensures dst != null ==> OnlyWithin(old(dst[..]), dst[..], at, at + i + nslash + |tail|)
  {
    SetSlashes(dst, at + i, nslash);
    ghost var w := written + Slashes(nslash);
    assert Holds(dst, at, w) by {
      if dst != null { assert dst[at..at + |w|] == dst[at..at + i] + dst[at + i..at + i + nslash]; }
    }
    for k := 0 to |tail|
      invariant Holds(dst, at, w + tail[..k])
      invariant dst != null ==> OnlyWithin(old(dst[..]), dst[..], at, at + i + nslash + k)
    {
      SetChar(dst, at + i + nslash + k, tail[k]);
      assert tail[..k + 1] == tail[..k] + [tail[k]];
    }
    assert tail[..|tail|] == tail;
  }

  lemma Widen(a: seq<char>, b: seq<char>, c: seq<char>, lo: nat, mid: nat, hi: nat)
    requires OnlyWithin(a, b, lo, mid) && OnlyWithin(b, c, lo, hi) && mid <= hi
    ensures OnlyWithin(a, c, lo, hi)
  {
  }

  /** One round of the escaping loop. */
  method EmitNext(dst: array?<char>, at: nat, src: string, k: nat, nb: nat, i: nat, ghost written: string)
      returns (nb': nat, i': nat, ghost written': string)
    requires k < |src| && i == |written| && Emitting(src, k, nb, written) && Holds(dst, at, written)
    requires dst != null ==> at + |Escape(src)| <= dst.Length
    modifies if dst == null then {} else {dst}
    ensures i' == |written'| >= i && Emitting(src, k + 1, nb', written') && Holds(dst, at, written')
    ensures dst != null ==> OnlyWithin(old(dst[..]), dst[..], at, at + i')
  {
    hide Emitting, Escape, Holds;
    EmitStep(src, k, nb, written);
    if src[k] == '\\' {
      return nb + 1, i, written;
    }
    ghost var slashes := Slashes(if src[k] == '"' then 2 * nb else nb);
    if src[k] == '"' {
      Emit(dst, at, written, i, 2 * nb, ['\\', '"']);
      assert written + slashes + ['\\', '"'] == written + (slashes + ['\\', '"']);
      return 0, i + 2 * nb + 2, written + slashes + ['\\', '"'];
    }
    Emit(dst, at, written, i, nb, [src[k]]);
    assert written + slashes + [src[k]] == written + (slashes + [src[k]]);
    return 0, i + nb + 1, written + slashes + [src[k]];
  }

  /** Escapes one argument at `at`, or with a null buffer only counts the characters needed. */
  method EscapeCmdStr(dst: array?<char>, at: nat, src: string) returns (i: nat)
    requires NulFree(src)
    requires dst != null ==> at + |Escape(src)| + 1 <= dst.Length
    modifies if dst == null then {} else {dst}
    ensures i == |Escape(src)| + 1
    ensures Holds(dst, at, Escape(src) + ['\0'])
    ensures dst != null ==> OnlyWithin(old(dst[..]), dst[..], at, at + i)
  {
    var nbackslash := 0;
    ghost var written: string := ['"'];
    Emit(dst, at, [], 0, 0, ['"']);
    assert [] + Slashes(0) + ['"'] == written;
    i := 1;
    assert src[0..] == src;
    for k := 0 to |src|
      invariant i == |written| && Emitting(src, k, nbackslash, written) && Holds(dst, at, written)
      invariant dst != null ==> OnlyWithin(old(dst[..]), dst[..], at, at + i)
    {
      hide Emitting, Escape, Holds, OnlyWithin;
      ghost var before, j := if dst != null then dst[..] else [], i;
      nbackslash, i, written := EmitNext(dst, at, src, k, nbackslash, i, written);
      if dst != null {
        Widen(old(dst[..]), before, dst[..], at, at + j, at + i);
      }
    }
    assert src[|src|..] == [];
    assert written + Slashes(2 * nbackslash) + ['"'] == Escape(src);
    Emit(dst, at, written, i, 2 * nbackslash, ['"', '\0']);
    assert written + Slashes(2 * nbackslash) + ['"', '\0'] == Escape(src) + ['\0'];
    i := i + 2 * nbackslash + 2;
  }

  /** The escaped string of argument `j` stands, with its terminator, at its recorded offset. */
  ghost predicate Stored(block: seq<char>, at: nat, arg: string) {
    at + |Escape(arg)| + 1 <= |block| && block[at..at + |Escape(arg)| + 1] == Escape(arg) + ['\0']
  }

  /** Where argument `i` starts, the table of `argc + 1` pointers coming first. */
  ghost function OffsetOf(argv: seq<string>, i: nat): nat
    requires i <= |argv|
  {
    if i == 0 then (|argv| + 1) * 8 else OffsetOf(argv, i - 1) + |Escape(argv[i - 1])| + 1
  }

  lemma {:induction false} OffsetsGrow(argv: seq<string>, i: nat, j: nat)
    requires i < j <= |argv|
    ensures OffsetOf(argv, i) + |Escape(argv[i])| + 1 <= OffsetOf(argv, j)
    decreases j
  {
    if i < j - 1 { OffsetsGrow(argv, i, j - 1); }
  }

  /** The strings written so far survive a change beyond them. */
  lemma StillStored(before: seq<char>, after: seq<char>, at: nat, arg: string, from: nat)
    requires Stored(before, at, arg) && at + |Escape(arg)| + 1 <= from
    requires |after| >= |before| && forall i :: 0 <= i < |before| && i < from ==> after[i] == before[i]
    ensures Stored(after, at, arg)
  {
    var n := at + |Escape(arg)| + 1;
    assert after[at..n] == before[at..n];
  }

  /** Doubles the block until `need` fits. */
  method Grow(block: array<char>, need: nat) returns (r: array<char>)
    requires block.Length > 0
    ensures need <= r.Length && block.Length <= r.Length
    ensures r[..block.Length] == block[..]
    ensures r == block || fresh(r)
  {
    if need <= block.Length {
      return block;
    }
    var maxlen := block.Length;
    while maxlen < need
      invariant 0 < maxlen && block.Length <= maxlen
      decreases need - maxlen
    {
      maxlen := maxlen * 2;
    }
    r := new char[maxlen](i requires 0 <= i reads block => if i < block.Length then block[i] else '\0');
    assert r[..block.Length] == block[..];
  }

  /** The first `n` arguments stand in the block. */
  ghost predicate AllStored(block: seq<char>, argv: seq<string>, n: nat)
    requires n <= |argv|
  {
    forall j :: 0 <= j < n ==> Stored(block, OffsetOf(argv, j), argv[j])
  }

  lemma StillAllStored(before: seq<char>, after: seq<char>, argv: seq<string>, n: nat)
    requires n < |argv| && AllStored(before, argv, n)
    requires |after| >= |before| && forall i :: 0 <= i < |before| && i < OffsetOf(argv, n) ==> after[i] == before[i]
    ensures AllStored(after, argv, n)
  {
    forall j | 0 <= j < n ensures Stored(after, OffsetOf(argv, j), argv[j]) {
      OffsetsGrow(argv, j, n);
      StillStored(before, after, OffsetOf(argv, j), argv[j], OffsetOf(argv, n));
    }
  }

  lemma OneMoreStored(block: seq<char>, argv: seq<string>, n: nat)
    requires n < |argv| && AllStored(block, argv, n) && Stored(block, OffsetOf(argv, n), argv[n])
    ensures AllStored(block, argv, n + 1)
  {
  }

  /** The recorded offsets are where the strings stand. */
  ghost predicate TableOk(offsets: seq<nat>, argv: seq<string>) {
    |offsets| <= |argv| && forall j :: 0 <= j < |offsets| ==> offsets[j] == OffsetOf(argv, j)
  }

  lemma TableSnoc(offsets: seq<nat>, argv: seq<string>)
    requires TableOk(offsets, argv) && |offsets| < |argv|
    ensures TableOk(offsets + [OffsetOf(argv, |offsets|)], argv)
  {
    hide OffsetOf;
  }

  /** One turn of the cloning loop: count, grow if needed, write. */
  method AddArgument(block: array<char>, argv: seq<string>, i: nat, index: nat) returns (r: array<char>, next: nat)
    requires i < |argv| && NulFree(argv[i]) && index == OffsetOf(argv, i) && block.Length >= 256
    requires AllStored(block[..], argv, i)
    modifies block
    ensures r == block || fresh(r)
    ensures r.Length >= block.Length && next == OffsetOf(argv, i + 1) <= r.Length
    ensures AllStored(r[..], argv, i + 1)
  {
    hide Stored, Escape, AllStored, Holds;
    var len := EscapeCmdStr(null, 0, argv[i]);
    r := Grow(block, index + len);
    ghost var before := r[..];
    StillAllStored(block[..], before, argv, i);
    var n := EscapeCmdStr(r, index, argv[i]);
    StillAllStored(before, r[..], argv, i);
    StoredHere(r, index, argv[i]);
    OneMoreStored(r[..], argv, i);
    next := index + n;
  }

  /**
   Clones the argument array in escaped form. The count made with a null destination is exactly what
   the second pass writes, and the pointer table lies within the block whenever it is written.
   */
  method EscapeArgv(argv: seq<string>) returns (block: array<char>, offsets: seq<nat>)
    requires forall i :: 0 <= i < |argv| ==> NulFree(argv[i])
    ensures fresh(block)
    ensures |offsets| == |argv| && TableOk(offsets, argv)
    ensures AllStored(block[..], argv, |argv|)
    ensures (|argv| + 1) * 8 <= block.Length
  {
    block := new char[256](_ => '\0');
    var index := (|argv| + 1) * 8;
    offsets := [];
    for i := 0 to |argv|
      invariant fresh(block) && block.Length >= 256 && |offsets| == i
      invariant index == OffsetOf(argv, i)
      invariant i > 0 ==> index <= block.Length
      invariant TableOk(offsets, argv)
      invariant AllStored(block[..], argv, i)
    {
      hide AllStored, OffsetOf, TableOk;
      TableStart(argv, i);
      TableSnoc(offsets, argv);
      assert 8 * (i + 1) <= block.Length;
      offsets := offsets + [index];
      block, index := AddArgument(block, argv, i, index);
    }
    TableStart(argv, |argv|);
  }

  lemma StoredHere(block: array<char>, at: nat, arg: string)
    requires Holds(block, at, Escape(arg) + ['\0'])
    ensures Stored(block[..], at, arg)
  {
  }

  lemma {:induction false} TableStart(argv: seq<string>, i: nat)
    requires i <= |argv|
    ensures OffsetOf(argv, i) >= (|argv| + 1) * 8
    decreases i
  {
    if i > 0 { TableStart(argv, i - 1); }
  }

  /** The buffer length computed by the first pass of the concatenation: one more than each string. */
  ghost function TotalLength(strv: seq<string>): nat {
    if strv == [] then 1 else TotalLength(strv[..|strv| - 1]) + |strv[|strv| - 1]| + 1
  }

  lemma {:induction false} JoinFits(strv: seq<string>, sep: char)
    ensures |Join(strv, sep)| + 1 <= TotalLength(strv)
    ensures strv != [] ==> |Join(strv, sep)| + 2 == TotalLength(strv)
  {
    if strv != [] {
      JoinFits(strv[..|strv| - 1], sep);
      if |strv| == 1 { assert strv[..0] == []; }
    }
  }

  lemma {:induction false} JoinPrefixFits(strv: seq<string>, i: nat)
    requires i <= |strv|
    ensures TotalLength(strv[..i]) <= TotalLength(strv)
    decreases |strv| - i
  {
    if i == |strv| {
      assert strv[..i] == strv;
    } else {
      JoinPrefixFits(strv, i + 1);
      assert strv[..i + 1][..i] == strv[..i];
    }
  }

  lemma JoinStep(strv: seq<string>, sep: char, i: nat)
    requires i < |strv|
    ensures Join(strv[..i + 1], sep) == (if i == 0 then [] else Join(strv[..i], sep) + [sep]) + strv[i]
    ensures |Join(strv[..i + 1], sep)| < TotalLength(strv)
  {
    assert strv[..i + 1][..i] == strv[..i];
    JoinFits(strv[..i + 1], sep);
    JoinPrefixFits(strv, i + 1);
  }

  /** Joins the strings with a separator into a buffer of the precomputed length. */
  method ConcatStrv(strv: seq<string>, sep: char) returns (buf: array<char>, len: nat)
    ensures buf.Length == TotalLength(strv) && len == |Join(strv, sep)| < buf.Length
    ensures buf[..len] == Join(strv, sep) && buf[len] == '\0'
  {
    var totLen := 1;
    for i := 0 to |strv|
      invariant totLen == TotalLength(strv[..i])
    {
      assert strv[..i + 1][..i] == strv[..i];
      totLen := totLen + |strv[i]| + 1;
    }
    assert strv[..|strv|] == strv;
    buf := new char[totLen](_ => '\0');
    len := 0;
    for i := 0 to |strv|
      invariant buf.Length == TotalLength(strv)
      invariant len == |Join(strv[..i], sep)| < buf.Length && buf[..len] == Join(strv[..i], sep)
    {
      hide Join, TotalLength;
      JoinStep(strv, sep, i);
      if i != 0 {
        buf[len] := sep;
        len := len + 1;
      }
      ghost var line := buf[..len];
      assert line + strv[i] == Join(strv[..i + 1], sep);
      CopyInto(buf, len, strv[i]);
      len := len + |strv[i]|;
      assert buf[..len] == line + strv[i];
    }
    JoinFits(strv, sep);
    buf[len] := '\0';
  }

  method CopyInto(buf: array<char>, at: nat, s: string)
    requires at + |s| <= buf.Length
    modifies buf
    ensures buf[at..at + |s|] == s && OnlyWithin(old(buf[..]), buf[..], at, at + |s|)
    ensures buf[..at] == old(buf[..at])
  {
    forall i | 0 <= i < |s| {
      buf[at + i] := s[i];
    }
  }

  // ---------------------------------------------------------------- parsing

  /** The estimate of the allocation: one argument more than there are spaces. */
  method MaxArguments(cmdline: string) returns (maxnarg: nat)
    ensures maxnarg == 1 + Spaces(cmdline)
  {
    maxnarg := 1;
    for i := 0 to |cmdline|
      invariant maxnarg == 1 + Spaces(cmdline[..i])
    {
      assert cmdline[..i + 1][..i] == cmdline[..i];
      if cmdline[i] == ' ' {
        maxnarg := maxnarg + 1;
      }
    }
    assert cmdline[..|cmdline|] == cmdline;
  }

  /** The finished arguments as they lie in the string pool, each with its terminator. */
  ghost function Flat(args: seq<string>): string {
    if args == [] then [] else Flat(args[..|args| - 1]) + args[|args| - 1] + ['\0']
  }

  ghost predicate StringAt(pool: seq<char>, at: int, s: string) {
    0 <= at && at + |s| < |pool| && pool[at..at + |s|] == s && pool[at + |s|] == '\0'
  }

  lemma {:induction false} FlatAt(args: seq<string>, i: nat)
    requires i < |args|
    ensures StringAt(Flat(args), |Flat(args[..i])|, args[i])
    decreases |args|
  {
    var n := |args| - 1;
    var front := args[..n];
    if i == n {
      var at := |Flat(front)|;
      assert Flat(args)[at..at + |args[i]|] == args[i];
    } else {
      FlatAt(front, i);
      assert front[..i] == args[..i];
      var at := |Flat(args[..i])|;
      assert Flat(args)[at..at + |args[i]|] == Flat(front)[at..at + |args[i]|];
    }
  }

  const NULL := -1

  /** The memory of the parser says what the parser state `p` says. */
  ghost predicate InMemory(p: Parser, argv: seq<int>, pool: seq<char>, argc: nat, str: nat) {
    && argc == |p.args| < |argv| && str <= |pool|
    && pool[..str] == Flat(p.args) + p.cur
    && PointersOk(p.args, argv)
  }

  ghost predicate PointersOk(args: seq<string>, argv: seq<int>) {
    |args| < |argv| && forall i :: 0 <= i <= |args| ==> argv[i] == |Flat(args[..i])|
  }

  /** Appends backslashes and at most one character to the string pool. */
  method Write(pool: array<char>, str: nat, nslash: nat, tail: string) returns (r: nat)
    requires str + nslash + |tail| <= pool.Length
    modifies pool
    ensures r == str + nslash + |tail|
    ensures pool[..r] == old(pool[..str]) + Slashes(nslash) + tail
  {
    SetSlashes(pool, str, nslash);
    assert pool[..str + nslash] == old(pool[..str]) + Slashes(nslash) by {
      assert pool[..str] == old(pool[..str]);
      assert pool[..str + nslash] == pool[..str] + pool[str..str + nslash];
    }
    CopyInto(pool, str + nslash, tail);
    r := str + nslash + |tail|;
    assert pool[..r] == pool[..str + nslash] + pool[str + nslash..r];
  }

  /** Ends the current argument and starts the next one. */
  method NextArgument(ghost p: Parser, argv: array<int>, pool: array<char>, argc: nat, str: nat)
    requires InMemory(p, argv[..], pool[..], argc, str) && argc + 1 < argv.Length && str < pool.Length
    modifies argv, pool
    ensures InMemory(p.(args := p.args + [p.cur], cur := [], prevSpace := true), argv[..], pool[..], argc + 1, str + 1)
  {
    pool[str] := '\0';
    argv[argc + 1] := str + 1;
    ghost var args := p.args + [p.cur];
    assert args[..|args| - 1] == p.args;
    assert Flat(args) == Flat(p.args) + p.cur + ['\0'];
    assert pool[..str + 1] == Flat(args) + [];
    assert PointersOk(args, argv[..]) by {
      forall i | 0 <= i <= |args| ensures argv[..][i] == |Flat(args[..i])| {
        if i <= argc {
          assert args[..i] == p.args[..i];
        } else {
          assert args[..i] == args;
        }
      }
    }
  }

  /** Extends the current argument by backslashes and at most one character. */
  method Extend(ghost p: Parser, argv: array<int>, pool: array<char>, argc: nat, str: nat, nslash: nat, tail: string)
    returns (r: nat)
    requires InMemory(p, argv[..], pool[..], argc, str) && str + nslash + |tail| <= pool.Length
    modifies pool
    ensures r == str + nslash + |tail|
    ensures InMemory(p.(cur := p.cur + Slashes(nslash) + tail), argv[..], pool[..], argc, r)
  {
    r := Write(pool, str, nslash, tail);
    assert Flat(p.args) + p.cur + Slashes(nslash) + tail == Flat(p.args) + (p.cur + Slashes(nslash) + tail);
  }

  /** One turn of the parsing loop; every character read makes room for one character written. */
  method Consume(c: char, ghost p: Parser, argv: array<int>, pool: array<char>, argc: nat, str: nat,
                 nb: nat, inQuotes: bool, prevSpace: bool)
    returns (argc': nat, str': nat, nb': nat, inQuotes': bool, prevSpace': bool)
    requires InMemory(p, argv[..], pool[..], argc, str)
    requires p.nb == nb && p.inQuotes == inQuotes && p.prevSpace == prevSpace
    requires str + nb < pool.Length && |Feed(p, c).args| < argv.Length
    modifies argv, pool
    ensures var q := Feed(p, c);
            && InMemory(q, argv[..], pool[..], argc', str')
            && q.nb == nb' && q.inQuotes == inQuotes' && q.prevSpace == prevSpace'
    ensures str' + nb' <= str + nb + 1
  {
    hide InMemory, Slashes;
    InMemorySize(p, argv[..], pool[..], argc, str);
    ghost var q := p;
    argc', str', nb', inQuotes', prevSpace' := argc, str, nb, inQuotes, prevSpace;
    if c == '\\' {
      nb', prevSpace' := nb + 1, false;
    } else if c == '"' {
      if nb % 2 == 0 {
        str' := Extend(p, argv, pool, argc, str, nb / 2, []);
        q := p.(cur := p.cur + Slashes(nb / 2) + []);
        assert p.cur + Slashes(nb / 2) + [] == p.cur + Slashes(nb / 2);
        inQuotes' := !inQuotes;
      } else {
        str' := Extend(p, argv, pool, argc, str, (nb - 1) / 2, ['"']);
        q := p.(cur := p.cur + Slashes((nb - 1) / 2) + ['"']);
      }
      nb', prevSpace' := 0, false;
    } else if IsSpace(c) && !inQuotes {
      if !prevSpace {
        NextArgument(p, argv, pool, argc, str);
        q := p.(args := p.args + [p.cur], cur := [], prevSpace := true);
        argc', str', prevSpace' := argc + 1, str + 1, true;
      }
    } else {
      str' := Extend(p, argv, pool, argc, str, nb, [c]);
      q := p.(cur := p.cur + Slashes(nb) + [c]);
      nb', prevSpace' := 0, false;
    }
    SameMemory(q, Feed(p, c), argv[..], pool[..], argc', str');
  }

  lemma SameMemory(p: Parser, q: Parser, argv: seq<int>, pool: seq<char>, argc: nat, str: nat)
    requires InMemory(p, argv, pool, argc, str) && q.args == p.args && q.cur == p.cur
    ensures InMemory(q, argv, pool, argc, str)
  {
  }

  /**
   The loop over all characters, up to the unterminated last argument; it stops before a pointer that
   would lie beyond the table.
   */
  method ParseLoop(cmdline: string, argv: array<int>, pool: array<char>)
    returns (ghost p: Parser, argc: nat, str: nat, prevSpace: bool, ok: bool)
    requires argv.Length == Spaces(cmdline) + 2 && pool.Length == |cmdline| + 1
    requires argv[0] == 0
    modifies argv, pool
    ensures ok ==> p == FeedAll(START, cmdline) && p.prevSpace == prevSpace
    ensures ok ==> InMemory(p, argv[..], pool[..], argc, str) && str <= |cmdline|
    ensures !ok ==> |FeedAll(START, cmdline).args| >= argv.Length
  {
    argc, str, prevSpace, ok := 0, 0, false, true;
    var nb: nat, inQuotes := 0, false;
    p := START;
    var k := 0;
    assert InMemory(p, argv[..], pool[..], argc, str);
    while k < |cmdline|
      invariant k <= |cmdline| && p == FeedAll(START, cmdline[..k])
      invariant InMemory(p, argv[..], pool[..], argc, str)
      invariant p.nb == nb && p.inQuotes == inQuotes && p.prevSpace == prevSpace
      invariant str + nb <= k
    {
      hide InMemory, FeedAll, Feed;
      FeedSnoc(cmdline, k);
      FeedArgs(p, cmdline[k]);
      PrefixArgs(cmdline, k + 1);
      InMemorySize(p, argv[..], pool[..], argc, str);
      if IsSpace(cmdline[k]) && !inQuotes && !prevSpace && argc + 1 >= argv.Length {
        ok := false;
        return;
      }
      argc, str, nb, inQuotes, prevSpace := Consume(cmdline[k], p, argv, pool, argc, str, nb, inQuotes, prevSpace);
      p := Feed(p, cmdline[k]);
      k := k + 1;
    }
    assert cmdline[..|cmdline|] == cmdline;
  }

  /**
   Parses a command line into a null-terminated array of offsets and a pool of terminated strings, both
   of the sizes computed in advance. The pool always suffices; `ok` tells whether the array does. If not,
   the next pointer lies beyond it, and the code writes it over the strings.
   */
  method ParseCmdline(cmdline: string) returns (argv: array<int>, argc: nat, pool: array<char>, ok: bool)
    requires NulFree(cmdline)
    ensures pool.Length == |cmdline| + 1 && argv.Length == Spaces(cmdline) + 2
    ensures ok <==> TableFits(cmdline)
    ensures ok ==> argc == |Parse(cmdline)| < argv.Length && argv[argc] == NULL
    ensures ok ==> forall i :: 0 <= i < argc ==> StringAt(pool[..], argv[i], Parse(cmdline)[i])
  {
    hide InMemory, FeedAll, StringAt, ScanLine;
    var maxnarg := MaxArguments(cmdline);
    argv := new int[maxnarg + 1](_ => NULL);
    pool := new char[|cmdline| + 1](_ => '\0');
    argv[0] := 0;
    FitsExactly(cmdline);
    ghost var p;
    var str, prevSpace;
    p, argc, str, prevSpace, ok := ParseLoop(cmdline, argv, pool);
    if !ok {
      return;
    }
    InMemorySize(p, argv[..], pool[..], argc, str);
    if !prevSpace {
      if argc + 1 >= argv.Length {
        ok := false;
        return;
      }
      NextArgument(p, argv, pool, argc, str);
      argc, str := argc + 1, str + 1;
      p := p.(args := p.args + [p.cur], cur := [], prevSpace := true);
      InMemorySize(p, argv[..], pool[..], argc, str);
    }
    Terminate(p, argv, pool, argc, str);
  }

  /** Ends the table with a null pointer; every pointer before it leads to its argument. */
  method Terminate(ghost p: Parser, argv: array<int>, pool: array<char>, argc: nat, ghost str: nat)
    requires InMemory(p, argv[..], pool[..], argc, str)
    requires argc < argv.Length
    modifies argv
    ensures argc == |p.args| && argv[argc] == NULL
    ensures forall i :: 0 <= i < argc ==> StringAt(pool[..], argv[i], p.args[i])
  {
    hide StringAt;
    ghost var table := argv[..];
    forall i | 0 <= i < argc ensures StringAt(pool[..], table[i], p.args[i]) {
      PointsAt(p, table, pool[..], argc, str, i);
    }
    argv[argc] := NULL;
    assert forall i :: 0 <= i < argc ==> argv[i] == table[i];
  }

  lemma InMemorySize(p: Parser, argv: seq<int>, pool: seq<char>, argc: nat, str: nat)
    requires InMemory(p, argv, pool, argc, str)
    ensures argc == |p.args| < |argv| && str <= |pool|
  {
  }

  lemma PointsAt(p: Parser, argv: seq<int>, pool: seq<char>, argc: nat, str: nat, i: nat)
    requires InMemory(p, argv, pool, argc, str) && i < argc
    ensures argv[i] == |Flat(p.args[..i])| && StringAt(pool, argv[i], p.args[i])
  {
    FlatAt(p.args, i);
    PrefixString(pool, Flat(p.args), p.cur, argv[i], p.args[i]);
  }

  /** A string that stands in the front part of the pool stands in the pool. */
  lemma PrefixString(pool: seq<char>, front: string, more: string, at: nat, s: string)
    requires |front| + |more| <= |pool| && pool[..|front| + |more|] == front + more && StringAt(front, at, s)
    ensures StringAt(pool, at, s)
  {
    assert forall k :: 0 <= k < |front| ==> pool[k] == pool[..|front| + |more|][k] == (front + more)[k] == front[k];
    assert forall k :: 0 <= k < |s| ==> s[k] == front[at..at + |s|][k] == front[at + k];
  }
}
