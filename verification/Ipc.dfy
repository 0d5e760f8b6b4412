/**
 Messages over local IPC (src/local-ipc-win32.c): passed handles go into a header, the pieces of the
 sender's scatter/gather array are gathered behind it up to the size of one datagram, and the receiver
 installs or closes the handles and scatters the payload over its own array.
 */
module Ipc {
  import opened Basics

  const MAX_DATA_SIZE := 4096

  /** A duplicated handle and the descriptor information that travels with it. */
  datatype FdData = FdData(hnd: int, fdInfo: int)

  /** Size of the ancillary data: the count, padded, and one element per handle. */
  function HeaderSize(n: nat): nat {
    8 + 16 * n
  }

  /** The pieces in one row. */
  function Gather(iov: seq<seq<byte>>): seq<byte> {
    if iov == [] then [] else Gather(iov[..|iov| - 1]) + iov[|iov| - 1]
  }

  // ---------------------------------------------------------------- sending

  lemma {:induction false} GatherPrefix(iov: seq<seq<byte>>, i: nat)
    requires i <= |iov|
    ensures Gather(iov[..i]) <= Gather(iov)
    decreases |iov| - i
  {
    if i == |iov| {
      assert iov[..i] == iov;
    } else {
      GatherPrefix(iov, i + 1);
      assert iov[..i + 1][..i] == iov[..i];
    }
  }

  method CopyAt(dst: array<byte>, at: nat, piece: seq<byte>)
    requires at + |piece| <= dst.Length
    modifies dst
    ensures dst[..at + |piece|] == old(dst[..at]) + piece
    ensures dst[at + |piece|..] == old(dst[at + |piece|..])
  {
    forall k | 0 <= k < |piece| {
      dst[at + k] := piece[k];
    }
  }

  /** The header holds a duplicate of every handle, in order, with the information of its descriptor. */
  ghost predicate Duplicated(header: seq<FdData>, fds: seq<FdData>, duplicate: nat -> Option<int>) {
    && |header| == |fds|
    && forall i: nat :: i < |fds| ==> duplicate(i).Some? && header[i] == FdData(duplicate(i).value, fds[i].fdInfo)
  }

  /** The duplicates made before the first failure, which are closed again, the last one first. */
  ghost function Undo(duplicate: nat -> Option<int>, k: nat): seq<int>
    requires forall i: nat :: i < k ==> duplicate(i).Some?
  {
    seq(k, i requires 0 <= i < k => duplicate(k - 1 - i).value)
  }

  /**
   Duplicates the handles of the descriptors into the peer's process; `duplicate(i)` is the answer of the
   system for handle `i` and `peer` tells whether the peer's process could be opened. On failure every
   duplicate made so far is closed again.
   */
  method WriteAncillaryData(fds: seq<FdData>, peer: bool, duplicate: nat -> Option<int>)
    returns (header: seq<FdData>, closed: seq<int>, size: int)
    ensures size == -1 || size == HeaderSize(|fds|)
    ensures size >= 0 <==> fds == [] || (peer && forall i: nat :: i < |fds| ==> duplicate(i).Some?)
    ensures size >= 0 ==> closed == [] && Duplicated(header, fds, duplicate)
    ensures size < 0 && peer ==> exists k: nat :: k < |fds| && (forall i: nat :: i < k ==> duplicate(i).Some?)
                                                  && duplicate(k).None? && closed == Undo(duplicate, k)
    ensures size < 0 && !peer ==> closed == []
  {
    header, closed, size := [], [], 8;
    if |fds| == 0 {
      return;
    }
    if !peer {
      size := -1;
      return;
    }
    var i := 0;
    while i < |fds|
      invariant i <= |fds| && |header| == i && size == HeaderSize(i)
      invariant forall k: nat :: k < i ==> duplicate(k).Some? && header[k] == FdData(duplicate(k).value, fds[k].fdInfo)
    {
      var d := duplicate(i);
      if d.None? {
        closed := CloseAll(header, duplicate);
        size := -1;
        return;
      }
      header := header + [FdData(d.value, fds[i].fdInfo)];
      size := size + 16;
      i := i + 1;
    }
  }

  method CloseAll(header: seq<FdData>, ghost duplicate: nat -> Option<int>) returns (closed: seq<int>)
    requires forall k: nat :: k < |header| ==> duplicate(k).Some? && header[k].hnd == duplicate(k).value
    ensures closed == Undo(duplicate, |header|)
  {
    var i := |header|;
    closed := [];
    while i > 0
      invariant 0 <= i <= |header| && closed == Undo(duplicate, |header|)[..|header| - i]
    {
      i := i - 1;
      closed := closed + [header[i].hnd];
    }
  }

  /** What one datagram can carry behind a header for `n` handles. */
  function Payload(n: nat, iov: seq<seq<byte>>): seq<byte>
    requires HeaderSize(n) <= MAX_DATA_SIZE
  {
    Gather(iov)[..Min(|Gather(iov)|, MAX_DATA_SIZE - HeaderSize(n))]
  }

  /**
   Serialises the message: the header, or -1 if the handles cannot be passed, and behind it, in `buff`, the
   gathered data, cut so that header and payload together stay within one datagram.
   */
  method SerializeMsg(fds: seq<FdData>, peer: bool, duplicate: nat -> Option<int>, iov: seq<seq<byte>>)
    returns (header: seq<FdData>, buff: array<byte>, hdr: nat, total: int)
    requires HeaderSize(|fds|) <= MAX_DATA_SIZE
    ensures total >= 0 <==> fds == [] || (peer && forall i: nat :: i < |fds| ==> duplicate(i).Some?)
    ensures total >= 0 ==> Duplicated(header, fds, duplicate)
    ensures total >= 0 ==> hdr == HeaderSize(|fds|) <= total <= MAX_DATA_SIZE
    ensures total >= 0 ==> total - hdr <= buff.Length && buff[..total - hdr] == Payload(|fds|, iov)
  {
    var closed;
    header, closed, total := WriteAncillaryData(fds, peer, duplicate);
    if total < 0 {
      buff, hdr := new byte[0], 0;
      return;
    }
    hdr := total;
    var room := MAX_DATA_SIZE - hdr;
    buff := new byte[room](_ => 0);
    var n := GatherLoop(iov, buff);
    total := hdr + n;
  }

  /** The gather loop over the data area behind the header. */
  method GatherLoop(iov: seq<seq<byte>>, buff: array<byte>) returns (n: nat)
    modifies buff
    ensures n == Min(|Gather(iov)|, buff.Length) && buff[..n] == Gather(iov)[..n]
  {
    n := 0;
    var truncated := false;
    var i := 0;
    while i < |iov| && !truncated
      invariant i <= |iov| && n <= buff.Length
      invariant if truncated then n == buff.Length && n <= |Gather(iov[..i])|
                else n == |Gather(iov[..i])| && (n < buff.Length || i == 0)
      invariant buff[..n] == Gather(iov[..i])[..n]
      decreases |iov| - i
    {
      var len := |iov[i]|;
      if len + n >= buff.Length {
        len := buff.Length - n;
        truncated := true;
      }
      assert iov[..i + 1][..i] == iov[..i];
      ghost var sofar := Gather(iov[..i]);
      CopyAt(buff, n, iov[i][..len]);
      assert (sofar + iov[i])[..n + len] == sofar + iov[i][..len];
      n := n + len;
      i := i + 1;
    }
    GatherPrefix(iov, i);
    assert iov[..|iov|] == iov;
    assert Gather(iov)[..n] == Gather(iov[..i])[..n];
  }

  // ---------------------------------------------------------------- receiving

  /**
   Takes the passed handles; `wraps(i)` tells whether the system can wrap handle `i` into a descriptor.
   Every handle is installed, in order, or closed, once; truncation is reported exactly if one is closed.
   */
  method ReadAncillaryData(fds: seq<FdData>, numFdsMax: nat, wraps: nat -> bool)
    returns (installed: seq<FdData>, closed: seq<FdData>, ctrunc: bool, size: nat)
    ensures installed + closed == fds
    ensures |installed| <= numFdsMax && forall i: nat :: i < |installed| ==> wraps(i)
    ensures closed != [] ==> |installed| == numFdsMax || !wraps(|installed|)
    ensures ctrunc <==> closed != []
    ensures size == HeaderSize(|fds|)
  {
    installed, closed := [], [];
    var i := 0;
    while i < |fds| && i < numFdsMax && wraps(i)
      invariant i <= |fds| && i <= numFdsMax && installed == fds[..i]
      invariant forall k: nat :: k < i ==> wraps(k)
    {
      installed := installed + [fds[i]];
      i := i + 1;
    }
    var numFds := i;
    while i < |fds|
      invariant numFds <= i <= |fds| && closed == fds[numFds..i]
    {
      closed := closed + [fds[i]];
      i := i + 1;
    }
    ctrunc := numFds < |fds|;
    size := HeaderSize(|fds|);
  }

  /** Filling the receive buffers from the front; what the data does not reach stays as it was. */
  function Scatter(bufs: seq<seq<byte>>, data: seq<byte>): (r: seq<seq<byte>>)
    ensures |r| == |bufs|
    ensures forall i :: 0 <= i < |bufs| ==> |r[i]| == |bufs[i]|
    decreases |bufs|
  {
    if bufs == [] then []
    else
      var len := Min(|bufs[0]|, |data|);
      [data[..len] + bufs[0][len..]] + Scatter(bufs[1..], data[len..])
  }

  lemma {:induction false} GatherCons(b: seq<byte>, rest: seq<seq<byte>>)
    ensures Gather([b] + rest) == b + Gather(rest)
    decreases |rest|
  {
    var all := [b] + rest;
    if rest == [] {
      assert all[..0] == [];
    } else {
      var n := |rest| - 1;
      assert all[..n + 1] == [b] + rest[..n];
      GatherCons(b, rest[..n]);
      assert b + Gather(rest[..n]) + rest[n] == b + (Gather(rest[..n]) + rest[n]);
    }
  }

  /** One buffer `b` in front of others whose joint content `g` took the rest of the data. */
  lemma OneBuffer(b: seq<byte>, g: seq<byte>, data: seq<byte>)
    ensures var len, n := Min(|b|, |data|), Min(|b + g|, |data|);
            var m := Min(|g|, |data[len..]|);
            data[..len] + b[len..] + (data[len..][..m] + g[m..]) == data[..n] + (b + g)[n..]
  {
    var len, n := Min(|b|, |data|), Min(|b + g|, |data|);
    var m := Min(|g|, |data[len..]|);
    if len < |b| {
      assert m == 0 && n == len && data[len..][..m] + g[m..] == g;
      assert (b + g)[n..] == b[len..] + g;
    } else {
      assert data[..n] == data[..len] + data[len..][..m];
      assert (b + g)[n..] == g[m..];
    }
  }

  /** In a row, the buffers hold the data, as far as both reach, followed by their old content. */
  lemma {:induction false} ScatterGather(bufs: seq<seq<byte>>, data: seq<byte>)
    ensures var n := Min(|Gather(bufs)|, |data|);
            Gather(Scatter(bufs, data)) == data[..n] + Gather(bufs)[n..]
    decreases |bufs|
  {
    if bufs == [] {
      assert data[..0] + Gather(bufs)[0..] == [];
    } else {
      hide Gather;
      var b, rest := bufs[0], bufs[1..];
      var len := Min(|b|, |data|);
      ScatterGather(rest, data[len..]);
      GatherCons(b, rest);
      GatherCons(data[..len] + b[len..], Scatter(rest, data[len..]));
      assert bufs == [b] + rest;
      OneBuffer(b, Gather(rest), data);
    }
  }

  ghost function Contents(bufs: seq<array<byte>>): (r: seq<seq<byte>>)
    reads bufs
    ensures |r| == |bufs|
    ensures forall i :: 0 <= i < |bufs| ==> r[i] == bufs[i][..]
  {
    if bufs == [] then [] else [bufs[0][..]] + Contents(bufs[1..])
  }

  lemma {:induction false} ScatterNothing(bufs: seq<seq<byte>>)
    ensures Scatter(bufs, []) == bufs
  {
    if bufs != [] {
      assert [][..0] + bufs[0][0..] == bufs[0];
      ScatterNothing(bufs[1..]);
      assert bufs == [bufs[0]] + bufs[1..];
    }
  }

  lemma ScatterFrom(bufs: seq<seq<byte>>, i: nat, data: seq<byte>, goal: seq<seq<byte>>)
    requires i < |bufs| == |goal| && Scatter(bufs[i..], data) == goal[i..]
    ensures var len := Min(|bufs[i]|, |data|);
            goal[i] == data[..len] + bufs[i][len..] && Scatter(bufs[i + 1..], data[len..]) == goal[i + 1..]
  {
    assert bufs[i..][0] == bufs[i] && bufs[i..][1..] == bufs[i + 1..];
    assert goal[i..][0] == goal[i] && goal[i..][1..] == goal[i + 1..];
  }

  lemma ScatterEnd(bufs: seq<seq<byte>>, i: nat, goal: seq<seq<byte>>)
    requires i <= |bufs| == |goal| && Scatter(bufs[i..], []) == goal[i..]
    ensures forall k :: i <= k < |bufs| ==> goal[k] == bufs[k]
  {
    ScatterNothing(bufs[i..]);
    assert forall k :: i <= k < |bufs| ==> bufs[i..][k - i] == bufs[k] && goal[i..][k - i] == goal[k];
  }

  ghost predicate FilledUpTo(bufs: seq<array<byte>>, before: seq<seq<byte>>, goal: seq<seq<byte>>, i: nat)
    reads bufs
  {
    && |before| == |goal| == |bufs| && i <= |bufs|
    && (forall k :: 0 <= k < i ==> bufs[k][..] == goal[k])
    && (forall k :: i <= k < |bufs| ==> bufs[k][..] == before[k])
  }

  /** Fills the next buffer as far as the rest of the data reaches. */
  method FillNext(bufs: seq<array<byte>>, i: nat, rest: seq<byte>, ghost before: seq<seq<byte>>, ghost goal: seq<seq<byte>>)
    returns (rest': seq<byte>, cut: bool)
    requires forall i, j :: 0 <= i < j < |bufs| ==> bufs[i] != bufs[j]
    requires FilledUpTo(bufs, before, goal, i) && i < |bufs| && Scatter(before[i..], rest) == goal[i..]
    modifies bufs[i]
    ensures FilledUpTo(bufs, before, goal, i + 1) && Scatter(before[i + 1..], rest') == goal[i + 1..]
    ensures cut <==> |before[i]| > |rest|
    ensures |rest'| == if cut then 0 else |rest| - |before[i]|
  {
    hide Scatter;
    ScatterFrom(before, i, rest, goal);
    var len := bufs[i].Length;
    assert len == |bufs[i][..]| == |before[i]|;
    cut := len > |rest|;
    if cut {
      len := |rest|;
    }
    CopyFront(bufs[i], rest[..len]);
    rest' := rest[len..];
  }

  /**
   The scatter loop over the receiver's buffers. Against its name, the flag is raised exactly if the
   buffers are larger than the payload, not if they are too small for it.
   */
  method ScatterLoop(payload: seq<byte>, bufs: seq<array<byte>>) returns (trunc: bool)
    requires forall i, j :: 0 <= i < j < |bufs| ==> bufs[i] != bufs[j]
    modifies bufs
    ensures forall i :: 0 <= i < |bufs| ==> bufs[i][..] == Scatter(old(Contents(bufs)), payload)[i]
    ensures trunc <==> |Gather(old(Contents(bufs)))| > |payload|
  {
    hide Contents, Gather;
    ghost var before := Contents(bufs);
    ghost var goal := Scatter(before, payload);
    var rest := payload;
    trunc := false;
    var i := 0;
    CapacityStart(before);
    assert before[0..] == before && goal[0..] == goal;
    hide Scatter;
    while i < |bufs| && !trunc
      invariant FilledUpTo(bufs, before, goal, i) && Scatter(before[i..], rest) == goal[i..]
      invariant if trunc then rest == [] && |Gather(before[..i])| > |payload|
                else |Gather(before[..i])| + |rest| == |payload|
      decreases |bufs| - i
    {
      CapacityStep(before, i);
      rest, trunc := FillNext(bufs, i, rest, before, goal);
      i := i + 1;
    }
    CapacityEnd(before, i);
    if trunc {
      ScatterEnd(before, i, goal);
    }
  }

  lemma CapacityStart(bufs: seq<seq<byte>>)
    ensures Gather(bufs[..0]) == []
  {
  }

  lemma CapacityStep(bufs: seq<seq<byte>>, i: nat)
    requires i < |bufs|
    ensures |Gather(bufs[..i + 1])| == |Gather(bufs[..i])| + |bufs[i]|
  {
    assert bufs[..i + 1][..i] == bufs[..i];
  }

  lemma CapacityEnd(bufs: seq<seq<byte>>, i: nat)
    requires i <= |bufs|
    ensures |Gather(bufs[..i])| <= |Gather(bufs)| && (i == |bufs| ==> Gather(bufs[..i]) == Gather(bufs))
  {
    GatherPrefix(bufs, i);
    assert i == |bufs| ==> bufs[..i] == bufs;
  }

  /**
   The flag says that data was cut off exactly if the sizes agree, when it is not raised and nothing was;
   without any buffer, for one, a byte is cut off and the flag stays down.
   */
  lemma FlagRightExactly(bufs: seq<seq<byte>>, payload: seq<byte>)
    ensures ((|Gather(bufs)| > |payload|) == (|payload| > |Gather(bufs)|)) <==> |Gather(bufs)| == |payload|
    ensures !(|Gather([])| > |[0 as byte]|) && |[0 as byte]| > |Gather([])|
  {
  }

  /** Receives a datagram of `buffSz` bytes: the passed handles, then the payload. */
  method DeserializeMsg(buffSz: nat, header: seq<FdData>, payload: seq<byte>, numFdsMax: nat, wraps: nat -> bool,
                        bufs: seq<array<byte>>)
    returns (installed: seq<FdData>, closed: seq<FdData>, ctrunc: bool, trunc: bool, msgSz: nat)
    requires buffSz == HeaderSize(|header|) + |payload|
    requires forall i, j :: 0 <= i < j < |bufs| ==> bufs[i] != bufs[j]
    modifies bufs
    ensures installed + closed == header && (ctrunc <==> closed != [])
    ensures |installed| <= numFdsMax && forall i: nat :: i < |installed| ==> wraps(i)
    ensures closed != [] ==> |installed| == numFdsMax || !wraps(|installed|)
    ensures forall i :: 0 <= i < |bufs| ==> bufs[i][..] == Scatter(old(Contents(bufs)), payload)[i]
    ensures trunc <==> |Gather(old(Contents(bufs)))| > |payload|
    ensures msgSz == |payload|
  {
    var size;
    installed, closed, ctrunc, size := ReadAncillaryData(header, numFdsMax, wraps);
    msgSz := buffSz - size;
    trunc := ScatterLoop(payload, bufs);
  }

  method CopyFront(dst: array<byte>, piece: seq<byte>)
    requires |piece| <= dst.Length
    modifies dst
    ensures dst[..] == piece + old(dst[|piece|..])
  {
    forall k | 0 <= k < |piece| {
      dst[k] := piece[k];
    }
  }

  /**
   The message round trip: for any pieces sent and any buffers to receive them, the buffers hold the
   first min(capacity, payload) bytes of what was sent, capped at one datagram, and nothing else changes.
   */
  lemma MessageRoundTrip(n: nat, sent: seq<seq<byte>>, bufs: seq<seq<byte>>)
    requires HeaderSize(n) <= MAX_DATA_SIZE
    ensures var cap := Min(|Gather(sent)|, MAX_DATA_SIZE - HeaderSize(n));
            var got := Min(|Gather(bufs)|, cap);
            Gather(Scatter(bufs, Payload(n, sent))) == Gather(sent)[..got] + Gather(bufs)[got..]
  {
    hide Scatter, Gather;
    ScatterGather(bufs, Payload(n, sent));
    var cap := Min(|Gather(sent)|, MAX_DATA_SIZE - HeaderSize(n));
    var got := Min(|Gather(bufs)|, cap);
    assert Payload(n, sent)[..got] == Gather(sent)[..got];
  }
}
