/** The two output transports of source/output/writer.cpp and writer.h:
    `BufferWriter` hands every NAL to a callback, and `UdpWriter` cuts every
    NAL into datagrams of at most 8192 bytes, sends them with `sendto` and
    mirrors what it sent to a capture file. `sendto`, the socket and the
    callback are outside the model: their results are parameters. */
module Writer {
  import opened Bytes

  /** The name prefixes that select a transport. */
  const BufferPrefix: string := "buffer://"
  const UdpPrefix: string := "udp://"

  /** `DATAGRAM_SIZE`: the largest chunk handed to one `sendto`. */
  const DatagramSize: nat := 8192

  /** An encoded NAL unit; `sizeBytes` is the length of its payload. */
  datatype Nal = Nal(payload: seq<Byte>)

  function Min(a: int, b: int): int { if a <= b then a else b }

  // ---------------------------------------------------------------------
  // 32-bit counters

  const Two32: int := 0x1_0000_0000

  /** A value as a `uint32_t` holds it. */
  function WrapU32(x: int): (r: nat)
    ensures r < Two32 && (r - x) % Two32 == 0
    ensures 0 <= x < Two32 ==> r == x
  {
    x % Two32
  }

  /** A `uint32_t` converted to `int` (two's complement, 32 bits). */
  function AsInt32(u: nat): (r: int)
    requires u < Two32
    ensures -0x8000_0000 <= r < 0x8000_0000
    ensures (r - u) % Two32 == 0
    ensures u < 0x8000_0000 ==> r == u
  {
    if u < 0x8000_0000 then u else u - Two32
  }

  lemma AddCongruent(a: int, b: int, y: int)
    requires (a - b) % Two32 == 0
    ensures (a + y) % Two32 == (b + y) % Two32
  {
    var q := (a - b) / Two32;
    assert a == b + Two32 * q;
    assert (b + y + Two32 * q) % Two32 == (b + y) % Two32;
  }

  /** Adding to a `uint32_t` counter keeps it the wrapped running total. */
  lemma U32Step(acc: nat, total: int, y: int, next: int)
    requires acc == WrapU32(total) && next == total + y
    ensures WrapU32(acc + y) == WrapU32(next)
  {
    AddCongruent(acc, total, y);
  }

  /** Adding to an `int` counter through `uint32_t` arithmetic keeps it the
      running total wrapped and read back as `int`. */
  lemma Int32Step(bytes: int, total: int, y: int, next: int)
    requires bytes == AsInt32(WrapU32(total)) && next == total + y
    ensures AsInt32(WrapU32(bytes + y)) == AsInt32(WrapU32(next))
  {
    AddCongruent(bytes, WrapU32(total), y);
    AddCongruent(WrapU32(total), total, y);
  }

  /** `acc += y` on a `uint32_t` counter that holds the running total
      `total` wrapped: it then holds `next = total + y` wrapped. */
  method AddU32(acc: nat, y: int, ghost total: int, ghost next: int) returns (r: nat)
    requires acc == WrapU32(total) && next == total + y
    ensures r == WrapU32(next)
  {
    U32Step(acc, total, y, next);
    r := WrapU32(acc + y);
  }

  /** `bytes += y` on an `int` counter with a `uint32_t` operand: the sum is
      taken modulo 2^32 and read back as `int`. */
  method AddInt32(bytes: int, y: nat, ghost total: int, ghost next: int) returns (r: int)
    requires bytes == AsInt32(WrapU32(total)) && next == total + y
    ensures r == AsInt32(WrapU32(next))
  {
    Int32Step(bytes, total, y, next);
    r := AsInt32(WrapU32(bytes + y));
  }

  /** Sum of the payload sizes of `nals`. */
  function TotalSize(nals: seq<Nal>): nat
  {
    if nals == [] then 0 else TotalSize(nals[..|nals| - 1]) + |nals[|nals| - 1].payload|
  }

  /** Sum of the positive values of `results`. */
  function PositiveSum(results: seq<int>): nat
  {
    if results == [] then 0
    else PositiveSum(results[..|results| - 1]) + (if results[|results| - 1] > 0 then results[|results| - 1] else 0)
  }

  /** The payloads of `nals`, in order. */
  function Payloads(nals: seq<Nal>): (ps: seq<seq<Byte>>)
    ensures |ps| == |nals| && forall i :: 0 <= i < |nals| ==> ps[i] == nals[i].payload
  {
    seq(|nals|, i requires 0 <= i < |nals| => nals[i].payload)
  }

  // ---------------------------------------------------------------------
  // The inline members of writer.h

  /** The two transports; `UdpWriter` derives from `BufferWriter`. */
  datatype WriterKind = BufferKind | UdpKind

  /** `isFail()`, `needPTS()` and `getName()` are defined once, in
      `BufferWriter`; `UdpWriter` does not override them, so every kind
      answers with the base-class definition. */
  function BufferIsFail(): bool { false }
  function BufferNeedPts(): bool { false }
  function BufferName(): string { "udp" }

  function IsFail(w: WriterKind): bool { match w case BufferKind => BufferIsFail() case UdpKind => BufferIsFail() }
  function NeedPts(w: WriterKind): bool { match w case BufferKind => BufferNeedPts() case UdpKind => BufferNeedPts() }
  function Name(w: WriterKind): string { match w case BufferKind => BufferName() case UdpKind => BufferName() }

  /** Neither transport ever reports failure or asks for PTS tracking, and
      both are named "udp". */
  lemma WriterFlags(w: WriterKind)
    ensures !IsFail(w) && !NeedPts(w) && Name(w) == "udp"
    ensures IsFail(w) == IsFail(BufferKind) && NeedPts(w) == NeedPts(BufferKind)
  {
  }

  // ---------------------------------------------------------------------
  // BufferWriter

  /** `BufferWriter`: its only state is the callback, which is outside the
      model; `results[i]` is what the callback returns for NAL `i`. */
  class BufferWriter {
    constructor ()
    {
    }

    /** `writeFrame`: hands each payload to the callback in order and adds
        up the positive results in a `uint32_t`, returned as `int`. A result
        that is not positive is ignored. */
    method WriteFrame(nals: seq<Nal>, results: seq<int>) returns (bytes: int, handed: seq<seq<Byte>>)
      requires |results| == |nals|
      ensures handed == Payloads(nals)
      ensures bytes == AsInt32(WrapU32(PositiveSum(results)))
      ensures PositiveSum(results) < 0x8000_0000 ==> bytes == PositiveSum(results)
    {
      var acc: nat := 0;
      handed := [];
      var i := 0;
      while i < |nals|
        invariant 0 <= i <= |nals|
        invariant acc == WrapU32(PositiveSum(results[..i]))
        invariant handed == Payloads(nals[..i])
      {
        assert results[..i + 1][..i] == results[..i];
        assert nals[..i + 1] == nals[..i] + [nals[i]];
        var res := results[i];
        handed := handed + [nals[i].payload];
        if res > 0 {
          acc := AddU32(acc, res, PositiveSum(results[..i]), PositiveSum(results[..i + 1]));
        }
        i := i + 1;
      }
      assert results[..i] == results && nals[..i] == nals;
      bytes := AsInt32(acc);
    }

    /** `writeHeaders`: the same as `writeFrame`. */
    method WriteHeaders(nals: seq<Nal>, results: seq<int>) returns (bytes: int, handed: seq<seq<Byte>>)
      requires |results| == |nals|
      ensures handed == Payloads(nals)
      ensures bytes == AsInt32(WrapU32(PositiveSum(results)))
      ensures PositiveSum(results) < 0x8000_0000 ==> bytes == PositiveSum(results)
    {
      bytes, handed := WriteFrame(nals, results);
    }
  }

  /** Below 2^31 bytes no single accepted NAL is lost from the count
      `writeFrame` returns: it is at least each positive callback result. */
  lemma {:induction false} PositiveSumBounds(results: seq<int>, i: nat)
    requires i < |results| && PositiveSum(results) < 0x8000_0000
    ensures AsInt32(WrapU32(PositiveSum(results))) >= (if results[i] > 0 then results[i] else 0)
  {
    SumCoversEach(results, i);
  }

  lemma {:induction false} SumCoversEach(results: seq<int>, i: nat)
    requires i < |results|
    ensures PositiveSum(results) >= (if results[i] > 0 then results[i] else 0)
  {
    var n := |results| - 1;
    if i < n {
      assert results[..n][i] == results[i];
      SumCoversEach(results[..n], i);
    }
  }

  /** A callback that takes every payload whole makes the count of the
      `BufferWriter` the total payload size, the count `UdpWriter` returns. */
  lemma {:induction false} FullCallbackCountsAll(nals: seq<Nal>, results: seq<int>)
    requires |results| == |nals|
    requires forall i :: 0 <= i < |nals| ==> results[i] == |nals[i].payload|
    ensures PositiveSum(results) == TotalSize(nals)
  {
    if nals != [] {
      var n := |nals| - 1;
      FullCallbackCountsAll(nals[..n], results[..n]);
    }
  }

  // ---------------------------------------------------------------------
  // UdpWriter::write

  /** One `sendto` call: the chunk `data[offset .. offset + |payload|)` and
      the value `sendto` returned. */
  datatype Send = Send(offset: nat, payload: seq<Byte>, result: int)

  /** `sendto(n, len)` is the result of the `n`-th call on the socket for a
      chunk of `len` bytes. */
  type SendFn = (nat, nat) -> int

  /** A datagram socket either refuses the chunk (a negative result) or
      accepts some of it. (A result of 0 would make the loop spin forever;
      it is excluded.) */
  ghost predicate WellBehaved(send: SendFn)
  {
    forall n: nat, len: nat :: 0 < len ==> send(n, len) < 0 || 0 < send(n, len) <= len
  }

  /** What one `write` did on the socket and whether it succeeded. */
  datatype Transfer = Transfer(sends: seq<Send>, ok: bool)

  /** The `sendto` calls of `write`'s loop from `total_sent == total` on,
      the first of them being call number `n`. */
  function Chunks(send: SendFn, n: nat, data: seq<Byte>, total: nat): (t: Transfer)
    requires WellBehaved(send) && total <= |data|
    decreases |data| - total
  {
    if total >= |data| then Transfer([], true)
    else
      var len := Min(DatagramSize, |data| - total);
      var res := send(n, len);
      var s := Send(total, data[total..total + len], res);
      if res < 0 then Transfer([s], false)
      else
        var rest := Chunks(send, n + 1, data, total + res);
        Transfer([s] + rest.sends, rest.ok)
  }

  /** One turn of `write`'s loop: the chunk `s` of `len` bytes handed to
      call `n`, answered with `res`. */
  lemma ChunksStep(send: SendFn, n: nat, data: seq<Byte>, total: nat, len: nat, res: int, s: Send)
    requires WellBehaved(send) && total < |data|
    requires len == Min(DatagramSize, |data| - total) && res == send(n, len)
    requires s == Send(total, data[total..total + len], res)
    ensures res < 0 ==> Chunks(send, n, data, total) == Transfer([s], false)
    ensures res >= 0 ==> total + res <= |data|
    ensures res >= 0 ==> Chunks(send, n, data, total).sends == [s] + Chunks(send, n + 1, data, total + res).sends
    ensures res >= 0 ==> Chunks(send, n, data, total).ok == Chunks(send, n + 1, data, total + res).ok
  {
  }

  /** The loop of `write` on an open socket whose next call is number `n`:
      the `sendto` calls it makes, whether it got to the end, and
      `total_sent`, which on success is the whole buffer. */
  method SendChunks(data: seq<Byte>, send: SendFn, n: nat) returns (sends: seq<Send>, ok: bool, totalSent: nat)
    requires WellBehaved(send)
    ensures Transfer(sends, ok) == Chunks(send, n, data, 0)
    ensures ok ==> totalSent == |data|
  {
    totalSent := 0;
    sends := [];
    ghost var whole := Chunks(send, n, data, 0);
    ghost var rest := whole;
    var call := n;
    while totalSent < |data|
      invariant totalSent <= |data|
      invariant rest == Chunks(send, call, data, totalSent)
      invariant whole.sends == sends + rest.sends && whole.ok == rest.ok
      decreases |data| - totalSent
    {
      var len := Min(DatagramSize, |data| - totalSent);
      var bytesSent := send(call, len);
      var s := Send(totalSent, data[totalSent..totalSent + len], bytesSent);
      ChunksStep(send, call, data, totalSent, len, bytesSent, s);
      if bytesSent < 0 {
        return sends + [s], false, totalSent;
      }
      ghost var next := Chunks(send, call + 1, data, totalSent + bytesSent);
      AppendAssoc(sends, [s], next.sends);
      rest := next;
      sends := sends + [s];
      totalSent := totalSent + bytesSent;
      call := call + 1;
    }
    ok := true;
  }

  lemma AppendAssoc(a: seq<Send>, b: seq<Send>, c: seq<Send>)
    ensures a + (b + c) == (a + b) + c
  {
  }

  /** `write` on a socket that is `open` (`sock != -1`), starting with call
      number `n`. */
  function WriteTransfer(send: SendFn, open: bool, n: nat, data: seq<Byte>): Transfer
    requires WellBehaved(send)
  {
    if open then Chunks(send, n, data, 0) else Transfer([], false)
  }

  /** The sends of a successful `write` tile `data[from..]`: each covers
      `data[offset .. offset + min(8192, |data| - offset))`, the next one
      starts where the accepted part of the previous one ends, and the last
      one ends at `|data|`. */
  predicate Tiles(sends: seq<Send>, data: seq<Byte>, from: nat)
    decreases |sends|
  {
    if sends == [] then from == |data|
    else
      var s := sends[0];
      from < |data| && s.offset == from &&
      s.payload == data[from..from + Min(DatagramSize, |data| - from)] &&
      0 < s.result <= |s.payload| &&
      Tiles(sends[1..], data, from + s.result)
  }

  /** The bytes `sendto` accepted, in call order. */
  function Accepted(sends: seq<Send>): seq<Byte>
  {
    if sends == [] then []
    else
      var s := sends[0];
      (if 0 <= s.result <= |s.payload| then s.payload[..s.result] else []) + Accepted(sends[1..])
  }

  /** On success the sends tile the buffer contiguously and in order, so the
      accepted bytes are exactly the buffer. */
  lemma {:induction false} ChunksTile(send: SendFn, n: nat, data: seq<Byte>, total: nat)
    requires WellBehaved(send) && total <= |data|
    requires Chunks(send, n, data, total).ok
    ensures Tiles(Chunks(send, n, data, total).sends, data, total)
    ensures Accepted(Chunks(send, n, data, total).sends) == data[total..]
    decreases |data| - total
  {
    if total < |data| {
      var len := Min(DatagramSize, |data| - total);
      var res := send(n, len);
      var s := Send(total, data[total..total + len], res);
      ChunksStep(send, n, data, total, len, res, s);
      var rest := Chunks(send, n + 1, data, total + res).sends;
      ChunksTile(send, n + 1, data, total + res);
      TileCons(s, rest, data, total);
    }
  }

  /** A first chunk that covers the next `8192` bytes at most, followed by
      sends that tile the rest, tiles from its offset on. */
  lemma TileCons(s: Send, rest: seq<Send>, data: seq<Byte>, total: nat)
    requires total < |data| && s.offset == total
    requires s.payload == data[total..total + Min(DatagramSize, |data| - total)]
    requires 0 < s.result <= |s.payload|
    requires Tiles(rest, data, total + s.result) && Accepted(rest) == data[total + s.result..]
    ensures Tiles([s] + rest, data, total) && Accepted([s] + rest) == data[total..]
  {
    assert ([s] + rest)[0] == s && ([s] + rest)[1..] == rest;
    AcceptedCons(s, rest, data, total);
  }

  lemma AcceptedCons(s: Send, rest: seq<Send>, data: seq<Byte>, total: nat)
    requires 0 < s.result <= |s.payload| && total + s.result <= |data|
    requires s.payload[..s.result] == data[total..total + s.result]
    requires Accepted(rest) == data[total + s.result..]
    requires ([s] + rest)[0] == s && ([s] + rest)[1..] == rest
    ensures Accepted([s] + rest) == data[total..]
  {
    assert data[total..] == data[total..total + s.result] + data[total + s.result..];
  }

  /** A failed `write` stopped at its first refused chunk: every earlier
      chunk was accepted, the last was refused, and nothing followed it. */
  lemma {:induction false} ChunksFailure(send: SendFn, n: nat, data: seq<Byte>, total: nat)
    requires WellBehaved(send) && total <= |data|
    requires !Chunks(send, n, data, total).ok
    ensures var sends := Chunks(send, n, data, total).sends;
      |sends| > 0 && sends[|sends| - 1].result < 0 &&
      forall i :: 0 <= i < |sends| - 1 ==> sends[i].result > 0
    decreases |data| - total
  {
    var len := Min(DatagramSize, |data| - total);
    var res := send(n, len);
    if res >= 0 {
      ChunksFailure(send, n + 1, data, total + res);
    }
  }

  /** Every chunk handed to `sendto` is non-empty and at most 8192 bytes. */
  lemma {:induction false} ChunkSizes(send: SendFn, n: nat, data: seq<Byte>, total: nat)
    requires WellBehaved(send) && total <= |data|
    ensures forall s :: s in Chunks(send, n, data, total).sends ==> 0 < |s.payload| <= DatagramSize
    decreases |data| - total
  {
    if total < |data| {
      var len := Min(DatagramSize, |data| - total);
      var res := send(n, len);
      if res >= 0 {
        ChunkSizes(send, n + 1, data, total + res);
      }
    }
  }

  /** `sendto` accepts every chunk whole. */
  ghost predicate AlwaysFull(send: SendFn)
  {
    forall n: nat, len: nat :: send(n, len) == len
  }

  /** When every chunk is accepted whole, `write` succeeds after exactly
      `ceil((|data| - total) / 8192)` sends (none for an empty buffer). */
  lemma {:induction false} FullSendsCount(send: SendFn, n: nat, data: seq<Byte>, total: nat)
    requires AlwaysFull(send) && total <= |data|
    ensures WellBehaved(send)
    ensures Chunks(send, n, data, total).ok
    ensures |Chunks(send, n, data, total).sends| == (|data| - total + DatagramSize - 1) / DatagramSize
    decreases |data| - total
  {
    if total < |data| {
      var len := Min(DatagramSize, |data| - total);
      FullSendsCount(send, n + 1, data, total + len);
    }
  }

  // ---------------------------------------------------------------------
  // UdpWriter

  /** The `sendto` calls and the mirrored bytes of a run of `write` calls,
      one per NAL, on a socket that is `open`. */
  datatype Traffic = Traffic(sends: seq<Send>, mirrored: seq<Byte>)

  function Transmit(send: SendFn, open: bool, n: nat, nals: seq<Nal>): Traffic
    requires WellBehaved(send)
  {
    if nals == [] then Traffic([], [])
    else TransmitNext(send, open, n, Transmit(send, open, n, nals[..|nals| - 1]), nals[|nals| - 1].payload)
  }

  /** The traffic `before` followed by one more `write` of `payload`. */
  function TransmitNext(send: SendFn, open: bool, n: nat, before: Traffic, payload: seq<Byte>): Traffic
    requires WellBehaved(send)
  {
    var t := WriteTransfer(send, open, n + |before.sends|, payload);
    Traffic(before.sends + t.sends, before.mirrored + (if t.ok then payload else []))
  }

  lemma TransmitStep(send: SendFn, open: bool, n: nat, nals: seq<Nal>, i: nat)
    requires WellBehaved(send) && i < |nals|
    ensures TotalSize(nals[..i + 1]) == TotalSize(nals[..i]) + |nals[i].payload|
    ensures Transmit(send, open, n, nals[..i + 1]) ==
      TransmitNext(send, open, n, Transmit(send, open, n, nals[..i]), nals[i].payload)
  {
    assert nals[..i + 1][..i] == nals[..i];
  }

  /** One more `write` extends the recorded traffic by `TransmitNext`. */
  lemma TrafficAppend(send: SendFn, open: bool, sent0: seq<Send>, mirror0: seq<Byte>, traffic: Traffic,
                      payload: seq<Byte>, sentMid: seq<Send>, mirrorMid: seq<Byte>, sentNew: seq<Send>, mirrorNew: seq<Byte>)
    requires WellBehaved(send)
    requires sentMid == sent0 + traffic.sends && mirrorMid == mirror0 + traffic.mirrored
    requires var t := WriteTransfer(send, open, |sentMid|, payload);
      sentNew == sentMid + t.sends && mirrorNew == mirrorMid + (if t.ok then payload else [])
    ensures var next := TransmitNext(send, open, |sent0|, traffic, payload);
      sentNew == sent0 + next.sends && mirrorNew == mirror0 + next.mirrored
  {
    var t := WriteTransfer(send, open, |sentMid|, payload);
    assert sent0 + traffic.sends + t.sends == sent0 + (traffic.sends + t.sends);
    var m := if t.ok then payload else [];
    assert mirror0 + traffic.mirrored + m == mirror0 + (traffic.mirrored + m);
  }

  /** `UdpWriter`: the socket descriptor (`-1` when there is none), the
      endpoint set by `setendpoint`, every `sendto` call made on the socket
      so far, and the contents of the capture file `/tmp/frames.hevc`. */
  class UdpWriter {
    var sock: int
    var ip: string
    var port: nat
    var sent: seq<Send>
    var mirror: seq<Byte>

    /** `sock(-1)`; the capture file is opened empty. */
    constructor ()
      ensures sock == -1 && sent == [] && mirror == [] && ip == [] && port == 0
    {
      sock := -1;
      ip := [];
      port := 0;
      sent := [];
      mirror := [];
    }

    /** `initialize`: `socketFd` is what `socket()` returned. */
    method Initialize(socketFd: int) returns (ok: bool)
      modifies this`sock
      ensures sock == socketFd && ok == (socketFd != -1)
    {
      sock := socketFd;
      if sock == -1 {
        return false;
      }
      return true;
    }

    /** `setendpoint`: the port goes through `unsigned short`. The
        conversion of the address text by `inet_addr` is not modelled. */
    method SetEndpoint(destinationIp: string, p: int)
      modifies this`ip, this`port
      ensures ip == destinationIp && port == p % 0x1_0000
    {
      ip := destinationIp;
      port := p % 0x1_0000;
    }

    /** `write`: with no socket, returns -1 and sends nothing. Otherwise
        sends `data` in chunks of at most 8192 bytes, each starting where
        the accepted part of the previous one ended; a refused chunk returns
        -1 at once. Only after every chunk went out is the whole buffer
        mirrored to the capture file, and the result is `|data|`. */
    method Write(data: seq<Byte>, send: SendFn) returns (r: int)
      requires WellBehaved(send)
      modifies this`sent, this`mirror
      ensures var t := WriteTransfer(send, sock != -1, |old(sent)|, data);
        sent == old(sent) + t.sends &&
        mirror == old(mirror) + (if t.ok then data else []) &&
        r == (if t.ok then |data| else -1)
    {
      if sock == -1 {
        return -1;
      }
      var sends, ok, totalSent := SendChunks(data, send, |sent|);
      sent := sent + sends;
      if !ok {
        return -1;
      }
      mirror := mirror + data;
      return totalSent;
    }

    /** `writeFrame`: writes every NAL in order, ignoring what `write`
        returns, and adds up the payload sizes in an `int` (the additions
        happen in `uint32_t`, so the total wraps modulo 2^32). */
    method WriteFrame(nals: seq<Nal>, send: SendFn) returns (bytes: int)
      requires WellBehaved(send)
      modifies this`sent, this`mirror
      ensures var traffic := Transmit(send, sock != -1, |old(sent)|, nals);
        sent == old(sent) + traffic.sends && mirror == old(mirror) + traffic.mirrored
      ensures bytes == AsInt32(WrapU32(TotalSize(nals)))
    {
      bytes := 0;
      var i := 0;
      ghost var traffic := Traffic([], []);
      while i < |nals|
        invariant 0 <= i <= |nals|
        invariant traffic == Transmit(send, sock != -1, |old(sent)|, nals[..i])
        invariant sent == old(sent) + traffic.sends && mirror == old(mirror) + traffic.mirrored
        invariant bytes == AsInt32(WrapU32(TotalSize(nals[..i])))
      {
        TransmitStep(send, sock != -1, |old(sent)|, nals, i);
        ghost var sentMid, mirrorMid := sent, mirror;
        var _ := Write(nals[i].payload, send);
        TrafficAppend(send, sock != -1, old(sent), old(mirror), traffic, nals[i].payload, sentMid, mirrorMid, sent, mirror);
        traffic := TransmitNext(send, sock != -1, |old(sent)|, traffic, nals[i].payload);
        bytes := AddInt32(bytes, |nals[i].payload|, TotalSize(nals[..i]), TotalSize(nals[..i + 1]));
        i := i + 1;
      }
      assert nals[..i] == nals;
    }

    /** `writeHeaders`: the same loop with a `uint32_t` counter. */
    method WriteHeaders(nals: seq<Nal>, send: SendFn) returns (bytes: int)
      requires WellBehaved(send)
      modifies this`sent, this`mirror
      ensures var traffic := Transmit(send, sock != -1, |old(sent)|, nals);
        sent == old(sent) + traffic.sends && mirror == old(mirror) + traffic.mirrored
      ensures bytes == AsInt32(WrapU32(TotalSize(nals)))
    {
      var acc: nat := 0;
      var i := 0;
      ghost var traffic := Traffic([], []);
      while i < |nals|
        invariant 0 <= i <= |nals|
        invariant traffic == Transmit(send, sock != -1, |old(sent)|, nals[..i])
        invariant sent == old(sent) + traffic.sends && mirror == old(mirror) + traffic.mirrored
        invariant acc == WrapU32(TotalSize(nals[..i]))
      {
        TransmitStep(send, sock != -1, |old(sent)|, nals, i);
        ghost var sentMid, mirrorMid := sent, mirror;
        var _ := Write(nals[i].payload, send);
        TrafficAppend(send, sock != -1, old(sent), old(mirror), traffic, nals[i].payload, sentMid, mirrorMid, sent, mirror);
        traffic := TransmitNext(send, sock != -1, |old(sent)|, traffic, nals[i].payload);
        acc := AddU32(acc, |nals[i].payload|, TotalSize(nals[..i]), TotalSize(nals[..i + 1]));
        i := i + 1;
      }
      assert nals[..i] == nals;
      bytes := AsInt32(acc);
    }
  }

  /** Nothing is mirrored for a NAL whose `write` failed, and everything is
      for one that succeeded: with a socket and every chunk accepted whole,
      the capture file receives exactly the concatenated payloads. */
  lemma {:induction false} FullTrafficMirrorsAll(send: SendFn, n: nat, nals: seq<Nal>)
    requires AlwaysFull(send)
    ensures WellBehaved(send)
    ensures Transmit(send, true, n, nals).mirrored == Concat(Payloads(nals))
  {
    if nals != [] {
      var init := nals[..|nals| - 1];
      FullTrafficMirrorsAll(send, n, init);
      var before := Transmit(send, true, n, init);
      FullSendsCount(send, n + |before.sends|, nals[|nals| - 1].payload, 0);
      assert Payloads(nals) == Payloads(init) + [nals[|nals| - 1].payload];
      ConcatSnoc(Payloads(init), nals[|nals| - 1].payload);
    }
  }

  /** With no socket, no datagram is sent and nothing is mirrored. */
  lemma {:induction false} ClosedSocketSendsNothing(send: SendFn, n: nat, nals: seq<Nal>)
    requires WellBehaved(send)
    ensures Transmit(send, false, n, nals) == Traffic([], [])
  {
    if nals != [] {
      ClosedSocketSendsNothing(send, n, nals[..|nals| - 1]);
    }
  }

  function Concat(ps: seq<seq<Byte>>): seq<Byte>
  {
    if ps == [] then [] else ps[0] + Concat(ps[1..])
  }

  lemma {:induction false} ConcatSnoc(ps: seq<seq<Byte>>, p: seq<Byte>)
    ensures Concat(ps + [p]) == Concat(ps) + p
  {
    if ps != [] {
      assert (ps + [p])[1..] == ps[1..] + [p];
      ConcatSnoc(ps[1..], p);
    } else {
      assert [p][1..] == [];
    }
  }

  // ---------------------------------------------------------------------
  // UdpWriter::construct

  /** `str.find(':', from)`: the first `':'` at or after `from`. */
  function FindColon(s: string, from: nat): (r: Option<nat>)
    requires from <= |s|
    ensures r.Some? ==> (from <= r.value < |s| && s[r.value] == ':' &&
                         forall k :: from <= k < r.value ==> s[k] != ':')
    ensures r.None? ==> forall k :: from <= k < |s| ==> s[k] != ':'
    decreases |s| - from
  {
    if from == |s| then None
    else if s[from] == ':' then Some(from)
    else FindColon(s, from + 1)
  }

  /** The last `':'` of `s` before position `end`, if any. */
  function LastColon(s: string, end: nat): (r: Option<nat>)
    requires end <= |s|
    ensures r.Some? ==> (r.value < end && s[r.value] == ':' &&
                         forall k :: r.value < k < end ==> s[k] != ':')
    ensures r.None? ==> forall k :: 0 <= k < end ==> s[k] != ':'
  {
    if end == 0 then None
    else if s[end - 1] == ':' then Some(end - 1)
    else LastColon(s, end - 1)
  }

  /** Where the segment that ends at position `end` starts: just after the
      previous `':'`, or at 0. */
  function SegmentStart(s: string, end: nat): nat
    requires end <= |s|
  {
    match LastColon(s, end) case None => 0 case Some(prev) => prev + 1
  }

  /** The endpoint named by `str` (the name without `udp://`): the port is
      the text after the last `':'` (all of it when there is none); the
      address is the text between the last `':'` and the one before it (or
      the start), and empty when there is no `':'`. */
  function EndpointIp(str: string): string
  {
    match LastColon(str, |str|)
    case None => ""
    case Some(last) => str[SegmentStart(str, last)..last]
  }

  function EndpointPort(str: string): string
  {
    match LastColon(str, |str|)
    case None => str
    case Some(last) => str[last + 1..]
  }

  /** The delimiter scan of `construct`: `ip` is overwritten by every
      segment that a `':'` ends, and `port` is what follows the last one. */
  method SplitEndpoint(str: string) returns (ip: string, port: string)
    ensures ip == EndpointIp(str) && port == EndpointPort(str)
  {
    ip := "";
    var previous: nat := 0;
    var current := FindColon(str, 0);
    while current.Some?
      invariant ScanState(str, previous, ip) && current == FindColon(str, previous)
      decreases |str| - previous
    {
      var c := current.value;
      ScanStep(str, previous, ip, c);
      ip := str[previous..c];
      previous := c + 1;
      current := FindColon(str, previous);
    }
    ScanEnd(str, previous, ip);
    port := str[previous..];
  }

  /** The state of the scan after the segment that ends just before
      `previous`: `ip` is that segment (empty before the first `':'`). */
  predicate ScanState(str: string, previous: nat, ip: string)
  {
    previous <= |str| &&
    (previous == 0 ==> ip == "") &&
    (previous > 0 ==> LastColon(str, previous) == Some(previous - 1) &&
                      ip == str[SegmentStart(str, previous - 1)..previous - 1])
  }

  lemma ScanStep(str: string, previous: nat, ip: string, c: nat)
    requires ScanState(str, previous, ip) && FindColon(str, previous) == Some(c)
    ensures previous <= c < |str| && ScanState(str, c + 1, str[previous..c])
  {
    ColonsBefore(str, previous, c);
    assert SegmentStart(str, c) == previous;
  }

  lemma ScanEnd(str: string, previous: nat, ip: string)
    requires ScanState(str, previous, ip) && FindColon(str, previous) == None
    ensures ip == EndpointIp(str) && str[previous..] == EndpointPort(str)
  {
    ColonsBefore(str, previous, |str|);
  }

  /** With no `':'` in `[previous, end)`, the last `':'` before `end` is the
      one just before `previous`, if any. */
  lemma ColonsBefore(s: string, previous: nat, end: nat)
    requires previous <= end <= |s|
    requires previous > 0 ==> LastColon(s, previous) == Some(previous - 1)
    requires forall k :: previous <= k < end ==> s[k] != ':'
    ensures LastColon(s, end) == (if previous == 0 then None else Some(previous - 1))
  {
    if previous == 0 {
      NoColonBefore(s, end);
    } else {
      LastColonAfter(s, end, previous - 1);
    }
  }

  /** Round trip: the address and port written as `udp://ip:port` are read
      back by the split, whenever neither contains a `':'`. */
  lemma EndpointRoundTrip(ip: string, port: string)
    requires forall k :: 0 <= k < |ip| ==> ip[k] != ':'
    requires forall k :: 0 <= k < |port| ==> port[k] != ':'
    ensures EndpointIp(ip + ":" + port) == ip && EndpointPort(ip + ":" + port) == port
  {
    var s := ip + ":" + port;
    assert LastColon(s, |s|) == Some(|ip|) by {
      LastColonAfter(s, |s|, |ip|);
    }
    assert LastColon(s, |ip|) == None by {
      NoColonBefore(s, |ip|);
    }
    assert s[..|ip|] == ip && s[|ip| + 1..] == port;
  }

  lemma {:induction false} LastColonAfter(s: string, end: nat, c: nat)
    requires c < end <= |s| && s[c] == ':'
    requires forall k :: c < k < end ==> s[k] != ':'
    ensures LastColon(s, end) == Some(c)
    decreases end
  {
    if end - 1 != c {
      LastColonAfter(s, end - 1, c);
    }
  }

  lemma {:induction false} NoColonBefore(s: string, end: nat)
    requires end <= |s| && forall k :: 0 <= k < end ==> s[k] != ':'
    ensures LastColon(s, end) == None
  {
    if end > 0 {
      NoColonBefore(s, end - 1);
    }
  }

  /** `construct`: strips `udp://`, splits the endpoint, and creates the
      writer; `socketFd` is what `socket()` returns. When the socket cannot
      be created the writer is discarded and the result is null. The port
      text must be a plain numeral (`StoiDefined`), a subset of what
      `std::stoi` accepts. */
  method Construct(fname: string, socketFd: int) returns (w: UdpWriter?)
    requires |UdpPrefix| <= |fname|
    requires socketFd != -1 ==> StoiDefined(EndpointPort(fname[|UdpPrefix|..]))
    ensures (w == null) == (socketFd == -1)
    ensures w != null ==>
      (fresh(w) && w.sock == socketFd && w.sent == [] && w.mirror == [] &&
       w.ip == EndpointIp(fname[|UdpPrefix|..]) &&
       w.port == Stoi(EndpointPort(fname[|UdpPrefix|..])) % 0x1_0000)
  {
    var str := fname[|UdpPrefix|..];
    var ip, port := SplitEndpoint(str);
    var out := new UdpWriter();
    var ok := out.Initialize(socketFd);
    if !ok {
      return null;
    }
    out.SetEndpoint(ip, Stoi(port));
    return out;
  }
}
