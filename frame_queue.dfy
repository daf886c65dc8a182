/** The byte FIFO of source/input/frameq.cpp. */
module FrameQ {
  import opened Bytes

  /** `FrameQueue`: one heap buffer (`Buffer`) holding `Bytes` queued bytes.
      `Push` grows the buffer with `realloc` and appends with `memcpy`;
      `Pop` copies from the head with `memcpy` and shifts the rest down with
      `memmove`. The allocation never shrinks, so after a `Pop` the buffer
      may be longer than `bytes`. */
  class FrameQueue {
    var buffer: array<Byte>
    var bytes: nat

    ghost predicate Valid()
      reads this
    {
      bytes <= buffer.Length
    }

    /** The queued bytes, oldest first. */
    ghost function Contents(): seq<Byte>
      reads this, buffer
      requires Valid()
    {
      buffer[..bytes]
    }

    /** `Buffer(nullptr), Bytes(0)`: a new queue is empty. */
    constructor ()
      ensures Valid() && fresh(buffer)
      ensures bytes == 0 && Contents() == []
    {
      buffer := new Byte[0];
      bytes := 0;
    }

    /** Appends `data[0..sz)` at the tail. */
    method Push(data: array<Byte>, sz: nat)
      requires Valid()
      requires sz <= data.Length
      modifies this
      ensures Valid() && fresh(buffer)
      ensures bytes == old(bytes) + sz
      ensures Contents() == old(Contents()) + data[..sz]
    {
      // realloc(Buffer, Bytes + sz): a new block that keeps the queued bytes
      var grown := new Byte[bytes + sz];
      forall k | 0 <= k < bytes {
        grown[k] := buffer[k];
      }
      // memcpy(Buffer + Bytes, data, sz)
      forall k | 0 <= k < sz {
        grown[bytes + k] := data[k];
      }
      assert grown[..bytes + sz] == buffer[..bytes] + data[..sz];
      buffer := grown;
      bytes := bytes + sz;
    }

    /** Moves the first `sz` queued bytes into `out[0..sz)`. The source does
        not check `sz <= Bytes`; a larger `sz` reads past the queued bytes,
        so it is a precondition here. */
    method Pop(out: array<Byte>, sz: nat)
      requires Valid()
      requires sz <= bytes
      requires sz <= out.Length && out != buffer
      modifies this, buffer, out
      ensures Valid() && buffer == old(buffer)
      ensures bytes == old(bytes) - sz
      ensures out[..sz] == old(Contents())[..sz]
      ensures out[sz..] == old(out[sz..])
      ensures Contents() == old(Contents())[sz..]
    {
      // memcpy(data, Buffer, sz)
      forall k | 0 <= k < sz {
        out[k] := buffer[k];
      }
      // memmove(Buffer, Buffer + sz, Bytes - sz), copying front to back
      var k := 0;
      while k < bytes - sz
        modifies buffer
        invariant 0 <= k <= bytes - sz
        invariant forall j :: 0 <= j < k ==> buffer[j] == old(buffer[j + sz])
        invariant forall j :: k <= j < buffer.Length ==> buffer[j] == old(buffer[j])
      {
        buffer[k] := buffer[k + sz];
        k := k + 1;
      }
      bytes := bytes - sz;
    }
  }

  /** One step of a producer/consumer session on a queue. */
  datatype Op = PushOp(data: seq<Byte>) | PopOp(count: nat)

  /** Bytes pushed over the whole session, in order. */
  function Pushed(ops: seq<Op>): seq<Byte>
  {
    if ops == [] then []
    else Pushed(ops[..|ops| - 1]) + (match ops[|ops| - 1] case PushOp(d) => d case PopOp(_) => [])
  }

  /** Number of bytes popped over the whole session. */
  function Consumed(ops: seq<Op>): nat
  {
    if ops == [] then 0
    else Consumed(ops[..|ops| - 1]) + (match ops[|ops| - 1] case PushOp(_) => 0 case PopOp(n) => n)
  }

  /** No `Pop` of the session asks for more than is queued at that point. */
  predicate NoUnderflow(ops: seq<Op>)
  {
    ops == [] || (NoUnderflow(ops[..|ops| - 1]) && Consumed(ops) <= |Pushed(ops)|)
  }

  /** The effect of step `i` on the running totals. */
  lemma StepTotals(ops: seq<Op>, i: nat)
    requires i < |ops|
    ensures Pushed(ops[..i + 1]) == Pushed(ops[..i]) + (if ops[i].PushOp? then ops[i].data else [])
    ensures Consumed(ops[..i + 1]) == Consumed(ops[..i]) + (if ops[i].PopOp? then ops[i].count else 0)
    ensures NoUnderflow(ops[..i + 1]) ==> NoUnderflow(ops[..i])
  {
    assert ops[..i + 1][..i] == ops[..i];
  }

  lemma {:induction false} PrefixNoUnderflow(ops: seq<Op>, n: nat)
    requires NoUnderflow(ops) && n <= |ops|
    ensures NoUnderflow(ops[..n])
  {
    if n < |ops| {
      assert ops[..|ops| - 1][..n] == ops[..n];
      PrefixNoUnderflow(ops[..|ops| - 1], n);
    } else {
      assert ops[..n] == ops;
    }
  }

  /** Performs one step on `q`, returning the bytes a pop hands out. */
  method Apply(q: FrameQueue, op: Op) returns (out: seq<Byte>)
    requires q.Valid()
    requires op.PopOp? ==> op.count <= q.bytes
    modifies q, q.buffer
    ensures q.Valid() && (q.buffer == old(q.buffer) || fresh(q.buffer))
    ensures op.PushOp? ==> out == [] && q.Contents() == old(q.Contents()) + op.data
    ensures op.PopOp? ==> out == old(q.Contents())[..op.count] && q.Contents() == old(q.Contents())[op.count..]
  {
    match op {
      case PushOp(d) =>
        var src := new Byte[|d|](k requires 0 <= k < |d| => d[k]);
        q.Push(src, |d|);
        assert src[..|d|] == d;
        out := [];
      case PopOp(n) =>
        var dst := new Byte[n];
        q.Pop(dst, n);
        out := dst[..n];
    }
  }

  /** Runs a session on a fresh queue and returns the concatenation of every
      popped block and the final size. Whatever the interleaving, the popped
      bytes are exactly the first pushed bytes in push order, and the size is
      always bytes appended minus bytes consumed. */
  method RunSession(ops: seq<Op>) returns (popped: seq<Byte>, size: nat)
    requires NoUnderflow(ops)
    ensures size == |Pushed(ops)| - Consumed(ops)
    ensures popped == Pushed(ops)[..Consumed(ops)]
  {
    var q := new FrameQueue();
    popped := [];
    var i := 0;
    while i < |ops|
      invariant 0 <= i <= |ops|
      invariant q.Valid() && fresh(q.buffer)
      invariant Pushed(ops[..i]) == popped + q.Contents()
      invariant |popped| == Consumed(ops[..i])
    {
      ghost var before := q.Contents();
      if ops[i].PopOp? {
        PopFits(ops, i, popped, before);
      }
      var out := Apply(q, ops[i]);
      SessionStep(ops, i, popped, before, out, q.Contents());
      popped := popped + out;
      i := i + 1;
    }
    assert ops[..|ops|] == ops;
    size := q.bytes;
  }

  /** A pop of a session without underflow asks for no more than is queued
      when it runs. */
  lemma PopFits(ops: seq<Op>, i: nat, popped: seq<Byte>, queued: seq<Byte>)
    requires NoUnderflow(ops) && i < |ops| && ops[i].PopOp?
    requires Pushed(ops[..i]) == popped + queued && |popped| == Consumed(ops[..i])
    ensures ops[i].count <= |queued|
  {
    StepTotals(ops, i);
    PrefixNoUnderflow(ops, i + 1);
  }

  /** One step keeps "pushed so far = popped so far + queued" and "popped
      so far = consumed so far". */
  lemma SessionStep(ops: seq<Op>, i: nat, popped: seq<Byte>, before: seq<Byte>, out: seq<Byte>, after: seq<Byte>)
    requires i < |ops|
    requires Pushed(ops[..i]) == popped + before && |popped| == Consumed(ops[..i])
    requires ops[i].PushOp? ==> out == [] && after == before + ops[i].data
    requires ops[i].PopOp? ==> ops[i].count <= |before| && out == before[..ops[i].count] && after == before[ops[i].count..]
    ensures Pushed(ops[..i + 1]) == (popped + out) + after && |popped + out| == Consumed(ops[..i + 1])
  {
    StepTotals(ops, i);
    if ops[i].PopOp? {
      assert before == out + after;
    }
  }

  /** Round trip on a new queue: `Push(a)` then `Pop(|a|)` yields `a` and
      leaves the queue empty. */
  method PushThenPop(a: seq<Byte>) returns (popped: seq<Byte>, left: nat)
    ensures popped == a && left == 0
  {
    var q := new FrameQueue();
    var src := new Byte[|a|](k requires 0 <= k < |a| => a[k]);
    q.Push(src, |a|);
    assert src[..|a|] == a;
    var dst := new Byte[|a|];
    q.Pop(dst, |a|);
    popped := dst[..];
    left := q.bytes;
  }

  /** FIFO order: `Push(a); Push(b); Pop(|a|)` yields `a`, and exactly `b`
      remains queued. */
  method FifoOrder(a: seq<Byte>, b: seq<Byte>) returns (popped: seq<Byte>, rest: seq<Byte>)
    ensures popped == a && rest == b
  {
    var q := new FrameQueue();
    var srcA := new Byte[|a|](k requires 0 <= k < |a| => a[k]);
    var srcB := new Byte[|b|](k requires 0 <= k < |b| => b[k]);
    q.Push(srcA, |a|);
    assert srcA[..|a|] == a;
    q.Push(srcB, |b|);
    assert srcB[..|b|] == b;
    var dst := new Byte[|a|];
    q.Pop(dst, |a|);
    popped := dst[..];
    rest := q.buffer[..q.bytes];
  }
}
