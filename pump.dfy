/** The encode loop of `x265main` (source/x265.cpp): stream headers, the
    main loop that reads pictures and hands them (or their two fields) to
    the encoder, the flush loop that drains the encoder, and the final
    `closeFile` with the pts window. The encoder, the input and the
    interruption flags are outside the model and enter as parameters: the
    encoder as the results of its successive `encoder_encode` calls, the
    input as the number of pictures it can deliver. */
module Pump {
  import opened Bytes
  import opened PtsWindow

  /** What one `encoder_encode` call gives back: the number of pictures it
      output (negative on failure), the number of NAL units, what
      `output->writeFrame` returns for them, and the output picture's pts. */
  datatype Encoded = Encoded(count: int, nals: nat, written: int, pts: int)

  /** The encoder, as the results of its calls in order. */
  type Encoder = nat -> Encoded

  /** The settings and the outside world of one run: how many pictures the
      input holds, `--frames` (0 for all), field (interlaced) input,
      `--repeat-headers`, whether the SVT-HEVC encoder is enabled, what `encoder_headers` and then `writeHeaders`
      return, whether a Dolby Vision RPU file is in use, whether the output
      asks for PTS tracking, and the loop-condition check from which
      `b_ctrl_c` or `killed` reads true (none if never). */
  datatype Config = Config(frames: nat, framesToBeEncoded: nat, fieldMode: bool,
                           repeatHeaders: bool, svtHevc: bool, headerResult: int, headerBytes: int,
                           dolby: bool, needPts: bool, kill: Option<nat>)

  /** The flags read true at loop-condition check `h`; once set they stay
      set. */
  predicate KilledAt(cfg: Config, h: nat)
  {
    cfg.kill.Some? && h >= cfg.kill.value
  }

  /** The number of pictures a run reads when nothing stops it. */
  function Limit(cfg: Config): nat
  {
    if cfg.framesToBeEncoded > 0 && cfg.framesToBeEncoded < cfg.frames then cfg.framesToBeEncoded else cfg.frames
  }

  /** The pictures handed to the encoder for `n` pictures read: each frame,
      or each frame's two fields. */
  function Handed(cfg: Config, n: nat): nat
  {
    if cfg.fieldMode then n + n else n
  }

  /** Whether `encoder_headers` is called before the main loop: neither
      `--repeat-headers` nor SVT-HEVC is in use. */
  predicate WritesHeaders(cfg: Config)
  {
    !cfg.repeatHeaders && !cfg.svtHevc
  }

  /** What the stream headers add to `totalbytes`. */
  function HeaderBytes(cfg: Config): int
  {
    if WritesHeaders(cfg) && cfg.headerResult >= 0 then cfg.headerBytes else 0
  }

  /** What one successful call adds to `totalbytes`. */
  function Written(e: Encoded): int
  {
    if e.nals != 0 then e.written else 0
  }

  function WrittenSum(encode: Encoder, n: nat): int
  {
    if n == 0 then 0 else WrittenSum(encode, n - 1) + Written(encode(n - 1))
  }

  function CountSum(encode: Encoder, n: nat): int
  {
    if n == 0 then 0 else CountSum(encode, n - 1) + encode(n - 1).count
  }

  /** The pts of the written frames among the first `n` calls, in order. */
  function PtsOf(encode: Encoder, n: nat): seq<int>
  {
    if n == 0 then []
    else PtsOf(encode, n - 1) + (if encode(n - 1).nals != 0 then [encode(n - 1).pts] else [])
  }

  /** None of the first `n` calls failed. */
  predicate NoFailure(encode: Encoder, n: nat)
  {
    forall k :: 0 <= k < n ==> encode(k).count >= 0
  }

  /** From call `drain` on the encoder has nothing left to output. */
  ghost predicate Drains(encode: Encoder, drain: nat)
  {
    forall n: nat :: n >= drain ==> encode(n).count == 0
  }

  /** Without a failed call the output counter never goes negative. */
  lemma {:induction false} CountSumNonNegative(encode: Encoder, n: nat)
    requires NoFailure(encode, n)
    ensures CountSum(encode, n) >= 0
  {
    if n > 0 {
      CountSumNonNegative(encode, n - 1);
    }
  }

  /** The pts window sees exactly the pts of the calls that returned NAL
      units, at most one per call. */
  lemma {:induction false} PtsOfWritten(encode: Encoder, n: nat)
    ensures |PtsOf(encode, n)| <= n
    ensures forall i :: 0 <= i < |PtsOf(encode, n)| ==>
      exists k :: 0 <= k < n && encode(k).nals != 0 && encode(k).pts == PtsOf(encode, n)[i]
    ensures forall k :: 0 <= k < n && encode(k).nals != 0 ==> encode(k).pts in PtsOf(encode, n)
  {
    if n > 0 {
      PtsOfWritten(encode, n - 1);
      var p := PtsOf(encode, n - 1);
      var e := encode(n - 1);
      assert PtsOf(encode, n) == p + (if e.nals != 0 then [e.pts] else []);
      forall i | 0 <= i < |PtsOf(encode, n)|
        ensures exists k :: 0 <= k < n && encode(k).nals != 0 && encode(k).pts == PtsOf(encode, n)[i]
      {
        if i < |p| {
          assert PtsOf(encode, n)[i] == p[i];
          var k :| 0 <= k < n - 1 && encode(k).nals != 0 && encode(k).pts == p[i];
        } else {
          assert PtsOf(encode, n)[i] == e.pts;
        }
      }
    }
  }

  /** `totalbytes`, the output counter and the written pts are those of the
      first `n` calls, none of which failed. */
  predicate Accounted(encode: Encoder, cfg: Config, n: nat, totalBytes: int, outFrameCount: int, pts: seq<int>)
  {
    NoFailure(encode, n) &&
    totalBytes == HeaderBytes(cfg) + WrittenSum(encode, n) &&
    outFrameCount == CountSum(encode, n) &&
    pts == PtsOf(encode, n)
  }

  /** A successful call adds its own output to the totals. */
  lemma AccountedStep(encode: Encoder, cfg: Config, n: nat, totalBytes: int, outFrameCount: int, pts: seq<int>)
    requires Accounted(encode, cfg, n, totalBytes, outFrameCount, pts) && encode(n).count >= 0
    ensures var e := encode(n);
      Accounted(encode, cfg, n + 1, totalBytes + Written(e), outFrameCount + e.count,
                pts + (if e.nals != 0 then [e.pts] else []))
  {
  }

  /** 0, 1, …, n - 1. */
  function Iota(n: nat): (s: seq<int>)
    ensures |s| == n && forall i :: 0 <= i < n ==> s[i] == i
  {
    seq(n, i => i)
  }

  /** The `rpuParser` calls for one picture read, the `start`-th call of
      the run first: one per picture handed over, stopping at the first
      failure. */
  method ParseRpus(rpuFails: nat -> bool, start: nat, count: nat) returns (failed: bool, next: nat)
    ensures start <= next <= start + count
    ensures failed <==> exists k :: start <= k < start + count && rpuFails(k)
    ensures failed ==> next > start && rpuFails(next - 1) && forall k :: start <= k < next - 1 ==> !rpuFails(k)
    ensures !failed ==> next == start + count
  {
    next := start;
    while next < start + count
      invariant start <= next <= start + count
      invariant forall k :: start <= k < next ==> !rpuFails(k)
    {
      var f := rpuFails(next);
      next := next + 1;
      if f {
        return true, next;
      }
    }
    return false, next;
  }

  /** What `closeFile` receives for the pts written: the largest and the
      second largest when the output tracks pts and two or more were
      written, zeros otherwise. */
  function CloseArgs(needPts: bool, pts: seq<int>): (int, int)
  {
    if needPts && |pts| >= 2 then (Largest(pts), SecondLargest(pts)) else (0, 0)
  }

  /** What a run leaves behind: the exit code, `totalbytes`, the two frame
      counters, the number of encoder calls, the pts of the pictures handed
      to the encoder in order, the values handed to `closeFile`, and
      whether a loop stopped on the interruption flags or on an RPU parse
      failure. */
  datatype Summary = Summary(ret: int, totalBytes: int, inFrameCount: nat, outFrameCount: int,
                             calls: nat, pictures: seq<int>, largest: int, secondLargest: int,
                             interrupted: bool, rpuFailed: bool)

  /** The locals of `x265main` that the loops update. */
  class Session {
    const cfg: Config
    const encode: Encoder
    const rpuFails: nat -> bool
    var ret: int
    var ctrlC: bool
    var checks: nat
    var calls: nat
    var totalBytes: int
    var outFrameCount: int
    var inFrameCount: nat
    var pictures: seq<int>
    var queue: PtsQueue?
    ghost var ptsSeen: seq<int>

    /** The calls whose output is accounted for: all of them, or all but a
        failed last one. */
    ghost function Done(): nat
      reads this`ret, this`calls
    {
      if ret == 4 && calls > 0 then calls - 1 else calls
    }

    ghost predicate QueueOk()
      reads this`queue, this`ptsSeen, queue
    {
      (queue != null ==> queue.Valid() && queue.items == Window(ptsSeen)) &&
      (queue != null <==> cfg.needPts)
    }

    ghost predicate Valid()
      reads this`queue, this`ptsSeen, queue, this`ret, this`calls
      reads this`totalBytes, this`outFrameCount, this`pictures
    {
      QueueOk() &&
      (ret == 0 || ret == 4) &&
      (ret == 4 ==> calls > 0 && encode(calls - 1).count < 0) &&
      Accounted(encode, cfg, Done(), totalBytes, outFrameCount, ptsSeen) &&
      pictures == Iota(|pictures|)
    }

    /** The start of the run up to the main loop, when the headers were
        written. */
    constructor (cfg: Config, encode: Encoder, rpuFails: nat -> bool)
      requires !(WritesHeaders(cfg) && cfg.headerResult < 0)
      ensures Valid() && this.cfg == cfg && this.encode == encode && this.rpuFails == rpuFails
      ensures ret == 0 && !ctrlC && checks == 0 && calls == 0 && inFrameCount == 0
      ensures pictures == [] && totalBytes == HeaderBytes(cfg)
      ensures queue != null ==> fresh(queue)
    {
      this.cfg := cfg;
      this.encode := encode;
      this.rpuFails := rpuFails;
      ret, ctrlC, checks, calls := 0, false, 0, 0;
      totalBytes := if WritesHeaders(cfg) then cfg.headerBytes else 0;
      outFrameCount, inFrameCount, pictures := 0, 0, [];
      ptsSeen := [];
      if cfg.needPts {
        queue := new PtsQueue();
      } else {
        queue := null;
      }
    }

    /** One `encoder_encode` call and what follows it in both loops: the
        output counter, the frame written out, and the pts window. A failed
        call sets the exit code 4. */
    method EncodeStep() returns (failed: bool)
      requires Valid() && ret == 0
      modifies this`calls, this`ret, this`outFrameCount, this`totalBytes, this`ptsSeen, queue
      ensures Valid() && calls == old(calls) + 1
      ensures failed <==> encode(old(calls)).count < 0
      ensures ret == (if failed then 4 else 0)
    {
      var e := encode(calls);
      if e.count < 0 {
        calls := calls + 1;
        ret := 4;
        return true;
      }
      Record(e);
      return false;
    }

    /** What follows a successful call: the output counter, the frame
        written out (`totalbytes`), and the pts window. */
    method Record(e: Encoded)
      requires Valid() && ret == 0 && e == encode(calls) && e.count >= 0
      modifies this`calls, this`outFrameCount, this`totalBytes, this`ptsSeen, queue
      ensures Valid() && calls == old(calls) + 1
    {
      AccountedStep(encode, cfg, calls, totalBytes, outFrameCount, ptsSeen);
      if e.nals != 0 && queue != null {
        WindowStep(ptsSeen, e.pts);
        Track(queue, e.pts);
      }
      calls := calls + 1;
      outFrameCount := outFrameCount + e.count;
      if e.nals != 0 {
        totalBytes := totalBytes + e.written;
        ptsSeen := ptsSeen + [e.pts];
      }
    }

    /** One picture (or a null picture, to flush) handed to the encoder;
        a failed call also sets `b_ctrl_c`. */
    method Submit(picture: Option<int>) returns (failed: bool)
      requires Valid() && ret == 0
      requires picture.Some? ==> picture.value == |pictures|
      modifies this`calls, this`ret, this`outFrameCount, this`totalBytes, this`ptsSeen, queue
      modifies this`pictures, this`ctrlC
      ensures Valid() && calls == old(calls) + 1
      ensures failed <==> ret == 4
      ensures ctrlC == (old(ctrlC) || failed)
      ensures pictures == old(pictures) + (if picture.Some? then [picture.value] else [])
    {
      if picture.Some? {
        assert pictures + [|pictures|] == Iota(|pictures| + 1);
        pictures := pictures + [|pictures|];
      }
      failed := EncodeStep();
      if failed {
        ctrlC := true;
      }
    }

    /** The pictures handed over for one picture read: the frame itself, or
        its two fields (the frame's poc and the next). */
    method HandOver(picture: Option<int>, inputPicNum: nat) returns (failed: bool)
      requires Valid() && ret == 0 && (inputPicNum == 1 || inputPicNum == 2)
      requires picture.Some? ==> picture.value == |pictures|
      modifies this`calls, this`ret, this`outFrameCount, this`totalBytes, this`ptsSeen, queue
      modifies this`pictures, this`ctrlC
      ensures Valid()
      ensures failed <==> ret == 4
      ensures ctrlC == (old(ctrlC) || failed)
      ensures old(calls) < calls <= old(calls) + inputPicNum
      ensures !failed ==> calls == old(calls) + inputPicNum
      ensures picture.Some? && !failed ==> |pictures| == |old(pictures)| + inputPicNum
      ensures picture.None? ==> pictures == old(pictures)
      ensures |old(pictures)| <= |pictures| <= |old(pictures)| + inputPicNum
    {
      var inputNum := 0;
      failed := false;
      while inputNum < inputPicNum
        invariant Valid() && 0 <= inputNum <= inputPicNum
        invariant ret == 0 && ctrlC == old(ctrlC)
        invariant calls == old(calls) + inputNum
        invariant picture.Some? ==> |pictures| == |old(pictures)| + inputNum
        invariant picture.None? ==> pictures == old(pictures)
      {
        var field := if picture.Some? then Some(picture.value + inputNum) else None;
        failed := Submit(field);
        if failed {
          return;
        }
        inputNum := inputNum + 1;
      }
    }

    /** The invariant of the main loop, with its two loop-carried locals:
        whether the last read gave a picture, and how many pictures each
        read hands to the encoder. */
    ghost predicate MainInv(picIn: bool, inputPicNum: nat)
      reads this`queue, this`ptsSeen, queue, this`ret, this`calls
      reads this`totalBytes, this`outFrameCount, this`pictures
      reads this`inFrameCount, this`ctrlC, this`checks
    {
      Valid() &&
      inFrameCount <= Limit(cfg) &&
      (ctrlC <==> ret == 4) &&
      inputPicNum == (if cfg.fieldMode && inFrameCount > 0 then 2 else 1) &&
      (ret == 0 ==> |pictures| == Handed(cfg, inFrameCount)) &&
      |pictures| <= Handed(cfg, inFrameCount) &&
      (!picIn ==> inFrameCount == Limit(cfg) && calls > 0) &&
      (ctrlC ==> checks > 0)
    }

    /** The body of the main loop once its condition held: the next
        picture is read unless `--frames` is reached or the input is
        exhausted, its RPUs are parsed, and it (or its fields, or a null
        picture) goes to the encoder. */
    method MainStep(inputPicNum: nat, rpuCalls: nat) returns (picIn': bool, inputPicNum': nat, rpuCalls': nat, rpuFailed: bool)
      requires MainInv(true, inputPicNum) && !ctrlC && checks > 0
      modifies this`calls, this`ret, this`outFrameCount, this`totalBytes, this`ptsSeen, queue
      modifies this`pictures, this`ctrlC, this`inFrameCount
      ensures Valid() && queue == old(queue)
      ensures rpuFailed ==> cfg.dolby && ret == 0 && !ctrlC && |pictures| <= Handed(cfg, inFrameCount)
      ensures !rpuFailed ==> MainInv(picIn', inputPicNum')
      ensures old(inFrameCount) <= inFrameCount <= Limit(cfg)
      ensures inFrameCount + (if picIn' then 0 else 1) > old(inFrameCount)
    {
      rpuCalls', inputPicNum' := rpuCalls, inputPicNum;
      rpuFailed := false;
      var poc := if cfg.fieldMode then inFrameCount + inFrameCount else inFrameCount;
      picIn' := true;
      if cfg.framesToBeEncoded > 0 && inFrameCount >= cfg.framesToBeEncoded {
        picIn' := false;
      } else if inFrameCount < cfg.frames {
        inFrameCount := inFrameCount + 1;
      } else {
        picIn' := false;
      }
      var picture: Option<int> := None;
      if picIn' {
        if cfg.fieldMode {
          inputPicNum' := 2;
        }
        if cfg.dolby {
          rpuFailed, rpuCalls' := ParseRpus(rpuFails, rpuCalls, inputPicNum');
          if rpuFailed {
            return;
          }
        }
        picture := Some(poc);
      }
      var failed := HandOver(picture, inputPicNum');
    }

    /** The main encoder loop. It ends when no picture is left to hand
        over, on an encoder failure, on the interruption flags, or on an
        RPU parse failure (`goto fail`, which also skips the flush). */
    method MainLoop() returns (interrupted: bool, rpuFailed: bool)
      requires Valid() && ret == 0 && !ctrlC && calls == 0 && inFrameCount == 0 && pictures == []
      modifies this`calls, this`ret, this`outFrameCount, this`totalBytes, this`ptsSeen, queue
      modifies this`pictures, this`ctrlC, this`checks, this`inFrameCount
      ensures Valid() && queue == old(queue)
      ensures inFrameCount <= Limit(cfg) && |pictures| <= Handed(cfg, inFrameCount)
      ensures ctrlC <==> ret == 4
      ensures rpuFailed ==> cfg.dolby && ret == 0
      ensures checks > 0 && (interrupted ==> KilledAt(cfg, checks - 1) && ret == 0)
      ensures ret == 0 && !interrupted && !rpuFailed ==>
        inFrameCount == Limit(cfg) && |pictures| == Handed(cfg, inFrameCount) && calls > 0
    {
      var picIn := true;
      var inputPicNum := 1;
      var rpuCalls := 0;
      interrupted, rpuFailed := false, false;
      while true
        invariant MainInv(picIn, inputPicNum) && queue == old(queue)
        decreases Limit(cfg) - inFrameCount + (if picIn then 1 else 0)
      {
        var killed := KilledAt(cfg, checks);
        checks := checks + 1;
        if !(picIn && !ctrlC && !killed) {
          interrupted := picIn && !ctrlC;
          return;
        }
        picIn, inputPicNum, rpuCalls, rpuFailed := MainStep(inputPicNum, rpuCalls);
        if rpuFailed {
          return;
        }
      }
    }

    /** The main loop, then the flush loop unless an RPU failure jumped
        past it. */
    method Run(ghost drain: nat) returns (interrupted: bool, rpuFailed: bool)
      requires Valid() && Drains(encode, drain)
      requires ret == 0 && !ctrlC && calls == 0 && inFrameCount == 0 && pictures == []
      modifies this`calls, this`ret, this`outFrameCount, this`totalBytes, this`ptsSeen, queue
      modifies this`pictures, this`ctrlC, this`checks, this`inFrameCount
      ensures Valid()
      ensures ret == 0 || ret == 4
      ensures ret == 4 ==> calls > 0 && encode(calls - 1).count < 0
      ensures Done() == (if ret == 4 then calls - 1 else calls)
      ensures Accounted(encode, cfg, Done(), totalBytes, outFrameCount, ptsSeen)
      ensures inFrameCount <= Limit(cfg)
      ensures pictures == Iota(|pictures|) && |pictures| <= Handed(cfg, inFrameCount)
      ensures rpuFailed ==> cfg.dolby && ret == 0
      ensures interrupted ==> cfg.kill.Some?
      ensures ret == 0 && !interrupted && !rpuFailed ==>
        inFrameCount == Limit(cfg) && |pictures| == Handed(cfg, inFrameCount) &&
        calls > 0 && encode(calls - 1).count == 0
    {
      interrupted, rpuFailed := MainLoop();
      if !rpuFailed {
        var flushInterrupted := FlushLoop(drain);
        interrupted := interrupted || flushInterrupted;
      }
    }

    /** `closeFile` with what the pts window holds: the two largest pts of
        the frames written, or zeros. */
    method Finish(ghost n: nat) returns (largest: int, secondLargest: int)
      requires Valid() && n == Done()
      modifies queue
      ensures (largest, secondLargest) == CloseArgs(cfg.needPts, PtsOf(encode, n))
    {
      largest, secondLargest := Close(queue);
    }

    /** The flush loop: empty calls until the encoder outputs nothing, an
        encoder failure, or the interruption flags. */
    method FlushLoop(ghost drain: nat) returns (interrupted: bool)
      requires Valid() && Drains(encode, drain) && (ctrlC <==> ret == 4)
      modifies this`calls, this`ret, this`outFrameCount, this`totalBytes, this`ptsSeen, queue
      modifies this`checks
      ensures Valid() && calls >= old(calls)
      ensures old(ret) == 4 ==> ret == 4
      ensures ctrlC ==> calls == old(calls) && ret == old(ret) && !interrupted
      ensures checks > 0 && (interrupted ==> KilledAt(cfg, checks - 1))
      ensures ret == 0 && !interrupted ==> calls > 0 && encode(calls - 1).count == 0 && !ctrlC
    {
      var stop := false;
      interrupted := false;
      ghost var first := true;
      while !stop
        invariant Valid() && calls >= old(calls)
        invariant ctrlC ==> calls == old(calls) && ret == old(ret)
        invariant !stop ==> !interrupted && (!ctrlC ==> ret == 0)
        invariant !first ==> checks > 0
        invariant stop ==> !first && (interrupted ==> KilledAt(cfg, checks - 1))
        invariant stop && ctrlC ==> !interrupted
        invariant stop && ret == 0 && !interrupted ==> calls > 0 && encode(calls - 1).count == 0 && !ctrlC
        invariant old(ret) == 4 ==> ret == 4
        decreases !stop, if calls < drain then drain - calls else 0
      {
        stop, interrupted := FlushTurn(drain);
        first := false;
      }
    }

    /** One turn of the flush loop: the loop condition, then one empty
        call unless the flags are set. */
    method FlushTurn(ghost drain: nat) returns (stop: bool, interrupted: bool)
      requires Valid() && Drains(encode, drain) && (ctrlC ==> ret == 4) && (!ctrlC ==> ret == 0)
      modifies this`calls, this`ret, this`outFrameCount, this`totalBytes, this`ptsSeen, queue
      modifies this`checks
      ensures Valid() && checks == old(checks) + 1
      ensures ctrlC ==> stop && !interrupted && calls == old(calls) && ret == old(ret)
      ensures interrupted ==> stop && KilledAt(cfg, old(checks))
      ensures !stop ==> !interrupted && ret == 0 && calls == old(calls) + 1 && old(calls) < drain
      ensures !ctrlC ==> calls <= old(calls) + 1 && calls >= old(calls)
      ensures stop && ret == 0 && !interrupted ==> !ctrlC && calls > 0 && encode(calls - 1).count == 0
    {
      var killed := KilledAt(cfg, checks);
      checks := checks + 1;
      if ctrlC || killed {
        return true, !ctrlC;
      }
      var before := calls;
      var failed := EncodeStep();
      stop := failed || encode(before).count == 0;
      interrupted := false;
    }
  }

  /** The run once the headers were written: the main loop, the flush
      loop unless an RPU failure jumped past it, and `closeFile`. */
  method Drive(cfg: Config, encode: Encoder, rpuFails: nat -> bool, ghost drain: nat)
    returns (ret: int, totalBytes: int, inFrameCount: nat, outFrameCount: int, calls: nat,
             pictures: seq<int>, largest: int, secondLargest: int, interrupted: bool, rpuFailed: bool)
    requires Drains(encode, drain) && !(WritesHeaders(cfg) && cfg.headerResult < 0)
    ensures ret == 0 || ret == 4
    ensures ret == 4 ==> calls > 0 && encode(calls - 1).count < 0
    ensures var n := if ret == 4 then calls - 1 else calls;
      Accounted(encode, cfg, n, totalBytes, outFrameCount, PtsOf(encode, n)) &&
      (largest, secondLargest) == CloseArgs(cfg.needPts, PtsOf(encode, n))
    ensures inFrameCount <= Limit(cfg)
    ensures pictures == Iota(|pictures|) && |pictures| <= Handed(cfg, inFrameCount)
    ensures rpuFailed ==> cfg.dolby && ret == 0
    ensures interrupted ==> cfg.kill.Some?
    ensures ret == 0 && !interrupted && !rpuFailed ==>
      inFrameCount == Limit(cfg) && |pictures| == Handed(cfg, inFrameCount) &&
      calls > 0 && encode(calls - 1).count == 0
  {
    var session := new Session(cfg, encode, rpuFails);
    interrupted, rpuFailed := session.Run(drain);
    ret, totalBytes, inFrameCount := session.ret, session.totalBytes, session.inFrameCount;
    outFrameCount, calls, pictures := session.outFrameCount, session.calls, session.pictures;
    ghost var n := session.Done();
    largest, secondLargest := session.Finish(n);
  }

  /** A whole run of the encode loop. */
  method RunEncoder(cfg: Config, encode: Encoder, rpuFails: nat -> bool, ghost drain: nat) returns (s: Summary)
    requires Drains(encode, drain)
    ensures s.ret == 0 || s.ret == 3 || s.ret == 4
    ensures s.ret == 3 <==> WritesHeaders(cfg) && cfg.headerResult < 0
    ensures s.ret == 3 ==> s.calls == 0 && s.inFrameCount == 0 && s.totalBytes == 0 && s.pictures == []
    ensures s.ret == 4 <==> s.calls > 0 && encode(s.calls - 1).count < 0
    ensures var n := if s.ret == 4 then s.calls - 1 else s.calls;
      NoFailure(encode, n) &&
      s.totalBytes == HeaderBytes(cfg) + WrittenSum(encode, n) &&
      s.outFrameCount == CountSum(encode, n) &&
      (cfg.needPts && |PtsOf(encode, n)| >= 2 ==>
        s.largest == Largest(PtsOf(encode, n)) && s.secondLargest == SecondLargest(PtsOf(encode, n))) &&
      (!(cfg.needPts && |PtsOf(encode, n)| >= 2) ==> s.largest == 0 && s.secondLargest == 0)
    ensures s.inFrameCount <= cfg.frames
    ensures cfg.framesToBeEncoded > 0 ==> s.inFrameCount <= cfg.framesToBeEncoded
    ensures s.pictures == Iota(|s.pictures|) && |s.pictures| <= Handed(cfg, s.inFrameCount)
    ensures s.rpuFailed ==> cfg.dolby && s.ret == 0
    ensures s.interrupted ==> cfg.kill.Some?
    ensures s.ret == 0 && !s.interrupted && !s.rpuFailed ==>
      s.inFrameCount == Limit(cfg) && |s.pictures| == Handed(cfg, s.inFrameCount) &&
      s.calls > 0 && encode(s.calls - 1).count == 0
  {
    if WritesHeaders(cfg) && cfg.headerResult < 0 {
      // `goto fail`: the pts queue is still empty, so closeFile(0, 0)
      return Summary(3, 0, 0, 0, 0, [], 0, 0, false, false);
    }
    var ret, totalBytes, inFrameCount, outFrameCount, calls, pictures, largest, secondLargest, interrupted, rpuFailed :=
      Drive(cfg, encode, rpuFails, drain);
    s := Summary(ret, totalBytes, inFrameCount, outFrameCount, calls, pictures,
                 largest, secondLargest, interrupted, rpuFailed);
  }
}
