/** `rpuParser` of source/x265.cpp: cuts the Dolby Vision RPU of the current
    picture out of the RPU file. The file is a sequence of RPUs each
    introduced by the four-byte start code 00 00 00 01; the parser keeps the
    last four bytes read in a 32-bit shift register (`code`), copies the byte
    leaving the register into the payload until the register holds a start
    code, and flushes the register at end of file. */
module RpuParser {
  import opened Bytes

  /** `START_CODE` (0x00000001) as the four bytes of a big-endian register. */
  const StartCode: seq<Byte> := [0, 0, 0, 1]

  /** The size of the payload buffer `x265main` allocates. */
  const PayloadCapacity: nat := 1024

  /** The 32-bit register after shifting `bytes` in at the low end, one at a
      time (`code = (code << 8) | byteVal`): the last four bytes. */
  function ShiftIn(code: seq<Byte>, bytes: seq<Byte>): (r: seq<Byte>)
    requires |code| == 4
    ensures |r| == 4
  {
    (code + bytes)[|bytes|..]
  }

  /** The four bytes of `s` ending at position `j` are a start code. */
  predicate StartCodeEndsAt(s: seq<Byte>, j: int)
  {
    4 <= j <= |s| && s[j - 4..j] == StartCode
  }

  /** What one call produces: its return value, the payload it leaves in
      the picture, and how many bytes it took from the file. */
  datatype RpuResult = RpuResult(status: int, payload: seq<Byte>, consumed: nat)

  /** The main reading loop once `k` bytes of `s` were read: with the next
      byte the register holds `s[k-3..k+1]`; from the fourth byte on, the
      1024th byte is an error, a start code ends the RPU (the bytes before it
      are the payload), and end of file makes everything read the payload. */
  function ScanRpu(s: seq<Byte>, k: nat): (r: RpuResult)
    requires k <= |s| && k < PayloadCapacity
    ensures r.consumed <= |s|
    decreases |s| - k
  {
    if k == |s| then RpuResult(0, s, |s|)
    else if k + 1 < 4 then ScanRpu(s, k + 1)
    else if k + 1 >= PayloadCapacity then RpuResult(1, s[..k - 3], k + 1)
    else if StartCodeEndsAt(s, k + 1) then RpuResult(0, s[..k - 3], k + 1)
    else ScanRpu(s, k + 1)
  }

  /** One call on the rest `s` of the file. For the picture with pts 0 the
      file must first open with a start code: up to four bytes are shifted
      into a zero register, which must then equal `START_CODE`. */
  function ParseRpu(s: seq<Byte>, firstPicture: bool): (r: RpuResult)
    ensures r.consumed <= |s|
  {
    if firstPicture then
      var n := if |s| < 4 then |s| else 4;
      if ShiftIn([0, 0, 0, 0], s[..n]) != StartCode then RpuResult(1, [], n)
      else
        var r := ScanRpu(s[n..], 0);
        RpuResult(r.status, r.payload, n + r.consumed)
    else ScanRpu(s, 0)
  }

  /** The RPU file, read one byte at a time with `fread`. */
  class RpuFile {
    var data: seq<Byte>
    var pos: nat

    ghost predicate Valid()
      reads this
    {
      pos <= |data|
    }

    constructor (contents: seq<Byte>)
      ensures Valid() && data == contents && pos == 0
    {
      data := contents;
      pos := 0;
    }

    /** `fread(&byteVal, 1, 1, ptr)`: at end of file nothing is read. */
    method ReadByte() returns (ok: bool, b: Byte)
      requires Valid()
      modifies this
      ensures Valid() && data == old(data)
      ensures ok <==> old(pos) < |data|
      ensures ok ==> b == data[old(pos)] && pos == old(pos) + 1
      ensures !ok ==> pos == old(pos)
    {
      if pos < |data| {
        ok, b := true, data[pos];
        pos := pos + 1;
      } else {
        ok, b := false, 0;
      }
    }
  }

  /** The `rpu` field of an `x265_picture`: the payload buffer and the
      number of bytes in it. */
  class Rpu {
    var payload: array<Byte>
    var payloadSize: nat

    ghost predicate Valid()
      reads this
    {
      payload.Length == PayloadCapacity && payloadSize <= PayloadCapacity
    }

    constructor ()
      ensures Valid() && fresh(payload) && payloadSize == 0
    {
      payload := new Byte[PayloadCapacity](_ => 0);
      payloadSize := 0;
    }

    function Contents(): seq<Byte>
      reads this, payload
      requires Valid()
    {
      payload[..payloadSize]
    }

    /** `memcpy` of one byte to the end of the payload. */
    method Push(b: Byte)
      requires Valid() && payloadSize < PayloadCapacity
      modifies this`payloadSize, payload
      ensures Valid() && payload == old(payload)
      ensures Contents() == old(Contents()) + [b]
    {
      payload[payloadSize] := b;
      payloadSize := payloadSize + 1;
    }
  }

  /** `rpuParser(pic, ptr)` for a picture with presentation time `pts`. */
  method ParseRpuFor(pts: int, rpu: Rpu, f: RpuFile) returns (r: int)
    requires rpu.Valid() && f.Valid()
    modifies rpu`payloadSize, rpu.payload, f
    ensures rpu.Valid() && f.Valid() && f.data == old(f.data)
    ensures var res := ParseRpu(old(f.data[f.pos..]), pts == 0);
      r == res.status && rpu.Contents() == res.payload && f.pos == old(f.pos) + res.consumed
  {
    ghost var s0 := f.data[f.pos..];
    ghost var p0 := f.pos;
    rpu.payloadSize := 0;
    var code: seq<Byte> := [0, 0, 0, 0];
    var n := 0;
    if pts == 0 {
      code, n := ReadStartCode(f);
      if code != StartCode {
        return 1;
      }
    }
    assert f.data[f.pos..] == s0[n..];
    r := ScanLoop(rpu, f, code);
  }

  /** The start-code check: up to four bytes shifted into a zero register. */
  method ReadStartCode(f: RpuFile) returns (code: seq<Byte>, n: nat)
    requires f.Valid()
    modifies f
    ensures f.Valid() && f.data == old(f.data)
    ensures n == (if |old(f.data[f.pos..])| < 4 then |old(f.data[f.pos..])| else 4)
    ensures f.pos == old(f.pos) + n
    ensures code == ShiftIn([0, 0, 0, 0], old(f.data[f.pos..])[..n])
  {
    ghost var s := f.data[f.pos..];
    code, n := [0, 0, 0, 0], 0;
    while n < 4
      invariant f.Valid() && f.data == old(f.data) && n <= 4
      invariant f.pos == old(f.pos) + n && n <= |s|
      invariant code == ShiftIn([0, 0, 0, 0], s[..n])
    {
      var ok, b := f.ReadByte();
      if !ok {
        break;
      }
      assert s[..n + 1] == s[..n] + [b];
      code := code[1..] + [b];
      n := n + 1;
    }
  }

  /** The main loop and the end-of-file flush, from a register `code0`
      holding whatever was read before. */
  method ScanLoop(rpu: Rpu, f: RpuFile, code0: seq<Byte>) returns (r: int)
    requires rpu.Valid() && f.Valid() && |code0| == 4 && rpu.payloadSize == 0
    modifies rpu`payloadSize, rpu.payload, f
    ensures rpu.Valid() && f.Valid() && f.data == old(f.data)
    ensures var res := ScanRpu(old(f.data[f.pos..]), 0);
      r == res.status && rpu.Contents() == res.payload && f.pos == old(f.pos) + res.consumed
  {
    ghost var s := f.data[f.pos..];
    var code := code0;
    var bytesRead := 0;
    while true
      invariant f.Valid() && f.data == old(f.data) && rpu.Valid()
      invariant f.pos == old(f.pos) + bytesRead
      invariant ScanState(s, bytesRead, code, rpu.Contents())
      decreases |s| - bytesRead
    {
      var ok, b := f.ReadByte();
      if !ok {
        break;
      }
      assert f.data[f.pos - 1] == s[bytesRead];
      ScanAdvance(s, bytesRead, code, rpu.Contents(), b);
      code := code[1..] + [b];
      var before := bytesRead;
      bytesRead := bytesRead + 1;
      if before < 3 {
      } else if bytesRead >= PayloadCapacity {
        return 1;
      } else if code != StartCode {
        rpu.Push(code[0]);
      } else {
        return 0;
      }
    }
    r := Flush(rpu, code, s, bytesRead);
  }

  /** The state of the main loop after `k` bytes of `s`: the register holds
      the last bytes read, the payload every byte that left the register,
      and the rest of the scan ends as the whole scan does. */
  ghost predicate ScanState(s: seq<Byte>, k: nat, code: seq<Byte>, contents: seq<Byte>)
  {
    k <= |s| && k < PayloadCapacity && |code| == 4 &&
    (k < 4 ==> code[4 - k..] == s[..k]) &&
    (k >= 4 ==> code == s[k - 4..k]) &&
    |contents| == (if k >= 3 then k - 3 else 0) &&
    contents == s[..|contents|] &&
    ScanRpu(s, k) == ScanRpu(s, 0)
  }

  /** One turn of the main loop: the first three bytes only fill the
      register; after them the 1024th byte fails, a start code ends the RPU
      with the payload so far, and any other register passes its first byte
      to the payload. */
  lemma ScanAdvance(s: seq<Byte>, k: nat, code: seq<Byte>, contents: seq<Byte>, b: Byte)
    requires ScanState(s, k, code, contents) && k < |s| && s[k] == b
    ensures k < 3 ==> ScanState(s, k + 1, code[1..] + [b], contents)
    ensures k >= 3 && k + 1 >= PayloadCapacity ==> ScanRpu(s, 0) == RpuResult(1, contents, k + 1)
    ensures k >= 3 && k + 1 < PayloadCapacity && code[1..] + [b] == StartCode ==>
      ScanRpu(s, 0) == RpuResult(0, contents, k + 1)
    ensures k >= 3 && k + 1 < PayloadCapacity && code[1..] + [b] != StartCode ==>
      ScanState(s, k + 1, code[1..] + [b], contents + [(code[1..] + [b])[0]])
  {
    var next := code[1..] + [b];
    CodeStep(code, s, k, b);
    if k >= 3 && k + 1 < PayloadCapacity && next != StartCode {
      assert next[0] == s[k - 3];
      assert s[..k - 2] == s[..k - 3] + [s[k - 3]];
    }
  }

  /** The register after shifting in the next byte of `s`. */
  lemma CodeStep(code: seq<Byte>, s: seq<Byte>, k: nat, b: Byte)
    requires |code| == 4 && k < |s| && s[k] == b
    requires k < 4 ==> code[4 - k..] == s[..k]
    requires k >= 4 ==> code == s[k - 4..k]
    ensures k + 1 < 4 ==> (code[1..] + [b])[4 - (k + 1)..] == s[..k + 1]
    ensures k + 1 >= 4 ==> code[1..] + [b] == s[k + 1 - 4..k + 1]
  {
    if k + 1 < 4 {
      assert (code[1..] + [b])[4 - (k + 1)..] == code[4 - k..] + [b];
      assert s[..k + 1] == s[..k] + [b];
    } else if k >= 4 {
      assert s[k + 1 - 4..k + 1] == s[k - 4..k][1..] + [b];
    } else {
      assert code[1..] == code[4 - k..];
      assert s[k + 1 - 4..k + 1] == s[..k] + [b];
    }
  }

  /** The end-of-file flush: `ShiftBytes` moves the bytes still in the
      register to its top, and `bytesLeft` of them are appended. */
  method Flush(rpu: Rpu, code0: seq<Byte>, ghost s: seq<Byte>, bytesRead: nat) returns (r: int)
    requires rpu.Valid() && |code0| == 4 && bytesRead == |s| && bytesRead < PayloadCapacity
    requires ScanState(s, bytesRead, code0, rpu.Contents())
    modifies rpu`payloadSize, rpu.payload
    ensures rpu.Valid() && r == 0 && rpu.Contents() == s
  {
    var shiftBytes := 4 - (bytesRead - rpu.payloadSize);
    var bytesLeft := bytesRead - rpu.payloadSize;
    var code := code0[shiftBytes..] + seq(shiftBytes, _ => 0);
    assert code[..bytesLeft] == s[rpu.payloadSize..];
    var i := 0;
    while i < bytesLeft
      invariant 0 <= i <= bytesLeft && rpu.Valid()
      invariant |code| == 4
      invariant rpu.payloadSize + bytesLeft - i == bytesRead
      invariant code[..bytesLeft - i] == s[rpu.payloadSize..]
      invariant rpu.Contents() == s[..rpu.payloadSize]
    {
      FlushStep(code, s, rpu.payloadSize, bytesLeft - i);
      rpu.Push(code[0]);
      code := code[1..] + [0];
      i := i + 1;
    }
    assert s[..rpu.payloadSize] == s;
    return 0;
  }

  /** One turn of the flush: the register's first byte is the next byte
      of `s`, and the rest of the register keeps the bytes after it. */
  lemma FlushStep(code: seq<Byte>, s: seq<Byte>, size: nat, m: nat)
    requires |code| == 4 && 1 <= m <= 4 && size + m == |s|
    requires code[..m] == s[size..]
    ensures code[0] == s[size]
    ensures (code[1..] + [0])[..m - 1] == s[size + 1..]
    ensures s[..size] + [code[0]] == s[..size + 1]
  {
    assert s[size..][0] == s[size];
    assert (code[1..] + [0])[..m - 1] == code[..m][1..];
  }

  /** No start code ends in `s` at or before position `j`. */
  predicate NoStartCodeUpTo(s: seq<Byte>, j: nat)
  {
    forall i :: 0 <= i <= j ==> !StartCodeEndsAt(s, i)
  }

  /** Whatever happens, the payload is the bytes the file held at the
      current position, up to 1023 of them, so it fits the buffer; a failed
      call leaves at most 1020. */
  lemma {:induction false} ScanPayloadIsPrefix(s: seq<Byte>, k: nat)
    requires k <= |s| && k < PayloadCapacity
    ensures var r := ScanRpu(s, k);
      |r.payload| <= r.consumed && r.payload == s[..|r.payload|] &&
      |r.payload| < PayloadCapacity && (r.status != 0 ==> |r.payload| <= 1020)
    decreases |s| - k
  {
    if k == |s| {
    } else if k + 1 < 4 || (k + 1 < PayloadCapacity && !StartCodeEndsAt(s, k + 1)) {
      ScanPayloadIsPrefix(s, k + 1);
    }
  }

  /** Bytes that complete no start code are read past. */
  lemma {:induction false} ScanSkip(s: seq<Byte>, k: nat, j: nat)
    requires k <= j <= |s| && j < PayloadCapacity && NoStartCodeUpTo(s, j)
    ensures ScanRpu(s, k) == ScanRpu(s, j)
    decreases j - k
  {
    if k < j {
      assert !StartCodeEndsAt(s, k + 1);
      ScanSkip(s, k + 1, j);
    }
  }

  /** The start code's first three bytes end in 0, so no start code ends
      inside it before its last byte. */
  lemma StartCodeNotEarly(p: seq<Byte>, tail: seq<Byte>)
    requires NoStartCodeUpTo(p, |p|)
    ensures NoStartCodeUpTo(p + StartCode + tail, |p| + 3)
  {
    var s := p + StartCode + tail;
    forall i | 0 <= i <= |p| + 3
      ensures !StartCodeEndsAt(s, i)
    {
      if i <= |p| {
        if 4 <= i {
          assert s[i - 4..i] == p[i - 4..i];
          assert !StartCodeEndsAt(p, i);
        }
      } else {
        assert s[i - 1] == 0;
      }
    }
  }

  /** Round trip: a payload free of start codes and short enough, followed
      by the start code of the next RPU, comes back whole, and the file is
      left just past that start code. */
  lemma RpuRoundTrip(p: seq<Byte>, tail: seq<Byte>)
    requires |p| <= 1019 && NoStartCodeUpTo(p, |p|)
    ensures ParseRpu(p + StartCode + tail, false) == RpuResult(0, p, |p| + 4)
  {
    var s := p + StartCode + tail;
    StartCodeNotEarly(p, tail);
    ScanSkip(s, 0, |p| + 3);
    assert s[|p|..|p| + 4] == StartCode;
    assert s[..|p|] == p;
  }

  /** The first picture (pts 0) also consumes the start code the file
      opens with. */
  lemma FirstRpuRoundTrip(p: seq<Byte>, tail: seq<Byte>)
    requires |p| <= 1019 && NoStartCodeUpTo(p, |p|)
    ensures ParseRpu(StartCode + p + StartCode + tail, true) == RpuResult(0, p, |p| + 8)
  {
    var s := StartCode + p + StartCode + tail;
    assert s[..4] == StartCode;
    assert s[4..] == p + StartCode + tail;
    RpuRoundTrip(p, tail);
  }

  /** The last RPU of the file has no start code after it: end of file
      ends it. */
  lemma LastRpu(p: seq<Byte>)
    requires |p| < PayloadCapacity && NoStartCodeUpTo(p, |p|)
    ensures ParseRpu(p, false) == RpuResult(0, p, |p|)
  {
    ScanSkip(p, 0, |p|);
  }

  /** 1024 bytes with no start code among them make the call fail. */
  lemma RpuTooLong(s: seq<Byte>)
    requires |s| >= PayloadCapacity && NoStartCodeUpTo(s, PayloadCapacity - 1)
    ensures ParseRpu(s, false) == RpuResult(1, s[..1020], PayloadCapacity)
  {
    ScanSkip(s, 0, PayloadCapacity - 1);
  }

  /** A file whose first four bytes are not a start code is rejected on the
      first picture, with an empty payload. */
  lemma MissingStartCode(s: seq<Byte>)
    requires |s| >= 4 && s[..4] != StartCode
    ensures ParseRpu(s, true) == RpuResult(1, [], 4)
  {
    assert ShiftIn([0, 0, 0, 0], s[..4]) == s[..4];
  }

  /** The start-code test compares a register that shorter files only
      partly fill: a file holding the single byte 01 passes it, and the
      first picture gets an empty payload. */
  lemma ShortStartCodeAccepted()
    ensures ParseRpu([1], true) == RpuResult(0, [], 1)
  {
    var s: seq<Byte> := [1];
    assert ShiftIn([0, 0, 0, 0], s[..1]) == StartCode;
    assert s[1..] == [];
  }

  /** A whole RPU file: every payload introduced by a start code. */
  function RpuFileOf(ps: seq<seq<Byte>>): seq<Byte>
  {
    if ps == [] then [] else StartCode + ps[0] + RpuFileOf(ps[1..])
  }

  /** Calls for `count` successive pictures, the first of them with pts 0,
      collecting their payloads until one fails. */
  function ParseAll(s: seq<Byte>, count: nat, first: bool): seq<seq<Byte>>
    decreases count
  {
    if count == 0 then []
    else
      var r := ParseRpu(s, first);
      if r.status != 0 then [] else [r.payload] + ParseAll(s[r.consumed..], count - 1, false)
  }

  /** A payload that may stand in an RPU file. */
  predicate Storable(p: seq<Byte>)
  {
    |p| <= 1019 && NoStartCodeUpTo(p, |p|)
  }

  /** Parsing the file of a list of payloads, one picture after another,
      gives back every payload in order. */
  lemma {:induction false} RpuFileRoundTrip(ps: seq<seq<Byte>>)
    requires |ps| > 0 && forall i :: 0 <= i < |ps| ==> Storable(ps[i])
    ensures ParseAll(RpuFileOf(ps), |ps|, true) == ps
  {
    var s := RpuFileOf(ps);
    if |ps| == 1 {
      assert RpuFileOf(ps[1..]) == [];
      assert s == StartCode + ps[0];
      assert s[..4] == StartCode && s[4..] == ps[0];
      LastRpu(ps[0]);
    } else {
      var rest := RpuFileOf(ps[1..]);
      assert rest == StartCode + ps[1] + RpuFileOf(ps[2..]);
      assert s == StartCode + ps[0] + StartCode + (ps[1] + RpuFileOf(ps[2..]));
      FirstRpuRoundTrip(ps[0], ps[1] + RpuFileOf(ps[2..]));
      assert s[|ps[0]| + 8..] == ps[1] + RpuFileOf(ps[2..]);
      assert ps[1..][0] == ps[1] && ps[1..][1..] == ps[2..];
      assert forall i :: 0 <= i < |ps[1..]| ==> Storable(ps[1..][i]) by {
        forall i | 0 <= i < |ps[1..]| ensures Storable(ps[1..][i]) {
          assert ps[1..][i] == ps[i + 1];
        }
      }
      RestRoundTrip(ps[1..]);
      assert ParseAll(s, |ps|, true) == [ps[0]] + ParseAll(s[|ps[0]| + 8..], |ps| - 1, false);
      assert [ps[0]] + ps[1..] == ps;
    }
  }

  /** After the first picture each call starts just past a start code. */
  lemma {:induction false} RestRoundTrip(ps: seq<seq<Byte>>)
    requires |ps| > 0 && forall i :: 0 <= i < |ps| ==> Storable(ps[i])
    ensures ParseAll(ps[0] + RpuFileOf(ps[1..]), |ps|, false) == ps
  {
    var s := ps[0] + RpuFileOf(ps[1..]);
    if |ps| == 1 {
      assert RpuFileOf(ps[1..]) == [];
      assert s == ps[0];
      LastRpu(ps[0]);
    } else {
      var tail := ps[1] + RpuFileOf(ps[2..]);
      assert RpuFileOf(ps[1..]) == StartCode + ps[1] + RpuFileOf(ps[2..]);
      assert s == ps[0] + StartCode + tail;
      RpuRoundTrip(ps[0], tail);
      assert s[|ps[0]| + 4..] == tail;
      assert ps[1..][0] == ps[1] && ps[1..][1..] == ps[2..];
      assert forall i :: 0 <= i < |ps[1..]| ==> Storable(ps[1..][i]) by {
        forall i | 0 <= i < |ps[1..]| ensures Storable(ps[1..][i]) {
          assert ps[1..][i] == ps[i + 1];
        }
      }
      RestRoundTrip(ps[1..]);
      assert ParseAll(s, |ps|, false) == [ps[0]] + ParseAll(s[|ps[0]| + 4..], |ps| - 1, false);
      assert [ps[0]] + ps[1..] == ps;
    }
  }
}
