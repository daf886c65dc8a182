/** `CLIOptions::parseQPFile` of source/x265.cpp: reads the lines of the
    `--qpfile` that belong to the picture about to be encoded. Each line is
    `<frame number> <slice type letter> <qp>`; lines for earlier frames are
    skipped, a line for a later frame is pushed back for a later call, and
    the line for this frame forces its slice type and, with a qp of at least
    0, its quantiser (`forceqp` is qp + 1, 0 meaning none). */
module QpFile {
  import opened Bytes

  /** `X265_TYPE_AUTO`, `X265_TYPE_IDR`, `X265_TYPE_I`, `X265_TYPE_P`,
      `X265_TYPE_BREF`, `X265_TYPE_B`. */
  datatype SliceType = Auto | Idr | I | P | BRef | B

  /** What `fscanf` can return for three conversions: `EOF` (-1) or how
      many of them succeeded. */
  type Matched = m: int | -1 <= m <= 3

  /** What one `fscanf(qpfile, "%d %c%*[ \t]%d\n", &num, &type, &qp)` gives
      when it starts at a line: its return value `matched` and the values it
      converted. The end of the sequence of lines is the end of the file; a
      line with `matched == -1` is a read error before it, which `fscanf`
      also reports as `EOF`. */
  datatype Line = Line(matched: Matched, num: int, kind: char, qp: int)

  /** The slice type letters and what each forces; with an open GOP a `K`
      keyframe is a plain I slice, otherwise an IDR. */
  function SliceOf(kind: char, openGop: bool): Option<SliceType>
  {
    if kind == 'I' then Some(Idr)
    else if kind == 'i' then Some(I)
    else if kind == 'K' then Some(if openGop then I else Idr)
    else if kind == 'P' then Some(P)
    else if kind == 'B' then Some(BRef)
    else if kind == 'b' then Some(B)
    else None
  }

  /** The result of one call: whether the file parsed, the forced qp and
      slice type it sets on the picture, and the line it leaves the file
      at. */
  datatype QpOutcome = QpOutcome(ok: bool, forceqp: int, slice: SliceType, pos: nat)

  /** The loop of `parseQPFile`, from line `pos`, with the values the
      previous `fscanf` calls left in `num`, `kind` (None while never
      assigned) and on the picture. `fscanf` assigns only the conversions
      it made, so `num` and `kind` can be left over from an earlier line. */
  function QpScan(lines: seq<Line>, pos: nat, poc: int, openGop: bool,
                  num: int, kind: Option<char>, forceqp: int, slice: SliceType): (r: QpOutcome)
    requires pos <= |lines|
    ensures pos <= r.pos <= |lines|
    decreases |lines| - pos
  {
    if !(num < poc) then QpOutcome(true, forceqp, slice, pos)
    else if pos == |lines| then QpOutcome(true, forceqp, slice, pos)
    else
      var ln := lines[pos];
      var ret := ln.matched;
      var num' := if ret >= 1 then ln.num else num;
      var kind' := if ret >= 2 then Some(ln.kind) else kind;
      var qp := if ret == 3 then ln.qp else -1;
      if num' > poc || ret == -1 then QpOutcome(true, forceqp, slice, pos)
      else if num' < poc && ret >= 2 then QpScan(lines, pos + 1, poc, openGop, num', kind', forceqp, slice)
      else
        var forceqp' := if ret == 3 && qp >= 0 then qp + 1 else forceqp;
        var s := if kind'.Some? then SliceOf(kind'.value, openGop) else None;
        var slice' := if s.Some? then s.value else slice;
        var ret' := if s.Some? then ret else 0;
        if ret' < 2 || qp < -1 || qp > 51 then QpOutcome(false, forceqp', slice', pos + 1)
        else QpScan(lines, pos + 1, poc, openGop, num', kind', forceqp', slice')
  }

  /** The open qpfile: its lines and the line `ftell` is at. */
  class QpFileReader {
    var lines: seq<Line>
    var pos: nat

    ghost predicate Valid()
      reads this
    {
      pos <= |lines|
    }

    constructor (contents: seq<Line>)
      ensures Valid() && lines == contents && pos == 0
    {
      lines := contents;
      pos := 0;
    }

    /** `parseQPFile(pic_org)` for the picture numbered `poc`; returns the
        result and the `forceqp` and `sliceType` it leaves on the picture. */
    method Parse(poc: int, openGop: bool) returns (ok: bool, forceqp: int, slice: SliceType)
      requires Valid()
      modifies this`pos
      ensures Valid()
      ensures var r := QpScan(lines, old(pos), poc, openGop, -1, None, 0, Auto);
        ok == r.ok && forceqp == r.forceqp && slice == r.slice && pos == r.pos
    {
      var num := -1;
      var kind: Option<char> := None;
      forceqp, slice := 0, Auto;
      while num < poc
        invariant Valid()
        invariant QpScan(lines, pos, poc, openGop, num, kind, forceqp, slice) ==
                  QpScan(lines, old(pos), poc, openGop, -1, None, 0, Auto)
        decreases |lines| - pos
      {
        var filePos := pos;
        var qp := -1;
        if pos == |lines| {
          // `fscanf` hits end of file: seek back and stop
          pos := filePos;
          break;
        }
        var ln := lines[pos];
        pos := pos + 1;
        var ret := ln.matched;
        if ret >= 1 { num := ln.num; }
        if ret >= 2 { kind := Some(ln.kind); }
        if ret == 3 { qp := ln.qp; }
        if num > poc || ret == -1 {
          pos := filePos;
          break;
        }
        if num < poc && ret >= 2 {
          continue;
        }
        if ret == 3 && qp >= 0 {
          forceqp := qp + 1;
        }
        var s := if kind.Some? then SliceOf(kind.value, openGop) else None;
        if s.Some? {
          slice := s.value;
        } else {
          ret := 0;
        }
        if ret < 2 || qp < -1 || qp > 51 {
          return false, forceqp, slice;
        }
      }
      return true, forceqp, slice;
    }
  }

  /** A line as its authors meant it: all three fields, a known slice
      type, and a qp from -1 (none) to 51. */
  predicate WellFormedLine(ln: Line)
  {
    ln.matched == 3 && (SliceOf(ln.kind, true).Some?) && -1 <= ln.qp <= 51
  }

  predicate WellFormed(lines: seq<Line>)
  {
    forall i :: 0 <= i < |lines| ==> WellFormedLine(lines[i])
  }

  /** The first line at or after `pos` for this frame or a later one. */
  function FirstNotBefore(lines: seq<Line>, pos: nat, poc: int): (j: nat)
    requires pos <= |lines|
    ensures pos <= j <= |lines|
    ensures forall k :: pos <= k < j ==> lines[k].num < poc
    ensures j < |lines| ==> lines[j].num >= poc
    decreases |lines| - pos
  {
    if pos == |lines| || lines[pos].num >= poc then pos else FirstNotBefore(lines, pos + 1, poc)
  }

  /** What a well-formed qpfile gives a picture: lines for earlier frames
      are passed over; if the next line is this frame's, its slice type and
      qp are forced and the file moves past it; otherwise nothing is forced
      and the line stays for a later picture. */
  function Expected(lines: seq<Line>, pos: nat, poc: int, openGop: bool): QpOutcome
    requires pos <= |lines| && WellFormed(lines)
  {
    var j := FirstNotBefore(lines, pos, poc);
    if j < |lines| && lines[j].num == poc then
      var ln := lines[j];
      QpOutcome(true, if ln.qp >= 0 then ln.qp + 1 else 0, SliceOf(ln.kind, openGop).value, j + 1)
    else QpOutcome(true, 0, Auto, j)
  }

  /** `K` means the same letter under both GOP settings as far as
      validity goes. */
  lemma SliceOfGop(kind: char, openGop: bool)
    ensures SliceOf(kind, openGop).Some? == SliceOf(kind, true).Some?
  {
  }

  /** On a well-formed file the loop does what the qpfile format
      promises. */
  lemma {:induction false} ScanWellFormed(lines: seq<Line>, pos: nat, poc: int, openGop: bool, num: int, kind: Option<char>)
    requires pos <= |lines| && WellFormed(lines) && num < poc
    ensures QpScan(lines, pos, poc, openGop, num, kind, 0, Auto) == Expected(lines, pos, poc, openGop)
    decreases |lines| - pos
  {
    if pos < |lines| {
      var ln := lines[pos];
      assert WellFormedLine(ln);
      SliceOfGop(ln.kind, openGop);
      if ln.num < poc {
        ScanWellFormed(lines, pos + 1, poc, openGop, ln.num, Some(ln.kind));
      }
    }
  }

  /** The property of a whole call: a well-formed file always parses, and
      the picture numbered `poc` gets exactly the line with its number. */
  lemma ParseWellFormed(lines: seq<Line>, pos: nat, poc: int, openGop: bool)
    requires pos <= |lines| && WellFormed(lines) && poc >= 0
    ensures QpScan(lines, pos, poc, openGop, -1, None, 0, Auto) == Expected(lines, pos, poc, openGop)
  {
    ScanWellFormed(lines, pos, poc, openGop, -1, None);
  }

  /** Whatever the file holds, a call that succeeds forces a qp the encoder
      accepts: `forceqp` is 0 (none) or a qp from 0 to 51 plus one. */
  lemma {:induction false} ForcedQpInRange(lines: seq<Line>, pos: nat, poc: int, openGop: bool,
                                           num: int, kind: Option<char>, forceqp: int, slice: SliceType)
    requires pos <= |lines| && 0 <= forceqp <= 52
    ensures var r := QpScan(lines, pos, poc, openGop, num, kind, forceqp, slice);
      r.ok ==> 0 <= r.forceqp <= 52
    decreases |lines| - pos
  {
    if num < poc && pos < |lines| {
      var ln := lines[pos];
      var ret := ln.matched;
      var num' := if ret >= 1 then ln.num else num;
      var kind' := if ret >= 2 then Some(ln.kind) else kind;
      var qp := if ret == 3 then ln.qp else -1;
      if num' <= poc {
        if num' < poc && ret >= 2 {
          ForcedQpInRange(lines, pos + 1, poc, openGop, num', kind', forceqp, slice);
        } else if -1 <= qp <= 51 {
          var forceqp' := if ret == 3 && qp >= 0 then qp + 1 else forceqp;
          var s := if kind'.Some? then SliceOf(kind'.value, openGop) else None;
          var slice' := if s.Some? then s.value else slice;
          ForcedQpInRange(lines, pos + 1, poc, openGop, num', kind', forceqp', slice');
        }
      }
    }
  }

  /** A line with fewer than two fields that the loop reaches for this
      frame fails the call (`parseQPFile` returns false and the caller
      closes the qpfile). */
  lemma ShortLineFails(lines: seq<Line>, pos: nat, poc: int, openGop: bool)
    requires pos < |lines| && poc >= 0 && 0 <= lines[pos].matched < 2
    requires lines[pos].matched >= 1 ==> lines[pos].num <= poc
    ensures !QpScan(lines, pos, poc, openGop, -1, None, 0, Auto).ok
  {
  }

  /** A read error (`EOF` before the end of the file) ends the call
      successfully: the file is moved back to the line, and the picture
      keeps what earlier lines of this call forced. */
  lemma ReadErrorStops(lines: seq<Line>, pos: nat, poc: int, openGop: bool,
                       num: int, kind: Option<char>, forceqp: int, slice: SliceType)
    requires pos < |lines| && lines[pos].matched == -1 && num < poc
    ensures QpScan(lines, pos, poc, openGop, num, kind, forceqp, slice) == QpOutcome(true, forceqp, slice, pos)
  {
  }
}
