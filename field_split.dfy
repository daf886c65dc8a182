/** The interlaced input path of `x265main` (source/x265.cpp): each read
    frame is split into two field pictures, the first holding the frame's
    even rows and the second its odd rows, plane by plane, in two buffers
    laid out like a frame of half the height. */
module FieldSplit {
  import opened Bytes

  /** The bytes taken by `n` rows of `stride` bytes (`n * stride`),
      spelled as repeated addition, the way the copy loop advances its
      pointers. */
  function RowsBytes(n: nat, stride: nat): nat
  {
    if n == 0 then 0 else RowsBytes(n - 1, stride) + stride
  }

  lemma {:induction false} RowsBytesMono(a: nat, b: nat, stride: nat)
    requires a <= b
    ensures RowsBytes(a, stride) <= RowsBytes(b, stride)
    ensures a < b ==> RowsBytes(a, stride) + stride <= RowsBytes(b, stride)
    decreases b - a
  {
    if a < b {
      RowsBytesMono(a, b - 1, stride);
    }
  }

  /** Row `r` of a plane stored with `stride` bytes per row. */
  function Row(src: seq<Byte>, stride: nat, r: nat): (row: seq<Byte>)
    requires RowsBytes(r + 1, stride) <= |src|
    ensures |row| == stride
  {
    src[RowsBytes(r, stride)..RowsBytes(r, stride) + stride]
  }

  /** The first `rows` rows of the field of the given parity: rows
      `parity`, `parity + 2`, `parity + 4`, … of the plane, one after the
      other. */
  function Field(src: seq<Byte>, stride: nat, rows: nat, parity: nat): (f: seq<Byte>)
    requires parity < 2 && RowsBytes(2 * rows, stride) <= |src|
    ensures |f| == RowsBytes(rows, stride)
  {
    if rows == 0 then []
    else
      RowsBytesMono(2 * (rows - 1), 2 * rows, stride);
      RowsBytesMono(2 * (rows - 1) + parity + 1, 2 * rows, stride);
      Field(src, stride, rows - 1, parity) + Row(src, stride, 2 * (rows - 1) + parity)
  }

  /** The last row of a field is the row `2n + parity` of the frame,
      behind the others. */
  lemma FieldSnoc(src: seq<Byte>, stride: nat, n: nat, parity: nat)
    requires parity < 2 && RowsBytes(2 * n + 2, stride) <= |src|
    ensures RowsBytes(2 * n, stride) <= |src| && RowsBytes(2 * n + parity + 1, stride) <= |src|
    ensures Field(src, stride, n + 1, parity) == Field(src, stride, n, parity) + Row(src, stride, 2 * n + parity)
  {
    RowsBytesMono(2 * n + parity + 1, 2 * n + 2, stride);
    RowsBytesMono(2 * n, 2 * n + 2, stride);
  }

  /** A slice inside the left part of a concatenation. */
  lemma SliceLeft(p: seq<Byte>, q: seq<Byte>, a: nat, b: nat)
    requires a <= b <= |p|
    ensures (p + q)[a..b] == p[a..b]
  {
  }

  /** The right part of a concatenation, sliced out again. */
  lemma SliceRight(p: seq<Byte>, q: seq<Byte>)
    ensures (p + q)[|p|..|p| + |q|] == q
  {
  }

  /** Growing a field keeps its earlier rows. */
  lemma FieldKeepsRow(src: seq<Byte>, stride: nat, n: nat, parity: nat, y: nat)
    requires parity < 2 && RowsBytes(2 * n + 2, stride) <= |src| && y < n
    ensures RowsBytes(2 * n, stride) <= |src|
    ensures RowsBytes(y, stride) + stride <= RowsBytes(n, stride)
    ensures var at := RowsBytes(y, stride);
      Field(src, stride, n + 1, parity)[at..at + stride] == Field(src, stride, n, parity)[at..at + stride]
  {
    FieldSnoc(src, stride, n, parity);
    RowsBytesMono(y + 1, n, stride);
    SliceLeft(Field(src, stride, n, parity), Row(src, stride, 2 * n + parity), RowsBytes(y, stride), RowsBytes(y, stride) + stride);
  }

  /** The last row of a field of `n + 1` rows is the frame row `2n + parity`. */
  lemma FieldLastRow(src: seq<Byte>, stride: nat, n: nat, parity: nat)
    requires parity < 2 && RowsBytes(2 * n + 2, stride) <= |src|
    ensures RowsBytes(2 * n + parity + 1, stride) <= |src|
    ensures var at := RowsBytes(n, stride);
      Field(src, stride, n + 1, parity)[at..at + stride] == Row(src, stride, 2 * n + parity)
  {
    FieldSnoc(src, stride, n, parity);
    SliceRight(Field(src, stride, n, parity), Row(src, stride, 2 * n + parity));
  }

  /** Equal row counts, equal byte counts. */
  lemma RowsBytesEq(a: nat, b: nat, stride: nat)
    requires a == b
    ensures RowsBytes(a, stride) == RowsBytes(b, stride)
  {
  }

  /** Equal row counts, equal fields. */
  lemma FieldEq(src: seq<Byte>, stride: nat, a: nat, b: nat, parity: nat)
    requires parity < 2 && a == b && RowsBytes(2 * b, stride) <= |src|
    ensures RowsBytes(2 * a, stride) <= |src|
    ensures Field(src, stride, a, parity) == Field(src, stride, b, parity)
  {
  }

  /** `FieldKeepsRow`, for a field of `rows` rows. */
  lemma FieldKeepsRowAt(src: seq<Byte>, stride: nat, rows: nat, parity: nat, y: nat)
    requires parity < 2 && RowsBytes(2 * rows, stride) <= |src| && y + 1 < rows
    ensures RowsBytes(2 * (rows - 1), stride) <= |src|
    ensures RowsBytes(y, stride) + stride <= RowsBytes(rows - 1, stride)
    ensures var at := RowsBytes(y, stride);
      Field(src, stride, rows, parity)[at..at + stride] == Field(src, stride, rows - 1, parity)[at..at + stride]
  {
    RowsBytesEq(2 * (rows - 1) + 2, 2 * rows, stride);
    FieldKeepsRow(src, stride, rows - 1, parity, y);
    FieldEq(src, stride, rows - 1 + 1, rows, parity);
  }

  /** `FieldLastRow`, for row `y` of a field of `y + 1` rows. */
  lemma FieldLastRowAt(src: seq<Byte>, stride: nat, rows: nat, parity: nat, y: nat)
    requires parity < 2 && RowsBytes(2 * rows, stride) <= |src| && y + 1 == rows
    ensures RowsBytes(2 * y + parity + 1, stride) <= |src|
    ensures RowsBytes(y, stride) + stride <= RowsBytes(rows, stride)
    ensures var at := RowsBytes(y, stride);
      Field(src, stride, rows, parity)[at..at + stride] == Row(src, stride, 2 * y + parity)
  {
    RowsBytesEq(2 * y + 2, 2 * rows, stride);
    RowsBytesEq(y + 1, rows, stride);
    FieldLastRow(src, stride, y, parity);
    FieldEq(src, stride, y + 1, rows, parity);
  }

  /** Row `y` of a field is row `2y + parity` of the frame. */
  lemma {:induction false} FieldRowIsFrameRow(src: seq<Byte>, stride: nat, rows: nat, parity: nat, y: nat)
    requires parity < 2 && RowsBytes(2 * rows, stride) <= |src| && y < rows
    ensures RowsBytes(2 * y + parity + 1, stride) <= |src|
    ensures RowsBytes(y, stride) + stride <= RowsBytes(rows, stride)
    ensures var at := RowsBytes(y, stride);
      Field(src, stride, rows, parity)[at..at + stride] == Row(src, stride, 2 * y + parity)
  {
    if y + 1 < rows {
      FieldKeepsRowAt(src, stride, rows, parity, y);
      FieldRowIsFrameRow(src, stride, rows - 1, parity, y);
      RowsBytesMono(rows - 1, rows, stride);
    } else {
      FieldLastRowAt(src, stride, rows, parity, y);
    }
  }

  /** Weaving two fields back together, row by row, first field first. */
  function Weave(f1: seq<Byte>, f2: seq<Byte>, stride: nat, rows: nat): (w: seq<Byte>)
    requires RowsBytes(rows, stride) <= |f1| && RowsBytes(rows, stride) <= |f2|
    ensures |w| == RowsBytes(2 * rows, stride)
  {
    if rows == 0 then []
    else Weave(f1, f2, stride, rows - 1) + Row(f1, stride, rows - 1) + Row(f2, stride, rows - 1)
  }

  /** Row `y` of `f` holds the same bytes as row `r` of `src`. */
  predicate RowsMatch(f: seq<Byte>, src: seq<Byte>, stride: nat, y: nat, r: nat)
  {
    RowsBytes(y + 1, stride) <= |f| && RowsBytes(r + 1, stride) <= |src| &&
    Row(f, stride, y) == Row(src, stride, r)
  }

  /** Row `y` of `f1` and of `f2` are rows `2y` and `2y + 1` of `src`. */
  predicate Interleaved(f1: seq<Byte>, f2: seq<Byte>, src: seq<Byte>, stride: nat, y: nat)
  {
    RowsMatch(f1, src, stride, y, 2 * y) && RowsMatch(f2, src, stride, y, 2 * y + 1)
  }

  /** A prefix cut in three. */
  lemma PrefixSplit(s: seq<Byte>, a: nat, b: nat, c: nat)
    requires a <= b <= c <= |s|
    ensures s[..c] == s[..a] + s[a..b] + s[b..c]
  {
    assert s[..c] == s[..b] + s[b..c];
    assert s[..b] == s[..a] + s[a..b];
  }

  /** The rows added by the last round of `Weave`. */
  lemma WeaveSnoc(f1: seq<Byte>, f2: seq<Byte>, stride: nat, n: nat)
    requires RowsBytes(n + 1, stride) <= |f1| && RowsBytes(n + 1, stride) <= |f2|
    ensures RowsBytes(n, stride) <= |f1| && RowsBytes(n, stride) <= |f2|
    ensures Weave(f1, f2, stride, n + 1) == Weave(f1, f2, stride, n) + Row(f1, stride, n) + Row(f2, stride, n)
  {
  }

  /** One round of `WeaveRows`: weaving one more row of each buffer adds
      the next two rows of `src`. */
  lemma WeaveStep(src: seq<Byte>, stride: nat, n: nat, f1: seq<Byte>, f2: seq<Byte>)
    requires RowsBytes(2 * n + 2, stride) <= |src|
    requires RowsBytes(n + 1, stride) <= |f1| && RowsBytes(n + 1, stride) <= |f2|
    requires RowsBytes(n, stride) <= RowsBytes(n + 1, stride)
    requires RowsBytes(2 * n, stride) <= RowsBytes(2 * n + 2, stride)
    requires Interleaved(f1, f2, src, stride, n)
    requires Weave(f1, f2, stride, n) == src[..RowsBytes(2 * n, stride)]
    ensures Weave(f1, f2, stride, n + 1) == src[..RowsBytes(2 * n + 2, stride)]
  {
    var a, b, c := RowsBytes(2 * n, stride), RowsBytes(2 * n + 1, stride), RowsBytes(2 * n + 1 + 1, stride);
    WeaveSnoc(f1, f2, stride, n);
    assert RowsMatch(f1, src, stride, n, 2 * n) && RowsMatch(f2, src, stride, n, 2 * n + 1);
    MatchedRow(f1, src, stride, n, 2 * n);
    MatchedRow(f2, src, stride, n, 2 * n + 1);
    Concat3(src, a, b, c, Weave(f1, f2, stride, n), Row(f1, stride, n), Row(f2, stride, n));
    RowsBytesEq(2 * n + 1 + 1, 2 * n + 2, stride);
  }

  /** A row that matches row `r` of `src` is the slice of `src` between
      the starts of rows `r` and `r + 1`. */
  lemma MatchedRow(f: seq<Byte>, src: seq<Byte>, stride: nat, y: nat, r: nat)
    requires RowsMatch(f, src, stride, y, r)
    ensures RowsBytes(r + 1, stride) == RowsBytes(r, stride) + stride
    ensures Row(f, stride, y) == src[RowsBytes(r, stride)..RowsBytes(r + 1, stride)]
  {
  }

  /** A prefix followed by the next two slices is the longer prefix. */
  lemma Concat3(s: seq<Byte>, a: nat, b: nat, c: nat, w: seq<Byte>, r1: seq<Byte>, r2: seq<Byte>)
    requires a <= b <= c <= |s|
    requires w == s[..a] && r1 == s[a..b] && r2 == s[b..c]
    ensures w + r1 + r2 == s[..c]
  {
    PrefixSplit(s, a, b, c);
  }

  /** Two buffers whose rows are the even and the odd rows of `src` weave
      back into the first `2 rows` rows of `src`. */
  lemma {:induction false} WeaveRows(src: seq<Byte>, stride: nat, rows: nat, f1: seq<Byte>, f2: seq<Byte>)
    requires RowsBytes(2 * rows, stride) <= |src|
    requires RowsBytes(rows, stride) <= |f1| && RowsBytes(rows, stride) <= |f2|
    requires forall y :: 0 <= y < rows ==> Interleaved(f1, f2, src, stride, y)
    ensures Weave(f1, f2, stride, rows) == src[..RowsBytes(2 * rows, stride)]
  {
    if rows > 0 {
      var n := rows - 1;
      RowsBytesMono(n, n + 1, stride);
      RowsBytesMono(2 * n, 2 * n + 2, stride);
      WeaveRows(src, stride, n, f1, f2);
      assert Interleaved(f1, f2, src, stride, n);
      WeaveStep(src, stride, n, f1, f2);
    }
  }

  /** Splitting loses nothing: weaving the two fields restores the frame's
      rows. */
  lemma {:induction false} WeaveRestoresFrame(src: seq<Byte>, stride: nat, rows: nat)
    requires RowsBytes(2 * rows, stride) <= |src|
    ensures Weave(Field(src, stride, rows, 0), Field(src, stride, rows, 1), stride, rows) == src[..RowsBytes(2 * rows, stride)]
  {
    var f1, f2 := Field(src, stride, rows, 0), Field(src, stride, rows, 1);
    forall y | 0 <= y < rows
      ensures Interleaved(f1, f2, src, stride, y)
    {
      FieldRowIsFrameRow(src, stride, rows, 0, y);
      FieldRowIsFrameRow(src, stride, rows, 1, y);
      RowsBytesMono(y + 1, rows, stride);
    }
    WeaveRows(src, stride, rows, f1, f2);
  }

  /** `memcpy(dst + dstOff, src + srcOff, n)`. */
  method CopyRow(dst: array<Byte>, dstOff: nat, src: seq<Byte>, srcOff: nat, n: nat)
    requires dstOff + n <= dst.Length && srcOff + n <= |src|
    modifies dst
    ensures dst[..] == old(dst[..dstOff]) + src[srcOff..srcOff + n] + old(dst[dstOff + n..])
  {
    forall i | 0 <= i < n {
      dst[dstOff + i] := src[srcOff + i];
    }
    assert dst[..] == old(dst[..dstOff]) + src[srcOff..srcOff + n] + old(dst[dstOff + n..]);
  }

  /** Writing `row` behind `pre + done` in a buffer that otherwise holds
      `tail` grows the written part by `row`. */
  lemma SpliceGrow(pre: seq<Byte>, done: seq<Byte>, row: seq<Byte>, tail: seq<Byte>, buf: seq<Byte>, after: seq<Byte>)
    requires |done| + |row| <= |tail|
    requires buf == pre + done + tail[|done|..]
    requires after == buf[..|pre| + |done|] + row + buf[|pre| + |done| + |row|..]
    ensures after == pre + (done + row) + tail[|done| + |row|..]
  {
    assert buf[..|pre| + |done|] == pre + done;
    assert buf[|pre| + |done| + |row|..] == tail[|done| + |row|..];
  }

  /** A field buffer during the row loop: `pre`, then the first `y` rows
      of the field, then what the buffer held there before. */
  predicate Copied(src: seq<Byte>, stride: nat, y: nat, parity: nat, pre: seq<Byte>, tail: seq<Byte>, buf: seq<Byte>)
  {
    parity < 2 && RowsBytes(2 * y, stride) <= |src| && RowsBytes(y, stride) <= |tail| &&
    buf == pre + Field(src, stride, y, parity) + tail[RowsBytes(y, stride)..]
  }

  /** One round of the copy loop on one field buffer: after the row is
      copied behind the first `y` field rows, the buffer holds `y + 1`. */
  lemma CopyStep(src: seq<Byte>, stride: nat, y: nat, parity: nat, pre: seq<Byte>, tail: seq<Byte>,
                 buf: seq<Byte>, after: seq<Byte>)
    requires Copied(src, stride, y, parity, pre, tail, buf)
    requires RowsBytes(2 * y + 2, stride) <= |src| && RowsBytes(y + 1, stride) <= |tail|
    requires var at, from := |pre| + RowsBytes(y, stride), RowsBytes(2 * y + parity, stride);
      at + stride <= |buf| && from + stride <= |src| &&
      after == buf[..at] + src[from..from + stride] + buf[at + stride..]
    ensures Copied(src, stride, y + 1, parity, pre, tail, after)
  {
    FieldSnoc(src, stride, y, parity);
    SpliceGrow(pre, Field(src, stride, y, parity), Row(src, stride, 2 * y + parity), tail, buf, after);
  }

  /** One `memcpy` of the row loop: row `2y + parity` of the frame goes
      behind the `y` rows already in the field buffer. */
  method CopyFieldRow(f: array<Byte>, p: nat, src: seq<Byte>, srcP: nat, stride: nat, y: nat, parity: nat,
                      ghost pre: seq<Byte>, ghost tail: seq<Byte>)
    requires Copied(src, stride, y, parity, pre, tail, f[..])
    requires RowsBytes(2 * y + 2, stride) <= |src| && RowsBytes(y + 1, stride) <= |tail|
    requires srcP == RowsBytes(2 * y + parity, stride) && p == |pre| + RowsBytes(y, stride)
    modifies f
    ensures Copied(src, stride, y + 1, parity, pre, tail, f[..])
  {
    RowsBytesMono(2 * y + parity + 1, 2 * y + 2, stride);
    ghost var buf := f[..];
    CopyRow(f, p, src, srcP, stride);
    CopyStep(src, stride, y, parity, pre, tail, buf, f[..]);
  }

  /** Where the row loop stands after `y` rounds: the source pointers at
      rows `2y` and `2y + 1`, the field pointer behind `y` field rows. */
  predicate Pointers(stride: nat, y: nat, off: nat, p: nat, srcP1: nat, srcP2: nat)
  {
    srcP1 == RowsBytes(2 * y, stride) && srcP2 == srcP1 + stride && p == off + RowsBytes(y, stride)
  }

  /** The pointers move on by two frame rows and one field row. */
  lemma PointersStep(stride: nat, y: nat, off: nat, p: nat, srcP1: nat, srcP2: nat)
    requires Pointers(stride, y, off, p, srcP1, srcP2)
    ensures Pointers(stride, y + 1, off, p + stride, srcP1 + 2 * stride, srcP2 + 2 * stride)
  {
    RowsBytesEq(2 * (y + 1), 2 * y + 1 + 1, stride);
  }

  /** The body of the row loop: one row into each field. */
  method SplitRow(src: seq<Byte>, stride: nat, rows: nat, y: nat, f1: array<Byte>, f2: array<Byte>,
                  off: nat, p: nat, srcP1: nat, srcP2: nat,
                  ghost pre1: seq<Byte>, ghost tail1: seq<Byte>, ghost pre2: seq<Byte>, ghost tail2: seq<Byte>)
    requires RowsBytes(2 * rows, stride) <= |src| && f1 != f2 && y < rows
    requires RowsBytes(rows, stride) <= |tail1| && RowsBytes(rows, stride) <= |tail2|
    requires |pre1| == off && |pre2| == off && Pointers(stride, y, off, p, srcP1, srcP2)
    requires Copied(src, stride, y, 0, pre1, tail1, f1[..]) && Copied(src, stride, y, 1, pre2, tail2, f2[..])
    modifies f1, f2
    ensures Pointers(stride, y + 1, off, p + stride, srcP1 + 2 * stride, srcP2 + 2 * stride)
    ensures Copied(src, stride, y + 1, 0, pre1, tail1, f1[..]) && Copied(src, stride, y + 1, 1, pre2, tail2, f2[..])
  {
    PointersStep(stride, y, off, p, srcP1, srcP2);
    RowsBytesMono(2 * y + 2, 2 * rows, stride);
    RowsBytesMono(y + 1, rows, stride);
    assert RowsBytes(2 * y + 1, stride) == srcP2;
    CopyFieldRow(f1, p, src, srcP1, stride, y, 0, pre1, tail1);
    ghost var done1 := f1[..];
    CopyFieldRow(f2, p, src, srcP2, stride, y, 1, pre2, tail2);
    assert f1[..] == done1;
  }

  /** The row loop for one plane: field rows go to `f1` and `f2` from
      offset `off` on, nothing else in the two buffers changes. */
  method SplitPlane(src: seq<Byte>, stride: nat, rows: nat, f1: array<Byte>, f2: array<Byte>, off: nat)
    requires RowsBytes(2 * rows, stride) <= |src| && f1 != f2
    requires off + RowsBytes(rows, stride) <= f1.Length && off + RowsBytes(rows, stride) <= f2.Length
    modifies f1, f2
    ensures f1[..] == old(f1[..off]) + Field(src, stride, rows, 0) + old(f1[off..])[RowsBytes(rows, stride)..]
    ensures f2[..] == old(f2[..off]) + Field(src, stride, rows, 1) + old(f2[off..])[RowsBytes(rows, stride)..]
  {
    ghost var pre1, tail1 := f1[..off], f1[off..];
    ghost var pre2, tail2 := f2[..off], f2[off..];
    assert f1[..] == pre1 + Field(src, stride, 0, 0) + tail1[RowsBytes(0, stride)..];
    assert f2[..] == pre2 + Field(src, stride, 0, 1) + tail2[RowsBytes(0, stride)..];
    var srcP1: nat, srcP2: nat := 0, stride;
    var p: nat := off;
    var y: nat := 0;
    while y < rows
      invariant y <= rows && Pointers(stride, y, off, p, srcP1, srcP2)
      invariant Copied(src, stride, y, 0, pre1, tail1, f1[..]) && Copied(src, stride, y, 1, pre2, tail2, f2[..])
    {
      SplitRow(src, stride, rows, y, f1, f2, off, p, srcP1, srcP2, pre1, tail1, pre2, tail2);
      srcP1 := srcP1 + 2 * stride;
      srcP2 := srcP2 + 2 * stride;
      p := p + stride;
      y := y + 1;
    }
  }

  /** A plane of the input picture: its bytes, its row stride, and the
      vertical subsampling shift its colour space gives it
      (`x265_cli_csps[csp].height[i]`). */
  datatype Plane = Plane(data: seq<Byte>, stride: nat, heightShift: nat)

  /** `x >> n` on a non-negative value. */
  function Shr(x: nat, n: nat): nat
  {
    if n == 0 then x else Shr(x / 2, n - 1)
  }

  /** The rows of one plane in a field: the field height
      (`pic_in->height >> 1`) shifted by the plane's subsampling. */
  function FieldRows(picHeight: nat, p: Plane): nat
  {
    Shr(picHeight / 2, p.heightShift)
  }

  /** The bytes of one plane in a field buffer. */
  function FieldPlaneBytes(picHeight: nat, p: Plane): nat
  {
    RowsBytes(FieldRows(picHeight, p), p.stride)
  }

  /** Where plane `i` starts in a field buffer: behind the field planes
      before it. */
  function PlaneOffset(planes: seq<Plane>, picHeight: nat, i: nat): nat
    requires i <= |planes|
  {
    if i == 0 then 0 else PlaneOffset(planes, picHeight, i - 1) + FieldPlaneBytes(picHeight, planes[i - 1])
  }

  lemma {:induction false} PlaneOffsetMono(planes: seq<Plane>, picHeight: nat, i: nat, j: nat)
    requires i <= j <= |planes|
    ensures PlaneOffset(planes, picHeight, i) <= PlaneOffset(planes, picHeight, j)
    decreases j - i
  {
    if i < j {
      PlaneOffsetMono(planes, picHeight, i, j - 1);
    }
  }

  /** The offsets of the first `n` planes, in order. */
  function Offsets(planes: seq<Plane>, picHeight: nat, n: nat): seq<nat>
    requires n <= |planes|
  {
    if n == 0 then [] else Offsets(planes, picHeight, n - 1) + [PlaneOffset(planes, picHeight, n - 1)]
  }

  lemma {:induction false} OffsetsAt(planes: seq<Plane>, picHeight: nat, n: nat)
    requires n <= |planes|
    ensures |Offsets(planes, picHeight, n)| == n
    ensures forall k :: 0 <= k < n ==> Offsets(planes, picHeight, n)[k] == PlaneOffset(planes, picHeight, k)
  {
    if n > 0 {
      OffsetsAt(planes, picHeight, n - 1);
    }
  }

  /** The first-frame set-up of the field pictures: plane 0 at the start of
      each field buffer and every further plane behind the previous one;
      `framesize` ends as the size of a whole field. */
  method FieldLayout(planes: seq<Plane>, picHeight: nat) returns (offsets: seq<nat>, framesize: nat)
    requires |planes| > 0
    ensures |offsets| == |planes|
    ensures forall i :: 0 <= i < |planes| ==> offsets[i] == PlaneOffset(planes, picHeight, i)
    ensures framesize == PlaneOffset(planes, picHeight, |planes|)
  {
    offsets := [0];
    framesize := RowsBytes(FieldRows(picHeight, planes[0]), planes[0].stride);
    var i := 1;
    while i < |planes|
      invariant 1 <= i <= |planes|
      invariant offsets == Offsets(planes, picHeight, i) && framesize == PlaneOffset(planes, picHeight, i)
    {
      offsets := offsets + [framesize];
      framesize := framesize + RowsBytes(FieldRows(picHeight, planes[i]), planes[i].stride);
      i := i + 1;
    }
    OffsetsAt(planes, picHeight, |planes|);
  }

  /** Every plane holds the rows its field needs: twice the field rows. */
  predicate PlanesFit(planes: seq<Plane>, picHeight: nat)
  {
    forall i :: 0 <= i < |planes| ==> RowsBytes(2 * FieldRows(picHeight, planes[i]), planes[i].stride) <= |planes[i].data|
  }

  /** Plane `k` of a field buffer holds the field of that plane. */
  ghost predicate PlaneSplit(buf: seq<Byte>, planes: seq<Plane>, picHeight: nat, parity: nat, k: nat)
    requires parity < 2 && k < |planes| && PlanesFit(planes, picHeight)
  {
    var lo := PlaneOffset(planes, picHeight, k);
    var hi := PlaneOffset(planes, picHeight, k + 1);
    hi <= |buf| && buf[lo..hi] == Field(planes[k].data, planes[k].stride, FieldRows(picHeight, planes[k]), parity)
  }

  /** A field buffer after the plane loop's first `i` rounds: those planes
      are split into it, and from the next plane's offset on it still
      holds what `orig` held. */
  ghost predicate PlanesDone(buf: seq<Byte>, orig: seq<Byte>, planes: seq<Plane>, picHeight: nat, parity: nat, i: nat)
  {
    parity < 2 && i <= |planes| && PlanesFit(planes, picHeight) && |buf| == |orig| &&
    PlaneOffset(planes, picHeight, i) <= |buf| &&
    (forall k :: 0 <= k < i ==> PlaneSplit(buf, planes, picHeight, parity, k)) &&
    buf[PlaneOffset(planes, picHeight, i)..] == orig[PlaneOffset(planes, picHeight, i)..]
  }

  /** What the plane loop needs to know about plane `i`: it holds the rows
      its field takes, and its field ends where the next one starts. */
  lemma PlaneBounds(planes: seq<Plane>, picHeight: nat, i: nat)
    requires PlanesFit(planes, picHeight) && i < |planes|
    ensures RowsBytes(2 * FieldRows(picHeight, planes[i]), planes[i].stride) <= |planes[i].data|
    ensures PlaneOffset(planes, picHeight, i + 1) ==
      PlaneOffset(planes, picHeight, i) + RowsBytes(FieldRows(picHeight, planes[i]), planes[i].stride)
    ensures PlaneOffset(planes, picHeight, i + 1) <= PlaneOffset(planes, picHeight, |planes|)
  {
    PlaneOffsetMono(planes, picHeight, i + 1, |planes|);
  }

  /** The per-frame copy: when the picture has a size, every plane's even
      rows go to the first field buffer and its odd rows to the second, at
      the plane's offset; the bytes behind the last plane stay as they
      were. */
  method SplitFrame(planes: seq<Plane>, picHeight: nat, framesize: nat, f1: array<Byte>, f2: array<Byte>)
    requires PlanesFit(planes, picHeight) && f1 != f2
    requires PlaneOffset(planes, picHeight, |planes|) <= f1.Length
    requires PlaneOffset(planes, picHeight, |planes|) <= f2.Length
    modifies f1, f2
    ensures framesize == 0 ==> f1[..] == old(f1[..]) && f2[..] == old(f2[..])
    ensures framesize != 0 ==> forall k :: 0 <= k < |planes| ==>
      PlaneSplit(f1[..], planes, picHeight, 0, k) && PlaneSplit(f2[..], planes, picHeight, 1, k)
    ensures var end := PlaneOffset(planes, picHeight, |planes|);
      f1[end..] == old(f1[end..]) && f2[end..] == old(f2[end..])
  {
    if framesize == 0 {
      return;
    }
    ghost var orig1, orig2 := f1[..], f2[..];
    var i := 0;
    var off := 0;
    while i < |planes|
      invariant i <= |planes| && off == PlaneOffset(planes, picHeight, i)
      invariant PlanesDone(f1[..], orig1, planes, picHeight, 0, i) && PlanesDone(f2[..], orig2, planes, picHeight, 1, i)
    {
      PlaneBounds(planes, picHeight, i);
      var p := planes[i];
      var rows := FieldRows(picHeight, p);
      ghost var before1, before2 := f1[..], f2[..];
      SplitPlane(p.data, p.stride, rows, f1, f2, off);
      PlaneStep(before1, f1[..], orig1, planes, picHeight, 0, i);
      PlaneStep(before2, f2[..], orig2, planes, picHeight, 1, i);
      off := off + RowsBytes(rows, p.stride);
      i := i + 1;
    }
  }

  /** The three parts of a buffer after a splice. */
  lemma SpliceParts(before: seq<Byte>, field: seq<Byte>, after: seq<Byte>, off: nat, n: nat)
    requires off + n <= |before| && |field| == n
    requires after == before[..off] + field + before[off..][n..]
    ensures |after| == |before| && after[..off] == before[..off]
    ensures after[off..off + n] == field && after[off + n..] == before[off + n..]
  {
  }

  /** Buffers that agree on a prefix agree on every slice inside it. */
  lemma PrefixSlice(a: seq<Byte>, b: seq<Byte>, off: nat, lo: nat, up: nat)
    requires lo <= up <= off <= |a| && off <= |b| && a[..off] == b[..off]
    ensures a[lo..up] == b[lo..up]
  {
    assert a[lo..up] == a[..off][lo..up];
    assert b[lo..up] == b[..off][lo..up];
  }

  /** Buffers that agree from `off` on agree from any later offset on. */
  lemma SuffixSlice(a: seq<Byte>, b: seq<Byte>, off: nat, hi: nat)
    requires off <= hi <= |a| && |a| == |b| && a[off..] == b[off..]
    ensures a[hi..] == b[hi..]
  {
    assert a[hi..] == a[off..][hi - off..];
    assert b[hi..] == b[off..][hi - off..];
  }

  /** After plane `i` is copied, planes before it are still in place and
      plane `i` now is too. */
  lemma PlaneStep(before: seq<Byte>, after: seq<Byte>, orig: seq<Byte>, planes: seq<Plane>, picHeight: nat, parity: nat, i: nat)
    requires i < |planes| && PlanesDone(before, orig, planes, picHeight, parity, i)
    requires PlaneOffset(planes, picHeight, i + 1) <= |before|
    requires var off := PlaneOffset(planes, picHeight, i);
      var p := planes[i];
      RowsBytes(2 * FieldRows(picHeight, p), p.stride) <= |p.data| &&
      after == before[..off] + Field(p.data, p.stride, FieldRows(picHeight, p), parity) + before[off..][FieldPlaneBytes(picHeight, p)..]
    ensures PlanesDone(after, orig, planes, picHeight, parity, i + 1)
  {
    var off, hi := PlaneOffset(planes, picHeight, i), PlaneOffset(planes, picHeight, i + 1);
    var p := planes[i];
    SpliceParts(before, Field(p.data, p.stride, FieldRows(picHeight, p), parity), after, off, FieldPlaneBytes(picHeight, p));
    forall k | 0 <= k < i
      ensures PlaneSplit(after, planes, picHeight, parity, k)
    {
      PlaneOffsetMono(planes, picHeight, k + 1, i);
      PrefixSlice(after, before, off, PlaneOffset(planes, picHeight, k), PlaneOffset(planes, picHeight, k + 1));
      assert PlaneSplit(before, planes, picHeight, parity, k);
    }
    SuffixSlice(before, orig, off, hi);
  }
}
