/** `RawImageReader` of source/input/devicereader.cpp: reads one raw RGB24
    frame and converts it in place (R/B swap) or to three full-size planes
    (Y, U, V) with the 8-bit studio-range integer coefficients of
    ITU-R BT.601. */
module DeviceReader {
  import opened Bytes

  /** `clamp(num, min, max)`: `min` below the range, `max` above it, `num`
      otherwise. */
  function Clamp(num: int, min: int, max: int): (r: int)
    ensures num < min ==> r == min
    ensures min <= num <= max ==> r == num
    ensures min <= num && max < num ==> r == max
    ensures min <= max ==> min <= r <= max
  {
    if num < min then min else if num > max then max else num
  }

  /** `x >> 8` on a possibly negative `int`: an arithmetic shift, i.e. the
      floor of `x / 256` (Dafny's `/` with a positive divisor floors). */
  function Shr8(x: int): (r: int)
    ensures 256 * r <= x < 256 * r + 256
  {
    x / 256
  }

  /** The unclamped Y, U and V of one pixel. */
  function LumaRaw(r: Byte, g: Byte, b: Byte): int { Shr8(66 * r + 129 * g + 25 * b + 128) + 16 }
  function CbRaw(r: Byte, g: Byte, b: Byte): int { Shr8(-38 * r - 74 * g + 112 * b + 128) + 128 }
  function CrRaw(r: Byte, g: Byte, b: Byte): int { Shr8(112 * r - 94 * g - 18 * b + 128) + 128 }

  /** `(unsigned char)clamp(v, 0, 255)`. */
  function ToByte(v: int): Byte
  {
    Clamp(v, 0, 255)
  }

  /** For 8-bit inputs, Y before clamping already lies in the studio range
      [16, 235], so the luma clamp never changes it. */
  lemma LumaInStudioRange(r: Byte, g: Byte, b: Byte)
    ensures 16 <= LumaRaw(r, g, b) <= 235
    ensures ToByte(LumaRaw(r, g, b)) == LumaRaw(r, g, b)
  {
    var x := 66 * r + 129 * g + 25 * b + 128;
    assert 128 <= x <= 56228;
    assert 0 <= Shr8(x) <= 219;
  }

  /** The RGB24 frame with bytes `3k` and `3k + 2` of every pixel exchanged. */
  function SwapRedBlue(s: seq<Byte>): (t: seq<Byte>)
    requires |s| % 3 == 0
    ensures |t| == |s|
  {
    seq(|s|, k requires 0 <= k < |s| =>
      if k % 3 == 0 then s[k + 2] else if k % 3 == 2 then s[k - 2] else s[k])
  }

  /** Pixel by pixel, red and blue trade places and green stays. */
  lemma SwapRedBluePixel(s: seq<Byte>, p: nat)
    requires |s| % 3 == 0 && 3 * p + 2 < |s|
    ensures SwapRedBlue(s)[3 * p] == s[3 * p + 2]
    ensures SwapRedBlue(s)[3 * p + 1] == s[3 * p + 1]
    ensures SwapRedBlue(s)[3 * p + 2] == s[3 * p]
  {
  }

  /** Applying the swap twice gives back the frame. */
  lemma SwapRedBlueInvolution(s: seq<Byte>)
    requires |s| % 3 == 0
    ensures SwapRedBlue(SwapRedBlue(s)) == s
  {
    var t := SwapRedBlue(s);
    forall k | 0 <= k < |s|
      ensures SwapRedBlue(t)[k] == s[k]
    {
      if k % 3 == 0 {
        assert (k + 2) % 3 == 2;
      } else if k % 3 == 2 {
        assert (k - 2) % 3 == 0;
      }
    }
  }

  /** The first `i` bytes of `cur` are those of the swapped `frame`, and
      the rest are still those of `frame`. */
  predicate SwappedUpTo(cur: seq<Byte>, frame: seq<Byte>, i: nat)
    requires |frame| % 3 == 0
  {
    |cur| == |frame| && i <= |frame| &&
    (forall k :: 0 <= k < i ==> cur[k] == SwapRedBlue(frame)[k]) &&
    (forall k :: i <= k < |cur| ==> cur[k] == frame[k])
  }

  /** Exchanging bytes `i` and `i + 2` of the next pixel extends the swapped
      prefix by that pixel. */
  lemma SwapStep(before: seq<Byte>, after: seq<Byte>, frame: seq<Byte>, i: nat)
    requires |frame| % 3 == 0 && i % 3 == 0 && i < |frame|
    requires SwappedUpTo(before, frame, i)
    requires i + 2 < |before| && after == before[i := before[i + 2]][i + 2 := before[i]]
    ensures SwappedUpTo(after, frame, i + 3)
  {
    var t := SwapRedBlue(frame);
    assert (i + 1) % 3 == 1 && (i + 2) % 3 == 2;
    assert t[i] == frame[i + 2] && t[i + 1] == frame[i + 1] && t[i + 2] == frame[i];
  }

  /** The planar frame `ReadAsYuv` produces from `rgb`: `fs = width * height`
      luma bytes, then `fs` U bytes, then `fs` V bytes, where pixel `k`
      reads R, G, B at `3k`, `3k + 1`, `3k + 2`. The chroma planes are full
      size: nothing is subsampled. */
  function Planar(rgb: seq<Byte>, fs: nat): (yuv: seq<Byte>)
    requires |rgb| == 3 * fs
    ensures |yuv| == 3 * fs
  {
    seq(3 * fs, k requires 0 <= k < 3 * fs =>
      if k < fs then PlaneByte(rgb, fs, 0, k)
      else if k < 2 * fs then PlaneByte(rgb, fs, 1, k - fs)
      else PlaneByte(rgb, fs, 2, k - 2 * fs))
  }

  /** Byte `p` of plane `plane` (0 for Y, 1 for U, 2 for V): the clamped
      value computed from pixel `p`'s R, G, B at `3p`, `3p + 1`, `3p + 2`. */
  function PlaneByte(rgb: seq<Byte>, fs: nat, plane: nat, p: nat): Byte
    requires |rgb| == 3 * fs && p < fs
  {
    var r, g, b := rgb[3 * p], rgb[3 * p + 1], rgb[3 * p + 2];
    if plane == 0 then ToByte(LumaRaw(r, g, b))
    else if plane == 1 then ToByte(CbRaw(r, g, b))
    else ToByte(CrRaw(r, g, b))
  }

  /** Where pixel `p`'s three output bytes land. */
  lemma PlanarPixel(rgb: seq<Byte>, fs: nat, p: nat)
    requires |rgb| == 3 * fs && p < fs
    ensures Planar(rgb, fs)[p] == LumaRaw(rgb[3 * p], rgb[3 * p + 1], rgb[3 * p + 2])
    ensures Planar(rgb, fs)[fs + p] == ToByte(CbRaw(rgb[3 * p], rgb[3 * p + 1], rgb[3 * p + 2]))
    ensures Planar(rgb, fs)[2 * fs + p] == ToByte(CrRaw(rgb[3 * p], rgb[3 * p + 1], rgb[3 * p + 2]))
  {
    var yuv := Planar(rgb, fs);
    assert yuv[p] == PlaneByte(rgb, fs, 0, p);
    assert yuv[fs + p] == PlaneByte(rgb, fs, 1, p);
    assert yuv[2 * fs + p] == PlaneByte(rgb, fs, 2, p);
    LumaInStudioRange(rgb[3 * p], rgb[3 * p + 1], rgb[3 * p + 2]);
  }

  lemma MulStep(j: nat, w: nat, h: nat)
    requires j < h
    ensures j * w + w <= h * w
    ensures (j + 1) * w == j * w + w
  {
    assert j * w + w == (j + 1) * w;
  }

  /** The body of the pixel loop: reads R, G, B at `rgbIndex` and writes the
      clamped Y, U, V at `yIndex`, `uIndex`, `vIndex`, which for pixel `p`
      are `p`, `fs + p` and `2 * fs + p`. */
  method ConvertPixel(rgb: array<Byte>, yuv: array<Byte>, fs: nat, p: nat,
                      rgbIndex: nat, yIndex: nat, uIndex: nat, vIndex: nat, ghost planes: seq<Byte>)
    requires rgb.Length == 3 * fs && yuv.Length == 3 * fs && rgb != yuv && p < fs
    requires planes == Planar(rgb[..], fs)
    requires rgbIndex == 3 * p && yIndex == p && uIndex == fs + p && vIndex == 2 * fs + p
    modifies yuv
    ensures yuv[..] == old(yuv[..])[p := planes[p]][fs + p := planes[fs + p]][2 * fs + p := planes[2 * fs + p]]
  {
    var r := rgb[rgbIndex];
    var g := rgb[rgbIndex + 1];
    var b := rgb[rgbIndex + 2];
    PlanarPixel(rgb[..], fs, p);
    yuv[yIndex] := ToByte(LumaRaw(r, g, b));
    yuv[uIndex] := ToByte(CbRaw(r, g, b));
    yuv[vIndex] := ToByte(CrRaw(r, g, b));
  }

  /** Whether output byte `k` belongs to pixels `lo..hi-1` of one of the
      three planes of size `fs`. */
  predicate InPixels(k: int, fs: nat, lo: nat, hi: nat)
  {
    lo <= k < hi || fs + lo <= k < fs + hi || 2 * fs + lo <= k < 2 * fs + hi
  }

  /** Pixels `start..index-1` of `cur` are converted and every other byte
      is still that of `orig`. */
  predicate RowPrefix(cur: seq<Byte>, orig: seq<Byte>, planes: seq<Byte>, fs: nat, start: nat, index: nat)
  {
    |cur| == 3 * fs && |orig| == 3 * fs && |planes| == 3 * fs &&
    forall k :: 0 <= k < 3 * fs ==> cur[k] == (if InPixels(k, fs, start, index) then planes[k] else orig[k])
  }

  /** Converting pixel `index` extends the converted run by one pixel. */
  lemma PixelStep(before: seq<Byte>, orig: seq<Byte>, planes: seq<Byte>, fs: nat, start: nat, index: nat)
    requires RowPrefix(before, orig, planes, fs, start, index) && start <= index < fs
    ensures RowPrefix(before[index := planes[index]][fs + index := planes[fs + index]][2 * fs + index := planes[2 * fs + index]],
                      orig, planes, fs, start, index + 1)
  {
  }

  /** The inner loop of `ReadAsYuv`: converts the `width` pixels from
      `start` on, each index advancing by one pixel per step. */
  method ConvertRow(rgb: array<Byte>, yuv: array<Byte>, fs: nat, start: nat, width: nat,
                    ghost planes: seq<Byte>)
    requires rgb.Length == 3 * fs && yuv.Length == 3 * fs && rgb != yuv
    requires planes == Planar(rgb[..], fs)
    requires start + width <= fs
    modifies yuv
    ensures forall k :: 0 <= k < yuv.Length ==>
      yuv[k] == (if InPixels(k, fs, start, start + width) then planes[k] else old(yuv[k]))
  {
    ghost var orig := yuv[..];
    var i := 0;
    var index := start;
    var rgbIndex, yIndex, uIndex, vIndex := 3 * start, start, fs + start, 2 * fs + start;
    while i < width
      modifies yuv
      invariant 0 <= i <= width && index == start + i
      invariant rgbIndex == 3 * index && yIndex == index && uIndex == fs + index && vIndex == 2 * fs + index
      invariant RowPrefix(yuv[..], orig, planes, fs, start, index)
    {
      PixelStep(yuv[..], orig, planes, fs, start, index);
      ConvertPixel(rgb, yuv, fs, index, rgbIndex, yIndex, uIndex, vIndex, planes);
      rgbIndex := rgbIndex + 3;
      yIndex, uIndex, vIndex := yIndex + 1, uIndex + 1, vIndex + 1;
      index := index + 1;
      i := i + 1;
    }
  }

  /** The nested pixel loop of `ReadAsYuv`: `rgbIndex` advances by three
      bytes per pixel and `yIndex`, `uIndex`, `vIndex` by one byte each,
      starting at the three plane offsets `0`, `fs` and `2 * fs`. */
  method ConvertToPlanes(rgb: array<Byte>, yuv: array<Byte>, width: nat, height: nat)
    requires rgb.Length == width * height * 3 && yuv.Length == 3 * (width * height)
    requires rgb != yuv
    modifies yuv
    ensures yuv[..] == Planar(rgb[..], width * height)
  {
    var frameSize := width * height;
    ghost var planes := Planar(rgb[..], frameSize);
    var index := 0;
    var j := 0;
    while j < height
      modifies yuv
      invariant 0 <= j <= height && index == j * width
      invariant PixelsDone(yuv[..], planes, frameSize, index)
    {
      MulStep(j, width, height);
      ghost var before := yuv[..];
      ConvertRow(rgb, yuv, frameSize, index, width, planes);
      RowDone(before, yuv[..], planes, frameSize, index, width);
      index := index + width;
      j := j + 1;
    }
    assert index == frameSize;
    AllPixelsDone(yuv[..], planes, frameSize);
  }

  /** Pixels `0..n-1` of all three planes of `cur` hold their converted
      values. */
  predicate PixelsDone(cur: seq<Byte>, planes: seq<Byte>, fs: nat, n: nat)
  {
    |cur| == 3 * fs && |planes| == 3 * fs &&
    forall k :: 0 <= k < 3 * fs && InPixels(k, fs, 0, n) ==> cur[k] == planes[k]
  }

  /** Converting the next row of `width` pixels extends the converted
      prefix by that row. */
  lemma RowDone(before: seq<Byte>, after: seq<Byte>, planes: seq<Byte>, fs: nat, start: nat, width: nat)
    requires PixelsDone(before, planes, fs, start) && |after| == 3 * fs
    requires forall k :: 0 <= k < |after| ==>
      after[k] == (if InPixels(k, fs, start, start + width) then planes[k] else before[k])
    ensures PixelsDone(after, planes, fs, start + width)
  {
  }

  /** Once every pixel is converted the output is the planar frame. */
  lemma AllPixelsDone(cur: seq<Byte>, planes: seq<Byte>, fs: nat)
    requires PixelsDone(cur, planes, fs, fs)
    ensures cur == planes
  {
    assert forall k :: 0 <= k < 3 * fs ==> InPixels(k, fs, 0, fs);
  }

  /** What `ReadDevice` meets: `fopen` fails, `realloc` of the RGB buffer
      fails after the open, or the device delivers a frame. */
  datatype DeviceRead = OpenFailed | AllocFailed | Frame(bytes: seq<Byte>)

  class RawImageReader {
    var rgb: array<Byte>
    var yuv: array<Byte>
    var rgbSz: int
    var yuvSz: int
    var bytesPerPixel: int

    /** `RGB(nullptr), YUV(nullptr), RgbSz(0)`; `BytesPerPixel = 3`. */
    constructor ()
      ensures rgbSz == 0 && rgb.Length == 0 && yuv.Length == 0 && bytesPerPixel == 3
    {
      rgb := new Byte[0];
      yuv := new Byte[0];
      rgbSz, yuvSz, bytesPerPixel := 0, 0, 3;
    }

    /** `ReadDevice`: a failed open returns false and changes nothing.
        Otherwise `BytesPerPixel = 3` and `RgbSz = width * height * 3` are
        set before the `realloc`; when that fails `RGB` is left null (an
        empty array here) and the result is false, else `RGB` holds the
        frame. */
    method ReadDevice(device: DeviceRead, width: nat, height: nat) returns (ok: bool)
      requires device.Frame? ==> |device.bytes| == width * height * 3
      modifies this
      ensures ok == device.Frame?
      ensures device.OpenFailed? ==>
        rgb == old(rgb) && rgbSz == old(rgbSz) && bytesPerPixel == old(bytesPerPixel)
      ensures !device.OpenFailed? ==> bytesPerPixel == 3 && rgbSz == width * height * 3 && fresh(rgb)
      ensures device.AllocFailed? ==> rgb.Length == 0
      ensures ok ==> rgb.Length == rgbSz && rgb[..] == device.bytes
      ensures yuv == old(yuv) && yuvSz == old(yuvSz)
    {
      if device.OpenFailed? {
        return false;
      }
      bytesPerPixel := 3;
      rgbSz := width * height * bytesPerPixel;
      if device.AllocFailed? {
        // realloc failed: RGB is now nullptr
        rgb := new Byte[0];
        return false;
      }
      var frame := device.bytes;
      rgb := new Byte[rgbSz](k requires 0 <= k < |frame| => frame[k]);
      return true;
    }

    /** `ReadAsRgb`: reads a frame and swaps R and B of every pixel in place.
        A failed read returns false and converts nothing, leaving what
        `ReadDevice` left. */
    method ReadAsRgb(device: DeviceRead, width: nat, height: nat) returns (ok: bool)
      requires device.Frame? ==> |device.bytes| == width * height * 3
      modifies this
      ensures ok == device.Frame?
      ensures ok ==> rgbSz == rgb.Length == width * height * 3
      ensures ok ==> rgb[..] == SwapRedBlue(device.bytes)
      ensures device.OpenFailed? ==> rgb == old(rgb) && rgbSz == old(rgbSz)
      ensures device.AllocFailed? ==> bytesPerPixel == 3 && rgbSz == width * height * 3 && rgb.Length == 0
      ensures device.OpenFailed? ==> bytesPerPixel == old(bytesPerPixel)
      ensures yuv == old(yuv) && yuvSz == old(yuvSz)
    {
      ok := ReadDevice(device, width, height);
      if !ok {
        return;
      }
      SwapPixels();
    }

    /** The loop of `ReadAsRgb`: steps through `RGB` one pixel
        (`BytesPerPixel` bytes) at a time and exchanges its first and third
        bytes. */
    method SwapPixels()
      requires rgbSz == rgb.Length && rgbSz % 3 == 0 && bytesPerPixel == 3
      modifies rgb
      ensures rgb[..] == SwapRedBlue(old(rgb[..]))
    {
      ghost var frame := rgb[..];
      var i := 0;
      while i < rgbSz
        modifies rgb
        invariant 0 <= i <= rgbSz && i % 3 == 0
        invariant SwappedUpTo(rgb[..], frame, i)
      {
        ghost var before := rgb[..];
        var tmp := rgb[i];
        rgb[i] := rgb[i + 2];
        rgb[i + 2] := tmp;
        assert rgb[..] == before[i := before[i + 2]][i + 2 := before[i]];
        SwapStep(before, rgb[..], frame, i);
        i := i + bytesPerPixel;
      }
      assert rgb[..] == SwapRedBlue(frame);
    }

    /** `ReadAsYuv`: reads a frame and fills `YUV` with the three full-size
        planes. `yuvAllocated` is whether `realloc` of the `3 * width * height`
        byte buffer succeeded. */
    method ReadAsYuv(device: DeviceRead, width: nat, height: nat, yuvAllocated: bool) returns (ok: bool)
      requires device.Frame? ==> |device.bytes| == width * height * 3
      modifies this
      ensures ok == (device.Frame? && yuvAllocated)
      ensures ok ==> yuvSz == yuv.Length == 3 * (width * height)
      ensures ok ==> rgb[..] == device.bytes
      ensures ok ==> yuv[..] == Planar(device.bytes, width * height)
      ensures !device.Frame? ==> yuv == old(yuv) && yuvSz == old(yuvSz)
      ensures device.OpenFailed? ==> rgb == old(rgb) && rgbSz == old(rgbSz) && bytesPerPixel == old(bytesPerPixel)
      ensures device.AllocFailed? ==> bytesPerPixel == 3 && rgbSz == width * height * 3 && rgb.Length == 0
      ensures device.Frame? ==> bytesPerPixel == 3 && rgbSz == width * height * 3 && rgb[..] == device.bytes
      ensures device.Frame? && !yuvAllocated ==> yuvSz == 3 * (width * height) && yuv.Length == 0
    {
      ok := ReadDevice(device, width, height);
      if !ok {
        return;
      }
      var frameSize := width * height;
      yuvSz := frameSize * 3;
      if !yuvAllocated {
        // realloc failed: YUV is now nullptr
        yuv := new Byte[0];
        return false;
      }
      yuv := new Byte[yuvSz];
      ConvertToPlanes(rgb, yuv, width, height);
    }
  }
}
