/** `ScreenCapture` of source/input/ScreenCapture/ScreenCapture.cpp: keeps the
    screens sorted by origin, picks the one under the cursor and repacks its
    grabbed 32-bit image (bytes B, G, R, A) into packed RGB24. Screens are
    rectangles and the image is a byte sequence; the window-system calls that
    produce them are parameters. */
module Capture {
  import opened Bytes

  /** A `QPoint`. */
  datatype Point = Point(x: int, y: int)

  /** A screen's `geometry()`: origin and size. */
  datatype Rect = Rect(x: int, y: int, width: nat, height: nat)

  /** `QRect::contains(QPoint)`: the point lies on or inside the edges, the
      right edge being `x + width - 1` and the bottom `y + height - 1`. */
  predicate Contains(r: Rect, p: Point)
  {
    r.x <= p.x < r.x + r.width && r.y <= p.y < r.y + r.height
  }

  /** The comparator handed to `std::sort`: by x, and by y when the x
      coordinates are equal. */
  predicate ScreenLess(a: Rect, b: Rect)
  {
    if a.x != b.x then a.x < b.x else a.y < b.y
  }

  /** The comparator is the strict lexicographic order on origins (x, y). */
  lemma ScreenLessIsLexicographic(a: Rect, b: Rect)
    ensures ScreenLess(a, b) <==> (a.x < b.x || (a.x == b.x && a.y < b.y))
  {
  }

  /** The comparator is a strict weak ordering, as `std::sort` requires:
      irreflexive, transitive, and two screens are unordered exactly when
      they share an origin, which is an equivalence. */
  lemma ScreenLessStrictWeakOrder(a: Rect, b: Rect, c: Rect)
    ensures !ScreenLess(a, a)
    ensures ScreenLess(a, b) && ScreenLess(b, c) ==> ScreenLess(a, c)
    ensures (!ScreenLess(a, b) && !ScreenLess(b, a)) <==> (a.x == b.x && a.y == b.y)
  {
  }

  /** No later screen is ordered before an earlier one. */
  predicate Sorted(s: seq<Rect>)
  {
    forall i, j :: 0 <= i < j < |s| ==> !ScreenLess(s[j], s[i])
  }

  /** Inserts `r` into the sorted `s` after every screen not greater than it. */
  function Insert(r: Rect, s: seq<Rect>): (t: seq<Rect>)
    requires Sorted(s)
    ensures Sorted(t) && multiset(t) == multiset(s) + multiset{r}
    ensures forall k :: 0 <= k < |t| ==> t[k] == r || t[k] in s
  {
    if s == [] then [r]
    else if ScreenLess(r, s[0]) then [r] + s
    else
      var rest := Insert(r, s[1..]);
      assert s == [s[0]] + s[1..];
      assert forall k :: 0 <= k < |rest| ==> !ScreenLess(rest[k], s[0]);
      [s[0]] + rest
  }

  /** The order `std::sort` leaves `m_screens` in: a permutation of the
      enumerated screens, ascending by the comparator. (`std::sort` is not
      stable; screens with the same origin may come out in either order, and
      the model fixes one of those orders.) */
  function SortScreens(s: seq<Rect>): (t: seq<Rect>)
    ensures Sorted(t) && multiset(t) == multiset(s)
  {
    if s == [] then []
    else
      assert s == [s[0]] + s[1..];
      Insert(s[0], SortScreens(s[1..]))
  }

  /** In the sorted list, origins ascend by x and, for equal x, by y. */
  lemma SortedIsLexicographic(s: seq<Rect>, i: nat, j: nat)
    requires Sorted(s) && i < j < |s|
    ensures s[i].x < s[j].x || (s[i].x == s[j].x && s[i].y <= s[j].y)
  {
    assert !ScreenLess(s[j], s[i]);
  }

  /** The grabbed screen image as `QImage` hands it over: `width * height`
      pixels of four bytes each, in the order B, G, R, A. */
  datatype Image = Image(width: nat, height: nat, bits: seq<Byte>)

  type GrabbedImage = img: Image | |img.bits| == img.width * img.height * 4 witness Image(0, 0, [])

  /** What `img.scaled(600, 700)` hands back: whatever the screen's size,
      an image 600 pixels wide and 700 high. */
  type ScaledImage = img: GrabbedImage | img.width == 600 && img.height == 700
    witness Image(600, 700, seq(1680000, k => 0))

  /** The packed RGB24 frame made from `n` BGRA pixels: output pixel `k` is
      input bytes `4k + 2`, `4k + 1`, `4k` (R, G, B). */
  function BgraToRgb(bits: seq<Byte>, n: nat): (rgb: seq<Byte>)
    requires |bits| == 4 * n
    ensures |rgb| == 3 * n
  {
    seq(3 * n, k requires 0 <= k < 3 * n => bits[4 * (k / 3) + 2 - k % 3])
  }

  lemma BgraToRgbPixel(bits: seq<Byte>, n: nat, p: nat)
    requires |bits| == 4 * n && p < n
    ensures BgraToRgb(bits, n)[3 * p] == bits[4 * p + 2]
    ensures BgraToRgb(bits, n)[3 * p + 1] == bits[4 * p + 1]
    ensures BgraToRgb(bits, n)[3 * p + 2] == bits[4 * p]
  {
    assert (3 * p) / 3 == p && (3 * p + 1) / 3 == p && (3 * p + 2) / 3 == p;
  }

  /** The alpha byte `4k + 3` of a pixel is never read: two images that
      differ only in alpha repack to the same frame. */
  lemma AlphaNeverRead(a: seq<Byte>, b: seq<Byte>, n: nat)
    requires |a| == |b| == 4 * n
    requires forall k :: 0 <= k < 4 * n && k % 4 != 3 ==> a[k] == b[k]
    ensures BgraToRgb(a, n) == BgraToRgb(b, n)
  {
    forall k | 0 <= k < 3 * n
      ensures BgraToRgb(a, n)[k] == BgraToRgb(b, n)[k]
    {
      var i := 4 * (k / 3) + 2 - k % 3;
      assert i % 4 != 3;
    }
  }

  /** The inner loop of `CaptureScreen`: repacks the `width` pixels of one row
      starting at pixel `start`. */
  method RepackRow(bits: seq<Byte>, n: nat, rgb: array<Byte>, start: nat, width: nat)
    requires |bits| == 4 * n && rgb.Length == 3 * n && start + width <= n
    modifies rgb
    ensures forall k :: 0 <= k < rgb.Length ==>
      rgb[k] == (if 3 * start <= k < 3 * (start + width) then BgraToRgb(bits, n)[k] else old(rgb[k]))
  {
    var i := 0;
    while i < width
      invariant 0 <= i <= width
      invariant forall k :: 0 <= k < rgb.Length ==>
        rgb[k] == (if 3 * start <= k < 3 * (start + i) then BgraToRgb(bits, n)[k] else old(rgb[k]))
    {
      var p := start + i;
      var r := bits[4 * p + 2];
      var g := bits[4 * p + 1];
      var b := bits[4 * p + 0];
      BgraToRgbPixel(bits, n, p);
      rgb[3 * p] := r;
      rgb[3 * p + 1] := g;
      rgb[3 * p + 2] := b;
      i := i + 1;
    }
  }

  lemma RowStep(j: nat, w: nat, h: nat)
    requires j < h
    ensures j * w + w <= h * w && (j + 1) * w == j * w + w
  {
  }

  class ScreenCapture {
    /** `m_screens`, sorted once at construction. */
    var screens: seq<Rect>

    /** `InitAvailableScreens`: the screens the window system enumerates,
        sorted by origin. */
    constructor (available: seq<Rect>)
      ensures screens == SortScreens(available)
    {
      screens := SortScreens(available);
    }

    /** `GetCurrentScreen`: the first screen in sorted order whose geometry
        contains the cursor, else screen 0. The source indexes
        `m_screens[0]` without a check, so an empty list is excluded. */
    method GetCurrentScreen(cursor: Point) returns (idx: nat)
      requires |screens| > 0
      ensures idx < |screens|
      ensures (exists j :: 0 <= j < |screens| && Contains(screens[j], cursor)) ==>
        Contains(screens[idx], cursor) && forall j :: 0 <= j < idx ==> !Contains(screens[j], cursor)
      ensures (forall j :: 0 <= j < |screens| ==> !Contains(screens[j], cursor)) ==> idx == 0
    {
      var screenIdx := 0;
      while screenIdx < |screens|
        invariant 0 <= screenIdx <= |screens|
        invariant forall j :: 0 <= j < screenIdx ==> !Contains(screens[j], cursor)
      {
        if Contains(screens[screenIdx], cursor) {
          return screenIdx;
        }
        screenIdx := screenIdx + 1;
      }
      return 0;
    }

    /** `CaptureScreen`: grabs the current screen (`grab` stands for
        `grabWindow(0).toImage().scaled(600, 700)`), sizes the output at three
        bytes per pixel (`realloc`) and repacks B, G, R, A into R, G, B. It
        always returns true, with a buffer of 600 * 700 * 3 bytes. */
    method CaptureScreen(cursor: Point, grab: Rect -> ScaledImage) returns (ok: bool, rgb: array<Byte>, rgbSz: nat)
      requires |screens| > 0
      ensures ok
      ensures rgbSz == 1260000 && rgb.Length == 1260000
      ensures exists idx: nat :: CurrentScreen(screens, cursor, idx) && Repacked(grab(screens[idx]), rgb[..], rgbSz)
    {
      var idx := GetCurrentScreen(cursor);
      var img := grab(screens[idx]);
      var n := img.width * img.height;
      rgbSz := img.width * img.height * 3;
      rgb := new Byte[rgbSz];
      var rowStart := 0;
      var j := 0;
      while j < img.height
        invariant 0 <= j <= img.height && rowStart == j * img.width
        invariant forall k :: 0 <= k < 3 * rowStart ==> rgb[k] == BgraToRgb(img.bits, n)[k]
      {
        RowStep(j, img.width, img.height);
        RepackRow(img.bits, n, rgb, rowStart, img.width);
        rowStart := rowStart + img.width;
        j := j + 1;
      }
      assert rgb[..] == BgraToRgb(img.bits, n);
      assert CurrentScreen(screens, cursor, idx);
      return true, rgb, rgbSz;
    }
  }

  /** The output of `CaptureScreen` for the grabbed image `img`. */
  predicate Repacked(img: GrabbedImage, rgb: seq<Byte>, rgbSz: nat)
  {
    rgbSz == img.width * img.height * 3 && |rgb| == rgbSz &&
    rgb == BgraToRgb(img.bits, img.width * img.height)
  }

  /** What `GetCurrentScreen` promises about a chosen index. */
  predicate CurrentScreen(screens: seq<Rect>, cursor: Point, idx: nat)
  {
    idx < |screens| &&
    ((exists j :: 0 <= j < |screens| && Contains(screens[j], cursor)) ==>
      Contains(screens[idx], cursor) && forall j :: 0 <= j < idx ==> !Contains(screens[j], cursor)) &&
    ((forall j :: 0 <= j < |screens| ==> !Contains(screens[j], cursor)) ==> idx == 0)
  }

  /** `GetCurrentScreen`'s choice is determined: any two indices that meet
      its contract are equal. */
  lemma CurrentScreenUnique(screens: seq<Rect>, cursor: Point, i: nat, j: nat)
    requires CurrentScreen(screens, cursor, i) && CurrentScreen(screens, cursor, j)
    ensures i == j
  {
  }
}
