/**
  Region selection: numpy's two-axis slice `arr[y1:y2, x1:x2]` and the
  middle-third window the roundness check crops before looking for stars.
  An image is a sequence of rows; a pixel is any value type (the program's
  pixels are RGB triples).
 */
module Crop {

  /** Every row of `img` has `w` pixels and there are `h` rows. */
  predicate IsGrid<T>(img: seq<seq<T>>, h: nat, w: nat) {
    |img| == h && forall i :: 0 <= i < |img| ==> |img[i]| == w
  }

  /** The column count of an image, read off its first row (0 when it has none). */
  function Width<T>(img: seq<seq<T>>): nat {
    if |img| == 0 then 0 else |img[0]|
  }

  /** A numpy array is rectangular: every row is as wide as the first. */
  predicate Rectangular<T>(img: seq<seq<T>>) {
    IsGrid(img, |img|, Width(img))
  }

  /**
    How Python normalises one slice bound against a length `n`: a negative
    bound counts from the end, and the result is clamped into `[0, n]`.
   */
  function SliceIndex(i: int, n: nat): nat {
    if i < 0 then (if i + n < 0 then 0 else i + n)
    else if i > n then n
    else i
  }

  /** `s[lo:hi]` with step 1: never fails; an empty result when the bounds cross. */
  function Slice<T>(s: seq<T>, lo: int, hi: int): (r: seq<T>)
    ensures |r| <= |s|
    ensures 0 <= lo <= hi <= |s| ==> r == s[lo..hi]
    ensures 0 <= hi <= lo ==> r == []
    ensures hi >= |s| ==> r == Slice(s, lo, |s|)
  {
    var a := SliceIndex(lo, |s|);
    var b := SliceIndex(hi, |s|);
    if a <= b then s[a..b] else []
  }

  /** `crop_image_array(arr, x1, x2, y1, y2)`, that is `arr[y1:y2, x1:x2]`. */
  function CropImageArray<T>(arr: seq<seq<T>>, x1: int, x2: int, y1: int, y2: int): (r: seq<seq<T>>)
    ensures |r| <= |arr|
    ensures 0 <= y1 <= y2 <= |arr| ==>
              |r| == y2 - y1 && forall i :: 0 <= i < |r| ==> r[i] == Slice(arr[y1 + i], x1, x2)
  {
    var rows := Slice(arr, y1, y2);
    seq(|rows|, i requires 0 <= i < |rows| => Slice(rows[i], x1, x2))
  }

  /**
    With bounds inside an `h` by `w` image the crop is a `(y2-y1)` by
    `(x2-x1)` grid whose entry `(i, j)` is the image's entry `(y1+i, x1+j)`.
   */
  lemma CropInRange<T>(arr: seq<seq<T>>, h: nat, w: nat, x1: int, x2: int, y1: int, y2: int)
    requires IsGrid(arr, h, w)
    requires 0 <= x1 <= x2 <= w && 0 <= y1 <= y2 <= h
    ensures IsGrid(CropImageArray(arr, x1, x2, y1, y2), y2 - y1, x2 - x1)
    ensures forall i, j :: 0 <= i < y2 - y1 && 0 <= j < x2 - x1 ==>
              CropImageArray(arr, x1, x2, y1, y2)[i][j] == arr[y1 + i][x1 + j]
  {
  }

  /** The crop window `(x1, x2, y1, y2)` the roundness check uses for an `h` by `w` image. */
  datatype Window = Window(x1: int, x2: int, y1: int, y2: int)

  /**
    `crop_y, crop_x = int(h / 3), int(w / 3)` and the window
    `[crop_x, 2*crop_x) x [crop_y, 2*crop_y)`. For non-negative dimensions the
    truncation of `h / 3` is floor division.
   */
  function MiddleThird(h: nat, w: nat): (win: Window)
    ensures 0 <= win.x1 <= win.x2 <= w && 0 <= win.y1 <= win.y2 <= h
    ensures win.x2 - win.x1 == win.x1 && win.y2 - win.y1 == win.y1
    ensures 3 * win.x1 <= w < 3 * win.x1 + 3 && 3 * win.y1 <= h < 3 * win.y1 + 3
  {
    var cropY := h / 3;
    var cropX := w / 3;
    Window(cropX, 2 * cropX, cropY, 2 * cropY)
  }

  /**
    The region the roundness check analyses: a `h/3` by `w/3` block lying
    wholly inside the image, starting at row `h/3` and column `w/3`.
   */
  function CropMiddleThird<T>(img: seq<seq<T>>): (r: seq<seq<T>>)
    requires Rectangular(img)
    ensures IsGrid(r, |img| / 3, Width(img) / 3)
    ensures forall i, j :: 0 <= i < |img| / 3 && 0 <= j < Width(img) / 3 ==>
              r[i][j] == img[|img| / 3 + i][Width(img) / 3 + j]
  {
    var win := MiddleThird(|img|, Width(img));
    CropInRange(img, |img|, Width(img), win.x1, win.x2, win.y1, win.y2);
    CropImageArray(img, win.x1, win.x2, win.y1, win.y2)
  }
}
