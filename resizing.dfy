/**
 * Stride padding and the per-example resize step of the image pipeline
 * (sleap/nn/data/resizing.py).
 *
 * An image is a rank-3 tensor (height x width x channels). Its shape is kept
 * beside the nested sequences so that empty images still carry their width
 * and channel count, as a tensor does.
 */
module Resizing {
  import opened Wrappers
  import opened IntArith

  /** Python's `%`: the result takes the sign of the divisor (floor division). */
  function PyMod(a: int, b: int): (r: int)
    requires b != 0
    ensures b > 0 ==> 0 <= r < b
    ensures b < 0 ==> b < r <= 0
    ensures b > 0 ==> (a - r) % b == 0
    ensures b < 0 ==> (a - r) % (-b) == 0
  {
    if b > 0 then
      DivModUnique(a - a % b, b, a / b, 0);
      a % b
    else
      var r := -((-a) % (-b));
      DivModUnique(a - r, -b, -((-a) / (-b)), 0);
      r
  }

  /** Python's values on negative operands: `5 % -4 == -3`, `-5 % -4 == -1`, `-7 % 3 == 2`. */
  lemma PyModExamples()
    ensures PyMod(5, -4) == -3 && PyMod(-5, -4) == -1 && PyMod(-7, 3) == 2
  {
  }

  /** Padding of one dimension: `(max_stride - (dim % max_stride)) % max_stride`. */
  function PadFor(dim: int, maxStride: int): int
    requires maxStride != 0
  {
    PyMod(maxStride - PyMod(dim, maxStride), maxStride)
  }

  /** `find_padding_for_stride`: (pad_bottom, pad_right). A zero stride raises in the source. */
  function FindPaddingForStride(imageHeight: int, imageWidth: int, maxStride: int): (pads: (int, int))
    requires maxStride != 0
    ensures maxStride > 0 ==> 0 <= pads.0 < maxStride && 0 <= pads.1 < maxStride
    ensures maxStride > 0 ==> (imageHeight + pads.0) % maxStride == 0
    ensures maxStride > 0 ==> (imageWidth + pads.1) % maxStride == 0
    ensures maxStride < 0 ==> pads.0 <= 0 && pads.1 <= 0
  {
    PadDivides(imageHeight, maxStride);
    PadDivides(imageWidth, maxStride);
    (PadFor(imageHeight, maxStride), PadFor(imageWidth, maxStride))
  }

  /** For a positive stride the padding is 0 on a multiple, else the distance to the next one. */
  lemma PadValue(dim: int, s: int)
    requires s > 0
    ensures PadFor(dim, s) == if dim % s == 0 then 0 else s - dim % s
  {
    if dim % s == 0 {
      DivModUnique(s, s, 1, 0);
    } else {
      DivModUnique(s - dim % s, s, 0, s - dim % s);
    }
  }

  /** With a positive stride the padded dimension is a multiple of the stride. */
  lemma PadDivides(dim: int, s: int)
    requires s != 0
    ensures s > 0 ==> 0 <= PadFor(dim, s) < s && (dim + PadFor(dim, s)) % s == 0
  {
    if s > 0 {
      PadValue(dim, s);
      var r, q := dim % s, dim / s;
      if r == 0 {
        DivModUnique(dim, s, q, 0);
      } else {
        DivModUnique(dim + (s - r), s, q + 1, 0);
      }
    }
  }

  /**
   * Minimality: no smaller non-negative amount makes the dimension divisible,
   * so the padding is exactly the distance to the next multiple of the stride.
   */
  lemma PaddingMinimal(h: int, w: int, s: int, p: int)
    requires s > 0 && 0 <= p
    ensures p < FindPaddingForStride(h, w, s).0 ==> (h + p) % s != 0
    ensures p < FindPaddingForStride(h, w, s).1 ==> (w + p) % s != 0
  {
    if p < PadFor(h, s) {
      PadMinimal(h, s, p);
    }
    if p < PadFor(w, s) {
      PadMinimal(w, s, p);
    }
  }

  /** No non-negative amount below `PadFor(dim, s)` makes `dim` divisible by `s`. */
  lemma PadMinimal(dim: int, s: int, p: int)
    requires s > 0 && 0 <= p < PadFor(dim, s)
    ensures (dim + p) % s != 0
  {
    PadValue(dim, s);
    if dim % s != 0 {
      DivModUnique(dim + p, s, dim / s, dim % s + p);
    }
  }

  /** The padding is zero exactly when the dimension is already a multiple of the stride. */
  lemma PaddingZeroIff(h: int, w: int, s: int)
    requires s > 0
    ensures FindPaddingForStride(h, w, s).0 == 0 <==> h % s == 0
    ensures FindPaddingForStride(h, w, s).1 == 0 <==> w % s == 0
  {
    PadValue(h, s);
    PadValue(w, s);
  }

  /** A worked example: a 17 x 9 image at stride 8 needs 7 rows and 7 columns. */
  lemma PaddingExample()
    ensures FindPaddingForStride(17, 9, 8) == (7, 7)
  {
  }

  /** A height x width x channels tensor of integers. */
  datatype Image = Image(height: nat, width: nat, channels: nat, pixels: seq<seq<seq<int>>>)
  {
    ghost predicate Valid() {
      && |pixels| == height
      && (forall i :: 0 <= i < height ==> |pixels[i]| == width)
      && (forall i, j :: 0 <= i < height && 0 <= j < width ==> |pixels[i][j]| == channels)
    }
  }

  /** `tf.pad` with `[[0, padBottom], [0, padRight], [0, 0]]` and constant 0. */
  function ZeroPad(img: Image, padBottom: nat, padRight: nat): (r: Image)
    requires img.Valid()
    ensures r.Valid()
    ensures r.height == img.height + padBottom && r.width == img.width + padRight
    ensures r.channels == img.channels
    ensures forall i, j :: 0 <= i < img.height && 0 <= j < img.width ==> r.pixels[i][j] == img.pixels[i][j]
    ensures forall i, j, k ::
              0 <= i < r.height && 0 <= j < r.width && (i >= img.height || j >= img.width) && 0 <= k < r.channels
              ==> r.pixels[i][j][k] == 0
  {
    var h, w := img.height + padBottom, img.width + padRight;
    Image(h, w, img.channels,
      seq(h, i requires 0 <= i < h =>
        seq(w, j requires 0 <= j < w =>
          if i < img.height && j < img.width then img.pixels[i][j]
          else seq(img.channels, _ => 0))))
  }

  /** `pad_to_stride`: pad bottom and right only when some padding is needed. */
  function PadToStride(img: Image, maxStride: int): (r: Image)
    requires img.Valid() && maxStride != 0
    ensures r.Valid() && r.channels == img.channels
    ensures maxStride > 0 ==> r.height % maxStride == 0 && r.width % maxStride == 0
    ensures maxStride > 0 ==> img.height <= r.height < img.height + maxStride
    ensures maxStride > 0 ==> img.width <= r.width < img.width + maxStride
    ensures img.height <= r.height && img.width <= r.width
    ensures forall i, j :: 0 <= i < img.height && 0 <= j < img.width ==> r.pixels[i][j] == img.pixels[i][j]
    ensures forall i, j, k ::
              0 <= i < r.height && 0 <= j < r.width && (i >= img.height || j >= img.width) && 0 <= k < r.channels
              ==> r.pixels[i][j][k] == 0
    ensures maxStride < 0 ==> r == img
  {
    var pads := FindPaddingForStride(img.height, img.width, maxStride);
    if pads.0 > 0 || pads.1 > 0 then
      ZeroPad(img, pads.0, pads.1)
    else img
  }

  /** An image whose sides are already multiples of the stride is returned as it is. */
  lemma PadToStrideIdentity(img: Image, s: int)
    requires img.Valid() && s > 0
    requires img.height % s == 0 && img.width % s == 0
    ensures PadToStride(img, s) == img
  {
    PaddingZeroIff(img.height, img.width, s);
  }

  /** The padded shape is the least multiple of the stride not below each side. */
  lemma PadToStrideLeastShape(img: Image, s: int, h: int, w: int)
    requires img.Valid() && s > 0
    requires img.height <= h && h % s == 0 && img.width <= w && w % s == 0
    ensures PadToStride(img, s).height <= h && PadToStride(img, s).width <= w
  {
    var r := PadToStride(img, s);
    if r.height > h {
      PaddingMinimal(img.height, img.width, s, h - img.height);
    }
    if r.width > w {
      PaddingMinimal(img.height, img.width, s, w - img.width);
    }
  }

  datatype ResizeError = KeyError(key: string)

  /** The `Resizer` transformer's configuration, with the source's defaults in `DefaultResizer`. */
  datatype Resizer = Resizer(imageKey: string, scale: real, padToStride: int)
  {
    function InputKeys(): seq<string> { [imageKey] }

    function OutputKeys(): (keys: seq<string>)
      ensures keys == InputKeys() && keys == [imageKey]
    {
      InputKeys()
    }
  }

  function DefaultResizer(): Resizer { Resizer("image", 1.0, 1) }

  /** With the default scale and stride the step neither scales nor pads: every example passes unchanged. */
  lemma DefaultResizerIsIdentity(example: map<string, Image>, scaleImage: Image -> Image)
    requires "image" in example ==> example["image"].Valid()
    requires forall x: Image :: x.Valid() ==> scaleImage(x).Valid()
    ensures DefaultResizer().InputKeys() == DefaultResizer().OutputKeys() == ["image"]
    ensures Resize(DefaultResizer(), example, scaleImage) == Success(example)
  {
  }

  /**
   * The `resize` callback applied to each example. `scaleImage` stands for
   * `resize_image` with this resizer's scale (bilinear interpolation is not modelled).
   * Reading a missing image key raises `KeyError` in the source.
   */
  function Resize(rz: Resizer, example: map<string, Image>, scaleImage: Image -> Image)
    : (r: Result<map<string, Image>, ResizeError>)
    requires rz.imageKey in example ==> example[rz.imageKey].Valid()
    requires forall x: Image :: x.Valid() ==> scaleImage(x).Valid()
    ensures r.Failure? <==> rz.imageKey !in example && (rz.scale != 1.0 || rz.padToStride > 1)
    ensures r.Success? ==> r.value.Keys == example.Keys
    ensures r.Success? ==> forall k :: k in example && k != rz.imageKey ==> r.value[k] == example[k]
    ensures r.Success? && rz.scale == 1.0 && rz.padToStride <= 1 ==> r.value == example
    ensures r.Success? && rz.imageKey in example ==>
              var scaled := if rz.scale != 1.0 then scaleImage(example[rz.imageKey]) else example[rz.imageKey];
              r.value[rz.imageKey] == if rz.padToStride > 1 then PadToStride(scaled, rz.padToStride) else scaled
  {
    if rz.scale == 1.0 && rz.padToStride <= 1 then Success(example)
    else if rz.imageKey !in example then Failure(KeyError(rz.imageKey))
    else
      var img := example[rz.imageKey];
      var scaled := if rz.scale != 1.0 then scaleImage(img) else img;
      var padded := if rz.padToStride > 1 then PadToStride(scaled, rz.padToStride) else scaled;
      Success(example[rz.imageKey := padded])
  }

  /**
   * Scaling then padding: the image that leaves the step has sides that are
   * the least multiples of the stride covering the scaled sides, and keeps
   * every scaled pixel in place.
   */
  lemma ResizeThenPadShape(rz: Resizer, example: map<string, Image>, scaleImage: Image -> Image)
    requires rz.imageKey in example && example[rz.imageKey].Valid()
    requires forall x: Image :: x.Valid() ==> scaleImage(x).Valid()
    requires rz.scale != 1.0 && rz.padToStride > 1
    ensures var r := Resize(rz, example, scaleImage);
            var scaled := scaleImage(example[rz.imageKey]);
            var s := rz.padToStride;
            && r.Success?
            && r.value[rz.imageKey].height % s == 0 && r.value[rz.imageKey].width % s == 0
            && scaled.height <= r.value[rz.imageKey].height < scaled.height + s
            && scaled.width <= r.value[rz.imageKey].width < scaled.width + s
            && (forall h, w :: scaled.height <= h && h % s == 0 && scaled.width <= w && w % s == 0
                  ==> r.value[rz.imageKey].height <= h && r.value[rz.imageKey].width <= w)
  {
    var scaled := scaleImage(example[rz.imageKey]);
    var s := rz.padToStride;
    forall h, w | scaled.height <= h && h % s == 0 && scaled.width <= w && w % s == 0
      ensures PadToStride(scaled, s).height <= h && PadToStride(scaled, s).width <= w
    {
      PadToStrideLeastShape(scaled, s, h, w);
    }
  }
}
