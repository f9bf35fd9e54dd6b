/** Pixels, images as values, and the two Pillow primitives both scripts use:
    `Image.resize` (as far as its output size goes) and `Image.paste` into a
    canvas that is updated in place. */
module Raster {

  /** One 8-bit channel value. */
  type Byte = x: int | 0 <= x < 256

  /** A pixel of an "RGB" image (no transparency). */
  datatype Rgb = Rgb(r: Byte, g: Byte, b: Byte)

  /** A pixel of an "RGBA" image; `a` is the 8-bit alpha channel. */
  datatype Rgba = Rgba(r: Byte, g: Byte, b: Byte, a: Byte)

  const Black: Rgb := Rgb(0, 0, 0)
  const Transparent: Rgba := Rgba(0, 0, 0, 0)

  /** A result that may be missing because the library call raised. */
  datatype Option<T> = None | Some(value: T)

  /** A width × height raster held row by row: the pixel at column x and row y
      is rows[y][x], the pixel Pillow addresses as (x, y). */
  datatype Image<P> = Image(width: nat, height: nat, rows: seq<seq<P>>) {

    ghost predicate Valid() {
      |rows| == height && forall y :: 0 <= y < |rows| ==> |rows[y]| == width
    }

    function At(x: nat, y: nat): P
      requires Valid() && x < width && y < height
    {
      rows[y][x]
    }
  }

  /** The width × height image whose pixel (x, y) is f(x, y). */
  function Tabulate<P>(w: nat, h: nat, f: (nat, nat) -> P): (img: Image<P>)
    ensures img.Valid() && img.width == w && img.height == h
    ensures forall x: nat, y: nat :: x < w && y < h ==> img.At(x, y) == f(x, y)
  {
    Image(w, h, seq(h, (y: int) requires 0 <= y < h => seq(w, (x: int) requires 0 <= x < w => f(x, y))))
  }

  /** Pillow's resampling filter (Lanczos in both scripts): given the source
      image and the requested size, the value of output pixel (x, y). Its
      arithmetic is library code and stays abstract. */
  type Kernel<!P> = (Image<P>, nat, nat, nat, nat) -> P

  /** Pillow's resize refuses a requested size with a side below 1 (it
      raises ValueError). */
  predicate ResizeAccepts(w: nat, h: nat) {
    w > 0 && h > 0
  }

  /** `img.resize((w, h), LANCZOS)`: an image of exactly w × h pixels,
      whatever the aspect ratio of `img`; every pixel is the filter's value. */
  function Resize<P>(img: Image<P>, w: nat, h: nat, kernel: Kernel<P>): (r: Image<P>)
    requires ResizeAccepts(w, h)
    ensures r.Valid() && r.width == w && r.height == h
    ensures forall x: nat, y: nat :: x < w && y < h ==> r.At(x, y) == kernel(img, w, h, x, y)
  {
    Tabulate(w, h, (x, y) => kernel(img, w, h, x, y))
  }

  /** Whether canvas position (x, y) is covered when an image of size w × h
      is pasted with its top-left corner at (x0, y0). */
  predicate Covers(x0: int, y0: int, w: nat, h: nat, x: int, y: int) {
    x0 <= x < x0 + w && y0 <= y < y0 + h
  }

  /** `canvas.paste(img, (x0, y0))` without a mask: every canvas pixel under
      the pasted rectangle takes the image's pixel (alpha included, no
      blending); the parts of `img` that fall outside the canvas are clipped
      away, and every other canvas pixel is left as it was. */
  method Paste<P>(canvas: array2<P>, img: Image<P>, x0: int, y0: int)
    requires img.Valid()
    modifies canvas
    ensures forall x, y :: 0 <= x < canvas.Length0 && 0 <= y < canvas.Length1 ==>
      canvas[x, y] == if Covers(x0, y0, img.width, img.height, x, y)
                      then img.At(x - x0, y - y0) else old(canvas[x, y])
  {
    var j := 0;
    while j < img.height
      invariant 0 <= j <= img.height
      invariant forall x, y :: 0 <= x < canvas.Length0 && 0 <= y < canvas.Length1 ==>
        canvas[x, y] == if Covers(x0, y0, img.width, j, x, y)
                        then img.At(x - x0, y - y0) else old(canvas[x, y])
    {
      var i := 0;
      while i < img.width
        invariant 0 <= i <= img.width
        invariant forall x, y :: 0 <= x < canvas.Length0 && 0 <= y < canvas.Length1 ==>
          canvas[x, y] == if Covers(x0, y0, img.width, j, x, y) || (y == y0 + j && x0 <= x < x0 + i)
                          then img.At(x - x0, y - y0) else old(canvas[x, y])
      {
        if 0 <= x0 + i < canvas.Length0 && 0 <= y0 + j < canvas.Length1 {
          canvas[x0 + i, y0 + j] := img.At(i, j);
        }
        i := i + 1;
      }
      j := j + 1;
    }
  }
}
