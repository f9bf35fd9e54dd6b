/** website/images/create_mockups.py: stretch a screenshot to the bezel's
    screen rectangle, round its corners with an alpha mask, put it on a
    transparent canvas the size of the bezel, and lay the bezel over it. */
module Mockup {
  import opened Raster
  import opened PathNames

  /** The screen rectangle of the iPhone 16 bezel image and the radius of
      the display's corners. */
  const ScreenLeft: nat := 90
  const ScreenTop: nat := 90
  const ScreenRight: nat := 1268
  const ScreenBottom: nat := 2645
  const CornerRadius: nat := 110

  /** The size of the bezel image the constants were measured on. */
  const BezelWidth: nat := 1359
  const BezelHeight: nat := 2736

  const ScreenWidth: nat := ScreenRight - ScreenLeft
  const ScreenHeight: nat := ScreenBottom - ScreenTop

  predicate InScreen(x: int, y: int) {
    ScreenLeft <= x < ScreenRight && ScreenTop <= y < ScreenBottom
  }

  // ---------------------------------------------------------------------
  // Rounded corners: `add_rounded_corners`.

  /** Whether (x, y) of a w × h image lies in one of its four
      radius × radius corner squares. */
  predicate InCorner(w: nat, h: nat, radius: nat, x: int, y: int) {
    (x < radius || x >= w - radius) && (y < radius || y >= h - radius)
  }

  /** Pillow's rasterisation of the rounded rectangle's arcs: inside a corner
      square, whether the pixel is filled. It is library code and stays
      abstract; outside the corner squares the rectangle fills every pixel. */
  type CornerCoverage = (nat, nat) -> bool

  /** The "L" mask: created all 0, then the rounded rectangle spanning the
      whole image filled with 255. Every value is 0 or 255, and only pixels
      in the corner squares can be 0; with radius 0 the mask is all 255. */
  function RoundedRectMask(w: nat, h: nat, radius: nat, cov: CornerCoverage): (mask: Image<Byte>)
    ensures mask.Valid() && mask.width == w && mask.height == h
    ensures forall x: nat, y: nat :: x < w && y < h ==> mask.At(x, y) == 0 || mask.At(x, y) == 255
    ensures forall x: nat, y: nat :: x < w && y < h && !InCorner(w, h, radius, x, y) ==> mask.At(x, y) == 255
    ensures radius == 0 ==> forall x: nat, y: nat :: x < w && y < h ==> mask.At(x, y) == 255
  {
    Tabulate(w, h, (x, y) => if !InCorner(w, h, radius, x, y) || cov(x, y) then 255 as Byte else 0 as Byte)
  }

  /** `add_rounded_corners`: a new image of the same size whose red, green
      and blue are the input's and whose alpha is the mask, so it is fully
      opaque or fully transparent and fully opaque outside the corners. */
  function AddRoundedCorners(img: Image<Rgba>, radius: nat, cov: CornerCoverage): (r: Image<Rgba>)
    requires img.Valid()
    ensures r.Valid() && r.width == img.width && r.height == img.height
    ensures forall x: nat, y: nat :: x < img.width && y < img.height ==>
      var p, q := img.At(x, y), r.At(x, y);
      && q.r == p.r && q.g == p.g && q.b == p.b
      && q.a == RoundedRectMask(img.width, img.height, radius, cov).At(x, y)
      && (q.a == 0 || q.a == 255)
      && (!InCorner(img.width, img.height, radius, x, y) ==> q.a == 255)
  {
    var mask := RoundedRectMask(img.width, img.height, radius, cov);
    Tabulate(img.width, img.height,
      (x: nat, y: nat) => if x < img.width && y < img.height then img.At(x, y).(a := mask.At(x, y)) else Transparent)
  }

  // ---------------------------------------------------------------------
  // The "over" operator of `Image.alpha_composite`.

  /** Pillow's arithmetic for a source pixel whose alpha is strictly between
      0 and 255; its rounding is library code and stays abstract. */
  type Blend = (Rgba, Rgba) -> Rgba

  /** One pixel of `Image.alpha_composite(dst_image, src_image)`: src drawn
      over dst. A fully transparent src leaves dst as it is, and a fully
      opaque src replaces it. */
  function Over(dst: Rgba, src: Rgba, blend: Blend): (p: Rgba)
    ensures src.a == 0 ==> p == dst
    ensures src.a == 255 ==> p == src
  {
    if src.a == 0 then dst
    else if src.a == 255 then src
    else blend(dst, src)
  }

  /** A pixel as Porter and Duff's compositing algebra sees it: colour
      premultiplied by alpha, all four in [0, 1]. */
  datatype Premultiplied = Premultiplied(r: real, g: real, b: real, a: real)

  function Premultiply(p: Rgba): Premultiplied {
    var alpha := p.a as real / 255.0;
    Premultiplied(p.r as real / 255.0 * alpha, p.g as real / 255.0 * alpha,
                  p.b as real / 255.0 * alpha, alpha)
  }

  /** The "over" operator of Porter and Duff, "Compositing Digital Images"
      (SIGGRAPH 1984), on premultiplied pixels. */
  function PorterDuffOver(d: Premultiplied, s: Premultiplied): Premultiplied {
    Premultiplied(s.r + (1.0 - s.a) * d.r, s.g + (1.0 - s.a) * d.g,
                  s.b + (1.0 - s.a) * d.b, s.a + (1.0 - s.a) * d.a)
  }

  /** For a fully opaque or fully transparent top pixel, Over is exactly
      Porter and Duff's operator. */
  lemma OverIsPorterDuff(dst: Rgba, src: Rgba, blend: Blend)
    requires src.a == 0 || src.a == 255
    ensures Premultiply(Over(dst, src, blend)) == PorterDuffOver(Premultiply(dst), Premultiply(src))
  {
    var d, s := Premultiply(dst), Premultiply(src);
    if src.a == 0 {
      assert s == Premultiplied(0.0, 0.0, 0.0, 0.0);
    } else {
      assert s.a == 1.0;
    }
  }

  /** `Image.alpha_composite(dst, src)`: a new image, pixel by pixel src
      over dst; both images have the same size. */
  method AlphaComposite(dst: array2<Rgba>, src: Image<Rgba>, blend: Blend) returns (out: array2<Rgba>)
    requires src.Valid() && dst.Length0 == src.width && dst.Length1 == src.height
    ensures fresh(out)
    ensures out.Length0 == src.width && out.Length1 == src.height
    ensures forall x, y :: 0 <= x < src.width && 0 <= y < src.height ==>
      out[x, y] == Over(dst[x, y], src.At(x, y), blend)
  {
    out := new Rgba[src.width, src.height];
    var y := 0;
    while y < src.height
      invariant 0 <= y <= src.height
      invariant forall x', y' :: 0 <= x' < src.width && 0 <= y' < y ==>
        out[x', y'] == Over(dst[x', y'], src.At(x', y'), blend)
    {
      var x := 0;
      while x < src.width
        invariant 0 <= x <= src.width
        invariant forall x', y' :: 0 <= x' < src.width && 0 <= y' < y ==>
          out[x', y'] == Over(dst[x', y'], src.At(x', y'), blend)
        invariant forall x' :: 0 <= x' < x ==>
          out[x', y] == Over(dst[x', y], src.At(x', y), blend)
      {
        out[x, y] := Over(dst[x, y], src.At(x, y), blend);
        x := x + 1;
      }
      y := y + 1;
    }
  }

  // ---------------------------------------------------------------------
  // The mockup: `create_mockup`.

  /** The screenshot stretched to the screen rectangle (ignoring its own
      aspect ratio) with the display's rounded corners as its alpha. */
  function MaskedScreen(screenshot: Image<Rgba>, kernel: Kernel<Rgba>, cov: CornerCoverage): (m: Image<Rgba>)
    ensures m.Valid() && m.width == ScreenWidth && m.height == ScreenHeight
  {
    AddRoundedCorners(Resize(screenshot, ScreenWidth, ScreenHeight, kernel), CornerRadius, cov)
  }

  /** The canvas under the bezel at (x, y): the masked screenshot inside the
      screen rectangle, fully transparent elsewhere. */
  function ScreenLayerPixel(screenshot: Image<Rgba>, kernel: Kernel<Rgba>, cov: CornerCoverage, x: int, y: int): Rgba {
    if InScreen(x, y) then MaskedScreen(screenshot, kernel, cov).At(x - ScreenLeft, y - ScreenTop)
    else Transparent
  }

  /** The mockup at (x, y): the bezel over the screen layer. */
  function MockupPixel(bezel: Image<Rgba>, screenshot: Image<Rgba>, kernel: Kernel<Rgba>,
                       cov: CornerCoverage, blend: Blend, x: nat, y: nat): Rgba
    requires bezel.Valid() && x < bezel.width && y < bezel.height
  {
    Over(ScreenLayerPixel(screenshot, kernel, cov, x, y), bezel.At(x, y), blend)
  }

  /** The canvas `create_mockup` builds before compositing: a fully transparent canvas of the given size with the
      masked screenshot pasted at the screen's top-left corner. */
  method ScreenLayer(w: nat, h: nat, screenshot: Image<Rgba>, kernel: Kernel<Rgba>, cov: CornerCoverage)
    returns (canvas: array2<Rgba>)
    ensures fresh(canvas)
    ensures canvas.Length0 == w && canvas.Length1 == h
    ensures forall x, y :: 0 <= x < w && 0 <= y < h ==>
      canvas[x, y] == ScreenLayerPixel(screenshot, kernel, cov, x, y)
  {
    var masked := MaskedScreen(screenshot, kernel, cov);
    canvas := new Rgba[w, h]((x, y) => Transparent);
    Paste(canvas, masked, ScreenLeft, ScreenTop);
  }

  /** `create_mockup` for a bezel and a screenshot already decoded as RGBA:
      the result has exactly the bezel's size and is the bezel laid over the
      screen layer. */
  method CreateMockup(bezel: Image<Rgba>, screenshot: Image<Rgba>, kernel: Kernel<Rgba>,
                      cov: CornerCoverage, blend: Blend) returns (result: array2<Rgba>)
    requires bezel.Valid()
    ensures fresh(result)
    ensures result.Length0 == bezel.width && result.Length1 == bezel.height
    ensures forall x, y :: 0 <= x < bezel.width && 0 <= y < bezel.height ==>
      result[x, y] == MockupPixel(bezel, screenshot, kernel, cov, blend, x, y)
  {
    var layer := ScreenLayer(bezel.width, bezel.height, screenshot, kernel, cov);
    result := AlphaComposite(layer, bezel, blend);
  }

  /** Where the bezel is opaque the mockup shows the bezel's own pixel. */
  lemma OpaqueBezelShows(bezel: Image<Rgba>, screenshot: Image<Rgba>, kernel: Kernel<Rgba>,
                         cov: CornerCoverage, blend: Blend, x: nat, y: nat)
    requires bezel.Valid() && x < bezel.width && y < bezel.height
    requires bezel.At(x, y).a == 255
    ensures MockupPixel(bezel, screenshot, kernel, cov, blend, x, y) == bezel.At(x, y)
  {
  }

  /** Where the bezel is transparent inside the screen rectangle, the mockup
      shows the stretched screenshot's colour with the mask's alpha: opaque
      away from the display's corners. */
  lemma ScreenHoleShowsScreenshot(bezel: Image<Rgba>, screenshot: Image<Rgba>, kernel: Kernel<Rgba>,
                                  cov: CornerCoverage, blend: Blend, x: nat, y: nat)
    requires bezel.Valid() && x < bezel.width && y < bezel.height
    requires bezel.At(x, y).a == 0 && InScreen(x, y)
    ensures var p := MockupPixel(bezel, screenshot, kernel, cov, blend, x, y);
      var i, j := x - ScreenLeft, y - ScreenTop;
      var s := Resize(screenshot, ScreenWidth, ScreenHeight, kernel).At(i, j);
      && p == MaskedScreen(screenshot, kernel, cov).At(i, j)
      && p.r == s.r && p.g == s.g && p.b == s.b
      && (p.a == 0 || p.a == 255)
      && (!InCorner(ScreenWidth, ScreenHeight, CornerRadius, i, j) ==> p.a == 255)
  {
    var stretched := Resize(screenshot, ScreenWidth, ScreenHeight, kernel);
    assert MaskedScreen(screenshot, kernel, cov) == AddRoundedCorners(stretched, CornerRadius, cov);
  }

  /** Outside the screen rectangle the screenshot has no influence: two
      mockups made with the same bezel agree there, whatever the screenshots. */
  lemma ScreenshotOnlyInScreen(bezel: Image<Rgba>, s1: Image<Rgba>, s2: Image<Rgba>, kernel: Kernel<Rgba>,
                               cov: CornerCoverage, blend: Blend, x: nat, y: nat)
    requires bezel.Valid() && x < bezel.width && y < bezel.height
    requires !InScreen(x, y)
    ensures MockupPixel(bezel, s1, kernel, cov, blend, x, y) == MockupPixel(bezel, s2, kernel, cov, blend, x, y)
    ensures bezel.At(x, y).a == 0 ==> MockupPixel(bezel, s1, kernel, cov, blend, x, y) == Transparent
  {
  }

  /** On a bezel image of 1359 × 2736 pixels the screen rectangle is not
      clipped: every pixel (i, j) of the masked screenshot lands at
      (90 + i, 90 + j) of the canvas under the bezel, and the mockup there is
      the bezel's pixel over it. */
  lemma ScreenFitsBezel(bezel: Image<Rgba>, screenshot: Image<Rgba>, kernel: Kernel<Rgba>,
                        cov: CornerCoverage, blend: Blend, i: nat, j: nat)
    requires bezel.Valid() && bezel.width == BezelWidth && bezel.height == BezelHeight
    requires i < ScreenWidth && j < ScreenHeight
    ensures ScreenLeft + i < bezel.width && ScreenTop + j < bezel.height
    ensures ScreenLayerPixel(screenshot, kernel, cov, ScreenLeft + i, ScreenTop + j)
            == MaskedScreen(screenshot, kernel, cov).At(i, j)
    ensures MockupPixel(bezel, screenshot, kernel, cov, blend, ScreenLeft + i, ScreenTop + j)
            == Over(MaskedScreen(screenshot, kernel, cov).At(i, j), bezel.At(ScreenLeft + i, ScreenTop + j), blend)
  {
  }

  // ---------------------------------------------------------------------
  // Output name: the loop in `main`.

  /** The file name the mockup is saved under, in the screenshots' own
      directory: never the screenshot's own name, and a `.png` file whose
      stem is the screenshot's stem followed by "-mockup". */
  function MockupOutputName(name: string): (out: string)
    ensures out != name
    ensures SplitExt(out) == (Stem(name) + "-mockup", ".png")
  {
    DerivedName(name, "-mockup")
  }

  /** Every screenshot the script lists is a base name without '.' or '/'
      followed by ".PNG"; its output name is the base, the tag and ".png". */
  lemma MockupOutputNameOf(base: string)
    requires base != [] && '.' !in base && '/' !in base
    ensures MockupOutputName(base + ".PNG") == base + "-mockup.png"
  {
    StemOfSimpleName(base, ".PNG");
    assert base + "-mockup" + ".png" == base + "-mockup.png";
  }
}
