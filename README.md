# App Store screenshots and bezel mockups, modelled in Dafny

The repository's website images are made by two Pillow scripts:

- `create_appstore_screenshots.py` scales each screenshot to fit the App Store's
  1284 × 2778 box without distortion. It scales to the full width first and
  falls back to the full height when the height overflows. It then centres the
  result on a black canvas of exactly that size.
- `create_mockups.py` stretches each screenshot to the 1178 × 2555 screen
  rectangle of an iPhone bezel image. It rounds the corners with a 0/255 alpha
  mask of radius 110 and pastes the result at (90, 90) on a fully transparent
  canvas the size of the bezel. It then lays the bezel over that canvas with
  the "over" operator.

The model has four modules:

- `Raster` (raster.dfy): 8-bit RGB and RGBA pixels and images as values. It
  also has Pillow's `resize`, constrained by its output size, and `paste`, a
  method that writes into an `array2` canvas in place.
- `PathNames` (path_names.dfy): `os.path.splitext`, which both scripts use to
  name their outputs.
- `AppStore` (appstore.dfy): the aspect-fit arithmetic, the centring offsets,
  the letterboxed canvas and the `-appstore.png` name.
- `Mockup` (mockup.dfy): the rounded-corner mask, `add_rounded_corners`, the
  per-pixel "over" operator with Porter and Duff's operator as its reference,
  the screen layer, the mockup and the `-mockup.png` name.

Library code that the scripts call but do not show becomes a function-valued
parameter:

- the Lanczos filter (`Kernel`);
- the rasterisation of the rounded rectangle's arcs (`CornerCoverage`);
- Pillow's blending arithmetic for partly transparent pixels (`Blend`).

What the scripts themselves decide is modelled with exact integer
arithmetic: sizes, offsets, branches, constants and which pixel goes where.

The division in the scale factor is modelled over exact integers.
`int(h * (1284 / w))` becomes `(h * 1284) / w`, and `int(w * (2778 / h))`
becomes `(w * 2778) / h`. Image coordinates follow Pillow: pixel (x, y) is
column x and row y. A canvas `c` of type `array2` is indexed `c[x, y]`, so
`c.Length0` is the width.

Scaling to the full width and then checking the truncated height is not the
same as scaling by min(W / w, H / h) and truncating.
`AppStore.FitVersusMinRatio` proves the two agree except when
H·w < W·h < (H + 1)·w. In that window the
code fills the whole box and the minimum-ratio fit is one pixel narrower. The
1170 × 2532 source lies in this window: the code gives 1284 × 2778, and the
minimum-ratio fit gives 1283 × 2778 (`AppStore.FitExamples`).

## Model

| member | source | states |
|---|---|---|
| `Raster.Resize` | website/images/create_mockups.py:64 | Defined only for a requested size with both sides at least 1, as Pillow demands. The resized image has exactly the requested width and height, whatever the source's aspect ratio. Each pixel is the resampling filter's value. |
| `Raster.Paste` | website/images/create_appstore_screenshots.py:52 | Canvas pixels under the pasted rectangle take the image's pixel at (x − x0, y − y0). Pixels of the image that fall outside the canvas are clipped. Every other canvas pixel keeps its old value. |
| `PathNames.SplitExt` | website/images/create_mockups.py:100 | Root followed by extension gives back the path. The extension is empty, or it is one '.' followed by no further '.' and no '/'. |
| `PathNames.SplitExtExamples` | website/images/create_mockups.py:100 | `Splash.PNG` splits into `Splash` and `.PNG`, and `archive.tar.gz` splits into `archive.tar` and `.gz`. `.bashrc` has no extension. |
| `PathNames.SplitsAtTag` | website/images/create_mockups.py:100-101 | A stem, then a tag without '.' or '/', then an extension splits back into the tagged stem and that extension. |
| `PathNames.StemOfSimpleName` | website/images/create_mockups.py:100 | The stem of a base name without '.' or '/' followed by an extension is that base name. |
| `PathNames.DerivedName` | website/images/create_mockups.py:100-101 | The derived output name never equals the name it came from. Splitting it gives the stem plus the tag, and `.png`. |
| `PathNames.DerivedNameInjective` | website/images/create_mockups.py:100-101 | Two names give the same output name only if they have the same stem. |
| `AppStore.FitSize` | website/images/create_appstore_screenshots.py:29-41 | The fitted size never exceeds 1284 × 2778, and at least one side equals the box's side. |
| `AppStore.FallbackNarrower` | website/images/create_appstore_screenshots.py:33-38 | When the width-first height overflows, the source height is positive, so the second division is defined, and the height-first width is strictly below 1284. |
| `AppStore.FallbackIffOverflow` | website/images/create_appstore_screenshots.py:33-41 | The fitted width is below 1284 exactly when the width-first height exceeds 2778. In that case the height is 2778. |
| `AppStore.FitEmptyIff` | website/images/create_appstore_screenshots.py:31-44 | The fitted width is 0 exactly when h > 2778·w, and the fitted height is 0 exactly when w > 1284·h. So the resize at line 44 accepts the fit exactly when h ≤ 2778·w and w ≤ 1284·h. |
| `AppStore.FitKeepsAspect` | website/images/create_appstore_screenshots.py:28-41 | The fitted size has the source's aspect ratio up to truncation of one side: new_width·h − new_height·w < w and new_height·w − new_width·h < h. |
| `AppStore.FitIsMaximal` | website/images/create_appstore_screenshots.py:28-41 | No size inside the box with exactly the source's aspect ratio is wider or taller than the fitted size. |
| `AppStore.FitVersusMinRatio` | website/images/create_appstore_screenshots.py:31-41 | The width-first fit equals the minimum-ratio fit outside the window H·w < W·h < (H + 1)·w. Inside the window it is the full box and the minimum-ratio fit is exactly one pixel narrower, 1283 wide. |
| `AppStore.CenterOffset` | website/images/create_appstore_screenshots.py:50-51 | The offset is Python's floor of half the free space: 2·x ≤ outer − inner < 2·x + 2, for negative free space too. |
| `AppStore.CenteredInside` | website/images/create_appstore_screenshots.py:50-51 | A side that fits gets an offset x with 0 ≤ x and x + inner ≤ outer. The bars satisfy x ≤ outer − inner − x ≤ x + 1. |
| `AppStore.FitExamples` | website/images/create_appstore_screenshots.py:32-51 | 1000 × 1000 gives 1284 × 1284 at (0, 747). 1170 × 2532 gives 1284 × 2778 at (0, 0). 1000 × 3000 takes the fallback and gives 926 × 2778 at x = 179. 1 × 2779 gives a fit of width 0. |
| `AppStore.Letterbox` | website/images/create_appstore_screenshots.py:46-52 | For an image that fits the box, the result is a new canvas of exactly 1284 × 2778. Inside the centred rectangle each pixel is the image's pixel at (x − x0, y − y0), and every other pixel is black. Every pixel of the image lands on the canvas. |
| `AppStore.CreateAppstoreScreenshot` | website/images/create_appstore_screenshots.py:24-54 | When a side of the fit is 0, the resize raises and there is no result. Otherwise the result is a new canvas of exactly 1284 × 2778. Inside the centred rectangle each pixel is the resized screenshot's pixel at (x − x0, y − y0), and every other pixel is black. Every resized pixel lands on the canvas. |
| `AppStore.AppstoreOutputName` | website/images/create_appstore_screenshots.py:71-72 | The output name is never the screenshot's own name. It splits into the screenshot's stem followed by `-appstore`, and the extension `.png`. |
| `AppStore.AppstoreOutputNameOf` | website/images/create_appstore_screenshots.py:71-72 | A listed screenshot `base.PNG`, with no '.' or '/' in base, is saved as `base-appstore.png`. |
| `Mockup.RoundedRectMask` | website/images/create_mockups.py:39-41 | The mask has the image's size and every value is 0 or 255. Outside the four radius × radius corner squares every value is 255, and with radius 0 the whole mask is 255. |
| `Mockup.AddRoundedCorners` | website/images/create_mockups.py:36-46 | Same size as the input, and red, green and blue are unchanged. Alpha is the mask's value, so it is 0 or 255, and it is 255 outside the corner squares. |
| `Mockup.Over` | website/images/create_mockups.py:77 | A top pixel of alpha 0 leaves the pixel below unchanged, and a top pixel of alpha 255 replaces it. |
| `Mockup.OverIsPorterDuff` | website/images/create_mockups.py:77 | For a top pixel of alpha 0 or 255, the per-pixel composite equals Porter and Duff's "over" on premultiplied colour. |
| `Mockup.AlphaComposite` | website/images/create_mockups.py:77 | The result is a new image of the same size, and each pixel is the top image's pixel over the bottom one's. |
| `Mockup.MaskedScreen` | website/images/create_mockups.py:56-67 | The stretched, masked screenshot is exactly 1178 × 2555, whatever the screenshot's own size. |
| `Mockup.ScreenLayer` | website/images/create_mockups.py:71-74 | The layer is a new canvas of the given size. Inside [90, 1268) × [90, 2645) each pixel is the masked screenshot's pixel at (x − 90, y − 90), and everywhere else it is (0, 0, 0, 0). |
| `Mockup.CreateMockup` | website/images/create_mockups.py:49-77 | The result is a new image with exactly the bezel's size, and each pixel is the bezel's pixel over the screen layer's. |
| `Mockup.OpaqueBezelShows` | website/images/create_mockups.py:69-77 | Where the bezel's alpha is 255, the mockup pixel is the bezel's pixel. |
| `Mockup.ScreenHoleShowsScreenshot` | website/images/create_mockups.py:56-77 | Where the bezel's alpha is 0 inside the screen rectangle, the mockup pixel is the masked screenshot's pixel: the stretched screenshot's colour with the mask's alpha. That alpha is 0 or 255, and 255 away from the display's corners. |
| `Mockup.ScreenshotOnlyInScreen` | website/images/create_mockups.py:71-77 | Outside the screen rectangle the mockup does not depend on the screenshot. Where the bezel is also transparent there, the mockup pixel is (0, 0, 0, 0). |
| `Mockup.ScreenFitsBezel` | website/images/create_mockups.py:22-30 | On a 1359 × 2736 bezel image the screen rectangle lies inside the bezel, so no pixel of the masked screenshot is clipped. Pixel (i, j) is found at (90 + i, 90 + j) of the layer, and the mockup there is the bezel's pixel over it. |
| `Mockup.MockupOutputName` | website/images/create_mockups.py:100-101 | The output name is never the screenshot's own name. It splits into the screenshot's stem followed by `-mockup`, and the extension `.png`. |
| `Mockup.MockupOutputNameOf` | website/images/create_mockups.py:100-101 | A listed screenshot `base.PNG`, with no '.' or '/' in base, is saved as `base-mockup.png`, so `Splash.PNG` becomes `Splash-mockup.png`. |

## Left out

- Lanczos resampling (create_appstore_screenshots.py:44, create_mockups.py:64) is Pillow's floating-point filter. `Raster.Resize` takes it as the `Kernel` parameter, and only the output size is proved.
- `Mockup.RoundedRectMask` does not model how Pillow rasterises the arcs of `rounded_rectangle` (create_mockups.py:41). The `CornerCoverage` parameter decides the pixels inside the corner squares. Every pixel outside them is filled, which is what a rounded rectangle does when the radius is below half the shorter side. That holds for the script's radius 110 on a 1178-pixel width. For larger radii the model does not describe what Pillow draws.
- `Mockup.Over` models Pillow's blending only for top pixels of alpha 0 and 255. The arithmetic for partly transparent top pixels is the `Blend` parameter. Pillow's rounding is library code.
- `AppStore.FitSize` computes the scale factor with exact integers, but the source uses a Python float (create_appstore_screenshots.py:32, :37). When the exact product is a whole number, the float product can fall just below it, and `int()` then gives one less. For example, 1284 / 14 is not exact in binary, so for a 14 × 21 source the exact height 1926 can come out as 1925. Near 2779 the same effect can also change which branch is taken.
- `AppStore.FitSize` requires a positive width: a zero width raises ZeroDivisionError at line 32.
- `AppStore.CreateAppstoreScreenshot` models the ValueError that Pillow's resize raises for a fit with a zero side (h > 2778·w or w > 1284·h) only as "no result". The error itself and the script stopping are not modelled.
- `Mockup.AlphaComposite` requires both images to have the same size. Pillow raises an error otherwise, but the script always composites a canvas made with `bezel.size`.
- The bezel asset's transparency (opaque frame, transparent screen hole) is not checked by the code. The mockup lemmas take the bezel pixel's alpha as a hypothesis, pixel by pixel.
- File and console I/O is not modelled: `Image.open`, decoding, `.convert("RGB")` and `.convert("RGBA")`, `.save`, `print`, `os.path.exists`, `os.makedirs`, `os.path.join`. The scripts' `main` loops over their fixed file lists, skip missing screenshots, and stop if the bezel is missing (create_appstore_screenshots.py:57-77, create_mockups.py:83-107). The model covers only their output-name derivation.
