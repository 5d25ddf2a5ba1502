# Colour-channel adjuster: a Dafny model

The application takes an uploaded image and checks its file extension. It
scales the red, green and blue planes by factors read from a form. It then
shows histograms of the colour values before and after. This project models
the parts of `app.py` that compute something, and proves what they promise:

- **Upload filter** (`allowed_file`). A filename passes when it contains a
  dot and the text after its last dot, lower-cased, is `png`, `jpg`, `jpeg`
  or `gif`. Module `Upload` (upload.dfy) models `str.rsplit('.', 1)` and
  `str.lower()`. It proves an index-based characterisation of `AllowedFile`,
  in both directions, and that letter case never decides acceptance.
- **Channel intensity adjustment** (`adjust_color_intensity`). The image is
  a height x width x 3 `array3` of 8-bit values (`Image.Byte`). Module
  `Intensity` (intensity.dfy) copies it (`np.array`). It then visits the
  factor dictionary (a `map<string, real>`) in an arbitrary order chosen
  with `:|`, so the proof covers every iteration order. For key `"R"`,
  `"G"` or `"B"` it overwrites plane 0, 1 or 2 with a Dafny `forall`
  statement, the counterpart of the numpy slice assignment. Each value
  becomes `Floor(clamp(v * f, 0, 255))`, because the float-to-`uint8` store
  truncates and the value is already in range. Any other key is ignored.
- **Factor selection** (lines 80-85 of the request handler). Module
  `Factors` (factors.dfy) keeps a parsed factor when it is present and is
  not 1.0. It proves that dropping the 1.0 factors never changes the
  adjusted image.
- **Histogram counts** (`np.histogram(plane, bins=256, range=(0, 255))` in
  `plot_color_distribution`). Module `Histogram` (histogram.dfy) fills an
  array of 256 counters row by row. It models numpy's bin rule: index
  `floor(x * 256 / 255)`, with the last bin closed on the right. It proves
  that byte value `v` falls in bin `v`, that bin `k` counts the pixels whose
  value is `k`, and that the bins add up to height x width. It also builds
  the three `(bin_edges[0:-1], histogram)` series passed to the plot.

Module `Wrappers` (wrappers.dfy) holds `Option`. Module `Image`
(image.dfy) holds the byte type and the plane-to-key mapping
`0 -> "R", 1 -> "G", 2 -> "B"`.

Facts about the code that shape the model:

- `np.histogram` with `bins=256` returns 257 edges, so `bin_edges[0:-1]`
  has 256 entries, one per bin, the same length as the counts
  (`Histogram.ColorDistribution`, `Histogram.BinEdges`).
- With `range=(0, 255)` the edges are `k * 255 / 256`, not whole numbers.
  Each byte value still lands in its own bin (`Histogram.ByteBin`).
- A factor is any parsed float, zero and negative ones included. A factor
  of zero or below blacks the plane out (`Intensity.NonPositiveFactorZeroes`).
- Neither function raises an error of its own for an empty image. The
  model accepts an empty image (every bin is 0) and requires three planes
  (see below).

## Model

| member | source | states |
|---|---|---|
| Upload.Lower | app.py:25 | `.lower()` keeps the length and lower-cases each character in place |
| Upload.LastDot | app.py:25 | gives no position exactly when there is no dot; otherwise a position holding a dot with no dot after it |
| Upload.RSplitLastDot | app.py:25 | `rsplit('.', 1)` gives `[s]` when `s` has no dot; otherwise two parts that rejoin with a dot to `s`, the second part dot-free |
| Upload.AllowedFile | app.py:22-25 | a filename without a dot is never accepted |
| Upload.AllowedFileIffExtension | app.py:22-25 | accepted iff some dot has no dot after it and the lower-cased text after it is in the allowed set, both directions |
| Upload.StemWithAllowedExtension | app.py:16 | any stem, a dot, and a dot-free extension that lower-cases to png, jpg, jpeg or gif is accepted |
| Upload.AllowedFileIgnoresCase | app.py:25 | a name is accepted exactly when its lower-cased form is |
| Upload.UpperCaseExample | app.py:24-25 | `photo.PNG` is accepted |
| Upload.DotOnlyNameAccepted | app.py:24-25 | a name that is only a dot and an allowed extension (`.gif`) is accepted: its last dot is at index 0 and the stem is empty |
| Upload.TrailingDotRejected | app.py:24-25 | any name ending in a dot is refused (empty extension) |
| Upload.DoubleExtensionExample | app.py:25 | `archive.png.exe` is refused: only the text after the last dot counts |
| Intensity.Clamp | app.py:35 | `np.clip` gives the point of [lo, hi] nearest the value: the value itself inside, `lo` below, `hi` above |
| Intensity.Scale | app.py:35-39 | new value is 0 when `v*f <= 0`, 255 when `v*f >= 255`, otherwise the floor of `v*f` |
| Intensity.CopyImage | app.py:32 | `np.array(image)` is a fresh array with the same shape and values |
| Intensity.ScalePlane | app.py:35-39 | plane `c` becomes `Scale(old value, f)` at every pixel; all other planes are unchanged |
| Intensity.AdjustColorIntensity | app.py:27-41 | for every dictionary order: result is a newly allocated array of the same height and width with 3 planes; plane `c` is scaled by the factor under its key, or copied when the key is absent |
| Intensity.ScaleByOne | app.py:35-39 | a factor of 1.0 leaves every value unchanged |
| Intensity.NonPositiveFactorZeroes | app.py:35-39 | a factor at or below 0 zeroes the value |
| Intensity.SaturatedStays | app.py:35-39 | 255 stays 255 under any factor of at least 1 |
| Intensity.ScaleMonotone | app.py:35-39 | a non-negative factor preserves the order of values |
| Intensity.OwnKeyDecides | app.py:33-39 | plane `c` depends only on the entry under its own key; other keys, including non-channel keys, have no effect |
| Intensity.NoChannelKeysIdentity | app.py:33-39 | a dictionary without R, G or B keys (the empty one included) leaves every value unchanged |
| Intensity.DoubleRedExample | app.py:33-39 | `{R: 2.0}` takes (100, 150, 200) to (200, 150, 200), and a red 255 stays 255 |
| Factors.SelectFactors | app.py:80-85 | keys are within {R, G, B}; a key is present exactly when its parsed value is present and not 1.0, and then maps to that value |
| Factors.SelectionUnique | app.py:81-85 | those conditions determine the dictionary completely |
| Factors.UnitFactorsNeedNoEntry | app.py:84-85 | with the selected dictionary, each plane is scaled by its parsed factor when one was parsed and left alone otherwise, so omitting 1.0 changes nothing |
| Histogram.BinEdges | app.py:50-53 | 257 edges from 0 to 255, strictly increasing, equally spaced by 255/256 |
| Histogram.BinOf | app.py:50-52 | values outside [0, 255] get no bin; any other value gets a bin below 256 whose edges enclose it, the last bin being closed on the right |
| Histogram.ByteBin | app.py:50-52 | byte value `v` lands in bin `v`, and 255 in the last bin |
| Histogram.CountRow | app.py:49-52 | adds each bin's pixel count for one row, and raises the total by the row length |
| Histogram.Histogram | app.py:50-52 | 256 bins; bin `k` is the number of pixels whose plane-`c` value is `k`; the bins sum to height x width |
| Histogram.Zip | app.py:53 | pairs x-values with counts position by position |
| Histogram.ColorDistribution | app.py:45-53 | three series of 256 points; point `k` of series `c` is (left edge of bin `k`, number of pixels whose plane-`c` value is `k`) |

## Left out

- Flask routing, form and file access, redirects and template rendering (app.py:62-112, apart from lines 80-85) are web plumbing with no computation.
- Directory creation, saving uploads, adjusted images and plots, and path joins are file-system I/O.
- `secure_filename`, `uuid.uuid4()` and the assembly of unique filenames are a foreign library call and randomness.
- PIL decoding (`Image.open`) and encoding are not modelled. The input image is taken as already decoded into three 8-bit planes. `Image.fromarray(img_array.astype('uint8'), 'RGB')` is the identity on values already in 0..255.
- Intensity.AdjustColorIntensity: requires exactly three planes, because what PIL and numpy do with greyscale or RGBA images depends on library code outside this model.
- Matplotlib figure creation, colours, title, axis labels, the `Agg` backend and `plt.close` are rendering with process-global state. `Histogram.ColorDistribution` stops at the points handed to `plt.plot`.
- Factors are exact `real`s. IEEE-754 rounding of `v * factor`, NaN and infinite factors from `type=float`, and the float comparison `!= 1.0` are not modelled. The form parsing `request.form.get(..., type=float)` is replaced by three `Option<real>` inputs.
- Upload.Lower: lower-cases ASCII letters only, where Python's `str.lower` follows the Unicode tables. No non-ASCII character lower-cases to a single letter of `png`, `jpg`, `jpeg` or `gif`: the Kelvin sign gives `k`, and U+0130 gives two code points. So `AllowedFile`'s verdict is the same under either rule.
- Histogram.BinOf: computes the bin index with exact real arithmetic. numpy's floating-point index and its edge-comparison correction step are not modelled. For byte inputs both give bin `v`.
