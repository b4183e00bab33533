# ImageManipulator pixel transforms, modelled in Dafny

This project models the in-place pixel-grid transforms of the Java class
`ImageManipulator` as they are written: `ConvertToGrayScale`, `InvertImage`
and `ConvertToBW`. It proves what each routine does to the image.

- **The image** is the class `ImageManipulator.Img`. It holds `width`, `height`
  and a 2-D array of `Pixels.Pixel` values, indexed `pixels[x, y]`.
  `GetRGB` and `SetRGB` are an array read and an array write. The `Img` and
  `RGB` classes are not part of this model. Their channel setters are taken to
  store the int they are given, with no clamping. `Img.Grid()` is the pixel
  array as a value, a sequence of columns.
- **The traversal.** All three routines run `for x in [0, width)` and then
  `for y in [x, height)`. Only the cells with `x <= y` are visited: a triangle,
  not the whole grid. `Traversal.Visits` lists these cells in visiting order.
  `Traversal.MapVisited` is the grid after a per-pixel function has been
  applied to each visited cell.
- **Luminance** is `sqrt(.299 r² + .587 g² + .114 b²)` in the code. The model
  uses the integer key `299 r² + 587 g² + 114 b²` (`Pixels.Key`), which is
  1000 times the squared luminance. Luminances are never negative, so in exact
  arithmetic the key orders pixels exactly as the luminance does. The value
  255.0 that `ConvertToBW` stores becomes the key 65025000, which in exact
  arithmetic is the key of white.
  The value 0.0 becomes 0.
- **Java integer division** truncates toward zero (`Pixels.TruncDiv`). This
  matters because `InvertImage` can make channels negative.

### Where the code differs from its comments and from the intended design

The model follows the code in every case below. Each difference is stated by a
contract or a lemma.

- **Triangle traversal.** The intended behaviour is to visit every pixel. The
  code visits only the cells with `x <= y`, because the inner loop starts at
  `y = x`. `Traversal.TriangleSkipsCell` shows a 2×1 image whose cell (1, 0)
  keeps a non-gray pixel after `ConvertToGrayScale`.
- **Invert constant.** The comment on `InvertImage` says `255 - c`. The code
  computes `225 - c`. `Pixels.InvertMissesComplement` shows that black becomes
  (225, 225, 225) and white becomes (-30, -30, -30). Inverting twice still
  restores every pixel, because the channels are plain ints
  (`Traversal.InvertGridTwice`).
- **Black/white.** The comment on `ConvertToBW` promises a black/white image.
  The code's second pass stores back each pixel it just read. It writes its
  decisions only into the luminance list, at index `y` and not at the pixel's
  own position in that list. `ImageManipulator.ConvertToBW` proves that the
  image ends unchanged.
- **No clamping.** Nothing in the code clamps a channel to [0, 255].
  Grayscale keeps channels inside any range they start in
  (`Pixels.GrayInRange`), but invert does not.

The model has four modules. `Pixels` (pixels.dfy) holds the per-pixel
arithmetic. `Traversal` (traversal.dfy) holds the visiting order and the grid
functions. `Sorting` (sorting.dfy) holds the luminance list's sort and median.
`ImageManipulator` (image.dfy) holds the image class and the three routines.

## Model

| member | source | states |
|---|---|---|
| `ImageManipulator.Img.GetRGB` | src/ImageManipulator.java:43 | returns pixels[x, y], the pixel at (x, y); the same read happens at lines 63, 111 and 122 |
| `ImageManipulator.Img.SetRGB` | src/ImageManipulator.java:48 | stores p at (x, y); every other cell is unchanged; the same write happens at lines 67 and 123 |
| `Pixels.TruncDiv` | src/ImageManipulator.java:44 | the quotient truncates toward zero, as Java's int `/` does: the remainder has the sign of the dividend and is smaller than the divisor |
| `Pixels.Gray` | src/ImageManipulator.java:43-47 | a visited pixel becomes gray (red = green = blue); the value lies between the smallest and largest original channel and within rounding of a third of the channel sum |
| `Pixels.GrayIdempotent` | src/ImageManipulator.java:44-47 | averaging a pixel that is already gray gives it back |
| `Pixels.GrayInRange` | src/ImageManipulator.java:44-47 | channels inside [lo, hi], for example [0, 255], stay inside it |
| `Pixels.Invert` | src/ImageManipulator.java:64-66 | each new channel and the old channel sum to 225 |
| `Pixels.InvertTwice` | src/ImageManipulator.java:64-66 | inverting twice gives back every pixel, whatever ints it held |
| `Pixels.InvertMissesComplement` | src/ImageManipulator.java:54-66 | the constant is 225, not the 255 the comment names: black does not become white, white leaves [0, 255], and no in-range pixel gets its 255-complement |
| `Pixels.Key` | src/ImageManipulator.java:112 | the luminance key is never negative, and it is zero exactly for black |
| `Pixels.WhiteKeyIsKeyOfWhite` | src/ImageManipulator.java:127 | the stored value 255.0 is the key of white, and no pixel with channels in [0, 255] has a larger key |
| `Traversal.Column` | src/ImageManipulator.java:42 | one run of the inner loop visits (x, x), (x, x+1), …, (x, h-1), which is nothing when x >= h |
| `Traversal.Visits` | src/ImageManipulator.java:41-42 | every visited cell has x < width and x <= y < height; when width > 0 there are at least height visits |
| `Traversal.VisitsCover` | src/ImageManipulator.java:41-42 | every cell with x < width and x <= y < height is visited |
| `Traversal.VisitsInOrder` | src/ImageManipulator.java:41-42 | the visits run in x-major order, so no cell is visited twice |
| `Traversal.MapVisited` | src/ImageManipulator.java:41-49 | the shape is kept; a cell changes to f of its pixel when x <= y and keeps its pixel otherwise |
| `Traversal.GrayGridIdempotent` | src/ImageManipulator.java:40-52 | grayscale applied twice gives the same grid as grayscale applied once |
| `Traversal.GrayGridInRange` | src/ImageManipulator.java:40-52 | a grid with all channels in [lo, hi] still has them there after grayscale |
| `Traversal.InvertGridTwice` | src/ImageManipulator.java:60-71 | inverting the grid twice restores it |
| `Traversal.TriangleSkipsCell` | src/ImageManipulator.java:41-42 | in a 2×1 image the cell (1, 0) is never visited and keeps a non-gray pixel |
| `Traversal.KeysAlong` | src/ImageManipulator.java:111-113 | one key per listed cell, in the order of the cells, each the key of that cell's pixel |
| `Traversal.ColumnKeysAlong` | src/ImageManipulator.java:110-114 | the keys one inner run collects are the keys along that run's cells |
| `Traversal.TriangleKeysAlong` | src/ImageManipulator.java:109-115 | the first pass collects exactly the keys along `Visits`, one per visited cell, in visiting order |
| `Sorting.Insert` | src/ImageManipulator.java:116 | inserting into an ascending list keeps it ascending and adds exactly that one value |
| `Sorting.Sort` | src/ImageManipulator.java:116 | the sorted list is ascending and a permutation of the collected list |
| `Sorting.MedianIndex` | src/ImageManipulator.java:118 | `size / 2` is inside a non-empty list; for odd sizes it is the exact middle, and for even sizes the upper of the two middle indices |
| `Sorting.CountAtLeastPermutation` | src/ImageManipulator.java:116 | sorting does not change how many entries reach a threshold |
| `Sorting.AscendingCountAtLeast` | src/ImageManipulator.java:116-118 | in an ascending list at least size - k entries reach the entry at index k |
| `Sorting.MedianSplitsList` | src/ImageManipulator.java:108-118 | at least half of the collected luminances, rounded up, reach the median value |
| `ImageManipulator.ConvertToGrayScale` | src/ImageManipulator.java:40-52 | the new grid is `MapVisited(old grid, Gray)`: visited cells are gray averages and all other cells are unchanged |
| `ImageManipulator.InvertImage` | src/ImageManipulator.java:60-71 | the new grid is `MapVisited(old grid, Invert)`: visited channels become 225 - c and all other cells are unchanged |
| `ImageManipulator.CollectLuminances` | src/ImageManipulator.java:108-115 | the list is the loop-shaped key sequence `TriangleKeys`, which `TriangleKeysAlong` equates with one key per visited cell in visiting order |
| `ImageManipulator.SecondPass` | src/ImageManipulator.java:120-132 | no pixel changes; the list keeps its length; when width > 0, entries 0 .. height-1 end as 255.0 or 0.0; later entries are untouched; every list access is in range |
| `ImageManipulator.ConvertToBW` | src/ImageManipulator.java:107-134 | the image ends exactly as it started |

## Left out

- `LoadImage` and `SaveImage` are left out. They are file I/O through the `Img` class, which is not part of this model.
- `ConvertToSepia` is left out. It computes with double-precision coefficients and `(int)` casts, and its results can leave [0, 255].
- `RotateImage` is left out. It calls `rotate` on an `Img` that is not part of this model, and then returns the untouched input, so there is no coordinate permutation to model.
- `InstagramFilter` is left out. It uses undefined variables, so it does not compile. Its inner loop tests `x < height`, so it never ends normally.
- `SetHue`, `SetSaturation` and `SetLightness` are left out. They only wrap the HSL conversion, which is not part of this model, and they share that broken loop condition.
- Doubles, `Math.pow` and `Math.sqrt` are replaced by the integer key. IEEE rounding is not modelled: in doubles the luminance of white comes out slightly below the stored 255.0, while the model has `WhiteKey == Key(White)`. Only the discarded list is affected.
- Java's 32-bit `int` overflow is not modelled. Channels and channel sums are unbounded integers, which matches Java while the channels stay far from ±2^31.
- The aliasing of the `RGB` object returned by `GetRGB` is not modelled. Pixels are values. Each routine writes the pixel back with `SetRGB`, so the final state is the same.
- `Sorting.Sort` returns a new sorted sequence that replaces the list. `Collections.sort` sorts in place with its own algorithm. Only the ascending, permuted result is modelled.
- `ImageManipulator.SecondPass` is the second loop of `ConvertToBW`, moved into its own method, so that the proof of `ConvertToBW` sees only its contract. Its contract says which list entries end as 255.0 or 0.0. It does not say which of the two each entry gets, because that depends on earlier writes to the median entry. The list is discarded when `ConvertToBW` returns.
- The unused `luminance` computed at src/ImageManipulator.java:124 is kept as a local variable and has no effect.
