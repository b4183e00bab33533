// The image and the in-place transforms of ImageManipulator.

module ImageManipulator {
  import opened Pixels
  import opened Traversal
  import opened Sorting

  /**
   * An image: a width-by-height grid of pixels, addressed (x, y) with
   * 0 <= x < width and 0 <= y < height.
   */
  class Img {
    const width: nat
    const height: nat
    const pixels: array2<Pixel>

    ghost predicate Valid()
      reads this
    {
      pixels.Length0 == width && pixels.Length1 == height
    }

    /** The pixels as a value, Grid()[x][y] being the pixel at (x, y). */
    ghost function Grid(): (g: Grid)
      reads this, pixels
      requires Valid()
      ensures IsGrid(g, width, height)
      ensures forall x, y :: 0 <= x < width && 0 <= y < height ==> g[x][y] == pixels[x, y]
    {
      seq(width, x requires 0 <= x < width reads pixels =>
        seq(height, y requires 0 <= y < height reads pixels => pixels[x, y]))
    }

    /** The pixel at (x, y). */
    method GetRGB(x: nat, y: nat) returns (p: Pixel)
      requires Valid() && x < width && y < height
      ensures p == pixels[x, y]
    {
      p := pixels[x, y];
    }

    /** Stores p at (x, y); every other cell keeps its pixel. */
    method SetRGB(x: nat, y: nat, p: Pixel)
      requires Valid() && x < width && y < height
      modifies pixels
      ensures pixels[x, y] == p
      ensures forall i, j :: 0 <= i < width && 0 <= j < height && (i != x || j != y) ==>
                pixels[i, j] == old(pixels[i, j])
    {
      pixels[x, y] := p;
    }
  }

  /**
   * Replaces each visited pixel by its truncated channel average; the cells above
   * the diagonal (y < x) are not visited and keep their pixel.
   */
  method ConvertToGrayScale(image: Img) returns (result: Img)
    requires image.Valid()
    modifies image.pixels
    ensures result == image
    ensures image.Grid() == MapVisited(old(image.Grid()), Gray)
  {
    var w, h := image.width, image.height;
    var x := 0;
    while x < w
      invariant 0 <= x <= w
      invariant forall i, j :: 0 <= i < w && 0 <= j < h ==>
                  image.pixels[i, j] == if i < x && i <= j then Gray(old(image.pixels[i, j])) else old(image.pixels[i, j])
    {
      var y := x;
      while y < h
        invariant x <= y && (y <= h || y == x)
        invariant forall i, j :: 0 <= i < w && 0 <= j < h ==>
                    image.pixels[i, j] == if (i < x && i <= j) || (i == x && x <= j < y)
                                          then Gray(old(image.pixels[i, j])) else old(image.pixels[i, j])
      {
        var value := image.GetRGB(x, y);
        var avg := TruncDiv(value.blue + value.green + value.red, 3);
        value := value.(red := avg);
        value := value.(green := avg);
        value := value.(blue := avg);
        image.SetRGB(x, y, value);
        y := y + 1;
      }
      x := x + 1;
    }
    GridEquality(image.Grid(), MapVisited(old(image.Grid()), Gray));
    result := image;
  }

  /** Replaces each channel c of each visited pixel by 225 - c; other cells keep their pixel. */
  method InvertImage(image: Img) returns (result: Img)
    requires image.Valid()
    modifies image.pixels
    ensures result == image
    ensures image.Grid() == MapVisited(old(image.Grid()), Invert)
  {
    var w, h := image.width, image.height;
    var x := 0;
    while x < w
      invariant 0 <= x <= w
      invariant forall i, j :: 0 <= i < w && 0 <= j < h ==>
                  image.pixels[i, j] == if i < x && i <= j then Invert(old(image.pixels[i, j])) else old(image.pixels[i, j])
    {
      var y := x;
      while y < h
        invariant x <= y && (y <= h || y == x)
        invariant forall i, j :: 0 <= i < w && 0 <= j < h ==>
                    image.pixels[i, j] == if (i < x && i <= j) || (i == x && x <= j < y)
                                          then Invert(old(image.pixels[i, j])) else old(image.pixels[i, j])
      {
        var value := image.GetRGB(x, y);
        value := value.(blue := 225 - value.blue);
        value := value.(red := 225 - value.red);
        value := value.(green := 225 - value.green);
        image.SetRGB(x, y, value);
        y := y + 1;
      }
      x := x + 1;
    }
    GridEquality(image.Grid(), MapVisited(old(image.Grid()), Invert));
    result := image;
  }

  /**
   * The first pass of ConvertToBW: one luminance key per visited cell, appended in
   * the order the traversal visits the cells.
   */
  method CollectLuminances(image: Img) returns (lum: seq<int>)
    requires image.Valid()
    ensures lum == TriangleKeys(image.Grid(), image.width, image.height)
  {
    var w, h := image.width, image.height;
    ghost var g := image.Grid();
    lum := [];
    var x := 0;
    while x < w
      invariant 0 <= x <= w
      invariant lum == TriangleKeys(g, x, h)
    {
      ghost var done := lum;
      var y := x;
      while y < h
        invariant x <= y && (y <= h || y == x)
        invariant lum == done + ColumnKeys(g, x, y)
      {
        var value := image.GetRGB(x, y);
        var luminance := Key(value);
        assert luminance == KeyAt(g, Cell(x, y));
        AppendKey(done, ColumnKeys(g, x, y), luminance);
        lum := lum + [luminance];
        y := y + 1;
      }
      assert ColumnKeys(g, x, y) == ColumnKeys(g, x, h);
      x := x + 1;
    }
  }

  /** An entry the second pass of ConvertToBW stores: luminance 255.0 or 0.0. */
  predicate IsDecision(k: int) {
    k == WhiteKey || k == 0
  }

  /**
   * The second pass of ConvertToBW. At the visit of (x, y) it reads the pixel and
   * stores it back unchanged, then compares the list entries at index y and at the
   * median index and overwrites entry y with 255.0 or 0.0. Every row index y < height
   * is visited (in the column x = 0), so entries 0 .. height - 1 end as decisions and
   * the later entries keep their luminance; the image is not changed.
   */
  method SecondPass(image: Img, lum: seq<int>, median: nat) returns (decided: seq<int>)
    requires image.Valid()
    requires image.width > 0 && image.height > 0 ==> image.height <= |lum| && median < |lum|
    modifies image.pixels
    ensures image.Grid() == old(image.Grid())
    ensures |decided| == |lum|
    ensures image.width > 0 ==> forall k :: 0 <= k < image.height ==> IsDecision(decided[k])
    ensures forall k :: image.height <= k < |lum| ==> decided[k] == lum[k]
  {
    var w, h := image.width, image.height;
    decided := lum;
    var x := 0;
    while x < w
      invariant 0 <= x <= w
      invariant |decided| == |lum|
      invariant x > 0 ==> forall k :: 0 <= k < h ==> IsDecision(decided[k])
      invariant forall k :: h <= k < |lum| ==> decided[k] == lum[k]
      invariant forall i, j :: 0 <= i < w && 0 <= j < h ==> image.pixels[i, j] == old(image.pixels[i, j])
    {
      var y := x;
      while y < h
        invariant x <= y && (y <= h || y == x)
        invariant |decided| == |lum|
        invariant forall k :: 0 <= k < h && (x > 0 || k < y) ==> IsDecision(decided[k])
        invariant forall k :: h <= k < |lum| ==> decided[k] == lum[k]
        invariant forall i, j :: 0 <= i < w && 0 <= j < h ==> image.pixels[i, j] == old(image.pixels[i, j])
      {
        var value := image.GetRGB(x, y);
        image.SetRGB(x, y, value);
        var luminance := Key(value);
        if decided[y] < decided[median] {
          decided := decided[y := WhiteKey];
        } else {
          decided := decided[y := 0];
        }
        y := y + 1;
      }
      x := x + 1;
    }
    GridEquality(image.Grid(), old(image.Grid()));
  }

  /**
   * ConvertToBW as written: it collects and sorts the luminances and takes the
   * median index, but its second pass writes its black/white decisions only into
   * the luminance list. The image ends exactly as it started.
   */
  method ConvertToBW(image: Img) returns (result: Img)
    requires image.Valid()
    modifies image.pixels
    ensures result == image
    ensures image.Grid() == old(image.Grid())
  {
    var lum := CollectLuminances(image);
    ghost var collected := lum;
    assert image.width > 0 ==> |collected| >= image.height;
    lum := Sort(lum);
    assert |lum| == |multiset(lum)| == |multiset(collected)| == |collected|;
    var median := MedianIndex(|lum|);
    lum := SecondPass(image, lum, median);
    result := image;
  }
}
