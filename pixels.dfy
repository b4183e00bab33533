// Single pixels and the per-pixel arithmetic of ImageManipulator.
// A channel is stored as the plain int it was given: nothing clamps it to [0, 255].

module Pixels {

  datatype Pixel = Pixel(red: int, green: int, blue: int)

  const Black := Pixel(0, 0, 0)
  const White := Pixel(255, 255, 255)

  predicate IsGray(p: Pixel) {
    p.red == p.green == p.blue
  }

  /** Every channel of p lies in [lo, hi]. */
  predicate ChannelsIn(p: Pixel, lo: int, hi: int) {
    lo <= p.red <= hi && lo <= p.green <= hi && lo <= p.blue <= hi
  }

  function Min3(p: Pixel): int {
    if p.red <= p.green && p.red <= p.blue then p.red
    else if p.green <= p.blue then p.green
    else p.blue
  }

  function Max3(p: Pixel): int {
    if p.red >= p.green && p.red >= p.blue then p.red
    else if p.green >= p.blue then p.green
    else p.blue
  }

  /** Java's `/` on int, which truncates toward zero (Dafny's `/` is Euclidean). */
  function TruncDiv(a: int, b: int): (q: int)
    requires b > 0
    ensures a >= 0 ==> 0 <= a - q * b < b
    ensures a < 0 ==> -b < a - q * b <= 0
  {
    if a >= 0 then a / b else -((-a) / b)
  }

  /**
   * The new value of a pixel visited by ConvertToGrayScale: every channel becomes
   * the truncated average of the three original channels.
   */
  function Gray(p: Pixel): (q: Pixel)
    ensures IsGray(q)
    ensures Min3(p) <= q.red <= Max3(p)
    ensures 3 * q.red <= p.red + p.green + p.blue + 2
    ensures p.red + p.green + p.blue - 2 <= 3 * q.red
  {
    var avg := TruncDiv(p.blue + p.green + p.red, 3);
    Pixel(avg, avg, avg)
  }

  /** Averaging a pixel that is already gray gives it back. */
  lemma GrayIdempotent(p: Pixel)
    ensures Gray(Gray(p)) == Gray(p)
  {
  }

  /** Channels inside [lo, hi] stay inside [lo, hi]; in particular [0, 255] is kept. */
  lemma GrayInRange(p: Pixel, lo: int, hi: int)
    requires ChannelsIn(p, lo, hi)
    ensures ChannelsIn(Gray(p), lo, hi)
  {
  }

  /** The new value of a pixel visited by InvertImage: each channel c becomes 225 - c. */
  function Invert(p: Pixel): (q: Pixel)
    ensures q.red + p.red == q.green + p.green == q.blue + p.blue == 225
  {
    Pixel(225 - p.red, 225 - p.green, 225 - p.blue)
  }

  /** Inverting twice gives back every channel, whatever int it held. */
  lemma InvertTwice(p: Pixel)
    ensures Invert(Invert(p)) == p
  {
  }

  /**
   * The constant 225 is not the channel maximum 255 that the comment on InvertImage
   * names: black does not become white, and white leaves the range [0, 255].
   */
  lemma InvertMissesComplement()
    ensures Invert(Black) == Pixel(225, 225, 225) != White
    ensures Invert(White) == Pixel(-30, -30, -30) && !ChannelsIn(Invert(White), 0, 255)
    ensures forall p :: ChannelsIn(p, 0, 255) ==> Invert(p) != Pixel(255 - p.red, 255 - p.green, 255 - p.blue)
  {
  }

  /**
   * Integer stand-in for the luminance sqrt(.299 r^2 + .587 g^2 + .114 b^2): it is
   * 1000 times the square of the luminance, so it orders pixels exactly as the
   * luminance does.
   */
  function Key(p: Pixel): (k: int)
    ensures k >= 0
    ensures k == 0 <==> p == Black
  {
    SquareNonNegative(p.red);
    SquareNonNegative(p.green);
    SquareNonNegative(p.blue);
    299 * (p.red * p.red) + 587 * (p.green * p.green) + 114 * (p.blue * p.blue)
  }

  /** The key of luminance 255.0, the value ConvertToBW stores for a "white" entry. */
  const WhiteKey := 65025000

  lemma WhiteKeyIsKeyOfWhite()
    ensures Key(White) == WhiteKey
    ensures forall p :: ChannelsIn(p, 0, 255) ==> Key(p) <= WhiteKey
  {
    forall p | ChannelsIn(p, 0, 255) ensures Key(p) <= WhiteKey {
      SquareMonotone(p.red, 255);
      SquareMonotone(p.green, 255);
      SquareMonotone(p.blue, 255);
    }
  }

  lemma SquareNonNegative(a: int)
    ensures a * a >= 0
    ensures a * a == 0 <==> a == 0
  {
    if a < 0 {
      assert a * a == (-a) * (-a);
    }
  }

  lemma SquareMonotone(a: int, b: int)
    requires 0 <= a <= b
    ensures a * a <= b * b
  {
  }
}
