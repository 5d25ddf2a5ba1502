/**
 * `adjust_color_intensity`: copy the image, then for every entry of the
 * factor dictionary whose key is "R", "G" or "B" overwrite that plane with
 * each value multiplied by the factor, clipped to [0, 255] and truncated
 * back to 8 bits.
 */
module Intensity {
  import opened Image

  /** The distance between two reals. */
  function Distance(a: real, b: real): (d: real)
    ensures d >= 0.0 && (d == a - b || d == b - a)
  {
    if a >= b then a - b else b - a
  }

  /** `np.clip` of one value: the point of [lo, hi] nearest to `x`. */
  function Clamp(x: real, lo: real, hi: real): (r: real)
    requires lo <= hi
    ensures lo <= r <= hi
    ensures forall y :: lo <= y <= hi ==> Distance(r, x) <= Distance(y, x)
    ensures lo <= x <= hi ==> r == x
    ensures x < lo ==> r == lo
    ensures x > hi ==> r == hi
  {
    if x < lo then lo else if x > hi then hi else x
  }

  /**
   * The new value of one pixel component under factor `f`: the product is
   * clipped to [0, 255] and the float-to-uint8 store truncates it, which on
   * that range is the floor.
   */
  function Scale(v: Byte, f: real): (r: Byte)
    ensures v as real * f <= 0.0 ==> r == 0
    ensures v as real * f >= 255.0 ==> r == 255
    ensures 0.0 <= v as real * f <= 255.0 ==> r as real <= v as real * f < r as real + 1.0
  {
    Clamp(v as real * f, 0.0, 255.0).Floor
  }

  /**
   * The value plane `c` of a pixel has after the adjustment: scaled by the
   * factor stored under the plane's key, unchanged when there is none.
   */
  function AdjustedValue(v: Byte, c: nat, factors: map<string, real>): (r: Byte)
    requires c < Channels
  {
    var key := ChannelKey(c);
    if key in factors then Scale(v, factors[key]) else v
  }

  /** `np.array(image)`: a fresh array with the same shape and contents. */
  method CopyImage(image: array3<Byte>) returns (copy: array3<Byte>)
    ensures fresh(copy)
    ensures copy.Length0 == image.Length0 && copy.Length1 == image.Length1 && copy.Length2 == image.Length2
    ensures forall i, j, c :: 0 <= i < image.Length0 && 0 <= j < image.Length1 && 0 <= c < image.Length2 ==>
      copy[i, j, c] == image[i, j, c]
  {
    copy := new Byte[image.Length0, image.Length1, image.Length2];
    forall i, j, c | 0 <= i < image.Length0 && 0 <= j < image.Length1 && 0 <= c < image.Length2 {
      copy[i, j, c] := image[i, j, c];
    }
  }

  /**
   * `img_array[:, :, c] = np.clip(img_array[:, :, c] * f, 0, 255)`: every
   * value of plane `c` is scaled, every other plane is left as it was.
   */
  method ScalePlane(a: array3<Byte>, c: nat, f: real)
    requires c < a.Length2
    modifies a
    ensures forall i, j, k :: 0 <= i < a.Length0 && 0 <= j < a.Length1 && 0 <= k < a.Length2 ==>
      a[i, j, k] == if k == c then Scale(old(a[i, j, k]), f) else old(a[i, j, k])
  {
    forall i, j | 0 <= i < a.Length0 && 0 <= j < a.Length1 {
      a[i, j, c] := Scale(a[i, j, c], f);
    }
  }

  /**
   * `adjust_color_intensity(image, factors)`. The dictionary is visited in
   * an arbitrary order; the result is the same for every order. The input
   * is not modified and the result is a newly allocated array of the same
   * shape.
   */
  method AdjustColorIntensity(image: array3<Byte>, factors: map<string, real>) returns (adjusted: array3<Byte>)
    requires image.Length2 == Channels
    ensures fresh(adjusted)
    ensures adjusted.Length0 == image.Length0 && adjusted.Length1 == image.Length1 && adjusted.Length2 == Channels
    ensures forall i, j, c :: 0 <= i < image.Length0 && 0 <= j < image.Length1 && 0 <= c < Channels ==>
      adjusted[i, j, c] == AdjustedValue(image[i, j, c], c, factors)
  {
    adjusted := CopyImage(image);
    var pending := factors.Keys;
    while pending != {}
      invariant pending <= factors.Keys
      invariant fresh(adjusted)
      invariant adjusted.Length0 == image.Length0 && adjusted.Length1 == image.Length1 && adjusted.Length2 == Channels
      invariant forall i, j, c :: 0 <= i < image.Length0 && 0 <= j < image.Length1 && 0 <= c < Channels ==>
        adjusted[i, j, c] == if ChannelKey(c) in pending then image[i, j, c] else AdjustedValue(image[i, j, c], c, factors)
      decreases pending
    {
      var channel :| channel in pending;
      var factor := factors[channel];
      if channel == "R" {
        ScalePlane(adjusted, 0, factor);
      } else if channel == "G" {
        ScalePlane(adjusted, 1, factor);
      } else if channel == "B" {
        ScalePlane(adjusted, 2, factor);
      }
      pending := pending - {channel};
    }
  }

  /** A factor of 1 leaves every value as it is. */
  lemma ScaleByOne(v: Byte)
    ensures Scale(v, 1.0) == v
  {
  }

  /** A factor of zero or below blacks the value out. */
  lemma NonPositiveFactorZeroes(v: Byte, f: real)
    requires f <= 0.0
    ensures Scale(v, f) == 0
  {
    assert v as real * f <= 0.0;
  }

  /** A saturated value stays saturated under any factor of at least 1. */
  lemma SaturatedStays(f: real)
    requires f >= 1.0
    ensures Scale(255, f) == 255
  {
  }

  /** For a non-negative factor, scaling keeps the order of values. */
  lemma ScaleMonotone(v: Byte, w: Byte, f: real)
    requires v <= w && f >= 0.0
    ensures Scale(v, f) <= Scale(w, f)
  {
    var x, y := v as real * f, w as real * f;
    assert y - x == (w - v) as real * f;
    assert x <= y;
    if 0.0 <= x && y <= 255.0 {
      assert Scale(v, f) as real <= x <= y < Scale(w, f) as real + 1.0;
    }
  }

  /**
   * Plane `c` depends only on the entry under its own key: two
   * dictionaries that agree on that key (both lack it, or both map it to
   * the same factor) adjust the plane identically, whatever other keys they
   * hold.
   */
  lemma OwnKeyDecides(v: Byte, c: nat, factors: map<string, real>, other: map<string, real>)
    requires c < Channels
    requires ChannelKey(c) in factors <==> ChannelKey(c) in other
    requires ChannelKey(c) in factors ==> factors[ChannelKey(c)] == other[ChannelKey(c)]
    ensures AdjustedValue(v, c, factors) == AdjustedValue(v, c, other)
  {
  }

  /** With no usable key the adjustment is the identity; in particular the empty dictionary is. */
  lemma NoChannelKeysIdentity(v: Byte, c: nat, factors: map<string, real>)
    requires c < Channels
    requires "R" !in factors && "G" !in factors && "B" !in factors
    ensures AdjustedValue(v, c, factors) == v
  {
  }

  /** The worked case {R: 2.0} on the pixel (100, 150, 200), and saturation of a red 255. */
  lemma DoubleRedExample()
    ensures AdjustedValue(100, 0, map["R" := 2.0]) == 200
    ensures AdjustedValue(150, 1, map["R" := 2.0]) == 150
    ensures AdjustedValue(200, 2, map["R" := 2.0]) == 200
    ensures AdjustedValue(255, 0, map["R" := 2.0]) == 255
  {
  }
}
