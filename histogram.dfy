/**
 * The counts behind `plot_color_distribution`: for each plane,
 * `np.histogram(plane, bins=256, range=(0, 255))`, and the points
 * `(bin_edges[0:-1], histogram)` handed to the plot.
 */
module Histogram {
  import opened Wrappers
  import opened Image

  /** The number of bins requested. */
  const BinCount: nat := 256

  /** Left edge of bin `k`: 256 equal bins over [0, 255], so edges k * 255 / 256. */
  function Edge(k: int): (edge: real)
  {
    k as real * 255.0 / 256.0
  }

  /** `bin_edges`: 257 equally spaced edges from 0 to 255. */
  function BinEdges(): (edges: seq<real>)
    ensures |edges| == BinCount + 1
    ensures edges[0] == 0.0 && edges[BinCount] == 255.0
    ensures forall k :: 0 <= k < BinCount ==> edges[k] < edges[k + 1] && edges[k + 1] - edges[k] == 255.0 / 256.0
  {
    seq(BinCount + 1, k => Edge(k))
  }

  /**
   * The bin of value `x`: values outside [0, 255] are dropped, the index is
   * the floor of x * 256 / 255, and the index 256 (x == 255) is moved into
   * the last bin, which is closed on the right.
   */
  function BinOf(x: real): (bin: Option<nat>)
    ensures bin.None? <==> x < 0.0 || x > 255.0
    ensures bin.Some? ==> bin.value < BinCount && Edge(bin.value) <= x
    ensures bin.Some? ==> x < Edge(bin.value + 1) || (bin.value == BinCount - 1 && x == Edge(BinCount))
  {
    if x < 0.0 || x > 255.0 then None
    else
      var k := (x * 256.0 / 255.0).Floor;
      Some(if k == BinCount then BinCount - 1 else k)
  }

  /** An 8-bit value `v` falls into bin `v`; 255 into the last bin. */
  lemma ByteBin(v: Byte)
    ensures BinOf(v as real) == Some(v)
  {
    var x := v as real * 256.0 / 255.0;
    assert x == v as real + v as real / 255.0;
    if v < 255 {
      assert v as real <= x < v as real + 1.0;
    } else {
      assert x == 256.0;
    }
  }

  /** The number of pixels among columns 0..j-1 of row `i` whose plane-`c` value is `v`. */
  ghost function RowCount(image: array3<Byte>, c: nat, v: int, i: nat, j: nat): nat
    reads image
    requires c < image.Length2 && i < image.Length0 && j <= image.Length1
    decreases j
  {
    if j == 0 then 0
    else RowCount(image, c, v, i, j - 1) + (if image[i, j - 1, c] == v then 1 else 0)
  }

  /** The number of pixels among rows 0..i-1 whose plane-`c` value is `v`. */
  ghost function RowsCount(image: array3<Byte>, c: nat, v: int, i: nat): nat
    reads image
    requires c < image.Length2 && i <= image.Length0
    decreases i
  {
    if i == 0 then 0
    else RowsCount(image, c, v, i - 1) + RowCount(image, c, v, i - 1, image.Length1)
  }

  /** The number of pixels of the image whose plane-`c` value is `v`. */
  ghost function PixelCount(image: array3<Byte>, c: nat, v: int): nat
    reads image
    requires c < image.Length2
  {
    RowsCount(image, c, v, image.Length0)
  }

  /** The sum of a sequence of counts. */
  function Sum(s: seq<nat>): (total: nat)
  {
    if s == [] then 0 else s[0] + Sum(s[1..])
  }

  /** Counting one more item in one bin raises the total by one. */
  lemma {:induction false} SumIncrement(s: seq<nat>, k: nat)
    requires k < |s|
    ensures Sum(s[k := s[k] + 1]) == Sum(s) + 1
  {
    if k == 0 {
      assert s[k := s[k] + 1][1..] == s[1..];
    } else {
      assert s[k := s[k] + 1][1..] == s[1..][k - 1 := s[k] + 1];
      SumIncrement(s[1..], k - 1);
    }
  }

  /** Bins that are all empty hold nothing in total. */
  lemma {:induction false} SumZeros(s: seq<nat>)
    requires forall k :: 0 <= k < |s| ==> s[k] == 0
    ensures Sum(s) == 0
  {
    if s != [] {
      SumZeros(s[1..]);
    }
  }

  /** Counts the pixels of row `i` of plane `c` into `bins`, one bin per value. */
  method CountRow(image: array3<Byte>, c: nat, i: nat, bins: array<nat>)
    requires c < image.Length2 && i < image.Length0 && bins.Length == BinCount
    modifies bins
    ensures forall k :: 0 <= k < BinCount ==> bins[k] == old(bins[k]) + RowCount(image, c, k, i, image.Length1)
    ensures Sum(bins[..]) == old(Sum(bins[..])) + image.Length1
  {
    var j := 0;
    while j < image.Length1
      invariant 0 <= j <= image.Length1
      invariant forall k :: 0 <= k < BinCount ==> bins[k] == old(bins[k]) + RowCount(image, c, k, i, j)
      invariant Sum(bins[..]) == old(Sum(bins[..])) + j
    {
      var v := image[i, j, c];
      ByteBin(v);
      var bin := BinOf(v as real).value;
      ghost var before := bins[..];
      SumIncrement(before, bin);
      bins[bin] := bins[bin] + 1;
      assert bins[..] == before[bin := before[bin] + 1];
      j := j + 1;
    }
  }

  /**
   * `np.histogram(img_array[:, :, c], bins=256, range=(0, 255))[0]`: 256
   * bins, bin `k` holding the number of pixels whose plane-`c` value is `k`,
   * so that every pixel is counted exactly once.
   */
  method Histogram(image: array3<Byte>, c: nat) returns (counts: seq<nat>)
    requires c < image.Length2
    ensures |counts| == BinCount
    ensures forall k :: 0 <= k < BinCount ==> counts[k] == PixelCount(image, c, k)
    ensures Sum(counts) == image.Length0 * image.Length1
  {
    var bins := new nat[BinCount](_ => 0);
    SumZeros(bins[..]);
    var i := 0;
    while i < image.Length0
      invariant 0 <= i <= image.Length0
      invariant forall k :: 0 <= k < BinCount ==> bins[k] == RowsCount(image, c, k, i)
      invariant Sum(bins[..]) == i * image.Length1
    {
      CountRow(image, c, i, bins);
      assert (i + 1) * image.Length1 == i * image.Length1 + image.Length1;
      i := i + 1;
    }
    counts := bins[..];
  }

  /** Pairs the x-values with the counts, as `plt.plot(xs, counts)` does. */
  function Zip(xs: seq<real>, counts: seq<nat>): (points: seq<(real, nat)>)
    requires |xs| == |counts|
    ensures |points| == |xs|
    ensures forall k :: 0 <= k < |xs| ==> points[k] == (xs[k], counts[k])
  {
    if xs == [] then [] else [(xs[0], counts[0])] + Zip(xs[1..], counts[1..])
  }

  /**
   * The three series `plot_color_distribution` draws, red, green and blue:
   * `bin_edges[0:-1]` has 256 entries, one per bin, so point `k` of series
   * `c` is the left edge of bin `k` with the number of pixels whose
   * plane-`c` value is `k`.
   */
  method ColorDistribution(image: array3<Byte>) returns (series: seq<seq<(real, nat)>>)
    requires image.Length2 == Channels
    ensures |series| == Channels
    ensures forall c, k :: 0 <= c < Channels && 0 <= k < BinCount ==>
      |series[c]| == BinCount && series[c][k] == (Edge(k), PixelCount(image, c, k))
  {
    var edges := BinEdges();
    var xs := edges[0..|edges| - 1];
    series := [];
    for c := 0 to Channels
      invariant |series| == c
      invariant forall d, k :: 0 <= d < c && 0 <= k < BinCount ==>
        |series[d]| == BinCount && series[d][k] == (Edge(k), PixelCount(image, d, k))
    {
      var counts := Histogram(image, c);
      series := series + [Zip(xs, counts)];
    }
  }
}
