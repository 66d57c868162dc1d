/** The histogram-equalised colouring of a depth frame done by the C# capture
    example on every tick: count the 16-bit depths, accumulate the counts from
    bin 1 upwards (bin 0, "no depth", is left out of the sum), and map every
    non-zero depth to an intensity by its rank in that cumulative histogram.
    The bytes are B, G, R with blue `f` and red `255 - f`, so the nearest
    depths are red and the farthest blue.  Zero depth is painted a fixed dark
    colour. */
module DepthHistogram {
  import opened Integers

  // A depth sample is a `uint16`: the frame's `short`s are read through `(ushort)`.

  const BINS := 0x1_0000
  const MAX_DEPTH := 0xFFFF

  /** The colour written for a pixel without depth, in B, G, R order. */
  const NO_DEPTH_BGR: seq<uint8> := [0, 5, 20]

  // ---------------------------------------------------------------------------
  // Reference definitions

  /** The number of samples of `s` whose depth lies in `[lo, hi]`. */
  function CountIn(s: seq<uint16>, lo: int, hi: int): (r: nat)
    ensures r <= |s|
    decreases |s|
  {
    if |s| == 0 then 0
    else CountIn(s[..|s| - 1], lo, hi) + (if lo <= s[|s| - 1] <= hi then 1 else 0)
  }

  function Sum(h: seq<nat>): nat
    decreases |h|
  {
    if |h| == 0 then 0 else Sum(h[..|h| - 1]) + h[|h| - 1]
  }

  /** The intensity of a depth whose cumulative count is `c` out of `total`,
      computed without overflow. */
  function Intensity(c: nat, total: nat): (f: nat)
    requires 0 < c <= total
    ensures f <= 255
    ensures c == total ==> f == 255
  {
    IntensityBound(c, total);
    c * 255 / total
  }

  /** The intensity as the example computes it: `histogram[d] * 255` is an
      unsigned 32-bit product, which wraps modulo 2^32. */
  function Intensity32(c: nat, total: nat): nat
    requires 0 < total
  {
    (c * 255) % UINT32_MODULUS / total
  }

  /** The B, G, R bytes of a pixel of intensity `f`; the `(byte)` casts of the
      example truncate modulo 256. */
  function Bgr(f: nat): seq<uint8>
  {
    [f % 256, 0, (255 - f) % 256]
  }

  /** The intensity a frame assigns to one of its non-zero depths. */
  function DepthIntensity(depth: seq<uint16>, d: uint16): (f: nat)
    requires d != 0 && d in depth
    ensures f <= 255
  {
    CountInPositive(depth, d, 1, d);
    CountInMonotone(depth, 1, d, MAX_DEPTH);
    Intensity(CountIn(depth, 1, d), CountIn(depth, 1, MAX_DEPTH))
  }

  /** The same intensity as the example computes it, with the wrapping product. */
  function DepthIntensity32(depth: seq<uint16>, d: uint16): nat
    requires d != 0 && d in depth
  {
    CountInPositive(depth, d, 1, MAX_DEPTH);
    Intensity32(CountIn(depth, 1, d), CountIn(depth, 1, MAX_DEPTH))
  }

  /** The B, G, R bytes the colouring writes for a pixel of depth `d`, given
      the cumulative histogram `cum`. */
  function PixelBgr(d: uint16, cum: seq<nat>): seq<uint8>
    requires |cum| == BINS
    requires d != 0 ==> 0 < cum[d] <= cum[MAX_DEPTH]
  {
    if d != 0 then Bgr(Intensity(cum[d], cum[MAX_DEPTH])) else NO_DEPTH_BGR
  }

  // ---------------------------------------------------------------------------
  // Facts about the reference definitions

  lemma IntensityBound(c: nat, total: nat)
    requires 0 < c <= total
    ensures c * 255 / total <= 255
    ensures c == total ==> c * 255 / total == 255
  {
    var q := c * 255 / total;
    assert q * total <= c * 255 < (q + 1) * total;
    LeMulCancel(q, 255, total);
    if c == total {
      LtMulCancel(255, q + 1, total);
    }
  }

  /** A larger cumulative count never maps to a smaller intensity. */
  lemma IntensityMonotone(c1: nat, c2: nat, total: nat)
    requires 0 < c1 <= c2 <= total
    ensures Intensity(c1, total) <= Intensity(c2, total)
  {
    var q1, q2 := c1 * 255 / total, c2 * 255 / total;
    assert q1 * total <= c1 * 255 <= c2 * 255 < (q2 + 1) * total;
    LtMulCancel(q1, q2 + 1, total);
  }

  lemma LeMulCancel(q: int, n: int, t: int)
    requires t > 0 && q * t <= n * t
    ensures q <= n
  {
    assert (q - n) * t <= 0;
  }

  lemma LtMulCancel(q: int, n: int, t: int)
    requires t > 0 && q * t < n * t
    ensures q < n
  {
    assert (q - n) * t < 0;
  }

  /** Without overflow the example's intensity is the exact one. */
  lemma Intensity32Exact(c: nat, total: nat)
    requires 0 < c <= total
    requires c * 255 < UINT32_MODULUS
    ensures Intensity32(c, total) == Intensity(c, total)
  {
  }

  /** Even when the product wraps, the example's intensity lies in `[0, 255]`,
      so its `(byte)` casts never truncate. */
  lemma Intensity32InRange(c: nat, total: nat)
    requires 0 < c <= total
    ensures Intensity32(c, total) <= 255
    ensures Bgr(Intensity32(c, total)) == [Intensity32(c, total), 0, 255 - Intensity32(c, total)]
  {
    var w := (c * 255) % UINT32_MODULUS;
    var q1, q2 := w / total, c * 255 / total;
    assert q1 * total <= w <= c * 255 < (q2 + 1) * total;
    LtMulCancel(q1, q2 + 1, total);
    IntensityBound(c, total);
  }

  /** A frame of 16843010 pixels all at depth 1 has `c == total == 16843010`:
      its only depth is the largest, so it should be painted at intensity 255
      (blue), but the wrapped product gives intensity 0 (red). */
  lemma Intensity32Overflow()
    ensures Intensity(16843010, 16843010) == 255
    ensures Intensity32(16843010, 16843010) == 0
    ensures Bgr(Intensity32(16843010, 16843010)) == [0, 0, 255]
    ensures Bgr(Intensity(16843010, 16843010)) == [255, 0, 0]
  {
    assert 16843010 * 255 % UINT32_MODULUS == 254;
  }

  lemma CountInAppend(s: seq<uint16>, x: uint16, lo: int, hi: int)
    ensures CountIn(s + [x], lo, hi) == CountIn(s, lo, hi) + (if lo <= x <= hi then 1 else 0)
  {
    assert (s + [x])[..|s|] == s;
  }

  /** Counting over `[lo, hi]` splits at any `mid` in between. */
  lemma {:induction false} CountInSplit(s: seq<uint16>, lo: int, mid: int, hi: int)
    requires lo <= mid <= hi
    ensures CountIn(s, lo, hi) == CountIn(s, lo, mid) + CountIn(s, mid + 1, hi)
    decreases |s|
  {
    if |s| > 0 {
      CountInSplit(s[..|s| - 1], lo, mid, hi);
    }
  }

  lemma {:induction false} CountInMonotone(s: seq<uint16>, lo: int, h1: int, h2: int)
    requires h1 <= h2
    ensures CountIn(s, lo, h1) <= CountIn(s, lo, h2)
    decreases |s|
  {
    if |s| > 0 {
      CountInMonotone(s[..|s| - 1], lo, h1, h2);
    }
  }

  lemma {:induction false} CountInPositive(s: seq<uint16>, x: uint16, lo: int, hi: int)
    requires x in s && lo <= x <= hi
    ensures CountIn(s, lo, hi) > 0
    decreases |s|
  {
    if s[|s| - 1] != x {
      assert s == s[..|s| - 1] + [s[|s| - 1]];
      CountInPositive(s[..|s| - 1], x, lo, hi);
    }
  }

  /** A range that holds no sample has count zero. */
  lemma {:induction false} CountInEmpty(s: seq<uint16>, lo: int, hi: int)
    requires forall i :: 0 <= i < |s| ==> !(lo <= s[i] <= hi)
    ensures CountIn(s, lo, hi) == 0
    decreases |s|
  {
    if |s| > 0 {
      CountInEmpty(s[..|s| - 1], lo, hi);
    }
  }

  /** Every sample is a 16-bit depth, so the full range counts them all. */
  lemma {:induction false} CountInAll(s: seq<uint16>)
    ensures CountIn(s, 0, MAX_DEPTH) == |s|
    decreases |s|
  {
    if |s| > 0 {
      CountInAll(s[..|s| - 1]);
    }
  }

  /** Summing the single-depth bins `lo..k` of a histogram of `s` counts the
      samples in `[lo, k]`. */
  lemma {:induction false} SumOfBins(s: seq<uint16>, h: seq<nat>, lo: nat, k: nat)
    requires forall v :: 0 <= v < |h| ==> h[v] == CountIn(s, v, v)
    requires lo <= k < |h|
    ensures Sum(h[lo..k + 1]) == CountIn(s, lo, k)
    decreases k - lo
  {
    if k == lo {
      assert h[lo..k + 1][..0] == [];
    } else {
      assert h[lo..k + 1][..k - lo] == h[lo..k];
      SumOfBins(s, h, lo, k - 1);
      CountInSplit(s, lo, k - 1, k);
    }
  }

  // ---------------------------------------------------------------------------
  // The three loops of the colouring

  /** The counting loop: `++histogram[(ushort)depthPixels[i]]` for every pixel. */
  method CountDepths(depth: seq<uint16>) returns (hist: seq<nat>)
    ensures |hist| == BINS
    ensures forall v :: 0 <= v < BINS ==> hist[v] == CountIn(depth, v, v)
    ensures Sum(hist) == |depth|
  {
    var a := new nat[BINS](_ => 0);
    var i := 0;
    while i < |depth|
      invariant 0 <= i <= |depth|
      invariant forall v :: 0 <= v < BINS ==> a[v] == CountIn(depth[..i], v, v)
    {
      assert depth[..i + 1] == depth[..i] + [depth[i]];
      forall v | 0 <= v < BINS
        ensures CountIn(depth[..i + 1], v, v) == CountIn(depth[..i], v, v) + (if v == depth[i] then 1 else 0)
      {
        CountInAppend(depth[..i], depth[i], v, v);
      }
      a[depth[i]] := a[depth[i]] + 1;
      i := i + 1;
    }
    assert depth[..i] == depth;
    hist := a[..];
    SumOfBins(depth, hist, 0, MAX_DEPTH);
    assert hist[0..MAX_DEPTH + 1] == hist;
    CountInAll(depth);
  }

  /** The prefix loop: `histogram[i] += histogram[i-1]` for `i` from 2, so
      every bin from 1 upwards holds the sum of bins `1..i` while bin 0 keeps
      its own count. */
  method Accumulate(hist: seq<nat>) returns (cum: seq<nat>)
    requires |hist| == BINS
    ensures |cum| == BINS
    ensures cum[0] == hist[0]
    ensures forall v :: 1 <= v < BINS ==> cum[v] == Sum(hist[1..v + 1])
  {
    var a := new nat[BINS](i requires 0 <= i < BINS => hist[i]);
    assert hist[1..2][..0] == [];
    var i := 2;
    while i < BINS
      invariant 2 <= i <= BINS
      invariant a[0] == hist[0]
      invariant forall v :: 1 <= v < i ==> a[v] == Sum(hist[1..v + 1])
      invariant forall v :: i <= v < BINS ==> a[v] == hist[v]
    {
      assert hist[1..i + 1][..i - 1] == hist[1..i];
      a[i] := a[i] + a[i - 1];
      i := i + 1;
    }
    cum := a[..];
  }

  /** The painting loop: pixel `i` gets the bytes `3i`, `3i+1`, `3i+2`.  The
      intensity is the exact one; it is the example's wrapping product
      whenever `cum[0xFFFF] * 255` fits in 32 bits. */
  method Paint(depth: seq<uint16>, cum: seq<nat>) returns (image: seq<uint8>)
    requires |cum| == BINS
    requires forall i :: 0 <= i < |depth| && depth[i] != 0 ==> 0 < cum[depth[i]] <= cum[MAX_DEPTH]
    ensures |image| == 3 * |depth|
    ensures forall i :: 0 <= i < |depth| ==> image[3 * i..3 * i + 3] == PixelBgr(depth[i], cum)
    ensures cum[MAX_DEPTH] * 255 < UINT32_MODULUS ==> forall i :: 0 <= i < |depth| && depth[i] != 0 ==>
      image[3 * i..3 * i + 3] == Bgr(Intensity32(cum[depth[i]], cum[MAX_DEPTH]))
  {
    var a := new uint8[3 * |depth|];
    var i := 0;
    while i < |depth|
      invariant 0 <= i <= |depth|
      invariant forall k :: 0 <= k < i ==>
        a[3 * k] == PixelBgr(depth[k], cum)[0] &&
        a[3 * k + 1] == PixelBgr(depth[k], cum)[1] &&
        a[3 * k + 2] == PixelBgr(depth[k], cum)[2]
    {
      var px := PixelBgr(depth[i], cum);
      a[3 * i], a[3 * i + 1], a[3 * i + 2] := px[0], px[1], px[2];
      i := i + 1;
    }
    image := a[..];
    forall k | 0 <= k < |depth|
      ensures image[3 * k..3 * k + 3] == PixelBgr(depth[k], cum)
    {
      assert image[3 * k..3 * k + 3] == [a[3 * k], a[3 * k + 1], a[3 * k + 2]];
    }
    if cum[MAX_DEPTH] * 255 < UINT32_MODULUS {
      forall k | 0 <= k < |depth| && depth[k] != 0
        ensures Intensity32(cum[depth[k]], cum[MAX_DEPTH]) == Intensity(cum[depth[k]], cum[MAX_DEPTH])
      {
        Intensity32Exact(cum[depth[k]], cum[MAX_DEPTH]);
      }
    }
  }

  // ---------------------------------------------------------------------------
  // The whole colouring

  /** The cumulative histogram counts the samples in `[1, v]` for every `v`
      from 1 upwards, and bin 0 holds the zero-depth samples. */
  lemma CumulativeCounts(depth: seq<uint16>, hist: seq<nat>, cum: seq<nat>)
    requires |hist| == BINS && |cum| == BINS
    requires forall v :: 0 <= v < BINS ==> hist[v] == CountIn(depth, v, v)
    requires cum[0] == hist[0]
    requires forall v :: 1 <= v < BINS ==> cum[v] == Sum(hist[1..v + 1])
    ensures cum[0] == CountIn(depth, 0, 0)
    ensures forall v :: 1 <= v < BINS ==> cum[v] == CountIn(depth, 1, v)
  {
    forall v | 1 <= v < BINS
      ensures cum[v] == CountIn(depth, 1, v)
    {
      SumOfBins(depth, hist, 1, v);
    }
  }

  /** The colouring of one depth frame of `width * height` pixels into a BGR
      byte image. */
  method ColorizeDepth(width: nat, height: nat, depth: seq<uint16>) returns (image: seq<uint8>)
    requires |depth| == width * height
    requires 3 * |depth| <= INT32_MAX
    ensures |image| == 3 * |depth|
    ensures forall i :: 0 <= i < |depth| && depth[i] != 0 ==>
      image[3 * i..3 * i + 3] == Bgr(DepthIntensity(depth, depth[i]))
    ensures forall i :: 0 <= i < |depth| && depth[i] == 0 ==> image[3 * i..3 * i + 3] == NO_DEPTH_BGR
    ensures CountIn(depth, 1, MAX_DEPTH) * 255 < UINT32_MODULUS ==> forall i :: 0 <= i < |depth| && depth[i] != 0 ==>
      image[3 * i..3 * i + 3] == Bgr(DepthIntensity32(depth, depth[i]))
  {
    var hist := CountDepths(depth);
    var cum := Accumulate(hist);
    CumulativeCounts(depth, hist, cum);
    forall i | 0 <= i < |depth| && depth[i] != 0
      ensures 0 < cum[depth[i]] <= cum[MAX_DEPTH]
    {
      CountInPositive(depth, depth[i], 1, depth[i]);
      CountInMonotone(depth, 1, depth[i], MAX_DEPTH);
    }
    image := Paint(depth, cum);
  }

  // ---------------------------------------------------------------------------
  // Properties of the colouring

  /** Nearer (smaller non-zero) depths are never painted with a higher
      intensity than farther ones. */
  lemma DepthIntensityMonotone(depth: seq<uint16>, d1: uint16, d2: uint16)
    requires d1 != 0 && d1 in depth && d2 in depth && d1 <= d2
    ensures DepthIntensity(depth, d1) <= DepthIntensity(depth, d2)
  {
    CountInMonotone(depth, 1, d1, d2);
    CountInPositive(depth, d1, 1, d1);
    CountInMonotone(depth, 1, d2, MAX_DEPTH);
    IntensityMonotone(CountIn(depth, 1, d1), CountIn(depth, 1, d2), CountIn(depth, 1, MAX_DEPTH));
  }

  /** The largest depth present in the frame is painted at full intensity. */
  lemma LargestDepthIsFullIntensity(depth: seq<uint16>, d: uint16)
    requires d != 0 && d in depth
    requires forall i :: 0 <= i < |depth| ==> depth[i] <= d
    ensures DepthIntensity(depth, d) == 255
  {
    if d < MAX_DEPTH {
      CountInSplit(depth, 1, d, MAX_DEPTH);
      CountInEmpty(depth, d + 1, MAX_DEPTH);
    }
  }

  /** The example's own wrapped intensity keeps the order of the depths while
      the non-zero pixel count times 255 fits in 32 bits. */
  lemma DepthIntensity32Monotone(depth: seq<uint16>, d1: uint16, d2: uint16)
    requires d1 != 0 && d1 in depth && d2 in depth && d1 <= d2
    requires CountIn(depth, 1, MAX_DEPTH) * 255 < UINT32_MODULUS
    ensures DepthIntensity32(depth, d1) <= DepthIntensity32(depth, d2)
  {
    DepthIntensityMonotone(depth, d1, d2);
    CountInPositive(depth, d1, 1, d1);
    CountInMonotone(depth, 1, d1, d2);
    CountInMonotone(depth, 1, d2, MAX_DEPTH);
    Intensity32Exact(CountIn(depth, 1, d1), CountIn(depth, 1, MAX_DEPTH));
    Intensity32Exact(CountIn(depth, 1, d2), CountIn(depth, 1, MAX_DEPTH));
  }

  /** Under the same bound the example paints its largest depth at intensity 255. */
  lemma LargestDepthIsFullIntensity32(depth: seq<uint16>, d: uint16)
    requires d != 0 && d in depth
    requires forall i :: 0 <= i < |depth| ==> depth[i] <= d
    requires CountIn(depth, 1, MAX_DEPTH) * 255 < UINT32_MODULUS
    ensures DepthIntensity32(depth, d) == 255
  {
    LargestDepthIsFullIntensity(depth, d);
    CountInPositive(depth, d, 1, d);
    CountInMonotone(depth, 1, d, MAX_DEPTH);
    Intensity32Exact(CountIn(depth, 1, d), CountIn(depth, 1, MAX_DEPTH));
  }
}
