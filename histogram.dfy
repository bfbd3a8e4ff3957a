/**
  The histogram-equalisation steps of the auto-histogram filter: the 256-bin
  histogram of the red samples, its cumulative sums, their normalisation to
  a scale, and the per-pixel remap of the buffer by the ratio
  `ncdf[lev] / lev`, where lev is the pixel's red, followed by a tone curve.
 */
module AutoHistogram {
  import opened Pixels
  import CatmullRom

  /** Number of bins: the default `num_bins` of all three helpers. */
  const NumBins: nat := 256

  // ---------------------------------------------------------------------------
  // histogram

  /** How many iterations the loop `for (x = a; x < b; ++x)` runs. */
  function Span(a: int, b: int): nat
  {
    if a < b then b - a else 0
  }

  /** The red sample of the q-th pixel of the buffer. */
  function Red(data: seq<Byte>, q: nat): Byte
    requires 4 * q < |data|
  {
    data[4 * q]
  }

  /**
    Reads number 0 .. n - 1 of the histogram loop that land on a red sample v.
    Read q looks at offset 4 * q; a read past the end of the buffer yields
    `undefined`, whose bin is NaN, and so counts in no bin.
   */
  function Count(data: seq<Byte>, n: nat, v: int): nat
  {
    if n == 0 then 0
    else Count(data, n - 1, v) + (if 4 * (n - 1) < |data| && Red(data, n - 1) == v then 1 else 0)
  }

  /** How many of the reads 0 .. n - 1 land inside the buffer. */
  function Reads(data: seq<Byte>, n: nat): nat
  {
    if n == 0 then 0
    else Reads(data, n - 1) + (if 4 * (n - 1) < |data| then 1 else 0)
  }

  /** The bins after n reads: bin v counts the reads that saw red v. */
  function HistogramOf(data: seq<Byte>, n: nat): (hist: seq<nat>)
    ensures |hist| == NumBins
  {
    seq(NumBins, v => Count(data, n, v))
  }

  /** One more read adds one to the bin of the red it sees, if it is inside the buffer. */
  lemma HistogramStep(data: seq<Byte>, n: nat)
    ensures 4 * n < |data| ==>
              HistogramOf(data, n + 1) == HistogramOf(data, n)[Red(data, n) := HistogramOf(data, n)[Red(data, n)] + 1]
    ensures 4 * n >= |data| ==> HistogramOf(data, n + 1) == HistogramOf(data, n)
  {
  }

  /**
    `histogram(img, x1, y1, x2, y2)`: a row loop over y1 .. y2 - 1 and a column
    loop over x1 .. x2 - 1 with a read offset idx that starts at 0 and moves
    four samples per pixel, whatever x1 and y1 are. So it counts the reds of
    the first Span(x1, x2) * Span(y1, y2) pixels of the buffer.
   */
  method Histogram(data: seq<Byte>, x1: int, y1: int, x2: int, y2: int) returns (hist: seq<nat>)
    ensures hist == HistogramOf(data, Span(x1, x2) * Span(y1, y2))
  {
    hist := EmptyBins();
    assert hist == HistogramOf(data, 0);
    var cols := Span(x1, x2);
    var y := y1;
    var idx := 0;
    while y < y2
      invariant y1 <= y2 ==> y1 <= y <= y2
      invariant y2 < y1 ==> y == y1
      invariant idx == 4 * (Span(y1, y) * cols)
      invariant hist == HistogramOf(data, Span(y1, y) * cols)
    {
      ghost var done := Span(y1, y) * cols;
      hist, idx := CountRow(data, hist, idx, x1, x2, done);
      RowsStep(y1, y, cols);
      y := y + 1;
    }
  }

  /** The first loop of `histogram`: NumBins zeroes. */
  method EmptyBins() returns (hist: seq<nat>)
    ensures |hist| == NumBins && forall v :: 0 <= v < NumBins ==> hist[v] == 0
  {
    hist := [];
    var i := 0;
    while i < NumBins
      invariant 0 <= i <= NumBins
      invariant |hist| == i && forall v :: 0 <= v < i ==> hist[v] == 0
    {
      hist := hist + [0];
      i := i + 1;
    }
  }

  /** The column loop of `histogram` for one row, after `done` reads. */
  method CountRow(data: seq<Byte>, hist0: seq<nat>, idx0: nat, x1: int, x2: int, ghost done: nat)
      returns (hist: seq<nat>, idx: nat)
    requires idx0 == 4 * done && hist0 == HistogramOf(data, done)
    ensures idx == 4 * (done + Span(x1, x2))
    ensures hist == HistogramOf(data, done + Span(x1, x2))
  {
    hist, idx := hist0, idx0;
    var x := x1;
    while x < x2
      invariant x1 <= x2 ==> x1 <= x <= x2
      invariant x2 < x1 ==> x == x1
      invariant idx == 4 * (done + Span(x1, x))
      invariant hist == HistogramOf(data, done + Span(x1, x))
    {
      HistogramStep(data, done + Span(x1, x));
      if idx < |data| {
        var val := data[idx];
        hist := hist[val := hist[val] + 1];
      }
      x := x + 1;
      idx := idx + 4;
    }
  }

  lemma RowsStep(y1: int, y: int, cols: nat)
    requires y1 <= y
    ensures Span(y1, y + 1) * cols == Span(y1, y) * cols + cols
  {
  }

  /** Adding one to one entry adds one to the sum. */
  lemma {:induction false} SumIncrement(s: seq<nat>, v: nat)
    requires v < |s|
    ensures Sum(s[v := s[v] + 1]) == Sum(s) + 1
  {
    var t := s[v := s[v] + 1];
    if v < |s| - 1 {
      SumIncrement(s[..|s| - 1], v);
      assert t[..|t| - 1] == s[..|s| - 1][v := s[v] + 1];
    } else {
      assert t[..|t| - 1] == s[..|s| - 1];
    }
  }

  lemma {:induction false} SumZeros(k: nat)
    ensures Sum(seq(k, _ => 0)) == 0
  {
    if k > 0 {
      SumZeros(k - 1);
      assert seq(k, _ => 0)[..k - 1] == seq(k - 1, _ => 0);
    }
  }

  /** The bins add up to the number of reads that land inside the buffer. */
  lemma {:induction false} HistogramSum(data: seq<Byte>, n: nat)
    ensures Sum(HistogramOf(data, n)) == Reads(data, n)
  {
    if n > 0 {
      HistogramSum(data, n - 1);
      HistogramStep(data, n - 1);
      var prev := HistogramOf(data, n - 1);
      if 4 * (n - 1) < |data| {
        SumIncrement(prev, Red(data, n - 1));
      } else {
        assert HistogramOf(data, n) == prev;
      }
    } else {
      SumZeros(NumBins);
      assert HistogramOf(data, 0) == seq(NumBins, _ => 0);
    }
  }

  /** A region that fits in the buffer reads each of its pixels once. */
  lemma {:induction false} ReadsInside(data: seq<Byte>, n: nat)
    requires 4 * n <= |data|
    ensures Reads(data, n) == n
  {
    if n > 0 {
      ReadsInside(data, n - 1);
    }
  }

  /** So the histogram of a region inside the buffer counts its pixels. */
  lemma HistogramCountsPixels(data: seq<Byte>, x1: int, y1: int, x2: int, y2: int)
    requires 4 * (Span(x1, x2) * Span(y1, y2)) <= |data|
    ensures Sum(HistogramOf(data, Span(x1, x2) * Span(y1, y2))) == Span(x1, x2) * Span(y1, y2)
  {
    HistogramSum(data, Span(x1, x2) * Span(y1, y2));
    ReadsInside(data, Span(x1, x2) * Span(y1, y2));
  }

  /** A red seen by some read is counted in its bin. */
  lemma {:induction false} CountSeen(data: seq<Byte>, n: nat, q: nat)
    requires q < n && 4 * q < |data|
    ensures Count(data, n, Red(data, q)) > 0
  {
    if q < n - 1 {
      CountSeen(data, n - 1, q);
    }
  }

  /** A red no read sees has an empty bin. */
  lemma {:induction false} CountUnseen(data: seq<Byte>, n: nat, v: int)
    requires forall q :: 0 <= q < n && 4 * q < |data| ==> Red(data, q) != v
    ensures Count(data, n, v) == 0
  {
    if n > 0 {
      CountUnseen(data, n - 1, v);
    }
  }

  // ---------------------------------------------------------------------------
  // buildcdf

  function Sum(s: seq<nat>): nat
  {
    if |s| == 0 then 0 else Sum(s[..|s| - 1]) + s[|s| - 1]
  }

  /** The prefix sums of the bins: entry i adds bins 0 .. i. */
  function Cdf(hist: seq<nat>): (cdf: seq<nat>)
    requires |hist| == NumBins
    ensures |cdf| == NumBins
  {
    seq(NumBins, i requires 0 <= i < NumBins => Sum(hist[..i + 1]))
  }

  /** `buildcdf(hist)`: the running total, started at hist[0]. */
  method BuildCdf(hist: seq<nat>) returns (cdf: seq<nat>)
    requires |hist| == NumBins
    ensures cdf == Cdf(hist)
  {
    assert hist[..1][..0] == [];
    cdf := [hist[0]];
    var i := 1;
    while i < NumBins
      invariant 1 <= i <= NumBins
      invariant |cdf| == i
      invariant forall k :: 0 <= k < i ==> cdf[k] == Sum(hist[..k + 1])
    {
      assert hist[..i + 1][..i] == hist[..i];
      cdf := cdf + [cdf[i - 1] + hist[i]];
      i := i + 1;
    }
    assert forall k :: 0 <= k < NumBins ==> cdf[k] == Cdf(hist)[k];
  }

  /** The cumulative sums start at the first bin and grow by one bin per step. */
  lemma CdfSteps(hist: seq<nat>, i: nat)
    requires |hist| == NumBins && 0 < i < NumBins
    ensures Cdf(hist)[0] == hist[0]
    ensures Cdf(hist)[i] == Cdf(hist)[i - 1] + hist[i]
  {
    assert hist[..1][..0] == [];
    assert Sum(hist[..1]) == hist[0];
    assert hist[..i + 1][..i] == hist[..i];
    assert Sum(hist[..i + 1]) == Sum(hist[..i]) + hist[i];
  }

  /** The last cumulative sum is the sum of all bins. */
  lemma CdfLast(hist: seq<nat>)
    requires |hist| == NumBins
    ensures Cdf(hist)[NumBins - 1] == Sum(hist)
  {
    assert hist[..NumBins] == hist;
  }

  /** Longer prefixes never sum to less. */
  lemma {:induction false} PrefixSumGrows(s: seq<nat>, i: nat, j: nat)
    requires i <= j <= |s|
    ensures Sum(s[..i]) <= Sum(s[..j])
  {
    if i < j {
      PrefixSumGrows(s, i, j - 1);
      assert s[..j][..j - 1] == s[..j - 1];
    }
  }

  predicate NonDecreasing(cdf: seq<nat>)
  {
    forall i, j :: 0 <= i <= j < |cdf| ==> cdf[i] <= cdf[j]
  }

  /** The cumulative sums never decrease. */
  lemma CdfNonDecreasing(hist: seq<nat>)
    requires |hist| == NumBins
    ensures NonDecreasing(Cdf(hist))
  {
    forall i, j | 0 <= i <= j < NumBins
      ensures Cdf(hist)[i] <= Cdf(hist)[j]
    {
      PrefixSumGrows(hist, i + 1, j + 1);
    }
  }

  /** Bins that are all empty from k on add nothing past prefix k. */
  lemma {:induction false} SumEmptyTail(s: seq<nat>, k: nat)
    requires k <= |s|
    requires forall u :: k <= u < |s| ==> s[u] == 0
    ensures Sum(s[..k]) == Sum(s)
  {
    if k < |s| {
      SumEmptyTail(s[..|s| - 1], k);
      assert s[..|s| - 1][..k] == s[..k];
    } else {
      assert s[..k] == s;
    }
  }

  // ---------------------------------------------------------------------------
  // normalizecdf

  /** `scale || 1.0`: a zero scale is replaced by 1. */
  function EffectiveScale(scale: real): (s: real)
    ensures s != 0.0
    ensures scale != 0.0 ==> s == scale
    ensures scale == 0.0 ==> s == 1.0
  {
    if scale == 0.0 then 1.0 else scale
  }

  /** The cumulative sums divided by their total and multiplied by s. */
  function Normalized(cdf: seq<nat>, s: real): (ncdf: seq<real>)
    requires |cdf| == NumBins && cdf[NumBins - 1] != 0
    ensures |ncdf| == NumBins
  {
    seq(NumBins, i requires 0 <= i < NumBins => cdf[i] as real / cdf[NumBins - 1] as real * s)
  }

  /**
    `normalizecdf(cdf, scale)`. A zero total makes every entry NaN or
    infinite, which is None here.
   */
  method NormalizeCdf(cdf: seq<nat>, scale: real) returns (ncdf: Option<seq<real>>)
    requires |cdf| == NumBins
    ensures ncdf.None? <==> cdf[NumBins - 1] == 0
    ensures ncdf.Some? ==> cdf[NumBins - 1] != 0 && ncdf.value == Normalized(cdf, EffectiveScale(scale))
  {
    var s := EffectiveScale(scale);
    var total := cdf[NumBins - 1];
    if total == 0 {
      return None;
    }
    var out: seq<real> := [];
    var i := 0;
    while i < NumBins
      invariant 0 <= i <= NumBins
      invariant |out| == i
      invariant forall k :: 0 <= k < i ==> out[k] == cdf[k] as real / total as real * s
    {
      out := out + [cdf[i] as real / total as real * s];
      i := i + 1;
    }
    assert forall k :: 0 <= k < NumBins ==> out[k] == Normalized(cdf, s)[k];
    return Some(out);
  }

  /** The last normalised entry is the scale itself. */
  lemma NormalizedLast(cdf: seq<nat>, s: real)
    requires |cdf| == NumBins && cdf[NumBins - 1] != 0
    ensures Normalized(cdf, s)[NumBins - 1] == s
  {
  }

  lemma DivScaleMono(a: real, b: real, t: real, s: real)
    requires 0.0 <= a <= b && t > 0.0 && s > 0.0
    ensures 0.0 <= a / t * s <= b / t * s
  {
    assert a / t <= b / t;
  }

  lemma PositiveShare(c: nat, n: nat)
    requires c > 0 && n > 0
    ensures c as real / n as real * 255.0 > 0.0
  {
    DivScaleMono(0.0, c as real, n as real, 255.0);
    assert c as real / n as real > 0.0;
  }

  lemma WholeShare(n: nat)
    requires n > 0
    ensures n as real / n as real * 255.0 == 255.0
  {
    assert n as real / n as real == 1.0;
  }

  /** With a positive scale, the normalised sums never decrease ... */
  lemma NormalizedNonDecreasing(cdf: seq<nat>, s: real, i: nat, j: nat)
    requires |cdf| == NumBins && cdf[NumBins - 1] != 0 && NonDecreasing(cdf) && s > 0.0
    requires i <= j < NumBins
    ensures Normalized(cdf, s)[i] <= Normalized(cdf, s)[j]
  {
    DivScaleMono(cdf[i] as real, cdf[j] as real, cdf[NumBins - 1] as real, s);
  }

  /** ... and stay within [0, s]. */
  lemma NormalizedWithinScale(cdf: seq<nat>, s: real, i: nat)
    requires |cdf| == NumBins && cdf[NumBins - 1] != 0 && NonDecreasing(cdf) && s > 0.0
    requires i < NumBins
    ensures 0.0 <= Normalized(cdf, s)[i] <= s
  {
    var t := cdf[NumBins - 1] as real;
    DivScaleMono(cdf[i] as real, t, t, s);
    WholeScale(t, s);
  }

  lemma WholeScale(t: real, s: real)
    requires t > 0.0
    ensures t / t * s == s
  {
    assert t / t == 1.0;
  }

  // ---------------------------------------------------------------------------
  // The equalising remap

  /** `clamp(v, lower, upper)` with Math.max and Math.min. */
  function Clamp(v: real, lower: real, upper: real): (c: real)
    ensures lower <= upper ==> lower <= c <= upper
    ensures lower <= v <= upper ==> c == v
    ensures v < lower <= upper ==> c == lower
    ensures lower <= upper < v ==> c == upper
  {
    if lower > (if v < upper then v else upper) then lower else if v < upper then v else upper
  }

  /** `Math.round(clamp(v, 0, 255))`: always a sample value. */
  function Quantize(v: real): (b: Byte)
    ensures 0.0 <= v <= 255.0 ==> (v - 0.5 < b as real <= v + 0.5)
    ensures v >= 255.0 ==> b == 255
    ensures v <= 0.0 ==> b == 0
  {
    var c := Clamp(v, 0.0, 255.0);
    assert 0.0 <= c <= 255.0;
    CatmullRom.Round(c)
  }

  /**
    One channel c of a pixel with red lev, scaled by `ratio = cI / lev`. When
    lev is 0 the ratio is +Infinity for cI > 0 and NaN for cI == 0; then
    `c * ratio` is +Infinity for c > 0, which clamps to 255, and NaN
    otherwise, which Math.round keeps and the Uint8ClampedArray stores as 0.
   */
  function RemapChannel(cI: real, lev: Byte, c: Byte): (v: Byte)
    ensures lev > 0 && c == lev ==> v == Quantize(cI)
    ensures lev == 0 && c == 0 ==> v == 0
    ensures lev == 0 && c > 0 ==> (v == 255 <==> cI > 0.0)
    ensures lev == 0 ==> v == 0 || v == 255
  {
    if lev == 0 then (if cI > 0.0 && c > 0 then 255 else 0)
    else
      RatioCancels(cI, lev as real);
      Quantize(c as real * (cI / lev as real))
  }

  /** `lev * (cI / lev) == cI`: the red of a pixel scaled by its own ratio is the table entry. */
  lemma RatioCancels(cI: real, lev: real)
    requires lev > 0.0
    ensures lev * (cI / lev) == cI
  {
  }

  /** Round half up never reverses the order of its arguments. */
  lemma QuantizeMono(u: real, v: real)
    requires u <= v
    ensures Quantize(u) <= Quantize(v)
  {
    var cu, cv := Clamp(u, 0.0, 255.0), Clamp(v, 0.0, 255.0);
    assert cu <= cv;
    assert (cu + 0.5).Floor <= (cv + 0.5).Floor;
  }

  /** The table of the filter: the normalised cumulative histogram of the first n pixels, at scale 255. */
  function Table(org: seq<Byte>, n: nat): (t: seq<real>)
    requires 0 < n && 4 * n <= |org|
    ensures |t| == NumBins
  {
    var hist := HistogramOf(org, n);
    HistogramSum(org, n);
    ReadsInside(org, n);
    CdfLast(hist);
    Normalized(Cdf(hist), 255.0)
  }

  /** Sample k after the remap and the curve, from the snapshot org and the table. */
  function EqualizedAt(org: seq<Byte>, table: seq<real>, curve: Byte -> Byte, k: nat): Byte
    requires |org| % 4 == 0 && k < |org| && |table| == NumBins
  {
    if Channel(k) == 3 then org[k]
    else
      var lev := org[Base(k)];
      curve(RemapChannel(table[lev], lev, org[k]))
  }

  /** The buffer org after the pass that remaps every pixel through table and curve. */
  function Remapped(org: seq<Byte>, table: seq<real>, curve: Byte -> Byte): (out: seq<Byte>)
    requires |org| % 4 == 0 && |table| == NumBins
    ensures |out| == |org|
  {
    seq(|org|, k requires 0 <= k < |org| => EqualizedAt(org, table, curve, k))
  }

  /** The whole buffer after `equalize`; an empty frame is left as it is. */
  function Equalized(org: seq<Byte>, w: nat, h: nat, curve: Byte -> Byte): (out: seq<Byte>)
    requires |org| == w * h * 4
    ensures |out| == |org|
  {
    if w * h == 0 then org else Remapped(org, Table(org, w * h), curve)
  }

  /**
    `equalize(imageData, w, h)` with the tone curve's lookup as `curve`: the
    histogram of the whole frame, its cumulative sums normalised to 255, then
    the remapping pass.
   */
  method Equalize(data: array<Byte>, w: nat, h: nat, curve: Byte -> Byte)
    requires data.Length == w * h * 4
    modifies data
    ensures data[..] == Equalized(old(data[..]), w, h, curve)
  {
    var org := data[..];
    var hist := Histogram(org, 0, 0, w, h);
    var cdf := BuildCdf(hist);
    var cumuhist := NormalizeCdf(cdf, 255.0);
    HistogramCountsPixels(org, 0, 0, w, h);
    CdfLast(hist);
    if cumuhist.None? {
      // the total is zero only for a frame with no pixel, which the pass does not visit
      return;
    }
    assert cumuhist.value == Table(org, w * h);
    RemapPass(data, cumuhist.value, curve, w, h);
  }

  /**
    The pass of `equalize` over the pixels, row by row: each pixel reads only
    its own samples, which no earlier step of the pass has written.
   */
  method RemapPass(data: array<Byte>, table: seq<real>, curve: Byte -> Byte, w: nat, h: nat)
    requires data.Length == w * h * 4 && |table| == NumBins
    modifies data
    ensures data[..] == Remapped(old(data[..]), table, curve)
  {
    var org := data[..];
    ghost var out := Remapped(org, table, curve);
    var i := 0;
    while i < h
      invariant 0 <= i <= h
      invariant forall k :: 0 <= k < Idx(w, i, 0) && k < data.Length ==> data[k] == out[k]
      invariant forall k :: Idx(w, i, 0) <= k < data.Length ==> data[k] == org[k]
    {
      var j := 0;
      while j < w
        invariant 0 <= j <= w
        invariant forall k :: 0 <= k < Idx(w, i, j) && k < data.Length ==> data[k] == out[k]
        invariant forall k :: Idx(w, i, j) <= k < data.Length ==> data[k] == org[k]
      {
        IdxInFrame(w, h, i, j);
        IdxSteps(w, i, j);
        var index := Idx(w, i, j);
        ghost var before := data[..];
        EqualizePixel(data, org, table, curve, w, h, i, j);
        PixelDone(before, data[..], out, index);
        j := j + 1;
      }
      IdxSteps(w, i, w);
      i := i + 1;
    }
    IdxEnd(w, h);
  }

  /** The remap of one pixel, in the buffer, from its own current samples. */
  method EqualizePixel(data: array<Byte>, org: seq<Byte>, table: seq<real>, curve: Byte -> Byte,
                       w: nat, h: nat, i: nat, j: nat)
    requires data.Length == |org| == w * h * 4 && i < h && j < w && |table| == NumBins
    requires forall k :: Idx(w, i, j) <= k < data.Length ==> data[k] == org[k]
    modifies data
    ensures Idx(w, i, j) + 4 <= data.Length
    ensures forall k :: 0 <= k < data.Length && !(Idx(w, i, j) <= k < Idx(w, i, j) + 4) ==> data[k] == old(data[k])
    ensures data[Idx(w, i, j)] == EqualizedAt(org, table, curve, Idx(w, i, j))
    ensures data[Idx(w, i, j) + 1] == EqualizedAt(org, table, curve, Idx(w, i, j) + 1)
    ensures data[Idx(w, i, j) + 2] == EqualizedAt(org, table, curve, Idx(w, i, j) + 2)
    ensures data[Idx(w, i, j) + 3] == EqualizedAt(org, table, curve, Idx(w, i, j) + 3)
  {
    IdxInFrame(w, h, i, j);
    var index := Idx(w, i, j);
    IdxSplit(w, i, j, 0);
    IdxSplit(w, i, j, 1);
    IdxSplit(w, i, j, 2);
    IdxSplit(w, i, j, 3);
    var lev := data[index];
    var r := data[index];
    var g := data[index + 1];
    var b := data[index + 2];
    var cI := table[lev];
    data[index] := RemapChannel(cI, lev, r);
    data[index + 1] := RemapChannel(cI, lev, g);
    data[index + 2] := RemapChannel(cI, lev, b);
    data[index] := curve(data[index]);
    data[index + 1] := curve(data[index + 1]);
    data[index + 2] := curve(data[index + 2]);
    assert data[index + 3] == org[index + 3];
  }

  // ---------------------------------------------------------------------------
  // What the pass does to one pixel

  /**
    The samples of pixel (i, j) after `equalize`: R, G and B are each remapped
    with the table entry of the pixel's own red and passed through the curve;
    alpha is left as it was.
   */
  lemma EqualizedPixel(org: seq<Byte>, w: nat, h: nat, curve: Byte -> Byte, i: nat, j: nat)
    requires |org| == w * h * 4 && i < h && j < w
    ensures w * h > 0 && Idx(w, i, j) + 4 <= |org|
    ensures Equalized(org, w, h, curve)[Idx(w, i, j)] ==
              curve(RemapChannel(Table(org, w * h)[org[Idx(w, i, j)]], org[Idx(w, i, j)], org[Idx(w, i, j)]))
    ensures Equalized(org, w, h, curve)[Idx(w, i, j) + 1] ==
              curve(RemapChannel(Table(org, w * h)[org[Idx(w, i, j)]], org[Idx(w, i, j)], org[Idx(w, i, j) + 1]))
    ensures Equalized(org, w, h, curve)[Idx(w, i, j) + 2] ==
              curve(RemapChannel(Table(org, w * h)[org[Idx(w, i, j)]], org[Idx(w, i, j)], org[Idx(w, i, j) + 2]))
    ensures Equalized(org, w, h, curve)[Idx(w, i, j) + 3] == org[Idx(w, i, j) + 3]
  {
    IdxInFrame(w, h, i, j);
    FrameOfWholePixels(w, h);
    var k := Idx(w, i, j);
    var table := Table(org, w * h);
    IdxChannel(w, i, j, 0);
    IdxChannel(w, i, j, 1);
    IdxChannel(w, i, j, 2);
    IdxChannel(w, i, j, 3);
    RemappedColour(org, table, curve, k, k);
    RemappedColour(org, table, curve, k + 1, k);
    RemappedColour(org, table, curve, k + 2, k);
  }

  /** A colour sample x of the pixel that starts at b, after the pass. */
  lemma RemappedColour(org: seq<Byte>, table: seq<real>, curve: Byte -> Byte, x: nat, b: nat)
    requires |org| % 4 == 0 && x < |org| && |table| == NumBins
    requires Channel(x) != 3 && Base(x) == b
    ensures Remapped(org, table, curve)[x] == curve(RemapChannel(table[org[b]], org[b], org[x]))
  {
  }

  /** A pixel with red lev > 0 gets, before the curve, the quantised table entry of lev as its red. */
  lemma RedBecomesTableEntry(org: seq<Byte>, w: nat, h: nat, curve: Byte -> Byte, i: nat, j: nat)
    requires |org| == w * h * 4 && i < h && j < w
    requires RedAt(org, w, h, i, j) > 0
    ensures w * h > 0 && Idx(w, i, j) + 4 <= |org|
    ensures Equalized(org, w, h, curve)[Idx(w, i, j)] == curve(Quantize(Table(org, w * h)[org[Idx(w, i, j)]]))
  {
    EqualizedPixel(org, w, h, curve, i, j);
  }

  /** Entry v of the table: the share of the frame's pixels with red at most v, times 255. */
  lemma TableEntry(org: seq<Byte>, n: nat, v: nat)
    requires 0 < n && 4 * n <= |org| && v < NumBins
    ensures Table(org, n)[v] == Cdf(HistogramOf(org, n))[v] as real / n as real * 255.0
  {
    HistogramSum(org, n);
    ReadsInside(org, n);
    CdfLast(HistogramOf(org, n));
  }

  /**
    A pixel whose red is 0 keeps red 0 before the curve, and each of its green
    and blue becomes 255 when it is not 0: its own red is counted in bin 0, so
    the table entry is positive and the ratio `cI / 0` is infinite.
   */
  lemma ZeroRedPixel(org: seq<Byte>, w: nat, h: nat, curve: Byte -> Byte, i: nat, j: nat)
    requires |org| == w * h * 4 && i < h && j < w
    requires RedAt(org, w, h, i, j) == 0
    ensures Idx(w, i, j) + 4 <= |org|
    ensures Equalized(org, w, h, curve)[Idx(w, i, j)] == curve(0)
    ensures Equalized(org, w, h, curve)[Idx(w, i, j) + 1] == curve(if org[Idx(w, i, j) + 1] > 0 then 255 else 0)
    ensures Equalized(org, w, h, curve)[Idx(w, i, j) + 2] == curve(if org[Idx(w, i, j) + 2] > 0 then 255 else 0)
  {
    EqualizedPixel(org, w, h, curve, i, j);
    ZeroRedTablePositive(org, w, h, i, j);
  }

  /** Bin 0 holds the pixel itself, so table entry 0 is positive. */
  lemma ZeroRedTablePositive(org: seq<Byte>, w: nat, h: nat, i: nat, j: nat)
    requires |org| == w * h * 4 && i < h && j < w
    requires RedAt(org, w, h, i, j) == 0
    ensures w * h > 0 && Table(org, w * h)[0] > 0.0
  {
    IdxInFrame(w, h, i, j);
    var n := w * h;
    ZeroRedCounted(org, w, h, i, j);
    var hist := HistogramOf(org, n);
    CdfSteps(hist, 1);
    TableEntry(org, n, 0);
    PositiveShare(Cdf(hist)[0], n);
  }

  /** A pixel with red 0 is counted in bin 0. */
  lemma ZeroRedCounted(org: seq<Byte>, w: nat, h: nat, i: nat, j: nat)
    requires |org| == w * h * 4 && i < h && j < w
    requires RedAt(org, w, h, i, j) == 0
    ensures HistogramOf(org, w * h)[0] > 0
  {
    IdxInFrame(w, h, i, j);
    var q := i * w + j;
    assert 4 * q == Idx(w, i, j);
    CountSeen(org, w * h, q);
  }

  /**
    The pixels with the brightest red of the frame get red 255 before the
    curve: no pixel is counted above their bin, so their cumulative sum is the
    whole frame. In particular every pixel of a frame whose reds all equal one
    v > 0 gets red 255.
   */
  lemma BrightestRedSaturates(org: seq<Byte>, w: nat, h: nat, curve: Byte -> Byte, i: nat, j: nat)
    requires |org| == w * h * 4 && i < h && j < w
    requires RedAt(org, w, h, i, j) > 0
    requires forall q :: 0 <= q < w * h ==> Red(org, q) <= RedAt(org, w, h, i, j)
    ensures Idx(w, i, j) + 4 <= |org|
    ensures Equalized(org, w, h, curve)[Idx(w, i, j)] == curve(255)
  {
    RedBecomesTableEntry(org, w, h, curve, i, j);
    var n := w * h;
    var lev := org[Idx(w, i, j)];
    var hist := HistogramOf(org, n);
    forall u | lev < u < NumBins
      ensures hist[u] == 0
    {
      CountUnseen(org, n, u);
    }
    SumEmptyTail(hist, lev + 1);
    HistogramSum(org, n);
    ReadsInside(org, n);
    TableEntry(org, n, lev);
    assert Cdf(hist)[lev] == n;
    WholeShare(n);
  }

  /**
    With a non-decreasing curve, a pixel whose red is not below another's
    does not end up with a darker red.
   */
  lemma RedOrderKept(org: seq<Byte>, w: nat, h: nat, curve: Byte -> Byte, i1: nat, j1: nat, i2: nat, j2: nat)
    requires |org| == w * h * 4 && i1 < h && j1 < w && i2 < h && j2 < w
    requires RedAt(org, w, h, i1, j1) <= RedAt(org, w, h, i2, j2)
    requires forall a: Byte, b: Byte :: a <= b ==> curve(a) <= curve(b)
    ensures Idx(w, i1, j1) + 4 <= |org| && Idx(w, i2, j2) + 4 <= |org|
    ensures Equalized(org, w, h, curve)[Idx(w, i1, j1)] <= Equalized(org, w, h, curve)[Idx(w, i2, j2)]
  {
    if RedAt(org, w, h, i1, j1) == 0 {
      ZeroRedPixel(org, w, h, curve, i1, j1);
      EqualizedPixel(org, w, h, curve, i2, j2);
    } else {
      PositiveRedOrderKept(org, w, h, curve, i1, j1, i2, j2);
    }
  }

  /** The case of RedOrderKept where both reds are above 0. */
  lemma PositiveRedOrderKept(org: seq<Byte>, w: nat, h: nat, curve: Byte -> Byte, i1: nat, j1: nat, i2: nat, j2: nat)
    requires |org| == w * h * 4 && i1 < h && j1 < w && i2 < h && j2 < w
    requires 0 < RedAt(org, w, h, i1, j1) <= RedAt(org, w, h, i2, j2)
    requires forall a: Byte, b: Byte :: a <= b ==> curve(a) <= curve(b)
    ensures Idx(w, i1, j1) + 4 <= |org| && Idx(w, i2, j2) + 4 <= |org|
    ensures Equalized(org, w, h, curve)[Idx(w, i1, j1)] <= Equalized(org, w, h, curve)[Idx(w, i2, j2)]
  {
    RedBecomesTableEntry(org, w, h, curve, i1, j1);
    RedBecomesTableEntry(org, w, h, curve, i2, j2);
    var n := w * h;
    var hist := HistogramOf(org, n);
    var l1, l2 := org[Idx(w, i1, j1)], org[Idx(w, i2, j2)];
    CdfNonDecreasing(hist);
    HistogramSum(org, n);
    ReadsInside(org, n);
    CdfLast(hist);
    NormalizedNonDecreasing(Cdf(hist), 255.0, l1, l2);
    QuantizeMono(Table(org, n)[l1], Table(org, n)[l2]);
  }
}
