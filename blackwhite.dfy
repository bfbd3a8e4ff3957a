/**
  The black/white threshold filter: every pixel's red, green and blue become
  0 when its rounded weighted luma is below the threshold and 255 otherwise;
  alpha is left as it is.
 */
module BlackWhiteThreshold {
  import opened Pixels

  /** The class default of `threshold`. */
  const DefaultThreshold: int := 127

  /** The filter's one option. */
  datatype BlackWhiteConfig = BlackWhiteConfig(threshold: int)

  /** `threshold || 127`: a zero threshold is replaced by the default. */
  function EffectiveThreshold(t: int): (e: int)
    ensures e != 0
    ensures t != 0 ==> e == t
    ensures t == 0 ==> e == DefaultThreshold
  {
    if t == 0 then DefaultThreshold else t
  }

  /**
    `(r * 0.3 + g * 0.59 + b * 0.11).toFixed(0)` in exact hundredths: the
    weighted sum rounded to the nearest integer, halves rounded up.
   */
  function Luma(r: Byte, g: Byte, b: Byte): (l: int)
    ensures 100 * l - 50 <= 30 * r + 59 * g + 11 * b < 100 * l + 50
    ensures 0 <= l <= 255
  {
    (30 * r + 59 * g + 11 * b + 50) / 100
  }

  /** The value written into R, G and B of a pixel. */
  function Binarize(r: Byte, g: Byte, b: Byte, t: int): (v: Byte)
    ensures v == 0 || v == 255
    ensures v == 0 <==> Luma(r, g, b) < t
  {
    if Luma(r, g, b) < t then 0 else 255
  }

  /** Sample k of the buffer after the filter ran on org with effective threshold t. */
  function BlackWhiteAt(org: seq<Byte>, t: int, k: nat): Byte
    requires |org| % 4 == 0 && k < |org|
  {
    BaseInBuffer(|org|, k);
    if Channel(k) == 3 then org[k]
    else Binarize(org[Base(k)], org[Base(k) + 1], org[Base(k) + 2], t)
  }

  /** The whole buffer after the filter ran on org with effective threshold t. */
  function BlackWhite(org: seq<Byte>, t: int): (out: seq<Byte>)
    requires |org| % 4 == 0
    ensures |out| == |org|
  {
    seq(|org|, k requires 0 <= k < |org| => BlackWhiteAt(org, t, k))
  }

  /**
    `applyTo2d`: one pass over the pixels, row by row. The local threshold is
    replaced by `threshold || 127` at every pixel, which after the first pixel
    changes nothing.
   */
  method ApplyTo2d(config: BlackWhiteConfig, data: array<Byte>, w: nat, h: nat)
    requires data.Length == w * h * 4
    modifies data
    ensures data[..] == BlackWhite(old(data[..]), EffectiveThreshold(config.threshold))
  {
    var threshold := config.threshold;
    var org := data[..];
    FrameOfWholePixels(w, h);
    ghost var t := EffectiveThreshold(config.threshold);
    ghost var out := BlackWhite(org, t);
    IdxSteps(w, 0, 0);
    var i := 0;
    while i < h
      invariant 0 <= i <= h
      invariant EffectiveThreshold(threshold) == t
      invariant forall k :: 0 <= k < Idx(w, i, 0) && k < data.Length ==> data[k] == out[k]
      invariant forall k :: Idx(w, i, 0) <= k < data.Length ==> data[k] == org[k]
    {
      threshold := BinarizeRow(data, org, out, threshold, t, w, h, i);
      i := i + 1;
    }
    IdxEnd(w, h);
  }

  /** The column loop over row i: afterwards rows 0 .. i are done; returns the reassigned threshold. */
  method BinarizeRow(data: array<Byte>, org: seq<Byte>, ghost out: seq<Byte>, t0: int, ghost t: int, w: nat, h: nat, i: nat)
      returns (threshold: int)
    requires data.Length == |org| == w * h * 4 && i < h
    requires EffectiveThreshold(t0) == t && |org| % 4 == 0 && out == BlackWhite(org, t)
    requires forall k :: 0 <= k < Idx(w, i, 0) && k < data.Length ==> data[k] == out[k]
    requires forall k :: Idx(w, i, 0) <= k < data.Length ==> data[k] == org[k]
    modifies data
    ensures EffectiveThreshold(threshold) == t
    ensures forall k :: 0 <= k < Idx(w, i + 1, 0) && k < data.Length ==> data[k] == out[k]
    ensures forall k :: Idx(w, i + 1, 0) <= k < data.Length ==> data[k] == org[k]
  {
    threshold := t0;
    var j := 0;
    while j < w
      invariant 0 <= j <= w
      invariant EffectiveThreshold(threshold) == t
      invariant forall k :: 0 <= k < Idx(w, i, j) && k < data.Length ==> data[k] == out[k]
      invariant forall k :: Idx(w, i, j) <= k < data.Length ==> data[k] == org[k]
    {
      IdxInFrame(w, h, i, j);
      IdxSteps(w, i, j);
      var index := Idx(w, i, j);
      ghost var before := data[..];
      threshold := BinarizePixel(data, org, threshold, w, h, i, j);
      BlackWhitePixel(org, t, w, h, i, j);
      PixelDone(before, data[..], out, index);
      j := j + 1;
    }
    IdxSteps(w, i, w);
  }

  /** The body of the pass for pixel (i, j); returns the reassigned threshold. */
  method BinarizePixel(data: array<Byte>, org: seq<Byte>, t0: int, w: nat, h: nat, i: nat, j: nat)
      returns (threshold: int)
    requires data.Length == |org| == w * h * 4 && i < h && j < w
    requires forall k :: Idx(w, i, j) <= k < data.Length ==> data[k] == org[k]
    modifies data
    ensures threshold == EffectiveThreshold(t0)
    ensures Idx(w, i, j) + 4 <= data.Length
    ensures forall k :: 0 <= k < data.Length && !(Idx(w, i, j) <= k < Idx(w, i, j) + 4) ==> data[k] == old(data[k])
    ensures data[Idx(w, i, j)] == Binarize(org[Idx(w, i, j)], org[Idx(w, i, j) + 1], org[Idx(w, i, j) + 2], threshold)
    ensures data[Idx(w, i, j) + 1] == data[Idx(w, i, j)] && data[Idx(w, i, j) + 2] == data[Idx(w, i, j)]
    ensures data[Idx(w, i, j) + 3] == org[Idx(w, i, j) + 3]
  {
    IdxInFrame(w, h, i, j);
    var index := Idx(w, i, j);
    var average := Luma(data[index], data[index + 1], data[index + 2]);
    threshold := EffectiveThreshold(t0);
    var value: Byte := if average < threshold then 0 else 255;
    data[index] := value;
    data[index + 1] := value;
    data[index + 2] := value;
    assert data[index + 3] == org[index + 3];
  }

  // ---------------------------------------------------------------------------
  // Properties of the filtered buffer

  /** The samples of pixel (i, j) after the filter. */
  lemma BlackWhitePixel(org: seq<Byte>, t: int, w: nat, h: nat, i: nat, j: nat)
    requires |org| == w * h * 4 && i < h && j < w
    ensures Idx(w, i, j) + 4 <= |org| && |org| % 4 == 0
    ensures var v := Binarize(org[Idx(w, i, j)], org[Idx(w, i, j) + 1], org[Idx(w, i, j) + 2], t);
      && BlackWhite(org, t)[Idx(w, i, j)] == v
      && BlackWhite(org, t)[Idx(w, i, j) + 1] == v
      && BlackWhite(org, t)[Idx(w, i, j) + 2] == v
    ensures BlackWhite(org, t)[Idx(w, i, j) + 3] == org[Idx(w, i, j) + 3]
  {
    IdxInFrame(w, h, i, j);
    FrameOfWholePixels(w, h);
    var k := Idx(w, i, j);
    IdxChannel(w, i, j, 0);
    IdxChannel(w, i, j, 3);
    ColourOfPixel(org, t, k, 0);
    ColourOfPixel(org, t, k, 1);
    ColourOfPixel(org, t, k, 2);
    AlphaKept(org, t, k + 3);
  }

  /**
    Every pixel becomes gray, black or white: R = G = B, each 0 or 255, and it
    is black exactly when its luma is below the threshold.
   */
  lemma PixelIsBlackOrWhite(org: seq<Byte>, t: int, w: nat, h: nat, i: nat, j: nat)
    requires |org| == w * h * 4 && i < h && j < w
    ensures Idx(w, i, j) + 4 <= |org| && |org| % 4 == 0
    ensures BlackWhite(org, t)[Idx(w, i, j)] == BlackWhite(org, t)[Idx(w, i, j) + 1] == BlackWhite(org, t)[Idx(w, i, j) + 2]
    ensures BlackWhite(org, t)[Idx(w, i, j)] == 0 || BlackWhite(org, t)[Idx(w, i, j)] == 255
    ensures BlackWhite(org, t)[Idx(w, i, j)] == 0 <==> Luma(org[Idx(w, i, j)], org[Idx(w, i, j) + 1], org[Idx(w, i, j) + 2]) < t
  {
    BlackWhitePixel(org, t, w, h, i, j);
  }

  /** Alpha is never written. */
  lemma AlphaKept(org: seq<Byte>, t: int, k: nat)
    requires |org| % 4 == 0 && k < |org| && Channel(k) == 3
    ensures BlackWhite(org, t)[k] == org[k]
  {
  }

  /** A pixel at least as bright as a pixel that turns white turns white too. */
  lemma WhiteIsUpwardClosed(r1: Byte, g1: Byte, b1: Byte, r2: Byte, g2: Byte, b2: Byte, t: int)
    requires Binarize(r1, g1, b1, t) == 255
    requires Luma(r1, g1, b1) <= Luma(r2, g2, b2)
    ensures Binarize(r2, g2, b2, t) == 255
  {
  }

  /** A black pixel stays black under any threshold that can make a pixel black ... */
  lemma BlackIsFixed(t: int)
    requires t > 0
    ensures Binarize(0, 0, 0, t) == 0
  {
  }

  /** ... and a white pixel stays white under any threshold that can make a pixel white. */
  lemma WhiteIsFixed(t: int)
    requires t <= 255
    ensures Binarize(255, 255, 255, t) == 255
  {
  }

  /** So a pixel the filter produced is mapped to itself by the same threshold. */
  lemma BinarizedIsFixed(r: Byte, g: Byte, b: Byte, t: int)
    ensures var v := Binarize(r, g, b, t); Binarize(v, v, v, t) == v
  {
    if Luma(r, g, b) < t {
      BlackIsFixed(t);
    } else {
      WhiteIsFixed(t);
    }
  }

  /** Colour sample c of the pixel that holds offset k, after the filter. */
  lemma ColourOfPixel(org: seq<Byte>, t: int, k: nat, c: nat)
    requires |org| % 4 == 0 && k < |org| && c < 3
    ensures Base(k) + 4 <= |org|
    ensures BlackWhite(org, t)[Base(k) + c] == Binarize(org[Base(k)], org[Base(k) + 1], org[Base(k) + 2], t)
  {
    BaseInBuffer(|org|, k);
    BaseSplit(k, c);
    ColourAt(org, t, Base(k) + c, Base(k));
  }

  /** A colour sample x whose pixel starts at b, after the filter. */
  lemma ColourAt(org: seq<Byte>, t: int, x: nat, b: nat)
    requires |org| % 4 == 0 && x < |org| && b + 2 < |org|
    requires Channel(x) != 3 && Base(x) == b
    ensures BlackWhite(org, t)[x] == Binarize(org[b], org[b + 1], org[b + 2], t)
  {
    assert BlackWhite(org, t)[x] == BlackWhiteAt(org, t, x);
  }

  /** Running the filter a second time with the same threshold changes nothing. */
  lemma BlackWhiteIdempotent(org: seq<Byte>, t: int)
    requires |org| % 4 == 0
    ensures BlackWhite(BlackWhite(org, t), t) == BlackWhite(org, t)
  {
    var once := BlackWhite(org, t);
    forall k | 0 <= k < |org|
      ensures BlackWhite(once, t)[k] == once[k]
    {
      BaseInBuffer(|org|, k);
      if Channel(k) != 3 {
        var b := Base(k);
        ColourOfPixel(org, t, k, 0);
        ColourOfPixel(org, t, k, 1);
        ColourOfPixel(org, t, k, 2);
        ColourOfPixel(org, t, k, Channel(k));
        BinarizedIsFixed(org[b], org[b + 1], org[b + 2], t);
      }
    }
  }
}
