/**
  The windowed minimum/maximum filter (MinMaxvalue).

  For every pixel the filter scans a square window of the red channel of a
  snapshot taken before any write, clamping window coordinates into the frame,
  and writes the window's minimum (mode "min") or maximum (mode "max") into the
  pixel's red, green and blue samples. Alpha is never written; any other mode
  leaves the buffer as it was.
 */
module MinMaxValue {
  import opened Pixels

  /** The filter's parameters: its `blocksize` and its `mode` string. */
  datatype MinMaxConfig = MinMaxConfig(blocksize: nat, mode: string)
  {
    /** The filter's own neutrality test, as written: a configuration it calls neutral still scans a 2-by-2 window. */
    function IsNeutralState(): (b: bool)
      ensures b ==> Radius(blocksize) == 1
    {
      blocksize == 1
    }

    /** A neutrality test that holds exactly when no image is changed by the filter. */
    function IsNoOp(): (b: bool)
      ensures b <==> ModeOf(mode) == OtherMode
    {
      mode != "min" && mode != "max"
    }
  }

  /**
    The radius `(blocksize / 2).toFixed(0)`: toFixed rounds to the nearest
    integer and takes the larger one on a tie.
   */
  function Radius(blocksize: nat): (r: nat)
    ensures forall n: int {:trigger HalfDistance(n, blocksize)} ::
              HalfDistance(r, blocksize) <= HalfDistance(n, blocksize)
    ensures forall n: int {:trigger HalfDistance(n, blocksize)} ::
              HalfDistance(n, blocksize) == HalfDistance(r, blocksize) ==> n <= r
  {
    (blocksize + 1) / 2
  }

  /** Twice the distance between n and blocksize / 2. */
  function HalfDistance(n: int, blocksize: nat): nat
  {
    if 2 * n >= blocksize then 2 * n - blocksize else blocksize - 2 * n
  }

  function Min(a: int, b: int): int { if a <= b then a else b }

  function Max(a: int, b: int): int { if a >= b then a else b }

  /** `Math.min(Math.max(0, v), hi)`: the coordinate v pulled into [0, hi]. */
  function Clamp(v: int, hi: nat): (c: nat)
    ensures c <= hi
    ensures 0 <= v <= hi ==> c == v
    ensures v < 0 ==> c == 0
    ensures v > hi ==> c == hi
  {
    Min(Max(0, v), hi)
  }

  /** The offset the filter reads for window position (i, j) of a w-by-h frame: always inside it. */
  function WindowIndex(w: nat, h: nat, i: int, j: int): (k: nat)
    requires w > 0 && h > 0
    ensures k + 4 <= w * h * 4
  {
    IdxInFrame(w, h, Clamp(i, h - 1), Clamp(j, w - 1));
    Idx(w, Clamp(i, h - 1), Clamp(j, w - 1))
  }

  /**
    Every read of the scan is the red sample of the pixel at the clamped
    position: a multiple of four, inside the frame, in row Clamp(i, h - 1) and
    column Clamp(j, w - 1).
   */
  lemma WindowReadsRed(w: nat, h: nat, i: int, j: int)
    requires w > 0 && h > 0
    ensures Channel(WindowIndex(w, h, i, j)) == 0
    ensures WindowIndex(w, h, i, j) + 4 <= w * h * 4
    ensures Row(w, WindowIndex(w, h, i, j)) == Clamp(i, h - 1)
    ensures Col(w, WindowIndex(w, h, i, j)) == Clamp(j, w - 1)
  {
    IdxSplit(w, Clamp(i, h - 1), Clamp(j, w - 1), 0);
  }

  /** The red sample the scan of pixel (i, j) reads at window offset (di, dj). */
  function Sample(org: seq<Byte>, w: nat, h: nat, i: nat, j: nat, di: int, dj: int): Byte
    requires InFrame(org, w, h, i, j)
  {
    org[WindowIndex(w, h, i + di, j + dj)]
  }

  predicate InFrame(org: seq<Byte>, w: nat, h: nat, i: nat, j: nat)
  {
    |org| == w * h * 4 && i < h && j < w
  }

  /** 255 folded by Min with the samples at row offset di and column offsets -r .. -r + n - 1. */
  function RowMin(org: seq<Byte>, w: nat, h: nat, i: nat, j: nat, r: nat, di: int, n: nat): Byte
    requires InFrame(org, w, h, i, j)
  {
    if n == 0 then 255 else Min(RowMin(org, w, h, i, j, r, di, n - 1), Sample(org, w, h, i, j, di, n - 1 - r as int))
  }

  /** 255 folded by Min with the full rows at offsets -r .. -r + n - 1. */
  function BlockMin(org: seq<Byte>, w: nat, h: nat, i: nat, j: nat, r: nat, n: nat): Byte
    requires InFrame(org, w, h, i, j)
  {
    if n == 0 then 255 else Min(BlockMin(org, w, h, i, j, r, n - 1), RowMin(org, w, h, i, j, r, n - 1 - r as int, 2 * r))
  }

  /** The value `minValue` the scan of pixel (i, j) ends with. */
  function WinMin(org: seq<Byte>, w: nat, h: nat, i: nat, j: nat, r: nat): Byte
    requires InFrame(org, w, h, i, j)
  {
    BlockMin(org, w, h, i, j, r, 2 * r)
  }

  /** 0 folded by Max with the samples at row offset di and column offsets -r .. -r + n - 1. */
  function RowMax(org: seq<Byte>, w: nat, h: nat, i: nat, j: nat, r: nat, di: int, n: nat): Byte
    requires InFrame(org, w, h, i, j)
  {
    if n == 0 then 0 else Max(RowMax(org, w, h, i, j, r, di, n - 1), Sample(org, w, h, i, j, di, n - 1 - r as int))
  }

  /** 0 folded by Max with the full rows at offsets -r .. -r + n - 1. */
  function BlockMax(org: seq<Byte>, w: nat, h: nat, i: nat, j: nat, r: nat, n: nat): Byte
    requires InFrame(org, w, h, i, j)
  {
    if n == 0 then 0 else Max(BlockMax(org, w, h, i, j, r, n - 1), RowMax(org, w, h, i, j, r, n - 1 - r as int, 2 * r))
  }

  /** The value `maxValue` the scan of pixel (i, j) ends with. */
  function WinMax(org: seq<Byte>, w: nat, h: nat, i: nat, j: nat, r: nat): Byte
    requires InFrame(org, w, h, i, j)
  {
    BlockMax(org, w, h, i, j, r, 2 * r)
  }

  /** The modes `applyTo2d` tells apart. */
  datatype Mode = MinMode | MaxMode | OtherMode

  function ModeOf(mode: string): (m: Mode)
    ensures m == MinMode <==> mode == "min"
    ensures m == MaxMode <==> mode == "max"
    ensures m == OtherMode <==> mode != "min" && mode != "max"
  {
    if mode == "min" then MinMode else if mode == "max" then MaxMode else OtherMode
  }

  /** The sample at offset k after the filter ran on snapshot org. */
  function FilteredAt(org: seq<Byte>, w: nat, h: nat, r: nat, mode: Mode, k: nat): Byte
    requires |org| == w * h * 4 && k < |org|
  {
    if Channel(k) == 3 || mode == OtherMode then org[k]
    else
      RowColInFrame(w, h, k);
      if mode == MinMode then WinMin(org, w, h, Row(w, k), Col(w, k), r)
      else WinMax(org, w, h, Row(w, k), Col(w, k), r)
  }

  /** The whole buffer after the filter ran on snapshot org. */
  function Filtered(org: seq<Byte>, w: nat, h: nat, r: nat, mode: Mode): (out: seq<Byte>)
    requires |org| == w * h * 4
    ensures |out| == |org|
  {
    seq(|org|, k requires 0 <= k < |org| => FilteredAt(org, w, h, r, mode, k))
  }

  /**
    `applyTo2d`: snapshot the buffer, then for each pixel scan its window in the
    snapshot and write the minimum or maximum into red, green and blue.
   */
  method ApplyTo2d(config: MinMaxConfig, data: array<Byte>, w: nat, h: nat)
    requires data.Length == w * h * 4
    modifies data
    ensures data[..] == Filtered(old(data[..]), w, h, Radius(config.blocksize), ModeOf(config.mode))
  {
    var mode := config.mode;
    var radius := Radius(config.blocksize);
    var org := data[..];
    ghost var out := Filtered(org, w, h, radius, ModeOf(mode));
    IdxSteps(w, 0, 0);
    var i := 0;
    while i < h
      invariant 0 <= i <= h
      invariant forall k :: 0 <= k < Idx(w, i, 0) && k < data.Length ==> data[k] == out[k]
      invariant forall k :: Idx(w, i, 0) <= k < data.Length ==> data[k] == org[k]
    {
      FilterRow(data, org, out, w, h, radius, mode, i);
      i := i + 1;
    }
    IdxEnd(w, h);
  }

  /** The column loop of `applyTo2d` over row i: afterwards rows 0 .. i are filtered. */
  method FilterRow(data: array<Byte>, org: seq<Byte>, ghost out: seq<Byte>, w: nat, h: nat, radius: nat, mode: string, i: nat)
    requires data.Length == |org| == w * h * 4 && i < h
    requires out == Filtered(org, w, h, radius, ModeOf(mode))
    requires forall k :: 0 <= k < Idx(w, i, 0) && k < data.Length ==> data[k] == out[k]
    requires forall k :: Idx(w, i, 0) <= k < data.Length ==> data[k] == org[k]
    modifies data
    ensures forall k :: 0 <= k < Idx(w, i + 1, 0) && k < data.Length ==> data[k] == out[k]
    ensures forall k :: Idx(w, i + 1, 0) <= k < data.Length ==> data[k] == org[k]
  {
    var j := 0;
    while j < w
      invariant 0 <= j <= w
      invariant forall k :: 0 <= k < Idx(w, i, j) && k < data.Length ==> data[k] == out[k]
      invariant forall k :: Idx(w, i, j) <= k < data.Length ==> data[k] == org[k]
    {
      var index := Idx(w, i, j);
      IdxInFrame(w, h, i, j);
      IdxSteps(w, i, j);
      ghost var before := data[..];
      FilterPixel(data, org, out, w, h, radius, mode, i, j);
      PixelDone(before, data[..], out, index);
      j := j + 1;
    }
    IdxSteps(w, i, w);
  }

  /**
    The body of the pixel loop: scan the window of pixel (i, j), then write
    red, green and blue, so that the pixel's four samples become those of
    the filtered buffer `out`.
   */
  method FilterPixel(data: array<Byte>, org: seq<Byte>, ghost out: seq<Byte>, w: nat, h: nat, radius: nat, mode: string, i: nat, j: nat)
    requires data.Length == |org| && InFrame(org, w, h, i, j)
    requires out == Filtered(org, w, h, radius, ModeOf(mode))
    requires forall k :: Idx(w, i, j) <= k < data.Length ==> data[k] == org[k]
    modifies data
    ensures Idx(w, i, j) + 4 <= data.Length == |out|
    ensures forall k :: 0 <= k < data.Length && !(Idx(w, i, j) <= k < Idx(w, i, j) + 4) ==> data[k] == old(data[k])
    ensures data[Idx(w, i, j)] == out[Idx(w, i, j)] && data[Idx(w, i, j) + 1] == out[Idx(w, i, j) + 1]
    ensures data[Idx(w, i, j) + 2] == out[Idx(w, i, j) + 2] && data[Idx(w, i, j) + 3] == out[Idx(w, i, j) + 3]
  {
    var index := Idx(w, i, j);
    IdxInFrame(w, h, i, j);
    FilteredPixel(org, w, h, radius, ModeOf(mode), i, j);
    var minValue, maxValue := ScanWindow(org, w, h, i, j, radius);
    if mode == "min" {
      data[index] := minValue;
      data[index + 1] := minValue;
      data[index + 2] := minValue;
    }
    if mode == "max" {
      data[index] := maxValue;
      data[index + 1] := maxValue;
      data[index + 2] := maxValue;
    }
  }

  /**
    The window scan of pixel (i, j): rows i - r .. i + r - 1 and columns
    j - r .. j + r - 1 of the snapshot, each clamped into the frame, with
    running accumulators started at 255 and 0.
   */
  method ScanWindow(org: seq<Byte>, w: nat, h: nat, i: nat, j: nat, r: nat)
      returns (minValue: Byte, maxValue: Byte)
    requires InFrame(org, w, h, i, j)
    ensures minValue == WinMin(org, w, h, i, j, r)
    ensures maxValue == WinMax(org, w, h, i, j, r)
  {
    minValue, maxValue := 255, 0;
    var di: int := -(r as int);
    while di < r
      invariant 0 <= di + r <= 2 * r
      invariant minValue == BlockMin(org, w, h, i, j, r, di + r)
      invariant maxValue == BlockMax(org, w, h, i, j, r, di + r)
    {
      minValue, maxValue := ScanRow(org, w, h, i, j, r, di, minValue, maxValue);
      di := di + 1;
    }
  }

  /** One row of the window scan: row offset di, column offsets -r .. r - 1. */
  method ScanRow(org: seq<Byte>, w: nat, h: nat, i: nat, j: nat, r: nat, di: int, min0: Byte, max0: Byte)
      returns (minValue: Byte, maxValue: Byte)
    requires InFrame(org, w, h, i, j)
    ensures minValue == Min(min0, RowMin(org, w, h, i, j, r, di, 2 * r))
    ensures maxValue == Max(max0, RowMax(org, w, h, i, j, r, di, 2 * r))
  {
    minValue, maxValue := min0, max0;
    var dj: int := -(r as int);
    while dj < r
      invariant 0 <= dj + r <= 2 * r
      invariant minValue == Min(min0, RowMin(org, w, h, i, j, r, di, dj + r))
      invariant maxValue == Max(max0, RowMax(org, w, h, i, j, r, di, dj + r))
    {
      var ci := Clamp(di + i, h - 1);
      var cj := Clamp(dj + j, w - 1);
      var index := Idx(w, ci, cj);
      assert index == WindowIndex(w, h, i + di, j + dj);
      assert org[index] == Sample(org, w, h, i, j, di, dj);
      minValue := Min(minValue, org[index]);
      maxValue := Max(maxValue, org[index]);
      dj := dj + 1;
    }
  }

  // ---------------------------------------------------------------------------
  // What the window accumulators compute

  lemma {:induction false} RowMinIsMinimum(org: seq<Byte>, w: nat, h: nat, i: nat, j: nat, r: nat, di: int, n: nat)
    requires InFrame(org, w, h, i, j)
    ensures forall dj: int :: 0 <= dj + r < n ==> RowMin(org, w, h, i, j, r, di, n) <= Sample(org, w, h, i, j, di, dj)
    ensures n > 0 ==> (exists dj: int :: 0 <= dj + r < n && RowMin(org, w, h, i, j, r, di, n) == Sample(org, w, h, i, j, di, dj))
  {
    if n > 0 {
      RowMinIsMinimum(org, w, h, i, j, r, di, n - 1);
    }
  }

  lemma {:induction false} BlockMinIsMinimum(org: seq<Byte>, w: nat, h: nat, i: nat, j: nat, r: nat, n: nat)
    requires InFrame(org, w, h, i, j)
    ensures forall di: int, dj: int :: 0 <= di + r < n && 0 <= dj + r < 2 * r ==>
              BlockMin(org, w, h, i, j, r, n) <= Sample(org, w, h, i, j, di, dj)
    ensures n > 0 && r > 0 ==>
              exists di: int, dj: int :: 0 <= di + r < n && 0 <= dj + r < 2 * r &&
                BlockMin(org, w, h, i, j, r, n) == Sample(org, w, h, i, j, di, dj)
  {
    if n > 0 {
      BlockMinIsMinimum(org, w, h, i, j, r, n - 1);
      RowMinIsMinimum(org, w, h, i, j, r, n - 1 - r as int, 2 * r);
    }
  }

  /**
    The minimum over the window: no window sample is below it, with radius 0 it
    is the initial 255, and otherwise some window sample equals it.
   */
  lemma WinMinIsMinimum(org: seq<Byte>, w: nat, h: nat, i: nat, j: nat, r: nat)
    requires InFrame(org, w, h, i, j)
    ensures forall di: int, dj: int :: 0 <= di + r < 2 * r && 0 <= dj + r < 2 * r ==>
              WinMin(org, w, h, i, j, r) <= Sample(org, w, h, i, j, di, dj)
    ensures r > 0 ==>
              exists di: int, dj: int :: 0 <= di + r < 2 * r && 0 <= dj + r < 2 * r &&
                WinMin(org, w, h, i, j, r) == Sample(org, w, h, i, j, di, dj)
    ensures r == 0 ==> WinMin(org, w, h, i, j, r) == 255
  {
    BlockMinIsMinimum(org, w, h, i, j, r, 2 * r);
  }

  lemma {:induction false} RowMaxIsMaximum(org: seq<Byte>, w: nat, h: nat, i: nat, j: nat, r: nat, di: int, n: nat)
    requires InFrame(org, w, h, i, j)
    ensures forall dj: int :: 0 <= dj + r < n ==> RowMax(org, w, h, i, j, r, di, n) >= Sample(org, w, h, i, j, di, dj)
    ensures n > 0 ==> (exists dj: int :: 0 <= dj + r < n && RowMax(org, w, h, i, j, r, di, n) == Sample(org, w, h, i, j, di, dj))
  {
    if n > 0 {
      RowMaxIsMaximum(org, w, h, i, j, r, di, n - 1);
    }
  }

  lemma {:induction false} BlockMaxIsMaximum(org: seq<Byte>, w: nat, h: nat, i: nat, j: nat, r: nat, n: nat)
    requires InFrame(org, w, h, i, j)
    ensures forall di: int, dj: int :: 0 <= di + r < n && 0 <= dj + r < 2 * r ==>
              BlockMax(org, w, h, i, j, r, n) >= Sample(org, w, h, i, j, di, dj)
    ensures n > 0 && r > 0 ==>
              exists di: int, dj: int :: 0 <= di + r < n && 0 <= dj + r < 2 * r &&
                BlockMax(org, w, h, i, j, r, n) == Sample(org, w, h, i, j, di, dj)
  {
    if n > 0 {
      BlockMaxIsMaximum(org, w, h, i, j, r, n - 1);
      RowMaxIsMaximum(org, w, h, i, j, r, n - 1 - r as int, 2 * r);
    }
  }

  /**
    The maximum over the window: no window sample is above it, with radius 0 it
    is the initial 0, and otherwise some window sample equals it.
   */
  lemma WinMaxIsMaximum(org: seq<Byte>, w: nat, h: nat, i: nat, j: nat, r: nat)
    requires InFrame(org, w, h, i, j)
    ensures forall di: int, dj: int :: 0 <= di + r < 2 * r && 0 <= dj + r < 2 * r ==>
              WinMax(org, w, h, i, j, r) >= Sample(org, w, h, i, j, di, dj)
    ensures r > 0 ==>
              exists di: int, dj: int :: 0 <= di + r < 2 * r && 0 <= dj + r < 2 * r &&
                WinMax(org, w, h, i, j, r) == Sample(org, w, h, i, j, di, dj)
    ensures r == 0 ==> WinMax(org, w, h, i, j, r) == 0
  {
    BlockMaxIsMaximum(org, w, h, i, j, r, 2 * r);
  }

  // ---------------------------------------------------------------------------
  // Properties of the filtered buffer

  /** What the filter writes over a colour sample `prior` of pixel (i, j). */
  function Written(org: seq<Byte>, w: nat, h: nat, r: nat, mode: Mode, i: nat, j: nat, prior: Byte): Byte
    requires InFrame(org, w, h, i, j)
  {
    match mode
    case MinMode => WinMin(org, w, h, i, j, r)
    case MaxMode => WinMax(org, w, h, i, j, r)
    case OtherMode => prior
  }

  /** The samples of pixel (i, j) after the filter: window extremum in R, G, B, alpha kept. */
  lemma FilteredPixel(org: seq<Byte>, w: nat, h: nat, r: nat, mode: Mode, i: nat, j: nat)
    requires InFrame(org, w, h, i, j)
    ensures Idx(w, i, j) + 4 <= |org|
    ensures Filtered(org, w, h, r, mode)[Idx(w, i, j)] == Written(org, w, h, r, mode, i, j, org[Idx(w, i, j)])
    ensures Filtered(org, w, h, r, mode)[Idx(w, i, j) + 1] == Written(org, w, h, r, mode, i, j, org[Idx(w, i, j) + 1])
    ensures Filtered(org, w, h, r, mode)[Idx(w, i, j) + 2] == Written(org, w, h, r, mode, i, j, org[Idx(w, i, j) + 2])
    ensures Filtered(org, w, h, r, mode)[Idx(w, i, j) + 3] == org[Idx(w, i, j) + 3]
  {
    IdxInFrame(w, h, i, j);
    FilteredColour(org, w, h, r, mode, i, j, 0);
    FilteredColour(org, w, h, r, mode, i, j, 1);
    FilteredColour(org, w, h, r, mode, i, j, 2);
    IdxChannel(w, i, j, 3);
    AlphaUnchanged(org, w, h, r, mode, Idx(w, i, j) + 3);
  }

  /** Colour sample c of pixel (i, j) after the filter. */
  lemma FilteredColour(org: seq<Byte>, w: nat, h: nat, r: nat, mode: Mode, i: nat, j: nat, c: nat)
    requires InFrame(org, w, h, i, j) && c < 3
    ensures Idx(w, i, j) + 4 <= |org|
    ensures Filtered(org, w, h, r, mode)[Idx(w, i, j) + c] == Written(org, w, h, r, mode, i, j, org[Idx(w, i, j) + c])
  {
    IdxInFrame(w, h, i, j);
    IdxSplit(w, i, j, c);
  }

  /** In either mode the pixel becomes gray: its red, green and blue are equal. */
  lemma FilteredIsGray(org: seq<Byte>, w: nat, h: nat, r: nat, mode: Mode, i: nat, j: nat)
    requires InFrame(org, w, h, i, j)
    requires mode != OtherMode
    ensures Idx(w, i, j) + 4 <= |org|
    ensures Filtered(org, w, h, r, mode)[Idx(w, i, j)] == Filtered(org, w, h, r, mode)[Idx(w, i, j) + 1]
    ensures Filtered(org, w, h, r, mode)[Idx(w, i, j)] == Filtered(org, w, h, r, mode)[Idx(w, i, j) + 2]
  {
    FilteredPixel(org, w, h, r, mode, i, j);
  }

  /** Alpha samples are never written. */
  lemma AlphaUnchanged(org: seq<Byte>, w: nat, h: nat, r: nat, mode: Mode, k: nat)
    requires |org| == w * h * 4 && k < |org| && Channel(k) == 3
    ensures Filtered(org, w, h, r, mode)[k] == org[k]
  {
  }

  /** A mode other than "min" and "max" leaves the buffer as it was. */
  lemma OtherModeIsIdentity(org: seq<Byte>, w: nat, h: nat, r: nat, mode: string)
    requires |org| == w * h * 4
    requires mode != "min" && mode != "max"
    ensures Filtered(org, w, h, r, ModeOf(mode)) == org
  {
  }

  /** The window of a positive radius holds the pixel itself. */
  lemma OwnPixelInWindow(org: seq<Byte>, w: nat, h: nat, i: nat, j: nat, r: nat)
    requires InFrame(org, w, h, i, j) && r >= 1
    ensures Idx(w, i, j) < |org|
    ensures WinMin(org, w, h, i, j, r) <= org[Idx(w, i, j)] <= WinMax(org, w, h, i, j, r)
  {
    IdxInFrame(w, h, i, j);
    WinMinIsMinimum(org, w, h, i, j, r);
    WinMaxIsMaximum(org, w, h, i, j, r);
    assert Sample(org, w, h, i, j, 0, 0) == org[Idx(w, i, j)];
  }

  /** With radius at least 1, "min" never raises and "max" never lowers a pixel's red. */
  lemma MinLowersMaxRaises(org: seq<Byte>, w: nat, h: nat, r: nat, i: nat, j: nat)
    requires InFrame(org, w, h, i, j) && r >= 1
    ensures Idx(w, i, j) < |org|
    ensures Filtered(org, w, h, r, MinMode)[Idx(w, i, j)] <= org[Idx(w, i, j)]
    ensures Filtered(org, w, h, r, MaxMode)[Idx(w, i, j)] >= org[Idx(w, i, j)]
  {
    FilteredPixel(org, w, h, r, MinMode, i, j);
    FilteredPixel(org, w, h, r, MaxMode, i, j);
    OwnPixelInWindow(org, w, h, i, j, r);
  }

  /** With radius 0 the window is empty: "min" writes 255 and "max" writes 0 everywhere. */
  lemma EmptyWindow(org: seq<Byte>, w: nat, h: nat, k: nat)
    requires |org| == w * h * 4 && k < |org| && Channel(k) < 3
    ensures Filtered(org, w, h, 0, MinMode)[k] == 255
    ensures Filtered(org, w, h, 0, MaxMode)[k] == 0
  {
    RowColInFrame(w, h, k);
    WinMinIsMinimum(org, w, h, Row(w, k), Col(w, k), 0);
    WinMaxIsMaximum(org, w, h, Row(w, k), Col(w, k), 0);
  }

  /** Only blocksize 0 gives radius 0; blocksize 1 already gives a two-by-two window. */
  lemma RadiusOfSmallBlocks(blocksize: nat)
    ensures Radius(blocksize) == 0 <==> blocksize == 0
    ensures Radius(1) == 1 && Radius(2) == 1 && Radius(3) == 2
  {
  }

  // ---------------------------------------------------------------------------
  // The neutral-state test

  /** The radius-1 window of pixel (i, j) reaches the pixel to its left. */
  lemma WindowCoversLeftNeighbour(org: seq<Byte>, w: nat, h: nat, i: nat, j: nat)
    requires InFrame(org, w, h, i, j) && j >= 1
    ensures Idx(w, i, j - 1) < |org|
    ensures WinMin(org, w, h, i, j, 1) <= org[Idx(w, i, j - 1)]
  {
    IdxInFrame(w, h, i, j - 1);
    WinMinIsMinimum(org, w, h, i, j, 1);
    assert Sample(org, w, h, i, j, 0, -1) == org[Idx(w, i, j - 1)];
  }

  /**
    As written, `isNeutralState` claims blocksize 1 changes nothing, but the
    radius-1 window of pixel (0, 1) in a 2-by-1 frame also covers pixel (0, 0):
    whenever that pixel's red is darker, "min" darkens pixel (0, 1).
   */
  lemma NeutralStateChangesImage(org: seq<Byte>)
    requires |org| == 8 && org[0] < org[4]
    ensures MinMaxConfig(1, "min").IsNeutralState()
    ensures Filtered(org, 2, 1, Radius(1), ModeOf("min"))[4] < org[4]
  {
    assert ModeOf("min") == MinMode;
    assert Radius(1) == 1;
    FilteredPixel(org, 2, 1, 1, MinMode, 0, 1);
    WindowCoversLeftNeighbour(org, 2, 1, 0, 1);
    assert Idx(2, 0, 1) == 4 && Idx(2, 0, 0) == 0;
  }

  /** Under IsNoOp the filter leaves every image unchanged. */
  lemma NoOpIsNeutral(config: MinMaxConfig, org: seq<Byte>, w: nat, h: nat)
    requires |org| == w * h * 4 && config.IsNoOp()
    ensures Filtered(org, w, h, Radius(config.blocksize), ModeOf(config.mode)) == org
  {
    OtherModeIsIdentity(org, w, h, Radius(config.blocksize), config.mode);
  }

  /** In a one-pixel frame every window position clamps to the pixel itself. */
  lemma SinglePixelSample(org: seq<Byte>, w: nat, h: nat, di: int, dj: int)
    requires w == 1 && h == 1 && |org| == 4
    ensures Sample(org, w, h, 0, 0, di, dj) == org[0]
  {
    assert WindowIndex(w, h, 0 + di, 0 + dj) == Idx(w, 0, 0);
  }

  /** So in a one-pixel frame a non-empty window yields the pixel's own red as minimum... */
  lemma SinglePixelMin(org: seq<Byte>, w: nat, h: nat, r: nat)
    requires w == 1 && h == 1 && |org| == 4
    ensures WinMin(org, w, h, 0, 0, r) == if r > 0 then org[0] else 255
  {
    WinMinIsMinimum(org, w, h, 0, 0, r);
    if r > 0 {
      var di: int, dj: int :| 0 <= di + r < 2 * r && 0 <= dj + r < 2 * r &&
        WinMin(org, w, h, 0, 0, r) == Sample(org, w, h, 0, 0, di, dj);
      SinglePixelSample(org, w, h, di, dj);
    }
  }

  /** ... and as maximum. */
  lemma SinglePixelMax(org: seq<Byte>, w: nat, h: nat, r: nat)
    requires w == 1 && h == 1 && |org| == 4
    ensures WinMax(org, w, h, 0, 0, r) == if r > 0 then org[0] else 0
  {
    WinMaxIsMaximum(org, w, h, 0, 0, r);
    if r > 0 {
      var di: int, dj: int :| 0 <= di + r < 2 * r && 0 <= dj + r < 2 * r &&
        WinMax(org, w, h, 0, 0, r) == Sample(org, w, h, 0, 0, di, dj);
      SinglePixelSample(org, w, h, di, dj);
    }
  }

  /**
    A one-pixel image whose red is 0 and green 255 is changed by "min"; one whose
    red is 255 and green 0 is changed by "max", whatever the radius.
   */
  lemma SinglePixelChanges(org: seq<Byte>, w: nat, h: nat, r: nat, mode: Mode)
    requires w == 1 && h == 1 && |org| == 4
    requires mode == MinMode ==> org[0] == 0 && org[1] == 255
    requires mode == MaxMode ==> org[0] == 255 && org[1] == 0
    requires mode != OtherMode
    ensures Filtered(org, w, h, r, mode) != org
  {
    FilteredPixel(org, w, h, r, mode, 0, 0);
    assert Idx(w, 0, 0) == 0;
    var out := Filtered(org, w, h, r, mode);
    var red := Written(org, w, h, r, mode, 0, 0, org[0]);
    assert out[0] == red && out[1] == red;
    if mode == MinMode {
      SinglePixelMin(org, w, h, r);
      assert red == if r > 0 then 0 else 255;
    } else {
      SinglePixelMax(org, w, h, r);
      assert red == if r > 0 then 255 else 0;
    }
    assert out[0] != org[0] || out[1] != org[1];
  }

  /** Without IsNoOp some one-pixel image is changed, whatever the blocksize. */
  lemma NotNoOpChangesSomeImage(config: MinMaxConfig)
    requires !config.IsNoOp()
    ensures exists org: seq<Byte> :: |org| == 4 && Filtered(org, 1, 1, Radius(config.blocksize), ModeOf(config.mode)) != org
  {
    var mode := ModeOf(config.mode);
    var org: seq<Byte> := if mode == MinMode then [0, 255, 0, 0] else [255, 0, 0, 0];
    SinglePixelChanges(org, 1, 1, Radius(config.blocksize), mode);
  }
}
