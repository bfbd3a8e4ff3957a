/**
  Pixel buffers shared by the three filters.

  A buffer is the `data` of an ImageData: a flat Uint8ClampedArray holding four
  samples per pixel (red, green, blue, alpha), row-major, so that a frame of
  width `w` and height `h` has `w * h * 4` samples. Pixel (row `i`, column `j`)
  starts at `Idx(w, i, j)`, the offset every filter computes as
  `(i * 4) * jLen + (j * 4)`.
 */
module Pixels {

  /** One sample of a Uint8ClampedArray. */
  type Byte = x: int | 0 <= x < 256

  datatype Option<T> = None | Some(value: T)

  /**
    Offset of the red sample of pixel (i, j) in a frame of width w; IdxIsLinear
    shows it equal to the filters' `(i * 4) * w + j * 4`.
   */
  function Idx(w: nat, i: nat, j: nat): nat
  {
    4 * (i * w + j)
  }

  /** Which of the four samples of its pixel the flat offset k is (3 is alpha). */
  function Channel(k: nat): nat
  {
    k % 4
  }

  /** Offset of the red sample of the pixel that holds offset k. */
  function Base(k: nat): nat
  {
    k - k % 4
  }

  /** Row of the pixel that holds offset k. */
  function Row(w: nat, k: nat): nat
    requires w > 0
  {
    k / 4 / w
  }

  /** Column of the pixel that holds offset k. */
  function Col(w: nat, k: nat): nat
    requires w > 0
  {
    k / 4 % w
  }

  lemma IdxIsLinear(w: nat, i: nat, j: nat)
    ensures Idx(w, i, j) == (i * 4) * w + j * 4
  {
    assert (i * 4) * w == 4 * (i * w);
  }

  /** Moving one column right moves four samples on; the end of a row is the start of the next. */
  lemma IdxSteps(w: nat, i: nat, j: nat)
    ensures Idx(w, i, j + 1) == Idx(w, i, j) + 4
    ensures Idx(w, i, w) == Idx(w, i + 1, 0)
    ensures Idx(w, 0, 0) == 0
  {
    assert ((i + 1) * 4) * w == (i * 4) * w + w * 4;
  }

  /** The frame ends right after the last row. */
  lemma IdxEnd(w: nat, h: nat)
    ensures Idx(w, h, 0) == w * h * 4
  {
    assert (h * 4) * w == w * h * 4;
  }

  /** The four samples of an in-frame pixel are inside the frame. */
  lemma IdxInFrame(w: nat, h: nat, i: nat, j: nat)
    requires i < h && j < w
    ensures Idx(w, i, j) + 4 <= w * h * 4
    ensures Idx(w, i, j) % 4 == 0
  {
    IdxIsLinear(w, i, j);
    assert i * w + j < (i + 1) * w;
    assert (i + 1) * w <= h * w by {
      MulLeMono(i + 1, h, w);
    }
  }

  lemma MulLeMono(a: nat, b: nat, c: nat)
    requires a <= b
    ensures a * c <= b * c
  {
  }

  /** Division by w inverts `i * w + j` for a column j inside the row. */
  lemma DivModRow(w: nat, i: nat, j: nat)
    requires j < w
    ensures (i * w + j) / w == i && (i * w + j) % w == j
  {
    var n := i * w + j;
    var q, r := n / w, n % w;
    assert n == q * w + r && 0 <= r < w;
    if q > i {
      MulLeMono(i + 1, q, w);
      assert false;
    } else if q < i {
      MulLeMono(q + 1, i, w);
      assert false;
    }
  }

  /** Channel c of pixel (i, j) is channel c of a pixel that starts at Idx(w, i, j). */
  lemma IdxChannel(w: nat, i: nat, j: nat, c: nat)
    requires c < 4
    ensures Channel(Idx(w, i, j) + c) == c
    ensures Base(Idx(w, i, j) + c) == Idx(w, i, j)
  {
    var p := i * w + j;
    assert (4 * p + c) % 4 == c;
  }

  /** Splitting the offset of channel c of pixel (i, j) gives back i, j and c. */
  lemma IdxSplit(w: nat, i: nat, j: nat, c: nat)
    requires j < w && c < 4
    ensures Row(w, Idx(w, i, j) + c) == i
    ensures Col(w, Idx(w, i, j) + c) == j
    ensures Channel(Idx(w, i, j) + c) == c
    ensures Base(Idx(w, i, j) + c) == Idx(w, i, j)
  {
    IdxIsLinear(w, i, j);
    var p := i * w + j;
    assert (4 * p + c) / 4 == p && (4 * p + c) % 4 == c;
    DivModRow(w, i, j);
  }

  /** A frame holds whole pixels. */
  lemma FrameOfWholePixels(w: nat, h: nat)
    ensures (w * h * 4) % 4 == 0
  {
    assert w * h * 4 == 4 * (w * h);
  }

  /** In a buffer of whole pixels, every offset's pixel lies inside. */
  lemma BaseInBuffer(n: nat, k: nat)
    requires n % 4 == 0 && k < n
    ensures Base(k) + 4 <= n
  {
    var q := k / 4;
    assert k == 4 * q + k % 4;
    assert n == 4 * (n / 4);
    assert q < n / 4;
  }

  /** The four samples of the pixel that holds offset k: channels 0 .. 3, all with the same base. */
  lemma BaseSplit(k: nat, c: nat)
    requires c < 4
    ensures Channel(Base(k) + c) == c && Base(Base(k) + c) == Base(k)
  {
    var q := k / 4;
    assert Base(k) == 4 * q;
    assert (4 * q + c) % 4 == c;
  }

  /** The red sample of in-frame pixel (i, j). */
  function RedAt(org: seq<Byte>, w: nat, h: nat, i: nat, j: nat): Byte
    requires |org| == w * h * 4 && i < h && j < w
  {
    IdxInFrame(w, h, i, j);
    org[Idx(w, i, j)]
  }

  /** Every offset of the frame belongs to an in-frame pixel. */
  lemma RowColInFrame(w: nat, h: nat, k: nat)
    requires k < w * h * 4
    ensures w > 0 && Row(w, k) < h && Col(w, k) < w
    ensures Idx(w, Row(w, k), Col(w, k)) + Channel(k) == k
  {
    var p := k / 4;
    assert k == 4 * p + k % 4;
    assert p < w * h;
    var i, j := p / w, p % w;
    assert p == i * w + j;
    if i >= h {
      MulLeMono(h, i, w);
      assert false;
    }
    IdxIsLinear(w, i, j);
  }

  /**
    After a pass writes the pixel at index: when everything before it already
    matched out and the pixel's four samples now match out, the matching
    prefix ends four samples later; nothing after the pixel moved.
   */
  lemma PixelDone(before: seq<Byte>, after: seq<Byte>, out: seq<Byte>, index: nat)
    requires |before| == |after| == |out| && index + 4 <= |out|
    requires forall k :: 0 <= k < index ==> before[k] == out[k]
    requires forall k :: 0 <= k < |after| && !(index <= k < index + 4) ==> after[k] == before[k]
    requires after[index] == out[index] && after[index + 1] == out[index + 1]
    requires after[index + 2] == out[index + 2] && after[index + 3] == out[index + 3]
    ensures forall k :: 0 <= k < index + 4 ==> after[k] == out[k]
    ensures forall k :: index + 4 <= k < |after| ==> after[k] == before[k]
  {
  }
}
