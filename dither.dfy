/**
  Floyd–Steinberg error diffusion over a row-major pixel buffer.

  The pure part describes the scan on sequences: `Visit` processes one pixel
  and `ScanTo(y, x)` is the state once every pixel before (x, y) in raster
  order has been visited. The methods at the end do the same work in place on
  arrays and are proved to produce exactly that state.

  The flat index of pixel (x, y) is RowStart(w, y) + x, where RowStart(w, y)
  is the product y * w written as a recursion on rows (RowStartIsProduct);
  this keeps the proofs in linear arithmetic.
 */
module Dither {
  import opened Colour
  import opened Matcher

  /** Column and row offsets of the four diffusion targets, and their weights in sixteenths. */
  const Dx: seq<int> := [1, -1, 0, 1]
  const Dy: seq<int> := [0, 1, 1, 1]
  const Weight: seq<int> := [7, 3, 5, 1]
  const Neighbours: nat := 4

  /** The pixel buffer and the parallel index buffer. */
  datatype State = State(buffer: seq<Rgb>, indices: seq<int>)

  // ----- Flat indices -----

  /** The flat index of the first pixel of row y, in an image w pixels wide. */
  function RowStart(w: nat, y: nat): nat {
    if y == 0 then 0 else RowStart(w, y - 1) + w
  }

  lemma {:induction false} RowStartIsProduct(w: nat, y: nat)
    ensures RowStart(w, y) == y * w
  {
    if y > 0 {
      RowStartIsProduct(w, y - 1);
      assert (y - 1) * w + w == y * w;
    }
  }

  /** Later rows start later: a whole row lies between row y1 and any row after it. */
  lemma {:induction false} RowStartMonotone(w: nat, y1: nat, y2: nat)
    requires y1 <= y2
    ensures RowStart(w, y1) <= RowStart(w, y2)
    ensures y1 < y2 ==> RowStart(w, y1) + w <= RowStart(w, y2)
  {
    if y1 < y2 {
      RowStartMonotone(w, y1, y2 - 1);
    }
  }

  /** The flat index of pixel (x, y). */
  function Flat(w: nat, x: nat, y: nat): nat {
    RowStart(w, y) + x
  }

  /** Raster order on scan points agrees with the order of flat indices. */
  lemma FlatOrdered(w: nat, x1: nat, y1: nat, x2: nat, y2: nat)
    requires x1 <= w && x2 <= w
    requires y1 < y2 || (y1 == y2 && x1 <= x2)
    ensures Flat(w, x1, y1) <= Flat(w, x2, y2)
  {
    RowStartMonotone(w, y1, y2);
  }

  predicate Shaped(s: State, w: nat, h: nat) {
    |s.buffer| == RowStart(w, h) && |s.indices| == RowStart(w, h)
  }

  /** A pixel inside the image has a flat index inside the buffer. */
  lemma FlatInside(w: nat, h: nat, x: nat, y: nat)
    requires x < w && y < h
    ensures Flat(w, x, y) < RowStart(w, h)
  {
    RowStartMonotone(w, y, h);
  }

  // ----- Diffusion targets -----

  /** Whether the k-th diffusion target of pixel (x, y) lies inside the image. */
  predicate InBounds(w: nat, h: nat, x: nat, y: nat, k: nat)
    requires k < Neighbours
  {
    0 <= x + Dx[k] < w && 0 <= y + Dy[k] < h
  }

  /**
    The flat index of the k-th diffusion target: always later in raster order
    than the pixel itself, and inside the buffer.
   */
  function Target(w: nat, h: nat, x: nat, y: nat, k: nat): (ni: nat)
    requires x < w && y < h && k < Neighbours && InBounds(w, h, x, y, k)
    ensures Flat(w, x, y) < ni < RowStart(w, h)
  {
    FlatInside(w, h, x + Dx[k], y + Dy[k]);
    Flat(w, x + Dx[k], y + Dy[k])
  }

  /** Distinct diffusion targets that are both in bounds are distinct cells. */
  lemma TargetsDistinct(w: nat, h: nat, x: nat, y: nat, k1: nat, k2: nat)
    requires x < w && y < h && k1 < Neighbours && k2 < Neighbours && k1 != k2
    requires InBounds(w, h, x, y, k1) && InBounds(w, h, x, y, k2)
    ensures Target(w, h, x, y, k1) != Target(w, h, x, y, k2)
  {
  }

  /** All in-bounds diffusion targets of a pixel are pairwise distinct cells. */
  lemma TargetsPairwiseDistinct(w: nat, h: nat, x: nat, y: nat)
    requires x < w && y < h
    ensures forall k1, k2 :: 0 <= k1 < k2 < Neighbours && InBounds(w, h, x, y, k1) && InBounds(w, h, x, y, k2) ==>
      Target(w, h, x, y, k1) != Target(w, h, x, y, k2)
  {
    forall k1, k2 | 0 <= k1 < k2 < Neighbours && InBounds(w, h, x, y, k1) && InBounds(w, h, x, y, k2)
      ensures Target(w, h, x, y, k1) != Target(w, h, x, y, k2)
    {
      TargetsDistinct(w, h, x, y, k1, k2);
    }
  }

  // ----- Channel update -----

  /** Conversion of a real to an integer by truncation toward zero. */
  function TruncReal(v: real): int {
    if v >= 0.0 then v.Floor else -((-v).Floor)
  }

  /**
    The new value of one channel of a target: the channel plus the weighted
    error, truncated toward zero, then clamped.
   */
  function Diffused(v: int, e: int, k: nat): (r: int)
    requires k < Neighbours
    ensures ChannelInRange(r)
    ensures e == 0 && ChannelInRange(v) ==> r == v
  {
    TruncDivExact(v);
    Clamp(TruncDiv(16 * v + Weight[k] * e, 16))
  }

  lemma FloorOfSixteenth(n: int)
    ensures (n as real / 16.0).Floor == n / 16
  {
    var q, r := n / 16, n % 16;
    assert n == 16 * q + r && 0 <= r < 16;
    assert n as real / 16.0 == q as real + r as real / 16.0;
  }

  /**
    The integer update agrees with the arithmetic of the scan on exact values:
    v + e * (k/16), truncated toward zero and clamped.
   */
  lemma DiffusedIsTruncatedSum(v: int, e: int, k: nat)
    requires k < Neighbours
    ensures Diffused(v, e, k) == Clamp(TruncReal(v as real + e as real * (Weight[k] as real / 16.0)))
  {
    var n := 16 * v + Weight[k] * e;
    assert v as real + e as real * (Weight[k] as real / 16.0) == n as real / 16.0;
    if n >= 0 {
      FloorOfSixteenth(n);
    } else {
      FloorOfSixteenth(-n);
      assert -(n as real / 16.0) == (-n) as real / 16.0;
    }
  }

  /** A target pixel after its share of the error: in range, and unchanged by a zero error. */
  function DiffusedPixel(p: Rgb, e: Rgb, k: nat): (r: Rgb)
    requires k < Neighbours
    ensures InRange(r)
    ensures e == Rgb(0, 0, 0) && InRange(p) ==> r == p
  {
    Rgb(Diffused(p.r, e.r, k), Diffused(p.g, e.g, k), Diffused(p.b, e.b, k))
  }

  /** The signed per-channel quantisation error; it is zero exactly when the colour did not change. */
  function Error(was: Rgb, now: Rgb): (e: Rgb)
    ensures e == Rgb(0, 0, 0) <==> was == now
  {
    Rgb(was.r - now.r, was.g - now.g, was.b - now.b)
  }

  /** Every channel of an error lies in [-255,255]. */
  predicate ErrorBounded(e: Rgb) {
    -255 <= e.r <= 255 && -255 <= e.g <= 255 && -255 <= e.b <= 255
  }

  /** The error a visit would take at any pixel of b, against the palette colour it is matched to, is bounded. */
  predicate ErrorsBounded(b: seq<Rgb>, nearest: Rgb -> PaletteIndex) {
    forall i :: 0 <= i < |b| ==> ErrorBounded(Error(b[i], PaletteRgb[nearest(b[i])]))
  }

  /** An in-range buffer differs from any palette colour by at most 255 per channel. */
  lemma InRangeErrorsBounded(b: seq<Rgb>, nearest: Rgb -> PaletteIndex)
    requires AllInRange(b)
    ensures ErrorsBounded(b, nearest)
  {
    PaletteWellFormed();
  }

  // ----- The scan on sequences -----

  /** Pushes the error into the k-th target, if it is in bounds. */
  function DiffuseOne(buf: seq<Rgb>, w: nat, h: nat, x: nat, y: nat, e: Rgb, k: nat): (r: seq<Rgb>)
    requires |buf| == RowStart(w, h) && x < w && y < h && k < Neighbours
    ensures |r| == |buf|
  {
    if InBounds(w, h, x, y, k) then
      var ni := Target(w, h, x, y, k);
      buf[ni := DiffusedPixel(buf[ni], e, k)]
    else
      buf
  }

  /** Pushes the error into targets 0 .. n-1, in that order. */
  function Diffuse(buf: seq<Rgb>, w: nat, h: nat, x: nat, y: nat, e: Rgb, n: nat): (r: seq<Rgb>)
    requires |buf| == RowStart(w, h) && x < w && y < h && n <= Neighbours
    ensures |r| == |buf|
  {
    if n == 0 then buf
    else DiffuseOne(Diffuse(buf, w, h, x, y, e, n - 1), w, h, x, y, e, n - 1)
  }

  /**
    Processes pixel (x, y): matches it, records the index, replaces the pixel
    by its palette colour and diffuses the error into the four targets.
   */
  function Visit(s: State, w: nat, h: nat, x: nat, y: nat, nearest: Rgb -> PaletteIndex): (r: State)
    requires Shaped(s, w, h) && x < w && y < h
    ensures Shaped(r, w, h)
  {
    FlatInside(w, h, x, y);
    var idx := Flat(w, x, y);
    var was := s.buffer[idx];
    var pi := nearest(was);
    var now := PaletteRgb[pi];
    State(Diffuse(s.buffer[idx := now], w, h, x, y, Error(was, now), Neighbours), s.indices[idx := pi])
  }

  /** (x, y) is a point of the scan: a pixel, the end of a row, or the end of the image. */
  predicate ScanPoint(w: nat, h: nat, x: nat, y: nat) {
    x <= w && (y < h || (y == h && x == 0))
  }

  /**
    The state once the rows above y, and the first x pixels of row y, have
    been visited in raster order.
   */
  function ScanTo(s: State, w: nat, h: nat, y: nat, x: nat, nearest: Rgb -> PaletteIndex): (r: State)
    requires Shaped(s, w, h) && ScanPoint(w, h, x, y)
    ensures Shaped(r, w, h)
    decreases y, x
  {
    if x > 0 then Visit(ScanTo(s, w, h, y, x - 1, nearest), w, h, x - 1, y, nearest)
    else if y > 0 then ScanTo(s, w, h, y - 1, w, nearest)
    else s
  }

  /** The state after the whole image has been visited. */
  function Dithered(s: State, w: nat, h: nat, nearest: Rgb -> PaletteIndex): (r: State)
    requires Shaped(s, w, h)
    ensures Shaped(r, w, h)
  {
    ScanTo(s, w, h, h, 0, nearest)
  }

  // ----- Properties of the scan -----

  /** Pushing the error into target k changes that target, if it is inside the image, and nothing else. */
  lemma DiffuseOneEffect(buf: seq<Rgb>, w: nat, h: nat, x: nat, y: nat, e: Rgb, k: nat)
    requires |buf| == RowStart(w, h) && x < w && y < h && k < Neighbours
    ensures InBounds(w, h, x, y, k) ==>
      DiffuseOne(buf, w, h, x, y, e, k)[Target(w, h, x, y, k)] == DiffusedPixel(buf[Target(w, h, x, y, k)], e, k)
    ensures forall j :: 0 <= j < |buf| && !(InBounds(w, h, x, y, k) && j == Target(w, h, x, y, k)) ==>
      DiffuseOne(buf, w, h, x, y, e, k)[j] == buf[j]
  {
  }

  /** A cell that is none of the in-bounds targets 0 .. n-1 is unchanged by pushing the error into them. */
  lemma {:induction false} DiffuseMissesAt(buf: seq<Rgb>, w: nat, h: nat, x: nat, y: nat, e: Rgb, n: nat, j: nat)
    requires |buf| == RowStart(w, h) && x < w && y < h && n <= Neighbours && j < |buf|
    requires forall k :: 0 <= k < n && InBounds(w, h, x, y, k) ==> j != Target(w, h, x, y, k)
    ensures Diffuse(buf, w, h, x, y, e, n)[j] == buf[j]
  {
    if n > 0 {
      var prev := Diffuse(buf, w, h, x, y, e, n - 1);
      assert Diffuse(buf, w, h, x, y, e, n) == DiffuseOne(prev, w, h, x, y, e, n - 1);
      DiffuseMissesAt(buf, w, h, x, y, e, n - 1, j);
      DiffuseOneEffect(prev, w, h, x, y, e, n - 1);
    }
  }

  /** After pushing the error into targets 0 .. n-1, every cell that is none of them is unchanged. */
  lemma DiffuseMisses(buf: seq<Rgb>, w: nat, h: nat, x: nat, y: nat, e: Rgb, n: nat)
    requires |buf| == RowStart(w, h) && x < w && y < h && n <= Neighbours
    ensures forall j :: 0 <= j < |buf| && (forall k :: 0 <= k < n && InBounds(w, h, x, y, k) ==> j != Target(w, h, x, y, k)) ==>
      Diffuse(buf, w, h, x, y, e, n)[j] == buf[j]
  {
    forall j | 0 <= j < |buf| && (forall k :: 0 <= k < n && InBounds(w, h, x, y, k) ==> j != Target(w, h, x, y, k))
      ensures Diffuse(buf, w, h, x, y, e, n)[j] == buf[j]
    {
      DiffuseMissesAt(buf, w, h, x, y, e, n, j);
    }
  }

  /** An in-bounds target k < n holds its diffused value once the error is pushed into targets 0 .. n-1. */
  lemma {:induction false} DiffuseHitAt(buf: seq<Rgb>, w: nat, h: nat, x: nat, y: nat, e: Rgb, n: nat, k: nat)
    requires |buf| == RowStart(w, h) && x < w && y < h && n <= Neighbours
    requires k < n && InBounds(w, h, x, y, k)
    ensures Diffuse(buf, w, h, x, y, e, n)[Target(w, h, x, y, k)] == DiffusedPixel(buf[Target(w, h, x, y, k)], e, k)
  {
    var prev := Diffuse(buf, w, h, x, y, e, n - 1);
    assert Diffuse(buf, w, h, x, y, e, n) == DiffuseOne(prev, w, h, x, y, e, n - 1);
    DiffuseOneEffect(prev, w, h, x, y, e, n - 1);
    var t := Target(w, h, x, y, k);
    if k < n - 1 {
      DiffuseHitAt(buf, w, h, x, y, e, n - 1, k);
      if InBounds(w, h, x, y, n - 1) {
        TargetsDistinct(w, h, x, y, k, n - 1);
      }
    } else {
      forall k' | 0 <= k' < n - 1 && InBounds(w, h, x, y, k') ensures t != Target(w, h, x, y, k') {
        TargetsDistinct(w, h, x, y, k', k);
      }
      DiffuseMissesAt(buf, w, h, x, y, e, n - 1, t);
    }
  }

  /**
    After pushing the error into targets 0 .. n-1, each in-bounds target among
    them holds its diffused value and every other cell is unchanged.
   */
  lemma DiffuseEffect(buf: seq<Rgb>, w: nat, h: nat, x: nat, y: nat, e: Rgb, n: nat)
    requires |buf| == RowStart(w, h) && x < w && y < h && n <= Neighbours
    ensures forall k :: 0 <= k < n && InBounds(w, h, x, y, k) ==>
      Diffuse(buf, w, h, x, y, e, n)[Target(w, h, x, y, k)] == DiffusedPixel(buf[Target(w, h, x, y, k)], e, k)
    ensures forall j :: 0 <= j < |buf| && (forall k :: 0 <= k < n && InBounds(w, h, x, y, k) ==> j != Target(w, h, x, y, k)) ==>
      Diffuse(buf, w, h, x, y, e, n)[j] == buf[j]
  {
    forall k | 0 <= k < n && InBounds(w, h, x, y, k)
      ensures Diffuse(buf, w, h, x, y, e, n)[Target(w, h, x, y, k)] == DiffusedPixel(buf[Target(w, h, x, y, k)], e, k)
    {
      DiffuseHitAt(buf, w, h, x, y, e, n, k);
    }
    DiffuseMisses(buf, w, h, x, y, e, n);
  }

  /**
    Visiting pixel (x, y) records its match in the index buffer, makes the
    pixel that palette colour, and changes no other index.
   */
  lemma VisitRecords(s: State, w: nat, h: nat, x: nat, y: nat, nearest: Rgb -> PaletteIndex)
    requires Shaped(s, w, h) && x < w && y < h
    ensures Flat(w, x, y) < RowStart(w, h)
    ensures Visit(s, w, h, x, y, nearest).indices == s.indices[Flat(w, x, y) := nearest(s.buffer[Flat(w, x, y)])]
    ensures Visit(s, w, h, x, y, nearest).buffer[Flat(w, x, y)] == PaletteRgb[nearest(s.buffer[Flat(w, x, y)])]
  {
    FlatInside(w, h, x, y);
    var idx := Flat(w, x, y);
    var pi := nearest(s.buffer[idx]);
    DiffuseEffect(s.buffer[idx := PaletteRgb[pi]], w, h, x, y, Error(s.buffer[idx], PaletteRgb[pi]), Neighbours);
  }

  /**
    Visiting pixel (x, y) gives each in-bounds target its share of the error,
    computed from the pixel's colour before replacement, and leaves every cell
    that is neither the pixel nor a target as it was.
   */
  lemma VisitDiffuses(s: State, w: nat, h: nat, x: nat, y: nat, nearest: Rgb -> PaletteIndex)
    requires Shaped(s, w, h) && x < w && y < h
    ensures Flat(w, x, y) < RowStart(w, h)
    ensures var e := Error(s.buffer[Flat(w, x, y)], PaletteRgb[nearest(s.buffer[Flat(w, x, y)])]);
      forall k :: 0 <= k < Neighbours && InBounds(w, h, x, y, k) ==>
        Visit(s, w, h, x, y, nearest).buffer[Target(w, h, x, y, k)] == DiffusedPixel(s.buffer[Target(w, h, x, y, k)], e, k)
    ensures forall j :: 0 <= j < RowStart(w, h) && j != Flat(w, x, y) && (forall k :: 0 <= k < Neighbours && InBounds(w, h, x, y, k) ==> j != Target(w, h, x, y, k)) ==>
      Visit(s, w, h, x, y, nearest).buffer[j] == s.buffer[j]
  {
    FlatInside(w, h, x, y);
    var idx := Flat(w, x, y);
    var pi := nearest(s.buffer[idx]);
    DiffuseEffect(s.buffer[idx := PaletteRgb[pi]], w, h, x, y, Error(s.buffer[idx], PaletteRgb[pi]), Neighbours);
  }

  /** Two states hold the same pixels and the same indices below flat index n. */
  predicate Agree(a: State, b: State, n: nat) {
    n <= |a.buffer| && n <= |a.indices| && n <= |b.buffer| && n <= |b.indices| &&
    a.buffer[..n] == b.buffer[..n] && a.indices[..n] == b.indices[..n]
  }

  lemma AgreeReflexive(a: State, n: nat)
    requires n <= |a.buffer| && n <= |a.indices|
    ensures Agree(a, a, n)
  {
  }

  lemma AgreeTransitive(a: State, b: State, c: State, m: nat, n: nat)
    requires Agree(a, b, m) && Agree(b, c, n) && n <= m
    ensures Agree(a, c, n)
  {
    assert a.buffer[..n] == a.buffer[..m][..n] && b.buffer[..n] == b.buffer[..m][..n];
    assert a.indices[..n] == a.indices[..m][..n] && b.indices[..n] == b.indices[..m][..n];
  }

  /** Pixels and indices before pixel (x, y) in raster order are not touched by its visit. */
  lemma VisitKeepsEarlier(s: State, w: nat, h: nat, x: nat, y: nat, nearest: Rgb -> PaletteIndex)
    requires Shaped(s, w, h) && x < w && y < h
    ensures Flat(w, x, y) < RowStart(w, h)
    ensures Agree(Visit(s, w, h, x, y, nearest), s, Flat(w, x, y))
  {
    VisitRecords(s, w, h, x, y, nearest);
    VisitDiffuses(s, w, h, x, y, nearest);
  }

  /** A visit keeps every channel of the buffer in [0,255]. */
  lemma VisitKeepsRange(s: State, w: nat, h: nat, x: nat, y: nat, nearest: Rgb -> PaletteIndex)
    requires Shaped(s, w, h) && x < w && y < h
    requires AllInRange(s.buffer)
    ensures AllInRange(Visit(s, w, h, x, y, nearest).buffer)
  {
    VisitRecords(s, w, h, x, y, nearest);
    VisitDiffuses(s, w, h, x, y, nearest);
    PaletteWellFormed();
    var r := Visit(s, w, h, x, y, nearest);
    var e := Error(s.buffer[Flat(w, x, y)], r.buffer[Flat(w, x, y)]);
    forall j | 0 <= j < RowStart(w, h) ensures InRange(r.buffer[j]) {
      if k :| 0 <= k < Neighbours && InBounds(w, h, x, y, k) && j == Target(w, h, x, y, k) {
        assert r.buffer[j] == DiffusedPixel(s.buffer[j], e, k);
      }
    }
  }

  /** Pixel (x, y) already holds the palette colour it is matched to. */
  predicate HoldsMatch(s: State, w: nat, h: nat, x: nat, y: nat, nearest: Rgb -> PaletteIndex)
    requires Shaped(s, w, h) && x < w && y < h
  {
    FlatInside(w, h, x, y);
    PaletteRgb[nearest(s.buffer[Flat(w, x, y)])] == s.buffer[Flat(w, x, y)]
  }

  /**
    A pixel whose colour is already its matched palette colour has zero
    error: the visit leaves the whole buffer as it was.
   */
  lemma ZeroErrorChangesNothing(s: State, w: nat, h: nat, x: nat, y: nat, nearest: Rgb -> PaletteIndex)
    requires Shaped(s, w, h) && x < w && y < h
    requires AllInRange(s.buffer)
    requires HoldsMatch(s, w, h, x, y, nearest)
    ensures Visit(s, w, h, x, y, nearest).buffer == s.buffer
  {
    VisitRecords(s, w, h, x, y, nearest);
    VisitDiffuses(s, w, h, x, y, nearest);
    var e := Error(s.buffer[Flat(w, x, y)], PaletteRgb[nearest(s.buffer[Flat(w, x, y)])]);
    assert e == Rgb(0, 0, 0);
    var r := Visit(s, w, h, x, y, nearest);
    forall j | 0 <= j < RowStart(w, h) ensures r.buffer[j] == s.buffer[j] {
      if k :| 0 <= k < Neighbours && InBounds(w, h, x, y, k) && j == Target(w, h, x, y, k) {
        assert r.buffer[j] == DiffusedPixel(s.buffer[j], e, k);
      }
    }
  }

  /** The first n pixels hold an index in 0..15 and the palette colour of that index. */
  predicate Matched(st: State, n: nat) {
    n <= |st.buffer| && n <= |st.indices| &&
    forall j :: 0 <= j < n ==> 0 <= st.indices[j] < PaletteSize && st.buffer[j] == PaletteRgb[st.indices[j]]
  }

  /** One visit extends the matched prefix by the visited pixel and leaves later indices alone. */
  lemma VisitExtendsMatched(p: State, w: nat, h: nat, x: nat, y: nat, nearest: Rgb -> PaletteIndex)
    requires Shaped(p, w, h) && x < w && y < h
    requires Matched(p, Flat(w, x, y))
    ensures Flat(w, x, y) < RowStart(w, h)
    ensures Matched(Visit(p, w, h, x, y, nearest), Flat(w, x, y) + 1)
    ensures forall j :: Flat(w, x, y) < j < RowStart(w, h) ==> Visit(p, w, h, x, y, nearest).indices[j] == p.indices[j]
  {
    VisitRecords(p, w, h, x, y, nearest);
    VisitKeepsEarlier(p, w, h, x, y, nearest);
  }

  /**
    After the scan reaches (x, y), every pixel before it holds an index in
    0..15 and the palette colour of that index; the indices of the others are
    still the initial ones.
   */
  lemma {:induction false} ScanMatchesPalette(s: State, w: nat, h: nat, y: nat, x: nat, nearest: Rgb -> PaletteIndex)
    requires Shaped(s, w, h) && ScanPoint(w, h, x, y)
    ensures Flat(w, x, y) <= RowStart(w, h)
    ensures Matched(ScanTo(s, w, h, y, x, nearest), Flat(w, x, y))
    ensures forall j :: Flat(w, x, y) <= j < RowStart(w, h) ==> ScanTo(s, w, h, y, x, nearest).indices[j] == s.indices[j]
    decreases y, x, 1
  {
    RowStartMonotone(w, y, h);
    if x > 0 {
      ScanMatchesPaletteStep(s, w, h, y, x, nearest);
    } else if y > 0 {
      ScanMatchesPalette(s, w, h, y - 1, w, nearest);
      assert Flat(w, w, y - 1) == Flat(w, 0, y);
      assert ScanTo(s, w, h, y, x, nearest) == ScanTo(s, w, h, y - 1, w, nearest);
    }
  }

  /** The inductive step of ScanMatchesPalette within a row. */
  lemma {:induction false} ScanMatchesPaletteStep(s: State, w: nat, h: nat, y: nat, x: nat, nearest: Rgb -> PaletteIndex)
    requires Shaped(s, w, h) && ScanPoint(w, h, x, y) && x > 0
    ensures Flat(w, x, y) <= RowStart(w, h)
    ensures Matched(ScanTo(s, w, h, y, x, nearest), Flat(w, x, y))
    ensures forall j :: Flat(w, x, y) <= j < RowStart(w, h) ==> ScanTo(s, w, h, y, x, nearest).indices[j] == s.indices[j]
    decreases y, x, 0
  {
    var prev := ScanTo(s, w, h, y, x - 1, nearest);
    assert ScanTo(s, w, h, y, x, nearest) == Visit(prev, w, h, x - 1, y, nearest);
    assert Flat(w, x, y) == Flat(w, x - 1, y) + 1;
    ScanMatchesPalette(s, w, h, y, x - 1, nearest);
    VisitExtendsMatched(prev, w, h, x - 1, y, nearest);
  }

  /** Every channel of the buffer stays in [0,255] for the whole scan. */
  lemma {:induction false} ScanKeepsRange(s: State, w: nat, h: nat, y: nat, x: nat, nearest: Rgb -> PaletteIndex)
    requires Shaped(s, w, h) && ScanPoint(w, h, x, y)
    requires AllInRange(s.buffer)
    ensures AllInRange(ScanTo(s, w, h, y, x, nearest).buffer)
    decreases y, x
  {
    if x > 0 {
      var prev := ScanTo(s, w, h, y, x - 1, nearest);
      assert ScanTo(s, w, h, y, x, nearest) == Visit(prev, w, h, x - 1, y, nearest);
      ScanKeepsRange(s, w, h, y, x - 1, nearest);
      VisitKeepsRange(prev, w, h, x - 1, y, nearest);
    } else if y > 0 {
      ScanKeepsRange(s, w, h, y - 1, w, nearest);
    }
  }

  /** One scan step keeps everything before the pixel it visits. */
  lemma ScanStepAgrees(s: State, w: nat, h: nat, y: nat, x: nat, nearest: Rgb -> PaletteIndex)
    requires Shaped(s, w, h) && ScanPoint(w, h, x, y) && x > 0
    ensures Agree(ScanTo(s, w, h, y, x, nearest), ScanTo(s, w, h, y, x - 1, nearest), Flat(w, x - 1, y))
  {
    VisitKeepsEarlier(ScanTo(s, w, h, y, x - 1, nearest), w, h, x - 1, y, nearest);
  }

  /**
    Once a pixel is visited, neither it nor its index is modified again: the
    state at a later scan point agrees with the state at (x1, y1) on every
    pixel before (x1, y1).
   */
  lemma {:induction false} ScanSettled(s: State, w: nat, h: nat, y1: nat, x1: nat, y2: nat, x2: nat, nearest: Rgb -> PaletteIndex)
    requires Shaped(s, w, h) && ScanPoint(w, h, x1, y1) && ScanPoint(w, h, x2, y2)
    requires y1 < y2 || (y1 == y2 && x1 <= x2)
    ensures Flat(w, x1, y1) <= RowStart(w, h)
    ensures Agree(ScanTo(s, w, h, y2, x2, nearest), ScanTo(s, w, h, y1, x1, nearest), Flat(w, x1, y1))
    decreases y2, x2, 1
  {
    RowStartMonotone(w, y1, h);
    if y1 == y2 && x1 == x2 {
      AgreeReflexive(ScanTo(s, w, h, y1, x1, nearest), Flat(w, x1, y1));
    } else if x2 > 0 {
      ScanSettledStep(s, w, h, y1, x1, y2, x2, nearest);
    } else {
      ScanSettledWrap(s, w, h, y1, x1, y2, nearest);
    }
  }

  /** ScanSettled at the start of a row, which is the end of the row above. */
  lemma {:induction false} ScanSettledWrap(s: State, w: nat, h: nat, y1: nat, x1: nat, y2: nat, nearest: Rgb -> PaletteIndex)
    requires Shaped(s, w, h) && ScanPoint(w, h, x1, y1) && ScanPoint(w, h, 0, y2) && 0 < y2
    requires y1 < y2
    ensures Flat(w, x1, y1) <= RowStart(w, h)
    ensures Agree(ScanTo(s, w, h, y2, 0, nearest), ScanTo(s, w, h, y1, x1, nearest), Flat(w, x1, y1))
    decreases y2, 0, 0
  {
    assert ScanTo(s, w, h, y2, 0, nearest) == ScanTo(s, w, h, y2 - 1, w, nearest);
    ScanSettled(s, w, h, y1, x1, y2 - 1, w, nearest);
  }

  /** The inductive step of ScanSettled within a row. */
  lemma {:induction false} ScanSettledStep(s: State, w: nat, h: nat, y1: nat, x1: nat, y2: nat, x2: nat, nearest: Rgb -> PaletteIndex)
    requires Shaped(s, w, h) && ScanPoint(w, h, x1, y1) && ScanPoint(w, h, x2, y2) && x2 > 0
    requires y1 < y2 || (y1 == y2 && x1 < x2)
    ensures Flat(w, x1, y1) <= RowStart(w, h)
    ensures Agree(ScanTo(s, w, h, y2, x2, nearest), ScanTo(s, w, h, y1, x1, nearest), Flat(w, x1, y1))
    decreases y2, x2, 0
  {
    ScanSettled(s, w, h, y1, x1, y2, x2 - 1, nearest);
    FlatOrdered(w, x1, y1, x2 - 1, y2);
    ScanStepAgrees(s, w, h, y2, x2, nearest);
    AgreeTransitive(ScanTo(s, w, h, y2, x2, nearest), ScanTo(s, w, h, y2, x2 - 1, nearest), ScanTo(s, w, h, y1, x1, nearest), Flat(w, x2 - 1, y2), Flat(w, x1, y1));
  }

  /** A visit reads only the buffer and writes one index, so it cannot tell index buffers apart. */
  lemma VisitIgnoresIndices(r1: State, r2: State, w: nat, h: nat, x: nat, y: nat, nearest: Rgb -> PaletteIndex)
    requires Shaped(r1, w, h) && Shaped(r2, w, h) && x < w && y < h
    requires r1.buffer == r2.buffer
    requires Flat(w, x, y) <= RowStart(w, h) && r1.indices[..Flat(w, x, y)] == r2.indices[..Flat(w, x, y)]
    ensures Flat(w, x, y) < RowStart(w, h)
    ensures Visit(r1, w, h, x, y, nearest).buffer == Visit(r2, w, h, x, y, nearest).buffer
    ensures Visit(r1, w, h, x, y, nearest).indices[..Flat(w, x, y) + 1] == Visit(r2, w, h, x, y, nearest).indices[..Flat(w, x, y) + 1]
  {
    VisitRecords(r1, w, h, x, y, nearest);
    VisitRecords(r2, w, h, x, y, nearest);
    var n := Flat(w, x, y);
    assert Visit(r1, w, h, x, y, nearest).indices[..n + 1] == r1.indices[..n] + [nearest(r1.buffer[n])];
    assert Visit(r2, w, h, x, y, nearest).indices[..n + 1] == r2.indices[..n] + [nearest(r2.buffer[n])];
  }

  /** The buffer, and the indices of visited pixels, do not depend on the initial index buffer. */
  lemma {:induction false} ScanIgnoresInitialIndices(b: seq<Rgb>, i1: seq<int>, i2: seq<int>, w: nat, h: nat, y: nat, x: nat, nearest: Rgb -> PaletteIndex)
    requires |b| == RowStart(w, h) && |i1| == RowStart(w, h) && |i2| == RowStart(w, h) && ScanPoint(w, h, x, y)
    ensures Flat(w, x, y) <= RowStart(w, h)
    ensures ScanTo(State(b, i1), w, h, y, x, nearest).buffer == ScanTo(State(b, i2), w, h, y, x, nearest).buffer
    ensures ScanTo(State(b, i1), w, h, y, x, nearest).indices[..Flat(w, x, y)] == ScanTo(State(b, i2), w, h, y, x, nearest).indices[..Flat(w, x, y)]
    decreases y, x, 1
  {
    RowStartMonotone(w, y, h);
    if x > 0 {
      ScanIgnoresInitialIndicesStep(b, i1, i2, w, h, y, x, nearest);
    } else if y > 0 {
      ScanIgnoresInitialIndices(b, i1, i2, w, h, y - 1, w, nearest);
      assert Flat(w, w, y - 1) == Flat(w, 0, y);
      assert ScanTo(State(b, i1), w, h, y, x, nearest) == ScanTo(State(b, i1), w, h, y - 1, w, nearest);
      assert ScanTo(State(b, i2), w, h, y, x, nearest) == ScanTo(State(b, i2), w, h, y - 1, w, nearest);
    }
  }

  /** The inductive step of ScanIgnoresInitialIndices within a row. */
  lemma {:induction false} ScanIgnoresInitialIndicesStep(b: seq<Rgb>, i1: seq<int>, i2: seq<int>, w: nat, h: nat, y: nat, x: nat, nearest: Rgb -> PaletteIndex)
    requires |b| == RowStart(w, h) && |i1| == RowStart(w, h) && |i2| == RowStart(w, h) && ScanPoint(w, h, x, y) && x > 0
    ensures Flat(w, x, y) <= RowStart(w, h)
    ensures ScanTo(State(b, i1), w, h, y, x, nearest).buffer == ScanTo(State(b, i2), w, h, y, x, nearest).buffer
    ensures ScanTo(State(b, i1), w, h, y, x, nearest).indices[..Flat(w, x, y)] == ScanTo(State(b, i2), w, h, y, x, nearest).indices[..Flat(w, x, y)]
    decreases y, x, 0
  {
    ScanIgnoresInitialIndices(b, i1, i2, w, h, y, x - 1, nearest);
    var r1, r2 := ScanTo(State(b, i1), w, h, y, x - 1, nearest), ScanTo(State(b, i2), w, h, y, x - 1, nearest);
    VisitIgnoresIndices(r1, r2, w, h, x - 1, y, nearest);
    assert ScanTo(State(b, i1), w, h, y, x, nearest) == Visit(r1, w, h, x - 1, y, nearest);
    assert ScanTo(State(b, i2), w, h, y, x, nearest) == Visit(r2, w, h, x - 1, y, nearest);
  }

  /** Every pixel is palette colour c. */
  predicate Uniform(b: seq<Rgb>, c: PaletteIndex) {
    forall j :: 0 <= j < |b| ==> b[j] == PaletteRgb[c]
  }

  /**
    An image of one palette colour that the matcher maps to itself is left
    unchanged by the scan, and every visited pixel is given that index.
   */
  lemma {:induction false} ScanUniform(s: State, w: nat, h: nat, y: nat, x: nat, nearest: Rgb -> PaletteIndex, c: PaletteIndex)
    requires Shaped(s, w, h) && ScanPoint(w, h, x, y)
    requires Uniform(s.buffer, c) && nearest(PaletteRgb[c]) == c
    ensures Flat(w, x, y) <= RowStart(w, h)
    ensures ScanTo(s, w, h, y, x, nearest).buffer == s.buffer
    ensures forall j :: 0 <= j < Flat(w, x, y) ==> ScanTo(s, w, h, y, x, nearest).indices[j] == c
    decreases y, x, 1
  {
    RowStartMonotone(w, y, h);
    if x > 0 {
      ScanUniformStep(s, w, h, y, x, nearest, c);
    } else if y > 0 {
      ScanUniform(s, w, h, y - 1, w, nearest, c);
      assert Flat(w, w, y - 1) == Flat(w, 0, y);
      assert ScanTo(s, w, h, y, x, nearest) == ScanTo(s, w, h, y - 1, w, nearest);
    }
  }

  /** The inductive step of ScanUniform within a row. */
  lemma {:induction false} ScanUniformStep(s: State, w: nat, h: nat, y: nat, x: nat, nearest: Rgb -> PaletteIndex, c: PaletteIndex)
    requires Shaped(s, w, h) && ScanPoint(w, h, x, y) && x > 0
    requires Uniform(s.buffer, c) && nearest(PaletteRgb[c]) == c
    ensures Flat(w, x, y) <= RowStart(w, h)
    ensures ScanTo(s, w, h, y, x, nearest).buffer == s.buffer
    ensures forall j :: 0 <= j < Flat(w, x, y) ==> ScanTo(s, w, h, y, x, nearest).indices[j] == c
    decreases y, x, 0
  {
    ScanUniform(s, w, h, y, x - 1, nearest, c);
    var prev := ScanTo(s, w, h, y, x - 1, nearest);
    FlatInside(w, h, x - 1, y);
    PaletteWellFormed();
    assert AllInRange(prev.buffer);
    assert prev.buffer[Flat(w, x - 1, y)] == PaletteRgb[c];
    ZeroErrorChangesNothing(prev, w, h, x - 1, y, nearest);
    VisitRecords(prev, w, h, x - 1, y, nearest);
    assert ScanTo(s, w, h, y, x, nearest) == Visit(prev, w, h, x - 1, y, nearest);
  }

  // ----- The scan in place -----

  /** The matcher of the program: nearest palette entry under the conversion toLab. */
  function Match(toLab: Rgb -> Lab): Rgb -> PaletteIndex {
    c => Nearest(Distances(toLab, c))
  }

  /** The row-major offset of pixel (x, y), computed with a multiplication. */
  method FlatIndex(w: nat, x: nat, y: nat) returns (i: nat)
    ensures i == Flat(w, x, y)
  {
    RowStartIsProduct(w, y);
    i := y * w + x;
  }

  /** Pushes the error of pixel (x, y) into its in-bounds targets. */
  method DiffuseError(buffer: array<Rgb>, w: nat, h: nat, x: nat, y: nat, e: Rgb)
    requires buffer.Length == RowStart(w, h) && x < w && y < h
    modifies buffer
    ensures buffer[..] == Diffuse(old(buffer[..]), w, h, x, y, e, Neighbours)
  {
    for k := 0 to Neighbours
      invariant buffer[..] == Diffuse(old(buffer[..]), w, h, x, y, e, k)
    {
      ghost var before := buffer[..];
      assert Diffuse(old(buffer[..]), w, h, x, y, e, k + 1) == DiffuseOne(before, w, h, x, y, e, k);
      var nx, ny := x + Dx[k], y + Dy[k];
      if nx >= 0 && nx < w && ny >= 0 && ny < h {
        var ni := FlatIndex(w, nx, ny);
        assert ni == Target(w, h, x, y, k);
        var p := buffer[ni];
        buffer[ni] := Rgb(Diffused(p.r, e.r, k), Diffused(p.g, e.g, k), Diffused(p.b, e.b, k));
      }
    }
  }

  /** Matches, records, replaces and diffuses pixel (x, y). */
  method VisitPixel(buffer: array<Rgb>, indices: array<int>, w: nat, h: nat, x: nat, y: nat, toLab: Rgb -> Lab)
    requires buffer.Length == RowStart(w, h) && indices.Length == RowStart(w, h) && x < w && y < h
    modifies buffer, indices
    ensures State(buffer[..], indices[..]) == Visit(State(old(buffer[..]), old(indices[..])), w, h, x, y, Match(toLab))
  {
    FlatInside(w, h, x, y);
    var idx := FlatIndex(w, x, y);
    ghost var b0, i0 := buffer[..], indices[..];
    var was := buffer[idx];
    var pi := ClosestIndexLab(toLab, was);
    ghost var nearest := Match(toLab);
    assert pi == nearest(was);
    indices[idx] := pi;
    assert indices[..] == i0[idx := pi];
    var now := PaletteRgb[pi];
    var err := Rgb(was.r - now.r, was.g - now.g, was.b - now.b);
    assert err == Error(was, now);
    buffer[idx] := now;
    assert buffer[..] == b0[idx := now];
    DiffuseError(buffer, w, h, x, y, err);
    assert Visit(State(b0, i0), w, h, x, y, nearest) == State(buffer[..], indices[..]);
  }

  /** Visits the pixels of row y from left to right. */
  method DitherRow(buffer: array<Rgb>, indices: array<int>, w: nat, h: nat, y: nat, toLab: Rgb -> Lab, ghost init: State)
    requires buffer.Length == RowStart(w, h) && indices.Length == RowStart(w, h) && y < h && Shaped(init, w, h)
    requires State(buffer[..], indices[..]) == ScanTo(init, w, h, y, 0, Match(toLab))
    modifies buffer, indices
    ensures State(buffer[..], indices[..]) == ScanTo(init, w, h, y + 1, 0, Match(toLab))
  {
    ghost var nearest := Match(toLab);
    for x := 0 to w
      invariant State(buffer[..], indices[..]) == ScanTo(init, w, h, y, x, nearest)
    {
      VisitPixel(buffer, indices, w, h, x, y, toLab);
    }
    assert ScanTo(init, w, h, y + 1, 0, nearest) == ScanTo(init, w, h, y, w, nearest);
  }

  /**
    The raster scan: rows top to bottom, pixels left to right. Afterwards
    every pixel holds the palette colour of its recorded index.
   */
  method DitherImage(buffer: array<Rgb>, indices: array<int>, w: nat, h: nat, toLab: Rgb -> Lab)
    requires buffer.Length == RowStart(w, h) && indices.Length == RowStart(w, h)
    modifies buffer, indices
    ensures State(buffer[..], indices[..]) == Dithered(State(old(buffer[..]), old(indices[..])), w, h, Match(toLab))
    ensures Matched(State(buffer[..], indices[..]), RowStart(w, h))
  {
    ghost var init := State(buffer[..], indices[..]);
    for y := 0 to h
      invariant State(buffer[..], indices[..]) == ScanTo(init, w, h, y, 0, Match(toLab))
    {
      DitherRow(buffer, indices, w, h, y, toLab, init);
    }
    ScanMatchesPalette(init, w, h, h, 0, Match(toLab));
  }
}
