/**
  Nearest-palette matching in a perceptual colour space. The conversion from
  RGB to L*a*b* is a parameter `toLab`: the model fixes only that one and the
  same conversion is applied to the pixel and to every palette entry.
 */
module Matcher {
  import opened Colour

  /** A perceptual coordinate: lightness and two chroma axes. */
  datatype Lab = Lab(l: real, a: real, b: real)

  /** The initial best distance of the scan; only a distance below it can be chosen. */
  const Sentinel: real := 1000000000.0

  /** Squared Euclidean distance between two perceptual coordinates; a colour is at distance 0 from itself. */
  function SquaredDistance(t: Lab, p: Lab): (d: real)
    ensures t == p ==> d == 0.0
  {
    var dl, da, db := t.l - p.l, t.a - p.a, t.b - p.b;
    dl * dl + da * da + db * db
  }

  /** The precomputed perceptual form of palette entry i. */
  function PaletteLab(toLab: Rgb -> Lab, i: PaletteIndex): Lab {
    toLab(PaletteRgb[i])
  }

  /** The distance from colour c to each palette entry, in palette order. */
  function Distances(toLab: Rgb -> Lab, c: Rgb): (d: seq<real>)
    ensures |d| == PaletteSize
  {
    seq(PaletteSize, i requires 0 <= i < PaletteSize => SquaredDistance(toLab(c), PaletteLab(toLab, i)))
  }

  /** The first position of a smallest element among d[..n]. */
  function FirstMinimum(d: seq<real>, n: nat): (k: nat)
    requires 1 <= n <= |d|
    ensures k < n
    ensures forall j :: 0 <= j < n ==> d[k] <= d[j]
    ensures forall j :: 0 <= j < k ==> d[j] > d[k]
  {
    if n == 1 then 0
    else
      var k := FirstMinimum(d, n - 1);
      if d[n - 1] < d[k] then n - 1 else k
  }

  /**
    The index the scan selects: the first minimum, provided it beats the
    sentinel; otherwise the scan's initial choice 0.
   */
  function Nearest(d: seq<real>): (k: PaletteIndex)
    requires |d| == PaletteSize
  {
    var m := FirstMinimum(d, PaletteSize);
    if d[m] < Sentinel then m else 0
  }

  /**
    What the scan promises: some distance below the sentinel means the chosen
    index has the smallest distance and no lower index ties it; no distance
    below the sentinel means index 0.
   */
  predicate IsNearest(d: seq<real>, k: int)
    requires |d| == PaletteSize
  {
    0 <= k < PaletteSize &&
    if exists i :: 0 <= i < PaletteSize && d[i] < Sentinel then
      (forall j :: 0 <= j < PaletteSize ==> d[k] <= d[j]) &&
      (forall j :: 0 <= j < k ==> d[j] > d[k])
    else
      k == 0
  }

  /** Nearest meets IsNearest, and no other index does. */
  lemma NearestCharacterised(d: seq<real>, k: int)
    requires |d| == PaletteSize
    ensures IsNearest(d, Nearest(d))
    ensures IsNearest(d, k) ==> k == Nearest(d)
  {
    var m := FirstMinimum(d, PaletteSize);
    if exists i :: 0 <= i < PaletteSize && d[i] < Sentinel {
      var i :| 0 <= i < PaletteSize && d[i] < Sentinel;
      assert d[m] <= d[i];
      if IsNearest(d, k) {
        assert d[k] <= d[m] && d[m] <= d[k];
        assert !(k < m) && !(m < k);
      }
    } else {
      assert !(d[m] < Sentinel);
    }
  }

  /**
    The linear scan over the palette: keeps the first index whose distance is
    strictly below the best seen so far, starting from the sentinel.
   */
  method ClosestIndexLab(toLab: Rgb -> Lab, c: Rgb) returns (best: PaletteIndex)
    ensures best == Nearest(Distances(toLab, c))
    ensures IsNearest(Distances(toLab, c), best)
  {
    ghost var d := Distances(toLab, c);
    var t := toLab(c);
    best := 0;
    var bestDist := Sentinel;
    for i := 0 to PaletteSize
      invariant forall j :: 0 <= j < i ==> bestDist <= d[j]
      invariant bestDist <= Sentinel
      invariant bestDist < Sentinel ==> best < i && bestDist == d[best] && forall j :: 0 <= j < best ==> d[j] > d[best]
      invariant bestDist == Sentinel ==> best == 0 && forall j :: 0 <= j < i ==> d[j] >= Sentinel
    {
      var dist := SquaredDistance(t, PaletteLab(toLab, i));
      if dist < bestDist {
        best := i;
        bestDist := dist;
      }
    }
    NearestCharacterised(d, best);
  }

  /** No two palette entries collide in perceptual space: each pair is a positive distance apart. */
  predicate PaletteSeparated(toLab: Rgb -> Lab) {
    forall i: PaletteIndex, j: PaletteIndex :: i != j ==> SquaredDistance(PaletteLab(toLab, i), PaletteLab(toLab, j)) > 0.0
  }

  /**
    When the palette entries are apart in perceptual space, each palette
    colour is matched to its own entry: its own distance is 0 and every other
    entry is further.
   */
  lemma PaletteColourMatchesItself(toLab: Rgb -> Lab, i: PaletteIndex)
    requires PaletteSeparated(toLab)
    ensures Nearest(Distances(toLab, PaletteRgb[i])) == i
  {
    var d := Distances(toLab, PaletteRgb[i]);
    var m := FirstMinimum(d, PaletteSize);
    assert d[i] == 0.0;
    assert d[m] <= d[i];
  }

  /**
    Ties go to the lower index: when entries i < j are equally close, the
    match is not j, whatever the other distances are.
   */
  lemma TieGoesToLowerIndex(d: seq<real>, i: PaletteIndex, j: PaletteIndex)
    requires |d| == PaletteSize
    requires i < j && d[i] == d[j]
    ensures Nearest(d) != j
  {
    var m := FirstMinimum(d, PaletteSize);
    assert d[m] <= d[i];
  }
}
