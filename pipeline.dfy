/**
  The conversion as a whole: unpack the loaded 8-bit RGB image into a pixel
  buffer, dither it in raster order onto the palette, and write the
  run-length text of the resulting index buffer.
 */
module Pipeline {
  import opened Colour
  import opened Matcher
  import opened Dither
  import opened RunLength

  /** Every element is an unsigned 8-bit value. */
  predicate Bytes(img: seq<int>) {
    forall i :: 0 <= i < |img| ==> 0 <= img[i] <= 255
  }

  /** The pixels of an interleaved image, three bytes (red, green, blue) per pixel. */
  function Pixels(img: seq<int>, n: nat): (b: seq<Rgb>)
    requires |img| == 3 * n
    ensures |b| == n
    ensures Bytes(img) ==> AllInRange(b)
  {
    seq(n, i requires 0 <= i < n => Rgb(img[3 * i], img[3 * i + 1], img[3 * i + 2]))
  }

  /**
    The index buffer the program writes for a w by h image: the dithering
    scan's indices, one palette index per pixel. The scan's index buffer
    starts as zeros here; DitheredIgnoresInitialIndices shows the start does
    not matter.
   */
  function Output(img: seq<int>, w: nat, h: nat, toLab: Rgb -> Lab): (s: seq<int>)
    requires |img| == 3 * (w * h)
    ensures |s| == w * h
    ensures PaletteIndices(s)
  {
    RowStartIsProduct(w, h);
    var r := Dithered(State(Pixels(img, w * h), Repeat(0, w * h)), w, h, Match(toLab));
    ScanMatchesPalette(State(Pixels(img, w * h), Repeat(0, w * h)), w, h, h, 0, Match(toLab));
    r.indices
  }

  /**
    An image of 8-bit channels stays in [0,255] at every point of the scan,
    so the error taken at any pixel, in particular at the one visited next,
    lies in [-255,255].
   */
  lemma DitheredInRange(img: seq<int>, w: nat, h: nat, toLab: Rgb -> Lab)
    requires |img| == 3 * (w * h) && Bytes(img)
    ensures RowStart(w, h) == w * h
    ensures forall y, x :: ScanPoint(w, h, x, y) ==>
      AllInRange(ScanTo(State(Pixels(img, w * h), Repeat(0, w * h)), w, h, y, x, Match(toLab)).buffer) &&
      ErrorsBounded(ScanTo(State(Pixels(img, w * h), Repeat(0, w * h)), w, h, y, x, Match(toLab)).buffer, Match(toLab))
    ensures AllInRange(Dithered(State(Pixels(img, w * h), Repeat(0, w * h)), w, h, Match(toLab)).buffer)
  {
    RowStartIsProduct(w, h);
    var s := State(Pixels(img, w * h), Repeat(0, w * h));
    forall y, x | ScanPoint(w, h, x, y)
      ensures AllInRange(ScanTo(s, w, h, y, x, Match(toLab)).buffer)
      ensures ErrorsBounded(ScanTo(s, w, h, y, x, Match(toLab)).buffer, Match(toLab))
    {
      ScanKeepsRange(s, w, h, y, x, Match(toLab));
      InRangeErrorsBounded(ScanTo(s, w, h, y, x, Match(toLab)).buffer, Match(toLab));
    }
  }

  /**
    The index buffer is allocated without being initialised: whatever it
    holds before the scan, the dithered pixels and indices are the same.
   */
  lemma DitheredIgnoresInitialIndices(b: seq<Rgb>, i1: seq<int>, i2: seq<int>, w: nat, h: nat, nearest: Rgb -> PaletteIndex)
    requires |b| == w * h && |i1| == w * h && |i2| == w * h
    ensures RowStart(w, h) == w * h
    ensures Dithered(State(b, i1), w, h, nearest) == Dithered(State(b, i2), w, h, nearest)
  {
    RowStartIsProduct(w, h);
    ScanIgnoresInitialIndices(b, i1, i2, w, h, h, 0, nearest);
    var r1, r2 := Dithered(State(b, i1), w, h, nearest), Dithered(State(b, i2), w, h, nearest);
    assert r1.indices == r1.indices[..Flat(w, 0, h)];
    assert r2.indices == r2.indices[..Flat(w, 0, h)];
  }

  /**
    The conversion: copies the image into a fresh pixel buffer, dithers it in
    place into a fresh, uninitialised index buffer, and encodes the indices.
    The text is the serialisation of the dithered indices, it decodes to a
    w by h picture of them, and the dithered pixels stay in [0,255].
   */
  method Convert(img: array<int>, w: nat, h: nat, toLab: Rgb -> Lab) returns (text: string)
    requires img.Length == 3 * (w * h) && w * h >= 1 && Bytes(img[..])
    ensures text == Serialise(w, h, Output(img[..], w, h, toLab))
    ensures Decode(text) == Some(Picture(w, h, Output(img[..], w, h, toLab)))
    ensures RowStart(w, h) == w * h
    ensures AllInRange(Dithered(State(Pixels(img[..], w * h), Repeat(0, w * h)), w, h, Match(toLab)).buffer)
  {
    var n := w * h;
    RowStartIsProduct(w, h);
    var buffer := new Rgb[n];
    for i := 0 to n
      invariant forall j :: 0 <= j < i ==> buffer[j] == Rgb(img[3 * j], img[3 * j + 1], img[3 * j + 2])
    {
      buffer[i] := Rgb(img[3 * i], img[3 * i + 1], img[3 * i + 2]);
    }
    assert buffer[..] == Pixels(img[..], n);
    var indices := new int[n];
    ghost var b0, i0 := buffer[..], indices[..];
    DitherImage(buffer, indices, w, h, toLab);
    DitheredIgnoresInitialIndices(b0, i0, Repeat(0, n), w, h, Match(toLab));
    assert indices[..] == Output(img[..], w, h, toLab);
    text := Encode(w, h, indices);
    DecodeSerialise(w, h, indices[..]);
    DitheredInRange(img[..], w, h, toLab);
  }

  /** A sequence of one repeated index is written as a single run. */
  lemma SerialiseRepeat(w: nat, h: nat, c: PaletteIndex, n: nat)
    requires n >= 1
    ensures Serialise(w, h, Repeat(c, n)) == Header(w, h) + Token(Run(c, n)) + "\n"
  {
    assert Runs(Repeat(c, n)) == [Run(c, n)] by {
      assert [] + Repeat(c, n) == Repeat(c, n);
      RunsAppendRepeat([], c, n);
    }
    assert Body([Run(c, n)]) == Token(Run(c, n)) by {
      assert [Run(c, n)][1..] == [];
    }
  }

  /**
    An image of a single palette colour, under a conversion that keeps the
    palette entries apart, comes out unchanged, every pixel gets that
    colour's index, and the text is one run.
   */
  lemma UniformImageIsOneRun(b: seq<Rgb>, i: seq<int>, w: nat, h: nat, toLab: Rgb -> Lab, c: PaletteIndex)
    requires |b| == w * h && |i| == w * h && w * h >= 1
    requires Uniform(b, c) && PaletteSeparated(toLab)
    ensures RowStart(w, h) == w * h
    ensures Dithered(State(b, i), w, h, Match(toLab)) == State(b, Repeat(c, w * h))
    ensures Serialise(w, h, Repeat(c, w * h)) == Header(w, h) + Token(Run(c, w * h)) + "\n"
  {
    RowStartIsProduct(w, h);
    PaletteColourMatchesItself(toLab, c);
    ScanUniform(State(b, i), w, h, h, 0, Match(toLab), c);
    var r := Dithered(State(b, i), w, h, Match(toLab));
    assert r.indices == Repeat(c, w * h);
    SerialiseRepeat(w, h, c, w * h);
  }
}
