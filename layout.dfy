/** The pixel array an image decodes to, stored flat in C order, and the scan
    order that embedding and extraction share: row-major over pixels, then
    channels 0, 1, 2 within each pixel. */
module Layout {
  import opened BitCodec

  /** Shape of an 8-bit pixel array: height x width x channels. The value of
      channel ch of the pixel at (row, col) sits at flat index
      (row * width + col) * channels + ch. */
  datatype Shape = Shape(height: nat, width: nat, channels: nat) {

    /** A three-dimensional array with at least one channel. */
    predicate Valid()
    {
      channels >= 1
    }

    /** Number of pixels. */
    function Pixels(): nat
    {
      height * width
    }

    /** Number of values in the whole array. */
    function Size(): nat
    {
      Pixels() * channels
    }

    /** How many channels of a pixel pixels[..., :3] selects: the colour
        channels 0..2 (fewer when the array has fewer). */
    function Colours(): (r: nat)
      ensures r <= 3 && r <= channels
    {
      if channels < 3 then channels else 3
    }

    /** pixels[..., :3].size: one carrier bit per colour value. */
    function Capacity(): (r: nat)
      ensures r <= Size()
    {
      assert Size() == Pixels() * Colours() + Pixels() * (channels - Colours());
      Pixels() * Colours()
    }

    /** Flat index i holds a colour value (its channel is below 3). */
    predicate IsColour(i: nat)
      requires Valid()
    {
      i % channels < Colours()
    }

    /** The place of colour value i in pixels[..., :3].flatten(). */
    function ScanPos(i: nat): (k: nat)
      requires Valid()
      ensures i < Size() && IsColour(i) ==> k < Capacity()
    {
      ScanPosBound(this, i);
      (i / channels) * Colours() + i % channels
    }

    /** The flat index of the k-th colour value in scan order. */
    function ColourIndex(k: nat): (i: nat)
      requires Valid() && k < Capacity()
      ensures i < Size() && IsColour(i) && ScanPos(i) == k
    {
      ColourIndexFacts(this, k);
      (k / Colours()) * channels + k % Colours()
    }
  }

  /** (q * d + r) / d == q and (q * d + r) % d == r when r < d. */
  lemma DivModOfSplit(q: nat, r: nat, d: nat)
    requires r < d
    ensures (q * d + r) / d == q && (q * d + r) % d == r
  {
    DivOfSplit(q * d + r, d, q, r);
  }

  /** q < p and r < d imply q * d + r < p * d. */
  lemma SplitBelow(q: nat, r: nat, d: nat, p: nat)
    requires q < p && r < d
    ensures q * d + r < p * d
  {
    MulAwayFromZero(d, p - q);
  }

  lemma ScanPosBound(shape: Shape, i: nat)
    requires shape.Valid()
    ensures i < shape.Size() && shape.IsColour(i) ==>
              (i / shape.channels) * shape.Colours() + i % shape.channels < shape.Capacity()
  {
    var c := shape.channels;
    if i < shape.Size() && shape.IsColour(i) {
      var p := i / c;
      assert i == p * c + i % c;
      if p >= shape.Pixels() {
        MulAwayFromZero(c, p - shape.Pixels());
      }
      SplitBelow(p, i % c, shape.Colours(), shape.Pixels());
    }
  }

  lemma ColourIndexFacts(shape: Shape, k: nat)
    requires shape.Valid() && k < shape.Capacity()
    ensures var i := (k / shape.Colours()) * shape.channels + k % shape.Colours();
            i < shape.Size() && shape.IsColour(i) &&
            (i / shape.channels) * shape.Colours() + i % shape.channels == k
  {
    var c, e := shape.channels, shape.Colours();
    var p, ch := k / e, k % e;
    assert k == p * e + ch;
    if p >= shape.Pixels() {
      MulAwayFromZero(e, p - shape.Pixels());
    }
    DivModOfSplit(p, ch, c);
    SplitBelow(p, ch, c, shape.Pixels());
  }

  /** Scan order is a bijection between the colour values of the array and
      the positions 0 .. Capacity() - 1. */
  lemma ScanOrderBijective(shape: Shape, i: nat)
    requires shape.Valid() && i < shape.Size() && shape.IsColour(i)
    ensures shape.ColourIndex(shape.ScanPos(i)) == i
  {
    var c, e := shape.channels, shape.Colours();
    var p, ch := i / c, i % c;
    assert shape.ScanPos(i) == p * e + ch;
    DivModOfSplit(p, ch, e);
  }

  /** Channel ch of pixel p: in scan order its value comes p * Colours() + ch. */
  lemma PixelChannelPos(shape: Shape, p: nat, ch: nat)
    requires shape.Valid() && p < shape.Pixels() && ch < shape.channels
    ensures p * shape.channels + ch < shape.Size()
    ensures shape.IsColour(p * shape.channels + ch) <==> ch < shape.Colours()
    ensures ch < shape.Colours() ==> shape.ScanPos(p * shape.channels + ch) == p * shape.Colours() + ch
  {
    DivModOfSplit(p, ch, shape.channels);
    SplitBelow(p, ch, shape.channels, shape.Pixels());
  }

  /** For an array with three or more channels the capacity is
      height x width x 3. */
  lemma CapacityOfColourImage(shape: Shape)
    requires shape.channels >= 3
    ensures shape.Capacity() == shape.height * shape.width * 3
  {
  }

  /** The least significant bit of a channel value: v & 1. */
  function Lsb(v: bv8): (b: Bit)
    ensures (v & 0xFE) | BitByte(b) == v
  {
    if v & 1 == 0 then 0 else 1
  }

  /** A bit as a channel value (the uint8 0 or 1). */
  function BitByte(b: Bit): (v: bv8)
  {
    if b == 0 then 0 else 1
  }
}
