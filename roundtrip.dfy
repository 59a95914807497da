/** What hide_message and extract_message promise together: extraction reads
    back exactly the padded bitstream that embedding wrote, so a byte text that
    fits and does not end in NUL comes back unchanged. */
module RoundTrip {
  import opened BitCodec
  import opened Layout
  import opened Embedder
  import opened Extractor

  /** The bitstream hide_message writes for text t: its bits, zero-padded to
      the capacity of the array. */
  function Payload(t: string, shape: Shape): (r: seq<Bit>)
    requires IsByteText(t) && 8 * |t| <= shape.Capacity()
    ensures r == TextToBinary(t) + Zeros(shape.Capacity() - 8 * |t|)
  {
    var r := PadToCapacity(TextToBinary(t), shape.Capacity()).bits;
    assert r == TextToBinary(t) + Zeros(shape.Capacity() - 8 * |t|);
    r
  }

  /** Extraction reads back exactly the bitstream that embedding wrote. */
  lemma ColourLsbsOfEmbedded(s: seq<bv8>, shape: Shape, padded: seq<Bit>)
    requires shape.Valid() && |s| == shape.Size() && |padded| == shape.Capacity()
    ensures ColourLsbs(Embedded(s, shape, padded), shape) == padded
  {
    var r := ColourLsbs(Embedded(s, shape, padded), shape);
    forall k | 0 <= k < shape.Capacity()
      ensures r[k] == padded[k]
    {
      EmbeddedValues(s, shape, padded, shape.ColourIndex(k));
    }
  }

  /** Every colour LSB at a scan position past the message is 0 after
      embedding: the zero padding. */
  lemma PaddingLsbsAreZero(s: seq<bv8>, shape: Shape, t: string, k: nat)
    requires shape.Valid() && |s| == shape.Size()
    requires IsByteText(t) && 8 * |t| <= k < shape.Capacity()
    ensures Lsb(Embedded(s, shape, Payload(t, shape))[shape.ColourIndex(k)]) == 0
  {
    EmbeddedValues(s, shape, Payload(t, shape), shape.ColourIndex(k));
  }

  /** The bits extraction decodes: the message bits followed by n whole
      zero bytes. */
  lemma ExtractedBits(s: seq<bv8>, shape: Shape, t: string) returns (n: nat)
    requires shape.Valid() && |s| == shape.Size()
    requires IsByteText(t) && 8 * |t| <= shape.Capacity()
    ensures PadToByteBoundary(ColourLsbs(Embedded(s, shape, Payload(t, shape)), shape))
              == TextToBinary(t) + Zeros(8 * n)
  {
    var bits, padded := TextToBinary(t), Payload(t, shape);
    ColourLsbsOfEmbedded(s, shape, padded);
    var full := PadToByteBoundary(padded);
    n := |full| / 8 - |t|;
    var want := bits + Zeros(8 * n);
    assert |full| == |want|;
    forall k | 0 <= k < |full|
      ensures full[k] == want[k]
    {
      if k < |padded| {
        assert full[k] == full[..|padded|][k] == padded[k];
      }
    }
    assert full == want;
  }

  /** The round trip: a byte text that fits in the capacity and does not end
      in NUL is extracted exactly. */
  lemma {:induction false} ExtractAfterEmbed(s: seq<bv8>, shape: Shape, t: string)
    requires shape.Valid() && |s| == shape.Size()
    requires IsByteText(t) && 8 * |t| <= shape.Capacity()
    requires t == [] || t[|t| - 1] != '\0'
    ensures ExtractMessage(Embedded(s, shape, Payload(t, shape)), shape) == t
  {
    var n := ExtractedBits(s, shape, t);
    WholeBytes(|t|);
    WholeBytes(n);
    DecodeGroupsAppend(TextToBinary(t), Zeros(8 * n));
    DecodeOfTextToBinary(t);
    DecodeZeros(n);
    StripNulsOfPadded(t, n);
  }

  /** A text that ends in NUL cannot be carried: extraction returns it with
      its trailing NULs stripped, which is strictly shorter. */
  lemma {:induction false} TrailingNulIsLost(s: seq<bv8>, shape: Shape, t: string)
    requires shape.Valid() && |s| == shape.Size()
    requires IsByteText(t) && 8 * |t| <= shape.Capacity()
    requires t != [] && t[|t| - 1] == '\0'
    ensures ExtractMessage(Embedded(s, shape, Payload(t, shape)), shape) == StripTrailingNuls(t)
    ensures |ExtractMessage(Embedded(s, shape, Payload(t, shape)), shape)| < |t|
  {
    var n := ExtractedBits(s, shape, t);
    WholeBytes(|t|);
    WholeBytes(n);
    DecodeGroupsAppend(TextToBinary(t), Zeros(8 * n));
    DecodeOfTextToBinary(t);
    DecodeZeros(n);
    StripNulsLosesTrailingNul(t, n);
  }

  /** hide_message followed by extract_message on the same array: a byte text
      that fits and does not end in NUL comes back unchanged; a text that does
      not fit is refused and the array keeps its values. */
  method HideThenExtract(pixels: array<bv8>, shape: Shape, message: string) returns (outcome: Outcome, extracted: string)
    requires shape.Valid() && pixels.Length == shape.Size()
    requires IsByteText(message) && (message == [] || message[|message| - 1] != '\0')
    modifies pixels
    ensures outcome == Hidden <==> 8 * |message| <= shape.Capacity()
    ensures outcome == Hidden ==> extracted == message
    ensures outcome == CapacityError ==> pixels[..] == old(pixels[..]) && extracted == ExtractMessage(pixels[..], shape)
  {
    ghost var before := pixels[..];
    outcome := HideMessage(pixels, shape, message);
    extracted := ExtractMessage(pixels[..], shape);
    if outcome == Hidden {
      ExtractAfterEmbed(before, shape, message);
    }
  }

  /** "Hi" in a 4 x 4 RGB array: the colour LSBs read 01001000 01101001 and
      then 32 zeros, and extraction gives "Hi" back. */
  lemma HiInFourByFour(s: seq<bv8>)
    requires |s| == 48
    ensures IsByteText("Hi") && 8 * |"Hi"| <= Shape(4, 4, 3).Capacity()
    ensures ColourLsbs(Embedded(s, Shape(4, 4, 3), Payload("Hi", Shape(4, 4, 3))), Shape(4, 4, 3))
              == [0, 1, 0, 0, 1, 0, 0, 0, 0, 1, 1, 0, 1, 0, 0, 1] + Zeros(32)
    ensures ExtractMessage(Embedded(s, Shape(4, 4, 3), Payload("Hi", Shape(4, 4, 3))), Shape(4, 4, 3)) == "Hi"
  {
    var shape := Shape(4, 4, 3);
    TextToBinaryOfHi();
    assert shape.Capacity() == 48;
    ColourLsbsOfEmbedded(s, shape, Payload("Hi", shape));
    ExtractAfterEmbed(s, shape, "Hi");
  }
}
