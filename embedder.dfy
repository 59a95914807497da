/** The pixel-level core of hide_message: the message bits, zero-padded to the
    array's capacity, replace the least significant bit of every colour value
    in scan order; an oversized message fails before any pixel changes. */
module Embedder {
  import opened BitCodec
  import opened Layout

  /** What np.pad produces for a right pad of the given width: the padded
      bits, or the error it raises for a negative width. */
  datatype Padding = Padded(bits: seq<Bit>) | NegativePadWidth

  /** How hide_message ends: the message is in the pixels, or np.pad raised
      because the message is longer than the capacity. */
  datatype Outcome = Hidden | CapacityError

  /** np.pad(bits, (0, capacity - len(bits)), 'constant'). */
  function PadToCapacity(bits: seq<Bit>, capacity: nat): (r: Padding)
    ensures r.Padded? <==> |bits| <= capacity
    ensures r.Padded? ==> |r.bits| == capacity && r.bits[..|bits|] == bits
    ensures r.Padded? ==> forall k :: |bits| <= k < capacity ==> r.bits[k] == 0
  {
    var width := capacity - |bits|;
    if width < 0 then NegativePadWidth else Padded(bits + Zeros(width))
  }

  /** Value v at flat index i after pixels[..., :3] &= 0b11111110. */
  function ClearedValue(shape: Shape, i: nat, v: bv8): bv8
    requires shape.Valid()
  {
    if shape.IsColour(i) then v & 0xFE else v
  }

  /** Value v at flat index i after pixels[..., :3] |= padded.reshape(...):
      a colour value is ORed with the bit at its scan position. */
  function OredValue(shape: Shape, padded: seq<Bit>, i: nat, v: bv8): bv8
    requires shape.Valid() && i < shape.Size() && |padded| == shape.Capacity()
  {
    if shape.IsColour(i) then v | BitByte(padded[shape.ScanPos(i)]) else v
  }

  /** The array's values after pixels[..., :3] &= 0b11111110. */
  function ClearedLsbs(s: seq<bv8>, shape: Shape): (r: seq<bv8>)
    requires shape.Valid() && |s| == shape.Size()
    ensures |r| == |s|
    ensures forall i :: 0 <= i < |s| && shape.IsColour(i) ==> Lsb(r[i]) == 0 && r[i] & 0xFE == s[i] & 0xFE
    ensures forall i :: 0 <= i < |s| && !shape.IsColour(i) ==> r[i] == s[i]
  {
    seq(|s|, i requires 0 <= i < |s| => ClearedValue(shape, i, s[i]))
  }

  /** The array's values after pixels[..., :3] |= padded.reshape(...). */
  function OredBits(s: seq<bv8>, shape: Shape, padded: seq<Bit>): (r: seq<bv8>)
    requires shape.Valid() && |s| == shape.Size() && |padded| == shape.Capacity()
    ensures |r| == |s|
    ensures forall i :: 0 <= i < |s| && shape.IsColour(i) ==>
              Lsb(r[i]) == (if Lsb(s[i]) == 1 then 1 else padded[shape.ScanPos(i)]) && r[i] & 0xFE == s[i] & 0xFE
    ensures forall i :: 0 <= i < |s| && !shape.IsColour(i) ==> r[i] == s[i]
  {
    seq(|s|, i requires 0 <= i < |s| => OredValue(shape, padded, i, s[i]))
  }

  /** The array after both steps of embedding. */
  function Embedded(s: seq<bv8>, shape: Shape, padded: seq<Bit>): (r: seq<bv8>)
    requires shape.Valid() && |s| == shape.Size() && |padded| == shape.Capacity()
    ensures |r| == |s|
    ensures forall i :: 0 <= i < |s| && shape.IsColour(i) ==>
              Lsb(r[i]) == padded[shape.ScanPos(i)] && r[i] & 0xFE == s[i] & 0xFE
    ensures forall i :: 0 <= i < |s| && !shape.IsColour(i) ==> r[i] == s[i]
  {
    OredBits(ClearedLsbs(s, shape), shape, padded)
  }

  /** The k-th colour value in scan order becomes (old & 0b11111110) | bit k. */
  lemma EmbeddedColourValue(s: seq<bv8>, shape: Shape, padded: seq<Bit>, k: nat)
    requires shape.Valid() && |s| == shape.Size() && |padded| == shape.Capacity()
    requires k < shape.Capacity()
    ensures var i := shape.ColourIndex(k);
            Embedded(s, shape, padded)[i] == (s[i] & 0xFE) | BitByte(padded[k])
  {
  }

  /** Replacing the LSB with b: the LSB becomes b, the other seven bits stay,
      so the value moves by at most 1. */
  lemma ReplaceLsb(v: bv8, b: Bit)
    ensures Lsb((v & 0xFE) | BitByte(b)) == b
    ensures ((v & 0xFE) | BitByte(b)) & 0xFE == v & 0xFE
    ensures -1 <= ((v & 0xFE) | BitByte(b)) as int - v as int <= 1
  {
    if b == 0 {
      assert (v & 0xFE) | 0 == v & 0xFE;
    } else {
      assert (v & 0xFE) | 1 == (v & 0xFE) + 1;
    }
    assert v == (v & 0xFE) + (v & 1);
  }

  /** Every colour value keeps its upper seven bits and gets the bit of its
      scan position as LSB; every other channel (alpha) is untouched. So no
      value moves by more than 1. */
  lemma EmbeddedValues(s: seq<bv8>, shape: Shape, padded: seq<Bit>, i: nat)
    requires shape.Valid() && |s| == shape.Size() && |padded| == shape.Capacity()
    requires i < |s|
    ensures var r := Embedded(s, shape, padded);
            (shape.IsColour(i) ==> Lsb(r[i]) == padded[shape.ScanPos(i)] && r[i] & 0xFE == s[i] & 0xFE) &&
            (!shape.IsColour(i) ==> r[i] == s[i]) &&
            -1 <= r[i] as int - s[i] as int <= 1
  {
    if shape.IsColour(i) {
      ReplaceLsb(s[i], padded[shape.ScanPos(i)]);
    }
  }

  /** Channels Colours() and up of pixel p (alpha and beyond) are not colour
      values. */
  lemma NonColourChannels(shape: Shape, p: nat)
    requires shape.Valid() && p < shape.Pixels()
    ensures (p + 1) * shape.channels == p * shape.channels + shape.channels <= shape.Size()
    ensures forall i :: p * shape.channels + shape.Colours() <= i < (p + 1) * shape.channels ==> !shape.IsColour(i)
  {
    var c := shape.channels;
    PixelChannelPos(shape, p, c - 1);
    forall i | p * c + shape.Colours() <= i < (p + 1) * c
      ensures !shape.IsColour(i)
    {
      PixelChannelPos(shape, p, i - p * c);
    }
  }

  /** Pixel p's values and its colour bits lie inside the array and the
      bitstream. */
  lemma PixelBounds(shape: Shape, p: nat)
    requires shape.Valid() && p < shape.Pixels()
    ensures p * shape.channels + shape.channels <= shape.Size()
    ensures p * shape.Colours() + shape.Colours() <= shape.Capacity()
  {
    SplitBelow(p, shape.channels - 1, shape.channels, shape.Pixels());
    if shape.Colours() > 0 {
      SplitBelow(p, shape.Colours() - 1, shape.Colours(), shape.Pixels());
    }
  }

  /** pixels[p, :3] &= 0b11111110 for the single pixel p. */
  method ClearPixelLsbs(pixels: array<bv8>, shape: Shape, p: nat)
    requires shape.Valid() && pixels.Length == shape.Size() && p < shape.Pixels()
    modifies pixels
    ensures forall i :: 0 <= i < pixels.Length ==>
              pixels[i] == if p * shape.channels <= i < p * shape.channels + shape.channels
                           then ClearedValue(shape, i, old(pixels[i])) else old(pixels[i])
  {
    var base, e := p * shape.channels, shape.Colours();
    PixelBounds(shape, p);
    var ch := 0;
    while ch < e
      invariant 0 <= ch <= e
      invariant forall i :: base <= i < base + ch ==> pixels[i] == ClearedValue(shape, i, old(pixels[i]))
      invariant forall i :: 0 <= i < base || base + ch <= i < pixels.Length ==> pixels[i] == old(pixels[i])
    {
      PixelChannelPos(shape, p, ch);
      pixels[base + ch] := pixels[base + ch] & 0xFE;
      ch := ch + 1;
    }
    NonColourChannels(shape, p);
  }

  /** pixels[..., :3] &= 0b11111110: the pixels in row-major order, each
      clearing its colour channels. */
  method ClearColourLsbs(pixels: array<bv8>, shape: Shape)
    requires shape.Valid() && pixels.Length == shape.Size()
    modifies pixels
    ensures forall i :: 0 <= i < pixels.Length ==> pixels[i] == ClearedValue(shape, i, old(pixels[i]))
  {
    var p, base := 0, 0;
    while p < shape.Pixels()
      invariant 0 <= p <= shape.Pixels() && base == p * shape.channels
      invariant base <= pixels.Length
      invariant forall i :: 0 <= i < base ==> pixels[i] == ClearedValue(shape, i, old(pixels[i]))
      invariant forall i :: base <= i < pixels.Length ==> pixels[i] == old(pixels[i])
    {
      PixelBounds(shape, p);
      ClearPixelLsbs(pixels, shape, p);
      p, base := p + 1, base + shape.channels;
    }
  }

  /** pixels[p, :3] |= the bits at scan positions p * Colours() onwards, for
      the single pixel p. */
  method OrPixelBits(pixels: array<bv8>, shape: Shape, padded: seq<Bit>, p: nat)
    requires shape.Valid() && pixels.Length == shape.Size() && |padded| == shape.Capacity()
    requires p < shape.Pixels()
    modifies pixels
    ensures forall i :: 0 <= i < pixels.Length ==>
              pixels[i] == if p * shape.channels <= i < p * shape.channels + shape.channels
                           then OredValue(shape, padded, i, old(pixels[i])) else old(pixels[i])
  {
    var base, e := p * shape.channels, shape.Colours();
    PixelBounds(shape, p);
    var ch, k := 0, p * e;
    while ch < e
      invariant 0 <= ch <= e && k == p * e + ch
      invariant forall i :: base <= i < base + ch ==> pixels[i] == OredValue(shape, padded, i, old(pixels[i]))
      invariant forall i :: 0 <= i < base || base + ch <= i < pixels.Length ==> pixels[i] == old(pixels[i])
    {
      PixelChannelPos(shape, p, ch);
      pixels[base + ch] := pixels[base + ch] | BitByte(padded[k]);
      ch, k := ch + 1, k + 1;
    }
    NonColourChannels(shape, p);
  }

  /** pixels[..., :3] |= padded.reshape(pixels[..., :3].shape): the pixels in
      row-major order, each taking the next Colours() bits of the stream. */
  method OrColourBits(pixels: array<bv8>, shape: Shape, padded: seq<Bit>)
    requires shape.Valid() && pixels.Length == shape.Size() && |padded| == shape.Capacity()
    modifies pixels
    ensures forall i :: 0 <= i < pixels.Length ==> pixels[i] == OredValue(shape, padded, i, old(pixels[i]))
  {
    var p, base := 0, 0;
    while p < shape.Pixels()
      invariant 0 <= p <= shape.Pixels() && base == p * shape.channels
      invariant base <= pixels.Length
      invariant forall i :: 0 <= i < base ==> pixels[i] == OredValue(shape, padded, i, old(pixels[i]))
      invariant forall i :: base <= i < pixels.Length ==> pixels[i] == old(pixels[i])
    {
      PixelBounds(shape, p);
      OrPixelBits(pixels, shape, padded, p);
      p, base := p + 1, base + shape.channels;
    }
  }

  /** hide_message on an already decoded pixel array (lines 10 and 17-19):
      encode the message, pad it to capacity (failing, with the array
      untouched, when it does not fit), clear the colour LSBs, OR in the bits. */
  method HideMessage(pixels: array<bv8>, shape: Shape, message: string) returns (outcome: Outcome)
    requires shape.Valid() && pixels.Length == shape.Size()
    requires IsByteText(message)
    modifies pixels
    ensures outcome == Hidden <==> 8 * |message| <= shape.Capacity()
    ensures outcome == CapacityError ==> pixels[..] == old(pixels[..])
    ensures outcome == Hidden ==>
              pixels[..] == Embedded(old(pixels[..]), shape, PadToCapacity(TextToBinary(message), shape.Capacity()).bits)
  {
    var binaryMessage := TextToBinary(message);
    var padding := PadToCapacity(binaryMessage, shape.Capacity());
    if padding.NegativePadWidth? {
      return CapacityError;
    }
    ghost var before := pixels[..];
    ClearColourLsbs(pixels, shape);
    ghost var cleared := pixels[..];
    OrColourBits(pixels, shape, padding.bits);
    outcome := Hidden;
    assert cleared == ClearedLsbs(before, shape);
    assert pixels[..] == OredBits(cleared, shape, padding.bits);
  }
}
