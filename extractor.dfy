/** The core of extract_message: read the LSB of every colour value in scan
    order, zero-pad to whole bytes, decode, and strip the trailing NULs. */
module Extractor {
  import opened BitCodec
  import opened Layout

  /** (pixels[..., :3] & 1).flatten(): the LSBs of the colour values in scan
      order, one per unit of capacity. */
  function ColourLsbs(s: seq<bv8>, shape: Shape): (r: seq<Bit>)
    requires shape.Valid() && |s| == shape.Size()
    ensures |r| == shape.Capacity()
    ensures forall i :: 0 <= i < |s| && shape.IsColour(i) ==> r[shape.ScanPos(i)] == Lsb(s[i])
  {
    var r := seq(shape.Capacity(), k requires 0 <= k < shape.Capacity() => Lsb(s[shape.ColourIndex(k)]));
    assert forall i :: 0 <= i < |s| && shape.IsColour(i) ==> r[shape.ScanPos(i)] == Lsb(s[i]) by {
      forall i | 0 <= i < |s| && shape.IsColour(i)
        ensures r[shape.ScanPos(i)] == Lsb(s[i])
      {
        ScanOrderBijective(shape, i);
      }
    }
    r
  }

  /** Lines 35-36: zero bits on the right up to a whole number of bytes. The
      result is the shortest multiple of 8 that is not shorter than bits. */
  function PadToByteBoundary(bits: seq<Bit>): (r: seq<Bit>)
    ensures |r| % 8 == 0 && |bits| <= |r| < |bits| + 8
    ensures r[..|bits|] == bits
    ensures forall k :: |bits| <= k < |r| ==> r[k] == 0
  {
    var padLength := (8 - |bits| % 8) % 8;
    bits + Zeros(padLength)
  }

  /** No shorter multiple of 8 covers the bits: the pad is minimal. */
  lemma PadIsMinimal(bits: seq<Bit>, m: nat)
    requires m % 8 == 0 && |bits| <= m
    ensures |PadToByteBoundary(bits)| <= m
  {
  }

  /** extract_message on an already decoded pixel array (lines 32-42). */
  function ExtractMessage(s: seq<bv8>, shape: Shape): (r: string)
    requires shape.Valid() && |s| == shape.Size()
    ensures r == [] || r[|r| - 1] != '\0'
    ensures 8 * |r| <= shape.Capacity() + 7
  {
    var binaryMessage := PadToByteBoundary(ColourLsbs(s, shape));
    StripTrailingNuls(DecodeGroups(binaryMessage))
  }

  /** The extracted text depends only on the colour LSBs: changing any
      higher bit, or any channel from 3 on, does not change it. */
  lemma ExtractDependsOnlyOnColourLsbs(s: seq<bv8>, u: seq<bv8>, shape: Shape)
    requires shape.Valid() && |s| == |u| == shape.Size()
    requires forall i :: 0 <= i < |s| && shape.IsColour(i) ==> Lsb(s[i]) == Lsb(u[i])
    ensures ExtractMessage(s, shape) == ExtractMessage(u, shape)
  {
    var a, b := ColourLsbs(s, shape), ColourLsbs(u, shape);
    forall k | 0 <= k < shape.Capacity()
      ensures a[k] == b[k]
    {
      var i := shape.ColourIndex(k);
    }
    assert a == b;
  }
}
