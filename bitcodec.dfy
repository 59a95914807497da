/** The bit codec of the LSB steganography scheme: a message becomes the
    concatenation of its characters' code points, each written as eight
    big-endian bits; a bitstream decodes back group by group, and trailing NUL
    characters mark where the message ends. */
module BitCodec {

  /** One bit of a bitstream (a numpy uint8 holding 0 or 1). */
  type Bit = b: int | 0 <= b <= 1

  /** 2 to the power n. */
  function Pow2(n: nat): (r: nat)
    ensures r >= 1
  {
    if n == 0 then 1 else 2 * Pow2(n - 1)
  }

  /** A byte has 256 values. */
  lemma Pow2Of8()
    ensures Pow2(8) == 256
  {
    assert Pow2(2) == 4;
    assert Pow2(4) == 16;
    assert Pow2(6) == 64;
  }

  /** n zero bits. */
  function Zeros(n: nat): (r: seq<Bit>)
  {
    seq(n, k => 0)
  }

  /** n NUL characters. */
  function Nuls(n: nat): (r: string)
  {
    seq(n, k => '\0')
  }

  /** The w-digit binary numeral of n, most significant bit first: what
      format(n, '0wb') produces when n < 2^w. */
  function NatToBits(n: nat, w: nat): (r: seq<Bit>)
    ensures |r| == w
  {
    if w == 0 then [] else NatToBits(n / 2, w - 1) + [n % 2]
  }

  /** The value of a big-endian binary numeral: int(digits, 2). */
  function BitsToNat(b: seq<Bit>): (r: nat)
    ensures r < Pow2(|b|)
  {
    if b == [] then 0 else 2 * BitsToNat(b[..|b| - 1]) + b[|b| - 1]
  }

  /** (n / 2) / d == n / (2 * d): used to peel one bit off a numeral. */
  lemma HalfDiv(n: nat, d: nat)
    requires d >= 1
    ensures (n / 2) / d == n / (2 * d)
  {
    var q, r0 := n / 2, n % 2;
    var q2, r1 := q / d, q % d;
    assert n == 2 * d * q2 + (2 * r1 + r0);
    assert 0 <= 2 * r1 + r0 < 2 * d;
    DivOfSplit(n, 2 * d, q2, 2 * r1 + r0);
  }

  /** Division is unique: n == d * q + r with 0 <= r < d fixes n / d. */
  lemma DivOfSplit(n: nat, d: nat, q: nat, r: nat)
    requires d >= 1 && r < d && n == d * q + r
    ensures n / d == q
  {
    var q', r' := n / d, n % d;
    assert d * (q - q') == r' - r;
    MulAwayFromZero(d, q - q');
  }

  /** 8 * n bits are exactly n whole bytes. */
  lemma WholeBytes(n: nat)
    ensures (8 * n) % 8 == 0 && (8 * n) / 8 == n
  {
    DivOfSplit(8 * n, 8, n, 0);
  }

  /** A nonzero multiple of d is at least d away from zero. */
  lemma MulAwayFromZero(d: int, x: int)
    requires d >= 1
    ensures x >= 1 ==> d * x >= d
    ensures x <= -1 ==> d * x <= 0 - d
  {
  }

  /** Digit j of the w-digit numeral of n (counted from the left) is bit
      w - 1 - j of n: the layout is big-endian. */
  lemma {:induction false} NatToBitsAt(n: nat, w: nat, j: nat)
    requires j < w
    ensures NatToBits(n, w)[j] == (n / Pow2(w - 1 - j)) % 2
  {
    if j < w - 1 {
      NatToBitsAt(n / 2, w - 1, j);
      HalfDiv(n, Pow2(w - 2 - j));
    }
  }

  /** Reading back a numeral gives its value when the value fits in w bits. */
  lemma {:induction false} BitsToNatOfNatToBits(n: nat, w: nat)
    requires n < Pow2(w)
    ensures BitsToNat(NatToBits(n, w)) == n
  {
    if w > 0 {
      var x := NatToBits(n / 2, w - 1);
      HalfBelow(n, Pow2(w - 1));
      BitsToNatOfNatToBits(n / 2, w - 1);
      BitsToNatSnoc(x, n % 2);
    }
  }

  /** n < 2p implies n / 2 < p. */
  lemma HalfBelow(n: nat, p: nat)
    requires n < 2 * p
    ensures n / 2 < p
  {
  }

  /** Appending a digit d doubles the value and adds d. */
  lemma BitsToNatSnoc(x: seq<Bit>, d: Bit)
    ensures BitsToNat(x + [d]) == 2 * BitsToNat(x) + d
  {
    assert (x + [d])[..|x|] == x;
  }

  /** Writing a numeral's value with as many digits as it had gives the
      numeral back. */
  lemma {:induction false} NatToBitsOfBitsToNat(b: seq<Bit>)
    ensures NatToBits(BitsToNat(b), |b|) == b
  {
    if b != [] {
      var v := BitsToNat(b);
      var init := b[..|b| - 1];
      assert v / 2 == BitsToNat(init) && v % 2 == b[|b| - 1];
      NatToBitsOfBitsToNat(init);
      assert b == init + [b[|b| - 1]];
    }
  }

  /** A character the scheme carries: code point 0..255. */
  predicate IsByteChar(c: char)
  {
    c as int < 256
  }

  /** Every character of t is a byte character. */
  predicate IsByteText(t: string)
  {
    forall i :: 0 <= i < |t| ==> IsByteChar(t[i])
  }

  /** text_to_binary: the 8-bit big-endian code of each character, in order. */
  function TextToBinary(t: string): (r: seq<Bit>)
    requires IsByteText(t)
    ensures |r| == 8 * |t|
  {
    if t == [] then []
    else
      assert IsByteText(t[1..]) by {
        forall i | 0 <= i < |t[1..]| ensures IsByteChar(t[1..][i]) {
          assert t[1..][i] == t[i + 1];
        }
      }
      NatToBits(t[0] as int, 8) + TextToBinary(t[1..])
  }

  /** Bits 8i .. 8i+7 of text_to_binary(t) are the 8-bit numeral of t[i]. */
  lemma {:induction false} TextToBinaryBlock(t: string, i: nat)
    requires IsByteText(t) && i < |t|
    ensures TextToBinary(t)[8 * i .. 8 * i + 8] == NatToBits(t[i] as int, 8)
  {
    var r := TextToBinary(t);
    if i > 0 {
      var rest := TextToBinary(t[1..]);
      TextToBinaryBlock(t[1..], i - 1);
      assert r == NatToBits(t[0] as int, 8) + rest;
      assert r[8 * i .. 8 * i + 8] == rest[8 * (i - 1) .. 8 * (i - 1) + 8];
    }
  }

  /** The character with code point n (n < 256). */
  function ByteToChar(n: nat): (c: char)
    requires n < 256
    ensures c as int == n && IsByteChar(c)
  {
    n as char
  }

  /** The list comprehension in extract_message: group i is bits 8i .. 8i+7,
      read as a big-endian number and mapped to the character with that code
      point. */
  function DecodeGroups(bits: seq<Bit>): (r: string)
    requires |bits| % 8 == 0
    ensures |r| == |bits| / 8 && IsByteText(r)
  {
    seq(|bits| / 8, i requires 0 <= i < |bits| / 8 => GroupToChar(bits[8 * i .. 8 * i + 8]))
  }

  /** chr(int(group, 2)) for one 8-bit group. */
  function GroupToChar(g: seq<Bit>): (c: char)
    requires |g| == 8
    ensures IsByteChar(c) && NatToBits(c as int, 8) == g
  {
    Pow2Of8();
    NatToBitsOfBitsToNat(g);
    ByteToChar(BitsToNat(g))
  }

  /** Decoding distributes over concatenation at a group boundary. */
  lemma DecodeGroupsAppend(a: seq<Bit>, b: seq<Bit>)
    requires |a| % 8 == 0 && |b| % 8 == 0
    ensures DecodeGroups(a + b) == DecodeGroups(a) + DecodeGroups(b)
  {
    var lhs, rhs := DecodeGroups(a + b), DecodeGroups(a) + DecodeGroups(b);
    forall i | 0 <= i < |lhs|
      ensures lhs[i] == rhs[i]
    {
      if i < |a| / 8 {
        DecodeGroupsAppendLeft(a, b, i);
      } else {
        DecodeGroupsAppendRight(a, b, i - |a| / 8);
      }
    }
  }

  /** A group inside a decodes the same way in a + b. */
  lemma DecodeGroupsAppendLeft(a: seq<Bit>, b: seq<Bit>, i: nat)
    requires |a| % 8 == 0 && |b| % 8 == 0 && i < |a| / 8
    ensures DecodeGroups(a + b)[i] == DecodeGroups(a)[i]
  {
    assert (a + b)[8 * i .. 8 * i + 8] == a[8 * i .. 8 * i + 8];
  }

  /** Group j of b is group |a| / 8 + j of a + b. */
  lemma DecodeGroupsAppendRight(a: seq<Bit>, b: seq<Bit>, j: nat)
    requires |a| % 8 == 0 && |b| % 8 == 0 && j < |b| / 8
    ensures |a| / 8 + j < (|a| + |b|) / 8
    ensures DecodeGroups(a + b)[|a| / 8 + j] == DecodeGroups(b)[j]
  {
    var i := |a| / 8 + j;
    assert 8 * i == |a| + 8 * j;
    assert (a + b)[8 * i .. 8 * i + 8] == b[8 * j .. 8 * j + 8];
  }

  /** Zero bits decode as NUL characters: the padding becomes the sentinel. */
  lemma DecodeZeros(n: nat)
    ensures DecodeGroups(Zeros(8 * n)) == Nuls(n)
  {
    var z := Zeros(8 * n);
    WholeBytes(n);
    assert BitsToNat(NatToBits(0, 8)) == 0 by {
      BitsToNatOfNatToBits(0, 8);
    }
    forall i | 0 <= i < n
      ensures DecodeGroups(z)[i] == '\0'
    {
      assert z[8 * i .. 8 * i + 8] == NatToBits(0, 8);
    }
  }

  /** Decoding undoes text_to_binary on byte text. */
  lemma DecodeOfTextToBinary(t: string)
    requires IsByteText(t)
    ensures DecodeGroups(TextToBinary(t)) == t
  {
    WholeBytes(|t|);
    forall i | 0 <= i < |t|
      ensures DecodeGroups(TextToBinary(t))[i] == t[i]
    {
      DecodeCharAt(t, i);
    }
  }

  /** Group i of text_to_binary(t) decodes to t[i]. */
  lemma DecodeCharAt(t: string, i: nat)
    requires IsByteText(t) && i < |t|
    ensures |TextToBinary(t)| % 8 == 0 && DecodeGroups(TextToBinary(t))[i] == t[i]
  {
    var r := TextToBinary(t);
    WholeBytes(|t|);
    TextToBinaryBlock(t, i);
    GroupToCharOfCode(t[i]);
    assert DecodeGroups(r)[i] == GroupToChar(r[8 * i .. 8 * i + 8]);
  }

  /** A byte character's 8-bit code decodes back to the character. */
  lemma GroupToCharOfCode(c: char)
    requires IsByteChar(c)
    ensures GroupToChar(NatToBits(c as int, 8)) == c
  {
    Pow2Of8();
    BitsToNatOfNatToBits(c as int, 8);
  }

  /** text_to_binary is injective on byte text, so the bitstream determines
      the message. */
  lemma TextToBinaryInjective(t: string, u: string)
    requires IsByteText(t) && IsByteText(u)
    requires TextToBinary(t) == TextToBinary(u)
    ensures t == u
  {
    DecodeOfTextToBinary(t);
    DecodeOfTextToBinary(u);
  }

  /** 'H' (72) is 01001000. */
  lemma CodeOfCapitalH()
    ensures NatToBits(72, 8) == [0, 1, 0, 0, 1, 0, 0, 0]
  {
    assert NatToBits(4, 4) == [0, 1, 0, 0];
    assert NatToBits(18, 6) == [0, 1, 0, 0, 1, 0];
  }

  /** 'i' (105) is 01101001. */
  lemma CodeOfSmallI()
    ensures NatToBits(105, 8) == [0, 1, 1, 0, 1, 0, 0, 1]
  {
    assert NatToBits(6, 4) == [0, 1, 1, 0];
    assert NatToBits(26, 6) == [0, 1, 1, 0, 1, 0];
  }

  /** text_to_binary("Hi") is 01001000 01101001. */
  lemma TextToBinaryOfHi()
    ensures IsByteText("Hi")
    ensures TextToBinary("Hi") == [0, 1, 0, 0, 1, 0, 0, 0, 0, 1, 1, 0, 1, 0, 0, 1]
  {
    assert "Hi"[0] as int == 72 && "Hi"[1] as int == 105;
    CodeOfCapitalH();
    CodeOfSmallI();
    assert "Hi"[1..] == "i" && "i"[1..] == "";
  }

  /** rstrip('\x00'): the longest prefix of s that does not end in NUL, all
      characters after it being NUL. */
  function StripTrailingNuls(s: string): (r: string)
    ensures r <= s
    ensures r == [] || r[|r| - 1] != '\0'
    ensures forall i :: |r| <= i < |s| ==> s[i] == '\0'
  {
    if s != [] && s[|s| - 1] == '\0' then StripTrailingNuls(s[..|s| - 1]) else s
  }

  /** Stripping removes exactly the NULs appended to a text that does not
      itself end in NUL. */
  lemma StripNulsOfPadded(t: string, n: nat)
    requires t == [] || t[|t| - 1] != '\0'
    ensures StripTrailingNuls(t + Nuls(n)) == t
  {
    var s := t + Nuls(n);
    var r := StripTrailingNuls(s);
    assert r == s[..|r|];
    assert s[..|t|] == t;
  }

  /** A text that ends in NUL comes back shorter: the scheme cannot carry it. */
  lemma StripNulsLosesTrailingNul(t: string, n: nat)
    requires t != [] && t[|t| - 1] == '\0'
    ensures StripTrailingNuls(t + Nuls(n)) == StripTrailingNuls(t)
    ensures |StripTrailingNuls(t + Nuls(n))| < |t|
  {
    var s := t + Nuls(n);
    var r, q := StripTrailingNuls(s), StripTrailingNuls(t);
    assert s[..|t|] == t;
    assert r == s[..|r|] && q == t[..|q|];
  }
}
