/** `huffman_decode` with the one line of its window that goes wrong put right: every string comes back. */
module HuffmanIntended {
  import opened BitStrings
  import opened HuffmanCode
  import opened HuffmanTrie
  import opened HuffmanEncoder
  import opened HuffmanDecoder

  /** The high bits of the fifth octet, instead of the low ones that the source takes. */
  function HighFifth(o: Octet, used: nat): (high: nat)
    requires used < 8
    ensures high < Pow2(used) && Bits(high, used) == Bits(o, 8)[..used]
  {
    hide Bits, Pow2;
    TakenHighBits(o, used);
    Quotient(o, Pow2(8 - used))
  }

  function Quotient(a: nat, b: nat): nat
    requires b > 0
  {
    a / b
  }

  lemma TakenHighBits(o: Octet, used: nat)
    requires used < 8
    ensures Quotient(o, Pow2(8 - used)) < Pow2(used)
    ensures Bits(Quotient(o, Pow2(8 - used)), used) == Bits(o, 8)[..used]
  {
    hide Bits, Pow2, Quotient;
    var _ := TakeHighBits(o, Pow2(8 - used), used);
  }

  lemma {:induction false} TakeHighBits(o: Octet, p: nat, used: nat) returns (high: nat)
    requires used < 8 && p == Pow2(8 - used)
    ensures high == Quotient(o, p) && high < Pow2(used) && Bits(high, used) == Bits(o, 8)[..used]
  {
    hide Bits, Pow2;
    Pow2Sum(used, 8 - used);
    Pow2Values();
    QuotientBelow(o, Pow2(used), p);
    var q, _ := BitsSplit(o, used, 8 - used);
    high := q;
  }

  function IntendedWindow(input: seq<Octet>, index: nat, used: nat): nat
    requires used < 8
  {
    var word := Or(Or(Or(At(input, index) * 0x100_0000, At(input, index + 1) * 0x1_0000),
                      At(input, index + 2) * 0x100), At(input, index + 3));
    Or(word * Pow2(used) % 0x1_0000_0000, HighFifth(At(input, index + 4), used))
  }

  function DecodeIntended(input: seq<Octet>, p: nat): seq<Octet>
    decreases 8 * |input| - p
  {
    if p / 8 >= |input| then []
    else
      var symbol := DecodeChar(IntendedWindow(input, p / 8, p % 8));
      if symbol > 255 || p + BitWidth(symbol) > 8 * |input| then []
      else [symbol] + DecodeIntended(input, p + BitWidth(symbol))
  }

  /** The intended window is the 32 bits from the bit offset on. */
  lemma {:induction false} IntendedBits(input: seq<Octet>, index: nat, used: nat)
    requires used < 8
    ensures Bits(IntendedWindow(input, index, used), WORD_BITS) == OctetBits(Five(input, index))[used..32 + used]
  {
    hide Or, Bits, OctetBits;
    Pow2Values();
    var a, b, c, d := At(input, index), At(input, index + 1), At(input, index + 2), At(input, index + 3);
    WordBits(a, b, c, d);
    ShiftIn(Or(Or(Or((a as nat) * 0x100_0000, (b as nat) * 0x1_0000), (c as nat) * 0x100), d),
      HighFifth(At(input, index + 4), used), used, WORD_BITS);
    var five := Five(input, index);
    OctetBitsAppend(five[..4], five[4]);
    assert five == five[..4] + [five[4]] && five[..4] == [a, b, c, d];
  }

  lemma {:induction false} IntendedDecodesAt(out: seq<Octet>, p: nat, c: Octet)
    requires p + BitWidth(c) <= 8 * |out| && Code(c) <= OctetBits(out)[p..]
    ensures p / 8 < |out| && DecodeChar(IntendedWindow(out, p / 8, p % 8)) == c
  {
    hide BitWidth, HuffmanTable, Code, OctetBits, Bits, IntendedWindow, DecodeChar, Five;
    var index, used := p / 8, p % 8;
    FiveBits(out, index);
    IntendedBits(out, index, used);
    var five := OctetBits(Five(out, index));
    assert OctetBits(out)[p..] == OctetBits(out)[8 * index..][used..];
    assert Code(c) <= five[used..] && Code(c) == five[used..][..|Code(c)|] == five[used..32 + used][..|Code(c)|];
    DecodeCharAgreesWithTable(IntendedWindow(out, index, used), c);
  }

  lemma {:induction false} IntendedPaddingEnds(out: seq<Octet>, p: nat)
    requires 8 * |out| - 8 < p <= 8 * |out| && OctetBits(out)[p..] == Ones(8 * |out| - p)
    ensures DecodeIntended(out, p) == []
  {
    hide BitWidth, HuffmanTable, Code, OctetBits, Bits, IntendedWindow, DecodeChar;
    var index, used := p / 8, p % 8;
    if index < |out| {
      var symbol := DecodeChar(IntendedWindow(out, index, used));
      FiveBits(out, index);
      IntendedBits(out, index, used);
      var five := OctetBits(Five(out, index));
      assert OctetBits(out)[p..] == OctetBits(out)[8 * index..][used..];
      var left := 8 * |out| - p;
      var window := five[used..32 + used];
      assert window[..left] == Ones(left);
      DecodeCharAgreesWithTable(IntendedWindow(out, index, used), 0);
      DecodeCharAgreesWithTable(IntendedWindow(out, index, used), symbol);
      if symbol <= 255 && BitWidth(symbol) <= left {
        assert Code(symbol) == window[..left][..BitWidth(symbol)] == Ones(BitWidth(symbol));
        EndOfStringCode();
        assert Ones(BitWidth(symbol)) <= Ones(WIDEST);
        PrefixFree(symbol, 256);
        assert false;
      }
    }
  }

  lemma {:induction false} IntendedSuffix(s: seq<Octet>, j: nat)
    requires j <= |s|
    ensures DecodeIntended(HuffmanOctets(s), |EncodeBits(s[..j])|) == s[j..]
    decreases |s| - j
  {
    hide BitWidth, HuffmanTable, Code, OctetBits, Bits, IntendedWindow, DecodeChar, HuffmanOctets, EncodeBits;
    var out, p := HuffmanOctets(s), |EncodeBits(s[..j])|;
    StreamAt(s, j);
    if j == |s| {
      assert s[..j] == s;
      IntendedPaddingEnds(out, p);
    } else {
      EncodeBitsSnoc(s, j);
      IntendedDecodesAt(out, p, s[j]);
      IntendedSuffix(s, j + 1);
      assert s[j..] == [s[j]] + s[j + 1..];
    }
  }

  /** With the intended window, decoding undoes encoding for all strings of all 256 octets. */
  lemma {:induction false} IntendedRoundTrip(s: seq<Octet>)
    ensures DecodeIntended(HuffmanOctets(s), 0) == s
  {
    hide HuffmanOctets, EncodeBits, DecodeIntended, BitWidth, HuffmanTable;
    assert s[..0] == [] && s[0..] == s;
    NothingEncoded();
    IntendedSuffix(s, 0);
  }
}
