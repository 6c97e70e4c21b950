/** `huffman_decode`, and exactly which encoded strings it reads back. */
module HuffmanDecoder {
  import opened BitStrings
  import opened HuffmanCode
  import opened HuffmanTrie
  import opened HuffmanEncoder

  // The 32-bit window at a bit position

  /** The octet at an index; zero past the end. */
  function At(input: seq<Octet>, i: nat): Octet {
    if i < |input| then input[i] else 0
  }

  /** `(uint8_t) (o << (8 - used)) >> (8 - used)` */
  function Fifth(o: Octet, used: nat): (low: nat)
    requires used < 8
    ensures low < Pow2(used) && Bits(low, used) == Bits(o, 8)[8 - used..]
  {
    hide Bits, Pow2;
    LowBits(o, used);
    o * Pow2(8 - used) % 256 / Pow2(8 - used)
  }

  /** Four octets, shifted left by the bit offset; the vacated low bits take the fifth octet's LOW bits. */
  function Window(input: seq<Octet>, index: nat, used: nat): nat
    requires used < 8
  {
    var word := Or(Or(Or(At(input, index) * 0x100_0000, At(input, index + 1) * 0x1_0000),
                      At(input, index + 2) * 0x100), At(input, index + 3));
    Or(word * Pow2(used) % 0x1_0000_0000, Fifth(At(input, index + 4), used))
  }

  /** The symbols read from bit position `p` on. */
  function DecodeFrom(input: seq<Octet>, p: nat): seq<Octet>
    decreases 8 * |input| - p
  {
    if p / 8 >= |input| then []
    else
      var symbol := DecodeChar(Window(input, p / 8, p % 8));
      if symbol > 255 || p + BitWidth(symbol) > 8 * |input| then []
      else [symbol] + DecodeFrom(input, p + BitWidth(symbol))
  }

  // What the window holds

  lemma {:induction false} WordBits(a: Octet, b: Octet, c: Octet, d: Octet)
    ensures var word := Or(Or(Or(a * 0x100_0000, b * 0x1_0000), c * 0x100), d);
            word < Pow2(32) && Bits(word, WORD_BITS) == OctetBits([a, b, c, d])
  {
    hide Or, Bits, OctetBits, Pow2;
    Pow2Values();
    OrDisjoint(a, b * 0x1_0000, 24);
    OrDisjoint(a * 0x100 + b, c * 0x100, 16);
    OrDisjoint((a * 0x100 + b) * 0x100 + c, d, 8);
    BitsConcat(a, 8, b, 8);
    BitsConcat(a * 0x100 + b, 16, c, 8);
    BitsConcat((a * 0x100 + b) * 0x100 + c, 24, d, 8);
    FourOctetBits(a, b, c, d);
  }

  /** Dropping high bits and appending low ones. */
  lemma {:induction false} ShiftIn(word: nat, low: nat, used: nat, n: nat)
    requires used <= n && word < Pow2(n) && low < Pow2(used)
    ensures Or(word * Pow2(used) % Pow2(n), low) == word % Pow2(n - used) * Pow2(used) + low
    ensures Bits(Or(word * Pow2(used) % Pow2(n), low), n) == Bits(word, n)[used..] + Bits(low, used)
  {
    hide Or, Bits, Pow2;
    var p, q := Pow2(used), Pow2(n - used);
    Pow2Sum(n - used, used);
    DivMod(word, q);
    var h, r := word / q, word % q;
    assert word * p == h * (q * p) + r * p by { Rebracket(h, q, r, p); }
    ProductBelow(r, q, p);
    DivModUnique(word * p, h, q * p, r * p);
    OrDisjoint(r, low, used);
    BitsConcat(r, n - used, low, used);
    var _, _ := BitsSplit(word, used, n - used);
    assert Bits(word, n)[used..] == Bits(r, n - used);
  }

  lemma {:induction false} Rebracket(h: nat, q: nat, r: nat, p: nat)
    ensures (h * q + r) * p == h * (q * p) + r * p
  {
    assert (h * q + r) * p == (h * q) * p + r * p;
    assert (h * q) * p == h * (q * p);
  }

  /** The cast-and-shift of the fifth octet keeps its low bits. */
  lemma {:induction false} LowBits(o: Octet, used: nat)
    requires used < 8
    ensures o * Pow2(8 - used) % 256 / Pow2(8 - used) == o % Pow2(used)
    ensures o % Pow2(used) < Pow2(used) && Bits(o % Pow2(used), used) == Bits(o, 8)[8 - used..]
  {
    hide Bits, Pow2;
    var p, q := Pow2(8 - used), Pow2(used);
    Pow2Sum(used, 8 - used);
    Pow2Values();
    DivMod(o, q);
    var h, r := o / q, o % q;
    assert o * p == h * (q * p) + r * p by { Rebracket(h, q, r, p); }
    ProductBelow(r, q, p);
    DivModUnique(o * p, h, q * p, r * p);
    DivModUnique(r * p, r, p, 0);
    var _, _ := BitsSplit(o, 8 - used, used);
  }

  lemma {:induction false} WindowBits(input: seq<Octet>, index: nat, used: nat)
    requires used < 8
    ensures Bits(Window(input, index, used), WORD_BITS)
         == OctetBits([At(input, index), At(input, index + 1), At(input, index + 2), At(input, index + 3)])[used..]
          + Bits(At(input, index + 4), 8)[8 - used..]
  {
    hide Or, Bits, OctetBits;
    Pow2Values();
    var a, b, c, d := At(input, index), At(input, index + 1), At(input, index + 2), At(input, index + 3);
    WordBits(a, b, c, d);
    ShiftIn(Or(Or(Or((a as nat) * 0x100_0000, (b as nat) * 0x1_0000), (c as nat) * 0x100), d),
      Fifth(At(input, index + 4), used), used, WORD_BITS);
  }

  /** The five octets a window is made from. */
  function Five(input: seq<Octet>, index: nat): (five: seq<Octet>)
    ensures |five| == 5
  {
    [At(input, index), At(input, index + 1), At(input, index + 2), At(input, index + 3), At(input, index + 4)]
  }

  /** They hold the bits of the input from there on, with zeros past the end. */
  lemma {:induction false} FiveBits(input: seq<Octet>, index: nat)
    requires index < |input|
    ensures var bits, five := OctetBits(input)[8 * index..], OctetBits(Five(input, index));
            five == if |bits| >= 40 then bits[..40] else bits + Zeros(40 - |bits|)
  {
    hide OctetBits;
    var end := if index + 5 <= |input| then index + 5 else |input|;
    var z: seq<Octet> := seq(5 - (end - index), _ => 0);
    assert Five(input, index) == input[index..end] + z;
    OctetBitsConcat(input[index..end], z);
    OctetBitsOfZeros(z);
    OctetBitsSlice(input, index, end);
  }

  lemma {:induction false} WindowFromFive(input: seq<Octet>, index: nat, used: nat)
    requires used < 8
    ensures var five := OctetBits(Five(input, index));
            Bits(Window(input, index, used), WORD_BITS) == five[used..32] + five[40 - used..]
  {
    hide OctetBits, Bits, Window;
    var five := Five(input, index);
    var four := five[..4];
    WindowBits(input, index, used);
    assert four == [At(input, index), At(input, index + 1), At(input, index + 2), At(input, index + 3)];
    OctetBitsAppend(four, five[4]);
    assert five == four + [five[4]];
  }

  // When the window shows the code word that is there

  /** Where a code word of width `w` at bit position `p` reaches into the fifth octet, the bits it needs
      there are repeated at the place the source takes them from. */
  ghost predicate FifthOctetAgrees(out: seq<Octet>, p: nat, w: nat)
    requires w <= 30
  {
    var used, fifth := p % 8, Bits(At(out, p / 8 + 4), 8);
    var reach := used + w - 32;
    reach > 0 ==> fifth[..reach] == fifth[8 - used..8 - used + reach]
  }

  lemma {:induction false} CodeInWindow(code: seq<bool>, five: seq<bool>, used: nat)
    requires |five| == 40 && used < 8 && |code| <= 30 && code <= five[used..]
    ensures var reach := used + |code| - 32;
            code <= five[used..32] + five[40 - used..]
            <==> (reach > 0 ==> five[32..32 + reach] == five[40 - used..40 - used + reach])
  {
    var window, reach := five[used..32] + five[40 - used..], used + |code| - 32;
    if reach <= 0 {
      assert code == five[used..][..|code|] == window[..|code|];
    } else {
      assert code == five[used..][..|code|] == five[used..32] + five[32..32 + reach];
      assert window[..|code|] == five[used..32] + five[40 - used..40 - used + reach];
      if code <= window {
        assert code == window[..|code|];
        assert five[32..32 + reach] == code[32 - used..] == five[40 - used..40 - used + reach];
      } else {
        assert code != window[..|code|];
      }
    }
  }

  /** At the start of a code word, the source recognises it exactly when the fifth octet agrees. */
  lemma {:induction false} DecodesAt(out: seq<Octet>, p: nat, c: Octet)
    requires p + BitWidth(c) <= 8 * |out| && Code(c) <= OctetBits(out)[p..]
    ensures p / 8 < |out|
    ensures DecodeChar(Window(out, p / 8, p % 8)) == c <==> FifthOctetAgrees(out, p, BitWidth(c))
  {
    hide BitWidth, HuffmanTable, Code, OctetBits, Bits, Window, DecodeChar, FifthOctetAgrees, Five;
    var index, used := p / 8, p % 8;
    FiveBits(out, index);
    WindowFromFive(out, index, used);
    var five := OctetBits(Five(out, index));
    assert OctetBits(out)[p..] == OctetBits(out)[8 * index..][used..];
    assert Code(c) <= five[used..];
    CodeInWindow(Code(c), five, used);
    AgreementInFive(out, p, BitWidth(c));
    DecodeCharAgreesWithTable(Window(out, index, used), c);
  }

  lemma {:induction false} AgreementInFive(out: seq<Octet>, p: nat, w: nat)
    requires w <= 30
    ensures var five, used := OctetBits(Five(out, p / 8)), p % 8;
            var reach := used + w - 32;
            FifthOctetAgrees(out, p, w)
            <==> (reach > 0 ==> five[32..32 + reach] == five[40 - used..40 - used + reach])
  {
    hide OctetBits, Bits;
    var five, used := OctetBits(Five(out, p / 8)), p % 8;
    var reach := used + w - 32;
    LastOctet(out, p / 8);
    if reach > 0 {
      assert five[32..][..reach] == five[32..32 + reach];
      assert five[32..][8 - used..8 - used + reach] == five[40 - used..40 - used + reach];
    }
  }

  lemma {:induction false} LastOctet(out: seq<Octet>, index: nat)
    ensures OctetBits(Five(out, index))[32..] == Bits(At(out, index + 4), 8)
  {
    hide OctetBits, Bits;
    var five := Five(out, index);
    OctetBitsAppend(five[..4], five[4]);
    assert five == five[..4] + [five[4]];
  }

  /** After the last code word, fewer than eight ones are left: every symbol they could start is too wide. */
  lemma {:induction false} PaddingEnds(out: seq<Octet>, p: nat)
    requires 8 * |out| - 8 < p <= 8 * |out| && OctetBits(out)[p..] == Ones(8 * |out| - p)
    ensures DecodeFrom(out, p) == []
  {
    hide BitWidth, HuffmanTable, Code, OctetBits, Bits, Window, DecodeChar;
    var index, used := p / 8, p % 8;
    if index < |out| {
      var symbol := DecodeChar(Window(out, index, used));
      FiveBits(out, index);
      WindowFromFive(out, index, used);
      var five := OctetBits(Five(out, index));
      assert OctetBits(out)[p..] == OctetBits(out)[8 * index..][used..];
      var left := 8 * |out| - p;
      var window := five[used..32] + five[40 - used..];
      assert window[..left] == Ones(left);
      DecodeCharAgreesWithTable(Window(out, index, used), 0);
      DecodeCharAgreesWithTable(Window(out, index, used), symbol);
      if symbol <= 255 && BitWidth(symbol) <= left {
        assert Code(symbol) == window[..left][..BitWidth(symbol)] == Ones(BitWidth(symbol));
        EndOfStringCode();
        assert Ones(BitWidth(symbol)) <= Ones(WIDEST);
        PrefixFree(symbol, 256);
        assert false;
      }
    }
  }

  lemma {:induction false} EndOfStringCode()
    ensures Code(256) == Ones(WIDEST)
  {
    assert Pow2(30) - 1 == 0x3fffffff by { Pow2Sum(24, 6); Pow2Values(); }
    BitsOfOnes(WIDEST);
  }

  // The round trip

  /** Every code word of `s` is recognised where it was written. */
  ghost predicate Readable(s: seq<Octet>) {
    forall j :: 0 <= j < |s| ==> FifthOctetAgrees(HuffmanOctets(s), |EncodeBits(s[..j])|, BitWidth(s[j]))
  }

  /** The symbols decoded from the j-th code word on: all of them, or a first one that went wrong. */
  lemma {:induction false} DecodeSuffix(s: seq<Octet>, j: nat)
    requires j <= |s|
    ensures var out, d := HuffmanOctets(s), DecodeFrom(HuffmanOctets(s), |EncodeBits(s[..j])|);
            || (d == s[j..] && forall i :: j <= i < |s| ==> FifthOctetAgrees(out, |EncodeBits(s[..i])|, BitWidth(s[i])))
            || exists i :: j <= i < |s| && !FifthOctetAgrees(out, |EncodeBits(s[..i])|, BitWidth(s[i]))
                           && (|d| <= i - j || d[i - j] != s[i])
    decreases |s| - j
  {
    hide BitWidth, HuffmanTable, Code, OctetBits, Bits, Window, DecodeChar, HuffmanOctets, EncodeBits, FifthOctetAgrees;
    var out, p := HuffmanOctets(s), |EncodeBits(s[..j])|;
    var d := DecodeFrom(out, p);
    StreamAt(s, j);
    if j == |s| {
      assert s[..j] == s;
      PaddingEnds(out, p);
    } else {
      var c := s[j];
      EncodeBitsSnoc(s, j);
      DecodesAt(out, p, c);
      if FifthOctetAgrees(out, p, BitWidth(c)) {
        DecodeSuffix(s, j + 1);
        var rest := DecodeFrom(out, p + BitWidth(c));
        assert d == [c] + rest && s[j..] == [c] + s[j + 1..];
        if rest != s[j + 1..] {
          var i :| j + 1 <= i < |s| && !FifthOctetAgrees(out, |EncodeBits(s[..i])|, BitWidth(s[i]))
                   && (|rest| <= i - (j + 1) || rest[i - (j + 1)] != s[i]);
          assert |d| <= i - j || d[i - j] != s[i];
        }
      } else {
        assert |d| <= j - j || d[j - j] != s[j];
      }
    }
  }

  /** What stands in the output at the j-th code word. */
  lemma {:induction false} StreamAt(s: seq<Octet>, j: nat)
    requires j <= |s|
    ensures var out, p := HuffmanOctets(s), |EncodeBits(s[..j])|;
            && p <= |EncodeBits(s)| <= 8 * |out| < |EncodeBits(s)| + 8
            && (j < |s| ==> p + BitWidth(s[j]) <= 8 * |out| && Code(s[j]) <= OctetBits(out)[p..])
            && (j == |s| ==> OctetBits(out)[p..] == Ones(8 * |out| - p))
  {
    hide BitWidth, HuffmanTable, Code, OctetBits, HuffmanOctets;
    assert s == s[..j] + s[j..];
    EncodeBitsConcat(s[..j], s[j..]);
    var a, b := EncodeBits(s[..j]), EncodeBits(s[j..]);
    var pad := Ones(PadLength(|EncodeBits(s)|));
    assert OctetBits(HuffmanOctets(s)) == a + b + pad == a + (b + pad);
    assert OctetBits(HuffmanOctets(s))[|a|..] == b + pad;
    if j < |s| {
      assert s[j..][0] == s[j];
      assert b == Code(s[j]) + EncodeBits(s[j..][1..]);
      assert b + pad == Code(s[j]) + (EncodeBits(s[j..][1..]) + pad);
    } else {
      assert b + pad == pad;
    }
  }

  /** `huffman_decode` undoes `huffman_encode` exactly on the strings whose code words are all readable. */
  lemma {:induction false} RoundTrip(s: seq<Octet>)
    ensures DecodeFrom(HuffmanOctets(s), 0) == s <==> Readable(s)
  {
    hide HuffmanOctets, FifthOctetAgrees, EncodeBits, DecodeFrom, BitWidth, HuffmanTable;
    assert s[..0] == [] && s[0..] == s;
    NothingEncoded();
    DecodeSuffix(s, 0);
  }

  /** A string that is not readable comes back with a wrong or missing symbol of more than 25 bits. */
  lemma {:induction false} UnreadableDiverges(s: seq<Octet>) returns (i: nat)
    requires !Readable(s)
    ensures i < |s| && BitWidth(s[i]) > 25
    ensures var d := DecodeFrom(HuffmanOctets(s), 0); |d| <= i || d[i] != s[i]
  {
    hide HuffmanOctets, BitWidth, HuffmanTable, FifthOctetAgrees, DecodeFrom, EncodeBits;
    assert s[..0] == [] && s[0..] == s && |EncodeBits(s[..0])| == 0 by { NothingEncoded(); }
    var out, d := HuffmanOctets(s), DecodeFrom(HuffmanOctets(s), 0);
    DecodeSuffix(s, 0);
    i :| 0 <= i < |s| && !FifthOctetAgrees(out, |EncodeBits(s[..i])|, BitWidth(s[i]))
        && (|d| <= i - 0 || d[i - 0] != s[i]);
    DisagreementIsWide(out, |EncodeBits(s[..i])|, BitWidth(s[i]));
  }

  lemma NothingEncoded()
    ensures EncodeBits([]) == []
  {
  }

  lemma DisagreementIsWide(out: seq<Octet>, p: nat, w: nat)
    requires w <= 30 && !FifthOctetAgrees(out, p, w)
    ensures w > 25
  {
  }

  /** Code words of at most 25 bits never need the fifth octet; printable ASCII has no wider ones. */
  lemma {:induction false} NarrowIsReadable(s: seq<Octet>)
    requires forall c :: c in s ==> BitWidth(c) <= 25
    ensures Readable(s)
  {
  }

  lemma {:induction false} PrintableIsNarrow(c: Octet)
    requires 32 <= c < 127
    ensures BitWidth(c) <= 25
  {
  }

  /** "0" followed by a line feed is not readable: the 30-bit code word starts at bit 5 and ends in
      the fifth octet, whose high bits are 100 but whose low five bits start with 111. */
  lemma {:induction false} LineFeedIsLost()
    ensures !Readable([48, 10]) && DecodeFrom(HuffmanOctets([48, 10]), 0) != [48, 10]
  {
    hide HuffmanOctets, OctetBits, EncodeBits, Code, Bits, DecodeFrom;
    var s: seq<Octet> := [48, 10];
    var out := HuffmanOctets(s);
    LineFeedBits();
    assert |out| == 5;
    LastOctetBits(out);
    var fifth := Bits(out[4], 8);
    assert fifth == (Code(48) + Code(10) + Ones(5))[32..40];
    assert fifth[1] == Code(10)[28] && fifth[4] == true;
    assert fifth[..3][1] == fifth[1] && fifth[3..6][1] == fifth[4];
    assert !FifthOctetAgrees(out, |EncodeBits(s[..1])|, BitWidth(s[1]));
    RoundTrip(s);
  }

  lemma {:induction false} LastOctetBits(out: seq<Octet>)
    requires |out| == 5
    ensures Bits(out[4], 8) == OctetBits(out)[32..40]
  {
    hide Bits, OctetBits;
    OctetBitsSlice(out, 4, 5);
    OctetBitsAppend([], out[4]);
    assert out[4..5] == [] + [out[4]];
    NoBits();
  }

  lemma {:induction false} LineFeedBits()
    ensures var s: seq<Octet> := [48, 10];
            && EncodeBits(s) == Code(48) + Code(10) && |EncodeBits(s[..1])| == 5
            && BitWidth(48) == 5 && BitWidth(10) == WIDEST && Code(10)[28] == false
  {
    hide Bits;
    var s: seq<Octet> := [48, 10];
    assert s[..1] == [48];
    assert s[1..] == [10] && s[..1][1..] == [] && s[1..][1..] == [];
    LineFeedTail();
  }

  lemma {:induction false} LineFeedTail()
    ensures Bits(HuffmanTable(10), WIDEST)[28] == false
  {
    var v := HuffmanTable(10);
    assert v == 0x3ffffffc;
    var _, _ := BitsSplit(v, 28, 2);
    assert Bits(v % 4, 2)[0] == false;
  }

  // The imperative decoder

  /** The window, assembled octet by octet. */
  method LoadWindow(input: seq<Octet>, index: nat, used: nat) returns (octet: nat)
    requires used < 8
    ensures octet == Window(input, index, used)
  {
    hide Or, Pow2, Fifth;
    octet := (At(input, index) as nat) * 0x100_0000;
    octet := Or(octet, At(input, index + 1) * 0x1_0000);
    octet := Or(octet, At(input, index + 2) * 0x100);
    octet := Or(octet, At(input, index + 3));
    octet := octet * Pow2(used) % 0x1_0000_0000;
    octet := Or(octet, Fifth(At(input, index + 4), used));
  }

  lemma DecodeUnfold(input: seq<Octet>, index: nat, used: nat)
    requires index < |input| && used < 8
    ensures var p, symbol := 8 * index + used, DecodeChar(Window(input, index, used));
            DecodeFrom(input, p) == if symbol > 255 || p + BitWidth(symbol) > 8 * |input| then []
                                    else [symbol] + DecodeFrom(input, p + BitWidth(symbol))
  {
    hide BitWidth, DecodeChar, Window;
    var p := 8 * index + used;
    assert p / 8 == index && p % 8 == used;
  }

  /** `huffman_decode`: every store is inside the allocation of 2 * length + 1 octets. */
  method HuffmanDecode(input: seq<Octet>) returns (out: array<Octet>, outLength: nat)
    ensures fresh(out) && out.Length == 2 * |input| + 1 && outLength < out.Length
    ensures out[..outLength] == DecodeFrom(input, 0) && out[outLength] == 0
  {
    hide BitWidth, HuffmanTable, DecodeChar, Window, DecodeFrom;
    var index, used := 0, 0;
    out := new Octet[2 * |input| + 1];
    var capacity := |input|;
    outLength := 0;
    ghost var done, rest := [], DecodeFrom(input, 0);
    DecodeEnd(input);
    while index < |input|
      invariant fresh(out) && out.Length == 2 * |input| + 1
      invariant used < 8 && 8 * index + used <= 8 * |input|
      invariant 5 * outLength <= 8 * index + used
      invariant capacity == |input| || capacity == 2 * |input|
      invariant rest == DecodeFrom(input, 8 * index + used)
      invariant out[..outLength] == done && done + rest == DecodeFrom(input, 0)
      decreases 8 * |input| - 8 * index - used
    {
      var octet := LoadWindow(input, index, used);
      DecodeUnfold(input, index, used);
      var decoded := DecodeChar(octet);
      if decoded > 255 {
        rest := [];
        break;
      }
      ghost var p := 8 * index + used;
      var indexUsed;
      indexUsed, used := Advance(used, BitWidth(decoded));
      if index + indexUsed > |input| || (index + indexUsed == |input| && used > 0) {
        rest := [];
        break;
      }
      index := index + indexUsed;
      if outLength >= capacity {
        capacity := 2 * capacity;
        out := Grown(out, outLength, capacity + 1);
      }
      StoreOctet(out, outLength, decoded);
      outLength := outLength + 1;
      Shift(done, decoded, DecodeFrom(input, p + BitWidth(decoded)));
      done, rest := done + [decoded], DecodeFrom(input, p + BitWidth(decoded));
    }
    assert done + [] == done;
    out[outLength] := 0;
  }

  /** The bit cursor after a code word: whole octets consumed and the new bit offset. */
  method Advance(used: nat, width: nat) returns (indexUsed: nat, used': nat)
    requires used < 8
    ensures used' < 8 && 8 * indexUsed + used' == used + width
  {
    indexUsed := width / 8;
    used' := used + width % 8;
    if used' >= 8 {
      indexUsed := indexUsed + used' / 8;
      used' := used' % 8;
    }
  }

  lemma DecodeEnd(input: seq<Octet>)
    ensures DecodeFrom(input, 8 * |input|) == []
  {
  }

  lemma Shift(done: seq<Octet>, o: Octet, rest: seq<Octet>)
    ensures done + ([o] + rest) == done + [o] + rest
  {
  }

  method StoreOctet(out: array<Octet>, at: nat, o: Octet)
    requires at < out.Length
    modifies out
    ensures out[..at + 1] == old(out[..at]) + [o]
  {
    out[at] := o;
  }

  /** `prealloc` to `size` octets. */
  method Grown(old_: array<Octet>, kept: nat, size: nat) returns (grown: array<Octet>)
    requires kept <= old_.Length && kept <= size
    ensures fresh(grown) && grown.Length == size && grown[..kept] == old_[..kept]
  {
    grown := new Octet[size];
    for i := 0 to kept
      invariant grown[..i] == old_[..i]
    {
      grown[i] := old_[i];
    }
  }
}
