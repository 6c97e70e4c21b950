/** `huffman_encode`: overlapping five-octet writes refine the concatenation of code words. */
module HuffmanEncoder {
  import opened BitStrings
  import opened HuffmanCode
  import opened HuffmanTrie

  // The bit-level specification: section 5.2 of RFC 7541

  function EncodeBits(s: seq<Octet>): seq<bool> {
    if s == [] then [] else Code(s[0]) + EncodeBits(s[1..])
  }

  function PadLength(n: nat): (r: nat)
    ensures r < 8 && (n + r) % 8 == 0
  {
    (8 - n % 8) % 8
  }

  /** The code words of `s` one after another, then ones up to the octet boundary. */
  function HuffmanOctets(s: seq<Octet>): (out: seq<Octet>)
    ensures 8 * |out| == |EncodeBits(s)| + PadLength(|EncodeBits(s)|)
    ensures OctetBits(out) == EncodeBits(s) + Ones(PadLength(|EncodeBits(s)|))
  {
    var bits := EncodeBits(s) + Ones(PadLength(|EncodeBits(s)|));
    BitsOfPack(bits);
    Pack(bits)
  }

  lemma {:induction false} EncodeBitsConcat(s: seq<Octet>, t: seq<Octet>)
    ensures EncodeBits(s + t) == EncodeBits(s) + EncodeBits(t)
  {
    hide Code;
    if s == [] {
      assert s + t == t;
    } else {
      assert (s + t)[1..] == s[1..] + t;
      EncodeBitsConcat(s[1..], t);
    }
  }

  lemma {:induction false} EncodeBitsSnoc(s: seq<Octet>, i: nat)
    requires i < |s|
    ensures EncodeBits(s[..i + 1]) == EncodeBits(s[..i]) + Code(s[i])
  {
    hide Code;
    EncodeBitsConcat(s[..i], [s[i]]);
    assert s[..i + 1] == s[..i] + [s[i]];
    assert EncodeBits([s[i]]) == Code(s[i]) + [] == Code(s[i]);
  }

  // One step: merging a code word into the open octet

  /** The 40-bit word written at the output cursor, with `used` bits of the octet there taken. */
  function Adjusted(open: Octet, used: nat, code: nat, width: nat): nat
    requires used + width <= 40
  {
    if used > 0 then Or(open * Pow2(32), code * Pow2(40 - width - used)) else code * Pow2(40 - width)
  }

  lemma {:induction false} OpenBits(open: Octet, used: nat) returns (high: nat)
    requires 0 < used < 8 && Bits(open, 8)[used..] == Zeros(8 - used)
    ensures open == high * Pow2(8 - used) && Bits(open, 8)[..used] == Bits(high, used)
    ensures high < Pow2(used)
  {
    var low := Pow2(8 - used);
    high := open / low;
    var _, _ := BitsSplit(open, used, 8 - used);
    DivMod(open, low);
    BitsOfZero(8 - used);
    BitsInjective(open % low, 0, 8 - used);
    Pow2Sum(used, 8 - used);
    Pow2Values();
    QuotientBelow(open, Pow2(used), low);
  }

  lemma {:induction false} AdjustedBits(open: Octet, used: nat, code: nat, width: nat)
    requires used < 8 && width <= 30 && code < Pow2(width)
    requires used > 0 ==> Bits(open, 8)[used..] == Zeros(8 - used)
    ensures var v := Adjusted(open, used, code, width);
            Bits(v, 40) == Bits(open, 8)[..used] + Bits(code, width) + Zeros(40 - used - width)
  {
    hide Bits, Pow2, Or;
    var rest := 40 - used - width;
    var high := 0;
    if used > 0 {
      high := OpenBits(open, used);
      Pow2Sum(8 - used, 32);
      Pow2Sum(width, rest);
      assert open * Pow2(32) == high * Pow2(40 - used) by {
        Associate(high, Pow2(8 - used), Pow2(32));
      }
      ProductBelow(code, Pow2(width), Pow2(rest));
      OrDisjoint(high, code * Pow2(rest), 40 - used);
      Associate(high, Pow2(width), Pow2(rest));
      Distribute(high * Pow2(width), code, Pow2(rest));
    } else {
      assert 0 * Pow2(width) == 0;
    }
    BitsConcat(high * Pow2(width) + code, used + width, 0, rest);
    BitsConcat(high, used, code, width);
    BitsOfZero(rest);
    assert used == 0 ==> Bits(high, used) == Bits(open, 8)[..used] == [];
  }

  lemma Associate(a: nat, b: nat, c: nat)
    ensures a * b * c == a * (b * c)
  {
  }

  lemma Distribute(a: nat, b: nat, c: nat)
    ensures (a + b) * c == a * c + b * c
  {
  }

  /** Five octets holding a 40-bit word. */
  function FiveOctets(v: nat): (os: seq<Octet>)
    ensures |os| == 5
  {
    [v / 0x1_0000_0000 % 256, v / 0x100_0000 % 256, v / 0x1_0000 % 256, v / 0x100 % 256, v % 256]
  }

  lemma {:induction false} FiveOctetsBits(v: nat)
    ensures OctetBits(FiveOctets(v)) == Bits(v, 40)
  {
    hide Bits, OctetBits, Pow2;
    Pow2Values();
    var q1, r1 := BitsSplit(v, 32, 8);
    var q2, r2 := BitsSplit(q1, 24, 8);
    var q3, r3 := BitsSplit(q2, 16, 8);
    var q4, r4 := BitsSplit(q3, 8, 8);
    var q5, r5 := BitsSplit(q4, 0, 8);
    FiveDigits(v);
    FourOctetBits(r5, r4, r3, r2);
    OctetBitsAppend([r5, r4, r3, r2], r1);
    assert [r5, r4, r3, r2] + [r1] == [r5, r4, r3, r2, r1];
    assert Bits(q5, 0) + Bits(r5, 8) == Bits(r5, 8);
  }

  lemma {:induction false} FiveDigits(v: nat)
    ensures FiveOctets(v) == [v / 256 / 256 / 256 / 256 % 256, v / 256 / 256 / 256 % 256, v / 256 / 256 % 256,
                              v / 256 % 256, v % 256]
  {
  }

  /** What the writes have produced so far: whole octets, then `used` bits of an open octet whose
      remaining bits are clear. */
  ghost predicate Written(octets: seq<Octet>, used: nat, bits: seq<bool>)
    requires used < 8 && octets != []
  {
    var last := |octets| - 1;
    && OctetBits(octets[..last]) + Bits(octets[last], 8)[..used] == bits
    && (used > 0 ==> Bits(octets[last], 8)[used..] == Zeros(8 - used))
  }

  /** Cutting octets at a bit position leaves whole octets and an open one. */
  lemma {:induction false} CutOctets(os: seq<Octet>, front: seq<bool>, rest: nat)
    requires OctetBits(os) == front + Zeros(rest) && rest > 0
    ensures var q, r := |front| / 8, |front| % 8;
            && q < |os|
            && OctetBits(os[..q]) + Bits(os[q], 8)[..r] == front
            && Bits(os[q], 8)[r..] == Zeros(8 - r)
  {
    hide Bits, OctetBits;
    var q, r := |front| / 8, |front| % 8;
    OctetBitsSlice(os, 0, q);
    OctetBitsSlice(os, q, q + 1);
    OctetBitsAppend([], os[q]);
    assert os[q..q + 1] == [] + [os[q]] && OctetBits([]) == [];
    assert Bits(os[q], 8) == OctetBits(os)[8 * q..8 * q + 8];
    assert os[0..q] == os[..q];
  }

  /** One five-octet write extends the written bits by one code word. */
  lemma {:induction false} WriteStep(whole: seq<Octet>, open: Octet, used: nat, bits: seq<bool>, c: Octet)
    requires used < 8 && Written(whole + [open], used, bits)
    ensures var total := used + BitWidth(c);
            var os := FiveOctets(Adjusted(open, used, HuffmanTable(c), BitWidth(c)));
            total / 8 < 5 && Written(whole + os[..total / 8 + 1], total % 8, bits + Code(c))
  {
    hide BitWidth, HuffmanTable, Bits, OctetBits, Adjusted, FiveOctets;
    var w, code := BitWidth(c), HuffmanTable(c);
    var v := Adjusted(open, used, code, w);
    var os, q, r := FiveOctets(v), (used + w) / 8, (used + w) % 8;
    assert (whole + [open])[..|whole|] == whole;
    CodeFits(c);
    AdjustedBits(open, used, code, w);
    FiveOctetsBits(v);
    var front := Bits(open, 8)[..used] + Code(c);
    CutOctets(os, front, 40 - used - w);
    OctetBitsConcat(whole, os[..q]);
    var next := whole + os[..q + 1];
    assert next[..|next| - 1] == whole + os[..q] && next[|next| - 1] == os[q];
    Regroup(OctetBits(whole), OctetBits(os[..q]), Bits(os[q], 8)[..r], Bits(open, 8)[..used], Code(c));
  }

  lemma Regroup(a: seq<bool>, b: seq<bool>, c: seq<bool>, d: seq<bool>, e: seq<bool>)
    requires b + c == d + e
    ensures a + b + c == a + d + e
  {
    assert a + b + c == a + (b + c);
    assert a + d + e == a + (d + e);
  }

  /** Closing the open octet with ones completes the specified encoding. */
  lemma {:induction false} CloseStep(whole: seq<Octet>, open: Octet, used: nat, s: seq<Octet>)
    requires used < 8 && Written(whole + [open], used, EncodeBits(s))
    ensures Or(open, Pow2(8 - used) - 1) < 256
    ensures HuffmanOctets(s) == if used > 0 then whole + [Or(open, Pow2(8 - used) - 1)] else whole
  {
    hide Bits, OctetBits, Pow2, Or, EncodeBits, HuffmanOctets;
    assert (whole + [open])[..|whole|] == whole;
    var bits := EncodeBits(s);
    assert |bits| == 8 * |whole| + used;
    var pad := PadLength(|bits|);
    if used > 0 {
      var high := OpenBits(open, used);
      OrDisjoint(high, Pow2(pad) - 1, pad);
      OpenFits(high, used);
      var closed := Or(open, Pow2(pad) - 1);
      BitsConcat(high, used, Pow2(pad) - 1, pad);
      BitsOfOnes(pad);
      OctetBitsAppend(whole, closed);
      assert OctetBits(whole) + (Bits(high, used) + Ones(pad)) == bits + Ones(pad);
      OctetBitsInjective(HuffmanOctets(s), whole + [closed]);
    } else {
      OrAllOnes(open);
      assert bits + Ones(pad) == bits && OctetBits(whole) + Bits(open, 8)[..0] == OctetBits(whole);
      OctetBitsInjective(HuffmanOctets(s), whole);
    }
  }

  lemma {:induction false} OpenFits(high: nat, used: nat)
    requires used <= 8 && high < Pow2(used)
    ensures high * Pow2(8 - used) + (Pow2(8 - used) - 1) < 256
  {
    Pow2Sum(used, 8 - used);
    Pow2Values();
    ProductAtMost(high + 1, Pow2(used), Pow2(8 - used));
  }

  lemma {:induction false} OrAllOnes(open: Octet)
    ensures Or(open, Pow2(8) - 1) < 256
  {
    assert Pow2(8) - 1 == 255;
    OrBound(open, 255, 8);
  }

  lemma {:induction false} OrBound(a: nat, b: nat, n: nat)
    requires a < Pow2(n) && b < Pow2(n)
    ensures Or(a, b) < Pow2(n)
  {
    if n > 0 && (a > 0 || b > 0) {
      OrBound(a / 2, b / 2, n - 1);
    }
  }

  // The imperative encoder

  /** Octets that follow every allocation in the model, so that a write past it has somewhere to go. */
  const SLACK: nat := 4

  /** `prealloc`: the old allocation's octets survive, the rest of the new block is arbitrary. */
  method Reallocate(old_: array<Octet>, kept: nat, capacity: nat) returns (grown: array<Octet>)
    requires kept <= old_.Length && kept <= capacity
    ensures fresh(grown) && grown.Length == capacity + 1 + SLACK
    ensures grown[..kept] == old_[..kept]
  {
    grown := new Octet[capacity + 1 + SLACK];
    for i := 0 to kept
      invariant grown[..i] == old_[..i]
    {
      grown[i] := old_[i];
    }
  }

  /** The five stores of one step, from the last octet back to the first. */
  method StoreFive(out: array<Octet>, at: nat, adjusted: nat)
    requires at + 5 <= out.Length
    modifies out
    ensures out[..at] == old(out[..at])
    ensures out[at..at + 5] == FiveOctets(adjusted)
    ensures forall k :: at + 5 <= k < out.Length ==> out[k] == old(out[k])
  {
    out[at + 4] := adjusted % 256;
    out[at + 3] := adjusted / 0x100 % 256;
    out[at + 2] := adjusted / 0x1_0000 % 256;
    out[at + 1] := adjusted / 0x100_0000 % 256;
    out[at] := adjusted / 0x1_0000_0000 % 256;
  }

  /** One turn of the loop after the capacity check: merge the code word of `c` at the cursor. */
  method WriteSymbol(out: array<Octet>, at: nat, used: nat, c: Octet, ghost bits: seq<bool>)
    returns (at': nat, used': nat)
    requires at + 5 <= out.Length && used < 8
    requires Written(out[..at + 1], used, bits)
    modifies out
    ensures at <= at' <= at + 4 && used' < 8
    ensures 8 * at' + used' == 8 * at + used + BitWidth(c)
    ensures Written(out[..at' + 1], used', bits + Code(c))
  {
    hide BitWidth, HuffmanTable, Adjusted, Written, FiveOctets, Code, Or, Pow2;
    ghost var whole, open := out[..at], out[at];
    assert out[..at + 1] == whole + [open];
    WriteStep(whole, open, used, bits, c);
    var width := BitWidth(c);
    var adjusted := Adjusted(out[at], used, HuffmanTable(c), width);
    StoreFive(out, at, adjusted);
    ghost var q := (used + width) / 8;
    assert out[..at + q + 1] == whole + FiveOctets(adjusted)[..q + 1];
    at' := at + width / 8;
    used' := used + width % 8;
    if used' >= 8 {
      at' := at' + used' / 8;
      used' := used' % 8;
    }
    assert at' == at + q && used' == (used + width) % 8;
  }

  /** `huffman_encode`.  The block `out` stands for an allocation of `capacity + 1` octets followed by
      SLACK octets that are not the encoder's; `inBounds` records whether every write stayed inside. */
  method HuffmanEncode(input: seq<Octet>) returns (out: array<Octet>, outLength: nat, inBounds: bool)
    ensures fresh(out) && outLength <= out.Length
    ensures out[..outLength] == HuffmanOctets(input)
    ensures inBounds <==> |input| != 1
  {
    hide BitWidth, HuffmanTable, Bits, OctetBits, Pow2, Or, HuffmanOctets, EncodeBits, Written, Code;
    var capacity, used := |input|, 0;
    out := new Octet[capacity + 1 + SLACK];
    outLength, inBounds := 0, true;
    WrittenStart(out[0]);
    assert out[..1] == [out[0]] && input[..0] == [];
    for i := 0 to |input|
      invariant fresh(out) && out.Length == capacity + 1 + SLACK
      invariant used < 8 && outLength <= capacity + SLACK
      invariant i == 0 ==> outLength == 0 && capacity == |input| && inBounds
      invariant i > 0 ==> (inBounds <==> |input| != 1)
      invariant i > 0 && |input| >= 2 ==> outLength <= capacity && capacity >= 4
      invariant Written(out[..outLength + 1], used, EncodeBits(input[..i]))
    {
      if outLength + 5 > capacity {
        ghost var before := out[..outLength + 1];
        out := Reallocate(out, capacity + 1, 2 * capacity);
        assert out[..outLength + 1] == before;
        capacity := 2 * capacity;
      }
      if outLength + 5 > capacity + 1 {
        inBounds := false;
      }
      EncodeBitsSnoc(input, i);
      outLength, used := WriteSymbol(out, outLength, used, input[i], EncodeBits(input[..i]));
    }
    assert input[..|input|] == input;
    ghost var whole, open := out[..outLength], out[outLength];
    assert out[..outLength + 1] == whole + [open];
    CloseStep(whole, open, used, input);
    if used > 0 {
      if outLength >= capacity + 1 {
        inBounds := false;
      }
      out[outLength] := Or(out[outLength], Pow2(8 - used) - 1);
      outLength := outLength + 1;
      assert out[..outLength] == whole + [out[outLength - 1]];
    }
  }

  lemma WrittenStart(open: Octet)
    ensures Written([open], 0, EncodeBits([]))
  {
    assert [open][..0] == [];
  }
}
