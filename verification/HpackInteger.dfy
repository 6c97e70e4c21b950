/** Integers of HPACK (section 5.1 of RFC 7541): `hpack_encode_integer` and `hpack_decode_integer`. */
module HpackInteger {
  import opened BitStrings

  /** `size_t` arithmetic is modulo this. */
  const WORD: nat := 0x1_0000_0000_0000_0000

  function Mask(n: nat): nat {
    Pow2(n) - 1
  }

  // The wire form

  function Continuation(v: nat): (w: seq<Octet>)
    ensures |w| > 0
  {
    if v < 128 then [v] else [v % 128 + 128] + Continuation(v / 128)
  }

  /** The prefix octet's bits above the n-bit prefix. */
  function HighBits(prefix: Octet, n: nat): nat {
    hide Pow2;
    DivMod(prefix, Pow2(n));
    prefix / Pow2(n) * Pow2(n)
  }

  lemma {:induction false} HighBitsFit(prefix: Octet, n: nat, low: nat)
    requires n <= 8 && low < Pow2(n)
    ensures HighBits(prefix, n) + low < 256
    ensures (HighBits(prefix, n) + low) % Pow2(n) == low
    ensures (HighBits(prefix, n) + low) / Pow2(n) == prefix / Pow2(n)
  {
    hide Pow2;
    var p := Pow2(n);
    DivMod(prefix, p);
    DivModUnique(prefix / p * p + low, prefix / p, p, low);
    Pow2Sum(8 - n, n);
    Pow2Values();
    QuotientBelow(prefix, Pow2(8 - n), p);
    ProductAtMost(prefix / p + 1, Pow2(8 - n), p);
  }

  function IntegerOctets(prefix: Octet, n: nat, v: nat): (w: seq<Octet>)
    requires n <= 8
    ensures |w| > 0
  {
    var low := if v < Mask(n) then v else Mask(n);
    HighBitsFit(prefix, n, low);
    if v < Mask(n) then [HighBits(prefix, n) + v] else [HighBits(prefix, n) + Mask(n)] + Continuation(v - Mask(n))
  }

  // Reading

  datatype IntegerRead = IntegerAt(value: nat, next: nat) | OverRead

  /** The low seven bits of the k-th continuation octet, in their place. */
  function Digit(o: Octet, k: nat): nat {
    o % 128 * Pow2(7 * k) % WORD
  }

  /** The k-th continuation octet and those after it.  The weight 2^(7k) leaves the word after ten octets.
      The source reads an octet before it looks at the bound, so running out of input is an over-read. */
  function ReadContinuation(input: seq<Octet>, i: nat, k: nat): (r: IntegerRead)
    ensures r.IntegerAt? ==> i < r.next <= |input|
    decreases |input| - i
  {
    if i >= |input| then OverRead
    else
      var part := Digit(input[i], k);
      if input[i] >= 128 && k < 9 then
        match ReadContinuation(input, i + 1, k + 1)
        case OverRead => OverRead
        case IntegerAt(v, next) => IntegerAt((part + v) % WORD, next)
      else IntegerAt(part, i + 1)
  }

  function ReadInteger(prefix: Octet, n: nat, input: seq<Octet>, offset: nat): (r: IntegerRead)
    ensures r.IntegerAt? ==> offset <= r.next && (offset <= |input| ==> r.next <= |input|)
  {
    if prefix % Pow2(n) != Mask(n) then IntegerAt(prefix, offset)
    else
      match ReadContinuation(input, offset, 0)
      case OverRead => OverRead
      case IntegerAt(v, next) => IntegerAt((v + Mask(n)) % WORD, next)
  }

  ghost predicate Holds(input: seq<Octet>, at: nat, w: seq<Octet>) {
    at + |w| <= |input| && input[at..at + |w|] == w
  }

  lemma HoldsParts(input: seq<Octet>, at: nat, a: seq<Octet>, b: seq<Octet>)
    ensures Holds(input, at, a + b) <==> Holds(input, at, a) && Holds(input, at + |a|, b)
  {
    if Holds(input, at, a + b) {
      assert input[at..at + |a|] == (a + b)[..|a|];
      assert input[at + |a|..at + |a| + |b|] == (a + b)[|a|..];
    }
    if Holds(input, at, a) && Holds(input, at + |a|, b) {
      assert input[at..at + |a + b|] == input[at..at + |a|] + input[at + |a|..at + |a| + |b|];
    }
  }

  lemma {:induction false} ContinuationRead(u: nat, k: nat, input: seq<Octet>, i: nat)
    requires k <= 9 && u * Pow2(7 * k) < WORD && Holds(input, i, Continuation(u))
    ensures ReadContinuation(input, i, k) == IntegerAt(u * Pow2(7 * k), i + |Continuation(u)|)
    decreases u
  {
    hide Pow2, Digit;
    assert input[i] == input[i..i + |Continuation(u)|][0];
    DigitValue(u, k, input[i]);
    if u >= 128 {
      WeightLeaves(u, k);
      HoldsParts(input, i, [u % 128 + 128], Continuation(u / 128));
      ContinuationRead(u / 128, k + 1, input, i + 1);
    }
  }

  /** The digit of an octet of `Continuation(u)`, and what it adds to the rest. */
  lemma {:induction false} DigitValue(u: nat, k: nat, o: Octet)
    requires u * Pow2(7 * k) < WORD && o == if u < 128 then u else u % 128 + 128
    ensures u < 128 ==> Digit(o, k) == u * Pow2(7 * k)
    ensures u / 128 * Pow2(7 * (k + 1)) < WORD
    ensures (Digit(o, k) + u / 128 * Pow2(7 * (k + 1))) % WORD == u * Pow2(7 * k)
  {
    hide Pow2;
    NextWeight(k);
    DigitStep(u, Pow2(7 * k));
    assert o % 128 == u % 128;
    if u < 128 {
      SmallMod(u * Pow2(7 * k));
    }
  }

  /** One digit and the value of the others make up the whole. */
  lemma {:induction false} DigitStep(u: nat, p: nat)
    requires u * p < WORD
    ensures u / 128 * (128 * p) < WORD
    ensures (u % 128 * p % WORD + u / 128 * (128 * p)) % WORD == u * p
  {
    SplitDigit(u, p);
    assert u % 128 * p >= 0 && u / 128 * (128 * p) >= 0;
    SmallMod(u % 128 * p);
    SmallMod(u * p);
  }

  lemma {:induction false} NextWeight(k: nat)
    ensures Pow2(7 * (k + 1)) == 128 * Pow2(7 * k)
  {
    Pow2Sum(7, 7 * k);
    Pow2Values();
  }

  lemma SmallMod(x: nat)
    requires x < WORD
    ensures x % WORD == x
  {
  }

  lemma {:induction false} SplitDigit(u: nat, p: nat)
    ensures u * p == u % 128 * p + u / 128 * (128 * p)
  {
    assert u == u % 128 + u / 128 * 128;
    assert u * p == u % 128 * p + (u / 128 * 128) * p;
    assert (u / 128 * 128) * p == u / 128 * (128 * p);
  }

  lemma {:induction false} WeightLeaves(u: nat, k: nat)
    requires u >= 128 && u * Pow2(7 * k) < WORD && k <= 9
    ensures k < 9
  {
    if k == 9 {
      Pow2Sum(32, 31);
      Pow2Sum(24, 7);
      Pow2Values();
      ProductAtMost(128, u, Pow2(63));
      assert false;
    }
  }

  /** Every 64-bit value comes back, and the decoder stops right after the encoding. */
  lemma {:induction false} IntegerRoundTrip(prefix: Octet, n: nat, v: nat, input: seq<Octet>, at: nat)
    requires 1 <= n <= 8 && v < WORD && Holds(input, at, IntegerOctets(prefix, n, v))
    ensures var w := IntegerOctets(prefix, n, v);
            && w[0] == input[at] && input[at] / Pow2(n) == prefix / Pow2(n)
            && ReadInteger(input[at] % Pow2(n), n, input, at + 1) == IntegerAt(v, at + |w|)
  {
    hide Pow2, HighBits, ReadContinuation;
    var w, m := IntegerOctets(prefix, n, v), Mask(n);
    assert w[0] == input[at..at + |w|][0] == input[at];
    var low := if v < m then v else m;
    HighBitsFit(prefix, n, low);
    DivModUnique(low, 0, Pow2(n), low);
    assert w[0] == HighBits(prefix, n) + low && input[at] % Pow2(n) == low && low % Pow2(n) == low;
    if v >= m {
      HoldsParts(input, at, [w[0]], Continuation(v - m));
      UnitWeight(v - m);
      ContinuationRead(v - m, 0, input, at + 1);
      SmallMod(v);
    }
  }

  lemma UnitWeight(u: nat)
    ensures u * Pow2(7 * 0) == u
  {
  }

  /** The decoder reads outside the input exactly when the continuation is cut off: fewer octets are
      left than it may use, and every one of them announces another. */
  lemma {:induction false} OverReadExactly(input: seq<Octet>, i: nat, k: nat)
    requires i <= |input| && k <= 9
    ensures ReadContinuation(input, i, k).OverRead?
       <==> |input| - i < 10 - k && forall j :: i <= j < |input| ==> input[j] >= 128
    decreases |input| - i
  {
    if i < |input| && input[i] >= 128 && k < 9 {
      OverReadExactly(input, i + 1, k + 1);
    }
  }

  // Writing into a bounded buffer

  datatype IntegerWrite = Wrote(octets: seq<Octet>) | NoRoom

  /** What the encoder leaves in a buffer with `room` octets to spare.  The second branch is the source's
      boundary case: a value equal to the mask with one octet of room is reported as written although
      its final zero octet is missing. */
  function WriteInteger(prefix: Octet, n: nat, v: nat, room: nat): IntegerWrite
    requires n <= 8
  {
    var w := IntegerOctets(prefix, n, v);
    if |w| <= room then Wrote(w)
    else if room == 1 && v == Mask(n) then Wrote(w[..1])
    else NoRoom
  }

  /** A successful write is the complete wire form except exactly at that boundary. */
  lemma {:induction false} WrittenIntegerComplete(prefix: Octet, n: nat, v: nat, room: nat)
    requires n <= 8 && WriteInteger(prefix, n, v, room).Wrote?
    ensures WriteInteger(prefix, n, v, room).octets == IntegerOctets(prefix, n, v)
       <==> !(room == 1 && v == Mask(n))
  {
    hide HighBits;
    if v == Mask(n) {
      assert |IntegerOctets(prefix, n, v)| == 2;
    }
  }

  /** 127 with a prefix of seven bits and one octet of room: success is reported for half of the encoding. */
  lemma MaskIsCutShort()
    ensures WriteInteger(0, 7, 127, 1) == Wrote([127]) && IntegerOctets(0, 7, 127) == [127, 0]
  {
    Pow2Values();
    HighBitsFit(0, 7, 127);
  }

  /** Doubling the room always ends in a complete write. */
  lemma {:induction false} EnoughRoom(prefix: Octet, n: nat, v: nat, room: nat)
    requires n <= 8 && v < WORD && room >= 11
    ensures WriteInteger(prefix, n, v, room) == Wrote(IntegerOctets(prefix, n, v))
  {
    hide HighBits;
    if v >= Mask(n) {
      Pow2Sum(32, 32);
      Pow2Values();
      Pow2Monotone(64, 70);
      ContinuationLength(v - Mask(n), 10);
    }
  }

  lemma {:induction false} ContinuationLength(v: nat, count: nat)
    requires count > 0 && v < Pow2(7 * count)
    ensures |Continuation(v)| <= count
    decreases count
  {
    if v >= 128 {
      Pow2Sum(7, 7 * (count - 1));
      Pow2Values();
      if count == 1 {
        assert false;
      }
      ContinuationLength(v / 128, count - 1);
    }
  }

  /** `hpack_encode_integer`, with the array's length for the source's `length`. */
  method EncodeInteger(prefix: Octet, n: nat, v: nat, output: array<Octet>, offset: nat)
    returns (count: nat, offset': nat)
    requires 1 <= n <= 8 && offset <= output.Length
    modifies output
    ensures output[..offset] == old(output[..offset])
    ensures match WriteInteger(prefix, n, v, output.Length - offset)
            case Wrote(octets) =>
              count == |octets| && offset' == offset + |octets| <= output.Length && output[offset..offset'] == octets
            case NoRoom => count == 0 && offset' == offset
  {
    hide HighBits, Pow2, Continuation, WriteInteger, IntegerOctets;
    WriteCases(prefix, n, v, output.Length - offset);
    if offset >= output.Length {
      return 0, offset;
    }
    var mask := Mask(n);
    HighBitsFit(prefix, n, if v < mask then v else mask);
    if v < mask {
      output[offset] := HighBits(prefix, n) + v;
      return 1, offset + 1;
    }
    var first: Octet := HighBits(prefix, n) + mask;
    output[offset] := first;
    assert output[..offset + 1][..offset] == output[..offset];
    var integer;
    integer, offset' := EncodeContinuation(v - mask, output, offset + 1);
    assert output[offset..offset'] == [output[..offset + 1][offset]] + output[offset + 1..offset'];
    assert output[..offset] == output[..offset + 1][..offset];
    assert Continuation(v - mask) != [];
    if integer != 0 {
      return 0, offset;
    }
    return offset' - offset, offset';
  }

  lemma {:induction false} WriteCases(prefix: Octet, n: nat, v: nat, room: nat)
    requires n <= 8
    ensures room == 0 ==> WriteInteger(prefix, n, v, room) == NoRoom
    ensures room > 0 && v < Mask(n) ==>
              HighBits(prefix, n) + v < 256 && WriteInteger(prefix, n, v, room) == Wrote([HighBits(prefix, n) + v])
    ensures room > 0 && v >= Mask(n) ==>
              && HighBits(prefix, n) + Mask(n) < 256
              && var first: Octet, rest := HighBits(prefix, n) + Mask(n), Continuation(v - Mask(n));
                 WriteInteger(prefix, n, v, room)
                   == if |rest| <= room - 1 then Wrote([first] + rest)
                      else if room == 1 && v == Mask(n) then Wrote([first]) else NoRoom
  {
    hide HighBits, Pow2;
    HighBitsFit(prefix, n, if v < Mask(n) then v else Mask(n));
    assert v == Mask(n) ==> IntegerOctets(prefix, n, v)[..1] == [IntegerOctets(prefix, n, v)[0]];
  }

  /** The continuation octets, as far as they fit; the rest of the value is returned. */
  method EncodeContinuation(v: nat, output: array<Octet>, offset: nat)
    returns (integer: nat, offset': nat)
    requires offset <= output.Length
    modifies output
    ensures offset <= offset' <= output.Length
    ensures output[..offset] == old(output[..offset])
    ensures if |Continuation(v)| <= output.Length - offset
            then integer == 0 && offset' == offset + |Continuation(v)| && output[offset..offset'] == Continuation(v)
            else (integer == 0 <==> v == 0 && offset == output.Length) && (integer == 0 ==> offset' == offset)
  {
    integer, offset' := v, offset;
    ghost var done: seq<Octet> := [];
    while offset' < output.Length && integer / 128 > 0
      invariant offset <= offset' <= output.Length && |done| == offset' - offset
      invariant output[..offset] == old(output[..offset])
      invariant output[offset..offset'] == done && done + Continuation(integer) == Continuation(v)
      invariant integer == 0 ==> v == 0 && offset' == offset
      decreases integer
    {
      Unfold(done, integer);
      output[offset'] := integer % 128 + 128;
      done := done + [integer % 128 + 128];
      offset' := offset' + 1;
      integer := integer / 128;
    }
    if offset' < output.Length {
      output[offset'] := integer % 128;
      assert done + [integer] == Continuation(v);
      assert output[offset..offset' + 1] == done + [integer];
      offset' := offset' + 1;
      integer := integer / 128;
    }
  }

  lemma Unfold(done: seq<Octet>, u: nat)
    requires u >= 128
    ensures done + Continuation(u) == done + [u % 128 + 128] + Continuation(u / 128)
  {
  }

  /** `hpack_decode_integer`. */
  method DecodeInteger(prefix: Octet, n: nat, input: seq<Octet>, offset: nat) returns (r: IntegerRead)
    requires 1 <= n <= 8
    ensures r == ReadInteger(prefix, n, input, offset)
  {
    hide Pow2;
    if prefix % Pow2(n) != Mask(n) {
      return IntegerAt(prefix, offset);
    }
    var k: nat, value: nat, i: nat := 0, 0, offset;
    ghost var whole := ReadContinuation(input, offset, 0);
    while true
      invariant k <= 9 && value < WORD
      invariant whole == Plus(value, ReadContinuation(input, i, k))
      decreases 10 - k
    {
      if i >= |input| {
        return OverRead;
      }
      var part := input[i] % 128 * Pow2(7 * k) % WORD;
      PlusTwice(value, part, if input[i] >= 128 && k < 9 then ReadContinuation(input, i + 1, k + 1) else OverRead);
      value := (value + part) % WORD;
      i := i + 1;
      if !(input[i - 1] >= 128 && k < 9) {
        break;
      }
      k := k + 1;
    }
    return IntegerAt((value + Mask(n)) % WORD, i);
  }

  ghost function Plus(value: nat, r: IntegerRead): IntegerRead {
    match r
    case OverRead => OverRead
    case IntegerAt(v, next) => IntegerAt((value + v) % WORD, next)
  }

  lemma {:induction false} PlusTwice(a: nat, b: nat, r: IntegerRead)
    ensures Plus(a, Plus(b, r)) == Plus((a + b) % WORD, r)
  {
    if r.IntegerAt? {
      ModPlus(b + r.value, a);
      ModPlus(a + b, r.value);
    }
  }

  lemma ModPlus(x: nat, y: nat)
    ensures (x % WORD + y) % WORD == (x + y) % WORD
  {
  }
}
