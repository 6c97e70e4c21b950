/** Octets, powers of two, the bitwise operators of C on unsigned words, and bit strings. */
module BitStrings {
  type Octet = x: int | 0 <= x < 256
  type Text = seq<Octet>
  type U16 = x: int | 0 <= x < 0x1_0000

  function Pow2(n: nat): (p: nat)
    ensures p >= 1
  {
    if n == 0 then 1 else 2 * Pow2(n - 1)
  }

  lemma {:induction false} Pow2Sum(a: nat, b: nat)
    ensures Pow2(a + b) == Pow2(a) * Pow2(b)
  {
    if a == 0 {
    } else {
      Pow2Sum(a - 1, b);
      assert Pow2(a + b) == 2 * (Pow2(a - 1) * Pow2(b)) == (2 * Pow2(a - 1)) * Pow2(b);
    }
  }

  lemma {:induction false} Pow2Monotone(a: nat, b: nat)
    requires a <= b
    ensures Pow2(a) <= Pow2(b)
    decreases b
  {
    if a < b {
      Pow2Monotone(a, b - 1);
    }
  }

  lemma Pow2Values()
    ensures Pow2(0) == 1 && Pow2(1) == 2 && Pow2(2) == 4 && Pow2(3) == 8 && Pow2(4) == 16
    ensures Pow2(5) == 32 && Pow2(6) == 64 && Pow2(7) == 128 && Pow2(8) == 256
    ensures Pow2(16) == 0x1_0000 && Pow2(24) == 0x100_0000 && Pow2(32) == 0x1_0000_0000
  {
    assert Pow2(8) == 256;
    Pow2Sum(8, 8);
    Pow2Sum(16, 8);
    Pow2Sum(16, 16);
  }

  // Division facts, stated once for the nonlinear steps below.

  lemma DivModUnique(a: nat, q: nat, d: nat, r: nat)
    requires r < d && a == q * d + r
    ensures a / d == q && a % d == r
  {
    DivMod(a, d);
    assert (a / d - q) * d == r - a % d;
    if a / d > q {
      ProductAtLeast(a / d - q, d);
    } else if a / d < q {
      ProductAtLeast(q - a / d, d);
    }
  }

  lemma ProductAtLeast(x: nat, d: nat)
    requires x > 0
    ensures x * d >= d
  {
    assert x * d == (x - 1) * d + d;
  }

  lemma DivMod(a: nat, d: nat)
    requires d > 0
    ensures a == a / d * d + a % d && 0 <= a % d < d && a / d >= 0 && a / d * d >= 0
  {
  }

  // Bitwise operators on natural numbers

  function Or(a: nat, b: nat): nat
    decreases a + b
  {
    if a == 0 && b == 0 then 0
    else 2 * Or(a / 2, b / 2) + (if a % 2 == 1 || b % 2 == 1 then 1 else 0)
  }

  function And(a: nat, b: nat): nat
    decreases a + b
  {
    if a == 0 || b == 0 then 0
    else 2 * And(a / 2, b / 2) + (if a % 2 == 1 && b % 2 == 1 then 1 else 0)
  }

  /** Or of operands that share no bit position is their sum. */
  lemma {:induction false} OrDisjoint(high: nat, low: nat, k: nat)
    requires low < Pow2(k)
    ensures Or(high * Pow2(k), low) == high * Pow2(k) + low
    decreases k
  {
    if k == 0 {
      OrZero(high);
    } else {
      var h, p := high, Pow2(k - 1);
      assert high * Pow2(k) == 2 * (h * p);
      OrDisjoint(high, low / 2, k - 1);
      if h * p == 0 && low == 0 {
      } else {
        assert (2 * (h * p)) / 2 == h * p && (2 * (h * p)) % 2 == 0;
      }
    }
  }

  lemma {:induction false} OrZero(a: nat)
    ensures Or(a, 0) == a
  {
    if a > 0 {
      OrZero(a / 2);
    }
  }

  // Bit strings, most significant bit first

  function Bits(v: nat, n: nat): (b: seq<bool>)
    ensures |b| == n
  {
    if n == 0 then [] else Bits(v / 2, n - 1) + [v % 2 == 1]
  }

  function Ones(n: nat): (b: seq<bool>)
    ensures |b| == n
  {
    seq(n, _ => true)
  }

  function Zeros(n: nat): (b: seq<bool>)
    ensures |b| == n
  {
    seq(n, _ => false)
  }

  lemma BitsAppend(v: nat, n: nat, b: nat)
    requires b < 2
    ensures Bits(2 * v + b, n + 1) == Bits(v, n) + [b == 1]
  {
  }

  lemma {:induction false} BitsConcat(a: nat, n: nat, b: nat, m: nat)
    requires b < Pow2(m)
    ensures Bits(a * Pow2(m) + b, n + m) == Bits(a, n) + Bits(b, m)
    decreases m
  {
    if m == 0 {
      assert Bits(a, n) + [] == Bits(a, n);
    } else {
      var p := Pow2(m - 1);
      assert a * Pow2(m) == 2 * (a * p);
      var v := a * Pow2(m) + b;
      assert v / 2 == a * p + b / 2 && v % 2 == b % 2;
      BitsConcat(a, n, b / 2, m - 1);
      assert Bits(a, n) + Bits(b / 2, m - 1) + [b % 2 == 1] == Bits(a, n) + Bits(b, m);
    }
  }

  /** Splitting a word into its high n and low m bits. */
  lemma {:induction false} BitsSplit(v: nat, n: nat, m: nat) returns (q: nat, r: nat)
    ensures q == v / Pow2(m) && r == v % Pow2(m) && r < Pow2(m) && v == q * Pow2(m) + r
    ensures Bits(v, n + m) == Bits(q, n) + Bits(r, m)
  {
    hide Pow2, Bits;
    DivMod(v, Pow2(m));
    q, r := v / Pow2(m), v % Pow2(m);
    BitsConcat(q, n, r, m);
  }

  lemma {:induction false} BitsOfZero(n: nat)
    ensures Bits(0, n) == Zeros(n)
  {
    if n > 0 {
      BitsOfZero(n - 1);
    }
  }

  lemma {:induction false} BitsOfOnes(n: nat)
    ensures Bits(Pow2(n) - 1, n) == Ones(n)
  {
    if n > 0 {
      BitsOfOnes(n - 1);
      assert (Pow2(n) - 1) / 2 == Pow2(n - 1) - 1;
    }
  }

  lemma {:induction false} BitsInjective(a: nat, b: nat, n: nat)
    requires a < Pow2(n) && b < Pow2(n) && Bits(a, n) == Bits(b, n)
    ensures a == b
  {
    if n > 0 {
      var x, y := Bits(a, n), Bits(b, n);
      assert x[n - 1] == (a % 2 == 1) && y[n - 1] == (b % 2 == 1);
      assert x[..n - 1] == Bits(a / 2, n - 1) && y[..n - 1] == Bits(b / 2, n - 1);
      BitsInjective(a / 2, b / 2, n - 1);
    }
  }

  // Octet strings as bit strings

  function OctetBits(s: seq<Octet>): (b: seq<bool>)
    ensures |b| == 8 * |s|
  {
    if s == [] then [] else Bits(s[0], 8) + OctetBits(s[1..])
  }

  lemma {:induction false} OctetBitsConcat(s: seq<Octet>, t: seq<Octet>)
    ensures OctetBits(s + t) == OctetBits(s) + OctetBits(t)
  {
    if s == [] {
      assert s + t == t;
    } else {
      assert (s + t)[1..] == s[1..] + t;
      OctetBitsConcat(s[1..], t);
    }
  }

  lemma {:induction false} OctetBitsSlice(s: seq<Octet>, i: nat, j: nat)
    requires i <= j <= |s|
    ensures OctetBits(s[i..j]) == OctetBits(s)[8 * i..8 * j]
  {
    var x, y, z := s[..i], s[i..j], s[j..];
    assert s == x + (y + z);
    OctetBitsConcat(x, y + z);
    OctetBitsConcat(y, z);
    SliceMiddle(OctetBits(x), OctetBits(y), OctetBits(z));
  }

  lemma SliceMiddle<T>(x: seq<T>, y: seq<T>, z: seq<T>)
    ensures (x + (y + z))[|x|..|x| + |y|] == y
  {
  }

  lemma OctetBitsAppend(s: seq<Octet>, o: Octet)
    ensures OctetBits(s + [o]) == OctetBits(s) + Bits(o, 8)
  {
    OctetBitsConcat(s, [o]);
    assert OctetBits([o]) == Bits(o, 8) + [] == Bits(o, 8);
  }

  lemma NoBits()
    ensures OctetBits([]) == []
  {
  }

  lemma {:induction false} FourOctetBits(a: Octet, b: Octet, c: Octet, d: Octet)
    ensures OctetBits([a, b, c, d]) == Bits(a, 8) + Bits(b, 8) + Bits(c, 8) + Bits(d, 8)
  {
    hide Bits, OctetBits;
    OctetBitsAppend([], a);
    OctetBitsAppend([a], b);
    OctetBitsAppend([a, b], c);
    OctetBitsAppend([a, b, c], d);
    NoBits();
    assert [] + [a] == [a] && [a] + [b] == [a, b] && [a, b] + [c] == [a, b, c];
    assert [a, b, c] + [d] == [a, b, c, d] && [] + Bits(a, 8) == Bits(a, 8);
  }

  lemma {:induction false} OctetBitsOfZeros(z: seq<Octet>)
    requires forall k :: 0 <= k < |z| ==> z[k] == 0
    ensures OctetBits(z) == Zeros(8 * |z|)
  {
    if z != [] {
      OctetBitsOfZeros(z[1..]);
      BitsOfZero(8);
    }
  }

  lemma {:induction false} OctetBitsInjective(s: seq<Octet>, t: seq<Octet>)
    requires OctetBits(s) == OctetBits(t)
    ensures s == t
  {
    assert |s| == |t|;
    if s != [] {
      var a, b := OctetBits(s), OctetBits(t);
      assert a[..8] == Bits(s[0], 8) && b[..8] == Bits(t[0], 8);
      Pow2Values();
      BitsInjective(s[0], t[0], 8);
      assert a[8..] == OctetBits(s[1..]) && b[8..] == OctetBits(t[1..]);
      OctetBitsInjective(s[1..], t[1..]);
    }
  }

  // Packing bit strings into octets

  function Value(b: seq<bool>): (v: nat)
    ensures v < Pow2(|b|)
  {
    if b == [] then 0 else 2 * Value(b[..|b| - 1]) + (if b[|b| - 1] then 1 else 0)
  }

  lemma {:induction false} BitsOfValue(b: seq<bool>)
    ensures Bits(Value(b), |b|) == b
  {
    if b != [] {
      BitsOfValue(b[..|b| - 1]);
      assert b == b[..|b| - 1] + [b[|b| - 1]];
    }
  }

  function Pack(b: seq<bool>): (s: seq<Octet>)
    requires |b| % 8 == 0
    ensures 8 * |s| == |b|
  {
    if b == [] then []
    else
      assert Pow2(8) == 256;
      [Value(b[..8])] + Pack(b[8..])
  }

  lemma {:induction false} BitsOfPack(b: seq<bool>)
    requires |b| % 8 == 0
    ensures OctetBits(Pack(b)) == b
  {
    if b != [] {
      BitsOfValue(b[..8]);
      BitsOfPack(b[8..]);
      assert Pack(b)[1..] == Pack(b[8..]);
      assert b == b[..8] + b[8..];
    }
  }

  lemma {:induction false} ProductAtMost(a: nat, b: nat, p: nat)
    requires a <= b
    ensures a * p <= b * p
  {
    assert b * p == a * p + (b - a) * p;
  }

  lemma {:induction false} ProductBelow(a: nat, b: nat, p: nat)
    requires a < b && p > 0
    ensures a * p < b * p
  {
    assert b * p == a * p + (b - a) * p;
    ProductAtLeast(b - a, p);
  }

  lemma {:induction false} QuotientBelow(a: nat, b: nat, p: nat)
    requires p > 0 && a < b * p
    ensures a / p < b
  {
    DivMod(a, p);
    if a / p >= b {
      ProductAtMost(b, a / p, p);
    }
  }
}
