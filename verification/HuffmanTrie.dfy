/**
 The decision tree and the code tables describe one prefix code: reading a word down the
 tree ends in symbol s exactly when the word starts with the table's code word for s.
 */
module HuffmanTrie {
  import opened BitStrings
  import opened HuffmanCode

  /** The code word of a symbol as a bit string. */
  function Code(symbol: nat): (c: seq<bool>)
    ensures |c| == BitWidth(symbol)
  {
    Bits(HuffmanTable(symbol), BitWidth(symbol))
  }

  /** The width of the widest code words. */
  const WIDEST: nat := 30

  function Height(t: Trie): nat {
    match t
    case Leaf(_) => 0
    case Node(zero, one) => 1 + if Height(zero) < Height(one) then Height(one) else Height(zero)
  }

  ghost function Symbols(t: Trie): set<nat> {
    match t
    case Leaf(s) => {s}
    case Node(zero, one) => Symbols(zero) + Symbols(one)
  }

  /** Reading bits down a tree. */
  ghost function Walk(t: Trie, bits: seq<bool>): nat
    requires |bits| >= Height(t)
  {
    match t
    case Leaf(s) => s
    case Node(zero, one) => if bits[0] then Walk(one, bits[1..]) else Walk(zero, bits[1..])
  }

  // Every labelled tree: walks and code words agree

  lemma {:induction false} WalkReadsCode(t: Trie, width: nat, code: nat, bits: seq<bool>)
    requires Labelled(t, width, code) && |bits| >= Height(t)
    ensures var s := Walk(t, bits);
            s <= 256 && width <= BitWidth(s) <= width + Height(t)
            && Code(s) == Bits(code, width) + bits[..BitWidth(s) - width]
  {
    hide BitWidth, HuffmanTable, Bits;
    match t
    case Leaf(s) =>
      assert Bits(code, width) + bits[..0] == Bits(code, width);
    case Node(zero, one) =>
      var s, b := Walk(t, bits), if bits[0] then 1 else 0;
      WalkReadsCode(if bits[0] then one else zero, width + 1, 2 * code + b, bits[1..]);
      BitsAppend(code, width, b);
      assert Bits(code, width) + [bits[0]] + bits[1..][..BitWidth(s) - width - 1]
          == Bits(code, width) + bits[..BitWidth(s) - width];
  }

  lemma {:induction false} SymbolsBelow(t: Trie, width: nat, code: nat, s: nat)
    requires Labelled(t, width, code) && s in Symbols(t)
    ensures s <= 256 && BitWidth(s) >= width && Code(s)[..width] == Bits(code, width)
    ensures width > 0 ==> Code(s)[width - 1] == (code % 2 == 1)
    ensures t.Node? ==> BitWidth(s) > width && Code(s)[width] == (s in Symbols(t.one))
  {
    hide BitWidth, HuffmanTable, Bits;
    match t
    case Leaf(_) =>
      LastBit(code, width);
    case Node(zero, one) =>
      var b := if s in Symbols(one) then 1 else 0;
      SymbolsBelow(if b == 1 then one else zero, width + 1, 2 * code + b, s);
      BitsAppend(code, width, b);
      LastBit(code, width);
      assert Code(s)[..width] == Code(s)[..width + 1][..width];
      assert Code(s)[width] == Code(s)[..width + 1][width];
      assert width > 0 ==> Code(s)[width - 1] == Code(s)[..width][width - 1];
  }

  lemma LastBit(v: nat, n: nat)
    ensures n > 0 ==> Bits(v, n)[n - 1] == (v % 2 == 1)
  {
  }

  lemma {:induction false} CodeDirectsWalk(t: Trie, width: nat, code: nat, bits: seq<bool>, s: nat)
    requires Labelled(t, width, code) && s in Symbols(t) && |bits| >= Height(t)
    requires width <= BitWidth(s) <= width + |bits|
    requires Code(s)[width..] == bits[..BitWidth(s) - width]
    ensures Walk(t, bits) == s
  {
    hide BitWidth, HuffmanTable;
    match t
    case Leaf(_) =>
    case Node(zero, one) =>
      SymbolsBelow(t, width, code, s);
      assert bits[0] == bits[..BitWidth(s) - width][0] == Code(s)[width..][0] == Code(s)[width];
      assert Code(s)[width + 1..] == Code(s)[width..][1..] == bits[1..][..BitWidth(s) - width - 1];
      if bits[0] {
        CodeDirectsWalk(one, width + 1, 2 * code + 1, bits[1..], s);
      } else {
        CodeDirectsWalk(zero, width + 1, 2 * code, bits[1..], s);
      }
  }

  /** Distinct leaves carry distinct symbols, so counting leaves counts symbols. */
  lemma {:induction false} SymbolCount(t: Trie, width: nat, code: nat)
    requires Labelled(t, width, code)
    ensures |Symbols(t)| == LeafCount(t)
  {
    hide BitWidth, HuffmanTable;
    match t
    case Leaf(_) =>
    case Node(zero, one) =>
      SymbolCount(zero, width + 1, 2 * code);
      SymbolCount(one, width + 1, 2 * code + 1);
      forall s | s in Symbols(zero) ensures s !in Symbols(one) {
        SymbolOnOneSide(zero, one, width, code, s);
      }
      var a, b := Symbols(zero), Symbols(one);
      assert a !! b;
  }

  lemma {:induction false} SymbolOnOneSide(zero: Trie, one: Trie, width: nat, code: nat, s: nat)
    requires Labelled(zero, width + 1, 2 * code) && Labelled(one, width + 1, 2 * code + 1)
    requires s in Symbols(zero)
    ensures s !in Symbols(one)
  {
    hide BitWidth, HuffmanTable, Bits, Code;
    SymbolsBelow(zero, width + 1, 2 * code, s);
    if s in Symbols(one) {
      SymbolsBelow(one, width + 1, 2 * code + 1, s);
      assert false;
    }
  }

  ghost function Below(n: nat): (r: set<nat>)
    ensures |r| == n && forall s: nat :: s in r <==> s < n
  {
    if n == 0 then {} else Below(n - 1) + {n - 1}
  }

  lemma {:induction false} SubsetOfSameSize(a: set<nat>, b: set<nat>)
    requires a <= b && |a| == |b|
    ensures a == b
  {
    assert |b - a| == |b| - |a|;
  }

  lemma {:induction false} AllSymbols(t: Trie, count: nat)
    requires Labelled(t, 0, 0) && LeafCount(t) == count == 257
    ensures forall s: nat :: s in Symbols(t) <==> s <= 256
  {
    hide BitWidth, HuffmanTable;
    SymbolCount(t, 0, 0);
    forall s | s in Symbols(t) ensures s in Below(count) {
      SymbolsBelow(t, 0, 0, s);
    }
    SubsetOfSameSize(Symbols(t), Below(count));
  }

  /** The tree of the source decodes every one of the 257 symbols. */
  lemma {:induction false} DecisionTreeSymbols()
    ensures forall s: nat :: s in Symbols(DecisionTree()) <==> s <= 256
  {
    hide BitWidth, HuffmanTable, DecisionTree;
    DecisionTreeLabelled();
    AllSymbols(DecisionTree(), 257);
  }

  /** The tallest path of a labelled tree ends in a leaf, so no tree is taller than its widest code. */
  lemma {:induction false} HeightWithinWidths(t: Trie, width: nat, code: nat)
    requires Labelled(t, width, code)
    ensures width + Height(t) <= 30
  {
    match t
    case Leaf(_) =>
    case Node(zero, one) =>
      HeightWithinWidths(zero, width + 1, 2 * code);
      HeightWithinWidths(one, width + 1, 2 * code + 1);
  }

  lemma {:induction false} CodeFitsWidth(t: Trie, width: nat, code: nat, s: nat)
    requires Labelled(t, width, code) && code < Pow2(width) && s in Symbols(t)
    ensures HuffmanTable(s) < Pow2(BitWidth(s))
  {
    hide BitWidth, HuffmanTable;
    match t
    case Leaf(_) =>
    case Node(zero, one) =>
      if s in Symbols(one) {
        CodeFitsWidth(one, width + 1, 2 * code + 1, s);
      } else {
        CodeFitsWidth(zero, width + 1, 2 * code, s);
      }
  }

  // The source's tree over 32-bit words

  /** The decision tree as the source evaluates it: with `left` low bits of the word untested, a
      node tests the highest of them together with the ones of the path so far, under one mask. */
  function DecodeUnder(t: Trie, data: nat, mask: nat, left: nat): nat
    requires Height(t) <= left
    decreases t
  {
    match t
    case Leaf(s) => s
    case Node(zero, one) =>
      var test := mask + Pow2(left - 1);
      if And(data, test) == test
      then DecodeUnder(one, data, test, left - 1)
      else DecodeUnder(zero, data, mask, left - 1)
  }

  /** The width of the word that is decoded. */
  const WORD_BITS: nat := 32

  /** `huffman_decode_char`: the symbol whose code word starts the 32-bit word `data`. */
  function DecodeChar(data: nat): nat {
    DecisionTreeHeight();
    DecodeUnder(DecisionTree(), data, 0, WORD_BITS)
  }

  lemma {:induction false} DecisionTreeHeight()
    ensures Height(DecisionTree()) <= 30
  {
    hide DecisionTree;
    DecisionTreeLabelled();
    HeightWithinWidths(DecisionTree(), 0, 0);
  }

  ghost predicate Covers(d: seq<bool>, m: seq<bool>)
    requires |d| == |m|
  {
    forall k :: 0 <= k < |m| && m[k] ==> d[k]
  }

  lemma CoversAppend(d: seq<bool>, m: seq<bool>, x: bool, y: bool)
    requires |d| == |m|
    ensures Covers(d + [x], m + [y]) <==> Covers(d, m) && (y ==> x)
  {
    if Covers(d + [x], m + [y]) {
      forall k | 0 <= k < |m| && m[k] ensures d[k] {
        assert (m + [y])[k] && (d + [x])[k];
      }
      assert (m + [y])[|m|] ==> (d + [x])[|m|];
    }
  }

  /** The test (data & mask) == mask asks for every bit of the mask. */
  lemma {:induction false} AndCovers(data: nat, mask: nat, n: nat)
    requires mask < Pow2(n)
    ensures And(data, mask) == mask <==> Covers(Bits(data, n), Bits(mask, n))
  {
    if n == 0 {
    } else {
      AndCovers(data / 2, mask / 2, n - 1);
      CoversAppend(Bits(data / 2, n - 1), Bits(mask / 2, n - 1), data % 2 == 1, mask % 2 == 1);
      AndHalves(data, mask);
    }
  }

  lemma {:induction false} AndHalves(data: nat, mask: nat)
    ensures And(data, mask) == mask
       <==> And(data / 2, mask / 2) == mask / 2 && (mask % 2 == 1 ==> data % 2 == 1)
  {
  }

  /** Adding one bit below the known ones of a mask sets exactly that bit. */
  lemma {:induction false} SetBit(high: nat, depth: nat, left: nat)
    requires left > 0
    ensures high * Pow2(left) + Pow2(left - 1) == (2 * high + 1) * Pow2(left - 1)
    ensures high * Pow2(left) == (2 * high) * Pow2(left - 1) && Pow2(depth + 1) == 2 * Pow2(depth)
    ensures Bits((2 * high + 1) * Pow2(left - 1), depth + left) == Bits(high, depth) + [true] + Zeros(left - 1)
  {
    var odd, rest := 2 * high + 1, left - 1;
    DoubleWeight(high, Pow2(rest));
    assert Bits(odd, depth + 1) == Bits(high, depth) + [true];
    hide Bits;
    BitsConcat(odd, depth + 1, 0, rest);
    BitsOfZero(rest);
  }

  lemma {:induction false} DoubleWeight(high: nat, p: nat)
    ensures high * (2 * p) == (2 * high) * p
    ensures high * (2 * p) + p == (2 * high + 1) * p
  {
  }

  /** With the earlier ones of the mask known to be set, the test depends on the new bit alone. */
  lemma {:induction false} MaskTest(data: nat, high: nat, depth: nat, left: nat)
    requires left > 0 && high < Pow2(depth)
    requires Covers(Bits(data, depth + left)[..depth], Bits(high, depth))
    ensures var test := high * Pow2(left) + Pow2(left - 1);
            And(data, test) == test <==> Bits(data, depth + left)[depth]
  {
    hide And, Bits, Pow2;
    var n := depth + left;
    var d, h, rest := Bits(data, n), Bits(high, depth), left - 1;
    var test := high * Pow2(left) + Pow2(rest);
    SetBit(high, depth, left);
    ProductBelow(2 * high + 1, Pow2(depth + 1), Pow2(rest));
    Pow2Sum(depth + 1, rest);
    AndCovers(data, test, n);
    OneMoreBit(d, h, rest);
  }

  lemma {:induction false} OneMoreBit(d: seq<bool>, h: seq<bool>, rest: nat)
    requires |d| == |h| + 1 + rest
    requires Covers(d[..|h|], h)
    ensures Covers(d, h + [true] + Zeros(rest)) <==> d[|h|]
  {
    var m := h + [true] + Zeros(rest);
    assert m[|h|];
    forall k | 0 <= k < |m| && m[k] && k != |h| ensures d[k] {
      assert k < |h| && h[k] && d[..|h|][k];
    }
  }

  /** Testing under accumulated masks reads the word bit by bit. */
  lemma {:induction false} DecodeUnderWalks(t: Trie, data: nat, high: nat, depth: nat, left: nat)
    requires Height(t) <= left && high < Pow2(depth)
    requires Covers(Bits(data, depth + left)[..depth], Bits(high, depth))
    ensures DecodeUnder(t, data, high * Pow2(left), left) == Walk(t, Bits(data, depth + left)[depth..])
    decreases t
  {
    hide And, Pow2, Bits;
    match t
    case Leaf(_) =>
    case Node(zero, one) =>
      var d := Bits(data, depth + left);
      var bit := if d[depth] then 1 else 0;
      DecodeStep(data, high, depth, left);
      assert d[depth..][0] == d[depth] && d[depth..][1..] == d[depth + 1..];
      assert depth + 1 + (left - 1) == depth + left;
      DecodeUnderWalks(if d[depth] then one else zero, data, 2 * high + bit, depth + 1, left - 1);
  }

  lemma {:induction false} DecodeStep(data: nat, high: nat, depth: nat, left: nat)
    requires left > 0 && high < Pow2(depth)
    requires Covers(Bits(data, depth + left)[..depth], Bits(high, depth))
    ensures var d := Bits(data, depth + left);
            var test := high * Pow2(left) + Pow2(left - 1);
            var next := 2 * high + (if d[depth] then 1 else 0);
            && (And(data, test) == test <==> d[depth])
            && (if d[depth] then test else high * Pow2(left)) == next * Pow2(left - 1)
            && next < Pow2(depth + 1)
            && Covers(d[..depth + 1], Bits(next, depth + 1))
  {
    hide And, Pow2, Bits;
    var d := Bits(data, depth + left);
    SetBit(high, depth, left);
    MaskTest(data, high, depth, left);
    BitsAppend(high, depth, 1);
    BitsAppend(high, depth, 0);
    assert d[..depth + 1] == d[..depth] + [d[depth]];
    CoversAppend(d[..depth], Bits(high, depth), d[depth], d[depth]);
  }

  /** What a complete labelled tree decodes is what the tables say. */
  lemma {:induction false} WalkAgreesWithTable(t: Trie, bits: seq<bool>, s: nat)
    requires Labelled(t, 0, 0) && s in Symbols(t) && |bits| >= 30 && Height(t) <= 30
    ensures Walk(t, bits) == s <==> Code(s) <= bits
  {
    hide BitWidth, HuffmanTable;
    var r := Walk(t, bits);
    WalkReadsCode(t, 0, 0, bits);
    assert Bits(0, 0) + bits[..BitWidth(r)] == bits[..BitWidth(r)];
    if Code(s) <= bits {
      assert Code(s)[0..] == Code(s) == bits[..BitWidth(s) - 0];
      CodeDirectsWalk(t, 0, 0, bits, s);
    }
  }

  lemma {:induction false} DecodeWordWalks(t: Trie, data: nat, n: nat)
    requires Height(t) <= n
    ensures DecodeUnder(t, data, 0, n) == Walk(t, Bits(data, n))
  {
    assert Bits(data, 0 + n)[0..] == Bits(data, n);
    DecodeUnderWalks(t, data, 0, 0, n);
    assert 0 * Pow2(n) == 0;
  }

  lemma {:induction false} DecodeCharWalks(data: nat)
    ensures Height(DecisionTree()) <= 30 && DecodeChar(data) == Walk(DecisionTree(), Bits(data, WORD_BITS))
  {
    hide DecisionTree, DecodeUnder, Walk;
    DecisionTreeHeight();
    DecodeWordWalks(DecisionTree(), data, WORD_BITS);
  }

  /** The decision tree and the tables agree on every 32-bit word. */
  lemma {:induction false} DecodeCharAgreesWithTable(data: nat, s: nat)
    requires s <= 256
    ensures DecodeChar(data) == s <==> Code(s) <= Bits(data, WORD_BITS)
    ensures DecodeChar(data) <= 256
  {
    hide BitWidth, HuffmanTable, DecisionTree, DecodeChar, Code;
    DecisionTreeLabelled();
    DecisionTreeSymbols();
    DecodeCharWalks(data);
    WalkAgreesWithTable(DecisionTree(), Bits(data, WORD_BITS), s);
    WalkReadsCode(DecisionTree(), 0, 0, Bits(data, WORD_BITS));
  }

  /** The same agreement in the source's arithmetic: the top bits of the word are the table's code word. */
  lemma {:induction false} DecodeCharAgreesWithShift(data: nat, s: nat)
    requires s <= 256 && data < Pow2(32)
    ensures DecodeChar(data) == s <==> data / Pow2(32 - BitWidth(s)) == HuffmanTable(s)
  {
    hide BitWidth, HuffmanTable, DecisionTree, DecodeChar;
    var n, w := WORD_BITS, BitWidth(s);
    DecodeCharAgreesWithTable(data, s);
    CodeFits(s);
    TopBits(data, HuffmanTable(s), w, n);
  }

  lemma {:induction false} TopBits(data: nat, code: nat, w: nat, n: nat)
    requires w <= n && data < Pow2(n) && code < Pow2(w)
    ensures Bits(code, w) <= Bits(data, n) <==> data / Pow2(n - w) == code
  {
    hide Bits, Pow2;
    var p := Pow2(n - w);
    var _, _ := BitsSplit(data, w, n - w);
    Pow2Sum(w, n - w);
    QuotientBelow(data, Pow2(w), p);
    var d := Bits(data, n);
    assert d[..w] == Bits(data / p, w);
    if Bits(code, w) <= d {
      assert Bits(code, w) == d[..w];
      BitsInjective(data / p, code, w);
    }
  }

  /** Every table entry is a word of its declared width. */
  lemma {:induction false} CodeFits(s: nat)
    requires s <= 256
    ensures HuffmanTable(s) < Pow2(BitWidth(s))
  {
    hide BitWidth, HuffmanTable, DecisionTree;
    DecisionTreeLabelled();
    DecisionTreeSymbols();
    CodeFitsWidth(DecisionTree(), 0, 0, s);
  }

  /** No code word starts another. */
  lemma {:induction false} PrefixFree(s: nat, r: nat)
    requires s <= 256 && r <= 256 && Code(s) <= Code(r)
    ensures s == r
  {
    hide BitWidth, HuffmanTable, DecisionTree;
    DecisionTreeLabelled();
    DecisionTreeHeight();
    DecisionTreeSymbols();
    var bits := Code(r) + Zeros(30);
    WalkAgreesWithTable(DecisionTree(), bits, s);
    WalkAgreesWithTable(DecisionTree(), bits, r);
  }
}
