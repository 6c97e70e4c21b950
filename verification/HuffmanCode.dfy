/**
 The Huffman code of HPACK: the width and code-word tables, indexed by symbol, and the
 decision tree that recognises a code word at the top of a 32-bit word.  Each piece of the
 tree is checked against the two tables where it is written down.
 */
module HuffmanCode {

  /** Code widths in bits: rows of sixteen symbols, and 30 for the end-of-string symbol 256. */
  function BitWidth(symbol: nat): (w: nat)
    ensures 5 <= w <= 30
  {
    if symbol >= 256 then 30 else
    match symbol / 16
    case 0 => BitWidthRow0(symbol % 16)
    case 1 => BitWidthRow1(symbol % 16)
    case 2 => BitWidthRow2(symbol % 16)
    case 3 => BitWidthRow3(symbol % 16)
    case 4 => BitWidthRow4(symbol % 16)
    case 5 => BitWidthRow5(symbol % 16)
    case 6 => BitWidthRow6(symbol % 16)
    case 7 => BitWidthRow7(symbol % 16)
    case 8 => BitWidthRow8(symbol % 16)
    case 9 => BitWidthRow9(symbol % 16)
    case 10 => BitWidthRow10(symbol % 16)
    case 11 => BitWidthRow11(symbol % 16)
    case 12 => BitWidthRow12(symbol % 16)
    case 13 => BitWidthRow13(symbol % 16)
    case 14 => BitWidthRow14(symbol % 16)
    case _ => BitWidthRow15(symbol % 16)
  }

  function BitWidthRow0(column: nat): (w: nat)
    ensures 5 <= w <= 30
  {
    match column
    case 0 => 13 case 1 => 23 case 2 => 28 case 3 => 28 case 4 => 28 case 5 => 28 case 6 => 28 case 7 => 28
    case 8 => 28 case 9 => 24 case 10 => 30 case 11 => 28 case 12 => 28 case 13 => 30 case 14 => 28 case _ => 28
  }

  function BitWidthRow1(column: nat): (w: nat)
    ensures 5 <= w <= 30
  {
    match column
    case 0 => 28 case 1 => 28 case 2 => 28 case 3 => 28 case 4 => 28 case 5 => 28 case 6 => 30 case 7 => 28
    case 8 => 28 case 9 => 28 case 10 => 28 case 11 => 28 case 12 => 28 case 13 => 28 case 14 => 28 case _ => 28
  }

  function BitWidthRow2(column: nat): (w: nat)
    ensures 5 <= w <= 30
  {
    match column
    case 0 => 6 case 1 => 10 case 2 => 10 case 3 => 12 case 4 => 13 case 5 => 6 case 6 => 8 case 7 => 11
    case 8 => 10 case 9 => 10 case 10 => 8 case 11 => 11 case 12 => 8 case 13 => 6 case 14 => 6 case _ => 6
  }

  function BitWidthRow3(column: nat): (w: nat)
    ensures 5 <= w <= 30
  {
    match column
    case 0 => 5 case 1 => 5 case 2 => 5 case 3 => 6 case 4 => 6 case 5 => 6 case 6 => 6 case 7 => 6
    case 8 => 6 case 9 => 6 case 10 => 7 case 11 => 8 case 12 => 15 case 13 => 6 case 14 => 12 case _ => 10
  }

  function BitWidthRow4(column: nat): (w: nat)
    ensures 5 <= w <= 30
  {
    match column
    case 0 => 13 case 1 => 6 case 2 => 7 case 3 => 7 case 4 => 7 case 5 => 7 case 6 => 7 case 7 => 7
    case 8 => 7 case 9 => 7 case 10 => 7 case 11 => 7 case 12 => 7 case 13 => 7 case 14 => 7 case _ => 7
  }

  function BitWidthRow5(column: nat): (w: nat)
    ensures 5 <= w <= 30
  {
    match column
    case 0 => 7 case 1 => 7 case 2 => 7 case 3 => 7 case 4 => 7 case 5 => 7 case 6 => 7 case 7 => 7
    case 8 => 8 case 9 => 7 case 10 => 8 case 11 => 13 case 12 => 19 case 13 => 13 case 14 => 14 case _ => 6
  }

  function BitWidthRow6(column: nat): (w: nat)
    ensures 5 <= w <= 30
  {
    match column
    case 0 => 15 case 1 => 5 case 2 => 6 case 3 => 5 case 4 => 6 case 5 => 5 case 6 => 6 case 7 => 6
    case 8 => 6 case 9 => 5 case 10 => 7 case 11 => 7 case 12 => 6 case 13 => 6 case 14 => 6 case _ => 5
  }

  function BitWidthRow7(column: nat): (w: nat)
    ensures 5 <= w <= 30
  {
    match column
    case 0 => 6 case 1 => 7 case 2 => 6 case 3 => 5 case 4 => 5 case 5 => 6 case 6 => 7 case 7 => 7
    case 8 => 7 case 9 => 7 case 10 => 7 case 11 => 15 case 12 => 11 case 13 => 14 case 14 => 13 case _ => 28
  }

  function BitWidthRow8(column: nat): (w: nat)
    ensures 5 <= w <= 30
  {
    match column
    case 0 => 20 case 1 => 22 case 2 => 20 case 3 => 20 case 4 => 22 case 5 => 22 case 6 => 22 case 7 => 23
    case 8 => 22 case 9 => 23 case 10 => 23 case 11 => 23 case 12 => 23 case 13 => 23 case 14 => 24 case _ => 23
  }

  function BitWidthRow9(column: nat): (w: nat)
    ensures 5 <= w <= 30
  {
    match column
    case 0 => 24 case 1 => 24 case 2 => 22 case 3 => 23 case 4 => 24 case 5 => 23 case 6 => 23 case 7 => 23
    case 8 => 23 case 9 => 21 case 10 => 22 case 11 => 23 case 12 => 22 case 13 => 23 case 14 => 23 case _ => 24
  }

  function BitWidthRow10(column: nat): (w: nat)
    ensures 5 <= w <= 30
  {
    match column
    case 0 => 22 case 1 => 21 case 2 => 20 case 3 => 22 case 4 => 22 case 5 => 23 case 6 => 23 case 7 => 21
    case 8 => 23 case 9 => 22 case 10 => 22 case 11 => 24 case 12 => 21 case 13 => 22 case 14 => 23 case _ => 23
  }

  function BitWidthRow11(column: nat): (w: nat)
    ensures 5 <= w <= 30
  {
    match column
    case 0 => 21 case 1 => 21 case 2 => 22 case 3 => 21 case 4 => 23 case 5 => 22 case 6 => 23 case 7 => 23
    case 8 => 20 case 9 => 22 case 10 => 22 case 11 => 22 case 12 => 23 case 13 => 22 case 14 => 22 case _ => 23
  }

  function BitWidthRow12(column: nat): (w: nat)
    ensures 5 <= w <= 30
  {
    match column
    case 0 => 26 case 1 => 26 case 2 => 20 case 3 => 19 case 4 => 22 case 5 => 23 case 6 => 22 case 7 => 25
    case 8 => 26 case 9 => 26 case 10 => 26 case 11 => 27 case 12 => 27 case 13 => 26 case 14 => 24 case _ => 25
  }

  function BitWidthRow13(column: nat): (w: nat)
    ensures 5 <= w <= 30
  {
    match column
    case 0 => 19 case 1 => 21 case 2 => 26 case 3 => 27 case 4 => 27 case 5 => 26 case 6 => 27 case 7 => 24
    case 8 => 21 case 9 => 21 case 10 => 26 case 11 => 26 case 12 => 28 case 13 => 27 case 14 => 27 case _ => 27
  }

  function BitWidthRow14(column: nat): (w: nat)
    ensures 5 <= w <= 30
  {
    match column
    case 0 => 20 case 1 => 24 case 2 => 20 case 3 => 21 case 4 => 22 case 5 => 21 case 6 => 21 case 7 => 23
    case 8 => 22 case 9 => 22 case 10 => 25 case 11 => 25 case 12 => 24 case 13 => 24 case 14 => 26 case _ => 23
  }

  function BitWidthRow15(column: nat): (w: nat)
    ensures 5 <= w <= 30
  {
    match column
    case 0 => 26 case 1 => 27 case 2 => 26 case 3 => 26 case 4 => 27 case 5 => 27 case 6 => 27 case 7 => 27
    case 8 => 27 case 9 => 28 case 10 => 27 case 11 => 27 case 12 => 27 case 13 => 27 case 14 => 27 case _ => 26
  }

  /** Code words, right-aligned. */
  function HuffmanTable(symbol: nat): nat {
    if symbol >= 256 then 0x3fffffff else
    match symbol / 16
    case 0 => HuffmanTableRow0(symbol % 16)
    case 1 => HuffmanTableRow1(symbol % 16)
    case 2 => HuffmanTableRow2(symbol % 16)
    case 3 => HuffmanTableRow3(symbol % 16)
    case 4 => HuffmanTableRow4(symbol % 16)
    case 5 => HuffmanTableRow5(symbol % 16)
    case 6 => HuffmanTableRow6(symbol % 16)
    case 7 => HuffmanTableRow7(symbol % 16)
    case 8 => HuffmanTableRow8(symbol % 16)
    case 9 => HuffmanTableRow9(symbol % 16)
    case 10 => HuffmanTableRow10(symbol % 16)
    case 11 => HuffmanTableRow11(symbol % 16)
    case 12 => HuffmanTableRow12(symbol % 16)
    case 13 => HuffmanTableRow13(symbol % 16)
    case 14 => HuffmanTableRow14(symbol % 16)
    case _ => HuffmanTableRow15(symbol % 16)
  }

  function HuffmanTableRow0(column: nat): nat {
    match column
    case 0 => 0x1ff8 case 1 => 0x7fffd8 case 2 => 0xfffffe2 case 3 => 0xfffffe3
    case 4 => 0xfffffe4 case 5 => 0xfffffe5 case 6 => 0xfffffe6 case 7 => 0xfffffe7
    case 8 => 0xfffffe8 case 9 => 0xffffea case 10 => 0x3ffffffc case 11 => 0xfffffe9
    case 12 => 0xfffffea case 13 => 0x3ffffffd case 14 => 0xfffffeb case _ => 0xfffffec
  }

  function HuffmanTableRow1(column: nat): nat {
    match column
    case 0 => 0xfffffed case 1 => 0xfffffee case 2 => 0xfffffef case 3 => 0xffffff0
    case 4 => 0xffffff1 case 5 => 0xffffff2 case 6 => 0x3ffffffe case 7 => 0xffffff3
    case 8 => 0xffffff4 case 9 => 0xffffff5 case 10 => 0xffffff6 case 11 => 0xffffff7
    case 12 => 0xffffff8 case 13 => 0xffffff9 case 14 => 0xffffffa case _ => 0xffffffb
  }

  function HuffmanTableRow2(column: nat): nat {
    match column
    case 0 => 0x14 case 1 => 0x3f8 case 2 => 0x3f9 case 3 => 0xffa
    case 4 => 0x1ff9 case 5 => 0x15 case 6 => 0xf8 case 7 => 0x7fa
    case 8 => 0x3fa case 9 => 0x3fb case 10 => 0xf9 case 11 => 0x7fb
    case 12 => 0xfa case 13 => 0x16 case 14 => 0x17 case _ => 0x18
  }

  function HuffmanTableRow3(column: nat): nat {
    match column
    case 0 => 0x0 case 1 => 0x1 case 2 => 0x2 case 3 => 0x19
    case 4 => 0x1a case 5 => 0x1b case 6 => 0x1c case 7 => 0x1d
    case 8 => 0x1e case 9 => 0x1f case 10 => 0x5c case 11 => 0xfb
    case 12 => 0x7ffc case 13 => 0x20 case 14 => 0xffb case _ => 0x3fc
  }

  function HuffmanTableRow4(column: nat): nat {
    match column
    case 0 => 0x1ffa case 1 => 0x21 case 2 => 0x5d case 3 => 0x5e
    case 4 => 0x5f case 5 => 0x60 case 6 => 0x61 case 7 => 0x62
    case 8 => 0x63 case 9 => 0x64 case 10 => 0x65 case 11 => 0x66
    case 12 => 0x67 case 13 => 0x68 case 14 => 0x69 case _ => 0x6a
  }

  function HuffmanTableRow5(column: nat): nat {
    match column
    case 0 => 0x6b case 1 => 0x6c case 2 => 0x6d case 3 => 0x6e
    case 4 => 0x6f case 5 => 0x70 case 6 => 0x71 case 7 => 0x72
    case 8 => 0xfc case 9 => 0x73 case 10 => 0xfd case 11 => 0x1ffb
    case 12 => 0x7fff0 case 13 => 0x1ffc case 14 => 0x3ffc case _ => 0x22
  }

  function HuffmanTableRow6(column: nat): nat {
    match column
    case 0 => 0x7ffd case 1 => 0x3 case 2 => 0x23 case 3 => 0x4
    case 4 => 0x24 case 5 => 0x5 case 6 => 0x25 case 7 => 0x26
    case 8 => 0x27 case 9 => 0x6 case 10 => 0x74 case 11 => 0x75
    case 12 => 0x28 case 13 => 0x29 case 14 => 0x2a case _ => 0x7
  }

  function HuffmanTableRow7(column: nat): nat {
    match column
    case 0 => 0x2b case 1 => 0x76 case 2 => 0x2c case 3 => 0x8
    case 4 => 0x9 case 5 => 0x2d case 6 => 0x77 case 7 => 0x78
    case 8 => 0x79 case 9 => 0x7a case 10 => 0x7b case 11 => 0x7ffe
    case 12 => 0x7fc case 13 => 0x3ffd case 14 => 0x1ffd case _ => 0xffffffc
  }

  function HuffmanTableRow8(column: nat): nat {
    match column
    case 0 => 0xfffe6 case 1 => 0x3fffd2 case 2 => 0xfffe7 case 3 => 0xfffe8
    case 4 => 0x3fffd3 case 5 => 0x3fffd4 case 6 => 0x3fffd5 case 7 => 0x7fffd9
    case 8 => 0x3fffd6 case 9 => 0x7fffda case 10 => 0x7fffdb case 11 => 0x7fffdc
    case 12 => 0x7fffdd case 13 => 0x7fffde case 14 => 0xffffeb case _ => 0x7fffdf
  }

  function HuffmanTableRow9(column: nat): nat {
    match column
    case 0 => 0xffffec case 1 => 0xffffed case 2 => 0x3fffd7 case 3 => 0x7fffe0
    case 4 => 0xffffee case 5 => 0x7fffe1 case 6 => 0x7fffe2 case 7 => 0x7fffe3
    case 8 => 0x7fffe4 case 9 => 0x1fffdc case 10 => 0x3fffd8 case 11 => 0x7fffe5
    case 12 => 0x3fffd9 case 13 => 0x7fffe6 case 14 => 0x7fffe7 case _ => 0xffffef
  }

  function HuffmanTableRow10(column: nat): nat {
    match column
    case 0 => 0x3fffda case 1 => 0x1fffdd case 2 => 0xfffe9 case 3 => 0x3fffdb
    case 4 => 0x3fffdc case 5 => 0x7fffe8 case 6 => 0x7fffe9 case 7 => 0x1fffde
    case 8 => 0x7fffea case 9 => 0x3fffdd case 10 => 0x3fffde case 11 => 0xfffff0
    case 12 => 0x1fffdf case 13 => 0x3fffdf case 14 => 0x7fffeb case _ => 0x7fffec
  }

  function HuffmanTableRow11(column: nat): nat {
    match column
    case 0 => 0x1fffe0 case 1 => 0x1fffe1 case 2 => 0x3fffe0 case 3 => 0x1fffe2
    case 4 => 0x7fffed case 5 => 0x3fffe1 case 6 => 0x7fffee case 7 => 0x7fffef
    case 8 => 0xfffea case 9 => 0x3fffe2 case 10 => 0x3fffe3 case 11 => 0x3fffe4
    case 12 => 0x7ffff0 case 13 => 0x3fffe5 case 14 => 0x3fffe6 case _ => 0x7ffff1
  }

  function HuffmanTableRow12(column: nat): nat {
    match column
    case 0 => 0x3ffffe0 case 1 => 0x3ffffe1 case 2 => 0xfffeb case 3 => 0x7fff1
    case 4 => 0x3fffe7 case 5 => 0x7ffff2 case 6 => 0x3fffe8 case 7 => 0x1ffffec
    case 8 => 0x3ffffe2 case 9 => 0x3ffffe3 case 10 => 0x3ffffe4 case 11 => 0x7ffffde
    case 12 => 0x7ffffdf case 13 => 0x3ffffe5 case 14 => 0xfffff1 case _ => 0x1ffffed
  }

  function HuffmanTableRow13(column: nat): nat {
    match column
    case 0 => 0x7fff2 case 1 => 0x1fffe3 case 2 => 0x3ffffe6 case 3 => 0x7ffffe0
    case 4 => 0x7ffffe1 case 5 => 0x3ffffe7 case 6 => 0x7ffffe2 case 7 => 0xfffff2
    case 8 => 0x1fffe4 case 9 => 0x1fffe5 case 10 => 0x3ffffe8 case 11 => 0x3ffffe9
    case 12 => 0xffffffd case 13 => 0x7ffffe3 case 14 => 0x7ffffe4 case _ => 0x7ffffe5
  }

  function HuffmanTableRow14(column: nat): nat {
    match column
    case 0 => 0xfffec case 1 => 0xfffff3 case 2 => 0xfffed case 3 => 0x1fffe6
    case 4 => 0x3fffe9 case 5 => 0x1fffe7 case 6 => 0x1fffe8 case 7 => 0x7ffff3
    case 8 => 0x3fffea case 9 => 0x3fffeb case 10 => 0x1ffffee case 11 => 0x1ffffef
    case 12 => 0xfffff4 case 13 => 0xfffff5 case 14 => 0x3ffffea case _ => 0x7ffff4
  }

  function HuffmanTableRow15(column: nat): nat {
    match column
    case 0 => 0x3ffffeb case 1 => 0x7ffffe6 case 2 => 0x3ffffec case 3 => 0x3ffffed
    case 4 => 0x7ffffe7 case 5 => 0x7ffffe8 case 6 => 0x7ffffe9 case 7 => 0x7ffffea
    case 8 => 0x7ffffeb case 9 => 0xffffffe case 10 => 0x7ffffec case 11 => 0x7ffffed
    case 12 => 0x7ffffee case 13 => 0x7ffffef case 14 => 0x7fffff0 case _ => 0x3ffffee
  }

  datatype Trie = Leaf(symbol: nat) | Node(zero: Trie, one: Trie)

  /** Every leaf below the path `code` of length `width` carries the symbol whose table code is its path. */
  ghost predicate Labelled(t: Trie, width: nat, code: nat) {
    match t
    case Leaf(s) => s <= 256 && BitWidth(s) == width && HuffmanTable(s) == code
    case Node(zero, one) => Labelled(zero, width + 1, 2 * code) && Labelled(one, width + 1, 2 * code + 1)
  }

  ghost function LeafCount(t: Trie): nat {
    match t
    case Leaf(_) => 1
    case Node(zero, one) => LeafCount(zero) + LeafCount(one)
  }

  function Trie00(): Trie {
    Node(Node(Node(Leaf(48), Leaf(49)), Node(Leaf(50), Leaf(97))), Node(Node(Leaf(99), Leaf(101)), Node(Leaf(105),
    Leaf(111))))
  }

  lemma Trie00Labelled()
    ensures Labelled(Trie00(), 2, 0x0) && LeafCount(Trie00()) == 8
  {}

  function Trie01(): Trie {
    Node(Node(Node(Leaf(115), Leaf(116)), Node(Node(Leaf(32), Leaf(37)), Node(Leaf(45), Leaf(46)))),
    Node(Node(Node(Leaf(47), Leaf(51)), Node(Leaf(52), Leaf(53))), Node(Node(Leaf(54), Leaf(55)), Node(Leaf(56),
    Leaf(57)))))
  }

  lemma Trie01Labelled()
    ensures Labelled(Trie01(), 2, 0x1) && LeafCount(Trie01()) == 14
  {}

  function TrieOnes1Then00(): Trie {
    Node(Node(Node(Leaf(61), Leaf(65)), Node(Leaf(95), Leaf(98))), Node(Node(Leaf(100), Leaf(102)),
    Node(Leaf(103), Leaf(104))))
  }

  lemma TrieOnes1Then00Labelled()
    ensures Labelled(TrieOnes1Then00(), 3, 0x4) && LeafCount(TrieOnes1Then00()) == 8
  {}

  function TrieOnes1Then01(): Trie {
    Node(Node(Node(Leaf(108), Leaf(109)), Node(Leaf(110), Leaf(112))), Node(Node(Leaf(114), Leaf(117)),
    Node(Node(Leaf(58), Leaf(66)), Node(Leaf(67), Leaf(68)))))
  }

  lemma TrieOnes1Then01Labelled()
    ensures Labelled(TrieOnes1Then01(), 3, 0x5) && LeafCount(TrieOnes1Then01()) == 10
  {}

  function TrieOnes1Then0(): Trie {
    Node(TrieOnes1Then00(), TrieOnes1Then01())
  }

  lemma TrieOnes1Then0Labelled()
    ensures Labelled(TrieOnes1Then0(), 2, 0x2) && LeafCount(TrieOnes1Then0()) == 18
  {
    hide BitWidth, HuffmanTable, TrieOnes1Then00, TrieOnes1Then01;
    TrieOnes1Then00Labelled(); TrieOnes1Then01Labelled();
  }

  function TrieOnes2Then00(): Trie {
    Node(Node(Node(Leaf(69), Leaf(70)), Node(Leaf(71), Leaf(72))), Node(Node(Leaf(73), Leaf(74)), Node(Leaf(75),
    Leaf(76))))
  }

  lemma TrieOnes2Then00Labelled()
    ensures Labelled(TrieOnes2Then00(), 4, 0xc) && LeafCount(TrieOnes2Then00()) == 8
  {}

  function TrieOnes2Then01(): Trie {
    Node(Node(Node(Leaf(77), Leaf(78)), Node(Leaf(79), Leaf(80))), Node(Node(Leaf(81), Leaf(82)), Node(Leaf(83),
    Leaf(84))))
  }

  lemma TrieOnes2Then01Labelled()
    ensures Labelled(TrieOnes2Then01(), 4, 0xd) && LeafCount(TrieOnes2Then01()) == 8
  {}

  function TrieOnes3Then0(): Trie {
    Node(Node(Node(Leaf(85), Leaf(86)), Node(Leaf(87), Leaf(89))), Node(Node(Leaf(106), Leaf(107)),
    Node(Leaf(113), Leaf(118))))
  }

  lemma TrieOnes3Then0Labelled()
    ensures Labelled(TrieOnes3Then0(), 4, 0xe) && LeafCount(TrieOnes3Then0()) == 8
  {}

  function TrieOnes4Then0(): Trie {
    Node(Node(Leaf(119), Leaf(120)), Node(Leaf(121), Leaf(122)))
  }

  lemma TrieOnes4Then0Labelled()
    ensures Labelled(TrieOnes4Then0(), 5, 0x1e) && LeafCount(TrieOnes4Then0()) == 4
  {}

  function TrieOnes5Then0(): Trie { Node(Node(Leaf(38), Leaf(42)), Node(Leaf(44), Leaf(59))) }

  lemma TrieOnes5Then0Labelled()
    ensures Labelled(TrieOnes5Then0(), 6, 0x3e) && LeafCount(TrieOnes5Then0()) == 4
  {}

  function TrieOnes6Then0(): Trie { Node(Leaf(88), Leaf(90)) }

  lemma TrieOnes6Then0Labelled()
    ensures Labelled(TrieOnes6Then0(), 7, 0x7e) && LeafCount(TrieOnes6Then0()) == 2
  {}

  function TrieOnes7Then0(): Trie { Node(Node(Leaf(33), Leaf(34)), Node(Leaf(40), Leaf(41))) }

  lemma TrieOnes7Then0Labelled()
    ensures Labelled(TrieOnes7Then0(), 8, 0xfe) && LeafCount(TrieOnes7Then0()) == 4
  {}

  function TrieOnes8Then0(): Trie { Node(Leaf(63), Node(Leaf(39), Leaf(43))) }

  lemma TrieOnes8Then0Labelled()
    ensures Labelled(TrieOnes8Then0(), 9, 0x1fe) && LeafCount(TrieOnes8Then0()) == 3
  {}

  function TrieOnes9Then0(): Trie { Node(Leaf(124), Node(Leaf(35), Leaf(62))) }

  lemma TrieOnes9Then0Labelled()
    ensures Labelled(TrieOnes9Then0(), 10, 0x3fe) && LeafCount(TrieOnes9Then0()) == 3
  {}

  function TrieOnes10Then0(): Trie { Node(Node(Leaf(0), Leaf(36)), Node(Leaf(64), Leaf(91))) }

  lemma TrieOnes10Then0Labelled()
    ensures Labelled(TrieOnes10Then0(), 11, 0x7fe) && LeafCount(TrieOnes10Then0()) == 4
  {}

  function TrieOnes11Then0(): Trie { Node(Leaf(93), Leaf(126)) }

  lemma TrieOnes11Then0Labelled()
    ensures Labelled(TrieOnes11Then0(), 12, 0xffe) && LeafCount(TrieOnes11Then0()) == 2
  {}

  function TrieOnes12Then0(): Trie { Node(Leaf(94), Leaf(125)) }

  lemma TrieOnes12Then0Labelled()
    ensures Labelled(TrieOnes12Then0(), 13, 0x1ffe) && LeafCount(TrieOnes12Then0()) == 2
  {}

  function TrieOnes13Then0(): Trie { Node(Leaf(60), Leaf(96)) }

  lemma TrieOnes13Then0Labelled()
    ensures Labelled(TrieOnes13Then0(), 14, 0x3ffe) && LeafCount(TrieOnes13Then0()) == 2
  {}

  function TrieOnes14Then0(): Trie { Leaf(123) }

  lemma TrieOnes14Then0Labelled()
    ensures Labelled(TrieOnes14Then0(), 15, 0x7ffe) && LeafCount(TrieOnes14Then0()) == 1
  {}

  function TrieOnes15Then00(): Trie {
    Node(Node(Leaf(92), Leaf(195)), Node(Leaf(208), Node(Leaf(128), Leaf(130))))
  }

  lemma TrieOnes15Then00Labelled()
    ensures Labelled(TrieOnes15Then00(), 17, 0x1fffc) && LeafCount(TrieOnes15Then00()) == 5
  {}

  function TrieOnes15Then01(): Trie {
    Node(Node(Node(Leaf(131), Leaf(162)), Node(Leaf(184), Leaf(194))), Node(Node(Leaf(224), Leaf(226)),
    Node(Node(Leaf(153), Leaf(161)), Node(Leaf(167), Leaf(172)))))
  }

  lemma TrieOnes15Then01Labelled()
    ensures Labelled(TrieOnes15Then01(), 17, 0x1fffd) && LeafCount(TrieOnes15Then01()) == 10
  {}

  function TrieOnes15Then0(): Trie {
    Node(TrieOnes15Then00(), TrieOnes15Then01())
  }

  lemma TrieOnes15Then0Labelled()
    ensures Labelled(TrieOnes15Then0(), 16, 0xfffe) && LeafCount(TrieOnes15Then0()) == 15
  {
    hide BitWidth, HuffmanTable, TrieOnes15Then00, TrieOnes15Then01;
    TrieOnes15Then00Labelled(); TrieOnes15Then01Labelled();
  }

  function TrieOnes16Then00(): Trie {
    Node(Node(Node(Leaf(176), Leaf(177)), Node(Leaf(179), Leaf(209))), Node(Node(Leaf(216), Leaf(217)),
    Node(Leaf(227), Leaf(229))))
  }

  lemma TrieOnes16Then00Labelled()
    ensures Labelled(TrieOnes16Then00(), 18, 0x3fffc) && LeafCount(TrieOnes16Then00()) == 8
  {}

  function TrieOnes16Then010(): Trie {
    Node(Node(Leaf(230), Node(Leaf(129), Leaf(132))), Node(Node(Leaf(133), Leaf(134)), Node(Leaf(136),
    Leaf(146))))
  }

  lemma TrieOnes16Then010Labelled()
    ensures Labelled(TrieOnes16Then010(), 19, 0x7fffa) && LeafCount(TrieOnes16Then010()) == 7
  {}

  function TrieOnes16Then011(): Trie {
    Node(Node(Node(Leaf(154), Leaf(156)), Node(Leaf(160), Leaf(163))), Node(Node(Leaf(164), Leaf(169)),
    Node(Leaf(170), Leaf(173))))
  }

  lemma TrieOnes16Then011Labelled()
    ensures Labelled(TrieOnes16Then011(), 19, 0x7fffb) && LeafCount(TrieOnes16Then011()) == 8
  {}

  function TrieOnes16Then01(): Trie {
    Node(TrieOnes16Then010(), TrieOnes16Then011())
  }

  lemma TrieOnes16Then01Labelled()
    ensures Labelled(TrieOnes16Then01(), 18, 0x3fffd) && LeafCount(TrieOnes16Then01()) == 15
  {
    hide BitWidth, HuffmanTable, TrieOnes16Then010, TrieOnes16Then011;
    TrieOnes16Then010Labelled(); TrieOnes16Then011Labelled();
  }

  function TrieOnes17Then00(): Trie {
    Node(Node(Node(Leaf(178), Leaf(181)), Node(Leaf(185), Leaf(186))), Node(Node(Leaf(187), Leaf(189)),
    Node(Leaf(190), Leaf(196))))
  }

  lemma TrieOnes17Then00Labelled()
    ensures Labelled(TrieOnes17Then00(), 19, 0x7fffc) && LeafCount(TrieOnes17Then00()) == 8
  {}

  function TrieOnes17Then01(): Trie {
    Node(Node(Node(Leaf(198), Leaf(228)), Node(Leaf(232), Leaf(233))), Node(Node(Node(Leaf(1), Leaf(135)),
    Node(Leaf(137), Leaf(138))), Node(Node(Leaf(139), Leaf(140)), Node(Leaf(141), Leaf(143)))))
  }

  lemma TrieOnes17Then01Labelled()
    ensures Labelled(TrieOnes17Then01(), 19, 0x7fffd) && LeafCount(TrieOnes17Then01()) == 12
  {}

  function TrieOnes17Then0(): Trie {
    Node(TrieOnes17Then00(), TrieOnes17Then01())
  }

  lemma TrieOnes17Then0Labelled()
    ensures Labelled(TrieOnes17Then0(), 18, 0x3fffe) && LeafCount(TrieOnes17Then0()) == 20
  {
    hide BitWidth, HuffmanTable, TrieOnes17Then00, TrieOnes17Then01;
    TrieOnes17Then00Labelled(); TrieOnes17Then01Labelled();
  }

  function TrieOnes18Then00(): Trie {
    Node(Node(Node(Leaf(147), Leaf(149)), Node(Leaf(150), Leaf(151))), Node(Node(Leaf(152), Leaf(155)),
    Node(Leaf(157), Leaf(158))))
  }

  lemma TrieOnes18Then00Labelled()
    ensures Labelled(TrieOnes18Then00(), 20, 0xffffc) && LeafCount(TrieOnes18Then00()) == 8
  {}

  function TrieOnes18Then01(): Trie {
    Node(Node(Node(Leaf(165), Leaf(166)), Node(Leaf(168), Leaf(174))), Node(Node(Leaf(175), Leaf(180)),
    Node(Leaf(182), Leaf(183))))
  }

  lemma TrieOnes18Then01Labelled()
    ensures Labelled(TrieOnes18Then01(), 20, 0xffffd) && LeafCount(TrieOnes18Then01()) == 8
  {}

  function TrieOnes19Then0(): Trie {
    Node(Node(Node(Leaf(188), Leaf(191)), Node(Leaf(197), Leaf(231))), Node(Node(Leaf(239), Node(Leaf(9),
    Leaf(142))), Node(Node(Leaf(144), Leaf(145)), Node(Leaf(148), Leaf(159)))))
  }

  lemma TrieOnes19Then0Labelled()
    ensures Labelled(TrieOnes19Then0(), 20, 0xffffe) && LeafCount(TrieOnes19Then0()) == 11
  {}

  function TrieOnes20Then0(): Trie {
    Node(Node(Node(Leaf(171), Leaf(206)), Node(Leaf(215), Leaf(225))), Node(Node(Leaf(236), Leaf(237)),
    Node(Node(Leaf(199), Leaf(207)), Node(Leaf(234), Leaf(235)))))
  }

  lemma TrieOnes20Then0Labelled()
    ensures Labelled(TrieOnes20Then0(), 21, 0x1ffffe) && LeafCount(TrieOnes20Then0()) == 10
  {}

  function TrieOnes21Then00(): Trie {
    Node(Node(Node(Leaf(192), Leaf(193)), Node(Leaf(200), Leaf(201))), Node(Node(Leaf(202), Leaf(205)),
    Node(Leaf(210), Leaf(213))))
  }

  lemma TrieOnes21Then00Labelled()
    ensures Labelled(TrieOnes21Then00(), 23, 0x7ffffc) && LeafCount(TrieOnes21Then00()) == 8
  {}

  function TrieOnes21Then01(): Trie {
    Node(Node(Node(Leaf(218), Leaf(219)), Node(Leaf(238), Leaf(240))), Node(Node(Leaf(242), Leaf(243)),
    Node(Leaf(255), Node(Leaf(203), Leaf(204)))))
  }

  lemma TrieOnes21Then01Labelled()
    ensures Labelled(TrieOnes21Then01(), 23, 0x7ffffd) && LeafCount(TrieOnes21Then01()) == 9
  {}

  function TrieOnes21Then0(): Trie {
    Node(TrieOnes21Then00(), TrieOnes21Then01())
  }

  lemma TrieOnes21Then0Labelled()
    ensures Labelled(TrieOnes21Then0(), 22, 0x3ffffe) && LeafCount(TrieOnes21Then0()) == 17
  {
    hide BitWidth, HuffmanTable, TrieOnes21Then00, TrieOnes21Then01;
    TrieOnes21Then00Labelled(); TrieOnes21Then01Labelled();
  }

  function TrieOnes22Then00(): Trie {
    Node(Node(Node(Leaf(211), Leaf(212)), Node(Leaf(214), Leaf(221))), Node(Node(Leaf(222), Leaf(223)),
    Node(Leaf(241), Leaf(244))))
  }

  lemma TrieOnes22Then00Labelled()
    ensures Labelled(TrieOnes22Then00(), 24, 0xfffffc) && LeafCount(TrieOnes22Then00()) == 8
  {}

  function TrieOnes22Then01(): Trie {
    Node(Node(Node(Leaf(245), Leaf(246)), Node(Leaf(247), Leaf(248))), Node(Node(Leaf(250), Leaf(251)),
    Node(Leaf(252), Leaf(253))))
  }

  lemma TrieOnes22Then01Labelled()
    ensures Labelled(TrieOnes22Then01(), 24, 0xfffffd) && LeafCount(TrieOnes22Then01()) == 8
  {}

  function TrieOnes23Then00(): Trie {
    Node(Node(Leaf(254), Node(Leaf(2), Leaf(3))), Node(Node(Leaf(4), Leaf(5)), Node(Leaf(6), Leaf(7))))
  }

  lemma TrieOnes23Then00Labelled()
    ensures Labelled(TrieOnes23Then00(), 25, 0x1fffffc) && LeafCount(TrieOnes23Then00()) == 7
  {}

  function TrieOnes23Then01(): Trie {
    Node(Node(Node(Leaf(8), Leaf(11)), Node(Leaf(12), Leaf(14))), Node(Node(Leaf(15), Leaf(16)), Node(Leaf(17),
    Leaf(18))))
  }

  lemma TrieOnes23Then01Labelled()
    ensures Labelled(TrieOnes23Then01(), 25, 0x1fffffd) && LeafCount(TrieOnes23Then01()) == 8
  {}

  function TrieOnes23Then0(): Trie {
    Node(TrieOnes23Then00(), TrieOnes23Then01())
  }

  lemma TrieOnes23Then0Labelled()
    ensures Labelled(TrieOnes23Then0(), 24, 0xfffffe) && LeafCount(TrieOnes23Then0()) == 15
  {
    hide BitWidth, HuffmanTable, TrieOnes23Then00, TrieOnes23Then01;
    TrieOnes23Then00Labelled(); TrieOnes23Then01Labelled();
  }

  function TrieOnes24Then0(): Trie {
    Node(Node(Node(Leaf(19), Leaf(20)), Node(Leaf(21), Leaf(23))), Node(Node(Leaf(24), Leaf(25)), Node(Leaf(26),
    Leaf(27))))
  }

  lemma TrieOnes24Then0Labelled()
    ensures Labelled(TrieOnes24Then0(), 25, 0x1fffffe) && LeafCount(TrieOnes24Then0()) == 8
  {}

  function TrieOnes25(): Trie {
    Node(Node(Node(Leaf(28), Leaf(29)), Node(Leaf(30), Leaf(31))), Node(Node(Leaf(127), Leaf(220)),
    Node(Leaf(249), Node(Node(Leaf(10), Leaf(13)), Node(Leaf(22), Leaf(256))))))
  }

  lemma TrieOnes25Labelled()
    ensures Labelled(TrieOnes25(), 25, 0x1ffffff) && LeafCount(TrieOnes25()) == 11
  {}

  function TrieOnes24(): Trie {
    Node(TrieOnes24Then0(), TrieOnes25())
  }

  lemma TrieOnes24Labelled()
    ensures Labelled(TrieOnes24(), 24, 0xffffff) && LeafCount(TrieOnes24()) == 19
  {
    hide BitWidth, HuffmanTable, TrieOnes24Then0, TrieOnes25;
    TrieOnes24Then0Labelled(); TrieOnes25Labelled();
  }

  function TrieOnes22(): Trie {
    Node(Node(TrieOnes22Then00(), TrieOnes22Then01()), Node(TrieOnes23Then0(), TrieOnes24()))
  }

  lemma TrieOnes22Labelled()
    ensures Labelled(TrieOnes22(), 22, 0x3fffff) && LeafCount(TrieOnes22()) == 50
  {
    hide BitWidth, HuffmanTable, TrieOnes22Then00, TrieOnes22Then01, TrieOnes23Then0, TrieOnes24;
    TrieOnes22Then00Labelled(); TrieOnes22Then01Labelled(); TrieOnes23Then0Labelled(); TrieOnes24Labelled();
  }

  function TrieOnes20(): Trie {
    Node(TrieOnes20Then0(), Node(TrieOnes21Then0(), TrieOnes22()))
  }

  lemma TrieOnes20Labelled()
    ensures Labelled(TrieOnes20(), 20, 0xfffff) && LeafCount(TrieOnes20()) == 77
  {
    hide BitWidth, HuffmanTable, TrieOnes20Then0, TrieOnes21Then0, TrieOnes22;
    TrieOnes20Then0Labelled(); TrieOnes21Then0Labelled(); TrieOnes22Labelled();
  }

  function TrieOnes18(): Trie {
    Node(Node(TrieOnes18Then00(), TrieOnes18Then01()), Node(TrieOnes19Then0(), TrieOnes20()))
  }

  lemma TrieOnes18Labelled()
    ensures Labelled(TrieOnes18(), 18, 0x3ffff) && LeafCount(TrieOnes18()) == 104
  {
    hide BitWidth, HuffmanTable, TrieOnes18Then00, TrieOnes18Then01, TrieOnes19Then0, TrieOnes20;
    TrieOnes18Then00Labelled(); TrieOnes18Then01Labelled(); TrieOnes19Then0Labelled(); TrieOnes20Labelled();
  }

  function TrieOnes16(): Trie {
    Node(Node(TrieOnes16Then00(), TrieOnes16Then01()), Node(TrieOnes17Then0(), TrieOnes18()))
  }

  lemma TrieOnes16Labelled()
    ensures Labelled(TrieOnes16(), 16, 0xffff) && LeafCount(TrieOnes16()) == 147
  {
    hide BitWidth, HuffmanTable, TrieOnes16Then00, TrieOnes16Then01, TrieOnes17Then0, TrieOnes18;
    TrieOnes16Then00Labelled(); TrieOnes16Then01Labelled(); TrieOnes17Then0Labelled(); TrieOnes18Labelled();
  }

  function TrieOnes14(): Trie {
    Node(TrieOnes14Then0(), Node(TrieOnes15Then0(), TrieOnes16()))
  }

  lemma TrieOnes14Labelled()
    ensures Labelled(TrieOnes14(), 14, 0x3fff) && LeafCount(TrieOnes14()) == 163
  {
    hide BitWidth, HuffmanTable, TrieOnes14Then0, TrieOnes15Then0, TrieOnes16;
    TrieOnes14Then0Labelled(); TrieOnes15Then0Labelled(); TrieOnes16Labelled();
  }

  function TrieOnes12(): Trie {
    Node(TrieOnes12Then0(), Node(TrieOnes13Then0(), TrieOnes14()))
  }

  lemma TrieOnes12Labelled()
    ensures Labelled(TrieOnes12(), 12, 0xfff) && LeafCount(TrieOnes12()) == 167
  {
    hide BitWidth, HuffmanTable, TrieOnes12Then0, TrieOnes13Then0, TrieOnes14;
    TrieOnes12Then0Labelled(); TrieOnes13Then0Labelled(); TrieOnes14Labelled();
  }

  function TrieOnes10(): Trie {
    Node(TrieOnes10Then0(), Node(TrieOnes11Then0(), TrieOnes12()))
  }

  lemma TrieOnes10Labelled()
    ensures Labelled(TrieOnes10(), 10, 0x3ff) && LeafCount(TrieOnes10()) == 173
  {
    hide BitWidth, HuffmanTable, TrieOnes10Then0, TrieOnes11Then0, TrieOnes12;
    TrieOnes10Then0Labelled(); TrieOnes11Then0Labelled(); TrieOnes12Labelled();
  }

  function TrieOnes8(): Trie {
    Node(TrieOnes8Then0(), Node(TrieOnes9Then0(), TrieOnes10()))
  }

  lemma TrieOnes8Labelled()
    ensures Labelled(TrieOnes8(), 8, 0xff) && LeafCount(TrieOnes8()) == 179
  {
    hide BitWidth, HuffmanTable, TrieOnes8Then0, TrieOnes9Then0, TrieOnes10;
    TrieOnes8Then0Labelled(); TrieOnes9Then0Labelled(); TrieOnes10Labelled();
  }

  function TrieOnes6(): Trie {
    Node(TrieOnes6Then0(), Node(TrieOnes7Then0(), TrieOnes8()))
  }

  lemma TrieOnes6Labelled()
    ensures Labelled(TrieOnes6(), 6, 0x3f) && LeafCount(TrieOnes6()) == 185
  {
    hide BitWidth, HuffmanTable, TrieOnes6Then0, TrieOnes7Then0, TrieOnes8;
    TrieOnes6Then0Labelled(); TrieOnes7Then0Labelled(); TrieOnes8Labelled();
  }

  function TrieOnes4(): Trie {
    Node(TrieOnes4Then0(), Node(TrieOnes5Then0(), TrieOnes6()))
  }

  lemma TrieOnes4Labelled()
    ensures Labelled(TrieOnes4(), 4, 0xf) && LeafCount(TrieOnes4()) == 193
  {
    hide BitWidth, HuffmanTable, TrieOnes4Then0, TrieOnes5Then0, TrieOnes6;
    TrieOnes4Then0Labelled(); TrieOnes5Then0Labelled(); TrieOnes6Labelled();
  }

  function TrieOnes2(): Trie {
    Node(Node(TrieOnes2Then00(), TrieOnes2Then01()), Node(TrieOnes3Then0(), TrieOnes4()))
  }

  lemma TrieOnes2Labelled()
    ensures Labelled(TrieOnes2(), 2, 0x3) && LeafCount(TrieOnes2()) == 217
  {
    hide BitWidth, HuffmanTable, TrieOnes2Then00, TrieOnes2Then01, TrieOnes3Then0, TrieOnes4;
    TrieOnes2Then00Labelled(); TrieOnes2Then01Labelled(); TrieOnes3Then0Labelled(); TrieOnes4Labelled();
  }

  function DecisionTree(): Trie {
    Node(Node(Trie00(), Trie01()), Node(TrieOnes1Then0(), TrieOnes2()))
  }

  lemma DecisionTreeLabelled()
    ensures Labelled(DecisionTree(), 0, 0) && LeafCount(DecisionTree()) == 257
  {
    hide BitWidth, HuffmanTable, Trie00, Trie01, TrieOnes1Then0, TrieOnes2;
    Trie00Labelled(); Trie01Labelled(); TrieOnes1Then0Labelled(); TrieOnes2Labelled();
  }
}
