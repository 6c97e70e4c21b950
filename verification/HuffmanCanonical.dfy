/**
 The code is canonical, as appendix B of RFC 7541 says: its code words are ordered by width and then by symbol,
 so that the widths alone determine all of them.
 */
module HuffmanCanonical {
  import opened BitStrings
  import opened HuffmanCode
  import opened HuffmanTrie

  datatype Span = Span(firstDepth: nat, first: nat, lastDepth: nat, last: nat) | Unsorted

  /** The first and the last leaf of a tree, if from left to right its leaves lie deeper, or as deep and carry
      greater symbols. */
  function SpanOf(t: Trie): Span {
    match t
    case Leaf(s) => Span(0, s, 0, s)
    case Node(zero, one) => Join(SpanOf(zero), SpanOf(one))
  }

  function Join(a: Span, b: Span): Span {
    if a.Unsorted? || b.Unsorted? then Unsorted
    else if Before(a.lastDepth, a.last, b.firstDepth, b.first) then
      Span(a.firstDepth + 1, a.first, b.lastDepth + 1, b.last)
    else Unsorted
  }

  predicate Before(width: nat, symbol: nat, width': nat, symbol': nat) {
    width < width' || (width == width' && symbol < symbol')
  }

  // Every sorted, labelled tree

  /** The first bit in which two code words differ. */
  ghost predicate Less(a: seq<bool>, b: seq<bool>) {
    exists k :: 0 <= k < |a| && k < |b| && a[..k] == b[..k] && !a[k] && b[k]
  }

  lemma LessOneWay(a: seq<bool>, b: seq<bool>)
    requires Less(a, b)
    ensures !Less(b, a)
  {
    var k :| 0 <= k < |a| && k < |b| && a[..k] == b[..k] && !a[k] && b[k];
    forall j | 0 <= j < k ensures a[j] == b[j] {
      assert a[..k][j] == b[..k][j];
    }
    forall j | k < j && j <= |a| && j <= |b| ensures a[..j] != b[..j] {
      assert a[..j][k] == a[k] && b[..j][k] == b[k];
    }
  }

  lemma {:induction false} WithinSpan(t: Trie, width: nat, code: nat, s: nat)
    requires Labelled(t, width, code) && SpanOf(t).Span? && s in Symbols(t)
    ensures var p := SpanOf(t);
            && !Before(BitWidth(s), s, width + p.firstDepth, p.first)
            && !Before(width + p.lastDepth, p.last, BitWidth(s), s)
  {
    hide BitWidth, HuffmanTable;
    match t
    case Leaf(_) =>
    case Node(zero, one) =>
      SpanIsOrdered(zero);
      SpanIsOrdered(one);
      if s in Symbols(one) {
        WithinSpan(one, width + 1, 2 * code + 1, s);
      } else {
        WithinSpan(zero, width + 1, 2 * code, s);
      }
  }

  lemma {:induction false} SpanIsOrdered(t: Trie)
    requires SpanOf(t).Span?
    ensures var p := SpanOf(t); !Before(p.lastDepth, p.last, p.firstDepth, p.first)
  {
    match t
    case Leaf(_) =>
    case Node(zero, one) =>
      SpanIsOrdered(zero);
      SpanIsOrdered(one);
  }

  lemma {:induction false} SidesDiffer(zero: Trie, one: Trie, width: nat, code: nat, s: nat, r: nat)
    requires Labelled(Node(zero, one), width, code) && SpanOf(Node(zero, one)).Span?
    requires s in Symbols(zero) && r in Symbols(one)
    ensures Less(Code(s), Code(r)) && Before(BitWidth(s), s, BitWidth(r), r)
  {
    hide BitWidth, HuffmanTable, Code, Bits;
    var t := Node(zero, one);
    SymbolOnOneSide(zero, one, width, code, s);
    SymbolsBelow(t, width, code, s);
    SymbolsBelow(t, width, code, r);
    assert Code(s)[..width] == Code(r)[..width] && !Code(s)[width] && Code(r)[width];
    WithinSpan(zero, width + 1, 2 * code, s);
    WithinSpan(one, width + 1, 2 * code + 1, r);
  }

  lemma {:induction false} LeavesInOrder(t: Trie, width: nat, code: nat, s: nat, r: nat)
    requires Labelled(t, width, code) && SpanOf(t).Span? && s in Symbols(t) && r in Symbols(t) && s != r
    ensures Less(Code(s), Code(r)) <==> Before(BitWidth(s), s, BitWidth(r), r)
  {
    hide BitWidth, HuffmanTable, Code, Less;
    match t
    case Leaf(_) =>
    case Node(zero, one) =>
      if s in Symbols(zero) && r in Symbols(one) {
        SidesDiffer(zero, one, width, code, s, r);
      } else if s in Symbols(one) && r in Symbols(zero) {
        SidesDiffer(zero, one, width, code, r, s);
        LessOneWay(Code(r), Code(s));
      } else if s in Symbols(zero) {
        LeavesInOrder(zero, width + 1, 2 * code, s, r);
      } else {
        LeavesInOrder(one, width + 1, 2 * code + 1, s, r);
      }
  }

  /** One code word comes before another exactly when it is shorter, or as wide and of a smaller symbol. */
  lemma {:induction false} CodeIsCanonical(s: nat, r: nat)
    requires s <= 256 && r <= 256 && s != r
    ensures Less(Code(s), Code(r)) <==> BitWidth(s) < BitWidth(r) || (BitWidth(s) == BitWidth(r) && s < r)
  {
    hide BitWidth, HuffmanTable, Code, DecisionTree, Less;
    DecisionTreeLabelled();
    DecisionTreeSymbols();
    DecisionTreeSpan();
    LeavesInOrder(DecisionTree(), 0, 0, s, r);
  }

  // The tree of the source, piece by piece

  lemma Joined(zero: Trie, one: Trie)
    ensures SpanOf(Node(zero, one)) == Join(SpanOf(zero), SpanOf(one))
  {
  }

  lemma Trie00Span()
    ensures SpanOf(Trie00()) == Span(3, 48, 3, 111)
  {}

  lemma Trie01Span()
    ensures SpanOf(Trie01()) == Span(3, 115, 4, 57)
  {}

  lemma TrieOnes1Then00Span()
    ensures SpanOf(TrieOnes1Then00()) == Span(3, 61, 3, 104)
  {}

  lemma TrieOnes1Then01Span()
    ensures SpanOf(TrieOnes1Then01()) == Span(3, 108, 4, 68)
  {}

  lemma TrieOnes1Then0Span()
    ensures SpanOf(TrieOnes1Then0()) == Span(4, 61, 5, 68)
  {
    hide SpanOf, TrieOnes1Then00, TrieOnes1Then01;
    TrieOnes1Then00Span(); TrieOnes1Then01Span();
    Joined(TrieOnes1Then00(), TrieOnes1Then01());
  }

  lemma TrieOnes2Then00Span()
    ensures SpanOf(TrieOnes2Then00()) == Span(3, 69, 3, 76)
  {}

  lemma TrieOnes2Then01Span()
    ensures SpanOf(TrieOnes2Then01()) == Span(3, 77, 3, 84)
  {}

  lemma TrieOnes3Then0Span()
    ensures SpanOf(TrieOnes3Then0()) == Span(3, 85, 3, 118)
  {}

  lemma TrieOnes4Then0Span()
    ensures SpanOf(TrieOnes4Then0()) == Span(2, 119, 2, 122)
  {}

  lemma TrieOnes5Then0Span()
    ensures SpanOf(TrieOnes5Then0()) == Span(2, 38, 2, 59)
  {}

  lemma TrieOnes6Then0Span()
    ensures SpanOf(TrieOnes6Then0()) == Span(1, 88, 1, 90)
  {}

  lemma TrieOnes7Then0Span()
    ensures SpanOf(TrieOnes7Then0()) == Span(2, 33, 2, 41)
  {}

  lemma TrieOnes8Then0Span()
    ensures SpanOf(TrieOnes8Then0()) == Span(1, 63, 2, 43)
  {}

  lemma TrieOnes9Then0Span()
    ensures SpanOf(TrieOnes9Then0()) == Span(1, 124, 2, 62)
  {}

  lemma TrieOnes10Then0Span()
    ensures SpanOf(TrieOnes10Then0()) == Span(2, 0, 2, 91)
  {}

  lemma TrieOnes11Then0Span()
    ensures SpanOf(TrieOnes11Then0()) == Span(1, 93, 1, 126)
  {}

  lemma TrieOnes12Then0Span()
    ensures SpanOf(TrieOnes12Then0()) == Span(1, 94, 1, 125)
  {}

  lemma TrieOnes13Then0Span()
    ensures SpanOf(TrieOnes13Then0()) == Span(1, 60, 1, 96)
  {}

  lemma TrieOnes14Then0Span()
    ensures SpanOf(TrieOnes14Then0()) == Span(0, 123, 0, 123)
  {}

  lemma TrieOnes15Then00Span()
    ensures SpanOf(TrieOnes15Then00()) == Span(2, 92, 3, 130)
  {}

  lemma TrieOnes15Then01Span()
    ensures SpanOf(TrieOnes15Then01()) == Span(3, 131, 4, 172)
  {}

  lemma TrieOnes15Then0Span()
    ensures SpanOf(TrieOnes15Then0()) == Span(3, 92, 5, 172)
  {
    hide SpanOf, TrieOnes15Then00, TrieOnes15Then01;
    TrieOnes15Then00Span(); TrieOnes15Then01Span();
    Joined(TrieOnes15Then00(), TrieOnes15Then01());
  }

  lemma TrieOnes16Then00Span()
    ensures SpanOf(TrieOnes16Then00()) == Span(3, 176, 3, 229)
  {}

  lemma TrieOnes16Then010Span()
    ensures SpanOf(TrieOnes16Then010()) == Span(2, 230, 3, 146)
  {}

  lemma TrieOnes16Then011Span()
    ensures SpanOf(TrieOnes16Then011()) == Span(3, 154, 3, 173)
  {}

  lemma TrieOnes16Then01Span()
    ensures SpanOf(TrieOnes16Then01()) == Span(3, 230, 4, 173)
  {
    hide SpanOf, TrieOnes16Then010, TrieOnes16Then011;
    TrieOnes16Then010Span(); TrieOnes16Then011Span();
    Joined(TrieOnes16Then010(), TrieOnes16Then011());
  }

  lemma TrieOnes17Then00Span()
    ensures SpanOf(TrieOnes17Then00()) == Span(3, 178, 3, 196)
  {}

  lemma TrieOnes17Then01Span()
    ensures SpanOf(TrieOnes17Then01()) == Span(3, 198, 4, 143)
  {}

  lemma TrieOnes17Then0Span()
    ensures SpanOf(TrieOnes17Then0()) == Span(4, 178, 5, 143)
  {
    hide SpanOf, TrieOnes17Then00, TrieOnes17Then01;
    TrieOnes17Then00Span(); TrieOnes17Then01Span();
    Joined(TrieOnes17Then00(), TrieOnes17Then01());
  }

  lemma TrieOnes18Then00Span()
    ensures SpanOf(TrieOnes18Then00()) == Span(3, 147, 3, 158)
  {}

  lemma TrieOnes18Then01Span()
    ensures SpanOf(TrieOnes18Then01()) == Span(3, 165, 3, 183)
  {}

  lemma TrieOnes19Then0Span()
    ensures SpanOf(TrieOnes19Then0()) == Span(3, 188, 4, 159)
  {}

  lemma TrieOnes20Then0Span()
    ensures SpanOf(TrieOnes20Then0()) == Span(3, 171, 4, 235)
  {}

  lemma TrieOnes21Then00Span()
    ensures SpanOf(TrieOnes21Then00()) == Span(3, 192, 3, 213)
  {}

  lemma TrieOnes21Then01Span()
    ensures SpanOf(TrieOnes21Then01()) == Span(3, 218, 4, 204)
  {}

  lemma TrieOnes21Then0Span()
    ensures SpanOf(TrieOnes21Then0()) == Span(4, 192, 5, 204)
  {
    hide SpanOf, TrieOnes21Then00, TrieOnes21Then01;
    TrieOnes21Then00Span(); TrieOnes21Then01Span();
    Joined(TrieOnes21Then00(), TrieOnes21Then01());
  }

  lemma TrieOnes22Then00Span()
    ensures SpanOf(TrieOnes22Then00()) == Span(3, 211, 3, 244)
  {}

  lemma TrieOnes22Then01Span()
    ensures SpanOf(TrieOnes22Then01()) == Span(3, 245, 3, 253)
  {}

  lemma TrieOnes23Then00Span()
    ensures SpanOf(TrieOnes23Then00()) == Span(2, 254, 3, 7)
  {}

  lemma TrieOnes23Then01Span()
    ensures SpanOf(TrieOnes23Then01()) == Span(3, 8, 3, 18)
  {}

  lemma TrieOnes23Then0Span()
    ensures SpanOf(TrieOnes23Then0()) == Span(3, 254, 4, 18)
  {
    hide SpanOf, TrieOnes23Then00, TrieOnes23Then01;
    TrieOnes23Then00Span(); TrieOnes23Then01Span();
    Joined(TrieOnes23Then00(), TrieOnes23Then01());
  }

  lemma TrieOnes24Then0Span()
    ensures SpanOf(TrieOnes24Then0()) == Span(3, 19, 3, 27)
  {}

  lemma TrieOnes25Span()
    ensures SpanOf(TrieOnes25()) == Span(3, 28, 5, 256)
  {}

  lemma TrieOnes24Span()
    ensures SpanOf(TrieOnes24()) == Span(4, 19, 6, 256)
  {
    hide SpanOf, TrieOnes24Then0, TrieOnes25;
    TrieOnes24Then0Span(); TrieOnes25Span();
    Joined(TrieOnes24Then0(), TrieOnes25());
  }

  lemma TrieOnes22Span()
    ensures SpanOf(TrieOnes22()) == Span(5, 211, 8, 256)
  {
    hide SpanOf, TrieOnes22Then00, TrieOnes22Then01, TrieOnes23Then0, TrieOnes24;
    TrieOnes22Then00Span(); TrieOnes22Then01Span(); TrieOnes23Then0Span(); TrieOnes24Span();
    Joined(TrieOnes22Then00(), TrieOnes22Then01());
    Joined(TrieOnes23Then0(), TrieOnes24());
    Joined(Node(TrieOnes22Then00(), TrieOnes22Then01()), Node(TrieOnes23Then0(), TrieOnes24()));
  }

  lemma TrieOnes20Span()
    ensures SpanOf(TrieOnes20()) == Span(4, 171, 10, 256)
  {
    hide SpanOf, TrieOnes20Then0, TrieOnes21Then0, TrieOnes22;
    TrieOnes20Then0Span(); TrieOnes21Then0Span(); TrieOnes22Span();
    Joined(TrieOnes21Then0(), TrieOnes22());
    Joined(TrieOnes20Then0(), Node(TrieOnes21Then0(), TrieOnes22()));
  }

  lemma TrieOnes18Span()
    ensures SpanOf(TrieOnes18()) == Span(5, 147, 12, 256)
  {
    hide SpanOf, TrieOnes18Then00, TrieOnes18Then01, TrieOnes19Then0, TrieOnes20;
    TrieOnes18Then00Span(); TrieOnes18Then01Span(); TrieOnes19Then0Span(); TrieOnes20Span();
    Joined(TrieOnes18Then00(), TrieOnes18Then01());
    Joined(TrieOnes19Then0(), TrieOnes20());
    Joined(Node(TrieOnes18Then00(), TrieOnes18Then01()), Node(TrieOnes19Then0(), TrieOnes20()));
  }

  lemma TrieOnes16Span()
    ensures SpanOf(TrieOnes16()) == Span(5, 176, 14, 256)
  {
    hide SpanOf, TrieOnes16Then00, TrieOnes16Then01, TrieOnes17Then0, TrieOnes18;
    TrieOnes16Then00Span(); TrieOnes16Then01Span(); TrieOnes17Then0Span(); TrieOnes18Span();
    Joined(TrieOnes16Then00(), TrieOnes16Then01());
    Joined(TrieOnes17Then0(), TrieOnes18());
    Joined(Node(TrieOnes16Then00(), TrieOnes16Then01()), Node(TrieOnes17Then0(), TrieOnes18()));
  }

  lemma TrieOnes14Span()
    ensures SpanOf(TrieOnes14()) == Span(1, 123, 16, 256)
  {
    hide SpanOf, TrieOnes14Then0, TrieOnes15Then0, TrieOnes16;
    TrieOnes14Then0Span(); TrieOnes15Then0Span(); TrieOnes16Span();
    Joined(TrieOnes15Then0(), TrieOnes16());
    Joined(TrieOnes14Then0(), Node(TrieOnes15Then0(), TrieOnes16()));
  }

  lemma TrieOnes12Span()
    ensures SpanOf(TrieOnes12()) == Span(2, 94, 18, 256)
  {
    hide SpanOf, TrieOnes12Then0, TrieOnes13Then0, TrieOnes14;
    TrieOnes12Then0Span(); TrieOnes13Then0Span(); TrieOnes14Span();
    Joined(TrieOnes13Then0(), TrieOnes14());
    Joined(TrieOnes12Then0(), Node(TrieOnes13Then0(), TrieOnes14()));
  }

  lemma TrieOnes10Span()
    ensures SpanOf(TrieOnes10()) == Span(3, 0, 20, 256)
  {
    hide SpanOf, TrieOnes10Then0, TrieOnes11Then0, TrieOnes12;
    TrieOnes10Then0Span(); TrieOnes11Then0Span(); TrieOnes12Span();
    Joined(TrieOnes11Then0(), TrieOnes12());
    Joined(TrieOnes10Then0(), Node(TrieOnes11Then0(), TrieOnes12()));
  }

  lemma TrieOnes8Span()
    ensures SpanOf(TrieOnes8()) == Span(2, 63, 22, 256)
  {
    hide SpanOf, TrieOnes8Then0, TrieOnes9Then0, TrieOnes10;
    TrieOnes8Then0Span(); TrieOnes9Then0Span(); TrieOnes10Span();
    Joined(TrieOnes9Then0(), TrieOnes10());
    Joined(TrieOnes8Then0(), Node(TrieOnes9Then0(), TrieOnes10()));
  }

  lemma TrieOnes6Span()
    ensures SpanOf(TrieOnes6()) == Span(2, 88, 24, 256)
  {
    hide SpanOf, TrieOnes6Then0, TrieOnes7Then0, TrieOnes8;
    TrieOnes6Then0Span(); TrieOnes7Then0Span(); TrieOnes8Span();
    Joined(TrieOnes7Then0(), TrieOnes8());
    Joined(TrieOnes6Then0(), Node(TrieOnes7Then0(), TrieOnes8()));
  }

  lemma TrieOnes4Span()
    ensures SpanOf(TrieOnes4()) == Span(3, 119, 26, 256)
  {
    hide SpanOf, TrieOnes4Then0, TrieOnes5Then0, TrieOnes6;
    TrieOnes4Then0Span(); TrieOnes5Then0Span(); TrieOnes6Span();
    Joined(TrieOnes5Then0(), TrieOnes6());
    Joined(TrieOnes4Then0(), Node(TrieOnes5Then0(), TrieOnes6()));
  }

  lemma TrieOnes2Span()
    ensures SpanOf(TrieOnes2()) == Span(5, 69, 28, 256)
  {
    hide SpanOf, TrieOnes2Then00, TrieOnes2Then01, TrieOnes3Then0, TrieOnes4;
    TrieOnes2Then00Span(); TrieOnes2Then01Span(); TrieOnes3Then0Span(); TrieOnes4Span();
    Joined(TrieOnes2Then00(), TrieOnes2Then01());
    Joined(TrieOnes3Then0(), TrieOnes4());
    Joined(Node(TrieOnes2Then00(), TrieOnes2Then01()), Node(TrieOnes3Then0(), TrieOnes4()));
  }

  lemma DecisionTreeSpan()
    ensures SpanOf(DecisionTree()) == Span(5, 48, 30, 256)
  {
    hide SpanOf, Trie00, Trie01, TrieOnes1Then0, TrieOnes2;
    Trie00Span(); Trie01Span(); TrieOnes1Then0Span(); TrieOnes2Span();
    Joined(Trie00(), Trie01());
    Joined(TrieOnes1Then0(), TrieOnes2());
    Joined(Node(Trie00(), Trie01()), Node(TrieOnes1Then0(), TrieOnes2()));
  }
}
