/**
 What `hpack_decode` makes of each representation of section 6 of RFC 7541, whoever wrote it: arbitrary
 indices, arbitrary strings with either Huffman flag, and all kinds of literals.
 */
module HpackWire {
  import opened BitStrings
  import H = HuffmanDecoder
  import opened HpackInteger
  import opened HpackString
  import opened HpackTable
  import opened HpackStatic
  import opened HpackEager
  import opened HpackCodec
  import opened HpackHistory

  // Integers

  /** Groups of seven bits, the lowest first. */
  function Number(w: seq<Octet>): nat {
    if w == [] then 0 else w[0] % 128 + 128 * Number(w[1..])
  }

  /** All octets but the last one announce another. */
  ghost predicate Continued(w: seq<Octet>) {
    w != [] && w[|w| - 1] < 128 && forall k :: 0 <= k < |w| - 1 ==> w[k] >= 128
  }

  /** However an integer of at most ten continuation octets is written, it is read as the number that its
      groups make up, modulo the word. */
  lemma {:induction false} ContinuationMeans(w: seq<Octet>, input: seq<Octet>, i: nat, k: nat)
    requires Continued(w) && k + |w| <= 10 && Holds(input, i, w)
    ensures ReadContinuation(input, i, k) == IntegerAt(Number(w) * Pow2(7 * k) % WORD, i + |w|)
    decreases |w|
  {
    hide Pow2;
    var rest := w[1..];
    assert w == [w[0]] + rest;
    HoldsParts(input, i, [w[0]], rest);
    assert input[i] == input[i..i + 1][0] == w[0];
    if |w| == 1 {
      assert rest == [] && Number(rest) == 0;
    } else {
      assert w[0] >= 128;
      assert Continued(rest) by {
        assert forall j :: 0 <= j < |rest| ==> rest[j] == w[j + 1];
      }
      ContinuationMeans(rest, input, i + 1, k + 1);
      NextWeight(k);
      NextGroup(w[0] % 128, Number(rest), Pow2(7 * k), Pow2(7 * (k + 1)));
    }
  }

  lemma {:induction false} NextGroup(low: nat, high: nat, p: nat, next: nat)
    requires next == 128 * p
    ensures (low * p % WORD + high * next % WORD) % WORD == (low + 128 * high) * p % WORD
  {
    assert (low + 128 * high) * p == low * p + high * (128 * p);
    SumMod(low * p, high * next);
  }

  lemma SumMod(x: nat, y: nat)
    ensures (x % WORD + y % WORD) % WORD == (x + y) % WORD
  {
    ModPlus(x, y % WORD);
    ModPlus(y, x);
  }

  /** The first octet alone, or a full prefix and continuation octets. */
  lemma {:induction false} IntegerMeans(prefix: Octet, n: nat, w: seq<Octet>, input: seq<Octet>, i: nat)
    requires Continued(w) && |w| <= 10 && Holds(input, i, w) && Pow2(n) <= 256
    ensures ReadInteger(prefix, n, input, i)
         == if prefix % Pow2(n) != Pow2(n) - 1 then IntegerAt(prefix, i)
            else IntegerAt((Number(w) + Pow2(n) - 1) % 0x1_0000_0000_0000_0000, i + |w|)
  {
    hide Pow2, ReadContinuation;
    if prefix % Pow2(n) == Pow2(n) - 1 {
      ContinuationMeans(w, input, i, 0);
      UnitWeight(Number(w));
      ModPlus(Number(w), Mask(n));
    }
  }

  /** The encoder's integers: the bits above the prefix, and the value by itself or its excess over the mask in
      groups. */
  lemma {:induction false} WrittenMeans(prefix: Octet, n: nat, v: nat)
    requires n <= 8
    ensures var w := IntegerOctets(prefix, n, v);
            && w[0] / Pow2(n) == prefix / Pow2(n)
            && (v < Pow2(n) - 1 ==> |w| == 1 && w[0] % Pow2(n) == v)
            && (v >= Pow2(n) - 1 ==>
                  w[0] % Pow2(n) == Pow2(n) - 1 && Continued(w[1..]) && Number(w[1..]) == v - (Pow2(n) - 1)
                  && (|w| > 2 ==> w[|w| - 1] > 0))
  {
    hide Pow2, HighBits;
    HighBitsFit(prefix, n, if v < Mask(n) then v else Mask(n));
    if v >= Mask(n) {
      GroupsMean(v - Mask(n));
      assert IntegerOctets(prefix, n, v)[1..] == Continuation(v - Mask(n));
    }
  }

  lemma {:induction false} GroupsMean(v: nat)
    ensures Continued(Continuation(v)) && Number(Continuation(v)) == v
    ensures v > 0 ==> Continuation(v)[|Continuation(v)| - 1] > 0
  {
    var w := Continuation(v);
    if v < 128 {
      assert w[1..] == [] && Number([]) == 0;
    } else {
      GroupsMean(v / 128);
      assert w[1..] == Continuation(v / 128);
    }
  }

  // Representations

  /** A string literal: any octets behind their number. */
  datatype WireString = WireString(huffman: bool, octets: seq<Octet>)

  function LiteralOctets(l: WireString): (w: seq<Octet>)
    ensures |w| > 0
  {
    IntegerOctets(if l.huffman then 128 else 0, 7, |l.octets|) + l.octets
  }

  /** What a C string function sees of it. */
  function TextOf(l: WireString): Text {
    CString(if l.huffman then H.DecodeFrom(l.octets, 0) else l.octets)
  }

  lemma {:induction false} LiteralIsRead(l: WireString, data: seq<Octet>, at: nat)
    requires |data| < WORD && Holds(data, at, LiteralOctets(l))
    ensures ReadString(data, at) == StringAt(TextOf(l), at + |LiteralOctets(l)|)
  {
    hide IntegerOctets, H.DecodeFrom, ReadInteger, CString, Pow2;
    var prefix: Octet, w := if l.huffman then 128 else 0, IntegerOctets(if l.huffman then 128 else 0, 7, |l.octets|);
    HoldsParts(data, at, w, l.octets);
    Pow2Values();
    IntegerRoundTrip(prefix, 7, |l.octets|, data, at);
    SmallMod(at + |w| + |l.octets|);
    assert data[at + |w|..at + |w| + |l.octets|] == l.octets;
  }

  /** Sections 6.2.1 to 6.2.3. */
  datatype Indexing = Incremental | Without | Never

  datatype Form =
    | IndexedField(index: nat)
    | LiteralField(indexing: Indexing, index: nat, name: WireString, value: WireString)
    | SizeUpdate(size: nat)

  /** The integer that opens a representation, with the bits above its prefix. */
  function Opening(f: Form): (o: (Octet, nat, nat))
    ensures o.1 <= 8
  {
    match f
    case IndexedField(index) => (0x80, 7, index)
    case LiteralField(indexing, index, _, _) =>
      (match indexing case Incremental => (0x40, 6, index) case Without => (0, 4, index) case Never => (0x10, 4, index))
    case SizeUpdate(size) => (0x20, 5, size)
  }

  function OpeningOctets(f: Form): seq<Octet> {
    IntegerOctets(Opening(f).0, Opening(f).1, Opening(f).2)
  }

  function Strings(f: Form): seq<Octet> {
    match f
    case LiteralField(_, index, name, value) =>
      (if index == 0 then LiteralOctets(name) else []) + LiteralOctets(value)
    case _ => []
  }

  function FormOctets(f: Form): seq<Octet> {
    OpeningOctets(f) + Strings(f)
  }

  /** Section 2.3.3: the static entries from 1 to 61, and then the dynamic ones from the newest on. */
  function Entries(view: seq<Field>, index: nat): Option<Field> {
    if 1 <= index <= 61 then
      Some(Field(StaticName(index), if StaticValue(index).Some? then StaticValue(index).value else []))
    else if 62 <= index < 62 + |view| then Some(view[|view| + 61 - index])
    else None
  }

  /** The name and the value of a representation, with the name as it is written. */
  ghost function FieldOf(c: Context, f: Form): Option<Field>
    requires Ready(c)
  {
    match f
    case IndexedField(index) => Entries(View(c), index)
    case LiteralField(_, index, name, value) =>
      if index == 0 then Some(Field(TextOf(name), TextOf(value)))
      else
        (match Entries(View(c), index)
         case Some(g) => Some(Field(g.name, TextOf(value)))
         case None => None)
    case SizeUpdate(_) => None
  }

  ghost predicate SameView(c: Context, d: Context)
    requires Ready(c)
  {
    Ready(d) && View(d) == View(c) && d.pushIndex == c.pushIndex && d.maxSize == c.maxSize
  }

  /** The newest of what was visible and one more field. */
  ghost predicate Stores(c: Context, d: Context, f: Field)
    requires Ready(c)
  {
    Ready(d) && IsNewest(View(d), View(c) + [f], c.maxSize) && d.pushIndex == c.pushIndex + 1 && d.maxSize == c.maxSize
  }

  /** What section 6 asks for, with names folded to lower case on the way out. */
  ghost predicate Means(c: Context, f: Form, s: Step, next: nat)
    requires Ready(c)
  {
    match f
    case SizeUpdate(size) =>
      if size > c.maxSize then s.Reject?
      else s.Update? && s.next == next && SameView(c, s.context) && s.context.currentMax == size
    case _ =>
      match FieldOf(c, f)
      case None => s.Reject?
      case Some(g) =>
        && s.Emit? && s.next == next && s.field == Field(Lower(g.name), g.value)
        && if f.LiteralField? && f.indexing.Incremental? then Stores(c, s.context, g) else SameView(c, s.context)
  }

  lemma {:induction false} AddedStores(c: Context, f: Field)
    requires Ready(c)
    ensures Stores(c, Added(c, f), f)
  {
    hide View, EagerAdd, Ready, IsNewest;
    ReadyIsConsistent(c);
    ViewIsNewest(c);
    AddLeavesNewest(View(c), View(c), c.maxSize, f);
  }

  lemma ReadyIsConsistent(c: Context)
    requires Ready(c)
    ensures Consistent(c)
  {
  }

  lemma LookedAt(c: Context, index: nat)
    requires Ready(c)
    ensures Looked(c, index).0 == Entries(View(c), index) && SameView(c, Looked(c, index).1)
  {
    hide Ready, View, StaticName, StaticValue;
  }

  /** The first octet announces the kind. */
  lemma {:induction false} OpeningRead(f: Form, data: seq<Octet>, i: nat)
    requires Opening(f).2 < WORD && Holds(data, i, OpeningOctets(f))
    ensures i < |data|
    ensures var (prefix, n, v) := Opening(f);
            && prefix <= data[i] < prefix + Pow2(n)
            && ReadInteger(LowBits(data[i], n), n, data, i + 1) == IntegerAt(v, i + |OpeningOctets(f)|)
  {
    hide IntegerOctets, Pow2, ReadInteger;
    var (prefix, n, v) := Opening(f);
    Pow2Values();
    IntegerRoundTrip(prefix, n, v, data, i);
  }

  /** Every representation, as far as its field is concerned and as far as the table is: only a literal
      with incremental indexing changes what can be seen. */
  lemma {:induction false} FormMeans(c: Context, f: Form, data: seq<Octet>, i: nat)
    requires Ready(c) && |data| < WORD && Opening(f).2 < WORD && Holds(data, i, FormOctets(f))
    ensures i < |data| && Means(c, f, DecodeStep(c, data, i), i + |FormOctets(f)|)
  {
    hide Ready, View, IsNewest, Pow2, LiteralOctets, OpeningOctets, ReadInteger, ReadString, Lower, Stores, SameView,
      Entries, LowBits, TextOf, Holds, Added, Looked, Updated;
    HoldsParts(data, i, OpeningOctets(f), Strings(f));
    OpeningRead(f, data, i);
    Pow2Values();
    var at := i + |OpeningOctets(f)|;
    match f
    case IndexedField(index) => IndexedMeans(c, index, at);
    case SizeUpdate(size) =>
      if size <= c.maxSize {
        UpdatedIsSame(c, size);
      }
    case LiteralField(indexing, index, name, value) =>
      if index == 0 {
        NewNameMeans(c, name, value, data, at, indexing.Incremental?);
      } else {
        assert [] + LiteralOctets(value) == LiteralOctets(value);
        KnownNameMeans(c, index, value, data, at, indexing.Incremental?);
      }
  }

  lemma UpdatedIsSame(c: Context, size: nat)
    requires Ready(c)
    ensures SameView(c, Updated(c, size)) && Updated(c, size).currentMax == size
  {
    hide Ready, View;
  }

  lemma IndexedMeans(c: Context, index: nat, next: nat)
    requires Ready(c)
    ensures Means(c, IndexedField(index), DecodeIndexed(c, index, next), next)
  {
    hide Ready, View, StaticName, StaticValue, Lower, SameView, Looked;
    LookedAt(c, index);
  }

  lemma {:induction false} NewNameMeans(c: Context, name: WireString, value: WireString, data: seq<Octet>, at: nat,
                                        indexing: bool)
    requires Ready(c) && |data| < WORD && Holds(data, at, LiteralOctets(name) + LiteralOctets(value))
    ensures var s, g := DecodeNewName(c, data, at, indexing), Field(TextOf(name), TextOf(value));
            && s.Emit? && s.next == at + |LiteralOctets(name) + LiteralOctets(value)|
            && s.field == Field(Lower(g.name), g.value)
            && if indexing then Stores(c, s.context, g) else SameView(c, s.context)
  {
    hide Ready, View, IsNewest, LiteralOctets, ReadString, Lower, Stores, TextOf, Holds, Added;
    HoldsParts(data, at, LiteralOctets(name), LiteralOctets(value));
    LiteralIsRead(name, data, at);
    LiteralIsRead(value, data, at + |LiteralOctets(name)|);
    AddedStores(c, Field(TextOf(name), TextOf(value)));
  }

  lemma {:induction false} KnownNameMeans(c: Context, index: nat, value: WireString, data: seq<Octet>, at: nat,
                                          indexing: bool)
    requires Ready(c) && |data| < WORD && Holds(data, at, LiteralOctets(value))
    ensures var s, entry := DecodeKnownName(c, data, at, index, indexing), Entries(View(c), index);
            if entry.None? then s.Reject?
            else
              var g := Field(entry.value.name, TextOf(value));
              && s.Emit? && s.next == at + |LiteralOctets(value)| && s.field == Field(Lower(g.name), g.value)
              && if indexing then Stores(c, s.context, g) else SameView(c, s.context)
  {
    hide Ready, View, IsNewest, LiteralOctets, ReadString, Lower, TextOf, Holds, Entries, Looked, Added, Stores;
    LiteralIsRead(value, data, at);
    LookedAt(c, index);
    var (entry, d) := Looked(c, index);
    if entry.Some? {
      var g := Field(entry.value.name, TextOf(value));
      AddedStores(d, g);
      StoresInSame(c, d, Added(d, g), g);
    }
  }

  lemma StoresInSame(c: Context, d: Context, r: Context, g: Field)
    requires Ready(c) && SameView(c, d) && Stores(d, r, g)
    ensures Stores(c, r, g)
  {
    hide Ready, View, IsNewest;
  }

  /** The same of any octets, well formed or not: what the first octet allows to happen. */
  lemma {:induction false} FirstOctetDecides(c: Context, data: seq<Octet>, i: nat)
    requires Ready(c) && i < |data|
    ensures match DecodeStep(c, data, i)
            case Emit(f, d, _) =>
              if 64 <= data[i] < 128
              then exists name :: Lower(name) == f.name && Stores(c, d, Field(name, f.value))
              else (data[i] < 32 || data[i] >= 128) && SameView(c, d)
            case Update(d, _) => 32 <= data[i] < 64 && SameView(c, d) && d.currentMax <= c.maxSize
            case _ => true
  {
    hide Ready, View, IsNewest, Pow2, ReadInteger, ReadString, Lower, Stores, Added, Looked, LowBits, Updated, SameView;
    var octet := data[i];
    var n := if octet >= 128 then 7 else if octet >= 64 then 6 else if octet >= 32 then 5 else 4;
    var read := ReadInteger(LowBits(octet, n), n, data, i + 1);
    SameSelf(c);
    if read.IntegerAt? {
      LookedAt(c, read.value);
      UpdatedIsSame(c, read.value);
      if octet < 32 || 64 <= octet < 128 {
        LiteralDecides(c, data, read.value, read.next, octet >= 64);
      }
    }
  }

  lemma SameSelf(c: Context)
    requires Ready(c)
    ensures SameView(c, c)
  {
    hide Ready, View;
  }

  lemma {:induction false} LiteralDecides(c: Context, data: seq<Octet>, index: nat, at: nat, indexing: bool)
    requires Ready(c)
    ensures var s := if index == 0 then DecodeNewName(c, data, at, indexing)
                     else DecodeKnownName(c, data, at, index, indexing);
            && !s.Update?
            && (s.Emit? ==>
                  if indexing
                  then exists name :: Lower(name) == s.field.name && Stores(c, s.context, Field(name, s.field.value))
                  else SameView(c, s.context))
  {
    hide Ready, View, IsNewest, ReadString, Lower, Added, Looked, Stores, SameView;
    SameSelf(c);
    if index == 0 {
      var name := ReadString(data, at);
      if name.StringAt? {
        var value := ReadString(data, name.next);
        if value.StringAt? {
          AddedStores(c, Field(name.text, value.text));
        }
      }
    } else {
      LookedAt(c, index);
      var (entry, d) := Looked(c, index);
      var value := ReadString(data, at);
      if entry.Some? && value.StringAt? {
        var g := Field(entry.value.name, value.text);
        SameIsReady(c, d);
        AddedStores(d, g);
        StoresInSame(c, d, Added(d, g), g);
      }
    }
  }

  lemma SameIsReady(c: Context, d: Context)
    requires Ready(c) && SameView(c, d)
    ensures Ready(d)
  {
  }

  // A request of static entries

  /** GET of the root over https, as every client of this protocol sends it. */
  lemma {:induction false} StaticRequest(c: Context, data: seq<Octet>)
    requires Ready(c) && data == [0x82, 0x87, 0x84]
    ensures var o := DecodeFromOctet(c, data, 0, []);
            o.Done? && o.fields == [Field(Ascii(":method"), Ascii("GET")), Field(Ascii(":scheme"), Ascii("https")),
                                    Field(Ascii(":path"), Ascii("/"))]
  {
    hide Ready, View, IsNewest, DecodeFromOctet, Ascii, Lower, SameView, StaticName, StaticValue;
    var method', scheme, path := Field(Ascii(":method"), Ascii("GET")), Field(Ascii(":scheme"), Ascii("https")),
        Field(Ascii(":path"), Ascii("/"));
    RequestNames();
    var d := StaticStep(c, data, 0, [], 2, method');
    var e := StaticStep(d, data, 1, [method'], 7, scheme);
    var f := StaticStep(e, data, 2, [method', scheme], 4, path);
    NoStep(f, data, [method', scheme, path]);
    assert [] + [method'] == [method'] && [method'] + [scheme] == [method', scheme];
    assert [method', scheme] + [path] == [method', scheme, path];
  }

  lemma RequestNames()
    ensures StaticName(2) == Ascii(":method") && StaticValue(2) == Some(Ascii("GET"))
    ensures StaticName(7) == Ascii(":scheme") && StaticValue(7) == Some(Ascii("https"))
    ensures StaticName(4) == Ascii(":path") && StaticValue(4) == Some(Ascii("/"))
    ensures Lower(Ascii(":method")) == Ascii(":method") && Lower(Ascii(":scheme")) == Ascii(":scheme")
    ensures Lower(Ascii(":path")) == Ascii(":path")
  {
    hide Ascii, Lower;
    AlreadyLower(":method");
    AlreadyLower(":scheme");
    AlreadyLower(":path");
  }

  lemma AlreadyLower(s: string)
    requires forall k :: 0 <= k < |s| ==> s[k] as int < 65 || 90 < s[k] as int < 256
    ensures Lower(Ascii(s)) == Ascii(s)
  {
    var t := Ascii(s);
    assert forall k :: 0 <= k < |t| ==> LowerOctet(t[k]) == t[k];
  }

  /** One octet for a static entry. */
  lemma {:induction false} StaticStep(c: Context, data: seq<Octet>, i: nat, fields: seq<Field>, index: nat, f: Field)
    returns (d: Context)
    requires Ready(c) && i < |data| < WORD && 1 <= index <= 61 && data[i] == 128 + index
    requires f == Field(StaticName(index), if StaticValue(index).Some? then StaticValue(index).value else [])
    requires Lower(f.name) == f.name
    ensures Ready(d) && DecodeFromOctet(c, data, i, fields) == DecodeFromOctet(d, data, i + 1, fields + [f])
  {
    hide Ready, View, IsNewest, DecodeFromOctet, DecodeStep, Lower, StaticName, StaticValue, Pow2, SameView;
    Pow2Values();
    OneOctet(128, 7, index);
    assert FormOctets(IndexedField(index)) == [data[i]] == data[i..i + 1];
    FormMeans(c, IndexedField(index), data, i);
    OneStep(c, data, i, fields);
    d := DecodeStep(c, data, i).context;
  }

  // One block in two kinds

  function NameAndValue(indexing: Indexing): Form {
    LiteralField(indexing, 0, WireString(false, [97]), WireString(false, [98]))
  }

  lemma {:induction false} OneOctet(prefix: Octet, n: nat, v: nat)
    requires n <= 8 && v < Pow2(n) - 1 && prefix % Pow2(n) == 0
    ensures prefix + v < 256 && IntegerOctets(prefix, n, v) == [prefix + v]
  {
    hide Pow2;
    HighBitsFit(prefix, n, v);
    DivMod(prefix, Pow2(n));
  }

  lemma {:induction false} ShortString(o: Octet)
    requires o > 0
    ensures LiteralOctets(WireString(false, [o])) == [1, o] && TextOf(WireString(false, [o])) == [o]
  {
    hide IntegerOctets, Pow2;
    Pow2Values();
    OneOctet(0, 7, 1);
    assert CString([o]) == [o] by { CStringOfText([o]); }
    assert [1] + [o] == [1, o];
  }

  lemma {:induction false} LiteralThenIndexed(indexing: Indexing, data: seq<Octet>)
    requires data == [Opening(NameAndValue(indexing)).0, 1, 97, 1, 98, 190]
    ensures FormOctets(NameAndValue(indexing)) == data[0..5] && FormOctets(IndexedField(62)) == data[5..6]
    ensures TextOf(WireString(false, [97])) == [97] && TextOf(WireString(false, [98])) == [98]
  {
    hide IntegerOctets, Pow2, LiteralOctets, TextOf;
    Pow2Values();
    var (prefix, n, v) := Opening(NameAndValue(indexing));
    OneOctet(prefix, n, v);
    OneOctet(128, 7, 62);
    ShortString(97);
    ShortString(98);
    assert [prefix] + ([1, 97] + [1, 98]) == data[0..5] && [190] + [] == data[5..6];
  }

  /** A literal without indexing leaves nothing that the next octet could refer to; with incremental indexing
      the same two references deliver the field twice. */
  lemma {:induction false} OnlyIncrementalIsStored(max: nat, indexing: Indexing, data: seq<Octet>)
    requires max >= 34 && data == [Opening(NameAndValue(indexing)).0, 1, 97, 1, 98, 190]
    ensures var o, f := DecodeFromOctet(EmptyContext(max), data, 0, []), Field([97], [98]);
            if indexing.Incremental? then o.Done? && o.fields == [f, f] else o == Rejected
  {
    hide Ready, View, IsNewest, FormOctets, DecodeStep, TextOf, EmptyContext, SameView, Stores, DecodeFromOctet, Lower,
      StaticName, StaticValue;
    var c, f := EmptyContext(max), Field([97], [98]);
    EmptySees(max);
    LiteralThenIndexed(indexing, data);
    OpeningsFit(indexing);
    FormMeans(c, NameAndValue(indexing), data, 0);
    LowerOne();
    var d := DecodeStep(c, data, 0).context;
    NextView(c, d, f, indexing.Incremental?);
    ReadyIsConsistent(d);
    FormMeans(d, IndexedField(62), data, 5);
    OneStep(c, data, 0, []);
    OneStep(d, data, 5, [f]);
    assert [] + [f] == [f] && [f] + [f] == [f, f];
    if indexing.Incremental? {
      assert Entries(View(d), 62) == Some(f);
      SameIsReady(d, DecodeStep(d, data, 5).context);
      NoStep(DecodeStep(d, data, 5).context, data, [f, f]);
    } else {
      assert Entries(View(d), 62) == None;
    }
  }

  lemma {:induction false} OneStep(c: Context, data: seq<Octet>, i: nat, fields: seq<Field>)
    requires Ready(c) && i < |data|
    ensures match DecodeStep(c, data, i)
            case Emit(f, d, next) =>
              Ready(d) && DecodeFromOctet(c, data, i, fields) == DecodeFromOctet(d, data, next, fields + [f])
            case Reject => DecodeFromOctet(c, data, i, fields) == Rejected
            case _ => true
  {
    hide Ready, DecodeStep;
    StepAdvances(c, data, i);
  }

  lemma NoStep(c: Context, data: seq<Octet>, fields: seq<Field>)
    requires Ready(c)
    ensures DecodeFromOctet(c, data, |data|, fields) == Done(fields, c)
  {
    hide Ready, DecodeStep;
  }

  lemma OpeningsFit(indexing: Indexing)
    ensures Opening(NameAndValue(indexing)).2 < WORD && Opening(IndexedField(62)).2 < WORD
  {
  }

  lemma LowerOne()
    ensures Lower([97]) == [97]
  {
  }

  lemma EmptySees(max: nat)
    ensures Ready(EmptyContext(max)) && View(EmptyContext(max)) == [] && EmptyContext(max).maxSize == max
  {
  }

  lemma {:induction false} NextView(c: Context, d: Context, f: Field, stored: bool)
    requires Ready(c) && View(c) == [] && |f.name| + |f.value| + 32 <= c.maxSize
    requires if stored then Stores(c, d, f) else SameView(c, d)
    ensures Ready(d) && View(d) == if stored then [f] else []
  {
    hide Ready, View;
    if stored {
      assert [] + [f] == [f];
      StoresParts(c, d, f);
      OneIsKept(View(d), f, c.maxSize);
    }
  }

  lemma {:induction false} OneIsKept(held: seq<Field>, f: Field, max: nat)
    requires IsNewest(held, [f], max) && |f.name| + |f.value| + 32 <= max
    ensures held == [f]
  {
    assert [f][1..] == [] && [f][0..] == [f];
    assert Names([f]) == f.name + [] && Values([f]) == f.value + [];
    assert Weight([f][0..]) <= max;
  }

  lemma StoresParts(c: Context, d: Context, f: Field)
    requires Ready(c) && Stores(c, d, f)
    ensures Consistent(d) && IsNewest(View(d), View(c) + [f], c.maxSize)
  {
    hide View, IsNewest;
  }
}
