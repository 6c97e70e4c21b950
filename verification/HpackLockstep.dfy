/** Encoder and decoder stay in lockstep over any run of header blocks, and exactly when. */
module HpackLockstep {
  import opened BitStrings
  import opened HuffmanCode
  import opened HuffmanEncoder
  import opened HuffmanDecoder
  import opened HpackInteger
  import opened HpackString
  import opened HpackTable
  import opened HpackStatic
  import opened HpackEager
  import opened HpackCodec

  /** What the two ends of a connection agree on: the maximum, the number of insertions, and every
      field that a lookup can see. */
  ghost predicate Synced(e: Context, d: Context) {
    && Consistent(e) && Named(e) && Ready(d)
    && e.maxSize == d.maxSize && e.pushIndex == d.pushIndex && View(e) == View(d)
  }

  // What the encoder's index means

  /** The index, if any, is still answered by the table: `hpack_lookup` does not return NULL for it. */
  ghost predicate ReferenceLive(c: Context, f: Field)
    requires Consistent(c) && Named(c)
  {
    var index := Represent(c, f).index;
    index >= 62 ==> index - 62 < |View(c)|
  }

  /** Every string of the representation survives Huffman coding. */
  ghost predicate TextReadable(c: Context, f: Field)
    requires Named(c)
  {
    match Represent(c, f)
    case Indexed(_) => true
    case Literal(index, _) => (index == 0 ==> Readable(f.name)) && Readable(f.value)
  }

  ghost predicate FieldOk(c: Context, f: Field)
    requires Consistent(c) && Named(c)
  {
    ReferenceLive(c, f) && TextReadable(c, f)
  }

  /** A listed entry is found at its index as long as it is in the table; afterwards nothing is. */
  lemma {:induction false} ListedEntryAt(c: Context, e: Entry)
    requires Consistent(c) && Dated(c, e)
    ensures var position := IndexOf(c, e) - 62;
            position < |View(c)| ==> View(c)[|View(c)| - 1 - position] == e.field
    ensures EagerLookup(View(c), IndexOf(c, e)) == if e in Fix(c, 0).table then Some(e.field) else None
  {
    hide View, Fix, Consistent, StaticName, StaticValue, FieldSize;
    FixLeavesNewest(c, 0);
    ViewIsFields(c);
    EntryInTable(Fix(c, 0), e);
    TailOfTable(c, Fix(c, 0), e);
  }

  /** An entry of the table is in what eviction leaves exactly when its place is. */
  lemma {:induction false} TailOfTable(c: Context, d: Context, e: Entry)
    requires Dated(c, e) && |d.table| <= |c.table| && d.table == c.table[|c.table| - |d.table|..]
    ensures c.pushIndex - |d.table| <= e.pushIndex ==>
              var k := e.pushIndex - (c.pushIndex - |d.table|); k < |d.table| && d.table[k] == e
  {
    hide FieldSize;
    var k := e.pushIndex - (c.pushIndex - |c.table|);
    if c.pushIndex - |d.table| <= e.pushIndex {
      assert d.table[k - (|c.table| - |d.table|)] == c.table[k];
    }
  }

  /** Its push index tells where an entry is in the table, or that it is not. */
  lemma {:induction false} EntryInTable(d: Context, e: Entry)
    requires Consistent(d)
    ensures e in d.table ==> d.pushIndex - |d.table| <= e.pushIndex < d.pushIndex
  {
    if e in d.table {
      var k :| 0 <= k < |d.table| && d.table[k] == e;
      assert e.pushIndex == d.pushIndex - |d.table| + k;
    }
  }

  lemma ViewIsFields(c: Context)
    requires Consistent(c)
    ensures View(c) == Fields(Fix(c, 0).table)
  {
  }

  /** The chosen index names the field's name, and the whole field when no literal follows. */
  lemma {:induction false} RepresentMeans(c: Context, f: Field)
    requires Consistent(c) && Named(c)
    ensures var r := Represent(c, f);
            && r.index <= c.pushIndex + 61
            && (r.index == 0 ==> r.Literal?)
            && (r.index > 0 ==>
                  match EagerLookup(View(c), r.index)
                  case Some(g) => g.name == f.name && (r.Indexed? ==> g == f)
                  case None => !ReferenceLive(c, f))
            && (ReferenceLive(c, f) && r.index > 0 ==> EagerLookup(View(c), r.index).Some?)
  {
    hide View, Consistent, StaticName, StaticValue, NeverIndexed, FindStatic, Named;
    var entries := Listed(c, f.name);
    var found := FindValue(entries, f.value);
    if found.Some? {
      ListedEntryAt(c, found.value);
    }
    if entries != [] {
      assert entries[0] in entries;
      ListedEntryAt(c, entries[0]);
    }
  }

  // The decoder on each kind of representation

  lemma {:induction false} FirstOctet(prefix: Octet, n: nat, v: nat, data: seq<Octet>, i: nat)
    requires 4 <= n <= 7 && v < WORD && Holds(data, i, IntegerOctets(prefix, n, v)) && prefix == Pow2(n)
    ensures i < |data| && Pow2(n) <= data[i] < 2 * Pow2(n)
    ensures ReadInteger(data[i] % Pow2(n), n, data, i + 1) == IntegerAt(v, i + |IntegerOctets(prefix, n, v)|)
  {
    hide IntegerOctets, Pow2, ReadInteger;
    IntegerRoundTrip(prefix, n, v, data, i);
    DivModUnique(prefix, 1, Pow2(n), 0);
    DivMod(data[i], Pow2(n));
  }

  lemma {:induction false} IndexedStep(d: Context, data: seq<Octet>, i: nat, index: nat)
    requires Ready(d) && index < WORD && Holds(data, i, IntegerOctets(128, 7, index))
    ensures i < |data|
    ensures DecodeStep(d, data, i)
         == if index == 0 then Reject
            else match Looked(d, index).0
                 case None => Reject
                 case Some(g) =>
                   Emit(Field(Lower(g.name), g.value), Looked(d, index).1, i + |IntegerOctets(128, 7, index)|)
  {
    hide IntegerOctets, Pow2, ReadInteger, Ready, Lower, Looked;
    Pow2Values();
    FirstOctet(128, 7, index, data, i);
  }

  lemma {:induction false} LiteralStep(d: Context, data: seq<Octet>, i: nat, index: nat, indexing: bool)
    requires Ready(d) && index < WORD
    requires Holds(data, i, PieceOctets(if indexing then IntegerPiece(64, 6, index) else IntegerPiece(16, 4, index)))
    ensures i < |data|
    ensures var next := i + |PieceOctets(if indexing then IntegerPiece(64, 6, index) else IntegerPiece(16, 4, index))|;
            DecodeStep(d, data, i) == if index == 0 then DecodeNewName(d, data, next, indexing)
                                      else DecodeKnownName(d, data, next, index, indexing)
  {
    hide IntegerOctets, Pow2, ReadInteger, Ready, DecodeNewName, DecodeKnownName;
    Pow2Values();
    if indexing {
      FirstOctet(64, 6, index, data, i);
    } else {
      FirstOctet(16, 4, index, data, i);
    }
  }

  lemma {:induction false} UpdateStep(d: Context, data: seq<Octet>, i: nat, size: nat)
    requires Ready(d) && size < WORD && size <= d.maxSize && Holds(data, i, IntegerOctets(32, 5, size))
    ensures i < |data|
    ensures DecodeStep(d, data, i) == Update(Updated(d, size), i + |IntegerOctets(32, 5, size)|)
  {
    hide IntegerOctets, Pow2, ReadInteger, Ready, Updated;
    Pow2Values();
    FirstOctet(32, 5, size, data, i);
  }

  /** A literal string at its place in the block: read to its end, and intact exactly when readable. */
  lemma {:induction false} LiteralText(t: seq<Octet>, data: seq<Octet>, at: nat)
    requires 0 !in t && |data| < WORD && Holds(data, at, PieceOctets(StringPiece(t)))
    ensures var r := ReadString(data, at);
            && r.StringAt? && r.next == at + |PieceOctets(StringPiece(t))|
            && (r.text == t <==> Readable(t))
            && (!Readable(t) ==> Lower(r.text) != t)
  {
    hide ReadString, Readable, StringOctets, HuffmanOctets, DecodeFrom;
    StringRoundTrip(t, true, data, at);
    if !Readable(t) {
      LowerStaysWrong(t);
    }
  }

  /** Folding case cannot hide a wrong symbol: those that can go wrong are not letters. */
  lemma {:induction false} LowerStaysWrong(t: seq<Octet>)
    requires !Readable(t) && 0 !in t
    ensures Lower(CString(DecodeFrom(HuffmanOctets(t), 0))) != t
  {
    hide Readable, HuffmanOctets, DecodeFrom, CString, Lower, BitWidth;
    var i := UnreadableDiverges(t);
    var r := CString(DecodeFrom(HuffmanOctets(t), 0));
    if Lower(r) == t {
      LowerAt(r, i);
      LettersAreNarrow(t[i]);
      assert false;
    }
  }

  lemma {:induction false} LowerAt(r: seq<Octet>, i: nat)
    requires i < |Lower(r)|
    ensures i < |r| && Lower(r)[i] == LowerOctet(r[i])
  {
  }

  lemma {:induction false} LettersAreNarrow(o: Octet)
    ensures 97 <= o <= 122 ==> BitWidth(o) <= 25
  {
    if 97 <= o <= 122 {
      PrintableIsNarrow(o);
    }
  }

  // One field

  /** The decoder emits the field, ends where the field's octets end, and stays synchronised. */
  ghost predicate StepDelivers(e': Context, f: Field, s: Step, next: nat) {
    s.Emit? && s.field == f && s.next == next && Synced(e', s.context)
  }

  /** The decoder reports an error or emits some other field. */
  ghost predicate StepDiffers(f: Field, s: Step) {
    s.Reject? || (s.Emit? && s.field != f)
  }

  lemma {:induction false} SyncedAfterAdd(e: Context, d: Context, f: Field, copies: nat)
    requires Synced(e, d) && copies > 0
    ensures Synced(AddEncoded(e, f, copies), Added(d, f))
  {
    hide View, EagerAdd, FieldSize, IndexExact, Settled;
    AddEncodedKeeps(e, f, copies);
    FixKeepsLists(e, FieldSize(f));
    AddRefinesEager(e, f, if f.name in e.lookup then Some(e.lookup[f.name]) else None, copies);
  }

  lemma {:induction false} IndexedLockstep(e: Context, d: Context, f: Field, data: seq<Octet>, i: nat)
    requires Synced(e, d) && HeaderField(f) && Represent(e, f).Indexed? && Represent(e, f).index < WORD
    requires Holds(data, i, IntegerOctets(128, 7, Represent(e, f).index))
    ensures i < |data|
    ensures var s := DecodeStep(d, data, i);
            if ReferenceLive(e, f) then StepDelivers(e, f, s, i + |IntegerOctets(128, 7, Represent(e, f).index)|)
            else s.Reject?
  {
    hide IntegerOctets, Represent, DecodeStep, ReferenceLive, View, EagerLookup, Ready;
    RepresentMeans(e, f);
    DeadIsUnknown(e, f);
    IndexedStep(d, data, i, Represent(e, f).index);
  }

  /** A reference that is not live has no answer. */
  lemma {:induction false} DeadIsUnknown(c: Context, f: Field)
    requires Consistent(c) && Named(c)
    ensures !ReferenceLive(c, f) ==> EagerLookup(View(c), Represent(c, f).index).None?
  {
    hide View, Represent;
  }

  lemma {:induction false} KnownNameLockstep(e: Context, d: Context, f: Field, data: seq<Octet>, at: nat, copies: nat)
    requires Synced(e, d) && HeaderField(f) && Represent(e, f).Literal? && Represent(e, f).index > 0 && copies > 0
    requires |data| < WORD && Holds(data, at, PieceOctets(StringPiece(f.value)))
    ensures var s := DecodeKnownName(d, data, at, Represent(e, f).index, Represent(e, f).indexing);
            if FieldOk(e, f) then StepDelivers(Encoded(e, f, copies), f, s, at + |PieceOctets(StringPiece(f.value))|)
            else StepDiffers(f, s)
  {
    hide Represent, ReferenceLive, View, EagerLookup, Ready, PieceOctets, ReadString, Readable, EagerAdd;
    RepresentMeans(e, f);
    DeadIsUnknown(e, f);
    LiteralText(f.value, data, at);
    var index := Represent(e, f).index;
    var g := Looked(d, index);
    if g.0.Some? && Readable(f.value) {
      SyncedAfterAdd(e, g.1, f, copies);
      assert Field(g.0.value.name, f.value) == f;
    }
  }

  lemma NewNameOk(c: Context, f: Field)
    requires Consistent(c) && Named(c) && Represent(c, f).Literal? && Represent(c, f).index == 0
    ensures FieldOk(c, f) <==> Readable(f.name) && Readable(f.value)
  {
    hide Represent, View, Readable;
  }

  lemma {:induction false} NewNameLockstep(e: Context, d: Context, f: Field, data: seq<Octet>, at: nat, copies: nat)
    requires Synced(e, d) && HeaderField(f) && Represent(e, f).Literal? && Represent(e, f).index == 0 && copies > 0
    requires |data| < WORD && Holds(data, at, PieceOctets(StringPiece(f.name)) + PieceOctets(StringPiece(f.value)))
    ensures var s := DecodeNewName(d, data, at, Represent(e, f).indexing);
            if FieldOk(e, f)
            then StepDelivers(Encoded(e, f, copies), f, s,
                              at + |PieceOctets(StringPiece(f.name))| + |PieceOctets(StringPiece(f.value))|)
            else StepDiffers(f, s)
  {
    hide Represent, View, Ready, PieceOctets, ReadString, Readable, EagerAdd, AddEncoded, Consistent, Named, Holds,
      FieldOk, Lower;
    NewNameOk(e, f);
    HoldsParts(data, at, PieceOctets(StringPiece(f.name)), PieceOctets(StringPiece(f.value)));
    LiteralText(f.name, data, at);
    LiteralText(f.value, data, at + |PieceOctets(StringPiece(f.name))|);
    if Readable(f.name) && Readable(f.value) {
      SyncedAfterAdd(e, d, f, copies);
      assert Field(f.name, f.value) == f;
    }
  }

  ghost function FieldOctets(e: Context, f: Field): seq<Octet>
    requires Named(e)
  {
    Octets(FieldPieces(Represent(e, f), f))
  }

  lemma {:induction false} FieldOctetsParts(r: Representation, f: Field)
    ensures Octets(FieldPieces(r, f))
         == match r
            case Indexed(index) => IntegerOctets(128, 7, index)
            case Literal(index, indexing) =>
              PieceOctets(if indexing then IntegerPiece(64, 6, index) else IntegerPiece(16, 4, index))
              + ((if index == 0 then PieceOctets(StringPiece(f.name)) else []) + PieceOctets(StringPiece(f.value)))
  {
    hide IntegerOctets, StringOctets;
    match r
    case Indexed(index) =>
      OctetsOfOne(IntegerPiece(128, 7, index));
    case Literal(index, indexing) =>
      var first := if indexing then IntegerPiece(64, 6, index) else IntegerPiece(16, 4, index);
      var name := if index == 0 then [StringPiece(f.name)] else [];
      assert FieldPieces(r, f) == [first] + (name + [StringPiece(f.value)]);
      OctetsConcat([first], name + [StringPiece(f.value)]);
      OctetsConcat(name, [StringPiece(f.value)]);
      OctetsOfOne(first);
      OctetsOfOne(StringPiece(f.value));
      OctetsOfOne(StringPiece(f.name));
  }

  lemma OctetsOfOne(p: Piece)
    ensures Octets([p]) == PieceOctets(p)
  {
    assert PieceOctets(p) + Octets([p][1..]) == PieceOctets(p);
  }

  /** Decoding one encoded field delivers it and keeps both ends synchronised exactly when its reference
      is live and its strings are readable; otherwise the decoder errs or emits another field. */
  lemma {:induction false} FieldLockstep(e: Context, d: Context, f: Field, data: seq<Octet>, i: nat, copies: nat)
    requires Synced(e, d) && HeaderField(f) && copies > 0
    requires |data| < WORD && e.pushIndex + 61 < WORD && Holds(data, i, FieldOctets(e, f))
    ensures i < |data|
    ensures var s := DecodeStep(d, data, i);
            if FieldOk(e, f) then StepDelivers(Encoded(e, f, copies), f, s, i + |FieldOctets(e, f)|)
            else StepDiffers(f, s)
  {
    hide Represent, FieldPieces, DecodeStep, DecodeKnownName, DecodeNewName, View, Ready, PieceOctets, Readable,
      IntegerOctets, HeaderField, ReferenceLive, Consistent, Named;
    RepresentMeans(e, f);
    var r := Represent(e, f);
    FieldOctetsParts(r, f);
    match r
    case Indexed(index) =>
      IndexedLockstep(e, d, f, data, i);
    case Literal(index, indexing) =>
      var first := PieceOctets(if indexing then IntegerPiece(64, 6, index) else IntegerPiece(16, 4, index));
      var rest := (if index == 0 then PieceOctets(StringPiece(f.name)) else []) + PieceOctets(StringPiece(f.value));
      HoldsParts(data, i, first, rest);
      LiteralStep(d, data, i, index, indexing);
      if index == 0 {
        NewNameLockstep(e, d, f, data, i + |first|, copies);
      } else {
        assert rest == PieceOctets(StringPiece(f.value));
        KnownNameLockstep(e, d, f, data, i + |first|, copies);
      }
  }

  // One block

  ghost predicate HeaderFields(fields: seq<Field>) {
    forall f :: f in fields ==> HeaderField(f)
  }

  ghost predicate FieldsOk(e: Context, fields: seq<Field>, copies: nat)
    requires Consistent(e) && Named(e) && copies > 0
    decreases |fields|
  {
    fields == [] ||
    (EncodedReady(e, fields[0], copies);
     FieldOk(e, fields[0]) && FieldsOk(Encoded(e, fields[0], copies), fields[1..], copies))
  }

  ghost predicate Delivers(o: Outcome, fields: seq<Field>) {
    o.Done? && o.fields == fields
  }

  lemma {:induction false} FieldsUnfold(e: Context, fields: seq<Field>, copies: nat)
    requires Consistent(e) && Named(e) && copies > 0 && fields != []
    ensures var f, e' := fields[0], Encoded(e, fields[0], copies);
            && Consistent(e') && Named(e') && e'.maxSize == e.maxSize && e'.pushIndex <= e.pushIndex + 1
            && Octets(FieldsPieces(e, fields, copies)) == FieldOctets(e, f)
                + Octets(FieldsPieces(e', fields[1..], copies))
            && (FieldsOk(e, fields, copies) <==> FieldOk(e, f) && FieldsOk(e', fields[1..], copies))
            && AllEncoded(e, fields, copies) == AllEncoded(e', fields[1..], copies)
  {
    hide Consistent, Named, Represent, FieldPieces, FieldOk, Octets, Encoded;
    var f, e' := fields[0], Encoded(e, fields[0], copies);
    EncodedReady(e, f, copies);
    OctetsConcat(FieldPieces(Represent(e, f), f), FieldsPieces(e', fields[1..], copies));
  }

  lemma {:induction false} FieldsLockstep(e: Context, d: Context, fields: seq<Field>, data: seq<Octet>, i: nat,
                                          before: seq<Field>, copies: nat)
    requires Synced(e, d) && HeaderFields(fields) && copies > 0
    requires |data| < WORD && e.pushIndex + |fields| + 61 < WORD
    requires Holds(data, i, Octets(FieldsPieces(e, fields, copies)))
    requires i + |Octets(FieldsPieces(e, fields, copies))| == |data|
    ensures var o := DecodeFromOctet(d, data, i, before);
            && (Delivers(o, before + fields) <==> FieldsOk(e, fields, copies))
            && (FieldsOk(e, fields, copies) ==> Synced(AllEncoded(e, fields, copies), o.context))
    decreases |fields|
  {
    hide Consistent, Named, Ready, View, Represent, FieldOk, Encoded, DecodeStep, FieldsPieces, FieldsOk, AllEncoded,
      FieldOctets, Octets, HeaderField;
    if fields == [] {
      NoFields(e, copies);
      assert before + [] == before;
    } else {
      var f, rest, e' := fields[0], fields[1..], Encoded(e, fields[0], copies);
      FieldsUnfold(e, fields, copies);
      var w := FieldOctets(e, f);
      HoldsParts(data, i, w, Octets(FieldsPieces(e', rest, copies)));
      FieldLockstep(e, d, f, data, i, copies);
      StepAdvances(d, data, i);
      var s := DecodeStep(d, data, i);
      if FieldOk(e, f) {
        FieldsLockstep(e', s.context, rest, data, i + |w|, before + [f], copies);
        assert before + [f] + rest == before + fields;
      } else if s.Emit? {
        DecodingAppends(s.context, data, s.next, before + [s.field]);
        assert (before + [s.field])[|before|] != (before + fields)[|before|];
      }
    }
  }

  lemma NoFields(e: Context, copies: nat)
    requires Consistent(e) && Named(e) && copies > 0
    ensures FieldsOk(e, [], copies) && Octets(FieldsPieces(e, [], copies)) == [] && AllEncoded(e, [], copies) == e
  {
  }

  ghost function BlockOctets(e: Context, fields: seq<Field>, copies: nat): seq<Octet>
    requires Consistent(e) && Named(e) && copies > 0
  {
    Octets(BlockPieces(e, fields, copies))
  }

  lemma {:induction false} StartedSynced(e: Context, d: Context)
    requires Synced(e, d)
    ensures Synced(Started(e), Updated(d, e.maxSize)) && Started(e).maxSize == e.maxSize
    ensures Started(e).pushIndex == e.pushIndex
  {
    hide Consistent, Named, View, Ready;
    MaximumIsInvisible(e, e.maxSize);
  }

  /** A whole block, as the decoder of the other end receives it. */
  lemma {:induction false} BlockLockstep(e: Context, d: Context, fields: seq<Field>, copies: nat)
    requires Synced(e, d) && HeaderFields(fields) && copies > 0
    requires |BlockOctets(e, fields, copies)| < WORD && e.pushIndex + |fields| + 61 < WORD && e.maxSize < WORD
    ensures var o := DecodeFromOctet(d, BlockOctets(e, fields, copies), 0, []);
            && (Delivers(o, fields) <==> FieldsOk(Started(e), fields, copies))
            && (FieldsOk(Started(e), fields, copies) ==> Synced(AllEncoded(Started(e), fields, copies), o.context))
  {
    hide Consistent, Named, Ready, View, DecodeStep, FieldsPieces, FieldsOk, AllEncoded, Octets, IntegerOctets;
    var data := BlockOctets(e, fields, copies);
    var first := IntegerPiece(32, 5, e.maxSize);
    OctetsConcat([first], FieldsPieces(Started(e), fields, copies));
    OctetsOfOne(first);
    var w, rest := IntegerOctets(32, 5, e.maxSize), Octets(FieldsPieces(Started(e), fields, copies));
    assert data == w + rest && data[0..0 + |w + rest|] == data;
    HoldsParts(data, 0, w, rest);
    UpdateStep(d, data, 0, e.maxSize);
    StartedSynced(e, d);
    FieldsLockstep(Started(e), Updated(d, e.maxSize), fields, data, |w|, [], copies);
    assert [] + fields == fields;
  }

  // Whole runs

  ghost predicate RunOk(e: Context, blocks: seq<seq<Field>>, copies: nat)
    requires Consistent(e) && Named(e) && copies > 0
    decreases |blocks|
  {
    blocks == [] ||
    (FieldsOk(Started(e), blocks[0], copies) && RunOk(AllEncoded(Started(e), blocks[0], copies), blocks[1..], copies))
  }

  ghost function EncoderAfter(e: Context, blocks: seq<seq<Field>>, copies: nat): Context
    requires Consistent(e) && Named(e) && copies > 0
    decreases |blocks|
  {
    if blocks == [] then e else EncoderAfter(AllEncoded(Started(e), blocks[0], copies), blocks[1..], copies)
  }

  /** The decoder's context after the run, as long as every block was delivered intact. */
  ghost function DecoderAfter(e: Context, d: Context, blocks: seq<seq<Field>>, copies: nat): Option<Context>
    requires Consistent(e) && Named(e) && Ready(d) && copies > 0
    decreases |blocks|
  {
    if blocks == [] then Some(d)
    else
      var o := DecodeFromOctet(d, BlockOctets(e, blocks[0], copies), 0, []);
      if Delivers(o, blocks[0]) && Ready(o.context)
      then DecoderAfter(AllEncoded(Started(e), blocks[0], copies), o.context, blocks[1..], copies)
      else None
  }

  /** Lengths and counters stay within the source's 64-bit words. */
  ghost predicate Addressable(e: Context, blocks: seq<seq<Field>>, copies: nat)
    requires Consistent(e) && Named(e) && copies > 0
    decreases |blocks|
  {
    e.maxSize < WORD &&
    (blocks == [] ||
     (|BlockOctets(e, blocks[0], copies)| < WORD && e.pushIndex + |blocks[0]| + 61 < WORD
      && Addressable(AllEncoded(Started(e), blocks[0], copies), blocks[1..], copies)))
  }

  /** Over any run of header blocks, every block is delivered intact exactly when every reference the
      encoder used was live and every string it sent was readable; and then both ends agree again. */
  lemma {:induction false} RunLockstep(e: Context, d: Context, blocks: seq<seq<Field>>, copies: nat)
    requires Synced(e, d) && copies > 0 && Addressable(e, blocks, copies)
    requires forall fields :: fields in blocks ==> HeaderFields(fields)
    ensures DecoderAfter(e, d, blocks, copies).Some? <==> RunOk(e, blocks, copies)
    ensures RunOk(e, blocks, copies) ==>
              Synced(EncoderAfter(e, blocks, copies), DecoderAfter(e, d, blocks, copies).value)
    decreases |blocks|
  {
    hide Consistent, Named, Ready, View, FieldsOk, AllEncoded, HeaderFields, BlockOctets, DecodeFromOctet;
    if blocks != [] {
      var fields := blocks[0];
      BlockLockstep(e, d, fields, copies);
      var o := DecodeFromOctet(d, BlockOctets(e, fields, copies), 0, []);
      if FieldsOk(Started(e), fields, copies) {
        RunLockstep(AllEncoded(Started(e), fields, copies), o.context, blocks[1..], copies);
      }
    }
  }

  /** Agreeing ends with nothing oversized hold the same table, size and push index. */
  lemma {:induction false} SyncedTables(e: Context, d: Context)
    requires Synced(e, d) && e.dynamicSize <= e.maxSize && d.dynamicSize <= d.maxSize
    ensures Fields(e.table) == Fields(d.table) && e.dynamicSize == d.dynamicSize && e.pushIndex == d.pushIndex
    ensures forall k :: 0 <= k < |e.table| ==>
              k < |d.table| && e.table[k].pushIndex == d.table[k].pushIndex && e.table[k].size == d.table[k].size
  {
    hide FieldSize, Named, IndexExact;
    assert Fix(e, 0) == e && Fix(d, 0) == d;
    DynamicSizeIsEager(e);
    DynamicSizeIsEager(d);
    forall k | 0 <= k < |e.table|
      ensures k < |d.table| && e.table[k].pushIndex == d.table[k].pushIndex && e.table[k].size == d.table[k].size
    {
      assert |Fields(e.table)| == |e.table| && |Fields(d.table)| == |d.table|;
      assert Fields(e.table)[k] == e.table[k].field && Fields(d.table)[k] == d.table[k].field;
    }
  }
}
