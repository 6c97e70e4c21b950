/** Which runs of the encoder are delivered: one lookup node per entry always is, the source's two nodes
    until something has been evicted. */
module HpackGuarantees {
  import opened BitStrings
  import opened HuffmanCode
  import opened HuffmanDecoder
  import opened HpackTable
  import opened HpackStatic
  import opened HpackEager
  import opened HpackCodec
  import opened HpackLockstep

  /** Nothing listed has left the table. */
  ghost predicate ListedInTable(c: Context) {
    forall l, e :: 0 <= l < |c.lists| && e in c.lists[l] ==> e in c.table
  }

  ghost predicate Fitting(c: Context) {
    c.dynamicSize <= c.maxSize
  }

  /** Printable ASCII, among others. */
  ghost predicate NarrowText(s: seq<Octet>) {
    forall o :: o in s ==> BitWidth(o) <= 25
  }

  /** Both strings survive Huffman coding. */
  ghost predicate ReadableField(f: Field) {
    Readable(f.name) && Readable(f.value)
  }

  lemma {:induction false} NarrowFieldIsReadable(f: Field)
    requires NarrowText(f.name) && NarrowText(f.value)
    ensures ReadableField(f)
  {
    hide BitWidth;
    NarrowIsReadable(f.name);
    NarrowIsReadable(f.value);
  }

  lemma {:induction false} ListedIsLive(c: Context, f: Field)
    requires Consistent(c) && Named(c) && ListedInTable(c) && Fitting(c)
    ensures ReferenceLive(c, f)
  {
    hide StaticName, StaticValue, NeverIndexed, FindStatic, FieldSize;
    assert Fix(c, 0) == c;
    var entries := Listed(c, f.name);
    var found := FindValue(entries, f.value);
    if found.Some? {
      assert found.value in c.table;
    }
    if entries != [] {
      assert entries[0] in entries && entries[0] in c.table;
    }
  }

  lemma ReadableIsOk(c: Context, f: Field)
    requires Named(c) && ReadableField(f)
    ensures TextReadable(c, f)
  {
    hide Represent, Readable;
  }

  // One node per entry

  lemma {:induction false} SoundIsListed(c: Context)
    requires IndexSound(c)
    ensures ListedInTable(c)
  {
    forall l, e | 0 <= l < |c.lists| && e in c.lists[l] ensures e in c.table {
      assert ListSound(c, l);
    }
  }

  ghost predicate Storable(c: Context, f: Field) {
    FieldSize(f) <= c.maxSize
  }

  lemma {:induction false} EncodedFits(c: Context, f: Field, copies: nat)
    requires Consistent(c) && Named(c) && copies > 0 && Fitting(c) && Storable(c, f)
    ensures Fitting(Encoded(c, f, copies)) && Encoded(c, f, copies).maxSize == c.maxSize
  {
    hide Represent, FieldSize;
    EncodedReady(c, f, copies);
    FixKeepsLists(c, FieldSize(f));
  }

  lemma {:induction false} OneNodeFields(c: Context, fields: seq<Field>)
    requires Consistent(c) && Named(c) && IndexSound(c) && Fitting(c)
    requires forall f :: f in fields ==> Storable(c, f) && ReadableField(f)
    ensures FieldsOk(c, fields, 1)
    ensures var r := AllEncoded(c, fields, 1); IndexSound(r) && Fitting(r) && r.maxSize == c.maxSize
    decreases |fields|
  {
    hide Consistent, Named, IndexSound, ReferenceLive, TextReadable, Fitting, ReadableField, Encoded;
    if fields != [] {
      var f := fields[0];
      SoundIsListed(c);
      ListedIsLive(c, f);
      ReadableIsOk(c, f);
      EncodedReady(c, f, 1);
      EncodedFits(c, f, 1);
      var c' := Encoded(c, f, 1);
      forall g | g in fields[1..] ensures Storable(c', g) && ReadableField(g) {
        assert g in fields && Storable(c, g);
      }
      OneNodeFields(c', fields[1..]);
    }
  }

  /** Were each new entry appended once, as the decoder does, every run of readable fields that fit
      the table would be delivered intact, whatever is evicted. */
  lemma {:induction false} OneNodeRunIsDelivered(c: Context, blocks: seq<seq<Field>>)
    requires Consistent(c) && Named(c) && IndexSound(c) && Fitting(c)
    requires forall fields, f :: fields in blocks && f in fields ==> Storable(c, f) && ReadableField(f)
    ensures RunOk(c, blocks, 1)
    decreases |blocks|
  {
    hide Consistent, Named, IndexSound, FieldsOk, AllEncoded, ReadableField;
    if blocks != [] {
      assert blocks[0] in blocks;
      MaximumIsBookkeeping(c, c.maxSize);
      OneNodeFields(Started(c), blocks[0]);
      OneNodeRunIsDelivered(AllEncoded(Started(c), blocks[0], 1), blocks[1..]);
    }
  }

  // Two nodes per entry, as the source has it

  function FieldsSize(fields: seq<Field>): nat {
    if fields == [] then 0 else FieldSize(fields[0]) + FieldsSize(fields[1..])
  }

  function BlocksSize(blocks: seq<seq<Field>>): nat {
    if blocks == [] then 0 else FieldsSize(blocks[0]) + BlocksSize(blocks[1..])
  }

  lemma {:induction false} EncodedWithoutEviction(c: Context, f: Field, copies: nat)
    requires Consistent(c) && Named(c) && ListedInTable(c) && copies > 0
    requires c.dynamicSize + FieldSize(f) <= c.maxSize
    ensures var r := Encoded(c, f, copies);
            ListedInTable(r) && r.maxSize == c.maxSize && r.dynamicSize <= c.dynamicSize + FieldSize(f)
  {
    hide Represent, FieldSize;
    FixKeepsLists(c, FieldSize(f));
    var held := if f.name in c.lookup then Some(c.lookup[f.name]) else None;
    assert Fix(c, FieldSize(f)) == c;
    var r := Append(c, f, held, copies);
    var l := if held.Some? then held.value else |c.lists|;
    var e := r.table[|c.table|];
    forall k, x | 0 <= k < |r.lists| && x in r.lists[k] ensures x in r.table {
      if x != e {
        assert k < |c.lists| && x in c.lists[k];
        assert x in c.table;
      }
    }
  }

  lemma {:induction false} UnevictedFields(c: Context, fields: seq<Field>, copies: nat)
    requires Consistent(c) && Named(c) && ListedInTable(c) && copies > 0
    requires c.dynamicSize + FieldsSize(fields) <= c.maxSize
    requires forall f :: f in fields ==> ReadableField(f)
    ensures FieldsOk(c, fields, copies)
    ensures var r := AllEncoded(c, fields, copies);
            && ListedInTable(r) && r.maxSize == c.maxSize
            && r.dynamicSize <= c.dynamicSize + FieldsSize(fields)
    decreases |fields|
  {
    hide Consistent, Named, ListedInTable, ReferenceLive, TextReadable, ReadableField, Encoded, FieldSize;
    if fields != [] {
      var f := fields[0];
      ListedIsLive(c, f);
      ReadableIsOk(c, f);
      EncodedReady(c, f, copies);
      EncodedWithoutEviction(c, f, copies);
      UnevictedFields(Encoded(c, f, copies), fields[1..], copies);
    }
  }

  /** As long as everything encoded so far fits the table together, nothing is evicted and the source's
      encoder is delivered intact. */
  lemma {:induction false} UnevictedRunIsDelivered(c: Context, blocks: seq<seq<Field>>, copies: nat)
    requires Consistent(c) && Named(c) && ListedInTable(c) && copies > 0
    requires c.dynamicSize + BlocksSize(blocks) <= c.maxSize
    requires forall fields, f :: fields in blocks && f in fields ==> ReadableField(f)
    ensures RunOk(c, blocks, copies)
    decreases |blocks|
  {
    hide Consistent, Named, FieldsOk, AllEncoded, ReadableField, FieldsSize;
    if blocks != [] {
      assert blocks[0] in blocks;
      UnevictedFields(Started(c), blocks[0], copies);
      UnevictedRunIsDelivered(AllEncoded(Started(c), blocks[0], copies), blocks[1..], copies);
    }
  }

  // From the first block on

  /** Something stays in the table once anything was stored. */
  ghost predicate Stocked(c: Context) {
    c.pushIndex > 0 ==> c.table != []
  }

  ghost predicate AllStorable(max: nat, fields: seq<Field>) {
    forall f :: f in fields ==> FieldSize(f) <= max
  }

  lemma {:induction false} EncodedStocked(c: Context, f: Field, copies: nat)
    requires Consistent(c) && Named(c) && copies > 0 && Stocked(c)
    ensures Stocked(Encoded(c, f, copies))
  {
    hide Represent, FieldSize;
    FixKeepsLists(c, FieldSize(f));
  }

  lemma {:induction false} FieldsFitTable(c: Context, fields: seq<Field>, copies: nat)
    requires Consistent(c) && Named(c) && copies > 0 && Fitting(c) && Stocked(c) && AllStorable(c.maxSize, fields)
    ensures var r := AllEncoded(c, fields, copies); Fitting(r) && Stocked(r) && r.maxSize == c.maxSize
    decreases |fields|
  {
    hide Consistent, Named, Encoded, FieldSize;
    if fields != [] {
      EncodedReady(c, fields[0], copies);
      EncodedFits(c, fields[0], copies);
      EncodedStocked(c, fields[0], copies);
      FieldsFitTable(Encoded(c, fields[0], copies), fields[1..], copies);
    }
  }

  lemma {:induction false} RunFitsTable(c: Context, blocks: seq<seq<Field>>, copies: nat)
    requires Consistent(c) && Named(c) && copies > 0 && Fitting(c) && Stocked(c)
    requires forall fields :: fields in blocks ==> AllStorable(c.maxSize, fields)
    ensures var r := EncoderAfter(c, blocks, copies);
            Consistent(r) && Named(r) && Fitting(r) && Stocked(r) && r.maxSize == c.maxSize
    decreases |blocks|
  {
    hide Consistent, Named, AllEncoded, AllStorable;
    if blocks != [] {
      assert blocks[0] in blocks;
      FieldsFitTable(Started(c), blocks[0], copies);
      RunFitsTable(AllEncoded(Started(c), blocks[0], copies), blocks[1..], copies);
    }
  }

  /** The same fields in the same order, the same size, and push indices that go on alike. */
  ghost predicate SameTable(e: Context, d: Context) {
    Fields(e.table) == Fields(d.table) && e.dynamicSize == d.dynamicSize && e.pushIndex == d.pushIndex
  }

  lemma {:induction false} OversizedIsUnseen(d: Context)
    requires Consistent(d) && Settled(d) && d.dynamicSize > d.maxSize
    ensures |d.table| == 1 && View(d) == []
  {
    hide FieldSize, Consistent;
    FixLeavesNewest(PopOldest(d), 0);
  }

  /** An encoder that holds nothing oversized and is not empty rules out an oversized lone entry at the
      decoder it agrees with. */
  lemma {:induction false} FittingIsShared(e: Context, d: Context)
    requires Synced(e, d) && Fitting(e) && Stocked(e)
    ensures SameTable(e, d)
  {
    hide FieldSize, Named, IndexExact, TotalSize;
    assert Fix(e, 0) == e && |View(e)| == |e.table|;
    if d.dynamicSize > d.maxSize {
      OversizedIsUnseen(d);
    }
    SyncedTables(e, d);
  }

  lemma EmptySynced(max: nat)
    ensures var c := EmptyContext(max);
            Synced(c, c) && Fitting(c) && Stocked(c) && IndexSound(c) && ListedInTable(c)
  {
  }

  /** Two fresh contexts of the same maximum, each new entry appended once: over every run of readable
      fields no larger than the maximum, every block is delivered intact and in order, and both ends then
      hold the same table, size and push index. */
  lemma {:induction false} OneNodeFromStart(max: nat, blocks: seq<seq<Field>>)
    requires Addressable(EmptyContext(max), blocks, 1)
    requires forall fields :: fields in blocks ==> HeaderFields(fields) && AllStorable(max, fields)
    requires forall fields, f :: fields in blocks && f in fields ==> ReadableField(f)
    ensures var c := EmptyContext(max);
            && DecoderAfter(c, c, blocks, 1).Some?
            && SameTable(EncoderAfter(c, blocks, 1), DecoderAfter(c, c, blocks, 1).value)
  {
    hide Consistent, Named, Ready, View, IndexSound, RunOk, DecoderAfter, EncoderAfter, Addressable, ReadableField,
      FieldSize, HeaderFields, EmptyContext, SameTable, ListedInTable;
    var c := EmptyContext(max);
    EmptySynced(max);
    EmptyMaximum(max);
    assert forall fields, f :: fields in blocks && f in fields ==> AllStorable(max, fields) && Storable(c, f);
    OneNodeRunIsDelivered(c, blocks);
    RunLockstep(c, c, blocks, 1);
    RunFitsTable(c, blocks, 1);
    FittingIsShared(EncoderAfter(c, blocks, 1), DecoderAfter(c, c, blocks, 1).value);
  }

  lemma EmptyMaximum(max: nat)
    ensures EmptyContext(max).maxSize == max && EmptyContext(max).dynamicSize == 0
  {
  }

  lemma {:induction false} SizesBound(blocks: seq<seq<Field>>, fields: seq<Field>)
    requires fields in blocks
    ensures FieldsSize(fields) <= BlocksSize(blocks)
  {
    if blocks[0] != fields {
      assert fields in blocks[1..];
      SizesBound(blocks[1..], fields);
    }
  }

  lemma {:induction false} SizeBound(fields: seq<Field>, f: Field)
    requires f in fields
    ensures FieldSize(f) <= FieldsSize(fields)
  {
    if fields[0] != f {
      assert f in fields[1..];
      SizeBound(fields[1..], f);
    }
  }

  /** The same for the source's two nodes as long as all fields together fit the table. */
  lemma {:induction false} UnevictedFromStart(max: nat, blocks: seq<seq<Field>>, copies: nat)
    requires copies > 0 && Addressable(EmptyContext(max), blocks, copies) && BlocksSize(blocks) <= max
    requires forall fields :: fields in blocks ==> HeaderFields(fields)
    requires forall fields, f :: fields in blocks && f in fields ==> ReadableField(f)
    ensures var c := EmptyContext(max);
            && DecoderAfter(c, c, blocks, copies).Some?
            && SameTable(EncoderAfter(c, blocks, copies), DecoderAfter(c, c, blocks, copies).value)
  {
    hide Consistent, Named, Ready, View, IndexSound, RunOk, DecoderAfter, EncoderAfter, Addressable, ReadableField,
      FieldSize, HeaderFields, EmptyContext, SameTable, ListedInTable, BlocksSize, FieldsSize;
    var c := EmptyContext(max);
    EmptySynced(max);
    EmptyMaximum(max);
    forall fields | fields in blocks ensures AllStorable(max, fields) {
      SizesBound(blocks, fields);
      forall f | f in fields ensures FieldSize(f) <= max {
        SizeBound(fields, f);
      }
    }
    UnevictedRunIsDelivered(c, blocks, copies);
    RunLockstep(c, c, blocks, copies);
    RunFitsTable(c, blocks, copies);
    FittingIsShared(EncoderAfter(c, blocks, copies), DecoderAfter(c, c, blocks, copies).value);
  }

  // Two nodes go stale

  lemma {:induction false} FreshNameIsLiteral(c: Context, f: Field)
    requires Named(c) && |f.name| == 1 && f.name !in c.lookup
    ensures Represent(c, f) == Literal(0, true)
  {
    hide FindStatic, StaticName, StaticValue;
    NoStaticEntry(f.name, None, 1);
    NoStaticEntry(f.name, Some(f.value), 1);
    assert |Ascii("content-length")| == 14 && |Ascii("cookie")| == 6 && |Ascii("set-cookie")| == 10;
  }

  lemma {:induction false} ListedFieldIsIndexed(c: Context, f: Field, e: Entry)
    requires Named(c) && |f.name| == 1 && Listed(c, f.name) == [e] && e.field.value == f.value
    ensures Dated(c, e) && Represent(c, f) == Indexed(IndexOf(c, e))
  {
    hide FindStatic, StaticName, StaticValue, Named;
    NoStaticEntry(f.name, None, 1);
    NoStaticEntry(f.name, Some(f.value), 1);
    assert e in Listed(c, f.name);
  }

  /** Three fields in a table with room for one: the second evicts the first, but the source removes only
      one of its two nodes, and the third field is sent as a reference to the evicted entry. */
  lemma {:induction false} StaleReference()
    ensures var c := EmptyContext(64);
            var a, b := Field([97], [49]), Field([98], [50]);
            !FieldsOk(c, [a, b, a], 2)
  {
    hide FieldsOk, FieldOk, Encoded, Consistent, Named;
    var c0 := EmptyContext(64);
    var a, b := Field([97], [49]), Field([98], [50]);
    var ea := Entry(a, 34, 0, 0);
    FirstIsStored(c0, a, ea);
    var c1 := Encoded(c0, a, 2);
    SecondEvictsFirst(c1, a, b, ea);
    var c2 := Encoded(c1, b, 2);
    EncodedReady(c1, b, 2);
    ThirdIsStale(c2, a, b, ea);
    FieldsUnfold(c0, [a, b, a], 2);
    FieldsUnfold(c1, [b, a], 2);
    FieldsUnfold(c2, [a], 2);
    assert [a, b, a][1..] == [b, a] && [b, a][1..] == [a];
  }

  lemma {:induction false} FirstIsStored(c0: Context, a: Field, ea: Entry)
    requires c0 == EmptyContext(64) && a == Field([97], [49]) && ea == Entry(a, 34, 0, 0)
    ensures var c1 := Encoded(c0, a, 2);
            && Consistent(c1) && Named(c1)
            && c1.table == [ea] && c1.lists == [[ea, ea]] && c1.lookup == map[[97] := 0]
            && c1.dynamicSize == 34 && c1.maxSize == 64 && c1.pushIndex == 1
  {
    hide Represent;
    FreshNameIsLiteral(c0, a);
    EncodedReady(c0, a, 2);
    assert Fix(c0, 34) == c0;
    assert seq(2, _ => ea) == [ea, ea] && [] + [ea, ea] == [ea, ea];
    assert ([] + [[]])[0 := [ea, ea]] == [[ea, ea]];
  }

  lemma {:induction false} SecondEvictsFirst(c1: Context, a: Field, b: Field, ea: Entry)
    requires a == Field([97], [49]) && b == Field([98], [50]) && ea == Entry(a, 34, 0, 0)
    requires Consistent(c1) && Named(c1) && c1.table == [ea] && c1.lists == [[ea, ea]] && c1.lookup == map[[97] := 0]
    requires c1.dynamicSize == 34 && c1.maxSize == 64 && c1.pushIndex == 1
    ensures var c2, eb := Encoded(c1, b, 2), Entry(b, 34, 1, 1);
            && c2.table == [eb] && c2.lists == [[ea], [eb, eb]] && c2.lookup == map[[97] := 0, [98] := 1]
            && c2.dynamicSize == 34 && c2.maxSize == 64 && c2.pushIndex == 2
  {
    hide Represent;
    FreshNameIsLiteral(c1, b);
    var eb := Entry(b, 34, 1, 1);
    var p := PopOldest(c1);
    assert [ea, ea][1] == ea && [ea, ea][..1] == [ea] && RemoveLast([ea, ea], ea) == [ea];
    assert p.table == [] && p.lists == [[ea]] && p.lookup == c1.lookup && p.dynamicSize == 0;
    assert Fix(c1, 34) == Fix(p, 34) == p;
    assert seq(2, _ => eb) == [eb, eb] && [] + [eb, eb] == [eb, eb];
    assert ([[ea]] + [[]])[1 := [eb, eb]] == [[ea], [eb, eb]];
  }

  lemma {:induction false} ThirdIsStale(c2: Context, a: Field, b: Field, ea: Entry)
    requires a == Field([97], [49]) && b == Field([98], [50]) && ea == Entry(a, 34, 0, 0)
    requires Consistent(c2) && Named(c2) && |c2.table| == 1 && |c2.lists| > 0 && c2.lists[0] == [ea]
    requires [97] in c2.lookup && c2.lookup[[97]] == 0 && c2.dynamicSize == 34 && c2.maxSize == 64 && c2.pushIndex == 2
    ensures !FieldOk(c2, a)
  {
    hide Represent;
    ListedFieldIsIndexed(c2, a, ea);
    assert IndexOf(c2, ea) == 63;
    assert Fix(c2, 0) == c2;
    assert |View(c2)| == 1;
  }
}
