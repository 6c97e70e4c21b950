/**
 How `hpack_encode` writes a field, in octets, and the three names that it keeps out of the table.
 */
module HpackChoice {
  import opened BitStrings
  import opened HpackInteger
  import opened HpackString
  import opened HpackTable
  import opened HpackStatic
  import opened HpackEager
  import opened HpackCodec
  import opened HpackLockstep
  import opened HpackHistory
  import HpackWire

  // The static entries of the three names

  lemma SameLength(k: nat, name: string)
    requires StaticName(k) == Ascii(name)
    ensures |Static(k).key| == |name|
  {
    assert |Ascii(name)| == |name| && |StaticName(k)| == |Static(k).key|;
  }

  lemma {:induction false} ContentLengthIs28(k: nat)
    requires 1 <= k <= STATIC_COUNT && StaticName(k) == Ascii("content-length")
    ensures k == 28
  {
    SameLength(k, "content-length");
    assert k == 28 || k == 15;
    assert Ascii("accept-charset")[0] != Ascii("content-length")[0];
  }

  lemma {:induction false} CookieIs32(k: nat)
    requires 1 <= k <= STATIC_COUNT && StaticName(k) == Ascii("cookie")
    ensures k == 32
  {
    SameLength(k, "cookie");
    assert k == 32 || k == 19 || k == 35 || k == 54;
    assert Ascii("accept")[0] != Ascii("cookie")[0] && Ascii("expect")[0] != Ascii("cookie")[0];
    assert Ascii("server")[0] != Ascii("cookie")[0];
  }

  lemma {:induction false} SetCookieIs55(k: nat)
    requires 1 <= k <= STATIC_COUNT && StaticName(k) == Ascii("set-cookie")
    ensures k == 55
  {
    SameLength(k, "set-cookie");
    assert k == 55 || k == 1 || k == 58;
    assert Ascii(":authority")[0] != Ascii("set-cookie")[0] && Ascii("user-agent")[0] != Ascii("set-cookie")[0];
  }

  /** The names that the source keeps in `never_index_headers`, with their static entries. */
  lemma {:induction false} PrivateNames(name: seq<Octet>)
    ensures NeverIndexed(name)
       <==> name == Ascii("content-length") || name == Ascii("cookie") || name == Ascii("set-cookie")
    ensures name == Ascii("content-length") ==> PresetOnly(name, 28)
    ensures name == Ascii("cookie") ==> PresetOnly(name, 32)
    ensures name == Ascii("set-cookie") ==> PresetOnly(name, 55)
  {
    hide StaticName, Ascii;
    if NeverIndexed(name) {
      var k := if name == Ascii("content-length") then 28 else if name == Ascii("cookie") then 32 else 55;
      KeysOfThree();
      forall j | 1 <= j <= STATIC_COUNT && StaticName(j) == name ensures j == k {
        if name == Ascii("content-length") {
          ContentLengthIs28(j);
        } else if name == Ascii("cookie") {
          CookieIs32(j);
        } else {
          SetCookieIs55(j);
        }
      }
    }
  }

  lemma KeysOfThree()
    ensures StaticName(28) == Ascii("content-length") && StaticName(32) == Ascii("cookie")
    ensures StaticName(55) == Ascii("set-cookie")
    ensures StaticValue(28).None? && StaticValue(32).None? && StaticValue(55).None?
  {
  }

  /** The name has this one static entry, and that without a value. */
  ghost predicate PresetOnly(name: seq<Octet>, k: nat) {
    && 1 <= k <= STATIC_COUNT && StaticName(k) == name && StaticValue(k).None?
    && forall j :: 1 <= j <= STATIC_COUNT && StaticName(j) == name ==> j == k
  }

  lemma {:induction false} PresetFound(name: seq<Octet>, value: seq<Octet>, k: nat)
    requires PresetOnly(name, k)
    ensures FindStatic(name, None, 1) == k && FindStatic(name, Some(value), 1) == 0
  {
    hide StaticName, StaticValue;
    FindStaticFirst(name, None, 1);
    FindStaticFirst(name, Some(value), 1);
    assert StaticMatch(k, name, None);
  }

  // What never enters the table

  /** No field of these names is in the table or in a lookup list. */
  ghost predicate Clean(c: Context) {
    && (forall e :: e in c.table ==> !NeverIndexed(e.field.name))
    && (forall l, e :: 0 <= l < |c.lists| && e in c.lists[l] ==> !NeverIndexed(e.field.name))
  }

  lemma {:induction false} FixKeepsClean(c: Context, extra: nat)
    requires Consistent(c) && Clean(c)
    ensures Clean(Fix(c, extra))
  {
    hide NeverIndexed, Consistent, Fix;
    FixLeavesNewest(c, extra);
    FixKeepsLists(c, extra);
  }

  lemma {:induction false} EncodedKeepsClean(c: Context, f: Field, copies: nat)
    requires Consistent(c) && Named(c) && Clean(c)
    ensures Clean(Encoded(c, f, copies))
  {
    hide NeverIndexed, Fix, FieldSize, Represent, Append, Consistent, Named, Clean;
    if Represent(c, f).Literal? && Represent(c, f).indexing {
      var held := if f.name in c.lookup then Some(c.lookup[f.name]) else None;
      IndexingIsPublic(c, f);
      FixKeepsClean(c, FieldSize(f));
      FixKeepsLists(c, FieldSize(f));
      HeldIsList(c, f.name);
      AppendKeepsClean(Fix(c, FieldSize(f)), f, held, copies);
    }
  }

  lemma HeldIsList(c: Context, name: seq<Octet>)
    requires Named(c)
    ensures name in c.lookup ==> c.lookup[name] < |c.lists|
  {
  }

  lemma {:induction false} AppendKeepsClean(c: Context, f: Field, held: Option<nat>, copies: nat)
    requires Consistent(c) && (held.Some? ==> held.value < |c.lists|) && Clean(c) && !NeverIndexed(f.name)
    ensures Clean(Append(c, f, held, copies))
  {
    hide NeverIndexed, Consistent, FieldSize;
  }

  lemma IndexingIsPublic(c: Context, f: Field)
    requires Named(c)
    ensures Represent(c, f).Literal? ==> Represent(c, f).indexing == !NeverIndexed(f.name)
  {
    hide NeverIndexed, FindStatic, StaticName, StaticValue;
  }

  lemma {:induction false} FieldsKeepClean(c: Context, fields: seq<Field>, copies: nat)
    requires Consistent(c) && Named(c) && Clean(c) && copies > 0
    ensures Clean(AllEncoded(c, fields, copies))
    decreases |fields|
  {
    hide Consistent, Named, Clean, Encoded;
    if fields != [] {
      EncodedReady(c, fields[0], copies);
      EncodedKeepsClean(c, fields[0], copies);
      FieldsKeepClean(Encoded(c, fields[0], copies), fields[1..], copies);
    }
  }

  lemma {:induction false} RunKeepsClean(c: Context, blocks: seq<seq<Field>>, copies: nat)
    requires Consistent(c) && Named(c) && Clean(c) && copies > 0
    ensures var r := EncoderAfter(c, blocks, copies); Consistent(r) && Named(r) && Clean(r)
    decreases |blocks|
  {
    hide Consistent, Named, AllEncoded;
    if blocks != [] {
      FieldsKeepClean(Started(c), blocks[0], copies);
      RunKeepsClean(AllEncoded(Started(c), blocks[0], copies), blocks[1..], copies);
    }
  }

  /** The encoder in the middle of a block of a run. */
  ghost function Amid(max: nat, blocks: seq<seq<Field>>, before: seq<Field>, copies: nat): (c: Context)
    requires copies > 0
    ensures Consistent(c) && Named(c)
  {
    hide Consistent, Named, AllEncoded, Clean;
    EmptyIsClean(max);
    RunKeepsClean(EmptyContext(max), blocks, copies);
    AllEncoded(Started(EncoderAfter(EmptyContext(max), blocks, copies)), before, copies)
  }

  lemma EmptyIsClean(max: nat)
    ensures Clean(EmptyContext(max))
  {
  }

  lemma {:induction false} AmidIsClean(max: nat, blocks: seq<seq<Field>>, before: seq<Field>, copies: nat)
    requires copies > 0
    ensures Clean(Amid(max, blocks, before, copies))
  {
    hide Consistent, Named, AllEncoded, EmptyContext, NeverIndexed;
    EmptyIsClean(max);
    RunKeepsClean(EmptyContext(max), blocks, copies);
    FieldsKeepClean(Started(EncoderAfter(EmptyContext(max), blocks, copies)), before, copies);
  }

  /** At no point of any run is a field of one of the three names in the encoder's table. */
  lemma {:induction false} PrivateStaysOut(max: nat, blocks: seq<seq<Field>>, before: seq<Field>, copies: nat)
    requires copies > 0
    ensures forall e :: e in Amid(max, blocks, before, copies).table ==>
              && e.field.name != Ascii("content-length") && e.field.name != Ascii("cookie")
              && e.field.name != Ascii("set-cookie")
  {
    hide Amid, Ascii;
    AmidIsClean(max, blocks, before, copies);
  }

  // Octets

  lemma {:induction false} OpenedBy(r: Representation, f: Field)
    ensures var w := Octets(FieldPieces(r, f));
            && w != []
            && (r.Indexed? ==> w[0] >= 128)
            && (r.Literal? ==> if r.indexing then 64 <= w[0] < 128 else 16 <= w[0] < 32)
  {
    hide StringOctets, Pow2, IntegerOctets;
    FieldOctetsParts(r, f);
    Pow2Values();
    var prefix: Octet := if r.Indexed? then 128 else if r.indexing then 64 else 16;
    var n := if r.Indexed? then 7 else if r.indexing then 6 else 4;
    HpackWire.WrittenMeans(prefix, n, r.index);
    DivMod(IntegerOctets(prefix, n, r.index)[0], Pow2(n));
  }

  /** Four bits of an index from 15 to 142. */
  lemma {:induction false} TwoOctets(index: nat)
    requires 15 <= index < 143
    ensures IntegerOctets(16, 4, index) == [31, index - 15]
  {
    hide Pow2;
    Pow2Values();
    HighBitsFit(16, 4, 15);
  }

  /** At every point of every run, a field of one of the three names is written as a literal that is never
      indexed, under the static entry of its name, and leaves the table alone; and no other field is written
      with such a first octet. */
  lemma {:induction false} PrivateForm(max: nat, blocks: seq<seq<Field>>, before: seq<Field>, f: Field, copies: nat)
    requires copies > 0
    ensures var c, value := Amid(max, blocks, before, copies), StringOctets(f.value, true);
            var w := FieldOctets(c, f);
            && (f.name == Ascii("content-length") ==> w == [0x1F, 13] + value && Encoded(c, f, copies) == c)
            && (f.name == Ascii("cookie") ==> w == [0x1F, 17] + value && Encoded(c, f, copies) == c)
            && (f.name == Ascii("set-cookie") ==> w == [0x1F, 40] + value && Encoded(c, f, copies) == c)
            && w != []
            && (w[0] < 32
                <==> f.name == Ascii("content-length") || f.name == Ascii("cookie") || f.name == Ascii("set-cookie"))
  {
    hide Amid, Ascii, StringOctets, IntegerOctets, NeverIndexed, Represent, PresetOnly, Consistent, Named, Octets,
      FieldPieces;
    var c := Amid(max, blocks, before, copies);
    AmidIsClean(max, blocks, before, copies);
    PrivateNames(f.name);
    OpenedBy(Represent(c, f), f);
    IndexingIsPublic(c, f);
    ThreeLengths();
    if NeverIndexed(f.name) {
      var k := if f.name == Ascii("content-length") then 28 else if f.name == Ascii("cookie") then 32 else 55;
      PrivateIsLiteral(c, f, k);
      TwoOctets(k);
      FieldOctetsParts(Represent(c, f), f);
      assert [] + StringOctets(f.value, true) == StringOctets(f.value, true);
    }
  }

  lemma ThreeLengths()
    ensures |Ascii("content-length")| == 14 && |Ascii("cookie")| == 6 && |Ascii("set-cookie")| == 10
  {
  }

  lemma {:induction false} PrivateIsLiteral(c: Context, f: Field, k: nat)
    requires Named(c) && Clean(c) && NeverIndexed(f.name) && PresetOnly(f.name, k)
    ensures Represent(c, f) == Literal(k, false)
  {
    hide NeverIndexed, StaticName, StaticValue, FindStatic, Named;
    PresetFound(f.name, f.value, k);
    ListedIsPublic(c, f.name);
  }

  lemma ListedIsPublic(c: Context, name: seq<Octet>)
    requires Named(c) && Clean(c)
    ensures Listed(c, name) != [] ==> !NeverIndexed(name)
  {
    hide NeverIndexed;
    if Listed(c, name) != [] {
      var e := Listed(c, name)[0];
      assert e in c.lists[c.lookup[name]];
    }
  }

  // The choice of a representation

  /** The first static entry that matches. */
  ghost predicate FirstStatic(k: nat, name: seq<Octet>, value: Option<seq<Octet>>) {
    1 <= k <= 61 && StaticMatch(k, name, value) && forall j :: 1 <= j < k ==> !StaticMatch(j, name, value)
  }

  ghost predicate NoStatic(name: seq<Octet>, value: Option<seq<Octet>>) {
    forall j :: 1 <= j <= 61 ==> !StaticMatch(j, name, value)
  }

  /** The first entry of a list with this value. */
  ghost predicate FirstListed(entries: seq<Entry>, i: nat, value: seq<Octet>) {
    i < |entries| && entries[i].field.value == value && forall j :: 0 <= j < i ==> entries[j].field.value != value
  }

  ghost predicate NoneListed(entries: seq<Entry>, value: seq<Octet>) {
    forall j :: 0 <= j < |entries| ==> entries[j].field.value != value
  }

  lemma {:induction false} FindValueFirst(entries: seq<Entry>, value: seq<Octet>)
    ensures NoneListed(entries, value) ==> FindValue(entries, value) == None
    ensures forall i: nat :: FirstListed(entries, i, value) ==> FindValue(entries, value) == Some(entries[i])
    decreases |entries|
  {
    if entries != [] && entries[0].field.value != value {
      FindValueFirst(entries[1..], value);
      forall i: nat | FirstListed(entries, i, value) ensures FindValue(entries, value) == Some(entries[i]) {
        assert FirstListed(entries[1..], i - 1, value) by {
          assert forall j :: 0 <= j < i - 1 ==> entries[1..][j] == entries[j + 1];
        }
      }
    }
  }

  /** A static entry of the whole field is sent as its index. */
  lemma {:induction false} StaticForm(c: Context, f: Field, k: nat, copies: nat)
    requires Consistent(c) && Named(c) && FirstStatic(k, f.name, Some(f.value)) && copies > 0
    ensures FieldOctets(c, f) == [128 + k] && Encoded(c, f, copies) == c
  {
    hide StaticName, StaticValue, FindStatic, NeverIndexed, IntegerOctets, Consistent, Named, Listed, FindValue, Pow2,
      Octets, FieldPieces;
    FindStaticFirst(f.name, Some(f.value), 1);
    assert FindStatic(f.name, Some(f.value), 1) == k;
    assert Represent(c, f) == Indexed(k);
    FieldOctetsParts(Represent(c, f), f);
    Pow2Values();
    HpackWire.OneOctet(128, 7, k);
  }

  /** The status codes of the static table are one octet each. */
  lemma {:induction false} StatusForm(c: Context, code: string, k: nat)
    requires Consistent(c) && Named(c)
    requires (code, k) in {("200", 8), ("204", 9), ("206", 10), ("304", 11), ("400", 12), ("404", 13), ("500", 14)}
    ensures FieldOctets(c, Field(Ascii(":status"), Ascii(code))) == [128 + k]
  {
    hide FieldOctets, Consistent, Named, Ascii, StaticName, StaticValue;
    StatusEntries(code, k);
    StaticForm(c, Field(Ascii(":status"), Ascii(code)), k, 1);
  }

  lemma {:induction false} StatusEntries(code: string, k: nat)
    requires (code, k) in {("200", 8), ("204", 9), ("206", 10), ("304", 11), ("400", 12), ("404", 13), ("500", 14)}
    ensures FirstStatic(k, Ascii(":status"), Some(Ascii(code)))
  {
    assert StaticMatch(k, Ascii(":status"), Some(Ascii(code)));
    forall j | 1 <= j < k ensures !StaticMatch(j, Ascii(":status"), Some(Ascii(code))) {
      if StaticName(j) == Ascii(":status") {
        SameLength(j, ":status");
        NotStatus(j);
        var value := Ascii(Static(j).value.value);
        assert value[0] != Ascii(code)[0] || value[2] != Ascii(code)[2];
      }
    }
  }

  lemma {:induction false} NotStatus(j: nat)
    requires 1 <= j <= 14 && StaticName(j) == Ascii(":status")
    ensures 8 <= j
  {
    SameLength(j, ":status");
    assert j == 2 || j == 3 || j == 6 || j == 7 || j >= 8;
    assert Ascii(":method")[1] != Ascii(":status")[1] && Ascii(":scheme")[2] != Ascii(":status")[2];
  }

  /** A field whose name has a static value, such as :status, is otherwise a literal under the first static entry
      of its name, even when the dynamic table holds it. */
  lemma {:induction false} ValuedNameForm(c: Context, f: Field, k: nat)
    requires Consistent(c) && Named(c) && NoStatic(f.name, Some(f.value))
    requires FirstStatic(k, f.name, None) && StaticValue(k).Some?
    ensures FieldOctets(c, f) == [64 + k] + StringOctets(f.value, true)
    ensures Represent(c, f) == Literal(k, true)
  {
    hide StaticName, StaticValue, FindStatic, NeverIndexed, IntegerOctets, Consistent, Named, Listed, FindValue, Pow2,
      Octets, FieldPieces, StringOctets, Ascii;
    FindStaticFirst(f.name, Some(f.value), 1);
    FindStaticFirst(f.name, None, 1);
    assert FindStatic(f.name, None, 1) == k;
    PrivateNames(f.name);
    FieldOctetsParts(Represent(c, f), f);
    Pow2Values();
    HpackWire.OneOctet(64, 6, k);
    assert [] + StringOctets(f.value, true) == StringOctets(f.value, true);
  }

  /** Any other field is sent as the first listed entry of its name and value; without one it is a literal under
      the static entry of its name, the first listed entry of its name, or no entry. */
  lemma {:induction false} ListedForm(c: Context, f: Field)
    requires Consistent(c) && Named(c) && NoStatic(f.name, Some(f.value))
    requires forall k :: FirstStatic(k, f.name, None) ==> StaticValue(k).None?
    ensures var r, entries := Represent(c, f), Listed(c, f.name);
            && (forall i: nat :: FirstListed(entries, i, f.value) ==>
                  r == Indexed(c.pushIndex - entries[i].pushIndex + 61))
            && (NoneListed(entries, f.value) ==>
                  && r.Literal?
                  && (forall k :: FirstStatic(k, f.name, None) ==> r.index == k)
                  && (NoStatic(f.name, None) ==>
                        r.index == if entries == [] then 0 else c.pushIndex - entries[0].pushIndex + 61))
  {
    hide StaticName, StaticValue, FindStatic, NeverIndexed, Consistent, Named, FindValue;
    FindStaticFirst(f.name, Some(f.value), 1);
    FindStaticFirst(f.name, None, 1);
    FindValueFirst(Listed(c, f.name), f.value);
    var k := FindStatic(f.name, None, 1);
    assert k != 0 ==> FirstStatic(k, f.name, None);
    assert forall j :: FirstStatic(j, f.name, None) ==> k == j;
  }

  // What the encoder stores

  /** The fields of a block that are written as literals with incremental indexing. */
  function Stored(c: Context, fields: seq<Field>, copies: nat): seq<Field>
    requires Consistent(c) && Named(c) && copies > 0
    decreases |fields|
  {
    if fields == [] then []
    else
      EncodedReady(c, fields[0], copies);
      var r := Represent(c, fields[0]);
      (if r.Literal? && r.indexing then [fields[0]] else [])
          + Stored(Encoded(c, fields[0], copies), fields[1..], copies)
  }

  lemma {:induction false} StoredIsAdded(c: Context, f: Field, copies: nat, history: seq<Field>)
    requires Consistent(c) && Named(c) && copies > 0 && IsNewest(View(c), history, c.maxSize)
    ensures var r, d := Represent(c, f), Encoded(c, f, copies);
            && Consistent(d) && Named(d) && d.maxSize == c.maxSize
            && IsNewest(View(d), history + if r.Literal? && r.indexing then [f] else [], c.maxSize)
  {
    hide Represent, View, IsNewest, EagerAdd, FieldSize;
    EncodedReady(c, f, copies);
    assert history + [] == history;
    if Represent(c, f).Literal? && Represent(c, f).indexing {
      FixKeepsLists(c, FieldSize(f));
      AddRefinesEager(c, f, if f.name in c.lookup then Some(c.lookup[f.name]) else None, copies);
      AddLeavesNewest(View(c), history, c.maxSize, f);
    }
  }

  /** The encoder's table, too, shows the newest of what was stored, however often each entry is listed. */
  lemma {:induction false} EncoderHistory(c: Context, fields: seq<Field>, copies: nat, history: seq<Field>)
    requires Consistent(c) && Named(c) && copies > 0 && IsNewest(View(c), history, c.maxSize)
    ensures IsNewest(View(AllEncoded(c, fields, copies)), history + Stored(c, fields, copies), c.maxSize)
    decreases |fields|
  {
    hide Consistent, Named, Represent, View, IsNewest, Encoded;
    if fields == [] {
      assert history + [] == history;
    } else {
      var r := Represent(c, fields[0]);
      var one := if r.Literal? && r.indexing then [fields[0]] else [];
      StoredIsAdded(c, fields[0], copies, history);
      var d := Encoded(c, fields[0], copies);
      EncoderHistory(d, fields[1..], copies, history + one);
      assert history + one + Stored(d, fields[1..], copies) == history + Stored(c, fields, copies);
    }
  }
}
