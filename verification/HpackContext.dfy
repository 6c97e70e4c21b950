/** `struct hpack_ctx` with its operations in place, each against the specification of the modules before. */
module HpackContext {
  import opened BitStrings
  import opened HpackInteger
  import opened HpackString
  import opened HpackTable
  import opened HpackStatic
  import opened HpackEager
  import opened HpackCodec
  import opened HpackEmission
  import HpackLockstep

  class HpackCtx {
    var lookupMap: map<seq<Octet>, nat>
    var lists: seq<seq<Entry>>
    var dynamicTable: seq<Entry>
    var dynamicSize: nat
    var maxDynamicSize: nat
    var currentMaxDynamicSize: nat
    var pushIndex: nat

    function Model(): Context
      reads this
    {
      Context(dynamicTable, lists, lookupMap, dynamicSize, maxDynamicSize, currentMaxDynamicSize, pushIndex)
    }

    /** `hpack_init` */
    constructor (max: nat)
      ensures Model() == EmptyContext(max)
    {
      lookupMap, lists, dynamicTable := map[], [], [];
      dynamicSize, pushIndex := 0, 0;
      maxDynamicSize, currentMaxDynamicSize := max, max;
    }

    /** `hpack_fix` */
    method Evict(extra: nat)
      requires Consistent(Model())
      modifies this
      ensures Model() == Fix(old(Model()), extra)
    {
      hide Consistent, PopOldest;
      while dynamicSize + extra > maxDynamicSize
        invariant Consistent(Model())
        invariant Fix(Model(), extra) == Fix(old(Model()), extra)
        decreases |dynamicTable|
      {
        if dynamicTable == [] {
          break;
        }
        DropOldest();
      }
    }

    /** The oldest entry leaves the table and the list it was appended to. */
    method DropOldest()
      requires Consistent(Model()) && dynamicTable != []
      modifies this
      ensures Model() == PopOldest(old(Model()))
    {
      var popped := dynamicTable[0];
      assert popped in old(dynamicTable);
      TotalSizeFirst(dynamicTable);
      dynamicTable := dynamicTable[1..];
      var list := RemoveLast(lists[popped.list], popped);
      lists := lists[popped.list := list];
      if list == [] {
        lookupMap := lookupMap - {popped.field.name};
      }
      dynamicSize := dynamicSize - popped.size;
    }

    /** `hpack_lookup`, with an entry's NULL value read as empty. */
    method Find(index: nat) returns (r: Option<Field>)
      requires Consistent(Model())
      modifies this
      ensures (r, Model()) == Lookup(old(Model()), index)
    {
      hide StaticName, StaticValue;
      if index == 0 {
        return None;
      } else if index < 62 {
        var value := StaticValue(index);
        return Some(Field(StaticName(index), if value.Some? then value.value else []));
      }
      Evict(0);
      var position := index - 62;
      if position >= |dynamicTable| {
        return None;
      }
      return Some(dynamicTable[|dynamicTable| - 1 - position].field);
    }

    /** `hpack_add_entry` after `hpack_fix`, and the append to the lookup list that its callers do next. */
    method Push(f: Field, held: Option<nat>, copies: nat)
      requires Consistent(Model()) && (held.Some? ==> held.value < |lists|)
      modifies this
      ensures Model() == Append(old(Model()), f, held, copies)
    {
      var size := FieldSize(f);
      dynamicSize := dynamicSize + size;
      var list := |lists|;
      if held.Some? {
        list := held.value;
      } else {
        lists := lists + [[]];
        lookupMap := lookupMap[f.name := list];
      }
      var entry := Entry(f, size, pushIndex, list);
      pushIndex := pushIndex + 1;
      dynamicTable := dynamicTable + [entry];
      lists := lists[list := lists[list] + seq(copies, _ => entry)];
    }

    /** The decoder's insertion. */
    method AddOnDecode(f: Field)
      requires Ready(Model())
      modifies this
      ensures Model() == Added(old(Model()), f)
    {
      hide FieldSize, Append, View, EagerAdd;
      FixKeeps(Model(), FieldSize(f));
      Evict(FieldSize(f));
      Push(f, if f.name in lookupMap then Some(lookupMap[f.name]) else None, 1);
    }

    /** The encoder's insertion: the list is fetched first, and two nodes are appended. */
    method AddOnEncode(f: Field)
      requires Consistent(Model()) && Named(Model())
      modifies this
      ensures Model() == AddEncoded(old(Model()), f, 2)
    {
      hide FieldSize, Append;
      var held := if f.name in lookupMap then Some(lookupMap[f.name]) else None;
      FixKeepsLists(Model(), FieldSize(f));
      Evict(FieldSize(f));
      Push(f, held, 2);
    }

    /** The choice of representation in `hpack_encode`. */
    method Choose(f: Field) returns (r: Representation)
      requires Named(Model())
      ensures r == Represent(Model(), f)
    {
      hide StaticName, StaticValue, FindStatic, NeverIndexed;
      var neverIndex := NeverIndexed(f.name);
      var staticEntry, staticNameOnly := FindStatic(f.name, Some(f.value), 1), false;
      if staticEntry == 0 {
        staticEntry := FindStatic(f.name, None, 1);
        staticNameOnly := staticEntry != 0;
      }
      var index, literal := 0, true;
      ghost var listed := Listed(Model(), f.name);
      if staticEntry == 0 || StaticValue(staticEntry).None? {
        if f.name in lookupMap {
          var entry := EntryInList(lists[lookupMap[f.name]], f.value);
          if entry.Some? {
            assert entry.value in listed;
            index, literal := pushIndex - entry.value.pushIndex + 61, false;
          }
        }
        if literal && staticEntry != 0 {
          index := staticEntry;
        }
        if literal && staticEntry == 0 && f.name in lookupMap {
          var head := lists[lookupMap[f.name]][0];
          assert head in listed;
          index := pushIndex - head.pushIndex + 61;
        }
      } else {
        index, literal := staticEntry, staticNameOnly;
      }
      return if literal then Literal(index, !neverIndex) else Indexed(index);
    }

    /** The loop body of `hpack_encode`. */
    method EncodeField(f: Field, buffer: array<Octet>, used: nat) returns (out: array<Octet>, used': nat)
      requires Consistent(Model()) && Named(Model()) && pushIndex + 61 < WORD
      requires used <= buffer.Length && buffer.Length >= INITIAL_CAPACITY
      modifies this, buffer
      ensures out == buffer || fresh(out)
      ensures Model() == Encoded(old(Model()), f, 2)
      ensures var ps := FieldPieces(Represent(old(Model()), f), f);
              && AllEncodable(ps)
              && var (octets, capacity) := EmitPieces(ps, used, buffer.Length);
                 used' == used + |octets| && out.Length == capacity && out[..used'] == old(buffer[..used]) + octets
    {
      hide Represent, EmitPieces, EmitPiece, AddEncoded, Consistent, Named, FieldPieces;
      RepresentFits(Model(), f);
      var r := Choose(f);
      out, used' := PutField(r, f, buffer, used);
      if r.Literal? && r.indexing {
        AddOnEncode(f);
      }
    }

    /** `hpack_encode`: the octets its grow-and-retry loops leave, and the context it leaves behind. */
    method Encode(fields: seq<Field>) returns (out: array<Octet>, outLength: nat)
      requires Consistent(Model()) && Named(Model()) && pushIndex + |fields| + 61 < WORD && maxDynamicSize < WORD
      modifies this
      ensures fresh(out) && outLength <= out.Length
      ensures Model() == AllEncoded(Started(old(Model())), fields, 2)
      ensures var ps := BlockPieces(old(Model()), fields, 2);
              AllEncodable(ps) && out[..outLength] == EmitPieces(ps, 0, INITIAL_CAPACITY).0
    {
      hide EmitPiece, EmitPieces, Consistent, Named, Represent, Encoded, FieldPieces, FieldsPieces, AllEncoded, Octets;
      ghost var start := Started(Model());
      ghost var ps := BlockPieces(Model(), fields, 2);
      out := new Octet[INITIAL_CAPACITY];
      outLength := 0;
      currentMaxDynamicSize := maxDynamicSize;
      FieldsEncodable(start, fields);
      ghost var first := IntegerPiece(32, 5, maxDynamicSize);
      EmitOne(first, 0, INITIAL_CAPACITY);
      EmitConcat([first], FieldsPieces(start, fields, 2), 0, INITIAL_CAPACITY);
      out, outLength := PutInteger(out, 0, 32, 5, currentMaxDynamicSize);
      assert out[..outLength] == [] + EmitPiece(first, 0, INITIAL_CAPACITY).0
          == EmitPiece(first, 0, INITIAL_CAPACITY).0;
      ghost var all := EmitPieces(ps, 0, INITIAL_CAPACITY);
      assert fields[0..] == fields;
      for k := 0 to |fields|
        invariant fresh(out) && outLength <= out.Length && out.Length >= INITIAL_CAPACITY
        invariant Consistent(Model()) && Named(Model()) && pushIndex + |fields| - k + 61 < WORD
        invariant AllEncoded(Model(), fields[k..], 2) == AllEncoded(start, fields, 2)
        invariant AllEncodable(FieldsPieces(Model(), fields[k..], 2))
        invariant var (rest, last) := EmitPieces(FieldsPieces(Model(), fields[k..], 2), outLength, out.Length);
                  all == (out[..outLength] + rest, last)
      {
        ghost var c, f, rest := Model(), fields[k], fields[k + 1..];
        assert fields[k..][0] == f && fields[k..][1..] == rest;
        PiecesUnfold(c, fields[k..]);
        RepresentFits(c, f);
        EmitConcat(FieldPieces(Represent(c, f), f), FieldsPieces(Encoded(c, f, 2), rest, 2), outLength, out.Length);
        ghost var done := out[..outLength];
        ghost var octets := EmitPieces(FieldPieces(Represent(c, f), f), outLength, out.Length).0;
        out, outLength := EncodeField(fields[k], out, outLength);
        assert out[..outLength] == done + octets;
        Reassociate(done, octets, EmitPieces(FieldsPieces(Encoded(c, f, 2), rest, 2), outLength, out.Length).0);
      }
      NothingLeft(Model(), outLength, out.Length);
      assert fields[|fields|..] == [] && out[..outLength] + [] == out[..outLength];
    }

    /** The loop body of `hpack_decode` for a literal with a new name. */
    method TakeNewName(data: seq<Octet>, at: nat, indexing: bool) returns (t: Taken)
      requires Ready(Model())
      modifies this
      ensures Took(DecodeNewName(old(Model()), data, at, indexing), t, Model())
    {
      hide ReadString, Lower, Ready;
      var name := DecodeString(data, at);
      if !name.StringAt? {
        return TookCrash;
      }
      var value := DecodeString(data, name.next);
      if !value.StringAt? {
        return TookCrash;
      }
      if indexing {
        AddOnDecode(Field(name.text, value.text));
      }
      return TookField(Field(Lower(name.text), value.text), value.next);
    }

    /** The same for a literal with an indexed name: the value is read before the index is looked up. */
    method TakeKnownName(data: seq<Octet>, at: nat, index: nat, indexing: bool) returns (t: Taken)
      requires Ready(Model())
      modifies this
      ensures Took(DecodeKnownName(old(Model()), data, at, index, indexing), t, Model())
    {
      hide ReadString, Lower, Lookup, Ready, View, EagerLookup, EagerAdd;
      ReadyParts(Model());
      var value := DecodeString(data, at);
      if value.StringFault? {
        return TookCrash;
      }
      ghost var looked := Looked(Model(), index);
      var entry := Find(index);
      if entry.None? {
        return TookReject;
      }
      if value.NullString? {
        return TookCrash;
      }
      if indexing {
        AddOnDecode(Field(entry.value.name, value.text));
      }
      return TookField(Field(Lower(entry.value.name), value.text), value.next);
    }

    /** An indexed field. */
    method TakeIndexed(index: nat, next: nat) returns (t: Taken)
      requires Ready(Model())
      modifies this
      ensures Took(DecodeIndexed(old(Model()), index, next), t, Model())
    {
      hide Lower, Lookup, Ready, View, EagerLookup;
      ReadyParts(Model());
      if index == 0 {
        return TookReject;
      }
      ghost var looked := Looked(Model(), index);
      var entry := Find(index);
      if entry.None? {
        return TookReject;
      }
      return TookField(Field(Lower(entry.value.name), entry.value.value), next);
    }

    /** What follows the first integer. */
    method TakeKind(data: seq<Octet>, octet: Octet, index: nat, next: nat) returns (t: Taken)
      requires Ready(Model())
      modifies this
      ensures Took(DecodeKind(old(Model()), data, octet, index, next), t, Model())
    {
      hide Ready, View, EagerLookup, EagerAdd, DecodeIndexed, DecodeNewName, DecodeKnownName;
      if octet >= 128 {
        t := TakeIndexed(index, next);
        return;
      }
      if 32 <= octet < 64 {
        if index > maxDynamicSize {
          return TookReject;
        }
        currentMaxDynamicSize := index;
        return TookUpdate(next);
      }
      if index == 0 {
        t := TakeNewName(data, next, octet >= 64);
      } else {
        t := TakeKnownName(data, next, index, octet >= 64);
      }
    }

    /** One turn of the loop in `hpack_decode`. */
    method Take(data: seq<Octet>, i: nat) returns (t: Taken)
      requires Ready(Model()) && i < |data|
      modifies this
      ensures Took(DecodeStep(old(Model()), data, i), t, Model())
    {
      hide Ready, DecodeKind, ReadInteger, LowBits;
      var octet := data[i];
      var n := if octet >= 128 then 7 else if octet >= 64 then 6 else if octet >= 32 then 5 else 4;
      var read := DecodeInteger(LowBits(octet, n), n, data, i + 1);
      if read.OverRead? {
        return TookCrash;
      }
      t := TakeKind(data, octet, read.value, read.next);
    }

    /** `hpack_decode` */
    method Decode(data: seq<Octet>) returns (v: Verdict)
      requires Ready(Model())
      modifies this
      ensures match DecodeFromOctet(old(Model()), data, 0, [])
              case Done(fields, c) => v == Zero(fields) && Model() == c
              case Rejected => v == One
              case Crashed => v == Fault
    {
      hide DecodeStep, Ready;
      var i, fields := 0, [];
      while i < |data|
        invariant i <= |data| && Ready(Model())
        invariant DecodeFromOctet(Model(), data, i, fields) == DecodeFromOctet(old(Model()), data, 0, [])
        decreases |data| - i
      {
        StepAdvances(Model(), data, i);
        var t := Take(data, i);
        match t
        case TookField(f, next) => i, fields := next, fields + [f];
        case TookUpdate(next) => i := next;
        case TookReject => return One;
        case TookCrash => return Fault;
      }
      return Zero(fields);
    }
  }

  /** What one turn of the decoder's loop did. */
  datatype Taken = TookField(field: Field, next: nat) | TookUpdate(next: nat) | TookReject | TookCrash

  /** The decoder's return value 0 or 1; Fault is a read outside the block or of NULL. */
  datatype Verdict = Zero(fields: seq<Field>) | One | Fault

  ghost predicate Took(s: Step, t: Taken, c: Context) {
    match s
    case Emit(f, d, next) => t == TookField(f, next) && c == d
    case Update(d, next) => t == TookUpdate(next) && c == d
    case Reject => t == TookReject
    case Crash => t == TookCrash
  }

  lemma ReadyParts(c: Context)
    requires Ready(c)
    ensures Consistent(c) && Named(c)
  {
  }

  lemma Reassociate(a: seq<Octet>, b: seq<Octet>, c: seq<Octet>)
    ensures a + (b + c) == a + b + c
  {
  }

  lemma {:induction false} PiecesUnfold(c: Context, fields: seq<Field>)
    requires Consistent(c) && Named(c) && fields != []
    ensures var e := Encoded(c, fields[0], 2);
            && Consistent(e) && Named(e) && e.pushIndex <= c.pushIndex + 1
            && FieldsPieces(c, fields, 2) == FieldPieces(Represent(c, fields[0]), fields[0])
                + FieldsPieces(e, fields[1..], 2)
            && AllEncoded(c, fields, 2) == AllEncoded(e, fields[1..], 2)
    ensures AllEncodable(FieldsPieces(c, fields, 2)) ==>
              AllEncodable(FieldsPieces(Encoded(c, fields[0], 2), fields[1..], 2))
  {
    hide Consistent, Named, Represent, FieldPieces, Encoded, Encodable;
    EncodedReady(c, fields[0], 2);
  }

  lemma {:induction false} FieldsEncodable(c: Context, fields: seq<Field>)
    requires Consistent(c) && Named(c) && c.pushIndex + |fields| + 61 < WORD
    ensures AllEncodable(FieldsPieces(c, fields, 2))
    decreases |fields|
  {
    hide Consistent, Named, Represent, FieldPieces, Encoded, Encodable;
    if fields != [] {
      PiecesUnfold(c, fields);
      RepresentFits(c, fields[0]);
      FieldsEncodable(Encoded(c, fields[0], 2), fields[1..]);
    }
  }

  lemma NothingLeft(c: Context, used: nat, capacity: nat)
    requires Consistent(c) && Named(c) && used <= capacity && capacity >= INITIAL_CAPACITY
    ensures AllEncoded(c, [], 2) == c && FieldsPieces(c, [], 2) == []
    ensures EmitPieces([], used, capacity) == ([], capacity)
  {
  }

  /** The integer and strings of one representation. */
  method PutField(r: Representation, f: Field, buffer: array<Octet>, used: nat) returns (out: array<Octet>, used': nat)
    requires r.index < WORD && AllEncodable(FieldPieces(r, f))
    requires used <= buffer.Length && buffer.Length >= INITIAL_CAPACITY
    modifies buffer
    ensures out == buffer || fresh(out)
    ensures var (octets, capacity) := EmitPieces(FieldPieces(r, f), used, buffer.Length);
            used' == used + |octets| && out.Length == capacity && out[..used'] == old(buffer[..used]) + octets
  {
    hide EmitPieces, EmitPiece;
    ghost var ps := FieldPieces(r, f);
    match r
    case Indexed(index) =>
      out, used' := PutInteger(buffer, used, 128, 7, index);
      EmitOne(ps[0], used, buffer.Length);
      assert ps == [ps[0]];
    case Literal(index, indexing) =>
      EmitLiteral(ps, used, buffer.Length);
      out, used' := PutInteger(buffer, used, if indexing then 64 else 16, if indexing then 6 else 4, index);
      if index == 0 {
        out, used' := PutString(out, used', f.name);
      }
      out, used' := PutString(out, used', f.value);
  }

  /** `_hpack_entry_in_list` */
  method EntryInList(entries: seq<Entry>, value: seq<Octet>) returns (r: Option<Entry>)
    ensures r == FindValue(entries, value)
  {
    var i := 0;
    while i < |entries|
      invariant i <= |entries| && FindValue(entries, value) == FindValue(entries[i..], value)
    {
      if entries[i].field.value == value {
        return Some(entries[i]);
      }
      assert entries[i..][1..] == entries[i + 1..];
      i := i + 1;
    }
    assert entries[i..] == [];
    return None;
  }

  lemma {:induction false} RepresentFits(c: Context, f: Field)
    requires Consistent(c) && Named(c) && c.pushIndex + 61 < WORD
    ensures Represent(c, f).index < WORD && AllEncodable(FieldPieces(Represent(c, f), f))
  {
    hide Represent;
    HpackLockstep.RepresentMeans(c, f);
  }

  lemma {:induction false} EmitOne(p: Piece, used: nat, capacity: nat)
    requires used <= capacity && capacity >= INITIAL_CAPACITY && Encodable(p)
    ensures AllEncodable([p]) && EmitPieces([p], used, capacity) == EmitPiece(p, used, capacity)
  {
    hide EmitPiece;
    var (a, grown) := EmitPiece(p, used, capacity);
    assert [p][1..] == [] && a + [] == a;
  }

  lemma {:induction false} EmitLiteral(ps: seq<Piece>, used: nat, capacity: nat)
    requires used <= capacity && capacity >= INITIAL_CAPACITY && AllEncodable(ps) && 2 <= |ps| <= 3
    ensures var (a, c1) := EmitPiece(ps[0], used, capacity);
            var (b, c2) := EmitPiece(ps[1], used + |a|, c1);
            EmitPieces(ps, used, capacity)
              == if |ps| == 2 then (a + b, c2)
                 else var (c, c3) := EmitPiece(ps[2], used + |a| + |b|, c2); (a + b + c, c3)
  {
    hide EmitPiece;
    var (a, c1) := EmitPiece(ps[0], used, capacity);
    var (b, c2) := EmitPiece(ps[1], used + |a|, c1);
    var rest := ps[1..];
    if |ps| == 2 {
      assert rest == [ps[1]];
      EmitOne(ps[1], used + |a|, c1);
    } else {
      assert rest[1..] == [ps[2]];
      EmitOne(ps[2], used + |a| + |b|, c2);
      var c := EmitPiece(ps[2], used + |a| + |b|, c2).0;
      assert a + (b + c) == a + b + c;
    }
  }
}
