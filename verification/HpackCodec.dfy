/** Header blocks of HPACK: how `hpack_encode` represents a field and what `hpack_decode` makes of it. */
module HpackCodec {
  import opened BitStrings
  import opened HpackInteger
  import opened HpackString
  import opened HpackTable
  import opened HpackStatic
  import opened HpackEager

  // Header names

  function LowerOctet(o: Octet): Octet {
    if 65 <= o <= 90 then o + 32 else o
  }

  /** `str_tolower`, which `header_add` applies to every name. */
  function Lower(s: seq<Octet>): (r: seq<Octet>)
    ensures |r| == |s| && forall i :: 0 <= i < |s| ==> r[i] == LowerOctet(s[i])
  {
    if s == [] then [] else [LowerOctet(s[0])] + Lower(s[1..])
  }

  /** A field of a `struct headers`: C strings, with the name in lower case. */
  ghost predicate HeaderField(f: Field) {
    0 !in f.name && 0 !in f.value && Lower(f.name) == f.name
  }

  // The encoder's choice

  datatype Representation = Indexed(index: nat) | Literal(index: nat, indexing: bool)

  function NeverIndexed(name: seq<Octet>): bool {
    name == Ascii("content-length") || name == Ascii("cookie") || name == Ascii("set-cookie")
  }

  /** `_hpack_entry_in_list` */
  function FindValue(entries: seq<Entry>, value: seq<Octet>): (r: Option<Entry>)
    ensures r.Some? ==> r.value in entries && r.value.field.value == value
  {
    if entries == [] then None
    else if entries[0].field.value == value then Some(entries[0])
    else FindValue(entries[1..], value)
  }

  function IndexOf(c: Context, e: Entry): (index: nat)
    requires Dated(c, e)
    ensures index >= 62
  {
    c.pushIndex - e.pushIndex + 61
  }

  /** The listed entries of a name. */
  function Listed(c: Context, name: seq<Octet>): (entries: seq<Entry>)
    requires Named(c)
    ensures forall e :: e in entries ==> e.field.name == name && Dated(c, e)
  {
    if name in c.lookup then c.lists[c.lookup[name]] else []
  }

  function Represent(c: Context, f: Field): Representation
    requires Named(c)
  {
    var exact := FindStatic(f.name, Some(f.value), 1);
    var preset := if exact != 0 then exact else FindStatic(f.name, None, 1);
    var indexing := !NeverIndexed(f.name);
    if preset == 0 || StaticValue(preset).None? then
      var entries := Listed(c, f.name);
      match FindValue(entries, f.value)
      case Some(e) => Indexed(IndexOf(c, e))
      case None =>
        if preset != 0 then Literal(preset, indexing)
        else if entries != [] then
          assert entries[0] in entries;
          Literal(IndexOf(c, entries[0]), indexing)
        else Literal(0, indexing)
    else if exact != 0 then Indexed(preset)
    else Literal(preset, indexing)
  }

  /** The context after a field has been encoded; the source appends `copies == 2` nodes for a new entry. */
  function Encoded(c: Context, f: Field, copies: nat): Context
    requires Consistent(c) && Named(c)
  {
    match Represent(c, f)
    case Indexed(_) => c
    case Literal(_, indexing) => if indexing then AddEncoded(c, f, copies) else c
  }

  // The wire form of a block

  datatype Piece = IntegerPiece(prefix: Octet, n: nat, v: nat) | StringPiece(text: seq<Octet>)

  function PieceOctets(p: Piece): (w: seq<Octet>)
    ensures |w| > 0
  {
    match p
    case IntegerPiece(prefix, n, v) => if n <= 8 then IntegerOctets(prefix, n, v) else [0]
    case StringPiece(text) => StringOctets(text, true)
  }

  function Octets(ps: seq<Piece>): seq<Octet> {
    if ps == [] then [] else PieceOctets(ps[0]) + Octets(ps[1..])
  }

  lemma {:induction false} OctetsConcat(ps: seq<Piece>, qs: seq<Piece>)
    ensures Octets(ps + qs) == Octets(ps) + Octets(qs)
  {
    if ps == [] {
      assert ps + qs == qs;
    } else {
      assert (ps + qs)[1..] == ps[1..] + qs;
      OctetsConcat(ps[1..], qs);
    }
  }

  function FieldPieces(r: Representation, f: Field): seq<Piece> {
    match r
    case Indexed(index) => [IntegerPiece(128, 7, index)]
    case Literal(index, indexing) =>
      [if indexing then IntegerPiece(64, 6, index) else IntegerPiece(16, 4, index)]
      + (if index == 0 then [StringPiece(f.name)] else []) + [StringPiece(f.value)]
  }

  function FieldsPieces(c: Context, fields: seq<Field>, copies: nat): seq<Piece>
    requires Consistent(c) && Named(c) && copies > 0
    decreases |fields|
  {
    if fields == [] then []
    else
      EncodedReady(c, fields[0], copies);
      FieldPieces(Represent(c, fields[0]), fields[0]) + FieldsPieces(Encoded(c, fields[0], copies), fields[1..], copies)
  }

  function AllEncoded(c: Context, fields: seq<Field>, copies: nat): (r: Context)
    requires Consistent(c) && Named(c) && copies > 0
    ensures Consistent(r) && Named(r)
    decreases |fields|
  {
    if fields == [] then c
    else
      EncodedReady(c, fields[0], copies);
      AllEncoded(Encoded(c, fields[0], copies), fields[1..], copies)
  }

  lemma {:induction false} EncodedReady(c: Context, f: Field, copies: nat)
    requires Consistent(c) && Named(c) && copies > 0
    ensures var r := Encoded(c, f, copies);
            && Consistent(r) && Named(r) && r.maxSize == c.maxSize
            && (Settled(c) ==> Settled(r)) && c.pushIndex <= r.pushIndex <= c.pushIndex + 1
            && (copies == 1 && IndexSound(c) ==> IndexSound(r))
  {
    hide Represent, IndexSound;
    AddEncodedKeeps(c, f, copies);
  }

  /** A block opens with a table size update: section 6.3 of RFC 7541. */
  function BlockPieces(c: Context, fields: seq<Field>, copies: nat): seq<Piece>
    requires Consistent(c) && Named(c) && copies > 0
  {
    [IntegerPiece(32, 5, c.maxSize)] + FieldsPieces(Started(c), fields, copies)
  }

  /** The encoder signals its full maximum. */
  function Started(c: Context): (r: Context)
    requires Consistent(c) && Named(c)
    ensures Consistent(r) && Named(r)
  {
    MaximumIsBookkeeping(c, c.maxSize);
    c.(currentMax := c.maxSize)
  }

  /** The signalled maximum takes no part in any invariant, nor in what is visible. */
  lemma {:induction false} MaximumIsBookkeeping(c: Context, current: nat)
    requires Consistent(c)
    ensures var r := c.(currentMax := current);
            && Consistent(r) && (Named(c) ==> Named(r)) && (Settled(c) ==> Settled(r))
            && (IndexExact(c) ==> IndexExact(r)) && (IndexSound(c) ==> IndexSound(r))
  {
    var r := c.(currentMax := current);
    if Named(c) {
      forall l, e | 0 <= l < |r.lists| && e in r.lists[l] ensures Dated(r, e) {
        assert Dated(c, e);
      }
    }
    if IndexSound(c) {
      forall l | 0 <= l < |r.lists| ensures ListSound(r, l) {
        assert ListSound(c, l);
      }
    }
  }

  lemma {:induction false} MaximumIsInvisible(c: Context, current: nat)
    requires Consistent(c)
    ensures var r := c.(currentMax := current);
            Consistent(r) && View(r) == View(c)
  {
    hide Consistent, Fix, EagerEvict, Fields;
    MaximumIsBookkeeping(c, current);
    FixEvicts(c, 0);
    FixEvicts(c.(currentMax := current), 0);
  }

  // The decoder

  datatype Step =
    | Emit(field: Field, context: Context, next: nat)
    | Update(context: Context, next: nat)
    | Reject // the source returns 1
    | Crash // the source reads outside the block or dereferences NULL

  ghost predicate Ready(c: Context) {
    Consistent(c) && Named(c) && IndexExact(c) && Settled(c)
  }

  function Added(c: Context, f: Field): (r: Context)
    requires Ready(c)
    ensures Ready(r) && r.maxSize == c.maxSize && r.pushIndex == c.pushIndex + 1
    ensures View(r) == EagerAdd(View(c), c.maxSize, f)
  {
    hide FieldSize, View, EagerAdd, IndexExact;
    AddDecodedKeepsExact(c, f);
    var d := Fix(c, FieldSize(f));
    NamedListExists(d, f.name);
    AddRefinesEager(c, f, if f.name in d.lookup then Some(d.lookup[f.name]) else None, 1);
    AddDecoded(c, f)
  }

  function Looked(c: Context, index: nat): (r: (Option<Field>, Context))
    requires Ready(c)
    ensures Ready(r.1) && r.1.maxSize == c.maxSize && r.1.pushIndex == c.pushIndex
    ensures r.0 == EagerLookup(View(c), index) && View(r.1) == View(c)
  {
    hide Lookup, View, IndexExact, EagerLookup;
    LookupKeeps(c, index);
    LookupRefinesEager(c, index);
    LookupKeepsPush(c, index);
    Lookup(c, index)
  }

  lemma LookupKeepsPush(c: Context, index: nat)
    requires Consistent(c)
    ensures Lookup(c, index).1.pushIndex == c.pushIndex
  {
  }

  function Updated(c: Context, current: nat): (r: Context)
    requires Ready(c)
    ensures Ready(r) && r.maxSize == c.maxSize && r.pushIndex == c.pushIndex && View(r) == View(c)
  {
    hide View, Consistent, Named, IndexExact, Settled;
    MaximumIsBookkeeping(c, current);
    MaximumIsInvisible(c, current);
    c.(currentMax := current)
  }

  /** A literal whose name is a string as well. */
  function DecodeNewName(c: Context, data: seq<Octet>, at: nat, indexing: bool): Step
    requires Ready(c)
  {
    match ReadString(data, at)
    case StringAt(name, next) =>
      (match ReadString(data, next)
       case StringAt(value, end) =>
         Emit(Field(Lower(name), value), if indexing then Added(c, Field(name, value)) else c, end)
       case _ => Crash)
    case _ => Crash
  }

  /** A literal whose name is taken from the tables; the value is read before the index is looked up. */
  function DecodeKnownName(c: Context, data: seq<Octet>, at: nat, index: nat, indexing: bool): Step
    requires Ready(c)
  {
    match ReadString(data, at)
    case StringFault => Crash
    case NullString(_) => if Looked(c, index).0.None? then Reject else Crash
    case StringAt(value, end) =>
      var (entry, d) := Looked(c, index);
      match entry
      case None => Reject
      case Some(g) =>
        Emit(Field(Lower(g.name), value), if indexing then Added(d, Field(g.name, value)) else d, end)
  }

  function DecodeIndexed(c: Context, index: nat, next: nat): Step
    requires Ready(c)
  {
    if index == 0 then Reject
    else
      var (entry, d) := Looked(c, index);
      match entry
      case None => Reject
      case Some(g) => Emit(Field(Lower(g.name), g.value), d, next)
  }

  function LowBits(octet: Octet, n: nat): Octet {
    RemainderFits(octet, Pow2(n));
    octet % Pow2(n)
  }

  lemma RemainderFits(a: nat, b: nat)
    requires b > 0
    ensures a % b <= a
  {
  }

  /** The first octet tells what follows its integer. */
  function DecodeKind(c: Context, data: seq<Octet>, octet: Octet, index: nat, next: nat): Step
    requires Ready(c)
  {
    if octet >= 128 then DecodeIndexed(c, index, next)
    else if 32 <= octet < 64 then
      if index > c.maxSize then Reject else Update(Updated(c, index), next)
    else if index == 0 then DecodeNewName(c, data, next, octet >= 64)
    else DecodeKnownName(c, data, next, index, octet >= 64)
  }

  /** One turn of the loop in `hpack_decode`. */
  function DecodeStep(c: Context, data: seq<Octet>, i: nat): Step
    requires Ready(c) && i < |data|
  {
    var octet := data[i];
    var n := if octet >= 128 then 7 else if octet >= 64 then 6 else if octet >= 32 then 5 else 4;
    match ReadInteger(LowBits(octet, n), n, data, i + 1)
    case OverRead => Crash
    case IntegerAt(index, next) => DecodeKind(c, data, octet, index, next)
  }

  lemma {:induction false} StepAdvances(c: Context, data: seq<Octet>, i: nat)
    requires Ready(c) && i < |data|
    ensures match DecodeStep(c, data, i)
            case Emit(_, d, next) => Ready(d) && i < next <= |data|
            case Update(d, next) => Ready(d) && i < next <= |data|
            case _ => true
  {
    hide Ready, Pow2, Lower, ReadString, ReadInteger, Added, Looked, Updated;
  }

  datatype Outcome = Done(fields: seq<Field>, context: Context) | Rejected | Crashed

  /** `hpack_decode` from octet `i` on, with the fields so far in `fields`. */
  function DecodeFromOctet(c: Context, data: seq<Octet>, i: nat, fields: seq<Field>): Outcome
    requires Ready(c)
    decreases |data| - i
  {
    if i >= |data| then Done(fields, c)
    else
      StepAdvances(c, data, i);
      match DecodeStep(c, data, i)
      case Emit(f, d, next) => DecodeFromOctet(d, data, next, fields + [f])
      case Update(d, next) => DecodeFromOctet(d, data, next, fields)
      case Reject => Rejected
      case Crash => Crashed
  }

  /** Decoding only ever appends. */
  lemma {:induction false} DecodingAppends(c: Context, data: seq<Octet>, i: nat, fields: seq<Field>)
    requires Ready(c)
    ensures DecodeFromOctet(c, data, i, fields).Done? ==> fields <= DecodeFromOctet(c, data, i, fields).fields
    decreases |data| - i
  {
    hide Ready, DecodeStep;
    if i < |data| {
      StepAdvances(c, data, i);
      match DecodeStep(c, data, i)
      case Emit(f, d, next) => DecodingAppends(d, data, next, fields + [f]);
      case Update(d, next) => DecodingAppends(d, data, next, fields);
      case Reject =>
      case Crash =>
    }
  }

  lemma {:induction false} DecodingKeepsReady(c: Context, data: seq<Octet>, i: nat, fields: seq<Field>)
    requires Ready(c)
    ensures var o := DecodeFromOctet(c, data, i, fields); o.Done? ==> Ready(o.context)
    decreases |data| - i
  {
    hide Ready, DecodeStep;
    if i < |data| {
      StepAdvances(c, data, i);
      match DecodeStep(c, data, i)
      case Emit(f, d, next) => DecodingKeepsReady(d, data, next, fields + [f]);
      case Update(d, next) => DecodingKeepsReady(d, data, next, fields);
      case Reject =>
      case Crash =>
    }
  }
}
