/** HTTP/2 frames (sections 4.1 and 6 of RFC 7540): `serialize_frame` and `parse_frame`. */
module Http2Frame {
  import opened BitStrings
  import opened HpackInteger
  import opened ByteBuffer

  type U32 = x: int | 0 <= x < 0x1_0000_0000
  type U64 = x: int | 0 <= x < 0x1_0000_0000_0000_0000

  const TOP: nat := 0x8000_0000
  const LENGTH_LIMIT: nat := 0x100_0000

  datatype Setting = Setting(key: U16, value: U32)

  datatype Payload =
    | Data(data: seq<Octet>)
    | Headers(exclusive: Octet, dependency: U32, weight: Octet, data: seq<Octet>)
    | Priority(exclusive: Octet, dependency: U32, weight: Octet)
    | RstStream(errorCode: U32)
    | Settings(entries: seq<Setting>)
    | PushPromise(promised: U32, data: seq<Octet>)
    | Ping(opaqueData: U64)
    | GoAway(lastStream: U32, errorCode: U32)
    | WindowUpdate(increment: U32)
    | Continuation(data: seq<Octet>)
    | Unknown(kind: Octet)

  datatype Frame = Frame(flags: Octet, stream: U32, payload: Payload)

  function Kind(p: Payload): Octet {
    match p
    case Data(_) => 0
    case Headers(_, _, _, _) => 1
    case Priority(_, _, _) => 2
    case RstStream(_) => 3
    case Settings(_) => 4
    case PushPromise(_, _) => 5
    case Ping(_) => 6
    case GoAway(_, _) => 7
    case WindowUpdate(_) => 8
    case Continuation(_) => 9
    case Unknown(kind) => kind
  }

  predicate EndStreamFlag(flags: Octet) {
    flags % 2 == 1
  }

  predicate EndHeadersFlag(flags: Octet) {
    flags / 4 % 2 == 1
  }

  predicate PaddedFlag(flags: Octet) {
    flags / 8 % 2 == 1
  }

  predicate PriorityFlag(flags: Octet) {
    flags / 32 % 2 == 1
  }

  // Numbers

  function Be2(v: U16): (s: seq<Octet>)
    ensures |s| == 2
  {
    [v / 0x100, v % 0x100]
  }

  function Be4(v: U32): (s: seq<Octet>)
    ensures |s| == 4
  {
    [v / 0x100_0000, v / 0x1_0000 % 0x100, v / 0x100 % 0x100, v % 0x100]
  }

  function Read2(s: seq<Octet>, i: nat): U16
    requires i + 2 <= |s|
  {
    (s[i] as int) * 0x100 + s[i + 1]
  }

  function Read3(s: seq<Octet>): nat
    requires |s| >= 3
  {
    (s[0] as int) * 0x1_0000 + (s[1] as int) * 0x100 + s[2]
  }

  function Read4(s: seq<Octet>, i: nat): U32
    requires i + 4 <= |s|
  {
    (s[i] as int) * 0x100_0000 + (s[i + 1] as int) * 0x1_0000 + (s[i + 2] as int) * 0x100 + s[i + 3]
  }

  /** `v << 1 >> 1` on 32 bits. */
  function ClearTop(v: U32): U32 {
    v % TOP
  }

  /** `v | (uint32_t) bit << 31` */
  function SetTop(v: U32, bit: Octet): U32 {
    if bit % 2 == 1 && v < TOP then v + TOP else v
  }

  /** The in-memory octets of a 64-bit number on the little-endian host. */
  function HostOctets8(v: U64): (s: seq<Octet>)
    ensures |s| == 8
  {
    var low, high := v % 0x1_0000_0000, v / 0x1_0000_0000;
    [low % 0x100, low / 0x100 % 0x100, low / 0x1_0000 % 0x100, low / 0x100_0000,
     high % 0x100, high / 0x100 % 0x100, high / 0x1_0000 % 0x100, high / 0x100_0000]
  }

  /** The same number with its octets in the opposite order. */
  function ByteSwap(v: U64): U64 {
    var s := HostOctets8(v);
    Read4(s, 0) * 0x1_0000_0000 + Read4(s, 4)
  }

  // Printing

  function SettingOctets(entries: seq<Setting>): (s: seq<Octet>)
    ensures |s| == 6 * |entries|
  {
    if entries == [] then [] else Be2(entries[0].key) + Be4(entries[0].value) + SettingOctets(entries[1..])
  }

  function PadField(flags: Octet, padding: Octet): seq<Octet> {
    if PaddedFlag(flags) then [padding] else []
  }

  function PadTail(flags: Octet, padding: Octet): seq<Octet> {
    if PaddedFlag(flags) then seq(padding, _ => 0) else []
  }

  function PriorityField(flags: Octet, exclusive: Octet, dependency: U32, weight: Octet): seq<Octet> {
    if PriorityFlag(flags) then Be4(SetTop(dependency, exclusive)) + [weight] else []
  }

  /** The octets after the 9-octet header. */
  function Body(f: Frame, padding: Octet): seq<Octet> {
    match f.payload
    case Data(data) => PadField(f.flags, padding) + data + PadTail(f.flags, padding)
    case Headers(exclusive, dependency, weight, data) =>
      PadField(f.flags, padding) + PriorityField(f.flags, exclusive, dependency, weight) + data
          + PadTail(f.flags, padding)
    case Priority(exclusive, dependency, weight) => Be4(SetTop(dependency, exclusive)) + [weight]
    case RstStream(errorCode) => Be4(errorCode)
    case Settings(entries) => SettingOctets(entries)
    case PushPromise(promised, data) =>
      PadField(f.flags, padding) + Be4(promised) + data + PadTail(f.flags, padding)
    case Ping(data) => HostOctets8(data)
    case GoAway(lastStream, errorCode) => Be4(lastStream) + Be4(errorCode)
    case WindowUpdate(increment) => Be4(increment)
    case Continuation(data) => data
    case Unknown(_) => []
  }

  /** DATA, HEADERS and PUSH_PROMISE add the padding to their length whether or not it is sent. */
  predicate CountsPadding(p: Payload) {
    p.Data? || p.Headers? || p.PushPromise?
  }

  /** The number whose low 24 bits go into the length field. */
  function DeclaredLength(f: Frame, padding: Octet): nat {
    var body := |Body(f, padding)|;
    if CountsPadding(f.payload) && !PaddedFlag(f.flags) then body + padding else body
  }

  /** The low 24 bits. */
  function Be3(v: nat): (s: seq<Octet>)
    ensures |s| == 3
  {
    [v / 0x1_0000 % 0x100, v / 0x100 % 0x100, v % 0x100]
  }

  function Serialize(f: Frame, padding: Octet): seq<Octet> {
    Be3(DeclaredLength(f, padding)) + [Kind(f.payload), f.flags] + Be4(f.stream) + Body(f, padding)
  }

  // Parsing

  datatype Parsed = Accepted(frame: Frame) | FrameSizeError | ProtocolError

  datatype ParsedBody = Good(payload: Payload) | BadSize | BadKind

  function SettingsAt(body: seq<Octet>, i: nat, count: nat): (r: seq<Setting>)
    requires i + 6 * count <= |body|
    ensures |r| == count
    decreases count
  {
    if count == 0 then [] else [Setting(Read2(body, i), Read4(body, i + 2))] + SettingsAt(body, i + 6, count - 1)
  }

  /** The remaining payload after the fields that took `i` octets: the source subtracts the padding from
      the length, modulo the word, and insists that the rest of the frame has exactly that length. */
  predicate RestFits(length: nat, padding: Octet, i: nat) {
    (length - padding - i) % WORD == length - i
  }

  function ParseBody(kind: Octet, flags: Octet, body: seq<Octet>): ParsedBody {
    var length := |body|;
    match kind
    case 0 =>
      if PaddedFlag(flags) && length < 1 then BadSize
      else
        var padding, i := if PaddedFlag(flags) then body[0] else 0, if PaddedFlag(flags) then 1 else 0;
        if !RestFits(length, padding, i) then BadSize else Good(Data(body[i..]))
    case 1 =>
      if PaddedFlag(flags) && length < 1 then BadSize
      else
        var padding, i := if PaddedFlag(flags) then body[0] else 0, if PaddedFlag(flags) then 1 else 0;
        if PriorityFlag(flags) then
          if length - i < 5 then BadSize
          else if !RestFits(length, padding, i + 5) then BadSize
          else
            var word := Read4(body, i);
            Good(Headers(word / TOP, ClearTop(word), body[i + 4], body[i + 5..]))
        else if !RestFits(length, padding, i) then BadSize
        else Good(Headers(0, 0, 0, body[i..]))
    case 2 =>
      if length != 5 then BadSize
      else Good(Priority(Read4(body, 0) / TOP, ClearTop(Read4(body, 0)), body[4]))
    case 3 => if length != 4 then BadSize else Good(RstStream(Read4(body, 0)))
    case 4 => if length % 6 != 0 then BadSize else Good(Settings(SettingsAt(body, 0, length / 6)))
    case 5 =>
      if PaddedFlag(flags) && length < 1 then BadSize
      else
        var padding, i := if PaddedFlag(flags) then body[0] else 0, if PaddedFlag(flags) then 1 else 0;
        if length - i < 4 || !RestFits(length, padding, i + 4) then BadSize
        else Good(PushPromise(ClearTop(Read4(body, i)), body[i + 4..]))
    case 6 => if length != 8 then BadSize else Good(Ping(Read4(body, 0) * 0x1_0000_0000 + Read4(body, 4)))
    case 7 => if length < 8 then BadSize else Good(GoAway(ClearTop(Read4(body, 0)), Read4(body, 4)))
    case 8 => if length != 4 then BadSize else Good(WindowUpdate(ClearTop(Read4(body, 0))))
    case 9 => Good(Continuation(body))
    case _ => BadKind
  }

  /** `parse_frame` on a header and `|data| - 9` octets after it. */
  function Parse(data: seq<Octet>): Parsed
    requires |data| >= 9
  {
    if Read3(data) != |data| - 9 then FrameSizeError
    else
      match ParseBody(data[3], data[4], data[9..])
      case Good(payload) => Accepted(Frame(data[4], ClearTop(Read4(data, 5)), payload))
      case BadSize => FrameSizeError
      case BadKind => ProtocolError
  }

  // The round trip

  lemma {:induction false} Digits(v: nat)
    ensures v == v / 0x100_0000 * 0x100_0000 + v / 0x1_0000 % 0x100 * 0x1_0000 + v / 0x100 % 0x100 * 0x100 + v % 0x100
  {
    var a := v / 0x100;
    var b := a / 0x100;
    var c := b / 0x100;
    Quotients(v);
    assert v == a * 0x100 + v % 0x100 && a == b * 0x100 + a % 0x100 && b == c * 0x100 + b % 0x100;
  }

  lemma {:induction false} Quotients(v: nat)
    ensures v / 0x1_0000 == v / 0x100 / 0x100 && v / 0x100_0000 == v / 0x100 / 0x100 / 0x100
  {
  }

  lemma {:induction false} Number3(n: nat)
    ensures Read3(Be3(n)) == n % LENGTH_LIMIT
  {
    Digits(n);
  }

  lemma {:induction false} Number4(v: U32, s: seq<Octet>, i: nat)
    requires i + 4 <= |s| && s[i..i + 4] == Be4(v)
    ensures Read4(s, i) == v
  {
    var w := s[i..i + 4];
    assert s[i] == w[0] && s[i + 1] == w[1] && s[i + 2] == w[2] && s[i + 3] == w[3];
    Digits(v);
  }

  /** A 32-bit word in its place. */
  lemma {:induction false} WordAfter(before: seq<Octet>, v: U32, after: seq<Octet>)
    ensures var s := before + Be4(v) + after;
            Read4(s, |before|) == v && s[|before| + 4..] == after
  {
    hide Read4, Be4;
    var s := before + Be4(v) + after;
    assert s[|before|..|before| + 4] == Be4(v);
    Number4(v, s, |before|);
  }

  lemma {:induction false} SettingsRead(entries: seq<Setting>, body: seq<Octet>, i: nat)
    requires i + 6 * |entries| == |body| && body[i..] == SettingOctets(entries)
    ensures SettingsAt(body, i, |entries|) == entries
    decreases |entries|
  {
    if entries != [] {
      var first, rest := entries[0], SettingOctets(entries[1..]);
      var w := Be2(first.key) + Be4(first.value) + rest;
      assert body[i..] == w && body[i] == w[0] && body[i + 1] == w[1];
      assert body[i + 2..i + 6] == w[2..6] == Be4(first.value);
      Number4(first.value, body, i + 2);
      assert body[i + 6..] == w[6..] == rest;
      SettingsRead(entries[1..], body, i + 6);
    }
  }

  /** What the parser makes of a printed frame: reserved and top bits cleared, PING swapped. */
  function Normalized(f: Frame): Frame {
    Frame(f.flags, ClearTop(f.stream),
          match f.payload
          case Headers(exclusive, dependency, weight, data) =>
            if PriorityFlag(f.flags)
            then Headers(SetTop(dependency, exclusive) / TOP, ClearTop(dependency), weight, data)
            else Headers(0, 0, 0, data)
          case Priority(exclusive, dependency, weight) =>
            Priority(SetTop(dependency, exclusive) / TOP, ClearTop(dependency), weight)
          case PushPromise(promised, data) => PushPromise(ClearTop(promised), data)
          case Ping(data) => Ping(ByteSwap(data))
          case GoAway(lastStream, errorCode) => GoAway(ClearTop(lastStream), errorCode)
          case WindowUpdate(increment) => WindowUpdate(ClearTop(increment))
          case _ => f.payload)
  }

  /** No padding takes part: the parser accepts a padded frame only with zero padding octets, and the
      printer counts padding it does not send. */
  ghost predicate NoPadding(f: Frame, padding: Octet) {
    CountsPadding(f.payload) ==> padding == 0
  }

  lemma RestFitsExactly(length: nat, padding: Octet, i: nat)
    requires i <= length < WORD
    ensures RestFits(length, padding, i) <==> padding == 0
  {
  }

  lemma {:induction false} DataBody(f: Frame, padding: Octet)
    requires f.payload.Data? && |Body(f, padding)| < WORD
    ensures ParseBody(0, f.flags, Body(f, padding))
         == if PaddedFlag(f.flags) && padding != 0 then BadSize else Good(f.payload)
  {
    var body, data := Body(f, padding), f.payload.data;
    var i := |PadField(f.flags, padding)|;
    RestFitsExactly(|body|, if PaddedFlag(f.flags) then body[0] else 0, i);
    assert body[i..] == data + PadTail(f.flags, padding);
    assert padding == 0 || !PaddedFlag(f.flags) ==> data + PadTail(f.flags, padding) == data;
  }

  lemma {:induction false} HeadersBody(f: Frame, padding: Octet)
    requires f.payload.Headers? && |Body(f, padding)| < WORD
    ensures ParseBody(1, f.flags, Body(f, padding))
         == if PaddedFlag(f.flags) && padding != 0 then BadSize else Good(Normalized(f).payload)
  {
    hide Read4, Be4;
    var p, pad, tail := f.payload, PadField(f.flags, padding), f.payload.data + PadTail(f.flags, padding);
    var body := Body(f, padding);
    var word := SetTop(p.dependency, p.exclusive);
    assert PaddedFlag(f.flags) ==> body[0] == padding;
    assert padding == 0 || !PaddedFlag(f.flags) ==> tail == p.data;
    if PriorityFlag(f.flags) {
      RestFitsExactly(|body|, if PaddedFlag(f.flags) then padding else 0, |pad| + 5);
      assert body == pad + Be4(word) + ([p.weight] + tail);
      WordAfter(pad, word, [p.weight] + tail);
      assert body[|pad| + 4] == body[|pad| + 4..][0] == p.weight;
      assert body[|pad| + 5..] == body[|pad| + 4..][1..] == tail;
      TopParts(p.dependency, p.exclusive);
    } else {
      RestFitsExactly(|body|, if PaddedFlag(f.flags) then padding else 0, |pad|);
      var i := if PaddedFlag(f.flags) then 1 else 0;
      assert i == |pad| && body[i..] == tail;
    }
  }

  lemma {:induction false} TopParts(v: U32, bit: Octet)
    ensures ClearTop(SetTop(v, bit)) == ClearTop(v) && SetTop(v, bit) / TOP <= 1
  {
  }

  lemma {:induction false} PushPromiseBody(f: Frame, padding: Octet)
    requires f.payload.PushPromise? && |Body(f, padding)| < WORD
    ensures ParseBody(5, f.flags, Body(f, padding))
         == if PaddedFlag(f.flags) && padding != 0 then BadSize else Good(Normalized(f).payload)
  {
    hide Read4, Be4;
    var p, pad, tail := f.payload, PadField(f.flags, padding), f.payload.data + PadTail(f.flags, padding);
    var body := Body(f, padding);
    assert PaddedFlag(f.flags) ==> body[0] == padding;
    assert padding == 0 || !PaddedFlag(f.flags) ==> tail == p.data;
    RestFitsExactly(|body|, if PaddedFlag(f.flags) then padding else 0, |pad| + 4);
    assert body == pad + Be4(p.promised) + tail;
    WordAfter(pad, p.promised, tail);
    var i := if PaddedFlag(f.flags) then 1 else 0;
    assert i == |pad| && |body| - i >= 4;
    assert Read4(body, i) == p.promised && body[i + 4..] == tail;
  }

  lemma {:induction false} FixedBody(f: Frame, padding: Octet)
    requires !CountsPadding(f.payload) && !f.payload.Unknown?
    ensures ParseBody(Kind(f.payload), f.flags, Body(f, padding)) == Good(Normalized(f).payload)
  {
    hide Read4, Be4, HostOctets8, SettingOctets;
    var body := Body(f, padding);
    match f.payload
    case Priority(exclusive, dependency, weight) =>
      assert body[0..4] == Be4(SetTop(dependency, exclusive));
      Number4(SetTop(dependency, exclusive), body, 0);
    case RstStream(errorCode) =>
      assert body[0..4] == Be4(errorCode);
      Number4(errorCode, body, 0);
    case Settings(entries) =>
      assert body[0..] == SettingOctets(entries);
      SettingsRead(entries, body, 0);
    case Ping(data) =>
    case GoAway(lastStream, errorCode) =>
      assert body[0..4] == Be4(lastStream) && body[4..8] == Be4(errorCode);
      Number4(lastStream, body, 0);
      Number4(errorCode, body, 4);
    case WindowUpdate(increment) =>
      assert body[0..4] == Be4(increment);
      Number4(increment, body, 0);
    case Continuation(data) =>
  }

  /** Printing then parsing a frame of a known kind: the normalised frame, or a size error. */
  lemma {:induction false} ParseOfSerialize(f: Frame, padding: Octet)
    requires |Body(f, padding)| < WORD && !f.payload.Unknown?
    ensures Parse(Serialize(f, padding))
         == if |Body(f, padding)| < LENGTH_LIMIT && NoPadding(f, padding) then Accepted(Normalized(f))
             else FrameSizeError
  {
    hide Body, ParseBody, Be4, Read4, Be3, Read3, Normalized;
    NormalizedParts(f);
    var s, body := Serialize(f, padding), Body(f, padding);
    var length := DeclaredLength(f, padding);
    HeaderOctets(length, Kind(f.payload), f.flags, f.stream, body);
    if f.payload.Data? { DataBody(f, padding); }
    else if f.payload.Headers? { HeadersBody(f, padding); }
    else if f.payload.PushPromise? { PushPromiseBody(f, padding); }
    else { FixedBody(f, padding); }
  }

  lemma NormalizedParts(f: Frame)
    ensures Normalized(f) == Frame(f.flags, ClearTop(f.stream), Normalized(f).payload)
    ensures f.payload.Data? ==> Normalized(f).payload == f.payload
  {
  }

  lemma {:induction false} HeaderOctets(length: nat, kind: Octet, flags: Octet, stream: U32, body: seq<Octet>)
    ensures var s := Be3(length) + [kind, flags] + Be4(stream) + body;
            && Read3(s) == length % LENGTH_LIMIT
            && s[3] == kind && s[4] == flags && Read4(s, 5) == stream && s[9..] == body
  {
    hide Be4, Read4, Be3;
    var head := Be3(length) + [kind, flags];
    var s := head + Be4(stream) + body;
    WordAfter(head, stream, body);
    Number3(length);
    assert s[0] == Be3(length)[0] && s[1] == Be3(length)[1] && s[2] == Be3(length)[2];
  }

  /** The frames that come back: 31-bit identifiers, a one-bit exclusive flag, no priority fields without
      the priority flag, and a PING whose octets read the same in both orders. */
  ghost predicate Canonical(f: Frame) {
    && f.stream < TOP
    && match f.payload
       case Headers(exclusive, dependency, weight, _) =>
         if PriorityFlag(f.flags) then exclusive <= 1 && dependency < TOP
         else exclusive == 0 && dependency == 0 && weight == 0
       case Priority(exclusive, dependency, _) => exclusive <= 1 && dependency < TOP
       case PushPromise(promised, _) => promised < TOP
       case Ping(data) => ByteSwap(data) == data
       case GoAway(lastStream, _) => lastStream < TOP
       case WindowUpdate(increment) => increment < TOP
       case _ => true
  }

  /** `parse_frame` undoes `serialize_frame` exactly on canonical frames of less than 2^24 octets that are
      printed without padding. */
  lemma {:induction false} FrameRoundTrip(f: Frame, padding: Octet)
    requires |Body(f, padding)| < WORD && !f.payload.Unknown?
    ensures Parse(Serialize(f, padding)) == Accepted(f)
       <==> |Body(f, padding)| < LENGTH_LIMIT && NoPadding(f, padding) && Canonical(f)
  {
    hide Body, Parse, Serialize, ByteSwap;
    ParseOfSerialize(f, padding);
  }

  /** The length field counts the octets after the header exactly when there are fewer than 2^24 of them
      and no padding is counted without being sent. */
  lemma {:induction false} LengthField(f: Frame, padding: Octet)
    ensures Read3(Serialize(f, padding)) == |Serialize(f, padding)| - 9
       <==> |Body(f, padding)| < LENGTH_LIMIT && (NoPadding(f, padding) || PaddedFlag(f.flags))
  {
    hide Body, Be3, Be4, Read3;
    HeaderOctets(DeclaredLength(f, padding), Kind(f.payload), f.flags, f.stream, Body(f, padding));
  }

  /** A PING of 1 comes back as 2^56, and a padded frame does not come back at all. */
  lemma {:induction false} PingAndPaddingFail()
    ensures Parse(Serialize(Frame(0, 0, Ping(1)), 0)) == Accepted(Frame(0, 0, Ping(0x100_0000_0000_0000)))
    ensures Parse(Serialize(Frame(8, 1, Data([7])), 1)) == FrameSizeError
  {
    hide Parse, Serialize;
    ParseOfSerialize(Frame(0, 0, Ping(1)), 0);
    ParseOfSerialize(Frame(8, 1, Data([7])), 1);
  }

  /** Whatever the parser accepts, other than a PING, prints and parses to itself. */
  lemma {:induction false} AcceptedIsCanonical(data: seq<Octet>, f: Frame)
    requires |data| >= 9 && Parse(data) == Accepted(f) && !f.payload.Ping?
    ensures Canonical(f) && Parse(Serialize(f, 0)) == Accepted(f)
  {
    hide Read4, Parse, Serialize, Body, Canonical, SettingsAt;
    AcceptedParts(data, f);
    AcceptedIsShort(data[3], data[4], data[9..], f);
    FrameRoundTrip(f, 0);
  }

  lemma {:induction false} AcceptedParts(data: seq<Octet>, f: Frame)
    requires |data| >= 9 && Parse(data) == Accepted(f) && !f.payload.Ping?
    ensures Canonical(f) && |data| - 9 < LENGTH_LIMIT && f.flags == data[4]
    ensures ParseBody(data[3], data[4], data[9..]) == Good(f.payload)
  {
    hide Read4, SettingsAt;
  }

  lemma {:induction false} AcceptedIsShort(kind: Octet, flags: Octet, body: seq<Octet>, f: Frame)
    requires ParseBody(kind, flags, body) == Good(f.payload) && f.flags == flags && |body| < LENGTH_LIMIT
    ensures |Body(f, 0)| <= |body| && !f.payload.Unknown?
  {
    hide Read4, ClearTop, Be4, HostOctets8;
  }

  // The imperative printer

  method Store4(header: array<Octet>, i: nat, v: U32)
    requires i + 4 <= header.Length
    modifies header
    ensures header[..i + 4] == old(header[..i]) + Be4(v)
  {
    hide Be4;
    var w := Be4(v);
    for k := 0 to 4
      invariant header[..i] == old(header[..i]) && header[i..i + k] == w[..k]
    {
      header[i + k] := w[k];
    }
    assert header[..i + 4] == header[..i] + header[i..i + 4];
  }

  method Store1(header: array<Octet>, i: nat, o: Octet)
    requires i < header.Length
    modifies header
    ensures header[..i + 1] == old(header[..i]) + [o]
  {
    header[i] := o;
  }

  /** `SET_LENGTH(x)`, then the header and what follows it are pushed. */
  method Finish(header: array<Octet>, i: nat, x: nat, data: seq<Octet>, tail: seq<Octet>, buffer: Buffer)
    requires 9 <= i <= header.Length && x >= 9
    modifies header, buffer
    ensures buffer.octets == old(buffer.octets) + (Be3(x - 9) + old(header[3..i]) + data + tail)
  {
    header[0] := (x - 9) / 0x1_0000 % 0x100;
    header[1] := (x - 9) / 0x100 % 0x100;
    header[2] := (x - 9) % 0x100;
    assert header[..i] == Be3(x - 9) + old(header[3..i]);
    buffer.Push(header[..i]);
    buffer.Push(data);
    buffer.Push(tail);
  }

  /** The part of the body that goes into the header array, the payload data, and the padding. */
  ghost function Lead(f: Frame, padding: Octet): seq<Octet> {
    match f.payload
    case Data(_) => PadField(f.flags, padding)
    case Headers(exclusive, dependency, weight, _) =>
      PadField(f.flags, padding) + PriorityField(f.flags, exclusive, dependency, weight)
    case Priority(exclusive, dependency, weight) => Be4(SetTop(dependency, exclusive)) + [weight]
    case RstStream(errorCode) => Be4(errorCode)
    case PushPromise(promised, _) => PadField(f.flags, padding) + Be4(promised)
    case Ping(data) => HostOctets8(data)
    case GoAway(lastStream, errorCode) => Be4(lastStream) + Be4(errorCode)
    case WindowUpdate(increment) => Be4(increment)
    case _ => []
  }

  ghost function DataPart(f: Frame): seq<Octet> {
    match f.payload
    case Settings(entries) => SettingOctets(entries)
    case Continuation(data) => data
    case _ => if CountsPadding(f.payload) then f.payload.data else []
  }

  ghost function Tail(f: Frame, padding: Octet): seq<Octet> {
    if CountsPadding(f.payload) then PadTail(f.flags, padding) else []
  }

  lemma {:induction false} BodyParts(f: Frame, padding: Octet)
    ensures Body(f, padding) == Lead(f, padding) + DataPart(f) + Tail(f, padding)
  {
    hide Be4, HostOctets8, SettingOctets;
  }

  /** The fields after the 9-octet header, up to the payload data. */
  method FillFields(f: Frame, header: array<Octet>, padding: Octet) returns (i: nat)
    requires header.Length == 32
    modifies header
    ensures 9 <= i <= 32 && header[..i] == old(header[..9]) + Lead(f, padding)
  {
    hide Be4, HostOctets8;
    i := 9;
    ghost var start := header[..9];
    if CountsPadding(f.payload) && PaddedFlag(f.flags) {
      Store1(header, i, padding);
      i := i + 1;
    }
    match f.payload {
      case Headers(exclusive, dependency, weight, _) =>
        if PriorityFlag(f.flags) {
          Store4(header, i, SetTop(dependency, exclusive));
          Store1(header, i + 4, weight);
          i := i + 5;
        }
      case Priority(exclusive, dependency, weight) =>
        Store4(header, i, SetTop(dependency, exclusive));
        Store1(header, i + 4, weight);
        i := i + 5;
      case RstStream(errorCode) =>
        Store4(header, i, errorCode);
        i := i + 4;
      case PushPromise(promised, _) =>
        Store4(header, i, promised);
        i := i + 4;
      case Ping(value) =>
        StoreHost8(header, i, value);
        i := i + 8;
      case GoAway(lastStream, errorCode) =>
        Store4(header, i, lastStream);
        Store4(header, i + 4, errorCode);
        i := i + 8;
      case WindowUpdate(increment) =>
        Store4(header, i, increment);
        i := i + 4;
      case _ =>
    }
  }

  method StoreHost8(header: array<Octet>, i: nat, v: U64)
    requires i + 8 <= header.Length
    modifies header
    ensures header[..i + 8] == old(header[..i]) + HostOctets8(v)
  {
    hide HostOctets8;
    var w := HostOctets8(v);
    for k := 0 to 8
      invariant header[..i + k] == old(header[..i]) + w[..k]
    {
      Store1(header, i + k, w[k]);
    }
  }

  /** Type, flags and stream identifier. */
  method StartHeader(f: Frame) returns (header: array<Octet>)
    ensures fresh(header) && header.Length == 32 && header[3..9] == [Kind(f.payload), f.flags] + Be4(f.stream)
  {
    hide Be4;
    header := new Octet[32](_ => 0);
    Store1(header, 3, Kind(f.payload));
    Store1(header, 4, f.flags);
    Store4(header, 5, f.stream);
    assert header[3..9] == header[..9][3..];
  }

  method PayloadData(f: Frame) returns (data: seq<Octet>)
    ensures data == DataPart(f)
  {
    hide SettingOctets;
    match f.payload {
      case Settings(entries) => data := PrintSettings(entries);
      case Data(d) => data := d;
      case Headers(_, _, _, d) => data := d;
      case PushPromise(_, d) => data := d;
      case Continuation(d) => data := d;
      case _ => data := [];
    }
  }

  /** `serialize_frame` */
  method SerializeFrame(f: Frame, buffer: Buffer, padding: Octet) returns (status: int)
    modifies buffer
    ensures if f.payload.Unknown? then status == -1 && buffer.octets == old(buffer.octets)
            else status == 0 && buffer.octets == old(buffer.octets) + Serialize(f, padding)
  {
    hide Be4, Be3, Lead, DataPart, PadTail, Body, DeclaredLength;
    if f.payload.Unknown? {
      return -1;
    }
    var header := StartHeader(f);
    ghost var fixed, lead := [Kind(f.payload), f.flags] + Be4(f.stream), Lead(f, padding);
    var i := FillFields(f, header, padding);
    assert header[3..i] == header[..i][3..] == fixed + lead;
    var data := PayloadData(f);
    var counted: nat := if CountsPadding(f.payload) then padding else 0;
    var tail := if CountsPadding(f.payload) then PadTail(f.flags, padding) else [];
    BodyParts(f, padding);
    LengthCounted(f, padding);
    Finish(header, i, i + counted + |data|, data, tail, buffer);
    Joined(Be3(DeclaredLength(f, padding)), fixed, lead, data, tail);
    return 0;
  }

  lemma Joined(a: seq<Octet>, b: seq<Octet>, c: seq<Octet>, d: seq<Octet>, e: seq<Octet>)
    ensures a + (b + c) + d + e == a + b + (c + d + e)
  {
  }

  lemma {:induction false} LengthCounted(f: Frame, padding: Octet)
    ensures DeclaredLength(f, padding)
         == |Lead(f, padding)| + |DataPart(f)| + (if CountsPadding(f.payload) then padding else 0)
  {
    hide Lead, DataPart, Body;
    BodyParts(f, padding);
  }

  /** The entries in network order. */
  method PrintSettings(entries: seq<Setting>) returns (out: seq<Octet>)
    ensures out == SettingOctets(entries)
  {
    hide Be2, Be4;
    out := [];
    for x := 0 to |entries|
      invariant out + SettingOctets(entries[x..]) == SettingOctets(entries)
    {
      assert entries[x..][1..] == entries[x + 1..];
      assert out + (Be2(entries[x].key) + Be4(entries[x].value) + SettingOctets(entries[x + 1..]))
          == out + Be2(entries[x].key) + Be4(entries[x].value) + SettingOctets(entries[x + 1..]);
      out := out + Be2(entries[x].key) + Be4(entries[x].value);
    }
  }

  // The imperative parser

  /** `parse_frame`, with the payload length given by the number of octets after the header. */
  method ParseFrame(data: seq<Octet>) returns (r: Parsed)
    requires |data| >= 9
    ensures r == Parse(data)
  {
    hide Read4, ParseBody, ClearTop;
    if Read3(data) != |data| - 9 {
      return FrameSizeError;
    }
    var kind, flags, stream := data[3], data[4], ClearTop(Read4(data, 5));
    var body;
    if kind == 0 || kind == 1 || kind == 5 {
      body := ParsePaddable(kind, flags, data[9..]);
    } else {
      body := ParseFixed(kind, flags, data[9..]);
    }
    match body
    case Good(payload) => return Accepted(Frame(flags, stream, payload));
    case BadSize => return FrameSizeError;
    case BadKind => return ProtocolError;
  }

  /** DATA, HEADERS and PUSH_PROMISE. */
  method ParsePaddable(kind: Octet, flags: Octet, data: seq<Octet>) returns (r: ParsedBody)
    requires kind == 0 || kind == 1 || kind == 5
    ensures r == ParseBody(kind, flags, data)
  {
    hide Read4, ClearTop, RestFits;
    var length, i, padding: Octet := |data|, 0, 0;
    if PaddedFlag(flags) {
      if length - i < 1 {
        return BadSize;
      }
      padding := data[i];
      i := i + 1;
    }
    if kind == 0 {
      if !RestFits(length, padding, i) {
        return BadSize;
      }
      return Good(Data(data[i..]));
    }
    if kind == 1 {
      var word: U32, weight: Octet := 0, 0;
      if PriorityFlag(flags) {
        if length - i < 5 {
          return BadSize;
        }
        word := Read4(data, i);
        i := i + 4;
        weight := data[i];
        i := i + 1;
      }
      if !RestFits(length, padding, i) {
        return BadSize;
      }
      ZeroWord();
      return Good(Headers(word / TOP, ClearTop(word), weight, data[i..]));
    }
    if length - i < 4 {
      return BadSize;
    }
    var promised := ClearTop(Read4(data, i));
    i := i + 4;
    if !RestFits(length, padding, i) {
      return BadSize;
    }
    return Good(PushPromise(promised, data[i..]));
  }

  lemma ZeroWord()
    ensures ClearTop(0) == 0
  {
  }

  method ParseSettings(data: seq<Octet>) returns (entries: seq<Setting>)
    ensures entries == SettingsAt(data, 0, |data| / 6)
  {
    hide Read4, Read2;
    entries := [];
    var count, i := |data| / 6, 0;
    for x := 0 to count
      invariant i == 6 * x && entries + SettingsAt(data, i, count - x) == SettingsAt(data, 0, count)
    {
      var setting := Setting(Read2(data, i), Read4(data, i + 2));
      assert entries + ([setting] + SettingsAt(data, i + 6, count - x - 1))
          == entries + [setting] + SettingsAt(data, i + 6, count - x - 1);
      entries := entries + [setting];
      i := i + 6;
    }
    assert entries + [] == entries;
  }

  /** The other kinds. */
  method ParseFixed(kind: Octet, flags: Octet, data: seq<Octet>) returns (r: ParsedBody)
    requires kind != 0 && kind != 1 && kind != 5
    ensures r == ParseBody(kind, flags, data)
  {
    hide Read4, ClearTop;
    var length := |data|;
    match kind {
      case 2 =>
        if length != 5 { return BadSize; }
        var word := Read4(data, 0);
        return Good(Priority(word / TOP, ClearTop(word), data[4]));
      case 3 =>
        if length != 4 { return BadSize; }
        return Good(RstStream(Read4(data, 0)));
      case 4 =>
        if length % 6 != 0 { return BadSize; }
        var entries := ParseSettings(data);
        return Good(Settings(entries));
      case 6 =>
        if length != 8 { return BadSize; }
        return Good(Ping(Read4(data, 0) * 0x1_0000_0000 + Read4(data, 4)));
      case 7 =>
        if length < 8 { return BadSize; }
        return Good(GoAway(ClearTop(Read4(data, 0)), Read4(data, 4)));
      case 8 =>
        if length != 4 { return BadSize; }
        return Good(WindowUpdate(ClearTop(Read4(data, 0))));
      case 9 =>
        return Good(Continuation(data));
      case _ =>
        return BadKind;
    }
  }
}
