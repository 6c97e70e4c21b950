/** FastCGI records: `fcgi_writeFrame`, `fcgi_readFrame`, parameters, and the records of a request body. */
module Fcgi {
  import opened BitStrings
  import opened ByteBuffer
  import opened HpackTable

  const VERSION: Octet := 1
  const PARAMS: Octet := 4
  const STDIN: Octet := 5

  /** `struct fcgi_frame`: `data` is NULL, or points to `len` octets. */
  datatype Frame = Frame(kind: Octet, requestId: U16, len: U16, data: Option<seq<Octet>>)

  ghost predicate Filled(f: Frame) {
    f.data.Some? ==> |f.data.value| == f.len
  }

  // Records

  function Header(kind: Octet, requestId: U16, len: U16, padding: Octet): (s: seq<Octet>)
    ensures |s| == 8
  {
    [VERSION, kind, requestId / 0x100, requestId % 0x100, len / 0x100, len % 0x100, padding, 0]
  }

  function Content(f: Frame): seq<Octet> {
    if f.data.Some? && f.len > 0 then f.data.value else []
  }

  /** What `fcgi_writeFrame` pushes. */
  function Written(f: Frame): seq<Octet> {
    Header(f.kind, f.requestId, f.len, 0) + Content(f)
  }

  datatype Record = Record(kind: Octet, requestId: U16, content: seq<Octet>)

  /** NeedMore is -2, BadVersion -1. */
  datatype ReadResult = Took(record: Record, rest: seq<Octet>) | NeedMore | BadVersion

  function Read(buffer: seq<Octet>): (r: ReadResult)
    ensures r.Took? ==> |r.rest| < |buffer|
  {
    if |buffer| < 8 then NeedMore
    else if buffer[0] != VERSION then BadVersion
    else
      var len := (buffer[4] as int) * 0x100 + buffer[5];
      var padding := buffer[6];
      if |buffer| < 8 + len + padding then NeedMore
      else
        Took(Record(buffer[1], (buffer[2] as int) * 0x100 + buffer[3], buffer[8..8 + len]), buffer[8 + len + padding..])
  }

  /** A record as the specification has it, with any padding. */
  function RecordOctets(r: Record, padding: seq<Octet>): seq<Octet>
    requires |r.content| < 0x1_0000 && |padding| < 0x100
  {
    Header(r.kind, r.requestId, |r.content|, |padding|) + r.content + padding
  }

  lemma {:induction false} ReadRecord(r: Record, padding: seq<Octet>, more: seq<Octet>)
    requires |r.content| < 0x1_0000 && |padding| < 0x100
    ensures Read(RecordOctets(r, padding) + more) == Took(r, more)
  {
    var head := Header(r.kind, r.requestId, |r.content|, |padding|);
    var buffer := RecordOctets(r, padding) + more;
    assert buffer == head + (r.content + padding + more);
    assert forall i :: 0 <= i < 8 ==> buffer[i] == head[i];
    var rest := r.content + padding + more;
    assert buffer[8..8 + |r.content|] == rest[..|r.content|] == r.content;
    assert buffer[8 + |r.content| + |padding|..] == rest[|r.content| + |padding|..] == more;
  }

  function RecordOf(f: Frame): Record {
    Record(f.kind, f.requestId, Content(f))
  }

  /** A written frame is read back as itself exactly when its data is there or its length is zero. */
  lemma {:induction false} WrittenIsRead(f: Frame)
    requires Filled(f)
    ensures Read(Written(f)) == Took(RecordOf(f), []) <==> f.data.Some? || f.len == 0
    ensures f.data.None? && f.len > 0 ==> Read(Written(f)) == NeedMore
  {
    var w := Written(f);
    if f.data.Some? || f.len == 0 {
      ReadRecord(RecordOf(f), [], []);
      assert w == RecordOctets(RecordOf(f), []) + [];
    } else {
      assert w == Header(f.kind, f.requestId, f.len, 0);
      assert (w[4] as int) * 0x100 + w[5] == f.len;
    }
  }

  // Any segmentation

  /** Reads as long as there are records. */
  function Collect(buffer: seq<Octet>): (r: (seq<Record>, seq<Octet>))
    ensures |r.1| <= |buffer|
    decreases |buffer|
  {
    match Read(buffer)
    case Took(record, rest) => var (more, last) := Collect(rest); ([record] + more, last)
    case _ => ([], buffer)
  }

  lemma {:induction false} CollectSplit(a: seq<Octet>, b: seq<Octet>)
    ensures var (records, left) := Collect(a);
            Collect(a + b) == (records + Collect(left + b).0, Collect(left + b).1)
    decreases |a|
  {
    hide Read;
    match Read(a)
    case Took(record, rest) =>
      ReadLonger(a, b);
      CollectSplit(rest, b);
      var (records, left) := Collect(rest);
      assert [record] + (records + Collect(left + b).0) == [record] + records + Collect(left + b).0;
    case _ =>
      assert [] + Collect(a + b).0 == Collect(a + b).0;
  }

  lemma {:induction false} ReadLonger(a: seq<Octet>, b: seq<Octet>)
    ensures Read(a).Took? ==> Read(a + b) == Took(Read(a).record, Read(a).rest + b)
    ensures Read(a).BadVersion? ==> Read(a + b).BadVersion?
  {
    if Read(a).Took? {
      var len := (a[4] as int) * 0x100 + a[5];
      var end := 8 + len + a[6];
      assert (a + b)[8..8 + len] == a[8..8 + len];
      assert (a + b)[end..] == a[end..] + b;
    }
  }

  /** Each read pushes a segment and takes what records there are. */
  function Feed(buffer: seq<Octet>, segments: seq<seq<Octet>>): (seq<Record>, seq<Octet>)
    decreases |segments|
  {
    if segments == [] then ([], buffer)
    else
      var (records, left) := Collect(buffer + segments[0]);
      var (more, last) := Feed(left, segments[1..]);
      (records + more, last)
  }

  /** The cut of the octets makes no difference. */
  lemma {:induction false} FeedIsCollect(buffer: seq<Octet>, segments: seq<seq<Octet>>)
    requires Collect(buffer) == ([], buffer)
    ensures Feed(buffer, segments) == Collect(buffer + Concat(segments))
    decreases |segments|
  {
    hide Collect;
    if segments == [] {
      assert buffer + [] == buffer;
    } else {
      var first, rest := segments[0], segments[1..];
      var (records, left) := Collect(buffer + first);
      Exhausted(buffer + first);
      FeedIsCollect(left, rest);
      CollectSplit(buffer + first, Concat(rest));
      assert buffer + first + Concat(rest) == buffer + (first + Concat(rest));
    }
  }

  lemma {:induction false} Exhausted(buffer: seq<Octet>)
    ensures var left := Collect(buffer).1; Collect(left) == ([], left)
    decreases |buffer|
  {
    hide Read;
    match Read(buffer)
    case Took(_, rest) => Exhausted(rest);
    case _ =>
  }

  function AllWritten(frames: seq<Frame>): seq<Octet> {
    if frames == [] then [] else Written(frames[0]) + AllWritten(frames[1..])
  }

  function RecordsOf(frames: seq<Frame>): seq<Record> {
    if frames == [] then [] else [RecordOf(frames[0])] + RecordsOf(frames[1..])
  }

  ghost predicate Sendable(f: Frame) {
    Filled(f) && (f.data.Some? || f.len == 0)
  }

  lemma {:induction false} CollectWritten(frames: seq<Frame>)
    requires forall i :: 0 <= i < |frames| ==> Sendable(frames[i])
    ensures Collect(AllWritten(frames)) == (RecordsOf(frames), [])
  {
    hide Read, Written;
    if frames == [] {
      assert Read([]) == NeedMore by { NothingToRead(); }
    } else {
      var f, rest := frames[0], frames[1..];
      CollectWritten(rest);
      ReadWritten(f, AllWritten(rest));
    }
  }

  lemma NothingToRead()
    ensures Read([]) == NeedMore
  {
  }

  lemma {:induction false} ReadWritten(f: Frame, more: seq<Octet>)
    requires Sendable(f)
    ensures Read(Written(f) + more) == Took(RecordOf(f), more)
  {
    ReadRecord(RecordOf(f), [], more);
    assert Written(f) == RecordOctets(RecordOf(f), []);
  }

  /** However the octets of written frames are cut into reads, exactly these frames are read. */
  lemma {:induction false} FramesArrive(frames: seq<Frame>, segments: seq<seq<Octet>>)
    requires (forall i :: 0 <= i < |frames| ==> Sendable(frames[i])) && Concat(segments) == AllWritten(frames)
    ensures Feed([], segments) == (RecordsOf(frames), [])
  {
    hide Collect, Feed, Concat, AllWritten, RecordsOf;
    CollectWritten(frames);
    NothingCollected();
    FeedIsCollect([], segments);
    assert [] + Concat(segments) == Concat(segments);
  }

  lemma NothingCollected()
    ensures Collect([]) == ([], [])
  {
  }

  // The request body

  /** The STDIN records of a body and the empty one that ends them. */
  function StdinFrames(requestId: U16, body: seq<Octet>): seq<Frame>
    decreases |body|
  {
    if body == [] then [Frame(STDIN, requestId, 0, None)]
    else if |body| > 0xFFFF then [Frame(STDIN, requestId, 0xFFFF, Some(body[..0xFFFF]))]
        + StdinFrames(requestId, body[0xFFFF..])
    else [Frame(STDIN, requestId, |body|, Some(body)), Frame(STDIN, requestId, 0, None)]
  }

  function Contents(records: seq<Record>): seq<Octet> {
    if records == [] then [] else records[0].content + Contents(records[1..])
  }

  /** Some octets, at most 65535. */
  predicate StdinPart(r: Record, requestId: U16) {
    r.kind == STDIN && r.requestId == requestId && 0 < |r.content| <= 0xFFFF
  }

  /** The records reassemble to the body; all but the last two carry 65535 octets, the last but one what is left,
      and the last one is empty. */
  lemma {:induction false} StdinConserves(requestId: U16, body: seq<Octet>)
    ensures var records := RecordsOf(StdinFrames(requestId, body));
            && Contents(records) == body && |records| > 0
            && (forall i :: 0 <= i < |records| - 1 ==> StdinPart(records[i], requestId))
            && (forall i :: 0 <= i < |records| - 2 ==> |records[i].content| == 0xFFFF)
            && records[|records| - 1] == Record(STDIN, requestId, [])
    ensures forall i :: 0 <= i < |StdinFrames(requestId, body)| ==> Sendable(StdinFrames(requestId, body)[i])
    decreases |body|
  {
    hide RecordsOf, Contents, StdinFrames;
    var last := Frame(STDIN, requestId, 0, None);
    if body == [] {
      NoStdin(requestId);
    } else {
      var len := if |body| > 0xFFFF then 0xFFFF else |body|;
      var f := Frame(STDIN, requestId, len, Some(body[..len]));
      NextStdin(requestId, body, len);
      StdinConserves(requestId, body[len..]);
      RecordsCons(f, StdinFrames(requestId, body[len..]));
      assert body == body[..len] + body[len..];
      if |body| <= 0xFFFF {
        assert body[len..] == [];
        NoStdin(requestId);
      }
    }
  }

  lemma NoStdin(requestId: U16)
    ensures StdinFrames(requestId, []) == [Frame(STDIN, requestId, 0, None)]
    ensures RecordsOf(StdinFrames(requestId, [])) == [Record(STDIN, requestId, [])]
    ensures Contents(RecordsOf(StdinFrames(requestId, []))) == []
  {
    var records := [Record(STDIN, requestId, [])];
    assert [Frame(STDIN, requestId, 0, None)][1..] == [] && records[1..] == [];
    assert Contents(records) == [] + Contents(records[1..]);
  }

  lemma RecordsCons(f: Frame, rest: seq<Frame>)
    ensures RecordsOf([f] + rest) == [RecordOf(f)] + RecordsOf(rest)
    ensures Contents(RecordsOf([f] + rest)) == Content(f) + Contents(RecordsOf(rest))
  {
    assert ([f] + rest)[1..] == rest;
    assert ([RecordOf(f)] + RecordsOf(rest))[1..] == RecordsOf(rest);
  }

  /** A FastCGI server reads the body, whatever its length and however it is cut. */
  lemma {:induction false} BodyArrives(requestId: U16, body: seq<Octet>, segments: seq<seq<Octet>>)
    requires Concat(segments) == AllWritten(StdinFrames(requestId, body))
    ensures Contents(Feed([], segments).0) == body && Feed([], segments).1 == []
  {
    hide Feed, Concat, AllWritten, RecordsOf, StdinFrames;
    StdinConserves(requestId, body);
    FramesArrive(StdinFrames(requestId, body), segments);
  }

  // Parameters

  /** One octet, or the low 32 bits with the top one set. */
  function LengthOctets(n: nat): seq<Octet> {
    if n > 127 then [n / 0x100_0000 % 0x80 + 0x80, n / 0x1_0000 % 0x100, n / 0x100 % 0x100, n % 0x100] else [n]
  }

  function ParamOctets(name: seq<Octet>, value: seq<Octet>): seq<Octet> {
    LengthOctets(|name|) + LengthOctets(|value|) + name + value
  }

  /** A length as section 3.4 of the FastCGI specification has it, and where it ends. */
  function ReadLength(s: seq<Octet>, i: nat): Option<(nat, nat)> {
    if i >= |s| then None
    else if s[i] < 0x80 then Some((s[i], i + 1))
    else if i + 4 > |s| then None
    else
      Some(((s[i] as int - 0x80) * 0x100_0000 + (s[i + 1] as int) * 0x1_0000 + (s[i + 2] as int) * 0x100
          + s[i + 3], i + 4))
  }

  function ReadParam(s: seq<Octet>): Option<(seq<Octet>, seq<Octet>)> {
    match ReadLength(s, 0)
    case None => None
    case Some((nameLength, i)) =>
      match ReadLength(s, i)
      case None => None
      case Some((valueLength, j)) =>
        if j + nameLength + valueLength != |s| then None
        else Some((s[j..j + nameLength], s[j + nameLength..]))
  }

  /** 31 bits of a length come back. */
  lemma {:induction false} LengthIsRead(before: seq<Octet>, n: nat, after: seq<Octet>)
    ensures ReadLength(before + LengthOctets(n) + after, |before|)
         == Some((n % 0x8000_0000, |before| + |LengthOctets(n)|))
  {
    var s := before + LengthOctets(n) + after;
    assert forall k :: 0 <= k < |LengthOctets(n)| ==> s[|before| + k] == LengthOctets(n)[k];
    if n > 127 {
      LengthDigits(n);
      assert s[|before| + 1] == LengthOctets(n)[1] && s[|before| + 2] == LengthOctets(n)[2]
          && s[|before| + 3] == LengthOctets(n)[3];
    }
  }

  lemma {:induction false} LengthDigits(n: nat)
    ensures n % 0x8000_0000
         == n / 0x100_0000 % 0x80 * 0x100_0000 + n / 0x1_0000 % 0x100 * 0x1_0000 + n / 0x100 % 0x100 * 0x100 + n % 0x100
  {
    var a := n / 0x100;
    var b := a / 0x100;
    var c := b / 0x100;
    var d := c / 0x80;
    Quotients(n);
    assert n == a * 0x100 + n % 0x100 && a == b * 0x100 + a % 0x100 && b == c * 0x100 + b % 0x100
        && c == d * 0x80 + c % 0x80;
    LowPart(n, d, c % 0x80 * 0x100_0000 + b % 0x100 * 0x1_0000 + a % 0x100 * 0x100 + n % 0x100);
  }

  lemma {:induction false} Quotients(n: nat)
    ensures n / 0x1_0000 == n / 0x100 / 0x100 && n / 0x100_0000 == n / 0x100 / 0x100 / 0x100
  {
  }

  lemma LowPart(n: nat, d: nat, low: nat)
    requires n == d * 0x8000_0000 + low && low < 0x8000_0000
    ensures n % 0x8000_0000 == low
  {
  }

  /** A parameter comes back from its octets exactly when both its lengths have at most 31 bits. */
  lemma {:induction false} ParamIsRead(name: seq<Octet>, value: seq<Octet>)
    ensures ReadParam(ParamOctets(name, value)) == Some((name, value))
       <==> |name| < 0x8000_0000 && |value| < 0x8000_0000
    ensures |name| >= 0x8000_0000 || |value| >= 0x8000_0000 ==> ReadParam(ParamOctets(name, value)).None?
  {
    hide LengthOctets, ReadLength;
    var s := ParamOctets(name, value);
    var nameLength, valueLength := LengthOctets(|name|), LengthOctets(|value|);
    LengthIsRead([], |name|, valueLength + name + value);
    assert s == [] + nameLength + (valueLength + name + value);
    LengthIsRead(nameLength, |value|, name + value);
    assert s == nameLength + valueLength + (name + value);
    if |name| < 0x8000_0000 && |value| < 0x8000_0000 {
      var j := |nameLength| + |valueLength|;
      assert s[j..] == name + value;
      assert s[j..j + |name|] == s[j..][..|name|] == name && s[j + |name|..] == s[j..][|name|..] == value;
    }
  }

  /** The record of a parameter: the low 16 bits of its length, and so many of its octets. */
  function ParamFrame(requestId: U16, name: seq<Octet>, value: seq<Octet>): Frame {
    var param := ParamOctets(name, value);
    Frame(PARAMS, requestId, |param| % 0x1_0000, Some(param[..|param| % 0x1_0000]))
  }

  /** The record holds the parameter exactly when its octets number less than 65536. */
  lemma {:induction false} ParamFitsExactly(requestId: U16, name: seq<Octet>, value: seq<Octet>)
    ensures var sent := ParamFrame(requestId, name, value);
            && Read(Written(sent)) == Took(RecordOf(sent), [])
            && (ReadParam(RecordOf(sent).content) == Some((name, value)) <==> |ParamOctets(name, value)| < 0x1_0000)
  {
    hide ParamOctets, ReadParam, Read;
    var param := ParamOctets(name, value);
    var len := |param| % 0x1_0000;
    var sent := ParamFrame(requestId, name, value);
    WrittenIsRead(sent);
    assert RecordOf(sent).content == param[..len];
    ParamIsRead(name, value);
    ParamIsLonger(name, value);
    if |param| < 0x1_0000 {
      assert param[..len] == param;
    } else if |name| < 0x8000_0000 && |value| < 0x8000_0000 {
      CutParamIsUnreadable(param, len);
    } else {
      TooLongToRead(param[..len], name, value);
    }
  }

  lemma ParamIsLonger(name: seq<Octet>, value: seq<Octet>)
    ensures |ParamOctets(name, value)| > |name| + |value|
  {
  }

  lemma TooLongToRead(s: seq<Octet>, name: seq<Octet>, value: seq<Octet>)
    requires |name| + |value| > |s|
    ensures ReadParam(s) != Some((name, value))
  {
    hide ReadLength;
  }

  /** A parameter of 65536 octets does not survive. */
  lemma {:induction false} LongParamIsLost(requestId: U16)
    ensures var name, value := seq(100, _ => 65), seq(65431, _ => 66);
            && |ParamOctets(name, value)| == 65536
            && ReadParam(RecordOf(ParamFrame(requestId, name, value)).content) != Some((name, value))
  {
    hide ReadParam, Read, LengthOctets;
    var name, value := seq(100, _ => 65), seq(65431, _ => 66);
    LengthSizes(|name|);
    LengthSizes(|value|);
    ParamFitsExactly(requestId, name, value);
  }

  /** Protocol version 1, type 4, the identifier and the length in network order, no padding; then both lengths, the
      name and the value. */
  lemma {:induction false} ShortParamOnWire(requestId: U16, name: seq<Octet>, value: seq<Octet>)
    requires |name| < 128 && |value| < 128
    ensures var len := |name| + |value| + 2;
            Written(ParamFrame(requestId, name, value))
            == [1, 4, requestId / 256, requestId % 256, len / 256, len % 256, 0, 0, |name|, |value|] + name + value
  {
    var param := ParamOctets(name, value);
    assert param == [|name|] + [|value|] + name + value;
    assert param[..|param|] == param;
  }

  /** A length of 128 or more has the top bit of its first octet set. */
  lemma {:induction false} LongLengthOnWire(n: nat)
    requires 128 <= n < 0x8000_0000
    ensures var w := LengthOctets(n);
            && |w| == 4 && w[0] >= 0x80
            && n == (w[0] as int - 0x80) * 0x100_0000 + (w[1] as int) * 0x1_0000 + (w[2] as int) * 0x100 + w[3]
  {
    LengthDigits(n);
  }

  /** Type 5: a body of two octets, and the empty record that ends it. */
  lemma {:induction false} StdinOnWire(requestId: U16, a: Octet, b: Octet)
    ensures var high, low := requestId / 256, requestId % 256;
            AllWritten(StdinFrames(requestId, [a, b]))
            == [1, 5, high, low, 0, 2, 0, 0, a, b] + [1, 5, high, low, 0, 0, 0, 0]
  {
    var last := Frame(STDIN, requestId, 0, None);
    var frames := StdinFrames(requestId, [a, b]);
    assert frames[1..] == [last] && [last][1..] == [];
    assert AllWritten([last]) == Written(last) + AllWritten([]) == Written(last);
    assert AllWritten(frames) == Written(frames[0]) + AllWritten(frames[1..]);
  }

  lemma LengthSizes(n: nat)
    ensures |LengthOctets(n)| == if n > 127 then 4 else 1
  {
  }

  lemma {:induction false} CutLength(s: seq<Octet>, k: nat, i: nat)
    requires k <= |s|
    ensures ReadLength(s[..k], i).Some? ==> ReadLength(s, i) == ReadLength(s[..k], i)
  {
  }

  lemma {:induction false} CutParamIsUnreadable(s: seq<Octet>, k: nat)
    requires ReadParam(s).Some? && k < |s|
    ensures ReadParam(s[..k]).None?
  {
    hide ReadLength;
    CutLength(s, k, 0);
    CutLength(s, k, ReadLength(s, 0).value.1);
  }

  // In place

  /** `fcgi_writeFrame` */
  method WriteFrame(buffer: Buffer, frame: Frame)
    requires Filled(frame)
    modifies buffer
    ensures buffer.octets == old(buffer.octets) + Written(frame)
  {
    var header := new Octet[8](_ => 0);
    header[0] := VERSION;
    header[1] := frame.kind;
    header[2] := frame.requestId / 0x100;
    header[3] := frame.requestId % 0x100;
    header[4] := frame.len / 0x100;
    header[5] := frame.len % 0x100;
    header[6] := 0;
    header[7] := 0;
    assert header[..] == Header(frame.kind, frame.requestId, frame.len, 0);
    buffer.Push(header[..]);
    if frame.data.Some? && frame.len > 0 {
      buffer.Push(frame.data.value);
    }
  }

  /** Octets into a block at an offset; the writes from `bound` on are outside what the source allocated. */
  method Store(data: array<Octet>, at: nat, s: seq<Octet>, bound: nat) returns (at': nat, inBounds: bool)
    requires at + |s| <= data.Length
    modifies data
    ensures at' == at + |s| && data[..at'] == old(data[..at]) + s
    ensures inBounds <==> s == [] || at' <= bound
  {
    inBounds := true;
    for k := 0 to |s|
      invariant data[..at + k] == old(data[..at]) + s[..k]
      invariant inBounds <==> k == 0 || at + k <= bound
    {
      inBounds := inBounds && at + k < bound;
      data[at + k] := s[k];
    }
    return at + |s|, inBounds;
  }

  /** `fcgi_writeParam`: the block is allocated for the low 16 bits of the length, so that a longer parameter is
      written past its end. */
  method WriteParam(buffer: Buffer, requestId: U16, name: seq<Octet>, value: Option<seq<Octet>>)
    returns (inBounds: bool)
    modifies buffer
    ensures var v := if value.Some? then value.value else [];
            && buffer.octets == old(buffer.octets) + Written(ParamFrame(requestId, name, v))
            && (inBounds <==> |ParamOctets(name, v)| < 0x1_0000)
  {
    hide LengthOctets, Written, ParamFrame, ParamOctets;
    var v := if value.Some? then value.value else [];
    var nameLength, valueLength := LengthOctets(|name|), LengthOctets(|v|);
    LengthSizes(|name|);
    LengthSizes(|v|);
    var total := |nameLength| + |valueLength| + |name| + |v|;
    var len := total % 0x1_0000;
    var data := new Octet[total];
    inBounds := StoreParam(data, nameLength, valueLength, name, v, len);
    FrameOfParam(requestId, name, v, data[..]);
    assert data[..len] == data[..][..len];
    WriteFrame(buffer, Frame(PARAMS, requestId, len, Some(data[..len])));
  }

  method StoreParam(data: array<Octet>, nameLength: seq<Octet>, valueLength: seq<Octet>, name: seq<Octet>,
                    value: seq<Octet>, bound: nat)
    returns (inBounds: bool)
    requires data.Length == |nameLength| + |valueLength| + |name| + |value| && nameLength != [] && valueLength != []
    modifies data
    ensures data[..] == nameLength + valueLength + name + value
    ensures inBounds <==> data.Length <= bound
  {
    var i, a, b, c, d;
    i, a := Store(data, 0, nameLength, bound);
    i, b := Store(data, i, valueLength, bound);
    i, c := Store(data, i, name, bound);
    i, d := Store(data, i, value, bound);
    assert data[..0] == [] && data[..i] == data[..];
    return a && b && c && d;
  }

  lemma FrameOfParam(requestId: U16, name: seq<Octet>, value: seq<Octet>, param: seq<Octet>)
    requires param == LengthOctets(|name|) + LengthOctets(|value|) + name + value
    ensures param == ParamOctets(name, value)
    ensures ParamFrame(requestId, name, value)
         == Frame(PARAMS, requestId, |param| % 0x1_0000, Some(param[..|param| % 0x1_0000]))
  {
    hide LengthOctets;
  }

  /** `fcgi_readFrame`; only a complete record changes the buffer. */
  method ReadFrame(buffer: Buffer) returns (status: int, record: Record)
    modifies buffer
    ensures match Read(old(buffer.octets))
            case Took(r, rest) => status == 0 && record == r && buffer.octets == rest
            case NeedMore => status == -2 && buffer.octets == old(buffer.octets)
            case BadVersion => status == -1 && buffer.octets == old(buffer.octets)
  {
    record := Record(0, 0, []);
    if |buffer.octets| < 8 {
      return -2, record;
    }
    var header := buffer.Peek(8);
    if header[0] != VERSION {
      return -1, record;
    }
    var len := (header[4] as int) * 0x100 + header[5];
    var padding := header[6];
    if |buffer.octets| < 8 + len + padding {
      return -2, record;
    }
    buffer.Skip(8);
    var content := buffer.Pop(len);
    buffer.Skip(padding);
    return 0, Record(header[1], (header[2] as int) * 0x100 + header[3], content);
  }

  /** The STDIN part of `fcgi_provide_data`. */
  method WriteBody(buffer: Buffer, requestId: U16, body: seq<Octet>)
    modifies buffer
    ensures buffer.octets == old(buffer.octets) + AllWritten(StdinFrames(requestId, body))
  {
    hide Written, AllWritten;
    var cr, left := 0, |body|;
    assert body[0..] == body;
    while left > 0
      invariant 0 <= cr && 0 <= left && cr + left == |body|
      invariant buffer.octets + AllWritten(StdinFrames(requestId, body[cr..]))
             == old(buffer.octets) + AllWritten(StdinFrames(requestId, body))
      decreases left
    {
      var len: U16 := if left > 0xFFFF then 0xFFFF else left;
      var frame := Frame(STDIN, requestId, len, Some(body[cr..cr + len]));
      ghost var rest := body[cr..];
      NextStdin(requestId, rest, len);
      assert body[cr..cr + len] == rest[..len] && body[cr + len..] == rest[len..];
      WrittenUnfold(buffer.octets, frame, StdinFrames(requestId, body[cr + len..]));
      cr := cr + len;
      left := left - len;
      WriteFrame(buffer, frame);
    }
    assert body[cr..] == [];
    var last := Frame(STDIN, requestId, 0, None);
    WrittenUnfold(buffer.octets, last, []);
    assert [last] + [] == [last] == StdinFrames(requestId, []);
    NothingWritten(buffer.octets + Written(last));
    WriteFrame(buffer, last);
  }

  lemma NextStdin(requestId: U16, body: seq<Octet>, len: U16)
    requires body != [] && len == if |body| > 0xFFFF then 0xFFFF else |body|
    ensures StdinFrames(requestId, body) == [Frame(STDIN, requestId, len, Some(body[..len]))]
        + StdinFrames(requestId, body[len..])
  {
    if |body| <= 0xFFFF {
      assert body[..len] == body && body[len..] == [];
    }
  }

  lemma WrittenUnfold(before: seq<Octet>, frame: Frame, rest: seq<Frame>)
    ensures before + Written(frame) + AllWritten(rest) == before + AllWritten([frame] + rest)
  {
    hide Written;
    assert ([frame] + rest)[1..] == rest;
  }

  lemma NothingWritten(before: seq<Octet>)
    ensures before + AllWritten([]) == before
  {
  }
}
