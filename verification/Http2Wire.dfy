/** Frames told by their octets: what `parse_frame` accepts, field by field, and what padding looks like. */
module Http2Wire {
  import opened BitStrings
  import opened Http2Frame

  /** Octets as a number, the most significant one first. */
  function Number(s: seq<Octet>): (n: nat)
    ensures |s| == 0 ==> n == 0
    ensures |s| == 1 ==> n < 0x100
    ensures |s| == 2 ==> n < 0x1_0000
    ensures |s| == 3 ==> n < 0x100_0000
    ensures |s| == 4 ==> n < 0x1_0000_0000
  {
    if s == [] then 0 else Number(s[..|s| - 1]) * 0x100 + s[|s| - 1]
  }

  function Flag(flags: Octet, bit: bv8): bool {
    (flags as bv8) & bit != 0
  }

  lemma FlagBits(flags: Octet)
    ensures Flag(flags, 0x01) <==> EndStreamFlag(flags)
    ensures Flag(flags, 0x04) <==> EndHeadersFlag(flags)
    ensures Flag(flags, 0x08) <==> PaddedFlag(flags)
    ensures Flag(flags, 0x20) <==> PriorityFlag(flags)
  {
  }

  lemma {:induction false} NumberSnoc(s: seq<Octet>, o: Octet)
    ensures Number(s + [o]) == Number(s) * 0x100 + o
  {
    assert (s + [o])[..|s|] == s;
  }

  lemma {:induction false} NumberOfFew(a: Octet, b: Octet, c: Octet, d: Octet)
    ensures Number([a, b]) == a * 0x100 + b
    ensures Number([a, b, c]) == a * 0x1_0000 + b * 0x100 + c
    ensures Number([a, b, c, d]) == a * 0x100_0000 + b * 0x1_0000 + c * 0x100 + d
  {
    hide Number;
    NumberSnoc([], a);
    NumberSnoc([a], b);
    NumberSnoc([a, b], c);
    NumberSnoc([a, b, c], d);
    assert [] + [a] == [a] && [a] + [b] == [a, b] && [a, b] + [c] == [a, b, c] && [a, b, c] + [d] == [a, b, c, d];
  }

  lemma {:induction false} NumbersRead(s: seq<Octet>, i: nat)
    requires i + 4 <= |s|
    ensures Read2(s, i) == Number(s[i..i + 2]) && Read4(s, i) == Number(s[i..i + 4])
    ensures i == 0 ==> Read3(s) == Number(s[..3])
  {
    hide Number;
    NumberOfFew(s[i], s[i + 1], s[i + 2], s[i + 3]);
    assert s[i..i + 2] == [s[i], s[i + 1]] && s[i..i + 4] == [s[i], s[i + 1], s[i + 2], s[i + 3]];
    assert i == 0 ==> s[..3] == [s[i], s[i + 1], s[i + 2]];
  }

  // The parser

  /** Where the padding length, the priority fields and the data begin. */
  function PadSize(data: seq<Octet>): nat
    requires |data| >= 9
  {
    if data[3] in {0, 1, 5} && Flag(data[4], 0x08) then 1 else 0
  }

  function PrioritySize(data: seq<Octet>): nat
    requires |data| >= 9
  {
    if data[3] == 1 && Flag(data[4], 0x20) then 5 else 0
  }

  /** The size of a payload of each kind.  A padding length must be there, and be zero. */
  ghost predicate RightSize(data: seq<Octet>)
    requires |data| >= 9
  {
    var size := |data| - 9;
    match data[3]
    case 0 => size >= PadSize(data) && (PadSize(data) == 1 ==> data[9] == 0)
    case 1 => size >= PadSize(data) + PrioritySize(data) && (PadSize(data) == 1 ==> data[9] == 0)
    case 2 => size == 5
    case 3 => size == 4
    case 4 => size % 6 == 0
    case 5 => size >= PadSize(data) + 4 && (PadSize(data) == 1 ==> data[9] == 0)
    case 6 => size == 8
    case 7 => size >= 8
    case 8 => size == 4
    case 9 => true
    case _ => false
  }

  /** The payload, field by field; the top bit of an identifier is cut off, or is the exclusive flag. */
  ghost predicate Says(data: seq<Octet>, p: Payload)
    requires |data| >= 9 && RightSize(data)
  {
    var at := 9 + PadSize(data);
    match data[3]
    case 0 => p == Data(data[at..])
    case 1 =>
      if PrioritySize(data) == 0 then p == Headers(0, 0, 0, data[at..])
      else
        var word := Number(data[at..at + 4]);
        p == Headers(word / 0x8000_0000, word % 0x8000_0000, data[at + 4], data[at + 5..])
    case 2 => p == Priority(Number(data[9..13]) / 0x8000_0000, Number(data[9..13]) % 0x8000_0000, data[13])
    case 3 => p == RstStream(Number(data[9..13]))
    case 4 =>
      p.Settings? && |p.entries| == (|data| - 9) / 6 && EntriesSay(data, 9, p.entries)
    case 5 => p == PushPromise(Number(data[at..at + 4]) % 0x8000_0000, data[at + 4..])
    case 6 => p == Ping(Number(data[9..13]) * 0x1_0000_0000 + Number(data[13..17]))
    case 7 => p == GoAway(Number(data[9..13]) % 0x8000_0000, Number(data[13..17]))
    case 8 => p == WindowUpdate(Number(data[9..13]) % 0x8000_0000)
    case _ => p == Continuation(data[9..])
  }

  ghost predicate EntrySays(data: seq<Octet>, at: nat, entry: Setting)
    requires at + 6 <= |data|
  {
    entry.key == Number(data[at..at + 2]) && entry.value == Number(data[at + 2..at + 6])
  }

  ghost predicate EntriesSay(data: seq<Octet>, at: nat, entries: seq<Setting>)
    requires at + 6 * |entries| <= |data|
  {
    forall k :: 0 <= k < |entries| ==> EntrySays(data, at + 6 * k, entries[k])
  }

  /** A frame is accepted exactly when its length field counts its octets and these are right for its kind, and
      then it is what they say. */
  lemma {:induction false} AcceptedMeans(data: seq<Octet>)
    requires |data| >= 9
    ensures match Parse(data)
            case Accepted(f) =>
              && Number(data[..3]) == |data| - 9 && RightSize(data)
              && f.flags == data[4] && f.stream == Number(data[5..9]) % 0x8000_0000 && Says(data, f.payload)
            case ProtocolError => Number(data[..3]) == |data| - 9 && data[3] > 9
            case FrameSizeError => Number(data[..3]) != |data| - 9 || (data[3] <= 9 && !RightSize(data))
  {
    hide Number, Read3, Read4, ParseBody, Says, RightSize;
    NumbersRead(data, 0);
    NumbersRead(data, 5);
    if Read3(data) == |data| - 9 {
      BodyMeans(data);
    }
  }

  lemma {:induction false} BodyMeans(data: seq<Octet>)
    requires |data| >= 9 && Read3(data) == |data| - 9
    ensures match ParseBody(data[3], data[4], data[9..])
            case Good(p) => RightSize(data) && Says(data, p)
            case BadKind => data[3] > 9
            case BadSize => data[3] <= 9 && !RightSize(data)
  {
    hide Number, Read3, Read4, SettingsAt;
    FlagBits(data[4]);
    ShortBody(data);
    var body := data[9..];
    if data[3] in {0, 1, 5} {
      PaddableMeans(data);
    } else if data[3] == 4 {
      if |body| % 6 == 0 {
        EntriesMean(data, 0, |body| / 6);
      }
    } else {
      if |body| >= 4 {
        NumbersRead(body, 0);
        Behind(data, 0, 4);
      }
      if |body| >= 8 {
        NumbersRead(body, 4);
        Behind(data, 4, 8);
      }
    }
  }

  lemma Behind(data: seq<Octet>, i: nat, j: nat)
    requires i <= j && 9 + j <= |data|
    ensures data[9..][i..j] == data[9 + i..9 + j]
  {
  }

  lemma ShortBody(data: seq<Octet>)
    requires |data| >= 9 && Read3(data) == |data| - 9
    ensures |data| - 9 < LENGTH_LIMIT
  {
  }

  lemma {:induction false} PaddableMeans(data: seq<Octet>)
    requires |data| >= 9 && |data| - 9 < LENGTH_LIMIT && data[3] in {0, 1, 5}
    ensures match ParseBody(data[3], data[4], data[9..])
            case Good(p) => RightSize(data) && Says(data, p)
            case BadKind => false
            case BadSize => !RightSize(data)
  {
    hide Number, Read4, RestFits;
    FlagBits(data[4]);
    var body := data[9..];
    var pad, priority := PadSize(data), PrioritySize(data);
    var i := pad + priority + if data[3] == 5 then 4 else 0;
    if |body| >= pad {
      var padding := if pad == 1 then body[0] else 0;
      if |body| >= i {
        RestFitsExactly(|body|, padding, i);
        assert body[i..] == data[9 + i..];
        if |body| >= pad + 4 {
          NumbersRead(body, pad);
          Behind(data, pad, pad + 4);
        }
      }
    }
  }

  lemma {:induction false} EntriesMean(data: seq<Octet>, at: nat, count: nat)
    requires 9 + at + 6 * count <= |data|
    ensures EntriesSay(data, 9 + at, SettingsAt(data[9..], at, count))
    decreases count
  {
    hide Number, Read2, Read4, EntrySays;
    if count > 0 {
      EntriesMean(data, at + 6, count - 1);
      EntryMeans(data, at);
      var rest := SettingsAt(data[9..], at + 6, count - 1);
      var entries := SettingsAt(data[9..], at, count);
      forall k | 0 <= k < count ensures EntrySays(data, 9 + at + 6 * k, entries[k]) {
        if k > 0 {
          assert entries[k] == rest[k - 1];
          assert EntrySays(data, 9 + (at + 6) + 6 * (k - 1), rest[k - 1]);
        }
      }
    }
  }

  lemma {:induction false} EntryMeans(data: seq<Octet>, at: nat)
    requires 9 + at + 6 <= |data|
    ensures EntrySays(data, 9 + at, Setting(Read2(data[9..], at), Read4(data[9..], at + 2)))
  {
    hide Number, Read2, Read4;
    var body := data[9..];
    NumbersRead(body, at);
    NumbersRead(body, at + 2);
    Behind(data, at, at + 2);
    Behind(data, at + 2, at + 6);
  }

  /** A HEADERS frame with END_STREAM, END_HEADERS and priority fields, as clients open a request. */
  lemma {:induction false} PriorityHeaders(data: seq<Octet>)
    requires data == [0, 0, 6, 1, 0x25, 0, 0, 0, 1, 0x80, 0, 0, 3, 0xFF, 0x82]
    ensures Parse(data) == Accepted(Frame(0x25, 1, Headers(1, 3, 0xFF, [0x82])))
  {
    hide Number, Parse;
    AcceptedMeans(data);
    FewOctets(data);
  }

  lemma FewOctets(data: seq<Octet>)
    requires data == [0, 0, 6, 1, 0x25, 0, 0, 0, 1, 0x80, 0, 0, 3, 0xFF, 0x82]
    ensures Number(data[..3]) == 6 && Number(data[5..9]) == 1 && Number(data[9..13]) == 0x8000_0003
    ensures data[14..] == [0x82] && Flag(0x25, 0x20) && !Flag(0x25, 0x08)
  {
    hide Number;
    NumberOfFew(0, 0, 6, 0);
    NumberOfFew(0, 0, 0, 1);
    NumberOfFew(0x80, 0, 0, 3);
    assert data[..3] == [0, 0, 6] && data[5..9] == [0, 0, 0, 1] && data[9..13] == [0x80, 0, 0, 3];
  }

  // The printer

  /** With PADDED, the padding length goes first and as many zeros follow; without it nothing changes. */
  lemma {:induction false} PaddingOnWire(f: Frame, padding: Octet)
    requires f.payload.Data? || f.payload.Headers? || f.payload.PushPromise?
    ensures !Flag(f.flags, 0x08) ==> Body(f, padding) == Body(f, 0)
    ensures Flag(f.flags, 0x08) ==>
              f.flags >= 8
              && Body(f, padding) == [padding] + Body(f.(flags := f.flags - 8), 0) + seq(padding, _ => 0)
  {
    hide Be4, SetTop;
    FlagBits(f.flags);
    if Flag(f.flags, 0x08) {
      FlagBits(f.flags - 8);
      WithoutPadding(f.flags);
    }
  }

  lemma WithoutPadding(flags: Octet)
    requires PaddedFlag(flags)
    ensures flags >= 8 && !PaddedFlag(flags - 8) && (PriorityFlag(flags - 8) <==> PriorityFlag(flags))
  {
  }

  /** A PING goes out in the order of the host's memory, the least significant octet first. */
  lemma {:induction false} PingOnWire(flags: Octet, stream: U32, v: U64)
    ensures var w := Serialize(Frame(flags, stream, Ping(v)), 0);
            |w| == 17 && Number([w[16], w[15], w[14], w[13]]) * 0x1_0000_0000 + Number([w[12], w[11], w[10], w[9]]) == v
  {
    hide Number, Be3, Be4;
    var w := Serialize(Frame(flags, stream, Ping(v)), 0);
    var s := HostOctets8(v);
    assert forall k :: 0 <= k < 8 ==> w[9 + k] == s[k];
    NumberOfFew(s[7], s[6], s[5], s[4]);
    NumberOfFew(s[3], s[2], s[1], s[0]);
    Digits(v / 0x1_0000_0000);
    Digits(v % 0x1_0000_0000);
  }
}
