/** String literals of HPACK (section 5.2 of RFC 7541): `hpack_encode_string` and `hpack_decode_string`. */
module HpackString {
  import opened BitStrings
  import opened HuffmanCode
  import opened HuffmanEncoder
  import opened HuffmanDecoder
  import opened HpackInteger

  /** The contents of a C string: no zero octet. */
  type CText = s: seq<Octet> | 0 !in s

  /** What a C string function sees of a buffer. */
  function CString(d: seq<Octet>): (t: CText)
    ensures |t| <= |d| && t == d[..|t|] && (|t| < |d| ==> d[|t|] == 0)
  {
    if d == [] || d[0] == 0 then [] else [d[0]] + CString(d[1..])
  }

  lemma {:induction false} CStringOfText(d: seq<Octet>)
    requires 0 !in d
    ensures CString(d) == d
  {
  }

  /** The octets carried by a literal. */
  function Body(t: seq<Octet>, huffman: bool): seq<Octet> {
    if huffman then HuffmanOctets(t) else t
  }

  function StringOctets(t: seq<Octet>, huffman: bool): (w: seq<Octet>)
    ensures |w| > 0
  {
    IntegerOctets(if huffman then 128 else 0, 7, |Body(t, huffman)|) + Body(t, huffman)
  }

  // Reading

  datatype StringRead =
    | StringAt(text: CText, next: nat)
    | NullString(next: nat) // the source returns NULL
    | StringFault // the source reads outside the input

  function ReadString(input: seq<Octet>, offset: nat): (r: StringRead)
    ensures r.StringAt? ==> offset < r.next <= |input|
  {
    if offset >= |input| then NullString(offset)
    else
      match ReadInteger(input[offset] % 128, 7, input, offset + 1)
      case OverRead => StringFault
      case IntegerAt(size, next) =>
        if (next + size) % WORD > |input| then NullString(next)
        else if next + size > |input| then StringFault // the sum wrapped around
        else
          var body := input[next..next + size];
          StringAt(CString(if input[offset] >= 128 then DecodeFrom(body, 0) else body), next + size)
  }

  /** A literal is read to its end whatever its text; the text survives exactly when it is readable. */
  lemma {:induction false} StringRoundTrip(t: CText, huffman: bool, input: seq<Octet>, at: nat)
    requires |input| < WORD && Holds(input, at, StringOctets(t, huffman))
    ensures var r := ReadString(input, at);
            && r.StringAt? && r.next == at + |StringOctets(t, huffman)|
            && (r.text == t <==> (huffman ==> Readable(t)))
            && (huffman ==> r.text == CString(DecodeFrom(HuffmanOctets(t), 0)))
  {
    hide IntegerOctets, HuffmanOctets, Readable, DecodeFrom, ReadInteger, CString, Pow2, Body;
    var prefix: Octet, body := if huffman then 128 else 0, Body(t, huffman);
    var w := IntegerOctets(prefix, 7, |body|);
    HoldsParts(input, at, w, body);
    Pow2Values();
    IntegerRoundTrip(prefix, 7, |body|, input, at);
    assert input[at] / 128 == prefix / 128;
    SmallMod(at + |w| + |body|);
    assert input[at + |w|..at + |w| + |body|] == body;
    BodySurvives(t, huffman);
  }

  lemma {:induction false} BodySurvives(t: CText, huffman: bool)
    ensures var body := Body(t, huffman);
            && (CString(if huffman then DecodeFrom(body, 0) else body) == t <==> (huffman ==> Readable(t)))
            && (huffman ==> body == HuffmanOctets(t))
  {
    hide HuffmanOctets, Readable, DecodeFrom, CString, BitWidth;
    CStringOfText(t);
    if huffman {
      RoundTrip(t);
      if !Readable(t) {
        var i := UnreadableDiverges(t);
      }
    }
  }

  // Writing

  datatype StringWrite = WroteString(octets: seq<Octet>) | NoRoomForString

  /** The encoder insists on at least one octet of room after the literal. */
  function WriteString(t: seq<Octet>, huffman: bool, room: nat): StringWrite {
    if |StringOctets(t, huffman)| < room then WroteString(StringOctets(t, huffman)) else NoRoomForString
  }

  /** `hpack_encode_string`. */
  method EncodeString(t: seq<Octet>, huffman: bool, output: array<Octet>, offset: nat)
    returns (count: nat, offset': nat)
    requires offset <= output.Length
    modifies output
    ensures output[..offset] == old(output[..offset])
    ensures match WriteString(t, huffman, output.Length - offset)
            case WroteString(octets) =>
              count == |octets| && offset' == offset + |octets| <= output.Length && output[offset..offset'] == octets
            case NoRoomForString => count == 0 && offset' == offset
  {
    hide HuffmanOctets, EncodeBits, IntegerOctets, WriteInteger, Pow2;
    if offset >= output.Length {
      return 0, offset;
    }
    var body := t;
    if huffman {
      var out, n, _ := HuffmanEncode(t);
      body := out[..n];
    }
    assert body == Body(t, huffman);
    ghost var w := IntegerOctets(if huffman then 128 else 0, 7, |body|);
    var at;
    count, at := EncodeInteger(if huffman then 128 else 0, 7, |body|, output, offset);
    Boundary(if huffman then 128 else 0, |body|, output.Length - offset);
    if count == 0 {
      return 0, offset;
    }
    if at + |body| >= output.Length {
      return 0, offset;
    }
    assert output[offset..at] == w;
    ghost var before := output[..at];
    assert before[offset..] == w;
    CopyInto(body, output, at);
    assert output[..at + |body|] == before + body;
    assert output[..offset] == before[..offset];
    assert output[offset..at + |body|] == (before + body)[offset..] == w + body;
    offset' := at + |body|;
    return offset' - offset, offset';
  }

  /** A truncated length prefix is never kept: the string it announces cannot fit. */
  lemma {:induction false} Boundary(prefix: Octet, size: nat, room: nat)
    ensures match WriteInteger(prefix, 7, size, room)
            case Wrote(octets) => octets == IntegerOctets(prefix, 7, size) || |octets| + size >= room
            case NoRoom => |IntegerOctets(prefix, 7, size)| > room
    ensures WriteInteger(prefix, 7, size, room).Wrote? ==>
              0 < |WriteInteger(prefix, 7, size, room).octets| <= |IntegerOctets(prefix, 7, size)|
  {
    hide IntegerOctets, Pow2;
    Pow2Values();
  }

  /** memcpy */
  method CopyInto(source: seq<Octet>, output: array<Octet>, at: nat)
    requires at + |source| <= output.Length
    modifies output
    ensures output[..at] == old(output[..at]) && output[at..at + |source|] == source
  {
    for i := 0 to |source|
      invariant output[..at] == old(output[..at]) && output[at..at + i] == source[..i]
    {
      output[at + i] := source[i];
      assert output[at..at + i + 1] == output[at..at + i] + [source[i]];
    }
  }

  /** `hpack_decode_string`. */
  method DecodeString(input: seq<Octet>, offset: nat) returns (r: StringRead)
    ensures r == ReadString(input, offset)
  {
    hide ReadInteger, DecodeFrom, CString, Pow2;
    if offset >= |input| {
      return NullString(offset);
    }
    var prefix := input[offset];
    var size := DecodeInteger(prefix % 128, 7, input, offset + 1);
    match size
    case OverRead => return StringFault;
    case IntegerAt(size, next) =>
      if (next + size) % WORD > |input| {
        return NullString(next);
      }
      if next + size > |input| {
        return StringFault;
      }
      var body := input[next..next + size];
      if prefix >= 128 {
        var out, n := HuffmanDecode(body);
        return StringAt(CString(out[..n]), next + size);
      }
      return StringAt(CString(body), next + size);
  }
}
