/** HTTP/1 requests in place: strings are cut inside their buffer, and output goes into an array whose
    length was computed beforehand. */
module HttpInPlace {
  import opened BitStrings
  import opened HpackTable
  import opened HeaderList
  import opened HttpRequest

  // C strings

  /** A C string stands at an offset of a buffer. */
  ghost predicate StringIn(data: array<Octet>, from: nat, t: Text)
    reads data
  {
    from + |t| < data.Length && data[from + |t|] == 0 && forall k :: 0 <= k < |t| ==> data[from + k] == t[k] != 0
  }

  lemma StringFrom(data: array<Octet>, from: nat, t: Text, k: nat)
    requires StringIn(data, from, t) && k <= |t|
    ensures StringIn(data, from + k, t[k..])
  {
    assert forall i :: 0 <= i < |t[k..]| ==> t[k..][i] == t[k + i];
  }

  lemma EndsHere(data: array<Octet>, from: nat, t: Text, i: nat)
    requires StringIn(data, from, t) && from <= i <= from + |t| && data[i] == 0
    ensures i == from + |t|
  {
    var ended := t + [0];
    assert forall k :: 0 <= k < |t| ==> ended[k] == t[k];
    assert ended[i - from] == 0;
  }

  /** A zero octet makes two strings of one. */
  method CutAt(data: array<Octet>, from: nat, ghost t: Text, at: nat)
    requires StringIn(data, from, t) && from <= at < from + |t|
    modifies data
    ensures StringIn(data, from, t[..at - from]) && StringIn(data, at + 1, t[at + 1 - from..])
    ensures forall k :: 0 <= k < data.Length && k != at ==> data[k] == old(data[k])
  {
    StringFrom(data, from, t, at + 1 - from);
    data[at] := 0;
  }

  /** `strchr`; None is NULL. */
  method StrChr(data: array<Octet>, from: nat, c: Octet, ghost t: Text) returns (r: Option<nat>)
    requires StringIn(data, from, t) && c != 0
    ensures r == if Find(t, c) < |t| then Some(from + Find(t, c)) else None
  {
    hide Find;
    var i := from;
    while data[i] != 0
      invariant from <= i <= from + |t| && c !in t[..i - from]
      decreases data.Length - i
    {
      if data[i] == c {
        FirstAt(t, c, i - from);
        return Some(i);
      }
      assert t[..i + 1 - from] == t[..i - from] + [t[i - from]];
      i := i + 1;
    }
    EndsHere(data, from, t, i);
    assert t[..|t|] == t;
    FindNone(t, c);
    return None;
  }

  lemma FirstAt(t: Text, c: Octet, k: nat)
    requires k < |t| && t[k] == c && c !in t[..k]
    ensures Find(t, c) == k
  {
    FindIn(t[..k], c, t[k + 1..]);
    assert t == t[..k] + [c] + t[k + 1..];
  }

  /** `str_dup` */
  method StrDup(data: array<Octet>, from: nat, ghost t: Text) returns (s: Text)
    requires StringIn(data, from, t)
    ensures s == t
  {
    var i := from;
    while data[i] != 0
      invariant from <= i <= from + |t|
      decreases data.Length - i
    {
      i := i + 1;
    }
    EndsHere(data, from, t, i);
    return data[from..i];
  }

  /** `str_trim`: the start of the trimmed string, which is cut off behind its end. */
  method StrTrim(data: array<Octet>, from: nat, ghost t: Text) returns (start: nat)
    requires StringIn(data, from, t)
    modifies data
    ensures start == from + LeadingBlanks(t) && StringIn(data, start, Trim(t))
    ensures forall k :: 0 <= k < data.Length && !(from <= k < from + |t|) ==> data[k] == old(data[k])
    ensures forall k :: start + |Trim(t)| < k < data.Length ==> data[k] == old(data[k])
  {
    hide LeadingBlanks, DropTrailing;
    start := SkipBlanks(data, from, t);
    ghost var rest := t[start - from..];
    StringFrom(data, from, t, start - from);
    var end := EndOfText(data, start, rest);
    if data[end] != 0 {
      data[end] := 0;
    }
  }

  method SkipBlanks(data: array<Octet>, from: nat, ghost t: Text) returns (start: nat)
    requires StringIn(data, from, t)
    ensures start == from + LeadingBlanks(t)
  {
    hide LeadingBlanks;
    start := from;
    assert t[0..] == t;
    while Blank(data[start])
      invariant from <= start <= from + |t| && LeadingBlanks(t) == start - from + LeadingBlanks(t[start - from..])
      decreases data.Length - start
    {
      assert start < from + |t|;
      BlanksUnfold(t[start - from..]);
      assert t[start - from..][1..] == t[start + 1 - from..];
      start := start + 1;
    }
    BlanksUnfold(t[start - from..]);
  }

  lemma BlanksUnfold(t: Text)
    ensures LeadingBlanks(t) == if t == [] || !Blank(t[0]) then 0 else 1 + LeadingBlanks(t[1..])
  {
  }

  /** The end of a string without its trailing white space. */
  method EndOfText(data: array<Octet>, from: nat, ghost t: Text) returns (end: nat)
    requires StringIn(data, from, t)
    ensures end == from + |DropTrailing(t)|
  {
    hide DropTrailing;
    var all := StrDup(data, from, t);
    end := from + |all|;
    assert t[..|t|] == t;
    while end > from && Blank(data[end - 1])
      invariant from <= end <= from + |t| && DropTrailing(t[..end - from]) == DropTrailing(t)
    {
      ghost var k := end - 1 - from;
      TrailingUnfold(t[..k + 1]);
      assert t[..k + 1][..k] == t[..k] && data[from + k] == t[k];
      end := end - 1;
    }
    TrailingUnfold(t[..end - from]);
  }

  lemma TrailingUnfold(t: Text)
    ensures DropTrailing(t) == if t == [] || !Blank(t[|t| - 1]) then t else DropTrailing(t[..|t| - 1])
  {
  }

  // Parsing

  /** `header_parse` */
  method HeaderParse(data: array<Octet>, from: nat, ghost text: Text) returns (headers: HeaderTable)
    requires StringIn(data, from, text)
    modifies data
    ensures fresh(headers) && headers.Model() == ParseHeaders(EmptyHeaders(), text)
  {
    hide Trim, LeadingBlanks, Add, Sound, Find;
    headers := new HeaderTable();
    var cd: nat := from;
    ghost var t := text;
    while true
      invariant fresh(headers) && StringIn(data, cd, t)
      invariant ParseHeaders(headers.Model(), t) == ParseHeaders(EmptyHeaders(), text)
      decreases |t|
    {
      var eol := StrChr(data, cd, LF, t);
      if eol.None? {
        break;
      }
      HeaderLine(data, cd, t, eol.value, headers);
      t := t[eol.value - cd + 1..];
      cd := eol.value + 1;
    }
  }

  /** One line: it becomes a string of its own and, if it has a colon, two. */
  method HeaderLine(data: array<Octet>, cd: nat, ghost t: Text, eol: nat, headers: HeaderTable)
    requires StringIn(data, cd, t) && eol == cd + Find(t, LF) && Find(t, LF) < |t|
    modifies data, headers
    ensures StringIn(data, eol + 1, t[eol - cd + 1..])
    ensures var line := t[..eol - cd];
            var colon := Find(line, COLON);
            headers.Model() == if colon == |line| then old(headers.Model())
                               else Add(old(headers.Model()), Trim(line[..colon]), Trim(line[colon + 1..]), false)
  {
    hide Trim, LeadingBlanks, Add, Find;
    ghost var line, rest := t[..eol - cd], t[eol - cd + 1..];
    StringFrom(data, cd, t, eol - cd + 1);
    data[eol] := 0;
    assert StringIn(data, eol + 1, rest) && StringIn(data, cd, line);
    var found := StrChr(data, cd, COLON, line);
    if found.None? {
      return;
    }
    ghost var name, value := line[..found.value - cd], line[found.value + 1 - cd..];
    var nameText, valueText := SplitAtColon(data, cd, line, found.value, name, value);
    assert StringIn(data, eol + 1, rest);
    headers.Insert(nameText, valueText, false);
  }

  method SplitAtColon(data: array<Octet>, cd: nat, ghost line: Text, colon: nat, ghost name: Text, ghost value: Text)
    returns (nameText: Text, valueText: Text)
    requires StringIn(data, cd, line) && cd <= colon < cd + |line|
    requires name == line[..colon - cd] && value == line[colon + 1 - cd..]
    modifies data
    ensures nameText == Trim(name) && valueText == Trim(value)
    ensures forall k :: cd + |line| <= k < data.Length ==> data[k] == old(data[k])
  {
    hide Trim, LeadingBlanks;
    StringFrom(data, cd, line, colon + 1 - cd);
    data[colon] := 0;
    assert StringIn(data, cd, name) && StringIn(data, colon + 1, value);
    var start := StrTrim(data, cd, name);
    assert StringIn(data, colon + 1, value);
    nameText := StrDup(data, start, Trim(name));
    var start' := StrTrim(data, colon + 1, value);
    valueText := StrDup(data, start', Trim(value));
  }

  datatype InPlaceRequest =
    | Ready(verb: Text, path: Text, version: Text, headers: HeaderTable)
    | Failed // -1
    | Outside

  datatype LineCut = Cut(verb: Text, path: Text, tailAt: nat) | NoCut

  /** The first line, cut at its first two spaces. */
  method CutLine(data: array<Octet>, ghost line: Text, ghost after: Text) returns (r: LineCut)
    requires StringIn(data, 0, line) && StringIn(data, |line| + 1, after)
    modifies data
    ensures match SplitLine(line)
            case NoParts => r.NoCut?
            case Parts(verb, path, tail) =>
              && r == Cut(verb, path, |line| - |tail|)
              && StringIn(data, r.tailAt, tail)
    ensures StringIn(data, |line| + 1, after)
  {
    hide Find, StringIn;
    var verb, at := TakeWord(data, 0, line, after);
    if verb.None? {
      return NoCut;
    }
    var path, at' := TakeWord(data, at, line[at..], after);
    if path.None? {
      return NoCut;
    }
    return Cut(verb.value, path.value, at');
  }

  /** The string up to the first space, and where the rest begins. */
  method TakeWord(data: array<Octet>, from: nat, ghost t: Text, ghost after: Text) returns (word: Option<Text>, at: nat)
    requires StringIn(data, from, t) && StringIn(data, from + |t| + 1, after)
    modifies data
    ensures var k := Find(t, SPACE);
            if k == |t| then word.None?
            else word == Some(t[..k]) && at == from + k + 1 && StringIn(data, at, t[k + 1..])
    ensures StringIn(data, from + |t| + 1, after)
  {
    hide Find;
    var space := StrChr(data, from, SPACE, t);
    if space.None? {
      return None, from;
    }
    CutAt(data, from, t, space.value);
    var s := StrDup(data, from, t[..space.value - from]);
    return Some(s), space.value + 1;
  }

  lemma TailOfLine(line: Text)
    ensures var p := SplitLine(line); p.Parts? ==> p.tail == line[|line| - |p.tail|..]
  {
  }

  /** `parseRequest` on a buffer that holds the text and its terminating zero. */
  method ParseInPlace(data: array<Octet>, ghost text: Text) returns (r: InPlaceRequest)
    requires StringIn(data, 0, text) && data.Length == |text| + 1
    modifies data
    ensures match ParseRequest(text)
            case Good(q) => r.Ready? && r.verb == q.verb && r.path == q.path && r.version == q.version
                && r.headers.Model() == q.headers
            case Invalid => r.Failed?
            case Overrun => r.Outside?
  {
    hide Trim, LeadingBlanks, Find, ParseHeaders, SplitLine, StringIn;
    var eol := StrChr(data, 0, LF, text);
    if eol.None? {
      return Failed;
    }
    ghost var line, after := text[..eol.value], text[eol.value + 1..];
    CutAt(data, 0, text, eol.value);
    var cut := CutLine(data, line, after);
    if cut.NoCut? {
      return Failed;
    }
    ghost var tail := SplitLine(line).tail;
    TailOfLine(line);
    var version, temp := TakeVersion(data, cut.tailAt, tail, after);
    if temp > data.Length - 1 {
      return Outside;
    }
    ghost var read := if temp <= eol.value then tail[temp - cut.tailAt..] else after[temp - (eol.value + 1)..];
    assert read == if temp <= eol.value then text[temp..eol.value] else text[temp..];
    var headers := HeaderParse(data, temp, read);
    return Ready(cut.verb, cut.path, version, headers);
  }

  /** The version, and where the headers are expected. */
  method TakeVersion(data: array<Octet>, at: nat, ghost tail: Text, ghost after: Text)
    returns (version: Text, temp: nat)
    requires StringIn(data, at, tail) && StringIn(data, at + |tail| + 1, after)
        && data.Length == at + |tail| + 1 + |after| + 1
    modifies data
    ensures version == Trim(tail) && temp == at + LeadingBlanks(tail) + |version| + 2
    ensures temp <= at + |tail| ==> StringIn(data, temp, tail[temp - at..])
    ensures at + |tail| < temp < data.Length ==> StringIn(data, temp, after[temp - (at + |tail| + 1)..])
  {
    hide Trim, LeadingBlanks;
    var start := StrTrim(data, at, tail);
    version := StrDup(data, start, Trim(tail));
    temp := start + |version| + 2;
  }

  // Printing

  /** `memcpy` behind what was written so far */
  method Append(output: array<Octet>, at: nat, s: Text) returns (at': nat)
    requires at + |s| <= output.Length
    modifies output
    ensures at' == at + |s| && output[..at'] == old(output[..at]) + s
  {
    for k := 0 to |s|
      invariant output[..at + k] == old(output[..at]) + s[..k]
    {
      output[at + k] := s[k];
    }
    return at + |s|;
  }

  /** `snprintf` of a line: at most `room - 1` octets of it and a zero are written. */
  method PrintBounded(ret: array<Octet>, at: nat, room: nat, s: Text) returns (length: nat)
    requires at + room <= ret.Length && room > 0
    modifies ret
    ensures length == |s|
    ensures ret[..at + Min(|s|, room - 1)] == old(ret[..at]) + s[..Min(|s|, room - 1)]
  {
    var n := Min(|s|, room - 1);
    var end := Append(ret, at, s[..n]);
    ghost var written := ret[..at + n];
    ret[at + n] := 0;
    assert ret[..at + n] == written;
    return |s|;
  }

  function Min(a: int, b: int): int {
    if a < b then a else b
  }

  /** `header_serialize`: the lines fit, so that nothing is truncated, and fill the array exactly. */
  method HeaderSerialize(fields: seq<Field>) returns (ret: array<Octet>, len: nat)
    ensures fresh(ret) && ret.Length == len && ret[..] == HeaderOctets(fields)
  {
    hide LineOctets;
    len := 0;
    assert fields[0..] == fields;
    for k := 0 to |fields|
      invariant len + |LinesOctets(fields[k..])| == |LinesOctets(fields)|
    {
      assert fields[k..][1..] == fields[k + 1..];
      len := len + |fields[k].name| + |fields[k].value| + 4;
    }
    len := len + 2;
    ret := new Octet[len];
    var ri := 0;
    for k := 0 to |fields|
      invariant 0 <= ri && ri + |LinesOctets(fields[k..])| + 2 == len == ret.Length
      invariant ret[..ri] + LinesOctets(fields[k..]) == LinesOctets(fields)
    {
      assert fields[k..][1..] == fields[k + 1..];
      var line := LineOctets(fields[k]);
      ghost var before, after := ret[..ri], LinesOctets(fields[k + 1..]);
      assert |LinesOctets(fields[k..])| == |line| + |after|;
      var length := PrintBounded(ret, ri, len - ri, line);
      assert line[..|line|] == line && before + (line + after) == before + line + after;
      ri := ri + length;
    }
    assert ret[..ri] + [] == ret[..ri];
    ret[ri] := CR;
    ret[ri + 1] := LF;
    assert ret[..] == ret[..ri] + [CR, LF];
  }

  /** `serializeRequest`: the length computed beforehand is the number of octets written. */
  method SerializeRequest(verb: Text, path: Text, version: Text, fields: seq<Field>, body: Option<Text>)
    returns (output: array<Octet>, outLen: nat)
    ensures fresh(output) && output.Length == outLen
    ensures output[..] == RequestOctets(verb, path, version, fields) + (if body.Some? then body.value else [])
  {
    hide HeaderOctets;
    outLen := |verb| + 1 + |path| + 1 + |version| + 2;
    var headers, headersLength := HeaderSerialize(fields);
    outLen := outLen + headersLength;
    if body.Some? {
      outLen := outLen + |body.value|;
    }
    output := new Octet[outLen];
    var written := Append(output, 0, verb);
    assert output[..written] == verb;
    written := Append(output, written, [SPACE]);
    written := Append(output, written, path);
    written := Append(output, written, [SPACE]);
    written := Append(output, written, version);
    written := Append(output, written, [CR, LF]);
    written := Append(output, written, headers[..]);
    assert output[..written] == RequestOctets(verb, path, version, fields);
    if body.Some? {
      written := Append(output, written, body.value);
    }
    assert written == outLen && output[..] == output[..written];
  }
}
