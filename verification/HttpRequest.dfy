/** HTTP/1 requests: `serializeRequest`, `header_serialize`, `parseRequest` and `header_parse`. */
module HttpRequest {
  import opened BitStrings
  import opened HpackTable
  import opened HpackCodec
  import opened HeaderList

  const SPACE: Octet := 32
  const COLON: Octet := 58
  const CR: Octet := 13
  const LF: Octet := 10

  /** Where `strchr` finds a character, or the length. */
  function Find(s: Text, c: Octet): (i: nat)
    ensures i <= |s| && c !in s[..i] && (i < |s| ==> s[i] == c)
  {
    if s == [] || s[0] == c then 0 else
      var i := Find(s[1..], c) + 1;
      assert s[..i] == [s[0]] + s[1..][..i - 1];
      i
  }

  /** White space for `str_trim`. */
  predicate Blank(o: Octet) {
    o == SPACE || 9 <= o <= 13
  }

  function LeadingBlanks(s: Text): (n: nat)
    ensures n <= |s| && (n < |s| ==> !Blank(s[n]))
  {
    if s == [] || !Blank(s[0]) then 0 else 1 + LeadingBlanks(s[1..])
  }

  function DropTrailing(s: Text): (t: Text)
    ensures t <= s && (t != [] ==> !Blank(t[|t| - 1]))
  {
    if s == [] || !Blank(s[|s| - 1]) then s else DropTrailing(s[..|s| - 1])
  }

  function Trim(s: Text): Text {
    DropTrailing(s[LeadingBlanks(s)..])
  }

  predicate Trimmed(s: Text) {
    s == [] || (!Blank(s[0]) && !Blank(s[|s| - 1]))
  }

  // Parsing

  /** `header_parse` on a C string, from a list that may already have fields. */
  function ParseHeaders(h: Headers, text: Text): Headers
    decreases |text|
  {
    var eol := Find(text, LF);
    if eol == |text| then h
    else
      var line := text[..eol];
      var colon := Find(line, COLON);
      if colon == |line| then ParseHeaders(h, text[eol + 1..])
      else ParseHeaders(Add(h, Trim(line[..colon]), Trim(line[colon + 1..]), false), text[eol + 1..])
  }

  datatype Request = Request(verb: Text, path: Text, version: Text, headers: Headers)

  /** Invalid: the source returns -1.  Overrun: it goes on reading behind the end of its input. */
  datatype ParsedRequest = Good(request: Request) | Invalid | Overrun

  datatype LineParts = Parts(verb: Text, path: Text, tail: Text) | NoParts

  /** The first line is cut at its first two spaces. */
  function SplitLine(line: Text): (p: LineParts)
    ensures p.Parts? ==> |p.tail| <= |line| && forall o :: o in p.verb || o in p.path || o in p.tail ==> o in line
  {
    var first := Find(line, SPACE);
    if first == |line| then NoParts
    else
      var rest := line[first + 1..];
      var second := Find(rest, SPACE);
      if second == |rest| then NoParts else Parts(line[..first], rest[..second], rest[second + 1..])
  }

  /** `parseRequest` up to the headers.  The headers are expected two octets behind the trimmed version;
      the line feed of the first line has become the end of a string by then. */
  function ParseRequest(text: Text): ParsedRequest {
    var eol := Find(text, LF);
    if eol == |text| then Invalid
    else
      match SplitLine(text[..eol])
      case NoParts => Invalid
      case Parts(verb, path, tail) =>
        var version := Trim(tail);
        var headers := eol - |tail| + LeadingBlanks(tail) + |version| + 2;
        if headers > |text| then Overrun
        else
          Good(Request(verb, path, version,
                       ParseHeaders(EmptyHeaders(), if headers <= eol then text[headers..eol] else text[headers..])))
  }

  // Printing

  function LineOctets(f: Field): (s: Text)
    ensures |s| == |f.name| + |f.value| + 4
  {
    f.name + [COLON, SPACE] + f.value + [CR, LF]
  }

  function LinesOctets(fields: seq<Field>): Text {
    if fields == [] then [] else LineOctets(fields[0]) + LinesOctets(fields[1..])
  }

  /** `header_serialize` */
  function HeaderOctets(fields: seq<Field>): Text {
    LinesOctets(fields) + [CR, LF]
  }

  /** `serializeRequest` without a body. */
  function RequestOctets(verb: Text, path: Text, version: Text, fields: seq<Field>): Text {
    verb + [SPACE] + path + [SPACE] + version + [CR, LF] + HeaderOctets(fields)
  }

  // Finding and trimming

  lemma {:induction false} FindIn(a: Text, c: Octet, b: Text)
    requires c !in a
    ensures Find(a + [c] + b, c) == |a|
  {
    if a != [] {
      FindIn(a[1..], c, b);
      assert (a + [c] + b)[1..] == a[1..] + [c] + b && a[0] in a;
    }
  }

  lemma {:induction false} FindNone(s: Text, c: Octet)
    requires c !in s
    ensures Find(s, c) == |s|
  {
  }

  lemma {:induction false} TrimIsTrimmed(s: Text)
    ensures Trimmed(Trim(s)) && (forall o :: o in Trim(s) ==> o in s) && |Trim(s)| <= |s|
  {
    hide LeadingBlanks, DropTrailing;
    var n := LeadingBlanks(s);
    var d := DropTrailing(s[n..]);
    assert d == s[n..][..|d|] == s[n..n + |d|];
    assert d != [] ==> d[0] == s[n];
  }

  lemma {:induction false} LeadingBlanksOf(a: Text, s: Text)
    requires (forall o :: o in a ==> Blank(o)) && (s != [] ==> !Blank(s[0]))
    ensures LeadingBlanks(a + s) == |a|
  {
    var n := LeadingBlanks(a + s);
    if a == [] {
      assert a + s == s;
    } else {
      assert (a + s)[0] == a[0] && a[0] in a;
      assert (a + s)[1..] == a[1..] + s;
      LeadingBlanksOf(a[1..], s);
    }
  }

  lemma {:induction false} DropTrailingOf(s: Text, b: Text)
    requires (forall o :: o in b ==> Blank(o)) && (s != [] ==> !Blank(s[|s| - 1]))
    ensures DropTrailing(s + b) == s
    decreases |b|
  {
    if b == [] {
      assert s + b == s;
    } else {
      assert b[|b| - 1] in b;
      assert (s + b)[..|s + b| - 1] == s + b[..|b| - 1];
      DropTrailingOf(s, b[..|b| - 1]);
    }
  }

  /** White space around a trimmed text. */
  lemma {:induction false} TrimPadded(a: Text, s: Text, b: Text)
    requires (forall o :: o in a ==> Blank(o)) && (forall o :: o in b ==> Blank(o)) && Trimmed(s)
    ensures Trim(a + s + b) == s && LeadingBlanks(a + s + b) == if s == [] then |a| + |b| else |a|
  {
    if s == [] {
      LeadingBlanksOf(a + b, []);
      assert a + s + b == a + b + [];
    } else {
      LeadingBlanksOf(a, s + b);
      assert a + s + b == a + (s + b) && (a + s + b)[|a|..] == s + b;
      DropTrailingOf(s, b);
    }
  }

  // Header lines

  /** The field of a line, if it has a colon. */
  function LineField(line: Text): seq<Field> {
    var colon := Find(line, COLON);
    if colon == |line| then [] else [Field(Lower(Trim(line[..colon])), Trim(line[colon + 1..]))]
  }

  /** The fields of the lines, in order. */
  function FieldsIn(text: Text): seq<Field>
    decreases |text|
  {
    var eol := Find(text, LF);
    if eol == |text| then [] else LineField(text[..eol]) + FieldsIn(text[eol + 1..])
  }

  lemma {:induction false} ParsedContents(h: Headers, text: Text)
    requires Sound(h)
    ensures Sound(ParseHeaders(h, text)) && Contents(ParseHeaders(h, text)) == Contents(h) + FieldsIn(text)
    decreases |text|
  {
    hide Sound, Contents, Add, Trim, Lower, Find;
    var eol := Find(text, LF);
    if eol == |text| {
      assert Contents(h) + [] == Contents(h);
    } else {
      var line, rest := text[..eol], text[eol + 1..];
      var colon := Find(line, COLON);
      if colon == |line| {
        ParsedContents(h, rest);
        assert [] + FieldsIn(rest) == FieldsIn(rest);
      } else {
        var name, value := Trim(line[..colon]), Trim(line[colon + 1..]);
        AddMeans(h, name, value, false);
        ParsedContents(Add(h, name, value, false), rest);
        InOrder(Contents(h), Field(Lower(name), value), FieldsIn(rest));
      }
    }
  }

  lemma InOrder(before: seq<Field>, f: Field, after: seq<Field>)
    ensures before + [f] + after == before + ([f] + after)
  {
  }

  /** A field that survives printing and parsing. */
  predicate FieldFit(f: Field) {
    && Lower(f.name) == f.name && Trimmed(f.name) && COLON !in f.name && LF !in f.name
    && Trimmed(f.value) && LF !in f.value
  }

  predicate FieldsFit(fields: seq<Field>) {
    forall i :: 0 <= i < |fields| ==> FieldFit(fields[i])
  }

  lemma {:induction false} FieldsInLine(line: Text, text: Text)
    requires LF !in line
    ensures FieldsIn(line + [LF] + text) == LineField(line) + FieldsIn(text)
  {
    hide LineField, Find;
    var s := line + [LF] + text;
    FindIn(line, LF, text);
    assert s[..|line|] == line && s[|line| + 1..] == text;
  }

  lemma {:induction false} FitLine(f: Field, text: Text)
    requires FieldFit(f)
    ensures FieldsIn(LineOctets(f) + text) == [f] + FieldsIn(text)
  {
    hide Trim, Lower, Trimmed, Find, FieldsIn;
    var line := f.name + [COLON, SPACE] + f.value + [CR];
    assert LineOctets(f) + text == line + [LF] + text;
    FieldsInLine(line, text);
    var value := [SPACE] + f.value + [CR];
    assert line == f.name + [COLON] + value;
    FindIn(f.name, COLON, value);
    assert line[..|f.name|] == f.name && line[|f.name| + 1..] == value;
    TrimPadded([], f.name, []);
    assert [] + f.name + [] == f.name;
    TrimPadded([SPACE], f.value, [CR]);
  }

  lemma {:induction false} FitLines(fields: seq<Field>, text: Text)
    requires FieldsFit(fields)
    ensures FieldsIn(LinesOctets(fields) + text) == fields + FieldsIn(text)
  {
    hide FieldsIn, FieldFit, LineOctets;
    if fields == [] {
      assert [] + text == text && fields + FieldsIn(text) == FieldsIn(text);
    } else {
      var f, rest := fields[0], fields[1..];
      FitLines(rest, text);
      FitLine(f, LinesOctets(rest) + text);
      assert LinesOctets(fields) + text == LineOctets(f) + (LinesOctets(rest) + text);
      assert [f] + (rest + FieldsIn(text)) == fields + FieldsIn(text);
    }
  }

  lemma {:induction false} LastLine()
    ensures FieldsIn([CR, LF]) == [] && FieldsIn([LF]) == []
  {
    FieldsInLine([CR], []);
    FieldsInLine([], []);
    assert [CR] + [LF] + [] == [CR, LF] && [] + [LF] + [] == [LF];
    FindNone([CR], COLON);
  }

  /** Whatever is parsed fits. */
  lemma {:induction false} ParsedFieldsFit(text: Text)
    ensures FieldsFit(FieldsIn(text))
    decreases |text|
  {
    hide Trim, Lower, Trimmed;
    var eol := Find(text, LF);
    if eol < |text| {
      var line := text[..eol];
      var colon := Find(line, COLON);
      ParsedFieldsFit(text[eol + 1..]);
      if colon < |line| {
        LineFits(line[..colon], line[colon + 1..]);
      }
    }
  }

  lemma {:induction false} LineFits(name: Text, value: Text)
    requires COLON !in name && LF !in name && LF !in value
    ensures FieldFit(Field(Lower(Trim(name)), Trim(value)))
  {
    hide Trim;
    TrimIsTrimmed(name);
    TrimIsTrimmed(value);
    var t := Trim(name);
    LowerIsLower(t);
    assert forall i :: 0 <= i < |t| ==>
        && t[i] in name && (Blank(LowerOctet(t[i])) <==> Blank(t[i]))
        && LowerOctet(t[i]) != COLON && LowerOctet(t[i]) != LF;
  }

  // The round trip

  predicate RequestFit(verb: Text, path: Text, version: Text, fields: seq<Field>) {
    && SPACE !in verb && LF !in verb && SPACE !in path && LF !in path
    && Trimmed(version) && LF !in version && (version != [] || fields == [])
    && FieldsFit(fields)
  }

  /** The parser returns the request that was printed. */
  ghost predicate Returns(p: ParsedRequest, verb: Text, path: Text, version: Text, fields: seq<Field>) {
    && p.Good? && p.request.verb == verb && p.request.path == path && p.request.version == version
    && Contents(p.request.headers) == fields
  }

  /** The first line, and what the headers are read from. */
  lemma {:induction false} FirstLine(verb: Text, path: Text, version: Text, tail: Text)
    requires SPACE !in verb && LF !in verb && SPACE !in path && LF !in path && Trimmed(version) && LF !in version
    requires tail != []
    ensures ParseRequest(verb + [SPACE] + path + [SPACE] + version + [CR, LF] + tail)
         == Good(Request(verb, path, version, ParseHeaders(EmptyHeaders(), if version == [] then tail[1..] else tail)))
  {
    hide ParseHeaders, Trimmed, Trim, SplitLine;
    var last := version + [CR];
    var line := verb + [SPACE] + path + [SPACE] + last;
    var text := verb + [SPACE] + path + [SPACE] + version + [CR, LF] + tail;
    assert text == line + [LF] + tail;
    FindIn(line, LF, tail);
    assert text[..|line|] == line;
    SplitParts(verb, path, last);
    TrimPadded([], version, [CR]);
    assert [] + version + [CR] == last;
    assert text[|line| + 1..] == tail && (version == [] ==> text[|line| + 2..] == tail[1..]);
  }

  lemma {:induction false} SplitParts(verb: Text, path: Text, last: Text)
    requires SPACE !in verb && SPACE !in path
    ensures SplitLine(verb + [SPACE] + path + [SPACE] + last) == Parts(verb, path, last)
  {
    var line, rest := verb + [SPACE] + path + [SPACE] + last, path + [SPACE] + last;
    assert line == verb + [SPACE] + rest;
    FindIn(verb, SPACE, rest);
    assert line[..|verb|] == verb && line[|verb| + 1..] == rest;
    FindIn(path, SPACE, last);
    assert rest[..|path|] == path && rest[|path| + 1..] == last;
  }

  lemma {:induction false} ParsedRequestFits(text: Text)
    requires ParseRequest(text).Good?
    ensures var r := ParseRequest(text).request;
            && SPACE !in r.verb && LF !in r.verb && SPACE !in r.path && LF !in r.path
            && Trimmed(r.version) && LF !in r.version && Sound(r.headers) && FieldsFit(Contents(r.headers))
  {
    hide ParseHeaders, Trim, Trimmed, FieldFit, FieldsFit, Contents, Sound, SplitLine;
    var eol := Find(text, LF);
    SplitHasNoSpaces(text[..eol]);
    var tail := SplitLine(text[..eol]).tail;
    TrimIsTrimmed(tail);
    var headers := eol - |tail| + LeadingBlanks(tail) + |Trim(tail)| + 2;
    HeadersFit(if headers <= eol then text[headers..eol] else text[headers..]);
  }

  lemma SplitHasNoSpaces(line: Text)
    ensures var p := SplitLine(line); p.Parts? ==> SPACE !in p.verb && SPACE !in p.path
  {
  }

  lemma {:induction false} HeadersFit(text: Text)
    ensures var h := ParseHeaders(EmptyHeaders(), text);
            Sound(h) && Contents(h) == FieldsIn(text) && FieldsFit(FieldsIn(text))
  {
    hide ParseHeaders, FieldsFit, FieldsIn;
    EmptyAgrees();
    ParsedContents(EmptyHeaders(), text);
    ParsedFieldsFit(text);
    assert [] + FieldsIn(text) == FieldsIn(text);
  }

  /** Without a version, the first octet of the headers is skipped, which spoils any first field. */
  lemma {:induction false} SkippedOctet(fields: seq<Field>)
    requires fields != [] && FieldsFit(fields)
    ensures FieldsIn(HeaderOctets(fields)[1..]) != fields
  {
    hide FieldsIn, Trim, Lower, Trimmed;
    var f, rest := fields[0], fields[1..];
    var line := (f.name + [COLON, SPACE] + f.value + [CR])[1..];
    var others := LinesOctets(rest) + [CR, LF];
    assert HeaderOctets(fields)[1..] == line + [LF] + others;
    FieldsInLine(line, others);
    FitLines(rest, [CR, LF]);
    LastLine();
    assert rest + [] == rest;
    var colon := Find(line, COLON);
    if colon == |line| {
      assert |FieldsIn(HeaderOctets(fields)[1..])| == |rest|;
    } else {
      var name, value := line[..colon], line[colon + 1..];
      TrimIsTrimmed(name);
      TrimIsTrimmed(value);
      ShorterField(f, line, colon);
      assert FieldsIn(HeaderOctets(fields)[1..])[0] == Field(Lower(Trim(name)), Trim(value));
    }
  }

  lemma {:induction false} ShorterField(f: Field, line: Text, colon: nat)
    requires line == (f.name + [COLON, SPACE] + f.value + [CR])[1..] && COLON !in f.name
    requires colon == Find(line, COLON) < |line|
    ensures |Trim(line[..colon])| < |f.name| || |Trim(line[colon + 1..])| < |f.value|
  {
    hide Find, Trim;
    if f.name != [] {
      var value := [SPACE] + f.value + [CR];
      assert line == f.name[1..] + [COLON] + value;
      FindIn(f.name[1..], COLON, value);
      TrimIsTrimmed(line[..colon]);
    } else {
      assert line == [SPACE] + f.value + [CR];
      assert colon > 0 && colon <= |f.value|;
      var v := f.value[colon..];
      assert line[colon + 1..] == v + [CR];
      TrimsCr(v);
    }
  }

  lemma {:induction false} TrimsCr(v: Text)
    ensures |Trim(v + [CR])| <= |v|
  {
    var s := v + [CR];
    var t := s[LeadingBlanks(s)..];
    if t != [] {
      assert t[|t| - 1] == CR;
    }
  }

  /** `parseRequest` undoes `serializeRequest` exactly on the requests that fit: no space or line feed in
      method and path, a trimmed version, lower-case trimmed names without separators, trimmed values. */
  lemma {:induction false} RequestRoundTrip(verb: Text, path: Text, version: Text, fields: seq<Field>)
    ensures Returns(ParseRequest(RequestOctets(verb, path, version, fields)), verb, path, version, fields)
       <==> RequestFit(verb, path, version, fields)
  {
    hide ParseRequest, ParseHeaders, Contents, Sound, FieldsFit, FieldsIn, Trimmed;
    var text, tail := RequestOctets(verb, path, version, fields), HeaderOctets(fields);
    if SPACE !in verb && LF !in verb && SPACE !in path && LF !in path && Trimmed(version) && LF !in version
        && FieldsFit(fields) {
      FirstLine(verb, path, version, tail);
      var read := if version == [] then tail[1..] else tail;
      HeadersFit(read);
      LastLine();
      if version != [] {
        FitLines(fields, [CR, LF]);
        assert fields + [] == fields;
      } else if fields != [] {
        SkippedOctet(fields);
      } else {
        assert tail[1..] == [LF];
      }
    } else if ParseRequest(text).Good? {
      ParsedRequestFits(text);
    }
  }

  // The index of a parsed request

  /** The additions that the lines of a text cause. */
  function Additions(text: Text): seq<Operation>
    decreases |text|
  {
    var eol := Find(text, LF);
    if eol == |text| then []
    else
      var line := text[..eol];
      var colon := Find(line, COLON);
      (if colon == |line| then [] else [AddOp(Trim(line[..colon]), Trim(line[colon + 1..]))])
          + Additions(text[eol + 1..])
  }

  lemma {:induction false} ParsingAdds(h: Headers, text: Text)
    requires Reachable(h)
    ensures ParseHeaders(h, text) == AfterAll(h, Additions(text))
    decreases |text|
  {
    hide Reachable, Sound, Add, Trim, Find, AfterAll, TryAdd, SetOrAdd, Del;
    ReachableIsSound(h);
    var eol := Find(text, LF);
    if eol == |text| {
      NoOperations(h);
    } else {
      var line, rest := text[..eol], text[eol + 1..];
      var colon := Find(line, COLON);
      if colon == |line| {
        ParsingAdds(h, rest);
        assert [] + Additions(rest) == Additions(rest);
      } else {
        var op := AddOp(Trim(line[..colon]), Trim(line[colon + 1..]));
        OneOperation(h, op, Additions(rest));
        ParsingAdds(Apply(h, op), rest);
      }
    }
  }

  lemma NoOperations(h: Headers)
    requires Reachable(h)
    ensures AfterAll(h, []) == h
  {
  }

  lemma OneOperation(h: Headers, op: Operation, rest: seq<Operation>)
    requires Reachable(h)
    ensures Sound(h) && Reachable(Apply(h, op)) && AfterAll(h, [op] + rest) == AfterAll(Apply(h, op), rest)
  {
    hide Reachable, Sound, Apply;
    ReachableIsSound(h);
    ApplyAgrees(h, op);
    assert ([op] + rest)[1..] == rest;
  }

  /** `header_get` on parsed headers is reliable for every name exactly when no name that is written with
      a capital letter repeats an earlier one. */
  lemma {:induction false} ParsedIndexAgrees(text: Text)
    ensures Reachable(EmptyHeaders())
    ensures IndexAgrees(ParseHeaders(EmptyHeaders(), text)) <==> AllHarmless(EmptyHeaders(), Additions(text))
  {
    hide Reachable, IndexAgrees, ParseHeaders, AllHarmless, AfterAll;
    EmptyAgrees();
    ParsingAdds(EmptyHeaders(), text);
    RunAgrees(EmptyHeaders(), Additions(text));
  }
}
