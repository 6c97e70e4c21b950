/** Requests told by their text: the characters of a printed request, and what surplus white space in the
    first line does to the headers. */
module HttpText {
  import opened BitStrings
  import opened HpackTable
  import opened HpackStatic
  import opened HpackCodec
  import opened HeaderList
  import opened HttpRequest

  // Characters

  /** Names lose the capitals of ASCII and nothing else; space, tab, line feed, vertical tab, form feed and
      carriage return are white space. */
  lemma {:induction false} CharactersMean(o: Octet)
    ensures LowerOctet(o) == if 'A' as int <= o <= 'Z' as int then o + 'a' as int - 'A' as int else o
    ensures Blank(o) <==> o in Ascii(" \t\n\r") || o == 11 || o == 12
  {
    assert Ascii(" \t\n\r") == [32, 9, 10, 13];
  }

  /** A printed line, and the lines of a request in order. */
  function LineText(f: Field): Text {
    f.name + Ascii(": ") + f.value + Ascii("\r\n")
  }

  function LinesText(fields: seq<Field>): Text {
    if fields == [] then [] else LinesText(fields[..|fields| - 1]) + LineText(fields[|fields| - 1])
  }

  lemma Characters()
    ensures Ascii(" ") == [SPACE] && Ascii(": ") == [COLON, SPACE] && Ascii("\r\n") == [CR, LF]
  {
  }

  lemma {:induction false} LinesConcat(a: seq<Field>, b: seq<Field>)
    ensures LinesOctets(a + b) == LinesOctets(a) + LinesOctets(b)
  {
    if a == [] {
      assert a + b == b;
    } else {
      assert (a + b)[1..] == a[1..] + b;
      LinesConcat(a[1..], b);
    }
  }

  lemma {:induction false} LinesAreText(fields: seq<Field>)
    ensures LinesOctets(fields) == LinesText(fields)
    decreases |fields|
  {
    hide Ascii;
    Characters();
    if fields != [] {
      var front, last := fields[..|fields| - 1], fields[|fields| - 1];
      LinesAreText(front);
      LinesConcat(front, [last]);
      assert fields == front + [last] && LinesOctets([last]) == LineOctets(last) + [] == LineText(last);
    }
  }

  lemma {:induction false} RequestIsText(verb: Text, path: Text, version: Text, fields: seq<Field>)
    ensures RequestOctets(verb, path, version, fields)
         == verb + Ascii(" ") + path + Ascii(" ") + version + Ascii("\r\n") + LinesText(fields) + Ascii("\r\n")
  {
    hide Ascii, LinesText, LinesOctets;
    Characters();
    LinesAreText(fields);
  }

  // The first line

  /** A method, a path and the rest of the first line, with a space behind each of the first two. */
  ghost predicate Splits(text: Text, verb: Text, path: Text, tail: Text, rest: Text) {
    && text == verb + [32] + path + [32] + tail + [10] + rest
    && 32 !in verb && 10 !in verb && 32 !in path && 10 !in path && 10 !in tail
  }

  /** The source returns -1 exactly when the text does not begin with such a line. */
  lemma {:induction false} InvalidExactly(text: Text)
    ensures ParseRequest(text).Invalid? <==> !exists verb, path, tail, rest :: Splits(text, verb, path, tail, rest)
  {
    hide ParseHeaders, Trim, LeadingBlanks;
    var eol := Find(text, LF);
    if eol < |text| {
      var line, parts := text[..eol], SplitLine(text[..eol]);
      if parts.Parts? {
        SplitJoins(line);
        assert text == line + [LF] + text[eol + 1..];
        assert Splits(text, parts.verb, parts.path, parts.tail, text[eol + 1..]);
      }
    }
    if verb, path, tail, rest :| Splits(text, verb, path, tail, rest) {
      var line := verb + [SPACE] + path + [SPACE] + tail;
      assert text == line + [LF] + rest;
      FindIn(line, LF, rest);
      assert text[..|line|] == line;
      SplitParts(verb, path, tail);
    }
  }

  lemma SplitJoins(line: Text)
    ensures var p := SplitLine(line);
            p.Parts? ==> line == p.verb + [32] + p.path + [32] + p.tail && 32 !in p.verb && 32 !in p.path
  {
  }

  /** Where the headers of a request are read from: two octets behind the trimmed version, but not beyond the
      end of the first line when that comes later. */
  function HeaderText(version: Text, after: Text, rest: Text): Option<Text> {
    if version == [] || after == [] then (if rest == [] then None else Some(rest[1..]))
    else if |after| == 1 then Some(rest)
    else Some([])
  }

  /** A first line with white space around its version, and the lines behind it.  One octet of white space in
      front of the line feed is expected, the CR: with none the first octet of the headers is lost, and with
      more all headers are. */
  lemma {:induction false} FirstLineExactly(verb: Text, path: Text, before: Text, version: Text, after: Text,
                                            rest: Text)
    requires SPACE !in verb && LF !in verb && SPACE !in path && LF !in path && Trimmed(version) && LF !in version
    requires (forall o :: o in before ==> Blank(o)) && LF !in before
    requires (forall o :: o in after ==> Blank(o)) && LF !in after
    ensures var text := verb + [SPACE] + path + [SPACE] + before + version + after + [LF] + rest;
            match HeaderText(version, after, rest)
            case None => ParseRequest(text).Overrun?
            case Some(headers) =>
              ParseRequest(text) == Good(Request(verb, path, version, ParseHeaders(EmptyHeaders(), headers)))
  {
    hide ParseHeaders, Trimmed, Trim, SplitLine, LeadingBlanks;
    var tail := before + version + after;
    var line := verb + [SPACE] + path + [SPACE] + tail;
    var text := verb + [SPACE] + path + [SPACE] + before + version + after + [LF] + rest;
    assert text == line + [LF] + rest;
    FindIn(line, LF, rest);
    assert text[..|line|] == line;
    SplitParts(verb, path, tail);
    TrimPadded(before, version, after);
    var headers := |line| - |tail| + LeadingBlanks(tail) + |version| + 2;
    if version == [] || after == [] {
      assert headers == |line| + 2;
      if rest != [] {
        assert text[headers..] == rest[1..];
      }
    } else if |after| == 1 {
      assert headers == |line| + 1 && text[headers..] == rest;
    } else {
      assert headers <= |line| && text[headers..|line|] == after[2..];
      NoLines(after[2..]);
      NoLines([]);
    }
  }

  /** One space behind the version, and the request has no headers. */
  lemma {:induction false} TrailingSpaceLosesHeaders(lines: Text)
    ensures ParseRequest(Ascii("GET / HTTP/1.1 \r\n") + lines)
         == Good(Request(Ascii("GET"), Ascii("/"), Ascii("HTTP/1.1"), EmptyHeaders()))
  {
    hide ParseRequest, ParseHeaders;
    var verb, path, version := Ascii("GET"), Ascii("/"), Ascii("HTTP/1.1");
    var after: Text := [32, 13];
    assert Ascii("GET / HTTP/1.1 \r\n") == verb + [SPACE] + path + [SPACE] + [] + version + after + [LF];
    FirstLineExactly(verb, path, [], version, after, lines);
    NoLines([]);
  }

  lemma NoLines(text: Text)
    requires LF !in text
    ensures ParseHeaders(EmptyHeaders(), text) == EmptyHeaders()
  {
  }
}
