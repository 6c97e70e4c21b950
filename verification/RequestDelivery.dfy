/** An HTTP/1 request from one end of a connection to the other: printed, cut into reads, found by its empty
    line and parsed. */
module RequestDelivery {
  import opened BitStrings
  import opened ByteBuffer
  import opened HpackTable
  import opened HttpRequest
  import T = TerminatorScan

  // The empty line is the first one

  /** No line of a text consists of a CR alone. */
  ghost predicate NoEmptyLine(s: Text) {
    forall i :: 0 <= i && i + 2 < |s| ==> !(s[i] == LF && s[i + 1] == CR && s[i + 2] == LF)
  }

  lemma {:induction false} OneMoreLine(s: Text, line: Text)
    requires NoEmptyLine(s) && |line| >= 2 && LF !in line
    ensures NoEmptyLine(s + line + [LF])
  {
    var t := s + line + [LF];
    forall i | 0 <= i && i + 2 < |t| ensures !(t[i] == LF && t[i + 1] == CR && t[i + 2] == LF) {
      if i + 2 < |s| {
        assert t[i] == s[i] && t[i + 1] == s[i + 1] && t[i + 2] == s[i + 2];
      } else if i + 2 < |s + line| {
        assert t[i + 2] == line[i + 2 - |s|];
      } else {
        assert t[i] == line[i - |s|];
      }
    }
  }

  lemma {:induction false} MoreLines(s: Text, fields: seq<Field>)
    requires NoEmptyLine(s) && FieldsFit(fields)
    ensures NoEmptyLine(s + LinesOctets(fields))
    decreases |fields|
  {
    hide NoEmptyLine;
    if fields == [] {
      assert s + [] == s;
    } else {
      var f, rest := fields[0], fields[1..];
      var line := f.name + [COLON, SPACE] + f.value + [CR];
      FieldHasNoLineFeed(f);
      OneMoreLine(s, line);
      assert s + line + [LF] == s + LineOctets(f);
      MoreLines(s + LineOctets(f), rest);
      assert s + LineOctets(f) + LinesOctets(rest) == s + (LineOctets(f) + LinesOctets(rest));
    }
  }

  lemma FieldHasNoLineFeed(f: Field)
    requires FieldFit(f)
    ensures LF !in f.name && LF !in f.value
  {
  }

  lemma {:induction false} FirstEmptyLine(s: Text, r: Option<nat>)
    requires NoEmptyLine(s) && |s| >= 2 && s[|s| - 2..] == [CR, LF] && T.FirstEnd(s + [CR, LF], r)
    ensures r == Some(|s| + 2)
  {
    hide T.Ends;
    var t := s + [CR, LF];
    EndsAsText(t[..|t|]);
    assert t[..|t|] == t && t[|t| - 4..] == [CR, LF] + [CR, LF] == [CR, LF, CR, LF];
    assert T.Ends(t[..|t|], 4);
    if r.Some? && r.value < |t| {
      var e := r.value;
      EndsAsText(t[..e]);
      assert t[..e][e - 4..] == t[e - 4..e];
      assert t[e - 3] == t[e - 4..e][1] && t[e - 2] == t[e - 4..e][2] && t[e - 1] == t[e - 4..e][3];
      EarlierEmptyLine(s, e);
    }
  }

  lemma EarlierEmptyLine(s: Text, e: nat)
    requires 4 <= e < |s| + 2 && NoEmptyLine(s)
    ensures var t := s + [CR, LF]; !(t[e - 3] == LF && t[e - 2] == CR && t[e - 1] == LF)
  {
    var i := e - 3;
    if e - 1 < |s| {
      assert i + 2 < |s|;
    }
  }

  lemma EndsAsText(s: Text)
    ensures T.Ends(s, 4) <==> |s| >= 4 && s[|s| - 4..] == [CR, LF, CR, LF]
  {
    assert T.PATTERN[..4] == T.PATTERN;
  }

  lemma {:induction false} RequestEndsOnce(verb: Text, path: Text, version: Text, fields: seq<Field>, r: Option<nat>)
    requires RequestFit(verb, path, version, fields) && T.FirstEnd(RequestOctets(verb, path, version, fields), r)
    ensures r == Some(|RequestOctets(verb, path, version, fields)|)
  {
    hide T.FirstEnd, NoEmptyLine, FieldsFit, Trimmed;
    var line := verb + [SPACE] + path + [SPACE] + version + [CR];
    EmptyHasNoLine();
    OneMoreLine([], line);
    var s := [] + line + [LF];
    MoreLines(s, fields);
    LinesEnd(s, fields);
    assert s + LinesOctets(fields) + [CR, LF] == RequestOctets(verb, path, version, fields);
    assert s[|s| - 2..] == [CR, LF];
    FirstEmptyLine(s + LinesOctets(fields), r);
  }

  lemma EmptyHasNoLine()
    ensures NoEmptyLine([])
  {
  }

  lemma {:induction false} LinesEnd(s: Text, fields: seq<Field>)
    requires |s| >= 2 && s[|s| - 2..] == [CR, LF]
    ensures var t := s + LinesOctets(fields); |t| >= 2 && t[|t| - 2..] == [CR, LF]
    decreases |fields|
  {
    if fields == [] {
      assert s + [] == s;
    } else {
      var t := s + LineOctets(fields[0]);
      assert t[|t| - 2..] == [CR, LF];
      LinesEnd(t, fields[1..]);
      assert t + LinesOctets(fields[1..]) == s + LinesOctets(fields);
    }
  }

  /** A request that fits, read in segments of at least three octets or none, is recognised at its last octet and
      parsed back. */
  lemma {:induction false} RequestArrives(verb: Text, path: Text, version: Text, fields: seq<Field>,
                                          segments: seq<Text>, r: Option<nat>, whole: Option<nat>)
    requires RequestFit(verb, path, version, fields)
    requires Concat(segments) == RequestOctets(verb, path, version, fields)
    requires forall s :: s in segments ==> s == [] || |s| >= 3
    requires T.ScanFinds([], segments, r) && T.FirstEnd(Concat(segments), whole)
    ensures r.Some? && r.value == |Concat(segments)|
    ensures Returns(ParseRequest(Concat(segments)[..r.value]), verb, path, version, fields)
  {
    hide T.FirstEnd, T.ScanFinds, Concat, RequestOctets, ParseRequest, RequestFit, Returns;
    T.LongSegmentsAreExact(segments, r, whole);
    RequestEndsOnce(verb, path, version, fields, whole);
    RequestRoundTrip(verb, path, version, fields);
    assert Concat(segments)[..r.value] == Concat(segments);
  }
}
