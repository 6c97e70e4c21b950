/**
 The incremental search for the empty line that ends an HTTP/1 request: a matcher over each new segment,
 prepared with the last three octets of the segment before it.
 */
module TerminatorScan {
  import opened BitStrings
  import opened ByteBuffer
  import opened HpackTable

  /** CR LF CR LF */
  const PATTERN: Text := [13, 10, 13, 10]

  // The matcher

  /** The pattern's first `j` octets end the text. */
  predicate Ends(s: Text, j: nat) {
    j <= |s| && j <= 4 && s[|s| - j..] == PATTERN[..j]
  }

  /** The match length after one more octet. */
  function Next(m: nat, c: Octet): (m': nat)
    requires m < 4
    ensures m' <= m + 1
  {
    if c == PATTERN[m] then m + 1 else if c == PATTERN[0] then 1 else 0
  }

  /** The longest suffix of the text that is a prefix of the pattern. */
  ghost predicate IsLongest(s: Text, m: nat) {
    m <= 4 && Ends(s, m) && forall j :: m < j <= 4 ==> !Ends(s, j)
  }

  lemma {:induction false} EndsStep(s: Text, c: Octet, j: nat)
    requires j < 4
    ensures Ends(s + [c], j + 1) <==> Ends(s, j) && c == PATTERN[j]
  {
    var t := s + [c];
    if j <= |s| {
      assert t[|t| - (j + 1)..] == s[|s| - j..] + [c];
      assert PATTERN[..j + 1] == PATTERN[..j] + [PATTERN[j]];
      if s[|s| - j..] + [c] == PATTERN[..j] + [PATTERN[j]] {
        assert (s[|s| - j..] + [c])[..j] == s[|s| - j..] && (s[|s| - j..] + [c])[j] == c;
        assert (PATTERN[..j] + [PATTERN[j]])[..j] == PATTERN[..j];
      }
    }
  }

  lemma EndsNothing(s: Text)
    ensures Ends(s, 0)
  {
    assert s[|s|..] == [] == PATTERN[..0];
  }

  /** Shorter matches inside a match, for this pattern. */
  lemma {:induction false} EndsInside(s: Text, m: nat, j: nat)
    requires Ends(s, m) && j < m
    ensures Ends(s, j) <==> j == 0 || (j == 1 && m == 3) || (j == 2 && m == 4)
  {
    EndsNothing(s);
    if j > 0 {
      var t := s[|s| - m..];
      var u := PATTERN[m - j..m];
      assert s[|s| - j..] == t[m - j..] == PATTERN[..m][m - j..] == u;
      assert u[0] == PATTERN[m - j] && PATTERN[..j][0] == PATTERN[0];
      assert j == 1 && m == 3 ==> u == PATTERN[..j];
      assert j == 2 && m == 4 ==> u == PATTERN[..j];
    }
  }

  /** One step keeps the match length the longest. */
  lemma {:induction false} NextIsLongest(s: Text, m: nat, c: Octet)
    requires IsLongest(s, m) && m < 4
    ensures IsLongest(s + [c], Next(m, c))
  {
    hide Ends;
    EndsNothing(s + [c]);
    EndsNothing(s);
    forall j | 0 <= j < 4 ensures Ends(s + [c], j + 1) <==> Ends(s, j) && c == PATTERN[j] {
      EndsStep(s, c, j);
    }
    forall j | 0 <= j < m ensures Ends(s, j) <==> j == 0 || (j == 1 && m == 3) {
      EndsInside(s, m, j);
    }
    assert forall j :: m < j < 4 ==> !Ends(s, j);
    forall j | 1 <= j <= 4 ensures Ends(s + [c], j) <==> Ends(s, j - 1) && c == PATTERN[j - 1] {
      assert Ends(s + [c], (j - 1) + 1) <==> Ends(s, j - 1) && c == PATTERN[j - 1];
    }
  }

  // One segment

  function LastThree(s: Text): (t: Text)
    ensures |t| <= 3 && |t| <= |s| && t == s[|s| - |t|..]
  {
    if |s| <= 3 then s else s[|s| - 3..]
  }

  /** The number of octets of the segment up to and with the end of the first match, if there is one. */
  ghost predicate FirstMatch(before: Text, segment: Text, r: Option<nat>) {
    match r
    case Some(i) => 0 < i <= |segment| && Ends(before + segment[..i], 4) && NoMatch(before, segment, i - 1)
    case None => NoMatch(before, segment, |segment|)
  }

  ghost predicate NoMatch(before: Text, segment: Text, upTo: nat)
    requires upTo <= |segment|
  {
    forall k :: 0 < k <= upTo ==> !Ends(before + segment[..k], 4)
  }

  /** The match length after the last three octets of the segment before. */
  method LookBack(previous: Text) returns (matchLength: nat)
    ensures matchLength < 4 && IsLongest(LastThree(previous), matchLength)
  {
    hide Next, IsLongest;
    matchLength := 0;
    var checkingIndex: nat := if |previous| < 3 then 0 else |previous| - 3;
    ghost var start := checkingIndex;
    EndsAtMost([]);
    assert previous[start..start] == [];
    while checkingIndex < |previous|
      invariant start <= checkingIndex <= |previous| && matchLength <= checkingIndex - start
      invariant IsLongest(previous[start..checkingIndex], matchLength)
    {
      NextIsLongest(previous[start..checkingIndex], matchLength, previous[checkingIndex]);
      assert previous[start..checkingIndex] + [previous[checkingIndex]] == previous[start..checkingIndex + 1];
      matchLength := Next(matchLength, previous[checkingIndex]);
      checkingIndex := checkingIndex + 1;
    }
    assert LastThree(previous) == previous[start..checkingIndex];
  }

  /** The look-back, and the loop over the new segment. */
  method ScanSegment(previous: Text, segment: Text) returns (r: Option<nat>)
    ensures FirstMatch(LastThree(previous), segment, r)
  {
    hide Ends, Next, LastThree, IsLongest;
    var matchLength := LookBack(previous);
    ghost var before := LastThree(previous);
    assert before + segment[..0] == before;
    for i := 0 to |segment|
      invariant matchLength < 4 && IsLongest(before + segment[..i], matchLength)
      invariant NoMatch(before, segment, i)
    {
      NextIsLongest(before + segment[..i], matchLength, segment[i]);
      assert before + segment[..i] + [segment[i]] == before + segment[..i + 1];
      matchLength := Next(matchLength, segment[i]);
      LongestIsMatch(before + segment[..i + 1], matchLength);
      if matchLength == 4 {
        return Some(i + 1);
      }
    }
    return None;
  }

  lemma LongestIsMatch(s: Text, m: nat)
    requires IsLongest(s, m)
    ensures m <= 4 && (Ends(s, 4) <==> m == 4)
  {
  }

  lemma EndsAtMost(s: Text)
    requires |s| <= 3
    ensures s == [] ==> IsLongest(s, 0)
  {
    EndsNothing(s);
  }

  // All segments

  /** Where the first match ends, found segment by segment; `previous` is the segment before them.  A read
      of no octets is left before the look-back and changes nothing. */
  ghost predicate ScanFinds(previous: Text, segments: seq<Text>, r: Option<nat>)
    decreases |segments|
  {
    if segments == [] then r.None?
    else if segments[0] == [] then ScanFinds(previous, segments[1..], r)
    else
      || (r.Some? && FirstMatch(LastThree(previous), segments[0], r))
      || (FirstMatch(LastThree(previous), segments[0], None)
          && var n := |segments[0]|;
             if r.None? then ScanFinds(segments[0], segments[1..], None)
             else r.value > n && ScanFinds(segments[0], segments[1..], Some(r.value - n)))
  }

  /** One read after the other, up to the first match. */
  method ScanReads(previous: Text, segments: seq<Text>) returns (r: Option<nat>)
    ensures ScanFinds(previous, segments, r)
    decreases |segments|
  {
    hide FirstMatch;
    if segments == [] {
      return None;
    }
    if segments[0] == [] {
      r := ScanReads(previous, segments[1..]);
      return;
    }
    var first := ScanSegment(previous, segments[0]);
    if first.Some? {
      return first;
    }
    var rest := ScanReads(segments[0], segments[1..]);
    if rest.None? {
      return None;
    }
    PositiveFind(segments[0], segments[1..], rest.value);
    return Some(|segments[0]| + rest.value);
  }

  lemma {:induction false} PositiveFind(previous: Text, segments: seq<Text>, e: nat)
    requires ScanFinds(previous, segments, Some(e))
    ensures e > 0
    decreases |segments|
  {
    if segments[0] == [] {
      PositiveFind(previous, segments[1..], e);
    }
  }

  /** An occurrence that ends `e` octets into the segments, and begins no earlier than in the segment
      before the one it ends in, empty segments not counted. */
  ghost predicate Visible(previous: Text, segments: seq<Text>, e: nat)
    decreases |segments|
  {
    segments != [] && e > 0 &&
    if segments[0] == [] then Visible(previous, segments[1..], e)
    else if e <= |segments[0]| then Ends(previous + segments[0][..e], 4)
    else Visible(segments[0], segments[1..], e - |segments[0]|)
  }

  lemma {:induction false} EndsSuffix(a: Text, b: Text, j: nat)
    requires j <= |b|
    ensures Ends(a + b, j) <==> Ends(b, j)
  {
    if j <= 4 {
      assert (a + b)[|a + b| - j..] == b[|b| - j..];
    }
  }

  /** Three octets of look-back are enough for the segment before. */
  lemma {:induction false} LastThreeSuffices(previous: Text, part: Text)
    requires part != []
    ensures Ends(LastThree(previous) + part, 4) <==> Ends(previous + part, 4)
  {
    hide Ends;
    var last := LastThree(previous);
    if |previous| > 3 {
      var front := previous[..|previous| - 3];
      assert previous + part == front + (last + part);
      EndsSuffix(front, last + part, 4);
    }
  }

  /** The scan finds exactly the first visible occurrence. */
  lemma {:induction false} ScanFindsFirstVisible(previous: Text, segments: seq<Text>, r: Option<nat>)
    requires ScanFinds(previous, segments, r)
    ensures match r
            case Some(e) => Visible(previous, segments, e) && forall k :: 0 < k < e ==> !Visible(previous, segments, k)
            case None => forall k: nat :: !Visible(previous, segments, k)
    decreases |segments|
  {
    hide Ends, LastThree;
    if segments != [] && segments[0] == [] {
      ScanFindsFirstVisible(previous, segments[1..], r);
    } else if segments != [] {
      var segment, n := segments[0], |segments[0]|;
      forall k | 0 < k <= n ensures Ends(LastThree(previous) + segment[..k], 4) <==> Ends(previous + segment[..k], 4) {
        LastThreeSuffices(previous, segment[..k]);
      }
      if !(r.Some? && FirstMatch(LastThree(previous), segment, r)) {
        ScanFindsFirstVisible(segment, segments[1..], if r.None? then None else Some(r.value - n));
      }
    }
  }

  // Against a search of the whole input

  ghost predicate FirstEnd(text: Text, r: Option<nat>) {
    match r
    case Some(e) => e <= |text| && Ends(text[..e], 4) && forall k :: 0 <= k < e ==> !Ends(text[..k], 4)
    case None => forall k :: 0 <= k <= |text| ==> !Ends(text[..k], 4)
  }

  lemma {:induction false} VisibleIsReal(before: Text, previous: Text, segments: seq<Text>, e: nat)
    requires |previous| <= |before| && before[|before| - |previous|..] == previous && Visible(previous, segments, e)
    ensures e <= |Concat(segments)| && Ends(before + Concat(segments)[..e], 4)
    decreases |segments|
  {
    hide Ends;
    var segment, n := segments[0], |segments[0]|;
    var all := Concat(segments);
    if n == 0 {
      assert all == Concat(segments[1..]);
      VisibleIsReal(before, previous, segments[1..], e);
    } else if e <= n {
      assert all[..e] == segment[..e];
      var front := before[..|before| - |previous|];
      assert before + all[..e] == front + (previous + segment[..e]);
      EndsLength(previous + segment[..e]);
      EndsSuffix(front, previous + segment[..e], 4);
    } else {
      var before' := before + segment;
      assert before'[|before'| - n..] == segment;
      VisibleIsReal(before', segment, segments[1..], e - n);
      assert before' + Concat(segments[1..])[..e - n] == before + all[..e];
    }
  }

  lemma EndsLength(s: Text)
    ensures Ends(s, 4) ==> |s| >= 4
  {
  }

  /** The scan agrees with a search of the whole input exactly when the first occurrence lies within two
      adjacent segments, or there is none. */
  lemma {:induction false} ScanIsExact(segments: seq<Text>, r: Option<nat>, whole: Option<nat>)
    requires ScanFinds([], segments, r) && FirstEnd(Concat(segments), whole)
    ensures r == whole <==> (whole.Some? ==> Visible([], segments, whole.value))
  {
    hide Ends, ScanFinds, Visible, Concat;
    ScanFindsFirstVisible([], segments, r);
    if r.Some? {
      VisibleIsReal([], [], segments, r.value);
      assert [] + Concat(segments)[..r.value] == Concat(segments)[..r.value];
      assert whole.Some? && whole.value <= r.value;
      EndsLength(Concat(segments)[..whole.value]);
    }
  }

  /** Segments of at least three octets, or none, hide nothing. */
  lemma {:induction false} LongSegmentsShowAll(before: Text, previous: Text, segments: seq<Text>, e: nat)
    requires |previous| <= |before| && before[|before| - |previous|..] == previous
    requires |previous| >= 3 || previous == before
    requires forall s :: s in segments ==> s == [] || |s| >= 3
    requires 0 < e <= |Concat(segments)| && Ends(before + Concat(segments)[..e], 4)
    ensures Visible(previous, segments, e)
    decreases |segments|
  {
    hide Ends;
    var segment, n := segments[0], |segments[0]|;
    var all := Concat(segments);
    assert segment in segments;
    if n == 0 {
      assert all == Concat(segments[1..]);
      LongSegmentsShowAll(before, previous, segments[1..], e);
    } else if e <= n {
      assert all[..e] == segment[..e];
      var front := before[..|before| - |previous|];
      assert before + all[..e] == front + (previous + segment[..e]);
      if |previous| >= 3 {
        EndsSuffix(front, previous + segment[..e], 4);
      } else {
        assert front == [] && front + (previous + segment[..e]) == previous + segment[..e];
      }
    } else {
      var before' := before + segment;
      assert before'[|before'| - n..] == segment;
      assert before' + Concat(segments[1..])[..e - n] == before + all[..e];
      LongSegmentsShowAll(before', segment, segments[1..], e - n);
    }
  }

  /** For every cut of the input into segments of at least three octets, and empty reads between them, the
      matcher first reaches length four at the end of the first CR LF CR LF of the whole input. */
  lemma {:induction false} LongSegmentsAreExact(segments: seq<Text>, r: Option<nat>, whole: Option<nat>)
    requires ScanFinds([], segments, r) && FirstEnd(Concat(segments), whole)
    requires forall s :: s in segments ==> s == [] || |s| >= 3
    ensures r == whole
  {
    hide Ends, ScanFinds, Visible, Concat;
    ScanIsExact(segments, r, whole);
    if whole.Some? {
      EndsLength(Concat(segments)[..whole.value]);
      assert [] + Concat(segments)[..whole.value] == Concat(segments)[..whole.value];
      LongSegmentsShowAll([], [], segments, whole.value);
    }
  }

  /** Read one octet at a time at most, no request is ever recognised. */
  lemma {:induction false} SingleOctetsHideAll(previous: Text, segments: seq<Text>, r: Option<nat>)
    requires |previous| <= 1 && (forall s :: s in segments ==> |s| <= 1) && ScanFinds(previous, segments, r)
    ensures r.None?
  {
    hide Ends, ScanFinds;
    ScanFindsFirstVisible(previous, segments, r);
    if r.Some? {
      SingleOctetsShowNothing(previous, segments, r.value);
    }
  }

  lemma {:induction false} SingleOctetsShowNothing(previous: Text, segments: seq<Text>, e: nat)
    requires |previous| <= 1 && (forall s :: s in segments ==> |s| <= 1)
    ensures !Visible(previous, segments, e)
    decreases |segments|
  {
    hide Ends;
    if segments != [] && e > 0 {
      assert segments[0] in segments;
      if segments[0] == [] {
        SingleOctetsShowNothing(previous, segments[1..], e);
      } else if e <= 1 {
        EndsLength(previous + segments[0][..e]);
      } else {
        SingleOctetsShowNothing(segments[0], segments[1..], e - 1);
      }
    }
  }

  // The reader

  /** The part of a connection that waits for a request's head. */
  class HeadReader {
    var buffers: seq<Text>

    constructor ()
      ensures buffers == []
    {
      buffers := [];
    }

    /** The segment that a look-back goes to. */
    function Tail(): Text
      reads this
    {
      if buffers == [] then [] else buffers[|buffers| - 1]
    }

    /** A read while no request is being served.  Once the head of a request is complete, it is popped, and
        what is left of the segment stays. */
    method HandleRead(segment: Text) returns (head: Option<Text>, ghost found: Option<nat>)
      modifies this
      ensures segment == [] ==> found.None?
      ensures segment != [] ==> FirstMatch(LastThree(old(Tail())), segment, found)
      ensures found.None? ==> head.None? && buffers == if segment == [] then old(buffers) else old(buffers) + [segment]
      ensures found.Some? ==>
                && found.value <= |segment|
                && head == Some(Concat(old(buffers)) + segment[..found.value]) && Ends(head.value, 4)
                && buffers == if found.value == |segment| then [] else [segment[found.value..]]
    {
      hide Ends, Concat;
      head, found := None, None;
      if |segment| == 0 {
        return;
      }
      var tail := Tail();
      var match' := ScanSegment(tail, segment);
      found := match';
      if match'.None? {
        buffers := buffers + [segment];
        return;
      }
      ConcatAppends(buffers, segment);
      if buffers != [] {
        LastIsSuffix(buffers);
      }
      var all := Concat(buffers + [segment]);
      var size := |all| + match'.value - |segment|;
      assert all[..size] == Concat(buffers) + segment[..match'.value];
      assert all[size..] == segment[match'.value..];
      HeadEnds(Concat(buffers), tail, segment[..match'.value]);
      head := Some(all[..size]);
      buffers := if size == |all| then [] else [all[size..]];
    }

    /** Read after read up to the first head: it is what the scan of all reads finds. */
    method ReadHead(segments: seq<Text>) returns (head: Option<Text>, ghost r: Option<nat>)
      modifies this
      ensures ScanFinds(old(Tail()), segments, r)
      ensures HeadRead(old(Concat(buffers)), segments, head, r, Concat(buffers))
      decreases |segments|
    {
      hide Ends, FirstMatch, LastThree, Concat, ScanFinds, HeadRead;
      ghost var before, previous := Concat(buffers), Tail();
      if segments == [] {
        NothingToScan(previous, before);
        return None, None;
      }
      ConcatAppends(buffers, segments[0]);
      ghost var found;
      head, found := HandleRead(segments[0]);
      if head.Some? {
        FoundFirst(previous, segments, found, before, Concat(buffers));
        return head, found;
      }
      NothingAppended(before);
      head, r := ReadHead(segments[1..]);
      ScanOneMore(previous, segments, r);
      HeadReadLater(before, segments, head, r, Concat(buffers));
      r := if r.None? then None else Some(|segments[0]| + r.value);
    }
  }

  /** No head yet and everything buffered, or the head that ends with the first match. */
  ghost predicate HeadRead(before: Text, segments: seq<Text>, head: Option<Text>, r: Option<nat>, after: Text) {
    match r
    case None => head.None? && after == before + Concat(segments)
    case Some(k) => k <= |Concat(segments)| && head == Some(before + Concat(segments)[..k]) && Ends(head.value, 4)
  }

  lemma NothingAppended(before: Text)
    ensures before + [] == before
  {
  }

  lemma NothingToScan(previous: Text, before: Text)
    ensures ScanFinds(previous, [], None) && HeadRead(before, [], None, None, before)
  {
  }

  lemma FoundFirst(previous: Text, segments: seq<Text>, found: Option<nat>, before: Text, after: Text)
    requires segments != [] && segments[0] != [] && found.Some? && found.value <= |segments[0]|
    requires FirstMatch(LastThree(previous), segments[0], found) && Ends(before + segments[0][..found.value], 4)
    ensures ScanFinds(previous, segments, found)
    ensures HeadRead(before, segments, Some(before + segments[0][..found.value]), found, after)
  {
    hide FirstMatch, Ends;
    assert Concat(segments)[..found.value] == segments[0][..found.value];
  }

  lemma {:induction false} HeadReadLater(before: Text, segments: seq<Text>, head: Option<Text>, r: Option<nat>,
                                         after: Text)
    requires segments != [] && HeadRead(before + segments[0], segments[1..], head, r, after)
    ensures HeadRead(before, segments, head, if r.None? then None else Some(|segments[0]| + r.value), after)
  {
    hide Ends;
    var segment, rest := segments[0], Concat(segments[1..]);
    assert before + segment + rest == before + (segment + rest);
    if r.Some? {
      assert before + segment + rest[..r.value] == before + (segment + rest)[..|segment| + r.value];
    }
  }

  /** A first read without a match, empty or not, only moves what the others find. */
  lemma {:induction false} ScanOneMore(previous: Text, segments: seq<Text>, r: Option<nat>)
    requires segments != [] && (segments[0] == [] || FirstMatch(LastThree(previous), segments[0], None))
    requires ScanFinds(if segments[0] == [] then previous else segments[0], segments[1..], r)
    ensures ScanFinds(previous, segments, if r.None? then None else Some(|segments[0]| + r.value))
  {
    hide FirstMatch;
    if segments[0] != [] && r.Some? {
      PositiveFind(segments[0], segments[1..], r.value);
    }
  }

  lemma {:induction false} LastIsSuffix(segments: seq<Text>)
    requires segments != []
    ensures var last := segments[|segments| - 1];
            |last| <= |Concat(segments)| && Concat(segments)[|Concat(segments)| - |last|..] == last
  {
    var front := segments[..|segments| - 1];
    ConcatAppends(front, segments[|segments| - 1]);
    assert front + [segments[|segments| - 1]] == segments;
  }

  lemma {:induction false} HeadEnds(before: Text, tail: Text, part: Text)
    requires |tail| <= |before| && before[|before| - |tail|..] == tail && part != [] && Ends(LastThree(tail) + part, 4)
    ensures Ends(before + part, 4)
  {
    hide Ends, LastThree;
    LastThreeSuffices(tail, part);
    EndsLength(tail + part);
    var front := before[..|before| - |tail|];
    assert before + part == front + (tail + part);
    EndsSuffix(front, tail + part, 4);
  }
}
