/** The blocks on which `hpack_decode` reads outside its input or through NULL. */
module HpackCrash {
  import opened BitStrings
  import opened HpackInteger
  import opened HpackString
  import opened HpackTable
  import opened HpackEager
  import opened HpackCodec

  /** An integer fills its prefix and goes on to the end of the block with less than ten octets, all of them
      continued. */
  ghost predicate IntegerRunsOut(prefix: Octet, n: nat, data: seq<Octet>, at: nat) {
    prefix % Pow2(n) == Mask(n) && |data| - at < 10 && forall j :: at <= j < |data| ==> data[j] >= 128
  }

  lemma {:induction false} IntegerRunsOutExactly(prefix: Octet, n: nat, data: seq<Octet>, at: nat)
    requires at <= |data|
    ensures ReadInteger(prefix, n, data, at).OverRead? <==> IntegerRunsOut(prefix, n, data, at)
  {
    hide Pow2, ReadContinuation;
    OverReadExactly(data, at, 0);
  }

  /** No string stands here: nothing is left, its length runs out, or fewer octets follow than it says. */
  ghost predicate NoStringAt(data: seq<Octet>, at: nat) {
    || at >= |data|
    || IntegerRunsOut(data[at] % 128, 7, data, at + 1)
    || (var size := ReadInteger(data[at] % 128, 7, data, at + 1);
        size.IntegerAt? && size.next + size.value > |data|)
  }

  /** What is read for it: NULL, unless the length runs out or its sum with the offset wraps around. */
  ghost predicate FaultAt(data: seq<Octet>, at: nat) {
    at < |data| &&
    (|| IntegerRunsOut(data[at] % 128, 7, data, at + 1)
     || (var size := ReadInteger(data[at] % 128, 7, data, at + 1);
         size.IntegerAt? && size.next + size.value > |data| >= (size.next + size.value) % WORD))
  }

  lemma {:induction false} StringReadExactly(data: seq<Octet>, at: nat, prefix: Octet)
    requires |data| < WORD && (at < |data| ==> prefix == data[at] % 128)
    ensures ReadString(data, at).StringAt? <==> !NoStringAt(data, at)
    ensures ReadString(data, at).StringFault? <==> FaultAt(data, at)
  {
    hide Pow2, ReadInteger, IntegerRunsOut;
    if at < |data| {
      IntegerRunsOutExactly(prefix, 7, data, at + 1);
      var size := ReadInteger(prefix, 7, data, at + 1);
      if size.IntegerAt? && size.next + size.value <= |data| {
        SmallMod(size.next + size.value);
      }
    }
  }

  function PrefixWidth(octet: Octet): nat {
    if octet >= 128 then 7 else if octet >= 64 then 6 else if octet >= 32 then 5 else 4
  }

  /** A literal whose strings are not there. */
  ghost predicate LiteralCrashes(c: Context, data: seq<Octet>, index: nat, at: nat)
    requires Ready(c)
  {
    if index == 0 then
      NoStringAt(data, at) || (ReadString(data, at).StringAt? && NoStringAt(data, ReadString(data, at).next))
    else NoStringAt(data, at) && (FaultAt(data, at) || EagerLookup(View(c), index).Some?)
  }

  /** One turn of the decoder's loop goes wrong exactly when its integer runs out or when it is a literal whose
      name or value is not there; a missing value of an unknown index is still an error that is reported. */
  lemma {:induction false} CrashExactly(c: Context, data: seq<Octet>, i: nat)
    requires Ready(c) && i < |data| < WORD
    ensures var octet, n := data[i], PrefixWidth(data[i]);
            var first := ReadInteger(LowBits(octet, n), n, data, i + 1);
            DecodeStep(c, data, i) == Crash
            <==> || IntegerRunsOut(LowBits(octet, n), n, data, i + 1)
                 || (first.IntegerAt? && (octet < 32 || 64 <= octet < 128)
                     && LiteralCrashes(c, data, first.value, first.next))
  {
    hide Ready, Pow2, Lower, ReadString, ReadInteger, Added, Looked, Updated, IntegerRunsOut, NoStringAt, FaultAt,
      LowBits, View, EagerLookup;
    var octet, n := data[i], PrefixWidth(data[i]);
    IntegerRunsOutExactly(LowBits(octet, n), n, data, i + 1);
    var first := ReadInteger(LowBits(octet, n), n, data, i + 1);
    if first.IntegerAt? && (octet < 32 || 64 <= octet < 128) {
      LiteralCrashesExactly(c, data, first.value, first.next, octet >= 64);
    }
  }

  lemma {:induction false} LiteralCrashesExactly(c: Context, data: seq<Octet>, index: nat, at: nat, indexing: bool)
    requires Ready(c) && |data| < WORD
    ensures (if index == 0 then DecodeNewName(c, data, at, indexing)
             else DecodeKnownName(c, data, at, index, indexing)) == Crash
       <==> LiteralCrashes(c, data, index, at)
  {
    hide Ready, Lower, ReadString, Added, NoStringAt, FaultAt, View, EagerLookup;
    StringReadExactly(data, at, if at < |data| then data[at] % 128 else 0);
    var name := ReadString(data, at);
    if name.StringAt? {
      StringReadExactly(data, name.next, if name.next < |data| then data[name.next] % 128 else 0);
    }
    var looked := Looked(c, index);
  }

  /** A block that is nothing but the octet of a literal with a new name. */
  lemma {:induction false} LoneLiteralCrashes(max: nat, data: seq<Octet>)
    requires data == [64]
    ensures Ready(EmptyContext(max)) && DecodeFromOctet(EmptyContext(max), data, 0, []) == Crashed
  {
    hide Ready, ReadContinuation, EmptyContext;
    var c := EmptyContext(max);
    EmptyIsReady(max);
    Pow2Values();
    assert LowBits(64, 6) == 0 && Mask(6) == 63;
    assert ReadInteger(0, 6, data, 1) == IntegerAt(0, 1);
    assert ReadString(data, 1) == NullString(1);
  }

  lemma EmptyIsReady(max: nat)
    ensures Ready(EmptyContext(max))
  {
  }
}
