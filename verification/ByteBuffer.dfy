/** `struct buffer`: a queue of octets, pushed at one end and peeked, skipped or popped at the other. */
module ByteBuffer {
  import opened BitStrings

  /** Pieces of octets one behind the other. */
  function Concat(segments: seq<seq<Octet>>): seq<Octet> {
    if segments == [] then [] else segments[0] + Concat(segments[1..])
  }

  lemma {:induction false} ConcatAppends(segments: seq<seq<Octet>>, segment: seq<Octet>)
    ensures Concat(segments + [segment]) == Concat(segments) + segment
  {
    if segments == [] {
      assert [segment][1..] == [] && segment + [] == [] + segment;
    } else {
      assert (segments + [segment])[1..] == segments[1..] + [segment];
      ConcatAppends(segments[1..], segment);
    }
  }

  class Buffer {
    var octets: seq<Octet>

    constructor ()
      ensures octets == []
    {
      octets := [];
    }

    method Push(data: seq<Octet>)
      modifies this
      ensures octets == old(octets) + data
    {
      octets := octets + data;
    }

    method Peek(count: nat) returns (data: seq<Octet>)
      requires count <= |octets|
      ensures data == octets[..count]
    {
      data := octets[..count];
    }

    method Skip(count: nat)
      requires count <= |octets|
      modifies this
      ensures octets == old(octets)[count..]
    {
      octets := octets[count..];
    }

    method Pop(count: nat) returns (data: seq<Octet>)
      requires count <= |octets|
      modifies this
      ensures data == old(octets)[..count] && octets == old(octets)[count..]
    {
      data := octets[..count];
      octets := octets[count..];
    }
  }
}
