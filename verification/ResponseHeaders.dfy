/** A response's headers from one end of a connection to the other: encoded, fragmented, printed, cut
    into reads, read, put together and decoded. */
module ResponseHeaders {
  import opened BitStrings
  import opened ByteBuffer
  import opened HpackInteger
  import opened HpackTable
  import opened HpackEager
  import opened HpackCodec
  import opened HpackLockstep
  import opened HpackEmission
  import opened Http2Frame
  import opened Http2Reader
  import opened HeaderFragments

  /** What `hpack_encode` leaves in its buffer. */
  ghost function Emitted(e: Context, fields: seq<Field>): seq<Octet>
    requires Consistent(e) && Named(e) && AllEncodable(BlockPieces(e, fields, 2))
  {
    EmitPieces(BlockPieces(e, fields, 2), 0, INITIAL_CAPACITY).0
  }

  /** The sizes stay within the source's 64-bit words, and no integer of the block met the boundary case
      of the integer writer. */
  ghost predicate CleanBlock(e: Context, fields: seq<Field>)
    requires Consistent(e) && Named(e)
  {
    && AllEncodable(BlockPieces(e, fields, 2)) && NoBoundary(BlockPieces(e, fields, 2), 0, INITIAL_CAPACITY)
    && |BlockOctets(e, fields, 2)| < WORD && e.pushIndex + |fields| + 61 < WORD && e.maxSize < WORD
  }

  lemma {:induction false} EmittedIsBlock(e: Context, fields: seq<Field>)
    requires Consistent(e) && Named(e) && CleanBlock(e, fields)
    ensures Emitted(e, fields) == BlockOctets(e, fields, 2) != []
  {
    hide Consistent, Named, EmitPieces, NoBoundary, FieldsPieces, PieceOctets;
    EmissionExact(BlockPieces(e, fields, 2), 0, INITIAL_CAPACITY);
    assert BlockPieces(e, fields, 2) != [];
  }

  /** The client, reading in whatever segments, ends up with the fields the server sent exactly when every
      reference of the encoder was live and every string it sent was readable; both ends then agree. */
  lemma {:induction false} ResponseHeadersArrive(e: Context, d: Context, fields: seq<Field>, id: U32,
                                                 otherMax: PeerLimit, emptyBody: bool, segments: seq<seq<Octet>>)
    requires Synced(e, d) && HeaderFields(fields) && CleanBlock(e, fields) && 0 < id < TOP
    requires Concat(segments)
          == AllSerialized(HeaderFrames(id, Emitted(e, fields), PayloadLimit(otherMax), emptyBody))
    ensures var r := Run(Keep(), Reader([], true, [], false), segments);
            var o := DecodeFromOctet(d, Fragments(r.state), 0, []);
            && !r.closed && r.buffer == []
            && (Delivers(o, fields) <==> FieldsOk(Started(e), fields, 2))
            && (FieldsOk(Started(e), fields, 2) ==> Synced(AllEncoded(Started(e), fields, 2), o.context))
  {
    hide Consistent, Named, Ready, View, DecodeFromOctet, FieldsOk, AllEncoded, EmitPieces, NoBoundary, Run, Keep,
      AllSerialized, HeaderFrames, BlockOctets, Emitted, Fragments;
    EmittedIsBlock(e, fields);
    BlockArrives(id, Emitted(e, fields), otherMax, emptyBody, segments);
    BlockLockstep(e, d, fields, 2);
  }

  /** A block of less than 1024 octets meets no boundary. */
  lemma {:induction false} SmallBlockIsClean(e: Context, fields: seq<Field>)
    requires Consistent(e) && Named(e) && AllEncodable(BlockPieces(e, fields, 2))
    requires |BlockOctets(e, fields, 2)| < 1024 && e.pushIndex + |fields| + 61 < WORD && e.maxSize < WORD
    ensures CleanBlock(e, fields)
  {
    hide Consistent, Named, AllEncodable, NoBoundary, BlockPieces, Octets;
    SmallIsClean(BlockPieces(e, fields, 2), 0, INITIAL_CAPACITY);
  }

  // Whole runs of emitted blocks

  ghost predicate CleanRun(e: Context, blocks: seq<seq<Field>>)
    requires Consistent(e) && Named(e)
    decreases |blocks|
  {
    e.maxSize < WORD &&
    (blocks == [] || (CleanBlock(e, blocks[0]) && CleanRun(AllEncoded(Started(e), blocks[0], 2), blocks[1..])))
  }

  /** The decoder's context after it got what the encoder emitted, as long as every block was delivered
      intact. */
  ghost function EmittedAfter(e: Context, d: Context, blocks: seq<seq<Field>>): Option<Context>
    requires Consistent(e) && Named(e) && Ready(d) && CleanRun(e, blocks)
    decreases |blocks|
  {
    if blocks == [] then Some(d)
    else
      var o := DecodeFromOctet(d, Emitted(e, blocks[0]), 0, []);
      if Delivers(o, blocks[0]) && Ready(o.context)
      then EmittedAfter(AllEncoded(Started(e), blocks[0], 2), o.context, blocks[1..])
      else None
  }

  lemma {:induction false} EmittedIsDecoded(e: Context, d: Context, blocks: seq<seq<Field>>)
    requires Consistent(e) && Named(e) && Ready(d) && CleanRun(e, blocks)
    ensures EmittedAfter(e, d, blocks) == DecoderAfter(e, d, blocks, 2) && Addressable(e, blocks, 2)
    decreases |blocks|
  {
    hide Consistent, Named, Ready, View, AllEncoded, EmitPieces, NoBoundary, BlockPieces, Emitted, DecodeFromOctet;
    if blocks != [] {
      EmittedIsBlock(e, blocks[0]);
      NothingButCleanBlocks(e, blocks);
      var o := DecodeFromOctet(d, Emitted(e, blocks[0]), 0, []);
      if Delivers(o, blocks[0]) && Ready(o.context) {
        EmittedIsDecoded(AllEncoded(Started(e), blocks[0], 2), o.context, blocks[1..]);
      }
    }
  }

  lemma {:induction false} NothingButCleanBlocks(e: Context, blocks: seq<seq<Field>>)
    requires Consistent(e) && Named(e) && CleanRun(e, blocks)
    ensures Addressable(e, blocks, 2)
    decreases |blocks|
  {
    hide Consistent, Named, AllEncoded, EmitPieces, NoBoundary, BlockPieces;
    if blocks != [] {
      NothingButCleanBlocks(AllEncoded(Started(e), blocks[0], 2), blocks[1..]);
    }
  }

  /** Over any run of emitted blocks without a boundary case, every block is delivered intact exactly when
      every reference was live and every string readable. */
  lemma {:induction false} EmittedRunLockstep(e: Context, d: Context, blocks: seq<seq<Field>>)
    requires Synced(e, d) && CleanRun(e, blocks) && forall fields :: fields in blocks ==> HeaderFields(fields)
    ensures EmittedAfter(e, d, blocks).Some? <==> RunOk(e, blocks, 2)
    ensures RunOk(e, blocks, 2) ==> Synced(EncoderAfter(e, blocks, 2), EmittedAfter(e, d, blocks).value)
  {
    hide Consistent, Named, Ready, View, RunOk, EncoderAfter, EmittedAfter, DecoderAfter, CleanRun, HeaderFields;
    EmittedIsDecoded(e, d, blocks);
    RunLockstep(e, d, blocks, 2);
  }
}
