# Avuna HTTPD: the protocol core, verified

This project models the protocol code of the Avuna HTTP server and proves what it does and where it does not do what
it is for. The modules follow the server's files; to check them all, run `dafny verify dfyconfig.toml`.

- **Header compression** (RFC 7541). `BitStrings`, `HuffmanCode`, `HuffmanTrie`, `HuffmanCanonical`, `HuffmanEncoder`,
  `HuffmanDecoder`, `HuffmanIntended`: the code tables, the hand-unrolled decision tree, the encoder and decoder between
  them, and the decoder with its one wrong line put right. `HpackInteger`, `HpackString`, `HpackStatic`, `HpackTable`,
  `HpackEager`, `HpackHistory`, `HpackCodec`, `HpackWire`, `HpackCrash`, `HpackLockstep`, `HpackChoice`,
  `HpackGuarantees`, `HpackEmission`, `HpackContext`: integers and strings, the lazily evicting table with its name
  index and what its history leaves in it, every representation on the wire, the blocks that crash the decoder, the
  lockstep of two contexts over whole runs, the encoder's choices, and `struct hpack_ctx` with its operations in place.
- **HTTP/2** (RFC 7540). `ByteBuffer`, `Http2Frame`, `Http2Wire`, `Http2Reader`, `Http2Opening`: frames and their
  octets, the reader over an arbitrarily cut stream, and what a stream comes to before its preface. `Http2Streams`,
  `Http2Settings`, `Http2Outcomes`, `Http2Reuse`, `Http2Connection`, `Http2Service`: what each frame does to the streams
  and limits, over every run, on values and in place, the reuse of identifiers, and a connection from the octets up.
  `HeaderFragments`, `ResponseHeaders`: header blocks as frames, and a response's headers from end to end.
- **HTTP/1**. `HeaderList`: header list and name index. `HttpRequest`, `HttpText`, `HttpInPlace`: requests printed and
  parsed, on values, character by character, and inside their buffers. `TerminatorScan`, `RequestDelivery`: the search
  for the empty line, and a request from end to end.
- **Around them**. `Fcgi`: FastCGI records and the request body. `WriteQueue`: the partial-write loop.

Each algorithm that changes state is a method or a class method proved equal to a function on values; the theorems are
about these functions. Where the code does not do what its protocol asks for, the code is kept as it is, a lemma
names inputs on which it fails, and a theorem says exactly when the code is right:

| where | what happens | where it is stated |
|---|---|---|
| `src/huffman.c:1571` | the window takes the low bits of the fifth octet instead of the high ones | `HuffmanDecoder.LineFeedIsLost`, `HuffmanDecoder.RoundTrip`, `HuffmanIntended.IntendedRoundTrip` |
| `src/huffman.c:1607` | a one-octet input is written past its allocation | `HuffmanEncoder.HuffmanEncode` |
| `src/hpack.c:50-58` | an integer equal to its mask is cut short when one octet of room is left | `HpackInteger.MaskIsCutShort`, `HpackInteger.WrittenIntegerComplete`, `HpackEmission.EmissionExact` |
| `src/hpack.c:312-321` | a missing name or value is used through NULL, and a length that runs out is read outside the block | `HpackCrash.LoneLiteralCrashes`, `HpackCrash.CrashExactly` |
| `src/hpack.c:458-459` | a new entry is listed twice and only once removed | `HpackGuarantees.StaleReference`, `HpackLockstep.RunLockstep`, `HpackGuarantees.OneNodeFromStart` |
| `src/http2.c:45`, `65`, `106` | any padding is refused | `Http2Frame.PingAndPaddingFail`, `Http2Frame.ParseOfSerialize` |
| `src/http2.c:235` | PING is printed in host order | `Http2Frame.PingAndPaddingFail`, `Http2Frame.FrameRoundTrip` |
| `src/http2_network.c:75` | the frame loop does not wait for the preface, and asks for more than nine octets | `Http2Opening.FrameBeforePreface`, `Http2Opening.SplitPrefaceCloses`, `Http2Opening.OpeningDecides`, `Http2Opening.EarlyFramesExactly`, `Http2Reader.HeldBackExactly` |
| `src/http2_pipeline.c:63` | the finishing flags are set on a frame that was already sent | `HeaderFragments.LongBlockIsNeverComplete`, `HeaderFragments.MarkedCompleteExactly` |
| `src/http2_pipeline.c:180-182` | a stream is taken out of the map by its identifier | `Http2Streams.LateFinishRemovesSuccessor`, `Http2Reuse.LateEndsExactly` |
| `src/headers.c:26`, `34`, `49` | a name is looked up as it is but stored in lower case | `HeaderList.CapitalRepeats`, `HeaderList.RunAgrees` |
| `src/http.c:47` | the headers are expected two octets behind the trimmed version, whatever white space there was | `HttpText.TrailingSpaceLosesHeaders`, `HttpText.FirstLineExactly` |
| `src/http_network.c:184-196` | the look-back reaches one segment back only | `TerminatorScan.SingleOctetsHideAll`, `TerminatorScan.ScanIsExact` |
| `modules/fcgi/src/fcgi_protocol.c:40` | a parameter's length is cut to 16 bits, also for its allocation | `Fcgi.LongParamIsLost`, `Fcgi.ParamFitsExactly`, `Fcgi.WriteParam` |

## How the code is read

- Octets are integers from 0 to 255, and text is a sequence of octets; C strings have no zero octet. Machine words are
  written out where they wrap: 64-bit sums in integers, string bounds and frame lengths, 32-bit shifts, 16-bit lengths.
- The helper library (`llist`, `queue`, `hashmap`, `buffer` and the string functions) is not part of this model. A
  queue is a sequence, of which `queue_index` counts from the newest, as `src/hpack.c:419` requires. A hash map whose
  value is set to NULL has no entry. `str_eq_case` is equality. `str_trim` removes ASCII white space on both sides and
  returns the first octet that is left. Pushing no octets to a buffer changes nothing.
- Lists that the code shares by pointer (the lookup lists of a table, the entries of a header list) are places in an
  arena, so that sharing, emptying and replacing a list are seen.
- A read of memory that the code must not make is an outcome of its own (`Crash`, `Overrun`, `Undefined`), not a
  precondition. A frame that `parse_frame` refuses is passed on as NULL; this counts as the end of the connection.
- The host is little-endian with 64-bit words.
- What the model cannot see is a parameter of the theorems and arbitrary: the outcome of a request
  (`Http2Streams.Answer`), the end of streamed responses, and the results of `write`.

## Model

| member | source | states |
|---|---|---|
| HuffmanTrie.WalkReadsCode | src/huffman.c:274-1557 | over every tree whose leaves carry the table's code words, the bits read on the way to a symbol are that symbol's code word |
| HuffmanTrie.CodeDirectsWalk | src/huffman.c:274-1557 | conversely, a code word followed by anything leads a walk to its symbol |
| HuffmanTrie.DecisionTreeSymbols | src/huffman.c:274-1557 | the decision tree has exactly the 257 symbols as its leaves, so the code is complete |
| HuffmanTrie.AndCovers | src/huffman.c:275-300 | a test `(data & mask) == mask` asks for every bit of the mask |
| HuffmanTrie.DecodeUnderWalks | src/huffman.c:274-1557 | testing under ever longer masks, as the hand-unrolled code does, reads the word one bit at a time |
| HuffmanTrie.DecodeCharAgreesWithTable | src/huffman.c:274-1557 | for every 32-bit word and symbol, the decision tree answers the symbol exactly when the word starts with its code word |
| HuffmanTrie.DecodeCharAgreesWithShift | src/huffman.c:11-272 | the same in the source's arithmetic: exactly when the top `bit_widths[s]` bits are `huffman_table[s]` |
| HuffmanTrie.CodeFits | src/huffman.c:11-272 | every table entry is a number of its declared width |
| HuffmanTrie.PrefixFree | src/huffman.c:11-272 | no code word starts another one |
| HuffmanCanonical.CodeIsCanonical | src/huffman.c:11-272 | the code is canonical: one code word comes before another exactly when it is shorter, or as wide and of a smaller symbol |
| HuffmanEncoder.AdjustedBits | src/huffman.c:1611-1617 | the 40-bit word of one step holds the open octet's bits, the code word and zeros |
| HuffmanEncoder.WriteStep | src/huffman.c:1611-1628 | if the output holds some bits, then after the five overlapping writes it holds these bits followed by the symbol's code word |
| HuffmanEncoder.CloseStep | src/huffman.c:1630-1633 | filling the last octet with ones gives the padded bit string of section 5.2 of RFC 7541 |
| HuffmanEncoder.WriteSymbol | src/huffman.c:1602-1628 | one turn of the loop in place: the five writes refine the bit-level step |
| HuffmanEncoder.HuffmanEncode | src/huffman.c:1596-1636 | the loop's output is the concatenated code words, then ones to the octet boundary; every write, the closing one included, is inside the source's allocation exactly when the input does not have length 1 |
| HuffmanDecoder.WindowBits | src/huffman.c:1566-1571 | the 32-bit window as the source loads it, bit by bit, with the low bits of the fifth octet where the high ones belong |
| HuffmanDecoder.LoadWindow | src/huffman.c:1566-1571 | the loads and shifts compute that window |
| HuffmanDecoder.DecodesAt | src/huffman.c:1565-1589 | where a code word stands in the stream, the source decodes it exactly when the fifth octet's low bits happen to agree with the code word's last bits |
| HuffmanDecoder.PaddingEnds | src/huffman.c:1573-1583 | up to seven one bits at the end never yield a further symbol |
| HuffmanDecoder.DecodeSuffix | src/huffman.c:1565-1589 | from any symbol on, a readable rest is decoded to the end |
| HuffmanDecoder.RoundTrip | src/huffman.c:1559-1636 | decoding an encoded string gives the string back exactly when it is readable, that is when the fifth octet agrees at each of its symbols |
| HuffmanDecoder.UnreadableDiverges | src/huffman.c:1565-1589 | otherwise the decoded string differs already at a symbol whose code is wider than 25 bits |
| HuffmanDecoder.NarrowIsReadable | src/huffman.c:1571 | strings of codes of at most 25 bits are readable at every bit offset |
| HuffmanDecoder.PrintableIsNarrow | src/huffman.c:11-272 | printable ASCII has codes of at most 25 bits |
| HuffmanDecoder.LineFeedIsLost | src/huffman.c:1571 | a concrete string with a line feed that does not come back |
| HuffmanIntended.IntendedBits | src/huffman.c:1571 | with the high bits of the fifth octet the window is the 32 bits from the bit offset on |
| HuffmanIntended.IntendedRoundTrip | src/huffman.c:1559-1636 | and then decoding undoes encoding for all strings of all 256 octets: that line is the only thing wrong |
| HuffmanDecoder.HuffmanDecode | src/huffman.c:1559-1594 | the growing loop returns what the bit-level decoding says |
| HuffmanDecoder.Advance | src/huffman.c:1574-1580 | the octet and bit indices advance together by the code's width |
| HpackInteger.HighBitsFit | src/hpack.c:37-42 | the bits above the prefix are preserved and the prefix holds the value or its mask |
| HpackInteger.IntegerRoundTrip | src/hpack.c:13-60 | for every prefix width and 64-bit value, decoding an encoded integer anywhere in a block returns the value and ends where its octets end |
| HpackInteger.OverReadExactly | src/hpack.c:19-27 | the decoder reads behind the block exactly when all octets that are left are continuation octets and there are too few of them to end the loop |
| HpackInteger.WrittenIntegerComplete | src/hpack.c:45-59 | a successful write is the complete encoding except exactly when the value equals the mask and one octet of room was left |
| HpackInteger.MaskIsCutShort | src/hpack.c:50-58 | a concrete integer of which success reports only half the encoding |
| HpackInteger.EnoughRoom | src/hpack.c:31-60 | with eleven octets of room every 64-bit value is written completely |
| HpackInteger.EncodeInteger | src/hpack.c:31-60 | the loop in place: the octets written, their count, and on failure the offset restored |
| HpackInteger.EncodeContinuation | src/hpack.c:45-54 | the seven-bit groups of the loop |
| HpackInteger.DecodeInteger | src/hpack.c:13-29 | the loop computes the specified value and end |
| HpackWire.IntegerMeans | src/hpack.c:13-29 | however an integer of up to ten continuation octets is written, it is read as what its groups of seven bits make up, lowest first, modulo 2^64 |
| HpackWire.WrittenMeans | src/hpack.c:31-60 | the encoder writes the value into the prefix, or the full prefix and its excess in groups of seven bits, with no group too many |
| HpackString.StringRoundTrip | src/hpack.c:62-107 | an encoded string is read to its end, and comes back exactly when it is sent plain or is readable |
| HpackString.EncodeString | src/hpack.c:87-107 | the string in place: its octets, or failure with the offset restored |
| HpackString.DecodeString | src/hpack.c:62-85 | the octets or NULL, with the source's bounds check |
| HpackTable.FixLeavesNewest | src/hpack.c:264-276 | eviction leaves the newest entries, in order |
| HpackTable.PopKeepsSound | src/hpack.c:266-274 | evicting one entry leaves in every list only entries of the table, each once and under its own list |
| HpackTable.PopKeepsNamed | src/hpack.c:266-274 | and leaves every mapped list non-empty and of one name, even where a list still names an evicted entry |
| HpackTable.PopKeepsExact | src/hpack.c:266-274 | and keeps each name's list equal to the name's entries in table order |
| HpackTable.FixKeeps | src/hpack.c:264-276 | eviction of any number keeps sizes, push indices and the name index |
| HpackTable.AddDecodedKeepsExact | src/hpack.c:290-296 | the decoder's insertion keeps the size equal to the sum of the entry sizes, push indices consecutive up to `push_index - 1`, the index exact, and the table within its maximum or a single entry |
| HpackTable.AddEncodedKeeps | src/hpack.c:450-461 | the encoder's insertion, even when eviction empties the very list it appends to, keeps sizes and push indices, and with one appended node also the index |
| HpackEager.FixEvicts | src/hpack.c:264-276 | the eviction loop leaves what section 4.4 of RFC 7541 leaves |
| HpackEager.AddRefinesEager | src/hpack.c:290-296 | an insertion into the lazy table is seen as an insertion into the eager one, an oversized entry included |
| HpackEager.LookupRefinesEager | src/hpack.c:278-288 | a lookup answers as the eager table does and changes nothing visible |
| HpackEager.RunsAgree | src/hpack.c:264-296 | over every run of insertions and lookups the lazy table answers as the eager one, and every reached context keeps all invariants |
| HpackHistory.AddLeavesNewest | src/hpack.c:290-296 | an insertion leaves the longest end of all fields ever inserted that weighs at most the maximum, counting the octets of names and values and 32 for each field; a field that is too large by itself leaves nothing |
| HpackHistory.HistoryDecides | src/hpack.c:264-296 | over every run of insertions and lookups, of any sizes, each lookup is answered by that end of the history alone: indices 1 to 61 are static, and 62 is the newest |
| HpackStatic.FindStaticFirst | src/hpack.c:235-245 | the static entry found for a name or a field is the first that matches, and none is found exactly when none does |
| HpackCodec.EncodedReady | src/hpack.c:402-470 | encoding any field keeps the context's invariants |
| HpackCodec.MaximumIsInvisible | src/hpack.c:353-356 | a signalled table size never evicts anything: it changes nothing that a later use can see |
| HpackCodec.StepAdvances | src/hpack.c:299-378 | every turn of the decoder's loop that goes on moves forward inside the block and keeps the context's invariants, so the loop ends |
| HpackCodec.DecodingAppends | src/hpack.c:298-380 | decoding never changes the fields decoded before |
| HpackWire.FormMeans | src/hpack.c:298-380 | each representation of section 6 of RFC 7541, with any index and any strings with either Huffman flag: the field it delivers or the error, and what becomes of the table; only a literal with incremental indexing stores its field, and a size update above the maximum is an error |
| HpackWire.FirstOctetDecides | src/hpack.c:298-380 | for octets of any kind: a step that delivers a field changes what the table shows exactly when its first octet is from 64 to 127 |
| HpackWire.OnlyIncrementalIsStored | src/hpack.c:308-374 | a literal and a reference to it in one block: an error without indexing, and the field twice with it |
| HpackWire.StaticRequest | src/hpack.c:110-235 | three octets that deliver GET of the root over https |
| HpackCrash.StringReadExactly | src/hpack.c:62-85 | a string is NULL, or read outside the block, exactly when nothing is left, its length runs out of octets, or it says more than what is left; it is read outside the block exactly when the length runs out or its sum with the offset wraps around to less than the block |
| HpackCrash.CrashExactly | src/hpack.c:299-378 | a turn of the decoder's loop goes through NULL or outside the block exactly when its integer runs out of octets, or it is a literal whose name or value is not there; without a value an unknown index is still reported as an error |
| HpackCrash.LoneLiteralCrashes | src/hpack.c:312-321 | the block of the one octet 0x40 takes the length of a NULL name |
| HpackLockstep.ListedEntryAt | src/hpack.c:415-430 | the index the encoder computes for a listed entry finds exactly that entry as long as it is in the table, and no entry at all afterwards |
| HpackLockstep.RepresentMeans | src/hpack.c:402-435 | the chosen index names the field's name, and the whole field when no literal follows |
| HpackChoice.PrivateStaysOut | src/hpack.c:246-249 | at no point of any run of blocks is a field named content-length, cookie or set-cookie in the encoder's table |
| HpackChoice.PrivateForm | src/hpack.c:402-461 | these fields are written as 0x1F, the rest of their static index and the value, and change nothing; no other field is written with such a first octet |
| HpackChoice.StaticForm | src/hpack.c:404-435 | a field that is a static entry is sent as its index |
| HpackChoice.StatusForm | src/hpack.c:110-235 | in particular the seven status codes of the static table are one octet each, 0x88 to 0x8E |
| HpackChoice.ValuedNameForm | src/hpack.c:411-435 | another field whose name has a static value, such as :status, is always a literal under that name, even when the table holds it |
| HpackChoice.ListedForm | src/hpack.c:411-430 | any other field is the first listed entry of its name and value, or a literal under the static entry of its name, the first listed entry of its name, or none, in this order |
| HpackChoice.EncoderHistory | src/hpack.c:402-461 | the encoder's table shows the newest of the fields that were written with incremental indexing |
| HpackLockstep.LowerStaysWrong | src/hpack.c:330 | a string that does not survive Huffman coding cannot be repaired by the folding of case in `header_add` |
| HpackLockstep.FieldLockstep | src/hpack.c:298-470 | one field is delivered, with both ends synchronised, exactly when its reference is live and its strings are readable; otherwise the decoder errs or emits another field |
| HpackLockstep.FieldsLockstep | src/hpack.c:298-470 | the same for any list of fields, in order |
| HpackLockstep.BlockLockstep | src/hpack.c:298-473 | the same for a block with its leading size update |
| HpackLockstep.RunLockstep | src/hpack.c:298-473 | over any run of header blocks, every block is delivered intact exactly when each reference was live and each string readable in the encoder's context before it, and then both ends agree again |
| HpackLockstep.SyncedTables | src/hpack.c:264-296 | agreeing ends that hold nothing oversized hold the same table, size and push indices; `HpackGuarantees.OneNodeFromStart` shows that this is so after whole runs |
| HpackGuarantees.OneNodeRunIsDelivered | src/hpack.c:452-460 | with the one appended node of the decoder's own insertion, every run of readable fields that fit the table meets the run condition `RunOk` of `HpackLockstep.RunLockstep`, whatever is evicted |
| HpackGuarantees.UnevictedRunIsDelivered | src/hpack.c:452-460 | with the source's two appended nodes, every run of readable fields that all fit the table together meets it too |
| HpackGuarantees.FittingIsShared | src/hpack.c:264-276 | when the encoder holds nothing oversized and something at all once it has stored anything, an agreeing decoder cannot hold a lone oversized entry, and both tables are the same |
| HpackGuarantees.OneNodeFromStart | src/hpack.c:252-470 | from two fresh contexts and with one node, every run of readable fields no larger than the maximum is delivered intact and in order, and both ends then hold the same table, size and push index |
| HpackGuarantees.UnevictedFromStart | src/hpack.c:252-470 | the same with the source's two nodes for every run whose fields all fit the table together |
| HpackGuarantees.StaleReference | src/hpack.c:458-459 | with two nodes, three concrete fields end in a reference to an evicted entry |
| HpackEmission.PieceEmission | src/hpack.c:398-448 | a grow-and-retry loop ends with the piece's octets, except exactly at the integer writer's boundary case |
| HpackEmission.EmissionExact | src/hpack.c:393-473 | the emitted buffer is the wire form exactly when no integer met the boundary case |
| HpackEmission.SmallIsClean | src/hpack.c:398-448 | a block with room to spare in the first buffer never meets the boundary case |
| HpackEmission.CapacityDoubles | src/hpack.c:398-448 | the buffer is doubled as often as a piece asks for, and no more |
| HpackEmission.PutInteger | src/hpack.c:438-441 | the loop around the integer writer in place |
| HpackEmission.PutString | src/hpack.c:442-449 | the loop around the string writer in place |
| HpackContext.HpackCtx.constructor | src/hpack.c:252-262 | an empty table at its maximum |
| HpackContext.HpackCtx.Evict | src/hpack.c:264-276 | the loop in place does what eviction is specified to do |
| HpackContext.HpackCtx.DropOldest | src/hpack.c:266-274 | the oldest entry leaves the table, its list and, if that empties, the map |
| HpackContext.HpackCtx.Find | src/hpack.c:278-288 | the looked-up entry and the evicted context |
| HpackContext.HpackCtx.AddOnDecode | src/hpack.c:318-329 | insertion into table and index, as specified for the decoder |
| HpackContext.HpackCtx.AddOnEncode | src/hpack.c:450-461 | insertion with the list fetched before the eviction and two nodes |
| HpackContext.HpackCtx.Choose | src/hpack.c:404-435 | the representation chosen from the static and dynamic tables |
| HpackContext.HpackCtx.EncodeField | src/hpack.c:402-470 | one field: its octets and the new context |
| HpackContext.HpackCtx.Encode | src/hpack.c:393-473 | a whole block: the octets that the growing buffer ends up with, and the new context |
| HpackContext.HpackCtx.Take | src/hpack.c:299-378 | one turn of the decoder's loop: the field, the update or the error, and the new context |
| HpackContext.HpackCtx.Decode | src/hpack.c:298-380 | a whole block: all fields and the new context, or the error |
| Http2Frame.ParseOfSerialize | src/http2.c:18-267 | printing and then parsing any frame of a known kind gives the frame with reserved bits cleared and a PING's octets swapped, or a size error exactly when padding took part or the payload reaches 2^24 |
| Http2Frame.FrameRoundTrip | src/http2.c:18-267 | the very frame comes back exactly for canonical frames below 2^24 octets without padding |
| Http2Frame.PingAndPaddingFail | src/http2.c:44-45 | a concrete PING that comes back swapped and a concrete padded frame that is refused |
| Http2Frame.LengthField | src/http2.c:146-262 | the length field counts the octets after the header exactly when there are fewer than 2^24 and no padding is counted without being sent |
| Http2Frame.AcceptedIsCanonical | src/http2.c:18-141 | every accepted frame other than PING is canonical, and printing and parsing it again gives the same frame |
| Http2Frame.SerializeFrame | src/http2.c:148-267 | the cursor, the header array and the pushes produce exactly the specified octets, and nothing for an unknown kind |
| Http2Frame.ParseFrame | src/http2.c:18-141 | the cursor-driven parser accepts and rejects as specified |
| Http2Frame.ParseSettings | src/http2.c:87-94 | the entries in order |
| Http2Wire.AcceptedMeans | src/http2.c:18-141 | for every octet string: a frame is accepted exactly when its length field counts its octets and these are right for its kind, and then its flags, identifier and payload are what the octets say; padding length and priority fields are there exactly under the bits 0x08 and 0x20 |
| Http2Wire.PriorityHeaders | src/http2.c:49-68 | a concrete HEADERS frame with flags 0x25: exclusive, dependency 3, weight 255 and one octet of data |
| Http2Wire.PaddingOnWire | src/http2.c:158-188 | with the bit 0x08 the padding length goes in front and as many zeros behind; without it padding changes nothing in the payload |
| Http2Wire.PingOnWire | src/http2.c:235-240 | a PING is printed with the least significant octet first |
| Http2Reader.DrainSplit | src/http2_network.c:75-96 | draining a longer buffer is draining its first part and then what is left with the rest |
| Http2Reader.SegmentationIndependent | src/http2_network.c:59-98 | after the preface every cut into reads delivers the same frames, closes at the same frame and leaves the same octets as one read |
| Http2Reader.HeldBackExactly | src/http2_network.c:75-82 | a complete frame is held back exactly when its payload is empty and nothing follows it |
| Http2Reader.FrameReader.HandleRead | src/http2_network.c:59-98 | the reader in place, with every admitted frame fitting the frame buffer |
| Http2Opening.OpeningDecides | src/http2_network.c:59-98 | for every octet stream and every cut, from any waiting reader: the stream starts the connection, waits, closes it before anything is handled, or has a frame handled ahead of the preface, as the first three octets, the reads that end inside the first 24 octets, and the preface decide |
| Http2Opening.StartsWithThePreface | src/http2_network.c:62-74 | only the 24 characters of section 3.5 of RFC 7540 start a connection |
| Http2Opening.FirstFrame | src/http2_network.c:75-96 | a length field above 65536 closes the connection, an incomplete frame waits, and an accepted one is handled |
| Http2Opening.EarlyFramesExactly | src/http2_network.c:75-92 | a frame is handled before the preface exactly when that decision names one: a complete frame of more than nine octets, which `parse_frame` accepts, is there at the end of a read inside the first 24 octets |
| Http2Opening.PrefaceSegmentation | src/http2_network.c:62-74 | a stream that opens with the preface starts the connection, and is then served as by one read, exactly when no read ends inside its octets 10 to 23, and is closed otherwise |
| Http2Opening.SplitPrefaceCloses | src/http2_network.c:62-81 | the preface in two reads of twelve octets closes the connection |
| Http2Opening.FrameBeforePreface | src/http2_network.c:75-92 | a short frame in the first read is handled although no preface has arrived |
| Http2Streams.SettingsKeep | src/http2_pipeline.c:257-286 | settings change two limits only and keep the peer's frame limit between 256 and 65536 |
| Http2Settings.AppliedMeans | src/http2_pipeline.c:257-286 | key 1 sets the encoder's maximum and key 5 the limit of sent frames, cut to 65536, the last value counting; the connection closes exactly when some value of key 5 is below 256 |
| Http2Settings.LimitsOfRun | src/http2_pipeline.c:244-290 | over every run that is still live, the two limits are the last values that any frame of SETTINGS gave, or 4096 and 65536 |
| Http2Streams.DataIsAcceptedExactly | src/http2_pipeline.c:188-203 | DATA is accepted exactly on an open stream within `max_post`, as that frame's own payload; otherwise the connection closes |
| Http2Streams.DispatchIsTheTransition | src/http2_pipeline.c:184-234 | a stream leaves OPEN only by being dispatched, reset, taken out by the end of another life's response or, for stream 0, replaced; and it becomes half closed only in the step that dispatches it |
| Http2Outcomes.FrameOutcome | src/http2_pipeline.c:184-322 | in every reachable state, which frames close the connection with error 1, 6, 9 or none, and which are undefined; CONTINUATION is refused only without a stream, and HEADERS of any stream that is there |
| Http2Outcomes.HeadersOutcome | src/http2_pipeline.c:204-234 | HEADERS of a new stream opens it with exactly the fields its fragment decodes to, and with END_STREAM, 0x01, they are the request |
| Http2Outcomes.DispatchedExactly | src/http2_pipeline.c:184-234 | a request is dispatched by exactly the frames with END_STREAM that are accepted DATA or decoded HEADERS, and the answer decides what becomes of its stream |
| Http2Streams.AfterKeeps | src/http2_pipeline.c:184-322 | every event keeps the invariant that ties the open streams to the DATA accepted for them |
| Http2Streams.EveryRunIsDisciplined | src/http2_pipeline.c:184-322 | over every run of interleaved frames, stream 0 included, each life of a stream is dispatched at most once and accepts nothing afterwards, with exactly the header fields decoded for it and all of its own DATA in order, at most `max_post`; the peer's limit stays in its range |
| Http2Streams.LateFinishRemovesSuccessor | src/http2_pipeline.c:180-182 | removal goes by identifier: a concrete run in which the late end of a reset stream's response takes the open stream that reused its identifier out of the map |
| Http2Reuse.FinishTakesExactly | src/http2_pipeline.c:178-184 | one end of a response leaves every other life's stream in place exactly when its identifier is free or its own |
| Http2Reuse.StepOn | src/http2_pipeline.c:184-322 | what one event does to one identifier: which events free it, that only an opening gives it to a new life, and that a started response holds it until a reset or an end |
| Http2Reuse.ReopenedIsTaken | src/http2_pipeline.c:178-184 | over every run, an end whose identifier was reset and opened again since its response started, with the new stream still there, takes that stream |
| Http2Reuse.FirstTakenIsReopened | src/http2_pipeline.c:178-184 | conversely, the first stream of another life that an end takes was opened after such a reset |
| Http2Reuse.LateEndsExactly | src/http2_pipeline.c:178-184 | over every run whose ends each belong to a started response and come once: some end takes another life's stream exactly when some identifier was reset and reopened, the new stream still there, between the start of a streamed response and its end; stream 0 is reopened without a reset |
| Http2Reuse.LiveTraceHasRun | src/http2_pipeline.c:184-322 | every sequence of events that leaves the connection live is such a run |
| Http2Connection.ServerConnection.constructor | src/accept.c:132-141 | the initial limits, contexts and empty stream map |
| Http2Connection.ServerConnection.HandleRequest | src/http2_pipeline.c:86-157 | the dispatch in place: the body taken, and the stream removed when the response is complete |
| Http2Connection.ServerConnection.HandleData | src/http2_pipeline.c:188-203 | DATA in place |
| Http2Connection.ServerConnection.FindOrOpen | src/http2_pipeline.c:205-218 | the stream of a HEADERS frame, found or created |
| Http2Connection.ServerConnection.DecodeInto | src/http2_pipeline.c:223-229 | the fragment decoded into the stream's headers with the connection's context |
| Http2Connection.ServerConnection.HandleFragment | src/http2_pipeline.c:223-234 | the fragment decoded, and the request dispatched when the stream ends with it |
| Http2Connection.ServerConnection.HandleHeaders | src/http2_pipeline.c:204-234 | HEADERS in place |
| Http2Connection.ServerConnection.HandleSettings | src/http2_pipeline.c:244-290 | SETTINGS in place |
| Http2Connection.ServerConnection.HandleContinuation | src/http2_pipeline.c:303-316 | CONTINUATION in place: the fragment is not decoded |
| Http2Connection.ServerConnection.ReceiveFrame | src/http2_pipeline.c:184-322 | every frame in place, as specified |
| Http2Service.RequestsDoNotDependOnReads | src/http2_network.c:59-98 | for every octet stream, every cut and every outside world, streams are disciplined; where the opening starts the connection, the same requests with the same bodies are dispatched as from one read; where it waits or is refused nothing is dispatched; and otherwise a frame was handled ahead of the preface |
| HeaderFragments.FramesConserve | src/http2_pipeline.c:34-68 | the HEADERS frame and its CONTINUATIONs carry exactly the block, all but the last frame as much as the peer's limit less 32, and no CONTINUATION is empty |
| HeaderFragments.MarkedCompleteExactly | src/http2_pipeline.c:37-63 | END_HEADERS is sent exactly when the block fits into one frame, and END_STREAM exactly when it also has no body |
| HeaderFragments.LongBlockIsNeverComplete | src/http2_pipeline.c:54-63 | a concrete block of two frames, neither of which carries a finishing flag |
| HeaderFragments.BlockArrives | src/http2_pipeline.c:34-68 | a reader of the same kind puts the block together again from any cut of the octets |
| HeaderFragments.SendContinuations | src/http2_pipeline.c:54-68 | the loop sends the specified frames and ends |
| HeaderFragments.SendHeaderBlock | src/http2_pipeline.c:34-68 | the whole block is sent as specified |
| ResponseHeaders.EmittedIsBlock | src/hpack.c:393-473 | away from the boundary case the encoder's buffer is the block's wire form |
| ResponseHeaders.SmallBlockIsClean | src/hpack.c:393-473 | in particular no block of less than 1024 octets does |
| ResponseHeaders.ResponseHeadersArrive | src/http2_pipeline.c:31-68 | encoded, fragmented, printed, cut, read and decoded, a response's headers arrive as they were exactly when every reference was live and every string readable, and both ends then agree |
| ResponseHeaders.EmittedRunLockstep | src/hpack.c:298-473 | over any run of emitted buffers away from the boundary case, every block is delivered intact exactly when each reference was live and each string readable, and then both ends agree |
| HeaderList.AddAgrees | src/headers.c:33-61 | adding or prepending keeps list and map in agreement exactly when they agreed and the name is in lower case or has no field yet |
| HeaderList.SetAgrees | src/headers.c:22-31 | setting changes nothing about the agreement |
| HeaderList.DelAgrees | src/headers.c:64-78 | deleting changes nothing about the agreement either, in neither direction |
| HeaderList.RunAgrees | src/headers.c:12-91 | over any sequence of operations, list and map agree at the end exactly when every addition was harmless: nothing repairs a disagreement |
| HeaderList.GetIsFirstMatch | src/headers.c:12-20 | with an agreeing index `header_get` is a first-match scan of the list, in any case of the name |
| HeaderList.AddMeans | src/headers.c:33-61 | the field, in lower case, goes to the end or the front of the list |
| HeaderList.SetMeans | src/headers.c:22-31 | the first field of a lower-case name gets the value; a name that is not in lower case is never found |
| HeaderList.DelMeans | src/headers.c:64-78 | exactly the fields of the name go, in any case of the name |
| HeaderList.TryAddMeans | src/headers.c:81-84 | a field is added exactly when its name, in any case, has none |
| HeaderList.SetOrAddMeans | src/headers.c:86-91 | the first field of a lower-case name changes, and otherwise a field is added |
| HeaderList.SetOrAddDuplicates | src/headers.c:86-91 | `header_setoradd` with a capital letter in the name adds a second field that hides the first |
| HeaderList.CapitalRepeats | src/headers.c:33-46 | two concrete additions after which the map has lost the first field |
| HeaderList.HeaderTable.Lookup | src/headers.c:12-20 | the lookup through the map |
| HeaderList.HeaderTable.SetValue | src/headers.c:22-31 | the value changed in place, seen from both lists |
| HeaderList.HeaderTable.Insert | src/headers.c:33-61 | one entry in both lists |
| HeaderList.HeaderTable.Delete | src/headers.c:64-78 | the loop over the map's list |
| HeaderList.HeaderTable.TryInsert | src/headers.c:81-84 | nothing when the name has a field, and otherwise an addition |
| HeaderList.HeaderTable.SetOrInsert | src/headers.c:86-91 | set, or else add |
| HttpRequest.TrimPadded | src/headers.c:117-118 | white space around a trimmed text is what trimming removes |
| HttpRequest.FitLines | src/headers.c:103-143 | printed fields that fit are read back in order from their lines |
| HttpRequest.ParsedFieldsFit | src/headers.c:103-123 | whatever is parsed fits: lower-case trimmed names without separators, trimmed values |
| HttpRequest.FirstLine | src/http.c:14-48 | method, path and version are cut out of the first line, and the headers are read from behind it, one octet late when there is no version |
| HttpRequest.RequestRoundTrip | src/http.c:14-100 | parsing a printed request returns the same method, path, version and ordered fields exactly when the request fits |
| HttpText.CharactersMean | src/headers.c:35 | the capitals of ASCII and its white space, character by character |
| HttpText.RequestIsText | src/http.c:68-100 | the characters of a printed request |
| HttpText.InvalidExactly | src/http.c:14-37 | -1 exactly when the text does not begin with a method, a path and the rest of a line, each of the first two ended by a space |
| HttpText.FirstLineExactly | src/http.c:40-48 | white space around the version: with one octet of it in front of the line feed the headers are read whole, with none the first octet of them is lost, and with more all of them are |
| HttpText.TrailingSpaceLosesHeaders | src/http.c:40-48 | a first line with one space behind its version, and whatever follows: no headers |
| HttpRequest.ParsedIndexAgrees | src/headers.c:103-123 | `header_get` on parsed headers is reliable for every name exactly when no name written with a capital letter repeats an earlier one |
| HttpInPlace.HeaderParse | src/headers.c:103-123 | the loop cuts lines and names inside the buffer and adds what the specification says |
| HttpInPlace.ParseInPlace | src/http.c:14-48 | the request line and headers cut inside the buffer, with the source's two failures |
| HttpInPlace.StrTrim | src/headers.c:117-118 | trimming in place |
| HttpInPlace.HeaderSerialize | src/headers.c:125-143 | the bounded prints never truncate and fill the computed length exactly |
| HttpInPlace.SerializeRequest | src/http.c:68-100 | the computed length is the number of octets written, and they are the request and its body |
| TerminatorScan.NextIsLongest | src/http_network.c:198-208 | one step keeps the match length the longest suffix that starts the pattern |
| TerminatorScan.LookBack | src/http_network.c:184-211 | the match length after the last three octets of the segment before |
| TerminatorScan.ScanSegment | src/http_network.c:213-291 | the first match that ends in the segment and begins no more than three octets before it |
| TerminatorScan.ScanReads | src/http_network.c:169-291 | one read after the other up to the first match; an empty read changes nothing |
| TerminatorScan.ScanFindsFirstVisible | src/http_network.c:169-291 | the scan finds exactly the first occurrence that lies within two adjacent segments, empty reads not counted |
| TerminatorScan.ScanIsExact | src/http_network.c:169-291 | it agrees with a search of the whole input exactly when the first occurrence lies within two adjacent segments, or there is none |
| TerminatorScan.LongSegmentsAreExact | src/http_network.c:169-291 | when every read that is not empty has at least three octets it always agrees |
| TerminatorScan.SingleOctetsHideAll | src/http_network.c:184-210 | in reads of at most one octet no request is ever recognised |
| TerminatorScan.HeadReader.HandleRead | src/http_network.c:121-226 | the head, everything up to the match, is popped, and the rest of the segment stays; without a match the segment is kept |
| TerminatorScan.HeadReader.ReadHead | src/http_network.c:121-291 | read after read up to the first head, the heap object finds what `ScanFinds` finds, and returns everything up to there |
| RequestDelivery.RequestEndsOnce | src/http.c:68-100 | a printed request contains an empty line only at its end |
| RequestDelivery.RequestArrives | src/http_network.c:169-239 | a request that fits, in reads that are empty or of at least three octets, is recognised at its last octet and parsed back |
| Fcgi.ReadRecord | modules/fcgi/src/fcgi_protocol.c:66-89 | a record of the specification, with any padding, is read as its content |
| Fcgi.WrittenIsRead | modules/fcgi/src/fcgi_protocol.c:13-27 | a written frame reads back as itself exactly when its data is there or its length is zero |
| Fcgi.FeedIsCollect | modules/fcgi/src/fcgi_protocol.c:66-89 | reading after every segment takes the same records as reading once |
| Fcgi.FramesArrive | modules/fcgi/src/fcgi_protocol.c:13-89 | under any segmentation exactly the written frames are read, and nothing is left |
| Fcgi.StdinConserves | modules/fcgi/src/fcgi_provider.c:384-404 | the STDIN records reassemble to the body: 65535 octets in each but the last two, the rest in the last but one, and nothing in the last |
| Fcgi.BodyArrives | modules/fcgi/src/fcgi_provider.c:384-404 | any body arrives whole, however it is cut |
| Fcgi.ParamIsRead | modules/fcgi/src/fcgi_protocol.c:29-62 | a parameter's octets decode, by section 3.4 of the FastCGI specification, to its name and value exactly when both lengths fit 31 bits |
| Fcgi.ParamFitsExactly | modules/fcgi/src/fcgi_protocol.c:40-63 | the record that is sent for a parameter holds it exactly when its octets number less than 65536 |
| Fcgi.LongParamIsLost | modules/fcgi/src/fcgi_protocol.c:40 | a concrete parameter of 65536 octets that does not survive |
| Fcgi.ShortParamOnWire | modules/fcgi/src/fcgi_protocol.c:13-62 | the octets of a parameter with short name and value |
| Fcgi.StdinOnWire | modules/fcgi/src/fcgi_provider.c:384-404 | the octets of a body of two octets |
| Fcgi.WriteParam | modules/fcgi/src/fcgi_protocol.c:29-64 | the parameter written in place and sent as specified; every write is inside the allocated block exactly when its octets number less than 65536 |
| Fcgi.WriteFrame | modules/fcgi/src/fcgi_protocol.c:13-27 | header and data are pushed as specified |
| Fcgi.ReadFrame | modules/fcgi/src/fcgi_protocol.c:66-89 | a complete record is taken; "need more" and a wrong version leave the buffer unchanged |
| Fcgi.WriteBody | modules/fcgi/src/fcgi_provider.c:384-404 | the loop over the body writes the specified records |
| WriteQueue.FlushConserves | src/network.c:26-76 | what one trigger sends, followed by what it leaves, is what was queued |
| WriteQueue.FlushEmptiesExactly | src/network.c:28-74 | the queue is emptied exactly when every call takes its whole entry, and only EAGAIN makes the connection wait |
| WriteQueue.FlushStopsThere | src/network.c:45-74 | the first call that does not take its whole entry ends the flush: the rest of that entry and all later ones stay, and the two flags tell EAGAIN and other errors |
| WriteQueue.TriggerSends | src/network.c:26-76 | an available socket that takes everything is sent the whole queue, and an unavailable one nothing |
| WriteQueue.RunConserves | src/network.c:26-76 | over any run of pushes and triggers with any short writes and errors, the socket has an in-order prefix of what was pushed and `size` counts the remainder |
| WriteQueue.Connection.PushData | src/network.c:26-28 | data joins the end of the queue that the loop walks |
| WriteQueue.Connection.WriteFirst | src/network.c:45-74 | one call of `write`: the entry dropped, shortened or kept |
| WriteQueue.Connection.TriggerWrite | src/network.c:26-76 | the loop in place |

## Left out

- HuffmanDecoder.DecodesAt: memory is not modelled, so a decoder's write past a too small buffer cannot be seen; the growing buffer is modelled and its contents are.
- HuffmanEncoder.HuffmanEncode: the writes of a one-octet input past its allocation go to extra octets of the model's array, and `inBounds` reports them.
- HpackLockstep.RunLockstep: is about wire forms; for emitted buffers it is `ResponseHeaders.EmittedRunLockstep`, under the condition that no integer met the boundary case. What a decoder makes of a buffer cut short by that case is not described.
- HpackLockstep.SyncedTables: asks that nothing oversized is held at that moment; `HpackGuarantees.FittingIsShared` asks it of the encoder only. With an oversized entry only what the next use can see is the same, which `HpackLockstep.RunLockstep` states.
- HpackContext.HpackCtx.Encode: push indices and sizes do not wrap around at 64 bits; the contract asks that they stay below.
- HpackGuarantees.OneNodeRunIsDelivered: goes one way, to the condition that `HpackLockstep.RunLockstep` shows to be exact; delivery and equal tables are concluded by `HpackGuarantees.OneNodeFromStart`.
- HpackGuarantees.UnevictedRunIsDelivered: goes one way for the same reason; delivery is concluded by `HpackGuarantees.UnevictedFromStart`.
- Http2Streams.EveryRunIsDisciplined: a PING ends the run, because the code answers it through a pointer that was never set.
- Http2Connection.ServerConnection.HandleRequest: pseudo-header checks and the added host field (`src/http2_pipeline.c:86-104`) are part of the arbitrary answer, as are modules and virtual hosts.
- HeaderList.HeaderTable.Insert: entries and lists are values in an arena; that memory of deleted entries is not reused is assumed.
- HttpInPlace.ParseInPlace: the body announced by Content-Length is not allocated or read.
- TerminatorScan.HeadReader.HandleRead: one request per scan; after a match the code keeps the match length of four.
- Fcgi.WriteParam: the writes past the allocated block go to extra octets of the model's array, and `inBounds` reports them; the `int` offset does not wrap around.
- Sockets, epoll, the accept and wake threads, TLS with the `SSL_write` branch of `trigger_write`, signals, configuration, logging and module loading: input and output.
- Memory pools: what a freed pool leaves behind is modelled only where it removes a stream from its map.
- gzip, MD5 entity tags, path resolution and MIME types: foreign code or the environment.
- Chunked bodies (`src/chunked.c`, `src/provider.c`): the writer and the reader use different number bases and there is no round trip.
- `http2_send_data`: its loop advances by the whole length, so that it sends one frame whatever the size.
- Flow control, priority and push: the code does not implement them.
- `parseResponse` and `serializeResponse`: the same reader and printer of headers with another first line.
- The FastCGI response scan, and the order in which parameters come out of the hash map.
- `src/cache.c`, and the mount, redirect and reverse proxy handlers: nothing that would need a proof of its own.
