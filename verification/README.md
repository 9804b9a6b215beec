# Roughtime client core in Dafny

This project models the core of a small Roughtime client ("vak"). It
covers four pieces:

- **The wire codec and reply verification of the C client** (`src/c/vrt.c`):
  - the query builder;
  - the blob reader and tag lookup;
  - the delegation, response-signature, Merkle-tree and time-bound checks;
  - `vrt_parse_response`.
- **Its ESP32 port** (`examples/esp32/roughtime/vrt.c`), and how the port
  differs from the main client.
- **The MicroPython client** (`pyroughtime.py`):
  - its tag and packet classes;
  - the packet parser and encoder;
  - the Merkle check and time bounds of `query`.
- **The overlap engine** that turns server ranges into one agreed range. It
  has five forms:
  - the C linked-list algorithm;
  - the two Python classes;
  - the two MicroPython classes;
  - the ESP32 clustering prototype.

  The driver `vak_main` polls servers until enough of them agree.

The message format is the Roughtime format:

- a little-endian tag count;
- `n-1` value offsets;
- `n` tag keys;
- the values;
- an optional 12-byte "ROUGHTIM" frame with a length.

The model states this layout once (`Wire.Encode`). It then proves that:

- the C lookup finds every value in an encoded message;
- the Python parser inverts the Python encoder;
- the C builder writes exactly the encoding of the query message.

A linked list keeps the overlap engine's edges sorted by value. Each form's
search is proved equal to one reference quantity, the peak of the running
count of open ranges (`Overlap.Peak`), or the model shows on a concrete input
where a form departs from it.

Modelling choices:

- **Pure functions and loops.** Pure code is modelled as functions and lemmas.
  Loops are methods proved equal to those functions.
- **Objects.** Objects whose fields change are classes:
  - the C builder over an `array<byte>`;
  - the C and ESP32 edge lists as doubly linked `EdgeNode`s;
  - the Python algorithm objects with `seq` fields.
- **Crypto.** The primitives (Ed25519 verification, SHA-512 and
  SHA-512/256) are a parameter record `Crypto.Primitives` of uninterpreted
  functions.
- **Network and entropy.** The network and the nonce source are inputs.
- **Edge values.** They are C `double`s and Python numbers, and the model uses
  `int` for them.

## Model

| member | source | states |
|---|---|---|
| Bytes.Word | src/c/vrt.c:34-42 | a u32 is written as 4 bytes that read back as the same value |
| Bytes.WordOfU32 | src/c/vrt.c:34-42 | reading 4 bytes as a u32 and writing it back gives the same 4 bytes |
| Bytes.WordInjective | src/c/vrt.c:34-42 | different u32 values have different byte encodings |
| Bytes.Word64 | src/c/vrt.c:190-201 | a u64 is written as 8 little-endian bytes that read back as the same value |
| Bytes.Word64Halves | src/c/vrt.c:190-201 | the u64 `lo + hi·2^32` is encoded as the word of `lo` followed by the word of `hi` |
| Bytes.Write | src/c/vrt.c:91 | the array afterwards holds `d` at `pos` and is unchanged elsewhere |
| Wire.Encode | examples/micropython-esp32-ttgo/pyroughtime.py:563-574 | a message of n ≥ 1 tags takes 8n header bytes plus its values |
| Wire.EndsAt | examples/micropython-esp32-ttgo/pyroughtime.py:566-569 | offset slot k-1 holds the total length of the values of the first k tags |
| Wire.ValueAt | examples/micropython-esp32-ttgo/pyroughtime.py:572-573 | tag k's value lies in the value area right after the values of the tags before it |
| Wire.Frame | examples/micropython-esp32-ttgo/pyroughtime.py:575-576 | the frame is 12 bytes starting with the 8-byte "ROUGHTIM" magic |
| Blob.Init | src/c/vrt.c:160-171 | succeeds exactly when the size is a multiple of 4 and otherwise reports MALFORMED; the blob is the data itself |
| Blob.R32 | src/c/vrt.c:173-188 | succeeds exactly when word i lies inside the blob and otherwise reports MALFORMED |
| Blob.R32Reads | src/c/vrt.c:173-188 | a successful read returns the little-endian value of bytes 4i..4i+4 |
| Blob.R64 | src/c/vrt.c:190-201 | succeeds exactly when words i and i+1 lie inside the blob |
| Blob.R64Reads | src/c/vrt.c:190-201 | a successful read returns the 64-bit little-endian value of bytes 4i..4i+8 |
| Blob.Slice | src/c/vrt.c:203-225 | succeeds exactly when `4·offset + size` fits; the result is bytes [4·offset, 4·offset+size) and the error is MALFORMED |
| Blob.TagLookupFrom | src/c/vrt.c:240-255 | no contract of its own: the scan of `vrt_get_tag` from key i on, reading key word n+i and giving the entry of the first match, TAG_NOT_FOUND past the last key, MALFORMED on a read outside the blob; `Blob.LookupFromSound`, `Blob.FoundFrom` and `Blob.MissingFrom` state its meaning |
| Blob.TagLookup | src/c/vrt.c:227-256 | no contract of its own: `vrt_get_tag` as a function, the tag count read from word 0 and then the scan; `Blob.LookupSound`, `Blob.LookupCodes` and `Blob.LookupEncoded` state its meaning |
| Blob.EntryWithin | src/c/vrt.c:227-256 | the value returned for a header entry lies inside the message; the only error is MALFORMED |
| Blob.LookupFromSound | src/c/vrt.c:240-255 | the scan reports TAG_NOT_FOUND only when the header fits and no remaining key is the tag; a found value has a matching key and lies inside the message |
| Blob.LookupSound | src/c/vrt.c:227-256 | for `vrt_get_tag` as a whole: NOT_FOUND means no key matches; success means some key matches and the value is inside the message; every other error is MALFORMED |
| Blob.LookupCodes | src/c/vrt.c:227-256 | a lookup fails only with TAG_NOT_FOUND or MALFORMED |
| Blob.GetTag | src/c/vrt.c:227-256 | the looping method returns exactly the lookup function's result |
| Blob.EntryEncoded | src/c/vrt.c:227-256 | in an encoded message of aligned values, header entry k is tag k's value |
| Blob.FoundFrom | src/c/vrt.c:240-255 | the scan returns the entry of the first matching key |
| Blob.MissingFrom | src/c/vrt.c:240-255 | when no key from i on matches, the scan reports TAG_NOT_FOUND |
| Blob.LookupEncoded | src/c/vrt.c:227-256 | round trip: looking up a present tag in an encoded message (distinct keys, aligned values) returns its value, and an absent tag gives TAG_NOT_FOUND |
| Crypto.Digest | src/c/vrt.c:310-320 | SHA-512/256 yields 32 bytes and SHA-512 yields 64 |
| Merkle.Leaf | src/c/vrt.c:310-320 | the leaf hash of the nonce is node-size bytes long |
| Merkle.Parent | src/c/vrt.c:322-334 | the hash of two children is node-size bytes long |
| Merkle.Depth | src/c/vrt.c:358-372 | the loop folds at most 32 path nodes and only whole ones; it folds fewer than 32 only when no further node fits |
| Merkle.Root | src/c/vrt.c:350-372 | the value computed from nonce, path and index is node-size bytes long |
| Merkle.NonceStatus | src/c/vrt.c:336-377 | success exactly when SREP is at most 100 bytes, INDX holds a word and ROOT equals the fold of the path from the nonce's leaf; any other outcome is one of TAG_NOT_FOUND, MALFORMED, WRONG_SIZE or TREE |
| Merkle.HashNode | src/c/vrt.c:322-334 | the first node-size bytes of the hash buffer become the parent of the two children |
| Merkle.FoldPath | src/c/vrt.c:358-372 | the loop leaves the fold over the first `Depth` path nodes in the hash buffer |
| Merkle.VerifyNonce | src/c/vrt.c:336-377 | the method returns exactly `NonceStatus` |
| Merkle.FoldAgree | src/c/vrt.c:358-372 | the fold depends only on the first k path nodes and the low k bits of the index |
| Merkle.AuditPathFolds | src/c/vrt.c:358-372 | folding leaf i with its audit path in a complete tree of depth d gives the tree's root |
| Merkle.RootOfAuditPath | src/c/vrt.c:336-377 | completeness: when the nonce's leaf is leaf i of a complete tree, the root computed from the honest audit path is the tree's root |
| Query.Preamble | src/c/vrt.c:54-60 | the frame is 12 bytes for variant 5 and later, and empty before |
| Query.RenderAdd | src/c/vrt.c:75-95 | one `add_tag` (offset slot, key slot, value copy) on a rendered builder gives the rendering of the tag list extended by that tag |
| Query.RenderEncodes | src/c/vrt.c:97-102 | zero-filling after the last value turns the rendered bytes into the wire encoding of the tags, with the fill added to the last tag's value |
| Query.RenderFrame | src/c/vrt.c:75-95 | rendering leaves the bytes before the message and after the written area untouched |
| Query.RenderEmpty | src/c/vrt.c:44-73 | an initialised builder with no tags renders as its buffer |
| Query.WriteTag | src/c/vrt.c:84-94 | the three writes of `add_tag` are exactly the offset word, the key word and the value |
| Query.InvAdd | src/c/vrt.c:75-95 | adding a tag with a higher key and an aligned value that fits keeps the builder invariant |
| Query.InvFinish | src/c/vrt.c:97-102 | finishing a full builder leaves the encoding of its tags (last one padded) between start and `max_size`, and the buffer outside untouched |
| Query.Builder.Init | src/c/vrt.c:44-73 | the buffer gets the frame (variant ≥ 5) and the tag count; the builder starts empty |
| Query.Builder.AddTag | src/c/vrt.c:75-95 | the tag is appended, the offset grows by its size, the buffer gets exactly the three writes, and the invariant is kept |
| Query.Builder.Finish | src/c/vrt.c:97-102 | zero-fills from the end of the data to `max_size`; the result is the encoding of the tags with the last padded |
| Query.QueryTags | src/c/vrt.c:113-134 | VER (variant ≥ 5), NONC and PAD with increasing keys and aligned values, of the stated lengths |
| Query.QueryMessage | src/c/vrt.c:105-139 | the query message encodes to exactly 1024 bytes |
| Query.QueryMessageShape | src/c/vrt.c:113-134 | the message is VER 0x08000003 (variant ≥ 5), then NONC with the first 32 (variant ≥ 5) or 64 nonce bytes, then PAD of zeros |
| Query.QueryMessageReads | src/c/vrt.c:105-139 | round trip: `vrt_get_tag` on the built query returns the nonce prefix, the zero padding and (variant ≥ 5) the version |
| Query.AddQueryTags | src/c/vrt.c:113-134 | fails exactly when the nonce is too short, having then added only VER (variant ≥ 5); otherwise the tags are the query's |
| Query.BuildQuery | src/c/vrt.c:105-139 | with a long enough nonce the buffer starts with frame and encoded query and is unchanged beyond it; otherwise the builder stops after VER |
| Query.MakeQuery | src/c/vrt.c:105-139 | a buffer smaller than the query is zeroed with WRONG_SIZE; a short nonce gives WRONG_SIZE after the partial build; otherwise SUCCESS, the length is frame + 1024, and the buffer holds the query followed by zeros up to `out_query_len` |
| Query.FinishEndAsWritten | src/c/vrt.c:97-117 | as written, the zero fill ends at `buffer + 12 + 1036` for variant ≥ 5, 12 bytes beyond the framed query |
| Query.FinishOverrunsAsWritten | src/c/vrt.c:113-117 | a 1036-byte buffer passes the size check, yet the fill ends 12 bytes past it |
| Query.AddTagGuardAdmitsAsWritten | src/c/vrt.c:78-80 | the asserts admit a tag index equal to the tag count (key slot at the data area) and do not count the current offset against `max_size` |
| Response.DeleContext | src/c/vrt.h:62-69 | the delegation context is 36 bytes (old string) before variant 7 and 34 bytes from variant 7 |
| Response.RespContext | src/c/vrt.h:68-69 | the response context is 32 bytes |
| Response.VerifyDele | src/c/vrt.c:258-285 | SUCCESS exactly when signature and DELE have their sizes and the signature opens over context ‖ DELE; WRONG_SIZE exactly when a size is wrong; otherwise DELE |
| Response.VerifyPubk | src/c/vrt.c:287-308 | SUCCESS exactly when the signature is 64 bytes, SREP is at most 100 bytes and the signature opens over the response context ‖ SREP; WRONG_SIZE exactly on a size error; otherwise PUBK |
| Response.VerifyBounds | src/c/vrt.c:379-406 | success only when MINT < MIDP < MAXT, returning MIDP and RADI; when all four read, success exactly then; BOUNDS zeroes both outputs |
| Response.MjdToUnixMicros | src/c/vrt.c:461-467 | no contract of its own: the day in the top 24 bits minus 40587, times 86 400 000 000, plus the low 40 bits, each step wrapped to 64 bits; `Response.MjdConverts` and `Response.MjdBeforeEpochWraps` state what it gives |
| Response.MjdConverts | src/c/vrt.c:461-467 | for an MJD timestamp on or after 1970-01-01, the conversion gives microseconds since the Unix epoch |
| Response.MjdBeforeEpochWraps | src/c/vrt.c:461-467 | a day before 1970 wraps around in 64 bits, to 2^64 minus one day in microseconds |
| Response.Unframe | src/c/vrt.c:421-438 | before variant 5 the reply is the body; from 5 the frame is accepted exactly when there are 12 bytes, the magic matches and the declared length is at most the rest; WRONG_SIZE exactly for fewer than 12 bytes |
| Response.ExtractFields | src/c/vrt.c:440-451 | field extraction fails only with TAG_NOT_FOUND or MALFORMED |
| Response.TreeScheme | src/c/vrt.c:346-350 | nodes are 32 bytes from variant 5 and 64 before, never longer than the nonce |
| Response.Gates | src/c/vrt.c:451-467 | SUCCESS exactly when all checks pass (`Authentic`), returning the converted midpoint and the radius; BOUNDS zeroes the outputs |
| Response.ParseBody | src/c/vrt.c:440-467 | SUCCESS exactly when the nonce is long enough, all fields extract and all checks pass |
| Response.ParseResponse | src/c/vrt.c:408-470 | SUCCESS exactly when the reply is accepted (frame, fields, every check), with the converted MIDP and RADI; never NULL_ARGUMENT |
| Response.ForgedDelegationRefused | src/c/vrt.c:456 | a well-formed reply whose delegation signature does not open is refused with DELE and the outputs are untouched |
| Response.ForeignNonceRefused | src/c/vrt.c:457 | a reply whose tree root is not derived from our nonce is refused with TREE |
| Response.FramedReply | src/c/vrt.c:421-438 | a framed reply whose declared length fits is parsed exactly as its body |
| Response.EncodedFieldsExtract | src/c/vrt.c:440-451 | round trip: extraction from an encoded reply returns the fields placed in it |
| Response.Found | src/c/vrt.c:227-256 | a tag present in a well-formed encoded message is found with its value |
| Esp32.Layout | examples/esp32/roughtime/vrt.c:32-35 | the port's draft-05 variant has the framed layout, and the pre-IETF variant the plain one |
| Esp32.QueryMessage | examples/esp32/roughtime/vrt.c:133-148 | the frame plus the message fill exactly RT_MAX_PACKET_SIZE (1036) bytes |
| Esp32.MakeQuery | examples/esp32/roughtime/vrt.c:449-456 | always SUCCESS; the first 1036 bytes are the frame and the encoded query; the buffer beyond is untouched |
| Esp32.FramedQueryMatchesMain | examples/esp32/roughtime/vrt.c:136-141 | the port's draft-05 query is the main client's variant 5 query |
| Esp32.PlainQueryLonger | examples/esp32/roughtime/vrt.c:142-147 | the port's pre-IETF query is 1036 bytes, with 12 more bytes of padding than the main client's, and the same NONC |
| Esp32.Unframe | examples/esp32/roughtime/vrt.c:410-427 | framing is accepted exactly when the declared length equals the rest of the reply |
| Esp32.TreeScheme | examples/esp32/roughtime/vrt.c:326-366 | node size 32 for draft 05 and 64 before, always hashed with SHA-512 |
| Esp32.Gates | examples/esp32/roughtime/vrt.c:440-446 | SUCCESS exactly when all checks pass in the port's order, returning MIDP unconverted |
| Esp32.ParseResponse | examples/esp32/roughtime/vrt.c:397-447 | SUCCESS exactly when the port accepts the reply, with MIDP and RADI as sent |
| Esp32.MainAcceptsWhatPortAccepts | examples/esp32/roughtime/vrt.c:397-447 | every reply the port accepts is accepted by the main client, with the same radius and the midpoint converted from MJD for draft 05 |
| Esp32.ShortDeclaredLength | examples/esp32/roughtime/vrt.c:419 | a reply declaring fewer bytes than it carries is framed by the main client and refused as MALFORMED by the port |
| PyTag.ToInt | examples/micropython-esp32-ttgo/pyroughtime.py:360-374 | a value is accepted exactly when it has 4 or 8 bytes, and the result is its little-endian reading |
| PyTag.KeyStr | examples/micropython-esp32-ttgo/pyroughtime.py:383-386 | four characters, character i being byte i of the little-endian key |
| PyTag.KeyBytes | examples/micropython-esp32-ttgo/pyroughtime.py:336-339 | four bytes, byte i being character i of the key |
| PyTag.KeyRoundTrip | examples/micropython-esp32-ttgo/pyroughtime.py:376-386 | key string and key word convert into each other in both directions |
| PyTag.KeyStrInjective | examples/micropython-esp32-ttgo/pyroughtime.py:383-386 | different key words give different key strings |
| PyTag.PadKey | examples/micropython-esp32-ttgo/pyroughtime.py:300-305 | keys longer than 4 are refused; shorter ones keep their characters and are NUL-padded to 4 |
| PyPacket.Insert | examples/micropython-esp32-ttgo/pyroughtime.py:488-489 | appending then sorting adds exactly the new tag to the multiset |
| PyPacket.InsertSorted | examples/micropython-esp32-ttgo/pyroughtime.py:488-489 | with a fresh key, the tag list stays sorted by key |
| PyPacket.InsertMembers | examples/micropython-esp32-ttgo/pyroughtime.py:488-489 | the tags afterwards are the old ones plus the new one |
| PyPacket.Find | examples/micropython-esp32-ttgo/pyroughtime.py:550-553 | a tag is found exactly when one with the key is present, and it is a member with that key |
| PyPacket.Parse | examples/micropython-esp32-ttgo/pyroughtime.py:421-432 | only packets that are a multiple of 4 and at least 8 bytes parse; with the magic, the declared length equals the rest exactly |
| PyPacket.ParseBody | examples/micropython-esp32-ttgo/pyroughtime.py:429-434 | a parsed body has a header that fits and exactly as many tags as its count |
| PyPacket.ParseFrom | examples/micropython-esp32-ttgo/pyroughtime.py:434-471 | the loop adds one tag per header slot |
| PyPacket.Slot | examples/micropython-esp32-ttgo/pyroughtime.py:435-457 | an accepted slot's value lies inside the packet |
| PyPacket.Accept | examples/micropython-esp32-ttgo/pyroughtime.py:459-471 | an accepted tag has the slot's key, is not a duplicate, and is a known leaf with an aligned value or a known parent |
| PyPacket.Packet.Empty | examples/micropython-esp32-ttgo/pyroughtime.py:410-417 | a new packet has its key, no tags and nothing received |
| PyPacket.Packet.Load | examples/micropython-esp32-ttgo/pyroughtime.py:410-471 | the constructor succeeds exactly when `Parse` does, and the tags are then the parsed ones |
| PyPacket.Packet.LoadBody | examples/micropython-esp32-ttgo/pyroughtime.py:429-471 | the tag loop succeeds exactly when `ParseBody` does, with its tags |
| PyPacket.Packet.ReadTag | examples/micropython-esp32-ttgo/pyroughtime.py:434-471 | one pass of the loop is the slot read followed by the classification |
| PyPacket.Packet.ReadSlot | examples/micropython-esp32-ttgo/pyroughtime.py:435-457 | returns exactly the slot function |
| PyPacket.Packet.Classify | examples/micropython-esp32-ttgo/pyroughtime.py:459-471 | returns exactly `Accept` |
| PyPacket.Packet.Contains | examples/micropython-esp32-ttgo/pyroughtime.py:531-534 | true exactly when a tag has the key |
| PyPacket.Packet.GetTag | examples/micropython-esp32-ttgo/pyroughtime.py:550-553 | returns exactly `Find` |
| PyPacket.Packet.AddTag | examples/micropython-esp32-ttgo/pyroughtime.py:473-489 | refuses a duplicate key and changes nothing; otherwise inserts in key order, adding exactly that tag |
| PyPacket.Packet.GetValueBytes | examples/micropython-esp32-ttgo/pyroughtime.py:563-577 | returns the wire encoding of the tags, framed when asked, whenever the offsets fit in 32 bits |
| PyPacket.Packet.AddPadding | examples/micropython-esp32-ttgo/pyroughtime.py:582-594 | leaves packets of 1024 bytes or more alone; a shorter one gets exactly one new tag, PAD\xff with max(0, 1016 − length) zero bytes, sorted in; a non-empty packet of at most 1016 bytes then becomes exactly 1024, and any shorter one at least 1024 |
| PyPacket.OffsetTable | examples/micropython-esp32-ttgo/pyroughtime.py:565-569 | the offset loop yields the words of the cumulative value lengths, failing exactly when one exceeds 32 bits |
| PyPacket.KeyTable | examples/micropython-esp32-ttgo/pyroughtime.py:570-571 | the key loop yields the words of the keys |
| PyPacket.ValueArea | examples/micropython-esp32-ttgo/pyroughtime.py:572-573 | the value loop yields the concatenated values |
| PyPacket.EncodeWords | examples/micropython-esp32-ttgo/pyroughtime.py:563-574 | the encoding is count, offsets, keys, values |
| PyPacket.SlotOf | examples/micropython-esp32-ttgo/pyroughtime.py:435-457 | in an encoded message, slot i is tag i's key and value |
| PyPacket.ParseFromEncoded | examples/micropython-esp32-ttgo/pyroughtime.py:434-471 | the tag loop over an encoded well-formed tag list rebuilds the list |
| PyPacket.ParseEncoded | examples/micropython-esp32-ttgo/pyroughtime.py:410-471 | round trip: parsing the encoding of a well-formed, sorted, non-empty tag tree gives it back |
| PyPacket.FramedBody | examples/micropython-esp32-ttgo/pyroughtime.py:424-427 | a frame with the right length parses as its body |
| PyPacket.FramedParse | examples/micropython-esp32-ttgo/pyroughtime.py:575-576 | round trip through the framed encoding |
| PyPacket.EmptyUnparsable | examples/micropython-esp32-ttgo/pyroughtime.py:429-432 | the encoding of an empty packet is 4 bytes and does not parse (the reader wants 8) |
| PyQuery.NodeSize | examples/micropython-esp32-ttgo/pyroughtime.py:226-229 | the node size is 32 or 64 |
| PyQuery.Scheme | examples/micropython-esp32-ttgo/pyroughtime.py:226-232 | hashing is SHA-512, cut to the node size |
| PyQuery.NonceLeaf | examples/micropython-esp32-ttgo/pyroughtime.py:232 | the leaf is node-size bytes |
| PyQuery.CheckTree | examples/micropython-esp32-ttgo/pyroughtime.py:231-254 | the loop returns exactly `TreeVerdict` |
| PyQuery.TreeAgreesWithC | examples/micropython-esp32-ttgo/pyroughtime.py:231-254 | the tree is accepted exactly when the path is whole nodes, at most 32 of them, the index fits the path and the computed root is ROOT (the C fold) |
| PyQuery.LeftoverIndexRefused | examples/micropython-esp32-ttgo/pyroughtime.py:251-252 | an index beyond the path is refused although the C fold would accept the root |
| PyQuery.LongPathRefused | examples/micropython-esp32-ttgo/pyroughtime.py:236-238 | more than 32 path nodes are refused, where C folds only the first 32 |
| PyQuery.BoundsInclusive | examples/micropython-esp32-ttgo/pyroughtime.py:222-224 | Python accepts MIDP equal to MINT or MAXT, which the C bound check refuses; strictly inside, both accept |
| Overlap.LoFrom | src/python/overlap.py:113-119 | the low scan stops at the first edge where the running count reaches `wanted` and at no earlier one |
| Overlap.HiFrom | src/python/overlap.py:121-127 | the high scan stops at the last such edge from the top |
| Overlap.Best | src/python/overlap.py:112-132 | the level searched down to is at most `wanted` and, when positive, passes |
| Overlap.Peak | src/python/overlap.py:112-132 | the peak is the largest running count of open ranges, and it is reached |
| Overlap.FoundIffPeak | src/python/overlap.py:113-127 | each scan finds an edge exactly when `wanted` is at most the peak |
| Overlap.LoBeforeHi | src/python/overlap.py:113-127 | when both scans find edges, the low one comes before the high one |
| Overlap.OrderedWhenFound | src/python/overlap.py:129 | on a sorted list the `lo <= hi` test never rejects a level whose scans both succeed |
| Overlap.PassesIffPeak | src/python/overlap.py:129 | a level passes exactly when it is at most the peak |
| Overlap.BestIsPeak | src/python/overlap.py:112-132 | the search settles on `min(wanted, peak)` |
| Overlap.PeakInsert | src/python/overlap.py:90-92 | one more start edge raises the peak by at most one, and an end edge not at all |
| Overlap.AddRange | src/python/overlap.py:90-95 | adding a range keeps the list sorted and balanced, with peak at most the range count |
| Overlap.CInsertSorted | src/c/overlap_algo.c:55-73 | inserting before the first edge of no smaller value keeps the list sorted and adds exactly that edge |
| Overlap.SortInSorted | src/python/overlap.py:92 | `sort()` on (value, chime) pairs keeps the order and adds exactly the edge |
| Overlap.SortedUnique | src/python/overlap.py:92 | two sorted lists with the same edges are equal |
| Overlap.PyAddKeeps | src/python/overlap.py:86-95 | `add` keeps the list sorted and balanced, with peak one higher at most, and adds exactly its two edges |
| Overlap.CAddKeeps | src/c/overlap_algo.c:79-90 | `overlap_add` keeps the list sorted and balanced, with peak one higher at most, and adds exactly its two edges |
| Overlap.PyAddNonNegative | src/python/overlap.py:86-92 | with `lo <= hi`, the running count never goes negative |
| Overlap.CAddNonNegative | src/c/overlap_algo.c:79-90 | with `lo < hi`, the C list's running count never goes negative |
| Overlap.BestUnsigned | src/c/overlap_algo.c:100-116 | with a non-negative count below 2^32, comparing as unsigned changes nothing |
| Overlap.AddCommutes | src/python/overlap.py:90-92 | adding two ranges in either order gives the same edge list |
| PyOverlap.ScanLo | src/python/overlap.py:113-119 | the loop returns the low end of the low scan |
| PyOverlap.ScanHi | src/python/overlap.py:121-127 | the loop returns the high end of the high scan |
| PyOverlap.Search | src/python/overlap.py:112-134 | the count returned is at most `wanted` |
| PyOverlap.SearchIsBest | src/python/overlap.py:112-134 | the search returns the best passing level with its ends, or 0 with the ends of level 1 |
| PyOverlap.OverlapAlgorithm.constructor | src/python/overlap.py:60-69 | a new object has no edges and `wanted` 0 |
| PyOverlap.OverlapAlgorithm.FromRanges | src/python/overlap.py:60-72 | construction fails exactly when some range is inverted; otherwise all ranges are added |
| PyOverlap.OverlapAlgorithm.Add | src/python/overlap.py:74-95 | an inverted range is refused with nothing changed; otherwise the two edges are sorted in and `wanted` grows by one |
| PyOverlap.OverlapAlgorithm.Find | src/python/overlap.py:97-134 | returns `FindResult` of the edges and stores the count as `wanted` |
| PyOverlap.Levels | src/python/overlap.py:112-132 | the level loop returns exactly `Search` |
| PyOverlap.AddAllEdges | src/python/overlap.py:71-72 | adding many ranges keeps the list sorted and balanced and adds their edges |
| PyOverlap.AddAllInvariant | src/python/overlap.py:60-72 | after the constructor the list is sorted and balanced, its peak is at most the number of ranges, and it opens with a start |
| PyOverlap.AddStep | src/python/overlap.py:74-95 | adding one more range raises the peak by at most one |
| PyOverlap.FindIsPeak | src/python/overlap.py:97-134 | `find` returns (0, None, None) without ranges; otherwise the peak count with ends `lo <= hi` where that many ranges overlap |
| PyOverlap.FindAgain | src/python/overlap.py:97-134 | calling `find` again gives the same answer |
| PyOverlap.AddAllOrderFree | src/python/overlap.py:71-92 | the order in which ranges are added does not change the edge list |
| PyOverlap.DocstringExamples | src/python/overlap.py:9-41 | the documented examples, each `find` starting where the object's `wanted` stands: (1,5),(3,9) give (2, 3, 5); adding (4,5) gives (3, 4, 5); adding (10,20) and (12,18) still gives (3, 4, 5); adding (13,17) gives (3, 4, 17), the bounds of both groups |
| PyOverlap.DisjointHull | src/python/overlap.py:36-41 | for any non-empty list of ordered ranges no two of which overlap, `find` from any level reports one overlap whose ends are the smallest start and the largest end: the hull, as the tests of ranges without overlap expect |
| PyOverlap.NonOverlappingTests | src/python/test_overlap.py:98-107 | the two tests without overlap: (1,2),(3,4) give (1, 1, 4) and (1,2),(3,4),(5,6) give (1, 1, 6) |
| PyOverlapRef.RefSearch | src/python/overlap_ref.py:32-54 | the count returned is between 1 and the response count |
| PyOverlapRef.RefSearchIsBest | src/python/overlap_ref.py:32-54 | the reference loop returns the best level whose scans succeed (no order test), or 1 |
| PyOverlapRef.RefIsPeak | src/python/overlap_ref.py:28-54 | the reference returns the peak count, with ordered ends |
| PyOverlapRef.RefAgrees | src/python/overlap_ref.py:28-54 | the reference and the optimised `find` give the same answer for every range list |
| PyOverlapRef.RefLevels | src/python/overlap_ref.py:32-52 | the loop returns exactly `RefSearch` |
| PyOverlapRef.ReferenceOverlapAlgorithm.constructor | src/python/overlap_ref.py:10-12 | a new object has no edges and no responses |
| PyOverlapRef.ReferenceOverlapAlgorithm.FromRanges | src/python/overlap_ref.py:10-15 | construction fails exactly when a range is inverted |
| PyOverlapRef.ReferenceOverlapAlgorithm.Add | src/python/overlap_ref.py:17-26 | an inverted range is refused; otherwise the edges are sorted in |
| PyOverlapRef.ReferenceOverlapAlgorithm.Find | src/python/overlap_ref.py:28-54 | (0, None, None) without responses; otherwise the peak count with ordered ends |
| MpOverlap.SearchFindsPeak | examples/micropython-esp32-ttgo/overlap.py:77-97 | from a level at or above the peak, the search lands on the peak with ordered ends |
| MpOverlap.RangesEdges | examples/micropython-esp32-ttgo/overlap.py:15-17 | the edges of any ranges are sorted and balanced, with peak at most their number |
| MpOverlap.HandleStep | examples/micropython-esp32-ttgo/overlap.py:70-75 | one `handle` adds one range, and the peak grows by at most one |
| MpOverlap.HandlesAgree | examples/micropython-esp32-ttgo/overlap.py:109-129 | after every `handle`, the plain and optimised classes return the same count and ends, as the module's test asserts |
| MpOverlap.OverlapAlgorithm.constructor | examples/micropython-esp32-ttgo/overlap.py:9-11 | a new object has no ranges and no stored ends |
| MpOverlap.OverlapAlgorithm.Handle | examples/micropython-esp32-ttgo/overlap.py:13-49 | adds the range; returns the peak count and, when positive, stores its ordered ends; otherwise returns 0 and leaves the ends alone |
| MpOverlap.OptimizedOverlapAlgorithm.constructor | examples/micropython-esp32-ttgo/overlap.py:64-66 | a new object has no ranges and no stored ends |
| MpOverlap.OptimizedOverlapAlgorithm.Handle | examples/micropython-esp32-ttgo/overlap.py:68-103 | adds the range; `wanted` becomes the peak, and the ends are stored when it is positive |
| MpOverlap.TestExample | examples/micropython-esp32-ttgo/overlap.py:169-174 | the module's test: (1,6),(2,3),(4,5) give two overlaps with ends 2 and 5 |
| MpOverlap.TestNested | examples/micropython-esp32-ttgo/overlap.py:207-208 | the module's last test: (1,4),(2,3),(5,10),(6,9),(7,8) give three overlaps with ends 7 and 8 |
| OverlapC.ListInsert | src/c/overlap_algo.c:60-73 | relinking a node at position k inserts its edge at position k of the contents |
| OverlapC.OverlapAlgo.constructor | src/c/overlap_algo.c:5-18 | an empty list with `_wanted` 0 |
| OverlapC.OverlapAlgo.Locate | src/c/overlap_algo.c:55-58 | the walk stops at the first edge of no smaller value, or at the end |
| OverlapC.OverlapAlgo.LinkBefore | src/c/overlap_algo.c:60-67 | the new node is linked in before `ptr`, and the list stays well formed |
| OverlapC.OverlapAlgo.LinkLast | src/c/overlap_algo.c:68-73 | the new node becomes the tail |
| OverlapC.OverlapAlgo.Insert | src/c/overlap_algo.c:36-77 | the contents become the C insertion of the edge |
| OverlapC.OverlapAlgo.InsertRange | src/c/overlap_algo.c:85-86 | the contents become the C insertion of the start edge and then the end edge; `_wanted` and the ranges are unchanged |
| OverlapC.OverlapAlgo.Count | src/c/overlap_algo.c:87 | `_wanted` grows by one and the range is recorded; the list is unchanged |
| OverlapC.OverlapAlgo.Add | src/c/overlap_algo.c:79-90 | refuses `hi < lo` with nothing changed; otherwise inserts both edges and raises `_wanted` |
| OverlapC.OverlapAlgo.ScanLo | src/c/overlap_algo.c:98-106 | the head-to-tail walk returns the low end under the unsigned comparison |
| OverlapC.OverlapAlgo.ScanHi | src/c/overlap_algo.c:108-116 | the tail-to-head walk returns the high end under the unsigned comparison |
| OverlapC.OverlapAlgo.Levels | src/c/overlap_algo.c:94-125 | the level loop returns exactly `CSearch` |
| OverlapC.OverlapAlgo.SetWanted | src/c/overlap_algo.c:124-127 | `_wanted` becomes the level the loop stopped at; the list is unchanged |
| OverlapC.OverlapAlgo.Find | src/c/overlap_algo.c:92-128 | `_wanted` becomes the count, at least the peak; with a positive count, `*lo` and `*hi` are the ends found; when no two ranges touch, the count is the peak and the answer is Python's |
| OverlapC.CAddAllEdges | src/c/overlap_algo.c:79-90 | the C list of any ranges is sorted and balanced with their edges |
| OverlapC.CSearch | src/c/overlap_algo.c:92-128 | the count is at most `wanted`, with both ends exactly when it is positive |
| OverlapC.CSearchIsBest | src/c/overlap_algo.c:92-128 | `overlap_find` settles on the best level passing under the unsigned comparison |
| OverlapC.CListIsPyList | src/c/overlap_algo.c:55-58 | when no range starts where another ends, the C list equals the Python list |
| OverlapC.CSearchAtPeak | src/c/overlap_algo.c:92-128 | on a list whose count never goes negative, the search lands on the peak |
| OverlapC.CFindAgrees | src/c/overlap_algo.c:92-128 | with strict, non-touching ranges, C `overlap_find` and Python `find` agree |
| OverlapC.FindStep | src/c/overlap_algo.c:92-128 | for any accepted ranges the C count is at least the peak, and equal to Python's answer when no ranges touch |
| OverlapC.PointRangeMiscounts | src/c/overlap_algo.c:79-116 | as written, ranges (1,1),(3,4) from level 2 give (2, 1, 1) although only one range covers any point; Python gives (1, 1, 4) |
| OverlapC.TouchingOrderMatters | src/c/overlap_algo.c:55-58 | as written, (2,3),(1,2) give (1, 1, 3) while (1,2),(2,3) give (2, 2, 2); Python gives (2, 2, 2) in both orders |
| Cluster.ScanFromIsLoFrom | examples/esp32/roughtime/clusteringAlgorithm.c:164-173 | the forward walk, which stops before the last edge, finds the low end of the reference scan |
| Cluster.ScanBackIsHiFrom | examples/esp32/roughtime/clusteringAlgorithm.c:182-189 | the backward walk, which stops before the root, finds the reference high end |
| Cluster.EndsAreLoHi | examples/esp32/roughtime/clusteringAlgorithm.c:164-189 | both walks give the reference ends |
| Cluster.Search | examples/esp32/roughtime/clusteringAlgorithm.c:154-194 | the level loop ends between `n` and the response count |
| Cluster.SearchAtPeak | examples/esp32/roughtime/clusteringAlgorithm.c:154-194 | when min(responses, peak) is below `n` the result is (n, 0, 0); otherwise that level has ordered ends, and when neither end is 0 the result is that level with its ends |
| Cluster.ClusteringData.constructor | examples/esp32/roughtime/clusteringAlgorithm.c:54-70 | every count and value starts at 0 and the list is empty |
| Cluster.ClusteringData.Walk | examples/esp32/roughtime/clusteringAlgorithm.c:89-96 | the walk stops at the node just before the first one of no smaller value |
| Cluster.ClusteringData.LinkFront | examples/esp32/roughtime/clusteringAlgorithm.c:82-86 | the new edge becomes the root |
| Cluster.ClusteringData.LinkAfter | examples/esp32/roughtime/clusteringAlgorithm.c:100-108 | the new edge is linked in after `current` |
| Cluster.ClusteringData.SortedInsert | examples/esp32/roughtime/clusteringAlgorithm.c:72-110 | the edge goes before the first edge of no smaller value |
| Cluster.ClusteringData.InsertEdge | examples/esp32/roughtime/clusteringAlgorithm.c:112-119 | the contents become the C insertion of the edge and stay sorted |
| Cluster.ClusteringData.Count | examples/esp32/roughtime/clusteringAlgorithm.c:133 | `amount_responses` grows by one and the range is recorded |
| Cluster.ClusteringData.InsertRange | examples/esp32/roughtime/clusteringAlgorithm.c:137-145 | the contents become the C insertion of the start edge and then the end edge |
| Cluster.ClusteringData.AddResponse | examples/esp32/roughtime/clusteringAlgorithm.c:133-145 | one more response is counted and its two edges are inserted; the list then holds at least two edges |
| Cluster.ClusteringData.ScanLevel | examples/esp32/roughtime/clusteringAlgorithm.c:158-189 | one level's two walks return the reference ends |
| Cluster.ClusteringData.ScanLo | examples/esp32/roughtime/clusteringAlgorithm.c:158-173 | the forward walk returns the low end of the reference scan for the level, and the edge it stopped on |
| Cluster.ClusteringData.ToLast | examples/esp32/roughtime/clusteringAlgorithm.c:175-179 | the walk from where the forward scan stopped ends on the last edge |
| Cluster.ClusteringData.ScanHi | examples/esp32/roughtime/clusteringAlgorithm.c:181-189 | the backward walk from the last edge returns the high end of the reference scan |
| Cluster.ClusteringData.Levels | examples/esp32/roughtime/clusteringAlgorithm.c:154-194 | the loop returns exactly `Search` |
| Cluster.ClusteringData.Store | examples/esp32/roughtime/clusteringAlgorithm.c:196-199 | stores the ends, their midpoint and half their distance |
| Cluster.ClusteringData.Refresh | examples/esp32/roughtime/clusteringAlgorithm.c:147-199 | with at least `n` responses, `wanted`, `lo` and `hi` become the result of the search from the response count, and the adjustment and uncertainty their midpoint and half their distance |
| Cluster.ClusteringData.FindOverlap | examples/esp32/roughtime/clusteringAlgorithm.c:131-201 | adds the range; with fewer than `n` responses nothing else changes; otherwise the search result is stored with adjustment and uncertainty |
| Cluster.FindOverlapResult | examples/esp32/roughtime/clusteringAlgorithm.c:131-201 | for any ranges the list is sorted and balanced; below `n` overlaps nothing is found; at the peak with non-zero ends the peak is reported |
| Cluster.FixedSearchAtPeak | examples/esp32/roughtime/clusteringAlgorithm.c:154-194 | with "not found" kept apart from the value 0, the search lands on min(responses, peak) with ordered ends |
| Cluster.FixedSearch | examples/esp32/roughtime/clusteringAlgorithm.c:154-194 | the corrected level loop, with "not found" kept apart from the value 0, stops at a level between `n` and where it started |
| Cluster.ZeroEndWidens | examples/esp32/roughtime/clusteringAlgorithm.c:191 | as written, (0,4),(0,2) give one overlap over [0, 4] although two overlap on [0, 2] |
| Vak.SearchedSound | src/c/vak_main.c:50-51 | after `overlap_find`, the poll's count and ends are the search's, and when no ranges touch they are the peak and its ends |
| Vak.Answer | src/c/vak_main.c:45-51 | no contract of its own: one answer counts a response, adds the range unless it is inverted, and searches from the level `_wanted` stands at; `Vak.AnswerKeeps` states what it keeps |
| Vak.Searched | src/c/vak_main.c:51 | no contract of its own: the state after `overlap_find`, whose ends replace `lo` and `hi` only when an overlap is found; `Vak.SearchedSound` states what it holds |
| Vak.Enough | src/c/vak_main.c:53-55 | no contract of its own: the test that ends the loop, a majority of overlaps, at least `WANTED_OVERLAPS` of them and a range at most `WANTED_UNCERTAINTY` wide |
| Vak.Run | src/c/vak_main.c:44-59 | no contract of its own: the loop from one answer on, giving the state it succeeds in; `Vak.RunSound` and `Vak.Step` state its meaning |
| Vak.Next | src/c/vak_main.c:45-58 | no contract of its own: one pass, skipping a server that did not answer; `Vak.RunSound` and `Vak.Step` state its meaning |
| Vak.AnswerKeeps | src/c/vak_main.c:45-51 | every answer keeps the poll sound and counts one more response |
| Vak.RunSound | src/c/vak_main.c:44-59 | a poll that stops stops sound and with enough overlaps |
| Vak.Handle | src/c/vak_main.c:48-51 | one answer drives the C algorithm to exactly the poll's next state |
| Vak.Step | src/c/vak_main.c:44-59 | one loop pass either stops with the run's result or continues with it |
| Vak.VakMain | src/c/vak_main.c:17-79 | succeeds exactly when the run reaches agreement, returning the agreed range |
| Vak.Success | src/c/vak_main.c:53-58 | on success the overlaps are a majority, at least 10, the range is at most 2 wide, and with non-touching ranges it is the peak's overlap |

## Left out

- **Ed25519 and SHA-512.** Signature verification and hashing are uninterpreted functions (`Crypto.Primitives`). Only output lengths are assumed: 64 bytes for SHA-512 and 32 for SHA-512/256. SHA-512/256 is its own primitive, not a truncation of SHA-512.
- **Network and clocks.** UDP/TCP I/O, time measurement (`vak_time_linux.c`, `vak_udp_*.c`, the round-trip time in `query`) and `printf`/`fprintf` output are not modelled.
- **Nonce generation.** The random blind, the SHA-512 chaining in `RoughtimeClient.query` and its history (`prev_replies`, `verify_replies`) are not modelled. The nonce is an input.
- **Memory allocation.** `malloc`/`calloc` failure paths are not modelled: `overlap_new`, `overlap_insert`, `createEdge` and `createClusterData` always succeed in the model.
- **Cleanup and debugging.** `overlap_del`, `free_tree`, `print_tree`, `vak_del_servers` and `hexdump` free or print only.
- **Number types.** Edge values are `int` where the sources use `double` or Python numbers. `WANTED_UNCERTAINTY` (2.0 seconds) is the integer 2. The cluster's adjustment and uncertainty are `real`.
- **Server list and single query.** The server list, its shuffle (`vak_get_randomized_servers`) and `vak_query_server` are the input sequence of answers. `vak_impl_single.c` is not part of this model.
- **Unused cluster helpers.** `is_overlap` and `get_adjustment` are not modelled; neither is called by the core. Nor are the return value of `find_overlap` and the fields `amount_edges` and `bad`: nothing reads them.
- **insertEdge.** Its missing `return` on success and the edge check at clusteringAlgorithm.c:142 (`!insertEdge(...) == -1`, which is never true) are not modelled. The model treats every insertion as successful.
- **Python reporting.** `midp_to_datetime`, `prettytime`, DTAI/LEAP decoding, `__repr__` and the setters for integer tag values are not modelled.
- **Python `query` as a whole.** Its protocol check, NONC echo comparison and two signature calls (pyroughtime.py:140-224, 256-262) are not composed into one function. Its Merkle check (`PyQuery.CheckTree`) and bound check (`PyQuery.BoundsInclusive`) are modelled against the C ones, and its packet handling goes through `PyPacket`.
- **Variant 7.** vrt.h notes the variant 7 context change. Only the context length and bytes are modelled; vrt.c has no other variant-7 behaviour.
- PyPacket.Packet.AddPadding: padding an empty packet yields 1020 bytes, not 1024, because `1016 - packetlen` assumes a header of at least 8 bytes. The contract states this outcome and goes no further.
- PyPacket.ParseEncoded: the round trip is stated for well-formed tag trees only: sorted, known tags, non-empty parents, aligned leaf values. The empty packet does not parse (`EmptyUnparsable`).
- MpOverlap.OverlapAlgorithm.Handle: the Python attributes `lo` and `hi` do not exist before the first successful `handle`. The model uses `Option` for them.
- OverlapC.OverlapAlgo.Find: requires at most INT_MAX ranges, so that the signed running count cannot overflow. `_wanted` is written on every pass of the loop, and the model writes it once at the end.
- Vak.VakMain: requires at most INT_MAX answers, so that `nr_responses` cannot overflow.
- Esp32.MakeQuery: requires a nonce and a buffer large enough. The source ignores `nonce_len` and `out_query_len` and reads and writes past short ones.
- PyTag.PadKey: only the key handling of `RoughtimeTag.__init__` is modelled. Its `assert` on the value length becomes the well-formedness of a `PyPacket.Tag`.
- Response.ParseResponse: the output midpoint and radius of a failing reply are whatever the failing check left. Only BOUNDS (zeroes) and the gates before `vrt_verify_bounds` (untouched) are stated.

## Findings

| source | as written | input that shows it | evidently intended | confidence | as-written member | corrected member |
|---|---|---|---|---|---|---|
| src/c/vrt.c:101 | `vrt_query_finish` zero-fills up to `buffer + max_size`. With variant ≥ 5, `vrt_make_query` passes `max_size = 12 + VRT_QUERY_PACKET_LEN` (line 117), counted from the start of the buffer, which already holds the 12-byte frame. | variant 5 with `out_query_len` = 1036: the length check passes and the fill ends at byte 1048 | fill up to the end of the 1036-byte framed query | not executed | Query.FinishOverrunsAsWritten | Query.MakeQuery |
| src/c/vrt.c:78-80 | `vrt_query_add_tag` asserts `current_tag <= num_tags`, and checks the value's end without the current offset. The defect is latent: `vrt_query_init` and `vrt_query_add_tag` are `static`, and their only caller, `vrt_make_query`, adds exactly the tags it declared with values that fit, so no call from this file reaches it | 2 tags with `current_tag` = 2 writes a key word at the start of the data; a 1000-byte value at offset 64 passes the size check | `current_tag < num_tags` and `data_ptr + offset + size <= buffer + max_size` | not executed | Query.AddTagGuardAdmitsAsWritten | Query.Builder.AddTag |
| src/c/overlap_algo.c:82 | `overlap_add` accepts `lo == hi`. The insertion at lines 55-58 places that range's end edge before its start edge, so the running count dips to -1, which the `unsigned` comparison with `_wanted` reads as huge. | ranges (1,1),(3,4), then `overlap_find`: count 2 at [1, 1] | one overlap over [1, 4], as the Python `find` gives. The docstring of the Python `add` (src/python/overlap.py:82-83) says it raises when `lo >= hi`, which would refuse (1,1) outright, so refusing point ranges is the other plausible intent; the Python code raises only when `lo > hi`, and the model follows the code | not executed | OverlapC.PointRangeMiscounts | PyOverlap.FindIsPeak |
| src/c/overlap_algo.c:55-58 | the insertion puts a new edge before equal values whatever its kind, so a range that starts where another ends may or may not count as overlapping, depending on arrival order | (2,3),(1,2) gives (1, 1, 3); (1,2),(2,3) gives (2, 2, 2) | an order-independent result (Python sorts start before end: (2, 2, 2)) | not executed | OverlapC.TouchingOrderMatters | PyOverlap.AddAllOrderFree |
| examples/esp32/roughtime/clusteringAlgorithm.c:191 | a level is accepted only when `lo != 0 && hi != 0`. 0 doubles as "not found", so an overlap ending at 0 is skipped. | n = 1, ranges (0,4),(0,2): result (1, 0, 4) | two overlaps on [0, 2] | not executed | Cluster.ZeroEndWidens | Cluster.FixedSearchAtPeak |
