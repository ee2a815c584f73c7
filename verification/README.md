# A model of the bscl packet stack and containers

This project models, in Dafny, the parts of the bscl C library whose behaviour is hardest to see from one
function at a time, and proves what they do. Run it with `dafny verify dfyconfig.toml`.

**Packet framing.** A packet is a header of 8 bytes (magic `0x7e`, message id, 16-bit payload length, 32-bit
sequence number, little-endian), a payload and a 4-byte checksum.

- `RingBuffer.dfy`: the byte ring of `include/bscl_buffer.h`, a class over an array with free-running 32-bit
  read and write positions. Every method is stated against the queue of bytes it holds.
- `Crc.dfy`: the reflected CRC-32 with its run-time table, how calls chain, and burst detection. `CrcDivision.dfy`:
  the same checksum as the remainder of a division of polynomials. `Crc16.dfy`: the 16-bit CRC, its 256 constants
  against single shifts.
- `Framing.dfy`: the packet machine on values, one function per entry point. `Packet.dfy` (module
  `PacketObject`): the packet object as a class; each method is proved to compute the function of the same name.
- `Delivery.dfy`, `Streams.dfy`: what the machine delivers over a whole run, for any chunks. `Receivers.dfy`: the
  byte-at-a-time receiver and resynchronisation against the chunk receiver. `ByteRuns.dfy`: whole runs of the
  byte-at-a-time receiver. `Waiting.dfy`: the machine between the call that asks for a parse and the parse.
  `Sealing.dfy`: the trailer, what the parser accepts and what it makes of the writer's packets. `Driver.dfy`: the loop a caller puts around a packet
  object, with the run theorem carried over to the object.
- `Recovery.dfy`: runs over damaged streams, with the loop that resynchronises whenever parsing fails or leaves bytes
  behind, against a reading of the stream that does not mention chunks. `RecoveringDriver.dfy`: that loop around a
  packet object.

**Containers and algorithms.**

- `BsTree.dfy`: the binary search tree with parent pointers and equal keys, on the heap. A tree is described by
  its in-order sequence and, for each node, the stretch of it that the node heads.
- `QuickSort.dfy`: the in-place quicksort with a wandering pivot. `Comparison.dfy`: what tree and sort ask of the
  comparison function.
- `Md5Block.dfy`, `Md5.dfy`: the unrolled block transformation against RFC 1321, section 3.4, and the streaming
  digest against sections 3.1 to 3.5. `Md5Example.dfy`: one published digest, worked out.
- `Tea.dfy`: the TEA cipher and its backward chaining in place. `TeaNumbers.dfy`: what both compute, on numbers.
- `List.dfy`: the doubly linked list and the queue made of it. `Sequences.dfy`, `Words.dfy`, `Digits.dfy` (words as
  numbers): shared vocabulary.

## How to read it

- A method that changes state is stated against a function of the state before; the lemmas are about those
  functions. Ghost parameters such as `t: Shape` (a tree's sequence and layout) or `tr` (a name for the block
  transformation) carry the abstract value and cost nothing at run time. `Md5.Hash`, `Tea.EncryptDecrypt` and
  `Tea.DecryptEncrypt` put the code's own functions in their place.
- Where one C function is long, its stages are methods of their own: `PacketObject.Packet.TakeHead`, `TakeData`
  and `TakeTrailer` are the stages of `bscl_packet_receive`; `QuickSort.SweepUp` and `SweepDown` are the two inner
  loops of `bscl_qsort`; `BsTree.RemoveWithOne` and `RemoveWithTwo` are the cases of the tree's item removal.
- What the shared formulas compute is said once more without them: checksums by polynomial division
  (`CrcDivision.ChecksumIsRemainder`), the cipher and its chaining by sums and quotients of numbers
  (`TeaNumbers.EncipheredNumbers`, `TeaNumbers.ChainedNumbers`), the digest by a published value
  (`Md5Example.SentenceDigest`), the packet machine by lemmas with every code and constant written out
  (`Framing.ParseAnswers` and its neighbours).
- Machine arithmetic is explicit: positions and counts wrap at 2^32 (`RingBuffer.Add32`, `Md5.AddLow`), the count of
  bytes left wraps at 2^16 (`Framing.HeadStage`), checksums and ciphers are bit vectors. Masking with `size - 1` is
  modelled as the remainder, which `RingBuffer.MaskIsOffset` justifies.
- The CRC table is a constant of the packet object, made from a polynomial; a table that was never filled is the one
  made from polynomial 0 (`Crc.EmptyTable`).
- `Framing.Machine.WellFormed` is what every entry point keeps, in whatever order they are called. The delivery
  theorems start from rest: the search state and an empty ring.

## Where the code departs from what one would expect

Each of these is kept as the code has it, with a lemma giving the exact condition.

- The writer checksums header and payload in two calls, the parser the whole in 256-byte chunks, and every call
  complements its result. `Sealing.RoundTripIff`: a written packet is accepted if and only if the drift between the
  two chains is zero; `Sealing.ShortPacketsRejected`: with a polynomial whose top bit is set, never for payloads of at
  most 248 bytes. The delivery theorems speak of frames whose trailer is the parser's checksum.
- `bscl_packet_receive_byte` reads one byte of the length field and signals when the ring is full.
  `Receivers.SameSignalIff`: for every frame and every ring it signals on the same bytes as `bscl_packet_receive` if and
  only if the payload is shorter than 256 bytes and the frame fits the ring; `Receivers.ReceiversPart` has a frame for
  each way to fail.
- The resynchronisation search never sees the ring run empty. `Receivers.SearchEndsIff`: it ends if and only if some
  buffered magic byte is a stopping place or the stale byte under the read position is a magic byte;
  `Receivers.SearchHangs` has two rings on which it does not. So a caller who resynchronises after a bad checksum, as
  the code allows, comes back from it only if a stopping place is buffered behind the byte that parsing
  dropped, or by the stale byte (`Receivers.StuckAfterBadCrc`, `Receivers.DamagedAlone`).
- Resynchronising does not wrap the count of bytes left where receiving does. `Receivers.ResyncIsReceive`: short of a
  whole frame the two leave the same state if and only if the header is incomplete, or the frame is shorter than
  65536 bytes, or the payload is unfinished and ends before there; `Receivers.ResyncParts` has a start for each side.
- The outer loop of the sort needs more than its own arithmetic to end. `QuickSort.LoopEndsIff`: it ends for all
  elements and pivots if and only if of any two elements one may come first; `QuickSort.ComesBack` has the loop that
  does not end otherwise.
- A packet that is ready stays so until it is parsed, and the receivers differ meanwhile. `Waiting.AsksOnce`: the byte
  receiver keeps what fits and does not signal again; `Waiting.ChunkLost`: a chunk offered then is taken and lost;
  `Framing.SignalsAgainAfter`: after its own signal the chunk receiver counts as many bytes again and signals again.
- `left` has 16 bits. `Streams.FrameReceivedIff`: a frame offered whole is received if and only if it fits the ring and
  is shorter than 65536 bytes; `Streams.CountOverflows` says what happens otherwise.
- The digest's loop test adds 63 to a 32-bit index. `Md5.ReadsPastIff`: the loop reads past its input if and only if
  the piece is too long for that sum (`Md5.IndexFits`; pieces of up to 2^32 - 64 bytes never are).
  `Md5.LongPieceReadsPast` has a piece that is.
- `buffer_copy` adds begin and length in 32 bits. `RingBuffer.CopyStaysInsideIff`: from a place in the queue on, it stays
  within the queue if and only if that sum does not wrap.
- `buffer_copy_char` accepts an index equal to the count and returns the stale byte there
  (`RingBuffer.Buffer.CopyChar`).

## Model

| member | source | states |
|---|---|---|
| `RingBuffer.MaskIsOffset` | include/bscl_buffer.h:16 | masking a position with size - 1, bit by bit, leaves its remainder, for every power of two |
| `RingBuffer.OffsetLap` | include/bscl_buffer.h:16 | adding any larger power of two to a position, 2^32 in particular, leaves its slot where it was |
| `RingBuffer.OffsetOfSum` | include/bscl_buffer.h:61-69 | stepping a 32-bit position moves its slot round the ring whether or not the position wraps |
| `RingBuffer.Buffer.constructor` | include/bscl_buffer.h:23-29 | a new ring holds nothing |
| `RingBuffer.Buffer.Clean` | include/bscl_buffer.h:31-34 | the queue becomes empty |
| `RingBuffer.Buffer.GetCount` | include/bscl_buffer.h:36-39 | the wrapped difference of the positions is the queue's length |
| `RingBuffer.Buffer.GetSpace` | include/bscl_buffer.h:41-44 | count and space add up to the size |
| `RingBuffer.Buffer.IsEmpty` | include/bscl_buffer.h:51-54 | true exactly for the empty queue |
| `RingBuffer.Buffer.IsFull` | include/bscl_buffer.h:56-59 | true exactly when the queue has the ring's size |
| `RingBuffer.Buffer.Store` | include/bscl_buffer.h:77-84 | the one- or two-part copy puts data round the ring and leaves every other slot alone |
| `RingBuffer.Buffer.Load` | include/bscl_buffer.h:125-134 | the one- or two-part copy takes bytes round the ring and leaves the rest of the target alone |
| `RingBuffer.Buffer.Write` | include/bscl_buffer.h:72-88 | appends the longest prefix of the data that fits and returns its length |
| `RingBuffer.Buffer.Putc` | include/bscl_buffer.h:90-101 | appends the byte exactly if there is room; what lies behind it is what lay there before |
| `RingBuffer.Buffer.CopyChar` | include/bscl_buffer.h:103-111 | the byte at that place of the queue; past the count -1, at the count the stale byte |
| `RingBuffer.Buffer.CopyFirst` | include/bscl_buffer.h:149-158 | the oldest byte, or the stale byte if the queue is empty |
| `RingBuffer.Buffer.Copy` | include/bscl_buffer.h:114-136 | the stretch of the queue from begin, cut at its end; the queue is unchanged |
| `RingBuffer.CopyStaysInsideIff` | include/bscl_buffer.h:116-123 | the length copied stays within the queue exactly if begin and length add up without wrapping |
| `RingBuffer.CopyGoesPast` | include/bscl_buffer.h:116-123 | one call that copies past the queue |
| `RingBuffer.Buffer.Read` | include/bscl_buffer.h:139-146 | the bytes returned and the queue left make up the old queue |
| `RingBuffer.Buffer.Drop` | include/bscl_buffer.h:161-169 | the queue loses exactly its oldest bytes |
| `Crc.MakeTable` | src/bscl_crc.c:52-64 | entry i is i shifted eight times through the register, for every polynomial |
| `Crc.EmptyTable` | src/bscl_crc.c:50 | the zeroed table is the one polynomial 0 makes |
| `Crc.LookupIsByteStep` | src/bscl_crc.c:74 | one table step equals eight reflected bit steps, for every polynomial, register and byte |
| `Crc.ComputeCrc32` | src/bscl_crc.c:70-76 | the table loop computes the bit-at-a-time checksum of every byte string from every initial value |
| `Crc.BitStepsLinear` | src/bscl_crc.c:55-61 | shifting is linear over exclusive or |
| `Crc.ByteShift` | src/bscl_crc.c:74 | eight shifts of a register whose low byte is clear drop that byte, whatever the polynomial |
| `Crc.ChunkContinues` | src/bscl_packet.c:41-47 | a call over the next chunk continues the chain complemented at every chunk |
| `Crc.ChunkedFromStart` | src/bscl_packet.c:34-50 | the loop over 256-byte chunks is one checksum over the whole, complemented at every cut |
| `Crc.ChunksAreCalls` | src/bscl_packet.c:34-50 | the loop makes one call for every 256 bytes, each from the result of the one before |
| `Framing.BodyChecksumCalls` | src/bscl_packet.c:34-50 | so it is for the checksum the parser compares; two calls for 257 to 512 bytes |
| `Crc.HeaderThenPayload` | src/bscl_packet.c:328-330 | the writer's two calls are one checksum complemented after the header and at the end |
| `Crc.BitStepsNonzero` | src/bscl_crc.c:55-61 | with the polynomial's top bit set, no shift makes a nonzero register zero |
| `Crc.SuffixKeepsApart` | src/bscl_crc.c:70-76 | registers that differ keep differing over any common suffix |
| `Crc.WindowDifference` | src/bscl_crc.c:70-76 | after a window of at most four bytes, the difference of two registers is the packed difference of the windows shifted through |
| `Crc.BurstDetected` | src/bscl_crc.c:70-76 | with the top bit set, equal-length messages that differ only within four consecutive bytes have different checksums, from every initial value and for every chaining |
| `Crc.ChainsDrift` | src/bscl_packet.c:34-50 | the parser's and the writer's chains differ by the drift, whatever the bytes |
| `Crc.ChainsAgreeIff` | src/bscl_packet.c:328-330 | the two chains give the same checksum exactly when the drift of that length is zero |
| `Crc.DriftNonzero` | src/bscl_packet.c:34-50 | with the top bit set the drift is not zero for header and payload together within one chunk |
| `CrcDivision.StepDivides` | src/bscl_crc.c:55-61 | one shift: the register times x is what falls off times the divisor, and the shifted register |
| `CrcDivision.NextByte` | src/bscl_crc.c:74 | a byte more in the message is eight coefficients more in dividend and quotient |
| `CrcDivision.ChecksumIsRemainder` | src/bscl_crc.c:52-76 | for every polynomial, message and initial value there is a quotient of which the checksum's complement is the remainder |
| `Crc16.EntryIsSteps` | src/bscl_crc.c:6-24 | each of the 256 constants is what eight shifts make of its index |
| `Crc16.TableStepIsByteStep` | src/bscl_crc.c:28 | a table step equals a byte through eight single shifts |
| `Crc16.StepsCarryLow` | src/bscl_crc.c:37-44 | bits that do not reach the top are only moved up |
| `Crc16.StepTellsByte` | src/bscl_crc.c:28 | from a known register, the low byte afterwards tells the message byte |
| `Crc16.TwoBytesKeepApart` | src/bscl_crc.c:32-48 | two message bytes lead from one register to different registers unless they are the same two |
| `Crc16.BurstDetected` | src/bscl_crc.c:5-48 | equal-length messages that differ only within two consecutive bytes have different checksums, in both forms |
| `Crc16.ThreeBytesCollide` | src/bscl_crc.c:32-48 | three bytes are too many: two messages with the same checksum |
| `Crc16.Ccitt` | src/bscl_crc.c:5-30 | the table form gives the complement of the bitwise CRC from zero, for every byte string |
| `Crc16.CcittCacu` | src/bscl_crc.c:32-48 | the nested loops compute the bitwise CRC from any start |
| `Crc16.CheckValue` | src/bscl_crc.c:32-48 | the published check value of the digits one to nine |
| `PacketObject.Packet.constructor` | src/bscl_packet.c:52-58 | a new packet object is at rest with an empty ring |
| `PacketObject.Packet.Receive` | src/bscl_packet.c:61-135 | new state, bytes taken and signal are those of `Framing.Receive`; the state stays well-formed |
| `PacketObject.Packet.TakeFromMagic` | src/bscl_packet.c:67-106 | the search state: skips to a magic byte and goes on from there |
| `PacketObject.Packet.Search` | src/bscl_packet.c:67-84 | finds the first magic byte and cuts the chunk at the ring's free space |
| `PacketObject.Packet.TakeHead` | src/bscl_packet.c:86-106 | the header stage and those it falls through to |
| `PacketObject.Packet.ReadLength` | src/bscl_packet.c:93-102 | all three ways of picking up the length field read the frame's field, wherever it is split |
| `PacketObject.Packet.TakeData` | src/bscl_packet.c:108-117 | the payload stage and the one it falls through to |
| `PacketObject.Packet.TakeTrailer` | src/bscl_packet.c:119-134 | the trailer stage |
| `PacketObject.Packet.ReceiveByte` | src/bscl_packet.c:137-197 | new state and signal are those of `Framing.ReceiveByte`, the full ring and the unparsed packet included |
| `PacketObject.Packet.CountByte` | src/bscl_packet.c:147-190 | the state switch for a byte just stored |
| `PacketObject.Packet.CountHeader` | src/bscl_packet.c:156-172 | the header's case, with the length byte looked up in the ring, missing or stale as it may be |
| `PacketObject.Packet.GiveUp` | src/bscl_packet.c:192-196 | asks for a parse once |
| `PacketObject.Packet.Resync` | src/bscl_packet.c:199-253 | drops exactly the bytes before the first stopping place and leaves the state that the bytes from there on determine |
| `PacketObject.Packet.TryHere` | src/bscl_packet.c:218-248 | at a magic byte, stops with the right state or drops it if its frame could never fit |
| `PacketObject.Packet.SkipToMagic` | src/bscl_packet.c:210-217 | drops the bytes before the next magic byte, none of which is a stopping place |
| `PacketObject.Packet.CrcBuffer` | src/bscl_packet.c:34-50 | the checksum of header and payload complemented every 256 bytes |
| `PacketObject.Packet.Parse` | src/bscl_packet.c:255-314 | code and new ring are those of `Framing.Parse`; a delivered frame's fields and as much payload as fits are handed out; nothing else in the caller's buffer changes, and nothing at all when no frame is delivered |
| `PacketObject.Packet.Check` | src/bscl_packet.c:261-284 | the tests in their order, and acceptance exactly if the trailer is the chunked checksum |
| `PacketObject.Packet.Refuse` | src/bscl_packet.c:267-284 | an oversize length or a wrong trailer costs one byte, missing bytes cost nothing |
| `PacketObject.Packet.Deliver` | src/bscl_packet.c:286-313 | exactly header, payload and trailer leave the ring; the code tells whether bytes are left behind |
| `PacketObject.Packet.Write` | src/bscl_packet.c:316-345 | either the whole frame is appended or, without room for it, nothing changes |
| `PacketObject.Packet.SealOf` | src/bscl_packet.c:328-330 | the trailer chains the header's checksum into the payload's |
| `Framing.ReceiveStaysWellFormed` | src/bscl_packet.c:61-135 | receiving a chunk keeps the state well-formed |
| `Framing.ReceiveByteStaysWellFormed` | src/bscl_packet.c:137-197 | receiving a byte keeps the state well-formed |
| `Framing.ResyncedStaysWellFormed` | src/bscl_packet.c:199-253 | resynchronising leaves a well-formed state |
| `Framing.ParseStaysWellFormed` | src/bscl_packet.c:255-314 | parsing keeps the state well-formed |
| `Framing.StagesKeep` | src/bscl_packet.c:86-130 | inside a frame the ring keeps, as far as it has room, exactly the bytes taken |
| `Framing.SearchKeeps` | src/bscl_packet.c:67-84 | whatever is in the ring already, the search loses only what comes before the first magic byte, and leaves bytes untaken only when a packet is ready or the ring is full |
| `Framing.SignalsAgainAfter` | src/bscl_packet.c:119-134 | unless the packet is parsed, the chunk receiver counts as many bytes again and then signals again |
| `Framing.LengthField` | src/bscl_packet.c:88-102 | where each byte of the length field comes from, for every split; zero where the ring lacks it |
| `Framing.HeaderUnfinished` | src/bscl_packet.c:86-90 | a chunk that does not finish the header is kept and counted |
| `Framing.HeaderDue` | src/bscl_packet.c:91-106 | the header's last bytes lead on to the payload, with the 16-bit count the length field gives |
| `Framing.PayloadDue` | src/bscl_packet.c:108-130 | how many bytes of a chunk end the packet, with the 16-bit count |
| `Framing.SearchByte` | src/bscl_packet.c:147-154 | a magic byte starts a header, any other pushes the oldest byte out |
| `Framing.LengthByte` | src/bscl_packet.c:155-172 | the last header byte: the length is the third byte in the ring, the stale byte with two there, and with one the parse is asked for |
| `Framing.CountWraps` | src/bscl_packet.c:173-186 | a count of zero wraps to 65535 |
| `Framing.FullRing` | src/bscl_packet.c:141-145 | a byte with which the ring is full, or that finds it full, asks once for a parse |
| `Framing.ParseAnswers` | src/bscl_packet.c:255-314 | each of the six answers, with its code, exactly when the bytes in the ring call for it, and what it leaves there |
| `Framing.MessageBytes` | src/bscl_packet.c:303-307 | the delivered fields byte by byte |
| `Framing.WrittenExample` | src/bscl_packet.c:316-317 | one header and payload as written |
| `Waiting.AsksOnce` | src/bscl_packet.c:137-197 | a frame that fits and any bytes behind it, fed singly: the parse is asked for on the frame's last byte and on no other, and all that fits is kept |
| `Waiting.ChunkLost` | src/bscl_packet.c:132-134 | a chunk offered before the parse is taken and lost |
| `Waiting.ParsedAfterWait` | src/bscl_packet.c:255-314 | the parse then hands out that frame if it passes the check, and leaves what was kept behind it |
| `Waiting.ResyncedWaits` | src/bscl_packet.c:245-248 | resynchronising on the same bytes leaves the machine waiting with the same ring |
| `Waiting.TrailerMissing` | src/bscl_packet.c:272-275 | a ring filled before the trailer: the parse asked for answers -4 and changes nothing |
| `Delivery.SplitLength` | src/bscl_packet.c:93-102 | however the length field is split between ring and chunk, it is the frame's |
| `Delivery.SyncStep` | src/bscl_packet.c:67-84 | starting from the search, a chunk completes the first frame or is taken whole |
| `Delivery.StagesStep` | src/bscl_packet.c:86-130 | continuing a frame, a chunk completes it or is taken whole |
| `Delivery.ReceiveStep` | src/bscl_packet.c:61-135 | a call signals a packet exactly when its chunk holds the last byte of the first frame; it then buffers exactly that frame and has taken the chunk up to its end |
| `Delivery.ParseFrame` | src/bscl_packet.c:255-314 | a frame alone in the ring that passes the check is delivered and leaves the machine at rest |
| `Delivery.FramesCut` | src/bscl_packet.c:61-135 | reading a stream up to a cut and on from its unfinished frame finds the frames of the whole stream |
| `Delivery.PumpDelivers` | src/bscl_packet.c:61-135 | offering a chunk until it is taken delivers its frames |
| `Delivery.RunDelivers` | src/bscl_packet.c:61-135 | for any chunks, the loop delivers exactly the stream's frames in order and buffers exactly its unfinished frame |
| `Streams.SegmentsDelivered` | src/bscl_packet.c:61-135 | magic-free garbage and good frames, cut in any way: exactly the frames come out, and the machine ends at rest with an empty ring |
| `Streams.FrameReceivedIff` | src/bscl_packet.c:104-128 | a frame offered whole is received exactly if it fits the ring and 16 bits count it |
| `Streams.TooLargeForRing` | src/bscl_packet.c:67-84 | one frame that its ring cannot hold |
| `Streams.CountOverflows` | src/bscl_packet.c:104-128 | from 65536 bytes on, a packet is signalled after its length less 65536 bytes |
| `Receivers.SameStates` | src/bscl_packet.c:137-197 | for payloads under 256 bytes both receivers pass through the same states, byte for byte, up to the end of the frame or the ring |
| `Receivers.ChunkSignalsAt` | src/bscl_packet.c:86-130 | fed single bytes, the chunk receiver first signals on the frame's last byte whether or not the ring holds it, and for the largest length on byte eleven |
| `Receivers.ByteSignalsAt` | src/bscl_packet.c:137-197 | the byte receiver first signals where the low length byte ends the frame, or where the ring is full |
| `Receivers.SameSignalIff` | src/bscl_packet.c:137-197 | for every frame, ring and stale byte, the receivers signal on the same bytes exactly if the payload is under 256 bytes and the frame fits the ring |
| `Receivers.ReceiversPart` | src/bscl_packet.c:144-171 | a long payload and a frame larger than the ring, each with the byte where the receivers part |
| `Receivers.ResyncIsReceive` | src/bscl_packet.c:218-243 | at every start it stops at short of a whole frame, resynchronising leaves the state that receiving the same bytes from rest leaves exactly if receiving does not wrap its count there |
| `Receivers.WideStart` | src/bscl_packet.c:104-118 | the same for the frames of 65536 bytes and more |
| `Receivers.ResyncParts` | src/bscl_packet.c:228-243 | two buffered headers: after one the routines part, after the other, whose frame has 65536 bytes, they agree |
| `Receivers.PartOfHeader` | src/bscl_packet.c:220-223 | the same short of a header, whatever length the bytes there declare |
| `Receivers.DeliversAfterResync` | src/bscl_packet.c:199-253 | resynchronised on an unfinished frame, the loop goes on to deliver exactly the frames of what is buffered and what follows, in any chunks |
| `Receivers.SearchEndsIff` | src/bscl_packet.c:210-217 | the search ends exactly if a stopping place is buffered or the stale byte is a magic byte |
| `Receivers.StuckAfterBadCrc` | src/bscl_packet.c:280-284 | after a bad checksum, with no stopping place left in the ring, resynchronising ends exactly if the stale byte is a magic byte |
| `Receivers.DamagedAlone` | src/bscl_packet.c:280-284 | so it is for every damaged frame alone in the ring without a further magic byte |
| `Receivers.SearchHangs` | src/bscl_packet.c:210-217 | an empty ring and one garbage byte, over cleared memory, on which the search does not end |
| `Receivers.ResyncedEmpty` | src/bscl_packet.c:218-223 | where only the stale byte ends the search, the machine waits for a whole header behind an empty ring |
| `Recovery.RecoverAt` | src/bscl_packet.c:255-314 | parsing and resynchronising by turns, from a whole frame on, hands out what the reading finds in the ring and leaves the machine tracking its unfinished frame |
| `Recovery.SeekAt` | src/bscl_packet.c:199-253 | the same from a resynchronisation on |
| `Recovery.SalvageCut` | src/bscl_packet.c:199-253 | reading a damaged stream up to a cut and on from its unfinished frame salvages the frames of the whole stream |
| `Recovery.RunSalvages` | src/bscl_packet.c:61-314 | for any chunks, whether or not frames pass the check, the loop of receiving, parsing and resynchronising salvages exactly what the reading of the whole stream does, wherever its searches stop, and all of them end |
| `Recovery.SalvagedPass` | src/bscl_packet.c:277-284 | nothing is salvaged but frames that pass the check |
| `Recovery.SoundSalvaged` | src/bscl_packet.c:255-314 | from a stream whose frames all pass, exactly these are salvaged |
| `Recovery.DamagedLength` | src/bscl_packet.c:199-253 | a damaged length that makes a frame claim the good frames behind it costs that frame alone, in any chunks |
| `RecoveringDriver.Recover` | src/bscl_packet.c:199-314 | parsing and resynchronising by turns on the object ends and hands out the messages of the machine's frames |
| `RecoveringDriver.Run` | src/bscl_packet.c:61-314 | an object at rest, fed a damaged stream in any chunks, ends every search and hands out the messages of exactly the frames salvaged |
| `ByteRuns.FrameTurn` | src/bscl_packet.c:137-197 | each byte of a good frame is counted, and the last one delivers it and leaves the machine at rest |
| `ByteRuns.BytesDelivered` | src/bscl_packet.c:137-197 | magic-free garbage and good frames with payloads under 256 bytes, fed byte by byte with a parse when asked for: exactly the frames come out, in order |
| `Sealing.WrittenIsFrame` | src/bscl_packet.c:316-345 | what the writer lays out is a frame that carries the id, sequence number and payload written |
| `Sealing.LengthTruncated` | src/bscl_packet.c:316-317 | a payload too long for the length field is cut there, and nowhere else |
| `Sealing.SealedFrameIff` | src/bscl_packet.c:277-284 | for every message exactly one frame carries it and passes the parser's check |
| `Sealing.FrameHasBody` | src/bscl_packet.c:316-318 | before the trailer of any frame stands the layout of its own message |
| `Sealing.MessagesDelivered` | src/bscl_packet.c:61-314 | the frames of any messages that fit, cut in any way, bring exactly these messages in order |
| `Sealing.RoundTripIff` | src/bscl_packet.c:316-345 | write, receive, parse gives the packet back exactly if the drift is zero, and else a bad checksum and one byte dropped |
| `Sealing.ShortPacketsRejected` | src/bscl_packet.c:328-330 | with the top bit set, no written packet of at most 248 payload bytes passes the parser's check |
| `Sealing.EmptyPacketRejected` | src/bscl_packet.c:316-345 | one polynomial and one written packet that does not pass |
| `Sealing.BurstRejected` | src/bscl_packet.c:277-284 | damage within four consecutive bytes before the trailer turns an acceptable frame into one that fails the check |
| `Sealing.BurstGivesBadCrc` | src/bscl_packet.c:280-284 | the parser answers such a frame with a bad checksum and drops one byte |
| `Driver.Turn` | src/bscl_packet.c:61-135 | one receive and, if a packet is ready, one parse on the object are one turn of the machine; the messages handed out are those of its frames |
| `Driver.Run` | src/bscl_packet.c:255-314 | an object at rest, fed a stream in any chunks, hands out the messages of exactly the stream's frames, in order |
| `BsTree.New` | src/bscl_bstree.c:3-13 | one node is a tree |
| `BsTree.Minimum` | src/bscl_bstree.c:72-80 | the first node of the subtree's stretch, which has no left child |
| `BsTree.Maximum` | src/bscl_bstree.c:82-90 | the last node of the subtree's stretch, which has no right child |
| `BsTree.Successor` | src/bscl_bstree.c:103-112 | the next node of the in-order sequence, null exactly at its end |
| `BsTree.Predecessor` | src/bscl_bstree.c:92-101 | the previous node of the in-order sequence, null exactly at its beginning |
| `BsTree.Walk` | src/bscl_bstree.c:103-112 | following successors from the minimum visits every node once, in order |
| `BsTree.SequenceIsTraversal` | src/bscl_bstree.c:177-184 | the sequence that stands for a tree is what recursion over its child pointers yields |
| `BsTree.Find` | src/bscl_bstree.c:56-70 | returns a node with an equal key exactly if there is one: the one met first on the way down |
| `BsTree.HangLeft` | src/bscl_bstree.c:32-36 | the node hung on the left takes the place directly before its parent; all links agree |
| `BsTree.HangAfter` | src/bscl_bstree.c:41-45 | the node hung on the right takes the place directly after its parent; all links agree |
| `BsTree.HangBefore` | src/bscl_bstree.c:46-53 | the node spliced in above the left subtree takes the place directly before the equal node; all links agree |
| `BsTree.Insert` | src/bscl_bstree.c:15-55 | exactly one node is added, the sequence stays nondecreasing, and among equal keys it comes directly before the one met first on the way down; which links change is stated for every node |
| `BsTree.AncestorOutside` | src/bscl_bstree.c:26-54 | a proper ancestor's place lies outside the stretch of every node below it |
| `BsTree.AddBeforeKeepsLinks` | src/bscl_bstree.c:46-53 | a node put directly before another leaves every link and stretch of the tree in agreement |
| `BsTree.AddAfterKeepsLinks` | src/bscl_bstree.c:41-45 | a node put directly after another without right child leaves every link and stretch in agreement |
| `BsTree.DropKeepsLinks` | src/bscl_bstree.c:116-119 | taking out a node with at most one child, the child moving up, leaves every link and stretch in agreement |
| `BsTree.ReplaceKeepsLinks` | src/bscl_bstree.c:128-147 | a node taking over all of another's links leaves every link and stretch in agreement |
| `BsTree.TakenFar` | src/bscl_bstree.c:121-147 | with a successor deeper in the right subtree, the pointer writes amount to taking it out there and putting it in the item's place |
| `BsTree.TakenNear` | src/bscl_bstree.c:121-147 | the same when the successor is the right child itself |
| `BsTree.DroppedLinks` | src/bscl_bstree.c:137-147 | with a child missing, the pointer writes amount to the other child moving up |
| `BsTree.RemoveItem` | src/bscl_bstree.c:114-150 | the item leaves the sequence and nothing else moves; all links agree and the new root is returned; its only child or its successor stands in its place |
| `BsTree.OthersHas` | src/bscl_bstree.c:152-158 | the filtered sequence has exactly the nodes whose keys differ |
| `BsTree.Remove` | src/bscl_bstree.c:152-158 | ends, and leaves the tree of the old sequence without every node equal to the key; the new root has no parent |
| `QuickSort.SweepUp` | src/bscl_sort.c:27-39 | brings the pivot down to the first element greater than it; what is below goes before it |
| `QuickSort.SweepDown` | src/bscl_sort.c:41-53 | brings the pivot up to the last element less than it; what is above goes after it |
| `QuickSort.Turn` | src/bscl_sort.c:25-54 | both sweeps leave less between the ends, or the pivot at the upper end where it was not before |
| `QuickSort.TurnProgress` | src/bscl_sort.c:25-54 | for that it is enough that of the two elements at the lower end and the pivot one may come first |
| `QuickSort.LoopEndsIff` | src/bscl_sort.c:25-54 | the outer loop ends for all elements, ends and pivots exactly if of any two elements one may come first |
| `QuickSort.ComesBack` | src/bscl_sort.c:25-54 | two elements that each compare greater than the other, and a pivot, for which it never ends |
| `QuickSort.Partition` | src/bscl_sort.c:25-54 | ends, for any pivot, with the pivot's value at a place that divides lesser from greater elements |
| `QuickSort.Join` | src/bscl_sort.c:55-60 | sorted sides around the pivot make a sorted whole |
| `QuickSort.Sort` | src/bscl_sort.c:7-64 | ends with the stretch sorted, a rearrangement of what it was, and nothing else changed, whichever pivots are drawn |
| `Md5Block.AllSteps` | src/bscl_md5.c:146-216 | four steps at a time, the sixty-four operations are the schedule of RFC 1321, section 3.4 |
| `Md5Block.Quad` | src/bscl_md5.c:147-150 | four operations with the registers renamed in place are four steps of the schedule |
| `Md5Block.Round1` | src/bscl_md5.c:146-162 | words, shifts and constants of round 1 are those of the schedule |
| `Md5Block.Round2` | src/bscl_md5.c:164-180 | words, shifts and constants of round 2 are those of the schedule |
| `Md5Block.Round3` | src/bscl_md5.c:182-198 | words, shifts and constants of round 3 are those of the schedule |
| `Md5Block.Round4` | src/bscl_md5.c:200-216 | words, shifts and constants of round 4 are those of the schedule |
| `Md5Block.Decode` | src/bscl_md5.c:240-247 | the block's words, low byte first |
| `Md5Block.Transform` | src/bscl_md5.c:141-225 | the unrolled code is the block transformation of the standard |
| `Md5.CountAdds` | src/bscl_md5.c:90-93 | carry and shifts leave the two words holding the number of bits modulo 2^64 |
| `Md5.CountTellsIndex` | src/bscl_md5.c:88 | the low count word gives the fill of the buffer even after it has wrapped |
| `Md5.Context.constructor` | src/bscl_md5.c:73-80 | a new context has accumulated nothing |
| `Md5.Context.Accumulate` | src/bscl_md5.c:84-111 | after any piece that fits the loop's index the context stands for everything accumulated so far |
| `Md5.Context.AbsorbBlocks` | src/bscl_md5.c:102-103 | the loop folds every whole block of the input into the state and stops short of one |
| `Md5.ReadsPastIff` | src/bscl_md5.c:102-103 | the loop with its 32-bit index takes a block that ends behind the input exactly if the piece is too long |
| `Md5.LongPieceReadsPast` | src/bscl_md5.c:102-103 | one byte and then a piece of 2^32 - 1 bytes: it does |
| `Md5.Context.Pad` | src/bscl_md5.c:118-127 | padding and length, accumulated like data, make up the padded message |
| `Md5.Context.Finish` | src/bscl_md5.c:114-138 | the digest is that of everything accumulated, and the context is wiped |
| `Md5.PaddingFits` | src/bscl_md5.c:122-127 | the padding length in the code yields the shortest padding the standard allows |
| `Md5.Encode` | src/bscl_md5.c:228-237 | the words as bytes, low byte first |
| `Md5.Run` | src/bscl_md5.c:84-138 | however a message is cut into pieces, the digest is that of the whole message |
| `Md5.CodeQualifies` | src/bscl_md5.c:141-225 | the code's own block transformation and numbering are ones the streaming theorems speak of |
| `Md5.DigestIsMd5` | src/bscl_md5.c:84-138 | the digest those theorems speak of is that of the standard |
| `Md5.Hash` | src/bscl_md5.c:84-138 | however a message is cut into pieces, the code's digest is that of RFC 1321 |
| `Md5.LengthIsBits` | src/bscl_md5.c:117-127 | the eight length bytes are the number of bits modulo 2^64, low byte first |
| `Md5Block.FChooses` | src/bscl_md5.c:37 | F takes every bit from y or z, as x says |
| `Md5Block.GChooses` | src/bscl_md5.c:38 | G takes every bit from x or y, as z says |
| `Md5Block.HTurns` | src/bscl_md5.c:39 | H is x, turned over where y and z differ |
| `Md5Block.ITurns` | src/bscl_md5.c:40 | I is y, turned over where x is set or z is not |
| `Md5Example.SentenceDigest` | src/bscl_md5.c:73-225 | the sentence of 43 letters with all letters of the alphabet has the digest 9e107d9d372bb6826bd81d3542a419d6 |
| `Tea.SumAtEnd` | src/bscl_tea.c:27 | the constant deciphering starts from is the sum after 32 rounds |
| `Tea.RoundAndBack` | src/bscl_tea.c:18-33 | a round and its reverse undo each other |
| `Tea.CipherInverse` | src/bscl_tea.c:13-37 | for every key the two ciphers undo each other, both ways |
| `Tea.Encrypt` | src/bscl_tea.c:13-24 | the loop computes 32 rounds |
| `Tea.Decrypt` | src/bscl_tea.c:26-37 | the loop, started from the constant, undoes 32 rounds |
| `Tea.Xor64` | src/bscl_tea.c:7-11 | eight byte steps are the exclusive or of two blocks, in place; no other block changes |
| `Tea.LinksMakeChain` | src/bscl_tea.c:46-50 | only the ciphertext satisfies the chaining equation at every block |
| `Tea.EncryptData` | src/bscl_tea.c:39-52 | refuses, without change, a length that is not a multiple of 8; else the blocks become the chained ciphertext |
| `Tea.DecryptData` | src/bscl_tea.c:54-69 | refuses likewise; else the blocks become the unchained plaintext |
| `Tea.UnchainedChained` | src/bscl_tea.c:63-67 | unchaining undoes chaining, for any cipher that can be undone |
| `Tea.ChainedUnchained` | src/bscl_tea.c:46-50 | and conversely |
| `Tea.DataRoundTrip` | src/bscl_tea.c:39-69 | either of the two data functions gives back the bytes the other was given |
| `Tea.CodeCiphers` | src/bscl_tea.c:13-37 | the code's own ciphers are ones the chaining theorems speak of |
| `Tea.EncryptDecrypt` | src/bscl_tea.c:39-69 | encrypting an array in place and then decrypting it leaves it as it was, for every key |
| `Tea.DecryptEncrypt` | src/bscl_tea.c:39-69 | and the other way round |
| `Tea.Diffusion` | src/bscl_tea.c:46-50 | changing plaintext block k changes exactly the ciphertext blocks up to k |
| `Tea.Damage` | src/bscl_tea.c:63-67 | changing ciphertext block k changes exactly the plaintext blocks k - 1 and k |
| `TeaNumbers.NumberOfMix` | src/bscl_tea.c:19-20 | what is mixed in: three numbers modulo 2^32, from a product by 16, a sum and a quotient by 32, digit by digit |
| `TeaNumbers.NumberOfTheSum` | src/bscl_tea.c:18 | the sum of round n is n times the constant modulo 2^32 |
| `TeaNumbers.EncipheredNumbers` | src/bscl_tea.c:13-24 | for every key and block, 32 cycles of sums, products and quotients of numbers modulo 2^32 |
| `TeaNumbers.ChainedNumbers` | src/bscl_tea.c:39-52 | every block of ciphertext is that of its plaintext mingled with the block of ciphertext behind it |
| `TeaNumbers.NumbersOfBlock` | src/bscl_tea.c:39-69 | a block of memory is two numbers of four bytes, low byte first |
| `List.List.constructor` | src/bscl_list.c:72-78 | a new list is empty |
| `List.List.Insert` | src/bscl_list.c:21-48 | the new item stands directly after the given one, or first; links, ends and size agree with the sequence |
| `List.List.Remove` | src/bscl_list.c:50-70 | the item leaves the sequence; links, ends and size agree; an empty list is reported |
| `List.List.Neighbours` | src/bscl_list.c:110-117 | next and previous item are the neighbours in the sequence, null at the ends |
| `List.List.Push` | include/bscl_queue.h:5-6 | the payload joins the end of the queue |
| `List.List.Pop` | include/bscl_queue.h:7-17 | the oldest payload leaves the queue; an empty queue gives nothing |
| `List.Serve` | include/bscl_queue.h:5-17 | any run of pushes and pops gives out what a first-in first-out queue would |

## Left out

- Driver.Run: an object that holds bytes while searching, because something was written to it; every method is proved for it, but its frames come behind those bytes.
- RecoveringDriver.Run: streams on which a search finds no buffered place to stop at, or comes upon a frame that does not fit the ring or 16 bits; `Recovery.Searchable` says which. The same holds for Recovery.RunSalvages.
- PacketObject.Packet.Resync: when the search does not end; `Receivers.SearchEndsIff` says exactly when that is.
- RingBuffer.Buffer.Copy: a begin index in the queue and a length whose sum wraps, for which the code copies past its ring; `RingBuffer.CopyStaysInsideIff` says that nothing else is left out.
- Md5.Context.Accumulate: pieces so long that the code reads past its input; `Md5.ReadsPastIff` says exactly which. The same holds for Md5.Run and Md5.Hash.
- Tea.EncryptData: a length of zero, for which the code would write before the data; the same holds for Tea.DecryptData, Tea.EncryptDecrypt and Tea.DecryptEncrypt.
- Crc16.CcittCacu: negative counts, which run the loop about 2^32 times.
- BsTree.RemoveItem: the memory of the removed item is not reused; the model does not say that it is freed. The same holds for List.List.Remove.
- Packet sizes are below 2^31, so that the C code's conversions of counts to int keep their value.
- The TEA key is a parameter; the library is built with one fixed key.
- The RFC's table is compared constant by constant with the code's; that it comes from the sine function is not proved.
- Allocation always succeeds, list operations are atomic steps; locks and allocation failure are not part of this model.
- `bscl_list_deninit`: it dereferences a null pointer at the last item.
- `src/bscl_rbtree.c`, `src/bscl_hashmap.c`, `src/bscl_json.c`, `src/bscl_bheap.c`, `src/bscl_ringbuffer.c`, `src/bscl_tasklet.c`, `src/bscl_vector.c`, `src/bscl_getopt.c`, `src/bscl_url.c`: not modelled.
- Tasks and timers, networking, serial port, file system, logging, the platform wrappers and the tools: not modelled.
