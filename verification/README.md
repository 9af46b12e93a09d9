# Verified models of mongoose, LightweightSemaphore and the MD5 programs

This project models the algorithmic core of the repository and proves it correct:

* **Protocol decoders of mongoose** (`mongoose/mongoose.c`). Incoming bytes arrive in arbitrary
  pieces and are decoded inside one growable buffer. `Chunked`, `WebSocket*` and `Multipart*`
  prove that the fragmentation never matters; `Coap*`, `DnsName`, `Base64` and `Mqtt` prove that
  what is written is read back, and exactly when it is not.
* **Two path algorithms of mongoose.** `UriPath` proves that the in-place normaliser is
  remove_dot_segments of RFC 3986; `Glob` proves that the backtracking matcher is sound and
  complete for a declarative meaning of patterns.
* **A lock-free semaphore** (`readerwriterqueue/atomicops.h`). `Semaphore.dfy` proves safety and
  progress over every interleaving of one producer and one consumer.
* **Hashes.** Three MD5 drivers, six register-level MD5 block programs, two C versions of the
  compression function, and mongoose's SHA-1 with its circular schedule are all proved equal to
  the definitions of RFC 1321 and FIPS 180-4.

## How the model is built

Code that works in place stays imperative: `Mbuf` is the buffer with its array, length and
contents; connections, contexts and option lists are classes whose methods follow the C functions
statement by statement. Each method is proved against a pure function, and the properties of the
protocols are lemmas about those functions, over all inputs and all runs. The semaphore is a state
machine whose steps are the atomic operations of the two threads.

| files | what they model |
|---|---|
| `Bytes.dfy`, `Mbuf.dfy` | bytes, memmove and memset, the growable buffer |
| `Chunked.dfy` | HTTP chunked transfer coding |
| `Multipart.dfy`, `MultipartStream.dfy`, `MultipartConnection.dfy` | the streaming multipart machine, its invariant, its methods |
| `WebSocketFrame.dfy`, `WebSocketStream.dfy`, `WebSocketConnection.dfy` | frames and masks, defragmentation, the methods |
| `CoapOptions.dfy`, `CoapCodec.dfy`, `CoapMessage.dfy` | the option list, the codec as functions, the codec as methods |
| `UriPath.dfy`, `Glob.dfy` | URI normalisation, glob matching |
| `DnsName.dfy`, `Base64.dfy`, `Mqtt.dfy` | the other codecs |
| `Semaphore.dfy` | LightweightSemaphore |
| `Word32.dfy`, `BlockHash.dfy` | machine words, padding and counting common to the hashes |
| `Md5.dfy`, `Md5Blocks.dfy` | the compression function and its register programs |
| `Md5Answer.dfy` | the digest of "abc" from RFC 1321, computed by the definitions |
| `Md5Digest.dfy`, `Md5Context.dfy`, `Md5Mongoose.dfy`, `Md5OneShot.dfy` | MD5 of a message and the three drivers |
| `Sha1.dfy`, `Sha1Context.dfy` | SHA-1 |

Conventions. Allocation always succeeds, and a null source is an unwritten gap. The host is
little-endian. Bytes are integers from 0 to 255; shifts and masks of bytes, lengths and counters
are written as the quotients and remainders they are. Words of the hash programs are 32-bit
vectors. A `uint16_t`, `uint32_t` or `uint64_t` that can wrap wraps in the model (CoAP deltas, the
WebSocket size, all hash counters); a `size_t` or `int` does not, and the lines below say where
that matters.

Where the code and its own comments disagree the model follows the code: `hm->message.len` after
the zero chunk is not always the length of headers and body (`Chunked.ChunkedConnection.HandleChunked`), the
`d == cp` branch after the normalisation loop is dead (`UriPath.WalkKeepsRoot`), an alternative
of a glob that matches the empty prefix is passed over (`Glob.EmptyMatchIsLost`), a DNS label of
64 to 127 bytes is written but never read back (`DnsName.RoundTrip`, `DnsName.ResultIsShort`), a
PUBLISH with a QoS above 0 is read as it was written only in the cases of `Mqtt.QosPublishExactly`,
a header line other than Content-Disposition makes the code look behind its buffer when a multipart
body is cut behind that line (`MultipartStream.StreamsWhole`), the matcher takes the byte behind its
string for a part of it (`Glob.QueryPasses`), some packets make the reader of DNS names run for ever
(`DnsName.AllNamesEnd`), and clearing the size field of an unmasked first fragment can
clear its payload (`WebSocketStream.FirstFragmentKept`).

The definitions that programs and theorems share are tied to the published ones: by laws (what a
digit, a mask, a rotation or a pattern byte means) and by examples of the standards.

Check the whole project with `dafny verify dfyconfig.toml`.

## Model

| member | source | states |
|---|---|---|
| MbufModule.Mbuf.Resize | mongoose/mongoose.c:1042-1054 | resizing keeps the bytes in use; it grows freely and shrinks only down to what is in use |
| MbufModule.Mbuf.Insert | mongoose/mongoose.c:1062-1092 | inserting at an offset moves the bytes behind it up and puts the new ones in the gap; the capacity is kept when they fit and is one and a half times what is needed when they do not |
| MbufModule.Mbuf.OpenGap | mongoose/mongoose.c:1062-1092 | an insert with a null source opens a gap of n bytes and keeps everything else in order, with the same growth |
| MbufModule.Mbuf.Append | mongoose/mongoose.c:1095-1097 | appending leaves the earlier bytes alone |
| MbufModule.Mbuf.Remove | mongoose/mongoose.c:1100-1105 | removing n leading bytes, and nothing at all when n is larger than what is held |
| Bytes.LowerLetters | mongoose/mongoose.c:9213-9215 | lower case: the 26 capital letters become small ones, every other byte stays as it is |
| Chunked.ParseWire | mongoose/mongoose.c:5415-5446 | any chunk written as section 4.1 of RFC 7230 writes it, followed by anything, is parsed to its own data and size |
| Chunked.ParseIsWire | mongoose/mongoose.c:5415-5446 | conversely, whatever the parser accepts is the wire form of a chunk with exactly the reported data |
| Chunked.ParseStable | mongoose/mongoose.c:5415-5446 | a chunk that was accepted is still accepted, unchanged, however many bytes arrive behind it |
| Chunked.DigitValues | mongoose/mongoose.c:5421-5424 | each of the 22 hexadecimal digits, in either case, is worth what it stands for, and there are no others |
| Chunked.HexTextValue | mongoose/mongoose.c:5421-5426 | a size written in hexadecimal, in either case, is read back |
| Chunked.CollapseWire | mongoose/mongoose.c:5458-5472 | a whole chunked body collapses to the concatenation of its chunk data, uses every byte, and is final |
| Chunked.TenBytes | mongoose/mongoose.c:5415-5472 | the body a CRLF 0123456789 CRLF 0 CRLF CRLF decodes to its ten bytes |
| Chunked.CollapseResumes | mongoose/mongoose.c:5455-5472 | fragmentation independence for every byte stream: collapsing what arrived and then resuming on the undecoded rest plus the new bytes is collapsing everything at once |
| Chunked.CollapseFinal | mongoose/mongoose.c:5467-5471 | once the zero chunk has been seen, further bytes change nothing |
| Chunked.TracksMore | mongoose/mongoose.c:5474-5493 | each call keeps the streaming invariant: what the handler deleted, then what is in place, then the undecoded suffix, are the decoding of all that was received, with or without MG_F_DELETE_CHUNK |
| Chunked.TracksWhole | mongoose/mongoose.c:5474-5493 | when the whole body has arrived, the deleted and the remaining data concatenate to the data of all chunks |
| Chunked.ShowsMore | mongoose/mongoose.c:5474-5493 | one more event keeps the tie between the events, the deleted data and the body in place; a body that is left is the beginning of the next one shown |
| Chunked.ShownData | mongoose/mongoose.c:5482-5493 | with MG_F_DELETE_CHUNK set every time the bodies shown concatenate to all data, without it the last one is all data |
| Chunked.ScanSize | mongoose/mongoose.c:5421-5426 | the digit loop computes the hexadecimal value of the longest run of digits, as an unbounded number |
| Chunked.ParseChunkAt | mongoose/mongoose.c:5415-5446 | the in-buffer parser returns exactly what the specification of a chunk says |
| Chunked.CollapseInPlace | mongoose/mongoose.c:5458-5472 | the memmove loop leaves the buffer as decoded data in front, the write cursor never passing the read cursor |
| Chunked.ChunkedConnection.HandleChunked | mongoose/mongoose.c:5448-5503 | one call: the buffer is headers, decoded data and undecoded suffix again; one event with the whole body if a chunk was complete; deletion on request; the message length is headers plus body only if nothing follows the zero chunk, although the comment in the code promises it always |
| Chunked.ChunkedConnection.Compact | mongoose/mongoose.c:5474-5480 | the shift of the unparsed content overwrites only bytes that are no longer needed |
| Chunked.ChunkedConnection.DropBody | mongoose/mongoose.c:5486-5493 | deleting the shown body keeps headers and undecoded suffix |
| Chunked.ChunkedConnection.Deliver | mongoose/mongoose.c:5474-5493 | the event shows the reassembled body, which the handler may delete |
| Chunked.ChunkedConnection.TakeArrival | mongoose/mongoose.c:5448-5503 | one arrival and the call it leads to keep both invariants |
| Chunked.ChunkedConnection.ReceiveAll | mongoose/mongoose.c:5448-5503 | any sequence of arrivals and handler choices keeps the streaming invariant over everything received, and ties the events shown to it: what was deleted is what the handler was shown and took, what is in place is what it was shown last and left |
| Chunked.ChunkedConnection.ReceiveMessage | mongoose/mongoose.c:5448-5503 | for a well-formed body cut into arbitrary arrivals, the deleted and remaining data are the concatenation of the chunk data; a handler that always deletes has been shown just that, in pieces, and one that never deletes was shown it last |
| LightweightSemaphore.InvStep | readerwriterqueue/atomicops.h:585-663 | every atomic operation of either thread keeps the invariant that ties counter, kernel tokens, pending post and outstanding decrement together |
| LightweightSemaphore.Safety | readerwriterqueue/atomicops.h:585-663 | in every interleaving at most one kernel post exists or is pending, none while the consumer does not wait, oldCount >= -1 holds, and initial + signalled = granted + count + outstanding |
| LightweightSemaphore.NeverOverGranted | readerwriterqueue/atomicops.h:627-663 | no run grants more calls than permits were put in; with the consumer idle the counter is exactly the difference |
| LightweightSemaphore.StuckMeansEmpty | readerwriterqueue/atomicops.h:604-612 | a consumer that blocks with nothing on its way to it is one for which every permit has been granted: no wakeup is lost |
| LightweightSemaphore.WakeupArrives | readerwriterqueue/atomicops.h:604-612 | a consumer waiting although a permit is there has exactly one post made or pending, and that post ends its wait |
| LightweightSemaphore.SecondTestSucceeds | readerwriterqueue/atomicops.h:617-625 | in the timeout loop the second test oldCount > 0 never fails |
| LightweightSemaphore.RetriesWhilePostPending | readerwriterqueue/atomicops.h:617-625 | the timeout loop goes round again exactly when the producer has not posted yet |
| LightweightSemaphore.StepsForward | readerwriterqueue/atomicops.h:585-626 | every consumer step comes closer to the end of the call, except a retry on a pending post |
| LightweightSemaphore.EveryRunEnds | readerwriterqueue/atomicops.h:585-648 | with the producer at rest every run of the consumer, timeouts taken or not, has a bounded length, conserves permits, and can stop only where the call has ended or is a wait without a time limit on an empty semaphore: tryWait and a timed wait always return |
| LightweightSemaphore.EndsOrBlocks | readerwriterqueue/atomicops.h:585-648 | with the producer at rest the consumer can always step on, within the bound, until its call has ended or blocks on an empty semaphore |
| LightweightSemaphore.RefusedWhenEmpty | readerwriterqueue/atomicops.h:614-642 | a call is refused only while the counter shows no permit, and only if it is tryWait or has a time limit |
| LightweightSemaphore.RefusalPassesEmpty | readerwriterqueue/atomicops.h:585-642 | so every run that refuses a call has passed a state without permits |
| LightweightSemaphore.PermitIsTaken | readerwriterqueue/atomicops.h:634-648 | with a permit there every kind of call takes it, in two operations |
| LightweightSemaphore.TryIsRefused | readerwriterqueue/atomicops.h:634-642 | with none there tryWait is refused after one load and never blocks |
| LightweightSemaphore.WaitIsNeverRefused | readerwriterqueue/atomicops.h:585-612 | whatever the producer does, wait without a time limit is never refused: it goes on or it has been granted |
| LightweightSemaphore.BlocksWhenEmpty | readerwriterqueue/atomicops.h:602-612 | a call blocks only when its decrement found no permit and it may wait |
| LightweightSemaphore.SpinLimit | readerwriterqueue/atomicops.h:591-601 | a waiting call that finds no permit loads the counter 1024 more times before it does |
| LightweightSemaphore.FreshStart | readerwriterqueue/atomicops.h:630-632 | a new semaphore satisfies the invariant, with the permits of the constructor and nothing else counted |
| LightweightSemaphore.SignalAdds | readerwriterqueue/atomicops.h:650-663 | signal adds its permits at any time and posts to the kernel exactly if the counter was negative |
| LightweightSemaphore.SignalWakes | readerwriterqueue/atomicops.h:602-612 | one permit wakes a blocked consumer, whose call is granted |
| UriPath.RfcStepByComponent | mongoose/mongoose.c:4939-4954 | one step of remove_dot_segments (section 5.2.4 of RFC 3986), seen component by component as the code walks the path |
| UriPath.BacktrackIsRemoveLast | mongoose/mongoose.c:4945-4948 | the two backtracking statements remove the last segment of the output and its slash |
| UriPath.RemoveLastIs | mongoose/mongoose.c:4945-4948 | the segment removed is the one behind the last slash, with that slash |
| UriPath.WalkComponent | mongoose/mongoose.c:4939-4954 | what the walk does with one component: skip a dot, go back for two, keep anything else with its slash |
| UriPath.DotsExample | mongoose/mongoose.c:4928-4960 | /a/./../g/ becomes /g/ |
| UriPath.WalkIsRemoveDots | mongoose/mongoose.c:4939-4954 | the two-pointer walk from any output state equals remove_dot_segments from the matching buffers |
| UriPath.NormalizedIsRemoveDots | mongoose/mongoose.c:4928-4960 | for every path starting with a slash the result is remove_dot_segments of it |
| UriPath.WalkKeepsRoot | mongoose/mongoose.c:4955 | the output always starts with a slash, so the branch d == cp after the loop is never taken |
| UriPath.WalkIsDotFree | mongoose/mongoose.c:4939-4954 | no component of the output is . or .. |
| UriPath.NormalizedIsIdempotent | mongoose/mongoose.c:4928-4960 | normalising twice is normalising once |
| UriPath.ScanComponent | mongoose/mongoose.c:4803-4808 | the component ends at the next slash or at the end of the path |
| UriPath.BacktrackCursor | mongoose/mongoose.c:4945-4948 | moving the write pointer back yields the output without its last segment |
| UriPath.EmitInPlace | mongoose/mongoose.c:4943-4952 | one component is kept, dropped or backtracked over; the write pointer never passes the next read position and the unread bytes are intact |
| UriPath.StepInPlace | mongoose/mongoose.c:4939-4954 | one iteration leaves the meaning of the rest of the walk unchanged |
| UriPath.WalkInPlace | mongoose/mongoose.c:4937-4954 | the loop over the aliased buffer computes the walk and leaves the bytes behind the path alone |
| UriPath.NormalizeUriPath | mongoose/mongoose.c:4928-4960 | with out aliasing in, the buffer holds remove_dot_segments of the path; any other input is refused and left alone |
| Glob.MatchIsCorrect | mongoose/mongoose.c:9497-9526 | soundness and completeness for a pattern without bars: a result r >= 0 is a matching prefix length in the declarative meaning of ?, *, ** and $, and -1 means that no prefix matches |
| Glob.BacktrackIsGreedy | mongoose/mongoose.c:9516-9521 | the do-while loop returns the match behind the longest run for which the rest matches, and -1 only if there is none |
| Glob.StarIsGreedy | mongoose/mongoose.c:9502-9521 | a star takes the longest run of bytes after which the rest of the pattern still matches something |
| Glob.LiteralMatches | mongoose/mongoose.c:9522-9524 | a pattern of ordinary bytes matches itself, in either case, and nothing else |
| Glob.QueryAndDollar | mongoose/mongoose.c:9498-9501 | a question mark takes one byte, a dollar only the end |
| Glob.Stars | mongoose/mongoose.c:9502-9515 | a star takes all bytes up to a slash, a double star all bytes |
| Glob.BarSplits | mongoose/mongoose.c:9488-9495 | a bar separates alternatives |
| Glob.MatchAnyIsChosen | mongoose/mongoose.c:9488-9495 | with bars, the result is that of one of the alternatives |
| Glob.FirstPositiveAlternative | mongoose/mongoose.c:9488-9495 | that alternative is the first with a positive result, or else the last one |
| Glob.FailureOfAlternatives | mongoose/mongoose.c:9488-9495 | -1 is returned exactly when the last alternative fails and no other one matches a nonempty prefix |
| Glob.EmptyMatchIsLost | mongoose/mongoose.c:9490-9494 | an alternative that matches the empty prefix is lost: star, bar, a on a single slash gives -1 |
| Glob.PassesBehindMatch | mongoose/mongoose.c:9497-9526 | the search passes the end of the string only where a front part of the pattern matches all of it and the next byte of the pattern equals, but for case, the one behind the string |
| Glob.NeverPasses | mongoose/mongoose.c:9522 | so it never does when no byte of the pattern equals that byte, as with a terminating zero |
| Glob.PlainPasses | mongoose/mongoose.c:9522 | without stars and dollars it does exactly there |
| Glob.QueryPasses | mongoose/mongoose.c:9522 | the pattern slash, a, question mark matches no prefix of slash, a, but the search passes its end when a question mark stands behind it, as behind the path of a request with a query |
| Glob.FindByte | mongoose/mongoose.c:9488 | memchr finds the first bar |
| Glob.ScanRun | mongoose/mongoose.c:9508-9511 | the inner loop measures the run up to the next slash |
| Glob.TryRest | mongoose/mongoose.c:9516-9521 | the loop that shortens the star computes the specified backtracking, and tells whether it passes the end of the string |
| Glob.MatchPrefix | mongoose/mongoose.c:9483-9527 | for any pattern, any string and any byte behind it: the result is that of the specified search, unless the search passes the end of the string, exactly where `AnyPasses` says |
| CoapOptions.InsertKeepsSorted | mongoose/mongoose.c:10902-10926 | inserting into a sorted option list keeps it sorted |
| CoapOptions.InsertIsStable | mongoose/mongoose.c:10902-10926 | for every option number, the new option comes last among those with that number and the others keep their order |
| CoapOptions.InsertAllIsStableSort | mongoose/mongoose.c:10884-10930 | after any sequence of additions the list is sorted and holds, for every number, what was added with it in the order of addition |
| CoapOptions.InsertAllOnEmpty | mongoose/mongoose.c:10884-10930 | from the empty list that is the stable sort of everything added |
| CoapOptions.StableSortIsUnique | mongoose/mongoose.c:10884-10930 | there is only one such list |
| CoapOptions.OptionList.FindPlace | mongoose/mongoose.c:10907-10916 | the search loop stops in front of the first option with a larger number |
| CoapOptions.OptionList.LinkLast | mongoose/mongoose.c:10902-10904 | appending behind the tail |
| CoapOptions.OptionList.LinkBefore | mongoose/mongoose.c:10918-10925 | relinking in the middle or at the head |
| CoapOptions.OptionList.Add | mongoose/mongoose.c:10884-10930 | the linked list becomes the sorted insertion, and the tail pointer is its last node |
| CoapOptions.OptionList.AddAll | mongoose/mongoose.c:10884-10930 | after any sequence of calls the linked list is the stable sort of everything added |
| CoapOptions.OptionList.Free | mongoose/mongoose.c:10876-10882 | freeing empties the list |
| CoapCodec.PacketSizeIsExact | mongoose/mongoose.c:11253-11300 | for an accepted message the precomputed size is the size of the packet |
| CoapCodec.EncodeOption | mongoose/mongoose.c:11341-11358 | no option starts with the byte of the payload marker |
| CoapCodec.OptionsSizeMeansAscending | mongoose/mongoose.c:11281-11284 | the options of an accepted message ascend |
| CoapCodec.OptionsSizeIsExact | mongoose/mongoose.c:11277-11297 | the same for the option part from any previous number |
| CoapCodec.ExtRoundTrip | mongoose/mongoose.c:11022-11050 | an extended delta or length below 65536 is read back from its 0, 1 or 2 extra bytes |
| CoapCodec.ExtCanonical | mongoose/mongoose.c:11201-11217 | the three ranges are disjoint: a value read without 16-bit wrap is encoded as exactly the bytes it was read from |
| CoapCodec.OptionRoundTrip | mongoose/mongoose.c:11068-11150 | one option with number and length below 65536 is read back |
| CoapCodec.OptionCanonical | mongoose/mongoose.c:11068-11150 | one option read without wrap is written as the bytes it was read from |
| CoapCodec.OptionsRoundTrip | mongoose/mongoose.c:11068-11150 | a whole ordered option list is read back and the parser stops at the payload marker or at the end |
| CoapCodec.OptionsCanonical | mongoose/mongoose.c:11068-11150 | an option list read without error and without wrap is recomposed to the same bytes |
| CoapCodec.RoundTrip | mongoose/mongoose.c:11152-11177 | parsing a composed message gives back type, code, id, token, ordered options and payload exactly when all option numbers and lengths are below 65536 |
| CoapCodec.WideNumberWraps | mongoose/mongoose.c:11068-11133 | the numbers that are lost: an option numbered 65536 to 65804 is composed and comes back 65536 lower |
| CoapCodec.ExactIsCanonical | mongoose/mongoose.c:11302-11371 | a packet parsed without error, wrap or bare payload marker is accepted by compose and recomposed to the identical bytes |
| CoapCodec.ComposedIsExact | mongoose/mongoose.c:11302-11371 | what compose writes for small options parses without wrap and without bare marker |
| CoapCodec.CanonicalForm | mongoose/mongoose.c:11152-11177 | recomposing a parsed packet gives the identical bytes exactly when no option wrapped and there is no bare payload marker |
| CoapCodec.RequestExample | mongoose/mongoose.c:11302-11371 | the request of figure 16 of RFC 7252, byte for byte |
| CoapCodec.ResponseExample | mongoose/mongoose.c:11302-11371 | its piggybacked response with a payload |
| CoapCodec.ExtendedExamples | mongoose/mongoose.c:11201-11217 | the extended values at the ends of their ranges |
| CoapMessage.SplitOption | mongoose/mongoose.c:11201-11217 | the nibble and the extra bytes of a delta or length |
| CoapMessage.PutOption | mongoose/mongoose.c:11341-11358 | one option is written at the cursor; the bytes in front of it and behind its end stay as they are |
| CoapMessage.ParseExtAt | mongoose/mongoose.c:11022-11050 | the extended value at a position of the buffer, with its 16-bit arithmetic |
| CoapMessage.Message.CalculatePacketSize | mongoose/mongoose.c:11253-11300 | the size pass accepts exactly the messages the specification accepts and computes their size, or returns the error flag of the first violated limit |
| CoapMessage.Message.CalculateOptionsSize | mongoose/mongoose.c:11277-11297 | the option loop of the size pass |
| CoapMessage.Message.Compose | mongoose/mongoose.c:11302-11371 | an accepted message is appended to the buffer as its encoding, of exactly the precomputed size; earlier bytes are unchanged; a refused one changes nothing |
| CoapMessage.Message.PutOptions | mongoose/mongoose.c:11338-11362 | the option loop writes the encoding of the whole list |
| CoapMessage.Message.PutHeader | mongoose/mongoose.c:11323-11336 | header and token as they are written |
| CoapMessage.Message.PutPayload | mongoose/mongoose.c:11364-11368 | payload marker and payload, or nothing |
| CoapMessage.Message.TakeHeader | mongoose/mongoose.c:10937-11015 | header and token as they are read, with the flags of every failing test |
| CoapMessage.Message.TakeOption | mongoose/mongoose.c:11078-11133 | one option as it is read and added to the list |
| CoapMessage.Message.TakeOptions | mongoose/mongoose.c:11068-11150 | the option loop up to the payload marker, the end, or an error |
| CoapMessage.Message.Parse | mongoose/mongoose.c:11152-11177 | the parsed message and its flags are those of the specification; on error the options are freed |
| WebSocketFrame.XorTwice | mongoose/mongoose.c:8863-8867 | applying a mask byte twice gives the byte back |
| WebSocketFrame.MaskTwice | mongoose/mongoose.c:8863-8867 | masking with the four-byte key is its own inverse (section 5.3 of RFC 6455) |
| WebSocketFrame.XorDigits | mongoose/mongoose.c:8865 | each of the eight binary digits of the result is the sum modulo 2 of the two digits |
| WebSocketFrame.XorIs | mongoose/mongoose.c:8865 | so these digits determine it |
| WebSocketFrame.MaskedHello | mongoose/mongoose.c:8863-8867 | the masked payload of section 5.7 of RFC 6455 |
| WebSocketFrame.BigEndianRoundTrip | mongoose/mongoose.c:8842-8848 | the 16 and 64 bit length fields are read back |
| WebSocketFrame.ReadFrame | mongoose/mongoose.c:8836-8867 | any frame with any of the three length forms, followed by anything, is found complete and unmasks to its payload |
| WebSocketFrame.IncompleteFrame | mongoose/mongoose.c:8852-8853 | a proper prefix of a frame is never taken for a complete frame |
| WebSocketFrame.HelloFrames | mongoose/mongoose.c:8836-8867 | the two single frames of section 5.7 of RFC 6455, byte for byte |
| WebSocketFrame.LongHeaders | mongoose/mongoose.c:8842-8848 | the headers of its messages of 256 bytes and 64 KiB |
| WebSocketFrame.FragmentFlags | mongoose/mongoose.c:8802-8810 | which first bytes make a frame a fragment and which a first fragment |
| WebSocketStream.SizeRoundTrip | mongoose/mongoose.c:8825 | the stored size is read back from its four bytes |
| WebSocketStream.DeliverWhole | mongoose/mongoose.c:8890-8894 | an unfragmented message is delivered once and removed |
| WebSocketStream.HelloDelivered | mongoose/mongoose.c:8819-8903 | both of these frames show the handler Hello |
| WebSocketStream.DeliverFirst | mongoose/mongoose.c:8869-8881 | a first fragment with a header of five bytes or more becomes byte 0 without opcode, a size and the payload, in front of the untouched rest |
| WebSocketStream.FirstFragmentKept | mongoose/mongoose.c:8869-8881 | any complete first fragment, whatever its header: payload and rest survive the clearing of the size field exactly when the payload or following bytes it covers are zero |
| WebSocketStream.StompedExactly | mongoose/mongoose.c:8869-8875 | which bytes that clearing changes |
| WebSocketStream.ShortFirstFragmentIsLost | mongoose/mongoose.c:8869-8875 | an unmasked first fragment of three letters is stored as three zeros |
| WebSocketStream.DeliverNext | mongoose/mongoose.c:8878-8889 | a later fragment is appended to the stored data; the last one delivers the whole and removes it |
| WebSocketStream.AdvanceTakesFrame | mongoose/mongoose.c:8819-8903 | one call takes exactly the next frame out of what has been sent |
| WebSocketStream.AdvanceDue | mongoose/mongoose.c:8819-8903 | the messages delivered now and those still due stay the messages that were sent |
| WebSocketStream.DeliverAdvances | mongoose/mongoose.c:8819-8903 | whenever the next frame is complete in the buffer, one call moves the connection one frame on, for every fragmentation |
| WebSocketStream.DeliverWaits | mongoose/mongoose.c:8852-8903 | when it is not, the call changes nothing |
| WebSocketConnection.ReadLayoutAt | mongoose/mongoose.c:8836-8850 | header length, mask length and data length as read at an offset of the buffer |
| WebSocketConnection.Unmask | mongoose/mongoose.c:8863-8867 | the payload is unmasked in place and nothing else changes |
| WebSocketConnection.WsConnection.TakeFirst | mongoose/mongoose.c:8870-8881 | for a header of any length the in-place overwrite leaves the state byte, the size, and the payload and all that follows with the bytes under the size field cleared |
| WebSocketConnection.WsConnection.TakeNext | mongoose/mongoose.c:8878-8881 | the memmove of a later fragment behind the stored data |
| WebSocketConnection.WsConnection.Finish | mongoose/mongoose.c:8883-8889 | the last fragment delivers the stored message and removes it |
| WebSocketConnection.WsConnection.FindFrame | mongoose/mongoose.c:8826-8834 | where the next frame starts |
| WebSocketConnection.WsConnection.TakeFrame | mongoose/mongoose.c:8855-8895 | one complete frame is consumed as the specification says |
| WebSocketConnection.WsConnection.DeliverData | mongoose/mongoose.c:8819-8903 | the whole function refines the specification: result, buffer and events |
| WebSocketConnection.WsConnection.Receive | mongoose/mongoose.c:9041-9044 | after new bytes the delivery loop stops only when one more call would deliver nothing, and then nothing is due if all has arrived |
| WebSocketConnection.WsConnection.ReceiveAll | mongoose/mongoose.c:9036-9044 | however the bytes of a series of messages are cut into arrivals, the handler sees each message once, whole and in order, and the buffer ends empty |
| MultipartStream.FindIsFirst | mongoose/mongoose.c:1719-1734 | the search finds the first occurrence, and nothing only if there is none |
| MultipartStream.ScanLines | mongoose/mongoose.c:5922-5958 | over the header lines of any part the loop stops behind the blank one with the last disposition, looks behind the buffer exactly if it has passed a line of another kind, and asks for more otherwise |
| MultipartStream.ScanMemoryIs | mongoose/mongoose.c:5918-5962 | the scan over the real memory does not depend on what stands behind the buffer, but where it looks there; then it asks for more if it finds no line feed |
| MultipartStream.WaitForBoundaryKeeps | mongoose/mongoose.c:5877-5909 | waiting for a delimiter keeps the streaming invariant |
| MultipartStream.ProcessBoundaryKeeps | mongoose/mongoose.c:5911-5963 | so does reading the headers behind it, which ends one part and begins the next or waits for more, unless they are cut and a line stands behind the buffer |
| MultipartStream.WaitForChunkKeeps | mongoose/mongoose.c:5965-5993 | so does looking for the delimiter behind the content |
| MultipartStream.ReleasedIsContent | mongoose/mongoose.c:5978-5982 | the bytes released while no delimiter is in sight are content: never part of a delimiter that is still arriving |
| MultipartStream.TakeChunkKeeps | mongoose/mongoose.c:5849-5860 | releasing them keeps the streaming invariant |
| MultipartStream.StepKeeps | mongoose/mongoose.c:5998-6036 | every turn of the state machine keeps it, or stops where header lines are cut and a line stands behind the buffer |
| MultipartStream.ContinueKeeps | mongoose/mongoose.c:5995-6039 | the loop looks behind the buffer exactly if the bytes end behind a header line other than a disposition; unless it finds a line there the invariant is kept and everything arrived means finished |
| MultipartStream.ArriveKeeps | mongoose/mongoose.c:5995-6039 | the same for every arrival |
| MultipartStream.StreamsWhole | mongoose/mongoose.c:5849-6039 | for any well-formed body in arbitrary fragments: the machine looks behind its buffer exactly if an arrival ends among header lines of a part, behind one other than Content-Disposition; if it never does, or finds no line feed there, the events are BEGIN, DATA and END for each part in order, and its DATA concatenate to its content (section 5.1.1 of RFC 2046) |
| MultipartStream.HeaderIsValue | mongoose/mongoose.c:5924-5933 | the header a part begins with is what stands behind the name Content-Disposition, in any spelling of its letters, up to the line end |
| MultipartStream.DispositionLines | mongoose/mongoose.c:5924-5926 | which lines count as Content-Disposition: that name in any spelling and at least two bytes behind it |
| MultipartStream.FormExpects | mongoose/mongoose.c:5924-5933 | a form of (value, content) fields is to be shown as these pairs |
| MultipartStream.FormStreams | mongoose/mongoose.c:5849-6039 | so a form is shown as these pairs however it is cut and whatever stands behind the buffer |
| MultipartStream.FormOnTheWire | mongoose/mongoose.c:5849-6039 | the bytes of a form with one field |
| MultipartStream.DispositionsNeverCut | mongoose/mongoose.c:5922-5937 | with Content-Disposition lines only no arrival can end so, and every fragmentation is delivered whole |
| MultipartStream.WholeBodyNeverCut | mongoose/mongoose.c:5922-5957 | neither can an arrival that ends with the body: one that comes at once is delivered whole whatever its header lines |
| MultipartStream.CutHeaderLooksBehind | mongoose/mongoose.c:5922-5957 | a body with one other header line for which the machine looks behind its buffer when it is cut behind that line, and not when it arrives whole; if no line is found there it is delivered all the same |
| MultipartConnection.StrnStr | mongoose/mongoose.c:1719-1734 | the double loop computes the first occurrence |
| MultipartConnection.GetLineLen | mongoose/mongoose.c:5766-5770 | the length of the first line, or zero |
| MultipartConnection.MultipartConnection.WaitForBoundary | mongoose/mongoose.c:5877-5909 | refines the specified step |
| MultipartConnection.MultipartConnection.ScanHeaderLines | mongoose/mongoose.c:5918-5958 | refines the specified scan of the header lines |
| MultipartConnection.MultipartConnection.ProcessBoundary | mongoose/mongoose.c:5911-5963 | refines the specified step |
| MultipartConnection.MultipartConnection.ContinueWaitForChunk | mongoose/mongoose.c:5965-5993 | refines the specified step |
| MultipartConnection.MultipartConnection.TakeChunk | mongoose/mongoose.c:5849-5860 | refines the specified step |
| MultipartConnection.MultipartConnection.TakeTurn | mongoose/mongoose.c:5998-6036 | one turn of the switch |
| MultipartConnection.MultipartConnection.Continue | mongoose/mongoose.c:5995-6039 | the loop over turns terminates and refines the specified run |
| MultipartConnection.MultipartConnection.ReceiveBody | mongoose/mongoose.c:5849-6039 | the connection shows its handler exactly the parts of the body, whatever the header lines and the fragmentation, unless an arrival ends among header lines as above and a line feed stands behind the buffer |
| Md5.FourRounds | md5/md5.cc:166-191 | four iterations of the loop write every register once, with the constants the tables give |
| Md5.Select | md5/md5.cc:167-184 | the switch chooses mixing function and input word |
| Md5.Md5Step | md5/md5.cc:156-197 | the rotating-variable loop computes the compression function |
| Md5.SpelledIsApply | mongoose/mongoose.c:812-815 | mongoose's F1 to F4 are the mixing functions of RFC 1321 |
| Md5.Md5StepMacro | mongoose/mongoose.c:817-818 | the macro MD5STEP computes the next word, although it adds the summands in another order |
| Md5.TransformF | mongoose/mongoose.c:842-857 | the first sixteen lines are operations 0 to 15 |
| Md5.TransformG | mongoose/mongoose.c:859-874 | the next sixteen lines are operations 16 to 31 |
| Md5.TransformH | mongoose/mongoose.c:876-891 | the next sixteen lines are operations 32 to 47 |
| Md5.TransformI | mongoose/mongoose.c:893-908 | the last sixteen lines are operations 48 to 63 |
| Md5.Md5Transform | mongoose/mongoose.c:834-914 | the unrolled transform computes the same function as md5Step |
| Word32.SelectByXor | md5-optimisation/md5-x86-asm.h:51-60 | choosing bits with two exclusive ors and one and |
| Word32.SelectByAdd | md5-optimisation/md5-x86-asm.h:218-229 | the halves of a choice are disjoint, so an addition may replace the or |
| Word32.Rotation1 | mongoose/mongoose.c:1217 | rotating by 1 moves the top bits round to the bottom and the others up |
| Word32.Rotation4 | md5/md5.cc:66-68 | rotating by 4 moves the top bits round to the bottom and the others up |
| Word32.Rotation5 | md5/md5.cc:66-68 | rotating by 5 moves the top bits round to the bottom and the others up |
| Word32.Rotation6 | md5/md5.cc:66-68 | rotating by 6 moves the top bits round to the bottom and the others up |
| Word32.Rotation7 | md5/md5.cc:66-68 | rotating by 7 moves the top bits round to the bottom and the others up |
| Word32.Rotation8 | mongoose/mongoose.c:1217 | rotating by 8 moves the top bits round to the bottom and the others up |
| Word32.Rotation9 | md5/md5.cc:66-68 | rotating by 9 moves the top bits round to the bottom and the others up |
| Word32.Rotation10 | md5/md5.cc:66-68 | rotating by 10 moves the top bits round to the bottom and the others up |
| Word32.Rotation11 | md5/md5.cc:66-68 | rotating by 11 moves the top bits round to the bottom and the others up |
| Word32.Rotation12 | md5/md5.cc:66-68 | rotating by 12 moves the top bits round to the bottom and the others up |
| Word32.Rotation14 | md5/md5.cc:66-68 | rotating by 14 moves the top bits round to the bottom and the others up |
| Word32.Rotation15 | md5/md5.cc:66-68 | rotating by 15 moves the top bits round to the bottom and the others up |
| Word32.Rotation16 | md5/md5.cc:66-68 | rotating by 16 moves the top bits round to the bottom and the others up |
| Word32.Rotation17 | md5/md5.cc:66-68 | rotating by 17 moves the top bits round to the bottom and the others up |
| Word32.Rotation20 | md5/md5.cc:66-68 | rotating by 20 moves the top bits round to the bottom and the others up |
| Word32.Rotation21 | md5/md5.cc:66-68 | rotating by 21 moves the top bits round to the bottom and the others up |
| Word32.Rotation22 | md5/md5.cc:66-68 | rotating by 22 moves the top bits round to the bottom and the others up |
| Word32.Rotation23 | md5/md5.cc:66-68 | rotating by 23 moves the top bits round to the bottom and the others up |
| Word32.Rotation24 | mongoose/mongoose.c:1217 | rotating by 24 moves the top bits round to the bottom and the others up |
| Word32.Rotation30 | mongoose/mongoose.c:1217 | rotating by 30 moves the top bits round to the bottom and the others up |
| Md5Blocks.SumByLea | md5-optimisation/md5-x86-asm.h:51-60 | the order of the lea programs' additions does not matter |
| Md5Blocks.SumByAdd | md5-optimisation/md5-x86-asm.h:605-614 | nor does that of the programs without lea |
| Md5Blocks.FInRegister | md5-optimisation/md5-x86-asm.h:51-60 | the registers form F |
| Md5Blocks.GInRegister | md5-optimisation/md5-x86-asm.h:218-229 | the registers form G, with or and with add |
| Md5Blocks.HInRegister | md5-optimisation/md5-x86-asm.h:61-69 | the registers form H |
| Md5Blocks.HFromPrevious | md5-optimisation/md5-x86-asm.h:323-330 | H is formed from its previous value, or from the exclusive or left behind by it |
| Md5Blocks.IInRegister | md5-optimisation/md5-x86-asm.h:70-79 | the registers form I |
| Md5Blocks.LeaF | md5-optimisation/md5-x86-asm.h:51-60 | ROUND_F of the lea programs: next word, TMP1 a copy of the next D, TMP2 the next input word |
| Md5Blocks.LeaG | md5-optimisation/md5-x86-asm.h:218-229 | ROUND_G of gopt, which adds the halves, and of std (lines 91-102), which ors them |
| Md5Blocks.LeaH | md5-optimisation/md5-x86-asm.h:61-69 | ROUND_H of std and gopt |
| Md5Blocks.LeaHCarried | md5-optimisation/md5-x86-asm.h:323-330 | ghopt's ROUND_H, which carries the previous value of H in TMP1 |
| Md5Blocks.LeaHFirst | md5-optimisation/md5-x86-asm.h:361-367 | ghopt's first H operation |
| Md5Blocks.LeaI | md5-optimisation/md5-x86-asm.h:70-79 | ROUND_I |
| Md5Blocks.LeaILast | md5-optimisation/md5-x86-asm.h:80-87 | ROUND_I_LAST |
| Md5Blocks.LeaQuad | md5-optimisation/md5-x86-asm.h:118-140 | the macros RF4, RG4, RH4 and RI4 are four operations |
| Md5Blocks.LeaBlock | md5-optimisation/md5-x86-asm.h:35-398 | md5_block_std, md5_block_gopt and md5_block_ghopt end in the same A, B, C, D as md5Step, for every state and block |
| Md5Blocks.AddF | md5-optimisation/md5-x86-asm.h:605-614 | ROUND_F without lea: the register already holds its input word, and the next word is added to D after its last use |
| Md5Blocks.AddG | md5-optimisation/md5-x86-asm.h:736-747 | ROUND_G of noleag, which adds the halves, and of nolea (lines 643-654), which ors them |
| Md5Blocks.AddH | md5-optimisation/md5-x86-asm.h:615-623 | ROUND_H of nolea and noleag |
| Md5Blocks.AddHCarried | md5-optimisation/md5-x86-asm.h:806-813 | noleagh's ROUND_H, which carries C^D in TMP1 |
| Md5Blocks.AddHFirst | md5-optimisation/md5-x86-asm.h:834-841 | noleagh's first H operation |
| Md5Blocks.AddI | md5-optimisation/md5-x86-asm.h:624-633 | ROUND_I without lea |
| Md5Blocks.AddILast | md5-optimisation/md5-x86-asm.h:634-641 | ROUND_I_LAST without lea |
| Md5Blocks.AddQuad | md5-optimisation/md5-x86-asm.h:656-678 | the macros RF4, RG4, RH4 and RI4 of these programs |
| Md5Blocks.AddBlock | md5-optimisation/md5-x86-asm.h:592-867 | md5_block_nolea, md5_block_noleag and md5_block_noleagh end in the same A, B, C, D as md5Step, for every state and block |
| BlockHash.AppendShort | md5/md5.cc:95-96 | a piece that does not complete the block leaves the folded blocks alone |
| BlockHash.AppendBlock | md5/md5.cc:102-114 | a completed block adds one application of the compression function |
| BlockHash.PaddedInjective | md5/md5.cc:122-142 | padding and bit count never let two messages collide below 2^61 bytes |
| BlockHash.CountAdds | mongoose/mongoose.c:919-921 | the two-word counter with its carry counts the bits modulo 2^64 |
| BlockHash.CountIsExact | mongoose/mongoose.c:919-921 | the count stays right exactly when the part of the length above 32 bits is a multiple of 2^29, as it is for every length below 2^32 |
| BlockHash.LongUpdateIsMiscounted | mongoose/mongoose.c:919-921 | the first length that is not: 2^32 bytes are counted as none |
| Md5Digest.LengthWords | md5/md5.cc:133-140 | a last block that ends in the bit count holds its halves as words 14 and 15 |
| Md5Digest.DigestLastBlock | md5/md5.cc:122-142 | padding brings the message to 56 bytes of its last block, which the bit count completes (sections 3.1 and 3.2 of RFC 1321) |
| Md5Digest.PadsInOneBlock | md5-optimisation/md5.cpp:43-57 | up to 55 bytes in the last block, the padding fits behind them |
| Md5Digest.PadsInTwoBlocks | md5-optimisation/md5.cpp:43-57 | from 56 bytes on it takes one more block |
| Md5Digest.DigestModulo | md5/md5.cc:139-140 | counting the bits modulo 2^64 is enough |
| Md5Digest.DigestBytesInjective | md5/md5.cc:145-150 | the digest bytes determine the chaining words |
| Md5Answer.MessageWords | md5/md5.cc:122-142 | the padded message abc as sixteen words |
| Md5Answer.DigestOfAbc | md5/md5.cc:89-160 | its chaining words after all 64 operations |
| Md5Answer.AnswerForAbc | md5/md5.cc:89-160 | its digest is 900150983cd24fb0d6963f7d28e17f72, as section A.5 of RFC 1321 has it |
| Md5Context.Context.constructor | md5/md5.cc:74-81 | md5Init starts with the empty message |
| Md5Context.Context.LoadWords | md5/md5.cc:103-111 | the packing loop computes the little-endian words |
| Md5Context.Context.TakeByte | md5/md5.cc:95-115 | one byte more, with the compression of a completed block |
| Md5Context.Context.Update | md5/md5.cc:89-116 | after update the context stands for the longer message |
| Md5Context.LoopEnds | md5/md5.cc:95 | the loop over the input ends exactly for lengths below 2^32, because its counter has 32 bits |
| Md5Context.Context.Finalize | md5/md5.cc:122-151 | finalisation leaves the MD5 of the message in buffer and digest, for every length |
| Md5Context.Context.FinalStep | md5/md5.cc:133-142 | the last block with the bit count of the message without its padding |
| Md5Context.Context.WriteDigest | md5/md5.cc:145-150 | the digest bytes, least significant first |
| Md5Context.DigestPieces | md5/md5.cc:89-151 | any split of a message into updates gives its MD5 |
| Md5Mongoose.Context.constructor | mongoose/mongoose.c:824-832 | MD5_Init starts with the empty message and a zero count |
| Md5Mongoose.Context.CountBits | mongoose/mongoose.c:919-921 | the three counting statements |
| Md5Mongoose.Context.Copy | mongoose/mongoose.c:923-948 | completing the block, whole blocks, and the rest: the context stands for the longer message |
| Md5Mongoose.Context.Update | mongoose/mongoose.c:916-949 | for every length the buffering is right; for lengths below 2^32 the count is right too |
| Md5Mongoose.Context.PadInput | mongoose/mongoose.c:956-968 | end mark and zeros, with an extra block when fewer than eight bytes are left |
| Md5Mongoose.Context.AppendCount | mongoose/mongoose.c:971-975 | the two count words complete the last block |
| Md5Mongoose.Context.Final | mongoose/mongoose.c:951-979 | the digest is the MD5 of the message if its bits were counted right, and in any case that of the padded message with the count there is |
| Md5Mongoose.DigestPieces | mongoose/mongoose.c:916-979 | any split of a message into updates gives its MD5 |
| Md5OneShot.RunWholeBlocks | md5-optimisation/md5.cpp:34-38 | the loop over whole blocks |
| Md5OneShot.FillBlock | md5-optimisation/md5.cpp:48-50 | the first iteration of the finalisation loop |
| Md5OneShot.FinishBlock | md5-optimisation/md5.cpp:51-56 | the second iteration of the finalisation loop |
| Md5OneShot.OneShot | md5-optimisation/md5.cpp:28-58 | with any of the six block programs the one-shot driver computes the MD5 of the message, including the 55 and 56 byte edge |
| Sha1.ChSpelled | mongoose/mongoose.c:1240-1245 | R0 and R1 use the choice function of FIPS 180-4 |
| Sha1.MajSpelled | mongoose/mongoose.c:1249-1251 | R3 uses its majority function |
| Sha1.SwapPacks | mongoose/mongoose.c:1219-1226 | blk0 turns a little-endian load into the big-endian word |
| Sha1.CircularLoad | mongoose/mongoose.c:1219-1226 | blk0 puts word i of the schedule in place |
| Sha1.CircularStep | mongoose/mongoose.c:1236-1239 | blk computes the next word of the eighty-word schedule from the sixteen there are and puts it where the oldest was |
| Sha1.Blk0 | mongoose/mongoose.c:1219-1226 | the in-place method for it |
| Sha1.Blk | mongoose/mongoose.c:1236-1239 | the in-place method for it |
| Sha1.Mixed | mongoose/mongoose.c:1240-1254 | what each of the five macros adds |
| Sha1.Round | mongoose/mongoose.c:1240-1254 | one macro is one step of section 6.1.2 of FIPS 180-4, with the registers renamed instead of moved |
| Sha1.Five | mongoose/mongoose.c:1266-1270 | five macros bring every register back to its place |
| Sha1.Transform | mongoose/mongoose.c:1256-1360 | the in-place sixteen-word schedule and the renamed registers compute what the eighty-word schedule does |
| Sha1Context.CountBytes | mongoose/mongoose.c:1395-1399 | the eight count bytes are the big-endian bit count of the message |
| Sha1Context.Context.constructor | mongoose/mongoose.c:1362-1369 | cs_sha1_init starts with the empty message |
| Sha1Context.Context.Copy | mongoose/mongoose.c:1378-1388 | completing the block, direct blocks, and the rest |
| Sha1Context.Context.Update | mongoose/mongoose.c:1371-1389 | after update the context stands for the longer message and has counted it, for lengths whose 32-bit sums do not wrap |
| Sha1Context.Context.Pad | mongoose/mongoose.c:1400-1405 | the byte-by-byte padding loop ends exactly at the padding of section 5.1.1 of FIPS 180-4 |
| Sha1Context.Context.FinalCount | mongoose/mongoose.c:1395-1399 | the loop that writes the count bytes |
| Sha1Context.Context.Final | mongoose/mongoose.c:1391-1413 | the digest is the SHA-1 of the message |
| Sha1Context.WordFromDigest | mongoose/mongoose.c:1407-1410 | the chaining words can be read back from the digest |
| Sha1Context.DigestPieces | mongoose/mongoose.c:1371-1413 | any split of a message into updates gives its SHA-1 |
| DnsName.RoundTrip | mongoose/mongoose.c:10418-10465 | of all names the writer accepts, wherever they stand in a packet, exactly those are read back that fit the room and have only labels of 1 to 63 bytes, or none at all (section 3.1 of RFC 1035) |
| DnsName.ResultIsShort | mongoose/mongoose.c:10429-10459 | whatever the packet, what is read has only labels of at most 63 bytes |
| DnsName.ShortRoundTrip | mongoose/mongoose.c:10418-10465 | for labels up to 63 bytes and enough room the loop always ends, with the name exactly when no label is empty |
| DnsName.CompressedName | mongoose/mongoose.c:10429-10459 | a label in front of a pointer to a written name is read with that name behind it (section 4.1.4 of RFC 1035) |
| DnsName.FirstLabelWritten | mongoose/mongoose.c:10221-10248 | a name is written as the length and the bytes of its first label, then the rest |
| DnsName.NameExample | mongoose/mongoose.c:10221-10248 | isi.edu as section 3.1 of RFC 1035 lays it out |
| DnsName.NoRoomNoName | mongoose/mongoose.c:10443-10457 | with less room than the name is long nothing can give it back |
| DnsName.EmptyLabelCuts | mongoose/mongoose.c:10429 | an empty label ends the name early and something of it is lost |
| DnsName.LongLabelIsPointer | mongoose/mongoose.c:10435-10442 | a name whose first label has 64 to 127 bytes is written, and the first iteration of the reader takes that label for a pointer |
| DnsName.LongLabelIsLost | mongoose/mongoose.c:10435-10439 | for example a name of sixty-four letters reads back as nothing |
| DnsName.BackwardPointersEnd | mongoose/mongoose.c:10429-10459 | when every pointer the run stands at leads strictly backwards the name ends (section 4.1.4 of RFC 1035) |
| DnsName.EndsExactly | mongoose/mongoose.c:10429-10459 | the loop ends within as many iterations as there are positions and fill levels, or meets the same state twice |
| DnsName.EndsWithoutLoop | mongoose/mongoose.c:10429-10459 | a name ends exactly when no position its run reaches holds a pointer that leads back to itself, directly or over other pointers |
| DnsName.AllNamesEnd | mongoose/mongoose.c:10429-10459 | every name of a packet ends, from any position and with any room, exactly when no pointer of the packet leads back to itself |
| DnsName.LoopsAreShort | mongoose/mongoose.c:10435-10442 | whether a pointer does is settled by as many hops as the packet has bytes |
| DnsName.SelfPointerNeverEnds | mongoose/mongoose.c:10435-10442 | a pointer to itself, anywhere in a packet, is followed for ever |
| DnsName.TwoBytesNeverEnd | mongoose/mongoose.c:10435-10442 | the packet 0xC0 0x00 is enough |
| DnsName.MeetsAtPointer | mongoose/mongoose.c:10435-10442 | where it meets itself it stands at a pointer: only a cycle of pointers runs for ever |
| DnsName.MeetingNeverEnds | mongoose/mongoose.c:10429-10459 | a state met twice is met for ever |
| DnsName.FindDot | mongoose/mongoose.c:10227-10229 | strchr with the end of the name as the last resort |
| DnsName.EncodeName | mongoose/mongoose.c:10221-10248 | the labels, each behind its length, and a zero byte are appended; a label over 127 bytes gives -1 with the labels before it already appended |
| DnsName.UncompressName | mongoose/mongoose.c:10418-10465 | when the loop ends, the destination holds exactly the specified bytes, never more than dst_len, and nothing behind dst_len is written |
| DnsName.TakeBackDot | mongoose/mongoose.c:10461-10463 | the last dot becomes the terminating zero |
| Base64.CodeRoundTrip | mongoose/mongoose.c:482-519 | the inverse table inverts the alphabet |
| Base64.Alphabet | mongoose/mongoose.c:362-378 | the alphabet of table 1 of RFC 4648 |
| Base64.TestVectors | mongoose/mongoose.c:380-392 | test vectors of section 10 of RFC 4648 |
| Base64.RoundTrip | mongoose/mongoose.c:521-540 | decoding an encoded message gives it back and consumes all 4*ceil(n/3) characters; padding stops the decoder in front of whatever follows |
| Base64.TextGroup | mongoose/mongoose.c:427-440 | one to three bytes more add one chunk to the text |
| Base64.PutGroups | mongoose/mongoose.c:427-440 | the loop over groups |
| Base64.PutPadding | mongoose/mongoose.c:442-444 | the padding loop fills up the last group |
| Base64.Encode | mongoose/mongoose.c:422-459 | the one-shot encoder writes the text and a zero byte, and nothing behind it |
| Base64.Context.EmitChunk | mongoose/mongoose.c:375-390 | one chunk is handed to the sink |
| Base64.Context.Update | mongoose/mongoose.c:399-409 | after update the sink has the text of all whole groups and the rest waits |
| Base64.Context.Finish | mongoose/mongoose.c:411-420 | finishing gives the sink the text of the one-shot encoder |
| Base64.EncodePieces | mongoose/mongoose.c:392-420 | any split of a message into updates emits the same text |
| Base64.Decode | mongoose/mongoose.c:521-540 | the decoder writes and consumes what the specification says |
| Mqtt.RemainingLengthRoundTrip | mongoose/mongoose.c:9610-9612 | the remaining length is read back, wherever it stands (section 2.2.3 of MQTT 3.1.1) |
| Mqtt.RemainingLengthSize | mongoose/mongoose.c:9806-9811 | a number below 128^k takes at most k bytes |
| Mqtt.RemainingLengthNeeds | mongoose/mongoose.c:9798-9811 | any other number takes more than k bytes, so one of 128^8 and more does not fit the nine-byte buffer |
| Mqtt.VariableLength | mongoose/mongoose.c:9798-9811 | the encoding loop stays inside its nine-byte buffer |
| Mqtt.PrependHeader | mongoose/mongoose.c:9793-9814 | the header goes in front of the body and everything before it stays as it is |
| Mqtt.Publish | mongoose/mongoose.c:9816-9833 | a PUBLISH is appended as header, topic, message id if the QoS asks for one, and data |
| Mqtt.Subscribe | mongoose/mongoose.c:9835-9853 | a SUBSCRIBE is appended as header, message id and topics |
| Mqtt.ReadRemainingLength | mongoose/mongoose.c:9609-9612 | the decoding loop |
| Mqtt.ParseMqtt | mongoose/mongoose.c:9599-9687 | the parser returns the end of the packet and its fields, or -1 when two or more of its bytes are missing; the test lets a packet pass that lacks its last byte |
| Mqtt.LastByteMayBeMissing | mongoose/mongoose.c:9615-9618 | a PUBACK without its last byte is accepted |
| Mqtt.PublishRoundTrip | mongoose/mongoose.c:9660-9670 | a QoS 0 PUBLISH parses back to its topic and payload |
| Mqtt.QosPublishRead | mongoose/mongoose.c:9661-9669 | with a higher QoS the parser takes the length of the topic for the identifier and the first two bytes behind it for the length of the topic |
| Mqtt.QosPublishExactly | mongoose/mongoose.c:9661-9669 | such a packet is read as it was written exactly when the identifier is the length of the topic and the topic repeats the two bytes of that length |
| Mqtt.QosPublishMisread | mongoose/mongoose.c:9661-9665 | with 65535 bytes of topic and data or more, every identifier other than the length of the topic is accepted and misread |
| Mqtt.QosPublishLost | mongoose/mongoose.c:9661-9669 | a packet of about 300 bytes that is accepted and misread |
| Mqtt.QosPublishKept | mongoose/mongoose.c:9661-9669 | a packet that is read as it was written |
| Mqtt.SubscribeRoundTrip | mongoose/mongoose.c:9671-9680 | a SUBSCRIBE parses back to its message identifier and its topics as payload |
| Mqtt.NextSubscribeTopic | mongoose/mongoose.c:9855-9867 | one topic and the position behind it, or -1 at the end |
| Mqtt.AllTopics | mongoose/mongoose.c:9855-9867 | iterating over a written SUBSCRIBE gives exactly the topic list, then -1 |
| Mqtt.LengthTable | mongoose/mongoose.c:9798-9811 | the remaining lengths at the ends of their ranges, as table 2.4 of MQTT 3.1.1 has them |
| Mqtt.PublishExample | mongoose/mongoose.c:9816-9833 | the topic and identifier of section 3.3.2.3, byte for byte |
| Mqtt.SubscribeExample | mongoose/mongoose.c:9835-9853 | the payload of section 3.8.3 |
| Mqtt.AcknowledgementExamples | mongoose/mongoose.c:9650-9686 | four acknowledgements as they are read |

## Left out

- Chunked.ParseChunkAt: chunk sizes are unbounded integers; sizes of 2^64 and more, which wrap in the code, are not modelled. A well-formed chunk holds as many bytes as its size says, so it cannot wrap.
- Chunked.ScanSize: the value is unbounded where `size_t` wraps at 2^64.
- Chunked.CollapseWire: no chunk extensions and no trailers, which the parser does not know either.
- MultipartStream.StreamsWhole: assumes at least one part, the boundary text only at delimiters, and a closing delimiter followed by a line break. Where the code finds a line behind its buffer the model stops; what it makes of that line is not part of this model.
- MultipartStream.ScanLines: a header line is any nonempty line that is not blank and ends at its only line feed.
- Multipart: `name` and `filename` are not extracted; a part's BEGIN event carries the text of its last Content-Disposition line, or None for a part without one, where the code copies the uninitialised arrays `var_name` and `file_name`. Buffers of 2^31 bytes and more, and a missing boundary, are not modelled.
- WebSocketConnection.WsConnection.DeliverData: requires that a complete continuation frame has a message in progress in front of it; without one the code moves the payload behind bytes that are no size field. A length so close to 2^64 that `frame_len` wraps is not modelled.
- WebSocketConnection.WsConnection.ReceiveAll: the messages sent have fragments in order, without control frames between them, less than 2^32 bytes in all, and first fragments with a header of five bytes or more, as every masked one has; the others are what `WebSocketStream.FirstFragmentKept` is about.
- WebSocketStream.DeliverFirst: headers of five bytes or more; `WebSocketStream.FirstFragmentKept` is the statement for all of them.
- WebSocketFrame.ReadFrame: payloads below 2^63 bytes, the limit of section 5.2 of RFC 6455.
- WebSocket: closing after delivery, opcode recovery after defragmentation, handshake and sending.
- Glob.MatchPrefix: one byte behind the string is modelled. Where the search passes the end of the string the model stops, with the result the code has if that was the last byte of the pattern; further bytes behind the string, and the byte behind a pattern that ends in a star (zero or a bar here), are not part of this model.
- CoapMessage.Message.Parse: on error only the flags and the freed option list are stated, not the fields already filled in.
- CoAP: sending, acknowledgements and the connection handler.
- LightweightSemaphore: `signal(0)`, several producers or consumers, weak memory and operating system errors; steps are sequentially consistent, and the kernel semaphore is a counter.
- DnsName.UncompressName: requires that the loop ends, which `DnsName.EndsWithoutLoop` characterises; the name starts at or behind the beginning of the packet.
- DnsName.EncodeName: the name is a C string, so its length argument is its length and it holds no zero byte in front of its end.
- DNS: records, questions, the server and the resolver.
- Mqtt.ParseMqtt: requires a remaining length of at most four bytes and fields inside the accepted packet, which the code reads without checking; the fields of CONNECT are not modelled.
- Mqtt.PublishRoundTrip: QoS 0 only; `Mqtt.QosPublishExactly` is the statement for the other levels.
- Mqtt.VariableLength: lengths below 2^56, whose encoding fits the code's buffer; a longer one does not (`Mqtt.RemainingLengthNeeds`).
- Mqtt.PrependHeader: the same, and so `Mqtt.Publish` and `Mqtt.Subscribe`.
- Md5Context.Context.Update: lengths below 2^32; for longer ones the loop does not end (`Md5Context.LoopEnds`).
- Md5Context.DigestPieces: pieces of such lengths.
- Md5Mongoose.DigestPieces: pieces below 2^32 bytes; beyond, the bit count is right only as `BlockHash.CountIsExact` says.
- Md5Blocks.LeaG: the 64-bit build with TMP3 as scratch register; the 32-bit build, which reuses TMP2, is not modelled. The block programs ghbmi, cache4, cache8, cache_gopt and avx512 are left out; the four state words read from input registers in the first operations are read from copies.
- Sha1Context.Context.Update: lengths for which neither j + len nor i + 63 wraps.
- Sha1Context.DigestPieces: pieces of such lengths.
- SHA-1: erasing the local block, and HMAC.
- Hash words: four bytes become a word by shifts and ors of 8-bit vectors; the conversion from the integer byte is a cast.
- Base64: the variant that prints to a file, and the 31-bit limit of its lengths.
- Sockets, event loops, TLS, files, CGI, SSI, WebDAV, logging, the benchmarks and all platform layers: input and output.
- The command line parser, the wrappers over other libraries and the remaining small programs are not modelled: what they do is done by the libraries and system calls behind them, of which this model has no account.
