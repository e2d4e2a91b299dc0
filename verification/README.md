# Verification model of sofa-pbrpc

This project models the parts of sofa-pbrpc whose correctness is argued rather than obvious, and proves what they
are for. `dafny verify dfyconfig.toml` checks all of it.

- **LZ4.** `Lz4Format` gives blocks a meaning: a sequence copies literals and repeats earlier bytes, and a
  byte-at-a-time decoder reads the encoding. `Lz4Compress` is the greedy hash-table compressor in both versions,
  `Lz4Decompress` the two decoders with their eight-byte copies. The compressor's output is the encoding of a block
  that means its input, within the bound including what packet copies overshoot; it is the block that `Lz4Greedy`
  chooses, which says in terms of the input alone where a match is looked for and taken. The fast decoders do what the
  simple one does, on every input, and that one accepts only blocks of the format (`Lz4Accepted`). `BlockStreams`
  carries this to streams of any length and any way of using them.
- **The message stream.** `SendProtocol` is the send token, the two-level queue, partial writes and closing as a
  machine of any number of threads, one shared access at a time; `SendQuota` says what the write quota means for the
  bytes on its wire, `SendProgress` that its threads come to rest and that nothing they are told is lost.
  `FlowControl` is the quota counter and its compare-and-swap loops, `FrameSplitter` the incremental splitter of
  received bytes, `Buffers` the read and the write buffer with their shared blocks, `RequestParsers` the two incremental
  request parsers of the server, and `HttpGrammar` the texts that the HTTP one takes for a request, apart from it.
- **Calls.** `ClientCalls` is the machine of callers, replies, failing sends, timeouts and closing that race to
  complete a call; `CallCauses` says why a call ends as it does, `CallEvents` what each event comes to.
- **JSON.** `JsonText` is the text of a value as printed and as parsed; `JsonReader` and `JsonWriter` are the reader
  with its document and the writer, each proved against it. `JsonGrammar` is the language of the reader and its
  meaning written down independently, byte by byte; the reader accepts exactly that. `JsonShortest` singles out the
  printed text among all texts of a value. `PbJson`, with `Base64`, converts messages to JSON and back, directed by
  their schema, and `PbJsonFields` says field by field what is taken and what is refused.
- **Dynamic channel.** `DynamicChannel` is the live and the unlive map, the moves between them, and the choice of the
  server for the next call.

`Bytes`, `Numerals` and `Common` hold what several of these need.

Eight results say where the code does not do what one would expect of it; each has an input and the exact condition:

- Flushing a compressing stream whose current block was backed up completely leaves its buffer in place, which the
  stream's destructor does not accept (`BlockStreams.OutputStream.Flush`, `BlockStreams.FlushCanLeaveTheBuffer`).
- A corrupt block is not reported as the end of the decompressing stream: Next succeeds with a negative size
  (`BlockStreams.InputStream.Next`, `BlockStreams.CorruptBlockIsNoEnd`).
- With a write limit, a trigger that arrives between a failed acquisition of quota and the release of the token is
  lost: the stream rests with quota and a message waiting (`SendProtocol.TriggerCanBeLost`), and whenever it rests so
  on a connected stream, such a trigger came since the token was taken last (`SendProtocol.LostExactlyWhen`).
- Messages completed in the same chunk as a later bad header are dropped, while in an earlier chunk they are delivered
  (`FrameSplitter.ChunkingMatters`, `FrameSplitter.DroppedWithBadHeader`).
- A reply that reports a failure with the code of success completes its call as a success that has no response buffer,
  which the completion callback relies on (`ClientCalls.SuccessHasResponse`, `ClientCalls.SuccessCanLackResponse`).
- A late failure of a call on a removed server takes the server that was added again under its address out of the
  live map: exactly if the call's own server is removed by the time of the move, even when it was not yet as the
  failure was noted (`DynamicChannel.Channel.MoveFailed`, `DynamicChannel.SuccessorMoved`,
  `DynamicChannel.SuccessorMovedBetween`).

- The number of missing bytes of an HTTP body goes through an int. A call does what the announced length asks for if
  and only if this int is enough for the bytes at hand (`RequestParsers.HttpParser.Parse`, `HttpGrammar.CountedExactly`):
  always below 2^31, and never for 2^32, where the request counts as complete without its body
  (`HttpGrammar.FourGigabytes`).
- A \u escape of a low surrogate without a high one before it is accepted and gives three bytes that are not UTF-8 of
  any character (`JsonGrammar.LoneSurrogate`); every other escape gives a character (`JsonGrammar.CharacterExactly`).

## Model

| member | source | states |
|---|---|---|
| Lz4Format.CopyMatchUnique | src/sofa/pbrpc/lz4.cc:700-728 | any byte string in which each byte of a match equals the one `offset` before it is the result of the byte-by-byte overlapping copy |
| Lz4Format.CopyMatchRepeats | src/sofa/pbrpc/lz4.cc:700-728 | and that copy has this property: each of its bytes equals the one `offset` before it |
| Lz4Format.ReadExtension | src/sofa/pbrpc/lz4.cc:765-766 | a run length that starts with 15 is read on while bytes are 255 and the input lasts; the position never leaves the input |
| Lz4Format.DecodeStep | src/sofa/pbrpc/lz4.cc:765-825 | one token of the bounds-checked decoder, byte at a time: if it goes on, the output has grown, stays within the capacity, and the input has been consumed further |
| Lz4Format.KnownDecodeStep | src/sofa/pbrpc/lz4.cc:679-728 | the same for the decoder that knows the output size and does not check the input |
| Lz4Format.DecodeStepOfSequence | src/sofa/pbrpc/lz4.cc:765-818 | on the encoding of a sequence with room behind it the decoder appends the literals and the match, and stands behind the encoding |
| Lz4Format.DecodeEncode | src/sofa/pbrpc/lz4.cc:740-826 | decoding the encoding of any valid block gives the block's meaning, for every capacity that holds it |
| Lz4Format.KnownDecodeEncode | src/sofa/pbrpc/lz4.cc:657-737 | the decoder that is given the exact size gives the meaning too and consumes exactly the encoding |
| Lz4Format.StepsAgree | src/sofa/pbrpc/lz4.cc:657-826 | on a token whose lengths end inside the input and that is followed by enough input, both decoders do the same |
| Lz4Accepted.DecodedIsBlock | src/sofa/pbrpc/lz4.cc:740-826 | whatever bytes the decoder accepts are sequences of the format, then a run of literals, or the end of the input, maybe within a match length, or of the capacity; and the result is what they mean |
| Lz4Decompress.WordCopyKeepsPeriod | src/sofa/pbrpc/lz4.cc:216-218 | copying a word from any multiple of the period behind keeps a run periodic |
| Lz4Decompress.CopyFirst | src/sofa/pbrpc/lz4.cc:700-716 | the first eight bytes with four single stores and the tables dec and dec2: the run has period `offset`, and the source pointer is a multiple of it behind |
| Lz4Decompress.CopyPackets | src/sofa/pbrpc/lz4.cc:218-218 | eight-byte packets up to the given end keep the run periodic |
| Lz4Decompress.CopyMatchFast | src/sofa/pbrpc/lz4.cc:700-728 | for every offset from 1 on and every length that fits, the fast copy leaves the bytes of the byte-by-byte overlapping copy and nothing changes behind the output; it fails exactly if the match does not fit |
| Lz4Decompress.UncompressUnknownOutputSize | src/sofa/pbrpc/lz4.cc:740-826 | on every input: result and output are those of the simple decoder (unless a match has offset 0), errors report the same position, nothing outside input and capacity is touched |
| Lz4Decompress.Uncompress | src/sofa/pbrpc/lz4.cc:657-737 | result and output are those of the simple decoder for a known size, nothing behind `osize` is written |
| Lz4Greedy.HashIsTopBits | src/sofa/pbrpc/lz4.cc:257-258 | the hash is the top 12, with the narrow table 13, of the low 32 bits of the little-endian word times 2654435761 |
| Lz4Greedy.SearchIsFirst | src/sofa/pbrpc/lz4.cc:400-413 | positions are tried from the first on, attempt k stepping by (67 + k) / 64, up to the last that leaves 12 bytes; the one found is the first at which the latest position with the same hash is in reach and agrees in four bytes, and nothing is found exactly if none of them has that |
| Lz4Greedy.EqualBytes | src/sofa/pbrpc/lz4.cc:395-465 | for 14 or more equal bytes the block is one literal, one match of offset 1 for all the others but the last five, and these |
| Lz4Greedy.EqualBytesWritten | src/sofa/pbrpc/lz4.cc:418-476 | and the bytes of that block, one by one: token, literal, offset with its low byte first, length bytes, last token and literals |
| Lz4Greedy.NoRoom | src/sofa/pbrpc/lz4.cc:374-374 | an input of fewer than 14 bytes is nothing but literals |
| Lz4Compress.FirstDifference | src/sofa/pbrpc/lz4.cc:268-296 | the lowest non-zero byte of the xor of two words says how many of their bytes agree |
| Lz4Compress.EmitExtensionByPairs | src/sofa/pbrpc/lz4.cc:446-449 | the match length written 510 at a time is the length code of the format |
| Lz4Compress.EmitLiterals | src/sofa/pbrpc/lz4.cc:418-425 | token, run length and literals by packet copy: exactly the encoding of the run, all stores inside `dest` |
| Lz4Compress.EmitLast | src/sofa/pbrpc/lz4.cc:467-476 | the last literals are the encoding of the end of the block |
| Lz4Compress.FindMatch | src/sofa/pbrpc/lz4.cc:400-413 | the search with the hash table in place of all earlier positions: it finds exactly what the specification of the search finds, at the first position tried that has a candidate, and nothing exactly if no position has one; the table then holds every position that was tried |
| Lz4Compress.CatchUp | src/sofa/pbrpc/lz4.cc:415-416 | the match is extended backwards as far as the bytes agree, and agrees all the way |
| Lz4Compress.CountMatch | src/sofa/pbrpc/lz4.cc:431-444 | the count by words, then by 4, 2 and 1 bytes ends where the bytes first differ or 5 bytes before the end |
| Lz4Compress.AddSequence | src/sofa/pbrpc/lz4.cc:418-449 | a sequence more, with a maximal match: the meaning grows by the bytes passed, the encoding stays within the bound |
| Lz4Compress.OneMatch | src/sofa/pbrpc/lz4.cc:427-449 | offset and length of a maximal match complete a sequence that means the input up to the match's end |
| Lz4Compress.MatchChain | src/sofa/pbrpc/lz4.cc:427-460 | matches directly after one another, with the table updated at the positions of the source, keep meaning, bound and the order of the table, and are the matches that the greedy choice makes in a row |
| Lz4Compress.Compress | src/sofa/pbrpc/lz4.cc:347-622 | for every input (below the limit for the narrow table) the output encodes a valid block that means the input, offsets are in 1..65535, no match could have been longer at either end, and the end conditions hold, within isize + isize / 255 + 16 bytes of `dest` including overshoot; both decoders give the input back; the block is the one of the greedy choice, so for equal bytes the output is one sequence and five literals, byte for byte |
| Lz4Compress.CompressAny | src/sofa/pbrpc/lz4.cc:626-643 | the same for LZ4_compress, which takes the narrow table below 65547 bytes |
| BlockStreams.ReadEncodedVarint | src/sofa/pbrpc/block_wrappers.cc:71-71 | a 32-bit length prefix that was written is read back |
| BlockStreams.VarintBytes | src/sofa/pbrpc/block_wrappers.cc:71-71 | the length prefix is written seven bits a byte, the low ones first |
| BlockStreams.ChunksOfFrames | src/sofa/pbrpc/block_wrappers.cc:70-79 | a stream of length prefixes and blocks is taken apart into just these blocks |
| BlockStreams.CompressBlock | src/sofa/pbrpc/block_wrappers.cc:211-220 | a block of up to 64 KiB passes the size check of 2 * BLOCKSIZE and decompresses to itself |
| BlockStreams.OutputStream.Next | src/sofa/pbrpc/block_wrappers.cc:143-158 | what was written stays, the region handed out is appended |
| BlockStreams.OutputStream.BackUp | src/sofa/pbrpc/block_wrappers.cc:113-119 | exactly the last `count` bytes are taken back |
| BlockStreams.OutputStream.Flush | src/sofa/pbrpc/block_wrappers.cc:121-141 | everything written is in the blocks sent; the buffer is released unless all of it was backed up |
| BlockStreams.FlushCanLeaveTheBuffer | src/sofa/pbrpc/block_wrappers.cc:121-124 | the buffer does stay after Next, BackUp of all of it, and Flush |
| BlockStreams.InputStream.Next | src/sofa/pbrpc/block_wrappers.cc:60-91 | on any stream: the bytes handed out continue what was delivered and are what the next block stands for; a corrupt block gives the negative of its error position and no bytes; it ends exactly when no further block can be read |
| BlockStreams.InputStream.BackUp | src/sofa/pbrpc/block_wrappers.cc:46-52 | exactly the last `count` bytes will be delivered again |
| BlockStreams.InputStream.DeliveredIsPrefix | src/sofa/pbrpc/block_wrappers.cc:60-91 | after any Next and BackUp, what was delivered is a prefix of what the stream's blocks stand for |
| BlockStreams.WriteAll | src/sofa/pbrpc/block_wrappers.cc:113-158 | bytes of any number written by Next, BackUp and a final Flush are the content of the stream |
| BlockStreams.Through | src/sofa/pbrpc/block_wrappers.cc:46-158 | what goes into the compressing stream comes out of the decompressing one |
| BlockStreams.AnyUse | src/sofa/pbrpc/block_wrappers.cc:46-158 | for any sequence of writes, BackUp and Flush on the one, and of Next and BackUp on the other: what was read, and what is read from there to the end, is what was written |
| BlockStreams.CorruptBlockIsNoEnd | src/sofa/pbrpc/block_wrappers.cc:81-90 | a stream of one corrupt block: Next returns true, with size -1 |
| FlowControl.GrantedBounded | src/sofa/pbrpc/flow_controller.h:58-119 | over any run the bytes granted are at most q0 + n * Q + R - 1 |
| FlowControl.QuotaIsExact | src/sofa/pbrpc/flow_controller.h:58-119 | on every run the quota is exactly the initial one and the recharges less what was granted, one for each refusal, and what recharges found left over |
| FlowControl.RefusedExactlyWhen | src/sofa/pbrpc/flow_controller.h:102-119 | a request is refused exactly if the bytes granted before it, the refusals and what was dropped have used up the initial quota and the recharges |
| FlowControl.FailuresAreOrdered | src/sofa/pbrpc/flow_controller.h:102-119 | between recharges later failures get strictly smaller tokens |
| FlowControl.LoopsAreAtomic | src/sofa/pbrpc/flow_controller.h:58-119 | under any schedule of the compare-and-swap loops, each call that returned has its own place in the order of the swaps, with its own request there, and got what it would get if the calls ran one at a time in that order |
| FlowControl.LoopsGrantBounded | src/sofa/pbrpc/flow_controller.h:58-119 | and what the loops grant under any schedule sums up to at most q0 + n * Q + R - 1 |
| SendProtocol.ControlStep | src/sofa/pbrpc/rpc_message_stream.h:283-587 | every step keeps the token and the queue lock exclusive, and the pending count equal to the queue's length outside the lock |
| SendProtocol.InvariantOnRuns | src/sofa/pbrpc/rpc_message_stream.h:283-587 | exclusion, order, delivery and the watch over waiting messages hold in every state of every run |
| SendProtocol.RecheckKeepsWatch | src/sofa/pbrpc/rpc_message_stream.h:549-584 | the recheck of the pending count after releasing the token covers the race described there |
| SendProtocol.NoLostSend | src/sofa/pbrpc/rpc_message_stream.h:360-371 | without a write limit, while a message waits on a connected stream the token is held or some thread still has to try for it or recheck the queue |
| SendProtocol.QuietMeansSent | src/sofa/pbrpc/rpc_message_stream.h:497-587 | when a connected stream comes to rest: a message waits although quota is there if and only if a trigger came early; without a limit none waits; and if none waits, everything enqueued was sent or cancelled and the socket took exactly the uncancelled messages in order |
| SendProtocol.RacedIsEarly | src/sofa/pbrpc/rpc_message_stream.h:527-535 | what the machine records as an early trigger is one in the run: since the token was taken last, a trigger came while a thread was between putting its message back and releasing the token |
| SendProtocol.LostExactlyWhen | src/sofa/pbrpc/rpc_message_stream.h:497-587 | a connected stream rests with quota and a message waiting if and only if the run has such a trigger since the token was taken last |
| SendProtocol.WireInOrder | src/sofa/pbrpc/rpc_message_stream.h:283-355 | in every run, limited or not, with any partial writes: the bytes on the wire are a prefix of the uncancelled messages in enqueue order, and done, current and queued messages are exactly the enqueued ones |
| SendQuota.QuotaBalance | src/sofa/pbrpc/rpc_message_stream.h:527-528 | on every run of a limited stream, the quota is exactly what it was at first and was recharged, less the bytes of the messages whose sending was started, one for each refusal, and what recharges found left over |
| SendQuota.RefusedExactlyWhen | src/sofa/pbrpc/rpc_message_stream.h:527-535 | a message is refused quota exactly if those bytes, refusals and leftovers have used up what there was |
| SendQuota.QuotaLimits | src/sofa/pbrpc/rpc_message_stream.h:527-528 | with an initial quota and recharges that are not negative and messages of at most R bytes, the messages whose sending was started, and so the bytes on the wire, come to at most the quota handed out and R - 1 bytes |
| SendProgress.RefusedIsCancelled | src/sofa/pbrpc/rpc_message_stream.h:514-526 | a message is cancelled when on_sending refuses it, and in no other step |
| SendProgress.CancelledWasRefused | src/sofa/pbrpc/rpc_message_stream.h:514-526 | on every run each cancelled message was refused when it was the one being sent, at its place in the order |
| SendProgress.StepCounts | src/sofa/pbrpc/rpc_message_stream.h:283-587 | every step of a thread, from any state that threads can bring about, leaves it fewer messages to deal with, or as many and fewer steps to the next |
| SendProgress.AloneEnds | src/sofa/pbrpc/rpc_message_stream.h:497-587 | so a thread that runs alone comes to rest, or to a lock held by another one, within 23 steps a message |
| SendProgress.SendTakesEffect | src/sofa/pbrpc/rpc_message_stream.h:87-102 | a message that is sent on an open stream has entered the queue when the threads are at rest |
| SendProgress.CloseTakesEffect | src/sofa/pbrpc/rpc_message_stream.h:283-312 | a closed stream stays closed, and a failed write has closed it when the threads are at rest |
| SendProtocol.EarlyTriggerIsLost | src/sofa/pbrpc/rpc_message_stream.h:527-535 | from every state where a message has just been put back for lack of quota, a trigger before the release leaves the stream at rest with the message waiting |
| SendProtocol.TriggerCanBeLost | src/sofa/pbrpc/rpc_message_stream.h:151-155 | such a run exists from every initial state with a limit, no quota and two threads |
| FrameSplitter.FramesOfConcat | src/sofa/pbrpc/rpc_message_stream.h:595-653 | what a prefix of the stream holds stays, and the unfinished rest is read with what follows |
| FrameSplitter.Splitter.Process | src/sofa/pbrpc/rpc_message_stream.h:595-710 | a chunk yields exactly the frames that the held bytes and the chunk contain, and what is unfinished is held; it fails exactly at a bad header |
| FrameSplitter.FeedAll | src/sofa/pbrpc/rpc_message_stream.h:250-279 | chunk after chunk, the messages are those of the specification of feeding |
| FrameSplitter.ChunkingIrrelevant | src/sofa/pbrpc/rpc_message_stream.h:595-710 | however a well-formed stream is cut up, the same messages come out and the same bytes are left over |
| FrameSplitter.ChunkingMatters | src/sofa/pbrpc/rpc_message_stream.h:250-279 | all ways of cutting give the same messages if and only if no bad header follows a complete message |
| FrameSplitter.DroppedWithBadHeader | src/sofa/pbrpc/rpc_message_stream.h:250-279 | a message and a header of zeros: in one chunk nothing is delivered, in two the message is |
| FrameSplitter.WrittenIsReceived | src/sofa/pbrpc/rpc_message_header.h:17-35 | messages written with their headers are received, in order and completely, from any chunks |
| FrameSplitter.HeaderBytes | src/sofa/pbrpc/rpc_message_header.h:17-35 | a sent header byte by byte: SOFA, then sizes of four, eight and eight bytes, each with its low byte first |
| FrameSplitter.BadHeaderExactly | src/sofa/pbrpc/rpc_message_stream.h:660-706 | any 24 bytes are refused exactly if these letters, or the sum of the signed sizes, are not right |
| Buffers.ReadBuffer.Append | src/sofa/pbrpc/buffer.cc:32-40 | the block's bytes come behind the content, and its count of owners grows by one |
| Buffers.ReadBuffer.Next | src/sofa/pbrpc/buffer.cc:84-102 | the piece returned is the content between the old and the new cursor; it fails only at the end |
| Buffers.ReadBuffer.BackUp | src/sofa/pbrpc/buffer.cc:106-118 | the cursor goes back by `count` |
| Buffers.ReadBuffer.Skip | src/sofa/pbrpc/buffer.cc:121-137 | the cursor moves by `count` if that much is left, else to the end, and the result says which |
| Buffers.OverwritePiece | src/sofa/pbrpc/buffer.cc:242-259 | overwriting inside one block overwrites the content at that block's start plus the offset |
| Buffers.WriteBuffer.Next | src/sofa/pbrpc/buffer.cc:262-280 | the content grows by the region handed out; all blocks but the last stay full |
| Buffers.WriteBuffer.BackUp | src/sofa/pbrpc/buffer.cc:284-292 | the last `count` bytes are given back |
| Buffers.WriteBuffer.Reserve | src/sofa/pbrpc/buffer.cc:196-217 | exactly `count` bytes more from the old end on; without memory the content may have grown by less |
| Buffers.WriteBuffer.SetData | src/sofa/pbrpc/buffer.cc:219-260 | exactly the bytes from `pos` to `pos + size` change, across blocks |
| Buffers.WriteBuffer.Append | src/sofa/pbrpc/buffer.cc:318-329 | the content is the old content and the data |
| Buffers.WriteBuffer.SwapOut | src/sofa/pbrpc/buffer.cc:177-194 | the written bytes, and nothing else, move behind the reader's content, and for every block the count exceeds the handles of the two buffers by as much as before |
| Buffers.SwapOutAmong | src/sofa/pbrpc/buffer.cc:177-194 | among any number of other buffers: if every block counts exactly the handles on it, it still does after SwapOut |
| Buffers.AppendAmong | src/sofa/pbrpc/buffer.cc:32-40 | the same for a reader that takes over a block of another buffer |
| Buffers.NextAmong | src/sofa/pbrpc/buffer.cc:262-280 | the same for a writer's Next, which may allocate a block |
| RequestParsers.FeedConcat | src/sofa/pbrpc/http_rpc_request_parser.cc:55-113 | feeding two chunks is feeding their concatenation, in the parser reached and in the bytes taken |
| RequestParsers.BinaryParser.Parse | src/sofa/pbrpc/binary_rpc_request_parser.cc:50-130 | the copies of header and body parts do what the bytes one by one do; 1 exactly at a complete request whose meta parses |
| RequestParsers.HttpParser.ParseInternal | src/sofa/pbrpc/http_rpc_request_parser.cc:120-234 | a character does to the fields what the specification of one byte says, which HttpRequest and HttpAccepted pin down, and the result tells the end of the header and errors |
| RequestParsers.HttpParser.Parse | src/sofa/pbrpc/http_rpc_request_parser.cc:55-113 | a chunk does what its bytes one by one do, up to the last byte of the request, if and only if the int of the missing bytes is enough for it |
| RequestParsers.ReceiveHttp | src/sofa/pbrpc/http_rpc_request_parser.cc:55-113 | any non-empty chunks for which that int is enough, as it is for every length below 2^31, give the result, the fields and the bytes consumed of their concatenation |
| RequestParsers.CountedBelowLimit | src/sofa/pbrpc/http_rpc_request_parser.cc:92-111 | the int is enough for any bytes of a request whose length is below 2^31 |
| RequestParsers.ReceiveBinary | src/sofa/pbrpc/binary_rpc_request_parser.cc:50-130 | the same for the binary parser; a complete request whose meta does not parse gives -1 |
| RequestParsers.BinaryRequest | src/sofa/pbrpc/binary_rpc_request_parser.cc:50-130 | a header and the payload it announces are read as that, and no byte behind them |
| RequestParsers.BinaryRefused | src/sofa/pbrpc/binary_rpc_request_parser.cc:88-100 | a header that announces a negative size, or more than 64 MiB and a header, is refused with the next byte |
| HttpGrammar.ContentLengthExactly | src/sofa/pbrpc/http_rpc_request_parser.cc:203-214 | a Content-Length is taken as n exactly if it is white space, a sign and decimal digits of the number n and nothing else, a number beyond int64 counting as the largest, or is empty and n is 0 |
| HttpGrammar.DecimalSpells | src/sofa/pbrpc/http_rpc_request_parser.cc:203-214 | the decimal form of every n below 2^63 is taken as n |
| HttpGrammar.HttpRequest | src/sofa/pbrpc/http_rpc_request_parser.cc:120-234 | a request written out, whose last Content-Length line spells the length of its body or which has no such line and no body, is read with its path, version, headers (the last of equal names), type and body, and no byte behind it |
| HttpGrammar.HttpAccepted | src/sofa/pbrpc/http_rpc_request_parser.cc:120-234 | and the parser finishes on nothing else: the bytes it took are the text of such a request |
| HttpGrammar.LengthRefused | src/sofa/pbrpc/http_rpc_request_parser.cc:203-214 | a Content-Length that spells no number gives -1 at the end of the header |
| HttpGrammar.CountedExactly | src/sofa/pbrpc/http_rpc_request_parser.cc:92-111 | the int that counts the missing bytes is enough for a header and some bytes of the body exactly if the announced length is below 2^31, or its low 32 bits are a positive int that these bytes do not exceed, or are a negative one and there is no byte of the body yet |
| HttpGrammar.FourGigabytes | src/sofa/pbrpc/http_rpc_request_parser.cc:92-98 | for a length of 2^32 it is not enough for any bytes |
| ClientCalls.Controller.Done | src/sofa/pbrpc/rpc_controller_impl.h:215-229 | the first call sets the result and runs every callback once, in reverse order; later calls change nothing |
| ClientCalls.CoveredStep | src/sofa/pbrpc/rpc_client_stream.h:56-154 | every step keeps: a started call is done, about to be finished by some thread, or in the map of a stream whose closing will find it |
| ClientCalls.TidyStep | src/sofa/pbrpc/rpc_client_stream.h:84-154 | every step keeps: a done call that is still in the map is about to be taken out by some thread or waits in the send queue |
| ClientCalls.InvariantOnRuns | src/sofa/pbrpc/rpc_client_stream.h:56-286 | the invariant holds in every state of every run |
| ClientCalls.CompletedAtMostOnce | src/sofa/pbrpc/rpc_controller_impl.h:215-229 | in any interleaving a call's callbacks run at most once, exactly if its result is set, and the result never changes |
| ClientCalls.ClosedAndQuiet | src/sofa/pbrpc/rpc_client_stream.h:92-113 | once the stream is closed and nothing is in progress, every call ever passed to call_method has completed exactly once and the map is empty |
| ClientCalls.TableIsPending | src/sofa/pbrpc/rpc_client_stream.h:73-89 | when nothing is in progress or queued, the map holds exactly the calls that are not completed |
| ClientCalls.SuccessHasResponse | src/sofa/pbrpc/rpc_client_stream.h:236-286 | a call that completed without error has its response buffer, which the completion callback relies on, if and only if its reply did not report a failure with the code of success |
| ClientCalls.SuccessCanLackResponse | src/sofa/pbrpc/rpc_client_stream.h:236-286 | a run, for any call, that ends at rest with a success without its buffer |
| CallCauses.ResultHasCause | src/sofa/pbrpc/rpc_error_code.h:12-24 | on every run a completed call has the error code of something that happened to it: that of a reply to it (0, the code it gives, or 2 for one that lacks a field), 11 for its timeout, 9 for a failed write of it, 10 for the closing of the stream |
| CallEvents.TimeoutTakesEffect | src/sofa/pbrpc/rpc_timeout_manager.h:201-219 | a call that has timed out is completed when the threads are at rest |
| CallEvents.ReplyTakesEffect | src/sofa/pbrpc/rpc_client_stream.h:193-286 | so is a call that had a reply while it was in the map, and it has left the map |
| CallEvents.FailedWriteTakesEffect | src/sofa/pbrpc/rpc_message_stream.h:296-312 | a failed write on an open stream completes its call and closes the stream |
| CallEvents.CloseTakesEffect | src/sofa/pbrpc/rpc_client_stream.h:92-113 | after a close, at rest, every call ever started has completed once and the map is empty |
| CallEvents.CallCanSucceed | src/sofa/pbrpc/rpc_client_stream.h:56-286 | a run in which a call is queued, written and answered, and ends with its response and nothing left behind |
| JsonText.ReadDecimal | src/rapidjson/reader.h:485-566 | printed digits are read back to their number |
| JsonText.NumberRoundTrip | src/rapidjson/writer.h:115-157 | every integer from -2^63 to 2^64 - 1 is read back exactly |
| JsonText.CharsRoundTrip | src/rapidjson/writer.h:172-203 | a string of any bytes, NUL and control characters included, is read back |
| JsonText.ValueRoundTrip | src/rapidjson/document.h:494-529 | the printed form of any value without doubles is read back as that value wherever it stands in a text |
| JsonText.RoundTrip | src/rapidjson/reader.h:221-254 | parsing the whole text of any object or array without doubles gives the same tree: order, names, bytes and integers |
| JsonGrammar.Utf8Is | src/rapidjson/rapidjson.h:340-361 | for every code point the bytes have the number, the lead byte and the continuation bytes of UTF-8, and their payload bits give the code point |
| JsonGrammar.Utf8Unique | src/rapidjson/rapidjson.h:340-361 | and no other bytes do |
| JsonGrammar.CharRead | src/rapidjson/reader.h:387-482 | every way to write a character is read as what it means: a plain byte, each of the eight short escapes, any four hexadecimal digits, large or small, and surrogate pairs |
| JsonGrammar.CharOf | src/rapidjson/reader.h:387-482 | whatever is read as a character is written in one of these ways |
| JsonGrammar.LoneSurrogate | src/rapidjson/reader.h:425-449 | a low surrogate alone is accepted and becomes three bytes |
| JsonGrammar.CharacterExactly | src/rapidjson/reader.h:425-449 | apart from pairs, an escape gives a character exactly if it is no low surrogate |
| JsonGrammar.NumberExactly | src/rapidjson/reader.h:485-649 | digits without a leading zero make a double exactly if a point or an exponent follows or their value does not fit 64 bits |
| JsonGrammar.TextAccepted | src/rapidjson/reader.h:221-328 | every text of the grammar, an array or object of any depth with white space wherever it may stand, is accepted with its meaning |
| JsonGrammar.AcceptedText | src/rapidjson/reader.h:221-328 | every accepted text is one of the grammar, up to the end or the first NUL behind it |
| JsonGrammar.AcceptedExactly | src/rapidjson/reader.h:221-254 | the reader gives a value for a text exactly if the text spells this value in the grammar |
| JsonShortest.CharShortest | src/rapidjson/writer.h:172-203 | no way to write a character is shorter than the printed one, and no other as short is without small hexadecimal letters |
| JsonShortest.TextShortest | src/rapidjson/document.h:494-529 | the same for every value: among all texts that mean it the printed one is the shortest, and the only one of its length with capital hexadecimal letters |
| JsonShortest.PrintedIsText | src/rapidjson/document.h:494-529 | the printed form of an array or object is itself such a text, without white space around it |
| Numerals.DecimalIs | src/rapidjson/writer.h:123-157 | the printed decimal form is the only way to write a number without leading zeros |
| JsonReader.FlagsAreExact | src/rapidjson/document.h:73-110 | each of the four integer constructors sets exactly the flags of the integer types that hold the number |
| JsonReader.Reader.ParseUnicode | src/rapidjson/reader.h:425-449 | a \u escape, or a pair that makes a surrogate pair, becomes the bytes of the specification, which by JsonGrammar.CharRead are the UTF-8 form of the code point that the digits give |
| JsonReader.Reader.ParseString | src/rapidjson/reader.h:387-482 | the unescaped string is pushed and the cursor is behind the quote, or it is an error exactly where the specification says so |
| JsonReader.Reader.Digits32 | src/rapidjson/reader.h:501-524 | 32-bit accumulation never overflows and stops exactly at the digit with which it would |
| JsonReader.Reader.Digits64 | src/rapidjson/reader.h:530-553 | the same for 64 bits; the switch to double is exactly at the digit that leaves the range |
| JsonReader.Reader.ParseNumber | src/rapidjson/reader.h:485-649 | an integer in range is pushed with its exact value; a double is met exactly for a fraction, an exponent or a number out of range |
| JsonReader.Reader.ParseArray | src/rapidjson/reader.h:305-328 | the elements are parsed and the array is built on the stack, errors included |
| JsonReader.Reader.ParseObject | src/rapidjson/reader.h:263-301 | the members are parsed and the object is built on the stack, errors included |
| JsonReader.Reader.ParseValue | src/rapidjson/reader.h:656-666 | the value that starts here is pushed, and the cursor is behind it |
| JsonReader.Reader.Parse | src/rapidjson/reader.h:221-254 | the reader accepts exactly the specified texts, which by JsonGrammar.AcceptedExactly are those of the grammar, and leaves exactly the value on the stack |
| JsonReader.ParseStream | src/rapidjson/document.h:709-724 | reading the printed text of any object or array without doubles gives that value |
| JsonWriter.Writer.Prefix | src/rapidjson/writer.h:210-226 | commas and colons are put where the number of values on the level asks for them |
| JsonWriter.Writer.WriteDigits | src/rapidjson/writer.h:123-157 | the digits from the reversed buffer are the decimal form, and the buffer is large enough |
| JsonWriter.Writer.WriteInt | src/rapidjson/writer.h:115-143 | sign and magnitude, also for the least integer, whose negation wraps |
| JsonWriter.Writer.WriteString | src/rapidjson/writer.h:172-203 | the quoted and escaped form of the string |
| JsonWriter.Accept | src/rapidjson/document.h:494-529 | the events of a value print its text behind the separator due, and count it once on its level |
| JsonWriter.Reprinted | src/rapidjson/reader.h:221-254 | any accepted text, printed from its tree and read again, gives the same tree |
| JsonWriter.WriteAndRead | src/rapidjson/document.h:494-529 | writer and reader one after the other give the value back |
| Base64.B64Encode | src/sofa/pbrpc/bin2ascii.h:68-94 | the loop gives the letters of the groups of three and the padding |
| Base64.B64Decode | src/sofa/pbrpc/bin2ascii.h:96-139 | the loop gives the bytes of the groups of four, or the error of the size or of the first bad group |
| Base64.RoundTrip | src/sofa/pbrpc/bin2ascii.h:68-139 | every byte string comes back |
| Base64.EncodeExactly | src/sofa/pbrpc/bin2ascii.h:68-94 | group by group, four characters carry the 24 bits of three bytes, the first ones uppermost, in the alphabet A-Z, a-z, 0-9, + and /, with = in place of what the last group lacks |
| Base64.LookupExactly | src/sofa/pbrpc/bin2ascii.h:96-139 | the table gives for each letter of that alphabet what it stands for, 0 for =, and nothing else |
| Base64.QuadExactly | src/sofa/pbrpc/bin2ascii.h:96-139 | four characters give the bytes of their 24 bits, of which an = in the third or fourth place drops its own |
| Base64.DecodedExactly | src/sofa/pbrpc/bin2ascii.h:96-139 | what is decoded at all: whole groups of letters of the alphabet or =, wherever this stands |
| PbJson.DecodeEncode | src/sofa/pbrpc/pbjson.cc:50-510 | for every schema, nested and repeated fields included: converting a message to JSON and back into an empty message gives it with its unset required fields filled with their defaults |
| PbJson.RoundTrip | src/sofa/pbrpc/pbjson.cc:50-510 | the message itself comes back if and only if all required fields are set in it and in every message inside |
| PbJsonFields.PlainExactly | src/sofa/pbrpc/pbjson.cc:284-460 | a JSON value is taken for a field exactly if it spells a value of the kind: integers in the range of the type, enums by a number they have or by name, booleans, strings, and base64; and it is told how anything else is refused |
| PbJsonFields.UnknownMember | src/sofa/pbrpc/pbjson.cc:481-486 | a member whose name no field has is refused as an unknown field |
| PbJsonFields.PlainMember | src/sofa/pbrpc/pbjson.cc:479-508 | a member sets its field to what its value spells, or adds what the elements of its array spell, in order, and changes no other field; it is refused exactly if there is no such value |
| PbJsonFields.MessageMember | src/sofa/pbrpc/pbjson.cc:430-434 | a member for a message field is read into the message that is there, or into an empty one, and changes no other field |
| PbJsonFields.MembersInOrder | src/sofa/pbrpc/pbjson.cc:479-509 | members are taken in order, and the first that is refused decides |
| PbJson.DecodePlain | src/sofa/pbrpc/pbjson.cc:284-460 | what a value is accepted as fits the field's type |
| PbJson.Decode | src/sofa/pbrpc/pbjson.cc:467-510 | from any JSON, what is read fits the message's type |
| PbJson.ParseMsg | src/sofa/pbrpc/pbjson.cc:238-275 | the loop over the fields builds the object of the specification |
| PbJson.Field2Json | src/sofa/pbrpc/pbjson.cc:50-236 | one field, repeated or not, set or by default |
| PbJson.ParseJson | src/sofa/pbrpc/pbjson.cc:467-510 | the loop over the members sets and adds fields as specified and stops at the first error |
| PbJson.Json2Field | src/sofa/pbrpc/pbjson.cc:278-465 | one value is set or added; a message field is read into what is there |
| PbJson.ThroughText | src/sofa/pbrpc/pbjson.cc:520-549 | through the printed text, too, the message comes back if and only if it is complete |
| DynamicChannel.Channel.OnAddressAdded | src/sofa/pbrpc/dynamic_rpc_channel_impl.cc:214-279 | new addresses start live with new contexts, everything else stays; the maps still partition the added set |
| DynamicChannel.Channel.OnAddressRemoved | src/sofa/pbrpc/dynamic_rpc_channel_impl.cc:281-356 | exactly the given addresses leave the maps and the set, their contexts are marked, and the checks never fail |
| DynamicChannel.Channel.MoveToUnlive | src/sofa/pbrpc/dynamic_rpc_channel_impl.cc:482-505 | the context of a live address moves with its flag, any other address changes nothing |
| DynamicChannel.Channel.MoveToLive | src/sofa/pbrpc/dynamic_rpc_channel_impl.cc:507-528 | the same the other way |
| DynamicChannel.Channel.MoveFailed | src/sofa/pbrpc/dynamic_rpc_channel_impl.cc:367-368 | the move after a failure, whatever ran since the flag was read: it takes another context than the call's out of the live map if and only if that one is removed by then |
| DynamicChannel.Channel.CallDone | src/sofa/pbrpc/dynamic_rpc_channel_impl.cc:358-375 | run alone: a failure moves the live context of the address, and leaves the call's own context in the unlive map unless it was removed |
| DynamicChannel.SuccessorMoved | src/sofa/pbrpc/dynamic_rpc_channel_impl.cc:358-375 | a server that never had a call becomes unlive by the late failure of a call on its removed predecessor |
| DynamicChannel.SuccessorMovedBetween | src/sofa/pbrpc/dynamic_rpc_channel_impl.cc:367-368 | it does as well when the predecessor is removed only between the reading of the flag and the move |
| DynamicChannel.Channel.MoveDetected | src/sofa/pbrpc/dynamic_rpc_channel_impl.cc:587-591 | the move after a healthy answer, whatever ran since the flags were read: it makes another context than the probed one live if and only if that one is removed by then |
| DynamicChannel.Channel.DetectCallback | src/sofa/pbrpc/dynamic_rpc_channel_impl.cc:581-595 | run alone: a healthy answer makes a context live if and only if it is the unlive one of its address |
| DynamicChannel.LessExactly | src/sofa/pbrpc/dynamic_rpc_channel_impl.cc:395-396 | the order in which the scan meets the servers: one address is before another at the first difference, or as a beginning of it |
| DynamicChannel.Channel.ChooseLive | src/sofa/pbrpc/dynamic_rpc_channel_impl.cc:391-425 | the scan finds the least (wait count, last request, address), and its wait count decides whether all are at capacity |
| DynamicChannel.Channel.ChooseUnlive | src/sofa/pbrpc/dynamic_rpc_channel_impl.cc:433-463 | the scan finds the least (last request, address), servers whose last request succeeded first |
| DynamicChannel.Channel.ChooseServer | src/sofa/pbrpc/dynamic_rpc_channel_impl.cc:386-480 | in the fields of the contexts: no live server has fewer calls waiting than the chosen one, a server without a channel having none, and among those with as many its last request is the earliest; of unlive servers one whose last request succeeded comes first, then the earliest. With counters below their greatest values: busy if and only if there is a capacity and every live server, of which there is one, has a channel with as many calls waiting; unavailable if and only if there is no server; an unlive one only if none is live |
| DynamicChannel.Channel.CallMethod | src/sofa/pbrpc/dynamic_rpc_channel_impl.cc:127-207 | the retry loop ends with a server that goes before all others of its map in these fields as the maps are left, initialized and with the next request number; what it moved to the unlive map got no channel; at the first try it is the least live server. It ends without one only if all live servers are busy, or after four tries that each moved a live server away, if there was one, the last for want of a channel or of any server |
| DynamicChannel.RoundRobin | src/sofa/pbrpc/dynamic_rpc_channel_impl.cc:201-201 | with a fixed set of equally busy live servers, taking the least one does not come back to a server before every other one had a turn |
| DynamicChannel.CallsInTurn | src/sofa/pbrpc/dynamic_rpc_channel_impl.cc:127-207 | n calls of CallMethod, for any n: with k equally busy live servers below capacity, any k consecutive calls go to k different servers |

## Left out

- Integer widths: lengths and counters are unbounded where the source has int or int64, except where the width matters
  (hash values, 16-bit offsets and table entries, all numbers of JSON, header fields); LZ4 inputs of 2^31 bytes and more
  are therefore not covered.
- Lz4Decompress.Uncompress: is stated for inputs on which the unchecked decoder stays inside its input and meets no
  offset 0; outside of that the source reads memory that is not its own.
- Lz4Decompress.UncompressUnknownOutputSize: with a match of offset 0 the output depends on what was in the buffer;
  only the bounds are stated then.
- LZ4 on big-endian and 32-bit machines, and the heap mode of the compressor's context.
- Snappy, zlib and gzip streams; the coded streams of protobuf around the blocks, of which only the varint is modelled,
  without total byte limits and `reset_input_stream`.
- SendProtocol.NoLostSend: is restricted to streams without a write limit; it fails with one, and LostExactlyWhen says when.
- SendProtocol: memory is sequentially consistent; what only the token's holder touches moves together with the access
  next to it; data sizes and other statistics of the queues, the receive token and connection setup are not modelled.
- FrameSplitter.BadHeaderExactly: adds the sizes without the bounds of int64.
- FrameSplitter.Splitter.Process: does not cover headers with a negative message size, which the source does not check.
- RequestParsers.BinaryParser.Parse: what protobuf says about the meta is a parameter; the byte count after an error is
  not stated, as callers do not use it.
- RequestParsers.HttpParser.Parse: the split of the path into method, query and fragment. Where the int of the missing bytes
  is negative, the check in ReadBuffer::Append fails, and what is left of the parser then is not modelled.
- RequestParsers.ReceiveHttp: says nothing about what comes after a call for which that int was not enough.
- Choosing a parser by the first four bytes, and the server's loop over requests.
- Buffers.WriteBuffer.Next: the caller's own stores into the region are not modelled, SetData is; totals of capacity and
  block size are left out, and blocks get any positive capacity.
- ReadBuffer's appending of another ReadBuffer and its destructor, which loop over what Append does.
- ClientCalls: sequence ids are distinct; what callbacks do is not modelled, only that and in which order they run; sending is any
  thread taking the next message, as SendProtocol covers how; `StartCancel`, which the source does not implement.
- JsonGrammar.AcceptedExactly: covers texts without doubles.
- JSON doubles, in printing and parsing; the in-situ and SIMD variants; allocators and stack growth. Where the text holds
  a double the model of the reader stops.
- PbJson.DecodeEncode: float and double fields and extensions are not modelled; required fields of message type must
  not be nested without end, as no such message could be complete.
- The message that a failing `jsonobject2pb` has filled in part.
- DynamicChannel.Channel.CallDone: describes the method run alone; what other threads can do between its reading of the
  flag and the move is the subject of MoveFailed. The same goes for DetectCallback and MoveDetected.
- DynamicChannel.Channel.CallMethod: describes the method run alone; its regions under the locks keep the invariant of
  the maps in any interleaving.
- DynamicChannel.Channel.ChooseServer: with counters at their greatest values the source's scan passes over servers; what it
  chooses then is stated through SomeLive and SomeUnlive.
- DynamicChannel.CallsInTurn: calls do not end in between, and channels can be set up; wait counts stay as they are.
- DynamicChannel: `Stop`, timers and the sending of probes; wait counts of the channels are inputs.
- BlockStreams.InputStream.Next: where a block has a match of offset 0, only the size is bounded; the position after the
  end is not modelled, as callers stop there.
- BlockStreams.InputStream.BackUp: takes back no more than the last Next handed out; after a corrupt block the source's
  own check compares with the negative size taken as a size_t, and does not hold the caller to that.
- Buffers: that ReadBuffer's destructor and the pool return every block at count 0 is not modelled.
- Sockets, timers, thread groups, logging, profiling, web pages and the command line tools.
