# Verification of the workflow-step-by-step engine

`workflow-step-by-step/src` is an asynchronous task engine in C and C++.  This project
models its hand-written data structures and lock protocols in Dafny and proves what they
are meant to keep.  `dafny verify dfyconfig.toml` checks all files.

## What is modelled

* **Red-black tree with parent pointers** (`RbTree`, `RbHeap`).  `RbTree` describes a tree
  with a focus: a subtree and the path from it to the root.  Each loop turn of
  `rbtree.c` is one function on it, and the invariants are proved there.  `RbHeap` has the
  nodes with their four fields and the loops as they are, and proves that they compute
  those functions in place.
* **Incremental HTTP/1.1 parser, printer and chunk walker** (`CString`, `HttpSpec`,
  `HttpAppend`, `HttpParser`, `HttpHeaders`, `HttpEncode`, `HttpMessage`, `HttpFraming`,
  `HttpChunks`, `Numerals`, `HttpHead`, `HttpBody`, `HttpGrammar`,
  `HttpRefusals`).  `HttpSpec` and
  `HttpAppend` are the parser as functions on its state and the buffered bytes;
  `HttpParser` is the struct with its scanning loops, proved to compute them, and
  `HttpHeaders` has the header lines with their buffers; `HttpFraming` says what start line
  and headers decide.  `Numerals`, `HttpHead`, `HttpBody` and `HttpGrammar` write down, without
  the parser, the texts that it accepts, and prove that it accepts those and no others; `HttpRefusals` says when a line is malformed.
  Framing
  follows section 3.3.3 of RFC 7230 and chunked coding section 4.1 of RFC 7230, as far as
  the code does.  Bytes are characters below 256; sizes wrap at 2^64 where the code adds
  them.
* **Load-balancing scheduler** (`SchedHeap`, `SchedRuns`, `SchedLocks`).  The first has the
  heap in place, with the index kept in each target; the second shows that its
  critical sections over several groups are runs of a plain table; the third is a state
  machine of any number of threads, one atomic step at a time, for the locking that puts
  those sections one after the other.
* **Poller** (`PollerTimers`, `PollerQueue`).  The sorted list, the timeout tree on top of
  `RbHeap`, the timer and the descriptor table act as one map from nodes to deadlines; the
  two-list result queue is a state machine of producers and consumers.
* **Executor on the thread pool** (`Executor`): clients, workers and `deinit` as a state
  machine, with the intermediate states in which a queue's mutex is held.
* **Reference-counted cache** (`LruCache`), **series of tasks** (`Workflow`),
  **router breaker** (`RouteManager`, on the group of `SchedHeap`) and **upstream breaker**
  (`UpstreamManager`): classes with the fields of the source.

The clock, the answers of the system (`epoll`, `malloc` in `thrdpool_schedule`,
`create_target`) and the orders that `std::shuffle` makes are parameters.  Intrusive lists,
`std::vector` and `std::map` are sequences and maps in fields; a ghost field records what
was put, taken, freed or deleted where a statement needs the past.

## What does not hold

* `http_parser_append_message` does not consume exactly for every announced length: when
  header size plus `Content-Length` wraps around in `size_t`, the count is not within the
  call.  `HttpAppend.ExactConsumption` gives the exact condition, and
  `HttpEncode.ConsumptionCanWrap` a request of 46 bytes.
* The chunk cursor reads size lines as C strings, the parser by length: a NUL after the
  number, which the parser accepts, makes `strchr` return NULL, and the cursor faults.
  `HttpChunks.CursorFollowsParser` gives the exact condition, and
  `HttpChunks.NulMisleadsCursor` a request of 59 bytes.
* The parser does not ask for a line end behind the data of a chunk, as section 4.1 of
  RFC 7230 does: any two bytes are stepped over.  `HttpBody.BodyEnds` and `HttpBody.BodyFound`
  give the accepted texts exactly.
* A full cache declines to take what is put, even for a key that it has: `get` finds the
  handle last put if and only if there was no limit or room when it was put.
  `LruCache.LRUCache.Put` states this, and `LruCache.PutTwice` is a run with a limit of 1.
* `Executor::deinit` does not handle every session that was accepted: its two loops save
  the next entry before they call back, and a session that is cancelled may request the next
  one of its series.  When its queue's list is then empty and the pool task being cancelled
  was the last, the new pool task is behind both loops and is freed unseen.
  `Executor.HandledExactlyOnce` gives the exact condition, and `Executor.LostSession` a run.
* `nbreak` of an upstream group is not always the length of its list: `notify_available`
  unlinks without counting.  `UpstreamManager.UpstreamGroup.ExactBreaks` gives the exact
  condition, `UpstreamManager.BreakAndRecover` a run; as an upper bound `nbreak` is still
  enough for the early return of the check.

## Model

| member | source | states |
|---|---|---|
| RbTree.ValidPlug | workflow-step-by-step/src/kernel/rbtree.c:68-131 | A tree is a valid red-black tree exactly when the focused subtree and the path around it are: the bridge between the global invariant and one loop turn |
| RbTree.InsertRecolorFits | workflow-step-by-step/src/kernel/rbtree.c:79-88 | Recolouring under a red uncle moves the only red-red edge two levels up, keeps black heights and the order |
| RbTree.InsertRotatedFits | workflow-step-by-step/src/kernel/rbtree.c:90-127 | Both rotation cases, inner and outer, on both sides, end the loop with a valid tree and the same order |
| RbTree.InsertFixCorrect | workflow-step-by-step/src/kernel/rbtree.c:68-131 | Insert fix-up from any single red-red clash gives a valid red-black tree (root black, no red-red edge, equal black heights) with the same in-order sequence |
| RbTree.RedSiblingFits | workflow-step-by-step/src/kernel/rbtree.c:143-149 | The red-sibling rotation, which moves the node one level deeper, keeps the missing black where it was and makes the sibling black |
| RbTree.EraseRecolorFits | workflow-step-by-step/src/kernel/rbtree.c:150-158 | With a black sibling and black nephews, recolouring moves the missing black one level up |
| RbTree.EraseRotateFits | workflow-step-by-step/src/kernel/rbtree.c:159-178 | With a red nephew the rotation pays back the missing black, and the order stays |
| RbTree.EraseNextFits | workflow-step-by-step/src/kernel/rbtree.c:138-220 | One turn of the erase loop either finishes or leaves a strictly shorter path: it terminates although the red-sibling case goes down first |
| RbTree.EraseFixCorrect | workflow-step-by-step/src/kernel/rbtree.c:133-223 | Erase fix-up restores the invariant from any tree that is one black short at one place, without touching the order |
| RbTree.MinIsFirst | workflow-step-by-step/src/kernel/rbtree.c:238-240 | The leftmost node of the right subtree is the next one in the order of the whole tree |
| RbTree.UnlinkedFits | workflow-step-by-step/src/kernel/rbtree.c:225-297 | Taking out a node, its successor moved into its place when it has two children, leaves a tree that is one black short exactly when the removed colour was black |
| RbTree.UnlinkedOrder | workflow-step-by-step/src/kernel/rbtree.c:225-297 | The same surgery removes exactly one entry from the order |
| RbTree.EraseCorrect | workflow-step-by-step/src/kernel/rbtree.c:225-297 | Erasing any node of any valid tree gives a valid tree whose order is the old one without exactly that node |
| RbTree.HeightBound | workflow-step-by-step/src/kernel/rbtree.c:68-131 | A valid tree of n nodes has height at most 2 log2(n + 1): 2^height <= (n + 1)^2 |
| RbHeap.RotateLeft | workflow-step-by-step/src/kernel/rbtree.c:17-49 | The pointer rotation, with its parent links and the root pointer, computes the rotation of the tree at the node and nothing else |
| RbHeap.RotateRight | workflow-step-by-step/src/kernel/rbtree.c:51-66 | The mirror image of it, again with every parent link and the root pointer |
| RbHeap.RbInsertColor | workflow-step-by-step/src/kernel/rbtree.c:68-131 | The in-place loop over parent pointers leaves exactly the fixed-up tree: consistent links, valid colours, the same nodes in the same order |
| RbHeap.RbEraseColor | workflow-step-by-step/src/kernel/rbtree.c:133-223 | The in-place erase loop does the same for a missing black |
| RbHeap.RbErase | workflow-step-by-step/src/kernel/rbtree.c:225-297 | In place, for any node of a valid tree: links stay consistent, the tree is valid, its order and its set of nodes lose exactly the erased node |
| RbHeap.RbLinkNode | workflow-step-by-step/src/kernel/rbtree.h:45-53 | Hanging a red leaf where the search ended is the tree with that leaf at the hole |
| RbHeap.RbFirst | workflow-step-by-step/src/kernel/rbtree.c:302-312 | The first node of the order, or null for the empty tree |
| RbHeap.RbNext | workflow-step-by-step/src/kernel/rbtree.c:326-347 | The node after this one in the order, or null exactly at the last |
| RbHeap.RbPrev | workflow-step-by-step/src/kernel/rbtree.c:349-366 | The node before this one in the order, or null exactly at the first |
| RbHeap.Walk | workflow-step-by-step/src/kernel/rbtree.c:302-347 | `rb_first` and then `rb_next` until null visits every node once, in order |
| Numerals.FoldsLetters | workflow-step-by-step/src/protocol/http_parser.c:201-243 | Names are compared by letters: folding maps the 26 capitals to the small ones and nothing else |
| Numerals.HexReadsText | workflow-step-by-step/src/protocol/http_parser.c:461-508 | A number printed by dividing by 16, in small letters or capitals, is read back as itself |
| Numerals.NumeralIs | workflow-step-by-step/src/protocol/http_parser.c:461-508 | Every text of hexadecimal digits is, up to zeros in front and the case of letters, what is printed for its value |
| Numerals.NumberIsRead | workflow-step-by-step/src/protocol/http_parser.c:461-508 | `strtol` in base 16 reads space, sign and `0x` prefix, the digits to their end, and stops before what follows |
| Numerals.NumberIsThere | workflow-step-by-step/src/protocol/http_parser.c:461-508 | And it reads a number only from a text that starts with one |
| Numerals.DecimalReadsText | workflow-step-by-step/src/protocol/http_parser.c:201-243 | A number printed by dividing by 10 is read back as itself |
| Numerals.AtoiReadsText | workflow-step-by-step/src/protocol/http_parser.c:201-243 | `atoi` converted to `size_t`, for any printed number and whatever follows it: itself below 2^31, sign-extended from 32 bits as far as a `long` goes, and -1 beyond |
| CString.StrtolHexExtended | workflow-step-by-step/src/protocol/http_parser.c:461-508 | A hexadecimal number that is followed by something else does not change when more bytes arrive |
| CString.AtoiReadsDecimal | workflow-step-by-step/src/protocol/http_parser.c:201-243 | A Content-Length in digits that fits an int is read as its value |
| HttpSpec.HeaderStepStable | workflow-step-by-step/src/protocol/http_parser.c:408-430 | A verdict of a start-line, header-name or header-value step does not change when more bytes follow |
| HttpSpec.HeaderStepAdvances | workflow-step-by-step/src/protocol/http_parser.c:408-430 | A step without a verdict leaves the state as it was, and a successful one consumes between one byte and all of them |
| HttpSpec.ChunkStepStable | workflow-step-by-step/src/protocol/http_parser.c:461-559 | The same stability for size lines, chunk data and trailer lines |
| HttpSpec.ChunkStepAdvances | workflow-step-by-step/src/protocol/http_parser.c:461-559 | The same progress, and that a chunked body cannot end before its trailer |
| HttpSpec.HeaderLoopResumes | workflow-step-by-step/src/protocol/http_parser.c:408-430 | Parsing a prefix, stopping and going on with more bytes is parsing all of it at once; a finished verdict stands |
| HttpSpec.ChunkLoopResumes | workflow-step-by-step/src/protocol/http_parser.c:539-559 | The same for the body |
| HttpSpec.HeaderLoopReaches | workflow-step-by-step/src/protocol/http_parser.c:408-430 | A header that was incomplete and completes has taken at least one of the new bytes |
| HttpSpec.ChunkLoopReaches | workflow-step-by-step/src/protocol/http_parser.c:539-559 | The same for a chunked body |
| HttpAppend.OutcomeOffsets | workflow-step-by-step/src/protocol/http_parser.c:561-627 | All offsets, and the end of the message, stay within the buffered bytes |
| HttpAppend.OutcomeResumes | workflow-step-by-step/src/protocol/http_parser.c:561-627 | The whole call, header and body together, can be resumed from its saved offsets |
| HttpAppend.AppendKeepsWaiting | workflow-step-by-step/src/protocol/http_parser.c:561-627 | Between calls the buffer holds exactly what was appended, and everything that could be read has been read |
| HttpAppend.AppendKeepsSane | workflow-step-by-step/src/protocol/http_parser.c:561-627 | After any verdict, a malformed message included, a further call is in order; without a complete message every byte is kept and counted, and a complete one does not change any more |
| HttpAppend.SplitInvariance | workflow-step-by-step/src/protocol/http_parser.c:561-627 | For every byte string and every way of cutting it, successive appends end with the same verdict, message, body and total count as one append of the whole |
| HttpAppend.ExactConsumption | workflow-step-by-step/src/protocol/http_parser.c:561-627 | In every state a completing call of n bytes consumes between 1 and n, and what is kept ends after the announced length or the trailer, if and only if header size plus announced length does not wrap around in 64 bits; it always does so for chunked bodies |
| HttpEncode.ConsumptionCanWrap | workflow-step-by-step/src/protocol/http_parser.c:561-627 | A concrete request whose announced length wraps around: it is accepted, and the count of its bytes is short |
| HttpAppend.Fresh | workflow-step-by-step/src/protocol/http_parser.c:432-452 | A parser just initialised waits for its first bytes, as every call needs |
| HttpParser.HttpParser.constructor | workflow-step-by-step/src/protocol/http_parser.c:432-452 | Initialises every field, and the object then stands for the fresh parser |
| HttpParser.HttpParser.ParseStartLine | workflow-step-by-step/src/protocol/http_parser.c:245-305 | The scanning loop and its limit compute the start-line step |
| HttpParser.HttpParser.ParseHeaderName | workflow-step-by-step/src/protocol/http_parser.c:307-339 | The loop that fills `namebuf` computes the header-name step |
| HttpParser.HttpParser.ParseHeaderValue | workflow-step-by-step/src/protocol/http_parser.c:341-406 | The loops that skip, copy and trim compute the header-value step |
| HttpParser.HttpParser.ParseMessageHeader | workflow-step-by-step/src/protocol/http_parser.c:408-430 | The `do ... while` loop computes the header loop from the saved offset |
| HttpParser.HttpParser.ParseChunkData | workflow-step-by-step/src/protocol/http_parser.c:461-508 | Finds the size line, reads the size, and steps over the data only when all of it is there |
| HttpParser.HttpParser.ParseTrailerPart | workflow-step-by-step/src/protocol/http_parser.c:510-537 | Steps over trailer lines, and ends the body at the empty one |
| HttpParser.HttpParser.ParseChunk | workflow-step-by-step/src/protocol/http_parser.c:539-559 | The loop over chunks and trailer computes the chunk loop |
| HttpParser.HttpParser.AppendMessage | workflow-step-by-step/src/protocol/http_parser.c:561-627 | Verdict, new parser and consumed count are those of the append function, for which split invariance and exact consumption are proved |
| HttpHeaders.SetThenFind | workflow-step-by-step/src/protocol/http_parser.c:100-135 | Setting a header is seen under every spelling of its name, and under no other name |
| HttpHeaders.Line.TextOf | workflow-step-by-step/src/protocol/http_parser.c:39-61 | The buffer of a line begins with exactly the text that is sent for the header |
| HttpHeaders.Line.SetValue | workflow-step-by-step/src/protocol/http_parser.c:107-131 | Overwriting stays inside the buffer, also after the value was once shorter; the name takes the new spelling exactly when a longer value needs a new buffer |
| HttpHeaders.HeaderList.AddHeader | workflow-step-by-step/src/protocol/http_parser.c:39-61 | One more header, behind all others, with a line and a buffer of its own; the other lines are the old ones |
| HttpHeaders.HeaderList.SetHeader | workflow-step-by-step/src/protocol/http_parser.c:100-135 | The first header with the name has the new value, all others stay as they are; without one it is added; the lines are the old ones, each with its old buffer or a new one |
| HttpHeaders.HeaderList.Find | workflow-step-by-step/src/protocol/http_parser.c:703-721 | The next header with the name in any spelling, from the cursor on, or the end |
| HttpFraming.StartLineDecides | workflow-step-by-step/src/protocol/http_parser.c:137-199 | A start line is refused exactly when it has no two spaces; otherwise its three parts, put together with spaces again, are the line; an old version does not keep the connection, and a 1xx, 204 or 304 status fixes the length at 0 |
| HttpFraming.HeaderDecides | workflow-step-by-step/src/protocol/http_parser.c:201-243 | One header line decides at most one of expectation, connection, length and encoding, by its name in any spelling |
| HttpFraming.HeadersDecide | workflow-step-by-step/src/protocol/http_parser.c:201-243 | Over a whole header list: chunked exactly when any Transfer-Encoding is not identity, expectation likewise; the last usable Content-Length gives the length and the last Connection header the connection |
| HttpFraming.MeasuredBody | workflow-step-by-step/src/protocol/http_parser.c:201-243 | A last Content-Length in digits below 2^31 announces exactly its decimal value |
| HttpFraming.BodyFollowsHead | workflow-step-by-step/src/protocol/http_parser.c:561-599 | Section 3.3.3 of RFC 7230 as a table: bodyless status, then chunks whatever Content-Length says, then the last Content-Length, then nothing for a request and the end of the connection for a response |
| HttpFraming.OldIsBelow11 | workflow-step-by-step/src/protocol/http_parser.c:137-199 | The versions that do not keep the connection are those below 1.1 |
| HttpFraming.BodylessCodes | workflow-step-by-step/src/protocol/http_parser.c:137-199 | Of the three-digit status codes exactly 1xx, 204 and 304 leave no room for a body |
| HttpEncode.ValueParses | workflow-step-by-step/src/protocol/http_parser.c:341-406 | A value is read without the blanks before and behind it, whatever they are, once the byte after its line end is there |
| HttpEncode.HeadersParse | workflow-step-by-step/src/protocol/http_parser.c:307-430 | Any list of well-formed header lines is read back header by header, in order |
| HttpEncode.HeadParses | workflow-step-by-step/src/protocol/http_parser.c:245-430 | So is a start line and its headers up to the empty line, wherever the body begins |
| HttpEncode.HeadersKept | workflow-step-by-step/src/protocol/http_parser.c:201-243 | The framing headers never disturb the start line or the other headers |
| HttpEncode.RoundTrip | workflow-step-by-step/src/protocol/HttpMessage.cc:92-173 | Parsing an encoded well-formed message whose length is announced gives back its start line, ordered headers and body, and consumes exactly the message, whatever follows it |
| HttpEncode.RoundTripInPieces | workflow-step-by-step/src/protocol/HttpMessage.cc:92-173 | The same when the encoded bytes and what follows them arrive in any pieces: the counts of all calls add up to exactly the message |
| HttpMessage.HttpMessage.AppendOutputBody | workflow-step-by-step/src/protocol/HttpMessage.cc:15-29 | The body grows by the block, and the recorded size with it |
| HttpMessage.HttpMessage.CombineFrom | workflow-step-by-step/src/protocol/HttpMessage.cc:62-90 | Merging all blocks from one on keeps the body, and leaves one block in their place |
| HttpMessage.HttpMessage.Encode | workflow-step-by-step/src/protocol/HttpMessage.cc:92-173 | The concatenated vectors are the bytes of the message whatever the number of vectors and whether blocks were merged; it fails exactly without a start line or without room for one body vector |
| HttpHead.HeadIsAccepted | workflow-step-by-step/src/protocol/http_parser.c:245-430 | Any text of a head, with empty lines before it and any blanks around the values, is accepted up to exactly its end, with the start line and the headers that it writes, whatever follows |
| HttpHead.HeadFound | workflow-step-by-step/src/protocol/http_parser.c:245-430 | Whatever is accepted as a head starts with such a text, within the limits of its lines |
| HttpBody.BodyEnds | workflow-step-by-step/src/protocol/http_parser.c:461-559 | Any text of a chunked body, with extensions on its size lines and any number of trailer lines, is accepted up to exactly its empty line, wherever it stands and whatever follows |
| HttpBody.BodyFound | workflow-step-by-step/src/protocol/http_parser.c:461-559 | Whatever is accepted as a chunked body starts with such a text: sizes in base 16, data of exactly those sizes, a zero size, trailer lines that are not empty, an empty line |
| HttpBody.BodyParses | workflow-step-by-step/src/protocol/http_parser.c:461-559 | The chunks that the parser steps over hold exactly the data of that text |
| HttpBody.CursorReadsBody | workflow-step-by-step/src/protocol/HttpUtil.cc:404-447 | The cursor reads exactly the data of any such body if and only if no size line has a NUL |
| HttpBody.DecodesWhatWasEncoded | workflow-step-by-step/src/protocol/HttpUtil.cc:77-94 | Any non-empty blocks, written as chunks with printed sizes and any trailer, are decoded back |
| HttpGrammar.MessageIsAccepted | workflow-step-by-step/src/protocol/http_parser.c:561-627 | A head and the body that it announces are accepted whatever follows them, with start line, headers and body, counting exactly their bytes |
| HttpGrammar.MessageInPieces | workflow-step-by-step/src/protocol/http_parser.c:561-627 | The same when the bytes arrive in any pieces |
| HttpGrammar.MessageFound | workflow-step-by-step/src/protocol/http_parser.c:561-627 | Whatever is accepted starts with such a message, which is what the parser has and what it counts; but for a length that wraps around |
| HttpGrammar.PrefixWaits | workflow-step-by-step/src/protocol/http_parser.c:561-627 | As long as one byte of a message is missing the parser waits, and has kept and counted what there was |
| HttpGrammar.UntilTheEnd | workflow-step-by-step/src/protocol/http_parser.c:561-627 | A response without a length takes whatever comes and is never complete by itself |
| HttpGrammar.ChunksRoundTrip | workflow-step-by-step/src/protocol/HttpUtil.cc:77-94 | Blocks sent as chunks through the parser, in any pieces, come out of the decoder as they were |
| HttpRefusals.StartLineRefused | workflow-step-by-step/src/protocol/http_parser.c:245-305 | A start line is malformed exactly for 8192 bytes without an end, a NUL, a carriage return without line feed, or fewer than two spaces |
| HttpRefusals.NameRefused | workflow-step-by-step/src/protocol/http_parser.c:307-339 | A header name exactly for 64 bytes without a colon, or a NUL |
| HttpRefusals.ValueRefused | workflow-step-by-step/src/protocol/http_parser.c:341-406 | A header value exactly for 8192 bytes behind its blanks without an end, a NUL or a broken line end, each once the byte after it is there |
| HttpRefusals.SizeLineRefused | workflow-step-by-step/src/protocol/http_parser.c:461-508 | A size line exactly for 1024 bytes without an end, a broken line end, or when it does not start with a number below 2^31 - 1028 |
| HttpRefusals.TrailerRefused | workflow-step-by-step/src/protocol/http_parser.c:510-537 | A trailer line exactly for 8192 bytes without an end or a broken line end |
| HttpChunks.AcceptedBody | workflow-step-by-step/src/protocol/http_parser.c:561-627 | What any sequence of appends accepts as chunked is a header and a chunked body up to the end of its trailer; or the header alone, exactly when the status leaves no room for a body |
| HttpChunks.EmptyBodyEnds | workflow-step-by-step/src/protocol/HttpUtil.cc:419-447 | And in such an empty body the cursor finds no chunk |
| HttpChunks.CursorAgrees | workflow-step-by-step/src/protocol/HttpUtil.cc:419-447 | On a size line that the parser accepts the cursor takes the same data and the same step, unless a NUL follows the number: then `strchr` finds no carriage return and the cursor faults |
| HttpChunks.CursorFollowsParser | workflow-step-by-step/src/protocol/HttpUtil.cc:404-447 | The cursor visits exactly the chunks of the parser, and ends, if and only if no size line has a NUL |
| HttpChunks.DecodesAcceptedBody | workflow-step-by-step/src/protocol/HttpUtil.cc:77-94 | So decoding an accepted body gives its chunk data in order, under exactly that condition |
| HttpChunks.NulMisleadsCursor | workflow-step-by-step/src/protocol/HttpUtil.cc:404-447 | A concrete request of 59 bytes with a NUL in a size line: one call accepts it, counting every byte, and the cursor faults on its body |
| HttpChunks.HttpChunkCursor.Next | workflow-step-by-step/src/protocol/HttpUtil.cc:419-447 | Each call gives the next chunk, or the whole body once when it is not chunked, and none after the last |
| HttpChunks.DecodeChunkedBody | workflow-step-by-step/src/protocol/HttpUtil.cc:77-94 | Appending what the cursor gives is the concatenation of all chunks |
| SchedHeap.LessIsOfRatios | workflow-step-by-step/src/kernel/CommScheduler.cc:152-164 | The comparison by cross multiplication is that of the ratios of load to capacity |
| SchedHeap.AtMostIsOrder | workflow-step-by-step/src/kernel/CommScheduler.cc:152-164 | The cross-multiplied comparison is total and transitive, also mixed with its strict form, for positive capacities |
| SchedHeap.MoveUp | workflow-step-by-step/src/kernel/CommScheduler.cc:166-186 | A swap with a more loaded parent leaves the heap in order everywhere but around the new place |
| SchedHeap.MoveDown | workflow-step-by-step/src/kernel/CommScheduler.cc:189-244 | A swap with the least loaded child does the same downwards |
| SchedHeap.PickIsRight | workflow-step-by-step/src/kernel/CommScheduler.cc:196-240 | The nested comparisons choose the smallest child, or show that the node may stay |
| SchedHeap.Raised | workflow-step-by-step/src/kernel/CommScheduler.cc:102-109 | One more session at a node can only break the order below it |
| SchedHeap.Lowered | workflow-step-by-step/src/kernel/CommScheduler.cc:136-147 | One session less can only break it above |
| SchedHeap.RootIsLeast | workflow-step-by-step/src/kernel/CommScheduler.cc:189-244 | In an ordered heap the root has the least ratio of all |
| SchedHeap.FullSums | workflow-step-by-step/src/kernel/CommScheduler.cc:405-412 | If every member is full, so is the group |
| SchedHeap.CommSchedGroup.HeapAdjust | workflow-step-by-step/src/kernel/CommScheduler.cc:166-186 | In place: the same members, each knowing its index, and the heap is in order again when only the upward direction was broken |
| SchedHeap.CommSchedGroup.Heapify | workflow-step-by-step/src/kernel/CommScheduler.cc:189-244 | In place: the same when only the downward direction was broken |
| SchedHeap.CommSchedGroup.HeapInsert | workflow-step-by-step/src/kernel/CommScheduler.cc:246-267 | The heap gains exactly the target, in order and indexed |
| SchedHeap.CommSchedGroup.HeapRemove | workflow-step-by-step/src/kernel/CommScheduler.cc:269-282 | The heap loses exactly the target at the index, which a last target that may belong above or below replaces |
| SchedHeap.CommSchedGroup.Add | workflow-step-by-step/src/kernel/CommScheduler.cc:325-354 | Succeeds exactly for a target in no group that nobody waits for; sums of loads and capacities then include it, sessions it still has from before counted; a refused call writes nothing, neither here nor in the group that has the target |
| SchedHeap.CommSchedGroup.Remove | workflow-step-by-step/src/kernel/CommScheduler.cc:356-378 | Succeeds exactly for a member that nobody waits for; the sums no longer include it, and it keeps its sessions; a refused call writes nothing |
| SchedHeap.CommSchedGroup.RootIsBest | workflow-step-by-step/src/kernel/CommScheduler.cc:405-412 | While the total load is below the total capacity the root has spare capacity and the least ratio of all members |
| SchedHeap.CommSchedGroup.Acquire | workflow-step-by-step/src/kernel/CommScheduler.cc:380-422 | Gives a session on a least loaded target, never over its capacity, or none exactly when the group is full |
| SchedHeap.CommSchedTarget.Acquire | workflow-step-by-step/src/kernel/CommScheduler.cc:71-122 | Takes a session exactly when there is room, and the group stays in order with the right sums |
| SchedHeap.CommSchedTarget.Release | workflow-step-by-step/src/kernel/CommScheduler.cc:124-150 | Gives one back, inside or outside a group, with the same invariant |
| SchedHeap.CommSchedGroup.FullWhenAllAre | workflow-step-by-step/src/kernel/CommScheduler.cc:380-412 | A group has no capacity left exactly when no member has |
| SchedRuns.PerformAdd | workflow-step-by-step/src/kernel/CommScheduler.cc:325-354 | Among several groups, an add keeps every heap ordered and indexed, its sums right and no target in two groups, also when it is refused |
| SchedRuns.PerformAcquire | workflow-step-by-step/src/kernel/CommScheduler.cc:380-422 | In that world a group acquire gives a session on a least loaded member of the group that has room, or nothing exactly when all its members are full |
| SchedRuns.PerformRelease | workflow-step-by-step/src/kernel/CommScheduler.cc:124-150 | A session that somebody holds can be given back wherever its target is by then, and the loads stay the numbers of sessions held |
| SchedRuns.Perform | workflow-step-by-step/src/kernel/CommScheduler.cc:71-422 | One critical section in place is one step of a plain table of homes, sessions held and waiters: a session exactly when there is room, from a group on a least loaded member, a move exactly when the tests allow it |
| SchedRuns.PerformAll | workflow-step-by-step/src/kernel/CommScheduler.cc:71-422 | Any sequence of the critical sections of add, remove, acquire, release and waiting, over any groups and targets, is a run of that table; after it every heap is ordered, `tg_heap[t->index] == t`, sums are right, and each load is the number of sessions held |
| SchedRuns.BeginsInOrder | workflow-step-by-step/src/kernel/CommScheduler.cc:284-323 | Empty groups and new targets are such a world |
| SchedLocks.InvKept | workflow-step-by-step/src/kernel/CommScheduler.cc:71-422 | Every step of every thread keeps: mutex ownership, loads equal to outstanding sessions and at most the capacity, waiters counted, group loads equal to the member sums |
| SchedLocks.RunsAreSafe | workflow-step-by-step/src/kernel/CommScheduler.cc:71-422 | So these hold in every state of every interleaving of acquire, release, add, remove and group acquire |
| SchedLocks.SleepersKeepTheGroup | workflow-step-by-step/src/kernel/CommScheduler.cc:84-112 | While a thread sleeps in a target its group cannot change, so it wakes holding the mutex that guards the load |
| SchedLocks.ChangeIsAlone | workflow-step-by-step/src/kernel/CommScheduler.cc:325-378 | When add or remove takes effect, no other thread is between reading the group of that target and using its mutex |
| SchedLocks.ChangeTakesEffect | workflow-step-by-step/src/kernel/CommScheduler.cc:325-378 | Add and remove change something exactly when nobody waits for the target and it is in no group, or in this one |
| SchedLocks.AccessesAreGuarded | workflow-step-by-step/src/kernel/CommScheduler.cc:71-150 | In every interleaving a thread that reads loads holds the mutex that guards each of them |
| SchedLocks.LoadsChangeUnderTheirGuard | workflow-step-by-step/src/kernel/CommScheduler.cc:71-150 | A target's load changes only by a thread that holds its guarding mutex |
| SchedLocks.GroupLoadsChangeUnderTheirMutex | workflow-step-by-step/src/kernel/CommScheduler.cc:325-422 | A group's loads change only under the group's mutex |
| SchedLocks.AcquireEnds | workflow-step-by-step/src/kernel/CommScheduler.cc:71-122 | In every interleaving `acquire` on a target gives up only when it is full, and otherwise its caller has one session more |
| SchedLocks.GroupAcquireEnds | workflow-step-by-step/src/kernel/CommScheduler.cc:380-422 | And on a group only when all its members are full, and otherwise one session more on a least loaded member that had room |
| SchedLocks.NoCycle | workflow-step-by-step/src/kernel/CommScheduler.cc:71-150 | A thread that holds a group mutex waits for none, and one that holds a target mutex only for a group mutex |
| SchedLocks.HoldersGoOn | workflow-step-by-step/src/kernel/CommScheduler.cc:71-422 | A thread that holds a mutex and waits for none can always make a step |
| SchedLocks.SomeoneGoesOn | workflow-step-by-step/src/kernel/CommScheduler.cc:71-422 | No deadlock: while any thread is inside a call and not asleep, some thread can make a step, at most two mutexes further on |
| SchedLocks.RootHasRoom | workflow-step-by-step/src/kernel/CommScheduler.cc:405-412 | The same choice of root, in every interleaving: a group below its capacity has a least loaded member with room |
| PollerQueue.InvKept | workflow-step-by-step/src/kernel/poller.c:98-157 | Every step of producers, consumers and of whoever switches blocking or stops, also while both list pointers coincide, keeps one queue without loss, duplicate or reordering |
| PollerQueue.RunsAreFifo | workflow-step-by-step/src/kernel/poller.c:120-228 | In every interleaving what was got is a prefix of what was put, the rest is pending in order, and the counter never exceeds its limit unless the poller is stopping |
| PollerQueue.CallsReturnInOrder | workflow-step-by-step/src/kernel/poller.c:139-157 | A call returns the next item; it returns nothing only after a swap that found the queue empty and non-blocking |
| PollerQueue.PutsWithRoom | workflow-step-by-step/src/kernel/poller.c:212-228 | A put is let in exactly when the queue has room or the poller is stopping, and otherwise changes nothing |
| PollerQueue.ListsAreApart | workflow-step-by-step/src/kernel/poller.c:120-157 | A consumer that takes from its list never shares it with the producers |
| PollerTimers.CmpIsByNanos | workflow-step-by-step/src/kernel/poller.c:230-238 | The comparison of two normalised times is the comparison of the instants |
| PollerTimers.Deadline | workflow-step-by-step/src/kernel/poller.c:360-370 | The deadline is exactly so many milliseconds after now, and normalised |
| PollerTimers.Due | workflow-step-by-step/src/kernel/poller.c:360-458 | A timeout is milliseconds from now, and none when negative |
| PollerTimers.Plus | workflow-step-by-step/src/kernel/poller.c:1113-1122 | The same for any `timespec` interval, normalised when both are |
| PollerTimers.Poller.TreeInsert | workflow-step-by-step/src/kernel/poller.c:241-267 | The tree stays a sorted red-black tree with its first node at hand, gains exactly the node, and the node is first exactly when it is before all others |
| PollerTimers.Poller.TreeErase | workflow-step-by-step/src/kernel/poller.c:269-277 | The tree loses exactly the node, and `tree_first` moves on when it was the first |
| PollerTimers.ListRule | workflow-step-by-step/src/kernel/poller.c:376-392 | A node at the end of the list is the earliest exactly when the list was empty and it is before the first of the tree |
| PollerTimers.TreeRule | workflow-step-by-step/src/kernel/poller.c:376-392 | A node in the tree is the earliest exactly when it is first there and before the head of the list |
| PollerTimers.Poller.InsertNode | workflow-step-by-step/src/kernel/poller.c:372-393 | List and tree act as one map of deadlines that gains the entry; the timer is set exactly when the new deadline is before all pending ones, and so is never late |
| PollerTimers.ExactRule | workflow-step-by-step/src/kernel/poller.c:601-627 | The earlier of the two first nodes is the earliest of all |
| PollerTimers.Poller.SetTimer | workflow-step-by-step/src/kernel/poller.c:601-627 | The timer is set for the earliest pending deadline, and off exactly when there is none |
| PollerTimers.AllExpired | workflow-step-by-step/src/kernel/poller.c:803-843 | When neither first node is before now, exactly the nodes before now have left |
| PollerTimers.Poller.HandleTimeout | workflow-step-by-step/src/kernel/poller.c:803-855 | Exactly the nodes with a deadline before now leave, each once, from both structures and from the table of descriptors |
| PollerTimers.Poller.Add | workflow-step-by-step/src/kernel/poller.c:395-458 | With a free valid descriptor the node has a deadline exactly so many milliseconds after now, or none for a negative timeout, and the others stay; otherwise an error and nothing changes |
| PollerTimers.Poller.Del | workflow-step-by-step/src/kernel/poller.c:460-498 | The node of the descriptor leaves whichever structure it is in |
| PollerTimers.Poller.Mod | workflow-step-by-step/src/kernel/poller.c:985-1061 | The old node leaves and the new one takes over the descriptor, with a deadline exactly so many milliseconds after now or none |
| PollerTimers.Poller.SetTimeout | workflow-step-by-step/src/kernel/poller.c:1063-1099 | The same node gets a deadline exactly so many milliseconds after now, or none; the map changes at that node only |
| PollerTimers.Poller.AddTimer | workflow-step-by-step/src/kernel/poller.c:1101-1129 | The map gains a deadline that belongs to no descriptor |
| PollerTimers.Poller.Drop | workflow-step-by-step/src/kernel/poller.c:279-299 | A node is taken out of exactly the structure that `in_rbtree` names |
| Executor.InvKept | workflow-step-by-step/src/kernel/Executor.cc:58-132 | Every step of clients, workers and `deinit`, also the requests that a cancelled session makes from its `handle`, keeps: mutex ownership, one token per non-empty queue, order of the lists, every taken session with a worker or `deinit`, finished or cancelled |
| Executor.SessionsAreTakenInOrder | workflow-step-by-step/src/kernel/Executor.cc:58-132 | In every interleaving the sessions of a queue are taken from its list in the order of acceptance; until the drain the queue has one pool task, pending or about to be served, exactly while its list is not empty |
| Executor.ListNotEmpty | workflow-step-by-step/src/kernel/Executor.cc:58-70 | A worker that serves a task always finds a session in the list |
| Executor.WorkOrder | workflow-step-by-step/src/kernel/Executor.cc:58-132 | Adding, taking and undoing a failed request keep the order of one list |
| Executor.WorkToken | workflow-step-by-step/src/kernel/Executor.cc:58-132 | Each piece of work creates a token exactly when a list becomes non-empty and spends it when it becomes empty |
| Executor.DeinitKept | workflow-step-by-step/src/kernel/thrdpool.c:193-210 | Waiting for the workers and walking over the pending tasks and lists, with the next entry saved before each callback, keep the same invariant: a saved entry is still the first of its list |
| Executor.DrainEnds | workflow-step-by-step/src/kernel/thrdpool.c:193-210 | Once the workers are gone only `deinit` moves, and each of its steps, but for a request of the session that it cancels, brings it nearer to the end |
| Executor.DrainGoesOn | workflow-step-by-step/src/kernel/thrdpool.c:193-210 | Until `deinit` returns it can always make such a step |
| Executor.LeftBehind | workflow-step-by-step/src/kernel/thrdpool.c:193-210 | A pool task is left in the list exactly when a request from a callback found its queue empty during the last turn |
| Executor.NothingHandledTwice | workflow-step-by-step/src/kernel/Executor.cc:50-100 | When `deinit` has returned, what was ever accepted is what was finished, what was cancelled, each once, and what still waits in a list |
| Executor.HandledExactlyOnce | workflow-step-by-step/src/kernel/Executor.cc:50-100 | Every session ever accepted has been handled exactly once, and every list is empty, if and only if no cancelled session made a request that found the list of its queue empty while the last pending pool task was being cancelled |
| Executor.LostSession | workflow-step-by-step/src/kernel/Executor.cc:81-96 | A run in which that happens: the second session of a series is accepted and never handled |
| Collections.WithoutIs | workflow-step-by-step/src/util/LRUCache.h:220-224 | Removing a node from a list without duplicates removes exactly that node |
| LruCache.ToInUse | workflow-step-by-step/src/util/LRUCache.h:234-243 | A first handle moves an entry between the lists and keeps them split by use |
| LruCache.ToNotUse | workflow-step-by-step/src/util/LRUCache.h:255-259 | The last handle given back moves it the other way |
| LruCache.LRUCache.Unref | workflow-step-by-step/src/util/LRUCache.h:245-260 | Its asserts hold; a handle whose last reference goes is freed, once, and no other ever |
| LruCache.LRUCache.EraseNode | workflow-step-by-step/src/util/LRUCache.h:262-269 | Its assert holds; an entry leaves the cache, and lives on exactly while a caller holds it |
| LruCache.LRUCache.Get | workflow-step-by-step/src/util/LRUCache.h:148-162 | The value of the key in the cache seen as a plain map, and one more handle held; nothing exactly when the key is absent |
| LruCache.LRUCache.Put | workflow-step-by-step/src/util/LRUCache.h:164-203 | Without a limit or with room the plain map has the new value; without room, and only then, it declines, and gives up the longest released entries, as many as the limit asks for and nobody holds; the new handle is live and held by the caller either way |
| LruCache.PutTwice | workflow-step-by-step/src/util/LRUCache.h:164-203 | A run in which it declines: a cache for one entry that somebody holds keeps the first value under the key |
| LruCache.LRUCache.Del | workflow-step-by-step/src/util/LRUCache.h:205-217 | The map loses the key; the value is freed now exactly when nobody holds it |
| LruCache.LRUCache.Release | workflow-step-by-step/src/util/LRUCache.h:131-139 | One handle less; the value is freed exactly when this was the last reference |
| LruCache.LRUCache.Prune | workflow-step-by-step/src/util/LRUCache.h:116-128 | Exactly the entries that nobody holds leave and are freed, longest released first |
| LruCache.LRUCache.Destroy | workflow-step-by-step/src/util/LRUCache.h:85-102 | With every handle released its asserts hold, and every handle ever created has been freed exactly once |
| Workflow.StoreBack | workflow-step-by-step/src/factory/Workflow.cc:74-84 | Storing behind the ring, around its end, appends; if it fills the ring, all of the ring is in use |
| Workflow.StoreFront | workflow-step-by-step/src/factory/Workflow.cc:60-69 | The same in front |
| Workflow.TakePending | workflow-step-by-step/src/factory/Workflow.cc:110-115 | Taking at the front of the ring gives the first of what is pending and leaves the rest |
| Workflow.SeriesWork.ExpandQueue | workflow-step-by-step/src/factory/Workflow.cc:38-58 | A full ring becomes the beginning of an array of twice the size, in the same order |
| Workflow.SeriesWork.PushFront | workflow-step-by-step/src/factory/Workflow.cc:60-72 | The deque gains the task in front, through wrap-around and doubling, and the task points to its series |
| Workflow.SeriesWork.PushBack | workflow-step-by-step/src/factory/Workflow.cc:74-86 | The deque gains the task behind, before the last task of the series |
| Workflow.SeriesWork.PopTask | workflow-step-by-step/src/factory/Workflow.cc:105-133 | The deque first, then the last task, then nothing: then the callback runs once and the series goes unless a parallel work owns it |
| Workflow.SeriesWork.Pop | workflow-step-by-step/src/factory/Workflow.cc:88-103 | Once cancelled, one pop deletes each remaining task once, in order, runs the callback once and returns nothing; otherwise it is one step of the deque |
| Workflow.SeriesWork.DismissRecursive | workflow-step-by-step/src/factory/Workflow.cc:25-36 | The first task and all others are deleted once each, the series goes, and the callback does not run |
| RouteManager.Router.AddGroupTargets | workflow-step-by-step/src/manager/RouteManager.cc:192-224 | Either every address has a target in the group, or the group is empty again |
| RouteManager.Router.NotifyUnavailable | workflow-step-by-step/src/manager/RouteManager.cc:138-162 | A member leaves the group with a breaker node exactly when it is not the last one; `nleft` is the size of the group and at least 1, `nbreak` the length of the list, and whoever is out has a node |
| RouteManager.Router.NotifyAvailable | workflow-step-by-step/src/manager/RouteManager.cc:115-127 | The target is back in the group when anything is broken, and its node stays |
| RouteManager.Router.CheckBreaker | workflow-step-by-step/src/manager/RouteManager.cc:418-444 | Exactly the due nodes leave the list and their targets are in the group again, counted once however many nodes they had |
| RouteManager.FullGroupReturns | workflow-step-by-step/src/manager/RouteManager.cc:418-444 | A check after every timeout restores the full group and empties the list |
| RouteManager.Router.Open | workflow-step-by-step/src/kernel/CommScheduler.cc:380-422 | A session through the group of a router is on a least loaded target of it, and the router stays in order |
| RouteManager.Router.Close | workflow-step-by-step/src/kernel/CommScheduler.cc:124-150 | So it does when a session is given back, also on a target that has left the group meanwhile |
| RouteManager.Router.HappenAll | workflow-step-by-step/src/manager/RouteManager.cc:115-162 | In every sequence of failures, answers, checks, sessions and their ends: the group is never empty, the counters are right, and whoever is out has a node that will bring it back |
| UpstreamManager.UpstreamGroup.Add | workflow-step-by-step/src/manager/UpstreamManager.cc:291-306 | A new server is attached, alive and in one vector |
| UpstreamManager.UpstreamGroup.Detach | workflow-step-by-step/src/manager/UpstreamManager.cc:319-348 | A server is detached, also while it is on the list, and `nalive` still counts the attached living servers |
| UpstreamManager.UpstreamGroup.NotifyUnavailable | workflow-step-by-step/src/manager/UpstreamManager.cc:516-533 | One more failure; the server is on the list exactly from its limit on, also when it was detached after the caller looked; `nbreak` grows with the list |
| UpstreamManager.UpstreamGroup.NotifyAvailable | workflow-step-by-step/src/manager/UpstreamManager.cc:496-514 | The failures are forgotten and the server is off the list; it is counted alive again exactly if it is attached and was not; when it was on the list, `nbreak` stays one too large |
| UpstreamManager.UpstreamGroup.Disable | workflow-step-by-step/src/manager/UpstreamManager.cc:374-401 | The server has failed as often as its limit, and is on the list once |
| UpstreamManager.UpstreamGroup.CheckOneBreaker | workflow-step-by-step/src/manager/UpstreamManager.cc:535-562 | Exactly the due servers leave the list; those at or over their limit are then one failure short of it, every other count stays; a zero `nbreak` means that there are none; `nbreak` falls with the list |
| UpstreamManager.UpstreamGroup.ExactBreaks | workflow-step-by-step/src/manager/UpstreamManager.cc:496-562 | `nbreak` is the length of the list if and only if `notify_available` never took a server off it |
| UpstreamManager.BreakAndRecover | workflow-step-by-step/src/manager/UpstreamManager.cc:496-533 | A run in which they differ: one server fails, answers again, and `nbreak` is 1 with an empty list |
| UpstreamManager.UpstreamGroup.BreakAgain | workflow-step-by-step/src/manager/UpstreamManager.cc:516-562 | A server that broke and came back is on the list again after one more failure |
| UpstreamManager.AllRevived | workflow-step-by-step/src/manager/UpstreamManager.cc:535-562 | A check after every timeout empties the list and revives every attached server |
| UpstreamManager.UpstreamGroup.GetOne | workflow-step-by-step/src/manager/UpstreamManager.cc:122-144 | Gives an alive server exactly when the group has one, a master when one of them is alive, in whatever order the vectors are shuffled |
| UpstreamManager.UpstreamGroup.GetOneSlave | workflow-step-by-step/src/manager/UpstreamManager.cc:146-162 | The same among the slaves only |
| UpstreamManager.LivingMoved | workflow-step-by-step/src/manager/UpstreamManager.cc:242-258 | The number of living servers changes by exactly what happens to one of them |

## Left out

- Sockets, epoll, timerfd, pipes, Linux AIO, DNS, MD5 and logging: input and output.
- Poller thread loop, `poller_stop`, and the nodes that `POLLER_NODE_ERROR` reserves: results are added twice there, and the stop only leaves the inner loop.
- Communicator connection lifecycle: a partial write has no continuation.
- Wake-up liveness in the scheduler and the pool: signals are not modelled, waiting threads may wake at any time; only safety is stated, and that some busy thread can always go on.
- `http_parser_set_method` and the other setters of one field; `strncasecmp` on names that contain NUL.
- Header line folding of section 3.2.4 of RFC 7230: the test for a continuation line is always true, so lines are never merged; the single-line path is modelled.
- Growth of the message buffer by `realloc`, and allocation failures other than in `thrdpool_schedule` and `create_target`.
- `chunk_offset` and `chunk_state` before the header is complete: the code leaves them unset until then, the model has 0.
- HttpChunks.DecodeChunkedBody: is stated for bodies on which the cursor stays inside; for others the original reads beyond the body, which has no value here.
- SchedHeap.AtMostIsOrder: does not model the wrap-around of the products of two `size_t` values; loads and capacities are far below 2^32.
- SchedLocks.InvKept: abstracts the heap to the choice of some least loaded member, which SchedHeap.CommSchedGroup.RootIsBest proves of the heap; the heaps themselves are in SchedRuns.PerformAll, section by section.
- SchedLocks.RunsAreSafe: has the same abstraction; that one thread at a time changes a heap is SchedLocks.AccessesAreGuarded and SchedLocks.GroupLoadsChangeUnderTheirMutex.
- PollerTimers.Poller.Add: takes the event mask and the result node as given; `poller_set_timeout` and the others do not re-arm the timer when a deadline is removed, so the timer may be early, and that is what is stated.
- PollerTimers.Poller.AddTimer: does not cover an interval whose sum with the clock is instant 0, which `timerfd_settime` takes for no timer.
- The other fields of a poller node are kept in a map from nodes to their values, and the list links in sequences.
- Executor: `thrdpool_increase`, the chain of joins at exit, and requests by other threads after the workers are gone, which the original does not allow; a request from the `handle` of a finished session is one of a client, and one that `malloc` refuses during the drain changes nothing.
- LruCache.LRUCache.Put: no eviction policy beyond what the code does; an entry is refused when the cache is full.
- UpstreamManager: weights (`available_weight_` is read before the group weight is added), the map from addresses to servers, consistent hashing, and the wrap-around of `fail_count` after 2^32 failures.
- RouteManager: the cache of routers, address comparison and keys; sessions are acquired only through the group, so nobody waits for a target.
- Workflow: `ParallelWork`, contexts, and callbacks that push into a series that is ending; `front` and `back` do not overflow.
- URI parsing, string utilities, `EncodeStream`, `MapReduce` and complex client tasks.
