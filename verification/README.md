# Verified model of the NUT collector and the Netdata daemon parts it ships with

This project models the stateful kernels of a repository made of a NUT collector for Netdata
(`upsd_plugin.c`) and a vendored copy of Netdata 2.6.0, and proves what they are for:

- **The HTTP/1.1 response parser** of the ACLK client (`RingBuffer`, `HttpParser`, `HttpClient`): a
  resumable state machine with a nested chunked decoder over a ring buffer. The central question is
  whether the outcome depends on how the bytes arrive (`HttpFragmentation`, `HttpResume`,
  `HttpCriticalCuts`); beside it stand framing (`HttpFraming`), the round trips of whole messages
  (`HttpMessage`), whole or delivered in pieces (`HttpDelivery`), and what exactly is refused (`HttpRefusals`).
  `Url` is the URL parser in the same file; `Text` holds the C string and number conversions, `Basics` what
  several modules share.
- **The command queue** (`CommandQueue`), its threads (`QueueProtocol`) and what each caller gets
  (`QueueCalls`), the **slot pools** (`SlotPool`), the **locking of daemon commands** (`CommandLocks`) and what
  it lets run together (`CommandsTogether`), and the **command reply format** (`CommandReply`).
- **The crash-report dedup table** (`Dedup`) and its file (`DedupFile`).
- **The UPS registry** (`UpsRegistry`) and **the status scanner** (`StatusScanner`) of the collector.
- **The shutdown sequence** (`Shutdown`) and **the pending request list** (`PendingRequests`).

Code that works in place is a class or a method with its loop, proved equal to a function on values; the
theorems are about those functions and, for the concurrent parts, about transition systems over all runs.
`dafny verify dfyconfig.toml` checks the whole project.

Four expectations turn out to be false of the code. In each case the code is modelled as it is, a concrete
input shows the failure, and the exact condition is proved:

- *The outcome does not depend on fragmentation.* The ring buffer search reports a needle that the end of
  the data cuts short, and skipping past the end of the data does nothing. A CR that arrives without its LF
  is therefore taken for a line end and stays unread. The outcome is that of one call if and only if no
  arrival ends there (`FragmentationIff`, `LostResponse`). For a printed response these places are the CR of
  the status line, of each header line, of the blank line and of each chunk-size line but the last
  (`CriticalCutsAreCutPoints`).
- *The dictionaries agree with the list after every sweep.* The sweep looks names up by their cleaned form,
  so this holds if and only if no name needs cleaning (`SyncedIffClean`, `ListedUpsDropped`).
- *The status scanner inverts the printer.* `OFF` is one character longer than its stride, so it also sets
  the forced-shutdown bit and swallows a letter of the next word. Without repeated words the bits are right if
  and only if `OFF` is absent (`ExactIffNoOff`, `OffExample`); with repeats they can come out right by accident,
  and `BitsExactIffHarmless` says exactly when (`RepeatsExample`). An unknown last word has no space to skip to
  (`ScannerInvertsPrinter`, `UnknownExample`).
- *The URL parser inverts the printer.* Without a scheme, a path that holds "://" is taken for the rest of
  a URL (`UrlRoundTrip`, `SchemeInPath`).

Three further conditions that the code relies on are shown to matter: nonzero hashes in the dedup table
(`ZeroHashIsFragile`), one-digit exit codes in command replies (`OnlyOneDigitCodes`) and unique ids of live
requests (`CancelReachesOne`). A wake-up for no reason ends a shutdown wait with success although a comment
in `completion_timedwait_for` says such wake-ups are handled (`SpuriousWakePasses`). A second Content-Length
is kept as an ordinary header although a check against duplicates is written for it; that check cannot be
reached, since the field is only looked at while no length is known (`FoldTabulates`).

## Model

| member | source | states |
|---|---|---|
| `HttpCriticalCuts.FragmentationIff` | netdata-2.6.0/src/aclk/https_client.c:286-441 | For every accepted message with clean lines, of any length, and every split of its bytes into arrivals that never fill the buffer, repeated calls end with the verdict, context and unread bytes of one call on the whole message if and only if no arrival ends at a critical cut (a CR seen alone as a line end whose LF the parser then tries to skip) |
| `HttpResume.FeedMatchesRun` | netdata-2.6.0/src/aclk/https_client.c:567-632 | The reader loop on any stream whose header lines hold their separator, accepted or not and of any length, delivered without a critical cut and without filling the buffer, gets the verdict of one call on the whole stream and, unless the parser failed, its context and unread bytes |
| `HttpResume.Resume` | netdata-2.6.0/src/aclk/https_client.c:368-441 | The simulation behind it: a call that finds room and stops with need-more-data can be resumed on the longer buffer and does what one call on all the bytes does, however many follow; later cuts are critical for the one exactly if they are for the other |
| `HttpResume.RunRoomy` | netdata-2.6.0/src/aclk/https_client.c:294-298 | A call that does not find the buffer full does not depend on the buffer's capacity |
| `HttpFragmentation.StepExtends` | netdata-2.6.0/src/aclk/https_client.c:368-441 | Outside chunk data, a step that is not cut critically makes the same decision and leaves the same bytes plus the new ones when more bytes follow |
| `HttpFragmentation.DataSplits` | netdata-2.6.0/src/aclk/https_client.c:329-340 | Chunk data copied in two arrivals ends in the state of chunk data copied in one |
| `HttpCriticalCuts.CriticalDiffers` | netdata-2.6.0/src/aclk/https_client.c:286-441 | The converse by itself, from any point of an accepted clean message: a first arrival that ends at a critical cut is not made good by whatever arrives later |
| `HttpCriticalCuts.AcceptedIsSeparated` | netdata-2.6.0/src/aclk/https_client.c:231-273 | A run that is not refused found the separator inside every header line it read, although the search is not limited to the line |
| `HttpMessage.ChunksRun` | netdata-2.6.0/src/aclk/https_client.c:286-366 | Chunked round trip (section 7.1 of RFC 9112): for every list of non-empty chunks, with any bytes in them, and every spelling of their sizes (either case, leading zeros, an extension), decoding appends exactly their concatenation, reserves one byte for the terminator and reads nothing behind the last line end |
| `HttpMessage.HeadersRun` | netdata-2.6.0/src/aclk/https_client.c:414-424 | A printed header section is read field by field, is accepted or refused as its fields are, and leaves the parser at the first byte of the content |
| `HttpMessage.ResponseRoundTrip` | netdata-2.6.0/src/aclk/https_client.c:368-441 | One call on any printed response that announces its body by its own decimal Content-Length, by chunked encoding or not at all, followed by anything, recovers its code, framing, header table and body and leaves what follows unread; HTTP/1.0 is covered in answer to a proxy CONNECT |
| `HttpMessage.AnnouncedFraming` | netdata-2.6.0/src/aclk/https_client.c:187-220 | Fields that announce a body decide its framing: the length of the data for the first Content-Length that prints it, chunked for one chunked Transfer-Encoding, none without framing fields |
| `HttpRefusals.StatusLineDecided` | netdata-2.6.0/src/aclk/https_client.c:377-413 | A status line of any text is accepted if and only if it starts with HTTP/1.1, or in answer to a proxy CONNECT HTTP/1.0, and goes on with three digits, the first from 1 to 5, and a space; the code is those digits, whatever follows the line |
| `HttpRefusals.HeaderLineDecided` | netdata-2.6.0/src/aclk/https_client.c:231-273 | A header line with a separator is refused if and only if name or value has 1024 bytes or more or the field breaks the framing, and otherwise has the effect of its lower-cased field; an empty name in a full buffer trips an assertion |
| `HttpRefusals.NoColonDecided` | netdata-2.6.0/src/aclk/https_client.c:231-273 | A header line without a colon is refused, unless a separator in a later line is found, which makes the length of the value negative |
| `HttpRefusals.SizeLineDecided` | netdata-2.6.0/src/aclk/https_client.c:293-328 | A chunk-size line in any spelling is refused if and only if it has 1024 bytes or more, the size is 2^63 - 1 or more, or the size is zero while errno is EINVAL; otherwise the size is its hexadecimal value |
| `HttpRefusals.NegativeSizeRefused` | netdata-2.6.0/src/aclk/https_client.c:310-314 | A negative chunk size is refused |
| `HttpRefusals.ChunkEndDecided` | netdata-2.6.0/src/aclk/https_client.c:329-363 | Two bytes behind the announced data of a chunk are accepted if and only if they are a line end |
| `HttpRefusals.TrailerRefused` | netdata-2.6.0/src/aclk/https_client.c:341-363 | Behind the zero chunk only the blank line is accepted; a trailer field is refused |
| `HttpRefusals.UnfinishedLine` | netdata-2.6.0/src/aclk/https_client.c:293-298 | Without a line end the parser asks for more data and changes nothing, except for a chunk size in a full buffer, which is refused |
| `HttpRefusals.FixedBodyDecided` | netdata-2.6.0/src/aclk/https_client.c:425-438 | A response that prints its own Content-Length is complete if and only if that many bytes of content have arrived or the caller does not wait for them |
| `Text.Strtol16Reads` | netdata-2.6.0/src/aclk/https_client.c:310-314 | The chunk-size conversion reads every spelling of a number, given by its digits in either case with leading zeros, as its positional value, behind white space and a minus sign, and saturates at the ends of a 64-bit long |
| `Text.Strtol16Prefixed` | netdata-2.6.0/src/aclk/https_client.c:310-314 | A prefix 0x or 0X does not change the value |
| `Text.Str2uReads` | netdata-2.6.0/src/libnetdata/inlined.h:120-129 | A printed decimal number behind white space is read modulo 2^32, whatever follows that is no digit |
| `Text.AtoiReads` | netdata-2.6.0/src/aclk/https_client.c:401-406 | A printed decimal number is read behind white space and a sign, whatever follows that is no digit |
| `HttpFraming.FoldTabulates` | netdata-2.6.0/src/aclk/https_client.c:187-220 | The header table of an accepted header section, from the fields alone: every key but the framing ones is there in lower case if and only if some field has it, with the value of the last such field; Transfer-Encoding is never stored, Content-Length exactly when it is repeated |
| `HttpDelivery.CriticalCutsAreCutPoints` | netdata-2.6.0/src/aclk/https_client.c:286-441 | The critical cuts of any well-formed response are exactly the positions behind the CR of its status line, of each header line, of the blank line and of each chunk-size line but the last |
| `HttpDelivery.DeliveredInPieces` | netdata-2.6.0/src/aclk/https_client.c:567-632 | End to end: a well-formed response of any length, in pieces that never fill the buffer, is parsed as one call would parse it if and only if no piece ends at one of those positions, and then code, fields, framing and body are recovered |
| `HttpDelivery.SplitInTwo` | netdata-2.6.0/src/aclk/https_client.c:567-632 | In two pieces the outcome is that of one call if and only if the split is not at one of those positions |
| `HttpDelivery.BlankLineSplit` | netdata-2.6.0/src/aclk/https_client.c:414-439 | What a split inside the blank line costs: without a chunked body verdict and context are those of one call and the line end is left in front of the body; a chunked body is left unread and the response accepted with an empty one |
| `HttpDelivery.LostResponse` | netdata-2.6.0/src/aclk/https_client.c:377-413 | A concrete response that is accepted whole and lost in two pieces |
| `HttpFraming.FramingDecided` | netdata-2.6.0/src/aclk/https_client.c:187-220 | Section 6.3 of RFC 9112: a header section is accepted if and only if its framing fields do not contradict each other, and then the first framing field alone decides the framing |
| `HttpFraming.LengthReads` | netdata-2.6.0/src/aclk/https_client.c:200-204 | A decimal Content-Length below 2^31 is read as itself, behind white space and before any text that does not go on with a digit; from 2^31 to 2^32 it is refused |
| `HttpFraming.DecidedOnce` | netdata-2.6.0/src/aclk/https_client.c:187-220 | Once decided the framing never changes: later fields are accepted exactly when none of them decides again |
| `HttpFraming.BothFramingsRejected` | netdata-2.6.0/src/aclk/https_client.c:187-220 | A message with a Content-Length and a chunked Transfer-Encoding is refused in either order |
| `HttpParser.Step` | netdata-2.6.0/src/aclk/https_client.c:368-441 | Every turn of the state loops keeps the allocation equal to the bytes written plus the bytes owed to the current chunk, so that every copy fits and the size-mismatch report cannot be reached, and consumes input or moves to a later state; asking for more data changes nothing |
| `HttpParser.Run` | netdata-2.6.0/src/aclk/https_client.c:368-441 | A call ends, by unread bytes and then state rank, and keeps the invariant when it asks for more data |
| `HttpClient.HttpParseCtx.ParseHttpResponse` | netdata-2.6.0/src/aclk/https_client.c:368-441 | The loop over the context and the ring buffer, updated in place, computes exactly one run of the step function |
| `HttpClient.HttpParseCtx.ProcessChunkedContent` | netdata-2.6.0/src/aclk/https_client.c:286-366 | The chunked loop computes the content steps; on success the response buffer holds the decoded body and one NUL, in bounds |
| `HttpClient.HttpParseCtx.GrowBy` | netdata-2.6.0/src/aclk/https_client.c:275-284 | The response buffer grows by exactly the chunk size and keeps what was written |
| `HttpClient.HttpParseCtx.ParseHttpHdr` | netdata-2.6.0/src/aclk/https_client.c:231-273 | The header line is split, copied and handed on as the specification says, with the overrun case told apart |
| `HttpClient.HttpParseCtx.ProcessHttpHdr` | netdata-2.6.0/src/aclk/https_client.c:187-220 | One header field has the specified effect on framing and header table, the refusals included |
| `HttpClient.HttpParseCtx.SizeState` | netdata-2.6.0/src/aclk/https_client.c:293-328 | The chunk-size state takes the specified step, with capacity, line length and number checks |
| `HttpClient.HttpParseCtx.DataState` | netdata-2.6.0/src/aclk/https_client.c:329-340 | The chunk-data state pops and copies as specified, within the allocation |
| `HttpClient.HttpParseCtx.CrlfState` | netdata-2.6.0/src/aclk/https_client.c:341-363 | The line-end states take the specified step and write the final NUL in bounds |
| `HttpClient.HttpParseCtx.StatusState` | netdata-2.6.0/src/aclk/https_client.c:377-413 | The status-line state takes the specified step |
| `HttpClient.HttpParseCtx.HeaderState` | netdata-2.6.0/src/aclk/https_client.c:414-424 | The header state takes the specified step, the line that starts with its separator in a full buffer told apart |
| `HttpClient.ReadParseResponse` | netdata-2.6.0/src/aclk/https_client.c:567-632 | Appending arrivals to the ring buffer, as long as each fits when it comes, and calling the parser while it asks for more is the reader loop of the specification |
| `RingBuffer.FindIs` | netdata-2.6.0/src/libnetdata/ringbuffer/ringbuffer.c:172-195 | The byte search returns the first position whose available bytes agree with the needle, a needle cut off by the end of the data included, and no other |
| `RingBuffer.Rbuf.Find` | netdata-2.6.0/src/libnetdata/ringbuffer/ringbuffer.c:172-195 | The search over the wrapped array is the search over the unread bytes |
| `RingBuffer.Rbuf.Memcmp` | netdata-2.6.0/src/libnetdata/ringbuffer/ringbuffer.c:146-165 | The comparison that stops at the head compares the unread bytes only, a full buffer included |
| `RingBuffer.Rbuf.Pop` | netdata-2.6.0/src/libnetdata/ringbuffer/ringbuffer.c:124-137 | Copying around the wrap takes exactly the oldest unread bytes; popping nothing from a full buffer is excluded as by the assertion it trips |
| `RingBuffer.Rbuf.BumpTailBy` | netdata-2.6.0/src/libnetdata/ringbuffer/ringbuffer.c:76-92 | Skipping drops the oldest bytes, or changes nothing when asked for more than there are; skipping nothing in a full buffer is excluded by the source's assertion |
| `RingBuffer.Rbuf.Push` | netdata-2.6.0/src/libnetdata/ringbuffer/ringbuffer.c:109-122 | Arriving bytes are appended behind the unread ones |
| `Url.UrlRoundTrip` | netdata-2.6.0/src/aclk/https_client.c:922-1002 | For every non-empty scheme without ':' or none, non-empty host without ':' or '/', port of at most five digits or none, and empty or '/'-led path, parsing the printed URL recovers all parts ("/" for an empty path; without a port, or with port 0, 80 for http, 443 for https, else 0) if and only if a scheme is given or the path holds no "://" |
| `Url.SchemeInPath` | netdata-2.6.0/src/aclk/https_client.c:965-1002 | A concrete URL without a scheme that is not parsed back |
| `Url.PortRefused` | netdata-2.6.0/src/aclk/https_client.c:922-942 | Behind the last colon of an authority an explicit port is refused if and only if it is empty or longer than five characters or no host is in front of it |
| `Url.EmptyPartsRefused` | netdata-2.6.0/src/aclk/https_client.c:965-991 | A URL that starts with "://" or has no host is refused |
| `Url.UrlT.Parse` | netdata-2.6.0/src/aclk/https_client.c:965-1002 | Filling the struct step by step gives the specified parts and fails exactly when the specification does |
| `Url.UrlT.ParseHostPort` | netdata-2.6.0/src/aclk/https_client.c:922-942 | The last colon splits host and port; the error cases are those of the specification |
| `Url.UrlT.PortByProto` | netdata-2.6.0/src/aclk/https_client.c:944-963 | The port is left alone or set from the scheme |
| `QueueProtocol.QueueSafety` | netdata-2.6.0/src/daemon/libuv_workers.c:162-208 | In every run of any number of blocking and non-blocking producers and consumers, spurious wake-ups included: accepted pushes are, in order, the popped commands followed by the buffer contents; and with a sleeping producer the free slots are no more than the awakened producers that have not run plus the consumers about to signal, and no more than the awakened producers alone while the lock is free |
| `QueueProtocol.RunIsFifo` | netdata-2.6.0/src/daemon/libuv_workers.c:174-208 | The same from any state that satisfies the invariant, with what was queued before; the invariant and the pool size are kept over the run |
| `QueueProtocol.StepRefines` | netdata-2.6.0/src/daemon/libuv_workers.c:174-208 | Every step is a step of an atomic bounded FIFO queue: a push is refused only when the queue is full, a pop finds nothing only when it is empty |
| `QueueProtocol.StepKeepsInv` | netdata-2.6.0/src/daemon/libuv_workers.c:174-208 | Every step keeps mutual exclusion and the wake-up bound |
| `QueueProtocol.RoomIsTaken` | netdata-2.6.0/src/daemon/libuv_workers.c:174-208 | If a producer sleeps beside a free slot, the lock holder or an awakened producer can take a step |
| `QueueCalls.PushCall` | netdata-2.6.0/src/daemon/libuv_workers.c:174-193 | In every run, a push that has returned caused exactly one event, with its last step: if it waits, its command was stored; if it does not wait, its command was stored or the queue was full, and it never slept |
| `QueueCalls.PopCall` | netdata-2.6.0/src/daemon/libuv_workers.c:195-208 | In every run, a pop that has returned caused exactly one event: it found the queue empty and returned at once, or it took the oldest command and returned with the wake-up of a producer |
| `QueueCalls.WhoCanAct` | netdata-2.6.0/src/daemon/libuv_workers.c:174-208 | In every reachable state a thread that wants the lock gets it exactly when no thread holds it, and the holder can always go on |
| `CommandQueue.PushAppends` | netdata-2.6.0/src/daemon/libuv_workers.c:187-189 | Storing at the tail position appends to the queued commands, whatever the positions are |
| `CommandQueue.PopTakesOldest` | netdata-2.6.0/src/daemon/libuv_workers.c:201-203 | Taking from the head position removes the oldest command |
| `CommandQueue.CmdPool.TryPush` | netdata-2.6.0/src/daemon/libuv_workers.c:174-193 | The critical section of a push that does not wait: appended, or refused exactly when full |
| `CommandQueue.CmdPool.PopCmd` | netdata-2.6.0/src/daemon/libuv_workers.c:195-208 | The critical section of a pop: the oldest command, or nothing exactly when empty |
| `SlotPool.PoolSafety` | netdata-2.6.0/src/daemon/libuv_workers.c:124-159 | Over every sequence of gets and returns of held records: free entries and slots held outside are disjoint, free of duplicates and cover all indices; no record has two holders; the heap is used exactly when every slot is out; the stack never overflows |
| `SlotPool.GetKeeps` | netdata-2.6.0/src/aclk/aclk_query_queue.c:25-38 | A get hands out a record nobody holds, from the heap exactly when all slots are held, and keeps the partition |
| `SlotPool.ReturnKeeps` | netdata-2.6.0/src/aclk/aclk_query_queue.c:40-55 | A return of a held record keeps the partition and stays inside the stack |
| `SlotPool.SlotStack.Take` | netdata-2.6.0/src/daemon/libuv_workers.c:134-146 | The in-place get is the specified one |
| `SlotPool.SlotStack.GiveBack` | netdata-2.6.0/src/daemon/libuv_workers.c:148-159 | The in-place return is the specified one; the array write is in bounds because the record was held |
| `CommandLocks.SomeoneCanStep` | netdata-2.6.0/src/daemon/commands.c:484-532 | Deadlock freedom: in every state that satisfies the invariant and has unfinished commands some thread can step, with readers queued behind writers or not, although the orthogonal unlock releases the rwlock before the mutex |
| `CommandLocks.RunsComplete` | netdata-2.6.0/src/daemon/commands.c:484-606 | Every run of any threads and commands is bounded, a run that cannot go on has executed every command, and a high-priority command can step in every state of every run |
| `CommandLocks.RunsAreSafe` | netdata-2.6.0/src/daemon/commands.c:484-606 | In every state of every run: beside an exclusive body only high-priority bodies run, and no orthogonal command runs twice |
| `CommandLocks.ShutdownRunsAlone` | netdata-2.6.0/src/daemon/commands.c:54-73 | With the daemon's own command table, beside shutdown-agent only help and fatal-agent ever run |
| `CommandLocks.StepInv` | netdata-2.6.0/src/daemon/commands.c:484-532 | Every lock operation keeps the locks held by exactly the threads whose stage says so |
| `CommandsTogether.WhoIsHeldBack` | netdata-2.6.0/src/daemon/commands.c:484-532 | In every reachable state a thread is held back exactly when it must be: a reader by a running exclusive command (or a waiting one where readers queue behind writers), a writer by any other holder of the lock, a mutex by another thread that runs or leaves the same command, a high-priority command never |
| `CommandsTogether.TogetherIff` | netdata-2.6.0/src/daemon/commands.h:39-57 | From idle threads some run reaches a state in which every thread runs its first command if and only if each exclusive command meets only high-priority ones and no orthogonal command is repeated |
| `CommandsTogether.PairsTogether` | netdata-2.6.0/src/daemon/commands.c:54-73 | With the daemon's own table two commands can run at the same time unless one is shutdown-agent and the other neither help nor fatal-agent, or both are the same and not help, fatal-agent or read-config |
| `CommandsTogether.EachRunsOnce` | netdata-2.6.0/src/daemon/commands.c:596-606 | In every run each thread has begun its commands in their order, none twice and none left out, and at the end exactly all of them |
| `CommandsTogether.ReadLockGoesFirst` | netdata-2.6.0/src/daemon/commands.c:516-520 | An orthogonal command that ends gives up the read lock before the mutex: an exclusive command may begin then, the same command not yet |
| `CommandReply.ReplyRoundTrip` | netdata-2.6.0/src/cli/cli.c:25-63 | For every status and every NUL-free or absent message, the tool recovers from the written bytes exit status 0, 1 or 2 and the message, on stdout exactly for success, without a syntax error |
| `CommandReply.OnlyOneDigitCodes` | netdata-2.6.0/src/cli/cli.c:43-45 | A reply is read without a syntax error if and only if its exit code has one digit; the code itself is recovered either way |
| `CommandReply.WhiteSpaceIgnored` | netdata-2.6.0/src/cli/cli.c:36-40 | White space in front of any reply changes nothing |
| `CommandReply.SendCommandReply` | netdata-2.6.0/src/daemon/commands.c:566-594 | The buffer holds X0, X1 or X2 for success, failure or busy, a NUL, and the message if there is one, led by O for success and by E otherwise |
| `CommandReply.ParseCommandReply` | netdata-2.6.0/src/cli/cli.c:25-63 | The nested loops compute the turn-by-turn reading, stopping at a syntax error |
| `Dedup.PostedIffRemembered` | netdata-2.6.0/src/daemon/status-file-dedup.c:160-181 | For a table that mirrors a history of nonzero hashes kept at strictly increasing positive times: a key is already posted if and only if it was kept less than 82800 seconds ago and fewer than fifty distinct keys were kept since |
| `Dedup.KeepReflects` | netdata-2.6.0/src/daemon/status-file-dedup.c:183-222 | Keeping a key keeps the mirror: each slot is empty or the last keep of its key, no key is in two slots, and a key missing from the table is older than every slot of a full table |
| `Dedup.NothingEvictedWhileRoom` | netdata-2.6.0/src/daemon/status-file-dedup.c:199-218 | No other key is dropped while a slot is empty |
| `Dedup.ZeroHashIsFragile` | netdata-2.6.0/src/daemon/status-file-dedup.c:199-207 | Why the hash must not be zero: a zero hash kept just before is still found after one more keep if and only if that keep refreshed a key already in the table |
| `DedupFile.RunsAnswer` | netdata-2.6.0/src/daemon/status-file-dedup.c:140-222 | Over every run of keeps, saved or not, questions and restarts, questions are answered exactly from the keeps that survived in file or memory |
| `DedupFile.SavedRunsAnswer` | netdata-2.6.0/src/daemon/status-file-dedup.c:140-222 | With successful saves the answers come from all keeps of the run, across restarts |
| `DedupFile.Store.KeepHash` | netdata-2.6.0/src/daemon/status-file-dedup.c:183-222 | The loops over the slot array, with load before and save after, make the specified change to memory and file |
| `DedupFile.Store.AlreadyPosted` | netdata-2.6.0/src/daemon/status-file-dedup.c:160-181 | The loop answers for the loaded table, the unsigned subtraction included |
| `DedupFile.Store.FindPlace` | netdata-2.6.0/src/daemon/status-file-dedup.c:189-214 | The three searches choose the same key, else the first empty slot, else the first oldest slot |
| `DedupFile.Store.Load` | netdata-2.6.0/src/daemon/status-file-dedup.c:108-145 | A good file replaces the table, a bad one zeroes it, a missing one leaves it |
| `UpsRegistry.SyncedIffClean` | upsd_plugin.c:745-815 | After every completed sweep of any run, in any iteration order: name and vars hold exactly the names of that cycle's list and seen holds the same names all false, if and only if no name listed so far contains a space or a dot |
| `UpsRegistry.RegistersNewcomers` | upsd_plugin.c:757-764 | In a run of clean names a cycle registers exactly the listed names absent from the preceding list, each once |
| `UpsRegistry.NewsMeans` | upsd_plugin.c:757-764 | In any state whose dictionaries are in step a cycle registers exactly the listed names without an entry, each once |
| `UpsRegistry.RunInStep` | upsd_plugin.c:694-815 | In every run, whatever the names, name and vars have the same keys, every mark has an entry, and stored values are the cleaned keys |
| `UpsRegistry.SweepClean` | upsd_plugin.c:803-814 | With clean names a sweep drops exactly the unmarked names it meets and clears the other marks |
| `UpsRegistry.SweepSkipsUnclean` | upsd_plugin.c:803-814 | No sweep ever removes an unclean name or clears its mark, because it works on stored cleaned names |
| `UpsRegistry.ListedUpsDropped` | upsd_plugin.c:803-814 | Two names that clean to the same text: a UPS that was just listed is dropped |
| `UpsRegistry.CleanNameIsClean` | upsd_plugin.c:376-380 | Cleaning turns each space and dot into an underscore and keeps every other character, so it makes any name clean and is the identity exactly on clean names |
| `UpsRegistry.CleanInPlace` | upsd_plugin.c:376-380 | The in-place loop replaces exactly the spaces and dots |
| `UpsRegistry.Registry.CollectAll` | upsd_plugin.c:745-784 | The listing loop of a cycle makes the specified change to the three dictionaries and registers the specified names |
| `UpsRegistry.Registry.SweepAll` | upsd_plugin.c:803-814 | The sweep loop makes the specified change |
| `UpsRegistry.Registry.EnlistAll` | upsd_plugin.c:702-725 | The listing at start-up registers every name and marks none |
| `UpsRegistry.Registry.RegisterUps` | upsd_plugin.c:554-556 | Registering sets the cleaned name and the vars entry and leaves the marks |
| `StatusScanner.ScannerInvertsPrinter` | upsd_plugin.c:425-511 | For every list, with repeats, of documented words other than OFF and of unknown words, joined by spaces, the bits set are exactly those of the items (unknown words only OTHER) and the cursor stops at the terminator, if and only if the last item is a documented word |
| `StatusScanner.ExactIffNoOff` | upsd_plugin.c:425-511 | For documented words without repeats the bits are exactly those of the list if and only if OFF is not in it |
| `StatusScanner.BitsExactIffHarmless` | upsd_plugin.c:425-511 | For every list of documented words, with repeats: the bits are exactly those of the list if and only if OFF is absent, or no OFF is read in the last two places, every word it swallows is OL or OFF, FSD is listed, and with a swallowed OL also LB and an OL that is read |
| `StatusScanner.RepeatsExample` | upsd_plugin.c:490-492 | A concrete list with OFF whose bits come out right |
| `StatusScanner.ScanReads` | upsd_plugin.c:425-511 | What the scanner makes of every list of documented and unknown words, OFF included: OFF also sets FSD and swallows the first letter of the next word; with at most one documented word behind it, it sends the cursor past the terminator; an unknown word behind it is scanned from its second letter |
| `StatusScanner.OffExample` | upsd_plugin.c:490-492 | A concrete text with OFF and the wrong flags it sets |
| `StatusScanner.UnknownExample` | upsd_plugin.c:506-509 | A concrete text whose last word is unknown sends the cursor to a null pointer |
| `StatusScanner.ScanStatus` | upsd_plugin.c:421-511 | The cursor loop sets exactly the bits of the specified scan and leaves the text exactly when the specification says so; a missing variable sets none |
| `StatusScanner.Switch` | upsd_plugin.c:426-510 | The nested switch sets the specified flag and moves the cursor by the specified stride, the null pointer case included |
| `Shutdown.EveryWaitEnds` | netdata-2.6.0/src/daemon/daemon-shutdown-watcher.c:40-149 | For every timing of completions and wake-ups every wait ends, by success or abort, less than 136 seconds after the shutdown began |
| `Shutdown.DeadlineIsSharp` | netdata-2.6.0/src/daemon/daemon-shutdown-watcher.c:66-77 | An abort in the last microsecond before 136 seconds is possible |
| `Shutdown.FinishesIffOnTime` | netdata-2.6.0/src/daemon/daemon-shutdown-watcher.c:40-149 | Without wake-ups for no reason, the shutdown is not aborted if and only if every step completes before its own wait expires |
| `Shutdown.PromptStepsFinish` | netdata-2.6.0/src/daemon/daemon-shutdown-watcher.c:40-149 | Steps that all complete within 135 seconds are never aborted, whatever the wake-ups |
| `Shutdown.SpuriousWakePasses` | netdata-2.6.0/src/libnetdata/completion/completion.c:37-70 | A wake-up for no reason counts as completion: the watcher walks past a step that never completes |
| `Shutdown.Watcher.Watch` | netdata-2.6.0/src/daemon/daemon-shutdown-watcher.c:115-149 | The fixed sequence of waits is the chain of waits over the steps in enumeration order, and the recorded times are its end times |
| `Shutdown.Watcher.WaitForStep` | netdata-2.6.0/src/daemon/daemon-shutdown-watcher.c:40-113 | One wait uses what is left of the common budget and advances the chain by one step or ends it |
| `Shutdown.Watcher.TimedWait` | netdata-2.6.0/src/libnetdata/completion/completion.c:37-70 | A wait returns at once for a completed step and otherwise with the wake-up, within its timeout |
| `Shutdown.Cleanup.CleanupAndExit` | netdata-2.6.0/src/daemon/daemon-shutdown.c:179-333 | In every branch all steps are signalled, each once, in the order the watcher waits for them; a recursive call signals nothing |
| `Shutdown.Cleanup.StopStorage` | netdata-2.6.0/src/daemon/daemon-shutdown.c:259-303 | The abnormal, engine-enabled, engine-disabled and not-compiled branches signal the same four steps in order |
| `Shutdown.InOrderIsComplete` | netdata-2.6.0/src/daemon/daemon-shutdown-watcher.h:8-34 | A log of all steps in order holds every step and none twice |
| `PendingRequests.RunAgrees` | netdata-2.6.0/src/aclk/aclk_query.c:31-104 | Over every run of add, remove, cancel and cancel-all with unique live ids: an id is in the list exactly while it is live, and its flag is set exactly when a cancel for it or of everything came after its add |
| `PendingRequests.InterruptedIffCanceled` | netdata-2.6.0/src/aclk/aclk_query.c:100-104 | Request by request: each one in the list is live and is interrupted exactly when it was cancelled after its add |
| `PendingRequests.CancelReachesOne` | netdata-2.6.0/src/aclk/aclk_query.c:80-98 | Why ids must be unique: a cancel flags all requests with its id if and only if there is at most one |
| `PendingRequests.PendingList.AddRequest` | netdata-2.6.0/src/aclk/aclk_query.c:31-42 | The new node is the head, not cancelled, in front of the old list |
| `PendingRequests.PendingList.RemoveRequest` | netdata-2.6.0/src/aclk/aclk_query.c:44-67 | Relinking removes exactly the first request with the id; the hash prefilter decides as plain comparison does |
| `PendingRequests.PendingList.CancelRequest` | netdata-2.6.0/src/aclk/aclk_query.c:80-98 | The first request with the id is flagged and 0 returned if there is one, else nothing changes and 1 is returned; the hash prefilter decides as plain comparison does |
| `PendingRequests.PendingList.CancelEverything` | netdata-2.6.0/src/aclk/aclk_query.c:69-78 | Every request is flagged, none added or removed |
| `PendingRequests.SimpleHash` | netdata-2.6.0/src/libnetdata/inlined.h:63-71 | The loop computes the 32-bit FNV-1a hash |
| `PendingRequests.FnvVectors` | netdata-2.6.0/src/libnetdata/inlined.h:63-71 | The hash has the published FNV-1a values for no byte, "a" and "ab" |

## Left out

- Sockets, TLS, `poll`, timeouts and retries of the HTTPS client: foreign calls; arrivals are a list of byte strings.
- HTTP trailers: the parser refuses them (`TrailerRefused`), and the printer prints none. A header line without a separator of its own is modelled (`Overrun` stands for the copy of negative length), but the fragmentation theorems exclude it.
- HttpMessage.ResponseRoundTrip: non-empty keys; keys, values and size lines shorter than the 1024-byte line buffer, and `errno` not left at EINVAL by an earlier call, because the parser reads `errno` without clearing it (it is a parameter of the model). What happens otherwise is in `HttpRefusals`. Chunk sizes carry no sign, prefix or white space, which the grammar of section 7.1 of RFC 9112 does not allow.
- HttpCriticalCuts.FragmentationIff: the direction that needs the cuts is proved for messages whose lines hold no bare CR (section 2.2 of RFC 9112 forbids them); the other direction, `FeedMatchesRun`, has no such restriction.
- HttpCriticalCuts.FragmentationIff, HttpResume.FeedMatchesRun and HttpDelivery.DeliveredInPieces: what the buffer holds at a call stays below its capacity; the length of the message is not limited. A full buffer is a refusal in the chunk-size state and is modelled there.
- HttpResume.FeedMatchesRun: after a failed parse only the verdict is compared, because the caller discards the context and the buffer.
- HttpClient.HttpParseCtx.ParseHttpResponse: starts from zeroed chunk fields; a context reused after a proxy CONNECT is not modelled, nor are allocation failure and `size_t` overflow.
- Text.Atoi: overflow of `int` is undefined in C and not modelled; the parsers hand it at most five digits, or a code the daemon wrote.
- RingBuffer.Rbuf.BumpTailBy: the assertion against skipping nothing in a full buffer is the method's precondition, and the one header line that trips it ends the model's run with `Overrun`; a build without assertions, which would empty the buffer there, is not modelled.
- QueueProtocol.QueueSafety: the condition variable wait is a transition system rather than a method; the in-place methods are the critical sections.
- CommandLocks.RunsComplete: command bodies are single steps that end and do not nest.
- SlotPool.PoolSafety: the zeroing of records on get and return is not modelled.
- DedupFile.Store.Load: the choice of the newest among several directories is not modelled; there is one file, whose loss of contents to a partial write the rename excludes. The file's magic, version and checksum appear as good or corrupt.
- The 64-bit hash of a crash report and the anonymizing of stack traces in `status-file-dedup.c`: their values do not enter the properties.
- UpsRegistry.Registry.RegisterUps: charts and the per-UPS variable list it prints and stores are not modelled, only the entry in the vars dictionary.
- `ups.realpower`, number printing and chart output of `upsd_plugin.c`: floating point and formatting.
- StatusScanner.BitsExactIffHarmless: lists with `OFF` and unknown words have a reading (`ScanReads`) but no condition on the bits, because an unknown word behind `OFF` may start any stride.
- Shutdown.EveryWaitEnds: bookkeeping between waits takes no time; a third return code of the timed wait, which libuv never returns, is not modelled, and neither is the sanitizer build, which waits without a timeout.
- Shutdown.FinishesIffOnTime: a completion in the very microsecond in which its wait expires may go either way and is excluded.
- PendingRequests.PendingList.RemoveRequest: freeing of the node and the lifetime of the id it points to are not modelled; the spinlock makes each operation one step of a run.
- `protected-access`, signal handlers, `aclk_tbeb_delay`, build info, analytics, claiming, packaging scripts: control flow outside a sequential model, floating point, or only easy members.
