# Verified model of the rsyncme delta pipeline

rsyncme updates a file `y` to the content of a file `x` by sending only what differs. The holder
of `y` splits it into blocks of `L` bytes and sends a fast and a strong checksum of each. The
holder of `x` slides a window over `x`, rolls the fast checksum, looks each window up in a table
of the received checksums and emits *delta elements*: references to blocks, literal bytes, a
shorter reference for the tail, or one element saying that nothing differs. The receiver rebuilds
`x` from the elements and `y`.

The project models that pipeline from the checksum arithmetic to the rebuilt file, on one host
(local push) and between two hosts with five concurrent activities (remote push), together with
the work queue and the control messages around it.

## How the model is organised

| module | subject |
|---|---|
| `Machine` | machine words, byte order, arithmetic used everywhere |
| `Checksum` | fast checksum, Adler-32, their rolling and deferred forms (`src/rm.c`) |
| `Md5` | MD5 buffering and padding with the compression function a parameter (`src/md5.c`) |
| `Blocks`, `Table`, `Channel` | blocks of `y`, the bucketed table, the 20-byte checksum frames |
| `Roller` | the producer reduced to a cursor and a literal buffer |
| `RollingProc` | `rm_rolling_ch_proc` itself: clamped cursors, stale buffers, both rolls; it refines `Roller` |
| `Files`, `Rebuild`, `Receiver`, `Collisions` | copy loops, what elements denote, element processing and counters, and what collisions do |
| `LocalPush`, `RemotePush` | the imperative pieces put together on one host, and on two over sockets |
| `LocalRuns` | the two threads of a local push as a transition system |
| `Wire`, `Tcp`, `Streams` | the delta protocol, partial reads and writes, and the code that moves elements and frames over sockets |
| `Literals`, `Costs`, `Shifts` | which bytes are sent as literals, and how many |
| `Remote`, `RemoteSafety`, `RemoteOutcome` | remote push as a transition system, its invariants, and what a session achieves |
| `WorkQueue`, `WorkRuns`, `WorkProgress` | the dispatcher; dispatcher, workers and stop procedure as a transition system; how far it gets |
| `Serialize`, `Messages` | big-endian integers and strings in a buffer; headers, push requests and acknowledgements |

Functions that exist only outside the repository (`twhash_min`, `twhash_32`) and the MD5
compression step are parameters: every theorem holds for all of them. The strong checksum is a
parameter too. That equal checksums mean equal bytes is assumed only where it is needed, and only
of the windows of `x` and the blocks of `y` at hand (`Rebuild.NoCollision`). The host is 64-bit and
little-endian; machine words wrap explicitly.

The lookups of `rm_rolling_ch_proc` see whatever part of the table has arrived. `RollingProc` takes
an arbitrary schedule of insertions, one batch before each lookup, and `Remote` interleaves
insertion with everything else.

## Main results

* **Remote push.** In every reachable state of every interleaving, `x` is the concatenation of what
  has been received, is on the wire, is queued, is pending, is buffered and has not been looked at
  (`RemoteOutcome.XIsInTransit`). Every schedule rebuilds `x` if and only if a copy threshold fires
  at once, or `x` is longer than a block, or `y` equals `x`, or `x` is no block of `y`
  (`RemoteOutcome.RemotePushExact`); otherwise some schedule fails and some other does not
  (`BadSchedule`, `GoodSchedule`). `RemotePush.Push` proves the outcome once more from the
  imperative code of both hosts, under every schedule of insertions and every way sockets cut and
  interrupt transfers. Sessions cannot deadlock (`Progress`) and take a number of steps linear in
  the file sizes (`RunsAreBounded`).
* **Local push.** The same with its own exact condition, for every interleaving of the two threads
  (`LocalRuns.LocalRunExact`) and end to end from the imperative code (`LocalPush.Push`). Concrete
  files fail each of the two conditions (`Receiver.LocalPushCanFail`,
  `RemoteOutcome.RemotePushCanFail`).
* **Literals.** A byte is sent as a literal exactly when the lookup at it found no entry of the
  table as it then was, or a copy threshold sent it without one (`Literals.LiteralsUnmatched`,
  `Literals.MissIsLiteral`).
* **Edit locality.** With a full table, equal sizes and no copy thresholds, the literal bytes are
  bounded by the changed blocks times `L`, whatever collides (`Costs.EditLocality`). Without the
  equal sizes, a piece of `y` replaced by another costs that piece and less than two blocks, however
  far the rest has moved (`Shifts.EditCost`). Both bounds hold of the counters `LocalPush.Push`
  returns, and of those of `RemotePush.Push` when all checksums arrive before the first lookup.
* **Collisions.** Whatever collides, a finished local push rebuilds `x` if and only if every hit named
  a place that holds its window, or after a ZERO_DIFF `x` is a prefix of `y`
  (`Collisions.PushExactly`).
* **Arithmetic.** The rolls equal the checksum of the shifted or shortened block under machine wrap,
  for exactly the moduli that divide the word (`RollsExactlyWhen`, `TailRollsExactlyWhen`); the Adler-32
  roll is right exactly when neither difference wraps, for every block length;
  5552 is exactly the longest block the deferred sums can take.
* **Formats.** Round trips for delta streams, checksum frames, messages and MD5 padding, with exact
  conditions where the original does not promise one.
* **Work queue.** Nothing lost or repeated, FIFO per worker, fair round robin, no lost wake-up, runs
  of bounded length; and stopping the queue can always return if and only if no work is queued or
  executed at the call (`WorkProgress.StopIsSafeExactlyWhen`).

## Where code and documentation differ

The code is followed, except for `rm_calc_msg_len`.

* A zero-difference element is described as the whole file matching, with as many bytes to copy as
  `y` has (`include/rm.h:127`, `include/rm_session.h:36`); the roller emits it when the window is
  all of `x` (`src/rm.c:539`), whichever block of `y` it matched. The local receiver copies the
  first `|x|` bytes of `y`, the remote one all of `y`. When `x` is a block of a longer `y` the
  result can be wrong; the two exact conditions above say when.
* A file below the copy-all threshold is said to be sent as a zero-difference element
  (`include/rm.h:178`); the code sends one literal element (`src/rm.c:452-461`, `src/rm.c:627`).
* The comment at `src/rm.c:127` asks for an even modulus; what the rolls need, and all they need, is
  a modulus that divides the word (`Checksum.RollsExactlyWhen`, `Checksum.TailRollsExactlyWhen`).
* `rm_calc_msg_len` switches on the message's header type, but for a push message the cast at
  `src/rm_do_msg.c:353` reads the type from the wrong structure. The model takes the type of the
  message's own header.
* `include/rm_wq.h:55` says the number of workers is set to the threads that were created;
  `workers_n` keeps the requested number, truncated to eight bits (`src/rm_wq.c:101`).
* `rm_tx_local_push` reports success for an empty `x` although its roller refuses to run; the
  status of a failed thread is stored and never returned (`src/rm_tx.c:167-172`, `src/rm_tx.c:257`).
* `rm_wq_workqueue_stop` promises to stop the workers. A worker told to stop while it executes work
  goes to sleep without looking again (`WorkRuns.StopJoinsExactlyWhen`,
  `WorkProgress.StopIsSafeExactlyWhen`).

## Model

| member | source | states |
|---|---|---|
| Checksum.FastCheckBlock | src/rm.c:17-38 | the loop with a modulus at every byte computes both sums of the block, the second weighting each byte by its distance from the end, each reduced once |
| Checksum.FastCheckIs | src/rm.c:22-37 | what that checksum is: zero of no byte, twice the byte of one, and of two pieces both halves added modulo 65536, the first half of the first piece once more for every byte of the second; this fixes it for every block |
| Checksum.FastCheckKnown | src/rm.c:22-37 | 129 bytes of 255 have the halves 32895 and 41023 |
| Checksum.Adler32Is | src/rm.c:46-61 | Adler-32 starts at 1 and 0, and each byte adds to the first half and the new first to the second, modulo 65521 |
| Checksum.Adler32Known | src/rm.c:46-61 | the Adler-32 halves of 300 bytes of 255 |
| Checksum.Adler32_1 | src/rm.c:41-62 | the plain loop gives the Adler-32 of the data |
| Checksum.Adler32_2 | src/rm.c:71-105 | the deferred loop, from any start halves, continues the checksum without a 32-bit overflow, and from 1 gives what the plain loop gives |
| Checksum.Deferred | src/rm.c:80-97 | one block of at most 5552 bytes, sixteen at a time and then one by one, leaves both sums unreduced and inside 32 bits |
| Checksum.NmaxIsExact | include/rm.h:214-229 | no block of at most 5552 bytes overflows and for every greater length some block does |
| Checksum.Adler32FromConcat | src/rm.c:71-105 | on a reduced seed, two pieces one after the other give the checksum of their concatenation |
| Checksum.RollModCorrect | src/rm.c:128-144 | rolling with wrapping words equals recomputing on the shifted block for every modulus that divides the word size |
| Checksum.RollTailModCorrect | src/rm.c:148-158 | dropping the first byte with wrapping words equals recomputing on the shortened block for every modulus that divides the word size |
| Checksum.RollsExactlyWhen | src/rm.c:127-144 | the full roll is right on every block and byte if and only if the modulus divides the word |
| Checksum.TailRollsExactlyWhen | src/rm.c:148-158 | the tail roll is right on every block if and only if the modulus divides the word |
| Checksum.OtherModuliFail | src/rm.c:127-158 | for any other modulus, even ones included, one and the same block is rolled wrongly by both |
| Checksum.FastCheckRollCorrect | src/rm.c:128-144 | the full roll equals the checksum of the block shifted by one byte, for every block |
| Checksum.FastCheckRollTailCorrect | src/rm.c:148-158 | the tail roll equals the checksum of the block without its first byte, for every block |
| Checksum.Adler32RollExactlyWhen | src/rm.c:107-124 | with the prime modulus the roll is right if and only if neither wrapped difference went below zero, for every block a size_t can measure |
| Checksum.Adler32RollFails | src/rm.c:107-124 | a concrete block on which the prime-modulus roll is wrong |
| Md5.Context.Update | src/md5.c:135-148 | after any number of bytes the buffer, bit count and state are those of the whole message so far |
| Md5.Context.Absorb | src/md5.c:139-147 | one byte extends the absorbed message, compressing exactly at each full block |
| Md5.Context.Mark | src/md5.c:157-168 | the marker and zeros fill the buffer from its used length to the given end and keep what was there |
| Md5.Context.StoreLength | src/md5.c:172-179 | the last eight bytes become the bit count, least significant first |
| Md5.Context.Output | src/md5.c:184-189 | the digest is the four state words, each least significant byte first |
| Md5.Context.Final | src/md5.c:150-190 | in both padding cases the output is the digest of the message padded as sections 3.1 and 3.2 of RFC 1321 say |
| Md5.PadInjective | src/md5.c:150-178 | different messages of fewer than 2^64 bits have different padded forms |
| Md5.InitialStateShows | src/md5.c:125-133 | with steps that change nothing the 16 digest bytes are 01 23 to ef and fe dc to 10, whatever the message |
| Md5.PadKnown | src/md5.c:150-179 | the padded forms of 3 and of 56 bytes, the second over two blocks, bit count included |
| Md5.StreamMd5 | src/md5.c:125-190 | however a message is split into updates, the digest is that of the whole |
| Md5.RmMd5 | src/rm.c:185-192 | the one-shot call gives the digest of the whole buffer |
| Blocks.BlockCountIsCeiling | src/rm_session.c:142 | the blocks the loop produces number the size divided by L, plus one when L does not divide it |
| Blocks.BlocksPartition | src/rm_rx.c:129-176 | the blocks joined in order are y, none left out and none overlapping |
| Table.Checksums | src/rm_rx.c:139-155 | one block read and hashed is the entry of that block, its number as reference |
| Blocks.LegitMeans | src/rm.c:506-529 | a correct answer field by field: none when no entry has both checksums of the window, and else the number of one that has both |
| Table.Hashtable.Insert | src/rm_rx.c:164-166 | an insertion adds one entry to the table and keeps each bucket exactly the entries hashing to it |
| Table.Probe | src/rm.c:506-529 | for any bucket function the bucketed lookup misses if and only if every entry of the whole table differs from the window in the fast or the strong checksum, and a hit returns the number of an entry equal in both |
| Table.InsertBlock | src/rm_rx.c:138-171 | one block is hashed, sent if there is a stream and then inserted if there is a table; when sending fails the table stays and a proper part of the frame is on the stream |
| Table.InsertNonoverlapping | src/rm_rx.c:90-191 | the table gains, and the stream gets, exactly the entries of the first blocks of y in order, also those before a transmission that fails; the limit, the empty file and the bad calls are handled as in the code |
| Channel.FrameRoundTrip | src/rm_tcp.c:48-59 | a 20-byte frame gives back both checksums, and arrival order the reference |
| Channel.FrameBytes | src/rm_tcp.c:48-59 | the frame byte by byte: the second half of the fast checksum, the first, each most significant byte first, and the strong checksum |
| Channel.ChannelRoundTrip | src/rm_session.c:385-421 | the receiver of any list of frames rebuilds the sender's entries, references included |
| Channel.ChannelCarriesTable | src/rm_session.c:321-328 | the transmitter's table equals, entry for entry, the one built from y directly, and both ends count the same number of frames |
| Tcp.TxChCh | src/rm_tcp.c:48-59 | filling the local buffer and sending it puts exactly the frame of the entry on the stream, or on a break a proper part of it |
| Streams.RxChCh | src/rm_session.c:392-412 | one frame is read in two parts and is the entry with the next number |
| Streams.ChChRx | src/rm_session.c:385-421 | the receiving loop succeeds exactly when all frames arrive, however they are cut into reads; at its end, and when the stream ends or breaks before, it has the entries of the frames read so far in order |
| Roller.AdvanceShape | src/rm.c:470-574 | one iteration moves the cursor forward and keeps literals, emitted elements and cursor adding up |
| Roller.RestExactlyWhen | src/rm.c:452-474 | a matched window is not sent as such, and the rest of x is, if and only if x is shorter than the copy-all threshold, there is no table, or no more than the copy-tail threshold is left |
| Roller.EachProbe | src/rm.c:452-529 | in a finished run the first position at which that holds is the last one, and the run ends in one literal of all bytes from it; at every other position the window was looked up and correctly answered |
| Roller.ProduceShape | src/rm.c:470-574 | after any iterations, whatever the lookups answer, the elements fit one after the other and cover x up to the buffered literals |
| Roller.FinishedRun | src/rm.c:531-574 | a finished run covers every byte once, no element is empty, a TAIL is last and a ZERO_DIFF alone |
| RollingProc.RolledCheck | src/rm.c:491-503 | whichever roll the clamped cursors select yields the checksum of the next window |
| RollingProc.MoveWindow | src/rm.c:475-504 | after a fresh read, a full roll or a shrinking roll, the checksum, length and cursors are those of the window at the current position |
| RollingProc.LookUp | src/rm.c:475-529 | each lookup probes the table with the checksum of the current window, and the block buffer stays usable for old bytes only while it holds them |
| RollingProc.Settle | src/rm.c:531-573 | after a hit or a miss the queue, literal buffer and remaining count are those of one step of the abstract roller, the dropped byte being the right one even from the old buffer |
| RollingProc.SendMatch | src/rm.c:531-549 | a match sends the buffered literals and then the one element its length calls for |
| RollingProc.PushSession.Enqueue | src/rm.c:666-762 | the element goes to the end of the queue, and only the transmitter of a remote push counts it |
| RollingProc.CopyTail | src/rm.c:599-636 | leaving the loop from a matched or an unmatched state sends the buffered literals and then exactly the rest of x |
| RollingProc.Iterate | src/rm.c:470-574 | one trip refines one step of the abstract roller and strictly decreases the bytes left |
| RollingProc.RollingChProc | src/rm.c:402-637 | for every schedule of concurrent insertions the procedure enqueues what the abstract roller emits, to the end of x: each window is answered from the table of its moment until a position is reached in a short file, without a table or within the copy-tail threshold of the end, and there the rest goes out as one literal; error returns as in the code; each flag is set exactly for its condition |
| Rebuild.HitIsBlock | src/rm.c:509-519 | without a collision a hit means that the referenced block is the window |
| Rebuild.NoCollisionMeans | src/rm.c:509-519 | what is assumed where collisions are excluded: a block of y and a window of x with equal fast and equal strong checksums are the same bytes |
| Rebuild.AdvanceHonest | src/rm.c:531-574 | whatever collides, one iteration's elements denote their bytes of x if and only if its hit names a place in y that holds the window |
| Rebuild.AdvanceSpells | src/rm.c:531-574 | the elements of one iteration denote, over y, exactly the bytes of x they stand for |
| Rebuild.ProduceSpells | src/rm.c:470-574 | all elements emitted so far denote x up to the buffered literals, though each lookup saw only part of the table |
| Literals.LiteralsExactly | src/rm.c:550-627 | a byte of x is in a literal element or the literal buffer if and only if some iteration missed at it or copied the rest from before it |
| Literals.LiteralsUnmatched | src/rm.c:506-573 | every literal byte was copied because of a threshold or sits where the lookup of its window met only entries that differ from it in one of the checksums, in the table of that moment |
| Literals.MissIsLiteral | src/rm.c:550-573 | a position whose window matches no entry at its lookup stays a literal to the end |
| Files.CopyBufferedOffset | src/rm.c:319-361 | the chunked copy writes the whole range, or on a short source only the whole chunks before its end, and says which |
| Files.MovedMeans | src/rm.c:329-341 | on a short source a multiple of 8192 bytes has been written, the largest there was |
| Files.CopyBuffered2 | src/rm.c:239-274 | the chunked read succeeds exactly when the source is long enough and then fills the buffer with the range |
| Files.CopyBuffered | src/rm.c:194-236 | the copy from the start of both files, with the same outcome on a short source |
| Files.Fpread | src/rm.c:279-295 | what can be read at the offset is read, and no more of the buffer changes |
| Receiver.Rebuilder.ProcessElement | src/rm_rx.c:330-388 | the result file, counters and error after any element, in or out of range |
| Receiver.FailsExactlyWhen | src/rm_rx.c:346-386 | an element cannot be processed if and only if it is an empty literal or names bytes y does not have; which error that is; and nothing is then counted |
| Receiver.ProcessSpelled | src/rm_rx.c:346-380 | an element that denotes the next bytes of x extends a result that is a prefix of x by exactly these |
| Receiver.TallyAccounts | src/rm_rx.c:346-380 | over any well-shaped element list the counters account for every byte and element once, and the tail counter is the number of tails |
| Receiver.ZeroDiffWhen | src/rm.c:539-541 | a ZERO_DIFF is emitted if and only if the first window is all of x and its lookup hits |
| Receiver.LocalPushExact | src/rm_rx.c:362-364 | applying a finished run's elements never fails, and gives a file of x's size, which is x if and only if no ZERO_DIFF was emitted or x is a prefix of y |
| Receiver.LocalPushCondition | src/rm.c:452-541 | with the complete table that is: a copy threshold fires at once, or x is longer than a block, or a prefix of y, or no block of y |
| Receiver.LocalPushCanFail | src/rm_rx.c:362-364 | a two-byte y whose second block is x is rebuilt wrongly |
| Collisions.ProcessAllDenotes | src/rm_rx.c:346-380 | elements that are processed without error append to the file exactly bytes they denote |
| Collisions.SpellsExactly | src/rm.c:470-574 | whatever the lookups answered, everything emitted denotes x up to the buffered literals if and only if every hit was true |
| Collisions.PushExactly | src/rm_rx.c:330-388 | a finished run is processed without error into x if and only if every hit was true or, after a ZERO_DIFF, x is a prefix of y; no assumption on collisions |
| Collisions.NoCollisionIsHonest | src/rm.c:509-519 | without a collision every hit of a finished run is true |
| LocalPush.DeltaRxLocal | src/rm_session.c:617-637 | draining the queue element by element does what processing the whole list does and leaves the queue empty |
| LocalPush.Push | src/rm_tx.c:39-257 | table, roller, receiver and the final size checks: a zero block or threshold is refused, everything else succeeds, an empty x with an empty result although the roller refuses it; the result is x exactly under the condition; the counters are those of a run whose lookups were all answered from the complete table of y, so that without copy thresholds an unchanged file costs no literal byte, one of the same size L for each changed block, and an edited one the new piece and less than two blocks |
| LocalRuns.LocalRunExact | src/rm_session.c:602-653 | in whatever order roller and reconstruction run on the queue, when no more bytes are expected the queue is empty, the counters add up to the size of x, and the result is x exactly under the condition |
| LocalRuns.LocalHandOff | src/rm_session.c:609-642 | in every reachable state the count is what is not dequeued and never underflows, and an unsignalled sleeper sees an empty queue |
| LocalRuns.LocalProgress | src/rm_session.c:609-642 | no deadlock between the two threads |
| LocalRuns.LocalRunsAreBounded | src/rm_session.c:609-642 | every run's length is bounded by the size of x and the number of spurious wake-ups |
| RemotePush.DeltaTx | src/rm_session.c:617-637 | draining the queue puts exactly the encoding of its elements on the stream and updates the counters by all of them |
| RemotePush.PlainOnWire | src/rm_session.c:768-836 | the bytes of a complete element list without ZERO_DIFF make the far end's file x, with the tally of the list |
| RemotePush.ZeroDiffOnWire | src/rm_session.c:803-805 | the byte of a ZERO_DIFF makes the far end's file y, whatever block was matched |
| RemotePush.ZeroDiffOnlyWhen | src/rm.c:539-541 | a ZERO_DIFF is only sent when x is at most one block, is a block of y, and no threshold fires |
| RemotePush.Push | src/rm_tx.c:326-492 | both hosts' code over sockets that cut and interrupt all four directions: a zero block or threshold and an empty x are refused; else the file is x, or y after a ZERO_DIFF, and x whenever the stated condition holds; all counters account for every byte and agree unless a ZERO_DIFF stands for a y of another size; every lookup is answered from exactly the entries due by then, and when all are due before the first one the bounds of the local push hold |
| Costs.RawCountBound | src/rm.c:566-627 | literal elements number at most literal bytes over the threshold, plus references, plus two, on every path |
| Costs.CountersOfRun | src/rm.c:666-754 | all eight counters of a finished run in terms of the elements sent: bytes and numbers of literals and matches, of the one possible TAIL and of the one possible ZERO_DIFF |
| Costs.RawSizeBound | src/rm.c:566-572 | a literal element exceeds the threshold only when it is the copied rest of the file |
| Costs.LocalityInvariant | src/rm.c:470-574 | cursor and literal count stay the same distance short of a block boundary, and each finished L literals belong to a changed block |
| Costs.EditLocality | test/src/test_rm5.c:551-589 | with a full table, equal sizes and no copy thresholds, at most L literal bytes per changed block, without any assumption on collisions |
| Shifts.EditCost | src/rm.c:470-574 | where x is y with one piece replaced by another of any length, the literal bytes are at most those of the new piece and less than two blocks, without any assumption on collisions |
| Shifts.ShiftInvariant | src/rm.c:470-574 | before the edit no literal and a block boundary, at the edit at most one block more than the cursor has gone into it, behind it literals and way to the next moved boundary bounded together |
| Shifts.PushCosts | src/rm.c:470-574 | the three bounds together, for any finished push with the complete table and no copy thresholds |
| Costs.UnchangedFile | test/src/test_rm5.c:551-589 | an unchanged file costs one ZERO_DIFF when it fits a block, and else full references with a TAIL last exactly when L does not divide its size, one for each block and no literal |
| Costs.UnchangedCounters | test/src/test_rm5.c:551-589 | the counters then show no literal and as many references as y has blocks |
| Wire.NeededOfPrefix | src/rm_session.c:772-806 | while an element arrives the receiver never asks for a byte beyond it and stops exactly when it is complete |
| Wire.ParseEncoded | src/rm_session.c:780-806 | the lengths that are not sent are re-derived: L, the bytes left, or the size of y |
| Wire.ElementBytes | src/rm_rx.c:401-458 | the bytes of each kind of element: 0, 1, 2 or 3, then for all but a ZERO_DIFF eight bytes of reference or length, least significant first, then the literal bytes |
| Wire.StreamRoundTrip | src/rm_rx.c:401-458 | decoding the encoding of any complete element list recovers every element and consumes exactly the bytes sent |
| Wire.StreamExactlyWhen | src/rm_session.c:803-805 | a whole push decodes to what was sent if and only if it holds no ZERO_DIFF or y is as long as x |
| Tcp.TcpRx | src/rm_tcp.c:12-30 | under arbitrary partial reads and interrupts exactly the next n bytes are delivered; it fails only when the stream ends early or breaks, and says which |
| Tcp.TcpTx | src/rm_tcp.c:32-46 | under arbitrary partial writes and interrupts all bytes are sent in order, or on a break a proper prefix |
| Streams.TxDeltaElement | src/rm_rx.c:401-458 | the field-by-field writes put exactly the element's encoding on the stream, and only then the counters are updated |
| Streams.TallyTxAgrees | src/rm_rx.c:418-450 | over any well-shaped element list these counters, which add the sizes sent and count every TAIL, equal those kept by roller and receiver |
| Streams.RxDeltaElement | src/rm_session.c:772-810 | the field-by-field reads yield the next element and consume exactly its bytes, and fail only when there is no complete known element |
| Streams.DeltaRxRemote | src/rm_session.c:768-836 | the receiver loop succeeds exactly when the stream decodes and all elements can be processed, however it is cut into reads, with the result of processing the decoded list |
| RemoteSafety.ChannelKeeps | src/rm_session.c:385-421 | every step keeps the table a prefix of y's entries with the following frames in transit |
| RemoteSafety.RollOnceKeeps | src/rm.c:470-574 | a lookup against any prefix of the table keeps the emitted elements denoting x up to the buffered literals |
| RemoteSafety.QueueKeeps | src/rm_session.c:609-642 | every step keeps the queue between the counters of enqueued and dequeued elements and never lets the transmitter sleep on a filled queue |
| RemoteSafety.StreamKeeps | src/rm_session.c:768-806 | every step keeps the bytes between the hosts the encoding of the elements sent and not received |
| RemoteSafety.ProcessKeeps | src/rm_session.c:808-836 | receiving the next element never fails and keeps result and counters those of the elements received |
| RemoteSafety.StepKeeps | src/rm_session.c:437-493 | every step of every activity keeps all five invariants |
| RemoteSafety.ReachableInv | src/rm_session.c:437-493 | the invariants hold in every reachable state |
| RemoteOutcome.XIsInTransit | src/rm_session.c:609-642 | in every reachable state x is what was received, is on the wire, queued, pending, buffered and not yet looked at, in this order, and the wire bytes are those elements |
| RemoteOutcome.QueueHandOff | src/rm.c:756-759 | the transmitter's count is always what is not dequeued and never underflows, an unsignalled sleeper sees an empty queue, and at its exit the queue is empty and every byte counted |
| RemoteOutcome.Delivery | src/rm_session.c:836-866 | when nothing more is expected all queues and streams are empty; the result is x if and only if no ZERO_DIFF was sent or y is x; both ends' counters agree if and only if no ZERO_DIFF was sent or y has x's size |
| RemoteOutcome.RemotePushExact | src/rm_session.c:768-836 | all schedules rebuild x if and only if the stated condition on the files and thresholds holds |
| RemoteOutcome.UsualCase | src/rm_session.c:803-805 | the condition holds whenever x is longer than a block or y is at most one |
| RemoteOutcome.BadSchedule | src/rm.c:539-541 | when the condition fails some schedule delivers a wrong result |
| RemoteOutcome.GoodSchedule | src/rm.c:505-574 | whatever the files, some schedule delivers x: the one that rolls over all of x before the first checksum is in the table |
| RemoteOutcome.RemotePushCanFail | src/rm.c:539-541 | with MD5 as the strong checksum and blocks of one byte, x = 2 and y = 1 2 have no collision and some schedule rebuilds y instead of x |
| RemoteOutcome.Progress | src/rm_session.c:611-641 | no deadlock: until all is complete some step other than a spurious wake-up is possible |
| RemoteOutcome.RunsAreBounded | src/rm_session.c:611-641 | every run's length is bounded by the file sizes and the number of spurious wake-ups |
| RemoteOutcome.CanComplete | src/rm_session.c:437-493 | from every reachable state the session can be run to completion |
| WorkQueue.Workqueue.Init | src/rm_wq.c:91-133 | whichever threads could be created, the flags, indexes and counts describe them, dispatch starts at the highest, and success means at least one |
| WorkQueue.Workqueue.Search | src/rm_wq.c:255-259 | the eight-bit countdown never ends the search before it meets the first active worker round the table |
| WorkQueue.Workqueue.QueueWork | src/rm_wq.c:241-271 | the work goes to the end of the chosen worker's queue and nothing else changes; with several active workers no active one stands between where the search starts and the choice, going round the table, and the next search starts behind it; the chosen worker is active exactly when several are or the first one is |
| WorkRuns.StepKeeps | src/rm_wq.c:35-61 | every step of dispatcher, workers and stop procedure keeps the invariant |
| WorkRuns.FirstInFirstOut | src/rm_wq.c:45-51 | each worker has finished a prefix of what it was given, in order, and holds the rest |
| WorkRuns.EveryWorkInOnePlace | src/rm_wq.c:264-268 | what all workers have finished, execute, have queued or are being given is exactly what was dispatched |
| WorkRuns.DispatchesToActive | src/rm_wq.c:254-262 | until the queue is being stopped the dispatcher has exactly one choice and it is an active worker |
| WorkRuns.NoLostWakeup | src/rm_wq.c:53-55 | an unsignalled sleeping worker has an empty queue, and a worker not marked busy holds no work |
| WorkRuns.WorkGetsDone | src/rm_wq.c:44-56 | until the queue is being stopped, either all dispatched work is finished or some thread can go on |
| WorkProgress.RunsAreBounded | src/rm_wq.c:35-60 | every run is finite: two steps for each worker, six for each piece of work, three for each spurious wake-up, and a fixed number once the queue is stopped |
| WorkRuns.RoundRobinIsFair | src/rm_wq.c:239-262 | the shares of any two active workers never differ by more than one |
| WorkRuns.StopJoinsExactlyWhen | src/rm_wq.c:183-208 | after a worker is told to stop, joining it can succeed without a spurious wake-up if and only if it was not executing work |
| WorkProgress.StopReturnsExactlyWhen | src/rm_wq.c:183-208 | the loop over all workers can still return without a spurious wake-up if and only if it is not joining a worker that missed its signal |
| WorkProgress.StopIsSafeExactlyWhen | src/rm_wq.c:183-208 | stopping the queue can return from every state any schedule leads to, if and only if at the call no work is queued and none is executed |
| WorkProgress.StopCanHang | src/rm_wq.c:45-56 | a reachable state, one worker executing its first work when the queue is stopped, from which neither join nor loop can return |
| Serialize.SerializeU64 | src/rm_serialize.c:36-46 | the eight shifted bytes are the big-endian form, and no other byte changes |
| Serialize.SerializeU16 | src/rm_serialize.c:21-25 | two bytes, most significant first, and no other byte changes |
| Serialize.SerializeU32 | src/rm_serialize.c:28-34 | four bytes, most significant first, and no other byte changes |
| Serialize.SerializeString | src/rm_serialize.c:69-77 | n bytes with the last replaced by a terminator; for n = 0 only the byte before the position becomes zero |
| Serialize.DeserializeU64 | src/rm_serialize.c:169-180 | reads back the number and consumes eight bytes |
| Serialize.DeserializeU16 | src/rm_serialize.c:153-158 | reads back the number and consumes two bytes |
| Serialize.DeserializeU32 | src/rm_serialize.c:160-167 | reads back the number and consumes four bytes |
| Serialize.ReceivedExactly | src/rm_serialize.c:202-209 | a copied string equals its source if and only if it ends in a terminator and holds nothing after the first |
| Messages.HeaderRoundTrip | src/rm_serialize.c:87-93 | reading a written header gives it back |
| Messages.HeaderLayout | src/rm_serialize.c:87-93 | the hash in bytes 0 to 3, type, flags, and the length in bytes 6 and 7, most significant bytes first |
| Messages.ChallengeIs | src/rm_core.c:112-115 | what is hashed differs whenever type, flags or length differ |
| Messages.SerializeHdr | src/rm_serialize.c:87-93 | the buffer gets exactly the eight header bytes at the position |
| Messages.DeserializeHdr | src/rm_serialize.c:219-225 | reads the header the eight bytes hold |
| Messages.ValidateHdr | src/rm_core.c:117-156 | refuses fewer bytes than a header by their count alone and accepts a buffer exactly when it holds a whole header whose hash is that of its fields and whose type is 0, 1, 2, 3 or 5, for any hash function |
| Messages.SerializeName | src/rm_serialize.c:100-105 | size and string are written and nothing else changes, the stray zero of an absent name included |
| Messages.DeserializeName | src/rm_serialize.c:230-241 | size and string are read, longer names cut to the array, an absent one left zero |
| Messages.NameTravels | src/rm_serialize.c:230-241 | reading a written name consumes exactly its bytes and leaves what follows |
| Messages.ArrivesExactly | src/rm_serialize.c:230-241 | a name arrives as it was if and only if it is absent or one terminated string filling its size, zero behind |
| Messages.BodyTravels | src/rm_serialize.c:227-245 | reading a written push body consumes exactly the bytes written |
| Messages.PushRoundTrip | src/rm_serialize.c:95-108 | a push message survives the round trip if and only if its three names are clean |
| Messages.LengthExactlyWhen | src/rm_do_msg.c:350-376 | whatever type the cast reads, the length comes out as the number of bytes if and only if it reads PUSH |
| Messages.LengthValues | src/rm_do_msg.c:350-376 | the length each type of message is given |
| Messages.PushLayout | src/rm_serialize.c:95-108 | where each field of a push request stands, the names each behind its size |
| Messages.SerializePush | src/rm_serialize.c:95-108 | the buffer gets exactly the message's bytes at the position and keeps all others |
| Messages.DeserializeBody | src/rm_serialize.c:227-245 | the advancing reads yield the parsed body and stop right behind it |
| Messages.PushExchange | src/rm_tx.c:386-396 | a push request that is given its length and hash, serialized, validated and deserialized is accepted, and arrives unchanged if and only if the names are clean |
| Messages.TransmitPush | src/rm_tx.c:386-396 | the message gets its length and hash, and exactly its bytes fill a buffer of that length |
| Messages.SerializePushAck | src/rm_serialize.c:115-120 | the buffer gets exactly the acknowledgement's 18 bytes |
| Messages.PushAckLayout | src/rm_serialize.c:115-120 | header, port and number of checksums fill 18 bytes in this order |
| Messages.DeserializePushAck | src/rm_serialize.c:258-262 | inverts the acknowledgement's serializer |

## Left out

- `from` other than 0: the only caller passes 0 (`src/rm_session.c:479`) and the cursor starts at 0 whatever it is.
- Files, stdio and paths: a file is a byte sequence; `fstat`, renaming, unlinking and the `--force` and `--leave` options are not modelled, nor are I/O errors.
- Memory: allocation succeeds and freeing is not modelled.
- Sockets: connecting, listening, addresses and timeouts; a connection is a reliable byte stream with arbitrary partial transfers.
- `rm_calc_msg_len` as executed: its cast for push messages is replaced by what it is meant to read.
- Threads: creation, `pthread` error codes and the queue's initialisation; mutex-held regions are single steps, a condition variable is a sleeping and a signalled state with spurious wake-ups.
- A remote push whose roller or receiver fails: the other side may then wait for ever.
- The statistics update and the enqueueing of an element are two critical sections in `rm_roll_proc_cb_1`; `Remote` takes them in one step.
- Collision counters, timing, logging and printed statistics.
- The reference stored in a literal element (`src/rm.c:533`, `src/rm.c:567`): nothing reads it.
- MD5's 64 steps, `twhash_min` and `twhash_32`: parameters.
- The array and list variants of the block-checksum builder (`src/rm_rx.c:193-327`), which repeat the hashtable version.
- Pull sessions, delayed work, sessions' own hashing and authentication: unfinished or thin in the original.
- Structures filled through a pointer (`struct rm_msg_push`, `struct rm_msg_hdr`) are results of the reading methods; buffers are arrays updated in place.
- Names longer than the arrays that hold them: the serializers require sizes of at most 1000; the readers cut a longer one as the code does.
- WorkRuns.StopJoinsExactlyWhen: states when a join can succeed, not that it does; a thread may be delayed for ever, and spurious wake-ups are not counted on.
- LocalPush.DeltaRxLocal: drains a queue that is already full; waiting on the signal is in `LocalRuns`.
- LocalPush.Push: runs roller and reconstruction one after the other; their interleavings are in `LocalRuns`.
- RemotePush.DeltaTx: drains a queue that is already full; waiting on the signal is in `Remote`.
- RemotePush.Push: runs the activities one after another; their interleavings are in `Remote`.
- Table.InsertNonoverlapping: reading y succeeds; I/O errors on files are not modelled.
- Messages.TransmitPush: computes the length from the message's own type, as intended.
- Messages.PushExchange: computes the length from the message's own type, as intended.
- Wire.StreamRoundTrip: a decoded ZERO_DIFF carries no block number, as none is sent.
- RemoteSafety.ReachableInv: assumes no collision and a 16-byte strong checksum; what collisions do to a push is in `Collisions`, for elements processed as they were emitted.
