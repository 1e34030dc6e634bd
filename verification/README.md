# Verified core of the archive tool set

This project models the parts of the repository that have to be exactly right and proves
that they are:

- the ZPAQ level 2 codec of `zpaq715`: the carry-less arithmetic coder with its segment
  markers, skipping of segments, the LZ77, BWT and E8E9 preprocessors with the small ZPAQL
  programs that invert them, and the one-pass compiler of structured ZPAQL;
- the lock-free scheduling of `ctrlcenter2`: the growing task queue, the work-stealing loop,
  the lightweight semaphore and the blocking queue built on it;
- the PCF container of `precomp-cpp` with its recursion, penalty bytes and multi-IDAT images;
- the streaming and one-shot forms of the Meow hash.

Code that works by updating fields is a class or a method with loops, proved against
specification functions; concurrent code is a state machine whose steps are the atomic
operations of the source, and its theorems hold in every state of every schedule. What the
source leaves to others is a parameter: any deterministic bit predictor, any suffix array
that is sorted, any match finder that returns genuine matches, any stream detector and exact
re-encoder, any AES round and register operations.

| files | contents |
|---|---|
| `CodingInterval`, `ModeledSegments`, `SegmentSkip`, `StoredSegments`, `Codec` | arithmetic coder, segments, skip, the `Encoder` and `Decoder` classes |
| `Lz77`, `BitPackedLz`, `Lazy2`, `ByteAlignedLz`, `LzEncoder`, `LzRoundTrip`, `LzOverflow` | both LZ77 formats, their decoder machines, `LZBuffer` |
| `SuffixOrder`, `InverseBwt` | suffix arrays, the BWT writer and the `bwtrle` machine |
| `E8E9` | the filter, its in-place inverse and both streaming ones |
| `JumpPatching` | `compile_comp` and the interpreter's jumps |
| `TaskQueue`, `WorkStealing`, `LightweightSemaphore`, `BlockingQueue` | scheduling: steps and invariants |
| `TaskQueueCalls`, `WorkStealingProgress`, `SemaphoreCalls`, `BlockingQueueCalls` | scheduling: what whole calls achieve |
| `Vlints`, `Pcf`, `PcfFiles`, `Penalty`, `MultiPng` | precomp |
| `Meow` | the hash |
| `Arith`, `Bits`, `Bytes`, `Sums`, `Wrappers` | shared vocabulary |

## Where the code does less than it seems to promise

Each of these is stated as the exact condition under which the code is right, beside a case
in which it is not:

- The compiler's IF and DO stacks hold 16-bit addresses while a program may reach 65665.
  A loop is compiled to a whole jump back exactly when its DO lies below 65536
  (`LoopIsRightIff`, `LoopBeyond`). An IF or ELSE reaches its match exactly when its operand
  lies below 65536 or it has nothing to skip; otherwise the program is refused, or, if the
  byte before the wrapped address happens to be 255, two bytes of the COMP section are
  overwritten (`IfIsRightIff`, `WrappedPatch`, `PreStep`, `IfBeyond`).
- `fill` checks only by assertion that a round fits in its buffer. Over every choice of
  genuine matches, no round writes past the buffer exactly when no peak passes its end:
  at level 1 when 8 lookahead + rb <= 32693, but for the longest minimum matches; at level 2
  for every look-ahead up to 205, and from 206 on not at minimum match 1 (`RoomIff`,
  `FirstLevelLookahead`, `SecondLevelLookahead`). The failing runs are lists of genuine picks
  (`FirstLevelRun`, `SecondLevelRun`, `Replay`); the search need not make them, and the
  suffix-array search makes none, so with it no look-ahead is too large (`SuffixPickIsShort`,
  `SuffixLevel1`, `SuffixLevel2`). The condition is about memory: the assertion before a
  level 2 piece asks for six free bytes and fails earlier.
- Bit-packed matches whose offset is among the last 2^rb up to 2^(24+rb) would be written
  with the mark of literals; the 4096 bytes that block sizes reserve rule this out
  (`OverlongOffset`, `LastOffsetIsLost`, `BlockSizesFit`).
- Splitting a byte-aligned match works for every length exactly when the minimum match
  length is at most 64 (`PiecesFit`, `PieceTooShort`).
- A penalty byte at position 2^31 or beyond is read back as a smaller position. Patching
  restores the file exactly when each such byte is written right after the one before it,
  its own seek having failed; behind at least 2^31 bytes no seek fails, and then exactly
  when there is none (`PatchRestoresIff`, `ChainedIsNear`, `PositionWraps`).
- The number of IDAT pairs is counted in a 32-bit `int`, so it is too high when the chunks
  that hold the stream reach 2^31 bytes and are not the last ones, and then the encoder
  advances too far (`CountIsRightIff`, `SplitUndoesJoin`, `CountGoesWrong`).

## Model

| member | source | states |
|---|---|---|
| CodingInterval.XorTestsLeadingByte | zpaq715/libzpaq.cpp:2410 | the xor test of the shift loop is exactly equality of the leading bytes |
| CodingInterval.Mid | zpaq715/libzpaq.cpp:2406-2408 | the cut lies in the interval, leaves a non-empty part for both bits, and stands at p 65536ths of its width, rounded down |
| CodingInterval.Narrow | zpaq715/libzpaq.cpp:2407-2409 | a 1 of chance p keeps the lower p 65536ths of the interval, a 0 exactly the rest |
| CodingInterval.Shift | zpaq715/libzpaq.cpp:2412-2415 | a shift widens the interval 256-fold and keeps 0 < low < high |
| CodingInterval.ShiftOnBytes | zpaq715/libzpaq.cpp:2411-2415 | of the four bytes of both bounds the first goes, 255 or 0 comes, and low becomes 1 where it would be zero |
| CodingInterval.AtMostFourShifts | zpaq715/libzpaq.cpp:2410-2416 | one coded bit writes at most four bytes |
| CodingInterval.PointIsWrittenWhole | zpaq715/libzpaq.cpp:2402-2417 | an interval of one point, as the end flag leaves it, is written out as all its four bytes |
| CodingInterval.SettleKeepsInside | zpaq715/libzpaq.cpp:2402-2417 | if the bytes to come lie in the shifted interval, then with the bytes shifted out they lie in the interval before, without four zeros in a row |
| ModeledSegments.BitLeavesShare | zpaq715/libzpaq.cpp:2402-2417 | what a bit writes and leaves comes from its share of the interval, cut by the chance given and by nothing else |
| ModeledSegments.SegmentInside | zpaq715/libzpaq.cpp:2402-2435 | the code of every segment starts inside the coder's interval and nowhere holds four zero bytes in a row |
| ModeledSegments.CodeFollows | zpaq715/libzpaq.cpp:2104-2155 | a decoder in step with the encoder yields byte after byte of the segment, then -1, and ends in the encoder's state |
| ModeledSegments.DecodesOnce | zpaq715/libzpaq.cpp:2127-2155 | what a decoder yields, and where it ends, is determined by its state |
| ModeledSegments.SegmentRoundTrip | zpaq715/libzpaq.cpp:2104-2155 | for every predictor, state and data: the data, then -1, with equal interval and predictor, and the reader right behind the four zeros |
| ModeledSegments.BlockRoundTrip | zpaq715/libzpaq.cpp:2947-2970 | every run of segments in a modelled block decodes to itself, each starting where the one before ended |
| SegmentSkip.WindowFindsTheZeros | zpaq715/libzpaq.cpp:2158-2181 | the sliding window becomes zero only once it has reached the zeros at the segment's end, and then the marker is found |
| SegmentSkip.SkipAgrees | zpaq715/libzpaq.cpp:2158-2181 | from the start of a segment or from any state in step with the encoder, skip returns the marker behind the four zeros |
| SegmentSkip.SkipFromAnyBoundary | zpaq715/libzpaq.cpp:2158-2181 | skip called after any number of decoded bytes returns that same marker |
| StoredSegments.StoredRoundTrip | zpaq715/libzpaq.cpp:2140-2153 | a stored segment decodes to its data, then -1, with the reader right behind the four zeros |
| StoredSegments.SkipStoredAgrees | zpaq715/libzpaq.cpp:2167-2180 | wherever stored decoding can still reach the end, skip reaches the same marker |
| Codec.Encoder.Encode | zpaq715/libzpaq.cpp:2402-2417 | the loop writes exactly the specified bytes and leaves the specified interval: the share of a bit of chance p, written out and widened |
| Codec.Encoder.Compress | zpaq715/libzpaq.cpp:2419-2446 | one byte or the end, modelled or stored, appends the specified bytes and updates interval, predictor and buffer as specified |
| Codec.Encoder.CompressSegment | zpaq715/libzpaq.cpp:2947-2970 | a whole segment: all bytes, the end flag and the four zeros, from the state before to the state after |
| Codec.Decoder.Decode | zpaq715/libzpaq.cpp:2104-2125 | the loop yields the specified bit, interval, window and position, or the specified error |
| Codec.Decoder.Decompress | zpaq715/libzpaq.cpp:2127-2155 | one byte or -1, modelled or stored, errors included |
| Codec.Decoder.ReadSegment | zpaq715/libzpaq.cpp:2315-2346 | calls until -1 collect exactly the data the specification says, before any post-processing |
| Codec.Decoder.Skip | zpaq715/libzpaq.cpp:2158-2181 | the loops return what the skip specifications return |
| Codec.WriteBlock | zpaq715/libzpaq.cpp:2419-2446 | encoding all segments with the class gives the specified block |
| Codec.ReadBlock | zpaq715/libzpaq.cpp:2127-2155 | for every predictor, modelled or stored, the decoder class hands back the data of every segment of the block |
| E8E9.RoundTrip | zpaq715/libzpaq.cpp:6448-6459 | forward decoding undoes backward encoding on every buffer, however patterns overlap |
| E8E9.EncodeAtAdds | zpaq715/libzpaq.cpp:6450-6459 | at E8 or E9, three bytes, and 00 or FF, the three bytes as a number grow by the position modulo 2^24, and no other byte changes |
| E8E9.EncodeInPlace | zpaq715/libzpaq.cpp:6450-6459 | the in-place loop computes the filter |
| E8E9.DecodeAndOutput | zpaq715/libzpaq.cpp:6937-6954 | the loop that decodes in place while it outputs emits the decoded buffer |
| E8E9.Stream.Feed | zpaq715/libzpaq.cpp:7304-7316 | after each byte the four-byte window holds the decoded tail and all before it is out |
| E8E9.Stream.Finish | zpaq715/libzpaq.cpp:7296-7303 | at the end of input the window is flushed, also when fewer than four bytes came |
| E8E9.FilterAndStream | zpaq715/libzpaq.cpp:7292-7320 | filtering and streaming back gives the data, for every length |
| E8E9.RegisterWindow.Take | zpaq715/libzpaq.cpp:7243-7262 | the window in R4 and R5 inside bwtrle: after each byte R4 holds the decoded tail and all before it is out |
| E8E9.RegisterWindow.Flush | zpaq715/libzpaq.cpp:7265-7271 | the four conditional outs emit the rest of the decoded bytes, for every length |
| Lz77.MatchReproduces | zpaq715/libzpaq.cpp:6687-6689 | a match found by comparing bytes, after its leading literals, copies exactly the next input bytes, also when it overlaps itself |
| Lz77.MeasureMatch | zpaq715/libzpaq.cpp:6687-6689 | the two loops that measure a match and its leading literals find genuine ones |
| BitPackedLz.NextExtends | zpaq715/libzpaq.cpp:6964-7065 | a decoding step does not depend on bits that come later |
| BitPackedLz.ReadItem | zpaq715/libzpaq.cpp:6801-6850 | the code of a literal run or of a codable match is read back as that item |
| BitPackedLz.CodesMean | zpaq715/libzpaq.cpp:6801-6850 | the codes of items that rebuild the input, with any padding of fewer than eight bits, mean the input |
| Lazy2.StepIfEnough | zpaq715/libzpaq.cpp:6964-7065 | with as many bits as a state asks for, one step leads to the same meaning |
| Lazy2.StuckMeansNothing | zpaq715/libzpaq.cpp:6964-7065 | a machine waiting for bits at the end has output everything its bits mean |
| Lazy2.Machine.Feed | zpaq715/libzpaq.cpp:6964-7065 | each byte keeps the meaning of buffer plus bits to come; at most 7 bits are left over in states 0 and 4 and never more than 30 are held |
| Lazy2.Machine.Finish | zpaq715/libzpaq.cpp:6934-6962 | at the end of input no complete code is stranded and the output is the target |
| ByteAlignedLz.PiecesFit | zpaq715/libzpaq.cpp:6857-6861 | pieces lie in minMatch..minMatch+63 and leave nothing or a whole match, for every length if and only if minMatch <= 64 |
| ByteAlignedLz.PieceTooShort | zpaq715/libzpaq.cpp:6858-6861 | minimum 65 and length 129: the piece is shorter than a match may be |
| ByteAlignedLz.BytesMean | zpaq715/libzpaq.cpp:6852-6882 | reading the bytes of items rebuilds the input |
| ByteAlignedLz.Machine.Feed | zpaq715/libzpaq.cpp:7069-7133 | the lzpre registers follow the specification byte by byte |
| ByteAlignedLz.Machine.Finish | zpaq715/libzpaq.cpp:7069-7133 | at the end of input the output is the target |
| LzEncoder.LZBuffer.Putb | zpaq715/libzpaq.cpp:6505-6513 | the bit stream grows by exactly the low k bits, least significant first |
| LzEncoder.FirstLevelFitsIff | zpaq715/libzpaq.cpp:6665-6788 | level 1: every round that the loop allows fits in the buffer exactly when no number of leading literals up to lookahead has a peak beyond it |
| LzEncoder.FirstLevelOverflows | zpaq715/libzpaq.cpp:6747-6752 | where a peak lies beyond, this round passes the end: one bit short of half full, 4095 literals pending, the longest codes |
| LzEncoder.FirstLevelLookahead | zpaq715/libzpaq.cpp:6665-6788 | level 1 leaves room when 8 lookahead + rb <= 32693, and only then for minimum matches up to 45065 |
| LzEncoder.SecondLevelFitsIff | zpaq715/libzpaq.cpp:6665-6788 | level 2: every round that the loop allows fits in the buffer exactly when no number of leading literals up to lookahead has a peak beyond it |
| LzEncoder.SecondLevelLookahead | zpaq715/libzpaq.cpp:6665-6788 | look-aheads up to 205 leave room whatever the minimum match, and from 206 on not at minimum match 1 |
| LzEncoder.SuffixPickIsShort | zpaq715/libzpaq.cpp:6679-6699 | the suffix-array search, whose score loses three eighths per leading position, never picks a match behind more than 25 literals, whatever the look-ahead |
| LzEncoder.LZBuffer.WriteLiteral | zpaq715/libzpaq.cpp:6797-6824 | appends the literal code for the pending bytes as one item, at either level, and takes exactly its size |
| LzEncoder.LZBuffer.WriteMatch | zpaq715/libzpaq.cpp:6827-6882 | appends the match code as one item, at either level, and takes exactly its size |
| LzEncoder.LZBuffer.Flush | zpaq715/libzpaq.cpp:6516-6520 | pads the last bits to one byte |
| LzEncoder.LZBuffer.Round | zpaq715/libzpaq.cpp:6742-6788 | one round writes the pending literals with the leading ones of the match found, then that match, or keeps the literal pending, or writes a full run of literals; it stops exactly when the codes do not fit in the buffer |
| LzEncoder.LZBuffer.Fill | zpaq715/libzpaq.cpp:6662-6794 | writes exactly the items that the picks of the search dictate from where it stands, whatever they are and whatever the look-ahead; never returns with literals pending or an empty buffer while input remains, and wpos stays within BUFSIZE; it stops only in front of a round that does not fit, and never when the parameters leave room |
| LzEncoder.MatchesAreFinds | zpaq715/libzpaq.cpp:6665-6788 | the matches among the dictated items are exactly the picks found, in order, each search starting where the pick before ended, each with its length, offset and place behind its leading literals |
| LzRoundTrip.Drain | zpaq715/libzpaq.cpp:6585-6594 | draining and refilling until nothing comes writes all items the picks dictate and no more, or stops in front of a round that does not fit |
| LzRoundTrip.FinishedMeans | zpaq715/libzpaq.cpp:6662-6794 | the finished bit string means the input |
| LzRoundTrip.Level1 | zpaq715/libzpaq.cpp:6957-7065 | bit-packed LZ77, with or without E8E9, any look-ahead: the code is that of the items the picks dictate, padded to whole bytes, and the machine fed byte by byte outputs the data, unless a round did not fit, which cannot be when no peak passes the end, nor when 8 lookahead + rb <= 32693 |
| LzRoundTrip.Level2 | zpaq715/libzpaq.cpp:7069-7133 | byte-aligned LZ77, with or without E8E9, minimum match 1 to 64, any look-ahead: the code is that of the items the picks dictate, and the machine outputs the data, unless a round did not fit, which cannot be when no peak passes the end, nor for look-aheads up to 205 |
| LzRoundTrip.SuffixLevel1 | zpaq715/libzpaq.cpp:6672-6703 | bit-packed LZ77 with picks of the suffix-array search: for every look-ahead these picks are coded and the data comes back |
| LzRoundTrip.SuffixLevel2 | zpaq715/libzpaq.cpp:6672-6703 | byte-aligned LZ77 with picks of the suffix-array search: for every look-ahead these picks are coded and the data comes back |
| LzOverflow.FirstLevelRun | zpaq715/libzpaq.cpp:6665-6788 | level 1: for every number of leading literals whose peak passes the end, an input and a list of genuine picks that fit lead from the start to a place where a genuine pick with that many does not fit |
| LzOverflow.SecondLevelRun | zpaq715/libzpaq.cpp:6665-6788 | level 2: for every number of leading literals whose peak passes the end, an input and a list of genuine picks that fit lead from the start to a place where a genuine pick with that many does not fit |
| LzOverflow.RoomIff | zpaq715/libzpaq.cpp:6665-6788 | the parameters leave room exactly when no input and no list of genuine picks lead to a round that writes past the buffer |
| LzOverflow.Replay | zpaq715/libzpaq.cpp:6585-6594 | an encoder making a list of picks, drained when half full, stands where the list leads, and refuses a further pick exactly if it does not fit |
| LzRoundTrip.BlockSizesFit | zpaq715/libzpaq.cpp:7697 | the asserted block size leaves room for the code of every offset |
| LzRoundTrip.OverlongOffset | zpaq715/libzpaq.cpp:6837-6840 | the offsets up to 2^(24+rb) that would be written with the mark of literals are exactly the last 2^rb of them |
| LzRoundTrip.LastOffsetIsLost | zpaq715/libzpaq.cpp:6837-6840 | a match at offset 2^(24+rb) starts like a literal run |
| SuffixOrder.LongerIsOrdered | zpaq715/libzpaq.cpp:7164-7182 | rows with the same last byte keep their order when that byte is put in front |
| SuffixOrder.SlotIsLonger | zpaq715/libzpaq.cpp:7164-7182 | the row counted from the bytes alone is the row of the suffix one longer |
| InverseBwt.Fill | zpaq715/libzpaq.cpp:6650-6660 | writes the last column with the mark and the index, in the loop's order |
| InverseBwt.Machine.LinkedIsThreaded | zpaq715/libzpaq.cpp:7170-7182 | the linked list built over all rows leads from each row to that of the next suffix |
| InverseBwt.Machine.WalkPlain | zpaq715/libzpaq.cpp:7275-7287 | the traversal outputs the block |
| InverseBwt.Machine.WalkFiltering | zpaq715/libzpaq.cpp:7232-7271 | the traversal through the window in R4 and R5 outputs the decoded block |
| InverseBwt.Machine.WalkPacked | zpaq715/libzpaq.cpp:7184-7225 | the traversal with the byte packed into the link outputs the same as the plain ones |
| InverseBwt.Machine.Finish | zpaq715/libzpaq.cpp:7136-7287 | counting, accumulating, linking and traversing rebuild the block, and the list never reaches the 256 counters at the top of H |
| InverseBwt.BwtThroughBoth | zpaq715/libzpaq.cpp:7136-7287 | for every block of at most size - 4096 bytes and every correct suffix array, packed or not, with or without E8E9: the machine outputs the data |
| JumpPatching.EveryProgramIsSound | zpaq715/libzpaq.cpp:2575-2691 | after every accepted program: code of every token in place, both stacks right, patched jumps right, jumps beyond 16 bits untouched |
| JumpPatching.IfIsRightIff | zpaq715/libzpaq.cpp:2600-2636 | the jump of an IF or ELSE goes to its match exactly when its operand lies below 65536 or it has nothing to skip |
| JumpPatching.LoopIsRightIff | zpaq715/libzpaq.cpp:2637-2667 | the end of a loop is a whole jump to its DO exactly when the DO lies below 65536 |
| JumpPatching.IfFlow | zpaq715/libzpaq.cpp:1072-1089 | the interpreter, with its own opcodes 39, 47, 63 and 255, at an IF or ELSE, short or long: into the body, or behind the matching ELSE's jump or to the ENDIF |
| JumpPatching.LoopFlow | zpaq715/libzpaq.cpp:1258 | the interpreter at a WHILE, UNTIL or FOREVER, short or long: back to the DO or on |
| JumpPatching.TokensAreInstructions | zpaq715/libzpaq.cpp:2575-2691 | reading instruction by instruction arrives at the start of every token |
| JumpPatching.ClosedStaysClosed | zpaq715/libzpaq.cpp:2600-2636 | an IF or ELSE is closed once |
| JumpPatching.LoopBeyond | zpaq715/libzpaq.cpp:2649-2667 | a program of 65400 instructions before DO FOREVER is accepted, and FOREVER loses a byte |
| JumpPatching.IfBeyond | zpaq715/libzpaq.cpp:2617-2634 | a program of 65406 instructions before IF A++ ENDIF, with 255 at byte 12 of the COMP section, is accepted; the IF does not reach its ENDIF, and bytes 13 and 14 are overwritten |
| JumpPatching.WrappedPatch | zpaq715/libzpaq.cpp:2600-2634 | a patch at a wrapped address is made exactly when the byte before it is 255, and then overwrites two bytes before the program |
| JumpPatching.PreStep | zpaq715/libzpaq.cpp:2579-2685 | a token leaves the bytes before the program as they are, unless it closes a jump beyond 16 bits, and then changes these two to these values |
| JumpPatching.PreChanges | zpaq715/libzpaq.cpp:2575-2691 | a byte before the program differs from what was given only where the wrapped operand of a closed jump lies |
| JumpPatching.Compiler.CompileToken | zpaq715/libzpaq.cpp:2579-2685 | one turn of the compiler's loop is the specified step, errors included, for stack entries below hend |
| JumpPatching.Compiler.CompileComp | zpaq715/libzpaq.cpp:2575-2691 | from any stacks whose entries lie below hend, the compiler yields the specified program with END and the specified stacks, or the first error |
| JumpPatching.CompileProgram | zpaq715/libzpaq.cpp:2725-2729 | from empty stacks the compiler accepts exactly the accepted programs and yields the program that the jump theorems speak of |
| TaskQueue.MaskIsRemainder | ctrlcenter2/quickpool.h:419-421 | the index mask is the remainder by the capacity |
| TaskQueue.GrowKeeps | ctrlcenter2/quickpool.h:423-430 | publishing the enlarged copy keeps the invariant: every task still in the queue is in it, and older buffers stay valid for their readers |
| TaskQueue.WriteKeeps | ctrlcenter2/quickpool.h:468-490 | writing the new task keeps the invariant: it hits no slot that a winning pop could still read |
| TaskQueue.PopKeeps | ctrlcenter2/quickpool.h:493-513 | a winning CAS keeps the invariant: the popper held the t-th pushed task |
| TaskQueue.StepKeepsInv | ctrlcenter2/quickpool.h:468-513 | every atomic step of every thread keeps the invariant |
| TaskQueue.EveryScheduleRuns | ctrlcenter2/quickpool.h:468-513 | no schedule gets stuck on a bad index or a missing buffer |
| TaskQueue.PopsFollowPushes | ctrlcenter2/quickpool.h:468-513 | in every reachable state the successful pops are the first top pushes in order, each once, and a CAS that would win holds the right task |
| TaskQueueCalls.PopReturns | ctrlcenter2/quickpool.h:493-513 | every try_pop of every run takes the next task if its CAS finds top unmoved, and otherwise nothing; empty-handed, either the queue was really empty at a moment during the call, or another pop took the task that was next when the call began |
| TaskQueueCalls.PushReturns | ctrlcenter2/quickpool.h:468-490 | every push of every run that returns has added its task, and no other task was added since it took the mutex |
| TaskQueueCalls.LonePopTakes | ctrlcenter2/quickpool.h:493-513 | in every reachable state with a task left, the five steps of an undisturbed try_pop take the task at the top and change nothing else |
| TaskQueueCalls.LonePushAdds | ctrlcenter2/quickpool.h:468-490 | in every reachable state with a free mutex, a thread can push any task by its own steps, growing the buffer if need be |
| WorkStealing.CreateWorkers | ctrlcenter2/quickpool.h:383-397 | the ranges of any number of workers partition [begin, end) |
| WorkStealing.StealKeepsInv | ctrlcenter2/quickpool.h:329-348 | the victim's CAS keeps the invariant: what the victim loses, half its range and the odd index, is in flight at the thief |
| WorkStealing.StepKeepsInv | ctrlcenter2/quickpool.h:299-358 | every step keeps executed, held and in-flight indices a partition |
| WorkStealing.ExactlyOnce | ctrlcenter2/quickpool.h:299-358 | no index runs twice or outside the range, and when every worker has left, every index has run |
| WorkStealing.Cut | ctrlcenter2/quickpool.h:338-344 | victim and thief part the range in halves, an odd index going to the thief |
| WorkStealingProgress.VictimHasMost | ctrlcenter2/quickpool.h:360-375 | undisturbed, the search for a victim settles on a worker with the most indices left |
| WorkStealingProgress.WorkerLeaves | ctrlcenter2/quickpool.h:299-358 | whatever all workers are doing, each can run, steal and leave by its own steps |
| WorkStealingProgress.LoopCanEnd | ctrlcenter2/quickpool.h:299-358 | from every reachable state some schedule brings all workers to leave, and then each index has run once |
| LightweightSemaphore.StepBalances | ctrlcenter2/concurrentqueue/lightweightsemaphore.h:278-418 | what one step moves between count, tokens, waiters, pending releases and permits |
| LightweightSemaphore.StepKeepsInv | ctrlcenter2/concurrentqueue/lightweightsemaphore.h:278-418 | every step of every operation keeps the invariant |
| LightweightSemaphore.Reconciled | ctrlcenter2/concurrentqueue/lightweightsemaphore.h:278-348 | in every reachable state waiters minus posted and pending tokens are the negative part of the count, and grants never exceed initial plus signalled |
| LightweightSemaphore.TimedOutWaiterIsBacked | ctrlcenter2/concurrentqueue/lightweightsemaphore.h:299-311 | a timed-out waiter that sees a non-negative count has a posted or pending token |
| LightweightSemaphore.NoTokenLeftBehind | ctrlcenter2/concurrentqueue/lightweightsemaphore.h:409-418 | once all operations are over, no kernel token is left and the count is what was made minus what was returned |
| SemaphoreCalls.LoneTakes | ctrlcenter2/concurrentqueue/lightweightsemaphore.h:357-400 | an undisturbed tryWaitMany or waitMany on a positive count gets as many permits as there are, up to max, and changes nothing else |
| SemaphoreCalls.LoneFindsNothing | ctrlcenter2/concurrentqueue/lightweightsemaphore.h:379-390 | tryWaitMany on a count that is not positive returns with nothing and leaves everything as it was |
| SemaphoreCalls.TryTakes | ctrlcenter2/concurrentqueue/lightweightsemaphore.h:379-390 | also from the middle of tryWaitMany, with a stale count in its hand, an undisturbed thread takes all it can get |
| SemaphoreCalls.SpinTakes | ctrlcenter2/concurrentqueue/lightweightsemaphore.h:314-329 | the same from the middle of a spin |
| SemaphoreCalls.WaiterWakes | ctrlcenter2/concurrentqueue/lightweightsemaphore.h:330-347 | a waiter takes a posted token, and then as many permits as it still asked for and the count holds |
| SemaphoreCalls.LoneSignal | ctrlcenter2/concurrentqueue/lightweightsemaphore.h:409-418 | an undisturbed signal(n) raises the count by n and posts a token for each announced waiter this covers |
| SemaphoreCalls.EveryoneCanReturn | ctrlcenter2/concurrentqueue/lightweightsemaphore.h:278-418 | from every reachable state some schedule brings every thread back from its call, with no token left; a waiter that gives up always finds a token or can withdraw |
| BlockingQueue.StepKeepsInv | ctrlcenter2/concurrentqueue/blockingconcurrentqueue.h:123-455 | every step of queue and semaphore keeps an item for each permit |
| BlockingQueue.ItemPerPermit | ctrlcenter2/concurrentqueue/blockingconcurrentqueue.h:123-186 | in every reachable state the bag holds exactly one item per permit, and nothing is lost or duplicated |
| BlockingQueue.NeverStranded | ctrlcenter2/concurrentqueue/blockingconcurrentqueue.h:294-367 | in every reachable state the bag holds as many items as a consumer in its retry loop, single or bulk, still needs |
| BlockingQueue.QuietCountIsSize | ctrlcenter2/concurrentqueue/blockingconcurrentqueue.h:447-455 | once all threads are idle the count is the number of items |
| BlockingQueueCalls.TakesWhole | ctrlcenter2/concurrentqueue/blockingconcurrentqueue.h:326-350 | in every reachable state, what the inner queue hands to a retrying consumer, if not more than it needs, moves whole from the bag to the consumers |
| BlockingQueueCalls.ConsumerFinishes | ctrlcenter2/concurrentqueue/blockingconcurrentqueue.h:294-367 | in every reachable state a consumer with permits has as many items to take, and for every choice of them two of its own steps take them and end the call |
| BlockingQueueCalls.LoneDequeueTakes | ctrlcenter2/concurrentqueue/blockingconcurrentqueue.h:294-350 | an undisturbed dequeue on a positive count takes as many items as the count allows, up to max, whichever the inner queue chooses |
| BlockingQueueCalls.LoneEnqueueAdds | ctrlcenter2/concurrentqueue/blockingconcurrentqueue.h:123-186 | an undisturbed enqueue puts all its items in the bag, raises the count by their number and posts the tokens of the waiters it covers |
| Vlints.VlintReadsBack | precomp-cpp/precomp.cpp:8059-8065 | every number is read back, whatever follows it |
| Vlints.VlintIsOnto | precomp-cpp/precomp.cpp:8198-8207 | every terminated byte string is the code of the number it reads as |
| Vlints.VlintIsTerminated | precomp-cpp/precomp.cpp:8059-8065 | every code is a terminated byte string |
| Pcf.DecrementUndoes | precomp-cpp/precomp.cpp:8066-8102 | the shift of the last header byte is undone, modulo 256 |
| Pcf.HeaderReadsBack | precomp-cpp/precomp.cpp:8066-8102 | type, flags, zlib parameters and header of a stream are read back |
| Pcf.ReconReadsBack | precomp-cpp/precomp.cpp:8103-8121 | reconstruction data and both sizes are read back |
| Pcf.ForeignReadsBack | precomp-cpp/precomp.cpp:6980-7020 | the flags, options, penalty bytes and sizes of JPG, MP3 and bZip2 streams are read back |
| Pcf.LeadReadsBack | precomp-cpp/precomp.cpp:4551-4690 | all that precedes the contents of a stream of any modelled kind is read back, and no byte more |
| Pcf.DecompressUndoes | precomp-cpp/precomp.cpp:4531-4690 | decoding the encoding of any items, deflate, multi-chunk PNG, JPG, MP3 or bZip2, nested to any depth, gives the bytes they stand for |
| PcfFiles.PutVlint | precomp-cpp/precomp.cpp:8059-8065 | the loop writes the specified number |
| PcfFiles.Input.GetVlint | precomp-cpp/precomp.cpp:8198-8207 | the loop with its three accumulators reads the specified number |
| PcfFiles.Frame.EndUncompressed | precomp-cpp/precomp.cpp:2993-3006 | a run in work, never empty, becomes one item that holds exactly its bytes |
| PcfFiles.Frame.PutStream | precomp-cpp/precomp.cpp:8126-8144 | a found stream becomes one item, with its contents or with the container made of them |
| PcfFiles.ImageIsFound | precomp-cpp/precomp.cpp:5925-5984 | a multi-chunk image whose chunks are linked in the file stands there as a stream of the container |
| PcfFiles.CompressFile | precomp-cpp/precomp.cpp:7821-7939 | whatever is detected, at every depth up to the limit: the items are those the detector calls for, runs exactly where it finds nothing and streams where it finds them, nested exactly when depth and kind allow and their contents hold a stream, inner items likewise; they stand for exactly the file, their encoding decodes to it, and the success flag tells whether one is a stream |
| PcfFiles.WalksOnce | precomp-cpp/precomp.cpp:7821-7939 | the detector leaves no choice: there is only one list of items that it calls for, at all depths |
| PcfFiles.DecompressFile | precomp-cpp/precomp.cpp:4509-4551 | the loop computes the specified decoding, errors included |
| PcfFiles.RoundTrip | precomp-cpp/precomp.cpp:3482-3545 | for every file, detection outcome among the modelled kinds, exact re-encoder and depth limit, decompress_file undoes compress_file |
| Penalty.TooLow | precomp-cpp/precomp.cpp:5803-5807 | the early stop never discards a better prefix |
| Penalty.Comparison.Compare | precomp-cpp/precomp.cpp:5762-5848 | the count returned is the earliest prefix of highest non-negative score among those whose entries fit, or 0, and the penalty bytes are those of that prefix |
| Penalty.PatchLoop | precomp-cpp/precomp.cpp:4774-4791 | the decoder's loop applies the entries, a failed seek leaving the position where it was |
| Penalty.PositionReadsBackIff | precomp-cpp/precomp.cpp:4779-4783 | a recorded position is read back exactly when it is below 2^31, and between there and 2^32 too small by 2^32 |
| Penalty.PatchRestoresIff | precomp-cpp/precomp.cpp:4774-4791 | the whole file after patching is the bytes before the stream and then the original prefix exactly if every difference at 2^31 or beyond follows one just patched and its own seek fails |
| Penalty.ChainedIsNear | precomp-cpp/precomp.cpp:4774-4791 | that holds if no difference lies at 2^31 or beyond, and behind at least 2^31 bytes only then |
| MultiPng.RunAppend | precomp-cpp/precomp.cpp:3216-3260 | the output depends only on the concatenation of the writes |
| MultiPng.MultiPngStream.Write | precomp-cpp/precomp.cpp:3226-3252 | the stream's loop cuts all that was written so far as specified |
| MultiPng.CutUndoesJoin | precomp-cpp/precomp.cpp:3226-3252 | cutting the first n joined bytes gives the file's bytes, n plus 12 for each seam |
| MultiPng.FindIdats | precomp-cpp/precomp.cpp:3962-4031 | the chunks found are linked in the file by their seams and none follows the last; if none are returned, the position or the first chunk is unusable, or the chain leaves the file or is longer than 65535 |
| MultiPng.CountPairs | precomp-cpp/precomp.cpp:5935-5948 | the loop computes the specified 32-bit count |
| MultiPng.CountIsRightIff | precomp-cpp/precomp.cpp:5935-5948 | the count is right exactly if the chunks that hold the stream are all there are, or their total survives as an int |
| MultiPng.StoredReadsBack | precomp-cpp/precomp.cpp:5949-5972 | pair count, lengths and CRCs are read back, and no byte more is consumed |
| MultiPng.SplitUndoesJoin | precomp-cpp/precomp.cpp:5935-5984 | however the re-encoder cuts its writes, the decoder restores the interleaved bytes, and they are those that the encoder advanced over exactly if the pair count came out right |
| Meow.LoadTail | meow_hash/meow_hash_x64_aesni.h:345-360 | for every address and length the load, shuffle and mask give exactly the trailing bytes, padded with zeros, from pages that hold input |
| Meow.PlainLoadSafeIff | meow_hash/meow_hash_x64_aesni.h:352-355 | without realignment the load would stay on input pages exactly when it does not pass the last one's end |
| Meow.PiecesAppend | meow_hash/meow_hash_x64_aesni.h:286-328 | mixing piece by piece can be interrupted anywhere |
| Meow.MeowHash | meow_hash/meow_hash_x64_aesni.h:259-444 | the one-shot hash of memory is the reference hash of its bytes |
| Meow.MeowState.Begin | meow_hash/meow_hash_x64_aesni.h:462-479 | an empty message, whatever the buffer held |
| Meow.MeowState.Absorb | meow_hash/meow_hash_x64_aesni.h:540-582 | the message grows by exactly the source, empty ones too |
| Meow.MeowState.End | meow_hash/meow_hash_x64_aesni.h:585-701 | hash and stored lanes are those of the reference, and stale buffer bytes have no influence |
| Meow.HashChunks | meow_hash/meow_hash_x64_aesni.h:462-701 | for every seed, message and way of cutting it, streaming gives the reference hash |

## Left out

- The x86 code that `ZPAQL::assemble` and `Predictor::assemble_p` emit; the rest of the ZPAQL instruction set.
- Predictor components, SHA-1, SHA-256, AES, scrypt and divsufsort: the codec theorems hold for every deterministic predictor, the BWT for every sorted suffix array.
- The match search and its scores in `fill`: any genuine match may be picked, or none.
- Archive level: journaling, block and segment headers, checksums, file names, encryption, extraction.
- LzOverflow.FirstLevelRun: the picks are genuine matches with as many leading literals as comparing backward gives; that the hash search finds these and not others is not claimed.
- LzOverflow.SecondLevelRun: likewise.
- JumpPatching.IfIsRightIff: speaks of programs compiled from empty stacks, as do the other jump theorems. Reading tokens is not modelled.
- JumpPatching.Compiler.CompileToken: a stack entry at or beyond hend, which only HCOMP can leave for PCOMP, is an error here; the original writes into the unused part of its array and goes on.
- JumpPatching.Compiler.CompileComp: the same entries are an error here.
- Codec.Decoder.ReadSegment: the post-processor that the decoded bytes are fed to is modelled separately, its loading not at all.
- Malformed input of the post-processors, and addresses that wrap around their arrays H and M.
- E8E9.Stream.Feed: the byte counter is unbounded here; blocks stay below 2^32 bytes, so the 32-bit one does not wrap.
- The table form of `lg` is modelled by its value.
- Weak memory ordering and wrap-around of indices in the scheduling code; exceptions thrown by tasks; spin counts, which are arbitrary here. Progress is stated for undisturbed threads and as schedules that exist, not under a fair scheduler.
- WorkStealing.CreateWorkers: the multiplication of worker index and task count is not bounded to 32 bits.
- Thread pool construction, affinity, the task manager's condition variable and reset path.
- The inside of `concurrentqueue.h`: an abstract bag takes its place.
- Pcf.DecompressUndoes: PDF streams with BMP headers, GIF and Base64 items, on-the-fly compression and the file header are not modelled; the re-encoder of bZip2 includes the patching of penalty bytes, and that of JPG the removal of a motion JPG table. Numbers are unbounded, not 64-bit.
- PcfFiles.DecompressFile: the kinds that are not modelled end in an error here.
- PcfFiles.RoundTrip: detection outcomes are those of the modelled kinds.
- Format detection, zlib, preflate, bzip2, packJPG, packMP3, giflib and liblzma: any detector, any exact re-encoder.
- `compare_file_mem_penalty`; temporary files, progress output, option parsing.
- Meow.MeowHash: prefetching, alignment of the state and the numeric operations on registers.
- Control center, command line, subprocesses and the hash list merge: plumbing that would only add easy members.
