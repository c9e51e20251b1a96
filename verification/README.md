# AFLNet, verified

A Dafny model of the parts of AFLNet where state, pointers and arithmetic are hard, with proofs
of what they keep. `dafny verify dfyconfig.toml` checks everything.

Each module follows one component of the C code, in its form: objects that are updated in place
are classes whose methods update fields and arrays, loops are loops, and pure tables and
predicates are functions the methods are proved against.

- **Hash table** (`Probe`, `RoundUp`, `KhashTable`, `Khash`, `KhashRun`, `FlagPack`): khash with
  its triangular probe walk, the load rule, the in-place rehash that kicks out entries still
  waiting, and every run of operations refining a finite map. The flags are kept as in the
  original, two bits a bucket and sixteen buckets a word (`FlagPack`).
- **Messages** (`Bytes`, `Klist`, `Splice`, `SelectM2`, `MessageFiles`): the sentinel-tailed list
  with its node pool, the choice of M2, the replacement of M2 in the middle of the list on every
  execution, and the two file formats.
- **Framers and extractors** (`CLibrary`, `Framers`, `Sessions`, `BinaryFramers`, `BinarySessions`,
  `Responses`): how input is cut into regions, what that makes of sessions of well-formed requests, and
  how response codes are read.
- **State-aware bookkeeping** (`StatePaths`, `StateTracker`): paths with their loops trimmed, state ids, the state table, the graph, the paths
  seen and the map of what was fuzzed, along every run.
- **Coverage** (`PopCount`, `Bitmap`, `Classify`, `BitPack`, `TopRated`): the word-level fast
  paths against their meaning on bytes, reference counts, and the greedy favoured set.
- **Minimiser** (`TminData`, `Tmin`): afl-tmin's stages over an arbitrary deterministic target.
- **Dictionaries** (`Tokens`, `DictLines`, `Sorting`, `AutoDictionary`, `DictOverlay`, `DictStages`): token
  printer and parser, collected tokens, and the stages that use them.
- **Fork server** (`ForkServer`): fuzzer, server, child and alarm as one state machine.

Where the code does less than its comments or documentation promise, the code is modelled and the
exact condition is proved:

- Framed input may lose its last byte (`Framers.OneTrailingByteIsLost`, with an input in
  `Framers.LostByte`).
- With the FTP and SMTP extractors, the branch of `update_state_aware_variables` that is "supposed to
  be not reachable" is reached exactly through collisions of the path hash
  (`StateTracker.Tracker.UpdateStateAwareVariables`), and on x86_64 `hash32` ignores the last code of
  sequences of odd length, so it does happen (`StateTracker.TwoLoginsCollide`).
- `update_bitmap_score` favours faster or smaller entries by its comment; in the code that test never
  decides: a slot is lost exactly to an entry with no fewer states (`TopRated.Scores.UpdateBitmapScore`,
  with inputs of every kind in `TopRated.OnlyStatesDecide`).
- afl-tmin may leave a byte that could be turned into '0' (`Tmin.ByteLeftOver`), because a later pass
  ends when it has nothing to delete; it leaves none if the last whole pass changed nothing
  (`Tmin.Minimizer.FixedPoint`).
- The response extractors do not clear the line buffer, so that a line shorter than three bytes may be
  read as a code (`Responses.EmptyLineReadsOn`); lines of three bytes or more are read by their own first
  three bytes (`Responses.CodesOfReplies`, `Responses.NoCodeStops`).
- A token file is unreadable exactly when a dumped text starts with a NUL
  (`Tokens.TokenFileRoundTrip`, with an input in `Tokens.EmptyTextFails`).
- `send_over_network` may wait for ever, exactly for persistent targets
  (`ForkServer.WhenStuck`).
- At 2^31 buckets the request of `kh_put` to grow wraps to the smallest table, which
  `kh_resize` refuses. `kh_put` goes on regardless and stores an absent key exactly while fewer
  than 2^31 keys are there (`Khash.Table32.Put`); in the full table it returns the bucket of
  another key as a hit (`KhashRun.OneKeyTooMany`).
- `kh_resize` ignores a failing `krealloc` when it shrinks a table, and the table is lost exactly
  then (`Khash.Table32.Resize`, with an input in `KhashRun.TableIsLost`); no caller in AFLNet shrinks one.

Parameters of the model stand for what the code cannot be seen to decide: the target program (a
function from input to observation), the dice of `UR`, allocation failures in khash, the path
hash, the order qsort gives equal elements, the bytes that lie one past a buffer, and the timing
of signals and of the target process.

## Model

| member | source | states |
|---|---|---|
| `Probe.WalkInjective` | `aflnet/khash.h:233-240` | two different steps of the probe walk whose numbers add up to less than 2^(m+1) - 1 never stand on the same of the 2^m buckets; in particular the first 2^m steps are all different |
| `Probe.WalkVisitsAll` | `aflnet/khash.h:233-240` | every one of the 2^m buckets is visited within the first 2^m steps, from any starting bucket |
| `Probe.FirstReturn` | `aflnet/khash.h:320-329` | the walk stands on its starting bucket again at step 2^(m+1) - 1 and at no step before, so the exit `i == last` can only fire after every bucket has been inspected |
| `Probe.WalkStep` | `aflnet/khash.h:238` | `i = (i + ++step) & mask` moves from step s of the walk to step s + 1 |
| `RoundUp.KRoundUp32Meaning` | `aflnet/khash.h:175-177` | the shift-and-or trick yields the least power of two that is not below its argument, and 0 when that is 2^32 (or the argument 0) |
| `RoundUp.CapacityOfNeighbours` | `aflnet/khash.h:311-315` | asking kh_resize for one bucket fewer keeps the table size, one more doubles it, except that 2^31 buckets "grow" to 4 |
| `RoundUp.UpperBounds` | `aflnet/khash.h:303` | the load bound is 0.77 n rounded to the nearest integer; it is positive, below n, at least n/2, and grows when n doubles |
| `RoundUp.RequestsMakeRoom` | `aflnet/khash.h:310-317` | of the two requests of kh_put the first leaves room below the load bound unless there are 2^31 entries, whose doubled number is 0 on 32 bits; the second does so below 2^31 buckets; in the two exceptions kh_resize refuses |
| `KhashTable.InsertKeepsTable` | `aflnet/khash.h:336-345` | putting a key that is not in the table into a free bucket on its probe path keeps every key reachable and adds exactly that pair |
| `KhashTable.DeleteKeepsTable` | `aflnet/khash.h:349-355` | turning a live bucket into a tombstone removes exactly its key and leaves every other key reachable |
| `KhashTable.Place` | `aflnet/khash.h:278-291` | placing the pair in flight into the first bucket empty in the new flags keeps the rehash invariant over entries still waiting, the pair in flight and entries already placed; an entry that waited there becomes the pair in flight |
| `KhashTable.PickUp` | `aflnet/khash.h:270-276` | taking a waiting entry out of its old bucket keeps the rehash invariant |
| `KhashTable.RoomToPlace` | `aflnet/khash.h:281` | while a pair is in flight the new flags have a truly empty bucket, so the innermost walk ends |
| `KhashTable.RehashEnds` | `aflnet/khash.h:294-305` | when no entry waits, the new flags with the shared key and value arrays represent exactly the old map |
| `KhashTable.SizeAtMostOccupied` | `aflnet/khash.h:302` | live buckets are at most the non-empty ones |
| `KhashTable.BucketsOfKeys` | `aflnet/khash.h:319-335` | a table has at most as many keys as buckets, and as many exactly when every bucket is live |
| `Khash.Table32.constructor` | `aflnet/khash.h:212-214` | a new table is empty and satisfies the class invariant |
| `Khash.Table32.Get` | `aflnet/khash.h:230-243` | returns the bucket of the key if the map has it and n_buckets otherwise, also on a table with no empty bucket; the probe loop ends |
| `Khash.Table32.FindSlot` | `aflnet/khash.h:319-335` | finds the key if present, otherwise a bucket that is free and reachable for the key, so a later put never duplicates it; only with every bucket live it gives the bucket of another key |
| `Khash.Table32.FindEmpty` | `aflnet/khash.h:280-281` | stops on a bucket that is empty in the new flags and reachable for the key |
| `Khash.Table32.KickOut` | `aflnet/khash.h:277-292` | the kick-out chain places the first pair and every pair it displaces, ends, and keeps the rehash invariant |
| `Khash.Table32.Rehash` | `aflnet/khash.h:269-294` | the rehash inside the same arrays keeps exactly the old key/value pairs, reachable under the new flags, with no tombstone left |
| `Khash.Table32.Resize` | `aflnet/khash.h:244-306` | kh_resize keeps the map for growing, same-size and shrinking requests; it refuses when the entries would overload the new size; a failed allocation changes no flag, bucket count or entry, with one exception: the table is lost exactly when krealloc fails while shrinking, whose null pointer the code takes over; otherwise the new capacity, n_occupied == size and no tombstones |
| `KhashRun.TableIsLost` | `aflnet/khash.h:294-297` | such an input: a table grown to 8 buckets is cut to 4 while there is no memory for the keys; kh_resize reports success, and no table is left |
| `Khash.Table32.MakeRoom` | `aflnet/khash.h:310-318` | kh_put starts by getting below the load bound, unless the table has all 2^31 buckets, or reports the failed allocation with the map unchanged |
| `Khash.Table32.FullOnlyAtCeiling` | `aflnet/khash.h:310-317` | in a valid table every bucket is live only at 2^31 buckets |
| `Khash.Table32.SomeBucketIsEmpty` | `aflnet/khash.h:310-325` | below the load bound some bucket is truly empty |
| `Khash.Table32.Claim` | `aflnet/khash.h:336-347` | the three outcomes of kh_put: 0 exactly if the bucket found is live, 1 empty bucket claimed, 2 tombstone reused; size and n_occupied stay exact |
| `Khash.Table32.Put` | `aflnet/khash.h:307-348` | unless an allocation fails (-1, map unchanged), the key is in the map afterwards, in the bucket returned, if and only if it was there or fewer than 2^31 others were; all other pairs are unchanged; ret tells which case it was, 2 only for a bucket that was deleted before, 1 without a rehash only for one that was empty; in the full table ret is 0 and the bucket is that of another key |
| `KhashRun.OneKeyTooMany` | `aflnet/khash.h:328-347` | such an input: 2^31 live buckets, one key more |
| `Khash.Table32.Del` | `aflnet/khash.h:349-355` | removes exactly the pair in the given live bucket; any other index changes nothing |
| `KhashRun.Step` | `aflnet/khash.h:230-355` | each of find, put-and-store, get-and-delete and resize, whatever allocations fail, does to the finite map what its name says and gives its answer, or reports a failed allocation and changes nothing |
| `KhashRun.Run` | `aflnet/khash.h:230-355` | any sequence of operations in which no put meets 2^31 other keys, whatever allocations fail: the table represents the map got by running them on a finite map, and every answer along the way is that map's, unless an explicit resize has lost the table |
| `KhashRun.SeenFirst` | `aflnet/afl-fuzz.c:484-489` | the hash-set step "kh_get misses, so kh_put and count" is true exactly for elements not in the set; the element is in it afterwards if there was memory and fewer than 2^31 others, and nothing else changes |
| `KhashRun.GetUniqueStateCount` | `aflnet/afl-fuzz.c:473-494` | for every sequence the result is at least the number of distinct states and at most the length; it is the number of distinct states if no allocation fails and there are at most 2^31 of them |
| `FlagPack.BitLaw` | `aflnet/khash.h:168-171` | setting or clearing one bit of a flag word shows in that bit and in no other |
| `FlagPack.ShiftedBits` | `aflnet/khash.h:165-167` | shifting a word right by 2k and masking reads bits 2k and 2k + 1 |
| `FlagPack.IsEither` | `aflnet/khash.h:167` | __ac_iseither is "not live" of the unpacked flag |
| `FlagPack.IsEmpty` | `aflnet/khash.h:165` | the shift-and-mask test reads the empty bit of bucket i |
| `FlagPack.IsDel` | `aflnet/khash.h:166` | and likewise the deleted bit |
| `FlagPack.SetIsDelTrue` | `aflnet/khash.h:171` | on the packed array: sets the deleted bit of bucket i and changes no other bucket |
| `FlagPack.SetIsEmptyFalse` | `aflnet/khash.h:169` | clears the empty bit of bucket i and changes no other bucket |
| `FlagPack.SetIsBothFalse` | `aflnet/khash.h:170` | makes bucket i live and changes no other bucket |
| `FlagPack.AllEmpty` | `aflnet/khash.h:253-255` | the 0xaa fill unpacks to empty buckets throughout |
| `FlagPack.Fsize` | `aflnet/khash.h:173` | the words allocated hold two bits for every bucket when there are fewer than 16 buckets or a multiple of 16 |
| `Klist.Mempool.Alloc` | `aflnet/klist.h:54-58` | hands out the most recently freed node, or a fresh one when the buffer is empty |
| `Klist.Mempool.Free` | `aflnet/klist.h:59-66` | appends the node to the pool, within the doubled capacity |
| `Klist.List.constructor` | `aflnet/klist.h:89-95` | an empty list of one sentinel node |
| `Klist.List.Push` | `aflnet/klist.h:104-109` | appends the message in the old sentinel node, takes the new sentinel from the pool, and touches no other node |
| `Klist.List.Shift` | `aflnet/klist.h:110-118` | removes the first message and gives its node to the pool; an empty list is left unchanged |
| `Klist.List.GetLastMessage` | `aflnet/aflnet.c:1553-1561` | the node before the sentinel; needs a non-empty list, as the original does |
| `Splice.MessagesCoverBuffer` | `aflnet/afl-fuzz.c:5425-5453` | the messages built from out_buf are at most max_seed_region_count + 1 and concatenate to out_buf up to the end of the last region, the last one swallowing the regions beyond the limit |
| `Splice.MessagesOfRegions` | `aflnet/afl-fuzz.c:5425-5453` | the i-th message is the slice of region i, up to max_seed_region_count of them; one more takes all from there to the end of the last region |
| `Splice.RewiredChains` | `aflnet/afl-fuzz.c:5460-5472` | after the pointer surgery the nodes chain up as M1, N, M3, sentinel, and the old M2 nodes as a chain of their own ending at M2_next |
| `Splice.RearrangedDistinct` | `aflnet/afl-fuzz.c:5460-5472` | the kept and the detached nodes are all distinct from each other |
| `Splice.Session.constructor` | `aflnet/afl-fuzz.c:5961-5976` | the walk sets M2_prev and M2_next to the nodes before and after the chosen messages, null and the sentinel at the ends |
| `Splice.Session.PushMessages` | `aflnet/afl-fuzz.c:5426-5453` | pushes exactly the messages of out_buf behind M3; M2_next follows the sentinel when M3 is empty |
| `Splice.Session.Relink` | `aflnet/afl-fuzz.c:5460-5472` | both branches of the surgery, with and without M1, rewire the same three links |
| `Splice.Session.FreeDetached` | `aflnet/afl-fuzz.c:5474-5486` | the do-while frees exactly the detached nodes, in order, and ends at M2_next |
| `Splice.Session.ReplaceM2` | `aflnet/afl-fuzz.c:5413-5486` | M1 . M2 . M3 becomes M1 . N . M3 whether or not M1 and M3 are empty; exactly the old M2 nodes go to the pool, size changes by the difference of the lengths of N and M2, and M2 is the non-empty N with valid M2_prev and M2_next |
| `Splice.Session.ReplaceRepeatedly` | `aflnet/afl-fuzz.c:5400-5486` | for any number of executions in a row: M1 and M3 never change and M2 is what the last input was cut into |
| `SelectM2.SelectByState` | `aflnet/afl-fuzz.c:5905-5947` | with target 0, M2 starts at the first region; with another target, M1 ends with the first region annotated to reach it, and the seed is skipped exactly when there is no such region with a successor or an earlier region lacks an annotation; M2 is the maximal run of regions with as many states as its first |
| `SelectM2.SelectAtRandom` | `aflnet/afl-fuzz.c:5950-5955` | M2 starts at the first roll and has as many messages as the second says, but at least one; it is inside the seed |
| `SelectM2.Prepare` | `aflnet/afl-fuzz.c:5958-5976` | the list built from the seed file splits at the chosen regions into M1, a non-empty M2 and M3 whose bytes make up the framed part of the file |
| `Framers.ExtractRequests` | `aflnet/aflnet.c:16-84` | the SMTP, FTP, RTSP, HTTP, SIP and IPP framers (one loop with different terminators): regions are non-empty and contiguous from 0, every one but the last ends at the first place its protocol cuts, none earlier |
| `Framers.LookaheadCoversAll` | `aflnet/aflnet.c:580-653` | SIP and IPP regions cover the whole buffer |
| `Framers.OneTrailingByteIsLost` | `aflnet/aflnet.c:440-578` | regions cover the whole buffer, or all but its last byte; the latter exactly when the buffer is longer than one byte and all of it but the last byte is a sequence of whole requests, each cut at the first chance |
| `Framers.FramesOfLostByte` | `aflnet/aflnet.c:16-84` | a five-byte SMTP input whose fifth byte is in no region |
| `Framers.LostByte` | `aflnet/aflnet.c:16-84` | the SMTP framer run on that input |
| `Sessions.SessionIsCut` | `aflnet/aflnet.c:16-84` | a session of complete requests and an incomplete rest, as each protocol marks the last byte of a request (13 10 from the third byte on, 13 10 13 10 from the fifth on, 13 and one byte before REGISTER, INVITE, ACK or BYE, the end of headers or byte 3 before POST), is cut into exactly these; only a single byte left over is in no region |
| `Sessions.AnySession` | `aflnet/aflnet.c:440-800` | every buffer is such a session, so this says what the six framers return on all inputs |
| `Sessions.CutSession` | `aflnet/aflnet.c:510-578` | the framers run on a session |
| `BinaryFramers.ExtractRequestsTls` | `aflnet/aflnet.c:216-308` | ends although byte_count may stand still; regions partition the whole buffer, every one but the last is one record of 5 + length bytes (section 6.2.1 of RFC 5246) with at least two bytes behind it, the last is less than a record, or a record with at most one byte more |
| `BinarySessions.CutTlsSession` | `aflnet/aflnet.c:216-308` | for TLS records whose bytes 3 and 4 count the rest, one after the other, the regions are the records |
| `BinaryFramers.ExtractRequestsDicom` | `aflnet/aflnet.c:311-366` | regions partition the whole buffer; each region but a broken rest is one PDU of 6 + length bytes (section 9.3 of DICOM PS3.8), with the 32-bit sums as they wrap |
| `BinarySessions.CutDicomSession` | `aflnet/aflnet.c:311-366` | for DICOM PDUs whose bytes 2 to 5 count the rest the regions are the PDUs |
| `BinaryFramers.EndOfPacket` | `aflnet/aflnet.c:334-350` | the two range tests on the wrapped `end` pass exactly for a non-empty packet inside the buffer, and then the other 32-bit sums do not wrap |
| `BinaryFramers.ExtractRequestsDtls12` | `aflnet/aflnet.c:1059-1110` | regions partition the whole buffer and start exactly at 0 and at the record headers (section 4.1 of RFC 6347), whatever byte lies behind the buffer |
| `BinarySessions.CutDtlsSession` | `aflnet/aflnet.c:1059-1110` | for DTLS records that start with a content type of 20 to 24 and FE FD, with no such header inside, the regions are the records |
| `MessageFiles.ConstructKlMessages` | `aflnet/aflnet.c:1507-1533` | the list holds one message per region, read from the file one region size after the other |
| `MessageFiles.ReadsNamedSlices` | `aflnet/aflnet.c:1515-1529` | for regions contiguous from 0 the sequential read gives each region the slice of the file it names |
| `MessageFiles.SizesDecide` | `aflnet/aflnet.c:1515-1529` | where the regions claim to be makes no difference, only their sizes do |
| `MessageFiles.SaveKlMessages` | `aflnet/aflnet.c:1564-1605` | writes the first max_count messages, raw or each after its size |
| `MessageFiles.ConvertKlMessages` | `aflnet/aflnet.c:1607-1632` | the regions of the first max_count messages one behind the other; fatal exactly when the first message is empty |
| `MessageFiles.RegionsAdjoin` | `aflnet/aflnet.c:1607-1632` | region i starts where the messages before it end and is as long as its message |
| `MessageFiles.RawRoundTrip` | `aflnet/aflnet.c:1507-1529` | messages written raw and read back with the converted regions are the same messages, wherever in a file they are |
| `MessageFiles.SaveAndReload` | `aflnet/aflnet.c:1564-1632` | list to file and regions and back to a list gives the first max_count messages |
| `MessageFiles.DecodeReplayFile` | `aflnet/aflnet-replay.c:111-126` | the read loop sends the packets of the file one by one, a last one cut off padded with zeros, and ends |
| `MessageFiles.Le32RoundTrip` | `aflnet/aflnet.c:1579-1588` | sizes are written least significant byte first and read back |
| `MessageFiles.ReplayRoundTrip` | `aflnet/aflnet-replay.c:111-126` | the packets read from a replay file are the messages it was written from |
| `MessageFiles.CutOffReplay` | `aflnet/aflnet-replay.c:111-126` | a replay file cut off in a message yields the whole messages and what is there, padded with zeros; one cut off in a size just the whole messages |
| `MessageFiles.SaveAndReplay` | `aflnet/aflnet.c:1579-1588` | what afl-fuzz saves for replay, aflnet-replay sends |
| `Responses.ExtractResponseCodes` | `aflnet/aflnet.c:1285-1329` | the loop of the FTP and SMTP extractors computes the codes of the specification scan |
| `Responses.CodesOfPrefix` | `aflnet/aflnet.c:1285-1329` | the codes of a prefix of a response are a prefix of the codes of the response |
| `Responses.OnlyTheFirstIsZero` | `aflnet/aflnet.c:1299-1320` | the sequence starts with state 0 and never returns to it |
| `Responses.CodesOfReplies` | `aflnet/aflnet.c:1285-1329` | replies of three digits and any text are read as their codes, after state 0; an unfinished last line adds nothing |
| `Responses.NoCodeStops` | `aflnet/aflnet.c:1308-1312` | a line that starts with 000 or with neither digit, sign nor white space ends the sequence, whatever follows |
| `Responses.EmptyLineReadsOn` | `aflnet/aflnet.c:1300-1320` | the line buffer is not cleared between lines: an empty line behind a reply 221 reads as code 1 |
| `Responses.CodesOfStatusLines` | `aflnet/aflnet.c:799-843` | in particular lines of a bare code |
| `StatePaths.TrimStateSequence` | `aflnet/afl-fuzz.c:498-506` | the loop computes the sequence with runs cut to two |
| `StatePaths.TrimKeepsStates` | `aflnet/afl-fuzz.c:498-506` | trimming loses no state |
| `StatePaths.TrimKeepsEdges` | `aflnet/afl-fuzz.c:498-506` | nor any transition: a path dismissed as seen misses no edge of the graph |
| `StatePaths.NoTripleIsLeft` | `aflnet/afl-fuzz.c:498-506` | no three equal states in a row are left |
| `StatePaths.NothingToTrim` | `aflnet/afl-fuzz.c:498-506` | a sequence is unchanged exactly if it has no three equal states in a row |
| `StatePaths.TurnsDoNotMatter` | `aflnet/afl-fuzz.c:498-506` | however often a state that occurs twice or more in a row is repeated, the trimmed sequence is the same |
| `StateTracker.ExpandWasFuzzedMap` | `aflnet/afl-fuzz.c:454-470` | the map grows by rows and columns; old cells keep their value, new cells are -1 |
| `StateTracker.Tracker.constructor` | `aflnet/afl-fuzz.c:418-429` | the empty bookkeeping is consistent |
| `StateTracker.Tracker.GetStateIndex` | `aflnet/afl-fuzz.c:445-451` | the position of the state, or state_ids_count exactly when it is unknown |
| `StateTracker.Tracker.AddToQueue` | `aflnet/afl-fuzz.c:1580-1655` | a new seed: one column more, nothing reached yet, no other cell changes, everything stays consistent |
| `StateTracker.Tracker.IsStateSequenceInteresting` | `aflnet/afl-fuzz.c:497-519` | says whether the hash of the trimmed sequence is new and remembers it |
| `StateTracker.Tracker.LoopsAreNoNews` | `aflnet/afl-fuzz.c:497-519` | once a sequence is recorded, one that differs in how often a loop of two or more repeats is not interesting |
| `StateTracker.Tracker.LearnPath` | `aflnet/afl-fuzz.c:784-870` | afterwards the known states are the old ones and those of the path, the edges the old ones and its transitions, ids are only appended, existing records and map cells are kept, graph, table, id array and map agree |
| `StateTracker.Tracker.AnnotateRegions` | `aflnet/afl-fuzz.c:522-536` | each sent region gets the codes of the response so far, or none when its message got no answer |
| `StateTracker.AnnotatedIfAnswered` | `aflnet/afl-fuzz.c:522-536` | a region is annotated exactly if bytes arrived for its message, and then with the codes of all bytes received so far |
| `StateTracker.Tracker.ReachState` | `aflnet/afl-fuzz.c:914-951` | the seed is listed under the state and its cell marked, no other cell changes, also in the branch for an unknown state |
| `StateTracker.Tracker.SpreadSeed` | `aflnet/afl-fuzz.c:892-953` | the seed is listed under state 0 and under the last state of every annotated region, and under no other |
| `StateTracker.Tracker.CountPaths` | `aflnet/afl-fuzz.c:955-974` | each state of the sequence is counted once, however often it occurs |
| `StateTracker.Tracker.WhenUnexpected` | `aflnet/afl-fuzz.c:920-948` | some region ends in an unknown state exactly when the path was dismissed because a different path has its hash, and hid that state |
| `StateTracker.Tracker.UpdateStateAwareVariables` | `aflnet/afl-fuzz.c:763-986` | the branch "supposed to be not reachable" runs exactly when a collision of the path hash hides a state that some region ends in; then the graph lacks a known state; in every other case ids, table, graph, map, seed lists and annotations agree and change as specified; fatal exactly when state 0 is unknown after learning |
| `StateTracker.Tracker.MarkFuzzed` | `aflnet/afl-fuzz.c:7622-7624` | marks the one cell of target state and seed, everything stays consistent |
| `StateTracker.Tracker.NoFalseHits` | `aflnet/afl-fuzz.c:508-518` | when no two of the paths seen and the new one have the same hash, nothing is hidden: the hash is known exactly if the path is |
| `StateTracker.Tracker.Step` | `aflnet/afl-fuzz.c:763-986` | without collisions among the paths, queueing, execution and fuzzing each change queue, annotations, records, seed lists, edges, paths and fuzzed cells as the event says (a reference bookkeeping on sets and maps), keep the invariant and never run that branch |
| `StateTracker.Tracker.Run` | `aflnet/afl-fuzz.c:763-986` | the same for whole runs of any length, from any state the bookkeeping can be in: outcomes and final state are those of the reference bookkeeping, the queue grows by the seeds queued, and every state and transition of every response with two or more codes is in the state table and in the graph |
| `StateTracker.SeedsAndCells` | `aflnet/afl-fuzz.c:892-953` | in the reference bookkeeping a run lists its seed under state 0 and the last states of its annotated regions, where it no longer counts as fuzzed, and changes nothing for other seeds and states |
| `StateTracker.CountersCount` | `aflnet/afl-fuzz.c:955-985` | over a run a state's paths are the responses that passed through it, its discoveries the runs made for it outside the dry run |
| `StateTracker.LastStatesReceived` | `aflnet/afl-fuzz.c:526-534` | what regions are annotated to end in has been received in the full response |
| `StatePaths.LastCodeIsDropped` | `aflnet/hash.h:43-52` | on x86_64, however hash32 mixes, two sequences of odd length that differ only in the last code have the same hash |
| `StatePaths.HashedCodes` | `aflnet/hash.h:43-52` | hash32 on x86_64 tells two sequences of even length apart if they differ anywhere, others if they differ before the last code |
| `StateTracker.TwoLoginsCollide` | `aflnet/afl-fuzz.c:920-948` | therefore the branch does run: two FTP logins that differ in the last reply reach it |
| `PopCount.SwarIsPop` | `aflnet/afl-fuzz.c:1822-1824` | the masked additions and the multiplication count the set bits of a word |
| `PopCount.ClearingCounts` | `aflnet/afl-fuzz.c:1785` | clearing bits never raises the count and lowers it when one of them was set |
| `Bitmap.UnseenInWord` | `aflnet/afl-fuzz.c:1757` | `*current & *virgin` is non-zero exactly when one of the eight bytes has an unseen bit |
| `Bitmap.FirstHitInWord` | `aflnet/afl-fuzz.c:1769-1773` | the eight-way test is true exactly when one of the eight bytes is hit for the first time, and then the word has an unseen bit |
| `Bitmap.VerdictByWords` | `aflnet/afl-fuzz.c:1731-1798` | the byte-level verdict can be read off word by word |
| `Bitmap.HasNewBits` | `aflnet/afl-fuzz.c:1731-1798` | returns 2 exactly if some hit byte was untouched, else 1 exactly if some bit was unseen, else 0, and takes exactly the bits of the trace out of the map, although words are skipped |
| `Bitmap.CountBits` | `aflnet/afl-fuzz.c:1804-1830` | the number of set bits of the map |
| `Bitmap.FindsCostBits` | `aflnet/afl-fuzz.c:1731-1798` | the count of the map drops exactly when has_new_bits says something other than 0; otherwise the map is unchanged |
| `Bitmap.FindsAreBounded` | `aflnet/afl-fuzz.c:1731-1798` | over any history, finds plus remaining bits never exceed the initial bits, at most 8 for each byte of the map |
| `Bitmap.RepeatFindsNothing` | `aflnet/afl-fuzz.c:1731-1798` | an immediate repeat of a trace returns 0 |
| `Bitmap.AfterIsComplement` | `aflnet/afl-fuzz.c:1785` | after any history the map is the initial map without the union of all traces |
| `Bitmap.NewTupleOverHistory` | `aflnet/afl-fuzz.c:1764-1773` | from a fresh map, the verdict is 2 exactly when some byte of the trace was hit by no earlier trace |
| `Classify.InitCountClass16` | `aflnet/afl-fuzz.c:1984-1994` | every one of the 65536 entries holds the two buckets of its two bytes |
| `Classify.ClassifyCounts` | `aflnet/afl-fuzz.c:1999-2022` | every byte of the trace is replaced by its bucket, although words of zeros are skipped and bytes go in pairs |
| `Classify.BucketsAreOrdered` | `aflnet/afl-fuzz.c:1967-1979` | buckets are single bits, ordered as the counts are, and only 0 is bucket 0 |
| `Classify.BucketIntervals` | `aflnet/afl-fuzz.c:1967-1979` | the eight buckets are 1, 2, 3, 4-7, 8-15, 16-31, 32-127 and 128 up |
| `BitPack.SetBitLaw` | `aflnet/afl-fuzz.c:2071` | setting bit i & 7 of byte i >> 3 sets that bit and no other |
| `BitPack.MaskIsShift` | `aflnet/afl-fuzz.c:2071` | the masks used for bit k of a byte are 1 << k |
| `TopRated.MinimizeBits` | `aflnet/afl-fuzz.c:2065-2076` | bit i of the result is set exactly when byte i of the trace is not zero |
| `TopRated.RemoveBits` | `aflnet/afl-fuzz.c:2178-2180` | takes exactly the bits of the entry out of temp_v, skipped zero bytes included |
| `TopRated.Scores.Run` | `aflnet/afl-fuzz.c:2090-2198` | for any run of queueing, scoring and culling the slots, counts and entries are those of a reference bookkeeping on values; after a cull every map byte hit by a trace scored at any time was hit by a favoured entry, until scores change again |
| `TopRated.EverIsUnion` | `aflnet/afl-fuzz.c:2090-2136` | in that bookkeeping the bytes ever hit are the old ones and those of all scored traces |
| `TopRated.BestKeepsWinning` | `aflnet/afl-fuzz.c:2098-2113` | and each winner has at least as many states as any other entry that hit its byte, as long as counts are set before scoring |
| `TopRated.OnlyStatesDecide` | `aflnet/afl-fuzz.c:2090-2136` | of two entries that hit the same byte the second takes its slot exactly if it has no fewer states, whatever the speed and size of either |
| `TopRated.Scores.ScoreSlots` | `aflnet/afl-fuzz.c:2098-2134` | the loop over the map: winners, reference counts, kept traces (dropped with the last slot lost, otherwise kept; a new one holds exactly the bytes hit) and the score_changed mark |
| `TopRated.Scores.UpdateBitmapScore` | `aflnet/afl-fuzz.c:2090-2136` | score_changed is raised exactly by a win; q wins exactly the hit slots that had no winner or one with no larger unique state count; every tc_ref still is the number of slots won, trace_mini is there exactly while that is positive, contains every slot held and nothing its entry has not hit |
| `TopRated.Scores.Release` | `aflnet/afl-fuzz.c:2115-2118` | the previous winner of a slot gives up one reference and, with the last one, its trace |
| `TopRated.Scores.Claim` | `aflnet/afl-fuzz.c:2124-2130` | the new winner of a slot gets a reference and, if it has none, a trace of exactly the bytes hit |
| `TopRated.Scores.CullQueue` | `aflnet/afl-fuzz.c:2145-2198` | does nothing in dumb mode or without a score change; otherwise favours exactly the picked entries and the initial seeds favoured before, counts the distinct picked ones, picks greedily, and every map byte ever hit by a scored entry was hit by a picked one |
| `TopRated.Scores.FavorWinners` | `aflnet/afl-fuzz.c:2171-2189` | the loop over the slots picks a winner only for a byte no picked entry covers, and ends with all winners' bytes hit by picked ones |
| `TopRated.Scores.ResetFavored` | `aflnet/afl-fuzz.c:2160-2166` | only initial seeds keep their mark |
| `Tmin.NextP2` | `aflnet/afl-tmin.c:412-418` | the least power of two that is at least val (and at least 1) |
| `Tmin.Minimizer.NormalizeBlocks` | `aflnet/afl-tmin.c:438-472` | the data are those of trying every block in turn, so skipping blocks of '0' makes no difference; nothing but accepted changes of bytes into '0' |
| `TminData.NormalizedIdle` | `aflnet/afl-tmin.c:438-472` | stage 0 changes nothing exactly when no aligned block of the data can be turned into '0' throughout, and otherwise leaves fewer bytes other than '0' |
| `TminData.NormalizedStep` | `aflnet/afl-tmin.c:445-468` | stage 0 tries the data with '0' in the whole block at a position, then goes on behind it |
| `Tmin.StageLengths` | `aflnet/afl-tmin.c:438-490` | blocks of stage 0 are the least power of two from 4 on that is not below len / 128, those of stage 1 start at the least one not below len / 16 |
| `Tmin.Minimizer.DeleteBlocks` | `aflnet/afl-tmin.c:495-543` | the data are those of a sweep that tests every block, so skipping a block equal to the rejected one before it makes no difference; a sweep that deletes nothing has shown that no aligned block can be dropped |
| `TminData.SweptStep` | `aflnet/afl-tmin.c:500-543` | a sweep of stage 1 tries the data without the block at a position and goes on behind it only if it must stay |
| `TminData.EqualBlocks` | `aflnet/afl-tmin.c:510-521` | dropping a block equal to the one before it gives the same data as dropping that one |
| `Tmin.Minimizer.DeletionStage` | `aflnet/afl-tmin.c:484-550` | the data of sweeps with halved lengths from next_p2(in_len / 16) down to 1; without a deletion they are block-minimal for all of these |
| `Tmin.Minimizer.SymbolStage` | `aflnet/afl-tmin.c:559-600` | the data are those of trying all 256 symbols in turn, whatever the histogram of the start allows to skip; any change lowers the number of bytes other than '0' |
| `TminData.MergedTries` | `aflnet/afl-tmin.c:575-600` | stage 2 tries the data with '0' for every byte of one value, then the next value |
| `Tmin.Minimizer.CharacterStage` | `aflnet/afl-tmin.c:608-635` | the data are those of trying every byte in turn, with tmp_buf following in_data; any change lowers the number of bytes other than '0' |
| `TminData.SparedTries` | `aflnet/afl-tmin.c:608-635` | stage 3 tries the data with '0' for one byte, then the next byte |
| `Tmin.Minimizer.OnePass` | `aflnet/afl-tmin.c:479-642` | another pass is wanted only if the pair (length, bytes other than '0') went down; otherwise nothing changed and the data are block-minimal; a pass that is not cut short computes what a pass without any skipped test computes |
| `Tmin.Minimizer.Minimize` | `aflnet/afl-tmin.c:423-659` | ends; the result is never longer, is a simplification of the input, is accepted if anything changed, no single byte (nor any aligned block of a tried length) can be dropped from it, and it is the outcome of passes in which every test is made: the first pass, and then as many as it takes until nothing can be deleted |
| `Tmin.Minimizer.FixedPoint` | `aflnet/afl-tmin.c:552-640` | on data from which nothing can be deleted, a pass changes nothing exactly when no symbol and no single byte can be turned into '0' any more |
| `Tmin.ByteLeftOver` | `aflnet/afl-tmin.c:479-642` | a run whose result has a byte that could still be turned into '0' |
| `Tmin.AflTmin` | `aflnet/afl-tmin.c:1131-1148` | the whole tool on a deterministic target: it gives up exactly when the dry run times out, or neither crashes nor leaves a trace; otherwise the result behaves like the input, and removing any one byte changes the behaviour |
| `Tokens.DumpToken` | `aflnet/libtokencap/libtokencap.so.c:106-142` | emits nothing for tokens shorter than 3 or longer than 32, otherwise one quoted, escaped line of the bytes before the NUL of a text; the local buffer is never overrun |
| `DictLines.PrintedBytes` | `aflnet/libtokencap/libtokencap.so.c:106-134` | bytes 32 to 126 but quote and backslash are printed as they are, all others in lower-case hexadecimal; tokens shorter than 3 or longer than 32 are not printed |
| `Tokens.CopyKeyword` | `aflnet/afl-fuzz.c:2468-2507` | the copying loop computes the specified unescaping, failures included |
| `DictLines.PiecesAreRead` | `aflnet/afl-fuzz.c:2468-2507` | a token is read back however its bytes are written: as themselves, with a backslash before quote or backslash, or as \x and two hexadecimal digits of either case |
| `DictLines.OnlyPiecesAreRead` | `aflnet/afl-fuzz.c:2468-2507` | nothing else between quotes can be read |
| `Tokens.ParseLine` | `aflnet/afl-fuzz.c:2406-2518` | one line is skipped, fatal or a keyword exactly as the specification of trimming, label, level, quotes and escapes says |
| `Tokens.UnescapeEscape` | `aflnet/libtokencap/libtokencap.so.c:115-134` | for every byte string, unescaping the printed form gives it back |
| `Tokens.EntryParses` | `aflnet/afl-fuzz.c:2411-2513` | a line of spaces, label, @level, separators, any text in quotes and trailing spaces denotes the unescaped text; it is skipped exactly when its level is above the one asked for, fatal when the text is empty, cannot be unescaped or is over 128 bytes |
| `DictLines.AssignmentIsRead` | `aflnet/afl-fuzz.c:2411-2513` | a line name@level = "text", by its literal characters, is a keyword of its unescaped bytes, too big from 129 bytes on, skipped above its level |
| `DictLines.CommentsAreSkipped` | `aflnet/afl-fuzz.c:2411-2422` | blank lines and lines whose first visible character is # are skipped |
| `DictLines.QuoteIsMissing` | `aflnet/afl-fuzz.c:2424-2428` | a line that does not end with a quote is malformed |
| `DictLines.OpeningQuoteIsMissing` | `aflnet/afl-fuzz.c:2432-2456` | so is one with something other than a quote behind its name |
| `Tokens.TokenLineParses` | `aflnet/afl-fuzz.c:2404-2520` | a dumped line is read as the bytes it was written for |
| `Tokens.LoadExtrasFile` | `aflnet/afl-fuzz.c:2392-2524` | the file is the sequence of its lines: all keywords in order, or the first fatal line |
| `DictLines.LineMeans` | `aflnet/afl-fuzz.c:2404` | a line ends with its first newline, the end of the file or a full buffer |
| `Tokens.TokenFileRoundTrip` | `aflnet/libtokencap/libtokencap.so.c:106-142` | a token file loads back as exactly the printed tokens, in order and at every level, if and only if no dumped text starts with a NUL (which prints an empty, fatal keyword) |
| `Tokens.EmptyTextFails` | `aflnet/libtokencap/libtokencap.so.c:106-142` | a text of three NULs, printed as an empty pair of quotes, makes the file unreadable |
| `Tokens.CollectedUntruncated` | `aflnet/libtokencap/libtokencap.so.c:117-119` | without a NUL in a text the loaded tokens are the compared buffers themselves |
| `Tokens.DumpAndLoad` | `aflnet/libtokencap/libtokencap.so.c:106-142` | printer and loader composed: the same two facts about the running code |
| `DictOverlay.TokensAt` | `aflnet/afl-fuzz.c:6830-6866` | the inner loop runs exactly the specified trials at one offset, up to the first that ends the entry |
| `DictOverlay.EffectiveMeans` | `aflnet/afl-fuzz.c:6845-6850` | a span is worth trying exactly if some byte of it lies in a block of eight that the effector map marks |
| `DictOverlay.OverwriteStage` | `aflnet/afl-fuzz.c:6828-6868` | the whole stage does, and leaves the buffer the specification leaves |
| `DictOverlay.OffsetSound` | `aflnet/afl-fuzz.c:6830-6866` | with tokens sorted by length: every trial at offset i is the input with exactly one admissible token over it, the buffer is restored, and a token skipped as redundant would only have repeated the input or the trial before it |
| `DictOverlay.TrialsDiffer` | `aflnet/afl-fuzz.c:6836-6850` | at one offset no trial repeats the buffer its token is laid into: redundant tokens are not tried |
| `DictOverlay.StageSound` | `aflnet/afl-fuzz.c:6828-6868` | the same for all offsets: nothing but single overlays runs, no admissible overlay is missed, the input is back in the buffer |
| `DictOverlay.SortedOverwriteStage` | `aflnet/afl-fuzz.c:6937-6968` | the same for the running code of both overwrite stages: trials in order up to the first that ends the entry, none missed if none does |
| `DictOverlay.UnsortedLeavesTail` | `aflnet/afl-fuzz.c:6834-6837` | sorting matters: with a shorter token after a longer one the trial and the buffer keep the longer one's tail |
| `DictOverlay.InsertStage` | `aflnet/afl-fuzz.c:6884-6915` | each trial is the input with one token inserted, although head, token and tail are copied piecemeal into one scratch buffer |
| `DictOverlay.InsertedEverywhere` | `aflnet/afl-fuzz.c:6886-6910` | every token that leaves the input within MAX_FILE is inserted at every position, both ends included |
| `DictOverlay.OnlyInserted` | `aflnet/afl-fuzz.c:6886-6910` | and nothing else runs |
| `DictStages.LoadExtras` | `aflnet/afl-fuzz.c:2529-2611` | the dictionary is a sorted permutation of the keywords of the file, each of 1 to 128 bytes; none at all exactly if a line is fatal or there is no keyword |
| `DictStages.DictionaryStages` | `aflnet/afl-fuzz.c:6824-6970` | the three stages in a row run the specified trials in order, up to the first that ends the entry; all are single overlays or single insertions on the unchanged input, with user tokens and the automatic tokens in use; if none ends the entry, every such overlay or insertion that changes the input is run and the buffer holds the input again |
| `DictStages.TrialsAreIntended` | `aflnet/afl-fuzz.c:6824-6970` | the trials of the three stages are exactly those overlays and insertions, the input itself aside |
| `AutoDictionary.Dictionary.MatchesUserExtra` | `aflnet/afl-fuzz.c:2682-2686` | the search that stops at the first longer extra finds a match up to case exactly when there is one |
| `AutoDictionary.Dictionary.SortExtras` | `aflnet/afl-fuzz.c:2730-2740` | for any unstable qsort: afterwards the first 50 are sorted by length and no later entry has more hits than an earlier one outside them |
| `AutoDictionary.Dictionary.MaybeAddAuto` | `aflnet/afl-fuzz.c:2641-2742` | keeps the collected tokens distinct up to case, disjoint from the user's, at most 500; a known token gains a hit, a new one is added or replaces the one drawn from the second half, which has no more hits than any of the first |
| `AutoDictionary.DistinctMeans` | `aflnet/afl-fuzz.c:2693-2702` | distinct up to case: no two collected tokens agree when folded |
| `AutoDictionary.FoldedAlike` | `aflnet/afl-fuzz.c:2625-2637` | two tokens are the same exactly if they differ at most in the case of letters |
| `ForkServer.StepKeeps` | `aflnet/llvm_mode/afl-llvm-rt.o.c:115-177` | every system call of either side, every move of the child and the alarm keep the invariant that ties pipes, children, flags and histories |
| `ForkServer.RunKeeps` | `aflnet/llvm_mode/afl-llvm-rt.o.c:103-179` | so does every run, in any interleaving |
| `ForkServer.HandshakeIsSafe` | `aflnet/afl-fuzz.c:3264-3308` | at any moment of any run there is at most one child; run_target never takes a status for a process id; the k-th pid and status it reads are those of the k-th wait; the alarm never kills the fork server, nor any process but the server's child; the process id is forgotten exactly when the child has ended |
| `ForkServer.OnlyStoppedIsContinued` | `aflnet/llvm_mode/afl-llvm-rt.o.c:124-151` | SIGCONT only ever goes to a stopped child, never to one the timeout killed; a killed one can be reaped at once |
| `ForkServer.KillsAreTimeouts` | `aflnet/afl-fuzz.c:3335-3347` | as long as only the alarm sends SIGKILL: a run is reported as a timeout exactly when its child died of signal 9, as a crash exactly when it died of a signal other than 9 and 15 |
| `ForkServer.TerminationHolds` | `aflnet/afl-fuzz.c:1110-1123` | in every run, from the SIGTERM of send_over_network on, the child is dead or may die of it whenever it runs, until it has been waited for |
| `ForkServer.EndsOnRequest` | `aflnet/afl-fuzz.c:3335-3347` | a run in which the child ends on that SIGTERM: status 15 is read and no fault reported |
| `ForkServer.InputsPerProcess` | `aflnet/llvm_mode/afl-llvm-rt.o.c:184-232` | one process takes at most max_cnt inputs (2^32 if max_cnt is 0) |
| `ForkServer.TakesInputs` | `aflnet/llvm_mode/afl-llvm-rt.o.c:184-232` | the bound is met: a persistent process can take each number of inputs up to it |
| `ForkServer.Progress` | `aflnet/llvm_mode/afl-llvm-rt.o.c:115-177` | without any help of the child, one of fuzzer, server and alarm can move, unless send_over_network may poll a persistent child |
| `ForkServer.WhenStuck` | `aflnet/afl-fuzz.c:1119-1123` | a state in which nothing can move is reachable if and only if a persistent target that takes more than one input is run in network mode |
| `ForkServer.EveryCallEnds` | `aflnet/afl-fuzz.c:3152-3373` | between two requests at most 37 steps happen, in whatever order |

## Left out

- Files, sockets, shared memory, rlimits, start-up and the stop signal: files are byte sequences, sending is one step of the fork-server model.
- Status screen, statistics, plot files, argument parsing, and the Python layer.
- Floating point (state scores, averages); the load factor 0.77 is floor((77 n + 50) / 100).
- Graphviz: the inferred state machine is a set of nodes and a set of edges; the replay files written for new paths are the subject of `MessageFiles`.
- The choice of the next target state and seed, and energy calculation.
- SSH and DNS framers, IPP and DTLS response extractors: they look past what has been framed or step over the end, so no partition or prefix law holds for them; the remaining extractors would add nothing harder.
- kh_clear (one fill of the flags, as in `FlagPack.AllEmpty`), kh_destroy, kl_destroy and the freeing of message data.
- Khash.Table32: `& mask` is written as a remainder by the number of buckets; after a failed shrinking krealloc the state is not described any further, only that it is no table.
- Bitmap: a 64-bit word is a pair of 32-bit words; the bitmap_changed mark is not modelled.
- TopRated.Scores.UpdateBitmapScore: an entry is scored for the first time, or again with a trace its kept trace accounts for; with a different trace the code would keep the old trace_mini.
- TopRated.Scores.CullQueue: pending_favored and the redundant marks on disk.
- StateTracker: the hash sets are sets (what they do is `KhashRun`); records keep seeds and path counters only.
- MessageFiles.ConvertKlMessages: the total size stays below 2^31, where the signed positions of the code would overflow.
- MessageFiles.SaveKlMessages: a message is smaller than 2^32 bytes and so is the file, as the 32-bit counters need.
- Framers.ExtractRequests: the growing scratch buffer `mem` is the part of the input since the last cut.
- Tokens.ParseLine: atoi overflow on levels of 2^31 and more; directories of extras, whose files are taken as they are.
- AutoDictionary: the tables of interesting values are a parameter; hit counters do not wrap.
- DictOverlay: stage_max accounting; a trial's effect on the target is the function that may end the entry.
- ForkServer.KillsAreTimeouts: no SIGKILL from elsewhere (the kernel's memory killer, an operator); the exit code that reports a sanitizer crash is not modelled.
- ForkServer: both loops are steps of one state machine on values, since their interleaving is the subject; fork and pipe errors, which end both programs; stop requests; the target's own use of SIGSTOP outside the persistent loop.
