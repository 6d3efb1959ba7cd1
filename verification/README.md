# A verified model of Go-Webtools

Dafny models of the parts of Go-Webtools that carry the most state, and proofs of what they promise.
`dafny verify dfyconfig.toml` checks everything.

**Reliable UDP.** A sender numbers packets with a sequence number and, for ordered delivery, an order number,
and resends until a sliding bit window shows them acknowledged. The receiver removes duplicates with such a window
and reorders with a binary heap whose keys wrap around. The model is built in layers, each proved to refine the next:
an array of words, one big integer, a set of offsets, a set of unwrapped numbers; a heap of wrapped numbers in an array
(`OrdererMachine`), a finite map of unwrapped ones, a numbering. On top stands a system of two ends (`Protocol`): every
handler call is one step, the network is the set of all frames ever sent to an end, and beside each wrapped counter stands
the integer it came from, which no handler looks at. The instantiation is that of `main.go`: 32-bit sequence and order numbers, windows of 64-bit words.
`BitArrays` is proved for words of 8, 16, 32 and 64 bits.

**Diff and patch.** Trimming, the table, the backtrack, the edit script, and the patcher that sorts the script.

**The journaling database.** Its files change one disk step at a time, and a crash may come between any two.

**Frames and schemas.** Webtools frames, WebSocket frames (sections 5.2 and 5.3 of RFC 6455), and the nested schema strings.

Objects that the program updates in place are classes (`ReplayWindow`, `PacketOrderer`, `ConnectionStabilizerConn`,
`JournalingRAMDatabase` with its `Files`, `Connection`); each method is proved against a function on values, and the laws
are lemmas about those functions. `uint32` is the type of 32-bit unsigned integers, with every wrap-around written out.
A handler of the stabilizer is modelled as one step; the program locks each window, each orderer and the two order counters
by themselves.

Where the code does less than its purpose suggests, the exact condition is proved:

- frames that are ordered with a timeout are delivered in strictly increasing order exactly when none arrives whose number
  already waits while the next one does not: `OrdererRuns.TimeoutOrdering`, `OrdererRuns.RepeatedFrameIsDeliveredTwice`;
- a push after a timeout can drop the pushed packet: `OrdererMeaning.PushKeepsExactly`, `OrdererMeaning.PushCanLosePacket`;
- an acknowledgement reaches back far enough exactly for windows of a power of two of words: `AckWords.CoversExactlyPowersOfTwo`;
- the difference stops with an index out of range exactly when the new array is the old one with a block cut out:
  `Diff.DiffInStringLCS`, `Diff.DeletingLastIsCut`;
- Webtools frames that arrive together are separable exactly when no identifier holds a separator and only the last frame
  is empty: `WebtoolsFrames.UnpackAllRoundTrip`;
- the eight bytes of a long WebSocket length are asked for with one `Read`, and a frame is read faithfully exactly when its
  payload has at most 65535 bytes or that `Read` returns all eight: `WebSocketFrames.FaithfulExactlyWhenWhole`;
- a printed map splits into key and value exactly when neither is a map: `SchemaStrings.MapSplits`; a printed struct splits
  into its fields unchanged exactly when it has any and they are ASCII: `SchemaStrings.StructSplits`.

The comment on `JoinWindowData` speaks of a distance of 64; the code compares with half the range of the counter, and so does
the model.

## Model

| member | source | states |
|---|---|---|
| BitArrays.BitShiftArrayLeft | helpertools/BitOperations.go:156-187 | in place, for every count: the array holds its old bits moved up by the count and zeros below; a negative count shifts right |
| BitArrays.BitShiftArrayRight | helpertools/BitOperations.go:192-223 | in place, for every count: the array holds its old bits moved down by the count |
| BitArrays.MovedUpIsMultiplication | helpertools/BitOperations.go:156-187 | moving up by `n` is multiplication of the whole array's number by `2^n`, modulo `2^(width * words)` |
| BitArrays.MovedDownIsDivision | helpertools/BitOperations.go:192-223 | moving down by `n` is division of that number by `2^n`, rounded down |
| BitArrays.LeftThenRight | helpertools/BitOperations.go:156-223 | left and then right by `n` clears the top `n` bits and nothing else |
| BitArrays.LeftThenLeft | helpertools/BitOperations.go:156-187 | two shifts to the left are one by the sum of the counts |
| BitArrays.SetBitArray | helpertools/BitOperations.go:79-90 | sets the bit counted from the front and leaves every other bit of the array; past the end nothing changes |
| BitArrays.ClearBitArray | helpertools/BitOperations.go:95-106 | clears that bit and leaves every other |
| BitArrays.CheckBitArray | helpertools/BitOperations.go:111-121 | reads that bit; past the end it is not set |
| Bytes.ParseAfterAppend | helpertools/BitOperations.go:226-253 | parsing what was appended, whatever follows it, returns the value modulo the width |
| Bytes.WordsRoundTrip | helpertools/ReplayWindow.go:210-212 | the words of a window, appended from the right, are parsed back in order |
| Serial.SerialComparison | helpertools/PacketOrdererHeap.go:342-345 | the wrapping comparison is that of the unwrapped numbers exactly while they are within half the range (section 3.2 of RFC 1982) |
| Serial.UnwrapIsInverse | helpertools/PacketOrdererHeap.go:342-345 | a received counter determines the number it was made from exactly within that distance |
| Serial.OppositeNumbers | helpertools/PacketOrdererHeap.go:342-345 | half the range apart, neither number is in the other's future |
| Serial.SerialComparisonCycles | helpertools/PacketOrdererHeap.go:342-345 | three numbers of which each is in the future of the one before, all the way around |
| ReplayWindows.ReplayWindow.constructor | helpertools/ReplayWindow.go:33-41 | a window of the given number of words that has seen nothing |
| ReplayWindows.ReplayWindow.ApplyWindowCheck | helpertools/ReplayWindow.go:55-118 | on the array of words: accepts as the set-level window does and leaves the words that stand for its new set |
| ReplayWindows.ReplayWindow.CheckValue | helpertools/ReplayWindow.go:121-134 | answers whether the number's offset from the right edge is marked |
| ReplayWindows.ReplayWindow.GetWindowDataBytes | helpertools/ReplayWindow.go:192-214 | the bytes of the right edge, the word count if asked for, and the newest words |
| ReplayWindows.ReplayWindow.JoinWindowData | helpertools/ReplayWindow.go:225-275 | on the array of words: the set-level join, for arrays of any length |
| ReplayWindows.ReplayWindow.JoinWindowDataBytes | helpertools/ReplayWindow.go:288-314 | the same for a window parsed from bytes; the returned count leaves out a size byte that was read unless it is zero |
| ReplayWindows.GetReplayWindowBits | helpertools/ReplayWindow.go:317-335 | lists the numbers whose bit is as wanted, the oldest first |
| ReplayWindows.PickedExactly | helpertools/ReplayWindow.go:317-326 | each such offset is listed exactly once, in strictly descending order |
| ReplayWindows.ListedExactlyWhenChecked | helpertools/ReplayWindow.go:121-134 | the active numbers that are listed are exactly those CheckValue finds |
| WindowMeaning.ApplyIsExact | helpertools/ReplayWindow.go:55-118 | a number is accepted exactly when it is ahead of the edge, or inside the window and not accepted before; the bits then show the new set of accepted numbers |
| WindowMeaning.NothingIsAcceptedTwice | helpertools/ReplayWindow.go:55-118 | over every run whose numbers arrive within half the range of the highest accepted, through wrap-around and jumps past the whole window: no number is accepted twice, and the bits are the accepted numbers among the newest |
| WindowMeaning.AcceptedExactlyWhen | helpertools/ReplayWindow.go:55-118 | at the end of every run a number is turned away exactly when it was accepted before or is older than the window |
| WindowJoin.JoinIsUnion | helpertools/ReplayWindow.go:225-275 | joining full windows whose edges are within half the range is the union of the marked numbers, cut to the newest |
| WindowJoin.JoinIsShortUnion | helpertools/ReplayWindow.go:225-275 | joining a window of fewer words is the same less the old marks that it cannot carry |
| WindowJoin.JoinCommutes | helpertools/ReplayWindow.go:225-275 | joining is commutative while the edges are within half the range |
| WindowJoin.JoinAssociates | helpertools/ReplayWindow.go:225-275 | joining is associative while all three edges are within half the range |
| WindowJoin.JoinIsIdempotent | helpertools/ReplayWindow.go:225-275 | joining a window with itself changes nothing |
| WindowJoin.AcksInAnyOrder | helpertools/ReplayWindow.go:225-275 | two sequences of acknowledgements with the same members, reordered or repeated, leave the same window, while all edges are within half the range |
| PacketHeap.SiftUp | helpertools/PacketOrdererHeap.go:27-51 | the loop of container/heap's `up` over the wrapping `Less`, for any keys |
| PacketHeap.UpRestores | helpertools/PacketOrdererHeap.go:32-44 | while all keys lie within half the range, sifting up restores the heap property |
| PacketHeap.SiftDown | helpertools/PacketOrdererHeap.go:27-51 | the loop of its `down`, for any keys |
| PacketHeap.DownRestores | helpertools/PacketOrdererHeap.go:32-51 | while all keys lie within half the range, sifting down restores the heap property on the first entries |
| PacketHeap.PushedKeeps | helpertools/PacketOrdererHeap.go:42-44 | a push adds one entry and loses none, for any keys |
| PacketHeap.HeapPop | helpertools/PacketOrdererHeap.go:47-51 | returns the first entry and sifts the rest |
| PacketHeap.PoppedKeeps | helpertools/PacketOrdererHeap.go:47-51 | a pop removes just the first entry, for any keys |
| PacketHeap.PoppedIsHeap | helpertools/PacketOrdererHeap.go:47-51 | while all keys lie within half the range, no other entry precedes the popped one, and the rest is a heap |
| PacketOrderers.PacketOrderer.constructor | helpertools/PacketOrdererHeap.go:64-86 | an orderer that expects number 0 and holds nothing |
| PacketOrderers.PacketOrderer.PushWithMissingPacketOption | helpertools/PacketOrdererHeap.go:98-178 | from every state and for every packet, a repeated number included: heap, next number and result are those of the value-level push |
| PacketOrderers.PacketOrderer.Dump | helpertools/PacketOrdererHeap.go:181-230 | from every state: those of the value-level dump |
| PacketOrderers.PacketOrderer.DumpAll | helpertools/PacketOrdererHeap.go:233-276 | from every state: those of the value-level dump of everything |
| OrdererMachine.SingleEntry | helpertools/PacketOrdererHeap.go:209-215 | the branch for a heap of one entry, which looks at no limit, does what the loop would |
| OrdererMachine.PushConserves | helpertools/PacketOrdererHeap.go:98-178 | whatever the heap holds, a push loses nothing of it: what is gone has been exported |
| OrdererMachine.DumpAllConserves | helpertools/PacketOrdererHeap.go:233-276 | whatever the heap holds, a dump of everything exports all of it when gaps are allowed |
| OrdererRefinement.PushShows | helpertools/PacketOrdererHeap.go:98-178 | on heap and wrapped counter a push does what is said of unwrapped numbers, unless the packet would wait beside one of its number |
| OrdererRefinement.DumpShows | helpertools/PacketOrdererHeap.go:181-230 | so does a dump, always |
| OrdererRefinement.DumpAllShows | helpertools/PacketOrdererHeap.go:233-276 | so does a dump of everything, always |
| OrdererRuns.StrictHistoriesAreShown | helpertools/PacketOrdererHeap.go:98-178 | over every history of pushes of distinct numbers in range, the heap exports what `OrdererMeaning.StrictReordering` says, through wrap-around |
| OrdererMeaning.StrictReordering | helpertools/PacketOrdererHeap.go:98-178 | over every history of pushes of distinct numbers in range: exported are exactly the numbers 0, 1, ... in order, waiting are exactly the later arrivals, and the next number is not among them |
| OrdererMeaning.NothingIsLost | helpertools/PacketOrdererHeap.go:98-178 | every packet of such a history is exported at its own place or still waits |
| OrdererMeaning.DumpAllConserves | helpertools/PacketOrdererHeap.go:233-276 | after such a history DumpAll leaves nothing, and everything pushed has been exported once, in increasing order |
| OrdererMeaning.PushKeepsExactly | helpertools/PacketOrdererHeap.go:147-171 | a push never loses what waits; it keeps the pushed packet exactly unless the next number waits and a number before the pushed one is missing |
| OrdererMeaning.PushCanLosePacket | helpertools/PacketOrdererHeap.go:147-230 | two pushes, a timeout and one more push after which the last packet is neither exported nor waiting |
| OrdererRuns.TimeoutOrdering | udp/UDPConnectionStabilizer.go:358-381 | for every interleaving of frames, timeouts and cleanups in range that ends with a cleanup: the numbers delivered from the heap increase strictly exactly when no frame arrives whose number already waits while the next number does not |
| OrdererRuns.RepeatedFrameIsDeliveredTwice | helpertools/PacketOrdererHeap.go:173-204 | frame 5 twice and its timeout: both copies are delivered |
| ConnectionStabilizer.ConnectionStabilizerConn.constructor | udp/UDPConnectionStabilizer.go:220-236 | a new connection: all three counters at zero, both windows and both orderers empty |
| ConnectionStabilizer.ConnectionStabilizerConn.HandleWriteResend | udp/UDPConnectionStabilizer.go:519-555 | the frame decodes to the next sequence number, the next order number, the newest word of the receive window and the payload; the counters move on |
| ConnectionStabilizer.ConnectionStabilizerConn.HandleWriteACK | udp/UDPConnectionStabilizer.go:502-512 | the frame decodes to the newest words of the receive window, as many as asked for |
| ConnectionStabilizer.ConnectionStabilizerConn.HandleWriteControl | udp/UDPConnectionStabilizer.go:465-501 | ping, pong and disconnect frames decode to the newest word of the receive window |
| ConnectionStabilizer.ConnectionStabilizerConn.HandleRead | udp/UDPConnectionStabilizer.go:239-411 | from every state and for every frame type that carries or is an acknowledgement, or is unknown: joins the window that came along, filters duplicates, orders, and delivers what the value-level handler does |
| ConnectionStabilizer.ConnectionStabilizerConn.HandleWriteUnacknowledged | udp/UDPConnectionStabilizer.go:513-543 | plain and simply ordered frames decode to what was written, and the simple order number moves on |
| ConnectionStabilizer.ConnectionStabilizerConn.HandleReadUnacknowledged | udp/UDPConnectionStabilizer.go:304-374 | from every state: those frames are delivered at once or through the simple orderer; nothing else of the connection changes |
| ConnectionStabilizer.ConnectionStabilizerConn.OrderTimeout | udp/UDPConnectionStabilizer.go:375-381 | the timer dumps the simple orderer up to the frame's number |
| ConnectionStabilizer.ConnectionStabilizerConn.Cleanup | udp/UDPConnectionStabilizer.go:624-635 | delivers all that waits, the simple orderer's packets first |
| Wire.WindowRoundTrip | helpertools/ReplayWindow.go:192-314 | what a window writes into a frame is read back as its newest bits, and the rest of the frame follows |
| Wire.ResendWrite | udp/UDPConnectionStabilizer.go:570-601 | one call: where the timestamp goes, and whether the frame is sent |
| Wire.TryNeverReturnsToZero | udp/UDPConnectionStabilizer.go:588-597 | after its first call the try counter runs through 1 to 255 and never returns to 0, so room for a timestamp is made once |
| Wire.ResendsDifferInTimestamp | udp/UDPConnectionStabilizer.go:570-601 | every transmission is the written frame with just its own timestamp at bytes 13 to 20 |
| Wire.ResendsDecodeAlike | udp/UDPConnectionStabilizer.go:570-601 | every transmission decodes to the same window, sequence number, order number and payload |
| Wire.BoundedResends | udp/UDPConnectionStabilizer.go:584-597 | a packet that is not resent for ever is sent at most min(ResendRetries, 254) + 1 times |
| Wire.ResendsUntilAcknowledged | udp/UDPConnectionStabilizer.go:584-597 | while no acknowledgement comes, all these transmissions are made; without a bound they never stop |
| Protocol.EveryRunKeepsInv | udp/UDPConnectionStabilizer.go:239-567 | in every run with loss, duplication and reordering both channels keep their invariant: genuine frames, honest windows, exact windows, strict ordering |
| Protocol.EndToEnd | udp/UDPConnectionStabilizer.go:383-555 | in every run, what an end has delivered in order before it closes is a prefix of what the other end wrote for ordered delivery |
| Protocol.CleanupConserves | udp/UDPConnectionStabilizer.go:624-648 | in every run, a closed end has delivered every ordered packet that its window accepted, once, in increasing order |
| Protocol.LooseOnce | udp/UDPConnectionStabilizer.go:317-341 | in every run, packets resent without ordering are delivered once each when accepted, and no others |
| Protocol.AckSoundness | udp/UDPConnectionStabilizer.go:249-302 | in every run, what a sender finds acknowledged the other end's window has accepted, with stale, short and repeated windows |
| ProtocolMachine.RunsArePlaceable | udp/UDPConnectionStabilizer.go:383-411 | in every run, an ordered packet that the window accepts does not wait already and is not from the past |
| ProtocolMachine.EveryRunIsShown | udp/UDPConnectionStabilizer.go:239-648 | in every run, heap and wrapped counters of both ends follow the protocol on unwrapped numbers and deliver the same |
| ProtocolMachine.EndToEndOnMachines | udp/UDPConnectionStabilizer.go:383-555 | in every run, what an end delivers from its heap before it closes is a prefix of what the other end wrote for ordered delivery |
| AckWords.WordIndexInBounds | udp/UDPConnectionStabilizer.go:434-437 | the word index stays inside the array of timestamps for every sequence number |
| AckWords.CoversExactlyPowersOfTwo | udp/UDPConnectionStabilizer.go:434-441 | an acknowledgement always reaches back to its number exactly when the window has a power of two of words |
| AckWords.AckCompletes | udp/UDPConnectionStabilizer.go:434-512 | then joining it at a sender whose edge is not ahead makes the sender find the number acknowledged |
| Subsequences.LcsIsLongest | filesystem/DiffTools.go:93-97 | the recursion behind the table is the length of a longest common subsequence, by its independent definition |
| Diff.DiffTrim | filesystem/DiffTools.go:78-91 | cuts off a common prefix and a common suffix, neither of which can be longer |
| Diff.TrimKeepsOptimality | filesystem/DiffTools.go:78-91 | what is cut off belongs to every longest common subsequence, so the least number of changes stays the same |
| Diff.FillMatrix | filesystem/DiffTools.go:136-176 | every entry of the table is the length of a longest common subsequence of the two prefixes |
| Diff.Backtrack | filesystem/DiffTools.go:194-231 | finds as many pairs of equal letters as the longest common subsequence has, both indices strictly increasing; no result when the table has no last row |
| Diff.BuildScript | filesystem/DiffTools.go:236-273 | the script deletes and inserts exactly the letters not kept, each once |
| Diff.DiffInStringLCS | filesystem/DiffTools.go:98-274 | for all arrays: no result exactly when the new array is the old one with a nonempty block cut out; else an edit script of the untrimmed arrays with exactly their two lengths less twice the longest common subsequence entries |
| Diff.CutsLeaveOnlyOld | filesystem/DiffTools.go:78-91 | trimming leaves something of the old array and nothing of the new one exactly on such cuts |
| Diff.DeletingLastIsCut | filesystem/DiffTools.go:194-197 | deleting the last element only is such a cut |
| Slices.RemoveElementAtIndex | helpertools/RandomTools.go:41-52 | the slice without that element; other indices change nothing |
| Slices.InsertElementAtIndex | helpertools/RandomTools.go:57-75 | the slice with the element at that index |
| Patch.AppendAtTop | filesystem/DiffTools.go:40-48 | inserts before the first entry with a smaller position |
| Patch.AppendAtBottom | filesystem/DiffTools.go:50-58 | inserts behind the last entry with a smaller position |
| Patch.InsertTopSorts | filesystem/DiffTools.go:40-48 | a list with falling positions stays one and gains just the entry |
| Patch.InsertBottomSorts | filesystem/DiffTools.go:50-58 | a list with rising positions stays one and gains just the entry |
| Patch.PatchUsingChanges | filesystem/DiffTools.go:932-954 | sorts, deletes and inserts as the value-level patch does |
| Patch.ScriptPatches | filesystem/DiffTools.go:932-954 | any edit script between two arrays, its entries in any order, patches the one into the other |
| Patch.PatchOfDiff | filesystem/DiffTools.go:98-954 | the round trip: wherever there is a difference, patching with it, or with any permutation of it, gives the new array |
| Patch.NoShorterScript | filesystem/DiffTools.go:932-954 | no list of changes that patches the one array into the other is shorter than the difference |
| JournalingDatabases.JournalingRAMDatabase.Get | database/JournalingRAMDatabase.go:65-67 | the value of the key, or the zero value when there is none |
| JournalingDatabases.JournalingRAMDatabase.Set | database/JournalingRAMDatabase.go:79-82 | memory, counter and the exact sequence of disk steps, with an autosave when the journal is long enough |
| JournalingDatabases.JournalingRAMDatabase.Delete | database/JournalingRAMDatabase.go:87-90 | the same for a deletion |
| JournalingDatabases.JournalingRAMDatabase.AppendToJournal | database/JournalingRAMDatabase.go:102-153 | the two disk steps of an entry, then those of a save if the threshold is reached |
| JournalingDatabases.JournalingRAMDatabase.Save | database/JournalingRAMDatabase.go:158-196 | the disk steps of writing the whole map in some order, renaming and removing the journal |
| JournalingDatabases.JournalingRAMDatabase.GetData | database/JournalingRAMDatabase.go:72-74 | every key of the map once, with its value |
| JournalingDatabases.JournalingRAMDatabase.Load | database/JournalingRAMDatabase.go:201-305 | snapshot and journal go over the map in memory, and a save follows if there was a journal; a fresh instance holds what the disk recovers to |
| JournalMeaning.SnapshotRoundTrip | database/JournalingRAMDatabase.go:175-242 | loading a written snapshot, in whatever order it was written, gives the map |
| JournalMeaning.ReplayIsIdempotent | database/JournalingRAMDatabase.go:256-292 | replaying a journal over what it has already made changes nothing |
| JournalMeaning.SavingKeepsContents | database/JournalingRAMDatabase.go:158-196 | after any number of the steps of Save, also between rename and removal of the journal, the disk recovers to the same map |
| JournalMeaning.CrashRecovers | database/JournalingRAMDatabase.go:79-305 | any call, completed or cut short between any two disk steps, changes what the disk recovers to by just the entry it has journaled |
| JournalMeaning.CompletedLeaves | database/JournalingRAMDatabase.go:102-192 | the journal file after a completed call: one more entry, or none at all after a save |
| JournalMeaning.EventKeepsAgreement | database/JournalingRAMDatabase.go:79-305 | any call, completed or cut short, keeps memory, disk and counter in agreement with the journaled operations, and the journal of a running instance shorter than the threshold |
| JournalMeaning.EveryHistoryRecovers | database/JournalingRAMDatabase.go:79-305 | in every history of calls and crashes, also inside Load, memory and disk agree with all journaled operations in order |
| WebtoolsFrames.AtoiOfItoa | proxy/Frames.go:48-83 | a printed length is parsed back |
| WebtoolsFrames.PackWebtoolsFrame | proxy/Frames.go:42-54 | the bytes of a frame |
| WebtoolsFrames.UnpackWebtoolsFrame | proxy/Frames.go:59-124 | the scan and the recursion on the rest terminate and return what the value-level unpacking does, for every input |
| WebtoolsFrames.UnpackPacked | proxy/Frames.go:78-112 | a packed frame is found in front of whatever follows it; an empty one takes the next byte as its data |
| WebtoolsFrames.UnpackedIdentifier | proxy/Frames.go:83-88 | no identifier that is unpacked holds a separator |
| WebtoolsFrames.UnpackAllRoundTrip | proxy/Frames.go:42-124 | unpacking packed frames that arrive together returns just those frames exactly when they are separable |
| WebSocketFrames.PackWebSocketFrame | httptools/WebSocketServer.go:353-381 | the bytes of an unmasked frame in each of the three length encodings; nothing for an opcode above 15 |
| WebSocketFrames.UnmaskMasked | httptools/WebSocketServer.go:313-318 | masking twice with a key changes nothing |
| WebSocketFrames.Unmask | httptools/WebSocketServer.go:313-318 | unmasks in place |
| WebSocketFrames.SizeRoundTrip | httptools/WebSocketServer.go:267-294 | each of the three encodings of a length is read back, the long one when its Read returns all eight bytes |
| WebSocketFrames.HandleWebSocketFrameRead | httptools/WebSocketServer.go:243-344 | the loop over the connection delivers, answers and ends as the value-level reader does, for every input and limit |
| WebSocketFrames.StreamRoundTrip | httptools/WebSocketServer.go:243-344 | whatever a Read returns: reading any concatenation of frames, masked or not, whose long lengths are read whole delivers the payloads in order, answers each ping with its payload, ignores pongs, and goes on behind them |
| WebSocketFrames.CloseStopsReading | httptools/WebSocketServer.go:252-262 | behind any such frames a close is reported, and nothing behind it is read |
| WebSocketFrames.FaithfulExactlyWhenWhole | httptools/WebSocketServer.go:283-294 | a frame is read as it was sent exactly when its payload has at most 65535 bytes or the single Read of its length returns all eight |
| SchemaStrings.BuildDBSchemaString | database/DatabaseUniversal.go:114-160 | the printed schema of every nested field, with any names and types |
| SchemaStrings.BuildStructSchemaStringParts | database/DatabaseUniversal.go:619-657 | the loop over bytes returns what the value-level splitter does, for every string and position |
| SchemaStrings.PrintIsClosed | database/DatabaseUniversal.go:114-160 | brackets in a printed schema match, and a dash stands outside brackets only in a map printed without its own |
| SchemaStrings.DecodedExactlyAscii | database/DatabaseUniversal.go:639-650 | turning bytes into strings one by one keeps a text exactly when it is ASCII |
| SchemaStrings.StructSplits | database/DatabaseUniversal.go:114-160 | splitting a printed struct, wherever it stands, returns the index of its closing bracket and its fields' texts, unchanged exactly when it has any and they are ASCII |
| SchemaStrings.MapSplits | database/DatabaseUniversal.go:137-140 | splitting a printed map returns its key and its value exactly when neither of them is a map |

## Left out

- Sockets, goroutines, timers, clocks, round-trip estimates and loggers; a timer is a step that may happen, a timestamp eight bytes of any value.
- Liveness: that a resent packet arrives in the end; one that falls behind the receiver's window never does.
- Nonempty frames shorter than the reader's indices, which stop the program, and frames from unknown connections.
- ConnectionStabilizer.ConnectionStabilizerConn.HandleRead: does not model the answer to a ping and the closing after a disconnect, which are steps of their own in `Protocol`.
- PacketOrderers.PacketOrderer.PushWithMissingPacketOption: for orderers that drop older packets, as the stabilizer makes them.
- OrdererRefinement.PushShows: not for skipping while packets wait, nor for a first number from the upper half of the range; the object's own contract holds there, too.
- Protocol.EndToEnd: for numbers that stay within half the range of the counters; beyond it the wrapping comparison says nothing (`Serial.SerialComparison`).
- Patch.PatchUsingChanges: on values; that the old slice's own memory is overwritten is not captured, and neither is it in Slices.RemoveElementAtIndex and Slices.InsertElementAtIndex.
- BitArrays.BitShiftArrayLeft: counts are unbounded integers; the one count whose negation overflows is not modelled.
- JournalMeaning.EveryHistoryRecovers: for instances that are loaded once, before anything else is asked of them.
- Disk errors, torn writes of a single journal entry, and what a crash of the whole machine leaves of unsynced writes.
- The byte codec of database/DatabaseShared.go under the journal and the snapshot: entries, keys and values are abstract records.
- WebtoolsFrames.UnpackWebtoolsFrame: an input that is rejected and an empty one both give no frames; the log lines are not modelled.
- WebSocketFrames.HandleWebSocketFrameRead: with a read function and a connection that takes the answers; exhaustion of memory by a huge length reads as an error.
- SchemaStrings.StructSplits: for names and types whose brackets match and that show no dash outside them.
- DiffInStringLCSAlt, GetMissingOrderNumbers, SetWindowData and SetWindowDataBytes, XORArrays and ORArrays.
- HTTP, UPnP, file watching, cryptography, SafeMap and SafeSlice.
