# SMIP-MWP datapath: a Dafny model

This project models the three stateful cores of the packet forwarder and the two codecs that
feed them, and proves what they keep over every batch, every run and every interleaving:

- **Routing table** (`Selection`, `OrderedMap`, `RouteTable`, `RouteSteps`): sixteen hash shards,
  an ordered map with its next-hop array, and per-thread caches validated by one epoch.
  `RouteTable` has the table as one thread uses it; `RouteSteps` is a step machine for any number
  of readers and writers.
- **Forwarder** (`Arena`, `Packets`, `PacketLaws`, `SliceRings`, `Forwarding`, `BatchLaws`,
  `Counterexamples`):
  `Packets` says what each path does with one packet; the methods of `Forwarding` write batches
  into the arena with unchecked appends and are proved to produce exactly that; `PacketLaws` and
  `BatchLaws` prove what follows for whole batches; `Counterexamples` has the inputs on which
  paths differ or the arena overflows.
- **AF_XDP frames** (`Circular`, `Rings`, `RingSteps`, `FreeList`, `FreeListSteps`, `FrameFlow`,
  `XdpSend`): descriptor rings with wrapping indices and the bounded free list, each alone and
  between two sides at the level of single loads and stores, and the retrying `send` with the kernel as a second actor. `FrameFlow` describes `send` on
  values; `XdpSend.RealSocket` is the object and is proved to follow it.
- **Codecs** (`Wire`, `Session`, `ReplayWindow`): the 96-byte header, nonces and AEAD, and the
  replay window. `Bits` holds masks, wrap-around, exclusive or and byte order.

Check everything with `dafny verify dfyconfig.toml --resource-limit 2000000 --verification-time-limit 0`.

## Assumptions

- Memory is sequentially consistent. Each locked section, epoch access and cache access is one
  step. `RingSteps` and `FreeListSteps` take single loads and stores and show that a whole ring or
  list operation takes effect at its last store; `FrameFlow` and `XdpSend` have it as one step.
- There are fewer than 2^64 route updates, so the epoch is an unbounded number. Caches and epoch
  belong to one table.
- Unaligned native loads are little-endian.
- The cipher is a value of type `Session.Aead`: it meets section 2 of RFC 5116 (decryption undoes
  encryption under the same nonce, encryption may fail) and leaves its buffer alone when it fails.
- The routes do not change while one batch is processed; `RouteTable` and `RouteSteps` say what
  the cached lookups return when they do.
- Rings have fewer than 2^32 slots, the distance between their indices never exceeds that number,
  and the metadata words lie outside the descriptor regions. The kernel only takes TX descriptors
  in order and completes frames it holds. The socket's rings have a power of two of slots and its
  free list a headroom of at most its capacity.
- The parallel map keeps the order of its input.

## Results that need a condition

- Serial and parallel batches agree exactly when no encrypted frame is longer than header,
  payload and tag, and the cipher fails on no frame shorter than that
  (`PacketLaws.SerialEqualsParallel`). AES-GCM never fails on 16-bit lengths, and then lengths,
  routes and session decide (`SerialEqualsParallelByLength`). They differ on
  `Counterexamples.LongFrameDiffers`, a batch of 1024 frames. A socket that honours the bound of
  `poll(64)` (`datapath/src/lib.rs:701`, 784) never reaches the parallel paths; the simulated one
  ignores it (`afxdp/src/socket.rs:35`).
- Full spray, serial against parallel: exactly when every copy has a whole header, no encrypted
  copy has bytes after its payload, and the cipher fails on none that is too short for the tag
  (`PacketLaws.FullSerialEqualsParallel`, `FullSerialEqualsParallelByLength`). They differ on
  `Counterexamples.TailedCopyDiffers`.
- The full-spray reservation covers the bytes appended for a frame exactly when its route has at
  most three channels (`PacketLaws.ReservationCoversFrame`). With a cipher that does not fail the
  unchecked appends of a batch stay inside exactly when the lengths of its copies, with a tag for
  each that gets encrypted, fit the capacity (`PacketLaws.FullSprayStaysInside`). They do not on
  `Counterexamples.FullSprayOverflows`.
- A send leaves all frames conserved, under every schedule of the kernel, exactly when, beforehand,
  the free list and the completions it is about to reclaim suffice and a batch of more than one
  packet fits the TX ring as it stands (`FrameFlow.Ready`, `FrameFlow.SendConservesWhenReady`).
  `FrameFlow.PartialPushDuplicates` and `FrameFlow.FallbackReusesHeldFrame` are sends that do not.
- A masked ring keeps what is pushed into it exactly when it has a power of two of slots
  (`Rings.KeepsQueueExactly`), which `RingMmap::new` does not check.
- The free list is a queue under every interleaving exactly when no headroom it is given exceeds
  its capacity (`FreeListSteps.SafeExactlyWhenGuarded`).
- Shards and ordered map agree on a destination exactly when its last shard write and its last map
  write leave the same (`RouteSteps.AgreeExactlyWhen`). That is so when no two of its writers
  overlap, or when the overlapping ones leave the same; any two that leave different routes can
  end in disagreement, from every reachable state (`RouteSteps.OverlappingWritersDisagree`).

Where comments and code disagree the model follows the code: the free list's capacity is the
next power of two at or above frames plus headroom (`afxdp/src/socket.rs:182`), not one below the
number of frames; the header offsets are those of `wire/src/lib.rs:9-15`, not those of the layout
table in the formal documentation.

## Model

| member | source | states |
|---|---|---|
| RouteSteps.StepKeepsInv | routing/src/lib.rs:153-177 | no step of any reader or writer, in any order, breaks the invariant tying caches, lookups under way, shards and epoch together |
| RouteSteps.CurrentSlotAgrees | routing/src/lib.rs:459-490 | in every reachable state a slot of either cache with the current tag gives the shards' answer, or a writer of that destination is between its shard write and its bump |
| RouteSteps.NoStaleAnswer | routing/src/lib.rs:359-410 | whatever ran before and during a lookup, its answer misses no write to its destination that had returned when it started |
| RouteSteps.FreshAnswer | routing/src/lib.rs:359-410 | the same without shards: the answer is the next hop, or the flow's own channel, of the last write of its destination among the first n, later ones being without their bump when it started |
| RouteSteps.AnswerIsLastWrite | routing/src/lib.rs:459-490 | after any writes a lookup answers with the next hop, or the channel at the flow label modulo their number, of the last write of its destination, and None if that was a removal or there was none |
| RouteSteps.FilledSlotHits | routing/src/lib.rs:459-490 | what a lookup put into its cache answers the next lookup of the same without the shards, until the epoch moves |
| RouteSteps.QuietLookupIsExact | routing/src/lib.rs:459-490 | in every run, with no writer of the destination under way when a lookup starts and none starting before it has its answer, it returns what the shards hold |
| RouteSteps.SerialisedWritersAgree | routing/src/lib.rs:159-169 | if writers of one destination never overlap, map and shards agree wherever no writer stands between its two locks |
| RouteSteps.OverlappingWritersDisagree | routing/src/lib.rs:159-169 | from every reachable state any two idle writers of one destination, updating or removing, can end with the one's result in the shards and the other's in the map: different exactly when their writes leave different routes |
| RouteSteps.AgreeExactlyWhen | routing/src/lib.rs:159-169 | in every run, overlapping writers included, shards and map agree on a destination exactly when its last shard write and its last map write leave the same; with all writers idle both have had the same writes |
| RouteSteps.SameWritesAgree | routing/src/lib.rs:159-169 | overlapping writers of a destination whose writes all leave the same keep shards and map in agreement |
| RouteTable.SerialWritesAgree | routing/src/lib.rs:139-177 | after any serialised writes each key sits in its own shard only, shards and ordered map hold the routes the writes leave, and the array is their next hops in ascending key order |
| RouteTable.LiveTable.UpdateRoute | routing/src/lib.rs:153-177 | the table and the epoch after an update, and that every coherent cache stays coherent without being touched |
| RouteTable.LiveTable.RemoveRoute | routing/src/lib.rs:267-286 | the same for a removal |
| RouteTable.LiveTable.LookupNextHop | routing/src/lib.rs:459-490 | the cached lookup returns what the shard holds, keeps its cache coherent, leaves the answer in its own slot and every other slot alone |
| RouteTable.LiveTable.LookupSprayPrimary | routing/src/lib.rs:359-410 | the same for the cache keyed by destination and flow |
| RouteTable.LiveTable.LookupSprayBuf | routing/src/lib.rs:293-340 | writes a prefix of the spray order, only the first entry marked primary, and leaves the rest of the buffer alone |
| RouteTable.SprayChannelsMeaning | routing/src/lib.rs:313-335 | what is written: min(n, room) channels, the one at flow mod n first, the next hop in its place, every other one in its own place; the head is what `lookup_spray_primary` answers, place i what `lookup_spray_single(i)` does, and a buffer with room for all gets each as often as it is listed |
| RouteTable.ShardWriteMeaning | routing/src/lib.rs:153-163 | a shard write sets or removes its destination's entry and no other, and keeps each key in its own shard |
| RouteTable.PredictIsTotal | routing/src/lib.rs:497-522 | the fallback answers exactly when there is a route, with the next hop of a current one |
| RouteTable.PredictMeaning | routing/src/lib.rs:497-522 | the fallback answers with the entry at the flow hash modulo n for n a power of two, otherwise with the entry i for which i * 2^64 <= hash * n < (i + 1) * 2^64 |
| RouteTable.RouteExists | routing/src/lib.rs:529-539 | exact-then-predictive lookup answers with the shard's next hop, else with the array's entry for the hash, and answers at all exactly when the shard has the destination or the array is not empty |
| RouteSteps.CombinedLookupIsTotal | routing/src/lib.rs:529-539 | whatever writers do meanwhile, the combined lookup answers None exactly when the exact one missed and the map was empty when the array was read; a prediction is the next hop of a route held at that moment |
| OrderedMap.InsertMeaning | routing/src/lib.rs:165-169 | inserting updates the map and keeps keys ascending |
| OrderedMap.RemoveMeaning | routing/src/lib.rs:276-280 | removing deletes the key and keeps keys ascending |
| OrderedMap.LessAtFirstDifference | routing/src/lib.rs:149-151 | key order is decided by the first byte that differs |
| Selection.PrimaryIsHead | routing/src/lib.rs:380-399 | the primary hop is the head of the spray order |
| Selection.SingleIsNth | routing/src/lib.rs:416-456 | the single-channel lookup is the spray order at the index modulo the number of channels, masks included |
| Selection.SprayOrderPermutes | routing/src/lib.rs:313-335 | the spray order uses every channel as often as it is listed |
| Selection.EachChannelPrimaryOnce | routing/src/lib.rs:314-318 | over n consecutive flow labels each channel is primary exactly once |
| Selection.PrimaryIsOwn | routing/src/lib.rs:380-399 | the primary hop is the channel at the flow label modulo the number of channels |
| Selection.WindowUsesAllChannels | routing/src/lib.rs:380-399 | the primary hops of n consecutive flow labels are the n channels, each as often as it is listed |
| Selection.PredictInRange | routing/src/lib.rs:512-521 | mask and 128-bit product both stay below the number of entries |
| Selection.AnswersAreBalanced | routing/src/lib.rs:512-521 | a next hop listed k times among n is the fallback's answer for between k times the floor and k times the ceiling of 2^64 / n hash values |
| Selection.PredictionIsBalanced | routing/src/lib.rs:516-520 | each single entry is picked by the floor or the ceiling of 2^64 / n hash values |
| Selection.PredictAtCovers | routing/src/lib.rs:512-521 | for every hash there is such an entry, and the array answers with it |
| Selection.HashOfEqualEnds | routing/src/lib.rs:385-387 | the flow hash of equal ends is the flow label |
| Selection.HashFollowsFlow | routing/src/lib.rs:107-119 | another flow label changes the hash by the exclusive or of the two labels |
| Selection.HashFollowsEnds | routing/src/lib.rs:107-119 | another value of one word of either end changes the hash by the exclusive or of the two values; the ends may change places |
| Selection.WordBytes | routing/src/lib.rs:107-119 | a word is the little-endian value of its eight bytes |
| Circular.TwoChunksStore | afxdp/src/rings.rs:358-378 | two chunk copies store what an element-by-element modular copy stores |
| Circular.TwoChunksLoad | afxdp/src/rings.rs:219-240 | two chunk copies load what an element-by-element modular copy loads |
| Circular.StoreAppends | afxdp/src/rings.rs:345-393 | storing from the producer index appends to the queue and overwrites no live slot, across the index wrap |
| Circular.AdvanceDrops | afxdp/src/rings.rs:257-258 | advancing the consumer index drops from the front, across the index wrap |
| Rings.Ring.Push | afxdp/src/rings.rs:333-396 | stores exactly min(free, n) descriptors from the masked producer index on, in two chunks; with a power of two of slots that appends them in order and keeps all live ones |
| Rings.Ring.Pop | afxdp/src/rings.rs:194-262 | returns exactly min(available, max) descriptors from the masked consumer index on; with a power of two of slots these are the oldest in order, and they are removed |
| Rings.RegionServesRing | afxdp/src/rings.rs:36-58 | a descriptor region ends before the next offset and keeps what is pushed exactly when there is room for one slot and for a power of two of them |
| Rings.KeepsQueueExactly | afxdp/src/rings.rs:333-396 | up to as many pushes as there are slots leave every descriptor where the pop will read it exactly when the number of slots is a power of two |
| Rings.PushLandsOnFirst | afxdp/src/rings.rs:333-396 | with any other number some push into a ring that is not full overwrites the oldest descriptor |
| Rings.ThreeSlotsOverwrite | afxdp/src/rings.rs:333-396 | in a ring of three slots the second push lands on the first |
| RingSteps.StepKeepsInv | afxdp/src/rings.rs:122-190 | no load, copy or store of the pushing or the popping side, in any order, breaks the ring invariant |
| RingSteps.NothingLostOrReordered | afxdp/src/rings.rs:122-190 | in every reachable state what was popped is a prefix of what was pushed and at most the slots are outstanding, from any start and across the 32-bit wrap |
| RingSteps.StepRefinesQueue | afxdp/src/rings.rs:333-396 | what every single step does: it loads its batch or bound, sees min(free, batch) or min(available, max), copies one descriptor, publishes the first n of the batch, or takes the n oldest; all but the last two leave the queue alone |
| RingSteps.WholePush | afxdp/src/rings.rs:333-396 | a push, whatever the other side does between its steps, ends idle and has published exactly the first min(free, n) of its batch, free being the room when it loaded the consumer index |
| RingSteps.WholePop | afxdp/src/rings.rs:122-190 | a pop, whatever the other side does between its steps, ends idle and has taken exactly the min(available, max) oldest of what was unread when it loaded the producer index |
| Bits.MaskIsModExactly | afxdp/src/rings.rs:52-58 | masking with n - 1 is the remainder by n for all numbers exactly when n is a power of two |
| Bits.NextPowerOfTwoIsLeast | afxdp/src/socket.rs:182 | `next_power_of_two`, of the free list's capacity and the arena's growth, is the least power of two that is large enough |
| FreeLists.LimitGuardsLiveSlots | afxdp/src/socket.rs:197-206 | the wrapping limit protects unread values exactly when the headroom is at most the capacity |
| FreeLists.InitialListHoldsAllFrames | afxdp/src/socket.rs:170-194 | a list made for n frames has room for n, for any configured headroom |
| FreeLists.InitialSizes | afxdp/src/socket.rs:170-194 | the headroom is the configured one, or an eighth of the frames and eight at least; the capacity is the least power of two that takes frames and headroom |
| FreeLists.FreeList.TryPush | afxdp/src/socket.rs:196-211 | what it stores, where, and when it refuses, for any headroom; unless the list is full under a headroom above the capacity, an accepted value is appended to the queue |
| FreeLists.FreeList.TryPop | afxdp/src/socket.rs:220-230 | returns the oldest value, or nothing exactly when empty |
| FreeListSteps.StepKeepsInv | afxdp/src/socket.rs:196-230 | no load or store of either thread, in any order, breaks the queue invariant, nor does a new headroom up to the capacity |
| FreeListSteps.NothingLostOrReordered | afxdp/src/socket.rs:196-230 | in every reachable state what was popped is a prefix of what was pushed, across the 64-bit wrap |
| FreeListSteps.StepRefinesQueue | afxdp/src/socket.rs:196-230 | every step is a push of one value, a pop of the oldest or invisible, and refusals and empty answers mean what the loads saw |
| FreeListSteps.SafeExactlyWhenGuarded | afxdp/src/socket.rs:196-218 | what was popped is a prefix of what was pushed under every interleaving, headroom changes up to h included, exactly when h is at most the capacity |
| FreeListSteps.OverfillLosesOldest | afxdp/src/socket.rs:196-230 | once a larger headroom is set, one push more than there are slots overwrites the oldest value |
| FrameFlow.RunConserves | afxdp/src/socket.rs:612-737 | over every history of kernel activity and sends that are each ready when made, from the prefilled list, all frames are conserved and no returned frame is refused |
| FrameFlow.FrameInExactlyOnePlace | afxdp/src/socket.rs:400-408 | conservation means each frame is once in exactly one of free list, TX ring, kernel and completion ring |
| FrameFlow.AttemptConserves | afxdp/src/socket.rs:624-694 | an attempt from a conserved state conserves frames exactly when it neither falls back to the bump allocator nor pushes part of its batch |
| FrameFlow.AttemptConservesWhenReady | afxdp/src/socket.rs:624-694 | an attempt conserves frames whatever the kernel does exactly when the batch is ready beforehand |
| FrameFlow.SendConservesWhenReady | afxdp/src/socket.rs:612-737 | a send ends with all frames conserved under every schedule, and conserves them after each of its attempts, exactly when the batch is ready beforehand |
| FrameFlow.ReadySend | afxdp/src/socket.rs:612-737 | a ready send conserves frames under every schedule; on success the TX ring received exactly its n distinct frames in order, on failure none |
| FrameFlow.PartialPushDuplicates | afxdp/src/socket.rs:612-737 | after a send of three packets to a ring of two slots has given up, two frames are both in the TX ring and in the free list |
| FrameFlow.FallbackReusesHeldFrame | afxdp/src/socket.rs:650-661 | with an empty free list a second packet is put into the frame the kernel still holds |
| FrameFlow.CleanSend | afxdp/src/socket.rs:612-737 | what `ReadySend` states, for every send whose attempts neither fell back nor pushed in part, ready or not |
| FrameFlow.SendCounts | afxdp/src/socket.rs:620-703 | at most nine attempts; backpressure is counted once per failed attempt and retries once less than attempts |
| FrameFlow.SinglePacketAttempt | afxdp/src/socket.rs:676-694 | a single-packet attempt is clean exactly when it does not fall back |
| FrameFlow.AttemptPushesWhatFits | afxdp/src/socket.rs:676-680 | an attempt pushes exactly as many descriptors as the TX ring has room for when it pushes, and succeeds if the batch fitted beforehand |
| FrameFlow.FittingBatchIsSent | afxdp/src/socket.rs:612-680 | a batch that fits the TX ring as it stands is sent by the first attempt, without retry or backpressure |
| FrameFlow.SendStops | afxdp/src/socket.rs:612-737 | a send succeeds with the first attempt that pushes everything, goes on after one that does not, and fails after the ninth |
| FrameFlow.ReclaimMeaning | afxdp/src/socket.rs:624-631 | up to 64 completions, oldest first, go to the back of the free list as far as it takes them |
| FrameFlow.BumpedGoRound | afxdp/src/socket.rs:650-661 | the bump allocator hands out the frames in turn, across the counter's wrap |
| FrameFlow.AttemptPlaces | afxdp/src/socket.rs:645-694 | after a clean attempt the kernel's side of the TX ring holds what it held and the frames pushed; no frame it could read was among those written to |
| XdpSend.RealSocket.constructor | afxdp/src/socket.rs:400-408 | prefilling puts every frame into the free list |
| XdpSend.RealSocket.AllocateAndCopy | afxdp/src/socket.rs:645-674 | one frame per packet, no other frame is written to; if the frames are distinct, byte k of frame i is byte offset + k of the caller's buffer for every k below min(len, frame size) |
| XdpSend.RealSocket.Send | afxdp/src/socket.rs:612-737 | the object ends in the state, with the counters, that `FrameFlow.Send` describes; a ready (or clean) send conserves frames, drops none, on success fills one frame per packet with that packet's own bytes, and leaves every frame in the TX ring or with the kernel holding the packet it was sent for |
| XdpSend.HeldAfterMeaning | afxdp/src/socket.rs:664-674 | what is recorded for each sent frame: the first min(len, frame size) bytes of its packet, byte by byte; other records stay |
| XdpSend.RealSocket.RunKernel | afxdp/src/socket.rs:612-737 | the kernel's moves conserve frames and leave the contents of those it can read intact |
| Wire.MarshalInto | wire/src/lib.rs:48-64 | writes the 96 header bytes, keeps the bytes after them, and refuses short buffers untouched |
| Wire.ParseMarshal | wire/src/lib.rs:67-92 | parsing what was marshalled gives the header back, whatever follows |
| Wire.MarshalParse | wire/src/lib.rs:67-92 | marshalling what was parsed restores the same 96 bytes |
| Wire.HeaderLayout | wire/src/lib.rs:48-92 | which bytes each header field occupies, and that the first byte of a number is the most significant |
| Wire.EditChangesOneField | wire/src/lib.rs:203-243 | each setter changes its own field only |
| Wire.EditsCompose | wire/src/lib.rs:203-243 | any sequence of setters parses to the header with those fields replaced, and keeps the bytes after it |
| Wire.HeaderView.Set | wire/src/lib.rs:203-243 | the buffer after a setter |
| Session.NonceRepeatsOnlyWithSequence | crypto/src/session.rs:147-159 | two nonces of a session are equal exactly when the sequence numbers are |
| Session.NonceLayout | crypto/src/session.rs:147-159 | the nonce is the session's prefix followed by the big-endian exclusive or of mask and sequence number |
| Session.CipherUnderNonce | crypto/src/session.rs:174-243 | both directions use the cipher under that nonce, and fail exactly on a length out of bounds or when the cipher does |
| Bits.ToBEDigit | wire/src/lib.rs:48-64 | byte i of k big-endian ones has weight 256^(k - 1 - i) |
| Session.DecryptEncrypt | crypto/src/session.rs:223-243 | decrypting under the sequence number used to encrypt gives the payload |
| Session.EncryptIntoSlice | crypto/src/session.rs:174-187 | in-place encryption touches the slice only and, with the returned tag, decrypts to what was there |
| ReplayWindow.AdmitMeaning | crypto/src/security_hardening.rs:132-173 | the new window is the old one, minus its minimum if it was full, plus the number, still strictly increasing |
| ReplayWindow.KexState.IncrementSeqCounter | crypto/src/security_hardening.rs:128-174 | fails exactly when the number is in the window and then leaves it alone; otherwise admits it; as `ReplayWindow.Call`, of which whole runs are proved |
| ReplayWindow.FreshRun | crypto/src/security_hardening.rs:97-174 | from a fresh state the n-th call returns n and the last min(n, 64) numbers are kept |
| ReplayWindow.SaturatedRun | crypto/src/security_hardening.rs:128-130 | after saturation every call fails and changes nothing |
| Arena.AlignedBuffer.Reserve | datapath/src/lib.rs:60-73 | room for the additional bytes, contents kept |
| Arena.AlignedBuffer.ExtendUnchecked | datapath/src/lib.rs:89-102 | appends, given that the bytes fit |
| Forwarding.Forwarder.HandlePacket | datapath/src/lib.rs:359-456 | encrypts into the arena or leaves it as it was, with the miss counted as specified; exact-then-predictive lookup equals the combined one |
| Forwarding.Forwarder.ProcessOwned | datapath/src/lib.rs:458-632 | the owned path's output |
| Forwarding.Forwarder.ForwardPrimary | datapath/src/lib.rs:825-961 | the primary-spray output, truncate-and-retry included, within the reserved capacity |
| Forwarding.Forwarder.ForwardCopy | datapath/src/lib.rs:1063-1189 | one full-spray copy's output, truncate-and-retry included, within the reserved capacity |
| Forwarding.Forwarder.RunFullSerial | datapath/src/lib.rs:971-1200 | if the bytes of all outputs fit what the reservation leaves, the serial full-spray batch equals its specification, every append inside the capacity |
| Forwarding.Forwarder.AppendOutputs | datapath/src/lib.rs:634-693 | appends the parallel results in order |
| Forwarding.Forwarder.ProcessBatch | datapath/src/lib.rs:696-776 | what is sent and counted for a batch in every mode, on the serial and on the parallel path |
| Forwarding.Forwarder.ProcessBatchSlices | datapath/src/lib.rs:1347-1413 | sends what the serial path sends for the frames cut to the slot size, or reports an exhausted ring |
| SliceRings.FillMeaning | datapath/src/lib.rs:1454-1474 | filling a slot sets it and changes no other slot |
| SliceRings.SliceRing.PollSlices | datapath/src/lib.rs:1486-1498 | active is 0..n and slot i holds frame i cut to the slot size; fails exactly when there are more frames than slots |
| PacketLaws.RedirectFields | datapath/src/lib.rs:865-868 | overwriting the next hop changes the destination field and nothing else |
| PacketLaws.RoutedDecrypts | datapath/src/lib.rs:394-437 | an encrypted output parses to its packet's header and decrypts to its payload |
| PacketLaws.PrimaryDecrypts | datapath/src/lib.rs:858-905 | the same in primary spray, with the chosen hop as destination |
| PacketLaws.RoutedMeaning | datapath/src/lib.rs:359-504 | serial, slice, parallel and full-spray paths: exactly when a packet is encrypted, exactly when it is a miss, and what bytes it is passed on as otherwise |
| PacketLaws.EncryptedLayout | datapath/src/lib.rs:394-437 | the bytes of an encrypted output on these paths: header, ciphertext, tag, and none, all or the rest of what followed the payload |
| PacketLaws.PrimaryMeaning | datapath/src/lib.rs:825-961 | primary spray: exactly when a packet is encrypted (whole header, a route of its destination, a session, its payload there, a cipher that does not fail), exactly when it is a miss, and what bytes it is passed on as otherwise |
| PacketLaws.PrimaryLayout | datapath/src/lib.rs:858-905 | the bytes of an encrypted output in primary spray: redirected header, ciphertext, tag, all that followed the payload |
| PacketLaws.SerialEqualsOwned | datapath/src/lib.rs:458-504 | exactly when the serial and the owned path treat a packet alike |
| PacketLaws.SerialEqualsParallel | datapath/src/lib.rs:714-775 | exactly when a serial and a parallel batch send the same packets in the same order with the same statistics |
| PacketLaws.SerialEqualsParallelByLength | datapath/src/lib.rs:714-775 | with a cipher that does not fail: exactly when no frame that gets encrypted is longer than header, payload and tag |
| Counterexamples.LongFrameDiffers | datapath/src/lib.rs:714-775 | one byte after the tag's place is sent on the parallel path only: one thread and two send different batches of 1024 frames |
| PacketLaws.FullEqualsOwned | datapath/src/lib.rs:1063-1189 | exactly when the two full-spray paths treat a copy alike |
| PacketLaws.FullSerialEqualsParallel | datapath/src/lib.rs:971-1326 | exactly when the two full-spray paths send the same packets in the same order with the same statistics |
| PacketLaws.FullSerialEqualsParallelByLength | datapath/src/lib.rs:971-1326 | with a cipher that does not fail: exactly when no copy's header is cut short and no encrypted copy has bytes after its payload |
| Counterexamples.TailedCopyDiffers | datapath/src/lib.rs:971-1326 | one byte after the payload is sent on the serial full-spray path only: one thread and two send different batches of 1024 frames |
| PacketLaws.PlainFramesMatch | datapath/src/lib.rs:1227-1285 | whole headers, nothing after the payload and a cipher that does not fail suffice for every copy of a frame |
| PacketLaws.ReservationCoversFrame | datapath/src/lib.rs:798-802 | three times the frame and a tag cover the bytes its copies append exactly when there are at most three copies |
| PacketLaws.ReservationCoversBatch | datapath/src/lib.rs:798-802 | routes of at most three channels keep the bytes of a whole batch within the reservation, whatever the capacity was |
| PacketLaws.FullSprayStaysInside | datapath/src/lib.rs:798-802 | with a cipher that does not fail, every unchecked append of a serial full-spray batch stays inside what the reservation leaves, and the precondition of `ProcessBatch` holds, exactly when the lengths of the copies and a tag for each encrypted one fit |
| Counterexamples.FullSprayOverflows | datapath/src/lib.rs:798-802 | 64 frames of 1500 bytes on sixteen channels append at least 1,536,000 bytes to an arena given 524,288 |
| PacketLaws.OutputsTileArena | datapath/src/lib.rs:662-680 | offsets cover the arena without gap or overlap, in the order of the outputs |
| BatchLaws.BatchIsAccounted | datapath/src/lib.rs:643-692 | on every path: tiling, one offset per forwarded or encrypted packet, misses among the forwarded, and how many packets a batch sends |
| BatchLaws.OutputMeaning | datapath/src/lib.rs:359-1189 | on every path: exactly which inputs are encrypted, exactly which are misses, and what is sent for those not encrypted |
| BatchLaws.BatchCounts | datapath/src/lib.rs:643-692 | on every path the statistics are the number of inputs that get encrypted, the number of misses, and as forwarded all that are not encrypted |
| BatchLaws.EncryptedPacketsDecrypt | datapath/src/lib.rs:1103-1142 | the i-th packet handed to the socket is the i-th output, and every one counted as encrypted, on any path, carries the header of the frame whose copies take up position i, with the destination alone changed to the hop that copy is aimed at, and decrypts to that frame's payload |

## Left out

- Forwarding.Forwarder.ProcessBatch: asks that the outputs of a serial full-spray batch fit what the reservation leaves; beyond that the source writes past its arena, which has no outcome to state.
- FreeLists.FreeList.TryPop: asks that at most as many values are unread as there are slots, which holds unless a push went past the capacity.
- FrameFlow.RunConserves: speaks of runs whose batches are ready; fallback and partial push are modelled, and every address stays a frame in all runs.
- RouteSteps.Step: the channel-statistics lock between map write and bump is not a step, and the epoch does not wrap.
- Wire.HeaderView: the seven setters are one method with the field as argument; the getters of both views and `parse` share one function per field.
- Forwarding.Forwarder.ProcessOwned: `process_packet_owned` and its consuming twin are one method, as they do the same.
- `SliceRing` misuse outside `poll_slices`, and `AlignedBuffer` allocation failure and size overflow.
- `rx_available`, which subtracts the indices at 64 bits, and RX and fill traffic beyond the ring operations themselves.
- A socket without rings, whose `send` only returns an error.
- Socket set-up, epoll and eventfd, sleeps and the socket registry: system calls; waiting is a kernel move.
- AES-GCM, HKDF, X25519 and ML-KEM internals, key exchange and the HKDF cache: opaque libraries.
- Timeouts, retry limits and the throttle of `crypto/src/security_hardening.rs`: wall-clock code.
- Profiling counters, telemetry totals and per-channel statistics.
- `Router` policies, the command line, benchmarks and tools.
- Weak-memory effects of relaxed atomics and plain ring accesses.
