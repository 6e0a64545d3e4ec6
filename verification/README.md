# The stateful core of ably-c

The project models the parts of `ably-c` that keep state without allocating and proves what they promise:
the VCDIFF decoder with base64 and the delta chain of a channel, the open-addressing hash map with the presence
set on top of it, and the outbound path with its reconnect loop. Array sizes and capacities are parameters, so
every statement is about all of them at once. C integers are unbounded here except where the source relies on
their width: COPY addresses and the address cache are taken modulo 2^32, and varints stay below 2^63.

Where the source changes buffers, cursors, slots or fields in place, the model is a class or a method with
loops, proved equal to a function of the old state. The promises themselves are lemmas about those functions.

**VCDIFF** (`Bytes`, `Varint`, `CodeTable`, `VcdiffFormat`, `VcdiffExec`, `VcdiffDecoder`, `VcdiffEncoder`,
`RfcTable`, `VcdiffSample`). `VcdiffFormat` parses a delta completely, then evaluates it; it does not know about
buffers. `VcdiffExec` is the decoder as a function, interleaving parsing, evaluation and capacity checks as the
source does, so that it fails with the same status; it is proved to succeed exactly when the format gives the
delta a meaning that fits. `VcdiffDecoder` is the decoder over cursors, cache arrays and one output array, in
which a target segment aliases the bytes being written; it refines `VcdiffExec` for every input. `VcdiffEncoder`
spells an instruction list with any matching opcodes and any address mode that can express the addresses, and
the decoder returns the meaning of the list. `VcdiffSample` follows one delta byte by byte. The instruction
table is the one that the loops build. `vcdiff.h:20` calls it the standard default table, but it is not that of
section 5.6 of RFC 3284: `RfcTable` has the opcodes for which the two agree, shows that a delta of such opcodes
means the same under both, and gives a delta of one RUN, five bytes under the default table, that the source
refuses. The source adds the three section lengths of a window in 64 bits. Where that sum wraps to one that
passes the test, the sections would lie outside the delta; the model then stops with a status of its own,
`Wrapped`, and says nothing more.

**Delta chain** (`Base64`, `DeltaChannel`). Two alternating buffers, the raw delta passing through the one that
then takes the result. A dropped message leaves the active buffer as it was, and over a whole run against a
faithful sender every payload is dispatched as sent. Subscribers get a C string, so a payload is seen up to its
first NUL although the buffer keeps all of it. A channel with deltas passes a full message in base64 on undecoded
and takes the text for its base (`channel.c:187-198`, then 267-281), which a channel without deltas decodes:
the promise holds exactly if nothing but empty payloads is sent that way (`BinaryIsNotDecoded`, `ChainIsFaithful`).

**Hash map and presence** (`ProbeTable`, `HashMap`, `PresenceModel`, `Presence`). The hash function is
arbitrary. Any capacity from 4 up is covered, the mask of the source being a remainder when the capacity is a
power of two. The load cap comes before the key search, so an update of a present key is refused at the cap too.
The presence set is proved to keep pool and index in agreement and to do to an abstract set of members what each
frame says; about that set, sync convergence and replay of the notifications are proved over whole runs.

Three places where the code and a natural reading of it part, each with its exact condition:

- `presence.h:23` says that ATTACHED with HAS_PRESENCE begins a sync. The frame goes to the handler of SYNC
  pages (`channel.c:127-129`), so it begins one exactly if its syncSerial has a cursor and no member has been
  seen by a sync still running. Without a cursor it ends a sync, and everyone leaves exactly if no sync was
  running or none of the members had been seen by it (`AttachedIsEmptyPage`).
- `syncing` survives a disconnect. The next sync then goes on where the interrupted one stopped, and it
  converges exactly if that one had seen no member that the new one does not mention
  (`CompleteSyncConverges`); `InterruptedSyncDoesNotConverge` is a run from the initial state in which it had.
- A SYNC page puts every entry into the set whatever its action, but subscribers are told the original action, and
  they are also told of insertions that the load cap refuses. `RunReplaysExactly` says for every run exactly when a
  subscriber stays in step; with room for all ids and known actions, that is when the last entry of every id on each
  page announces it (`RoomMeansSettledRun`). `LeaveInSyncPageDiverges` and
  `RefusedEnterDiverges` give frames after which it does not.

**Outbound path and reconnect** (`SendRing`, `ChannelModel`, `Channel`, `Reconnect`). The ring is used for the
send ring and for the pending queue of a channel. `ChannelModel` takes the critical sections that touch a
channel as events and proves properties of every interleaving; the methods of `Channel` perform such events. A
flush is one event for each message, so publishes and drops may come between. `Reconnect` is the service loop
against an arbitrary environment. A drop puts every channel into DETACHED, FAILED ones included, and CONNECTED
clears a reattach flag even if the ring had no room for the ATTACH, so the channel is attaching with nothing
sent; `SentIfRoom` says of each channel whether that happens. Both follow the code. A close leaves a refreshed
token's request to skip the backoff behind, and connecting again finds it (`realtime_client.c:791-802` clears
only the close request), which is why the bound on failures without a wait is one more after a restart. With an
auth callback a token error before CONNECTED, or always a connection that is made and lost, uses none of that
bound up: a row of either never waits. The attempt counter counts rounds of all six hosts; it is set to zero
when the client is suspended and counted up again in the same turn, so with a maximum of m the failures that
suspend it are number 6(m+1) and then every 6m further ones (`FailuresSuspend`).

## Model

| member | source | states |
|---|---|---|
| Varint.ReadIsExact | ably-c/src/delta/vcdiff.c:127-138 | the reader accepts exactly the strings of up to nine seven-bit groups with the last one unmarked, with exactly their value and length |
| Varint.ReadAt | ably-c/src/delta/vcdiff.c:127-138 | the loop over the buffer finds what the reader finds in the slice, and 0 exactly when there is no varint |
| Varint.RoundTrip | ably-c/src/delta/vcdiff.c:122-138 | every value below 2^63, written as a varint, reads back whole whatever follows |
| Varint.TwoBytes | ably-c/src/delta/vcdiff.c:132-134 | the first of two groups is the more significant |
| CodeTable.Build | ably-c/src/delta/vcdiff.c:86-119 | the nested loops fill all 256 entries with the closed form; entry 255 stays a pair of NOOPs |
| CodeTable.Layout | ably-c/src/delta/vcdiff.c:63-67 | where the single instructions stand, as the layout promises |
| CodeTable.PairLayout | ably-c/src/delta/vcdiff.c:68-69 | where the pairs stand: ADD then COPY by size of the ADD, mode and size of the COPY, and COPY then ADD by mode and size of the ADD |
| VcdiffFormat.CyclicIsSelfReference | ably-c/src/delta/vcdiff.c:192-207 | the bytes a COPY appends are the only extension in which each byte equals the one a fixed distance before it, new bytes included |
| VcdiffFormat.CyclicStep | ably-c/src/delta/vcdiff.c:194-206 | one more byte of an overlapping COPY is read from what the COPY has already written |
| VcdiffFormat.SameHoldsLast | ably-c/src/delta/vcdiff.c:187-190 | after any list of addresses each of the 768 SAME slots holds the last one with its remainder, or 0 |
| VcdiffFormat.NearHoldsLastFour | ably-c/src/delta/vcdiff.c:187-189 | the NEAR slots hold the last four addresses in turn, or 0 |
| VcdiffFormat.JustCopiedIsLocated | ably-c/src/delta/vcdiff.c:173-190 | an address just copied is found again in one byte by its SAME mode, and by its NEAR mode with offset 0 |
| VcdiffFormat.OffsetMeans | ably-c/src/delta/vcdiff.c:160-178 | what an offset denotes in each varint mode, as a congruence modulo 2^32 |
| VcdiffFormat.AddAndRunYield | ably-c/src/delta/vcdiff.c:335-349 | every byte of an ADD is from its data and every byte of a RUN is its fill byte |
| VcdiffFormat.SegmentMeans | ably-c/src/delta/vcdiff.c:252-261 | exactly when a segment has bytes, and which |
| VcdiffFormat.HeadFields | ably-c/src/delta/vcdiff.c:240-262 | the bits of a window indicator and the order of the segment's fields |
| VcdiffFormat.ExtentFails | ably-c/src/delta/vcdiff.c:264-278 | exactly when a window's delta encoding or the four bytes of its checksum are cut off, and what is taken otherwise |
| VcdiffFormat.OpeningFails | ably-c/src/delta/vcdiff.c:280-286 | a missing indicator, and any of its three compression bits |
| VcdiffExec.ExecInstsIsParseThenEval | ably-c/src/delta/vcdiff.c:314-363 | executing while parsing accepts exactly what parsing all instructions and then evaluating them accepts within the room, with the same target |
| VcdiffExec.ExecWindowIsTarget | ably-c/src/delta/vcdiff.c:303-365 | a window executes to its target exactly when it has one and it fits after the output so far |
| VcdiffExec.ExecWindowsIsParseThenOutput | ably-c/src/delta/vcdiff.c:238-366 | window by window execution accepts exactly the files that parse and whose output fits, with that output |
| VcdiffExec.OutputGrows | ably-c/src/delta/vcdiff.c:235-262 | windows only append, and the total is the sum of the target lengths |
| VcdiffExec.ExecIsMeaning | ably-c/src/delta/vcdiff.c:214-370 | the decoder as a function accepts exactly the deltas whose meaning fits, with that meaning |
| VcdiffExec.NeverBadOpcode | ably-c/src/delta/vcdiff.c:86-154 | no delta makes the decoder report a bad opcode: the table has only valid modes |
| VcdiffDecoder.Decoder.ReadAddress | ably-c/src/delta/vcdiff.c:154-185 | the address per mode, modulo 2^32, and the cursor moved past it; or the status of the failure |
| VcdiffDecoder.Decoder.RememberAddress | ably-c/src/delta/vcdiff.c:187-190 | both cache arrays become the updated cache |
| VcdiffDecoder.Decoder.CopyByte | ably-c/src/delta/vcdiff.c:195-205 | appends the byte of segment and target at an address, exactly when there is one, reading the array it writes |
| VcdiffDecoder.Decoder.CopyBytes | ably-c/src/delta/vcdiff.c:192-207 | given room, a COPY succeeds exactly when it is empty or starts inside segment and target, and then appends the whole cyclic extension |
| VcdiffDecoder.Decoder.ExecuteCopy | ably-c/src/delta/vcdiff.c:144-208 | COPY over the buffers is the step of the decoder function, status included |
| VcdiffDecoder.Decoder.ExecuteAdd | ably-c/src/delta/vcdiff.c:335-341 | ADD over the buffers is the step of the decoder function |
| VcdiffDecoder.Decoder.ExecuteRun | ably-c/src/delta/vcdiff.c:343-349 | RUN over the buffers is the step of the decoder function |
| VcdiffDecoder.Decoder.RunPasses | ably-c/src/delta/vcdiff.c:319-362 | the two passes of an opcode are its two halves in order |
| VcdiffDecoder.Decoder.RunInstructions | ably-c/src/delta/vcdiff.c:314-363 | the instruction loop computes the target or the status of the decoder function, and ends |
| VcdiffDecoder.Decoder.ReadHead | ably-c/src/delta/vcdiff.c:240-250 | window indicator and segment fields |
| VcdiffDecoder.Decoder.InRange | ably-c/src/delta/vcdiff.c:252-261 | the range check passes exactly when the segment has bytes in the source or the output so far |
| VcdiffDecoder.Decoder.ReadExtent | ably-c/src/delta/vcdiff.c:264-278 | length of the delta encoding and the checksum that is skipped after it |
| VcdiffDecoder.Decoder.ReadSections | ably-c/src/delta/vcdiff.c:280-301 | target length, indicator and the three sections between the cursors |
| VcdiffDecoder.Decoder.OpenWindow | ably-c/src/delta/vcdiff.c:296-312 | cursors on the sections, an empty target and cleared caches |
| VcdiffDecoder.Decoder.DecodeWindow | ably-c/src/delta/vcdiff.c:239-366 | one window extends the output by its target and leaves earlier bytes alone, or fails with the status of the decoder function |
| VcdiffDecoder.Decode | ably-c/src/delta/vcdiff.c:214-370 | OK exactly when the delta means something that fits, and then the buffer starts with that meaning; otherwise the status of the decoder function; bytes past the capacity are untouched |
| VcdiffEncoder.OffsetRoundTrip | ably-c/src/delta/vcdiff.c:160-178 | in every varint mode some offset denotes any given 32-bit address |
| VcdiffEncoder.AddrRoundTrip | ably-c/src/delta/vcdiff.c:160-185 | an address encoded in any usable mode is located again and the rest of the section is left |
| VcdiffEncoder.InstRoundTrip | ably-c/src/delta/vcdiff.c:160-190 | after each instruction decoder and encoder agree on the cache and on what is left of the sections |
| VcdiffEncoder.EncodeParses | ably-c/src/delta/vcdiff.c:314-363 | every spelling of an instruction list, with any matching opcodes, parses back to the list |
| VcdiffEncoder.PlainOpsEncode | ably-c/src/delta/vcdiff.c:92-102 | every list can be spelt with the variable-size opcodes 1, 18 and 19 + 16m |
| VcdiffEncoder.WindowRoundTrip | ably-c/src/delta/vcdiff.c:303-365 | the target of an encoded window is the value of its instructions |
| VcdiffEncoder.FileRoundTrip | ably-c/src/delta/vcdiff.c:214-370 | an encoded file of windows means what its plans mean, for every source |
| VcdiffEncoder.DecoderRoundTrip | ably-c/src/delta/vcdiff.c:214-370 | the decoder returns exactly the target the encoder had in mind if the capacity allows it, and nothing else |
| VcdiffSample.DeltaMeans | ably-c/src/delta/vcdiff.c:160-190 | a delta given byte by byte copies two bytes of the source, and again by the SAME cache; its checksum may be anything |
| VcdiffFormat.WrappedExactly | ably-c/src/delta/vcdiff.c:288-294 | two lengths cannot wrap the 64-bit sum; three pass the test wrongly exactly if the wrapped sum fits |
| RfcTable.SharedExactly | ably-c/src/delta/vcdiff.c:86-119 | the opcodes for which the table is that of section 5.6 of RFC 3284 |
| RfcTable.StandardRows | ably-c/src/delta/vcdiff.h:20 | the single rows and the last rows of the table of section 5.6 of RFC 3284 |
| RfcTable.StandardPairs | ably-c/src/delta/vcdiff.h:20 | its rows of ADD then COPY, by mode first |
| RfcTable.SharedOpcodesMeanTheSame | ably-c/src/delta/vcdiff.c:314-363 | a delta of such opcodes means the same under both tables, and the decoder returns that meaning |
| RfcTable.StandardRunIsRefused | ably-c/src/delta/vcdiff.c:90-95 | a delta of one RUN spelt with opcode 0 of the default table is five bytes there, means nothing here, and the decoder refuses it, with the status |
| Base64.EncodeLength | ably-c/src/base64.c:23-27 | the text is one shorter than the advertised length |
| Base64.EncodeTo | ably-c/src/base64.c:29-61 | the loop writes the text and a NUL and leaves the rest of the buffer alone |
| Base64.DecodeFits | ably-c/src/base64.c:63-66 | what decodes is shorter than the advertised maximum |
| Base64.DecodeTo | ably-c/src/base64.c:88-124 | fails exactly on undecodable text or a result that does not fit, and otherwise writes the result |
| Base64.RoundTrip | ably-c/src/base64.c:29-124 | every byte string survives encoding and decoding, also with spaces, line ends or NULs after the text |
| Base64.Alphabet | ably-c/src/base64.c:20-86 | the alphabet in its order both ways, the padding, and the four characters skipped at the end |
| Base64.RestIsPassedOver | ably-c/src/base64.c:99-123 | anything after a padded group is passed over, and up to three characters after complete groups |
| Base64.BadCharacterSpoils | ably-c/src/base64.c:106-117 | a character that is no digit, met before any padding, makes the whole text undecodable |
| DeltaChannel.DeltaState.ApplyDelta | ably-c/src/realtime/channel.c:201-265 | a delta turns the active contents into what it means for them, or is dropped with index, lengths and contents unchanged |
| DeltaChannel.DeltaState.StoreFull | ably-c/src/realtime/channel.c:267-281 | a full payload under the cap becomes the base |
| DeltaChannel.DeltaState.OnMessage | ably-c/src/realtime/channel.c:176-281 | what is dispatched and what becomes the base, for every message; a dropped one does not touch the active buffer |
| DeltaChannel.WithoutDeltas | ably-c/src/realtime/channel.c:181-199 | without deltas, data not in base64 or with a delta format goes out as it is, base64 is undone exactly if it decodes and fits, and the base stays |
| DeltaChannel.PlainRunIsFaithful | ably-c/src/realtime/channel.c:176-304 | over a run without deltas everything is dispatched as sent, exactly if no delta text was sent for another payload |
| DeltaChannel.DeltaState.OnDisconnect | ably-c/src/realtime/channel.c:363-369 | the base is empty after a disconnect |
| DeltaChannel.Terminate | ably-c/src/realtime/channel.c:259-263 | the NUL is within the buffer, and the C string read is the payload up to its first NUL |
| DeltaChannel.BinaryIsNotDecoded | ably-c/src/realtime/channel.c:187-281 | base64 without delta: what a channel with deltas dispatches and stores, what one without dispatches, and that they agree only on no bytes |
| DeltaChannel.ChainIsFaithful | ably-c/src/realtime/channel.c:187-281 | if each payload is sent in full, as bytes in base64 or as a delta that yields it from the one before, each is dispatched as sent exactly if no bytes are in base64, and then the base is always the last |
| DeltaChannel.DeltaState.Play | ably-c/src/realtime/channel.c:201-370 | the buffers keep that promise over any run with disconnects |
| DeltaChannel.EncodedPatchIsFaithful | ably-c/src/realtime/channel.c:207-265 | a delta from the reference encoder, in base64, is such a delta |
| ProbeTable.SearchIsConclusive | ably-c/src/hashmap.c:113-127 | a probe that met an empty slot, or every slot, has shown the key to be absent |
| ProbeTable.InsertIsSound | ably-c/src/hashmap.c:75-99 | a new key in an empty slot or a reused tombstone keeps chains and distinctness, adds one entry to the map and one to the count |
| ProbeTable.RemoveIsSound | ably-c/src/hashmap.c:142-147 | a tombstone keeps every other chain whole and removes exactly its key |
| ProbeTable.LiveIsSize | ably-c/src/hashmap.c:82-147 | the counter of live slots is the size of the map |
| ProbeTable.EntriesListMap | ably-c/src/hashmap.c:171-189 | slot order lists every entry once and nothing else |
| HashMap.HashMap.constructor | ably-c/src/hashmap.c:33-45 | a new table is the empty map |
| HashMap.HashMap.Put | ably-c/src/hashmap.c:47-102 | refused, changing nothing, exactly at the load cap; otherwise the map is updated, so the last return of the source is never reached |
| HashMap.HashMap.Seek | ably-c/src/hashmap.c:56-89 | the slot of the key, else the first tombstone or empty slot on its probe sequence |
| HashMap.HashMap.Get | ably-c/src/hashmap.c:104-128 | the value in the map, or none |
| HashMap.HashMap.Remove | ably-c/src/hashmap.c:130-156 | exactly the key is removed; 1 exactly when it was there |
| HashMap.HashMap.Clear | ably-c/src/hashmap.c:158-163 | the map is empty, tombstones gone |
| HashMap.HashMap.Iterate | ably-c/src/hashmap.c:165-189 | a complete iteration yields each entry exactly once |
| HashMap.Replay | ably-c/src/hashmap.c:33-163 | for every hash function and every sequence of operations the answers are those of a finite map with the cap |
| PresenceModel.AfterKeepsInvariant | ably-c/src/realtime/presence.c:119-316 | every frame keeps stored actions PRESENT, staleness confined to a running sync and the set within three quarters of the pool |
| PresenceModel.SerialEnds | ably-c/src/realtime/presence.c:303-312 | for every prefix and cursor: a page is the last one exactly if nothing follows its first colon |
| PresenceModel.CursorGoesOn | ably-c/src/realtime/presence.c:289-315 | a page with a cursor leaves the sync running; any other ends it and sweeps what is stale |
| PresenceModel.OneMessage | ably-c/src/realtime/presence.c:258-279 | ENTER, PRESENT and UPDATE store and are told, LEAVE and ABSENT remove and are told, others do nothing; refused is only a new id at the cap |
| PresenceModel.ApplySplits | ably-c/src/realtime/presence.c:71-112 | after any accepted events untouched members are as they were and the others are what the events say |
| PresenceModel.CompleteSyncConverges | ably-c/src/realtime/presence.c:282-316 | from any state, after pages of a sync mixed with PRESENCE frames and a last page, the members are those put since the first page and not deleted later plus those an interrupted sync had seen; exactly if there are none of the latter the sync converges |
| PresenceModel.RefusedEnterDiverges | ably-c/src/realtime/presence.c:82-95 | at the load cap an ENTER of somebody new is told to subscribers and not stored |
| PresenceModel.ThreeReachTheCap | ably-c/src/hashmap.c:52-54 | a run that reaches the load cap |
| PresenceModel.InterruptedSyncDoesNotConverge | ably-c/src/realtime/presence.c:289-315 | a first page and then, the sync never ended, a complete sync of somebody else: the first member stays |
| PresenceModel.CompleteSyncLeaves | ably-c/src/realtime/presence.c:131-145 | exactly the members that neither a frame of the sync nor an interrupted one has seen get a LEAVE, each once, with its own data |
| PresenceModel.RoomMeansAccepted | ably-c/src/hashmap.c:52-54 | room for all ids ever seen means that no insertion is refused |
| PresenceModel.AttachedIsEmptyPage | ably-c/src/realtime/channel.c:127-129 | for every serial and state: exactly when ATTACHED with HAS_PRESENCE begins or continues a sync, and exactly when it empties the set, with a LEAVE for those who go |
| PresenceModel.MessagesReplayExactly | ably-c/src/realtime/presence.c:251-280 | replaying a PRESENCE frame gives its members exactly if no id's last insertion is refused |
| PresenceModel.PageReplaysExactly | ably-c/src/realtime/presence.c:292-299 | replaying a SYNC page, refused and unknown entries included, gives its members exactly if the two agree on every id of it |
| PresenceModel.KnownPageAgrees | ably-c/src/realtime/presence.c:292-299 | with known actions they agree exactly if the accepted ids are those that the page announces last |
| PresenceModel.FrameReplaysExactly | ably-c/src/realtime/presence.c:251-316 | the notifications of a frame take a replica from the members before to those after exactly under that condition, the leaves of a sweep included |
| PresenceModel.RunReplaysExactly | ably-c/src/realtime/presence.c:251-316 | for every run: a replica holds exactly the members, with data, after every frame exactly if every frame settles |
| PresenceModel.RoomMeansSettledRun | ably-c/src/hashmap.c:52-54 | with room for all ids of a run and known actions, it settles exactly if the last entry of every id on each page announces it |
| PresenceModel.SyncEntryReplaysExactly | ably-c/src/realtime/presence.c:293-299 | exactly which single entries of a SYNC page a replica follows, refused and unknown ones included |
| PresenceModel.LeaveInSyncPageDiverges | ably-c/src/realtime/presence.c:293-299 | a first page with any LEAVE parts set and replica, whatever the pool size |
| Presence.PoolNeverFull | ably-c/src/realtime/presence.c:34-44 | a slot of the pool is always free, so the pool-full branch is never taken |
| Presence.UpsertIsGood | ably-c/src/realtime/presence.c:71-99 | a record written in the slot the index gives keeps pool and index in agreement |
| Presence.RefusalIsGood | ably-c/src/realtime/presence.c:90-95 | an insertion refused by the index leaves the set as it was |
| Presence.FreeIsGood | ably-c/src/realtime/presence.c:101-112 | freeing a slot and its index entry keeps the agreement and removes one member |
| Presence.MarkIsGood | ably-c/src/realtime/presence.c:119-128 | marking the pool is marking the set |
| Presence.PresenceState.Upsert | ably-c/src/realtime/presence.c:71-99 | insert or overwrite, refused only at the load cap of the index |
| Presence.PresenceState.RemoveMember | ably-c/src/realtime/presence.c:101-112 | the member is gone from pool and index |
| Presence.PresenceState.BeginSync | ably-c/src/realtime/presence.c:119-128 | everyone is stale and a sync is running |
| Presence.PresenceState.EndSync | ably-c/src/realtime/presence.c:131-145 | what is still stale is swept, with one LEAVE each |
| Presence.PresenceState.HandleMessage | ably-c/src/realtime/presence.c:251-280 | set and notifications after a PRESENCE frame |
| Presence.PresenceState.HandleSync | ably-c/src/realtime/presence.c:282-316 | set, sync flag and notifications after a SYNC page |
| Presence.PresenceState.HandleAll | ably-c/src/realtime/presence.c:251-316 | over any run of frames the pool shows the model's set, and what subscribers are told keeps them in step exactly if every frame settles |
| Presence.PresenceState.GetMembers | ably-c/src/realtime/presence.c:362-383 | every member is counted, and as many distinct ones as fit are returned with their data |
| SendRing.Ring.Enqueue | ably-c/src/realtime/realtime_client.c:175-196 | refused, changing nothing, exactly when one less than the capacity is held; otherwise appended |
| SendRing.Ring.Drain | ably-c/src/realtime/realtime_client.c:464-477 | takes the oldest element, if any |
| SendRing.Ring.Interleave | ably-c/src/realtime/realtime_client.c:175-215 | under any interleaving of producers and the service thread the ring answers as a bounded queue, and taken plus held elements are the accepted ones in order |
| SendRing.FifoConserves | ably-c/src/realtime/realtime_client.c:175-215 | a bounded queue loses, repeats and reorders nothing |
| ChannelModel.FlagExactly | ably-c/src/realtime/channel.c:354-385 | after any interleaving a channel is flagged for reattaching exactly when an uncleared drop found it live |
| ChannelModel.DroppedIsReattached | ably-c/src/realtime/channel.c:354-385 | a live channel that is dropped comes back as attaching at the next CONNECTED, whatever failed or was called between |
| ChannelModel.PendingConserved | ably-c/src/realtime/channel.c:580-631 | under any interleaving accepted publishes wait in order, through disconnects, until a flush forwards them one by one |
| ChannelModel.OfferTakesPrefix | ably-c/src/realtime/realtime_client.c:175-187 | of frames offered in order the ring takes exactly the longest prefix that fits |
| Channel.Channel.OnAttached | ably-c/src/realtime/channel.c:111-124 | ATTACHED clears the flag and flushes the queue, with the serials and frames of a flush |
| Channel.Channel.FlushPending | ably-c/src/realtime/channel.c:580-603 | the queue is empty, one serial is spent on each message, and the ring has taken in order the encodable frames that fit; if all frames encode, exactly the longest prefix of them with consecutive serials |
| Channel.FramesAreConsecutive | ably-c/src/realtime/channel.c:587-600 | if the frames of the queued messages encode, the flush offers one per message, in order, with consecutive serials |
| Channel.FlushTakesPrefix | ably-c/src/realtime/channel.c:580-603 | the ring then grows by exactly the longest prefix of those frames that fits |
| Channel.QueuedIsSentAsGiven | ably-c/src/realtime/channel.c:584-630 | a queued publish becomes the frame that an immediate one would have been, an empty string apart |
| Channel.PublishThenAttached | ably-c/src/realtime/channel.c:580-653 | a publish accepted while attaching follows those queued before into the ring, with the next serial and the name and data given |
| Channel.Channel.AttachCall | ably-c/src/realtime/channel.c:460-495 | each return code with its exact condition; state and ring change only on a real attach |
| Channel.Channel.DetachCall | ably-c/src/realtime/channel.c:497-521 | each return code with its exact condition; state and ring change only on success |
| Channel.Channel.PublishCall | ably-c/src/realtime/channel.c:605-653 | queued while attaching, sent while attached with the next serial, refused otherwise, with each return code |
| Channel.DropAll | ably-c/src/realtime/realtime_client.c:510-515 | every channel of the client sees the drop |
| Channel.ReattachPending | ably-c/src/realtime/realtime_client.c:652-675 | exactly the flagged channels whose ATTACH encodes become attaching, the ring takes their frames in order as far as they fit, and the ATTACH of each is in it, at its place, exactly if that place lies within the ring |
| Channel.WantedSentIfRoom | ably-c/src/realtime/realtime_client.c:652-675 | the place of each ATTACH among those wanted decides whether it is sent |
| Channel.FullRingSendsNothing | ably-c/src/realtime/realtime_client.c:666-670 | with a full ring no ATTACH is sent, and still every channel that comes back is attaching and unflagged |
| Channel.LoseAndRecover | ably-c/src/realtime/realtime_client.c:505-675 | after a loss, any number of failed attempts and CONNECTED, exactly the channels that were live or flagged are attaching, queues intact, and each has its ATTACH in the ring exactly if there was room for it |
| Reconnect.Service.OneTurn | ably-c/src/realtime/realtime_client.c:388-590 | one turn of the loop: next variables, host tried, whether it waited or left, and the connection state in every case |
| Reconnect.Service.Serve | ably-c/src/realtime/realtime_client.c:383-594 | the loop against any environment makes the turns of the function |
| Reconnect.HostsCycle | ably-c/src/realtime/realtime_client.c:539-552 | after an attempt that fails before CONNECTED the next host of the cycle, after the last the primary |
| Reconnect.HostsInRange | ably-c/src/realtime/realtime_client.c:398-404 | every host index that a run connects to is in 0..5 |
| Reconnect.LostConnectionTriesFallback | ably-c/src/realtime/realtime_client.c:539-549 | after an established connection is lost the first fallback is tried next |
| Reconnect.FailuresVisitHostsInTurn | ably-c/src/realtime/realtime_client.c:388-549 | the k-th of consecutive failures is k places further round the cycle |
| Reconnect.FirstRunTops | ably-c/src/realtime/realtime_client.c:517-552 | at every loop top of a client's first run no refresh is due and a backoff is to be skipped only with the host index moved on |
| Reconnect.LivesKeepAnyTop | ably-c/src/realtime/realtime_client.c:383-594 | what any number of runs of one client leaves behind |
| Reconnect.FailuresWithoutWait | ably-c/src/realtime/realtime_client.c:517-590 | how many consecutive attempts can fail before CONNECTED, without a token error, until one waits |
| Reconnect.FailuresWait | ably-c/src/realtime/realtime_client.c:517-590 | in the first run, of any eleven such failures in a row one ends in a timed wait or leaves the loop; of any six without an auth callback |
| Reconnect.FailuresWaitAfterRestarts | ably-c/src/realtime/realtime_client.c:517-590 | in a later run, of any twelve; of any six without an auth callback |
| Reconnect.BoundsAreExact | ably-c/src/realtime/realtime_client.c:517-590 | runs from a new client in which ten, after a restart eleven, and without a callback five failures pass without a wait |
| Reconnect.FailuresSuspend | ably-c/src/realtime/realtime_client.c:554-579 | consecutive failures of a new client suspend it at exactly the numbers of SuspendsAt, never without a maximum |
| Reconnect.SuspendsAtRounds | ably-c/src/realtime/realtime_client.c:554-579 | those numbers are 6 * (k * m + 1) for k > 0 and a maximum of m |
| Reconnect.ConnectedCountsAgain | ably-c/src/realtime/realtime_client.c:263-269 | a connection that is up and lost starts the count again, as a first failure |
| Reconnect.FailedRenewalIsPlain | ably-c/src/realtime/realtime_client.c:517-537 | a token error whose callback brings no token is a failure like any other |
| Reconnect.RenewalsNeverWait | ably-c/src/realtime/realtime_client.c:517-576 | with an auth callback any number of token errors before CONNECTED passes without a wait |
| Reconnect.LossesNeverWait | ably-c/src/realtime/realtime_client.c:246-271 | any number of connections made and lost passes without a wait |
| Reconnect.CloseEndsTheLoop | ably-c/src/realtime/realtime_client.c:388-396 | after a close request at most the connect in flight still happens |

## Left out

- VcdiffDecoder.Decoder.ReadSections: ends in the status `Wrapped` where the 64-bit sum of the section lengths (`vcdiff.c:293`) wraps to one that passes the test. What the source does from there on is not modelled; WrappedExactly says when that is.
- VcdiffDecoder.Decode: ends in `Wrapped` likewise. NULL pointers for the delta, the output or its length (`vcdiff.c:221`) are ruled out by the types; a NULL source is `None`. `size_t` is taken to be 64 bits wide.
- PresenceModel.CompleteSyncConverges: assumes that no insertion is refused; RoomMeansAccepted gives a test for it, and a refused one is otherwise described by ApplyOne alone.
- Channel.Channel.FlushPending: describes the loop with nothing between its messages. The source flushes without the channel's mutex; ChannelModel has one event for each message, and there anything may come between for the queue, but the ring contents after a disturbed flush are described only by SendRing.Ring.Interleave.
- Channel.Channel.AttachCall: runs as one step. ChannelModel takes its last section as an event at an arbitrary time, and that is where interleavings are covered.
- Channel.Channel.DetachCall: runs as one step, likewise.
- Channel.Channel.PublishCall: runs as one step, likewise. A name or payload too long for the queue's fields is cut off by the source; strings are unbounded here. `publish_with_id` is not modelled.
- Reconnect.Service.OneTurn: the state in which the frames of an event loop leave the connection is a parameter of the environment, as is a close request; the reset of the message serial before a connect is not modelled.
- Keys longer than 255 bytes: a `client_id` field holds at most that many, and only up to there `strncmp` is equality.
- Sockets, TLS, HTTP and WebSocket traffic: outcomes of a connect are parameters of the environment.
- JSON and MessagePack: frames are decoded values, and the encoder is an arbitrary predicate saying which frames encode. Attach parameters are not part of a frame here.
- Gap recovery through REST history, and re-entering the client's own presence after ATTACHED.
- Subscriber lists, tokens and name filters, and callbacks that call back into the client.
- Jitter and length of the backoff, the heartbeat watchdog and all clocks: a wait either happens or does not.
- Wire order of serials under concurrent publishers, and their uniqueness across reconnects: the code does not provide it.
- Which frames lead to FAILED or CLOSED within the event loop.
- Logging, mutex wrappers, allocation failure and `ably_channel_enable_delta`.
- The C++ binding, the examples and the Flink sink.
