# A verified model of up4

up4 is a userspace P4 switch. It runs one program on three independent engines, publishes tables from a control
plane to running packet threads, and moves batches of UDP segments between vports. This project models its hardest
parts in Dafny and proves what its documentation and tests promise of them, for all inputs and all runs.

Check it with `dafny verify dfyconfig.toml`.

## What is proved

* **Two engines, one router.** The native `l3fwd` engine, and the p4c-generated uBPF program inside its admission
  and scrubbing envelope, are modelled separately, the second down to its C struct images, 4/4-bit and 3/13-bit
  header splits, overlapping partial writes and byte swaps. `Backends.Session` drives both objects through any
  sequence of table writes and frames: every native answer, verdict and bytes, is the reference router's, and the
  uBPF answer is the same exactly when the frame does not deviate. `Backends.AgreeExactly` makes deviation a test
  on the frame's length and the port its route names. `Backends.AgreeOnAllFrames` says they agree on every frame
  that fits the VM buffer exactly when no address resolves to a reserved port.
* **Two longest-prefix-match indexes, one meaning.** The masked-`u32` index and the index that clears bits of a
  little-endian byte image refine the same plain map from prefixes to values. Both answer with the longest installed
  prefix that matches. `UbpfImages.MaskedImage` equates clearing the image's bits one at a time with masking the
  number.
* **Publication.** `Publication` is the lock-plus-version protocol of `Shared` and `Cached` as interleaved steps of
  any number of readers and writers, generic in what a reader does with a value and in the order of its mint. A
  `get` is fresh and never goes backwards; after a value-first mint it is fresh under an exact condition. `Journal`
  instantiates it with the x4c journal: every synced shard's private table is the live set of the journal it loaded,
  the replayed slice is always in range, shards converge, and compaction is amortized.
* **The datapath.** A read is walked segment by segment, each shown to the engine with its bytes as received, whatever
  the engine did to those before it. An engine chooses each operation from everything it has seen; what one that looks
  only at written places leaves is free of other segments' bytes exactly when it fills what it exposes. Every segment and every write is charged to exactly one counter. Each egress's stamps are
  consecutive modulo 2^32. What is staged is handed over, in order, through the fewest legal segmented writes, and the
  packets counted as sent are those of the writes the socket took. At the far end the sequence tracker's counters
  tell, by a law that holds of every stream, how many segments are missing.
* **Smaller pieces.** The punt ring, the three-way vport index with its pigeonhole argument, base64 in both
  directions, and the compare-and-swap loop of the CI committer.

## Reading order

`Bits` (bitwise operations and byte images on integers), `Engine` (verdicts), `Buckets` (the bucket structure both
indexes share), `NativeTable`, `UbpfTable`, `UbpfImages`, `Headers`, `L3fwd` (the reference router), `P4cL3fwd` (the
generated program), `Backends`; `Publication`, `Journal`; `Overlay`, `Sequence`, `Transmit`, `FrameWindow`, `Vport`, `Shard`;
`Punt`, `Base64`, `Committer`.

## Assumptions

* Bytes and words are bounded integers; wrap-around and truncation are written out where the source has them.
* `ubpf_common.h` is not part of this model's source: its `load_*` are read as big-endian loads and its `bpf_hton*`
  as byte swaps on a little-endian host, as the generated code requires.
* A prefix length is at most 32, which the key parser enforces (crates/up4-engine/src/shim.rs:63-94).
* Atomics and the mutex are sequentially consistent interleaved steps. Version counters are unbounded; the
  `u64::MAX` that marks a version never read is -1.
* An x4c table identifier and key text name an entry injectively. Keys are not canonicalized, as in the source, so
  nothing relates the x4c tables to the native ones on prefixes with host bits set.
* An engine behind the datapath chooses each `FrameCtx` operation, and in the end its verdict, from everything it has
  seen of its window, within some bound on the number of operations. The socket is any script of answers, one to each
  request. Other threads use the punt ring between any two calls.
* The committer's server performs an atomic compare-and-swap. Its three-dot comparison, when it answers with less than
  a full page, covers every path that differs between the merge base and the head, as a file's new name or as the old
  name of a renamed one, and gives an old name only where the file is gone from it. History has one root and one parent
  per commit. Requests and answers may be lost, and others may push anywhere or force the branch to any commit between
  any two steps.

## Where code and documentation differ

* `VportTable::build` is documented to return `None` exactly when it recorded an error. On an empty list it returns
  `None` and records nothing; `Vport.Build` says that is the only exception. Its one caller never passes an empty list
  (crates/up4-config/src/raw.rs:146-147).
* The uBPF pipeline mints an engine by reading the value first and the version second
  (crates/up4-ubpf/src/pipeline.rs:307). If an update lands in between, the engine serves the old tables under the
  new version until the next update. `Publication.ValueFirstGet` gives the exact condition for every get,
  `Publication.StaleUntilItLoads` and `Publication.NextUpdateRepairs` how long it lasts, and
  `Publication.ValueFirstMintCanBeStale` a run.
* `push_front` hands the engine the bytes it exposes for filling, and shows them as earlier segments and headers left
  them. An engine that does not store to them sends them, and so does one that stores what it read there
  (`Shard.HeadroomCanLeak`). For engines that look only at written places `FrameWindow.StrategyShowsExactly` is the
  exact condition; one that looks at the others may fill everything and still send them.
* The committer means never to land artifacts on sources they were not built from. After the branch is forced back to
  an ancestor of the base, the comparison starts at the head itself and lists nothing, and they land there
  (`Committer.ForcedBackLandsWrong`). After an input is renamed away, the comparison shows the file under its new name,
  its old one is not looked at, and they land there (`Committer.RenamedInputLandsWrong`).
  `Committer.RightInputsExactly` is the exact condition, `Committer.OnBranchExactly` the one for a branch that was not
  forced.
* The three engines are described as computing the same function. The uBPF adapter reads forward ports 65534 and
  65535 as broadcast and punt, and drops frames over 2048 bytes; `Backends.AgreeExactly` is the exact condition.
* On steady streams `RxSeqGapTotal` less `RxReorder` counts losses exactly when no arrival was superfluous: a repeat,
  or a number from before the first (`Sequence.ExactWhenNothingSuperfluous`, `Sequence.SuperfluousMeaning`). On other
  streams the tracker starts over and counts ground twice; `Sequence.ExactCount` is the exact condition,
  `Sequence.StartingOverOverstates` a stream.
* `decode` accepts text that `encode` never writes; `Base64.EncodeUndoesDecode` gives the exact condition.

## Model

| member | source | states |
|---|---|---|
| `Backends.Session` | crates/up4-engine/src/programs/l3fwd.rs:256-283 | Over any sequence of table writes and frames, under the tables current at each frame, the native object gives the reference router's verdict and bytes, and the enveloped uBPF object the same ones if and only if the frame does not deviate |
| `Backends.AgreeExactly` | crates/up4-ubpf/src/pipeline.rs:494-530 | The two backends agree on a frame, verdict and bytes, if and only if it does not deviate: it is not routed to a reserved port, and not a routed, undropped frame over 2048 bytes |
| `Backends.AgreeOnAllFrames` | crates/up4-ubpf/src/pipeline.rs:512-522 | Agreement on every frame of at most 2048 bytes holds if and only if no IPv4 address resolves to a reserved port |
| `Backends.DeviationsOnPorts` | crates/up4-ubpf/src/pipeline.rs:494-530 | A routed frame deviates if and only if its route forwards to port 65534 or 65535, which become broadcast and punt, or it is over 2048 bytes and not dropped; what the uBPF side does then |
| `Backends.AdmitsOnBytes` | crates/up4-engine/src/envelope.rs:60-115 | Admission refuses a frame exactly when it has the IPv4 EtherType and no coherent header behind it |
| `Backends.BothRewrites` | crates/up4-engine/src/programs/l3fwd.rs:266-279 | Scrubbing after the generated program's rewrite and scrubbing after the native one leave the same bytes: the rewrites differ only in bytes the scrub zeroes |
| `Backends.NativePipeline.Write` | crates/up4-engine/src/programs/l3fwd.rs:165-245 | A native table write changes the plain prefix map and default as the control operation says; a missing removal changes nothing |
| `Backends.NativePipeline.Process` | crates/up4-engine/src/programs/l3fwd.rs:256-283 | The native engine, in place, is the reference router under longest-prefix lookup |
| `Backends.UbpfPipeline.Write` | crates/up4-ubpf/src/pipeline.rs:322-429 | A uBPF table write files byte images so that entry and default maps keep encoding the same plain tables |
| `Backends.UbpfPipeline.Run` | crates/up4-ubpf/src/vm.rs:398-486 | Running the program over a buffer with stale bytes depends on the frame alone |
| `Backends.UbpfPipeline.ProcessInner` | crates/up4-ubpf/src/pipeline.rs:494-530 | Egress port and return code become the verdict, and only a sent frame is copied back |
| `Backends.UbpfPipeline.Process` | crates/up4-engine/src/envelope.rs:194-208 | Admission, the program and the scrub, in place on the frame: the bare program's outcome, with what goes out scrubbed and nothing else touched |
| `P4cL3fwd.Entry` | crates/up4-ubpf/src/generated/l3fwd.c:89-381 | The generated program's return code, egress port and every byte of the packet buffer, for every packet, length and table contents |
| `P4cL3fwd.DeparseUndoesParse` | crates/up4-ubpf/src/generated/l3fwd.c:109-375 | With no action applied the deparser's bytes are the parsed ones, on all 34 header bytes |
| `P4cL3fwd.ExtractEthernet` | crates/up4-ubpf/src/generated/l3fwd.c:110-131 | The six-byte loads and shifts read the three Ethernet fields |
| `P4cL3fwd.ExtractIpv4` | crates/up4-ubpf/src/generated/l3fwd.c:132-176 | The masked and shifted loads at running bit offsets read the twelve IPv4 fields |
| `P4cL3fwd.ApplyTable` | crates/up4-ubpf/src/generated/l3fwd.c:187-202 | Entry-map lookup with the default map behind it returns the image of the action the plain tables resolve to |
| `P4cL3fwd.WriteFragment` | crates/up4-ubpf/src/generated/l3fwd.c:326-336 | Three overlapping partial writes of flags and offset leave exactly the two bytes of the 3/13-bit pair |
| `P4cL3fwd.DeparseIpv4Front` | crates/up4-ubpf/src/generated/l3fwd.c:295-336 | Byte swaps and byte writes put version to fragment offset back in network order and touch nothing else |
| `P4cL3fwd.DeparseIpv4Rest` | crates/up4-ubpf/src/generated/l3fwd.c:338-374 | The same for time to live, protocol, checksum and addresses |
| `P4cL3fwd.TwoWrites` | crates/up4-ubpf/src/generated/l3fwd.c:26-27 | Writing the top bits and then the low bits of a byte leaves nothing of the old byte |
| `UbpfImages.MaskedImage` | crates/up4-ubpf/src/table.rs:310-356 | Clearing the bits below a prefix one at a time in the little-endian image of an address gives the image of the address masked to its leading bits |
| `UbpfImages.ValueImageReadsBack` | crates/up4-ubpf/src/pipeline.rs:185-200 | The program reads back from a value image the action and parameters it was built from |
| `UbpfImages.EncodedLongest` | crates/up4-ubpf/src/table.rs:280-302 | A longest match among byte images is the image of the longest match among the plain prefixes |
| `UbpfImages.KeyOnBytes` | crates/up4-ubpf/src/generated/l3fwd.h:76-79 | The key struct, byte by byte: four zeroes and the address, least significant byte first |
| `UbpfImages.ValueOnBytes` | crates/up4-ubpf/src/generated/l3fwd.h:80-97 | The value struct, byte by byte: the action's number and padding, then port and MAC of a forward |
| `UbpfTable.Table.Insert` | crates/up4-ubpf/src/table.rs:204-221 | An insert files the masked window of the key under its prefix length and keeps the buckets ordered |
| `UbpfTable.Table.Remove` | crates/up4-ubpf/src/table.rs:227-237 | A removal takes that entry away, drops an emptied bucket, and reports whether it was there |
| `UbpfTable.Table.Lookup` | crates/up4-ubpf/src/table.rs:280-289 | A lookup answers the longest matching image, else the default of a table that has one |
| `UbpfTable.Table.LongestPrefix` | crates/up4-ubpf/src/table.rs:296-302 | Trying buckets in order finds a longest installed prefix that covers the key, or none exactly when none does |
| `UbpfTable.ZeroBelow` | crates/up4-ubpf/src/table.rs:344-356 | The bit-clearing loop computes the masked image in place |
| `UbpfTable.MaskedBit` | crates/up4-ubpf/src/table.rs:335-356 | A bit of the masked image is the key's bit if it lies in the prefix, else zero |
| `NativeTable.NetworkIsLeadingBits` | crates/up4-engine/src/table.rs:243-245 | Two addresses have the same masked value if and only if they agree on their leading bits |
| `NativeTable.SamePrefix` | crates/up4-engine/src/table.rs:194-205 | Two routes with the same length get the same prefix if and only if their leading bits agree; a length over 32 gets none |
| `NativeTable.ResolveIsLongestMatch` | crates/up4-engine/src/table.rs:255-287 | The looked-up action is that of the longest installed prefix matching the address, or the default exactly when none matches |
| `NativeTable.LongestMatchIsLongest` | crates/up4-engine/src/table.rs:281-287 | Searching lengths from 32 down finds a longest hit of the plain map |
| `NativeTable.LpmTable.Apply` | crates/up4-engine/src/table.rs:281-287 | `apply` answers as the plain prefix map does |
| `NativeTable.LpmTable.Insert` | crates/up4-engine/src/table.rs:290-309 | An insert updates the plain map at that prefix, keeps groups strictly decreasing and nonempty, and reports a replacement |
| `NativeTable.LpmTable.Remove` | crates/up4-engine/src/table.rs:312-321 | A removal removes exactly that prefix and reports whether it was installed |
| `Buckets.InsertRefines` | crates/up4-engine/src/table.rs:290-309 | Inserting into ordered, nonempty buckets keeps them so and updates the plain map they represent |
| `Buckets.RemoveRefines` | crates/up4-engine/src/table.rs:312-321 | Removing from ordered, nonempty buckets keeps them so and updates the plain map they represent |
| `Buckets.FirstHitIsLongest` | crates/up4-engine/src/table.rs:281-287 | The first bucket that answers holds the longest hit of the represented map |
| `Buckets.LongestUnique` | crates/up4-ubpf/src/table.rs:296-302 | The longest hit is unique, so any two indexes of one map answer alike |
| `Buckets.StrictlyDecreasing` | crates/up4-engine/src/table.rs:255-265 | Bucket lengths strictly decrease |
| `Headers.ZeroInnerChecksums` | crates/up4-engine/src/headers.rs:165-192 | Scrubbing zeroes exactly the IPv4 checksum and a transport checksum that lies in the frame, and only in coherent IPv4 frames |
| `Headers.CoherentOnBytes` | crates/up4-engine/src/headers.rs:111-134 | A frame is coherent IPv4 if and only if it has 34 bytes, bytes 12 and 13 are 8 and 0, byte 14 begins with nibble 4 and its second nibble, at least 5, counts the 4-byte words of a header that fits: options are admitted |
| `Headers.ScrubbedOnBytes` | crates/up4-engine/src/headers.rs:165-192 | What a scrub leaves of a coherent frame, byte by byte: zeroes at 24 and 25 and, behind the header as long as it says it is, at 16 and 17 of TCP and 6 and 7 of UDP if they lie in the frame |
| `Headers.IncoherentLeftAlone` | crates/up4-engine/src/headers.rs:165-192 | Any other frame is scrubbed to itself |
| `L3fwd.RoutableOnBytes` | crates/up4-engine/src/programs/l3fwd.rs:256-283 | A frame is routed if and only if it is coherent, said on its bytes, and its time to live, byte 22, is not 0 |
| `L3fwd.ForwardedOnBytes` | crates/up4-engine/src/programs/l3fwd.rs:266-279 | Every byte of a forwarded frame: the new MAC, the time to live less one, zeroed checksums, all else as it came |
| `L3fwd.DestinationOnBytes` | crates/up4-engine/src/programs/l3fwd.rs:256-264 | The address looked up is bytes 30 to 33, most significant first |
| `L3fwd.RoutedByAction` | crates/up4-engine/src/programs/l3fwd.rs:256-283 | Which verdict and frame each action gives |
| `L3fwd.RouterDecides` | crates/up4-engine/src/programs/l3fwd.rs:256-283 | A frame is discarded as it came unless it is routed; then the longest installed prefix matching its destination decides, or the default exactly when none does |
| `L3fwd.RoutesAreLastAdded` | crates/up4-engine/src/programs/l3fwd.rs:165-245 | After any list of control operations a prefix is installed with an action if and only if some operation adds it so and none after it adds it, removes it or clears |
| `L3fwd.DefaultIsLastSet` | crates/up4-engine/src/programs/l3fwd.rs:221-235 | The default is the one set last |
| `L3fwd.DefaultStartsAsDrop` | crates/up4-engine/src/programs/l3fwd.rs:221-235 | Before any is set it drops |
| `Publication.StepKeepsInv` | crates/up4-engine/src/table.rs:53-108 | Every step of every thread keeps: version counts published values, no reader is ahead of what it loaded |
| `Publication.RunKeepsInv` | crates/up4-engine/src/table.rs:53-108 | The invariant holds in every state of every run |
| `Publication.RunGrows` | crates/up4-engine/src/table.rs:53-61 | Published values, versions and what each reader loaded only ever grow |
| `Publication.GetIsFresh` | crates/up4-engine/src/table.rs:101-108 | A completed get took in published values in order, the last at least as new as any update published before it ended |
| `Publication.VersionFirstGets` | crates/up4-engine/src/table.rs:89-108 | A run of real steps in which a reader's first get answers what was there and, after an update, its next one the new value |
| `Publication.CachedGet` | crates/up4-engine/src/table.rs:84-108 | `Cached::get` returns one whole published value no older than the version current at any point before it |
| `Publication.NeverBackwards` | crates/up4-engine/src/table.rs:101-108 | Successive gets by one reader never go backwards, however it was minted |
| `Publication.ValueFirstGet` | crates/up4-ubpf/src/pipeline.rs:297-310 | For every run and every get of an engine minted value first: it is at least as new as the version current at that get if and only if no update was published between the two reads of the mint, or the engine has loaded since; until it loads it serves the value of its mint |
| `Publication.StaleUntilItLoads` | crates/up4-ubpf/src/pipeline.rs:494-502 | An engine minted across an update serves the tables of its mint, under a version that counts the update, at every get until it loads |
| `Publication.NextUpdateRepairs` | crates/up4-ubpf/src/pipeline.rs:494-502 | Any get that completes after a further update is fresh |
| `Publication.ValueFirstMintCanBeStale` | crates/up4-ubpf/src/pipeline.rs:297-310 | A run of the protocol's own steps in which an update falls between the two reads of a mint and a later get serves the old value under the current version |
| `Journal.WriteKeepsLogOk` | crates/up4-x4c/src/pipeline.rs:171-344 | Every published journal replays to exactly its live set, and live <= ops <= 2 * live + 16 |
| `Journal.CompactionIsAmortized` | crates/up4-x4c/src/pipeline.rs:171-188 | Entries rewritten by all compactions, plus the slack in the log, are at most twice the operations appended |
| `Journal.WriteCosts` | crates/up4-x4c/src/pipeline.rs:171-188 | What one more write adds to either side: the operations it appends, and the whole live set if the log outgrew it |
| `Journal.SyncCatchesUp` | crates/up4-x4c/src/pipeline.rs:431-453 | From any log to any later one, replaying the tail or rebuilding leaves the shard caught up, its slice in range |
| `Journal.SyncedShardShowsLiveSet` | crates/up4-x4c/src/pipeline.rs:431-453 | When a sync completes, the shard's private table is the live set of the journal it loaded, which is at least as new as any published before the sync began |
| `Journal.LiveIsLastAdded` | crates/up4-x4c/src/pipeline.rs:272-344 | After any list of writes an entry is live if and only if some write adds it so and none after it adds or removes its key or clears its table |
| `Journal.SyncedShardShowsWrites` | crates/up4-x4c/src/pipeline.rs:431-453 | A synced shard's table holds exactly the entries last added, and not retired since, by a list of writes whose published journals are the history up to the one it loaded; at least every write published before the sync began is among them |
| `Journal.SyncStaysInRange` | crates/up4-x4c/src/pipeline.rs:440-452 | In every reachable state the slice of the log a sync replays is within it |
| `Journal.ShardsConverge` | crates/up4-x4c/src/pipeline.rs:431-453 | Two shards that loaded the same journal hold the same table, whenever they were minted |
| `Journal.SameLiveSetSameTable` | crates/up4-x4c/src/pipeline.rs:431-453 | Shards whose journals have the same live set hold the same table, at any two points of a run and across generations of the log |
| `Journal.AppliedIsEffect` | crates/up4-x4c/src/pipeline.rs:455-482 | Removing before adding makes an add replace, whatever the underlying add does with an existing entry |
| `Journal.AddAloneMayNotReplace` | crates/up4-x4c/src/pipeline.rs:455-482 | With a table whose add leaves a taken key alone, an add by itself keeps the old action; replay installs the new one |
| `Journal.JournalCell.Compact` | crates/up4-x4c/src/pipeline.rs:171-188 | The log is rewritten, under a new generation, exactly when it outgrew twice the live set |
| `Journal.JournalCell.TableAdd` | crates/up4-x4c/src/pipeline.rs:272-305 | The journal published by an add |
| `Journal.JournalCell.TableRemove` | crates/up4-x4c/src/pipeline.rs:307-323 | The journal published by a removal |
| `Journal.JournalCell.TableClear` | crates/up4-x4c/src/pipeline.rs:325-344 | The journal published by a clear, and how many entries it removed |
| `Journal.X4cEngine.Sync` | crates/up4-x4c/src/pipeline.rs:431-453 | The engine's replay loop brings its pipeline, generation and position to those of the loaded journal |
| `Shard.Shard.Receive` | crates/up4-io/src/shard.rs:147-232 | A whole read: unknown peers charged per segment, else each segment shown to the engine once, in order, with its bytes as received, and every change to ports, counters and slot as `SegmentStep` says; the shard stays sound |
| `Shard.Shard.ReceiveSegment` | crates/up4-io/src/shard.rs:171-230 | One segment: its header decides, its number is observed, the engine starts from the frame as received, chooses as it goes and works on the slot in place, its frame is dispatched, and the bytes behind the segment stay as they were |
| `Shard.EngineSeesItsSegment` | crates/up4-io/src/shard.rs:8-17 | For an engine that chooses as it goes and looks only at written places: its answer and the frame it leaves are the same for all contents in front of its frame if and only if it stores to every place it exposes and keeps |
| `Shard.StepIsOfItsSegment` | crates/up4-io/src/shard.rs:8-17 | In a step of such an engine that fills what it exposes, the answer and the frame that go on are functions of the segment's own bytes |
| `Shard.HeadroomCanLeak` | crates/up4-io/src/shard.rs:199-214 | At every window a receive builds, an engine that exposes a byte and does not fill it floods what lay there, and so does one that fills it with what it read |
| `Shard.CallEngine` | crates/up4-io/src/shard.rs:199-214 | The engine's window fits, has at least 64 bytes in front and ends with the segment; its answer, the slot and the frame left are those of an engine that chooses each operation from everything it has seen |
| `Shard.Shard.Dispatch` | crates/up4-io/src/shard.rs:235-287 | A verdict reaches its one destination and charges exactly one counter; a punt offered to a configured ring is charged to overflow exactly when it met the ring full |
| `Shard.Shard.PushPunt` | crates/up4-io/src/shard.rs:245-254 | Whatever other users of the punt ring did before, a punted frame becomes its newest, whole, or the ring is full; every offer of this shard, with what it met, is among those put to the ring, in order |
| `Shard.Shard.DispatchPunt` | crates/up4-io/src/shard.rs:245-254 | Without a ring the frame is charged to that; with one it is offered, and is the ring's newest unless overflow was charged and the ring is full |
| `Shard.SegmentPunts` | crates/up4-io/src/shard.rs:245-254 | A segment the engine punts adds one offer of the frame it left, with the ingress id and time, and charges overflow exactly when that met a full ring |
| `Shard.SegmentSends` | crates/up4-io/src/shard.rs:263-312 | A segment sent to a known port is staged there as literal header bytes, that port's next number and the frame the engine left, and nowhere else |
| `Shard.SegmentFloods` | crates/up4-io/src/shard.rs:277-312 | A broadcast segment is staged so on every port but the ingress, each under its own number |
| `Shard.Shard.Flood` | crates/up4-io/src/shard.rs:277-286 | A broadcast is staged once on every port but the ingress |
| `Shard.Shard.Stage` | crates/up4-io/src/shard.rs:290-312 | The frame is stamped with the egress's next number and pushed on its `TxQueue` behind everything staged, a full queue being flushed first; `Push` never refuses |
| `Shard.Shard.MakeRoom` | crates/up4-io/src/shard.rs:290-293 | A queue of 64 segments is flushed, any shorter one left alone |
| `Shard.StagedOk` | crates/up4-io/src/shard.rs:290-312 | Everything ever staged on an egress stays numbered consecutively modulo 2^32 |
| `Shard.Shard.Flush` | crates/up4-io/src/shard.rs:325-364 | A flush hands the queue to the socket in the fewest legal writes, puts every one of them to the socket, counts the segments of those the socket's answers take, charges every write to one send counter, and leaves every other port alone |
| `Shard.Shard.FlushAll` | crates/up4-io/src/shard.rs:315-322 | After it nothing staged stays behind, everything ever staged for a peer was handed to the socket in order, every write was put to the socket once, its fate is what the socket answered, and the packets counted as sent are those of the writes it took |
| `Shard.FlushKeepsState` | crates/up4-io/src/shard.rs:325-364 | Handing a queue over, in whatever part the socket takes it, keeps every balance of ports and counters |
| `Shard.Shard.Accept` | crates/up4-io/src/shard.rs:186-197 | An accepted segment counts as received and advances the tracker; the totals still balance |
| `Shard.WalkCount` | crates/up4-io/src/shard.rs:151-157 | The number of segments is the length divided by the stride, rounded up |
| `Shard.WalkAt` | crates/up4-io/src/shard.rs:171-173 | Segment k lies where the receive loop looks for it |
| `Shard.ReadHears` | crates/up4-io/src/shard.rs:171-197 | A read's numbers are heard once each, in order, on the ingress port and on no other |
| `Shard.LinkLosses` | crates/up4-io/src/shard.rs:290-312 | End to end, for arrivals within half the number space of the expectation: whatever socket or network drops, repeats or reorders, the receiver's counters, corrected for superfluous arrivals and ground counted twice, give how many of the sender's segments are missing |
| `FrameWindow.HeadroomShowsExactly` | crates/up4-engine/src/frame.rs:83-186 | The frame any sequence of window operations leaves is the same for all contents in front of the frame if and only if every exposed place left in it was stored to, a test on the operations alone |
| `FrameWindow.StrategyShowsExactly` | crates/up4-engine/src/frame.rs:83-186 | The same if-and-only-if for a pipeline that chooses each operation from what it has seen, as long as it looks only at written places |
| `FrameWindow.WrittenDecides` | crates/up4-engine/src/frame.rs:83-186 | A pipeline that looks only at written places performs the same operations whatever lies in front of its frame |
| `FrameWindow.ReadHeadroomShows` | crates/up4-engine/src/frame.rs:159-172 | A pipeline that exposes a byte, reads it and stores it back fills everything it exposes, and sends the byte all the same |
| `FrameWindow.ReadsBackLooks` | crates/up4-engine/src/frame.rs:159-172 | That pipeline does not look only at written places |
| `FrameWindow.UnfilledHeadroomShows` | crates/up4-engine/src/frame.rs:159-172 | At any window with bytes in front, encapsulating one byte without storing to it sends the byte that lay there |
| `FrameWindow.AlikeElsewhere` | crates/up4-engine/src/frame.rs:83-186 | Windows alike but for what lies in front develop alike but for the places never stored to |
| `FrameWindow.FrameCtx.Perform` | crates/up4-engine/src/frame.rs:83-186 | Whatever a pipeline chooses to do stays within the window's limit, and bytes, frame and everything it saw on the way are exactly what its operations say |
| `FrameWindow.FrameCtx.PushFront` | crates/up4-engine/src/frame.rs:162-172 | Encapsulation succeeds exactly when the headroom allows, moves the window and leaves every byte as it was |
| `FrameWindow.PushFrontOnFrame` | crates/up4-engine/src/frame.rs:162-172 | Encapsulating puts the bytes that lay in front into the frame and keeps the rest |
| `FrameWindow.StoreOnFrame` | crates/up4-engine/src/frame.rs:105-110 | A store changes the one byte of the frame |
| `FrameWindow.GrowingOnFrame` | crates/up4-engine/src/frame.rs:108-186 | Growing the frame keeps it and appends the bytes that lay behind |
| `FrameWindow.RefusedOnFrame` | crates/up4-engine/src/frame.rs:108-186 | An operation that does not fit changes nothing |
| `FrameWindow.ShorteningOnFrame` | crates/up4-engine/src/frame.rs:143-186 | Truncating keeps the front of the frame, decapsulating the back |
| `Transmit.GreedyIsOptimal` | crates/up4-io/src/tx.rs:121-189 | No partition into legal segmented writes has fewer writes than the greedy one |
| `Transmit.GreedyIsFewest` | crates/up4-io/src/tx.rs:152-189 | A partition whose every write reaches as far as is legal uses the fewest writes |
| `Transmit.TakeRun` | crates/up4-io/src/tx.rs:155-188 | One run is legal and reaches as far as any legal run |
| `Transmit.Runs.Next` | crates/up4-io/src/tx.rs:155-188 | Each call returns the next furthest run, and none exactly at the end |
| `Transmit.WalkUndoesFlatten` | crates/up4-io/src/tx.rs:155-188 | Walking a legal write with its segment size gives back its segments |
| `Transmit.Split` | crates/up4-io/src/tx.rs:121-189 | The writes partition the buffer, arrive as exactly the staged segments in order, and are the fewest possible |
| `Transmit.TxQueue.Push` | crates/up4-io/src/tx.rs:99-112 | A push appends the segment or refuses, exactly when full or too long, changing nothing |
| `Transmit.TxQueue.InnerBytes` | crates/up4-io/src/tx.rs:86-88 | Staged bytes less one header per segment |
| `Transmit.Flush` | crates/up4-io/src/shard.rs:325-364 | Flushing hands over exactly the staged segments in the fewest legal writes; every write is put to the socket whatever became of those before it, one it refuses is dropped whole, and the count of segments sent is that of the writes its answers take |
| `Transmit.Send` | crates/up4-io/src/shard.rs:371-401 | A write is taken if and only if the socket accepts it, or would block and then accepts it: it is asked exactly once more; each write ends on the one send counter that says so |
| `Transmit.SendAll` | crates/up4-io/src/shard.rs:336-350 | Every write is put to the socket in turn; fates, counters and segments sent are those the socket's answers give |
| `Transmit.EveryWriteIsAsked` | crates/up4-io/src/shard.rs:371-401 | Of any number of writes each is asked once, or twice on a would-block, and its fate and the one counter it moves are given by the answers to those requests alone |
| `Transmit.LimitsAre` | crates/up4-io/src/tx.rs:121-150 | A write carries at most the configured number of segments, at least one, and 65507 bytes |
| `Transmit.UniformLegal` | crates/up4-io/src/tx.rs:152-188 | Equal segments and a last one make a legal write if and only if there are not too many, the last is no longer, and the bytes fit |
| `Transmit.UnevenIllegal` | crates/up4-io/src/tx.rs:152-188 | A segment behind a shorter one, or any behind one shorter than the first, makes a write illegal |
| `Transmit.AllTakenAllReached` | crates/up4-io/src/shard.rs:325-364 | If the socket takes every write, everything handed over leaves, in order |
| `Transmit.ReachedOneByOne` | crates/up4-io/src/shard.rs:336-350 | A refused write leaves nothing on the wire, one taken all its segments in their place: what left is given write by write |
| `Sequence.SeqTracker.Observe` | crates/up4-wire/src/seq.rs:94-114 | The tracker classifies by the wrapped signed distance to its expectation |
| `Sequence.ClassifiedByDistance` | crates/up4-wire/src/seq.rs:94-114 | Within half the number space: the expected number is in order, a later one a gap of the distance, one at most 1024 behind a reorder, and anything further behind starts the tracker over |
| `Sequence.DeltaUnwraps` | crates/up4-wire/src/seq.rs:45-47 | Within half the number space the wrapped difference is the true one |
| `Sequence.GapsCountLosses` | crates/up4-wire/src/seq.rs:94-114 | For every stream of numbers within half the number space of the expectation, across wraps and resynchronizations: gap total less reorders plus superfluous arrivals is the number still missing plus the ground counted twice |
| `Sequence.EveryStreamCounts` | crates/up4-wire/src/seq.rs:94-114 | The same law for every stream of 32-bit numbers whatever, each read as the number nearest to the expectation |
| `Sequence.ExactCount` | crates/up4-wire/src/seq.rs:94-114 | The counters alone count the losses if and only if superfluous arrivals and ground counted twice cancel |
| `Sequence.StartingOverOverstates` | crates/up4-wire/src/seq.rs:94-114 | A stream of distinct numbers, none before the first, whose losses the counters overstate by 4999 after a resynchronization |
| `Sequence.ExactWhenNothingSuperfluous` | crates/up4-wire/src/seq.rs:94-114 | For a steady stream, never more than 1024 behind nor 2^31 ahead of its highest number, the counters alone count the losses if and only if no arrival was superfluous |
| `Sequence.SuperfluousMeaning` | crates/up4-wire/src/seq.rs:94-114 | Nothing is superfluous if and only if the numbers are distinct and none precedes the first |
| `Overlay.DecodeEncode` | crates/up4-wire/src/lib.rs:96-122 | Decoding recovers an encoded header whatever follows it |
| `Overlay.EncodeOnBytes` | crates/up4-wire/src/lib.rs:96-107 | The twelve bytes of an encoded header |
| `Overlay.DecodeOnBytes` | crates/up4-wire/src/lib.rs:108-122 | Which buffers decode, which error the others give, and the fields as numbers of the bytes |
| `Vport.Build` | crates/up4-config/src/vport.rs:53-91 | Success exactly on a nonempty list without repeats, both lookups then inverting the list; the early break never leads to success; the errors recorded on at most 65536 entries name every repeat, and each one recorded is true of the list |
| `Vport.Pigeonhole` | crates/up4-config/src/lib.rs:84-90 | Distinct ids below 65535 are at most 65535 many |
| `Vport.TableIndexed` | crates/up4-config/src/vport.rs:117-139 | Id and peer lookups are exact inverses of the entry list |
| `Punt.PuntQueue.Push` | crates/up4-io/src/punt.rs:83-100 | A frame, cut to the slot, queues behind everything waiting, and is refused exactly when the ring is full |
| `Punt.PuntQueue.Drain` | crates/up4-io/src/punt.rs:103-119 | The oldest frames come out in order; accepted frames are those drained and then those waiting |
| `Punt.PushAmongOthers` | crates/up4-io/src/punt.rs:83-100 | A push among any pushes and drains of others puts the frame behind everything, exactly when it met room, or finds the ring full |
| `Punt.KeptIs` | crates/up4-io/src/punt.rs:89-99 | What is kept of a frame: port, time and as many bytes from its front as the slot has |
| `Punt.EnteredOrTurnedAway` | crates/up4-io/src/punt.rs:83-100 | Every offer entered or was turned away, never both |
| `Punt.EnteredWithin` | crates/up4-io/src/punt.rs:83-100 | What one user's offers brought into the ring is, in order, among what the ring accepted |
| `Punt.WithinHasPlaces` | crates/up4-io/src/punt.rs:83-100 | What is within another sequence stands in it at increasing places |
| `Punt.PlacesAreWithin` | crates/up4-io/src/punt.rs:83-100 | And whatever stands at increasing places is within it |
| `Punt.Filled` | crates/up4-io/src/punt.rs:89-99 | A reused slot shows exactly the new frame, nothing left over |
| `Base64.DecodeUndoesEncode` | crates/up4-ctl/src/b64.rs:13-59 | Decoding undoes encoding on every byte string |
| `Base64.EncodeUndoesDecode` | crates/up4-ctl/src/b64.rs:38-59 | Encoding undoes decoding if and only if padding stands only at the end and hides no bits |
| `Base64.DecodeAcceptsMore` | crates/up4-ctl/src/b64.rs:38-59 | A text decode accepts and encode never writes |
| `Base64.LettersAreStandard` | crates/up4-ctl/src/b64.rs:7-12 | The alphabet and the padding are those of section 4 of RFC 4648 |
| `Base64.GroupKeepsNumber` | crates/up4-ctl/src/b64.rs:13-35 | The four digits of a group weigh what its three bytes weigh |
| `Base64.ShortGroups` | crates/up4-ctl/src/b64.rs:13-35 | One or two bytes are encoded as with zeroes behind them, padding replacing the last letters |
| `Base64.Vectors` | crates/up4-ctl/src/b64.rs:13-35 | Three vectors of section 10 of RFC 4648 |
| `Base64.Encode` | crates/up4-ctl/src/b64.rs:13-35 | The chunk loop writes the encoding, 4 * ceil(n / 3) characters long |
| `Base64.Decode` | crates/up4-ctl/src/b64.rs:38-59 | The chunk loop reads whole groups of four or nothing |
| `Committer.Reconcile` | scripts/ci/commit-generated.py:260-285 | The loop's result for every behaviour of others and of the network; at most three attempts; every commit landed, lost answers included, is on the base or on a head whose listing named no input; and while the branch has not been forced off the base and no input was renamed away, it has the base's inputs, is the build's result there and really changes its parent |
| `Committer.InputsMoved` | scripts/ci/commit-generated.py:176-193 | Moved exactly when the three-dot comparison is missing, full or names an input as a file's new name; old names are not looked at |
| `Committer.InputsAre` | scripts/ci/commit-generated.py:127-132 | A path is an input if and only if it begins with p4/, xtask/ or one of the two generated directories |
| `Committer.SuspiciousAre` | scripts/ci/commit-generated.py:176-193 | Which comparisons count as moved: none, three hundred entries, or a new name that is a source, of the tool or generated, and no other |
| `Committer.MovedInputEndsStale` | scripts/ci/commit-generated.py:260-285 | An attempt that finds the branch elsewhere, with a source, the tool or a generated file among the new names, ends the run stale with nothing landed by it |
| `Committer.QuietAttemptLands` | scripts/ci/commit-generated.py:260-285 | An attempt nobody disturbs lands one commit, the change set on the head it expected, and the run is done |
| `Committer.OvertakenLandsOnTop` | scripts/ci/commit-generated.py:260-285 | If someone pushes on the expected head before an attempt and the listing names no input, the next attempt that comes through lands the change set on top of that push |
| `Committer.RetargetsAndLands` | scripts/ci/commit-generated.py:260-285 | The same whatever the one move was, a push on any commit or a forced branch, if it leaves the branch elsewhere |
| `Committer.LostAttemptEndsInError` | scripts/ci/commit-generated.py:195-223 | An attempt without a good answer that then finds the branch where it expected it, or not at all, ends the run in an error |
| `Committer.Post` | scripts/ci/commit-generated.py:195-223 | An attempt's effect and outcome: one compare-and-swap on the expected head, and a failure classified by where the branch is |
| `Committer.EveryRunLandsRight` | scripts/ci/commit-generated.py:260-285 | Over all runs: at most as many commits as attempts, each on a head that passed, and success reported only if one landed |
| `Committer.RightInputsExactly` | scripts/ci/commit-generated.py:176-193 | A head that passed has the base's inputs if and only if, at every input, the base holds what the merge base does after the listing's renames |
| `Committer.OnBranchExactly` | scripts/ci/commit-generated.py:176-193 | While the branch has not been forced off the base, a head that passed has the base's inputs if and only if no input stands in its listing as an old name |
| `Committer.MergeBaseIsCommon` | scripts/ci/commit-generated.py:184-184 | The merge base is an ancestor of both commits, and every common ancestor is an ancestor of it |
| `Committer.RenamedInputLandsWrong` | scripts/ci/commit-generated.py:176-193 | A run in which someone pushes a commit renaming an input away and the artifacts land on it |
| `Committer.ForcedBackLandsWrong` | scripts/ci/commit-generated.py:176-193 | A run in which someone forces the branch back to an ancestor of the base and the artifacts land there, on other inputs |
| `Committer.LandedIsTheBuild` | scripts/ci/commit-generated.py:126-135 | A landed commit holds, at every path a regeneration reads or writes, what the build made of its base |
| `Committer.NeverOnTopOfItself` | scripts/ci/commit-generated.py:260-285 | A head that still shows an effective change set never passes for the base, so nothing lands twice unless taken away in between |
| `Committer.AdmittedIsInput` | scripts/ci/commit-generated.py:49-76 | Every path the committer may write is one a regeneration reads |
| `Committer.AdmittedAre` | scripts/ci/commit-generated.py:49-76 | A path may be written if and only if it has no backslash and no parent component and is the lock file or lies in a generated directory |
| `Committer.ClimbingRefused` | scripts/ci/commit-generated.py:49-76 | A path that climbs with a parent component anywhere is refused |

## Left out

- Shard.Shard.Flush: the transmitted-bytes counter, which the source prorates by segment share when a write fails
  (crates/up4-io/src/shard.rs:352-362), so that no exact law of bytes exists.
- Shard.Shard.Receive: byte counters, histograms and rate-limited warnings are not modelled; frames are counted, bytes are not.
- P4cL3fwd.Entry: the C program as compiled by p4c, taken at the level of its C statements; the object code, its loader, rbpf and the JIT are foreign code.
- Publication.GetIsFresh: memory orderings weaker than sequential consistency are not modelled.
- Journal.JournalCell.TableAdd: schema validation and the error it returns come before the journal changes and are left out.
- Committer.Reconcile: manifest parsing and packaging of file contents; the change set is taken as already admitted.
- The x4c generated Rust: its pipeline is a table whose add may keep, replace or duplicate an existing entry.
- `table_dump`, entry counts and the `NotFound` of a native removal: answers to the operator, not to packets.
- The l2fwd program: the same machinery with exact-match tables, which would only add easy members.
- Sockets, poll, signals, clock, packet generator, benchmarks, control server, JSON framing, CLI, TOML parsing, xtask.
