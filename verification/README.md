# btelem: a Dafny model of the telemetry pipeline

btelem moves telemetry records from producers on a device to a viewer: a lock-free ring buffer in C, packed
packets cut out of it, a length-prefixed stream, `.btlm` files and live indexes, and the viewer's store. This
project models that path end to end and proves what each stage keeps of what the stage before it held.

`dafny verify dfyconfig.toml` checks the whole project.

## How the model is laid out

**The ring.** `DrainCore` is one iteration of the drain loops (`Iterate`) and their whole-call form (`Loop`), as
functions of what the consumer observes at each slot. `RingProtocol` is the interleaved transition system: any
number of producers running the steps of `BTELEM_LOG_ID` and up to eight clients running `btelem_drain` and
`btelem_drain_packed`, each step making at most one shared-memory access; records are written and copied word by
word, in any order. The state carries a ghost log (record number s is what the producer that claimed slot s set
out to write) and a ghost account per client. `RingSafety` proves the invariants over all runs, `RingProgress` bounds
the steps of a call and follows a call left alone, `RingOverlap` shows what happens without the no-overlap
discipline. `ClientDrain` is the imperative client: a mutable record and a packet built in place in a caller's array,
proved equal to the same `Loop` for every possible sequence of observations; `RingBuffer` is the ring as an object for
the single-threaded statements; `EndToEnd` joins ring, packet bytes and decoder. `SlotFates` tells what
becomes of each slot a call passes, `PackedLoss` which entries packed drains lose, and `BacklogServer` is the server's
connection loop with the receiver's view of it.

**Formats.** `PacketCodec` (packets), `SchemaWire` / `SchemaWriter` / `SchemaRegistry` (the two C schema writers,
the structs filled in place in zeroed arrays), `SchemaDecoder` / `SchemaRoundTrip` / `SchemaLookup` / `SchemaMeaning` /
`SchemaInside` (the Rust side), `BtlmFile` / `FileLayout` and `LogFile` / `LogReader` / `CrashRecovery` (files),
`Framing` / `StreamDecoder` / `StreamIngest` (streams). `Bytes`, `Wire`, `ZeroedBuffer`, `Bits` and `Partition` are the
shared vocabulary.

**Accumulators and queries.** `LiveCapture`, `PacketIndex`, `TimeQuery`, `QueryExactness`, `LiveQuery`,
`SeriesMeaning`, `CaptureRing`, `StateStore`, `ScalarStore`, `RowTruncation`, `Bitfields`.

## Premises

- Steps are sequentially consistent and the head is unbounded.
- No overlap: slot s is published before slot s + capacity is claimed (`Disciplined`). `RingOverlap` proves that the
  guarantee fails without it, and that such a run is reachable.
- Every logged id is below 512 and every payload at most 232 bytes (`ValidEntry`), as the logging macro's static
  assertion and registration demand. The timestamp a producer writes is fixed at its claim in the ghost log.
- `max_entries` is cast to 16 bits (src/btelem.c:598); the cast is in the model, and the account of a packed call is
  stated in the cast value. `CastToZeroLosesFirstEntry` shows what the cast can cost.
- Time ratios and sample values of the viewer's scalar queries are reals. Which byte strings are valid UTF-8 is a
  parameter that accepts at least ASCII. Which entries the Python schema can decode the fields of is a parameter too
  (`Reader.fields`); with any other entry that is wanted, decoding raises. `partition_point` and the stable sort of the
  Rust library are given by recursive functions with their documented meaning.
- What a callback answers is a parameter: `view(s).stop` for the drain's emit, `verdict(k)` for the schema stream.
- The schema writers are modelled on a little-endian target. On a big-endian one the C code stores integers in native
  order; the model writes them little-endian whatever the endianness byte says, and the decoder refuses that byte.

## Where the code does not do what is promised

- Packet headers have 16 bytes (include/btelem/btelem_types.h:320-326), not the 8 that README.md:115 and
  python/btelem/storage.py:16 give.
- Clients "detect and report drops" (README.md:146), but `btelem_drain_packed` advances the cursor before it tests for a
  full packet (src/btelem.c:587-599): the entry it stops on is consumed, neither packed nor counted as dropped. A call
  loses one if and only if more entries are due than the table has rows (`PackedCallAccount`, `PackedCallsBalance`);
  without a filter and with fewer than 65536 rows that is if `btelem_client_available` answers more than
  (buf_size - 16) / 248 (`LossIsForeseeable`). The server's loop (src/btelem_serve.c:131-150) loses every (rows + 1)-th
  entry of a backlog this way (`BacklogLoss`, `ServeBacklog`). `SilentLoss` is an input: two entries, 264 bytes.
- A log cut while `close` writes its index: the scan that rebuilds the index runs to the end of the file
  (python/btelem/_native.c:400-408) and takes the index bytes for a packet once 16 + 16 * (base mod 65536) of them are
  there (plus one when the schema brings the data offset to 2^32). `TruncatedScanMatchesWriter` says exactly when;
  `PhantomWitness` is an input. Python's sequential read of the cut file meets the same packet (`CutLogOpens`). And a
  cut right behind a payload that has the form of a footer opens the file with the index that footer names:
  `FooterInPayload` gives a log that so opens empty.
- An empty packet is indexed as (0, 0) (python/btelem/_native.c:885), which can lead the binary search past packets that
  were asked for. `LiveQueryExactIff` gives the two tests of the index that are necessary and sufficient for every query
  to be exact; `EmptyPacketLosesRow` is an input.
- `truncate_rows` promises to fill its budget exactly (viewer/crates/btelem-viewer/src/plot_renderers.rs:481-482). An
  empty time bucket, or at a single instant the rounded-up stride, leaves it short: `TruncateRows` states the exact
  condition and `BudgetMissed` gives inputs of both kinds.

## Model

| member | source | states |
|---|---|---|
| `RingProtocol.WrapIsMod` | src/btelem.c:164 | the cell of a slot is the slot modulo the capacity |
| `RingProtocol.StepKeepsRing` | include/btelem/btelem.h:87-100 | every step of every thread keeps the ring invariant: a nonzero sequence number names a published slot of that very cell, and the cell holds exactly that slot's logged record |
| `RingSafety.RunInv` | include/btelem/btelem.h:87-100 | ring and client invariants hold in every state of every disciplined run |
| `RingSafety.SeqnoStays` | src/btelem.c:177-183 | while a consumer copies, no producer step can bring back the sequence number it re-checks against |
| `RingSafety.AcceptedCopyIsLogged` | src/btelem.c:173-185 | a word-by-word copy whose re-check succeeds is the logged record, never torn and never from another lap |
| `RingSafety.NoTornReads` | src/btelem.c:163-195 | in every disciplined interleaving, all a client was ever handed under slot s is bit for bit what the producer of slot s logged, and slots strictly increase |
| `RingSafety.ProgramOrder` | src/btelem.c:163-195 | two records of one producer come out in the order it logged them |
| `RingSafety.LifeAccount` | src/btelem.c:140-198 | at every moment of a client's life, cursor minus opening head = delivered + filtered + dropped + lost, lost at most one per packed call and so 0 with plain drains, cursor <= head, and the sum of reported drops is dropped_reported <= dropped |
| `RingSafety.PackedCallsBalance` | src/btelem.c:507-635 | each finished packed call of every run balances: slots passed = packed + filtered + newly dropped + u, and u = 1 if and only if it saw more committed, untorn, accepted entries than its table has rows, else u = 0 |
| `RingSafety.CallsAreLoops` | src/btelem.c:140-198 | a drain call under any interference is a run of the sequential loop over what it observed |
| `RingSafety.FinishedCallFates` | src/btelem.c:163-195 | every finished call of every run dropped the slots it saw torn, filtered the intact ones whose id its filter lacks, and delivered only ids its filter holds |
| `RingSafety.PacketsTellDrops` | src/btelem.c:627-629 | whenever a packed call that packed something finishes, its packet reports exactly the drops not yet reported, or 2^32 - 1 when there are more |
| `RingSafety.BeginSkips` | src/btelem.c:520-530 | beginning a call of either kind moves the cursor to the oldest slot held and counts what it passed as dropped, also when the call then returns at once |
| `RingSafety.EightClients` | src/btelem.c:63-85 | at most eight clients are open in any run, and one more can be opened if and only if there are fewer |
| `RingSafety.CursorMonotone` | src/btelem.c:140-198 | while a client stays open its cursor never moves back and nothing already handed out is revised |
| `RingSafety.QuiescentDrain` | src/btelem.c:140-198 | in any reachable state without a writer in flight, the drain loop over the still ring delivers the filtered last min(head - cursor, capacity) logged records |
| `RingProgress.DrainLeftAlone` | src/btelem.c:140-198 | over every part of a run in which only one client steps, from begin to finish, the protocol's own steps deliver exactly those records and end at the head |
| `RingProgress.PackedLeftAlone` | src/btelem.c:507-635 | a packed call that steps alone packs the first of those records up to its rows into one packet, loses the next one if and only if there is one, and counts as dropped only what was overwritten |
| `RingSafety.NobodyWaits` | include/btelem/btelem.h:87-100 | each producer in flight and each client always has a step of its own it can take, whatever the others do |
| `RingProgress.OwnStepWorks` | src/btelem.c:163-195 | every step of a client's own brings its call closer to the end |
| `RingProgress.CallsAreWaitFree` | src/btelem.c:140-198 | a drain call of either kind takes at most capacity times 237 steps of its own and one more, under any interference |
| `RingOverlap.OverlapTears` | src/btelem.c:166-183 | whenever two writers overlap in a cell and differ in a word of either record, payload included, the re-check can be defeated: the client accepts a record nobody logged |
| `RingOverlap.OverlapReachable` | include/btelem/btelem.h:93-99 | such an overlap is reachable from the initial state |
| `RingOverlap.TornReadReachable` | include/btelem/btelem.h:93-99 | so without the discipline a run hands out an unlogged record |
| `DrainCore.LoopKeepsCallInv` | src/btelem.c:568-610 | for every observation sequence a call conserves slots, delivers increasing slots inside its window and fits its packet |
| `DrainCore.PayloadFitsWhileRowsRemain` | src/btelem.c:593-599 | the payload-space test cannot fail while the table has a free row |
| `DrainCore.LossIffTooMuchDue` | src/btelem.c:567-613 | from any point of a packed call on: it packs what is due up to the rows of its table, and loses an entry if and only if more is due |
| `DrainCore.PackedCallAccount` | src/btelem.c:507-635 | for every observation: cursor advance = packed + filtered + newly dropped + u, u in {0, 1}; packed = min(due, cast max_entries), and u = 1 if and only if more was due, with an exact cast if and only if more than the (buf_size - 16) / 248 worst-case entries of the buffer |
| `DrainCore.CastToZeroLosesFirstEntry` | src/btelem.c:598 | a max_entries that the 16-bit cast turns into zero loses the first accepted entry and packs nothing |
| `DrainCore.ReplayIsLoop` | src/btelem.c:163-195 | replaying a finished call's observations is the whole-call loop over the view they define |
| `DrainCore.FullDrain` | src/btelem.c:108-198 | over a quiet ring a drain delivers exactly the filtered tail of the log, ends at the head, and `btelem_client_available` announced both counts |
| `SlotFates.LoopFates` | src/btelem.c:163-195 | for everything the ring can show, a call passes only committed slots and sends each to its place: torn to dropped, intact with an id not asked for to filtered, asked for to the deliveries in order, short of the one lost |
| `SlotFates.LoopEnds` | src/btelem.c:163-195 | a call ends only at the head, at an uncommitted slot, after a callback that asks to stop, or on a full packet, and no earlier callback asked to stop |
| `SlotFates.DrainedExactly` | src/btelem.c:140-198 | over a quiet ring an entry is delivered if and only if it is among the last min(head - cursor, capacity) logged and the filter is off or holds its id |
| `PackedLoss.QuietPackedLoop` | src/btelem.c:567-613 | from any point of a packed call over a quiet ring: the selected entries that fit are packed in order, the next one if any is lost, the rest stays ahead of the cursor, and the drop count stands still |
| `PackedLoss.PackedDrain` | src/btelem.c:507-635 | the same for a whole call of any buffer that holds an entry, the skip over overwritten entries included |
| `PackedLoss.LossIsForeseeable` | src/btelem.c:530-551 | without a filter a call over a quiet ring loses an entry if and only if more is available than worst-case entries fit the buffer |
| `PackedLoss.BacklogLoss` | src/btelem_serve.c:131-150 | whatever the filter and the backlog of a quiet ring, the cast being exact, enough calls deliver every selected entry but each (rows + 1)-th one and end at the head, with only the overwritten entries counted as dropped |
| `PackedLoss.ThinnedAt` | src/btelem_serve.c:131-150 | the k-th entry so delivered is selected entry k + k / rows, and n / (rows + 1) of n are missing |
| `BacklogServer.ServeClient` | src/btelem_serve.c:131-150 | for whatever the ring shows: the packets sent decode to exactly what the calls delivered, the drops they report add up to dropped_reported, and once one was sent the receiver knows of all drops counted when the last one was |
| `BacklogServer.ServeBacklog` | src/btelem_serve.c:131-150 | a receiver of a backlog from a quiet ring decodes every selected entry but each (rows + 1)-th one, and is told of exactly the overwritten ones |
| `BacklogServer.SilentLoss` | src/btelem.c:587-599 | with any two entries logged and 264 bytes, one call sends the first with a drop count of 0 and the next call finds nothing |
| `ClientDrain.Client.constructor` | src/btelem.c:63-85 | a client opens at the head with nothing dropped or reported |
| `ClientDrain.Client.SkipLapped` | src/btelem.c:154-161 | a lapped cursor jumps to the oldest slot still in the ring and counts what it skipped |
| `ClientDrain.Client.SetFilter` | src/btelem.c:94-106 | an empty list accepts every id; otherwise exactly the listed ids below 512 |
| `ClientDrain.Client.Drain` | src/btelem.c:140-198 | the mutable loop computes exactly `Loop` for every view, with the fate of every slot by the ids of the filter, the reason it ends, cursor, drops and return value |
| `ClientDrain.Client.BeginPack` | src/btelem.c:507-563 | the opening of a packed drain: the early returns, or the worst-case table size |
| `ClientDrain.Client.DrainPacked` | src/btelem.c:507-635 | rows and payloads built behind a worst-case table and moved down leave n <= buf_size bytes that are exactly the packet of what `Loop` delivers; its drop field brings the receiver up to date, or says 2^32 - 1 when that is not enough |
| `ClientDrain.PackLoop` | src/btelem.c:565-610 | the packing loop keeps rows and payloads of everything packed so far in place |
| `ClientDrain.Seal` | src/btelem.c:615-634 | closing the gap by memmove and writing the header leaves header, table and payloads back to back |
| `ClientDrain.PackedEncodable` | src/btelem.c:593-609 | whatever a packed call packs fits the widths of the packet format |
| `EndToEnd.PackedCallDecodes` | src/btelem.c:544-634 | for every buffer size, ring state and interference, the packet decodes to the packed entries in order with ids, timestamps and payloads, and to all drops not yet reported as far as 32 bits reach |
| `EndToEnd.PacketsCarryTheLog` | viewer/crates/btelem-wire/src/packet.rs:30-71 | in every disciplined run, every packet a client was ever given decodes to records as logged, in slot order |
| `PacketCodec.DecodePacket` | viewer/crates/btelem-wire/src/packet.rs:30-71 | the decoding loop meets its specification on all byte strings, errors included |
| `PacketCodec.DecodedInside` | viewer/crates/btelem-wire/src/packet.rs:30-71 | decoding is total, succeeds exactly on framed packets whose rows stay inside, and every payload is a slice of the payload region |
| `PacketCodec.RoundTrip` | viewer/crates/btelem-wire/src/packet.rs:30-71 | decoding an encoded packet returns its entries |
| `PacketCodec.PacketLayout` | include/btelem/btelem_types.h:307-333 | the bytes of an encoded packet, position by position |
| `Bits.PowerOf2Test` | src/btelem.c:8-11 | the bit trick accepts exactly the powers of two |
| `Bits.MaskIsMod` | src/btelem.c:32-33 | for each accepted capacity, slot & mask = slot mod capacity |
| `RingBuffer.Init` | src/btelem.c:22-37 | initialisation fails exactly on capacities that are not powers of two |
| `RingBuffer.Ring.Log` | include/btelem/btelem.h:87-100 | a completed log call appends to the unbounded log and keeps the last lap readable |
| `RingBuffer.Ring.DrainAll` | src/btelem.c:108-198 | one full drain delivers, as announced, exactly those of the last min(head - cursor, capacity) entries whose id the filter holds |
| `PacketIndex.ScanMeta` | viewer/crates/btelem-capture/src/lib.rs:398-427 | the scan from extreme values computes the recorded metadata |
| `PacketIndex.MetaBounds` | python/btelem/storage.py:62-76 | recorded bounds enclose every timestamp and, unless the packet is empty, are attained |
| `PacketIndex.PacketAt` | python/btelem/_native.c:870-899 | a packet lies at its index offset, byte for byte |
| `LiveCapture.LiveCapture.constructor` | python/btelem/_native.c:809-845 | an empty capture satisfies the invariant |
| `LiveCapture.LiveCapture.Ingest` | python/btelem/_native.c:853-926 | every ingest keeps buffer and index equal to a suffix of everything ingested, at most max_packets when set, with truncated + retained = ingested for packets and entries |
| `LiveCapture.LiveCapture.ReserveBytes` | python/btelem/_native.c:860-868 | doubling the buffer loses nothing |
| `LiveCapture.LiveCapture.Compact` | python/btelem/_native.c:903-923 | half-window compaction slides bytes and rebases offsets so that the index describes exactly the kept suffix |
| `LiveCapture.LiveCapture.Clear` | python/btelem/_native.c:1002-1008 | clear forgets the packets and leaves the truncation counters as they were |
| `LiveCapture.CompactKeeps` | python/btelem/_native.c:903-923 | dropping the front of the window keeps layout and balance |
| `TimeQuery.IndexLowerBound` | python/btelem/_native.c:182-197 | the binary-search loop meets its recursive form on any index |
| `TimeQuery.CountEntries` | python/btelem/_native.c:201-226 | the counting pass reads only tables and counts the wanted rows from the search start to the break, on any index |
| `TimeQuery.CountIsScan` | python/btelem/_native.c:201-226 | that count is the number of rows the filling pass finds, on any index, sorted or not |
| `TimeQuery.FillSeries` | python/btelem/_native.c:271-311 | the filling pass writes exactly those rows, cut at the count given |
| `TimeQuery.Series` | python/btelem/_native.c:1010-1070 | count then fill: for any index, sorted or not, the counted room is exactly filled |
| `TimeQuery.QueryIsLinearFilter` | python/btelem/_native.c:182-226 | on a sorted index with true bounds, search plus early break returns the linear filter of all entries by id and [t0, t1] |
| `SeriesMeaning.LinearFilterMeans` | python/btelem/_native.c:202-311 | over laid packets that decode, in any order, the linear filter is, packet by packet, the decoded entries with the id and t0 <= timestamp <= t1, each with the bytes of its field, or zeros when its payload ends before |
| `SeriesMeaning.LiveSeries` | python/btelem/_native.c:1010-1070 | over packets in time order the series of the live capture is exactly that |
| `SeriesMeaning.SeriesExactIff` | python/btelem/_native.c:182-311 | over packets in any order every series is exactly that if and only if the index passes the two tests |
| `QueryExactness.QueryExactIff` | python/btelem/_native.c:182-226 | over any index with true, attained bounds: the query is exact for every id and range if and only if no packet starts later than a non-empty one behind it and the search passes over no packet that reaches a bound leading past it |
| `LiveQuery.LiveQueryIsExact` | python/btelem/_native.c:1010-1070 | whatever was ingested and compacted, over packets in time order the live query is the linear filter of the packets still held |
| `LiveQuery.LiveQueryExactIff` | python/btelem/_native.c:853-926 | the same with packets in any order and empty ones among them: exact for every query if and only if the index passes the two tests |
| `LiveQuery.EmptyPacketLosesRow` | python/btelem/_native.c:885 | packets at 5, empty, at 6: asked for everything from 5 on, the entry at 5 is lost |
| `BtlmFile.WriteBtlm` | viewer/crates/btelem-capture/src/lib.rs:429-458 | the file is header, schema, packets end to end, an index of their stream positions, footer |
| `BtlmFile.ReadBtlm` | viewer/crates/btelem-capture/src/lib.rs:269-337 | the reading loops meet their specification on every file, errors included |
| `BtlmFile.StoredReadsBack` | viewer/crates/btelem-capture/src/lib.rs:269-337 | any file laid out so, by whichever writer, reads back as its schema and packets |
| `BtlmFile.SaveLoadRoundTrip` | viewer/crates/btelem-capture/src/lib.rs:269-337 | reading after saving returns the same schema and packets, whatever their bytes and metadata |
| `FileLayout.StoredIsLaid` | viewer/crates/btelem-capture/src/lib.rs:429-458 | the bytes of a stored file, position by position: BTLM, version 1, schema, packets, index entries of 28 bytes, footer ending in BTLI |
| `FileLayout.LoadedIsGenuine` | viewer/crates/btelem-capture/src/lib.rs:269-337 | whatever bytes load have that header and footer, and each packet loaded is the slice from its index offset to the next |
| `LogFile.BuildPacket` | python/btelem/storage.py:85-100 | the Python builder yields the bytes of the packed drain, and raises exactly when a field is too narrow |
| `LogFile.LogWriter.constructor` | python/btelem/storage.py:110-117 | a new file holds header and schema |
| `LogFile.LogWriter.WritePacket` | python/btelem/storage.py:119-125 | the file stays the packets end to end and the list in memory stays their index |
| `LogFile.LogWriter.Close` | python/btelem/storage.py:134-148 | closing appends exactly that index and its footer |
| `LogFile.LogReadsAsCapture` | viewer/crates/btelem-capture/src/lib.rs:269-337 | the Rust reader recovers schema and packets of every log the Python writer closes |
| `LogFile.BuildIndex` | python/btelem/_native.c:392-440 | the footerless scan loop meets its specification on any bytes and stops where no whole packet begins |
| `LogFile.CutInsideData` | python/btelem/_native.c:392-440 | of a file cut inside its packets the scan rebuilds exactly the writer's index entries of the packets wholly inside |
| `CrashRecovery.PhantomIff` | python/btelem/_native.c:400-408 | behind the packets of a cut file the scan finds one more exactly when a non-empty index is left at least as long as its first bytes announce |
| `CrashRecovery.TruncatedScanMatchesWriter` | python/btelem/_native.c:392-440 | for every closed log and every cut after the schema, index and footer included: the writer's entries of the packets wholly inside come first, and are all there is if and only if there was no packet or no phantom is left |
| `CrashRecovery.PhantomWitness` | python/btelem/storage.py:134-148 | every log with a schema of 65526 bytes and one sixteen-byte packet, cut sixteen bytes into its index, is indexed as more than one packet |
| `CrashRecovery.PhantomFile` | python/btelem/storage.py:134-148 | one such file exists: zeros for the schema, an empty packet |
| `CrashRecovery.OpenIndex` | python/btelem/_native.c:505-528 | an opened file gets the footer's index, or else the scan's |
| `CrashRecovery.IntactLogOpens` | python/btelem/_native.c:505-528 | an intact log opens with the writer's index |
| `CrashRecovery.CutLogOpens` | python/btelem/_native.c:505-528 | a log cut anywhere after its schema, unless the cut leaves a footer, opens with an index of the verdict above, and the sequential read meets the packets wholly inside first and a further one exactly when the scan does |
| `CrashRecovery.FooterInPayload` | python/btelem/_native.c:505-528 | a log whose packet ends in a payload shaped as a footer for an empty index, cut behind it, opens with no packets |
| `PyDecoder.DecodePy` | python/btelem/decoder.py:47-93 | the lenient Python decoder: empty on runts, raising exactly on a cut table or a wanted entry whose fields do not decode, clamped payloads, id filter |
| `PyDecoder.DecodersAgree` | python/btelem/decoder.py:47-93 | wherever the Rust decoder succeeds, Python yields the same entries less the filtered ones and the same drop count, or raises exactly when the fields of a wanted one do not decode |
| `PyDecoder.DecodedExactly` | python/btelem/decoder.py:66-93 | what comes out of a packet are the rows whose id is in the set asked for, each once and in order |
| `PyDecoder.PayloadClamped` | python/btelem/decoder.py:76 | a payload is what the packet holds of the bytes its row announces |
| `LogReader.EntriesSequential` | python/btelem/storage.py:228-255 | the sequential read decodes the packets met walking to the end of the data, up to the first that raises |
| `LogReader.EntriesIndexed` | python/btelem/storage.py:257-285 | the indexed read yields each index entry's contribution in order, up to the first entry that raises |
| `LogReader.TryLoadIndex` | python/btelem/storage.py:287-320 | the footer is taken only when magic and size agree |
| `LogReader.SkippedIsEmpty` | python/btelem/storage.py:266-271 | skipping a packet by its metadata loses no entry in the range |
| `LogReader.FooterRoundTrip` | python/btelem/storage.py:287-320 | the footer of a closed log gives back exactly the writer's index and the data end |
| `LogReader.IndexedEqualsFilteredSequential` | python/btelem/storage.py:228-320 | in every closed log of self-delimiting packets an indexed time-range read contributes the time-filtered sequential read, in whatever order packets and timestamps are, and raises exactly on packets neither skipped nor decodable |
| `LogReader.RangeReadExactly` | python/btelem/storage.py:257-285 | a range read of a closed log yields an entry as often as its packets do if ts_min <= timestamp <= ts_max, ends included, and not at all otherwise |
| `Framing.CutContinues` | python/btelem/decoder.py:113-137 | for any bytes, cutting frames off what is left plus the next chunk continues the cutting of the whole |
| `Framing.CutsWholeFrames` | python/btelem/decoder.py:113-137 | any prefix of a framed stream is cut into exactly its whole frames, the incomplete tail left over |
| `StreamDecoder.PacketDecoder.Feed` | python/btelem/decoder.py:113-137 | one call decodes exactly the frames completed by its data and keeps the rest; on a raise the bad packet, the drops counted and the bytes kept |
| `StreamDecoder.PacketDecoder.TakeFrame` | python/btelem/decoder.py:118-131 | a whole frame leaves the buffer, an oversized length empties it, an incomplete one stays |
| `StreamDecoder.PacketDecoder.Reset` | python/btelem/decoder.py:139-141 | the buffer is emptied |
| `StreamDecoder.ChunkingIsIrrelevant` | python/btelem/decoder.py:113-137 | every way of chunking a stream without oversized lengths gives what one piece gives |
| `StreamDecoder.StreamDelivered` | python/btelem/decoder.py:113-137 | for all frame lists within the limit and all chunkings of any prefix: the packets are the frames wholly inside, the buffer the incomplete tail |
| `StreamDecoder.FeedAll` | python/btelem/decoder.py:113-137 | successive calls of feed return, end to end, the decoding of the packets fed, and raise exactly when one of these has a cut table or a wanted entry whose fields do not decode |
| `StreamDecoder.ResultsDelivered` | python/btelem/decoder.py:113-137 | for decodable packets no call raises and the concatenated results are the decoding of those frames in order |
| `StreamIngest.CountFrames` | python/btelem/_native.c:967-977 | the first pass finds the number of complete frames and the bytes they take |
| `StreamIngest.AddStream` | python/btelem/_native.c:949-1000 | exactly the complete frames are consumed and the newest min(n, max_pending) ingested in order; a runt stops it there |
| `CaptureRing.Capture.PushPacket` | viewer/crates/btelem-capture/src/lib.rs:180-191 | after every push the queue is the longest suffix of accepted packets that fits the budget, bytes its total size, total = retained + dropped |
| `CaptureRing.Capture.EvictToFit` | viewer/crates/btelem-capture/src/lib.rs:124-132 | eviction drops only what had to go |
| `CaptureRing.Capture.Clear` | viewer/crates/btelem-capture/src/lib.rs:115-122 | clear starts a fresh account |
| `CaptureRing.Capture.SetSchema` | viewer/crates/btelem-capture/src/lib.rs:161-169 | reports whether a different schema was replaced, and touches nothing else |
| `CaptureRing.Capture.Save` | viewer/crates/btelem-capture/src/lib.rs:229-244 | fails exactly without a schema; the file reads back as schema and retained packets |
| `CaptureRing.LongestFitUnique` | viewer/crates/btelem-capture/src/lib.rs:124-132 | the retained queue is determined by the accepted packets and the budget alone |
| `CaptureRing.OversizedEmptiesQueue` | viewer/crates/btelem-capture/src/lib.rs:124-132 | a packet larger than the budget empties the queue, itself included |
| `SchemaRegistry.Registry.Register` | src/btelem.c:43-57 | registration refuses exactly null entries, ids beyond the table and oversized payloads, and files the rest under their id |
| `SchemaRegistry.Serialize` | src/btelem.c:210-335 | size query, refusal of short buffers, and exactly the schema bytes with nothing beyond them touched |
| `SchemaRegistry.Stream` | src/btelem.c:402-491 | the pieces offered are exactly the pieces of the same bytes in order, up to and including the first one refused |
| `SchemaWriter.StoreEntry` | src/btelem.c:341-362 | the entry struct filled in place in zeroed memory is its wire form, strings cut and terminated, at most 16 fields |
| `SchemaWriter.StoreEnum` | src/btelem.c:364-380 | the same for enum labels, missing labels left empty |
| `SchemaWriter.StoreBitfield` | src/btelem.c:382-400 | the same for the three parallel bit arrays filled side by side |
| `SchemaWire.SchemaSize` | src/btelem.c:237-246 | the size formula is the length of the wire form |
| `SchemaDecoder.DecodeSchema` | viewer/crates/btelem-wire/src/schema.rs:99-145 | the decoding loops meet their specification on all byte strings, optional sections and first error included |
| `SchemaRoundTrip.TextReadsBack` | viewer/crates/btelem-wire/src/lib.rs:136-143 | a padded string reads back cut to its array |
| `SchemaRoundTrip.EntryReadsBack` | viewer/crates/btelem-wire/src/schema.rs:168-202 | an entry reads back up to truncation, or is refused exactly for more than 16 fields or an unknown type |
| `SchemaRoundTrip.EnumReadsBack` | viewer/crates/btelem-wire/src/schema.rs:204-223 | enum labels read back, at most 64 of at most 31 bytes |
| `SchemaRoundTrip.BitfieldReadsBack` | viewer/crates/btelem-wire/src/schema.rs:225-246 | bits read back, at most 32 |
| `SchemaRoundTrip.SchemaRoundTrip` | viewer/crates/btelem-wire/src/schema.rs:99-246 | decoding a serialised ASCII registry succeeds if and only if it is little-endian and every entry has at most 16 fields of known types, and then recovers all entries, labels and bits up to the truncations |
| `SchemaMeaning.KindsAccepted` | viewer/crates/btelem-wire/src/schema.rs:27-47 | a field decodes if and only if its type code is at most 14 |
| `SchemaMeaning.FieldsLookUp` | viewer/crates/btelem-wire/src/schema.rs:148-165 | in every decoded registry a field has labels exactly when its type code is 12 and bits exactly when it is 13 and they were registered, up to 64 labels or 32 bits of 31 bytes |
| `SchemaMeaning.SampleDecodes` | viewer/crates/btelem-wire/src/schema.rs:99-246 | a registry with one enum and one bitfield decodes to those labels and bits |
| `SchemaInside.TextExactly` | viewer/crates/btelem-wire/src/lib.rs:136-143 | a string is read if and only if its array lies in the bytes and what precedes the first zero is valid UTF-8 |
| `SchemaInside.DecodedFits` | viewer/crates/btelem-wire/src/schema.rs:99-246 | for all bytes: everything in a decoded schema is what the bytes hold at the offsets of the format, inside them, and a missing section is empty |
| `SchemaLookup.EntryFound` | viewer/crates/btelem-wire/src/schema.rs:148-150 | lookup by id finds the registered entry or nothing |
| `SchemaLookup.LabelsFound` | viewer/crates/btelem-wire/src/schema.rs:153-158 | lookup by id and field finds exactly the registered labels |
| `SchemaLookup.BitfieldFound` | viewer/crates/btelem-wire/src/schema.rs:161-165 | lookup by id and field finds exactly the registered bits |
| `StateStore.Store.AddState` | viewer/crates/btelem-store/src/mock.rs:70-85 | a new channel with an empty log |
| `StateStore.Store.PushState` | viewer/crates/btelem-store/src/mock.rs:127-152 | the runs stay the run-length form of the channel's observation log; unknown channels change nothing |
| `StateStore.Store.Clear` | viewer/crates/btelem-store/src/mock.rs:391-399 | every channel goes and the revision moves once |
| `StateStore.RunsAreTidy` | viewer/crates/btelem-store/src/mock.rs:127-152 | for every ordered log adjacent runs abut and differ in value |
| `StateStore.RunsMeanTheLog` | viewer/crates/btelem-store/src/mock.rs:127-152 | at every time the runs give the last observation made by then |
| `StateStore.SampleAtIsValueAt` | viewer/crates/btelem-store/src/mock.rs:342-362 | sample_at gives the last observation at or before t, for exactly the timestamps below the largest one |
| `StateStore.QueryStateRefinesLog` | viewer/crates/btelem-store/src/mock.rs:279-316 | inside the window the last reported run started by t has the value of the log at t |
| `StateStore.QueryStateIsComplete` | viewer/crates/btelem-store/src/mock.rs:279-316 | a stored run is reported if and only if it meets the window, the last one held forward |
| `ScalarStore.WindowIsExact` | viewer/crates/btelem-store/src/mock.rs:211-215 | the two partition points cut out exactly the samples in [t0, t1) |
| `ScalarStore.IndexInRange` | viewer/crates/btelem-store/src/mock.rs:226-236 | every sample of the window falls into a bucket numbered below max_buckets |
| `ScalarStore.IndexIsQuotient` | viewer/crates/btelem-store/src/mock.rs:226-236 | the bucket number is the integer quotient (t - t0) * max_buckets / (t1 - t0) |
| `ScalarStore.ShareBucketIff` | viewer/crates/btelem-store/src/mock.rs:225-251 | two samples share a bucket if and only if these quotients are equal |
| `ScalarStore.Downsample` | viewer/crates/btelem-store/src/mock.rs:225-251 | the loop yields one bucket per occupied time bucket, with its first time and exact extremes |
| `ScalarStore.QueryScalar` | viewer/crates/btelem-store/src/mock.rs:197-252 | at most max_buckets consecutive non-empty groups covering the window |
| `ScalarStore.EnvelopeKept` | viewer/crates/btelem-store/src/mock.rs:197-252 | every sample lies between the extremes of its bucket |
| `ScalarStore.ExtremesAttained` | viewer/crates/btelem-store/src/mock.rs:197-252 | each extreme is a sample of its group |
| `ScalarStore.StrideFits` | viewer/crates/btelem-store/src/mock.rs:275 | rounding the stride up keeps the result within max_samples |
| `ScalarStore.QueryRaw` | viewer/crates/btelem-store/src/mock.rs:254-277 | every stride-th sample of the window, with the smallest stride that gives no more than max_samples |
| `RowTruncation.FirstPerBucket` | viewer/crates/btelem-viewer/src/plot_renderers.rs:464-474 | exactly the first row of each occupied bucket is kept, numbers below n |
| `RowTruncation.BucketIs` | viewer/crates/btelem-viewer/src/plot_renderers.rs:464-474 | bucket b is the b-th of n equal parts of the time from the first row to the last |
| `RowTruncation.SampleEvenOverTime` | viewer/crates/btelem-viewer/src/plot_renderers.rs:448-475 | everything that fits; else at one instant every stride-th row with the smallest stride, over a span exactly the first row of each bucket; and how many that is |
| `RowTruncation.FillsIff` | viewer/crates/btelem-viewer/src/plot_renderers.rs:448-475 | sampling keeps n of more rows if and only if, at one instant, the rounded-up stride takes n steps, or over a span every time bucket holds a row |
| `RowTruncation.BoundaryExists` | viewer/crates/btelem-viewer/src/plot_renderers.rs:511-527 | more rows than the budget have a score at which they begin to exceed it |
| `RowTruncation.BoundaryUnique` | viewer/crates/btelem-viewer/src/plot_renderers.rs:511-527 | and only one |
| `RowTruncation.ScoreIs` | viewer/crates/btelem-viewer/src/plot_renderers.rs:503-510 | the score is the cell cut to a whole number toward zero and held inside 64 bits, the least without a cell |
| `RowTruncation.TruncateRows` | viewer/crates/btelem-viewer/src/plot_renderers.rs:485-530 | sorted by time, rows of one time by descending score: every row above some level and an even sample of the rows at it, so that a kept row means keeping every row whose cell is larger by one; the budget is met if and only if sampling fills it, or with a priority column the rows of the boundary score fill the room left |
| `RowTruncation.BudgetMissed` | viewer/crates/btelem-viewer/src/plot_renderers.rs:477-530 | two inputs of four rows for which truncation to three returns two, and one of six rows for which it returns three |
| `RowTruncation.HigherScoresKept` | viewer/crates/btelem-viewer/src/plot_renderers.rs:485-530 | keeping a row of some score means keeping every row of every higher score |
| `Bitfields.ExtractionsAgree` | viewer/crates/btelem-ingest/src/mapper.rs:119-124 | mask-then-shift (Rust) = shift-then-mask (Python, C) = floor(raw / 2^start) mod 2^width |
| `Bitfields.MaskFits` | src/btelem_serve_udp.c:146-147 | inside the word the shifted mask overflows neither 32-bit nor 64-bit arithmetic |
| `Bitfields.AssembleWord` | viewer/crates/btelem-ingest/src/mapper.rs:113-116 | or-ing the shifted bytes reads the little-endian word |
| `Bitfields.DispatchBitfield` | viewer/crates/btelem-ingest/src/mapper.rs:102-125 | the word, if it has a channel, and the value of each sub-field are pushed, or nothing when the payload is short |
| `Bitfields.TilingRebuildsWord` | python/btelem/schema.py:143-158 | sub-fields that tile the word, declared in any order, rebuild it |

## Left out

- Weak-memory reordering of acquire and release accesses, and 64-bit wrap of the head: outside a sequentially consistent step model with an unbounded head.
- src/btelem_serve.c apart from the calls of its drain loop, the sending half of src/btelem_serve_udp.c, viewer/crates/btelem-ingest/src/tcp.rs, python/btelem/transport.py: sockets, timeouts, threads and reconnect policy.
- Python C-API, numpy allocation, allocation failure, mmap and file handles: buffers and files are byte sequences.
- Egui panels, layout and view state of the viewer, apart from the two row-sampling functions.
- Floating-point rounding, NaN and lossy UTF-8 decoding: reals and a validity parameter stand in.
- python/btelem/schema.py serialisation and the field values of a decoded entry: they repeat the schema codec or decode one field at a time; whether the fields of an entry decode is a parameter.
- Scalar interpolation in `sample_at`, text channels and `time_bounds`: one-line definitions.
- Null-pointer and client-number checks of the drain functions, and the search for a free client slot: a client is an object here.
- LogFile.LogWriter.WritePacket: also refuses a packet of 2 to 15 bytes whose first two bytes are zero, which the Python writer records as an empty packet.
- LiveCapture.LiveCapture.Ingest: a packet at least as long as a header must hold the table it announces, because the C code reads that table without checking.
- StreamIngest.AddStream: the same demand on each complete frame; and the packets of the second pass are listed before they are ingested, where the C code ingests each as it walks.
- SchemaRegistry.Serialize: demands non-null labels when it writes, as the C code passes each label to strncpy; the walk over slots and fields is made once and kept as lists, where the C code repeats it per section.
- LogReader.IndexedEqualsFilteredSequential: for packets whose header announces their own length; others cannot be walked sequentially.
- Bitfields.DispatchBitfield: storage of at most eight bytes and shift amounts below 64, as Rust's 64-bit shifts demand.
