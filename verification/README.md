# Breezedude ground station: verified models

Dafny models of the ground station firmware's algorithms, with proofs of what they
promise. `dafny verify dfyconfig.toml` checks everything.

Each part has a specification on values (functions and state machines over whole runs)
and, where the firmware changes things in place, a class or methods with the same loops
and branches, proved to follow the specification. Values that come from outside (clocks,
sockets, radio packets, what a read from a stream gives) are arbitrary. Power may fail
behind any flash or NVS operation; a single operation happens or does not. Digests and
checksums of stored data are uninterpreted functions.

## The parts

**Websocket fan-out** (`WsFrames`, `WsHub`, `WsDelivery`, `WsMembers`, `WsWindow`,
`WsCounters`, `WsRing`, `WsOut`, `WsSockets`, `WsTurns`, `WsPass`).
Two byte rings with free-running 32-bit positions and seven clients. `WsHub` is a queue of
frames per ring, one step per locked section; `WsRing` and `WsOut` are the byte rings and
the client table, shown to refine it byte by byte; `WsDelivery` tells the story of one
client from what can be watched and proves the promise of the source's header: nothing is
lost without the client knowing. `WsMembers`, `WsWindow` and `WsCounters` say who is
connected, which frames are still there and what the counters count. `WsPass` is the job that serves the sockets, with
the sections of other tasks between its own, and a log of what it does with the sockets.

**Flash image store** (`NorFlash`, `FwHeaders`, `FwCatalog`, `FwScan`, `FwCalls`,
`FwRuns`, `FwRecency`, `FwStore`). The flash represents a catalogue of images. Every elementary
operation changes the catalogue in the one intended way, so every call cut anywhere does;
`FwRecency` ties the last-use stamps to the events of a run;
the drivers in `FwStore` log every operation, and its methods are proved to log exactly
the traces proved safe.

**Flash layout migration** (`MigrateFlash`, `MigrateBoot`, `Migrate`, `MigrateRuns`,
`MigrateEnd`, `MigrateStation`). Both older layouts, as erase and write operations on one
flash, with what the bootloader reads from otadata. Any number of power cuts before the
table write leaves the station booting the whole image, and the end is the same. The code
logs its changes and is proved to make those of the plan in that order.

**Repeater statistics** (`RepeatBook`, `RepeatFrames`, `RepeatLaws`, `RepeatRuns`,
`RepeatTiming`, `RepeatAccounts`, `RepeatDirect`, `RepeatEvicted`, `RepeatTable`). Packets,
late copies and sender entries as a book; conservation over whole runs; what an entry says
of its sender, told from the reports; the fixed arrays and the event ring of the source
refine it.

**Radio time sharing** (`Scheduler`, `SchedulerRuns`). The scheduler tick, the time the
radio task may sleep, and timing bounds over all runs whose ticks are at most 460 ms late.

**Slot histories** (`StatsWindow`, `Stats`, `Reception`). A ring of time slots refines a
plain tally of events.

**Upload** (`Upload`). The streaming search for the multipart delimiter (section 5.1.1 of
RFC 2046) gives the same payload however the body is cut into receives.

**Codecs** (`ShiftRegister`, `WordBits`, `AdslCrc`, `FlarmCrc`, `Xxtea`, `Codes`). Both
CRCs as one theory of remainders in a shift register, the block cipher as an invertible
loop for any mixing function and its own mixing bit by bit, the variable-resolution numbers, and positions rebuilt from
their low bits.

**Sensor updates** (`OtaTransfer`, `OtaPreload`, `OtaStream`, `OtaSession`). Download into
the store, transfer of a stored image in acknowledged chunks with a log of all attempts,
and both together.

## Where the code does less than it seems to

Each of these is proved with the exact condition, or with a concrete case beside the
condition under which it holds.

- The last write of an upload without a delimiter is not checked. Such a part is cut short
  unnoticed exactly if it exceeds the space by at most the bytes held back, two more than
  the delimiter has (`Upload.CutShortExact`, `Upload.CutShort`); only an upload of which
  nothing was written is turned down behind the loop.
- The mean repeater delay is the quotient of a 32-bit sum, which wraps: the mean of n delays
  of at most D is in range, for all of them, exactly if n times D is below 2^32
  (`RepeatTiming.MeanExact`, `RepeatTiming.MinutesWrap`).
- `nDirect` of a sender falls behind when its entry was given up before a late copy. It does
  not while the entry is kept, so never with at most sixteen senders
  (`RepeatDirect.AllDirectCounted`, `RepeatDirect.FewSendersCounted`,
  `RepeatEvicted.EvictedFallsBehind`).
- The last-use stamps come from a 32-bit counter. When it wraps, the image just used counts
  as the oldest (`FwRecency.JustUsedIsNewest`).
- An image size above 2^32 - 4352 wraps to one sector or none; with none, begin() finds its
  place behind the first used sector (`FwHeaders.SectorsForExact`, `FwScan.NothingNeeded`).
  The caller never asks for such a size (`OtaSession.AdmittedSizeOk`).
- Times are compared in 32 bits, which is right exactly while ages are less than 2^31 ms
  apart (`RepeatTiming.OlderExact`).
- The sleep computed before an ADS-L window can end up to 550 ms late once the cycle's
  second has come, not 340 (`SchedulerRuns.AdslSleepExact`, `SchedulerRuns.AdslOversleeps`);
  and a sleep of 1 ms that starts in the last millisecond of a FLARM slot ends without
  opening the window (`SchedulerRuns.FlarmSleepExact`).
- Chunk numbers have 16 bits: an image of more than 65536 chunks repeats them, and behind
  packet 65535 any acknowledgement is taken (`OtaTransfer.NumbersExact`,
  `OtaTransfer.AckMeaning`).
- Attempts of the migration are counted in 32 bits in memory that outlives restarts. At most
  three are made in a power cycle exactly if the counter does not come round to three again,
  which takes a start with the magic word and a nearly full counter by chance, or 2^32
  restarts (`MigrateStation.AtMostThree`, `MigrateStation.FourTries`).

## Model

| member | source | states |
|---|---|---|
| `WsDelivery.Delivery` | components/bdgs/web/bd_ws_out.cpp:96-162 | In every run of locked sections each connected client has taken, per ring and in order, exactly the accepted frames since it connected that are for it or for all, up to where it got, minus those evicted before it read them |
| `WsDelivery.NothingLostSilently` | components/bdgs/web/bd_ws_out.cpp:104-107 | In every run a connected client takes the resync message next if and only if, since its last one, it lost a frame of its own or a frame was dropped before the rings |
| `WsDelivery.RepliesFirst` | components/bdgs/web/bd_ws_out.cpp:131-162 | Resync goes first, then the status asked for, then replies in order, and an event only when no reply for the client is left |
| `WsDelivery.StalledSinceFirst` | components/bdgs/web/bd_ws_out.cpp:211-253 | The time a stall is measured from is the first at which the socket was found full since the client was last served |
| `WsDelivery.Conservation` | components/bdgs/web/bd_ws_out.cpp:96-162 | Frames accepted for a client = taken + lost + still pending, per ring, in every run |
| `WsDelivery.LogIsAccepted` | components/bdgs/web/bd_ws_out.cpp:313-327 | What the rings ever held is exactly what broadcasts, and replies to connected sockets, put in |
| `WsDelivery.ReusedSocketStartsFresh` | components/bdgs/web/bd_ws_out.cpp:275-290 | A socket that connects, its number used before or not, starts at the frames accepted from then on, so it never gets an older client's reply |
| `WsDelivery.TakeNothing` | components/bdgs/web/bd_ws_out.cpp:131-162 | Nothing is taken if and only if no resync and no status is due and no frame left in either ring is for the client |
| `WsWindow.MoreExact` | components/bdgs/web/bd_ws_out.cpp:164-166 | Without more to send nothing is taken, and once nothing is taken there is no more |
| `WsWindow.ForWhom` | components/bdgs/web/bd_ws_out.cpp:313-327 | What a broadcast puts in is for every client, what a reply puts in for the one it answers, with its text |
| `WsWindow.OverdueExact` | components/bdgs/web/bd_ws_out.cpp:211-222 | In every run a client is given up on if and only if its socket has been full for more than 30 s since it was first found full |
| `WsDelivery.StoryHolds` | components/bdgs/web/bd_ws_out.cpp:96-162 | The story of a client told from what can be watched agrees with its ring positions after every run |
| `WsHub.StepKeepsInv` | components/bdgs/web/bd_ws_out.cpp:82-359 | Every locked section keeps both queues within their bytes, every used client inside its rings, and socket numbers apart |
| `WsHub.ConnectExact` | components/bdgs/web/bd_ws_out.cpp:275-290 | Behind a connect the socket is connected if and only if it was or an entry was free; exactly one entry changed, its old one or the first free one, with no marks and both positions at the ends of the logs |
| `WsMembers.ConnectedAreMembers` | components/bdgs/web/bd_ws_out.cpp:275-298 | In every run exactly those sockets are connected that came while fewer than seven were, and have not been removed since |
| `WsCounters.CounterIsTotal` | components/bdgs/web/bd_ws_out.cpp:96-110 | In every run the 32-bit counters are those of the frames lost, one for each client that had not read its frame, of the resync messages taken and of the texts too long |
| `WsHub.MakeRoom` | components/bdgs/web/bd_ws_out.cpp:112-115 | The eviction loop ends, with room for the frame |
| `WsHub.MakeRoomEffect` | components/bdgs/web/bd_ws_out.cpp:96-115 | Making room evicts no frame more than needed, and moves and flags a client exactly for the frames it had not read |
| `WsWindow.KeptExactly` | components/bdgs/web/bd_ws_out.cpp:96-119 | In every run a frame accepted is still there if and only if the bytes from it on fit into its ring, 4 KB of replies or 16 KB of events |
| `WsFrames.ParseWindow` | components/bdgs/web/bd_ws_out.cpp:40-50 | The bytes of the frames in a window parse into exactly those frames, each of 1 to 3072 bytes |
| `WsFrames.HeadRoundTrip` | components/bdgs/web/bd_ws_out.cpp:40-43 | Length and socket survive the four bytes of a frame head, the broadcast mark included |
| `WsRing.ByteRing.Put` | components/bdgs/web/bd_ws_out.cpp:82-87 | Bytes put at a position go round the end of the buffer; every other cell stays |
| `WsRing.ByteRing.GetStream` | components/bdgs/web/bd_ws_out.cpp:89-94 | Reading at a wrapped position inside the window gives that part of the stream of all bytes ever put |
| `WsRing.ByteRing.FrameAt` | components/bdgs/web/bd_ws_out.cpp:98-100 | At the position of a frame lie its head and text, and behind them the position of the next frame |
| `WsRing.ByteRing.PutFrame` | components/bdgs/web/bd_ws_out.cpp:116-118 | Head and text of a frame extend the stream by exactly the encoded frame, with the write position wrapped at 32 bits |
| `WsRing.ByteRing.Push` | components/bdgs/web/bd_ws_out.cpp:116-118 | A frame for which there is room joins the queue of frames |
| `WsRing.ByteRing.DropOldest` | components/bdgs/web/bd_ws_out.cpp:109 | Moving the read position takes exactly the oldest frame off the queue |
| `WsRing.ByteRing.Scan` | components/bdgs/web/bd_ws_out.cpp:144-155 | The scan of one ring returns the first frame for this socket and the position behind it, or ends at the write position |
| `WsRing.ByteRing.BytesParse` | components/bdgs/web/bd_ws_out.cpp:45-50 | In every state the bytes from read to write position, read through the mask, parse into exactly the frames not evicted |
| `WsRing.ByteRing.PositionIsFrame` | components/bdgs/web/bd_ws_out.cpp:102-102 | Byte positions tell frames apart, also when the 32-bit counters have wrapped |
| `WsOut.PassedTable` | components/bdgs/web/bd_ws_out.cpp:101-108 | One pass of evict_oldest over the client table is the eviction step of the queue machine, counters included |
| `WsOut.WsServer.PassClients` | components/bdgs/web/bd_ws_out.cpp:101-108 | The loop over the table moves and flags every client at the evicted frame and no other |
| `WsOut.WsServer.EvictOldest` | components/bdgs/web/bd_ws_out.cpp:96-110 | evict_oldest on the byte rings is the eviction step of the queue machine |
| `WsOut.WsServer.FreeUp` | components/bdgs/web/bd_ws_out.cpp:115 | The loop of ring_add is MakeRoom |
| `WsOut.WsServer.RingAdd` | components/bdgs/web/bd_ws_out.cpp:112-119 | ring_add makes room and appends the frame |
| `WsOut.WsServer.TakeFrame` | components/bdgs/web/bd_ws_out.cpp:131-162 | take_frame changes state and returns its message exactly as the Take step does |
| `WsOut.WsServer.ScanRing` | components/bdgs/web/bd_ws_out.cpp:144-155 | Message and new position of one ring |
| `WsOut.WsServer.AddClient` | components/bdgs/web/bd_ws_out.cpp:275-290 | Accepted if and only if the socket is connected already or an entry is free; it takes its old entry, else the first free one, starting at both write positions |
| `WsOut.WsServer.RemoveClient` | components/bdgs/web/bd_ws_out.cpp:292-298 | The entry of the socket is given up |
| `WsOut.WsServer.Broadcast` | components/bdgs/web/bd_ws_out.cpp:313-319 | Nothing for an empty text or without clients, a count for an oversize one, else the frame for all |
| `WsOut.WsServer.Send` | components/bdgs/web/bd_ws_out.cpp:321-327 | A reply is stored only for a connected socket |
| `WsOut.WsServer.RequestStatus` | components/bdgs/web/bd_ws_out.cpp:329-335 | The status mark of the client is set |
| `WsOut.WsServer.NoteDroppedFrame` | components/bdgs/web/bd_ws_out.cpp:350-359 | Every connected client has to resync |
| `WsOut.WsServer.NoteStalled` | components/bdgs/web/bd_ws_out.cpp:211-226 | The start of a stall is noted once; given up exactly after 30 s |
| `WsOut.WsServer.NoteServed` | components/bdgs/web/bd_ws_out.cpp:247-253 | The stall ends unless the socket is still full; more work if and only if the client is still there, can take more and has something left |
| `WsOut.WsServer.BytesAreQueues` | components/bdgs/web/bd_ws_out.cpp:45-50 | The bytes of both rings parse into exactly the frames of the queue machine |
| `WsTurns.NextStep` | components/bdgs/web/bd_ws_out.cpp:131-162 | A section of a run that takes a message hands just this one on to its socket; the others hand on nothing |
| `WsPass.TakeAndSend` | components/bdgs/web/bd_ws_out.cpp:229-240 | One frame is taken, behind whatever other tasks did, and given to the socket it is for |
| `WsPass.CloseClient` | components/bdgs/web/bd_ws_out.cpp:180-187 | The client is removed and its socket closed, both or neither |
| `WsPass.SendFrames` | components/bdgs/web/bd_ws_out.cpp:228-241 | A writable client gets frames until a send fails, its socket is full, nothing is left for it, or it had eight; its socket is asked behind every send that worked |
| `WsPass.Wait` | components/bdgs/web/bd_ws_out.cpp:211-226 | A client with a full socket gets nothing, and is closed exactly if that has lasted more than 30 s |
| `WsPass.ServeClient` | components/bdgs/web/bd_ws_out.cpp:210-253 | One client of a pass is fed or put off, no other socket is touched, and more is due exactly if it can take more and has some |
| `WsPass.Pending` | components/bdgs/web/bd_ws_out.cpp:200-206 | The sockets of exactly the clients with something to send, each once |
| `WsPass.SendPass` | components/bdgs/web/bd_ws_out.cpp:197-256 | Whatever sockets, clock and other tasks do: every client with something to send is fed or put off, no other socket is touched, the messages taken are those given to the sockets, in order, clients go only with their sockets closed, and the pass comes again exactly if a client that can take more has some left |
| `WsTurns.ConnectedGotAll` | components/bdgs/web/bd_ws_out.cpp:233-246 | A client still connected behind a pass was sent every message the pass took for it |
| `WsTurns.AtMostEight` | components/bdgs/web/bd_ws_out.cpp:228 | No client gets more than eight messages in a pass |
| `NorFlash.WriteOnBlank` | components/bdgs/storage/bd_fwstore.cpp:219-224 | On erased flash a write that can only clear bits stores the data |
| `FwHeaders.DecodeEncode` | components/bdgs/storage/bd_fwstore.cpp:32-40 | A header read back from its 96 bytes is the one written |
| `FwHeaders.NameFieldMeaning` | components/bdgs/storage/bd_fwstore.cpp:241 | The name field holds the characters before the first zero of the name, cut to leave room for one, and zeros behind |
| `FwHeaders.SectorsForExact` | components/bdgs/storage/bd_fwstore.cpp:54 | The sectors computed in 32 bits hold header and image if and only if the size does not wrap; then with less than a sector to spare |
| `FwCatalog.TablesOk` | partitions_8mb.csv:8-16 | The store partitions of both tables are disjoint and on the chip |
| `FwCatalog.BlankIsEmpty` | components/bdgs/storage/bd_fwstore.cpp:65-82 | An erased chip holds no image |
| `FwCatalog.DropKeeps` | components/bdgs/storage/bd_fwstore.cpp:116-120 | Clearing the magic drops exactly that image |
| `FwCatalog.EraseKeeps` | components/bdgs/storage/bd_fwstore.cpp:211 | Erasing a sector no image reaches into changes nothing in the catalogue |
| `FwCatalog.ProgramKeeps` | components/bdgs/storage/bd_fwstore.cpp:219-224 | Appending data to an unfinished image changes nothing in the catalogue, as long as no later sector of it reads as a whole valid header |
| `FwCatalog.PublishKeeps` | components/bdgs/storage/bd_fwstore.cpp:234-249 | Writing the header makes exactly this image findable, with all the data appended, and changes no other |
| `FwScan.ScanExact` | components/bdgs/storage/bd_fwstore.cpp:65-82 | scan() lists exactly the images of the catalogue |
| `FwScan.FreeRunMeaning` | components/bdgs/storage/bd_fwstore.cpp:165-185 | A run found is free and inside one partition; none is found only if no partition has one that long |
| `FwScan.NoRoomMeansTooLarge` | components/bdgs/storage/bd_fwstore.cpp:194-197 | With nothing stored, no room means that every partition is too small |
| `FwScan.NothingNeeded` | components/bdgs/storage/bd_fwstore.cpp:165-185 | When the size has wrapped to no sectors, the place found is the one behind the first used sector of a partition, and none only if all are free |
| `FwScan.OldestOf` | components/bdgs/storage/bd_fwstore.cpp:198-206 | The entry dropped next is the first with the smallest last-use stamp |
| `FwCalls.BeginSafe` | components/bdgs/storage/bd_fwstore.cpp:187-217 | begin() is safe at every cut; it ends with a blank place clear of every kept image, or with an empty store whose every partition is too small |
| `FwCalls.LeastRecentlyUsedGoes` | components/bdgs/storage/bd_fwstore.cpp:193-209 | Each image dropped has the smallest stamp of those left, for any stamps, and none goes once there is room |
| `FwRecency.EventNotes` | components/bdgs/storage/bd_fwstore.cpp:145-254 | The last use of an image is the last event in which a find returned it or a finish stored it, cut or not; only dropping it ends that |
| `FwRecency.StampsAreInOrder` | components/bdgs/storage/bd_fwstore.cpp:99-113 | In every run of calls and cuts, as long as the counter cannot have wrapped, the stamps are in the order of the events that last found or stored the images |
| `FwRecency.JustUsedIsNewest` | components/bdgs/storage/bd_fwstore.cpp:99-113 | An image just found or stored has a greater stamp than every other, if and only if the counter has not wrapped just then |
| `FwRecency.LongestUnusedGoes` | components/bdgs/storage/bd_fwstore.cpp:193-209 | After every such run a begin drops the image whose last find or finish is the longest ago among those left, and none once there is room |
| `FwCalls.SafePrefix` | components/bdgs/storage/bd_fwstore.cpp:116-254 | Behind any prefix of a safe sequence of operations the flash shows the catalogue it should |
| `FwRuns.FindExact` | components/bdgs/storage/bd_fwstore.cpp:145-162 | find() returns an image with the digest and size asked for, or there is none; it drops only images whose data no longer matches |
| `FwRuns.WriteFitsExact` | components/bdgs/storage/bd_fwstore.cpp:219-224 | write() accepts data exactly while the image has room for it |
| `FwRuns.FinishSafe` | components/bdgs/storage/bd_fwstore.cpp:226-254 | finish() does nothing unless all data is there with the right digest; then the image is findable with exactly those bytes |
| `FwRuns.EventKeepsInv` | components/bdgs/storage/bd_fwstore.cpp:145-254 | Every call, whole or cut behind any operation, leaves flash and catalogue in step |
| `FwRuns.ScanAfterAnyRun` | components/bdgs/storage/bd_fwstore.cpp:65-254 | After every run of calls and power cuts the next scan finds exactly the images finished and not dropped, disjoint and with their bytes, and never an unfinished one |
| `FwRuns.AppendAll` | components/bdgs/storage/bd_fwstore.cpp:219-224 | Data appended in any chunking is the data the writer holds |
| `FwRuns.StoredInAnyChunks` | components/bdgs/storage/bd_fwstore.cpp:187-254 | An image begun, written in any chunks and finished is stored byte for byte |
| `FwStore.FlashStore.Write` | components/bdgs/storage/bd_fwstore.cpp:221 | The driver clears bits and nothing else |
| `FwStore.FlashStore.ScanAll` | components/bdgs/storage/bd_fwstore.cpp:65-82 | The scan loops on the flash array compute the scan of the catalogue proofs |
| `FwStore.FlashStore.ScanPartition` | components/bdgs/storage/bd_fwstore.cpp:69-79 | The loop over one partition |
| `FwStore.FlashStore.MarkUsed` | components/bdgs/storage/bd_fwstore.cpp:168-173 | The marks are exactly the sectors of the partition in use |
| `FwStore.FlashStore.FindFreeRun` | components/bdgs/storage/bd_fwstore.cpp:165-185 | The counting loops find the first run of free sectors |
| `FwStore.FlashStore.OldestEntry` | components/bdgs/storage/bd_fwstore.cpp:198-206 | The search loop for the smallest stamp |
| `FwStore.FlashStore.ClearPlace` | components/bdgs/storage/bd_fwstore.cpp:193-209 | The loop of begin() terminates and logs exactly the drops of its trace, in order |
| `FwStore.FlashStore.Begin` | components/bdgs/storage/bd_fwstore.cpp:187-217 | begin() logs exactly the operations of its trace, in order, for every size |
| `FwStore.FlashStore.WriteData` | components/bdgs/storage/bd_fwstore.cpp:219-224 | write() programs the data behind the earlier ones, or gives the image up |
| `FwStore.FlashStore.Finish` | components/bdgs/storage/bd_fwstore.cpp:226-254 | finish() logs exactly the operations of its trace, header before stamp; a writer given up finishes nothing |
| `FwStore.FlashStore.FindImage` | components/bdgs/storage/bd_fwstore.cpp:145-162 | find() logs exactly the operations of its trace, in order |
| `FwStore.FlashStore.Read` | components/bdgs/storage/bd_fwstore.cpp:256-259 | A read inside a stored image gives that part of its data; any other fails, also one that ends inside it only in 32 bits |
| `MigrateFlash.RerunSame` | components/bdgs/core/bd_migrate.cpp:25-30 | Operations that erase every byte before they write it end alike when started over from a cut anywhere |
| `MigrateFlash.OutsideKept` | components/bdgs/core/bd_migrate.cpp:228-239 | What lies outside the sectors named stays |
| `MigrateFlash.CopyStores` | components/bdgs/core/bd_migrate.cpp:262-270 | The chunked copy ends with the image in place |
| `MigrateFlash.CopyRenews` | components/bdgs/core/bd_migrate.cpp:262-270 | The copy touches only the sectors it needs, each first to erase it |
| `MigrateBoot.EntryReads` | components/bdgs/core/bd_migrate.cpp:285-290 | The otadata entry written reads back valid with its number |
| `MigrateBoot.HoldsAgain` | components/bdgs/core/bd_migrate.cpp:183-188 | The same bytes verify in any slot with room for them |
| `MigrateBoot.ErasedChoice` | components/bdgs/core/bd_migrate.cpp:214 | The slot booted stays while the other entry is erased |
| `MigrateBoot.WrittenChoice` | components/bdgs/core/bd_migrate.cpp:214 | With the entry written the other slot is booted |
| `Migrate.PrepareShape` | components/bdgs/core/bd_migrate.cpp:241-304 | Preparing the new layout stays inside the old app0 and renews all it touches |
| `Migrate.SlotsAdjacent` | components/bdgs/core/bd_migrate.cpp:68-80 | In every layout otadata lies before the slots, and these behind one another without a gap |
| `Migrate.PlanSparesNvs` | components/bdgs/core/bd_migrate.cpp:37-39 | No operation of any stage comes near the NVS of the old layout, five or thirteen sectors, wherever it is cut |
| `MigrateRuns.MoveCut` | components/bdgs/core/bd_migrate.cpp:193-216 | A move cut before its last operation leaves the running image, the slot booted and the next entry number |
| `MigrateRuns.MoveInterrupted` | components/bdgs/core/bd_migrate.cpp:193-216 | A move that is cut leaves the station ready to start the same move over |
| `MigrateRuns.MoveCompleted` | components/bdgs/core/bd_migrate.cpp:213-215 | A completed move boots the verified copy from the other slot |
| `MigrateEnd.FinishInterrupted` | components/bdgs/core/bd_migrate.cpp:241-308 | A cut anywhere before the table write leaves the station booting the image and ready to start the stage over |
| `MigrateEnd.PrepareDone` | components/bdgs/core/bd_migrate.cpp:262-304 | The preparation leaves image, otadata for the first slot, its image marked as confirmed, and blank NVS room and phy_init |
| `MigrateEnd.FinishCompleted` | components/bdgs/core/bd_migrate.cpp:310-346 | With the new table in force the station boots the image from the first slot |
| `MigrateEnd.StageLowersRank` | components/bdgs/core/bd_migrate.cpp:407-437 | Every completed stage lowers the number of stages left by one |
| `MigrateEnd.CutSame` | components/bdgs/core/bd_migrate.cpp:25-30 | Whatever the cut, the station then boots the image, and where it ends does not change |
| `MigrateEnd.MigrationSafe` | components/bdgs/core/bd_migrate.cpp:25-30 | Under any number of cuts the station boots the whole image, the old NVS is untouched, and in the new layout the flash is what it would have been without a cut |
| `MigrateEnd.EndsInNewLayout` | components/bdgs/core/bd_migrate.cpp:407-437 | The uncut migration ends in the new layout with the image in the first slot |
| `MigrateStation.Station.CopyImage` | components/bdgs/core/bd_migrate.cpp:264-269 | The copy loop logs the erases and writes of the copy, in order, of the image where it lies |
| `MigrateStation.Station.CopySelf` | components/bdgs/core/bd_migrate.cpp:193-216 | copy_self_to_other_slot logs exactly the operations of a move, the copy before the switch |
| `MigrateStation.Station.Prepare` | components/bdgs/core/bd_migrate.cpp:241-308 | prepare_new_layout always fits and verifies, and logs exactly the preparing operations, in order |
| `MigrateStation.Station.Migrate` | components/bdgs/core/bd_migrate.cpp:395-438 | One call logs exactly the changes of the stage planned, note and table write last, and restarts unless the layout is current |
| `MigrateStation.CutOfActs` | components/bdgs/core/bd_migrate.cpp:25-30 | A cut of these logged changes is the cut the proofs about whole runs take |
| `MigrateStation.RtcMemory.Permit` | components/bdgs/core/bd_migrate.cpp:385-393 | Counting attempts in memory that outlives restarts |
| `MigrateStation.AtMostThree` | components/bdgs/core/bd_migrate.cpp:385-393 | However its stages fail, a station tries, and so restarts itself, at most three times in a power cycle: exactly in those cycles in which the 32-bit counter, from what the memory held at first, does not come round to three |
| `MigrateStation.FourTries` | components/bdgs/core/bd_migrate.cpp:385-393 | Magic word and a full counter by chance: four boots try four stages |
| `RepeatRuns.RunBalances` | components/bdgs/radio/bd_repeat.cpp:303-366 | In every run each tracked frame opens a packet, joins an open one or comes late to a reported one; packets ever opened, with time, forward bit and signal of their frame, = reported (each once) + open; the first copies, with delay and signal, = those in reports and open packets; counters hold every frame but those that met a full counter |
| `RepeatRuns.RunHistory` | components/bdgs/radio/bd_repeat.cpp:184-222 | From any point of a run to any later one no report goes away or changes kind, but from direct to both |
| `RepeatRuns.ClosedSame` | components/bdgs/radio/bd_repeat.cpp:224-271 | Closing a packet reports exactly it, with all its frames |
| `RepeatRuns.TakenMore` | components/bdgs/radio/bd_repeat.cpp:317-365 | A frame adds one to the counters, or met a full one, and opens a packet exactly when it says so |
| `RepeatLaws.NotedOk` | components/bdgs/radio/bd_repeat.cpp:303-366 | Noting a frame keeps one entry per sender and, for each, nDelay = both, nCopy = both + repeated, nDirect <= both + direct + plain, and delays between their extremes |
| `RepeatLaws.TickedOk` | components/bdgs/radio/bd_repeat.cpp:273-278 | A tick keeps one entry per sender and its counters consistent |
| `RepeatLaws.ClosedOk` | components/bdgs/radio/bd_repeat.cpp:239-267 | Closing a packet keeps one entry per sender and its counters consistent |
| `RepeatLaws.UpgradedOk` | components/bdgs/radio/bd_repeat.cpp:191-218 | Upgrading a report keeps one entry per sender and its counters consistent |
| `RepeatLaws.WithSourceOk` | components/bdgs/radio/bd_repeat.cpp:95-111 | After source_for the sender has an entry, the only one, at the place returned |
| `RepeatLaws.WithSourceKeeps` | components/bdgs/radio/bd_repeat.cpp:95-111 | An entry the sender had is kept; at most one other is given up |
| `RepeatTiming.OldestSourceGoes` | components/bdgs/radio/bd_repeat.cpp:95-111 | With none free, the entry of the packet longest ago is given up, also across the wrap of the clock, for entries less than 2^31 ms apart |
| `RepeatTiming.FreeSourceFirst` | components/bdgs/radio/bd_repeat.cpp:95-111 | No sender loses its entry while a free one is left |
| `RepeatTiming.OlderExact` | components/bdgs/radio/bd_repeat.cpp:95-111 | The wrapped comparison of times is that of ages exactly while these are less than 2^31 ms apart |
| `RepeatTiming.MatchMeaning` | components/bdgs/radio/bd_repeat.cpp:319-326 | A copy joins the youngest open packet with its key, and none only if there is none |
| `RepeatTiming.LateMeaning` | components/bdgs/radio/bd_repeat.cpp:191-194 | A late copy goes to the newest report that can take it, with nothing older than a minute reported since |
| `RepeatTiming.SlotMeaning` | components/bdgs/radio/bd_repeat.cpp:339-347 | A new packet takes the first free slot, else the oldest packet's |
| `RepeatTiming.TickedExact` | components/bdgs/radio/bd_repeat.cpp:273-278 | A tick closes exactly the packets that are due |
| `RepeatTiming.SleepExact` | components/bdgs/radio/bd_repeat.cpp:280-290 | The computed sleep is 0 exactly if a packet is due; else an earlier tick does nothing and one at its end closes a packet; never without an open packet |
| `RepeatTiming.JoinDelayExact` | components/bdgs/radio/bd_repeat.cpp:328-332 | The delay of a first copy is kept whole if matching follows its tick within 62 s |
| `RepeatTiming.LateDelayExact` | components/bdgs/radio/bd_repeat.cpp:203-208 | The delay of a late copy is always kept whole |
| `RepeatTiming.MeanExact` | components/bdgs/radio/bd_repeat.cpp:154-158 | The mean of any n delays of at most D lies between the extremes if and only if n times D fits in 32 bits |
| `RepeatTiming.FittingMean` | components/bdgs/radio/bd_repeat.cpp:177-182 | The mean of any entry lies between its extremes if its count times its greatest delay fits in 32 bits |
| `RepeatTiming.MinutesWrap` | components/bdgs/radio/bd_repeat.cpp:177-182 | 71583 delays of a minute do not fit, and their mean is out of range |
| `RepeatDirect.GapSteps` | components/bdgs/radio/bd_repeat.cpp:203-218 | nDirect falls behind by one exactly when a late copy finds no direct report left in the entry |
| `RepeatAccounts.KindsFollowBit` | components/bdgs/radio/bd_repeat.cpp:239-245 | In every run, for a sender whose entry was kept: a report without direct reception is repeated if and only if a packet of this sender and type with the forward bit was reported before it since the last reset, else plain |
| `RepeatAccounts.EntryTells` | components/bdgs/radio/bd_repeat.cpp:160-266 | In every run a kept entry has the counts and sums of the reports of its sender since the last reset: all kinds, direct and copied signals, delays with their extremes, further copies, the last packet and the last name |
| `RepeatFrames.HeadRoundTrip` | components/bdgs/radio/bd_repeat.cpp:303-315 | Sender, type, forward bit and name packets of every frame are read back from its bytes; exactly five types are tracked |
| `RepeatFrames.NameMeaning` | components/bdgs/radio/bd_repeat.cpp:292-297 | A name is the longest printable start of its text of at most twenty characters |
| `RepeatDirect.AllDirectCounted` | components/bdgs/radio/bd_repeat.cpp:203-266 | In every run nDirect = both + direct + plain for each sender whose entry was not given up since the last reset |
| `RepeatDirect.FewSendersCounted` | components/bdgs/radio/bd_repeat.cpp:95-111 | nDirect = both + direct + plain for every entry, in every run with at most sixteen senders |
| `RepeatEvicted.EvictedFallsBehind` | components/bdgs/radio/bd_repeat.cpp:203-218 | With seventeen senders heard and a late copy of the first packet, nDirect of the first sender is one behind |
| `RepeatTable.RingPut` | components/bdgs/radio/bd_repeat.cpp:263-265 | Storing at the head of the ring appends to the reports it shows |
| `RepeatTable.Table.SourceFor` | components/bdgs/radio/bd_repeat.cpp:95-111 | The search loop of source_for |
| `RepeatTable.Table.ClosePacket` | components/bdgs/radio/bd_repeat.cpp:224-271 | close_packet on the arrays |
| `RepeatTable.Table.Tick` | components/bdgs/radio/bd_repeat.cpp:273-278 | bd_repeat_tick on the arrays |
| `RepeatTable.Table.Upgrade` | components/bdgs/radio/bd_repeat.cpp:185-222 | upgrade_reported_packet on the arrays |
| `RepeatTable.Table.FindLate` | components/bdgs/radio/bd_repeat.cpp:191-194 | Its search from the newest event back |
| `RepeatTable.Table.Take` | components/bdgs/radio/bd_repeat.cpp:317-365 | Matching and opening |
| `RepeatTable.Table.Note` | components/bdgs/radio/bd_repeat.cpp:303-366 | bd_repeat_note on the arrays is the noting of the book |
| `RepeatTable.Table.NoteName` | components/bdgs/radio/bd_repeat.cpp:292-301 | A printable name goes into the sender's entry |
| `RepeatTable.Table.NextDelayMs` | components/bdgs/radio/bd_repeat.cpp:280-290 | The least time left |
| `RepeatTable.Table.EventsWritten` | components/bdgs/radio/bd_repeat.cpp:384-399 | The events are written oldest first |
| `RepeatTable.Table.Reset` | components/bdgs/radio/bd_repeat.cpp:403-409 | Sources and events are forgotten, open packets kept |
| `SchedulerRuns.RunConsistent` | components/bdgs/radio/bd_radio.cpp:575-628 | In every run whose due ticks are at most 460 ms late, each stay off FANET that is not broken off by switching both protocols off serves the protocol whose turn it is, is on the lower channel until 790 ms behind the second (ADS-L: 460 behind its start) and then on the upper one until 1260 (920), each plus at most the lateness; the next starts at least its period of UTC seconds later, and the turn alternates |
| `SchedulerRuns.AnyStaysCost` | components/bdgs/radio/bd_radio.cpp:253-268 | Any k stays in a row cost FANET at most k times 920 ms plus the lateness |
| `SchedulerRuns.ThreeStays` | components/bdgs/radio/bd_radio.cpp:272-274 | With the profile kept, three stays are spread over 27, 12 or 3 seconds |
| `SchedulerRuns.Alternates` | components/bdgs/radio/bd_radio.cpp:546-548 | With both protocols on, neighbouring stays serve different ones |
| `SchedulerRuns.Stays` | components/bdgs/radio/bd_radio.cpp:578-599 | Entering a window keeps all that: FLARM only within its slot, ADS-L from the cycle's second |
| `SchedulerRuns.MovesHome` | components/bdgs/radio/bd_radio.cpp:613-627 | Leaving a window for FANET, only from its upper channel, keeps all that the runs of the scheduler are proved about |
| `SchedulerRuns.MovesOn` | components/bdgs/radio/bd_radio.cpp:601-611 | So does the step from the lower to the upper channel, not before its time |
| `SchedulerRuns.Parks` | components/bdgs/radio/bd_radio.cpp:486-489 | With neither protocol on the radio goes home to FANET, and schedule and turn stay as before the stay broken off |
| `SchedulerRuns.SleepsSome` | components/bdgs/radio/bd_radio.cpp:634-708 | The computed sleep is never 0 |
| `SchedulerRuns.AwaySleepExact` | components/bdgs/radio/bd_radio.cpp:698-705 | Away from FANET an earlier tick changes nothing, and one at the end of the sleep changes the mode |
| `SchedulerRuns.FlarmSleepExact` | components/bdgs/radio/bd_radio.cpp:683-697 | With FLARM next the same holds, exactly unless the sleep only looks at the clock again or began in the last millisecond of an open slot |
| `SchedulerRuns.AdslSleepExact` | components/bdgs/radio/bd_radio.cpp:683-697 | With ADS-L next the sleep ends at most 340 ms after the first tick that could start it, exactly unless its second has come and the slot of FLARM is over |
| `SchedulerRuns.AdslOversleeps` | components/bdgs/radio/bd_radio.cpp:683-697 | That exception is reachable: ADS-L alone with a window every second sleeps 520 ms past it |
| `SchedulerRuns.SleepingIsTimely` | components/bdgs/radio/bd_radio.cpp:1220-1239 | A radio task that wakes within the slack behind its computed sleep ticks in time |
| `Scheduler.Radio.Tick` | components/bdgs/radio/bd_radio.cpp:481-628 | flarm_scheduler_tick in its normal mode |
| `Scheduler.Radio.NextDelayMs` | components/bdgs/radio/bd_radio.cpp:634-708 | flarm_scheduler_next_delay_ms in its normal mode |
| `StatsWindow.HistoryIsTally` | components/bdgs/core/bd_stats.cpp:82-118 | For every run, entry i of the history is what the events of slot cur - (N-1) + i add up to; skipped slots are zero and a backward clock step loses nothing |
| `StatsWindow.HeadIsLatest` | components/bdgs/core/bd_stats.cpp:104-117 | While the clock stays of one kind an event counts in the largest slot seen so far |
| `StatsWindow.FirstClockRenames` | components/bdgs/core/bd_stats.cpp:94-99 | The first valid clock renames the newest slot and moves none |
| `Stats.SlotRing.Advance` | components/bdgs/core/bd_stats.cpp:83-118 | The ring after advance() shows the moved history, whatever its head position |
| `Stats.SlotRing.Count` | components/bdgs/core/bd_stats.cpp:120-122 | An event counts in the newest slot after the ring was brought up to date |
| `Stats.SlotRing.Write` | components/bdgs/core/bd_stats.cpp:223-237 | The history is read oldest first, brought up to date before |
| `Reception.CounterIsCount` | components/bdgs/core/bd_stats.cpp:142-177 | Every counter of a slot is the number of its events, up to 65535 |
| `Reception.TotalIsSum` | components/bdgs/core/bd_stats.cpp:142-204 | Every sum of a slot, of snr, rssi, noise and WiFi signal, is that of its samples, as many as the counter can count |
| `Reception.WrittenCounters` | components/bdgs/core/bd_stats.cpp:223-257 | Every counter written is the number of events of the slot its entry stands for, up to 65535 |
| `Reception.WrittenTotals` | components/bdgs/core/bd_stats.cpp:223-257 | And every sum written is that of the samples of its slot |
| `Reception.LevelMeaning` | components/bdgs/core/bd_stats.cpp:179-204 | The minimum of noise, and of the WiFi signal, is that of all samples of the slot, the mean lies between it and 0, and the 32-bit sum never overflows |
| `Upload.Find` | components/bdgs/web/bd_http.cpp:431 | The first occurrence of a pattern, and none before it |
| `Upload.SearchTail` | components/bdgs/web/bd_http.cpp:465-493 | Searching only what is held back and the new bytes finds the first delimiter of everything |
| `Upload.Sink.Write` | components/bdgs/web/bd_http.cpp:293-317 | upload_write appends at the write position, or fails past the end |
| `Upload.PassOn` | components/bdgs/web/bd_http.cpp:467-493 | One pass writes up to the delimiter, or all but the bytes that may start one |
| `Upload.DataStep` | components/bdgs/web/bd_http.cpp:461-493 | One receive in the data keeps what was written and held back equal to the part so far |
| `Upload.Receive` | components/bdgs/web/bd_http.cpp:411-499 | For every split of the body into receives: too long a header, no space, or exactly the payload written; without a delimiter it fails exactly if aborted or if the part exceeds the space by more than what is held back |
| `Upload.CutsDoNotMatter` | components/bdgs/web/bd_http.cpp:411-499 | Two splits of one body with its blank line in time fail alike and write the same if they do not fail |
| `Upload.CutShortExact` | components/bdgs/web/bd_http.cpp:484-499 | A part without a delimiter is cut short unnoticed if and only if it exceeds the space, but by no more than what is held back |
| `Upload.CutShort` | components/bdgs/web/bd_http.cpp:496-499 | A few bytes behind the blank line and space for one of them: only that is written and nothing fails, in every split |
| `Upload.HeaderInTimeExact` | components/bdgs/web/bd_http.cpp:429-439 | No split makes the header too long if and only if the blank line ends in time |
| `Xxtea.DecryptEncrypt` | components/bdgs/protocols/flarm.cpp:159-197 | Decryption undoes encryption for any block of two words or more, any mixing function and any number of rounds |
| `Xxtea.EncryptDecrypt` | components/bdgs/protocols/flarm.cpp:159-197 | Encryption undoes decryption, for the same blocks, mixing functions and rounds |
| `Xxtea.BackAgain` | components/bdgs/protocols/flarm.cpp:159-197 | btea with n and then -n, in either order, gives the block back |
| `Xxtea.Injective` | components/bdgs/protocols/flarm.cpp:159-197 | No two blocks encrypt, or decrypt, to the same one |
| `Xxtea.KeylessIsZeroKey` | components/bdgs/protocols/adsl.cpp:66-83 | Decryption without a key is decryption with the zero key |
| `Xxtea.SumIs` | components/bdgs/protocols/flarm.cpp:182 | The sums added up round by round are the product decryption starts from |
| `Xxtea.MxBits` | components/bdgs/protocols/flarm.cpp:162 | The mixing function bit by bit: two pairs shifted against each other and two plain ones, added in twos |
| `Xxtea.KeyIndexBits` | components/bdgs/protocols/flarm.cpp:162-171 | The word of the key is chosen by the low bits of the place, turned over by bits 2 and 3 of the sum |
| `Xxtea.RoundWords` | components/bdgs/protocols/flarm.cpp:171-178 | A round adds to every word the mixture of its neighbours, the one behind still old and the one before already new, round the ends |
| `Xxtea.Forwards` | components/bdgs/protocols/flarm.cpp:165-179 | The upward loops in place |
| `Xxtea.Backwards` | components/bdgs/protocols/flarm.cpp:180-194 | The downward loops in place |
| `Xxtea.Btea` | components/bdgs/protocols/flarm.cpp:159-197 | btea in place, for blocks of either sign of n; nothing for fewer than two words |
| `Xxtea.DecryptKey0` | components/bdgs/protocols/adsl.cpp:70-83 | xxtea_decrypt_key0 is the general decryption with the zero key |
| `ShiftRegister.BurstShows` | components/bdgs/protocols/adsl.cpp:102-116 | A burst no longer than the register changes the remainder, for any generator that ends in 1 and any length |
| `ShiftRegister.TrailerExact` | components/bdgs/protocols/adsl.cpp:118-132 | The remainder with the check bits in place is clear exactly if they are the remainder with zeros in their place |
| `ShiftRegister.FeedDifference` | components/bdgs/protocols/flarm.cpp:120-126 | Feeding bits in from the left agrees with the remainder on differences |
| `ShiftRegister.LongerBurstHides` | components/bdgs/protocols/adsl.cpp:102-110 | The width is the limit: one bit more can go unnoticed |
| `AdslCrc.PolyPass` | components/bdgs/protocols/adsl.cpp:102-110 | crc24_polypass shifts the eight bits of a byte through the register |
| `AdslCrc.Crc` | components/bdgs/protocols/adsl.cpp:112-116 | adsl_crc is the remainder of all bits |
| `AdslCrc.CrcExpected` | components/bdgs/protocols/adsl.cpp:118-126 | adsl_crc_expected is the remainder of the data with zeros in place of the check bytes |
| `AdslCrc.CheckCrc` | components/bdgs/protocols/adsl.cpp:128-132 | adsl_check_crc accepts exactly the frames whose check bytes are the expected ones |
| `AdslCrc.BurstCaught` | components/bdgs/protocols/adsl.cpp:128-132 | Any change within 24 neighbouring bits of a good frame is noticed |
| `FlarmCrc.CcittUpdate` | components/bdgs/protocols/flarm.cpp:120-126 | crc_ccitt_update feeds the eight bits of a byte |
| `FlarmCrc.Crc` | components/bdgs/protocols/flarm.cpp:236-245 | flarm_crc feeds the prefix and the data |
| `FlarmCrc.BurstCaught` | components/bdgs/protocols/flarm.cpp:248-251 | Any change within 16 neighbouring bits of a good frame is noticed, the check bits included |
| `Codes.StepIs` | components/bdgs/protocols/flarm.cpp:128-144 | Each code lies exactly one step of its range below the next, also across ranges |
| `Codes.FirstValues` | components/bdgs/protocols/flarm.cpp:128-144 | In the first range a code is its own value, which with the steps fixes every other |
| `Codes.DescaleExact` | components/bdgs/protocols/flarm.cpp:128-144 | In 32-bit words descale loses nothing of the unsigned value as long as mantissa, leading bit and largest shift fit |
| `Codes.DescaleIncreasing` | components/bdgs/protocols/flarm.cpp:128-144 | descale is strictly increasing in the unsigned code |
| `Codes.HalfAStepApart` | components/bdgs/protocols/adsl.cpp:48-56 | uns_vr_decode and descale differ by exactly half a step of the range in use |
| `Codes.VrIncreasing` | components/bdgs/protocols/adsl.cpp:48-56 | uns_vr_decode is strictly increasing |
| `Codes.CellExists` | components/bdgs/protocols/flarm.cpp:128-144 | The codes leave no value out |
| `Codes.CellUnique` | components/bdgs/protocols/flarm.cpp:128-144 | No value belongs to two codes |
| `Codes.ErrorBound` | components/bdgs/protocols/adsl.cpp:48-56 | A value rounded down to its code is read at most half a step off by uns_vr_decode |
| `Codes.DescaleIs` | components/bdgs/protocols/flarm.cpp:128-144 | descale gives the value of the code below the sign bit, negated if that is set, whatever lies above it |
| `Codes.SignVrIs` | components/bdgs/protocols/adsl.cpp:58-64 | sign_vr_decode gives that value half a step further from 0, negated by the sign bit, whatever lies above it |
| `Codes.NearExact` | components/bdgs/protocols/flarm.cpp:403-416 | A coordinate is returned from its low 20 bits if and only if it lies within half the range of the reference |
| `OtaStream.Stream` | components/bdgs/ota/ota_gs.cpp:744-853 | Every attempt is for the first packet of the stored image not acknowledged before it, none is made more than fifteen times, success means as many acknowledged as the image has chunks, and the six lists hold what the attempts say, with an abort entry only for the chunk that ended the transfer |
| `OtaTransfer.AcknowledgedAre` | components/bdgs/ota/ota_gs.cpp:757-843 | What is acknowledged that way are the packets of the image, in order from the first chunk on |
| `OtaTransfer.JoinsToImage` | components/bdgs/ota/ota_gs.cpp:744-853 | The packets acknowledged join to the start of the image at every exit, and to the image if they are as many as it has chunks |
| `OtaTransfer.AddedEven` | components/bdgs/ota/ota_gs.cpp:798-843 | The six lists stay as long as one another, one entry per chunk, an aborted one included |
| `OtaTransfer.ListsTell` | components/bdgs/ota/ota_gs.cpp:838-843 | Entry k of each of the six lists is what answer k accepted said, and how many attempts it took |
| `OtaTransfer.TriesAre` | components/bdgs/ota/ota_gs.cpp:774-816 | The attempts counted are those since the last answer accepted |
| `OtaTransfer.AbortListed` | components/bdgs/ota/ota_gs.cpp:798-835 | A chunk that ended the transfer has the abort mark, the last signal and zeros |
| `OtaSession.AdmittedSizeOk` | components/bdgs/ota/ota_gs.cpp:1222 | The check against the announced 16-bit capacity keeps every size far from those whose sector count wraps |
| `OtaSession.Obtain` | components/bdgs/ota/ota_gs.cpp:639-728 | The image of the size and digest asked for, stored before or downloaded now, lies in the store at the place returned |
| `OtaSession.Update` | components/bdgs/ota/ota_gs.cpp:1222-1295 | An update that succeeds has sent, in chunks the sensor acknowledged, exactly an image of the size and digest announced: one stored before, or the bytes downloaded |
| `OtaTransfer.SendChunk` | components/bdgs/ota/ota_gs.cpp:782-818 | The attempts for a chunk end with its acknowledgement, with a refusal for its size, or after fifteen |
| `OtaTransfer.WholeImage` | components/bdgs/ota/ota_gs.cpp:761-850 | All packets of an image join to the image |
| `OtaTransfer.NumbersExact` | components/bdgs/ota/ota_gs.cpp:757-843 | The 16-bit numbers tell the packets of an image apart exactly up to 65536 chunks |
| `OtaTransfer.NumbersRepeat` | components/bdgs/ota/ota_gs.cpp:757-843 | An image of two megabytes and a byte in chunks of 32 goes past that |
| `OtaTransfer.AckMeaning` | components/bdgs/ota/ota_gs.cpp:794 | An acknowledgement says that a later packet is wanted, except behind packet 65535, where any will do |
| `OtaTransfer.PackNibbleArray` | components/bdgs/ota/ota_gs.cpp:292-301 | Every value can be read back from the packed array, and the padding is 0 |
| `OtaPreload.StorePiece` | components/bdgs/ota/ota_gs.cpp:696-701 | A piece of the response goes behind the earlier ones in the flash store |
| `OtaPreload.Preload` | components/bdgs/ota/ota_gs.cpp:688-713 | What is in flash is the start of the response, however it arrives |
| `OtaPreload.Download` | components/bdgs/ota/ota_gs.cpp:688-728 | The download succeeds exactly if all bytes came with the right digest, and then the store holds those bytes as an image |

## Left out

- FwCatalog.PublishKeeps: a header is written whole or not at all; a header cut in the middle is not modelled.
- FwCatalog.ProgramKeeps: asks that no sector of an image but its first reads as a whole valid header, which the format takes for granted.
- FwStore.FlashStore.Begin: flash and NVS operations succeed; their error returns are not modelled, so begin() fails here only for lack of room.
- FwStore.FlashStore.Finish: the same; the read-back of the header therefore always agrees. A writer used again behind a finish() that succeeded is not modelled; one whose finish() came too early is.
- MigrateStation.Station.Migrate: flash and NVS operations succeed and buffers can be allocated; a stage that fails on its own appears only in the count of attempts.
- MigrateEnd.MigrationSafe: the write of the partition table happens whole or not at all, which is the exposure the source accepts; the rollback state of the running image (confirmed before the first stage) is not modelled.
- MigrateBoot.WrittenChoice: otadata is changed as ESP-IDF documents esp_ota_set_boot_partition, whose source is not part of this model.
- RepeatLaws.NotedOk: counters other than the delay sum are unbounded here, and 32 bits wide in the source.
- RepeatRuns.RunBalances: packets with the same sender, type and checksum count as copies of each other, as they do in the source.
- FwRecency.LongestUnusedGoes: the diary is kept per sector. After a cut between clearing a magic word and erasing its stamp, the next image stored there keeps the old date if its own stamp is cut off too.
- RepeatAccounts.KindsFollowBit: senders whose entry was given up since the last reset start over with what is reported from then on; for them only the consistency laws of the entry are proved.
- SchedulerRuns.AnyStaysCost: a stay broken off by switching both protocols off is not counted.
- SchedulerRuns.RunConsistent: FANET on, a valid steady clock, and modem switches that succeed; the debug mode, FANET-off mode, blind sweep and clock steps are not modelled.
- Reception.LevelMeaning: readings arrive rounded to integers; rounding of floating-point readings is not modelled.
- Upload.Receive: filename, size estimate and the steps before and behind the loop are not modelled; a receive that times out is the next receive.
- OtaTransfer.SendChunk: the wait for an acknowledgement is arbitrary, with no bound on its time; signal values are integers.
- OtaStream.Stream: progress messages are not modelled.
- OtaSession.Update: announcement, manifest, handshake and result reports are not modelled; each may end the update.
- WsPass.SendPass: other tasks run whole sections between those of a pass; connecting and removing clients is left to the server task, which runs the pass itself.
- Codes.DescaleExact: field widths for which the shift leaves 32 bits; the source has none.
- Scheduling of the websocket job (one queued job, one counted as lost after a second), the status message itself, and the verbose flags switched off with the last client.
- Minimum, maximum and last value of the battery slots; their ring is the one modelled.
- Frames between the locked sections of the snapshot writers, which may see two states of a ring.
- Decoding of FLARM and ADS-L packets beyond checksum, cipher and number formats: field positions, units, aircraft types and key derivation.
- Web pages, JSON, console text, captive portal, WiFi policy, APRS upload, power management, and the drop-oldest tables of weather, names and tracking data.
