# dm-cdp: a verified model of continuous replication

dm-cdp copies every write on a block device into a kernel ring; a user-space daemon turns that stream into
a replica of the disk. The repository's claim is "replica equals disk". This project models the parts that
carry the claim and proves it, with every hypothesis stated. For each hypothesis on the order of events that the
code does not enforce there is a concrete run that violates it and leaves the replica wrong for good. (A drop during
a recovery is none of these: its mark waits for the recovery that the next gap record starts.)

`dafny verify dfyconfig.toml` verifies everything.

## How it is organised

| files | what they model |
|---|---|
| `Records`, `Bits`, `Images` | the 56-byte record format, little-endian packing, bit arithmetic; what a record does to an image, and folding a log of overlapping records over one |
| `RingLayout`, `Ring`, `Target` | `struct cdp_target`: a byte ring addressed by monotonic offsets, with PAD records and header-less slack, refining an unbounded FIFO. `Target` holds the class over the byte array; `Ring` holds the same state as a value, with the history of every bio offered to it |
| `DirtyBitmap`, `Extents`, `GapCover` | marking chunks, read-and-clear one word at a time against concurrent marks; the two extent decoders; what a snapshot holds once a gap record has been delivered |
| `Protocol`, `Invariant`, `Preserve`, `Convergence`, `Divergence`, `Hazards` | device, log, `pending.bin`, dirty bitmap, apply loop and copy thread as one transition system at the granularity of the daemon's lock; the central invariant; convergence of base copy and of any number of overflow episodes; what a violated hypothesis does to the replica; the runs that go wrong |
| `Stream`, `Parking`, `Daemon` | the incremental parser, `pending.bin`, and the daemon as a class |
| `Refinement` | the ring's FIFO is the protocol's log, the bitmap's words are its chunk numbers, the daemon's methods are its steps, and bytes read from the ring in any pieces put the log on the replica |
| `Replay` | `cdp-apply`: stop at a number, at a gap, at a failed record, and resume |
| `Seed`, `SeedFile` | the copy-on-first-write seed layer, its reconstruction from file holes, the overlay |

## How the state is modelled

*Ring.* `Reserve`, `PublishData` and `EndIo` of `Target.CdpTarget` are each one step under the producer lock, or
end in one release store. `CopyBioData` writes bytes that nobody else looks at before the release store that
follows it. `Log` and `Fill` are sequences of such steps; a long `Read` is a sequence of reads of one record each,
with `Next` finding the record. `Valid()` says that the bytes of the ring are exactly the undelivered records and
that those are the log; each method keeps it, so it holds for any interleaving of calls. The ring size is a parameter, not even
assumed to be a multiple of 8.

*Device.* Each byte of the disk has seen some prefix of the submissions (`Device.landed`), so a transfer may
land late, torn and out of order with others, but overlapping transfers land in submission order and a
discarded range reads back as zeros. A record may be delivered once its transfer is on the disk
(`Acknowledged`).

*Copy thread.* One chunk copy is: raise the flag, read byte after byte, write byte after byte, lower the flag
and detach the deferred records, apply them one at a time. Everything else may happen between any two of
these. Short reads are included. There is at most one copy thread, as in the daemon.

*Main loop.* A record is applied or deferred (`Deliver`), or put into `pending.bin` (`Park`) and applied or deferred
later (`Unpark`), in any interleaving with everything else.

*Invariant.* For every byte that no drop left to be re-read, applying the held, parked and undelivered records to
the replica gives the disk, unless the byte is still in the area to copy (`Invariant.ByteOk`).

## Where the code does less than it says

Each item names the exact condition under which the code is right, as an if-and-only-if, and where it takes a
whole run to go wrong, such a run.

* **A held record can be overtaken.** `rkcdpd.py:21-23` says there is no ordering race. `apply_one` defers a
  whole record that meets the flagged chunk, but applies a newer one at once if it only meets the part of
  that record outside the chunk (`Hazards.StraddlingRecord`). The same happens between lowering the flag and
  applying the deferred records (`Hazards.HandOffWindow`). `Invariant.DeliverExact` gives the condition for one
  record at one byte: the records commute there, or a later pending record rewrites it, or the values agree.
  `Divergence.OvertakingShows` carries it to the end of a run: at rest replica and disk agree at the byte if and
  only if the condition held. The convergence theorems assume it of every record (`Convergence.KeepsOrder`).
* **A sweep between a mark and its drop.** `cdp_log` marks before it reserves. If the bitmap is read and
  cleared and the chunk re-read in between, the drop leaves no mark (`Hazards.SweepBetweenMarkAndDrop`).
  `Convergence.RereadIffMarked`: whatever is written and marked meanwhile, a dropped byte that is safe to re-read is
  re-read by a recovery if and only if the bit of its chunk is set when its word is fetched.
  `Convergence.LostStaysLost`: a stale byte whose chunk is neither marked, nor fetched by a sweep under way, nor in
  the plan is never re-read until its chunk is marked anew; `Divergence.LostShows`: if nothing else touches it, the
  replica is wrong there for good exactly if it was wrong when the mark was lost.
* **A drop between a gap record and the clear.** An older record still undelivered then overwrites the
  re-read data (`Hazards.DropBetweenGapAndClear`).
* **A dropped transfer still in flight.** `cdp_reserve` forgets a dropped bio (`dm-cdp.c:148-153`), so the record
  after it can be delivered, and the chunk re-read, before the dropped transfer reaches the disk
  (`Hazards.DropStillInFlight`). Once the gap record has been consumed and nothing is parked or held,
  `Convergence.ServedExactly` is the condition: a byte is safe to re-read if and only if its newest bio was logged or
  has landed.
* **A recovery while records are parked.** `consume` queues the recovery of a gap record even when it parks that
  record (`rkcdpd.py:483-487`), and the recovery starts without looking at the rebuild lock
  (`rkcdpd.py:636-637`). A parked record older than the drop is later applied over the re-read data
  (`Hazards.RecoveryWhileParked`).
  For these three `Preserve.RereadExact` is the condition: re-reading a byte shows its newest write if and only
  if that write was logged, or has landed and no pending record, parked or not, touches the byte. It holds of
  every byte once the gap record has been consumed after every drop, the drops have landed, and nothing is parked
  or held (`Convergence.OverIsSafe`).
* **Skipping zero chunks** needs a replica that was created empty for the copy, and a base copy may start on a
  used one: after one that was interrupted, or with a seed of another boot (`Hazards.ZeroSkipNeedsFreshReplica`).
  `Invariant.SkipExact`: skipping a zero that was read currently leaves the byte right if and only if the replica
  holds zero there or a pending record touches it. `Divergence.SkippingShows` carries it to the end of a run, and
  `Convergence.BaseCopyOnAnyReplica` converges from any replica under it.
* **Unparking.** The main loop calls `consume` before `apply_pending`, so the batch read when the lock has
  just gone overtakes the parked records (`Parking.UnlockOvertakes`; `Hazards.UnparkedTooLate` is the run that
  leaves the replica wrong). `Parking.OrderExactly`: the order is
  that of delivery if and only if `consume` never applies a record while `pending.bin` holds some.
* **Chunks all zero at the seed point** stay holes, and the overlay skips holes, so later content survives the
  overlay; after a restart it is even saved as the seed's (`Seed.ZeroChunkNotRestored`).
  `Seed.ZeroChunkByEvents`: such a chunk is restored if and only if it is all zero again at the end, and no restart
  found it otherwise with a write meeting it later. `Seed.SeedRestoredExactly` is the condition for the whole image.
* **`cdp-apply -s k` on a stream that starts above k** still replays the first record, so that `-f k+1`
  replays it again; the image is right all the same (`Replay.PointInTimeSplit`).
* **`cdp-apply` on a torn stream.** Its header comment promises exit 1 on a broken stream. A stream cut inside
  a header, or inside a record below the resume point, exits 0. `Replay.TornEndReported` gives the condition.
* **`cdp-apply` on a ZERO or DISCARD of no bytes** before any zero buffer exists reports a failed write and
  exits 1 (`Replay.EmptyClearFails`). `Replay.EmptyClearsExactly`: on consecutive records without gaps or failed
  bios a run exits 0 if and only if each empty clear comes after a non-empty one of the same run.

Two remarks that are not failures:

* **`cdp_mark` rounds in 32 bits.** It is exact up to 0xFFFFFE00 bytes (`DirtyBitmap.MarkIsExact`); bios are
  split at 4 MiB (`dm-cdp.c:50`). `DirtyBitmap.RoundingWraps` says which chunks larger sizes would set.
* **Sequence numbers.** `dm-cdp.h:45` says a gap mark may come with a hole in the numbers. It never does: a
  dropped bio takes no number, so delivered numbers are 0, 1, 2, ... across gaps too
  (`Ring.DeliveryContract`).

## Model

| member | source | states |
|---|---|---|
| Records.HeaderLayout | include/uapi/linux/dm-cdp.h:39-51 | the 56 bytes are the eleven fields in the order and widths of the structure, little-endian, without gaps |
| Records.HeaderRoundTrip | rkcdp/dmcdp.py:15-44 | every header whose fields fit their C widths is read back unchanged from its 56 packed bytes, whatever follows them |
| Records.DecodeEncode | rkcdp/dmcdp.py:39-44 | the converse: packing what was unpacked gives the same 56 bytes, so a parser that keeps the fields loses nothing |
| Records.StoreState | drivers/md/dm-cdp.c:231-231 | a 4-byte store at offset 12 of a packed header changes the state field and no other |
| Records.StoreFlags | drivers/md/dm-cdp.c:674-675 | a 4-byte store at offset 8 changes the flags field and no other |
| Images.SuffixReplayIdempotent | rkcdp/rkcdpd.py:17-19 | replaying any suffix of an ordered log of overlapping WRITE, ZERO and DISCARD records on the image of the whole log changes nothing |
| Images.BasePlusLiveWrites | rkcdp/rkcdpd.py:17-19 | a copy whose bytes were each read at their own moment after the first k records becomes the final image once records k on are applied again |
| Images.FoldAt | rkcdp/rkcdpd.py:242-248 | applying records one after the other to an image is, at each byte, applying those that touch the byte |
| Images.RecordDoes | rkcdp/rkcdpd.py:242-248 | a WRITE stores its data from sector * 512 on, a DISCARD or ZERO clears its range, any other record touches nothing |
| Images.ApplyDoes | rkcdp/rkcdpd.py:242-248 | and that is all that changes in the image |
| Images.OverIsNewest | rkcdp/rkcdpd.py:242-248 | the newest record that touches a byte alone decides its value |
| RingLayout.AdmissionBound | drivers/md/dm-cdp.c:137-154 | padding is always shorter than the record, record and padding take less than half the ring, and a record of at most a quarter of the ring is accepted whenever half the ring is free |
| RingLayout.AdmitsExactly | drivers/md/dm-cdp.c:140-154 | a record is admitted if and only if it is at most a quarter of the ring and somewhere from the head on it fits in one piece, clear of the undelivered bytes; it goes to the first such place |
| RingLayout.AreasDisjoint | drivers/md/dm-cdp.c:143-191 | room handed out by successive reservations never overlaps and lies in order of reservation |
| RingLayout.StoreInArea | drivers/md/dm-cdp.c:122-125 | a store inside one live record leaves the bytes of every other live record, and every live filler, as they were |
| RingLayout.ReserveLays | drivers/md/dm-cdp.c:143-191 | writing PAD header and record header for an admitted reservation leaves all undelivered records intact and adds the new one behind them |
| Ring.WalkDecodesLog | drivers/md/dm-cdp.c:244-265 | walking the ring bytes with cdp_next from tail to head decodes exactly the undelivered part of the log, in order, header and body intact, across PAD records and slack |
| Ring.NextFindsRecord | drivers/md/dm-cdp.c:244-265 | from the end of a record cdp_next finds the header of the next reservation and nothing else |
| Ring.LiveRecordsDisjoint | drivers/md/dm-cdp.c:143-191 | two undelivered records share no ring byte and both lie between tail and head, which are at most one ring apart |
| Ring.SavedOffsetFindsOwnHeader | drivers/md/dm-cdp.c:122-125 | until a bio's record is committed its saved offset addresses the header with its own number, and no other record ever had that offset |
| Ring.DeliveryContract | drivers/md/dm-cdp.c:289-323 | what has been delivered is numbered 0, 1, 2, ... without holes, all COMMITTED, record k holding type, range, FUA and PREFLUSH flags and data of the k-th logged bio, padded by less than 8 bytes, with GAP_BEFORE exactly on a gap and ERROR exactly on a failed bio |
| Ring.GapMarksDrops | drivers/md/dm-cdp.c:148-182 | record k carries a gap mark if and only if a bio was dropped between reservation k-1 and reservation k |
| Ring.LoggingKeepsConsistent | drivers/md/dm-cdp.c:132-193 | an admitted reservation keeps ring bytes and log in agreement and moves the head past padding and record |
| Ring.DroppingKeepsConsistent | drivers/md/dm-cdp.c:148-153 | a dropped bio changes neither ring nor log |
| Ring.StoringKeepsConsistent | drivers/md/dm-cdp.c:204-234 | storing payload or state into one live record keeps ring bytes and log in agreement |
| Ring.DeliveringKeepsConsistent | drivers/md/dm-cdp.c:312-323 | handing out the oldest committed record keeps ring bytes and log in agreement for the rest |
| Target.CdpTarget.Reserve | drivers/md/dm-cdp.c:132-202 | succeeds exactly when the record is at most a quarter of the ring and there is a place for it; success appends exactly this record to the log, with every header field as in the code, failure changes only drop count, gap flag and overflow flag |
| Target.CdpTarget.CopyBioData | drivers/md/dm-cdp.c:204-214 | the payload ends up in this bio's record and every other record keeps its contents |
| Target.CdpTarget.Log | drivers/md/dm-cdp.c:216-234 | afterwards exactly the bio's chunks are marked in addition, and either the bio is accounted as dropped or its record is last in the log, in state DATA, with its data and the right gap mark |
| Target.CdpTarget.EndIo | drivers/md/dm-cdp.c:664-685 | in any completion order, commits the bio's own record, with the error mark if it failed, counts it, and leaves all others alone; a bio that was not logged changes nothing |
| Target.CdpTarget.Next | drivers/md/dm-cdp.c:244-265 | the loop over PAD records and slack finds what the specification NextAt finds |
| Target.CdpTarget.Readable | drivers/md/dm-cdp.c:267-273 | true exactly when the oldest undelivered record is committed |
| Target.CdpTarget.Read | drivers/md/dm-cdp.c:275-328 | returns whole consecutive committed records, at most count bytes, stopping only at an uncommitted record or one that does not fit; after the last record tail equals head, also after a wrap; which of data, EOF, EAGAIN and EMSGSIZE is returned |
| DirtyBitmap.MarkIsExact | drivers/md/dm-cdp.c:105-117 | the chunks set are exactly those that hold a written sector, for every size that the 32-bit rounding can hold |
| DirtyBitmap.RoundingWraps | drivers/md/dm-cdp.c:109-116 | for every size above that bound, the chunks set are exactly: all of them at sector 0, else the first one unless the transfer starts on its first sector |
| DirtyBitmap.Bitmap.Mark | drivers/md/dm-cdp.c:105-117 | afterwards exactly the chunks in range are set in addition |
| DirtyBitmap.Bitmap.ReadAndClear | drivers/md/dm-cdp.c:394-396 | undisturbed, returns the bitmap and leaves it empty |
| DirtyBitmap.NoMarkLost | drivers/md/dm-cdp.c:394-396 | for every interleaving of word exchanges and marks, over any number of snapshots, a chunk is in a snapshot or still marked if and only if it was to begin with or was marked meanwhile |
| DirtyBitmap.SnapshotCoversEarlierMarks | drivers/md/dm-cdp.c:394-396 | a snapshot started after a mark holds it, together with the earlier snapshots |
| GapCover.SweepCoversBios | drivers/md/dm-cdp.c:222-226 | in every interleaving of set_bit, exchanges, reservations and reads: a complete snapshot, with the earlier ones, holds every chunk touched by any bio offered before its sweep started, dropped or not |
| GapCover.GapRecordCoversDrops | drivers/md/dm-cdp.c:177-180 | in particular: once a record with a gap mark has been delivered some bio was dropped just before it, and a snapshot whose sweep starts after that covers every bio dropped before that record |
| Extents.RunsUnique | rkcdp/dmcdp.py:89-98 | there is only one list of ascending, disjoint, non-adjacent runs that covers exactly the set bits |
| Extents.BitmapExtents | rkcdp/dmcdp.py:89-98 | the byte-indexed decoder reports exactly those runs, as sectors |
| Extents.DoBitmap | tools/cdp-drain.c:92-105 | the word-indexed decoder reports exactly those runs, and the number of set bits |
| Extents.BitsAgree | tools/cdp-drain.c:93-94 | on a little-endian machine byte indexing and word indexing read the same bit |
| Extents.ExtentsAscend | rkcdp/dmcdp.py:89-98 | reported extents are non-empty, ascending, and never touch each other |
| Extents.ExtentsAreChunks | rkcdp/dmcdp.py:89-98 | a sector lies in a reported extent if and only if the bit of its chunk is set |
| Extents.DecodersAgree | tools/cdp-drain.c:92-105 | for any bitmap and any length both decoders report the same extents |
| Extents.ExtentsCoverWrites | rkcdp/dmcdp.py:89-98 | after any in-range marks, every written sector lies in a reported extent |
| Extents.ExtentsHoldOnlyMarks | drivers/md/dm-cdp.c:105-117 | every sector of a reported extent lies in a chunk that some marked write touched |
| Invariant.OvertakingExact | rkcdp/rkcdpd.py:464-471 | applying a record before held ones instead of after them leaves a byte right if and only if they commute there |
| Invariant.DeliverExact | rkcdp/rkcdpd.py:464-494 | applying, deferring or parking the next record keeps what the replica will become at a byte if and only if the record overtakes none there; parking, and deferring a parked one, never overtakes |
| Invariant.MeetingNoneIsSafe | rkcdp/rkcdpd.py:464-471 | a record that meets no held and no parked one overtakes nothing that matters |
| Invariant.SkipExact | rkcdp/rkcdpd.py:329-330 | a zero that was read currently may be left unwritten if and only if the replica has zero there or a pending record touches the byte |
| Invariant.FreshSkipsSafely | rkcdp/rkcdpd.py:329-330 | a replica that has followed the log from all zeros always meets that |
| Preserve.StepKeepsInv | rkcdp/rkcdpd.py:319-336 | every step of bios, device, apply loop, pending.bin, copy thread and bitmap sweep keeps the central invariant, given that the record taken overtakes none that matters and no chunk is skipped wrongly |
| Preserve.RereadIsCurrent | rkcdp/rkcdpd.py:327-335 | what the device returns inside the flagged chunk, with the records deferred and still to come applied, is the newest content |
| Preserve.RereadShowsWriter | rkcdp/rkcdpd.py:327-335 | under the central invariant, which submission a byte of the flagged chunk, re-read now, will show in the end |
| Preserve.RereadExact | rkcdp/rkcdpd.py:370-372 | under the central invariant that submission is the newest one if and only if the newest was logged, or has landed and no pending record will overwrite it |
| Convergence.RunKeepsInv | rkcdp/rkcdpd.py:319-336 | the central invariant holds in every reachable state of every run under those two hypotheses |
| Convergence.NobodyWaits | rkcdp/rkcdpd.py:20-24 | bios, device and main loop can take their steps in every state, whatever the copy thread is doing |
| Convergence.CopyNeverStuck | rkcdp/rkcdpd.py:319-336 | while there is something to copy the copy thread can take a step, and can end a read after any number of bytes |
| Convergence.BaseCopyConverges | rkcdp/rkcdpd.py:339-367 | from a replica created empty, for every interleaving of chunk copies, short reads, skipped zero chunks, live writes, parking, deferrals and deliveries without drops, at rest the replica equals the disk |
| Convergence.BaseCopyOnAnyReplica | rkcdp/rkcdpd.py:538-541 | the same from any replica, if each zero skipped is in the replica already or touched by a pending record |
| Convergence.CollectedIsReread | rkcdp/rkcdpd.py:370-398 | byte by byte: a stale byte that is safe to re-read, and whose chunk the sweep under way has or will fetch, is no longer stale once everything is copied |
| Convergence.LostStaysLost | drivers/md/dm-cdp.c:222-226 | a stale byte whose chunk is not marked, not fetched and not planned stays so in every run until its chunk is marked again |
| Convergence.RereadIffTaken | rkcdp/rkcdpd.py:379-392 | a stale byte that is safe to re-read is re-read by a recovery if and only if its chunk is among those fetched, whatever is written and marked during the copy |
| Convergence.RereadIffMarked | rkcdp/rkcdpd.py:370-398 | the same from the start of the sweep, with live writes and marks all through it: re-read if and only if the bit of the chunk is set when its word is fetched |
| Convergence.ServedExactly | rkcdp/rkcdpd.py:370-376 | with the gap record consumed and nothing parked or held, a byte is safe to re-read if and only if its newest bio was logged or has landed |
| Convergence.OverIsSafe | rkcdp/rkcdpd.py:370-376 | every byte is safe to re-read once the gap record was consumed after every drop, the drops have landed, and nothing is parked or held |
| Convergence.MarkingFirstIsEnough | drivers/md/dm-cdp.c:222-226 | marking before reserving leaves every dropped byte marked, if no word is fetched in between |
| Convergence.RecoveryConverges | rkcdp/rkcdpd.py:370-398 | from any reachable state where every stale byte is marked and safe to re-read, read-and-clear, re-reading all extents in any slices and delivering the rest makes the replica equal to the disk while writes go on |
| Convergence.OverflowEpisodeConverges | rkcdp/rkcdpd.py:370-398 | a whole overflow, with any sweeps and copies during it, whose drops are marked when it is over: after the recovery the replica equals the disk and the state is again one from which an overflow may start |
| Convergence.EpisodesConverge | rkcdp/rkcdpd.py:370-398 | any number of such episodes one after the other |
| Divergence.OvertakingShows | rkcdp/rkcdpd.py:464-471 | a record is taken while a byte is right, and later nothing is submitted, copied or overtaken there: at rest replica and disk agree at the byte if and only if that record overtook none that mattered |
| Divergence.SkippingShows | rkcdp/rkcdpd.py:329-330 | the same for a skipped zero chunk: they agree if and only if the replica held zero there or a pending record touched the byte |
| Divergence.LostShows | drivers/md/dm-cdp.c:222-226 | a stale byte whose mark is lost, and where nothing is submitted, overtaken or marked anew: at rest replica and disk agree there if and only if the byte was right when it was lost |
| Hazards.HandOffWindow | rkcdp/rkcdpd.py:331-335 | a run in which a newer record is applied after the flag is lowered and before the late record, and the replica stays wrong |
| Hazards.StraddlingRecord | rkcdp/rkcdpd.py:464-471 | a run in which a record deferred for one chunk later overwrites a newer one outside that chunk |
| Hazards.ZeroSkipNeedsFreshReplica | rkcdp/rkcdpd.py:329-330 | a base copy, overtaking nothing, in which skipping a zero chunk leaves old content on a used replica |
| Hazards.SweepBetweenMarkAndDrop | drivers/md/dm-cdp.c:222-226 | a run in which read-and-clear falls between mark and drop, and the dropped write is never re-read |
| Hazards.DropBetweenGapAndClear | rkcdp/rkcdpd.py:370-376 | a run in which a drop falls between gap record and clear, and an older record overwrites the re-read data |
| Hazards.RecoveryWhileParked | rkcdp/rkcdpd.py:636-640 | a run in which the gap record is parked, the recovery is done, and an older parked record then overwrites the re-read data |
| Hazards.OnlyParkedStandsAgainst | rkcdp/rkcdpd.py:483-487 | when that recovery starts, every other hypothesis is met: gap record consumed, drop landed and marked, nothing held |
| Hazards.DropStillInFlight | drivers/md/dm-cdp.c:148-153 | a run in which the chunk is re-read before the dropped transfer lands, and the replica keeps the old content |
| Hazards.OnlyFlightStandsAgainst | drivers/md/dm-cdp.c:148-153 | when that sweep starts, every other hypothesis is met: gap record consumed, drop marked, nothing parked or held |
| Hazards.UnparkedTooLate | rkcdp/rkcdpd.py:628-640 | a run without drops or copies in which an older parked record is applied after a newer one, and the replica stays wrong |
| Stream.PackedIsWellFormed | rkcdp/dmcdp.py:51-55 | pack_rec gives an 8-aligned record with the given type, flags, number, range and time, whose body is the payload and less than 8 zeros, and whose reader sees the payload |
| Stream.PackParseRoundTrip | rkcdp/dmcdp.py:58-69 | parsing the concatenation of any well-formed records returns the same records and consumes every byte |
| Stream.ParsePrefix | rkcdp/dmcdp.py:58-69 | parsing any prefix of a stream returns exactly the records complete in it and leaves the rest |
| Stream.BadMagicStops | rkcdp/dmcdp.py:39-44 | after any whole records, a header without the magic number ends the pass with an error, those records having been yielded |
| Stream.ChunkingDoesNotMatter | rkcdp/rkcdpd.py:477-494 | however a stream is cut into buffers, calling consume with the carried tail handles each record once, in order and whole, and ends with an empty tail |
| Stream.EachGapQueuedOnce | rkcdp/rkcdpd.py:483-485 | every gap record in a stream queues one recovery, in order |
| Stream.GapsQueuedExactly | rkcdp/rkcdpd.py:483-485 | on any records the queue holds numbers of gap records only, misses none but the last one seen, and never has the same number twice in a row |
| Stream.GapsQueuedSplit | rkcdp/rkcdpd.py:483-485 | which recoveries are queued does not depend on where the stream is cut |
| Stream.ReadParses | rkcdp/rkcdpd.py:433-441 | what a read of the ring returns parses into exactly the records delivered, with no tail, so a drain that starts with an empty tail loses nothing |
| Parking.ParkingConserves | rkcdp/rkcdpd.py:486-516 | for every pattern of the rebuild lock, applied and parked records together are the records delivered |
| Parking.TurnLooksTwice | rkcdp/rkcdpd.py:628-640 | the look at the lock in consume decides whether its batch is parked or applied; the look before apply_pending decides whether all that is parked is applied or stays |
| Parking.OrderKept | rkcdp/rkcdpd.py:628-640 | while nothing is applied past parked records, applied then parked is the order of delivery at every moment |
| Parking.JumpInverts | rkcdp/rkcdpd.py:628-640 | a record applied past a parked one stays before it in every continuation |
| Parking.OrderExactly | rkcdp/rkcdpd.py:628-640 | the order of application is that of delivery if and only if consume never applied a record while some were parked |
| Parking.UnlockOvertakes | rkcdp/rkcdpd.py:628-640 | when the lock goes away between two turns the second batch overtakes the first |
| Daemon.Daemon.Punch | rkcdp/rkcdpd.py:250-262 | a refusal of the file system switches punching off for good and the range is written as zeros |
| Daemon.Daemon.Write | rkcdp/rkcdpd.py:242-248 | a WRITE puts its payload at its offset, a DISCARD or ZERO zeros over its range, anything else leaves the replica alone |
| Daemon.Daemon.ApplyOne | rkcdp/rkcdpd.py:464-475 | a record of some bytes is deferred if and only if one of them lies in the flagged chunk, and is then counted nowhere; any other takes effect on the replica and is counted, with its bytes if it is a WRITE |
| Daemon.EmptyChangesNothing | rkcdp/rkcdpd.py:464-475 | a record of no bytes leaves the replica as it is, deferred or not |
| Daemon.Daemon.Consume | rkcdp/rkcdpd.py:477-494 | applies or parks exactly the complete records of the buffer, in order, queues their gaps, and returns the rest |
| Daemon.Daemon.ApplyPending | rkcdp/rkcdpd.py:496-516 | for every read size, applies exactly the records in pending.bin, in order, and removes the file |
| Daemon.Daemon.MainTurn | rkcdp/rkcdpd.py:628-640 | if the lock is gone before apply_pending, everything parked is applied and pending.bin is removed; if not, nothing parked is touched and only what consume applied has changed the replica; the turn is one of the parking model, and pending.bin is a concatenation of whole records after it |
| Daemon.Daemon.PutChunk | rkcdp/rkcdpd.py:327-330 | the bytes read go to the replica unless they are a zero chunk to skip |
| Daemon.Daemon.HandOff | rkcdp/rkcdpd.py:331-333 | lowers the flag and detaches exactly the deferred records |
| Daemon.Daemon.ApplyLate | rkcdp/rkcdpd.py:334-335 | applies all late records in the order they arrived |
| Daemon.Daemon.CopyChunk | rkcdp/rkcdpd.py:319-336 | on a disk at rest, the replica gets the bytes the device returned, unless skipped, and nothing else |
| Daemon.Daemon.BaseCopy | rkcdp/rkcdpd.py:345-356 | on a disk at rest, with any short reads, the bytes skipped are zero on the disk, every other byte is copied, and the replica becomes the disk if and only if it held zero wherever it was skipped |
| Daemon.Daemon.Recover | rkcdp/rkcdpd.py:382-392 | on a disk at rest every byte of the extents is re-read and no other byte changes |
| Daemon.AppliedUnflagged | rkcdp/rkcdpd.py:464-475 | with no chunk flagged, applying records one by one folds them over the replica |
| Daemon.ParkedIsFile | rkcdp/rkcdpd.py:486-493 | appending parked records keeps pending.bin a concatenation of whole records |
| Daemon.ApplyOneIsDeliver | rkcdp/rkcdpd.py:464-475 | apply_one on the next record is the protocol's Deliver step |
| Daemon.ParkIsPark | rkcdp/rkcdpd.py:486-493 | appending the next record to pending.bin is the protocol's Park step |
| Daemon.ApplyPendingIsUnpark | rkcdp/rkcdpd.py:509-512 | apply_one on the first parked record is the protocol's Unpark step |
| Refinement.FlagChunkIsFlag | rkcdp/rkcdpd.py:324-326 | the first locked section of copy_chunk is the protocol's Flag step |
| Refinement.PutChunkIsPuts | rkcdp/rkcdpd.py:329-330 | the unlocked replica write of copy_chunk is a run of PutByte steps |
| Refinement.HandOffIsHandOff | rkcdp/rkcdpd.py:331-333 | the second locked section is the protocol's HandOff step, with the same late records |
| Refinement.ApplyLateIsApplyLate | rkcdp/rkcdpd.py:334-335 | apply_one on a late record is the protocol's ApplyLate step |
| Refinement.CopyChunkIsRun | rkcdp/rkcdpd.py:319-336 | one call of copy_chunk with nothing in between, for any number of bytes the device may return, is a run of the protocol and leaves the replica and the plan as the method does |
| Refinement.MarkIsMark | drivers/md/dm-cdp.c:105-117 | what cdp_mark leaves in the words of the bitmap is the protocol's Mark step on its chunk numbers, for every bio within the device |
| Refinement.ExchangeIsExchange | drivers/md/dm-cdp.c:394-396 | one exchange of a word is the protocol's ExchangeWord step |
| Refinement.CopyOutIsStart | drivers/md/dm-cdp.c:405-405 | handing out the snapshot is the protocol's StartRecovery step, whose plan is exactly the bits of the snapshot |
| Refinement.ExtentsAreThePlan | rkcdp/rkcdpd.py:372-385 | the extents decoded from a snapshot, in bytes, are a plan for the protocol's recovery: they cover exactly the chunks in the snapshot |
| Refinement.RingDeliversLog | drivers/md/dm-cdp.c:275-328 | in every reachable ring state the operations delivered are a prefix of the protocol's log, whatever the order of completion |
| Refinement.ConsumeIsRun | rkcdp/rkcdpd.py:477-494 | one call of consume, with or without a chunk flagged and with or without the rebuild lock, is a run of the protocol's Deliver or Park steps over exactly the submissions it was given |
| Refinement.ApplyPendingIsRun | rkcdp/rkcdpd.py:496-516 | one call of apply_pending is a run of Unpark steps, with or without a chunk flagged |
| Refinement.ReadIsRun | rkcdp/rkcdpd.py:621-629 | the bytes of a read of the ring, given to consume with any chunk flagged, are such a run on exactly the bios whose records were read |
| Refinement.RingToReplica | rkcdp/rkcdpd.py:477-494 | with no chunk flagged, feeding everything read from the ring so far to consume, cut in any way, puts exactly the log delivered so far on the replica |
| Refinement.ReplicaIsDisk | rkcdp/rkcdpd.py:1-9 | without drops, once all is delivered, a replica that equalled the disk is the disk with every bio carried out in submission order |
| Replay.WriteAll | tools/cdp-apply.c:23-40 | however pwrite splits it, the whole buffer ends up at its offset, the file grows as far as needed, and nothing else changes |
| Replay.CdpApply | tools/cdp-apply.c:81-166 | the replay loop over the bytes of a stream, torn at the end or not, leaves the image and the exit status of the specification over its records, also where records lie past the end of the file |
| Replay.FoldToIsFold | tools/cdp-apply.c:136-157 | on a target that holds all records the image replayed is the one Replica.write makes of them |
| Replay.EmptyClearsExactly | tools/cdp-apply.c:145-157 | a run over consecutive records without gaps or failed bios exits 0 if and only if each ZERO or DISCARD of no bytes comes after one of some bytes in the same run |
| Replay.EmptyClearFails | tools/cdp-apply.c:145-157 | a stream of one empty DISCARD makes it exit 1 |
| Replay.TornEndReported | tools/cdp-apply.c:86-134 | on consecutive records without failed bios or empty clears, bytes after the last whole record never change the image, and the exit status tells of them if and only if they hold a full header that is not a record or not skipped; it is 3 exactly if that header carries on with a gap mark |
| Replay.RunStopsAtGap | tools/cdp-apply.c:94-114 | on such streams a run with -f applies exactly the records from there to the next gap; exit 3 names that gap, exit 0 means there is none |
| Replay.RunExactly | tools/cdp-apply.c:94-165 | on any records: the run replays exactly those from the resume point to the end, to the first with a number that does not follow, a gap to stop at or a failed bio, or through the first that reaches the stop number; the status is 3 for a gap that follows, 1 for the other two refusals, else 0 |
| Replay.FailedBioRefused | tools/cdp-apply.c:115-120 | a stream of one failed record exits 1 and leaves the target alone |
| Replay.GapResume | tools/cdp-apply.c:7-10 | on such streams restarting with -f at each reported gap terminates, reports strictly increasing numbers, and applies every record exactly once, in order |
| Replay.PointInTimeSplit | tools/cdp-apply.c:136-165 | on such streams without gaps, replay with -s k and then with -f k+1 gives the image of one full replay, which is the fold of the records; each record is replayed exactly once if and only if the stream does not start above k |
| Seed.EventsKeepLayer | rkcdp/rkcdpd.py:182-215 | after any writes, discards, zeroes and restarts since the seed point, a chunk that was not all zero then is unsaved and unchanged, or saved as it was |
| Seed.ReplicaIsFold | rkcdp/rkcdpd.py:237-248 | whatever the seed layer saves and whenever the daemon restarts, the replica is what the writes alone make of it |
| Seed.CoveredExactly | rkcdp/rkcdpd.py:207-208 | preserve looks at exactly the chunks that hold a byte of the range; for an empty range, at the one it lies inside of |
| Seed.NonZeroChunkRestored | rkcdp/rkcdp-rebuild.py:101-125 | such a chunk is always restored by the overlay |
| Seed.ZeroChunkExactly | rkcdp/rkcdpd.py:213-214 | a chunk all zero at the seed point is restored if and only if it is a hole in the seed file and still all zero in the replica |
| Seed.SeedRestoredExactly | rkcdp/rkcdp-rebuild.py:101-125 | after any run the overlay restores every chunk that held data at the seed point, and the whole image if and only if every other chunk is still a hole and all zero |
| Seed.DataExactly | rkcdp/rkcdpd.py:188-215 | after any run the seed file has data for a chunk exactly if it had before, or the chunk was unsaved and not all zero and a write met it, or a write met it after a restart that found it not all zero |
| Seed.ZeroChunkByEvents | rkcdp/rkcdpd.py:213-214 | a chunk all zero at the seed point is restored if and only if it is all zero at the end and no write met it after a restart that found it not all zero |
| Seed.UntouchedRestored | rkcdp/rkcdp-rebuild.py:101-125 | a chunk that no write has met since the seed point is restored, whatever it held |
| Seed.ZeroChunkNotRestored | rkcdp/rkcdpd.py:213-214 | a chunk all zero at the seed point and written since keeps the newer content, and after a restart that content is saved as the seed's |
| SeedFile.SeedLayer.constructor | rkcdp/rkcdpd.py:188-199 | from the data regions of the file, exactly the chunks that hold data are known as saved |
| SeedFile.SeedLayer.Preserve | rkcdp/rkcdpd.py:204-215 | exactly the chunks of the range not saved yet are saved, with what the replica holds, zero chunks as holes |
| SeedFile.OverlaySeed | rkcdp/rkcdp-rebuild.py:101-125 | exactly the bytes written in the seed file replace those of the copy, whatever the slices |

## Left out

- Kernel plumbing: constructor and destructor of the target, character device, poll, wait queues, ioctl argument copying, -EFAULT and interrupted waits; `Read` is the non-blocking read.
- Memory ordering: the producer lock and the release and acquire operations are single atomic steps in one order.
- 64-bit wrap of offsets and sequence numbers and 32-bit wrap of `rec_len`: `Target.CdpTarget.Reserve` asks for numbers and times below 2^64, offsets are unbounded, and the ring is below 16 GiB so that a record length fits 32 bits.
- Target.CdpTarget.Log: is the whole of `cdp_log` without interruption; interleavings are sequences of calls of `Reserve`, `CopyBioData`, `PublishData` and the other methods.
- Target.CdpTarget.Read: does not model a fault while copying out.
- Daemon.Daemon.Punch: a hole is a range of zeros in the model; that it reads back as zeros is what the file system promises, not something proved.
- Daemon.Daemon.CopyChunk: is the whole call on a disk at rest with no record arriving; its sections are steps of the protocol (`Refinement.FlagChunkIsFlag` to `Refinement.ApplyLateIsApplyLate`), where everything interleaves.
- Device errors in the protocol: `apply_one` does not look at the ERROR flag, and the protocol has no failed transfers. The ring model and the replay model do have the flag.
- Page cache, NFS and fsync durability, crash points inside one write, and restarts of the daemon within the replication protocol; a restart is an event of the seed layer only.
- Stream.ChunkingDoesNotMatter: speaks of well-formed records. `Stream.Parse` has the bad-magic outcome of `iter_records`; for a record length below the header size it only reports that the iterator stops making sense.
- Daemon.Daemon.Consume: is given a buffer that parses; one that does not makes the iterator raise an error (`Stream.BadMagicStops`) that nothing in the daemon catches. The flagged chunk does not change during one call of the method, which is a run of the protocol (`Refinement.ConsumeIsRun`); there the flag may change between any two records.
- Daemon.Daemon.BaseCopy: on a disk at rest only; the theorem for a live disk is `Convergence.BaseCopyConverges`.
- Daemon.Daemon.Recover: on a disk at rest only; the theorem for a live disk is `Convergence.RecoveryConverges`.
- Refinement.RingToReplica: with no chunk flagged; with one, `Refinement.ReadIsRun` leads into the protocol.
- Convergence.OverflowEpisodeConverges: no drops between the start of a sweep and the end of its recovery; what a drop there does is said by `Convergence.LostStaysLost`, `Preserve.RereadExact` and two runs of `Hazards`.
- The stop flag of the copy loops, `check_seed`, the two threads' restart from `recovery.json`, and writing the manifest.
- `last_seq` as a promise: late records can move it backwards, so nothing is claimed about its order.
- Replay.CdpApply: the target is a regular file, which grows; a block device refuses writes past its end. Errors of the files themselves and of memory are not part of this model. Records are as the kernel writes them: it also accepts a record length that is not a multiple of 8, and a WRITE longer than its body, for which it would read past its buffer; both are outside the model, as is a record length below the header size.
- Replay.GapResume: speaks of streams with consecutive numbers, no failed bio and no empty clears, as the kernel delivers them; `Replay.EmptyClearsExactly` says what empty clears do.
- SeedFile.SeedLayer.Preserve: preserve and the write after it are one step of `Seed.Written`; holes are exactly the bytes never written.
- `Throttle`, `write_status`, `node_json`, fsfreeze, `rkcdp-setup.py`, `rkcdp-seed.py`, `api_rkcdp.py` and the rest of `rkcdp-rebuild.py`: timing, labels, remote calls.
