/**
 Where the parts meet: the kernel ring delivers the protocol's log, the daemon's methods are the
 protocol's steps, and bytes read from the ring in any pieces leave the log folded over the replica.
 */
module Refinement {
  import opened Records
  import opened Images
  import opened Stream
  import opened Protocol
  import opened Invariant
  import opened Convergence
  import Ring
  import Daemon
  import Extents
  import Bits
  import DirtyBitmap
  import GapCover

  /* ------------------------------------------------------------------ */
  /* the kernel ring as the protocol's log                              */

  /** What a bio does to the disk. */
  function Effect(r: Ring.Request): Op {
    if r.rtype == REC_WRITE then Write(r.sector * SECTOR, r.payload)
    else if r.rtype == REC_DISCARD || r.rtype == REC_ZERO then Clear(r.sector * SECTOR, r.len)
    else Flush
  }

  /** The kernel's submissions as the protocol sees them. */
  function Bios(subs: seq<Ring.Submission>): (b: seq<Sub>)
    ensures |b| == |subs|
  {
    seq(|subs|, k requires 0 <= k < |subs| => Sub(Effect(subs[k].req), subs[k].logged))
  }

  /** The ring's FIFO and the protocol's log hold the same operations. */
  lemma {:induction false} LogsAgree(subs: seq<Ring.Submission>)
    ensures |LoggedOps(Bios(subs))| == |Ring.LogOf(subs)|
    ensures forall k | 0 <= k < |Ring.LogOf(subs)| :: LoggedOps(Bios(subs))[k] == Effect(Ring.LogOf(subs)[k].req)
  {
    if subs != [] {
      var n := |subs| - 1;
      assert Bios(subs)[..n] == Bios(subs[..n]);
      LogsAgree(subs[..n]);
    }
  }

  /** A record that has left the state RESERVED has the effect of the bio it was reserved for. */
  lemma RecordHasEffect(r: Ring.RingState, k: nat)
    requires Ring.Consistent(r) && k < |r.slots| && r.slots[k].frame.hdr.state != ST_RESERVED
    ensures WellFormed(r.slots[k].frame) && k < |Ring.LogOf(r.subs)|
    ensures OpOf(r.slots[k].frame) == Effect(Ring.LogOf(r.subs)[k].req)
  {
    hide Ring.AllMatch, Ring.AllFit, Ring.AllCommitted, Ring.LogOf, HeaderFits, Ring.FlagsOf;
    assert Ring.SlotOk(r.slots[k], k);
  }

  /** What the ring has delivered is a prefix of the protocol's log, whatever order the bios completed in. */
  lemma RingDeliversLog(r: Ring.RingState)
    requires Ring.Consistent(r)
    ensures r.done <= |r.slots| == |LoggedOps(Bios(r.subs))|
    ensures OpsOf(Ring.FramesOf(r.slots)[..r.done]) == LoggedOps(Bios(r.subs))[..r.done]
  {
    hide LoggedOps, Ring.LogOf, OpOf, Effect, Ring.SlotOk;
    RingSizes(r);
    LogsAgree(r.subs);
    var frames := Ring.FramesOf(r.slots)[..r.done];
    forall k | 0 <= k < r.done
      ensures OpsOf(frames)[k] == LoggedOps(Bios(r.subs))[k]
    {
      RecordHasEffect(r, k);
    }
  }

  lemma RingSizes(r: Ring.RingState)
    requires Ring.Consistent(r)
    ensures r.done <= |r.slots| == |Ring.LogOf(r.subs)|
    ensures forall k | 0 <= k < r.done :: r.slots[k].frame.hdr.state == ST_COMMITTED
  {
    hide Ring.AllMatch, Ring.AllFit, Ring.AllOk, Ring.LogOf;
  }

  lemma DeliveredWellFormed(r: Ring.RingState)
    requires Ring.Consistent(r)
    ensures r.done <= |r.slots| && AllWellFormed(Ring.FramesOf(r.slots)[..r.done])
  {
    hide Ring.LogOf, WellFormed;
    RingSizes(r);
    forall k | 0 <= k < r.done
      ensures WellFormed(r.slots[k].frame)
    {
      RecordHasEffect(r, k);
    }
  }

  /**
   From the ring to the replica: whatever bytes the reads returned, however they were cut, feeding them
   to consume with the carried tail applies exactly the log delivered so far, in order, and leaves no tail.
   */
  lemma RingToReplica(r: Ring.RingState, bufs: seq<seq<Byte>>, img: seq<Byte>)
    requires Ring.Consistent(r) && Join(bufs) == Concat(Ring.FramesOf(r.slots)[..r.done])
    ensures r.done <= |LoggedOps(Bios(r.subs))|
    ensures var fed := FeedAll(Feed([], []), bufs);
            && fed.tail == [] && AllWellFormed(fed.frames)
            && Daemon.AppliedAll(Daemon.Guarded(img, []), None, fed.frames).replica
               == Fold(img, LoggedOps(Bios(r.subs))[..r.done])
  {
    hide Ring.Consistent, LoggedOps, WellFormed, Concat, Daemon.AppliedAll, Fold, FeedAll, OpOf, Join, AllWellFormed, Bios;
    RingDeliversLog(r);
    DeliveredWellFormed(r);
    var frames := Ring.FramesOf(r.slots)[..r.done];
    ChunkingDoesNotMatter(frames, bufs);
    Daemon.AppliedUnflagged(Daemon.Guarded(img, []), frames);
  }

  /**
   The same from end to end: when no bio was dropped and every record has been delivered, the replica
   that started as the disk is the disk with every bio carried out in submission order.
   */
  lemma ReplicaIsDisk(r: Ring.RingState, bufs: seq<seq<Byte>>, disk: seq<Byte>)
    requires Ring.Consistent(r) && Join(bufs) == Concat(Ring.FramesOf(r.slots)[..r.done])
    requires r.done == |r.slots| && forall k | 0 <= k < |r.subs| :: r.subs[k].logged
    ensures Daemon.AppliedAll(Daemon.Guarded(disk, []), None, FeedAll(Feed([], []), bufs).frames).replica
            == Fold(disk, AllOps(Bios(r.subs)))
  {
    hide Ring.Consistent, Concat, Daemon.AppliedAll, Fold, FeedAll, LoggedOps;
    RingToReplica(r, bufs, disk);
    RingDeliversLog(r);
    AllLoggedOps(Bios(r.subs));
    assert LoggedOps(Bios(r.subs))[..r.done] == LoggedOps(Bios(r.subs));
  }

  lemma {:induction false} AllLoggedOps(subs: seq<Sub>)
    requires forall k | 0 <= k < |subs| :: subs[k].logged
    ensures LoggedOps(subs) == AllOps(subs)
  {
    if subs != [] {
      AllLoggedOps(subs[..|subs| - 1]);
      assert AllOps(subs) == AllOps(subs[..|subs| - 1]) + [subs[|subs| - 1].op];
    }
  }

  /* ------------------------------------------------------------------ */
  /* the dirty bitmap                                                   */

  /** The protocol's chunk numbers are the bits of the words, and its sweep has fetched the same words. */
  ghost predicate DirtyIs(d: Dirty, w: DirtyBitmap.Sweep, chunkSectors: nat) {
    && chunkSectors > 0 && d.chunk == chunkSectors * SECTOR
    && d.words == |w.words| && d.cursor == |w.taken|
    && forall b: nat ::
         (b in d.bitmap <==> DirtyBitmap.WordBit(w.words, b)) && (b in d.taken <==> DirtyBitmap.WordBit(w.taken, b))
  }

  /** A byte of the bio lies in chunk b exactly if a sector of it does. */
  lemma ChunksAreTouched(r: Ring.Request, chunkSectors: nat, b: nat)
    requires chunkSectors > 0 && Ring.RequestOk(r) && (r.rtype == REC_FLUSH ==> r.len == 0)
    ensures b in ChunksOf(Effect(r), chunkSectors * SECTOR)
            <==> DirtyBitmap.ChunkTouched(r.sector, r.len, chunkSectors, b)
  {
    var op, chunk := Effect(r), chunkSectors * SECTOR;
    assert Start(op) <= End(op) && (op.Flush? <==> r.rtype == REC_FLUSH);
    assert b * chunk == b * chunkSectors * SECTOR;
    assert (b + 1) * chunk == (b + 1) * chunkSectors * SECTOR;
    if b in ChunksOf(op, chunk) {
      var i :| Start(op) <= i < End(op) && i / chunk == b;
      ChunkBounds(i, chunk);
    }
    if DirtyBitmap.ChunkTouched(r.sector, r.len, chunkSectors, b) {
      var i := if Start(op) >= b * chunk then Start(op) else b * chunk;
      assert Start(op) <= i < End(op) && b * chunk <= i < (b + 1) * chunk;
      Bits.ModUnique(i, chunk, b, i - b * chunk);
      assert i / chunk in ChunksOf(op, chunk);
    }
  }

  lemma ChunkBounds(i: nat, chunk: nat)
    requires chunk > 0
    ensures i / chunk * chunk <= i < (i / chunk + 1) * chunk
  {
  }

  /** cdp_mark on the bitmap, as DirtyBitmap.Bitmap.Mark leaves it, is the protocol's Mark step. */
  lemma MarkIsMark(s: State, w: DirtyBitmap.Sweep, words: seq<DirtyBitmap.Word>, r: Ring.Request,
                   chunkSectors: nat, nbits: nat)
    requires Wf(s) && DirtyIs(s.dirty, w, chunkSectors)
    requires Ring.RequestOk(r) && (r.rtype == REC_FLUSH ==> r.len == 0)
    requires 0 < nbits && GapCover.InDevice(r, chunkSectors, nbits) && |words| == |w.words|
    requires forall b: nat :: DirtyBitmap.WordBit(words, b) <==>
                              DirtyBitmap.WordBit(w.words, b) || DirtyBitmap.Marked(r.sector, r.len, chunkSectors, nbits, b)
    ensures DirtyIs(Do(s, Mark(Effect(r))).dirty, w.(words := words), chunkSectors)
  {
    hide DirtyBitmap.Marked, DirtyBitmap.WordBit, ChunksOf, Effect, Wf, DirtyBitmap.ChunkTouched;
    forall b: nat
      ensures DirtyBitmap.Marked(r.sector, r.len, chunkSectors, nbits, b) <==> b in ChunksOf(Effect(r), s.dirty.chunk)
    {
      ChunksAreTouched(r, chunkSectors, b);
      MarkedIsTouched(r, chunkSectors, nbits, b);
    }
  }

  lemma MarkedIsTouched(r: Ring.Request, chunkSectors: nat, nbits: nat, b: nat)
    requires chunkSectors > 0 && nbits > 0 && GapCover.InDevice(r, chunkSectors, nbits)
    ensures DirtyBitmap.Marked(r.sector, r.len, chunkSectors, nbits, b)
            <==> DirtyBitmap.ChunkTouched(r.sector, r.len, chunkSectors, b)
  {
    if b < nbits {
      DirtyBitmap.MarkIsExact(r.sector, r.len, chunkSectors, nbits, b);
    } else if DirtyBitmap.ChunkTouched(r.sector, r.len, chunkSectors, b) {
      GapCover.ChunkHasBit(r, chunkSectors, nbits, b);
    }
  }

  /** One xchg of the read-and-clear is the protocol's ExchangeWord step. */
  lemma ExchangeIsExchange(s: State, w: DirtyBitmap.Sweep, chunkSectors: nat)
    requires Wf(s) && DirtyIs(s.dirty, w, chunkSectors) && Enabled(s, ExchangeWord)
    ensures DirtyBitmap.CanSweep(w, DirtyBitmap.Exchange)
    ensures DirtyIs(Do(s, ExchangeWord).dirty, DirtyBitmap.SweepNext(w, DirtyBitmap.Exchange), chunkSectors)
  {
    hide Bits.Bit;
    var w' := DirtyBitmap.SweepNext(w, DirtyBitmap.Exchange);
    forall b: nat
      ensures DirtyBitmap.WordBit(w'.taken, b)
              <==> DirtyBitmap.WordBit(w.taken, b) || (DirtyBitmap.WordBit(w.words, b) && b / WORD_CHUNKS == |w.taken|)
    {
      DirtyBitmap.WordBitAppend(w.taken, w.words[|w.taken|], b);
    }
  }

  /** Handing the finished snapshot to a recovery is the protocol's StartRecovery step, and its chunks are the bits set. */
  lemma CopyOutIsStart(s: State, w: DirtyBitmap.Sweep, chunkSectors: nat, extents: seq<Range>)
    requires Wf(s) && DirtyIs(s.dirty, w, chunkSectors) && Enabled(s, StartRecovery(extents))
    ensures DirtyBitmap.CanSweep(w, DirtyBitmap.CopyOut)
    ensures DirtyIs(Do(s, StartRecovery(extents)).dirty, DirtyBitmap.SweepNext(w, DirtyBitmap.CopyOut), chunkSectors)
    ensures forall i: nat :: InPlan(extents, i) <==> DirtyBitmap.WordBit(w.taken, i / s.dirty.chunk)
  {
    hide Bits.Bit;
  }

  /* ------------------------------------------------------------------ */
  /* the bitmap snapshot as the recovery's plan                         */

  /** The byte ranges that recover copies for a list of extents. */
  function PlanOf(extents: seq<Extents.Extent>): (plan: seq<Range>)
    ensures |plan| == |extents|
  {
    seq(|extents|, k requires 0 <= k < |extents| =>
      Range(extents[k].sector * SECTOR, (extents[k].sector + extents[k].count) * SECTOR))
  }

  lemma DivTwice(i: nat, c: nat)
    requires c > 0
    ensures i / (c * SECTOR) == i / SECTOR / c
  {
    var q, n := i / SECTOR / c, c * SECTOR;
    var r := (i / SECTOR % c) * SECTOR + i % SECTOR;
    assert i == q * n + r by {
      assert i / SECTOR == q * c + i / SECTOR % c;
      assert q * c * SECTOR == q * n;
    }
    assert i / SECTOR % c <= c - 1;
    Bits.ModUnique(i, n, q, r);
  }

  /** The extents decoded from a snapshot are a plan that covers exactly the chunks in the snapshot. */
  lemma ExtentsAreThePlan(s: State, extents: seq<Extents.Extent>, bits: seq<bool>, chunkSectors: nat)
    requires chunkSectors > 0 && Extents.Describes(extents, bits, chunkSectors)
    requires Wf(s) && s.copier.Idle? && s.plan == [] && s.dirty.cursor == s.dirty.words
    requires s.dirty.chunk == chunkSectors * SECTOR
    requires forall b: nat :: b in s.dirty.taken <==> b < |bits| && bits[b]
    ensures Enabled(s, StartRecovery(PlanOf(extents)))
  {
    hide Extents.Describes, InPlan, PlanOf, Extents.InExtent;
    forall i: nat
      ensures InPlan(PlanOf(extents), i) <==> i / s.dirty.chunk in s.dirty.taken
    {
      DivTwice(i, chunkSectors);
      Extents.ExtentsAreChunks(extents, bits, chunkSectors, i / SECTOR);
      PlannedIsInExtent(extents, i);
    }
  }

  lemma PlannedIsInExtent(extents: seq<Extents.Extent>, i: nat)
    ensures InPlan(PlanOf(extents), i) <==> exists k | 0 <= k < |extents| :: Extents.InExtent(extents[k], i / SECTOR)
  {
    var plan := PlanOf(extents);
    if k :| 0 <= k < |plan| && plan[k].lo <= i < plan[k].hi {
      assert Extents.InExtent(extents[k], i / SECTOR);
    }
    if k :| 0 <= k < |extents| && Extents.InExtent(extents[k], i / SECTOR) {
      assert plan[k].lo <= i < plan[k].hi;
    }
  }

  /* ------------------------------------------------------------------ */
  /* the daemon's methods as the protocol's steps                       */

  /** The range and size that both copy loops pass to copy_chunk are those of the protocol's Flag step. */
  lemma FlagChunkIsFlag(g: Daemon.Guarded, parked: seq<Frame>, s: State)
    requires Daemon.Represents(g, None, parked, s) && Enabled(s, Flag)
    ensures var off, n := s.plan[0].lo, Min(s.plan[0].hi - s.plan[0].lo, COPY_CHUNK);
            Daemon.Represents(Daemon.Guarded(g.replica, []), Some(Range(off, off + n)), parked, Do(s, Flag))
  {
    hide RereadSafe, LoggedOps, Newest, Apply;
  }

  /** Lowering the flag and detaching the deferred records is the HandOff step. */
  lemma HandOffIsHandOff(g: Daemon.Guarded, copying: Option<Range>, parked: seq<Frame>, s: State)
    requires Daemon.Represents(g, copying, parked, s) && Enabled(s, HandOff)
    ensures Daemon.Represents(Daemon.Guarded(g.replica, []), None, parked, Do(s, HandOff))
    ensures Do(s, HandOff).copier.HandingOff? && Do(s, HandOff).copier.late == OpsOf(g.deferred)
  {
    hide RereadSafe, LoggedOps, Newest, Apply, Acknowledged;
  }

  /** apply_one on the next late record is the ApplyLate step. */
  lemma ApplyLateIsApplyLate(g: Daemon.Guarded, parked: seq<Frame>, s: State, late: seq<Frame>)
    requires Daemon.Represents(g, None, parked, s) && Enabled(s, ApplyLate) && AllWellFormed(late)
    requires s.copier.late == OpsOf(late)
    ensures late != [] && Daemon.Represents(Daemon.Applied(g, None, late[0]), None, parked, Do(s, ApplyLate))
    ensures Do(s, ApplyLate).copier.late == OpsOf(late[1..])
  {
    hide RereadSafe, LoggedOps, Newest, Apply, Acknowledged, WellFormed, OpOf;
  }

  /** The replica write of copy_chunk is so many PutByte steps, and nothing but the replica and put changes. */
  lemma {:induction false} PutChunkIsPuts(s: State, k: nat) returns (steps: seq<Step>)
    requires Wf(s) && s.copier.Copying? && s.copier.put == 0 && !Skips(s) && k <= |s.copier.got|
    requires s.copier.lo + |s.copier.got| <= Size(s)
    ensures |steps| == k && (forall j | 0 <= j < k :: steps[j] == PutByte) && Legal(s, steps)
    ensures After(s, steps) == s.(replica := Splice(s.replica, s.copier.lo, s.copier.got[..k]),
                                  copier := s.copier.(put := k))
  {
    hide Apply, LoggedOps, KeepsOrder, RereadSafe;
    steps := [];
    if k > 0 {
      var before := PutChunkIsPuts(s, k - 1);
      RunAppend(s, before, PutByte);
      steps := before + [PutByte];
      assert s.copier.got[..k] == s.copier.got[..k - 1] + [s.copier.got[k - 1]];
    }
  }

  /* ------------------------------------------------------------------ */
  /* whole calls as runs of the protocol                                */

  /** The step of consume for a logged submission. */
  function ConsumeStep(park: bool): Step {
    if park then Park else Deliver
  }

  /** Every logged submission from the next one up to m has been acknowledged. */
  ghost predicate AcknowledgedUpTo(s: State, m: nat)
    requires m <= |s.dev.subs|
  {
    forall k | s.next <= k < m && s.dev.subs[k].logged :: Acknowledged(s, k)
  }

  /** What a call of consume that is given these records leaves, parking them or not, whatever chunk is flagged. */
  ghost predicate ConsumeLeaves(g: Daemon.Guarded, copying: Option<Range>, parked: seq<Frame>, frames: seq<Frame>,
                                park: bool, s: State)
    requires AllWellFormed(frames)
  {
    if park then Daemon.Represents(g, copying, parked + frames, s)
    else Daemon.Represents(Daemon.AppliedAll(g, copying, frames), copying, parked, s)
  }

  /**
   One call of consume is a run of Deliver steps, or of Park steps under the rebuild lock, that passes over the
   dropped submissions in between: on the records of the submissions up to m.
   */
  lemma {:induction false} ConsumeIsRun(g: Daemon.Guarded, copying: Option<Range>, parked: seq<Frame>, s: State,
                                        frames: seq<Frame>, m: nat, park: bool) returns (steps: seq<Step>)
    requires Daemon.Represents(g, copying, parked, s) && s.next <= m <= |s.dev.subs|
    requires AllWellFormed(frames) && OpsOf(frames) == LoggedOps(s.dev.subs[s.next..m]) && AcknowledgedUpTo(s, m)
    ensures Legal(s, steps) && forall k | 0 <= k < |steps| :: steps[k] in {ConsumeStep(park), PassDropped}
    ensures var s' := After(s, steps);
            s'.next == m && s'.dev == s.dev && ConsumeLeaves(g, copying, parked, frames, park, s')
    decreases m
  {
    hide LoggedOps, WellFormed, OpOf, Acknowledged, Enabled, Do, Daemon.Represents, Daemon.AppliedAll, Wf;
    steps := [];
    RepresentsIsWf(g, copying, parked, s);
    if m == s.next {
      NoRecords(frames, s.dev.subs[s.next..m]);
      Daemon.AppliedNone(g, copying);
      assert parked + frames == parked;
    } else {
      LastRecord(s.dev.subs, s.next, m, frames);
      var front := if s.dev.subs[m - 1].logged then frames[..|frames| - 1] else frames;
      steps := ConsumeIsRun(g, copying, parked, s, front, m - 1, park);
      var last := if s.dev.subs[m - 1].logged then ConsumeStep(park) else PassDropped;
      ConsumeNext(g, copying, parked, s, After(s, steps), frames, m, park);
      RunAppend(s, steps, last);
      steps := steps + [last];
    }
  }

  lemma RepresentsIsWf(g: Daemon.Guarded, copying: Option<Range>, parked: seq<Frame>, s: State)
    requires Daemon.Represents(g, copying, parked, s)
    ensures Wf(s)
  {
  }

  lemma NoRecords(frames: seq<Frame>, subs: seq<Sub>)
    requires subs == [] && OpsOf(frames) == LoggedOps(subs)
    ensures frames == []
  {
  }

  /** The records of the submissions up to m, without the last one. */
  lemma LastRecord(subs: seq<Sub>, next: nat, m: nat, frames: seq<Frame>)
    requires next < m <= |subs| && AllWellFormed(frames) && OpsOf(frames) == LoggedOps(subs[next..m])
    ensures subs[m - 1].logged ==>
              && frames != [] && OpOf(frames[|frames| - 1]) == subs[m - 1].op
              && AllWellFormed(frames[..|frames| - 1])
              && OpsOf(frames[..|frames| - 1]) == LoggedOps(subs[next..m - 1])
    ensures !subs[m - 1].logged ==> OpsOf(frames) == LoggedOps(subs[next..m - 1])
  {
    hide LoggedOps, OpOf, WellFormed;
    assert subs[next..m] == subs[next..m - 1] + [subs[m - 1]];
    LoggedAppend(subs[next..m - 1], subs[m - 1]);
    if subs[m - 1].logged {
      var n := |frames| - 1;
      assert OpsOf(frames)[n] == OpOf(frames[n]);
      assert OpsOf(frames[..n]) == OpsOf(frames)[..n];
    }
  }

  /** One more submission consumed. */
  lemma ConsumeNext(g: Daemon.Guarded, copying: Option<Range>, parked: seq<Frame>, s: State, t: State,
                    frames: seq<Frame>, m: nat, park: bool)
    requires Wf(s) && Wf(t) && t.dev == s.dev && t.next == m - 1 && s.next < m <= |s.dev.subs|
    requires AllWellFormed(frames) && AcknowledgedUpTo(s, m)
    requires s.dev.subs[m - 1].logged ==> frames != [] && OpOf(frames[|frames| - 1]) == s.dev.subs[m - 1].op
    requires var front := if s.dev.subs[m - 1].logged then frames[..|frames| - 1] else frames;
             AllWellFormed(front) && ConsumeLeaves(g, copying, parked, front, park, t)
    ensures var last := if s.dev.subs[m - 1].logged then ConsumeStep(park) else PassDropped;
            && Enabled(t, last) && Wf(Do(t, last)) && Do(t, last).next == m && Do(t, last).dev == s.dev
            && ConsumeLeaves(g, copying, parked, frames, park, Do(t, last))
  {
    hide LoggedOps, OpOf, WellFormed, Acknowledged, Daemon.AppliedAll, RereadSafe, Apply, OpsOf;
    if s.dev.subs[m - 1].logged {
      var n := |frames| - 1;
      var f, front := frames[n], frames[..n];
      assert front + [f] == frames;
      AcknowledgedHere(s, t, m - 1);
      if park {
        Daemon.ParkIsPark(g, copying, parked + front, t, f);
        assert parked + front + [f] == parked + frames;
      } else {
        Daemon.AppliedNext(g, copying, front, f);
        Daemon.ApplyOneIsDeliver(Daemon.AppliedAll(g, copying, front), copying, parked, t, f);
      }
    }
  }

  lemma AcknowledgedHere(s: State, t: State, k: nat)
    requires t.dev == s.dev && k < |s.dev.subs| && Acknowledged(s, k)
    ensures Acknowledged(t, k)
  {
  }

  /** One call of apply_pending is a run of Unpark steps, whatever chunk is flagged. */
  lemma {:induction false} ApplyPendingIsRun(g: Daemon.Guarded, copying: Option<Range>, parked: seq<Frame>, s: State)
    returns (steps: seq<Step>)
    requires Daemon.Represents(g, copying, parked, s) && AllWellFormed(parked)
    ensures Legal(s, steps) && forall k | 0 <= k < |steps| :: steps[k] == Unpark
    ensures Daemon.Represents(Daemon.AppliedAll(g, copying, parked), copying, [], After(s, steps))
    decreases |parked|
  {
    hide LoggedOps, WellFormed, OpOf, Enabled, Do, Daemon.Represents, Daemon.AppliedAll, Daemon.Applied, Wf;
    RepresentsIsWf(g, copying, parked, s);
    steps := [];
    if parked == [] {
      Daemon.AppliedNone(g, copying);
    } else {
      var f, rest := parked[0], parked[1..];
      UnparkEnabled(g, copying, parked, s);
      Daemon.ApplyPendingIsUnpark(g, copying, parked, s);
      var g' := Daemon.Applied(g, copying, f);
      RepresentsIsWf(g', copying, rest, Do(s, Unpark));
      steps := ApplyPendingIsRun(g', copying, rest, Do(s, Unpark));
      AppliedFront(g, copying, parked);
      var more := [Unpark] + steps;
      assert more[0] == Unpark && more[1..] == steps;
      steps := more;
    }
  }

  lemma UnparkEnabled(g: Daemon.Guarded, copying: Option<Range>, parked: seq<Frame>, s: State)
    requires Daemon.Represents(g, copying, parked, s) && parked != []
    ensures Wf(s) && Enabled(s, Unpark)
  {
    hide WellFormed, OpOf;
  }

  lemma AppliedFront(g: Daemon.Guarded, copying: Option<Range>, frames: seq<Frame>)
    requires frames != [] && AllWellFormed(frames)
    ensures Daemon.AppliedAll(g, copying, frames)
            == Daemon.AppliedAll(Daemon.Applied(g, copying, frames[0]), copying, frames[1..])
  {
    hide WellFormed, Daemon.Applied, Daemon.AppliedAll;
    assert frames == [frames[0]] + frames[1..];
    Daemon.AppliedConcat(g, copying, [frames[0]], frames[1..]);
    Daemon.AppliedNext(g, copying, [], frames[0]);
    Daemon.AppliedNone(g, copying);
    assert [] + [frames[0]] == [frames[0]];
  }

  /** How many records the first m submissions have. */
  function RecordsIn(subs: seq<Sub>, m: nat): nat
    requires m <= |subs|
  {
    |LoggedOps(subs[..m])|
  }

  lemma RecordsBetween(subs: seq<Sub>, n: nat, m: nat)
    requires n <= m <= |subs|
    ensures RecordsIn(subs, n) <= RecordsIn(subs, m) <= |LoggedOps(subs)|
    ensures LoggedOps(subs)[RecordsIn(subs, n)..RecordsIn(subs, m)] == LoggedOps(subs[n..m])
  {
    hide LoggedOps;
    assert subs[..m] == subs[..n] + subs[n..m] && subs == subs[..m] + subs[m..];
    LoggedConcat(subs[..n], subs[n..m]);
    LoggedConcat(subs[..m], subs[m..]);
  }

  /**
   From the ring to the protocol, with a copy under way: a read that returns the records of the submissions from the
   next one up to m, given to consume in one piece, is a run of the protocol that consumes exactly these.
   */
  lemma ReadIsRun(r: Ring.RingState, g: Daemon.Guarded, copying: Option<Range>, parked: seq<Frame>, s: State,
                  m: nat, buf: seq<Byte>, park: bool) returns (steps: seq<Step>)
    requires Ring.Consistent(r) && s.dev.subs == Bios(r.subs) && Daemon.Represents(g, copying, parked, s)
    requires s.next <= m <= |s.dev.subs| && AcknowledgedUpTo(s, m)
    requires RecordsIn(s.dev.subs, s.next) <= RecordsIn(s.dev.subs, m) <= r.done <= |r.slots|
    requires buf == Concat(Ring.FramesOf(r.slots)[RecordsIn(s.dev.subs, s.next)..RecordsIn(s.dev.subs, m)])
    ensures Parse(buf).tail == [] && Parse(buf).end == Partial && AllWellFormed(Parse(buf).frames)
    ensures Legal(s, steps) && forall k | 0 <= k < |steps| :: steps[k] in {ConsumeStep(park), PassDropped}
    ensures After(s, steps).next == m && ConsumeLeaves(g, copying, parked, Parse(buf).frames, park, After(s, steps))
  {
    hide Ring.Consistent, LoggedOps, WellFormed, Concat, Parse, OpOf, Bios, Daemon.Represents, ConsumeLeaves;
    hide AcknowledgedUpTo, RecordsIn, Legal, After;
    var i, j := RecordsIn(s.dev.subs, s.next), RecordsIn(s.dev.subs, m);
    var frames, delivered := Ring.FramesOf(r.slots)[i..j], Ring.FramesOf(r.slots)[..r.done];
    RingDeliversLog(r);
    DeliveredWellFormed(r);
    RecordsBetween(s.dev.subs, s.next, m);
    assert frames == delivered[i..j];
    assert OpsOf(frames) == OpsOf(delivered)[i..j];
    assert OpsOf(frames) == LoggedOps(s.dev.subs[s.next..m]);
    PackParseRoundTrip(frames);
    steps := ConsumeIsRun(g, copying, parked, s, frames, m, park);
  }

  /* ------------------------------------------------------------------ */
  /* one chunk copy as a run                                            */

  /** The bytes of the disk from lo on, so many of them. */
  function Front(disk: seq<Byte>, lo: nat, k: nat): seq<Byte>
    requires k > 0 ==> lo + k <= |disk|
  {
    if k == 0 then [] else disk[lo..lo + k]
  }

  lemma FrontNext(disk: seq<Byte>, lo: nat, k: nat)
    requires lo + k < |disk|
    ensures Front(disk, lo, k + 1) == Front(disk, lo, k) + [disk[lo + k]]
  {
  }

  lemma ReadStep(t: State)
    requires Wf(t) && t.copier.Copying? && t.copier.put == 0
    requires t.copier.lo + |t.copier.got| < t.copier.hi && t.copier.lo + |t.copier.got| < Size(t)
    ensures Enabled(t, ReadByte) && Wf(Do(t, ReadByte))
    ensures Do(t, ReadByte) == t.(copier := t.copier.(got := t.copier.got + [t.dev.disk[t.copier.lo + |t.copier.got|]]),
                                  good := Do(t, ReadByte).good)
  {
    hide RereadSafe, LoggedOps;
  }

  /** The device read of copy_chunk is so many ReadByte steps, and returns the bytes of the disk. */
  lemma {:induction false} ReadIsReads(s: State, k: nat) returns (steps: seq<Step>, good: set<nat>)
    requires Wf(s) && s.copier.Copying? && s.copier.got == [] && s.copier.put == 0
    requires s.copier.lo + k <= s.copier.hi && (k > 0 ==> s.copier.lo + k <= Size(s))
    ensures Legal(s, steps) && forall j | 0 <= j < |steps| :: steps[j] == ReadByte
    ensures k > 0 ==> s.copier.lo + k <= |s.dev.disk|
    ensures After(s, steps) == s.(copier := s.copier.(got := Front(s.dev.disk, s.copier.lo, k)), good := good)
  {
    hide RereadSafe, LoggedOps, Enabled, Do, KeepsOrder, SkipsSafely, Front;
    assert Front(s.dev.disk, s.copier.lo, 0) == [] by { FrontNothing(s.dev.disk, s.copier.lo); }
    steps, good := [], s.good;
    if k > 0 {
      var before, good' := ReadIsReads(s, k - 1);
      var t := After(s, before);
      FrontNext(s.dev.disk, s.copier.lo, k - 1);
      FrontLength(s.dev.disk, s.copier.lo, k - 1);
      ReadStep(t);
      RunAppend(s, before, ReadByte);
      steps, good := before + [ReadByte], Do(t, ReadByte).good;
    }
  }

  lemma FrontNothing(disk: seq<Byte>, lo: nat)
    ensures Front(disk, lo, 0) == []
  {
  }

  lemma FrontLength(disk: seq<Byte>, lo: nat, k: nat)
    requires k > 0 ==> lo + k <= |disk|
    ensures |Front(disk, lo, k)| == k
  {
  }

  /** What a chunk copy that reads m bytes leaves of the replica. */
  function ChunkCopied(s: State, lo: nat, m: nat): seq<Byte>
    requires m > 0 ==> lo + m <= |s.dev.disk| == |s.replica|
  {
    if m == 0 || (s.mode.Base? && AllZero(s.dev.disk[lo..lo + m])) then s.replica
    else Splice(s.replica, lo, s.dev.disk[lo..lo + m])
  }

  /** The chunk has been flagged and m bytes of it read. */
  ghost predicate ChunkRead(s: State, t: State, m: nat)
    requires s.plan != [] && s.plan[0].lo <= s.plan[0].hi
  {
    var lo := s.plan[0].lo;
    && (m > 0 ==> lo + m <= |s.dev.disk|)
    && t == s.(copier := Copying(lo, lo + Min(s.plan[0].hi - lo, COPY_CHUNK), Front(s.dev.disk, lo, m), 0),
               deferred := [], good := t.good)
  }

  lemma FlagAndRead(s: State, m: nat) returns (steps: seq<Step>)
    requires Wf(s) && Enabled(s, Flag) && m <= Min(s.plan[0].hi - s.plan[0].lo, COPY_CHUNK)
    requires m > 0 ==> s.plan[0].lo + m <= Size(s)
    ensures Legal(s, steps) && ChunkRead(s, After(s, steps), m)
  {
    hide RereadSafe, LoggedOps;
    var flagged := Do(s, Flag);
    var more, good := ReadIsReads(flagged, m);
    steps := [Flag] + more;
    assert steps[0] == Flag && steps[1..] == more;
  }

  /** From the bytes read to the end of the call, when no record has been deferred. */
  lemma PutAndFinish(s: State, t: State, m: nat) returns (steps: seq<Step>)
    requires Wf(s) && Wf(t) && Enabled(s, Flag) && ChunkRead(s, t, m) && m <= Min(s.plan[0].hi - s.plan[0].lo, COPY_CHUNK)
    requires (m == 0 <==> s.plan[0].lo >= Size(s)) && (m > 0 ==> s.plan[0].lo + m <= Size(s))
    ensures Legal(t, steps)
    ensures var end := After(t, steps);
            end == s.(replica := ChunkCopied(s, s.plan[0].lo, m), plan := Advance(s.plan, m), deferred := [],
                      stale := end.stale, good := {})
  {
    hide RereadSafe, LoggedOps, Acknowledged, KeepsOrder, SkipsSafely;
    var puts: seq<Step> := [];
    if m > 0 && !Skips(t) {
      puts := PutChunkIsPuts(t, m);
      assert t.copier.got[..m] == t.copier.got;
    }
    var u := After(t, puts);
    LowerFlag(u);
    steps := puts + [HandOff, Finish];
    RunConcat(t, puts, [HandOff, Finish]);
  }

  /** The end of a call when no record has been deferred. */
  lemma LowerFlag(u: State)
    requires Wf(u) && Enabled(u, HandOff) && u.deferred == []
    ensures Legal(u, [HandOff, Finish])
    ensures After(u, [HandOff, Finish])
            == u.(copier := Idle, deferred := [], plan := Advance(u.plan, |u.copier.got|),
                  stale := if Skips(u) then u.stale else u.stale - u.good, good := {})
  {
    hide Enabled, Do;
    FlagGoesDown(u);
    var off := Do(u, HandOff);
    assert [HandOff, Finish][1..] == [Finish] && [Finish][1..] == [];
    assert Legal(off, [Finish]) && After(off, [Finish]) == Do(off, Finish);
  }

  lemma FlagGoesDown(u: State)
    requires Wf(u) && Enabled(u, HandOff) && u.deferred == []
    ensures var off := Do(u, HandOff);
            && Wf(off) && Enabled(off, Finish) && Wf(Do(off, Finish))
            && Do(off, Finish) == u.(copier := Idle, deferred := [], plan := Advance(u.plan, |u.copier.got|),
                                     stale := if Skips(u) then u.stale else u.stale - u.good, good := {})
  {
    hide RereadSafe, LoggedOps, Acknowledged;
  }

  /**
   One call of copy_chunk, for any number of bytes the device may return and with nothing in between, is a run of
   the protocol, and leaves what the method leaves: the bytes of the disk, unless they are a zero chunk that a base
   copy skips, and the rest of the plan.
   */
  lemma CopyChunkIsRun(g: Daemon.Guarded, parked: seq<Frame>, s: State, m: nat) returns (steps: seq<Step>)
    requires Daemon.Represents(g, None, parked, s) && Enabled(s, Flag)
    requires m <= Min(s.plan[0].hi - s.plan[0].lo, COPY_CHUNK)
    requires (m == 0 <==> s.plan[0].lo >= Size(s)) && (m > 0 ==> s.plan[0].lo + m <= Size(s))
    ensures Legal(s, steps)
    ensures var end := After(s, steps);
            && Daemon.Represents(Daemon.Guarded(ChunkCopied(s, s.plan[0].lo, m), []), None, parked, end)
            && end.copier == Idle && end.plan == Advance(s.plan, m) && end.dev == s.dev && end.next == s.next
            && end.dirty == s.dirty && end.mode == s.mode
  {
    hide RereadSafe, LoggedOps, Enabled, Do, WellFormed, OpOf, ChunkRead;
    var first := FlagAndRead(s, m);
    var second := PutAndFinish(s, After(s, first), m);
    steps := first + second;
    RunConcat(s, first, second);
    IdleBefore(s);
  }

  lemma IdleBefore(s: State)
    requires Wf(s) && Enabled(s, Flag)
    ensures s.copier == Idle
  {
  }
}
