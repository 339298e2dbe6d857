/** Whole runs of the protocol: when the replica equals the disk. */
module Convergence {
  import opened Images
  import opened Protocol
  import opened Invariant
  import opened Preserve

  /* ------------------------------------------------------------------ */
  /* runs                                                               */

  ghost predicate Legal(s: State, steps: seq<Step>)
    decreases |steps|
  {
    Wf(s) && (steps == [] || (Enabled(s, steps[0]) && Legal(Do(s, steps[0]), steps[1..])))
  }

  ghost function After(s: State, steps: seq<Step>): (r: State)
    requires Legal(s, steps)
    ensures Wf(r)
    decreases |steps|
  {
    if steps == [] then s else After(Do(s, steps[0]), steps[1..])
  }

  /** No record overtakes one that matters anywhere in the run. */
  ghost predicate KeepsOrder(s: State, steps: seq<Step>)
    requires Legal(s, steps)
    decreases |steps|
  {
    steps == [] || (OrderSafe(s, steps[0]) && KeepsOrder(Do(s, steps[0]), steps[1..]))
  }

  /** No zero chunk is skipped wrongly anywhere in the run. On a replica created empty none can be. */
  ghost predicate SkipsSafely(s: State, steps: seq<Step>)
    requires Legal(s, steps)
    decreases |steps|
  {
    steps == []
    || ((s.mode == Base(true) || SkipSafe(s, steps[0])) && SkipsSafely(Do(s, steps[0]), steps[1..]))
  }

  lemma {:induction false} RunKeepsInv(s: State, steps: seq<Step>)
    requires Inv(s) && Legal(s, steps) && KeepsOrder(s, steps) && SkipsSafely(s, steps)
    ensures Inv(After(s, steps))
    decreases |steps|
  {
    hide Inv, Enabled, Do, OrderSafe, SkipSafe;
    if steps != [] {
      StepKeepsInv(s, steps[0]);
      RunKeepsInv(Do(s, steps[0]), steps[1..]);
    }
  }

  /** A base copy onto a used replica is the only run that can skip wrongly. */
  lemma {:induction false} OnlyUsedReplicasMatter(s: State, steps: seq<Step>)
    requires Legal(s, steps) && s.mode != Base(false)
    ensures SkipsSafely(s, steps)
    decreases |steps|
  {
    hide Enabled, Do;
    if steps != [] {
      ModeStays(s, steps[0]);
      OnlyUsedReplicasMatter(Do(s, steps[0]), steps[1..]);
    }
  }

  lemma ModeStays(s: State, step: Step)
    requires Wf(s) && Enabled(s, step)
    ensures Do(s, step).mode == if step.StartRecovery? then Recovery else s.mode
  {
  }

  lemma {:induction false} RunAppend(s: State, steps: seq<Step>, step: Step)
    requires Legal(s, steps) && Enabled(After(s, steps), step) && Wf(Do(After(s, steps), step))
    ensures Legal(s, steps + [step]) && After(s, steps + [step]) == Do(After(s, steps), step)
    ensures KeepsOrder(s, steps) && OrderSafe(After(s, steps), step) ==> KeepsOrder(s, steps + [step])
    ensures SkipsSafely(s, steps) && SkipSafe(After(s, steps), step) ==> SkipsSafely(s, steps + [step])
    decreases |steps|
  {
    hide Enabled, Do, OrderSafe, SkipSafe;
    var more := steps + [step];
    if steps == [] {
      assert more == [step] && more[1..] == [];
    } else {
      RunAppend(Do(s, steps[0]), steps[1..], step);
      assert more[0] == steps[0] && more[1..] == steps[1..] + [step];
    }
  }

  lemma {:induction false} RunConcat(s: State, a: seq<Step>, b: seq<Step>)
    requires Legal(s, a) && Legal(After(s, a), b)
    ensures Legal(s, a + b) && After(s, a + b) == After(After(s, a), b)
    decreases |a|
  {
    hide Enabled, Do;
    if a == [] {
      assert a + b == b;
    } else {
      RunConcat(Do(s, a[0]), a[1..], b);
      assert (a + b)[0] == a[0] && (a + b)[1..] == a[1..] + b;
    }
  }

  /** Bios, the device and the main loop never wait for the copy thread or for each other. */
  lemma NobodyWaits(s: State, op: Op, logged: bool, i: nat)
    requires Wf(s)
    ensures Enabled(s, Mark(op)) && Enabled(s, Submit(op, logged))
    ensures i < Size(s) && s.dev.landed[i] < |s.dev.subs| ==> Enabled(s, Land(i))
    ensures s.next < |s.dev.subs| && s.dev.subs[s.next].logged && Acknowledged(s, s.next) ==>
              Enabled(s, Deliver) && Enabled(s, Park)
    ensures s.next < |s.dev.subs| && !s.dev.subs[s.next].logged ==> Enabled(s, PassDropped)
    ensures s.parked != [] ==> Enabled(s, Unpark)
  {
  }

  /** The copy thread never waits for them either: while there is something to copy one of its steps can be taken. */
  lemma CopyNeverStuck(s: State)
    requires Wf(s) && CopierOk(s) && (s.copier != Idle || s.plan != [])
    ensures Enabled(s, Flag) || Enabled(s, NextRange) || Enabled(s, ReadByte) || Enabled(s, PutByte)
            || Enabled(s, HandOff) || Enabled(s, ApplyLate) || Enabled(s, Finish)
    ensures s.copier.Copying? && s.copier.put == 0 && s.copier.got != [] ==> Enabled(s, HandOff) || Enabled(s, PutByte)
  {
  }

  predicate Drop(step: Step) {
    step.Submit? && !step.logged
  }

  predicate NoDrops(steps: seq<Step>) {
    forall k | 0 <= k < |steps| :: !Drop(steps[k])
  }

  /* ------------------------------------------------------------------ */
  /* starting points                                                    */

  ghost predicate DirtyOk(d: Dirty) {
    d.chunk > 0 && d.taken == {} && d.cursor == 0
  }

  /** A node at attach time: nothing submitted yet, nothing copied. */
  ghost predicate Attached(s: State) {
    && Wf(s) && DirtyOk(s.dirty)
    && s.dev.subs == [] && s.dev.disk == s.dev.base && s.next == 0
    && s.copier == Idle && s.deferred == [] && s.parked == [] && s.stale == {} && s.good == {}
  }

  /** A base copy to do, onto a replica created empty or onto one used before. */
  ghost predicate BaseStart(s: State) {
    Attached(s) && s.mode.Base? && s.plan == [Range(0, Size(s))] && (s.mode.zeroed ==> AllZero(s.replica))
  }

  /** A replica that equals the disk, with nothing to copy. */
  ghost predicate SyncedStart(s: State) {
    Attached(s) && s.plan == [] && s.replica == s.dev.base
  }

  lemma StartIsInv(s: State)
    requires BaseStart(s) || SyncedStart(s)
    ensures Inv(s)
  {
    assert AllOps(s.dev.subs) == [];
    assert s.dev.subs[0..] == [] && LoggedOps([]) == [];
    assert Pending(s) == Unseen(s) == [];
    forall i | 0 <= i < Size(s)
      ensures ByteOk(s, i) && RereadSafe(s, i)
    {
      if BaseStart(s) {
        assert s.plan[0].lo <= i < s.plan[0].hi;
      }
    }
  }

  /** Nothing is under way: every record applied, every transfer landed, no copy to do. */
  ghost predicate AtRest(s: State) {
    && Wf(s) && s.copier == Idle && s.plan == [] && s.next == |s.dev.subs| && s.parked == []
    && forall i | 0 <= i < Size(s) :: s.dev.landed[i] == |s.dev.subs|
  }

  /** At rest the replica is what it will become, and the disk is what was submitted. */
  lemma RestIsDrained(s: State, i: nat)
    requires AtRest(s) && DeviceOk(s) && i < Size(s)
    ensures Synced(s, i) <==> s.replica[i] == s.dev.disk[i]
  {
    assert s.dev.subs[s.next..] == [] && LoggedOps([]) == [];
    assert Pending(s) == [];
    assert AllOps(s.dev.subs)[..|s.dev.subs|] == AllOps(s.dev.subs);
  }

  /** At rest, the replica has the disk's content on every byte that no drop left to re-read. */
  lemma RestIsEqual(s: State)
    requires Inv(s) && AtRest(s)
    ensures forall i | 0 <= i < Size(s) && i !in s.stale :: s.replica[i] == s.dev.disk[i]
  {
    hide Pending, LoggedOps, AllOps, Over;
    forall i | 0 <= i < Size(s) && i !in s.stale
      ensures s.replica[i] == s.dev.disk[i]
    {
      assert ByteOk(s, i);
      RestIsDrained(s, i);
    }
  }

  /* ------------------------------------------------------------------ */
  /* no drops: base copy and plain replication                          */

  lemma StepKeepsNoStale(s: State, step: Step)
    requires Wf(s) && Enabled(s, step) && !Drop(step) && s.stale == {}
    ensures Do(s, step).stale == {}
  {
  }

  lemma {:induction false} RunKeepsNoStale(s: State, steps: seq<Step>)
    requires Legal(s, steps) && NoDrops(steps) && s.stale == {}
    ensures After(s, steps).stale == {}
    decreases |steps|
  {
    hide Enabled, Do;
    if steps != [] {
      StepKeepsNoStale(s, steps[0]);
      assert NoDrops(steps[1..]);
      RunKeepsNoStale(Do(s, steps[0]), steps[1..]);
    }
  }

  /**
   Base copy onto a replica created empty: however chunk reads and writes, short reads, skipped zero
   chunks, live writes, parking, deliveries and deferrals interleave, once the copy is through and
   nothing is pending the replica equals the disk.
   */
  lemma BaseCopyConverges(s: State, steps: seq<Step>)
    requires BaseStart(s) && s.mode == Base(true) && Legal(s, steps) && KeepsOrder(s, steps) && NoDrops(steps)
    requires AtRest(After(s, steps))
    ensures After(s, steps).replica == After(s, steps).dev.disk
  {
    OnlyUsedReplicasMatter(s, steps);
    BaseCopyOnAnyReplica(s, steps);
  }

  /** The same onto any replica, if each skipped zero is there already or still to come. */
  lemma BaseCopyOnAnyReplica(s: State, steps: seq<Step>)
    requires BaseStart(s) && Legal(s, steps) && KeepsOrder(s, steps) && SkipsSafely(s, steps) && NoDrops(steps)
    requires AtRest(After(s, steps))
    ensures After(s, steps).replica == After(s, steps).dev.disk
  {
    hide Inv, KeepsOrder, SkipsSafely, BaseStart, AtRest;
    StartIsInv(s);
    StartIsUnstale(s);
    RunKeepsInv(s, steps);
    RunKeepsNoStale(s, steps);
    RestIsEqual(After(s, steps));
    InvIsWf(After(s, steps));
  }

  lemma StartIsUnstale(s: State)
    requires BaseStart(s)
    ensures s.stale == {}
  {
  }

  lemma InvIsWf(s: State)
    requires Inv(s)
    ensures Wf(s)
  {
  }

  /* ------------------------------------------------------------------ */
  /* re-reading one byte                                                */

  lemma AdvancePast(plan: seq<Range>, m: nat, i: nat, size: nat)
    requires plan != [] && InPlan(plan, i) && i < size
    requires m == 0 ==> plan[0].lo >= size
    ensures InPlan(Advance(plan, m), i) || plan[0].lo <= i < plan[0].lo + m
  {
    if !(plan[0].lo <= i < plan[0].lo + m) {
      AdvanceKeepsRest(plan, m, i);
    }
  }

  lemma AdvanceAddsNothing(plan: seq<Range>, m: nat, i: nat)
    requires plan != [] && InPlan(Advance(plan, m), i)
    ensures InPlan(plan, i)
  {
    var rest := Advance(plan, m);
    var k :| 0 <= k < |rest| && rest[k].lo <= i < rest[k].hi;
    if m == 0 {
      assert plan[k + 1] == rest[k];
    } else {
      assert plan[k].lo <= i < plan[k].hi;
    }
  }

  function ChunkOf(s: State, i: nat): nat
    requires s.dirty.chunk > 0
  {
    i / s.dirty.chunk
  }

  /** A step that drops a write to byte i. */
  predicate DropsAt(step: Step, i: nat) {
    Drop(step) && Touches(step.op, i)
  }

  predicate NoDropsAt(steps: seq<Step>, i: nat) {
    forall k | 0 <= k < |steps| :: !DropsAt(steps[k], i)
  }

  /** Once a byte is safe to re-read it stays so until the next drop there. */
  lemma StepKeepsSafe(s: State, step: Step, i: nat)
    requires Wf(s) && CopierOk(s) && Enabled(s, step) && i < Size(s) && RereadSafe(s, i) && !DropsAt(step, i)
    ensures Wf(Do(s, step)) && Size(Do(s, step)) == Size(s) && RereadSafe(Do(s, step), i)
  {
    hide LoggedOps, Newest, TouchedBy, AllOps, Pending, Acknowledged, Apply;
    match step
    case Submit(op, logged) => SubmitSafe(s, op, logged, i);
    case Deliver => TakeTouches(s, step, i);
    case Park => TakeTouches(s, step, i);
    case Unpark => TakeTouches(s, step, i);
    case ApplyLate => ApplyLateByte(s, i);
    case PassDropped => PassPending(s);
    case Land(j) => SamePendingTouch(s, Do(s, step), i);
    case _ => SamePendingTouch(s, Do(s, step), i);
  }

  lemma PassPending(s: State)
    requires Wf(s) && Enabled(s, PassDropped)
    ensures Pending(Do(s, PassDropped)) == Pending(s)
  {
    hide LoggedOps, RereadSafe, Acknowledged;
    LoggedHead(s.dev.subs, s.next);
    assert Queue(Do(s, PassDropped)) == Queue(s);
  }

  lemma SamePendingTouch(s: State, s': State, i: nat)
    requires s.next <= |s.dev.subs| && s'.dev.subs == s.dev.subs && s'.next == s.next && s'.parked == s.parked
    requires Held(s') == Held(s)
    ensures Pending(s') == Pending(s)
  {
  }

  /** The chunk of byte i is in a word the sweep under way has fetched or will fetch. */
  ghost predicate Collecting(s: State, i: nat)
    requires Wf(s)
  {
    && s.copier == Idle && s.plan == []
    && ChunkOf(s, i) < WORD_CHUNKS * s.dirty.words
    && (ChunkOf(s, i) in s.dirty.taken
        || (ChunkOf(s, i) in s.dirty.bitmap && ChunkOf(s, i) >= WORD_CHUNKS * s.dirty.cursor))
  }

  /** Byte i is still to be read by the recovery, or was read safely in the current chunk. */
  ghost predicate Rereading(s: State, i: nat)
    requires Wf(s)
  {
    s.mode == Recovery && InPlan(s.plan, i) && (WasRead(s, i) ==> i in s.good)
  }

  lemma StepKeepsCollecting(s: State, step: Step, i: nat)
    requires Wf(s) && Enabled(s, step) && Collecting(s, i)
    ensures Wf(Do(s, step))
    ensures if step.StartRecovery? then Rereading(Do(s, step), i) else Collecting(Do(s, step), i)
  {
    hide RereadSafe, LoggedOps, Apply, Acknowledged;
  }

  lemma StepKeepsRereading(s: State, step: Step, i: nat)
    requires Wf(s) && CopierOk(s) && Enabled(s, step) && !DropsAt(step, i) && i < Size(s) && RereadSafe(s, i)
    requires i in s.stale ==> Rereading(s, i)
    ensures Wf(Do(s, step)) && (i in Do(s, step).stale ==> Rereading(Do(s, step), i))
  {
    hide RereadSafe, LoggedOps, Apply, Acknowledged, Over, DeviceOk, Newest;
    match step
    case HandOff =>
      if i in s.stale {
        AdvancePast(s.plan, |s.copier.got|, i, Size(s));
      }
    case NextRange =>
      if i in s.stale {
        AdvanceKeepsRest(s.plan, 0, i);
      }
    case _ =>
  }

  lemma StepKeepsCopier(s: State, step: Step)
    requires Wf(s) && CopierOk(s) && Enabled(s, step)
    ensures Wf(Do(s, step)) && CopierOk(Do(s, step))
  {
    hide RereadSafe, LoggedOps, Acknowledged, InPlan;
    if Consumes(step) {
      TakeKeepsCopier(s, step);
    }
  }

  /** A byte collected by the sweep, or planned, is safely re-read by the time everything is at rest. */
  lemma {:induction false} CollectedIsReread(s: State, steps: seq<Step>, i: nat)
    requires Legal(s, steps) && CopierOk(s) && NoDropsAt(steps, i) && i < Size(s) && RereadSafe(s, i)
    requires (i in s.stale ==> Rereading(s, i)) || (Collecting(s, i) && exists k | 0 <= k < |steps| :: steps[k].StartRecovery?)
    ensures i in After(s, steps).stale ==> Rereading(After(s, steps), i)
    decreases |steps|
  {
    hide Enabled, Do, CopierOk, RereadSafe, Collecting, Rereading;
    if steps != [] {
      var s' := Do(s, steps[0]);
      StepKeepsSafe(s, steps[0], i);
      StepKeepsCopier(s, steps[0]);
      assert NoDropsAt(steps[1..], i);
      if i in s.stale ==> Rereading(s, i) {
        StepKeepsRereading(s, steps[0], i);
      } else {
        StepKeepsCollecting(s, steps[0], i);
        if !steps[0].StartRecovery? {
          var k :| 0 <= k < |steps| && steps[k].StartRecovery?;
          assert steps[1..][k - 1] == steps[k];
        }
      }
      CollectedIsReread(s', steps[1..], i);
    }
  }

  /** Byte i waits to be re-read, and nothing is left that would make a recovery read it. */
  ghost predicate Lost(s: State, i: nat)
    requires Wf(s)
  {
    && i in s.stale && !InPlan(s.plan, i)
    && ChunkOf(s, i) !in s.dirty.bitmap && ChunkOf(s, i) !in s.dirty.taken
  }

  /** A step that marks the chunk of byte i. */
  ghost predicate MarksAt(s: State, step: Step, i: nat)
    requires Wf(s)
  {
    step.Mark? && ChunkOf(s, i) in ChunksOf(step.op, s.dirty.chunk)
  }

  ghost predicate NoMarksAt(s: State, steps: seq<Step>, i: nat)
    requires Wf(s)
  {
    forall k | 0 <= k < |steps| :: !MarksAt(s, steps[k], i)
  }

  ghost predicate GoodWasRead(s: State) {
    forall i | i in s.good :: WasRead(s, i)
  }

  lemma StepKeepsGood(s: State, step: Step)
    requires Wf(s) && GoodWasRead(s) && CopierOk(s) && Enabled(s, step)
    ensures GoodWasRead(Do(s, step))
  {
    hide RereadSafe, LoggedOps, Apply, Acknowledged;
  }

  lemma StepKeepsLost(s: State, step: Step, i: nat)
    requires Wf(s) && CopierOk(s) && GoodWasRead(s) && Enabled(s, step) && Lost(s, i) && !MarksAt(s, step, i)
    ensures Wf(Do(s, step)) && Lost(Do(s, step), i) && Do(s, step).dirty.chunk == s.dirty.chunk
  {
    hide RereadSafe, LoggedOps, Apply, Acknowledged, InPlan;
    match step
    case HandOff =>
      NotPlannedNotGood(s, i);
      if InPlan(Advance(s.plan, |s.copier.got|), i) {
        AdvanceAddsNothing(s.plan, |s.copier.got|, i);
      }
    case NextRange =>
      if InPlan(s.plan[1..], i) {
        AdvanceAddsNothing(s.plan, 0, i);
      }
    case _ =>
  }

  lemma NotPlannedNotGood(s: State, i: nat)
    requires Wf(s) && CopierOk(s) && GoodWasRead(s) && !InPlan(s.plan, i)
    ensures i !in s.good
  {
    if i in s.good {
      ReadIsInChunk(s, i);
    }
  }

  /** A lost byte is never re-read again, in any order and with any further drops, until its chunk is marked anew. */
  lemma {:induction false} LostStaysLost(s: State, steps: seq<Step>, i: nat)
    requires Legal(s, steps) && CopierOk(s) && GoodWasRead(s) && Lost(s, i) && NoMarksAt(s, steps, i)
    ensures Lost(After(s, steps), i)
    decreases |steps|
  {
    hide Enabled, Do, CopierOk, GoodWasRead, Lost, MarksAt;
    if steps != [] {
      var s' := Do(s, steps[0]);
      StepKeepsLost(s, steps[0], i);
      StepKeepsCopier(s, steps[0]);
      StepKeepsGood(s, steps[0]);
      SameMarks(s, s', steps, i);
      LostStaysLost(s', steps[1..], i);
    }
  }

  lemma SameMarks(s: State, s': State, steps: seq<Step>, i: nat)
    requires Wf(s) && Wf(s') && s'.dirty.chunk == s.dirty.chunk && steps != [] && NoMarksAt(s, steps, i)
    ensures NoMarksAt(s', steps[1..], i)
  {
    forall k | 0 <= k < |steps[1..]|
      ensures !MarksAt(s', steps[1..][k], i)
    {
      assert !MarksAt(s, steps[k + 1], i);
    }
  }

  /* ------------------------------------------------------------------ */
  /* overflow and recovery                                              */

  /** The main loop is about to read and clear the bitmap: no copy, no sweep under way. */
  ghost predicate SweepStarts(s: State) {
    s.copier == Idle && s.plan == [] && s.dirty.taken == {} && s.dirty.cursor == 0
  }

  /** The bitmap has a bit for every byte of the disk. */
  ghost predicate BitmapCovers(s: State)
    requires s.dirty.chunk > 0
  {
    forall i | 0 <= i < Size(s) :: i / s.dirty.chunk < WORD_CHUNKS * s.dirty.words
  }

  /** Every byte left stale by a drop lies in a chunk whose bit is still set. */
  ghost predicate StaleMarked(s: State)
    requires Wf(s)
  {
    forall i | i in s.stale :: ChunkOf(s, i) in s.dirty.bitmap
  }

  ghost predicate StaleInDisk(s: State) {
    forall i | i in s.stale :: i < Size(s)
  }

  /** Every stale byte is safe to re-read. */
  ghost predicate StaleSafe(s: State)
    requires Wf(s)
  {
    forall i | i in s.stale :: i < Size(s) && RereadSafe(s, i)
  }

  predicate NoStarts(steps: seq<Step>) {
    forall k | 0 <= k < |steps| :: !steps[k].StartRecovery?
  }

  /** Byte i waits to be re-read, and no copy under way will read it. */
  ghost predicate Unplanned(s: State, i: nat) {
    i in s.stale && !InPlan(s.plan, i)
  }

  lemma StepStaysUnplanned(s: State, step: Step, i: nat)
    requires Wf(s) && CopierOk(s) && GoodWasRead(s) && Enabled(s, step) && !step.StartRecovery? && Unplanned(s, i)
    ensures Wf(Do(s, step)) && Unplanned(Do(s, step), i)
  {
    hide RereadSafe, LoggedOps, Apply, Acknowledged, InPlan;
    match step
    case HandOff =>
      NotPlannedNotGood(s, i);
      if InPlan(Advance(s.plan, |s.copier.got|), i) {
        AdvanceAddsNothing(s.plan, |s.copier.got|, i);
      }
    case NextRange =>
      if InPlan(s.plan[1..], i) {
        AdvanceAddsNothing(s.plan, 0, i);
      }
    case _ =>
  }

  /** Such a byte waits for another recovery, whatever is marked, dropped or overtaken meanwhile. */
  lemma {:induction false} UnplannedWaits(s: State, steps: seq<Step>, i: nat)
    requires Legal(s, steps) && CopierOk(s) && GoodWasRead(s) && Unplanned(s, i) && NoStarts(steps)
    ensures Unplanned(After(s, steps), i)
    decreases |steps|
  {
    hide Enabled, Do, CopierOk, GoodWasRead, Unplanned;
    if steps != [] {
      StepStaysUnplanned(s, steps[0], i);
      StepKeepsCopier(s, steps[0]);
      StepKeepsGood(s, steps[0]);
      assert NoStarts(steps[1..]);
      UnplannedWaits(Do(s, steps[0]), steps[1..], i);
    }
  }

  /**
   A stale byte that has landed and has no older record pending is re-read by the recovery that starts now
   if and only if its chunk is among those the sweep has fetched.
   */
  lemma RereadIffTaken(s: State, extents: seq<Range>, steps: seq<Step>, i: nat)
    requires Wf(s) && CopierOk(s) && GoodWasRead(s) && Enabled(s, StartRecovery(extents))
    requires i in s.stale && i < Size(s) && RereadSafe(s, i)
    requires var s' := Do(s, StartRecovery(extents));
             Legal(s', steps) && NoDropsAt(steps, i) && NoStarts(steps) && AtRest(After(s', steps))
    ensures i !in After(Do(s, StartRecovery(extents)), steps).stale <==> ChunkOf(s, i) in s.dirty.taken
  {
    hide Do, Enabled, RereadSafe, CopierOk, GoodWasRead, InPlan;
    var start := StartRecovery(extents);
    var s' := Do(s, start);
    StepKeepsCopier(s, start);
    StepKeepsGood(s, start);
    StepKeepsSafe(s, start, i);
    StartPlans(s, extents, i);
    if ChunkOf(s, i) in s.dirty.taken {
      CollectedIsReread(s', steps, i);
      NothingPlanned(After(s', steps), i);
    } else {
      UnplannedWaits(s', steps, i);
    }
  }

  lemma StartPlans(s: State, extents: seq<Range>, i: nat)
    requires Wf(s) && Enabled(s, StartRecovery(extents))
    ensures var s' := Do(s, StartRecovery(extents));
            && s'.stale == s.stale && s'.mode == Recovery && !WasRead(s', i)
            && (InPlan(s'.plan, i) <==> ChunkOf(s, i) in s.dirty.taken)
  {
  }

  lemma NothingPlanned(s: State, i: nat)
    requires s.plan == []
    ensures !InPlan(s.plan, i)
  {
  }

  /** The sweep is under way: no copy, and only words below the cursor have been fetched. */
  ghost predicate Sweeping(s: State) {
    s.copier == Idle && s.plan == [] && forall c | c in s.dirty.taken :: c / WORD_CHUNKS < s.dirty.cursor
  }

  lemma StepKeepsSweeping(s: State, step: Step, c: nat)
    requires Wf(s) && Sweeping(s) && Enabled(s, step) && !step.StartRecovery?
    ensures var s' := Do(s, step);
            && Wf(s') && Sweeping(s') && s.stale <= s'.stale && s'.dirty.chunk == s.dirty.chunk
            && s.dirty.cursor <= s'.dirty.cursor
    ensures c / WORD_CHUNKS < s.dirty.cursor ==> (c in Do(s, step).dirty.taken <==> c in s.dirty.taken)
  {
    hide RereadSafe, LoggedOps, Apply, Acknowledged;
  }

  /** Once the word of a chunk has been fetched, marks set later do not get into this sweep. */
  lemma {:induction false} RunSweeps(s: State, steps: seq<Step>, c: nat)
    requires Legal(s, steps) && Sweeping(s) && NoStarts(steps)
    ensures var s' := After(s, steps);
            && Sweeping(s') && s.stale <= s'.stale && s'.dirty.chunk == s.dirty.chunk
            && (c / WORD_CHUNKS < s.dirty.cursor ==> (c in s'.dirty.taken <==> c in s.dirty.taken))
    decreases |steps|
  {
    hide Enabled, Do, Sweeping;
    if steps != [] {
      StepKeepsSweeping(s, steps[0], c);
      assert NoStarts(steps[1..]);
      RunSweeps(Do(s, steps[0]), steps[1..], c);
    }
  }

  lemma FetchTakes(s: State, c: nat)
    requires Wf(s) && Sweeping(s) && Enabled(s, ExchangeWord) && c / WORD_CHUNKS == s.dirty.cursor
    ensures var s' := Do(s, ExchangeWord);
            && c / WORD_CHUNKS < s'.dirty.cursor && (c in s'.dirty.taken <==> c in s.dirty.bitmap)
  {
    hide RereadSafe;
  }

  lemma {:induction false} RunKeepsShape(s: State, steps: seq<Step>, i: nat)
    requires Legal(s, steps) && CopierOk(s) && GoodWasRead(s) && i < Size(s) && RereadSafe(s, i) && NoDropsAt(steps, i)
    ensures var s' := After(s, steps); CopierOk(s') && GoodWasRead(s') && i < Size(s') && RereadSafe(s', i)
    decreases |steps|
  {
    hide Enabled, Do, CopierOk, GoodWasRead, RereadSafe;
    if steps != [] {
      StepKeepsCopier(s, steps[0]);
      StepKeepsGood(s, steps[0]);
      StepKeepsSafe(s, steps[0], i);
      assert NoDropsAt(steps[1..], i);
      RunKeepsShape(Do(s, steps[0]), steps[1..], i);
    }
  }

  /**
   A whole recovery, with live writes and marks all through it. The sweep starts; fetching is the run up to the
   exchange of the word that holds the byte's chunk, collecting the rest of the sweep, copying what follows the
   start of the recovery. A stale byte that has landed and has no older record pending is re-read if and only if
   the bit of its chunk is set when its word is fetched.
   */
  lemma RereadIffMarked(s: State, fetching: seq<Step>, collecting: seq<Step>, extents: seq<Range>, copying: seq<Step>, i: nat)
    requires Wf(s) && CopierOk(s) && GoodWasRead(s) && SweepStarts(s) && i in s.stale && i < Size(s) && RereadSafe(s, i)
    requires Legal(s, fetching) && NoStarts(fetching) && NoDropsAt(fetching, i)
    requires var f := After(s, fetching);
             && f.dirty.cursor == ChunkOf(s, i) / WORD_CHUNKS && Enabled(f, ExchangeWord)
             && Legal(Do(f, ExchangeWord), collecting) && NoStarts(collecting) && NoDropsAt(collecting, i)
             && var g := After(Do(f, ExchangeWord), collecting);
                && Enabled(g, StartRecovery(extents))
                && Legal(Do(g, StartRecovery(extents)), copying) && NoStarts(copying) && NoDropsAt(copying, i)
                && AtRest(After(Do(g, StartRecovery(extents)), copying))
    ensures var f := After(s, fetching);
            var g := After(Do(f, ExchangeWord), collecting);
            i !in After(Do(g, StartRecovery(extents)), copying).stale <==> ChunkOf(s, i) in f.dirty.bitmap
  {
    hide Enabled, Do, RereadSafe, CopierOk, GoodWasRead, Sweeping, AtRest, Legal, After;
    var c := ChunkOf(s, i);
    var f := After(s, fetching);
    assert Sweeping(s) by { SweepHasBegun(s); }
    RunSweeps(s, fetching, c);
    RunKeepsShape(s, fetching, i);
    var fetched := Do(f, ExchangeWord);
    FetchTakes(f, c);
    StepKeepsSweeping(f, ExchangeWord, c);
    StepKeepsCopier(f, ExchangeWord);
    StepKeepsGood(f, ExchangeWord);
    StepKeepsSafe(f, ExchangeWord, i);
    RunSweeps(fetched, collecting, c);
    RunKeepsShape(fetched, collecting, i);
    RereadIffTaken(After(fetched, collecting), extents, copying, i);
  }

  lemma SweepHasBegun(s: State)
    requires SweepStarts(s)
    ensures Sweeping(s)
  {
  }

  lemma InvParts(s: State)
    requires Inv(s)
    ensures Wf(s) && CopierOk(s) && GoodWasRead(s) && DeviceOk(s)
  {
  }

  /** From the moment the sweep starts, whatever interleaves without further drops, recovery converges. */
  lemma RecoveryConverges(s: State, steps: seq<Step>)
    requires Inv(s) && SweepStarts(s) && BitmapCovers(s) && StaleSafe(s) && StaleMarked(s)
    requires Legal(s, steps) && KeepsOrder(s, steps) && NoDrops(steps)
    requires exists k | 0 <= k < |steps| :: steps[k].StartRecovery?
    requires AtRest(After(s, steps))
    ensures After(s, steps).replica == After(s, steps).dev.disk
    ensures Inv(After(s, steps)) && After(s, steps).stale == {}
  {
    hide Inv, Do, Enabled, OrderSafe, RereadSafe, SkipsSafely, KeepsOrder;
    InvParts(s);
    PlanlessSkipsSafely(s, steps);
    RunKeepsInv(s, steps);
    var end := After(s, steps);
    StaleStays(s, steps);
    forall i | i in end.stale
      ensures false
    {
      assert Collecting(s, i);
      NoDropsAnywhere(steps, i);
      CollectedIsReread(s, steps, i);
    }
    RestIsEqual(end);
    InvIsWf(end);
  }

  lemma NoDropsAnywhere(steps: seq<Step>, i: nat)
    requires NoDrops(steps)
    ensures NoDropsAt(steps, i)
  {
  }

  /** Without drops nothing becomes stale. */
  lemma {:induction false} StaleStays(s: State, steps: seq<Step>)
    requires Legal(s, steps) && NoDrops(steps)
    ensures After(s, steps).stale <= s.stale
    decreases |steps|
  {
    hide Enabled, Do;
    if steps != [] {
      StepAddsNoStale(s, steps[0]);
      assert NoDrops(steps[1..]);
      StaleStays(Do(s, steps[0]), steps[1..]);
    }
  }

  lemma StepAddsNoStale(s: State, step: Step)
    requires Wf(s) && Enabled(s, step) && !Drop(step)
    ensures Do(s, step).stale <= s.stale
  {
  }

  /** With nothing left to copy no chunk is skipped, whatever the replica was. */
  lemma {:induction false} PlanlessSkipsSafely(s: State, steps: seq<Step>)
    requires Legal(s, steps) && (s.mode.Base? ==> s.plan == [] && !s.copier.Copying?)
    ensures SkipsSafely(s, steps)
    decreases |steps|
  {
    hide Enabled, Do;
    if steps != [] {
      StepStaysPlanless(s, steps[0]);
      PlanlessSkipsSafely(Do(s, steps[0]), steps[1..]);
    }
  }

  lemma StepStaysPlanless(s: State, step: Step)
    requires Wf(s) && Enabled(s, step) && (s.mode.Base? ==> s.plan == [] && !s.copier.Copying?)
    ensures var s' := Do(s, step); s'.mode.Base? ==> s'.plan == [] && !s'.copier.Copying?
  {
  }

  /* ------------------------------------------------------------------ */
  /* a whole episode                                                    */

  /** Some consumed record came after every drop: the record that carried the gap mark. */
  ghost predicate GapServed(s: State)
    requires Wf(s)
  {
    exists g | 0 <= g < s.next :: s.dev.subs[g].logged && forall k | g <= k < |s.dev.subs| :: s.dev.subs[k].logged
  }

  /** Every dropped transfer has reached the disk. */
  ghost predicate DropsLanded(s: State)
    requires Wf(s)
  {
    forall k | 0 <= k < |s.dev.subs| && !s.dev.subs[k].logged :: Acknowledged(s, k)
  }

  /** The gap record has been consumed, pending.bin is empty, and no record is held. */
  ghost predicate AllServed(s: State)
    requires Wf(s)
  {
    GapServed(s) && s.parked == [] && Held(s) == []
  }

  /** Then a byte is safe to re-read if and only if its newest bio was logged or has landed. */
  lemma ServedExactly(s: State, i: nat)
    requires Wf(s) && AllServed(s) && i < Size(s)
    ensures RereadSafe(s, i) <==>
            var n := Newest(AllOps(s.dev.subs), i); n < 0 || s.dev.subs[n].logged || s.dev.landed[i] > n
  {
    hide LoggedOps, TouchedBy, Newest, LastLogged, Acknowledged;
    var subs := s.dev.subs;
    var n := Newest(AllOps(subs), i);
    if n >= 0 && !subs[n].logged {
      assert Pending(s) == LoggedOps(subs[s.next..]);
      LastLoggedDecides(0, subs[s.next..], i);
      QueuedIsOlder(subs, s.next, i);
    }
  }

  /** The overflow is over: besides, the dropped transfers have landed. */
  ghost predicate EpisodeOver(s: State)
    requires Wf(s)
  {
    AllServed(s) && DropsLanded(s)
  }

  /** Then every byte is safe to re-read. */
  lemma OverIsSafe(s: State, i: nat)
    requires Wf(s) && EpisodeOver(s) && i < Size(s)
    ensures RereadSafe(s, i)
  {
    hide RereadSafe, AllServed, Acknowledged, Newest;
    ServedExactly(s, i);
    var n := Newest(AllOps(s.dev.subs), i);
    if n >= 0 && !s.dev.subs[n].logged {
      Landed(s, n, i);
    }
  }

  lemma QueuedIsOlder(subs: seq<Sub>, next: nat, i: nat)
    requires next <= |subs|
    ensures LastLogged(subs[next..], i) >= 0 ==> next + LastLogged(subs[next..], i) <= Newest(AllOps(subs), i)
  {
    hide LastLogged, Newest;
    var k := LastLogged(subs[next..], i);
    if k >= 0 {
      assert AllOps(subs)[next + k] == subs[next..][k].op;
    }
  }

  /** cdp_log marks the chunks of a bio before it tries to reserve. */
  ghost predicate MarksPrecedeDrops(steps: seq<Step>) {
    forall k | 0 <= k < |steps| && Drop(steps[k]) :: exists j | 0 <= j < k :: steps[j] == Mark(steps[k].op)
  }

  /** The same, given that the operations in marked have been marked before the run. */
  ghost predicate DropsMarked(marked: set<Op>, steps: seq<Step>) {
    forall k | 0 <= k < |steps| && Drop(steps[k]) ::
      steps[k].op in marked || exists j | 0 <= j < k :: steps[j] == Mark(steps[k].op)
  }

  lemma DropsMarkedRest(marked: set<Op>, steps: seq<Step>)
    requires DropsMarked(marked, steps) && steps != []
    ensures Drop(steps[0]) ==> steps[0].op in marked
    ensures DropsMarked(if steps[0].Mark? then marked + {steps[0].op} else marked, steps[1..])
  {
    var rest := steps[1..];
    forall k | 0 <= k < |rest| && Drop(rest[k])
      ensures (rest[k].op in if steps[0].Mark? then marked + {steps[0].op} else marked)
              || exists j | 0 <= j < k :: rest[j] == Mark(rest[k].op)
    {
      assert rest[k] == steps[k + 1];
      if rest[k].op !in marked {
        var j :| 0 <= j < k + 1 && steps[j] == Mark(steps[k + 1].op);
        if j > 0 {
          assert rest[j - 1] == steps[j];
        }
      }
    }
  }

  /** No bitmap word is fetched during the run. */
  predicate NoSweep(steps: seq<Step>) {
    forall k | 0 <= k < |steps| :: !steps[k].ExchangeWord? && !steps[k].StartRecovery?
  }

  /** The marks of these operations are set. */
  ghost predicate MarksSet(s: State, marked: set<Op>)
    requires s.dirty.chunk > 0
  {
    forall op | op in marked :: ChunksOf(op, s.dirty.chunk) <= s.dirty.bitmap
  }

  /** Whenever a bio is dropped, its chunks are marked. */
  ghost predicate DropsFindMarks(s: State, steps: seq<Step>)
    requires Legal(s, steps)
    decreases |steps|
  {
    steps == []
    || ((Drop(steps[0]) ==> ChunksOf(steps[0].op, s.dirty.chunk) <= s.dirty.bitmap)
        && DropsFindMarks(Do(s, steps[0]), steps[1..]))
  }

  /** Without a sweep in between, marking first is enough for that. */
  lemma {:induction false} MarkedFirst(s: State, steps: seq<Step>, marked: set<Op>)
    requires Legal(s, steps) && NoSweep(steps) && DropsMarked(marked, steps) && MarksSet(s, marked)
    ensures DropsFindMarks(s, steps)
    decreases |steps|
  {
    hide Enabled, Do, MarksSet;
    if steps != [] {
      DropsMarkedRest(marked, steps);
      StepKeepsMarks(s, steps[0], marked);
      assert NoSweep(steps[1..]);
      MarkedFirst(Do(s, steps[0]), steps[1..], if steps[0].Mark? then marked + {steps[0].op} else marked);
    }
  }

  lemma StepKeepsMarks(s: State, step: Step, marked: set<Op>)
    requires Wf(s) && Enabled(s, step) && !step.ExchangeWord? && !step.StartRecovery? && MarksSet(s, marked)
    requires Drop(step) ==> step.op in marked
    ensures var s' := Do(s, step); Wf(s') && MarksSet(s', if step.Mark? then marked + {step.op} else marked)
    ensures Drop(step) ==> ChunksOf(step.op, s.dirty.chunk) <= s.dirty.bitmap
  {
    hide RereadSafe, LoggedOps, Apply, Acknowledged;
  }

  /** What a sweep-free run keeps of the bitmap. */
  ghost predicate DirtyKept(s: State)
    requires Wf(s)
  {
    s.dirty.taken == {} && s.dirty.cursor == 0 && StaleMarked(s) && BitmapCovers(s) && StaleInDisk(s)
  }

  lemma StepKeepsDirty(s: State, step: Step)
    requires Wf(s) && Enabled(s, step) && !step.ExchangeWord? && !step.StartRecovery? && DirtyKept(s)
    requires Drop(step) ==> ChunksOf(step.op, s.dirty.chunk) <= s.dirty.bitmap
    ensures Wf(Do(s, step)) && DirtyKept(Do(s, step))
  {
    hide RereadSafe, LoggedOps, Apply, Acknowledged;
  }

  /** So whatever is dropped during it is marked at its end. */
  lemma {:induction false} SweepFreeKeepsMarks(s: State, steps: seq<Step>)
    requires Legal(s, steps) && NoSweep(steps) && DropsFindMarks(s, steps) && DirtyKept(s)
    ensures DirtyKept(After(s, steps))
    decreases |steps|
  {
    hide Enabled, Do, DirtyKept;
    if steps != [] {
      StepKeepsDirty(s, steps[0]);
      assert NoSweep(steps[1..]);
      SweepFreeKeepsMarks(Do(s, steps[0]), steps[1..]);
    }
  }

  /** cdp_log's order is enough: without a sweep in between, every dropped byte ends up marked. */
  lemma MarkingFirstIsEnough(s: State, steps: seq<Step>)
    requires Ready(s) && Legal(s, steps) && NoSweep(steps) && MarksPrecedeDrops(steps)
    ensures var m := After(s, steps); StaleMarked(m) && m.dirty.taken == {} && m.dirty.cursor == 0
  {
    hide Inv, Enabled, Do, Legal, After;
    InvIsWf(s);
    MarkedFirst(s, steps, {});
    SweepFreeKeepsMarks(s, steps);
  }

  lemma {:induction false} RunKeepsCovers(s: State, steps: seq<Step>)
    requires Legal(s, steps) && BitmapCovers(s) && StaleInDisk(s)
    ensures BitmapCovers(After(s, steps)) && StaleInDisk(After(s, steps))
    decreases |steps|
  {
    hide Enabled, Do;
    if steps != [] {
      StepKeepsCovers(s, steps[0]);
      RunKeepsCovers(Do(s, steps[0]), steps[1..]);
    }
  }

  lemma StepKeepsCovers(s: State, step: Step)
    requires Wf(s) && Enabled(s, step) && BitmapCovers(s) && StaleInDisk(s)
    ensures Wf(Do(s, step)) && BitmapCovers(Do(s, step)) && StaleInDisk(Do(s, step))
  {
    hide RereadSafe, LoggedOps, Apply, Acknowledged;
  }

  /** A state from which an overflow episode may start. */
  ghost predicate Ready(s: State) {
    Inv(s) && s.stale == {} && s.dirty.taken == {} && s.dirty.cursor == 0 && BitmapCovers(s)
  }

  /** An overflow and its recovery. */
  datatype Episode = Episode(overflow: seq<Step>, recovery: seq<Step>)

  /**
   During the overflow bios are marked, logged or dropped, parked and delivered in any interleaving,
   possibly while a copy runs and words of the bitmap are fetched. When it ends the overflow is over, the next
   sweep is about to start, and what was dropped is marked. Then the bitmap is read and cleared, the extents
   are re-read in any slices, and writes go on without further drops until everything is at rest, no sweep
   under way.
   */
  ghost predicate Plays(s: State, e: Episode) {
    && Legal(s, e.overflow) && KeepsOrder(s, e.overflow) && SkipsSafely(s, e.overflow)
    && var m := After(s, e.overflow);
       && SweepStarts(m) && EpisodeOver(m) && StaleMarked(m)
       && Legal(m, e.recovery) && KeepsOrder(m, e.recovery) && NoDrops(e.recovery)
       && (exists k | 0 <= k < |e.recovery| :: e.recovery[k].StartRecovery?)
       && var end := After(m, e.recovery);
          AtRest(end) && end.dirty.taken == {} && end.dirty.cursor == 0
  }

  ghost function EndOf(s: State, e: Episode): State
    requires Plays(s, e)
  {
    After(After(s, e.overflow), e.recovery)
  }

  /** After an episode the replica equals the disk on every byte, and the next episode may start. */
  lemma OverflowEpisodeConverges(s: State, e: Episode)
    requires Ready(s) && Plays(s, e)
    ensures EndOf(s, e).replica == EndOf(s, e).dev.disk && Ready(EndOf(s, e))
  {
    hide Inv, Do, Enabled, OrderSafe, Legal, KeepsOrder, SkipsSafely, After, RereadSafe, EpisodeOver, BitmapCovers;
    hide AtRest;
    InvIsWf(s);
    var m := After(s, e.overflow);
    RunKeepsInv(s, e.overflow);
    RunKeepsCovers(s, e.overflow);
    EpisodeIsSafe(m);
    RecoveryConverges(m, e.recovery);
    RunKeepsCovers(m, e.recovery);
  }

  lemma EpisodeIsSafe(s: State)
    requires Wf(s) && EpisodeOver(s) && StaleInDisk(s)
    ensures StaleSafe(s)
  {
    hide RereadSafe, EpisodeOver;
    forall i | i in s.stale
      ensures RereadSafe(s, i)
    {
      OverIsSafe(s, i);
    }
  }

  /** Any number of episodes, one after the other. */
  ghost predicate AllPlay(s: State, es: seq<Episode>)
    decreases |es|
  {
    es == [] || (Plays(s, es[0]) && AllPlay(EndOf(s, es[0]), es[1..]))
  }

  ghost function EndOfAll(s: State, es: seq<Episode>): State
    requires AllPlay(s, es)
    decreases |es|
  {
    if es == [] then s else EndOfAll(EndOf(s, es[0]), es[1..])
  }

  /** However many overflows there are, each recovery brings the replica back to the disk. */
  lemma {:induction false} EpisodesConverge(s: State, es: seq<Episode>)
    requires Ready(s) && AllPlay(s, es)
    ensures Ready(EndOfAll(s, es))
    ensures es != [] ==> EndOfAll(s, es).replica == EndOfAll(s, es).dev.disk
    decreases |es|
  {
    hide Ready, Plays, EndOf;
    if es != [] {
      OverflowEpisodeConverges(s, es[0]);
      EpisodesConverge(EndOf(s, es[0]), es[1..]);
    }
  }
}
