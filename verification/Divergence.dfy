/**
 What a wrong step leads to: a record that overtakes another, or a chunk skipped wrongly, shows in the
 replica at rest, exactly when the condition of the convergence theorems fails at some byte.
 */
module Divergence {
  import opened Images
  import opened Protocol
  import opened Invariant
  import opened Preserve
  import opened Convergence

  /** The step submits no bio at byte i and takes no record that overtakes one there. */
  ghost predicate Quiet(s: State, step: Step, i: nat)
    requires Wf(s) && Enabled(s, step)
  {
    && (step.Submit? ==> !Touches(step.op, i))
    && (Consumes(step) ==> KeepsOrderAt(Overtaken(s, step), Taken(s, step), Behind(s, step), i))
  }

  ghost predicate QuietAt(s: State, steps: seq<Step>, i: nat)
    requires Legal(s, steps)
    decreases |steps|
  {
    steps == [] || (Quiet(s, steps[0], i) && QuietAt(Do(s, steps[0]), steps[1..], i))
  }

  /** Nor does it copy byte i. */
  ghost predicate Leaves(s: State, step: Step, i: nat)
    requires Wf(s) && Enabled(s, step)
  {
    !InPlan(s.plan, i) && Quiet(s, step, i)
  }

  /** The run leaves byte i to the records that are already pending, in their order. */
  ghost predicate LeavesAlone(s: State, steps: seq<Step>, i: nat)
    requires Legal(s, steps)
    decreases |steps|
  {
    steps == [] || (Leaves(s, steps[0], i) && LeavesAlone(Do(s, steps[0]), steps[1..], i))
  }

  lemma SubmitElsewhere(s: State, op: Op, logged: bool, i: nat)
    requires Wf(s) && i < Size(s) && !Touches(op, i)
    ensures var s' := Do(s, Submit(op, logged));
            Wf(s') && Drained(s', i) == Drained(s, i) && Logical(s', i) == Logical(s, i)
  {
    hide LoggedOps, Over, AllOps, Pending, Unseen;
    PendingAfterSubmit(s, op, logged);
    OverAppend(s.replica[i], Pending(s), op, i);
    OverAppend(s.dev.base[i], AllOps(s.dev.subs), op, i);
  }

  lemma PutElsewhere(s: State, i: nat)
    requires Wf(s) && CopierOk(s) && Enabled(s, PutByte) && i < Size(s) && !InPlan(s.plan, i)
    ensures Wf(Do(s, PutByte)) && Do(s, PutByte).replica[i] == s.replica[i]
  {
    hide RereadSafe;
    if i == s.copier.lo + s.copier.put {
      ReadIsInChunk(s, i);
    }
  }

  /** Such a step changes neither what the replica will hold at byte i nor what the disk will. */
  lemma StepLeaves(s: State, step: Step, i: nat)
    requires Wf(s) && CopierOk(s) && Enabled(s, step) && i < Size(s) && Leaves(s, step, i)
    ensures var s' := Do(s, step);
            && Wf(s') && Size(s') == Size(s) && s'.dev.base == s.dev.base
            && Drained(s', i) == Drained(s, i) && Logical(s', i) == Logical(s, i)
  {
    hide LoggedOps, Over, Pending, AllOps, RereadSafe, Acknowledged, Apply, KeepsOrderAt, InPlan;
    var s' := Do(s, step);
    match step
    case Submit(op, logged) => SubmitElsewhere(s, op, logged, i);
    case Deliver => DeliverExact(s, step, i);
    case Park => DeliverExact(s, step, i);
    case Unpark => DeliverExact(s, step, i);
    case ApplyLate => ApplyLateByte(s, i);
    case PassDropped => PassPending(s);
    case PutByte =>
      PutElsewhere(s, i);
      SamePendingTouch(s, s', i);
    case Land(j) => SamePendingTouch(s, s', i);
    case _ => SamePendingTouch(s, s', i);
  }

  lemma StepKeepsDevice(s: State, step: Step)
    requires Wf(s) && DeviceOk(s) && Enabled(s, step)
    ensures Wf(Do(s, step)) && DeviceOk(Do(s, step))
  {
    hide RereadSafe, Acknowledged, Apply, LoggedOps, Over, InPlan;
    match step
    case Submit(op, logged) => AllOpsAppend(s.dev.subs, Sub(op, logged));
      var s', ops := Do(s, step), AllOps(s.dev.subs);
      assert forall i | 0 <= i < Size(s) :: (ops + [op])[..s.dev.landed[i]] == ops[..s.dev.landed[i]];
    case Land(i) =>
      var ops, k := AllOps(s.dev.subs), s.dev.landed[i];
      assert ops[..k + 1] == ops[..k] + [ops[k]];
      OverAppend(s.dev.base[i], ops[..k], ops[k], i);
    case _ => SameDevice(s, Do(s, step));
  }

  /** Right or wrong, byte i stays what it will become, and at rest that shows. */
  lemma {:induction false} RunLeaves(s: State, steps: seq<Step>, i: nat)
    requires Legal(s, steps) && CopierOk(s) && DeviceOk(s) && i < Size(s) && LeavesAlone(s, steps, i)
    requires AtRest(After(s, steps))
    ensures var end := After(s, steps);
            Size(end) == Size(s) && (end.replica[i] == end.dev.disk[i] <==> Synced(s, i))
    decreases |steps|
  {
    hide Enabled, Do, CopierOk, DeviceOk, Leaves, Drained, Logical, AtRest;
    if steps == [] {
      RestIsDrained(s, i);
    } else {
      var s' := Do(s, steps[0]);
      StepLeaves(s, steps[0], i);
      StepKeepsCopier(s, steps[0]);
      StepKeepsDevice(s, steps[0]);
      SyncedStays(s, s', i);
      RunLeaves(s', steps[1..], i);
    }
  }

  lemma SyncedStays(s: State, s': State, i: nat)
    requires Wf(s) && Wf(s') && i < Size(s) && Size(s') == Size(s)
    requires Drained(s', i) == Drained(s, i) && Logical(s', i) == Logical(s, i)
    ensures Synced(s', i) == Synced(s, i)
  {
  }

  /**
   A record is taken while byte i is right, and the rest of the run leaves the byte alone. At rest the
   replica has the disk's content there if and only if the record overtook none that mattered.
   */
  lemma OvertakingShows(s: State, step: Step, rest: seq<Step>, i: nat)
    requires Wf(s) && CopierOk(s) && DeviceOk(s) && i < Size(s) && Synced(s, i)
    requires Enabled(s, step) && Consumes(step)
    requires Legal(Do(s, step), rest) && LeavesAlone(Do(s, step), rest, i) && AtRest(After(Do(s, step), rest))
    ensures var end := After(Do(s, step), rest);
            && Size(end) == Size(s)
            && (end.replica[i] == end.dev.disk[i]
                <==> KeepsOrderAt(Overtaken(s, step), Taken(s, step), Behind(s, step), i))
  {
    hide Enabled, Do, CopierOk, DeviceOk, Leaves, Drained, Logical, AtRest, KeepsOrderAt, LeavesAlone;
    var s' := Do(s, step);
    DeliverExact(s, step, i);
    StepKeepsCopier(s, step);
    StepKeepsDevice(s, step);
    TakingKeepsLogical(s, step, i);
    SyncedIff(s, s', i);
    RunLeaves(s', rest, i);
  }

  lemma TakingKeepsLogical(s: State, step: Step, i: nat)
    requires Wf(s) && Enabled(s, step) && Consumes(step) && i < Size(s)
    ensures Wf(Do(s, step)) && Size(Do(s, step)) == Size(s) && Logical(Do(s, step), i) == Logical(s, i)
  {
    hide Over, RereadSafe, Acknowledged, Apply;
    TakingChanges(s, step);
  }

  lemma SyncedIff(s: State, s': State, i: nat)
    requires Wf(s) && Wf(s') && i < Size(s) && Size(s') == Size(s) && Synced(s, i) && Logical(s', i) == Logical(s, i)
    ensures Synced(s', i) <==> Drained(s', i) == Drained(s, i)
  {
  }

  /**
   A zero chunk is skipped, byte i of it was read currently, and the rest of the run leaves the byte alone.
   At rest the replica has the disk's content there if and only if it held zero or a pending record wrote it.
   */
  lemma SkippingShows(s: State, rest: seq<Step>, i: nat)
    requires Inv(s) && Enabled(s, HandOff) && Skips(s) && i < Size(s) && WasRead(s, i) && i in s.good
    requires Legal(Do(s, HandOff), rest) && LeavesAlone(Do(s, HandOff), rest, i) && AtRest(After(Do(s, HandOff), rest))
    ensures var end := After(Do(s, HandOff), rest);
            Size(end) == Size(s) && (end.replica[i] == end.dev.disk[i] <==> SkipSafeAt(s, i))
  {
    hide Enabled, Do, Leaves, Drained, Logical, AtRest, LeavesAlone, SkipSafeAt, Inv;
    ReadZero(s, i);
    SkipExact(s, i);
    HandOffLeaves(s, i);
    StepKeepsCopier(s, HandOff);
    StepKeepsDevice(s, HandOff);
    SyncedStays(s, Do(s, HandOff), i);
    RunLeaves(Do(s, HandOff), rest, i);
  }

  lemma ReadZero(s: State, i: nat)
    requires Inv(s) && Skips(s) && i < Size(s) && WasRead(s, i) && i in s.good
    ensures Wf(s) && CopierOk(s) && DeviceOk(s) && Over(0, Pending(s), i) == Logical(s, i)
  {
    hide Over, LoggedOps, RereadSafe, TouchedBy;
  }

  lemma HandOffLeaves(s: State, i: nat)
    requires Wf(s) && CopierOk(s) && Enabled(s, HandOff) && i < Size(s)
    ensures var s' := Do(s, HandOff);
            && Wf(s') && Size(s') == Size(s)
            && Drained(s', i) == Drained(s, i) && Logical(s', i) == Logical(s, i)
  {
    hide LoggedOps, Over, RereadSafe, Acknowledged;
    SamePendingTouch(s, Do(s, HandOff), i);
  }

  /** A lost byte is left alone by every run that is quiet there and does not mark its chunk. */
  lemma {:induction false} LostIsAlone(s: State, steps: seq<Step>, i: nat)
    requires Legal(s, steps) && CopierOk(s) && GoodWasRead(s) && Lost(s, i) && NoMarksAt(s, steps, i) && QuietAt(s, steps, i)
    ensures LeavesAlone(s, steps, i)
    decreases |steps|
  {
    hide Enabled, Do, CopierOk, GoodWasRead, MarksAt, Quiet, InPlan;
    if steps != [] {
      StepKeepsLost(s, steps[0], i);
      StepKeepsCopier(s, steps[0]);
      StepKeepsGood(s, steps[0]);
      SameMarks(s, Do(s, steps[0]), steps, i);
      LostIsAlone(Do(s, steps[0]), steps[1..], i);
    }
  }

  /**
   What a lost byte means for the replica: if no bio is submitted there, nothing overtakes there and its chunk is
   not marked anew, it holds the disk's content at rest if and only if it was right when it was lost.
   */
  lemma LostShows(s: State, steps: seq<Step>, i: nat)
    requires Legal(s, steps) && CopierOk(s) && DeviceOk(s) && GoodWasRead(s) && i < Size(s) && Lost(s, i)
    requires NoMarksAt(s, steps, i) && QuietAt(s, steps, i) && AtRest(After(s, steps))
    ensures var end := After(s, steps);
            Size(end) == Size(s) && i in end.stale && (end.replica[i] == end.dev.disk[i] <==> Synced(s, i))
  {
    hide Enabled, Do, CopierOk, DeviceOk, GoodWasRead, Synced, MarksAt, Quiet, LeavesAlone, QuietAt, AtRest;
    LostIsAlone(s, steps, i);
    LostStaysLost(s, steps, i);
    RunLeaves(s, steps, i);
  }
}
