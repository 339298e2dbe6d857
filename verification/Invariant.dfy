/**
 The invariant of the replication protocol: for every byte that is neither waiting to
 be re-read after a drop nor still in the area to copy, applying the pending records to
 the replica gives the disk.
 */
module Invariant {
  import opened Records
  import opened Images
  import opened Protocol

  /* ------------------------------------------------------------------ */
  /* lists of operations                                                */

  lemma AllOpsAppend(subs: seq<Sub>, x: Sub)
    ensures AllOps(subs + [x]) == AllOps(subs) + [x.op]
  {
  }

  lemma LoggedAppend(subs: seq<Sub>, x: Sub)
    ensures LoggedOps(subs + [x]) == if x.logged then LoggedOps(subs) + [x.op] else LoggedOps(subs)
  {
    assert (subs + [x])[..|subs|] == subs;
  }

  lemma {:induction false} LoggedConcat(a: seq<Sub>, b: seq<Sub>)
    ensures LoggedOps(a + b) == LoggedOps(a) + LoggedOps(b)
  {
    if b == [] {
      assert a + b == a;
    } else {
      var n := |b| - 1;
      assert a + b == (a + b[..n]) + [b[n]];
      LoggedAppend(a + b[..n], b[n]);
      LoggedConcat(a, b[..n]);
    }
  }

  lemma LoggedHead(subs: seq<Sub>, k: nat)
    requires k < |subs|
    ensures LoggedOps(subs[k..])
            == if subs[k].logged then [subs[k].op] + LoggedOps(subs[k + 1..]) else LoggedOps(subs[k + 1..])
  {
    assert subs[k..] == [subs[k]] + subs[k + 1..];
    LoggedConcat([subs[k]], subs[k + 1..]);
    LoggedAppend([], subs[k]);
    assert [] + [subs[k]] == [subs[k]];
  }

  lemma OverAppend(x: Byte, ops: seq<Op>, op: Op, i: nat)
    ensures Over(x, ops + [op], i) == if Touches(op, i) then ValueAt(op, i) else Over(x, ops, i)
  {
    assert (ops + [op])[..|ops|] == ops;
  }

  lemma TouchedAppend(ops: seq<Op>, op: Op, i: nat)
    ensures TouchedBy(ops + [op], i) <==> TouchedBy(ops, i) || Touches(op, i)
  {
    assert (ops + [op])[|ops|] == op;
    assert forall k | 0 <= k < |ops| :: (ops + [op])[k] == ops[k];
  }

  lemma TouchedConcat(a: seq<Op>, b: seq<Op>, i: nat)
    ensures TouchedBy(a + b, i) <==> TouchedBy(a, i) || TouchedBy(b, i)
  {
    assert forall k | 0 <= k < |a| :: (a + b)[k] == a[k];
    assert forall k | 0 <= k < |b| :: (a + b)[|a| + k] == b[k];
  }

  /** Dropping a record that does not touch byte i from a list changes nothing there. */
  lemma OverWithout(x: Byte, a: seq<Op>, op: Op, b: seq<Op>, i: nat)
    requires !Touches(op, i)
    ensures Over(x, a + [op] + b, i) == Over(x, a + b, i)
    ensures TouchedBy(a + [op] + b, i) <==> TouchedBy(a + b, i)
  {
    OverConcat(x, a + [op], b, i);
    OverAppend(x, a, op, i);
    OverConcat(x, a, b, i);
    TouchedConcat(a + [op], b, i);
    TouchedAppend(a, op, i);
    TouchedConcat(a, b, i);
  }

  /* ------------------------------------------------------------------ */
  /* the invariant                                                      */

  /** The disk byte i is the base with the landed submissions applied. */
  ghost predicate DeviceOk(s: State)
    requires Wf(s)
  {
    forall i | 0 <= i < Size(s) :: s.dev.disk[i] == Over(s.dev.base[i], AllOps(s.dev.subs)[..s.dev.landed[i]], i)
  }

  ghost predicate DeliveredLanded(s: State)
    requires Wf(s)
  {
    forall k | 0 <= k < s.next && s.dev.subs[k].logged :: Acknowledged(s, k)
  }

  /** The chunk being copied is the front of the plan, and what was put is what was read. */
  ghost predicate CopierOk(s: State)
    requires Wf(s)
  {
    && (!s.copier.Copying? ==> s.deferred == [])
    && (s.copier.Copying? ==>
          var c := s.copier;
          && c.lo < c.hi <= s.plan[0].hi && s.plan[0].lo == c.lo && c.lo + |c.got| <= c.hi
          && forall j | 0 <= j < c.put :: s.replica[c.lo + j] == c.got[j])
  }

  /** If any of these records touches byte i, the last that does leaves what the newest logged one left there. */
  ghost predicate ShowsNewest(s: State, ops: seq<Op>, i: nat) {
    TouchedBy(ops, i) ==>
      TouchedBy(LoggedOps(s.dev.subs), i) && Over(0, ops, i) == Over(0, LoggedOps(s.dev.subs), i)
  }

  predicate InChunk(s: State, i: nat) {
    s.copier.Copying? && s.copier.lo <= i < s.copier.hi
  }

  /** What apply_one has yet to see ends with the newest record of each byte; in the chunk so does all that is pending. */
  ghost predicate PendingOk(s: State)
    requires Wf(s)
  {
    forall i | 0 <= i < Size(s) ::
      ShowsNewest(s, Unseen(s), i) && (InChunk(s, i) ==> ShowsNewest(s, Pending(s), i))
  }

  /** Byte i has been read in the current chunk. */
  ghost predicate WasRead(s: State, i: nat) {
    s.copier.Copying? && s.copier.lo <= i < s.copier.lo + |s.copier.got|
  }

  ghost predicate ReadOk(s: State)
    requires Wf(s)
  {
    && (forall i | i in s.good :: WasRead(s, i))
    && (forall i | 0 <= i < Size(s) && WasRead(s, i) && i !in s.good :: i in s.stale)
    && (forall i | 0 <= i < Size(s) && WasRead(s, i) && i in s.good ::
          Over(s.copier.got[i - s.copier.lo], Pending(s), i) == Logical(s, i))
  }

  ghost predicate SafeOk(s: State)
    requires Wf(s)
  {
    forall i | 0 <= i < Size(s) && (i !in s.stale || i in s.good) :: RereadSafe(s, i)
  }

  /** Applying what is pending to the replica gives the disk at byte i. */
  ghost predicate Synced(s: State, i: nat)
    requires Wf(s) && i < Size(s)
  {
    Drained(s, i) == Logical(s, i)
  }

  /** Applying what is pending to the replica gives what the log alone makes of an empty disk. */
  ghost predicate Fresh(s: State, i: nat)
    requires Wf(s) && i < Size(s)
  {
    Drained(s, i) == Over(0, AllOps(s.dev.subs), i)
  }

  ghost predicate WasPut(s: State, i: nat) {
    s.copier.Copying? && s.copier.lo <= i < s.copier.lo + s.copier.put
  }

  /** The central invariant at one byte. */
  ghost predicate ByteOk(s: State, i: nat)
    requires Wf(s) && i < Size(s)
  {
    || i in s.stale
    || Synced(s, i)
    || (InPlan(s.plan, i) && (s.mode != Base(true) || Fresh(s, i) || WasPut(s, i)))
  }

  ghost predicate ReplicaOk(s: State)
    requires Wf(s)
  {
    forall i | 0 <= i < Size(s) :: ByteOk(s, i)
  }

  ghost predicate Inv(s: State) {
    Wf(s) && DeviceOk(s) && DeliveredLanded(s) && CopierOk(s) && PendingOk(s) && ReadOk(s) && SafeOk(s) && ReplicaOk(s)
  }

  /* ------------------------------------------------------------------ */
  /* overtaking                                                         */

  /**
   Applying op ahead of the held records leaves byte i right: op and they do not both touch it,
   or a later record will rewrite it, or the newest held record writes the same value.
   */
  predicate KeepsOrderAt(held: seq<Op>, op: Op, rest: seq<Op>, i: nat) {
    Touches(op, i) && TouchedBy(held, i) && !TouchedBy(rest, i) ==> Over(0, held, i) == ValueAt(op, i)
  }

  /** A step that takes a record from the ring or from pending.bin. */
  predicate Consumes(step: Step) {
    step.Deliver? || step.Park? || step.Unpark?
  }

  function Taken(s: State, step: Step): Op
    requires Wf(s) && Enabled(s, step) && Consumes(step)
  {
    if step.Unpark? then s.parked[0] else s.dev.subs[s.next].op
  }

  /** The records that the one taken goes ahead of: those parked, and those held too unless it joins them. */
  function Overtaken(s: State, step: Step): seq<Op>
    requires Wf(s) && Enabled(s, step) && Consumes(step)
  {
    if step.Park? then []
    else
      var passed := if step.Deliver? then s.parked else [];
      if Defers(s, Taken(s, step)) then passed else Held(s) + passed
  }

  /** The records that come after the one taken. */
  function Behind(s: State, step: Step): seq<Op>
    requires Wf(s) && Enabled(s, step) && Consumes(step)
  {
    if step.Unpark? then s.parked[1..] + Queue(s) else LoggedOps(s.dev.subs[s.next + 1..])
  }

  /** Byte i may differ until it is copied again, so what held records do to it does not matter. */
  predicate Exempt(s: State, i: nat) {
    i in s.stale || (s.mode != Base(true) && InPlan(s.plan, i))
  }

  /** At byte i the record taken overtakes none that matters; one overtaken in pending.bin always does. */
  ghost predicate OrderSafeAt(s: State, step: Step, i: nat)
    requires Wf(s) && Enabled(s, step)
  {
    Consumes(step) ==>
      var op, rest := Taken(s, step), Behind(s, step);
      && (step.Deliver? ==> KeepsOrderAt(s.parked, op, rest, i))
      && (!Exempt(s, i) ==> KeepsOrderAt(Overtaken(s, step), op, rest, i))
  }

  /** The hypothesis on the order of application. */
  ghost predicate OrderSafe(s: State, step: Step)
    requires Wf(s) && Enabled(s, step)
  {
    forall i | 0 <= i < Size(s) :: OrderSafeAt(s, step, i)
  }

  /** Exactly when applying op before the held records, instead of after them, gives the same byte. */
  lemma OvertakingExact(x: Byte, held: seq<Op>, op: Op, rest: seq<Op>, i: nat)
    ensures Over(x, [op] + held + rest, i) == Over(x, held + [op] + rest, i) <==> KeepsOrderAt(held, op, rest, i)
    ensures Over(x, [op] + held + rest, i) == Over(if Touches(op, i) then ValueAt(op, i) else x, held + rest, i)
  {
    var y := if Touches(op, i) then ValueAt(op, i) else x;
    OverFirst(x, op, held + rest, i);
    assert [op] + held + rest == [op] + (held + rest);
    OverConcat(y, held, rest, i);
    OverConcat(x, held + [op], rest, i);
    OverAppend(x, held, op, i);
    if TouchedBy(rest, i) {
      OverTouched(Over(y, held, i), Over(x, held + [op], i), rest, i);
    } else {
      OverUntouched(Over(y, held, i), rest, i);
      OverUntouched(Over(x, held + [op], i), rest, i);
      if TouchedBy(held, i) {
        OverTouched(y, 0, held, i);
      } else {
        OverUntouched(y, held, i);
      }
    }
  }

  lemma OverFirst(x: Byte, op: Op, ops: seq<Op>, i: nat)
    ensures Over(x, [op] + ops, i) == Over(if Touches(op, i) then ValueAt(op, i) else x, ops, i)
    ensures TouchedBy([op] + ops, i) <==> Touches(op, i) || TouchedBy(ops, i)
  {
    OverConcat(x, [op], ops, i);
    OverAppend(x, [], op, i);
    assert [] + [op] == [op];
    TouchedConcat([op], ops, i);
    TouchedAppend([], op, i);
    NothingTouches(i);
    OverUntouched(x, [], i);
  }

  lemma NothingTouches(i: nat)
    ensures !TouchedBy([], i)
  {
  }

  /** The record taken in its place among those to come. */
  lemma BeforeTaking(s: State, step: Step)
    requires Wf(s) && Enabled(s, step) && Consumes(step)
    ensures Unseen(s) == (if step.Unpark? then [] else s.parked) + [Taken(s, step)] + Behind(s, step)
    ensures Pending(s) == Held(s) + (if step.Unpark? then [] else s.parked) + [Taken(s, step)] + Behind(s, step)
  {
    hide LoggedOps, RereadSafe, Acknowledged, Held;
    if step.Unpark? {
      assert s.parked == [s.parked[0]] + s.parked[1..];
    } else {
      LoggedHead(s.dev.subs, s.next);
    }
  }

  /** What taking a record changes. */
  lemma TakingChanges(s: State, step: Step)
    requires Wf(s) && Enabled(s, step) && Consumes(step)
    ensures var s' := Do(s, step);
            && Wf(s') && s'.dev == s.dev && s'.copier == s.copier && s'.plan == s.plan && s'.mode == s.mode
            && s'.dirty == s.dirty && s'.stale == s.stale && s'.good == s.good
            && s'.replica == (if step.Park? || Defers(s, Taken(s, step)) then s.replica else Apply(s.replica, Taken(s, step)))
            && Held(s') == (if !step.Park? && Defers(s, Taken(s, step)) then Held(s) + [Taken(s, step)] else Held(s))
            && Unseen(s') == (if step.Unpark? then [] else if step.Park? then s.parked + [Taken(s, step)] else s.parked)
                             + Behind(s, step)
  {
    hide LoggedOps, RereadSafe, Acknowledged, Apply;
    if step.Unpark? {
      assert [] + Behind(s, step) == Behind(s, step);
    }
  }

  /** What taking a record does to the lists of records to come. */
  lemma AfterTaking(s: State, step: Step)
    requires Wf(s) && Enabled(s, step) && Consumes(step)
    ensures var s', op, rest := Do(s, step), Taken(s, step), Behind(s, step);
            && Wf(s') && s'.dev == s.dev && s'.copier == s.copier && s'.plan == s.plan && s'.mode == s.mode
            && s'.dirty == s.dirty && s'.stale == s.stale && s'.good == s.good
            && Unseen(s) == (if step.Unpark? then [] else s.parked) + [op] + rest
            && Pending(s) == Held(s) + (if step.Unpark? then [] else s.parked) + [op] + rest
    ensures var s', op, rest := Do(s, step), Taken(s, step), Behind(s, step);
            if step.Park? then
              s'.replica == s.replica && Pending(s') == Pending(s) && Unseen(s') == Unseen(s)
            else
              var passed := if step.Deliver? then s.parked else [];
              && Unseen(s') == passed + rest
              && s'.replica == (if Defers(s, op) then s.replica else Apply(s.replica, op))
              && Pending(s') == (if Defers(s, op) then Held(s) + [op] + passed + rest else Held(s) + passed + rest)
  {
    hide LoggedOps, RereadSafe, Acknowledged, Apply, Held, Do, Enabled, Defers, Taken, Behind, Unseen;
    BeforeTaking(s, step);
    TakingChanges(s, step);
  }

  /**
   Taking a record keeps what the replica will become exactly if it overtakes no record, byte by byte.
   Parking it, or deferring the next parked one, overtakes nothing.
   */
  lemma DeliverExact(s: State, step: Step, i: nat)
    requires Wf(s) && Enabled(s, step) && Consumes(step) && i < Size(s)
    ensures Wf(Do(s, step))
    ensures Drained(Do(s, step), i) == Drained(s, i)
            <==> KeepsOrderAt(Overtaken(s, step), Taken(s, step), Behind(s, step), i)
    ensures step.Park? || (step.Unpark? && Defers(s, Taken(s, step))) ==> Overtaken(s, step) == []
  {
    hide Over, LoggedOps, KeepsOrderAt, TouchedBy, RereadSafe, Pending, Unseen, Held, Queue, Acknowledged;
    var s', op, rest := Do(s, step), Taken(s, step), Behind(s, step);
    AfterTaking(s, step);
    var passed := if step.Deliver? then s.parked else [];
    if step.Park? {
      KeepsNothing(op, rest, i);
    } else if Defers(s, op) {
      var y := Over(s.replica[i], Held(s), i);
      OvertakingExact(y, passed, op, rest, i);
      OverConcat(s.replica[i], Held(s), [op] + passed + rest, i);
      OverConcat(s.replica[i], Held(s), passed + [op] + rest, i);
      assert Held(s) + ([op] + passed + rest) == Held(s) + [op] + passed + rest;
      assert Held(s) + (passed + [op] + rest) == Held(s) + passed + [op] + rest;
    } else {
      OvertakingExact(s.replica[i], Held(s) + passed, op, rest, i);
    }
  }

  /** In particular a record that meets no held and no parked one overtakes nothing that matters. */
  lemma MeetingNoneIsSafe(s: State, step: Step)
    requires Wf(s) && Enabled(s, step) && Consumes(step)
    requires forall i | 0 <= i < Size(s) && Touches(Taken(s, step), i) :: !TouchedBy(Held(s) + s.parked, i)
    ensures OrderSafe(s, step)
  {
    hide Enabled, Held, TouchedBy, Over, Behind;
    forall i | 0 <= i < Size(s) && Touches(Taken(s, step), i)
      ensures !TouchedBy(Held(s), i) && !TouchedBy(s.parked, i) && !TouchedBy(Overtaken(s, step), i)
    {
      TouchedConcat(Held(s), s.parked, i);
      TouchedConcat(Held(s), [], i);
      NothingTouches(i);
    }
  }

  lemma KeepsNothing(op: Op, rest: seq<Op>, i: nat)
    ensures KeepsOrderAt([], op, rest, i)
  {
  }

  /* ------------------------------------------------------------------ */
  /* skipping                                                           */

  /** A zero byte that was read may be skipped: the replica has zero there, or a pending record will write it. */
  ghost predicate SkipSafeAt(s: State, i: nat)
    requires Wf(s) && i < Size(s)
  {
    s.replica[i] == 0 || TouchedBy(Pending(s), i)
  }

  /** The hypothesis on skipped chunks, for a replica that was not created empty. */
  ghost predicate SkipSafe(s: State, step: Step)
    requires Wf(s)
  {
    step.HandOff? && Skips(s) ==>
      forall i | 0 <= i < Size(s) && WasRead(s, i) && i !in s.stale :: SkipSafeAt(s, i)
  }

  /** Not writing a zero that was read currently is right exactly under that condition. */
  lemma SkipExact(s: State, i: nat)
    requires Wf(s) && i < Size(s) && Over(0, Pending(s), i) == Logical(s, i)
    ensures Synced(s, i) <==> SkipSafeAt(s, i)
  {
    hide Pending, Over, TouchedBy;
    if TouchedBy(Pending(s), i) {
      OverTouched(0, s.replica[i], Pending(s), i);
    } else {
      OverUntouched(0, Pending(s), i);
      OverUntouched(s.replica[i], Pending(s), i);
    }
  }

  /** A replica that has followed the log from all zeros meets it. */
  lemma FreshSkipsSafely(s: State, i: nat)
    requires Wf(s) && i < Size(s) && Fresh(s, i) && Over(0, Pending(s), i) == Logical(s, i)
    ensures SkipSafeAt(s, i)
  {
    hide Pending, Over, TouchedBy;
    var ops := AllOps(s.dev.subs);
    if !TouchedBy(Pending(s), i) {
      OverUntouched(0, Pending(s), i);
      OverUntouched(s.replica[i], Pending(s), i);
      if TouchedBy(ops, i) {
        OverTouched(0, s.dev.base[i], ops, i);
      } else {
        OverUntouched(0, ops, i);
      }
    }
  }
}
