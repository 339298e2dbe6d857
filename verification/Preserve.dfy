/** Every step of the protocol keeps the invariant. */
module Preserve {
  import opened Records
  import opened Images
  import opened Protocol
  import opened Invariant

  /* ------------------------------------------------------------------ */
  /* what most steps leave alone                                        */

  /** No record is added, taken or reordered, and no chunk is flagged. */
  lemma SamePending(s: State, s': State)
    requires Wf(s) && PendingOk(s) && Wf(s') && Size(s') == Size(s)
    requires s'.dev.subs == s.dev.subs && s'.next == s.next && s'.parked == s.parked
    requires s'.copier.Copying? ==>
               s.copier.Copying? && (s'.copier.lo, s'.copier.hi, s'.deferred) == (s.copier.lo, s.copier.hi, s.deferred)
    ensures PendingOk(s')
  {
    hide LoggedOps, TouchedBy, Over;
    assert Unseen(s') == Unseen(s);
    assert s'.copier.Copying? ==> Pending(s') == Pending(s);
    forall i | 0 <= i < Size(s)
      ensures ShowsNewest(s', Unseen(s'), i) && (InChunk(s', i) ==> ShowsNewest(s', Pending(s'), i))
    {
      assert ShowsNewest(s, Unseen(s), i);
    }
  }

  /* ------------------------------------------------------------------ */
  /* submissions                                                        */

  lemma PendingAfterSubmit(s: State, op: Op, logged: bool)
    requires Wf(s)
    ensures var s' := Do(s, Submit(op, logged));
            && Wf(s')
            && AllOps(s'.dev.subs) == AllOps(s.dev.subs) + [op]
            && LoggedOps(s'.dev.subs) == (if logged then LoggedOps(s.dev.subs) + [op] else LoggedOps(s.dev.subs))
            && Unseen(s') == (if logged then Unseen(s) + [op] else Unseen(s))
            && Pending(s') == if logged then Pending(s) + [op] else Pending(s)
  {
    hide LoggedOps, RereadSafe, Acknowledged;
    var subs, x := s.dev.subs, Sub(op, logged);
    AllOpsAppend(subs, x);
    assert (subs + [x])[s.next..] == subs[s.next..] + [x];
    LoggedAppend(subs[s.next..], x);
    LoggedAppend(subs, x);
  }

  /** A logged submission is the newest of both lists. */
  lemma SubmitShows(s: State, op: Op, logged: bool, ops: seq<Op>, i: nat)
    requires Wf(s) && ShowsNewest(s, ops, i)
    ensures ShowsNewest(Do(s, Submit(op, logged)), if logged then ops + [op] else ops, i)
  {
    hide LoggedOps, Over, TouchedBy, Pending, Unseen;
    PendingAfterSubmit(s, op, logged);
    OverAppend(0, ops, op, i);
    OverAppend(0, LoggedOps(s.dev.subs), op, i);
    TouchedAppend(ops, op, i);
    TouchedAppend(LoggedOps(s.dev.subs), op, i);
  }

  lemma NewestAppend(ops: seq<Op>, op: Op, i: nat)
    ensures Newest(ops + [op], i) == if Touches(op, i) then |ops| else Newest(ops, i)
  {
    assert (ops + [op])[..|ops|] == ops;
  }

  /** A logged submission is the newest of both lists; a dropped one elsewhere matters to neither. */
  lemma SubmitOver(s: State, op: Op, logged: bool, x: Byte, y: Byte, i: nat)
    requires Wf(s) && (logged || !Touches(op, i))
    requires Over(x, Pending(s), i) == Over(y, AllOps(s.dev.subs), i)
    ensures var s' := Do(s, Submit(op, logged));
            Wf(s') && Over(x, Pending(s'), i) == Over(y, AllOps(s'.dev.subs), i)
  {
    hide LoggedOps, Over, AllOps, Pending;
    PendingAfterSubmit(s, op, logged);
    OverAppend(y, AllOps(s.dev.subs), op, i);
    OverAppend(x, Pending(s), op, i);
  }

  lemma SubmitSafe(s: State, op: Op, logged: bool, i: nat)
    requires Wf(s) && i < Size(s) && (logged || !Touches(op, i)) && RereadSafe(s, i)
    ensures Wf(Do(s, Submit(op, logged))) && RereadSafe(Do(s, Submit(op, logged)), i)
  {
    hide LoggedOps, Newest, AllOps, Pending, TouchedBy;
    PendingAfterSubmit(s, op, logged);
    NewestAppend(AllOps(s.dev.subs), op, i);
    TouchedAppend(Pending(s), op, i);
  }

  lemma SubmitByte(s: State, op: Op, logged: bool, i: nat)
    requires Inv(s) && i < Size(s) && Wf(Do(s, Submit(op, logged)))
    ensures ByteOk(Do(s, Submit(op, logged)), i)
  {
    hide LoggedOps, Over, AllOps, Pending, Newest, TouchedBy, DeviceOk, CopierOk, DeliveredLanded, ReadOk, SafeOk;
    assert ByteOk(s, i);
    if logged || !Touches(op, i) {
      if Synced(s, i) {
        SubmitOver(s, op, logged, s.replica[i], s.dev.base[i], i);
      } else if Fresh(s, i) {
        SubmitOver(s, op, logged, s.replica[i], 0, i);
      }
    }
  }

  lemma SubmitKeeps(s: State, op: Op, logged: bool)
    requires Inv(s)
    ensures Inv(Do(s, Submit(op, logged)))
  {
    hide LoggedOps, Over, Newest, RereadSafe, ByteOk, Pending, AllOps, CopierOk, ShowsNewest, Unseen;
    var s' := Do(s, Submit(op, logged));
    SubmitDevice(s, op, logged);
    forall i | 0 <= i < Size(s)
      ensures ByteOk(s', i)
    {
      SubmitByte(s, op, logged, i);
    }
    forall i | 0 <= i < Size(s) && (i !in s'.stale || i in s'.good)
      ensures RereadSafe(s', i)
    {
      SubmitSafe(s, op, logged, i);
    }
    PendingAfterSubmit(s, op, logged);
    forall i | 0 <= i < Size(s)
      ensures ShowsNewest(s', Unseen(s'), i) && (InChunk(s', i) ==> ShowsNewest(s', Pending(s'), i))
    {
      SubmitShows(s, op, logged, Unseen(s), i);
      if InChunk(s, i) {
        SubmitShows(s, op, logged, Pending(s), i);
      }
    }
    forall i | 0 <= i < Size(s) && WasRead(s', i) && i in s'.good
      ensures Over(s'.copier.got[i - s'.copier.lo], Pending(s'), i) == Logical(s', i)
    {
      SubmitOver(s, op, logged, s.copier.got[i - s.copier.lo], s.dev.base[i], i);
    }
  }

  lemma SubmitDevice(s: State, op: Op, logged: bool)
    requires Inv(s)
    ensures var s' := Do(s, Submit(op, logged)); Wf(s') && DeviceOk(s') && DeliveredLanded(s') && CopierOk(s')
  {
    hide LoggedOps, Over, Newest, ReadOk, SafeOk, ReplicaOk, PendingOk;
    var s', x := Do(s, Submit(op, logged)), Sub(op, logged);
    AllOpsAppend(s.dev.subs, x);
    forall i | 0 <= i < Size(s)
      ensures AllOps(s'.dev.subs)[..s.dev.landed[i]] == AllOps(s.dev.subs)[..s.dev.landed[i]]
    {
    }
    forall k | 0 <= k < s.next && s'.dev.subs[k].logged
      ensures Acknowledged(s', k)
    {
      assert Acknowledged(s, k);
    }
  }

  /* ------------------------------------------------------------------ */
  /* the device                                                         */

  lemma LandKeeps(s: State, i: nat)
    requires Inv(s) && Enabled(s, Land(i))
    ensures Inv(Do(s, Land(i)))
  {
    hide LoggedOps, Over, Newest, TouchedBy, PendingOk;
    var s', ops, k := Do(s, Land(i)), AllOps(s.dev.subs), s.dev.landed[i];
    assert ops[..k + 1] == ops[..k] + [ops[k]];
    OverAppend(s.dev.base[i], ops[..k], ops[k], i);
    assert Unseen(s') == Unseen(s) && Pending(s') == Pending(s);
    SamePending(s, s');
    forall j | 0 <= j < s'.next && s'.dev.subs[j].logged
      ensures Acknowledged(s', j)
    {
      assert Acknowledged(s, j);
    }
    forall j | 0 <= j < Size(s)
      ensures ByteOk(s', j)
      ensures RereadSafe(s, j) ==> RereadSafe(s', j)
    {
      assert ByteOk(s, j);
    }
  }

  /* ------------------------------------------------------------------ */
  /* the apply loop                                                     */

  lemma PassDroppedKeeps(s: State)
    requires Inv(s) && Enabled(s, PassDropped)
    ensures Inv(Do(s, PassDropped))
  {
    hide LoggedOps, Over, Newest, RereadSafe, Acknowledged, PendingOk;
    var s' := Do(s, PassDropped);
    LoggedHead(s.dev.subs, s.next);
    assert Unseen(s') == Unseen(s) && Pending(s') == Pending(s);
    PassDroppedBytes(s);
    assert DeliveredLanded(s') by {
      forall k | 0 <= k < s'.next && s'.dev.subs[k].logged
        ensures Acknowledged(s', k)
      {
        AcknowledgedSame(s, s', k);
      }
    }
  }

  lemma AcknowledgedSame(s: State, s': State, k: nat)
    requires s'.dev == s.dev && k < |s.dev.subs|
    ensures Acknowledged(s', k) == Acknowledged(s, k)
  {
  }

  lemma PassDroppedBytes(s: State)
    requires Inv(s) && Enabled(s, PassDropped) && Wf(Do(s, PassDropped))
    requires Pending(Do(s, PassDropped)) == Pending(s) && Unseen(Do(s, PassDropped)) == Unseen(s)
    ensures var s' := Do(s, PassDropped); ReadOk(s') && SafeOk(s') && ReplicaOk(s') && PendingOk(s')
  {
    hide LoggedOps, Over, Newest, TouchedBy, Acknowledged, Pending, Unseen, DeviceOk, DeliveredLanded, CopierOk;
    var s' := Do(s, PassDropped);
    forall i | 0 <= i < Size(s)
      ensures ByteOk(s', i)
      ensures RereadSafe(s', i) == RereadSafe(s, i)
      ensures ShowsNewest(s', Unseen(s'), i) && (InChunk(s', i) ==> ShowsNewest(s', Pending(s'), i))
    {
      assert ByteOk(s, i) && ShowsNewest(s, Unseen(s), i);
    }
  }

  /** A record that apply_one puts ahead of some others: what stays at byte i of a list that ends with the newest. */
  lemma MoveShows(s: State, held: seq<Op>, op: Op, rest: seq<Op>, i: nat)
    requires ShowsNewest(s, held + [op] + rest, i) && KeepsOrderAt(held, op, rest, i)
    ensures ShowsNewest(s, held + rest, i)
  {
    hide LoggedOps, Over, TouchedBy;
    OvertakingExact(0, held, op, rest, i);
    TouchedConcat(held + [op], rest, i);
    TouchedAppend(held, op, i);
    TouchedConcat(held, rest, i);
    if TouchedBy(held + rest, i) {
      OverTouched(0, if Touches(op, i) then ValueAt(op, i) else 0, held + rest, i);
    }
  }

  /** Taking a record, at one byte: what is to come, the replica once it has come, and the records not seen yet. */
  lemma TakeByte(s: State, step: Step, i: nat)
    requires Wf(s) && Enabled(s, step) && Consumes(step) && i < Size(s) && OrderSafeAt(s, step, i)
    ensures Wf(Do(s, step))
    ensures !Exempt(s, i) ==> Drained(Do(s, step), i) == Drained(s, i)
    ensures RereadSafe(s, i) ==> RereadSafe(Do(s, step), i)
    ensures ShowsNewest(s, Unseen(s), i) ==> ShowsNewest(Do(s, step), Unseen(Do(s, step)), i)
  {
    hide LoggedOps, Over, Newest, Held, KeepsOrderAt, TouchedBy, Queue, Apply, Acknowledged;
    var s', op, rest := Do(s, step), Taken(s, step), Behind(s, step);
    var passed := if step.Deliver? then s.parked else [];
    AfterTaking(s, step);
    if !Exempt(s, i) {
      DeliverExact(s, step, i);
    }
    KeepsNothing(op, rest, i);
    if !step.Park? && ShowsNewest(s, Unseen(s), i) {
      MoveShows(s, passed, op, rest, i);
    }
    TakeTouches(s, step, i);
  }

  /** No byte gets a pending record by it. */
  lemma TakeTouches(s: State, step: Step, i: nat)
    requires Wf(s) && Enabled(s, step) && Consumes(step) && i < Size(s)
    ensures Wf(Do(s, step)) && (TouchedBy(Pending(Do(s, step)), i) ==> TouchedBy(Pending(s), i))
  {
    hide LoggedOps, Over, Newest, Held, TouchedBy, Queue, Pending, Unseen, Apply, Acknowledged, RereadSafe;
    var s', op, rest := Do(s, step), Taken(s, step), Behind(s, step);
    var passed := if step.Deliver? then s.parked else [];
    AfterTaking(s, step);
    if !step.Park? {
      TouchedConcat(Held(s) + passed + [op], rest, i);
      TouchedAppend(Held(s) + passed, op, i);
      TouchedConcat(Held(s) + passed, rest, i);
      TouchedConcat(Held(s), passed, i);
      TouchedConcat(Held(s) + [op] + passed, rest, i);
      TouchedConcat(Held(s) + [op], passed, i);
      TouchedAppend(Held(s), op, i);
    }
  }

  /** The same in the chunk being copied: whatever the content, the pending records leave the same there. */
  lemma TakeInChunk(s: State, step: Step, i: nat)
    requires Wf(s) && Enabled(s, step) && Consumes(step) && i < Size(s) && OrderSafeAt(s, step, i) && InChunk(s, i)
    ensures Wf(Do(s, step))
    ensures forall x: Byte :: Over(x, Pending(Do(s, step)), i) == Over(x, Pending(s), i)
    ensures ShowsNewest(s, Pending(s), i) ==> ShowsNewest(Do(s, step), Pending(Do(s, step)), i)
  {
    hide LoggedOps, Over, Newest, Held, KeepsOrderAt, TouchedBy, Queue, Pending, Unseen, Apply, Acknowledged, RereadSafe;
    var s', op, rest := Do(s, step), Taken(s, step), Behind(s, step);
    var passed := if step.Deliver? then s.parked else [];
    AfterTaking(s, step);
    TakeTouches(s, step, i);
    KeepsNothing(op, rest, i);
    forall x: Byte
      ensures Over(x, Pending(s'), i) == Over(x, Pending(s), i)
    {
      if !step.Park? {
        if Defers(s, op) {
          MoveInTail(x, Held(s), passed, op, rest, i);
        } else {
          OverWithout(x, Held(s) + passed, op, rest, i);
        }
      }
    }
  }

  lemma MoveInTail(x: Byte, head: seq<Op>, held: seq<Op>, op: Op, rest: seq<Op>, i: nat)
    requires KeepsOrderAt(held, op, rest, i)
    ensures Over(x, head + [op] + held + rest, i) == Over(x, head + held + [op] + rest, i)
  {
    hide Over, KeepsOrderAt;
    OvertakingExact(Over(x, head, i), held, op, rest, i);
    OverConcat(x, head, [op] + held + rest, i);
    OverConcat(x, head, held + [op] + rest, i);
    assert head + ([op] + held + rest) == head + [op] + held + rest;
    assert head + (held + [op] + rest) == head + held + [op] + rest;
  }

  lemma TakeKeeps(s: State, step: Step)
    requires Inv(s) && Enabled(s, step) && Consumes(step) && OrderSafe(s, step)
    ensures Inv(Do(s, step))
  {
    hide LoggedOps, Over, Newest, RereadSafe, Acknowledged, ReadOk, SafeOk, ReplicaOk, PendingOk, DeviceOk;
    var s' := Do(s, step);
    AfterTaking(s, step);
    TakeBytes(s, step);
    SameDevice(s, s');
    TakeLanded(s, step);
    TakeKeepsCopier(s, step);
  }

  lemma TakeLanded(s: State, step: Step)
    requires Wf(s) && DeliveredLanded(s) && Enabled(s, step) && Consumes(step)
    ensures Wf(Do(s, step)) && DeliveredLanded(Do(s, step))
  {
    hide LoggedOps, RereadSafe, Acknowledged, Apply;
    var s' := Do(s, step);
    forall k | 0 <= k < s'.next && s'.dev.subs[k].logged
      ensures Acknowledged(s', k)
    {
      AcknowledgedSame(s, s', k);
    }
  }

  lemma TakeKeepsCopier(s: State, step: Step)
    requires Wf(s) && CopierOk(s) && Enabled(s, step) && Consumes(step)
    ensures Wf(Do(s, step)) && CopierOk(Do(s, step))
  {
    hide LoggedOps, RereadSafe, Acknowledged, InPlan;
    var s', op := Do(s, step), Taken(s, step);
    TakingChanges(s, step);
    if s.copier.Copying? {
      forall j | 0 <= j < s.copier.put
        ensures s'.replica[s.copier.lo + j] == s.copier.got[j]
      {
        assert s.replica[s.copier.lo + j] == s.copier.got[j];
        assert !Defers(s, op) ==> !Touches(op, s.copier.lo + j);
      }
    }
  }

  lemma SameDevice(s: State, s': State)
    requires Wf(s) && Wf(s') && s'.dev == s.dev
    ensures DeviceOk(s) == DeviceOk(s')
  {
    hide Over;
  }

  lemma TakeBytes(s: State, step: Step)
    requires Inv(s) && Enabled(s, step) && Consumes(step) && OrderSafe(s, step)
    ensures var s' := Do(s, step); Wf(s') && ReadOk(s') && SafeOk(s') && ReplicaOk(s') && PendingOk(s')
  {
    hide LoggedOps, Over, Newest, RereadSafe, Pending, Unseen, Acknowledged, DeviceOk, DeliveredLanded, CopierOk;
    hide AllOps, OrderSafeAt, ShowsNewest, Apply;
    var s' := Do(s, step);
    AfterTaking(s, step);
    forall i | 0 <= i < Size(s)
      ensures ByteOk(s', i)
      ensures RereadSafe(s, i) ==> RereadSafe(s', i)
      ensures ShowsNewest(s', Unseen(s'), i) && (InChunk(s', i) ==> ShowsNewest(s', Pending(s'), i))
      ensures WasRead(s, i) ==> forall x: Byte :: Over(x, Pending(s'), i) == Over(x, Pending(s), i)
    {
      TakeByte(s, step, i);
      assert ByteOk(s, i);
      if InChunk(s, i) {
        TakeInChunk(s, step, i);
      }
      if WasRead(s, i) {
        ReadIsInChunk(s, i);
      }
      if WasPut(s, i) {
        PutStays(s, step, i);
      }
    }
  }

  lemma PutStays(s: State, step: Step, i: nat)
    requires Wf(s) && Enabled(s, step) && Consumes(step) && WasPut(s, i)
    ensures WasPut(Do(s, step), i)
  {
  }

  lemma ReadIsInChunk(s: State, i: nat)
    requires Wf(s) && CopierOk(s) && WasRead(s, i)
    ensures InChunk(s, i) && InPlan(s.plan, i)
  {
    assert s.plan[0].lo <= i < s.plan[0].hi;
  }

  /* ------------------------------------------------------------------ */
  /* the copy thread                                                    */

  lemma FlagKeeps(s: State)
    requires Inv(s) && Enabled(s, Flag)
    ensures Inv(Do(s, Flag))
  {
    hide LoggedOps, Over, Newest, TouchedBy;
    var s' := Do(s, Flag);
    assert Held(s') == Held(s) == [];
    assert Unseen(s') == Unseen(s);
    assert Pending(s') == Pending(s) == Unseen(s);
    forall i | 0 <= i < Size(s)
      ensures ByteOk(s', i)
      ensures RereadSafe(s', i) == RereadSafe(s, i)
      ensures ShowsNewest(s', Unseen(s'), i)
    {
      assert ByteOk(s, i) && ShowsNewest(s, Unseen(s), i);
    }
  }

  /** The newest submission touching byte i that was logged, or -1. */
  function LastLogged(subs: seq<Sub>, i: nat): (k: int)
    ensures -1 <= k < |subs|
    ensures k >= 0 ==> subs[k].logged && Touches(subs[k].op, i)
    ensures forall j | k < j < |subs| && subs[j].logged :: !Touches(subs[j].op, i)
  {
    if subs == [] then -1
    else
      var n := |subs| - 1;
      if subs[n].logged && Touches(subs[n].op, i) then n else LastLogged(subs[..n], i)
  }

  lemma {:induction false} LastLoggedDecides(x: Byte, subs: seq<Sub>, i: nat)
    ensures var k, ops := LastLogged(subs, i), LoggedOps(subs);
            && (k < 0 ==> !TouchedBy(ops, i))
            && (k >= 0 ==> TouchedBy(ops, i) && Over(x, ops, i) == ValueAt(subs[k].op, i))
  {
    hide Over, TouchedBy;
    if subs == [] {
      NothingTouches(i);
    } else {
      var n := |subs| - 1;
      LastLoggedDecides(x, subs[..n], i);
      assert subs[..n] + [subs[n]] == subs;
      if subs[n].logged {
        OverAppend(x, LoggedOps(subs[..n]), subs[n].op, i);
        TouchedAppend(LoggedOps(subs[..n]), subs[n].op, i);
      }
    }
  }

  lemma {:induction false} LastLoggedBelow(subs: seq<Sub>, i: nat)
    ensures var k, n := LastLogged(subs, i), Newest(AllOps(subs), i);
            k <= n && (n >= 0 && subs[n].logged ==> k == n)
  {
    if subs != [] {
      var n := |subs| - 1;
      LastLoggedBelow(subs[..n], i);
      assert AllOps(subs)[..n] == AllOps(subs[..n]);
    }
  }

  /** The submission whose value byte i will show after being re-read now and the pending records applied. */
  function RereadWriter(s: State, i: nat): int
    requires i < |s.dev.landed| && s.dev.landed[i] <= |s.dev.subs| && s.next <= |s.dev.subs|
  {
    if TouchedBy(Pending(s), i) then LastLogged(s.dev.subs, i) else Newest(AllOps(s.dev.subs)[..s.dev.landed[i]], i)
  }

  lemma RereadShowsWriter(s: State, i: nat)
    requires Inv(s) && InChunk(s, i) && i < Size(s)
    ensures var w := RereadWriter(s, i);
            && w < |s.dev.subs| && (w >= 0 ==> Touches(s.dev.subs[w].op, i))
            && Over(s.dev.disk[i], Pending(s), i) == if w < 0 then s.dev.base[i] else ValueAt(s.dev.subs[w].op, i)
  {
    hide LoggedOps, Over, TouchedBy, ReadOk, SafeOk, ReplicaOk, Newest, LastLogged, DeliveredLanded, CopierOk, Pending;
    var x := s.dev.disk[i];
    if TouchedBy(Pending(s), i) {
      assert ShowsNewest(s, Pending(s), i);
      LastLoggedDecides(0, s.dev.subs, i);
      OverTouched(x, 0, Pending(s), i);
    } else {
      OverUntouched(x, Pending(s), i);
      OverIsNewest(s.dev.base[i], AllOps(s.dev.subs)[..s.dev.landed[i]], i);
    }
  }

  /** A logged record not consumed yet is pending. */
  lemma QueuedIsPending(s: State, i: nat, k: nat)
    requires Wf(s) && s.next <= k < |s.dev.subs| && s.dev.subs[k].logged && Touches(s.dev.subs[k].op, i)
    ensures TouchedBy(Pending(s), i)
  {
    hide LoggedOps, TouchedBy, LastLogged, RereadSafe;
    var queue := s.dev.subs[s.next..];
    TouchedConcat(Held(s), Unseen(s), i);
    TouchedConcat(s.parked, Queue(s), i);
    LastLoggedDecides(0, queue, i);
    assert queue[k - s.next] == s.dev.subs[k];
  }

  /** A logged record that is not pending at its byte has landed. */
  lemma NotPendingLanded(s: State, i: nat, k: nat)
    requires Wf(s) && DeliveredLanded(s) && i < Size(s) && k < |s.dev.subs|
    requires s.dev.subs[k].logged && Touches(s.dev.subs[k].op, i) && !TouchedBy(Pending(s), i)
    ensures s.dev.landed[i] > k
  {
    hide Pending, TouchedBy, RereadSafe, Acknowledged;
    if k < s.next {
      Landed(s, k, i);
    } else {
      QueuedIsPending(s, i, k);
    }
  }

  lemma Landed(s: State, k: nat, i: nat)
    requires k < |s.dev.subs| && i < |s.dev.landed| && Acknowledged(s, k) && Touches(s.dev.subs[k].op, i)
    ensures s.dev.landed[i] > k
  {
  }

  /**
   Re-reading a byte shows the newest submission exactly when RereadSafe holds: when that submission was
   logged, or has landed with no pending record left to overwrite it.
   */
  lemma RereadExact(s: State, i: nat)
    requires Inv(s) && InChunk(s, i) && i < Size(s)
    ensures RereadWriter(s, i) == Newest(AllOps(s.dev.subs), i) <==> RereadSafe(s, i)
  {
    hide LoggedOps, Over, TouchedBy, ReadOk, SafeOk, ReplicaOk, LastLogged, DeviceOk, CopierOk, Pending, DeliveredLanded;
    hide Newest;
    var ops := AllOps(s.dev.subs);
    var n := Newest(ops, i);
    NewestOfPrefix(ops, s.dev.landed[i], i);
    LastLoggedDecides(0, s.dev.subs, i);
    LastLoggedBelow(s.dev.subs, i);
    if TouchedBy(Pending(s), i) {
      assert ShowsNewest(s, Pending(s), i);
    } else if n >= 0 && s.dev.subs[n].logged {
      NotPendingLanded(s, i, n);
    }
  }

  /** What the device returns for byte i, with the pending records applied, is its newest content. */
  lemma RereadIsCurrent(s: State, i: nat)
    requires Inv(s) && InChunk(s, i) && i < Size(s) && RereadSafe(s, i)
    ensures Over(s.dev.disk[i], Pending(s), i) == Logical(s, i)
  {
    hide Inv, Over, Newest, LastLogged, Pending, RereadSafe, Enabled;
    RereadExact(s, i);
    RereadShowsWriter(s, i);
    OverIsNewest(s.dev.base[i], AllOps(s.dev.subs), i);
  }

  lemma ReadKeeps(s: State)
    requires Inv(s) && Enabled(s, ReadByte)
    ensures Inv(Do(s, ReadByte))
  {
    hide PendingOk, LoggedOps, Over, Newest, RereadSafe, Acknowledged;
    var s', i := Do(s, ReadByte), s.copier.lo + |s.copier.got|;
    assert Pending(s') == Pending(s);
    ReadBytes(s);
    SamePending(s, s');
    forall k | 0 <= k < s'.next && s'.dev.subs[k].logged
      ensures Acknowledged(s', k)
    {
      AcknowledgedSame(s, s', k);
    }
  }

  lemma ReadBytes(s: State)
    requires Inv(s) && Enabled(s, ReadByte) && Wf(Do(s, ReadByte)) && Pending(Do(s, ReadByte)) == Pending(s)
    ensures var s' := Do(s, ReadByte); ReadOk(s') && SafeOk(s') && ReplicaOk(s')
  {
    hide LoggedOps, Over, Newest, TouchedBy, Acknowledged, Pending, AllOps;
    var s', i := Do(s, ReadByte), s.copier.lo + |s.copier.got|;
    forall j | 0 <= j < Size(s)
      ensures ByteOk(s', j)
      ensures RereadSafe(s', j) == RereadSafe(s, j)
    {
      assert ByteOk(s, j);
    }
    if RereadSafe(s, i) {
      RereadIsCurrent(s, i);
    }
    forall j | 0 <= j < Size(s) && WasRead(s', j) && j != i
      ensures WasRead(s, j) && s'.copier.got[j - s.copier.lo] == s.copier.got[j - s.copier.lo]
    {
    }
  }

  lemma PutKeeps(s: State)
    requires Inv(s) && Enabled(s, PutByte)
    ensures Inv(Do(s, PutByte))
  {
    hide PendingOk, LoggedOps, Over, Newest, RereadSafe, Acknowledged;
    var s', i := Do(s, PutByte), s.copier.lo + s.copier.put;
    assert Pending(s') == Pending(s);
    PutBytes(s);
    SamePending(s, s');
    forall k | 0 <= k < s'.next && s'.dev.subs[k].logged
      ensures Acknowledged(s', k)
    {
      AcknowledgedSame(s, s', k);
    }
  }

  lemma PutBytes(s: State)
    requires Inv(s) && Enabled(s, PutByte) && Wf(Do(s, PutByte)) && Pending(Do(s, PutByte)) == Pending(s)
    ensures var s' := Do(s, PutByte); ReadOk(s') && SafeOk(s') && ReplicaOk(s')
  {
    hide LoggedOps, Over, Newest, TouchedBy, Acknowledged, Pending, AllOps;
    var s', i := Do(s, PutByte), s.copier.lo + s.copier.put;
    forall j | 0 <= j < Size(s)
      ensures ByteOk(s', j)
      ensures RereadSafe(s', j) == RereadSafe(s, j)
    {
      assert ByteOk(s, j);
      if j == i {
        ReadIsInChunk(s, i);
      }
    }
  }

  lemma AdvanceKeepsRest(plan: seq<Range>, m: nat, i: nat)
    requires plan != [] && InPlan(plan, i)
    requires !(plan[0].lo <= i < plan[0].lo + m)
    requires m == 0 ==> !(plan[0].lo <= i < plan[0].hi)
    ensures InPlan(Advance(plan, m), i)
  {
    var k :| 0 <= k < |plan| && plan[k].lo <= i < plan[k].hi;
    if k > 0 {
      assert plan[1..][k - 1] == plan[k];
      assert Advance(plan, m)[if m == 0 then k - 1 else k] == plan[k];
    } else {
      assert Advance(plan, m)[0] == Range(plan[0].lo + m, plan[0].hi);
    }
  }

  lemma HandOffByte(s: State, i: nat)
    requires Inv(s) && Enabled(s, HandOff) && i < Size(s) && Wf(Do(s, HandOff))
    requires Pending(Do(s, HandOff)) == Pending(s) && (s.mode == Base(true) || SkipSafe(s, HandOff))
    ensures ByteOk(Do(s, HandOff), i)
  {
    hide LoggedOps, Over, Newest, TouchedBy, Pending, RereadSafe, Acknowledged, AllOps, DeviceOk, DeliveredLanded;
    var s', c := Do(s, HandOff), s.copier;
    assert ByteOk(s, i);
    if WasRead(s, i) {
      if Skips(s) && i in s.good && i !in s.stale && !Synced(s, i) {
        if s.mode == Base(true) {
          FreshSkipsSafely(s, i);
        }
        SkipExact(s, i);
      }
    } else if InPlan(s.plan, i) {
      AdvanceKeepsRest(s.plan, |c.got|, i);
    }
  }

  lemma HandOffKeeps(s: State)
    requires Inv(s) && Enabled(s, HandOff) && (s.mode == Base(true) || SkipSafe(s, HandOff))
    ensures Inv(Do(s, HandOff))
  {
    hide PendingOk, LoggedOps, Over, Newest, TouchedBy, Acknowledged, ByteOk;
    var s' := Do(s, HandOff);
    assert Pending(s') == Pending(s);
    SamePending(s, s');
    forall i | 0 <= i < Size(s)
      ensures ByteOk(s', i)
      ensures RereadSafe(s', i) == RereadSafe(s, i)
    {
      HandOffByte(s, i);
    }
    forall k | 0 <= k < s'.next && s'.dev.subs[k].logged
      ensures Acknowledged(s', k)
    {
      AcknowledgedSame(s, s', k);
    }
  }

  lemma ApplyLateByte(s: State, i: nat)
    requires Wf(s) && Enabled(s, ApplyLate) && i < Size(s)
    ensures var s' := Do(s, ApplyLate);
            && Wf(s')
            && Drained(s', i) == Drained(s, i)
            && (RereadSafe(s, i) ==> RereadSafe(s', i))
  {
    hide LoggedOps, Over, TouchedBy, Newest, Pending, Acknowledged;
    ApplyLatePending(s);
    OverFirst(s.replica[i], s.copier.late[0], Pending(Do(s, ApplyLate)), i);
  }

  lemma ApplyLatePending(s: State)
    requires Wf(s) && Enabled(s, ApplyLate)
    ensures var s' := Do(s, ApplyLate); Wf(s') && Pending(s) == [s.copier.late[0]] + Pending(s')
  {
    hide LoggedOps, RereadSafe, Acknowledged, Apply;
    var late := s.copier.late;
    assert late == [late[0]] + late[1..];
    assert Unseen(Do(s, ApplyLate)) == Unseen(s);
  }

  lemma ApplyLateKeeps(s: State)
    requires Inv(s) && Enabled(s, ApplyLate)
    ensures Inv(Do(s, ApplyLate))
  {
    hide PendingOk, LoggedOps, Over, Newest, TouchedBy, Acknowledged, Drained, RereadSafe;
    var s' := Do(s, ApplyLate);
    SamePending(s, s');
    forall i | 0 <= i < Size(s)
      ensures ByteOk(s', i)
      ensures RereadSafe(s, i) ==> RereadSafe(s', i)
    {
      ApplyLateByte(s, i);
      assert ByteOk(s, i);
    }
    forall k | 0 <= k < s'.next && s'.dev.subs[k].logged
      ensures Acknowledged(s', k)
    {
      AcknowledgedSame(s, s', k);
    }
  }

  /** Steps that change neither the records under way nor the area that is already copied. */
  lemma QuietKeeps(s: State, step: Step)
    requires Inv(s) && Enabled(s, step)
    requires step.Mark? || step.Finish? || step.NextRange? || step.ExchangeWord? || step.StartRecovery?
    ensures Inv(Do(s, step))
  {
    hide PendingOk, LoggedOps, Over, Newest, TouchedBy, Acknowledged;
    var s' := Do(s, step);
    assert Held(s') == Held(s);
    assert Pending(s') == Pending(s);
    SamePending(s, s');
    forall i | 0 <= i < Size(s)
      ensures ByteOk(s', i)
      ensures RereadSafe(s', i) == RereadSafe(s, i)
    {
      assert ByteOk(s, i);
      if step.NextRange? && InPlan(s.plan, i) {
        AdvanceKeepsRest(s.plan, 0, i);
      }
    }
    forall k | 0 <= k < s'.next && s'.dev.subs[k].logged
      ensures Acknowledged(s', k)
    {
      AcknowledgedSame(s, s', k);
    }
  }

  /** Every step keeps the invariant, provided no record overtakes one that matters and no chunk is skipped wrongly. */
  lemma StepKeepsInv(s: State, step: Step)
    requires Inv(s) && Enabled(s, step) && OrderSafe(s, step) && (s.mode == Base(true) || SkipSafe(s, step))
    ensures Inv(Do(s, step))
  {
    hide Inv, Enabled, Do, OrderSafe, SkipSafe;
    match step
    case Submit(op, logged) => SubmitKeeps(s, op, logged);
    case Land(i) => LandKeeps(s, i);
    case PassDropped => PassDroppedKeeps(s);
    case Flag => FlagKeeps(s);
    case ReadByte => ReadKeeps(s);
    case PutByte => PutKeeps(s);
    case HandOff => HandOffKeeps(s);
    case ApplyLate => ApplyLateKeeps(s);
    case Deliver => TakeKeeps(s, step);
    case Park => TakeKeeps(s, step);
    case Unpark => TakeKeeps(s, step);
    case _ => QuietKeeps(s, step);
  }
}
