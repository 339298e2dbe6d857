/**
 Runs of the protocol that leave the replica different from the disk for good: at least one for each
 hypothesis of the convergence theorems on the order of events that the code does not enforce by itself.
 */
module Hazards {
  import opened Records
  import opened Images
  import opened Protocol
  import opened Invariant
  import opened Convergence

  /** One step from s to s'. */
  ghost predicate Leads(s: State, step: Step, s': State) {
    Wf(s) && Enabled(s, step) && Do(s, step) == s'
  }

  /** steps is a run from s to end. */
  ghost predicate Runs(s: State, steps: seq<Step>, end: State) {
    Legal(s, steps) && After(s, steps) == end
  }

  /** Extends a run by one step. */
  lemma Take(s: State, steps: seq<Step>, now: State, step: Step, next: State) returns (more: seq<Step>)
    requires Runs(s, steps, now) && Leads(now, step, next) && Wf(next)
    ensures Runs(s, more, next) && more == steps + [step]
    ensures KeepsOrder(s, steps) && OrderSafe(now, step) ==> KeepsOrder(s, more)
    ensures NoDrops(steps) && !Drop(step) ==> NoDrops(more)
    ensures MarksPrecedeDrops(steps) && (Drop(step) ==> Mark(step.op) in steps) ==> MarksPrecedeDrops(more)
  {
    hide Enabled, Do, OrderSafe;
    more := steps + [step];
    RunAppend(s, steps, step);
    if MarksPrecedeDrops(steps) && (Drop(step) ==> Mark(step.op) in steps) {
      forall k | 0 <= k < |more| && Drop(more[k])
        ensures exists j | 0 <= j < k :: more[j] == Mark(more[k].op)
      {
        if k == |steps| {
          var j :| 0 <= j < |steps| && steps[j] == Mark(step.op);
          assert more[j] == Mark(more[k].op);
        } else {
          var j :| 0 <= j < k && steps[j] == Mark(steps[k].op);
          assert more[j] == Mark(more[k].op);
        }
      }
    }
  }

  const W1 := Write(0, [1])
  const W2 := Write(0, [2])

  /** A one-byte device holding byte, after the given submissions, the first landed of them landed. */
  function Device1(subs: seq<Sub>, landed: nat, byte: Byte): Device {
    Device([0], subs, [landed], [byte])
  }

  function Clean(): Dirty {
    Dirty(1, 1, {}, {}, 0)
  }

  /** A fresh replica of an all-zero one-byte disk, base copy to do. */
  function Fresh1(): State {
    State(Device1([], 0, 0), 0, [0], [], [], Idle, [Range(0, 1)], Base(true), Clean(), {}, {})
  }

  /** Sequences as the steps build them. */
  lemma Singles(op: Op, lo: nat, hi: nat)
    ensures [op][1..] == [] && [Range(lo, hi)][1..] == []
    ensures hi == lo + 1 ==> Advance([Range(lo, hi)], 1) == [Range(hi, hi)]
  {
  }

  /** The first byte of a chunk is read. */
  lemma ReadsFirst(s: State, safe: bool)
    requires Wf(s) && s.copier.Copying? && s.copier.got == [] && s.copier.put == 0 && s.good == {}
    requires s.copier.lo < s.copier.hi && s.copier.lo < Size(s) && RereadSafe(s, s.copier.lo) == safe
    ensures Leads(s, ReadByte, s.(copier := s.copier.(got := [s.dev.disk[s.copier.lo]]),
                                  good := if safe then {s.copier.lo} else {}))
  {
    hide RereadSafe;
    assert [] + [s.dev.disk[s.copier.lo]] == [s.dev.disk[s.copier.lo]];
    assert {} + {s.copier.lo} == {s.copier.lo};
  }

  lemma RunsNothing(s: State)
    requires Wf(s)
    ensures Runs(s, [], s) && KeepsOrder(s, []) && NoDrops([])
  {
  }

  lemma AllLoggedIsSafe(s: State, i: nat)
    requires Wf(s) && i < Size(s) && forall k | 0 <= k < |s.dev.subs| :: s.dev.subs[k].logged
    ensures RereadSafe(s, i)
  {
  }

  /** The chunk [0, 1) is flagged. */
  lemma FlagsFirst(s: State)
    requires Wf(s) && s.copier.Idle? && s.deferred == [] && s.good == {} && s.plan == [Range(0, 1)]
    ensures Leads(s, Flag, s.(copier := Copying(0, 1, [], 0))) && OrderSafe(s, Flag)
  {
  }

  /** The chunk [0, 1) is flagged and read. */
  lemma ReadChunk(s0: State, before: seq<Step>, s: State, safe: bool) returns (steps: seq<Step>)
    requires Runs(s0, before, s) && KeepsOrder(s0, before) && NoDrops(before)
    requires Wf(s) && s.copier.Idle? && s.deferred == [] && s.good == {} && s.plan == [Range(0, 1)] && Size(s) > 0
    requires RereadSafe(s.(copier := Copying(0, 1, [], 0)), 0) == safe
    ensures Runs(s0, steps, s.(copier := Copying(0, 1, [s.dev.disk[0]], 0), good := if safe then {0} else {}))
    ensures KeepsOrder(s0, steps) && NoDrops(steps) && before <= steps
  {
    hide Runs, RereadSafe, KeepsOrder, Enabled, Do;
    var s1 := s.(copier := Copying(0, 1, [], 0));
    FlagsFirst(s);
    ReadsFirst(s1, safe);
    steps := Take(s0, before, s, Flag, s1);
    steps := Take(s0, steps, s1, ReadByte, s.(copier := Copying(0, 1, [s.dev.disk[0]], 0), good := if safe then {0} else {}));
  }

  /* ------------------------------------------------------------------ */
  /* the hand-off window                                                */

  /** W1 has been deferred for the chunk being copied. */
  function WindowDeferred(): State {
    State(Device1([Sub(W1, true)], 1, 1), 1, [0], [W1], [], Copying(0, 1, [], 0), [Range(0, 1)], Base(true), Clean(), {}, {})
  }

  lemma WindowStart() returns (steps: seq<Step>)
    ensures Runs(Fresh1(), steps, WindowDeferred()) && NoDrops(steps)
  {
    hide Runs, RereadSafe, KeepsOrder, OrderSafe, MarksPrecedeDrops;
    var s0 := Fresh1();
    var s1 := s0.(copier := Copying(0, 1, [], 0));
    var s2 := s1.(dev := Device1([Sub(W1, true)], 0, 0));
    var s3 := s2.(dev := Device1([Sub(W1, true)], 1, 1));
    RunsNothing(s0);
    steps := Take(s0, [], s0, Flag, s1);
    steps := Take(s0, steps, s1, Submit(W1, true), s2);
    steps := Take(s0, steps, s2, Land(0), s3);
    steps := Take(s0, steps, s3, Deliver, WindowDeferred());
  }

  /** The chunk is in the replica, the flag is down, and the late W1 has not been applied yet. */
  function WindowOpen(): State {
    State(Device1([Sub(W1, true)], 1, 1), 1, [1], [], [], HandingOff([W1]), [Range(1, 1)], Base(true), Clean(), {}, {})
  }

  lemma WindowCopy(before: seq<Step>) returns (steps: seq<Step>)
    requires Runs(Fresh1(), before, WindowDeferred()) && NoDrops(before)
    ensures Runs(Fresh1(), steps, WindowOpen()) && NoDrops(steps)
  {
    hide Runs, RereadSafe, KeepsOrder, OrderSafe, MarksPrecedeDrops;
    var s0, s4 := Fresh1(), WindowDeferred();
    var s5 := s4.(copier := Copying(0, 1, [1], 0), good := {0});
    var s6 := s5.(copier := Copying(0, 1, [1], 1), replica := [1]);
    AllLoggedIsSafe(s4, 0);
    ReadsFirst(s4, true);
    Singles(W1, 0, 1);
    steps := Take(s0, before, s4, ReadByte, s5);
    steps := Take(s0, steps, s5, PutByte, s6);
    steps := Take(s0, steps, s6, HandOff, WindowOpen());
  }

  /** W2 has been written and applied by the main loop inside the window. */
  function WindowOvertaken(): State {
    State(Device1([Sub(W1, true), Sub(W2, true)], 2, 2), 2, [2], [], [], HandingOff([W1]), [Range(1, 1)], Base(true),
          Clean(), {}, {})
  }

  lemma WindowOvertake(before: seq<Step>) returns (steps: seq<Step>)
    requires Runs(Fresh1(), before, WindowOpen()) && NoDrops(before)
    ensures Runs(Fresh1(), steps, WindowOvertaken()) && NoDrops(steps)
  {
    hide Runs, RereadSafe, KeepsOrder, OrderSafe, MarksPrecedeDrops;
    var s0, s7 := Fresh1(), WindowOpen();
    var s8 := s7.(dev := Device1([Sub(W1, true), Sub(W2, true)], 1, 1));
    var s9 := s7.(dev := Device1([Sub(W1, true), Sub(W2, true)], 2, 2));
    steps := Take(s0, before, s7, Submit(W2, true), s8);
    steps := Take(s0, steps, s8, Land(0), s9);
    steps := Take(s0, steps, s9, Deliver, WindowOvertaken());
  }

  function WindowEnd(): State {
    WindowOvertaken().(replica := [1], copier := Idle, plan := [])
  }

  lemma WindowFinish(before: seq<Step>) returns (steps: seq<Step>)
    requires Runs(Fresh1(), before, WindowOvertaken()) && NoDrops(before)
    ensures Runs(Fresh1(), steps, WindowEnd()) && NoDrops(steps)
  {
    hide Runs, RereadSafe, KeepsOrder, OrderSafe, MarksPrecedeDrops;
    var s0, s10 := Fresh1(), WindowOvertaken();
    var s11 := s10.(replica := [1], copier := HandingOff([]));
    var s12 := s11.(copier := Idle);
    Singles(W1, 1, 1);
    steps := Take(s0, before, s10, ApplyLate, s11);
    steps := Take(s0, steps, s11, Finish, s12);
    steps := Take(s0, steps, s12, NextRange, WindowEnd());
  }

  /**
   Between clearing the flag and applying the late records, the main loop can apply a newer record
   that a late one then overwrites: a base copy without drops ends with a stale replica.
   */
  lemma HandOffWindow() returns (steps: seq<Step>)
    ensures BaseStart(Fresh1()) && Runs(Fresh1(), steps, WindowEnd()) && NoDrops(steps)
    ensures AtRest(WindowEnd()) && WindowEnd().replica == [1] && WindowEnd().dev.disk == [2]
  {
    hide Runs;
    steps := WindowStart();
    steps := WindowCopy(steps);
    steps := WindowOvertake(steps);
    steps := WindowFinish(steps);
  }

  /* ------------------------------------------------------------------ */
  /* a record straddling the edge of the chunk                          */

  const BOTH := Write(0, [1, 1])

  function Device2(subs: seq<Sub>, landed: seq<nat>, disk: seq<Byte>): Device {
    Device([0, 0], subs, landed, disk)
  }

  /** A two-byte disk and its equal replica. */
  function Synced2(): State {
    State(Device2([], [0, 0], [0, 0]), 0, [0, 0], [], [], Idle, [], Recovery, Clean(), {}, {})
  }

  function StraddlePlanned(): State {
    Synced2().(plan := [Range(1, 2)])
  }

  lemma StraddleStart() returns (steps: seq<Step>)
    ensures Runs(Synced2(), steps, StraddlePlanned()) && NoDrops(steps)
  {
    hide Runs, RereadSafe, KeepsOrder, OrderSafe, MarksPrecedeDrops;
    var s0, op := Synced2(), Write(1, [0]);
    var s1 := s0.(dirty := Dirty(1, 1, {1}, {}, 0));
    var s2 := s0.(dirty := Dirty(1, 1, {}, {1}, 1));
    assert ChunksOf(op, 1) == {1} by { ChunkOfOne(op, 1); }
    RunsNothing(s0);
    steps := Take(s0, [], s0, Mark(op), s1);
    assert WordOf(s1.dirty, 0) == {1};
    steps := Take(s0, steps, s1, ExchangeWord, s2);
    PlanOfOne(1);
    steps := Take(s0, steps, s2, StartRecovery([Range(1, 2)]), StraddlePlanned());
  }

  lemma ChunkOfOne(op: Op, i: nat)
    requires op.Write? && |op.data| == 1 && op.off == i
    ensures ChunksOf(op, 1) == {i}
  {
    assert i / 1 == i;
    assert forall c | c in ChunksOf(op, 1) :: c == i;
    assert i in ChunksOf(op, 1);
  }

  lemma PlanOfOne(i: nat)
    ensures forall j: nat :: InPlan([Range(i, i + 1)], j) <==> j / 1 in {i}
  {
    forall j: nat
      ensures InPlan([Range(i, i + 1)], j) <==> j / 1 in {i}
    {
      assert [Range(i, i + 1)][0].lo == i;
    }
  }

  function StraddleDeferred(): State {
    State(Device2([Sub(BOTH, true)], [1, 1], [1, 1]), 1, [0, 0], [BOTH], [], Copying(1, 2, [], 0),
          [Range(1, 2)], Recovery, Clean(), {}, {})
  }

  /** BOTH is submitted while the chunk is flagged; the first landed of its bytes have landed. */
  function StraddleSubmitted(landed: seq<nat>, disk: seq<Byte>): State {
    State(Device2([Sub(BOTH, true)], landed, disk), 0, [0, 0], [], [], Copying(1, 2, [], 0),
          [Range(1, 2)], Recovery, Clean(), {}, {})
  }

  lemma StraddleSubmit(before: seq<Step>) returns (steps: seq<Step>)
    requires Runs(Synced2(), before, StraddlePlanned()) && NoDrops(before)
    ensures Runs(Synced2(), steps, StraddleSubmitted([0, 0], [0, 0])) && NoDrops(steps)
  {
    hide Runs, RereadSafe, KeepsOrder, OrderSafe, MarksPrecedeDrops;
    var s0, s3 := Synced2(), StraddlePlanned();
    var s4 := s3.(copier := Copying(1, 2, [], 0));
    steps := Take(s0, before, s3, Flag, s4);
    steps := Take(s0, steps, s4, Submit(BOTH, true), StraddleSubmitted([0, 0], [0, 0]));
  }

  lemma StraddleLand(before: seq<Step>) returns (steps: seq<Step>)
    requires Runs(Synced2(), before, StraddleSubmitted([0, 0], [0, 0])) && NoDrops(before)
    ensures Runs(Synced2(), steps, StraddleSubmitted([1, 1], [1, 1])) && NoDrops(steps)
  {
    hide Runs, RereadSafe, KeepsOrder, OrderSafe, MarksPrecedeDrops;
    var s0, s6 := Synced2(), StraddleSubmitted([1, 0], [1, 0]);
    steps := Take(s0, before, StraddleSubmitted([0, 0], [0, 0]), Land(0), s6);
    steps := Take(s0, steps, s6, Land(1), StraddleSubmitted([1, 1], [1, 1]));
  }

  lemma StraddleDefer(before: seq<Step>) returns (steps: seq<Step>)
    requires Runs(Synced2(), before, StraddleSubmitted([1, 1], [1, 1])) && NoDrops(before)
    ensures Runs(Synced2(), steps, StraddleDeferred()) && NoDrops(steps)
  {
    hide Runs, RereadSafe, KeepsOrder, OrderSafe, MarksPrecedeDrops;
    steps := Take(Synced2(), before, StraddleSubmitted([1, 1], [1, 1]), Deliver, StraddleDeferred());
  }

  /** W2 touches only the byte outside the chunk, so it goes straight to the replica, ahead of BOTH. */
  function StraddleOvertaken(): State {
    State(Device2([Sub(BOTH, true), Sub(W2, true)], [2, 2], [2, 1]), 2, [2, 0], [BOTH], [], Copying(1, 2, [], 0),
          [Range(1, 2)], Recovery, Clean(), {}, {})
  }

  lemma StraddleOvertake(before: seq<Step>) returns (steps: seq<Step>)
    requires Runs(Synced2(), before, StraddleDeferred()) && NoDrops(before)
    ensures Runs(Synced2(), steps, StraddleOvertaken()) && NoDrops(steps)
  {
    hide Runs, RereadSafe, KeepsOrder, OrderSafe, MarksPrecedeDrops;
    var s0, s8 := Synced2(), StraddleDeferred();
    var subs := [Sub(BOTH, true), Sub(W2, true)];
    var s9 := s8.(dev := Device2(subs, [1, 1], [1, 1]));
    var s10 := s8.(dev := Device2(subs, [2, 1], [2, 1]));
    var s11 := s8.(dev := Device2(subs, [2, 2], [2, 1]));
    steps := Take(s0, before, s8, Submit(W2, true), s9);
    steps := Take(s0, steps, s9, Land(0), s10);
    steps := Take(s0, steps, s10, Land(1), s11);
    steps := Take(s0, steps, s11, Deliver, StraddleOvertaken());
  }

  function StraddleEnd(): State {
    State(Device2([Sub(BOTH, true), Sub(W2, true)], [2, 2], [2, 1]), 2, [1, 1], [], [], Idle, [], Recovery,
          Clean(), {}, {})
  }

  lemma StraddleFinish(before: seq<Step>) returns (steps: seq<Step>)
    requires Runs(Synced2(), before, StraddleOvertaken()) && NoDrops(before)
    ensures Runs(Synced2(), steps, StraddleEnd()) && NoDrops(steps)
  {
    hide Runs, RereadSafe, KeepsOrder, OrderSafe, MarksPrecedeDrops;
    var s0, s12 := Synced2(), StraddleOvertaken();
    var s13 := s12.(copier := Copying(1, 2, [1], 0), good := {1});
    var s14 := s13.(copier := Copying(1, 2, [1], 1), replica := [2, 1]);
    var s15 := s14.(copier := HandingOff([BOTH]), deferred := [], plan := [Range(2, 2)], good := {});
    AllLoggedIsSafe(s12, 1);
    ReadsFirst(s12, true);
    Singles(BOTH, 1, 2);
    steps := Take(s0, before, s12, ReadByte, s13);
    steps := Take(s0, steps, s13, PutByte, s14);
    steps := Take(s0, steps, s14, HandOff, s15);
    steps := StraddleLate(steps);
  }

  lemma StraddleLate(before: seq<Step>) returns (steps: seq<Step>)
    requires Runs(Synced2(), before, StraddleEnd().(replica := [2, 1], copier := HandingOff([BOTH]), plan := [Range(2, 2)]))
    requires NoDrops(before)
    ensures Runs(Synced2(), steps, StraddleEnd()) && NoDrops(steps)
  {
    hide Runs, RereadSafe, KeepsOrder, OrderSafe, MarksPrecedeDrops;
    var s0, s15 := Synced2(), StraddleEnd().(replica := [2, 1], copier := HandingOff([BOTH]), plan := [Range(2, 2)]);
    var s16 := s15.(replica := [1, 1], copier := HandingOff([]));
    var s17 := s16.(copier := Idle);
    Singles(BOTH, 2, 2);
    steps := Take(s0, before, s15, ApplyLate, s16);
    steps := Take(s0, steps, s16, Finish, s17);
    steps := Take(s0, steps, s17, NextRange, StraddleEnd());
  }

  /**
   apply_one defers a record that meets the chunk at all, but lets pass a newer record that only meets
   the part of it outside the chunk. The deferred record then overwrites the newer one there, on a byte
   nothing will copy again.
   */
  lemma StraddlingRecord() returns (steps: seq<Step>)
    ensures SyncedStart(Synced2()) && Runs(Synced2(), steps, StraddleEnd()) && NoDrops(steps)
    ensures AtRest(StraddleEnd()) && StraddleEnd().replica == [1, 1] && StraddleEnd().dev.disk == [2, 1]
  {
    hide Runs;
    steps := StraddleStart();
    steps := StraddleSubmit(steps);
    steps := StraddleLand(steps);
    steps := StraddleDefer(steps);
    steps := StraddleOvertake(steps);
    steps := StraddleFinish(steps);
  }

  /* ------------------------------------------------------------------ */
  /* skipping zero chunks                                               */

  /** A base copy onto a replica that is not empty. */
  function Used1(): State {
    Fresh1().(replica := [7], mode := Base(false))
  }

  function UsedRead(): State {
    Used1().(copier := Copying(0, 1, [0], 0), good := {0})
  }

  lemma ZeroRead() returns (steps: seq<Step>)
    ensures Runs(Used1(), steps, UsedRead()) && NoDrops(steps) && KeepsOrder(Used1(), steps)
  {
    hide Runs, RereadSafe, KeepsOrder;
    var s1 := Used1().(copier := Copying(0, 1, [], 0));
    AllLoggedIsSafe(s1, 0);
    RunsNothing(Used1());
    steps := ReadChunk(Used1(), [], Used1(), true);
  }

  lemma ZeroSkipped(before: seq<Step>) returns (steps: seq<Step>)
    requires Runs(Used1(), before, UsedRead()) && NoDrops(before) && KeepsOrder(Used1(), before)
    ensures Runs(Used1(), steps, Used1().(copier := HandingOff([]), plan := [Range(1, 1)]))
    ensures NoDrops(steps) && KeepsOrder(Used1(), steps)
  {
    hide Runs, RereadSafe, KeepsOrder;
    Singles(W1, 0, 1);
    steps := Take(Used1(), before, UsedRead(), HandOff, Used1().(copier := HandingOff([]), plan := [Range(1, 1)]));
  }

  /** On a replica that was not created empty, a skipped zero chunk keeps the old content. */
  lemma ZeroSkipNeedsFreshReplica() returns (steps: seq<Step>)
    ensures BaseStart(Used1()) && Runs(Used1(), steps, Used1().(plan := []))
    ensures NoDrops(steps) && KeepsOrder(Used1(), steps)
    ensures AtRest(Used1().(plan := [])) && Used1().replica == [7] && Used1().dev.disk == [0]
  {
    hide Runs, RereadSafe, KeepsOrder;
    var s0 := Used1();
    var s3 := s0.(copier := HandingOff([]), plan := [Range(1, 1)]);
    var s4 := s3.(copier := Idle);
    Singles(W1, 1, 1);
    steps := ZeroRead();
    steps := ZeroSkipped(steps);
    steps := Take(s0, steps, s3, Finish, s4);
    steps := Take(s0, steps, s4, NextRange, s0.(plan := []));
  }

  /* ------------------------------------------------------------------ */
  /* overflows on a one-byte disk                                       */

  const W3 := Write(0, [3])

  /** A one-byte node, the first landed of its transfers landed, with no copy or sweep under way. */
  datatype Node = Node(subs: seq<Sub>, landed: nat, disk: Byte, next: nat, replica: Byte, parked: seq<Op>,
                       planned: bool, marked: bool, stale: bool)

  function At(n: Node): State {
    State(Device1(n.subs, n.landed, n.disk), n.next, [n.replica], [], n.parked, Idle,
          if n.planned then [Range(0, 1)] else [], Recovery,
          Dirty(1, 1, if n.marked then {0} else {}, {}, 0), if n.stale then {0} else {}, {})
  }

  predicate NodeOk(n: Node) {
    n.next <= |n.subs| && n.landed <= |n.subs|
  }

  /** A replica of an all-zero disk, with nothing to do. */
  function Start1(): Node {
    Node([], 0, 0, 0, 0, [], false, false, false)
  }

  /** An orderly run from the start to n, in which every drop is preceded by its mark. */
  ghost predicate Reaches(steps: seq<Step>, s: State) {
    && Legal(At(Start1()), steps) && After(At(Start1()), steps) == s
    && KeepsOrder(At(Start1()), steps) && MarksPrecedeDrops(steps)
  }

  lemma Go(steps: seq<Step>, now: State, step: Step, next: State) returns (more: seq<Step>)
    requires Reaches(steps, now) && Leads(now, step, next) && Wf(next) && OrderSafe(now, step)
    requires Drop(step) ==> Mark(step.op) in steps
    ensures Reaches(more, next) && more == steps + [step] && steps <= more
  {
    hide Enabled, Do, OrderSafe, MarksPrecedeDrops, Legal, KeepsOrder;
    more := Take(At(Start1()), steps, now, step, next);
  }

  lemma Begin() returns (steps: seq<Step>)
    ensures Reaches(steps, At(Start1()))
  {
    steps := [];
  }

  predicate OneByte(op: Op) {
    op.Write? && op.off == 0 && |op.data| == 1
  }

  lemma MarkIt(before: seq<Step>, n: Node, op: Op) returns (steps: seq<Step>, next: Node)
    requires Reaches(before, At(n)) && NodeOk(n) && OneByte(op)
    ensures next == n.(marked := true) && Reaches(steps, At(next)) && Mark(op) in steps
  {
    hide Reaches, RereadSafe;
    next := n.(marked := true);
    assert ChunksOf(op, 1) == {0} by { ChunkOfOne(op, 0); }
    steps := Go(before, At(n), Mark(op), At(next));
  }

  /** What a record makes of the byte. */
  function Effect(op: Op, was: Byte): Byte {
    if Touches(op, 0) then ValueAt(op, 0) else was
  }

  /** A bio is logged or dropped, and is in flight. */
  function Submitted(n: Node, op: Op, logged: bool): Node {
    n.(subs := n.subs + [Sub(op, logged)], stale := n.stale || !logged)
  }

  lemma SubmitIt(before: seq<Step>, n: Node, op: Op, logged: bool) returns (steps: seq<Step>, next: Node)
    requires Reaches(before, At(n)) && NodeOk(n)
    requires !logged ==> OneByte(op) && Mark(op) in before
    ensures next == Submitted(n, op, logged) && Reaches(steps, At(next)) && before <= steps
  {
    hide Reaches, RereadSafe, Effect, MarksPrecedeDrops;
    assert OneByte(op) ==> BytesOf(op, 1) == {0};
    next := Submitted(n, op, logged);
    steps := Go(before, At(n), Submit(op, logged), At(next));
  }

  /** The next transfer lands. */
  lemma LandIt(before: seq<Step>, n: Node) returns (steps: seq<Step>, next: Node)
    requires Reaches(before, At(n)) && NodeOk(n) && n.landed < |n.subs|
    ensures next == n.(landed := n.landed + 1, disk := Effect(n.subs[n.landed].op, n.disk))
    ensures Reaches(steps, At(next)) && before <= steps
  {
    hide Reaches, RereadSafe, MarksPrecedeDrops;
    next := n.(landed := n.landed + 1, disk := Effect(n.subs[n.landed].op, n.disk));
    steps := Go(before, At(n), Land(0), At(next));
  }

  /** The node once a bio has been logged or dropped, and has landed. */
  function Offered(n: Node, op: Op, logged: bool): Node {
    Submitted(n, op, logged).(landed := n.landed + 1, disk := Effect(op, n.disk))
  }

  lemma Offer(before: seq<Step>, n: Node, op: Op, logged: bool) returns (steps: seq<Step>, next: Node)
    requires Reaches(before, At(n)) && NodeOk(n) && n.landed == |n.subs|
    requires !logged ==> OneByte(op) && Mark(op) in before
    ensures next == Offered(n, op, logged) && Reaches(steps, At(next)) && before <= steps
  {
    hide Reaches, RereadSafe, MarksPrecedeDrops, Effect;
    steps, next := SubmitIt(before, n, op, logged);
    steps, next := LandIt(steps, next);
  }

  lemma ApplyOneByte(op: Op, was: Byte)
    ensures Apply([was], op) == [Effect(op, was)]
  {
  }

  /** The next submission was logged and acknowledged. */
  predicate Servable(n: Node) {
    n.next < |n.subs| && n.subs[n.next].logged && (Touches(n.subs[n.next].op, 0) ==> n.landed > n.next)
  }

  /** The next record is applied. */
  lemma Serve(before: seq<Step>, n: Node) returns (steps: seq<Step>, next: Node)
    requires Reaches(before, At(n)) && NodeOk(n) && Servable(n) && n.parked == []
    ensures next == n.(next := n.next + 1, replica := Effect(n.subs[n.next].op, n.replica))
    ensures Reaches(steps, At(next))
  {
    hide Reaches, RereadSafe, LoggedOps, Apply;
    next := n.(next := n.next + 1, replica := Effect(n.subs[n.next].op, n.replica));
    ApplyOneByte(n.subs[n.next].op, n.replica);
    steps := Go(before, At(n), Deliver, At(next));
  }

  /** The next record is put into pending.bin. */
  lemma ParkIt(before: seq<Step>, n: Node) returns (steps: seq<Step>, next: Node)
    requires Reaches(before, At(n)) && NodeOk(n) && Servable(n)
    ensures next == n.(next := n.next + 1, parked := n.parked + [n.subs[n.next].op])
    ensures Reaches(steps, At(next))
  {
    hide Reaches, RereadSafe, LoggedOps;
    next := n.(next := n.next + 1, parked := n.parked + [n.subs[n.next].op]);
    steps := Go(before, At(n), Park, At(next));
  }

  lemma ApplyParked(before: seq<Step>, n: Node) returns (steps: seq<Step>, next: Node)
    requires Reaches(before, At(n)) && NodeOk(n) && n.parked != []
    ensures next == n.(parked := n.parked[1..], replica := Effect(n.parked[0], n.replica))
    ensures Reaches(steps, At(next))
  {
    hide Reaches, RereadSafe, LoggedOps, Apply;
    next := n.(parked := n.parked[1..], replica := Effect(n.parked[0], n.replica));
    ApplyOneByte(n.parked[0], n.replica);
    steps := Go(before, At(n), Unpark, At(next));
  }

  lemma Pass(before: seq<Step>, n: Node) returns (steps: seq<Step>, next: Node)
    requires Reaches(before, At(n)) && NodeOk(n) && n.next < |n.subs| && !n.subs[n.next].logged
    ensures next == n.(next := n.next + 1) && Reaches(steps, At(next))
  {
    hide Reaches, RereadSafe;
    next := n.(next := n.next + 1);
    steps := Go(before, At(n), PassDropped, At(next));
  }

  /** The bitmap is read and cleared, and a recovery of what it held starts. */
  lemma Fetch(before: seq<Step>, n: Node) returns (steps: seq<Step>, next: Node)
    requires Reaches(before, At(n)) && NodeOk(n) && !n.planned
    ensures next == n.(planned := n.marked, marked := false) && Reaches(steps, At(next)) && before <= steps
  {
    hide Reaches, RereadSafe;
    next := n.(planned := n.marked, marked := false);
    var s := At(n);
    var swept := s.(dirty := Dirty(1, 1, {}, s.dirty.bitmap, 1));
    assert WordOf(s.dirty, 0) == s.dirty.bitmap;
    steps := Go(before, s, ExchangeWord, swept);
    PlanOfOne(0);
    steps := Go(steps, swept, StartRecovery(At(next).plan), At(next));
  }

  /** The chunk is flagged and read. */
  lemma FlagAndRead(before: seq<Step>, n: Node, safe: bool) returns (steps: seq<Step>)
    requires Reaches(before, At(n)) && NodeOk(n) && n.planned && RereadSafe(At(n), 0) == safe
    ensures Reaches(steps, Read(n, safe)) && before <= steps
  {
    hide Reaches, RereadSafe;
    var s := At(n);
    var flagged := s.(copier := Copying(0, 1, [], 0));
    FlagsFirst(s);
    SafeStaysFlagged(s, flagged);
    ReadsFirst(flagged, safe);
    steps := Go(before, s, Flag, flagged);
    steps := Go(steps, flagged, ReadByte, Read(n, safe));
  }

  function Read(n: Node, safe: bool): State {
    At(n).(copier := Copying(0, 1, [n.disk], 0), good := if safe then {0} else {})
  }

  lemma SafeStaysFlagged(s: State, flagged: State)
    requires s.copier.Idle? && s.deferred == [] && flagged == s.(copier := Copying(0, 1, [], 0))
    requires |s.dev.landed| > 0 && s.next <= |s.dev.subs|
    ensures RereadSafe(flagged, 0) == RereadSafe(s, 0)
  {
    assert Pending(flagged) == Pending(s);
  }

  /** What was read is in the replica, and the flag is down. */
  function Put(n: Node, safe: bool): State {
    At(n.(replica := n.disk, stale := n.stale && !safe)).(copier := HandingOff([]), plan := [Range(1, 1)])
  }

  lemma PutChunk(before: seq<Step>, n: Node, safe: bool) returns (steps: seq<Step>)
    requires NodeOk(n) && n.planned && Reaches(before, Read(n, safe))
    ensures Reaches(steps, Put(n, safe)) && before <= steps
  {
    hide Reaches, RereadSafe;
    var put := Read(n, safe).(copier := Copying(0, 1, [n.disk], 1), replica := [n.disk]);
    Singles(W1, 0, 1);
    steps := Go(before, Read(n, safe), PutByte, put);
    assert (if n.stale then {0} else {}) - (if safe then {0} else {}) == (if n.stale && !safe then {0} else {});
    steps := Go(steps, put, HandOff, Put(n, safe));
  }

  /** The chunk is re-read, and with it the recovery is done. */
  lemma Reread(before: seq<Step>, n: Node, safe: bool) returns (steps: seq<Step>, next: Node)
    requires Reaches(before, At(n)) && NodeOk(n) && n.planned && RereadSafe(At(n), 0) == safe
    ensures next == n.(planned := false, replica := n.disk, stale := n.stale && !safe)
    ensures Reaches(steps, At(next)) && before <= steps
  {
    hide Reaches, RereadSafe;
    next := n.(planned := false, replica := n.disk, stale := n.stale && !safe);
    steps := FlagAndRead(before, n, safe);
    steps := PutChunk(steps, n, safe);
    Singles(W1, 1, 1);
    var idle := At(next).(plan := [Range(1, 1)]);
    steps := Go(steps, Put(n, safe), Finish, idle);
    steps := Go(steps, idle, NextRange, At(next));
  }

  /** W2 at position k was dropped and nothing newer touches the byte. */
  ghost predicate NewestDropped(n: Node, k: nat) {
    k < |n.subs| && n.subs[k] == Sub(W2, false) && forall j | k < j < |n.subs| :: !Touches(n.subs[j].op, 0)
  }

  /** Then re-reading is not safe while an older record is still to be applied. */
  lemma OlderPending(n: Node, k: nat, older: Op)
    requires NodeOk(n) && OneByte(older) && NewestDropped(n, k) && older in Pending(At(n))
    ensures !RereadSafe(At(n), 0)
  {
    hide LoggedOps;
    assert AllOps(n.subs)[k] == W2;
    assert Newest(AllOps(n.subs), 0) == k;
    var p := Pending(At(n));
    var j :| 0 <= j < |p| && p[j] == older;
    assert Touches(p[j], 0);
  }

  /* ------------------------------------------------------------------ */
  /* a sweep between a mark and its drop                                */

  function MarkLostEnd(): Node {
    Start1().(subs := [Sub(W1, false), Sub(Flush, true)], landed := 2, disk := 1, next := 2, stale := true)
  }

  /**
   cdp_log marks first and reserves later. A read-and-clear in between takes the mark, the recovery
   re-reads the chunk before the write lands, and the drop that follows has no mark left.
   */
  lemma SweepBetweenMarkAndDrop() returns (steps: seq<Step>)
    ensures SyncedStart(At(Start1())) && Reaches(steps, At(MarkLostEnd())) && AtRest(At(MarkLostEnd()))
    ensures MarkLostEnd().replica == 0 && MarkLostEnd().disk == 1 && !MarkLostEnd().marked
  {
    hide Reaches, RereadSafe;
    var n: Node := Start1();
    steps := Begin();
    steps, n := MarkIt(steps, n, W1);
    steps, n := Fetch(steps, n);
    AllLoggedIsSafe(At(n), 0);
    steps, n := Reread(steps, n, true);
    steps, n := Offer(steps, n, W1, false);
    steps, n := Pass(steps, n);
    steps, n := Offer(steps, n, Flush, true);
    steps, n := Serve(steps, n);
    steps, n := Fetch(steps, n);
    assert n == MarkLostEnd();
  }

  /* ------------------------------------------------------------------ */
  /* a drop between the gap record and the clear                        */

  function OverwrittenEnd(): Node {
    Start1().(subs := [Sub(W1, false), Sub(Flush, true), Sub(W3, true), Sub(W2, false), Sub(Flush, true)],
              landed := 5, disk := 2, next := 5, replica := 3, stale := true)
  }

  /** A first overflow is over and its gap record has been served. */
  function FirstGapServed(): Node {
    Start1().(subs := [Sub(W1, false), Sub(Flush, true)], landed := 2, disk := 1, next := 2, marked := true, stale := true)
  }

  lemma FirstGap() returns (steps: seq<Step>)
    ensures Reaches(steps, At(FirstGapServed()))
  {
    hide Reaches, RereadSafe;
    var n: Node := Start1();
    steps := Begin();
    steps, n := MarkIt(steps, n, W1);
    steps, n := Offer(steps, n, W1, false);
    steps, n := Pass(steps, n);
    steps, n := Offer(steps, n, Flush, true);
    steps, n := Serve(steps, n);
    assert n == FirstGapServed();
  }

  /** W3 is logged, W2 dropped; neither has been delivered when the bitmap is cleared and the chunk re-read. */
  function SecondReread(): Node {
    Start1().(subs := [Sub(W1, false), Sub(Flush, true), Sub(W3, true), Sub(W2, false)],
              landed := 4, disk := 2, next := 2, replica := 2, stale := true)
  }

  lemma DropBeforeClear(before: seq<Step>) returns (steps: seq<Step>)
    requires Reaches(before, At(FirstGapServed()))
    ensures Reaches(steps, At(SecondReread()))
  {
    hide Reaches, RereadSafe;
    var n := FirstGapServed();
    steps, n := Offer(before, n, W3, true);
    steps, n := MarkIt(steps, n, W2);
    steps, n := Offer(steps, n, W2, false);
    steps, n := Fetch(steps, n);
    ThirdIsQueued(n);
    OlderPending(n, 3, W3);
    steps, n := Reread(steps, n, false);
    assert n == SecondReread();
  }

  lemma ThirdIsQueued(n: Node)
    requires |n.subs| == 4 && n.next == 2 && n.subs[2] == Sub(W3, true) && n.subs[3] == Sub(W2, false)
    ensures W3 in Pending(At(n))
  {
    hide LoggedOps;
    LoggedHead(n.subs, 2);
    var p := Pending(At(n));
    assert LoggedOps(n.subs[2..])[0] == W3;
    assert p[|n.parked|] == W3;
  }

  /**
   A second drop between the gap record and the clear: its chunk is re-read, but an older record still
   in the ring then overwrites the re-read data, and the next recovery finds no mark.
   */
  lemma DropBetweenGapAndClear() returns (steps: seq<Step>)
    ensures SyncedStart(At(Start1())) && Reaches(steps, At(OverwrittenEnd())) && AtRest(At(OverwrittenEnd()))
    ensures OverwrittenEnd().replica == 3 && OverwrittenEnd().disk == 2 && !OverwrittenEnd().marked
  {
    hide Reaches, RereadSafe;
    steps := FirstGap();
    steps := DropBeforeClear(steps);
    var n := SecondReread();
    steps, n := Serve(steps, n);
    steps, n := Pass(steps, n);
    steps, n := Offer(steps, n, Flush, true);
    steps, n := Serve(steps, n);
    steps, n := Fetch(steps, n);
    assert n == OverwrittenEnd();
  }

  /* ------------------------------------------------------------------ */
  /* a recovery while records are parked                                */

  /** W3 was logged, W2 dropped, and the records, with the gap mark on the last, are in pending.bin. */
  function GapParked(): Node {
    Start1().(subs := [Sub(W3, true), Sub(W2, false), Sub(Flush, true)], landed := 3, disk := 2, next := 3,
              parked := [W3, Flush], marked := true, stale := true)
  }

  function ParkedEnd(): Node {
    GapParked().(parked := [], marked := false, replica := 3)
  }

  lemma ParkGap() returns (steps: seq<Step>)
    ensures Reaches(steps, At(GapParked()))
  {
    hide Reaches, RereadSafe;
    var n: Node := Start1();
    steps := Begin();
    steps, n := Offer(steps, n, W3, true);
    steps, n := MarkIt(steps, n, W2);
    steps, n := Offer(steps, n, W2, false);
    steps, n := Offer(steps, n, Flush, true);
    steps, n := ParkIt(steps, n);
    steps, n := Pass(steps, n);
    steps, n := ParkIt(steps, n);
    assert n == GapParked();
  }

  /**
   consume queues the recovery of a gap record even when it parks the record. A record older than the drop
   is still in pending.bin: it is applied over the re-read data, and no mark is left.
   */
  lemma RecoveryWhileParked() returns (steps: seq<Step>)
    ensures SyncedStart(At(Start1())) && Reaches(steps, At(ParkedEnd())) && AtRest(At(ParkedEnd()))
    ensures ParkedEnd().replica == 3 && ParkedEnd().disk == 2 && !ParkedEnd().marked
  {
    hide Reaches, RereadSafe;
    steps := ParkGap();
    var n := GapParked();
    steps, n := Fetch(steps, n);
    assert Pending(At(n))[0] == W3;
    OlderPending(n, 1, W3);
    steps, n := Reread(steps, n, false);
    steps, n := ApplyParked(steps, n);
    steps, n := ApplyParked(steps, n);
    assert n == ParkedEnd();
  }

  /** The gap record is consumed, the drop has landed and is marked; only the parked records stand against it. */
  lemma OnlyParkedStandsAgainst()
    ensures var s := At(GapParked());
            Wf(s) && GapServed(s) && DropsLanded(s) && Held(s) == [] && StaleMarked(s) && SweepStarts(s)
  {
    assert GapParked().subs[2].logged;
  }

  /* ------------------------------------------------------------------ */
  /* a dropped transfer still in flight                                 */

  /** W1 was dropped and is in flight; the record that carries the gap mark has been served. */
  function InFlight(): Node {
    Start1().(subs := [Sub(W1, false), Sub(Flush, true)], next := 2, marked := true, stale := true)
  }

  function InFlightEnd(): Node {
    InFlight().(landed := 2, disk := 1, marked := false)
  }

  lemma ServeInFlight() returns (steps: seq<Step>)
    ensures Reaches(steps, At(InFlight()))
  {
    hide Reaches, RereadSafe;
    var n: Node := Start1();
    steps := Begin();
    steps, n := MarkIt(steps, n, W1);
    steps, n := SubmitIt(steps, n, W1, false);
    steps, n := SubmitIt(steps, n, Flush, true);
    steps, n := Pass(steps, n);
    steps, n := Serve(steps, n);
    assert n == InFlight();
  }

  lemma NotLanded(n: Node)
    requires NodeOk(n) && n.subs == [Sub(W1, false), Sub(Flush, true)] && n.landed == 0
    ensures !RereadSafe(At(n), 0)
  {
    assert AllOps(n.subs)[0] == W1;
    assert Newest(AllOps(n.subs), 0) == 0;
  }

  /**
   The kernel forgets a dropped bio, so the next record can be delivered, and the chunk re-read, while the
   dropped transfer is still in flight: the old content is copied, and the mark is gone when it lands.
   */
  lemma DropStillInFlight() returns (steps: seq<Step>)
    ensures SyncedStart(At(Start1())) && Reaches(steps, At(InFlightEnd())) && AtRest(At(InFlightEnd()))
    ensures InFlightEnd().replica == 0 && InFlightEnd().disk == 1 && !InFlightEnd().marked
  {
    hide Reaches, RereadSafe;
    steps := ServeInFlight();
    var n := InFlight();
    steps, n := Fetch(steps, n);
    NotLanded(n);
    steps, n := Reread(steps, n, false);
    steps, n := LandIt(steps, n);
    steps, n := LandIt(steps, n);
    assert n == InFlightEnd();
  }

  /** When that sweep starts every other hypothesis is met. */
  lemma OnlyFlightStandsAgainst()
    ensures var s := At(InFlight()); Wf(s) && AllServed(s) && StaleMarked(s) && SweepStarts(s)
  {
    assert InFlight().subs[1].logged;
  }

  /* ------------------------------------------------------------------ */
  /* unparking                                                          */

  /** W1 is parked, W2 was written after it and is applied before it. */
  function UnlockedEnd(): Node {
    Start1().(subs := [Sub(W1, true), Sub(W2, true)], landed := 2, disk := 2, next := 2, replica := 1)
  }

  lemma ParkOne() returns (steps: seq<Step>)
    ensures Reaches(steps, At(UnlockedEnd().(next := 1, replica := 0, parked := [W1])))
  {
    hide Reaches, RereadSafe;
    var n: Node := Start1();
    steps := Begin();
    steps, n := Offer(steps, n, W1, true);
    steps, n := ParkIt(steps, n);
    steps, n := Offer(steps, n, W2, true);
    assert n == UnlockedEnd().(next := 1, replica := 0, parked := [W1]);
  }

  lemma ReachedByRun(steps: seq<Step>, s: State)
    requires Reaches(steps, s)
    ensures Runs(At(Start1()), steps, s)
  {
    hide KeepsOrder, MarksPrecedeDrops;
  }

  /**
   The rebuild lock goes away between two turns: consume applies the newer W2, apply_pending the older W1
   after it. No bio was dropped and no copy ran, and the replica stays wrong.
   */
  lemma UnparkedTooLate() returns (steps: seq<Step>)
    ensures SyncedStart(At(Start1())) && Runs(At(Start1()), steps, At(UnlockedEnd())) && AtRest(At(UnlockedEnd()))
    ensures UnlockedEnd().replica == 1 && UnlockedEnd().disk == 2
    ensures forall k | 0 <= k < |UnlockedEnd().subs| :: UnlockedEnd().subs[k].logged
  {
    hide Runs, Reaches, RereadSafe, KeepsOrder, OrderSafe, MarksPrecedeDrops, LoggedOps;
    var s := At(UnlockedEnd().(next := 1, replica := 0, parked := [W1]));
    var passed := At(UnlockedEnd().(replica := 2, parked := [W1]));
    steps := ParkOne();
    ReachedByRun(steps, s);
    assert [W1][1..] == [];
    steps := Take(At(Start1()), steps, s, Deliver, passed);
    steps := Take(At(Start1()), steps, passed, Unpark, At(UnlockedEnd()));
  }
}
