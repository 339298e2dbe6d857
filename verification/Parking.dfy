/**
 Parking records while a rebuild reads the replica: what the main loop applies, in which
 order, for any pattern of the rebuild lock.
 */
module Parking {

  /**
   One turn of the main loop: the records consume gets, whether the lock is there when consume looks,
   and whether it is there when the loop decides about apply_pending.
   */
  datatype Turn<T> = Turn(batch: seq<T>, lockedAtConsume: bool, lockedAtApply: bool)

  /** Records applied so far, and those in pending.bin. */
  datatype Tally<T> = Tally(applied: seq<T>, parked: seq<T>)

  function Consumed<T>(p: Tally<T>, t: Turn<T>): Tally<T> {
    if t.lockedAtConsume then p.(parked := p.parked + t.batch) else p.(applied := p.applied + t.batch)
  }

  function NextTurn<T>(p: Tally<T>, t: Turn<T>): Tally<T> {
    var q := Consumed(p, t);
    if t.lockedAtApply then q else Tally(q.applied + q.parked, [])
  }

  /**
   The two looks at the lock do different things. What consume is given is parked if the lock is there when consume
   looks, and otherwise applied; what is parked is applied, all of it, if the lock is gone when the loop looks again,
   and otherwise stays. Nothing applied moves.
   */
  lemma TurnLooksTwice<T>(p: Tally<T>, t: Turn<T>)
    ensures var q := NextTurn(p, t);
            && p.applied <= q.applied
            && (t.lockedAtApply ==> q.parked == p.parked + (if t.lockedAtConsume then t.batch else []))
            && (t.lockedAtApply ==> q.applied == p.applied + (if t.lockedAtConsume then [] else t.batch))
            && (!t.lockedAtApply ==> q.parked == [])
            && (!t.lockedAtApply ==>
                  q.applied == p.applied + if t.lockedAtConsume then p.parked + t.batch else t.batch + p.parked)
  {
    assert p.parked + [] == p.parked && p.applied + [] == p.applied;
  }

  function AfterTurns<T>(p: Tally<T>, turns: seq<Turn<T>>): Tally<T>
    decreases |turns|
  {
    if turns == [] then p else AfterTurns(NextTurn(p, turns[0]), turns[1..])
  }

  function Delivered<T>(turns: seq<Turn<T>>): seq<T>
    decreases |turns|
  {
    if turns == [] then [] else turns[0].batch + Delivered(turns[1..])
  }

  /** consume applies something directly while pending.bin still holds records. */
  predicate JumpsQueue<T(==)>(p: Tally<T>, t: Turn<T>) {
    !t.lockedAtConsume && t.batch != [] && p.parked != []
  }

  predicate NeverJumps<T(==)>(p: Tally<T>, turns: seq<Turn<T>>)
    decreases |turns|
  {
    turns == [] || (!JumpsQueue(p, turns[0]) && NeverJumps(NextTurn(p, turns[0]), turns[1..]))
  }

  /** Whatever the lock does, no record is lost or duplicated. */
  lemma {:induction false} ParkingConserves<T>(p: Tally<T>, turns: seq<Turn<T>>)
    ensures var q := AfterTurns(p, turns);
            multiset(q.applied) + multiset(q.parked)
            == multiset(p.applied) + multiset(p.parked) + multiset(Delivered(turns))
    decreases |turns|
  {
    if turns != [] {
      TurnConserves(p, turns[0]);
      ParkingConserves(NextTurn(p, turns[0]), turns[1..]);
    }
  }

  lemma TurnConserves<T>(p: Tally<T>, t: Turn<T>)
    ensures var q := NextTurn(p, t);
            multiset(q.applied) + multiset(q.parked) == multiset(p.applied) + multiset(p.parked) + multiset(t.batch)
  {
  }

  predicate Distinct<T(==)>(s: seq<T>) {
    forall i, j | 0 <= i < j < |s| :: s[i] != s[j]
  }

  /** late stands before the first occurrence of early. */
  predicate Inverted<T(==)>(applied: seq<T>, early: T, late: T) {
    exists i | 0 <= i < |applied| :: applied[i] == late && early !in applied[..i]
  }

  lemma InvertedStays<T>(a: seq<T>, b: seq<T>, early: T, late: T)
    requires Inverted(a, early, late)
    ensures Inverted(a + b, early, late)
  {
    var i :| 0 <= i < |a| && a[i] == late && early !in a[..i];
    assert (a + b)[i] == late && (a + b)[..i] == a[..i];
  }

  lemma {:induction false} AppliedOnlyGrows<T>(p: Tally<T>, turns: seq<Turn<T>>)
    ensures p.applied <= AfterTurns(p, turns).applied
    decreases |turns|
  {
    if turns != [] {
      AppliedOnlyGrows(NextTurn(p, turns[0]), turns[1..]);
    }
  }

  /** Without jumps the order of delivery is kept at every moment. */
  lemma {:induction false} OrderKept<T>(p: Tally<T>, turns: seq<Turn<T>>)
    requires NeverJumps(p, turns)
    ensures var q := AfterTurns(p, turns); q.applied + q.parked == p.applied + p.parked + Delivered(turns)
    decreases |turns|
  {
    if turns != [] {
      var q := NextTurn(p, turns[0]);
      assert q.applied + q.parked == p.applied + p.parked + turns[0].batch;
      OrderKept(q, turns[1..]);
    }
  }

  /** A jump puts a record before an older one for good. */
  lemma JumpInverts<T>(p: Tally<T>, t: Turn<T>, rest: seq<Turn<T>>)
    requires JumpsQueue(p, t) && Distinct(p.applied + p.parked + t.batch + Delivered(rest))
    ensures Inverted(AfterTurns(NextTurn(p, t), rest).applied, p.parked[0], t.batch[0])
  {
    var all := p.applied + p.parked + t.batch + Delivered(rest);
    var a, n := p.applied + t.batch, |p.applied|;
    assert all[n] == p.parked[0] && all[n + |p.parked|] == t.batch[0];
    assert forall i | 0 <= i < n :: all[i] == a[i];
    assert a[n] == t.batch[0] && a[..n] == p.applied;
    assert p.parked[0] !in p.applied;
    assert Inverted(a, p.parked[0], t.batch[0]);
    var q := NextTurn(p, t);
    assert a <= q.applied;
    AppliedOnlyGrows(q, rest);
    var end := AfterTurns(q, rest).applied;
    assert end == a + end[|a|..];
    InvertedStays(a, end[|a|..], p.parked[0], t.batch[0]);
  }

  lemma {:induction false} SomeJumpInverts<T>(p: Tally<T>, turns: seq<Turn<T>>) returns (early: T, late: T, i: nat, j: nat)
    requires !NeverJumps(p, turns) && Distinct(p.applied + p.parked + Delivered(turns))
    ensures var all := p.applied + p.parked + Delivered(turns);
            i < j < |all| && all[i] == early && all[j] == late
    ensures Inverted(AfterTurns(p, turns).applied, early, late)
    decreases |turns|
  {
    var t, rest := turns[0], turns[1..];
    var all := p.applied + p.parked + Delivered(turns);
    assert all == p.applied + p.parked + t.batch + Delivered(rest);
    if JumpsQueue(p, t) {
      JumpInverts(p, t, rest);
      early, late := p.parked[0], t.batch[0];
      i, j := |p.applied|, |p.applied| + |p.parked|;
      assert all[i] == early && all[j] == late;
    } else {
      var q := NextTurn(p, t);
      assert q.applied + q.parked == p.applied + p.parked + t.batch;
      early, late, i, j := SomeJumpInverts(q, rest);
    }
  }

  lemma InOrderIsNotInverted<T>(all: seq<T>, i: nat, j: nat)
    requires Distinct(all) && i < j < |all|
    ensures !Inverted(all, all[i], all[j])
  {
    forall k | 0 <= k < |all| && all[k] == all[j]
      ensures all[i] in all[..k]
    {
      assert k == j;
      assert all[..k][i] == all[i];
    }
  }

  /**
   Starting with nothing parked and ending with nothing parked, the records are applied in the order
   of delivery if and only if consume never applied a record directly while pending.bin held some.
   Records are told apart by their sequence numbers.
   */
  lemma OrderExactly<T>(turns: seq<Turn<T>>)
    requires Distinct(Delivered(turns)) && AfterTurns(Tally([], []), turns).parked == []
    ensures AfterTurns(Tally([], []), turns).applied == Delivered(turns) <==> NeverJumps(Tally([], []), turns)
  {
    var p: Tally<T>, all := Tally([], []), Delivered(turns);
    var end := AfterTurns(p, turns);
    assert p.applied + p.parked + all == all;
    if NeverJumps(p, turns) {
      OrderKept(p, turns);
      assert end.applied + end.parked == end.applied;
    } else {
      var early, late, i, j := SomeJumpInverts(p, turns);
      InOrderIsNotInverted(all, i, j);
    }
  }

  /** The lock goes away between two turns: the second batch overtakes the first. */
  lemma UnlockOvertakes<T>(first: T, second: T)
    requires first != second
    ensures var turns := [Turn([first], true, true), Turn([second], false, false)];
            && AfterTurns(Tally([], []), turns) == Tally([second, first], [])
            && Delivered(turns) == [first, second]
  {
    var turns := [Turn([first], true, true), Turn([second], false, false)];
    var rest := turns[1..];
    assert rest == [Turn([second], false, false)] && rest[1..] == [];
    var p := NextTurn(Tally([], []), turns[0]);
    assert p == Tally([], [first]) by { assert [] + [first] == [first]; }
    assert NextTurn(p, rest[0]) == Tally([second, first], []) by { assert [] + [second] + [first] == [second, first]; }
    assert AfterTurns(p, rest) == AfterTurns(NextTurn(p, rest[0]), []);
    assert Delivered(rest) == [second] by { assert Delivered(rest[1..]) == []; }
  }
}
