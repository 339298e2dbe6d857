/**
 The replication protocol as a transition system: the device, the kernel log and its
 dirty bitmap, the daemon's apply loop and its one copy thread, interleaved at the
 granularity at which rkcdpd.py takes and releases its lock.
 */
module Protocol {
  import opened Records
  import opened Images

  const COPY_CHUNK := 0x40_0000
  const WORD_CHUNKS := 64

  /* ------------------------------------------------------------------ */
  /* state                                                              */

  /** A bio in submission order, and whether the ring took it. */
  datatype Sub = Sub(op: Op, logged: bool)

  /**
   The backing device. base is its content before the first submission; byte i has seen the
   first landed[i] submissions, so transfers may land late, torn and out of order, but never
   against the submission order of overlapping ones.
   */
  datatype Device = Device(base: seq<Byte>, subs: seq<Sub>, landed: seq<nat>, disk: seq<Byte>)

  /** A part of the disk still to copy. */
  datatype Range = Range(lo: nat, hi: nat)

  /**
   Where the copy thread is inside copy_chunk. Copying: the chunk is flagged, got is what the
   device read has returned so far, put bytes of it are in the replica. HandingOff: the flag is
   down, late is being applied.
   */
  datatype Copier = Idle | Copying(lo: nat, hi: nat, got: seq<Byte>, put: nat) | HandingOff(late: seq<Op>)

  /** Base copies skip zero chunks; recoveries do not. zeroed: the replica was created empty for the base copy. */
  datatype Mode = Base(zeroed: bool) | Recovery

  /** The dirty bitmap as chunk numbers, and the read-and-clear under way: words below cursor are in taken. */
  datatype Dirty = Dirty(chunk: nat, words: nat, bitmap: set<nat>, taken: set<nat>, cursor: nat)

  /**
   next is the number of submissions the main loop has consumed; parked are the records it put into
   pending.bin and has not applied since. stale and good are bookkeeping: bytes hit by a drop and not
   yet safely re-read, and bytes of the current chunk read safely.
   */
  datatype State = State(dev: Device, next: nat, replica: seq<Byte>, deferred: seq<Op>, parked: seq<Op>,
                         copier: Copier, plan: seq<Range>, mode: Mode, dirty: Dirty, stale: set<nat>, good: set<nat>)

  function AllOps(subs: seq<Sub>): (ops: seq<Op>)
    ensures |ops| == |subs|
  {
    seq(|subs|, k requires 0 <= k < |subs| => subs[k].op)
  }

  /** The records the ring will deliver for these submissions. */
  function LoggedOps(subs: seq<Sub>): seq<Op> {
    if subs == [] then []
    else
      var n := |subs| - 1;
      if subs[n].logged then LoggedOps(subs[..n]) + [subs[n].op] else LoggedOps(subs[..n])
  }

  /** Records that reached the daemon but not the replica. */
  function Held(s: State): seq<Op> {
    match s.copier
    case Idle => []
    case Copying(_, _, _, _) => s.deferred
    case HandingOff(late) => late
  }

  function Queue(s: State): seq<Op>
    requires s.next <= |s.dev.subs|
  {
    LoggedOps(s.dev.subs[s.next..])
  }

  /** Records that apply_one has yet to see: those parked, then those in the ring. */
  function Unseen(s: State): seq<Op>
    requires s.next <= |s.dev.subs|
  {
    s.parked + Queue(s)
  }

  /** Everything logged that the replica has yet to see, in the order it will see it if nothing is overtaken. */
  function Pending(s: State): seq<Op>
    requires s.next <= |s.dev.subs|
  {
    Held(s) + Unseen(s)
  }

  function Size(s: State): nat {
    |s.dev.base|
  }

  /** The disk once every submission has landed. */
  function Logical(s: State, i: nat): Byte
    requires i < |s.dev.base|
  {
    Over(s.dev.base[i], AllOps(s.dev.subs), i)
  }

  /** The replica once every pending record is applied. */
  function Drained(s: State, i: nat): Byte
    requires i < |s.replica| && s.next <= |s.dev.subs|
  {
    Over(s.replica[i], Pending(s), i)
  }

  predicate InPlan(plan: seq<Range>, i: nat) {
    exists k | 0 <= k < |plan| :: plan[k].lo <= i < plan[k].hi
  }

  /** The test of apply_one: the record meets the flagged chunk. */
  predicate Overlaps(op: Op, lo: nat, hi: nat) {
    Start(op) < hi && End(op) > lo
  }

  predicate AllZero(s: seq<Byte>) {
    forall j | 0 <= j < |s| :: s[j] == 0
  }

  function BytesOf(op: Op, size: nat): set<nat> {
    set i | 0 <= i < size && Touches(op, i)
  }

  function ChunksOf(op: Op, chunk: nat): set<nat>
    requires chunk > 0
  {
    set i | Start(op) <= i < End(op) :: i / chunk
  }

  /**
   Re-reading byte i now gives its newest content once the pending records are applied: the newest
   submission touching it is one the log still delivers or has delivered, or it was dropped but has
   landed and no pending record will overwrite it.
   */
  predicate RereadSafe(s: State, i: nat)
    requires i < |s.dev.landed| && s.next <= |s.dev.subs|
  {
    var n := Newest(AllOps(s.dev.subs), i);
    n < 0 || s.dev.subs[n].logged || (s.dev.landed[i] > n && !TouchedBy(Pending(s), i))
  }

  /* ------------------------------------------------------------------ */
  /* steps                                                              */

  datatype Step =
    | Mark(op: Op)                     // cdp_mark
    | Submit(op: Op, logged: bool)     // cdp_reserve: logged or dropped
    | Land(i: nat)                     // the next submission takes effect on byte i of the disk
    | Deliver                          // consume runs apply_one on the next record
    | Park                             // consume appends the next record to pending.bin
    | Unpark                           // apply_pending runs apply_one on the next parked record
    | PassDropped                      // a dropped submission has no record
    | Flag                             // copy_chunk: copying := the chunk
    | ReadByte                         // copy_chunk: the device read gets one more byte
    | PutByte                          // copy_chunk: the replica write puts one more byte
    | HandOff                          // copy_chunk: copying := None, late := deferred
    | ApplyLate                        // copy_chunk: apply_one on the next late record
    | Finish                           // copy_chunk returns
    | NextRange                        // recover: next extent
    | ExchangeWord                     // cdp_ioctl_bitmap: one xchg
    | StartRecovery(extents: seq<Range>)

  ghost predicate Wf(s: State) {
    && |s.dev.disk| == |s.dev.landed| == |s.replica| == Size(s)
    && s.next <= |s.dev.subs|
    && (forall i | 0 <= i < Size(s) :: s.dev.landed[i] <= |s.dev.subs|)
    && (s.copier.Copying? ==>
          s.plan != [] && s.copier.put <= |s.copier.got|
          && (s.copier.got == [] || s.copier.lo + |s.copier.got| <= Size(s)))
    && s.dirty.chunk > 0
  }

  /** Record k has been acknowledged by the device, so the ring may deliver it. */
  ghost predicate Acknowledged(s: State, k: nat)
    requires k < |s.dev.subs|
  {
    forall i | 0 <= i < |s.dev.landed| && Touches(s.dev.subs[k].op, i) :: s.dev.landed[i] > k
  }

  /** The chunk just read is all zeros and the copy skips such chunks. */
  predicate Skips(s: State) {
    s.copier.Copying? && s.mode.Base? && s.copier.put == 0 && AllZero(s.copier.got)
  }

  ghost predicate Enabled(s: State, step: Step)
    requires Wf(s)
  {
    match step
    case Mark(op) => true
    case Submit(op, logged) => true
    case Land(i) => i < Size(s) && s.dev.landed[i] < |s.dev.subs|
    case Deliver => s.next < |s.dev.subs| && s.dev.subs[s.next].logged && Acknowledged(s, s.next)
    case Park => s.next < |s.dev.subs| && s.dev.subs[s.next].logged && Acknowledged(s, s.next)
    case Unpark => s.parked != []
    case PassDropped => s.next < |s.dev.subs| && !s.dev.subs[s.next].logged
    case Flag => s.copier.Idle? && s.plan != [] && s.plan[0].lo < s.plan[0].hi
    case ReadByte =>
      s.copier.Copying? && s.copier.put == 0 && s.copier.lo + |s.copier.got| < Size(s)
      && s.copier.lo + |s.copier.got| < s.copier.hi
    case PutByte => s.copier.Copying? && s.copier.put < |s.copier.got| && !Skips(s)
    case HandOff =>
      s.copier.Copying? && (s.copier.put == |s.copier.got| || Skips(s))
      && (s.copier.got != [] || s.copier.lo >= Size(s))
    case ApplyLate => s.copier.HandingOff? && s.copier.late != []
    case Finish => s.copier.HandingOff? && s.copier.late == []
    case NextRange => s.copier.Idle? && s.plan != [] && s.plan[0].lo >= s.plan[0].hi
    case ExchangeWord => s.copier.Idle? && s.plan == [] && s.dirty.cursor < s.dirty.words
    case StartRecovery(extents) =>
      s.copier.Idle? && s.plan == [] && s.dirty.cursor == s.dirty.words
      && forall i: nat :: InPlan(extents, i) <==> i / s.dirty.chunk in s.dirty.taken
  }

  function Min(a: nat, b: nat): nat {
    if a < b then a else b
  }

  function LandByte(d: Device, i: nat): Device
    requires i < |d.landed| == |d.disk| && d.landed[i] < |d.subs|
  {
    var op := d.subs[d.landed[i]].op;
    d.(landed := d.landed[i := d.landed[i] + 1],
       disk := if Touches(op, i) then d.disk[i := ValueAt(op, i)] else d.disk)
  }

  /** The plan after m bytes of its first range have been dealt with; an empty read ends the range. */
  function Advance(plan: seq<Range>, m: nat): seq<Range>
    requires plan != []
  {
    if m == 0 then plan[1..] else [Range(plan[0].lo + m, plan[0].hi)] + plan[1..]
  }

  function WordOf(d: Dirty, w: nat): set<nat> {
    set c | c in d.bitmap && c / WORD_CHUNKS == w
  }

  /** The chunk being copied makes apply_one defer this record. */
  predicate Defers(s: State, op: Op) {
    s.copier.Copying? && Overlaps(op, s.copier.lo, s.copier.hi)
  }

  /** apply_one. */
  function ApplyOne(s: State, op: Op): State {
    if Defers(s, op) then s.(deferred := s.deferred + [op]) else s.(replica := Apply(s.replica, op))
  }

  ghost function Do(s: State, step: Step): State
    requires Wf(s) && Enabled(s, step)
  {
    match step
    case Mark(op) => s.(dirty := s.dirty.(bitmap := s.dirty.bitmap + ChunksOf(op, s.dirty.chunk)))
    case Submit(op, logged) =>
      var s' := s.(dev := s.dev.(subs := s.dev.subs + [Sub(op, logged)]));
      if logged then s'
      else s'.(stale := s.stale + BytesOf(op, Size(s)), good := s.good - BytesOf(op, Size(s)))
    case Land(i) => s.(dev := LandByte(s.dev, i))
    case Deliver => ApplyOne(s.(next := s.next + 1), s.dev.subs[s.next].op)
    case Park => s.(next := s.next + 1, parked := s.parked + [s.dev.subs[s.next].op])
    case Unpark => ApplyOne(s.(parked := s.parked[1..]), s.parked[0])
    case PassDropped => s.(next := s.next + 1)
    case Flag =>
      var lo := s.plan[0].lo;
      s.(copier := Copying(lo, lo + Min(s.plan[0].hi - lo, COPY_CHUNK), [], 0), deferred := [], good := {})
    case ReadByte =>
      var i := s.copier.lo + |s.copier.got|;
      s.(copier := s.copier.(got := s.copier.got + [s.dev.disk[i]]),
         good := if RereadSafe(s, i) then s.good + {i} else s.good)
    case PutByte =>
      s.(replica := s.replica[s.copier.lo + s.copier.put := s.copier.got[s.copier.put]],
         copier := s.copier.(put := s.copier.put + 1))
    case HandOff =>
      s.(copier := HandingOff(s.deferred), deferred := [], plan := Advance(s.plan, |s.copier.got|),
         stale := if Skips(s) then s.stale else s.stale - s.good, good := {})
    case ApplyLate =>
      s.(replica := Apply(s.replica, s.copier.late[0]), copier := HandingOff(s.copier.late[1..]))
    case Finish => s.(copier := Idle)
    case NextRange => s.(plan := s.plan[1..])
    case ExchangeWord =>
      var w := WordOf(s.dirty, s.dirty.cursor);
      s.(dirty := s.dirty.(bitmap := s.dirty.bitmap - w, taken := s.dirty.taken + w, cursor := s.dirty.cursor + 1))
    case StartRecovery(extents) =>
      s.(plan := extents, mode := Recovery, dirty := s.dirty.(taken := {}, cursor := 0))
  }
}
