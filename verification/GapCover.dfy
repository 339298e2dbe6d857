/**
 Marks, drops, gap records and snapshots together: what a snapshot holds that is taken once a gap record
 has been delivered.
 */
module GapCover {
  import opened DirtyBitmap
  import opened Ring

  /** The bitmap with its sweeps, the bios offered to the ring, and the number of records delivered. */
  datatype System = System(sweep: Sweep, subs: seq<Submission>, delivered: nat)

  /** One set_bit or one step of the read-and-clear; one cdp_reserve; one record read. */
  datatype Event = Bits(step: SweepStep) | Reserve(req: Request, logged: bool) | Deliver

  predicate CanHappen(s: System, e: Event) {
    match e
    case Bits(step) => CanSweep(s.sweep, step)
    case Reserve(_, _) => true
    case Deliver => s.delivered < |LogOf(s.subs)|
  }

  function Happens(s: System, e: Event): System
    requires CanHappen(s, e)
  {
    match e
    case Bits(step) => s.(sweep := SweepNext(s.sweep, step))
    case Reserve(req, logged) => s.(subs := s.subs + [Submission(req, logged)])
    case Deliver => s.(delivered := s.delivered + 1)
  }

  predicate Possible(s: System, events: seq<Event>)
    decreases |events|
  {
    events == [] || (CanHappen(s, events[0]) && Possible(Happens(s, events[0]), events[1..]))
  }

  function Reached(s: System, events: seq<Event>): System
    requires Possible(s, events)
    decreases |events|
  {
    if events == [] then s else Reached(Happens(s, events[0]), events[1..])
  }

  /** What happens to the bitmap alone. */
  function SweepSteps(events: seq<Event>): seq<SweepStep>
    decreases |events|
  {
    if events == [] then []
    else (if events[0].Bits? then [events[0].step] else []) + SweepSteps(events[1..])
  }

  lemma {:induction false} StepsAreThere(events: seq<Event>, k: nat)
    requires k < |events| && events[k].Bits?
    ensures events[k].step in SweepSteps(events)
    decreases |events|
  {
    if k > 0 {
      StepsAreThere(events[1..], k - 1);
    }
  }

  lemma {:induction false} BitmapAlone(s: System, events: seq<Event>)
    requires Possible(s, events)
    ensures CanRun(s.sweep, SweepSteps(events))
    ensures Run(s.sweep, SweepSteps(events)) == Reached(s, events).sweep
    decreases |events|
  {
    hide CanSweep, SweepNext;
    if events != [] {
      BitmapAlone(Happens(s, events[0]), events[1..]);
      if events[0].Bits? {
        assert SweepSteps(events)[0] == events[0].step && SweepSteps(events)[1..] == SweepSteps(events[1..]);
      } else {
        assert SweepSteps(events) == SweepSteps(events[1..]);
      }
    }
  }

  /** A bio offered is one that was there before or one of the events. */
  lemma {:induction false} OfferedBy(s: System, events: seq<Event>, j: nat) returns (k: nat)
    requires Possible(s, events) && |s.subs| <= j < |Reached(s, events).subs|
    ensures k < |events| && events[k] == Reserve(Reached(s, events).subs[j].req, Reached(s, events).subs[j].logged)
    decreases |events|
  {
    hide CanSweep, SweepNext, LogOf;
    var s' := Happens(s, events[0]);
    if events[0].Reserve? && j == |s.subs| {
      SubsStay(s', events[1..], j);
      k := 0;
    } else {
      k := OfferedBy(s', events[1..], j);
      k := k + 1;
    }
  }

  lemma {:induction false} SubsStay(s: System, events: seq<Event>, j: nat)
    requires Possible(s, events) && j < |s.subs|
    ensures j < |Reached(s, events).subs| && Reached(s, events).subs[j] == s.subs[j]
    decreases |events|
  {
    hide CanSweep, SweepNext, LogOf;
    if events != [] {
      SubsStay(Happens(s, events[0]), events[1..], j);
    }
  }

  /** Bit b has been set before event k. */
  predicate SetBefore(events: seq<Event>, k: nat, b: nat)
    requires k <= |events|
  {
    exists i | 0 <= i < k :: events[i] == Bits(Set(b))
  }

  /** cdp_log: every chunk of a bio has been marked by the time it reserves. */
  ghost predicate MarksFirst(events: seq<Event>, chunkSectors: nat, nbits: nat)
    requires chunkSectors > 0 && nbits > 0
  {
    forall k: nat, b: nat | k < |events| && events[k].Reserve?
      && Marked(events[k].req.sector, events[k].req.len, chunkSectors, nbits, b) :: SetBefore(events, k, b)
  }

  lemma MarkedBefore(events: seq<Event>, k: nat, chunkSectors: nat, nbits: nat, b: nat) returns (i: nat)
    requires chunkSectors > 0 && nbits > 0 && MarksFirst(events, chunkSectors, nbits)
    requires k < |events| && events[k].Reserve?
    requires Marked(events[k].req.sector, events[k].req.len, chunkSectors, nbits, b)
    ensures i < k && events[i] == Bits(Set(b))
  {
    assert SetBefore(events, k, b);
    i :| 0 <= i < k && events[i] == Bits(Set(b));
  }

  /** A transfer within the device whose size the rounding of cdp_mark can hold. */
  predicate InDevice(req: Request, chunkSectors: nat, nbits: nat) {
    req.len <= 0xFFFF_FE00 && req.sector + SectorCount(req.len) <= nbits * chunkSectors <= 0x1_0000_0000_0000_0000
  }

  /** Chunks of a transfer within the device have a bit. */
  lemma ChunkHasBit(req: Request, chunkSectors: nat, nbits: nat, b: nat)
    requires chunkSectors > 0 && InDevice(req, chunkSectors, nbits)
    requires ChunkTouched(req.sector, req.len, chunkSectors, b)
    ensures b < nbits
  {
    if b >= nbits {
      MulMonotone(nbits, b, chunkSectors);
    }
  }

  /**
   However marks, reservations, sweeps and reads interleave: once a snapshot is complete, every chunk touched by
   any bio that was offered before its sweep started, dropped or not, is in that snapshot or an earlier one.
   */
  lemma SweepCoversBios(start: Sweep, before: seq<Event>, after: seq<Event>, chunkSectors: nat, nbits: nat, j: nat, b: nat)
    requires chunkSectors > 0 && nbits > 0 && MarksFirst(before, chunkSectors, nbits)
    requires var s := System(start, [], 0);
             && Possible(s, before)
             && var m := Reached(s, before);
                && m.sweep.taken == [] && Possible(m, after) && Bits(CopyOut) in after
                && j < |m.subs| && InDevice(m.subs[j].req, chunkSectors, nbits)
                && ChunkTouched(m.subs[j].req.sector, m.subs[j].req.len, chunkSectors, b)
    ensures InSnapshots(Reached(Reached(System(start, [], 0), before), after).sweep.snapshots, b)
  {
    hide Possible, Reached, LogOf, Marked, InSnapshots, CanSweep, SweepNext, WordBit, Run, CanRun;
    var s := System(start, [], 0);
    var m := Reached(s, before);
    var req := m.subs[j].req;
    ChunkHasBit(req, chunkSectors, nbits, b);
    MarkIsExact(req.sector, req.len, chunkSectors, nbits, b);
    var k := OfferedBy(s, before, j);
    var i := MarkedBefore(before, k, chunkSectors, nbits, b);
    StepsAreThere(before, i);
    var c :| 0 <= c < |after| && after[c] == Bits(CopyOut);
    StepsAreThere(after, c);
    BitmapAlone(s, before);
    BitmapAlone(m, after);
    SnapshotCoversEarlierMarks(start, SweepSteps(before), SweepSteps(after), b);
  }

  /** Record g has been delivered and carries a gap mark. */
  predicate GapDelivered(s: System, g: nat) {
    g < s.delivered && g < |LogOf(s.subs)| && LogOf(s.subs)[g].gap
  }

  /**
   In particular: a delivered gap record means that some bio was dropped just before it, and a snapshot whose
   sweep starts after the delivery covers, with the earlier ones, every chunk of every bio dropped before it.
   */
  lemma GapRecordCoversDrops(start: Sweep, before: seq<Event>, after: seq<Event>, chunkSectors: nat, nbits: nat, g: nat)
    requires chunkSectors > 0 && nbits > 0 && MarksFirst(before, chunkSectors, nbits)
    requires var s := System(start, [], 0);
             && Possible(s, before)
             && var m := Reached(s, before);
                && m.sweep.taken == [] && Possible(m, after) && Bits(CopyOut) in after && GapDelivered(m, g)
                && forall j | 0 <= j < |m.subs| :: InDevice(m.subs[j].req, chunkSectors, nbits)
    ensures var m := Reached(System(start, [], 0), before);
            && g < |LogOf(m.subs)|
            && var q := PositionOf(m.subs, g);
               && (exists j | Previous(m.subs, g) < j < q :: !m.subs[j].logged)
               && forall j, b: nat | 0 <= j < q && !m.subs[j].logged
                    && ChunkTouched(m.subs[j].req.sector, m.subs[j].req.len, chunkSectors, b) ::
                    InSnapshots(Reached(m, after).sweep.snapshots, b)
  {
    hide Possible, Reached, LogOf, PositionOf, InSnapshots, InDevice, ChunkTouched, CanSweep, SweepNext;
    var m := Reached(System(start, [], 0), before);
    GapMarksDrops(m.subs, g);
    forall j, b: nat | 0 <= j < PositionOf(m.subs, g) && !m.subs[j].logged
                       && ChunkTouched(m.subs[j].req.sector, m.subs[j].req.len, chunkSectors, b)
      ensures InSnapshots(Reached(m, after).sweep.snapshots, b)
    {
      SweepCoversBios(start, before, after, chunkSectors, nbits, j, b);
    }
  }
}
