/**
 The seed layer: what replica.raw contained at the seed point, saved copy-on-first-write
 chunk by chunk in a sparse file, rebuilt from the file's holes on restart, and laid back
 over a copy of the replica by overlay_seed.
 */
module Seed {
  import opened Records
  import opened Images

  const SEED_CHUNK := 65536

  /** A byte of a sparse file: written, or in a hole. */
  type Cell = Option<Byte>

  function ChunkCount(size: nat): nat {
    (size + SEED_CHUNK - 1) / SEED_CHUNK
  }

  predicate InChunk(i: nat, c: nat) {
    i / SEED_CHUNK == c
  }

  predicate NonZeroChunk(img: seq<Byte>, c: nat) {
    exists i | 0 <= i < |img| :: InChunk(i, c) && img[i] != 0
  }

  predicate HasData(file: seq<Cell>, c: nat) {
    exists i | 0 <= i < |file| :: InChunk(i, c) && file[i].Some?
  }

  /* ------------------------------------------------------------------ */
  /* the layer as a value                                               */

  /** The replica, the seed file, and the chunks the daemon knows to be saved. */
  datatype Layer = Layer(replica: seq<Byte>, file: seq<Cell>, saved: set<nat>)

  /** The chunks that preserve looks at for a range. */
  predicate Covered(off: nat, len: nat, size: nat, c: nat) {
    off / SEED_CHUNK <= c < (off + len + SEED_CHUNK - 1) / SEED_CHUNK && c < ChunkCount(size)
  }

  /** SeedLayer.preserve before [off, off + len) is overwritten. */
  function Preserved(l: Layer, off: nat, len: nat): (r: Layer)
    ensures |r.file| == |l.file|
  {
    l.(file := seq(|l.file|, i requires 0 <= i < |l.file| =>
                 if Covered(off, len, |l.replica|, i / SEED_CHUNK) && i / SEED_CHUNK !in l.saved
                    && NonZeroChunk(l.replica, i / SEED_CHUNK) && i < |l.replica|
                 then Some(l.replica[i]) else l.file[i]),
       saved := l.saved + set c | 0 <= c < ChunkCount(|l.replica|) && Covered(off, len, |l.replica|, c))
  }

  /** Replica.write with a seed layer: preserve, then the write itself. */
  function Written(l: Layer, op: Op): Layer {
    if op.Flush? then l
    else var p := Preserved(l, Start(op), End(op) - Start(op)); p.(replica := Apply(l.replica, op))
  }

  /** SeedLayer.__init__ on an existing file: every chunk with data counts as saved. */
  function Restarted(l: Layer): Layer {
    l.(saved := set c | 0 <= c < ChunkCount(|l.file|) && HasData(l.file, c))
  }

  /** overlay_seed: every written byte of the seed file replaces that of the copy. */
  function Overlaid(file: seq<Cell>, copy: seq<Byte>): (r: seq<Byte>)
    ensures |r| == |copy|
  {
    seq(|copy|, i requires 0 <= i < |copy| => if i < |file| && file[i].Some? then file[i].value else copy[i])
  }

  /** The layer at the seed point: nothing saved. */
  function AtSeedPoint(img: seq<Byte>): Layer {
    Layer(img, seq(|img|, _ => None), {})
  }

  /** A write (base copy, recovery or live record), or a restart of the daemon. */
  datatype Event = Change(op: Op) | Restart

  function Next(l: Layer, e: Event): Layer {
    match e
    case Change(op) => Written(l, op)
    case Restart => Restarted(l)
  }

  function AfterEvents(l: Layer, events: seq<Event>): Layer
    decreases |events|
  {
    if events == [] then l else AfterEvents(Next(l, events[0]), events[1..])
  }

  /* ------------------------------------------------------------------ */
  /* what every run keeps                                               */

  /** Chunk c of the file is a hole throughout. */
  predicate AllHole(file: seq<Cell>, c: nat) {
    !HasData(file, c)
  }

  /** The saved copy of chunk c is its content in img. */
  ghost predicate SavedAs(file: seq<Cell>, img: seq<Byte>, c: nat)
    requires |file| == |img|
  {
    forall i | 0 <= i < |img| && InChunk(i, c) :: file[i] == Some(img[i])
  }

  ghost predicate SameChunk(a: seq<Byte>, b: seq<Byte>, c: nat)
    requires |a| == |b|
  {
    forall i | 0 <= i < |a| && InChunk(i, c) :: a[i] == b[i]
  }

  /** Some byte of the saved copy of chunk c is not zero. */
  predicate SavedNonZero(file: seq<Cell>, c: nat) {
    exists i | 0 <= i < |file| :: InChunk(i, c) && file[i].Some? && file[i].value != 0
  }

  /**
   Chunk c, given the image at the seed point. A chunk that was not all zero then is either unsaved and
   unchanged, or saved as it was. Any chunk not saved is a hole, and no saved copy is all zero.
   */
  ghost predicate ChunkOk(l: Layer, img: seq<Byte>, c: nat)
    requires |l.file| == |l.replica| == |img|
  {
    && (c !in l.saved ==> AllHole(l.file, c))
    && (HasData(l.file, c) ==> SavedNonZero(l.file, c))
    && (NonZeroChunk(img, c) ==>
          if c in l.saved then SavedAs(l.file, img, c) else SameChunk(l.replica, img, c))
  }

  ghost predicate LayerOk(l: Layer, img: seq<Byte>) {
    && |l.file| == |l.replica| == |img|
    && forall c: nat :: ChunkOk(l, img, c)
  }

  lemma SeedPointOk(img: seq<Byte>)
    ensures LayerOk(AtSeedPoint(img), img)
  {
  }

  /** A chunk that preserve does not look at is not touched by the write either. */
  lemma TouchedIsCovered(op: Op, size: nat, i: nat)
    requires !op.Flush? && Touches(op, i) && i < size
    ensures Covered(Start(op), End(op) - Start(op), size, i / SEED_CHUNK)
  {
  }

  lemma PreservedChunk(l: Layer, img: seq<Byte>, off: nat, len: nat, c: nat)
    requires LayerOk(l, img)
    ensures var p := Preserved(l, off, len);
            && p.replica == l.replica
            && (c in p.saved <==> c in l.saved || (c < ChunkCount(|l.replica|) && Covered(off, len, |l.replica|, c)))
            && (forall i | 0 <= i < |l.file| && InChunk(i, c) ::
                  p.file[i] == if c in p.saved && c !in l.saved && NonZeroChunk(l.replica, c)
                               then Some(l.replica[i]) else l.file[i])
            && ChunkOk(p, img, c)
  {
    hide Covered;
    var p := Preserved(l, off, len);
    assert ChunkOk(l, img, c);
    if c in p.saved && c !in l.saved {
      if NonZeroChunk(l.replica, c) {
        var i :| 0 <= i < |l.replica| && InChunk(i, c) && l.replica[i] != 0;
        assert p.file[i] == Some(l.replica[i]);
      } else {
        assert AllHole(p.file, c);
        SameZero(l.replica, img, c);
      }
    } else {
      SameFileChunk(l.file, p.file, c);
    }
  }

  lemma SameZero(a: seq<Byte>, b: seq<Byte>, c: nat)
    requires |a| == |b| && !NonZeroChunk(a, c)
    ensures SameChunk(a, b, c) ==> !NonZeroChunk(b, c)
  {
  }

  lemma SameFileChunk(a: seq<Cell>, b: seq<Cell>, c: nat)
    requires |a| == |b| && forall i | 0 <= i < |a| && InChunk(i, c) :: a[i] == b[i]
    ensures HasData(a, c) <==> HasData(b, c)
    ensures SavedNonZero(a, c) <==> SavedNonZero(b, c)
  {
  }

  lemma WrittenChunk(l: Layer, img: seq<Byte>, op: Op, c: nat)
    requires LayerOk(l, img) && !op.Flush?
    ensures ChunkOk(Written(l, op), img, c)
  {
    hide Covered;
    var p, w := Preserved(l, Start(op), End(op) - Start(op)), Written(l, op);
    PreservedChunk(l, img, Start(op), End(op) - Start(op), c);
    if c !in p.saved {
      forall i | 0 <= i < |img| && InChunk(i, c)
        ensures w.replica[i] == l.replica[i]
      {
        if Touches(op, i) {
          TouchedIsCovered(op, |img|, i);
        }
      }
    }
  }

  lemma RestartedChunk(l: Layer, img: seq<Byte>, c: nat)
    requires LayerOk(l, img)
    ensures ChunkOk(Restarted(l), img, c)
  {
    var r := Restarted(l);
    assert ChunkOk(l, img, c);
    if HasData(l.file, c) {
      var i :| 0 <= i < |l.file| && InChunk(i, c) && l.file[i].Some?;
      assert c < ChunkCount(|l.file|);
    } else if NonZeroChunk(img, c) {
      var i :| 0 <= i < |img| && InChunk(i, c) && img[i] != 0;
      assert l.file[i].None?;
    }
  }

  lemma NextOk(l: Layer, img: seq<Byte>, e: Event)
    requires LayerOk(l, img)
    ensures LayerOk(Next(l, e), img)
  {
    hide ChunkOk, Preserved;
    match e
    case Change(op) =>
      if !op.Flush? {
        forall c: nat
          ensures ChunkOk(Written(l, op), img, c)
        {
          WrittenChunk(l, img, op, c);
        }
      }
    case Restart =>
      forall c: nat
        ensures ChunkOk(Restarted(l), img, c)
      {
        RestartedChunk(l, img, c);
      }
  }

  /** Every run of writes, discards, zeroes and restarts after the seed point keeps the layer. */
  lemma {:induction false} EventsKeepLayer(l: Layer, img: seq<Byte>, events: seq<Event>)
    requires LayerOk(l, img)
    ensures LayerOk(AfterEvents(l, events), img)
    decreases |events|
  {
    hide LayerOk, Next;
    if events != [] {
      NextOk(l, img, events[0]);
      EventsKeepLayer(Next(l, events[0]), img, events[1..]);
    }
  }

  /* ------------------------------------------------------------------ */
  /* restoration                                                        */

  /** A chunk that was not all zero at the seed point is always restored. */
  lemma NonZeroChunkRestored(l: Layer, img: seq<Byte>, c: nat)
    requires LayerOk(l, img) && NonZeroChunk(img, c)
    ensures SameChunk(Overlaid(l.file, l.replica), img, c)
  {
    assert ChunkOk(l, img, c);
    if c !in l.saved {
      assert !HasData(l.file, c);
    }
  }

  /** A chunk that was all zero comes back as zeros only if it was left a hole and still is zero. */
  lemma ZeroChunkExactly(l: Layer, img: seq<Byte>, c: nat)
    requires LayerOk(l, img) && !NonZeroChunk(img, c)
    ensures SameChunk(Overlaid(l.file, l.replica), img, c) <==> !HasData(l.file, c) && !NonZeroChunk(l.replica, c)
  {
    var o := Overlaid(l.file, l.replica);
    assert ChunkOk(l, img, c);
    if HasData(l.file, c) {
      var i :| 0 <= i < |l.file| && InChunk(i, c) && l.file[i].Some? && l.file[i].value != 0;
      assert o[i] != img[i];
    } else if NonZeroChunk(l.replica, c) {
      var i :| 0 <= i < |l.replica| && InChunk(i, c) && l.replica[i] != 0;
      assert o[i] != img[i];
    }
  }

  lemma SameByChunks(a: seq<Byte>, b: seq<Byte>)
    requires |a| == |b|
    ensures a == b <==> forall c: nat :: SameChunk(a, b, c)
  {
    if forall c: nat :: SameChunk(a, b, c) {
      forall i | 0 <= i < |a|
        ensures a[i] == b[i]
      {
        assert SameChunk(a, b, i / SEED_CHUNK) && InChunk(i, i / SEED_CHUNK);
      }
    }
  }

  /**
   Laying the seed file over a copy of the replica restores every chunk that held data at the seed
   point, after any run of writes and restarts. The whole image is restored if and only if every chunk
   that was all zero then is still a hole in the seed file and all zero in the replica.
   */
  lemma SeedRestoredExactly(img: seq<Byte>, events: seq<Event>)
    ensures var l := AfterEvents(AtSeedPoint(img), events);
            && |l.replica| == |l.file| == |img|
            && (forall c: nat | NonZeroChunk(img, c) :: SameChunk(Overlaid(l.file, l.replica), img, c))
            && (Overlaid(l.file, l.replica) == img
                <==> forall c: nat | !NonZeroChunk(img, c) :: !HasData(l.file, c) && !NonZeroChunk(l.replica, c))
  {
    hide AfterEvents, Overlaid, SameChunk, NonZeroChunk, HasData, ChunkOk;
    var l := AfterEvents(AtSeedPoint(img), events);
    SeedPointOk(img);
    EventsKeepLayer(AtSeedPoint(img), img, events);
    var o := Overlaid(l.file, l.replica);
    forall c: nat
      ensures NonZeroChunk(img, c) ==> SameChunk(o, img, c)
      ensures !NonZeroChunk(img, c) ==>
                (SameChunk(o, img, c) <==> !HasData(l.file, c) && !NonZeroChunk(l.replica, c))
    {
      if NonZeroChunk(img, c) {
        NonZeroChunkRestored(l, img, c);
      } else {
        ZeroChunkExactly(l, img, c);
      }
    }
    SameByChunks(o, img);
  }

  /* ------------------------------------------------------------------ */
  /* in terms of what happened                                          */

  /** A write whose range meets chunk c. */
  predicate Covers(e: Event, size: nat, c: nat) {
    e.Change? && !e.op.Flush? && Covered(Start(e.op), End(e.op) - Start(e.op), size, c)
  }

  predicate CoveredIn(events: seq<Event>, size: nat, c: nat) {
    exists q | 0 <= q < |events| :: Covers(events[q], size, c)
  }

  /** At some restart chunk c is not all zero in the replica, and a later write meets it. */
  predicate SavedLate(l: Layer, events: seq<Event>, c: nat) {
    exists p | 0 <= p < |events| ::
      events[p] == Restart && NonZeroChunk(AfterEvents(l, events[..p]).replica, c)
      && CoveredIn(events[p + 1..], |l.replica|, c)
  }

  lemma CoveredNext(events: seq<Event>, size: nat, c: nat)
    requires events != []
    ensures CoveredIn(events, size, c) <==> Covers(events[0], size, c) || CoveredIn(events[1..], size, c)
  {
    if q :| 0 < q < |events| && Covers(events[q], size, c) {
      assert Covers(events[1..][q - 1], size, c);
    }
    if q :| 0 <= q < |events[1..]| && Covers(events[1..][q], size, c) {
      assert Covers(events[q + 1], size, c);
    }
  }

  lemma NextSize(l: Layer, e: Event)
    ensures |Next(l, e).replica| == |l.replica|
  {
  }

  lemma LateNext(l: Layer, events: seq<Event>, c: nat)
    requires events != []
    ensures SavedLate(l, events, c)
            <==> (events[0] == Restart && NonZeroChunk(l.replica, c) && CoveredIn(events[1..], |l.replica|, c))
                 || SavedLate(Next(l, events[0]), events[1..], c)
  {
    hide NonZeroChunk, CoveredIn, Preserved, Restarted;
    var rest, l' := events[1..], Next(l, events[0]);
    NextSize(l, events[0]);
    assert AfterEvents(l, events[..0]) == l;
    forall p | 0 <= p < |rest|
      ensures AfterEvents(l, events[..p + 1]) == AfterEvents(l', rest[..p]) && events[p + 2..] == rest[p + 1..]
    {
      assert events[..p + 1][1..] == rest[..p];
    }
    if SavedLate(l, events, c) {
      var p :| 0 <= p < |events| && events[p] == Restart && NonZeroChunk(AfterEvents(l, events[..p]).replica, c)
               && CoveredIn(events[p + 1..], |l.replica|, c);
      if p > 0 {
        assert rest[p - 1] == Restart && NonZeroChunk(AfterEvents(l', rest[..p - 1]).replica, c);
      }
    }
    if SavedLate(l', rest, c) {
      var p :| 0 <= p < |rest| && rest[p] == Restart && NonZeroChunk(AfterEvents(l', rest[..p]).replica, c)
               && CoveredIn(rest[p + 1..], |l'.replica|, c);
      assert events[p + 1] == Restart && NonZeroChunk(AfterEvents(l, events[..p + 1]).replica, c);
    }
  }

  /** What one event does to chunk c of the file and of the replica. */
  lemma NextChunk(l: Layer, img: seq<Byte>, e: Event, c: nat)
    requires LayerOk(l, img)
    ensures var l' := Next(l, e);
            && |l'.replica| == |l.replica|
            && (HasData(l'.file, c) <==>
                HasData(l.file, c) || (Covers(e, |img|, c) && c !in l.saved && NonZeroChunk(l.replica, c)))
            && (e == Restart ==> (c in l'.saved <==> HasData(l.file, c)) && l'.replica == l.replica)
            && (Covers(e, |img|, c) ==> c in l'.saved)
            && (e.Change? && !Covers(e, |img|, c) ==>
                  (c in l'.saved <==> c in l.saved) && SameChunk(l'.replica, l.replica, c))
  {
    hide Covered, Apply;
    assert ChunkOk(l, img, c);
    match e
    case Change(op) =>
      if !op.Flush? {
        PreservedChunk(l, img, Start(op), End(op) - Start(op), c);
        ChangedChunk(l, op, c);
      }
    case Restart =>
      if HasData(l.file, c) {
        var i :| 0 <= i < |l.file| && InChunk(i, c) && l.file[i].Some?;
        assert c < ChunkCount(|l.file|);
      }
  }

  lemma ChangedChunk(l: Layer, op: Op, c: nat)
    requires !op.Flush? && |l.file| == |l.replica|
    ensures var p, w := Preserved(l, Start(op), End(op) - Start(op)), Written(l, op);
            && w.saved == p.saved && w.file == p.file && |w.replica| == |l.replica|
            && (!Covered(Start(op), End(op) - Start(op), |l.replica|, c) ==> SameChunk(w.replica, l.replica, c))
    ensures Covered(Start(op), End(op) - Start(op), |l.replica|, c) ==> c < ChunkCount(|l.replica|)
    ensures HasData(Written(l, op).file, c) <==>
            HasData(l.file, c) || (Covered(Start(op), End(op) - Start(op), |l.replica|, c) && c !in l.saved
                                   && NonZeroChunk(l.replica, c))
  {
    var w := Written(l, op);
    if !Covered(Start(op), End(op) - Start(op), |l.replica|, c) {
      forall i | 0 <= i < |l.replica| && InChunk(i, c)
        ensures w.replica[i] == l.replica[i]
      {
        if Touches(op, i) {
          TouchedIsCovered(op, |l.replica|, i);
        }
      }
    }
    PreservedData(l, Start(op), End(op) - Start(op), c);
  }

  lemma PreservedData(l: Layer, off: nat, len: nat, c: nat)
    requires |l.file| == |l.replica|
    ensures HasData(Preserved(l, off, len).file, c) <==>
            HasData(l.file, c) || (Covered(off, len, |l.replica|, c) && c !in l.saved && NonZeroChunk(l.replica, c))
  {
    hide Covered;
    var p := Preserved(l, off, len);
    if HasData(l.file, c) {
      var i :| 0 <= i < |l.file| && InChunk(i, c) && l.file[i].Some?;
      assert p.file[i].Some?;
    }
    if Covered(off, len, |l.replica|, c) && c !in l.saved && NonZeroChunk(l.replica, c) {
      var i :| 0 <= i < |l.replica| && InChunk(i, c) && l.replica[i] != 0;
      assert p.file[i].Some?;
    }
  }

  lemma SameNonZero(a: seq<Byte>, b: seq<Byte>, c: nat)
    requires |a| == |b| && SameChunk(a, b, c)
    ensures NonZeroChunk(a, c) <==> NonZeroChunk(b, c)
  {
  }

  /** The chunks looked at are those that hold a byte of the range; for an empty range, the one it lies inside of. */
  lemma CoveredExactly(off: nat, len: nat, size: nat, c: nat)
    ensures len > 0 && off + len <= size ==>
              (Covered(off, len, size, c) <==> exists i :: off <= i < off + len && InChunk(i, c))
    ensures len == 0 && off <= size ==> (Covered(off, len, size, c) <==> InChunk(off, c) && off % SEED_CHUNK != 0)
  {
    if len > 0 && off + len <= size && Covered(off, len, size, c) {
      var i := if off >= c * SEED_CHUNK then off else c * SEED_CHUNK;
      assert off <= i < off + len && InChunk(i, c);
    }
  }

  function ChangesIn(events: seq<Event>): seq<Op> {
    if events == [] then []
    else
      var n := |events| - 1;
      if events[n].Change? then ChangesIn(events[..n]) + [events[n].op] else ChangesIn(events[..n])
  }

  lemma {:induction false} AfterLast(l: Layer, events: seq<Event>)
    requires events != []
    ensures AfterEvents(l, events) == Next(AfterEvents(l, events[..|events| - 1]), events[|events| - 1])
    decreases |events|
  {
    hide Next;
    var n := |events| - 1;
    if n > 0 {
      AfterLast(Next(l, events[0]), events[1..]);
      assert events[1..][..n - 1] == events[..n][1..];
    } else {
      assert events[..0] == [] && events[1..] == [];
    }
  }

  /** The seed layer never gets in the way: the replica is what the writes alone make of it. */
  lemma {:induction false} ReplicaIsFold(l: Layer, events: seq<Event>)
    ensures AfterEvents(l, events).replica == Fold(l.replica, ChangesIn(events))
    decreases |events|
  {
    hide Preserved, Restarted, Apply;
    if events != [] {
      var n := |events| - 1;
      AfterLast(l, events);
      ReplicaIsFold(l, events[..n]);
      var before := AfterEvents(l, events[..n]);
      NextReplica(before, events[n]);
      if events[n].Change? {
        var ops := ChangesIn(events[..n]);
        assert (ops + [events[n].op])[..|ops|] == ops;
      }
    }
  }

  lemma NextReplica(l: Layer, e: Event)
    ensures Next(l, e).replica == if e.Change? then Apply(l.replica, e.op) else l.replica
  {
  }

  /** When the seed file has data for a chunk: it had before, or the chunk is saved late. */
  lemma {:induction false} DataExactly(l: Layer, img: seq<Byte>, events: seq<Event>, c: nat)
    requires LayerOk(l, img)
    ensures HasData(AfterEvents(l, events).file, c) <==>
            HasData(l.file, c)
            || (c !in l.saved && NonZeroChunk(l.replica, c) && CoveredIn(events, |img|, c))
            || SavedLate(l, events, c)
    decreases |events|
  {
    hide LayerOk, Next, HasData, NonZeroChunk, Covers, SameChunk, CoveredIn, SavedLate;
    if events != [] {
      var l' := Next(l, events[0]);
      NextOk(l, img, events[0]);
      NextChunk(l, img, events[0], c);
      CoveredNext(events, |img|, c);
      LateNext(l, events, c);
      LayerSizes(l, img);
      RestartCoversNothing(events[0], |img|, c);
      if events[0].Change? && !Covers(events[0], |img|, c) {
        SameNonZero(l'.replica, l.replica, c);
      }
      DataExactly(l', img, events[1..], c);
    } else {
      NothingHappens(l, |img|, c);
    }
  }

  lemma NothingHappens(l: Layer, size: nat, c: nat)
    ensures !SavedLate(l, [], c) && !CoveredIn([], size, c)
  {
  }

  lemma LayerSizes(l: Layer, img: seq<Byte>)
    requires LayerOk(l, img)
    ensures |l.file| == |l.replica| == |img|
  {
  }

  lemma RestartCoversNothing(e: Event, size: nat, c: nat)
    ensures e == Restart ==> !Covers(e, size, c)
  {
  }

  /**
   A chunk all zero at the seed point is restored if and only if it is all zero in the replica at the end and was
   not saved late: a write met it after a restart that found it not all zero.
   */
  lemma ZeroChunkByEvents(img: seq<Byte>, events: seq<Event>, c: nat)
    requires !NonZeroChunk(img, c)
    ensures var l := AfterEvents(AtSeedPoint(img), events);
            && |l.file| == |l.replica| == |img|
            && (SameChunk(Overlaid(l.file, l.replica), img, c)
                <==> !NonZeroChunk(l.replica, c) && !SavedLate(AtSeedPoint(img), events, c))
  {
    hide AfterEvents, Overlaid, SameChunk, NonZeroChunk, HasData, ChunkOk, SavedLate, CoveredIn;
    SeedPointOk(img);
    SeedPointEmpty(img, c);
    EventsKeepLayer(AtSeedPoint(img), img, events);
    DataExactly(AtSeedPoint(img), img, events, c);
    ZeroChunkExactly(AfterEvents(AtSeedPoint(img), events), img, c);
  }

  lemma SeedPointEmpty(img: seq<Byte>, c: nat)
    ensures !HasData(AtSeedPoint(img).file, c) && AtSeedPoint(img).replica == img
  {
  }

  lemma {:induction false} ChunkStays(l: Layer, img: seq<Byte>, events: seq<Event>, c: nat)
    requires LayerOk(l, img) && !CoveredIn(events, |img|, c)
    ensures |AfterEvents(l, events).replica| == |l.replica| && SameChunk(AfterEvents(l, events).replica, l.replica, c)
    decreases |events|
  {
    hide LayerOk, Next, HasData, NonZeroChunk, Covers, CoveredIn;
    if events != [] {
      NextOk(l, img, events[0]);
      NextChunk(l, img, events[0], c);
      CoveredNext(events, |img|, c);
      ChunkStays(Next(l, events[0]), img, events[1..], c);
    }
  }

  lemma CoveredInSuffix(events: seq<Event>, p: nat, size: nat, c: nat)
    requires p <= |events| && CoveredIn(events[p..], size, c)
    ensures CoveredIn(events, size, c)
  {
    var q :| 0 <= q < |events[p..]| && Covers(events[p..][q], size, c);
    assert Covers(events[p + q], size, c);
  }

  lemma NotCoveredNotLate(l: Layer, events: seq<Event>, c: nat)
    requires !CoveredIn(events, |l.replica|, c)
    ensures !SavedLate(l, events, c)
  {
    hide NonZeroChunk, Covers, CoveredIn;
    forall p | 0 <= p < |events|
      ensures events[p] == Restart ==> !CoveredIn(events[p + 1..], |l.replica|, c)
    {
      if CoveredIn(events[p + 1..], |l.replica|, c) {
        CoveredInSuffix(events, p + 1, |l.replica|, c);
      }
    }
  }

  /** A chunk that no write has met is restored, whatever it held. */
  lemma UntouchedRestored(img: seq<Byte>, events: seq<Event>, c: nat)
    requires !CoveredIn(events, |img|, c)
    ensures var l := AfterEvents(AtSeedPoint(img), events);
            |l.file| == |l.replica| == |img| && SameChunk(Overlaid(l.file, l.replica), img, c)
  {
    hide AfterEvents, Overlaid, SameChunk, NonZeroChunk, HasData, ChunkOk, SavedLate, CoveredIn;
    SeedPointOk(img);
    SeedPointEmpty(img, c);
    EventsKeepLayer(AtSeedPoint(img), img, events);
    if NonZeroChunk(img, c) {
      NonZeroChunkRestored(AfterEvents(AtSeedPoint(img), events), img, c);
    } else {
      ZeroChunkByEvents(img, events, c);
      ChunkStays(AtSeedPoint(img), img, events, c);
      SameNonZero(AfterEvents(AtSeedPoint(img), events).replica, img, c);
      NotCoveredNotLate(AtSeedPoint(img), events, c);
    }
  }

  /**
   The case that fails: a chunk all zero at the seed point and written since is not restored, and after a
   restart of the daemon the next write even saves the newer content as if it were the seed's.
   */
  lemma ZeroChunkNotRestored()
    ensures var w5, w6 := Change(Write(0, [5])), Change(Write(0, [6]));
            var once := AfterEvents(AtSeedPoint([0]), [w5]);
            var again := AfterEvents(AtSeedPoint([0]), [w5, Restart, w6]);
            && Overlaid(once.file, once.replica) == [5]
            && Overlaid(again.file, again.replica) == [5] && again.file == [Some(5)]
  {
    var w5, w6 := Change(Write(0, [5])), Change(Write(0, [6]));
    var l0 := AtSeedPoint([0]);
    assert ChunkCount(1) == 1 && InChunk(0, 0);
    var l1 := Next(l0, w5);
    assert l1.replica == [5] && l1.file == [None];
    var l2 := Next(l1, Restart);
    assert l2.saved == {};
    var l3 := Next(l2, w6);
    assert Covered(0, 1, 1, 0);
    assert NonZeroChunk([5], 0) by { assert [5][0] != 0; }
    assert l3.replica == [6] && l3.file == [Some(5)];
    assert [w5][1..] == [];
    assert [w5, Restart, w6][1..] == [Restart, w6] && [Restart, w6][1..] == [w6] && [w6][1..] == [];
    assert AfterEvents(l2, [w6]) == AfterEvents(l3, []);
    assert AfterEvents(l1, [Restart, w6]) == AfterEvents(l2, [w6]);
  }
}
