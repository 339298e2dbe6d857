/**
 struct cdp_target as an object: the producer, completion and consumer paths of
 dm-cdp.c over one shared ring. Reserve, PublishData and EndIo are one step under the
 lock each, or end in one release store; the others only read, write what nobody else looks
 at, or are sequences of such steps. Any interleaving is a sequence of calls.
 */
module Target {
  import opened Records
  import opened Bits
  import opened RingLayout
  import opened Ring
  import DirtyBitmap

  /** Outcome of a non-blocking read when nothing was copied, or that something was. */
  datatype ReadResult = Copied | EndOfFile | Again | MessageTooBig

  class CdpTarget {
    const ring: array<Byte>
    var head: nat
    var tail: nat
    var seqNext: nat
    var overflows: nat
    var gapPending: bool
    var overflowed: bool
    var records: nat
    var bytesLogged: nat
    var dead: bool

    ghost var areas: seq<Area>
    ghost var slots: seq<Slot>
    ghost var done: nat
    ghost var subs: seq<Submission>

    ghost function State(): RingState
      reads this, ring
    {
      RingState(ring[..], areas, slots, done, subs)
    }

    ghost predicate Valid()
      reads this, ring
    {
      && Consistent(State())
      && head == Head(State())
      && tail == Tail(State())
      && seqNext == |slots|
      && gapPending == GapPending(subs)
      && overflows == Dropped(subs)
    }

    constructor (size: nat)
      requires 0 < size < 0x4_0000_0000
      ensures Valid() && fresh(ring) && ring.Length == size
      ensures subs == [] && slots == [] && done == 0 && !dead && !overflowed
    {
      ring := new Byte[size](_ => 0);
      head, tail, seqNext, overflows, records, bytesLogged := 0, 0, 0, 0, 0, 0;
      gapPending, overflowed, dead := false, false, false;
      areas, slots, done, subs := [], [], 0, [];
    }

    /** memcpy of data to ring + pos. */
    method Store(pos: nat, data: seq<Byte>)
      requires pos + |data| <= ring.Length
      modifies ring
      ensures ring[..] == Splice(old(ring[..]), pos, data)
    {
      forall i | 0 <= i < |data| {
        ring[pos + i] := data[i];
      }
    }

    /** The overflow exits of cdp_reserve. */
    method AccountDrop(req: Request)
      requires Valid()
      modifies this`overflows, this`overflowed, this`gapPending, this`subs
      ensures Valid()
      ensures State() == old(State()).(subs := old(subs) + [Submission(req, false)]) && overflowed
    {
      hide Consistent, LogOf;
      overflows := overflows + 1;
      overflowed := true;
      gapPending := true;
      DroppingKeepsConsistent(State(), req);
      LogAppend(subs, Submission(req, false));
      subs := subs + [Submission(req, false)];
    }

    /** The successful end of cdp_reserve: skip pad bytes, fill in the header, publish the new head. */
    method PlaceRecord(req: Request, ts: nat, pad: nat) returns (off: nat)
      requires Valid() && RequestOk(req) && Need(req) <= ring.Length
      requires Consistent(Logged(State(), req, ts)) && pad == Pad(ring.Length, head, Need(req))
      modifies this`head, this`seqNext, this`gapPending, this`areas, this`slots, this`subs, ring
      ensures State() == Logged(old(State()), req, ts) && off == old(head) + pad
      ensures head == off + Need(req) && seqNext == old(seqNext) + 1 && !gapPending
    {
      hide EncodeHeader, Consistent, LogOf, RequestOk, Splice, Span, SetBit;
      ghost var was := State();
      var need := Align8(REC_SIZE + |req.payload|);
      PlaceFits(ring.Length, head, need);
      var hpos := head % ring.Length;
      SpliceNothing(ring[..], hpos);
      if pad > 0 {
        if pad >= REC_SIZE {
          Store(hpos, EncodeHeader(PadHeader(pad)));
        }
        head := head + pad;
        hpos := 0;
      }
      var flags := req.flags;
      if gapPending {
        flags := SetBit(flags, F_GAP_BIT);
        gapPending := false;
      }
      Store(hpos, EncodeHeader(Header(REC_MAGIC, ABI_VERSION, req.rtype, flags, ST_RESERVED, seqNext, req.sector,
                                      req.len, need, ts, 0)));
      seqNext := seqNext + 1;
      off := head;
      head := head + need;
      areas, slots, subs := Logged(was, req, ts).areas, Logged(was, req, ts).slots, Logged(was, req, ts).subs;
    }

    /** cdp_reserve: place a record and return its offset, or account a drop. */
    method Reserve(req: Request, ts: nat) returns (off: Option<nat>)
      requires Valid() && RequestOk(req)
      requires seqNext < 0x1_0000_0000_0000_0000 && ts < 0x1_0000_0000_0000_0000
      modifies this`head, this`seqNext, this`overflows, this`gapPending, this`overflowed
      modifies this`areas, this`slots, this`subs, ring
      ensures Valid()
      ensures tail <= old(head) <= tail + ring.Length
      ensures off.Some? <==> Admits(ring.Length, old(head), tail, Need(req))
      ensures off.Some? <==> Need(req) <= ring.Length / 4 && HasPlace(ring.Length, old(head), tail, Need(req))
      ensures off.Some? ==> FitsAt(ring.Length, old(head), tail, Need(req), off.value)
      ensures off.Some? ==> overflowed == old(overflowed) && Need(req) <= ring.Length
      ensures off.Some? ==> State() == Logged(old(State()), req, ts) && off.value == LogArea(old(State()), req, ts).off
      ensures off.Some? ==>
                var k := |old(slots)|;
                |slots| == k + 1 && k == old(seqNext) && Stamped(slots[k].frame.hdr, req, k, ts)
                && slots[k].frame.hdr.state == ST_RESERVED
      ensures off.None? ==> State() == old(State()).(subs := old(subs) + [Submission(req, false)]) && overflowed
    {
      hide EncodeHeader, Consistent, LogOf, RequestOk, Splice, Span, Filler, NewHeader, NewSlot, EndOf, GapPending;
      hide HasPlace, FitsAt, Stamped, Dropped;
      TailBelowHead(State());
      Sizes(State());
      AdmitsExactly(ring.Length, head, tail, Need(req));
      var n, need := ring.Length, Align8(REC_SIZE + |req.payload|);
      if need > n / 4 {
        AccountDrop(req);
        return None;
      }
      var hpos, pad := head % n, 0;
      if hpos + need > n {
        pad := n - hpos;
      }
      var free := n - (head - tail);
      if need + pad > free {
        AccountDrop(req);
        return None;
      }
      LoggingStep(State(), req, ts);
      LoggedAdds(State(), req, ts);
      var at := PlaceRecord(req, ts, pad);
      off := Some(at);
    }

    /** cdp_copy_bio_data: the payload goes in behind the header at the saved offset. */
    method CopyBioData(off: nat, payload: seq<Byte>, ghost k: nat)
      requires Valid() && k < |slots| && k < |areas| && areas[k].off == off
      requires slots[k].frame.hdr.state == ST_RESERVED && payload == slots[k].entry.req.payload
      modifies this`areas, this`slots, ring
      ensures Valid()
      ensures k < |old(slots)| && |payload| <= |old(slots)[k].frame.body|
      ensures slots == old(slots)[k := WithPayload(old(slots)[k])] && areas[k].off == off
      ensures slots[k].frame.body[..|payload|] == payload
    {
      hide Consistent, SlotOk, Splice, EncodeHeader, LogOf;
      ghost var was := State();
      Live(was, k);
      PayloadStep(was, k);
      StoringKeepsConsistent(was, k, REC_SIZE, payload, WithPayload(slots[k]));
      Store(off % ring.Length + REC_SIZE, payload);
      ghost var now := Stored(was, k, REC_SIZE, payload, WithPayload(slots[k]));
      areas, slots := now.areas, now.slots;
    }

    /** The release store that ends cdp_log: the record's data is complete. */
    method PublishData(off: nat, ghost k: nat)
      requires Valid() && k < |slots| && k < |areas| && areas[k].off == off
      requires slots[k].frame.hdr.state == ST_RESERVED
      requires |slots[k].entry.req.payload| <= |slots[k].frame.body|
      requires slots[k].frame.body[..|slots[k].entry.req.payload|] == slots[k].entry.req.payload
      modifies this`areas, this`slots, ring
      ensures Valid()
      ensures k < |old(slots)| && slots == old(slots)[k := WithState(old(slots)[k], ST_DATA)] && areas[k].off == off
    {
      Live(State(), k);
      StoreStateWord(off, ST_DATA, k);
    }

    method StoreStateWord(off: nat, state: nat, ghost k: nat)
      requires Valid() && done <= k < |slots| && k < |areas| && areas[k].off == off
      requires state in {ST_DATA, ST_COMMITTED}
      requires |slots[k].entry.req.payload| <= |slots[k].frame.body|
      requires slots[k].frame.body[..|slots[k].entry.req.payload|] == slots[k].entry.req.payload
      modifies this`areas, this`slots, ring
      ensures Valid()
      ensures k < |old(slots)| && slots == old(slots)[k := WithState(old(slots)[k], state)] && areas[k].off == off
    {
      hide Consistent, SlotOk, Splice, EncodeHeader, LogOf, LE;
      ghost var was := State();
      Sizes(was);
      StateStep(was, k, state);
      StoringKeepsConsistent(was, k, 12, LE(state, 4), WithState(slots[k], state));
      Store(off % ring.Length + 12, LE(state, 4));
      ghost var now := Stored(was, k, 12, LE(state, 4), WithState(slots[k], state));
      areas, slots := now.areas, now.slots;
    }

    /**
     cdp_log without interruption: mark the chunks, reserve, copy the payload, publish. Another CPU may
     run any method between these calls; each of them only asks that the record still be this bio's.
     */
    method Log(dirty: DirtyBitmap.Bitmap, req: Request, ts: nat) returns (pb: PerBio)
      requires Valid() && RequestOk(req) && dirty.Valid() && dirty.words as object != ring
      requires seqNext < 0x1_0000_0000_0000_0000 && ts < 0x1_0000_0000_0000_0000
      modifies this`head, this`seqNext, this`overflows, this`gapPending, this`overflowed
      modifies this`areas, this`slots, this`subs, ring, dirty.words
      ensures Valid() && dirty.Valid()
      ensures forall b: nat :: DirtyBitmap.WordBit(dirty.words[..], b) <==>
                               DirtyBitmap.WordBit(old(dirty.words[..]), b)
                               || DirtyBitmap.Marked(req.sector, req.len, dirty.chunkSectors, dirty.nbits, b)
      ensures tail <= old(head) <= tail + ring.Length
      ensures pb.logged <==> Admits(ring.Length, old(head), tail, Need(req))
      ensures pb.logged <==> Need(req) <= ring.Length / 4 && HasPlace(ring.Length, old(head), tail, Need(req))
      ensures subs == old(subs) + [Submission(req, pb.logged)]
      ensures !pb.logged ==> slots == old(slots) && gapPending
      ensures pb.logged ==>
                var k := |old(slots)|;
                && |slots| == |areas| == k + 1 && slots[..k] == old(slots) && areas[k].off == pb.recOff
                && slots[k].frame.hdr.state == ST_DATA && !slots[k].error
                && slots[k].entry == Entry(req, old(gapPending))
                && |req.payload| <= |slots[k].frame.body| && slots[k].frame.body[..|req.payload|] == req.payload
    {
      hide Consistent, SlotOk, EncodeHeader, LogOf, RequestOk, DirtyBitmap.Marked, DirtyBitmap.WordBit;
      hide Logged, Admits, HasPlace, WithPayload, WithState, Head, Tail, Dropped;
      dirty.Mark(req.sector, req.len);
      ghost var was := State();
      Sizes(was);
      var off := Reserve(req, ts);
      if off.None? {
        return PerBio(0, false);
      }
      LoggedAdds(was, req, ts);
      Fill(off.value, req.payload, |was.slots|);
      pb := PerBio(off.value, true);
    }

    /** The rest of cdp_log after a successful reservation. */
    method Fill(off: nat, payload: seq<Byte>, ghost k: nat)
      requires Valid() && k < |slots| && |areas| == |slots| && areas[k].off == off
      requires slots[k].frame.hdr.state == ST_RESERVED && payload == slots[k].entry.req.payload
      modifies this`areas, this`slots, ring
      ensures Valid() && |areas| == |slots| == |old(slots)| && k < |slots| && areas[k].off == off
      ensures slots == old(slots)[k := slots[k]] && slots[k].entry == old(slots[k].entry)
      ensures slots[k].frame.hdr.state == ST_DATA && slots[k].error == old(slots[k].error)
      ensures |payload| <= |slots[k].frame.body| && slots[k].frame.body[..|payload|] == payload
    {
      hide Consistent, SlotOk, EncodeHeader, LogOf, Head, Tail, Dropped, GapPending, Splice;
      CopyBioData(off, payload, k);
      Sizes(State());
      PublishData(off, k);
      Sizes(State());
    }

    /** rec->flags |= DM_CDP_F_ERROR at the saved offset. */
    method StoreErrorFlag(off: nat, ghost k: nat)
      requires Valid() && k < |slots| && k < |areas| && areas[k].off == off
      requires slots[k].frame.hdr.state == ST_DATA && !slots[k].error
      modifies this`areas, this`slots, ring
      ensures Valid()
      ensures k < |old(slots)| && slots == old(slots)[k := WithError(old(slots)[k])] && areas[k].off == off
    {
      hide Consistent, SlotOk, Splice, EncodeHeader, DecodeHeader, LogOf, LE, SetBit, Span, FrameBytes;
      ghost var was := State();
      Live(was, k);
      LiveHeader(was, k);
      var p := off % ring.Length;
      assert ring[p..p + REC_SIZE] == was.mem[p..p + REC_SIZE];
      var flags := SetBit(DecodeHeader(ring[p..p + REC_SIZE]).flags, F_ERROR_BIT);
      StoreErrorWord(off, flags, k);
    }

    method StoreErrorWord(off: nat, flags: nat, ghost k: nat)
      requires Valid() && done <= k < |slots| && k < |areas| && areas[k].off == off
      requires slots[k].frame.hdr.state == ST_DATA && !slots[k].error
      requires flags == SetBit(slots[k].frame.hdr.flags, F_ERROR_BIT)
      modifies this`areas, this`slots, ring
      ensures Valid()
      ensures k < |old(slots)| && slots == old(slots)[k := WithError(old(slots)[k])] && areas[k].off == off
    {
      hide Consistent, SlotOk, Splice, EncodeHeader, LogOf, LE, SetBit, FrameBytes;
      ghost var was := State();
      Sizes(was);
      ErrorStep(was, k);
      StoringKeepsConsistent(was, k, 8, LE(flags, 4), WithError(slots[k]));
      Store(off % ring.Length + 8, LE(flags, 4));
      ghost var now := Stored(was, k, 8, LE(flags, 4), WithError(slots[k]));
      areas, slots := now.areas, now.slots;
    }

    /**
     cdp_end_io: completion of a bio, in any order. Nothing happens to a bio that was
     dropped or never logged; otherwise its own record becomes COMMITTED.
     */
    method EndIo(pb: PerBio, error: bool, ghost k: nat)
      requires Valid()
      requires pb.logged ==> k < |slots| && k < |areas| && areas[k].off == pb.recOff
      requires pb.logged ==> slots[k].frame.hdr.state == ST_DATA && !slots[k].error
      modifies this`areas, this`slots, this`records, this`bytesLogged, ring
      ensures Valid()
      ensures !pb.logged ==> State() == old(State()) && records == old(records)
      ensures pb.logged ==> k < |old(slots)| && areas[k].off == pb.recOff && records == old(records) + 1
      ensures pb.logged ==>
                slots == old(slots)[k := WithState(if error then WithError(old(slots)[k]) else old(slots)[k], ST_COMMITTED)]
      ensures pb.logged ==>
                bytesLogged == old(bytesLogged)
                               + if old(slots)[k].entry.req.rtype == REC_WRITE then |old(slots)[k].entry.req.payload| else 0
    {
      hide Consistent, EncodeHeader, DecodeHeader, LogOf, FlagsOf, FrameBytes, Span, HeaderFits;
      if !pb.logged {
        return;
      }
      Live(State(), k);
      if error {
        StoreErrorFlag(pb.recOff, k);
      }
      records := records + 1;
      Live(State(), k);
      LiveHeader(State(), k);
      var p := pb.recOff % ring.Length;
      var rec := DecodeHeader(ring[p..p + REC_SIZE]);
      if rec.rtype == REC_WRITE {
        bytesLogged := bytesLogged + rec.len;
      }
      StoreStateWord(pb.recOff, ST_COMMITTED, k);
    }

    /** cdp_next from pos. */
    method Next(pos: nat) returns (found: Found)
      requires ring.Length > 0 && NextAt(ring[..], pos, head) != Spins
      ensures found == NextAt(ring[..], pos, head)
    {
      hide DecodeHeader;
      var p := pos;
      while true
        invariant NextAt(ring[..], p, head) == NextAt(ring[..], pos, head)
        decreases head - p
      {
        if p >= head {
          return CaughtUp(p);
        }
        var ppos := p % ring.Length;
        if ring.Length - ppos < REC_SIZE {
          p := p + (ring.Length - ppos);
          continue;
        }
        assert ring[ppos..ppos + REC_SIZE] == ring[..][ppos..ppos + REC_SIZE];
        var rec := DecodeHeader(ring[ppos..ppos + REC_SIZE]);
        if rec.rtype == REC_PAD {
          p := p + rec.recLen;
          continue;
        }
        return Record(p, rec);
      }
    }

    /** cdp_readable: a read would deliver something. */
    method Readable() returns (ready: bool)
      requires Valid()
      ensures ready <==> done < |slots| && slots[done].frame.hdr.state == ST_COMMITTED
    {
      hide Consistent, NextAt, LogOf;
      Sizes(State());
      NextFromTail(State());
      var found := Next(tail);
      ready := found.Record? && found.hdr.state == ST_COMMITTED;
    }

    /**
     cdp_read on a descriptor opened O_NONBLOCK: whole records, in order, as many as are
     committed and fit. It stops only at an uncommitted record, at the end, or at a
     record that does not fit any more.
     */
    method Read(count: nat) returns (out: seq<Byte>, result: ReadResult)
      requires Valid()
      modifies this`tail, this`done
      ensures Valid()
      ensures old(done) <= done <= |slots|
      ensures out == Concat(FramesOf(slots)[old(done)..done]) && |out| <= count
      ensures forall k | old(done) <= k < done :: slots[k].frame.hdr.state == ST_COMMITTED
      ensures done < |slots| && slots[done].frame.hdr.state == ST_COMMITTED ==>
                |out| + slots[done].frame.hdr.recLen > count
      ensures done == |slots| ==> tail == head
      ensures result == if done > old(done) then Copied
                        else if done < |slots| && slots[done].frame.hdr.state == ST_COMMITTED then MessageTooBig
                        else if dead then EndOfFile else Again
    {
      hide Consistent, NextAt, LogOf, DecodeHeader, EncodeHeader, FlagsOf, Span, HeaderFits, Concat;
      out := [];
      Sizes(State());
      ConcatNothing();
      assert FramesOf(slots)[done..done] == [];
      while true
        invariant Valid() && |areas| == |slots| && ring.Length > 0
        invariant old(done) <= done <= |slots|
        invariant out == Concat(FramesOf(slots)[old(done)..done]) && |out| <= count
        invariant forall k | old(done) <= k < done :: slots[k].frame.hdr.state == ST_COMMITTED
        invariant out == [] <==> done == old(done)
        decreases |slots| - done
      {
        NextFromTail(State());
        var found := Next(tail);
        if !(found.Record? && found.hdr.state == ST_COMMITTED) {
          result := if out != [] then Copied else if dead then EndOfFile else Again;
          return;
        }
        if found.hdr.recLen > count - |out| {
          result := if out != [] then Copied else MessageTooBig;
          return;
        }
        LiveRecord(State(), done);
        FrameAt(ring[..], found.pos, slots[done].frame);
        DeliveringKeepsConsistent(State());
        var p := found.pos % ring.Length;
        out := out + ring[p..p + found.hdr.recLen];
        ConcatNext(FramesOf(slots), old(done), done);
        tail := found.pos + found.hdr.recLen;
        done := done + 1;
      }
    }
  }

  /** struct cdp_pb: what a bio remembers between submission and completion. */
  datatype PerBio = PerBio(recOff: nat, logged: bool)

  lemma ConcatNothing()
    ensures Concat([]) == []
  {
  }

  lemma ConcatNext(frames: seq<Frame>, i: nat, j: nat)
    requires i <= j < |frames|
    ensures Concat(frames[i..j + 1]) == Concat(frames[i..j]) + FrameBytes(frames[j])
  {
    hide FrameBytes;
    assert frames[i..j + 1] == frames[i..j] + [frames[j]];
    ConcatAppend(frames[i..j], [frames[j]]);
    assert Concat([frames[j]]) == FrameBytes(frames[j]) + Concat([]);
  }

  /** A record that is not COMMITTED has not been delivered. */
  lemma Live(r: RingState, k: nat)
    requires Consistent(r) && k < |r.slots| && r.slots[k].frame.hdr.state != ST_COMMITTED
    ensures r.done <= k && |r.areas| == |r.slots| && |r.mem| > 0
  {
    hide SlotOk, Matches, Laid, LogOf;
  }

  lemma LiveHeader(r: RingState, k: nat)
    requires Consistent(r) && r.done <= k < |r.slots| && k < |r.areas|
    ensures |r.mem| > 0 && r.areas[k].off % |r.mem| + REC_SIZE <= |r.mem|
    ensures DecodeHeader(r.mem[r.areas[k].off % |r.mem|..r.areas[k].off % |r.mem| + REC_SIZE]) == r.slots[k].frame.hdr
    ensures SlotOk(r.slots[k], k)
  {
    hide Consistent, DecodeHeader, EncodeHeader, Span;
    LiveRecord(r, k);
    Parts(r, k);
    FrameAt(r.mem, r.areas[k].off, r.slots[k].frame);
  }

  lemma Sizes(r: RingState)
    requires Consistent(r)
    ensures |r.areas| == |r.slots| && r.done <= |r.slots| && 0 < |r.mem| < 0x4_0000_0000
  {
    hide SlotOk, Matches, Laid, LogOf;
  }

  /** The fields of a fresh header that no later step changes. */
  predicate Stamped(h: Header, req: Request, seqno: nat, ts: nat) {
    (h.magic, h.version, h.rtype, h.seqno, h.sector, h.len, h.ts, h.reserved)
    == (REC_MAGIC, ABI_VERSION, req.rtype, seqno, req.sector, req.len, ts, 0)
  }

  /** What a successful reservation adds to the log. */
  lemma LoggedAdds(r: RingState, req: Request, ts: nat)
    requires |r.mem| > 0 && Need(req) <= |r.mem| && |r.areas| == |r.slots|
    ensures var l, k := Logged(r, req, ts), |r.slots|;
            && |l.areas| == |l.slots| == k + 1 && l.slots[..k] == r.slots
            && l.areas[k].off == LogArea(r, req, ts).off
            && l.slots[k].entry == Entry(req, GapPending(r.subs)) && !l.slots[k].error
            && l.slots[k].frame.hdr.state == ST_RESERVED && Stamped(l.slots[k].frame.hdr, req, k, ts)
            && l.subs == r.subs + [Submission(req, true)]
  {
    hide EncodeHeader, LogArea, AfterReserve;
  }

  lemma SpliceNothing(s: seq<Byte>, pos: nat)
    requires pos <= |s|
    ensures Splice(s, pos, []) == s
  {
  }

  lemma LoggingStep(r: RingState, req: Request, ts: nat)
    requires Consistent(r) && RequestOk(req) && |r.mem| > 0 && Need(req) <= |r.mem|
    requires |r.slots| < 0x1_0000_0000_0000_0000 && ts < 0x1_0000_0000_0000_0000
    requires Tail(r) <= Head(r) <= Tail(r) + |r.mem|
    ensures Admits(|r.mem|, Head(r), Tail(r), Need(req)) ==> Consistent(Logged(r, req, ts))
    ensures Admits(|r.mem|, Head(r), Tail(r), Need(req)) ==>
              Head(Logged(r, req, ts)) == Place(|r.mem|, Head(r), Need(req)) + Need(req)
    ensures Tail(Logged(r, req, ts)) == Tail(r)
    ensures Dropped(r.subs + [Submission(req, true)]) == Dropped(r.subs)
    ensures !GapPending(r.subs + [Submission(req, true)])
  {
    hide Consistent, LogOf;
    Sizes(r);
    AppendKeepsEnds(r.areas, LogArea(r, req, ts), r.done);
    LogAppend(r.subs, Submission(req, true));
    if Admits(|r.mem|, Head(r), Tail(r), Need(req)) {
      LoggingKeepsConsistent(r, req, ts);
    }
  }
}
