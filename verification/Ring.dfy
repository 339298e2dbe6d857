/**
 The record ring of the dm-cdp target: reservation, payload copy, out-of-order
 completion and in-order delivery over one byte ring.
 */
module Ring {
  import opened Records
  import opened Bits
  import opened RingLayout

  /* ------------------------------------------------------------------ */
  /* the records ever reserved                                          */

  /** What a bio asks the ring to log. */
  datatype Request = Request(rtype: nat, flags: nat, sector: nat, len: nat, payload: seq<Byte>)

  ghost predicate RequestOk(r: Request) {
    && r.rtype in {REC_WRITE, REC_FLUSH, REC_DISCARD, REC_ZERO}
    && r.flags < 4
    && r.sector < 0x1_0000_0000_0000_0000
    && r.len < 0x1_0000_0000
    && |r.payload| == (if r.rtype == REC_WRITE then r.len else 0)
  }

  function Need(r: Request): nat {
    Align8(REC_SIZE + |r.payload|)
  }

  /** One call of cdp_reserve: logged, or dropped because the ring had no room. */
  datatype Submission = Submission(req: Request, logged: bool)

  datatype Entry = Entry(req: Request, gap: bool)

  /** The latest reservation attempt failed, so the next record follows a gap. */
  predicate GapPending(subs: seq<Submission>) {
    subs != [] && !subs[|subs| - 1].logged
  }

  /** The unbounded FIFO the ring stands for: the logged requests, each with its gap mark. */
  function LogOf(subs: seq<Submission>): seq<Entry> {
    if subs == [] then []
    else
      var n := |subs| - 1;
      if subs[n].logged then LogOf(subs[..n]) + [Entry(subs[n].req, GapPending(subs[..n]))] else LogOf(subs[..n])
  }

  function Dropped(subs: seq<Submission>): nat {
    if subs == [] then 0 else Dropped(subs[..|subs| - 1]) + if subs[|subs| - 1].logged then 0 else 1
  }

  lemma LogAppend(subs: seq<Submission>, s: Submission)
    ensures LogOf(subs + [s]) == if s.logged then LogOf(subs) + [Entry(s.req, GapPending(subs))] else LogOf(subs)
    ensures Dropped(subs + [s]) == Dropped(subs) + if s.logged then 0 else 1
    ensures GapPending(subs + [s]) == !s.logged
  {
    assert (subs + [s])[..|subs|] == subs;
  }

  const F_ERROR_BIT := 2
  const F_GAP_BIT := 3

  /** The flags word of a record: the bio's own flags, a gap mark, an error mark. */
  function FlagsOf(flags: nat, gap: bool, error: bool): nat {
    var f := if gap then SetBit(flags, F_GAP_BIT) else flags;
    if error then SetBit(f, F_ERROR_BIT) else f
  }

  /** The bio's own FUA and PREFLUSH bits, the error bit and the gap bit, and nothing else. */
  lemma FlagsFit(flags: nat, gap: bool, error: bool)
    requires flags < 4
    ensures FlagsOf(flags, gap, error) < 16
    ensures forall i | 0 <= i < 2 :: Bit(FlagsOf(flags, gap, error), i) <==> Bit(flags, i)
    ensures Bit(FlagsOf(flags, gap, error), F_GAP_BIT) <==> gap
    ensures Bit(FlagsOf(flags, gap, error), F_ERROR_BIT) <==> error
  {
    assert Shl1(2) == 2 * Shl1(1) == 4;
    assert Shl1(4) == 2 * Shl1(3) == 2 * (2 * Shl1(2)) == 16;
    var f := if gap then SetBit(flags, F_GAP_BIT) else flags;
    SetBitFits(flags, F_GAP_BIT, 4);
    SetBitFits(f, F_ERROR_BIT, 4);
    SmallHasNoHighBits(flags);
    forall i | 0 <= i < 4
      ensures Bit(FlagsOf(flags, gap, error), i) <==>
              (i == F_ERROR_BIT && error) || (i == F_GAP_BIT && gap) || Bit(flags, i)
    {
      SetBitSets(flags, F_GAP_BIT, i);
      SetBitSets(f, F_ERROR_BIT, i);
    }
  }

  lemma SmallHasNoHighBits(flags: nat)
    requires flags < 4
    ensures !Bit(flags, F_ERROR_BIT) && !Bit(flags, F_GAP_BIT)
  {
    assert Shr(flags, 2) == Shr(flags / 2, 1) == Shr(flags / 2 / 2, 0) == 0;
    assert Shr(flags, 3) == Shr(flags / 2, 2) == Shr(flags / 2 / 2, 1) == Shr(0, 0);
  }

  /** A reserved record: what it was asked to log, whether the device failed it, what it now holds. */
  datatype Slot = Slot(entry: Entry, error: bool, frame: Frame)

  /** Record k holds what was asked for, as far as its state promises. */
  ghost predicate SlotOk(s: Slot, k: nat) {
    var h, r := s.frame.hdr, s.entry.req;
    && RequestOk(r)
    && WellFormed(s.frame)
    && h.version == ABI_VERSION
    && h.rtype == r.rtype
    && h.flags == FlagsOf(r.flags, s.entry.gap, s.error)
    && h.state in {ST_RESERVED, ST_DATA, ST_COMMITTED}
    && (s.error ==> h.state != ST_RESERVED)
    && h.seqno == k
    && h.sector == r.sector
    && h.len == r.len
    && h.recLen == Need(r)
    && (h.state != ST_RESERVED ==> s.frame.body[..|r.payload|] == r.payload)
  }

  function FramesOf(slots: seq<Slot>): (f: seq<Frame>)
    ensures |f| == |slots|
  {
    seq(|slots|, k requires 0 <= k < |slots| => slots[k].frame)
  }

  function PadHeader(pad: nat): Header {
    Header(REC_MAGIC, ABI_VERSION, REC_PAD, 0, ST_COMMITTED, 0, 0, 0, pad, 0, 0)
  }

  /** What a reservation stores in the bytes it skips: a PAD header if it fits, else nothing. */
  function Filler(pad: nat): (f: seq<Byte>)
    ensures |f| <= pad
  {
    if pad >= REC_SIZE then EncodeHeader(PadHeader(pad)) else []
  }

  /** The ring as a value, with the history of reservations. */
  datatype RingState = RingState(mem: seq<Byte>, areas: seq<Area>, slots: seq<Slot>, done: nat, subs: seq<Submission>)

  ghost predicate Matches(a: Area, end: nat, s: Slot) {
    a.bytes == FrameBytes(s.frame) && a.off >= end && a.filler == Filler(a.off - end)
  }

  ghost predicate AllMatch(areas: seq<Area>, slots: seq<Slot>) {
    |areas| == |slots| && forall k | 0 <= k < |slots| :: Matches(areas[k], EndOf(areas, k), slots[k])
  }

  ghost predicate AllOk(slots: seq<Slot>) {
    forall k | 0 <= k < |slots| :: SlotOk(slots[k], k)
  }

  ghost predicate AllLogged(slots: seq<Slot>, log: seq<Entry>) {
    |slots| == |log| && forall k | 0 <= k < |slots| :: slots[k].entry == log[k]
  }

  ghost predicate AllCommitted(slots: seq<Slot>, done: nat) {
    done <= |slots| && forall k | 0 <= k < done :: slots[k].frame.hdr.state == ST_COMMITTED
  }

  ghost predicate AllFit(areas: seq<Area>, limit: nat) {
    forall k | 0 <= k < |areas| :: |areas[k].bytes| <= limit
  }

  /** Every reachable ring: its bytes are exactly the undelivered records, and those are the log. */
  ghost predicate Consistent(r: RingState) {
    && Laid(r.mem, r.areas, r.done)
    && 0 < |r.mem| < 0x4_0000_0000
    && r.done <= |r.areas|
    && AllMatch(r.areas, r.slots)
    && AllOk(r.slots)
    && AllLogged(r.slots, LogOf(r.subs))
    && AllCommitted(r.slots, r.done)
    && AllFit(r.areas, |r.mem| / 4)
  }

  function Head(r: RingState): nat {
    EndOf(r.areas, |r.areas|)
  }

  function Tail(r: RingState): nat
    requires r.done <= |r.areas|
  {
    EndOf(r.areas, r.done)
  }

  /* ------------------------------------------------------------------ */
  /* walking                                                            */

  /** Result of cdp_next. Spins: a PAD of length zero would be visited forever. */
  datatype Found = Record(pos: nat, hdr: Header) | CaughtUp(at: nat) | Spins

  /** cdp_next: the next record at or after pos, skipping PAD records and end-of-ring slack. */
  function NextAt(mem: seq<Byte>, pos: nat, head: nat): (f: Found)
    requires |mem| > 0
    ensures f.Record? ==> pos <= f.pos < head
    decreases head - pos
  {
    if pos >= head then CaughtUp(pos)
    else
      var ppos := pos % |mem|;
      if |mem| - ppos < REC_SIZE then NextAt(mem, pos + (|mem| - ppos), head)
      else
        var h := DecodeHeader(mem[ppos..ppos + REC_SIZE]);
        if h.rtype == REC_PAD then
          if h.recLen == 0 then Spins else NextAt(mem, pos + h.recLen, head)
        else Record(pos, h)
  }

  /** The records decoded by calling cdp_next from pos until it reaches head. */
  function Walk(mem: seq<Byte>, pos: nat, head: nat): seq<Frame>
    requires |mem| > 0
    decreases head - pos
  {
    var f := NextAt(mem, pos, head);
    if f.Record? && f.hdr.recLen >= REC_SIZE then
      [Frame(f.hdr, Span(mem, f.pos + REC_SIZE, f.hdr.recLen - REC_SIZE))] + Walk(mem, f.pos + f.hdr.recLen, head)
    else []
  }

  lemma HeaderAt(mem: seq<Byte>, off: nat, h: Header)
    requires |mem| > 0 && off % |mem| + REC_SIZE <= |mem| && HeaderFits(h)
    requires Span(mem, off, REC_SIZE) == EncodeHeader(h)
    ensures DecodeHeader(mem[off % |mem|..off % |mem| + REC_SIZE]) == h
  {
    SpanIsSlice(mem, off, REC_SIZE);
    HeaderRoundTrip(h, []);
    assert EncodeHeader(h) + [] == EncodeHeader(h);
  }

  lemma HeaderFitsIf(h: Header)
    requires h.magic < 0x1_0000_0000 && h.version < 0x1_0000 && h.rtype < 0x1_0000
    requires h.flags < 0x1_0000_0000 && h.state < 0x1_0000_0000
    requires h.seqno < 0x1_0000_0000_0000_0000 && h.sector < 0x1_0000_0000_0000_0000
    requires h.len < 0x1_0000_0000 && h.recLen < 0x1_0000_0000
    requires h.ts < 0x1_0000_0000_0000_0000 && h.reserved < 0x1_0000_0000_0000_0000
    ensures HeaderFits(h)
  {
    Widths();
    forall k | 0 <= k < |REC_FMT|
      ensures Fields(h)[k] < Pow256(REC_FMT[k])
    {
      assert k in {0, 1, 2, 3, 4, 5, 6, 7, 8, 9, 10};
    }
  }

  lemma Widths()
    ensures Pow256(2) == 0x1_0000 && Pow256(4) == 0x1_0000_0000 && Pow256(8) == 0x1_0000_0000_0000_0000
  {
    assert Pow256(2) == 256 * (256 * Pow256(0));
    assert Pow256(4) == 256 * (256 * Pow256(2));
    assert Pow256(6) == 256 * (256 * Pow256(4));
    assert Pow256(8) == 256 * (256 * Pow256(6));
  }

  lemma FrontOfFrame(f: Frame)
    ensures FrameBytes(f)[..REC_SIZE] == EncodeHeader(f.hdr)
    ensures FrameBytes(f)[REC_SIZE..] == f.body
  {
  }

  /** What a consistent ring says about reservation k. */
  lemma Parts(r: RingState, k: nat)
    requires Consistent(r) && k < |r.slots|
    ensures 0 < |r.mem| < 0x4_0000_0000 && Chained(|r.mem|, r.areas) && r.done <= |r.areas| == |r.slots|
    ensures AreaOk(|r.mem|, r.areas, k) && |r.areas[k].bytes| <= |r.mem| / 4
    ensures Matches(r.areas[k], EndOf(r.areas, k), r.slots[k]) && SlotOk(r.slots[k], k)
    ensures r.done <= k ==> InPlace(r.mem, r.areas, k)
  {
    hide AreaOk, Matches, SlotOk, InPlace, LogOf;
  }

  /** Facts about one live record that every reader of the ring relies on. */
  lemma LiveRecord(r: RingState, k: nat)
    requires Consistent(r) && r.done <= k < |r.slots|
    ensures |r.mem| > 0 && r.done <= |r.areas| == |r.slots|
    ensures var a, f := r.areas[k], r.slots[k].frame;
            && |a.bytes| == f.hdr.recLen == REC_SIZE + |f.body|
            && WellFormed(f) && f.hdr.rtype != REC_PAD
            && a.off % |r.mem| + f.hdr.recLen <= |r.mem|
            && Span(r.mem, a.off, f.hdr.recLen) == FrameBytes(f)
            && Tail(r) <= EndOf(r.areas, k) <= a.off < EndOf(r.areas, k + 1) <= Head(r)
  {
    hide Consistent, EncodeHeader, HeaderFits, FlagsOf, Need, Pad, Span;
    Parts(r, k);
    PlaceFits(|r.mem|, EndOf(r.areas, k), |r.areas[k].bytes|);
    EndsGrow(|r.mem|, r.areas, r.done, k);
    EndsGrow(|r.mem|, r.areas, k + 1, |r.areas|);
  }

  /** A frame lying at off is read back from there, header and body. */
  lemma FrameAt(mem: seq<Byte>, off: nat, f: Frame)
    requires |mem| > 0 && WellFormed(f) && off % |mem| + f.hdr.recLen <= |mem|
    requires Span(mem, off, f.hdr.recLen) == FrameBytes(f)
    ensures Span(mem, off, REC_SIZE) == EncodeHeader(f.hdr)
    ensures DecodeHeader(mem[off % |mem|..off % |mem| + REC_SIZE]) == f.hdr
    ensures Span(mem, off + REC_SIZE, f.hdr.recLen - REC_SIZE) == f.body
    ensures mem[off % |mem|..off % |mem| + f.hdr.recLen] == FrameBytes(f)
  {
    hide EncodeHeader, DecodeHeader;
    FrontOfFrame(f);
    assert Span(mem, off, REC_SIZE) == Span(mem, off, f.hdr.recLen)[..REC_SIZE];
    SpanSplit(mem, off, REC_SIZE, f.hdr.recLen);
    HeaderAt(mem, off, f.hdr);
    SpanIsSlice(mem, off, f.hdr.recLen);
  }

  /**
   The offset saved for a bio keeps addressing that bio's own header until it completes,
   and no other record has that offset.
   */
  lemma SavedOffsetFindsOwnHeader(r: RingState, k: nat)
    requires Consistent(r) && k < |r.slots| && r.slots[k].frame.hdr.state != ST_COMMITTED
    ensures DecodeHeader(Span(r.mem, r.areas[k].off, REC_SIZE)) == r.slots[k].frame.hdr
    ensures r.slots[k].frame.hdr.seqno == k
    ensures forall j | 0 <= j < |r.slots| && r.areas[j].off == r.areas[k].off :: j == k
  {
    hide EncodeHeader, DecodeHeader, FlagsOf, Need, Span, Matches, RequestOk, EndOf, Laid;
    Parts(r, k);
    LiveRecord(r, k);
    FrameAt(r.mem, r.areas[k].off, r.slots[k].frame);
    SpanIsSlice(r.mem, r.areas[k].off, REC_SIZE);
    OffsetsDistinct(r, k);
  }

  lemma OffsetsDistinct(r: RingState, k: nat)
    requires Consistent(r) && k < |r.areas|
    ensures forall j | 0 <= j < |r.areas| && r.areas[j].off == r.areas[k].off :: j == k
  {
    hide SlotOk, Matches, InPlace, LogOf, AreaOk, EndOf;
    forall j | 0 <= j < |r.areas| && j != k
      ensures r.areas[j].off != r.areas[k].off
    {
      if j < k {
        AreasDisjoint(|r.mem|, r.areas, j, k);
      } else {
        AreasDisjoint(|r.mem|, r.areas, k, j);
      }
    }
  }

  lemma NextHere(mem: seq<Byte>, pos: nat, head: nat, h: Header)
    requires |mem| > 0 && pos < head && pos % |mem| + REC_SIZE <= |mem|
    requires DecodeHeader(mem[pos % |mem|..pos % |mem| + REC_SIZE]) == h && h.rtype != REC_PAD
    ensures NextAt(mem, pos, head) == Record(pos, h)
  {
    hide DecodeHeader;
  }

  lemma NextOverPad(mem: seq<Byte>, pos: nat, head: nat, pad: nat)
    requires |mem| > 0 && pos < head && pos % |mem| + REC_SIZE <= |mem| && 0 < pad < 0x1_0000_0000
    requires Span(mem, pos, REC_SIZE) == EncodeHeader(PadHeader(pad))
    ensures NextAt(mem, pos, head) == NextAt(mem, pos + pad, head)
  {
    hide EncodeHeader, DecodeHeader;
    HeaderFitsIf(PadHeader(pad));
    HeaderAt(mem, pos, PadHeader(pad));
  }

  lemma NextOverSlack(mem: seq<Byte>, pos: nat, head: nat)
    requires |mem| > 0 && pos < head && |mem| - pos % |mem| < REC_SIZE
    ensures NextAt(mem, pos, head) == NextAt(mem, pos + (|mem| - pos % |mem|), head)
  {
  }

  /** The bytes skipped before a live record: nothing, slack too short for a header, or a PAD record. */
  lemma FillerAt(r: RingState, k: nat)
    requires Consistent(r) && r.done <= k < |r.slots|
    ensures |r.mem| > 0 && k < |r.areas|
    ensures var n, e, off := |r.mem|, EndOf(r.areas, k), r.areas[k].off;
            && e <= off && (off == e || off - e == n - e % n < 0x1_0000_0000)
            && (off - e >= REC_SIZE ==> Span(r.mem, e, REC_SIZE) == EncodeHeader(PadHeader(off - e)))
  {
    hide EncodeHeader, SlotOk, Span, Consistent;
    Parts(r, k);
    PlaceFits(|r.mem|, EndOf(r.areas, k), |r.areas[k].bytes|);
  }

  /** From the end of one record cdp_next finds the following record, across PAD and slack. */
  lemma NextFindsRecord(r: RingState, k: nat)
    requires Consistent(r) && r.done <= k < |r.slots|
    ensures NextAt(r.mem, EndOf(r.areas, k), Head(r)) == Record(r.areas[k].off, r.slots[k].frame.hdr)
  {
    hide EncodeHeader, DecodeHeader, NextAt, Span, Consistent, EndOf, WellFormed;
    LiveRecord(r, k);
    var n, e, off := |r.mem|, EndOf(r.areas, k), r.areas[k].off;
    FrameAt(r.mem, off, r.slots[k].frame);
    NextHere(r.mem, off, Head(r), r.slots[k].frame.hdr);
    FillerAt(r, k);
    if off - e >= REC_SIZE {
      NextOverPad(r.mem, e, Head(r), off - e);
    } else if off > e {
      NextOverSlack(r.mem, e, Head(r));
    }
  }

  lemma NextAtHead(mem: seq<Byte>, head: nat)
    requires |mem| > 0
    ensures NextAt(mem, head, head) == CaughtUp(head)
  {
  }

  /**
   The ring refines an unbounded FIFO: walking from tail to head decodes exactly the
   undelivered part of the log, in order, header and body intact.
   */
  lemma WalkDecodesLog(r: RingState)
    requires Consistent(r)
    ensures Walk(r.mem, Tail(r), Head(r)) == FramesOf(r.slots)[r.done..]
  {
    WalkFrom(r, r.done);
  }

  lemma {:induction false} WalkFrom(r: RingState, k: nat)
    requires Consistent(r) && r.done <= k <= |r.slots|
    ensures Walk(r.mem, EndOf(r.areas, k), Head(r)) == FramesOf(r.slots)[k..]
    decreases |r.slots| - k
  {
    hide Consistent, NextAt, Walk;
    ConsistentSizes(r);
    if k < |r.slots| {
      WalkFrom(r, k + 1);
      WalkOne(r, k);
      SliceOff(FramesOf(r.slots), k);
    } else {
      WalkNothing(r.mem, Head(r));
    }
  }

  lemma ConsistentSizes(r: RingState)
    requires Consistent(r)
    ensures 0 < |r.mem| && r.done <= |r.areas| == |r.slots|
  {
    hide SlotOk, Matches, Laid, LogOf;
  }

  lemma WalkNothing(mem: seq<Byte>, head: nat)
    requires |mem| > 0
    ensures Walk(mem, head, head) == []
  {
  }

  lemma SliceOff<T>(s: seq<T>, k: nat)
    requires k < |s|
    ensures s[k..] == [s[k]] + s[k + 1..]
  {
  }

  lemma WalkStep(mem: seq<Byte>, pos: nat, head: nat, off: nat, f: Frame)
    requires |mem| > 0 && f.hdr.recLen >= REC_SIZE && pos < head
    requires NextAt(mem, pos, head) == Record(off, f.hdr)
    requires Span(mem, off + REC_SIZE, f.hdr.recLen - REC_SIZE) == f.body
    ensures Walk(mem, pos, head) == [f] + Walk(mem, off + f.hdr.recLen, head)
  {
    hide NextAt, Span;
    assert Frame(f.hdr, Span(mem, off + REC_SIZE, f.hdr.recLen - REC_SIZE)) == f;
  }

  lemma WalkOne(r: RingState, k: nat)
    requires Consistent(r) && r.done <= k < |r.slots|
    ensures Walk(r.mem, EndOf(r.areas, k), Head(r))
            == [r.slots[k].frame] + Walk(r.mem, EndOf(r.areas, k + 1), Head(r))
  {
    hide EncodeHeader, DecodeHeader, NextAt, Span, Consistent, Walk, WellFormed;
    LiveRecord(r, k);
    NextFindsRecord(r, k);
    FrameAt(r.mem, r.areas[k].off, r.slots[k].frame);
    WalkStep(r.mem, EndOf(r.areas, k), Head(r), r.areas[k].off, r.slots[k].frame);
  }

  /* ------------------------------------------------------------------ */
  /* the delivery contract                                              */

  /** Position in subs of the k-th logged submission. */
  function PositionOf(subs: seq<Submission>, k: nat): (p: nat)
    requires k < |LogOf(subs)|
    ensures p < |subs|
  {
    var n := |subs| - 1;
    if subs[n].logged && k == |LogOf(subs)| - 1 then n else PositionOf(subs[..n], k)
  }

  lemma {:induction false} PositionIsLogged(subs: seq<Submission>, k: nat)
    requires k < |LogOf(subs)|
    ensures var p := PositionOf(subs, k);
            && subs[p].logged
            && LogOf(subs)[k] == Entry(subs[p].req, GapPending(subs[..p]))
            && |LogOf(subs[..p])| == k
  {
    var n := |subs| - 1;
    assert subs == subs[..n] + [subs[n]];
    LogAppend(subs[..n], subs[n]);
    if !(subs[n].logged && k == |LogOf(subs)| - 1) {
      PositionIsLogged(subs[..n], k);
      assert subs[..n][..PositionOf(subs, k)] == subs[..PositionOf(subs, k)];
    }
  }

  lemma {:induction false} NothingLoggedBetween(subs: seq<Submission>, p: nat, q: nat)
    requires p <= q <= |subs| && |LogOf(subs[..p])| == |LogOf(subs[..q])|
    ensures forall j | p <= j < q :: !subs[j].logged
    decreases q
  {
    if p < q {
      assert subs[..q][..q - 1] == subs[..q - 1];
      LogGrows(subs, p, q - 1);
      NothingLoggedBetween(subs, p, q - 1);
    }
  }

  lemma {:induction false} LogGrows(subs: seq<Submission>, p: nat, q: nat)
    requires p <= q <= |subs|
    ensures |LogOf(subs[..p])| <= |LogOf(subs[..q])|
    decreases q
  {
    if p < q {
      assert subs[..q][..q - 1] == subs[..q - 1];
      LogGrows(subs, p, q - 1);
    }
  }

  /** Position of the reservation before the k-th, or -1. */
  function Previous(subs: seq<Submission>, k: nat): int
    requires k < |LogOf(subs)|
  {
    if k == 0 then -1 else PositionOf(subs, k - 1)
  }

  /** A record carries a gap mark exactly when some bio was dropped since the previous reservation. */
  lemma GapMarksDrops(subs: seq<Submission>, k: nat)
    requires k < |LogOf(subs)|
    ensures Previous(subs, k) < PositionOf(subs, k)
    ensures forall j | Previous(subs, k) < j < PositionOf(subs, k) :: !subs[j].logged
    ensures LogOf(subs)[k].gap <==> exists j | Previous(subs, k) < j < PositionOf(subs, k) :: !subs[j].logged
  {
    hide PositionOf, LogOf;
    PositionIsLogged(subs, k);
    if k == 0 {
      assert subs[..0] == [];
      LogOfNothing();
      NothingLoggedBetween(subs, 0, PositionOf(subs, 0));
    } else {
      PositionIsLogged(subs, k - 1);
      PositionsGrow(subs, k);
      NothingLoggedBetween(subs, PositionOf(subs, k - 1) + 1, PositionOf(subs, k));
    }
    LastOfPrefix(subs, PositionOf(subs, k));
  }

  lemma LastOfPrefix(subs: seq<Submission>, q: nat)
    requires q <= |subs|
    ensures GapPending(subs[..q]) <==> q > 0 && !subs[q - 1].logged
  {
  }

  lemma PositionsGrow(subs: seq<Submission>, k: nat)
    requires 0 < k < |LogOf(subs)|
    ensures PositionOf(subs, k - 1) < PositionOf(subs, k)
    ensures |LogOf(subs[..PositionOf(subs, k - 1) + 1])| == k
  {
    hide PositionOf, LogOf;
    var p, q := PositionOf(subs, k - 1), PositionOf(subs, k);
    PositionIsLogged(subs, k - 1);
    PositionIsLogged(subs, k);
    assert subs[..p + 1] == subs[..p] + [subs[p]];
    LogAppend(subs[..p], subs[p]);
    if q <= p {
      LogGrows(subs, q, p);
    }
  }

  lemma LogOfNothing()
    ensures LogOf([]) == []
  {
  }

  /**
   What a reader has been given: records 0, 1, 2, ... without holes, all committed, each
   the k-th logged request with its own payload, padded to 8 bytes, its own flags, gap mark and error mark.
   */
  lemma DeliveryContract(r: RingState)
    requires Consistent(r)
    ensures r.done <= |LogOf(r.subs)|
    ensures forall k | 0 <= k < r.done ::
              var f, e := r.slots[k].frame, LogOf(r.subs)[k];
              && f.hdr.seqno == k
              && f.hdr.state == ST_COMMITTED
              && (f.hdr.rtype, f.hdr.sector, f.hdr.len) == (e.req.rtype, e.req.sector, e.req.len)
              && WellFormed(f)
              && Payload(f) == e.req.payload
              && f.hdr.version == ABI_VERSION
              && |Payload(f)| <= |f.body| < |Payload(f)| + 8
              && (forall i | 0 <= i < 2 :: Bit(f.hdr.flags, i) <==> Bit(e.req.flags, i))
              && (Bit(f.hdr.flags, F_GAP_BIT) <==> e.gap)
              && (Bit(f.hdr.flags, F_ERROR_BIT) <==> r.slots[k].error)
  {
    forall k | 0 <= k < r.done
      ensures var f, e := r.slots[k].frame, LogOf(r.subs)[k];
              && f.hdr.seqno == k
              && f.hdr.state == ST_COMMITTED
              && (f.hdr.rtype, f.hdr.sector, f.hdr.len) == (e.req.rtype, e.req.sector, e.req.len)
              && WellFormed(f)
              && Payload(f) == e.req.payload
              && f.hdr.version == ABI_VERSION
              && |Payload(f)| <= |f.body| < |Payload(f)| + 8
              && (forall i | 0 <= i < 2 :: Bit(f.hdr.flags, i) <==> Bit(e.req.flags, i))
              && (Bit(f.hdr.flags, F_GAP_BIT) <==> e.gap)
              && (Bit(f.hdr.flags, F_ERROR_BIT) <==> r.slots[k].error)
    {
      var s := r.slots[k];
      assert SlotOk(s, k);
      FlagsFit(s.entry.req.flags, s.entry.gap, s.error);
    }
  }

  /** Two undelivered records never share a ring byte, and both lie between tail and head. */
  lemma LiveRecordsDisjoint(r: RingState, j: nat, k: nat)
    requires Consistent(r) && r.done <= j < k < |r.slots|
    ensures Tail(r) <= r.areas[j].off < EndOf(r.areas, j + 1) <= r.areas[k].off < EndOf(r.areas, k + 1) <= Head(r)
    ensures Head(r) <= Tail(r) + |r.mem|
    ensures forall x, y | r.areas[j].off <= x < EndOf(r.areas, j + 1) && r.areas[k].off <= y < EndOf(r.areas, k + 1) ::
              x % |r.mem| != y % |r.mem|
  {
    hide SlotOk, Matches, InPlace, LogOf, AreaOk;
    AreasDisjoint(|r.mem|, r.areas, j, k);
    EndsGrow(|r.mem|, r.areas, r.done, j);
    forall x: nat, y: nat | r.areas[j].off <= x < EndOf(r.areas, j + 1) && r.areas[k].off <= y < EndOf(r.areas, k + 1)
      ensures x % |r.mem| != y % |r.mem|
    {
      ModDistinct(x, y, |r.mem|);
    }
  }

  /* ------------------------------------------------------------------ */
  /* the steps                                                          */

  function NewHeader(req: Request, gap: bool, seqno: nat, ts: nat): Header {
    Header(REC_MAGIC, ABI_VERSION, req.rtype, FlagsOf(req.flags, gap, false), ST_RESERVED, seqno, req.sector,
           req.len, Need(req), ts, 0)
  }

  function NewSlot(req: Request, gap: bool, seqno: nat, ts: nat, bytes: seq<Byte>): Slot
    requires |bytes| >= REC_SIZE
  {
    Slot(Entry(req, gap), false, Frame(NewHeader(req, gap, seqno, ts), bytes[REC_SIZE..]))
  }

  ghost predicate CanLog(r: RingState, req: Request) {
    Consistent(r) && RequestOk(req) && |r.slots| < 0x1_0000_0000_0000_0000
    && Tail(r) <= Head(r) <= Tail(r) + |r.mem|
    && Admits(|r.mem|, Head(r), Tail(r), Need(req))
  }

  function LogArea(r: RingState, req: Request, ts: nat): (a: Area)
    requires |r.mem| > 0
    ensures |a.bytes| == Need(req)
  {
    NewArea(r.mem, Head(r), Need(req), Filler(Pad(|r.mem|, Head(r), Need(req))),
            EncodeHeader(NewHeader(req, GapPending(r.subs), |r.slots|, ts)))
  }

  /** The ring after req has been reserved. */
  function Logged(r: RingState, req: Request, ts: nat): RingState
    requires |r.mem| > 0 && Need(req) <= |r.mem|
  {
    var a := LogArea(r, req, ts);
    RingState(
      AfterReserve(r.mem, Head(r), Need(req), a.filler, EncodeHeader(NewHeader(req, GapPending(r.subs), |r.slots|, ts))),
      r.areas + [a],
      r.slots + [NewSlot(req, GapPending(r.subs), |r.slots|, ts, a.bytes)],
      r.done,
      r.subs + [Submission(req, true)])
  }

  lemma TailBelowHead(r: RingState)
    requires Consistent(r)
    ensures Tail(r) <= Head(r) <= Tail(r) + |r.mem|
  {
    hide SlotOk, Matches, InPlace, LogOf, AreaOk;
    EndsGrow(|r.mem|, r.areas, r.done, |r.areas|);
  }

  lemma NewSlotOk(req: Request, gap: bool, seqno: nat, ts: nat, bytes: seq<Byte>)
    requires RequestOk(req) && seqno < 0x1_0000_0000_0000_0000 && ts < 0x1_0000_0000_0000_0000
    requires |bytes| == Need(req) < 0x1_0000_0000
    ensures SlotOk(NewSlot(req, gap, seqno, ts, bytes), seqno)
  {
    hide HeaderFits, FlagsOf;
    FlagsFit(req.flags, gap, false);
    HeaderFitsIf(NewHeader(req, gap, seqno, ts));
  }

  lemma AppendKeepsEnds(areas: seq<Area>, a: Area, k: nat)
    requires k <= |areas|
    ensures EndOf(areas + [a], k) == EndOf(areas, k)
  {
  }

  lemma AppendKeepsMatch(areas: seq<Area>, slots: seq<Slot>, limit: nat, a: Area, s: Slot)
    requires AllMatch(areas, slots) && AllFit(areas, limit)
    requires Matches(a, EndOf(areas, |areas|), s) && |a.bytes| <= limit
    ensures AllMatch(areas + [a], slots + [s]) && AllFit(areas + [a], limit)
  {
    hide Matches, EndOf;
    var areas', slots' := areas + [a], slots + [s];
    forall k | 0 <= k <= |slots|
      ensures Matches(areas'[k], EndOf(areas', k), slots'[k])
    {
      AppendKeepsEnds(areas, a, k);
    }
  }

  lemma AppendKeepsLog(slots: seq<Slot>, log: seq<Entry>, done: nat, s: Slot, e: Entry)
    requires AllOk(slots) && AllLogged(slots, log) && AllCommitted(slots, done)
    requires SlotOk(s, |slots|) && s.entry == e
    ensures AllOk(slots + [s]) && AllLogged(slots + [s], log + [e]) && AllCommitted(slots + [s], done)
  {
    hide SlotOk;
  }

  lemma UpdateKeepsEnds(areas: seq<Area>, k: nat, a: Area, j: nat)
    requires k < |areas| && j <= |areas| && a.off == areas[k].off && |a.bytes| == |areas[k].bytes|
    ensures EndOf(areas[k := a], j) == EndOf(areas, j)
  {
  }

  lemma UpdateKeepsMatch(areas: seq<Area>, slots: seq<Slot>, limit: nat, k: nat, a: Area, s: Slot)
    requires AllMatch(areas, slots) && AllFit(areas, limit) && k < |slots|
    requires a.off == areas[k].off && a.filler == areas[k].filler && |a.bytes| == |areas[k].bytes|
    requires a.bytes == FrameBytes(s.frame)
    ensures AllMatch(areas[k := a], slots[k := s]) && AllFit(areas[k := a], limit)
  {
    hide FrameBytes, Filler, EndOf;
    var areas', slots' := areas[k := a], slots[k := s];
    forall j | 0 <= j < |slots|
      ensures Matches(areas'[j], EndOf(areas', j), slots'[j])
    {
      UpdateKeepsEnds(areas, k, a, j);
      assert Matches(areas[j], EndOf(areas, j), slots[j]);
    }
  }

  lemma UpdateKeepsLog(slots: seq<Slot>, log: seq<Entry>, done: nat, k: nat, s: Slot)
    requires AllOk(slots) && AllLogged(slots, log) && AllCommitted(slots, done)
    requires done <= k < |slots| && SlotOk(s, k) && s.entry == slots[k].entry
    ensures AllOk(slots[k := s]) && AllLogged(slots[k := s], log) && AllCommitted(slots[k := s], done)
  {
    hide SlotOk;
  }

  lemma LoggingKeepsConsistent(r: RingState, req: Request, ts: nat)
    requires CanLog(r, req) && ts < 0x1_0000_0000_0000_0000
    ensures Consistent(Logged(r, req, ts))
    ensures Head(Logged(r, req, ts)) == Place(|r.mem|, Head(r), Need(req)) + Need(req)
  {
    hide EncodeHeader, SlotOk, LogOf, Span, AfterReserve, GapPending, Laid, NewSlot, Matches, RequestOk, Need;
    hide AllMatch, AllOk, AllLogged, AllCommitted, AllFit, FlagsOf;
    var a, gap := LogArea(r, req, ts), GapPending(r.subs);
    AllMatchSizes(r.areas, r.slots);
    ReserveLays(r.mem, r.areas, r.done, Need(req), a.filler, EncodeHeader(NewHeader(req, gap, |r.slots|, ts)));
    LogAppend(r.subs, Submission(req, true));
    NewSlotOk(req, gap, |r.slots|, ts, a.bytes);
    NewSlotMatches(r, req, ts);
    var slot := NewSlot(req, gap, |r.slots|, ts, a.bytes);
    AppendKeepsMatch(r.areas, r.slots, |r.mem| / 4, a, slot);
    AppendKeepsLog(r.slots, LogOf(r.subs), r.done, slot, Entry(req, gap));
  }

  lemma AllMatchSizes(areas: seq<Area>, slots: seq<Slot>)
    requires AllMatch(areas, slots)
    ensures |areas| == |slots|
  {
  }

  lemma NewSlotMatches(r: RingState, req: Request, ts: nat)
    requires |r.mem| > 0
    ensures Matches(LogArea(r, req, ts), Head(r),
                    NewSlot(req, GapPending(r.subs), |r.slots|, ts, LogArea(r, req, ts).bytes))
    ensures NewSlot(req, GapPending(r.subs), |r.slots|, ts, LogArea(r, req, ts).bytes).entry
            == Entry(req, GapPending(r.subs))
    ensures NewSlot(req, GapPending(r.subs), |r.slots|, ts, LogArea(r, req, ts).bytes).frame.hdr.state == ST_RESERVED
  {
    hide EncodeHeader, Span;
    var h := NewHeader(req, GapPending(r.subs), |r.slots|, ts);
    var a := LogArea(r, req, ts);
    assert a.bytes == EncodeHeader(h) + a.bytes[REC_SIZE..];
  }

  /** A dropped bio leaves the ring alone; it only marks the next record. */
  lemma DroppingKeepsConsistent(r: RingState, req: Request)
    requires Consistent(r)
    ensures Consistent(r.(subs := r.subs + [Submission(req, false)]))
  {
    hide EncodeHeader, SlotOk, InPlace, AreaOk, LogOf, Matches, Laid;
    LogAppend(r.subs, Submission(req, false));
  }

  /** Live record k becomes s' by a store of data at distance d from its start. */
  ghost predicate StoresInto(r: RingState, k: nat, d: nat, data: seq<Byte>, s': Slot) {
    && Consistent(r) && r.done <= k < |r.slots| && k < |r.areas|
    && s'.entry == r.slots[k].entry && SlotOk(s', k)
    && d + |data| <= |FrameBytes(r.slots[k].frame)|
    && FrameBytes(s'.frame) == Splice(FrameBytes(r.slots[k].frame), d, data)
  }

  function Stored(r: RingState, k: nat, d: nat, data: seq<Byte>, s': Slot): RingState
    requires |r.mem| > 0 && k < |r.areas| == |r.slots|
    requires r.areas[k].off % |r.mem| + d + |data| <= |r.mem| && d + |data| <= |r.areas[k].bytes|
  {
    RingState(
      Splice(r.mem, r.areas[k].off % |r.mem| + d, data),
      r.areas[k := r.areas[k].(bytes := Splice(r.areas[k].bytes, d, data))],
      r.slots[k := s'], r.done, r.subs)
  }

  lemma StoringKeepsConsistent(r: RingState, k: nat, d: nat, data: seq<Byte>, s': Slot)
    requires StoresInto(r, k, d, data, s')
    ensures |r.mem| > 0 && |r.areas| == |r.slots|
    ensures r.areas[k].off % |r.mem| + d + |data| <= |r.mem| && d + |data| <= |r.areas[k].bytes|
    ensures Consistent(Stored(r, k, d, data, s'))
    ensures Head(Stored(r, k, d, data, s')) == Head(r) && Tail(Stored(r, k, d, data, s')) == Tail(r)
  {
    hide EncodeHeader, SlotOk, LogOf, FrameBytes, Splice, Laid, Matches;
    hide AllOk, AllLogged, AllCommitted, AllFit;
    AllMatchSizes(r.areas, r.slots);
    Parts(r, k);
    AreaIsFrame(r, k);
    StoreInArea(r.mem, r.areas, r.done, k, d, data);
    var a := r.areas[k].(bytes := Splice(r.areas[k].bytes, d, data));
    UpdateKeepsMatch(r.areas, r.slots, |r.mem| / 4, k, a, s');
    UpdateKeepsLog(r.slots, LogOf(r.subs), r.done, k, s');
    UpdateKeepsEnds(r.areas, k, a, r.done);
    UpdateKeepsEnds(r.areas, k, a, |r.areas|);
  }

  lemma AreaIsFrame(r: RingState, k: nat)
    requires Consistent(r) && k < |r.slots| == |r.areas|
    ensures r.areas[k].bytes == FrameBytes(r.slots[k].frame)
  {
    hide FrameBytes, SlotOk, Laid, LogOf;
    assert Matches(r.areas[k], EndOf(r.areas, k), r.slots[k]);
  }

  /** Handing the next record to the reader. */
  lemma DeliveringKeepsConsistent(r: RingState)
    requires Consistent(r) && r.done < |r.slots| && r.slots[r.done].frame.hdr.state == ST_COMMITTED
    ensures Consistent(r.(done := r.done + 1))
    ensures Tail(r.(done := r.done + 1)) == r.areas[r.done].off + r.slots[r.done].frame.hdr.recLen
  {
    hide EncodeHeader, InPlace, LogOf, Span, FlagsOf, HeaderFits, RequestOk, AllMatch, AllOk, AllLogged, AllFit, AreaOk;
    AllMatchSizes(r.areas, r.slots);
    Parts(r, r.done);
    EndsGrow(|r.mem|, r.areas, r.done, r.done + 1);
  }

  /** memcpy of the payload into a record still RESERVED. */
  function WithPayload(s: Slot): Slot
    requires |s.entry.req.payload| <= |s.frame.body|
  {
    s.(frame := s.frame.(body := Splice(s.frame.body, 0, s.entry.req.payload)))
  }

  function WithState(s: Slot, state: nat): Slot {
    s.(frame := s.frame.(hdr := s.frame.hdr.(state := state)))
  }

  function WithError(s: Slot): Slot {
    s.(error := true, frame := s.frame.(hdr := s.frame.hdr.(flags := SetBit(s.frame.hdr.flags, F_ERROR_BIT))))
  }

  lemma PayloadStep(r: RingState, k: nat)
    requires Consistent(r) && r.done <= k < |r.slots| && r.slots[k].frame.hdr.state == ST_RESERVED
    ensures |r.slots[k].entry.req.payload| <= |r.slots[k].frame.body|
    ensures StoresInto(r, k, REC_SIZE, r.slots[k].entry.req.payload, WithPayload(r.slots[k]))
    ensures WithPayload(r.slots[k]).frame.body[..|r.slots[k].entry.req.payload|] == r.slots[k].entry.req.payload
  {
    hide EncodeHeader, Consistent, RequestOk, HeaderFits, FlagsOf;
    Parts(r, k);
    var f, p := r.slots[k].frame, r.slots[k].entry.req.payload;
    assert Splice(FrameBytes(f), REC_SIZE, p) == EncodeHeader(f.hdr) + Splice(f.body, 0, p);
  }

  lemma StateFits(h: Header, state: nat)
    requires HeaderFits(h) && state < 0x1_0000_0000
    ensures HeaderFits(h.(state := state))
  {
    Widths();
    forall k | 0 <= k < |REC_FMT|
      ensures Fields(h.(state := state))[k] < Pow256(REC_FMT[k])
    {
      assert Fields(h)[k] < Pow256(REC_FMT[k]);
    }
  }

  lemma FlagsFieldFits(h: Header, flags: nat)
    requires HeaderFits(h) && flags < 0x1_0000_0000
    ensures HeaderFits(h.(flags := flags))
  {
    Widths();
    forall k | 0 <= k < |REC_FMT|
      ensures Fields(h.(flags := flags))[k] < Pow256(REC_FMT[k])
    {
      assert Fields(h)[k] < Pow256(REC_FMT[k]);
    }
  }

  /** Storing the state word: RESERVED to DATA once the payload is in, DATA to COMMITTED. */
  lemma StateStep(r: RingState, k: nat, state: nat)
    requires Consistent(r) && r.done <= k < |r.slots|
    requires state in {ST_DATA, ST_COMMITTED}
    requires var s := r.slots[k]; |s.entry.req.payload| <= |s.frame.body|
                                  && s.frame.body[..|s.entry.req.payload|] == s.entry.req.payload
    ensures StoresInto(r, k, 12, LE(state, 4), WithState(r.slots[k], state))
  {
    hide EncodeHeader, Consistent, RequestOk, HeaderFits, FlagsOf, Splice, LE;
    Parts(r, k);
    var f := r.slots[k].frame;
    StateFits(f.hdr, state);
    StoreState(f.hdr, state);
    SpliceLeft(EncodeHeader(f.hdr), f.body, 12, LE(state, 4));
  }

  /** Storing the flags word with the error bit added, before the record is committed. */
  lemma ErrorStep(r: RingState, k: nat)
    requires Consistent(r) && r.done <= k < |r.slots|
    requires r.slots[k].frame.hdr.state == ST_DATA && !r.slots[k].error
    ensures StoresInto(r, k, 8, LE(SetBit(r.slots[k].frame.hdr.flags, F_ERROR_BIT), 4), WithError(r.slots[k]))
  {
    hide EncodeHeader, Consistent, HeaderFits, Splice, LE;
    Parts(r, k);
    var f, e := r.slots[k].frame, r.slots[k].entry;
    FlagsFit(e.req.flags, e.gap, true);
    FlagsFieldFits(f.hdr, SetBit(f.hdr.flags, F_ERROR_BIT));
    StoreFlags(f.hdr, SetBit(f.hdr.flags, F_ERROR_BIT));
    SpliceLeft(EncodeHeader(f.hdr), f.body, 8, LE(SetBit(f.hdr.flags, F_ERROR_BIT), 4));
  }

  /** cdp_next from the tail always returns: the first undelivered record, or that there is none. */
  lemma NextFromTail(r: RingState)
    requires Consistent(r)
    ensures |r.mem| > 0 && |r.areas| == |r.slots|
    ensures NextAt(r.mem, Tail(r), Head(r))
            == if r.done < |r.slots| then Record(r.areas[r.done].off, r.slots[r.done].frame.hdr) else CaughtUp(Tail(r))
  {
    hide EncodeHeader, DecodeHeader, SlotOk, Span, LogOf, Laid, NextAt, AllMatch, AllOk, AllLogged, AllFit;
    AllMatchSizes(r.areas, r.slots);
    if r.done < |r.slots| {
      NextFindsRecord(r, r.done);
    } else {
      NextAtHead(r.mem, Head(r));
    }
  }
}
