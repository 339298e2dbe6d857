/**
 The record stream in user space: packing, the incremental parser of dmcdp.py, and its
 independence of how the stream is cut into buffers.
 */
module Stream {
  import opened Records
  import opened Bits
  import opened Ring

  /* ------------------------------------------------------------------ */
  /* packing                                                            */

  /** dmcdp.pack_rec as a frame: header in state COMMITTED, payload, zero padding to 8 bytes. */
  function Packed(rtype: nat, flags: nat, seqno: nat, sector: nat, len: nat, ts: nat, payload: seq<Byte>): Frame {
    var recLen := Align8(REC_SIZE + |payload|);
    Frame(Header(REC_MAGIC, ABI_VERSION, rtype, flags, ST_COMMITTED, seqno, sector, len, recLen, ts, 0),
          payload + seq(recLen - REC_SIZE - |payload|, _ => 0))
  }

  lemma PackedIsWellFormed(rtype: nat, flags: nat, seqno: nat, sector: nat, len: nat, ts: nat, payload: seq<Byte>)
    requires rtype < 0x1_0000 && flags < 0x1_0000_0000 && seqno < 0x1_0000_0000_0000_0000
    requires sector < 0x1_0000_0000_0000_0000 && len < 0x1_0000_0000 && ts < 0x1_0000_0000_0000_0000
    requires |payload| < 0xFFFF_FFC0 && (rtype == REC_WRITE ==> len == |payload|)
    ensures var f := Packed(rtype, flags, seqno, sector, len, ts, payload);
            && WellFormed(f) && (rtype == REC_WRITE ==> Payload(f) == payload)
            && (f.hdr.rtype, f.hdr.flags, f.hdr.seqno, f.hdr.sector, f.hdr.len, f.hdr.ts)
               == (rtype, flags, seqno, sector, len, ts)
            && f.hdr.state == ST_COMMITTED && f.hdr.version == ABI_VERSION && f.hdr.reserved == 0
            && payload <= f.body && |f.body| < |payload| + 8
            && forall i | |payload| <= i < |f.body| :: f.body[i] == 0
  {
    hide HeaderFits;
    var f := Packed(rtype, flags, seqno, sector, len, ts, payload);
    HeaderFitsIf(f.hdr);
  }

  /* ------------------------------------------------------------------ */
  /* parsing                                                            */

  /**
   How a pass over a buffer ends. Partial: the rest is the start of a record. BadMagic: iter_records
   raises. Malformed: a record length below the header size, after which the iterator reads overlapping
   records, or the same one forever.
   */
  datatype ParseEnd = Partial | BadMagic | Malformed

  datatype Parsed = Parsed(frames: seq<Frame>, tail: seq<Byte>, end: ParseEnd)

  /** dmcdp.iter_records: the complete records of a buffer, and what is left. */
  function Parse(buf: seq<Byte>): Parsed
    decreases |buf|
  {
    if |buf| < REC_SIZE then Parsed([], buf, Partial)
    else
      var h := DecodeHeader(buf);
      if h.magic != REC_MAGIC then Parsed([], buf, BadMagic)
      else if h.recLen > |buf| then Parsed([], buf, Partial)
      else if h.recLen < REC_SIZE then Parsed([], buf, Malformed)
      else
        var rest := Parse(buf[h.recLen..]);
        rest.(frames := [Frame(h, buf[REC_SIZE..h.recLen])] + rest.frames)
  }

  ghost predicate AllWellFormed(frames: seq<Frame>) {
    forall k | 0 <= k < |frames| :: WellFormed(frames[k])
  }

  lemma FrameDecodes(f: Frame, rest: seq<Byte>)
    requires WellFormed(f)
    ensures DecodeHeader(FrameBytes(f) + rest) == f.hdr
    ensures (FrameBytes(f) + rest)[REC_SIZE..f.hdr.recLen] == f.body
    ensures (FrameBytes(f) + rest)[f.hdr.recLen..] == rest
    ensures |FrameBytes(f) + rest| == f.hdr.recLen + |rest|
  {
    hide EncodeHeader, DecodeHeader, HeaderFits;
    HeaderRoundTrip(f.hdr, f.body + rest);
    assert FrameBytes(f) + rest == EncodeHeader(f.hdr) + (f.body + rest);
  }

  lemma ParseFrame(f: Frame, rest: seq<Byte>)
    requires WellFormed(f)
    ensures Parse(FrameBytes(f) + rest) == Parse(rest).(frames := [f] + Parse(rest).frames)
  {
    hide DecodeHeader, FrameBytes, HeaderFits;
    FrameDecodes(f, rest);
    assert Frame(f.hdr, f.body) == f;
  }

  /** Whole records first, then whatever the rest of the buffer gives. */
  lemma {:induction false} ParseThen(frames: seq<Frame>, rest: seq<Byte>)
    requires AllWellFormed(frames)
    ensures Parse(Concat(frames) + rest) == Parse(rest).(frames := frames + Parse(rest).frames)
    decreases |frames|
  {
    hide WellFormed, FrameBytes, Parse;
    if frames == [] {
      assert Concat(frames) + rest == rest && frames + Parse(rest).frames == Parse(rest).frames;
    } else {
      var front := frames[0];
      ParseThen(frames[1..], rest);
      ParseFrame(front, Concat(frames[1..]) + rest);
      assert Concat(frames) + rest == FrameBytes(front) + (Concat(frames[1..]) + rest);
      assert [front] + (frames[1..] + Parse(rest).frames) == frames + Parse(rest).frames;
    }
  }

  /** A header that does not begin with the magic number ends the pass, after the records before it. */
  lemma BadMagicStops(frames: seq<Frame>, rest: seq<Byte>)
    requires AllWellFormed(frames) && |rest| >= REC_SIZE && FromLE(rest[..4]) != REC_MAGIC
    ensures Parse(Concat(frames) + rest) == Parsed(frames, rest, BadMagic)
  {
    hide FromLE;
    ParseThen(frames, rest);
    assert DecodeHeader(rest).magic == FromLE(rest[..4]) by {
      assert OffsetOf(REC_FMT, 0) == 0;
    }
    assert frames + [] == frames;
  }

  /** A buffer that stops inside a record yields nothing and is kept whole. */
  lemma ParsePartial(f: Frame, p: nat)
    requires WellFormed(f) && p < f.hdr.recLen
    ensures Parse(FrameBytes(f)[..p]) == Parsed([], FrameBytes(f)[..p], Partial)
  {
    hide EncodeHeader, DecodeHeader, HeaderFits;
    if p >= REC_SIZE {
      var rest := f.body[..p - REC_SIZE];
      HeaderRoundTrip(f.hdr, rest);
      assert FrameBytes(f)[..p] == EncodeHeader(f.hdr) + rest;
    }
  }

  /** Bytes taken by the first k records. */
  function OffsetAt(frames: seq<Frame>, k: nat): nat
    requires k <= |frames|
  {
    |Concat(frames[..k])|
  }

  /** How many records lie wholly in the first p bytes. */
  function CompleteIn(frames: seq<Frame>, p: nat): (k: nat)
    ensures k <= |frames|
    decreases |frames|
  {
    if frames == [] || |FrameBytes(frames[0])| > p then 0
    else 1 + CompleteIn(frames[1..], p - |FrameBytes(frames[0])|)
  }

  /** Parsing any prefix of a stream yields the records complete in it and keeps the rest. */
  lemma {:induction false} ParsePrefix(frames: seq<Frame>, p: nat)
    requires AllWellFormed(frames) && p <= |Concat(frames)|
    ensures var k := CompleteIn(frames, p);
            && OffsetAt(frames, k) <= p
            && Parse(Concat(frames)[..p]) == Parsed(frames[..k], Concat(frames)[OffsetAt(frames, k)..p], Partial)
            && (p == |Concat(frames)| ==> k == |frames|)
    decreases |frames|
  {
    hide FrameBytes, WellFormed, Parse;
    if frames == [] {
      ParseNothing();
      assert Concat(frames)[..p] == [];
    } else {
      var f, rest := frames[0], frames[1..];
      var n := |FrameBytes(f)|;
      FrameLength(f);
      assert Concat(frames) == FrameBytes(f) + Concat(rest);
      assert frames[..0] == [] && Concat([]) == [];
      if n > p {
        ParsePartial(f, p);
        assert Concat(frames)[..p] == FrameBytes(f)[..p];
      } else {
        ParsePrefix(rest, p - n);
        ParseFrame(f, Concat(rest)[..p - n]);
        assert Concat(frames)[..p] == FrameBytes(f) + Concat(rest)[..p - n];
        var j := CompleteIn(rest, p - n);
        assert frames[..j + 1] == [f] + rest[..j];
        assert frames[..j + 1][1..] == rest[..j];
        assert OffsetAt(frames, j + 1) == n + OffsetAt(rest, j);
      }
    }
  }

  lemma ParseNothing()
    ensures Parse([]) == Parsed([], [], Partial)
  {
  }

  lemma FrameLength(f: Frame)
    requires WellFormed(f)
    ensures |FrameBytes(f)| == f.hdr.recLen
  {
  }

  /** Pack and parse: every record comes back with its fields and payload, and every byte is consumed. */
  lemma PackParseRoundTrip(frames: seq<Frame>)
    requires AllWellFormed(frames)
    ensures Parse(Concat(frames)) == Parsed(frames, [], Partial)
  {
    hide WellFormed, Parse, Concat;
    var n := |Concat(frames)|;
    ParsePrefix(frames, n);
    assert Concat(frames)[..n] == Concat(frames) && frames[..|frames|] == frames;
    assert OffsetAt(frames, |frames|) == n;
    assert Concat(frames)[n..n] == [];
  }

  /* ------------------------------------------------------------------ */
  /* cutting the stream                                                 */

  function Join(bufs: seq<seq<Byte>>): seq<Byte> {
    if bufs == [] then [] else bufs[0] + Join(bufs[1..])
  }

  /** The consumer: parse the carried tail and the new bytes, carry the new tail. */
  datatype Feed = Feed(frames: seq<Frame>, tail: seq<Byte>)

  function FeedOne(s: Feed, data: seq<Byte>): Feed {
    var p := Parse(s.tail + data);
    Feed(s.frames + p.frames, p.tail)
  }

  function FeedAll(s: Feed, bufs: seq<seq<Byte>>): Feed
    decreases |bufs|
  {
    if bufs == [] then s else FeedAll(FeedOne(s, bufs[0]), bufs[1..])
  }

  /** s has consumed the first p bytes of the stream. */
  ghost predicate Fed(s: Feed, frames: seq<Frame>, p: nat) {
    exists k | 0 <= k <= |frames| ::
      s.frames == frames[..k] && OffsetAt(frames, k) <= p <= |Concat(frames)|
      && s.tail == Concat(frames)[OffsetAt(frames, k)..p]
  }

  lemma ConcatSplit(frames: seq<Frame>, k: nat)
    requires k <= |frames|
    ensures Concat(frames) == Concat(frames[..k]) + Concat(frames[k..])
    ensures OffsetAt(frames, k) <= |Concat(frames)|
    ensures Concat(frames)[OffsetAt(frames, k)..] == Concat(frames[k..])
  {
    hide Concat;
    assert frames == frames[..k] + frames[k..];
    ConcatAppend(frames[..k], frames[k..]);
    DropFront(Concat(frames[..k]), Concat(frames[k..]));
  }

  lemma DropFront(a: seq<Byte>, b: seq<Byte>)
    ensures (a + b)[|a|..] == b
  {
  }

  /** Parsing the part of a stream from the end of record k to byte p. */
  lemma FeedFrom(frames: seq<Frame>, k: nat, p: nat) returns (j: nat)
    requires AllWellFormed(frames) && k <= |frames| && OffsetAt(frames, k) <= p <= |Concat(frames)|
    ensures k <= j <= |frames| && OffsetAt(frames, j) <= p
    ensures Parse(Concat(frames)[OffsetAt(frames, k)..p])
            == Parsed(frames[k..j], Concat(frames)[OffsetAt(frames, j)..p], Partial)
  {
    hide Concat, WellFormed, Parse, OffsetAt, CompleteIn;
    var rest, o, all := frames[k..], OffsetAt(frames, k), Concat(frames);
    ConcatSplit(frames, k);
    SliceShift(all, o, 0, p - o);
    ParsePrefix(rest, p - o);
    var n := CompleteIn(rest, p - o);
    FramesJoin(frames, k, n);
    SliceShift(all, o, OffsetAt(rest, n), p - o);
    j := k + n;
    assert rest[..n] == frames[k..j];
  }

  lemma FeedStep(s: Feed, frames: seq<Frame>, p: nat, data: seq<Byte>)
    requires AllWellFormed(frames) && Fed(s, frames, p)
    requires p + |data| <= |Concat(frames)| && data == Concat(frames)[p..p + |data|]
    ensures Fed(FeedOne(s, data), frames, p + |data|)
  {
    hide Concat, WellFormed, Parse, OffsetAt, CompleteIn;
    var k :| 0 <= k <= |frames| && s.frames == frames[..k] && OffsetAt(frames, k) <= p
             && s.tail == Concat(frames)[OffsetAt(frames, k)..p];
    SliceJoin(Concat(frames), OffsetAt(frames, k), p, p + |data|);
    var j := FeedFrom(frames, k, p + |data|);
    assert frames[..k] + frames[k..j] == frames[..j];
  }

  /** How many records have been handled. */
  lemma FedCount(s: Feed, frames: seq<Frame>, p: nat) returns (k: nat)
    requires Fed(s, frames, p)
    ensures k <= |frames| && s.frames == frames[..k] && OffsetAt(frames, k) <= p <= |Concat(frames)|
    ensures s.tail == Concat(frames)[OffsetAt(frames, k)..p]
  {
    hide Concat, OffsetAt;
    k :| 0 <= k <= |frames| && s.frames == frames[..k] && OffsetAt(frames, k) <= p <= |Concat(frames)|
         && s.tail == Concat(frames)[OffsetAt(frames, k)..p];
  }

  /** The buffer that completes the stream leaves nothing over. */
  lemma FeedLast(s: Feed, frames: seq<Frame>, p: nat, data: seq<Byte>)
    requires AllWellFormed(frames) && Fed(s, frames, p)
    requires p + |data| == |Concat(frames)| && data == Concat(frames)[p..p + |data|]
    ensures FeedOne(s, data) == Feed(frames, [])
  {
    hide Concat, WellFormed, Parse, OffsetAt, Fed;
    var k := FedCount(s, frames, p);
    var o, all := OffsetAt(frames, k), Concat(frames);
    ConcatSplit(frames, k);
    SliceJoin(all, o, p, |all|);
    assert all[o..|all|] == all[o..];
    PackParseRoundTrip(frames[k..]);
    assert frames[..k] + frames[k..] == frames;
  }

  lemma SliceShift(s: seq<Byte>, o: nat, a: nat, b: nat)
    requires o <= |s| && a <= b <= |s| - o
    ensures s[o..][a..b] == s[o + a..o + b] && s[o..][..b] == s[o..][0..b]
  {
  }

  lemma SliceJoin(s: seq<Byte>, a: nat, b: nat, c: nat)
    requires a <= b <= c <= |s|
    ensures s[a..b] + s[b..c] == s[a..c]
  {
  }

  lemma FramesJoin(frames: seq<Frame>, k: nat, j: nat)
    requires k + j <= |frames|
    ensures frames[..k] + frames[k..][..j] == frames[..k + j]
    ensures OffsetAt(frames, k + j) == OffsetAt(frames, k) + OffsetAt(frames[k..], j)
  {
    hide Concat;
    assert frames[..k] + frames[k..][..j] == frames[..k + j];
    ConcatAppend(frames[..k], frames[k..][..j]);
  }

  lemma {:induction false} FeedRest(s: Feed, frames: seq<Frame>, p: nat, bufs: seq<seq<Byte>>)
    requires AllWellFormed(frames) && Fed(s, frames, p) && p <= |Concat(frames)|
    requires Join(bufs) == Concat(frames)[p..]
    requires p == |Concat(frames)| ==> s == Feed(frames, [])
    ensures FeedAll(s, bufs) == Feed(frames, [])
    decreases |bufs|
  {
    hide Concat, WellFormed, Parse, Fed, FeedOne;
    if bufs != [] {
      var data, more := bufs[0], bufs[1..];
      assert Join(bufs) == data + Join(more);
      assert data == Concat(frames)[p..p + |data|];
      FeedStep(s, frames, p, data);
      if p + |data| == |Concat(frames)| {
        FeedLast(s, frames, p, data);
      }
      assert Concat(frames)[p + |data|..] == Join(more);
      FeedRest(FeedOne(s, data), frames, p + |data|, more);
    }
  }

  /**
   However a stream of well-formed records is cut into buffers, each record is handled exactly once,
   in order and whole, and nothing is left over.
   */
  lemma ChunkingDoesNotMatter(frames: seq<Frame>, bufs: seq<seq<Byte>>)
    requires AllWellFormed(frames) && Join(bufs) == Concat(frames)
    ensures FeedAll(Feed([], []), bufs) == Feed(frames, [])
  {
    hide WellFormed, Parse, FeedOne;
    var s := Feed([], []);
    assert frames[..0] == [] && Concat([]) == [];
    assert OffsetAt(frames, 0) == 0;
    assert Fed(s, frames, 0) by {
      assert s.tail == Concat(frames)[0..0];
    }
    assert Concat(frames)[0..] == Concat(frames);
    if |Concat(frames)| == 0 {
      NoFrames(frames);
    }
    FeedRest(s, frames, 0, bufs);
  }

  lemma NoFrames(frames: seq<Frame>)
    requires |Concat(frames)| == 0
    ensures frames == []
  {
  }

  /* ------------------------------------------------------------------ */
  /* gaps                                                               */

  predicate HasGap(f: Frame) {
    Bit(f.hdr.flags, F_GAP_BIT)
  }

  /** The recovery runs that consume asks for, remembering the last gap seen. */
  function GapsQueued(frames: seq<Frame>, seen: Option<nat>): seq<nat>
    decreases |frames|
  {
    if frames == [] then []
    else
      var f := frames[0];
      if HasGap(f) && seen != Some(f.hdr.seqno)
      then [f.hdr.seqno] + GapsQueued(frames[1..], Some(f.hdr.seqno))
      else GapsQueued(frames[1..], seen)
  }

  function LastGap(frames: seq<Frame>, seen: Option<nat>): Option<nat>
    decreases |frames|
  {
    if frames == [] then seen
    else LastGap(frames[1..], if HasGap(frames[0]) then Some(frames[0].hdr.seqno) else seen)
  }

  function GapSeqs(frames: seq<Frame>): seq<nat> {
    if frames == [] then []
    else (if HasGap(frames[0]) then [frames[0].hdr.seqno] else []) + GapSeqs(frames[1..])
  }

  ghost predicate Ascending(frames: seq<Frame>) {
    forall i, j | 0 <= i < j < |frames| :: frames[i].hdr.seqno < frames[j].hdr.seqno
  }

  /** On records with ascending numbers every gap is queued, once, in order. */
  lemma {:induction false} EachGapQueuedOnce(frames: seq<Frame>, seen: Option<nat>)
    requires Ascending(frames)
    requires seen.Some? ==> forall i | 0 <= i < |frames| :: seen.value < frames[i].hdr.seqno
    ensures GapsQueued(frames, seen) == GapSeqs(frames)
    decreases |frames|
  {
    hide HasGap;
    if frames != [] {
      var rest := frames[1..];
      assert forall i | 0 <= i < |rest| :: rest[i] == frames[i + 1];
      EachGapQueuedOnce(rest, if HasGap(frames[0]) then Some(frames[0].hdr.seqno) else seen);
    }
  }

  /**
   On any records: what is queued are the numbers of gap records, none of them missing except the last one seen, and
   never the same number twice in a row.
   */
  lemma {:induction false} GapsQueuedExactly(frames: seq<Frame>, seen: Option<nat>)
    ensures var q, gaps := GapsQueued(frames, seen), GapSeqs(frames);
            && (forall x | x in q :: x in gaps) && (forall x | x in gaps :: x in q || seen == Some(x))
            && (forall k | 0 < k < |q| :: q[k - 1] != q[k]) && (q != [] ==> seen != Some(q[0]))
    decreases |frames|
  {
    hide HasGap;
    if frames != [] {
      GapsQueuedExactly(frames[1..], if HasGap(frames[0]) then Some(frames[0].hdr.seqno) else seen);
    }
  }

  lemma {:induction false} GapsQueuedSplit(a: seq<Frame>, b: seq<Frame>, seen: Option<nat>)
    ensures GapsQueued(a + b, seen) == GapsQueued(a, seen) + GapsQueued(b, LastGap(a, seen))
    ensures LastGap(a + b, seen) == LastGap(b, LastGap(a, seen))
    decreases |a|
  {
    hide HasGap;
    if a == [] {
      assert a + b == b;
    } else {
      var seen' := if HasGap(a[0]) then Some(a[0].hdr.seqno) else seen;
      assert (a + b)[1..] == a[1..] + b;
      GapsQueuedSplit(a[1..], b, seen');
    }
  }

  /* ------------------------------------------------------------------ */
  /* from the ring to the parser                                        */

  /** What a read of the kernel ring returns parses into exactly the records delivered, with no tail. */
  lemma ReadParses(r: RingState, i: nat, j: nat)
    requires Consistent(r) && i <= j <= |r.slots|
    ensures Parse(Concat(FramesOf(r.slots)[i..j])) == Parsed(FramesOf(r.slots)[i..j], [], Partial)
  {
    hide LogOf, AllMatch, AllLogged, AllCommitted, AllFit, Parse, Concat;
    var frames := FramesOf(r.slots)[i..j];
    forall k | 0 <= k < |frames|
      ensures WellFormed(frames[k])
    {
      assert SlotOk(r.slots[i + k], i + k);
    }
    PackParseRoundTrip(frames);
  }
}
