/**
 The daemon as an object: apply_one and the parts of copy_chunk between which the lock
 is released, the consume and apply_pending loops, and the two copy loops.
 */
module Daemon {
  import opened Records
  import opened Images
  import opened Stream
  import opened Protocol
  import opened Parking

  /** A record the kernel can have produced for a disk of that size: a flush names no range, others lie within. */
  ghost predicate FrameOk(f: Frame, size: nat) {
    && WellFormed(f)
    && (OpOf(f).Flush? ==> f.hdr.sector == 0 && f.hdr.len == 0)
    && f.hdr.sector * SECTOR + f.hdr.len <= size
  }

  ghost predicate AllOk(frames: seq<Frame>, size: nat) {
    forall k | 0 <= k < |frames| :: FrameOk(frames[k], size)
  }

  /** What the lock guards: the replica and the records deferred for the flagged chunk. */
  datatype Guarded = Guarded(replica: seq<Byte>, deferred: seq<Frame>)

  /** apply_one while copying is flagged as given. */
  function Applied(g: Guarded, copying: Option<Range>, f: Frame): Guarded {
    if copying.Some? && Overlaps(OpOf(f), copying.value.lo, copying.value.hi)
    then g.(deferred := g.deferred + [f])
    else g.(replica := Apply(g.replica, OpOf(f)))
  }

  function AppliedAll(g: Guarded, copying: Option<Range>, frames: seq<Frame>): Guarded {
    if frames == [] then g
    else
      var n := |frames| - 1;
      Applied(AppliedAll(g, copying, frames[..n]), copying, frames[n])
  }

  lemma AppliedNext(g: Guarded, copying: Option<Range>, frames: seq<Frame>, f: Frame)
    requires AllWellFormed(frames) && WellFormed(f)
    ensures AllWellFormed(frames + [f])
    ensures AppliedAll(g, copying, frames + [f]) == Applied(AppliedAll(g, copying, frames), copying, f)
  {
    assert (frames + [f])[..|frames|] == frames;
  }

  /** The test of apply_one: a record of some bytes is deferred exactly if one of them lies in the chunk. */
  lemma MeetsExactly(op: Op, lo: nat, hi: nat)
    requires Start(op) < End(op) && lo < hi
    ensures Overlaps(op, lo, hi) <==> exists i :: lo <= i < hi && Touches(op, i)
  {
    if Overlaps(op, lo, hi) {
      var i := if lo < Start(op) then Start(op) else lo;
      assert lo <= i < hi && Touches(op, i);
    }
  }

  /** A record of no bytes changes nothing, whether it is deferred or not. */
  lemma EmptyChangesNothing(op: Op, img: seq<Byte>)
    requires Start(op) == End(op)
    ensures Apply(img, op) == img
  {
  }

  /** With no chunk flagged, the records are folded over the replica in order. */
  lemma {:induction false} AppliedUnflagged(g: Guarded, frames: seq<Frame>)
    requires AllWellFormed(frames)
    ensures AppliedAll(g, None, frames) == g.(replica := Fold(g.replica, OpsOf(frames)))
  {
    hide WellFormed;
    if frames != [] {
      var n := |frames| - 1;
      FrontWellFormed(frames, n);
      assert frames[..n] + [frames[n]] == frames;
      AppliedUnflagged(g, frames[..n]);
      OpsOfFront(frames, n);
    }
  }

  lemma FrontWellFormed(frames: seq<Frame>, n: nat)
    requires AllWellFormed(frames) && n <= |frames|
    ensures AllWellFormed(frames[..n])
  {
  }

  lemma OpsOfFront(frames: seq<Frame>, n: nat)
    requires n <= |frames| && AllWellFormed(frames) && AllWellFormed(frames[..n])
    ensures OpsOf(frames)[..n] == OpsOf(frames[..n])
  {
  }

  /** A read of n bytes at off returns the bytes of the device from there on, some but perhaps not all of them. */
  method ReadDevice(dev: seq<Byte>, off: nat, n: nat) returns (buf: seq<Byte>)
    ensures |buf| <= n && (off < |dev| && n > 0 ==> buf != []) && (off >= |dev| ==> buf == [])
    ensures off < |dev| ==> off + |buf| <= |dev| && buf == dev[off..off + |buf|]
  {
    if off >= |dev| || n == 0 {
      return [];
    }
    var m: nat :| 0 < m <= n && off + m <= |dev|;
    buf := dev[off..off + m];
  }

  class Daemon {
    const replica: array<Byte>
    var punchOk: bool
    var copying: Option<Range>
    var deferred: seq<Frame>
    var recoveryQueue: seq<nat>
    var gapSeen: Option<nat>
    var lastSeq: Option<nat>
    var records: nat
    var bytes: nat
    var pendingFile: Option<seq<Byte>>

    ghost function State(): Guarded
      reads this, replica
    {
      Guarded(replica[..], deferred)
    }

    constructor (size: nat)
      ensures fresh(replica) && State() == Guarded(seq(size, _ => 0), [])
      ensures copying == None && recoveryQueue == [] && gapSeen == None && pendingFile == None
    {
      replica := new Byte[size](_ => 0);
      punchOk, copying, deferred, recoveryQueue := true, None, [], [];
      gapSeen, lastSeq, records, bytes, pendingFile := None, None, 0, 0, None;
    }

    /** os.pwrite on the replica. */
    method PWrite(buf: seq<Byte>, off: nat)
      requires off + |buf| <= replica.Length
      modifies replica
      ensures replica[..] == Splice(old(replica[..]), off, buf)
    {
      forall i | 0 <= i < |buf| {
        replica[off + i] := buf[i];
      }
    }

    /** Replica.punch: a hole if the file system makes one, else zeros. It reads back as zeros either way. */
    method Punch(off: nat, len: nat, holeMade: bool)
      requires off + len <= replica.Length
      modifies this`punchOk, replica
      ensures replica[..] == Splice(old(replica[..]), off, seq(len, _ => 0))
      ensures punchOk == (old(punchOk) && holeMade)
    {
      if punchOk && !holeMade {
        punchOk := false;
      }
      PWrite(seq(len, _ => 0), off);
    }

    /** Replica.write. */
    method Write(f: Frame, holeMade: bool)
      requires FrameOk(f, replica.Length)
      modifies this`punchOk, replica
      ensures replica[..] == Apply(old(replica[..]), OpOf(f))
      ensures f.hdr.rtype == REC_WRITE ==> replica[..] == Splice(old(replica[..]), f.hdr.sector * SECTOR, Payload(f))
      ensures f.hdr.rtype in {REC_DISCARD, REC_ZERO} ==>
                replica[..] == Splice(old(replica[..]), f.hdr.sector * SECTOR, seq(f.hdr.len, _ => 0))
      ensures f.hdr.rtype !in {REC_WRITE, REC_DISCARD, REC_ZERO} ==> replica[..] == old(replica[..])
    {
      if f.hdr.rtype == REC_WRITE {
        PWrite(Payload(f), f.hdr.sector * SECTOR);
      } else if f.hdr.rtype == REC_DISCARD || f.hdr.rtype == REC_ZERO {
        Punch(f.hdr.sector * SECTOR, f.hdr.len, holeMade);
      }
    }

    /** Daemon.apply_one. */
    method ApplyOne(f: Frame, holeMade: bool)
      requires FrameOk(f, replica.Length)
      modifies this`punchOk, this`deferred, this`lastSeq, this`records, this`bytes, replica
      ensures State() == Applied(old(State()), copying, f)
      ensures var meets := copying.Some? && exists i :: copying.value.lo <= i < copying.value.hi && Touches(OpOf(f), i);
              Start(OpOf(f)) < End(OpOf(f)) && (copying.Some? ==> copying.value.lo < copying.value.hi) ==>
                if meets then deferred == old(deferred) + [f] && replica[..] == old(replica[..])
                else deferred == old(deferred) && replica[..] == Apply(old(replica[..]), OpOf(f))
      ensures deferred != old(deferred) ==> lastSeq == old(lastSeq) && records == old(records)
      ensures deferred == old(deferred) ==> lastSeq == Some(f.hdr.seqno) && records == old(records) + 1
      ensures bytes == old(bytes) + if deferred == old(deferred) && f.hdr.rtype == REC_WRITE then f.hdr.len else 0
    {
      hide HeaderFits;
      var start, end := f.hdr.sector * SECTOR, f.hdr.sector * SECTOR + f.hdr.len;
      if copying.Some? && start < end && copying.value.lo < copying.value.hi {
        MeetsExactly(OpOf(f), copying.value.lo, copying.value.hi);
      }
      if copying.Some? && start < copying.value.hi && end > copying.value.lo {
        deferred := deferred + [f];
        return;
      }
      Write(f, holeMade);
      lastSeq := Some(f.hdr.seqno);
      records := records + 1;
      if f.hdr.rtype == REC_WRITE {
        bytes := bytes + f.hdr.len;
      }
    }

    /** The part of consume's loop that deals with one record: note a gap, apply unless parking. */
    method Handle(f: Frame, park: bool)
      requires FrameOk(f, replica.Length)
      modifies this`punchOk, this`deferred, this`lastSeq, this`records, this`bytes, replica
      modifies this`recoveryQueue, this`gapSeen
      ensures var gap := HasGap(f) && old(gapSeen) != Some(f.hdr.seqno);
              && recoveryQueue == old(recoveryQueue) + (if gap then [f.hdr.seqno] else [])
              && gapSeen == if gap then Some(f.hdr.seqno) else old(gapSeen)
      ensures State() == if park then old(State()) else Applied(old(State()), copying, f)
    {
      hide FrameOk, HasGap, Applied;
      if HasGap(f) && gapSeen != Some(f.hdr.seqno) {
        gapSeen := Some(f.hdr.seqno);
        recoveryQueue := recoveryQueue + [f.hdr.seqno];
      }
      if !park {
        var holeMade: bool := *;
        ApplyOne(f, holeMade);
      }
    }

    /** Daemon.consume: apply or park every complete record of buf, and return the rest. */
    method Consume(buf: seq<Byte>, park: bool) returns (tail: seq<Byte>)
      requires Parse(buf).end == Partial && AllOk(Parse(buf).frames, replica.Length)
      modifies this`punchOk, this`deferred, this`lastSeq, this`records, this`bytes, replica
      modifies this`recoveryQueue, this`gapSeen, this`pendingFile
      ensures tail == Parse(buf).tail && AllWellFormed(Parse(buf).frames)
      ensures recoveryQueue == old(recoveryQueue) + GapsQueued(Parse(buf).frames, old(gapSeen))
      ensures gapSeen == LastGap(Parse(buf).frames, old(gapSeen))
      ensures park ==> State() == old(State()) && pendingFile == Parked(old(pendingFile), Parse(buf).frames)
      ensures !park ==> State() == AppliedAll(old(State()), copying, Parse(buf).frames) && pendingFile == old(pendingFile)
    {
      hide DecodeHeader, WellFormed, HasGap, Applied, Parse, FrameOk, FrameBytes, GapsQueued, LastGap, AppliedAll;
      var off := 0;
      var parked: seq<Byte> := [];
      ghost var frames, done := Parse(buf).frames, [];
      AllOkWellFormed(frames, replica.Length);
      ProgressStart(buf);
      GapsNone(gapSeen);
      AppliedNone(State(), copying);
      while true
        invariant Progress(buf, off, done) && frames == Parse(buf).frames
        invariant AllOk(frames, replica.Length) && AllWellFormed(frames) && AllWellFormed(done)
        invariant recoveryQueue == old(recoveryQueue) + GapsQueued(done, old(gapSeen))
        invariant gapSeen == LastGap(done, old(gapSeen))
        invariant pendingFile == old(pendingFile)
        invariant park ==> State() == old(State()) && parked == Concat(done)
        invariant !park ==> parked == [] && State() == AppliedAll(old(State()), copying, done)
        decreases |buf| - off
      {
        ProgressStep(buf, off, done);
        if |buf| - off < REC_SIZE {
          break;
        }
        var h := DecodeHeader(buf[off..]);
        if off + h.recLen > |buf| {
          break;
        }
        var f := Frame(h, buf[off + REC_SIZE..off + h.recLen]);
        assert f == frames[|done|];
        GapsNext(done, f, old(gapSeen));
        AppliedNext(old(State()), copying, done, f);
        ConcatOne(done, f);
        Handle(f, park);
        if park {
          parked := parked + buf[off..off + f.hdr.recLen];
        }
        done := done + [f];
        off := off + f.hdr.recLen;
      }
      ParkedNothing(frames);
      if parked != [] {
        pendingFile := Some((if pendingFile.Some? then pendingFile.value else []) + parked);
      }
      tail := buf[off..];
    }

    /** The inner loop of apply_pending: apply every complete record of buf, and return the rest. */
    method ApplyBuffer(buf: seq<Byte>) returns (tail: seq<Byte>)
      requires Parse(buf).end == Partial && AllOk(Parse(buf).frames, replica.Length)
      modifies this`punchOk, this`deferred, this`lastSeq, this`records, this`bytes, replica
      ensures tail == Parse(buf).tail && AllWellFormed(Parse(buf).frames)
      ensures State() == AppliedAll(old(State()), copying, Parse(buf).frames)
    {
      hide DecodeHeader, WellFormed, Applied, Parse, FrameOk, FrameBytes, AppliedAll;
      var off := 0;
      ghost var frames, done := Parse(buf).frames, [];
      AllOkWellFormed(frames, replica.Length);
      ProgressStart(buf);
      AppliedNone(State(), copying);
      while true
        invariant Progress(buf, off, done) && frames == Parse(buf).frames
        invariant AllOk(frames, replica.Length) && AllWellFormed(frames) && AllWellFormed(done)
        invariant State() == AppliedAll(old(State()), copying, done)
        decreases |buf| - off
      {
        ProgressStep(buf, off, done);
        if |buf| - off < REC_SIZE {
          break;
        }
        var h := DecodeHeader(buf[off..]);
        if off + h.recLen > |buf| {
          break;
        }
        var f := Frame(h, buf[off + REC_SIZE..off + h.recLen]);
        assert f == frames[|done|];
        AppliedNext(old(State()), copying, done, f);
        var holeMade: bool := *;
        ApplyOne(f, holeMade);
        done := done + [f];
        off := off + f.hdr.recLen;
      }
      tail := buf[off..];
    }

    /** Daemon.apply_pending: stream pending.bin through the parser in reads of readSize, then remove it. */
    method ApplyPending(readSize: nat, ghost frames: seq<Frame>)
      requires readSize > 0 && AllOk(frames, replica.Length)
      requires pendingFile.Some? ==> pendingFile.value == Concat(frames)
      modifies this`punchOk, this`deferred, this`lastSeq, this`records, this`bytes, this`pendingFile, replica
      ensures pendingFile == None && AllWellFormed(frames)
      ensures State() == if old(pendingFile).Some? then AppliedAll(old(State()), copying, frames) else old(State())
    {
      hide WellFormed, Parse, FrameOk, AppliedAll, Concat, Fed;
      AllOkWellFormed(frames, replica.Length);
      if pendingFile.None? {
        return;
      }
      var file := pendingFile.value;
      var pos, tail := 0, [];
      ghost var s := Feed([], []);
      FedNothing(frames);
      AppliedNone(State(), copying);
      while pos < |file|
        invariant pos <= |file| && Fed(s, frames, pos) && tail == s.tail
        invariant pendingFile == Some(file) && file == Concat(frames)
        invariant pos == |file| ==> s == Feed(frames, [])
        invariant AllWellFormed(s.frames) && State() == AppliedAll(old(State()), copying, s.frames)
      {
        var end := if pos + readSize < |file| then pos + readSize else |file|;
        var chunk := file[pos..end];
        FeedOk(s, frames, pos, chunk, replica.Length);
        FeedStep(s, frames, pos, chunk);
        if end == |file| {
          FeedLast(s, frames, pos, chunk);
        }
        ghost var was := State();
        tail := ApplyBuffer(tail + chunk);
        AppliedConcat(old(State()), copying, s.frames, Parse(s.tail + chunk).frames);
        s := FeedOne(s, chunk);
        pos := end;
      }
      pendingFile := None;
    }

    /**
     One turn of the main loop: consume what was read, then apply_pending if the rebuild lock is not there.
     parked are the records in pending.bin.
     */
    method MainTurn(buf: seq<Byte>, lockedAtConsume: bool, lockedAtApply: bool, readSize: nat, ghost parked: seq<Frame>)
      returns (tail: seq<Byte>, ghost left: seq<Frame>)
      requires Parse(buf).end == Partial && AllOk(Parse(buf).frames, replica.Length) && readSize > 0
      requires AllOk(parked, replica.Length) && pendingFile == FileOf(parked)
      modifies this`punchOk, this`deferred, this`lastSeq, this`records, this`bytes, replica
      modifies this`recoveryQueue, this`gapSeen, this`pendingFile
      ensures tail == Parse(buf).tail && AllWellFormed(Parse(buf).frames) && AllWellFormed(parked)
      ensures !lockedAtApply ==> left == [] && pendingFile == None
      ensures lockedAtApply ==> left == parked + if lockedAtConsume then Parse(buf).frames else []
      ensures lockedAtApply ==>
                State() == if lockedAtConsume then old(State()) else AppliedAll(old(State()), copying, Parse(buf).frames)
      ensures !lockedAtApply && lockedAtConsume ==>
                State() == AppliedAll(AppliedAll(old(State()), copying, parked), copying, Parse(buf).frames)
      ensures !lockedAtApply && !lockedAtConsume ==>
                State() == AppliedAll(AppliedAll(old(State()), copying, Parse(buf).frames), copying, parked)
      ensures var q := NextTurn(Tally([], parked), Turn(Parse(buf).frames, lockedAtConsume, lockedAtApply));
              && left == q.parked && pendingFile == FileOf(left) && AllOk(left, replica.Length)
              && AllWellFormed(q.applied) && State() == AppliedAll(old(State()), copying, q.applied)
    {
      hide Parse, FrameOk, WellFormed, AppliedAll, Concat, GapsQueued, LastGap;
      ghost var frames := Parse(buf).frames;
      AllOkWellFormed(frames, replica.Length);
      AllOkWellFormed(parked, replica.Length);
      AppliedNone(State(), copying);
      ParkedIsFile(parked, frames);
      AppliedConcat(State(), copying, parked, frames);
      assert parked + [] == parked;
      tail := Consume(buf, lockedAtConsume);
      AppliedNone(State(), copying);
      left := if lockedAtConsume then parked + frames else parked;
      ghost var now := if lockedAtConsume then [] else frames;
      assert Consumed(Tally([], parked), Turn(frames, lockedAtConsume, lockedAtApply)) == Tally(now, left) by {
        assert [] + frames == frames;
      }
      assert pendingFile == FileOf(left);
      if pendingFile.None? {
        assert left == [] && now + left == now;
      }
      if !lockedAtApply && pendingFile.Some? {
        AllOkWellFormed(left, replica.Length);
        FileHolds(left);
        AppliedConcat(old(State()), copying, now, left);
        ApplyPending(readSize, left);
        left := [];
      }
    }

    /* ---------------------------------------------------------------- */
    /* copy_chunk, section by section                                   */

    /** First section under the lock: flag the chunk. */
    method FlagChunk(off: nat, n: nat)
      modifies this`copying, this`deferred
      ensures copying == Some(Range(off, off + n)) && deferred == []
    {
      copying := Some(Range(off, off + n));
      deferred := [];
    }

    /** Without the lock: write what the device returned, unless it is a zero chunk to skip. */
    method PutChunk(buf: seq<Byte>, off: nat, skipZero: bool)
      requires buf != [] ==> off + |buf| <= replica.Length
      modifies replica
      ensures replica[..] == if buf == [] || (skipZero && AllZero(buf)) then old(replica[..])
                             else Splice(old(replica[..]), off, buf)
    {
      if buf != [] && !(skipZero && buf == seq(|buf|, _ => 0)) {
        PWrite(buf, off);
      }
    }

    /** Second section under the lock: lower the flag and take the deferred records. */
    method HandOff() returns (late: seq<Frame>)
      modifies this`copying, this`deferred
      ensures copying == None && deferred == [] && late == old(deferred)
    {
      copying := None;
      late, deferred := deferred, [];
    }

    /** The records that arrived meanwhile, in order, each under the lock by itself. */
    method ApplyLate(late: seq<Frame>)
      requires AllOk(late, replica.Length)
      modifies this`punchOk, this`deferred, this`lastSeq, this`records, this`bytes, replica
      ensures AllWellFormed(late) && State() == AppliedAll(old(State()), copying, late)
    {
      hide WellFormed, Applied, FrameOk, AppliedAll;
      AllOkWellFormed(late, replica.Length);
      AppliedNone(State(), copying);
      for k := 0 to |late|
        invariant AllWellFormed(late[..k]) && State() == AppliedAll(old(State()), copying, late[..k])
      {
        AppliedNext(old(State()), copying, late[..k], late[k]);
        assert late[..k] + [late[k]] == late[..k + 1];
        var holeMade: bool := *;
        ApplyOne(late[k], holeMade);
      }
      assert late[..|late|] == late;
    }

    /** copy_chunk when nothing else runs: the bytes the device returned are in the replica. */
    method CopyChunk(dev: seq<Byte>, off: nat, n: nat, skipZero: bool) returns (m: nat)
      requires |dev| == replica.Length && copying == None && deferred == []
      modifies this`copying, this`deferred, this`punchOk, this`lastSeq, this`records, this`bytes, replica
      ensures copying == None && deferred == []
      ensures m <= n && (off < |dev| && n > 0 ==> m > 0) && (off >= |dev| ==> m == 0) && (m > 0 ==> off + m <= |dev|)
      ensures replica[..] == if m == 0 || (skipZero && AllZero(dev[off..off + m])) then old(replica[..])
                             else Splice(old(replica[..]), off, dev[off..off + m])
    {
      FlagChunk(off, n);
      var buf := ReadDevice(dev, off, n);
      PutChunk(buf, off, skipZero);
      var late := HandOff();
      AppliedNone(State(), copying);
      ApplyLate(late);
      m := |buf|;
    }

    /**
     base_copy on a disk at rest. skipped are the bytes of the chunks it did not write; the replica becomes the
     disk if and only if it held zero at all of them, as one created sparse does.
     */
    method BaseCopy(dev: seq<Byte>) returns (ghost skipped: set<nat>)
      requires |dev| == replica.Length && copying == None && deferred == []
      modifies this`copying, this`deferred, this`punchOk, this`lastSeq, this`records, this`bytes, replica
      ensures copying == None && deferred == []
      ensures forall i | i in skipped :: i < |dev| && dev[i] == 0
      ensures forall i | 0 <= i < |dev| :: replica[i] == if i in skipped then old(replica[i]) else dev[i]
      ensures replica[..] == dev <==> forall i | i in skipped :: old(replica[i]) == 0
      ensures AllZero(old(replica[..])) ==> replica[..] == dev
    {
      hide AppliedAll;
      var off := 0;
      skipped := {};
      ghost var start := replica[..];
      while off < |dev|
        invariant off <= |dev| && copying == None && deferred == []
        invariant forall i | i in skipped :: i < off && dev[i] == 0
        invariant forall i | 0 <= i < off :: replica[i] == if i in skipped then start[i] else dev[i]
        invariant forall i | off <= i < |dev| :: replica[i] == start[i]
        decreases |dev| - off
      {
        ghost var was := replica[..];
        var m := CopyChunk(dev, off, Min(COPY_CHUNK, |dev| - off), true);
        ghost var more := if AllZero(dev[off..off + m]) then Slice(off, m) else {};
        CopiedOne(was, replica[..], dev, off, m);
        forall i | 0 <= i < off + m
          ensures replica[i] == if i in skipped + more then start[i] else dev[i]
        {
          assert replica[..][i] == replica[i] && (i < off ==> was[i] == if i in skipped then start[i] else dev[i]);
        }
        skipped := skipped + more;
        off := off + m;
      }
      EqualExactly(start, replica[..], dev, skipped);
    }

    /** recover on a disk at rest: every byte of the extents is re-read, no other byte changes. */
    method Recover(dev: seq<Byte>, extents: seq<Range>)
      requires |dev| == replica.Length && copying == None && deferred == []
      modifies this`copying, this`deferred, this`punchOk, this`lastSeq, this`records, this`bytes, replica
      ensures forall i | 0 <= i < |dev| :: replica[i] == if InPlan(extents, i) then dev[i] else old(replica[i])
    {
      hide AppliedAll;
      ghost var was := replica[..];
      for k := 0 to |extents|
        invariant copying == None && deferred == []
        invariant forall i | 0 <= i < |dev| :: replica[i] == if InPlan(extents[..k], i) then dev[i] else was[i]
      {
        var off, remaining := extents[k].lo, if extents[k].lo < extents[k].hi then extents[k].hi - extents[k].lo else 0;
        ghost var before := replica[..];
        while remaining > 0
          invariant extents[k].lo <= off && remaining >= 0 && (remaining > 0 ==> off + remaining == extents[k].hi)
          invariant remaining == 0 ==> off == if extents[k].lo < extents[k].hi then extents[k].hi else extents[k].lo
          invariant copying == None && deferred == []
          invariant forall i | 0 <= i < |dev| :: replica[i] == if extents[k].lo <= i < off then dev[i] else before[i]
          decreases remaining
        {
          ghost var now := replica[..];
          assert forall i | 0 <= i < |dev| :: now[i] == if extents[k].lo <= i < off then dev[i] else before[i];
          var m := CopyChunk(dev, off, Min(remaining, COPY_CHUNK), false);
          if m == 0 {
            assert forall i | 0 <= i < |dev| :: replica[..][i] == now[i];
            break;
          }
          assert forall i | 0 <= i < |dev| ::
              replica[..][i] == if off <= i < off + m then dev[off..off + m][i - off] else now[i];
          off := off + m;
          remaining := remaining - m;
        }
        assert forall i | 0 <= i < |dev| ::
            replica[i] == if extents[k].lo <= i < extents[k].hi then dev[i] else before[i];
        InPlanNext(extents, k);
      }
      assert extents[..|extents|] == extents;
    }
  }

  predicate InSlice(i: nat, off: nat, m: nat) {
    off <= i < off + m
  }

  function Slice(off: nat, m: nat): set<nat> {
    set i | 0 <= i < off + m && InSlice(i, off, m)
  }

  /** One slice of base_copy, byte by byte. */
  lemma CopiedOne(was: seq<Byte>, now: seq<Byte>, dev: seq<Byte>, off: nat, m: nat)
    requires |was| == |now| == |dev| && off + m <= |dev|
    requires now == if m == 0 || AllZero(dev[off..off + m]) then was else Splice(was, off, dev[off..off + m])
    ensures AllZero(dev[off..off + m]) ==> forall i | off <= i < off + m :: dev[i] == 0
    ensures forall i | 0 <= i < |dev| ::
              now[i] == if off <= i < off + m && !AllZero(dev[off..off + m]) then dev[i] else was[i]
  {
    forall i | off <= i < off + m
      ensures dev[off..off + m][i - off] == dev[i]
    {
    }
  }

  lemma EqualExactly(start: seq<Byte>, now: seq<Byte>, dev: seq<Byte>, skipped: set<nat>)
    requires |start| == |now| == |dev|
    requires forall i | i in skipped :: i < |dev| && dev[i] == 0
    requires forall i | 0 <= i < |dev| :: now[i] == if i in skipped then start[i] else dev[i]
    ensures now == dev <==> forall i | i in skipped :: start[i] == 0
    ensures AllZero(start) ==> now == dev
  {
    if now == dev {
      forall i | i in skipped
        ensures start[i] == 0
      {
        assert now[i] == dev[i];
      }
    }
  }

  lemma InPlanNext(plan: seq<Range>, k: nat)
    requires k < |plan|
    ensures forall i: nat :: InPlan(plan[..k + 1], i) <==> InPlan(plan[..k], i) || plan[k].lo <= i < plan[k].hi
  {
    var a, b := plan[..k], plan[..k + 1];
    assert forall j | 0 <= j < k :: a[j] == b[j];
    assert b[k] == plan[k];
    forall i: nat
      ensures InPlan(b, i) <==> InPlan(a, i) || plan[k].lo <= i < plan[k].hi
    {
      if InPlan(a, i) {
        var j :| 0 <= j < |a| && a[j].lo <= i < a[j].hi;
        assert b[j].lo <= i < b[j].hi;
      }
    }
  }

  lemma FedNothing(frames: seq<Frame>)
    ensures Fed(Feed([], []), frames, 0) && (|Concat(frames)| == 0 ==> frames == [])
  {
    assert frames[..0] == [] && Concat([]) == [];
    assert OffsetAt(frames, 0) == 0;
    assert Concat(frames)[0..0] == [];
    ParkedNothing(frames);
  }

  /** The records a buffer completes are records of the stream. */
  lemma FeedOk(s: Feed, frames: seq<Frame>, p: nat, data: seq<Byte>, size: nat)
    requires AllOk(frames, size) && AllWellFormed(frames) && Fed(s, frames, p)
    requires p + |data| <= |Concat(frames)| && data == Concat(frames)[p..p + |data|]
    ensures Parse(s.tail + data).end == Partial && AllOk(Parse(s.tail + data).frames, size)
  {
    hide Concat, WellFormed, Parse, OffsetAt, CompleteIn, FrameOk;
    var k :| 0 <= k <= |frames| && s.frames == frames[..k] && OffsetAt(frames, k) <= p
             && s.tail == Concat(frames)[OffsetAt(frames, k)..p];
    SliceJoin(Concat(frames), OffsetAt(frames, k), p, p + |data|);
    var j := FeedFrom(frames, k, p + |data|);
  }

  lemma {:induction false} AppliedConcat(g: Guarded, copying: Option<Range>, a: seq<Frame>, b: seq<Frame>)
    requires AllWellFormed(a) && AllWellFormed(b)
    ensures AllWellFormed(a + b)
    ensures AppliedAll(g, copying, a + b) == AppliedAll(AppliedAll(g, copying, a), copying, b)
    decreases |b|
  {
    hide WellFormed, Applied;
    if b == [] {
      assert a + b == a;
    } else {
      var n := |b| - 1;
      FrontWellFormed(b, n);
      AppliedConcat(g, copying, a, b[..n]);
      AppliedNext(g, copying, a + b[..n], b[n]);
      assert a + b[..n] + [b[n]] == a + b;
    }
  }

  /** A pass over buf has reached off and yielded the records done. */
  ghost predicate Progress(buf: seq<Byte>, off: nat, done: seq<Frame>) {
    var p := Parse(buf);
    && off <= |buf| && |done| <= |p.frames| && done == p.frames[..|done|]
    && Parse(buf[off..]) == p.(frames := p.frames[|done|..])
  }

  lemma ProgressStart(buf: seq<Byte>)
    ensures Progress(buf, 0, [])
  {
    assert buf[0..] == buf;
  }

  /** One turn of the loop: it ends with every record yielded, or moves over the next record. */
  lemma ProgressStep(buf: seq<Byte>, off: nat, done: seq<Frame>)
    requires Progress(buf, off, done) && Parse(buf).end == Partial
    ensures |buf| - off < REC_SIZE || off + DecodeHeader(buf[off..]).recLen > |buf| ==>
              done == Parse(buf).frames && buf[off..] == Parse(buf).tail
    ensures |buf| - off >= REC_SIZE && off + DecodeHeader(buf[off..]).recLen <= |buf| ==>
              var h := DecodeHeader(buf[off..]);
              && REC_SIZE <= h.recLen && |done| < |Parse(buf).frames|
              && Parse(buf).frames[|done|] == Frame(h, buf[off + REC_SIZE..off + h.recLen])
              && FrameBytes(Parse(buf).frames[|done|]) == buf[off..off + h.recLen]
              && Progress(buf, off + h.recLen, done + [Parse(buf).frames[|done|]])
  {
    hide DecodeHeader, Parse, EncodeHeader;
    ParseStep(buf[off..]);
    if |buf| - off >= REC_SIZE && off + DecodeHeader(buf[off..]).recLen <= |buf| {
      var h := DecodeHeader(buf[off..]);
      SliceOfRest(buf, off, h.recLen);
      DecodeEncode(buf[off..]);
      assert buf[off..][..REC_SIZE] + buf[off + REC_SIZE..off + h.recLen] == buf[off..off + h.recLen];
    }
  }

  lemma GapsNone(seen: Option<nat>)
    ensures GapsQueued([], seen) == [] && LastGap([], seen) == seen
  {
  }

  lemma AppliedNone(g: Guarded, copying: Option<Range>)
    ensures AppliedAll(g, copying, []) == g
  {
  }

  lemma GapsNext(done: seq<Frame>, f: Frame, seen: Option<nat>)
    ensures var last := LastGap(done, seen);
            var gap := HasGap(f) && last != Some(f.hdr.seqno);
            && GapsQueued(done + [f], seen) == GapsQueued(done, seen) + (if gap then [f.hdr.seqno] else [])
            && LastGap(done + [f], seen) == if gap then Some(f.hdr.seqno) else last
  {
    hide HasGap;
    GapsQueuedSplit(done, [f], seen);
    assert [f][1..] == [];
    GapsNone(LastGap(done, seen));
    GapsNone(Some(f.hdr.seqno));
  }

  /** pending.bin after these records have been parked. */
  function Parked(file: Option<seq<Byte>>, frames: seq<Frame>): Option<seq<Byte>> {
    if frames == [] then file else Some((if file.Some? then file.value else []) + Concat(frames))
  }

  /** pending.bin when it holds these records; it exists only if there are any. */
  function FileOf(frames: seq<Frame>): Option<seq<Byte>> {
    if frames == [] then None else Some(Concat(frames))
  }

  /** Parking keeps pending.bin a concatenation of whole records. */
  lemma ParkedIsFile(parked: seq<Frame>, frames: seq<Frame>)
    ensures Parked(FileOf(parked), frames) == FileOf(parked + frames)
  {
    hide Concat;
    ConcatAppend(parked, frames);
    if parked == [] {
      assert [] + frames == frames;
      ConcatEmpty();
    } else if frames == [] {
      assert parked + [] == parked;
    }
  }

  lemma ConcatEmpty()
    ensures Concat([]) == []
  {
  }

  lemma FileHolds(frames: seq<Frame>)
    ensures FileOf(frames).Some? ==> FileOf(frames).value == Concat(frames) && frames != []
  {
  }

  lemma ParkedNothing(frames: seq<Frame>)
    ensures Concat(frames) == [] <==> frames == []
  {
  }

  lemma AllOkWellFormed(frames: seq<Frame>, size: nat)
    requires AllOk(frames, size)
    ensures AllWellFormed(frames)
  {
  }

  /** One turn of iter_records on the rest of a buffer. */
  lemma ParseStep(rest: seq<Byte>)
    requires Parse(rest).end == Partial
    ensures |rest| < REC_SIZE ==> Parse(rest) == Parsed([], rest, Partial)
    ensures |rest| >= REC_SIZE && DecodeHeader(rest).recLen > |rest| ==> Parse(rest) == Parsed([], rest, Partial)
    ensures |rest| >= REC_SIZE && DecodeHeader(rest).recLen <= |rest| ==>
              var h := DecodeHeader(rest);
              && REC_SIZE <= h.recLen
              && Parse(rest).frames == [Frame(h, rest[REC_SIZE..h.recLen])] + Parse(rest[h.recLen..]).frames
              && Parse(rest[h.recLen..]).tail == Parse(rest).tail && Parse(rest[h.recLen..]).end == Partial
              && rest[..h.recLen] == rest[..REC_SIZE] + rest[REC_SIZE..h.recLen]
  {
    hide DecodeHeader;
  }

  lemma SliceOfRest(buf: seq<Byte>, off: nat, n: nat)
    requires off + n <= |buf| && n >= REC_SIZE
    ensures buf[off..][n..] == buf[off + n..]
    ensures buf[off..][REC_SIZE..n] == buf[off + REC_SIZE..off + n]
    ensures buf[off..][..n] == buf[off..off + n]
  {
  }

  lemma ConcatOne(frames: seq<Frame>, f: Frame)
    ensures Concat(frames + [f]) == Concat(frames) + FrameBytes(f)
  {
    hide FrameBytes;
    ConcatAppend(frames, [f]);
    assert Concat([f]) == FrameBytes(f) + Concat([]);
  }

  /* ------------------------------------------------------------------ */
  /* the object and the transition system                               */

  /** The daemon's guarded state, its flag and the records in pending.bin are those of a protocol state. */
  ghost predicate Represents(g: Guarded, copying: Option<Range>, parked: seq<Frame>, s: State) {
    && Protocol.Wf(s) && AllWellFormed(g.deferred) && AllWellFormed(parked)
    && g.replica == s.replica && OpsOf(g.deferred) == s.deferred && OpsOf(parked) == s.parked
    && copying == if s.copier.Copying? then Some(Range(s.copier.lo, s.copier.hi)) else None
  }

  /** apply_one on the next record is the protocol's Deliver step. */
  lemma ApplyOneIsDeliver(g: Guarded, copying: Option<Range>, parked: seq<Frame>, s: State, f: Frame)
    requires Represents(g, copying, parked, s) && Enabled(s, Deliver)
    requires WellFormed(f) && OpOf(f) == s.dev.subs[s.next].op
    ensures Represents(Applied(g, copying, f), copying, parked, Do(s, Deliver))
  {
    hide WellFormed, Acknowledged, Apply, OpOf;
    assert OpsOf(g.deferred + [f]) == OpsOf(g.deferred) + [OpOf(f)];
  }

  /** consume under the rebuild lock is the protocol's Park step. */
  lemma ParkIsPark(g: Guarded, copying: Option<Range>, parked: seq<Frame>, s: State, f: Frame)
    requires Represents(g, copying, parked, s) && Enabled(s, Park)
    requires WellFormed(f) && OpOf(f) == s.dev.subs[s.next].op
    ensures Represents(g, copying, parked + [f], Do(s, Park))
  {
    hide WellFormed, Acknowledged, Apply, OpOf;
    assert OpsOf(parked + [f]) == OpsOf(parked) + [OpOf(f)];
  }

  /** apply_one on the next parked record is the protocol's Unpark step. */
  lemma ApplyPendingIsUnpark(g: Guarded, copying: Option<Range>, parked: seq<Frame>, s: State)
    requires Represents(g, copying, parked, s) && Enabled(s, Unpark)
    ensures parked != [] && Represents(Applied(g, copying, parked[0]), copying, parked[1..], Do(s, Unpark))
  {
    hide WellFormed, Acknowledged, Apply, OpOf;
    assert OpsOf(g.deferred + [parked[0]]) == OpsOf(g.deferred) + [OpOf(parked[0])];
    assert OpsOf(parked[1..]) == OpsOf(parked)[1..];
  }
}
