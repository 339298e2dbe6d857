/**
 cdp-apply: replaying a captured stream onto an image, stopping at a sequence number, at a
 gap or at a failed record, and resuming from one.
 */
module Replay {
  import opened Records
  import opened Bits
  import opened Images
  import opened Ring
  import opened Stream

  predicate HasError(f: Frame) {
    Bit(f.hdr.flags, F_ERROR_BIT)
  }

  /**
   The variables of the replay loop. zeroLen is the size of the zero buffer, absent while 0; log is the
   list of records that passed the checks and were replayed; gapAt is the number printed with exit 3.
   */
  datatype Run = Run(img: seq<Byte>, haveSeq: bool, expectSeq: nat, zeroLen: nat, rc: nat, gapAt: int,
                     log: seq<Frame>, stopped: bool)

  function Start(img: seq<Byte>): Run {
    Run(img, false, 0, 0, 0, -1, [], false)
  }

  /* ------------------------------------------------------------------ */
  /* the target as a file                                               */

  /** A file of at least n bytes: what lies past its old end reads as zeros. */
  function Grown(img: seq<Byte>, n: nat): (r: seq<Byte>)
    ensures |r| == if |img| < n then n else |img|
    ensures forall i | 0 <= i < |r| :: r[i] == if i < |img| then img[i] else 0
  {
    if |img| < n then img + seq(n - |img|, _ => 0) else img
  }

  /** pwrite of data at off. Writing nothing does not grow the file. */
  function Written(img: seq<Byte>, off: nat, data: seq<Byte>): (r: seq<Byte>)
    ensures |r| == if data != [] && |img| < off + |data| then off + |data| else |img|
    ensures forall i | 0 <= i < |r| ::
              r[i] == if off <= i < off + |data| then data[i - off] else if i < |img| then img[i] else 0
  {
    if data == [] then img else Splice(Grown(img, off + |data|), off, data)
  }

  /** How far a record reaches. */
  function Reach(op: Op): nat {
    if Images.Start(op) < End(op) then End(op) else 0
  }

  /** A record carried out on a file. */
  function ApplyTo(img: seq<Byte>, op: Op): seq<Byte> {
    Apply(Grown(img, Reach(op)), op)
  }

  function FoldTo(img: seq<Byte>, ops: seq<Op>): seq<Byte> {
    if ops == [] then img else ApplyTo(FoldTo(img, ops[..|ops| - 1]), ops[|ops| - 1])
  }

  function FarReach(n: nat, ops: seq<Op>): (r: nat)
    ensures r >= n
  {
    if ops == [] then n
    else
      var r := FarReach(n, ops[..|ops| - 1]);
      if r < Reach(ops[|ops| - 1]) then Reach(ops[|ops| - 1]) else r
  }

  /** Each byte of the file, whether it was there before or not. */
  lemma {:induction false} FoldToAt(img: seq<Byte>, ops: seq<Op>)
    ensures |FoldTo(img, ops)| == FarReach(|img|, ops)
    ensures forall i | 0 <= i < |FoldTo(img, ops)| ::
              FoldTo(img, ops)[i] == Over(if i < |img| then img[i] else 0, ops, i)
  {
    if ops != [] {
      var n := |ops| - 1;
      FoldToAt(img, ops[..n]);
      var r := FoldTo(img, ops[..n]);
      forall i | 0 <= i < |FoldTo(img, ops)|
        ensures FoldTo(img, ops)[i] == Over(if i < |img| then img[i] else 0, ops, i)
      {
        var x := if i < |img| then img[i] else 0;
        if i >= |r| {
          NotReached(|img|, ops[..n], i);
          OverUntouched(x, ops[..n], i);
        }
        assert Over(x, ops[..n], i) == if i < |r| then r[i] else 0;
        assert Over(x, ops, i) == if Touches(ops[n], i) then ValueAt(ops[n], i) else Over(x, ops[..n], i);
      }
    }
  }

  lemma {:induction false} NotReached(n: nat, ops: seq<Op>, i: nat)
    requires i >= FarReach(n, ops)
    ensures !TouchedBy(ops, i)
  {
    if ops != [] {
      NotReached(n, ops[..|ops| - 1], i);
      assert forall k | 0 <= k < |ops| - 1 :: ops[k] == ops[..|ops| - 1][k];
    }
  }

  /** On a target that holds all the records it is the fold that the daemon makes of its replica. */
  lemma {:induction false} FoldToIsFold(img: seq<Byte>, ops: seq<Op>)
    requires FarReach(|img|, ops) == |img|
    ensures FoldTo(img, ops) == Fold(img, ops)
  {
    FoldToAt(img, ops);
    forall i | 0 <= i < |img|
      ensures Fold(img, ops)[i] == FoldTo(img, ops)[i]
    {
      FoldAt(img, ops, i);
    }
  }

  lemma {:induction false} FoldToConcat(img: seq<Byte>, a: seq<Op>, b: seq<Op>)
    ensures FoldTo(img, a + b) == FoldTo(FoldTo(img, a), b)
    decreases |b|
  {
    if b == [] {
      assert a + b == a;
    } else {
      var n := |b| - 1;
      assert (a + b)[..|a + b| - 1] == a + b[..n];
      FoldToConcat(img, a, b[..n]);
    }
  }

  /* ------------------------------------------------------------------ */
  /* the loop as a function                                             */

  /** ZERO or DISCARD of no bytes before any zero buffer exists: the tool reports a failed write. */
  predicate ZeroFails(r: Run, f: Frame) {
    (f.hdr.rtype == REC_ZERO || f.hdr.rtype == REC_DISCARD) && f.hdr.len == 0 && r.zeroLen == 0
  }

  /** The checks made on a header that is not skipped: a hole in the numbers, a gap, a failed bio. */
  predicate Refused(r: Run, h: Header, fromSeq: int) {
    (r.haveSeq && h.seqno != r.expectSeq) || (Bit(h.flags, F_GAP_BIT) && h.seqno != fromSeq) || Bit(h.flags, F_ERROR_BIT)
  }

  function Refusal(r: Run, h: Header, fromSeq: int): Run {
    var s := h.seqno;
    if r.haveSeq && s != r.expectSeq then r.(rc := 1, stopped := true)
    else if Bit(h.flags, F_GAP_BIT) && s != fromSeq then r.(rc := 3, gapAt := s, stopped := true)
    else r.(rc := 1, stopped := true)
  }

  /** One record: skipped, refused, or replayed. */
  function Step(r: Run, f: Frame, fromSeq: int, stopSeq: int): Run {
    var s := f.hdr.seqno;
    if s < fromSeq then r
    else if Refused(r, f.hdr, fromSeq) then Refusal(r, f.hdr, fromSeq)
    else
      var clears := f.hdr.rtype == REC_ZERO || f.hdr.rtype == REC_DISCARD;
      Run(ApplyTo(r.img, OpOf(f)), true, s + 1, if clears && f.hdr.len > r.zeroLen then f.hdr.len else r.zeroLen,
          if ZeroFails(r, f) then 1 else r.rc, r.gapAt, r.log + [f],
          ZeroFails(r, f) || (stopSeq >= 0 && s >= stopSeq))
  }

  /** The whole loop over a list of records. */
  function Runs(r: Run, frames: seq<Frame>, fromSeq: int, stopSeq: int): Run
    decreases |frames|
  {
    if r.stopped || frames == [] then r else Runs(Step(r, frames[0], fromSeq, stopSeq), frames[1..], fromSeq, stopSeq)
  }

  /** What may follow the last whole record of a stream: nothing, a cut record, or bytes that are no record. */
  predicate Torn(rest: seq<Byte>) {
    |rest| < REC_SIZE
    || DecodeHeader(rest).magic != REC_MAGIC
    || (DecodeHeader(rest).recLen >= REC_SIZE && DecodeHeader(rest).recLen > |rest|)
  }

  /**
   The loop when it gets to such bytes. Too few for a header end it quietly. So does a cut record below the
   resume point: seeking past the end of the file succeeds, and the next header is not there.
   */
  function AtTorn(r: Run, rest: seq<Byte>, fromSeq: int): Run {
    if r.stopped || |rest| < REC_SIZE then r
    else
      var h := DecodeHeader(rest);
      if h.magic != REC_MAGIC then r.(rc := 1, stopped := true)
      else if h.seqno < fromSeq then r
      else if Refused(r, h, fromSeq) then Refusal(r, h, fromSeq)
      else r.(haveSeq := true, expectSeq := h.seqno + 1, rc := 1, stopped := true)
  }

  /* ------------------------------------------------------------------ */
  /* the loop itself                                                    */

  /** The file that is replayed onto. */
  class ImageFile {
    var bytes: seq<Byte>

    constructor (img: seq<Byte>)
      ensures bytes == img
    {
      bytes := img;
    }

    /** pwrite, which may take only the front of what it is given. */
    method PWrite(data: seq<Byte>, off: nat) returns (w: nat)
      requires data != []
      modifies this
      ensures 0 < w <= |data| && bytes == Written(old(bytes), off, data[..w])
    {
      w :| 0 < w <= |data|;
      bytes := Written(bytes, off, data[..w]);
    }
  }

  /** Two writes that follow each other are one. */
  lemma WriteOn(img: seq<Byte>, off: nat, data: seq<Byte>, c: nat, w: nat)
    requires c + w <= |data|
    ensures Written(Written(img, off, data[..c]), off + c, data[c..][..w]) == Written(img, off, data[..c + w])
  {
    hide Written;
    var a, b := Written(Written(img, off, data[..c]), off + c, data[c..][..w]), Written(img, off, data[..c + w]);
    forall i | 0 <= i < |a|
      ensures a[i] == b[i]
    {
      if off <= i < off + c {
        assert data[..c][i - off] == data[..c + w][i - off];
      } else if off + c <= i < off + c + w {
        assert data[c..][..w][i - off - c] == data[..c + w][i - off];
      }
    }
  }

  /** write_all: pwrite until everything is written, in whatever pieces it takes. */
  method WriteAll(target: ImageFile, buf: seq<Byte>, off: nat)
    modifies target
    ensures target.bytes == Written(old(target.bytes), off, buf)
  {
    hide Written;
    var c, n, at := 0, |buf|, off;
    WriteNothing(target.bytes, off, buf);
    while n > 0
      invariant 0 <= c <= |buf| && n == |buf| - c && at == off + c
      invariant target.bytes == Written(old(target.bytes), off, buf[..c])
    {
      WriteOnAny(old(target.bytes), off, buf, c);
      var w := target.PWrite(buf[c..], at);
      c, n, at := c + w, n - w, at + w;
    }
    assert buf[..c] == buf;
  }

  lemma WriteNothing(img: seq<Byte>, off: nat, buf: seq<Byte>)
    ensures Written(img, off, buf[..0]) == img
  {
  }

  lemma WriteOnAny(img: seq<Byte>, off: nat, data: seq<Byte>, c: nat)
    requires c <= |data|
    ensures forall w: nat | w <= |data| - c ::
              Written(Written(img, off, data[..c]), off + c, data[c..][..w]) == Written(img, off, data[..c + w])
  {
    hide Written;
    forall w: nat | w <= |data| - c
      ensures Written(Written(img, off, data[..c]), off + c, data[c..][..w]) == Written(img, off, data[..c + w])
    {
      WriteOn(img, off, data, c, w);
    }
  }

  /** main of cdp-apply on a stream of records that may be torn at the end. */
  method CdpApply(stream: seq<Byte>, fromSeq: int, stopSeq: int, target: ImageFile,
                  ghost frames: seq<Frame>, ghost rest: seq<Byte>)
    returns (rc: nat, ghost result: Run)
    requires stream == Concat(frames) + rest && AllWellFormed(frames) && Torn(rest)
    modifies target
    ensures result == AtTorn(Runs(Start(old(target.bytes)), frames, fromSeq, stopSeq), rest, fromSeq)
    ensures rc == result.rc && target.bytes == result.img
  {
    hide DecodeHeader, EncodeHeader, WellFormed, Bit, OpOf, ApplyTo, Concat, FrameBytes, Runs, Written;
    var pos, haveSeq, expectSeq, zeroLen := 0, false, 0, 0;
    rc, result := 0, Start(target.bytes);
    ghost var k := 0;
    assert frames[0..] == frames && stream[0..] == stream;
    while true
      invariant k <= |frames| && 0 <= pos <= |stream| && stream[pos..] == Concat(frames[k..]) + rest
      invariant AllWellFormed(frames) && AllWellFormed(frames[k..])
      invariant Runs(Start(old(target.bytes)), frames, fromSeq, stopSeq) == Runs(result, frames[k..], fromSeq, stopSeq)
      invariant !result.stopped && rc == result.rc == 0 && target.bytes == result.img
      invariant (haveSeq, expectSeq, zeroLen) == (result.haveSeq, result.expectSeq, result.zeroLen)
      decreases |frames| - k
    {
      NextRecord(frames, k, rest);
      if |stream| - pos < REC_SIZE {
        RunsOver(result, frames[k..], fromSeq, stopSeq);
        break;
      }
      var r := DecodeHeader(stream[pos..]);
      if r.magic != REC_MAGIC {
        RunsOver(result, frames[k..], fromSeq, stopSeq);
        result := AtTorn(result, rest, fromSeq);
        rc := 1;
        break;
      }
      var payload := r.recLen - REC_SIZE;
      var body := pos + REC_SIZE;
      ghost var was := result;
      if k == |frames| {
        RunsOver(result, frames[k..], fromSeq, stopSeq);
        result := AtTorn(result, rest, fromSeq);
      } else {
        RunsStep(result, frames, k, fromSeq, stopSeq);
        result := Step(result, frames[k], fromSeq, stopSeq);
        if result.stopped {
          RunsOver(result, frames[k + 1..], fromSeq, stopSeq);
        }
        SliceShift(stream, pos, REC_SIZE, r.recLen);
        assert stream[pos..][r.recLen..] == stream[body + payload..];
      }
      if r.seqno < fromSeq {
        // past the end of the file there is no further header
        if body + payload > |stream| {
          break;
        }
        pos, k := body + payload, k + 1;
        continue;
      }
      if haveSeq && r.seqno != expectSeq {
        rc := 1;
        break;
      }
      if Bit(r.flags, F_GAP_BIT) && r.seqno != fromSeq {
        rc := 3;
        break;
      }
      if Bit(r.flags, F_ERROR_BIT) {
        rc := 1;
        break;
      }
      haveSeq, expectSeq := true, r.seqno + 1;
      if body + payload > |stream| {
        rc := 1;
        break;
      }
      var buf := stream[body..body + payload];
      assert buf == frames[k].body;
      ApplyIsWrite(frames[k], target.bytes);
      if r.rtype == REC_WRITE {
        WriteAll(target, buf[..r.len], r.sector * SECTOR);
      } else if r.rtype == REC_ZERO || r.rtype == REC_DISCARD {
        if r.len > zeroLen {
          zeroLen := r.len;
        }
        if zeroLen == 0 {
          rc := 1;
        } else {
          WriteAll(target, seq(r.len, _ => 0), r.sector * SECTOR);
        }
      }
      pos, k := body + payload, k + 1;
      if rc != 0 {
        break;
      }
      if stopSeq >= 0 && r.seqno >= stopSeq {
        break;
      }
    }
  }

  lemma WriteIsWritten(img: seq<Byte>, off: nat, data: seq<Byte>)
    ensures ApplyTo(img, Write(off, data)) == Written(img, off, data)
  {
    hide Written, Grown;
    var a, b := ApplyTo(img, Write(off, data)), Written(img, off, data);
    assert |a| == |b|;
    assert forall i | 0 <= i < |a| :: a[i] == b[i];
  }

  lemma ClearIsWritten(img: seq<Byte>, off: nat, len: nat)
    ensures ApplyTo(img, Clear(off, len)) == Written(img, off, seq(len, _ => 0))
  {
    hide Written, Grown;
    var a, b := ApplyTo(img, Clear(off, len)), Written(img, off, seq(len, _ => 0));
    assert |a| == |b|;
    assert forall i | 0 <= i < |a| :: a[i] == b[i];
  }

  lemma NothingToApply(img: seq<Byte>, op: Op)
    requires Images.Start(op) == End(op)
    ensures ApplyTo(img, op) == img
  {
  }

  /** The effect of a record as the write that replays it. */
  lemma ApplyIsWrite(f: Frame, img: seq<Byte>)
    requires WellFormed(f)
    ensures f.hdr.rtype == REC_WRITE ==>
              f.hdr.len <= |f.body| && ApplyTo(img, OpOf(f)) == Written(img, f.hdr.sector * SECTOR, f.body[..f.hdr.len])
    ensures f.hdr.rtype == REC_ZERO || f.hdr.rtype == REC_DISCARD ==>
              ApplyTo(img, OpOf(f)) == Written(img, f.hdr.sector * SECTOR, seq(f.hdr.len, _ => 0))
    ensures f.hdr.rtype !in {REC_WRITE, REC_ZERO, REC_DISCARD} || f.hdr.len == 0 ==> ApplyTo(img, OpOf(f)) == img
  {
    hide HeaderFits, ApplyTo, Written;
    if f.hdr.rtype == REC_WRITE {
      WriteIsWritten(img, f.hdr.sector * SECTOR, f.body[..f.hdr.len]);
    } else if f.hdr.rtype == REC_ZERO || f.hdr.rtype == REC_DISCARD {
      ClearIsWritten(img, f.hdr.sector * SECTOR, f.hdr.len);
    }
    if f.hdr.rtype !in {REC_WRITE, REC_ZERO, REC_DISCARD} || f.hdr.len == 0 {
      NothingToApply(img, OpOf(f));
    }
  }

  /** The stream from record k on: record k followed by the rest, or the torn end. */
  lemma NextRecord(frames: seq<Frame>, k: nat, torn: seq<Byte>)
    requires AllWellFormed(frames) && k <= |frames|
    ensures k == |frames| ==> Concat(frames[k..]) + torn == torn
    ensures k < |frames| ==>
              var rest, f := Concat(frames[k..]) + torn, frames[k];
              && REC_SIZE <= f.hdr.recLen <= |rest|
              && DecodeHeader(rest) == f.hdr
              && rest[REC_SIZE..f.hdr.recLen] == f.body
              && rest[f.hdr.recLen..] == Concat(frames[k + 1..]) + torn
              && WellFormed(f) && AllWellFormed(frames[k + 1..]) && f.hdr.magic == REC_MAGIC
              && f.hdr.recLen == REC_SIZE + |f.body|
              && (f.hdr.rtype == REC_WRITE ==> f.hdr.len <= |f.body|)
  {
    hide DecodeHeader, FrameBytes, HeaderFits;
    if k < |frames| {
      FrameDecodes(frames[k], Concat(frames[k + 1..]) + torn);
      assert frames[k..][1..] == frames[k + 1..];
      assert Concat(frames[k..]) + torn == FrameBytes(frames[k]) + (Concat(frames[k + 1..]) + torn);
    }
  }

  lemma RunsStep(r: Run, frames: seq<Frame>, k: nat, fromSeq: int, stopSeq: int)
    requires k < |frames| && !r.stopped
    ensures Runs(r, frames[k..], fromSeq, stopSeq)
            == Runs(Step(r, frames[k], fromSeq, stopSeq), frames[k + 1..], fromSeq, stopSeq)
  {
    hide WellFormed, Step;
    assert frames[k..][1..] == frames[k + 1..];
  }

  lemma RunsOver(r: Run, frames: seq<Frame>, fromSeq: int, stopSeq: int)
    requires r.stopped || frames == []
    ensures Runs(r, frames, fromSeq, stopSeq) == r
  {
  }

  /* ------------------------------------------------------------------ */
  /* contiguous streams                                                 */

  /** A stream as the kernel delivers it when no bio failed: consecutive numbers. */
  ghost predicate Consecutive(frames: seq<Frame>) {
    && AllWellFormed(frames)
    && forall k | 0 <= k < |frames| :: frames[k].hdr.seqno == frames[0].hdr.seqno + k && !HasError(frames[k])
  }

  /** ZERO and DISCARD records, of some bytes or of none. */
  predicate Clears(f: Frame) {
    f.hdr.rtype in {REC_ZERO, REC_DISCARD} && f.hdr.len > 0
  }

  predicate ClearsNothing(f: Frame) {
    f.hdr.rtype in {REC_ZERO, REC_DISCARD} && f.hdr.len == 0
  }

  /** Such a stream without empty clears. */
  ghost predicate Sound(frames: seq<Frame>) {
    Consecutive(frames) && forall k | 0 <= k < |frames| :: !ClearsNothing(frames[k])
  }

  predicate StopsAtGap(f: Frame, fromSeq: int) {
    HasGap(f) && f.hdr.seqno != fromSeq
  }

  /** The first record from i on at which the replay exits 3, or the end. */
  function NextGap(frames: seq<Frame>, i: nat, fromSeq: int): (j: nat)
    requires i <= |frames|
    ensures i <= j <= |frames|
    ensures j < |frames| ==> StopsAtGap(frames[j], fromSeq)
    ensures forall k | i <= k < j :: !StopsAtGap(frames[k], fromSeq)
    decreases |frames| - i
  {
    if i == |frames| || StopsAtGap(frames[i], fromSeq) then i else NextGap(frames, i + 1, fromSeq)
  }

  lemma NumberAt(frames: seq<Frame>, i: nat)
    requires Consecutive(frames) && i < |frames|
    ensures WellFormed(frames[i]) && frames[i].hdr.seqno == frames[0].hdr.seqno + i && !HasError(frames[i])
  {
    hide WellFormed, HasError;
  }

  lemma SoundAt(frames: seq<Frame>, i: nat)
    requires Sound(frames) && i < |frames|
    ensures WellFormed(frames[i]) && frames[i].hdr.seqno == frames[0].hdr.seqno + i && !HasError(frames[i])
    ensures forall r: Run :: !ZeroFails(r, frames[i])
  {
    hide WellFormed, HasError;
  }

  lemma OpsNext(frames: seq<Frame>, i: nat, j: nat)
    requires i <= j <= |frames|
    ensures j < |frames| ==> OpsOf(frames[i..j + 1]) == OpsOf(frames[i..j]) + [OpOf(frames[j])]
  {
    hide OpOf;
    if j < |frames| {
      assert frames[i..j + 1] == frames[i..j] + [frames[j]];
    }
  }

  lemma FoldNext(img: seq<Byte>, ops: seq<Op>, op: Op)
    ensures FoldTo(img, ops + [op]) == ApplyTo(FoldTo(img, ops), op)
  {
    assert (ops + [op])[..|ops|] == ops;
  }

  /** In the middle of a replay: records i0 to i have been replayed since the run started at image img. */
  ghost predicate Replayed(r: Run, frames: seq<Frame>, img: seq<Byte>, i0: nat, i: nat)
    requires i0 <= i <= |frames|
  {
    && r.log == frames[i0..i]
    && r.img == FoldTo(img, OpsOf(frames[i0..i]))
    && !r.stopped && r.rc == 0 && r.gapAt == -1
    && (r.haveSeq <==> i0 < i)
    && (r.haveSeq ==> r.expectSeq == frames[0].hdr.seqno + i)
  }

  /** A record that is neither skipped, nor a gap to stop at, nor a number to stop after is replayed. */
  lemma StepReplays(r: Run, frames: seq<Frame>, img: seq<Byte>, i0: nat, i: nat, fromSeq: int, stopSeq: int)
    requires Consecutive(frames) && i0 <= i < |frames| && Replayed(r, frames, img, i0, i) && !ZeroFails(r, frames[i])
    requires frames[i].hdr.seqno >= fromSeq && !StopsAtGap(frames[i], fromSeq)
    ensures var r' := Step(r, frames[i], fromSeq, stopSeq);
            && r'.stopped == (stopSeq >= 0 && frames[i].hdr.seqno >= stopSeq)
            && Replayed(r'.(stopped := false), frames, img, i0, i + 1)
  {
    hide WellFormed, Bit, OpOf, ApplyTo, FoldTo, OpsOf;
    NumberAt(frames, i);
    OpsNext(frames, i0, i);
    FoldNext(img, OpsOf(frames[i0..i]), OpOf(frames[i]));
    assert frames[i0..i + 1] == frames[i0..i] + [frames[i]];
  }

  /** From record i on, a run replays everything up to the next gap and reports it, or ends with 0. */
  lemma {:induction false} RunsToGap(r: Run, frames: seq<Frame>, img: seq<Byte>, i0: nat, i: nat, fromSeq: int)
    requires Sound(frames) && i0 <= i <= |frames| && Replayed(r, frames, img, i0, i)
    requires forall k | i <= k < |frames| :: frames[k].hdr.seqno >= fromSeq
    ensures var j, end := NextGap(frames, i, fromSeq), Runs(r, frames[i..], fromSeq, -1);
            && end.rc == (if j < |frames| then 3 else 0)
            && end.gapAt == (if j < |frames| then frames[j].hdr.seqno else -1)
            && Replayed(end.(stopped := false, rc := 0, gapAt := -1), frames, img, i0, j)
            && (end.stopped <==> j < |frames|)
    decreases |frames| - i
  {
    hide WellFormed, StopsAtGap, OpsOf, FoldTo, Step;
    assert frames[i..] == frames[i..|frames|];
    if i < |frames| {
      RunsStep(r, frames, i, fromSeq, -1);
      if StopsAtGap(frames[i], fromSeq) {
        StepStops(r, frames, img, i0, i, fromSeq);
        RunsOver(Step(r, frames[i], fromSeq, -1), frames[i + 1..], fromSeq, -1);
      } else {
        StepReplays(r, frames, img, i0, i, fromSeq, -1);
        RunsToGap(Step(r, frames[i], fromSeq, -1), frames, img, i0, i + 1, fromSeq);
      }
    }
  }

  lemma StepStops(r: Run, frames: seq<Frame>, img: seq<Byte>, i0: nat, i: nat, fromSeq: int)
    requires Sound(frames) && i0 <= i < |frames| && Replayed(r, frames, img, i0, i)
    requires frames[i].hdr.seqno >= fromSeq && StopsAtGap(frames[i], fromSeq)
    ensures Step(r, frames[i], fromSeq, -1) == r.(rc := 3, gapAt := frames[i].hdr.seqno, stopped := true)
  {
    hide WellFormed, OpOf, ApplyTo;
    SoundAt(frames, i);
  }

  /** Records below the resume point are passed over. */
  lemma {:induction false} RunsSkip(r: Run, frames: seq<Frame>, i: nat, j: nat, fromSeq: int, stopSeq: int)
    requires i <= j <= |frames| && !r.stopped
    requires forall k | i <= k < j :: frames[k].hdr.seqno < fromSeq
    ensures Runs(r, frames[i..], fromSeq, stopSeq) == Runs(r, frames[j..], fromSeq, stopSeq)
    decreases j - i
  {
    hide WellFormed, OpOf, ApplyTo;
    assert frames[i..] == frames[i..|frames|] && frames[j..] == frames[j..|frames|];
    if i < j {
      RunsStep(r, frames, i, fromSeq, stopSeq);
      RunsSkip(r, frames, i + 1, j, fromSeq, stopSeq);
    }
  }

  /** A run started with -f at the number of record i, or without -f at all when i is 0. */
  ghost predicate StartsAt(frames: seq<Frame>, i: nat, fromSeq: int) {
    && i <= |frames|
    && ((i < |frames| && fromSeq == frames[i].hdr.seqno) || (i == 0 && fromSeq == -1))
  }

  lemma StartReplays(img: seq<Byte>, frames: seq<Frame>, i: nat)
    requires i <= |frames|
    ensures Replayed(Start(img), frames, img, i, i)
  {
    assert frames[i..i] == [] && OpsOf([]) == [];
  }

  /**
   One run of cdp-apply -f: exactly the records from the resume point up to the next gap are applied, in
   order; exit 3 names that gap, exit 0 means there was none.
   */
  lemma RunStopsAtGap(img: seq<Byte>, frames: seq<Frame>, i: nat, fromSeq: int)
    requires Sound(frames) && StartsAt(frames, i, fromSeq)
    ensures var j, end := NextGap(frames, i, fromSeq), Runs(Start(img), frames, fromSeq, -1);
            && end.rc == (if j < |frames| then 3 else 0)
            && end.gapAt == (if j < |frames| then frames[j].hdr.seqno else -1)
            && end.log == frames[i..j]
            && end.img == FoldTo(img, OpsOf(frames[i..j]))
            && (end.stopped <==> j < |frames|)
            && (end.haveSeq <==> i < j) && (i < j ==> end.expectSeq == frames[0].hdr.seqno + j)
  {
    hide WellFormed, StopsAtGap, OpsOf, FoldTo, Step, NextGap, Runs;
    assert frames[0..] == frames;
    StartReplays(img, frames, i);
    forall k | 0 <= k < |frames|
      ensures frames[k].hdr.seqno == frames[0].hdr.seqno + k
    {
      SoundAt(frames, k);
    }
    RunsSkip(Start(img), frames, 0, i, fromSeq, -1);
    RunsToGap(Start(img), frames, img, i, i, fromSeq);
  }

  /* ------------------------------------------------------------------ */
  /* resuming at every gap                                              */

  /** The header in rest carries on after the records replayed and has a gap mark to stop at. */
  predicate NextIsGap(frames: seq<Frame>, i: nat, rest: seq<Byte>, fromSeq: int)
    requires |rest| >= REC_SIZE
  {
    var h := DecodeHeader(rest);
    && (i < |frames| ==> h.seqno == frames[0].hdr.seqno + |frames|)
    && Bit(h.flags, F_GAP_BIT) && h.seqno > fromSeq
  }

  /**
   The same on a stream with a torn end. Bytes after the last whole record change nothing in the image, and
   the exit status reports them exactly when they hold a full header that is not a record or is not skipped.
   */
  lemma TornEndReported(img: seq<Byte>, frames: seq<Frame>, rest: seq<Byte>, i: nat, fromSeq: int)
    requires Sound(frames) && StartsAt(frames, i, fromSeq) && Torn(rest)
    ensures var j, end := NextGap(frames, i, fromSeq), AtTorn(Runs(Start(img), frames, fromSeq, -1), rest, fromSeq);
            && end.log == frames[i..j]
            && end.img == FoldTo(img, OpsOf(frames[i..j]))
            && (j < |frames| ==> end.rc == 3 && end.gapAt == frames[j].hdr.seqno)
            && (j == |frames| ==>
                  (end.rc == 0 <==> |rest| < REC_SIZE
                                    || (DecodeHeader(rest).magic == REC_MAGIC && DecodeHeader(rest).seqno < fromSeq)))
            && (j == |frames| ==>
                  (end.rc == 3 <==> |rest| >= REC_SIZE && DecodeHeader(rest).magic == REC_MAGIC
                                    && NextIsGap(frames, i, rest, fromSeq))
                  && end.rc in {0, 1, 3})
  {
    hide Sound, Bit, DecodeHeader, FoldTo, OpsOf, Runs, NextGap;
    RunStopsAtGap(img, frames, i, fromSeq);
  }

  /** The caller's loop: run, and on exit 3 run again with -f at the reported gap. */
  datatype Resumed = Resumed(log: seq<Frame>, gaps: seq<int>, img: seq<Byte>)

  ghost function ResumeAll(img: seq<Byte>, frames: seq<Frame>, i: nat, fromSeq: int): Resumed
    requires Sound(frames) && StartsAt(frames, i, fromSeq)
    decreases |frames| - i, if fromSeq == -1 then 1 else 0
  {
    RunStopsAtGap(img, frames, i, fromSeq);
    var end := Runs(Start(img), frames, fromSeq, -1);
    if end.rc != 3 then Resumed(end.log, [], end.img)
    else
      // the caller knows only the reported number; j is where it stands in the stream
      var j := NextGap(frames, i, fromSeq);
      var more := ResumeAll(end.img, frames, j, end.gapAt);
      Resumed(end.log + more.log, [end.gapAt] + more.gaps, more.img)
  }

  ghost predicate StrictlyAbove(gaps: seq<int>, lo: int) {
    && (forall k | 0 <= k < |gaps| :: gaps[k] > lo)
    && (forall j, k | 0 <= j < k < |gaps| :: gaps[j] < gaps[k])
  }

  /**
   Restarting at each reported gap terminates, reports strictly increasing numbers, and the runs
   together apply every record exactly once, in order: the image is that of the whole stream.
   */
  lemma {:induction false} GapResume(img: seq<Byte>, frames: seq<Frame>, i: nat, fromSeq: int)
    requires Sound(frames) && StartsAt(frames, i, fromSeq)
    ensures var all := ResumeAll(img, frames, i, fromSeq);
            && all.log == frames[i..]
            && StrictlyAbove(all.gaps, fromSeq)
            && all.img == FoldTo(img, OpsOf(frames[i..]))
    decreases |frames| - i, if fromSeq == -1 then 1 else 0
  {
    hide Consecutive, StopsAtGap, OpsOf, FoldTo, Step, Runs, NextGap, StrictlyAbove;
    RunStopsAtGap(img, frames, i, fromSeq);
    var end, j := Runs(Start(img), frames, fromSeq, -1), NextGap(frames, i, fromSeq);
    assert frames[i..] == frames[i..|frames|];
    if j < |frames| {
      GapBeyond(frames, i, j, fromSeq);
      GapResume(end.img, frames, j, end.gapAt);
      JoinRuns(img, frames, i, j);
      assert frames[i..j] + frames[j..] == frames[i..];
      AboveMore(end.gapAt, ResumeAll(end.img, frames, j, end.gapAt).gaps, fromSeq);
    } else {
      NothingAbove(fromSeq);
    }
  }

  lemma AboveMore(gap: int, gaps: seq<int>, lo: int)
    requires gap > lo && StrictlyAbove(gaps, gap)
    ensures StrictlyAbove([gap] + gaps, lo)
  {
  }

  lemma NothingAbove(lo: int)
    ensures StrictlyAbove([], lo)
  {
  }

  lemma GapBeyond(frames: seq<Frame>, i: nat, j: nat, fromSeq: int)
    requires Sound(frames) && StartsAt(frames, i, fromSeq) && i <= j < |frames| && StopsAtGap(frames[j], fromSeq)
    ensures frames[j].hdr.seqno > fromSeq && (fromSeq != -1 ==> j > i)
  {
    hide WellFormed;
    SoundAt(frames, j);
    if i < |frames| {
      SoundAt(frames, i);
    }
  }

  lemma JoinRuns(img: seq<Byte>, frames: seq<Frame>, i: nat, j: nat)
    requires i <= j <= |frames|
    ensures FoldTo(FoldTo(img, OpsOf(frames[i..j])), OpsOf(frames[j..])) == FoldTo(img, OpsOf(frames[i..]))
  {
    hide WellFormed, OpOf, FoldTo;
    assert frames[j..] == frames[j..|frames|] && frames[i..] == frames[i..|frames|];
    FoldToConcat(img, OpsOf(frames[i..j]), OpsOf(frames[j..]));
    assert OpsOf(frames[i..j]) + OpsOf(frames[j..]) == OpsOf(frames[i..]);
  }

  /* ------------------------------------------------------------------ */
  /* stopping and continuing                                            */

  ghost predicate NoGaps(frames: seq<Frame>) {
    forall k | 0 <= k < |frames| :: !HasGap(frames[k])
  }

  /** How many records a run with -s stop replays: through the first whose number reaches stop. */
  function StopIndex(frames: seq<Frame>, i: nat, stop: nat): (m: nat)
    requires i <= |frames|
    ensures i <= m <= |frames|
    decreases |frames| - i
  {
    if i == |frames| then i else if frames[i].hdr.seqno >= stop then i + 1 else StopIndex(frames, i + 1, stop)
  }

  lemma {:induction false} RunsToStop(r: Run, frames: seq<Frame>, img: seq<Byte>, i: nat, stop: nat)
    requires Sound(frames) && NoGaps(frames) && i <= |frames| && Replayed(r, frames, img, 0, i)
    ensures var m, end := StopIndex(frames, i, stop), Runs(r, frames[i..], -1, stop);
            end.rc == 0 && Replayed(end.(stopped := false), frames, img, 0, m)
    decreases |frames| - i
  {
    hide WellFormed, HasGap, OpsOf, FoldTo, Step;
    assert frames[i..] == frames[i..|frames|];
    if i < |frames| {
      RunsStep(r, frames, i, -1, stop);
      StepReplays(r, frames, img, 0, i, -1, stop);
      if frames[i].hdr.seqno >= stop {
        RunsOver(Step(r, frames[i], -1, stop), frames[i + 1..], -1, stop);
      } else {
        RunsToStop(Step(r, frames[i], -1, stop), frames, img, i + 1, stop);
      }
    }
  }

  /** Only the last record such a run replays may have reached the stop number. */
  lemma {:induction false} StopIndexIs(frames: seq<Frame>, i: nat, stop: nat)
    requires Sound(frames) && i <= |frames|
    ensures var m := StopIndex(frames, i, stop);
            && (i + 1 < m ==> frames[m - 2].hdr.seqno < stop)
            && (i < m < |frames| ==> frames[m - 1].hdr.seqno >= stop)
            && (i < |frames| ==> m > i)
    decreases |frames| - i
  {
    hide WellFormed;
    if i < |frames| && frames[i].hdr.seqno < stop {
      StopIndexIs(frames, i + 1, stop);
    }
  }

  /** First record numbered above k. */
  function FirstAbove(frames: seq<Frame>, k: nat): (i: nat)
    requires Sound(frames)
    ensures i <= |frames|
    ensures forall j | 0 <= j < i :: frames[j].hdr.seqno <= k
    ensures forall j | i <= j < |frames| :: frames[j].hdr.seqno > k
  {
    if frames == [] || frames[0].hdr.seqno > k then 0
    else if frames[0].hdr.seqno + |frames| <= k + 1 then |frames|
    else k + 1 - frames[0].hdr.seqno
  }

  lemma FullRun(img: seq<Byte>, frames: seq<Frame>)
    requires Sound(frames) && NoGaps(frames)
    ensures var end := Runs(Start(img), frames, -1, -1);
            end.rc == 0 && end.log == frames && end.img == FoldTo(img, OpsOf(frames))
  {
    hide WellFormed, HasGap, OpsOf, FoldTo, Step, Runs;
    StartReplays(img, frames, 0);
    RunsToGap(Start(img), frames, img, 0, 0, -1);
    assert frames[0..] == frames && frames[0..|frames|] == frames;
    assert NextGap(frames, 0, -1) == |frames|;
  }

  lemma StoppedRun(img: seq<Byte>, frames: seq<Frame>, k: nat)
    requires Sound(frames) && NoGaps(frames)
    ensures var m, end := StopIndex(frames, 0, k), Runs(Start(img), frames, -1, k);
            && end.rc == 0 && end.log == frames[..m]
            && end.img == FoldTo(img, OpsOf(frames[..m]))
  {
    hide WellFormed, HasGap, OpsOf, FoldTo, Step, Runs, StopIndex;
    StartReplays(img, frames, 0);
    RunsToStop(Start(img), frames, img, 0, k);
    assert frames[0..] == frames;
    assert frames[0..StopIndex(frames, 0, k)] == frames[..StopIndex(frames, 0, k)];
  }

  lemma ResumedRun(img: seq<Byte>, frames: seq<Frame>, k: nat)
    requires Sound(frames) && NoGaps(frames)
    ensures var i, end := FirstAbove(frames, k), Runs(Start(img), frames, k + 1, -1);
            && end.rc == 0 && end.log == frames[i..]
            && end.img == FoldTo(img, OpsOf(frames[i..]))
  {
    hide WellFormed, HasGap, OpsOf, FoldTo, Step, Runs;
    var i := FirstAbove(frames, k);
    assert frames[0..] == frames && frames[i..|frames|] == frames[i..];
    StartReplays(img, frames, i);
    RunsSkip(Start(img), frames, 0, i, k + 1, -1);
    RunsToGap(Start(img), frames, img, i, i, k + 1);
    assert NextGap(frames, i, k + 1) == |frames|;
  }

  /**
   Replaying up to k and then from k + 1 gives the image of one full replay, which is the fold of the
   records in order. The two runs replay each record exactly once if and only if the stream does not
   start above k; if it does, its first record is replayed twice, and the image is still right.
   */
  lemma PointInTimeSplit(img: seq<Byte>, frames: seq<Frame>, k: nat)
    requires Sound(frames) && NoGaps(frames)
    ensures var first := Runs(Start(img), frames, -1, k);
            var second := Runs(Start(first.img), frames, k + 1, -1);
            && first.rc == second.rc == 0
            && second.img == FoldTo(img, OpsOf(frames)) == Runs(Start(img), frames, -1, -1).img
            && (first.log + second.log == frames <==> (frames == [] || frames[0].hdr.seqno <= k))
  {
    hide WellFormed, HasGap, OpsOf, FoldTo, Step, Runs, OpOf;
    FullRun(img, frames);
    StoppedRun(img, frames, k);
    var m, i := StopIndex(frames, 0, k), FirstAbove(frames, k);
    ResumedRun(Runs(Start(img), frames, -1, k).img, frames, k);
    StopIndexIs(frames, 0, k);
    assert frames[0..m] == frames[..m] && frames[0..] == frames;
    if frames == [] || frames[0].hdr.seqno <= k {
      StopMeetsResume(frames, k);
      JoinRuns(img, frames, 0, m);
      assert frames[..m] + frames[m..] == frames;
    } else {
      assert m == 1 && i == 0;
      JoinRuns(img, frames, 0, 1);
      FirstTwice(img, frames);
      assert |frames[..m] + frames| == |frames| + 1;
    }
  }

  lemma StopMeetsResume(frames: seq<Frame>, k: nat)
    requires Sound(frames) && (frames == [] || frames[0].hdr.seqno <= k)
    ensures StopIndex(frames, 0, k) == FirstAbove(frames, k)
  {
    hide WellFormed;
    var m, i := StopIndex(frames, 0, k), FirstAbove(frames, k);
    StopIndexIs(frames, 0, k);
    if frames != [] {
      SoundAt(frames, m - 1);
      SoundAt(frames, i - 1);
      if m > 1 {
        SoundAt(frames, m - 2);
      }
    }
  }

  /** Replaying the first record of a stream beforehand does not change the result. */
  lemma FirstTwice(img: seq<Byte>, frames: seq<Frame>)
    requires frames != []
    ensures FoldTo(FoldTo(img, OpsOf(frames[..1])), OpsOf(frames)) == FoldTo(img, OpsOf(frames))
  {
    hide WellFormed, OpOf, Over, FoldTo, FarReach;
    var ops := OpsOf(frames);
    assert OpsOf(frames[..1]) == ops[..1];
    var once := FoldTo(img, ops[..1]);
    FoldToAt(img, ops[..1]);
    FoldToAt(once, ops);
    FoldToAt(img, ops);
    ReachTwice(|img|, ops);
    forall i | 0 <= i < |FoldTo(img, ops)|
      ensures FoldTo(once, ops)[i] == FoldTo(img, ops)[i]
    {
      var x := if i < |img| then img[i] else 0;
      OverFirstTwice(x, ops, i);
      if i >= |once| {
        NotReached(|img|, ops[..1], i);
        OverUntouched(x, ops[..1], i);
      }
    }
  }

  lemma {:induction false} FarReachIs(n: nat, ops: seq<Op>)
    ensures forall k | 0 <= k < |ops| :: Reach(ops[k]) <= FarReach(n, ops)
    ensures FarReach(n, ops) == n || exists k | 0 <= k < |ops| :: FarReach(n, ops) == Reach(ops[k])
  {
    if ops != [] {
      var front := ops[..|ops| - 1];
      FarReachIs(n, front);
      assert forall k | 0 <= k < |front| :: ops[k] == front[k];
      var r := FarReach(n, front);
      if r != n && !(r < Reach(ops[|ops| - 1])) {
        var k :| 0 <= k < |front| && r == Reach(front[k]);
        assert FarReach(n, ops) == Reach(ops[k]);
      }
    }
  }

  lemma ReachTwice(n: nat, ops: seq<Op>)
    requires ops != []
    ensures FarReach(FarReach(n, ops[..1]), ops) == FarReach(n, ops)
  {
    hide FarReach;
    FarReachIs(n, ops[..1]);
    FarReachIs(FarReach(n, ops[..1]), ops);
    FarReachIs(n, ops);
  }

  lemma OverFirstTwice(x: Byte, ops: seq<Op>, i: nat)
    requires ops != []
    ensures Over(Over(x, ops[..1], i), ops, i) == Over(x, ops, i)
  {
    hide Over;
    assert ops[..1] + ops[1..] == ops;
    if TouchedBy(ops, i) {
      OverTouched(Over(x, ops[..1], i), x, ops, i);
    } else {
      assert !TouchedBy(ops[..1], i);
      OverUntouched(x, ops[..1], i);
    }
  }

  /* ------------------------------------------------------------------ */
  /* clearing nothing                                                   */

  /** Every empty clear from record i on comes after a non-empty one of the same run, which started at i0. */
  ghost predicate AllPreceded(frames: seq<Frame>, i0: nat, i: nat) {
    forall k | i <= k < |frames| && ClearsNothing(frames[k]) ::
      exists j | i0 <= j < k :: Clears(frames[j])
  }

  /** There is a zero buffer exactly if this run has replayed a non-empty clear. */
  ghost predicate ZeroKnown(r: Run, frames: seq<Frame>, i0: nat, i: nat)
    requires i0 <= i <= |frames|
  {
    r.zeroLen > 0 <==> exists j | i0 <= j < i :: Clears(frames[j])
  }

  lemma {:induction false} RunsWithEmptyClears(r: Run, frames: seq<Frame>, img: seq<Byte>, i0: nat, i: nat, fromSeq: int)
    requires Consecutive(frames) && i0 <= i <= |frames| && Replayed(r, frames, img, i0, i) && ZeroKnown(r, frames, i0, i)
    requires forall k | i <= k < |frames| :: frames[k].hdr.seqno >= fromSeq && !StopsAtGap(frames[k], fromSeq)
    ensures Runs(r, frames[i..], fromSeq, -1).rc == 0 <==> AllPreceded(frames, i0, i)
    decreases |frames| - i
  {
    hide WellFormed, StopsAtGap, OpsOf, FoldTo, Step, HasError;
    assert frames[i..] == frames[i..|frames|];
    if i < |frames| {
      RunsStep(r, frames, i, fromSeq, -1);
      var r' := Step(r, frames[i], fromSeq, -1);
      if ZeroFails(r, frames[i]) {
        StepFails(r, frames, i, fromSeq);
        RunsOver(r', frames[i + 1..], fromSeq, -1);
      } else {
        StepReplays(r, frames, img, i0, i, fromSeq, -1);
        StepKnowsZero(r, frames, i0, i, fromSeq);
        RunsWithEmptyClears(r', frames, img, i0, i + 1, fromSeq);
      }
    }
  }

  lemma StepFails(r: Run, frames: seq<Frame>, i: nat, fromSeq: int)
    requires Consecutive(frames) && i < |frames| && ZeroFails(r, frames[i]) && !r.stopped && frames[i].hdr.seqno >= fromSeq
    ensures var r' := Step(r, frames[i], fromSeq, -1); r'.stopped && (r'.rc == 0 ==> Refused(r, frames[i].hdr, fromSeq))
    ensures !StopsAtGap(frames[i], fromSeq) && (r.haveSeq ==> r.expectSeq == frames[i].hdr.seqno) ==>
              Step(r, frames[i], fromSeq, -1).rc == 1
  {
    hide WellFormed, OpOf, ApplyTo, Bit;
    NumberAt(frames, i);
  }

  lemma StepKnowsZero(r: Run, frames: seq<Frame>, i0: nat, i: nat, fromSeq: int)
    requires Consecutive(frames) && i0 <= i < |frames| && ZeroKnown(r, frames, i0, i) && !ZeroFails(r, frames[i])
    requires frames[i].hdr.seqno >= fromSeq && !StopsAtGap(frames[i], fromSeq)
    requires r.haveSeq ==> r.expectSeq == frames[i].hdr.seqno
    ensures ZeroKnown(Step(r, frames[i], fromSeq, -1), frames, i0, i + 1)
  {
    hide WellFormed, OpOf, ApplyTo, Bit;
    NumberAt(frames, i);
    var r' := Step(r, frames[i], fromSeq, -1);
    if exists j | i0 <= j < i :: Clears(frames[j]) {
      var j :| i0 <= j < i && Clears(frames[j]);
      assert i0 <= j < i + 1;
    } else if Clears(frames[i]) {
      assert i0 <= i < i + 1;
    }
  }

  /**
   A run over consecutive records without gaps or failed bios ends with 0 if and only if each ZERO or DISCARD
   of no bytes comes after one of some bytes in the same run.
   */
  lemma EmptyClearsExactly(img: seq<Byte>, frames: seq<Frame>, i: nat, fromSeq: int)
    requires Consecutive(frames) && StartsAt(frames, i, fromSeq) && NextGap(frames, i, fromSeq) == |frames|
    ensures Runs(Start(img), frames, fromSeq, -1).rc == 0 <==> AllPreceded(frames, i, i)
  {
    hide WellFormed, StopsAtGap, OpsOf, FoldTo, Step, NextGap, Runs, HasError;
    assert frames[0..] == frames;
    StartReplays(img, frames, i);
    forall k | 0 <= k < |frames|
      ensures frames[k].hdr.seqno == frames[0].hdr.seqno + k
    {
      NumberAt(frames, k);
    }
    RunsSkip(Start(img), frames, 0, i, fromSeq, -1);
    RunsWithEmptyClears(Start(img), frames, img, i, i, fromSeq);
  }

  /** A stream of one discard of no bytes: cdp-apply exits 1. */
  lemma EmptyClearFails(img: seq<Byte>)
    ensures var f := Packed(REC_DISCARD, 0, 0, 0, 0, 0, []);
            Consecutive([f]) && Runs(Start(img), [f], -1, -1).rc == 1
  {
    hide HeaderFits, OpOf, ApplyTo, Bit;
    var f := Packed(REC_DISCARD, 0, 0, 0, 0, 0, []);
    PackedIsWellFormed(REC_DISCARD, 0, 0, 0, 0, 0, []);
    ZeroBits(3);
    ZeroBits(2);
  }

  /* ------------------------------------------------------------------ */
  /* any stream of records                                              */

  /** Record k of a run that started at record i follows its predecessor, is no gap to stop at, and did not fail. */
  predicate Follows(frames: seq<Frame>, i: nat, k: nat)
    requires i <= k < |frames|
  {
    k == i || frames[k].hdr.seqno == frames[k - 1].hdr.seqno + 1
  }

  predicate Passes(frames: seq<Frame>, i: nat, k: nat, fromSeq: int)
    requires i <= k < |frames|
  {
    Follows(frames, i, k) && !StopsAtGap(frames[k], fromSeq) && !HasError(frames[k])
  }

  /** If it clears nothing, a zero buffer is there from an earlier record of the run. */
  ghost predicate Buffered(frames: seq<Frame>, i: nat, k: nat)
    requires i <= k < |frames|
  {
    ClearsNothing(frames[k]) ==> exists j | i <= j < k :: Clears(frames[j])
  }

  /** The run has replayed records i to k and goes on. */
  ghost predicate GoneTo(r: Run, frames: seq<Frame>, img: seq<Byte>, i: nat, k: nat)
    requires i <= k <= |frames|
  {
    && r.log == frames[i..k]
    && r.img == FoldTo(img, OpsOf(frames[i..k]))
    && !r.stopped && r.rc == 0 && r.gapAt == -1
    && (r.haveSeq <==> i < k)
    && (i < k ==> r.expectSeq == frames[k - 1].hdr.seqno + 1)
    && ZeroKnown(r, frames, i, k)
  }

  lemma StepGoes(r: Run, frames: seq<Frame>, img: seq<Byte>, i: nat, k: nat, fromSeq: int, stopSeq: int)
    requires i <= k < |frames| && GoneTo(r, frames, img, i, k) && frames[k].hdr.seqno >= fromSeq
    requires Passes(frames, i, k, fromSeq) && Buffered(frames, i, k)
    ensures var r' := Step(r, frames[k], fromSeq, stopSeq);
            && r'.stopped == (stopSeq >= 0 && frames[k].hdr.seqno >= stopSeq)
            && GoneTo(r'.(stopped := false), frames, img, i, k + 1)
  {
    hide Bit, OpOf, ApplyTo, FoldTo, OpsOf;
    OpsNext(frames, i, k);
    FoldNext(img, OpsOf(frames[i..k]), OpOf(frames[k]));
    assert frames[i..k + 1] == frames[i..k] + [frames[k]];
    var r' := Step(r, frames[k], fromSeq, stopSeq);
    if exists j | i <= j < k :: Clears(frames[j]) {
      var j :| i <= j < k && Clears(frames[j]);
      assert i <= j < k + 1;
    } else if Clears(frames[k]) {
      assert i <= k < k + 1;
    }
  }

  lemma StepRefuses(r: Run, frames: seq<Frame>, img: seq<Byte>, i: nat, k: nat, fromSeq: int, stopSeq: int)
    requires i <= k < |frames| && GoneTo(r, frames, img, i, k) && frames[k].hdr.seqno >= fromSeq
    requires !Passes(frames, i, k, fromSeq)
    ensures var gap := Follows(frames, i, k) && StopsAtGap(frames[k], fromSeq);
            Step(r, frames[k], fromSeq, stopSeq)
            == r.(rc := if gap then 3 else 1, gapAt := if gap then frames[k].hdr.seqno else -1, stopped := true)
  {
    hide Bit, OpOf, ApplyTo, FoldTo, OpsOf;
  }

  lemma {:induction false} GoesTo(r: Run, frames: seq<Frame>, img: seq<Byte>, i: nat, k: nat, e: nat, fromSeq: int, stopSeq: int)
    returns (r': Run)
    requires i <= k <= e <= |frames| && GoneTo(r, frames, img, i, k)
    requires forall j | k <= j < e ::
               frames[j].hdr.seqno >= fromSeq && Passes(frames, i, j, fromSeq) && Buffered(frames, i, j)
               && (stopSeq < 0 || frames[j].hdr.seqno < stopSeq)
    ensures GoneTo(r', frames, img, i, e)
    ensures Runs(r, frames[k..], fromSeq, stopSeq) == Runs(r', frames[e..], fromSeq, stopSeq)
    decreases e - k
  {
    hide GoneTo, Passes, Buffered, Step;
    r' := r;
    if k < e {
      GoneOn(r, frames, img, i, k);
      RunsStep(r, frames, k, fromSeq, stopSeq);
      StepGoes(r, frames, img, i, k, fromSeq, stopSeq);
      var next := Step(r, frames[k], fromSeq, stopSeq);
      assert next.(stopped := false) == next;
      r' := GoesTo(next, frames, img, i, k + 1, e, fromSeq, stopSeq);
    }
  }

  lemma GoneOn(r: Run, frames: seq<Frame>, img: seq<Byte>, i: nat, k: nat)
    requires i <= k <= |frames| && GoneTo(r, frames, img, i, k)
    ensures !r.stopped && r.rc == 0 && r.log == frames[i..k] && r.img == FoldTo(img, OpsOf(frames[i..k]))
  {
  }

  lemma StartGoes(img: seq<Byte>, frames: seq<Frame>, i: nat)
    requires i <= |frames|
    ensures GoneTo(Start(img), frames, img, i, i)
  {
  }

  /**
   A run over any records: those before i are below the resume point, and e is where the replay ends.
   If the stream ends there, all records from i on are replayed and the status is 0. If record e has a number that
   does not follow, a gap to stop at or the mark of a failed bio, exactly the records before it are replayed and the
   status is 3 for a gap that follows, else 1. If it is the first to reach the stop number, it is replayed too.
   */
  lemma RunExactly(img: seq<Byte>, frames: seq<Frame>, i: nat, e: nat, fromSeq: int, stopSeq: int)
    requires i <= e <= |frames| && forall j | 0 <= j < i :: frames[j].hdr.seqno < fromSeq
    requires forall j | i <= j < e ::
               frames[j].hdr.seqno >= fromSeq && Passes(frames, i, j, fromSeq) && Buffered(frames, i, j)
               && (stopSeq < 0 || frames[j].hdr.seqno < stopSeq)
    ensures var end := Runs(Start(img), frames, fromSeq, stopSeq);
            && (e == |frames| ==> end.rc == 0 && end.log == frames[i..] && end.img == FoldTo(img, OpsOf(frames[i..])))
            && (e < |frames| && frames[e].hdr.seqno >= fromSeq && !Passes(frames, i, e, fromSeq) ==>
                  var gap := Follows(frames, i, e) && StopsAtGap(frames[e], fromSeq);
                  && end.rc == (if gap then 3 else 1) && end.gapAt == (if gap then frames[e].hdr.seqno else -1)
                  && end.log == frames[i..e] && end.img == FoldTo(img, OpsOf(frames[i..e])))
            && (e < |frames| && frames[e].hdr.seqno >= fromSeq && Passes(frames, i, e, fromSeq) && Buffered(frames, i, e)
                && 0 <= stopSeq <= frames[e].hdr.seqno ==>
                  end.rc == 0 && end.log == frames[i..e + 1] && end.img == FoldTo(img, OpsOf(frames[i..e + 1])))
  {
    hide GoneTo, Passes, Buffered, Step, Follows, StopsAtGap, FoldTo, OpsOf;
    assert frames[0..] == frames && frames[i..|frames|] == frames[i..];
    StartGoes(img, frames, i);
    GoneOn(Start(img), frames, img, i, i);
    RunsSkip(Start(img), frames, 0, i, fromSeq, stopSeq);
    var r := GoesTo(Start(img), frames, img, i, i, e, fromSeq, stopSeq);
    GoneOn(r, frames, img, i, e);
    if e == |frames| {
      RunsOver(r, frames[e..], fromSeq, stopSeq);
    } else {
      var next := Step(r, frames[e], fromSeq, stopSeq);
      RunsStep(r, frames, e, fromSeq, stopSeq);
      if frames[e].hdr.seqno >= fromSeq && !Passes(frames, i, e, fromSeq) {
        StepRefuses(r, frames, img, i, e, fromSeq, stopSeq);
        RunsOver(next, frames[e + 1..], fromSeq, stopSeq);
      } else if frames[e].hdr.seqno >= fromSeq && Buffered(frames, i, e) && 0 <= stopSeq <= frames[e].hdr.seqno {
        StepGoes(r, frames, img, i, e, fromSeq, stopSeq);
        RunsOver(next, frames[e + 1..], fromSeq, stopSeq);
        GoneOn(next.(stopped := false), frames, img, i, e + 1);
      }
    }
  }

  /** A stream of one record whose bio failed: nothing is written and the status is 1. */
  lemma FailedBioRefused(img: seq<Byte>, f: Frame)
    requires HasError(f) && !HasGap(f)
    ensures var end := Runs(Start(img), [f], -1, -1); end.rc == 1 && end.img == img && end.log == []
  {
    hide HasError, HasGap;
    RunExactly(img, [f], 0, 0, -1, -1);
  }
}
