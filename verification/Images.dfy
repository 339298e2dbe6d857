/**
 What a record does to a disk image, byte by byte, and the fold of a log of
 overlapping records over an image.
 */
module Images {
  import opened Records

  const SECTOR := 512

  /** The effect of one record. Only WRITE carries data; DISCARD and ZERO clear a range. */
  datatype Op = Write(off: nat, data: seq<Byte>) | Clear(off: nat, len: nat) | Flush

  function OpOf(f: Frame): Op {
    if f.hdr.rtype == REC_WRITE then Write(f.hdr.sector * SECTOR, Payload(f))
    else if f.hdr.rtype == REC_DISCARD || f.hdr.rtype == REC_ZERO then Clear(f.hdr.sector * SECTOR, f.hdr.len)
    else Flush
  }

  /** What a record does to byte i: a WRITE stores its data, a DISCARD or ZERO clears its range, a FLUSH does nothing. */
  lemma RecordDoes(f: Frame, i: nat)
    requires f.hdr.rtype == REC_WRITE ==> f.hdr.len <= |f.body|
    ensures var off := f.hdr.sector * SECTOR;
            && (Touches(OpOf(f), i) <==>
                f.hdr.rtype in {REC_WRITE, REC_DISCARD, REC_ZERO} && off <= i < off + f.hdr.len)
            && (Touches(OpOf(f), i) ==> ValueAt(OpOf(f), i) == if f.hdr.rtype == REC_WRITE then f.body[i - off] else 0)
  {
  }

  /** Where it does, that is the byte of the image afterwards; elsewhere nothing changes. */
  lemma ApplyDoes(img: seq<Byte>, f: Frame, i: nat)
    requires i < |img| && (f.hdr.rtype == REC_WRITE ==> f.hdr.len <= |f.body|)
    ensures var off, rtype := f.hdr.sector * SECTOR, f.hdr.rtype;
            Apply(img, OpOf(f))[i]
            == if rtype in {REC_WRITE, REC_DISCARD, REC_ZERO} && off <= i < off + f.hdr.len
               then (if rtype == REC_WRITE then f.body[i - off] else 0) else img[i]
  {
    RecordDoes(f, i);
  }

  function OpsOf(frames: seq<Frame>): (ops: seq<Op>)
    ensures |ops| == |frames|
  {
    seq(|frames|, k requires 0 <= k < |frames| => OpOf(frames[k]))
  }

  function Start(op: Op): nat {
    match op
    case Write(off, _) => off
    case Clear(off, _) => off
    case Flush => 0
  }

  function End(op: Op): nat {
    match op
    case Write(off, data) => off + |data|
    case Clear(off, len) => off + len
    case Flush => 0
  }

  predicate Touches(op: Op, i: nat) {
    Start(op) <= i < End(op)
  }

  /** The byte that op leaves at position i. */
  function ValueAt(op: Op, i: nat): Byte
    requires Touches(op, i)
  {
    if op.Write? then op.data[i - op.off] else 0
  }

  function Apply(img: seq<Byte>, op: Op): (r: seq<Byte>)
    ensures |r| == |img|
  {
    seq(|img|, i requires 0 <= i < |img| => if Touches(op, i) then ValueAt(op, i) else img[i])
  }

  predicate TouchedBy(ops: seq<Op>, i: nat) {
    exists k | 0 <= k < |ops| :: Touches(ops[k], i)
  }

  /** Index of the last operation touching byte i, or -1. */
  function Newest(ops: seq<Op>, i: nat): (k: int)
    ensures -1 <= k < |ops|
    ensures k >= 0 ==> Touches(ops[k], i)
    ensures forall j | k < j < |ops| :: !Touches(ops[j], i)
  {
    if ops == [] then -1
    else if Touches(ops[|ops| - 1], i) then |ops| - 1
    else Newest(ops[..|ops| - 1], i)
  }

  /** Byte i after the operations, applied in order to a byte holding x. */
  function Over(x: Byte, ops: seq<Op>, i: nat): Byte {
    if ops == [] then x
    else
      var last := ops[|ops| - 1];
      if Touches(last, i) then ValueAt(last, i) else Over(x, ops[..|ops| - 1], i)
  }

  function Fold(img: seq<Byte>, ops: seq<Op>): (r: seq<Byte>)
    ensures |r| == |img|
  {
    if ops == [] then img else Apply(Fold(img, ops[..|ops| - 1]), ops[|ops| - 1])
  }

  lemma {:induction false} FoldAt(img: seq<Byte>, ops: seq<Op>, i: nat)
    requires i < |img|
    ensures Fold(img, ops)[i] == Over(img[i], ops, i)
  {
    if ops != [] {
      FoldAt(img, ops[..|ops| - 1], i);
    }
  }

  /** The newest operation touching a byte alone decides it. */
  lemma {:induction false} OverIsNewest(x: Byte, ops: seq<Op>, i: nat)
    ensures Over(x, ops, i) == var k := Newest(ops, i); if k < 0 then x else ValueAt(ops[k], i)
  {
    if ops != [] {
      OverIsNewest(x, ops[..|ops| - 1], i);
    }
  }

  lemma {:induction false} OverConcat(x: Byte, a: seq<Op>, b: seq<Op>, i: nat)
    ensures Over(x, a + b, i) == Over(Over(x, a, i), b, i)
  {
    if b == [] {
      assert a + b == a;
    } else {
      var n := |b| - 1;
      assert (a + b)[..|a + b| - 1] == a + b[..n];
      OverConcat(x, a, b[..n], i);
    }
  }

  lemma {:induction false} OverUntouched(x: Byte, ops: seq<Op>, i: nat)
    requires !TouchedBy(ops, i)
    ensures Over(x, ops, i) == x
  {
    OverIsNewest(x, ops, i);
  }

  lemma {:induction false} OverTouched(x: Byte, y: Byte, ops: seq<Op>, i: nat)
    requires TouchedBy(ops, i)
    ensures Over(x, ops, i) == Over(y, ops, i)
  {
    OverIsNewest(x, ops, i);
    OverIsNewest(y, ops, i);
  }

  /** Re-applying the end of a log to a byte that already saw the whole log changes nothing. */
  lemma OverSuffix(x: Byte, a: seq<Op>, b: seq<Op>, i: nat)
    ensures Over(Over(x, a + b, i), b, i) == Over(x, a + b, i)
  {
    OverConcat(x, a, b, i);
    if TouchedBy(b, i) {
      OverTouched(Over(x, a, i), Over(x, a + b, i), b, i);
    } else {
      OverUntouched(Over(x, a + b, i), b, i);
    }
  }

  /** "re-applying is idempotent, so base + live writes = the disk" (rkcdpd.py). */
  lemma SuffixReplayIdempotent(img: seq<Byte>, log: seq<Op>, k: nat)
    requires k <= |log|
    ensures Fold(Fold(img, log), log[k..]) == Fold(img, log)
  {
    assert log == log[..k] + log[k..];
    forall i | 0 <= i < |img|
      ensures Fold(Fold(img, log), log[k..])[i] == Fold(img, log)[i]
    {
      FoldAt(img, log, i);
      FoldAt(Fold(img, log), log[k..], i);
      OverSuffix(img[i], log[..k], log[k..], i);
    }
  }

  /**
   Concurrent copying: a copy that reads each byte at its own moment, after at
   least the first k records and before any number more, gives the final image
   once the records from k on are applied again.
   */
  lemma BasePlusLiveWrites(img: seq<Byte>, log: seq<Op>, k: nat, copy: seq<Byte>, seen: seq<nat>)
    requires k <= |log|
    requires |copy| == |seen| == |img|
    requires forall i | 0 <= i < |img| :: k <= seen[i] <= |log| && copy[i] == Over(img[i], log[..seen[i]], i)
    ensures Fold(copy, log[k..]) == Fold(img, log)
  {
    forall i | 0 <= i < |img|
      ensures Fold(copy, log[k..])[i] == Fold(img, log)[i]
    {
      FoldAt(copy, log[k..], i);
      FoldAt(img, log, i);
      OverLateCopy(img[i], log, k, seen[i], i);
    }
  }

  lemma OverLateCopy(x: Byte, log: seq<Op>, k: nat, seen: nat, i: nat)
    requires k <= seen <= |log|
    ensures Over(Over(x, log[..seen], i), log[k..], i) == Over(x, log, i)
  {
    OverIsNewest(x, log[..seen], i);
    OverIsNewest(Over(x, log[..seen], i), log[k..], i);
    OverIsNewest(x, log, i);
    NewestOfSuffix(log, k, i);
    NewestOfPrefix(log, seen, i);
  }

  lemma {:induction false} NewestOfSuffix(ops: seq<Op>, k: nat, i: nat)
    requires k <= |ops|
    ensures Newest(ops[k..], i) == if Newest(ops, i) >= k then Newest(ops, i) - k else -1
  {
    var n, tail := Newest(ops, i), ops[k..];
    assert forall j | k <= j < |ops| :: tail[j - k] == ops[j];
    assert forall j | 0 <= j < |tail| :: tail[j] == ops[k + j];
    if n >= k {
      assert tail[n - k] == ops[n];
    }
  }

  lemma {:induction false} NewestOfPrefix(ops: seq<Op>, k: nat, i: nat)
    requires k <= |ops|
    ensures Newest(ops, i) < k ==> Newest(ops[..k], i) == Newest(ops, i)
  {
    var n, head := Newest(ops, i), ops[..k];
    assert forall j | 0 <= j < k :: head[j] == ops[j];
    if 0 <= n < k {
      assert head[n] == ops[n];
    }
  }
}
