/**
 The dirty bitmap: marking chunks, and read-and-clear one word at a time while marks
 go on.
 */
module DirtyBitmap {
  import opened Bits

  const WORD_BITS := 64

  type Word = x: int | 0 <= x < 0x1_0000_0000_0000_0000

  /** Bit b of a bitmap kept as 64-bit words. */
  predicate WordBit(words: seq<Word>, b: nat) {
    b / WORD_BITS < |words| && Bit(words[b / WORD_BITS], b % WORD_BITS)
  }

  /* ------------------------------------------------------------------ */
  /* marking                                                            */

  /** The first and last chunk that cdp_mark sets, before clamping, in the C types: 32-bit bytes, 64-bit sectors. */
  function FirstChunk(sector: nat, chunkSectors: nat): nat
    requires chunkSectors > 0
  {
    sector / chunkSectors
  }

  function LastChunk(sector: nat, bytes: nat, chunkSectors: nat): nat
    requires chunkSectors > 0
  {
    (sector + (bytes + 511) % 0x1_0000_0000 / 512 + 0xFFFF_FFFF_FFFF_FFFF) % 0x1_0000_0000_0000_0000 / chunkSectors
  }

  predicate Marked(sector: nat, bytes: nat, chunkSectors: nat, nbits: nat, b: nat)
    requires chunkSectors > 0 && nbits > 0
  {
    var last := LastChunk(sector, bytes, chunkSectors);
    bytes != 0 && FirstChunk(sector, chunkSectors) <= b <= (if last >= nbits then nbits - 1 else last)
  }

  /** Number of sectors a transfer of that many bytes covers. */
  function SectorCount(bytes: nat): nat {
    (bytes + 511) / 512
  }

  /** Chunk b holds a sector of the transfer. */
  predicate ChunkTouched(sector: nat, bytes: nat, chunkSectors: nat, b: nat) {
    b * chunkSectors < sector + SectorCount(bytes) && sector < (b + 1) * chunkSectors && bytes > 0
  }

  /**
   cdp_mark sets exactly the chunks that hold a written sector, for every transfer whose size
   does not overflow the 32-bit rounding; every whole number of sectors below 4 GiB qualifies.
   */
  lemma MarkIsExact(sector: nat, bytes: nat, chunkSectors: nat, nbits: nat, b: nat)
    requires chunkSectors > 0 && b < nbits
    requires bytes <= 0xFFFF_FE00 && sector + SectorCount(bytes) <= 0x1_0000_0000_0000_0000
    ensures Marked(sector, bytes, chunkSectors, nbits, b) <==> ChunkTouched(sector, bytes, chunkSectors, b)
  {
    if bytes > 0 {
      var e := sector + SectorCount(bytes) - 1;
      assert LastChunk(sector, bytes, chunkSectors) == e / chunkSectors by {
        assert (bytes + 511) % 0x1_0000_0000 == bytes + 511;
        ModUnique(e + 0x1_0000_0000_0000_0000, 0x1_0000_0000_0000_0000, 1, e);
      }
      DivAtMost(sector, chunkSectors, b);
      DivAtLeast(e, chunkSectors, b);
    }
  }

  lemma DivAtMost(x: nat, c: nat, b: nat)
    requires c > 0
    ensures x / c <= b <==> x < (b + 1) * c
  {
    var q := x / c;
    assert q * c <= x < (q + 1) * c;
    if q <= b {
      MulMonotone(q + 1, b + 1, c);
    } else {
      MulMonotone(b + 1, q, c);
    }
  }

  lemma DivAtLeast(x: nat, c: nat, b: nat)
    requires c > 0
    ensures b <= x / c <==> b * c <= x
  {
    var q := x / c;
    assert q * c <= x < (q + 1) * c;
    if b <= q {
      MulMonotone(b, q, c);
    } else {
      MulMonotone(q + 1, b, c);
    }
  }

  lemma MulMonotone(a: nat, b: nat, c: nat)
    requires a <= b
    ensures a * c <= b * c
  {
    assert b * c == a * c + (b - a) * c;
  }

  /**
   Above that bound the 32-bit sum wraps to less than a sector. Then cdp_mark sets the first chunk alone, or
   none if the transfer starts one; at sector 0 it sets them all.
   */
  lemma RoundingWraps(sector: nat, bytes: nat, chunkSectors: nat, nbits: nat, b: nat)
    requires chunkSectors > 0 && b < nbits && nbits * chunkSectors <= 0x1_0000_0000_0000_0000
    requires 0xFFFF_FE00 < bytes < 0x1_0000_0000 && sector < 0x1_0000_0000_0000_0000
    ensures Marked(sector, bytes, chunkSectors, nbits, b)
            <==> sector == 0 || (b == sector / chunkSectors && sector % chunkSectors != 0)
  {
    assert (bytes + 511) % 0x1_0000_0000 == bytes + 511 - 0x1_0000_0000;
    assert (bytes + 511) % 0x1_0000_0000 / 512 == 0;
    var n := 0x1_0000_0000_0000_0000;
    if sector == 0 {
      assert LastChunk(0, bytes, chunkSectors) == (n - 1) / chunkSectors;
      MulMonotone(b + 1, nbits, chunkSectors);
      assert b * chunkSectors + chunkSectors == (b + 1) * chunkSectors;
      DivAtLeast(n - 1, chunkSectors, b);
    } else {
      ModUnique(sector + n - 1, n, 1, sector - 1);
      assert LastChunk(sector, bytes, chunkSectors) == (sector - 1) / chunkSectors;
      BelowFirst(sector, chunkSectors);
    }
  }

  lemma BelowFirst(sector: nat, chunkSectors: nat)
    requires chunkSectors > 0 && sector > 0
    ensures (sector - 1) / chunkSectors
            == if sector % chunkSectors != 0 then sector / chunkSectors else sector / chunkSectors - 1
  {
    var q, r := sector / chunkSectors, sector % chunkSectors;
    if r != 0 {
      ModUnique(sector - 1, chunkSectors, q, r - 1);
    } else {
      assert q * chunkSectors == sector;
      assert q > 0;
      assert (q - 1) * chunkSectors + (chunkSectors - 1) == sector - 1;
      ModUnique(sector - 1, chunkSectors, q - 1, chunkSectors - 1);
    }
  }

  /** w with bit i set, as a 64-bit word. */
  function SetWordBit(w: Word, i: nat): (r: Word)
    requires i < WORD_BITS
    ensures forall j: nat :: Bit(r, j) <==> j == i || Bit(w, j)
  {
    assert Shl1(64) == 0x1_0000_0000_0000_0000 by { WordLimit(); }
    SetBitFits(w, i, 64);
    assert forall j: nat :: Bit(SetBit(w, i), j) <==> j == i || Bit(w, j) by {
      forall j: nat
        ensures Bit(SetBit(w, i), j) <==> j == i || Bit(w, j)
      {
        SetBitSets(w, i, j);
      }
    }
    SetBit(w, i)
  }

  lemma WordLimit()
    ensures Shl1(64) == 0x1_0000_0000_0000_0000
  {
    hide Shl1;
    ByteRadix();
    Shl1Add(8, 8);
    Shl1Add(16, 16);
    Shl1Add(32, 32);
  }

  /** set_bit on the bitmap. */
  function SetAt(words: seq<Word>, b: nat): (r: seq<Word>)
    requires b / WORD_BITS < |words|
    ensures |r| == |words|
    ensures forall c: nat :: WordBit(r, c) <==> c == b || WordBit(words, c)
  {
    words[b / WORD_BITS := SetWordBit(words[b / WORD_BITS], b % WORD_BITS)]
  }

  /** xchg(&words[i], 0). */
  function ClearWord(words: seq<Word>, i: nat): (r: seq<Word>)
    requires i < |words|
    ensures |r| == |words|
    ensures forall c: nat :: WordBit(r, c) <==> WordBit(words, c) && c / WORD_BITS != i
  {
    assert forall c: nat :: !Bit(0, c) by {
      forall c: nat
        ensures !Bit(0, c)
      {
        ZeroBits(c);
      }
    }
    words[i := 0]
  }

  /** The bitmap of a target. */
  class Bitmap {
    const words: array<Word>
    const nbits: nat
    const chunkSectors: nat

    ghost predicate Valid()
      reads this
    {
      nbits > 0 && chunkSectors > 0 && words.Length == (nbits + WORD_BITS - 1) / WORD_BITS
    }

    constructor (nbits: nat, chunkSectors: nat)
      requires nbits > 0 && chunkSectors > 0
      ensures Valid() && fresh(words) && this.nbits == nbits && this.chunkSectors == chunkSectors
      ensures forall b: nat :: !WordBit(words[..], b)
    {
      this.nbits, this.chunkSectors := nbits, chunkSectors;
      words := new Word[(nbits + WORD_BITS - 1) / WORD_BITS](_ => 0);
      new;
      forall b: nat
        ensures !WordBit(words[..], b)
      {
        ZeroBits(b % WORD_BITS);
      }
    }

    /** cdp_mark: set the bit of every chunk in the range. */
    method Mark(sector: nat, bytes: nat)
      requires Valid()
      modifies words
      ensures forall b: nat ::
                WordBit(words[..], b) <==> WordBit(old(words[..]), b) || Marked(sector, bytes, chunkSectors, nbits, b)
    {
      if bytes == 0 {
        return;
      }
      var first, last := FirstChunk(sector, chunkSectors), LastChunk(sector, bytes, chunkSectors);
      if last >= nbits {
        last := nbits - 1;
      }
      var b := first;
      while b <= last
        invariant first <= b && (b <= last + 1 || b == first)
        invariant forall c: nat :: WordBit(words[..], c) <==> WordBit(old(words[..]), c) || first <= c < b
        decreases last + 1 - b
      {
        ghost var was := words[..];
        words[b / WORD_BITS] := SetWordBit(words[b / WORD_BITS], b % WORD_BITS);
        assert words[..] == SetAt(was, b);
        b := b + 1;
      }
    }

    /** One turn of the read-and-clear loop: fetch word i and leave zero. */
    method ExchangeWord(i: nat) returns (w: Word)
      requires Valid() && i < words.Length
      modifies words
      ensures w == old(words[i])
      ensures words[..] == ClearWord(old(words[..]), i)
    {
      w := words[i];
      words[i] := 0;
    }

    /** DM_CDP_IOC_BITMAP with DM_CDP_BM_CLEAR, when nothing marks meanwhile. */
    method ReadAndClear() returns (tmp: seq<Word>)
      requires Valid()
      modifies words
      ensures tmp == old(words[..])
      ensures forall b: nat :: !WordBit(words[..], b)
    {
      tmp := [];
      var i := 0;
      while i < words.Length
        invariant i <= words.Length && tmp == old(words[..i])
        invariant words[i..] == old(words[i..])
        invariant forall b: nat :: b / WORD_BITS < i ==> !WordBit(words[..], b)
      {
        assert words[i] == words[i..][0] == old(words[i]);
        ghost var was := words[..];
        var w := ExchangeWord(i);
        tmp := tmp + [w];
        i := i + 1;
        assert words[i..] == was[i..] == old(words[i..]);
      }
    }
  }

  /* ------------------------------------------------------------------ */
  /* read-and-clear under concurrent marking                            */

  /** The bitmap, the words already fetched by the sweep in progress, and the finished snapshots. */
  datatype Sweep = Sweep(words: seq<Word>, taken: seq<Word>, snapshots: seq<seq<Word>>)

  /** Step of the producer (a set_bit) or of the ioctl (one xchg; copying out a full sweep). */
  datatype SweepStep = Set(b: nat) | Exchange | CopyOut

  predicate CanSweep(s: Sweep, step: SweepStep) {
    match step
    case Set(b) => b / WORD_BITS < |s.words|
    case Exchange => |s.taken| < |s.words|
    case CopyOut => |s.taken| == |s.words|
  }

  function SweepNext(s: Sweep, step: SweepStep): Sweep
    requires CanSweep(s, step)
  {
    match step
    case Set(b) => s.(words := SetAt(s.words, b))
    case Exchange => s.(words := ClearWord(s.words, |s.taken|), taken := s.taken + [s.words[|s.taken|]])
    case CopyOut => s.(taken := [], snapshots := s.snapshots + [s.taken])
  }

  predicate CanRun(s: Sweep, steps: seq<SweepStep>)
    decreases |steps|
  {
    steps == [] || (CanSweep(s, steps[0]) && CanRun(SweepNext(s, steps[0]), steps[1..]))
  }

  function Run(s: Sweep, steps: seq<SweepStep>): Sweep
    requires CanRun(s, steps)
    decreases |steps|
  {
    if steps == [] then s else Run(SweepNext(s, steps[0]), steps[1..])
  }

  predicate InSnapshots(snapshots: seq<seq<Word>>, b: nat) {
    exists k | 0 <= k < |snapshots| :: WordBit(snapshots[k], b)
  }

  /** Bit b is in some snapshot, in the sweep under way, or still in the bitmap. */
  predicate Somewhere(s: Sweep, b: nat) {
    InSnapshots(s.snapshots, b) || WordBit(s.taken, b) || WordBit(s.words, b)
  }

  lemma WordBitAppend(words: seq<Word>, w: Word, b: nat)
    ensures WordBit(words + [w], b) <==> WordBit(words, b) || (b / WORD_BITS == |words| && Bit(w, b % WORD_BITS))
  {
  }

  lemma SnapshotAppend(snapshots: seq<seq<Word>>, t: seq<Word>, b: nat)
    ensures InSnapshots(snapshots + [t], b) <==> InSnapshots(snapshots, b) || WordBit(t, b)
  {
    assert (snapshots + [t])[|snapshots|] == t;
    if InSnapshots(snapshots, b) {
      var k :| 0 <= k < |snapshots| && WordBit(snapshots[k], b);
      assert (snapshots + [t])[k] == snapshots[k];
    }
  }

  lemma SweepStepKeeps(s: Sweep, step: SweepStep, b: nat)
    requires CanSweep(s, step)
    ensures Somewhere(SweepNext(s, step), b) <==> Somewhere(s, b) || step == Set(b)
  {
    match step
    case Set(c) =>
    case Exchange =>
      WordBitAppend(s.taken, s.words[|s.taken|], b);
    case CopyOut =>
      SnapshotAppend(s.snapshots, s.taken, b);
  }

  /**
   However exchanges and marks interleave, over any number of snapshots: a chunk is in some snapshot
   or still marked exactly if it was to begin with or was marked meanwhile.
   */
  lemma {:induction false} NoMarkLost(s: Sweep, steps: seq<SweepStep>, b: nat)
    requires CanRun(s, steps)
    ensures Somewhere(Run(s, steps), b) <==> Somewhere(s, b) || Set(b) in steps
    decreases |steps|
  {
    if steps != [] {
      SweepStepKeeps(s, steps[0], b);
      NoMarkLost(SweepNext(s, steps[0]), steps[1..], b);
    }
  }

  /** What the sweep has passed is out of the words it still has to fetch. */
  lemma {:induction false} SweepCollectsFrom(s: Sweep, steps: seq<SweepStep>, b: nat)
    requires CanRun(s, steps) && CopyOut in steps
    requires InSnapshots(s.snapshots, b) || WordBit(s.taken, b) || (WordBit(s.words, b) && b / WORD_BITS >= |s.taken|)
    ensures InSnapshots(Run(s, steps).snapshots, b)
    decreases |steps|
  {
    var s' := SweepNext(s, steps[0]);
    match steps[0] {
      case Set(c) =>
      case Exchange =>
        WordBitAppend(s.taken, s.words[|s.taken|], b);
      case CopyOut =>
        SnapshotAppend(s.snapshots, s.taken, b);
    }
    if InSnapshots(s'.snapshots, b) {
      SnapshotsStay(s', steps[1..], b);
    } else {
      assert steps[0] != CopyOut;
      SweepCollectsFrom(s', steps[1..], b);
    }
  }

  lemma {:induction false} SnapshotsStay(s: Sweep, steps: seq<SweepStep>, b: nat)
    requires CanRun(s, steps) && InSnapshots(s.snapshots, b)
    ensures InSnapshots(Run(s, steps).snapshots, b)
    decreases |steps|
  {
    if steps != [] {
      if steps[0] == CopyOut {
        SnapshotAppend(s.snapshots, s.taken, b);
      }
      SnapshotsStay(SweepNext(s, steps[0]), steps[1..], b);
    }
  }

  /**
   A snapshot started after a mark, together with the snapshots before it, holds the mark.
   */
  lemma SnapshotCoversEarlierMarks(s: Sweep, before: seq<SweepStep>, after: seq<SweepStep>, b: nat)
    requires CanRun(s, before) && Run(s, before).taken == []
    requires CanRun(Run(s, before), after) && CopyOut in after
    requires Somewhere(s, b) || Set(b) in before
    ensures InSnapshots(Run(Run(s, before), after).snapshots, b)
  {
    NoMarkLost(s, before, b);
    SweepCollectsFrom(Run(s, before), after, b);
  }
}
