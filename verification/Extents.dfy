/**
 Turning a bitmap snapshot into extents: the byte-indexed decoder of dmcdp.py, the
 word-indexed decoder of cdp-drain.c, and what both compute.
 */
module Extents {
  import opened Records
  import opened Bits
  import opened DirtyBitmap

  /** A run of chunks, last excluded. */
  datatype Chunks = Chunks(first: nat, end: nat)

  /** A run of sectors, as the decoders report it. */
  datatype Extent = Extent(sector: nat, count: nat)

  function ToExtent(r: Chunks, chunkSectors: nat): Extent {
    Extent(r.first * chunkSectors, if r.first <= r.end then (r.end - r.first) * chunkSectors else 0)
  }

  /** runs, all within bits lo..n, are non-empty, ascending, never adjacent, and cover exactly the set bits. */
  ghost predicate RunsFrom(runs: seq<Chunks>, bits: seq<bool>, lo: nat, n: nat) {
    && lo <= n <= |bits|
    && (forall k | 0 <= k < |runs| :: lo <= runs[k].first < runs[k].end <= n)
    && (forall k | 0 < k < |runs| :: runs[k - 1].end < runs[k].first)
    && (forall b | lo <= b < n :: bits[b] <==> InRuns(runs, b))
  }

  ghost predicate InRuns(runs: seq<Chunks>, b: nat) {
    exists k | 0 <= k < |runs| :: runs[k].first <= b < runs[k].end
  }

  ghost predicate IsRuns(runs: seq<Chunks>, bits: seq<bool>) {
    RunsFrom(runs, bits, 0, |bits|)
  }

  lemma {:induction false} RunsAscend(runs: seq<Chunks>, bits: seq<bool>, lo: nat, n: nat, j: nat, k: nat)
    requires RunsFrom(runs, bits, lo, n) && j < k < |runs|
    ensures runs[j].end < runs[k].first
  {
    if j < k - 1 {
      RunsAscend(runs, bits, lo, n, j, k - 1);
      assert runs[k - 1].first < runs[k - 1].end;
    }
  }

  /** The first run starts at the least set bit and ends at the first clear bit after it. */
  lemma FirstRun(runs: seq<Chunks>, bits: seq<bool>, lo: nat, n: nat)
    requires RunsFrom(runs, bits, lo, n) && runs != []
    ensures bits[runs[0].first]
    ensures forall b | lo <= b < runs[0].first :: !bits[b]
    ensures forall b | runs[0].first <= b < runs[0].end :: bits[b]
    ensures runs[0].end < n ==> !bits[runs[0].end]
    ensures RunsFrom(runs[1..], bits, runs[0].end, n)
  {
    forall j, k | 0 <= j < k < |runs|
      ensures runs[j].end < runs[k].first
    {
      RunsAscend(runs, bits, lo, n, j, k);
    }
    var r := runs[0];
    forall b | r.first <= b < r.end
      ensures bits[b]
    {
      assert InRuns(runs, b);
    }
    assert forall k | 0 <= k < |runs[1..]| :: runs[1..][k] == runs[k + 1];
    forall b | r.end <= b < n
      ensures bits[b] <==> InRuns(runs[1..], b)
    {
      if InRuns(runs, b) {
        var k :| 0 <= k < |runs| && runs[k].first <= b < runs[k].end;
        assert runs[1..][k - 1] == runs[k];
      }
    }
  }

  lemma NoRuns(bits: seq<bool>, lo: nat, n: nat, runs: seq<Chunks>)
    requires RunsFrom([], bits, lo, n) && RunsFrom(runs, bits, lo, n)
    ensures runs == []
  {
    assert forall b | lo <= b < n :: !bits[b];
    if runs != [] {
      FirstRun(runs, bits, lo, n);
    }
  }

  /** Only one list of runs describes a given bitmap. */
  lemma {:induction false} RunsUnique(r: seq<Chunks>, s: seq<Chunks>, bits: seq<bool>, lo: nat, n: nat)
    requires RunsFrom(r, bits, lo, n) && RunsFrom(s, bits, lo, n)
    ensures r == s
    decreases |r|
  {
    if r == [] {
      NoRuns(bits, lo, n, s);
    } else if s == [] {
      NoRuns(bits, lo, n, r);
    } else {
      FirstRun(r, bits, lo, n);
      FirstRun(s, bits, lo, n);
      assert r[0].first == s[0].first;
      assert r[0].end == s[0].end;
      RunsUnique(r[1..], s[1..], bits, r[0].end, n);
      assert r == [r[0]] + r[1..] && s == [s[0]] + s[1..];
    }
  }

  /* ------------------------------------------------------------------ */
  /* the decoders                                                       */

  /** The scan both decoders share: runs are the closed ones, open is the start of the run being read. */
  ghost predicate Scanning(runs: seq<Chunks>, open: Option<nat>, bits: seq<bool>, i: nat) {
    && i <= |bits|
    && RunsFrom(runs, bits, 0, if open.Some? then open.value else i)
    && (open.Some? ==> open.value < i && forall b | open.value <= b < i :: bits[b])
    && (open.Some? && runs != [] ==> runs[|runs| - 1].end < open.value)
    && (open.None? && i > 0 ==> !bits[i - 1])
    && (open.None? && runs != [] ==> runs[|runs| - 1].end < i)
  }

  lemma ScanOpens(runs: seq<Chunks>, bits: seq<bool>, i: nat)
    requires Scanning(runs, None, bits, i) && i < |bits| && bits[i]
    ensures Scanning(runs, Some(i), bits, i + 1)
  {
  }

  lemma ScanIdles(runs: seq<Chunks>, bits: seq<bool>, i: nat)
    requires Scanning(runs, None, bits, i) && i < |bits| && !bits[i]
    ensures Scanning(runs, None, bits, i + 1)
  {
    assert !InRuns(runs, i);
  }

  lemma ScanContinues(runs: seq<Chunks>, open: nat, bits: seq<bool>, i: nat)
    requires Scanning(runs, Some(open), bits, i) && i < |bits| && bits[i]
    ensures Scanning(runs, Some(open), bits, i + 1)
  {
  }

  lemma ScanCloses(runs: seq<Chunks>, open: nat, bits: seq<bool>, i: nat)
    requires Scanning(runs, Some(open), bits, i) && (i < |bits| ==> !bits[i])
    ensures RunsFrom(runs + [Chunks(open, i)], bits, 0, i)
    ensures i < |bits| ==> Scanning(runs + [Chunks(open, i)], None, bits, i + 1)
  {
    var more := runs + [Chunks(open, i)];
    assert more[|runs|] == Chunks(open, i);
    forall b | 0 <= b < i
      ensures bits[b] <==> InRuns(more, b)
    {
      if b < open {
        if InRuns(runs, b) {
          var k :| 0 <= k < |runs| && runs[k].first <= b < runs[k].end;
          assert more[k] == runs[k];
        }
      } else {
        assert more[|runs|].first <= b < more[|runs|].end;
      }
    }
    if i < |bits| {
      assert !InRuns(more, i);
    }
  }

  lemma ScanStarts(bits: seq<bool>)
    ensures Scanning([], None, bits, 0)
  {
  }

  lemma ScanEnds(runs: seq<Chunks>, bits: seq<bool>, i: nat)
    requires Scanning(runs, None, bits, i)
    ensures RunsFrom(runs, bits, 0, i)
  {
  }

  function ToExtents(runs: seq<Chunks>, chunkSectors: nat): (e: seq<Extent>)
    ensures |e| == |runs|
  {
    seq(|runs|, k requires 0 <= k < |runs| => ToExtent(runs[k], chunkSectors))
  }

  lemma ToExtentsAppend(runs: seq<Chunks>, r: Chunks, chunkSectors: nat)
    ensures ToExtents(runs + [r], chunkSectors) == ToExtents(runs, chunkSectors) + [ToExtent(r, chunkSectors)]
  {
  }

  /** (bm[i >> 3] >> (i & 7)) & 1 */
  predicate ByteBit(bm: seq<Byte>, i: nat) {
    i / 8 < |bm| && Bit(bm[i / 8], i % 8)
  }

  function ByteBits(bm: seq<Byte>, nbits: nat): (bits: seq<bool>)
    ensures |bits| == nbits
  {
    seq(nbits, i requires 0 <= i < nbits => ByteBit(bm, i))
  }

  function WordBits(words: seq<Word>, nbits: nat): (bits: seq<bool>)
    ensures |bits| == nbits
  {
    seq(nbits, i requires 0 <= i < nbits => WordBit(words, i))
  }

  /** extents are the runs of set bits, in sectors. */
  ghost predicate Describes(extents: seq<Extent>, bits: seq<bool>, chunkSectors: nat) {
    exists runs :: IsRuns(runs, bits) && extents == ToExtents(runs, chunkSectors)
  }

  /** dmcdp.bitmap_extents. */
  method BitmapExtents(bm: seq<Byte>, chunkSectors: nat, nbits: nat) returns (extents: seq<Extent>)
    requires nbits <= 8 * |bm|
    ensures Describes(extents, ByteBits(bm, nbits), chunkSectors)
  {
    hide Scanning, RunsFrom, Bit;
    extents := [];
    ghost var runs: seq<Chunks> := [];
    ghost var bits := ByteBits(bm, nbits);
    var start: Option<nat> := None;
    ScanStarts(bits);
    for i := 0 to nbits + 1
      invariant i <= nbits ==> Scanning(runs, start, bits, i)
      invariant i == nbits + 1 ==> RunsFrom(runs, bits, 0, nbits)
      invariant start.Some? ==> start.value < i
      invariant extents == ToExtents(runs, chunkSectors)
    {
      var bit := i < nbits && Bit(bm[i / 8], i % 8);
      assert i < nbits ==> bits[i] == bit;
      if bit && start.None? {
        ScanOpens(runs, bits, i);
        start := Some(i);
      } else if !bit && start.Some? {
        ScanCloses(runs, start.value, bits, i);
        ToExtentsAppend(runs, Chunks(start.value, i), chunkSectors);
        extents := extents + [Extent(start.value * chunkSectors, (i - start.value) * chunkSectors)];
        runs := runs + [Chunks(start.value, i)];
        start := None;
      } else if bit {
        ScanContinues(runs, start.value, bits, i);
      } else if i < nbits {
        ScanIdles(runs, bits, i);
      } else {
        ScanEnds(runs, bits, i);
      }
    }
  }

  /** The decoding loop of do_bitmap; dirty counts the marked chunks. */
  method DoBitmap(bm: seq<Word>, chunkSectors: nat, nbits: nat)
    returns (extents: seq<Extent>, dirty: nat)
    requires nbits <= WORD_BITS * |bm|
    ensures Describes(extents, WordBits(bm, nbits), chunkSectors)
    ensures dirty == CountSet(WordBits(bm, nbits))
  {
    hide Scanning, RunsFrom, Bit;
    extents, dirty := [], 0;
    ghost var runs: seq<Chunks> := [];
    ghost var bits := WordBits(bm, nbits);
    assert SetBits(bits[..0]) == {};
    var start, inside := 0, false;
    ScanStarts(bits);
    for i := 0 to nbits + 1
      invariant i <= nbits ==> Scanning(runs, if inside then Some(start) else None, bits, i)
      invariant i == nbits + 1 ==> RunsFrom(runs, bits, 0, nbits)
      invariant inside ==> start < i
      invariant extents == ToExtents(runs, chunkSectors)
      invariant dirty == CountSet(bits[..if i <= nbits then i else nbits])
    {
      var bit := i < nbits && Bit(bm[i / WORD_BITS], i % WORD_BITS);
      if i < nbits {
        assert bits[i] == bit;
        CountNext(bits, i);
      }
      if bit && !inside {
        ScanOpens(runs, bits, i);
        start := i;
        inside := true;
      } else if !bit && inside {
        ScanCloses(runs, start, bits, i);
        ToExtentsAppend(runs, Chunks(start, i), chunkSectors);
        extents := extents + [Extent(start * chunkSectors, (i - start) * chunkSectors)];
        runs := runs + [Chunks(start, i)];
        inside := false;
      } else if bit {
        ScanContinues(runs, start, bits, i);
      } else if i < nbits {
        ScanIdles(runs, bits, i);
      } else {
        ScanEnds(runs, bits, i);
      }
      dirty := dirty + if bit then 1 else 0;
    }
    assert bits[..nbits] == bits;
  }

  /** The chunks whose bit is set. */
  function SetBits(bits: seq<bool>): set<nat> {
    set b | 0 <= b < |bits| && bits[b]
  }

  function CountSet(bits: seq<bool>): nat {
    |SetBits(bits)|
  }

  lemma CountNext(bits: seq<bool>, i: nat)
    requires i < |bits|
    ensures CountSet(bits[..i + 1]) == CountSet(bits[..i]) + if bits[i] then 1 else 0
  {
    assert SetBits(bits[..i + 1]) == SetBits(bits[..i]) + if bits[i] then {i} else {};
  }

  /* ------------------------------------------------------------------ */
  /* the two decoders agree                                             */

  /** The words of a bitmap as a little-endian machine stores them. */
  function WordBytes(words: seq<Word>): (s: seq<Byte>)
    ensures |s| == 8 * |words|
  {
    if words == [] then [] else WordBytes(words[..|words| - 1]) + LE(words[|words| - 1], 8)
  }

  lemma {:induction false} ByteOfLE(n: nat, k: nat, i: nat)
    requires i < k
    ensures LE(n, k)[i] == Shr(n, 8 * i) % 256
  {
    if i == 0 {
      assert LE(n, k)[0] == n % 256 && Shr(n, 0) == n;
    } else {
      ByteOfLE(n / 256, k - 1, i - 1);
      assert LE(n, k)[i] == LE(n / 256, k - 1)[i - 1];
      ShrByte(n);
      ShrShr(n, 8, 8 * (i - 1));
      assert Shr(n, 8 * i) == Shr(n, 8 + 8 * (i - 1));
    }
  }

  lemma ShrByte(n: nat)
    ensures Shr(n, 8) == n / 256
  {
    hide Shr;
    ShrTwo(n, 6);
    ShrTwo(n / 4, 4);
    ShrTwo(n / 16, 2);
    ShrTwo(n / 64, 0);
    assert Shr(n / 256, 0) == n / 256 by { ShrNone(n / 256); }
  }

  lemma ShrNone(n: nat)
    ensures Shr(n, 0) == n
  {
  }

  lemma ShrTwo(n: nat, i: nat)
    ensures Shr(n, i + 2) == Shr(n / 4, i)
  {
    assert Shr(n, i + 2) == Shr(n / 2, i + 1) == Shr(n / 2 / 2, i);
    assert n / 2 / 2 == n / 4;
  }

  lemma {:induction false} BytesOfWord(words: seq<Word>, w: nat, i: nat)
    requires w < |words| && i < 8
    ensures WordBytes(words)[8 * w + i] == LE(words[w], 8)[i]
  {
    hide LE;
    var n := |words| - 1;
    if w < n {
      BytesOfWord(words[..n], w, i);
    }
  }

  /** Bit j of byte k of a word is bit 8k + j of the word. */
  lemma BitOfByte(n: nat, k: nat, j: nat)
    requires k < 8 && j < 8
    ensures Bit(LE(n, 8)[k], j) == Bit(n, 8 * k + j)
  {
    hide LE, Shr, Shl1;
    ByteOfLE(n, 8, k);
    ByteRadix();
    BitOfRemainder(Shr(n, 8 * k), 8, j);
    ShrShr(n, 8 * k, j);
  }

  lemma ByteBitAt(bm: seq<Byte>, q: nat, j: nat)
    requires q < |bm| && j < 8
    ensures ByteBit(bm, 8 * q + j) == Bit(bm[q], j)
  {
    hide Bit;
    assert (8 * q + j) / 8 == q && (8 * q + j) % 8 == j;
  }

  lemma WordBitAt(words: seq<Word>, w: nat, n: nat)
    requires w < |words| && n < WORD_BITS
    ensures WordBit(words, WORD_BITS * w + n) == Bit(words[w], n)
  {
    hide Bit;
    assert (WORD_BITS * w + n) / WORD_BITS == w && (WORD_BITS * w + n) % WORD_BITS == n;
  }

  lemma BitsAgree(words: seq<Word>, i: nat)
    requires i < WORD_BITS * |words|
    ensures ByteBit(WordBytes(words), i) == WordBit(words, i)
  {
    hide Bit, LE, WordBytes, Shl1, Shr, ByteBit, WordBit;
    BitIndex(i);
    var w, k, j := i / WORD_BITS, i % WORD_BITS / 8, i % 8;
    BytesOfWord(words, w, k);
    BitOfByte(words[w], k, j);
    ByteBitAt(WordBytes(words), 8 * w + k, j);
    WordBitAt(words, w, 8 * k + j);
  }

  lemma BitIndex(i: nat)
    ensures i / 8 == 8 * (i / WORD_BITS) + i % WORD_BITS / 8
    ensures i % WORD_BITS == 8 * (i % WORD_BITS / 8) + i % 8
    ensures i == WORD_BITS * (i / WORD_BITS) + i % WORD_BITS
  {
  }

  /** On a little-endian bitmap the C tool and the daemon report the same extents. */
  lemma DecodersAgree(words: seq<Word>, nbits: nat, chunkSectors: nat, byByte: seq<Extent>, byWord: seq<Extent>)
    requires nbits <= WORD_BITS * |words|
    requires Describes(byByte, ByteBits(WordBytes(words), nbits), chunkSectors)
    requires Describes(byWord, WordBits(words, nbits), chunkSectors)
    ensures byByte == byWord
  {
    hide ByteBits, WordBits, WordBytes, Describes;
    SameBits(words, nbits);
    ExtentsUnique(byByte, byWord, WordBits(words, nbits), chunkSectors);
  }

  lemma ExtentsUnique(a: seq<Extent>, b: seq<Extent>, bits: seq<bool>, chunkSectors: nat)
    requires Describes(a, bits, chunkSectors) && Describes(b, bits, chunkSectors)
    ensures a == b
  {
    hide RunsFrom, ToExtents;
    var r :| IsRuns(r, bits) && a == ToExtents(r, chunkSectors);
    var s :| IsRuns(s, bits) && b == ToExtents(s, chunkSectors);
    RunsUnique(r, s, bits, 0, |bits|);
  }

  lemma SameBits(words: seq<Word>, nbits: nat)
    requires nbits <= WORD_BITS * |words|
    ensures ByteBits(WordBytes(words), nbits) == WordBits(words, nbits)
  {
    hide ByteBit, WordBit, WordBytes;
    forall i | 0 <= i < nbits
      ensures ByteBits(WordBytes(words), nbits)[i] == WordBits(words, nbits)[i]
    {
      BitsAgree(words, i);
    }
  }

  /* ------------------------------------------------------------------ */
  /* from marks to extents                                              */

  datatype Transfer = Transfer(sector: nat, bytes: nat)

  predicate InExtent(e: Extent, sector: nat) {
    e.sector <= sector < e.sector + e.count
  }

  /** words holds exactly the marks of the given transfers. */
  ghost predicate HoldsMarks(words: seq<Word>, marks: seq<Transfer>, chunkSectors: nat, nbits: nat)
    requires chunkSectors > 0 && nbits > 0
  {
    forall b | 0 <= b < nbits ::
      WordBit(words, b) <==> exists m | 0 <= m < |marks| :: Marked(marks[m].sector, marks[m].bytes, chunkSectors, nbits, b)
  }

  ghost predicate InRange(t: Transfer, chunkSectors: nat, nbits: nat) {
    t.bytes <= 0xFFFF_FE00 && t.sector + SectorCount(t.bytes) <= nbits * chunkSectors
    && nbits * chunkSectors <= 0x1_0000_0000_0000_0000
  }

  lemma ChunkInExtent(r: Chunks, chunkSectors: nat, sector: nat)
    requires chunkSectors > 0 && r.first <= r.end
    ensures InExtent(ToExtent(r, chunkSectors), sector) <==> r.first <= sector / chunkSectors < r.end
  {
    var b := sector / chunkSectors;
    Distribute(r.first, r.end - r.first, chunkSectors);
    DivAtLeast(sector, chunkSectors, r.first);
    DivAtLeast(sector, chunkSectors, r.end);
  }

  /** Extents are non-empty, ascending and never adjacent. */
  lemma ExtentsAscend(extents: seq<Extent>, bits: seq<bool>, chunkSectors: nat, j: nat, k: nat)
    requires chunkSectors > 0 && Describes(extents, bits, chunkSectors) && j < k < |extents|
    ensures extents[j].count > 0 && extents[j].sector + extents[j].count < extents[k].sector
  {
    hide InRuns, ToExtent;
    var runs: seq<Chunks> :| IsRuns(runs, bits) && extents == ToExtents(runs, chunkSectors);
    RunsAscend(runs, bits, 0, |bits|, j, k);
    assert runs[j].first < runs[j].end;
    ExtentsApart(runs[j], runs[k], chunkSectors);
  }

  lemma Distribute(a: nat, b: nat, c: nat)
    ensures (a + b) * c == a * c + b * c
  {
  }

  lemma ExtentsApart(r: Chunks, s: Chunks, chunkSectors: nat)
    requires chunkSectors > 0 && r.first < r.end < s.first
    ensures var e, f := ToExtent(r, chunkSectors), ToExtent(s, chunkSectors); e.count > 0 && e.sector + e.count < f.sector
  {
    var n := r.end - r.first;
    Distribute(r.first, n, chunkSectors);
    Distribute(r.end, 1, chunkSectors);
    MulMonotone(1, n, chunkSectors);
    MulMonotone(r.end + 1, s.first, chunkSectors);
  }

  /** A sector lies in an extent exactly if the bit of its chunk is set. */
  lemma ExtentsAreChunks(extents: seq<Extent>, bits: seq<bool>, chunkSectors: nat, sector: nat)
    requires chunkSectors > 0 && Describes(extents, bits, chunkSectors)
    ensures (exists k | 0 <= k < |extents| :: InExtent(extents[k], sector))
            <==> sector / chunkSectors < |bits| && bits[sector / chunkSectors]
  {
    hide InRuns, InExtent, ToExtent, RunsFrom;
    var b := sector / chunkSectors;
    var runs: seq<Chunks> :| IsRuns(runs, bits) && extents == ToExtents(runs, chunkSectors);
    RunsAreBits(runs, bits, b);
    if k :| 0 <= k < |extents| && InExtent(extents[k], sector) {
      ChunkInExtent(runs[k], chunkSectors, sector);
      RunHolds(runs, k, b);
    }
    if b < |bits| && bits[b] {
      var k := HeldByRun(runs, b);
      RunsForward(runs, bits, k);
      ChunkInExtent(runs[k], chunkSectors, sector);
      assert InExtent(extents[k], sector);
    }
  }

  lemma RunsAreBits(runs: seq<Chunks>, bits: seq<bool>, b: nat)
    requires IsRuns(runs, bits)
    ensures InRuns(runs, b) <==> b < |bits| && bits[b]
    ensures forall k | 0 <= k < |runs| :: runs[k].first <= runs[k].end
  {
  }

  lemma RunsForward(runs: seq<Chunks>, bits: seq<bool>, k: nat)
    requires IsRuns(runs, bits) && k < |runs|
    ensures runs[k].first <= runs[k].end
  {
  }

  lemma RunHolds(runs: seq<Chunks>, k: nat, b: nat)
    requires k < |runs| && runs[k].first <= b < runs[k].end
    ensures InRuns(runs, b)
  {
  }

  lemma HeldByRun(runs: seq<Chunks>, b: nat) returns (k: nat)
    requires InRuns(runs, b)
    ensures k < |runs| && runs[k].first <= b < runs[k].end
  {
    k :| 0 <= k < |runs| && runs[k].first <= b < runs[k].end;
  }

  /** Every sector written by a marked transfer lies in an extent. */
  lemma ExtentsCoverWrites(words: seq<Word>, marks: seq<Transfer>, chunkSectors: nat, nbits: nat,
                           extents: seq<Extent>, m: nat, sector: nat)
    requires chunkSectors > 0 && 0 < nbits <= WORD_BITS * |words|
    requires HoldsMarks(words, marks, chunkSectors, nbits) && Describes(extents, WordBits(words, nbits), chunkSectors)
    requires m < |marks| && InRange(marks[m], chunkSectors, nbits)
    requires marks[m].sector <= sector < marks[m].sector + SectorCount(marks[m].bytes)
    ensures exists k | 0 <= k < |extents| :: InExtent(extents[k], sector)
  {
    hide Bit, Marked, LastChunk, Describes, InExtent;
    var b := sector / chunkSectors;
    DivAtMost(sector, chunkSectors, b);
    DivAtLeast(sector, chunkSectors, b);
    DivAtLeast(sector, chunkSectors, nbits);
    MarkIsExact(marks[m].sector, marks[m].bytes, chunkSectors, nbits, b);
    assert Marked(marks[m].sector, marks[m].bytes, chunkSectors, nbits, b);
    ExtentsAreChunks(extents, WordBits(words, nbits), chunkSectors, sector);
  }

  /** Every chunk of an extent was touched by some marked transfer. */
  lemma ExtentsHoldOnlyMarks(words: seq<Word>, marks: seq<Transfer>, chunkSectors: nat, nbits: nat,
                             extents: seq<Extent>, k: nat, sector: nat)
    requires chunkSectors > 0 && 0 < nbits <= WORD_BITS * |words|
    requires HoldsMarks(words, marks, chunkSectors, nbits) && Describes(extents, WordBits(words, nbits), chunkSectors)
    requires forall m | 0 <= m < |marks| :: InRange(marks[m], chunkSectors, nbits)
    requires k < |extents| && InExtent(extents[k], sector)
    ensures exists m | 0 <= m < |marks| ::
              ChunkTouched(marks[m].sector, marks[m].bytes, chunkSectors, sector / chunkSectors)
  {
    hide Bit, Marked, LastChunk, Describes, InExtent;
    var b := sector / chunkSectors;
    ExtentsAreChunks(extents, WordBits(words, nbits), chunkSectors, sector);
    assert WordBit(words, b);
    var m :| 0 <= m < |marks| && Marked(marks[m].sector, marks[m].bytes, chunkSectors, nbits, b);
    MarkIsExact(marks[m].sector, marks[m].bytes, chunkSectors, nbits, b);
  }
}
