/**
 The seed layer as an object over a sparse file: the saved bitmap kept in a bytearray,
 its reconstruction from SEEK_DATA and SEEK_HOLE, and the overlay loop.
 */
module SeedFile {
  import opened Records
  import opened Bits
  import opened Seed

  /* ------------------------------------------------------------------ */
  /* sparse files                                                       */

  /** lseek(fd, off, SEEK_DATA): the first written byte at or after off, if any. */
  method SeekData(file: array<Cell>, off: nat) returns (d: Option<nat>)
    ensures d.Some? ==> off <= d.value < file.Length && file[d.value].Some?
                        && forall i | off <= i < d.value :: file[i].None?
    ensures d.None? ==> forall i | off <= i < file.Length :: file[i].None?
  {
    var i := off;
    while i < file.Length
      invariant off <= i
      invariant forall j | off <= j < i && j < file.Length :: file[j].None?
    {
      if file[i].Some? {
        return Some(i);
      }
      i := i + 1;
    }
    d := None;
  }

  /** lseek(fd, d, SEEK_HOLE): the end of the data that starts at d. */
  method SeekHole(file: array<Cell>, d: nat) returns (h: nat)
    requires d < file.Length && file[d].Some?
    ensures d < h <= file.Length && forall i | d <= i < h :: file[i].Some?
    ensures h < file.Length ==> file[h].None?
  {
    h := d;
    while h < file.Length && file[h].Some?
      invariant d <= h <= file.Length && forall i | d <= i < h :: file[i].Some?
    {
      h := h + 1;
    }
  }

  /* ------------------------------------------------------------------ */
  /* the saved bitmap                                                   */

  /** saved[c >> 3] & (1 << (c & 7)) */
  predicate ByteSet(saved: seq<Byte>, c: nat) {
    c / 8 < |saved| && Bit(saved[c / 8], c % 8)
  }

  function WithBit(w: Byte, i: nat): (r: Byte)
    requires i < 8
    ensures forall j: nat :: Bit(r, j) <==> j == i || Bit(w, j)
  {
    ByteRadix();
    SetBitFits(w, i, 8);
    assert forall j: nat :: Bit(SetBit(w, i), j) <==> j == i || Bit(w, j) by {
      forall j: nat
        ensures Bit(SetBit(w, i), j) <==> j == i || Bit(w, j)
      {
        SetBitSets(w, i, j);
      }
    }
    SetBit(w, i)
  }

  lemma BitOfUpdate(saved: seq<Byte>, c: nat)
    requires c / 8 < |saved|
    ensures forall k: nat ::
              ByteSet(saved[c / 8 := WithBit(saved[c / 8], c % 8)], k) <==> k == c || ByteSet(saved, k)
  {
    hide Bit;
    var after := saved[c / 8 := WithBit(saved[c / 8], c % 8)];
    forall k: nat
      ensures ByteSet(after, k) <==> k == c || ByteSet(saved, k)
    {
      if k / 8 == c / 8 {
        assert k == 8 * (k / 8) + k % 8 && c == 8 * (c / 8) + c % 8;
      }
    }
  }

  /** any(buf) */
  predicate AnyNonZero(buf: seq<Byte>) {
    exists j | 0 <= j < |buf| :: buf[j] != 0
  }

  class SeedLayer {
    const size: nat
    const nchunks: nat
    const saved: array<Byte>
    const file: array<Cell>

    ghost predicate Valid()
      reads this, saved, file
    {
      && nchunks == ChunkCount(size) && file.Length == size && saved.Length == (nchunks + 7) / 8
      && saved as object != file
      && forall c: nat | ByteSet(saved[..], c) :: c < nchunks
    }

    ghost function Saved(): (s: set<nat>)
      requires Valid()
      reads this, saved, file
      ensures forall c: nat :: c in s <==> ByteSet(saved[..], c)
    {
      set c | 0 <= c < nchunks && ByteSet(saved[..], c)
    }

    /** The layer this object keeps for a replica. */
    ghost function Of(replica: seq<Byte>): Layer
      requires Valid()
      reads this, saved, file
    {
      Layer(replica, file[..], Saved())
    }

    /** __init__ on an existing file: every chunk that meets a data region counts as saved. */
    constructor (file: array<Cell>)
      ensures Valid() && this.file == file && size == file.Length && fresh(saved)
      ensures forall replica :: Of(replica) == Restarted(Layer(replica, file[..], {}))
    {
      this.file := file;
      size := file.Length;
      nchunks := ChunkCount(file.Length);
      saved := new Byte[(ChunkCount(file.Length) + 7) / 8](_ => 0);
      new;
      forall c: nat
        ensures !ByteSet(saved[..], c)
      {
        ZeroBits(c % 8);
      }
      var off := 0;
      while off < size
        invariant off <= size
        invariant forall c: nat :: ByteSet(saved[..], c) <==> SeenData(file[..], off, c)
        decreases size - off
      {
        var d := SeekData(file, off);
        if d.None? {
          break;
        }
        var h := SeekHole(file, d.value);
        ghost var was := saved[..];
        var c, end := d.value / SEED_CHUNK, (h + SEED_CHUNK - 1) / SEED_CHUNK;
        ghost var first := c;
        while c < end
          invariant first <= c <= end && end <= nchunks
          invariant forall k: nat :: ByteSet(saved[..], k) <==> ByteSet(was, k) || first <= k < c
        {
          ghost var prev := saved[..];
          BitOfUpdate(prev, c);
          saved[c / 8] := WithBit(saved[c / 8], c % 8);
          assert saved[..] == prev[c / 8 := WithBit(prev[c / 8], c % 8)];
          assert forall k: nat :: ByteSet(saved[..], k) <==> k == c || ByteSet(prev, k);
          c := c + 1;
        }
        RegionSeen(file[..], off, d.value, h);
        off := h;
      }
      SeenAll(file[..], off);
    }

    /** SeedLayer.is_saved */
    method IsSaved(c: nat) returns (b: bool)
      requires Valid() && c < nchunks
      ensures b <==> c in Saved()
    {
      b := Bit(saved[c / 8], c % 8);
    }

    /** The body of preserve's loop for a chunk not saved yet. */
    method SaveChunk(replica: array<Byte>, c: nat)
      requires Valid() && replica.Length == size && replica != saved && replica as object != file && c < nchunks && c !in Saved()
      modifies saved, file
      ensures Valid() && Saved() == old(Saved()) + {c}
      ensures forall i | 0 <= i < size ::
                file[i] == if InChunk(i, c) && NonZeroChunk(replica[..], c) then Some(replica[i]) else old(file[i])
    {
      hide NonZeroChunk, Bit;
      var o := c * SEED_CHUNK;
      var n := if SEED_CHUNK < size - o then SEED_CHUNK else size - o;
      var buf := replica[o..o + n];
      AnyIsNonZero(replica[..], c, o, n);
      ChunkRange(size, c, o, n);
      assert buf == replica[..][o..o + n];
      if AnyNonZero(buf) {
        forall j | 0 <= j < n {
          file[o + j] := Some(buf[j]);
        }
      }
      ghost var prev := saved[..];
      assert prev == old(saved[..]);
      BitOfUpdate(prev, c);
      saved[c / 8] := WithBit(saved[c / 8], c % 8);
      assert saved[..] == prev[c / 8 := WithBit(prev[c / 8], c % 8)];
      assert replica[..] == old(replica[..]);
      assert forall k: nat | ByteSet(saved[..], k) :: k == c || ByteSet(prev, k);
      assert forall k: nat | ByteSet(prev, k) :: k < nchunks;
    }

    /** SeedLayer.preserve */
    method Preserve(replica: array<Byte>, off: nat, len: nat)
      requires Valid() && replica.Length == size && replica != saved && replica as object != file
      modifies saved, file
      ensures Valid() && Of(replica[..]) == Preserved(old(Of(replica[..])), off, len)
    {
      hide NonZeroChunk, Bit, Preserved;
      ghost var was := Of(replica[..]);
      var c := off / SEED_CHUNK;
      var c1 := (off + len + SEED_CHUNK - 1) / SEED_CHUNK;
      var end := if c1 < nchunks then c1 else nchunks;
      ghost var first := c;
      while c < end
        invariant Valid() && first <= c && (c <= end || c == first)
        invariant forall k: nat :: k in Saved() <==> k in was.saved || first <= k < c
        invariant forall i | 0 <= i < size :: file[i] == PreservedCell(was, first, c, i)
      {
        var known := IsSaved(c);
        if !known {
          SaveChunk(replica, c);
        }
        c := c + 1;
      }
      PreservedAgrees(was, off, len, file[..], Saved());
    }
  }

  /** Chunk c meets data below off. */
  predicate SeenData(file: seq<Cell>, off: nat, c: nat) {
    exists i | 0 <= i < off && i < |file| :: InChunk(i, c) && file[i].Some?
  }

  lemma RegionSeen(file: seq<Cell>, off: nat, d: nat, h: nat)
    requires off <= d < h <= |file|
    requires (forall i | off <= i < d :: file[i].None?) && forall i | d <= i < h :: file[i].Some?
    ensures forall c: nat ::
              SeenData(file, h, c) <==> SeenData(file, off, c) || d / SEED_CHUNK <= c < (h + SEED_CHUNK - 1) / SEED_CHUNK
  {
    forall c: nat
      ensures SeenData(file, h, c) <==> SeenData(file, off, c) || d / SEED_CHUNK <= c < (h + SEED_CHUNK - 1) / SEED_CHUNK
    {
      if d / SEED_CHUNK <= c < (h + SEED_CHUNK - 1) / SEED_CHUNK {
        var i := if c * SEED_CHUNK > d then c * SEED_CHUNK else d;
        assert InChunk(i, c) && file[i].Some?;
      }
      if SeenData(file, off, c) {
        var i :| 0 <= i < off && i < |file| && InChunk(i, c) && file[i].Some?;
        assert 0 <= i < h;
      }
    }
  }

  lemma SeenAll(file: seq<Cell>, off: nat)
    requires forall i | off <= i < |file| :: file[i].None?
    ensures forall c: nat :: SeenData(file, off, c) <==> c < ChunkCount(|file|) && HasData(file, c)
  {
    forall c: nat
      ensures SeenData(file, off, c) <==> c < ChunkCount(|file|) && HasData(file, c)
    {
      if HasData(file, c) {
        var i :| 0 <= i < |file| && InChunk(i, c) && file[i].Some?;
        assert i < off;
      }
    }
  }

  lemma ChunkRange(size: nat, c: nat, o: nat, n: nat)
    requires o == c * SEED_CHUNK && o < size && n == if SEED_CHUNK < size - o then SEED_CHUNK else size - o
    ensures forall i | 0 <= i < size :: InChunk(i, c) <==> o <= i < o + n
  {
  }

  lemma AnyIsNonZero(img: seq<Byte>, c: nat, o: nat, n: nat)
    requires o == c * SEED_CHUNK && o < |img| && n == if SEED_CHUNK < |img| - o then SEED_CHUNK else |img| - o
    ensures AnyNonZero(img[o..o + n]) <==> NonZeroChunk(img, c)
  {
    ChunkRange(|img|, c, o, n);
    if NonZeroChunk(img, c) {
      var i :| 0 <= i < |img| && InChunk(i, c) && img[i] != 0;
      assert img[o..o + n][i - o] != 0;
    }
    if AnyNonZero(img[o..o + n]) {
      var j :| 0 <= j < n && img[o..o + n][j] != 0;
      assert InChunk(o + j, c) && img[o + j] != 0;
    }
  }

  /** Byte i of the seed file once chunks first to c have been preserved. */
  function PreservedCell(l: Layer, first: nat, c: nat, i: nat): Cell
    requires i < |l.file| && i < |l.replica|
  {
    var k := i / SEED_CHUNK;
    if first <= k < c && k !in l.saved && NonZeroChunk(l.replica, k) then Some(l.replica[i]) else l.file[i]
  }

  lemma PreservedAgrees(l: Layer, off: nat, len: nat, file: seq<Cell>, saved: set<nat>)
    requires |file| == |l.file| == |l.replica|
    requires var first, c1 := off / SEED_CHUNK, (off + len + SEED_CHUNK - 1) / SEED_CHUNK;
             var end := if c1 < ChunkCount(|l.replica|) then c1 else ChunkCount(|l.replica|);
             && (forall k: nat :: k in saved <==> k in l.saved || first <= k < end)
             && forall i | 0 <= i < |file| :: file[i] == PreservedCell(l, first, end, i)
    ensures Layer(l.replica, file, saved) == Preserved(l, off, len)
  {
    hide NonZeroChunk;
    var p := Preserved(l, off, len);
    assert file == p.file;
    assert saved == p.saved;
  }

  /* ------------------------------------------------------------------ */
  /* overlay                                                            */

  const OVERLAY_SLICE := 0x40_0000

  /** overlay_seed: every data region of the seed file, in slices, over the copy. */
  method OverlaySeed(seed: array<Cell>, copy: array<Byte>)
    requires seed.Length == copy.Length
    modifies copy
    ensures copy[..] == Overlaid(seed[..], old(copy[..]))
  {
    var size, off := seed.Length, 0;
    while off < size
      invariant off <= size
      invariant forall i | 0 <= i < size ::
                  copy[i] == if i < off && seed[i].Some? then seed[i].value else old(copy[i])
      decreases size - off
    {
      var d := SeekData(seed, off);
      if d.None? {
        break;
      }
      var h := SeekHole(seed, d.value);
      var pos := d.value;
      while pos < h
        invariant d.value <= pos <= h
        invariant forall i | 0 <= i < size ::
                    copy[i] == if i < pos && seed[i].Some? then seed[i].value else old(copy[i])
        decreases h - pos
      {
        // pread returns some of the slice
        var m: nat :| 0 < m <= OVERLAY_SLICE && pos + m <= h;
        forall i | pos <= i < pos + m {
          copy[i] := seed[i].value;
        }
        pos := pos + m;
      }
      off := h;
    }
  }
}
