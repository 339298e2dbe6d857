/**
 Placement in the kernel ring, with records as plain byte strings: where a
 reservation goes in a ring addressed by monotonic offsets, and why a store into
 one record leaves every other live record alone.
 */
module RingLayout {
  import opened Records
  import opened Bits

  /* ------------------------------------------------------------------ */
  /* addressing                                                         */

  lemma ModStep(x: nat, d: nat, n: nat)
    requires n > 0 && x % n + d < n
    ensures (x + d) % n == x % n + d
  {
    ModUnique(x + d, n, x / n, x % n + d);
  }

  lemma ModDistinct(x: nat, y: nat, n: nat)
    requires n > 0 && x < y < x + n
    ensures x % n != y % n
  {
    if x % n == y % n {
      var q := y / n - x / n;
      assert y - x == q * n;
      if q >= 1 {
        MulAtLeast(q, n);
      }
    }
  }

  lemma ModBoundary(x: nat, n: nat)
    requires n > 0
    ensures (x + (n - x % n)) % n == 0
  {
    ModUnique(x + (n - x % n), n, x / n + 1, 0);
  }

  /** The n bytes at monotonic offset a of a ring. */
  function Span(mem: seq<Byte>, a: nat, n: nat): (s: seq<Byte>)
    requires |mem| > 0
    ensures |s| == n
  {
    seq(n, j requires 0 <= j < n => mem[(a + j) % |mem|])
  }

  /** Bytes that do not cross the end of the ring lie next to each other. */
  lemma SpanIsSlice(mem: seq<Byte>, a: nat, n: nat)
    requires |mem| > 0 && a % |mem| + n <= |mem|
    ensures Span(mem, a, n) == mem[a % |mem|..a % |mem| + n]
  {
    forall j | 0 <= j < n
      ensures Span(mem, a, n)[j] == mem[a % |mem| + j]
    {
      ModStep(a, j, |mem|);
    }
  }

  lemma SpanOfSplice(mem: seq<Byte>, a: nat, d: nat, data: seq<Byte>, n: nat)
    requires |mem| > 0 && a % |mem| + n <= |mem| && d + |data| <= n
    ensures Span(Splice(mem, a % |mem| + d, data), a, n) == Splice(Span(mem, a, n), d, data)
  {
    hide Splice, Span;
    SpanIsSlice(mem, a, n);
    SpanIsSlice(Splice(mem, a % |mem| + d, data), a, n);
    SliceOfSplice(mem, a % |mem|, n, d, data);
  }

  lemma SliceOfSplice(s: seq<Byte>, p: nat, n: nat, d: nat, data: seq<Byte>)
    requires p + n <= |s| && d + |data| <= n
    ensures Splice(s, p + d, data)[p..p + n] == Splice(s[p..p + n], d, data)
  {
  }

  lemma SpanSplit(mem: seq<Byte>, a: nat, k: nat, n: nat)
    requires |mem| > 0 && k <= n
    ensures Span(mem, a, n)[k..] == Span(mem, a + k, n - k)
  {
  }

  lemma SpliceFront(s: seq<Byte>, data: seq<Byte>)
    requires |data| <= |s|
    ensures Splice(s, 0, data) == data + s[|data|..]
  {
  }

  /** A store at [a + d, a + d + |data|) misses every span of the same window that does not meet [a, a + n). */
  lemma SpanOutsideSplice(mem: seq<Byte>, a: nat, d: nat, data: seq<Byte>, n: nat, b: nat, m: nat)
    requires |mem| > 0 && a % |mem| + n <= |mem| && d + |data| <= n
    requires (b + m <= a && a + n <= b + |mem|) || (a + n <= b && b + m <= a + |mem|)
    ensures Span(Splice(mem, a % |mem| + d, data), b, m) == Span(mem, b, m)
  {
    hide Splice;
    forall j | 0 <= j < m
      ensures Span(Splice(mem, a % |mem| + d, data), b, m)[j] == Span(mem, b, m)[j]
    {
      OutsideWindow(b + j, a, n, |mem|);
    }
  }

  /** An offset less than a ring away from a window, but not in it, has no place there. */
  lemma OutsideWindow(x: nat, a: nat, n: nat, size: nat)
    requires size > 0 && a % size + n <= size
    requires (x < a && a + n <= x + size) || (a + n <= x && x < a + size)
    ensures !(a % size <= x % size < a % size + n)
  {
    var p := x % size;
    if a % size <= p < a % size + n {
      var e := p - a % size;
      ModStep(a, e, size);
      if x < a + e {
        ModDistinct(x, a + e, size);
      } else {
        ModDistinct(a + e, x, size);
      }
    }
  }

  /* ------------------------------------------------------------------ */
  /* placement                                                          */

  /** Bytes skipped so that a record of length need does not cross the end of the ring. */
  function Pad(n: nat, h: nat, need: nat): nat
    requires n > 0
  {
    if h % n + need > n then n - h % n else 0
  }

  /** Offset at which reserving need bytes at head h places the record. */
  function Place(n: nat, h: nat, need: nat): nat
    requires n > 0
  {
    h + Pad(n, h, need)
  }

  lemma PlaceFits(n: nat, h: nat, need: nat)
    requires n > 0 && need <= n
    ensures Place(n, h, need) % n + need <= n
    ensures Pad(n, h, need) > 0 ==> Place(n, h, need) % n == 0 && Pad(n, h, need) < need
    ensures h % n + Pad(n, h, need) <= n
  {
    ModBoundary(h, n);
  }

  /** The admission test of cdp_reserve. */
  predicate Admits(n: nat, head: nat, tail: nat, need: nat)
    requires n > 0 && tail <= head <= tail + n
  {
    need <= n / 4 && need + Pad(n, head, need) <= n - (head - tail)
  }

  /** A padded reservation costs less than half the ring, so half a ring free is always enough. */
  lemma AdmissionBound(n: nat, head: nat, tail: nat, need: nat)
    requires n > 0 && tail <= head <= tail + n
    requires 0 < need <= n / 4
    ensures Pad(n, head, need) > 0 ==> Pad(n, head, need) < need
    ensures 2 * (need + Pad(n, head, need)) < n
    ensures 2 * (n - (head - tail)) >= n ==> Admits(n, head, tail, need)
  {
    PlaceFits(n, head, need);
  }

  /** Somewhere from the head on there is room for a record: in one piece, and clear of the undelivered bytes. */
  ghost predicate HasPlace(n: nat, head: nat, tail: nat, need: nat)
    requires n > 0
  {
    exists off: nat :: FitsAt(n, head, tail, need, off)
  }

  predicate FitsAt(n: nat, head: nat, tail: nat, need: nat, off: nat)
    requires n > 0
  {
    head <= off && off % n + need <= n && off + need <= tail + n
  }

  /** A record is refused only if it is too large or there is no place for it, and is put at the first place. */
  lemma AdmitsExactly(n: nat, head: nat, tail: nat, need: nat)
    requires n > 0 && tail <= head <= tail + n && 0 < need
    ensures Admits(n, head, tail, need) <==> need <= n / 4 && HasPlace(n, head, tail, need)
    ensures Admits(n, head, tail, need) ==>
              FitsAt(n, head, tail, need, Place(n, head, need))
              && forall off | FitsAt(n, head, tail, need, off) :: Place(n, head, need) <= off
  {
    if need <= n / 4 {
      PlaceFits(n, head, need);
      if Admits(n, head, tail, need) {
        assert FitsAt(n, head, tail, need, Place(n, head, need));
      }
      forall off | FitsAt(n, head, tail, need, off)
        ensures Place(n, head, need) <= off
      {
        FirstPlace(n, head, need, off);
      }
    }
  }

  lemma FirstPlace(n: nat, head: nat, need: nat, off: nat)
    requires n > 0 && 0 < need && head <= off && off % n + need <= n
    ensures Place(n, head, need) <= off
  {
    if off < Place(n, head, need) {
      ModStep(head, off - head, n);
    }
  }

  /** The room one reservation took: the bytes of the record, and those stored in the filler before it. */
  datatype Area = Area(off: nat, bytes: seq<Byte>, filler: seq<Byte>)

  /** The head after the first k reservations. */
  function EndOf(areas: seq<Area>, k: nat): nat
    requires k <= |areas|
  {
    if k == 0 then 0 else areas[k - 1].off + |areas[k - 1].bytes|
  }

  ghost predicate AreaOk(n: nat, areas: seq<Area>, k: nat)
    requires n > 0 && k < |areas|
  {
    var a := areas[k];
    && 0 < |a.bytes| <= n
    && a.off == Place(n, EndOf(areas, k), |a.bytes|)
    && EndOf(areas, k) + |a.filler| <= a.off
  }

  ghost predicate Chained(n: nat, areas: seq<Area>)
    requires n > 0
  {
    forall k | 0 <= k < |areas| :: AreaOk(n, areas, k)
  }

  lemma {:induction false} EndsGrow(n: nat, areas: seq<Area>, j: nat, k: nat)
    requires n > 0 && Chained(n, areas) && j <= k <= |areas|
    ensures EndOf(areas, j) <= EndOf(areas, k)
    decreases k
  {
    if j < k {
      EndsGrow(n, areas, j, k - 1);
      assert AreaOk(n, areas, k - 1);
    }
  }

  /** Live records, with their fillers, are pairwise disjoint and lie in order between tail and head. */
  lemma AreasDisjoint(n: nat, areas: seq<Area>, j: nat, k: nat)
    requires n > 0 && Chained(n, areas) && j < k < |areas|
    ensures EndOf(areas, j) <= areas[j].off < EndOf(areas, j + 1) <= EndOf(areas, k) <= areas[k].off
    ensures areas[k].off < EndOf(areas, k + 1) <= EndOf(areas, |areas|)
  {
    EndsGrow(n, areas, j + 1, k);
    EndsGrow(n, areas, k + 1, |areas|);
    assert AreaOk(n, areas, j) && AreaOk(n, areas, k);
  }

  /** Reservation k is in the ring, byte for byte. */
  ghost predicate InPlace(mem: seq<Byte>, areas: seq<Area>, k: nat)
    requires |mem| > 0 && k < |areas|
  {
    var a := areas[k];
    && Span(mem, a.off, |a.bytes|) == a.bytes
    && Span(mem, EndOf(areas, k), |a.filler|) == a.filler
  }

  /**
   The ring mem holds every reservation from number done on: they follow each other,
   they fit in one turn of the ring, and every byte of each is in place.
   */
  ghost predicate Laid(mem: seq<Byte>, areas: seq<Area>, done: nat) {
    && |mem| > 0
    && Chained(|mem|, areas)
    && done <= |areas|
    && EndOf(areas, |areas|) <= EndOf(areas, done) + |mem|
    && forall k | done <= k < |areas| :: InPlace(mem, areas, k)
  }

  /** A store inside live record k changes that record's bytes and no other live byte. */
  lemma StoreInArea(mem: seq<Byte>, areas: seq<Area>, done: nat, k: nat, d: nat, data: seq<Byte>)
    requires Laid(mem, areas, done) && done <= k < |areas|
    requires d + |data| <= |areas[k].bytes|
    ensures areas[k].off % |mem| + |areas[k].bytes| <= |mem|
    ensures Laid(Splice(mem, areas[k].off % |mem| + d, data),
                 areas[k := areas[k].(bytes := Splice(areas[k].bytes, d, data))], done)
  {
    var n, a := |mem|, areas[k];
    assert AreaOk(n, areas, k);
    PlaceFits(n, EndOf(areas, k), |a.bytes|);
    var mem', areas' := Splice(mem, a.off % n + d, data), areas[k := a.(bytes := Splice(a.bytes, d, data))];
    assert forall j | 0 <= j <= |areas| :: EndOf(areas', j) == EndOf(areas, j);
    forall j | 0 <= j < |areas|
      ensures AreaOk(n, areas', j)
    {
      assert AreaOk(n, areas, j);
    }
    forall j | done <= j < |areas|
      ensures InPlace(mem', areas', j)
    {
      assert InPlace(mem, areas, j);
      StoreMisses(mem, areas, done, k, d, data, j);
      if j == k {
        SpanOfSplice(mem, a.off, d, data, |a.bytes|);
      }
    }
  }

  lemma StoreMisses(mem: seq<Byte>, areas: seq<Area>, done: nat, k: nat, d: nat, data: seq<Byte>, j: nat)
    requires Laid(mem, areas, done) && done <= k < |areas| && done <= j < |areas|
    requires areas[k].off % |mem| + |areas[k].bytes| <= |mem|
    requires d + |data| <= |areas[k].bytes|
    ensures var mem', b := Splice(mem, areas[k].off % |mem| + d, data), areas[j];
            && (j != k ==> Span(mem', b.off, |b.bytes|) == Span(mem, b.off, |b.bytes|))
            && Span(mem', EndOf(areas, j), |b.filler|) == Span(mem, EndOf(areas, j), |b.filler|)
  {
    var n, a, b := |mem|, areas[k], areas[j];
    EndsGrow(n, areas, done, j);
    EndsGrow(n, areas, done, k);
    EndsGrow(n, areas, j + 1, |areas|);
    EndsGrow(n, areas, k + 1, |areas|);
    assert AreaOk(n, areas, j) && AreaOk(n, areas, k);
    if j < k {
      AreasDisjoint(n, areas, j, k);
    } else if k < j {
      AreasDisjoint(n, areas, k, j);
    }
    if j != k {
      SpanOutsideSplice(mem, a.off, d, data, |a.bytes|, b.off, |b.bytes|);
    }
    SpanOutsideSplice(mem, a.off, d, data, |a.bytes|, EndOf(areas, j), |b.filler|);
  }

  /** The ring after a reservation: the filler header at the old head, the record header at its place. */
  function AfterReserve(mem: seq<Byte>, head: nat, need: nat, filler: seq<Byte>, hdr: seq<Byte>): (r: seq<Byte>)
    requires |mem| > 0 && |hdr| <= need <= |mem| && |filler| <= Pad(|mem|, head, need)
    ensures |r| == |mem|
  {
    PlaceFits(|mem|, head, need);
    Splice(Splice(mem, head % |mem|, filler), Place(|mem|, head, need) % |mem|, hdr)
  }

  /** The area a reservation takes; beyond the header it holds whatever the ring held there. */
  function NewArea(mem: seq<Byte>, head: nat, need: nat, filler: seq<Byte>, hdr: seq<Byte>): (a: Area)
    requires |mem| > 0 && |hdr| <= need
    ensures |a.bytes| == need
  {
    var off := Place(|mem|, head, need);
    Area(off, hdr + Span(mem, off + |hdr|, need - |hdr|), filler)
  }

  lemma ReserveLays(mem: seq<Byte>, areas: seq<Area>, done: nat, need: nat, filler: seq<Byte>, hdr: seq<Byte>)
    requires Laid(mem, areas, done) && EndOf(areas, done) <= EndOf(areas, |areas|)
    requires 0 < |hdr| <= need && |filler| <= Pad(|mem|, EndOf(areas, |areas|), need)
    requires Admits(|mem|, EndOf(areas, |areas|), EndOf(areas, done), need)
    ensures var head := EndOf(areas, |areas|);
            Laid(AfterReserve(mem, head, need, filler, hdr), areas + [NewArea(mem, head, need, filler, hdr)], done)
  {
    var n, head := |mem|, EndOf(areas, |areas|);
    var a, mem' := NewArea(mem, head, need, filler, hdr), AfterReserve(mem, head, need, filler, hdr);
    var areas' := areas + [a];
    PlaceFits(n, head, need);
    assert forall j | 0 <= j <= |areas| :: EndOf(areas', j) == EndOf(areas, j);
    forall j | 0 <= j < |areas'|
      ensures AreaOk(n, areas', j)
    {
      if j < |areas| { assert AreaOk(n, areas, j); }
    }
    forall j | done <= j < |areas'|
      ensures InPlace(mem', areas', j)
    {
      if j < |areas| {
        assert InPlace(mem, areas, j);
        ReserveKeeps(mem, areas, done, need, filler, hdr, j);
      } else {
        ReserveWrites(mem, head, need, filler, hdr);
      }
    }
  }

  lemma ReserveKeeps(mem: seq<Byte>, areas: seq<Area>, done: nat, need: nat, filler: seq<Byte>, hdr: seq<Byte>, j: nat)
    requires Laid(mem, areas, done) && done <= j < |areas| && EndOf(areas, done) <= EndOf(areas, |areas|)
    requires |hdr| <= need && |filler| <= Pad(|mem|, EndOf(areas, |areas|), need)
    requires Admits(|mem|, EndOf(areas, |areas|), EndOf(areas, done), need)
    ensures var mem', b := AfterReserve(mem, EndOf(areas, |areas|), need, filler, hdr), areas[j];
            && Span(mem', b.off, |b.bytes|) == Span(mem, b.off, |b.bytes|)
            && Span(mem', EndOf(areas, j), |b.filler|) == Span(mem, EndOf(areas, j), |b.filler|)
  {
    var head, b := EndOf(areas, |areas|), areas[j];
    EndsGrow(|mem|, areas, done, j);
    EndsGrow(|mem|, areas, j + 1, |areas|);
    assert AreaOk(|mem|, areas, j);
    ReserveMisses(mem, head, need, filler, hdr, b.off, |b.bytes|);
    ReserveMisses(mem, head, need, filler, hdr, EndOf(areas, j), |b.filler|);
  }

  /** A reservation at head stores nothing in the part of the window below head. */
  lemma ReserveMisses(mem: seq<Byte>, head: nat, need: nat, filler: seq<Byte>, hdr: seq<Byte>, b: nat, m: nat)
    requires |mem| > 0 && |hdr| <= need && |filler| <= Pad(|mem|, head, need)
    requires b + m <= head && need + Pad(|mem|, head, need) <= |mem| - (head - b)
    ensures Span(AfterReserve(mem, head, need, filler, hdr), b, m) == Span(mem, b, m)
  {
    hide Span, Pad;
    var n, off := |mem|, Place(|mem|, head, need);
    PlaceFits(n, head, need);
    SpanOutsideSplice(mem, head, 0, filler, |filler|, b, m);
    SpanOutsideSplice(Splice(mem, head % n, filler), off, 0, hdr, need, b, m);
  }

  lemma ReserveWrites(mem: seq<Byte>, head: nat, need: nat, filler: seq<Byte>, hdr: seq<Byte>)
    requires |mem| > 0 && |hdr| <= need && need + Pad(|mem|, head, need) <= |mem|
    requires |filler| <= Pad(|mem|, head, need)
    ensures var mem', a := AfterReserve(mem, head, need, filler, hdr), NewArea(mem, head, need, filler, hdr);
            Span(mem', a.off, need) == a.bytes && Span(mem', head, |filler|) == filler
  {
    hide Span, Pad;
    var n, off := |mem|, Place(|mem|, head, need);
    PlaceFits(n, head, need);
    var m := Splice(mem, head % n, filler);
    var mem' := Splice(m, off % n, hdr);
    assert Span(m, off, need) == Span(mem, off, need) by {
      SpanOutsideSplice(mem, head, 0, filler, |filler|, off, need);
    }
    assert Span(mem', head, |filler|) == filler by {
      SpanOutsideSplice(m, off, 0, hdr, need, head, |filler|);
      SpanOfSplice(mem, head, 0, filler, |filler|);
    }
    assert Span(mem', off, need) == Splice(Span(m, off, need), 0, hdr) by {
      SpanOfSplice(m, off, 0, hdr, need);
    }
    SpliceFront(Span(m, off, need), hdr);
    SpanSplit(mem, off, |hdr|, need);
  }
}
