/**
 The record format shared by the kernel ring, the /dev/cdpN stream and both
 user-space readers: little-endian packing, the 56-byte header, and frames
 (a header followed by its 8-aligned body).
 */
module Records {

  type Byte = x: int | 0 <= x < 256

  datatype Option<+T> = None | Some(value: T)

  const REC_MAGIC := 0x52504443
  const ABI_VERSION := 1
  const REC_SIZE := 56

  const REC_WRITE := 1
  const REC_FLUSH := 2
  const REC_DISCARD := 3
  const REC_ZERO := 4
  const REC_PAD := 5

  const ST_RESERVED := 0
  const ST_DATA := 1
  const ST_COMMITTED := 2

  /* ------------------------------------------------------------------ */
  /* little-endian numbers                                              */

  function Pow256(k: nat): (p: nat)
    ensures p >= 1
  {
    if k == 0 then 1 else 256 * Pow256(k - 1)
  }

  /** The k low bytes of n, least significant first. */
  function LE(n: nat, k: nat): (s: seq<Byte>)
    ensures |s| == k
  {
    if k == 0 then [] else [n % 256] + LE(n / 256, k - 1)
  }

  function FromLE(s: seq<Byte>): nat {
    if s == [] then 0 else s[0] + 256 * FromLE(s[1..])
  }

  lemma {:induction false} LERoundTrip(n: nat, k: nat)
    requires n < Pow256(k)
    ensures FromLE(LE(n, k)) == n
  {
    if k == 0 {
    } else {
      LERoundTrip(n / 256, k - 1);
      assert LE(n, k)[1..] == LE(n / 256, k - 1);
    }
  }

  lemma {:induction false} FromLERoundTrip(s: seq<Byte>)
    ensures LE(FromLE(s), |s|) == s
  {
    if s != [] {
      FromLERoundTrip(s[1..]);
      assert FromLE(s) % 256 == s[0] && FromLE(s) / 256 == FromLE(s[1..]);
    }
  }

  /* ------------------------------------------------------------------ */
  /* struct packing                                                     */

  /** Byte offset of field k in a structure with the given field widths. */
  function OffsetOf(widths: seq<nat>, k: nat): nat
    requires k <= |widths|
  {
    if k == 0 then 0 else OffsetOf(widths, k - 1) + widths[k - 1]
  }

  /** The first k fields, one after another. */
  function Pack(widths: seq<nat>, values: seq<nat>, k: nat): (s: seq<Byte>)
    requires |widths| == |values| && k <= |widths|
    ensures |s| == OffsetOf(widths, k)
  {
    if k == 0 then [] else Pack(widths, values, k - 1) + LE(values[k - 1], widths[k - 1])
  }

  /** Field k of a structure stored at the start of s. */
  function FieldAt(widths: seq<nat>, s: seq<Byte>, k: nat): nat
    requires k < |widths| && OffsetOf(widths, k) + widths[k] <= |s|
  {
    FromLE(s[OffsetOf(widths, k)..OffsetOf(widths, k) + widths[k]])
  }

  ghost predicate Fits(widths: seq<nat>, values: seq<nat>) {
    |widths| == |values| && forall k | 0 <= k < |widths| :: values[k] < Pow256(widths[k])
  }

  lemma {:induction false} OffsetWithin(widths: seq<nat>, j: nat, k: nat)
    requires j < k <= |widths|
    ensures OffsetOf(widths, j) + widths[j] <= OffsetOf(widths, k)
  {
    if j < k - 1 {
      OffsetWithin(widths, j, k - 1);
    }
  }

  lemma {:induction false} FieldBytes(widths: seq<nat>, values: seq<nat>, k: nat, j: nat, rest: seq<Byte>)
    requires |widths| == |values| && j < k <= |widths|
    ensures OffsetOf(widths, j) + widths[j] <= OffsetOf(widths, k)
    ensures (Pack(widths, values, k) + rest)[OffsetOf(widths, j)..OffsetOf(widths, j) + widths[j]]
            == LE(values[j], widths[j])
  {
    OffsetWithin(widths, j, k);
    var last := LE(values[k - 1], widths[k - 1]);
    assert Pack(widths, values, k) + rest == Pack(widths, values, k - 1) + (last + rest);
    if j < k - 1 {
      FieldBytes(widths, values, k - 1, j, last + rest);
    }
  }

  /** Every packed field is read back, whatever follows the structure. */
  lemma FieldRoundTrip(widths: seq<nat>, values: seq<nat>, j: nat, rest: seq<Byte>)
    requires |widths| == |values| && j < |widths| && values[j] < Pow256(widths[j])
    ensures OffsetOf(widths, j) + widths[j] <= OffsetOf(widths, |widths|)
    ensures FieldAt(widths, Pack(widths, values, |widths|) + rest, j) == values[j]
  {
    hide LE, FromLE, Pack, OffsetOf, Pow256;
    FieldBytes(widths, values, |widths|, j, rest);
    LERoundTrip(values[j], widths[j]);
  }

  /** s with the bytes from pos on replaced by data. */
  function Splice(s: seq<Byte>, pos: nat, data: seq<Byte>): (r: seq<Byte>)
    requires pos + |data| <= |s|
    ensures |r| == |s|
    ensures forall i | 0 <= i < |r| :: r[i] == if pos <= i < pos + |data| then data[i - pos] else s[i]
  {
    s[..pos] + data + s[pos + |data|..]
  }

  lemma SpliceLeft(a: seq<Byte>, b: seq<Byte>, pos: nat, data: seq<Byte>)
    requires pos + |data| <= |a|
    ensures Splice(a + b, pos, data) == Splice(a, pos, data) + b
  {
  }

  lemma SpliceRight(a: seq<Byte>, b: seq<Byte>, data: seq<Byte>)
    requires |data| == |b|
    ensures Splice(a + b, |a|, data) == a + data
  {
  }

  /** Storing one field in place is packing the structure with that field changed. */
  lemma {:induction false} PackUpdate(widths: seq<nat>, values: seq<nat>, k: nat, j: nat, x: nat)
    requires |widths| == |values| && j < |widths| && k <= |widths|
    ensures j < k ==> OffsetOf(widths, j) + widths[j] <= OffsetOf(widths, k)
    ensures Pack(widths, values[j := x], k)
            == if j < k then Splice(Pack(widths, values, k), OffsetOf(widths, j), LE(x, widths[j]))
               else Pack(widths, values, k)
  {
    hide Splice;
    if k > 0 {
      PackUpdate(widths, values, k - 1, j, x);
      var front, last := Pack(widths, values, k - 1), LE(values[k - 1], widths[k - 1]);
      if j < k - 1 {
        SpliceLeft(front, last, OffsetOf(widths, j), LE(x, widths[j]));
      } else if j == k - 1 {
        SpliceRight(front, last, LE(x, widths[j]));
      }
    }
  }

  /* ------------------------------------------------------------------ */
  /* the record header                                                  */

  /** struct dm_cdp_rec, field for field. */
  datatype Header = Header(magic: nat, version: nat, rtype: nat, flags: nat, state: nat, seqno: nat,
                           sector: nat, len: nat, recLen: nat, ts: nat, reserved: nat)

  /** Field widths of struct dm_cdp_rec: the format "<IHHIIQQIIQQ". */
  const REC_FMT: seq<nat> := [4, 2, 2, 4, 4, 8, 8, 4, 4, 8, 8]

  const FLAGS_FIELD := 3
  const STATE_FIELD := 4

  function Fields(h: Header): (v: seq<nat>)
    ensures |v| == |REC_FMT|
  {
    [h.magic, h.version, h.rtype, h.flags, h.state, h.seqno, h.sector, h.len, h.recLen, h.ts, h.reserved]
  }

  /** Every field fits its width in the structure. */
  ghost predicate HeaderFits(h: Header) {
    Fits(REC_FMT, Fields(h))
  }

  lemma FormatSize()
    ensures OffsetOf(REC_FMT, FLAGS_FIELD) == 8
    ensures OffsetOf(REC_FMT, STATE_FIELD) == 12
    ensures OffsetOf(REC_FMT, |REC_FMT|) == REC_SIZE
  {
    assert OffsetOf(REC_FMT, 2) == OffsetOf(REC_FMT, 1) + 2 == 6;
    assert OffsetOf(REC_FMT, 4) == OffsetOf(REC_FMT, 3) + 4 == 12;
    assert OffsetOf(REC_FMT, 6) == OffsetOf(REC_FMT, 5) + 8 == 24;
    assert OffsetOf(REC_FMT, 8) == OffsetOf(REC_FMT, 7) + 4 == 36;
    assert OffsetOf(REC_FMT, 10) == OffsetOf(REC_FMT, 9) + 8 == 48;
  }

  function EncodeHeader(h: Header): (s: seq<Byte>)
    ensures |s| == REC_SIZE
  {
    FormatSize();
    Pack(REC_FMT, Fields(h), |REC_FMT|)
  }

  /** The layout of struct dm_cdp_rec: its fields one after the other, little-endian. */
  lemma HeaderLayout(h: Header)
    ensures EncodeHeader(h)
            == LE(h.magic, 4) + LE(h.version, 2) + LE(h.rtype, 2) + LE(h.flags, 4) + LE(h.state, 4) + LE(h.seqno, 8)
               + LE(h.sector, 8) + LE(h.len, 4) + LE(h.recLen, 4) + LE(h.ts, 8) + LE(h.reserved, 8)
  {
    hide LE;
    FormatSize();
    var w, v := REC_FMT, Fields(h);
    assert Pack(w, v, 0) == [];
    assert Pack(w, v, 11) == Pack(w, v, 10) + LE(h.reserved, 8);
    assert Pack(w, v, 10) == Pack(w, v, 9) + LE(h.ts, 8);
    assert Pack(w, v, 9) == Pack(w, v, 8) + LE(h.recLen, 4);
    assert Pack(w, v, 8) == Pack(w, v, 7) + LE(h.len, 4);
    assert Pack(w, v, 7) == Pack(w, v, 6) + LE(h.sector, 8);
    assert Pack(w, v, 6) == Pack(w, v, 5) + LE(h.seqno, 8);
    assert Pack(w, v, 5) == Pack(w, v, 4) + LE(h.state, 4);
    assert Pack(w, v, 4) == Pack(w, v, 3) + LE(h.flags, 4);
    assert Pack(w, v, 3) == Pack(w, v, 2) + LE(h.rtype, 2);
    assert Pack(w, v, 2) == Pack(w, v, 1) + LE(h.version, 2);
    assert Pack(w, v, 1) == Pack(w, v, 0) + LE(h.magic, 4);
  }

  /** Field k of the record header at the start of s. */
  function HeaderField(s: seq<Byte>, k: nat): nat
    requires |s| >= REC_SIZE && k < |REC_FMT|
  {
    FormatSize();
    OffsetWithin(REC_FMT, k, |REC_FMT|);
    FieldAt(REC_FMT, s, k)
  }

  function DecodeHeader(s: seq<Byte>): Header
    requires |s| >= REC_SIZE
  {
    Header(HeaderField(s, 0), HeaderField(s, 1), HeaderField(s, 2), HeaderField(s, 3), HeaderField(s, 4),
           HeaderField(s, 5), HeaderField(s, 6), HeaderField(s, 7), HeaderField(s, 8), HeaderField(s, 9),
           HeaderField(s, 10))
  }

  lemma HeaderFieldRoundTrip(h: Header, rest: seq<Byte>, k: nat)
    requires HeaderFits(h) && k < |REC_FMT|
    ensures HeaderField(EncodeHeader(h) + rest, k) == Fields(h)[k]
  {
    hide Pack, OffsetOf, FieldAt, Pow256;
    FieldRoundTrip(REC_FMT, Fields(h), k, rest);
  }

  /** Decoding reads back every header field, whatever bytes follow the header. */
  lemma HeaderRoundTrip(h: Header, rest: seq<Byte>)
    requires HeaderFits(h)
    ensures DecodeHeader(EncodeHeader(h) + rest) == h
  {
    hide EncodeHeader, HeaderField, HeaderFits;
    forall k: nat | k < |REC_FMT|
      ensures HeaderField(EncodeHeader(h) + rest, k) == Fields(h)[k]
    {
      HeaderFieldRoundTrip(h, rest, k);
    }
  }

  ghost predicate HoldsField(widths: seq<nat>, s: seq<Byte>, values: seq<nat>, k: nat) {
    && k < |values| && k < |widths|
    && OffsetOf(widths, k) + widths[k] <= |s| && values[k] == FieldAt(widths, s, k)
  }

  lemma {:induction false} PackFields(widths: seq<nat>, s: seq<Byte>, values: seq<nat>, k: nat)
    requires |values| == |widths| && k <= |widths|
    requires OffsetOf(widths, k) <= |s|
    requires forall j: nat | j < k :: HoldsField(widths, s, values, j)
    ensures Pack(widths, values, k) == s[..OffsetOf(widths, k)]
  {
    hide LE, FromLE, FieldAt;
    if k > 0 {
      assert HoldsField(widths, s, values, k - 1);
      PackFields(widths, s, values, k - 1);
      FieldStored(widths, s, k - 1);
      SliceGrows(s, OffsetOf(widths, k - 1), widths[k - 1]);
    }
  }

  lemma FieldStored(widths: seq<nat>, s: seq<Byte>, k: nat)
    requires k < |widths| && OffsetOf(widths, k) + widths[k] <= |s|
    ensures LE(FieldAt(widths, s, k), widths[k]) == s[OffsetOf(widths, k)..OffsetOf(widths, k) + widths[k]]
  {
    hide LE, FromLE, OffsetOf;
    FromLERoundTrip(s[OffsetOf(widths, k)..OffsetOf(widths, k) + widths[k]]);
  }

  lemma SliceGrows(s: seq<Byte>, a: nat, w: nat)
    requires a + w <= |s|
    ensures s[..a + w] == s[..a] + s[a..a + w]
  {
  }

  /** Encoding a decoded header gives back the bytes it was decoded from. */
  lemma DecodeEncode(s: seq<Byte>)
    requires |s| >= REC_SIZE
    ensures EncodeHeader(DecodeHeader(s)) == s[..REC_SIZE]
  {
    hide Pack, OffsetOf, FieldAt;
    FormatSize();
    var h := DecodeHeader(s);
    forall k: nat | k < |REC_FMT|
      ensures HoldsField(REC_FMT, s, Fields(h), k)
    {
      OffsetWithin(REC_FMT, k, |REC_FMT|);
      FieldsOfDecoded(s, k);
    }
    PackFields(REC_FMT, s, Fields(h), |REC_FMT|);
  }

  lemma FieldsOfDecoded(s: seq<Byte>, k: nat)
    requires |s| >= REC_SIZE && k < |REC_FMT|
    ensures Fields(DecodeHeader(s))[k] == HeaderField(s, k)
  {
    hide HeaderField;
    assert k in {0, 1, 2, 3, 4, 5, 6, 7, 8, 9, 10};
  }

  /** Storing the state word in place changes the state field and nothing else. */
  lemma StoreState(h: Header, state: nat)
    ensures EncodeHeader(h.(state := state)) == Splice(EncodeHeader(h), 12, LE(state, 4))
  {
    hide Pack, OffsetOf, Splice;
    FormatSize();
    PackUpdate(REC_FMT, Fields(h), |REC_FMT|, STATE_FIELD, state);
    assert Fields(h.(state := state)) == Fields(h)[STATE_FIELD := state];
  }

  /** Storing the flags word in place changes the flags field and nothing else. */
  lemma StoreFlags(h: Header, flags: nat)
    ensures EncodeHeader(h.(flags := flags)) == Splice(EncodeHeader(h), 8, LE(flags, 4))
  {
    hide Pack, OffsetOf, Splice;
    FormatSize();
    PackUpdate(REC_FMT, Fields(h), |REC_FMT|, FLAGS_FIELD, flags);
    assert Fields(h.(flags := flags)) == Fields(h)[FLAGS_FIELD := flags];
  }

  /* ------------------------------------------------------------------ */
  /* frames                                                             */

  /** A record as it stands in memory or in the stream: header, then payload and alignment bytes. */
  datatype Frame = Frame(hdr: Header, body: seq<Byte>)

  function FrameBytes(f: Frame): (s: seq<Byte>)
    ensures |s| == REC_SIZE + |f.body|
  {
    EncodeHeader(f.hdr) + f.body
  }

  ghost predicate WellFormed(f: Frame) {
    && HeaderFits(f.hdr)
    && f.hdr.magic == REC_MAGIC
    && f.hdr.recLen == REC_SIZE + |f.body|
    && f.hdr.recLen % 8 == 0
    && (f.hdr.rtype == REC_WRITE ==> f.hdr.len <= |f.body|)
  }

  /** The bytes a reader takes as the data of the record. */
  function Payload(f: Frame): seq<Byte> {
    if f.hdr.rtype != REC_WRITE then [] else if f.hdr.len <= |f.body| then f.body[..f.hdr.len] else f.body
  }

  function Concat(frames: seq<Frame>): seq<Byte> {
    if frames == [] then [] else FrameBytes(frames[0]) + Concat(frames[1..])
  }

  lemma {:induction false} ConcatAppend(a: seq<Frame>, b: seq<Frame>)
    ensures Concat(a + b) == Concat(a) + Concat(b)
  {
    hide FrameBytes;
    if a == [] {
      assert a + b == b;
    } else {
      ConcatAppend(a[1..], b);
      assert (a + b)[1..] == a[1..] + b;
    }
  }

  /** ALIGN(n, 8), and the `(n + 7) & ~7` of pack_rec. */
  function Align8(n: nat): (r: nat)
    ensures n <= r < n + 8 && r % 8 == 0
  {
    (n + 7) / 8 * 8
  }
}
