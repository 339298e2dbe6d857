/** Single bits of unsigned words: the C expressions (w >> i) & 1 and w | (1 << i). */
module Bits {

  /** w >> i */
  function Shr(w: nat, i: nat): nat {
    if i == 0 then w else Shr(w / 2, i - 1)
  }

  /** (w >> i) & 1 */
  predicate Bit(w: nat, i: nat) {
    Shr(w, i) % 2 == 1
  }

  /** 1 << k */
  function Shl1(k: nat): (p: nat)
    ensures p >= 1
  {
    if k == 0 then 1 else 2 * Shl1(k - 1)
  }

  lemma {:induction false} Shl1Add(i: nat, j: nat)
    ensures Shl1(i + j) == Shl1(i) * Shl1(j)
  {
    if i > 0 {
      Shl1Add(i - 1, j);
      assert Shl1(i) * Shl1(j) == 2 * (Shl1(i - 1) * Shl1(j));
    }
  }

  lemma ByteRadix()
    ensures Shl1(8) == 256
  {
    assert Shl1(8) == 4 * Shl1(6) && Shl1(6) == 4 * Shl1(4) && Shl1(4) == 4 * Shl1(2) && Shl1(2) == 4;
  }

  /** w | (1 << i) */
  function SetBit(w: nat, i: nat): (r: nat)
    ensures r >= w
  {
    if i == 0 then (if w % 2 == 1 then w else w + 1)
    else 2 * SetBit(w / 2, i - 1) + w % 2
  }

  lemma {:induction false} SetBitSets(w: nat, i: nat, j: nat)
    ensures Bit(SetBit(w, i), j) <==> j == i || Bit(w, j)
  {
    if i > 0 {
      assert SetBit(w, i) / 2 == SetBit(w / 2, i - 1);
      if j > 0 {
        SetBitSets(w / 2, i - 1, j - 1);
      }
    } else if j > 0 {
      assert SetBit(w, 0) / 2 == w / 2;
    }
  }

  lemma {:induction false} SetBitFits(w: nat, i: nat, k: nat)
    requires i < k && w < Shl1(k)
    ensures SetBit(w, i) < Shl1(k)
  {
    assert Shl1(k) == 2 * Shl1(k - 1);
    if i > 0 {
      assert w / 2 < Shl1(k - 1);
      SetBitFits(w / 2, i - 1, k - 1);
      assert SetBit(w, i) == 2 * SetBit(w / 2, i - 1) + w % 2;
    }
  }

  lemma {:induction false} ShrShr(w: nat, i: nat, j: nat)
    ensures Shr(Shr(w, i), j) == Shr(w, i + j)
  {
    if i > 0 {
      ShrShr(w / 2, i - 1, j);
    }
  }

  lemma {:induction false} ZeroBits(i: nat)
    ensures !Bit(0, i)
  {
    if i > 0 {
      ZeroBits(i - 1);
    }
  }

  /** The low k bits of a number are the bits of its remainder. */
  lemma {:induction false} BitOfRemainder(w: nat, k: nat, j: nat)
    requires j < k
    ensures Bit(w % Shl1(k), j) == Bit(w, j)
  {
    var p := Shl1(k - 1);
    ModDouble(w, p);
    if j > 0 {
      BitOfRemainder(w / 2, k - 1, j - 1);
    }
  }

  lemma ModDouble(w: nat, p: nat)
    requires p >= 1
    ensures w % (2 * p) == 2 * (w / 2 % p) + w % 2
    ensures w % (2 * p) / 2 == w / 2 % p
    ensures w % (2 * p) % 2 == w % 2
  {
    var q, r := w / 2 / p, w / 2 % p;
    assert w == 2 * (q * p + r) + w % 2;
    ModUnique(w, 2 * p, q, 2 * r + w % 2);
  }

  lemma ModUnique(a: nat, n: nat, q: nat, r: nat)
    requires n > 0 && r < n
    requires a == q * n + r
    ensures a % n == r && a / n == q
  {
    var q', r' := a / n, a % n;
    assert (q - q') * n == r' - r;
    if q > q' {
      MulAtLeast(q - q', n);
    } else if q < q' {
      assert (q' - q) * n == r - r' by { assert (q' - q) * n == -((q - q') * n); }
      MulAtLeast(q' - q, n);
    }
  }

  lemma MulAtLeast(k: nat, n: nat)
    requires k >= 1
    ensures k * n >= n
  {
    assert k * n == (k - 1) * n + n;
  }
}
