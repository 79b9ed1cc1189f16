/** Powers of two, remainders and bitwise and on naturals. */
module Bits {

  lemma Multiple(d: int, k: int)
    requires d >= 0
    ensures k >= 1 ==> d * k >= d
    ensures k <= -1 ==> d * k <= -d
  {
    if k <= -1 {
      assert d * k == -(d * -k);
    }
  }

  lemma Unique(v: nat, d: nat, q: nat, r: nat)
    requires d > 0 && r < d && v == d * q + r
    ensures v % d == r
  {
    var k := v / d - q;
    assert d * k == d * (v / d) - d * q;
    assert d * k == r - v % d;
    Multiple(d, k);
    assert k == 0;
  }

  function Pow2(k: nat): (p: nat)
    ensures p > 0
  {
    if k == 0 then 1 else 2 * Pow2(k - 1)
  }

  /** Bitwise and. */
  function And(x: nat, y: nat): nat {
    if x == 0 || y == 0 then 0 else x % 2 * (y % 2) + 2 * And(x / 2, y / 2)
  }

  function Rem(x: nat, p: nat): nat
    requires p > 0
  {
    x % p
  }

  /** Masking with a power of two less one is taking the remainder. */
  lemma MaskIsRemainder(x: nat, k: nat)
    ensures And(x, Pow2(k) - 1) == x % Pow2(k)
  {
    hide And, Pow2;
    MaskIsRem(x, k);
  }

  lemma {:induction false} MaskIsRem(x: nat, k: nat)
    ensures And(x, Pow2(k) - 1) == Rem(x, Pow2(k))
  {
    hide And, Pow2, Rem;
    if k > 0 && x > 0 {
      MaskIsRem(x / 2, k - 1);
      PowerDoubles(k);
      MaskDoubles(x, Pow2(k - 1));
    } else {
      MaskBase(x, k);
    }
  }

  lemma PowerDoubles(k: nat)
    requires k > 0
    ensures Pow2(k) == 2 * Pow2(k - 1)
  {
  }

  lemma MaskDoubles(x: nat, p: nat)
    requires p > 0 && x > 0 && And(x / 2, p - 1) == Rem(x / 2, p)
    ensures And(x, 2 * p - 1) == Rem(x, 2 * p)
  {
    hide And, Rem;
    AndOdd(x, p);
    Halves(x, p);
  }

  lemma MaskBase(x: nat, k: nat)
    ensures k == 0 || x == 0 ==> And(x, Pow2(k) - 1) == Rem(x, Pow2(k))
  {
    if x == 0 {
      ZeroRem(Pow2(k));
    } else if k == 0 {
      assert Pow2(k) == 1 && Rem(x, 1) == 0;
    }
    hide Pow2, Rem;
  }

  lemma ZeroRem(p: nat)
    requires p > 0
    ensures Rem(0, p) == 0
  {
    Unique(0, p, 0, 0);
  }

  lemma AndOdd(x: nat, p: nat)
    requires p > 0 && x > 0
    ensures And(x, 2 * p - 1) == x % 2 + 2 * And(x / 2, p - 1)
  {
    assert (2 * p - 1) / 2 == p - 1 && (2 * p - 1) % 2 == 1;
  }

  lemma Halves(x: nat, p: nat)
    requires p > 0
    ensures Rem(x, 2 * p) == x % 2 + 2 * Rem(x / 2, p)
  {
    var q, r := x / 2 / p, x / 2 % p;
    assert 2 * (q * p) == (2 * p) * q;
    Unique(x, 2 * p, q, x % 2 + 2 * r);
  }

  /** Bit t of x. */
  predicate Bit(x: nat, t: nat) {
    if t == 0 then x % 2 == 1 else Bit(x / 2, t - 1)
  }

  /** Masking with one bit tests it. */
  lemma {:induction false} AndBit(x: nat, t: nat)
    ensures And(x, Pow2(t)) != 0 <==> Bit(x, t)
  {
    if t > 0 {
      AndBit(x / 2, t - 1);
      assert Pow2(t) == 2 * Pow2(t - 1);
    }
  }
}
