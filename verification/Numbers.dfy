/** Bytes and powers of two. */
module Numbers {

  type Byte = b: nat | b < 256

  function Pow2(n: nat): (r: nat)
    ensures r >= 1
  {
    if n == 0 then 1 else 2 * Pow2(n - 1)
  }

  /** The quotient is the only number of blocks of d below a. */
  lemma QuotientIs(a: nat, d: nat, q: nat)
    requires q * d <= a < q * d + d
    ensures a / d == q
  {
    var r := a / d;
    assert a == r * d + a % d;
    BlocksBelow(r, q, d);
    BlocksBelow(q, r, d);
  }

  lemma {:induction false} BlocksBelow(r: nat, q: nat, d: nat)
    ensures r < q ==> r * d + d <= q * d
    decreases q
  {
    if r < q {
      BlocksBelow(r, q - 1, d);
      assert q * d == (q - 1) * d + d;
    }
  }

  lemma FourMore(k: nat)
    ensures Pow2(k + 4) == 16 * Pow2(k)
  {
    assert Pow2(k + 1) == 2 * Pow2(k) && Pow2(k + 2) == 2 * Pow2(k + 1);
    assert Pow2(k + 3) == 2 * Pow2(k + 2) && Pow2(k + 4) == 2 * Pow2(k + 3);
  }

  lemma SixteenMore(k: nat)
    ensures Pow2(k + 16) == 65536 * Pow2(k)
  {
    FourMore(k);
    FourMore(k + 4);
    FourMore(k + 8);
    FourMore(k + 12);
  }

  /** The number of addresses of the two families. */
  lemma Pow2Values(zero: nat)
    requires zero == 0
    ensures Pow2(zero + 32) == 0x1_0000_0000
    ensures Pow2(zero + 128) == 0x1_0000_0000_0000_0000_0000_0000_0000_0000
  {
    assert Pow2(zero) == 1;
    SixteenMore(zero);
    SixteenMore(zero + 16);
    SixteenMore(zero + 32);
    SixteenMore(zero + 48);
    SixteenMore(zero + 64);
    SixteenMore(zero + 80);
    SixteenMore(zero + 96);
    SixteenMore(zero + 112);
  }

  lemma FourGiga()
    ensures Pow2(32) == 0x1_0000_0000
  {
    Pow2Values(0);
  }

  /** Halving first. */
  lemma HalfThenDivide(a: nat, d: nat)
    requires d > 0
    ensures a / (2 * d) == a / 2 / d
  {
    var q := a / 2 / d;
    assert a / 2 == q * d + a / 2 % d;
    assert q * (2 * d) == 2 * (q * d);
    QuotientIs(a, 2 * d, q);
  }

  /** Bit i of a number, and the same by halving. */
  function Bit(n: nat, i: nat): (b: nat)
    ensures b < 2
  {
    n / Pow2(i) % 2
  }

  function BitByHalving(n: nat, i: nat): (b: nat)
    ensures b < 2
  {
    if i == 0 then n % 2 else BitByHalving(n / 2, i - 1)
  }

  lemma {:induction false} BitIsByHalving(n: nat, i: nat)
    ensures Bit(n, i) == BitByHalving(n, i)
  {
    if i > 0 {
      BitIsByHalving(n / 2, i - 1);
      HalfThenDivide(n, Pow2(i - 1));
    }
  }
}
