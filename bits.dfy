/**
 * Python's `&`, `|` and `<<` on non-negative integers, which are unbounded: no width, no
 * wrap-around. Bitwise operators work bit by bit from the least significant end.
 */
module Bits {

  function Pow(base: nat, exp: nat): (r: nat)
    ensures base > 0 ==> r > 0
  {
    if exp == 0 then 1 else base * Pow(base, exp - 1)
  }

  lemma {:induction false} PowAdd(base: nat, m: nat, n: nat)
    ensures Pow(base, m + n) == Pow(base, m) * Pow(base, n)
  {
    if n > 0 {
      PowAdd(base, m, n - 1);
      assert Pow(base, m + n) == base * Pow(base, m + n - 1);
      assert base * (Pow(base, m) * Pow(base, n - 1)) == Pow(base, m) * (base * Pow(base, n - 1));
    }
  }

  /** The powers of two behind the masks and shifts of the dynamic truncation. */
  lemma PowersOfTwo()
    ensures Pow(2, 4) == 16 && Pow(2, 7) == 128 && Pow(2, 8) == 256
    ensures Pow(2, 16) == 0x1_0000 && Pow(2, 24) == 0x100_0000
  {
    assert Pow(2, 8) == 256;
    assert Pow(2, 16) == Pow(2, 8) * Pow(2, 8) by { PowAdd(2, 8, 8); }
    assert Pow(2, 24) == Pow(2, 16) * Pow(2, 8) by { PowAdd(2, 16, 8); }
  }

  /** `x & y` */
  function BitAnd(x: nat, y: nat): (r: nat)
    ensures r <= x && r <= y
  {
    if x == 0 || y == 0 then 0
    else 2 * BitAnd(x / 2, y / 2) + (if x % 2 == 1 && y % 2 == 1 then 1 else 0)
  }

  /** `x | y` */
  function BitOr(x: nat, y: nat): (r: nat)
    ensures x <= r && y <= r && r <= x + y
  {
    if x == 0 then y
    else if y == 0 then x
    else 2 * BitOr(x / 2, y / 2) + (if x % 2 == 1 || y % 2 == 1 then 1 else 0)
  }

  /** `x << k` */
  function ShiftLeft(x: nat, k: nat): (r: nat)
    ensures r % Pow(2, k) == 0 && r / Pow(2, k) == x
  {
    DivModUnique(x * Pow(2, k), Pow(2, k), x, 0);
    x * Pow(2, k)
  }

  /** Multiplying by at least one does not make a positive number smaller. */
  lemma {:induction false} MulAtLeastOnce(m: nat, d: nat)
    requires d >= 1
    ensures m * d >= m
  {
    if d > 1 {
      MulAtLeastOnce(m, d - 1);
      assert m * d == m * (d - 1) + m;
    }
  }

  /** Division with remainder has a unique quotient and remainder. */
  lemma DivModUnique(x: int, m: int, q: int, r: int)
    requires m > 0 && 0 <= r < m && x == m * q + r
    ensures x / m == q && x % m == r
  {
    var q', r' := x / m, x % m;
    assert m * q + r == m * q' + r';
    if q > q' {
      assert m * (q - q') == r' - r;
      MulAtLeastOnce(m, q - q');
    } else if q < q' {
      assert m * (q' - q) == r - r';
      MulAtLeastOnce(m, q' - q);
    }
  }

  /** The remainder modulo `2p` from the remainder of `x / 2` modulo `p` and the lowest bit. */
  lemma ModOfDouble(x: nat, p: nat)
    requires p > 0
    ensures x % (2 * p) == 2 * ((x / 2) % p) + x % 2
  {
    var q := x / 2;
    assert q == p * (q / p) + q % p;
    assert x == (2 * p) * (q / p) + (2 * (q % p) + x % 2);
    DivModUnique(x, 2 * p, q / p, 2 * (q % p) + x % 2);
  }

  /** One step of `x & (2m + 1)`: the lowest bit of `x` is kept and the rest is masked with `m`. */
  lemma AndOddMask(x: nat, m: nat)
    ensures BitAnd(x, 2 * m + 1) == 2 * BitAnd(x / 2, m) + x % 2
  {
    assert (2 * m + 1) / 2 == m && (2 * m + 1) % 2 == 1;
  }

  /** Masking with `2^k - 1` (`0x0F`, `0x7F`, `0xFF`, ...) keeps the low `k` bits. */
  lemma {:induction false} AndLowMask(x: nat, k: nat)
    ensures BitAnd(x, Pow(2, k) - 1) == x % Pow(2, k)
  {
    if k > 0 {
      var p := Pow(2, k - 1);
      assert Pow(2, k) - 1 == 2 * (p - 1) + 1;
      AndOddMask(x, p - 1);
      AndLowMask(x / 2, k - 1);
      ModOfDouble(x, p);
    }
  }

  /** The three masks of the dynamic truncation, applied to a byte. */
  lemma ByteMasks(x: nat)
    requires x < 256
    ensures BitAnd(x, 0x0F) == x % 16 && BitAnd(x, 0x7F) == x % 128 && BitAnd(x, 0xFF) == x
  {
    assert Pow(2, 4) == 16 && Pow(2, 7) == 128 && Pow(2, 8) == 256;
    MaskOf(x, 4, 0x0F);
    MaskOf(x, 7, 0x7F);
    MaskOf(x, 8, 0xFF);
    DivModUnique(x, 256, 0, x);
  }

  lemma MaskOf(x: nat, k: nat, mask: nat)
    requires mask + 1 == Pow(2, k)
    ensures BitAnd(x, mask) == x % (mask + 1)
  {
    AndLowMask(x, k);
  }

  /** An or whose right operand fits below the shifted left operand's bits is an addition. */
  lemma {:induction false} OrShifted(x: nat, k: nat, y: nat)
    requires y < Pow(2, k)
    ensures BitOr(ShiftLeft(x, k), y) == ShiftLeft(x, k) + y
  {
    if k == 0 || x == 0 || y == 0 {
    } else {
      var p := Pow(2, k - 1);
      assert ShiftLeft(x, k) == 2 * ShiftLeft(x, k - 1);
      assert ShiftLeft(x, k) / 2 == ShiftLeft(x, k - 1) && ShiftLeft(x, k) % 2 == 0;
      OrShifted(x, k - 1, y / 2);
    }
  }
}
