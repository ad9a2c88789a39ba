/** Fixed-width unsigned integers of the firmware and the bit of an integer
    that a loop reading `v % 2` and then shifting `v >> 1` sees at each step. */
module Ints {

  type uint8 = x: int | 0 <= x < 0x100
  type uint16 = x: int | 0 <= x < 0x1_0000
  type uint32 = x: int | 0 <= x < 0x1_0000_0000
  type uint64 = x: int | 0 <= x < 0x1_0000_0000_0000_0000

  const Uint32Modulus: nat := 0x1_0000_0000
  const Uint64Modulus: nat := 0x1_0000_0000_0000_0000

  function Pow2(n: nat): (p: nat)
    ensures p >= 1
  {
    if n == 0 then 1 else 2 * Pow2(n - 1)
  }

  /** Bit `nr` of `v`: the value of `v % 2` after `nr` shifts of `v` right by one. */
  function Bit(v: nat, nr: nat): bool
  {
    if nr == 0 then v % 2 == 1 else Bit(v / 2, nr - 1)
  }

  /** Division with remainder is unique. */
  lemma DivModUnique(a: int, k: int, q: int, s: int)
    requires k > 0 && 0 <= s < k && a == k * q + s
    ensures a / k == q && a % k == s
  {
    var d := q - a / k;
    assert k * d == a % k - s;
  }

  lemma ModBelow(v: nat, p: nat)
    requires p > 0
    ensures v % p <= v
  {
    assert v == p * (v / p) + v % p;
    assert p * (v / p) >= 0;
  }

  /** Reducing modulo 2^n keeps the lowest bit and commutes with halving. */
  lemma ModPow2Halves(v: nat, n: nat)
    requires n >= 1
    ensures (v % Pow2(n)) % 2 == v % 2
    ensures (v % Pow2(n)) / 2 == (v / 2) % Pow2(n - 1)
  {
    var k := Pow2(n - 1);
    assert Pow2(n) == 2 * k;
    var q, r := v / (2 * k), v % (2 * k);
    assert v == 2 * (k * q) + r;
    DivModUnique(v, 2, k * q + r / 2, r % 2);
    DivModUnique(r, 2, r / 2, r % 2);
    DivModUnique(v / 2, k, q, r / 2);
  }

  /** Only the low `n` bits of a value are visible to a loop that reads `n` bits. */
  lemma {:induction false} BitOfLowBits(v: nat, n: nat, nr: nat)
    requires nr < n
    ensures Bit(v % Pow2(n), nr) == Bit(v, nr)
  {
    ModPow2Halves(v, n);
    if nr > 0 {
      BitOfLowBits(v / 2, n - 1, nr - 1);
    }
  }

  /** Every bit of 2^n - 1 below position n is 1. */
  lemma {:induction false} BitOfAllOnes(n: nat, nr: nat)
    requires nr < n
    ensures Bit(Pow2(n) - 1, nr)
  {
    DivModUnique(Pow2(n) - 1, 2, Pow2(n - 1) - 1, 1);
    if nr > 0 {
      BitOfAllOnes(n - 1, nr - 1);
    }
  }

  lemma {:induction false} BitOfZero(nr: nat)
    ensures !Bit(0, nr)
  {
    if nr > 0 {
      BitOfZero(nr - 1);
    }
  }
}
