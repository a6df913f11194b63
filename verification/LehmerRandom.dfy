/** The Lehmer generator modulo 2^31 - 1 with multiplier 2^14 + 1, reduced by a shift and an addition. */
module LehmerRandom {
  const M := 0x7fff_ffff
  const TWO31 := 0x8000_0000
  const UINT32 := 0x1_0000_0000
  const A := 16385

  /** 16385 times this is one more than a multiple of 2^31 - 1. */
  const INVERSE := 920331411

  function Next(s: nat): nat {
    s * A % M
  }

  function Power(n: nat): nat {
    if n == 0 then 1 else A * Power(n - 1)
  }

  /** What the constructor makes of a 32-bit seed. */
  function Seeded(seed: nat): (s: nat)
    ensures 0 < s < M
  {
    var low := seed % TWO31;
    if low == 0 || low == M then 1 else low
  }

  lemma {:induction false} Congruent(x: int, k: int)
    ensures (x + k * M) % M == x % M
  {
  }

  /** Stepping back. */
  lemma {:induction false} NextBack(s: nat)
    requires s < M
    ensures Next(s) * INVERSE % M == s
  {
    var p := s * A;
    var q := p / M;
    assert Next(s) == p - q * M;
    var k := 7022;
    assert A * INVERSE == 1 + k * M;
    assert Next(s) * INVERSE == s + (s * k - q * INVERSE) * M;
    Congruent(s, s * k - q * INVERSE);
  }

  /** The generator permutes 1..2^31-2: it never reaches zero, and no two states have the same successor. */
  lemma {:induction false} NextPermutes(s: nat, t: nat)
    requires 0 < s < M && 0 < t < M
    ensures 0 < Next(s) < M && (Next(s) == Next(t) ==> s == t)
  {
    NextBack(s);
    NextBack(t);
  }

  /** The sum fits 32 bits and is congruent to the product; one subtraction reduces it. */
  lemma {:induction false} ShiftAndAdd(s: nat)
    requires 0 < s < M
    ensures var sum := s * A / TWO31 + s * A % TWO31;
            sum < UINT32 && sum % UINT32 == sum && Next(s) == if sum > M then sum - M else sum
  {
    var p := s * A;
    var q, r := p / TWO31, p % TWO31;
    NextPermutes(s, s);
    assert q <= A;
    assert p == (q + r) + q * M;
    Congruent(q + r, q);
  }

  lemma {:induction false} AfterN(s: nat, n: nat)
    requires 0 < s < M
    ensures Next(s * Power(n) % M) == s * Power(n + 1) % M
  {
    var x := s * Power(n);
    var q := x / M;
    assert x % M * A == x * A + (-q * A) * M;
    Congruent(x * A, -q * A);
    assert s * Power(n + 1) == x * A;
  }

  class Random {
    var seed: nat
    ghost const first: nat
    ghost var calls: nat

    /** The state after n calls is the first times 16385^n modulo 2^31 - 1, and never zero. */
    ghost predicate Valid()
      reads this
    {
      0 < first < M && 0 < seed < M && seed == first * Power(calls) % M
    }

    constructor (seed: nat)
      requires seed < UINT32
      ensures Valid() && calls == 0 && this.seed == first == Seeded(seed)
      ensures var low := seed % 0x8000_0000; first == if low == 0 || low == 0x7fff_ffff then 1 else low
    {
      var s := seed % TWO31;
      if s == 0 || s == M {
        s := 1;
      }
      this.seed := s;
      first, calls := s, 0;
    }

    method Next() returns (r: nat)
      requires Valid()
      modifies this
      ensures Valid() && calls == old(calls) + 1 && r == seed
      ensures r == old(seed) * 16385 % 0x7fff_ffff && r == first * Power(calls) % 0x7fff_ffff && 0 < r < 0x7fff_ffff
    {
      ShiftAndAdd(seed);
      AfterN(first, calls);
      NextPermutes(seed, seed);
      var p := seed * A;
      seed := (p / TWO31 + p % TWO31) % UINT32;
      if seed > M {
        seed := seed - M;
      }
      calls := calls + 1;
      r := seed;
    }
  }
}
