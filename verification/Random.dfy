// The Park-Miller generator of src/base/random.h: multiplication by 16807
// modulo the Mersenne prime 2^31 - 1, computed with a shift and a fold.

module ParkMiller {

  const M: nat := 0x7fff_ffff
  const A: nat := 16807
  const TWO31: nat := 0x8000_0000
  // The inverse of A modulo M.
  const A_INVERSE: nat := 1407677000

  predicate InRange(seed: int) {
    1 <= seed < M
  }

  // What the generator is documented to compute.
  function Step(seed: nat): nat {
    seed * A % M
  }

  function StepBack(seed: nat): nat {
    seed * A_INVERSE % M
  }

  // `(product >> 31) + (product & M)`, then one conditional subtraction.
  function Fold(product: nat): nat {
    var folded := product / TWO31 + product % TWO31;
    if folded > M then folded - M else folded
  }

  lemma ModUnique(x: int, q: int, r: int)
    requires x == q * M + r && 0 <= r < M
    ensures x % M == r
  {
    var q1, r1 := x / M, x % M;
    assert x == q1 * M + r1;
    assert (q - q1) * M == r1 - r;
  }

  // x * c is reduced to the same residue whether or not x is reduced first.
  lemma ModMul(x: nat, c: nat)
    ensures (x % M) * c % M == x * c % M
  {
    var q, r := x / M, x % M;
    assert x == q * M + r;
    var q1, r1 := r * c / M, r * c % M;
    assert r * c == q1 * M + r1;
    calc {
      x * c;
      (q * M + r) * c;
      q * M * c + r * c;
      { assert q * M * c == q * c * M; }
      q * c * M + q1 * M + r1;
      (q * c + q1) * M + r1;
    }
    ModUnique(x * c, q * c + q1, r1);
  }

  lemma InverseCancels(seed: nat, a: nat, b: nat)
    requires InRange(seed)
    requires a * b == 11017 * M + 1
    ensures (seed * a % M) * b % M == seed
  {
    ModMul(seed * a, b);
    assert seed * a * b == seed * (a * b);
    assert seed * (11017 * M + 1) == seed * 11017 * M + seed;
    ModUnique(seed * a * b, seed * 11017, seed);
  }

  // Stepping forward and backward are mutually inverse, so Step is a
  // bijection of [1, M - 1] onto itself.
  lemma StepBijective(seed: nat)
    requires InRange(seed)
    ensures InRange(Step(seed)) && InRange(StepBack(seed))
    ensures StepBack(Step(seed)) == seed
    ensures Step(StepBack(seed)) == seed
  {
    assert A * A_INVERSE == 11017 * M + 1;
    InverseCancels(seed, A, A_INVERSE);
    InverseCancels(seed, A_INVERSE, A);
  }

  // The shift-and-fold form is the remainder, for every legal seed.
  lemma FoldIsMod(seed: nat)
    requires InRange(seed)
    ensures Fold(seed * A) == Step(seed)
    ensures InRange(Fold(seed * A))
  {
    var product := seed * A;
    var hi, lo := product / TWO31, product % TWO31;
    assert product == hi * M + (hi + lo);
    StepBijective(seed);
    if hi + lo > M {
      ModUnique(product, hi + 1, hi + lo - M);
    } else if hi + lo == M {
      ModUnique(product, hi + 1, 0);
      assert false;
    } else {
      ModUnique(product, hi, hi + lo);
    }
  }

  function Power(n: nat): nat {
    if n == 0 then 1 else A * Power(n - 1)
  }

  // The seed after n calls of Next.
  function Iterate(seed: nat, n: nat): nat {
    if n == 0 then seed else Step(Iterate(seed, n - 1))
  }

  // The closed form of every run, which never leaves [1, M - 1].
  lemma {:induction false} RunClosedForm(seed: nat, n: nat)
    requires InRange(seed)
    ensures Iterate(seed, n) == seed * Power(n) % M
    ensures InRange(Iterate(seed, n))
  {
    if n == 0 {
      ModUnique(seed, 0, seed);
    } else {
      RunClosedForm(seed, n - 1);
      StepBijective(Iterate(seed, n - 1));
      ModMul(seed * Power(n - 1), A);
      assert seed * Power(n - 1) * A == seed * Power(n);
    }
  }

  class Random {
    var seed: nat

    ghost predicate Valid()
      reads this
    {
      InRange(seed)
    }

    // s is any uint32; bad seeds are replaced by 1.
    constructor (s: nat)
      requires s < 0x1_0000_0000
      ensures Valid()
      ensures seed == if s % TWO31 == 0 || s % TWO31 == M then 1 else s % TWO31
    {
      var masked := s % TWO31;
      seed := if masked == 0 || masked == M then 1 else masked;
    }

    method Next() returns (r: nat)
      requires Valid()
      modifies this
      ensures Valid()
      ensures r == seed == Step(old(seed))
    {
      FoldIsMod(seed);
      var product := seed * A;
      seed := product / TWO31 + product % TWO31;
      if seed > M {
        seed := seed - M;
      }
      return seed;
    }
  }
}
