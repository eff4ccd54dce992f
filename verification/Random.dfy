// The Lehmer generator of src/common/frame/random.{h,cpp}.
module Randoms {
  const A := 48271
  const M := 2147483647
  // M / A and M % A
  const Q := 44488
  const R := 3399

  lemma SplitConstants()
    ensures Q == M / A && R == M % A
  {
  }

  type Int32 = x: int | -0x8000_0000 <= x < 0x8000_0000

  // What the header promises of one step: X(i+1) = A X(i) mod M.
  function Next(x: int): (r: int)
    ensures 0 <= r < 2147483647
  {
    (48271 * x) % 2147483647
  }

  // C division and remainder truncate toward zero.
  function TruncDiv(x: int, d: nat): int
    requires d > 0
  {
    if x >= 0 then x / d else -((-x) / d)
  }

  function TruncMod(x: int, d: nat): int
    requires d > 0
  {
    x - d * TruncDiv(x, d)
  }

  class Random {
    var seed: Int32

    // A seed of 0 asks for the clock, passed in here.
    constructor (seed0: Int32, clock: Int32)
      ensures seed == if seed0 == 0 then clock else seed0
    {
      seed := seed0;
      if seed0 == 0 {
        seed := clock;
      }
    }

    // Schrage's split computes the product modulo M, for every 32-bit seed,
    // with every intermediate value in 32 bits.
    method GetRand() returns (r: Int32)
      modifies this
      ensures seed == r == Next(old(seed))
    {
      SplitIsExact(seed);
      var lo: Int32 := A * TruncMod(seed, Q);
      var hi: Int32 := R * TruncDiv(seed, Q);
      var tempSeed: Int32 := lo - hi;
      if tempSeed >= 0 {
        seed := tempSeed;
      } else {
        seed := tempSeed + M;
      }
      r := seed;
    }
  }

  lemma ResidueIsUnique(x: int, r: int, k: int)
    requires 0 <= r < 2147483647
    requires x == r + 2147483647 * k
    ensures x % 2147483647 == r
  {
  }

  lemma SplitIsExact(x: Int32)
    ensures var lo := 48271 * TruncMod(x, 44488);
            var hi := 3399 * TruncDiv(x, 44488);
            && -0x8000_0000 <= lo < 0x8000_0000
            && -0x8000_0000 <= hi < 0x8000_0000
            && -2147483647 < lo - hi < 2147483647
            && Next(x) == (if lo - hi >= 0 then lo - hi else lo - hi + 2147483647)
  {
  }

  // A has the inverse 1899818559 modulo M, so a step is a bijection of the
  // residues: nothing but a multiple of M steps to 0 ...
  lemma NextInjective(x: int, y: int)
    ensures Next(x) == Next(y) <==> x % 2147483647 == y % 2147483647
  {
    var d := x - y;
    if Next(x) == Next(y) {
      var k := (48271 * x) / 2147483647 - (48271 * y) / 2147483647;
      assert 48271 * d == 2147483647 * k;
      assert d == 2147483647 * (1899818559 * k - 42704 * d);
      ResidueIsUnique(x, y % 2147483647, y / 2147483647 + (1899818559 * k - 42704 * d));
    } else if x % 2147483647 == y % 2147483647 {
      var k := x / 2147483647 - y / 2147483647;
      ResidueIsUnique(48271 * x, Next(y), (48271 * y) / 2147483647 + 48271 * k);
    }
  }

  lemma NextNonZero(x: int)
    ensures Next(x) == 0 <==> x % 2147483647 == 0
  {
    NextInjective(x, 0);
  }

  // ... and nothing but a multiple of M stays where it is.
  lemma NextMoves(x: int)
    ensures Next(x) == x % 2147483647 <==> x % 2147483647 == 0
  {
    if Next(x) == x % 2147483647 {
      var k := (48271 * x) / 2147483647 - x / 2147483647;
      assert 48270 * x == 2147483647 * k;
      assert x == 2147483647 * (4033 * x - 179424105 * k);
      ResidueIsUnique(x, 0, 4033 * x - 179424105 * k);
    } else {
      NextNonZero(x);
    }
  }

  // The state after n draws.
  function Draw(seed: int, n: nat): int {
    if n == 0 then seed else Next(Draw(seed, n - 1))
  }

  // Over any number of draws the state stays clear of 0 exactly when the
  // first seed is not a multiple of M.
  lemma {:induction false} StateNeverZero(seed: int, n: nat)
    ensures Draw(seed, n) % 2147483647 == 0 <==> seed % 2147483647 == 0
  {
    if n > 0 {
      StateNeverZero(seed, n - 1);
      NextNonZero(Draw(seed, n - 1));
    }
  }
}
