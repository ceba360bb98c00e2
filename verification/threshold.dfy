/**
 * The two integer threshold conventions of the engine.
 *
 *  - `Ratio` (metrics.hpp): p/q is the least acceptable fraction of SAME-type
 *    occupied neighbours; an agent with no occupied neighbours is satisfied.
 *  - `Pq` (include/core/schelling_threshold.hpp): p/q is the greatest
 *    tolerated fraction of DISAGREEING occupied neighbours; an agent is
 *    unhappy when disagree/neighbours > p/q.
 *
 * Both compare by cross-multiplication in fixed-width unsigned arithmetic;
 * the wrap-around is written out.
 */
module Threshold {

  const U32: nat := 0x1_0000_0000
  const U64: nat := 0x1_0000_0000_0000_0000

  type u32 = x: nat | x < U32
  type u64 = x: nat | x < U64

  /** Rational threshold on the same-type fraction, numerator and denominator 32 bits wide. */
  datatype Ratio = Ratio(p: u32, q: u32)

  /**
   * metrics.hpp `Threshold::satisfied`: the 32-bit sum same+other is the
   * denominator; zero means satisfied; otherwise same*q >= p*denom in 64 bits.
   */
  function Satisfied(th: Ratio, same: u32, other: u32): (r: bool)
    ensures same + other == 0 ==> r
    ensures 0 < same + other < U32 ==> (r <==> same * th.q >= th.p * (same + other))
  {
    var denom := (same + other) % U32;
    denom == 0 || same * th.q >= th.p * denom
  }

  /** The cross-multiplied test is the comparison of the two fractions. */
  lemma SatisfiedIsFractionTest(th: Ratio, same: u32, other: u32)
    requires 0 < same + other < U32 && th.q > 0
    ensures Satisfied(th, same, other)
        <==> (same as real) / ((same + other) as real) >= (th.p as real) / (th.q as real)
  {
    var s, n, p, q := same as real, (same + other) as real, th.p as real, th.q as real;
    FractionOrder(s, n, p, q);
  }

  lemma FractionOrder(a: real, b: real, c: real, d: real)
    requires b > 0.0 && d > 0.0
    ensures a / b >= c / d <==> a * d >= c * b
  {
    var x, y := a / b, c / d;
    assert a == x * b && c == y * d;
    assert a * d - c * b == (x - y) * (b * d);
  }

  /** The threshold of include/core/schelling_threshold.hpp, with 64-bit fields. */
  datatype Pq = Pq(p: u64, q: u64)

  /** Default program threshold 1/2. */
  const DefaultPq: Pq := Pq(1, 2)

  /** `PqThreshold::is_unhappy`: disagree*q > neighbours*p, both products taken modulo 2^64. */
  function IsUnhappy(th: Pq, disagree: u64, neighbors: u64): (r: bool)
    ensures disagree * th.q < U64 && neighbors * th.p < U64
            ==> (r <==> disagree * th.q > neighbors * th.p)
    ensures disagree == 0 ==> !r
  {
    var a, b := disagree * th.q, neighbors * th.p;
    ModBelow(a);
    ModBelow(b);
    a % U64 > b % U64
  }

  lemma ModBelow(x: nat)
    ensures x < U64 ==> x % U64 == x
  {
  }

  lemma ModBelow32(x: nat)
    ensures x < U32 ==> x % U32 == x
  {
  }

  /** Without overflow, is_unhappy is "the disagreeing fraction exceeds p/q". */
  lemma IsUnhappyIsFractionTest(th: Pq, disagree: u64, neighbors: u64)
    requires disagree * th.q < U64 && neighbors * th.p < U64
    requires neighbors > 0 && th.q > 0
    ensures IsUnhappy(th, disagree, neighbors)
        <==> (disagree as real) / (neighbors as real) > (th.p as real) / (th.q as real)
  {
    FractionOrder(th.p as real, th.q as real, disagree as real, neighbors as real);
  }

  /**
   * The two conventions describe the same rule: an agent is satisfied with
   * same-fraction threshold p/q exactly when it is not unhappy with
   * disagreement threshold (q-p)/q.
   */
  lemma SatisfiedIffNotUnhappy(p: u32, q: u32, same: u32, other: u32)
    requires p <= q && same + other < U32
    ensures Satisfied(Ratio(p, q), same, other)
        <==> !IsUnhappy(Pq(q - p, q), other, same + other)
  {
    assert other * q < U64 && (same + other) * (q - p) < U64 by {
      MulBound(other, q);
      MulBound(same + other, q - p);
    }
    assert other * q - (same + other) * (q - p) == p * (same + other) - same * q;
  }

  lemma MulBound(a: nat, b: nat)
    requires a < U32 && b < U32
    ensures a * b < U64
  {
    MulMonotone(a, b, U32 - 1);
    MulMonotone(U32 - 1, a, U32 - 1);
    assert (U32 - 1) * (U32 - 1) < U64;
  }

  lemma MulMonotone(a: nat, b: nat, c: nat)
    requires b <= c
    ensures a * b <= a * c
  {
    assert a * c - a * b == a * (c - b);
  }

  /** Program-wide threshold state: the value, whether it was set, and minority_happy_. */
  datatype ProgramThreshold = ProgramThreshold(th: Pq, initialized: bool, minorityHappy: bool)

  const InitialProgramThreshold: ProgramThreshold := ProgramThreshold(DefaultPq, false, false)

  /** `init_program_threshold`: only the first call has an effect. */
  function InitProgramThreshold(s: ProgramThreshold, p: u64, q: u64): (r: ProgramThreshold)
    ensures s.initialized ==> r == s
    ensures !s.initialized ==> r.th == Pq(p, q) && r.initialized
    ensures !s.initialized && p < U32 && q < U32 ==> (r.minorityHappy <==> 2 * p >= q)
  {
    if s.initialized then s
    else
      var th := Pq(p, q);
      ProgramThreshold(th, true, !IsUnhappy(th, 1, 2))
  }

  /** Once initialised, later calls cannot change the threshold. */
  lemma InitProgramThresholdOnce(s: ProgramThreshold, p: u64, q: u64, p': u64, q': u64)
    ensures InitProgramThreshold(InitProgramThreshold(s, p, q), p', q')
         == InitProgramThreshold(s, p, q)
  {
  }
}
