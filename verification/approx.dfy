/**
 * Rational approximation of a threshold (include/core/approx.hpp): the
 * Farey (Stern–Brocot) neighbours of tau with denominators capped at max_q,
 * and the closer of the two.  The source takes tau as a double and compares
 * it with each mediant in floating point; here tau is an exact rational
 * (`real`), so every comparison is exact.
 */
module Approx {
  import Basics
  import Threshold

  /** A fraction p/q with 64-bit numerator and denominator. */
  datatype Rat = Rat(p: Threshold.u64, q: Threshold.u64)

  function Value(r: Rat): real
    requires r.q > 0
  {
    r.p as real / r.q as real
  }

  /** Comparing two fractions is comparing the cross products. */
  lemma LessIsCross(a: int, b: int, c: int, d: int)
    requires b > 0 && d > 0
    ensures (a as real / b as real < c as real / d as real) <==> a * d < c * b
    ensures (a as real / b as real == c as real / d as real) <==> a * d == c * b
  {
    var x, y := a as real / b as real, c as real / d as real;
    assert a as real == x * b as real && c as real == y * d as real;
    assert (a * d) as real - (c * b) as real == (x - y) * (b as real * d as real);
  }

  /**
   * Between Farey neighbours a/b < c/d (bc - ad = 1) every fraction lies at
   * denominator b + d or beyond: q = b(cq - pd) + d(pb - aq).
   */
  lemma MediantGap(a: int, b: int, c: int, d: int, p: int, q: int)
    requires b > 0 && d > 0 && q > 0 && b * c - a * d == 1
    requires a * q < p * b && p * d < c * q
    ensures q >= b + d
  {
    var x, y := c * q - p * d, p * b - a * q;
    assert b * x == b * (c * q) - b * (p * d);
    assert d * y == d * (p * b) - d * (a * q);
    assert b * (c * q) - d * (a * q) == q * (b * c - a * d) by {
      assert b * (c * q) == q * (b * c);
      assert d * (a * q) == q * (a * d);
    }
    assert b * (p * d) == d * (p * b);
    Basics.AtLeastOnce(b, x);
    Basics.AtLeastOnce(d, y);
  }

  /** No fraction with denominator at most max_q lies strictly between tau and p/q. */
  ghost predicate BestBelow(tau: real, maxQ: nat, lo: Rat)
    requires lo.q > 0
  {
    forall r: Rat :: 0 < r.q <= maxQ && Value(r) <= tau ==> Value(r) <= Value(lo)
  }

  ghost predicate BestAbove(tau: real, maxQ: nat, hi: Rat)
    requires hi.q > 0
  {
    forall r: Rat :: 0 < r.q <= maxQ && Value(r) >= tau ==> Value(r) >= Value(hi)
  }

  /** A fraction equal to tau is both the best lower and the best upper bound. */
  lemma ExactIsBest(tau: real, maxQ: nat, x: Rat)
    requires x.q > 0 && Value(x) == tau
    ensures BestBelow(tau, maxQ, x) && BestAbove(tau, maxQ, x)
  {
  }

  /** When the next mediant is past the cap, the Farey neighbours bracketing tau are the best bounds. */
  lemma NeighboursAreBest(tau: real, maxQ: nat, a: nat, b: nat, c: nat, d: nat)
    requires b >= 1 && d >= 1 && b * c - a * d == 1 && b + d > maxQ
    requires a < Threshold.U64 && b < Threshold.U64 && c < Threshold.U64 && d < Threshold.U64
    requires a as real / b as real < tau < c as real / d as real
    ensures BestBelow(tau, maxQ, Rat(a, b)) && BestAbove(tau, maxQ, Rat(c, d))
  {
    forall r: Rat | 0 < r.q <= maxQ && Value(r) <= tau ensures Value(r) <= Value(Rat(a, b)) {
      if Value(r) > Value(Rat(a, b)) {
        LessIsCross(a, b, r.p, r.q);
        LessIsCross(r.p, r.q, c, d);
        MediantGap(a, b, c, d, r.p, r.q);
      }
    }
    forall r: Rat | 0 < r.q <= maxQ && Value(r) >= tau ensures Value(r) >= Value(Rat(c, d)) {
      if Value(r) < Value(Rat(c, d)) {
        LessIsCross(a, b, r.p, r.q);
        LessIsCross(r.p, r.q, c, d);
        MediantGap(a, b, c, d, r.p, r.q);
      }
    }
  }

  /** The mediant forms a Farey pair with each end of the interval. */
  lemma MediantDeterminants(a: nat, b: nat, c: nat, d: nat)
    requires b * c - a * d == 1
    ensures b * (a + c) - a * (b + d) == 1 && (b + d) * c - (a + c) * d == 1
  {
    assert b * (a + c) == b * a + b * c && a * (b + d) == a * b + a * d;
    assert (b + d) * c == b * c + d * c && (a + c) * d == a * d + c * d;
  }

  /** `farey_neighbors(tau, max_q)`: mediant search between 0/1 and 1/1 until the next denominator exceeds max_q. */
  method FareyNeighbors(tau: real, maxQ: Threshold.u64) returns (lo: Rat, hi: Rat)
    ensures lo.q > 0 && hi.q > 0
    ensures tau <= 0.0 ==> lo == Rat(0, 1) && hi == Rat(0, 1)
    ensures tau >= 1.0 ==> lo == Rat(1, 1) && hi == Rat(1, 1)
    ensures maxQ >= 1 ==> lo.q <= maxQ && hi.q <= maxQ
    ensures 0.0 <= tau <= 1.0 ==> Value(lo) <= tau <= Value(hi)
    ensures 0.0 <= tau <= 1.0 ==> (lo == hi <==> Value(lo) == tau)
    ensures 0.0 < tau < 1.0 && lo != hi ==> lo.q * hi.p - lo.p * hi.q == 1
    ensures 0.0 <= tau <= 1.0 ==> BestBelow(tau, maxQ, lo) && BestAbove(tau, maxQ, hi)
  {
    if tau <= 0.0 {
      ExactIsBest(0.0, maxQ, Rat(0, 1));
      return Rat(0, 1), Rat(0, 1);
    }
    if tau >= 1.0 {
      ExactIsBest(1.0, maxQ, Rat(1, 1));
      return Rat(1, 1), Rat(1, 1);
    }
    var a: nat, b: nat, c: nat, d: nat := 0, 1, 1, 1;
    while b + d <= maxQ
      invariant b >= 1 && d >= 1 && b * c - a * d == 1
      invariant a <= b && c <= d && (b <= maxQ || b == 1) && (d <= maxQ || d == 1)
      invariant a as real / b as real < tau < c as real / d as real
      decreases maxQ - (b + d)
    {
      var num, den := a + c, b + d;
      MediantDeterminants(a, b, c, d);
      var m := num as real / den as real;
      if tau > m {
        a, b := num, den;
      } else if tau < m {
        c, d := num, den;
      } else {
        ExactIsBest(tau, maxQ, Rat(num, den));
        return Rat(num, den), Rat(num, den);
      }
    }
    LessIsCross(a, b, c, d);
    NeighboursAreBest(tau, maxQ, a, b, c, d);
    return Rat(a, b), Rat(c, d);
  }

  /** `best_with_max_den`: the Farey neighbour closer to tau, the lower one on a tie. */
  method BestWithMaxDen(tau: real, maxQ: Threshold.u64) returns (r: Rat)
    requires 0.0 <= tau <= 1.0 && maxQ >= 1
    ensures 0 < r.q <= maxQ
    ensures forall s: Rat :: 0 < s.q <= maxQ ==> Dist(tau, r) <= Dist(tau, s)
    ensures forall s: Rat :: 0 < s.q <= maxQ && Dist(tau, s) == Dist(tau, r) ==> Value(r) <= Value(s)
  {
    var lo, hi := FareyNeighbors(tau, maxQ);
    var dlo, dhi := tau - Value(lo), Value(hi) - tau;
    r := if dhi < dlo then hi else lo;
    forall s: Rat | 0 < s.q <= maxQ ensures Dist(tau, r) <= Dist(tau, s) {
      if Value(s) <= tau {
        assert Value(s) <= Value(lo);
      } else {
        assert Value(s) >= Value(hi);
      }
    }
  }

  /** Distance from tau to a fraction. */
  function Dist(tau: real, r: Rat): (d: real)
    requires r.q > 0
    ensures d >= 0.0 && (d == 0.0 <==> Value(r) == tau)
  {
    if Value(r) >= tau then Value(r) - tau else tau - Value(r)
  }

  /** Ties go to the lower neighbour: at 1/2 with cap 1, the bounds 0/1 and 1/1 are equally far and 0/1 wins. */
  method TieGoesLow() returns (r: Rat)
    ensures r == Rat(0, 1)
  {
    var lo, hi := FareyNeighbors(0.5, 1);
    assert lo.q == 1 && hi.q == 1;
    LessIsCross(lo.p, 1, 1, 2);
    LessIsCross(1, 2, hi.p, 1);
    assert lo == Rat(0, 1) && hi == Rat(1, 1);
    var dlo, dhi := 0.5 - Value(lo), Value(hi) - 0.5;
    r := if dhi < dlo then hi else lo;
  }
}
