/**
 * Linear checkpoint lists (checkpoints.hpp `make_checkpoints_linear`):
 * 0, then step, 2*step, ... strictly below horizon, then horizon itself; a
 * step of 0 counts as 1.  The loop counter of the source is a 64-bit
 * unsigned `t += step`, which wraps; `RunAsWritten` keeps that wrap and
 * `Linear` stops once the next multiple reaches horizon.
 */
module Checkpoints {
  import opened Basics
  import Threshold

  type u64 = Threshold.u64

  /** The step actually used: 0 becomes 1. */
  function Stride(step: u64): (s: nat)
    ensures s >= 1 && (step > 0 ==> s == step)
  {
    if step == 0 then 1 else step
  }

  /** `make_checkpoints_linear(horizon, step)` with the counter kept below horizon. */
  method Linear(horizon: u64, step: u64) returns (cp: seq<u64>)
    ensures |cp| >= 2 && cp[0] == 0 && cp[|cp| - 1] == horizon
    ensures forall i :: 1 <= i < |cp| - 1 ==> cp[i] == i * Stride(step) && cp[i] < horizon
    ensures (|cp| - 1) * Stride(step) >= horizon
  {
    var s := Stride(step);
    cp := [0];
    var t: nat := s;
    while t < horizon
      invariant |cp| >= 1 && cp[0] == 0 && t == |cp| * s
      invariant forall i :: 1 <= i < |cp| ==> cp[i] == i * s && cp[i] < horizon
      decreases horizon - t
    {
      cp := cp + [t];
      t := t + s;
    }
    cp := cp + [horizon];
  }

  /** The interior of the list is exactly the positive multiples of the stride below horizon. */
  lemma {:induction false} InteriorIsMultiples(horizon: u64, step: u64, cp: seq<u64>, t: nat)
    requires |cp| >= 2 && cp[0] == 0 && cp[|cp| - 1] == horizon
    requires forall i :: 1 <= i < |cp| - 1 ==> cp[i] == i * Stride(step) && cp[i] < horizon
    requires (|cp| - 1) * Stride(step) >= horizon
    ensures t in cp[1..|cp| - 1] <==> 0 < t < horizon && t % Stride(step) == 0
  {
    var s := Stride(step);
    if t in cp[1..|cp| - 1] {
      var i :| 1 <= i < |cp| - 1 && cp[i] == t;
      assert t == i * s;
      DivModUnique(t, s, i, 0);
      AtLeastOnce(s, i);
    }
    if 0 < t < horizon && t % s == 0 {
      var i := t / s;
      DivRem(t, s);
      assert t == i * s;
      if i >= |cp| - 1 {
        MulLeft(s, |cp| - 1, i);
      }
      assert cp[1..|cp| - 1][i - 1] == t;
    }
  }

  /** One pass of the source loop: `t += step` in 64-bit arithmetic. */
  function NextAsWritten(t: u64, step: u64): (t': u64)
    ensures t + Stride(step) < Threshold.U64 ==> t' == t + Stride(step)
    ensures t + Stride(step) >= Threshold.U64 ==> t' < t
  {
    var n := t + Stride(step);
    if n < Threshold.U64 then n else n - Threshold.U64
  }

  /**
   * The source loop from counter t, run for at most fuel passes: the values
   * it pushes, and whether it exited (t reached horizon).
   */
  function RunAsWritten(horizon: u64, step: u64, t: u64, fuel: nat): (r: (seq<u64>, bool))
    ensures forall i :: 0 <= i < |r.0| ==> r.0[i] < horizon
    ensures !r.1 ==> |r.0| == fuel
    decreases fuel
  {
    if t >= horizon then ([], true)
    else if fuel == 0 then ([], false)
    else
      var rest := RunAsWritten(horizon, step, NextAsWritten(t, step), fuel - 1);
      ([t] + rest.0, rest.1)
  }

  /**
   * With horizon 2^64 - 1 and step 2^63 the source's counter runs 2^63, 0,
   * 2^63, ...: every value is below horizon, so no number of passes ends
   * the loop.
   */
  lemma {:induction false} AsWrittenNeverStops(t: u64, fuel: nat)
    requires t == 0 || t == Threshold.U64 / 2
    ensures !RunAsWritten(Threshold.U64 - 1, Threshold.U64 / 2, t, fuel).1
    decreases fuel
  {
    if fuel > 0 {
      var t' := NextAsWritten(t, Threshold.U64 / 2);
      assert t' == 0 || t' == Threshold.U64 / 2;
      AsWrittenNeverStops(t', fuel - 1);
    }
  }
}
