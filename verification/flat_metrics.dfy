/**
 * End-of-run statistics of the flat simulators (metrics.hpp): the neighbour
 * counts of one agent, its satisfaction, and the number of unhappy agents
 * found by a full pass over the agents.
 */
module FlatMetrics {
  import opened Basics
  import opened Topology
  import Threshold

  /** `neighbor_counts`: same- and other-type occupied neighbours, counted in 32 bits. */
  function SameOther(adj: Adjacency, w: World, v: nat, t: bool): (r: (Threshold.u32, Threshold.u32))
    requires v < |adj|
    ensures Occ(adj, w, v) < Threshold.U32 ==>
              r.0 == Same(adj, w, v, t) && r.0 + r.1 == Occ(adj, w, v)
  {
    KindCountsSplit(w, adj[v]);
    (Same(adj, w, v, t) % Threshold.U32, Other(adj, w, v, t) % Threshold.U32)
  }

  /** Whether an agent of type t at v accepts its neighbourhood under th. */
  function SatisfiedAt(adj: Adjacency, w: World, v: nat, t: bool, th: Threshold.Ratio): (r: bool)
    requires v < |adj|
    ensures Occ(adj, w, v) == 0 ==> r
  {
    var (s, o) := SameOther(adj, w, v, t);
    Threshold.Satisfied(th, s, o)
  }

  /** An agent sits at v and does not accept its neighbourhood. */
  predicate Unhappy(adj: Adjacency, w: World, v: nat, th: Threshold.Ratio)
    requires v < |adj|
  {
    IsOcc(w, v) && !SatisfiedAt(adj, w, v, CellAt(w, v).kind, th)
  }

  /**
   * `unhappy_and_avg_same_fraction`, unhappy part: agents visited in
   * increasing vertex order, those not satisfied counted.  This is the count
   * over vertices 0..n-1.
   */
  function UnhappyBelow(adj: Adjacency, w: World, th: Threshold.Ratio, n: nat): (r: nat)
    requires n <= |adj|
    ensures r <= n
    ensures r == 0 <==> forall v :: 0 <= v < n ==> !Unhappy(adj, w, v, th)
  {
    if n == 0 then 0
    else UnhappyBelow(adj, w, th, n - 1) + Ind(Unhappy(adj, w, n - 1, th))
  }

  /** The reported count, narrowed to 32 bits. */
  function UnhappyCount(adj: Adjacency, w: World, th: Threshold.Ratio): (r: Threshold.u32)
    ensures |adj| < Threshold.U32 ==> (r == 0 <==> forall v :: 0 <= v < |adj| ==> !Unhappy(adj, w, v, th))
  {
    var c := UnhappyBelow(adj, w, th, |adj|);
    Threshold.ModBelow32(c);
    c % Threshold.U32
  }

  /**
   * The same-type fraction an agent contributes to the average, over the
   * 32-bit sum of its counts: 1 when that sum is zero.
   */
  function SameFraction(same: Threshold.u32, other: Threshold.u32): (r: real)
    ensures (same + other) % Threshold.U32 == 0 ==> r == 1.0
    ensures 0 < same + other < Threshold.U32 ==> 0.0 <= r <= 1.0 && r * ((same + other) as real) == same as real
  {
    var denom := (same + other) % Threshold.U32;
    if denom == 0 then 1.0
    else
      assert 0 < same + other < Threshold.U32 ==> denom == same + other;
      UnitFraction(same as real, denom as real);
      (same as real) / (denom as real)
  }

  lemma UnitFraction(a: real, b: real)
    requires b > 0.0
    ensures (a / b) * b == a
    ensures 0.0 <= a <= b ==> 0.0 <= a / b <= 1.0
  {
  }
}
