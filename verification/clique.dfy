/**
 * The counts-only complete graph (include/graphs/clique.hpp): on a clique
 * every agent neighbours every other, so the state is two counters.  Agents
 * are indexed by colour: type-0 agents sit at 0..c0-1, type-1 agents at
 * c0..c0+c1-1, and the rest of the Size vertices are empty.
 *
 * Counters are 64-bit; under Valid they never overflow, except the
 * neighbour count c0+c1-1 of an empty clique, which wraps to 2^64-1 and is
 * written out.  The threshold is passed in instead of read from the
 * program-wide state.
 */
module CliqueGraph {
  import opened Basics
  import opened Topology
  import Threshold

  datatype Clique = Clique(c0: nat, c1: nat)

  /** At most Size agents, and Size fits the 64-bit counters. */
  ghost predicate Valid(k: Clique, size: nat) {
    k.c0 + k.c1 <= size < Threshold.U64
  }

  /** The counts of a pair of bitsets: c0 is occupied minus coloured, c1 the coloured ones. */
  function FromMasks(occ: seq<bool>, color: seq<bool>): (k: Clique)
    requires |occ| == |color| < Threshold.U64
    requires forall i :: 0 <= i < |color| && color[i] ==> occ[i]
    ensures Valid(k, |occ|)
    ensures k.c0 + k.c1 == CountTrue(occ) && k.c1 == CountTrue(color)
  {
    ColorWithin(occ, color);
    Clique(CountTrue(occ) - CountTrue(color), CountTrue(color))
  }

  lemma {:induction false} ColorWithin(occ: seq<bool>, color: seq<bool>)
    requires |occ| == |color|
    requires forall i :: 0 <= i < |color| && color[i] ==> occ[i]
    ensures CountTrue(color) <= CountTrue(occ) <= |occ|
  {
    if |occ| > 0 {
      var k := |occ| - 1;
      assert occ == occ[..k] + [occ[k]] && color == color[..k] + [color[k]];
      CountTrueAppend(occ[..k], [occ[k]]);
      CountTrueAppend(color[..k], [color[k]]);
      ColorWithin(occ[..k], color[..k]);
    }
  }

  function OccupiedCount(k: Clique): nat { k.c0 + k.c1 }

  /** `get_color`: the colour of the agent at index v. */
  predicate ColorOf(k: Clique, v: nat) { v >= k.c0 }

  /** `count_by_color`: the empty vertices for no colour, otherwise that colour's counter. */
  function CountByColor(k: Clique, size: nat, c: Option<bool>): (r: nat)
    requires Valid(k, size)
    ensures c.None? ==> r + OccupiedCount(k) == size
    ensures c.Some? ==> r == if c.value then k.c1 else k.c0
  {
    match c
    case None => size - (k.c0 + k.c1)
    case Some(b) => if b then k.c1 else k.c0
  }

  /** `place_agent`: one more agent of the given colour. */
  function PlaceAgent(k: Clique, size: nat, color: bool): (r: Clique)
    requires Valid(k, size) && OccupiedCount(k) < size
    ensures Valid(r, size) && OccupiedCount(r) == OccupiedCount(k) + 1
    ensures CountByColor(r, size, Some(color)) == CountByColor(k, size, Some(color)) + 1
    ensures CountByColor(r, size, Some(!color)) == CountByColor(k, size, Some(!color))
  {
    Clique(k.c0 + Ind(!color), k.c1 + Ind(color))
  }

  /**
   * `pop_agent` as written: the counter of the agent's colour drops, then
   * the colour is reported as `from >= c0` against the DECREMENTED c0.
   */
  function PopAgentAsWritten(k: Clique, from: nat): (r: (Clique, bool))
    requires from < OccupiedCount(k)
    ensures OccupiedCount(r.0) + 1 == OccupiedCount(k)
  {
    var k' := if from < k.c0 then Clique(k.c0 - 1, k.c1) else Clique(k.c0, k.c1 - 1);
    (k', from >= k'.c0)
  }

  /** Popping the last type-0 agent (index c0-1) is reported as type 1. */
  lemma PopAsWrittenMisreports()
    ensures !ColorOf(Clique(1, 0), 0) && PopAgentAsWritten(Clique(1, 0), 0) == (Clique(0, 0), true)
  {
    var k' := Clique(0, 0);
    assert PopAgentAsWritten(Clique(1, 0), 0) == (k', 0 >= k'.c0);
  }

  /** `pop_agent` reporting the colour of the removed agent, read before the counter drops. */
  function PopAgent(k: Clique, size: nat, from: nat): (r: (Clique, bool))
    requires Valid(k, size) && from < OccupiedCount(k)
    ensures r.1 == ColorOf(k, from) && Valid(r.0, size)
    ensures CountByColor(r.0, size, Some(r.1)) + 1 == CountByColor(k, size, Some(r.1))
    ensures CountByColor(r.0, size, Some(!r.1)) == CountByColor(k, size, Some(!r.1))
    ensures r.0.c0 + r.0.c1 + 1 == k.c0 + k.c1
  {
    var color := from >= k.c0;
    (if color then Clique(k.c0, k.c1 - 1) else Clique(k.c0 - 1, k.c1), color)
  }

  /** Placing the popped agent back restores the counts. */
  lemma PopThenPlace(k: Clique, size: nat, from: nat)
    requires Valid(k, size) && from < OccupiedCount(k)
    ensures var (k', color) := PopAgent(k, size, from); PlaceAgent(k', size, color) == k
  {
  }

  /** Neighbours of any agent: everyone else, c0+c1-1 in 64 bits (wrapping on an empty clique). */
  function Neighbors(k: Clique): (r: Threshold.u64)
    requires k.c0 + k.c1 < Threshold.U64
    ensures k.c0 + k.c1 > 0 ==> r == k.c0 + k.c1 - 1
  {
    (k.c0 + k.c1 - 1) % Threshold.U64
  }

  /** `is_unhappy` as written: the disagreeing count is c1 for every occupied index. */
  predicate IsUnhappyAtAsWritten(k: Clique, size: nat, th: Threshold.Pq, v: nat)
    requires Valid(k, size) && v < size
  {
    Threshold.IsUnhappy(th, if v < k.c0 + k.c1 then k.c1 else k.c0, Neighbors(k))
  }

  /** The agent at v disagrees with every agent of the other colour. */
  predicate IsUnhappyAt(k: Clique, size: nat, th: Threshold.Pq, v: nat)
    requires Valid(k, size) && v < OccupiedCount(k)
  {
    Threshold.IsUnhappy(th, if ColorOf(k, v) then k.c0 else k.c1, Neighbors(k))
  }

  /** With one type-0 and two type-1 agents at threshold 1/2, the type-1 agent at 1 is happy; as written it is not. */
  lemma AsWrittenJudgesType1ByC1()
    ensures var k, th := Clique(1, 2), Threshold.Pq(1, 2);
            IsUnhappyAtAsWritten(k, 3, th, 1) && !IsUnhappyAt(k, 3, th, 1)
  {
  }

  /** `unhappy_weights`: how many agents of each colour are unhappy (all or none of a colour). */
  function Weights(k: Clique, size: nat, th: Threshold.Pq): (r: (nat, nat))
    requires Valid(k, size)
    ensures r.0 == (if k.c0 > 0 && IsUnhappyAt(k, size, th, 0) then k.c0 else 0)
    ensures r.1 == (if k.c1 > 0 && IsUnhappyAt(k, size, th, k.c0) then k.c1 else 0)
  {
    var neigh := Neighbors(k);
    var u0 := Threshold.IsUnhappy(th, k.c1, neigh);
    var u1 := Threshold.IsUnhappy(th, k.c0, neigh);
    (if u0 then k.c0 else 0, if u1 then k.c1 else 0)
  }

  /** `unhappy_count`: the two colour weights summed; never more than the agents there are. */
  function UnhappyCount(k: Clique, size: nat, th: Threshold.Pq): (r: nat)
    requires Valid(k, size)
    ensures r <= OccupiedCount(k)
  {
    var (w0, w1) := Weights(k, size, th);
    w0 + w1
  }

  /** Unhappy agents among indices 0..m-1, judged one by one. */
  function UnhappyBelow(k: Clique, size: nat, th: Threshold.Pq, m: nat): (r: nat)
    requires Valid(k, size) && m <= OccupiedCount(k)
    ensures r <= m
  {
    if m == 0 then 0 else UnhappyBelow(k, size, th, m - 1) + Ind(IsUnhappyAt(k, size, th, m - 1))
  }

  /** The closed form counts exactly the agents that are unhappy one by one. */
  lemma {:induction false} UnhappyCountIsTally(k: Clique, size: nat, th: Threshold.Pq)
    requires Valid(k, size)
    ensures UnhappyCount(k, size, th) == UnhappyBelow(k, size, th, OccupiedCount(k))
  {
    TallyPrefix(k, size, th, OccupiedCount(k));
  }

  lemma {:induction false} TallyPrefix(k: Clique, size: nat, th: Threshold.Pq, m: nat)
    requires Valid(k, size) && m <= OccupiedCount(k)
    ensures var u0, u1 := Threshold.IsUnhappy(th, k.c1, Neighbors(k)), Threshold.IsUnhappy(th, k.c0, Neighbors(k));
            UnhappyBelow(k, size, th, m)
              == if m <= k.c0 then m * Ind(u0) else k.c0 * Ind(u0) + (m - k.c0) * Ind(u1)
  {
    if m > 0 {
      TallyPrefix(k, size, th, m - 1);
    }
  }

  /** `get_unoccupied`: an index drawn in [occupied, Size-1]. */
  function GetUnoccupied(k: Clique, size: nat, draw: nat): (v: nat)
    requires Valid(k, size) && OccupiedCount(k) < size
    ensures OccupiedCount(k) <= v < size
  {
    OccupiedCount(k) + draw % (size - OccupiedCount(k))
  }

  /**
   * `get_unhappy`: an index drawn in [0, w0+w1-1], shifted past the type-0
   * agents when none of them is unhappy; it always lands on an unhappy agent.
   */
  function GetUnhappy(k: Clique, size: nat, th: Threshold.Pq, draw: nat): (v: nat)
    requires Valid(k, size) && UnhappyCount(k, size, th) > 0
    ensures v < OccupiedCount(k) && IsUnhappyAt(k, size, th, v)
  {
    var (w0, w1) := Weights(k, size, th);
    draw % (w0 + w1) + (if w0 != 0 then 0 else k.c0)
  }
}
