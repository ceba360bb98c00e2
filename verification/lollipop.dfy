/**
 * The lollipop graph (include/graphs/lollipop.hpp): a counts-only clique of
 * CliqueSize vertices (global indices 0..CliqueSize-1) and a padded path
 * (global indices CliqueSize..), joined by one clique vertex, the bridge,
 * which also neighbours path vertex 0.  The path sees the bridge through its
 * left sentinel.  The clique orders agents by colour, so the bridge has no
 * fixed index: it is the first index of its colour block when occupied and
 * the first empty clique index otherwise.
 */
module Lollipop {
  import opened Basics
  import Topology
  import Threshold
  import CG = CliqueGraph
  import LP = LinePath

  datatype Lollipop = Lollipop(clique: CG.Clique, path: LP.Path, bridgeOcc: bool, bridgeCol: bool)

  /**
   * What pop and place maintain: the clique counters fit, the path is sized
   * and clean, the path's sentinel mirrors the bridge, an occupied bridge is
   * one of the agents of its colour, and an empty bridge leaves room in the
   * clique.
   */
  ghost predicate Valid(g: Lollipop, cs: nat) {
    && CG.Valid(g.clique, cs)
    && LP.Sized(g.path) && LP.Clean(g.path)
    && (g.bridgeCol ==> g.bridgeOcc)
    && g.path.sentOcc == g.bridgeOcc && g.path.sentCol == g.bridgeCol
    && (g.bridgeOcc ==> (if g.bridgeCol then g.clique.c1 else g.clique.c0) >= 1)
    && (!g.bridgeOcc ==> g.clique.c0 + g.clique.c1 < cs)
  }

  /** The path's unhappy cache is exact (its sentinel included). */
  ghost predicate Exact(g: Lollipop, th: Threshold.Pq)
    requires LP.Sized(g.path)
  {
    LP.CacheExact(g.path, th)
  }

  /** The empty lollipop: no agents, blank path, empty bridge. */
  function Empty(cs: nat, pl: nat): (g: Lollipop)
    requires 0 < cs < Threshold.U64
    ensures Valid(g, cs) && |g.path.occ| == pl
    ensures forall th: Threshold.Pq :: Exact(g, th)
  {
    var path := LP.Path(seq(pl, i => false), seq(pl, i => false), false, false, seq(pl, i => false), false);
    assert forall th: Threshold.Pq, i :: -1 <= i < pl ==> !LP.IsUnhappyAt(path, th, i) by {
      forall th: Threshold.Pq, i | -1 <= i < pl ensures !LP.IsUnhappyAt(path, th, i) {
        LP.EmptyNeverUnhappy(path, th, i);
      }
    }
    Lollipop(CG.Clique(0, 0), path, false, false)
  }

  /** `bridge_index_`: colour times c0 when occupied (the start of its block), else the occupied count. */
  function BridgeIndex(g: Lollipop, cs: nat): (r: nat)
    requires Valid(g, cs)
    ensures g.bridgeOcc ==> r < g.clique.c0 + g.clique.c1 && CG.ColorOf(g.clique, r) == g.bridgeCol
    ensures g.bridgeOcc ==> r == 0 || r == g.clique.c0
    ensures !g.bridgeOcc ==> r == g.clique.c0 + g.clique.c1 < cs
  {
    if g.bridgeOcc then Topology.Ind(g.bridgeCol) * g.clique.c0 else g.clique.c0 + g.clique.c1
  }

  /** Whether a global index holds an agent: a clique index below the agent count, or an occupied path bit. */
  predicate IsOccupied(g: Lollipop, cs: nat, v: nat)
    requires LP.Sized(g.path)
  {
    if v < cs then v < g.clique.c0 + g.clique.c1 else v - cs < |g.path.occ| && g.path.occ[v - cs]
  }

  /** The bridge's neighbours: the other clique agents, and path vertex 0 when occupied. */
  function BridgeNeighbors(g: Lollipop): (r: nat)
    requires LP.Sized(g.path) && g.clique.c0 + g.clique.c1 > 0
    ensures r == g.clique.c0 + g.clique.c1 - 1 + Topology.Ind(LP.Occ(g.path, 0))
  {
    g.clique.c0 + g.clique.c1 - 1 + Topology.Ind(LP.Occ(g.path, 0))
  }

  /** The bridge's disagreeing neighbours: the other colour's clique agents, and path vertex 0 if it differs. */
  function BridgeFrustration(g: Lollipop): (r: nat)
    requires LP.Sized(g.path)
  {
    (if g.bridgeCol then g.clique.c0 else g.clique.c1)
      + Topology.Ind(LP.Occ(g.path, 0) && LP.Col(g.path, 0) != g.bridgeCol)
  }

  /** `bridge_unhappy`: the rule over the bridge's whole neighbourhood; false when empty. */
  predicate BridgeUnhappy(g: Lollipop, cs: nat, th: Threshold.Pq)
    requires Valid(g, cs)
  {
    g.bridgeOcc && Threshold.IsUnhappy(th, BridgeFrustration(g), BridgeNeighbors(g))
  }

  /** `bridge_unhappy_in_clique_sense_`: the rule over the clique neighbours only, as the clique counts it. */
  predicate BridgeUnhappyInClique(g: Lollipop, cs: nat, th: Threshold.Pq)
    requires Valid(g, cs)
  {
    g.bridgeOcc
      && Threshold.IsUnhappy(th, if g.bridgeCol then g.clique.c0 else g.clique.c1, g.clique.c0 + g.clique.c1 - 1)
  }

  /**
   * `unhappy_count`: the bridge's true verdict replaces its clique-sense one
   * in the clique's count, plus the path's count.  The source sums in 64-bit
   * unsigned arithmetic; the transient -1 wraps and cancels, so the integer
   * sum is the reported value.
   */
  function UnhappyCount(g: Lollipop, cs: nat, th: Threshold.Pq): (r: int)
    requires Valid(g, cs)
    ensures 0 <= r <= g.clique.c0 + g.clique.c1 + |g.path.occ|
  {
    Topology.Ind(BridgeUnhappy(g, cs, th)) - Topology.Ind(BridgeUnhappyInClique(g, cs, th))
      + CG.UnhappyCount(g.clique, cs, th) + LP.UnhappyCount(g.path)
  }

  // ------------------------------------------------------------------
  // Reference: the lollipop's unhappy agents counted one kind at a time

  /** A path agent judged from its own neighbours, vertex 0 looking at the bridge. */
  predicate RefPathUnhappy(g: Lollipop, th: Threshold.Pq, j: nat)
    requires LP.Sized(g.path) && j < |g.path.occ|
  {
    var p, c := g.path, g.path.col[j];
    var left := if j == 0 then g.bridgeOcc else p.occ[j - 1];
    var leftCol := if j == 0 then g.bridgeCol else p.col[j - 1];
    var right := j + 1 < |p.occ| && p.occ[j + 1];
    var rightCol := j + 1 < |p.occ| && p.col[j + 1];
    var neigh := Topology.Ind(left) + Topology.Ind(right);
    var disagree := Topology.Ind(left && leftCol != c) + Topology.Ind(right && rightCol != c);
    p.occ[j] && Threshold.IsUnhappy(th, disagree, neigh)
  }

  /** Unhappy path agents among path vertices 0..n-1. */
  function PathTally(g: Lollipop, th: Threshold.Pq, n: nat): (r: nat)
    requires LP.Sized(g.path) && n <= |g.path.occ|
    ensures r <= n
  {
    if n == 0 then 0 else PathTally(g, th, n - 1) + Topology.Ind(RefPathUnhappy(g, th, n - 1))
  }

  /**
   * The count agent by agent: the non-bridge clique agents of each colour
   * (all unhappy or none), the bridge over its whole neighbourhood, and the
   * path agents.
   */
  function RefCount(g: Lollipop, cs: nat, th: Threshold.Pq): (r: nat)
    requires Valid(g, cs)
  {
    RefCliquePart(g, cs, th) + RefBridgePart(g, cs, th) + PathTally(g, th, |g.path.occ|)
  }

  /** The clique agents other than the bridge: each colour is unhappy as a whole, judged over the other agents. */
  function RefCliquePart(g: Lollipop, cs: nat, th: Threshold.Pq): (r: nat)
    requires Valid(g, cs)
  {
    var c0, c1 := g.clique.c0, g.clique.c1;
    var nb0 := c0 - Topology.Ind(g.bridgeOcc && !g.bridgeCol);
    var nb1 := c1 - Topology.Ind(g.bridgeOcc && g.bridgeCol);
    if c0 + c1 == 0 then 0
    else (if Threshold.IsUnhappy(th, c1, c0 + c1 - 1) then nb0 else 0)
         + (if Threshold.IsUnhappy(th, c0, c0 + c1 - 1) then nb1 else 0)
  }

  /** The bridge, judged over the other clique agents and path vertex 0. */
  function RefBridgePart(g: Lollipop, cs: nat, th: Threshold.Pq): (r: nat)
    requires Valid(g, cs)
  {
    var c0, c1 := g.clique.c0, g.clique.c1;
    var p0 := |g.path.occ| > 0 && g.path.occ[0];
    var p0Col := |g.path.col| > 0 && g.path.col[0];
    if g.bridgeOcc then
      Topology.Ind(Threshold.IsUnhappy(th, (if g.bridgeCol then c0 else c1) + Topology.Ind(p0 && p0Col != g.bridgeCol),
                                   (c0 + c1 - 1) + Topology.Ind(p0)))
    else 0
  }

  /** Through the sentinel, the path's own rule judges each path agent as the reference does. */
  lemma PathVerdictIsReference(g: Lollipop, cs: nat, th: Threshold.Pq, j: nat)
    requires Valid(g, cs) && j < |g.path.occ|
    ensures LP.IsUnhappyAt(g.path, th, j) == RefPathUnhappy(g, th, j)
  {
    var p := g.path;
    if !p.occ[j] {
      LP.EmptyNeverUnhappy(p, th, j);
    } else {
      assert LP.Occ(p, j - 1) == (if j == 0 then g.bridgeOcc else p.occ[j - 1]);
      assert LP.Col(p, j - 1) == (if j == 0 then g.bridgeCol else p.col[j - 1]);
      assert LP.Occ(p, j + 1) == (j + 1 < |p.occ| && p.occ[j + 1]);
      assert LP.Col(p, j + 1) == (j + 1 < |p.occ| && p.col[j + 1]);
    }
  }

  lemma {:induction false} PathTallyIsCount(g: Lollipop, cs: nat, th: Threshold.Pq, n: nat)
    requires Valid(g, cs) && n <= |g.path.occ|
    ensures CountTrue(LP.Verdicts(g.path, th)[..n]) == PathTally(g, th, n)
  {
    var s := LP.Verdicts(g.path, th);
    if n == 0 {
      assert s[..0] == [];
    } else {
      PathTallyIsCount(g, cs, th, n - 1);
      assert s[..n] == s[..n - 1] + [s[n - 1]];
      CountTrueAppend(s[..n - 1], [s[n - 1]]);
      PathVerdictIsReference(g, cs, th, n - 1);
    }
  }

  /** The composite count equals the agent-by-agent reference on every valid state with an exact cache. */
  lemma UnhappyCountIsReference(g: Lollipop, cs: nat, th: Threshold.Pq)
    requires Valid(g, cs) && Exact(g, th)
    ensures UnhappyCount(g, cs, th) == RefCount(g, cs, th)
  {
    PathPartIsReference(g, cs, th);
    CliquePartIsReference(g, cs, th);
  }

  /** The path's cached count is the reference tally of its agents. */
  lemma PathPartIsReference(g: Lollipop, cs: nat, th: Threshold.Pq)
    requires Valid(g, cs) && Exact(g, th)
    ensures LP.UnhappyCount(g.path) == PathTally(g, th, |g.path.occ|)
  {
    var s := LP.Verdicts(g.path, th);
    LP.UnhappyCountIsRecount(g.path, th);
    PathTallyIsCount(g, cs, th, |g.path.occ|);
    assert s[..|g.path.occ|] == s;
  }

  /** The clique's closed form with the bridge's verdict swapped is the reference for the clique and the bridge. */
  lemma CliquePartIsReference(g: Lollipop, cs: nat, th: Threshold.Pq)
    requires Valid(g, cs)
    ensures Topology.Ind(BridgeUnhappy(g, cs, th)) - Topology.Ind(BridgeUnhappyInClique(g, cs, th))
              + CG.UnhappyCount(g.clique, cs, th) == RefCliquePart(g, cs, th) + RefBridgePart(g, cs, th)
  {
    var k := g.clique;
    if k.c0 + k.c1 > 0 {
      assert CG.Neighbors(k) == k.c0 + k.c1 - 1;
      assert LP.Occ(g.path, 0) == (|g.path.occ| > 0 && g.path.occ[0]);
      assert LP.Col(g.path, 0) == (|g.path.col| > 0 && g.path.col[0]);
    }
  }

  /**
   * `pop_agent` with the clique's colour read before its counter drops: the
   * bridge clears itself and the sentinel; other indices go to the clique or
   * the path.
   */
  function Pop(g: Lollipop, cs: nat, th: Threshold.Pq, from: nat): (r: (Lollipop, bool))
    requires Valid(g, cs) && from < cs + |g.path.occ| && IsOccupied(g, cs, from)
    ensures Valid(r.0, cs) && |r.0.path.occ| == |g.path.occ|
    ensures from < cs ==> r.1 == CG.ColorOf(g.clique, from)
    ensures from >= cs ==> r.1 == g.path.col[from - cs] && r.0.path.occ == g.path.occ[from - cs := false]
    ensures g.bridgeOcc && from == BridgeIndex(g, cs) ==> !r.0.bridgeOcc && !r.0.path.sentOcc && r.1 == g.bridgeCol
    ensures r.0.clique.c0 + r.0.clique.c1 + CountTrue(r.0.path.occ) + 1
         == g.clique.c0 + g.clique.c1 + CountTrue(g.path.occ)
  {
    if from == BridgeIndex(g, cs) then
      (PopBridge(g, cs, th), g.bridgeCol)
    else if from < cs then
      var (k, c) := CG.PopAgent(g.clique, cs, from);
      (g.(clique := k), c)
    else
      PopPath(g, cs, th, from - cs)
  }

  /**
   * `pop_agent` as written: a non-bridge clique index reports what the
   * clique's own `pop_agent` returns, the colour read after the counter
   * drops.  The state it leaves is the corrected pop's; only that reported
   * colour can differ.
   */
  function PopAsWritten(g: Lollipop, cs: nat, th: Threshold.Pq, from: nat): (r: (Lollipop, bool))
    requires Valid(g, cs) && from < cs + |g.path.occ| && IsOccupied(g, cs, from)
    ensures r.0 == Pop(g, cs, th, from).0
    ensures from < cs && from != BridgeIndex(g, cs) ==> r.1 == CG.ColorOf(r.0.clique, from)
    ensures from >= cs || from == BridgeIndex(g, cs) ==> r.1 == Pop(g, cs, th, from).1
  {
    if from == BridgeIndex(g, cs) then
      (PopBridge(g, cs, th), g.bridgeCol)
    else if from < cs then
      var (k, c) := CG.PopAgentAsWritten(g.clique, from);
      (g.(clique := k), c)
    else
      PopPath(g, cs, th, from - cs)
  }

  /**
   * Two colour-0 agents in a clique of two, the first one the bridge: popping
   * index 1 removes a colour-0 agent, yet the as-written pop reports colour 1.
   */
  lemma PopAsWrittenMisreports(th: Threshold.Pq)
    ensures Valid(Lollipop(CG.Clique(2, 0), LP.Path([], [], true, false, [], false), true, false), 2)
    ensures var g := Lollipop(CG.Clique(2, 0), LP.Path([], [], true, false, [], false), true, false);
      PopAsWritten(g, 2, th, 1).1 && !Pop(g, 2, th, 1).1
  {
    var g := Lollipop(CG.Clique(2, 0), LP.Path([], [], true, false, [], false), true, false);
    assert BridgeIndex(g, 2) == 0;
    assert CG.PopAgentAsWritten(g.clique, 1) == (CG.Clique(1, 0), true);
  }

  /** The bridge leaves: one agent fewer in the clique, the sentinel cleared, the path's bits unchanged. */
  function PopBridge(g: Lollipop, cs: nat, th: Threshold.Pq): (r: Lollipop)
    requires Valid(g, cs) && g.bridgeOcc
    ensures Valid(r, cs) && r.path.occ == g.path.occ && !r.bridgeOcc && !r.path.sentOcc
    ensures r.clique.c0 + r.clique.c1 + 1 == g.clique.c0 + g.clique.c1
  {
    var (k, _) := CG.PopAgent(g.clique, cs, BridgeIndex(g, cs));
    Lollipop(k, LP.SetSentinel(g.path, th, false, false), false, false)
  }

  /** A path agent leaves: its bit clears and the clique and bridge are untouched. */
  function PopPath(g: Lollipop, cs: nat, th: Threshold.Pq, i: nat): (r: (Lollipop, bool))
    requires Valid(g, cs) && i < |g.path.occ| && g.path.occ[i]
    ensures Valid(r.0, cs) && r.1 == g.path.col[i] && r.0.path.occ == g.path.occ[i := false]
    ensures r.0.clique == g.clique && r.0.bridgeOcc == g.bridgeOcc && r.0.path.sentOcc == g.path.sentOcc
    ensures CountTrue(r.0.path.occ) + 1 == CountTrue(g.path.occ)
  {
    var (path, c) := LP.Pop(g.path, th, i);
    LP.PopClean(g.path, th, i);
    CountTrueUpdate(g.path.occ, i, false);
    (g.(path := path), c)
  }

  /** `place_agent`: at the bridge index it occupies the bridge and sets the sentinel; otherwise clique or path. */
  function Place(g: Lollipop, cs: nat, th: Threshold.Pq, to: nat, c: bool): (r: Lollipop)
    requires Valid(g, cs) && to < cs + |g.path.occ| && !IsOccupied(g, cs, to)
    ensures Valid(r, cs) && |r.path.occ| == |g.path.occ|
    ensures to == BridgeIndex(g, cs) ==> r.bridgeOcc && r.bridgeCol == c && r.path.sentOcc && r.path.sentCol == c
    ensures to < cs ==> CG.CountByColor(r.clique, cs, Some(c)) == CG.CountByColor(g.clique, cs, Some(c)) + 1
    ensures to >= cs ==> LP.Occ(r.path, to - cs) && LP.Col(r.path, to - cs) == c
    ensures r.clique.c0 + r.clique.c1 + CountTrue(r.path.occ)
         == g.clique.c0 + g.clique.c1 + CountTrue(g.path.occ) + 1
  {
    if to == BridgeIndex(g, cs) then
      PlaceBridge(g, cs, th, c)
    else if to < cs then
      g.(clique := CG.PlaceAgent(g.clique, cs, c))
    else
      PlacePath(g, cs, th, to - cs, c)
  }

  /** An agent takes the empty bridge: one agent more in the clique, the sentinel set to its colour. */
  function PlaceBridge(g: Lollipop, cs: nat, th: Threshold.Pq, c: bool): (r: Lollipop)
    requires Valid(g, cs) && !g.bridgeOcc
    ensures Valid(r, cs) && r.path.occ == g.path.occ
    ensures r.bridgeOcc && r.bridgeCol == c && r.path.sentOcc && r.path.sentCol == c
    ensures CG.CountByColor(r.clique, cs, Some(c)) == CG.CountByColor(g.clique, cs, Some(c)) + 1
    ensures r.clique.c0 + r.clique.c1 == g.clique.c0 + g.clique.c1 + 1
  {
    Lollipop(CG.PlaceAgent(g.clique, cs, c), LP.SetSentinel(g.path, th, true, c), true, c)
  }

  /** An agent takes an empty path vertex: its bits set and the clique and bridge untouched. */
  function PlacePath(g: Lollipop, cs: nat, th: Threshold.Pq, i: nat, c: bool): (r: Lollipop)
    requires Valid(g, cs) && i < |g.path.occ| && !g.path.occ[i]
    ensures Valid(r, cs) && r.path.occ == g.path.occ[i := true] && LP.Occ(r.path, i) && LP.Col(r.path, i) == c
    ensures r.clique == g.clique && r.bridgeOcc == g.bridgeOcc
    ensures CountTrue(r.path.occ) == CountTrue(g.path.occ) + 1
  {
    LP.PlaceColor(g.path, th, i, c);
    CountTrueUpdate(g.path.occ, i, true);
    g.(path := LP.Place(g.path, th, i, c))
  }

  /** Popping keeps the path's cache exact, so the count stays the reference count. */
  lemma PopKeepsExact(g: Lollipop, cs: nat, th: Threshold.Pq, from: nat)
    requires Valid(g, cs) && Exact(g, th) && from < cs + |g.path.occ| && IsOccupied(g, cs, from)
    ensures var r := Pop(g, cs, th, from).0; Exact(r, th) && UnhappyCount(r, cs, th) == RefCount(r, cs, th)
  {
    var r := Pop(g, cs, th, from).0;
    if from == BridgeIndex(g, cs) {
      assert Exact(r, th) by {
        assert r.path == LP.SetSentinel(g.path, th, false, false);
        LP.SetSentinelKeepsCacheExact(g.path, th, false, false);
      }
    } else if from >= cs {
      assert Exact(r, th) by {
        assert r.path == LP.Pop(g.path, th, from - cs).0;
        LP.PopKeepsCacheExact(g.path, th, from - cs);
      }
    } else {
      assert r.path == g.path;
    }
    UnhappyCountIsReference(r, cs, th);
  }

  lemma PlaceKeepsExact(g: Lollipop, cs: nat, th: Threshold.Pq, to: nat, c: bool)
    requires Valid(g, cs) && Exact(g, th) && to < cs + |g.path.occ| && !IsOccupied(g, cs, to)
    ensures var r := Place(g, cs, th, to, c); Exact(r, th) && UnhappyCount(r, cs, th) == RefCount(r, cs, th)
  {
    var r := Place(g, cs, th, to, c);
    if to == BridgeIndex(g, cs) {
      assert Exact(r, th) by {
        assert r.path == LP.SetSentinel(g.path, th, true, c);
        LP.SetSentinelKeepsCacheExact(g.path, th, true, c);
      }
    } else if to >= cs {
      assert Exact(r, th) by {
        assert r.path == LP.Place(g.path, th, to - cs, c);
        LP.PlaceKeepsCacheExact(g.path, th, to - cs, c);
      }
    } else {
      assert r.path == g.path;
    }
    UnhappyCountIsReference(r, cs, th);
  }
}
