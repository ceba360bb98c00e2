/**
 * The fixed graph every engine runs on and the occupancy of its nodes.
 *
 * Nodes are 0..N-1; `adj[v]` is v's neighbour list, built once and never
 * changed.  A World says, for every node, whether it is empty or holds an
 * agent of type 0 (`false`) or type 1 (`true`).  Neighbour counts are defined
 * here once, as the scan over the neighbour list that every engine performs.
 */
module Topology {
  import opened Basics

  datatype Cell = Empty | Occupied(kind: bool)

  type World = seq<Cell>
  type Adjacency = seq<seq<nat>>

  /** A simple undirected graph: neighbours in range, no self loops, no repeats, symmetric. */
  ghost predicate WellFormed(adj: Adjacency) {
    && (forall v, i :: 0 <= v < |adj| && 0 <= i < |adj[v]| ==> adj[v][i] < |adj| && adj[v][i] != v)
    && (forall v :: 0 <= v < |adj| ==> NoDup(adj[v]))
    && (forall u, v :: 0 <= u < |adj| && 0 <= v < |adj| && v in adj[u] ==> u in adj[v])
  }

  /** The cell at v; a node outside the world reads as empty. */
  function CellAt(w: World, v: nat): Cell { if v < |w| then w[v] else Empty }

  predicate IsOcc(w: World, v: nat) { CellAt(w, v).Occupied? }

  predicate HasKind(w: World, v: nat, k: bool) { CellAt(w, v) == Occupied(k) }

  /** Number of listed nodes that hold an agent. */
  function OccCount(w: World, nbrs: seq<nat>): (r: nat)
    ensures r <= |nbrs|
  {
    if |nbrs| == 0 then 0
    else (if IsOcc(w, nbrs[0]) then 1 else 0) + OccCount(w, nbrs[1..])
  }

  /** Number of listed nodes that hold an agent of type k. */
  function KindCount(w: World, nbrs: seq<nat>, k: bool): (r: nat)
    ensures r <= OccCount(w, nbrs)
  {
    if |nbrs| == 0 then 0
    else (if HasKind(w, nbrs[0], k) then 1 else 0) + KindCount(w, nbrs[1..], k)
  }

  lemma KindCountsSplit(w: World, nbrs: seq<nat>)
    ensures KindCount(w, nbrs, false) + KindCount(w, nbrs, true) == OccCount(w, nbrs)
  {
    if |nbrs| > 0 {
      KindCountsSplit(w, nbrs[1..]);
    }
  }

  /** Occupied neighbours of v, and those of type k. */
  function Occ(adj: Adjacency, w: World, v: nat): nat
    requires v < |adj|
  {
    OccCount(w, adj[v])
  }

  function Same(adj: Adjacency, w: World, v: nat, k: bool): nat
    requires v < |adj|
  {
    KindCount(w, adj[v], k)
  }

  /** Two worlds agree on every listed node. */
  predicate AgreeOn(w: World, w': World, nbrs: seq<nat>) {
    forall i :: 0 <= i < |nbrs| ==> CellAt(w, nbrs[i]) == CellAt(w', nbrs[i])
  }

  /** Counts only look at the listed nodes. */
  lemma {:induction false} CountsLocal(w: World, w': World, nbrs: seq<nat>)
    requires AgreeOn(w, w', nbrs)
    ensures OccCount(w, nbrs) == OccCount(w', nbrs)
    ensures forall k :: KindCount(w, nbrs, k) == KindCount(w', nbrs, k)
  {
    if |nbrs| > 0 {
      assert AgreeOn(w, w', nbrs[1..]) by {
        forall i | 0 <= i < |nbrs[1..]| ensures nbrs[1..][i] == nbrs[i + 1] { }
      }
      CountsLocal(w, w', nbrs[1..]);
    }
  }

  /** Worlds that differ only at node s agree on every list that avoids s. */
  lemma AgreeAway(w: World, s: nat, c: Cell, nbrs: seq<nat>)
    requires s < |w| && s !in nbrs
    ensures AgreeOn(w, w[s := c], nbrs)
  {
  }

  function Ind(b: bool): nat { if b then 1 else 0 }

  /**
   * Writing cell c at a node s that occurs once in the list shifts each count
   * by the change of that single node's contribution.
   */
  lemma {:induction false} CountsAtOnePoint(w: World, s: nat, c: Cell, nbrs: seq<nat>)
    requires s < |w| && NoDup(nbrs) && s in nbrs
    ensures OccCount(w[s := c], nbrs) + Ind(IsOcc(w, s)) == OccCount(w, nbrs) + Ind(c.Occupied?)
    ensures forall k :: KindCount(w[s := c], nbrs, k) + Ind(HasKind(w, s, k))
                     == KindCount(w, nbrs, k) + Ind(c == Occupied(k))
  {
    var w' := w[s := c];
    if nbrs[0] == s {
      assert s !in nbrs[1..];
      AgreeAway(w, s, c, nbrs[1..]);
      CountsLocal(w, w', nbrs[1..]);
    } else {
      CountsAtOnePoint(w, s, c, nbrs[1..]);
    }
  }

  /** Occupied neighbours whose type differs from k. */
  function Other(adj: Adjacency, w: World, v: nat, k: bool): nat
    requires v < |adj|
  {
    KindCount(w, adj[v], !k)
  }

  lemma OtherIsOccMinusSame(adj: Adjacency, w: World, v: nat, k: bool)
    requires v < |adj|
    ensures Other(adj, w, v, k) == Occ(adj, w, v) - Same(adj, w, v, k)
  {
    KindCountsSplit(w, adj[v]);
  }

  /**
   * Locality of a relocation: moving one agent from src to dst changes the
   * neighbour counts only of nodes adjacent to src or dst.
   */
  lemma MoveLocality(adj: Adjacency, w: World, w': World, src: nat, dst: nat, v: nat)
    requires WellFormed(adj) && |w| == |adj| && |w'| == |adj|
    requires src < |adj| && dst < |adj| && v < |adj|
    requires forall x :: 0 <= x < |w| && x != src && x != dst ==> w'[x] == w[x]
    requires v !in adj[src] && v !in adj[dst]
    ensures Occ(adj, w', v) == Occ(adj, w, v)
    ensures forall k :: Same(adj, w', v, k) == Same(adj, w, v, k)
  {
    assert src !in adj[v];
    assert dst !in adj[v];
    CountsLocal(w, w', adj[v]);
  }
}
