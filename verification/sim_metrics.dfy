/**
 * Per-vertex unhappiness of the C++ simulator (include/sim/metrics.hpp):
 * a flag per vertex, a global counter and a swap-remove pool of the flagged
 * vertices, with happiness decided by an on-demand neighbour scan.
 *
 * The threshold tau is a double in the source; here it is the exact
 * rational p/q, and the 1e-12 slack subtracted before rounding up is dropped.
 * The scan's two counters are 16 bits wide and wrap modulo 2^16.
 */
module SimMetrics {
  import opened Basics
  import opened Topology
  import opened IndexedPool
  import Threshold

  const U16: nat := 0x1_0000

  /** Satisfaction threshold p/q on the fraction of same-type occupied neighbours. */
  datatype Tau = Tau(p: nat, q: Pos)

  datatype Metrics = Metrics(unhappy: seq<bool>, total: nat, list: Pool)

  /**
   * Agents needed of the same type: ceil(tau*occ), clamped to [0, occ].
   * Falling short of it is falling below the fraction tau, unless all
   * occupied neighbours already agree (the clamp matters only for tau > 1).
   */
  function Need(tau: Tau, occ: nat): (r: nat)
    ensures r <= occ
    ensures forall s: nat :: s <= occ ==> (s < r <==> s * tau.q < tau.p * occ && s < occ)
  {
    var c := CeilDiv(tau.p * occ, tau.q);
    assert forall s: nat :: s < c <==> s * tau.q < tau.p * occ by {
      forall s: nat { BelowCeil(s, tau.p * occ, tau.q); }
    }
    Max(0, Min(c, occ))
  }

  /**
   * `recompute_unhappy_scan`: an empty vertex is not unhappy; nor is one
   * without occupied neighbours; otherwise same < need, with 16-bit counters.
   */
  function ScanUnhappy(adj: Adjacency, w: World, v: nat, tau: Tau): (r: bool)
    requires v < |adj|
    ensures !IsOcc(w, v) ==> !r
    ensures Occ(adj, w, v) == 0 ==> !r
  {
    if !IsOcc(w, v) then false
    else
      var t1 := CellAt(w, v).kind;
      var occ := Occ(adj, w, v) % U16;
      var same := Same(adj, w, v, t1) % U16;
      occ != 0 && same < Need(tau, occ)
  }

  /**
   * Below 2^16 neighbours nothing wraps, and the scan says: occupied, with
   * occupied neighbours, not all of its own type, and a same-type fraction
   * below p/q.
   */
  lemma ScanUnhappyMeaning(adj: Adjacency, w: World, v: nat, tau: Tau)
    requires v < |adj| && Occ(adj, w, v) < U16
    ensures ScanUnhappy(adj, w, v, tau)
        <==> IsOcc(w, v) && Occ(adj, w, v) > 0
             && Same(adj, w, v, CellAt(w, v).kind) < Occ(adj, w, v)
             && Same(adj, w, v, CellAt(w, v).kind) * tau.q < tau.p * Occ(adj, w, v)
  {
    if IsOcc(w, v) {
      var occ, same := Occ(adj, w, v), Same(adj, w, v, CellAt(w, v).kind);
      assert occ % U16 == occ && same % U16 == same;
      var need := Need(tau, occ);
      assert same < need <==> same * tau.q < tau.p * occ && same < occ;
    }
  }

  /**
   * For a threshold in [0, 1] and fewer than 2^16 neighbours the scan is the
   * negation of metrics.hpp `Threshold::satisfied` on an occupied vertex.
   */
  lemma ScanIsNotSatisfied(adj: Adjacency, w: World, v: nat, p: Threshold.u32, q: Threshold.u32)
    requires v < |adj| && 0 < q && p <= q && Occ(adj, w, v) < U16
    ensures ScanUnhappy(adj, w, v, Tau(p, q))
        <==> IsOcc(w, v) && !Threshold.Satisfied(Threshold.Ratio(p, q),
                                                Same(adj, w, v, CellAt(w, v).kind),
                                                Other(adj, w, v, CellAt(w, v).kind))
  {
    ScanUnhappyMeaning(adj, w, v, Tau(p, q));
    if IsOcc(w, v) {
      var k := CellAt(w, v).kind;
      var occ, same := Occ(adj, w, v), Same(adj, w, v, k);
      OtherIsOccMinusSame(adj, w, v, k);
      assert same + Other(adj, w, v, k) == occ;
      if occ > 0 {
        assert Threshold.Satisfied(Threshold.Ratio(p, q), same, Other(adj, w, v, k))
            <==> same * q >= p * occ;
        if same == occ {
          MulLeft(occ, p, q);
          assert same * q >= p * occ;
        }
      }
    }
  }

  /** The flags, the pool and the counter agree. */
  ghost predicate Tracks(m: Metrics, n: nat) {
    && |m.unhappy| == n
    && IndexedPool.Valid(m.list, n)
    && (forall v: nat :: v < n ==> (Contains(m.list, v) <==> m.unhappy[v]))
    && m.total == |m.list.items|
    && m.total == CountTrue(m.unhappy)
  }

  /** Every flag is the scan of the given world. */
  ghost predicate Exact(m: Metrics, adj: Adjacency, w: World, tau: Tau) {
    && |m.unhappy| == |adj|
    && (forall v :: 0 <= v < |adj| ==> m.unhappy[v] == ScanUnhappy(adj, w, v, tau))
  }

  /**
   * `set_unhappy`: an unchanged flag returns at once; raising pushes v and
   * counts it; lowering swap-pops v if listed and decrements a positive counter.
   */
  function SetUnhappy(m: Metrics, v: nat, flag: bool): (r: Metrics)
    requires Tracks(m, |m.unhappy|) && v < |m.unhappy|
    ensures m.unhappy[v] == flag ==> r == m
    ensures r.unhappy == m.unhappy[v := flag] && Tracks(r, |m.unhappy|)
    ensures forall x: nat :: x < |m.unhappy| ==> (Contains(r.list, x) <==> r.unhappy[x])
    ensures r.total == m.total + Ind(flag && !m.unhappy[v]) - Ind(!flag && m.unhappy[v])
  {
    var n := |m.unhappy|;
    if m.unhappy[v] == flag then m
    else if flag then
      var r := Metrics(m.unhappy[v := true], m.total + 1, Push(m.list, n, v));
      CountTrueUpdate(m.unhappy, v, true);
      r
    else
      var r := Metrics(m.unhappy[v := false], if m.total > 0 then m.total - 1 else 0, Remove(m.list, n, v));
      CountTrueUpdate(m.unhappy, v, false);
      r
  }

  /**
   * `bind`: all flags cleared, then every occupied vertex whose scan says
   * unhappy is flagged and appended, in increasing vertex order.
   */
  method Bind(adj: Adjacency, w: World, tau: Tau) returns (m: Metrics)
    ensures Tracks(m, |adj|) && Exact(m, adj, w, tau)
    ensures forall i, j :: 0 <= i < j < |m.list.items| ==> m.list.items[i] < m.list.items[j]
  {
    var n := |adj|;
    m := Metrics(seq(n, _ => false), 0, IndexedPool.Empty(n));
    CountTrueAllFalse(m.unhappy);
    var v := 0;
    while v < n
      invariant v <= n
      invariant Tracks(m, n)
      invariant forall u :: 0 <= u < v ==> m.unhappy[u] == ScanUnhappy(adj, w, u, tau)
      invariant forall u :: v <= u < n ==> !m.unhappy[u]
      invariant forall i :: 0 <= i < |m.list.items| ==> m.list.items[i] < v
      invariant forall i, j :: 0 <= i < j < |m.list.items| ==> m.list.items[i] < m.list.items[j]
    {
      if IsOcc(w, v) && ScanUnhappy(adj, w, v, tau) {
        m := SetUnhappy(m, v, true);
      }
      v := v + 1;
    }
  }
}
