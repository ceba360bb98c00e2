/**
 * The flat random stepper (sim_random.hpp): lists of occupied and vacant
 * vertices and an exact unhappy set, each a swap-remove pool; a random agent
 * is drawn and, when unsatisfied, moved to a uniformly drawn vacancy.
 *
 * Random draws are parameters: `picks(i)` and `vacs(i)` are the draws of
 * iteration i.  Only the default destination policy (a uniform vacancy,
 * satisfaction ignored) is modelled.
 */
module SimRandom {
  import opened Basics
  import opened Topology
  import opened IndexedPool
  import opened FlatMetrics
  import Threshold

  datatype RState = RState(w: World, occupied: Pool, vacant: Pool, unhappy: Pool)

  /** Pools well-formed over the vertices; occupied and vacant partition them by occupancy. */
  ghost predicate Inv(adj: Adjacency, s: RState) {
    && |s.w| == |adj|
    && Valid(s.occupied, |adj|) && Valid(s.vacant, |adj|) && Valid(s.unhappy, |adj|)
    && (forall v: nat :: v < |adj| ==> (Contains(s.occupied, v) <==> IsOcc(s.w, v)))
    && (forall v: nat :: v < |adj| ==> (Contains(s.vacant, v) <==> !IsOcc(s.w, v)))
  }

  /** The unhappy set is exactly the agents not satisfied in the current world. */
  ghost predicate Exact(adj: Adjacency, s: RState, th: Threshold.Ratio) {
    forall v: nat :: v < |adj| ==> (Contains(s.unhappy, v) <==> Unhappy(adj, s.w, v, th))
  }

  /**
   * `update_unhappy`: an empty vertex is removed; otherwise it is added when
   * not satisfied and removed when satisfied (both idempotent).
   */
  function UpdateUnhappy(adj: Adjacency, w: World, u: Pool, v: nat, th: Threshold.Ratio): (r: Pool)
    requires Valid(u, |adj|) && v < |adj|
    ensures Valid(r, |adj|)
    ensures Contains(r, v) <==> Unhappy(adj, w, v, th)
    ensures forall x: nat :: x < |adj| && x != v ==> (Contains(r, x) <==> Contains(u, x))
  {
    if !IsOcc(w, v) then Remove(u, |adj|, v)
    else if SatisfiedAt(adj, w, v, CellAt(w, v).kind, th) then Remove(u, |adj|, v)
    else Add(u, |adj|, v)
  }

  /** `update_unhappy` for each listed vertex in turn. */
  function UpdateEach(adj: Adjacency, w: World, u: Pool, nbrs: seq<nat>, th: Threshold.Ratio): (r: Pool)
    requires Valid(u, |adj|)
    requires forall i :: 0 <= i < |nbrs| ==> nbrs[i] < |adj|
    ensures Valid(r, |adj|)
    ensures forall x: nat :: x < |adj| ==>
              (Contains(r, x) <==> if x in nbrs then Unhappy(adj, w, x, th) else Contains(u, x))
    decreases |nbrs|
  {
    if |nbrs| == 0 then u
    else UpdateEach(adj, w, UpdateUnhappy(adj, w, u, nbrs[0], th), nbrs[1..], th)
  }

  /**
   * `initialize`: one pass lists every vertex as occupied or vacant in
   * increasing order; a pass over the occupied list adds the unsatisfied.
   */
  method Initialize(adj: Adjacency, w: World, th: Threshold.Ratio) returns (s: RState)
    requires |w| == |adj|
    ensures Inv(adj, s) && Exact(adj, s, th) && s.w == w
  {
    var n := |adj|;
    var occupied, vacant := IndexedPool.Empty(n), IndexedPool.Empty(n);
    var v := 0;
    while v < n
      invariant v <= n
      invariant Valid(occupied, n) && Valid(vacant, n)
      invariant forall x: nat :: x < n ==> (Contains(occupied, x) <==> x < v && IsOcc(w, x))
      invariant forall x: nat :: x < n ==> (Contains(vacant, x) <==> x < v && !IsOcc(w, x))
    {
      if IsOcc(w, v) {
        occupied := Push(occupied, n, v);
      } else {
        vacant := Push(vacant, n, v);
      }
      v := v + 1;
    }
    ValidNoDup(occupied, n);
    var unhappy := IndexedPool.Empty(n);
    var i := 0;
    while i < |occupied.items|
      invariant i <= |occupied.items|
      invariant Valid(unhappy, n)
      invariant forall x: nat :: x < n ==>
                  (Contains(unhappy, x) <==> x in occupied.items[..i] && Unhappy(adj, w, x, th))
    {
      var x := occupied.items[i];
      assert Contains(occupied, x);
      if !SatisfiedAt(adj, w, x, CellAt(w, x).kind, th) {
        unhappy := Add(unhappy, n, x);
      }
      assert occupied.items[..i + 1] == occupied.items[..i] + [x];
      i := i + 1;
    }
    assert occupied.items[..i] == occupied.items;
    s := RState(w, occupied, vacant, unhappy);
  }

  /** What one iteration of the main loop did. */
  datatype Iteration = NoAgents | Stayed(s: RState) | Stuck(s: RState) | Moved(s: RState)

  /** The agent drawn by `pick` and the vacancy drawn by `vac`. */
  function Src(s: RState, pick: nat): nat
    requires |s.occupied.items| > 0
  {
    s.occupied.items[pick % |s.occupied.items|]
  }

  function Dst(s: RState, vac: nat): nat
    requires |s.vacant.items| > 0
  {
    s.vacant.items[vac % |s.vacant.items|]
  }

  /**
   * The slot of the occupied list that held src now holds dst: dst's
   * position is that slot and src's is cleared.
   */
  function ReplaceAt(p: Pool, n: nat, slot: nat, dst: nat): (r: Pool)
    requires Valid(p, n) && slot < |p.items| && dst < n && !Contains(p, dst)
    ensures Valid(r, n) && |r.items| == |p.items|
    ensures forall x: nat :: x < n ==> (Contains(r, x) <==> (Contains(p, x) && x != p.items[slot]) || x == dst)
  {
    ValidNoDup(p, n);
    Pool(p.items[slot := dst], p.pos[dst := Some(slot)][p.items[slot] := None])
  }

  /**
   * The O(1) bookkeeping of an applied move: the world moves the agent, the
   * occupied slot is re-pointed, dst leaves and src joins the vacancies, and
   * the neighbours of src, then of dst, then dst itself are re-evaluated.
   */
  function Relocate(adj: Adjacency, th: Threshold.Ratio, s: RState, u1: Pool, pick: nat, vac: nat): (r: RState)
    requires WellFormed(adj) && Inv(adj, s) && Valid(u1, |adj|)
    requires |s.occupied.items| > 0 && |s.vacant.items| > 0
    ensures r.w == s.w[Src(s, pick) := Empty][Dst(s, vac) := s.w[Src(s, pick)]]
    ensures Valid(r.occupied, |adj|) && Valid(r.vacant, |adj|) && Valid(r.unhappy, |adj|)
    ensures forall x: nat :: x < |adj| ==>
              (Contains(r.occupied, x) <==> (Contains(s.occupied, x) && x != Src(s, pick)) || x == Dst(s, vac))
    ensures forall x: nat :: x < |adj| ==>
              (Contains(r.vacant, x) <==> (Contains(s.vacant, x) && x != Dst(s, vac)) || x == Src(s, pick))
  {
    var k := pick % |s.occupied.items|;
    var src, dst := Src(s, pick), Dst(s, vac);
    assert Contains(s.occupied, src) && Contains(s.vacant, dst);
    var w' := s.w[src := Empty][dst := s.w[src]];
    var occupied := ReplaceAt(s.occupied, |adj|, k, dst);
    var vacant := Add(Remove(s.vacant, |adj|, dst), |adj|, src);
    var u2 := UpdateEach(adj, w', u1, adj[src], th);
    var u3 := UpdateEach(adj, w', u2, adj[dst], th);
    RState(w', occupied, vacant, UpdateUnhappy(adj, w', u3, dst, th))
  }

  /** The lists after a move partition the new world. */
  lemma RelocateKeepsInv(adj: Adjacency, th: Threshold.Ratio, s: RState, u1: Pool, pick: nat, vac: nat)
    requires WellFormed(adj) && Inv(adj, s) && Valid(u1, |adj|)
    requires |s.occupied.items| > 0 && |s.vacant.items| > 0
    ensures Inv(adj, Relocate(adj, th, s, u1, pick, vac))
  {
    var r := Relocate(adj, th, s, u1, pick, vac);
    var src, dst := Src(s, pick), Dst(s, vac);
    assert Contains(s.occupied, src) && Contains(s.vacant, dst);
    assert src != dst;
    assert forall x: nat :: x < |adj| ==> (IsOcc(r.w, x) <==> (IsOcc(s.w, x) && x != src) || x == dst);
  }

  /** After a move the re-evaluated vertices hold the new verdict and the rest keep u1's membership. */
  lemma RelocateUnhappy(adj: Adjacency, th: Threshold.Ratio, s: RState, u1: Pool, pick: nat, vac: nat, x: nat)
    requires WellFormed(adj) && Inv(adj, s) && Valid(u1, |adj|)
    requires |s.occupied.items| > 0 && |s.vacant.items| > 0 && x < |adj|
    ensures var r := Relocate(adj, th, s, u1, pick, vac);
            Contains(r.unhappy, x)
            <==> if x == Dst(s, vac) || x in adj[Src(s, pick)] || x in adj[Dst(s, vac)]
                 then Unhappy(adj, r.w, x, th) else Contains(u1, x)
  {
  }

  /**
   * One pass of `run`'s loop body under the default policy: draw an agent;
   * a satisfied one stays; otherwise it leaves the unhappy set and, if a
   * vacancy exists, moves there, the lists are updated in O(1) and the
   * neighbours of both endpoints and the mover are re-evaluated.
   */
  function Iterate(adj: Adjacency, th: Threshold.Ratio, s: RState, pick: nat, vac: nat): (r: Iteration)
    requires WellFormed(adj) && Inv(adj, s)
    ensures r.NoAgents? <==> |s.occupied.items| == 0
    ensures r.Stayed? ==> r.s == s
    ensures r.Stuck? ==> r.s.w == s.w && |s.vacant.items| == 0
    ensures r.Stuck? || r.Moved? ==> Unhappy(adj, s.w, Src(s, pick), th)
    ensures r.Moved? ==>
              (|s.vacant.items| > 0 && r.s.w == s.w[Src(s, pick) := Empty][Dst(s, vac) := s.w[Src(s, pick)]])
  {
    if |s.occupied.items| == 0 then NoAgents
    else
      var k := pick % |s.occupied.items|;
      var src := s.occupied.items[k];
      assert Contains(s.occupied, src);
      var t := CellAt(s.w, src).kind;
      if SatisfiedAt(adj, s.w, src, t, th) then Stayed(s)
      else
        var u1 := Remove(s.unhappy, |adj|, src);
        if |s.vacant.items| == 0 then Stuck(s.(unhappy := u1))
        else
          Moved(Relocate(adj, th, s, u1, pick, vac))
  }

  /** A drawn agent stays exactly when it is satisfied, i.e. (under exactness) not in the unhappy set. */
  lemma IterateStaysIffSatisfied(adj: Adjacency, th: Threshold.Ratio, s: RState, pick: nat, vac: nat)
    requires WellFormed(adj) && Inv(adj, s) && Exact(adj, s, th) && |s.occupied.items| > 0
    ensures Iterate(adj, th, s, pick, vac).Stayed? <==> !Contains(s.unhappy, Src(s, pick))
  {
    assert Contains(s.occupied, Src(s, pick));
  }

  /** A move keeps the occupied and vacant lists a partition of the new world. */
  lemma IterateKeepsInv(adj: Adjacency, th: Threshold.Ratio, s: RState, pick: nat, vac: nat)
    requires WellFormed(adj) && Inv(adj, s)
    ensures Iterate(adj, th, s, pick, vac).Moved? ==> Inv(adj, Iterate(adj, th, s, pick, vac).s)
  {
    if Iterate(adj, th, s, pick, vac).Moved? {
      RelocateKeepsInv(adj, th, s, Remove(s.unhappy, |adj|, Src(s, pick)), pick, vac);
    }
  }

  /**
   * A move keeps the unhappy set exact: every vertex whose neighbourhood or
   * cell changed is re-evaluated in the new world, and no other vertex's
   * verdict can change.
   */
  lemma IterateKeepsExact(adj: Adjacency, th: Threshold.Ratio, s: RState, pick: nat, vac: nat)
    requires WellFormed(adj) && Inv(adj, s) && Exact(adj, s, th)
    ensures Iterate(adj, th, s, pick, vac).Stayed? ==> Exact(adj, Iterate(adj, th, s, pick, vac).s, th)
    ensures Iterate(adj, th, s, pick, vac).Moved? ==> Exact(adj, Iterate(adj, th, s, pick, vac).s, th)
  {
    if Iterate(adj, th, s, pick, vac).Moved? {
      var u1 := Remove(s.unhappy, |adj|, Src(s, pick));
      forall x: nat | x < |adj|
        ensures Contains(Relocate(adj, th, s, u1, pick, vac).unhappy, x)
            <==> Unhappy(adj, Relocate(adj, th, s, u1, pick, vac).w, x, th)
      {
        RelocateExactAt(adj, th, s, pick, vac, x);
      }
    }
  }

  lemma RelocateExactAt(adj: Adjacency, th: Threshold.Ratio, s: RState, pick: nat, vac: nat, x: nat)
    requires WellFormed(adj) && Inv(adj, s) && Exact(adj, s, th)
    requires |s.occupied.items| > 0 && |s.vacant.items| > 0 && x < |adj|
    ensures var r := Relocate(adj, th, s, Remove(s.unhappy, |adj|, Src(s, pick)), pick, vac);
            Contains(r.unhappy, x) <==> Unhappy(adj, r.w, x, th)
  {
    var src, dst := Src(s, pick), Dst(s, vac);
    var u1 := Remove(s.unhappy, |adj|, src);
    var r := Relocate(adj, th, s, u1, pick, vac);
    assert Contains(s.occupied, src) && Contains(s.vacant, dst);
    RelocateUnhappy(adj, th, s, u1, pick, vac, x);
    if x != dst && x !in adj[src] && x !in adj[dst] {
      if x == src {
        assert !IsOcc(r.w, x);
      } else {
        assert Contains(r.unhappy, x) <==> Unhappy(adj, s.w, x, th);
        VerdictAway(adj, th, s.w, r.w, src, dst, x);
      }
    }
  }

  /** A vertex that is neither endpoint nor adjacent to one keeps its verdict. */
  lemma VerdictAway(adj: Adjacency, th: Threshold.Ratio, w: World, w': World, src: nat, dst: nat, x: nat)
    requires WellFormed(adj) && |w| == |adj| && src < |adj| && dst < |adj| && x < |adj|
    requires w' == w[src := Empty][dst := w[src]]
    requires x != src && x != dst && x !in adj[src] && x !in adj[dst]
    ensures Unhappy(adj, w', x, th) == Unhappy(adj, w, x, th)
  {
    assert CellAt(w', x) == CellAt(w, x);
    if IsOcc(w, x) {
      var k := CellAt(w, x).kind;
      MoveLocality(adj, w, w', src, dst, x);
      assert Same(adj, w', x, k) == Same(adj, w, x, k);
      assert Other(adj, w', x, k) == Other(adj, w, x, k) by {
        assert Same(adj, w', x, !k) == Same(adj, w, x, !k);
      }
      assert SameOther(adj, w', x, k) == SameOther(adj, w, x, k);
    }
  }

  /** What `run` reports; the final world is carried along so the report can be checked against it. */
  datatype RunResult = RunResult(w: World, moves: nat, converged: bool, finalUnhappy: Threshold.u32)

  /** The report built from a full recount of the world. */
  function Recounted(adj: Adjacency, th: Threshold.Ratio, w: World, moves: nat): (r: RunResult)
    ensures r.w == w && r.moves == moves && r.finalUnhappy == UnhappyCount(adj, w, th)
    ensures r.converged <==> r.finalUnhappy == 0
  {
    var u := UnhappyCount(adj, w, th);
    RunResult(w, moves, u == 0, u)
  }

  /**
   * `run`: with no agents the recount decides; otherwise the loop runs for
   * at most maxIters iterations, drawing `picks(i)` and `vacs(i)` in
   * iteration i.
   */
  function Run(adj: Adjacency, th: Threshold.Ratio, s: RState, picks: nat -> nat, vacs: nat -> nat,
               maxIters: nat): (r: RunResult)
    requires WellFormed(adj) && Inv(adj, s)
    ensures r.moves <= maxIters
  {
    if |s.occupied.items| == 0 then Recounted(adj, th, s.w, 0)
    else Loop(adj, th, s, picks, vacs, 0, maxIters, 0)
  }

  /**
   * The loop from iteration `iter` on: it stops at once, converged, when the
   * unhappy set is empty; a move that empties it stops converged too; with
   * no vacancy it stops unconverged; the last iteration reports whether the
   * unhappy set is empty, and running out of iterations recounts.
   */
  function Loop(adj: Adjacency, th: Threshold.Ratio, s: RState, picks: nat -> nat, vacs: nat -> nat,
                iter: nat, maxIters: nat, moves: nat): (r: RunResult)
    requires WellFormed(adj) && Inv(adj, s) && iter <= maxIters
    ensures moves <= r.moves <= moves + (maxIters - iter)
    decreases maxIters - iter
  {
    if iter == maxIters then Recounted(adj, th, s.w, moves)
    else if |s.unhappy.items| == 0 then RunResult(s.w, moves, true, 0)
    else
      var it := Iterate(adj, th, s, picks(iter), vacs(iter));
      IterateKeepsInv(adj, th, s, picks(iter), vacs(iter));
      match it
      case NoAgents => Recounted(adj, th, s.w, moves)
      case Stuck(_) => RunResult(s.w, moves, false, UnhappyCount(adj, s.w, th))
      case Stayed(s') => Next(adj, th, s', picks, vacs, iter, maxIters, moves)
      case Moved(s') =>
        if |s'.unhappy.items| == 0 then RunResult(s'.w, moves + 1, true, 0)
        else Next(adj, th, s', picks, vacs, iter, maxIters, moves + 1)
  }

  /** The end of an iteration: the last one reports, any other continues. */
  function Next(adj: Adjacency, th: Threshold.Ratio, s: RState, picks: nat -> nat, vacs: nat -> nat,
                iter: nat, maxIters: nat, moves: nat): (r: RunResult)
    requires WellFormed(adj) && Inv(adj, s) && iter < maxIters
    ensures moves <= r.moves <= moves + (maxIters - iter - 1)
    decreases maxIters - iter, 0
  {
    if iter + 1 == maxIters then
      var u := UnhappyCount(adj, s.w, th);
      RunResult(s.w, moves, |s.unhappy.items| == 0, u)
    else Loop(adj, th, s, picks, vacs, iter + 1, maxIters, moves)
  }

  /**
   * Only an applied move counts: with no vacancy no iteration can move an
   * agent, so the loop ends with the move counter where it started.
   */
  lemma {:induction false} NoVacancyNoMoves(adj: Adjacency, th: Threshold.Ratio, s: RState, picks: nat -> nat,
                                            vacs: nat -> nat, iter: nat, maxIters: nat, moves: nat)
    requires WellFormed(adj) && Inv(adj, s) && iter <= maxIters && |s.vacant.items| == 0
    ensures Loop(adj, th, s, picks, vacs, iter, maxIters, moves).moves == moves
    decreases maxIters - iter
  {
    if iter < maxIters && |s.unhappy.items| > 0 {
      var it := Iterate(adj, th, s, picks(iter), vacs(iter));
      if it.Stayed? && iter + 1 < maxIters {
        NoVacancyNoMoves(adj, th, s, picks, vacs, iter + 1, maxIters, moves);
      }
    }
  }

  /** Under exactness the unhappy pool is empty exactly when no agent is unhappy. */
  lemma EmptyPoolIffNoneUnhappy(adj: Adjacency, s: RState, th: Threshold.Ratio)
    requires Inv(adj, s) && Exact(adj, s, th)
    ensures |s.unhappy.items| == 0 <==> forall v :: 0 <= v < |adj| ==> !Unhappy(adj, s.w, v, th)
  {
    if |s.unhappy.items| > 0 {
      assert Contains(s.unhappy, s.unhappy.items[0]);
    }
  }

  /**
   * The report is honest: from an exact start, the reported number of
   * unhappy agents is that of a full recount of the final world, and the
   * run claims convergence exactly when that number is zero.
   */
  lemma {:induction false} LoopHonest(adj: Adjacency, th: Threshold.Ratio, s: RState, picks: nat -> nat,
                                      vacs: nat -> nat, iter: nat, maxIters: nat, moves: nat)
    requires WellFormed(adj) && Inv(adj, s) && Exact(adj, s, th) && |adj| < Threshold.U32
    requires iter <= maxIters
    ensures var r := Loop(adj, th, s, picks, vacs, iter, maxIters, moves);
            r.finalUnhappy == UnhappyCount(adj, r.w, th) && (r.converged <==> r.finalUnhappy == 0)
    decreases maxIters - iter
  {
    if iter < maxIters {
      EmptyPoolIffNoneUnhappy(adj, s, th);
      if |s.unhappy.items| > 0 {
        var it := Iterate(adj, th, s, picks(iter), vacs(iter));
        IterateKeepsInv(adj, th, s, picks(iter), vacs(iter));
        IterateKeepsExact(adj, th, s, picks(iter), vacs(iter));
        if it.Stuck? {
          assert Unhappy(adj, s.w, Src(s, picks(iter)), th);
        } else if it.Stayed? || it.Moved? {
          var m := if it.Moved? then moves + 1 else moves;
          EmptyPoolIffNoneUnhappy(adj, it.s, th);
          if iter + 1 < maxIters {
            LoopHonest(adj, th, it.s, picks, vacs, iter + 1, maxIters, m);
          }
        }
      }
    }
  }

  lemma RunHonest(adj: Adjacency, th: Threshold.Ratio, s: RState, picks: nat -> nat, vacs: nat -> nat,
                  maxIters: nat)
    requires WellFormed(adj) && Inv(adj, s) && Exact(adj, s, th) && |adj| < Threshold.U32
    ensures var r := Run(adj, th, s, picks, vacs, maxIters);
            r.finalUnhappy == UnhappyCount(adj, r.w, th) && (r.converged <==> r.finalUnhappy == 0)
  {
    if |s.occupied.items| > 0 {
      LoopHonest(adj, th, s, picks, vacs, 0, maxIters, 0);
    }
  }
}
