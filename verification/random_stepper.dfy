/**
 * One move of the "any destination" rule (include/sim/random_stepper.hpp):
 * a uniformly drawn unhappy agent relocates to a uniformly drawn empty
 * vertex, and only the vertices around the two endpoints are re-scanned.
 *
 * The two random draws are the parameters r1 (index into the unhappy pool)
 * and r2 (index into the empty pool).
 */
module RandomStepper {
  import opened Basics
  import opened Topology
  import opened IndexedPool
  import opened WorldPacked
  import opened SimMetrics

  datatype Sim = Sim(w: WorldPacked, m: Metrics)

  /** The state `bind` establishes and every step must keep. */
  ghost predicate Inv(adj: Adjacency, s: Sim) {
    && |s.w.occ| == |adj|
    && Partitioned(s.w)
    && Tracks(s.m, |adj|)
  }

  /**
   * Re-scans, in the world w, every listed vertex that is occupied there,
   * updating its flag when the scan disagrees; the rest keep their flags.
   */
  function Rescan(adj: Adjacency, w: World, m: Metrics, nbrs: seq<nat>, tau: Tau): (r: Metrics)
    requires Tracks(m, |adj|)
    requires forall i :: 0 <= i < |nbrs| ==> nbrs[i] < |adj|
    ensures Tracks(r, |adj|)
    ensures forall u :: 0 <= u < |adj| ==>
              r.unhappy[u] == if u in nbrs && IsOcc(w, u) then ScanUnhappy(adj, w, u, tau) else m.unhappy[u]
    decreases |nbrs|
  {
    if |nbrs| == 0 then m
    else
      var u := nbrs[0];
      var m1 := if IsOcc(w, u) && m.unhappy[u] != ScanUnhappy(adj, w, u, tau)
                then SetUnhappy(m, u, ScanUnhappy(adj, w, u, tau)) else m;
      Rescan(adj, w, m1, nbrs[1..], tau)
  }

  /** The agent drawn from the unhappy pool, and the drawn destination. */
  function From(s: Sim, r1: nat): nat
    requires |s.m.list.items| > 0
  {
    s.m.list.items[r1 % |s.m.list.items|]
  }

  function To(adj: Adjacency, s: Sim, r2: nat): (v: nat)
    requires Inv(adj, s) && |s.w.empties.items| > 0
    ensures v < |adj| && !s.w.occ[v]
  {
    RandomEmpty(s.w, r2)
  }

  /** Whether the step gets past its guards: something to move, somewhere to go. */
  predicate Proceeds(adj: Adjacency, s: Sim, r1: nat, r2: nat)
    requires Inv(adj, s)
  {
    && |s.w.empties.items| > 0 && s.m.total > 0
    && From(s, r1) < |adj| && s.w.occ[From(s, r1)]
    && To(adj, s, r2) != From(s, r1)
  }

  /** The world after the relocation, as the scans see it. */
  function Moved(adj: Adjacency, s: Sim, r1: nat, r2: nat): (w: WorldPacked)
    requires Inv(adj, s) && Proceeds(adj, s, r1, r2)
    ensures Partitioned(w) && |w.occ| == |adj|
    ensures View(w) == View(s.w)[From(s, r1) := Empty][To(adj, s, r2) := Occupied(s.w.typ[From(s, r1)])]
  {
    var vf, vt := From(s, r1), To(adj, s, r2);
    SettersChangeOnlyV(s.w, vf, false);
    SettersChangeOnlyV(SetEmpty(s.w, vf), vt, s.w.typ[vf]);
    SetOccupied(SetEmpty(s.w, vf), vt, s.w.typ[vf])
  }

  /** Every listed neighbour is a vertex of the graph. */
  lemma NbrsInRange(adj: Adjacency, v: nat)
    requires WellFormed(adj) && v < |adj|
    ensures forall i :: 0 <= i < |adj[v]| ==> adj[v][i] < |adj|
  {
    forall i | 0 <= i < |adj[v]| ensures adj[v][i] < |adj| {
      assert adj[v][i] in adj[v];
    }
  }

  /**
   * The flag updates of the step as written, given the world before (w0)
   * and after (w2): re-scan the source's neighbours in w0, clear the
   * source's flag, re-scan the destination's neighbours in w2, then set the
   * destination's flag from its scan in w2.
   */
  function UpdateAsWritten(adj: Adjacency, tau: Tau, w0: World, w2: World, m: Metrics, vf: nat, vt: nat): (r: Metrics)
    requires WellFormed(adj) && Tracks(m, |adj|) && vf < |adj| && vt < |adj|
    ensures Tracks(r, |adj|)
    ensures forall x :: 0 <= x < |adj| ==>
              r.unhappy[x] == if x == vt then ScanUnhappy(adj, w2, vt, tau)
                              else if x in adj[vt] && IsOcc(w2, x) then ScanUnhappy(adj, w2, x, tau)
                              else if x == vf then false
                              else if x in adj[vf] && IsOcc(w0, x) then ScanUnhappy(adj, w0, x, tau)
                              else m.unhappy[x]
  {
    NbrsInRange(adj, vf);
    NbrsInRange(adj, vt);
    var m1 := Rescan(adj, w0, m, adj[vf], tau);
    var m2 := if m1.unhappy[vf] then SetUnhappy(m1, vf, false) else m1;
    var m3 := Rescan(adj, w2, m2, adj[vt], tau);
    SetUnhappy(m3, vt, ScanUnhappy(adj, w2, vt, tau))
  }

  /**
   * The flag updates in the intended order: clear the source's flag, then
   * re-scan the neighbours of the source and of the destination in the new
   * world w2, then set the destination's flag from its scan.
   */
  function Update(adj: Adjacency, tau: Tau, w2: World, m: Metrics, vf: nat, vt: nat): (r: Metrics)
    requires WellFormed(adj) && Tracks(m, |adj|) && vf < |adj| && vt < |adj|
    ensures Tracks(r, |adj|)
    ensures forall x :: 0 <= x < |adj| ==>
              r.unhappy[x] == if x == vt || ((x in adj[vf] || x in adj[vt]) && IsOcc(w2, x))
                              then ScanUnhappy(adj, w2, x, tau)
                              else if x == vf then false
                              else m.unhappy[x]
  {
    NbrsInRange(adj, vf);
    NbrsInRange(adj, vt);
    var m1 := if m.unhappy[vf] then SetUnhappy(m, vf, false) else m;
    var m2 := Rescan(adj, w2, m1, adj[vf], tau);
    var m3 := Rescan(adj, w2, m2, adj[vt], tau);
    SetUnhappy(m3, vt, ScanUnhappy(adj, w2, vt, tau))
  }

  /**
   * `RandomStepperAny::step` as written: the neighbours of the source are
   * re-scanned BEFORE the source is emptied, so their scans still count the
   * departing agent.
   */
  function StepAsWritten(adj: Adjacency, tau: Tau, s: Sim, r1: nat, r2: nat): (r: (Sim, bool))
    requires WellFormed(adj) && Inv(adj, s)
    ensures Inv(adj, r.0)
    ensures r.1 <==> Proceeds(adj, s, r1, r2)
    ensures !r.1 ==> r.0 == s
    ensures r.1 ==> r.0.w == Moved(adj, s, r1, r2) && !r.0.m.unhappy[From(s, r1)]
  {
    if !Proceeds(adj, s, r1, r2) then (s, false)
    else
      var vf, vt := From(s, r1), To(adj, s, r2);
      var w2 := Moved(adj, s, r1, r2);
      assert !IsOcc(View(w2), vf);
      (Sim(w2, UpdateAsWritten(adj, tau, View(s.w), View(w2), s.m, vf, vt)), true)
  }

  /**
   * The step with the source's evident intent: both world updates first,
   * then the neighbours of the source and of the destination are re-scanned
   * in the new world, then the destination itself.
   */
  function Step(adj: Adjacency, tau: Tau, s: Sim, r1: nat, r2: nat): (r: (Sim, bool))
    requires WellFormed(adj) && Inv(adj, s)
    ensures Inv(adj, r.0)
    ensures r.1 <==> Proceeds(adj, s, r1, r2)
    ensures !r.1 ==> r.0 == s
    ensures r.1 ==> r.0.w == Moved(adj, s, r1, r2) && !r.0.m.unhappy[From(s, r1)]
  {
    if !Proceeds(adj, s, r1, r2) then (s, false)
    else
      var vf, vt := From(s, r1), To(adj, s, r2);
      var w2 := Moved(adj, s, r1, r2);
      assert !IsOcc(View(w2), vf);
      (Sim(w2, Update(adj, tau, View(w2), s.m, vf, vt)), true)
  }

  /**
   * Under exact flags a step is refused only when no agent is unhappy or no
   * vertex is empty: the pool's agents are occupied and never empty.
   */
  lemma StepRefusedOnlyWhenStuck(adj: Adjacency, tau: Tau, s: Sim, r1: nat, r2: nat)
    requires WellFormed(adj) && Inv(adj, s) && Exact(s.m, adj, View(s.w), tau)
    ensures Step(adj, tau, s, r1, r2).1 <==> |s.w.empties.items| > 0 && s.m.total > 0
  {
    if |s.w.empties.items| > 0 && s.m.total > 0 {
      var vf := From(s, r1);
      assert Contains(s.m.list, vf);
      assert s.m.unhappy[vf];
      assert ScanUnhappy(adj, View(s.w), vf, tau);
    }
  }

  /**
   * The step keeps every flag equal to a fresh scan of the new world: the
   * re-scanned vertices are exact by construction, and every other vertex is
   * neither endpoint nor a neighbour of one, so its scan did not change.
   */
  lemma StepKeepsExact(adj: Adjacency, tau: Tau, s: Sim, r1: nat, r2: nat)
    requires WellFormed(adj) && Inv(adj, s) && Exact(s.m, adj, View(s.w), tau)
    ensures Exact(Step(adj, tau, s, r1, r2).0.m, adj, View(Step(adj, tau, s, r1, r2).0.w), tau)
  {
    if Proceeds(adj, s, r1, r2) {
      var vf, vt := From(s, r1), To(adj, s, r2);
      var w0, w2 := View(s.w), View(Moved(adj, s, r1, r2));
      var m := Update(adj, tau, w2, s.m, vf, vt);
      assert Step(adj, tau, s, r1, r2).0 == Sim(Moved(adj, s, r1, r2), m);
      forall x | 0 <= x < |adj|
        ensures m.unhappy[x] == ScanUnhappy(adj, w2, x, tau)
      {
        if x != vt && !((x in adj[vf] || x in adj[vt]) && IsOcc(w2, x)) && x != vf {
          UntouchedScan(adj, tau, w0, w2, vf, vt, s.w.typ[vf], x);
        }
      }
    }
  }

  /** A vertex that is neither endpoint nor an occupied neighbour of one keeps its scan across the move. */
  lemma UntouchedScan(adj: Adjacency, tau: Tau, w0: World, w2: World, vf: nat, vt: nat, k: bool, x: nat)
    requires WellFormed(adj) && |w0| == |adj| && vf < |adj| && vt < |adj| && x < |adj|
    requires w2 == w0[vf := Empty][vt := Occupied(k)]
    requires x != vf && x != vt && !((x in adj[vf] || x in adj[vt]) && IsOcc(w2, x))
    ensures ScanUnhappy(adj, w2, x, tau) == ScanUnhappy(adj, w0, x, tau)
  {
    assert CellAt(w2, x) == CellAt(w0, x);
    if x !in adj[vf] && x !in adj[vt] {
      MoveLocality(adj, w0, w2, vf, vt, x);
    }
  }

  /** The graph of the counterexample: an edge 0-1 and an isolated vertex 2. */
  const Edge01: Adjacency := [[1], [0], []]

  const Half: Tau := Tau(1, 2)

  /** Vertex 0 holds type 0, vertex 1 type 1, vertex 2 is empty; both agents are flagged. */
  function Counterexample(): (s: Sim)
    ensures WellFormed(Edge01) && Inv(Edge01, s) && Exact(s.m, Edge01, View(s.w), Half)
    ensures s.m.unhappy[0] && s.m.unhappy[1]
  {
    var s := Sim(WorldPacked([true, true, false], [false, true, false],
                             Pool([2], [None, None, Some(0)]),
                             Pool([0, 1], [Some(0), Some(1), None])),
                 Metrics([true, true, false], 2, Pool([0, 1], [Some(0), Some(1), None])));
    Edge01WellFormed();
    CounterexampleWorld(s.w);
    CounterexampleTracks(s.m);
    CounterexampleScans(View(s.w));
    s
  }

  lemma Edge01WellFormed()
    ensures WellFormed(Edge01)
  {
    assert NoDup(Edge01[0]) && NoDup(Edge01[1]) && NoDup(Edge01[2]);
  }

  lemma CounterexampleWorld(w: WorldPacked)
    requires w == WorldPacked([true, true, false], [false, true, false],
                              Pool([2], [None, None, Some(0)]),
                              Pool([0, 1], [Some(0), Some(1), None]))
    ensures Partitioned(w) && View(w) == [Occupied(false), Occupied(true), Empty]
  {
  }

  lemma CounterexampleTracks(m: Metrics)
    requires m == Metrics([true, true, false], 2, Pool([0, 1], [Some(0), Some(1), None]))
    ensures Tracks(m, 3)
  {
    assert CountTrue(m.unhappy) == 2;
  }

  lemma CounterexampleScans(w0: World)
    requires w0 == [Occupied(false), Occupied(true), Empty]
    ensures ScanUnhappy(Edge01, w0, 0, Half) && ScanUnhappy(Edge01, w0, 1, Half)
    ensures !ScanUnhappy(Edge01, w0, 2, Half)
  {
    assert Occ(Edge01, w0, 0) == 1 && Same(Edge01, w0, 0, false) == 0;
    assert Occ(Edge01, w0, 1) == 1 && Same(Edge01, w0, 1, true) == 0;
    assert Need(Half, 1) == 1;
  }

  /**
   * The stale flag: moving agent 0 to vertex 2 leaves agent 1 without
   * neighbours, so its scan says not unhappy, but the step as written
   * re-scanned it before agent 0 left and keeps it flagged.
   */
  lemma AsWrittenLeavesStaleFlag()
    ensures StepAsWritten(Edge01, Half, Counterexample(), 0, 0).1
    ensures StepAsWritten(Edge01, Half, Counterexample(), 0, 0).0.m.unhappy[1]
    ensures !ScanUnhappy(Edge01, View(StepAsWritten(Edge01, Half, Counterexample(), 0, 0).0.w), 1, Half)
  {
    var s := Counterexample();
    var w0, w2 := View(s.w), View(Moved(Edge01, s, 0, 0));
    assert StepAsWritten(Edge01, Half, s, 0, 0) == (Sim(Moved(Edge01, s, 0, 0), UpdateAsWritten(Edge01, Half, w0, w2, s.m, 0, 2)), true)
      && w0 == [Occupied(false), Occupied(true), Empty] && w2 == [Empty, Occupied(true), Occupied(false)] by {
      CounterexampleMove();
    }
    StaleAt(w0, w2, s.m);
  }

  /** In the counterexample's worlds the as-written update keeps vertex 1 flagged although its new scan is clear. */
  lemma StaleAt(w0: World, w2: World, m: Metrics)
    requires w0 == [Occupied(false), Occupied(true), Empty] && w2 == [Empty, Occupied(true), Occupied(false)]
    requires Tracks(m, 3)
    ensures UpdateAsWritten(Edge01, Half, w0, w2, m, 0, 2).unhappy[1]
    ensures !ScanUnhappy(Edge01, w2, 1, Half)
  {
    Edge01WellFormed();
    assert Edge01[0] == [1] && Edge01[2] == [];
    CounterexampleScans(w0);
    assert Occ(Edge01, w2, 1) == 0;
  }

  /** In the new world the corrected update clears vertex 1. */
  lemma ClearsAt(w2: World, m: Metrics)
    requires w2 == [Empty, Occupied(true), Occupied(false)] && Tracks(m, 3)
    ensures !Update(Edge01, Half, w2, m, 0, 2).unhappy[1]
  {
    Edge01WellFormed();
    assert Edge01[0] == [1];
    assert Occ(Edge01, w2, 1) == 0;
  }

  /** The counterexample step moves agent 0 from vertex 0 to vertex 2. */
  lemma CounterexampleMove()
    ensures var s := Counterexample();
            && Proceeds(Edge01, s, 0, 0) && From(s, 0) == 0 && To(Edge01, s, 0) == 2
            && View(s.w) == [Occupied(false), Occupied(true), Empty]
            && View(Moved(Edge01, s, 0, 0)) == [Empty, Occupied(true), Occupied(false)]
  {
    var s := Counterexample();
    assert From(s, 0) == 0 && To(Edge01, s, 0) == 2 && View(s.w) == [Occupied(false), Occupied(true), Empty] by {
      CounterexampleDraws();
    }
    assert View(Moved(Edge01, s, 0, 0)) == View(s.w)[0 := Empty][2 := Occupied(s.w.typ[0])];
    MovedView(View(s.w), s.w.typ[0]);
  }

  lemma CounterexampleDraws()
    ensures var s := Counterexample();
            && From(s, 0) == 0 && To(Edge01, s, 0) == 2 && !s.w.typ[0]
            && View(s.w) == [Occupied(false), Occupied(true), Empty]
  {
    var s := Counterexample();
    assert From(s, 0) == 0 && To(Edge01, s, 0) == 2;
  }

  lemma MovedView(v: World, k: bool)
    requires v == [Occupied(false), Occupied(true), Empty] && !k
    ensures v[0 := Empty][2 := Occupied(k)] == [Empty, Occupied(true), Occupied(false)]
  {
  }

  /** The corrected step clears that flag, as its exactness guarantees. */
  lemma StepClearsIt()
    ensures Step(Edge01, Half, Counterexample(), 0, 0).1
    ensures !Step(Edge01, Half, Counterexample(), 0, 0).0.m.unhappy[1]
  {
    var s := Counterexample();
    var w2 := View(Moved(Edge01, s, 0, 0));
    assert Step(Edge01, Half, s, 0, 0) == (Sim(Moved(Edge01, s, 0, 0), Update(Edge01, Half, w2, s.m, 0, 2)), true)
      && w2 == [Empty, Occupied(true), Occupied(false)] by {
      CounterexampleMove();
    }
    ClearsAt(w2, s.m);
  }
}
