/**
 * The event-driven stepper (sim_fast.hpp): per-vertex neighbour counts by
 * type and in total, kept as 8-bit counters, plus swap-remove pools of the
 * vacancies and of the unhappy agents.  A move adjusts the counters around
 * the two endpoints and re-evaluates only the agents there.
 *
 * Agent types are the two kinds of a World (type 0 is `false`).  The
 * counters wrap modulo 2^8 as `uint8_t` does.
 */
module SimFast {
  import opened Basics
  import opened Topology
  import opened IndexedPool
  import opened FlatMetrics
  import Threshold

  const U8: nat := 0x100

  /** counts_[t][u] for the two types, and total_[u]. */
  datatype Counts = Counts(c0: seq<nat>, c1: seq<nat>, total: seq<nat>)

  ghost predicate Shape(c: Counts, n: nat) {
    && |c.c0| == n && |c.c1| == n && |c.total| == n
    && (forall u :: 0 <= u < n ==> c.c0[u] < U8 && c.c1[u] < U8 && c.total[u] < U8)
  }

  function Cnt(c: Counts, t: bool, u: nat): nat
    requires u < |c.c0| && u < |c.c1|
  {
    if t then c.c1[u] else c.c0[u]
  }

  /** The three counters at one vertex. */
  function At(c: Counts, u: nat): (nat, nat, nat)
    requires u < |c.c0| && u < |c.c1| && u < |c.total|
  {
    (c.c0[u], c.c1[u], c.total[u])
  }

  /** One 8-bit counter moved up or down by one, wrapping. */
  function Step8(x: nat, up: bool): (r: nat)
    requires x < U8
    ensures r < U8
    ensures forall a: int :: x == a % U8 ==> r == (if up then a + 1 else a - 1) % U8
  {
    assert forall a: int :: x == a % U8 ==> a == (a / U8) * U8 + x;
    if up then (x + 1) % U8 else (x + U8 - 1) % U8
  }

  /** The three counters at one vertex after a type-t agent arrives next to it or leaves. */
  function StepAt(a: (nat, nat, nat), t: bool, up: bool): (nat, nat, nat)
    requires a.0 < U8 && a.1 < U8 && a.2 < U8
  {
    (if t then a.0 else Step8(a.0, up), if t then Step8(a.1, up) else a.1, Step8(a.2, up))
  }

  /** `++counts_[idx(t,u)]; ++total_[u]` or the matching decrements. */
  function Shift(c: Counts, n: nat, t: bool, u: nat, up: bool): (r: Counts)
    requires Shape(c, n) && u < n
    ensures Shape(r, n)
    ensures forall x :: 0 <= x < n && x != u ==> At(r, x) == At(c, x)
    ensures At(r, u) == StepAt(At(c, u), t, up)
  {
    var total := c.total[u := Step8(c.total[u], up)];
    if t then Counts(c.c0, c.c1[u := Step8(c.c1[u], up)], total)
    else Counts(c.c0[u := Step8(c.c0[u], up)], c.c1, total)
  }

  /** The counters hold the true neighbour counts of w, modulo 2^8. */
  ghost predicate CountsOf(c: Counts, adj: Adjacency, w: World) {
    && Shape(c, |adj|)
    && forall u :: 0 <= u < |adj| ==>
         && c.c0[u] == Same(adj, w, u, false) % U8
         && c.c1[u] == Same(adj, w, u, true) % U8
         && c.total[u] == Occ(adj, w, u) % U8
  }

  /** `update_unhappy`'s test: same = counts_[t][v], other = total_[v] - same in 32 bits. */
  function FastSatisfied(c: Counts, u: nat, t: bool, th: Threshold.Ratio): bool
    requires u < |c.c0| && u < |c.c1| && u < |c.total|
    requires Cnt(c, t, u) < Threshold.U32
  {
    var same := Cnt(c, t, u);
    var other := (c.total[u] - same) % Threshold.U32;
    Threshold.Satisfied(th, same, other)
  }

  predicate FastUnhappy(c: Counts, n: nat, w: World, u: nat, th: Threshold.Ratio)
    requires Shape(c, n) && u < n
  {
    IsOcc(w, u) && !FastSatisfied(c, u, CellAt(w, u).kind, th)
  }

  /**
   * With exact counters and fewer than 2^8 neighbours, the counter-based
   * verdict is the scan-based one of metrics.hpp.
   */
  lemma FastAgreesWithScan(c: Counts, adj: Adjacency, w: World, u: nat, th: Threshold.Ratio)
    requires CountsOf(c, adj, w) && u < |adj| && |adj[u]| < U8
    ensures FastUnhappy(c, |adj|, w, u, th) <==> Unhappy(adj, w, u, th)
  {
    if IsOcc(w, u) {
      var t := CellAt(w, u).kind;
      KindCountsSplit(w, adj[u]);
      OtherIsOccMinusSame(adj, w, u, t);
      assert Cnt(c, t, u) == Same(adj, w, u, t);
      assert c.total[u] == Occ(adj, w, u);
    }
  }

  /** The counters at every listed vertex moved by one for a type-t agent, in list order. */
  function Bump(c: Counts, n: nat, t: bool, nbrs: seq<nat>, up: bool): (r: Counts)
    requires Shape(c, n)
    requires forall i :: 0 <= i < |nbrs| ==> nbrs[i] < n
    ensures Shape(r, n)
    decreases |nbrs|
  {
    if |nbrs| == 0 then c else Bump(Shift(c, n, t, nbrs[0], up), n, t, nbrs[1..], up)
  }

  /** Over distinct vertices, each listed vertex's counters move exactly once and no others move. */
  lemma {:induction false} BumpAt(c: Counts, n: nat, t: bool, nbrs: seq<nat>, up: bool)
    requires Shape(c, n)
    requires forall i :: 0 <= i < |nbrs| ==> nbrs[i] < n
    requires NoDup(nbrs)
    ensures forall x :: 0 <= x < n ==>
              At(Bump(c, n, t, nbrs, up), x) == if x in nbrs then StepAt(At(c, x), t, up) else At(c, x)
    decreases |nbrs|
  {
    if |nbrs| > 0 {
      var u := nbrs[0];
      assert forall i :: 0 <= i < |nbrs[1..]| ==> nbrs[1..][i] != u;
      BumpAt(Shift(c, n, t, u, up), n, t, nbrs[1..], up);
      assert forall x :: x in nbrs <==> x == u || x in nbrs[1..];
    }
  }

  /**
   * The loops over a vertex's neighbours in a move: for each u in turn, the
   * type-t counters at u move by one, and u is re-evaluated with its new
   * counters when it is occupied in w.
   */
  function Sweep(c: Counts, n: nat, w: World, un: Pool, t: bool, nbrs: seq<nat>, up: bool,
                 th: Threshold.Ratio): (r: (Counts, Pool))
    requires Shape(c, n) && Valid(un, n)
    requires forall i :: 0 <= i < |nbrs| ==> nbrs[i] < n
    ensures r.0 == Bump(c, n, t, nbrs, up) && Valid(r.1, n)
    ensures forall x: nat :: x < n && !(x in nbrs && IsOcc(w, x)) ==> (Contains(r.1, x) <==> Contains(un, x))
    decreases |nbrs|
  {
    if |nbrs| == 0 then (c, un)
    else
      var u := nbrs[0];
      var c1 := Shift(c, n, t, u, up);
      var un1 := if IsOcc(w, u) then Update(c1, n, w, un, u, th) else un;
      Sweep(c1, n, w, un1, t, nbrs[1..], up, th)
  }

  /**
   * After the sweep, each listed occupied vertex is in the unhappy pool
   * exactly when its final counters say so; every other vertex keeps its
   * membership.
   */
  lemma {:induction false} SweepFlags(c: Counts, n: nat, w: World, un: Pool, t: bool, nbrs: seq<nat>,
                                      up: bool, th: Threshold.Ratio)
    requires Shape(c, n) && Valid(un, n)
    requires forall i :: 0 <= i < |nbrs| ==> nbrs[i] < n
    requires NoDup(nbrs)
    ensures var r := Sweep(c, n, w, un, t, nbrs, up, th);
            forall x: nat :: x < n ==>
              (Contains(r.1, x) <==> if x in nbrs && IsOcc(w, x) then FastUnhappy(r.0, n, w, x, th)
                                      else Contains(un, x))
    decreases |nbrs|
  {
    if |nbrs| > 0 {
      var u := nbrs[0];
      var c1 := Shift(c, n, t, u, up);
      var un1 := if IsOcc(w, u) then Update(c1, n, w, un, u, th) else un;
      assert forall i :: 0 <= i < |nbrs[1..]| ==> nbrs[1..][i] != u;
      SweepFlags(c1, n, w, un1, t, nbrs[1..], up, th);
      BumpAt(c1, n, t, nbrs[1..], up);
      var r := Sweep(c, n, w, un, t, nbrs, up, th);
      assert r == Sweep(c1, n, w, un1, t, nbrs[1..], up, th);
      FastLocal(r.0, c1, n, w, w, u, th);
      assert forall x :: x in nbrs <==> x == u || x in nbrs[1..];
    }
  }

  /** The verdict at u reads only the counters and the cell at u. */
  lemma FastLocal(c: Counts, c': Counts, n: nat, w: World, w': World, u: nat, th: Threshold.Ratio)
    requires Shape(c, n) && Shape(c', n) && u < n
    requires At(c, u) == At(c', u) && CellAt(w, u) == CellAt(w', u)
    ensures FastUnhappy(c, n, w, u, th) == FastUnhappy(c', n, w', u, th)
  {
  }

  /** `update_unhappy` on the counters. */
  function Update(c: Counts, n: nat, w: World, un: Pool, v: nat, th: Threshold.Ratio): (r: Pool)
    requires Shape(c, n) && Valid(un, n) && v < n
    ensures Valid(r, n)
    ensures Contains(r, v) <==> FastUnhappy(c, n, w, v, th)
    ensures forall x: nat :: x < n && x != v ==> (Contains(r, x) <==> Contains(un, x))
  {
    if !IsOcc(w, v) then Remove(un, n, v)
    else if FastSatisfied(c, v, CellAt(w, v).kind, th) then Remove(un, n, v)
    else Add(un, n, v)
  }

  /** `list_remove_at`: the last element fills slot idx and the list shrinks by one. */
  function ListRemoveAt<T>(a: seq<T>, idx: nat): (r: seq<T>)
    requires idx < |a|
    ensures |r| == |a| - 1
    ensures multiset(r) == multiset(a) - multiset{a[idx]}
    ensures forall i :: 0 <= i < |r| && i != idx ==> r[i] == a[i]
    ensures idx < |r| ==> r[idx] == a[|a| - 1]
  {
    var last := |a| - 1;
    SwapPop(a, idx);
    a[idx := a[last]][last := a[idx]][..last]
  }

  lemma SwapPop<T>(a: seq<T>, idx: nat)
    requires idx < |a|
    ensures var last := |a| - 1;
            multiset(a[idx := a[last]][last := a[idx]][..last]) == multiset(a) - multiset{a[idx]}
  {
    var last := |a| - 1;
    var b := a[idx := a[last]][last := a[idx]];
    assert a == a[..last] + [a[last]];
    if idx != last {
      assert b[..last] == a[..last][idx := a[last]];
      assert b == b[..last] + [a[idx]];
      assert multiset(b) == multiset(a);
    }
  }

  /** Vertices below m that hold a type-k agent and occur in the list. */
  ghost function Listed(w: World, nbrs: seq<nat>, k: bool, m: nat): nat {
    if m == 0 then 0 else Listed(w, nbrs, k, m - 1) + Ind(HasKind(w, m - 1, k) && m - 1 in nbrs)
  }

  lemma {:induction false} ListedCons(w: World, nbrs: seq<nat>, k: bool, m: nat)
    requires |nbrs| > 0 && nbrs[0] !in nbrs[1..]
    ensures Listed(w, nbrs, k, m) == Listed(w, nbrs[1..], k, m) + Ind(HasKind(w, nbrs[0], k) && nbrs[0] < m)
  {
    if m > 0 {
      ListedCons(w, nbrs, k, m - 1);
      assert m - 1 in nbrs <==> m - 1 == nbrs[0] || m - 1 in nbrs[1..];
    }
  }

  /** Counting the listed vertices by vertex number gives the count along the list. */
  lemma {:induction false} ListedIsKindCount(w: World, nbrs: seq<nat>, k: bool, m: nat)
    requires NoDup(nbrs) && forall i :: 0 <= i < |nbrs| ==> nbrs[i] < m
    ensures Listed(w, nbrs, k, m) == KindCount(w, nbrs, k)
    decreases |nbrs|
  {
    if |nbrs| > 0 {
      assert nbrs[0] !in nbrs[1..];
      ListedCons(w, nbrs, k, m);
      ListedIsKindCount(w, nbrs[1..], k, m);
      assert KindCount(w, nbrs, k) == Ind(HasKind(w, nbrs[0], k)) + KindCount(w, nbrs[1..], k);
    } else {
      ListedNothing(w, nbrs, k, m);
    }
  }

  lemma {:induction false} ListedNothing(w: World, nbrs: seq<nat>, k: bool, m: nat)
    requires |nbrs| == 0
    ensures Listed(w, nbrs, k, m) == 0
  {
    if m > 0 {
      ListedNothing(w, nbrs, k, m - 1);
    }
  }

  /** The counters after the scatter over the agents below m: counts of those agents, modulo 2^8. */
  ghost function Tally(adj: Adjacency, w: World, x: nat, m: nat): (nat, nat, nat)
    requires x < |adj|
  {
    var a, b := Listed(w, adj[x], false, m), Listed(w, adj[x], true, m);
    (a % U8, b % U8, (a + b) % U8)
  }

  ghost predicate Scattered(c: Counts, adj: Adjacency, w: World, m: nat) {
    && Shape(c, |adj|)
    && forall x :: 0 <= x < |adj| ==> At(c, x) == Tally(adj, w, x, m)
  }

  /** One agent of the scatter: the agent at v, if any, bumps every neighbour's counters. */
  function ScatterOne(c: Counts, adj: Adjacency, w: World, v: nat): (r: Counts)
    requires WellFormed(adj) && Shape(c, |adj|) && v < |adj|
    ensures Shape(r, |adj|)
  {
    if IsOcc(w, v) then Bump(c, |adj|, CellAt(w, v).kind, adj[v], true) else c
  }

  lemma ScatterStep(c: Counts, adj: Adjacency, w: World, v: nat)
    requires WellFormed(adj) && v < |adj| && Scattered(c, adj, w, v)
    ensures Scattered(ScatterOne(c, adj, w, v), adj, w, v + 1)
  {
    var r := ScatterOne(c, adj, w, v);
    if IsOcc(w, v) {
      BumpAt(c, |adj|, CellAt(w, v).kind, adj[v], true);
    }
    forall x | 0 <= x < |adj| ensures At(r, x) == Tally(adj, w, x, v + 1) {
      TallyStep(adj, w, x, v);
    }
  }

  /** Taking vertex v into the tally moves x's counters exactly when v holds an agent next to x. */
  lemma TallyStep(adj: Adjacency, w: World, x: nat, v: nat)
    requires WellFormed(adj) && x < |adj| && v < |adj|
    ensures var a := Tally(adj, w, x, v);
            Tally(adj, w, x, v + 1) == if IsOcc(w, v) && x in adj[v] then StepAt(a, CellAt(w, v).kind, true) else a
  {
    assert v in adj[x] <==> x in adj[v];
  }

  /** Once every vertex is scattered, the counters are the neighbour counts. */
  lemma ScatteredCounts(c: Counts, adj: Adjacency, w: World)
    requires WellFormed(adj) && Scattered(c, adj, w, |adj|)
    ensures CountsOf(c, adj, w)
  {
    forall x | 0 <= x < |adj|
      ensures c.c0[x] == Same(adj, w, x, false) % U8 && c.c1[x] == Same(adj, w, x, true) % U8
      ensures c.total[x] == Occ(adj, w, x) % U8
    {
      assert At(c, x) == Tally(adj, w, x, |adj|);
      ListedIsKindCount(w, adj[x], false, |adj|);
      ListedIsKindCount(w, adj[x], true, |adj|);
      KindCountsSplit(w, adj[x]);
    }
  }

  /** The stepper's state: the world, the counters and the two pools. */
  datatype Fast = Fast(w: World, c: Counts, vac: Pool, un: Pool)

  /** Pools well-formed; the vacancies are the empty vertices; only agents are listed unhappy. */
  ghost predicate Inv(adj: Adjacency, f: Fast) {
    && |f.w| == |adj| && Shape(f.c, |adj|)
    && Valid(f.vac, |adj|) && Valid(f.un, |adj|)
    && (forall x: nat :: x < |adj| ==> (Contains(f.vac, x) <==> !IsOcc(f.w, x)))
    && (forall x: nat :: x < |adj| && Contains(f.un, x) ==> IsOcc(f.w, x))
  }

  /** The counters are the neighbour counts and the unhappy pool is their verdict. */
  ghost predicate Exact(adj: Adjacency, f: Fast, th: Threshold.Ratio) {
    && CountsOf(f.c, adj, f.w)
    && forall x: nat :: x < |adj| ==> (Contains(f.un, x) <==> FastUnhappy(f.c, |adj|, f.w, x, th))
  }

  /**
   * `initialize` on a freshly built stepper: the vacancies in vertex order,
   * the counters scattered from every agent to its neighbours, then every
   * agent not satisfied by its counters listed unhappy.
   */
  method Initialize(adj: Adjacency, w: World, th: Threshold.Ratio) returns (f: Fast)
    requires WellFormed(adj) && |w| == |adj|
    ensures f.w == w && Inv(adj, f) && Exact(adj, f, th)
    ensures forall i, j :: 0 <= i < j < |f.vac.items| ==> f.vac.items[i] < f.vac.items[j]
  {
    var vac := Vacancies(|adj|, w);
    var c := ScatterAll(adj, w);
    var un := UnhappyPool(adj, w, c, th);
    f := Fast(w, c, vac, un);
  }

  /** The first pass of `initialize`: every empty vertex pushed, in vertex order. */
  method Vacancies(n: nat, w: World) returns (vac: Pool)
    requires |w| == n
    ensures Valid(vac, n)
    ensures forall x: nat :: x < n ==> (Contains(vac, x) <==> !IsOcc(w, x))
    ensures forall i, j :: 0 <= i < j < |vac.items| ==> vac.items[i] < vac.items[j]
  {
    vac := IndexedPool.Empty(n);
    var v := 0;
    while v < n
      invariant v <= n && Valid(vac, n)
      invariant forall x: nat :: x < n ==> (Contains(vac, x) <==> x < v && !IsOcc(w, x))
      invariant forall i :: 0 <= i < |vac.items| ==> vac.items[i] < v
      invariant forall i, j :: 0 <= i < j < |vac.items| ==> vac.items[i] < vac.items[j]
    {
      if !IsOcc(w, v) {
        vac := Push(vac, n, v);
      }
      v := v + 1;
    }
  }

  /** The second pass: every agent bumps its kind's counters at each neighbour. */
  method ScatterAll(adj: Adjacency, w: World) returns (c: Counts)
    requires WellFormed(adj) && |w| == |adj|
    ensures Shape(c, |adj|) && CountsOf(c, adj, w)
  {
    var n := |adj|;
    c := Counts(seq(n, _ => 0), seq(n, _ => 0), seq(n, _ => 0));
    var v := 0;
    while v < n
      invariant v <= n && Scattered(c, adj, w, v)
    {
      ScatterStep(c, adj, w, v);
      c := ScatterOne(c, adj, w, v);
      v := v + 1;
    }
    ScatteredCounts(c, adj, w);
  }

  /** The third pass: every agent its counters do not satisfy is added to the unhappy pool. */
  method UnhappyPool(adj: Adjacency, w: World, c: Counts, th: Threshold.Ratio) returns (un: Pool)
    requires |w| == |adj| && Shape(c, |adj|)
    ensures Valid(un, |adj|)
    ensures forall x: nat :: x < |adj| ==> (Contains(un, x) <==> FastUnhappy(c, |adj|, w, x, th))
  {
    var n := |adj|;
    un := IndexedPool.Empty(n);
    var v := 0;
    while v < n
      invariant v <= n && Valid(un, n)
      invariant forall x: nat :: x < n ==> (Contains(un, x) <==> x < v && FastUnhappy(c, n, w, x, th))
    {
      if IsOcc(w, v) && !FastSatisfied(c, v, CellAt(w, v).kind, th) {
        un := Add(un, n, v);
      }
      v := v + 1;
    }
  }

  /** `FastOptions`: how many vacancies to sample per move, and whether to fall back to the best one. */
  datatype Options = Options(kCandidates: Threshold.u32, fallbackBest: bool)

  const DefaultOptions: Options := Options(32, true)

  /** A type-t agent at vacancy x would be satisfied by x's counters. */
  predicate Fits(c: Counts, n: nat, t: bool, x: nat, th: Threshold.Ratio)
    requires Shape(c, n) && x < n
  {
    FastSatisfied(c, x, t, th)
  }

  /** The K sampled vacancies: draw k selects the vacancy at index draw(k) mod size. */
  function Candidates(vac: Pool, n: nat, draw: nat -> nat, k: nat): (r: seq<nat>)
    requires Valid(vac, n) && |vac.items| > 0
    ensures |r| == k && forall i :: 0 <= i < k ==> r[i] < n && Contains(vac, r[i])
  {
    var r := seq(k, i requires 0 <= i < k => Pick(vac, n, draw(i)));
    assert forall i :: 0 <= i < k ==> r[i] == Pick(vac, n, draw(i));
    r
  }

  /**
   * The candidate loop: the first candidate whose counters satisfy a type-t
   * agent wins; meanwhile, with the fallback on, a candidate with strictly
   * more same-type neighbours than the best so far becomes the best.  When
   * none satisfies, the best is used if there is one.
   */
  function Choose(c: Counts, n: nat, t: bool, th: Threshold.Ratio, fallback: bool, cands: seq<nat>,
                  bestSame: nat, best: Option<nat>): (r: Option<nat>)
    requires Shape(c, n) && forall i :: 0 <= i < |cands| ==> cands[i] < n
    requires best.Some? ==> best.value < n
    ensures r.Some? ==> r.value in cands || r == best
    decreases |cands|
  {
    if |cands| == 0 then
      if fallback && best.Some? then best else None
    else
      var cand := cands[0];
      var same := Cnt(c, t, cand);
      var better := fallback && same > bestSame;
      if Fits(c, n, t, cand, th) then Some(cand)
      else Choose(c, n, t, th, fallback, cands[1..],
                  if better then same else bestSame, if better then Some(cand) else best)
  }

  /** The first satisfying candidate is taken. */
  lemma {:induction false} ChooseFirstFit(c: Counts, n: nat, t: bool, th: Threshold.Ratio, fallback: bool,
                                          cands: seq<nat>, bestSame: nat, best: Option<nat>, i: nat)
    requires Shape(c, n) && forall j :: 0 <= j < |cands| ==> cands[j] < n
    requires best.Some? ==> best.value < n
    requires i < |cands| && Fits(c, n, t, cands[i], th)
    requires forall j :: 0 <= j < i ==> !Fits(c, n, t, cands[j], th)
    ensures Choose(c, n, t, th, fallback, cands, bestSame, best) == Some(cands[i])
    decreases |cands|
  {
    if i > 0 {
      var same := Cnt(c, t, cands[0]);
      var better := fallback && same > bestSame;
      ChooseFirstFit(c, n, t, th, fallback, cands[1..], if better then same else bestSame,
                     if better then Some(cands[0]) else best, i - 1);
    }
  }

  /**
   * No destination exactly when no candidate satisfies and either the
   * fallback is off or no candidate (nor an earlier best) has a same-type
   * neighbour: the best starts at zero and only a strictly larger count
   * replaces it.
   */
  lemma {:induction false} ChooseNone(c: Counts, n: nat, t: bool, th: Threshold.Ratio, fallback: bool,
                                      cands: seq<nat>, bestSame: nat, best: Option<nat>)
    requires Shape(c, n) && forall j :: 0 <= j < |cands| ==> cands[j] < n
    requires best.Some? ==> best.value < n
    requires best.None? <==> bestSame == 0
    ensures Choose(c, n, t, th, fallback, cands, bestSame, best).None?
        <==> (forall i :: 0 <= i < |cands| ==> !Fits(c, n, t, cands[i], th))
             && (!fallback || (best.None? && forall i :: 0 <= i < |cands| ==> Cnt(c, t, cands[i]) == 0))
    decreases |cands|
  {
    if |cands| > 0 {
      var same := Cnt(c, t, cands[0]);
      var better := fallback && same > bestSame;
      ChooseNone(c, n, t, th, fallback, cands[1..], if better then same else bestSame,
                 if better then Some(cands[0]) else best);
      assert forall i :: 1 <= i < |cands| ==> cands[i] == cands[1..][i - 1];
    }
  }

  /** Falling back, the chosen vacancy has the most same-type neighbours among the candidates. */
  lemma {:induction false} ChooseBest(c: Counts, n: nat, t: bool, th: Threshold.Ratio,
                                      cands: seq<nat>, bestSame: nat, best: Option<nat>)
    requires Shape(c, n) && forall j :: 0 <= j < |cands| ==> cands[j] < n
    requires best.Some? ==> best.value < n && Cnt(c, t, best.value) == bestSame
    requires forall i :: 0 <= i < |cands| ==> !Fits(c, n, t, cands[i], th)
    ensures var r := Choose(c, n, t, th, true, cands, bestSame, best);
            r.Some? ==> Cnt(c, t, r.value) >= bestSame
                        && forall i :: 0 <= i < |cands| ==> Cnt(c, t, cands[i]) <= Cnt(c, t, r.value)
    decreases |cands|
  {
    if |cands| > 0 {
      var same := Cnt(c, t, cands[0]);
      var better := same > bestSame;
      ChooseBest(c, n, t, th, cands[1..], if better then same else bestSame,
                 if better then Some(cands[0]) else best);
      assert forall i :: 1 <= i < |cands| ==> cands[i] == cands[1..][i - 1];
    }
  }

  /**
   * The first half of a move: src leaves the unhappy pool, and each
   * neighbour's counters drop by one type-t agent, the occupied ones being
   * re-evaluated, all while src is still occupied in the world.
   */
  function Leave(adj: Adjacency, th: Threshold.Ratio, f: Fast, src: nat): (r: (Counts, Pool))
    requires WellFormed(adj) && Inv(adj, f) && src < |adj| && IsOcc(f.w, src)
    ensures r.0 == Bump(f.c, |adj|, CellAt(f.w, src).kind, adj[src], false) && Valid(r.1, |adj|)
    ensures forall x: nat :: x < |adj| && Contains(r.1, x) ==> IsOcc(f.w, x) && x != src
  {
    var n := |adj|;
    var r := Sweep(f.c, n, f.w, Remove(f.un, n, src), CellAt(f.w, src).kind, adj[src], false, th);
    SweepFlags(f.c, n, f.w, Remove(f.un, n, src), CellAt(f.w, src).kind, adj[src], false, th);
    r
  }

  /** The world after the agent at src moves to dst, keeping its type. */
  function Moved(w: World, src: nat, dst: nat): (r: World)
    requires src < |w| && dst < |w|
    ensures |r| == |w|
  {
    w[src := Empty][dst := w[src]]
  }

  /**
   * A move of the agent at src to the vacancy dst (lines 185-210): leave,
   * move in the world, trade src for dst in the vacancies, then each of
   * dst's neighbours gains a type-t agent and is re-evaluated if occupied in
   * the new world, and finally the mover is re-evaluated at dst.
   */
  function Move(adj: Adjacency, th: Threshold.Ratio, f: Fast, src: nat, dst: nat): (r: Fast)
    requires WellFormed(adj) && Inv(adj, f) && src < |adj| && dst < |adj|
    requires IsOcc(f.w, src) && !IsOcc(f.w, dst)
    ensures Inv(adj, r)
    ensures r.w == Moved(f.w, src, dst)
    ensures !Contains(r.un, src) && Contains(r.vac, src) && !Contains(r.vac, dst)
    ensures r.c == Bump(Leave(adj, th, f, src).0, |adj|, CellAt(f.w, src).kind, adj[dst], true)
  {
    var n := |adj|;
    var t := CellAt(f.w, src).kind;
    var l := Leave(adj, th, f, src);
    var w' := Moved(f.w, src, dst);
    var vac := Remove(Add(f.vac, n, src), n, dst);
    var a := Sweep(l.0, n, w', l.1, t, adj[dst], true, th);
    var un := Update(a.0, n, w', a.1, dst, th);
    ArriveListsAgents(adj, th, f, src, dst);
    MoveVacancies(n, f.vac, f.w, src, dst);
    Fast(w', a.0, vac, un)
  }

  /** Trading src for dst in the vacancy pool keeps it the set of empty vertices of the moved world. */
  lemma MoveVacancies(n: nat, vac0: Pool, w: World, src: nat, dst: nat)
    requires Valid(vac0, n) && |w| == n && src < n && dst < n && IsOcc(w, src) && !IsOcc(w, dst)
    requires forall x: nat :: x < n ==> (Contains(vac0, x) <==> !IsOcc(w, x))
    ensures var vac := Remove(Add(vac0, n, src), n, dst);
            && Valid(vac, n) && Contains(vac, src) && !Contains(vac, dst)
            && forall x: nat :: x < n ==> (Contains(vac, x) <==> !IsOcc(Moved(w, src, dst), x))
  {
    var vac := Remove(Add(vac0, n, src), n, dst);
    forall x: nat | x < n ensures Contains(vac, x) <==> !IsOcc(Moved(w, src, dst), x) {
      if x != src && x != dst {
        assert Moved(w, src, dst)[x] == w[x];
      }
    }
  }

  /** After the arrival sweep and the mover's update, only agents of the new world are listed unhappy. */
  lemma ArriveListsAgents(adj: Adjacency, th: Threshold.Ratio, f: Fast, src: nat, dst: nat)
    requires WellFormed(adj) && Inv(adj, f) && src < |adj| && dst < |adj|
    requires IsOcc(f.w, src) && !IsOcc(f.w, dst)
    ensures var n, w' := |adj|, Moved(f.w, src, dst);
            var l := Leave(adj, th, f, src);
            var a := Sweep(l.0, n, w', l.1, CellAt(f.w, src).kind, adj[dst], true, th);
            forall x: nat :: x < n && Contains(Update(a.0, n, w', a.1, dst, th), x) ==> IsOcc(w', x) && x != src
  {
  }

  /** The change a move makes to one count: -1, 0 or +1. */
  function Delta(moves: bool, up: bool): int { if !moves then 0 else if up then 1 else -1 }

  /** Moving the counters of true counts a0, a1, tot by one agent of type t keeps them the true counts mod 2^8. */
  lemma StepTracks(a0: int, a1: int, tot: int, t: bool, up: bool)
    ensures StepAt((a0 % U8, a1 % U8, tot % U8), t, up)
         == ((a0 + Delta(!t, up)) % U8, (a1 + Delta(t, up)) % U8, (tot + Delta(true, up)) % U8)
  {
  }

  /** The counters a vertex should hold in world w: its true counts modulo 2^8. */
  ghost function TrueAt(adj: Adjacency, w: World, x: nat): (nat, nat, nat)
    requires x < |adj|
  {
    (Same(adj, w, x, false) % U8, Same(adj, w, x, true) % U8, Occ(adj, w, x) % U8)
  }

  /**
   * Writing cell c over the cell at s, whose neighbours' counters are then
   * bumped for a type-t agent in direction up (down when an agent of type t
   * leaves an occupied s, up when one arrives at an empty s), keeps the
   * counters at x true.
   */
  lemma BumpTracks(adj: Adjacency, c: Counts, w: World, s: nat, cell: Cell, t: bool, up: bool, x: nat)
    requires WellFormed(adj) && |w| == |adj| && Shape(c, |adj|) && s < |adj| && x < |adj|
    requires At(c, x) == TrueAt(adj, w, x)
    requires up ==> !IsOcc(w, s) && cell == Occupied(t)
    requires !up ==> CellAt(w, s) == Occupied(t) && cell == Empty
    ensures At(Bump(c, |adj|, t, adj[s], up), x) == TrueAt(adj, w[s := cell], x)
  {
    BumpAt(c, |adj|, t, adj[s], up);
    if x in adj[s] {
      BumpTracksNear(adj, c, w, s, cell, t, up, x);
    } else {
      AgreeAway(w, s, cell, adj[x]);
      CountsLocal(w, w[s := cell], adj[x]);
      assert At(Bump(c, |adj|, t, adj[s], up), x) == At(c, x);
    }
  }

  lemma BumpTracksNear(adj: Adjacency, c: Counts, w: World, s: nat, cell: Cell, t: bool, up: bool, x: nat)
    requires WellFormed(adj) && |w| == |adj| && Shape(c, |adj|) && s < |adj| && x < |adj|
    requires At(c, x) == TrueAt(adj, w, x) && x in adj[s]
    requires At(Bump(c, |adj|, t, adj[s], up), x) == StepAt(At(c, x), t, up)
    requires up ==> !IsOcc(w, s) && cell == Occupied(t)
    requires !up ==> CellAt(w, s) == Occupied(t) && cell == Empty
    ensures At(Bump(c, |adj|, t, adj[s], up), x) == TrueAt(adj, w[s := cell], x)
  {
    var s0, s1, o := Same(adj, w, x, false), Same(adj, w, x, true), Occ(adj, w, x);
    OnePointShift(adj, w, s, cell, t, up, x);
    StepTracks(s0, s1, o, t, up);
  }

  /** The true counts at a neighbour x of s after cell is written at s. */
  lemma OnePointShift(adj: Adjacency, w: World, s: nat, cell: Cell, t: bool, up: bool, x: nat)
    requires WellFormed(adj) && |w| == |adj| && s < |adj| && x < |adj| && x in adj[s]
    requires up ==> !IsOcc(w, s) && cell == Occupied(t)
    requires !up ==> CellAt(w, s) == Occupied(t) && cell == Empty
    ensures Occ(adj, w[s := cell], x) == Occ(adj, w, x) + Delta(true, up)
    ensures Same(adj, w[s := cell], x, false) == Same(adj, w, x, false) + Delta(!t, up)
    ensures Same(adj, w[s := cell], x, true) == Same(adj, w, x, true) + Delta(t, up)
  {
    assert s in adj[x];
    CountsAtOnePoint(w, s, cell, adj[x]);
  }

  /** After a move the counters at x are the true counts of the new world, modulo 2^8. */
  lemma MoveCountsAt(adj: Adjacency, th: Threshold.Ratio, f: Fast, src: nat, dst: nat, x: nat)
    requires WellFormed(adj) && Inv(adj, f) && CountsOf(f.c, adj, f.w)
    requires src < |adj| && dst < |adj| && x < |adj| && IsOcc(f.w, src) && !IsOcc(f.w, dst)
    ensures var r := Move(adj, th, f, src, dst); At(r.c, x) == TrueAt(adj, r.w, x)
  {
    var n, t := |adj|, CellAt(f.w, src).kind;
    var c1 := Leave(adj, th, f, src).0;
    var w1 := f.w[src := Empty];
    assert At(f.c, x) == TrueAt(adj, f.w, x);
    BumpTracks(adj, f.c, f.w, src, Empty, t, false, x);
    assert Moved(f.w, src, dst) == w1[dst := Occupied(t)];
    BumpTracks(adj, c1, w1, dst, Occupied(t), t, true, x);
  }

  /** A move keeps the counters equal to the neighbour counts of the world. */
  lemma MoveKeepsCounts(adj: Adjacency, th: Threshold.Ratio, f: Fast, src: nat, dst: nat)
    requires WellFormed(adj) && Inv(adj, f) && CountsOf(f.c, adj, f.w)
    requires src < |adj| && dst < |adj| && IsOcc(f.w, src) && !IsOcc(f.w, dst)
    ensures var r := Move(adj, th, f, src, dst); CountsOf(r.c, adj, r.w)
  {
    var r := Move(adj, th, f, src, dst);
    forall x | 0 <= x < |adj|
      ensures && r.c.c0[x] == Same(adj, r.w, x, false) % U8
              && r.c.c1[x] == Same(adj, r.w, x, true) % U8
              && r.c.total[x] == Occ(adj, r.w, x) % U8
    {
      MoveCountsAt(adj, th, f, src, dst, x);
      assert At(r.c, x) == TrueAt(adj, r.w, x);
    }
  }

  /** After a move the unhappy pool holds x exactly when x's new counters say so. */
  lemma MoveFlagAt(adj: Adjacency, th: Threshold.Ratio, f: Fast, src: nat, dst: nat, x: nat)
    requires WellFormed(adj) && Inv(adj, f) && Exact(adj, f, th)
    requires src < |adj| && dst < |adj| && x < |adj| && IsOcc(f.w, src) && !IsOcc(f.w, dst)
    ensures var r := Move(adj, th, f, src, dst); Contains(r.un, x) <==> FastUnhappy(r.c, |adj|, r.w, x, th)
  {
    var n, t := |adj|, CellAt(f.w, src).kind;
    var l := Leave(adj, th, f, src);
    var w' := Moved(f.w, src, dst);
    var a := Sweep(l.0, n, w', l.1, t, adj[dst], true, th);
    var r := Move(adj, th, f, src, dst);
    assert r.un == Update(a.0, n, w', a.1, dst, th) && r.c == a.0 && r.w == w';
    if x != dst {
      if x in adj[dst] && IsOcc(w', x) {
        SweepFlags(l.0, n, w', l.1, t, adj[dst], true, th);
      } else {
        FlagAway(adj, th, f, src, dst, x, l, a);
      }
    }
  }

  /** A vertex the arrival does not re-evaluate keeps a correct flag. */
  lemma FlagAway(adj: Adjacency, th: Threshold.Ratio, f: Fast, src: nat, dst: nat, x: nat,
                 l: (Counts, Pool), a: (Counts, Pool))
    requires WellFormed(adj) && Inv(adj, f) && Exact(adj, f, th)
    requires src < |adj| && dst < |adj| && x < |adj| && IsOcc(f.w, src) && !IsOcc(f.w, dst)
    requires l == Leave(adj, th, f, src)
    requires a == Sweep(l.0, |adj|, Moved(f.w, src, dst), l.1, CellAt(f.w, src).kind, adj[dst], true, th)
    requires x != dst && !(x in adj[dst] && IsOcc(Moved(f.w, src, dst), x))
    ensures Contains(a.1, x) <==> FastUnhappy(a.0, |adj|, Moved(f.w, src, dst), x, th)
  {
    var n, t, w' := |adj|, CellAt(f.w, src).kind, Moved(f.w, src, dst);
    var un0 := Remove(f.un, n, src);
    assert Contains(a.1, x) <==> Contains(l.1, x);
    if x != src && IsOcc(f.w, x) {
      assert CellAt(w', x) == CellAt(f.w, x) && x !in adj[dst];
      BumpAt(l.0, n, t, adj[dst], true);
      assert At(a.0, x) == At(l.0, x);
      assert l == Sweep(f.c, n, f.w, un0, t, adj[src], false, th);
      SweepFlags(f.c, n, f.w, un0, t, adj[src], false, th);
      if x in adj[src] {
        FastLocal(a.0, l.0, n, w', f.w, x, th);
      } else {
        BumpAt(f.c, n, t, adj[src], false);
        FastLocal(a.0, f.c, n, w', f.w, x, th);
      }
    }
  }

  /**
   * A move keeps the stepper exact: the counters stay the neighbour counts
   * and the unhappy pool stays their verdict on every vertex.
   */
  lemma MoveKeepsExact(adj: Adjacency, th: Threshold.Ratio, f: Fast, src: nat, dst: nat)
    requires WellFormed(adj) && Inv(adj, f) && Exact(adj, f, th)
    requires src < |adj| && dst < |adj| && IsOcc(f.w, src) && !IsOcc(f.w, dst)
    ensures Exact(adj, Move(adj, th, f, src, dst), th)
  {
    MoveKeepsCounts(adj, th, f, src, dst);
    forall x: nat | x < |adj| {
      MoveFlagAt(adj, th, f, src, dst, x);
    }
  }

  /** The agent drawn to move: the unhappy vertex at index pick mod size. */
  function Src(adj: Adjacency, f: Fast, pick: nat): (v: nat)
    requires Inv(adj, f) && |f.un.items| > 0
    ensures v < |adj| && Contains(f.un, v) && IsOcc(f.w, v)
  {
    Pick(f.un, |adj|, pick)
  }

  /** The destination chosen among min(K, #vacancies) sampled vacancies, if any. */
  function Dest(adj: Adjacency, th: Threshold.Ratio, opt: Options, f: Fast, pick: nat, draw: nat -> nat): (r: Option<nat>)
    requires Inv(adj, f) && |f.un.items| > 0 && |f.vac.items| > 0
    ensures r.Some? ==> r.value < |adj| && Contains(f.vac, r.value) && !IsOcc(f.w, r.value)
  {
    var n := |adj|;
    var k := Min(opt.kCandidates, |f.vac.items|);
    var cands := Candidates(f.vac, n, draw, k);
    Choose(f.c, n, CellAt(f.w, Src(adj, f, pick)).kind, th, opt.fallbackBest, cands, 0, None)
  }

  /**
   * No destination is found exactly when none of the sampled vacancies
   * satisfies the mover and either the fallback is off or none of them has a
   * same-type neighbour.
   */
  lemma DestNone(adj: Adjacency, th: Threshold.Ratio, opt: Options, f: Fast, pick: nat, draw: nat -> nat)
    requires Inv(adj, f) && |f.un.items| > 0 && |f.vac.items| > 0
    ensures var t := CellAt(f.w, Src(adj, f, pick)).kind;
            var cands := Candidates(f.vac, |adj|, draw, Min(opt.kCandidates, |f.vac.items|));
            (Dest(adj, th, opt, f, pick, draw).None?
             <==> (forall i :: 0 <= i < |cands| ==> !Fits(f.c, |adj|, t, cands[i], th))
                  && (!opt.fallbackBest || forall i :: 0 <= i < |cands| ==> Cnt(f.c, t, cands[i]) == 0))
  {
    var t, cands := CellAt(f.w, Src(adj, f, pick)).kind,
                    Candidates(f.vac, |adj|, draw, Min(opt.kCandidates, |f.vac.items|));
    ChooseNone(f.c, |adj|, t, th, opt.fallbackBest, cands, 0, None);
  }

  /** What one pass of the run loop does. */
  datatype Outcome = Converged | Blocked | Skipped | Relocated(f: Fast)

  /**
   * One pass of `run_until_equilibrium` after the progress report: stop
   * converged with no unhappy agent, stop blocked with no vacancy, skip when
   * no destination is found, otherwise move the drawn agent there.
   */
  function Advance(adj: Adjacency, th: Threshold.Ratio, opt: Options, f: Fast, pick: nat, draw: nat -> nat)
    : (o: Outcome)
    requires WellFormed(adj) && Inv(adj, f)
    ensures o.Converged? <==> |f.un.items| == 0
    ensures o.Blocked? <==> |f.un.items| > 0 && |f.vac.items| == 0
    ensures o.Skipped? <==> |f.un.items| > 0 && |f.vac.items| > 0 && Dest(adj, th, opt, f, pick, draw).None?
    ensures o.Relocated? ==>
              && Inv(adj, o.f)
              && var src, dst := Src(adj, f, pick), Dest(adj, th, opt, f, pick, draw).value;
                 o.f.w == Moved(f.w, src, dst) && Contains(f.un, src) && Contains(f.vac, dst)
  {
    if |f.un.items| == 0 then Converged
    else if |f.vac.items| == 0 then Blocked
    else
      match Dest(adj, th, opt, f, pick, draw)
      case None => Skipped
      case Some(dst) => Relocated(Move(adj, th, f, Src(adj, f, pick), dst))
  }

  lemma AdvanceKeepsExact(adj: Adjacency, th: Threshold.Ratio, opt: Options, f: Fast, pick: nat, draw: nat -> nat)
    requires WellFormed(adj) && Inv(adj, f) && Exact(adj, f, th)
    ensures var o := Advance(adj, th, opt, f, pick, draw); o.Relocated? ==> Exact(adj, o.f, th)
  {
    if |f.un.items| > 0 && |f.vac.items| > 0 {
      var d := Dest(adj, th, opt, f, pick, draw);
      if d.Some? {
        MoveKeepsExact(adj, th, f, Src(adj, f, pick), d.value);
      }
    }
  }

  /** What `run_until_equilibrium` reports; the final world is carried along. */
  datatype RunResult = RunResult(w: World, moves: nat, converged: bool, finalUnhappy: Threshold.u32)

  /** `finalize_metrics`: the unhappy count comes from a full pass over the world. */
  function Finalized(adj: Adjacency, th: Threshold.Ratio, w: World, moves: nat, converged: bool): (r: RunResult)
    ensures r.w == w && r.moves == moves && r.converged == converged
    ensures |adj| < Threshold.U32 ==> (r.finalUnhappy == 0 <==> forall v :: 0 <= v < |adj| ==> !Unhappy(adj, w, v, th))
  {
    RunResult(w, moves, converged, UnhappyCount(adj, w, th))
  }

  /**
   * The loop as written: a pass that skips on the last budgeted step falls
   * out of the loop (as does a zero budget) and returns the untouched
   * default result, zero moves and zero unhappy agents.
   */
  function LoopAsWritten(adj: Adjacency, th: Threshold.Ratio, opt: Options, f: Fast, picks: nat -> nat,
                         draws: nat -> nat -> nat, step: nat, maxMoves: nat): (r: RunResult)
    requires WellFormed(adj) && Inv(adj, f) && step <= maxMoves
    ensures r.moves <= maxMoves
    decreases maxMoves - step
  {
    if step == maxMoves then RunResult(f.w, 0, false, 0)
    else
      match Advance(adj, th, opt, f, picks(step), draws(step))
      case Converged => Finalized(adj, th, f.w, step, true)
      case Blocked => Finalized(adj, th, f.w, step, false)
      case Skipped => LoopAsWritten(adj, th, opt, f, picks, draws, step + 1, maxMoves)
      case Relocated(f') =>
        if step + 1 == maxMoves then Finalized(adj, th, f'.w, maxMoves, false)
        else LoopAsWritten(adj, th, opt, f', picks, draws, step + 1, maxMoves)
  }

  /**
   * The loop with its evident intent: running out of budget, however the
   * last step ended, finalizes with the whole budget as the move count.
   * Steps that skip count against the budget, as in the source.
   */
  function Loop(adj: Adjacency, th: Threshold.Ratio, opt: Options, f: Fast, picks: nat -> nat,
                draws: nat -> nat -> nat, step: nat, maxMoves: nat): (r: RunResult)
    requires WellFormed(adj) && Inv(adj, f) && step <= maxMoves
    ensures step <= r.moves <= maxMoves
    decreases maxMoves - step
  {
    if step == maxMoves then Finalized(adj, th, f.w, maxMoves, false)
    else
      match Advance(adj, th, opt, f, picks(step), draws(step))
      case Converged => Finalized(adj, th, f.w, step, true)
      case Blocked => Finalized(adj, th, f.w, step, false)
      case Skipped => Loop(adj, th, opt, f, picks, draws, step + 1, maxMoves)
      case Relocated(f') => Loop(adj, th, opt, f', picks, draws, step + 1, maxMoves)
  }

  /** From exact counters, an empty unhappy pool means no agent is unhappy (below 2^8 neighbours). */
  lemma EmptyPoolAllHappy(adj: Adjacency, f: Fast, th: Threshold.Ratio)
    requires Inv(adj, f) && Exact(adj, f, th) && |f.un.items| == 0
    requires forall v :: 0 <= v < |adj| ==> |adj[v]| < U8
    ensures forall v :: 0 <= v < |adj| ==> !Unhappy(adj, f.w, v, th)
  {
    forall v | 0 <= v < |adj| ensures !Unhappy(adj, f.w, v, th) {
      FastAgreesWithScan(f.c, adj, f.w, v, th);
      assert !Contains(f.un, v);
    }
  }

  /**
   * From an exact start on a graph of degree below 2^8, the corrected run's
   * report is honest: the unhappy count is a full recount of the final world,
   * and a converged run leaves no unhappy agent.
   */
  lemma {:induction false} LoopHonest(adj: Adjacency, th: Threshold.Ratio, opt: Options, f: Fast, picks: nat -> nat,
                                      draws: nat -> nat -> nat, step: nat, maxMoves: nat)
    requires WellFormed(adj) && Inv(adj, f) && Exact(adj, f, th) && step <= maxMoves
    requires |adj| < Threshold.U32 && forall v :: 0 <= v < |adj| ==> |adj[v]| < U8
    ensures var r := Loop(adj, th, opt, f, picks, draws, step, maxMoves);
            r.finalUnhappy == UnhappyCount(adj, r.w, th) && (r.converged ==> r.finalUnhappy == 0)
    decreases maxMoves - step
  {
    if step < maxMoves {
      var o := Advance(adj, th, opt, f, picks(step), draws(step));
      if o.Converged? {
        EmptyPoolAllHappy(adj, f, th);
      } else if o.Skipped? {
        LoopHonest(adj, th, opt, f, picks, draws, step + 1, maxMoves);
      } else if o.Relocated? {
        AdvanceKeepsExact(adj, th, opt, f, picks(step), draws(step));
        LoopHonest(adj, th, opt, o.f, picks, draws, step + 1, maxMoves);
      }
    }
  }

  /** Three vertices in a row, 0 - 1 - 2. */
  const Path3: Adjacency := [[1], [0, 2], [1]]

  /** A type-0 agent at 0, a type-1 agent at 1, vertex 2 vacant: both agents want half their neighbours alike. */
  const Stalled: Fast := Fast([Occupied(false), Occupied(true), Empty],
                              Counts([0, 1, 0], [1, 0, 1], [1, 1, 1]),
                              Pool([2], [None, None, Some(0)]),
                              Pool([0, 1], [Some(0), Some(1), None]))

  lemma StalledIsInitialized()
    ensures WellFormed(Path3) && Inv(Path3, Stalled) && Exact(Path3, Stalled, Threshold.Ratio(1, 2))
  {
    Path3WellFormed();
    StalledInv();
    StalledExact();
  }

  lemma StalledInv()
    ensures Inv(Path3, Stalled)
  {
    var f := Stalled;
    assert IndexedPool.Valid(f.vac, 3) by {
      assert f.vac.items[0] == 2 && f.vac.pos[2] == Some(0);
    }
    assert IndexedPool.Valid(f.un, 3) by {
      assert f.un.items[0] == 0 && f.un.items[1] == 1;
    }
    forall x: nat | x < 3 ensures Contains(f.vac, x) <==> !IsOcc(f.w, x) {
      assert x == 0 || x == 1 || x == 2;
    }
    forall x: nat | x < 3 && Contains(f.un, x) ensures IsOcc(f.w, x) {
      assert x == 0 || x == 1;
    }
  }

  lemma StalledExact()
    ensures Exact(Path3, Stalled, Threshold.Ratio(1, 2))
  {
    StalledCounts();
    var th, f := Threshold.Ratio(1, 2), Stalled;
    forall x: nat | x < 3 ensures Contains(f.un, x) <==> FastUnhappy(f.c, 3, f.w, x, th) {
      if x == 0 {
        assert FastUnhappy(f.c, 3, f.w, 0, th);
      } else if x == 1 {
        assert FastUnhappy(f.c, 3, f.w, 1, th);
      } else {
        assert x == 2 && !IsOcc(f.w, 2);
      }
    }
  }

  lemma Path3WellFormed()
    ensures WellFormed(Path3)
  {
    assert Path3[0] == [1] && Path3[1] == [0, 2] && Path3[2] == [1];
  }

  lemma StalledCounts()
    ensures CountsOf(Stalled.c, Path3, Stalled.w)
  {
    var adj, w := Path3, Stalled.w;
    assert adj[0] == [1] && adj[1] == [0, 2] && adj[2] == [1];
    assert Same(adj, w, 0, false) == 0 && Same(adj, w, 0, true) == 1 && Occ(adj, w, 0) == 1;
    assert Same(adj, w, 1, false) == 1 && Same(adj, w, 1, true) == 0 && Occ(adj, w, 1) == 1;
    assert Same(adj, w, 2, false) == 0 && Same(adj, w, 2, true) == 1 && Occ(adj, w, 2) == 1;
  }

  /**
   * The as-written loop with a budget of one move: the only vacancy does not
   * satisfy the drawn agent and has no same-type neighbour, so the step is
   * skipped, the loop runs out, and the report says no moves and no unhappy
   * agent although both agents are unhappy; the corrected loop reports two.
   */
  lemma AsWrittenLosesReport()
    ensures WellFormed(Path3) && Inv(Path3, Stalled)
    ensures var th, picks, draws := Threshold.Ratio(1, 2), (_: nat) => 0, (_: nat) => (_: nat) => 0;
            && LoopAsWritten(Path3, th, DefaultOptions, Stalled, picks, draws, 0, 1) == RunResult(Stalled.w, 0, false, 0)
            && UnhappyCount(Path3, Stalled.w, th) == 2
            && Loop(Path3, th, DefaultOptions, Stalled, picks, draws, 0, 1).finalUnhappy == 2
  {
    StalledSkips();
    StalledUnhappyTwo();
  }

  /** The drawn agent is the type-0 agent at 0; the only vacancy neither satisfies it nor has a type-0 neighbour. */
  lemma StalledSkips()
    ensures WellFormed(Path3) && Inv(Path3, Stalled)
    ensures Advance(Path3, Threshold.Ratio(1, 2), DefaultOptions, Stalled, 0, (_: nat) => 0) == Skipped
  {
    var th, draw := Threshold.Ratio(1, 2), (_: nat) => 0;
    StalledIsInitialized();
    var f := Stalled;
    assert Src(Path3, f, 0) == 0;
    assert Candidates(f.vac, 3, draw, 1) == [2];
    assert !Fits(f.c, 3, false, 2, th);
    assert Dest(Path3, th, DefaultOptions, f, 0, draw) == None;
  }

  /** Both agents are unhappy in the stalled world. */
  lemma StalledUnhappyTwo()
    ensures UnhappyCount(Path3, Stalled.w, Threshold.Ratio(1, 2)) == 2
  {
    var th, f := Threshold.Ratio(1, 2), Stalled;
    Path3WellFormed();
    assert Unhappy(Path3, f.w, 0, th) && Unhappy(Path3, f.w, 1, th) && !Unhappy(Path3, f.w, 2, th);
    assert UnhappyBelow(Path3, f.w, th, 3) == 2;
  }
}
