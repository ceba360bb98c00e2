/**
 * The bit-packed world of the C++ simulator (include/sim/world_packed.hpp):
 * an occupancy bit and a type bit per vertex, plus swap-remove pools of the
 * empty and of the occupied vertices.
 */
module WorldPacked {
  import opened Basics
  import opened Topology
  import opened IndexedPool

  datatype WorldPacked = WorldPacked(occ: seq<bool>, typ: seq<bool>, empties: Pool, occupied: Pool)

  /** Bit vectors of equal length and well-formed pools over the same vertices. */
  ghost predicate Valid(w: WorldPacked) {
    && |w.typ| == |w.occ|
    && IndexedPool.Valid(w.empties, |w.occ|) && IndexedPool.Valid(w.occupied, |w.occ|)
  }

  /** A listed vertex is listed in the pool that matches its occupancy bit. */
  ghost predicate Consistent(w: WorldPacked) {
    && Valid(w)
    && (forall v :: 0 <= v < |w.occ| && Contains(w.empties, v) ==> !w.occ[v])
    && (forall v :: 0 <= v < |w.occ| && Contains(w.occupied, v) ==> w.occ[v])
  }

  /** Every vertex is listed: the two pools partition the vertices by occupancy. */
  ghost predicate Partitioned(w: WorldPacked) {
    && Consistent(w)
    && (forall v :: 0 <= v < |w.occ| ==> Contains(w.empties, v) || Contains(w.occupied, v))
  }

  /** The occupancy the neighbour scans see. */
  function View(w: WorldPacked): (r: World)
    requires |w.typ| == |w.occ|
    ensures |r| == |w.occ|
    ensures forall v :: 0 <= v < |w.occ| ==> (r[v].Occupied? <==> w.occ[v])
    ensures forall v :: 0 <= v < |w.occ| && w.occ[v] ==> r[v].kind == w.typ[v]
  {
    seq(|w.occ|, v requires 0 <= v < |w.occ| => if w.occ[v] then Occupied(w.typ[v]) else Empty)
  }

  /** `resize`: n vertices, all bits clear, both lists empty, every position NPOS. */
  function Resize(n: nat): (r: WorldPacked)
    ensures Consistent(r) && |r.occ| == n
    ensures |r.empties.items| == 0 && |r.occupied.items| == 0
    ensures forall v :: 0 <= v < n ==> !r.occ[v] && !r.typ[v]
    ensures forall v :: 0 <= v < n ==> r.empties.pos[v].None? && r.occupied.pos[v].None?
  {
    WorldPacked(seq(n, _ => false), seq(n, _ => false), IndexedPool.Empty(n), IndexedPool.Empty(n))
  }

  /**
   * `set_empty`: an occupied v is swap-removed from `occupied`; the bit is
   * cleared; v is appended to `empties` unless already listed there.
   */
  function SetEmpty(w: WorldPacked, v: nat): (r: WorldPacked)
    requires Valid(w) && v < |w.occ|
    ensures Valid(r) && r.occ == w.occ[v := false] && r.typ == w.typ
    ensures Contains(r.empties, v)
    ensures w.occ[v] || !Contains(w.occupied, v) ==> !Contains(r.occupied, v)
    ensures forall x :: 0 <= x < |w.occ| && x != v ==>
              (Contains(r.empties, x) <==> Contains(w.empties, x))
              && (Contains(r.occupied, x) <==> Contains(w.occupied, x))
    ensures Consistent(w) ==> Consistent(r)
    ensures Partitioned(w) ==> Partitioned(r)
  {
    var occupied := if w.occ[v] then Remove(w.occupied, |w.occ|, v) else w.occupied;
    WorldPacked(w.occ[v := false], w.typ, Add(w.empties, |w.occ|, v), occupied)
  }

  /**
   * `set_occupied`: an empty v is swap-removed from `empties`; the bits
   * record occupancy and type t; v is appended to `occupied` unless listed.
   */
  function SetOccupied(w: WorldPacked, v: nat, t: bool): (r: WorldPacked)
    requires Valid(w) && v < |w.occ|
    ensures Valid(r) && r.occ == w.occ[v := true] && r.typ == w.typ[v := t]
    ensures Contains(r.occupied, v)
    ensures !w.occ[v] || !Contains(w.empties, v) ==> !Contains(r.empties, v)
    ensures forall x :: 0 <= x < |w.occ| && x != v ==>
              (Contains(r.empties, x) <==> Contains(w.empties, x))
              && (Contains(r.occupied, x) <==> Contains(w.occupied, x))
    ensures Consistent(w) ==> Consistent(r)
    ensures Partitioned(w) ==> Partitioned(r)
  {
    var empties := if !w.occ[v] then Remove(w.empties, |w.occ|, v) else w.empties;
    WorldPacked(w.occ[v := true], w.typ[v := t], empties, Add(w.occupied, |w.occ|, v))
  }

  /** The two setters change the scanned world at v alone. */
  lemma SettersChangeOnlyV(w: WorldPacked, v: nat, t: bool)
    requires Valid(w) && v < |w.occ|
    ensures View(SetEmpty(w, v)) == View(w)[v := Empty]
    ensures View(SetOccupied(w, v, t)) == View(w)[v := Occupied(t)]
  {
  }

  /** `random_empty`: the draw r selects a listed empty vertex. */
  function RandomEmpty(w: WorldPacked, r: nat): (v: nat)
    requires Consistent(w) && |w.empties.items| > 0
    ensures v < |w.occ| && !w.occ[v] && Contains(w.empties, v)
  {
    Pick(w.empties, |w.occ|, r)
  }

  /** `random_occupied`: the draw r selects a listed occupied vertex. */
  function RandomOccupied(w: WorldPacked, r: nat): (v: nat)
    requires Consistent(w) && |w.occupied.items| > 0
    ensures v < |w.occ| && w.occ[v] && Contains(w.occupied, v)
  {
    Pick(w.occupied, |w.occ|, r)
  }

  /**
   * Seeding after `resize`: setting every vertex in turn to its cell in a
   * target world yields exactly that world, with the pools partitioning it.
   */
  function Seed(w: WorldPacked, cells: World, from: nat): (r: WorldPacked)
    requires Valid(w) && |cells| == |w.occ| && from <= |cells|
    ensures Valid(r) && |r.occ| == |w.occ|
    decreases |cells| - from
  {
    if from == |cells| then w
    else
      var w1 := if cells[from].Occupied? then SetOccupied(w, from, cells[from].kind) else SetEmpty(w, from);
      Seed(w1, cells, from + 1)
  }

  lemma {:induction false} SeedBuildsWorld(w: WorldPacked, cells: World, from: nat)
    requires Consistent(w) && |cells| == |w.occ| && from <= |cells|
    requires forall v :: 0 <= v < from ==> View(w)[v] == cells[v]
    requires forall v :: 0 <= v < from ==> Contains(w.empties, v) || Contains(w.occupied, v)
    ensures Partitioned(Seed(w, cells, from)) && View(Seed(w, cells, from)) == cells
    decreases |cells| - from
  {
    if from < |cells| {
      var w1 := if cells[from].Occupied? then SetOccupied(w, from, cells[from].kind) else SetEmpty(w, from);
      SeedStep(w, cells, from);
      SeedBuildsWorld(w1, cells, from + 1);
    } else {
      assert View(w) == cells;
    }
  }

  /** Setting vertex `from` to its target cell extends the seeded prefix by one. */
  lemma SeedStep(w: WorldPacked, cells: World, from: nat)
    requires Consistent(w) && |cells| == |w.occ| && from < |cells|
    requires forall v :: 0 <= v < from ==> View(w)[v] == cells[v]
    requires forall v :: 0 <= v < from ==> Contains(w.empties, v) || Contains(w.occupied, v)
    ensures var w1 := if cells[from].Occupied? then SetOccupied(w, from, cells[from].kind) else SetEmpty(w, from);
            && Consistent(w1)
            && (forall v :: 0 <= v < from + 1 ==> View(w1)[v] == cells[v])
            && (forall v :: 0 <= v < from + 1 ==> Contains(w1.empties, v) || Contains(w1.occupied, v))
  {
    var w1 := if cells[from].Occupied? then SetOccupied(w, from, cells[from].kind) else SetEmpty(w, from);
    assert View(w1) == View(w)[from := cells[from]] by {
      SettersChangeOnlyV(w, from, if cells[from].Occupied? then cells[from].kind else false);
    }
  }

  lemma SeedFromResize(cells: World)
    ensures Partitioned(Seed(Resize(|cells|), cells, 0))
    ensures View(Seed(Resize(|cells|), cells, 0)) == cells
  {
    SeedBuildsWorld(Resize(|cells|), cells, 0);
  }
}
