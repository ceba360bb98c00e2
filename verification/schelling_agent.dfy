/**
 * The Python reference engine (Python_Version/agentsJ.py): each agent keeps a
 * happy flag, the model keeps a counter of happy agents and a list of unhappy
 * ones, and a move re-evaluates only the mover and the agents around its old
 * and new node.
 *
 * Agents are numbered in creation order.  `grid[v]` is the agent standing on
 * node v, `pos[j]` the node of agent j, `kinds[j]` its type (type 1 is
 * `true`).  Homophily is an exact rational; a Python exception is a `Raised`
 * result.
 */
module SchellingAgent {
  import opened Basics
  import opened Topology
  import Threshold

  /** An exact rational num/den. */
  datatype Frac = Frac(num: int, den: Pos)

  datatype PyError = IndexError | ValueError

  datatype Result<T> = Ok(value: T) | Raised(error: PyError)

  datatype Model = Model(
    adj: Adjacency,
    grid: seq<Option<nat>>,
    kinds: seq<bool>,
    pos: seq<nat>,
    happyFlag: seq<bool>,
    empty: seq<nat>,
    unhappyList: seq<nat>,
    happy: int,
    nAgents: nat,
    moves: nat,
    homophily: Frac)

  /** What the neighbour scans see: the type of the agent on each node. */
  function WorldOf(grid: seq<Option<nat>>, kinds: seq<bool>): (w: World)
    ensures |w| == |grid|
  {
    seq(|grid|, v requires 0 <= v < |grid| =>
      if grid[v].Some? && grid[v].value < |kinds| then Occupied(kinds[grid[v].value]) else Empty)
  }

  /**
   * The happiness test of `count` and `recount`: the similar fraction is
   * same/occupied, or 1 when no neighbour is occupied, and the agent is happy
   * when that fraction reaches the homophily.
   */
  function HappyVerdict(h: Frac, same: nat, occ: nat): (r: bool)
    requires same <= occ
    ensures occ == 0 ==> (r <==> 1.0 >= (h.num as real) / (h.den as real))
    ensures occ > 0 ==> (r <==> (same as real) / (occ as real) >= (h.num as real) / (h.den as real))
  {
    Threshold.FractionOrder(1.0, 1.0, h.num as real, h.den as real);
    if occ == 0 then h.num <= h.den
    else
      Threshold.FractionOrder(same as real, occ as real, h.num as real, h.den as real);
      same * h.den >= h.num * occ
  }

  /** An agent that the model can look up. */
  predicate AgentIn(m: Model, j: nat) {
    j < |m.kinds| && j < |m.pos| && j < |m.happyFlag| && m.pos[j] < |m.adj|
  }

  /** The verdict a fresh neighbour scan gives for agent j. */
  function Verdict(m: Model, j: nat): bool
    requires AgentIn(m, j)
  {
    var w := WorldOf(m.grid, m.kinds);
    HappyVerdict(m.homophily, Same(m.adj, w, m.pos[j], m.kinds[j]), Occ(m.adj, w, m.pos[j]))
  }

  /** Agents and nodes refer to each other. */
  ghost predicate Placement(m: Model) {
    && WellFormed(m.adj) && |m.grid| == |m.adj|
    && |m.kinds| == m.nAgents && |m.pos| == m.nAgents && |m.happyFlag| == m.nAgents
    && (forall j :: 0 <= j < m.nAgents ==> m.pos[j] < |m.grid| && m.grid[m.pos[j]] == Some(j))
    && (forall v :: 0 <= v < |m.grid| && m.grid[v].Some? ==>
          m.grid[v].value < m.nAgents && m.pos[m.grid[v].value] == v)
  }

  /** `empty` lists every free node once. */
  ghost predicate EmptyList(m: Model) {
    && NoDup(m.empty)
    && (forall x :: x in m.empty ==> x < |m.grid| && m.grid[x].None?)
    && (forall v :: 0 <= v < |m.grid| && m.grid[v].None? ==> v in m.empty)
  }

  /** The happy counter and unhappy list agree with the flags. */
  ghost predicate Tracking(m: Model) {
    && |m.happyFlag| == m.nAgents
    && NoDup(m.unhappyList)
    && (forall j :: j in m.unhappyList ==> j < m.nAgents && !m.happyFlag[j])
    && (forall j :: 0 <= j < m.nAgents && !m.happyFlag[j] ==> j in m.unhappyList)
    && m.happy == CountTrue(m.happyFlag)
    && m.happy + |m.unhappyList| == m.nAgents
  }

  ghost predicate Inv(m: Model) {
    Placement(m) && EmptyList(m) && Tracking(m)
  }

  /** Every flag is what a fresh scan would say. */
  ghost predicate FlagsExact(m: Model)
    requires Placement(m)
  {
    forall j :: 0 <= j < m.nAgents ==> m.happyFlag[j] == Verdict(m, j)
  }

  /** The two models show the same graph, agents and positions. */
  predicate SameWorld(m: Model, m': Model) {
    && m'.adj == m.adj && m'.grid == m.grid && m'.kinds == m.kinds && m'.pos == m.pos
    && m'.empty == m.empty && m'.nAgents == m.nAgents && m'.moves == m.moves
    && m'.homophily == m.homophily && |m'.happyFlag| == |m.happyFlag|
  }

  /**
   * `recount`: a change of verdict flips the flag and moves the agent between
   * the happy counter and the unhappy list; the same verdict changes nothing.
   * Removing an agent that is not listed raises ValueError, as list.remove does.
   */
  function Recount(m: Model, i: nat): (r: Result<Model>)
    requires AgentIn(m, i)
    ensures Verdict(m, i) == m.happyFlag[i] ==> r == Ok(m)
    ensures r.Raised? ==> Verdict(m, i) && !m.happyFlag[i] && i !in m.unhappyList
    ensures r.Ok? ==> SameWorld(m, r.value) && r.value.happyFlag == m.happyFlag[i := Verdict(m, i)]
    ensures r.Ok? ==> r.value.happy + |r.value.unhappyList| == m.happy + |m.unhappyList|
  {
    if Verdict(m, i) then
      if !m.happyFlag[i] then
        match RemoveFirst(m.unhappyList, i)
        case None => Raised(ValueError)
        case Some(rest) =>
          Ok(m.(happy := m.happy + 1, happyFlag := m.happyFlag[i := true], unhappyList := rest))
      else Ok(m)
    else if m.happyFlag[i] then
      Ok(m.(happy := m.happy - 1, happyFlag := m.happyFlag[i := false], unhappyList := m.unhappyList + [i]))
    else Ok(m)
  }

  /** On a consistent model recount never raises and keeps the model consistent. */
  lemma RecountKeepsInv(m: Model, i: nat)
    requires Inv(m) && i < m.nAgents
    ensures AgentIn(m, i) && Recount(m, i).Ok? && Inv(Recount(m, i).value)
  {
    var r := Recount(m, i);
    CountTrueUpdate(m.happyFlag, i, Verdict(m, i));
    if Verdict(m, i) && !m.happyFlag[i] {
      RemoveFirstNoDup(m.unhappyList, i);
    }
  }

  /** Recounting twice is recounting once. */
  lemma RecountIdempotent(m: Model, i: nat)
    requires AgentIn(m, i) && Recount(m, i).Ok?
    ensures Recount(Recount(m, i).value, i) == Recount(m, i)
  {
  }

  /** Recounts of a list of agents, in order, stopping at the first exception. */
  function RecountAll(m: Model, ids: seq<nat>): (r: Result<Model>)
    requires forall k :: 0 <= k < |ids| ==> AgentIn(m, ids[k])
    ensures r.Ok? ==> SameWorld(m, r.value)
    decreases |ids|
  {
    if |ids| == 0 then Ok(m)
    else
      var first := Recount(m, ids[0]);
      if first.Raised? then Raised(first.error)
      else
        assert forall k :: 0 <= k < |ids| ==> AgentIn(first.value, ids[k]) by {
          forall k | 0 <= k < |ids| ensures AgentIn(first.value, ids[k]) {
            assert AgentIn(m, ids[k]);
            assert first.value.pos[ids[k]] == m.pos[ids[k]];
          }
        }
        RecountAll(first.value, ids[1..])
  }

  /** After recounting a list, the listed agents are exact and the others untouched. */
  lemma {:induction false} RecountAllEffect(m: Model, ids: seq<nat>)
    requires Inv(m) && forall k :: 0 <= k < |ids| ==> ids[k] < m.nAgents
    ensures RecountAll(m, ids).Ok? && Inv(RecountAll(m, ids).value)
    ensures forall j :: 0 <= j < m.nAgents && j in ids ==>
              RecountAll(m, ids).value.happyFlag[j] == Verdict(m, j)
    ensures forall j :: 0 <= j < m.nAgents && j !in ids ==>
              RecountAll(m, ids).value.happyFlag[j] == m.happyFlag[j]
    decreases |ids|
  {
    if |ids| > 0 {
      RecountKeepsInv(m, ids[0]);
      var m1 := Recount(m, ids[0]).value;
      RecountAllEffect(m1, ids[1..]);
      var r := RecountAll(m1, ids[1..]).value;
      forall j | 0 <= j < m.nAgents && j in ids ensures r.happyFlag[j] == Verdict(m, j) {
        if j !in ids[1..] { assert j == ids[0]; }
      }
    }
  }

  /** The agents standing on the listed nodes, in list order (get_cell_list_contents). */
  function AgentsOn(grid: seq<Option<nat>>, nodes: seq<nat>): (r: seq<nat>)
    ensures forall a :: a in r ==> exists v :: v in nodes && v < |grid| && grid[v] == Some(a)
    ensures forall v :: v in nodes && v < |grid| && grid[v].Some? ==> grid[v].value in r
  {
    if |nodes| == 0 then []
    else
      var rest := AgentsOn(grid, nodes[1..]);
      if nodes[0] < |grid| && grid[nodes[0]].Some? then [grid[nodes[0]].value] + rest else rest
  }

  lemma AgentsOnAreAgents(m: Model, nodes: seq<nat>)
    requires Placement(m)
    ensures forall k :: 0 <= k < |AgentsOn(m.grid, nodes)| ==> AgentsOn(m.grid, nodes)[k] < m.nAgents
  {
    var r := AgentsOn(m.grid, nodes);
    forall k | 0 <= k < |r| ensures r[k] < m.nAgents {
      assert r[k] in r;
    }
  }

  /**
   * The bookkeeping half of `move`: the old node is appended to `empty`, the
   * agent is moved, the new node's first occurrence is removed from `empty`
   * and the move counter grows by one.
   */
  function Relocate(m: Model, i: nat, dst: nat): (r: Model)
    requires i < |m.pos| && dst in m.empty
    ensures r.adj == m.adj && r.kinds == m.kinds && r.happyFlag == m.happyFlag
    ensures r.unhappyList == m.unhappyList && r.happy == m.happy && r.nAgents == m.nAgents
    ensures r.homophily == m.homophily && r.moves == m.moves + 1
    ensures r.pos == m.pos[i := dst]
  {
    var src := m.pos[i];
    var grid' := if src < |m.grid| then m.grid[src := None] else m.grid;
    var grid'' := if dst < |grid'| then grid'[dst := Some(i)] else grid';
    Model(m.adj, grid'', m.kinds, m.pos[i := dst], m.happyFlag,
          RemoveFirst(m.empty + [src], dst).value, m.unhappyList,
          m.happy, m.nAgents, m.moves + 1, m.homophily)
  }

  lemma RelocateKeepsInv(m: Model, i: nat, dst: nat)
    requires Inv(m) && i < m.nAgents && dst in m.empty
    ensures Inv(Relocate(m, i, dst))
    ensures var r := Relocate(m, i, dst);
            && r.grid == m.grid[m.pos[i] := None][dst := Some(i)]
            && forall x :: x in r.empty <==> (x in m.empty || x == m.pos[i]) && x != dst
  {
    RelocateGrid(m, i, dst);
    RelocateEmpty(m, i, dst);
    RelocatePlacement(m, i, dst);
    var r := Relocate(m, i, dst);
    assert Tracking(r) by {
      assert r.happyFlag == m.happyFlag && r.unhappyList == m.unhappyList;
    }
  }

  lemma RelocateGrid(m: Model, i: nat, dst: nat)
    requires Inv(m) && i < m.nAgents && dst in m.empty
    ensures m.pos[i] != dst
    ensures Relocate(m, i, dst).grid == m.grid[m.pos[i] := None][dst := Some(i)]
  {
  }

  lemma RelocateEmpty(m: Model, i: nat, dst: nat)
    requires Inv(m) && i < m.nAgents && dst in m.empty
    ensures var r := Relocate(m, i, dst);
            && NoDup(r.empty)
            && forall x :: x in r.empty <==> (x in m.empty || x == m.pos[i]) && x != dst
  {
    var src := m.pos[i];
    assert src !in m.empty;
    NoDupAppend(m.empty, src);
    RemoveFirstNoDup(m.empty + [src], dst);
  }

  lemma RelocatePlacement(m: Model, i: nat, dst: nat)
    requires Inv(m) && i < m.nAgents && dst in m.empty
    ensures Placement(Relocate(m, i, dst)) && EmptyList(Relocate(m, i, dst))
  {
    RelocateGrid(m, i, dst);
    RelocateEmpty(m, i, dst);
    var r := Relocate(m, i, dst);
    forall j | 0 <= j < r.nAgents ensures r.pos[j] < |r.grid| && r.grid[r.pos[j]] == Some(j) {
      if j != i { assert m.grid[m.pos[j]] == Some(j); }
    }
  }

  /** The two worlds differ only at the old and new node of the mover. */
  lemma RelocateWorld(m: Model, i: nat, dst: nat)
    requires Inv(m) && i < m.nAgents && dst in m.empty
    ensures forall x :: 0 <= x < |m.grid| && x != m.pos[i] && x != dst ==>
              WorldOf(Relocate(m, i, dst).grid, m.kinds)[x] == WorldOf(m.grid, m.kinds)[x]
  {
    RelocateKeepsInv(m, i, dst);
  }

  /**
   * `move`: a happy agent stays; otherwise it relocates to the empty node
   * picked by draw r, and the mover, the agents around the old node and the
   * agents around the new node are recounted in that order.  Drawing from an
   * empty list raises IndexError.
   */
  function Move(m: Model, i: nat, r: nat): (res: Result<Model>)
    requires Inv(m) && i < m.nAgents
    ensures m.happyFlag[i] ==> res == Ok(m)
    ensures !m.happyFlag[i] && |m.empty| == 0 ==> res == Raised(IndexError)
  {
    if m.happyFlag[i] then Ok(m)
    else if |m.empty| == 0 then Raised(IndexError)
    else
      var dst := m.empty[r % |m.empty|];
      MoveIdsAgents(m, i, dst);
      RecountAll(Relocate(m, i, dst), MoveIds(m, i, dst))
  }

  /** The agents a move recounts: the mover, those around its old node, then those around the new one. */
  function MoveIds(m: Model, i: nat, dst: nat): (ids: seq<nat>)
    requires Inv(m) && i < m.nAgents && dst in m.empty
  {
    var m1 := Relocate(m, i, dst);
    [i] + AgentsOn(m.grid, m.adj[m.pos[i]]) + AgentsOn(m1.grid, m1.adj[dst])
  }

  /** Every recounted id is an agent of the relocated model. */
  lemma MoveIdsAgents(m: Model, i: nat, dst: nat)
    requires Inv(m) && i < m.nAgents && dst in m.empty
    ensures Inv(Relocate(m, i, dst))
    ensures forall k :: 0 <= k < |MoveIds(m, i, dst)| ==> MoveIds(m, i, dst)[k] < m.nAgents
    ensures forall k :: 0 <= k < |MoveIds(m, i, dst)| ==> AgentIn(Relocate(m, i, dst), MoveIds(m, i, dst)[k])
  {
    var m1 := Relocate(m, i, dst);
    RelocateKeepsInv(m, i, dst);
    var before, after := AgentsOn(m.grid, m.adj[m.pos[i]]), AgentsOn(m1.grid, m1.adj[dst]);
    assert forall k :: 0 <= k < |before| ==> before[k] < m.nAgents by {
      AgentsOnAreAgents(m, m.adj[m.pos[i]]);
    }
    assert forall k :: 0 <= k < |after| ==> after[k] < m.nAgents by {
      AgentsOnAreAgents(m1, m1.adj[dst]);
    }
    ConcatBelow(i, before, after, m.nAgents);
  }

  lemma ConcatBelow(i: nat, a: seq<nat>, b: seq<nat>, n: nat)
    requires i < n && (forall k :: 0 <= k < |a| ==> a[k] < n) && (forall k :: 0 <= k < |b| ==> b[k] < n)
    ensures forall k :: 0 <= k < |[i] + a + b| ==> ([i] + a + b)[k] < n
  {
  }

  /** The agents whose verdict a relocation can change are exactly those recounted. */
  lemma MoveRecountsEnough(m: Model, i: nat, dst: nat, j: nat)
    requires Inv(m) && i < m.nAgents && dst in m.empty && j < m.nAgents
    requires j != i && j !in AgentsOn(m.grid, m.adj[m.pos[i]])
    requires j !in AgentsOn(Relocate(m, i, dst).grid, m.adj[dst])
    ensures Verdict(Relocate(m, i, dst), j) == Verdict(m, j)
  {
    RelocateKeepsInv(m, i, dst);
    RelocateWorld(m, i, dst);
    var m1 := Relocate(m, i, dst);
    var src := m.pos[i];
    assert m.pos[j] !in m.adj[src];
    assert m.pos[j] !in m.adj[dst];
    MoveLocality(m.adj, WorldOf(m.grid, m.kinds), WorldOf(m1.grid, m.kinds), src, dst, m.pos[j]);
  }

  /**
   * A move of an unhappy agent keeps the model consistent and every flag
   * exact, counts one move, and takes the agent with its type to the drawn
   * empty node, whose old node becomes empty.
   */
  lemma MoveKeepsFlagsExact(m: Model, i: nat, r: nat)
    requires Inv(m) && FlagsExact(m) && i < m.nAgents
    requires !m.happyFlag[i] && |m.empty| > 0
    ensures Move(m, i, r).Ok?
    ensures Inv(Move(m, i, r).value) && FlagsExact(Move(m, i, r).value)
    ensures Move(m, i, r).value.moves == m.moves + 1
    ensures Move(m, i, r).value.kinds == m.kinds
    ensures Move(m, i, r).value.pos == m.pos[i := m.empty[r % |m.empty|]]
    ensures forall x :: x in Move(m, i, r).value.empty <==>
              (x in m.empty || x == m.pos[i]) && x != m.empty[r % |m.empty|]
  {
    var dst := m.empty[r % |m.empty|];
    var m1 := Relocate(m, i, dst);
    var ids := MoveIds(m, i, dst);
    MoveIdsAgents(m, i, dst);
    assert forall x :: x in m1.empty <==> (x in m.empty || x == m.pos[i]) && x != dst by {
      RelocateKeepsInv(m, i, dst);
    }
    assert Move(m, i, r) == RecountAll(m1, ids);
    RecountAllEffect(m1, ids);
    MoveExact(m, i, dst, ids, RecountAll(m1, ids).value);
  }

  lemma MoveExact(m: Model, i: nat, dst: nat, ids: seq<nat>, m': Model)
    requires Inv(m) && FlagsExact(m) && i < m.nAgents && dst in m.empty
    requires ids == MoveIds(m, i, dst)
    requires Inv(m') && SameWorld(Relocate(m, i, dst), m')
    requires forall j :: 0 <= j < m.nAgents && j in ids ==> m'.happyFlag[j] == Verdict(Relocate(m, i, dst), j)
    requires forall j :: 0 <= j < m.nAgents && j !in ids ==> m'.happyFlag[j] == m.happyFlag[j]
    ensures FlagsExact(m')
  {
    RelocateKeepsInv(m, i, dst);
    forall j | 0 <= j < m'.nAgents ensures m'.happyFlag[j] == Verdict(m', j) {
      if j !in ids {
        MoveRecountsEnough(m, i, dst, j);
      }
    }
  }
}
