/**
 * Agent-compact world storage (world_agent_packed.hpp): a compact array of
 * agent records (position, type) and an index of (vertex, agent id) pairs
 * kept sorted by vertex.  `lower_bound` on the index finds a vertex; removing
 * an agent moves the last record into the freed slot and re-points its
 * index entry.  Vertices, ids and types are 32-bit.
 */
module WorldAgentPacked {
  import opened Basics
  import Threshold

  type u32 = Threshold.u32

  datatype Agent = Agent(pos: u32, kind: u32)
  datatype Entry = Entry(vertex: u32, id: u32)
  datatype World = World(agents: seq<Agent>, index: seq<Entry>, n: u32)

  /** Index entries in strictly increasing vertex order. */
  predicate Sorted(index: seq<Entry>) {
    forall i, j :: 0 <= i < j < |index| ==> index[i].vertex < index[j].vertex
  }

  /** `find_vertex(v)`: `lower_bound` of (v, 0), the first entry whose vertex is at least v. */
  function LowerBound(index: seq<Entry>, v: u32): (k: nat)
    ensures k <= |index|
    ensures forall j :: 0 <= j < k ==> index[j].vertex < v
    ensures k < |index| ==> index[k].vertex >= v
  {
    if |index| == 0 || index[0].vertex >= v then 0 else 1 + LowerBound(index[1..], v)
  }

  lemma LowerBoundAt(index: seq<Entry>, k: nat)
    requires Sorted(index) && k < |index|
    ensures LowerBound(index, index[k].vertex) == k
  {
  }

  /**
   * The index is sorted; entry k names agent index[k].id, whose record sits
   * at that vertex; and every agent record is found through its vertex.
   */
  ghost predicate Valid(w: World) {
    |w.index| == |w.agents| && Sorted(w.index) && Linked(w.agents, w.index) && Homed(w.agents, w.index)
  }

  /** Every entry names an agent record at the entry's vertex. */
  ghost predicate Linked(agents: seq<Agent>, index: seq<Entry>) {
    forall k :: 0 <= k < |index| ==> index[k].id < |agents| && agents[index[k].id].pos == index[k].vertex
  }

  /** Every agent record is found through its vertex. */
  ghost predicate Homed(agents: seq<Agent>, index: seq<Entry>) {
    forall a :: 0 <= a < |agents| ==> Home(index, agents[a].pos, a)
  }

  /** Looking up v in the index lands on agent a. */
  predicate Home(index: seq<Entry>, v: u32, a: nat) {
    var k := LowerBound(index, v);
    k < |index| && index[k].vertex == v && index[k].id == a
  }

  /** `WorldAgentPacked(n)`: no agents. */
  function Create(n: u32): (w: World)
    ensures Valid(w) && forall v: u32 :: !Occupied(w, v)
  {
    World([], [], n)
  }

  lemma OccupiedIff(index: seq<Entry>, v: u32)
    requires Sorted(index)
    ensures (LowerBound(index, v) < |index| && index[LowerBound(index, v)].vertex == v)
            <==> exists k :: 0 <= k < |index| && index[k].vertex == v
  {
    if k :| 0 <= k < |index| && index[k].vertex == v {
      LowerBoundAt(index, k);
    }
  }

  /** `occupied(v)`: v has an index entry. */
  function Occupied(w: World, v: u32): (r: bool)
    ensures Sorted(w.index) ==> (r <==> exists k :: 0 <= k < |w.index| && w.index[k].vertex == v)
  {
    var k := LowerBound(w.index, v);
    if Sorted(w.index) then OccupiedIff(w.index, v); k < |w.index| && w.index[k].vertex == v
    else k < |w.index| && w.index[k].vertex == v
  }

  /** `type_of(v)`: the type of the agent at an occupied vertex. */
  function TypeOf(w: World, v: u32): u32
    requires Valid(w) && Occupied(w, v)
  {
    w.agents[w.index[LowerBound(w.index, v)].id].kind
  }

  /** What the world says about vertex v: empty, or the type of its agent. */
  function Lookup(w: World, v: u32): Option<u32>
    requires Valid(w)
  {
    if Occupied(w, v) then Some(TypeOf(w, v)) else None
  }

  /** `num_agents()`. */
  function NumAgents(w: World): nat {
    |w.index|
  }

  /** Entry k tells what its vertex holds. */
  lemma EntryLookup(w: World, k: nat)
    requires Valid(w) && k < |w.index|
    ensures Lookup(w, w.index[k].vertex) == Some(w.agents[w.index[k].id].kind)
  {
    LowerBoundAt(w.index, k);
  }

  /** Two different entries name different agents. */
  lemma IdsDistinct(agents: seq<Agent>, index: seq<Entry>, i: nat, j: nat)
    requires Sorted(index) && Linked(agents, index)
    requires i < |index| && j < |index| && i != j
    ensures index[i].id != index[j].id
  {
    assert index[i].vertex != index[j].vertex;
    assert agents[index[i].id].pos == index[i].vertex && agents[index[j].id].pos == index[j].vertex;
  }

  function InsertAt(s: seq<Entry>, k: nat, e: Entry): (r: seq<Entry>)
    requires k <= |s|
    ensures |r| == |s| + 1 && r[k] == e
    ensures forall j :: 0 <= j < k ==> r[j] == s[j]
    ensures forall j :: k < j < |r| ==> r[j] == s[j - 1]
  {
    s[..k] + [e] + s[k..]
  }

  lemma EraseSorted(s: seq<Entry>, k: nat)
    requires Sorted(s) && k < |s|
    ensures Sorted(RemoveAt(s, k))
    ensures forall j :: 0 <= j < |RemoveAt(s, k)| ==> RemoveAt(s, k)[j].vertex != s[k].vertex
  {
    var r := RemoveAt(s, k);
    forall i, j | 0 <= i < j < |r| ensures r[i].vertex < r[j].vertex {
      assert r[i] == s[if i < k then i else i + 1] && r[j] == s[if j < k then j else j + 1];
    }
  }

  /** Inserting an absent vertex at its lower bound keeps the index sorted. */
  lemma InsertSorted(s: seq<Entry>, e: Entry)
    requires Sorted(s) && forall j :: 0 <= j < |s| ==> s[j].vertex != e.vertex
    ensures Sorted(InsertAt(s, LowerBound(s, e.vertex), e))
  {
    var k := LowerBound(s, e.vertex);
    var r := InsertAt(s, k, e);
    forall i, j | 0 <= i < j < |r| ensures r[i].vertex < r[j].vertex {
      if j == k {
      } else if i == k {
        assert s[j - 1].vertex >= s[k].vertex by {
          if j - 1 > k { assert s[k].vertex < s[j - 1].vertex; }
        }
      } else if i < k < j {
        assert s[j - 1].vertex >= s[k].vertex by {
          if j - 1 > k { assert s[k].vertex < s[j - 1].vertex; }
        }
      }
    }
  }

  /** A sorted index of 32-bit vertices that misses some vertex has fewer than 2^32 entries. */
  lemma MissingBound(s: seq<Entry>, v: u32)
    requires Sorted(s) && forall j :: 0 <= j < |s| ==> s[j].vertex != v
    ensures |s| < Threshold.U32
  {
    var k := LowerBound(s, v);
    if k > 0 {
      SpreadBound(s, 0, k - 1);
    }
    if k < |s| {
      SpreadBound(s, k, |s| - 1);
    }
  }

  /** Strictly increasing entries climb at least one per step. */
  lemma {:induction false} SpreadBound(s: seq<Entry>, i: nat, j: nat)
    requires Sorted(s) && i <= j < |s|
    ensures s[j].vertex >= s[i].vertex + (j - i)
    decreases j - i
  {
    if i < j {
      SpreadBound(s, i + 1, j);
    }
  }

  // ---------------------------------------------------------------- set_vertex

  /**
   * `set_vertex(v, t)`: a no-op on an occupied vertex; otherwise a new
   * agent record (v, t) is appended and its entry inserted at v's lower
   * bound.
   */
  function SetVertex(w: World, v: u32, t: u32): (r: World)
    requires Valid(w)
    ensures Valid(r)
    ensures Occupied(w, v) ==> r == w
    ensures forall u: u32 :: Lookup(r, u) == if u == v && !Occupied(w, v) then Some(t) else Lookup(w, u)
    ensures NumAgents(r) == NumAgents(w) + (if Occupied(w, v) then 0 else 1)
  {
    if Occupied(w, v) then w
    else
      MissingBound(w.index, v);
      var k := LowerBound(w.index, v);
      var r := World(w.agents + [Agent(v, t)], InsertAt(w.index, k, Entry(v, |w.agents|)), w.n);
      InsertSorted(w.index, Entry(v, |w.agents|));
      SetValid(w, v, t, r);
      assert forall u: u32 :: Lookup(r, u) == if u == v then Some(t) else Lookup(w, u) by {
        forall u: u32 ensures Lookup(r, u) == if u == v then Some(t) else Lookup(w, u) {
          SetLookup(w, v, t, r, u);
        }
      }
      r
  }

  lemma SetValid(w: World, v: u32, t: u32, r: World)
    requires Valid(w) && !Occupied(w, v) && |w.agents| < Threshold.U32 && Added(w, v, t, r)
    requires Sorted(r.index)
    ensures Valid(r)
  {
    var k := LowerBound(w.index, v);
    SetLinked(w.agents, w.index, k, Entry(v, |w.agents|), Agent(v, t));
    SetHomed(w.agents, w.index, k, Entry(v, |w.agents|), Agent(v, t));
  }

  lemma SetLinked(agents: seq<Agent>, index: seq<Entry>, k: nat, e: Entry, x: Agent)
    requires Linked(agents, index) && k <= |index| && e.id == |agents| && x.pos == e.vertex
    ensures Linked(agents + [x], InsertAt(index, k, e))
  {
    var r := InsertAt(index, k, e);
    forall j | 0 <= j < |r| ensures r[j].id < |agents| + 1 && (agents + [x])[r[j].id].pos == r[j].vertex {
      if j != k {
        assert r[j] == index[if j < k then j else j - 1];
      }
    }
  }

  lemma SetHomed(agents: seq<Agent>, index: seq<Entry>, k: nat, e: Entry, x: Agent)
    requires Sorted(index) && Homed(agents, index) && k == LowerBound(index, e.vertex)
    requires e.id == |agents| && x.pos == e.vertex
    requires Sorted(InsertAt(index, k, e))
    ensures Homed(agents + [x], InsertAt(index, k, e))
  {
    var r, ag := InsertAt(index, k, e), agents + [x];
    forall a | 0 <= a < |ag| ensures Home(r, ag[a].pos, a) {
      if a == |agents| {
        LowerBoundAt(r, k);
      } else {
        assert Home(index, agents[a].pos, a);
        var p := LowerBound(index, agents[a].pos);
        var p' := if p < k then p else p + 1;
        assert r[p'] == index[p];
        LowerBoundAt(r, p');
      }
    }
  }

  /** r is w with agent (v, t) appended and its entry inserted, as the body of `set_vertex` builds it. */
  ghost predicate Added(w: World, v: u32, t: u32, r: World)
    requires |w.agents| < Threshold.U32
  {
    r == World(w.agents + [Agent(v, t)], InsertAt(w.index, LowerBound(w.index, v), Entry(v, |w.agents|)), w.n)
  }

  lemma SetLookup(w: World, v: u32, t: u32, r: World, u: u32)
    requires Valid(w) && !Occupied(w, v) && Valid(r) && |w.agents| < Threshold.U32 && Added(w, v, t, r)
    ensures Lookup(r, u) == if u == v then Some(t) else Lookup(w, u)
  {
    if u == v {
      EntryLookup(r, LowerBound(w.index, v));
    } else if Occupied(w, u) {
      SetLookupOther(w, v, t, r, u);
    } else {
      SetLookupGone(w, v, t, r, u);
    }
  }

  lemma SetLookupOther(w: World, v: u32, t: u32, r: World, u: u32)
    requires Valid(w) && Valid(r) && |w.agents| < Threshold.U32 && Added(w, v, t, r) && Occupied(w, u)
    ensures Lookup(r, u) == Lookup(w, u)
  {
    var k := LowerBound(w.index, v);
    var p := LowerBound(w.index, u);
    var p' := if p < k then p else p + 1;
    assert r.index[p'] == w.index[p];
    EntryLookup(r, p');
    EntryLookup(w, p);
  }

  lemma SetLookupGone(w: World, v: u32, t: u32, r: World, u: u32)
    requires Valid(w) && Valid(r) && |w.agents| < Threshold.U32 && Added(w, v, t, r)
    requires !Occupied(w, u) && u != v
    ensures Lookup(r, u).None?
  {
    var k := LowerBound(w.index, v);
    forall j | 0 <= j < |r.index| ensures r.index[j].vertex != u {
      if j != k {
        assert r.index[j] == w.index[if j < k then j else j - 1];
      }
    }
  }

  // -------------------------------------------------------------- clear_vertex

  /** An agent's id once the last record has moved into slot id. */
  function Relabel(x: u32, id: u32, last: nat): u32 {
    if x == last then id else x
  }

  function Relabeled(s: seq<Entry>, id: u32, last: nat): (r: seq<Entry>)
    ensures |r| == |s| && forall j :: 0 <= j < |s| ==> r[j] == Entry(s[j].vertex, Relabel(s[j].id, id, last))
  {
    seq(|s|, j requires 0 <= j < |s| => Entry(s[j].vertex, Relabel(s[j].id, id, last)))
  }

  /** After erasing entry k, the last agent's entry is the only one naming it, and lower_bound finds it. */
  lemma LastEntry(agents: seq<Agent>, index: seq<Entry>, k: nat)
    requires Sorted(index) && Linked(agents, index) && Homed(agents, index)
    requires k < |index| && index[k].id != |agents| - 1
    ensures var s, pos := RemoveAt(index, k), agents[|agents| - 1].pos;
            && LowerBound(s, pos) < |s|
            && s[LowerBound(s, pos)] == Entry(pos, |agents| - 1)
            && forall j :: 0 <= j < |s| && j != LowerBound(s, pos) ==> s[j].id != |agents| - 1
  {
    var last := |agents| - 1;
    var s, pos := RemoveAt(index, k), agents[last].pos;
    assert Home(index, pos, last);
    var p := LowerBound(index, pos);
    var p' := if p < k then p else p - 1;
    EraseSorted(index, k);
    assert s[p'] == index[p];
    LowerBoundAt(s, p');
    forall j | 0 <= j < |s| && j != p' ensures s[j].id != last {
      var jj := if j < k then j else j + 1;
      assert s[j] == index[jj];
    }
  }

  /** Re-pointing the only entry that names the last record relabels the whole index. */
  lemma RepointIsRelabel(s: seq<Entry>, k2: nat, pos: u32, id: u32, last: nat)
    requires k2 < |s| && s[k2].vertex == pos && s[k2].id == last
    requires forall j :: 0 <= j < |s| && j != k2 ==> s[j].id != last
    ensures s[k2 := Entry(pos, id)] == Relabeled(s, id, last)
  {
  }

  /**
   * The body of `clear_vertex` once entry k (vertex v) is found: erase the
   * entry; unless the agent is the last record, copy the last record into
   * its slot and re-point the last record's entry; drop the last record.
   */
  function RemoveEntry(w: World, k: nat): (r: World)
    requires Valid(w) && k < |w.index|
    ensures |r.agents| == |w.agents| - 1 && r.n == w.n
    ensures r.index == Relabeled(RemoveAt(w.index, k), w.index[k].id, |w.agents| - 1)
    ensures forall a :: 0 <= a < |r.agents| ==>
              r.agents[a] == w.agents[if a == w.index[k].id then |w.agents| - 1 else a]
  {
    World(MoveLastInto(w.agents, w.index[k].id), EraseEntry(w.agents, w.index, k), w.n)
  }

  /** The index once entry k is erased and the last record's entry re-pointed to slot id. */
  function EraseEntry(agents: seq<Agent>, index: seq<Entry>, k: nat): (r: seq<Entry>)
    requires Sorted(index) && Linked(agents, index) && Homed(agents, index) && k < |index|
    ensures r == Relabeled(RemoveAt(index, k), index[k].id, |agents| - 1)
  {
    var id := index[k].id;
    var last := |agents| - 1;
    var index1 := RemoveAt(index, k);
    if id != last then
      var pos := agents[last].pos;
      LastEntry(agents, index, k);
      var k2 := LowerBound(index1, pos);
      RepointIsRelabel(index1, k2, pos, id, last);
      index1[k2 := Entry(pos, id)]
    else
      assert index1 == Relabeled(index1, id, last);
      index1
  }

  /** The agent records once the last one has been copied into slot id and dropped. */
  function MoveLastInto(agents: seq<Agent>, id: nat): (r: seq<Agent>)
    requires id < |agents|
    ensures |r| == |agents| - 1
    ensures forall a :: 0 <= a < |r| ==> r[a] == agents[if a == id then |agents| - 1 else a]
  {
    var last := |agents| - 1;
    if id == last then agents[..last] else agents[id := agents[last]][..last]
  }

  lemma RemoveValid(w: World, k: nat, r: World)
    requires Valid(w) && k < |w.index|
    requires |r.agents| == |w.agents| - 1
    requires r.index == Relabeled(RemoveAt(w.index, k), w.index[k].id, |w.agents| - 1)
    requires forall a :: 0 <= a < |r.agents| ==>
               r.agents[a] == w.agents[if a == w.index[k].id then |w.agents| - 1 else a]
    ensures Valid(r)
  {
    EraseSorted(w.index, k);
    var s := RemoveAt(w.index, k);
    assert Sorted(r.index) by {
      forall i, j | 0 <= i < j < |r.index| ensures r.index[i].vertex < r.index[j].vertex {
        assert r.index[i].vertex == s[i].vertex && r.index[j].vertex == s[j].vertex;
      }
    }
    RemoveLinked(w.agents, w.index, k, r.agents, r.index);
    RemoveHomed(w.agents, w.index, k, r.agents, r.index);
  }

  lemma RemoveLinked(agents: seq<Agent>, index: seq<Entry>, k: nat, ra: seq<Agent>, ri: seq<Entry>)
    requires Sorted(index) && Linked(agents, index) && k < |index|
    requires |ra| == |agents| - 1
    requires ri == Relabeled(RemoveAt(index, k), index[k].id, |agents| - 1)
    requires forall a :: 0 <= a < |ra| ==> ra[a] == agents[if a == index[k].id then |agents| - 1 else a]
    ensures Linked(ra, ri)
  {
    var s := RemoveAt(index, k);
    forall j | 0 <= j < |ri| ensures ri[j].id < |ra| && ra[ri[j].id].pos == ri[j].vertex {
      var jj := if j < k then j else j + 1;
      assert s[j] == index[jj];
    }
  }

  lemma RemoveHomed(agents: seq<Agent>, index: seq<Entry>, k: nat, ra: seq<Agent>, ri: seq<Entry>)
    requires Sorted(index) && Linked(agents, index) && Homed(agents, index) && k < |index|
    requires |ra| == |agents| - 1 && Sorted(ri)
    requires ri == Relabeled(RemoveAt(index, k), index[k].id, |agents| - 1)
    requires forall a :: 0 <= a < |ra| ==> ra[a] == agents[if a == index[k].id then |agents| - 1 else a]
    ensures Homed(ra, ri)
  {
    var id, last := index[k].id, |agents| - 1;
    var s := RemoveAt(index, k);
    forall a | 0 <= a < |ra| ensures Home(ri, ra[a].pos, a) {
      var b := if a == id then last else a;
      var pos := agents[b].pos;
      assert Home(index, pos, b);
      var p := LowerBound(index, pos);
      assert p != k;
      var p' := if p < k then p else p - 1;
      assert s[p'] == index[p];
      assert ri[p'] == Entry(pos, a);
      LowerBoundAt(ri, p');
    }
  }

  /** r is w with entry k erased and the last record moved into the freed slot, as `clear_vertex` leaves it. */
  ghost predicate Removed(w: World, k: nat, r: World)
    requires k < |w.index|
  {
    && |r.agents| == |w.agents| - 1
    && r.index == Relabeled(RemoveAt(w.index, k), w.index[k].id, |w.agents| - 1)
    && forall a :: 0 <= a < |r.agents| ==>
         r.agents[a] == w.agents[if a == w.index[k].id then |w.agents| - 1 else a]
  }

  lemma RemoveLookup(w: World, k: nat, r: World, u: u32)
    requires Valid(w) && k < |w.index| && Valid(r) && Removed(w, k, r)
    ensures Lookup(r, u) == if u == w.index[k].vertex then None else Lookup(w, u)
  {
    if Occupied(w, u) && u != w.index[k].vertex {
      RemoveLookupOther(w, k, r, u);
    } else {
      RemoveLookupGone(w, k, r, u);
    }
  }

  lemma RemoveLookupOther(w: World, k: nat, r: World, u: u32)
    requires Valid(w) && k < |w.index| && Valid(r) && Removed(w, k, r)
    requires Occupied(w, u) && u != w.index[k].vertex
    ensures Lookup(r, u) == Lookup(w, u)
  {
    var s := RemoveAt(w.index, k);
    var p := LowerBound(w.index, u);
    var p' := if p < k then p else p - 1;
    assert s[p'] == w.index[p];
    EntryLookup(r, p');
    EntryLookup(w, p);
  }

  lemma RemoveLookupGone(w: World, k: nat, r: World, u: u32)
    requires Valid(w) && k < |w.index| && Valid(r) && Removed(w, k, r)
    requires u == w.index[k].vertex || !Occupied(w, u)
    ensures Lookup(r, u).None?
  {
    forall j | 0 <= j < |r.index| ensures r.index[j].vertex != u {
      var jj := if j < k then j else j + 1;
      assert r.index[j].vertex == w.index[jj].vertex;
    }
  }

  /** `clear_vertex(v)`: v becomes empty, every other vertex keeps its agent, and the records stay compact. */
  function ClearVertex(w: World, v: u32): (r: World)
    requires Valid(w)
    ensures Valid(r)
    ensures !Occupied(w, v) ==> r == w
    ensures forall u: u32 :: Lookup(r, u) == if u == v then None else Lookup(w, u)
    ensures NumAgents(r) == NumAgents(w) - (if Occupied(w, v) then 1 else 0)
  {
    var k := LowerBound(w.index, v);
    if !Occupied(w, v) then w
    else
      var r := RemoveEntry(w, k);
      RemoveValid(w, k, r);
      assert forall u: u32 :: Lookup(r, u) == if u == v then None else Lookup(w, u) by {
        forall u: u32 ensures Lookup(r, u) == if u == v then None else Lookup(w, u) {
          RemoveLookup(w, k, r, u);
        }
      }
      r
  }

  // ---------------------------------------------------------------------- move

  /**
   * `move(src, dst)`: erase src's entry, set the agent's position to dst,
   * and insert (dst, id) at dst's lower bound.  The source requires src to
   * be occupied and dst to be empty; dst == src is harmless.
   */
  function Move(w: World, src: u32, dst: u32): (r: World)
    requires Valid(w) && Occupied(w, src) && (dst == src || !Occupied(w, dst))
    ensures Valid(r)
    ensures Lookup(r, dst) == Lookup(w, src)
    ensures src != dst ==> Lookup(r, src).None?
    ensures forall u: u32 :: u != src && u != dst ==> Lookup(r, u) == Lookup(w, u)
    ensures NumAgents(r) == NumAgents(w)
  {
    var k := LowerBound(w.index, src);
    var id := w.index[k].id;
    var index1 := RemoveAt(w.index, k);
    var agents1 := w.agents[id := Agent(dst, w.agents[id].kind)];
    var k2 := LowerBound(index1, dst);
    var r := World(agents1, InsertAt(index1, k2, Entry(dst, id)), w.n);
    MoveValid(w, src, dst, r);
    assert forall u: u32 :: Lookup(r, u) == if u == dst then Lookup(w, src) else if u == src then None else Lookup(w, u) by {
      forall u: u32 ensures Lookup(r, u) == if u == dst then Lookup(w, src) else if u == src then None else Lookup(w, u) {
        MoveLookup(w, src, dst, r, u);
      }
    }
    r
  }

  /** dst has no entry once src's entry is erased. */
  lemma DstFree(w: World, src: u32, dst: u32)
    requires Valid(w) && Occupied(w, src) && (dst == src || !Occupied(w, dst))
    ensures var s := RemoveAt(w.index, LowerBound(w.index, src));
            Sorted(s) && forall j :: 0 <= j < |s| ==> s[j].vertex != dst
  {
    var k := LowerBound(w.index, src);
    var s := RemoveAt(w.index, k);
    EraseSorted(w.index, k);
    forall j | 0 <= j < |s| ensures s[j].vertex != dst {
      assert s[j] == w.index[if j < k then j else j + 1];
    }
  }

  lemma MoveValid(w: World, src: u32, dst: u32, r: World)
    requires Valid(w) && Occupied(w, src) && (dst == src || !Occupied(w, dst))
    requires Relocated(w, src, dst, r)
    ensures Valid(r)
  {
    var k := LowerBound(w.index, src);
    var id := w.index[k].id;
    var s := RemoveAt(w.index, k);
    var k2 := LowerBound(s, dst);
    var x := Agent(dst, w.agents[id].kind);
    assert r.agents == w.agents[id := x] && r.index == InsertAt(s, k2, Entry(x.pos, id));
    assert Sorted(r.index) by {
      DstFree(w, src, dst);
      InsertSorted(s, Entry(dst, id));
    }
    assert Linked(r.agents, r.index) by {
      forall j | 0 <= j < |w.index| && j != k ensures w.index[j].id != id {
        IdsDistinct(w.agents, w.index, j, k);
      }
      MoveLinked(w.agents, w.index, k, k2, x, r.agents, r.index);
    }
    MoveHomed(w.agents, w.index, k, dst, r.agents, r.index);
  }

  lemma MoveLinked(agents: seq<Agent>, index: seq<Entry>, k: nat, k2: nat, x: Agent, ra: seq<Agent>, ri: seq<Entry>)
    requires Linked(agents, index) && k < |index| && k2 < |index|
    requires forall j :: 0 <= j < |index| && j != k ==> index[j].id != index[k].id
    requires ra == agents[index[k].id := x]
    requires ri == InsertAt(RemoveAt(index, k), k2, Entry(x.pos, index[k].id))
    ensures Linked(ra, ri)
  {
    var s := RemoveAt(index, k);
    forall j | 0 <= j < |ri| ensures ri[j].id < |ra| && ra[ri[j].id].pos == ri[j].vertex {
      if j != k2 {
        var j1 := if j < k2 then j else j - 1;
        var jj := if j1 < k then j1 else j1 + 1;
        assert ri[j] == s[j1] == index[jj];
      }
    }
  }

  lemma MoveHomed(agents: seq<Agent>, index: seq<Entry>, k: nat, dst: u32, ra: seq<Agent>, ri: seq<Entry>)
    requires Sorted(index) && Linked(agents, index) && Homed(agents, index) && k < |index| && Sorted(ri)
    requires var id, s := index[k].id, RemoveAt(index, k);
             && ra == agents[id := Agent(dst, agents[id].kind)]
             && ri == InsertAt(s, LowerBound(s, dst), Entry(dst, id))
    ensures Homed(ra, ri)
  {
    var id, s := index[k].id, RemoveAt(index, k);
    var k2 := LowerBound(s, dst);
    forall a | 0 <= a < |ra| ensures Home(ri, ra[a].pos, a) {
      if a == id {
        LowerBoundAt(ri, k2);
      } else {
        assert Home(index, agents[a].pos, a);
        ShiftedHome(index, k, k2, Entry(dst, id), ri, agents[a].pos, a);
      }
    }
  }

  /** Where entry p lands once entry k is erased and a new entry is inserted at k2 of the erased index. */
  function Shifted(p: nat, k: nat, k2: nat): nat
    requires p != k
  {
    var p1 := if p < k then p else p - 1;
    if p1 < k2 then p1 else p1 + 1
  }

  /** An entry other than k keeps its contents at its shifted slot, and lower_bound finds it there. */
  lemma ShiftedSlot(index: seq<Entry>, k: nat, k2: nat, e: Entry, ri: seq<Entry>, p: nat)
    requires k < |index| && k2 < |index| && p < |index| && p != k && Sorted(ri)
    requires ri == InsertAt(RemoveAt(index, k), k2, e)
    ensures Shifted(p, k, k2) < |ri| && ri[Shifted(p, k, k2)] == index[p]
    ensures LowerBound(ri, index[p].vertex) == Shifted(p, k, k2)
  {
    var s := RemoveAt(index, k);
    var p1 := if p < k then p else p - 1;
    assert s[p1] == index[p];
    assert ri[Shifted(p, k, k2)] == s[p1];
    LowerBoundAt(ri, Shifted(p, k, k2));
  }

  /** An entry other than k keeps its home once k is erased and another entry inserted. */
  lemma ShiftedHome(index: seq<Entry>, k: nat, k2: nat, e: Entry, ri: seq<Entry>, pos: u32, a: u32)
    requires k < |index| && k2 < |index| && Home(index, pos, a) && index[k].id != a && Sorted(ri)
    requires ri == InsertAt(RemoveAt(index, k), k2, e)
    ensures Home(ri, pos, a)
  {
    ShiftedSlot(index, k, k2, e, ri, LowerBound(index, pos));
  }

  /** A vertex held by no entry but k, other than the inserted one, has no entry afterwards. */
  lemma Untouched(index: seq<Entry>, k: nat, k2: nat, e: Entry, ri: seq<Entry>, u: u32)
    requires k < |index| && k2 < |index| && u != e.vertex
    requires forall j :: 0 <= j < |index| && j != k ==> index[j].vertex != u
    requires ri == InsertAt(RemoveAt(index, k), k2, e)
    ensures forall j :: 0 <= j < |ri| ==> ri[j].vertex != u
  {
    var s := RemoveAt(index, k);
    forall j | 0 <= j < |ri| ensures ri[j].vertex != u {
      if j != k2 {
        var j1 := if j < k2 then j else j - 1;
        assert ri[j] == s[j1] == index[if j1 < k then j1 else j1 + 1];
      }
    }
  }

  /** r is w with src's agent relocated to dst, as the body of `move` builds it. */
  ghost predicate Relocated(w: World, src: u32, dst: u32, r: World)
    requires Valid(w) && Occupied(w, src)
  {
    var k := LowerBound(w.index, src);
    var id := w.index[k].id;
    var s := RemoveAt(w.index, k);
    r == World(w.agents[id := Agent(dst, w.agents[id].kind)],
               InsertAt(s, LowerBound(s, dst), Entry(dst, id)), w.n)
  }

  lemma MoveLookup(w: World, src: u32, dst: u32, r: World, u: u32)
    requires Valid(w) && Occupied(w, src) && (dst == src || !Occupied(w, dst)) && Valid(r)
    requires Relocated(w, src, dst, r)
    ensures Lookup(r, u) == if u == dst then Lookup(w, src) else if u == src then None else Lookup(w, u)
  {
    if u == dst {
      MoveLookupDst(w, src, dst, r);
    } else if Occupied(w, u) && u != src {
      MoveLookupOther(w, src, dst, r, u);
    } else {
      MoveLookupGone(w, src, dst, r, u);
    }
  }

  lemma MoveLookupDst(w: World, src: u32, dst: u32, r: World)
    requires Valid(w) && Occupied(w, src) && Valid(r) && Relocated(w, src, dst, r)
    ensures Lookup(r, dst) == Lookup(w, src)
  {
    var k := LowerBound(w.index, src);
    var k2 := LowerBound(RemoveAt(w.index, k), dst);
    EntryLookup(r, k2);
    EntryLookup(w, k);
  }

  lemma MoveLookupOther(w: World, src: u32, dst: u32, r: World, u: u32)
    requires Valid(w) && Occupied(w, src) && Valid(r) && Relocated(w, src, dst, r)
    requires Occupied(w, u) && u != src && u != dst
    ensures Lookup(r, u) == Lookup(w, u)
  {
    var k := LowerBound(w.index, src);
    var p := LowerBound(w.index, u);
    var k2 := LowerBound(RemoveAt(w.index, k), dst);
    ShiftedSlot(w.index, k, k2, Entry(dst, w.index[k].id), r.index, p);
    EntryLookup(r, Shifted(p, k, k2));
    EntryLookup(w, p);
  }

  lemma MoveLookupGone(w: World, src: u32, dst: u32, r: World, u: u32)
    requires Valid(w) && Occupied(w, src) && Valid(r) && Relocated(w, src, dst, r)
    requires u != dst && (u == src || !Occupied(w, u))
    ensures Lookup(r, u).None?
  {
    var k := LowerBound(w.index, src);
    assert forall j :: 0 <= j < |w.index| && j != k ==> w.index[j].vertex != u;
    Untouched(w.index, k, LowerBound(RemoveAt(w.index, k), dst), Entry(dst, w.index[k].id), r.index, u);
  }

  // ------------------------------------------------------------ for_each_agent

  /** `for_each_agent(f)`: the (vertex, type) pairs f is called with, in order. */
  method ForEachAgent(w: World) returns (visits: seq<(u32, u32)>)
    requires Valid(w)
    ensures |visits| == NumAgents(w)
    ensures forall i, j :: 0 <= i < j < |visits| ==> visits[i].0 < visits[j].0
    ensures forall i :: 0 <= i < |visits| ==> Lookup(w, visits[i].0) == Some(visits[i].1)
    ensures forall u: u32 :: Occupied(w, u) ==> exists i :: 0 <= i < |visits| && visits[i].0 == u
  {
    visits := [];
    for k := 0 to |w.index|
      invariant |visits| == k
      invariant forall i :: 0 <= i < k ==> visits[i] == (w.index[i].vertex, w.agents[w.index[i].id].kind)
    {
      var e := w.index[k];
      visits := visits + [(e.vertex, w.agents[e.id].kind)];
    }
    forall i | 0 <= i < |visits| ensures Lookup(w, visits[i].0) == Some(visits[i].1) {
      EntryLookup(w, i);
    }
    forall u: u32 | Occupied(w, u) ensures exists i :: 0 <= i < |visits| && visits[i].0 == u {
      var p := LowerBound(w.index, u);
      assert visits[p].0 == u;
    }
  }
}
