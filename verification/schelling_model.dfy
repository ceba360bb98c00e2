/**
 * The Python model object (Python_Version/modelJ.py): building the initial
 * population on a graph and one step of the dynamics.
 *
 * Density, minority share and homophily are exact rationals.  Random choices
 * are draws: `placeDraws(k)` is the k-th `random.choice` during placement,
 * reduced modulo the length of the list it picks from, and `shuffleDraws`
 * drives the random order in which the initial count visits the agents.
 */
module SchellingModel {
  import opened Basics
  import opened Topology
  import opened SchellingAgent

  /** Python's `round`: nearest integer to num/den, ties to the even neighbour. */
  function RoundHalfEven(num: int, den: Pos): (r: int)
    ensures -(den as int) <= 2 * (r * den - num) <= den
    ensures 2 * (r * den - num) == den || 2 * (r * den - num) == -(den as int) ==> r % 2 == 0
  {
    var q := num / den;
    var rem := num % den;
    DivRem(num, den);
    assert (q + 1) * den == q * den + den;
    if 2 * rem < den then q
    else if 2 * rem > den then q + 1
    else if q % 2 == 0 then q
    else q + 1
  }

  /** `n < total_agents` with total_agents = a/b is `n < ceil(a/b)` for whole n. */
  lemma BelowTotalIffBelowCeil(n: int, a: int, b: Pos)
    ensures n * b < a <==> n < CeilDiv(a, b)
  {
    BelowCeil(n, a, b);
  }

  /** The model right after construction: all nodes empty and listed in node order. */
  function Fresh(adj: Adjacency, homophily: Frac): (m: Model)
    ensures m.nAgents == 0 && m.empty == Range(0, |adj|)
  {
    Model(adj, seq(|adj|, _ => None), [], [], [], Range(0, |adj|), [], 0, 0, 0, homophily)
  }

  /** The state between placement and the initial count. */
  ghost predicate Placed(m: Model) {
    && Placement(m) && EmptyList(m)
    && |m.empty| + m.nAgents == |m.grid|
    && (forall j :: 0 <= j < m.nAgents ==> !m.happyFlag[j])
    && m.unhappyList == [] && m.happy == 0
  }

  lemma FreshPlaced(adj: Adjacency, homophily: Frac)
    requires WellFormed(adj)
    ensures Placed(Fresh(adj, homophily))
  {
    RangeNoDup(0, |adj|);
    var m := Fresh(adj, homophily);
    forall v | 0 <= v < |m.grid| ensures v in m.empty {
      assert m.empty[v] == v;
    }
  }

  /** One placement: a new agent of the given type on the drawn empty node. */
  function PlaceOne(m: Model, kind: bool, d: nat): (r: Result<Model>)
    ensures r.Raised? <==> |m.empty| == 0
    ensures r.Ok? ==> r.value.nAgents == m.nAgents + 1 && r.value.kinds == m.kinds + [kind]
  {
    if |m.empty| == 0 then Raised(IndexError)
    else
      var node := m.empty[d % |m.empty|];
      var grid := if node < |m.grid| then m.grid[node := Some(m.nAgents)] else m.grid;
      Ok(m.(grid := grid, kinds := m.kinds + [kind], pos := m.pos + [node],
            happyFlag := m.happyFlag + [false], empty := RemoveFirst(m.empty, node).value,
            nAgents := m.nAgents + 1))
  }

  lemma PlaceOneKeepsPlaced(m: Model, kind: bool, d: nat)
    requires Placed(m) && |m.empty| > 0
    ensures Placed(PlaceOne(m, kind, d).value)
    ensures PlaceOne(m, kind, d).value.adj == m.adj && PlaceOne(m, kind, d).value.homophily == m.homophily
  {
    var node := m.empty[d % |m.empty|];
    PlaceOneShape(m, kind, d);
    var r := PlaceOne(m, kind, d).value;
    assert Placement(r) by {
      forall j | 0 <= j < r.nAgents ensures r.pos[j] < |r.grid| && r.grid[r.pos[j]] == Some(j) {
        if j < m.nAgents { assert m.grid[m.pos[j]] == Some(j); }
      }
    }
    assert EmptyList(r);
  }

  lemma PlaceOneShape(m: Model, kind: bool, d: nat)
    requires Placed(m) && |m.empty| > 0
    ensures var node := m.empty[d % |m.empty|];
            var r := PlaceOne(m, kind, d).value;
            && node < |m.grid| && m.grid[node].None?
            && r.grid == m.grid[node := Some(m.nAgents)]
            && r.pos == m.pos + [node] && r.happyFlag == m.happyFlag + [false]
            && r.unhappyList == [] && r.happy == 0 && r.adj == m.adj
            && NoDup(r.empty) && |r.empty| == |m.empty| - 1
            && forall x :: x in r.empty <==> x in m.empty && x != node
  {
    var node := m.empty[d % |m.empty|];
    RemoveFirstNoDup(m.empty, node);
  }

  /**
   * One of the two placement loops: agents of one type are added while the
   * agent count is below the target.  Returns the model and the next draw index.
   */
  function Fill(m: Model, kind: bool, target: int, draws: nat -> nat, k: nat): (r: Result<(Model, nat)>)
    decreases target - m.nAgents
  {
    if m.nAgents >= target then Ok((m, k))
    else match PlaceOne(m, kind, draws(k))
      case Raised(e) => Raised(e)
      case Ok(m1) => Fill(m1, kind, target, draws, k + 1)
  }

  /** A loop fills up to max(n, target) agents, failing exactly when that exceeds the node count. */
  lemma {:induction false} FillEffect(m: Model, kind: bool, target: int, draws: nat -> nat, k: nat)
    requires Placed(m)
    ensures Fill(m, kind, target, draws, k).Ok? <==> Max(m.nAgents, target) <= |m.grid|
    ensures var r := Fill(m, kind, target, draws, k);
            r.Ok? ==> && Placed(r.value.0) && r.value.0.adj == m.adj
                      && r.value.0.homophily == m.homophily
                      && r.value.0.nAgents == Max(m.nAgents, target)
                      && r.value.0.kinds == m.kinds + seq(Max(m.nAgents, target) - m.nAgents, _ => kind)
    decreases target - m.nAgents
  {
    if m.nAgents < target && |m.empty| > 0 {
      PlaceOneKeepsPlaced(m, kind, draws(k));
      var m1 := PlaceOne(m, kind, draws(k)).value;
      FillEffect(m1, kind, target, draws, k + 1);
      var n := Max(m.nAgents, target) - m.nAgents;
      assert m1.kinds + seq(n - 1, _ => kind) == m.kinds + seq(n, _ => kind);
    }
  }

  /** `random.shuffle` as repeated draws: pick one of the remaining ids, then shuffle the rest. */
  function Shuffle(s: seq<nat>, draws: nat -> nat, k: nat): (r: seq<nat>)
    ensures |r| == |s|
    ensures forall x :: x in r <==> x in s
    ensures NoDup(s) ==> NoDup(r)
    decreases |s|
  {
    if |s| == 0 then []
    else
      var i := draws(k) % |s|;
      RemoveAtMembers(s, i);
      var rest := Shuffle(RemoveAt(s, i), draws, k + 1);
      assert NoDup(s) ==> s[i] !in rest;
      [s[i]] + rest
  }

  /** `count`: a happy verdict raises the counter, an unhappy one appends to the list. */
  function Count(m: Model, j: nat): (r: Model)
    requires AgentIn(m, j)
    ensures SameWorld(m, r) && r.happyFlag == m.happyFlag[j := Verdict(m, j)]
    ensures r.happy + |r.unhappyList| == m.happy + |m.unhappyList| + 1
  {
    if Verdict(m, j) then m.(happyFlag := m.happyFlag[j := true], happy := m.happy + 1)
    else m.(happyFlag := m.happyFlag[j := false], unhappyList := m.unhappyList + [j])
  }

  function CountAll(m: Model, order: seq<nat>): (r: Model)
    requires forall k :: 0 <= k < |order| ==> AgentIn(m, order[k])
    ensures SameWorld(m, r)
    decreases |order|
  {
    if |order| == 0 then m
    else
      var m1 := Count(m, order[0]);
      assert forall k :: 0 <= k < |order| ==> AgentIn(m1, order[k]) by {
        forall k | 0 <= k < |order| ensures AgentIn(m1, order[k]) {
          assert AgentIn(m, order[k]);
        }
      }
      CountAll(m1, order[1..])
  }

  /** Counting progress: agents still pending are unflagged and unlisted; the rest are exact. */
  ghost predicate CountingInv(m: Model, pending: seq<nat>) {
    && Placement(m) && NoDup(pending) && NoDup(m.unhappyList)
    && (forall k :: 0 <= k < |pending| ==> pending[k] < m.nAgents)
    && (forall j :: j in pending ==> j < m.nAgents && !m.happyFlag[j])
    && (forall j :: j in m.unhappyList ==> j < m.nAgents && !m.happyFlag[j] && j !in pending)
    && (forall j :: 0 <= j < m.nAgents && !m.happyFlag[j] && j !in pending ==> j in m.unhappyList)
    && (forall j :: 0 <= j < m.nAgents && j !in pending ==> m.happyFlag[j] == Verdict(m, j))
    && m.happy == CountTrue(m.happyFlag)
    && m.happy + |m.unhappyList| + |pending| == m.nAgents
  }

  lemma {:induction false} CountAllEffect(m: Model, pending: seq<nat>)
    requires CountingInv(m, pending)
    ensures CountingInv(CountAll(m, pending), [])
    decreases |pending|
  {
    if |pending| > 0 {
      CountStep(m, pending);
      CountAllEffect(Count(m, pending[0]), pending[1..]);
    }
  }

  /** Counting the next pending agent makes it exact and keeps the progress invariant. */
  lemma CountStep(m: Model, pending: seq<nat>)
    requires CountingInv(m, pending) && |pending| > 0
    ensures AgentIn(m, pending[0]) && CountingInv(Count(m, pending[0]), pending[1..])
  {
    assert pending[0] in pending;
    CountStepPending(m, pending);
    CountStepList(m, pending);
    CountStepFlags(m, pending);
  }

  /** The agents still pending after the step: distinct, agents, flagged unhappy. */
  lemma CountStepPending(m: Model, pending: seq<nat>)
    requires CountingInv(m, pending) && |pending| > 0
    ensures var j, rest := pending[0], pending[1..];
            && j < m.nAgents && NoDup(rest) && j !in rest
            && (forall x :: x in pending <==> x == j || x in rest)
            && (forall x :: x in rest ==> x < m.nAgents && !Count(m, j).happyFlag[x])
  {
    var j, rest := pending[0], pending[1..];
    assert j in pending;
    assert pending == [j] + rest;
    forall x | x in rest ensures x < m.nAgents && !Count(m, j).happyFlag[x] {
      assert x in pending && x != j;
    }
  }

  /** The unhappy list after the step: distinct, and exactly the unhappy agents no longer pending. */
  lemma CountStepList(m: Model, pending: seq<nat>)
    requires CountingInv(m, pending) && |pending| > 0
    ensures var j, rest := pending[0], pending[1..];
            var m1 := (assert j in pending; Count(m, j));
            && NoDup(m1.unhappyList)
            && (forall x :: x in m1.unhappyList ==> x < m.nAgents && !m1.happyFlag[x] && x !in rest)
            && (forall x :: 0 <= x < m.nAgents && !m1.happyFlag[x] && x !in rest ==> x in m1.unhappyList)
  {
    var j, rest := pending[0], pending[1..];
    CountStepPending(m, pending);
    var m1 := Count(m, j);
    if !Verdict(m, j) { NoDupAppend(m.unhappyList, j); }
    forall x | x in m1.unhappyList ensures x < m.nAgents && !m1.happyFlag[x] && x !in rest {
      assert x in m.unhappyList || x == j;
    }
    forall x | 0 <= x < m.nAgents && !m1.happyFlag[x] && x !in rest ensures x in m1.unhappyList {
      if x != j { assert x !in pending; }
    }
  }

  /** The flags after the step: exact off the pending list, and the happy counter matches them. */
  lemma CountStepFlags(m: Model, pending: seq<nat>)
    requires CountingInv(m, pending) && |pending| > 0
    ensures var j, rest := pending[0], pending[1..];
            var m1 := (assert j in pending; Count(m, j));
            && (forall x :: 0 <= x < m.nAgents && x !in rest ==> m1.happyFlag[x] == Verdict(m1, x))
            && m1.happy == CountTrue(m1.happyFlag)
  {
    var j, rest := pending[0], pending[1..];
    CountStepPending(m, pending);
    var m1 := Count(m, j);
    forall x | 0 <= x < m.nAgents && x !in rest ensures m1.happyFlag[x] == Verdict(m1, x) {
      assert Verdict(m1, x) == Verdict(m, x);
    }
    CountTrueUpdate(m.happyFlag, j, Verdict(m, j));
  }

  /**
   * The placement half of `Schelling.__init__`: every node starts empty;
   * round(total*minority_pc) agents of type 0 are placed first, then type-1
   * agents while the count is below total = density*N.  A draw from an
   * exhausted empty list raises IndexError.
   */
  function Populate(adj: Adjacency, density: Frac, minority: Frac, homophily: Frac,
                    placeDraws: nat -> nat): (r: Result<Model>)
  {
    var n := |adj|;
    PlaceTwoKinds(Fresh(adj, homophily), Agents0(n, density, minority), CeilDiv(density.num * n, density.den), placeDraws)
  }

  /** round(total_agents * minority_pc) with total_agents = density * n. */
  function Agents0(n: nat, density: Frac, minority: Frac): int
  {
    RoundHalfEven(density.num * n * minority.num, density.den * minority.den)
  }

  /** The two placement loops with targets agents0 and total. */
  function PlaceTwoKinds(m: Model, agents0: int, total: int, draws: nat -> nat): (r: Result<Model>)
  {
    match Fill(m, false, agents0, draws, 0)
    case Raised(e) => Raised(e)
    case Ok((m1, k)) =>
      match Fill(m1, true, total, draws, k)
      case Raised(e) => Raised(e)
      case Ok((m2, _)) => Ok(m2)
  }

  /** The number of agents `__init__` creates: the larger of the two loop targets. */
  function Population(n: nat, density: Frac, minority: Frac): nat
  {
    Max(0, Max(Agents0(n, density, minority), CeilDiv(density.num * n, density.den)))
  }

  lemma PlaceTwoKindsEffect(m: Model, agents0: int, total: int, draws: nat -> nat)
    requires Placed(m) && m.nAgents == 0
    ensures PlaceTwoKinds(m, agents0, total, draws).Ok? <==> Max(0, Max(agents0, total)) <= |m.grid|
    ensures var r := PlaceTwoKinds(m, agents0, total, draws);
            r.Ok? ==> && Placed(r.value)
                      && r.value.adj == m.adj && r.value.homophily == m.homophily
                      && r.value.nAgents == Max(0, Max(agents0, total))
                      && forall j :: 0 <= j < r.value.nAgents ==> (r.value.kinds[j] <==> j >= agents0)
  {
    FillEffect(m, false, agents0, draws, 0);
    var f1 := Fill(m, false, agents0, draws, 0);
    if f1.Ok? {
      SecondFill(m, f1.value.0, f1.value.1, agents0, total, draws);
    }
  }

  lemma SecondFill(m: Model, m1: Model, k: nat, agents0: int, total: int, draws: nat -> nat)
    requires Placed(m1) && m1.nAgents == Max(0, agents0) && m1.kinds == seq(Max(0, agents0), _ => false)
    requires m1.adj == m.adj && m1.homophily == m.homophily && |m1.grid| == |m.grid|
    requires Fill(m, false, agents0, draws, 0) == Ok((m1, k))
    ensures PlaceTwoKinds(m, agents0, total, draws).Ok? <==> Max(0, Max(agents0, total)) <= |m.grid|
    ensures var r := PlaceTwoKinds(m, agents0, total, draws);
            r.Ok? ==> && Placed(r.value)
                      && r.value.adj == m.adj && r.value.homophily == m.homophily
                      && r.value.nAgents == Max(0, Max(agents0, total))
                      && forall j :: 0 <= j < r.value.nAgents ==> (r.value.kinds[j] <==> j >= agents0)
  {
    FillEffect(m1, true, total, draws, k);
    var f2 := Fill(m1, true, total, draws, k);
    assert PlaceTwoKinds(m, agents0, total, draws) == (if f2.Ok? then Ok(f2.value.0) else Raised(f2.error));
    if f2.Ok? {
      KindsLayout(f2.value.0.kinds, Max(0, agents0), agents0, f2.value.0.nAgents);
    }
  }

  lemma KindsLayout(kinds: seq<bool>, a: nat, agents0: int, n: nat)
    requires a == Max(0, agents0) && a <= n
    requires kinds == seq(a, _ => false) + seq(n - a, _ => true)
    ensures forall j :: 0 <= j < n ==> (kinds[j] <==> j >= agents0)
  {
    forall j | 0 <= j < n ensures kinds[j] <==> j >= agents0 {
      if j < a { assert kinds[j] == false; } else { assert kinds[j] == true; }
    }
  }

  /**
   * Placement succeeds exactly when the population fits on the graph; then
   * the first round(...) agents are type 0 and the rest type 1, and `empty`
   * holds the remaining nodes.
   */
  lemma PopulateEffect(adj: Adjacency, density: Frac, minority: Frac, homophily: Frac,
                       placeDraws: nat -> nat)
    requires WellFormed(adj)
    ensures Populate(adj, density, minority, homophily, placeDraws).Ok?
        <==> Population(|adj|, density, minority) <= |adj|
    ensures var r := Populate(adj, density, minority, homophily, placeDraws);
            r.Ok? ==> && Placed(r.value)
                      && r.value.adj == adj && r.value.homophily == homophily
                      && r.value.nAgents == Population(|adj|, density, minority)
                      && forall j :: 0 <= j < r.value.nAgents ==>
                           (r.value.kinds[j] <==> j >= Agents0(|adj|, density, minority))
  {
    FreshPlaced(adj, homophily);
    PlaceTwoKindsEffect(Fresh(adj, homophily), Agents0(|adj|, density, minority),
                        CeilDiv(density.num * |adj|, density.den), placeDraws);
  }

  /** The counting half of `__init__`: every agent is counted once, in shuffled order. */
  function InitialCount(m: Model, shuffleDraws: nat -> nat): (r: Model)
    requires Placed(m)
    ensures SameWorld(m, r)
  {
    var order := Shuffle(Range(0, m.nAgents), shuffleDraws, 0);
    assert forall k :: 0 <= k < |order| ==> AgentIn(m, order[k]) by {
      forall k | 0 <= k < |order| ensures AgentIn(m, order[k]) {
        assert order[k] in Range(0, m.nAgents);
      }
    }
    CountAll(m, order)
  }

  /** After the initial count the model is consistent and every flag exact. */
  lemma InitialCountEffect(m: Model, shuffleDraws: nat -> nat)
    requires Placed(m)
    ensures Inv(InitialCount(m, shuffleDraws)) && FlagsExact(InitialCount(m, shuffleDraws))
  {
    var order := Shuffle(Range(0, m.nAgents), shuffleDraws, 0);
    InitialCounting(m, shuffleDraws);
    CountAllEffect(m, order);
    var r := InitialCount(m, shuffleDraws);
    assert r == CountAll(m, order);
    CountedIsExact(m, r);
  }

  /** Before the initial count every agent is pending and no flag is set. */
  lemma InitialCounting(m: Model, shuffleDraws: nat -> nat)
    requires Placed(m)
    ensures CountingInv(m, Shuffle(Range(0, m.nAgents), shuffleDraws, 0))
  {
    InitialOrder(m.nAgents, shuffleDraws);
    CountTrueAllFalse(m.happyFlag);
  }

  /** A finished count over a placed model leaves it consistent with every flag exact. */
  lemma CountedIsExact(m: Model, r: Model)
    requires Placed(m) && SameWorld(m, r) && CountingInv(r, [])
    ensures Inv(r) && FlagsExact(r)
  {
    assert EmptyList(r) by { assert r.empty == m.empty && r.grid == m.grid; }
  }

  /** The shuffled visiting order lists every agent exactly once. */
  lemma InitialOrder(n: nat, shuffleDraws: nat -> nat)
    ensures var order := Shuffle(Range(0, n), shuffleDraws, 0);
            && NoDup(order) && |order| == n
            && (forall j :: j in order <==> 0 <= j < n)
            && (forall k :: 0 <= k < |order| ==> order[k] < n)
  {
    var order := Shuffle(Range(0, n), shuffleDraws, 0);
    RangeNoDup(0, n);
    forall j | 0 <= j < n ensures j in Range(0, n) {
      assert Range(0, n)[j] == j;
    }
    forall k | 0 <= k < |order| ensures order[k] < n {
      assert order[k] in Range(0, n);
    }
  }

  /** `Schelling.__init__`: placement followed by the initial count. */
  function Init(adj: Adjacency, density: Frac, minority: Frac, homophily: Frac,
                placeDraws: nat -> nat, shuffleDraws: nat -> nat): (r: Result<Model>)
    requires WellFormed(adj)
  {
    match Populate(adj, density, minority, homophily, placeDraws)
    case Raised(e) => Raised(e)
    case Ok(m) =>
      PopulateEffect(adj, density, minority, homophily, placeDraws);
      Ok(InitialCount(m, shuffleDraws))
  }

  /**
   * Construction succeeds exactly when the population fits on the graph; then
   * the model is consistent, every flag is exact, the first round(...) agents
   * are type 0 and the rest type 1, and `empty` holds the remaining nodes.
   */
  lemma InitCorrect(adj: Adjacency, density: Frac, minority: Frac, homophily: Frac,
                    placeDraws: nat -> nat, shuffleDraws: nat -> nat)
    requires WellFormed(adj)
    ensures Init(adj, density, minority, homophily, placeDraws, shuffleDraws).Ok?
        <==> Population(|adj|, density, minority) <= |adj|
    ensures var r := Init(adj, density, minority, homophily, placeDraws, shuffleDraws);
            r.Ok? ==> && Inv(r.value) && FlagsExact(r.value)
                      && r.value.adj == adj && r.value.homophily == homophily
                      && r.value.nAgents == Population(|adj|, density, minority)
                      && |r.value.empty| == |adj| - r.value.nAgents
                      && forall j :: 0 <= j < r.value.nAgents ==>
                           (r.value.kinds[j] <==> j >= Agents0(|adj|, density, minority))
  {
    PopulateEffect(adj, density, minority, homophily, placeDraws);
    var p := Populate(adj, density, minority, homophily, placeDraws);
    if p.Ok? {
      InitialCountEffect(p.value, shuffleDraws);
    }
  }

  datatype StepOutcome = StepOutcome(model: Model, running: bool)

  /**
   * `Schelling.step`: an agent drawn from `unhappy_list` moves, then the model
   * keeps running while some agent is unhappy.  Drawing from an empty list
   * raises IndexError.
   */
  function Step(m: Model, pick: nat, r: nat): (res: Result<StepOutcome>)
    requires Inv(m)
    ensures |m.unhappyList| == 0 ==> res == Raised(IndexError)
  {
    if |m.unhappyList| == 0 then Raised(IndexError)
    else
      var a := m.unhappyList[pick % |m.unhappyList|];
      assert a in m.unhappyList;
      match Move(m, a, r)
      case Raised(e) => Raised(e)
      case Ok(m') => Ok(StepOutcome(m', m'.happy < m'.nAgents))
  }

  /**
   * A step on a consistent, exact model with an unhappy agent and a free node
   * moves that agent, keeps consistency and exact flags, and reports running
   * exactly when some agent is still unhappy by a fresh scan.
   */
  lemma StepCorrect(m: Model, pick: nat, r: nat)
    requires Inv(m) && FlagsExact(m) && |m.unhappyList| > 0 && |m.empty| > 0
    ensures Step(m, pick, r).Ok?
    ensures var s := Step(m, pick, r).value;
            && Inv(s.model) && FlagsExact(s.model)
            && s.model.moves == m.moves + 1 && s.model.nAgents == m.nAgents
            && (s.running <==> exists j :: 0 <= j < s.model.nAgents && !Verdict(s.model, j))
  {
    var a := m.unhappyList[pick % |m.unhappyList|];
    assert a in m.unhappyList;
    MoveKeepsFlagsExact(m, a, r);
    var m' := Move(m, a, r).value;
    if m'.happy < m'.nAgents {
      var j := m'.unhappyList[0];
      assert j in m'.unhappyList;
    } else {
      assert |m'.unhappyList| == 0;
      forall j | 0 <= j < m'.nAgents ensures Verdict(m', j) {
        assert m'.happyFlag[j];
      }
    }
  }
}
