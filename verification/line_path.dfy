/**
 * The padded-bitset path graph `Path<B>` (include/graphs/path.hpp): vertex v
 * neighbours v-1 and v+1, and three bitsets hold occupancy, colour and a
 * cached "is unhappy" bit for every vertex 0..B-1.
 *
 * The bitsets carry two padding slots on each side.  Only the left slot
 * next to vertex 0 (logical index -1) is ever written: `set_sentinel` puts
 * a boundary neighbour there, and the unhappy cache keeps a bit for it that
 * the count ignores.  Every other padding slot reads 0.  Bitsets are
 * `seq<bool>` here.  The program-wide threshold is a parameter.
 */
module LinePath {
  import opened Basics
  import Topology
  import Threshold

  datatype Path = Path(occ: seq<bool>, col: seq<bool>, sentOcc: bool, sentCol: bool,
                       cache: seq<bool>, sentCache: bool)

  /** The three bitsets cover the same B vertices. */
  predicate Sized(p: Path) { |p.occ| == |p.col| == |p.cache| }

  /** Colour bits only where an agent sits (pop clears both, place sets both). */
  predicate Clean(p: Path)
    requires Sized(p)
  {
    (forall i :: 0 <= i < |p.col| && p.col[i] ==> p.occ[i]) && (p.sentCol ==> p.sentOcc)
  }

  /** Occupancy at logical index i: the sentinel at -1, zero padding elsewhere. */
  function Occ(p: Path, i: int): bool
    requires Sized(p)
  {
    if i == -1 then p.sentOcc else 0 <= i < |p.occ| && p.occ[i]
  }

  function Col(p: Path, i: int): bool
    requires Sized(p)
  {
    if i == -1 then p.sentCol else 0 <= i < |p.col| && p.col[i]
  }

  /** The cached bit at logical index i. */
  function CacheAt(p: Path, i: int): bool
    requires Sized(p)
  {
    if i == -1 then p.sentCache else 0 <= i < |p.cache| && p.cache[i]
  }

  predicate DisagreeLeft(p: Path, v: int)
    requires Sized(p)
  {
    Occ(p, v) && Occ(p, v - 1) && Col(p, v) != Col(p, v - 1)
  }

  predicate DisagreeRight(p: Path, v: int)
    requires Sized(p)
  {
    Occ(p, v) && Occ(p, v + 1) && Col(p, v) != Col(p, v + 1)
  }

  /** `local_frustration`: occupied neighbours of the other colour, zero on an empty vertex. */
  function Frustration(p: Path, v: int): (r: nat)
    requires Sized(p)
    ensures r <= 2 && (!Occ(p, v) ==> r == 0)
  {
    Topology.Ind(DisagreeRight(p, v)) + Topology.Ind(DisagreeLeft(p, v))
  }

  /** `neighbors`: occupied vertices among v-1 and v+1. */
  function Neighbors(p: Path, v: int): (r: nat)
    requires Sized(p)
    ensures r <= 2
  {
    Topology.Ind(Occ(p, v - 1)) + Topology.Ind(Occ(p, v + 1))
  }

  /** `is_unhappy(v)`: the threshold rule applied to v's frustration and neighbour count. */
  predicate IsUnhappyAt(p: Path, th: Threshold.Pq, v: int)
    requires Sized(p)
  {
    Threshold.IsUnhappy(th, Frustration(p, v), Neighbors(p, v))
  }

  /** An empty vertex is never unhappy; in particular the right padding slot B never is. */
  lemma EmptyNeverUnhappy(p: Path, th: Threshold.Pq, v: int)
    requires Sized(p) && !Occ(p, v)
    ensures !IsUnhappyAt(p, th, v)
  {
  }

  /** The cache holds the rule's verdict at every slot it keeps, the sentinel slot included. */
  ghost predicate CacheExact(p: Path, th: Threshold.Pq)
    requires Sized(p)
  {
    forall i :: -1 <= i < |p.occ| ==> CacheAt(p, i) == IsUnhappyAt(p, th, i)
  }

  /** Same occupancy and colour everywhere except possibly at logical index x. */
  ghost predicate AgreeExcept(p: Path, q: Path, x: int)
    requires Sized(p) && Sized(q)
  {
    forall i :: i != x ==> Occ(p, i) == Occ(q, i) && Col(p, i) == Col(q, i)
  }

  /** A change at x can only alter the verdicts at x-1, x and x+1. */
  lemma UnhappyLocal(p: Path, q: Path, th: Threshold.Pq, x: int, v: int)
    requires Sized(p) && Sized(q) && AgreeExcept(p, q, x)
    requires v < x - 1 || v > x + 1
    ensures IsUnhappyAt(p, th, v) == IsUnhappyAt(q, th, v)
  {
    assert Occ(p, v) == Occ(q, v) && Col(p, v) == Col(q, v);
    assert Occ(p, v - 1) == Occ(q, v - 1) && Col(p, v - 1) == Col(q, v - 1);
    assert Occ(p, v + 1) == Occ(q, v + 1) && Col(p, v + 1) == Col(q, v + 1);
  }

  /** `unhappy_mask_cache_.set/reset(i)`: writes one cached bit; slots past the kept ones are padding. */
  function WriteCache(p: Path, i: int, b: bool): (r: Path)
    requires Sized(p)
    ensures Sized(r) && r.occ == p.occ && r.col == p.col
    ensures r.sentOcc == p.sentOcc && r.sentCol == p.sentCol
    ensures forall j :: -1 <= j < |p.occ| ==> CacheAt(r, j) == if j == i then b else CacheAt(p, j)
  {
    if i == -1 then p.(sentCache := b)
    else if 0 <= i < |p.cache| then p.(cache := p.cache[i := b])
    else p
  }

  /** `local_unhappy_reset(idx)`: clears the cached bits at idx-1, idx and idx+1. */
  function Reset3(p: Path, idx: int): (r: Path)
    requires Sized(p)
    ensures Sized(r) && r.occ == p.occ && r.col == p.col
    ensures r.sentOcc == p.sentOcc && r.sentCol == p.sentCol
    ensures forall j :: -1 <= j < |p.occ| ==>
              CacheAt(r, j) == if idx - 1 <= j <= idx + 1 then false else CacheAt(p, j)
  {
    WriteCache(WriteCache(WriteCache(p, idx - 1, false), idx, false), idx + 1, false)
  }

  /** `local_unhappy_update(idx)`: sets the cached bit of each of idx-1, idx, idx+1 that is unhappy. */
  function Update3(p: Path, th: Threshold.Pq, idx: int): (r: Path)
    requires Sized(p)
    ensures Sized(r) && r.occ == p.occ && r.col == p.col
    ensures r.sentOcc == p.sentOcc && r.sentCol == p.sentCol
    ensures forall j :: -1 <= j < |p.occ| ==>
              CacheAt(r, j) == if idx - 1 <= j <= idx + 1 then CacheAt(p, j) || IsUnhappyAt(p, th, j)
                               else CacheAt(p, j)
  {
    var p1 := if IsUnhappyAt(p, th, idx - 1) then WriteCache(p, idx - 1, true) else p;
    var p2 := if IsUnhappyAt(p, th, idx) then WriteCache(p1, idx, true) else p1;
    if IsUnhappyAt(p, th, idx + 1) then WriteCache(p2, idx + 1, true) else p2
  }

  /** Verdicts read only occupancy and colour, so a cache write leaves them as they were. */
  lemma SameBitsSameVerdict(p: Path, q: Path, th: Threshold.Pq, v: int)
    requires Sized(p) && Sized(q) && p.occ == q.occ && p.col == q.col
    requires p.sentOcc == q.sentOcc && p.sentCol == q.sentCol
    ensures IsUnhappyAt(p, th, v) == IsUnhappyAt(q, th, v)
  {
    assert Frustration(p, v) == Frustration(q, v) && Neighbors(p, v) == Neighbors(q, v);
  }

  /** Reset, change the bits, update: the window ends up holding the rule's verdict on the new state. */
  lemma RefreshWindow(p: Path, q: Path, th: Threshold.Pq, x: int, idx: int)
    requires Sized(p) && Sized(q) && |q.occ| == |p.occ| && CacheExact(p, th)
    requires AgreeExcept(p, q, x) && (x == idx || (x == -1 && idx == 0))
    requires forall j :: -1 <= j < |p.occ| ==>
               CacheAt(q, j) == if idx - 1 <= j <= idx + 1 then false else CacheAt(p, j)
    ensures CacheExact(Update3(q, th, idx), th)
  {
    var r := Update3(q, th, idx);
    forall j | -1 <= j < |p.occ| ensures CacheAt(r, j) == IsUnhappyAt(r, th, j) {
      RefreshAt(p, q, r, th, x, idx, j);
    }
  }

  lemma RefreshAt(p: Path, q: Path, r: Path, th: Threshold.Pq, x: int, idx: int, j: int)
    requires Sized(p) && Sized(q) && |q.occ| == |p.occ| && -1 <= j < |p.occ|
    requires CacheAt(p, j) == IsUnhappyAt(p, th, j)
    requires AgreeExcept(p, q, x) && (x == idx || (x == -1 && idx == 0))
    requires CacheAt(q, j) == if idx - 1 <= j <= idx + 1 then false else CacheAt(p, j)
    requires r == Update3(q, th, idx)
    ensures CacheAt(r, j) == IsUnhappyAt(r, th, j)
  {
    SameBitsSameVerdict(q, r, th, j);
    if j < idx - 1 || j > idx + 1 {
      UnhappyLocal(p, q, th, x, j);
    }
  }

  /** `pop_agent(from)`: reports the colour, clears both bits at from and refreshes the window. */
  function Pop(p: Path, th: Threshold.Pq, from: nat): (r: (Path, bool))
    requires Sized(p) && from < |p.occ| && p.occ[from]
    ensures Sized(r.0) && r.1 == p.col[from]
    ensures r.0.occ == p.occ[from := false] && r.0.col == p.col[from := false]
    ensures r.0.sentOcc == p.sentOcc && r.0.sentCol == p.sentCol
    ensures forall j :: -1 <= j < |p.occ| && (j < from - 1 || j > from + 1) ==> CacheAt(r.0, j) == CacheAt(p, j)
  {
    var q := Reset3(p, from);
    var q' := q.(occ := q.occ[from := false], col := q.col[from := false]);
    (Update3(q', th, from), p.col[from])
  }

  /** `place_agent(to, c)`: sets the occupancy bit, the colour bit when c, and refreshes the window. */
  function Place(p: Path, th: Threshold.Pq, to: nat, c: bool): (r: Path)
    requires Sized(p) && to < |p.occ| && !p.occ[to]
    ensures Sized(r) && r.occ == p.occ[to := true]
    ensures r.col == p.col[to := c || p.col[to]]
    ensures r.sentOcc == p.sentOcc && r.sentCol == p.sentCol
    ensures forall j :: -1 <= j < |p.occ| && (j < to - 1 || j > to + 1) ==> CacheAt(r, j) == CacheAt(p, j)
  {
    var q := Reset3(p, to);
    var q' := q.(occ := q.occ[to := true], col := if c then q.col[to := true] else q.col);
    Update3(q', th, to)
  }

  /** `set_sentinel(occ, col)`: writes the boundary neighbour at -1 and refreshes the window of vertex 0. */
  function SetSentinel(p: Path, th: Threshold.Pq, occ: bool, col: bool): (r: Path)
    requires Sized(p)
    ensures Sized(r) && r.occ == p.occ && r.col == p.col
    ensures r.sentOcc == occ && r.sentCol == (occ && col)
  {
    var q := Reset3(p, 0);
    var q' := if occ then q.(sentOcc := true, sentCol := col) else q.(sentOcc := false, sentCol := false);
    Update3(q', th, 0)
  }

  /** After a pop the cache is again exactly the rule's verdict everywhere. */
  lemma PopKeepsCacheExact(p: Path, th: Threshold.Pq, from: nat)
    requires Sized(p) && from < |p.occ| && p.occ[from] && CacheExact(p, th)
    ensures CacheExact(Pop(p, th, from).0, th)
  {
    var q := Reset3(p, from);
    var q' := q.(occ := q.occ[from := false], col := q.col[from := false]);
    RefreshWindow(p, q', th, from, from);
  }

  lemma PlaceKeepsCacheExact(p: Path, th: Threshold.Pq, to: nat, c: bool)
    requires Sized(p) && to < |p.occ| && !p.occ[to] && CacheExact(p, th)
    ensures CacheExact(Place(p, th, to, c), th)
  {
    var q := Reset3(p, to);
    var q' := q.(occ := q.occ[to := true], col := if c then q.col[to := true] else q.col);
    RefreshWindow(p, q', th, to, to);
  }

  lemma SetSentinelKeepsCacheExact(p: Path, th: Threshold.Pq, occ: bool, col: bool)
    requires Sized(p) && CacheExact(p, th)
    ensures CacheExact(SetSentinel(p, th, occ, col), th)
  {
    var q := Reset3(p, 0);
    var q' := if occ then q.(sentOcc := true, sentCol := col) else q.(sentOcc := false, sentCol := false);
    RefreshWindow(p, q', th, -1, 0);
  }

  /** Toggling the sentinel changes cached bits only at the sentinel slot and at vertex 0. */
  lemma SetSentinelLocal(p: Path, th: Threshold.Pq, occ: bool, col: bool)
    requires Sized(p) && CacheExact(p, th)
    ensures var r := SetSentinel(p, th, occ, col);
            forall j :: 1 <= j < |p.occ| ==> CacheAt(r, j) == CacheAt(p, j)
  {
    var r := SetSentinel(p, th, occ, col);
    SetSentinelKeepsCacheExact(p, th, occ, col);
    assert AgreeExcept(p, r, -1);
    forall j | 1 <= j < |p.occ| ensures CacheAt(r, j) == CacheAt(p, j) {
      UnhappyLocal(p, r, th, -1, j);
    }
  }

  /** On a clean, exactly cached path, popping an agent and placing it back restores the whole state. */
  lemma PopThenPlace(p: Path, th: Threshold.Pq, from: nat)
    requires Sized(p) && from < |p.occ| && p.occ[from] && Clean(p) && CacheExact(p, th)
    ensures var (q, c) := Pop(p, th, from); Place(q, th, from, c) == p
  {
    var (q, c) := Pop(p, th, from);
    PopKeepsCacheExact(p, th, from);
    var r := Place(q, th, from, c);
    PlaceKeepsCacheExact(q, th, from, c);
    assert r.occ == p.occ && r.col == p.col by {
      RestoreBits(p.occ, p.col, from);
    }
    SameBitsSameCache(p, r, th);
  }

  /** Clearing bit i of both sets and setting it back to what it was restores them. */
  lemma RestoreBits(occ: seq<bool>, col: seq<bool>, i: nat)
    requires i < |occ| == |col| && occ[i]
    ensures occ[i := false][i := true] == occ
    ensures col[i := false][i := col[i] || col[i := false][i]] == col
  {
  }

  /** Two exactly cached paths with the same bits have the same cache. */
  lemma SameBitsSameCache(p: Path, r: Path, th: Threshold.Pq)
    requires Sized(p) && Sized(r) && |r.occ| == |p.occ| && r.occ == p.occ && r.col == p.col
    requires r.sentOcc == p.sentOcc && r.sentCol == p.sentCol
    requires CacheExact(p, th) && CacheExact(r, th)
    ensures r == p
  {
    forall j | 0 <= j < |p.cache| ensures r.cache[j] == p.cache[j] {
      assert CacheAt(r, j) == IsUnhappyAt(r, th, j) && CacheAt(p, j) == IsUnhappyAt(p, th, j);
      UnhappyLocal(p, r, th, |p.occ| + 5, j);
    }
    assert CacheAt(r, -1) == IsUnhappyAt(r, th, -1);
    UnhappyLocal(p, r, th, |p.occ| + 5, -1);
  }

  /** A placed agent has the requested colour on a clean path. */
  lemma PlaceColor(p: Path, th: Threshold.Pq, to: nat, c: bool)
    requires Sized(p) && Clean(p) && to < |p.occ| && !p.occ[to]
    ensures var r := Place(p, th, to, c); Clean(r) && Occ(r, to) && Col(r, to) == c
  {
  }

  lemma PopClean(p: Path, th: Threshold.Pq, from: nat)
    requires Sized(p) && Clean(p) && from < |p.occ| && p.occ[from]
    ensures Clean(Pop(p, th, from).0)
  {
  }

  /** `count_by_color`: empty vertices for no colour; otherwise colour-1 bits, or occupied minus those (64-bit). */
  function CountByColor(p: Path, c: Option<bool>): (r: nat)
    requires Sized(p)
    ensures c == None ==> r + CountTrue(p.occ) == |p.occ|
    ensures c == Some(true) ==> r == CountTrue(p.col)
    ensures c == Some(false) && Clean(p) && |p.occ| < Threshold.U64 ==> r + CountTrue(p.col) == CountTrue(p.occ)
  {
    match c
    case None => |p.occ| - CountTrue(p.occ)
    case Some(b) =>
      if b then CountTrue(p.col)
      else
        CleanCounts(p.occ, p.col);
        (CountTrue(p.occ) - CountTrue(p.col)) % Threshold.U64
  }

  lemma {:induction false} CleanCounts(occ: seq<bool>, col: seq<bool>)
    requires |occ| == |col|
    ensures (forall i :: 0 <= i < |col| && col[i] ==> occ[i]) ==> CountTrue(col) <= CountTrue(occ)
  {
    if |occ| > 0 {
      CleanCounts(occ[1..], col[1..]);
    }
  }

  /** `unhappy_count`: cached bits of the vertices; the sentinel slot is not counted. */
  function UnhappyCount(p: Path): (r: nat)
    requires Sized(p)
    ensures r <= |p.occ|
  {
    CountTrue(p.cache)
  }

  /** The rule's verdict for every vertex, recomputed from scratch. */
  function Verdicts(p: Path, th: Threshold.Pq): (r: seq<bool>)
    requires Sized(p)
    ensures |r| == |p.occ| && forall v :: 0 <= v < |r| ==> r[v] == IsUnhappyAt(p, th, v)
  {
    seq(|p.occ|, v requires 0 <= v < |p.occ| => IsUnhappyAt(p, th, v))
  }

  /** With an exact cache the reported count is the full recount. */
  lemma UnhappyCountIsRecount(p: Path, th: Threshold.Pq)
    requires Sized(p) && CacheExact(p, th)
    ensures UnhappyCount(p) == CountTrue(Verdicts(p, th))
  {
    assert p.cache == Verdicts(p, th) by {
      forall v | 0 <= v < |p.cache| ensures p.cache[v] == Verdicts(p, th)[v] {
        assert CacheAt(p, v) == IsUnhappyAt(p, th, v);
      }
    }
  }

  /** `get_unoccupied`: the (draw mod #empty)-th empty vertex. */
  function GetUnoccupied(p: Path, draw: nat): (v: nat)
    requires Sized(p) && CountTrue(p.occ) < |p.occ|
    ensures v < |p.occ| && !p.occ[v]
  {
    SelectFalse(p.occ, draw % (|p.occ| - CountTrue(p.occ)))
  }

  /** `get_unhappy`: the (draw mod count)-th vertex with a cached unhappy bit. */
  function GetUnhappy(p: Path, draw: nat): (v: nat)
    requires Sized(p) && UnhappyCount(p) > 0
    ensures v < |p.occ| && p.cache[v]
  {
    SelectTrue(p.cache, draw % UnhappyCount(p))
  }

  /** With an exact cache the picked vertex holds an unhappy agent. */
  lemma GetUnhappyIsUnhappy(p: Path, th: Threshold.Pq, draw: nat)
    requires Sized(p) && UnhappyCount(p) > 0 && CacheExact(p, th)
    ensures var v := GetUnhappy(p, draw); Occ(p, v) && IsUnhappyAt(p, th, v)
  {
    var v := GetUnhappy(p, draw);
    assert CacheAt(p, v);
  }

  // ------------------------------------------------------------------
  // Full recomputation at construction

  /** An occupied edge (i-1, i), anchored at i; none outside the vertex window. */
  predicate Edge(p: Path, i: int)
    requires Sized(p)
  {
    0 <= i < |p.occ| && Occ(p, i) && Occ(p, i - 1)
  }

  predicate Mismatch(p: Path, i: int)
    requires Sized(p)
  {
    Edge(p, i) && Col(p, i) != Col(p, i - 1)
  }

  predicate Match(p: Path, i: int)
    requires Sized(p)
  {
    Edge(p, i) && Col(p, i) == Col(p, i - 1)
  }

  /**
   * `unhappy_mask_` bit of vertex i as written: below threshold 1/2 (one
   * mismatch of two is unhappy) any mismatching incident edge; otherwise an
   * incident edge and no matching one.
   */
  predicate MaskAt(p: Path, th: Threshold.Pq, i: int)
    requires Sized(p)
  {
    if Threshold.IsUnhappy(th, 1, 2) then Mismatch(p, i) || Mismatch(p, i + 1)
    else (Edge(p, i) || Edge(p, i + 1)) && !(Match(p, i) || Match(p, i + 1))
  }

  /** For thresholds p/q below 1 (and 2q within 64 bits) the bitwise mask is the rule. */
  lemma MaskIsRule(p: Path, th: Threshold.Pq, i: int)
    requires Sized(p) && 0 <= i < |p.occ|
    requires th.p < th.q && 2 * th.q < Threshold.U64
    ensures MaskAt(p, th, i) == IsUnhappyAt(p, th, i)
  {
    var d, n := Frustration(p, i), Neighbors(p, i);
    assert d * th.q < Threshold.U64 && n * th.p < Threshold.U64;
    assert Threshold.IsUnhappy(th, 1, 2) == (th.q > 2 * th.p);
    assert d <= n;
  }

  /** The state the constructor builds from an "unoccupied" mask and a colour mask, cache still blank. */
  function Blank(unocc: seq<bool>, col: seq<bool>): (p: Path)
    requires |unocc| == |col|
    ensures Sized(p) && |p.occ| == |unocc| && !p.sentOcc && !p.sentCol && !p.sentCache
    ensures forall i :: 0 <= i < |unocc| ==> p.occ[i] == !unocc[i] && p.col[i] == col[i]
  {
    Path(Negate(unocc), col, false, false, seq(|unocc|, i => false), false)
  }

  /** `Path(unocc, col)` as written: the cache is the bitwise mask. */
  function FreshAsWritten(unocc: seq<bool>, col: seq<bool>, th: Threshold.Pq): (p: Path)
    requires |unocc| == |col|
    ensures Sized(p) && p.occ == Blank(unocc, col).occ && p.col == col
    ensures forall i :: 0 <= i < |unocc| ==> p.cache[i] == MaskAt(Blank(unocc, col), th, i)
  {
    var b := Blank(unocc, col);
    b.(cache := seq(|unocc|, i requires 0 <= i < |unocc| => MaskAt(b, th, i)))
  }

  /** Two neighbouring agents of different colours and nothing else. */
  predicate OppositePair(p: Path)
    requires Sized(p)
  {
    |p.occ| == 2 && p.occ[0] && p.occ[1] && p.col[0] != p.col[1] && !p.sentOcc
  }

  /** Each agent of the pair has one neighbour, and it disagrees. */
  lemma OppositePairVerdicts(p: Path, th: Threshold.Pq)
    requires Sized(p) && OppositePair(p)
    ensures IsUnhappyAt(p, th, 0) == Threshold.IsUnhappy(th, 1, 1)
    ensures IsUnhappyAt(p, th, 1) == Threshold.IsUnhappy(th, 1, 1)
  {
    assert Frustration(p, 0) == 1 && Neighbors(p, 0) == 1;
    assert Frustration(p, 1) == 1 && Neighbors(p, 1) == 1;
  }

  /** At threshold 1/2 or above the mask marks both agents of the pair: an edge and no matching one. */
  lemma OppositePairMask(p: Path, th: Threshold.Pq)
    requires Sized(p) && OppositePair(p) && !Threshold.IsUnhappy(th, 1, 2)
    ensures MaskAt(p, th, 0) && MaskAt(p, th, 1)
  {
    assert Edge(p, 1) && !Match(p, 1) && !Edge(p, 0) && !Edge(p, 2);
  }

  /** At threshold 1/1 the constructed mask calls both agents of the pair unhappy; the rule calls neither. */
  lemma MaskMisjudgesHighThreshold()
    ensures var p := FreshAsWritten([false, false], [false, true], Threshold.Pq(1, 1));
            UnhappyCount(p) == 2 && !IsUnhappyAt(p, Threshold.Pq(1, 1), 0) && !IsUnhappyAt(p, Threshold.Pq(1, 1), 1)
  {
    var th := Threshold.Pq(1, 1);
    assert !Threshold.IsUnhappy(th, 1, 1) && !Threshold.IsUnhappy(th, 1, 2);
    var b := Blank([false, false], [false, true]);
    OppositePairMask(b, th);
    var p := FreshAsWritten([false, false], [false, true], th);
    assert p.cache == [true, true];
    assert CountTrue(p.cache) == 2 by {
      assert p.cache[1..] == [true] && p.cache[1..][1..] == [];
    }
    OppositePairVerdicts(p, th);
  }

  /** The constructor with the cache computed by the rule itself, which every later update maintains. */
  function Fresh(unocc: seq<bool>, col: seq<bool>, th: Threshold.Pq): (p: Path)
    requires |unocc| == |col|
    ensures Sized(p) && p.occ == Blank(unocc, col).occ && p.col == col
    ensures !p.sentOcc && !p.sentCol && CacheExact(p, th)
  {
    var b := Blank(unocc, col);
    var p := b.(cache := Verdicts(b, th));
    assert forall i :: -1 <= i < |p.occ| ==> IsUnhappyAt(p, th, i) == IsUnhappyAt(b, th, i);
    p
  }

  /** Below threshold 1 the as-written constructor already yields the exact cache. */
  lemma FreshAsWrittenBelowOne(unocc: seq<bool>, col: seq<bool>, th: Threshold.Pq)
    requires |unocc| == |col| && th.p < th.q && 2 * th.q < Threshold.U64
    ensures FreshAsWritten(unocc, col, th) == Fresh(unocc, col, th)
  {
    var b := Blank(unocc, col);
    forall i | 0 <= i < |unocc| ensures MaskAt(b, th, i) == IsUnhappyAt(b, th, i) {
      MaskIsRule(b, th, i);
    }
  }
}
