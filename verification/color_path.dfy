/**
 * The multi-colour path graph `PathGraph<K>` (include/graphs/path_graph.hpp):
 * n vertices on a line, each holding colour 0 (unoccupied) or 1..K, with a
 * histogram of colours and the running total frustration tf, the number of
 * adjacent occupied pairs whose colours differ.  The bit-packed colour
 * storage is a `seq<nat>` here (its packing is modelled in BitPack); the
 * base class holding the counters is not part of this model, so the three
 * counters are the fields below.
 */
module ColorPath {
  import Topology

  datatype PathGraph = PathGraph(colors: seq<nat>, counts: seq<nat>, tf: int)

  /** `get_color`: the stored colour, 0 for indices out of range (v-1 at v = 0 wraps out of range). */
  function GetColor(g: PathGraph, v: int): (r: nat)
    ensures (v < 0 || v >= |g.colors|) ==> r == 0
    ensures 0 <= v < |g.colors| ==> r == g.colors[v]
  {
    if 0 <= v < |g.colors| then g.colors[v] else 0
  }

  predicate IsOccupied(g: PathGraph, v: int) { GetColor(g, v) != 0 }

  /** Whether vertices i and i+1 are both occupied with different colours. */
  predicate Unlike(s: seq<nat>, i: int)
  {
    0 <= i && i + 1 < |s| && s[i] != 0 && s[i + 1] != 0 && s[i] != s[i + 1]
  }

  /** Unlike adjacent pairs (i, i+1) with i + 1 < m. */
  function Disagreements(s: seq<nat>, m: nat): (r: nat)
    requires m <= |s|
  {
    if m <= 1 then 0 else Disagreements(s, m - 1) + Topology.Ind(Unlike(s, m - 2))
  }

  /** Vertices holding colour c. */
  function CountColor(s: seq<nat>, c: nat): (r: nat)
    ensures r <= |s|
  {
    if |s| == 0 then 0 else CountColor(s[..|s| - 1], c) + Topology.Ind(s[|s| - 1] == c)
  }

  /** Colours within 0..K, counts the histogram, tf the number of unlike adjacent pairs. */
  ghost predicate Valid(g: PathGraph, k: nat) {
    && |g.counts| == k + 1
    && (forall v :: 0 <= v < |g.colors| ==> g.colors[v] <= k)
    && (forall c :: 0 <= c <= k ==> g.counts[c] == CountColor(g.colors, c))
    && g.tf == Disagreements(g.colors, |g.colors|)
  }

  /** The constructor: n unoccupied vertices, counts[0] = n, tf = 0. */
  function New(k: nat, n: nat): (g: PathGraph)
    ensures Valid(g, k) && |g.colors| == n
    ensures g.counts[0] == n && g.tf == 0
    ensures forall v :: 0 <= v < n ==> !IsOccupied(g, v)
  {
    var colors := seq(n, i => 0);
    var counts := seq(k + 1, c => if c == 0 then n else 0);
    BlankCounts(colors, k);
    BlankDisagreements(colors, n);
    PathGraph(colors, counts, 0)
  }

  lemma {:induction false} BlankCounts(s: seq<nat>, k: nat)
    requires forall v :: 0 <= v < |s| ==> s[v] == 0
    ensures forall c :: 0 <= c <= k ==> CountColor(s, c) == if c == 0 then |s| else 0
  {
    if |s| > 0 {
      BlankCounts(s[..|s| - 1], k);
    }
  }

  lemma {:induction false} BlankDisagreements(s: seq<nat>, m: nat)
    requires m <= |s| && forall v :: 0 <= v < |s| ==> s[v] == 0
    ensures Disagreements(s, m) == 0
  {
    if m > 1 {
      BlankDisagreements(s, m - 1);
    }
  }

  /** `local_frustration`: 0 on an empty vertex, otherwise its occupied neighbours of another colour. */
  function LocalFrustration(g: PathGraph, v: int): (r: nat)
    ensures r <= 2 && (!IsOccupied(g, v) ==> r == 0)
  {
    var c := GetColor(g, v);
    var l, rt := GetColor(g, v - 1), GetColor(g, v + 1);
    if c == 0 then 0 else Topology.Ind(l != 0 && l != c) + Topology.Ind(rt != 0 && rt != c)
  }

  /** `occupied_neighbor_count`: occupied vertices among v-1 and v+1. */
  function OccupiedNeighborCount(g: PathGraph, v: int): (r: nat)
    ensures r <= 2
    ensures r == Topology.Ind(0 <= v - 1 < |g.colors| && g.colors[v - 1] != 0)
               + Topology.Ind(0 <= v + 1 < |g.colors| && g.colors[v + 1] != 0)
  {
    Topology.Ind(GetColor(g, v - 1) != 0) + Topology.Ind(GetColor(g, v + 1) != 0)
  }

  /** A vertex's frustration is exactly the unlike pairs it belongs to. */
  lemma FrustrationIsIncidentPairs(g: PathGraph, v: int)
    requires 0 <= v < |g.colors|
    ensures LocalFrustration(g, v) == Topology.Ind(Unlike(g.colors, v - 1)) + Topology.Ind(Unlike(g.colors, v))
  {
  }

  /** Unlike pairs with i + 1 < m that touch vertex v. */
  function Incident(s: seq<nat>, v: nat, m: nat): nat
  {
    (if 1 <= v < m then Topology.Ind(Unlike(s, v - 1)) else 0)
      + (if v + 1 < m then Topology.Ind(Unlike(s, v)) else 0)
  }

  /** Recolouring v changes the pair count only through the pairs touching v. */
  lemma {:induction false} DisagreementsUpdate(s: seq<nat>, v: nat, c: nat, m: nat)
    requires v < |s| && m <= |s|
    ensures Disagreements(s[v := c], m) + Incident(s, v, m) == Disagreements(s, m) + Incident(s[v := c], v, m)
  {
    if m > 1 {
      DisagreementsUpdate(s, v, c, m - 1);
      var s' := s[v := c];
      if m - 2 != v - 1 && m - 2 != v {
        assert Unlike(s', m - 2) == Unlike(s, m - 2);
      }
    }
  }

  lemma {:induction false} CountColorUpdate(s: seq<nat>, v: nat, c: nat, x: nat)
    requires v < |s|
    ensures CountColor(s[v := c], x) + Topology.Ind(s[v] == x) == CountColor(s, x) + Topology.Ind(c == x)
  {
    var n := |s| - 1;
    var s' := s[v := c];
    if v == n {
      assert s'[..n] == s[..n];
    } else {
      assert s'[..n] == s[..n][v := c];
      CountColorUpdate(s[..n], v, c, x);
    }
  }

  /**
   * `change_color(v, c, c_original)`: c_original 0 means "look it up".  The
   * caller's c_original, when given, is trusted to be v's colour; an equal
   * colour changes nothing; otherwise v's pairs leave tf, one unit moves
   * between the histogram bins, and v's new pairs enter tf.
   */
  function ChangeColor(g: PathGraph, k: nat, v: nat, c: nat, cOrig: nat): (r: PathGraph)
    requires Valid(g, k) && v < |g.colors| && c <= k
    requires cOrig == 0 || cOrig == GetColor(g, v)
    ensures Valid(r, k) && r.colors == g.colors[v := c]
    ensures c == GetColor(g, v) ==> r == g
    ensures c != GetColor(g, v) ==>
              r.counts[GetColor(g, v)] + 1 == g.counts[GetColor(g, v)] && r.counts[c] == g.counts[c] + 1
    ensures forall x :: 0 <= x <= k && x != c && x != GetColor(g, v) ==> r.counts[x] == g.counts[x]
  {
    var co := if cOrig == 0 then GetColor(g, v) else cOrig;
    if c == co then g
    else
      var g1 := g.(colors := g.colors[v := c]);
      ChangeColorValid(g, k, v, c);
      var counts := g.counts[co := g.counts[co] - 1];
      PathGraph(g1.colors, counts[c := counts[c] + 1], g.tf - LocalFrustration(g, v) + LocalFrustration(g1, v))
  }

  lemma ChangeColorValid(g: PathGraph, k: nat, v: nat, c: nat)
    requires Valid(g, k) && v < |g.colors| && c <= k && c != g.colors[v]
    ensures g.counts[g.colors[v]] >= 1
    ensures var g1 := g.(colors := g.colors[v := c]);
            g.tf - LocalFrustration(g, v) + LocalFrustration(g1, v) == Disagreements(g1.colors, |g1.colors|)
    ensures forall x :: 0 <= x <= k ==>
              CountColor(g.colors[v := c], x) + Topology.Ind(g.colors[v] == x)
              == g.counts[x] + Topology.Ind(c == x)
  {
    var g1 := g.(colors := g.colors[v := c]);
    CountColorUpdate(g.colors, v, c, g.colors[v]);
    DisagreementsUpdate(g.colors, v, c, |g.colors|);
    FrustrationIsIncidentPairs(g, v);
    FrustrationIsIncidentPairs(g1, v);
    forall x | 0 <= x <= k
      ensures CountColor(g.colors[v := c], x) + Topology.Ind(g.colors[v] == x) == g.counts[x] + Topology.Ind(c == x)
    {
      CountColorUpdate(g.colors, v, c, x);
    }
  }

  /** `set_color`: change_color with v's own colour as the original. */
  function SetColor(g: PathGraph, k: nat, v: nat, c: nat): (r: PathGraph)
    requires Valid(g, k) && v < |g.colors| && c <= k
    ensures Valid(r, k) && GetColor(r, v) == c
    ensures forall u :: u != v ==> GetColor(r, u) == GetColor(g, u)
  {
    ChangeColor(g, k, v, c, GetColor(g, v))
  }

  /** Changing a colour and changing it back restores the whole state. */
  lemma ChangeColorBack(g: PathGraph, k: nat, v: nat, c: nat)
    requires Valid(g, k) && v < |g.colors| && c <= k
    ensures SetColor(SetColor(g, k, v, c), k, v, GetColor(g, v)) == g
  {
    var r := SetColor(SetColor(g, k, v, c), k, v, GetColor(g, v));
    assert r.colors == g.colors;
    assert r.counts == g.counts by {
      forall x | 0 <= x <= k ensures r.counts[x] == g.counts[x] {
      }
    }
  }
}
