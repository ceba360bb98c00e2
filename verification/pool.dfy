/**
 * The swap-remove indexed pool used throughout the engine for the sets of
 * empty, occupied and unhappy vertices: an array of members plus a position
 * map from vertex to its slot (NPOS when absent).  Insertion pushes at the
 * back; removal moves the last member into the vacated slot and pops.
 *
 * NPOS (the largest size_t) is represented by `None`.
 */
module IndexedPool {
  import opened Basics

  datatype Pool = Pool(items: seq<nat>, pos: seq<Option<nat>>)

  /** The pool over vertices 0..n-1 with no members. */
  function Empty(n: nat): (r: Pool)
    ensures Valid(r, n) && |r.items| == 0
    ensures forall v: nat :: v < n ==> !Contains(r, v)
  {
    Pool([], seq(n, _ => None))
  }

  /** The position map and the array describe each other. */
  ghost predicate Valid(p: Pool, n: nat) {
    && |p.pos| == n
    && (forall i :: 0 <= i < |p.items| ==> p.items[i] < n && p.pos[p.items[i]] == Some(i))
    && (forall v :: 0 <= v < n && p.pos[v].Some? ==> p.pos[v].value < |p.items| && p.items[p.pos[v].value] == v)
  }

  predicate Contains(p: Pool, v: nat) {
    v < |p.pos| && p.pos[v].Some?
  }

  lemma ValidNoDup(p: Pool, n: nat)
    requires Valid(p, n)
    ensures NoDup(p.items)
    ensures forall v: nat :: v < n ==> (Contains(p, v) <==> v in p.items)
  {
    forall v | v < n && v in p.items ensures Contains(p, v) {
      var i :| 0 <= i < |p.items| && p.items[i] == v;
    }
  }

  /**
   * Appends v and records its slot, without looking at v's old position (the
   * callers check a flag or the position first): the pool stays valid only
   * when v was not a member.
   */
  function Push(p: Pool, n: nat, v: nat): (r: Pool)
    requires |p.pos| == n && v < n
    ensures r.items == p.items + [v] && Contains(r, v)
    ensures Valid(p, n) && !Contains(p, v) ==> Valid(r, n)
    ensures forall x: nat :: x < n ==> (Contains(r, x) <==> Contains(p, x) || x == v)
  {
    Pool(p.items + [v], p.pos[v := Some(|p.items|)])
  }

  /** Inserts v unless it is already a member. */
  function Add(p: Pool, n: nat, v: nat): (r: Pool)
    requires Valid(p, n) && v < n
    ensures Valid(r, n)
    ensures Contains(p, v) ==> r == p
    ensures !Contains(p, v) ==> |r.items| == |p.items| + 1
    ensures forall x: nat :: x < n ==> (Contains(r, x) <==> Contains(p, x) || x == v)
  {
    if Contains(p, v) then p else Push(p, n, v)
  }

  /**
   * Removes v if it is a member: the last member is moved into v's slot and
   * its position is re-pointed, then the array is popped and v's position
   * cleared.  Absent vertices leave the pool unchanged.
   */
  function Remove(p: Pool, n: nat, v: nat): (r: Pool)
    requires Valid(p, n) && v < n
    ensures Valid(r, n)
    ensures !Contains(p, v) ==> r == p
    ensures Contains(p, v) ==> |r.items| == |p.items| - 1
    ensures forall x: nat :: x < n ==> (Contains(r, x) <==> Contains(p, x) && x != v)
    ensures Contains(p, v) ==> multiset(r.items) == multiset(p.items) - multiset{v}
  {
    if !Contains(p, v) then p
    else
      var i := p.pos[v].value;
      var k := |p.items| - 1;
      var last := p.items[k];
      if i != k then
        var r := Pool(p.items[i := last][..k], p.pos[last := Some(i)][v := None]);
        RemoveMiddle(p, n, v, r);
        r
      else
        var r := Pool(p.items[..k], p.pos[v := None]);
        RemoveLast(p, n, v, r);
        r
  }

  lemma RemoveMiddle(p: Pool, n: nat, v: nat, r: Pool)
    requires Valid(p, n) && v < n && Contains(p, v)
    requires p.pos[v].value != |p.items| - 1
    requires r == Pool(p.items[p.pos[v].value := p.items[|p.items| - 1]][..|p.items| - 1],
                       p.pos[p.items[|p.items| - 1] := Some(p.pos[v].value)][v := None])
    ensures Valid(r, n)
    ensures forall x: nat :: x < n ==> (Contains(r, x) <==> Contains(p, x) && x != v)
    ensures multiset(r.items) == multiset(p.items) - multiset{v}
  {
    assert Valid(r, n) && forall x: nat :: x < n ==> (Contains(r, x) <==> Contains(p, x) && x != v) by {
      ValidNoDup(p, n);
      MiddleItems(p, n, v, r);
      MiddleSlots(p, n, v, r);
    }
    SwapPopMultiset(p.items, p.pos[v].value);
  }

  /** Every member left in the array is recorded at its new slot. */
  lemma MiddleItems(p: Pool, n: nat, v: nat, r: Pool)
    requires Valid(p, n) && NoDup(p.items) && v < n && Contains(p, v)
    requires p.pos[v].value != |p.items| - 1
    requires r == Pool(p.items[p.pos[v].value := p.items[|p.items| - 1]][..|p.items| - 1],
                       p.pos[p.items[|p.items| - 1] := Some(p.pos[v].value)][v := None])
    ensures |r.pos| == n
    ensures forall j :: 0 <= j < |r.items| ==> r.items[j] < n && r.pos[r.items[j]] == Some(j)
  {
    var i, k := p.pos[v].value, |p.items| - 1;
    forall j | 0 <= j < |r.items| ensures r.items[j] < n && r.pos[r.items[j]] == Some(j) {
      if j != i {
        assert r.items[j] == p.items[j] && p.items[j] != p.items[k] && p.items[j] != v;
      }
    }
  }

  /** Every recorded slot holds its vertex, and exactly v has left. */
  lemma MiddleSlots(p: Pool, n: nat, v: nat, r: Pool)
    requires Valid(p, n) && NoDup(p.items) && v < n && Contains(p, v)
    requires p.pos[v].value != |p.items| - 1
    requires r == Pool(p.items[p.pos[v].value := p.items[|p.items| - 1]][..|p.items| - 1],
                       p.pos[p.items[|p.items| - 1] := Some(p.pos[v].value)][v := None])
    ensures forall x :: 0 <= x < n && r.pos[x].Some? ==> r.pos[x].value < |r.items| && r.items[r.pos[x].value] == x
    ensures forall x: nat :: x < n ==> (Contains(r, x) <==> Contains(p, x) && x != v)
  {
    var i, k := p.pos[v].value, |p.items| - 1;
    var last := p.items[k];
    assert last != v;
    forall x | 0 <= x < n && r.pos[x].Some? ensures r.pos[x].value < |r.items| && r.items[r.pos[x].value] == x {
      if x != last {
        var m := p.pos[x].value;
        assert p.items[m] == x && m != k && m != i;
      }
    }
  }

  /** Moving the last entry into slot i and popping removes exactly the entry at i. */
  lemma SwapPopMultiset(a: seq<nat>, i: nat)
    requires i < |a| - 1
    ensures multiset(a[i := a[|a| - 1]][..|a| - 1]) == multiset(a) - multiset{a[i]}
  {
    var k := |a| - 1;
    assert a == a[..k] + [a[k]];
    assert a[i := a[k]][..k] == a[..k][i := a[k]];
    assert multiset(a[..k][i := a[k]]) == multiset(a[..k]) - multiset{a[i]} + multiset{a[k]};
  }

  lemma RemoveLast(p: Pool, n: nat, v: nat, r: Pool)
    requires Valid(p, n) && v < n && Contains(p, v)
    requires p.pos[v].value == |p.items| - 1
    requires r == Pool(p.items[..|p.items| - 1], p.pos[v := None])
    ensures Valid(r, n)
    ensures forall x: nat :: x < n ==> (Contains(r, x) <==> Contains(p, x) && x != v)
    ensures multiset(r.items) == multiset(p.items) - multiset{v}
  {
    ValidNoDup(p, n);
    var k := |p.items| - 1;
    assert p.items == p.items[..k] + [v];
  }

  /** Removing right after inserting restores the pool's membership. */
  lemma AddThenRemove(p: Pool, n: nat, v: nat)
    requires Valid(p, n) && v < n && !Contains(p, v)
    ensures Remove(Add(p, n, v), n, v) == p
  {
    var a := Add(p, n, v);
    assert a.pos[v] == Some(|p.items|);
    assert Remove(a, n, v).items == p.items;
    assert Remove(a, n, v).pos == p.pos;
  }

  /** Random pick: an index drawn in [0, size) selects a member. */
  function Pick(p: Pool, n: nat, r: nat): (v: nat)
    requires Valid(p, n) && |p.items| > 0
    ensures v < n && Contains(p, v)
  {
    p.items[r % |p.items|]
  }
}
