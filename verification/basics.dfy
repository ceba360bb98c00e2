/**
 * Small shared vocabulary: an Option type and the sequence helpers that the
 * list-manipulating parts of the engine (Python list.remove, swap-pop
 * removal, index ranges) are described with.
 */
module Basics {

  datatype Option<+T> = None | Some(value: T)

  /** No value occurs twice. */
  predicate NoDup<T(==)>(s: seq<T>) {
    forall i, j :: 0 <= i < j < |s| ==> s[i] != s[j]
  }

  /** The sequence [lo, lo+1, ..., hi-1]. */
  function Range(lo: nat, hi: nat): (r: seq<nat>)
    ensures |r| == if lo <= hi then hi - lo else 0
    ensures forall i :: 0 <= i < |r| ==> r[i] == lo + i
    decreases hi - lo
  {
    if lo >= hi then [] else [lo] + Range(lo + 1, hi)
  }

  lemma RangeNoDup(lo: nat, hi: nat)
    ensures NoDup(Range(lo, hi))
  {
  }

  /** Order-preserving removal of the element at index i (Python `del s[i]`). */
  function RemoveAt<T>(s: seq<T>, i: nat): (r: seq<T>)
    requires i < |s|
    ensures |r| == |s| - 1
    ensures forall j :: 0 <= j < i ==> r[j] == s[j]
    ensures forall j :: i <= j < |r| ==> r[j] == s[j + 1]
  {
    s[..i] + s[i + 1..]
  }

  /** Index of the first occurrence of x in s, if any. */
  function IndexOf<T(==)>(s: seq<T>, x: T): (r: Option<nat>)
    ensures r.None? <==> x !in s
    ensures r.Some? ==> r.value < |s| && s[r.value] == x
    ensures r.Some? ==> forall j :: 0 <= j < r.value ==> s[j] != x
  {
    if |s| == 0 then None
    else if s[0] == x then Some(0)
    else match IndexOf(s[1..], x)
      case None => None
      case Some(k) => Some(k + 1)
  }

  /**
   * Python's `list.remove(x)`: drops the first occurrence of x; the source
   * raises ValueError when x is absent, which is reported as None here.
   */
  function RemoveFirst<T(==)>(s: seq<T>, x: T): (r: Option<seq<T>>)
    ensures r.None? <==> x !in s
    ensures r.Some? ==> |r.value| == |s| - 1
    ensures r.Some? ==> multiset(r.value) == multiset(s) - multiset{x}
  {
    match IndexOf(s, x)
    case None => None
    case Some(i) =>
      assert s == s[..i] + [s[i]] + s[i + 1..];
      Some(RemoveAt(s, i))
  }

  /** Removing slot i keeps every other value and adds none. */
  lemma RemoveAtMembers<T>(s: seq<T>, i: nat)
    requires i < |s|
    ensures forall x :: x in RemoveAt(s, i) ==> x in s
    ensures forall x :: x in s && x != s[i] ==> x in RemoveAt(s, i)
    ensures NoDup(s) ==> NoDup(RemoveAt(s, i)) && s[i] !in RemoveAt(s, i)
  {
    var r := RemoveAt(s, i);
    forall x | x in s && x != s[i] ensures x in r {
      var j :| 0 <= j < |s| && s[j] == x;
      if j < i { assert r[j] == x; } else { assert r[j - 1] == x; }
    }
  }

  lemma NoDupRemoveAt<T>(s: seq<T>, i: nat)
    requires i < |s| && NoDup(s)
    ensures NoDup(RemoveAt(s, i))
    ensures forall x :: x in RemoveAt(s, i) <==> x in s && x != s[i]
  {
    RemoveAtMembers(s, i);
  }

  /** On a list without repeats, removing a present x keeps no repeats and drops exactly x. */
  lemma RemoveFirstNoDup<T>(s: seq<T>, x: T)
    requires NoDup(s) && x in s
    ensures RemoveFirst(s, x).Some?
    ensures NoDup(RemoveFirst(s, x).value)
    ensures forall y :: y in RemoveFirst(s, x).value <==> y in s && y != x
  {
    NoDupRemoveAt(s, IndexOf(s, x).value);
  }

  lemma NoDupAppend<T>(s: seq<T>, x: T)
    requires NoDup(s) && x !in s
    ensures NoDup(s + [x])
  {
  }

  /** Number of `true` entries. */
  function CountTrue(s: seq<bool>): (r: nat)
    ensures r <= |s|
  {
    if |s| == 0 then 0 else (if s[0] then 1 else 0) + CountTrue(s[1..])
  }

  lemma CountTrueAppend(a: seq<bool>, b: seq<bool>)
    ensures CountTrue(a + b) == CountTrue(a) + CountTrue(b)
  {
    if |a| == 0 {
      assert a + b == b;
    } else {
      assert (a + b)[1..] == a[1..] + b;
      CountTrueAppend(a[1..], b);
    }
  }

  /** Changing one entry changes the count by the difference of the two indicator values. */
  lemma CountTrueUpdate(s: seq<bool>, i: nat, b: bool)
    requires i < |s|
    ensures CountTrue(s[i := b]) + (if s[i] then 1 else 0) == CountTrue(s) + (if b then 1 else 0)
  {
    if i == 0 {
      assert s[i := b][1..] == s[1..];
    } else {
      assert s[i := b][1..] == s[1..][i - 1 := b];
      CountTrueUpdate(s[1..], i - 1, b);
    }
  }

  lemma CountTrueAllFalse(s: seq<bool>)
    requires forall i :: 0 <= i < |s| ==> !s[i]
    ensures CountTrue(s) == 0
  {
  }

  /** Index of the k-th `true` entry (counting from 0): the kth-one selection of the bitsets. */
  function SelectTrue(s: seq<bool>, k: nat): (r: nat)
    requires k < CountTrue(s)
    ensures r < |s| && s[r] && CountTrue(s[..r]) == k
  {
    assert s[..0] == [];
    if s[0] && k == 0 then 0
    else
      var r' := SelectTrue(s[1..], if s[0] then k - 1 else k);
      assert s[..r' + 1][1..] == s[1..][..r'];
      r' + 1
  }

  /** Extending a prefix by one entry adds that entry's indicator. */
  lemma CountTrueStep(s: seq<bool>, t: nat)
    requires t < |s|
    ensures CountTrue(s[..t + 1]) == CountTrue(s[..t]) + (if s[t] then 1 else 0)
  {
    assert s[..t + 1] == s[..t] + [s[t]];
    CountTrueAppend(s[..t], [s[t]]);
  }

  lemma CountTrueMono(s: seq<bool>, i: nat, j: nat)
    requires i <= j <= |s|
    ensures CountTrue(s[..i]) <= CountTrue(s[..j])
  {
    assert s[..j] == s[..i] + s[i..j];
    CountTrueAppend(s[..i], s[i..j]);
  }

  /** The `true` entries have strictly increasing ranks, so the k-th one is unique. */
  lemma SelectTrueUnique(s: seq<bool>, k: nat, t: nat)
    requires t < |s| && s[t] && CountTrue(s[..t]) == k
    ensures k < CountTrue(s) && SelectTrue(s, k) == t
  {
    CountTrueStep(s, t);
    CountTrueMono(s, t + 1, |s|);
    assert s[..|s|] == s;
    var p := SelectTrue(s, k);
    if p < t {
      CountTrueStep(s, p);
      CountTrueMono(s, p + 1, t);
    } else if t < p {
      CountTrueMono(s, t + 1, p);
    }
  }

  /** Entry-wise negation of a bit sequence. */
  function Negate(s: seq<bool>): (r: seq<bool>)
    ensures |r| == |s| && forall i :: 0 <= i < |s| ==> r[i] == !s[i]
    ensures CountTrue(r) + CountTrue(s) == |s|
  {
    var r := seq(|s|, i requires 0 <= i < |s| => !s[i]);
    NegateCount(s, r);
    r
  }

  lemma {:induction false} NegateCount(s: seq<bool>, r: seq<bool>)
    requires |r| == |s| && forall i :: 0 <= i < |s| ==> r[i] == !s[i]
    ensures CountTrue(r) + CountTrue(s) == |s|
  {
    if |s| > 0 {
      NegateCount(s[1..], r[1..]);
    }
  }

  /** Index of the k-th `false` entry: the kth-zero selection. */
  function SelectFalse(s: seq<bool>, k: nat): (r: nat)
    requires k < |s| - CountTrue(s)
    ensures r < |s| && !s[r] && r - CountTrue(s[..r]) == k
  {
    var n := Negate(s);
    var r := SelectTrue(n, k);
    assert Negate(s[..r]) == n[..r];
    r
  }

  function Min(a: int, b: int): int { if a <= b then a else b }
  function Max(a: int, b: int): int { if a >= b then a else b }

  type Pos = x: nat | x > 0 witness 1

  lemma DivRem(a: int, b: Pos)
    ensures 0 <= a % b < b && (a / b) * b + a % b == a
  {
  }

  /** The least integer that is at least a/b. */
  function CeilDiv(a: int, b: Pos): (r: int)
    ensures r * b >= a && (r - 1) * b < a
  {
    var f := (-a) / b;
    DivRem(-a, b);
    -f
  }

  lemma MulLeft(b: nat, x: int, y: int)
    requires x <= y
    ensures x * b <= y * b
    ensures 0 <= x ==> 0 <= x * b
  {
    assert y * b - x * b == (y - x) * b;
  }

  /** For a whole number n, n < ceil(a/b) exactly when n*b < a. */
  lemma BelowCeil(n: int, a: int, b: Pos)
    ensures n < CeilDiv(a, b) <==> n * b < a
  {
    var c := CeilDiv(a, b);
    if n < c {
      MulLeft(b, n, c - 1);
    } else {
      MulLeft(b, c, n);
    }
  }

  /** A positive multiple is at least the multiplier. */
  lemma AtLeastOnce(m: int, x: int)
    requires m > 0 && x >= 1
    ensures m * x >= m
  {
    assert m * x == m + m * (x - 1);
  }

  /** A nonzero multiple of d is at least d away from zero. */
  lemma MulSign(d: int, x: int)
    requires d > 0
    ensures x >= 1 ==> d * x >= d
    ensures x <= -1 ==> d * x <= -d
  {
    if x >= 1 {
      AtLeastOnce(d, x);
    } else if x <= -1 {
      AtLeastOnce(d, -x);
      assert d * (-x) == -(d * x);
    }
  }

  /** Quotient and remainder are unique. */
  lemma DivModUnique(v: int, d: int, a: int, r: int)
    requires d > 0 && v == d * a + r && 0 <= r < d
    ensures v / d == a && v % d == r
  {
    var q := v / d;
    MulSign(d, a - q);
    assert d * (a - q) == d * a - d * q;
  }
}
