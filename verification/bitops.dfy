/**
 * Bit selection within one 64-bit word (include/core/bitops.hpp).  A word
 * is its 64 bits, least significant first, and popcount is CountTrue.  The
 * portable path of `select1_index_u64` is modelled: three halving steps
 * (32, 16, 8 bits) that keep the half holding the wanted bit, then clearing
 * the lowest set bit of the remaining byte kth times and counting its
 * trailing zeros.  The random generator is a draw reduced below the
 * popcount.
 */
module BitOps {
  import opened Basics

  /** `countr_zero`: the index of the lowest set bit, |b| when none is set. */
  function CountrZero(b: seq<bool>): (r: nat)
    ensures r <= |b| && forall t :: 0 <= t < r ==> !b[t]
    ensures r < |b| ==> b[r]
  {
    if |b| == 0 then 0 else if b[0] then 0 else 1 + CountrZero(b[1..])
  }

  /** `b & (b - 1)`: the lowest set bit cleared. */
  function ClearLowest(b: seq<bool>): (r: seq<bool>)
    ensures |r| == |b|
  {
    var z := CountrZero(b);
    if z < |b| then b[z := false] else b
  }

  /**
   * The window w = x[base .. base+|w|] still holds the wanted bit: it is the
   * k-th set bit of w, and x has kth - k set bits below the window.
   */
  ghost predicate Tracks(x: seq<bool>, kth: nat, w: seq<bool>, k: nat, base: nat) {
    && base + |w| <= |x|
    && w == x[base..base + |w|]
    && k < CountTrue(w)
    && CountTrue(x[..base]) + k == kth
  }

  /** One descent step: keep the low half if it holds the wanted bit, else the high half with k reduced by the low half's popcount. */
  function Halve(w: seq<bool>, k: nat, base: nat): (r: (seq<bool>, nat, nat))
    requires |w| % 2 == 0
    ensures |r.0| == |w| / 2
  {
    var h := |w| / 2;
    var pc := CountTrue(w[..h]);
    if k >= pc then (w[h..], k - pc, base + h) else (w[..h], k, base)
  }

  lemma HalveTracks(x: seq<bool>, kth: nat, w: seq<bool>, k: nat, base: nat)
    requires Tracks(x, kth, w, k, base) && |w| % 2 == 0
    ensures var (w', k', base') := Halve(w, k, base); Tracks(x, kth, w', k', base')
  {
    var h := |w| / 2;
    assert CountTrue(w) == CountTrue(w[..h]) + CountTrue(w[h..]) by {
      assert w == w[..h] + w[h..];
      CountTrueAppend(w[..h], w[h..]);
    }
    assert CountTrue(x[..base + h]) == CountTrue(x[..base]) + CountTrue(w[..h]) by {
      assert x[..base + h] == x[..base] + w[..h];
      CountTrueAppend(x[..base], w[..h]);
    }
  }

  /**
   * The byte loop: after clearing c lowest set bits, the bits left are the
   * set bits of w of rank c or more.
   */
  ghost predicate RanksFrom(w: seq<bool>, b: seq<bool>, c: nat) {
    |b| == |w| && forall t :: 0 <= t < |w| ==> b[t] == (w[t] && CountTrue(w[..t]) >= c)
  }

  /** The lowest bit left is the set bit of rank c. */
  lemma LowestIsRank(w: seq<bool>, b: seq<bool>, c: nat)
    requires RanksFrom(w, b, c) && c < CountTrue(w)
    ensures CountrZero(b) == SelectTrue(w, c)
  {
    var p := SelectTrue(w, c);
    var z := CountrZero(b);
    assert b[p];
    if z < p {
      CountTrueStep(w, z);
      CountTrueMono(w, z + 1, p);
    }
  }

  lemma ClearLowestStep(w: seq<bool>, b: seq<bool>, c: nat)
    requires RanksFrom(w, b, c) && c < CountTrue(w)
    ensures RanksFrom(w, ClearLowest(b), c + 1)
  {
    LowestIsRank(w, b, c);
    var p := SelectTrue(w, c);
    forall t | 0 <= t < |w| && w[t] && t != p ensures CountTrue(w[..t]) != c {
      SelectTrueUnique(w, CountTrue(w[..t]), t);
    }
  }

  /** `select1_index_u64(x, kth)`: the position of the kth set bit of x (counting from 0). */
  method Select1(x: seq<bool>, kth: nat) returns (r: nat)
    requires |x| == 64 && kth < CountTrue(x)
    ensures r < 64 && x[r] && CountTrue(x[..r]) == kth
    ensures r == SelectTrue(x, kth)
  {
    assert x[0..64] == x && x[..0] == [];
    var w, k, base := x, kth, 0;
    var step := Halve(w, k, base);
    HalveTracks(x, kth, w, k, base);
    w, k, base := step.0, step.1, step.2;
    step := Halve(w, k, base);
    HalveTracks(x, kth, w, k, base);
    w, k, base := step.0, step.1, step.2;
    step := Halve(w, k, base);
    HalveTracks(x, kth, w, k, base);
    w, k, base := step.0, step.1, step.2;
    var b, c := w, 0;
    while c < k
      invariant c <= k && RanksFrom(w, b, c)
    {
      ClearLowestStep(w, b, c);
      b, c := ClearLowest(b), c + 1;
    }
    r := base + CountrZero(b);
    Located(x, kth, w, k, base, b);
  }

  /** The rank-k bit of the window, offset by base, is the rank-kth bit of x. */
  lemma Located(x: seq<bool>, kth: nat, w: seq<bool>, k: nat, base: nat, b: seq<bool>)
    requires Tracks(x, kth, w, k, base) && RanksFrom(w, b, k) && kth < CountTrue(x)
    ensures base + CountrZero(b) < |x| && x[base + CountrZero(b)]
    ensures CountTrue(x[..base + CountrZero(b)]) == kth
    ensures base + CountrZero(b) == SelectTrue(x, kth)
  {
    var p := CountrZero(b);
    assert p < |w| && w[p] && CountTrue(w[..p]) == k by {
      LowestIsRank(w, b, k);
    }
    var r := base + p;
    assert x[r] && CountTrue(x[..r]) == kth by {
      assert x[..r] == x[..base] + w[..p];
      CountTrueAppend(x[..base], w[..p]);
    }
    SelectTrueUnique(x, kth, r);
  }

  /** `random_setbit_index_u64(mask, rng)`: none for an empty mask, else the set bit of rank draw mod popcount. */
  method RandomSetBit(mask: seq<bool>, draw: nat) returns (r: Option<nat>)
    requires |mask| == 64
    ensures r.None? <==> CountTrue(mask) == 0
    ensures r.Some? ==> r.value < 64 && mask[r.value]
    ensures r.Some? ==> CountTrue(mask[..r.value]) == draw % CountTrue(mask) < CountTrue(mask)
  {
    var m := CountTrue(mask);
    if m == 0 {
      return None;
    }
    var i := Select1(mask, draw % m);
    return Some(i);
  }
}
