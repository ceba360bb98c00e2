/**
 * Per-step banded histogram rows (include/sim/job_handler.hpp).  A row
 * keeps the counts of the bins lo..hi in a tight vector, grows to either
 * side on demand, merges bin-wise with another row, and a list of rows
 * expands into a dense row-major table.  Counts are 64-bit and wrap;
 * `size_t` is 64 bits wide.
 */
module BandedRow {
  import opened Basics
  import Threshold

  type u64 = Threshold.u64

  const M: nat := Threshold.U64

  /** The largest `size_t`: the lo of a default-constructed row. */
  const SizeMax: u64 := Threshold.U64 - 1

  datatype Row = Row(lo: u64, hi: u64, band: seq<u64>)

  /** A default-constructed row. */
  const Empty: Row := Row(SizeMax, 0, [])

  /** A non-empty band spans exactly the bins lo..hi. */
  predicate Valid(r: Row) {
    |r.band| == 0 || (r.lo <= r.hi && |r.band| == r.hi - r.lo + 1)
  }

  /** The count of bin u: the band entry when u lies in lo..hi, else 0. */
  function Count(r: Row, u: nat): u64
    requires Valid(r)
  {
    if |r.band| > 0 && r.lo <= u <= r.hi then r.band[u - r.lo] else 0
  }

  /** `+=` on 64-bit unsigned counts: the sum, less 2^64 when it does not fit. */
  function Add(x: u64, y: u64): u64 {
    if x + y < M then x + y else x + y - M
  }

  function Zeros(n: nat): (z: seq<u64>)
    ensures |z| == n && forall i :: 0 <= i < n ==> z[i] == 0
  {
    seq(n, _ => 0)
  }

  /** Widen a non-empty row to start at lo; the new bins are zero. */
  function ExtendLeft(r: Row, lo: u64): (e: Row)
    requires Valid(r) && |r.band| > 0 && lo <= r.lo
    ensures Valid(e) && |e.band| > 0 && e.lo == lo && e.hi == r.hi
    ensures forall u: nat :: Count(e, u) == Count(r, u)
  {
    Row(lo, r.hi, Zeros(r.lo - lo) + r.band)
  }

  /** Widen a non-empty row to end at hi; the new bins are zero. */
  function ExtendRight(r: Row, hi: u64): (e: Row)
    requires Valid(r) && |r.band| > 0 && r.hi <= hi
    ensures Valid(e) && |e.band| > 0 && e.lo == r.lo && e.hi == hi
    ensures forall u: nat :: Count(e, u) == Count(r, u)
  {
    Row(r.lo, hi, r.band + Zeros(hi - r.hi))
  }

  /** `bump(u)`: bin u counts one more, every other bin is unchanged, and the band grows just enough to reach u. */
  function Bump(r: Row, u: u64): (b: Row)
    requires Valid(r)
    ensures Valid(b) && |b.band| > 0
    ensures |r.band| == 0 ==> b.lo == u && b.hi == u && b.band == [1]
    ensures |r.band| > 0 ==> b.lo == Min(r.lo, u) && b.hi == Max(r.hi, u)
    ensures Count(b, u) == Add(Count(r, u), 1)
    ensures forall v: nat :: v != u ==> Count(b, v) == Count(r, v)
  {
    if |r.band| == 0 then Row(u, u, [1])
    else
      var e := if u < r.lo then ExtendLeft(r, u) else if u > r.hi then ExtendRight(r, u) else r;
      Row(e.lo, e.hi, e.band[u - e.lo := Add(e.band[u - e.lo], 1)])
  }

  /** The merge loop: `band[off + i] += src[i]` for every i. */
  function AddAt(band: seq<u64>, off: nat, src: seq<u64>): (r: seq<u64>)
    requires off + |src| <= |band|
    ensures |r| == |band|
    ensures forall k :: 0 <= k < |band| ==>
              r[k] == if off <= k < off + |src| then Add(band[k], src[k - off]) else band[k]
  {
    if |src| == 0 then band
    else
      var i := |src| - 1;
      var r := AddAt(band, off, src[..i]);
      r[off + i := Add(band[off + i], src[i])]
  }

  /** `merge_from(src)`: the row covers both ranges and every bin holds the sum of the two counts. */
  function Merge(dst: Row, src: Row): (r: Row)
    requires Valid(dst) && Valid(src)
    ensures Valid(r)
    ensures |src.band| == 0 ==> r == dst
    ensures |dst.band| == 0 && |src.band| > 0 ==> r == src
    ensures |dst.band| > 0 && |src.band| > 0 ==> r.lo == Min(dst.lo, src.lo) && r.hi == Max(dst.hi, src.hi)
    ensures forall u: nat :: Count(r, u) == Add(Count(dst, u), Count(src, u))
  {
    if |src.band| == 0 then dst
    else if |dst.band| == 0 then src
    else
      var d1 := if src.lo < dst.lo then ExtendLeft(dst, src.lo) else dst;
      var d2 := if src.hi > d1.hi then ExtendRight(d1, src.hi) else d1;
      AddInto(d2, src)
  }

  /** The merge loop once dst's band already covers src's range. */
  function AddInto(dst: Row, src: Row): (r: Row)
    requires Valid(dst) && Valid(src) && |dst.band| > 0 && |src.band| > 0
    requires dst.lo <= src.lo && src.hi <= dst.hi
    ensures Valid(r) && r.lo == dst.lo && r.hi == dst.hi
    ensures forall u: nat :: Count(r, u) == Add(Count(dst, u), Count(src, u))
  {
    var r := Row(dst.lo, dst.hi, AddAt(dst.band, src.lo - dst.lo, src.band));
    assert forall u: nat :: Count(r, u) == Add(Count(dst, u), Count(src, u)) by {
      forall u: nat ensures Count(r, u) == Add(Count(dst, u), Count(src, u)) {
        if !(dst.lo <= u <= dst.hi) {
          assert !(src.lo <= u <= src.hi);
        }
      }
    }
    r
  }

  /** The row after bumping every sample of us in turn. */
  function BumpAll(r: Row, us: seq<u64>): (b: Row)
    requires Valid(r)
    ensures Valid(b)
  {
    if |us| == 0 then r else Bump(BumpAll(r, us[..|us| - 1]), us[|us| - 1])
  }

  /** How many samples equal v. */
  function Occurrences(us: seq<u64>, v: nat): nat {
    if |us| == 0 then 0
    else Occurrences(us[..|us| - 1], v) + (if us[|us| - 1] == v then 1 else 0)
  }

  lemma OccurrencesAppend(a: seq<u64>, b: seq<u64>, v: nat)
    ensures Occurrences(a + b, v) == Occurrences(a, v) + Occurrences(b, v)
    decreases |b|
  {
    if |b| > 0 {
      assert (a + b)[..|a + b| - 1] == a + b[..|b| - 1];
      assert (a + b)[|a + b| - 1] == b[|b| - 1];
      OccurrencesAppend(a, b[..|b| - 1], v);
    } else {
      assert a + b == a;
    }
  }

  /** Wrapping addition agrees with reducing once at the end. */
  lemma AddMod(x: nat, y: nat)
    ensures Add(x % M, y % M) == (x + y) % M
  {
    DivRem(x, M);
    DivRem(y, M);
    var a, b := x % M, y % M;
    var c := if a + b < M then 0 else 1;
    assert x + y == M * (x / M + y / M + c) + Add(a, b);
    DivModUnique(x + y, M, x / M + y / M + c, Add(a, b));
  }

  /** A row built by bumping samples from an empty row is their histogram, each bin modulo 2^64. */
  lemma {:induction false} BumpAllIsHistogram(us: seq<u64>, v: nat)
    ensures Count(BumpAll(Empty, us), v) == Occurrences(us, v) % M
  {
    if |us| == 0 {
    } else {
      var init, x := us[..|us| - 1], us[|us| - 1];
      var prev := BumpAll(Empty, init);
      assert BumpAll(Empty, us) == Bump(prev, x);
      BumpAllIsHistogram(init, v);
      if x == v {
        assert Occurrences(us, v) == Occurrences(init, v) + 1;
        AddMod(Occurrences(init, v), 1);
      } else {
        assert Occurrences(us, v) == Occurrences(init, v);
      }
    }
  }

  /** Merging the histograms of two sample lists gives the histogram of both lists together. */
  lemma {:induction false} MergeIsConcatenation(a: seq<u64>, b: seq<u64>, v: nat)
    ensures Count(Merge(BumpAll(Empty, a), BumpAll(Empty, b)), v) == Count(BumpAll(Empty, a + b), v)
  {
    var x, y := Occurrences(a, v), Occurrences(b, v);
    var ra, rb, rab := BumpAll(Empty, a), BumpAll(Empty, b), BumpAll(Empty, a + b);
    assert Count(ra, v) == x % M && Count(rb, v) == y % M by {
      BumpAllIsHistogram(a, v);
      BumpAllIsHistogram(b, v);
    }
    assert Count(rab, v) == (x + y) % M by {
      BumpAllIsHistogram(a + b, v);
      OccurrencesAppend(a, b, v);
    }
    AddMod(x, y);
    MergeCount(ra, rb, v);
  }

  lemma MergeCount(dst: Row, src: Row, v: nat)
    requires Valid(dst) && Valid(src)
    ensures Count(Merge(dst, src), v) == Add(Count(dst, v), Count(src, v))
  {
  }

  /** Dense form of a heatmap: rows of bins cells each, row-major. */
  datatype Heatmap = Heatmap(bins: nat, rows: nat, data: seq<u64>)

  lemma RowSlot(r: nat, u: nat, rows: nat, bins: nat)
    requires r < rows && u < bins
    ensures r * bins + u < r * bins + bins <= rows * bins
  {
    MulLeft(bins, r + 1, rows);
  }

  /** Rows of a row-major table do not overlap. */
  lemma RowsApart(r: nat, s: nat, bins: nat)
    ensures s < r ==> s * bins + bins <= r * bins
    ensures r < s ==> r * bins + bins <= s * bins
  {
    if s < r {
      MulLeft(bins, s + 1, r);
    } else if r < s {
      MulLeft(bins, r + 1, s);
    }
  }

  /** Cell (r, u) of a row-major table with the given number of rows and bins. */
  function Cell(data: seq<u64>, rows: nat, bins: nat, r: nat, u: nat): u64
    requires |data| == rows * bins && r < rows && u < bins
  {
    RowSlot(r, u, rows, bins);
    data[r * bins + u]
  }

  /** `copy_n` of b into a at offset start. */
  function Splice(a: seq<u64>, start: nat, b: seq<u64>): (r: seq<u64>)
    requires start + |b| <= |a|
    ensures |r| == |a|
    ensures forall i :: 0 <= i < |a| ==> r[i] == if start <= i < start + |b| then b[i - start] else a[i]
  {
    a[..start] + b + a[start + |b|..]
  }

  /**
   * One iteration of `to_dense`: `copy_n` of min(|band|, bins - lo) band
   * entries into row r at column lo.  Row r then reads as the row's
   * counts; every other row is unchanged.
   */
  method CopyRow(data: seq<u64>, rows: nat, bins: nat, r: nat, row: Row) returns (d: seq<u64>)
    requires |data| == rows * bins && r < rows
    requires Valid(row) && |row.band| > 0 && row.lo <= bins
    requires forall u :: 0 <= u < bins ==> Cell(data, rows, bins, r, u) == 0
    ensures |d| == rows * bins
    ensures forall u :: 0 <= u < bins ==> Cell(d, rows, bins, r, u) == Count(row, u)
    ensures forall s, u :: 0 <= s < rows && s != r && 0 <= u < bins ==> Cell(d, rows, bins, s, u) == Cell(data, rows, bins, s, u)
  {
    var start := r * bins + row.lo;
    var n: nat := Min(|row.band|, bins - row.lo);
    assert start + n <= r * bins + bins <= rows * bins by {
      MulLeft(bins, r + 1, rows);
    }
    d := Splice(data, start, row.band[..n]);
    forall u | 0 <= u < bins ensures Cell(d, rows, bins, r, u) == Count(row, u) {
      var i := r * bins + u;
      assert Cell(data, rows, bins, r, u) == data[i];
      if u < row.lo {
        assert d[i] == data[i];
      } else if u < row.lo + n {
        assert d[i] == row.band[u - row.lo];
      } else {
        assert d[i] == data[i];
      }
    }
    forall s, u | 0 <= s < rows && s != r && 0 <= u < bins
      ensures Cell(d, rows, bins, s, u) == Cell(data, rows, bins, s, u)
    {
      var i := s * bins + u;
      RowSlot(s, u, rows, bins);
      RowsApart(r, s, bins);
      assert i < start || start + n <= i;
      assert d[i] == data[i];
    }
  }

  /**
   * `to_dense`: a zero table of |steps| rows by bins columns, each non-empty
   * row copied in at its lo.  Every cell (r, u) then holds bin u of row r.
   * Each non-empty row must start at or below bins (see README).
   */
  method ToDense(bins: nat, steps: seq<Row>) returns (h: Heatmap)
    requires forall s :: 0 <= s < |steps| ==> Valid(steps[s]) && (|steps[s].band| > 0 ==> steps[s].lo <= bins)
    ensures h.bins == bins && h.rows == |steps| && |h.data| == h.rows * h.bins
    ensures forall r, u :: 0 <= r < |steps| && 0 <= u < bins ==> Cell(h.data, h.rows, bins, r, u) == Count(steps[r], u)
  {
    var rows := |steps|;
    var data := Zeros(rows * bins);
    forall r, u | 0 <= r < rows && 0 <= u < bins ensures Cell(data, rows, bins, r, u) == 0 {
      RowSlot(r, u, rows, bins);
    }
    for r := 0 to rows
      invariant |data| == rows * bins
      invariant forall s, u :: 0 <= s < r && 0 <= u < bins ==> Cell(data, rows, bins, s, u) == Count(steps[s], u)
      invariant forall s, u :: r <= s < rows && 0 <= u < bins ==> Cell(data, rows, bins, s, u) == 0
    {
      var row := steps[r];
      if |row.band| > 0 {
        data := CopyRow(data, rows, bins, r, row);
      }
    }
    h := Heatmap(bins, rows, data);
  }
}
