/**
 * Random selection in the block bitset (include/core/bitset_select.hpp):
 * `random_one` finds the block holding the wanted one by Fenwick descent and
 * then the bit inside the block word by word; `random_zero` binary-searches
 * the blocks on zeros-before counts derived from the Fenwick sums, then
 * selects among the block's zeros below nbits.  The generator is a draw
 * reduced below the count.  The Fenwick entries are 32-bit, so the picks
 * are stated for bitsets of fewer than 2^32 bits, where they hold exact
 * counts.
 */
module BlockPick {
  import opened Basics
  import Threshold
  import BitOps
  import opened BlockBitset

  /** Under 2^32 bits every Fenwick node holds its exact ones count. */
  lemma NodeExact(s: Bitset, bb: nat, j: nat)
    requires Valid(s, bb) && s.nbits < Threshold.U32 && 1 <= j <= s.nblocks
    ensures s.fenwick[j] == Ones(s.bits, bb, j - LowBit(j), j)
  {
    var o := Ones(s.bits, bb, j - LowBit(j), j);
    assert o <= s.nbits by {
      MulLeft(bb, j, s.nblocks);
      OnesBound(s.bits, bb, j - LowBit(j), j);
      CountIsOnes(s, bb);
    }
    SmallMod(o);
  }

  /** A block range holds no more ones than the whole bitset. */
  lemma OnesBound(bits: seq<bool>, bb: nat, lo: nat, hi: nat)
    requires lo <= hi && hi * bb <= |bits|
    ensures Ones(bits, bb, lo, hi) <= CountTrue(bits)
  {
    MulLeft(bb, lo, hi);
    var a, b := lo * bb, hi * bb;
    assert bits == bits[..a] + bits[a..b] + bits[b..];
    CountTrueAppend(bits[..a] + bits[a..b], bits[b..]);
    CountTrueAppend(bits[..a], bits[a..b]);
  }

  predicate IsPow2(b: nat)
    decreases b
  {
    if b <= 1 then b == 1 else b % 2 == 0 && IsPow2(b / 2)
  }

  /** `1 << (63 - countl_zero(n | 1))`: the largest power of two not above max(n, 1). */
  function TopBit(n: nat): (r: nat)
    ensures IsPow2(r) && r <= Max(n, 1) < 2 * r
  {
    if n <= 1 then 1 else 2 * TopBit(n / 2)
  }

  /** An odd multiple of a power of two has that power as its lowest set bit. */
  lemma {:induction false} LowBitMid(m: nat, bit: nat)
    requires IsPow2(bit)
    ensures LowBit(m * (2 * bit) + bit) == bit
    decreases bit
  {
    if bit > 1 {
      var h := bit / 2;
      assert m * (2 * bit) == 2 * (m * (2 * h)) by {
        assert bit == 2 * h;
      }
      LowBitMid(m, h);
    }
  }

  /** The node range still to search after one descent step: twice the step, down to 1 at the end. */
  function Span(bit: nat): nat { if bit == 0 then 1 else 2 * bit }

  /** idx is a multiple of the span: the descent has fixed every bit of idx above the current step. */
  predicate Aligned(idx: nat, bit: nat) { idx % Span(bit) == 0 }

  lemma SpanHalves(m: nat, bit: nat)
    requires IsPow2(bit)
    ensures Span(bit / 2) == bit
    ensures m * Span(bit) + bit == (2 * m + 1) * Span(bit / 2)
    ensures m * Span(bit) == (2 * m) * Span(bit / 2)
  {
  }

  /** Halving the step keeps idx aligned, whether or not the step is taken, and the taken node's lowest bit is the step. */
  lemma AlignedHalves(idx: nat, bit: nat)
    requires IsPow2(bit) && Aligned(idx, bit)
    ensures Aligned(idx, bit / 2) && Aligned(idx + bit, bit / 2)
    ensures LowBit(idx + bit) == bit
  {
    var m := idx / Span(bit);
    DivRem(idx, Span(bit));
    SpanHalves(m, bit);
    LowBitMid(m, bit);
    DivModUnique(idx, bit, 2 * m, 0);
    DivModUnique(idx + bit, bit, 2 * m + 1, 0);
  }

  /**
   * `fenwick_find_by_order_(k1)`: descend from the top power of two, stepping
   * over every node whose count is below what is still wanted; the result is
   * the 1-based block holding the k1-th one.
   */
  method FindByOrder(s: Bitset, bb: nat, k1: nat) returns (b1: nat)
    requires Valid(s, bb) && s.nbits < Threshold.U32 && 1 <= k1 <= s.total
    ensures 1 <= b1 <= s.nblocks
    ensures Ones(s.bits, bb, 0, b1 - 1) < k1 <= Ones(s.bits, bb, 0, b1)
  {
    PrefixOfAllIsCount(s, bb);
    AllNodesExact(s, bb);
    b1 := Descend(s.bits, bb, s.nblocks, s.fenwick, k1);
  }

  /** Every Fenwick node holds the exact ones count of its block range. */
  ghost predicate ExactNodes(bits: seq<bool>, bb: nat, n: nat, fen: seq<nat>) {
    |fen| == n + 1 && forall j {:trigger fen[j]} :: 1 <= j <= n ==> fen[j] == Ones(bits, bb, j - LowBit(j), j)
  }

  lemma AllNodesExact(s: Bitset, bb: nat)
    requires Valid(s, bb) && s.nbits < Threshold.U32
    ensures ExactNodes(s.bits, bb, s.nblocks, s.fenwick)
  {
    forall j | 1 <= j <= s.nblocks ensures s.fenwick[j] == Ones(s.bits, bb, j - LowBit(j), j) {
      NodeExact(s, bb, j);
    }
  }

  /** The descent over exact node counts: the 1-based block holding the k1-th one. */
  method Descend(bits: seq<bool>, bb: nat, n: nat, fen: seq<nat>, k1: nat) returns (b1: nat)
    requires bb > 0 && |bits| == n * bb && ExactNodes(bits, bb, n, fen)
    requires 1 <= k1 <= Ones(bits, bb, 0, n)
    ensures 1 <= b1 <= n
    ensures Ones(bits, bb, 0, b1 - 1) < k1 <= Ones(bits, bb, 0, b1)
  {
    var idx: nat := 0;
    var bit := TopBit(n);
    var rest := k1;
    while bit > 0
      invariant idx <= n && (bit == 0 || IsPow2(bit))
      invariant Aligned(idx, bit)
      invariant Ones(bits, bb, 0, idx) < k1 && rest == k1 - Ones(bits, bb, 0, idx)
      invariant k1 <= Ones(bits, bb, 0, Min(idx + Span(bit), n))
      decreases bit
    {
      var f: nat := 0;
      if idx + bit <= n {
        f := fen[idx + bit];
        NodeAtStep(bits, bb, n, fen, idx, bit);
      }
      idx, rest := DescendStep(bits, bb, n, k1, idx, bit, f, rest);
      bit := bit / 2;
    }
    b1 := idx + 1;
  }

  /** The node a descent step looks at covers exactly the step's blocks idx .. idx+bit-1. */
  lemma NodeAtStep(bits: seq<bool>, bb: nat, n: nat, fen: seq<nat>, idx: nat, bit: nat)
    requires ExactNodes(bits, bb, n, fen) && IsPow2(bit)
    requires Aligned(idx, bit) && idx + bit <= n
    ensures fen[idx + bit] == Ones(bits, bb, idx, idx + bit)
  {
    AlignedHalves(idx, bit);
  }

  /**
   * One descent step: step over node idx + bit when it exists and holds
   * fewer ones than are still wanted (f is its count).  Either way the
   * wanted block stays inside the range that is left, now half as wide.
   */
  method DescendStep(bits: seq<bool>, bb: nat, n: nat, k1: nat, idx: nat, bit: nat, f: nat, rest: nat)
    returns (idx': nat, rest': nat)
    requires bb > 0 && |bits| == n * bb && IsPow2(bit)
    requires idx <= n && Aligned(idx, bit)
    requires idx + bit <= n ==> f == Ones(bits, bb, idx, idx + bit)
    requires Ones(bits, bb, 0, idx) < k1 <= Ones(bits, bb, 0, Min(idx + Span(bit), n))
    requires rest == k1 - Ones(bits, bb, 0, idx)
    ensures idx' <= n && Aligned(idx', bit / 2) && (idx' == idx || idx' == idx + bit)
    ensures Ones(bits, bb, 0, idx') < k1 && rest' == k1 - Ones(bits, bb, 0, idx')
    ensures k1 <= Ones(bits, bb, 0, Min(idx' + Span(bit / 2), n))
  {
    var next := idx + bit;
    assert Aligned(idx, bit / 2) && Aligned(next, bit / 2) && Span(bit / 2) == bit by {
      AlignedHalves(idx, bit);
      SpanHalves(0, bit);
    }
    if next <= n && f < rest {
      assert Ones(bits, bb, 0, next) == Ones(bits, bb, 0, idx) + Ones(bits, bb, idx, next) by {
        MulLeft(bb, next, n);
        OnesSplit(bits, bb, 0, idx, next);
      }
      idx', rest' := next, rest - f;
    } else {
      if next <= n {
        assert Ones(bits, bb, 0, next) == Ones(bits, bb, 0, idx) + Ones(bits, bb, idx, next) by {
          MulLeft(bb, next, n);
          OnesSplit(bits, bb, 0, idx, next);
        }
      }
      idx', rest' := idx, rest;
    }
  }

  /** The bits of 1-based block b1. */
  function Block(s: Bitset, bb: nat, b1: nat): (blk: seq<bool>)
    requires Layout(s, bb) && 1 <= b1 <= s.nblocks
    ensures |blk| == bb
  {
    BlockSpan(s.bits, bb, s.nblocks, b1);
    s.bits[(b1 - 1) * bb..b1 * bb]
  }

  lemma BlockSpan(bits: seq<bool>, bb: nat, nblocks: nat, b1: nat)
    requires |bits| == nblocks * bb && 1 <= b1 <= nblocks
    ensures 0 <= (b1 - 1) * bb && (b1 - 1) * bb + bb == b1 * bb <= |bits|
    ensures Ones(bits, bb, b1 - 1, b1) == CountTrue(bits[(b1 - 1) * bb..b1 * bb])
  {
    MulLeft(bb, b1, nblocks);
  }

  /** A window of a sequence extended by its next 64 entries. */
  lemma CountGrow(blk: seq<bool>, a: nat, b: nat)
    requires a <= b <= |blk|
    ensures CountTrue(blk[..b]) == CountTrue(blk[..a]) + CountTrue(blk[a..b])
  {
    assert blk[..b] == blk[..a] + blk[a..b];
    CountTrueAppend(blk[..a], blk[a..b]);
  }

  /** The word's r-th one, offset by the word's start, is the block's one of rank r plus the ones before the word. */
  lemma WordSelect(blk: seq<bool>, a: nat, w: seq<bool>, bit: nat, rIn: nat)
    requires a + |w| <= |blk| && w == blk[a..a + |w|] && bit < |w| && w[bit]
    requires CountTrue(blk[..a]) + CountTrue(w[..bit]) == rIn
    ensures rIn < CountTrue(blk) && a + bit == SelectTrue(blk, rIn)
  {
    assert blk[a..a + bit] == w[..bit];
    CountGrow(blk, a, a + bit);
    SelectTrueUnique(blk, rIn, a + bit);
  }

  /** The word walk of select1_in_block_: the position in blk of its rank-r one, if it has one. */
  method ScanOnes(blk: seq<bool>, rIn: nat) returns (q: Option<nat>)
    requires |blk| % 64 == 0
    ensures rIn < CountTrue(blk) ==> q == Some(SelectTrue(blk, rIn))
    ensures rIn >= CountTrue(blk) ==> q == None
  {
    var r: nat := rIn;
    var j := 0;
    while j < |blk| / 64
      invariant j <= |blk| / 64 && j * 64 <= |blk|
      invariant r + CountTrue(blk[..j * 64]) == rIn
    {
      var w := blk[j * 64..j * 64 + 64];
      var c := CountTrue(w);
      CountGrow(blk, j * 64, j * 64 + 64);
      if r < c {
        var bit := BitOps.Select1(w, r);
        WordSelect(blk, j * 64, w, bit, rIn);
        return Some(j * 64 + bit);
      }
      r := r - c;
      j := j + 1;
    }
    assert blk[..|blk|] == blk;
    return None;
  }

  /**
   * `select1_in_block_(b1, r)`: walk the block's words, skipping whole words
   * by popcount, and select inside the word that holds the rank-r one; npos
   * when the block has r ones or fewer.
   */
  method Select1InBlock(s: Bitset, bb: nat, b1: nat, rIn: nat) returns (p: nat)
    requires Layout(s, bb) && 1 <= b1 <= s.nblocks
    ensures rIn < CountTrue(Block(s, bb, b1)) ==> p == (b1 - 1) * bb + SelectTrue(Block(s, bb, b1), rIn)
    ensures rIn >= CountTrue(Block(s, bb, b1)) ==> p == Npos
  {
    var blk := Block(s, bb, b1);
    BlockSpan(s.bits, bb, s.nblocks, b1);
    var q := ScanOnes(blk, rIn);
    p := if q.Some? then (b1 - 1) * bb + q.value else Npos;
  }

  /** Zeros among the first min(m * bb, nbits) bits: `prefix_bits_(m) - fenwick_sum_(m)`. */
  function ZerosBefore(s: Bitset, bb: nat, m: nat): (z: nat)
    requires |s.bits| >= s.nbits
  {
    var c := Min(m * bb, s.nbits);
    c - CountTrue(s.bits[..c])
  }

  /** `prefix_bits_(m)`: the bits in the first m blocks, capped at nbits. */
  function PrefixBits(s: Bitset, bb: nat, m: nat): (c: nat)
    ensures c <= s.nbits && (c == m * bb || c == s.nbits)
  {
    Min(m * bb, s.nbits)
  }

  /** Within the first m blocks the ones all lie below nbits, so the Fenwick prefix is the ones of the capped prefix. */
  lemma PrefixOnes(s: Bitset, bb: nat, m: nat)
    requires Shape(s, bb) && m <= s.nblocks
    ensures Ones(s.bits, bb, 0, m) == CountTrue(s.bits[..PrefixBits(s, bb, m)])
  {
    MulLeft(bb, m, s.nblocks);
    var c := PrefixBits(s, bb, m);
    CountGrow(s.bits, c, m * bb);
    CountTrueAllFalse(s.bits[c..m * bb]);
  }

  /** The block layout without the padding: whole blocks of bb bits, only the last reaching past nbits. */
  ghost predicate Layout(s: Bitset, bb: nat) {
    && bb > 0 && bb % 64 == 0
    && |s.bits| == s.nblocks * bb
    && s.nbits <= |s.bits|
    && (s.nblocks > 0 ==> (s.nblocks - 1) * bb < s.nbits)
  }

  /** Only the last block reaches past nbits. */
  lemma ShapeBounds(s: Bitset, bb: nat)
    requires Shape(s, bb)
    ensures Layout(s, bb)
  {
  }

  /** Block b1 starts below nbits and ends at or before the stored bits. */
  lemma ZeroSpan(bits: seq<bool>, bb: nat, nblocks: nat, nbits: nat, b1: nat)
    requires |bits| == nblocks * bb && 1 <= b1 <= nblocks && (nblocks - 1) * bb < nbits <= |bits|
    ensures 0 <= (b1 - 1) * bb < Min(b1 * bb, nbits) <= (b1 - 1) * bb + bb
    ensures Min(b1 * bb, nbits) <= |bits|
  {
    MulLeft(bb, b1 - 1, nblocks - 1);
    MulLeft(bb, b1, nblocks);
  }

  /** `block_capacity_bits_(b1)`: the block's bits below nbits. */
  function Capacity(s: Bitset, bb: nat, b1: nat): (cap: nat)
    requires Layout(s, bb) && 1 <= b1 <= s.nblocks
    ensures 0 < cap <= bb && (b1 - 1) * bb + cap == PrefixBits(s, bb, b1)
  {
    ZeroSpan(s.bits, bb, s.nblocks, s.nbits, b1);
    PrefixBits(s, bb, b1) - (b1 - 1) * bb
  }

  /** Zero entries of a bit sequence. */
  function Zeros(x: seq<bool>): (z: nat)
  {
    |x| - CountTrue(x)
  }

  /** The block's zeros below nbits are the zeros-before count of the next block minus this one's. */
  lemma BlockZerosCount(s: Bitset, bb: nat, b1: nat)
    requires Layout(s, bb) && 1 <= b1 <= s.nblocks
    ensures Zeros(Block(s, bb, b1)[..Capacity(s, bb, b1)]) == ZerosBefore(s, bb, b1) - ZerosBefore(s, bb, b1 - 1)
  {
    var base, top, cap := (b1 - 1) * bb, PrefixBits(s, bb, b1), Capacity(s, bb, b1);
    assert 0 <= base <= top <= |s.bits| && ZerosBefore(s, bb, b1 - 1) == base - CountTrue(s.bits[..base]) by {
      ZeroSpan(s.bits, bb, s.nblocks, s.nbits, b1);
    }
    assert Block(s, bb, b1)[..cap] == s.bits[base..top] by {
      BlockSpan(s.bits, bb, s.nblocks, b1);
    }
    CountGrow(s.bits, base, top);
  }

  /** `mask` in select0_in_block_: the low `remain` bits of a word (all of them from 64 on). */
  function LowMask(remain: nat): (mask: seq<bool>)
    ensures |mask| == 64 && forall t :: 0 <= t < 64 ==> mask[t] == (t < remain)
  {
    seq(64, t => t < remain)
  }

  /** `(~w) & mask`: the word's zeros below `remain`. */
  function MaskedZeros(w: seq<bool>, remain: nat): (zw: seq<bool>)
    requires |w| == 64
    ensures |zw| == 64 && forall t :: 0 <= t < 64 ==> zw[t] == (!w[t] && LowMask(remain)[t])
  {
    seq(64, t requires 0 <= t < 64 => !w[t] && LowMask(remain)[t])
  }

  /** A word's masked zeros count the zeros of blk from the word's start up to cap. */
  lemma ZeroWord(blk: seq<bool>, cap: nat, a: nat, zw: seq<bool>)
    requires 0 < cap <= |blk| && a < cap && a + 64 <= |blk|
    requires zw == MaskedZeros(blk[a..a + 64], cap - a)
    ensures CountTrue(zw) == Zeros(blk[a..Min(a + 64, cap)])
    ensures Zeros(blk[..Min(a + 64, cap)]) == Zeros(blk[..a]) + CountTrue(zw)
  {
    var e := Min(a + 64, cap);
    NegateCount(blk[a..e], zw[..e - a]);
    assert zw == zw[..e - a] + zw[e - a..];
    CountTrueAppend(zw[..e - a], zw[e - a..]);
    CountTrueAllFalse(zw[e - a..]);
    CountGrow(blk, a, e);
  }

  /** The word's rank-r masked zero is the zero of blk with rIn zeros before it. */
  lemma ZeroHit(blk: seq<bool>, cap: nat, a: nat, zw: seq<bool>, bit: nat, rIn: nat)
    requires 0 < cap <= |blk| && a < cap && a + 64 <= |blk|
    requires zw == MaskedZeros(blk[a..a + 64], cap - a)
    requires bit < 64 && zw[bit] && Zeros(blk[..a]) + CountTrue(zw[..bit]) == rIn
    ensures a + bit < cap && !blk[a + bit] && Zeros(blk[..a + bit]) == rIn
  {
    NegateCount(blk[a..a + bit], zw[..bit]);
    CountGrow(blk, a, a + bit);
  }

  /** The word walk of select0_in_block_: the first cap bits of blk hold fewer than rIn + 1 zeros, or the zero with rIn zeros before it. */
  method ScanZeros(blk: seq<bool>, cap: nat, rIn: nat) returns (q: Option<nat>)
    requires |blk| % 64 == 0 && 0 < cap <= |blk|
    ensures q.None? <==> rIn >= Zeros(blk[..cap])
    ensures q.Some? ==> q.value < cap && !blk[q.value] && Zeros(blk[..q.value]) == rIn
  {
    var r: nat := rIn;
    var a: nat := 0;
    while a < |blk| && a < cap
      invariant a <= |blk| && (|blk| - a) % 64 == 0
      invariant r + Zeros(blk[..Min(a, cap)]) == rIn
    {
      var hit, c := WordStep(blk, cap, a, r);
      if hit.Some? {
        ZerosBelowCap(blk, cap, a + hit.value);
        return Some(a + hit.value);
      }
      r := r - c;
      a := a + 64;
    }
    return None;
  }

  /** One word of select0_in_block_: its masked zeros, and the one of rank r among them when there are enough. */
  method WordStep(blk: seq<bool>, cap: nat, a: nat, r: nat) returns (hit: Option<nat>, c: nat)
    requires 0 < cap <= |blk| && a < cap && a + 64 <= |blk|
    ensures Zeros(blk[..Min(a + 64, cap)]) == Zeros(blk[..a]) + c
    ensures hit.None? <==> c <= r
    ensures hit.Some? ==> a + hit.value < cap && !blk[a + hit.value] && Zeros(blk[..a + hit.value]) == Zeros(blk[..a]) + r
  {
    var zw := MaskedZeros(blk[a..a + 64], cap - a);
    ZeroWord(blk, cap, a, zw);
    c := CountTrue(zw);
    if r < c {
      var bit := BitOps.Select1(zw, r);
      ZeroHit(blk, cap, a, zw, bit, Zeros(blk[..a]) + r);
      hit := Some(bit);
    } else {
      hit := None;
    }
  }

  /** A zero inside the first cap bits leaves more zeros at cap than before it. */
  lemma ZerosBelowCap(blk: seq<bool>, cap: nat, t: nat)
    requires t < cap <= |blk| && !blk[t]
    ensures Zeros(blk[..t]) < Zeros(blk[..cap])
  {
    CountGrow(blk, t, cap);
    assert blk[t..cap] == [blk[t]] + blk[t + 1..cap];
    CountTrueAppend([blk[t]], blk[t + 1..cap]);
  }

  /**
   * `select0_in_block_(b1, r)`: walk the block's words up to nbits, counting
   * masked zeros, and select the zero with r zeros before it in the block;
   * npos when there are too few.
   */
  method Select0InBlock(s: Bitset, bb: nat, b1: nat, rIn: nat) returns (p: nat)
    requires Layout(s, bb) && 1 <= b1 <= s.nblocks
    ensures rIn >= Zeros(Block(s, bb, b1)[..Capacity(s, bb, b1)]) ==> p == Npos
    ensures rIn < Zeros(Block(s, bb, b1)[..Capacity(s, bb, b1)]) ==>
              (b1 - 1) * bb <= p < (b1 - 1) * bb + Capacity(s, bb, b1)
              && !Block(s, bb, b1)[p - (b1 - 1) * bb]
              && Zeros(Block(s, bb, b1)[..p - (b1 - 1) * bb]) == rIn
  {
    var blk := Block(s, bb, b1);
    BlockSpan(s.bits, bb, s.nblocks, b1);
    var cap := Capacity(s, bb, b1);
    var q := ScanZeros(blk, cap, rIn);
    p := if q.Some? then (b1 - 1) * bb + q.value else Npos;
  }

  /** A 32-bit cast of a value that fits changes nothing. */
  lemma SmallMod(x: int)
    requires 0 <= x < Threshold.U32
    ensures x % Threshold.U32 == x
  {
  }

  /**
   * The pieces random_one combines: the blocks before b1 hold at most k
   * ones, the rank inside the block (which starts at base) is the rest.
   */
  lemma OneFound(bits: seq<bool>, bb: nat, b1: nat, base: nat, k: nat, onesBefore: nat, rIn: nat, p: nat)
    requires bb > 0 && 1 <= b1 && base == (b1 - 1) * bb && base + bb <= |bits| && k < Threshold.U32
    requires Ones(bits, bb, 0, b1 - 1) <= k < Ones(bits, bb, 0, b1)
    requires onesBefore == Ones(bits, bb, 0, b1 - 1) % Threshold.U32
    requires rIn == (k - onesBefore) % Threshold.U32
    requires rIn < CountTrue(bits[base..base + bb]) ==> p == base + SelectTrue(bits[base..base + bb], rIn)
    ensures p < |bits| && bits[p] && CountTrue(bits[..p]) == k
  {
    var before := Ones(bits, bb, 0, b1 - 1);
    SmallMod(before);
    SmallMod(k - before);
    assert base + bb == b1 * bb;
    OnesPrefix(bits, bb, b1 - 1);
    OnesSplit(bits, bb, 0, b1 - 1, b1);
    var blk := bits[base..base + bb];
    assert Ones(bits, bb, b1 - 1, b1) == CountTrue(blk);
    assert rIn == k - before < CountTrue(blk);
    var q := SelectTrue(blk, rIn);
    InBlock(bits, base, bb, q);
  }

  /** The Fenwick prefix over the first m blocks counts the ones of the first m * bb bits. */
  lemma OnesPrefix(bits: seq<bool>, bb: nat, m: nat)
    requires m * bb <= |bits|
    ensures Ones(bits, bb, 0, m) == CountTrue(bits[..m * bb])
  {
    assert bits[0..m * bb] == bits[..m * bb];
  }

  /** Entry q of the run bits[base..base+len] is bits[base + q], and the ones before it add to those before base. */
  lemma InBlock(bits: seq<bool>, base: nat, len: nat, q: nat)
    requires base + len <= |bits| && q < len
    ensures bits[base..base + len][q] == bits[base + q]
    ensures CountTrue(bits[..base + q]) == CountTrue(bits[..base]) + CountTrue(bits[base..base + len][..q])
  {
    assert bits[base..base + len][..q] == bits[base..base + q];
    CountGrow(bits, base, base + q);
  }

  /**
   * `random_one(rng)`: npos when there are no ones, otherwise the one of
   * rank draw mod count(): its block by Fenwick descent on k + 1, its rank in
   * the block as k less the ones before the block (cast to 32 bits).
   */
  method RandomOne(s: Bitset, bb: nat, draw: nat) returns (p: nat)
    requires Valid(s, bb) && s.nbits < Threshold.U32
    ensures s.total == 0 ==> p == Npos
    ensures s.total > 0 ==> p < s.nbits && s.bits[p] && CountTrue(s.bits[..p]) == draw % s.total
  {
    if s.total == 0 {
      return Npos;
    }
    var k := draw % s.total;
    var b1 := FindByOrder(s, bb, k + 1);
    var onesBefore := FenwickSum(s, bb, b1 - 1);
    var rIn := (k - onesBefore) % Threshold.U32;
    ShapeBounds(s, bb);
    p := Select1InBlock(s, bb, b1, rIn);
    var base := (b1 - 1) * bb;
    assert base + bb <= |s.bits| && Block(s, bb, b1) == s.bits[base..base + bb] by {
      BlockSpan(s.bits, bb, s.nblocks, b1);
    }
    assert k < Threshold.U32 by {
      CountIsOnes(s, bb);
    }
    OneFound(s.bits, bb, b1, base, k, onesBefore, rIn, p);
  }

  /** Under 2^32 bits, `prefix_bits_(m) - fenwick_sum_(m)` is the zeros-before count. */
  lemma ZerosAt(s: Bitset, bb: nat, m: nat)
    requires Valid(s, bb) && s.nbits < Threshold.U32 && m <= s.nblocks
    ensures PrefixBits(s, bb, m) - Ones(s.bits, bb, 0, m) % Threshold.U32 == ZerosBefore(s, bb, m)
  {
    PrefixOnes(s, bb, m);
  }

  /** No zeros before block 0; all nbits - count() of them before the end. */
  lemma ZerosEnds(s: Bitset, bb: nat)
    requires Valid(s, bb)
    ensures ZerosBefore(s, bb, 0) == 0
    ensures ZerosBefore(s, bb, s.nblocks) == s.nbits - s.total
  {
    CountIsOnes(s, bb);
  }

  /** The pieces random_zero combines: the zeros before block lo, and the rank among the block's zeros. */
  lemma ZeroFound(s: Bitset, bb: nat, lo: nat, k: nat, zerosBefore: nat, rIn: nat, p: nat)
    requires Layout(s, bb) && s.nbits < Threshold.U32 && 1 <= lo <= s.nblocks && k < s.nbits
    requires zerosBefore == ZerosBefore(s, bb, lo - 1) <= k < ZerosBefore(s, bb, lo)
    requires rIn == (k - zerosBefore) % Threshold.U32
    requires rIn < Zeros(Block(s, bb, lo)[..Capacity(s, bb, lo)]) ==>
               (lo - 1) * bb <= p < (lo - 1) * bb + Capacity(s, bb, lo)
               && !Block(s, bb, lo)[p - (lo - 1) * bb]
               && Zeros(Block(s, bb, lo)[..p - (lo - 1) * bb]) == rIn
    ensures p < s.nbits && !s.bits[p] && p - CountTrue(s.bits[..p]) == k
  {
    var base, cap, blk := (lo - 1) * bb, Capacity(s, bb, lo), Block(s, bb, lo);
    assert rIn == k - zerosBefore < Zeros(blk[..cap]) by {
      SmallMod(k - zerosBefore);
      BlockZerosCount(s, bb, lo);
    }
    assert base + bb <= |s.bits| && blk == s.bits[base..base + bb] by {
      BlockSpan(s.bits, bb, s.nblocks, lo);
    }
    assert zerosBefore == base - CountTrue(s.bits[..base]) by {
      ZeroSpan(s.bits, bb, s.nblocks, s.nbits, lo);
    }
    assert base <= p < base + cap <= s.nbits;
    ZeroAt(s.bits, base, bb, p - base, zerosBefore, rIn, k);
  }

  /** The zero with rIn zeros before it in the run from base is the zero with k zeros before it overall. */
  lemma ZeroAt(bits: seq<bool>, base: nat, len: nat, t: nat, zb: nat, rIn: nat, k: nat)
    requires base + len <= |bits| && t < len
    requires !bits[base..base + len][t] && Zeros(bits[base..base + len][..t]) == rIn
    requires zb == base - CountTrue(bits[..base]) && k == zb + rIn
    ensures !bits[base + t] && (base + t) - CountTrue(bits[..base + t]) == k
  {
    InBlock(bits, base, len, t);
  }

  /** The binary search of random_zero: the first block whose zeros-before count exceeds k. */
  method ZeroBlock(s: Bitset, bb: nat, k: nat) returns (lo: nat)
    requires Valid(s, bb) && s.nbits < Threshold.U32 && k < s.nbits - s.total
    ensures 1 <= lo <= s.nblocks && ZerosBefore(s, bb, lo - 1) <= k < ZerosBefore(s, bb, lo)
  {
    ZerosEnds(s, bb);
    var hi := s.nblocks;
    lo := 1;
    while lo < hi
      invariant 1 <= lo <= hi <= s.nblocks
      invariant ZerosBefore(s, bb, lo - 1) <= k < ZerosBefore(s, bb, hi)
      decreases hi - lo
    {
      var mid := (lo + hi) / 2;
      var sum := FenwickSum(s, bb, mid);
      var zerosMid := PrefixBits(s, bb, mid) - sum;
      ZerosAt(s, bb, mid);
      if zerosMid > k {
        hi := mid;
      } else {
        lo := mid + 1;
      }
    }
  }

  /**
   * `random_zero(rng)`: npos when every bit is set, otherwise the zero of
   * rank draw mod (nbits - count()): binary search for the first block whose
   * zeros-before count exceeds the rank, then the rank among its zeros.
   */
  method RandomZero(s: Bitset, bb: nat, draw: nat) returns (p: nat)
    requires Valid(s, bb) && s.nbits < Threshold.U32
    ensures s.total >= s.nbits ==> p == Npos
    ensures s.total < s.nbits ==>
              p < s.nbits && !s.bits[p] && p - CountTrue(s.bits[..p]) == draw % (s.nbits - s.total)
  {
    if s.total >= s.nbits {
      return Npos;
    }
    var zeros := s.nbits - s.total;
    var k := draw % zeros;
    var lo := ZeroBlock(s, bb, k);
    var sumBefore := FenwickSum(s, bb, lo - 1);
    var zerosBefore := PrefixBits(s, bb, lo - 1) - sumBefore;
    ZerosAt(s, bb, lo - 1);
    var rIn := (k - zerosBefore) % Threshold.U32;
    ShapeBounds(s, bb);
    p := Select0InBlock(s, bb, lo, rIn);
    ZeroFound(s, bb, lo, k, zerosBefore, rIn, p);
  }
}
