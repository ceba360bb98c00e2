/**
 * The block-Fenwick bitset `BlockSelectBitset<BlockBits>`
 * (include/core/bitset_select.hpp): nbits bits stored in whole blocks of
 * `bb` bits (a multiple of 64), a running count of ones, and a Fenwick tree
 * over the per-block ones counts.  The words are modelled as one bit
 * sequence (bit i of the stream is bit i % 64 of word i / 64).  The Fenwick
 * entries are 32-bit in the source and are kept modulo 2^32 here; the
 * lowest-set-bit arithmetic `i & -i` and `i & (i - 1)` is LowBit.
 */
module BlockBitset {
  import opened Basics
  import Threshold

  /** `npos`: the largest size_t. */
  const Npos: nat := Threshold.U64 - 1

  datatype Bitset = Bitset(nbits: nat, nblocks: nat, bits: seq<bool>, fenwick: seq<nat>, total: nat)

  /** `i & -i`: the lowest set bit of i, as a value. */
  function LowBit(i: nat): (r: nat)
    requires i > 0
    ensures 1 <= r <= i
  {
    if i % 2 == 1 then 1 else 2 * LowBit(i / 2)
  }

  /** Fenwick node j (1-based) holds the ones of 1-based blocks j - LowBit(j) + 1 .. j. */
  predicate Covers(j: nat, b1: nat) {
    j > 0 && j - LowBit(j) < b1 <= j
  }

  /** Set bits in the (0-based) blocks lo .. hi-1, clipped to the stored bits. */
  function Ones(bits: seq<bool>, bb: nat, lo: nat, hi: nat): (r: nat)
  {
    var a, b := Min(lo * bb, |bits|), Min(hi * bb, |bits|);
    if a <= b then CountTrue(bits[a..b]) else 0
  }

  /** Blocks needed for nbits bits. */
  function BlockCount(nbits: nat, bb: nat): (r: nat)
    requires bb > 0
    ensures r * bb >= nbits && (r > 0 ==> (r - 1) * bb < nbits)
  {
    DivRem(nbits + bb - 1, bb);
    (nbits + bb - 1) / bb
  }

  /** The storage: whole blocks of whole words, just enough of them, zero past nbits. */
  ghost predicate Shape(s: Bitset, bb: nat) {
    && bb > 0 && bb % 64 == 0
    && s.nblocks == BlockCount(s.nbits, bb)
    && |s.bits| == s.nblocks * bb
    && (forall i :: s.nbits <= i < |s.bits| ==> !s.bits[i])
  }

  /** The shape, the running count, and every Fenwick node holding its block range's ones mod 2^32. */
  ghost predicate Valid(s: Bitset, bb: nat) {
    && Shape(s, bb)
    && s.total == CountTrue(s.bits)
    && |s.fenwick| == s.nblocks + 1
    && forall j {:trigger s.fenwick[j]} :: 1 <= j <= s.nblocks ==> s.fenwick[j] == Ones(s.bits, bb, j - LowBit(j), j) % Threshold.U32
  }

  lemma OnesOfBlank(bits: seq<bool>, bb: nat, lo: nat, hi: nat)
    requires forall i :: 0 <= i < |bits| ==> !bits[i]
    ensures Ones(bits, bb, lo, hi) == 0
  {
    var a, b := Min(lo * bb, |bits|), Min(hi * bb, |bits|);
    if a <= b {
      CountTrueAllFalse(bits[a..b]);
    }
  }

  /** The constructor: nbits zero bits in whole blocks, zero counts. */
  function New(nbits: nat, bb: nat): (s: Bitset)
    requires bb > 0 && bb % 64 == 0
    ensures Valid(s, bb) && s.nbits == nbits && s.total == 0
    ensures forall i :: 0 <= i < |s.bits| ==> !s.bits[i]
  {
    var nblocks := BlockCount(nbits, bb);
    var bits := seq(nblocks * bb, _ => false);
    forall j | 1 <= j <= nblocks ensures Ones(bits, bb, j - LowBit(j), j) == 0 {
      OnesOfBlank(bits, bb, j - LowBit(j), j);
    }
    CountTrueAllFalse(bits);
    Bitset(nbits, nblocks, bits, seq(nblocks + 1, _ => 0), 0)
  }

  /** `test(i)`: false past the end. */
  function Test(s: Bitset, i: nat): (r: bool)
    requires |s.bits| >= s.nbits
    ensures i >= s.nbits ==> !r
    ensures i < s.nbits ==> r == s.bits[i]
  {
    if i >= s.nbits then false else s.bits[i]
  }

  /** The bits as a sequence of nbits booleans. */
  function View(s: Bitset): (v: seq<bool>)
    requires |s.bits| >= s.nbits
  {
    s.bits[..s.nbits]
  }

  lemma BitsCoverView(s: Bitset, bb: nat)
    requires Valid(s, bb)
    ensures |s.bits| >= s.nbits
  {
  }

  /** `count()` is the number of ones among the nbits bits. */
  lemma CountIsOnes(s: Bitset, bb: nat)
    requires Valid(s, bb)
    ensures s.total == CountTrue(View(s))
  {
    assert s.bits == s.bits[..s.nbits] + s.bits[s.nbits..];
    CountTrueAppend(s.bits[..s.nbits], s.bits[s.nbits..]);
    CountTrueAllFalse(s.bits[s.nbits..]);
  }

  /** The lowest set bit of an odd multiple of 2^k is 2^k; adding less than it keeps the lower bits of the addend. */
  lemma {:induction false} LowBitAdd(i: nat, d: nat)
    requires i > 0 && 0 < d < LowBit(i)
    ensures LowBit(i + d) == LowBit(d)
  {
    if i % 2 == 0 && d % 2 == 0 {
      LowBitAdd(i / 2, d / 2);
      assert (i + d) / 2 == i / 2 + d / 2;
    }
  }

  /** Moving up the tree at least doubles the lowest set bit. */
  lemma {:induction false} LowBitClimb(i: nat)
    requires i > 0
    ensures LowBit(i + LowBit(i)) >= 2 * LowBit(i)
  {
    if i % 2 == 0 {
      LowBitClimb(i / 2);
      assert (i + LowBit(i)) / 2 == i / 2 + LowBit(i / 2);
    }
  }

  /**
   * The nodes covering block b1 are exactly the chain b1, b1 + LowBit(b1), ...:
   * between a covering node i and its successor no node covers b1, and the
   * successor covers b1 again.
   */
  lemma ChainStep(i: nat, b1: nat)
    requires Covers(i, b1)
    ensures Covers(i + LowBit(i), b1)
    ensures forall j :: i < j < i + LowBit(i) ==> !Covers(j, b1)
  {
    LowBitClimb(i);
    forall j | i < j < i + LowBit(i) ensures !Covers(j, b1) {
      LowBitAdd(i, j - i);
    }
  }

  /** `fenwick_add_(ft, idx, delta)`: add delta (mod 2^32) to every node on the chain up from idx. */
  method FenwickAdd(ft: seq<nat>, idx: nat, delta: nat) returns (r: seq<nat>)
    requires idx > 0
    ensures |r| == |ft|
    ensures forall j :: 0 <= j < |ft| ==>
              r[j] == if Covers(j, idx) then (ft[j] + delta) % Threshold.U32 else ft[j]
  {
    r := ft;
    var i := idx;
    while i < |r|
      invariant |r| == |ft| && Covers(i, idx)
      invariant forall j :: 0 <= j < |ft| ==>
                  r[j] == if Covers(j, idx) && j < i then (ft[j] + delta) % Threshold.U32 else ft[j]
      decreases |r| - i
    {
      ChainStep(i, idx);
      r := r[i := (r[i] + delta) % Threshold.U32];
      i := i + LowBit(i);
    }
  }

  /** Ones in blocks lo .. hi-1 split at any m between them. */
  lemma OnesSplit(bits: seq<bool>, bb: nat, lo: nat, m: nat, hi: nat)
    requires lo <= m <= hi && hi * bb <= |bits|
    ensures Ones(bits, bb, lo, hi) == Ones(bits, bb, lo, m) + Ones(bits, bb, m, hi)
  {
    MulLeft(bb, lo, m);
    MulLeft(bb, m, hi);
    var a, b, c := lo * bb, m * bb, hi * bb;
    assert bits[a..c] == bits[a..b] + bits[b..c];
    CountTrueAppend(bits[a..b], bits[b..c]);
  }

  /** The (0-based) block holding bit i. */
  function BlockOf(i: nat, bb: nat): (b: nat)
    requires bb > 0
    ensures b * bb <= i < b * bb + bb
  {
    DivRem(i, bb);
    i / bb
  }

  /** Bit i lies in block i / bb: lo <= i / bb < hi exactly when lo*bb <= i < hi*bb. */
  lemma InBlocks(i: nat, bb: nat, lo: nat, hi: nat)
    requires bb > 0
    ensures (lo <= i / bb < hi) <==> (lo * bb <= i < hi * bb)
  {
    DivRem(i, bb);
    var q := i / bb;
    if q >= lo { MulLeft(bb, lo, q); } else { MulLeft(bb, q + 1, lo); }
    if q < hi { MulLeft(bb, q + 1, hi); } else { MulLeft(bb, hi, q); }
  }

  /** Writing bit i changes the ones of a block range only when i's block is in it. */
  lemma OnesUpdate(bits: seq<bool>, bb: nat, lo: nat, hi: nat, i: nat, to: bool)
    requires bb > 0 && lo <= hi && hi * bb <= |bits| && i < |bits|
    ensures var inside := lo <= i / bb < hi;
            Ones(bits[i := to], bb, lo, hi) + Ind(inside && bits[i])
            == Ones(bits, bb, lo, hi) + Ind(inside && to)
  {
    InBlocks(i, bb, lo, hi);
    MulLeft(bb, lo, hi);
    var a, b := lo * bb, hi * bb;
    var bits' := bits[i := to];
    if a <= i < b {
      assert bits'[a..b] == bits[a..b][i - a := to];
      CountTrueUpdate(bits[a..b], i - a, to);
    } else {
      assert bits'[a..b] == bits[a..b];
    }
  }

  function Ind(b: bool): nat { if b then 1 else 0 }

  /** Adding 1, or 2^32 - 1, to a count kept mod 2^32 tracks the count going up or down by one. */
  lemma ModStep(x: nat, up: bool)
    requires up || x >= 1
    ensures (x % Threshold.U32 + (if up then 1 else Threshold.U32 - 1)) % Threshold.U32
            == (if up then x + 1 else x - 1) % Threshold.U32
  {
    DivRem(x, Threshold.U32);
  }

  /** After bit i changes, every Fenwick node still holds its range's ones. */
  lemma WriteKeepsFenwick(s: Bitset, bb: nat, i: nat, to: bool, ft: seq<nat>)
    requires Valid(s, bb) && i < s.nbits && s.bits[i] != to
    requires |ft| == |s.fenwick|
    requires forall j :: 0 <= j < |ft| ==>
               ft[j] == if Covers(j, BlockOf(i, bb) + 1)
                        then (s.fenwick[j] + (if to then 1 else Threshold.U32 - 1)) % Threshold.U32
                        else s.fenwick[j]
    ensures forall j :: 1 <= j <= s.nblocks ==>
              ft[j] == Ones(s.bits[i := to], bb, j - LowBit(j), j) % Threshold.U32
  {
    forall j | 1 <= j <= s.nblocks
      ensures ft[j] == Ones(s.bits[i := to], bb, j - LowBit(j), j) % Threshold.U32
    {
      NodeAfterWrite(s.bits, bb, s.nblocks, j, i, to, s.fenwick[j], ft[j]);
    }
  }

  /** One node: it moves by one exactly when it covers the written bit's block. */
  lemma NodeAfterWrite(bits: seq<bool>, bb: nat, nblocks: nat, j: nat, i: nat, to: bool, f: nat, f': nat)
    requires bb > 0 && |bits| == nblocks * bb && 1 <= j <= nblocks && i < |bits| && bits[i] != to
    requires f == Ones(bits, bb, j - LowBit(j), j) % Threshold.U32
    requires f' == if Covers(j, BlockOf(i, bb) + 1) then (f + (if to then 1 else Threshold.U32 - 1)) % Threshold.U32 else f
    ensures f' == Ones(bits[i := to], bb, j - LowBit(j), j) % Threshold.U32
  {
    MulLeft(bb, j, nblocks);
    OnesUpdate(bits, bb, j - LowBit(j), j, i, to);
    if Covers(j, BlockOf(i, bb) + 1) {
      ModStep(Ones(bits, bb, j - LowBit(j), j), to);
    }
  }

  /** `write_bit_(i, to)`: nothing when the bit already has that value, else flip it and move the counts. */
  method WriteBit(s: Bitset, bb: nat, i: nat, to: bool) returns (r: Bitset)
    requires Valid(s, bb) && i < s.nbits
    ensures Valid(r, bb) && r.nbits == s.nbits && r.bits == s.bits[i := to]
    ensures s.bits[i] == to ==> r == s
  {
    if s.bits[i] == to {
      assert s.bits[i := to] == s.bits;
      return s;
    }
    var b1 := BlockOf(i, bb) + 1;
    var delta := if to then 1 else Threshold.U32 - 1;
    var ft := FenwickAdd(s.fenwick, b1, delta);
    var bits := s.bits[i := to];
    CountTrueUpdate(s.bits, i, to);
    WriteKeepsFenwick(s, bb, i, to, ft);
    r := Bitset(s.nbits, s.nblocks, bits, ft, if to then s.total + 1 else s.total - 1);
  }

  /** `set(i)`: a no-op past the end. */
  method SetBit(s: Bitset, bb: nat, i: nat) returns (r: Bitset)
    requires Valid(s, bb)
    ensures Valid(r, bb) && r.nbits == s.nbits
    ensures i >= s.nbits || s.bits[i] ==> r == s
    ensures forall j :: Test(r, j) == (Test(s, j) || (j == i && i < s.nbits))
  {
    r := s;
    if i < s.nbits {
      r := WriteBit(s, bb, i, true);
    }
  }

  /** `reset(i)`: a no-op past the end. */
  method ResetBit(s: Bitset, bb: nat, i: nat) returns (r: Bitset)
    requires Valid(s, bb)
    ensures Valid(r, bb) && r.nbits == s.nbits
    ensures i >= s.nbits || !s.bits[i] ==> r == s
    ensures forall j :: Test(r, j) == (Test(s, j) && j != i)
  {
    r := s;
    if i < s.nbits {
      r := WriteBit(s, bb, i, false);
    }
  }

  /** `flip(i)`: toggle_bit_ is write_bit_ with the opposite of the current bit, whose early return never fires. */
  method FlipBit(s: Bitset, bb: nat, i: nat) returns (r: Bitset)
    requires Valid(s, bb)
    ensures Valid(r, bb) && r.nbits == s.nbits
    ensures i >= s.nbits ==> r == s
    ensures forall j :: Test(r, j) == (if j == i && i < s.nbits then !Test(s, j) else Test(s, j))
  {
    r := s;
    if i < s.nbits {
      r := WriteBit(s, bb, i, !s.bits[i]);
    }
  }

  /** `fenwick_sum_(idx)`: the 32-bit sum of the nodes on the chain down from idx (`i &= i - 1` drops the lowest set bit). */
  method FenwickSum(s: Bitset, bb: nat, idx: nat) returns (r: nat)
    requires Valid(s, bb) && idx <= s.nblocks
    ensures r == Ones(s.bits, bb, 0, idx) % Threshold.U32
  {
    MulLeft(bb, idx, s.nblocks);
    r := 0;
    var i: nat := idx;
    while i > 0
      invariant i <= idx && r < Threshold.U32
      invariant (r + Ones(s.bits, bb, 0, i)) % Threshold.U32 == Ones(s.bits, bb, 0, idx) % Threshold.U32
    {
      MulLeft(bb, i, s.nblocks);
      OnesSplit(s.bits, bb, 0, i - LowBit(i), i);
      SumStep(r, s.fenwick[i], Ones(s.bits, bb, i - LowBit(i), i), Ones(s.bits, bb, 0, i - LowBit(i)));
      r := (r + s.fenwick[i]) % Threshold.U32;
      i := i - LowBit(i);
    }
  }

  lemma SumStep(r: nat, f: nat, part: nat, rest: nat)
    requires f == part % Threshold.U32
    ensures ((r + f) % Threshold.U32 + rest) % Threshold.U32 == (r + part + rest) % Threshold.U32
  {
    DivRem(part, Threshold.U32);
    DivRem(r + f, Threshold.U32);
  }

  /** The Fenwick prefix over blocks 1..j is the number of ones in the first j*bb bits (mod 2^32). */
  lemma PrefixIsOnes(s: Bitset, bb: nat, j: nat)
    requires Valid(s, bb) && j <= s.nblocks
    ensures j * bb <= |s.bits| && Ones(s.bits, bb, 0, j) == CountTrue(s.bits[..j * bb])
  {
    MulLeft(bb, j, s.nblocks);
  }

  /** The prefix over all blocks is count() (mod 2^32). */
  lemma PrefixOfAllIsCount(s: Bitset, bb: nat)
    requires Valid(s, bb)
    ensures Ones(s.bits, bb, 0, s.nblocks) == s.total
  {
    assert s.bits[0..|s.bits|] == s.bits;
  }
}
