/**
 * The fixed-width packed vector `BitPackedVector<BITS>` (include/core/bitpack.hpp):
 * n values of BITS bits each, stored back to back in 64-bit words, a value
 * straddling a word boundary split between two words.  A word is modelled
 * as its 64 bits, least significant first, so the source's shifts and masks
 * become slices of those bit sequences; the two-word branches are kept as
 * the source has them.  The concatenated bit stream is the reference the
 * operations are proved against.
 */
module BitPack {
  import Basics
  import Topology
  import Threshold

  function Pow2(k: nat): (r: nat)
    ensures r >= 1
  {
    if k == 0 then 1 else 2 * Pow2(k - 1)
  }

  /** The value of a bit sequence, least significant bit first. */
  function FromBits(s: seq<bool>): (r: nat)
    ensures r < Pow2(|s|)
  {
    if |s| == 0 then 0 else Topology.Ind(s[0]) + 2 * FromBits(s[1..])
  }

  /** The low w bits of v, least significant first. */
  function ToBits(v: nat, w: nat): (s: seq<bool>)
    ensures |s| == w
  {
    if w == 0 then [] else [v % 2 == 1] + ToBits(v / 2, w - 1)
  }

  /** Reading back the low w bits of v gives v mod 2^w. */
  lemma {:induction false} ToBitsRoundTrip(v: nat, w: nat)
    ensures FromBits(ToBits(v, w)) == v % Pow2(w)
  {
    if w > 0 {
      var p := Pow2(w - 1);
      ToBitsRoundTrip(v / 2, w - 1);
      assert ToBits(v, w)[1..] == ToBits(v / 2, w - 1);
      ModDouble(v, p);
    }
  }

  /** v mod 2p is twice (v/2) mod p plus v's low bit. */
  lemma ModDouble(v: nat, p: nat)
    requires p > 0
    ensures v % (2 * p) == 2 * ((v / 2) % p) + v % 2
  {
    var a, b := (v / 2) / p, (v / 2) % p;
    Basics.DivRem(v / 2, p);
    assert v == 2 * (v / 2) + v % 2;
    assert 2 * (p * a) == (2 * p) * a;
    Basics.DivModUnique(v, 2 * p, a, 2 * b + v % 2);
  }

  /** Writing the value of a bit sequence gives back the sequence. */
  lemma {:induction false} FromBitsRoundTrip(s: seq<bool>)
    ensures ToBits(FromBits(s), |s|) == s
  {
    if |s| > 0 {
      FromBitsRoundTrip(s[1..]);
      Basics.DivModUnique(FromBits(s), 2, FromBits(s[1..]), Topology.Ind(s[0]));
    }
  }

  /** Every word holds 64 bits. */
  predicate Words64(data: seq<seq<bool>>) {
    forall w :: 0 <= w < |data| ==> |data[w]| == 64
  }

  /** The words laid end to end: the logical bit stream, bit k at offset k % 64 of word k / 64. */
  function Concat(data: seq<seq<bool>>): (s: seq<bool>)
    ensures Words64(data) ==> |s| == |data| * 64
  {
    if |data| == 0 then [] else Concat(data[..|data| - 1]) + data[|data| - 1]
  }

  lemma WordSplit(bit: nat)
    ensures bit == (bit / 64) * 64 + bit % 64
  {
  }

  /** Stream bit idx*64 + j is bit j of word idx. */
  lemma {:induction false} ConcatAt(data: seq<seq<bool>>, idx: nat, j: nat)
    requires Words64(data) && idx < |data| && j < 64
    ensures idx * 64 + j < |Concat(data)| && Concat(data)[idx * 64 + j] == data[idx][j]
  {
    var n := |data| - 1;
    if idx < n {
      ConcatAt(data[..n], idx, j);
    }
    assert Concat(data) == Concat(data[..n]) + data[n];
  }

  /** Stream bits bit .. bit+w-1: a slice of one word, or the tail of one word followed by the head of the next. */
  function Extract(data: seq<seq<bool>>, bit: nat, w: nat): (s: seq<bool>)
    requires Words64(data) && 1 <= w <= 64 && bit + w <= |data| * 64
    ensures |s| == w
  {
    WordSplit(bit);
    var idx, off := bit / 64, bit % 64;
    if off + w <= 64 then data[idx][off..off + w]
    else data[idx][off..] + data[idx + 1][..w - (64 - off)]
  }

  /** s written over stream bits bit .. bit+|s|-1, split across two words when it straddles a boundary. */
  function Insert(data: seq<seq<bool>>, bit: nat, s: seq<bool>): (r: seq<seq<bool>>)
    requires Words64(data) && 1 <= |s| <= 64 && bit + |s| <= |data| * 64
    ensures Words64(r) && |r| == |data|
  {
    WordSplit(bit);
    var idx, off, w := bit / 64, bit % 64, |s|;
    if off + w <= 64 then
      data[idx := data[idx][..off] + s + data[idx][off + w..]]
    else
      var first := 64 - off;
      data[idx := data[idx][..off] + s[..first]][idx + 1 := s[first..] + data[idx + 1][w - first..]]
  }

  /** Bit t of an extraction is stream bit bit+t. */
  lemma ExtractAt(data: seq<seq<bool>>, bit: nat, w: nat, t: nat)
    requires Words64(data) && 1 <= w <= 64 && bit + w <= |data| * 64 && t < w
    ensures bit + t < |Concat(data)| && Extract(data, bit, w)[t] == Concat(data)[bit + t]
  {
    WordSplit(bit);
    var idx, off := bit / 64, bit % 64;
    if off + t < 64 {
      ConcatAt(data, idx, off + t);
    } else {
      ConcatAt(data, idx + 1, off + t - 64);
    }
  }

  /** An extraction is exactly the corresponding slice of the stream. */
  lemma ExtractIsSlice(data: seq<seq<bool>>, bit: nat, w: nat)
    requires Words64(data) && 1 <= w <= 64 && bit + w <= |data| * 64
    ensures bit + w <= |Concat(data)| && Extract(data, bit, w) == Concat(data)[bit..bit + w]
  {
    forall t | 0 <= t < w ensures Extract(data, bit, w)[t] == Concat(data)[bit + t] {
      ExtractAt(data, bit, w, t);
    }
  }

  /** Stream bit k is bit k % 64 of word k / 64. */
  lemma ConcatAtBit(data: seq<seq<bool>>, k: nat)
    requires Words64(data) && k < |data| * 64
    ensures k < |Concat(data)| && Concat(data)[k] == data[k / 64][k % 64]
  {
    WordSplit(k);
    ConcatAt(data, k / 64, k % 64);
  }

  /** Inside one word: stream bit k after an insertion that fits in word bit/64. */
  lemma InsertOneWordAt(data: seq<seq<bool>>, bit: nat, s: seq<bool>, k: nat)
    requires Words64(data) && 1 <= |s| <= 64 && bit + |s| <= |data| * 64
    requires bit % 64 + |s| <= 64 && k < |data| * 64
    ensures Insert(data, bit, s)[k / 64][k % 64] == if bit <= k < bit + |s| then s[k - bit] else data[k / 64][k % 64]
  {
    WordSplit(bit);
    WordSplit(k);
  }

  /** Across a boundary: stream bit k after an insertion split over words bit/64 and bit/64 + 1. */
  lemma InsertTwoWordsAt(data: seq<seq<bool>>, bit: nat, s: seq<bool>, k: nat)
    requires Words64(data) && 1 <= |s| <= 64 && bit + |s| <= |data| * 64
    requires bit % 64 + |s| > 64 && k < |data| * 64
    ensures Insert(data, bit, s)[k / 64][k % 64] == if bit <= k < bit + |s| then s[k - bit] else data[k / 64][k % 64]
  {
    WordSplit(bit);
    WordSplit(k);
    var idx, off := bit / 64, bit % 64;
    var first := 64 - off;
    if k / 64 == idx + 1 && k % 64 < |s| - first {
      assert Insert(data, bit, s)[k / 64][k % 64] == s[first + k % 64];
    }
  }

  /** After an insertion the stream holds s at bit .. bit+|s|-1 and is unchanged elsewhere. */
  lemma InsertAt(data: seq<seq<bool>>, bit: nat, s: seq<bool>, k: nat)
    requires Words64(data) && 1 <= |s| <= 64 && bit + |s| <= |data| * 64 && k < |data| * 64
    ensures k < |Concat(Insert(data, bit, s))|
    ensures Concat(Insert(data, bit, s))[k] == if bit <= k < bit + |s| then s[k - bit] else Concat(data)[k]
  {
    ConcatAtBit(data, k);
    ConcatAtBit(Insert(data, bit, s), k);
    if bit % 64 + |s| <= 64 {
      InsertOneWordAt(data, bit, s, k);
    } else {
      InsertTwoWordsAt(data, bit, s, k);
    }
  }

  /** Extracting what was just inserted gives it back. */
  lemma ExtractInsert(data: seq<seq<bool>>, bit: nat, s: seq<bool>)
    requires Words64(data) && 1 <= |s| <= 64 && bit + |s| <= |data| * 64
    ensures Extract(Insert(data, bit, s), bit, |s|) == s
  {
    var r := Insert(data, bit, s);
    ExtractIsSlice(r, bit, |s|);
    forall k | bit <= k < bit + |s| ensures Concat(r)[k] == s[k - bit] {
      InsertAt(data, bit, s, k);
    }
  }

  /** An insertion leaves every disjoint range of the stream as it was. */
  lemma ExtractInsertOther(data: seq<seq<bool>>, bit: nat, s: seq<bool>, bit2: nat, w: nat)
    requires Words64(data) && 1 <= |s| <= 64 && bit + |s| <= |data| * 64
    requires 1 <= w <= 64 && bit2 + w <= |data| * 64
    requires bit2 + w <= bit || bit + |s| <= bit2
    ensures Extract(Insert(data, bit, s), bit2, w) == Extract(data, bit2, w)
  {
    var r := Insert(data, bit, s);
    ExtractIsSlice(r, bit2, w);
    ExtractIsSlice(data, bit2, w);
    forall k | bit2 <= k < bit2 + w ensures Concat(r)[k] == Concat(data)[k] {
      InsertAt(data, bit, s, k);
    }
  }

  /** `n_` values and the words `data_`, each word as its 64 bits. */
  datatype Packed = Packed(n: nat, data: seq<seq<bool>>)

  /** Words needed for n values of `bits` bits: the total bit count rounded up to whole words. */
  function WordCount(n: nat, bits: nat): (r: nat)
    ensures r * 64 >= n * bits
    ensures r > 0 ==> (r - 1) * 64 < n * bits
  {
    (n * bits + 64 - 1) / 64
  }

  predicate Valid(x: Packed, bits: nat) {
    1 <= bits <= 64 && |x.data| == WordCount(x.n, bits) && Words64(x.data)
  }

  /** `resize(n)`: n values, every word zero. */
  function Resize(bits: nat, n: nat): (x: Packed)
    requires 1 <= bits <= 64
    ensures Valid(x, bits) && x.n == n
    ensures forall w, j :: 0 <= w < |x.data| && 0 <= j < 64 ==> !x.data[w][j]
  {
    Packed(n, seq(WordCount(n, bits), _ => seq(64, _ => false)))
  }

  /** Value i occupies stream bits i*bits .. i*bits+bits-1, all inside the words. */
  lemma InWords(x: Packed, bits: nat, i: nat)
    requires Valid(x, bits) && i < x.n
    ensures i * bits + bits <= |x.data| * 64
  {
    Basics.MulLeft(bits, i + 1, x.n);
    assert (i + 1) * bits == i * bits + bits;
  }

  /** `get(i)`: the bits of value i, from one word or from two. */
  function Get(x: Packed, bits: nat, i: nat): (r: nat)
    requires Valid(x, bits) && i < x.n
    ensures r < Pow2(bits)
  {
    InWords(x, bits, i);
    FromBits(Extract(x.data, i * bits, bits))
  }

  /** `set(i, v)`: the low `bits` bits of v (v & mask) written over value i's bits. */
  function Set(x: Packed, bits: nat, i: nat, v: Threshold.u64): (r: Packed)
    requires Valid(x, bits) && i < x.n
    ensures Valid(r, bits) && r.n == x.n
  {
    InWords(x, bits, i);
    x.(data := Insert(x.data, i * bits, ToBits(v, bits)))
  }

  /** `get(i)` is the value of bits i*bits .. i*bits+bits-1 of the stream. */
  lemma GetReadsStream(x: Packed, bits: nat, i: nat)
    requires Valid(x, bits) && i < x.n
    ensures i * bits + bits <= |Concat(x.data)|
    ensures Get(x, bits, i) == FromBits(Concat(x.data)[i * bits..i * bits + bits])
  {
    InWords(x, bits, i);
    ExtractIsSlice(x.data, i * bits, bits);
  }

  /** `get(i)` after `set(i, v)` returns v mod 2^bits. */
  lemma GetAfterSet(x: Packed, bits: nat, i: nat, v: Threshold.u64)
    requires Valid(x, bits) && i < x.n
    ensures Get(Set(x, bits, i, v), bits, i) == v % Pow2(bits)
  {
    InWords(x, bits, i);
    ExtractInsert(x.data, i * bits, ToBits(v, bits));
    ToBitsRoundTrip(v, bits);
  }

  /** Values i and j != i occupy disjoint bit ranges. */
  lemma Disjoint(bits: nat, i: nat, j: nat)
    requires i != j
    ensures j * bits + bits <= i * bits || i * bits + bits <= j * bits
  {
    if j < i {
      Basics.MulLeft(bits, j + 1, i);
      assert (j + 1) * bits == j * bits + bits;
    } else {
      Basics.MulLeft(bits, i + 1, j);
      assert (i + 1) * bits == i * bits + bits;
    }
  }

  /** `set(i, v)` leaves every other value as it was. */
  lemma SetLeavesOthers(x: Packed, bits: nat, i: nat, v: Threshold.u64, j: nat)
    requires Valid(x, bits) && i < x.n && j < x.n && j != i
    ensures Get(Set(x, bits, i, v), bits, j) == Get(x, bits, j)
  {
    InWords(x, bits, i);
    InWords(x, bits, j);
    Disjoint(bits, i, j);
    ExtractInsertOther(x.data, i * bits, ToBits(v, bits), j * bits, bits);
  }

  /** Every value of a resized vector reads 0. */
  lemma ResizeReadsZero(bits: nat, n: nat, i: nat)
    requires 1 <= bits <= 64 && i < n
    ensures Get(Resize(bits, n), bits, i) == 0
  {
    var x := Resize(bits, n);
    InWords(x, bits, i);
    var z := Extract(x.data, i * bits, bits);
    forall t | 0 <= t < bits ensures !z[t] {
      ExtractAt(x.data, i * bits, bits, t);
      var k := i * bits + t;
      WordSplit(k);
      ConcatAt(x.data, k / 64, k % 64);
    }
    ZeroBits(z);
  }

  lemma {:induction false} ZeroBits(s: seq<bool>)
    requires forall k :: 0 <= k < |s| ==> !s[k]
    ensures FromBits(s) == 0
  {
    if |s| > 0 {
      ZeroBits(s[1..]);
    }
  }
}
