/**
 * The bit-array filter behind CrdtSet's tombstones (cfrt/BloomFilter.py).
 *
 * Bit `i` of the filter is bit `i & 7` of byte `i >> 3`. An item is hashed
 * `k` times and each digest is reduced `% m`; `lookup` asks for all `k` bits,
 * `add` sets them, `combine` ORs the bytes of another filter in.
 *
 * The md5 digest and the floating-point sizing and size estimate are not part
 * of this model: they are the parameters bundled in `Hashing`.
 */
module BloomFilter {

  /** The digest of an item after hashing in round bytes 0..i (md5 in the source). */
  type Digest = (string, nat) -> nat

  /** The parts of a filter computed with md5 or floating point, supplied from outside. */
  datatype Hashing = Hashing(
    digest: Digest,
    // m for a filter sized for n elements: ceil(-n * ln p / (ln 2)^2)
    bitsFor: nat -> nat,
    // estimate_size: -(m / k) * ln(1 - ones / m)
    estimate: Filter -> real)
  {
    /** Every capacity gets a non-empty bit array, so `% m` is defined. */
    ghost predicate Valid()
    {
      forall n: nat :: bitsFor(n) > 0
    }
  }

  /** k = ceil(-log(p) / log 2) for FALSE_POSITIVE_PROBABILITY p = 1e-8. */
  const K: nat := 27

  /** EXPECTED_ELEMENTS, the default capacity. */
  const ExpectedElements: nat := 2000

  /** Bit `s` of one byte. */
  function BitOfByte(x: bv8, s: nat): (b: bv8)
    requires s < 8
  {
    (x >> (s as bv8)) & 1
  }

  /** The byte with bit `s` cleared and then ORed with `value << s`. */
  function SetInByte(x: bv8, s: nat, value: bv8): bv8
    requires s < 8
  {
    (x & !(1 << (s as bv8))) | (value << (s as bv8))
  }

  lemma ByteBit(x: bv8, s: bv8, t: bv8, v: bv8)
    requires s < 8 && t < 8 && v <= 1
    ensures (((x & !(1 << s)) | (v << s)) >> t) & 1 == if s == t then v else (x >> t) & 1
  {
  }

  lemma SetInByteBit(x: bv8, a: nat, b: nat, v: bv8)
    requires a < 8 && b < 8 && v <= 1
    ensures BitOfByte(SetInByte(x, a, v), b) == if a == b then v else BitOfByte(x, b)
  {
    if a == b {
      SameBit(x, a, v);
    } else {
      OtherBit(x, a, b, v);
    }
  }

  lemma SameBit(x: bv8, a: nat, v: bv8)
    requires a < 8 && v <= 1
    ensures BitOfByte(SetInByte(x, a, v), a) == v
  {
    var s := a as bv8;
    ByteBit(x, s, s, v);
  }

  lemma OtherBit(x: bv8, a: nat, b: nat, v: bv8)
    requires a < 8 && b < 8 && a != b && v <= 1
    ensures BitOfByte(SetInByte(x, a, v), b) == BitOfByte(x, b)
  {
    ShiftsDiffer(a, b);
    ByteBit(x, a as bv8, b as bv8, v);
  }

  lemma ShiftsDiffer(a: nat, b: nat)
    requires a < 8 && b < 8
    ensures a as bv8 < 8 && b as bv8 < 8
    ensures a as bv8 == b as bv8 <==> a == b
  {
  }

  lemma OrBit(x: bv8, y: bv8, s: nat)
    requires s < 8
    ensures BitOfByte(x | y, s) == 1 <==> BitOfByte(x, s) == 1 || BitOfByte(y, s) == 1
  {
    var t := s as bv8;
    assert ((x | y) >> t) & 1 == ((x >> t) & 1) | ((y >> t) & 1);
  }

  /** get_bit: bit `index & 7` of byte `index >> 3`, always 0 or 1. */
  function BitAt(bits: seq<bv8>, index: nat): (b: bv8)
    requires index / 8 < |bits|
    ensures b == 0 || b == 1
  {
    BitOfByte(bits[index / 8], index % 8)
  }

  lemma SameByte(i: nat, j: nat)
    requires i / 8 == j / 8 && i != j
    ensures i % 8 != j % 8
  {
  }

  lemma BitOfUpdate(bits: seq<bv8>, index: nat, value: bv8, j: nat)
    requires index / 8 < |bits| && value <= 1 && j / 8 < |bits|
    ensures BitAt(bits[index / 8 := SetInByte(bits[index / 8], index % 8, value)], j)
      == if j == index then value else BitAt(bits, j)
  {
    if j / 8 == index / 8 {
      if j != index {
        SameByte(index, j);
      }
      SetInByteBit(bits[index / 8], index % 8, j % 8, value);
    }
  }

  /** set_bit: bit `index` becomes `value`, every other bit is kept. */
  function WithBit(bits: seq<bv8>, index: nat, value: bv8): (r: seq<bv8>)
    requires index / 8 < |bits| && value <= 1
    ensures |r| == |bits|
    ensures BitAt(r, index) == value
    ensures forall j: nat :: j / 8 < |bits| && j != index ==> BitAt(r, j) == BitAt(bits, j)
  {
    var r := bits[index / 8 := SetInByte(bits[index / 8], index % 8, value)];
    forall j: nat | j / 8 < |bits|
      ensures BitAt(r, j) == if j == index then value else BitAt(bits, j)
    {
      BitOfUpdate(bits, index, value, j);
    }
    r
  }

  /** Sets every bit listed in `idx` to 1, in order. */
  function SetAll(bits: seq<bv8>, idx: seq<nat>): (r: seq<bv8>)
    requires forall i :: 0 <= i < |idx| ==> idx[i] / 8 < |bits|
    ensures |r| == |bits|
    ensures forall j: nat :: j / 8 < |bits| ==> BitAt(r, j) == if j in idx then 1 else BitAt(bits, j)
  {
    if idx == [] then bits
    else
      var front := idx[..|idx| - 1];
      assert forall j :: j in idx <==> j in front || j == idx[|idx| - 1];
      WithBit(SetAll(bits, front), idx[|idx| - 1], 1)
  }

  /** The bytes of `a` ORed with the matching bytes of `b`. */
  function OrBytes(a: seq<bv8>, b: seq<bv8>): (r: seq<bv8>)
    requires |b| >= |a|
    ensures |r| == |a|
    ensures forall j: nat :: j / 8 < |a| ==> (BitAt(r, j) == 1 <==> BitAt(a, j) == 1 || BitAt(b, j) == 1)
  {
    var r := seq(|a|, i requires 0 <= i < |a| => a[i] | b[i]);
    forall j: nat | j / 8 < |a|
      ensures BitAt(r, j) == 1 <==> BitAt(a, j) == 1 || BitAt(b, j) == 1
    {
      OrBit(a[j / 8], b[j / 8], j % 8);
    }
    r
  }

  /** indexes_for: the `k` digests of `item`, each reduced `% m`. */
  function IndexesFor(digest: Digest, item: string, k: nat, m: nat): (r: seq<nat>)
    requires m > 0
    ensures |r| == k
    ensures forall i :: 0 <= i < k ==> r[i] < m
  {
    seq(k, i requires 0 <= i < k => digest(item, i) % m)
  }

  /** A filter as a value: what a BloomFilter object holds at one moment. */
  datatype Filter = Filter(k: nat, m: nat, maxElements: nat, estimatedSize: real, bits: seq<bv8>)
  {
    /** The bit array has `1 + (m >> 3)` bytes, so every index below `m` is in range. */
    predicate Valid()
    {
      m > 0 && |bits| == 1 + m / 8
    }

    function Indexes(digest: Digest, item: string): (r: seq<nat>)
      requires Valid()
      ensures |r| == k
      ensures forall i :: 0 <= i < k ==> r[i] / 8 < |bits|
    {
      IndexesFor(digest, item, k, m)
    }

    /** lookup: every one of the item's `k` bits is set. */
    predicate Reports(digest: Digest, item: string)
      requires Valid()
    {
      var idx := Indexes(digest, item);
      forall i :: 0 <= i < k ==> BitAt(bits, idx[i]) == 1
    }

    /** add: counts one more element and sets the item's `k` bits. */
    function Added(digest: Digest, item: string): (f: Filter)
      requires Valid()
      ensures f.Valid() && f.k == k && f.m == m && f.maxElements == maxElements
      ensures f.estimatedSize == estimatedSize + 1.0
      ensures f.Reports(digest, item)
      ensures forall j: nat :: j / 8 < |bits| && BitAt(bits, j) == 1 ==> BitAt(f.bits, j) == 1
    {
      var idx := Indexes(digest, item);
      var f := this.(estimatedSize := estimatedSize + 1.0, bits := SetAll(bits, idx));
      assert forall i :: 0 <= i < k ==> idx[i] in idx;
      f
    }

    /** combine: ORs in the first `|bits|` bytes of `other` and re-estimates the size. */
    function Merged(other: Filter, estimate: Filter -> real): (f: Filter)
      requires |other.bits| >= |bits|
      ensures |f.bits| == |bits| && f.k == k && f.m == m && f.maxElements == maxElements
      ensures Valid() ==> f.Valid()
      ensures forall j: nat :: j / 8 < |bits| ==>
        (BitAt(f.bits, j) == 1 <==> BitAt(bits, j) == 1 || BitAt(other.bits, j) == 1)
    {
      var g := this.(bits := OrBytes(bits, other.bits));
      g.(estimatedSize := estimate(g))
    }
  }

  /** A freshly constructed filter: no bit is set. */
  function Empty(k: nat, m: nat, maxElements: nat): (f: Filter)
    requires m > 0
    ensures f.Valid() && f.k == k && f.m == m && f.maxElements == maxElements
    ensures f.estimatedSize == 0.0
    ensures forall j: nat :: j / 8 < |f.bits| ==> BitAt(f.bits, j) == 0
  {
    Filter(k, m, maxElements, 0.0, seq(1 + m / 8, _ => 0))
  }

  /** No false negatives: an added item is reported, and so is every item reported before. */
  lemma {:induction false} AddedKeepsReports(f: Filter, digest: Digest, item: string, other: string)
    requires f.Valid()
    ensures f.Added(digest, item).Reports(digest, item)
    ensures f.Reports(digest, other) ==> f.Added(digest, item).Reports(digest, other)
  {
    var g := f.Added(digest, item);
    if f.Reports(digest, other) {
      var idx := f.Indexes(digest, other);
      assert g.Indexes(digest, other) == idx;
      forall i | 0 <= i < f.k
        ensures BitAt(g.bits, idx[i]) == 1
      {
        assert BitAt(f.bits, idx[i]) == 1;
      }
    }
  }

  /** An item reported by either side of a combine is reported afterwards. */
  lemma {:induction false} MergedKeepsReports(f: Filter, other: Filter, estimate: Filter -> real, item: string, digest: Digest)
    requires f.Valid() && other.Valid() && other.k == f.k && other.m == f.m
    requires f.Reports(digest, item) || other.Reports(digest, item)
    ensures f.Merged(other, estimate).Reports(digest, item)
  {
    var g := f.Merged(other, estimate);
    var idx := f.Indexes(digest, item);
    assert g.Indexes(digest, item) == idx && other.Indexes(digest, item) == idx;
    forall i | 0 <= i < f.k
      ensures BitAt(g.bits, idx[i]) == 1
    {
      assert BitAt(f.bits, idx[i]) == 1 || BitAt(other.bits, idx[i]) == 1;
    }
  }

  /** Combining with an identical bit array leaves every byte as it was. */
  lemma MergedWithSelf(f: Filter, estimate: Filter -> real)
    ensures f.Merged(f, estimate).bits == f.bits
  {
    var r := f.Merged(f, estimate).bits;
    forall i | 0 <= i < |f.bits|
      ensures r[i] == f.bits[i]
    {
      assert r[i] == f.bits[i] | f.bits[i];
    }
  }

  /** Two filters of the same shape whose bits agree report the same items. */
  lemma {:induction false} SameBitsSameReports(f: Filter, g: Filter, digest: Digest, item: string)
    requires f.Valid() && g.Valid() && f.k == g.k && f.m == g.m
    requires forall j: nat :: j / 8 < |f.bits| ==> (BitAt(f.bits, j) == 1 <==> BitAt(g.bits, j) == 1)
    ensures f.Reports(digest, item) <==> g.Reports(digest, item)
  {
    var idx := f.Indexes(digest, item);
    assert g.Indexes(digest, item) == idx;
    assert forall i :: 0 <= i < f.k ==> (BitAt(f.bits, idx[i]) == 1 <==> BitAt(g.bits, idx[i]) == 1);
  }

  /**
   * Combine absorbs: once `a` has taken in `b`, `b` taking in the result
   * ends up reporting exactly what `a` reports.
   */
  lemma {:induction false} MergedAbsorbs(a: Filter, b: Filter, estimate: Filter -> real, digest: Digest, item: string)
    requires a.Valid() && b.Valid() && a.k == b.k && a.m == b.m
    ensures |b.bits| == |a.Merged(b, estimate).bits|
    ensures b.Merged(a.Merged(b, estimate), estimate).Reports(digest, item) <==> a.Merged(b, estimate).Reports(digest, item)
  {
    var ab := a.Merged(b, estimate);
    var bab := b.Merged(ab, estimate);
    forall j: nat | j / 8 < |ab.bits|
      ensures BitAt(ab.bits, j) == 1 <==> BitAt(bab.bits, j) == 1
    {
      assert BitAt(ab.bits, j) == 1 <==> BitAt(a.bits, j) == 1 || BitAt(b.bits, j) == 1;
    }
    SameBitsSameReports(ab, bab, digest, item);
  }

  /** Combining a filter with itself reports exactly what it reported. */
  lemma MergedWithSelfReports(f: Filter, estimate: Filter -> real, digest: Digest, item: string)
    requires f.Valid()
    ensures f.Merged(f, estimate).Reports(digest, item) <==> f.Reports(digest, item)
  {
    SameBitsSameReports(f, f.Merged(f, estimate), digest, item);
  }

  /** BloomFilter: the bit array is a bytearray updated in place. */
  class BloomFilter {
    const k: nat
    const m: nat
    const maxElements: nat
    var estimatedSize: real
    const bits: array<bv8>

    ghost predicate Valid()
      reads this
    {
      m > 0 && bits.Length == 1 + m / 8
    }

    /** The filter's current value. */
    function Value(): (f: Filter)
      reads this, bits
      ensures Valid() ==> f.Valid()
    {
      Filter(k, m, maxElements, estimatedSize, bits[..])
    }

    /** `k`, `m` and `max_elements` come from the caller (sizing is floating point). */
    constructor (k: nat, m: nat, maxElements: nat)
      requires m > 0
      ensures Valid() && fresh(bits)
      ensures Value() == Empty(k, m, maxElements)
    {
      this.k := k;
      this.m := m;
      this.maxElements := maxElements;
      estimatedSize := 0.0;
      bits := new bv8[1 + m / 8](_ => 0);
      new;
      assert bits[..] == Empty(k, m, maxElements).bits;
    }

    method SetBit(index: nat, value: bv8)
      requires index / 8 < bits.Length && value <= 1
      modifies bits
      ensures bits[..] == WithBit(old(bits[..]), index, value)
    {
      var byte := index / 8;
      bits[byte] := SetInByte(bits[byte], index % 8, value);
    }

    /** lookup: stops at the first of the item's bits that is clear. */
    method Lookup(digest: Digest, item: string) returns (found: bool)
      requires Valid()
      ensures found == Value().Reports(digest, item)
    {
      var idx := IndexesFor(digest, item, k, m);
      assert idx == Value().Indexes(digest, item);
      for i := 0 to k
        invariant forall j :: 0 <= j < i ==> BitAt(bits[..], idx[j]) == 1
      {
        if BitAt(bits[..], idx[i]) == 0 {
          return false;
        }
      }
      return true;
    }

    /** add: `estimated_size` grows by one and the item's bits are set. */
    method Add(digest: Digest, item: string)
      requires Valid()
      modifies this, bits
      ensures Valid()
      ensures Value() == old(Value()).Added(digest, item)
    {
      estimatedSize := estimatedSize + 1.0;
      var idx := IndexesFor(digest, item, k, m);
      assert forall i :: 0 <= i < |idx| ==> idx[i] / 8 < bits.Length;
      for i := 0 to |idx|
        modifies bits
        invariant bits[..] == SetAll(old(bits[..]), idx[..i])
      {
        ghost var before := bits[..];
        SetBit(idx[i], 1);
        assert idx[..i + 1][..i] == idx[..i] && idx[..i + 1][i] == idx[i];
        assert bits[..] == WithBit(before, idx[i], 1);
      }
      assert idx[..|idx|] == idx;
    }

    /** combine: ORs the other filter's bytes in, then re-estimates the size. */
    method Combine(other: BloomFilter, estimate: Filter -> real)
      requires other.bits.Length >= bits.Length
      modifies this, bits
      ensures Value() == old(Value()).Merged(old(other.Value()), estimate)
    {
      for n := 0 to bits.Length
        modifies bits
        invariant forall j :: 0 <= j < n ==> bits[j] == old(bits[j]) | old(other.bits[j])
        invariant forall j :: n <= j < bits.Length ==> bits[j] == old(bits[j])
        invariant forall j :: n <= j < other.bits.Length ==> other.bits[j] == old(other.bits[j])
      {
        bits[n] := bits[n] | other.bits[n];
      }
      ghost var merged := old(Value()).(bits := OrBytes(old(bits[..]), old(other.bits[..])));
      assert bits[..] == merged.bits;
      assert Value() == merged;
      estimatedSize := estimate(Value());
    }
  }
}
