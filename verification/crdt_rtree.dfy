/**
 * CrdtRTree (cfrt/CrdtRTree.py): a replicated range index. Each node holds a
 * replicated set of range entries `(key_min, key_max) -> value` together with
 * the ids of its parent nodes. In a leaf node every entry is a point
 * `(key, key) -> item`; in an inner node an entry's value is a child node's
 * id. Nodes find each other by id through an arena of nodes (`Forest`).
 *
 * A node's replicated set holds entries and parent ids side by side; here
 * they are two sets, `entries` and `parents`, so `len(node)` is
 * `|entries|` and `node.parents` is `parents`.
 */
module CrdtRTree {
  import opened Wrappers
  import PyStr

  /** The text `str(None)`, which stands for "no key" in ranges. */
  const NONE: string := "None"

  /** CrdtRTreeEntry; equality is field-wise, as `__eq__` defines it. */
  datatype Entry = Entry(keyMin: string, keyMax: string, value: string)
  {
    /** is_leaf: a point entry with a real key. */
    predicate IsLeaf()
    {
      keyMin != NONE && keyMin == keyMax
    }

    /** `key_min <= key <= key_max` on Python strings. */
    predicate Contains(key: string)
    {
      PyStr.Le(keyMin, key) && PyStr.Le(key, keyMax)
    }
  }

  /** A leaf entry is exactly one whose range holds a single real key. */
  lemma PointEntryCoversOneKey(e: Entry)
    ensures e.IsLeaf() <==> e.keyMin != NONE && e.Contains(e.keyMin) && forall k :: e.Contains(k) ==> k == e.keyMin
  {
    if e.IsLeaf() {
      forall k | e.Contains(k)
        ensures k == e.keyMin
      {
        PyStr.LeAntisymmetric(e.keyMin, k);
      }
    } else if e.keyMin != NONE && e.Contains(e.keyMin) {
      assert e.Contains(e.keyMax);
    }
  }

  /** The node is a leaf node: all its entries are leaves (is_leaf_node). */
  predicate AllLeaves(entries: set<Entry>)
  {
    forall e :: e in entries ==> e.IsLeaf()
  }

  /** Some entry is the point `(key, key)`. */
  predicate HasPoint(entries: set<Entry>, key: string)
  {
    exists e :: e in entries && e.keyMin == key && e.keyMax == key
  }

  /** The ids compute_children reports: the values of non-leaf entries. */
  predicate IsChild(entries: set<Entry>, id: string)
  {
    exists e :: e in entries && !e.IsLeaf() && e.value == id
  }

  /** The entries remove_values keeps. */
  function WithoutValue(entries: set<Entry>, value: string): set<Entry>
  {
    set e | e in entries && e.value != value
  }

  // ---------------------------------------------------------------- prefixes

  /** The length of the longest common prefix. */
  function CommonPrefix(a: string, b: string): (n: nat)
    ensures n <= |a| && n <= |b|
    ensures a[..n] == b[..n]
    ensures n < |a| && n < |b| ==> a[n] != b[n]
  {
    if |a| == 0 || |b| == 0 || a[0] != b[0] then 0
    else
      var n := 1 + CommonPrefix(a[1..], b[1..]);
      assert a[..n] == [a[0]] + a[1..][..n - 1];
      assert b[..n] == [b[0]] + b[1..][..n - 1];
      n
  }

  /** The three facts of CommonPrefix single out one length. */
  lemma CommonPrefixUnique(a: string, b: string, m: nat)
    requires m <= |a| && m <= |b| && a[..m] == b[..m]
    requires m < |a| && m < |b| ==> a[m] != b[m]
    ensures m == CommonPrefix(a, b)
  {
  }

  /** prefix_count: walks both strings while they agree. */
  method PrefixCount(left: string, right: string) returns (finger: nat)
    ensures finger == CommonPrefix(left, right)
  {
    finger := 0;
    var l := if |left| <= |right| then |left| else |right|;
    while finger < l && left[finger] == right[finger]
      invariant finger <= l && left[..finger] == right[..finger]
    {
      assert left[..finger + 1] == left[..finger] + [left[finger]];
      assert right[..finger + 1] == right[..finger] + [right[finger]];
      finger := finger + 1;
    }
    CommonPrefixUnique(left, right, finger);
  }

  /** The first byte of the character's UTF-8 encoding (`c.encode()[0]`). */
  function LeadByte(c: char): (b: int)
    ensures 0 <= b < 256
  {
    var x := c as int;
    if x < 0x80 then x
    else if x < 0x800 then 0xC0 + x / 0x40
    else if x < 0x1_0000 then 0xE0 + x / 0x1000
    else 0xF0 + x / 0x4_0000
  }

  function Pow2(n: nat): (p: nat)
    ensures p >= 1
  {
    if n == 0 then 1 else 2 * Pow2(n - 1)
  }

  lemma {:induction false} Pow2AtLeast(n: nat)
    requires n >= 8
    ensures Pow2(n) >= 256
  {
    if n > 8 {
      Pow2AtLeast(n - 1);
    }
  }

  lemma {:induction false} Pow2Grows(m: nat, n: nat)
    requires m < n
    ensures 2 * Pow2(m) <= Pow2(n)
  {
    if m + 1 < n {
      Pow2Grows(m, n - 1);
    }
  }

  /**
   * weighted_prefix_score: `2^(p + 8)` for a common prefix of length `p`,
   * plus how close the first differing characters' lead bytes are. `None`
   * where the source indexes past the end of one of the strings.
   */
  function Score(a: string, b: string): (r: Option<int>)
    ensures r.Some? <==> CommonPrefix(a, b) < |a| && CommonPrefix(a, b) < |b|
    ensures r.Some? ==> Pow2(CommonPrefix(a, b) + 8) <= r.value < Pow2(CommonPrefix(a, b) + 8) + 256
  {
    var n := CommonPrefix(a, b);
    if n == |a| || n == |b| then None
    else
      var d := LeadByte(a[n]) - LeadByte(b[n]);
      Some(Pow2(n + 8) + (255 - (if d < 0 then -d else d)))
  }

  /** A longer common prefix always scores strictly higher, whatever the characters. */
  lemma ScoreOrdersByPrefix(a: string, b: string, c: string, d: string)
    requires Score(a, b).Some? && Score(c, d).Some?
    requires CommonPrefix(a, b) < CommonPrefix(c, d)
    ensures Score(a, b).value < Score(c, d).value
  {
    Pow2AtLeast(CommonPrefix(a, b) + 8);
    Pow2Grows(CommonPrefix(a, b) + 8, CommonPrefix(c, d) + 8);
  }

  method WeightedPrefixScore(left: string, right: string) returns (r: Option<int>)
    ensures r == Score(left, right)
  {
    var finger := 0;
    var l := if |left| <= |right| then |left| else |right|;
    while finger < l && left[finger] == right[finger]
      invariant finger <= l && left[..finger] == right[..finger]
    {
      assert left[..finger + 1] == left[..finger] + [left[finger]];
      assert right[..finger + 1] == right[..finger] + [right[finger]];
      finger := finger + 1;
    }
    CommonPrefixUnique(left, right, finger);
    if finger == |left| || finger == |right| {
      return None;
    }
    var d := LeadByte(left[finger]) - LeadByte(right[finger]);
    var shift := 1;
    for i := 0 to finger + 8
      invariant shift == Pow2(i)
    {
      shift := 2 * shift;
    }
    r := Some(shift + (255 - (if d < 0 then -d else d)));
  }

  /** The larger of the four prefix counts between a node's range ends and an entry's key ends. */
  function Closeness(range: (string, string), e: Entry): nat
  {
    var a := CommonPrefix(range.0, e.keyMin);
    var b := CommonPrefix(range.0, e.keyMax);
    var c := CommonPrefix(range.1, e.keyMin);
    var d := CommonPrefix(range.1, e.keyMax);
    var ab := if a >= b then a else b;
    var cd := if c >= d then c else d;
    if ab >= cd then ab else cd
  }

  method ClosenessOf(range: (string, string), e: Entry) returns (n: nat)
    ensures n == Closeness(range, e)
  {
    var a := PrefixCount(range.0, e.keyMin);
    var b := PrefixCount(range.0, e.keyMax);
    var c := PrefixCount(range.1, e.keyMin);
    var d := PrefixCount(range.1, e.keyMax);
    var ab := if a >= b then a else b;
    var cd := if c >= d then c else d;
    n := if ab >= cd then ab else cd;
  }

  /** How well an entry fits a key when add_leaf_item picks a child: `max(prefix_count(key_min, key), prefix_count(key_max, key))`. */
  function Fit(e: Entry, key: string): nat
  {
    var a := CommonPrefix(e.keyMin, key);
    var b := CommonPrefix(e.keyMax, key);
    if a >= b then a else b
  }

  // ------------------------------------------------------ node-local queries

  /** The low end compute_range can report, in whatever order the entries are visited. */
  ghost predicate LowOf(entries: set<Entry>, lo: string)
  {
    (entries == {} ==> lo == NONE) &&
    (entries != {} ==> exists e :: e in entries && e.keyMin == lo) &&
    (lo != NONE ==> forall e :: e in entries && e.keyMin != NONE ==> PyStr.Le(lo, e.keyMin)) &&
    (lo == NONE ==> forall e :: e in entries && e.keyMin != NONE ==> PyStr.Lt(NONE, e.keyMin))
  }

  /** The high end compute_range can report. */
  ghost predicate HighOf(entries: set<Entry>, hi: string)
  {
    (entries == {} ==> hi == NONE) &&
    (entries != {} ==> exists e :: e in entries && e.keyMax == hi) &&
    (hi != NONE ==> forall e :: e in entries && e.keyMax != NONE ==> PyStr.Le(e.keyMax, hi)) &&
    (hi == NONE ==> forall e :: e in entries && e.keyMax != NONE ==> PyStr.Lt(e.keyMax, NONE))
  }

  /**
   * compute_range: the smallest key_min and the largest key_max, skipping
   * "None" keys except that the first entry visited always seeds the result.
   * An empty node has the range ("None", "None").
   */
  method ComputeRange(entries: set<Entry>) returns (lo: string, hi: string)
    ensures LowOf(entries, lo) && HighOf(entries, hi)
  {
    var selfMin: Option<string> := None;
    var selfMax: Option<string> := None;
    var todo := entries;
    while todo != {}
      invariant todo <= entries
      invariant selfMin.None? <==> todo == entries
      invariant selfMax.None? <==> todo == entries
      invariant selfMin.Some? ==> exists e :: e in entries - todo && e.keyMin == selfMin.value
      invariant selfMax.Some? ==> exists e :: e in entries - todo && e.keyMax == selfMax.value
      invariant selfMin.Some? && selfMin.value != NONE ==>
        forall e :: e in entries - todo && e.keyMin != NONE ==> PyStr.Le(selfMin.value, e.keyMin)
      invariant selfMin.Some? && selfMin.value == NONE ==>
        forall e :: e in entries - todo && e.keyMin != NONE ==> PyStr.Lt(NONE, e.keyMin)
      invariant selfMax.Some? && selfMax.value != NONE ==>
        forall e :: e in entries - todo && e.keyMax != NONE ==> PyStr.Le(e.keyMax, selfMax.value)
      invariant selfMax.Some? && selfMax.value == NONE ==>
        forall e :: e in entries - todo && e.keyMax != NONE ==> PyStr.Lt(e.keyMax, NONE)
      decreases |todo|
    {
      var item :| item in todo;
      MinStep(entries - todo, selfMin, item);
      MaxStep(entries - todo, selfMax, item);
      if selfMin.None? || (item.keyMin != NONE && PyStr.Lt(item.keyMin, selfMin.value)) {
        selfMin := Some(item.keyMin);
      }
      if selfMax.None? || (item.keyMax != NONE && PyStr.Lt(selfMax.value, item.keyMax)) {
        selfMax := Some(item.keyMax);
      }
      todo := todo - {item};
    }
    lo := if selfMin.None? then NONE else selfMin.value;
    hi := if selfMax.None? then NONE else selfMax.value;
  }

  /** One visit of compute_range's loop keeps the bound on the low end. */
  lemma MinStep(seen: set<Entry>, selfMin: Option<string>, item: Entry)
    requires selfMin.None? ==> seen == {}
    requires selfMin.Some? && selfMin.value != NONE ==>
      forall e :: e in seen && e.keyMin != NONE ==> PyStr.Le(selfMin.value, e.keyMin)
    requires selfMin.Some? && selfMin.value == NONE ==>
      forall e :: e in seen && e.keyMin != NONE ==> PyStr.Lt(NONE, e.keyMin)
    ensures var next := if selfMin.None? || (item.keyMin != NONE && PyStr.Lt(item.keyMin, selfMin.value))
                        then item.keyMin else selfMin.value;
      (next != NONE ==> forall e :: e in seen + {item} && e.keyMin != NONE ==> PyStr.Le(next, e.keyMin)) &&
      (next == NONE ==> forall e :: e in seen + {item} && e.keyMin != NONE ==> PyStr.Lt(NONE, e.keyMin))
  {
    if selfMin.Some? {
      var cur := selfMin.value;
      PyStr.LtTotal(item.keyMin, cur);
      if item.keyMin != NONE && PyStr.Lt(item.keyMin, cur) {
        forall e | e in seen && e.keyMin != NONE
          ensures PyStr.Le(item.keyMin, e.keyMin)
        {
          if cur != NONE {
            PyStr.LeTransitive(item.keyMin, cur, e.keyMin);
          } else {
            PyStr.LtTransitive(item.keyMin, cur, e.keyMin);
          }
        }
      }
    }
  }

  /** One visit of compute_range's loop keeps the bound on the high end. */
  lemma MaxStep(seen: set<Entry>, selfMax: Option<string>, item: Entry)
    requires selfMax.None? ==> seen == {}
    requires selfMax.Some? && selfMax.value != NONE ==>
      forall e :: e in seen && e.keyMax != NONE ==> PyStr.Le(e.keyMax, selfMax.value)
    requires selfMax.Some? && selfMax.value == NONE ==>
      forall e :: e in seen && e.keyMax != NONE ==> PyStr.Lt(e.keyMax, NONE)
    ensures var next := if selfMax.None? || (item.keyMax != NONE && PyStr.Lt(selfMax.value, item.keyMax))
                        then item.keyMax else selfMax.value;
      (next != NONE ==> forall e :: e in seen + {item} && e.keyMax != NONE ==> PyStr.Le(e.keyMax, next)) &&
      (next == NONE ==> forall e :: e in seen + {item} && e.keyMax != NONE ==> PyStr.Lt(e.keyMax, NONE))
  {
    if selfMax.Some? {
      var cur := selfMax.value;
      PyStr.LtTotal(item.keyMax, cur);
      if item.keyMax != NONE && PyStr.Lt(cur, item.keyMax) {
        forall e | e in seen && e.keyMax != NONE
          ensures PyStr.Le(e.keyMax, item.keyMax)
        {
          if cur != NONE {
            PyStr.LeTransitive(e.keyMax, cur, item.keyMax);
          } else {
            PyStr.LtTransitive(e.keyMax, cur, item.keyMax);
          }
        }
      }
    }
  }

  /**
   * When no key is "None", compute_range is the same whatever the visiting
   * order: both ends are determined by the entries.
   */
  lemma RangeIsDetermined(entries: set<Entry>, lo1: string, hi1: string, lo2: string, hi2: string)
    requires forall e :: e in entries ==> e.keyMin != NONE && e.keyMax != NONE
    requires LowOf(entries, lo1) && HighOf(entries, hi1) && LowOf(entries, lo2) && HighOf(entries, hi2)
    ensures lo1 == lo2 && hi1 == hi2
  {
    if entries != {} {
      var a :| a in entries && a.keyMin == lo1;
      var b :| b in entries && b.keyMin == lo2;
      PyStr.LeAntisymmetric(lo1, lo2);
      var c :| c in entries && c.keyMax == hi1;
      var d :| d in entries && d.keyMax == hi2;
      PyStr.LeAntisymmetric(hi1, hi2);
    }
  }

  /** compute_children: each non-leaf entry's value, listed once. */
  method ComputeChildren(entries: set<Entry>) returns (result: seq<string>)
    ensures forall i, j :: 0 <= i < j < |result| ==> result[i] != result[j]
    ensures forall id :: id in result <==> IsChild(entries, id)
  {
    result := [];
    var todo := entries;
    while todo != {}
      invariant todo <= entries
      invariant forall i, j :: 0 <= i < j < |result| ==> result[i] != result[j]
      invariant forall id :: id in result <==> IsChild(entries - todo, id)
      decreases |todo|
    {
      var item :| item in todo;
      if !item.IsLeaf() && item.value !in result {
        result := result + [item.value];
      }
      todo := todo - {item};
    }
  }

  /** is_leaf_node: every entry is a leaf; a node without entries is a leaf node. */
  method IsLeafNode(entries: set<Entry>) returns (b: bool)
    ensures b <==> AllLeaves(entries)
  {
    var todo := entries;
    while todo != {}
      invariant todo <= entries
      invariant AllLeaves(entries - todo)
      decreases |todo|
    {
      var item :| item in todo;
      if !item.IsLeaf() {
        return false;
      }
      todo := todo - {item};
    }
    return true;
  }

  /** Some entry with the point key `(key, key)`, if any (the leaf lookup of query_leaf_item). */
  method FindPoint(entries: set<Entry>, key: string) returns (r: Option<string>)
    ensures r.Some? <==> HasPoint(entries, key)
    ensures r.Some? ==> Entry(key, key, r.value) in entries
  {
    var todo := entries;
    while todo != {}
      invariant todo <= entries
      invariant !HasPoint(entries - todo, key)
      decreases |todo|
    {
      var item :| item in todo;
      if item.keyMin == key && item.keyMax == key {
        return Some(item.value);
      }
      todo := todo - {item};
    }
    return None;
  }

  /** Lists a set in an arbitrary order, as iterating a Python set does. */
  method Enumerate<T>(s: set<T>) returns (r: seq<T>)
    ensures |r| == |s| && (forall x :: x in r <==> x in s)
    ensures forall i, j :: 0 <= i < j < |r| ==> r[i] != r[j]
  {
    r := [];
    var todo := s;
    while todo != {}
      invariant todo <= s
      invariant forall x :: x in r <==> x in s - todo
      invariant forall i, j :: 0 <= i < j < |r| ==> r[i] != r[j]
      invariant |r| + |todo| == |s|
      decreases |todo|
    {
      var x :| x in todo;
      r := r + [x];
      todo := todo - {x};
    }
  }

  // -------------------------------------------------------------- splitting

  /** The keys a split can cut at: every key_min and key_max that is not "None". */
  function BoundarySet(entries: set<Entry>): set<string>
  {
    (set e | e in entries :: e.keyMin) + (set e | e in entries :: e.keyMax) - {NONE}
  }

  lemma {:induction false} DistinctCard(s: seq<string>)
    requires forall i, j :: 0 <= i < j < |s| ==> s[i] != s[j]
    ensures |set x | x in s| == |s|
  {
    if |s| > 0 {
      var t := s[..|s| - 1];
      DistinctCard(t);
      assert (set x | x in s) == (set x | x in t) + {s[|s| - 1]};
    }
  }

  predicate StrictlySorted(s: seq<string>)
  {
    forall i, j :: 0 <= i < j < |s| ==> PyStr.Lt(s[i], s[j])
  }

  /** The boundaries of split, in the order the entries are visited, without duplicates. */
  method CollectBoundaries(entries: set<Entry>) returns (found: seq<string>)
    ensures forall i, j :: 0 <= i < j < |found| ==> found[i] != found[j]
    ensures forall k :: k in found <==> k in BoundarySet(entries)
  {
    found := [];
    var todo := entries;
    while todo != {}
      invariant todo <= entries
      invariant forall i, j :: 0 <= i < j < |found| ==> found[i] != found[j]
      invariant forall k :: k in found <==> k in BoundarySet(entries - todo)
      decreases |todo|
    {
      var item :| item in todo;
      if item.keyMin != NONE && item.keyMin !in found {
        found := found + [item.keyMin];
      }
      if item.keyMax != NONE && item.keyMax !in found {
        found := found + [item.keyMax];
      }
      todo := todo - {item};
    }
  }

  /** The boundaries of split, collected without duplicates and sorted. */
  method Boundaries(entries: set<Entry>) returns (b: seq<string>)
    ensures StrictlySorted(b)
    ensures forall k :: k in b <==> k in BoundarySet(entries)
    ensures |b| == |BoundarySet(entries)|
  {
    var found := CollectBoundaries(entries);
    b := PyStr.SortBy(found, s => s);
    forall i, j | 0 <= i < j < |b|
      ensures PyStr.Lt(b[i], b[j])
    {
      DistinctAfterSort(found, b, i, j);
    }
    forall i, j | 0 <= i < j < |b|
      ensures b[i] != b[j]
    {
      PyStr.LtIrreflexive(b[i]);
    }
    forall k
      ensures k in b <==> k in found
    {
      assert k in b <==> k in multiset(b);
      assert k in found <==> k in multiset(found);
    }
    DistinctCard(b);
    assert (set x | x in b) == BoundarySet(entries);
  }

  /** Sorting a list without duplicates leaves it without duplicates. */
  lemma DistinctAfterSort(found: seq<string>, b: seq<string>, i: int, j: int)
    requires forall i, j :: 0 <= i < j < |found| ==> found[i] != found[j]
    requires multiset(b) == multiset(found) && PyStr.SortedBy(b, s => s)
    requires 0 <= i < j < |b|
    ensures PyStr.Lt(b[i], b[j])
  {
    assert PyStr.Le(b[i], b[j]);
    if b[i] == b[j] {
      var x := b[i];
      assert b == b[..j] + b[j..];
      assert multiset(b) == multiset(b[..j]) + multiset(b[j..]);
      assert b[..j][i] == x && b[j..][0] == x;
      assert multiset(b[..j])[x] >= 1 && multiset(b[j..])[x] >= 1;
      DistinctCount(found, x);
    }
  }

  lemma {:induction false} DistinctCount(s: seq<string>, x: string)
    requires forall i, j :: 0 <= i < j < |s| ==> s[i] != s[j]
    ensures multiset(s)[x] <= 1
  {
    if |s| > 0 {
      assert s == [s[0]] + s[1..];
      DistinctCount(s[1..], x);
      if s[0] == x {
        assert x !in s[1..];
      }
    }
  }

  /** The side split assigns an entry to, against the median boundary: true for left. */
  predicate GoesLeft(e: Entry, median: string)
  {
    if e.keyMin == NONE then true
    else if e.keyMax == NONE then false
    else if PyStr.Lt(e.keyMax, median) then true
    else if PyStr.Lt(median, e.keyMin) then false
    else CommonPrefix(e.keyMin, median) < CommonPrefix(e.keyMax, median)
  }

  /** The side split gives one entry. */
  method Side(item: Entry, median: string) returns (left: bool)
    ensures left == GoesLeft(item, median)
  {
    if item.keyMin == NONE {
      left := true;
    } else if item.keyMax == NONE {
      left := false;
    } else if PyStr.Lt(item.keyMax, median) {
      left := true;
    } else if PyStr.Lt(median, item.keyMin) {
      left := false;
    } else {
      var a := PrefixCount(item.keyMin, median);
      var b := PrefixCount(item.keyMax, median);
      left := a < b;
    }
  }

  /** The partition loop of split: every entry lands on exactly one side. */
  method Partition(entries: set<Entry>, median: string) returns (left: set<Entry>, right: set<Entry>)
    ensures forall e :: e in left <==> e in entries && GoesLeft(e, median)
    ensures forall e :: e in right <==> e in entries && !GoesLeft(e, median)
  {
    left, right := {}, {};
    var todo := entries;
    while todo != {}
      invariant todo <= entries
      invariant forall e :: e in left <==> e in entries && e !in todo && GoesLeft(e, median)
      invariant forall e :: e in right <==> e in entries && e !in todo && !GoesLeft(e, median)
      decreases |todo|
    {
      var item :| item in todo;
      var goesLeft := Side(item, median);
      if goesLeft {
        left := left + {item};
      } else {
        right := right + {item};
      }
      todo := todo - {item};
    }
  }

  /** random.sample(full, k): some `k` of the entries. */
  method Sample(full: set<Entry>, k: nat) returns (r: set<Entry>)
    requires k <= |full|
    ensures r <= full && |r| == k
  {
    r := {};
    var todo := full;
    while |r| < k
      invariant r <= full && todo == full - r && |todo| == |full| - |r| && |r| <= k
      decreases k - |r|
    {
      var x :| x in todo;
      r := r + {x};
      todo := todo - {x};
    }
  }

  // ---------------------------------------------------------- overlap test

  /**
   * The test do_check uses to decide that two neighbouring children are
   * disjoint, as written: `left.key_max < right.key_min or right.key_min < left.key_max`.
   */
  predicate DisjointAsWritten(left: Entry, right: Entry)
  {
    PyStr.Lt(left.keyMax, right.keyMin) || PyStr.Lt(right.keyMin, left.keyMax)
  }

  /** As written, the test calls two ranges disjoint unless left ends exactly where right starts. */
  lemma DisjointAsWrittenOnlyRejectsTouching(left: Entry, right: Entry)
    ensures DisjointAsWritten(left, right) <==> left.keyMax != right.keyMin
  {
    PyStr.LtTotal(left.keyMax, right.keyMin);
    PyStr.LtIrreflexive(left.keyMax);
  }

  /** Two overlapping children that the as-written test passes over as disjoint. */
  lemma DisjointAsWrittenMissesOverlap()
    ensures var left, right := Entry("a", "m", "n1"), Entry("c", "z", "n2");
      DisjointAsWritten(left, right) && left.Contains("d") && right.Contains("d")
  {
    var left, right := Entry("a", "m", "n1"), Entry("c", "z", "n2");
    assert PyStr.Lt(right.keyMin, left.keyMax);
    assert PyStr.Lt("a", "d") && PyStr.Lt("d", "m") && PyStr.Lt("c", "d") && PyStr.Lt("d", "z");
  }

  /** The intended test: left ends before right starts. */
  predicate Disjoint(left: Entry, right: Entry)
  {
    PyStr.Lt(left.keyMax, right.keyMin)
  }

  /**
   * Disjoint children share no key; children that are not disjoint, listed
   * in order of key_min, share right's first key.
   */
  lemma DisjointMeansNoSharedKey(left: Entry, right: Entry, key: string)
    ensures Disjoint(left, right) ==> !(left.Contains(key) && right.Contains(key))
    ensures !Disjoint(left, right) && PyStr.Le(left.keyMin, right.keyMin) && PyStr.Le(right.keyMin, right.keyMax) ==>
      left.Contains(right.keyMin) && right.Contains(right.keyMin)
  {
    if Disjoint(left, right) && left.Contains(key) && right.Contains(key) {
      PyStr.LeTransitive(left.keyMax, right.keyMin, key);
      PyStr.LeTransitive(left.keyMax, key, left.keyMax);
      PyStr.LeAntisymmetric(left.keyMax, key);
      PyStr.LeAntisymmetric(key, right.keyMin);
      PyStr.LtIrreflexive(key);
    }
    PyStr.LtTotal(left.keyMax, right.keyMin);
  }

  /** `m` is the median boundary: exactly half of the boundaries, rounded down, sort before it. */
  predicate IsMedian(bs: set<string>, m: string)
  {
    m in bs && |Below(bs, m)| == |bs| / 2
  }

  /** The boundaries that sort before `m`. */
  function Below(bs: set<string>, m: string): set<string>
  {
    set b | b in bs && PyStr.Lt(b, m)
  }

  /** In a strictly sorted list of the boundaries, the element at index `len >> 1` is the median. */
  lemma {:induction false} SortedMedian(b: seq<string>, bs: set<string>)
    requires StrictlySorted(b) && |b| > 0 && |b| == |bs| && forall k :: k in b <==> k in bs
    ensures IsMedian(bs, b[|b| / 2])
  {
    var i := |b| / 2;
    var m := b[i];
    var prefix := b[..i];
    forall x
      ensures x in bs && PyStr.Lt(x, m) <==> x in prefix
    {
      if x in prefix {
        var j :| 0 <= j < i && prefix[j] == x;
        assert b[j] == x;
      }
      if x in bs && PyStr.Lt(x, m) {
        var j :| 0 <= j < |b| && b[j] == x;
        if j == i {
          PyStr.LtIrreflexive(m);
        } else if j > i {
          PyStr.LtAsymmetric(m, x);
        }
        assert prefix[j] == x;
      }
    }
    assert Below(bs, m) == set x | x in prefix;
    forall j, k | 0 <= j < k < |prefix|
      ensures prefix[j] != prefix[k]
    {
      PyStr.LtIrreflexive(prefix[j]);
    }
    DistinctCard(prefix);
  }

  /** There is only one median: a smaller candidate has fewer boundaries before it. */
  lemma MedianUnique(bs: set<string>, m1: string, m2: string)
    requires IsMedian(bs, m1) && IsMedian(bs, m2)
    ensures m1 == m2
  {
    if m1 != m2 {
      PyStr.LtTotal(m1, m2);
      if PyStr.Lt(m1, m2) {
        MedianBelow(bs, m1, m2);
      } else {
        MedianBelow(bs, m2, m1);
      }
    }
  }

  /** A boundary below another has strictly fewer boundaries before it. */
  lemma MedianBelow(bs: set<string>, lo: string, hi: string)
    requires lo in bs && PyStr.Lt(lo, hi)
    ensures |Below(bs, lo)| < |Below(bs, hi)|
  {
    var below := Below(bs, lo);
    var upto := Below(bs, hi);
    forall b | b in below
      ensures b in upto
    {
      PyStr.LtTransitive(b, lo, hi);
    }
    PyStr.LtIrreflexive(lo);
    assert lo in upto - below;
    assert upto == below + (upto - below) && below * (upto - below) == {};
  }

  /** The entries split puts on the left of boundary `m`. */
  function LeftOf(entries: set<Entry>, m: string): set<Entry>
  {
    set e | e in entries && GoesLeft(e, m)
  }

  /**
   * `right` is what split moves out when cutting at `m`: the entries not on
   * the left of `m`, or, when that leaves a side empty, all but `half` of them.
   */
  predicate CutAt(entries: set<Entry>, m: string, half: nat, right: set<Entry>)
  {
    && right <= entries
    && (LeftOf(entries, m) != {} && LeftOf(entries, m) != entries ==> right == entries - LeftOf(entries, m))
    && (LeftOf(entries, m) == {} || LeftOf(entries, m) == entries ==> |entries - right| == half)
  }

  /** `right` is what split moves out when cutting at the median boundary. */
  ghost predicate MedianCut(entries: set<Entry>, half: nat, right: set<Entry>)
  {
    exists m :: IsMedian(BoundarySet(entries), m) && CutAt(entries, m, half, right)
  }

  /**
   * Which entries split moves out: those not left of the median boundary,
   * or, when that leaves one side empty, all but a sample of half the split
   * threshold. None when there are fewer than two boundaries.
   */
  method ChooseRight(entries: set<Entry>, split: nat) returns (right: Option<set<Entry>>)
    requires |entries| > split
    ensures right.None? <==> |BoundarySet(entries)| < 2
    ensures right.Some? ==> right.value <= entries && MedianCut(entries, split / 2, right.value)
  {
    var boundaries := Boundaries(entries);
    if |boundaries| < 2 {
      return None;
    }
    var median := boundaries[|boundaries| / 2];
    SortedMedian(boundaries, BoundarySet(entries));
    var left, rest := Partition(entries, median);
    assert left == LeftOf(entries, median);
    assert rest == entries - left;
    if left == {} || rest == {} {
      assert left == {} || left == entries;
      left := Sample(entries, split / 2);
      rest := entries - left;
      assert entries - rest == left;
    }
    assert CutAt(entries, median, split / 2, rest);
    right := Some(rest);
  }

  // ------------------------------------------------------------------ arena

  /** What the random draws for a new node give: its content id and its two thresholds. */
  datatype Draw = Draw(contentId: string, splitThreshold: nat, joinThreshold: nat)

  /** One node's state as the arena holds it. */
  datatype Node = Node(entries: set<Entry>, parents: set<string>, splitThreshold: nat, joinThreshold: nat,
                       shouldCheck: bool)

  function EmptyNode(d: Draw): Node
  {
    Node({}, {}, d.splitThreshold, d.joinThreshold, false)
  }

  /** The key used to order children before looking for overlaps. */
  function OrderKey(e: Entry): string
  {
    e.keyMin + "," + e.keyMax
  }

  /**
   * The arena after the entry-moving loop of merge (`detach` false) or of
   * split (`detach` true): `items` are added to `into`, removed from `from`
   * when detaching, and every child they point at swaps parent `from` for `into`.
   */
  function Moved(nodes: map<string, Node>, from: string, into: string, items: set<Entry>, detach: bool)
    : map<string, Node>
  {
    map k | k in nodes :: MovedNode(nodes, k, from, into, items, detach)
  }

  /** Node `k` of Moved. */
  function MovedNode(nodes: map<string, Node>, k: string, from: string, into: string, items: set<Entry>, detach: bool)
    : Node
    requires k in nodes
  {
    nodes[k].(
      entries := (if k == into then nodes[k].entries + items else nodes[k].entries) -
                 (if detach && k == from then items else {}),
      parents := if IsChild(items, k) then (nodes[k].parents + {into}) - {from} else nodes[k].parents)
  }

  /** A move takes away no parent but `from`. */
  lemma MovedKeepsParents(nodes: map<string, Node>, from: string, into: string, items: set<Entry>,
                          detach: bool, k: string)
    requires k in nodes
    ensures nodes[k].parents - {from} <= Moved(nodes, from, into, items, detach)[k].parents
  {
  }

  /** Moving entries out of a node into a fresh, empty one splits its entries in two. */
  lemma MovedPartitions(nodes: map<string, Node>, from: string, into: string, items: set<Entry>)
    requires from in nodes && into in nodes && from != into
    requires items <= nodes[from].entries && nodes[into].entries == {}
    ensures var r := Moved(nodes, from, into, items, true);
      r[into].entries == items && r[from].entries == nodes[from].entries - items &&
      r[from].entries + r[into].entries == nodes[from].entries && r[from].entries * r[into].entries == {}
  {
  }

  /** Every child a moved entry points at names `into` as parent and no longer `from`. */
  lemma MovedRewiresChildren(nodes: map<string, Node>, from: string, into: string, items: set<Entry>,
                             detach: bool, c: string)
    requires c in nodes && IsChild(items, c) && from != into
    ensures into in Moved(nodes, from, into, items, detach)[c].parents
    ensures from !in Moved(nodes, from, into, items, detach)[c].parents
  {
  }

  /** A node that no moved entry points at keeps its parents; nodes other than the two ends keep their entries. */
  lemma MovedLeavesOthers(nodes: map<string, Node>, from: string, into: string, items: set<Entry>,
                          detach: bool, k: string)
    requires k in nodes && k != from && k != into
    ensures Moved(nodes, from, into, items, detach)[k].entries == nodes[k].entries
    ensures !IsChild(items, k) ==> Moved(nodes, from, into, items, detach)[k] == nodes[k]
  {
  }

  /** Those of `parents` that are in the arena and list `id` as a child. */
  function Listing(nodes: map<string, Node>, parents: set<string>, id: string): set<string>
  {
    set p | p in parents && p in nodes && IsChild(nodes[p].entries, id)
  }

  /** The arena with the check flag of `id` cleared, as do_check starts. */
  function Cleared(nodes: map<string, Node>, id: string): map<string, Node>
    requires id in nodes
  {
    nodes[id := nodes[id].(shouldCheck := false)]
  }

  /** Every parent of `id` lists it under the range `entries` compute to. */
  ghost predicate RegisteredIn(nodes: map<string, Node>, id: string, entries: set<Entry>)
    requires id in nodes
  {
    exists lo, hi :: LowOf(entries, lo) && HighOf(entries, hi) &&
      forall p :: p in nodes[id].parents && p in nodes ==> Entry(lo, hi, id) in nodes[p].entries
  }

  /** The arena without `p` among the parents of `k`. */
  function DropParent(nodes: map<string, Node>, k: string, p: string): map<string, Node>
  {
    if k in nodes then nodes[k := nodes[k].(parents := nodes[k].parents - {p})] else nodes
  }

  /** The move loop of merge and split, over the arena's map. */
  method MoveAll(start: map<string, Node>, from: string, into: string, items: set<Entry>, detach: bool)
    returns (m: map<string, Node>)
    ensures m == Moved(start, from, into, items, detach)
  {
    m := start;
    var todo := items;
    MovedSoFarStart(start, from, into, detach);
    while todo != {}
      invariant todo <= items
      invariant MovedSoFar(m, start, from, into, items - todo, detach)
      decreases |todo|
    {
      var item :| item in todo;
      ghost var done := items - todo;
      MovedSoFarStep(m, start, from, into, done, item, detach);
      m := MoveEntry(m, from, into, item, detach);
      todo := todo - {item};
      assert items - todo == done + {item};
    }
    assert items - todo == items;
    MovedSoFarDone(m, start, from, into, items, detach);
  }

  /** `m` is `start` after the move loop has handled `done`. */
  ghost predicate MovedSoFar(m: map<string, Node>, start: map<string, Node>, from: string, into: string,
                             done: set<Entry>, detach: bool)
  {
    m.Keys == start.Keys && forall k :: k in m ==> m[k] == MovedNode(start, k, from, into, done, detach)
  }

  lemma MovedSoFarStart(start: map<string, Node>, from: string, into: string, detach: bool)
    ensures MovedSoFar(start, start, from, into, {}, detach)
  {
    forall k | k in start
      ensures start[k] == MovedNode(start, k, from, into, {}, detach)
    {
      assert !IsChild({}, k);
    }
  }

  lemma MovedSoFarStep(m: map<string, Node>, start: map<string, Node>, from: string, into: string,
                       done: set<Entry>, item: Entry, detach: bool)
    requires MovedSoFar(m, start, from, into, done, detach)
    ensures MovedSoFar(MoveEntry(m, from, into, item, detach), start, from, into, done + {item}, detach)
  {
    var m' := MoveEntry(m, from, into, item, detach);
    forall k | k in m'
      ensures m'[k] == MovedNode(start, k, from, into, done + {item}, detach)
    {
      MoveEntryAt(m, k, from, into, item, detach);
      MovedStepAt(start, k, from, into, done, item, detach);
    }
  }

  lemma MovedSoFarDone(m: map<string, Node>, start: map<string, Node>, from: string, into: string,
                       items: set<Entry>, detach: bool)
    requires MovedSoFar(m, start, from, into, items, detach)
    ensures m == Moved(start, from, into, items, detach)
  {
    assert forall k :: k in m ==> m[k] == Moved(start, from, into, items, detach)[k];
  }

  /** Node `k` after the move loop has handled `item`. */
  function MoveOne(n: Node, k: string, from: string, into: string, item: Entry, detach: bool): Node
  {
    n.(entries := (if k == into then n.entries + {item} else n.entries) - (if detach && k == from then {item} else {}),
       parents := if !item.IsLeaf() && item.value == k then (n.parents + {into}) - {from} else n.parents)
  }

  /**
   * One pass of the move loop: the target takes the entry, the child it
   * points at swaps parent `from` for `into`, and when detaching the source
   * loses the entry.
   */
  function MoveEntry(b0: map<string, Node>, from: string, into: string, item: Entry, detach: bool)
    : (b3: map<string, Node>)
    ensures b3.Keys == b0.Keys
  {
    var b1 := if into in b0 then b0[into := b0[into].(entries := b0[into].entries + {item})] else b0;
    var b2 := if !item.IsLeaf() && item.value in b1
              then b1[item.value := b1[item.value].(parents := (b1[item.value].parents + {into}) - {from})] else b1;
    if detach && from in b2 then b2[from := b2[from].(entries := b2[from].entries - {item})] else b2
  }

  /** One pass of the move loop, seen at node `k`. */
  lemma MoveEntryAt(b0: map<string, Node>, k: string, from: string, into: string, item: Entry, detach: bool)
    requires k in b0
    ensures k in MoveEntry(b0, from, into, item, detach)
    ensures MoveEntry(b0, from, into, item, detach)[k] == MoveOne(b0[k], k, from, into, item, detach)
  {
    var b1 := if into in b0 then b0[into := b0[into].(entries := b0[into].entries + {item})] else b0;
    var b2 := if !item.IsLeaf() && item.value in b1
              then b1[item.value := b1[item.value].(parents := (b1[item.value].parents + {into}) - {from})] else b1;
    var b3 := MoveEntry(b0, from, into, item, detach);
    var n := b0[k];
    var e1 := if k == into then n.entries + {item} else n.entries;
    var e3 := if detach && k == from then e1 - {item} else e1;
    var p2 := if !item.IsLeaf() && item.value == k then (n.parents + {into}) - {from} else n.parents;
    assert b1[k] == n.(entries := e1);
    assert b2[k] == n.(entries := e1, parents := p2);
    assert b3[k] == n.(entries := e3, parents := p2);
  }

  /** One pass of the move loop, at one node. */
  lemma MovedStepAt(start: map<string, Node>, k: string, from: string, into: string, done: set<Entry>,
                    item: Entry, detach: bool)
    requires k in start
    ensures MoveOne(MovedNode(start, k, from, into, done, detach), k, from, into, item, detach) ==
            MovedNode(start, k, from, into, done + {item}, detach)
  {
    assert IsChild(done + {item}, k) <==> IsChild(done, k) || (!item.IsLeaf() && item.value == k);
  }

  /** The parents do_check keeps when a node has several: those that list it as a child. */
  method KeptParents(nodes: map<string, Node>, parents: set<string>, id: string) returns (kept: set<string>)
    ensures kept == Listing(nodes, parents, id)
  {
    kept := parents;
    var todo := parents;
    while todo != {}
      invariant todo <= parents && kept <= parents
      invariant forall p :: p in kept <==> p in parents && (p in todo || (p in nodes && IsChild(nodes[p].entries, id)))
      decreases |todo|
    {
      var parent :| parent in todo;
      var keep := false;
      if parent in nodes {
        var children := ComputeChildren(nodes[parent].entries);
        keep := id in children;
      }
      if !keep {
        kept := kept - {parent};
      }
      todo := todo - {parent};
    }
    assert kept == Listing(nodes, parents, id);
  }

  /**
   * The nodes of one replica, found by id (the `get`, `add_node` and
   * `set_root` hooks), and the source of the random draws new nodes take.
   * A call on an id the arena does not hold, where the source would fail
   * on `None`, does nothing here.
   */
  class Forest {
    var nodes: map<string, Node>
    var root: string
    var drawn: nat
    const draw: nat -> Draw

    /** Draws give distinct ids, and no id still to be drawn is in use. */
    ghost predicate Valid()
      reads this
    {
      (forall n, m :: draw(n).contentId == draw(m).contentId ==> n == m) &&
      (forall n :: n >= drawn ==> draw(n).contentId !in nodes)
    }

    /** An arena holding one new node, which is the root. */
    constructor (draw: nat -> Draw)
      requires forall n, m :: draw(n).contentId == draw(m).contentId ==> n == m
      ensures Valid() && this.draw == draw && drawn == 1
      ensures nodes == map[draw(0).contentId := EmptyNode(draw(0))] && root == draw(0).contentId
    {
      this.draw := draw;
      nodes := map[draw(0).contentId := EmptyNode(draw(0))];
      root := draw(0).contentId;
      drawn := 1;
    }

    /** CrdtRTree() followed by add_node: a new empty node under the next drawn id. */
    method NewNode() returns (id: string)
      requires Valid()
      modifies this
      ensures Valid() && id !in old(nodes) && id == draw(old(drawn)).contentId
      ensures nodes == old(nodes)[id := EmptyNode(draw(old(drawn)))]
      ensures drawn == old(drawn) + 1 && root == old(root)
    {
      var d := draw(drawn);
      id := d.contentId;
      drawn := drawn + 1;
      nodes := nodes[id := EmptyNode(d)];
    }

    /** check: marks the node for a later do_check. */
    method Check(id: string)
      requires Valid()
      modifies this
      ensures Valid() && root == old(root) && drawn == old(drawn)
      ensures nodes == if id in old(nodes) then old(nodes)[id := old(nodes)[id].(shouldCheck := true)] else old(nodes)
    {
      if id in nodes {
        nodes := nodes[id := nodes[id].(shouldCheck := true)];
      }
    }

    /** remove_values: drops every entry of node `k` whose value is `value`. */
    method RemoveValues(k: string, value: string)
      requires Valid()
      modifies this
      ensures Valid() && root == old(root) && drawn == old(drawn)
      ensures nodes == if k in old(nodes) then old(nodes)[k := old(nodes)[k].(entries := WithoutValue(old(nodes)[k].entries, value))]
                       else old(nodes)
    {
      if k !in nodes {
        return;
      }
      var items := nodes[k].entries;
      var todo := items;
      assert (set e | e in items && (e in todo || e.value != value)) == items;
      while todo != {}
        invariant todo <= items && k in nodes && nodes.Keys == old(nodes).Keys
        invariant root == old(root) && drawn == old(drawn)
        invariant nodes == old(nodes)[k := nodes[k]]
        invariant nodes[k] == old(nodes)[k].(entries := set e | e in items && (e in todo || e.value != value))
        decreases |todo|
      {
        var item :| item in todo;
        if item.value == value {
          nodes := nodes[k := nodes[k].(entries := nodes[k].entries - {item})];
        }
        todo := todo - {item};
      }
      assert nodes[k].entries == WithoutValue(items, value);
    }

    /** delete: removes this node's entries from every parent, then forgets all parents. */
    method Delete(id: string)
      requires Valid()
      modifies this
      ensures Valid() && root == old(root) && drawn == old(drawn) && nodes.Keys == old(nodes).Keys
      ensures id !in old(nodes) ==> nodes == old(nodes)
      ensures id in old(nodes) ==> forall k :: k in nodes ==> nodes[k] == old(nodes)[k].(
        entries := if k in old(nodes)[id].parents then WithoutValue(old(nodes)[k].entries, id) else old(nodes)[k].entries,
        parents := if k == id then {} else old(nodes)[k].parents)
    {
      if id !in nodes {
        return;
      }
      var parents := nodes[id].parents;
      var todo := parents;
      while todo != {}
        invariant todo <= parents && nodes.Keys == old(nodes).Keys
        invariant Valid() && root == old(root) && drawn == old(drawn)
        invariant forall k :: k in nodes ==> nodes[k] == old(nodes)[k].(
          entries := if k in parents - todo then WithoutValue(old(nodes)[k].entries, id) else old(nodes)[k].entries)
        decreases |todo|
      {
        var parent :| parent in todo;
        RemoveValues(parent, id);
        todo := todo - {parent};
      }
      nodes := nodes[id := nodes[id].(parents := {})];
    }

    /** The loop that moves entries from one node to another in merge and split. */
    method MoveEntries(from: string, into: string, items: set<Entry>, detach: bool)
      requires Valid()
      modifies this
      ensures Valid() && root == old(root) && drawn == old(drawn)
      ensures nodes == Moved(old(nodes), from, into, items, detach)
    {
      nodes := MoveAll(nodes, from, into, items, detach);
    }

    /** The sibling a merging node joins: among its parents' other entries, the first closest to its range. */
    ghost predicate Candidate(e: Entry, id: string)
      reads this
    {
      e.value != id && id in nodes && exists p :: p in nodes[id].parents && p in nodes && e in nodes[p].entries
    }

    /** The inner loop of the sibling search, over one parent's entries. */
    method BestOf(entries: set<Entry>, id: string, range: (string, string), current: Option<Entry>)
      returns (best: Option<Entry>)
      ensures best.None? <==> current.None? && forall e :: e in entries ==> e.value == id
      ensures best.Some? ==> best == current || (best.value in entries && best.value.value != id)
      ensures best.Some? && current.Some? ==> Closeness(range, current.value) <= Closeness(range, best.value)
      ensures best.Some? ==> forall e :: e in entries && e.value != id ==> Closeness(range, e) <= Closeness(range, best.value)
    {
      best := current;
      var todo := entries;
      while todo != {}
        invariant todo <= entries
        invariant best.None? <==> current.None? && forall e :: e in entries - todo ==> e.value == id
        invariant best.Some? ==> best == current || (best.value in entries && best.value.value != id)
        invariant best.Some? && current.Some? ==> Closeness(range, current.value) <= Closeness(range, best.value)
        invariant best.Some? ==> forall e :: e in entries - todo && e.value != id ==> Closeness(range, e) <= Closeness(range, best.value)
        decreases |todo|
      {
        var entry :| entry in todo;
        todo := todo - {entry};
        if entry.value != id {
          if best.None? {
            best := Some(entry);
          } else {
            var have := ClosenessOf(range, best.value);
            var offer := ClosenessOf(range, entry);
            if have < offer {
              best := Some(entry);
            }
          }
        }
      }
    }

    /** The sibling search of merge. */
    method SelectSibling(id: string, range: (string, string)) returns (sibling: Option<Entry>)
      requires id in nodes
      ensures sibling.None? <==> forall e :: !Candidate(e, id)
      ensures sibling.Some? ==> Candidate(sibling.value, id)
      ensures sibling.Some? ==> forall e :: Candidate(e, id) ==> Closeness(range, e) <= Closeness(range, sibling.value)
    {
      sibling := None;
      var parents := nodes[id].parents;
      var todo := parents;
      while todo != {}
        invariant todo <= parents
        invariant sibling.None? <==> forall p, e :: p in parents - todo && p in nodes && e in nodes[p].entries ==> e.value == id
        invariant sibling.Some? ==> Candidate(sibling.value, id)
        invariant sibling.Some? ==> forall p, e :: p in parents - todo && p in nodes && e in nodes[p].entries && e.value != id ==>
          Closeness(range, e) <= Closeness(range, sibling.value)
        decreases |todo|
      {
        var parent :| parent in todo;
        todo := todo - {parent};
        if parent in nodes {
          sibling := BestOf(nodes[parent].entries, id, range, sibling);
        }
      }
    }

    /**
     * merge: a root with a single child entry hands the root over to that
     * child; any other node moves its entries into a sibling (the given one,
     * or the closest entry of its parents), leaves its parents and lets the
     * sibling check itself.
     */
    method Merge(id: string, sibling: Option<Entry>, fuel: nat)
      requires Valid()
      modifies this
      ensures Valid() && old(nodes).Keys <= nodes.Keys && old(drawn) <= drawn
      ensures old(id in nodes && nodes[id].parents == {}) ==> drawn == old(drawn)
      ensures old(id in nodes && nodes[id].parents == {} && |nodes[id].entries| == 1 && !AllLeaves(nodes[id].entries)) ==>
        forall e :: e in old(nodes[id].entries) ==> root == e.value && nodes == DropParent(old(nodes), e.value, id)
      ensures old(id in nodes && nodes[id].parents == {} && (|nodes[id].entries| != 1 || AllLeaves(nodes[id].entries))) ==>
        nodes == old(nodes) && root == old(root)
      decreases fuel, 1
    {
      if id !in nodes {
        return;
      }
      if nodes[id].parents == {} {
        if |nodes[id].entries| == 1 {
          var leafNode := IsLeafNode(nodes[id].entries);
          if !leafNode {
            var entry :| entry in nodes[id].entries;
            assert |nodes[id].entries - {entry}| == 0;
            assert nodes[id].entries == {entry};
            nodes := DropParent(nodes, entry.value, id);
            root := entry.value;
          }
        }
        return;
      }
      var chosen := sibling;
      if chosen.None? {
        var lo, hi := ComputeRange(nodes[id].entries);
        chosen := SelectSibling(id, (lo, hi));
        if chosen.None? {
          return;
        }
      }
      Delete(id);
      var target := chosen.value.value;
      MoveEntries(id, target, nodes[id].entries, false);
      if fuel > 0 {
        DoCheck(target, fuel - 1);
      } else {
        Check(target);
      }
    }

    /**
     * The part of split before the new sibling checks itself: cut at the
     * median boundary (or, when one side would be empty, at a sample of half
     * the split threshold), give a root node a new parent that becomes the
     * root, and move the right side into a new sibling with the same parents.
     */
    method SplitOff(id: string) returns (other: Option<string>)
      requires Valid() && id in nodes && |nodes[id].entries| > nodes[id].splitThreshold
      modifies this
      ensures Valid() && old(nodes).Keys <= nodes.Keys && old(drawn) <= drawn && id in nodes
      ensures other.None? <==> |BoundarySet(old(nodes[id].entries))| < 2
      ensures other.None? ==> nodes == old(nodes) && root == old(root) && drawn == old(drawn)
      ensures other.Some? ==> other.value !in old(nodes) && other.value in nodes
      ensures other.Some? ==> nodes[id].entries + nodes[other.value].entries == old(nodes[id].entries)
      ensures other.Some? ==> nodes[id].entries * nodes[other.value].entries == {}
      ensures other.Some? ==>
        MedianCut(old(nodes[id].entries), old(nodes[id].splitThreshold) / 2, nodes[other.value].entries)
      ensures other.Some? ==> forall k :: k in old(nodes) && k != id ==> nodes[k].entries == old(nodes)[k].entries
      ensures other.Some? ==> forall k :: k in old(nodes) && IsChild(nodes[other.value].entries, k) ==>
        other.value in nodes[k].parents && id !in nodes[k].parents
      ensures other.Some? ==> old(nodes[id].parents) - {id} <= nodes[other.value].parents
      ensures other.Some? && old(nodes[id].parents) != {} ==> root == old(root)
      ensures other.Some? && old(nodes[id].parents) == {} ==>
        root !in old(nodes) && root in nodes && root in nodes[id].parents && root in nodes[other.value].parents
    {
      var right := ChooseRight(nodes[id].entries, nodes[id].splitThreshold);
      if right.None? {
        return None;
      }
      var o := Stage(id);
      ghost var staged := nodes;
      MoveEntries(id, o, right.value, true);
      MovedPartitions(staged, id, o, right.value);
      forall k | k in old(nodes) && IsChild(nodes[o].entries, k)
        ensures o in nodes[k].parents && id !in nodes[k].parents
      {
        MovedRewiresChildren(staged, id, o, right.value, true, k);
      }
      forall k | k in old(nodes) && k != id
        ensures nodes[k].entries == old(nodes)[k].entries
      {
        MovedLeavesOthers(staged, id, o, right.value, true, k);
      }
      MovedKeepsParents(staged, id, o, right.value, true, o);
      MovedKeepsParents(staged, id, o, right.value, true, id);
      other := Some(o);
    }

    /**
     * The arena changes split makes before moving entries: a root node gets
     * a new parent, which becomes the root, and a new sibling is made with
     * this node's parents.
     */
    method Stage(id: string) returns (o: string)
      requires Valid() && id in nodes
      modifies this
      ensures Valid() && old(nodes).Keys <= nodes.Keys && old(drawn) < drawn
      ensures o !in old(nodes) && o in nodes && id in nodes && o != id
      ensures nodes[o].entries == {} && nodes[o].parents == nodes[id].parents
      ensures nodes[id].entries == old(nodes[id].entries)
      ensures forall k :: k in old(nodes) && k != id ==> nodes[k] == old(nodes)[k]
      ensures old(nodes[id].parents) != {} ==> root == old(root) && nodes[id].parents == old(nodes[id].parents)
      ensures old(nodes[id].parents) == {} ==>
        root !in old(nodes) && root in nodes && root != o && nodes[id].parents == {root} && nodes[root].entries == {}
    {
      if nodes[id].parents == {} {
        var newParent := NewNode();
        nodes := nodes[id := nodes[id].(parents := nodes[id].parents + {newParent})];
        root := newParent;
      }
      o := NewNode();
      nodes := nodes[o := nodes[o].(parents := nodes[o].parents + nodes[id].parents)];
    }

    /** split: SplitOff, then the new sibling checks itself. */
    method Split(id: string, fuel: nat)
      requires Valid() && id in nodes && |nodes[id].entries| > nodes[id].splitThreshold
      modifies this
      ensures Valid() && old(nodes).Keys <= nodes.Keys && old(drawn) <= drawn
      decreases fuel, 1
    {
      var other := SplitOff(id);
      if other.Some? {
        if fuel > 0 {
          DoCheck(other.value, fuel - 1);
        } else {
          Check(other.value);
        }
      }
    }

    /** The first step of do_check: with several parents, drop those that do not list this node as a child. */
    method DropStaleParents(id: string)
      requires Valid()
      modifies this
      ensures Valid() && root == old(root) && drawn == old(drawn)
      ensures nodes == if id in old(nodes) && |old(nodes)[id].parents| > 1
        then old(nodes)[id := old(nodes)[id].(parents := Listing(old(nodes), old(nodes)[id].parents, id))]
        else old(nodes)
    {
      if id !in nodes || |nodes[id].parents| <= 1 {
        return;
      }
      var kept := KeptParents(nodes, nodes[id].parents, id);
      nodes := nodes[id := nodes[id].(parents := kept)];
    }

    /**
     * The overlap pass of do_check: children sorted by "key_min,key_max" are
     * compared from the top; a pair that is not disjoint is merged, the
     * contained one into the other, and the pair below is skipped.
     */
    method ResolveOverlaps(id: string, fuel: nat)
      requires Valid() && id in nodes
      modifies this
      ensures Valid() && old(nodes).Keys <= nodes.Keys && old(drawn) <= drawn
      decreases fuel, 2
    {
      var listed := Enumerate(nodes[id].entries);
      var entries := PyStr.SortBy(listed, OrderKey);
      var finger := |entries| - 1;
      while finger > 0
        invariant Valid() && old(nodes).Keys <= nodes.Keys && old(drawn) <= drawn
        invariant finger < |entries|
        decreases finger
      {
        var left, right := entries[finger - 1], entries[finger];
        if DisjointAsWritten(left, right) {
          finger := finger - 1;
        } else {
          if PyStr.Le(right.keyMin, left.keyMin) && PyStr.Le(left.keyMax, right.keyMax) {
            Merge(left.value, Some(right), fuel);
          } else {
            Merge(right.value, Some(left), fuel);
          }
          finger := finger - 2;
        }
      }
    }

    /** The last step of do_check: every parent whose entry for this node is stale gets the current range. */
    method RegisterInParents(id: string) returns (lo: string, hi: string)
      requires Valid()
      modifies this
      ensures Valid() && root == old(root) && drawn == old(drawn) && nodes.Keys == old(nodes).Keys
      ensures id !in old(nodes) ==> nodes == old(nodes)
      ensures id in old(nodes) ==> LowOf(old(nodes)[id].entries, lo) && HighOf(old(nodes)[id].entries, hi)
      ensures id in old(nodes) ==> forall k :: k in nodes ==>
        nodes[k] == (if k in old(nodes)[id].parents && Entry(lo, hi, id) !in old(nodes)[k].entries
         then old(nodes)[k].(entries := WithoutValue(old(nodes)[k].entries, id) + {Entry(lo, hi, id)})
         else old(nodes)[k])
    {
      if id !in nodes {
        return NONE, NONE;
      }
      lo, hi := ComputeRange(nodes[id].entries);
      var parents := nodes[id].parents;
      var todo := parents;
      while todo != {}
        invariant todo <= parents && nodes.Keys == old(nodes).Keys
        invariant Valid() && root == old(root) && drawn == old(drawn)
        invariant forall k :: k in nodes ==>
          nodes[k] == (if k in parents - todo && Entry(lo, hi, id) !in old(nodes)[k].entries
           then old(nodes)[k].(entries := WithoutValue(old(nodes)[k].entries, id) + {Entry(lo, hi, id)})
           else old(nodes)[k])
        decreases |todo|
      {
        var parent :| parent in todo;
        todo := todo - {parent};
        if parent in nodes && Entry(lo, hi, id) !in nodes[parent].entries {
          RemoveValues(parent, id);
          nodes := nodes[parent := nodes[parent].(entries := nodes[parent].entries + {Entry(lo, hi, id)})];
        }
      }
    }

    /**
     * do_check: clear the flag, drop stale parents, merge away when at or
     * below the join threshold, resolve overlapping children, split when
     * above the split threshold, refresh this node's entry in its parents,
     * and delete the node when it has no entries left. A nested do_check
     * beyond the fuel is left as a `check` mark instead.
     */
    method DoCheck(id: string, fuel: nat)
      requires Valid()
      modifies this
      ensures Valid() && old(nodes).Keys <= nodes.Keys && old(drawn) <= drawn
      ensures id !in old(nodes) ==> nodes == old(nodes) && root == old(root) && drawn == old(drawn)
      ensures (id in old(nodes) && old(nodes)[id].parents == {} &&
               |old(nodes)[id].entries| <= old(nodes)[id].joinThreshold) ==>
          drawn == old(drawn) &&
          (|old(nodes)[id].entries| == 1 && !AllLeaves(old(nodes)[id].entries) ==>
            forall e :: e in old(nodes)[id].entries ==>
              root == e.value && nodes == DropParent(Cleared(old(nodes), id), e.value, id)) &&
          (|old(nodes)[id].entries| != 1 || AllLeaves(old(nodes)[id].entries) ==>
            nodes == Cleared(old(nodes), id) && root == old(root))
      ensures (id in old(nodes) && AllLeaves(old(nodes)[id].entries) &&
               old(nodes)[id].joinThreshold < |old(nodes)[id].entries| <= old(nodes)[id].splitThreshold) ==>
          root == old(root) && drawn == old(drawn) && nodes.Keys == old(nodes).Keys && id in nodes &&
          !nodes[id].shouldCheck &&
          nodes[id].parents == (if |old(nodes)[id].parents| > 1
            then Listing(Cleared(old(nodes), id), old(nodes)[id].parents, id) else old(nodes)[id].parents) &&
          RegisteredIn(nodes, id, old(nodes)[id].entries)
      decreases fuel, 3
    {
      if id !in nodes {
        return;
      }
      nodes := Cleared(nodes, id);
      DropStaleParents(id);
      if |nodes[id].entries| <= nodes[id].joinThreshold {
        Merge(id, None, fuel);
        return;
      }
      var leafNode := IsLeafNode(nodes[id].entries);
      if !leafNode {
        ResolveOverlaps(id, fuel);
      }
      if |nodes[id].entries| > nodes[id].splitThreshold {
        Split(id, fuel);
      }
      ghost var before := nodes;
      var lo, hi := RegisterInParents(id);
      if leafNode && |old(nodes)[id].entries| <= old(nodes)[id].splitThreshold {
        assert before[id].parents == nodes[id].parents;
        assert LowOf(old(nodes)[id].entries, lo) && HighOf(old(nodes)[id].entries, hi);
        assert forall p :: p in nodes[id].parents && p in nodes ==> Entry(lo, hi, id) in nodes[p].entries;
      }
      if |nodes[id].entries| == 0 {
        Delete(id);
      }
    }

    /** The child add_leaf_item descends into: the first with the longest shared prefix with the key. */
    method BestFit(containers: set<Entry>, key: string) returns (best: Entry)
      requires containers != {}
      ensures best in containers
      ensures forall e :: e in containers ==> Fit(e, key) <= Fit(best, key)
    {
      var todo := containers;
      best :| best in todo;
      var bestFit: int := -1;
      while todo != {}
        invariant todo <= containers && best in containers
        invariant bestFit == -1 ==> todo == containers
        invariant bestFit != -1 ==> bestFit == Fit(best, key)
        invariant forall e :: e in containers - todo ==> Fit(e, key) <= bestFit
        decreases |todo|
      {
        var item :| item in todo;
        var a := PrefixCount(item.keyMin, key);
        var b := PrefixCount(item.keyMax, key);
        var fit := if a >= b then a else b;
        if fit > bestFit {
          best, bestFit := item, fit;
        }
        todo := todo - {item};
      }
    }

    /**
     * add_leaf_item: a leaf node takes the point entry; an inner node passes
     * the item to the child whose range contains the key (any child when
     * none does) that shares the longest prefix with it. The node is then
     * marked for checking.
     */
    method AddLeafItem(id: string, key: string, value: string, fuel: nat)
      requires Valid()
      modifies this
      ensures Valid() && nodes.Keys == old(nodes).Keys && root == old(root) && drawn == old(drawn)
      ensures forall k :: k in nodes ==> old(nodes)[k].entries <= nodes[k].entries && nodes[k].parents == old(nodes)[k].parents
      ensures id in nodes ==> nodes[id].shouldCheck
      ensures old(id in nodes && AllLeaves(nodes[id].entries)) ==>
        nodes[id].entries == old(nodes[id].entries) + {Entry(key, key, value)}
      ensures old(id in nodes && AllLeaves(nodes[id].entries)) && key != NONE ==>
        AllLeaves(nodes[id].entries) && HasPoint(nodes[id].entries, key)
      decreases fuel
    {
      if id !in nodes {
        return;
      }
      var leafNode := IsLeafNode(nodes[id].entries);
      if leafNode {
        nodes := nodes[id := nodes[id].(entries := nodes[id].entries + {Entry(key, key, value)})];
      } else {
        var entries := nodes[id].entries;
        var containers := set e | e in entries && e.Contains(key);
        if containers == {} {
          containers := entries;
        }
        var entry := BestFit(containers, key);
        if fuel > 0 {
          AddLeafItem(entry.value, key, value, fuel - 1);
        }
      }
      Check(id);
    }

    /**
     * del_leaf_item: a leaf node drops every point entry for the key; an
     * inner node passes the deletion to each child whose range contains the
     * key. The node is then marked for checking.
     */
    method DelLeafItem(id: string, key: string, fuel: nat)
      requires Valid()
      modifies this
      ensures Valid() && nodes.Keys == old(nodes).Keys && root == old(root) && drawn == old(drawn)
      ensures forall k :: k in nodes ==> nodes[k].entries <= old(nodes)[k].entries && nodes[k].parents == old(nodes)[k].parents
      ensures id in nodes ==> nodes[id].shouldCheck
      ensures old(id in nodes && AllLeaves(nodes[id].entries)) ==>
        nodes[id].entries == set e | e in old(nodes[id].entries) && !(e.keyMin == key && e.keyMax == key)
      ensures old(id in nodes && AllLeaves(nodes[id].entries)) ==>
        AllLeaves(nodes[id].entries) && !HasPoint(nodes[id].entries, key)
      decreases fuel, 1
    {
      if id !in nodes {
        return;
      }
      var leafNode := IsLeafNode(nodes[id].entries);
      if leafNode {
        DropPoints(id, key);
      } else {
        DelInChildren(nodes[id].entries, key, fuel);
      }
      Check(id);
    }

    /** The leaf case of del_leaf_item: every point entry for the key goes. */
    method DropPoints(id: string, key: string)
      requires Valid() && id in nodes
      modifies this
      ensures Valid() && root == old(root) && drawn == old(drawn)
      ensures nodes == old(nodes)[id := old(nodes)[id].(entries :=
        set e | e in old(nodes)[id].entries && !(e.keyMin == key && e.keyMax == key))]
    {
      var items := nodes[id].entries;
      var todo := items;
      assert (set e | e in items && (e in todo || !(e.keyMin == key && e.keyMax == key))) == items;
      while todo != {}
        invariant todo <= items && id in nodes && nodes.Keys == old(nodes).Keys
        invariant root == old(root) && drawn == old(drawn)
        invariant nodes == old(nodes)[id := nodes[id]]
        invariant nodes[id] == old(nodes)[id].(entries :=
          set e | e in items && (e in todo || !(e.keyMin == key && e.keyMax == key)))
        decreases |todo|
      {
        var item :| item in todo;
        todo := todo - {item};
        if item.keyMin == key && item.keyMax == key {
          nodes := nodes[id := nodes[id].(entries := nodes[id].entries - {item})];
        }
      }
      assert nodes[id].entries == set e | e in items && !(e.keyMin == key && e.keyMax == key);
    }

    /** The inner case of del_leaf_item: every child whose range holds the key deletes it. */
    method DelInChildren(items: set<Entry>, key: string, fuel: nat)
      requires Valid()
      modifies this
      ensures Valid() && nodes.Keys == old(nodes).Keys && root == old(root) && drawn == old(drawn)
      ensures forall k :: k in nodes ==> nodes[k].entries <= old(nodes)[k].entries && nodes[k].parents == old(nodes)[k].parents
      decreases fuel, 0
    {
      var todo := items;
      while todo != {}
        invariant todo <= items
        invariant Valid() && nodes.Keys == old(nodes).Keys && root == old(root) && drawn == old(drawn)
        invariant forall k :: k in nodes ==> nodes[k].entries <= old(nodes)[k].entries && nodes[k].parents == old(nodes)[k].parents
        decreases |todo|
      {
        var item :| item in todo;
        todo := todo - {item};
        if item.Contains(key) && fuel > 0 {
          DelLeafItem(item.value, key, fuel - 1);
        }
      }
    }

    /**
     * query_leaf_item: a leaf node answers with a point entry for the key;
     * an inner node asks each child whose range contains the key until one
     * answers.
     */
    method QueryLeafItem(id: string, key: string, fuel: nat) returns (r: Option<string>)
      ensures id in nodes && AllLeaves(nodes[id].entries) ==> (r.Some? <==> HasPoint(nodes[id].entries, key))
      ensures id in nodes && AllLeaves(nodes[id].entries) && r.Some? ==> Entry(key, key, r.value) in nodes[id].entries
      ensures r.Some? ==> exists k :: k in nodes && Entry(key, key, r.value) in nodes[k].entries
      decreases fuel
    {
      if id !in nodes {
        return None;
      }
      var leafNode := IsLeafNode(nodes[id].entries);
      if leafNode {
        r := FindPoint(nodes[id].entries, key);
        return;
      }
      r := None;
      var todo := nodes[id].entries;
      while todo != {}
        invariant r.None?
        decreases |todo|
      {
        var item :| item in todo;
        todo := todo - {item};
        if item.Contains(key) && fuel > 0 {
          r := QueryLeafItem(item.value, key, fuel - 1);
          if r.Some? {
            return;
          }
        }
      }
    }
  }
}
