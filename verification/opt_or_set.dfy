/**
 * OptOrSet (cfrt/OptOrSet.py): an observed-remove set without tombstones.
 * Every entry carries the dot `(replica id, clock)` of the add that made it,
 * and each replica keeps, per replica id, a list of clock intervals it has
 * seen. In `combine` an entry held by one side only is dropped exactly when
 * both sides have already seen its dot.
 */
module OptOrSet {
  /** An inclusive range `(low, high)` of clock values. */
  type Interval = (int, int)

  /** The interval vector: seen clock ranges per replica id. */
  type IntervalVector = map<string, seq<Interval>>

  predicate InInterval(iv: Interval, t: int)
  {
    iv.0 <= t <= iv.1
  }

  /** Some interval of the list contains `t`. */
  predicate Covers(list: seq<Interval>, t: int)
  {
    exists j :: 0 <= j < |list| && InInterval(list[j], t)
  }

  /** The vector has seen clock `t` of replica `id`. */
  predicate Seen(vector: IntervalVector, id: string, t: int)
  {
    id in vector && Covers(vector[id], t)
  }

  /** The list kept for `id`, or the empty list when there is none. */
  function Own(vector: IntervalVector, id: string): seq<Interval>
  {
    if id in vector then vector[id] else []
  }

  /** IsInIntervalVector: scans the list for `id` for an interval containing `t`. */
  method IsInIntervalVector(vector: IntervalVector, id: string, t: int) returns (b: bool)
    ensures b <==> Seen(vector, id, t)
  {
    if id in vector {
      var list := vector[id];
      for j := 0 to |list|
        invariant forall k :: 0 <= k < j ==> !InInterval(list[k], t)
      {
        if list[j].0 <= t <= list[j].1 {
          return true;
        }
      }
    }
    return false;
  }

  /** The smallest interval holding both. */
  function Hull(a: Interval, b: Interval): Interval
  {
    (if a.0 <= b.0 then a.0 else b.0, if a.1 >= b.1 then a.1 else b.1)
  }

  predicate SortedByLow(v: seq<Interval>)
  {
    forall i, j :: 0 <= i < j < |v| ==> v[i].0 <= v[j].0
  }

  /**
   * What CollapseVector leaves in the list: walking from the right, an
   * interval that overlaps or abuts (by the `high >= low - 1` test) the
   * collapsed interval after it is replaced by the hull of the two.
   */
  function Collapsed(v: seq<Interval>): (r: seq<Interval>)
    ensures |r| <= |v| && (|v| > 0 ==> |r| > 0)
    ensures SortedByLow(v) && |v| > 0 ==> r[0].0 == v[0].0
  {
    if |v| <= 1 then v
    else
      var t := Collapsed(v[1..]);
      if v[0].1 >= t[0].0 - 1 then [Hull(v[0], t[0])] + t[1..] else [v[0]] + t
  }

  /** One step of the right-to-left walk: the collapse of `v[i - 1..]` from that of `v[i..]`. */
  lemma CollapseStep(v: seq<Interval>, i: int)
    requires 1 <= i < |v|
    ensures var tail := Collapsed(v[i..]);
      Collapsed(v[i - 1..]) == if v[i - 1].1 >= tail[0].0 - 1 then [Hull(v[i - 1], tail[0])] + tail[1..] else [v[i - 1]] + tail
  {
    assert v[i - 1..][1..] == v[i..];
  }

  /** CollapseVector: the in-place right-to-left merge, on a list value. */
  method CollapseVector(v: seq<Interval>) returns (r: seq<Interval>)
    ensures r == Collapsed(v)
  {
    r := v;
    var i := |v| - 1;
    while i > 0
      invariant -1 <= i < |v| && (i == -1 ==> |v| == 0 && r == v)
      invariant i >= 0 ==> r == v[..i] + Collapsed(v[i..])
      decreases i
    {
      CollapseLoopStep(v, i, r);
      if r[i - 1].1 >= r[i].0 - 1 {
        r := r[..i - 1] + [Hull(r[i - 1], r[i])] + r[i + 1..];
      }
      i := i - 1;
    }
    if |v| > 0 {
      assert v[..0] == [] && v[0..] == v;
    }
  }

  /** The loop body of CollapseVector takes the list for `v[i..]` to the list for `v[i - 1..]`. */
  lemma CollapseLoopStep(v: seq<Interval>, i: int, r: seq<Interval>)
    requires 1 <= i < |v| && r == v[..i] + Collapsed(v[i..])
    ensures i < |r|
    ensures r[i - 1].1 >= r[i].0 - 1 ==> r[..i - 1] + [Hull(r[i - 1], r[i])] + r[i + 1..] == v[..i - 1] + Collapsed(v[i - 1..])
    ensures r[i - 1].1 < r[i].0 - 1 ==> r == v[..i - 1] + Collapsed(v[i - 1..])
  {
    var tail := Collapsed(v[i..]);
    CollapseStep(v, i);
    assert r[i - 1] == v[i - 1] && r[i] == tail[0] && r[i + 1..] == tail[1..] && r[..i - 1] == v[..i - 1];
    if r[i - 1].1 < r[i].0 - 1 {
      assert r == v[..i - 1] + ([v[i - 1]] + tail);
    } else {
      assert r[..i - 1] + [Hull(r[i - 1], r[i])] + r[i + 1..] == v[..i - 1] + ([Hull(v[i - 1], tail[0])] + tail[1..]);
    }
  }

  /** Inserts `x` before the first element whose low is not smaller. */
  function InsertByLow(x: Interval, s: seq<Interval>): (r: seq<Interval>)
    requires SortedByLow(s)
    ensures SortedByLow(r) && multiset(r) == multiset(s) + multiset{x}
    ensures |r| > 0 && (r[0] == x || (|s| > 0 && r[0] == s[0]))
  {
    if |s| == 0 || x.0 <= s[0].0 then [x] + s
    else
      var t := InsertByLow(x, s[1..]);
      assert s == [s[0]] + s[1..];
      [s[0]] + t
  }

  /** list.sort(key=low): a stable sort on the low ends. */
  function SortByLow(v: seq<Interval>): (r: seq<Interval>)
    ensures SortedByLow(r) && multiset(r) == multiset(v)
  {
    if |v| == 0 then []
    else
      assert v == [v[0]] + v[1..];
      InsertByLow(v[0], SortByLow(v[1..]))
  }

  /** The interval list of the local id after a clock tick to `c`: append, sort, collapse. */
  function Stamped(list: seq<Interval>, c: int): seq<Interval>
  {
    Collapsed(SortByLow(list + [(c, c)]))
  }

  lemma CoversConcat(a: seq<Interval>, b: seq<Interval>, t: int)
    ensures Covers(a + b, t) <==> Covers(a, t) || Covers(b, t)
  {
    if Covers(a + b, t) {
      var j :| 0 <= j < |a + b| && InInterval((a + b)[j], t);
      if j >= |a| {
        assert InInterval(b[j - |a|], t);
      }
    }
    if Covers(b, t) {
      var j :| 0 <= j < |b| && InInterval(b[j], t);
      assert (a + b)[|a| + j] == b[j];
    }
    if Covers(a, t) {
      var j :| 0 <= j < |a| && InInterval(a[j], t);
      assert (a + b)[j] == a[j];
    }
  }

  /** Coverage does not depend on the order of the list. */
  lemma CoversPermutation(a: seq<Interval>, b: seq<Interval>, t: int)
    requires multiset(a) == multiset(b)
    ensures Covers(a, t) <==> Covers(b, t)
  {
    if Covers(a, t) {
      var j :| 0 <= j < |a| && InInterval(a[j], t);
      assert a[j] in multiset(b);
      var k :| 0 <= k < |b| && b[k] == a[j];
    }
    if Covers(b, t) {
      var j :| 0 <= j < |b| && InInterval(b[j], t);
      assert b[j] in multiset(a);
      var k :| 0 <= k < |a| && a[k] == b[j];
    }
  }

  lemma CoversCons(x: Interval, s: seq<Interval>, t: int)
    ensures Covers([x] + s, t) <==> InInterval(x, t) || Covers(s, t)
  {
    CoversConcat([x], s, t);
    if InInterval(x, t) {
      assert [x][0] == x;
    }
  }

  /** Collapsing never loses a clock value, whatever the order of the list. */
  lemma {:induction false} CollapsedKeepsCoverage(v: seq<Interval>, t: int)
    requires Covers(v, t)
    ensures Covers(Collapsed(v), t)
  {
    if |v| > 1 {
      var tail := Collapsed(v[1..]);
      assert v == [v[0]] + v[1..];
      CoversCons(v[0], v[1..], t);
      if Covers(v[1..], t) {
        CollapsedKeepsCoverage(v[1..], t);
      }
      assert tail == [tail[0]] + tail[1..];
      CoversCons(tail[0], tail[1..], t);
      if v[0].1 >= tail[0].0 - 1 {
        CoversCons(Hull(v[0], tail[0]), tail[1..], t);
      } else {
        CoversCons(v[0], tail, t);
      }
    }
  }

  /** On a list sorted by low, collapsing covers exactly the clock values the list covered. */
  lemma {:induction false} CollapsedSortedExact(v: seq<Interval>, t: int)
    requires SortedByLow(v)
    ensures Covers(Collapsed(v), t) <==> Covers(v, t)
  {
    if Covers(v, t) {
      CollapsedKeepsCoverage(v, t);
    }
    if |v| > 1 && Covers(Collapsed(v), t) {
      var tail := Collapsed(v[1..]);
      assert v == [v[0]] + v[1..];
      assert SortedByLow(v[1..]);
      CollapsedSortedExact(v[1..], t);
      CoversCons(v[0], v[1..], t);
      assert tail == [tail[0]] + tail[1..];
      CoversCons(tail[0], tail[1..], t);
      assert tail[0].0 == v[1].0;
      if v[0].1 >= tail[0].0 - 1 {
        CoversCons(Hull(v[0], tail[0]), tail[1..], t);
      } else {
        CoversCons(v[0], tail, t);
      }
    }
  }

  /** A clock tick adds exactly the new clock value to the local list's coverage. */
  lemma StampedCoverage(list: seq<Interval>, c: int, t: int)
    ensures Covers(Stamped(list, c), t) <==> Covers(list, t) || t == c
  {
    var sorted := SortByLow(list + [(c, c)]);
    CollapsedSortedExact(sorted, t);
    CoversPermutation(sorted, list + [(c, c)], t);
    CoversConcat(list, [(c, c)], t);
    if t == c {
      assert InInterval([(c, c)][0], t);
    }
  }

  /** Stamping the list of `me` with clock `c` makes the vector see exactly one more dot. */
  lemma StampedSeen(vector: IntervalVector, me: string, c: int)
    ensures forall id, t :: Seen(vector[me := Stamped(Own(vector, me), c)], id, t) <==> Seen(vector, id, t) || (id == me && t == c)
  {
    forall id, t
      ensures Seen(vector[me := Stamped(Own(vector, me), c)], id, t) <==> Seen(vector, id, t) || (id == me && t == c)
    {
      if id == me {
        StampedCoverage(Own(vector, me), c, t);
      }
    }
  }

  /**
   * A replica's own list stays the single interval `(1, clock)`: ticking
   * from clock `c` to `c + 1` extends it by one.
   */
  lemma OwnListStaysOneInterval(c: nat)
    ensures Stamped(if c == 0 then [] else [(1, c)], c + 1) == [(1, c + 1)]
  {
    if c == 0 {
      assert SortByLow([(1, 1)]) == [(1, 1)];
    } else {
      var v := [(1, c), (c + 1, c + 1)];
      assert [(1, c)] + [(c + 1, c + 1)] == v;
      assert v[1..] == [(c + 1, c + 1)];
      assert SortByLow(v[1..]) == [(c + 1, c + 1)];
      assert SortByLow(v) == v;
      assert Collapsed(v[1..]) == [(c + 1, c + 1)];
    }
  }

  /**
   * `combine` appends the other side's list without sorting it, and
   * collapsing an unsorted list can cover values neither list covered.
   */
  lemma UnsortedCollapseWidens()
    ensures Collapsed([(5, 6)] + [(1, 2)]) == [(1, 6)]
    ensures Covers([(1, 6)], 3) && !Covers([(5, 6)] + [(1, 2)], 3)
  {
    var v := [(5, 6)] + [(1, 2)];
    assert v[1..] == [(1, 2)];
    assert InInterval([(1, 6)][0], 3);
  }

  /** The entry rule of `combine`: kept on both sides, or held by one side and unseen by some side. */
  predicate Survives<T(==)>(e: (T, string, int), mine: set<(T, string, int)>, theirs: set<(T, string, int)>,
                            myVector: IntervalVector, theirVector: IntervalVector)
  {
    (e in mine && e in theirs) ||
    ((e in mine) != (e in theirs) && !(Seen(myVector, e.1, e.2) && Seen(theirVector, e.1, e.2)))
  }

  /** The removal loop of `remove`: drops every entry with the value and says whether any went. */
  method WithoutValue<T(==)>(entries: set<(T, string, int)>, v: T) returns (rest: set<(T, string, int)>, removed: bool)
    ensures forall e :: e in rest <==> e in entries && e.0 != v
    ensures removed <==> exists e :: e in entries && e.0 == v
  {
    rest := entries;
    removed := false;
    var todo := entries;
    while todo != {}
      invariant todo <= entries
      invariant forall e :: e in rest <==> e in entries && (e in todo || e.0 != v)
      invariant removed <==> exists e :: e in entries && e !in todo && e.0 == v
      decreases |todo|
    {
      var m :| m in todo;
      if m.0 == v {
        rest := rest - {m};
        removed := true;
      }
      todo := todo - {m};
    }
  }

  /** The entry half of `combine`. */
  method MergeEntries<T(==)>(mine: set<(T, string, int)>, theirs: set<(T, string, int)>,
                             myVector: IntervalVector, theirVector: IntervalVector)
    returns (merged: set<(T, string, int)>)
    ensures forall e :: e in merged <==> Survives(e, mine, theirs, myVector, theirVector)
  {
    merged := mine * theirs;
    var diff := (mine - theirs) + (theirs - mine);
    var todo := diff;
    while todo != {}
      invariant todo <= diff
      invariant forall e :: e in merged <==>
        (e in mine && e in theirs) || (e in diff && e !in todo && !(Seen(myVector, e.1, e.2) && Seen(theirVector, e.1, e.2)))
      decreases |todo|
    {
      var m :| m in todo;
      var here := IsInIntervalVector(myVector, m.1, m.2);
      var there := IsInIntervalVector(theirVector, m.1, m.2);
      if !(here && there) {
        merged := merged + {m};
      }
      todo := todo - {m};
    }
  }

  /** The vector `combine` leaves: every id of either side, its two lists concatenated and collapsed. */
  function MergedVector(myVector: IntervalVector, theirVector: IntervalVector): IntervalVector
  {
    map k | k in myVector.Keys + theirVector.Keys :: Collapsed(Own(myVector, k) + Own(theirVector, k))
  }

  /** The vector half of `combine`: per id, the two lists concatenated and collapsed. */
  method MergeVectors(myVector: IntervalVector, theirVector: IntervalVector) returns (r: IntervalVector)
    ensures forall k :: k in r <==> k in myVector || k in theirVector
    ensures forall k :: k in r ==> r[k] == Collapsed(Own(myVector, k) + Own(theirVector, k))
    ensures r == MergedVector(myVector, theirVector)
  {
    r := myVector;
    var pending := myVector.Keys + theirVector.Keys;
    while pending != {}
      invariant VectorsSoFar(r, myVector, theirVector, pending)
      decreases |pending|
    {
      var key :| key in pending;
      var own := if key in r then r[key] else [];
      var otherV := if key in theirVector then theirVector[key] else [];
      VectorsStep(r, myVector, theirVector, pending, key);
      var joined := CollapseVector(own + otherV);
      r := r[key := joined];
      pending := pending - {key};
    }
    MergedVectorIs(myVector, theirVector, r);
  }

  /** A vector with the ids of both sides, each holding the collapsed concatenation, is the merged vector. */
  lemma MergedVectorIs(myVector: IntervalVector, theirVector: IntervalVector, r: IntervalVector)
    requires forall k :: k in r <==> k in myVector || k in theirVector
    requires forall k :: k in r ==> r[k] == Collapsed(Own(myVector, k) + Own(theirVector, k))
    ensures r == MergedVector(myVector, theirVector)
  {
    var m := MergedVector(myVector, theirVector);
    assert r.Keys == m.Keys;
    forall k | k in r
      ensures r[k] == m[k]
    {
    }
  }

  /** The invariant of the MergeVectors loop: ids no longer pending hold their merged lists. */
  ghost predicate VectorsSoFar(r: IntervalVector, myVector: IntervalVector, theirVector: IntervalVector, pending: set<string>)
  {
    (forall k :: k in pending ==> k in myVector || k in theirVector) &&
    (forall k :: k in r <==> k in myVector || (k in theirVector && k !in pending)) &&
    (forall k :: k in r && k !in pending ==> r[k] == Collapsed(Own(myVector, k) + Own(theirVector, k))) &&
    (forall k :: k in pending && k in myVector ==> r[k] == myVector[k])
  }

  lemma VectorsStep(r: IntervalVector, myVector: IntervalVector, theirVector: IntervalVector, pending: set<string>, key: string)
    requires VectorsSoFar(r, myVector, theirVector, pending) && key in pending
    ensures (if key in r then r[key] else []) == Own(myVector, key)
    ensures VectorsSoFar(r[key := Collapsed(Own(myVector, key) + Own(theirVector, key))], myVector, theirVector, pending - {key})
  {
  }

  /** Every dot either vector has seen is seen by the merged vector. */
  lemma MergedVectorKeepsSeen(myVector: IntervalVector, theirVector: IntervalVector, r: IntervalVector)
    requires forall k :: k in r <==> k in myVector || k in theirVector
    requires forall k :: k in r ==> r[k] == Collapsed(Own(myVector, k) + Own(theirVector, k))
    ensures forall id, t :: Seen(myVector, id, t) || Seen(theirVector, id, t) ==> Seen(r, id, t)
  {
    forall id, t | Seen(myVector, id, t) || Seen(theirVector, id, t)
      ensures Seen(r, id, t)
    {
      CoversConcat(Own(myVector, id), Own(theirVector, id), t);
      CollapsedKeepsCoverage(Own(myVector, id) + Own(theirVector, id), t);
    }
  }

  /** Every entry's dot has been seen by the vector: the invariant each replica keeps. */
  ghost predicate DotsSeen<T>(entries: set<(T, string, int)>, vector: IntervalVector)
  {
    forall e :: e in entries ==> Seen(vector, e.1, e.2)
  }

  /**
   * The entries converge: when each replica has seen the dots of its own
   * entries, `b` combining the state `a` reached by combining `b` keeps
   * exactly the entries `a` kept.
   */
  lemma EntriesConverge<T>(ea: set<(T, string, int)>, eb: set<(T, string, int)>, ea2: set<(T, string, int)>,
                           va: IntervalVector, vb: IntervalVector, va2: IntervalVector)
    requires DotsSeen(ea, va) && DotsSeen(eb, vb)
    requires forall e :: e in ea2 <==> Survives(e, ea, eb, va, vb)
    requires forall id, t :: Seen(vb, id, t) ==> Seen(va2, id, t)
    ensures forall e :: Survives(e, eb, ea2, vb, va2) <==> e in ea2
  {
  }

  /** Every list is the one interval `(1, n)`: the shape a replica's own list keeps while ticking. */
  predicate SingleIntervals(v: IntervalVector)
  {
    forall k :: k in v ==> |v[k]| == 1 && v[k][0].0 == 1 && v[k][0].1 >= 1
  }

  /** The highest clock listed for `k`, 0 when there is none. */
  function Top(v: IntervalVector, k: string): int
  {
    if k in v && |v[k]| > 0 then v[k][0].1 else 0
  }

  function Max(a: int, b: int): int
  {
    if a >= b then a else b
  }

  /** Merging single-interval vectors keeps, per id, the single interval up to the larger top. */
  lemma {:induction false} SingleIntervalsMerge(a: IntervalVector, b: IntervalVector, k: string)
    requires SingleIntervals(a) && SingleIntervals(b) && (k in a || k in b)
    ensures MergedVector(a, b)[k] == [(1, Max(Top(a, k), Top(b, k)))]
  {
    var joined := Own(a, k) + Own(b, k);
    assert MergedVector(a, b)[k] == Collapsed(joined);
    if k in a && k in b {
      assert joined == [(1, Top(a, k)), (1, Top(b, k))];
      assert joined[1..] == [(1, Top(b, k))];
      assert Collapsed(joined[1..]) == [(1, Top(b, k))];
      assert Hull(joined[0], (1, Top(b, k))) == (1, Max(Top(a, k), Top(b, k)));
    } else if k in a {
      assert joined == [(1, Top(a, k))];
    } else {
      assert joined == [(1, Top(b, k))];
    }
  }

  /** Merging single-interval vectors gives a single-interval vector. */
  lemma SingleIntervalsClosed(a: IntervalVector, b: IntervalVector)
    requires SingleIntervals(a) && SingleIntervals(b)
    ensures SingleIntervals(MergedVector(a, b))
  {
    forall k | k in MergedVector(a, b)
      ensures |MergedVector(a, b)[k]| == 1 && MergedVector(a, b)[k][0].0 == 1 && MergedVector(a, b)[k][0].1 >= 1
    {
      SingleIntervalsMerge(a, b, k);
    }
  }

  /**
   * The vectors converge while every list is one interval: after `a` merged
   * `b`'s vector, `b` merging `a`'s result gets exactly `a`'s vector.
   */
  lemma {:induction false} VectorsConverge(va: IntervalVector, vb: IntervalVector)
    requires SingleIntervals(va) && SingleIntervals(vb)
    ensures MergedVector(vb, MergedVector(va, vb)) == MergedVector(va, vb)
  {
    var ab := MergedVector(va, vb);
    assert MergedVector(vb, ab).Keys == ab.Keys;
    forall k | k in ab
      ensures MergedVector(vb, ab)[k] == ab[k]
    {
      ConvergeAt(va, vb, k);
    }
  }

  lemma {:induction false} ConvergeAt(va: IntervalVector, vb: IntervalVector, k: string)
    requires SingleIntervals(va) && SingleIntervals(vb) && k in MergedVector(va, vb)
    ensures MergedVector(vb, MergedVector(va, vb))[k] == MergedVector(va, vb)[k]
  {
    var ab := MergedVector(va, vb);
    SingleIntervalsClosed(va, vb);
    SingleIntervalsMerge(va, vb, k);
    assert Top(ab, k) == Max(Top(va, k), Top(vb, k));
    SingleIntervalsMerge(vb, ab, k);
  }

  /** Merging a single-interval vector with itself changes nothing. */
  lemma {:induction false} VectorMergeIdempotent(v: IntervalVector)
    requires SingleIntervals(v)
    ensures MergedVector(v, v) == v
  {
    assert MergedVector(v, v).Keys == v.Keys;
    forall k | k in v
      ensures MergedVector(v, v)[k] == v[k]
    {
      IdempotentAt(v, k);
    }
  }

  lemma {:induction false} IdempotentAt(v: IntervalVector, k: string)
    requires SingleIntervals(v) && k in v
    ensures MergedVector(v, v)[k] == v[k]
  {
    SingleIntervalsMerge(v, v, k);
    assert v[k] == [(1, Top(v, k))];
  }

  /**
   * Two replicas converge after exchanging state: `a` combines `b`, then `b`
   * combines `a`'s result. Both then hold the same entries, and when every
   * list was one interval, the same vector.
   */
  lemma {:induction false} CombineConverges<T>(ea: set<(T, string, int)>, eb: set<(T, string, int)>,
                                               ea2: set<(T, string, int)>, va: IntervalVector, vb: IntervalVector)
    requires DotsSeen(ea, va) && DotsSeen(eb, vb)
    requires forall e :: e in ea2 <==> Survives(e, ea, eb, va, vb)
    ensures DotsSeen(ea2, MergedVector(va, vb))
    ensures forall e :: Survives(e, eb, ea2, vb, MergedVector(va, vb)) <==> e in ea2
    ensures SingleIntervals(va) && SingleIntervals(vb) ==>
      MergedVector(vb, MergedVector(va, vb)) == MergedVector(va, vb)
  {
    var va2 := MergedVector(va, vb);
    MergedVectorKeepsSeen(va, vb, va2);
    EntriesConverge(ea, eb, ea2, va, vb, va2);
    if SingleIntervals(va) && SingleIntervals(vb) {
      VectorsConverge(va, vb);
    }
  }

  class OptORSet<T(==)> {
    var Entries: set<(T, string, int)>
    var Vector: IntervalVector
    var Dirty: bool
    var Id: string
    var Clock: int

    /** The replica has seen the dot of each of its entries. */
    ghost predicate DotsSeenHere()
      reads this
    {
      DotsSeen(Entries, Vector)
    }

    /** A new replica under the (random, here given) id `id`, clock 0. */
    constructor (id: string)
      ensures Entries == {} && Vector == map[] && !Dirty && Id == id && Clock == 0
      ensures DotsSeenHere()
    {
      Entries := {};
      Vector := map[];
      Dirty := false;
      Id := id;
      Clock := 0;
    }

    /** lookup: scans the entries for the value. */
    method Lookup(v: T) returns (found: bool)
      ensures found <==> exists e :: e in Entries && e.0 == v
    {
      var todo := Entries;
      while todo != {}
        invariant todo <= Entries
        invariant forall e :: e in Entries - todo ==> e.0 != v
        decreases |todo|
      {
        var m :| m in todo;
        if m.0 == v {
          return true;
        }
        todo := todo - {m};
      }
      return false;
    }

    /** The clock tick shared by add and remove: the new clock enters the local list. */
    method Tick()
      modifies this
      ensures Clock == old(Clock) + 1
      ensures Entries == old(Entries) && Dirty == old(Dirty) && Id == old(Id)
      ensures Vector == old(Vector)[Id := Stamped(Own(old(Vector), Id), Clock)]
      ensures forall id, t :: Seen(Vector, id, t) <==> Seen(old(Vector), id, t) || (id == Id && t == Clock)
    {
      Clock := Clock + 1;
      var vect := Own(Vector, Id) + [(Clock, Clock)];
      vect := SortByLow(vect);
      vect := CollapseVector(vect);
      Vector := Vector[Id := vect];
      StampedSeen(old(Vector), Id, Clock);
    }

    /** add: the value enters under a new dot, and the local list records that clock. */
    method Add(v: T)
      modifies this
      ensures Clock == old(Clock) + 1 && Id == old(Id) && Dirty
      ensures Entries == old(Entries) + {(v, Id, Clock)}
      ensures Vector == old(Vector)[Id := Stamped(Own(old(Vector), Id), Clock)]
      ensures forall id, t :: Seen(Vector, id, t) <==> Seen(old(Vector), id, t) || (id == Id && t == Clock)
      ensures old(DotsSeenHere()) ==> DotsSeenHere()
    {
      Tick();
      Entries := Entries + {(v, Id, Clock)};
      Dirty := true;
    }

    /** remove: every entry with the value goes; when any went, the clock ticks. */
    method Remove(v: T)
      modifies this
      ensures forall e :: e in Entries <==> e in old(Entries) && e.0 != v
      ensures Id == old(Id)
      ensures (exists e :: e in old(Entries) && e.0 == v) ==>
        Clock == old(Clock) + 1 && Dirty && Vector == old(Vector)[Id := Stamped(Own(old(Vector), Id), Clock)]
      ensures (forall e :: e in old(Entries) ==> e.0 != v) ==>
        Clock == old(Clock) && Dirty == old(Dirty) && Vector == old(Vector)
      ensures old(DotsSeenHere()) ==> DotsSeenHere()
    {
      var removed;
      Entries, removed := WithoutValue(Entries, v);
      if removed {
        Tick();
        Dirty := true;
      }
      assert forall id, t :: Seen(old(Vector), id, t) ==> Seen(Vector, id, t);
    }

    /**
     * combine: entries on both sides stay, a one-sided entry stays unless both
     * vectors have seen its dot, and each id's lists are concatenated and collapsed.
     */
    method Combine(other: OptORSet<T>)
      modifies this
      ensures Id == old(Id) && Clock == old(Clock)
      ensures forall e :: e in Entries <==>
        Survives(e, old(Entries), old(other.Entries), old(Vector), old(other.Vector))
      ensures Dirty == (old(Dirty) || Entries != old(Entries))
      ensures forall k :: k in Vector <==> k in old(Vector) || k in old(other.Vector)
      ensures forall k :: k in Vector ==> Vector[k] == Collapsed(Own(old(Vector), k) + Own(old(other.Vector), k))
      ensures Vector == MergedVector(old(Vector), old(other.Vector))
      ensures forall id, t :: Seen(old(Vector), id, t) || Seen(old(other.Vector), id, t) ==> Seen(Vector, id, t)
      ensures old(DotsSeenHere()) && old(other.DotsSeenHere()) ==> DotsSeenHere()
    {
      var mine, theirs, myVector, theirVector := Entries, other.Entries, Vector, other.Vector;
      var newEntries := MergeEntries(mine, theirs, myVector, theirVector);
      Dirty := Dirty || newEntries != Entries;
      Entries := newEntries;
      Vector := MergeVectors(myVector, theirVector);
      MergedVectorKeepsSeen(myVector, theirVector, Vector);
    }

    /** whitewash: the replica continues under a fresh id with its clock reset. */
    method Whitewash(newId: string)
      modifies this
      ensures Id == newId && Clock == 0
      ensures Entries == old(Entries) && Vector == old(Vector) && Dirty == old(Dirty)
      ensures old(DotsSeenHere()) ==> DotsSeenHere()
    {
      Id := newId;
      Clock := 0;
    }
  }
}
