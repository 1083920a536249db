/**
 * CrdtSet (cfrt/CrdtSet.py): an observed-remove set whose entries are
 * `(value, tag)` pairs and whose removed tags are remembered in a growing
 * chain of bloom filters instead of explicit tombstones.
 *
 * Tags come from `generate_tag`, a random 128-bit number; here the caller
 * supplies the tag. Filters are kept by value.
 */
module CrdtSet {
  import opened BloomFilter

  /** The random tag of an entry, as hex text. */
  type Tag = string

  /** bloom_slack: how close to capacity the last filter may get before a new one is started. */
  const BloomSlack: int := 550

  predicate AllValid(filters: seq<Filter>)
  {
    forall i :: 0 <= i < |filters| ==> filters[i].Valid()
  }

  /** The last filter's estimated size is within `BloomSlack` of its capacity. */
  predicate NearlyFull(f: Filter)
  {
    f.estimatedSize >= (f.maxElements - BloomSlack) as real
  }

  /** Some filter of the chain reports the tag: the entry is known to be removed. */
  predicate Tombstoned(filters: seq<Filter>, digest: Digest, tag: Tag)
    requires AllValid(filters)
  {
    exists i :: 0 <= i < |filters| && filters[i].Reports(digest, tag)
  }

  /**
   * One tombstone of `remove`: when the last filter is nearly full a filter of
   * twice its capacity is appended first; the tag is then added to the last filter.
   */
  function Tombstone(filters: seq<Filter>, tag: Tag, h: Hashing): (r: seq<Filter>)
    requires h.Valid() && |filters| > 0 && AllValid(filters)
    ensures AllValid(r)
    ensures |r| == if NearlyFull(filters[|filters| - 1]) then |filters| + 1 else |filters|
    ensures r[|r| - 1].Reports(h.digest, tag)
    ensures forall i :: 0 <= i < |filters| - 1 ==> r[i] == filters[i]
    ensures forall i, x :: 0 <= i < |filters| && filters[i].Reports(h.digest, x) ==> r[i].Reports(h.digest, x)
    ensures |r| > |filters| ==> r[|filters|].maxElements == 2 * filters[|filters| - 1].maxElements
    ensures |r| == |filters| ==> r[|r| - 1].maxElements == filters[|filters| - 1].maxElements
  {
    var last := filters[|filters| - 1];
    if NearlyFull(last) then
      var capacity := 2 * last.maxElements;
      filters + [Empty(K, h.bitsFor(capacity), capacity).Added(h.digest, tag)]
    else
      var r := filters[..|filters| - 1] + [last.Added(h.digest, tag)];
      forall x | last.Reports(h.digest, x)
        ensures r[|filters| - 1].Reports(h.digest, x)
      {
        AddedKeepsReports(last, h.digest, tag, x);
      }
      r
  }

  /**
   * `r` grew from `filters` the way tombstoning grows a chain: every filter but
   * the last is untouched, no report is lost, and each appended filter doubles
   * the capacity of the one before it.
   */
  ghost predicate GrownFrom(filters: seq<Filter>, r: seq<Filter>, digest: Digest)
    requires |filters| > 0 && AllValid(filters) && AllValid(r)
  {
    && |filters| <= |r|
    && (forall i :: 0 <= i < |filters| - 1 ==> r[i] == filters[i])
    && (forall i, x :: 0 <= i < |filters| && filters[i].Reports(digest, x) ==> r[i].Reports(digest, x))
    && (forall i, j :: |filters| <= j < |r| && i == j - 1 ==> r[j].maxElements == 2 * r[i].maxElements)
  }

  /** One more tombstone keeps a chain grown from `filters`. */
  lemma {:induction false} TombstoneGrows(filters: seq<Filter>, before: seq<Filter>, tag: Tag, h: Hashing)
    requires h.Valid() && |filters| > 0 && AllValid(filters) && AllValid(before)
    requires GrownFrom(filters, before, h.digest)
    ensures GrownFrom(filters, Tombstone(before, tag, h), h.digest)
  {
    var r := Tombstone(before, tag, h);
    forall i, j | |filters| <= j < |r| && i == j - 1
      ensures r[j].maxElements == 2 * r[i].maxElements
    {
      if j < |before| - 1 {
        assert r[j] == before[j] && r[i] == before[i];
      } else if j == |before| - 1 {
        assert r[i] == before[i];
      }
    }
    forall i, x | 0 <= i < |filters| && filters[i].Reports(h.digest, x)
      ensures r[i].Reports(h.digest, x)
    {
      assert before[i].Reports(h.digest, x);
    }
  }

  /** A tag tombstoned before one more tombstone stays tombstoned, and the new tag joins it. */
  lemma {:induction false} TombstoneKeepsTombstoned(before: seq<Filter>, tag: Tag, h: Hashing, t: Tag)
    requires h.Valid() && |before| > 0 && AllValid(before)
    ensures Tombstoned(Tombstone(before, tag, h), h.digest, t) <== t == tag || Tombstoned(before, h.digest, t)
  {
    var r := Tombstone(before, tag, h);
    if t == tag {
      assert r[|r| - 1].Reports(h.digest, t);
    } else if Tombstoned(before, h.digest, t) {
      var i :| 0 <= i < |before| && before[i].Reports(h.digest, t);
      assert r[i].Reports(h.digest, t);
    }
  }

  lemma InAllButLast<X>(s: seq<X>, x: X)
    requires x in s && x != s[|s| - 1]
    ensures x in s[..|s| - 1]
  {
    var j :| 0 <= j < |s| && s[j] == x;
    assert j != |s| - 1;
    assert s[..|s| - 1][j] == x;
  }

  /** The tombstone loop of `remove` as a value: each removal's tag goes through `Tombstone`, in list order. */
  function TombstoneAll<T>(filters: seq<Filter>, removals: seq<(T, Tag)>, h: Hashing): (r: seq<Filter>)
    requires h.Valid() && |filters| > 0 && AllValid(filters)
    ensures |r| > 0 && AllValid(r) && |r| <= |filters| + |removals|
    ensures GrownFrom(filters, r, h.digest)
    ensures forall e :: e in removals ==> Tombstoned(r, h.digest, e.1)
    decreases |removals|
  {
    if |removals| == 0 then filters
    else
      var earlier := removals[..|removals| - 1];
      var before := TombstoneAll(filters, earlier, h);
      var last := removals[|removals| - 1];
      var r := Tombstone(before, last.1, h);
      TombstoneGrows(filters, before, last.1, h);
      forall e | e in removals
        ensures Tombstoned(r, h.digest, e.1)
      {
        if e != last {
          InAllButLast(removals, e);
        }
        TombstoneKeepsTombstoned(before, last.1, h, e.1);
      }
      r
  }

  /** The tombstone loop of `remove`: it builds exactly the chain `TombstoneAll` describes. */
  method RecordTombstones<T>(filters: seq<Filter>, removals: seq<(T, Tag)>, h: Hashing) returns (r: seq<Filter>)
    requires h.Valid() && |filters| > 0 && AllValid(filters)
    ensures r == TombstoneAll(filters, removals, h)
  {
    r := filters;
    for n := 0 to |removals|
      invariant r == TombstoneAll(filters, removals[..n], h)
    {
      assert removals[..n + 1][..n] == removals[..n];
      r := Tombstone(r, removals[n].1, h);
    }
    assert removals[..|removals|] == removals;
  }

  /** The list comprehension of `remove`: every entry carrying the value, each once. */
  method Matching<T(==)>(entries: set<(T, Tag)>, v: T) returns (r: seq<(T, Tag)>)
    ensures forall e :: e in r <==> e in entries && e.0 == v
    ensures forall i, j :: 0 <= i < j < |r| ==> r[i] != r[j]
  {
    r := [];
    var todo := entries;
    while todo != {}
      invariant todo <= entries
      invariant forall e :: e in r <==> e in entries && e !in todo && e.0 == v
      invariant forall i, j :: 0 <= i < j < |r| ==> r[i] != r[j]
      decreases |todo|
    {
      var e :| e in todo;
      if e.0 == v {
        r := r + [e];
      }
      todo := todo - {e};
    }
  }

  /** The entries that survive `combine`: those on both sides, and one-sided ones no filter reports. */
  ghost predicate Survives<T>(e: (T, Tag), mine: set<(T, Tag)>, theirs: set<(T, Tag)>,
                              filters: seq<Filter>, digest: Digest)
    requires AllValid(filters)
  {
    (e in mine && e in theirs) || ((e in mine) != (e in theirs) && !Tombstoned(filters, digest, e.1))
  }

  /** Some entry carries the value `v`. */
  predicate Carries<T(==)>(entries: set<(T, Tag)>, v: T)
  {
    exists e :: e in entries && e.0 == v
  }

  /** The entries that do not carry `v`. */
  function Unmatched<T(==,!new)>(entries: set<(T, Tag)>, v: T): (r: set<(T, Tag)>)
    ensures forall e :: e in r <==> e in entries && e.0 != v
  {
    set e | e in entries && e.0 != v
  }

  /** Taking the listed matches out of `entries` leaves no entry with the value. */
  lemma {:induction false} MatchingRemoved<T(!new)>(entries: set<(T, Tag)>, v: T, removals: seq<(T, Tag)>)
    requires forall e :: e in removals <==> e in entries && e.0 == v
    ensures entries - (set e | e in removals) == Unmatched(entries, v)
    ensures |removals| > 0 <==> Carries(entries, v)
  {
    if |removals| > 0 {
      assert removals[0] in removals;
    }
  }

  /**
   * The body of `remove` on values: the list of matching entries, the
   * entries left without them, and the chain with their tags tombstoned.
   */
  method RemoveValue<T(==,!new)>(entries: set<(T, Tag)>, filters: seq<Filter>, v: T, h: Hashing)
    returns (removals: seq<(T, Tag)>, remaining: set<(T, Tag)>, r: seq<Filter>)
    requires h.Valid() && |filters| > 0 && AllValid(filters)
    ensures forall e :: e in removals <==> e in entries && e.0 == v
    ensures forall i, j :: 0 <= i < j < |removals| ==> removals[i] != removals[j]
    ensures remaining == Unmatched(entries, v) && !Carries(remaining, v)
    ensures |removals| > 0 <==> Carries(entries, v)
    ensures r == TombstoneAll(filters, removals, h)
    ensures TombstonedInSomeOrder(entries, v, filters, r, h)
    ensures |r| > 0 && AllValid(r) && GrownFrom(filters, r, h.digest)
    ensures forall e :: e in entries && e.0 == v ==> Tombstoned(r, h.digest, e.1)
  {
    removals := Matching(entries, v);
    r := RecordTombstones(filters, removals, h);
    remaining := entries - set e | e in removals;
    MatchingRemoved(entries, v, removals);
  }

  /**
   * `r` is `filters` after `remove` tombstoned the tags of every entry of
   * `entries` carrying `v`, each once, in some order.
   */
  ghost predicate TombstonedInSomeOrder<T(!new)>(entries: set<(T, Tag)>, v: T, filters: seq<Filter>,
                                                 r: seq<Filter>, h: Hashing)
    requires h.Valid() && |filters| > 0 && AllValid(filters)
  {
    exists order: seq<(T, Tag)> ::
      (forall e :: e in order <==> e in entries && e.0 == v) &&
      (forall i, j :: 0 <= i < j < |order| ==> order[i] != order[j]) &&
      r == TombstoneAll(filters, order, h)
  }

  class CrdtSet<T(==,!new)> {
    var entries: set<(T, Tag)>
    var bloomfilters: seq<Filter>
    var Dirty: bool
    const hashing: Hashing

    ghost predicate Valid()
      reads this
    {
      hashing.Valid() && |bloomfilters| > 0 && AllValid(bloomfilters)
    }

    /** lookup: some entry carries the value, so that `remove` would take something out. */
    predicate Lookup(v: T): (r: bool)
      reads this
      ensures r <==> exists t :: (v, t) in entries
      ensures r <==> Unmatched(entries, v) != entries
    {
      Carries(entries, v)
    }

    /** A new replica: no entries, one filter of the default capacity, and dirty. */
    constructor (hashing: Hashing)
      requires hashing.Valid()
      ensures Valid() && this.hashing == hashing
      ensures entries == {} && Dirty
      ensures bloomfilters == [Empty(K, hashing.bitsFor(ExpectedElements), ExpectedElements)]
    {
      entries := {};
      bloomfilters := [Empty(K, hashing.bitsFor(ExpectedElements), ExpectedElements)];
      Dirty := true;
      this.hashing := hashing;
    }

    /** add: a value already present is left alone; otherwise it enters under the fresh `tag`. */
    method Add(v: T, tag: Tag)
      modifies this
      ensures bloomfilters == old(bloomfilters) && Lookup(v)
      ensures old(Lookup(v)) ==> entries == old(entries) && Dirty == old(Dirty)
      ensures !old(Lookup(v)) ==> entries == old(entries) + {(v, tag)} && Dirty
    {
      if !Lookup(v) {
        Dirty := true;
        entries := entries + {(v, tag)};
      }
      assert (v, tag) in entries || old(Lookup(v));
    }

    /**
     * remove: every entry with the value goes, and its tag is added to the
     * last filter, after a rollover to a new filter when that one is nearly full.
     */
    method Remove(v: T)
      requires Valid()
      modifies this
      ensures Valid() && !Lookup(v)
      ensures entries == Unmatched(old(entries), v)
      ensures Dirty == (old(Dirty) || old(Lookup(v)))
      ensures TombstonedInSomeOrder(old(entries), v, old(bloomfilters), bloomfilters, hashing)
    {
      var removals, remaining, filters := RemoveValue(entries, bloomfilters, v, hashing);
      Dirty := Dirty || |removals| > 0;
      entries := remaining;
      bloomfilters := filters;
    }

    /**
     * combine: filters at shared positions are ORed and the other side's extra
     * filters are adopted; then entries on both sides are kept and a one-sided
     * entry is kept when no combined filter reports its tag.
     */
    method Combine(other: CrdtSet<T>)
      requires Valid() && other.Valid()
      requires forall n :: 0 <= n < |bloomfilters| && n < |other.bloomfilters| ==>
        |other.bloomfilters[n].bits| >= |bloomfilters[n].bits|
      modifies this
      ensures Valid()
      ensures |bloomfilters| == if |old(bloomfilters)| >= |old(other.bloomfilters)| then |old(bloomfilters)| else |old(other.bloomfilters)|
      ensures forall n :: 0 <= n < |old(bloomfilters)| && n < |old(other.bloomfilters)| ==>
        bloomfilters[n] == old(bloomfilters)[n].Merged(old(other.bloomfilters)[n], hashing.estimate)
      ensures forall n :: |old(other.bloomfilters)| <= n < |old(bloomfilters)| ==> bloomfilters[n] == old(bloomfilters)[n]
      ensures forall n :: |old(bloomfilters)| <= n < |bloomfilters| ==> bloomfilters[n] == old(other.bloomfilters)[n]
      ensures bloomfilters == MergedChain(old(bloomfilters), old(other.bloomfilters), hashing.estimate)
      ensures forall e :: e in entries <==>
        Survives(e, old(entries), old(other.entries), bloomfilters, hashing.digest)
      ensures Dirty == (old(Dirty) || entries != old(entries))
    {
      var theirFilters, theirEntries := other.bloomfilters, other.entries;
      bloomfilters := MergeFilters(bloomfilters, theirFilters, hashing.estimate);
      var merged := MergeEntries(entries, theirEntries, bloomfilters, hashing.digest);
      Dirty := Dirty || entries != merged;
      entries := merged;
    }
  }

  /** The chain `combine` leaves: shared positions ORed, the longer side's extra filters kept. */
  function MergedChain(mine: seq<Filter>, theirs: seq<Filter>, estimate: Filter -> real): (r: seq<Filter>)
    requires AllValid(mine) && AllValid(theirs)
    requires forall n :: 0 <= n < |mine| && n < |theirs| ==> |theirs[n].bits| >= |mine[n].bits|
    ensures AllValid(r)
  {
    seq(if |mine| >= |theirs| then |mine| else |theirs|,
        n requires 0 <= n < (if |mine| >= |theirs| then |mine| else |theirs|) =>
          if n < |mine| && n < |theirs| then mine[n].Merged(theirs[n], estimate)
          else if n < |mine| then mine[n]
          else theirs[n])
  }

  /** The filter half of `combine`: ORs shared positions and adopts the other side's extra filters. */
  method MergeFilters(mine: seq<Filter>, theirs: seq<Filter>, estimate: Filter -> real) returns (r: seq<Filter>)
    requires AllValid(mine) && AllValid(theirs)
    requires forall n :: 0 <= n < |mine| && n < |theirs| ==> |theirs[n].bits| >= |mine[n].bits|
    ensures AllValid(r)
    ensures |r| == if |mine| >= |theirs| then |mine| else |theirs|
    ensures forall n :: 0 <= n < |mine| && n < |theirs| ==> r[n] == mine[n].Merged(theirs[n], estimate)
    ensures forall n :: |theirs| <= n < |mine| ==> r[n] == mine[n]
    ensures forall n :: |mine| <= n < |r| ==> r[n] == theirs[n]
    ensures r == MergedChain(mine, theirs, estimate)
  {
    r := mine;
    var count := if |mine| >= |theirs| then |mine| else |theirs|;
    for n := 0 to count
      invariant |r| == if n <= |mine| then |mine| else n
      invariant AllValid(r)
      invariant forall j :: 0 <= j < n && j < |mine| && j < |theirs| ==> r[j] == mine[j].Merged(theirs[j], estimate)
      invariant forall j :: |theirs| <= j < |mine| ==> r[j] == mine[j]
      invariant forall j :: n <= j < |mine| ==> r[j] == mine[j]
      invariant forall j :: |mine| <= j < |r| ==> r[j] == theirs[j]
    {
      if n < |r| && n < |theirs| {
        r := r[n := r[n].Merged(theirs[n], estimate)];
      } else if n < |theirs| {
        r := r + [theirs[n]];
      }
    }
  }

  /** The entry half of `combine`: exactly the entries that survive against the combined filters. */
  method MergeEntries<T(==)>(mine: set<(T, Tag)>, theirs: set<(T, Tag)>, filters: seq<Filter>, digest: Digest)
    returns (merged: set<(T, Tag)>)
    requires AllValid(filters)
    ensures forall e :: e in merged <==> Survives(e, mine, theirs, filters, digest)
  {
    merged := mine * theirs;
    var diff := (mine - theirs) + (theirs - mine);
    var todo := diff;
    while todo != {}
      invariant todo <= diff
      invariant forall e :: e in merged <==>
        (e in mine && e in theirs) || (e in diff - todo && !Tombstoned(filters, digest, e.1))
      decreases |todo|
    {
      var e :| e in todo;
      if !Tombstoned(filters, digest, e.1) {
        merged := merged + {e};
      }
      todo := todo - {e};
    }
  }

  /** Combining a replica with an identical copy of itself keeps every entry and adds none. */
  lemma CombineIdenticalKeepsEntries<T>(mine: set<(T, Tag)>, filters: seq<Filter>, digest: Digest)
    requires AllValid(filters)
    ensures forall e :: Survives(e, mine, mine, filters, digest) <==> e in mine
  {
  }

  /**
   * Add wins over a remove the other replica has not seen: an entry that only
   * one side holds survives as long as no filter reports its tag.
   */
  lemma ConcurrentAddSurvives<T>(e: (T, Tag), mine: set<(T, Tag)>, theirs: set<(T, Tag)>,
                                 filters: seq<Filter>, digest: Digest)
    requires AllValid(filters) && e in theirs && e !in mine
    requires forall i :: 0 <= i < |filters| ==> !filters[i].Reports(digest, e.1)
    ensures Survives(e, mine, theirs, filters, digest)
  {
  }

  /** A removed entry whose tag reached any filter never comes back through a merge with a replica lacking it. */
  lemma RemovedStaysRemoved<T>(e: (T, Tag), mine: set<(T, Tag)>, theirs: set<(T, Tag)>,
                               filters: seq<Filter>, digest: Digest)
    requires AllValid(filters) && e !in mine && Tombstoned(filters, digest, e.1)
    ensures !Survives(e, mine, theirs, filters, digest)
  {
  }

  /** Filters at the same position have the same shape on both replicas (position n always holds capacity 2000 * 2^n). */
  predicate SameShapes(a: seq<Filter>, b: seq<Filter>)
  {
    forall n :: 0 <= n < |a| && n < |b| ==> a[n].k == b[n].k && a[n].m == b[n].m
  }

  /** Combining a chain with itself reports exactly the tags it reported. */
  lemma {:induction false} MergedChainWithSelf(f: seq<Filter>, estimate: Filter -> real, digest: Digest, tag: Tag)
    requires AllValid(f)
    ensures Tombstoned(MergedChain(f, f, estimate), digest, tag) <==> Tombstoned(f, digest, tag)
  {
    var r := MergedChain(f, f, estimate);
    forall n | 0 <= n < |f|
      ensures r[n].Reports(digest, tag) <==> f[n].Reports(digest, tag)
    {
      MergedWithSelfReports(f[n], estimate, digest, tag);
    }
  }

  /**
   * The chains converge: after `a` combined `b`'s chain into its own, `b`
   * combining `a`'s new chain reports exactly the tags `a`'s chain reports.
   */
  lemma {:induction false} ChainsConverge(fa: seq<Filter>, fb: seq<Filter>, estimate: Filter -> real,
                                          digest: Digest, tag: Tag)
    requires AllValid(fa) && AllValid(fb) && SameShapes(fa, fb)
    ensures Tombstoned(MergedChain(fb, MergedChain(fa, fb, estimate), estimate), digest, tag) <==>
            Tombstoned(MergedChain(fa, fb, estimate), digest, tag)
  {
    var ab := MergedChain(fa, fb, estimate);
    var bab := MergedChain(fb, ab, estimate);
    assert |bab| == |ab|;
    forall n | 0 <= n < |ab|
      ensures bab[n].Reports(digest, tag) <==> ab[n].Reports(digest, tag)
    {
      if n < |fb| {
        if n < |fa| {
          MergedAbsorbs(fa[n], fb[n], estimate, digest, tag);
        } else {
          MergedWithSelfReports(fb[n], estimate, digest, tag);
        }
      }
    }
  }

  /**
   * The entries converge: when `b`'s chain after the second combine reports
   * the same tags as `a`'s, `b` keeps exactly the entries `a` kept.
   */
  lemma EntriesConverge<T>(ea: set<(T, Tag)>, eb: set<(T, Tag)>, ea2: set<(T, Tag)>,
                           fa2: seq<Filter>, fb2: seq<Filter>, digest: Digest)
    requires AllValid(fa2) && AllValid(fb2)
    requires forall t :: Tombstoned(fb2, digest, t) <==> Tombstoned(fa2, digest, t)
    requires forall e :: e in ea2 <==> Survives(e, ea, eb, fa2, digest)
    ensures forall e :: Survives(e, eb, ea2, fb2, digest) <==> e in ea2
  {
  }

  /**
   * Two replicas converge after exchanging state: `a` combines `b`, then `b`
   * combines `a`'s result; both then hold the same entries and their chains
   * report the same tags.
   */
  lemma {:induction false} CombineConverges<T>(ea: set<(T, Tag)>, eb: set<(T, Tag)>, ea2: set<(T, Tag)>,
                                               fa: seq<Filter>, fb: seq<Filter>, estimate: Filter -> real,
                                               digest: Digest)
    requires AllValid(fa) && AllValid(fb) && SameShapes(fa, fb)
    requires forall e :: e in ea2 <==> Survives(e, ea, eb, MergedChain(fa, fb, estimate), digest)
    ensures forall t :: Tombstoned(MergedChain(fb, MergedChain(fa, fb, estimate), estimate), digest, t) <==>
                        Tombstoned(MergedChain(fa, fb, estimate), digest, t)
    ensures forall e :: Survives(e, eb, ea2, MergedChain(fb, MergedChain(fa, fb, estimate), estimate), digest) <==> e in ea2
  {
    var fa2 := MergedChain(fa, fb, estimate);
    var fb2 := MergedChain(fb, fa2, estimate);
    forall t
      ensures Tombstoned(fb2, digest, t) <==> Tombstoned(fa2, digest, t)
    {
      ChainsConverge(fa, fb, estimate, digest, t);
    }
    EntriesConverge(ea, eb, ea2, fa2, fb2, digest);
  }
}
