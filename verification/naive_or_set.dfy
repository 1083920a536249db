/**
 * NaiveORSet (cfrt/NaiveORSet.py): the textbook observed-remove set. Every
 * add inserts a `(value, tag)` pair, every remove records one such pair as a
 * tombstone, and both sets only ever grow. Tags are random in the source and
 * a parameter here.
 */
module NaiveORSet {
  type Tag = string

  /** The replicated state: inserted pairs and tombstoned pairs. */
  datatype State<T(==)> = State(insert: set<(T, Tag)>, tombstones: set<(T, Tag)>)
  {
    /** _compute: the pairs inserted and not tombstoned. */
    function Live(): (r: set<(T, Tag)>)
      ensures r <= insert && r !! tombstones
      ensures forall e :: e in insert ==> e in r || e in tombstones
    {
      insert - tombstones
    }

    /** lookup: a live pair carries the value. */
    predicate Lookup(v: T): (r: bool)
      ensures r <==> exists e :: e in Live() && e.0 == v
    {
      exists e :: e in insert && e !in tombstones && e.0 == v
    }

    /** combine: both sets are unioned. */
    function Join(other: State<T>): (r: State<T>)
      ensures r.insert == insert + other.insert && r.tombstones == tombstones + other.tombstones
    {
      State(insert + other.insert, tombstones + other.tombstones)
    }

    /** One state knows every insert and every tombstone of the other. */
    predicate Includes(other: State<T>)
    {
      other.insert <= insert && other.tombstones <= tombstones
    }
  }

  /** Join is commutative, so replicas converge whatever order they combine in. */
  lemma JoinCommutes<T>(a: State<T>, b: State<T>)
    ensures a.Join(b) == b.Join(a)
  {
  }

  /** Join is associative. */
  lemma JoinAssociates<T>(a: State<T>, b: State<T>, c: State<T>)
    ensures a.Join(b).Join(c) == a.Join(b.Join(c))
  {
  }

  /** Join is idempotent: combining with a copy of oneself changes nothing. */
  lemma JoinIdempotent<T>(a: State<T>)
    ensures a.Join(a) == a
  {
  }

  /** Join is the least upper bound of the inclusion order. */
  lemma JoinIsLeastUpperBound<T>(a: State<T>, b: State<T>, c: State<T>)
    ensures a.Join(b).Includes(a) && a.Join(b).Includes(b)
    ensures c.Includes(a) && c.Includes(b) ==> c.Includes(a.Join(b))
  {
  }

  /** A tombstoned pair is never live again, whatever is joined in later. */
  lemma TombstoneIsFinal<T>(a: State<T>, b: State<T>, e: (T, Tag))
    requires e in a.tombstones
    ensures e !in a.Join(b).Live()
  {
  }

  /** A pair one replica inserted and no replica tombstoned is live after the join. */
  lemma ConcurrentAddSurvives<T>(a: State<T>, b: State<T>, e: (T, Tag))
    requires e in b.insert && e !in a.tombstones && e !in b.tombstones
    ensures e in a.Join(b).Live() && a.Join(b).Lookup(e.0)
  {
  }

  class NaiveORSet<T(==)> {
    var Insert: set<(T, Tag)>
    var Tombstones: set<(T, Tag)>
    var Dirty: bool

    function Value(): State<T>
      reads this
    {
      State(Insert, Tombstones)
    }

    constructor ()
      ensures Insert == {} && Tombstones == {} && !Dirty
    {
      Insert := {};
      Tombstones := {};
      Dirty := false;
    }

    /** add: a value that is live already is left alone; otherwise it is inserted under `tag`. */
    method Add(v: T, tag: Tag)
      modifies this
      ensures Tombstones == old(Tombstones)
      ensures old(Value().Lookup(v)) ==> Insert == old(Insert) && Dirty == old(Dirty)
      ensures !old(Value().Lookup(v)) ==> Insert == old(Insert) + {(v, tag)} && Dirty
      ensures (v, tag) !in Tombstones ==> Value().Lookup(v)
    {
      if !Value().Lookup(v) {
        Dirty := true;
        Insert := Insert + {(v, tag)};
        if (v, tag) !in Tombstones {
          assert (v, tag) in Insert;
        }
      }
    }

    /**
     * remove: one live pair with the value, chosen arbitrarily, is tombstoned;
     * other live pairs with the same value stay live.
     */
    method Remove(v: T)
      modifies this
      ensures Insert == old(Insert)
      ensures !old(Value().Lookup(v)) ==> Tombstones == old(Tombstones) && Dirty == old(Dirty)
      ensures old(Value().Lookup(v)) ==> Dirty
      ensures old(Value().Lookup(v)) ==>
        exists e :: e in old(Value().Live()) && e.0 == v && Tombstones == old(Tombstones) + {e}
    {
      if Value().Lookup(v) {
        var e :| e in Insert && e !in Tombstones && e.0 == v;
        Dirty := true;
        Tombstones := Tombstones + {e};
      }
    }

    /** combine: the union of both replicas, dirty when anything was new. */
    method Combine(other: NaiveORSet<T>)
      modifies this
      ensures Value() == old(Value()).Join(old(other.Value()))
      ensures Dirty == (old(Dirty) || !old(Value()).Includes(old(other.Value())))
    {
      var newInsert := Insert + other.Insert;
      var newTombstones := Tombstones + other.Tombstones;
      Dirty := Dirty || newInsert != Insert || newTombstones != Tombstones;
      Insert := newInsert;
      Tombstones := newTombstones;
    }
  }
}
