/** The dictionary as a value: two tables, of which the second exists only while entries are being
    moved over to it, bucket by bucket. Every operation first moves one bucket. */
module DictModel {
  import opened Words
  import opened HashTables
  import opened Counters
  import opened Options

  datatype Dict<V> = Dict(init: nat, t0: Table<V>, t1: Option<Table<V>>, idx: int, can: bool) {

    predicate Rehashing() { idx >= 0 }

    /** The shape of the two tables; buckets below the rehash index have been emptied. */
    ghost predicate Valid() {
      && 0 < init
      && t0.Valid()
      && (t1.Some? <==> Rehashing())
      && (t1.Some? ==> t1.value.Valid() && idx <= |t0.buckets| && forall i :: 0 <= i < idx ==> t0.buckets[i] == [])
    }

    ghost predicate Disjoint()
      requires Valid()
    {
      Rehashing() ==> t0.Map().Keys !! t1.value.Map().Keys
    }

    /** The map the dictionary stands for; a lookup asks the first table first. */
    ghost function Map(): map<Key, V>
      requires Valid()
    {
      if Rehashing() then t1.value.Map() + t0.Map() else t0.Map()
    }

    function Size(): nat {
      t0.used + if t1.Some? then t1.value.used else 0
    }

    /** Move the next non-empty bucket of the first table over to the second. */
    ghost function RehashOne(): Dict<V>
      requires Valid() && Rehashing()
    {
      var j := NextNonEmpty(t0.buckets, idx);
      if j < |t0.buckets| then
        var (a, b) := Migrate(t0, t1.value, t0.buckets[j]);
        this.(t0 := a, t1 := Some(b), idx := j + 1)
      else
        this.(idx := j)
    }

    ghost function RehashLoop(n: nat): (d: Dict<V>)
      requires Valid() && Rehashing()
      ensures d.Valid() && d.Rehashing() && d.init == init && d.can == can
      decreases n
    {
      hide Table.Map, Table.Placed, RehashOne;
      if n == 0 || t0.used == 0 then this
      else
        RehashOneMoves(this);
        RehashOne().RehashLoop(n - 1)
    }

    /** Drop the first table once it is empty. */
    ghost function Finish(): Dict<V>
      requires Valid() && Rehashing()
    {
      if t0.used == 0 then this.(t0 := t1.value, t1 := None, idx := -1) else this
    }

    ghost function RehashSteps(n: nat): (d: Dict<V>)
      requires Valid() && Rehashing()
      ensures d.Valid() && d.init == init && d.can == can
    {
      hide Table.Map, Table.Placed, RehashLoop;
      if !can then this else RehashLoop(n).Finish()
    }

    /** What every operation does first. */
    ghost function Step(): (d: Dict<V>)
      requires Valid()
      ensures d.Valid() && d.init == init && d.can == can && (!Rehashing() ==> d == this)
    {
      hide Table.Map, Table.Placed, RehashSteps;
      if Rehashing() then RehashSteps(1) else this
    }

    /** Start moving everything over to a new table. */
    ghost function Start(size: nat): (d: Dict<V>)
      requires Valid() && !Rehashing() && 0 < size <= UINT32
      ensures d.Valid() && d.init == init && d.can == can
    {
      EmptyTableValid<V>(size);
      this.(t1 := Some(EmptyTable(size)), idx := 0).RehashSteps(1)
    }
  }

  /** The first non-empty bucket at or after `i`, or the number of buckets. */
  function NextNonEmpty<V>(b: seq<seq<Entry<V>>>, i: nat): (j: nat)
    requires i <= |b|
    ensures i <= j <= |b| && forall l :: i <= l < j ==> b[l] == []
    ensures j < |b| ==> b[j] != []
    decreases |b| - i
  {
    if i < |b| && b[i] == [] then NextNonEmpty(b, i + 1) else i
  }

  /** Take the entries of `c` one by one out of `a` and into `b`. */
  ghost function Migrate<V>(a: Table<V>, b: Table<V>, c: seq<Entry<V>>): (r: (Table<V>, Table<V>))
    requires a.WellSized() && b.WellSized()
    ensures r.0.mask == a.mask && |r.0.buckets| == |a.buckets|
    ensures r.1.mask == b.mask && |r.1.buckets| == |b.buckets|
    decreases |c|
  {
    if c == [] then (a, b)
    else Migrate(a.Delete(c[0].key), b.Add(c[0].key, c[0].val), c[1..])
  }

  lemma DeleteHead<V>(a: Table<V>, i: nat)
    requires a.WellSized() && a.Placed() && i < |a.buckets| && a.buckets[i] != []
    ensures var k := a.buckets[i][0].key;
            a.Delete(k).buckets == a.buckets[i := a.buckets[i][1..]]
  {
    hide IndexOf, Val, And;
    var c := a.buckets[i];
    assert a.Index(c[0].key.hash) == i && Position(c, c[0].key) == 0;
    assert c[..0] + c[1..] == c[1..];
  }

  /** Moving a whole bucket empties it and nothing else ... */
  lemma {:induction false} MigrateBuckets<V>(a: Table<V>, b: Table<V>, i: nat)
    requires a.Valid() && b.Valid() && i < |a.buckets|
    ensures Migrate(a, b, a.buckets[i]).0.buckets == a.buckets[i := []]
    decreases |a.buckets[i]|
  {
    hide IndexOf, Val, And, Position, Table.Map, Table.Placed;
    var c := a.buckets[i];
    if c != [] {
      DeleteHead(a, i);
      AddIsMapAdd(b, c[0].key, c[0].val);
      DeleteIsMapRemove(a, c[0].key);
      MigrateBuckets(a.Delete(c[0].key), b.Add(c[0].key, c[0].val), i);
    }
  }

  ghost function KeysOf<V>(c: seq<Entry<V>>): set<Key> { set e | e in c :: e.key }

  /** The keys `ks` of `a` taken over into `b`, where entries that are already there stay. */
  ghost predicate Moved<V>(a: map<Key, V>, b: map<Key, V>, ks: set<Key>, a': map<Key, V>, b': map<Key, V>) {
    && ks <= a.Keys
    && a' == a - ks
    && b'.Keys == b.Keys + ks
    && forall k :: k in b' ==> b'[k] == if k in b then b[k] else a[k]
  }

  lemma MovedStep<V>(a: map<Key, V>, b: map<Key, V>, k: Key, ks: set<Key>, a': map<Key, V>, b': map<Key, V>)
    requires k in a
    requires Moved(a - {k}, if k in b then b else b[k := a[k]], ks, a', b')
    ensures Moved(a, b, {k} + ks, a', b')
  {
    assert a' == a - ({k} + ks);
  }

  /** ... and carries the entries over; where the second table already has the key, its value stays. */
  lemma {:induction false} MigrateMaps<V>(a: Table<V>, b: Table<V>, c: seq<Entry<V>>)
    requires a.Valid() && b.Valid() && DistinctKeys(c)
    requires forall e :: e in c ==> e.key in a.Map() && a.Map()[e.key] == e.val
    ensures var (a', b') := Migrate(a, b, c);
            a'.Valid() && b'.Valid() && Moved(a.Map(), b.Map(), KeysOf(c), a'.Map(), b'.Map())
    decreases |c|
  {
    hide IndexOf, Val, And, Position, Table.Map, Table.Placed;
    if c == [] {
      assert a.Map() - KeysOf(c) == a.Map();
    } else {
      var e := c[0];
      AddIsMapAdd(b, e.key, e.val);
      DeleteIsMapRemove(a, e.key);
      var (a', b') := Migrate(a, b, c);
      MigrateMaps(a.Delete(e.key), b.Add(e.key, e.val), c[1..]);
      assert KeysOf(c) == {e.key} + KeysOf(c[1..]);
      MovedStep(a.Map(), b.Map(), e.key, KeysOf(c[1..]), a'.Map(), b'.Map());
    }
  }

  // --- one bucket moved ------------------------------------------------------------------------------

  /** Where a key of the first table can be. */
  lemma KeyAtOrAfterIndex<V>(d: Dict<V>, k: Key)
    requires d.Valid() && d.Rehashing() && k in d.t0.Map()
    ensures d.idx <= d.t0.Index(k.hash) && d.t0.Chain(k) != []
  {
    hide IndexOf, Val, And, Position, Table.Placed;
    MapIsLookup(d.t0);
  }

  lemma BucketEntries<V>(t: Table<V>, j: nat)
    requires t.Valid() && j < |t.buckets|
    ensures DistinctKeys(t.buckets[j])
    ensures forall e :: e in t.buckets[j] ==> e.key in t.Map() && t.Map()[e.key] == e.val
  {
    hide IndexOf, Val, And;
    MapIsLookup(t);
    forall e | e in t.buckets[j] ensures e.key in t.Map() && t.Map()[e.key] == e.val {
      var p :| 0 <= p < |t.buckets[j]| && t.buckets[j][p] == e;
      assert t.Index(e.key.hash) == j;
      assert Position(t.buckets[j], e.key) == p;
    }
  }

  /** The keys that one step carries over. */
  ghost function StepKeys<V>(d: Dict<V>): set<Key>
    requires d.Valid() && d.Rehashing()
  {
    var j := NextNonEmpty(d.t0.buckets, d.idx);
    if j < |d.t0.buckets| then KeysOf(d.t0.buckets[j]) else {}
  }

  /** One step keeps the shape and carries one bucket's keys over. */
  lemma RehashOneMoves<V>(d: Dict<V>)
    requires d.Valid() && d.Rehashing()
    ensures var e := d.RehashOne();
            && e.Valid() && e.Rehashing() && e.init == d.init && e.can == d.can
            && |e.t0.buckets| == |d.t0.buckets|
            && Moved(d.t0.Map(), d.t1.value.Map(), StepKeys(d), e.t0.Map(), e.t1.value.Map())
  {
    hide IndexOf, Val, And, Position, Table.Map, Table.Placed, Moved;
    var j := NextNonEmpty(d.t0.buckets, d.idx);
    if j < |d.t0.buckets| {
      BucketEntries(d.t0, j);
      MigrateMaps(d.t0, d.t1.value, d.t0.buckets[j]);
      MigrateBuckets(d.t0, d.t1.value, j);
    } else {
      MovedNothing(d.t0.Map(), d.t1.value.Map());
    }
  }

  lemma MovedNothing<V>(a: map<Key, V>, b: map<Key, V>)
    ensures Moved(a, b, {}, a, b)
  {
  }

  /** While the first table is not empty, a step carries something over. */
  lemma StepKeysNonEmpty<V>(d: Dict<V>)
    requires d.Valid() && d.Rehashing() && d.t0.used > 0
    ensures NextNonEmpty(d.t0.buckets, d.idx) < |d.t0.buckets|
    ensures exists k :: k in StepKeys(d)
  {
    hide IndexOf, Val, And, Position, Table.Map, Table.Placed;
    var k :| k in d.t0.Map();
    KeyAtOrAfterIndex(d, k);
    var c := d.t0.buckets[NextNonEmpty(d.t0.buckets, d.idx)];
    assert c[0] in c && c[0].key in KeysOf(c) && StepKeys(d) == KeysOf(c);
  }

  /** So the rehash index moves up and the first table shrinks with every step. */
  lemma RehashOneProgress<V>(d: Dict<V>)
    requires d.Valid() && d.Rehashing()
    ensures d.idx <= d.RehashOne().idx
    ensures d.t0.used > 0 ==> d.idx < d.RehashOne().idx && d.RehashOne().t0.used < d.t0.used
  {
    hide IndexOf, Val, And, Position, Table.Map, Table.Placed;
    if d.t0.used > 0 {
      RehashOneMoves(d);
      StepKeysNonEmpty(d);
      var k :| k in StepKeys(d);
      SmallerSet(d.RehashOne().t0.Map().Keys, d.t0.Map().Keys, k);
    }
  }

  lemma SmallerSet<T>(a: set<T>, b: set<T>, x: T)
    requires a <= b && x in b && x !in a
    ensures |a| < |b|
  {
    assert a <= b - {x};
    SubsetSize(a, b - {x});
  }

  lemma SubsetSize<T>(a: set<T>, b: set<T>)
    requires a <= b
    ensures |a| <= |b|
  {
    assert b == a + (b - a);
  }
}
