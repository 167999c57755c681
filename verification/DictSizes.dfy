/** When a dictionary grows and shrinks, in numbers, and how far every operation moves a rehash on. */
module DictSizes {
  import opened Words
  import opened HashTables
  import opened DictModel
  import opened DictOps
  import opened DictRuns
  import opened Counters
  import opened Options

  // --- how far a rehash moves --------------------------------------------------------------------------

  /** How many buckets have something in them. */
  function NonEmpty<V>(b: seq<seq<Entry<V>>>): (n: nat)
    ensures n <= |b|
  {
    if b == [] then 0 else (if b[0] != [] then 1 else 0) + NonEmpty(b[1..])
  }

  lemma {:induction false} NonEmptySet<V>(b: seq<seq<Entry<V>>>, j: nat, c: seq<Entry<V>>)
    requires j < |b| && b[j] != []
    ensures NonEmpty(b[j := []]) == NonEmpty(b) - 1
    ensures c != [] ==> NonEmpty(b[j := c]) == NonEmpty(b)
  {
    if j > 0 {
      assert b[j := []][1..] == b[1..][j - 1 := []];
      assert b[j := c][1..] == b[1..][j - 1 := c];
      NonEmptySet(b[1..], j - 1, c);
    } else {
      assert b[j := []][1..] == b[1..] == b[j := c][1..];
    }
  }

  lemma {:induction false} NonEmptyZero<V>(b: seq<seq<Entry<V>>>)
    ensures NonEmpty(b) == 0 <==> forall i :: 0 <= i < |b| ==> b[i] == []
  {
    if b != [] {
      assert forall i :: 1 <= i < |b| ==> b[i] == b[1..][i - 1];
      assert forall i :: 0 <= i < |b| - 1 ==> b[1..][i] == b[i + 1];
      NonEmptyZero(b[1..]);
    }
  }

  /** A table counts no entries exactly when all its buckets are empty. */
  lemma UsedNonEmpty<V>(t: Table<V>)
    requires t.Valid()
    ensures t.used == 0 <==> NonEmpty(t.buckets) == 0
  {
    hide IndexOf, Val, And, Position;
    NonEmptyZero(t.buckets);
    if i: nat :| i < |t.buckets| && t.buckets[i] != [] {
      BucketEntries(t, i);
      assert t.buckets[i][0] in t.buckets[i];
      assert t.buckets[i][0].key in t.Map();
    } else {
      assert t.Map().Keys == {};
    }
  }

  /** The buckets before a place are emptied and the others kept. */
  ghost predicate EmptiedBefore<V>(b: seq<seq<Entry<V>>>, b': seq<seq<Entry<V>>>, idx: int) {
    && |b'| == |b| && idx <= |b|
    && forall i :: 0 <= i < |b| ==> b'[i] == if i < idx then [] else b[i]
  }

  lemma EmptiedUpTo<V>(b: seq<seq<Entry<V>>>, i: nat, j: nat)
    requires i <= j < |b| && forall l :: 0 <= l < i ==> b[l] == []
    requires forall l :: i <= l < j ==> b[l] == []
    ensures EmptiedBefore(b, b[j := []], j + 1)
  {
  }

  /** One step empties the first bucket that has something in it, and stops right behind it. */
  lemma OneMoves<V>(d: Dict<V>)
    requires d.Valid() && d.Rehashing() && d.t0.used > 0
    ensures var e := d.RehashOne();
            && e.Valid() && e.Rehashing() && d.idx < e.idx <= |d.t0.buckets|
            && EmptiedBefore(d.t0.buckets, e.t0.buckets, e.idx) && d.t0.buckets[e.idx - 1] != []
            && NonEmpty(e.t0.buckets) == NonEmpty(d.t0.buckets) - 1
  {
    hide IndexOf, Val, And, Position, Table.Map, Table.Placed, NonEmpty, EmptiedBefore, Moved, StepKeys, Migrate;
    hide DistinctKeys;
    RehashOneMoves(d);
    StepKeysNonEmpty(d);
    var j := NextNonEmpty(d.t0.buckets, d.idx);
    EmptiedUpTo(d.t0.buckets, d.idx, j);
    MigrateBuckets(d.t0, d.t1.value, j);
    NonEmptySet(d.t0.buckets, j, []);
  }

  lemma EmptiedTwice<V>(a: seq<seq<Entry<V>>>, b: seq<seq<Entry<V>>>, c: seq<seq<Entry<V>>>, i: int, j: int)
    requires EmptiedBefore(a, b, i) && EmptiedBefore(b, c, j) && i <= j
    ensures EmptiedBefore(a, c, j)
    ensures 0 < j && b[j - 1] != [] ==> a[j - 1] != []
  {
  }

  lemma {:induction false} LoopMoves<V>(d: Dict<V>, n: nat)
    requires d.Valid() && d.Rehashing()
    ensures var e, w := d.RehashLoop(n), NonEmpty(d.t0.buckets);
            && NonEmpty(e.t0.buckets) == (if n < w then w - n else 0)
            && d.idx <= e.idx && EmptiedBefore(d.t0.buckets, e.t0.buckets, e.idx)
            && (n > 0 && w > 0 ==> 0 < e.idx && d.t0.buckets[e.idx - 1] != [])
    decreases n
  {
    hide Table.Map, Table.Placed, Table.WellSized, Dict.RehashOne, EmptiedBefore, NonEmpty;
    UsedNonEmpty(d.t0);
    if n > 0 && d.t0.used > 0 {
      OneMoves(d);
      var e := d.RehashOne();
      LoopMoves(e, n - 1);
      EmptiedTwice(d.t0.buckets, e.t0.buckets, d.RehashLoop(n).t0.buckets, e.idx, d.RehashLoop(n).idx);
      if n == 1 || NonEmpty(e.t0.buckets) == 0 { LoopStays(e, n - 1); }
    } else {
      NothingEmptied(d);
    }
  }

  lemma LoopStays<V>(d: Dict<V>, n: nat)
    requires d.Valid() && d.Rehashing() && (n == 0 || NonEmpty(d.t0.buckets) == 0)
    ensures d.RehashLoop(n) == d
  {
    hide Table.Map, Table.Placed, Table.WellSized, Dict.RehashOne, NonEmpty;
    UsedNonEmpty(d.t0);
  }

  lemma NothingEmptied<V>(d: Dict<V>)
    requires d.Valid() && d.Rehashing()
    ensures EmptiedBefore(d.t0.buckets, d.t0.buckets, d.idx)
  {
  }

  /** Moving `n` buckets empties the first `n` of the first table that have something in them, no more and no
      fewer, and stops right behind the last of them. With no more than `n` of them the rehash is over, and
      the second table is the only one. Where moving is forbidden nothing changes. */
  lemma RehashExactly<V>(d: Dict<V>, n: nat)
    requires d.Valid() && d.Rehashing()
    ensures var e, w := d.RehashSteps(n), NonEmpty(d.t0.buckets);
            && (!d.can ==> e == d)
            && (d.can ==> (e.Rehashing() <==> n < w))
            && (d.can && n < w ==>
                && NonEmpty(e.t0.buckets) == w - n && Sizes(e) == Sizes(d)
                && EmptiedBefore(d.t0.buckets, e.t0.buckets, e.idx)
                && (n > 0 ==> 0 < e.idx && d.t0.buckets[e.idx - 1] != []))
            && (d.can && n >= w ==> Sizes(e) == (Sizes(d).1, 0))
  {
    hide Table.Map, Table.Placed, Table.WellSized, EmptiedBefore, NonEmpty, Dict.RehashLoop;
    LoopMoves(d, n);
    UsedNonEmpty(d.RehashLoop(n).t0);
    RehashSizes(d, n);
  }

  // --- when a table grows ----------------------------------------------------------------------------------

  /** A table that starts to be moved over moves its first bucket at once, if that is allowed. */
  lemma StartExactly<V>(d: Dict<V>, size: nat)
    requires d.Valid() && !d.Rehashing() && 0 < size <= UINT32
    ensures var e, n, w := d.Start(size), |d.t0.buckets|, NonEmpty(d.t0.buckets);
            && (e.Rehashing() <==> !d.can || w > 1)
            && Sizes(e) == (if e.Rehashing() then (n, size) else (size, 0))
            && (e.Rehashing() ==> NonEmpty(e.t0.buckets) == if d.can then w - 1 else w)
  {
    hide Table.Map, Table.Placed, Table.WellSized, NonEmpty, Dict.RehashSteps;
    EmptyTableValid<V>(size);
    var s := d.(t1 := Some(EmptyTable(size)), idx := 0);
    assert s.Valid();
    RehashExactly(s, 1);
    StartSizes(d, size);
  }

  lemma AddedUsed<V>(t: Table<V>, k: Key, v: V)
    requires t.Valid() && t.Lookup(k).None?
    ensures var u := t.Add(k, v); u.Valid() && |u.buckets| == |t.buckets| && u.used == t.used + 1
  {
    hide IndexOf, Val, And, Position, Table.Map, Table.Placed;
    AddIsMapAdd(t, k, v);
  }

  /** The limit that the number of entries has to exceed for a table to grow: its buckets, or five times as
      many, in 32 bits, while a child process is saving. */
  function GrowthLimit(buckets: nat, canResize: bool): nat {
    if canResize then buckets else (5 * buckets) % 0x1_0000_0000
  }

  lemma LimitIs(buckets: nat, used: nat, canResize: bool)
    ensures NeedExpand(buckets, used, canResize) <==> used > GrowthLimit(buckets, canResize)
    ensures canResize ==> GrowthLimit(buckets, canResize) == buckets
    ensures !canResize && 5 * buckets < 0x1_0000_0000 ==> GrowthLimit(buckets, canResize) == 5 * buckets
  {
  }

  /** A new key in a dictionary that is at rest after its step makes the table grow exactly when there are more
      entries then than the limit. It grows to twice the size: both tables are there afterwards, or the larger
      one alone if moving was over at once. Otherwise the table keeps its size. */
  lemma GrowthExactly<V>(d: Dict<V>, k: Key, v: V, canResize: bool)
    requires d.Valid() && !d.Step().Rehashing() && MayAdd(d.Step(), k, canResize) && k !in d.Step().Map()
    ensures var s, e := d.Step(), AddOp(d, k, v, canResize).0; var n := |s.t0.buckets|;
            && (|s.Map()| + 1 > GrowthLimit(n, canResize) ==>
                Sizes(e) == if e.Rehashing() then (n, 2 * n) else (2 * n, 0))
            && (|s.Map()| + 1 <= GrowthLimit(n, canResize) ==> !e.Rehashing() && Sizes(e) == (n, 0))
  {
    hide IndexOf, Val, And, Position, Table.Map, Table.Placed, Table.WellSized, Dict.Start, GrowthLimit, Dict.Step;
    var s := d.Step();
    MapIsLookup(s.t0);
    AddedUsed(s.t0, k, v);
    var a := s.(t0 := s.t0.Add(k, v));
    LimitIs(|s.t0.buckets|, a.t0.used, canResize);
    hide NeedExpand;
    if a.t0.used > GrowthLimit(|s.t0.buckets|, canResize) {
      StartSizes(a, 2 * |a.t0.buckets|);
    }
  }

  /** It starts moving at once. */
  lemma GrowthMoves<V>(d: Dict<V>, k: Key, v: V, canResize: bool)
    requires d.Valid() && !d.Rehashing() && MayAdd(d, k, canResize) && k !in d.Map()
    requires |d.Map()| + 1 > GrowthLimit(|d.t0.buckets|, canResize)
    ensures d.t0.WellSized()
    ensures var e, w := AddOp(d, k, v, canResize).0, NonEmpty(d.t0.Add(k, v).buckets);
            && (e.Rehashing() <==> !d.can || w > 1)
            && (e.Rehashing() ==> NonEmpty(e.t0.buckets) == if d.can then w - 1 else w)
  {
    hide IndexOf, Val, And, Position, Table.Map, Table.Placed, Table.WellSized, Dict.Start, GrowthLimit, NonEmpty;
    MapIsLookup(d.t0);
    AddedUsed(d.t0, k, v);
    var a := d.(t0 := d.t0.Add(k, v));
    LimitIs(|d.t0.buckets|, a.t0.used, canResize);
    hide NeedExpand;
    StartExactly(a, 2 * |a.t0.buckets|);
  }

  lemma DeletedUsed<V>(t: Table<V>, k: Key)
    requires t.Valid() && t.Lookup(k).Some?
    ensures var u := t.Delete(k); u.Valid() && |u.buckets| == |t.buckets| && u.used == t.used - 1
  {
    hide IndexOf, Val, And, Position, Table.Map, Table.Placed;
    DeleteIsMapRemove(t, k);
    DeleteKeepsEmpty(t, k);
    MapIsLookup(t);
  }

  /** Deleting a key that is there, from a dictionary at rest after its step, makes the table shrink exactly
      when that is allowed, the table is larger than it was at first, and a hundred times the entries left,
      in 32 bits, is less than ten times the buckets. It shrinks to half the size, rounded down. */
  lemma ShrinkExactly<V>(d: Dict<V>, k: Key, canResize: bool)
    requires d.Valid() && !d.Step().Rehashing() && k in d.Step().Map()
    ensures |d.Step().Map()| > 0
    ensures var s, e := d.Step(), DeleteOp(d, k, canResize).0; var n := |s.t0.buckets|;
            var shrinks := canResize && n > d.init && ((|s.Map()| - 1) * 100) % 0x1_0000_0000 < 10 * n;
            && (shrinks ==> Sizes(e) == if e.Rehashing() then (n, n / 2) else (n / 2, 0))
            && (!shrinks ==> !e.Rehashing() && Sizes(e) == (n, 0))
  {
    hide IndexOf, Val, And, Position, Table.Map, Table.Placed, Dict.Start, Dict.Step;
    var s := d.Step();
    MapIsLookup(s.t0);
    DeletedUsed(s.t0, k);
    var a := s.(t0 := s.t0.Delete(k));
    DivLess(Wrap(a.t0.used * 100), |s.t0.buckets|, HASHTABLE_MIN_FILL);
    var shrinks := NeedShrink(d.init, |s.t0.buckets|, a.t0.used, canResize);
    assert shrinks ==> |a.t0.buckets| / 2 > 0;
    hide NeedShrink;
    if shrinks { StartSizes(a, |a.t0.buckets| / 2); }
  }

  /** A key that is there already, or is not there to be deleted, leaves a dictionary at rest as it is. */
  lemma AtRestKept<V>(d: Dict<V>, k: Key, v: V, canResize: bool)
    requires d.Valid() && !d.Rehashing() && MayAdd(d, k, canResize)
    ensures k in d.Map() ==> AddOp(d, k, v, canResize).0 == d
    ensures k !in d.Map() ==> DeleteOp(d, k, canResize).0 == d
  {
    hide IndexOf, Val, And, Position, Table.Map, Table.Placed, Table.WellSized;
    MapIsLookup(d.t0);
  }

  /** Replacing an absent key grows the table as inserting it does. */
  lemma ReplaceGrows<V>(d: Dict<V>, k: Key, v: V, canResize: bool)
    requires d.Valid() && d.Disjoint() && !d.Rehashing() && MayAdd(d, k, canResize) && k !in d.Map()
    ensures ReplaceOp(d, k, v, canResize) == AddOp(d, k, v, canResize).0
  {
    hide IndexOf, Val, And, Position, Table.Map, Table.Placed, Table.WellSized;
    MapIsLookup(d.t0);
    assert d.Step() == d;
  }

  /** The size that a resize on request aims at: the least power of two times the initial size that is enough, or
      2^31 from there on. */
  lemma TargetIs(init: nat, size: nat, k: nat)
    requires 0 < init <= 0x8000_0000
    ensures var t := Target(init, size);
            && (size >= 0x8000_0000 ==> t == 0x8000_0000)
            && (size < 0x8000_0000 ==>
                && size <= t && (exists e: nat :: t == init * Pow2(e))
                && (init * Pow2(k) >= size ==> t <= init * Pow2(k)))
  {
    if size < 0x8000_0000 { NextPowerLeast(init, size, k); }
  }

  /** Nothing is asked of a history but that insertions have room and meet no clash, and that a rehash is moved on
      only where there is one. */
  lemma FitsExactly<V>(d: Dict<V>, op: Op<V>)
    requires Good(d)
    ensures Fits(d, op) <==>
            && (op.Add? ==> MayAdd(d.Step(), op.key, op.canResize) && !Clash(d, op.key))
            && (op.Replace? ==> MayAdd(d.Step().Step(), op.key, op.canResize) && !Clash(d.Step(), op.key))
            && (op.Rehash? ==> d.Rehashing())
  {
    hide Table.Map, Table.Placed, Table.WellSized, Dict.Step, Clash, MayAdd;
  }

  // --- every operation moves a rehash on --------------------------------------------------------------------

  /** How many buckets an operation on a key moves: at least, and at most. */
  function StepsAtLeast<V>(op: Op<V>): nat { if op.Fetch? || op.Replace? then 2 else 1 }

  function StepsAtMost<V>(op: Op<V>): nat { if op.Replace? then 3 else StepsAtLeast(op) }

  predicate OnKey<V>(op: Op<V>) { op.Add? || op.Replace? || op.Find? || op.Fetch? || op.Delete? }

  /** A rehash that is nowhere nearer its end afterwards than `n` buckets moved. */
  ghost predicate MovedOn<V>(d: Dict<V>, e: Dict<V>, n: nat) {
    && e.Rehashing() && Sizes(e) == Sizes(d) && NonEmpty(e.t0.buckets) + n <= NonEmpty(d.t0.buckets)
  }

  lemma StepMovesOn<V>(d: Dict<V>)
    requires d.Valid() && d.Rehashing() && d.can && NonEmpty(d.t0.buckets) > 1
    ensures MovedOn(d, d.Step(), 1) && NonEmpty(d.Step().t0.buckets) == NonEmpty(d.t0.buckets) - 1
  {
    hide Table.Map, Table.Placed, Table.WellSized, NonEmpty, Dict.RehashSteps;
    RehashExactly(d, 1);
  }

  lemma {:induction false} NonEmptyFalls<V>(a: seq<seq<Entry<V>>>, b: seq<seq<Entry<V>>>)
    requires |a| == |b| && forall i :: 0 <= i < |a| ==> a[i] == [] ==> b[i] == []
    ensures NonEmpty(b) <= NonEmpty(a)
  {
    if a != [] {
      assert forall i :: 0 <= i < |a| - 1 ==> a[1..][i] == a[i + 1] && b[1..][i] == b[i + 1];
      NonEmptyFalls(a[1..], b[1..]);
    }
  }

  lemma AddMovesOn<V>(d: Dict<V>, k: Key, v: V, canResize: bool)
    requires d.Valid() && d.Rehashing() && d.can && NonEmpty(d.t0.buckets) > 1 && MayAdd(d.Step(), k, canResize)
    ensures var e := AddOp(d, k, v, canResize).0;
            MovedOn(d, e, 1) && NonEmpty(e.t0.buckets) == NonEmpty(d.t0.buckets) - 1
  {
    hide IndexOf, Val, And, Position, Table.Map, Table.Placed, NonEmpty, Dict.Step;
    StepMovesOn(d);
  }

  lemma DeleteMovesOn<V>(d: Dict<V>, k: Key, canResize: bool)
    requires d.Valid() && d.Rehashing() && d.can && NonEmpty(d.t0.buckets) > 1
    ensures MovedOn(d, DeleteOp(d, k, canResize).0, 1)
  {
    hide IndexOf, Val, And, Position, Table.Map, Table.Placed, NonEmpty, Dict.Step;
    StepMovesOn(d);
    var s := d.Step();
    DeleteKeepsEmpty(s.t0, k);
    NonEmptyFalls(s.t0.buckets, s.t0.Delete(k).buckets);
  }

  lemma FetchMovesOn<V>(d: Dict<V>, k: Key)
    requires d.Valid() && d.Rehashing() && d.can && NonEmpty(d.t0.buckets) > 2
    ensures MovedOn(d, FetchOp(d, k).0, 2)
  {
    hide IndexOf, Val, And, Position, Table.Map, Table.Placed, NonEmpty, Dict.Step;
    StepMovesOn(d);
    StepMovesOn(d.Step());
  }

  lemma OverwriteMovesOn<V>(s: Dict<V>, k: Key, v: V)
    requires s.Valid() && s.Rehashing()
    ensures MovedOn(s, Overwrite(s, k, v), 0)
  {
    hide IndexOf, Val, And, Position, Table.Map, Table.Placed, NonEmpty;
    UpdateShape(s.t0, k, v);
    NonEmptyFalls(s.t0.buckets, s.t0.Update(k, v).buckets);
    UpdateShape(s.t1.value, k, v);
  }

  lemma ReplaceMovesOn<V>(d: Dict<V>, k: Key, v: V, canResize: bool)
    requires d.Valid() && d.Disjoint() && d.Rehashing() && d.can && NonEmpty(d.t0.buckets) > 3
    requires MayAdd(d.Step().Step(), k, canResize)
    ensures MovedOn(d, ReplaceOp(d, k, v, canResize), 2)
  {
    hide IndexOf, Val, And, Position, Table.Map, Table.Placed, Table.WellSized, NonEmpty, Dict.Step, AddOp, Overwrite;
    hide Dict.Disjoint, Dict.Map, MayAdd;
    StepMovesOn(d);
    var s := d.Step();
    StepKeepsMap(d);
    AddMovesOn(s, k, v, canResize);
    AddRefines(s, k, v, canResize);
    var (e, r) := AddOp(s, k, v, canResize);
    StepMovesOn(e);
    OverwriteMovesOn(e.Step(), k, v);
  }

  /** As long as enough buckets are left, every operation on a key moves at least one of them over, two where
      it steps twice, and leaves both tables their sizes. */
  lemma OperationMovesOn<V>(d: Dict<V>, op: Op<V>)
    requires Good(d) && Fits(d, op) && OnKey(op) && d.Rehashing() && d.can
    requires NonEmpty(d.t0.buckets) > StepsAtMost(op)
    ensures MovedOn(d, Apply(d, op).0, StepsAtLeast(op))
  {
    hide Table.Map, Table.Placed, Table.WellSized, NonEmpty, Dict.Step, Dict.Disjoint, Clash, MayAdd, MovedOn;
    hide AddOp, DeleteOp, ReplaceOp, FetchOp;
    match op
    case Add(k, v, c) => AddMovesOn(d, k, v, c);
    case Replace(k, v, c) => ReplaceMovesOn(d, k, v, c);
    case Find(k) => StepMovesOn(d);
    case Fetch(k) => FetchMovesOn(d, k);
    case Delete(k, c) => DeleteMovesOn(d, k, c);
  }
}
