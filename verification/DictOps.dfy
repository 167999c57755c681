/** What the dictionary operations do to the map the dictionary stands for. */
module DictOps {
  import opened Words
  import opened HashTables
  import opened DictModel
  import opened Counters
  import opened Options

  // --- rehashing leaves the map alone, and ends --------------------------------------------------------

  lemma MovedUnion<V>(a: map<Key, V>, b: map<Key, V>, ks: set<Key>, a': map<Key, V>, b': map<Key, V>)
    requires Moved(a, b, ks, a', b') && a.Keys !! b.Keys
    ensures a'.Keys !! b'.Keys && b' + a' == b + a
  {
    assert (b' + a').Keys == (b + a).Keys;
  }

  lemma RehashOneKeepsMap<V>(d: Dict<V>)
    requires d.Valid() && d.Rehashing() && d.Disjoint()
    ensures d.RehashOne().Valid() && d.RehashOne().Disjoint() && d.RehashOne().Map() == d.Map()
  {
    hide Table.Map, Table.Placed, Table.WellSized, Dict.RehashOne;
    RehashOneMoves(d);
    MovedUnion(d.t0.Map(), d.t1.value.Map(), StepKeys(d), d.RehashOne().t0.Map(), d.RehashOne().t1.value.Map());
  }

  lemma {:induction false} RehashLoopKeepsMap<V>(d: Dict<V>, n: nat)
    requires d.Valid() && d.Rehashing() && d.Disjoint()
    ensures d.RehashLoop(n).Disjoint() && d.RehashLoop(n).Map() == d.Map()
    decreases n
  {
    hide Table.Map, Table.Placed, Table.WellSized, Dict.RehashOne, Dict.Disjoint, Dict.Map;
    if n > 0 && d.t0.used > 0 {
      RehashOneMoves(d);
      RehashOneKeepsMap(d);
      RehashLoopKeepsMap(d.RehashOne(), n - 1);
    }
  }

  lemma FinishKeepsMap<V>(d: Dict<V>)
    requires d.Valid() && d.Rehashing() && d.Disjoint()
    ensures d.Finish().Disjoint() && d.Finish().Map() == d.Map()
  {
    hide Table.Placed, Table.WellSized, Table.Map;
    if d.t0.used == 0 {
      assert d.t0.Map() == map[];
      assert d.t1.value.Map() + map[] == d.t1.value.Map();
    }
  }

  /** Moving any number of buckets, at any time, leaves the map as it was. */
  lemma RehashKeepsMap<V>(d: Dict<V>, n: nat)
    requires d.Valid() && d.Rehashing() && d.Disjoint()
    ensures d.RehashSteps(n).Disjoint() && d.RehashSteps(n).Map() == d.Map()
  {
    hide Table.Map, Table.Placed, Table.WellSized, Dict.RehashLoop, Dict.Finish, Dict.Disjoint, Dict.Map;
    if d.can {
      RehashLoopKeepsMap(d, n);
      FinishKeepsMap(d.RehashLoop(n));
    }
  }

  lemma {:induction false} RehashLoopEmpties<V>(d: Dict<V>, n: nat)
    requires d.Valid() && d.Rehashing() && (n >= d.t0.used || n >= |d.t0.buckets| - d.idx)
    ensures d.RehashLoop(n).t0.used == 0
    decreases n
  {
    hide Table.Map, Table.Placed, Table.WellSized, Dict.RehashOne, Dict.Valid, Moved, NextNonEmpty;
    if d.t0.used > 0 {
      RehashOneMoves(d);
      RehashOneProgress(d);
      StepKeysNonEmpty(d);
      RehashLoopEmpties(d.RehashOne(), n - 1);
    }
  }

  /** A rehash that may run ends within as many steps as the first table has entries left, and also
      within as many as it has buckets left. */
  lemma RehashEnds<V>(d: Dict<V>, n: nat)
    requires d.Valid() && d.Rehashing() && d.can
    requires n >= d.t0.used || n >= |d.t0.buckets| - d.idx
    ensures !d.RehashSteps(n).Rehashing()
  {
    RehashLoopEmpties(d, n);
  }

  /** Single steps, as the operations take them. */
  ghost function Iterate<V>(d: Dict<V>, n: nat): Dict<V>
    requires d.Valid()
    decreases n
  {
    hide Table.Map, Table.Placed, Table.WellSized, Dict.RehashSteps, Dict.Valid;
    if n == 0 then d else Iterate(d.Step(), n - 1)
  }

  lemma StepProgress<V>(d: Dict<V>)
    requires d.Valid() && d.Rehashing() && d.can
    ensures var e := d.Step();
            e.Rehashing() ==> e.t0.used < d.t0.used && |e.t0.buckets| - e.idx < |d.t0.buckets| - d.idx
  {
    hide Table.Map, Table.Placed, Table.WellSized, Dict.RehashOne;
    RehashOneMoves(d);
    RehashOneProgress(d);
    assert d.RehashLoop(1) == if d.t0.used == 0 then d else d.RehashOne() by {
      if d.t0.used > 0 { assert d.RehashLoop(1) == d.RehashOne().RehashLoop(0); }
    }
  }

  /** Operations alone finish a rehash too: none is left after as many of them as the first table had
      entries, or buckets at or above the index. */
  lemma {:induction false} OperationsEndRehash<V>(d: Dict<V>, n: nat)
    requires d.Valid() && d.can
    requires d.Rehashing() ==> n > d.t0.used || n > |d.t0.buckets| - d.idx
    ensures !Iterate(d, n).Rehashing()
    decreases n
  {
    hide Table.Map, Table.Placed, Table.WellSized, Dict.RehashSteps;
    if n > 0 {
      if d.Rehashing() { StepProgress(d); }
      OperationsEndRehash(d.Step(), n - 1);
    }
  }

  lemma StepKeepsMap<V>(d: Dict<V>)
    requires d.Valid() && d.Disjoint()
    ensures d.Step().Disjoint() && d.Step().Map() == d.Map()
  {
    if d.Rehashing() { RehashKeepsMap(d, 1); }
  }

  lemma StartKeepsMap<V>(d: Dict<V>, size: nat)
    requires d.Valid() && !d.Rehashing() && 0 < size <= UINT32
    ensures d.Start(size).Disjoint() && d.Start(size).Map() == d.Map()
  {
    hide Table.Placed, Table.WellSized, Table.Map, Dict.RehashSteps;
    EmptyTableValid<V>(size);
    var e := d.(t1 := Some(EmptyTable(size)), idx := 0);
    assert map[] + d.t0.Map() == d.t0.Map();
    RehashKeepsMap(e, 1);
  }

  // --- the operations ----------------------------------------------------------------------------------

  /** A table can only double while the doubled size is a 32-bit number. */
  predicate CanDouble<V>(d: Dict<V>) { 2 * |d.t0.buckets| < UINT32 }

  /** An insertion that makes the table grow finds one that can. */
  ghost predicate MayAdd<V>(s: Dict<V>, k: Key, canResize: bool)
    requires s.Valid()
  {
    !s.Rehashing() && s.t0.Lookup(k).None? && NeedExpand(|s.t0.buckets|, s.t0.used + 1, canResize) ==> CanDouble(s)
  }

  /** Insert a new entry: into the second table during a rehash, else into the first, which may then
      start to grow. The duplicate check looks only at the table inserted into. */
  ghost function AddOp<V>(d: Dict<V>, k: Key, v: V, canResize: bool): (r: (Dict<V>, int))
    requires d.Valid() && MayAdd(d.Step(), k, canResize)
  {
    AddStepOp(d.Step(), k, v, canResize)
  }

  ghost function AddStepOp<V>(s: Dict<V>, k: Key, v: V, canResize: bool): (r: (Dict<V>, int))
    requires s.Valid() && MayAdd(s, k, canResize)
  {
    hide Table.Map, Table.Placed, Dict.RehashSteps;
    if s.Rehashing() then
      (s.(t1 := Some(s.t1.value.Add(k, v))), if s.t1.value.Lookup(k).Some? then -1 else 1)
    else if s.t0.Lookup(k).Some? then
      (s, -1)
    else
      AddIsMapAdd(s.t0, k, v);
      var a := s.(t0 := s.t0.Add(k, v));
      if NeedExpand(|a.t0.buckets|, a.t0.used, canResize) then (a.Start(2 * |a.t0.buckets|), 1) else (a, 1)
  }

  /** Where an insertion goes wrong: the key still waits in the first table. */
  ghost predicate Clash<V>(d: Dict<V>, k: Key)
    requires d.Valid()
  {
    d.Step().Rehashing() && d.Step().t0.Lookup(k).Some?
  }

  function Inserted<V>(m: map<Key, V>, k: Key, v: V): map<Key, V> { if k in m then m else m[k := v] }

  lemma UnionInsert<V>(a: map<Key, V>, b: map<Key, V>, k: Key, v: V)
    ensures k in a ==> Inserted(b, k, v) + a == b + a
    ensures k !in a ==> Inserted(b, k, v) + a == Inserted(b + a, k, v)
  {
  }

  lemma UnionRemove<V>(a: map<Key, V>, b: map<Key, V>, k: Key)
    ensures k !in b ==> b + (a - {k}) == (b + a) - {k}
    ensures k !in a ==> (b - {k}) + a == (b + a) - {k}
  {
  }

  lemma AddWhileRehashing<V>(s: Dict<V>, k: Key, v: V)
    requires s.Valid() && s.Rehashing() && s.Disjoint()
    ensures var e := s.(t1 := Some(s.t1.value.Add(k, v)));
            && e.Valid()
            && (e.Disjoint() <==> s.t0.Lookup(k).None?)
            && e.Map() == (if s.t0.Lookup(k).Some? then s.Map() else Inserted(s.Map(), k, v))
            && (s.t1.value.Lookup(k).Some? ==> s.t0.Lookup(k).None?)
            && (k in s.Map() <==> s.t0.Lookup(k).Some? || s.t1.value.Lookup(k).Some?)
  {
    hide Table.Placed, Table.WellSized, Table.Map, Table.Add, Table.Lookup;
    MapIsLookup(s.t0);
    MapIsLookup(s.t1.value);
    AddIsMapAdd(s.t1.value, k, v);
    UnionInsert(s.t0.Map(), s.t1.value.Map(), k, v);
  }

  lemma AddWhileQuiet<V>(s: Dict<V>, k: Key, v: V, canResize: bool)
    requires s.Valid() && !s.Rehashing() && MayAdd(s, k, canResize) && s.t0.Lookup(k).None?
    ensures var e := AddStepOp(s, k, v, canResize).0;
            && e.Valid() && e.init == s.init && e.can == s.can && e.Disjoint()
            && k !in s.Map() && e.Map() == s.Map()[k := v]
  {
    hide Table.Placed, Table.WellSized, Table.Map, Dict.RehashSteps, Dict.Start;
    MapIsLookup(s.t0);
    AddIsMapAdd(s.t0, k, v);
    var a := s.(t0 := s.t0.Add(k, v));
    if NeedExpand(|a.t0.buckets|, a.t0.used, canResize) { StartKeepsMap(a, 2 * |a.t0.buckets|); }
  }

  /** Insertion is insertion into the map, with the right answer, exactly when there is no clash; a
      clash claims to insert, leaves the map alone and counts the key twice. */
  lemma AddRefines<V>(d: Dict<V>, k: Key, v: V, canResize: bool)
    requires d.Valid() && d.Disjoint() && MayAdd(d.Step(), k, canResize)
    ensures var (e, r) := AddOp(d, k, v, canResize);
            && e.Valid() && e.init == d.init && e.can == d.can
            && (e.Disjoint() <==> !Clash(d, k))
            && (!Clash(d, k) ==> e.Map() == Inserted(d.Map(), k, v) && r == if k in d.Map() then -1 else 1)
            && (Clash(d, k) ==> k in d.Map() && e.Map() == d.Map() && r == 1)
  {
    hide Table.Placed, Table.WellSized, Table.Map, Dict.RehashSteps, Dict.Step, Dict.Start, Dict.Map, Dict.Disjoint;
    StepKeepsMap(d);
    var s := d.Step();
    if s.Rehashing() {
      AddWhileRehashing(s, k, v);
    } else if s.t0.Lookup(k).None? {
      AddWhileQuiet(s, k, v, canResize);
    } else {
      QuietLookup(s, k);
    }
  }

  lemma QuietLookup<V>(s: Dict<V>, k: Key)
    requires s.Valid() && !s.Rehashing()
    ensures s.Disjoint() && (k in s.Map() <==> s.t0.Lookup(k).Some?)
  {
    hide Table.Map, Table.Placed;
    MapIsLookup(s.t0);
  }

  ghost function FindOp<V>(d: Dict<V>, k: Key): (Dict<V>, Option<V>)
    requires d.Valid()
  {
    var s := d.Step();
    (s, if s.t0.Lookup(k).None? && s.Rehashing() then s.t1.value.Lookup(k) else s.t0.Lookup(k))
  }

  /** A lookup answers from the map and changes nothing, wherever the entry currently is. */
  lemma FindRefines<V>(d: Dict<V>, k: Key)
    requires d.Valid() && d.Disjoint()
    ensures var (e, r) := FindOp(d, k);
            && e.Valid() && e.Disjoint() && e.Map() == d.Map()
            && r == if k in d.Map() then Some(d.Map()[k]) else None
  {
    hide Table.Placed, Table.WellSized, Table.Map, Dict.RehashSteps, Dict.Step;
    StepKeepsMap(d);
    var s := d.Step();
    MapIsLookup(s.t0);
    if s.Rehashing() { MapIsLookup(s.t1.value); }
  }

  /** Fetching takes a step of its own before the lookup takes one. */
  ghost function FetchOp<V>(d: Dict<V>, k: Key): (Dict<V>, Option<V>)
    requires d.Valid()
  {
    FindOp(d.Step(), k)
  }

  lemma FetchRefines<V>(d: Dict<V>, k: Key)
    requires d.Valid() && d.Disjoint()
    ensures var (e, r) := FetchOp(d, k);
            && e.Valid() && e.Disjoint() && e.Map() == d.Map()
            && r == if k in d.Map() then Some(d.Map()[k]) else None
  {
    StepKeepsMap(d);
    FindRefines(d.Step(), k);
  }

  /** Delete from the first table, which may then start to shrink, else from the second. */
  ghost function DeleteOp<V>(d: Dict<V>, k: Key, canResize: bool): (Dict<V>, int)
    requires d.Valid()
  {
    DeleteStepOp(d.Step(), k, canResize)
  }

  ghost function DeleteStepOp<V>(s: Dict<V>, k: Key, canResize: bool): (Dict<V>, int)
    requires s.Valid()
  {
    hide Table.Map, Table.Placed, Dict.RehashSteps;
    if s.t0.Lookup(k).Some? then
      DeleteIsMapRemove(s.t0, k);
      DeleteKeepsEmpty(s.t0, k);
      var a := s.(t0 := s.t0.Delete(k));
      if !a.Rehashing() && NeedShrink(a.init, |a.t0.buckets|, a.t0.used, canResize)
      then (a.Start(|a.t0.buckets| / 2), 1) else (a, 1)
    else if s.Rehashing() then
      (s.(t1 := Some(s.t1.value.Delete(k))), if s.t1.value.Lookup(k).Some? then 1 else -1)
    else (s, -1)
  }

  lemma DeleteKeepsEmpty<V>(t: Table<V>, k: Key)
    requires t.WellSized()
    ensures |t.Delete(k).buckets| == |t.buckets|
    ensures forall i :: 0 <= i < |t.buckets| && t.buckets[i] == [] ==> t.Delete(k).buckets[i] == []
  {
    hide Position, IndexOf;
  }

  lemma DeleteFirst<V>(s: Dict<V>, k: Key)
    requires s.Valid() && s.Disjoint() && s.t0.Lookup(k).Some?
    ensures var a := s.(t0 := s.t0.Delete(k));
            a.Valid() && a.Disjoint() && k in s.Map() && a.Map() == s.Map() - {k}
  {
    hide Table.Placed, Table.WellSized, Table.Map, Table.Delete, Table.Lookup;
    MapIsLookup(s.t0);
    DeleteIsMapRemove(s.t0, k);
    DeleteKeepsEmpty(s.t0, k);
    if s.Rehashing() { UnionRemove(s.t0.Map(), s.t1.value.Map(), k); }
  }

  lemma EitherTable<V>(s: Dict<V>, k: Key)
    requires s.Valid() && s.Rehashing()
    ensures k in s.t0.Map() <==> s.t0.Lookup(k).Some?
    ensures k in s.Map() <==> s.t0.Lookup(k).Some? || s.t1.value.Lookup(k).Some?
  {
    hide Table.Placed, Table.Map;
    MapIsLookup(s.t0);
    MapIsLookup(s.t1.value);
  }

  lemma DeleteSecond<V>(s: Dict<V>, k: Key)
    requires s.Valid() && s.Disjoint() && s.t0.Lookup(k).None? && s.Rehashing()
    ensures var a := s.(t1 := Some(s.t1.value.Delete(k)));
            a.Valid() && a.Disjoint() && a.Map() == s.Map() - {k}
  {
    hide Table.Placed, Table.WellSized, Table.Map, Table.Delete, Table.Lookup;
    EitherTable(s, k);
    DeleteIsMapRemove(s.t1.value, k);
    UnionRemove(s.t0.Map(), s.t1.value.Map(), k);
  }

  /** Deletion is removal from the map, with the right answer. */
  lemma DeleteRefines<V>(d: Dict<V>, k: Key, canResize: bool)
    requires d.Valid() && d.Disjoint()
    ensures var (e, r) := DeleteOp(d, k, canResize);
            && e.Valid() && e.Disjoint() && e.init == d.init && e.can == d.can
            && e.Map() == d.Map() - {k} && r == if k in d.Map() then 1 else -1
  {
    hide Table.Placed, Table.Map, Dict.RehashSteps, Dict.Step, Dict.Start, Dict.Map, Dict.Disjoint;
    StepKeepsMap(d);
    var s := d.Step();
    if s.t0.Lookup(k).Some? {
      DeleteFirst(s, k);
      var a := s.(t0 := s.t0.Delete(k));
      if !a.Rehashing() && NeedShrink(a.init, |a.t0.buckets|, a.t0.used, canResize) {
        StartKeepsMap(a, |a.t0.buckets| / 2);
      }
    } else if s.Rehashing() {
      EitherTable(s, k);
      DeleteSecond(s, k);
    } else {
      QuietLookup(s, k);
      assert s.Map() - {k} == s.Map();
    }
  }

  /** Twice the entry count can only mean a clash: the count is the size of the map otherwise. */
  lemma SizeIsCardinality<V>(d: Dict<V>)
    requires d.Valid()
    ensures d.Size() == |d.Map()| <==> d.Disjoint()
  {
    hide Table.Placed, Table.WellSized, Table.Map;
    if d.Rehashing() {
      var a, b := d.t0.Map().Keys, d.t1.value.Map().Keys;
      assert d.Map().Keys == a + b;
      assert |a + b| == |a| + |b| - |a * b|;
      if a * b == {} {
        assert forall x :: x in a && x in b ==> x in a * b;
      } else {
        assert |a * b| > 0;
      }
    }
  }

  // --- when exactly an insertion clashes -----------------------------------------------------------------

  lemma StepOfCan<V>(d: Dict<V>)
    requires d.Valid() && d.Rehashing() && d.can
    ensures d.Step() == if d.t0.used == 0 then d.Finish() else (RehashOneMoves(d); d.RehashOne().Finish())
  {
    hide Table.Map, Table.Placed, Dict.RehashOne, Dict.Finish;
    if d.t0.used > 0 {
      RehashOneMoves(d);
      assert d.RehashLoop(1) == d.RehashOne().RehashLoop(0);
    }
  }

  lemma KeyStays<V>(d: Dict<V>, k: Key)
    requires d.Valid() && d.Rehashing() && d.can
    ensures d.RehashOne().Valid()
    ensures k in d.RehashOne().t0.Map() <==>
            k in d.t0.Map() && d.t0.Index(k.hash) != NextNonEmpty(d.t0.buckets, d.idx)
  {
    hide IndexOf, Val, And, Position, Table.Map, Dict.RehashOne;
    RehashOneMoves(d);
    MapIsLookup(d.t0);
    var j := NextNonEmpty(d.t0.buckets, d.idx);
    if j < |d.t0.buckets| {
      var c := d.t0.buckets[j];
      if k in KeysOf(c) {
        var e :| e in c && e.key == k;
        BucketEntries(d.t0, j);
      }
      if k in d.t0.Map() && d.t0.Index(k.hash) == j {
        assert c[Position(c, k)] in c;
      }
    }
  }

  /** A caller can tell beforehand: the key waits in the first table, in a bucket other than the one
      that the operation is about to move. */
  lemma ClashExactly<V>(d: Dict<V>, k: Key)
    requires d.Valid()
    ensures Clash(d, k) <==>
            && d.Rehashing() && d.t0.Lookup(k).Some?
            && (d.can ==> d.t0.Index(k.hash) != NextNonEmpty(d.t0.buckets, d.idx))
  {
    hide IndexOf, Val, And, Position, Table.Map, Table.Placed, Dict.RehashOne, Dict.RehashLoop, NextNonEmpty;
    MapIsLookup(d.t0);
    if d.Rehashing() && d.can {
      StepOfCan(d);
      if d.t0.used == 0 {
        assert d.t0.Map() == map[];
      } else {
        KeyStays(d, k);
        RehashOneMoves(d);
        var e := d.RehashOne();
        MapIsLookup(e.t0);
        assert d.Step() == e.Finish();
        if e.t0.used == 0 {
          assert e.t0.Map() == map[];
        }
      }
    }
  }

  const K0: Key := Key(0, Const(false, 32))
  const K1: Key := Key(1, [true] + Const(false, 31))

  function TwoKeys(): Table<int> {
    hide IndexOf, Val, And, Table.Map, Table.Placed;
    EmptyTableValid<int>(2);
    AddIsMapAdd(EmptyTable<int>(2), K0, 0);
    EmptyTable<int>(2).Add(K0, 0).Add(K1, 1)
  }

  lemma TwoKeysValid()
    ensures TwoKeys().Valid() && K1 in TwoKeys().Map() && TwoKeys().Lookup(K1).Some?
  {
    hide IndexOf, Val, And, Table.Map, Table.Placed, Table.Add, Table.WellSized;
    EmptyTableValid<int>(2);
    var e := EmptyTable<int>(2);
    AddIsMapAdd(e, K0, 0);
    AddIsMapAdd(e.Add(K0, 0), K1, 1);
    assert TwoKeys().WellSized();
    MapIsLookup(TwoKeys());
  }

  lemma TwoKeysPlaced()
    ensures TwoKeys().WellSized() && TwoKeys().Index(K1.hash) == 1 && |TwoKeys().buckets| == 2
    ensures NextNonEmpty(TwoKeys().buckets, 0) == 0
  {
    hide IndexOf, Val, And, Table.Map, Table.Placed;
    TwoKeysValid();
    TwoBuckets(K0, K1);
    EmptyTableValid<int>(2);
    AddIsMapAdd(EmptyTable<int>(2), K0, 0);
  }

  /** It does happen, in a table of two buckets of which the first is about to move. */
  lemma ClashHappens()
    ensures exists d: Dict<int>, k: Key :: d.Valid() && d.Disjoint() && d.can && Clash(d, k)
  {
    hide IndexOf, Val, And, Table.Map, Table.Placed, Table.Lookup, Dict.RehashSteps, TwoKeys, Table.WellSized, Clash;
    EmptyTableValid<int>(4);
    TwoKeysValid();
    TwoKeysPlaced();
    var d := Dict(2, TwoKeys(), Some(EmptyTable<int>(4)), 0, true);
    assert d.Valid() && d.Disjoint();
    ClashExactly(d, K1);
  }

  lemma MaskedBucket(h: Word, m: Word)
    requires m == [true] + Const(false, 31)
    ensures h == Const(false, 32) ==> IndexOf(h, m) == 0
    ensures h == m ==> IndexOf(h, m) == 1
  {
    hide And;
    ValConst(false, 32);
    ValConst(false, 31);
    assert m[1..] == Const(false, 31);
    if h == Const(false, 32) {
      assert And(h, m) == h;
    } else if h == m {
      assert And(h, m) == m;
    }
  }

  lemma MaskOfTwo()
    ensures ToBits(1, 32) == [true] + Const(false, 31)
  {
    var m := [true] + Const(false, 31);
    assert m[1..] == Const(false, 31);
    ValConst(false, 31);
    assert Val(m) == 1;
    EmptyTableValid<int>(2);
    ValInjective(ToBits(1, 32), m);
  }

  lemma TwoBuckets(k0: Key, k1: Key)
    requires k0.hash == Const(false, 32) && k1.hash == [true] + Const(false, 31)
    ensures EmptyTable<int>(2).WellSized()
    ensures EmptyTable<int>(2).Index(k0.hash) == 0 && EmptyTable<int>(2).Index(k1.hash) == 1
  {
    hide IndexOf, Val, And, Const, ToBits;
    EmptyTableValid<int>(2);
    MaskOfTwo();
    MaskedBucket(k0.hash, EmptyTable<int>(2).mask);
    MaskedBucket(k1.hash, EmptyTable<int>(2).mask);
  }
}
