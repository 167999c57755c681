/** The dictionary in place: two hash tables, a rehash index, and the switch that allows rehashing. */
module Dictionaries {
  import opened Words
  import opened HashTables
  import opened DictModel
  import opened DictOps
  import opened DictRuns
  import opened Cursor
  import opened BitReversal
  import opened DictScan
  import opened Counters
  import opened Options

  /** One step written with the chain it moves, which is empty when no bucket is left. */
  lemma RehashOneIs<V>(d: Dict<V>)
    requires d.Valid() && d.Rehashing()
    ensures var b, j := d.t0.buckets, NextNonEmpty(d.t0.buckets, d.idx);
            var m := Migrate(d.t0, d.t1.value, if j < |b| then b[j] else []);
            d.RehashOne() == d.(t0 := m.0, t1 := Some(m.1), idx := if j < |b| then j + 1 else j)
  {
    hide Table.Map, Table.Placed;
  }

  lemma NothingToAdd<V>(t: Table<V>, k: Key, v: V)
    requires t.WellSized() && t.Lookup(k).Some?
    ensures t.Add(k, v) == t
  {
  }

  lemma NothingToDelete<V>(t: Table<V>, k: Key)
    requires t.WellSized() && t.Lookup(k).None?
    ensures t.Delete(k) == t
  {
  }

  /** A refused insertion leaves the key where a lookup finds it. */
  lemma ReplacedIsPresent<V>(s: Dict<V>, k: Key, v: V, canResize: bool, e: Dict<V>, r: int)
    requires s.Valid() && s.Disjoint() && MayAdd(s.Step(), k, canResize) && e.Valid()
    requires (e, r) == AddOp(s, k, v, canResize) && r <= 0
    ensures FindOp(e, k).1.Some?
  {
    hide Table.Map, Table.Placed, Table.WellSized, Table.Lookup, Dict.Valid, Dict.Step, Dict.Disjoint, Dict.Map;
    hide AddOp, FindOp, Clash;
    AddRefines(s, k, v, canResize);
    assert k in e.Map();
    FindRefines(e, k);
  }

  class Dictionary<V> {
    const init: nat
    var ht0: HashTable<V>
    var ht1: HashTable?<V>
    var rehashIndex: int
    var canRehash: bool

    ghost function Repr(): set<object>
      reads this
    {
      {this, ht0, ht0.table} + if ht1 == null then {} else {ht1, ht1.table}
    }

    /** The two tables share nothing. */
    ghost predicate Separate()
      reads this
    {
      ht1 != null ==> ht0 != ht1 && ht0.table != ht1.table
    }

    ghost function View(): Dict<V>
      reads this, Repr()
    {
      Dict(init, ht0.View(), if ht1 == null then None else Some(ht1.View()), rehashIndex, canRehash)
    }

    ghost predicate Valid()
      reads this, Repr()
    {
      && Separate()
      && ht0.Valid() && (ht1 != null ==> ht1.Valid())
      && View().Valid()
    }

    constructor (init: nat)
      requires 0 < init <= MAX_POWER
      ensures Valid() && fresh(Repr())
      ensures View() == Dict(init, EmptyTable(init), None, -1, true) && View().Map() == map[]
    {
      this.init := init;
      ht0 := new HashTable<V>(init);
      ht1 := null;
      rehashIndex := -1;
      canRehash := true;
    }

    predicate IsRehashing()
      reads this
    {
      rehashIndex >= 0
    }

    /** Move the entries of one chain over, one at a time. */
    method MoveChain(chain: seq<Entry<V>>)
      requires Separate() && ht1 != null && ht0.Valid() && ht1.Valid()
      modifies ht0`used, ht0.table, ht1`used, ht1.table
      ensures ht0.Valid() && ht1.Valid()
      ensures (ht0.View(), ht1.View()) == Migrate(old(ht0.View()), old(ht1.View()), chain)
    {
      hide Table.Map, Table.Placed;
      var j := 0;
      while j < |chain|
        invariant 0 <= j <= |chain|
        invariant ht0.Valid() && ht1.Valid()
        invariant Migrate(ht0.View(), ht1.View(), chain[j..]) == Migrate(old(ht0.View()), old(ht1.View()), chain)
      {
        assert chain[j..][0] == chain[j] && chain[j..][1..] == chain[j + 1..];
        var added := ht1.AddEntry(chain[j].key, chain[j].val);
        var deleted := ht0.DeleteEntry(chain[j].key);
        j := j + 1;
      }
    }

    /** Advance the rehash index past the next non-empty bucket and hand out its chain. */
    method NextChain() returns (entry: seq<Entry<V>>)
      requires 0 <= rehashIndex <= ht0.table.Length == ht0.size
      modifies `rehashIndex
      ensures var b := ht0.table[..]; var j := NextNonEmpty(b, old(rehashIndex));
              if j < |b| then entry == b[j] && rehashIndex == j + 1 else entry == [] && rehashIndex == j
    {
      ghost var b := ht0.table[..];
      entry := [];
      while entry == [] && rehashIndex < ht0.size
        invariant old(rehashIndex) <= rehashIndex <= ht0.size
        invariant entry == [] ==> NextNonEmpty(b, old(rehashIndex)) == NextNonEmpty(b, rehashIndex)
        invariant entry != [] ==>
          rehashIndex > 0 && NextNonEmpty(b, old(rehashIndex)) == rehashIndex - 1 && entry == b[rehashIndex - 1]
        decreases ht0.size - rehashIndex, |entry| == 0
      {
        entry := ht0.table[rehashIndex];
        rehashIndex := rehashIndex + 1;
      }
    }

    /** Find the next non-empty bucket and move it. */
    method MoveNext()
      requires Valid() && IsRehashing()
      modifies `rehashIndex, ht0`used, ht0.table, ht1`used, ht1.table
      ensures Valid() && IsRehashing() && View() == old(View()).RehashOne()
    {
      hide Table.Map, Table.Placed, Table.WellSized, Table.Valid, IndexOf, NextNonEmpty, Migrate, Moved, Dict.RehashOne;
      ghost var d := View();
      RehashOneMoves(d);
      RehashOneIs(d);
      var entry := NextChain();
      MoveChain(entry);
      assert View() == d.RehashOne();
    }

    /** Move up to `steps` buckets; drop the first table once it is empty. */
    method RehashSteps(steps: nat)
      requires Valid() && IsRehashing()
      modifies Repr()
      ensures Valid() && View() == old(View()).RehashSteps(steps)
      ensures Repr() <= old(Repr())
    {
      hide Table.Map, Table.Placed, IndexOf, Dict.RehashOne;
      if !canRehash {
        return;
      }
      var i := 0;
      while i < steps && ht0.used != 0
        modifies `rehashIndex, ht0`used, ht0.table, ht1`used, ht1.table
        invariant 0 <= i <= steps && Valid() && IsRehashing()
        invariant View().RehashLoop(steps - i) == old(View()).RehashLoop(steps)
      {
        MoveNext();
        i := i + 1;
      }
      if ht0.used == 0 {
        ht0 := ht1;
        ht1 := null;
        rehashIndex := -1;
      }
    }

    method StepIfRehashing()
      requires Valid()
      modifies Repr()
      ensures Valid() && View() == old(View()).Step()
      ensures Repr() <= old(Repr())
    {
      hide Table.Map, Table.Placed, IndexOf, Dict.RehashSteps;
      if IsRehashing() {
        RehashSteps(1);
      }
    }

    /** A second table, and the index of the first bucket to move. */
    method SecondTable(size: nat)
      requires Valid() && !IsRehashing() && 0 < size <= UINT32
      modifies `ht1, `rehashIndex
      ensures EmptyTable<V>(size).Valid() && Valid()
      ensures View() == old(View()).(t1 := Some(EmptyTable<V>(size)), idx := 0)
      ensures IsRehashing() && fresh(Repr() - old(Repr()))
    {
      hide Table.Map, Table.Placed, IndexOf, EmptyTable;
      EmptyTableValid<V>(size);
      ht1 := new HashTable<V>(size);
      rehashIndex := 0;
    }

    /** Set up a second table and take the first step. */
    method Start(size: nat)
      requires Valid() && !IsRehashing() && 0 < size <= UINT32
      modifies Repr()
      ensures Valid() && View() == old(View()).Start(size)
      ensures fresh(Repr() - old(Repr()))
    {
      hide Table.Map, Table.Placed, IndexOf, Dict.RehashSteps, Table.WellSized, Table.Valid, EmptyTable, Dict.Valid;
      SecondTable(size);
      RehashSteps(1);
    }

    /** Insert: 1, or -1 when the table inserted into already has the key. */
    method AddEntry(key: Key, val: V, canResize: bool) returns (res: int)
      requires Valid() && MayAdd(View().Step(), key, canResize)
      modifies Repr()
      ensures Valid() && (View(), res) == AddOp(old(View()), key, val, canResize)
      ensures fresh(Repr() - old(Repr()))
    {
      hide Table.Map, Table.Placed, Table.WellSized, Dict.Step, AddStepOp;
      StepIfRehashing();
      res := AddStepped(key, val, canResize);
    }

    /** The insertion proper, after the step. */
    method AddStepped(key: Key, val: V, canResize: bool) returns (res: int)
      requires Valid() && MayAdd(View(), key, canResize)
      modifies Repr()
      ensures Valid() && (View(), res) == AddStepOp(old(View()), key, val, canResize)
      ensures fresh(Repr() - old(Repr()))
    {
      hide Table.Map, Table.Placed, Table.Add, Table.Lookup, IndexOf, Dict.Start;
      ghost var s := View();
      MapIsLookup(s.t0);
      if IsRehashing() {
        MapIsLookup(s.t1.value);
        res := ht1.AddEntry(key, val);
      } else {
        if s.t0.Lookup(key).Some? {
          NothingToAdd(s.t0, key, val);
        }
        res := ht0.AddEntry(key, val);
        assert View() == s.(t0 := s.t0.Add(key, val));
        if res > 0 && NeedExpand(ht0.size, ht0.used, canResize) {
          Start(2 * ht0.size);
        }
      }
    }

    /** Look the key up: which table has it, and where in its chain; -1 when neither does. */
    method FindEntry(key: Key) returns (p: int, second: bool)
      requires Valid()
      modifies Repr()
      ensures Valid() && View() == FindOp(old(View()), key).0
      ensures p < 0 <==> FindOp(old(View()), key).1.None?
      ensures p >= 0 ==> second == (View().t0.Lookup(key).None? && View().Rehashing())
      ensures p >= 0 ==> p == Position((if second then View().t1.value else View().t0).Chain(key), key)
      ensures Repr() <= old(Repr())
    {
      hide Table.Map, Table.Placed, IndexOf, Position, Dict.Step;
      StepIfRehashing();
      p := ht0.FindEntry(key);
      second := false;
      if p < 0 && IsRehashing() {
        second := true;
        p := ht1.FindEntry(key);
      }
    }

    /** Fetch the key's value: a step, then a lookup with a step of its own. */
    method FetchValue(key: Key) returns (val: Option<V>)
      requires Valid()
      modifies Repr()
      ensures Valid() && (View(), val) == FetchOp(old(View()), key)
      ensures Repr() <= old(Repr())
    {
      hide Table.Map, Table.Placed, IndexOf, Position, Dict.Step;
      StepIfRehashing();
      var p, second := FindEntry(key);
      if p < 0 {
        return None;
      }
      val := Some((if second then ht1.table[ht1.Bucket(key.hash)] else ht0.table[ht0.Bucket(key.hash)])[p].val);
    }

    /** Delete: 1, or -1 when neither table has the key. */
    method DeleteEntry(key: Key, canResize: bool) returns (res: int)
      requires Valid()
      modifies Repr()
      ensures Valid() && (View(), res) == DeleteOp(old(View()), key, canResize)
      ensures fresh(Repr() - old(Repr()))
    {
      hide Table.Map, Table.Placed, Table.Delete, Table.Lookup, IndexOf, Dict.Step, Dict.Start;
      StepIfRehashing();
      res := DeleteStepped(key, canResize);
    }

    /** The deletion proper, after the step. */
    method DeleteStepped(key: Key, canResize: bool) returns (res: int)
      requires Valid()
      modifies Repr()
      ensures Valid() && (View(), res) == DeleteStepOp(old(View()), key, canResize)
      ensures fresh(Repr() - old(Repr()))
    {
      hide Table.Map, Table.Placed, Table.Delete, Table.Lookup, IndexOf, Dict.Start;
      ghost var s := View();
      res := DeleteFromFirst(key);
      if res > 0 {
        if !IsRehashing() && NeedShrink(init, ht0.size, ht0.used, canResize) {
          Start(ht0.size / 2);
        }
        return 1;
      } else if IsRehashing() {
        res := DeleteFromSecond(key);
        return res;
      }
      return -1;
    }

    method DeleteFromFirst(key: Key) returns (res: int)
      requires Valid()
      modifies ht0`used, ht0.table
      ensures Valid() && View() == old(View()).(t0 := old(View()).t0.Delete(key))
      ensures res == if old(View()).t0.Lookup(key).Some? then 1 else -1
      ensures res < 0 ==> View() == old(View())
    {
      hide Table.Map, Table.Placed, Table.WellSized, Table.Delete, Table.Lookup, IndexOf;
      ghost var s := View();
      MapIsLookup(s.t0);
      DeleteKeepsEmpty(s.t0, key);
      if s.t0.Lookup(key).None? {
        NothingToDelete(s.t0, key);
      }
      res := ht0.DeleteEntry(key);
    }

    method DeleteFromSecond(key: Key) returns (res: int)
      requires Valid() && IsRehashing()
      modifies ht1`used, ht1.table
      ensures Valid() && View() == old(View()).(t1 := Some(old(View()).t1.value.Delete(key)))
      ensures res == if old(View()).t1.value.Lookup(key).Some? then 1 else -1
    {
      hide Table.Map, Table.Placed, Table.WellSized, Table.Delete, Table.Lookup, IndexOf;
      MapIsLookup(View().t1.value);
      res := ht1.DeleteEntry(key);
    }

    /** Insert, or overwrite the entry that is there. */
    method Replace(key: Key, val: V, canResize: bool) returns (res: int)
      requires Valid() && View().Disjoint() && MayAdd(View().Step().Step(), key, canResize)
      modifies Repr()
      ensures res == 1 && Valid() && View() == ReplaceOp(old(View()), key, val, canResize)
      ensures fresh(Repr() - old(Repr()))
    {
      hide Table.Map, Table.Placed, Table.WellSized, Table.Valid, Dict.Step, Dict.Disjoint, ReplaceStepOp;
      StepKeepsMap(View());
      StepIfRehashing();
      res := ReplaceStepped(key, val, canResize);
    }

    method ReplaceStepped(key: Key, val: V, canResize: bool) returns (res: int)
      requires Valid() && View().Disjoint() && MayAdd(View().Step(), key, canResize)
      modifies Repr()
      ensures res == 1 && Valid() && View() == ReplaceStepOp(old(View()), key, val, canResize)
      ensures fresh(Repr() - old(Repr()))
    {
      hide Table.Map, Table.Placed, Table.WellSized, Table.Lookup, Dict.Step, Dict.Disjoint, AddOp, FindOp, Overwrite;
      ghost var s := View();
      res := AddEntry(key, val, canResize);
      if res <= 0 {
        ReplacedIsPresent(s, key, val, canResize, View(), res);
        OverwriteFound(key, val);
      }
      res := 1;
    }

    /** Look up an entry that is there and overwrite its value. */
    method OverwriteFound(key: Key, val: V)
      requires Valid() && FindOp(View(), key).1.Some?
      modifies Repr()
      ensures Valid() && View() == Overwrite(old(View()).Step(), key, val)
      ensures Repr() <= old(Repr())
    {
      hide Table.Map, Table.Placed, Table.Lookup, Table.Update, IndexOf, Position, Dict.Step;
      var p, second := FindEntry(key);
      if second {
        ht1.SetVal(key, p, val);
      } else {
        UpdateShape(View().t0, key, val);
        ht0.SetVal(key, p, val);
      }
    }

    /** Resize to the next size that fits, unless a rehash is running or nothing would change. */
    method Expand(size: nat) returns (res: int)
      requires Valid() && init <= MAX_POWER
      modifies Repr()
      ensures Valid() && (View(), res) == ExpandOp(old(View()), size)
      ensures fresh(Repr() - old(Repr()))
    {
      hide Table.Map, Table.Placed, IndexOf, Dict.Start;
      var expandSize := NextPower(init, size);
      if IsRehashing() || expandSize < ht0.used {
        return -1;
      }
      if expandSize == ht0.size {
        return -1;
      }
      Start(expandSize);
      return 1;
    }

    /** The number of entries in both tables. */
    method Size() returns (n: nat)
      requires Valid()
      ensures n == View().Size()
      ensures n == |View().Map()| <==> View().Disjoint()
    {
      n := ht0.used;
      if ht1 != null {
        n := n + ht1.used;
      }
      SizeIsCardinality(View());
    }

    /** One step of a scan: visit the cursor's bucket of the smaller table and, during a rehash, two
        buckets of the larger one, then move the cursor on. */
    method ScanOneStep(cursor: Word) returns (seen: seq<Entry<V>>, next: Word)
      requires Valid() && ScanSafe(View(), cursor)
      ensures (seen, next) == ScanOp(View(), cursor)
    {
      hide Table.Map, Table.Placed, IndexOf, Val, Next, And, Or, Not;
      var small, large := ht0, ht1;
      if IsRehashing() && ht0.size > ht1.size {
        small, large := ht1, ht0;
      }
      seen := small.ScanEntries(small.Bucket(cursor), []);
      if IsRehashing() {
        seen := large.ScanEntries(large.Bucket(cursor), seen);
        var index := Or(And(cursor, large.mask),
                        Or(And(Not(small.mask), large.mask), And(small.mask, Not(large.mask))));
        seen := large.ScanEntries(Val(index), seen);
      }
      assert seen == Visit(Small(View()), cursor) + VisitLarge(View(), cursor);
      next := Advance(cursor, small.mask);
    }
  }
}
