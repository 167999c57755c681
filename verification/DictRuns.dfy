/** Replacing, resizing on request, and whole histories of operations. */
module DictRuns {
  import opened Words
  import opened HashTables
  import opened DictModel
  import opened DictOps
  import opened Counters
  import opened Options

  // --- replace -----------------------------------------------------------------------------------------

  /** Insert; when the key was there, look it up again and overwrite the entry found. */
  ghost function ReplaceStepOp<V>(s: Dict<V>, k: Key, v: V, canResize: bool): Dict<V>
    requires s.Valid() && s.Disjoint() && MayAdd(s.Step(), k, canResize)
  {
    hide Table.Map, Table.Placed, Table.WellSized, Dict.Step, Dict.Disjoint, AddOp;
    AddRefines(s, k, v, canResize);
    var (e, r) := AddOp(s, k, v, canResize);
    if r > 0 then e else Overwrite(e.Step(), k, v)
  }

  ghost function ReplaceOp<V>(d: Dict<V>, k: Key, v: V, canResize: bool): Dict<V>
    requires d.Valid() && d.Disjoint() && MayAdd(d.Step().Step(), k, canResize)
  {
    StepKeepsMap(d);
    ReplaceStepOp(d.Step(), k, v, canResize)
  }

  ghost function Overwrite<V>(s: Dict<V>, k: Key, v: V): Dict<V>
    requires s.Valid()
  {
    if s.t0.Lookup(k).None? && s.Rehashing() then s.(t1 := Some(s.t1.value.Update(k, v)))
    else s.(t0 := s.t0.Update(k, v))
  }

  lemma UpdateShape<V>(t: Table<V>, k: Key, v: V)
    requires t.WellSized()
    ensures |t.Update(k, v).buckets| == |t.buckets|
    ensures forall i :: 0 <= i < |t.buckets| && t.buckets[i] == [] ==> t.Update(k, v).buckets[i] == []
  {
    hide IndexOf, Position;
  }

  lemma UnionUpdate<V>(a: map<Key, V>, b: map<Key, V>, k: Key, v: V)
    ensures k in a ==> b + a[k := v] == (b + a)[k := v]
    ensures k !in a ==> b[k := v] + a == (b + a)[k := v]
  {
  }

  lemma OverwriteRefines<V>(s: Dict<V>, k: Key, v: V)
    requires s.Valid() && s.Disjoint() && k in s.Map()
    ensures var e := Overwrite(s, k, v);
            e.Valid() && e.Disjoint() && e.init == s.init && e.can == s.can && e.Map() == s.Map()[k := v]
  {
    hide Table.Map, Table.Placed, Table.WellSized, Table.Update, Table.Lookup;
    MapIsLookup(s.t0);
    UpdateIsMapUpdate(s.t0, k, v);
    UpdateShape(s.t0, k, v);
    if s.Rehashing() {
      EitherTable(s, k);
      MapIsLookup(s.t1.value);
      UpdateIsMapUpdate(s.t1.value, k, v);
      UnionUpdate(s.t0.Map(), s.t1.value.Map(), k, v);
    }
  }

  lemma ReplaceStepRefines<V>(s: Dict<V>, k: Key, v: V, canResize: bool)
    requires s.Valid() && s.Disjoint() && MayAdd(s.Step(), k, canResize)
    ensures var e := ReplaceStepOp(s, k, v, canResize);
            && e.Valid() && e.init == s.init && e.can == s.can
            && (e.Disjoint() <==> !Clash(s, k))
            && e.Map() == if Clash(s, k) then s.Map() else s.Map()[k := v]
  {
    hide Table.Map, Table.Placed, Table.WellSized, Dict.Step, Dict.Disjoint, Dict.Map, AddOp, Clash, Overwrite;
    AddRefines(s, k, v, canResize);
    var (e, r) := AddOp(s, k, v, canResize);
    if r <= 0 {
      StepKeepsMap(e);
      OverwriteRefines(e.Step(), k, v);
    }
  }

  /** Replacing is a map update unless the insertion inside it clashes; then the old value stays. */
  lemma ReplaceRefines<V>(d: Dict<V>, k: Key, v: V, canResize: bool)
    requires d.Valid() && d.Disjoint() && MayAdd(d.Step().Step(), k, canResize)
    ensures var e := ReplaceOp(d, k, v, canResize);
            && e.Valid() && e.init == d.init && e.can == d.can
            && (e.Disjoint() <==> !Clash(d.Step(), k))
            && e.Map() == if Clash(d.Step(), k) then d.Map() else d.Map()[k := v]
  {
    hide Table.Map, Table.Placed, Table.WellSized, Dict.Step, Dict.Disjoint, Dict.Map, Clash, ReplaceStepOp;
    StepKeepsMap(d);
    ReplaceStepRefines(d.Step(), k, v, canResize);
  }

  // --- resizing on request -----------------------------------------------------------------------------

  const MAX_POWER: nat := 0x8000_0000

  /** The smallest initial size times a power of two that is at least `num`. */
  method NextPower(init: nat, num: nat) returns (i: nat)
    requires 0 < init <= MAX_POWER
    ensures num >= MAX_POWER ==> i == MAX_POWER
    ensures num < MAX_POWER ==> i == NextPowerOf(init, num)
  {
    if num >= MAX_POWER {
      return MAX_POWER;
    }
    i := init;
    while true
      invariant 0 < i
      invariant NextPowerOf(i, num) == NextPowerOf(init, num)
      decreases num - i
    {
      if i >= num {
        break;
      } else {
        i := i * 2;
      }
    }
  }

  function NextPowerOf(i: nat, num: nat): (p: nat)
    requires 0 < i
    ensures p >= num && p >= i
    ensures i < num ==> p < 2 * num
    decreases num - i
  {
    if i >= num then i else NextPowerOf(2 * i, num)
  }

  /** It is the initial size times a power of two, and the smallest such that is large enough. */
  lemma {:induction false} NextPowerLeast(i: nat, num: nat, k: nat)
    requires 0 < i
    ensures exists e: nat :: NextPowerOf(i, num) == i * Pow2(e)
    ensures i * Pow2(k) >= num ==> NextPowerOf(i, num) <= i * Pow2(k)
    decreases num - i
  {
    if i >= num {
      assert NextPowerOf(i, num) == i * Pow2(0);
      TimesAtLeastOne(i, Pow2(k));
    } else {
      NextPowerLeast(2 * i, num, if k == 0 then 0 else k - 1);
      var e: nat :| NextPowerOf(2 * i, num) == 2 * i * Pow2(e);
      TimesTwo(i, Pow2(e));
      assert i * Pow2(e + 1) == 2 * i * Pow2(e);
      if k > 0 { TimesTwo(i, Pow2(k - 1)); }
    }
  }

  lemma TimesAtLeastOne(i: nat, p: nat)
    requires p > 0
    ensures i * p >= i
  {
  }

  lemma TimesTwo(i: nat, p: nat)
    ensures i * (2 * p) == 2 * i * p
  {
  }

  function Target(init: nat, size: nat): (t: nat)
    requires 0 < init <= MAX_POWER
    ensures 0 < t < UINT32
  {
    if size >= MAX_POWER then MAX_POWER else NextPowerOf(init, size)
  }

  /** The sizes of the two tables, zero for a second table that is not there. */
  ghost function Sizes<V>(d: Dict<V>): (nat, nat) {
    (|d.t0.buckets|, if d.t1.Some? then |d.t1.value.buckets| else 0)
  }

  lemma RehashOneSizes<V>(d: Dict<V>)
    requires d.Valid() && d.Rehashing()
    ensures Sizes(d.RehashOne()) == Sizes(d)
  {
    hide Table.Map, Table.Placed, Migrate;
  }

  lemma {:induction false} RehashLoopSizes<V>(d: Dict<V>, n: nat)
    requires d.Valid() && d.Rehashing()
    ensures Sizes(d.RehashLoop(n)) == Sizes(d)
    decreases n
  {
    hide Table.Map, Table.Placed, Dict.RehashOne;
    if n > 0 && d.t0.used > 0 {
      RehashOneMoves(d);
      RehashOneSizes(d);
      RehashLoopSizes(d.RehashOne(), n - 1);
    }
  }

  /** Rehashing keeps both sizes until the first table goes. */
  lemma RehashSizes<V>(d: Dict<V>, n: nat)
    requires d.Valid() && d.Rehashing()
    ensures var e := d.RehashSteps(n);
            Sizes(e) == if e.Rehashing() then Sizes(d) else (Sizes(d).1, 0)
  {
    hide Table.Map, Table.Placed, Dict.RehashLoop;
    RehashLoopSizes(d, n);
  }

  lemma StartSizes<V>(d: Dict<V>, size: nat)
    requires d.Valid() && !d.Rehashing() && 0 < size <= UINT32
    ensures var e := d.Start(size);
            Sizes(e) == if e.Rehashing() then (|d.t0.buckets|, size) else (size, 0)
  {
    hide Table.Map, Table.Placed, Dict.RehashSteps;
    EmptyTableValid<V>(size);
    RehashSizes(d.(t1 := Some(EmptyTable(size)), idx := 0), 1);
  }

  ghost function ExpandOp<V>(d: Dict<V>, size: nat): (Dict<V>, int)
    requires d.Valid() && d.init <= MAX_POWER
  {
    var t := Target(d.init, size);
    if d.Rehashing() || t < d.t0.used || t == |d.t0.buckets| then (d, -1) else (d.Start(t), 1)
  }

  /** Refused while rehashing, for a size that does not hold the entries and for the size it has: then nothing
      changes. Otherwise the target becomes the size of the second table, or of the only one if moving was over
      at once. The map stays as it was. */
  lemma ExpandRefines<V>(d: Dict<V>, size: nat)
    requires d.Valid() && d.Disjoint() && d.init <= MAX_POWER
    ensures var (e, r) := ExpandOp(d, size); var t := Target(d.init, size);
            && (r == -1 <==> d.Rehashing() || t < |d.Map()| || t == |d.t0.buckets|) && (r == -1 || r == 1)
            && (r == -1 ==> e == d)
            && (r == 1 ==> Sizes(e) == if e.Rehashing() then (|d.t0.buckets|, t) else (t, 0))
            && e.Valid() && e.Disjoint() && e.init == d.init && e.can == d.can && e.Map() == d.Map()
  {
    hide Table.Map, Table.Placed, Table.WellSized, Dict.Disjoint, Dict.Map, Dict.Start;
    var t := Target(d.init, size);
    SizeIsCardinality(d);
    if !(d.Rehashing() || t < d.t0.used || t == |d.t0.buckets|) {
      StartKeepsMap(d, t);
      StartSizes(d, t);
    }
  }

  // --- the fill ratio is computed in 32 bits -----------------------------------------------------------

  /** The intended test: fewer than a tenth of the buckets' worth of entries. */
  predicate Sparse(size: nat, used: nat) { used * 100 < size * HASHTABLE_MIN_FILL }

  lemma DivLess(a: nat, b: nat, c: nat)
    requires b > 0
    ensures a / b < c <==> a < b * c
  {
    var q, r := a / b, a % b;
    assert a == b * q + r && 0 <= r < b;
    if q < c { MulMono(b, q + 1, c); } else { MulMono(b, c, q); }
  }

  lemma MulMono(b: nat, x: nat, y: nat)
    requires x <= y
    ensures b * x <= b * y
  {
  }

  /** The shrink test is the intended one exactly when the table has its initial size, is sparse, or the
      wrapped product is no smaller than a tenth of the buckets' worth; up to 42949672 entries it always is ... */
  lemma ShrinkTestExact(init: nat, size: nat, used: nat)
    requires size > 0
    ensures (NeedShrink(init, size, used, true) <==> size > init && Sparse(size, used)) <==>
            (size <= init || Sparse(size, used) || Wrap(used * 100) >= size * HASHTABLE_MIN_FILL)
    ensures used * 100 < UINT32 ==> (NeedShrink(init, size, used, true) <==> size > init && Sparse(size, used))
  {
    WrapBelow(used * 100);
    DivLess(Wrap(used * 100), size, HASHTABLE_MIN_FILL);
  }

  lemma WrapBelow(n: nat)
    ensures Wrap(n) <= n && (n < UINT32 ==> Wrap(n) == n)
  {
  }

  /** ... and with one entry more a table that holds more entries than buckets is asked to shrink. */
  lemma ShrinkTestWraps()
    ensures NeedShrink(20, 41943040, 42949673, true) && !Sparse(41943040, 42949673)
  {
  }

  // --- whole histories ---------------------------------------------------------------------------------

  datatype Op<V> =
    | Add(key: Key, val: V, canResize: bool)
    | Replace(key: Key, val: V, canResize: bool)
    | Find(key: Key)
    | Fetch(key: Key)
    | Delete(key: Key, canResize: bool)
    | Expand(size: nat)
    | Rehash(steps: nat)
    | SetCanRehash(can: bool)

  /** What an operation tells its caller about the map; the code of `expand` says nothing about it. */
  datatype Answer<V> = Code(code: int) | Found(entry: Option<V>) | Done

  ghost predicate Fits<V>(d: Dict<V>, op: Op<V>)
    requires d.Valid()
  {
    match op
    case Add(k, _, c) => MayAdd(d.Step(), k, c) && !Clash(d, k)
    case Replace(k, _, c) => MayAdd(d.Step().Step(), k, c) && !Clash(d.Step(), k)
    case Rehash(_) => d.Rehashing()
    case _ => true
  }

  ghost predicate Good<V>(d: Dict<V>) {
    d.Valid() && d.Disjoint() && d.init <= MAX_POWER
  }

  /** The operations that change the entries ... */
  ghost function ApplyChange<V>(d: Dict<V>, op: Op<V>): (Dict<V>, Answer<V>)
    requires Good(d) && Fits(d, op) && (op.Add? || op.Replace? || op.Delete?)
  {
    hide Table.Map, Table.Placed, Table.WellSized, Dict.Valid, Dict.Disjoint, Dict.Step, Clash, AddOp, DeleteOp;
    hide ReplaceOp, MayAdd;
    match op
    case Add(k, v, c) => var (e, r) := AddOp(d, k, v, c); (e, Code(r))
    case Replace(k, v, c) => (ReplaceOp(d, k, v, c), Done)
    case Delete(k, c) => var (e, r) := DeleteOp(d, k, c); (e, Code(r))
  }

  /** ... and those that do not. */
  ghost function ApplyOther<V>(d: Dict<V>, op: Op<V>): (Dict<V>, Answer<V>)
    requires Good(d) && Fits(d, op) && !(op.Add? || op.Replace? || op.Delete?)
  {
    hide Table.Map, Table.Placed, Table.WellSized, Dict.Valid, Dict.Disjoint, Dict.Step, Dict.RehashSteps, FindOp;
    hide FetchOp, ExpandOp;
    match op
    case Find(k) => var (e, r) := FindOp(d, k); (e, Found(r))
    case Fetch(k) => var (e, r) := FetchOp(d, k); (e, Found(r))
    case Expand(n) => (ExpandOp(d, n).0, Done)
    case Rehash(n) => (d.RehashSteps(n), Done)
    case SetCanRehash(b) => (d.(can := b), Done)
  }

  ghost function Apply<V>(d: Dict<V>, op: Op<V>): (Dict<V>, Answer<V>)
    requires Good(d) && Fits(d, op)
  {
    hide Good, Fits;
    if op.Add? || op.Replace? || op.Delete? then ApplyChange(d, op) else ApplyOther(d, op)
  }

  /** The same operations on a map. */
  function ApplyMap<V>(m: map<Key, V>, op: Op<V>): (map<Key, V>, Answer<V>) {
    match op
    case Add(k, v, _) => (Inserted(m, k, v), Code(if k in m then -1 else 1))
    case Replace(k, v, _) => (m[k := v], Done)
    case Find(k) => (m, Found(if k in m then Some(m[k]) else None))
    case Fetch(k) => (m, Found(if k in m then Some(m[k]) else None))
    case Delete(k, _) => (m - {k}, Code(if k in m then 1 else -1))
    case Expand(_) => (m, Done)
    case Rehash(_) => (m, Done)
    case SetCanRehash(_) => (m, Done)
  }

  lemma ApplyRefines<V>(d: Dict<V>, op: Op<V>)
    requires Good(d) && Fits(d, op)
    ensures var (e, a) := Apply(d, op);
            Good(e) && (e.Map(), a) == ApplyMap(d.Map(), op)
  {
    hide Table.Map, Table.Placed, Table.WellSized, Dict.Disjoint, Dict.Map, Dict.Start, Dict.Step, Dict.RehashSteps;
    hide AddOp, ReplaceOp, FindOp, FetchOp, DeleteOp, ExpandOp, Clash;
    match op
    case Add(k, v, c) => AddRefines(d, k, v, c);
    case Replace(k, v, c) => ReplaceRefines(d, k, v, c);
    case Find(k) => FindRefines(d, k); FindShape(d, k);
    case Fetch(k) => FetchRefines(d, k); FetchShape(d, k);
    case Delete(k, c) => DeleteRefines(d, k, c);
    case Expand(n) => ExpandRefines(d, n);
    case Rehash(n) => RehashKeepsMap(d, n);
    case SetCanRehash(b) => SetCanKeepsMap(d, b);
  }

  lemma FindShape<V>(d: Dict<V>, k: Key)
    requires d.Valid()
    ensures FindOp(d, k).0.init == d.init
  {
  }

  lemma FetchShape<V>(d: Dict<V>, k: Key)
    requires d.Valid()
    ensures FetchOp(d, k).0.init == d.init
  {
  }

  lemma SetCanKeepsMap<V>(d: Dict<V>, b: bool)
    requires d.Valid() && d.Disjoint()
    ensures d.(can := b).Valid() && d.(can := b).Disjoint() && d.(can := b).Map() == d.Map()
  {
    hide Table.Map, Table.Placed, Table.WellSized;
  }

  /** The operations of a history all fit the states they meet. */
  ghost predicate RunFits<V>(d: Dict<V>, ops: seq<Op<V>>)
    requires Good(d)
    decreases |ops|
  {
    ops == [] || (Fits(d, ops[0]) && (ApplyRefines(d, ops[0]); RunFits(Apply(d, ops[0]).0, ops[1..])))
  }

  ghost function Run<V>(d: Dict<V>, ops: seq<Op<V>>): (Dict<V>, seq<Answer<V>>)
    requires Good(d) && RunFits(d, ops)
    decreases |ops|
  {
    if ops == [] then (d, [])
    else
      ApplyRefines(d, ops[0]);
      var (e, a) := Apply(d, ops[0]);
      var (f, rest) := Run(e, ops[1..]);
      (f, [a] + rest)
  }

  function RunMap<V>(m: map<Key, V>, ops: seq<Op<V>>): (map<Key, V>, seq<Answer<V>>)
    decreases |ops|
  {
    if ops == [] then (m, [])
    else
      var (e, a) := ApplyMap(m, ops[0]);
      var (f, rest) := RunMap(e, ops[1..]);
      (f, [a] + rest)
  }

  /** Over any history without a clash, whatever rehashing goes on meanwhile, the dictionary gives every
      answer a map would give, ends up standing for the map the map operations lead to, and counts its
      entries right. */
  lemma {:induction false} HistoryRefinesMap<V>(d: Dict<V>, ops: seq<Op<V>>)
    requires Good(d) && RunFits(d, ops)
    ensures var (e, answers) := Run(d, ops);
            Good(e) && (e.Map(), answers) == RunMap(d.Map(), ops) && e.Size() == |e.Map()|
    decreases |ops|
  {
    hide Table.Map, Table.Placed, Table.WellSized, Dict.Disjoint, Dict.Map, Dict.Start, Dict.Step, Dict.RehashSteps;
    hide Dict.Valid, Apply, ApplyMap, Fits;
    SizeIsCardinality(d);
    if ops != [] {
      ApplyRefines(d, ops[0]);
      HistoryRefinesMap(Apply(d, ops[0]).0, ops[1..]);
    }
  }

  /** Every history starts from an empty dictionary of the initial size. */
  lemma EmptyDict<V>(init: nat)
    requires 0 < init <= MAX_POWER
    ensures var d := Dict(init, EmptyTable<V>(init), None, -1, true);
            Good(d) && d.Map() == map[]
  {
    EmptyTableValid<V>(init);
  }
}
