/** Scans of a dictionary that is used between the steps: what a whole history keeps scannable, and what a
    single resize on request makes a scan miss. */
module ScanHistory {
  import opened Words
  import opened Cursor
  import opened HashTables
  import opened DictModel
  import opened DictOps
  import opened DictRuns
  import opened DictScan
  import opened DictScanRuns
  import opened ScanMisses
  import opened Counters
  import opened Options

  // --- any history keeps power-of-two dictionaries scannable -----------------------------------------------------

  /** Every resize on request in a history doubles or halves, or is done at once. */
  ghost predicate RatioKept<V>(d: Dict<V>, ops: seq<Op<V>>)
    requires Good(d) && RunFits(d, ops)
    decreases |ops|
  {
    ops == [] ||
    ((ops[0].Expand? ==> ExpandKeepsRatio(d, ops[0].size)) &&
     (ApplyRefines(d, ops[0]); RatioKept(Apply(d, ops[0]).0, ops[1..])))
  }

  lemma ApplyInit<V>(d: Dict<V>, op: Op<V>)
    requires Good(d) && Fits(d, op)
    ensures Apply(d, op).0.init == d.init
  {
    hide Table.Map, Table.Placed, Table.WellSized, Dict.Disjoint, Dict.Map, Dict.Step, Dict.RehashSteps, Dict.Start;
    hide AddOp, ReplaceOp, FindOp, FetchOp, DeleteOp, ExpandOp, Clash, MayAdd;
    match op
    case Add(k, v, c) => AddRefines(d, k, v, c);
    case Replace(k, v, c) => ReplaceRefines(d, k, v, c);
    case Find(k) => FindShape(d, k);
    case Fetch(k) => FetchShape(d, k);
    case Delete(k, c) => DeleteRefines(d, k, c);
    case Expand(n) => ExpandRefines(d, n);
    case Rehash(n) => RehashInit(d, n);
    case SetCanRehash(b) =>
  }

  lemma RehashInit<V>(d: Dict<V>, n: nat)
    requires d.Valid() && d.Rehashing()
    ensures d.RehashSteps(n).init == d.init
  {
    hide Table.Map, Table.Placed, Dict.RehashLoop;
  }

  lemma {:induction false} RunReady<V>(d: Dict<V>, ops: seq<Op<V>>)
    requires Good(d) && RunFits(d, ops) && RatioKept(d, ops) && ReadySizes(Sizes(d)) && IsPow2(d.init)
    ensures var e := Run(d, ops).0; Good(e) && ReadySizes(Sizes(e)) && IsPow2(e.init)
    decreases |ops|
  {
    hide Good, Fits, Apply, IsPow2, ReadySizes, Sizes, ExpandKeepsRatio;
    if ops != [] {
      ApplyRefines(d, ops[0]);
      ApplyReady(d, ops[0]);
      ApplyInit(d, ops[0]);
      RunReady(Apply(d, ops[0]).0, ops[1..]);
    }
  }

  /** A scan with a history of operations before each of its steps. */
  ghost predicate UsedBetween<V>(d: Dict<V>, ds: seq<Dict<V>>, histories: seq<seq<Op<V>>>) {
    && |histories| == |ds|
    && forall i :: 0 <= i < |ds| ==> Used(Before(d, ds, i), histories[i], ds[i])
  }

  /** What the operations before step `i` started from. */
  function Before<V>(d: Dict<V>, ds: seq<Dict<V>>, i: nat): Dict<V>
    requires i < |ds|
  {
    if i == 0 then d else ds[i - 1]
  }

  ghost predicate Used<V>(d: Dict<V>, ops: seq<Op<V>>, e: Dict<V>) {
    Good(d) && RunFits(d, ops) && RatioKept(d, ops) && e == Run(d, ops).0
  }

  lemma {:induction false} EachReady<V>(d: Dict<V>, ds: seq<Dict<V>>, histories: seq<seq<Op<V>>>, i: nat)
    requires Good(d) && ReadySizes(Sizes(d)) && IsPow2(d.init) && UsedBetween(d, ds, histories) && i < |ds|
    ensures Good(ds[i]) && ReadySizes(Sizes(ds[i])) && IsPow2(ds[i].init) && ScanReady(ds[i])
    decreases i
  {
    hide Good, Used, IsPow2, ReadySizes, Sizes, ScanReady;
    var before := Before(d, ds, i);
    if i > 0 { EachReady(d, ds, histories, i - 1); }
    UsedReady(before, histories[i], ds[i]);
    GoodIsValid(ds[i]);
    ReadyBySizes(ds[i]);
  }

  lemma UsedReady<V>(d: Dict<V>, ops: seq<Op<V>>, e: Dict<V>)
    requires Used(d, ops, e) && ReadySizes(Sizes(d)) && IsPow2(d.init)
    ensures Good(e) && ReadySizes(Sizes(e)) && IsPow2(e.init)
  {
    hide Good, Run, RunFits, RatioKept, IsPow2, ReadySizes, Sizes;
    RunReady(d, ops);
  }

  lemma GoodIsValid<V>(d: Dict<V>)
    requires Good(d)
    ensures d.Valid()
  {
  }

  lemma GoodInit<V>(d: Dict<V>)
    requires Good(d)
    ensures d.init <= MAX_POWER
  {
  }

  function Fresh<V>(init: nat): Dict<V>
    requires 0 < init <= MAX_POWER
  {
    Dict(init, EmptyTable<V>(init), None, -1, true)
  }

  lemma FreshReady<V>(init: nat)
    requires 0 < init <= MAX_POWER && IsPow2(init)
    ensures var d := Fresh<V>(init); Good(d) && ReadySizes(Sizes(d)) && IsPow2(d.init)
  {
    hide IsPow2;
    EmptyDict<V>(init);
  }

  /** The cursors that the steps are given: from zero back to zero. */
  ghost predicate Cursors<V>(ds: seq<Dict<V>>, cs: seq<Word>) {
    && |cs| == |ds| + 1 && |ds| > 0
    && cs[0] == Const(false, 32) && cs[|ds|] == Const(false, 32)
    && forall i :: 0 <= i < |ds| ==> ds[i].Valid() && NextCursor(ds[i], cs[i]) == cs[i + 1]
  }

  lemma FullIfReady<V>(ds: seq<Dict<V>>, cs: seq<Word>)
    requires Cursors(ds, cs) && forall i :: 0 <= i < |ds| ==> ScanReady(ds[i])
    ensures FullScan(ds, cs)
  {
    hide ScanReady, ScanSafe, NextCursor, Visit, VisitLarge, Dict.Valid;
    forall i | 0 <= i < |ds| ensures ScanSafe(ds[i], cs[i]) { ReadyIsSafe(ds[i], cs[i]); }
  }

  /** From an empty dictionary of power-of-two size on, with any operations before and between the steps of a
      scan: no step leaves the tables, and a key that is there at every step is reported. */
  lemma HistoryScan<V>(init: nat, ds: seq<Dict<V>>, histories: seq<seq<Op<V>>>, cs: seq<Word>, k: Key)
    requires 0 < init <= MAX_POWER && IsPow2(init)
    requires UsedBetween(Fresh<V>(init), ds, histories) && Cursors(ds, cs)
    ensures FullScan(ds, cs)
    ensures (forall i :: 0 <= i < |ds| ==> k in ds[i].Map()) ==>
            exists i :: 0 <= i < |ds| && Reported(ScanOp(ds[i], cs[i]).0, k)
  {
    hide Good, IsPow2, ReadySizes, Sizes, ScanReady, UsedBetween, Reported, Dict.Map, ScanOp, FullScan, Fresh;
    FreshReady<V>(init);
    forall i | 0 <= i < |ds| ensures ScanReady(ds[i]) { EachReady(Fresh<V>(init), ds, histories, i); }
    FullIfReady(ds, cs);
    if forall i :: 0 <= i < |ds| ==> k in ds[i].Map() {
      ScanMissesNothing(ds, cs, k);
    }
  }

  // --- a resize that loses a key ---------------------------------------------------------------------------------

  function Holding<V>(k: Key, v: V): Dict<V> {
    EmptyWell<V>(20);
    Dict(20, EmptyTable<V>(20).Add(k, v), None, -1, true)
  }

  lemma EmptyWell<V>(size: nat)
    requires 0 < size <= UINT32
    ensures EmptyTable<V>(size).WellSized()
  {
    EmptyTableValid<V>(size);
  }

  /** A dictionary of 20 buckets with one key, and the same after a request for 40: the rehash is over at once. */
  lemma GrowthAtOnce<V>(k: Key, v: V)
    ensures var d := Holding(k, v);
            && Good(d) && !d.Rehashing() && |d.t0.buckets| == 20 && d.Map() == map[k := v]
            && var e := ExpandOp(d, 40).0;
               Good(e) && !e.Rehashing() && |e.t0.buckets| == 40 && e.Map() == map[k := v]
  {
    hide Table.Map, Table.Placed, Table.Lookup, Table.Add, Dict.RehashSteps, Position, Val, ToBits;
    EmptyTableValid<V>(20);
    AddIsMapAdd(EmptyTable<V>(20), k, v);
    var d := Holding(k, v);
    assert map[][k := v] == map[k := v];
    HoldsOne(k, v);
    ExpandRefines(d, 40);
    assert Target(20, 40) == 40;
    StartEnds(d, 40);
    StartSizes(d, 40);
  }

  lemma HoldsOne<V>(k: Key, v: V)
    ensures Holding(k, v).t0.used == 1 && |Holding(k, v).t0.buckets| == 20
  {
    EmptyTableValid<V>(20);
    MapIsLookup(EmptyTable<V>(20));
  }

  /** A rehash of a single entry is over with its first step. */
  lemma StartEnds<V>(d: Dict<V>, size: nat)
    requires d.Valid() && !d.Rehashing() && d.can && d.t0.used <= 1 && 0 < size <= UINT32
    ensures !d.Start(size).Rehashing()
  {
    hide Table.Map, Table.Placed, Dict.RehashSteps;
    EmptyTableValid<V>(size);
    RehashEnds(d.(t1 := Some(EmptyTable(size)), idx := 0), 1);
  }

  /** A step of a quiet dictionary reports a key only when it visits the key's bucket. */
  lemma ReportedInBucket<V>(d: Dict<V>, c: Word, k: Key)
    requires d.Valid() && !d.Rehashing() && Reported(ScanOp(d, c).0, k)
    ensures And(c, d.t0.mask) == And(k.hash, d.t0.mask)
  {
    hide Table.Map, Val, And;
    var t := d.t0;
    var b := t.buckets[t.Index(c)];
    assert ScanOp(d, c).0 == b + [];
    var i :| 0 <= i < |b + []| && (b + [])[i].key == k;
    assert b[i].key == k && t.Index(b[i].key.hash) == t.Index(c);
    ValInjective(And(c, t.mask), And(k.hash, t.mask));
  }

  lemma NotReported<V>(d: Dict<V>, c: Word, k: Key)
    requires d.Valid() && !d.Rehashing() && And(c, d.t0.mask) != And(k.hash, d.t0.mask)
    ensures !Reported(ScanOp(d, c).0, k)
  {
    hide ScanOp, Reported, Dict.Valid, And;
    if Reported(ScanOp(d, c).0, k) { ReportedInBucket(d, c, k); }
  }

  /** The steps of a scan find a dictionary of 20 buckets first and the same with 40 from then on, no rehash
      running at any of them. */
  ghost predicate GrownAfterOne<V>(ds: seq<Dict<V>>, k: Key, v: V) {
    && |ds| > 0 && ds[0] == Holding(k, v)
    && forall i :: 0 < i < |ds| ==> ds[i] == ExpandOp(GoodHolding(k, v), 40).0
  }

  ghost function GoodHolding<V>(k: Key, v: V): (d: Dict<V>)
    ensures d == Holding(k, v) && Good(d)
  {
    GrowthAtOnce(k, v);
    Holding(k, v)
  }

  /** What it is before and after. */
  lemma Grown<V>(k: Key, v: V) returns (d: Dict<V>, e: Dict<V>)
    ensures d == GoodHolding(k, v) && d.init <= MAX_POWER && d.Valid() && e == ExpandOp(d, 40).0 && e.Valid()
    ensures !d.Rehashing() && !e.Rehashing() && d.t0.mask == Word20() && Val(e.t0.mask) == 39
    ensures k in d.Map() && k in e.Map()
  {
    hide Val, Dict.Map, Dict.Valid, ExpandOp, Holding, GoodHolding, Good;
    GrowthAtOnce(k, v);
    d := GoodHolding(k, v);
    GoodIsValid(d);
    GoodInit(d);
    e := ExpandOp(d, 40).0;
    GoodIsValid(e);
    MaskIs(d, 20);
    MaskIs(e, 40);
    ValInjective(d.t0.mask, Word20());
  }

  /** Its one key, present throughout, is reported by no step if its hash is 16. */
  lemma GrowthLosesKey<V>(ds: seq<Dict<V>>, cs: seq<Word>, k: Key, v: V)
    requires k.hash == OneBit(32, 4) && GrownAfterOne(ds, k, v) && Cursors(ds, cs)
    requires forall i :: 0 < i < |ds| ==> cs[i] != Const(false, 32)
    ensures forall i :: 0 <= i < |ds| ==> k in ds[i].Map() && !ds[i].Rehashing() && !Reported(ScanOp(ds[i], cs[i]).0, k)
  {
    hide Val, ScanOp, Reported, Dict.Map, Dict.Valid, ExpandOp, Holding, GoodHolding, Next, And, Good, ResizedScan;
    hide Visited;
    var d, e := Grown(k, v);
    var m1 := e.t0.mask;
    assert forall i :: 0 <= i < |ds| ==> ds[i] == if i == 0 then d else e;
    ScanGrows(ds, cs, Word20(), m1);
    SixteenMissed(cs, m1);
    forall i | 0 <= i < |ds| ensures k in ds[i].Map() && !ds[i].Rehashing() && !Reported(ScanOp(ds[i], cs[i]).0, k) {
      NotVisited(cs, Word20(), m1, OneBit(32, 4), i);
      NotReported(ds[i], cs[i], k);
    }
  }

  lemma NotVisited(cs: seq<seq<bool>>, m0: Word, m1: Word, h: Word, i: nat)
    requires i < |cs| - 1 && |cs[i]| == 32 && !Visited(cs, m0, m1, 1, h, |cs| - 1)
    ensures And(cs[i], MaskAt(m0, m1, 1, i)) != And(h, MaskAt(m0, m1, 1, i))
  {
    hide And;
    assert !Visits(cs, m0, m1, 1, h, i);
  }

  lemma MaskIs<V>(d: Dict<V>, n: nat)
    requires d.Valid() && |d.t0.buckets| == n
    ensures Val(d.t0.mask) == n - 1
  {
    hide Val;
  }

  lemma ScanGrows<V>(ds: seq<Dict<V>>, cs: seq<Word>, m0: Word, m1: Word)
    requires Cursors(ds, cs) && forall i :: 0 < i < |ds| ==> cs[i] != Const(false, 32)
    requires forall i :: 0 <= i < |ds| ==> !ds[i].Rehashing() && ds[i].t0.mask == MaskAt(m0, m1, 1, i)
    ensures ResizedScan(cs, m0, m1, 1)
  {
    hide Next, Dict.Valid, Const;
    forall i | 0 <= i < |cs| - 1 ensures Follows(cs[i], MaskAt(m0, m1, 1, i), cs[i + 1]) {
      assert NextCursor(ds[i], cs[i]) == cs[i + 1];
    }
  }

  /** There is such a scan. */
  lemma GrowthHappens<V>(k: Key, v: V) returns (ds: seq<Dict<V>>, cs: seq<Word>)
    requires k.hash == OneBit(32, 4)
    ensures GrownAfterOne(ds, k, v) && Cursors(ds, cs)
    ensures forall i :: 0 <= i < |ds| ==> k in ds[i].Map() && !ds[i].Rehashing() && !Reported(ScanOp(ds[i], cs[i]).0, k)
  {
    hide Val, ScanOp, Reported, Dict.Map, Dict.Valid, ExpandOp, Holding, GoodHolding, Next, And, Good, Trail, IsZero;
    hide PassedOver, Cursors, ResizedAfterOne;
    var d, e := Grown(k, v);
    var m1 := e.t0.mask;
    var scan := FirstScan(m1);
    cs := seq(|scan|, i requires 0 <= i < |scan| => Cut32(scan[i]));
    ds := seq(|scan| - 1, i => if i == 0 then d else e);
    ScanOfDicts(ds, cs, scan, m1);
    GrowthLosesKey(ds, cs, k, v);
  }

  lemma FirstScan(m1: Word) returns (scan: seq<seq<bool>>)
    requires Val(m1) == 39
    ensures |scan| > 2 && ResizedScan(scan, Word20(), m1, 1) && forall i :: 0 <= i < |scan| ==> |scan[i]| == 32
  {
    hide Val, Next, And, Rank, Trail, IsZero, ResizedAfterOne;
    DoublingPasses(Word20(), m1, 2, 4);
    ResizedRight(Word20(), m1);
    scan := ResizedAfterOne(Word20(), m1);
  }

  function Cut32(w: seq<bool>): (r: Word)
    ensures |w| == 32 ==> r == w
  {
    if |w| == 32 then w else Const(false, 32)
  }

  lemma ScanOfDicts<V>(ds: seq<Dict<V>>, cs: seq<Word>, scan: seq<seq<bool>>, m1: Word)
    requires ResizedScan(scan, Word20(), m1, 1) && |cs| == |scan| == |ds| + 1
    requires forall i :: 0 <= i < |cs| ==> cs[i] == scan[i]
    requires forall i :: 0 <= i < |ds| ==>
        ds[i].Valid() && !ds[i].Rehashing() && ds[i].t0.mask == MaskAt(Word20(), m1, 1, i)
    ensures Cursors(ds, cs) && forall i :: 0 < i < |ds| ==> cs[i] != Const(false, 32)
  {
    hide Next, Dict.Valid, Const;
    forall i | 0 <= i < |ds| ensures NextCursor(ds[i], cs[i]) == cs[i + 1] {
      assert Follows(scan[i], MaskAt(Word20(), m1, 1, i), scan[i + 1]);
    }
    forall i | 0 < i < |ds| ensures cs[i] != Const(false, 32) { assert !IsZero(scan[i]); }
    assert IsZero(scan[0]) && IsZero(scan[|ds|]);
  }
}
