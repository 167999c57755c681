/** Scanning the dictionary with a cursor while it is used, grown and shrunk between the steps. */
module DictScan {
  import opened Words
  import opened Cursor
  import opened HashTables
  import opened DictModel

  // --- the second bucket of a step taken during a rehash ---------------------------------------------

  /** The bits in which two masks differ. */
  function Differing(m0: seq<bool>, m1: seq<bool>): (r: seq<bool>)
    requires |m0| == |m1|
    ensures |r| == |m0| && forall i :: 0 <= i < |r| ==> r[i] == (m0[i] != m1[i])
  {
    Or(And(Not(m0), m1), And(m0, Not(m1)))
  }

  /** The word that selects the second bucket of the larger table, `m1` being its mask. */
  function Second(c: seq<bool>, m0: seq<bool>, m1: seq<bool>): (r: seq<bool>)
    requires |c| == |m0| == |m1|
    ensures |r| == |c|
  {
    Or(And(c, m1), Differing(m0, m1))
  }

  ghost predicate Within(a: seq<bool>, b: seq<bool>)
    requires |a| == |b|
  {
    forall i :: 0 <= i < |a| && a[i] ==> b[i]
  }

  lemma {:induction false} ValMonotone(a: seq<bool>, b: seq<bool>)
    requires |a| == |b| && Within(a, b)
    ensures Val(a) <= Val(b)
  {
    if a != [] {
      assert forall i :: 0 <= i < |a| - 1 ==> a[1..][i] == a[i + 1] && b[1..][i] == b[i + 1];
      ValMonotone(a[1..], b[1..]);
    }
  }

  lemma DoubledMask(m0: seq<bool>, m1: seq<bool>)
    requires |m0| == |m1| > 0 && Val(m1) == 2 * Val(m0) + 1
    ensures !m0[|m0| - 1] && m1[0] && forall i :: 0 < i < |m1| ==> m1[i] == m0[i - 1]
  {
    var n := |m0|;
    var v := [true] + m0[..n - 1];
    var w := [true] + m0;
    assert w[1..] == m0 && Val(w) == Val(m1);
    assert w == v + [m0[n - 1]];
    ValAppend(v, m0[n - 1]);
    ValBound(m1);
    ValInjective(v, m1);
  }

  lemma SecondWithin(c: seq<bool>, m0: seq<bool>, m1: seq<bool>)
    requires |c| == |m0| == |m1| && Within(m0, m1)
    ensures Val(Second(c, m0, m1)) <= Val(m1)
  {
    ValMonotone(Second(c, m0, m1), m1);
  }

  lemma SecondOfOnes(m0: seq<bool>, m1: seq<bool>)
    requires |m0| == |m1| && Val(Second(Const(true, |m0|), m0, m1)) <= Val(m1)
    ensures Within(m0, m1)
  {
    var s := Second(Const(true, |m0|), m0, m1);
    ValMonotone(m1, s);
    ValInjective(s, m1);
  }

  lemma ContiguousWithin(m0: seq<bool>, m1: seq<bool>)
    requires |m0| == |m1| > 0 && Contiguous(m0)
    requires m1[0] && forall i :: 0 < i < |m1| ==> m1[i] == m0[i - 1]
    ensures Within(m0, m1)
  {
  }

  /** The second bucket exists for every cursor exactly when the smaller size is a power of two. */
  lemma SecondInTable(m0: seq<bool>, m1: seq<bool>)
    requires |m0| == |m1| > 0 && Val(m1) == 2 * Val(m0) + 1
    ensures (forall c: seq<bool> :: |c| == |m0| ==> Val(Second(c, m0, m1)) <= Val(m1)) <==> Contiguous(m0)
  {
    hide Second, Contiguous, Within, Val;
    DoubledMask(m0, m1);
    if Contiguous(m0) {
      ContiguousWithin(m0, m1);
      forall c: seq<bool> | |c| == |m0| ensures Val(Second(c, m0, m1)) <= Val(m1) {
        SecondWithin(c, m0, m1);
      }
    } else if Val(Second(Const(true, |m0|), m0, m1)) <= Val(m1) {
      SecondOfOnes(m0, m1);
      WithinShift(m0, m1);
    }
  }

  lemma WithinShift(m0: seq<bool>, m1: seq<bool>)
    requires |m0| == |m1| && Within(m0, m1) && forall i :: 0 < i < |m1| ==> m1[i] == m0[i - 1]
    ensures Contiguous(m0)
  {
    forall i, j | 0 <= i < j < |m0| && m0[j] ensures m0[i] {
      Downward(m0, m1, i, j);
    }
  }

  lemma {:induction false} Downward(m0: seq<bool>, m1: seq<bool>, i: nat, j: nat)
    requires |m0| == |m1| && Within(m0, m1) && forall i :: 0 < i < |m1| ==> m1[i] == m0[i - 1]
    requires i <= j < |m0| && m0[j]
    ensures m0[i]
    decreases j - i
  {
    if i < j { Downward(m0, m1, i, j - 1); }
  }

  /** With the sizes the repository really uses, 20 * 2^k growing to 40 * 2^k, the very first step of a
      scan asks for bucket 52 * 2^k, which does not exist. */
  lemma {:induction false} RealSizesOverrun(k: nat, m0: seq<bool>, m1: seq<bool>)
    requires |m0| == |m1| && Val(m0) == 20 * Pow2(k) - 1 && Val(m1) == 40 * Pow2(k) - 1
    ensures Val(Second(Const(false, |m0|), m0, m1)) == 52 * Pow2(k)
  {
    var z := Const(false, |m0|);
    assert Second(z, m0, m1) == Differing(m0, m1);
    DifferingValue(k, m0, m1);
  }

  lemma {:induction false} DifferingValue(k: nat, m0: seq<bool>, m1: seq<bool>)
    requires |m0| == |m1| && Val(m0) == 20 * Pow2(k) - 1 && Val(m1) == 40 * Pow2(k) - 1
    ensures Val(Differing(m0, m1)) == 52 * Pow2(k)
  {
    var d := Differing(m0, m1);
    if k > 0 {
      assert m0 != [] && m0[0] && m1[0];
      DifferingValue(k - 1, m0[1..], m1[1..]);
      assert d[1..] == Differing(m0[1..], m1[1..]);
    } else {
      ValBound(m1);
      ExclusiveOrVal(m0, m1);
      ExclusiveOr19And39(|m0|);
    }
  }

  function ExclusiveOr(x: nat, y: nat, n: nat): nat {
    if n == 0 then 0 else Bit(x % 2 != y % 2) + 2 * ExclusiveOr(x / 2, y / 2, n - 1)
  }

  lemma {:induction false} ExclusiveOrVal(a: seq<bool>, b: seq<bool>)
    requires |a| == |b|
    ensures Val(Differing(a, b)) == ExclusiveOr(Val(a), Val(b), |a|)
  {
    if a != [] {
      hide Differing, Val;
      ExclusiveOrVal(a[1..], b[1..]);
      DifferingCons(a, b);
      ValHalves(a);
      ValHalves(b);
      ValHalves(Differing(a, b));
    }
  }

  lemma ValHalves(w: seq<bool>)
    requires w != []
    ensures Val(w) == Bit(w[0]) + 2 * Val(w[1..]) && Val(w) / 2 == Val(w[1..]) && (Val(w) % 2 == 1 <==> w[0])
  {
  }

  lemma DifferingCons(a: seq<bool>, b: seq<bool>)
    requires |a| == |b| > 0
    ensures Differing(a, b)[0] == (a[0] != b[0]) && Differing(a, b)[1..] == Differing(a[1..], b[1..])
  {
  }

  lemma {:induction false} ExclusiveOrZero(n: nat)
    ensures ExclusiveOr(0, 0, n) == 0
  {
    if n > 0 { ExclusiveOrZero(n - 1); }
  }

  lemma ExclusiveOr19And39(n: nat)
    requires Pow2(n) > 39
    ensures ExclusiveOr(19, 39, n) == 52
  {
    assert Pow2(0) == 1 && Pow2(1) == 2 && Pow2(2) == 4 && Pow2(3) == 8 && Pow2(4) == 16 && Pow2(5) == 32;
    ExclusiveOrZero(n - 6);
    assert ExclusiveOr(0, 1, n - 5) == 1;
    assert ExclusiveOr(1, 2, n - 4) == 3;
    assert ExclusiveOr(2, 4, n - 3) == 6;
    assert ExclusiveOr(4, 9, n - 2) == 13;
    assert ExclusiveOr(9, 19, n - 1) == 26;
  }

  // --- one step of a scan --------------------------------------------------------------------------------

  ghost function Small<V>(d: Dict<V>): (t: Table<V>)
    requires d.Valid()
    ensures t.Valid()
  {
    if d.Rehashing() && |d.t0.buckets| > |d.t1.value.buckets| then d.t1.value else d.t0
  }

  ghost function Large<V>(d: Dict<V>): (t: Table<V>)
    requires d.Valid() && d.Rehashing()
    ensures t.Valid()
  {
    if |d.t0.buckets| > |d.t1.value.buckets| then d.t0 else d.t1.value
  }

  /** A step works with both tables, the smaller one first; at rest with the only one. */
  lemma BothTables<V>(d: Dict<V>)
    requires d.Valid()
    ensures !d.Rehashing() ==> Small(d) == d.t0
    ensures d.Rehashing() ==>
              && |Small(d).buckets| <= |Large(d).buckets|
              && ((Small(d), Large(d)) == (d.t0, d.t1.value) || (Small(d), Large(d)) == (d.t1.value, d.t0))
  {
    hide Table.Map, Table.Placed;
  }

  /** The second bucket of the larger table. */
  ghost function SecondIndex<V>(d: Dict<V>, c: Word): nat
    requires d.Valid() && d.Rehashing()
  {
    Val(Second(c, Small(d).mask, Large(d).mask))
  }

  /** The scan stays inside the tables. */
  ghost predicate ScanSafe<V>(d: Dict<V>, c: Word)
    requires d.Valid()
  {
    d.Rehashing() ==> SecondIndex(d, c) < |Large(d).buckets|
  }

  /** The entries of the cursor's bucket. */
  ghost function Visit<V>(t: Table<V>, c: Word): seq<Entry<V>>
    requires t.Valid()
  {
    t.buckets[t.Index(c)]
  }

  ghost function VisitLarge<V>(d: Dict<V>, c: Word): seq<Entry<V>>
    requires d.Valid() && ScanSafe(d, c)
  {
    if d.Rehashing() then Visit(Large(d), c) + Large(d).buckets[SecondIndex(d, c)] else []
  }

  ghost function NextCursor<V>(d: Dict<V>, c: Word): Word
    requires d.Valid()
  {
    Next(c, Small(d).mask)
  }

  /** What one step reports, and the cursor for the next. */
  ghost function ScanOp<V>(d: Dict<V>, c: Word): (seq<Entry<V>>, Word)
    requires d.Valid() && ScanSafe(d, c)
  {
    (Visit(Small(d), c) + VisitLarge(d, c), NextCursor(d, c))
  }

  /** Sizes are powers of two; during a rehash one is twice the other. */
  ghost predicate ScanReady<V>(d: Dict<V>)
    requires d.Valid()
  {
    Contiguous(Small(d).mask) && (d.Rehashing() ==> |Large(d).buckets| == 2 * |Small(d).buckets|)
  }

  lemma ReadyIsSafe<V>(d: Dict<V>, c: Word)
    requires d.Valid() && ScanReady(d)
    ensures ScanSafe(d, c)
  {
    hide Val, Second, Contiguous, Table.Map, Table.Placed;
    if d.Rehashing() { SecondInTable(Small(d).mask, Large(d).mask); }
  }

  /** A mask of the lowest `a` bits. */
  ghost predicate Ones(m: seq<bool>, a: nat) { forall i :: 0 <= i < |m| ==> m[i] == (i < a) }

  ghost predicate Agree(h: seq<bool>, c: seq<bool>, a: nat)
    requires a <= |h| == |c|
  {
    forall i :: 0 <= i < a ==> h[i] == c[i]
  }

  /** Where the two masks of a rehash differ: one bit, just above the smaller one. */
  lemma ExtraBit(m0: seq<bool>, m1: seq<bool>) returns (a: nat)
    requires |m0| == |m1| > 0 && Val(m1) == 2 * Val(m0) + 1 && Contiguous(m0)
    ensures a < |m0| && Ones(m0, a) && Ones(m1, a + 1)
  {
    hide Val;
    DoubledMask(m0, m1);
    a := 0;
    while a < |m0| && m0[a]
      invariant 0 <= a <= |m0| && forall i :: 0 <= i < a ==> m0[i]
    {
      a := a + 1;
    }
  }

  lemma {:induction false} EarlierInOrder(h: seq<bool>, c: seq<bool>, a: nat)
    requires |h| == |c| && a < |h| && !h[a] && c[a] && Agree(h, c, a)
    ensures Order(h) < Order(c)
  {
    if a == 0 {
      OrderBound(h[1..]);
    } else {
      assert forall i :: 0 <= i < a - 1 ==> h[1..][i] == h[i + 1] && c[1..][i] == c[i + 1];
      EarlierInOrder(h[1..], c[1..], a - 1);
    }
  }

  /** A hash that shares the cursor's bucket of the smaller table is in one of the two visited buckets of
      the larger one, or the cursor is past it. */
  lemma LargerBuckets(h: seq<bool>, c: seq<bool>, m0: seq<bool>, m1: seq<bool>)
    requires |h| == |c| == |m0| == |m1| > 0 && Val(m1) == 2 * Val(m0) + 1 && Contiguous(m0)
    requires And(h, m0) == And(c, m0)
    ensures And(h, m1) == And(c, m1) || And(h, m1) == Second(c, m0, m1) || Order(h) < Order(c)
  {
    hide Val, Contiguous, And, Order, Second, Ones, Agree;
    var a := ExtraBit(m0, m1);
    SharedBelow(h, c, m0, a);
    if h[a] == c[a] {
      SameUpTo(h, c, m1, a);
    } else if h[a] {
      SecondIsOther(h, c, m0, m1, a);
    } else {
      EarlierInOrder(h, c, a);
    }
  }

  lemma SharedBelow(h: seq<bool>, c: seq<bool>, m: seq<bool>, a: nat)
    requires |h| == |c| == |m| && And(h, m) == And(c, m) && a <= |m| && Ones(m, a)
    ensures Agree(h, c, a)
  {
    forall i | 0 <= i < a ensures h[i] == c[i] { assert And(h, m)[i] == And(c, m)[i]; }
  }

  lemma SameUpTo(h: seq<bool>, c: seq<bool>, m: seq<bool>, a: nat)
    requires |h| == |c| == |m| && a < |m| && Ones(m, a + 1) && Agree(h, c, a) && h[a] == c[a]
    ensures And(h, m) == And(c, m)
  {
    var x, y := And(h, m), And(c, m);
    forall i | 0 <= i < |x| ensures x[i] == y[i] {}
  }

  lemma SecondIsOther(h: seq<bool>, c: seq<bool>, m0: seq<bool>, m1: seq<bool>, a: nat)
    requires |h| == |c| == |m0| == |m1| && a < |h| && h[a] && !c[a] && Ones(m0, a) && Ones(m1, a + 1) && Agree(h, c, a)
    ensures And(h, m1) == Second(c, m0, m1)
  {
    var x, y := And(h, m1), Second(c, m0, m1);
    forall i | 0 <= i < |x| ensures x[i] == y[i] {
      assert Differing(m0, m1)[i] == (i == a);
    }
  }

  ghost predicate Reported<V>(es: seq<Entry<V>>, k: Key) { exists i :: 0 <= i < |es| && es[i].key == k }

  lemma InBucket<V>(t: Table<V>, k: Key)
    requires t.Valid() && t.Lookup(k).Some?
    ensures Reported(t.buckets[t.Index(k.hash)], k)
  {
    assert t.Chain(k)[Position(t.Chain(k), k)].key == k;
  }

  lemma {:induction false} ReportedSum<V>(a: seq<Entry<V>>, b: seq<Entry<V>>, k: Key)
    ensures Reported(a + b, k) <==> Reported(a, k) || Reported(b, k)
  {
    if Reported(a, k) {
      var i :| 0 <= i < |a| && a[i].key == k;
      assert (a + b)[i].key == k;
    }
    if Reported(b, k) {
      var i :| 0 <= i < |b| && b[i].key == k;
      assert (a + b)[|a| + i].key == k;
    }
    if Reported(a + b, k) {
      var i :| 0 <= i < |a + b| && (a + b)[i].key == k;
      assert if i < |a| then a[i].key == k else b[i - |a|].key == k;
    }
  }

  /** A bucket holds just the keys of its table that belong there. */
  lemma BucketExactly<V>(t: Table<V>, j: nat, k: Key)
    requires t.Valid() && j < |t.buckets|
    ensures Reported(t.buckets[j], k) <==> k in t.Map() && t.Index(k.hash) == j
  {
    hide Val, And, Position, IndexOf;
    if Reported(t.buckets[j], k) {
      var i :| 0 <= i < |t.buckets[j]| && t.buckets[j][i].key == k;
      BucketEntries(t, j);
      assert t.buckets[j][i] in t.buckets[j];
    }
    if k in t.Map() && t.Index(k.hash) == j {
      MapIsLookup(t);
      InBucket(t, k);
    }
  }

  /** One step reports the keys of the cursor's bucket and no others; during a rehash those of the cursor's
      bucket of the smaller table and of the two buckets of the larger. */
  lemma ScanReportsExactly<V>(d: Dict<V>, c: Word, k: Key)
    requires d.Valid() && ScanSafe(d, c)
    ensures Reported(ScanOp(d, c).0, k) <==>
            || (k in Small(d).Map() && Small(d).Index(k.hash) == Small(d).Index(c))
            || (d.Rehashing() && k in Large(d).Map() &&
                (Large(d).Index(k.hash) == Large(d).Index(c) || Large(d).Index(k.hash) == SecondIndex(d, c)))
  {
    hide Val, And, Position, IndexOf, Reported, Second, Table.Map, Table.Placed;
    BucketExactly(Small(d), Small(d).Index(c), k);
    ReportedSum(Visit(Small(d), c), VisitLarge(d, c), k);
    if d.Rehashing() {
      BucketExactly(Large(d), Large(d).Index(c), k);
      BucketExactly(Large(d), SecondIndex(d, c), k);
      ReportedSum(Visit(Large(d), c), Large(d).buckets[SecondIndex(d, c)], k);
    } else {
      NothingReported<V>(k);
    }
  }

  lemma NothingReported<V>(k: Key)
    ensures !Reported<V>([], k)
  {
  }

  lemma ReportedPart<V>(a: seq<Entry<V>>, b: seq<Entry<V>>, c: seq<Entry<V>>, k: Key)
    requires Reported(a, k) || Reported(b, k) || Reported(c, k)
    ensures Reported(a + (b + c), k)
  {
    var all := a + (b + c);
    if Reported(a, k) {
      var i :| 0 <= i < |a| && a[i].key == k;
      assert all[i].key == k;
    } else if Reported(b, k) {
      var i :| 0 <= i < |b| && b[i].key == k;
      assert all[|a| + i].key == k;
    } else {
      var i :| 0 <= i < |c| && c[i].key == k;
      assert all[|a| + |b| + i].key == k;
    }
  }

  /** One step, in whatever state the dictionary is: a key that is there and that the new cursor is past
      has just been reported, or the old cursor was past it already. */
  lemma ScanCovers<V>(d: Dict<V>, c: Word, k: Key)
    requires d.Valid() && ScanReady(d) && k in d.Map() && ScanSafe(d, c)
    requires ScanOp(d, c).1 == Const(false, 32) || Order(k.hash) < Order(ScanOp(d, c).1)
    ensures Order(k.hash) < Order(c) || Reported(ScanOp(d, c).0, k)
  {
    hide Val, Contiguous, Second, And, Next, Order, Reported, Table.Map, Table.Placed, Table.Lookup;
    var small := Small(d);
    NextCovers(c, small.mask, k.hash);
    if And(k.hash, small.mask) == And(c, small.mask) {
      MapIsLookup(d.t0);
      var first := small.buckets[small.Index(c)];
      assert small.Index(k.hash) == small.Index(c);
      if !d.Rehashing() {
        InBucket(small, k);
        assert first + [] == first;
      } else {
        MapIsLookup(d.t1.value);
        var large := Large(d);
        var b1, b2 := large.buckets[large.Index(c)], large.buckets[SecondIndex(d, c)];
        LargerBuckets(k.hash, c, small.mask, large.mask);
        if small.Lookup(k).Some? {
          InBucket(small, k);
        } else {
          InBucket(large, k);
        }
        if Order(k.hash) >= Order(c) { ReportedPart(first, b1, b2, k); }
      }
    }
  }

  // --- whole scans -----------------------------------------------------------------------------------------

  /** A scan as its steps saw it: the state each step found and the cursor it was given, from zero back to
      zero. Nothing is said about what happened to the dictionary in between. */
  ghost predicate FullScan<V>(ds: seq<Dict<V>>, cs: seq<Word>) {
    && |cs| == |ds| + 1 && |ds| > 0
    && cs[0] == Const(false, 32) && cs[|ds|] == Const(false, 32)
    && forall i :: 0 <= i < |ds| ==>
       ds[i].Valid() && ScanReady(ds[i]) && ScanSafe(ds[i], cs[i]) && ScanOp(ds[i], cs[i]).1 == cs[i + 1]
  }

  ghost predicate ReportedBefore<V>(ds: seq<Dict<V>>, cs: seq<Word>, k: Key, n: nat)
    requires FullScan(ds, cs) && n <= |ds|
  {
    exists i :: 0 <= i < n && Reported(ScanOp(ds[i], cs[i]).0, k)
  }

  lemma {:induction false} CoveredSoFar<V>(ds: seq<Dict<V>>, cs: seq<Word>, k: Key, n: nat)
    requires FullScan(ds, cs) && n <= |ds|
    requires forall i :: 0 <= i < |ds| ==> k in ds[i].Map()
    requires n == |ds| || Order(k.hash) < Order(cs[n])
    ensures n > 0 && ReportedBefore(ds, cs, k, n)
  {
    hide ScanOp, Reported, ScanReady, ScanSafe, Dict.Valid, Dict.Map, Order, Const;
    if n == 0 {
      OrderFalse(cs[0]);
      assert false;
    } else {
      ScanCovers(ds[n - 1], cs[n - 1], k);
      if Order(k.hash) < Order(cs[n - 1]) {
        CoveredSoFar(ds, cs, k, n - 1);
      }
    }
  }

  /** Nothing is missed: a key that every step of a full scan found in the dictionary is reported by one of
      them, however often the dictionary was resized or rehashed meanwhile. */
  lemma ScanMissesNothing<V>(ds: seq<Dict<V>>, cs: seq<Word>, k: Key)
    requires FullScan(ds, cs)
    requires forall i :: 0 <= i < |ds| ==> k in ds[i].Map()
    ensures exists i :: 0 <= i < |ds| && Reported(ScanOp(ds[i], cs[i]).0, k)
  {
    CoveredSoFar(ds, cs, k, |ds|);
  }
}
