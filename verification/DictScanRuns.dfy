/** Which dictionaries can be scanned: what the operations do to the table sizes. */
module DictScanRuns {
  import opened Words
  import opened Cursor
  import opened HashTables
  import opened DictModel
  import opened DictOps
  import opened DictRuns
  import opened DictScan
  import opened Counters
  import opened Options

  ghost predicate IsPow2(n: nat) { exists a: nat :: n == Pow2(a) }

  lemma {:induction false} ContiguousOnes(m: seq<bool>)
    requires Contiguous(m)
    ensures exists a: nat :: a <= |m| && Val(m) + 1 == Pow2(a)
  {
    if m == [] || !m[0] {
      assert m == Const(false, |m|);
      ValConst(false, |m|);
      assert Val(m) + 1 == Pow2(0);
    } else {
      assert forall i, j :: 0 <= i < j < |m| - 1 && m[1..][j] ==> m[1..][i] by {
        forall i, j | 0 <= i < j < |m| - 1 && m[1..][j] ensures m[1..][i] { assert m[j + 1] && m[i + 1]; }
      }
      ContiguousOnes(m[1..]);
      var a: nat :| a <= |m| - 1 && Val(m[1..]) + 1 == Pow2(a);
      assert Val(m) + 1 == Pow2(a + 1);
    }
  }

  lemma Pow2Grows(a: nat, b: nat)
    requires Pow2(a) <= Pow2(b)
    ensures a <= b
    decreases a
  {
    if a > 0 && b > 0 { Pow2Grows(a - 1, b - 1); }
  }

  /** A table's mask is a block of ones exactly when its size is a power of two. */
  lemma MaskOfPow2<V>(t: Table<V>)
    requires t.WellSized()
    ensures Contiguous(t.mask) <==> IsPow2(|t.buckets|)
  {
    hide Val, Const, Pow2;
    if Contiguous(t.mask) {
      ContiguousOnes(t.mask);
    }
    if IsPow2(|t.buckets|) {
      var a: nat :| |t.buckets| == Pow2(a);
      ValBound(t.mask);
      Pow2Grows(a, 32);
      OnesWord(t.mask, a);
    }
  }

  ghost predicate ReadySizes(s: (nat, nat)) {
    IsPow2(s.0) && (s.1 == 0 || (IsPow2(s.1) && (s.1 == 2 * s.0 || s.0 == 2 * s.1)))
  }

  lemma HalfOfPow2(n: nat)
    ensures IsPow2(n) ==> IsPow2(2 * n)
    ensures n > 0 && IsPow2(2 * n) ==> IsPow2(n)
  {
    if IsPow2(n) {
      var a: nat :| n == Pow2(a);
      assert 2 * n == Pow2(a + 1);
    }
    if n > 0 && IsPow2(2 * n) {
      var a: nat :| 2 * n == Pow2(a);
      assert n == Pow2(a - 1);
    }
  }

  lemma ReadyBySizes<V>(d: Dict<V>)
    requires d.Valid()
    ensures ScanReady(d) <==> ReadySizes(Sizes(d))
  {
    hide Contiguous, IsPow2, Table.Map, Table.Placed;
    MaskOfPow2(d.t0);
    if d.Rehashing() {
      MaskOfPow2(d.t1.value);
      HalfOfPow2(|d.t0.buckets|);
      HalfOfPow2(|d.t1.value.buckets|);
    }
  }

  // --- sizes along the operations ----------------------------------------------------------------------------

  lemma RehashReady<V>(d: Dict<V>, n: nat)
    requires d.Valid() && d.Rehashing() && ReadySizes(Sizes(d))
    ensures ReadySizes(Sizes(d.RehashSteps(n)))
  {
    hide Table.Map, Table.Placed, Dict.RehashSteps, IsPow2;
    RehashSizes(d, n);
  }

  lemma StepReady<V>(d: Dict<V>)
    requires d.Valid() && ReadySizes(Sizes(d))
    ensures ReadySizes(Sizes(d.Step()))
  {
    hide Table.Map, Table.Placed, Dict.RehashSteps;
    if d.Rehashing() { RehashReady(d, 1); }
  }

  lemma AddReady<V>(s: Dict<V>, k: Key, v: V, canResize: bool)
    requires s.Valid() && MayAdd(s, k, canResize) && ReadySizes(Sizes(s))
    ensures ReadySizes(Sizes(AddStepOp(s, k, v, canResize).0))
  {
    hide Table.Map, Table.Placed, Table.Lookup, Dict.Start, IsPow2, IndexOf;
    if !s.Rehashing() && s.t0.Lookup(k).None? {
      AddIsMapAdd(s.t0, k, v);
      var a := s.(t0 := s.t0.Add(k, v));
      HalfOfPow2(|a.t0.buckets|);
      if NeedExpand(|a.t0.buckets|, a.t0.used, canResize) { StartSizes(a, 2 * |a.t0.buckets|); }
    }
  }

  lemma EvenPow2(n: nat)
    requires IsPow2(n) && n > 1
    ensures n == 2 * (n / 2) && IsPow2(n / 2)
  {
    var a: nat :| n == Pow2(a);
    assert n / 2 == Pow2(a - 1);
  }

  lemma DeleteReady<V>(s: Dict<V>, k: Key, canResize: bool)
    requires s.Valid() && ReadySizes(Sizes(s))
    ensures ReadySizes(Sizes(DeleteStepOp(s, k, canResize).0))
  {
    hide Table.Map, Table.Placed, Table.Lookup, Dict.Start, IsPow2, IndexOf;
    if s.t0.Lookup(k).Some? {
      DeleteIsMapRemove(s.t0, k);
      DeleteKeepsEmpty(s.t0, k);
      var a := s.(t0 := s.t0.Delete(k));
      var n := |a.t0.buckets|;
      if !a.Rehashing() && NeedShrink(a.init, n, a.t0.used, canResize) {
        EvenPow2(n);
        StartSizes(a, n / 2);
      }
    }
  }

  lemma OverwriteSizes<V>(s: Dict<V>, k: Key, v: V)
    requires s.Valid()
    ensures Sizes(Overwrite(s, k, v)) == Sizes(s)
  {
    hide Table.Map, Table.Placed, IndexOf;
  }

  lemma ReplaceReady<V>(s: Dict<V>, k: Key, v: V, canResize: bool)
    requires s.Valid() && s.Disjoint() && MayAdd(s.Step(), k, canResize) && ReadySizes(Sizes(s))
    ensures ReadySizes(Sizes(ReplaceStepOp(s, k, v, canResize)))
  {
    hide Table.Map, Table.Placed, Table.WellSized, Dict.Step, Dict.Disjoint, AddStepOp, Overwrite, IsPow2, ReadySizes;
    StepReady(s);
    AddReady(s.Step(), k, v, canResize);
    AddRefines(s, k, v, canResize);
    var (e, r) := AddOp(s, k, v, canResize);
    if r <= 0 {
      StepReady(e);
      OverwriteSizes(e.Step(), k, v);
    }
  }

  /** Growth and shrinking by the operations keep every dictionary scannable; a resize on request does so
      exactly when it is done at once or the new size is twice or half the old one. */
  lemma ApplyReady<V>(d: Dict<V>, op: Op<V>)
    requires Good(d) && Fits(d, op) && ReadySizes(Sizes(d)) && IsPow2(d.init)
    ensures Apply(d, op).0.Valid()
    ensures ReadySizes(Sizes(Apply(d, op).0)) <==>
            (op.Expand? ==> ExpandKeepsRatio(d, op.size))
  {
    hide Table.Map, Table.Placed, Table.WellSized, Dict.Step, Dict.RehashSteps, Dict.Disjoint, Dict.Map, Clash;
    hide AddStepOp, DeleteStepOp, ReplaceStepOp, IsPow2, ReadySizes, ExpandOp, ExpandKeepsRatio;
    ApplyRefines(d, op);
    match op
    case Add(k, v, c) => StepReady(d); AddReady(d.Step(), k, v, c);
    case Replace(k, v, c) => StepReady(d); StepKeepsMap(d); ReplaceReady(d.Step(), k, v, c);
    case Find(k) => StepReady(d);
    case Fetch(k) => StepReady(d); StepReady(d.Step());
    case Delete(k, c) => StepReady(d); DeleteReady(d.Step(), k, c);
    case Expand(n) => ExpandReady(d, n);
    case Rehash(n) => RehashReady(d, n);
    case SetCanRehash(b) =>
  }

  ghost predicate ExpandKeepsRatio<V>(d: Dict<V>, size: nat)
    requires Good(d)
  {
    var (e, r) := ExpandOp(d, size);
    var n, t := |d.t0.buckets|, Target(d.init, size);
    r == 1 && e.Rehashing() ==> t == 2 * n || n == 2 * t
  }

  lemma TargetIsPow2(init: nat, size: nat)
    requires 0 < init <= MAX_POWER && IsPow2(init)
    ensures IsPow2(Target(init, size))
  {
    hide Pow2;
    if size >= MAX_POWER {
      Two31();
    } else {
      NextPowerLeast(init, size, 0);
      var e: nat :| NextPowerOf(init, size) == init * Pow2(e);
      TimesPow2(init, e);
    }
  }

  lemma TimesPow2(init: nat, e: nat)
    requires IsPow2(init)
    ensures IsPow2(init * Pow2(e))
  {
    hide Pow2;
    var a: nat :| init == Pow2(a);
    Pow2Add(a, e);
  }

  lemma {:induction false} Pow2Add(a: nat, b: nat)
    ensures Pow2(a + b) == Pow2(a) * Pow2(b)
  {
    if a > 0 {
      hide Pow2;
      Pow2Add(a - 1, b);
      Pow2Next(a - 1);
      Pow2Next(a - 1 + b);
      DoubledProduct(Pow2(a - 1), Pow2(b));
    }
  }

  lemma Pow2Next(a: nat)
    ensures Pow2(a + 1) == 2 * Pow2(a)
  {
  }

  lemma DoubledProduct(x: nat, y: nat)
    ensures (2 * x) * y == 2 * (x * y)
  {
  }

  lemma ExpandReady<V>(d: Dict<V>, size: nat)
    requires Good(d) && ReadySizes(Sizes(d)) && IsPow2(d.init)
    ensures ReadySizes(Sizes(ExpandOp(d, size).0)) <==> ExpandKeepsRatio(d, size)
  {
    hide Table.Map, Table.Placed, Table.WellSized, Dict.Disjoint, Dict.Start, IsPow2;
    var t := Target(d.init, size);
    TargetIsPow2(d.init, size);
    if !(d.Rehashing() || t < d.t0.used || t == |d.t0.buckets|) { StartSizes(d, t); }
  }
}
