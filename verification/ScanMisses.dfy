/** What a scan misses when the table doubles or halves between two of its steps, with no rehash running at
    either. */
module ScanMisses {
  import opened Words
  import opened Cursor
  import opened DictScan

  /** The cursors of a scan, from zero back to zero: the first `j` steps under the mask `m0` and all others
      under `m1`. */
  ghost predicate ResizedScan(cs: seq<seq<bool>>, m0: seq<bool>, m1: seq<bool>, j: nat)
    requires |m0| == |m1|
  {
    && |cs| > 1 && j < |cs| && (forall i :: 0 <= i < |cs| ==> |cs[i]| == |m0|)
    && IsZero(cs[0]) && IsZero(cs[|cs| - 1]) && (forall i :: 0 < i < |cs| - 1 ==> !IsZero(cs[i]))
    && forall i :: 0 <= i < |cs| - 1 ==> Follows(cs[i], MaskAt(m0, m1, j, i), cs[i + 1])
  }

  predicate IsZero(c: seq<bool>) { c == Const(false, |c|) }

  ghost predicate Follows(c: seq<bool>, m: seq<bool>, next: seq<bool>) { |c| == |m| && next == Next(c, m) }

  function MaskAt(m0: seq<bool>, m1: seq<bool>, j: nat, i: nat): (m: seq<bool>)
    requires |m0| == |m1|
    ensures |m| == |m0|
  {
    if i < j then m0 else m1
  }

  /** Step `i` visits the bucket of this hash. */
  ghost predicate Visits(cs: seq<seq<bool>>, m0: seq<bool>, m1: seq<bool>, j: nat, h: seq<bool>, i: nat)
    requires |m0| == |m1| == |h|
  {
    i < |cs| && |cs[i]| == |h| && And(cs[i], MaskAt(m0, m1, j, i)) == And(h, MaskAt(m0, m1, j, i))
  }

  ghost predicate Visited(cs: seq<seq<bool>>, m0: seq<bool>, m1: seq<bool>, j: nat, h: seq<bool>, n: nat)
    requires |m0| == |m1| == |h|
  {
    exists i :: 0 <= i < n && Visits(cs, m0, m1, j, h, i)
  }

  // --- power-of-two sizes: nothing is missed ---------------------------------------------------------------------

  lemma {:induction false} VisitedBefore(cs: seq<seq<bool>>, m0: seq<bool>, m1: seq<bool>, j: nat, h: seq<bool>, n: nat)
    requires |m0| == |m1| == |h| && ResizedScan(cs, m0, m1, j) && Contiguous(m0) && Contiguous(m1)
    requires n < |cs| && (n == |cs| - 1 || Order(h) < Order(cs[n]))
    ensures Visited(cs, m0, m1, j, h, n)
    decreases n
  {
    hide Order, Next, And, Contiguous;
    if n == 0 {
      OrderFalse(cs[0]);
    } else {
      var m := MaskAt(m0, m1, j, n - 1);
      assert Follows(cs[n - 1], m, cs[n]);
      NextCovers(cs[n - 1], m, h);
      if And(h, m) == And(cs[n - 1], m) {
        assert Visits(cs, m0, m1, j, h, n - 1);
      } else {
        VisitedBefore(cs, m0, m1, j, h, n - 1);
      }
    }
  }

  lemma DoubledContiguous(m0: seq<bool>, m1: seq<bool>)
    requires |m0| == |m1| > 0 && Val(m1) == 2 * Val(m0) + 1 && Contiguous(m0)
    ensures Contiguous(m1)
  {
    hide Val;
    DoubledMask(m0, m1);
    forall i, j | 0 <= i < j < |m1| && m1[j] ensures m1[i] {
      if i > 0 { assert m0[j - 1] && m0[i - 1]; }
    }
  }

  // --- other sizes: the witness ----------------------------------------------------------------------------------

  function OneBit(n: nat, b: nat): (h: seq<bool>)
    ensures |h| == n && forall i :: 0 <= i < n ==> h[i] == (i == b)
  {
    seq(n, i => i == b)
  }

  /** The first set bit above the lowest zero bit. */
  ghost predicate Gap(m: seq<bool>, a: nat, b: nat) {
    a < b < |m| && !m[a] && m[b] && (forall i :: 0 <= i < a ==> m[i]) && forall i :: a <= i < b ==> !m[i]
  }

  function LowestZero(m: seq<bool>, i: nat): (a: nat)
    requires i <= |m|
    ensures i <= a <= |m| && (a < |m| ==> !m[a]) && forall k :: i <= k < a ==> m[k]
    decreases |m| - i
  {
    if i == |m| || !m[i] then i else LowestZero(m, i + 1)
  }

  function LowestOne(m: seq<bool>, i: nat): (b: nat)
    requires i <= |m|
    ensures i <= b <= |m| && (b < |m| ==> m[b]) && forall k :: i <= k < b ==> !m[k]
    decreases |m| - i
  {
    if i == |m| || m[i] then i else LowestOne(m, i + 1)
  }

  lemma GapExists(m: seq<bool>)
    requires !Contiguous(m)
    ensures Gap(m, LowestZero(m, 0), LowestOne(m, LowestZero(m, 0)))
  {
    var i, j :| 0 <= i < j < |m| && m[j] && !m[i];
    var a := LowestZero(m, 0);
    var b := LowestOne(m, a);
    assert a <= i;
    assert b <= j;
  }

  /** The carry leaves what is below a zero alone. */
  lemma {:induction false} CarryKeeps(w: seq<bool>, i: nat, t: nat)
    requires i < t < |w| && !w[t]
    ensures CarryInc(w)[i] == w[i]
    decreases i
  {
    if i > 0 { CarryKeeps(w[1..], i - 1, t - 1); }
  }

  lemma {:induction false} RankPositive(w: seq<bool>, m: seq<bool>, a: nat)
    requires |w| == |m| && a < |w| && w[a] && m[a]
    ensures Rank(w, m) > 0
    decreases a
  {
    if a > 0 { RankPositive(w[1..], m[1..], a - 1); }
  }

  lemma {:induction false} RankMasked(w: seq<bool>, m: seq<bool>)
    requires |w| == |m| && forall i :: 0 <= i < |w| ==> !(w[i] && m[i])
    ensures Rank(w, m) == 0
  {
    if w != [] { RankMasked(w[1..], m[1..]); }
  }

  /** The first step, under `m0`, does not visit the bucket of this hash, and passes its bucket under `m1`. */
  ghost predicate PassedOver(m0: seq<bool>, m1: seq<bool>, h: seq<bool>)
    requires |m0| == |m1| == |h|
  {
    && And(Const(false, |m0|), m0) != And(h, m0) && Rank(h, m1) == 0
    && Rank(Next(Const(false, |m0|), m0), m1) > 0 && !IsZero(Next(Const(false, |m0|), m0))
  }

  /** A bit of `m1` that the first step sets, below one that is set in `m0`. */
  lemma FirstStepSets(m0: seq<bool>, m1: seq<bool>, a: nat, t: nat)
    requires |m0| == |m1| && a < t < |m0| && m1[a] && !m0[a] && m0[t]
    ensures Rank(Next(Const(false, |m0|), m0), m1) > 0 && !IsZero(Next(Const(false, |m0|), m0))
  {
    hide CarryInc;
    var f := Or(Const(false, |m0|), Not(m0));
    ReversedInc(f);
    CarryKeeps(f, a, t);
    RankPositive(Next(Const(false, |m0|), m0), m1, a);
  }

  lemma WitnessPassed(m0: seq<bool>, m1: seq<bool>, h: seq<bool>, b: nat)
    requires |m0| == |m1| && b < |m0| && h == OneBit(|m0|, b) && m0[b] && !m1[b]
    ensures And(Const(false, |m0|), m0) != And(h, m0) && Rank(h, m1) == 0
  {
    hide Rank, Next;
    RankMasked(h, m1);
    assert And(Const(false, |m0|), m0)[b] != And(h, m0)[b];
  }

  /** When the table doubles, the hash of the first set bit above the lowest zero bit is passed over, ... */
  lemma DoublingPasses(m0: seq<bool>, m1: seq<bool>, a: nat, b: nat)
    requires |m0| == |m1| > 0 && Val(m1) == 2 * Val(m0) + 1 && Gap(m0, a, b)
    ensures PassedOver(m0, m1, OneBit(|m0|, b))
  {
    hide Val, Rank, Next;
    DoubledMask(m0, m1);
    assert m1[a] && !m1[b];
    FirstStepSets(m0, m1, a, b);
    WitnessPassed(m0, m1, OneBit(|m0|, b), b);
  }

  /** ... and when it halves, that of the lowest zero bit of the smaller mask. */
  lemma HalvingPasses(m0: seq<bool>, m1: seq<bool>, a: nat, b: nat)
    requires |m0| == |m1| > 0 && Val(m0) == 2 * Val(m1) + 1 && Gap(m1, a, b)
    ensures PassedOver(m0, m1, OneBit(|m0|, a))
  {
    hide Val, Rank, Next;
    DoubledMask(m1, m0);
    assert m0[a] && !m0[b] && b + 1 < |m0| && m0[b + 1];
    FirstStepSets(m0, m1, b, b + 1);
    WitnessPassed(m0, m1, OneBit(|m0|, a), a);
  }

  /** From a place of positive rank the rank only rises until the scan ends, so that rank zero is never
      visited again. */
  lemma {:induction false} RankRises(cs: seq<seq<bool>>, m0: seq<bool>, m1: seq<bool>, j: nat, i: nat)
    requires |m0| == |m1| && ResizedScan(cs, m0, m1, j) && 0 < j <= i < |cs| - 1 && Rank(cs[j], m1) > 0
    ensures Rank(cs[i], m1) > 0
    decreases i
  {
    hide Rank, Next, PopCount;
    if i > j {
      RankRises(cs, m0, m1, j, i - 1);
      assert Follows(cs[i - 1], MaskAt(m0, m1, j, i - 1), cs[i]);
      NextRank(cs[i - 1], m1);
    }
  }

  /** Every scan of a table that changes after the first step misses what that step passes over. */
  lemma WitnessMissed(cs: seq<seq<bool>>, m0: seq<bool>, m1: seq<bool>, h: seq<bool>)
    requires |m0| == |m1| == |h| && PassedOver(m0, m1, h) && ResizedScan(cs, m0, m1, 1)
    ensures !Visited(cs, m0, m1, 1, h, |cs| - 1)
  {
    hide Next, Rank;
    assert Follows(cs[0], MaskAt(m0, m1, 1, 0), cs[1]);
    forall i | 0 <= i < |cs| - 1 ensures !Visits(cs, m0, m1, 1, h, i) {
      if i > 0 {
        RankRises(cs, m0, m1, 1, i);
        SameBucket(cs[i], h, m1);
      }
    }
  }

  /** The cursors from one that is not zero to the end of the scan. */
  function Trail(c: seq<bool>, m: seq<bool>): (t: seq<seq<bool>>)
    requires |c| == |m|
    ensures |t| > 1
    decreases Pow2(PopCount(m)) - Rank(c, m)
  {
    hide Next, Rank, PopCount, Const, Pow2;
    NextRank(c, m);
    var n := Next(c, m);
    if IsZero(n) then [c, n] else [c] + Trail(n, m)
  }

  /** These are the cursors of the rest of a scan. */
  ghost predicate Trails(t: seq<seq<bool>>, c: seq<bool>, m: seq<bool>) {
    && |t| > 1 && t[0] == c && IsZero(t[|t| - 1]) && (forall i :: 0 <= i < |t| ==> |t[i]| == |m|)
    && (forall i :: 0 < i < |t| - 1 ==> !IsZero(t[i]))
    && (forall i :: 0 <= i < |t| - 1 ==> Follows(t[i], m, t[i + 1]))
  }

  lemma {:induction false} TrailRight(c: seq<bool>, m: seq<bool>)
    requires |c| == |m|
    ensures Trails(Trail(c, m), c, m)
    decreases Pow2(PopCount(m)) - Rank(c, m)
  {
    hide Next, Rank, PopCount, Const, Pow2, Trails;
    NextRank(c, m);
    var n := Next(c, m);
    assert Follows(c, m, n);
    if IsZero(n) {
      assert Trail(c, m) == [c, n];
      TrailEnds(c, m, n);
    } else {
      TrailRight(n, m);
      TrailGoesOn(c, m, n, Trail(n, m));
    }
  }

  lemma TrailEnds(c: seq<bool>, m: seq<bool>, n: seq<bool>)
    requires IsZero(n) && Follows(c, m, n)
    ensures Trails([c, n], c, m)
  {
    hide Next, Const;
  }

  lemma TrailGoesOn(c: seq<bool>, m: seq<bool>, n: seq<bool>, t: seq<seq<bool>>)
    requires !IsZero(n) && Follows(c, m, n) && Trails(t, n, m)
    ensures Trails([c] + t, c, m)
  {
    hide Next, Follows, IsZero;
    var u := [c] + t;
    assert |c| == |m| by { FollowsLength(c, m, n); }
    forall i | 0 < i < |u| - 1 ensures !IsZero(u[i]) { assert i > 1 ==> !IsZero(t[i - 1]); }
    forall i | 0 <= i < |u| - 1 ensures Follows(u[i], m, u[i + 1]) { if i > 0 { assert Follows(t[i - 1], m, t[i]); } }
  }

  lemma FollowsLength(c: seq<bool>, m: seq<bool>, n: seq<bool>)
    requires Follows(c, m, n)
    ensures |c| == |m|
  {
  }

  /** The scan of a table that changes after the first step. */
  ghost function ResizedAfterOne(m0: seq<bool>, m1: seq<bool>): (cs: seq<seq<bool>>)
    requires |m0| == |m1| && !IsZero(Next(Const(false, |m0|), m0))
    ensures |cs| > 2
  {
    [Const(false, |m0|)] + Trail(Next(Const(false, |m0|), m0), m1)
  }

  lemma ResizedRight(m0: seq<bool>, m1: seq<bool>)
    requires |m0| == |m1| && !IsZero(Next(Const(false, |m0|), m0))
    ensures ResizedScan(ResizedAfterOne(m0, m1), m0, m1, 1)
  {
    hide Next, Trail, Trails, Follows, IsZero, Const;
    FirstFollows(m0);
    TrailRight(Next(Const(false, |m0|), m0), m1);
    var c := Next(Const(false, |m0|), m0);
    Prepended(Const(false, |m0|), c, Trail(c, m1), m0, m1);
  }

  lemma Prepended(z: seq<bool>, c: seq<bool>, t: seq<seq<bool>>, m0: seq<bool>, m1: seq<bool>)
    requires |m0| == |m1| == |z| && IsZero(z) && Follows(z, m0, c) && !IsZero(c) && Trails(t, c, m1)
    ensures ResizedScan([z] + t, m0, m1, 1)
  {
    hide Follows, IsZero;
    var cs := [z] + t;
    forall i | 0 <= i < |cs| - 1 ensures Follows(cs[i], MaskAt(m0, m1, 1, i), cs[i + 1]) {
      if i > 0 { assert Follows(t[i - 1], m1, t[i]); }
    }
  }

  lemma FirstFollows(m: seq<bool>)
    ensures var z := Const(false, |m|); IsZero(z) && Follows(z, m, Next(z, m))
  {
  }

  /** Every scan, whenever the table doubles, visits the bucket of every hash. */
  ghost predicate NothingMissed(m0: seq<bool>, m1: seq<bool>)
    requires |m0| == |m1|
  {
    forall cs: seq<seq<bool>>, j: nat, h: seq<bool> ::
      |h| == |m0| && ResizedScan(cs, m0, m1, j) ==> Visited(cs, m0, m1, j, h, |cs| - 1)
  }

  lemma PowersMissNothing(m0: seq<bool>, m1: seq<bool>)
    requires |m0| == |m1| && Contiguous(m0) && Contiguous(m1)
    ensures NothingMissed(m0, m1)
  {
    hide Val, Visited, Contiguous, Next;
    forall cs: seq<seq<bool>>, j: nat, h: seq<bool> | |h| == |m0| && ResizedScan(cs, m0, m1, j)
      ensures Visited(cs, m0, m1, j, h, |cs| - 1)
    {
      VisitedBefore(cs, m0, m1, j, h, |cs| - 1);
    }
  }

  /** One scan that misses a hash. */
  lemma OthersMiss(m0: seq<bool>, m1: seq<bool>, h: seq<bool>)
    requires |m0| == |m1| == |h| && PassedOver(m0, m1, h)
    ensures !NothingMissed(m0, m1)
  {
    hide ResizedScan, Visited, Next, Rank, And;
    ResizedRight(m0, m1);
    WitnessMissed(ResizedAfterOne(m0, m1), m0, m1, h);
  }

  /** Over all scans of a table that doubles between two steps, nothing is missed exactly when the smaller size
      is a power of two; ... */
  lemma DoublingExactly(m0: seq<bool>, m1: seq<bool>)
    requires |m0| == |m1| > 0 && Val(m1) == 2 * Val(m0) + 1
    ensures NothingMissed(m0, m1) <==> Contiguous(m0)
  {
    hide Val, NothingMissed, Contiguous, PassedOver, Gap;
    if Contiguous(m0) {
      DoubledContiguous(m0, m1);
      PowersMissNothing(m0, m1);
    } else {
      GapExists(m0);
      DoublingPasses(m0, m1, LowestZero(m0, 0), LowestOne(m0, LowestZero(m0, 0)));
      OthersMiss(m0, m1, OneBit(|m0|, LowestOne(m0, LowestZero(m0, 0))));
    }
  }

  /** ... and so it is when the table halves. */
  lemma HalvingExactly(m0: seq<bool>, m1: seq<bool>)
    requires |m0| == |m1| > 0 && Val(m0) == 2 * Val(m1) + 1
    ensures NothingMissed(m0, m1) <==> Contiguous(m1)
  {
    hide Val, NothingMissed, Contiguous, PassedOver, Gap;
    if Contiguous(m1) {
      DoubledContiguous(m1, m0);
      PowersMissNothing(m0, m1);
    } else {
      GapExists(m1);
      HalvingPasses(m0, m1, LowestZero(m1, 0), LowestOne(m1, LowestZero(m1, 0)));
      OthersMiss(m0, m1, OneBit(|m0|, LowestZero(m1, 0)));
    }
  }

  // --- the sizes of the repository -------------------------------------------------------------------------------

  /** From 20 * 2^k to 40 * 2^k something is missed, and back as well. */
  lemma RealSizesMiss(k: nat, m0: seq<bool>, m1: seq<bool>)
    requires |m0| == |m1| > 0 && Val(m0) == 20 * Pow2(k) - 1 && Val(m1) == 40 * Pow2(k) - 1
    ensures !NothingMissed(m0, m1) && !NothingMissed(m1, m0)
  {
    hide Val, NothingMissed, Contiguous, Second;
    SecondInTable(m0, m1);
    RealSizesOverrun(k, m0, m1);
    assert |Const(false, |m0|)| == |m0|;
    DoublingExactly(m0, m1);
    HalvingExactly(m1, m0);
  }

  function Word20(): (m: seq<bool>)
    ensures |m| == 32 && Val(m) == 19
  {
    var z := Const(false, 27);
    OnesVal(27);
    [true, true, false, false, true] + z
  }

  lemma OnesVal(n: nat)
    ensures Val([true, true, false, false, true] + Const(false, n)) == 19
  {
    var z := Const(false, n);
    ValConst(false, n);
    var w4 := [true] + z;
    var w3, w2 := [false] + w4, [false] + ([false] + w4);
    var w1 := [true] + w2;
    assert w4[1..] == z && w3[1..] == w4 && w2[1..] == w3 && w1[1..] == w2;
    assert ([true] + w1)[1..] == w1;
    assert [true, true, false, false, true] + z == [true] + w1;
    assert Val(w4) == 1 && Val(w3) == 2 && Val(w2) == 4 && Val(w1) == 9;
  }

  /** With 20 buckets that become 40 after the first step, hash 16 is never visited, ... */
  lemma SixteenMissed(cs: seq<seq<bool>>, m1: seq<bool>)
    requires |m1| == 32 && Val(m1) == 39 && ResizedScan(cs, Word20(), m1, 1)
    ensures !Visited(cs, Word20(), m1, 1, OneBit(32, 4), |cs| - 1)
  {
    hide Val, ResizedScan, Visited, PassedOver;
    DoublingPasses(Word20(), m1, 2, 4);
    WitnessMissed(cs, Word20(), m1, OneBit(32, 4));
  }

  /** ... and with 40 that become 20, hash 4 is not. */
  lemma FourMissed(cs: seq<seq<bool>>, m0: seq<bool>)
    requires |m0| == 32 && Val(m0) == 39 && ResizedScan(cs, m0, Word20(), 1)
    ensures !Visited(cs, m0, Word20(), 1, OneBit(32, 2), |cs| - 1)
  {
    hide Val, ResizedScan, Visited, PassedOver;
    HalvingPasses(m0, Word20(), 2, 4);
    WitnessMissed(cs, m0, Word20(), OneBit(32, 2));
  }
}
