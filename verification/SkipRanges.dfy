/** Lookups by score range: what the descent finds, and exactly when that is what a linear search finds. */
module SkipRanges {
  import opened Towers
  import opened SkipModel
  import opened SkipDelete
  import opened Counters

  datatype Range = Range(min: real, max: real, minex: bool, maxex: bool)

  predicate LtRange(x: Elem, r: Range) { if r.minex then x.score <= r.min else x.score < r.min }

  predicate GtRange(x: Elem, r: Range) { if r.maxex then x.score >= r.max else x.score > r.max }

  predicate InRange(x: Elem, r: Range) { !LtRange(x, r) && !GtRange(x, r) }

  function RangeWalk(s: Skip, range: Range, l: nat, p: nat): (g: nat)
    requires s.Shaped() && p < |s.hs|
    ensures p <= g < |s.hs|
    decreases |s.hs| - p
  {
    var q := NextAt(s.hs, p, l);
    if q < |s.hs| && LtRange(s.elems[q], range) then RangeWalk(s, range, l, q) else p
  }

  /** The place found among the lowest `n` levels; the length of the row stands for null. */
  function RangeSearch(s: Skip, range: Range, n: nat, p: nat): (r: nat)
    requires s.Shaped() && p < |s.hs| && n <= MAX_LEVEL
    ensures r <= |s.hs|
    decreases n
  {
    if n == 0 then |s.hs|
    else
      var g := RangeWalk(s, range, n - 1, p);
      var q := NextAt(s.hs, g, n - 1);
      if q < |s.hs| && InRange(s.elems[q], range) && s.spans[g][n - 1] == 1 then q
      else RangeSearch(s, range, n - 1, g)
  }

  /** What a linear search finds: the first element in range at or after place `p`. */
  function FirstInRange(s: Skip, range: Range, p: nat): (r: nat)
    requires s.Shaped() && p <= |s.hs|
    ensures p <= r <= |s.hs|
    decreases |s.hs| - p
  {
    if p == |s.hs| || InRange(s.elems[p], range) then p else FirstInRange(s, range, p + 1)
  }

  /** In range are the scores between the two ends, each end itself unless it is left out. */
  lemma RangeIsInterval(x: Elem, min: real, max: real, minex: bool, maxex: bool)
    ensures InRange(x, Range(min, max, minex, maxex)) <==>
            && (min < x.score || (min == x.score && !minex))
            && (x.score < max || (x.score == max && !maxex))
  {
  }

  /** What a linear search finds is in range, and nothing before it is; it finds nothing only if there is
      nothing. */
  lemma {:induction false} FirstExactly(s: Skip, range: Range, p: nat)
    requires s.Shaped() && p <= |s.hs|
    ensures var r := FirstInRange(s, range, p);
            && (r < |s.hs| ==> InRange(s.elems[r], range))
            && forall j :: p <= j < r ==> !InRange(s.elems[j], range)
    decreases |s.hs| - p
  {
    hide InRange;
    if p < |s.hs| && !InRange(s.elems[p], range) { FirstExactly(s, range, p + 1); }
  }

  /** A range cuts a sorted list into elements below, in and above it. */
  lemma RangeCut(s: Skip, range: Range, p: nat, q: nat)
    requires s.Valid() && 0 < p <= q < |s.hs|
    ensures LtRange(s.elems[q], range) ==> LtRange(s.elems[p], range)
    ensures GtRange(s.elems[p], range) ==> GtRange(s.elems[q], range)
  {
    if p < q { assert !Before(s.elems[q], s.elems[p]); }
  }

  lemma {:induction false} FirstIs(s: Skip, range: Range, p: nat, q: nat)
    requires s.Valid() && 0 < p <= q <= |s.hs|
    requires forall j :: p <= j < q ==> LtRange(s.elems[j], range)
    requires q < |s.hs| ==> !LtRange(s.elems[q], range)
    ensures FirstInRange(s, range, p) == if q < |s.hs| && InRange(s.elems[q], range) then q else |s.hs|
    decreases |s.hs| - p
  {
    hide LtRange, GtRange, Skip.LevelRight;
    if p < q {
      FirstIs(s, range, p + 1, q);
    } else if q < |s.hs| && !InRange(s.elems[q], range) {
      AllAbove(s, range, q);
    }
  }

  lemma {:induction false} AllAbove(s: Skip, range: Range, q: nat)
    requires s.Valid() && 0 < q < |s.hs| && GtRange(s.elems[q], range)
    ensures FirstInRange(s, range, q) == |s.hs|
    decreases |s.hs| - q
  {
    if q + 1 < |s.hs| {
      RangeCut(s, range, q, q + 1);
      AllAbove(s, range, q + 1);
    }
  }

  // --- the descent -------------------------------------------------------------------------------------------

  /** The last place from `p` on up to which everything is below the range. */
  function Below(s: Skip, range: Range, p: nat): (b: nat)
    requires s.Shaped() && p < |s.hs|
    ensures p <= b < |s.hs| && forall j :: p < j <= b ==> LtRange(s.elems[j], range)
    ensures b + 1 < |s.hs| ==> !LtRange(s.elems[b + 1], range)
    decreases |s.hs| - p
  {
    if p + 1 < |s.hs| && LtRange(s.elems[p + 1], range) then Below(s, range, p + 1) else p
  }

  lemma BelowSplits(s: Skip, range: Range, q: nat)
    requires s.Valid() && 0 < q < |s.hs|
    ensures LtRange(s.elems[q], range) <==> q <= Below(s, range, 0)
  {
    hide LtRange, GtRange, Skip.LevelRight, Skip.Sorted;
    var b := Below(s, range, 0);
    if q > b { RangeCut(s, range, b + 1, q); }
  }

  /** Each level's walk ends at the last tower before the range. */
  lemma {:induction false} RangeWalkEnds(s: Skip, range: Range, l: nat, p: nat)
    requires s.Valid() && p <= Below(s, range, 0) && l < s.hs[p] && l < MAX_LEVEL
    ensures RangeWalk(s, range, l, p) == Forward(s.hs, Below(s, range, 0), l)
    decreases |s.hs| - p
  {
    hide LtRange, FirstFrom, Forward, Below, NextAt, Skip.Sorted, Skip.LevelRight;
    var b, q := Below(s, range, 0), NextAt(s.hs, p, l);
    CrossingIsForward(s.hs, b, p, l);
    if q < |s.hs| {
      BelowSplits(s, range, q);
      if q <= b {
        Reaches(s.hs, p, l);
        RangeWalkEnds(s, range, l, q);
      }
    }
  }

  lemma Reaches(hs: seq<nat>, p: nat, l: nat)
    requires p < |hs| && NextAt(hs, p, l) < |hs|
    ensures hs[NextAt(hs, p, l)] > l
  {
  }

  /** Where the link across the end of place `b` leads at a level. */
  function Across(s: Skip, b: nat, l: nat): (q: nat)
    requires s.Shaped() && b < |s.hs| && l < MAX_LEVEL
    ensures q <= |s.hs|
  {
    NextAt(s.hs, Forward(s.hs, b, l), l)
  }

  /** The descent answers at a level only if the counter there says that nothing is in between. */
  predicate Shown(s: Skip, b: nat, l: nat)
    requires s.Shaped() && b < |s.hs| && l < MAX_LEVEL
  {
    Across(s, b, l) < |s.hs| && s.spans[Forward(s.hs, b, l)][l] == 1
  }

  /** What the topmost level that answers with something in range answers. */
  function TopShown(s: Skip, range: Range, b: nat, n: nat): nat
    requires s.Shaped() && b < |s.hs| && n <= MAX_LEVEL
  {
    if n == 0 then |s.hs|
    else if Shown(s, b, n - 1) && InRange(s.elems[Across(s, b, n - 1)], range) then Across(s, b, n - 1)
    else TopShown(s, range, b, n - 1)
  }

  lemma {:induction false} RangeSearchIs(s: Skip, range: Range, n: nat, p: nat)
    requires s.Valid() && p <= Below(s, range, 0) && n <= s.hs[p] && n <= MAX_LEVEL
    ensures RangeSearch(s, range, n, p) == TopShown(s, range, Below(s, range, 0), n)
    decreases n
  {
    hide LtRange, GtRange, FirstFrom, RangeWalk, Below, NextAt, Forward, InRange, Skip.Sorted, Skip.LevelRight;
    if n > 0 {
      RangeWalkEnds(s, range, n - 1, p);
      RangeSearchIs(s, range, n - 1, RangeWalk(s, range, n - 1, p));
    }
  }

  /** The levels of the first element not below the range, and only they, have a link that leads there. */
  lemma AcrossOwn(s: Skip, b: nat, l: nat)
    requires s.Shaped() && b + 1 < |s.hs| && l < MAX_LEVEL
    ensures Across(s, b, l) >= b + 1
    ensures Across(s, b, l) == b + 1 <==> l < s.hs[b + 1]
  {
    hide FirstFrom;
    var f := Forward(s.hs, b, l);
    CrossingIsForward(s.hs, b, f, l);
    if l < s.hs[b + 1] {
      FirstFromAtMost(s.hs, f + 1, l, b + 1);
    } else if Across(s, b, l) == b + 1 {
      Reaches(s.hs, f, l);
    }
  }

  lemma {:induction false} TopShownOwn(s: Skip, range: Range, b: nat, n: nat)
    requires s.Shaped() && b + 1 < |s.hs| && n <= s.hs[b + 1] && n <= MAX_LEVEL && InRange(s.elems[b + 1], range)
    ensures TopShown(s, range, b, n) == if exists l :: 0 <= l < n && Shown(s, b, l) then b + 1 else |s.hs|
    decreases n
  {
    hide Across, InRange, Forward;
    if n > 0 {
      AcrossOwn(s, b, n - 1);
      TopShownOwn(s, range, b, n - 1);
    }
  }

  lemma {:induction false} TopShownAll(s: Skip, range: Range, b: nat, n: nat)
    requires s.Shaped() && b + 1 < |s.hs| && s.hs[b + 1] <= n <= MAX_LEVEL && InRange(s.elems[b + 1], range)
    ensures TopShown(s, range, b, n) == b + 1 <==>
            (exists l :: 0 <= l < s.hs[b + 1] && Shown(s, b, l)) &&
            forall l :: s.hs[b + 1] <= l < n && Shown(s, b, l) ==> !InRange(s.elems[Across(s, b, l)], range)
    decreases n
  {
    hide Across, InRange, Forward;
    if n == s.hs[b + 1] {
      TopShownOwn(s, range, b, n);
    } else {
      AcrossOwn(s, b, n - 1);
      TopShownAll(s, range, b, n - 1);
    }
  }

  lemma {:induction false} TopShownNone(s: Skip, range: Range, b: nat, n: nat)
    requires s.Valid() && b < |s.hs| && n <= MAX_LEVEL && b == Below(s, range, 0)
    requires b + 1 < |s.hs| ==> !InRange(s.elems[b + 1], range)
    ensures TopShown(s, range, b, n) == |s.hs|
    decreases n
  {
    hide Forward, FirstFrom, LtRange, GtRange, Below, Skip.Sorted, Skip.LevelRight;
    if n > 0 {
      if Shown(s, b, n - 1) { CutOff(s, range, b, Across(s, b, n - 1)); }
      TopShownNone(s, range, b, n - 1);
    }
  }

  /** If the first element not below the range is not in it, none is. */
  lemma CutOff(s: Skip, range: Range, b: nat, q: nat)
    requires s.Valid() && b == Below(s, range, 0) && b < q < |s.hs| && !InRange(s.elems[b + 1], range)
    ensures !InRange(s.elems[q], range)
  {
    hide LtRange, GtRange, Below, Skip.Sorted, Skip.LevelRight;
    RangeCut(s, range, b + 1, q);
  }

  // --- when it is right --------------------------------------------------------------------------------------

  /** A lookup finds what a linear search finds. */
  ghost predicate Finds(s: Skip, range: Range)
    requires s.Shaped() && s.level <= MAX_LEVEL
  {
    RangeSearch(s, range, s.level, 0) == FirstInRange(s, range, 1)
  }

  /** The first element not below the range is out of it, or some level that leads there says that nothing is in
      between, and no higher level says so of an element in range that is further on. */
  ghost predicate RangeRight(s: Skip, range: Range)
    requires s.Shaped() && s.level <= MAX_LEVEL
  {
    var b := Below(s, range, 0);
    b + 1 < |s.hs| && InRange(s.elems[b + 1], range) ==>
      && (exists l :: 0 <= l < s.hs[b + 1] && Shown(s, b, l))
      && (forall l :: s.hs[b + 1] <= l < s.level && Shown(s, b, l) ==> !InRange(s.elems[Across(s, b, l)], range))
  }

  /** For every list, whatever its counters hold: a lookup finds what a linear search finds exactly then. */
  lemma RangeFindsExactly(s: Skip, range: Range)
    requires s.Valid()
    ensures s.level <= MAX_LEVEL && (Finds(s, range) <==> RangeRight(s, range))
  {
    hide RangeSearch, FirstInRange, LtRange, GtRange, InRange, Below, Shown, Across, TopShown, Skip.Sorted;
    var b := Below(s, range, 0);
    RangeSearchIs(s, range, s.level, 0);
    FirstIs(s, range, 1, b + 1);
    if b + 1 < |s.hs| && InRange(s.elems[b + 1], range) {
      TopShownAll(s, range, b, s.level);
    } else {
      TopShownNone(s, range, b, s.level);
    }
  }

  /** Elements of lower score end at a place. */
  predicate Step(s: Skip, b: nat)
    requires s.Shaped()
  {
    b + 1 < |s.hs| && (b > 0 ==> s.elems[b].score < s.elems[b + 1].score)
  }

  ghost predicate StepRight(s: Skip, b: nat)
    requires s.Shaped() && s.level <= MAX_LEVEL
  {
    b + 1 < |s.hs| && (exists l :: 0 <= l < s.hs[b + 1] && l < MAX_LEVEL && Shown(s, b, l))
        && forall l :: s.hs[b + 1] <= l < s.level ==> !Shown(s, b, l)
  }

  /** The range from the score of the element after place `b` on. */
  function From(s: Skip, b: nat): Range
    requires s.Shaped() && b + 1 < |s.hs|
  {
    Range(s.elems[b + 1].score, s.elems[|s.elems| - 1].score, false, false)
  }

  lemma FromStep(s: Skip, b: nat, q: nat)
    requires s.Valid() && Step(s, b) && 0 < q < |s.hs|
    ensures q <= b ==> LtRange(s.elems[q], From(s, b))
    ensures q > b ==> InRange(s.elems[q], From(s, b))
  {
    if q < b { assert !Before(s.elems[b], s.elems[q]); }
    if q > b + 1 { assert !Before(s.elems[q], s.elems[b + 1]); }
    if q < |s.hs| - 1 { assert !Before(s.elems[|s.hs| - 1], s.elems[q]); }
  }

  lemma BelowFrom(s: Skip, b: nat)
    requires s.Valid() && Step(s, b)
    ensures Below(s, From(s, b), 0) == b
  {
    hide LtRange, GtRange, Below, Skip.Sorted, Skip.LevelRight, From, Step;
    assert b + 1 < |s.hs| by { StepInside(s, b); }
    var c := Below(s, From(s, b), 0);
    if c < b { FromStep(s, b, c + 1); }
    if b < c { FromStep(s, b, b + 1); }
  }

  lemma StepInside(s: Skip, b: nat)
    requires s.Shaped() && Step(s, b)
    ensures b + 1 < |s.hs|
  {
  }

  lemma BelowSteps(s: Skip, range: Range)
    requires s.Valid() && Below(s, range, 0) + 1 < |s.hs|
    ensures Step(s, Below(s, range, 0))
  {
  }

  lemma StepIsFrom(s: Skip, b: nat)
    requires s.Valid() && s.level <= MAX_LEVEL && b + 1 < |s.hs| && Step(s, b)
    ensures RangeRight(s, From(s, b)) ==> StepRight(s, b)
  {
    hide LtRange, GtRange, InRange, Below, Forward, FirstFrom, Skip.Sorted, Skip.LevelRight, From, Step;
    var range := From(s, b);
    BelowFrom(s, b);
    FromStep(s, b, b + 1);
    if RangeRight(s, range) {
      forall l | s.hs[b + 1] <= l < s.level ensures !Shown(s, b, l) {
        if Shown(s, b, l) {
          AcrossOwn(s, b, l);
          FromStep(s, b, Across(s, b, l));
        }
      }
    }
  }

  lemma StepServes(s: Skip, range: Range)
    requires s.Valid() && s.level <= MAX_LEVEL
    requires var b := Below(s, range, 0); b + 1 < |s.hs| ==> StepRight(s, b)
    ensures RangeRight(s, range)
  {
    hide InRange, Below, Shown, Across, Skip.Sorted;
  }

  ghost predicate AllStepsRight(s: Skip)
    requires s.Shaped() && s.level <= MAX_LEVEL
  {
    forall b: nat :: Step(s, b) ==> StepRight(s, b)
  }

  /** Lookups are right for all ranges exactly when, wherever scores go up, some level says that the next element
      is next, and none that leads further says so. */
  lemma RangesExactly(s: Skip)
    requires s.Valid()
    ensures s.level <= MAX_LEVEL && ((forall range :: Finds(s, range)) <==> AllStepsRight(s))
  {
    hide RangeRight, Step, StepRight, Below, Finds, Skip.Sorted, Skip.LevelRight;
    LevelSmall(s);
    if forall range :: Finds(s, range) {
      forall b: nat | Step(s, b) ensures StepRight(s, b) {
        StepInside(s, b);
        assert Finds(s, From(s, b));
        RangeFindsExactly(s, From(s, b));
        StepIsFrom(s, b);
      }
    }
    if AllStepsRight(s) {
      forall range ensures Finds(s, range) {
        if Below(s, range, 0) + 1 < |s.hs| { BelowSteps(s, range); }
        StepServes(s, range);
        RangeFindsExactly(s, range);
      }
    }
  }

  lemma LevelSmall(s: Skip)
    requires s.Valid()
    ensures s.level <= MAX_LEVEL
  {
  }

  // --- lists made by insertion and deletion ------------------------------------------------------------------

  /** The counters of the lowest level are one. */
  ghost predicate Ones(s: Skip)
    requires s.Shaped()
  {
    forall p :: 0 <= p < |s.hs| - 1 ==> s.spans[p][0] == 1
  }

  /** They are in a new list, and stay so whatever is inserted, ... */
  lemma OnesInserted(s: Skip, e: Elem, h: nat, rank: seq<nat>)
    requires s.Valid() && Ones(s) && 0 < h <= MAX_LEVEL
    ensures InsertBy(s, e, h, rank).Shaped() && Ones(InsertBy(s, e, h, rank))
  {
    hide Place, FirstFrom, InsertBy, SpanBesideBy, SpanOfNewBy, Skip.Valid, Wrap;
    ShapedOf(s);
    InsertByShaped(s, e, h, rank);
    var r, k := InsertBy(s, e, h, rank), Place(s.elems, e, 0);
    forall p | 0 <= p < |r.hs| - 1 ensures r.spans[p][0] == 1 {
      InsertedSpanBy(s, e, h, rank, p, 0);
      if p == k + 1 {
        OneOfNew(s, k, h, Of(rank, 0));
      } else {
        OneBeside(s, k, h, if p <= k then p else p - 1, Of(rank, 0));
      }
    }
  }

  lemma OneBeside(s: Skip, k: nat, h: nat, p: nat, r0: nat)
    requires s.Valid() && Ones(s) && k < |s.hs| && p < |s.hs| && h > 0 && (p == k || p < |s.hs| - 1)
    ensures SpanBesideBy(s, k, h, p, 0, r0, r0) == 1
  {
    hide FirstFrom, Skip.Sorted;
    assert Forward(s.hs, k, 0) == k by { LowestForward(s, k); }
    if |s.hs| > 1 { assert 0 < s.hs[1] <= s.level; }
  }

  lemma OneOfNew(s: Skip, k: nat, h: nat, r0: nat)
    requires s.Valid() && Ones(s) && k < |s.hs| - 1 && h > 0
    ensures SpanOfNewBy(s, k, h, 0, r0, r0) == 1
  {
    hide FirstFrom, Skip.Sorted;
    assert Forward(s.hs, k, 0) == k by { LowestForward(s, k); }
    assert s.level > 0 by { assert s.hs[1] <= s.level; }
  }

  lemma LowestForward(s: Skip, k: nat)
    requires s.Shaped() && k < |s.hs|
    ensures Forward(s.hs, k, 0) == k
  {
  }

  /** ... or deleted. */
  lemma OnesDeleted(s: Skip, e: Elem)
    requires s.Valid() && Ones(s) && Hit(s, e, 0) < |s.hs|
    ensures Delete(s, e).0.Shaped() && Ones(Delete(s, e).0)
  {
    hide Delete, Walk, Stop, Kept, SpanAfter, Skip.Valid;
    ShapedOf(s);
    DeleteShaped(s, e);
    var r, v := Delete(s, e).0, Hit(s, e, 0);
    DeletedAt(s, e, 0, 0);
    forall i | 0 <= i < |r.hs| - 1 ensures r.spans[i][0] == 1 {
      var p := if i < v then i else i + 1;
      DeletedAt(s, e, p, 0);
      OneAfter(s, e, p);
    }
  }

  lemma OneAfter(s: Skip, e: Elem, p: nat)
    requires s.Valid() && Ones(s) && Hit(s, e, 0) < |s.hs| && p != Hit(s, e, 0)
    requires if p < Hit(s, e, 0) then p < |s.hs| - 2 else p < |s.hs| - 1
    ensures SpanAfter(s, e, p, 0) == 1
  {
    hide Walk, Stop, FirstFrom, Skip.Sorted;
    var v := Hit(s, e, 0);
    WalkStops(s, e, 0, 0);
    FirstFromIs(s.hs, Pred(s, e, 0) + 1, 0, Pred(s, e, 0) + 1);
  }

  /** With them a lookup is right exactly when no level that leads past the first element not below the range says
      that nothing is in between. */
  lemma OnesFindExactly(s: Skip, range: Range)
    requires s.Valid() && Ones(s)
    ensures s.level <= MAX_LEVEL
    ensures var b := Below(s, range, 0);
            Finds(s, range) <==>
            (b + 1 < |s.hs| && InRange(s.elems[b + 1], range) ==>
               forall l :: s.hs[b + 1] <= l < s.level && Shown(s, b, l) ==> !InRange(s.elems[Across(s, b, l)], range))
  {
    hide Finds, Below, InRange, Across, FirstFrom, Skip.Sorted, Skip.LevelRight;
    LevelSmall(s);
    RangeFindsExactly(s, range);
    var b := Below(s, range, 0);
    if b + 1 < |s.hs| { LowestShown(s, b); }
  }

  lemma LowestShown(s: Skip, b: nat)
    requires s.Shaped() && Ones(s) && b + 1 < |s.hs|
    ensures 0 < s.hs[b + 1] && Shown(s, b, 0)
  {
    hide FirstFrom;
    LowestForward(s, b);
    AcrossOwn(s, b, 0);
  }

  /** A counter of one stands beside a link to the next element. */
  predicate HonestAt(s: Skip, p: nat, l: nat)
    requires s.Shaped() && p < |s.hs| && l < MAX_LEVEL
  {
    NextAt(s.hs, p, l) < |s.hs| && s.spans[p][l] == 1 ==> NextAt(s.hs, p, l) == p + 1
  }

  ghost predicate Honest(s: Skip)
    requires s.Shaped()
  {
    && Ones(s)
    && (forall p, l :: 0 <= p < |s.hs| && 0 <= l < s.hs[p] && l < s.level && l < MAX_LEVEL ==> HonestAt(s, p, l))
  }

  lemma HonestSteps(s: Skip, b: nat)
    requires s.Valid() && Honest(s) && s.level <= MAX_LEVEL && b + 1 < |s.hs|
    ensures StepRight(s, b)
  {
    hide FirstFrom, Skip.Sorted, Skip.LevelRight;
    LowestShown(s, b);
    forall l | s.hs[b + 1] <= l < s.level ensures !Shown(s, b, l) {
      AcrossOwn(s, b, l);
      assert HonestAt(s, Forward(s.hs, b, l), l);
    }
  }

  /** That is enough for lookups to be right for all ranges, ... */
  lemma HonestFinds(s: Skip, range: Range)
    requires s.Valid() && Honest(s)
    ensures s.level <= MAX_LEVEL && Finds(s, range)
  {
    hide Finds, RangeRight, StepRight, Below, Honest, Skip.Sorted, Skip.LevelRight;
    LevelSmall(s);
    if Below(s, range, 0) + 1 < |s.hs| { HonestSteps(s, Below(s, range, 0)); }
    StepServes(s, range);
    RangeFindsExactly(s, range);
  }

  /** ... and exact counters are of that kind. */
  lemma RangeFinds(s: Skip, range: Range)
    requires s.Valid() && s.Exact()
    ensures s.level <= MAX_LEVEL && Finds(s, range)
  {
    hide Finds, Skip.Sorted, Skip.LevelRight;
    assert Honest(s) by { ExactHonest(s); }
    HonestFinds(s, range);
  }

  lemma ExactHonest(s: Skip)
    requires s.Valid() && s.Exact()
    ensures Honest(s)
  {
    hide FirstFrom, Skip.Sorted, Skip.LevelRight;
    forall p | 0 <= p < |s.hs| - 1 ensures s.spans[p][0] == 1 { FirstFromIs(s.hs, p + 1, 0, p + 1); }
  }
}
