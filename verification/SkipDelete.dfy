/** Deletion from the skip list, as the code does it: at every level the search starts over at the header
    and passes elements whose score is smaller OR whose object is smaller, and whatever it stops before
    is unlinked at that level. */
module SkipDelete {
  import opened Towers
  import opened SkipModel
  import opened Counters

  /** The search passes this element. */
  predicate Passes(x: Elem, e: Elem) { x.score < e.score || x.obj < e.obj }

  /** The first tower at or after `p` that reaches above level `l` and is not passed. */
  function Stop(s: Skip, e: Elem, l: nat, p: nat): (q: nat)
    requires p <= |s.hs| == |s.elems|
    ensures p <= q <= |s.hs|
    ensures q < |s.hs| ==> s.hs[q] > l && !Passes(s.elems[q], e)
    ensures forall j :: p <= j < q ==> s.hs[j] <= l || Passes(s.elems[j], e)
    decreases |s.hs| - p
  {
    if p == |s.hs| || (s.hs[p] > l && !Passes(s.elems[p], e)) then p else Stop(s, e, l, p + 1)
  }

  /** Where the walk along level `l` from `p` ends. */
  function Walk(s: Skip, e: Elem, l: nat, p: nat): (g: nat)
    requires p < |s.hs| == |s.elems|
    ensures p <= g < |s.hs|
    decreases |s.hs| - p
  {
    var q := NextAt(s.hs, p, l);
    if q < |s.hs| && Passes(s.elems[q], e) then Walk(s, e, l, q) else p
  }

  lemma {:induction false} StopIs(s: Skip, e: Elem, l: nat, p: nat, q: nat)
    requires p <= q <= |s.hs| == |s.elems|
    requires q < |s.hs| ==> s.hs[q] > l && !Passes(s.elems[q], e)
    requires forall j :: p <= j < q ==> s.hs[j] <= l || Passes(s.elems[j], e)
    ensures Stop(s, e, l, p) == q
    decreases q - p
  {
    if p < q { StopIs(s, e, l, p + 1, q); }
  }

  lemma NextIs(hs: seq<nat>, p: nat, l: nat)
    requires p < |hs|
    ensures NextAt(hs, p, l) < |hs| ==> hs[NextAt(hs, p, l)] > l
    ensures forall j :: p < j < NextAt(hs, p, l) ==> hs[j] <= l
  {
    hide FirstFrom;
  }

  /** The walk ends right before the first tower that stops it. */
  lemma {:induction false} WalkStops(s: Skip, e: Elem, l: nat, p: nat)
    requires p < |s.hs| == |s.elems| && s.hs[p] > l
    ensures var g := Walk(s, e, l, p);
            s.hs[g] > l && NextAt(s.hs, g, l) == Stop(s, e, l, p + 1)
    decreases |s.hs| - p
  {
    hide NextAt, Passes, Stop;
    var q := NextAt(s.hs, p, l);
    NextIs(s.hs, p, l);
    if q < |s.hs| && Passes(s.elems[q], e) {
      WalkStops(s, e, l, q);
      StopIs(s, e, l, p + 1, Stop(s, e, l, q + 1));
    } else {
      StopIs(s, e, l, p + 1, q);
    }
  }

  /** Once a level has nothing to stop at, no higher level has; and a tower that stops one level stops
      every higher level that it reaches. */
  lemma {:induction false} StopsRise(s: Skip, e: Elem, l: nat, m: nat, p: nat)
    requires p <= |s.hs| == |s.elems| && l <= m
    ensures Stop(s, e, l, p) <= Stop(s, e, m, p)
    ensures Stop(s, e, l, p) < |s.hs| && s.hs[Stop(s, e, l, p)] > m ==> Stop(s, e, m, p) == Stop(s, e, l, p)
    decreases |s.hs| - p
  {
    if p < |s.hs| { StopsRise(s, e, l, m, p + 1); }
  }

  // --- what deletion does ------------------------------------------------------------------------------------

  /** The place of the tower unlinked at level `l`, and of its predecessor there. */
  function Hit(s: Skip, e: Elem, l: nat): (q: nat)
    requires 0 < |s.hs| == |s.elems|
    ensures 0 < q <= |s.hs|
  {
    Stop(s, e, l, 1)
  }

  function Pred(s: Skip, e: Elem, l: nat): (g: nat)
    requires 0 < |s.hs| == |s.elems|
    ensures g < |s.hs|
  {
    Walk(s, e, l, 0)
  }

  /** How many levels a tower keeps: those below the first one at which it is hit. */
  function Kept(s: Skip, e: Elem, p: nat, l: nat): (h: nat)
    requires p < |s.hs| == |s.elems| && l <= s.hs[p]
    ensures l <= h <= s.hs[p]
    ensures forall m :: l <= m < h ==> Hit(s, e, m) != p
    ensures h < s.hs[p] ==> Hit(s, e, h) == p
    decreases s.hs[p] - l
  {
    if l == s.hs[p] || Hit(s, e, l) == p then l else Kept(s, e, p, l + 1)
  }

  function HeightAfter(s: Skip, e: Elem, p: nat): nat
    requires p < |s.hs| == |s.elems|
  {
    if p == 0 then s.hs[0] else Kept(s, e, p, 0)
  }

  function SpanAfter(s: Skip, e: Elem, p: nat, l: nat): nat
    requires p < |s.hs| == |s.elems| == |s.spans|
    requires forall j :: 0 <= j < |s.hs| ==> |s.spans[j]| > l
  {
    var q := Hit(s, e, l);
    if l < s.level && p == Pred(s, e, l) && q < |s.hs| then
      var sum: int := s.spans[p][l] + s.spans[q][l];
      Wrap(sum - 1)
    else s.spans[p][l]
  }

  /** Level `l` is left without a tower. */
  predicate Emptied(s: Skip, e: Elem, l: nat)
    requires 0 < |s.hs| == |s.elems|
  {
    Pred(s, e, l) == 0 && Hit(s, e, l) < |s.hs| && NextAt(s.hs, Hit(s, e, l), l) == |s.hs|
  }

  function EmptiedBelow(s: Skip, e: Elem, n: nat): (c: nat)
    requires 0 < |s.hs| == |s.elems|
    ensures c <= n
  {
    if n == 0 then 0 else EmptiedBelow(s, e, n - 1) + if Emptied(s, e, n - 1) then 1 else 0
  }

  function Delete(s: Skip, e: Elem): (Skip, int)
    requires s.Shaped()
  {
    var v := Hit(s, e, 0);
    if v == |s.hs| || (s.elems[v].score != e.score && s.elems[v].obj < e.obj) then (s, -1)
    else
      var hs := seq(|s.hs|, p requires 0 <= p < |s.hs| => HeightAfter(s, e, p));
      var spans := seq(|s.hs|, p requires 0 <= p < |s.hs| =>
                         seq(MAX_LEVEL, l requires 0 <= l < MAX_LEVEL => SpanAfter(s, e, p, l)));
      (Skip(RemoveAt(s.elems, v), RemoveAt(hs, v), RemoveAt(spans, v), s.level - EmptiedBelow(s, e, s.level)), 0)
  }

  /** Where a tower ends up, and which tower a place comes from. */
  function Shift(v: nat, p: nat): (r: nat)
    requires p != v
  {
    if p < v then p else p - 1
  }

  function Unshift(v: nat, p: nat): (r: nat)
    ensures r != v && Shift(v, r) == p
  {
    if p < v then p else p + 1
  }

  /** A deletion refuses only when every element is passed. */
  lemma DeleteAnswer(s: Skip, e: Elem)
    requires s.Shaped()
    ensures Delete(s, e).1 == -1 <==> forall p :: 0 < p < |s.hs| ==> Passes(s.elems[p], e)
    ensures Delete(s, e).1 == -1 ==> Delete(s, e).0 == s
    ensures Delete(s, e).1 == 0 <==> Hit(s, e, 0) < |s.hs|
  {
  }

  lemma DeletedAt(s: Skip, e: Elem, p: nat, l: nat)
    requires s.Shaped() && Hit(s, e, 0) < |s.hs| && p < |s.hs| && p != Hit(s, e, 0) && l < MAX_LEVEL
    ensures var r, v := Delete(s, e).0, Hit(s, e, 0);
            && |r.hs| == |r.elems| == |r.spans| == |s.hs| - 1
            && r.hs[Shift(v, p)] == HeightAfter(s, e, p)
            && r.elems[Shift(v, p)] == s.elems[p]
            && |r.spans[Shift(v, p)]| == MAX_LEVEL && r.spans[Shift(v, p)][l] == SpanAfter(s, e, p, l)
  {
    hide Stop, Walk, Kept, Passes, HeightAfter, SpanAfter, EmptiedBelow;
    DeleteAnswer(s, e);
  }

  /** The hit towers at each level go, all others stay linked. */
  lemma StaysLinked(s: Skip, e: Elem, p: nat, l: nat)
    requires s.Shaped() && 0 < p < |s.hs|
    ensures l < HeightAfter(s, e, p) <==> l < s.hs[p] && Hit(s, e, l) != p
  {
    hide Stop;
    var h := Kept(s, e, p, 0);
    if h <= l < s.hs[p] { StopsRise(s, e, h, l, 1); }
  }

  lemma AfterDelete(s: Skip, e: Elem, p: nat, l: nat, t: nat)
    requires s.Shaped() && Hit(s, e, 0) < |s.hs| && p < t <= |s.hs| && l < MAX_LEVEL
    requires p != Hit(s, e, 0) && t != Hit(s, e, 0)
    requires t < |s.hs| ==> l < HeightAfter(s, e, t)
    requires forall j :: p < j < t && j != Hit(s, e, 0) ==> HeightAfter(s, e, j) <= l
    ensures var r, v := Delete(s, e).0, Hit(s, e, 0);
            |r.hs| == |s.hs| - 1 && NextAt(r.hs, Shift(v, p), l) == Shift(v, t)
  {
    hide Stop, FirstFrom, HeightAfter, Delete;
    var v := Hit(s, e, 0);
    var r := Delete(s, e).0;
    DeletedAt(s, e, p, l);
    if t < |s.hs| { DeletedAt(s, e, t, l); }
    forall j | Shift(v, p) + 1 <= j < Shift(v, t) ensures r.hs[j] <= l {
      DeletedAt(s, e, Unshift(v, j), l);
    }
    FirstFromIs(r.hs, Shift(v, p) + 1, l, Shift(v, t));
  }

  /** The victim is hit at every level it reaches. */
  lemma VictimHit(s: Skip, e: Elem, l: nat)
    requires s.Shaped() && Hit(s, e, 0) < |s.hs| && l < s.hs[Hit(s, e, 0)]
    ensures Hit(s, e, l) == Hit(s, e, 0)
  {
    StopsRise(s, e, 0, l, 1);
  }

  /** A link that does not lead to the level's hit tower still leads where it led ... */
  lemma NextAfterDeleteOther(s: Skip, e: Elem, p: nat, l: nat)
    requires s.Shaped() && Hit(s, e, 0) < |s.hs| && p < |s.hs| && p != Hit(s, e, 0) && l < MAX_LEVEL
    requires NextAt(s.hs, p, l) == |s.hs| || NextAt(s.hs, p, l) != Hit(s, e, l)
    ensures var r, v, q := Delete(s, e).0, Hit(s, e, 0), NextAt(s.hs, p, l);
            |r.hs| == |s.hs| - 1 && q != v && NextAt(r.hs, Shift(v, p), l) == Shift(v, q)
  {
    hide Stop, FirstFrom, Delete, Kept;
    var q := NextAt(s.hs, p, l);
    if q == Hit(s, e, 0) { VictimHit(s, e, l); }
    if q < |s.hs| { StaysLinked(s, e, q, l); }
    AfterDelete(s, e, p, l, q);
  }

  /** ... and the link to the hit tower now skips it. */
  lemma NextAfterDeletePred(s: Skip, e: Elem, p: nat, l: nat)
    requires s.Shaped() && Hit(s, e, 0) < |s.hs| && p < |s.hs| && p != Hit(s, e, 0) && l < MAX_LEVEL
    requires NextAt(s.hs, p, l) == Hit(s, e, l) < |s.hs|
    ensures var r, v, n := Delete(s, e).0, Hit(s, e, 0), NextAt(s.hs, Hit(s, e, l), l);
            |r.hs| == |s.hs| - 1 && n != v && NextAt(r.hs, Shift(v, p), l) == Shift(v, n)
  {
    hide Stop, FirstFrom, Delete, Kept;
    var q := Hit(s, e, l);
    var n := NextAt(s.hs, q, l);
    StopsRise(s, e, 0, l, 1);
    StaysLinked(s, e, q, l);
    if n < |s.hs| { StaysLinked(s, e, n, l); }
    AfterDelete(s, e, p, l, n);
  }

  // --- the counters ------------------------------------------------------------------------------------------

  /** Every level's search stops before the victim. */
  ghost predicate Straight(s: Skip, e: Elem)
    requires s.Shaped()
  {
    forall l :: 0 <= l < s.level ==> Pred(s, e, l) < Hit(s, e, 0)
  }

  lemma PredLinks(s: Skip, e: Elem, l: nat)
    requires s.Shaped() && l < MAX_LEVEL
    ensures s.hs[Pred(s, e, l)] > l && NextAt(s.hs, Pred(s, e, l), l) == Hit(s, e, l)
  {
    WalkStops(s, e, l, 0);
  }

  /** A tower is the predecessor of at most one. */
  lemma SameSuccessor(hs: seq<nat>, p: nat, g: nat, l: nat)
    requires p < |hs| && g < |hs| && hs[p] > l && hs[g] > l && NextAt(hs, p, l) == NextAt(hs, g, l)
    ensures p == g
  {
    hide FirstFrom;
  }

  /** A link from before the victim to after it, left alone by the deletion, makes that level's search end
      after the victim. */
  lemma CrossingPasses(s: Skip, e: Elem, p: nat, l: nat)
    requires s.Shaped() && l < MAX_LEVEL && Hit(s, e, 0) < |s.hs| && p < Hit(s, e, 0) && s.hs[p] > l
    requires NextAt(s.hs, p, l) != Hit(s, e, l)
    requires Hit(s, e, 0) < NextAt(s.hs, p, l) < |s.hs|
    ensures Pred(s, e, l) > Hit(s, e, 0)
  {
    hide FirstFrom, Passes, Stop, Walk;
    var v, q, g := Hit(s, e, 0), NextAt(s.hs, p, l), Pred(s, e, l);
    PredLinks(s, e, l);
    StopsRise(s, e, 0, l, 1);
    if g == v { VictimHit(s, e, l); }
  }

  lemma DeleteShaped(s: Skip, e: Elem)
    requires s.Shaped() && Hit(s, e, 0) < |s.hs|
    ensures Delete(s, e).0.Shaped()
  {
    hide Stop, Kept, SpanAfter, Delete, Passes;
    var v, r := Hit(s, e, 0), Delete(s, e).0;
    DeletedAt(s, e, 0, 0);
    forall i | 0 <= i < |s.hs| - 1
      ensures |r.spans[i]| == MAX_LEVEL && (i == 0 ==> r.hs[i] == MAX_LEVEL) && (i > 0 ==> 0 < r.hs[i] <= MAX_LEVEL)
    {
      var p := Unshift(v, i);
      DeletedAt(s, e, p, 0);
      if p > 0 { StaysLinked(s, e, p, 0); }
    }
  }

  /** The counter that deletion leaves beside a link: exact unless the link crosses the victim's place and
      was not the one that was relinked, or was relinked beyond that place. */
  lemma CounterAfterDelete(s: Skip, e: Elem, p: nat, l: nat)
    requires s.Valid() && s.Exact() && Hit(s, e, 0) < |s.hs| < UINT32
    requires p < |s.hs| && p != Hit(s, e, 0) && l < HeightAfter(s, e, p)
    ensures l < s.hs[p] <= MAX_LEVEL
    ensures var r, v := Delete(s, e).0, Hit(s, e, 0);
            && |r.hs| == |s.hs| - 1 == |r.spans| && |r.spans[Shift(v, p)]| == MAX_LEVEL
            && var n := NextAt(r.hs, Shift(v, p), l);
            n < |r.hs| ==>
              NextAt(s.hs, p, l) < |s.hs| &&
              (r.spans[Shift(v, p)][l] == n - Shift(v, p) <==>
               if p == Pred(s, e, l) then p < v else !(p < v < NextAt(s.hs, p, l)))
  {
    hide Stop, Kept, Delete, Passes, FirstFrom, Walk, SpanAfter, HeightAfter, Skip.Sorted;
    var r, v, q := Delete(s, e).0, Hit(s, e, 0), NextAt(s.hs, p, l);
    if p > 0 { StaysLinked(s, e, p, l); } else { assert HeightAfter(s, e, 0) == s.hs[0] by { HeaderHeight(s, e); } }
    DeletedAt(s, e, p, l);
    PredLinks(s, e, l);
    if p == Pred(s, e, l) && q < |s.hs| {
      NextAfterDeletePred(s, e, p, l);
      RelinkedCounter(s, e, l);
    } else {
      if q == Hit(s, e, l) && q < |s.hs| { SameSuccessor(s.hs, p, Pred(s, e, l), l); }
      NextAfterDeleteOther(s, e, p, l);
      KeptCounter(s, e, p, l);
    }
  }

  lemma HeaderHeight(s: Skip, e: Elem)
    requires s.Shaped()
    ensures HeightAfter(s, e, 0) == s.hs[0]
  {
  }

  lemma RelinkedCounter(s: Skip, e: Elem, l: nat)
    requires s.Valid() && s.Exact() && |s.hs| < UINT32 && l < MAX_LEVEL && Hit(s, e, l) < |s.hs|
    ensures var p, n := Pred(s, e, l), NextAt(s.hs, Hit(s, e, l), l);
            n < |s.hs| ==> SpanAfter(s, e, p, l) == n - p - 1
  {
    hide Stop, Passes, FirstFrom, Walk, Skip.Sorted;
    PredLinks(s, e, l);
  }

  lemma KeptCounter(s: Skip, e: Elem, p: nat, l: nat)
    requires s.Valid() && s.Exact() && p < |s.hs| && l < s.hs[p]
    requires p != Pred(s, e, l) || Hit(s, e, l) == |s.hs|
    ensures l < MAX_LEVEL
    ensures NextAt(s.hs, p, l) < |s.hs| ==> SpanAfter(s, e, p, l) == NextAt(s.hs, p, l) - p
  {
    hide Stop, Passes, FirstFrom, Walk, Skip.Sorted;
  }

  lemma StraightIsExact(s: Skip, e: Elem)
    requires s.Valid() && s.Exact() && Hit(s, e, 0) < |s.hs| < UINT32 && Straight(s, e)
    ensures Delete(s, e).0.Shaped() && Delete(s, e).0.Exact()
  {
    hide Stop, Kept, Delete, Passes, FirstFrom, Walk, SpanAfter, HeightAfter, Skip.Sorted, NextAt;
    DeleteShaped(s, e);
    var v, r := Hit(s, e, 0), Delete(s, e).0;
    DeletedAt(s, e, 0, 0);
    forall i, l | 0 <= i < |r.hs| && 0 <= l < r.hs[i] && NextAt(r.hs, i, l) < |r.hs|
      ensures r.spans[i][l] == NextAt(r.hs, i, l) - i
    {
      var p := Unshift(v, i);
      DeletedAt(s, e, p, 0);
      CounterAfterDelete(s, e, p, l);
      var q := NextAt(s.hs, p, l);
      InUse(s, p, l);
      PredLinks(s, e, l);
      if p != Pred(s, e, l) && p < v < q {
        if q == Hit(s, e, l) { SameSuccessor(s.hs, p, Pred(s, e, l), l); }
        CrossingPasses(s, e, p, l);
      }
    }
  }

  lemma InUse(s: Skip, p: nat, l: nat)
    requires s.Valid() && p < |s.hs| && l < s.hs[p] && NextAt(s.hs, p, l) < |s.hs|
    ensures l < s.level && l < MAX_LEVEL
  {
    hide FirstFrom;
  }

  lemma BentIsWrong(s: Skip, e: Elem, l: nat)
    requires s.Valid() && s.Exact() && Hit(s, e, 0) < |s.hs| < UINT32
    requires l < s.level && Pred(s, e, l) >= Hit(s, e, 0)
    ensures Delete(s, e).0.Shaped() && !Delete(s, e).0.Exact()
  {
    hide Stop, Kept, Delete, Passes, FirstFrom, Walk, SpanAfter, HeightAfter, Skip.Sorted;
    DeleteShaped(s, e);
    var v, r, g := Hit(s, e, 0), Delete(s, e).0, Pred(s, e, l);
    PredLinks(s, e, l);
    if s.hs[v] > l { VictimHit(s, e, l); }
    var p := Forward(s.hs, v - 1, l);
    CrossingIsForward(s.hs, v - 1, p, l);
    FirstFromAtMost(s.hs, p + 1, l, g);
    if p > 0 { StaysLinked(s, e, p, l); } else { HeaderHeight(s, e); }
    CounterAfterDelete(s, e, p, l);
    NextAfterDeleteOther(s, e, p, l);
    DeletedAt(s, e, p, l);
    assert NextAt(r.hs, Shift(v, p), l) < |r.hs|;
  }

  /** After a deletion the counters are right exactly when no level's search ran past the victim. */
  lemma DeleteExactly(s: Skip, e: Elem)
    requires s.Valid() && s.Exact() && Hit(s, e, 0) < |s.hs| < UINT32
    ensures Delete(s, e).0.Shaped()
    ensures Delete(s, e).0.Exact() <==> Straight(s, e)
  {
    hide Delete, Walk, Stop, Skip.Exact;
    DeleteShaped(s, e);
    if Straight(s, e) {
      StraightIsExact(s, e);
    } else {
      var l :| 0 <= l < s.level && Pred(s, e, l) >= Hit(s, e, 0);
      BentIsWrong(s, e, l);
    }
  }

  // --- order and level ---------------------------------------------------------------------------------------

  lemma DeleteElems(s: Skip, e: Elem)
    requires s.Shaped() && Hit(s, e, 0) < |s.hs|
    ensures Delete(s, e).0.elems == RemoveAt(s.elems, Hit(s, e, 0))
  {
    hide Stop, Kept, Passes, SpanAfter, HeightAfter, EmptiedBelow, RemoveAt;
    DeleteAnswer(s, e);
  }

  lemma DeleteSorted(s: Skip, e: Elem)
    requires s.Shaped() && s.Sorted() && Hit(s, e, 0) < |s.hs|
    ensures Delete(s, e).0.Shaped() && Delete(s, e).0.Sorted()
    ensures Delete(s, e).0.Contents() == RemoveAt(s.Contents(), Hit(s, e, 0) - 1)
  {
    hide Stop, Delete, Before;
    DeleteShaped(s, e);
    DeleteElems(s, e);
    var v, r := Hit(s, e, 0), Delete(s, e).0;
    assert r.Contents() == RemoveAt(s.Contents(), v - 1);
    forall i, j | 0 < i < j < |r.elems| ensures !Before(r.elems[j], r.elems[i]) {
      assert r.elems[i] == s.elems[Unshift(v, i)] && r.elems[j] == s.elems[Unshift(v, j)];
    }
  }

  /** Some tower other than the one hit reaches above level `l`. */
  ghost predicate Survives(s: Skip, e: Elem, l: nat)
    requires s.Shaped()
  {
    exists p :: 0 < p < |s.hs| && s.hs[p] > l && p != Hit(s, e, l)
  }

  lemma EmptiedIff(s: Skip, e: Elem, l: nat)
    requires s.Valid() && l < s.level && Hit(s, e, 0) < |s.hs|
    ensures Emptied(s, e, l) <==> !Survives(s, e, l)
  {
    hide Stop, Passes, Walk, FirstFrom, Skip.Sorted;
    var g, q := Pred(s, e, l), Hit(s, e, l);
    PredLinks(s, e, l);
    if !Emptied(s, e, l) {
      if g > 0 {
        assert Survives(s, e, l);
      } else if q < |s.hs| {
        var n := NextAt(s.hs, q, l);
        assert s.hs[n] > l && n != q;
      }
    }
  }

  lemma SurvivalFalls(s: Skip, e: Elem, l: nat, m: nat)
    requires s.Shaped() && l <= m && Survives(s, e, m)
    ensures Survives(s, e, l)
  {
    hide Stop;
    var p :| 0 < p < |s.hs| && s.hs[p] > m && p != Hit(s, e, m);
    StopsRise(s, e, l, m, 1);
    assert s.hs[p] > l;
  }

  /** The emptied levels are the topmost ones. */
  lemma {:induction false} CountEmptied(s: Skip, e: Elem, n: nat)
    requires s.Valid() && n <= s.level && Hit(s, e, 0) < |s.hs|
    ensures var t := n - EmptiedBelow(s, e, n);
            (t > 0 ==> Survives(s, e, t - 1)) && (forall l :: t <= l < n ==> !Survives(s, e, l))
  {
    hide Emptied, Survives, Skip.Sorted, Skip.LevelRight;
    if n > 0 {
      CountEmptied(s, e, n - 1);
      EmptiedIff(s, e, n - 1);
      var t := n - 1 - EmptiedBelow(s, e, n - 1);
      if Survives(s, e, n - 1) {
        if t < n - 1 { SurvivalFalls(s, e, t, n - 1); }
      }
    }
  }

  lemma SurvivorHeight(s: Skip, e: Elem, p: nat, l: nat)
    requires s.Valid() && 0 < p < |s.hs|
    ensures HeightAfter(s, e, p) > l ==> l < s.level && Survives(s, e, l)
  {
    hide Stop, Kept;
    StaysLinked(s, e, p, l);
  }

  lemma HeightsAfter(s: Skip, e: Elem, t: nat)
    requires s.Valid() && Hit(s, e, 0) < |s.hs|
    requires forall l :: t <= l < s.level ==> !Survives(s, e, l)
    ensures forall p :: 0 < p < |s.hs| ==> HeightAfter(s, e, p) <= t
  {
    hide Stop, Survives, HeightAfter;
    forall p | 0 < p < |s.hs| ensures HeightAfter(s, e, p) <= t {
      SurvivorHeight(s, e, p, t);
    }
  }

  lemma DeleteLevel(s: Skip, e: Elem)
    requires s.Valid() && Hit(s, e, 0) < |s.hs|
    ensures var r := Delete(s, e).0;
            && r.Shaped() && r.LevelRight()
            && (r.level > 0 ==> exists i :: 0 < i < |r.hs| && r.hs[i] == r.level)
  {
    hide Stop, Kept, Passes, SpanAfter, Walk, Skip.Sorted, HeightAfter, EmptiedBelow, Delete;
    DeleteShaped(s, e);
    CountEmptied(s, e, s.level);
    LevelAfter(s, e);
    var v, r := Hit(s, e, 0), Delete(s, e).0;
    var t := r.level;
    HeightsAfter(s, e, t);
    DeletedAt(s, e, 0, 0);
    forall i | 0 < i < |r.hs| ensures r.hs[i] <= t {
      DeletedAt(s, e, Unshift(v, i), 0);
    }
    if t > 0 {
      var p :| 0 < p < |s.hs| && s.hs[p] > t - 1 && p != Hit(s, e, t - 1);
      StaysLinked(s, e, p, t - 1);
      DeletedAt(s, e, p, 0);
      assert r.hs[Shift(v, p)] == t;
    }
  }

  lemma LevelAfter(s: Skip, e: Elem)
    requires s.Shaped() && Hit(s, e, 0) < |s.hs|
    ensures Delete(s, e).0.level == s.level - EmptiedBelow(s, e, s.level)
  {
    hide Stop, Kept, Passes, SpanAfter, Walk, HeightAfter, EmptiedBelow;
    DeleteAnswer(s, e);
  }

  /** A deletion that finds a tower to stop at takes exactly that element out, keeps the order and keeps
      `level` the height of the tallest tower, for every list and every key. */
  lemma DeleteValid(s: Skip, e: Elem)
    requires s.Valid() && Hit(s, e, 0) < |s.hs|
    ensures Delete(s, e).0.Valid()
    ensures Delete(s, e).0.Contents() == RemoveAt(s.Contents(), Hit(s, e, 0) - 1)
  {
    hide Stop, Kept, Delete, Passes, SpanAfter, Before, Walk;
    DeleteSorted(s, e);
    DeleteLevel(s, e);
  }

  // --- when it is the right element --------------------------------------------------------------------------

  /** No element that the search passes comes after one that it does not pass. */
  ghost predicate Separated(s: Skip, e: Elem)
    requires s.Shaped()
  {
    forall p, q :: 0 < p < q < |s.hs| && Passes(s.elems[q], e) ==> Passes(s.elems[p], e)
  }

  /** Lists in which all scores are the deleted key's are of this kind. */
  lemma EqualScoresSeparated(s: Skip, e: Elem)
    requires s.Valid() && forall p :: 0 < p < |s.hs| ==> s.elems[p].score == e.score
    ensures Separated(s, e)
  {
    forall p, q | 0 < p < q < |s.hs| && Passes(s.elems[q], e) ensures Passes(s.elems[p], e) {
      assert !Before(s.elems[q], s.elems[p]);
    }
  }

  lemma SeparatedIsStraight(s: Skip, e: Elem)
    requires s.Valid() && Hit(s, e, 0) < |s.hs| && Separated(s, e)
    ensures Straight(s, e)
  {
    hide Walk, Stop, Passes;
    forall l | 0 <= l < s.level ensures Pred(s, e, l) < Hit(s, e, 0) {
      WalkPassed(s, e, l, 0);
    }
  }

  lemma {:induction false} WalkPassed(s: Skip, e: Elem, l: nat, p: nat)
    requires p < |s.hs| == |s.elems|
    ensures Walk(s, e, l, p) == p || Passes(s.elems[Walk(s, e, l, p)], e)
    decreases |s.hs| - p
  {
    var q := NextAt(s.hs, p, l);
    if q < |s.hs| && Passes(s.elems[q], e) { WalkPassed(s, e, l, q); }
  }

  /** On separated lists, equal-score lists among them, the counters stay right. */
  lemma DeleteSeparated(s: Skip, e: Elem)
    requires s.Valid() && s.Exact() && |s.hs| < UINT32 && Separated(s, e)
    ensures Delete(s, e).0.Valid() && Delete(s, e).0.Exact()
    ensures Delete(s, e).1 == 0 <==> Hit(s, e, 0) < |s.hs|
  {
    hide Delete, Walk, Stop, Skip.Exact;
    DeleteAnswer(s, e);
    if Hit(s, e, 0) < |s.hs| {
      DeleteValid(s, e);
      SeparatedIsStraight(s, e);
      DeleteExactly(s, e);
    }
  }

  /** Whatever the scores and the counters: the element taken out is the key exactly when the key is there;
      then the deletion answers zero and just that element goes. */
  lemma KeyTakenExactly(s: Skip, e: Elem)
    requires s.Valid()
    ensures var v := Hit(s, e, 0);
            && (e in s.Contents() <==> v < |s.hs| && s.elems[v] == e)
            && (e in s.Contents() ==>
                  Delete(s, e).1 == 0 && Delete(s, e).0.Valid()
                      && Delete(s, e).0.Contents() == RemoveAt(s.Contents(), v - 1))
  {
    hide Delete, Hit, Skip.Sorted, Skip.LevelRight, RemoveAt, Skip.Contents;
    KeyIsHit(s, e);
    DeleteAnswer(s, e);
    if Hit(s, e, 0) < |s.hs| { DeleteValid(s, e); }
  }

  lemma KeyIsHit(s: Skip, e: Elem)
    requires s.Valid()
    ensures var v := Hit(s, e, 0); e in s.Contents() <==> v < |s.hs| && s.elems[v] == e
  {
    hide Hit, Skip.Sorted, Skip.LevelRight;
    var v := Hit(s, e, 0);
    if v < |s.hs| { assert s.elems[v] == s.Contents()[v - 1]; }
    if e in s.Contents() {
      var i :| 0 <= i < |s.Contents()| && s.Contents()[i] == e;
      FirstUnpassed(s, e, i + 1);
    }
  }

  /** A key that is there is where the lowest level's search stops. */
  lemma FirstUnpassed(s: Skip, e: Elem, i: nat)
    requires s.Valid() && 0 < i < |s.hs| && s.elems[i] == e
    ensures Hit(s, e, 0) < |s.hs| && s.elems[Hit(s, e, 0)] == e
  {
    hide Stop, Skip.LevelRight;
    var v := Hit(s, e, 0);
    if v < i { assert !Before(s.elems[i], s.elems[v]); }
  }

  /** The same condition told by the list: at no level in use that the victim does not reach is the next tower
      after the victim one that the search passes. */
  ghost predicate NoneBeyond(s: Skip, e: Elem)
    requires s.Shaped() && Hit(s, e, 0) < |s.hs|
  {
    var v := Hit(s, e, 0);
    forall l :: s.hs[v] <= l < s.level && NextAt(s.hs, v, l) < |s.hs| ==> !Passes(s.elems[NextAt(s.hs, v, l)], e)
  }

  lemma StraightAt(s: Skip, e: Elem, l: nat)
    requires s.Valid() && Hit(s, e, 0) < |s.hs| && l < s.level
    ensures var v := Hit(s, e, 0);
            Pred(s, e, l) < v <==>
                l < s.hs[v] || NextAt(s.hs, v, l) == |s.hs| || !Passes(s.elems[NextAt(s.hs, v, l)], e)
  {
    hide Stop, Walk, FirstFrom, Passes, Skip.Sorted;
    var v, g := Hit(s, e, 0), Pred(s, e, l);
    PredLinks(s, e, l);
    if l < s.hs[v] {
      VictimHit(s, e, l);
    } else {
      StopsRise(s, e, 0, l, 1);
      var q := NextAt(s.hs, v, l);
      if g >= v {
        assert q <= g;
        StopBetween(s, e, l, q);
      } else {
        assert q <= Hit(s, e, l);
      }
    }
  }

  /** What the search leaves behind it is passed. */
  lemma StopBetween(s: Skip, e: Elem, l: nat, q: nat)
    requires s.Shaped() && 0 < q < Hit(s, e, l) && s.hs[q] > l
    ensures Passes(s.elems[q], e)
  {
    hide Passes;
  }

  lemma StraightIsNoneBeyond(s: Skip, e: Elem)
    requires s.Valid() && Hit(s, e, 0) < |s.hs|
    ensures Straight(s, e) <==> NoneBeyond(s, e)
  {
    hide Stop, Walk, Passes, NextAt, Skip.Sorted;
    forall l | 0 <= l < s.level
      ensures Pred(s, e, l) < Hit(s, e, 0) <==>
              (s.hs[Hit(s, e, 0)] <= l && NextAt(s.hs, Hit(s, e, 0), l) < |s.hs| ==>
                  !Passes(s.elems[NextAt(s.hs, Hit(s, e, 0), l)], e))
    {
      StraightAt(s, e, l);
    }
  }
}
