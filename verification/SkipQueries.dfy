/** Looking elements up by rank and by score range, descending the levels. */
module SkipQueries {
  import opened Towers
  import opened SkipModel
  import opened SkipDelete
  import opened Counters

  // --- by rank -------------------------------------------------------------------------------------------------

  /** The walk along level `l`: as long as a link's counter is less than what is left of the rank. */
  function RankWalk(s: Skip, l: nat, p: nat, rank: nat): (r: (nat, nat))
    requires s.Shaped() && p < |s.hs| && l < MAX_LEVEL
    ensures p <= r.0 < |s.hs|
    decreases |s.hs| - p
  {
    var q := NextAt(s.hs, p, l);
    if q < |s.hs| && s.spans[p][l] < rank then RankWalk(s, l, q, rank - s.spans[p][l]) else (p, rank)
  }

  /** The place found among the lowest `n` levels; the length of the row stands for null. */
  function RankSearch(s: Skip, n: nat, p: nat, rank: nat): (r: nat)
    requires s.Shaped() && p < |s.hs| && n <= MAX_LEVEL
    ensures r <= |s.hs|
    decreases n
  {
    if n == 0 then |s.hs|
    else
      var (g, left) := RankWalk(s, n - 1, p, rank);
      if s.spans[g][n - 1] == left then NextAt(s.hs, g, n - 1) else RankSearch(s, n - 1, g, left)
  }

  /** No leftover counter beside a null link can be mistaken for a distance still to go. */
  ghost predicate Clear(s: Skip)
    requires s.Shaped()
  {
    forall p, l :: 0 <= p < |s.hs| && 0 <= l < s.hs[p] && l < s.level && NextAt(s.hs, p, l) == |s.hs|
      ==> s.spans[p][l] == 0 || s.spans[p][l] >= |s.hs| - p
  }

  lemma ExactAt(s: Skip, p: nat, l: nat)
    requires s.Shaped() && s.Exact() && p < |s.hs| && l < s.hs[p] && NextAt(s.hs, p, l) < |s.hs|
    ensures l < |s.spans[p]| && s.spans[p][l] == NextAt(s.hs, p, l) - p && l < s.hs[NextAt(s.hs, p, l)]
  {
  }

  lemma ClearAt(s: Skip, p: nat, l: nat)
    requires s.Shaped() && Clear(s) && p < |s.hs| && l < s.hs[p] && l < s.level && NextAt(s.hs, p, l) == |s.hs|
    ensures l < |s.spans[p]| && (s.spans[p][l] == 0 || s.spans[p][l] >= |s.hs| - p)
  {
  }

  /** The walk goes as far as it can without reaching place `t`. */
  lemma {:induction false} RankWalkStops(s: Skip, l: nat, p: nat, t: nat)
    requires s.Valid() && s.Exact() && l < MAX_LEVEL && p < |s.hs| && l < s.hs[p] && p < t
    ensures var (g, left) := RankWalk(s, l, p, t - p);
            l < s.hs[g] && g < t && left == t - g && NextAt(s.hs, g, l) >= (if t < |s.hs| then t else |s.hs|)
    decreases |s.hs| - p
  {
    hide NextAt, Skip.Exact, Skip.Sorted, Skip.LevelRight;
    var q := NextAt(s.hs, p, l);
    if q < |s.hs| {
      ExactAt(s, p, l);
      if q < t { RankWalkStops(s, l, q, t); }
    }
  }

  lemma NextLowest(s: Skip, g: nat)
    requires s.Shaped() && g < |s.hs|
    ensures NextAt(s.hs, g, 0) == g + 1
  {
    FirstFromIs(s.hs, g + 1, 0, g + 1);
  }

  lemma {:induction false} RankSearchFinds(s: Skip, n: nat, p: nat, t: nat)
    requires s.Valid() && s.Exact() && Clear(s) && n <= s.level
    requires p < t < |s.hs| && n <= s.hs[p]
    ensures n > 0 ==> RankSearch(s, n, p, t - p) == t
    decreases n
  {
    hide FirstFrom, NextAt, RankWalk, Skip.Exact, Clear, Skip.Sorted, Skip.LevelRight;
    if n > 0 {
      RankWalkStops(s, n - 1, p, t);
      var (g, left) := RankWalk(s, n - 1, p, t - p);
      var q := NextAt(s.hs, g, n - 1);
      if n == 1 { NextLowest(s, g); }
      if q < |s.hs| { ExactAt(s, g, n - 1); } else { ClearAt(s, g, n - 1); }
      if s.spans[g][n - 1] != left { RankSearchFinds(s, n - 1, g, t); }
    }
  }

  lemma {:induction false} RankWalkFar(s: Skip, l: nat, p: nat, t: nat)
    requires s.Valid() && s.Exact() && l < MAX_LEVEL && p < |s.hs| <= t && l < s.hs[p]
    ensures l < s.hs[RankWalk(s, l, p, t - p).0]
    ensures NextAt(s.hs, RankWalk(s, l, p, t - p).0, l) == |s.hs|
    ensures RankWalk(s, l, p, t - p).1 == t - RankWalk(s, l, p, t - p).0
    decreases |s.hs| - p
  {
    hide NextAt, Skip.Exact, Skip.Sorted, Skip.LevelRight;
    var q := NextAt(s.hs, p, l);
    if q < |s.hs| {
      ExactAt(s, p, l);
      RankWalkFar(s, l, q, t);
    }
  }

  lemma {:induction false} RankSearchMisses(s: Skip, n: nat, p: nat, t: nat)
    requires s.Valid() && s.Exact() && n <= s.level && p < |s.hs| <= t && n <= s.hs[p]
    ensures RankSearch(s, n, p, t - p) == |s.hs|
    decreases n
  {
    hide NextAt, RankWalk, Skip.Exact, Skip.Sorted, Skip.LevelRight;
    if n > 0 {
      RankWalkFar(s, n - 1, p, t);
      RankSearchMisses(s, n - 1, RankWalk(s, n - 1, p, t - p).0, t);
    }
  }

  lemma {:induction false} RankZero(s: Skip, n: nat)
    requires s.Valid() && s.Exact() && n <= s.level
    ensures RankSearch(s, n, 0, 0) == |s.hs|
    decreases n
  {
    hide FirstFrom, Skip.Sorted;
    if n > 0 { RankZero(s, n - 1); }
  }

  /** A lookup by rank finds the element of that rank, counting from one, and null for every other rank. */
  lemma RankFinds(s: Skip, rank: nat)
    requires s.Valid() && s.Exact() && Clear(s)
    ensures var r := RankSearch(s, s.level, 0, rank);
            if 1 <= rank <= |s.Contents()| then r == rank && s.elems[r] == s.Contents()[rank - 1] else r == |s.hs|
  {
    hide RankSearch, FirstFrom;
    if rank == 0 {
      RankZero(s, s.level);
    } else if rank < |s.hs| {
      assert s.level > 0 by { assert s.hs[rank] <= s.level; }
      RankSearchFinds(s, s.level, 0, rank);
    } else {
      RankSearchMisses(s, s.level, 0, rank);
    }
  }

  /** Above a level that ends before place `t` no link leads to it or further. */
  lemma StaleLevel(hs: seq<nat>, m: nat, g: nat, p: nat, l: nat, t: nat)
    requires l <= m && g < |hs| && p < t < |hs| && NextAt(hs, p, l) == |hs| && t <= NextAt(hs, g, m)
    ensures NextAt(hs, g, m) == |hs|
  {
    hide FirstFrom;
    if NextAt(hs, g, m) < |hs| { FirstFromAtMost(hs, p + 1, l, NextAt(hs, g, m)); }
  }

  /** A leftover that equals the distance still to go ends the search with null. */
  lemma {:induction false} RankSearchStale(s: Skip, n: nat, from: nat, p: nat, l: nat, t: nat)
    requires s.Valid() && s.Exact() && l < n <= s.level && from < t < |s.hs| && n <= s.hs[from]
    requires p < t && l < s.hs[p] && NextAt(s.hs, p, l) == |s.hs| && s.spans[p][l] == t - p
    ensures RankSearch(s, n, from, t - from) == |s.hs|
    decreases n
  {
    hide NextAt, RankWalk, Skip.Exact, Skip.Sorted, Skip.LevelRight;
    RankWalkStops(s, n - 1, from, t);
    var (g, left) := RankWalk(s, n - 1, from, t - from);
    StaleLevel(s.hs, n - 1, g, p, l, t);
    if s.spans[g][n - 1] != left {
      if n - 1 == l { SameSuccessor(s.hs, g, p, l); }
      RankSearchStale(s, n - 1, g, p, l, t);
    }
  }

  lemma Unclear(s: Skip) returns (p: nat, l: nat)
    requires s.Valid() && !Clear(s)
    ensures s.Shaped() && s.level <= MAX_LEVEL && p < |s.hs|
    ensures l < s.hs[p] && l < s.level && NextAt(s.hs, p, l) == |s.hs|
    ensures |s.spans[p]| == MAX_LEVEL && 0 < s.spans[p][l] < |s.hs| - p
  {
    hide NextAt;
    p, l :| 0 <= p < |s.hs| && 0 <= l < s.hs[p] && l < s.level && NextAt(s.hs, p, l) == |s.hs|
            && 0 < s.spans[p][l] < |s.hs| - p;
  }

  /** Lookups by rank are right for every rank exactly when no leftover can be taken for a distance. */
  lemma RankExactly(s: Skip)
    requires s.Valid() && s.Exact()
    ensures (forall rank: nat :: 1 <= rank <= |s.Contents()| ==> RankSearch(s, s.level, 0, rank) == rank) <==> Clear(s)
  {
    hide RankSearch, FirstFrom, RankWalk, NextAt, Skip.Exact, Skip.Sorted, Skip.LevelRight;
    LevelBound(s);
    if Clear(s) {
      hide Clear;
      forall rank: nat | 1 <= rank <= |s.Contents()| ensures RankSearch(s, s.level, 0, rank) == rank {
        RankFinds(s, rank);
      }
    } else {
      var p, l := Unclear(s);
      RankSearchStale(s, s.level, 0, p, l, p + s.spans[p][l]);
    }
  }

  // --- leftovers of insertion alone ------------------------------------------------------------------------------

  /** What insertions leave beside null links: zero, or a small negative number wrapped around. */
  ghost predicate Leftovers(s: Skip)
    requires s.Shaped()
  {
    forall p, l :: 0 <= p < |s.hs| && 0 <= l < s.hs[p] && l < s.level && NextAt(s.hs, p, l) == |s.hs|
      ==> LeftoverOf(p, s.spans[p][l])
  }

  predicate LeftoverOf(p: nat, span: nat) { span == 0 || UINT32 - p <= span < UINT32 }

  /** In lists of fewer than 2^31 elements such leftovers are harmless. */
  lemma LeftoversClear(s: Skip)
    requires s.Shaped() && Leftovers(s) && 2 * |s.hs| <= UINT32
    ensures Clear(s)
  {
    hide FirstFrom;
    forall p, l | 0 <= p < |s.hs| && 0 <= l < s.hs[p] && l < s.level && NextAt(s.hs, p, l) == |s.hs|
      ensures s.spans[p][l] == 0 || s.spans[p][l] >= |s.hs| - p
    {
      assert LeftoverOf(p, s.spans[p][l]);
    }
  }

  lemma LeftoverOfNew(s: Skip, k: nat, h: nat, l: nat)
    requires s.Valid() && s.Exact() && Leftovers(s) && k < |s.hs| <= UINT32 && l < h <= MAX_LEVEL
    requires NextAt(InsertAt(s.hs, k + 1, h), k + 1, l) == |s.hs| + 1
    ensures LeftoverOf(k + 1, SpanOfNew(s, k, h, l))
  {
    hide Forward, FirstFrom, NextAt, Skip.Sorted, LeftoverOf;
    var f := Forward(s.hs, k, l);
    CrossingIsForward(s.hs, k, f, l);
    NextAfterInsertNew(s.hs, k, h, f, l);
    if l < s.level {
      LeftoverGrows(f, s.spans[f][l], k);
    } else {
      HighIsHeader(s, f, l);
      LeftoverZero(k + 1);
    }
  }

  lemma LeftoverZero(p: nat)
    ensures LeftoverOf(p, 0)
  {
  }

  lemma LeftoverGrows(f: nat, span: nat, k: nat)
    requires LeftoverOf(f, span) && f <= k < UINT32
    ensures LeftoverOf(k + 1, Wrap(span - (k - f)))
  {
  }

  lemma LeftoverBeside(s: Skip, k: nat, h: nat, p: nat, l: nat)
    requires s.Valid() && s.Exact() && Leftovers(s) && k < |s.hs| && p < |s.hs| && l < MAX_LEVEL && h <= MAX_LEVEL
    requires l < s.hs[p] && (l < s.level || l < h)
    requires NextAt(InsertAt(s.hs, k + 1, h), if p <= k then p else p + 1, l) == |s.hs| + 1
    ensures LeftoverOf(p, SpanBeside(s, k, h, p, l))
  {
    hide Forward, FirstFrom, NextAt, Skip.Sorted, LeftoverOf;
    if p <= k {
      NextAfterInsertLeft(s.hs, k, h, p, l);
      CrossingIsForward(s.hs, k, p, l);
    } else {
      NextAfterInsertRight(s.hs, k, h, p, l);
      if l >= s.level { HighIsHeader(s, p, l); }
    }
  }

  lemma LeftoverHigher(p: nat, span: nat)
    requires LeftoverOf(p, span)
    ensures LeftoverOf(p + 1, span)
  {
  }

  lemma LeftoverInserted(s: Skip, e: Elem, h: nat, p: nat, l: nat)
    requires s.Valid() && s.Exact() && Leftovers(s) && 0 < h <= MAX_LEVEL && |s.hs| <= UINT32
    requires var r := Insert(s, e, h);
             && r.Shaped() && p < |r.hs| && l < r.hs[p] && l < r.level && NextAt(r.hs, p, l) == |r.hs|
    ensures LeftoverOf(p, Insert(s, e, h).spans[p][l])
  {
    hide Insert, InsertAt, NextAt, Place, LeftoverOf, SpanBeside, SpanOfNew, Skip.Sorted, Skip.LevelRight, Skip.Exact;
    hide Leftovers;
    var k := Place(s.elems, e, 0);
    InsertHeights(s, e, h);
    InsertLevelIs(s, e, h);
    InsertedSpan(s, e, h, p, l);
    if p == k + 1 {
      LeftoverOfNew(s, k, h, l);
    } else if p <= k {
      LeftoverBeside(s, k, h, p, l);
    } else {
      LeftoverBeside(s, k, h, p - 1, l);
      LeftoverHigher(p - 1, SpanBeside(s, k, h, p - 1, l));
    }
  }

  /** Counters of levels that are not in use, before or after, keep what they hold. */
  lemma UnusedKept(s: Skip, e: Elem, h: nat, p: nat, l: nat)
    requires s.Shaped() && p < |s.hs| && h <= l < MAX_LEVEL && s.level <= l
    ensures var r, k := Insert(s, e, h), Place(s.elems, e, 0); var p' := if p <= k then p else p + 1;
            p' < |r.spans| && |r.spans[p']| == MAX_LEVEL && r.spans[p'][l] == s.spans[p][l]
  {
    hide Place, Forward, NextAt;
  }

  /** Insertion keeps leftovers of this kind. */
  lemma InsertLeftovers(s: Skip, e: Elem, h: nat)
    requires s.Valid() && s.Exact() && Leftovers(s) && 0 < h <= MAX_LEVEL && |s.hs| <= UINT32
    ensures Insert(s, e, h).Shaped() && Leftovers(Insert(s, e, h))
  {
    hide Insert, NextAt, LeftoverOf, Skip.Valid, Skip.Exact;
    ShapedOf(s);
    InsertShaped(s, e, h);
    var r := Insert(s, e, h);
    forall p, l | 0 <= p < |r.hs| && 0 <= l < r.hs[p] && l < r.level && NextAt(r.hs, p, l) == |r.hs|
      ensures LeftoverOf(p, r.spans[p][l])
    {
      LeftoverInserted(s, e, h, p, l);
    }
  }

  // --- lists made by insertion -------------------------------------------------------------------------------------

  function Empty(header: Elem): (s: Skip)
    ensures s.Shaped() && s.level == 1 && |s.hs| == 1 && s.Contents() == []
  {
    Skip([header], [MAX_LEVEL], [seq(MAX_LEVEL, l => 0)], 1)
  }

  /** The list after inserting elements with towers of the given heights, in this order. */
  function Build(header: Elem, es: seq<(Elem, nat)>): (s: Skip)
    requires forall i :: 0 <= i < |es| ==> 0 < es[i].1 <= MAX_LEVEL
    ensures s.Shaped()
  {
    if es == [] then Empty(header)
    else
      var t := Build(header, es[..|es| - 1]);
      InsertShaped(t, es[|es| - 1].0, es[|es| - 1].1);
      Insert(t, es[|es| - 1].0, es[|es| - 1].1)
  }

  function Elems(es: seq<(Elem, nat)>): (r: seq<Elem>)
    ensures |r| == |es|
  {
    if es == [] then [] else Elems(es[..|es| - 1]) + [es[|es| - 1].0]
  }

  /** Whatever is inserted in whatever order with whatever tower heights: the list is sorted, holds exactly
      what was inserted, its level is right and every counter beside a link is exact; looking up by rank
      then finds the element of every rank and nothing for a rank that does not exist. */
  lemma {:induction false} BuiltRight(header: Elem, es: seq<(Elem, nat)>)
    requires forall i :: 0 <= i < |es| ==> 0 < es[i].1 <= MAX_LEVEL
    requires 2 * (|es| + 1) <= UINT32
    ensures var s := Build(header, es);
            && s.Valid() && s.Exact() && Leftovers(s) && |s.hs| == |es| + 1
            && multiset(s.Contents()) == multiset(Elems(es))
            && forall rank: nat :: RankSearch(s, s.level, 0, rank) == if 1 <= rank <= |es| then rank else |s.hs|
    decreases |es|
  {
    hide Insert, RankSearch, NextAt, Leftovers, Skip.Valid, Skip.Exact;
    var s := Build(header, es);
    if es == [] {
      EmptyRight(header);
    } else {
      var t := Build(header, es[..|es| - 1]);
      BuiltRight(header, es[..|es| - 1]);
      ShapedOf(t);
      InsertValid(t, es[|es| - 1].0, es[|es| - 1].1);
      InsertExact(t, es[|es| - 1].0, es[|es| - 1].1);
      InsertLeftovers(t, es[|es| - 1].0, es[|es| - 1].1);
    }
    LeftoversClear(s);
    LevelBound(s);
    forall rank: nat ensures RankSearch(s, s.level, 0, rank) == if 1 <= rank <= |es| then rank else |s.hs| {
      RankFinds(s, rank);
    }
  }

  lemma LevelBound(s: Skip)
    requires s.Valid()
    ensures s.level <= MAX_LEVEL
  {
  }

  lemma EmptyRight(header: Elem)
    ensures var s := Empty(header); s.Valid() && s.Exact() && Leftovers(s)
  {
    var s := Empty(header);
    forall p, l | 0 <= p < |s.hs| && 0 <= l < s.hs[p] ensures LeftoverOf(p, s.spans[p][l]) {
      LeftoverZero(p);
    }
  }

  lemma LevelPositive(s: Skip)
    requires s.Valid() && |s.hs| > 1
    ensures s.level > 0
  {
    assert s.hs[1] <= s.level;
  }
}
