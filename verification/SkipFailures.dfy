/** Concrete lists on which deletion goes wrong, one for each way it can. */
module SkipFailures {
  import opened Towers
  import opened SkipModel
  import opened SkipDelete
  import opened SkipQueries
  import opened SkipRanges

  /** A list given by elements, heights and the counters of the two lowest levels; the rest are zero. */
  function Row(a: nat, b: nat): (r: seq<nat>)
    ensures |r| == MAX_LEVEL && r[0] == a && r[1] == b
  {
    [a, b] + seq(MAX_LEVEL - 2, l => 0)
  }

  const HEADER := Elem(0.0, 0)

  /** One element with object 5; the key with object 3 is not there. */
  const ONE: Skip := Skip([HEADER, Elem(1.0, 5)], [MAX_LEVEL, 1], [Row(1, 0), Row(0, 0)], 1)

  lemma OneRight()
    ensures ONE.Valid() && ONE.Exact()
  {
    FirstFromIs(ONE.hs, 1, 0, 1);
    forall l | 0 < l < MAX_LEVEL ensures NextAt(ONE.hs, 0, l) == 2 { FirstFromIs(ONE.hs, 1, l, 2); }
    FirstFromIs(ONE.hs, 2, 0, 2);
  }

  /** Deleting an absent key removes the next element and reports success. */
  lemma AbsentKeyDeletesAnother()
    ensures ONE.Valid() && ONE.Exact() && Elem(1.0, 3) !in ONE.Contents()
    ensures Delete(ONE, Elem(1.0, 3)).1 == 0 && Delete(ONE, Elem(1.0, 3)).0.Contents() == []
  {
    OneRight();
    StopIs(ONE, Elem(1.0, 3), 0, 1, 1);
    DeleteValid(ONE, Elem(1.0, 3));
    DeleteAnswer(ONE, Elem(1.0, 3));
  }

  /** Scores 1, 2, 3 with objects 5, 1, 9; the last two towers reach the second level. */
  const BENT: Skip := Skip([HEADER, Elem(1.0, 5), Elem(2.0, 1), Elem(3.0, 9)], [MAX_LEVEL, 1, 2, 2],
                           [Row(1, 2), Row(1, 0), Row(1, 1), Row(0, 0)], 2)

  lemma BentLinks()
    ensures NextAt(BENT.hs, 0, 0) == 1 && NextAt(BENT.hs, 1, 0) == 2 && NextAt(BENT.hs, 2, 0) == 3
    ensures NextAt(BENT.hs, 0, 1) == 2 && NextAt(BENT.hs, 2, 1) == 3
    ensures forall l :: 1 < l < MAX_LEVEL ==> NextAt(BENT.hs, 0, l) == 4
    ensures forall l :: 0 <= l < MAX_LEVEL ==> NextAt(BENT.hs, 3, l) == 4
  {
    FirstFromIs(BENT.hs, 1, 0, 1);
    FirstFromIs(BENT.hs, 2, 0, 2);
    FirstFromIs(BENT.hs, 3, 0, 3);
    FirstFromIs(BENT.hs, 1, 1, 2);
    FirstFromIs(BENT.hs, 3, 1, 3);
    forall l | 1 < l < MAX_LEVEL ensures NextAt(BENT.hs, 0, l) == 4 { FirstFromIs(BENT.hs, 1, l, 4); }
    forall l | 0 <= l < MAX_LEVEL ensures NextAt(BENT.hs, 3, l) == 4 { FirstFromIs(BENT.hs, 4, l, 4); }
  }

  lemma BentRight()
    ensures BENT.Valid() && BENT.Exact()
  {
    hide FirstFrom, NextAt, Row;
    BentLinks();
    assert BENT.hs[2] == BENT.level;
  }

  /** With unequal scores a deletion of a key that is there can corrupt the counters. */
  lemma UnequalScoresCorrupt()
    ensures BENT.Valid() && BENT.Exact() && Elem(1.0, 5) in BENT.Contents()
    ensures Delete(BENT, Elem(1.0, 5)).0.Shaped() && !Delete(BENT, Elem(1.0, 5)).0.Exact()
  {
    hide FirstFrom, NextAt, Row, Delete;
    BentRight();
    BentLinks();
    var e := Elem(1.0, 5);
    assert BENT.Contents()[0] == e;
    StopIs(BENT, e, 0, 1, 1);
    assert Walk(BENT, e, 1, 2) == 2;
    assert Pred(BENT, e, 1) == 2 >= Hit(BENT, e, 0);
    assert 0 <= 1 < BENT.level && !Straight(BENT, e);
    DeleteExactly(BENT, e);
  }

  /** Equal scores, objects 1, 2, 3; the first and the last tower reach the second level. */
  const STALE: Skip := Skip([HEADER, Elem(1.0, 1), Elem(1.0, 2), Elem(1.0, 3)], [MAX_LEVEL, 2, 1, 2],
                            [Row(1, 1), Row(1, 2), Row(1, 0), Row(0, 0)], 2)

  /** It is what inserting the objects 3, 1 and 2 with towers of heights 2, 2 and 1 makes. */
  lemma StaleBuilt()
    ensures Build(HEADER, [(Elem(1.0, 3), 2), (Elem(1.0, 1), 2), (Elem(1.0, 2), 1)]) == STALE
  {
    hide Insert, Row, FirstFrom;
    var x, y, z := (Elem(1.0, 3), 2), (Elem(1.0, 1), 2), (Elem(1.0, 2), 1);
    assert [x, y, z][..2] == [x, y] && [x, y][..1] == [x];
    var one: seq<(Elem, nat)> := [x];
    assert one[..0] == [];
    FirstBuilt();
    SecondBuilt();
    ThirdBuilt();
    assert Build(HEADER, [x]) == Insert(Empty(HEADER), x.0, x.1);
    assert Build(HEADER, [x, y]) == Insert(Build(HEADER, [x]), y.0, y.1);
    assert Build(HEADER, [x, y, z]) == Insert(Build(HEADER, [x, y]), z.0, z.1);
  }

  const AFTER_ONE: Skip := Skip([HEADER, Elem(1.0, 3)], [MAX_LEVEL, 2], [Row(1, 1), Row(0, 0)], 2)
  const AFTER_TWO: Skip := Skip([HEADER, Elem(1.0, 1), Elem(1.0, 3)], [MAX_LEVEL, 2, 2],
      [Row(1, 1), Row(1, 1), Row(0, 0)], 2)

  lemma RowCells(a: nat, b: nat)
    ensures forall l :: 0 <= l < MAX_LEVEL ==> Row(a, b)[l] == if l == 0 then a else if l == 1 then b else 0
  {
  }

  lemma FirstBuilt()
    ensures Insert(Empty(HEADER), Elem(1.0, 3), 2) == AFTER_ONE
  {
    hide Row, FirstFrom, NextAt;
    var s, e := Empty(HEADER), Elem(1.0, 3);
    assert Place(s.elems, e, 0) == 0;
    RowCells(1, 1);
    RowCells(0, 0);
    var r := Insert(s, e, 2);
    assert r.spans[0] == Row(1, 1) && r.spans[1] == Row(0, 0);
  }

  lemma SecondBuilt()
    ensures Insert(AFTER_ONE, Elem(1.0, 1), 2) == AFTER_TWO
  {
    hide Row, FirstFrom, NextAt;
    var s, e := AFTER_ONE, Elem(1.0, 1);
    assert Place(s.elems, e, 0) == 0;
    RowCells(1, 1);
    RowCells(0, 0);
    InsertShaped(s, e, 2);
    var r := Insert(s, e, 2);
    forall l | 0 <= l < MAX_LEVEL
      ensures r.spans[0][l] == Row(1, 1)[l] && r.spans[1][l] == Row(1, 1)[l] && r.spans[2][l] == Row(0, 0)[l]
    {
      InsertedSpan(s, e, 2, 0, l);
      InsertedSpan(s, e, 2, 1, l);
      InsertedSpan(s, e, 2, 2, l);
    }
    SameRows(r.spans, [Row(1, 1), Row(1, 1), Row(0, 0)]);
  }

  lemma PlaceOne()
    ensures Place(AFTER_TWO.elems, Elem(1.0, 2), 0) == 1
  {
    assert Place(AFTER_TWO.elems, Elem(1.0, 2), 1) == 1;
  }

  lemma ThirdRest()
    ensures var r := Insert(AFTER_TWO, Elem(1.0, 2), 1);
            r.elems == STALE.elems && r.hs == STALE.hs && r.level == STALE.level
  {
    hide Place, SpanBeside, SpanOfNew, Row;
    PlaceOne();
  }

  lemma ThirdCell(l: nat)
    requires l < MAX_LEVEL
    ensures SpanBeside(AFTER_TWO, 1, 1, 0, l) == Row(1, 1)[l] && SpanBeside(AFTER_TWO, 1, 1, 1, l) == Row(1, 2)[l]
    ensures SpanOfNew(AFTER_TWO, 1, 1, l) == Row(1, 0)[l] && SpanBeside(AFTER_TWO, 1, 1, 2, l) == Row(0, 0)[l]
  {
    hide Row, FirstFrom;
    RowCells(1, 1);
    RowCells(1, 2);
    RowCells(1, 0);
    RowCells(0, 0);
    FirstFromIs(AFTER_TWO.hs, 2, 1, 2);
    if l > 1 { FirstFromIs(AFTER_TWO.hs, 1, l, 3); }
  }

  lemma SameRows(a: seq<seq<nat>>, b: seq<seq<nat>>)
    requires |a| == |b| && forall i :: 0 <= i < |a| ==> |a[i]| == |b[i]| == MAX_LEVEL
    requires forall i, l :: 0 <= i < |a| && 0 <= l < MAX_LEVEL ==> a[i][l] == b[i][l]
    ensures a == b
  {
    forall i | 0 <= i < |a| ensures a[i] == b[i] {}
  }

  lemma ThirdBuilt()
    ensures Insert(AFTER_TWO, Elem(1.0, 2), 1) == STALE
  {
    hide Row, FirstFrom, SpanBeside, SpanOfNew, Insert, Place;
    var s, e := AFTER_TWO, Elem(1.0, 2);
    assert Place(s.elems, e, 0) == 1 by { PlaceOne(); }
    RowCells(1, 1);
    RowCells(1, 2);
    RowCells(1, 0);
    RowCells(0, 0);
    InsertHeights(s, e, 1);
    ThirdRest();
    InsertShaped(s, e, 1);
    var r := Insert(s, e, 1);
    forall l | 0 <= l < MAX_LEVEL
      ensures r.spans[0][l] == Row(1, 1)[l] && r.spans[1][l] == Row(1, 2)[l]
      ensures r.spans[2][l] == Row(1, 0)[l] && r.spans[3][l] == Row(0, 0)[l]
    {
      InsertedSpan(s, e, 1, 0, l);
      InsertedSpan(s, e, 1, 1, l);
      InsertedSpan(s, e, 1, 2, l);
      InsertedSpan(s, e, 1, 3, l);
      ThirdCell(l);
    }
    SameRows(r.spans, [Row(1, 1), Row(1, 2), Row(1, 0), Row(0, 0)]);
  }

  lemma StaleLinks()
    ensures NextAt(STALE.hs, 0, 0) == 1 && NextAt(STALE.hs, 1, 0) == 2 && NextAt(STALE.hs, 2, 0) == 3
    ensures NextAt(STALE.hs, 0, 1) == 1 && NextAt(STALE.hs, 1, 1) == 3
    ensures forall l :: 1 < l < MAX_LEVEL ==> NextAt(STALE.hs, 0, l) == 4
    ensures forall l :: 0 <= l < MAX_LEVEL ==> NextAt(STALE.hs, 3, l) == 4
  {
    FirstFromIs(STALE.hs, 1, 0, 1);
    FirstFromIs(STALE.hs, 2, 0, 2);
    FirstFromIs(STALE.hs, 3, 0, 3);
    FirstFromIs(STALE.hs, 1, 1, 1);
    FirstFromIs(STALE.hs, 2, 1, 3);
    forall l | 1 < l < MAX_LEVEL ensures NextAt(STALE.hs, 0, l) == 4 { FirstFromIs(STALE.hs, 1, l, 4); }
    forall l | 0 <= l < MAX_LEVEL ensures NextAt(STALE.hs, 3, l) == 4 { FirstFromIs(STALE.hs, 4, l, 4); }
  }

  lemma StaleRight()
    ensures STALE.Valid() && STALE.Exact() && Leftovers(STALE)
  {
    hide FirstFrom, NextAt, Row;
    StaleLinks();
    assert STALE.hs[1] == STALE.level;
    forall p, l | 0 <= p < 4 && 0 <= l < STALE.hs[p] && l < 2 && NextAt(STALE.hs, p, l) == 4
      ensures LeftoverOf(p, STALE.spans[p][l])
    {
    }
  }

  lemma StaleDeleted(e: Elem)
    requires e == Elem(1.0, 3)
    ensures Hit(STALE, e, 0) == Hit(STALE, e, 1) == 3 && Pred(STALE, e, 0) == 2 && Pred(STALE, e, 1) == 1
    ensures var r := Delete(STALE, e).0;
            && r.hs == [MAX_LEVEL, 2, 1] && r.level == 2 && r.Shaped()
            && r.spans[0][1] == 1 && r.spans[1][1] == 1
  {
    hide FirstFrom, NextAt, Row, Delete, SpanAfter, HeightAfter;
    StaleRight();
    StaleLinks();
    StopIs(STALE, e, 0, 1, 3);
    StopIs(STALE, e, 1, 1, 3);
    assert Walk(STALE, e, 0, 2) == 2 && Walk(STALE, e, 0, 1) == 2;
    assert Walk(STALE, e, 1, 1) == 1;
    DeletedAt(STALE, e, 0, 1);
    DeletedAt(STALE, e, 1, 1);
    DeletedAt(STALE, e, 2, 1);
    DeleteShaped(STALE, e);
    StaleHeights(e);
    LevelAfter(STALE, e);
    assert EmptiedBelow(STALE, e, 1) == 0 && EmptiedBelow(STALE, e, 2) == 0;
  }

  lemma StaleHeights(e: Elem)
    requires e == Elem(1.0, 3)
    requires Hit(STALE, e, 0) == Hit(STALE, e, 1) == 3 && Pred(STALE, e, 1) == 1
    ensures HeightAfter(STALE, e, 0) == MAX_LEVEL && HeightAfter(STALE, e, 1) == 2 && HeightAfter(STALE, e, 2) == 1
    ensures SpanAfter(STALE, e, 0, 1) == 1 && SpanAfter(STALE, e, 1, 1) == 1
  {
    hide FirstFrom, NextAt, Row, Walk, Stop;
    StaysLinked(STALE, e, 1, 1);
    StaysLinked(STALE, e, 1, 2);
    StaysLinked(STALE, e, 2, 0);
    StaysLinked(STALE, e, 2, 1);
  }

  /** After deleting the last element of an equal-score list made by insertions, the element of rank two is
      still there, the counters beside links are still exact, and the lookup of rank two returns null: it
      takes the leftover counter of the second level for the distance still to go. */
  lemma RankLostAfterDelete()
    ensures STALE.Valid() && STALE.Exact() && Leftovers(STALE)
    ensures var r := Delete(STALE, Elem(1.0, 3)).0;
            && r.Valid() && r.Exact() && |r.Contents()| == 2
            && RankSearch(r, r.level, 0, 2) == |r.hs|
  {
    hide FirstFrom, NextAt, Row, Delete;
    var e := Elem(1.0, 3);
    StaleRight();
    StaleDeleted(e);
    EqualScoresSeparated(STALE, e);
    DeleteSeparated(STALE, e);
    var r := Delete(STALE, e).0;
    FirstFromIs(r.hs, 1, 1, 1);
    FirstFromIs(r.hs, 2, 1, 3);
    StaleSearch(r);
  }

  lemma StaleSearch(r: Skip)
    requires r.Shaped() && r.hs == [MAX_LEVEL, 2, 1] && r.level == 2
    requires r.spans[0][1] == 1 && r.spans[1][1] == 1
    ensures RankSearch(r, r.level, 0, 2) == |r.hs|
  {
    hide Row;
    FirstFromIs(r.hs, 1, 1, 1);
    FirstFromIs(r.hs, 2, 1, 3);
    assert RankWalk(r, 1, 1, 1) == (1, 1);
    assert RankWalk(r, 1, 0, 2) == (1, 1);
  }

  /** Scores 1, 2, 3, 4 with objects 5, 1, 9, 9; all towers but the first reach the second level. */
  const FOUR: Skip := Skip([HEADER, Elem(1.0, 5), Elem(2.0, 1), Elem(3.0, 9), Elem(4.0, 9)], [MAX_LEVEL, 1, 2, 2, 2],
                           [Row(1, 2), Row(1, 0), Row(1, 1), Row(1, 1), Row(0, 0)], 2)

  lemma FourLinks()
    ensures NextAt(FOUR.hs, 0, 0) == 1 && NextAt(FOUR.hs, 1, 0) == 2
    ensures NextAt(FOUR.hs, 2, 0) == 3 && NextAt(FOUR.hs, 3, 0) == 4
    ensures NextAt(FOUR.hs, 0, 1) == 2 && NextAt(FOUR.hs, 2, 1) == 3 && NextAt(FOUR.hs, 3, 1) == 4
    ensures forall l :: 1 < l < MAX_LEVEL ==> NextAt(FOUR.hs, 0, l) == 5
    ensures forall l :: 0 <= l < MAX_LEVEL ==> NextAt(FOUR.hs, 4, l) == 5
  {
    FirstFromIs(FOUR.hs, 1, 0, 1);
    FirstFromIs(FOUR.hs, 2, 0, 2);
    FirstFromIs(FOUR.hs, 3, 0, 3);
    FirstFromIs(FOUR.hs, 4, 0, 4);
    FirstFromIs(FOUR.hs, 1, 1, 2);
    FirstFromIs(FOUR.hs, 3, 1, 3);
    FirstFromIs(FOUR.hs, 4, 1, 4);
    forall l | 1 < l < MAX_LEVEL ensures NextAt(FOUR.hs, 0, l) == 5 { FirstFromIs(FOUR.hs, 1, l, 5); }
    forall l | 0 <= l < MAX_LEVEL ensures NextAt(FOUR.hs, 4, l) == 5 { FirstFromIs(FOUR.hs, 5, l, 5); }
  }

  lemma FourRight()
    ensures FOUR.Valid() && FOUR.Exact()
  {
    hide FirstFrom, NextAt, Row;
    FourLinks();
    assert FOUR.hs[2] == FOUR.level;
  }

  /** Deleting the first element unlinks the third at the second level, and leaves a counter of one there beside
      the link from the second to the fourth. */
  lemma FourDeleted(e: Elem)
    requires e == Elem(1.0, 5)
    ensures Hit(FOUR, e, 0) == 1 && Hit(FOUR, e, 1) == 3 && Pred(FOUR, e, 0) == 0 && Pred(FOUR, e, 1) == 2
    ensures var r := Delete(FOUR, e).0;
            && r.Valid() && r.elems == [HEADER, Elem(2.0, 1), Elem(3.0, 9), Elem(4.0, 9)]
            && r.hs == [MAX_LEVEL, 2, 1, 2] && r.level == 2 && r.spans[1][1] == 1
  {
    hide FirstFrom, NextAt, Row, Delete, SpanAfter, HeightAfter, Skip.Valid, Skip.Exact, Stop, Walk;
    FourHits(e);
    FourRight();
    FourHeights(e);
    DeletedAt(FOUR, e, 0, 1);
    DeletedAt(FOUR, e, 2, 1);
    DeletedAt(FOUR, e, 3, 1);
    DeletedAt(FOUR, e, 4, 1);
    DeleteValid(FOUR, e);
    LevelAfter(FOUR, e);
    assert EmptiedBelow(FOUR, e, 1) == 0 && EmptiedBelow(FOUR, e, 2) == 0;
  }

  lemma FourHits(e: Elem)
    requires e == Elem(1.0, 5)
    ensures Hit(FOUR, e, 0) == 1 && Hit(FOUR, e, 1) == 3 && Pred(FOUR, e, 0) == 0 && Pred(FOUR, e, 1) == 2
    ensures NextAt(FOUR.hs, 1, 0) < |FOUR.hs|
  {
    hide FirstFrom, NextAt, Row;
    FourLinks();
    StopIs(FOUR, e, 0, 1, 1);
    StopIs(FOUR, e, 1, 1, 3);
    assert Walk(FOUR, e, 1, 2) == 2;
  }

  lemma FourHeights(e: Elem)
    requires e == Elem(1.0, 5)
    requires Hit(FOUR, e, 0) == 1 && Hit(FOUR, e, 1) == 3 && Pred(FOUR, e, 1) == 2
    ensures HeightAfter(FOUR, e, 0) == MAX_LEVEL && HeightAfter(FOUR, e, 2) == 2
    ensures HeightAfter(FOUR, e, 3) == 1 && HeightAfter(FOUR, e, 4) == 2 && SpanAfter(FOUR, e, 2, 1) == 1
  {
    hide FirstFrom, NextAt, Row, Walk, Stop, Kept, HeightAfter;
    assert HeightAfter(FOUR, e, 0) == MAX_LEVEL by { HeaderHeight(FOUR, e); }
    Heights(FOUR, e, 2, 2);
    Heights(FOUR, e, 3, 1);
    Heights(FOUR, e, 4, 2);
  }

  lemma HeaderHeight(s: Skip, e: Elem)
    requires 0 < |s.hs| == |s.elems|
    ensures HeightAfter(s, e, 0) == s.hs[0]
  {
  }

  lemma Heights(s: Skip, e: Elem, p: nat, h: nat)
    requires s.Shaped() && 0 < p < |s.hs| && s.hs[p] == 2 && 0 < h <= 2
    requires Hit(s, e, 0) != p && (Hit(s, e, 1) == p <==> h == 1)
    ensures HeightAfter(s, e, p) == h
  {
    hide Stop, HeightAfter;
    StaysLinked(s, e, p, 0);
    StaysLinked(s, e, p, 1);
    StaysLinked(s, e, p, 2);
  }

  /** After deleting a key that is there, the lookup of scores from 3 to 10 returns the element of score 4, though
      there is one of score 3. */
  lemma RangeWrongAfterDelete()
    ensures FOUR.Valid() && FOUR.Exact() && Elem(1.0, 5) in FOUR.Contents()
    ensures var r, range := Delete(FOUR, Elem(1.0, 5)).0, Range(3.0, 10.0, false, false);
            && r.Valid() && r.elems[2] == Elem(3.0, 9) && r.elems[3] == Elem(4.0, 9) && r.level <= MAX_LEVEL
            && RangeSearch(r, range, r.level, 0) == 3 && FirstInRange(r, range, 1) == 2
  {
    hide FirstFrom, NextAt, Row, Delete, Skip.Valid, Skip.Exact;
    var e := Elem(1.0, 5);
    assert FOUR.Contents()[0] == e;
    FourRight();
    FourDeleted(e);
    ShapedOf(Delete(FOUR, e).0);
    WrongSearch(Delete(FOUR, e).0);
  }

  lemma WrongSearch(r: Skip)
    requires r.Shaped() && r.elems == [HEADER, Elem(2.0, 1), Elem(3.0, 9), Elem(4.0, 9)]
    requires r.hs == [MAX_LEVEL, 2, 1, 2] && r.level == 2 && r.spans[1][1] == 1
    ensures var range := Range(3.0, 10.0, false, false);
            RangeSearch(r, range, 2, 0) == 3 && FirstInRange(r, range, 1) == 2
  {
    hide FirstFrom;
    var range := Range(3.0, 10.0, false, false);
    FirstFromIs(r.hs, 1, 1, 1);
    FirstFromIs(r.hs, 2, 1, 3);
    assert RangeWalk(r, range, 1, 1) == 1;
    assert RangeWalk(r, range, 1, 0) == 1;
    assert FirstInRange(r, range, 2) == 2;
  }

  /** A deletion leaves level zero, at which the next deletion would read the first entry of an empty vector,
      exactly when it takes the last element out. */
  lemma LevelZeroExactly(s: Skip, e: Elem)
    requires s.Valid() && Hit(s, e, 0) < |s.hs|
    ensures Delete(s, e).0.level == 0 <==> |s.Contents()| == 1
  {
    hide Delete, Stop;
    DeleteLevel(s, e);
    DeletedAt(s, e, 0, 0);
    if |s.hs| > 2 { LevelPositiveAfter(s, e); }
  }

  lemma LevelPositiveAfter(s: Skip, e: Elem)
    requires s.Valid() && Hit(s, e, 0) < |s.hs| && |s.hs| > 2
    ensures Delete(s, e).0.level > 0
  {
    hide Delete, Stop;
    DeleteValid(s, e);
    DeletedAt(s, e, 0, 0);
    LevelPositive(Delete(s, e).0);
  }
}
