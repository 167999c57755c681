/** The skip list as a value: the elements in order, the heights of their towers, and the span counters.
    Which element a link leads to follows from the heights; what each span counter holds does not, and
    what is proved here is when the counters are right. */
module SkipModel {
  import opened Towers
  import opened Counters

  datatype Elem = Elem(score: real, obj: int)

  predicate Before(a: Elem, b: Elem) {
    a.score < b.score || (a.score == b.score && a.obj < b.obj)
  }

  /** Place 0 is the header; its element means nothing. */
  datatype Skip = Skip(elems: seq<Elem>, hs: seq<nat>, spans: seq<seq<nat>>, level: nat) {

    ghost predicate Shaped() {
      && 0 < |hs| == |elems| == |spans|
      && hs[0] == MAX_LEVEL
      && (forall p :: 0 < p < |hs| ==> 0 < hs[p] <= MAX_LEVEL)
      && (forall p :: 0 <= p < |hs| ==> |spans[p]| == MAX_LEVEL)
    }

    ghost predicate Sorted()
      requires Shaped()
    {
      forall p, q :: 0 < p < q < |elems| ==> !Before(elems[q], elems[p])
    }

    /** `level` is the height of the tallest tower; an empty list may also say one. */
    ghost predicate LevelRight()
      requires Shaped()
    {
      && level <= MAX_LEVEL
      && (forall p :: 0 < p < |hs| ==> hs[p] <= level)
      && (level > 1 ==> exists p :: 0 < p < |hs| && hs[p] == level)
    }

    /** Every counter beside a link holds the distance the link covers. Counters beside null links hold
        leftovers. */
    ghost predicate Exact()
      requires Shaped()
    {
      forall p, l :: 0 <= p < |hs| && 0 <= l < hs[p] && NextAt(hs, p, l) < |hs|
        ==> spans[p][l] == NextAt(hs, p, l) - p
    }

    ghost predicate Valid() {
      Shaped() && Sorted() && LevelRight()
    }

    /** The elements, in order. */
    function Contents(): seq<Elem>
      requires |elems| > 0
    {
      elems[1..]
    }
  }

  /** The last place whose element, like all before it, comes before `e`. */
  function Place(s: seq<Elem>, e: Elem, k: nat): (r: nat)
    requires k < |s|
    ensures k <= r < |s|
    ensures forall j :: k < j <= r ==> Before(s[j], e)
    ensures r + 1 < |s| ==> !Before(s[r + 1], e)
    decreases |s| - k
  {
    if k + 1 < |s| && Before(s[k + 1], e) then Place(s, e, k + 1) else k
  }

  // --- insertion -------------------------------------------------------------------------------------------

  // The descent of an insertion adds up the counters beside the links it follows. Where they are exact this
  // gives the places at which it turns down; in general it gives numbers `r0`, for the lowest level, and `rl`,
  // for level `l`, that the new counters are computed from.

  /** The counter of tower `p` at level `l` once the header's counters of newly opened levels are set. */
  function Opened(s: Skip, r0: nat, h: nat, p: nat, l: nat): nat
    requires p < |s.spans| && l < |s.spans[p]|
  {
    if p == 0 && s.level <= l < h then r0 else s.spans[p][l]
  }

  /** The counters of the towers that were there, after a tower of height `h` has gone in after place `k`. */
  function SpanBesideBy(s: Skip, k: nat, h: nat, p: nat, l: nat, r0: nat, rl: nat): nat
    requires k < |s.hs| == |s.spans| && p < |s.spans| && l < |s.spans[p]| && s.hs[0] > l
  {
    var f, gap: int := Forward(s.hs, k, l), r0 as int - rl;
    if p == f && l < h then Wrap(gap + 1)
    else if p == f && l < s.level && NextAt(s.hs, f, l) < |s.hs| then Wrap(s.spans[p][l] + 1)
    else Opened(s, r0, h, p, l)
  }

  /** The counters of the new tower. */
  function SpanOfNewBy(s: Skip, k: nat, h: nat, l: nat, r0: nat, rl: nat): nat
    requires k < |s.hs| == |s.spans| && s.hs[0] > l && forall p :: 0 <= p < |s.spans| ==> |s.spans[p]| > l
  {
    var f, gap: int := Forward(s.hs, k, l), r0 as int - rl;
    if l < h then Wrap(Opened(s, r0, h, f, l) - gap) else 0
  }

  /** A number for each level; zero where there is none. */
  function Of(rank: seq<nat>, l: nat): nat { if l < |rank| then rank[l] else 0 }

  /** Insertion with the numbers that the descent has found. */
  function InsertBy(s: Skip, e: Elem, h: nat, rank: seq<nat>): (r: Skip)
    requires s.Shaped()
    ensures |r.hs| == |s.hs| + 1
  {
    var k := Place(s.elems, e, 0);
    var beside := seq(|s.hs|, p requires 0 <= p < |s.hs| =>
                      seq(MAX_LEVEL, l requires 0 <= l < MAX_LEVEL =>
                        SpanBesideBy(s, k, h, p, l, Of(rank, 0), Of(rank, l))));
    var newSpans := seq(MAX_LEVEL, l requires 0 <= l < MAX_LEVEL => SpanOfNewBy(s, k, h, l, Of(rank, 0), Of(rank, l)));
    Skip(InsertAt(s.elems, k + 1, e), InsertAt(s.hs, k + 1, h), InsertAt(beside, k + 1, newSpans),
         if h > s.level then h else s.level)
  }

  /** The places at which a descent to place `k` turns down. */
  function Places(s: Skip, k: nat): (rank: seq<nat>)
    requires s.Shaped() && k < |s.hs|
    ensures |rank| == MAX_LEVEL && forall l :: 0 <= l < MAX_LEVEL ==> rank[l] == Forward(s.hs, k, l)
    ensures rank[0] == k
  {
    seq(MAX_LEVEL, l requires 0 <= l < MAX_LEVEL => Forward(s.hs, k, l))
  }

  /** Insertion as it is meant, with places for numbers. */
  function Insert(s: Skip, e: Elem, h: nat): (r: Skip)
    requires s.Shaped()
    ensures |r.hs| == |s.hs| + 1
  {
    InsertBy(s, e, h, Places(s, Place(s.elems, e, 0)))
  }

  function SpanBeside(s: Skip, k: nat, h: nat, p: nat, l: nat): nat
    requires k < |s.hs| == |s.spans| && p < |s.spans| && l < |s.spans[p]| && s.hs[0] > l
  {
    SpanBesideBy(s, k, h, p, l, k, Forward(s.hs, k, l))
  }

  function SpanOfNew(s: Skip, k: nat, h: nat, l: nat): nat
    requires k < |s.hs| == |s.spans| && s.hs[0] > l && forall p :: 0 <= p < |s.spans| ==> |s.spans[p]| > l
  {
    SpanOfNewBy(s, k, h, l, k, Forward(s.hs, k, l))
  }

  // --- the descent -----------------------------------------------------------------------------------------

  /** The counters along a level, from place `p` as far as place `k`. */
  function Ascent(s: Skip, k: nat, l: nat, p: nat): nat
    requires s.Shaped() && p < |s.hs| && l < MAX_LEVEL
    decreases |s.hs| - p
  {
    var q := NextAt(s.hs, p, l);
    if q <= k && q < |s.hs| then s.spans[p][l] + Ascent(s, k, l, q) else 0
  }

  /** Where the descent from level `top` enters level `l`, ... */
  function Entry(s: Skip, k: nat, l: nat, top: nat): (p: nat)
    requires s.Shaped() && k < |s.hs| && l < top <= MAX_LEVEL
    ensures p <= k && s.hs[p] > l
  {
    if l + 1 == top then 0 else Forward(s.hs, k, l + 1)
  }

  /** ... and the number it has arrived at when it leaves it. */
  function Rank(s: Skip, k: nat, l: nat, top: nat): (r: nat)
    requires s.Shaped() && k < |s.hs| && l <= top <= MAX_LEVEL
    ensures r < UINT32
    decreases top - l
  {
    if l == top then 0 else Wrap(Rank(s, k, l + 1, top) + Ascent(s, k, l, Entry(s, k, l, top)))
  }

  lemma {:induction false} AscentExact(s: Skip, k: nat, l: nat, p: nat)
    requires s.Shaped() && s.Exact() && k < |s.hs| && p <= k && l < MAX_LEVEL && l < s.hs[p]
    ensures p <= Forward(s.hs, k, l) && Ascent(s, k, l, p) == Forward(s.hs, k, l) - p
    decreases |s.hs| - p
  {
    hide FirstFrom;
    CrossingIsForward(s.hs, k, p, l);
    if NextAt(s.hs, p, l) <= k { AscentExact(s, k, l, NextAt(s.hs, p, l)); }
  }

  /** With exact counters the descent's numbers are places. */
  lemma {:induction false} RankExact(s: Skip, k: nat, l: nat, top: nat)
    requires s.Shaped() && s.Exact() && k < |s.hs| <= UINT32 && l < top <= MAX_LEVEL
    ensures Rank(s, k, l, top) == Forward(s.hs, k, l)
    decreases top - l
  {
    hide FirstFrom, Forward, Ascent;
    if l + 1 < top { RankExact(s, k, l + 1, top); }
    AscentExact(s, k, l, Entry(s, k, l, top));
  }

  /** No link is followed at a level that is not in use, whatever the counters hold. */
  lemma {:induction false} RankAbove(s: Skip, k: nat, l: nat, top: nat)
    requires s.Valid() && k < |s.hs| && s.level <= l <= top <= MAX_LEVEL
    ensures Rank(s, k, l, top) == 0
    decreases top - l
  {
    hide FirstFrom, Forward;
    if l < top {
      RankAbove(s, k, l + 1, top);
      var p := Entry(s, k, l, top);
      HighIsHeader(s, p, l);
      assert NextAt(s.hs, p, l) == |s.hs|;
    }
  }

  /** The descent has found places. */
  ghost predicate Found(s: Skip, k: nat, rank: seq<nat>)
    requires s.Shaped() && k < |s.hs|
  {
    forall l :: 0 <= l < |rank| && l < MAX_LEVEL ==> rank[l] == Forward(s.hs, k, l)
  }

  /** Only counters depend on the numbers, ... */
  lemma InsertByValid(s: Skip, e: Elem, h: nat, rank: seq<nat>)
    requires s.Valid() && 0 < h <= MAX_LEVEL
    ensures InsertBy(s, e, h, rank).Valid()
    ensures var r := InsertBy(s, e, h, rank);
            r.elems == Insert(s, e, h).elems && r.hs == Insert(s, e, h).hs && r.level == Insert(s, e, h).level
  {
    hide Place, Forward, SpanBesideBy, SpanOfNewBy, Skip.Sorted, Skip.LevelRight;
    InsertValid(s, e, h);
    InsertByShaped(s, e, h, rank);
    ValidBesides(InsertBy(s, e, h, rank), Insert(s, e, h));
  }

  /** ... and with places for numbers they are those of an insertion as meant. */
  lemma InsertByPlaces(s: Skip, e: Elem, h: nat, rank: seq<nat>)
    requires s.Valid() && 0 < h <= MAX_LEVEL && h <= |rank| && Found(s, Place(s.elems, e, 0), rank)
    ensures InsertBy(s, e, h, rank) == Insert(s, e, h)
  {
    hide InsertBy, SpanBeside, SpanOfNew, Place, Skip.Valid, Forward, FirstFrom;
    ShapedOf(s);
    var k, r, t := Place(s.elems, e, 0), InsertBy(s, e, h, rank), Insert(s, e, h);
    InsertByValid(s, e, h, rank);
    InsertValid(s, e, h);
    ShapedOf(r);
    ShapedOf(t);
    forall p | 0 <= p < |r.spans| ensures r.spans[p] == t.spans[p] {
      forall l | 0 <= l < MAX_LEVEL ensures r.spans[p][l] == t.spans[p][l] {
        InsertedSpanBy(s, e, h, rank, p, l);
        InsertedSpan(s, e, h, p, l);
        NumbersUnused(s, k, h, if p <= k then p else if p == k + 1 then k else p - 1, l, rank);
      }
    }
  }

  lemma NumbersUnused(s: Skip, k: nat, h: nat, p: nat, l: nat, rank: seq<nat>)
    requires s.Shaped() && k < |s.hs| && p < |s.hs| && l < MAX_LEVEL && 0 < h <= |rank|
    requires Found(s, k, rank)
    ensures SpanBesideBy(s, k, h, p, l, Of(rank, 0), Of(rank, l)) == SpanBeside(s, k, h, p, l)
    ensures SpanOfNewBy(s, k, h, l, Of(rank, 0), Of(rank, l)) == SpanOfNew(s, k, h, l)
  {
    hide FirstFrom;
    assert Forward(s.hs, k, 0) == k;
    assert Of(rank, 0) == k;
  }

  /** Whether a list is valid does not depend on what its counters hold. */
  lemma ValidBesides(r: Skip, t: Skip)
    requires t.Valid() && r.Shaped() && r.elems == t.elems && r.hs == t.hs && r.level == t.level
    ensures r.Valid()
  {
  }

  // --- what insertion keeps --------------------------------------------------------------------------------

  lemma BeforeTransitive(a: Elem, b: Elem, c: Elem)
    ensures Before(a, b) && !Before(c, b) ==> Before(a, c)
    ensures !Before(a, b) && !Before(b, c) ==> !Before(a, c)
    ensures Before(a, b) ==> !Before(b, a)
  {
  }

  lemma InsertByShaped(s: Skip, e: Elem, h: nat, rank: seq<nat>)
    requires s.Shaped() && 0 < h <= MAX_LEVEL
    ensures InsertBy(s, e, h, rank).Shaped()
  {
    hide Place, SpanBesideBy, SpanOfNewBy;
    var k := Place(s.elems, e, 0);
    var r := InsertBy(s, e, h, rank);
    forall p | 0 <= p < |r.hs|
      ensures |r.spans[p]| == MAX_LEVEL && r.hs[p] == if p <= k then s.hs[p] else if p == k + 1 then h else s.hs[p - 1]
    {
    }
  }

  lemma InsertShaped(s: Skip, e: Elem, h: nat)
    requires s.Shaped() && 0 < h <= MAX_LEVEL
    ensures Insert(s, e, h).Shaped()
  {
    hide InsertBy;
    InsertByShaped(s, e, h, Places(s, Place(s.elems, e, 0)));
  }

  lemma InsertSorted(s: Skip, e: Elem, h: nat)
    requires s.Shaped() && s.Sorted() && 0 < h <= MAX_LEVEL
    ensures Insert(s, e, h).Shaped() && Insert(s, e, h).Sorted()
  {
    hide Place, Insert, Before;
    InsertShaped(s, e, h);
    InsertElems(s, e, h);
    var k := Place(s.elems, e, 0);
    var r := Insert(s, e, h);
    forall p, q | 0 < p < q < |r.elems| ensures !Before(r.elems[q], r.elems[p]) {
      if p <= k && q == k + 1 {
        BeforeTransitive(r.elems[p], e, e);
      } else if p == k + 1 {
        assert r.elems[q] == s.elems[q - 1];
        BeforeTransitive(r.elems[q], s.elems[k + 1], e);
      } else {
        assert r.elems[p] == s.elems[if p <= k then p else p - 1];
        assert r.elems[q] == s.elems[if q <= k then q else q - 1];
      }
    }
  }

  lemma InsertLevel(s: Skip, e: Elem, h: nat)
    requires s.Shaped() && s.LevelRight() && 0 < h <= MAX_LEVEL
    ensures Insert(s, e, h).Shaped() && Insert(s, e, h).LevelRight()
  {
    hide Place, Insert, InsertAt;
    InsertShaped(s, e, h);
    InsertHeights(s, e, h);
    InsertLevelIs(s, e, h);
    var k := Place(s.elems, e, 0);
    var r := Insert(s, e, h);
    forall p | 0 < p < |r.hs| ensures r.hs[p] <= r.level {
      assert r.hs[p] == if p <= k then s.hs[p] else if p == k + 1 then h else s.hs[p - 1];
    }
    if h > s.level {
      assert r.hs[k + 1] == r.level;
    } else if s.level > 1 {
      var p :| 0 < p < |s.hs| && s.hs[p] == s.level;
      assert r.hs[if p <= k then p else p + 1] == r.level;
    }
  }

  lemma InsertHeights(s: Skip, e: Elem, h: nat)
    requires s.Shaped()
    ensures Insert(s, e, h).hs == InsertAt(s.hs, Place(s.elems, e, 0) + 1, h)
  {
    hide Place, InsertAt, SpanBesideBy, SpanOfNewBy, Places;
  }

  lemma InsertLevelIs(s: Skip, e: Elem, h: nat)
    requires s.Shaped()
    ensures Insert(s, e, h).level == if h > s.level then h else s.level
  {
    hide Place, InsertAt, SpanBesideBy, SpanOfNewBy, Places;
  }

  /** Insertion keeps the list sorted, keeps `level` the height of the tallest tower, and puts in just the
      new element, after those before it and ahead of its equals. */
  lemma InsertValid(s: Skip, e: Elem, h: nat)
    requires s.Valid() && 0 < h <= MAX_LEVEL
    ensures Insert(s, e, h).Valid()
    ensures var c := s.Contents(); var k := Place(s.elems, e, 0);
            && k <= |c| && Insert(s, e, h).Contents() == InsertAt(c, k, e)
            && (forall j :: 0 <= j < k ==> Before(c[j], e)) && (forall j :: k <= j < |c| ==> !Before(c[j], e))
    ensures multiset(Insert(s, e, h).Contents()) == multiset(s.Contents()) + multiset{e}
  {
    hide SpanBeside, SpanOfNew, Before, Insert, Place, Skip.Sorted, Skip.LevelRight;
    InsertSorted(s, e, h);
    InsertLevel(s, e, h);
    InsertContents(s, e, h);
    PlaceInContents(s, e);
  }

  lemma InsertElems(s: Skip, e: Elem, h: nat)
    requires s.Shaped()
    ensures Insert(s, e, h).elems == InsertAt(s.elems, Place(s.elems, e, 0) + 1, e)
  {
    hide Place, InsertAt, SpanBesideBy, SpanOfNewBy, Places;
  }

  lemma InsertAtTail<T>(s: seq<T>, k: nat, x: T)
    requires k < |s|
    ensures InsertAt(s, k + 1, x)[1..] == InsertAt(s[1..], k, x)
  {
  }

  lemma InsertAtMultiset<T>(s: seq<T>, k: nat, x: T)
    requires k <= |s|
    ensures multiset(InsertAt(s, k, x)) == multiset(s) + multiset{x}
  {
    assert s == s[..k] + s[k..];
  }

  lemma InsertContents(s: Skip, e: Elem, h: nat)
    requires s.Shaped() && 0 < h <= MAX_LEVEL
    ensures var c := s.Contents(); var k := Place(s.elems, e, 0);
            && k <= |c| && Insert(s, e, h).Shaped() && Insert(s, e, h).Contents() == InsertAt(c, k, e)
            && multiset(InsertAt(c, k, e)) == multiset(c) + multiset{e}
  {
    hide Place, Insert, InsertBy, InsertAt;
    InsertShaped(s, e, h);
    InsertElems(s, e, h);
    InsertAtTail(s.elems, Place(s.elems, e, 0), e);
    InsertAtMultiset(s.Contents(), Place(s.elems, e, 0), e);
  }

  lemma PlaceInContents(s: Skip, e: Elem)
    requires s.Valid()
    ensures var c := s.Contents(); var k := Place(s.elems, e, 0);
            && k <= |c| && (forall j :: 0 <= j < k ==> Before(c[j], e))
               && (forall j :: k <= j < |c| ==> !Before(c[j], e))
  {
    hide Before, Skip.LevelRight;
    var c, k := s.Contents(), Place(s.elems, e, 0);
    forall j | k <= j < |c| ensures !Before(c[j], e) {
      BeforeTransitive(s.elems[j + 1], s.elems[k + 1], e);
    }
  }

  lemma InsertedSpanBy(s: Skip, e: Elem, h: nat, rank: seq<nat>, p: nat, l: nat)
    requires s.Shaped() && 0 < h <= MAX_LEVEL && p <= |s.hs| && l < MAX_LEVEL
    ensures var r, k := InsertBy(s, e, h, rank), Place(s.elems, e, 0);
            && r.Shaped()
            && r.hs[p] == (if p <= k then s.hs[p] else if p == k + 1 then h else s.hs[p - 1])
            && r.spans[p][l] == if p <= k then SpanBesideBy(s, k, h, p, l, Of(rank, 0), Of(rank, l))
                                else if p == k + 1 then SpanOfNewBy(s, k, h, l, Of(rank, 0), Of(rank, l))
                                else SpanBesideBy(s, k, h, p - 1, l, Of(rank, 0), Of(rank, l))
  {
    hide Place, SpanBesideBy, SpanOfNewBy;
    InsertByShaped(s, e, h, rank);
  }

  lemma InsertedSpan(s: Skip, e: Elem, h: nat, p: nat, l: nat)
    requires s.Shaped() && 0 < h <= MAX_LEVEL && p <= |s.hs| && l < MAX_LEVEL
    ensures var r, k := Insert(s, e, h), Place(s.elems, e, 0);
            && r.Shaped()
            && r.hs[p] == (if p <= k then s.hs[p] else if p == k + 1 then h else s.hs[p - 1])
            && r.spans[p][l] == if p <= k then SpanBeside(s, k, h, p, l)
                                else if p == k + 1 then SpanOfNew(s, k, h, l)
                                else SpanBeside(s, k, h, p - 1, l)
  {
    hide Place, SpanBesideBy, SpanOfNewBy, InsertBy;
    InsertedSpanBy(s, e, h, Places(s, Place(s.elems, e, 0)), p, l);
  }

  /** A counter beside a link that is there is right, and its level is in use. */
  lemma LinkedCounter(s: Skip, k: nat, h: nat, p: nat, l: nat)
    requires s.Valid() && s.Exact() && p < |s.hs| && l < s.hs[p] && NextAt(s.hs, p, l) < |s.hs|
    ensures l < s.level && l < MAX_LEVEL
    ensures Opened(s, k, h, p, l) == s.spans[p][l] == NextAt(s.hs, p, l) - p
  {
  }

  lemma SpanOfNewExact(s: Skip, k: nat, h: nat, l: nat)
    requires s.Valid() && s.Exact() && k < |s.hs| < UINT32 && l < h <= MAX_LEVEL
    requires NextAt(InsertAt(s.hs, k + 1, h), k + 1, l) < |s.hs| + 1
    ensures SpanOfNew(s, k, h, l) == NextAt(InsertAt(s.hs, k + 1, h), k + 1, l) - (k + 1)
  {
    hide Forward, FirstFrom, NextAt, Opened, Skip.Valid, Skip.Exact;
    assert s.Shaped() && s.hs[0] > l by { ShapedOf(s); }
    var f := Forward(s.hs, k, l);
    CrossingIsForward(s.hs, k, f, l);
    NextAfterInsertNew(s.hs, k, h, f, l);
    LinkedCounter(s, k, h, f, l);
  }

  lemma ShapedOf(s: Skip)
    requires s.Valid()
    ensures s.Shaped() && s.hs[0] == MAX_LEVEL
  {
  }

  lemma SpanBeforeExact(s: Skip, k: nat, h: nat, p: nat, l: nat)
    requires s.Valid() && s.Exact() && p <= k < |s.hs| < UINT32 && l < s.hs[p] && l < MAX_LEVEL && h <= MAX_LEVEL
    requires NextAt(InsertAt(s.hs, k + 1, h), p, l) < |s.hs| + 1
    ensures SpanBeside(s, k, h, p, l) == NextAt(InsertAt(s.hs, k + 1, h), p, l) - p
  {
    hide Forward, FirstFrom, NextAt, Opened, Skip.Valid, Skip.Exact;
    ShapedOf(s);
    CrossingIsForward(s.hs, k, p, l);
    NextAfterInsertLeft(s.hs, k, h, p, l);
    if NextAt(s.hs, p, l) < |s.hs| { LinkedCounter(s, k, h, p, l); }
  }

  lemma SpanAfterExact(s: Skip, k: nat, h: nat, p: nat, l: nat)
    requires s.Valid() && s.Exact() && k < p < |s.hs| < UINT32 && l < s.hs[p] && l < MAX_LEVEL && h <= MAX_LEVEL
    requires NextAt(InsertAt(s.hs, k + 1, h), p + 1, l) < |s.hs| + 1
    ensures SpanBeside(s, k, h, p, l) == NextAt(InsertAt(s.hs, k + 1, h), p + 1, l) - (p + 1)
  {
    hide Forward, FirstFrom, NextAt, Opened, Skip.Valid, Skip.Exact;
    ShapedOf(s);
    NextAfterInsertRight(s.hs, k, h, p, l);
    LinkedCounter(s, k, h, p, l);
  }

  lemma InsertExactAt(s: Skip, e: Elem, h: nat, p: nat, l: nat)
    requires s.Valid() && s.Exact() && 0 < h <= MAX_LEVEL && |s.hs| < UINT32
    requires p <= |s.hs| && Insert(s, e, h).Shaped() && l < Insert(s, e, h).hs[p]
    requires NextAt(Insert(s, e, h).hs, p, l) < |s.hs| + 1
    ensures Insert(s, e, h).spans[p][l] == NextAt(Insert(s, e, h).hs, p, l) - p
  {
    hide Forward, FirstFrom, NextAt, Place, Insert, Before, SpanBeside, SpanOfNew, Skip.Exact;
    var k := Place(s.elems, e, 0);
    InsertedSpan(s, e, h, p, l);
    InsertHeights(s, e, h);
    if p == k + 1 {
      SpanOfNewExact(s, k, h, l);
    } else if p <= k {
      SpanBeforeExact(s, k, h, p, l);
    } else {
      SpanAfterExact(s, k, h, p - 1, l);
    }
  }

  /** The counters stay right: the link across the new tower is split or lengthened by one at each level,
      all others are left alone. */
  lemma InsertExact(s: Skip, e: Elem, h: nat)
    requires s.Valid() && s.Exact() && 0 < h <= MAX_LEVEL && |s.hs| < UINT32
    ensures Insert(s, e, h).Shaped() && Insert(s, e, h).Exact()
  {
    hide Insert, NextAt, FirstFrom;
    InsertShaped(s, e, h);
    InsertHeights(s, e, h);
    var r := Insert(s, e, h);
    forall p, l | 0 <= p < |r.hs| && 0 <= l < r.hs[p] && NextAt(r.hs, p, l) < |r.hs|
      ensures r.spans[p][l] == NextAt(r.hs, p, l) - p
    {
      InsertExactAt(s, e, h, p, l);
    }
  }

  /** Only the header reaches levels that are not in use. */
  lemma HighIsHeader(s: Skip, f: nat, l: nat)
    requires s.Valid() && f < |s.hs| && s.level <= l < s.hs[f]
    ensures f == 0
  {
  }
}
