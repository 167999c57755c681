/** The nodes of a skip list, each with a vector of levels, and the row they form: which levels and backward
    pointers the nodes hold before and after an insertion. */
module SkipNodes {
  import opened Towers
  import opened SkipModel
  import opened Counters

  datatype Level = Level(span: nat, next: Node?)

  class Node {
    var obj: int
    var score: real
    var previous: Node?
    var levels: seq<Level>

    constructor (obj: int, score: real)
      ensures this.obj == obj && this.score == score && previous == null
      ensures levels == seq(MAX_LEVEL, l => Level(0, null))
    {
      this.obj := obj;
      this.score := score;
      previous := null;
      levels := seq(MAX_LEVEL, l => Level(0, null));
    }

    function Value(): Elem
      reads this
    {
      Elem(score, obj)
    }
  }

  type Row = r: seq<Level> | |r| == MAX_LEVEL witness seq(MAX_LEVEL, l => Level(0, null))

  const BLANK: Row := seq(MAX_LEVEL, l => Level(0, null))

  function Spans(r: Row): (s: seq<nat>)
    ensures |s| == MAX_LEVEL && forall l :: 0 <= l < MAX_LEVEL ==> s[l] == r[l].span
  {
    seq(MAX_LEVEL, l requires 0 <= l < MAX_LEVEL => r[l].span)
  }

  function AllSpans(rows: seq<Row>): (s: seq<seq<nat>>)
    ensures |s| == |rows| && forall p :: 0 <= p < |rows| ==> s[p] == Spans(rows[p])
  {
    seq(|rows|, p requires 0 <= p < |rows| => Spans(rows[p]))
  }

  /** The node at a place of the row of nodes; null past its end. */
  function NodeAt(nodes: seq<Node>, q: nat): Node? {
    if q < |nodes| then nodes[q] else null
  }

  /** Every link leads to the next node that is tall enough. */
  ghost predicate Linked(nodes: seq<Node>, hs: seq<nat>, rows: seq<Row>)
    requires |nodes| == |hs| == |rows|
  {
    forall p, l :: 0 <= p < |nodes| && 0 <= l < hs[p] && l < MAX_LEVEL
      ==> rows[p][l].next == NodeAt(nodes, NextAt(hs, p, l))
  }

  /** Nodes point back to their predecessor; the first to null, or to the header after a deletion. */
  ghost predicate Backward(nodes: seq<Node>, backs: seq<Node?>)
    requires |nodes| == |backs|
  {
    && (forall p :: 1 < p < |nodes| ==> backs[p] == nodes[p - 1])
    && (|nodes| > 1 ==> backs[1] == null || backs[1] == nodes[0])
  }

  ghost predicate Distinct(nodes: seq<Node>) {
    forall p, q :: 0 <= p < q < |nodes| ==> nodes[p] != nodes[q]
  }

  /** The nodes, read one after the other, hold these elements, levels and backward pointers. */
  ghost predicate Mirror(nodes: seq<Node>, elems: seq<Elem>, rows: seq<Row>, backs: seq<Node?>)
    reads nodes
  {
    && |nodes| == |elems| == |rows| == |backs|
    && Distinct(nodes)
    && forall p :: 0 <= p < |nodes| ==>
         nodes[p].Value() == elems[p] && nodes[p].levels == rows[p] && nodes[p].previous == backs[p]
  }

  lemma MirrorInserted(nodes: seq<Node>, elems: seq<Elem>, rows: seq<Row>, backs: seq<Node?>, i: nat, node: Node,
      row: Row)
    requires Mirror(nodes, elems, rows, backs) && 0 < i <= |nodes| && node !in nodes && node.levels == row
    ensures Mirror(InsertAt(nodes, i, node), InsertAt(elems, i, node.Value()), InsertAt(rows, i, row),
                   InsertAt(backs, i, node.previous))
  {
    DistinctInserted(nodes, i - 1, node);
    var n := InsertAt(nodes, i, node);
    forall p | 0 <= p < |n|
      ensures n[p].Value() == InsertAt(elems, i, node.Value())[p] && n[p].levels == InsertAt(rows, i, row)[p]
      ensures n[p].previous == InsertAt(backs, i, node.previous)[p]
    {
      if p > i { assert n[p] == nodes[p - 1]; }
    }
  }

  // --- rows of levels ------------------------------------------------------------------------------------------

  function OpenRows(r: seq<Row>, lo: nat, hi: nat, k: nat): (o: seq<Row>)
    ensures |o| == |r|
  {
    seq(|r|, p requires 0 <= p < |r| =>
      seq(MAX_LEVEL, l requires 0 <= l < MAX_LEVEL => if p == 0 && lo <= l < hi then r[p][l].(span := k) else r[p][l]))
  }

  lemma NothingOpened(r: seq<Row>, lo: nat, k: nat)
    ensures OpenRows(r, lo, lo, k) == r
  {
    forall p | 0 <= p < |r| ensures OpenRows(r, lo, lo, k)[p] == r[p] {
      assert forall l :: 0 <= l < MAX_LEVEL ==> OpenRows(r, lo, lo, k)[p][l] == r[p][l];
    }
  }

  lemma NoneOpened(r: seq<Row>, lo: nat, hi: nat, k: nat)
    requires hi <= lo
    ensures OpenRows(r, lo, hi, k) == OpenRows(r, lo, lo, k)
  {
    forall p | 0 <= p < |r| ensures OpenRows(r, lo, hi, k)[p] == OpenRows(r, lo, lo, k)[p] {
      assert forall l :: 0 <= l < MAX_LEVEL ==> OpenRows(r, lo, hi, k)[p][l] == OpenRows(r, lo, lo, k)[p][l];
    }
  }

  lemma OpenNext(r: seq<Row>, lo: nat, hi: nat, k: nat, p: nat)
    requires p < |r|
    ensures OpenRows(r, lo, hi, k)[p][0].next == r[p][0].next
  {
  }

  lemma OpenStep(r: seq<Row>, lo: nat, i: nat, k: nat)
    requires |r| > 0 && lo <= i < MAX_LEVEL
    ensures var o := OpenRows(r, lo, i, k);
            OpenRows(r, lo, i + 1, k) == o[0 := o[0][i := o[0][i].(span := k)]]
  {
    var o, o' := OpenRows(r, lo, i, k), OpenRows(r, lo, i + 1, k);
    var t := o[0 := o[0][i := o[0][i].(span := k)]];
    forall p | 0 <= p < |r| ensures o'[p] == t[p] {
      assert forall l :: 0 <= l < MAX_LEVEL ==> o'[p][l] == t[p][l];
    }
  }

  // `pos` are the places of the forwards, `rank` the numbers that the descent has arrived at with them.

  /** The level of a forward once the new node is linked behind it. */
  function LinkedAt(c: Level, pos: seq<nat>, rank: seq<nat>, h: nat, p: nat, l: nat, node: Node): Level {
    if l < h && l < |pos| && p == pos[l] then
      var gap: int := Of(rank, 0);
      Level(Wrap(gap - Of(rank, l) + 1), node)
    else c
  }

  function LinkRows(r: seq<Row>, pos: seq<nat>, rank: seq<nat>, h: nat, node: Node): (o: seq<Row>)
    ensures |o| == |r|
  {
    seq(|r|, p requires 0 <= p < |r| =>
      seq(MAX_LEVEL, l requires 0 <= l < MAX_LEVEL => LinkedAt(r[p][l], pos, rank, h, p, l, node)))
  }

  function NewAt(r: seq<Row>, pos: seq<nat>, rank: seq<nat>, h: nat, l: nat): Level
    requires l < MAX_LEVEL
  {
    if l < h && l < |pos| && pos[l] < |r| then
      var gap: int := Of(rank, 0);
      Level(Wrap(r[pos[l]][l].span - (gap - Of(rank, l))), r[pos[l]][l].next)
    else Level(0, null)
  }

  function NewRow(r: seq<Row>, pos: seq<nat>, rank: seq<nat>, h: nat): Row {
    seq(MAX_LEVEL, l requires 0 <= l < MAX_LEVEL => NewAt(r, pos, rank, h, l))
  }

  lemma NothingLinked(r: seq<Row>, pos: seq<nat>, rank: seq<nat>, node: Node)
    ensures LinkRows(r, pos, rank, 0, node) == r && NewRow(r, pos, rank, 0) == BLANK
  {
    forall p | 0 <= p < |r| ensures LinkRows(r, pos, rank, 0, node)[p] == r[p] {
      assert forall l :: 0 <= l < MAX_LEVEL ==> LinkRows(r, pos, rank, 0, node)[p][l] == r[p][l];
    }
  }

  lemma LinkStep(r: seq<Row>, pos: seq<nat>, rank: seq<nat>, i: nat, node: Node)
    requires i < |pos| == |rank| <= MAX_LEVEL && pos[i] < |r|
    ensures var o, n, gap: int := LinkRows(r, pos, rank, i, node), NewRow(r, pos, rank, i), rank[0] as int - rank[i];
            && o[pos[i]][i] == r[pos[i]][i]
            && LinkRows(r, pos, rank, i + 1, node) == o[pos[i] := o[pos[i]][i := Level(Wrap(gap + 1), node)]]
            && NewRow(r, pos, rank, i + 1) == n[i := Level(Wrap(r[pos[i]][i].span - gap), r[pos[i]][i].next)]
  {
    hide Wrap;
    var gap: int := rank[0] as int - rank[i];
    var o, o' := LinkRows(r, pos, rank, i, node), LinkRows(r, pos, rank, i + 1, node);
    var t := o[pos[i] := o[pos[i]][i := Level(Wrap(gap + 1), node)]];
    forall p | 0 <= p < |r| ensures o'[p] == t[p] {
      forall l | 0 <= l < MAX_LEVEL ensures o'[p][l] == t[p][l] {}
    }
  }

  /** The level of a forward once a shorter node has gone in behind it. */
  function Longer(c: Level): Level {
    if c.next != null then c.(span := Wrap(c.span + 1)) else c
  }

  function LongerAt(c: Level, pos: seq<nat>, h: nat, top: nat, p: nat, l: nat): Level {
    if h <= l < top && l < |pos| && p == pos[l] then Longer(c) else c
  }

  function LongRows(r: seq<Row>, pos: seq<nat>, h: nat, top: nat): (o: seq<Row>)
    ensures |o| == |r|
  {
    seq(|r|, p requires 0 <= p < |r| =>
      seq(MAX_LEVEL, l requires 0 <= l < MAX_LEVEL => LongerAt(r[p][l], pos, h, top, p, l)))
  }

  lemma NothingLonger(r: seq<Row>, pos: seq<nat>, h: nat, top: nat)
    requires top <= h
    ensures LongRows(r, pos, h, top) == r
  {
    forall p | 0 <= p < |r| ensures LongRows(r, pos, h, top)[p] == r[p] {
      assert forall l :: 0 <= l < MAX_LEVEL ==> LongRows(r, pos, h, top)[p][l] == r[p][l];
    }
  }

  lemma LongStep(r: seq<Row>, pos: seq<nat>, h: nat, i: nat)
    requires h <= i < |pos| <= MAX_LEVEL && pos[i] < |r|
    ensures var o := LongRows(r, pos, h, i);
            && LongRows(r, pos, h, i + 1) == o[pos[i] := o[pos[i]][i := Longer(o[pos[i]][i])]]
            && (o[pos[i]][i].next == null ==> LongRows(r, pos, h, i + 1) == o)
  {
    hide Wrap;
    var o, o' := LongRows(r, pos, h, i), LongRows(r, pos, h, i + 1);
    var t := o[pos[i] := o[pos[i]][i := Longer(o[pos[i]][i])]];
    forall p | 0 <= p < |r| ensures o'[p] == t[p] {
      forall l | 0 <= l < MAX_LEVEL ensures o'[p][l] == t[p][l] {}
    }
    if o[pos[i]][i].next == null { assert t[pos[i]] == o[pos[i]]; }
  }

  /** The backward pointers once the node after place `k` points back to this one: a node that has come in
      there, or the one before a node that goes. */
  function BacksAfter(backs: seq<Node?>, k: nat, node: Node): (r: seq<Node?>)
    ensures |r| == |backs|
  {
    if k + 1 < |backs| then backs[k + 1 := node] else backs
  }

  lemma BackwardInserted(nodes: seq<Node>, backs: seq<Node?>, k: nat, node: Node, back: Node?)
    requires k < |nodes| == |backs| && Backward(nodes, backs) && back == (if k == 0 then null else nodes[k])
    ensures Backward(InsertAt(nodes, k + 1, node), InsertAt(BacksAfter(backs, k, node), k + 1, back))
  {
    var n, b := InsertAt(nodes, k + 1, node), InsertAt(BacksAfter(backs, k, node), k + 1, back);
    forall p | 1 < p < |n| ensures b[p] == n[p - 1] {
      if p > k + 1 { assert b[p] == BacksAfter(backs, k, node)[p - 1]; }
    }
  }

  lemma DistinctInserted(nodes: seq<Node>, k: nat, node: Node)
    requires k < |nodes| && node !in nodes && Distinct(nodes)
    ensures Distinct(InsertAt(nodes, k + 1, node))
  {
    var n := InsertAt(nodes, k + 1, node);
    forall p, q | 0 <= p < q < |n| ensures n[p] != n[q] {
      assert p != k + 1 ==> n[p] == nodes[if p <= k then p else p - 1];
      assert q != k + 1 ==> n[q] == nodes[if q <= k then q else q - 1];
    }
  }

  /** The places at which an insertion splits the levels. */
  ghost predicate FoundPlaces(s: Skip, e: Elem, pos: seq<nat>) {
    s.Shaped() && 0 < |pos| <= MAX_LEVEL && Found(s, Place(s.elems, e, 0), pos)
  }

  lemma PlacesFound(s: Skip, e: Elem, pos: seq<nat>)
    requires s.Valid() && FoundPlaces(s, e, pos)
    ensures pos[0] == Place(s.elems, e, 0) && NextAt(s.hs, pos[0], 0) == pos[0] + 1
    ensures forall i :: 0 <= i < |pos| ==> pos[i] <= pos[0] < |s.hs| && (s.level <= i ==> pos[i] == 0)
    ensures s.level == 0 ==> pos[0] == 0
  {
    hide Place, Forward, FirstFrom, Skip.Sorted;
    var k := Place(s.elems, e, 0);
    LevelZero(s, k);
    forall i | 0 <= i < |pos| && s.level <= i ensures pos[i] == 0 { HighIsHeader(s, pos[i], i); }
    if s.level == 0 { HighIsHeader(s, k, 0); }
  }

  lemma InsertedMembers(nodes: seq<Node>, i: nat, node: Node)
    requires i <= |nodes|
    ensures |InsertAt(nodes, i, node)| == |nodes| + 1
    ensures forall n :: n in InsertAt(nodes, i, node) ==> n in nodes || n == node
    ensures InsertAt(nodes, i, node)[|nodes|] == if i == |nodes| then node else nodes[|nodes| - 1]
  {
  }

  /** Every tower is linked at the lowest level. */
  lemma LevelZero(s: Skip, k: nat)
    requires s.Valid() && k < |s.hs|
    ensures s.hs[k] > 0 && NextAt(s.hs, k, 0) == k + 1 && s.hs[0] > 0 && Forward(s.hs, k, 0) == k
  {
    FirstFromIs(s.hs, k + 1, 0, k + 1);
  }

  /** Where the links of the longer row lead, told by the shorter row's. */
  lemma LinkInserted(s: Skip, k: nat, h: nat, nodes: seq<Node>, node: Node, p: nat, l: nat)
    requires s.Shaped() && k < |s.hs| == |nodes| && p <= |s.hs|
    requires l < InsertAt(s.hs, k + 1, h)[p] && l < MAX_LEVEL
    ensures var f := Forward(s.hs, k, l);
            var next := NodeAt(InsertAt(nodes, k + 1, node), NextAt(InsertAt(s.hs, k + 1, h), p, l));
            && (p == k + 1 ==> next == NodeAt(nodes, NextAt(s.hs, f, l)))
            && (p > k + 1 ==> next == NodeAt(nodes, NextAt(s.hs, p - 1, l)))
            && (p <= k ==> next == if l < h && p == f then node else NodeAt(nodes, NextAt(s.hs, p, l)))
  {
    hide Forward, NextAt, FirstFrom;
    var f := Forward(s.hs, k, l);
    CrossingIsForward(s.hs, k, f, l);
    if p == k + 1 {
      NextAfterInsertNew(s.hs, k, h, f, l);
    } else if p > k + 1 {
      NextAfterInsertRight(s.hs, k, h, p - 1, l);
    } else {
      CrossingIsForward(s.hs, k, p, l);
      NextAfterInsertLeft(s.hs, k, h, p, l);
    }
  }

  /** The rows beside the new node after all three rounds of relinking. */
  function Beside(r: seq<Row>, s: Skip, pos: seq<nat>, rank: seq<nat>, h: nat, node: Node): (o: seq<Row>)
    requires |rank| > 0
    ensures |o| == |r|
  {
    LongRows(LinkRows(OpenRows(r, s.level, h, rank[0]), pos, rank, h, node), pos, h, s.level)
  }

  /** The row and the list it tells. */
  ghost predicate Tells(nodes: seq<Node>, r: seq<Row>, s: Skip) {
    s.Valid() && |r| == |nodes| == |s.hs| && s.spans == AllSpans(r) && Linked(nodes, s.hs, r)
  }

  lemma BesideCell(nodes: seq<Node>, r: seq<Row>, s: Skip, e: Elem, pos: seq<nat>, rank: seq<nat>, h: nat, node: Node,
      p: nat, l: nat)
    requires Tells(nodes, r, s) && FoundPlaces(s, e, pos) && p < |r| && l < MAX_LEVEL
    requires 0 < h <= MAX_LEVEL && |pos| == |rank| == (if h > s.level then h else s.level)
    requires pos[0] == Place(s.elems, e, 0)
    ensures Beside(r, s, pos, rank, h, node)[p][l] ==
            Level(SpanBesideBy(s, pos[0], h, p, l, rank[0], Of(rank, l)),
                  if l < h && p == Forward(s.hs, pos[0], l) then node else r[p][l].next)
  {
    hide Forward, FirstFrom, Wrap, Place, Skip.Sorted, Skip.LevelRight;
    assert s.spans[p][l] == r[p][l].span;
  }

  lemma NewCell(nodes: seq<Node>, r: seq<Row>, s: Skip, e: Elem, pos: seq<nat>, rank: seq<nat>, h: nat, l: nat)
    requires Tells(nodes, r, s) && FoundPlaces(s, e, pos) && l < MAX_LEVEL
    requires 0 < h <= MAX_LEVEL && |pos| == |rank| == (if h > s.level then h else s.level)
    requires pos[0] == Place(s.elems, e, 0)
    ensures NewRow(OpenRows(r, s.level, h, rank[0]), pos, rank, h)[l] ==
            Level(SpanOfNewBy(s, pos[0], h, l, rank[0], Of(rank, l)),
                  if l < h then r[Forward(s.hs, pos[0], l)][l].next else null)
  {
    hide Forward, FirstFrom, Wrap, Place, Skip.Sorted, Skip.LevelRight;
    var f := Forward(s.hs, pos[0], l);
    assert s.spans[f][l] == r[f][l].span;
  }

  /** The counters of the longer row are those of the insertion ... */
  lemma SpansInserted(nodes: seq<Node>, r: seq<Row>, s: Skip, e: Elem, pos: seq<nat>, rank: seq<nat>, h: nat,
      node: Node)
    requires Tells(nodes, r, s) && FoundPlaces(s, e, pos)
    requires 0 < h <= MAX_LEVEL && |pos| == |rank| == (if h > s.level then h else s.level)
    requires pos[0] == Place(s.elems, e, 0)
    ensures AllSpans(InsertAt(Beside(r, s, pos, rank, h, node), pos[0] + 1,
            NewRow(OpenRows(r, s.level, h, rank[0]), pos, rank, h)))
            == InsertBy(s, e, h, rank).spans
  {
    hide Place, SpanBesideBy, SpanOfNewBy, Forward, InsertBy, InsertAt, Beside, NewRow, OpenRows, FoundPlaces;
    var k := pos[0];
    var newRow := NewRow(OpenRows(r, s.level, h, rank[0]), pos, rank, h);
    var o := InsertAt(Beside(r, s, pos, rank, h, node), k + 1, newRow);
    InsertByShaped(s, e, h, rank);
    forall p | 0 <= p < |o| ensures AllSpans(o)[p] == InsertBy(s, e, h, rank).spans[p] {
      forall l | 0 <= l < MAX_LEVEL ensures o[p][l].span == InsertBy(s, e, h, rank).spans[p][l] {
        InsertedSpanBy(s, e, h, rank, p, l);
        if p <= k {
          BesideCell(nodes, r, s, e, pos, rank, h, node, p, l);
        } else if p == k + 1 {
          NewCell(nodes, r, s, e, pos, rank, h, l);
        } else {
          BesideCell(nodes, r, s, e, pos, rank, h, node, p - 1, l);
        }
      }
    }
  }

  lemma LinkTold(nodes: seq<Node>, r: seq<Row>, s: Skip, p: nat, l: nat)
    requires Tells(nodes, r, s) && p < |s.hs| && l < s.hs[p] && l < MAX_LEVEL
    ensures p < |r| && r[p][l].next == NodeAt(nodes, NextAt(s.hs, p, l))
  {
    hide NextAt, NodeAt;
  }

  /** The links of the towers before the new one, ... */
  lemma LinkedBefore(nodes: seq<Node>, r: seq<Row>, s: Skip, e: Elem, pos: seq<nat>, rank: seq<nat>, h: nat,
      node: Node, p: nat, l: nat)
    requires Tells(nodes, r, s) && FoundPlaces(s, e, pos) && p <= |s.hs| && l < MAX_LEVEL
    requires 0 < h <= MAX_LEVEL && |pos| == |rank| == (if h > s.level then h else s.level)
    requires pos[0] == Place(s.elems, e, 0) && l < InsertAt(s.hs, pos[0] + 1, h)[p]
    requires p <= pos[0]
    ensures Beside(r, s, pos, rank, h, node)[p][l].next
            == NodeAt(InsertAt(nodes, pos[0] + 1, node), NextAt(InsertAt(s.hs, pos[0] + 1, h), p, l))
  {
    hide Place, SpanBesideBy, SpanOfNewBy, Forward, NextAt, NodeAt, Beside, NewRow, OpenRows, FoundPlaces, Tells;
    hide AllSpans;
    hide InsertAt, Skip.Shaped;
    TellsPlace(nodes, r, s, e);
    LinkInserted(s, pos[0], h, nodes, node, p, l);
    LinkTold(nodes, r, s, p, l);
    BesideCell(nodes, r, s, e, pos, rank, h, node, p, l);
  }

  /** ... its own ... */
  lemma LinkedNew(nodes: seq<Node>, r: seq<Row>, s: Skip, e: Elem, pos: seq<nat>, rank: seq<nat>, h: nat,
      node: Node, p: nat, l: nat)
    requires Tells(nodes, r, s) && FoundPlaces(s, e, pos) && p <= |s.hs| && l < MAX_LEVEL
    requires 0 < h <= MAX_LEVEL && |pos| == |rank| == (if h > s.level then h else s.level)
    requires pos[0] == Place(s.elems, e, 0) && l < InsertAt(s.hs, pos[0] + 1, h)[p]
    requires p == pos[0] + 1
    ensures NewRow(OpenRows(r, s.level, h, rank[0]), pos, rank, h)[l].next
            == NodeAt(InsertAt(nodes, pos[0] + 1, node), NextAt(InsertAt(s.hs, pos[0] + 1, h), p, l))
  {
    hide Place, SpanBesideBy, SpanOfNewBy, Forward, NextAt, NodeAt, Beside, NewRow, OpenRows, FoundPlaces, Tells;
    hide AllSpans;
    hide InsertAt, Skip.Shaped;
    TellsPlace(nodes, r, s, e);
    LinkInserted(s, pos[0], h, nodes, node, p, l);
    LinkTold(nodes, r, s, Forward(s.hs, pos[0], l), l);
    NewCell(nodes, r, s, e, pos, rank, h, l);
  }

  /** ... and those after it. */
  lemma LinkedAfter(nodes: seq<Node>, r: seq<Row>, s: Skip, e: Elem, pos: seq<nat>, rank: seq<nat>, h: nat,
      node: Node, p: nat, l: nat)
    requires Tells(nodes, r, s) && FoundPlaces(s, e, pos) && p <= |s.hs| && l < MAX_LEVEL
    requires 0 < h <= MAX_LEVEL && |pos| == |rank| == (if h > s.level then h else s.level)
    requires pos[0] == Place(s.elems, e, 0) && l < InsertAt(s.hs, pos[0] + 1, h)[p]
    requires p > pos[0] + 1
    ensures Beside(r, s, pos, rank, h, node)[p - 1][l].next
            == NodeAt(InsertAt(nodes, pos[0] + 1, node), NextAt(InsertAt(s.hs, pos[0] + 1, h), p, l))
  {
    hide Place, SpanBesideBy, SpanOfNewBy, Forward, NextAt, NodeAt, Beside, NewRow, OpenRows, FoundPlaces, Tells;
    hide AllSpans;
    hide InsertAt, Skip.Shaped;
    TellsPlace(nodes, r, s, e);
    LinkInserted(s, pos[0], h, nodes, node, p, l);
    LinkTold(nodes, r, s, p - 1, l);
    BesideCell(nodes, r, s, e, pos, rank, h, node, p - 1, l);
  }

  /** ... and its links lead to the next node tall enough. */
  lemma LinkedInserted(nodes: seq<Node>, r: seq<Row>, s: Skip, e: Elem, pos: seq<nat>, rank: seq<nat>, h: nat,
      node: Node)
    requires Tells(nodes, r, s) && FoundPlaces(s, e, pos)
    requires 0 < h <= MAX_LEVEL && |pos| == |rank| == (if h > s.level then h else s.level)
    requires pos[0] == Place(s.elems, e, 0)
    ensures Linked(InsertAt(nodes, pos[0] + 1, node), InsertAt(s.hs, pos[0] + 1, h),
                   InsertAt(Beside(r, s, pos, rank, h, node), pos[0] + 1,
                       NewRow(OpenRows(r, s.level, h, rank[0]), pos, rank, h)))
  {
    hide Place, Forward, NextAt, NodeAt, Beside, NewRow, OpenRows, FoundPlaces, Tells, InsertAt;
    TellsPlace(nodes, r, s, e);
    var k := pos[0];
    var newRow := NewRow(OpenRows(r, s.level, h, rank[0]), pos, rank, h);
    var n, hs := InsertAt(nodes, k + 1, node), InsertAt(s.hs, k + 1, h);
    var beside := Beside(r, s, pos, rank, h, node);
    var o := InsertAt(beside, k + 1, newRow);
    forall p, l | 0 <= p < |n| && 0 <= l < hs[p] && l < MAX_LEVEL ensures o[p][l].next == NodeAt(n, NextAt(hs, p, l)) {
      InsertedAt(beside, k, newRow, p);
      if p <= k {
        LinkedBefore(nodes, r, s, e, pos, rank, h, node, p, l);
      } else if p == k + 1 {
        LinkedNew(nodes, r, s, e, pos, rank, h, node, p, l);
      } else {
        LinkedAfter(nodes, r, s, e, pos, rank, h, node, p, l);
      }
    }
  }

  lemma InsertedAt(rows: seq<Row>, k: nat, row: Row, p: nat)
    requires k < |rows| && p <= |rows|
    ensures InsertAt(rows, k + 1, row)[p] == if p <= k then rows[p] else if p == k + 1 then row else rows[p - 1]
  {
  }

  lemma TellsPlace(nodes: seq<Node>, r: seq<Row>, s: Skip, e: Elem)
    requires Tells(nodes, r, s)
    ensures |r| == |nodes| == |s.hs| == |s.elems| > Place(s.elems, e, 0) && s.Shaped()
  {
  }
}
