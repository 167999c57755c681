/** The skip list in place, relinked by insertion and deletion. */
module SkipLists {
  import Words
  import opened Towers
  import opened SkipModel
  import opened SkipDelete
  import opened SkipQueries
  import opened SkipRanges
  import opened SkipNodes
  import opened SkipUnlink
  import opened Counters

  class SkipList {
    var header: Node
    var tailer: Node
    var length: nat
    var level: nat
    ghost var nodes: seq<Node>   // the header and then the nodes in order
    ghost var hs: seq<nat>       // how many levels each of them is linked at
    ghost var elems: seq<Elem>   // what the nodes hold: the elements,
    ghost var rows: seq<Row>     // the vectors of levels,
    ghost var backs: seq<Node?>  // and the backward pointers

    ghost function View(): Skip
      reads this
    {
      Skip(elems, hs, AllSpans(rows), level)
    }

    /** The nodes hold what the row says. */
    ghost predicate Mirrors()
      reads this, nodes
    {
      Mirror(nodes, elems, rows, backs)
    }

    /** The row is a skip list. */
    ghost predicate Ordered()
      reads this
    {
      && |nodes| == |elems| == |rows| == |backs| == |hs| == length + 1
      && nodes[0] == header && nodes[length] == tailer
      && View().Valid()
      && Linked(nodes, hs, rows)
      && Backward(nodes, backs)
    }

    ghost predicate Valid()
      reads this, nodes
    {
      Mirrors() && Ordered()
    }

    constructor ()
      ensures Valid() && fresh(nodes)
      ensures |elems| == 1 && View() == Empty(elems[0])
      ensures View().Exact() && Leftovers(View())
    {
      level := 1;
      length := 0;
      var node := new Node(0, 0.0);
      header := node;
      tailer := node;
      nodes := [node];
      hs := [MAX_LEVEL];
      elems := [Elem(0.0, 0)];
      rows := [BLANK];
      backs := [null];
      new;
      var zeros := seq(MAX_LEVEL, l => 0);
      assert Spans(BLANK) == zeros;
      assert AllSpans([BLANK]) == [zeros];
      EmptyRight(elems[0]);
    }

    /** Along one level, from the node at place `from`, as far as elements come before the new one; the counters
        on the way are added up. */
    method WalkBefore(e: Elem, l: nat, node: Node, ghost from: nat, start: nat)
        returns (temp: Node, rank: nat, ghost at: nat)
      requires Valid() && start < UINT32
      requires from <= Place(elems, e, 0) && node == nodes[from] && l < hs[from]
      ensures l < hs[0] && at == Forward(hs, Place(elems, e, 0), l) && temp == nodes[at]
      ensures View().Shaped() && View().hs == hs && l < MAX_LEVEL
      ensures rank == Wrap(start + Ascent(View(), Place(elems, e, 0), l, from))
    {
      hide Place, Forward, NextAt, Before, View, Ordered, Wrap, Ascent;
      ghost var k := Place(elems, e, 0);
      temp, rank, at := node, start, from;
      Lens();
      ShapedOf(View());
      InReach(l, at);
      var next := temp.levels[l].next;
      WrapSmall(start);
      while next != null && Before(next.Value(), e)
        invariant at <= k < |nodes| == |hs| && temp == nodes[at] && l < hs[at] && l < MAX_LEVEL
        invariant next == NodeAt(nodes, NextAt(hs, at, l)) && rank < UINT32
        invariant Wrap(rank + Ascent(View(), k, l, at)) == Wrap(start + Ascent(View(), k, l, from))
        decreases |nodes| - at
      {
        InReach(l, at);
        OneForward(View(), e, k, at, l);
        WrapAdd(rank, temp.levels[l].span, Ascent(View(), k, l, NextAt(hs, at, l)));
        WrapSmall(rank + temp.levels[l].span);
        rank := Wrap(rank + temp.levels[l].span);
        at := NextAt(hs, at, l);
        temp := next;
        InReach(l, at);
        next := next.levels[l].next;
      }
      LastForward(View(), e, k, at, l);
      WrapSmall(rank);
    }

    lemma Lens()
      requires Ordered()
      ensures |nodes| == |hs| == |elems| == |rows| == |backs| == length + 1
      ensures nodes[0] == header && hs[0] == MAX_LEVEL && View().Valid()
      ensures View().elems == elems && View().hs == hs && View().level == level
    {
    }

    /** What the walk may use about the node it is at. */
    lemma InReach(l: nat, p: nat)
      requires Ordered() && p < |hs| && l < hs[p]
      ensures |nodes| == |hs| == |elems| == |rows| && l < MAX_LEVEL
      ensures View().Valid() && View().hs == hs && View().elems == elems
      ensures rows[p][l].next == NodeAt(nodes, NextAt(hs, p, l)) && View().spans[p][l] == rows[p][l].span
    {
      hide NextAt;
    }

    /** The descent of an insertion: at every level the last node whose element comes before the new one, and
        what the counters followed so far add up to, which is its place if they are exact. */
    method FindForwards(e: Elem, finalLevel: nat) returns (forwards: seq<Node>, rank: seq<nat>, ghost pos: seq<nat>)
      requires Valid() && finalLevel <= MAX_LEVEL
      ensures |forwards| == |rank| == |pos| == finalLevel
      ensures Descended(View(), Place(elems, e, 0), nodes, forwards, rank, pos, 0, finalLevel)
      ensures View().Exact() && |hs| <= UINT32 ==> rank == pos
    {
      hide Place, Skip.Valid, Skip.Exact, Forward, Linked, Backward, Mirrors, View, Ordered, Ascent, Wrap, Rank;
      hide Descended;
      Lens();
      ShapedOf(View());
      ghost var k, s := Place(elems, e, 0), View();
      var i := finalLevel;
      var temp := header;
      var start, sum := header, 0;
      ghost var at: nat := 0;
      forwards := seq(finalLevel, j => start);
      rank := seq(finalLevel, j => 0);
      pos := seq(finalLevel, j => 0);
      NotDescended(s, k, nodes, forwards, rank, pos);
      while i > 0
        invariant 0 <= i <= finalLevel && |forwards| == |pos| == |rank| == finalLevel
        invariant at <= k < |nodes| == |hs| && temp == nodes[at] && i <= hs[at] && sum == Rank(s, k, i, finalLevel)
        invariant at == if i == finalLevel then 0 else Forward(hs, k, i)
        invariant Descended(s, k, nodes, forwards, rank, pos, i, finalLevel)
      {
        i := i - 1;
        ghost var from, before := at, sum;
        temp, sum, at := WalkBefore(e, i, temp, at, sum);
        RankStep(s, k, i, finalLevel, from, before, sum);
        OneDown(s, k, nodes, forwards, rank, pos, i, finalLevel, temp, sum, at);
        rank := rank[i := sum];
        forwards := forwards[i := temp];
        pos := pos[i := at];
      }
      if View().Exact() && |hs| <= UINT32 { RanksArePlaces(s, k, nodes, forwards, rank, pos); }
    }

    /** The height of a new tower: how often a random number below 2^31 is at most a halving bound. */
    method RandomLevel(rand: nat) returns (power: nat)
      ensures 1 <= power <= MAX_LEVEL
      ensures rand % 0x8000_0000 <= Bound(power - 1) && (power < MAX_LEVEL ==> rand % 0x8000_0000 > Bound(power))
    {
      Words.Two31();
      var maxNum := 0x8000_0000;
      var randNum := rand % maxNum;
      power := 0;
      var num := maxNum;
      while num >= 1
        invariant power <= MAX_LEVEL && num == Bound(power) && (power == 0 ==> randNum < num)
        invariant power > 0 ==> randNum <= Bound(power - 1)
        decreases num
      {
        if randNum > num {
          break;
        }
        power := power + 1;
        num := num / 2;
      }
    }

    // --- relinking -------------------------------------------------------------------------------------------

    /** Change one level of one node of the row. */
    method SetLevel(f: Node, l: nat, c: Level, ghost p: nat)
      requires Mirrors() && p < |nodes| && f == nodes[p] && l < MAX_LEVEL
      modifies `rows, f`levels
      ensures Mirrors() && rows == old(rows)[p := old(rows)[p][l := c]]
    {
      f.levels := f.levels[l := c];
      rows := rows[p := f.levels];
    }

    /** Levels not in use yet start at the header, whose counter there is set to the new node's place. */
    method OpenLevels(h: nat, forwards: seq<Node>, rank: seq<nat>) returns (forwards': seq<Node>, rank': seq<nat>)
      requires Mirrors() && |nodes| > 0 && nodes[0] == header && h <= MAX_LEVEL
      requires 0 < h <= |forwards| == |rank| && (level == 0 ==> rank[0] == 0)
      requires forall i :: level <= i < |rank| ==> rank[i] == 0 && forwards[i] == header
      modifies `rows, header`levels
      ensures Mirrors() && rows == OpenRows(old(rows), level, h, rank[0])
      ensures forwards' == forwards && rank' == rank
    {
      hide OpenRows, Mirror;
      forwards', rank' := forwards, rank;
      ghost var r := rows;
      MirrorLengths();
      NothingOpened(r, level, rank[0]);
      var i := level;
      while i < h
        invariant level <= i && Mirrors() && rows == OpenRows(r, level, i, rank[0])
        invariant i <= h || i == level
        invariant forwards' == forwards && rank' == rank
      {
        OpenStep(r, level, i, rank[0]);
        forwards' := forwards'[i := header];
        rank' := rank'[i := 0];
        MirrorLevels(0, 1);
        SetLevel(header, i, header.levels[i].(span := rank'[0]), 0);
        MirrorLengths();
        i := i + 1;
      }
      if i > h { NothingOpened(r, level, rank[0]); NoneOpened(r, level, h, rank[0]); }
    }

    /** Put the new node behind its forward at one level. */
    method LinkOne(node: Node, f: Node, i: nat, gap: int, ghost p: nat)
      requires Mirrors() && p < |nodes| && f == nodes[p] && node !in nodes && i < MAX_LEVEL == |node.levels|
      modifies `rows, f`levels, node`levels
      ensures Mirrors() && rows == old(rows)[p := old(rows)[p][i := Level(Wrap(gap + 1), node)]]
      ensures node.levels == old(node.levels)[i := Level(Wrap(old(rows)[p][i].span - gap), old(rows)[p][i].next)]
    {
      hide Wrap;
      node.levels := node.levels[i := node.levels[i].(next := f.levels[i].next)];
      f.levels := f.levels[i := f.levels[i].(next := node)];
      node.levels := node.levels[i := node.levels[i].(span := Wrap(f.levels[i].span - gap))];
      f.levels := f.levels[i := f.levels[i].(span := Wrap(gap + 1))];
      assert f.levels == old(rows)[p][i := Level(Wrap(gap + 1), node)];
      rows := rows[p := f.levels];
    }

    /** Put the new node behind its forward at each of its levels. */
    method LinkLevels(node: Node, forwards: seq<Node>, rank: seq<nat>, ghost pos: seq<nat>, h: nat)
      requires Mirrors() && node !in nodes && node.levels == BLANK && h <= |forwards| == |rank| == |pos| <= MAX_LEVEL
      requires forall i :: 0 <= i < |pos| ==> pos[i] < |nodes| && forwards[i] == nodes[pos[i]]
      modifies `rows, nodes`levels, node`levels
      ensures Mirrors() && rows == LinkRows(old(rows), pos, rank, h, node)
      ensures node.levels == NewRow(old(rows), pos, rank, h)
    {
      hide LinkRows, NewRow, Wrap;
      ghost var r := rows;
      NothingLinked(r, pos, rank, node);
      var i := 0;
      while i < h
        invariant 0 <= i <= h && Mirrors() && rows == LinkRows(r, pos, rank, i, node)
        invariant node.levels == NewRow(r, pos, rank, i)
      {
        LinkStep(r, pos, rank, i, node);
        LinkOne(node, forwards[i], i, rank[0] as int - rank[i], pos[i]);
        i := i + 1;
      }
    }

    /** Above the new node's height the links that cross it get longer by one. */
    method LengthenLevels(forwards: seq<Node>, ghost pos: seq<nat>, h: nat)
      requires Mirrors() && level <= |forwards| == |pos| <= MAX_LEVEL
      requires forall i :: 0 <= i < |pos| ==> pos[i] < |nodes| && forwards[i] == nodes[pos[i]]
      modifies `rows, nodes`levels
      ensures Mirrors() && rows == LongRows(old(rows), pos, h, level)
    {
      hide LongRows, Wrap;
      ghost var r := rows;
      NothingLonger(r, pos, h, h);
      var i := h;
      while i < level
        invariant h <= i && (i <= level || i == h) && Mirrors() && rows == LongRows(r, pos, h, i)
      {
        LongStep(r, pos, h, i);
        var f := forwards[i];
        if f.levels[i].next != null {
          SetLevel(f, i, f.levels[i].(span := Wrap(f.levels[i].span + 1)), pos[i]);
        }
        i := i + 1;
      }
      if level < h { NothingLonger(r, pos, h, level); }
    }

    /** Set the backward pointers around the new node, and the tail when it comes last. */
    method LinkBackward(node: Node, f: Node, ghost k: nat)
      requires Mirrors() && node !in nodes && k < |nodes| && f == nodes[k] && nodes[0] == header
      requires rows[k][0].next == NodeAt(nodes, k + 1) && tailer == nodes[|nodes| - 1]
      modifies `tailer, `backs, node`previous, nodes`previous
      ensures Mirrors() && node.previous == (if k == 0 then null else f)
      ensures backs == BacksAfter(old(backs), k, node)
      ensures tailer == if k + 1 == |nodes| then node else nodes[|nodes| - 1]
    {
      node.previous := if f == header then null else f;
      if f.levels[0].next == null {
        tailer := node;
      } else {
        f.levels[0].next.previous := node;
      }
      backs := BacksAfter(backs, k, node);
    }

    /** The row after a new node has gone in at its place. */
    ghost predicate Spliced(s: Skip, before: seq<Node>, rows0: seq<Row>, backs0: seq<Node?>, e: Elem, h: nat,
        pos: seq<nat>, rank: seq<nat>, node: Node)
      reads `nodes, `hs, `elems, `rows, `backs, `header, `tailer
    {
      && |rank| == |pos| > 0 && |s.hs| == |s.elems| == |before| == |rows0| == |backs0| > pos[0]
      && var k := pos[0];
      && nodes == InsertAt(before, k + 1, node) && hs == InsertAt(s.hs, k + 1, h)
         && elems == InsertAt(s.elems, k + 1, e)
      && rows == InsertAt(Beside(rows0, s, pos, rank, h, node), k + 1,
         NewRow(OpenRows(rows0, s.level, h, rank[0]), pos, rank, h))
      && backs == InsertAt(BacksAfter(backs0, k, node), k + 1, if k == 0 then null else before[k])
      && header == before[0] && tailer == nodes[|before|]
    }

    lemma SplicedView(s: Skip, before: seq<Node>, rows0: seq<Row>, backs0: seq<Node?>, e: Elem, h: nat, pos: seq<nat>,
        rank: seq<nat>, node: Node)
      requires Spliced(s, before, rows0, backs0, e, h, pos, rank, node) && Tells(before, rows0, s)
      requires FoundPlaces(s, e, pos) && pos[0] == Place(s.elems, e, 0)
      requires 0 < h <= MAX_LEVEL && |rank| == level == (if h > s.level then h else s.level)
      ensures View() == InsertBy(s, e, h, rank) && Linked(nodes, hs, rows) && |nodes| == |hs| == |rows|
    {
      hide Place, Linked, Beside, NewRow, OpenRows, BacksAfter, FoundPlaces, Skip.Valid, Skip.Exact, AllSpans;
      assert s.Valid() && s.Shaped() by { ShapedOf(s); }
      SpansInserted(before, rows0, s, e, pos, rank, h, node);
      LinkedInserted(before, rows0, s, e, pos, rank, h, node);
    }

    lemma SplicedOrdered(s: Skip, before: seq<Node>, rows0: seq<Row>, backs0: seq<Node?>, e: Elem, h: nat,
        pos: seq<nat>, rank: seq<nat>, node: Node)
      requires Spliced(s, before, rows0, backs0, e, h, pos, rank, node)
      requires Tells(before, rows0, s) && Backward(before, backs0)
      requires FoundPlaces(s, e, pos) && pos[0] == Place(s.elems, e, 0)
      requires 0 < h <= MAX_LEVEL && |rank| == level == (if h > s.level then h else s.level) && length == |before|
      ensures Ordered() && View() == InsertBy(s, e, h, rank)
    {
      hide Place, Linked, Backward, Beside, NewRow, OpenRows, BacksAfter, FoundPlaces, Skip.Valid, View, InsertBy;
      assert s.Valid() && s.Shaped() by { ShapedOf(s); }
      SplicedView(s, before, rows0, backs0, e, h, pos, rank, node);
      BackwardInserted(before, backs0, pos[0], node, if pos[0] == 0 then null else before[pos[0]]);
      InsertByValid(s, e, h, rank);
    }

    /** What relinking may use about the row it starts from. */
    lemma BeforeSplice(e: Elem, pos: seq<nat>)
      requires Ordered() && FoundPlaces(View(), e, pos)
      ensures Tells(nodes, rows, View()) && Backward(nodes, backs) && 0 < |pos| <= MAX_LEVEL
      ensures View().hs == hs && View().elems == elems && View().level == level
      ensures |nodes| == |hs| == |elems| == |rows| == |backs| == length + 1
      ensures nodes[0] == header && tailer == nodes[|nodes| - 1]
      ensures pos[0] == Place(elems, e, 0) < |nodes| && rows[pos[0]][0].next == NodeAt(nodes, pos[0] + 1)
      ensures forall i :: 0 <= i < |pos| ==> pos[i] < |nodes| && (level <= i ==> pos[i] == 0)
    {
      hide Place, Forward, Skip.Sorted, Skip.LevelRight, NodeAt, Backward, FirstFrom;
      PlacesFound(View(), e, pos);
      LevelZero(View(), pos[0]);
    }

    /** What relinking may use about what the descent has found. */
    lemma AfterDescent(e: Elem, h: nat, forwards: seq<Node>, rank: seq<nat>, pos: seq<nat>)
      requires Ordered() && 0 < h <= MAX_LEVEL && |pos| == if h > level then h else level
      requires Descended(View(), Place(elems, e, 0), nodes, forwards, rank, pos, 0, |pos|)
      ensures FoundPlaces(View(), e, pos) && rank == DescentOf(View(), e, h) && |forwards| == |rank| == |pos|
      ensures forall i :: 0 <= i < |pos| ==> pos[i] < |nodes| && forwards[i] == nodes[pos[i]]
      ensures forall i :: level <= i < |rank| ==> rank[i] == 0
    {
      hide Skip.Valid, View, Place, Rank, Forward;
      Lens();
      LevelBound(View());
      forall i | level <= i < |rank| ensures rank[i] == 0 { RankAbove(View(), Place(elems, e, 0), i, |rank|); }
    }

    /** Link a new node at all its levels and backward. */
    method Relink(node: Node, forwards: seq<Node>, rank: seq<nat>, ghost pos: seq<nat>, h: nat)
      requires Mirrors() && node !in nodes && node.levels == BLANK
      requires 0 < h <= |forwards| == |rank| == |pos| <= MAX_LEVEL
      requires level <= |rank| && |nodes| > 0 && nodes[0] == header && tailer == nodes[|nodes| - 1]
      requires forall i :: 0 <= i < |pos| ==> pos[i] < |nodes| && forwards[i] == nodes[pos[i]]
      requires rows[pos[0]][0].next == NodeAt(nodes, pos[0] + 1)
      modifies `tailer, `rows, `backs, nodes, node`levels, node`previous
      ensures Mirrors() && node.levels == NewRow(old(rows), pos, rank, h)
      ensures rows == LongRows(LinkRows(old(rows), pos, rank, h, node), pos, h, level)
      ensures backs == BacksAfter(old(backs), pos[0], node)
              && node.previous == if pos[0] == 0 then null else nodes[pos[0]]
      ensures tailer == if pos[0] + 1 == |nodes| then node else nodes[|nodes| - 1]
    {
      hide LinkRows, LongRows, NewRow, BacksAfter, Mirror, NodeAt;
      MirrorLengths();
      LinkBackward(node, forwards[0], pos[0]);
      LinkLevels(node, forwards, rank, pos, h);
      LengthenLevels(forwards, pos, h);
    }

    /** Relink around a new node for the element. */
    method Splice(e: Elem, h: nat, forwards: seq<Node>, rank: seq<nat>, ghost pos: seq<nat>) returns (ghost node: Node)
      requires Valid() && 0 < h <= MAX_LEVEL && FoundPlaces(View(), e, pos)
      requires |forwards| == |rank| == |pos| == if h > level then h else level
      requires forall i :: 0 <= i < |pos| ==> pos[i] < |nodes| && forwards[i] == nodes[pos[i]]
      requires forall i :: level <= i < |rank| ==> rank[i] == 0
      modifies `tailer, `nodes, `hs, `elems, `rows, `backs, nodes
      ensures Mirrors() && fresh(node)
      ensures Spliced(old(View()), old(nodes), old(rows), old(backs), e, h, pos, rank, node)
      ensures |nodes| == old(|nodes|) + 1 && forall n :: n in nodes ==> n in old(nodes) || n == node
    {
      hide Place, Ordered, View, Tells, Backward, FoundPlaces, OpenRows, LinkRows, LongRows, NewRow, BacksAfter;
      hide InsertAt, Mirror;
      hide NodeAt;
      BeforeSplice(e, pos);
      var forwards', rank' := OpenLevels(h, forwards, rank);
      OpenNext(old(rows), level, h, rank[0], pos[0]);
      var n := new Node(e.obj, e.score);
      Relink(n, forwards', rank', pos, h);
      node := n;
      Adopt(e, h, pos[0] + 1, n);
      InsertedMembers(old(nodes), pos[0] + 1, n);
    }

    ghost method Adopt(e: Elem, h: nat, i: nat, node: Node)
      requires Mirrors() && 0 < i <= |nodes| == |hs| && node !in nodes
      requires |node.levels| == MAX_LEVEL && node.Value() == e
      modifies `nodes, `hs, `elems, `rows, `backs
      ensures Mirrors()
      ensures nodes == InsertAt(old(nodes), i, node)
      ensures hs == InsertAt(old(hs), i, h) && elems == InsertAt(old(elems), i, e)
      ensures rows == InsertAt<Row>(old(rows), i, node.levels) && backs == InsertAt(old(backs), i, node.previous)
    {
      hide Mirror;
      assert |nodes| == |elems| == |rows| == |backs| by { MirrorLengths(); }
      var row: Row := node.levels;
      MirrorInserted(nodes, elems, rows, backs, i, node, row);
      nodes := InsertAt(nodes, i, node);
      hs := InsertAt(hs, i, h);
      elems := InsertAt(elems, i, e);
      rows := InsertAt(rows, i, row);
      backs := InsertAt(backs, i, node.previous);
    }

    lemma MirrorLengths()
      requires Mirrors()
      ensures |nodes| == |elems| == |rows| == |backs|
    {
    }

    /** Insert an element with a tower of random height. Where it goes, and every link, is right whatever the
        counters hold; the counters are computed from what the descent adds up, and if they were exact they are
        so again. */
    method InsertNode(e: Elem, rand: nat) returns (ghost h: nat)
      requires Valid() && length < UINT32 - 1
      modifies this, nodes
      ensures 0 < h <= MAX_LEVEL && rand % 0x8000_0000 <= Bound(h - 1)
      ensures h < MAX_LEVEL ==> rand % 0x8000_0000 > Bound(h)
      ensures Valid() && View() == InsertBy(old(View()), e, h, DescentOf(old(View()), e, h))
      ensures old(View().Exact()) ==> View() == Insert(old(View()), e, h) && View().Exact()
      ensures old(View().Exact() && Leftovers(View())) ==> Leftovers(View())
      ensures |nodes| == old(|nodes|) + 1 && forall n :: n in nodes ==> n in old(nodes) || fresh(n)
    {
      hide Place, Forward, Insert, InsertBy, Skip.Valid, Skip.Exact, Linked, Backward, Mirror, Tells, Leftovers;
      hide Bound, Spliced, Ordered, View;
      hide Rank, Descended, DescentOf, FoundPlaces, Skip.Shaped;
      var power := RandomLevel(rand);
      h := power;
      var finalLevel := if power > level then power else level;
      ghost var s, before, rows0, backs0 := View(), nodes, rows, backs;
      Lens();
      LevelBound(s);
      ghost var pos;
      var forwards, rank;
      forwards, rank, pos := FindForwards(e, finalLevel);
      AfterDescent(e, h, forwards, rank, pos);
      BeforeSplice(e, pos);
      ghost var node := Splice(e, power, forwards, rank, pos);
      level := finalLevel;
      length := length + 1;
      SplicedOrdered(s, before, rows0, backs0, e, h, pos, rank, node);
      InsertedExactly(s, e, h, rank);
    }

    // --- deletion --------------------------------------------------------------------------------------------

    /** Along one level from the header, as far as elements are passed. */
    method WalkPassing(e: Elem, l: nat) returns (prevNode: Node)
      requires Valid() && l < level
      ensures View().Shaped() && Pred(View(), e, l) < |nodes| && prevNode == nodes[Pred(View(), e, l)]
    {
      hide View, Ordered, Passes, FirstFrom;
      Lens();
      LevelBound(View());
      prevNode := header;
      var node := prevNode.levels[l].next;
      ghost var p := 0;
      InReach(l, 0);
      while node != null && Passes(node.Value(), e)
        invariant p < |nodes| == |hs| && prevNode == nodes[p] && l < hs[p] && l < MAX_LEVEL
        invariant node == NodeAt(nodes, NextAt(hs, p, l)) && Walk(View(), e, l, p) == Pred(View(), e, l)
        decreases |nodes| - p
      {
        InReach(l, p);
        p := NextAt(hs, p, l);
        prevNode := node;
        InReach(l, p);
        node := prevNode.levels[l].next;
      }
    }

    /** The predecessors of what a deletion unlinks, level by level from the topmost. */
    method FindPreds(e: Elem) returns (forwards: seq<Node>)
      requires Valid()
      ensures View().Shaped() && |forwards| == level
      ensures forall l :: 0 <= l < level ==> Pred(View(), e, l) < |nodes| && forwards[l] == nodes[Pred(View(), e, l)]
    {
      hide View, Mirrors, Ordered, Pred;
      Lens();
      var start := header;
      forwards := seq(level, j => start);
      var l: nat := level;
      while l > 0
        invariant 0 <= l <= level == |forwards|
        invariant forall m :: l <= m < level ==>
            Pred(View(), e, m) < |nodes| && forwards[m] == nodes[Pred(View(), e, m)]
      {
        l := l - 1;
        var prevNode := WalkPassing(e, l);
        forwards := forwards[l := prevNode];
      }
    }

    /** Take a node out of the list at one level. */
    method Unlink(f: Node, i: nat, node: Node, ghost p: nat, ghost q: nat)
      requires Mirrors() && p < |nodes| && q < |nodes| && f == nodes[p] && node == nodes[q] && p != q && i < MAX_LEVEL
      modifies `rows, f`levels
      ensures Mirrors()
      ensures var c, d := old(rows)[p][i], old(rows)[q][i];
              rows == old(rows)[p := old(rows)[p][i := Level(Joined(c.span, d.span), d.next)]]
    {
      f.levels := f.levels[i := f.levels[i].(next := node.levels[i].next)];
      f.levels := f.levels[i := f.levels[i].(span := Joined(f.levels[i].span, node.levels[i].span))];
      ghost var c, d := old(rows)[p][i], old(rows)[q][i];
      assert f.levels == old(rows)[p][i := Level(Joined(c.span, d.span), d.next)];
      rows := rows[p := f.levels];
    }

    /** Unlink at every level whatever follows the predecessor there, up to the first level where nothing does;
        a level that this empties lowers the level of the list. */
    method UnlinkLevels(e: Elem, forwards: seq<Node>, ghost s: Skip)
      requires Mirrors() && Tells(nodes, rows, s) && s.level == level == |forwards| && header == nodes[0]
      requires forall l :: 0 <= l < level ==> Pred(s, e, l) < |nodes| && forwards[l] == nodes[Pred(s, e, l)]
      modifies `level, `rows, nodes`levels
      ensures Mirrors() && rows == CutRows(old(rows), s, e, s.level)
      ensures level == s.level - EmptiedBelow(s, e, s.level)
    {
      hide CutRows, Pred, Hit, Tells, EmptiedBelow, Emptied, Joined, Mirror, NodeAt;
      TellsLengths(nodes, rows, s);
      ghost var r := rows;
      NothingCut(r, s, e);
      NoneEmptied(s, e);
      var resvLevel := level;
      var i := 0;
      while i < resvLevel
        invariant i <= resvLevel == s.level && Mirrors() && rows == CutRows(r, s, e, i)
        invariant level == s.level - EmptiedBelow(s, e, i)
      {
        MirrorDistinct();
        CutNext(nodes, r, s, e, i);
        ghost var g, q := Pred(s, e, i), Hit(s, e, i);
        MirrorLevels(g, q);
        var node := forwards[i].levels[i].next;
        if node == null {
          i := resvLevel;
          break;
        }
        if forwards[i] == header && node.levels[i].next == null {
          level := level - 1;
        }
        Unlink(forwards[i], i, node, g, q);
        i := i + 1;
      }
    }

    lemma MirrorDistinct()
      requires Mirrors()
      ensures Distinct(nodes) && |nodes| == |rows|
    {
    }

    lemma MirrorLevels(g: nat, q: nat)
      requires Mirrors() && g < q <= |nodes|
      ensures |nodes| == |rows| && nodes[g].levels == rows[g] && (NodeAt(nodes, q) == null <==> q == |nodes|)
      ensures q < |nodes| ==> nodes[q].levels == rows[q] && NodeAt(nodes, q) == nodes[q]
    {
    }

    /** Let the node after the victim point back past it, or the list end before it. */
    method UnlinkBackward(f: Node, node: Node, ghost v: nat)
      requires Mirrors() && 0 < v < |nodes| && f == nodes[v - 1] && node == nodes[v] && tailer == nodes[|nodes| - 1]
      requires rows[v][0].next == NodeAt(nodes, v + 1)
      modifies `tailer, `backs, nodes`previous
      ensures Mirrors() && backs == BacksAfter(old(backs), v, f)
      ensures tailer == if v + 1 == |nodes| then f else nodes[|nodes| - 1]
    {
      if node.levels[0].next == null {
        tailer := f;
      } else {
        node.levels[0].next.previous := f;
      }
      backs := BacksAfter(backs, v, f);
    }

    /** What the deletion may use about the row it starts from. */
    lemma BeforeUnlink(e: Elem)
      requires Ordered() && level > 0
      ensures Tells(nodes, rows, View()) && Backward(nodes, backs) && View().Shaped()
      ensures |nodes| == |hs| == |elems| == |rows| == |backs| == length + 1
      ensures View().level == level && View().elems == elems
      ensures nodes[0] == header && tailer == nodes[|nodes| - 1]
      ensures var g, v := Pred(View(), e, 0), Hit(View(), e, 0);
              && v <= |nodes| && g == v - 1 && rows[g][0].next == NodeAt(nodes, v)
              && (v < |nodes| ==> rows[v][0].next == NodeAt(nodes, v + 1))
    {
      hide Stop, Walk, FirstFrom, Skip.Sorted, Backward, NodeAt;
      PredLinks(View(), e, 0);
      LevelZero(View(), Pred(View(), e, 0));
      if Hit(View(), e, 0) < |nodes| { LevelZero(View(), Hit(View(), e, 0)); }
    }

    lemma MirrorAt(v: nat)
      requires Mirrors() && 0 < v <= |nodes|
      ensures nodes[v - 1].levels == rows[v - 1]
      ensures v < |nodes| ==> nodes[v].Value() == elems[v]
    {
    }

    ghost method Drop(v: nat, hs': seq<nat>)
      requires Mirrors() && v < |nodes|
      modifies `nodes, `hs, `elems, `rows, `backs
      ensures Mirrors() && hs == hs'
      ensures nodes == RemoveAt(old(nodes), v) && elems == RemoveAt(old(elems), v)
      ensures rows == RemoveAt(old(rows), v) && backs == RemoveAt(old(backs), v)
    {
      hide Mirror;
      MirrorLengths();
      MirrorRemoved(nodes, elems, rows, backs, v);
      nodes := RemoveAt(nodes, v);
      hs := hs';
      elems := RemoveAt(elems, v);
      rows := RemoveAt(rows, v);
      backs := RemoveAt(backs, v);
    }

    /** The row once the deletion is through. */
    ghost predicate Unlinked(s: Skip, before: seq<Node>, rows0: seq<Row>, backs0: seq<Node?>, e: Elem)
      reads `nodes, `hs, `elems, `rows, `backs, `header, `tailer
    {
      && s.Shaped() && |s.hs| == |before| == |rows0| == |backs0| && 0 < Hit(s, e, 0) < |before|
      && var v := Hit(s, e, 0);
      && nodes == RemoveAt(before, v) && hs == Delete(s, e).0.hs && elems == RemoveAt(s.elems, v)
      && rows == RemoveAt(CutRows(rows0, s, e, s.level), v)
      && backs == RemoveAt(BacksAfter(backs0, v, before[v - 1]), v)
      && header == before[0] && tailer == if v + 1 == |before| then before[v - 1] else before[|before| - 1]
    }

    lemma UnlinkedOrdered(s: Skip, before: seq<Node>, rows0: seq<Row>, backs0: seq<Node?>, e: Elem)
      requires Unlinked(s, before, rows0, backs0, e) && Tells(before, rows0, s) && Backward(before, backs0)
      requires level == s.level - EmptiedBelow(s, e, s.level) && length == |before| - 2
      ensures Ordered() && View() == Delete(s, e).0
    {
      hide Stop, Walk, Delete, RemoveAt, CutRows, Linked, Backward, AllSpans, Tells, Skip.Valid, EmptiedBelow;
      hide BacksAfter;
      var v := Hit(s, e, 0);
      TellsLengths(before, rows0, s);
      SpansDeleted(before, rows0, s, e);
      LinkedDeleted(before, rows0, s, e);
      BackwardRemoved(before, backs0, v);
      DeleteElems(s, e);
      LevelAfter(s, e);
      DeleteValid(s, e);
      DeletedAt(s, e, 0, 0);
      RemovedAt(before, v, 0);
      RemovedAt(before, v, |before| - 2);
    }

    /** Delete the first element that the lowest level's search stops before. A list whose level has fallen
        to zero must not be asked: the code then reads the first entry of an empty vector. */
    method DeleteNode(e: Elem) returns (result: int, res: Node?)
      requires Valid() && level > 0
      modifies this, nodes
      ensures Valid() && View() == Delete(old(View()), e).0 && result == Delete(old(View()), e).1
      ensures result == 0 ==>
              res == old(nodes)[Hit(old(View()), e, 0)] && nodes == RemoveAt(old(nodes), Hit(old(View()), e, 0))
      ensures result == -1 ==> res == null && nodes == old(nodes)
    {
      hide View, Mirror, Ordered, Pred, Hit, Tells, Backward, CutRows, BacksAfter, Delete, EmptiedBelow, Skip.Valid;
      hide AllSpans;
      BeforeUnlink(e);
      ghost var s, v := View(), Hit(View(), e, 0);
      var forwards := FindPreds(e);
      MirrorLengths();
      MirrorAt(v);
      Refusal(s, e);
      var node := forwards[0].levels[0].next;
      if node == null || (node.score != e.score && node.obj < e.obj) {
        return -1, null;
      }
      result, res := 0, node;
      UnlinkBackward(forwards[0], node, v);
      ghost var before, rows0, backs0 := nodes, rows, old(backs);
      UnlinkLevels(e, forwards, s);
      Drop(v, Delete(s, e).0.hs);
      length := length - 1;
      UnlinkedOrdered(s, before, rows0, backs0, e);
    }

    // --- lookups ---------------------------------------------------------------------------------------------

    /** Along one level, as long as a link's counter is less than what is left of the rank. */
    method WalkRank(l: nat, from: Node, rank: nat, ghost p: nat) returns (node: Node, left: nat, ghost g: nat)
      requires Valid() && p < |nodes| == |hs| && from == nodes[p] && l < hs[p] && l < MAX_LEVEL
      ensures View().Shaped() && View().hs == hs && (g, left) == RankWalk(View(), l, p, rank)
      ensures g < |nodes| && node == nodes[g] && l < hs[g]
    {
      hide View, Ordered, FirstFrom;
      Lens();
      ShapedOf(View());
      node, left, g := from, rank, p;
      InReach(l, g);
      while node.levels[l].next != null && node.levels[l].span < left
        invariant g < |nodes| == |hs| && node == nodes[g] && l < hs[g]
        invariant View().spans[g][l] == node.levels[l].span && node.levels[l].next == NodeAt(nodes, NextAt(hs, g, l))
        invariant RankWalk(View(), l, p, rank) == RankWalk(View(), l, g, left)
        decreases |nodes| - g
      {
        left := left - node.levels[l].span;
        node := node.levels[l].next;
        g := NextAt(hs, g, l);
        InReach(l, g);
      }
    }

    /** The node of a rank; null if the search by counters finds none. */
    method GetNodeByRank(rank: nat) returns (res: Node?)
      requires Valid()
      ensures View().Shaped() && level <= MAX_LEVEL && res == NodeAt(nodes, RankSearch(View(), level, 0, rank))
      ensures View().Exact() && Clear(View()) ==> res == if 1 <= rank <= length then nodes[rank] else null
    {
      hide View, Ordered, NextAt, RankWalk, Mirror, Skip.Exact, Clear;
      Lens();
      ShapedOf(View());
      LevelBound(View());
      if View().Exact() && Clear(View()) { RankFinds(View(), rank); }
      var node: Node, left: nat := header, rank;
      ghost var g: nat := 0;
      var l: nat := level;
      while l > 0
        invariant 0 <= l <= level && g < |nodes| == |hs| && node == nodes[g] && l <= hs[g]
        invariant RankSearch(View(), level, 0, rank) == RankSearch(View(), l, g, left)
      {
        l := l - 1;
        node, left, g := WalkRank(l, node, left, g);
        MirrorRow(l, g);
        if node.levels[l].span == left {
          return node.levels[l].next;
        }
      }
      return null;
    }

    lemma MirrorRow(l: nat, g: nat)
      requires Valid() && g < |hs| && l < hs[g]
      ensures |nodes| == |hs| && l < MAX_LEVEL && View().Shaped() && View().hs == hs && |nodes[g].levels| == MAX_LEVEL
      ensures nodes[g].levels[l].next == NodeAt(nodes, NextAt(hs, g, l))
      ensures View().spans[g][l] == nodes[g].levels[l].span
      ensures var q := NextAt(hs, g, l);
              View().elems == elems && |elems| == |nodes| && (q < |nodes| ==> l < hs[q] && nodes[q].Value() == elems[q])
    {
      InReach(l, g);
    }

    /** Along one level, as far as scores are below the range. */
    method WalkRange(range: Range, l: nat, from: Node, ghost p: nat) returns (prev: Node, node: Node?, ghost g: nat)
      requires Valid() && p < |nodes| == |hs| && from == nodes[p] && l < hs[p] && l < MAX_LEVEL
      ensures View().Shaped() && View().hs == hs && g == RangeWalk(View(), range, l, p)
      ensures g < |nodes| && prev == nodes[g] && l < hs[g] && node == NodeAt(nodes, NextAt(hs, g, l))
    {
      hide View, Ordered, FirstFrom, LtRange, Mirror;
      Lens();
      ShapedOf(View());
      prev, g := from, p;
      MirrorRow(l, g);
      node := prev.levels[l].next;
      while node != null && LtRange(node.Value(), range)
        invariant g < |nodes| == |hs| && prev == nodes[g] && l < hs[g] && node == NodeAt(nodes, NextAt(hs, g, l))
        invariant RangeWalk(View(), range, l, p) == RangeWalk(View(), range, l, g)
        decreases |nodes| - g
      {
        MirrorRow(l, g);
        prev := node;
        g := NextAt(hs, g, l);
        MirrorRow(l, g);
        node := prev.levels[l].next;
      }
      MirrorRow(l, g);
    }

    /** Different places hold different nodes. */
    lemma NodesTell(range: Range)
      requires Valid() && View().Shaped() && level <= MAX_LEVEL
      ensures var q, t := RangeSearch(View(), range, level, 0), FirstInRange(View(), range, 1);
              NodeAt(nodes, q) == NodeAt(nodes, t) <==> q == t
    {
      hide RangeSearch, FirstInRange, AllSpans, Skip.Valid;
      MirrorDistinct();
      assert |View().hs| == |nodes|;
    }

    /** The node that the descent by scores ends at. It is the first whose score is in range, as a linear search
        finds it, or null if there is none, exactly when no counter misleads the descent. */
    method FirstInScoreRange(range: Range) returns (res: Node?)
      requires Valid()
      ensures View().Shaped() && level <= MAX_LEVEL && res == NodeAt(nodes, RangeSearch(View(), range, level, 0))
      ensures res == NodeAt(nodes, FirstInRange(View(), range, 1)) <==> RangeRight(View(), range)
    {
      hide View, Ordered, NextAt, RangeWalk, Mirror, Skip.Exact, FirstInRange, InRange, RangeRight;
      Lens();
      ShapedOf(View());
      LevelBound(View());
      RangeFindsExactly(View(), range);
      NodesTell(range);
      var prev := header;
      ghost var g: nat := 0;
      var l: nat := level;
      while l > 0
        invariant 0 <= l <= level && g < |nodes| == |hs| && prev == nodes[g] && l <= hs[g]
        invariant RangeSearch(View(), range, level, 0) == RangeSearch(View(), range, l, g)
      {
        l := l - 1;
        var node;
        prev, node, g := WalkRange(range, l, prev, g);
        MirrorRow(l, g);
        if node != null && InRange(node.Value(), range) && 1 == prev.levels[l].span {
          return node;
        }
      }
      return null;
    }
  }

  /** The bound a random number is held against before the level grows beyond `power`. */
  function Bound(power: nat): nat { if power < MAX_LEVEL then Words.Pow2(31 - power) else 0 }

  /** In a sorted list the elements before `e` are those up to its place. */
  lemma PlaceSplits(s: Skip, e: Elem, q: nat)
    requires s.Valid() && 0 < q < |s.elems|
    ensures Before(s.elems[q], e) <==> q <= Place(s.elems, e, 0)
  {
    var k := Place(s.elems, e, 0);
    if q > k { BeforeTransitive(s.elems[q], s.elems[k + 1], e); }
  }

  lemma OneForward(s: Skip, e: Elem, k: nat, pos: nat, l: nat)
    requires s.Valid() && k == Place(s.elems, e, 0) && pos <= k && l < s.hs[pos] && l < MAX_LEVEL
    requires NextAt(s.hs, pos, l) < |s.hs| && Before(s.elems[NextAt(s.hs, pos, l)], e)
    ensures NextAt(s.hs, pos, l) <= k && l < s.hs[NextAt(s.hs, pos, l)]
    ensures Ascent(s, k, l, pos) == s.spans[pos][l] + Ascent(s, k, l, NextAt(s.hs, pos, l))
  {
    hide NextAt;
    PlaceSplits(s, e, NextAt(s.hs, pos, l));
    assert l < s.hs[NextAt(s.hs, pos, l)] by { TallEnough(s.hs, pos, l); }
  }

  /** What a descent from level `top` has found when it has come down to level `i`. */
  ghost predicate Descended(s: Skip, k: nat, nodes: seq<Node>, forwards: seq<Node>, rank: seq<nat>, pos: seq<nat>,
      i: nat, top: nat) {
    && s.Shaped() && k < |s.hs| == |nodes| && i <= top == |forwards| == |rank| == |pos| <= MAX_LEVEL
    && forall j :: i <= j < top ==>
         pos[j] == Forward(s.hs, k, j) && forwards[j] == nodes[pos[j]] && rank[j] == Rank(s, k, j, top)
  }

  lemma NotDescended(s: Skip, k: nat, nodes: seq<Node>, forwards: seq<Node>, rank: seq<nat>, pos: seq<nat>)
    requires s.Shaped() && k < |s.hs| == |nodes| && |forwards| == |rank| == |pos| <= MAX_LEVEL
    ensures Descended(s, k, nodes, forwards, rank, pos, |pos|, |pos|) && Rank(s, k, |pos|, |pos|) == 0
  {
  }

  lemma RankStep(s: Skip, k: nat, i: nat, top: nat, from: nat, before: nat, sum: nat)
    requires s.Shaped() && k < |s.hs| && i < top <= MAX_LEVEL
    requires from == (if i + 1 == top then 0 else Forward(s.hs, k, i + 1))
    requires before == Rank(s, k, i + 1, top) && from < |s.hs| && sum == Wrap(before + Ascent(s, k, i, from))
    ensures sum == Rank(s, k, i, top)
  {
    hide Wrap, Ascent, Forward;
  }

  lemma OneDown(s: Skip, k: nat, nodes: seq<Node>, forwards: seq<Node>, rank: seq<nat>, pos: seq<nat>, i: nat,
      top: nat, f: Node, r: nat, p: nat)
    requires Descended(s, k, nodes, forwards, rank, pos, i + 1, top) && p < |nodes|
    requires i < MAX_LEVEL && f == nodes[p] && p == Forward(s.hs, k, i) && r == Rank(s, k, i, top)
    ensures Descended(s, k, nodes, forwards[i := f], rank[i := r], pos[i := p], i, top)
  {
    hide Rank, Forward;
  }

  lemma RanksArePlaces(s: Skip, k: nat, nodes: seq<Node>, forwards: seq<Node>, rank: seq<nat>, pos: seq<nat>)
    requires s.Shaped() && s.Exact() && |s.hs| <= UINT32 && Descended(s, k, nodes, forwards, rank, pos, 0, |pos|)
    ensures rank == pos
  {
    hide Rank, Forward;
    forall i | 0 <= i < |rank| ensures rank[i] == pos[i] { RankExact(s, k, i, |rank|); }
  }

  lemma TallEnough(hs: seq<nat>, p: nat, l: nat)
    requires p < |hs| && NextAt(hs, p, l) < |hs|
    ensures hs[NextAt(hs, p, l)] > l
  {
  }

  lemma WrapAdd(a: nat, b: nat, c: nat)
    ensures Wrap(Wrap(a + b) + c) == Wrap(a + (b + c))
  {
  }

  lemma WrapSmall(a: nat)
    ensures Wrap(a) < UINT32 && (a < UINT32 ==> Wrap(a) == a)
  {
  }

  /** The numbers that the descent of an insertion arrives at. */
  ghost function DescentOf(s: Skip, e: Elem, h: nat): (rank: seq<nat>)
    requires s.Valid() && h <= MAX_LEVEL
  {
    var top := if h > s.level then h else s.level;
    seq(top, l requires 0 <= l < top => Rank(s, Place(s.elems, e, 0), l, top))
  }

  /** From exact counters the descent finds places, and the counters are exact again. */
  lemma InsertedExactly(s: Skip, e: Elem, h: nat, rank: seq<nat>)
    requires s.Valid() && |s.hs| < UINT32 && 0 < h <= MAX_LEVEL && rank == DescentOf(s, e, h)
    ensures s.Shaped() && Insert(s, e, h).Shaped()
    ensures s.Exact() ==> InsertBy(s, e, h, rank) == Insert(s, e, h) && Insert(s, e, h).Exact()
    ensures s.Exact() && Leftovers(s) ==> Leftovers(Insert(s, e, h))
  {
    hide Place, Forward, Insert, InsertBy, Leftovers, Skip.Exact, Skip.Sorted, Skip.LevelRight, Rank;
    var k, top := Place(s.elems, e, 0), |rank|;
    LevelBound(s);
    InsertShaped(s, e, h);
    if s.Exact() {
      forall l | 0 <= l < top ensures rank[l] == Forward(s.hs, k, l) { RankExact(s, k, l, top); }
      InsertByPlaces(s, e, h, rank);
      InsertExact(s, e, h);
      if Leftovers(s) { InsertLeftovers(s, e, h); }
    }
  }

  lemma LastForward(s: Skip, e: Elem, k: nat, pos: nat, l: nat)
    requires s.Valid() && k == Place(s.elems, e, 0) && pos <= k && l < s.hs[pos]
    requires NextAt(s.hs, pos, l) == |s.hs| || !Before(s.elems[NextAt(s.hs, pos, l)], e)
    ensures l < s.hs[0] && pos == Forward(s.hs, k, l) && l < MAX_LEVEL && Ascent(s, k, l, pos) == 0
  {
    hide Place, FirstFrom;
    if NextAt(s.hs, pos, l) < |s.hs| { PlaceSplits(s, e, NextAt(s.hs, pos, l)); }
    CrossingIsForward(s.hs, k, pos, l);
  }
}
