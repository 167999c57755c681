/** The row of nodes after a deletion. */
module SkipUnlink {
  import opened Towers
  import opened SkipModel
  import opened SkipDelete
  import opened SkipNodes
  import opened Counters

  /** The counter of two links made one. */
  function Joined(a: nat, b: nat): nat {
    var sum: int := a + b;
    Wrap(sum - 1)
  }

  /** One level of one node once the levels below `n` have been relinked. */
  function CutAt(r: seq<Row>, s: Skip, e: Elem, n: nat, p: nat, l: nat): Level
    requires p < |r| == |s.hs| == |s.elems| && l < MAX_LEVEL
  {
    var q := Hit(s, e, l);
    if l < n && p == Pred(s, e, l) && q < |r| then
      Level(Joined(r[p][l].span, r[q][l].span), r[q][l].next)
    else r[p][l]
  }

  function CutRows(r: seq<Row>, s: Skip, e: Elem, n: nat): (o: seq<Row>)
    requires |r| == |s.hs| == |s.elems|
    ensures |o| == |r|
  {
    seq(|r|, p requires 0 <= p < |r| =>
      seq(MAX_LEVEL, l requires 0 <= l < MAX_LEVEL => CutAt(r, s, e, n, p, l)))
  }

  lemma NothingCut(r: seq<Row>, s: Skip, e: Elem)
    requires |r| == |s.hs| == |s.elems|
    ensures CutRows(r, s, e, 0) == r
  {
    hide Hit, Pred;
    forall p | 0 <= p < |r| ensures CutRows(r, s, e, 0)[p] == r[p] {
      assert forall l :: 0 <= l < MAX_LEVEL ==> CutRows(r, s, e, 0)[p][l] == r[p][l];
    }
  }

  lemma CutStep(r: seq<Row>, s: Skip, e: Elem, i: nat)
    requires |r| == |s.hs| == |s.elems| > 0 && i < MAX_LEVEL
    ensures var o, g, q := CutRows(r, s, e, i), Pred(s, e, i), Hit(s, e, i);
            && (forall p :: 0 <= p < |r| ==> o[p][i] == r[p][i])
            && CutRows(r, s, e, i + 1) ==
               if q < |r| then o[g := o[g][i := Level(Joined(r[g][i].span, r[q][i].span), r[q][i].next)]] else o
  {
    hide Joined, Hit, Pred;
    var o, o', g, q := CutRows(r, s, e, i), CutRows(r, s, e, i + 1), Pred(s, e, i), Hit(s, e, i);
    var t := if q < |r| then o[g := o[g][i := Level(Joined(r[g][i].span, r[q][i].span), r[q][i].next)]] else o;
    forall p | 0 <= p < |r| ensures o'[p] == t[p] {
      forall l | 0 <= l < MAX_LEVEL ensures o'[p][l] == t[p][l] {}
    }
  }

  /** Above a level without anything to unlink there is nothing to unlink either. */
  lemma {:induction false} NothingAbove(r: seq<Row>, s: Skip, e: Elem, i: nat, n: nat)
    requires |r| == |s.hs| == |s.elems| > 0 && i <= n <= MAX_LEVEL && (i < n ==> Hit(s, e, i) == |s.hs|)
    ensures CutRows(r, s, e, n) == CutRows(r, s, e, i) && EmptiedBelow(s, e, n) == EmptiedBelow(s, e, i)
    decreases n - i
  {
    hide CutRows, Pred, Stop;
    if i < n {
      NothingAbove(r, s, e, i, n - 1);
      StopsRise(s, e, i, n - 1, 1);
      CutStep(r, s, e, n - 1);
    }
  }

  lemma TellsLengths(nodes: seq<Node>, r: seq<Row>, s: Skip)
    requires Tells(nodes, r, s)
    ensures |nodes| == |r| == |s.hs| == |s.elems| == |s.spans| > 0 && s.Shaped() && s.Valid() && s.level <= MAX_LEVEL
  {
  }

  lemma Refusal(s: Skip, e: Elem)
    requires s.Shaped()
    ensures var v := Hit(s, e, 0);
            && 0 < v <= |s.hs| == |s.elems|
            && (if v == |s.hs| || (s.elems[v].score != e.score && s.elems[v].obj < e.obj) then Delete(s, e) == (s, -1)
                else Delete(s, e).1 == 0)
  {
    hide Stop;
  }

  lemma NoneEmptied(s: Skip, e: Elem)
    requires 0 < |s.hs| == |s.elems|
    ensures EmptiedBelow(s, e, 0) == 0
  {
  }

  /** What one level's predecessor and what follows it hold, and what that says about the level. */
  lemma CutFacts(nodes: seq<Node>, r: seq<Row>, s: Skip, e: Elem, i: nat)
    requires Tells(nodes, r, s) && Distinct(nodes) && i < s.level
    ensures var g, q := Pred(s, e, i), Hit(s, e, i);
            && |nodes| == |s.hs| == |s.elems| == |r| && i < MAX_LEVEL && g < q <= |s.hs|
            && r[g][i].next == NodeAt(nodes, q)
            && EmptiedBelow(s, e, i + 1) == EmptiedBelow(s, e, i) + (if Emptied(s, e, i) then 1 else 0)
            && (Emptied(s, e, i) <==> q < |s.hs| && nodes[g] == nodes[0] && r[q][i].next == null)
  {
    hide Stop, Walk, FirstFrom, Skip.Sorted, AllSpans;
    PredLinks(s, e, i);
  }

  /** The same when the levels below have been unlinked, and what unlinking this one makes. */
  lemma CutNext(nodes: seq<Node>, r: seq<Row>, s: Skip, e: Elem, i: nat)
    requires Tells(nodes, r, s) && Distinct(nodes) && i < s.level
    ensures |nodes| == |s.hs| == |s.elems| == |r| && i < MAX_LEVEL
    ensures var o, g, q := CutRows(r, s, e, i), Pred(s, e, i), Hit(s, e, i);
            && g < q <= |nodes| && o[g][i].next == NodeAt(nodes, q)
            && (q < |nodes| ==>
                  CutRows(r, s, e, i + 1) ==
                  o[g := o[g][i := Level(Joined(o[g][i].span, o[q][i].span), o[q][i].next)]])
            && (q < |nodes| ==> (Emptied(s, e, i) <==> nodes[g] == nodes[0] && o[q][i].next == null))
            && EmptiedBelow(s, e, i + 1) == EmptiedBelow(s, e, i) + (if Emptied(s, e, i) then 1 else 0)
            && (q == |nodes| ==> CutRows(r, s, e, s.level) == o && EmptiedBelow(s, e, s.level) == EmptiedBelow(s, e, i))
  {
    hide CutRows, Pred, Hit, Tells, EmptiedBelow, Emptied, Joined;
    TellsLengths(nodes, r, s);
    CutFacts(nodes, r, s, e, i);
    CutStep(r, s, e, i);
    if Hit(s, e, i) == |nodes| { NothingAbove(r, s, e, i, s.level); }
  }

  lemma NodeAtRemoved(nodes: seq<Node>, v: nat, t: nat)
    requires v < |nodes| && t != v && t <= |nodes|
    ensures NodeAt(RemoveAt(nodes, v), Shift(v, t)) == NodeAt(nodes, t)
  {
    if t < |nodes| { assert t > v ==> RemoveAt(nodes, v)[t - 1] == nodes[t]; }
  }

  lemma RemovedAt<T>(s: seq<T>, v: nat, i: nat)
    requires v < |s| && i < |s| - 1
    ensures Unshift(v, i) < |s| && RemoveAt(s, v)[i] == s[Unshift(v, i)]
  {
  }

  /** The counters of the shorter row are those of the deletion ... */
  lemma SpansDeleted(nodes: seq<Node>, r: seq<Row>, s: Skip, e: Elem)
    requires Tells(nodes, r, s) && Hit(s, e, 0) < |s.hs|
    ensures AllSpans(RemoveAt(CutRows(r, s, e, s.level), Hit(s, e, 0))) == Delete(s, e).0.spans
  {
    hide Stop, Walk, Delete, RemoveAt, CutRows, SpanAfter, Linked;
    var v, d := Hit(s, e, 0), Delete(s, e).0;
    var o := RemoveAt(CutRows(r, s, e, s.level), v);
    DeleteShaped(s, e);
    DeletedAt(s, e, 0, 0);
    forall i | 0 <= i < |o| ensures AllSpans(o)[i] == d.spans[i] {
      forall l | 0 <= l < MAX_LEVEL ensures o[i][l].span == d.spans[i][l] {
        var p := Unshift(v, i);
        DeletedAt(s, e, p, l);
        RemovedAt(CutRows(r, s, e, s.level), v, i);
        CutSpan(r, s, e, p, l);
      }
    }
  }

  lemma CutSpan(r: seq<Row>, s: Skip, e: Elem, p: nat, l: nat)
    requires s.Shaped() && |r| == |s.hs| && s.spans == AllSpans(r) && p < |r| && l < MAX_LEVEL
    ensures CutRows(r, s, e, s.level)[p][l].span == SpanAfter(s, e, p, l)
  {
    hide Stop, Walk, Wrap;
    assert s.spans[p][l] == r[p][l].span;
    if Hit(s, e, l) < |r| { assert s.spans[Hit(s, e, l)][l] == r[Hit(s, e, l)][l].span; }
  }

  /** ... and its links lead to the next node tall enough. */
  lemma LinkDeleted(nodes: seq<Node>, r: seq<Row>, s: Skip, e: Elem, p: nat, l: nat)
    requires Tells(nodes, r, s) && Hit(s, e, 0) < |s.hs| && p < |s.hs| && p != Hit(s, e, 0)
    requires l < HeightAfter(s, e, p) && l < MAX_LEVEL
    ensures var v, d := Hit(s, e, 0), Delete(s, e).0;
            |d.hs| == |s.hs| - 1 &&
            CutRows(r, s, e, s.level)[p][l].next == NodeAt(RemoveAt(nodes, v), NextAt(d.hs, Shift(v, p), l))
  {
    hide Stop, Walk, Delete, RemoveAt, FirstFrom, NodeAt, HeightAfter, Wrap, Skip.Sorted, AllSpans, CutRows;
    var v, q := Hit(s, e, 0), Hit(s, e, l);
    if p > 0 { StaysLinked(s, e, p, l); } else { HeaderHeight(s, e); }
    PredLinks(s, e, l);
    if p == Pred(s, e, l) && q < |s.hs| {
      NextAfterDeletePred(s, e, p, l);
      NodeAtRemoved(nodes, v, NextAt(s.hs, q, l));
      CutLink(nodes, r, s, e, p, l);
    } else {
      if NextAt(s.hs, p, l) == q && q < |s.hs| { SameSuccessor(s.hs, p, Pred(s, e, l), l); }
      NextAfterDeleteOther(s, e, p, l);
      NodeAtRemoved(nodes, v, NextAt(s.hs, p, l));
      CutLink(nodes, r, s, e, p, l);
    }
  }

  lemma CutLink(nodes: seq<Node>, r: seq<Row>, s: Skip, e: Elem, p: nat, l: nat)
    requires Tells(nodes, r, s) && p < |s.hs| && l < s.hs[p] && l < MAX_LEVEL
    ensures var q := Hit(s, e, l);
            CutRows(r, s, e, s.level)[p][l].next ==
            NodeAt(nodes, if p == Pred(s, e, l) && q < |s.hs| then NextAt(s.hs, q, l) else NextAt(s.hs, p, l))
  {
    hide Stop, Walk, FirstFrom, NodeAt, Wrap, Skip.Sorted, AllSpans;
  }

  lemma LinkedDeleted(nodes: seq<Node>, r: seq<Row>, s: Skip, e: Elem)
    requires Tells(nodes, r, s) && Hit(s, e, 0) < |s.hs|
    ensures var v, d := Hit(s, e, 0), Delete(s, e).0;
            |d.hs| == |nodes| - 1 && Linked(RemoveAt(nodes, v), d.hs, RemoveAt(CutRows(r, s, e, s.level), v))
  {
    hide Stop, Walk, Delete, RemoveAt, NextAt, NodeAt, HeightAfter, Skip.Valid, AllSpans, CutRows;
    TellsLengths(nodes, r, s);
    var v, d := Hit(s, e, 0), Delete(s, e).0;
    var n, o := RemoveAt(nodes, v), RemoveAt(CutRows(r, s, e, s.level), v);
    ShapedOf(s);
    DeletedAt(s, e, 0, 0);
    forall i, l | 0 <= i < |n| && 0 <= l < d.hs[i] && l < MAX_LEVEL
      ensures o[i][l].next == NodeAt(n, NextAt(d.hs, i, l))
    {
      var p := Unshift(v, i);
      DeletedAt(s, e, p, 0);
      RemovedAt(CutRows(r, s, e, s.level), v, i);
      LinkDeleted(nodes, r, s, e, p, l);
    }
  }

  lemma BackwardRemoved(nodes: seq<Node>, backs: seq<Node?>, v: nat)
    requires 0 < v < |nodes| == |backs| && Backward(nodes, backs)
    ensures Backward(RemoveAt(nodes, v), RemoveAt(BacksAfter(backs, v, nodes[v - 1]), v))
  {
    hide RemoveAt;
    var n, b := RemoveAt(nodes, v), RemoveAt(BacksAfter(backs, v, nodes[v - 1]), v);
    forall i | 0 < i < |n| ensures if i == 1 then b[1] == null || b[1] == n[0] else b[i] == n[i - 1] {
      RemovedAt(nodes, v, i);
      RemovedAt(nodes, v, i - 1);
      RemovedAt(BacksAfter(backs, v, nodes[v - 1]), v, i);
    }
  }

  lemma MirrorRemoved(nodes: seq<Node>, elems: seq<Elem>, rows: seq<Row>, backs: seq<Node?>, v: nat)
    requires Mirror(nodes, elems, rows, backs) && v < |nodes|
    ensures Mirror(RemoveAt(nodes, v), RemoveAt(elems, v), RemoveAt(rows, v), RemoveAt(backs, v))
  {
    hide RemoveAt;
    var n := RemoveAt(nodes, v);
    forall i | 0 <= i < |n|
      ensures n[i].Value() == RemoveAt(elems, v)[i]
      ensures n[i].levels == RemoveAt(rows, v)[i] && n[i].previous == RemoveAt(backs, v)[i]
      ensures forall j :: 0 <= j < i ==> n[j] != n[i]
    {
      RemovedAt(nodes, v, i);
      RemovedAt(elems, v, i);
      RemovedAt(rows, v, i);
      RemovedAt(backs, v, i);
      forall j | 0 <= j < i ensures n[j] != n[i] { RemovedAt(nodes, v, j); }
    }
  }
}
