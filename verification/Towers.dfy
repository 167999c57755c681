/** The geometry of a skip list: a row of towers, the first of which (the header) reaches every level.
    At each level a tower links to the next one that is tall enough. */
module Towers {

  const MAX_LEVEL: nat := 32

  /** The first tower at or after `i` that reaches above level `l`; the length of the row if none does. */
  function FirstFrom(hs: seq<nat>, i: nat, l: nat): (q: nat)
    requires i <= |hs|
    ensures i <= q <= |hs|
    ensures q < |hs| ==> hs[q] > l
    ensures forall j :: i <= j < q ==> hs[j] <= l
    decreases |hs| - i
  {
    if i == |hs| || hs[i] > l then i else FirstFrom(hs, i + 1, l)
  }

  /** The successor of tower `p` at level `l`. */
  function NextAt(hs: seq<nat>, p: nat, l: nat): (q: nat)
    requires p < |hs|
    ensures p < q <= |hs|
  {
    FirstFrom(hs, p + 1, l)
  }

  /** The last tower at or before `k` that reaches above level `l`. */
  function Forward(hs: seq<nat>, k: nat, l: nat): (p: nat)
    requires k < |hs| && hs[0] > l
    ensures p <= k && hs[p] > l
    ensures forall j :: p < j <= k ==> hs[j] <= l
  {
    if hs[k] > l then k else Forward(hs, k - 1, l)
  }

  lemma {:induction false} FirstFromIs(hs: seq<nat>, i: nat, l: nat, q: nat)
    requires i <= q <= |hs| && (q < |hs| ==> hs[q] > l) && forall j :: i <= j < q ==> hs[j] <= l
    ensures FirstFrom(hs, i, l) == q
    decreases q - i
  {
    if i < q { FirstFromIs(hs, i + 1, l, q); }
  }

  lemma {:induction false} FirstFromAtMost(hs: seq<nat>, i: nat, l: nat, j: nat)
    requires i <= j < |hs| && hs[j] > l
    ensures FirstFrom(hs, i, l) <= j
    decreases j - i
  {
    if i < j && hs[i] <= l { FirstFromAtMost(hs, i + 1, l, j); }
  }

  function InsertAt<T>(s: seq<T>, i: nat, x: T): (r: seq<T>)
    requires i <= |s|
    ensures |r| == |s| + 1 && r[i] == x
    ensures forall j :: 0 <= j < i ==> r[j] == s[j]
    ensures forall j :: i <= j < |s| ==> r[j + 1] == s[j]
  {
    s[..i] + [x] + s[i..]
  }

  function RemoveAt<T>(s: seq<T>, i: nat): (r: seq<T>)
    requires i < |s|
    ensures |r| == |s| - 1
    ensures forall j :: 0 <= j < i ==> r[j] == s[j]
    ensures forall j :: i < j < |s| ==> r[j - 1] == s[j]
  {
    s[..i] + s[i + 1..]
  }

  /** The links after a tower of height `h` has been put in right after tower `k`: towers after it ... */
  lemma NextAfterInsertRight(hs: seq<nat>, k: nat, h: nat, p: nat, l: nat)
    requires k < p < |hs|
    ensures NextAt(InsertAt(hs, k + 1, h), p + 1, l) == NextAt(hs, p, l) + 1
  {
    hide FirstFrom;
    var hs', q := InsertAt(hs, k + 1, h), NextAt(hs, p, l);
    assert forall j :: p + 2 <= j < q + 1 ==> hs'[j] == hs[j - 1];
    FirstFromIs(hs', p + 2, l, q + 1);
  }

  /** ... the tower itself ... */
  lemma NextAfterInsertNew(hs: seq<nat>, k: nat, h: nat, p: nat, l: nat)
    requires p <= k < |hs| && NextAt(hs, p, l) > k
    ensures NextAt(InsertAt(hs, k + 1, h), k + 1, l) == NextAt(hs, p, l) + 1
  {
    hide FirstFrom;
    var hs', q := InsertAt(hs, k + 1, h), NextAt(hs, p, l);
    assert forall j :: k + 2 <= j < q + 1 ==> hs'[j] == hs[j - 1];
    FirstFromIs(hs', k + 2, l, q + 1);
  }

  /** ... and the towers before it. */
  lemma NextAfterInsertLeft(hs: seq<nat>, k: nat, h: nat, p: nat, l: nat)
    requires p <= k < |hs|
    ensures var q := NextAt(hs, p, l);
            NextAt(InsertAt(hs, k + 1, h), p, l) == if q <= k then q else if l < h then k + 1 else q + 1
  {
    hide FirstFrom;
    var hs', q := InsertAt(hs, k + 1, h), NextAt(hs, p, l);
    if q <= k {
      FirstFromIs(hs', p + 1, l, q);
    } else if l < h {
      FirstFromIs(hs', p + 1, l, k + 1);
    } else {
      assert forall j :: k + 2 <= j < q + 1 ==> hs'[j] == hs[j - 1];
      FirstFromIs(hs', p + 1, l, q + 1);
    }
  }

  /** Only the last tall enough tower has its link across the gap. */
  lemma CrossingIsForward(hs: seq<nat>, k: nat, p: nat, l: nat)
    requires k < |hs| && p <= k && hs[0] > l && hs[p] > l
    ensures NextAt(hs, p, l) > k <==> p == Forward(hs, k, l)
  {
    hide FirstFrom;
    var f := Forward(hs, k, l);
    if p < f { FirstFromAtMost(hs, p + 1, l, f); }
  }
}
