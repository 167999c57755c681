/** The reverse-binary scan cursor of the dictionary.
    A scan visits the bucket `cursor & mask`, then sets every bit outside the mask, reverses the
    word, adds one and reverses back, so that the carry runs from the high end of the mask to the low
    end. `Order` reads a word in that direction. */
module Cursor {
  import opened Words

  /** The cursor update of one scan step. */
  function Next(c: seq<bool>, m: seq<bool>): (r: seq<bool>)
    requires |c| == |m|
    ensures |r| == |c|
  {
    Reverse(Inc(Reverse(Or(c, Not(m)))))
  }

  /** The value of a word whose first bit counts most: the direction in which cursors grow. */
  function Order(w: seq<bool>): nat {
    if w == [] then 0 else (if w[0] then Pow2(|w| - 1) else 0) + Order(w[1..])
  }

  /** Increment with the carry running towards the front of the list. */
  function CarryInc(w: seq<bool>): (r: seq<bool>)
    ensures |r| == |w|
  {
    if w == [] then []
    else if forall i :: 1 <= i < |w| ==> w[i] then [!w[0]] + Const(false, |w| - 1)
    else [w[0]] + CarryInc(w[1..])
  }

  lemma AllTrueSplit(w: seq<bool>)
    requires w != []
    ensures AllTrue(w) <==> w[0] && AllTrue(w[1..])
    ensures AllTrue(w[1..]) <==> forall i :: 1 <= i < |w| ==> w[i]
  {
    if AllTrue(w[1..]) {
      assert forall i :: 1 <= i < |w| ==> w[i] == w[1..][i - 1];
    }
  }

  lemma {:induction false} IncAppend(u: seq<bool>, b: bool)
    ensures Inc(u + [b]) == if AllTrue(u) then Const(false, |u|) + [!b] else Inc(u) + [b]
  {
    if u == [] {
      assert u + [b] == [b];
      assert Inc([b]) == [!b];
    } else {
      assert (u + [b])[1..] == u[1..] + [b];
      AllTrueSplit(u);
      if u[0] {
        IncAppend(u[1..], b);
        assert Const(false, |u|) == [false] + Const(false, |u| - 1);
      }
    }
  }

  lemma ReverseAllTrue(w: seq<bool>)
    ensures AllTrue(Reverse(w)) <==> AllTrue(w)
  {
    if AllTrue(Reverse(w)) {
      forall i | 0 <= i < |w| ensures w[i] { assert w[i] == Reverse(w)[|w| - 1 - i]; }
    }
  }

  lemma ReverseConst(b: bool, n: nat)
    ensures Reverse(Const(b, n)) == Const(b, n)
  {
  }

  lemma ReverseSnoc(u: seq<bool>, b: bool)
    ensures Reverse(u + [b]) == [b] + Reverse(u)
  {
  }

  lemma {:induction false} ReversedInc(w: seq<bool>)
    ensures Reverse(Inc(Reverse(w))) == CarryInc(w)
  {
    if w != [] {
      hide AllTrue, Const;
      var t := Reverse(w[1..]);
      assert Reverse(w) == t + [w[0]];
      ReversedInc(w[1..]);
      IncAppend(t, w[0]);
      ReverseAllTrue(w[1..]);
      AllTrueSplit(w);
      ReverseConst(false, |t|);
      ReverseSnoc(Const(false, |t|), !w[0]);
      ReverseSnoc(Inc(t), w[0]);
    }
  }

  // --- one table: the cursor enumerates the buckets -------------------------------------------

  function PopCount(m: seq<bool>): nat {
    if m == [] then 0 else Bit(m[0]) + PopCount(m[1..])
  }

  /** The bits of `w` that lie under the mask, packed together and read in cursor order. */
  function Rank(w: seq<bool>, m: seq<bool>): nat
    requires |w| == |m|
  {
    if m == [] then 0
    else if m[0] then (if w[0] then Pow2(PopCount(m[1..])) else 0) + Rank(w[1..], m[1..])
    else Rank(w[1..], m[1..])
  }

  lemma {:induction false} RankBound(w: seq<bool>, m: seq<bool>)
    requires |w| == |m|
    ensures Rank(w, m) < Pow2(PopCount(m))
  {
    if m != [] { RankBound(w[1..], m[1..]); }
  }

  /** Setting the bits outside the mask leaves the rank alone; the rank is maximal exactly when
      nothing but ones results. */
  lemma {:induction false} RankFilled(c: seq<bool>, m: seq<bool>)
    requires |c| == |m|
    ensures Rank(Or(c, Not(m)), m) == Rank(c, m)
    ensures AllTrue(Or(c, Not(m))) <==> Rank(c, m) == Pow2(PopCount(m)) - 1
  {
    if m != [] {
      var f := Or(c, Not(m));
      RankFilled(c[1..], m[1..]);
      RankBound(c[1..], m[1..]);
      assert f[1..] == Or(c[1..], Not(m[1..]));
      AllTrueSplit(f);
    }
  }

  lemma {:induction false} RankZero(w: seq<bool>, m: seq<bool>)
    requires |w| == |m| && forall i :: 0 <= i < |w| ==> !w[i]
    ensures Rank(w, m) == 0
  {
    if m != [] { RankZero(w[1..], m[1..]); }
  }

  lemma {:induction false} RankOfInc(f: seq<bool>, m: seq<bool>)
    requires |f| == |m| && forall i :: 0 <= i < |m| && !m[i] ==> f[i]
    ensures AllTrue(f) ==> CarryInc(f) == Const(false, |f|)
    ensures !AllTrue(f) ==> Rank(CarryInc(f), m) == Rank(f, m) + 1
  {
    if m != [] {
      RankOfInc(f[1..], m[1..]);
      AllTrueSplit(f);
      RankFilled(f[1..], m[1..]);
      assert Or(f[1..], Not(m[1..])) == f[1..];
      var z := CarryInc(f)[1..];
      if AllTrue(f[1..]) {
        assert z == Const(false, |f| - 1);
        RankZero(z, m[1..]);
      } else {
        assert z == CarryInc(f[1..]);
      }
    }
  }

  /** One step moves the rank up by one, and from the last rank back to the zero cursor. */
  lemma NextRank(c: seq<bool>, m: seq<bool>)
    requires |c| == |m|
    ensures Rank(c, m) < Pow2(PopCount(m))
    ensures Rank(c, m) + 1 < Pow2(PopCount(m)) ==> Rank(Next(c, m), m) == Rank(c, m) + 1
    ensures Rank(c, m) + 1 == Pow2(PopCount(m)) ==> Next(c, m) == Const(false, |c|)
  {
    var f := Or(c, Not(m));
    RankBound(c, m);
    ReversedInc(f);
    RankFilled(c, m);
    RankOfInc(f, m);
  }

  lemma AndHeadTail(a: seq<bool>, b: seq<bool>, m: seq<bool>)
    requires |a| == |b| == |m| > 0
    ensures And(a, m) == And(b, m) <==>
            (a[0] && m[0]) == (b[0] && m[0]) && And(a[1..], m[1..]) == And(b[1..], m[1..])
  {
    var x, y := And(a, m), And(b, m);
    assert x == [x[0]] + x[1..] && y == [y[0]] + y[1..];
    assert x[1..] == And(a[1..], m[1..]) && y[1..] == And(b[1..], m[1..]);
  }

  /** Two words select the same bucket exactly when their ranks agree. */
  lemma {:induction false} SameBucket(a: seq<bool>, b: seq<bool>, m: seq<bool>)
    requires |a| == |b| == |m|
    ensures And(a, m) == And(b, m) <==> Rank(a, m) == Rank(b, m)
  {
    if m != [] {
      SameBucket(a[1..], b[1..], m[1..]);
      RankBound(a[1..], m[1..]);
      RankBound(b[1..], m[1..]);
      AndHeadTail(a, b, m);
    }
  }

  /** The cursor after `k` steps from zero over a table that does not change. */
  function CursorAt(m: seq<bool>, k: nat): (c: seq<bool>)
    ensures |c| == |m|
  {
    if k == 0 then Const(false, |m|) else Next(CursorAt(m, k - 1), m)
  }

  lemma {:induction false} CursorRank(m: seq<bool>, k: nat)
    requires k <= Pow2(PopCount(m))
    ensures k < Pow2(PopCount(m)) ==> Rank(CursorAt(m, k), m) == k
    ensures k == Pow2(PopCount(m)) ==> CursorAt(m, k) == Const(false, |m|)
  {
    hide Next, Or, Not;
    if k == 0 {
      RankZero(CursorAt(m, 0), m);
    } else {
      CursorRank(m, k - 1);
      NextRank(CursorAt(m, k - 1), m);
    }
  }

  /** A whole scan of an unchanging table, for any mask at all: the cursor first returns to zero after
      2^popcount(mask) steps. */
  lemma CycleLength(m: seq<bool>)
    ensures CursorAt(m, Pow2(PopCount(m))) == Const(false, |m|)
    ensures forall k: nat :: 0 < k < Pow2(PopCount(m)) ==> CursorAt(m, k) != Const(false, |m|)
  {
    var n := Pow2(PopCount(m));
    CursorRank(m, n);
    forall k: nat | 0 < k < n ensures CursorAt(m, k) != Const(false, |m|) {
      CursorRank(m, k);
      RankZero(Const(false, |m|), m);
    }
  }

  /** Within one cycle no bucket comes up twice ... */
  lemma CycleVisitsOnce(m: seq<bool>, j: nat, k: nat)
    requires j < k < Pow2(PopCount(m))
    ensures And(CursorAt(m, j), m) != And(CursorAt(m, k), m)
  {
    CursorRank(m, j);
    CursorRank(m, k);
    SameBucket(CursorAt(m, j), CursorAt(m, k), m);
  }

  /** ... and the bucket of every hash value comes up, at the step that is the hash's rank. */
  lemma CycleVisitsAll(m: seq<bool>, h: seq<bool>)
    requires |h| == |m|
    ensures Rank(h, m) < Pow2(PopCount(m))
    ensures And(CursorAt(m, Rank(h, m)), m) == And(h, m)
  {
    RankBound(h, m);
    CursorRank(m, Rank(h, m));
    SameBucket(CursorAt(m, Rank(h, m)), h, m);
  }

  // --- tables that grow and shrink: the covered region only grows -------------------------------

  /** `m` is 2^a - 1 for some a: a block of ones below zeros. */
  predicate Contiguous(m: seq<bool>) {
    forall i, j :: 0 <= i < j < |m| && m[j] ==> m[i]
  }

  lemma {:induction false} OrderBound(w: seq<bool>)
    ensures Order(w) < Pow2(|w|)
  {
    if w != [] { OrderBound(w[1..]); }
  }

  /** Cursor order is the ordinary value of the reversed word. */
  lemma {:induction false} OrderIsReversedVal(w: seq<bool>)
    ensures Order(w) == Val(Reverse(w))
  {
    if w != [] {
      OrderIsReversedVal(w[1..]);
      ValAppend(Reverse(w[1..]), w[0]);
    }
  }

  lemma {:induction false} ValAppend(u: seq<bool>, b: bool)
    ensures Val(u + [b]) == Val(u) + (if b then Pow2(|u|) else 0)
  {
    if u == [] {
      assert u + [b] == [b];
    } else {
      ValAppend(u[1..], b);
      assert (u + [b])[1..] == u[1..] + [b];
    }
  }

  lemma {:induction false} OrderFalse(w: seq<bool>)
    requires forall i :: 0 <= i < |w| ==> !w[i]
    ensures Order(w) == 0
  {
    if w != [] { OrderFalse(w[1..]); }
  }

  /** Everything below the incremented cursor, or everything when the increment wraps. */
  ghost predicate Below(h: seq<bool>, f: seq<bool>)
    requires |h| == |f|
  {
    AllTrue(f) || Order(h) < Order(CarryInc(f))
  }

  lemma BelowTail(h: seq<bool>, f: seq<bool>)
    requires |h| == |f| > 0
    ensures Below(h, f) && h[0] == f[0] ==> Below(h[1..], f[1..])
    ensures Below(h, f) && h[0] ==> f[0]
  {
    var ft, n := f[1..], CarryInc(f);
    AllTrueSplit(f);
    if AllTrue(ft) {
      OrderFalse(n[1..]);
    } else {
      assert n[1..] == CarryInc(ft);
      OrderBound(h[1..]);
      OrderBound(n[1..]);
    }
  }

  lemma ContiguousTail(c: seq<bool>, m: seq<bool>, h: seq<bool>)
    requires |c| == |m| == |h| > 0 && Contiguous(m)
    ensures Contiguous(m[1..]) && (!m[0] ==> And(h, m) == And(c, m))
  {
    forall i, j | 0 <= i < j < |m| - 1 && m[1..][j] ensures m[1..][i] { assert m[j + 1] && m[i + 1]; }
  }

  lemma OrderHead(c: seq<bool>, h: seq<bool>)
    requires |c| == |h| > 0
    ensures c[0] == h[0] ==> (Order(h) < Order(c) <==> Order(h[1..]) < Order(c[1..]))
    ensures c[0] && !h[0] ==> Order(h) < Order(c)
  {
    OrderBound(h[1..]);
  }

  lemma {:induction false} CarryIncCovers(c: seq<bool>, m: seq<bool>, h: seq<bool>)
    requires |c| == |m| == |h| && Contiguous(m)
    requires Below(h, Or(c, Not(m)))
    ensures Order(h) < Order(c) || And(h, m) == And(c, m)
  {
    if m != [] {
      hide Contiguous, And, Below, Order, CarryInc;
      ContiguousTail(c, m, h);
      if m[0] {
        var f := Or(c, Not(m));
        assert f[1..] == Or(c[1..], Not(m[1..])) && f[0] == c[0];
        BelowTail(h, f);
        AndHeadTail(h, c, m);
        OrderHead(c, h);
        if h[0] == c[0] { CarryIncCovers(c[1..], m[1..], h[1..]); }
      }
    }
  }

  lemma WrapsOnlyAtEnd(f: seq<bool>)
    requires CarryInc(f) == Const(false, |f|)
    ensures AllTrue(f)
  {
    if !AllTrue(f) {
      var all := Const(true, |f|);
      RankOfInc(f, all);
      RankZero(Const(false, |f|), all);
    }
  }

  /** What one scan step adds under a power-of-two mask: every hash below the new cursor was below the
      old one or lies in the bucket just visited; when the cursor comes back to zero, that is
      every hash there is. Nothing about the table's past sizes is needed. */
  lemma NextCovers(c: seq<bool>, m: seq<bool>, h: seq<bool>)
    requires |c| == |m| == |h| && Contiguous(m)
    requires Next(c, m) == Const(false, |c|) || Order(h) < Order(Next(c, m))
    ensures Order(h) < Order(c) || And(h, m) == And(c, m)
  {
    var f := Or(c, Not(m));
    ReversedInc(f);
    if Next(c, m) == Const(false, |c|) { WrapsOnlyAtEnd(f); }
    CarryIncCovers(c, m, h);
  }
}
