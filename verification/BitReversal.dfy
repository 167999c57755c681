/** The cursor arithmetic as it is computed: bit reversal by swapping ever smaller groups. */
module BitReversal {
  import opened Words
  import opened Cursor

  function ShiftLeft(w: seq<bool>, s: nat): (r: seq<bool>)
    requires s <= |w|
    ensures |r| == |w| && forall i :: 0 <= i < |w| ==> r[i] == (i >= s && w[i - s])
  {
    Const(false, s) + w[..|w| - s]
  }

  function ShiftRight(w: seq<bool>, s: nat): (r: seq<bool>)
    requires s <= |w|
    ensures |r| == |w| && forall i :: 0 <= i < |w| ==> r[i] == (i + s < |w| && w[i + s])
  {
    w[s..] + Const(false, s)
  }

  function Xor(a: seq<bool>, b: seq<bool>): (r: seq<bool>)
    requires |a| == |b|
    ensures |r| == |a| && forall i :: 0 <= i < |a| ==> r[i] == (a[i] != b[i])
  {
    if a == [] then [] else [a[0] != b[0]] + Xor(a[1..], b[1..])
  }

  /** Bit `i` lies in the lower one of its pair of neighbouring groups of `s` bits. */
  predicate Lower(i: nat, s: nat)
    requires s > 0
  {
    if i < 2 * s then i < s else Lower(i - 2 * s, s)
  }

  /** A word of `n` bits is made of whole pairs of groups. */
  predicate Paired(n: nat, s: nat)
    requires s > 0
  {
    n == 0 || (n >= 2 * s && Paired(n - 2 * s, s))
  }

  lemma {:induction false} PartnerInWord(i: nat, n: nat, s: nat)
    requires s > 0 && i < n && Paired(n, s)
    ensures if Lower(i, s) then i + s < n else i >= s
    decreases i
  {
    if i >= 2 * s { PartnerInWord(i - 2 * s, n - 2 * s, s); }
  }

  function Partner(i: nat, n: nat, s: nat): (j: nat)
    requires s > 0 && i < n && Paired(n, s)
    ensures j < n
  {
    PartnerInWord(i, n, s);
    if Lower(i, s) then i + s else i - s
  }

  /** Neighbouring groups of `s` bits exchanged. */
  function SwapHalves(w: seq<bool>, s: nat): (r: seq<bool>)
    requires s > 0 && Paired(|w|, s)
    ensures |r| == |w| && forall i :: 0 <= i < |w| ==> r[i] == w[Partner(i, |w|, s)]
  {
    seq(|w|, i requires 0 <= i < |w| => w[Partner(i, |w|, s)])
  }

  // --- the shift-and-mask expressions ------------------------------------------------------------

  ghost predicate IsMask(m: seq<bool>, s: nat)
    requires s > 0
  {
    forall i :: 0 <= i < |m| ==> m[i] == Lower(i, s)
  }

  lemma MaskedShiftsSwap(w: seq<bool>, s: nat, mask: seq<bool>)
    requires 0 < s <= |w| == |mask| && Paired(|w|, s) && IsMask(mask, s)
    ensures Or(And(ShiftRight(w, s), mask), And(ShiftLeft(w, s), Not(mask))) == SwapHalves(w, s)
  {
    var r := Or(And(ShiftRight(w, s), mask), And(ShiftLeft(w, s), Not(mask)));
    forall i | 0 <= i < |w| ensures r[i] == SwapHalves(w, s)[i] {
      PartnerInWord(i, |w|, s);
    }
  }

  lemma {:induction false} LowerHalves(i: nat, s: nat)
    requires s > 0
    ensures Lower(i, s) == (Lower(i, 2 * s) != (i >= s && Lower(i - s, 2 * s)))
  {
    if i >= 4 * s {
      LowerHalves(i - 4 * s, s);
    }
  }

  /** The exclusive-or with the shifted mask halves its groups. */
  lemma MaskHalves(s: nat, mask: seq<bool>)
    requires 0 < s <= |mask| && IsMask(mask, 2 * s)
    ensures IsMask(Xor(mask, ShiftLeft(mask, s)), s)
  {
    var r := Xor(mask, ShiftLeft(mask, s));
    forall i | 0 <= i < |r| ensures r[i] == Lower(i, s) {
      LowerHalves(i, s);
    }
  }

  // --- divide and conquer ------------------------------------------------------------------------

  lemma {:induction false} PairedHalf(n: nat, s: nat)
    requires s > 0 && Paired(n, 2 * s)
    ensures Paired(n, s)
  {
    if n > 0 { PairedHalf(n - 4 * s, s); }
  }

  lemma {:induction false} LowerShift(b: nat, i: nat, s: nat)
    requires s > 0 && Paired(b, s)
    ensures Lower(b + i, s) == Lower(i, s)
  {
    if b > 0 { LowerShift(b - 2 * s, i, s); }
  }

  lemma {:induction false} PairedSum(a: nat, b: nat, s: nat)
    requires s > 0 && Paired(a, s) && Paired(b, s)
    ensures Paired(a + b, s)
  {
    if a > 0 { PairedSum(a - 2 * s, b, s); }
  }

  lemma PartnerAppend(a: nat, b: nat, i: nat, s: nat)
    requires s > 0 && Paired(a, s) && Paired(b, s) && i < a + b
    ensures Paired(a + b, s)
    ensures Partner(i, a + b, s) == if i < a then Partner(i, a, s) else a + Partner(i - a, b, s)
  {
    PairedSum(a, b, s);
    if i < a {
      PartnerInWord(i, a, s);
    } else {
      PartnerInWord(i - a, b, s);
      LowerShift(a, i - a, s);
    }
  }

  lemma SwapAppend(u: seq<bool>, v: seq<bool>, s: nat)
    requires s > 0 && Paired(|u|, s) && Paired(|v|, s)
    ensures Paired(|u + v|, s) && SwapHalves(u + v, s) == SwapHalves(u, s) + SwapHalves(v, s)
  {
    hide Paired, Lower, Partner, SwapHalves;
    PairedSum(|u|, |v|, s);
    var r, t := SwapHalves(u + v, s), SwapHalves(u, s) + SwapHalves(v, s);
    forall i | 0 <= i < |r| ensures r[i] == t[i] { SwapAppendAt(u, v, s, i); }
  }

  lemma SwapAppendAt(u: seq<bool>, v: seq<bool>, s: nat, i: nat)
    requires s > 0 && Paired(|u|, s) && Paired(|v|, s) && Paired(|u + v|, s) && i < |u + v|
    ensures SwapHalves(u + v, s)[i] == if i < |u| then SwapHalves(u, s)[i] else SwapHalves(v, s)[i - |u|]
  {
    hide Paired, Lower, Partner;
    PartnerAppend(|u|, |v|, i, s);
  }

  /** Halves exchanged, then the halves of the halves, down to single bits. */
  function Stages(w: seq<bool>, k: nat): (r: seq<bool>)
    requires Paired(|w|, Pow2(k))
    ensures |r| == |w|
    decreases k
  {
    if k == 0 then SwapHalves(w, 1)
    else (PairedHalf(|w|, Pow2(k - 1)); Stages(SwapHalves(w, Pow2(k)), k - 1))
  }

  lemma {:induction false} StagesAppend(k: nat, u: seq<bool>, v: seq<bool>)
    requires Paired(|u|, Pow2(k)) && Paired(|v|, Pow2(k))
    ensures Paired(|u + v|, Pow2(k)) && Stages(u + v, k) == Stages(u, k) + Stages(v, k)
  {
    SwapAppend(u, v, Pow2(k));
    if k > 0 {
      PairedHalf(|u|, Pow2(k - 1));
      PairedHalf(|v|, Pow2(k - 1));
      StagesAppend(k - 1, SwapHalves(u, Pow2(k)), SwapHalves(v, Pow2(k)));
    }
  }

  /** Divide and conquer reverses a word of any power-of-two width. */
  lemma {:induction false} StagesReverse(k: nat, w: seq<bool>)
    requires |w| == 2 * Pow2(k)
    ensures Paired(|w|, Pow2(k)) && Stages(w, k) == Reverse(w)
  {
    var s := Pow2(k);
    var u, v := w[..s], w[s..];
    assert Paired(0, s);
    assert SwapHalves(w, s) == v + u;
    if k > 0 {
      assert Paired(0, Pow2(k - 1));
      StagesReverse(k - 1, v);
      StagesReverse(k - 1, u);
      StagesAppend(k - 1, v, u);
    }
  }

  /** What holds when the loop below is about to exchange groups of `s` = 2^k bits. */
  ghost predicate AtTurn(x: seq<bool>, bits: seq<bool>, mask: seq<bool>, s: nat, k: nat) {
    && k <= 4 && s == Pow2(k) <= 16
    && |x| == |bits| == |mask| == 32
    && Paired(32, s) && Stages(bits, k) == Reverse(x)
    && IsMask(mask, 2 * s)
  }

  lemma FirstTurn(x: seq<bool>, mask: seq<bool>)
    requires |x| == |mask| == 32 && AllTrue(mask)
    ensures AtTurn(x, x, mask, 16, 4)
  {
    assert Pow2(4) == 16;
    StagesReverse(4, x);
  }

  lemma NextTurn(x: seq<bool>, bits: seq<bool>, mask: seq<bool>, s: nat, k: nat)
    requires AtTurn(x, bits, mask, s, k)
    ensures var mask' := Xor(mask, ShiftLeft(mask, s));
            var bits' := Or(And(ShiftRight(bits, s), mask'), And(ShiftLeft(bits, s), Not(mask')));
            if k == 0 then s / 2 == 0 && bits' == Reverse(x) else AtTurn(x, bits', mask', s / 2, k - 1)
  {
    var mask' := Xor(mask, ShiftLeft(mask, s));
    MaskHalves(s, mask);
    MaskedShiftsSwap(bits, s, mask');
    if k > 0 { PairedHalf(32, Pow2(k - 1)); }
  }

  method RevBits(x: seq<bool>) returns (bits: seq<bool>)
    requires |x| == 32
    ensures bits == Reverse(x)
  {
    hide Paired, Lower, Stages, Pow2, IsMask, Reverse, Xor, Or, And, Not, ShiftLeft, ShiftRight;
    bits := x;
    var s: nat := 32;
    var mask := Not(Const(false, 32));
    s := s / 2;
    ghost var k: int := 4;
    FirstTurn(x, mask);
    while s > 0
      invariant s == 0 || k >= 0
      invariant if s == 0 then bits == Reverse(x) else AtTurn(x, bits, mask, s, k)
      decreases s
    {
      NextTurn(x, bits, mask, s, k);
      mask := Xor(mask, ShiftLeft(mask, s));
      bits := Or(And(ShiftRight(bits, s), mask), And(ShiftLeft(bits, s), Not(mask)));
      s := s / 2;
      k := k - 1;
    }
  }

  /** The cursor update exactly as it is computed. */
  method Advance(cursor: seq<bool>, mask: seq<bool>) returns (next: seq<bool>)
    requires |cursor| == |mask| == 32
    ensures next == Next(cursor, mask)
  {
    next := Or(cursor, Not(mask));
    next := RevBits(next);
    next := Inc(next);
    next := RevBits(next);
  }
}
