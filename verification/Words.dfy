/** Machine words as lists of bits, least significant bit first.
    The dictionary masks hash values, ORs and reverses scan cursors and adds one to them; on this
    representation each of these is a short recursion, and a word read from its low end is exactly
    the order in which the scan cursor counts. */
module Words {

  function Pow2(n: nat): (p: nat)
    ensures p > 0
  {
    if n == 0 then 1 else 2 * Pow2(n - 1)
  }

  function Bit(b: bool): nat { if b then 1 else 0 }

  /** The unsigned value of a word. */
  function Val(w: seq<bool>): nat {
    if w == [] then 0 else Bit(w[0]) + 2 * Val(w[1..])
  }

  /** The low `k` bits of `n`. */
  function ToBits(n: nat, k: nat): (w: seq<bool>)
    ensures |w| == k
  {
    if k == 0 then [] else [n % 2 == 1] + ToBits(n / 2, k - 1)
  }

  function And(a: seq<bool>, b: seq<bool>): (r: seq<bool>)
    requires |a| == |b|
    ensures |r| == |a| && forall i :: 0 <= i < |a| ==> r[i] == (a[i] && b[i])
  {
    if a == [] then [] else [a[0] && b[0]] + And(a[1..], b[1..])
  }

  function Or(a: seq<bool>, b: seq<bool>): (r: seq<bool>)
    requires |a| == |b|
    ensures |r| == |a| && forall i :: 0 <= i < |a| ==> r[i] == (a[i] || b[i])
  {
    if a == [] then [] else [a[0] || b[0]] + Or(a[1..], b[1..])
  }

  function Not(a: seq<bool>): (r: seq<bool>)
    ensures |r| == |a| && forall i :: 0 <= i < |a| ==> r[i] == !a[i]
  {
    if a == [] then [] else [!a[0]] + Not(a[1..])
  }

  /** Unsigned increment, wrapping around at the top. */
  function Inc(w: seq<bool>): (r: seq<bool>)
    ensures |r| == |w|
  {
    if w == [] then [] else if w[0] then [false] + Inc(w[1..]) else [true] + w[1..]
  }

  function Reverse(w: seq<bool>): (r: seq<bool>)
    ensures |r| == |w| && forall i :: 0 <= i < |w| ==> r[i] == w[|w| - 1 - i]
  {
    if w == [] then [] else Reverse(w[1..]) + [w[0]]
  }

  function Const(b: bool, n: nat): (r: seq<bool>)
    ensures |r| == n && forall i :: 0 <= i < n ==> r[i] == b
  {
    if n == 0 then [] else [b] + Const(b, n - 1)
  }

  ghost predicate AllTrue(w: seq<bool>) { forall i :: 0 <= i < |w| ==> w[i] }

  lemma {:induction false} ValBound(w: seq<bool>)
    ensures Val(w) < Pow2(|w|)
  {
    if w != [] { ValBound(w[1..]); }
  }

  lemma {:induction false} ValInjective(a: seq<bool>, b: seq<bool>)
    requires |a| == |b| && Val(a) == Val(b)
    ensures a == b
  {
    if a != [] {
      ValInjective(a[1..], b[1..]);
      assert a == [a[0]] + a[1..] && b == [b[0]] + b[1..];
    }
  }

  lemma {:induction false} ValToBits(n: nat, k: nat)
    requires n < Pow2(k)
    ensures Val(ToBits(n, k)) == n
  {
    if k > 0 {
      ValToBits(n / 2, k - 1);
      assert ToBits(n, k)[1..] == ToBits(n / 2, k - 1);
    }
  }

  /** Masking never exceeds the mask: a masked hash is a valid bucket number. */
  lemma {:induction false} AndBound(a: seq<bool>, m: seq<bool>)
    requires |a| == |m|
    ensures Val(And(a, m)) <= Val(m)
  {
    if a != [] {
      AndBound(a[1..], m[1..]);
      assert And(a, m)[1..] == And(a[1..], m[1..]);
    }
  }

  lemma {:induction false} ReverseTwice(w: seq<bool>)
    ensures Reverse(Reverse(w)) == w
  {
  }

  lemma {:induction false} ValConst(b: bool, n: nat)
    ensures Val(Const(b, n)) == if b then Pow2(n) - 1 else 0
  {
    if n > 0 {
      ValConst(b, n - 1);
      assert Const(b, n)[1..] == Const(b, n - 1);
    }
  }

  /** A word whose value is 2^a - 1 is a block of `a` ones below zeros. */
  lemma {:induction false} OnesWord(w: seq<bool>, a: nat)
    requires a <= |w| && Val(w) == Pow2(a) - 1
    ensures w == Const(true, a) + Const(false, |w| - a)
  {
    var v := Const(true, a) + Const(false, |w| - a);
    OnesThenZeros(a, |w| - a);
    ValInjective(w, v);
  }

  lemma {:induction false} OnesThenZeros(a: nat, z: nat)
    ensures Val(Const(true, a) + Const(false, z)) == Pow2(a) - 1
  {
    var v := Const(true, a) + Const(false, z);
    if a == 0 {
      assert v == Const(false, z);
      ValConst(false, z);
    } else {
      OnesThenZeros(a - 1, z);
      assert v[1..] == Const(true, a - 1) + Const(false, z);
    }
  }

  lemma Two31()
    ensures Pow2(31) == 0x8000_0000
  {
    assert Pow2(8) == 256 && Pow2(16) == 256 * Pow2(8);
    assert Pow2(24) == 256 * Pow2(16) && Pow2(31) == 128 * Pow2(24);
  }
}
