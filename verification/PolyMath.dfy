/** Numbers in ten limbs of 13 bits, and products of them modulo 2^130 - 5. */
module PolyMath {

  const LIMB := 0x2000

  // 2^130 - 5
  const P := 0x3_FFFFFFFF_FFFFFFFF_FFFFFFFF_FFFFFFFB

  function Eval(s: seq<int>): int {
    if s == [] then 0 else s[0] + LIMB * Eval(s[1..])
  }

  ghost predicate Cong(a: int, b: int) { (a - b) % P == 0 }

  lemma CongSame(a: int, b: int)
    ensures Cong(a, b) <==> a % P == b % P
  {
  }

  lemma CongTrans(a: int, b: int, c: int)
    requires Cong(a, b) && Cong(b, c)
    ensures Cong(a, c)
  {
  }

  lemma CongAdd(a: int, b: int, c: int, d: int)
    requires Cong(a, b) && Cong(c, d)
    ensures Cong(a + c, b + d)
  {
  }

  lemma Multiple(a: int)
    requires a % P == 0
    ensures a == P * (a / P)
  {
  }

  lemma MultipleOf(q: int)
    ensures (P * q) % P == 0
  {
  }

  lemma CongMul(k: int, a: int, b: int)
    requires Cong(a, b)
    ensures Cong(k * a, k * b)
  {
    var q := (a - b) / P;
    Multiple(a - b);
    assert k * a - k * b == P * (k * q) by {
      assert k * a - k * b == k * (a - b);
      assert k * (P * q) == P * (k * q);
    }
    MultipleOf(k * q);
  }

  // ---------- Vectors ----------

  function Scaled(k: int, v: seq<int>): (w: seq<int>)
    ensures |w| == |v|
  {
    seq(|v|, i requires 0 <= i < |v| => k * v[i])
  }

  function Plus(v: seq<int>, w: seq<int>): (s: seq<int>)
    requires |v| == |w|
    ensures |s| == |v|
  {
    seq(|v|, i requires 0 <= i < |v| => v[i] + w[i])
  }

  lemma {:induction false} EvalPlus(v: seq<int>, w: seq<int>)
    requires |v| == |w|
    ensures Eval(Plus(v, w)) == Eval(v) + Eval(w)
  {
    if v != [] {
      assert Plus(v, w)[1..] == Plus(v[1..], w[1..]);
      EvalPlus(v[1..], w[1..]);
    }
  }

  lemma {:induction false} EvalScaled(k: int, v: seq<int>)
    ensures Eval(Scaled(k, v)) == k * Eval(v)
  {
    if v != [] {
      assert Scaled(k, v)[1..] == Scaled(k, v[1..]);
      EvalScaled(k, v[1..]);
      Distribute(k, v[0], Eval(v[1..]));
    }
  }

  lemma Distribute(k: int, a: int, e: int)
    ensures k * (a + LIMB * e) == k * a + LIMB * (k * e)
  {
  }

  lemma {:induction false} EvalAppend(v: seq<int>, w: seq<int>)
    ensures Eval(v + w) == Eval(v) + Power(|v|) * Eval(w)
  {
    if v == [] {
      assert v + w == w;
    } else {
      assert (v + w)[1..] == v[1..] + w;
      EvalAppend(v[1..], w);
      var p, e := Power(|v| - 1), Eval(w);
      assert LIMB * (p * e) == LIMB * p * e;
    }
  }

  /** 2^(13 n) */
  function Power(n: nat): nat {
    if n == 0 then 1 else LIMB * Power(n - 1)
  }

  lemma TenLimbs()
    ensures Power(10) == P + 5
  {
    assert Power(1) == LIMB;
    assert Power(2) == LIMB * LIMB;
    assert Power(3) == 0x80_0000_0000;
    assert Power(4) == 0x10_0000_0000_0000;
    assert Power(5) == 0x2_0000_0000_0000_0000;
    assert Power(6) == LIMB * Power(5);
    assert Power(7) == LIMB * Power(6);
    assert Power(8) == LIMB * Power(7);
    assert Power(9) == LIMB * Power(8);
    assert Power(10) == LIMB * Power(9);
  }

  // ---------- Products ----------

  /** The limbs moved up by one place; what leaves at the top comes in at the bottom, five times. */
  function Turned(r: seq<int>): (t: seq<int>)
    requires |r| == 10
    ensures |t| == 10
  {
    [5 * r[9]] + r[..9]
  }

  function TurnedBy(r: seq<int>, i: nat): (t: seq<int>)
    requires |r| == 10
    ensures |t| == 10
  {
    if i == 0 then r else Turned(TurnedBy(r, i - 1))
  }

  lemma TurnedValue(r: seq<int>)
    requires |r| == 10
    ensures Cong(Eval(Turned(r)), LIMB * Eval(r))
  {
    hide Cong, Power;
    assert r == r[..9] + [r[9]];
    EvalAppend(r[..9], [r[9]]);
    EvalOne(r[9]);
    assert Turned(r)[1..] == r[..9];
    assert LIMB * Power(9) == P + 5 by { TenLimbs(); PowerStep(9); }
    TopLimb(Eval(r[..9]), Power(9), r[9]);
  }

  lemma PowerStep(n: nat)
    ensures Power(n + 1) == LIMB * Power(n)
  {
  }

  lemma TopLimb(e: int, p: int, x: int)
    requires LIMB * p == P + 5
    ensures Cong(5 * x + LIMB * e, LIMB * (e + p * x))
  {
    assert LIMB * (p * x) == (LIMB * p) * x;
    assert 5 * x + LIMB * e - LIMB * (e + p * x) == P * -x;
    MultipleOf(-x);
  }

  lemma {:induction false} TurnedByValue(r: seq<int>, i: nat)
    requires |r| == 10
    ensures Cong(Eval(TurnedBy(r, i)), Power(i) * Eval(r))
  {
    if i > 0 {
      var t := TurnedBy(r, i - 1);
      TurnedByValue(r, i - 1);
      TurnedValue(t);
      CongMul(LIMB, Eval(t), Power(i - 1) * Eval(r));
      assert LIMB * (Power(i - 1) * Eval(r)) == Power(i) * Eval(r);
      CongTrans(Eval(TurnedBy(r, i)), LIMB * Eval(t), Power(i) * Eval(r));
    }
  }

  /** Which entry of r, or five times which, limb i of one factor is multiplied with for limb k of the product. */
  function Factor(r: seq<int>, k: nat, i: nat): int
    requires |r| == 10 && k < 10 && i < 10
  {
    if i <= k then r[k - i] else 5 * r[10 + k - i]
  }

  lemma {:induction false} TurnedEntry(r: seq<int>, k: nat, i: nat)
    requires |r| == 10 && k < 10 && i < 10
    ensures TurnedBy(r, i)[k] == Factor(r, k, i)
    decreases i
  {
    if i > 0 {
      TurnedEntry(r, if k == 0 then 9 else k - 1, i - 1);
    }
  }

  /** The sums of the products with the first i limbs of h. */
  function Product(h: seq<int>, r: seq<int>, i: nat): (d: seq<int>)
    requires |h| == 10 && |r| == 10 && i <= 10
    ensures |d| == 10
  {
    if i == 0 then [0, 0, 0, 0, 0, 0, 0, 0, 0, 0] else Plus(Product(h, r, i - 1), Scaled(h[i - 1], TurnedBy(r, i - 1)))
  }

  lemma ProductEntry(h: seq<int>, r: seq<int>, i: nat, k: nat)
    requires |h| == 10 && |r| == 10 && i < 10 && k < 10
    ensures Product(h, r, i + 1)[k] == Product(h, r, i)[k] + h[i] * Factor(r, k, i)
  {
    hide TurnedBy, Factor;
    TurnedEntry(r, k, i);
  }

  lemma {:induction false} ProductValue(h: seq<int>, r: seq<int>, i: nat)
    requires |h| == 10 && |r| == 10 && i <= 10
    ensures Cong(Eval(Product(h, r, i)), Eval(h[..i]) * Eval(r))
  {
    if i == 0 {
      assert Eval([0, 0, 0, 0, 0, 0, 0, 0, 0, 0]) == 0 by { Zeros(); }
    } else {
      hide *;
      var d, t, a := Product(h, r, i - 1), TurnedBy(r, i - 1), h[i - 1];
      ProductValue(h, r, i - 1);
      TurnedByValue(r, i - 1);
      ProductStep(h, r, i);
      EvalPlus(d, Scaled(a, t));
      EvalScaled(a, t);
      assert h[..i] == h[..i - 1] + [a];
      EvalAppend(h[..i - 1], [a]);
      EvalOne(a);
      Combine(Eval(d), Eval(t), Eval(h[..i - 1]), Power(i - 1), a, Eval(r));
    }
  }

  lemma Combine(d: int, t: int, e: int, p: int, a: int, r: int)
    requires Cong(d, e * r) && Cong(t, p * r)
    ensures Cong(d + a * t, (e + p * a) * r)
  {
    hide Cong;
    CongMul(a, t, p * r);
    CongAdd(d, e * r, a * t, a * (p * r));
    Collect(e, p, a, r);
  }

  lemma ProductStep(h: seq<int>, r: seq<int>, i: nat)
    requires |h| == 10 && |r| == 10 && 0 < i <= 10
    ensures Product(h, r, i) == Plus(Product(h, r, i - 1), Scaled(h[i - 1], TurnedBy(r, i - 1)))
  {
  }

  lemma EvalOne(a: int)
    ensures Eval([a]) == a
  {
    assert [a][1..] == [];
  }

  lemma Zeros()
    ensures Eval([0, 0, 0, 0, 0, 0, 0, 0, 0, 0]) == 0
  {
    var z: seq<int> := [0, 0, 0, 0, 0];
    assert Eval(z) == 0 by {
      assert z[1..] == [0, 0, 0, 0] && z[1..][1..] == [0, 0, 0] && z[1..][1..][1..] == [0, 0] && [0, 0][1..] == [0];
      EvalOne(0);
    }
    EvalAppend(z, z);
    assert z + z == [0, 0, 0, 0, 0, 0, 0, 0, 0, 0];
  }

  lemma Collect(e: int, p: int, a: int, r: int)
    ensures e * r + a * (p * r) == (e + p * a) * r
  {
  }

  /** The sums of products stand for the product, modulo 2^130 - 5. */
  lemma ProductIsProduct(h: seq<int>, r: seq<int>)
    requires |h| == 10 && |r| == 10
    ensures Cong(Eval(Product(h, r, 10)), Eval(h) * Eval(r))
  {
    assert h[..10] == h;
    ProductValue(h, r, 10);
  }
}
