/** Bitwise operations on non-negative numbers, as arithmetic. */
module Words {

  type Byte = b: int | 0 <= b < 0x100

  /** a | b */
  function Or(a: nat, b: nat): nat {
    if a == 0 && b == 0 then 0 else (if a % 2 == 1 || b % 2 == 1 then 1 else 0) + 2 * Or(a / 2, b / 2)
  }

  /** a & b */
  function And(a: nat, b: nat): nat {
    if a == 0 || b == 0 then 0 else (if a % 2 == 1 && b % 2 == 1 then 1 else 0) + 2 * And(a / 2, b / 2)
  }

  /** a ^ b */
  function Xor(a: nat, b: nat): nat {
    if a == 0 && b == 0 then 0 else (if a % 2 != b % 2 then 1 else 0) + 2 * Xor(a / 2, b / 2)
  }

  lemma {:induction false} XorTwice(a: nat, b: nat)
    ensures Xor(Xor(a, b), b) == a
  {
    if a != 0 || b != 0 {
      XorTwice(a / 2, b / 2);
    }
  }

  lemma {:induction false} XorSymmetric(a: nat, b: nat)
    ensures Xor(a, b) == Xor(b, a)
  {
    if a != 0 || b != 0 {
      XorSymmetric(a / 2, b / 2);
    }
  }

  lemma {:induction false} XorRange(a: nat, b: nat, k: nat)
    requires a < Shl(1, k) && b < Shl(1, k)
    ensures Xor(a, b) < Shl(1, k)
    decreases k
  {
    if k > 0 {
      XorRange(a / 2, b / 2, k - 1);
    }
  }

  lemma ByteRange(a: Byte, b: Byte)
    ensures Xor(a, b) < 0x100
  {
    assert Shl(1, 8) == 0x100;
    XorRange(a, b, 8);
  }

  /** a ^ b on bytes */
  function XorBytes(a: Byte, b: Byte): Byte {
    ByteRange(a, b);
    Xor(a, b)
  }

  lemma XorBytesTwice(a: Byte, b: Byte)
    ensures XorBytes(XorBytes(a, b), b) == a && XorBytes(0, b) == b && (XorBytes(a, b) == 0 <==> a == b)
  {
    XorTwice(a, b);
    XorTwice(0, b);
    XorSymmetric(0, b);
    XorTwice(b, 0);
    XorZero(b);
    XorSelf(a);
    if XorBytes(a, b) == 0 {
      assert Xor(0, b) == a;
    }
  }

  lemma {:induction false} XorZero(b: nat)
    ensures Xor(0, b) == b
  {
    if b > 0 {
      XorZero(b / 2);
    }
  }

  lemma {:induction false} XorSelf(a: nat)
    ensures Xor(a, a) == 0
  {
    if a > 0 {
      XorSelf(a / 2);
    }
  }

  /** a << k, unbounded */
  function Shl(a: nat, k: nat): nat { if k == 0 then a else 2 * Shl(a, k - 1) }

  lemma {:induction false} OrZero(b: nat)
    ensures Or(0, b) == b && Or(b, 0) == b
  {
    if b > 0 {
      OrZero(b / 2);
    }
  }

  /** Bits that do not overlap are added. */
  lemma {:induction false} OrAdds(a: nat, b: nat, k: nat)
    requires a < Shl(1, k)
    ensures Or(a, Shl(b, k)) == a + Shl(b, k)
    decreases k
  {
    if k == 0 {
      OrZero(b);
    } else {
      OrAdds(a / 2, b, k - 1);
      if a == 0 && Shl(b, k) == 0 {
        OrZero(0);
      }
    }
  }

  lemma ShlStep(a: nat, k: nat)
    requires k > 0
    ensures Shl(a, k) == 2 * Shl(a, k - 1)
  {
  }

  lemma AndZero(a: nat)
    ensures And(a, 0) == 0
  {
  }

  /** One bit of a sum with an even number. */
  lemma AndHalves(x: nat, p: nat, a: nat, q: nat)
    ensures And(x + 2 * p, a + 2 * q) == (if x % 2 == 1 && a % 2 == 1 then 1 else 0) + 2 * And(x / 2 + p, a / 2 + q)
  {
    hide And;
    AndStep(x + 2 * p, a + 2 * q);
    assert (x + 2 * p) / 2 == x / 2 + p && (a + 2 * q) / 2 == a / 2 + q;
  }

  lemma AndStep(a: nat, b: nat)
    ensures And(a, b) == (if a % 2 == 1 && b % 2 == 1 then 1 else 0) + 2 * And(a / 2, b / 2)
  {
  }

  lemma {:induction false} AndSplits(x: nat, y: nat, a: nat, b: nat, k: nat)
    requires x < Shl(1, k) && a < Shl(1, k)
    ensures And(x + Shl(y, k), a + Shl(b, k)) == And(x, a) + Shl(And(y, b), k)
    decreases k
  {
    hide And;
    AndZero(0);
    if k > 0 {
      hide Shl;
      ShlStep(1, k);
      ShlStep(y, k);
      ShlStep(b, k);
      ShlStep(And(y, b), k);
      AndSplits(x / 2, y, a / 2, b, k - 1);
      AndHalves(x, Shl(y, k - 1), a, Shl(b, k - 1));
      AndStep(x, a);
    }
  }

  lemma {:induction false} Positive(k: nat)
    ensures Shl(1, k) > 0
  {
    if k > 0 {
      Positive(k - 1);
    }
  }

  /** The low k bits */
  lemma {:induction false} AndLow(x: nat, y: nat, k: nat)
    requires x < Shl(1, k)
    ensures (Positive(k); And(x + Shl(y, k), Shl(1, k) - 1) == x)
    decreases k
  {
    hide And;
    Positive(k);
    AndZero(x + Shl(y, 0));
    if k > 0 {
      hide Shl;
      ShlStep(1, k);
      ShlStep(y, k);
      Positive(k - 1);
      var m := Shl(1, k - 1);
      AndLow(x / 2, y, k - 1);
      AndHalves(x, Shl(y, k - 1), 1, m - 1);
    }
  }

  // ---------- Quotients and remainders ----------

  lemma AtLeast(n: nat, e: nat)
    requires e > 0
    ensures n * e >= n
  {
  }

  lemma Divides(t: nat, n: nat, q: nat, r: nat)
    requires r < n && t == n * q + r
    ensures t / n == q && t % n == r
  {
    var e := t / n - q;
    assert t == n * (t / n) + t % n;
    assert n * e == n * (t / n) - n * q;
    if e > 0 {
      AtLeast(n, e);
    } else if e < 0 {
      assert n * -e == -(n * e);
      AtLeast(n, -e);
    }
  }

  lemma ProductParts(a: nat, b: nat, x: nat, y: nat)
    requires y < b
    ensures a * (b * x + y) == a * b * x + a * y && a * y + a <= a * b
  {
    assert a * (b * x + y) == a * (b * x) + a * y;
    assert a * (b * x) == a * b * x;
    assert a * (y + 1) == a * y + a;
    Grows(a, y + 1, b);
  }

  lemma Grows(a: nat, x: nat, y: nat)
    requires x <= y
    ensures a * x <= a * y
  {
  }

  /** A remainder by a product, taken apart */
  lemma CutRemainder(t: nat, a: nat, b: nat)
    requires a > 0 && b > 0
    ensures a * b > 0 && t % (a * b) % a == t % a && t % (a * b) / a == t / a % b && t / (a * b) == t / a / b
  {
    var q, r := t / a, t % a;
    var x, y := q / b, q % b;
    assert q == b * x + y;
    ProductParts(a, b, x, y);
    var n, s := a * b, a * y + r;
    Divides(t, n, x, s);
    Divides(s, a, y, r);
  }
}
