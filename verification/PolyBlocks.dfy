/** One block of Poly1305: limbs added, multiplied and carried, with no loss in 32 bits. */
module PolyBlocks {
  import opened Words
  import opened PolyMath
  import opened PolyLimbs
  import opened PolyKey

  /** What the limbs are between blocks: 13 bits each, and a little more in limb 1. */
  predicate Reduced(h: seq<int>) {
    |h| == 10 && forall i :: 0 <= i < 10 ==> 0 <= h[i] < if i == 1 then 0x2400 else 0x2000
  }

  predicate Small(v: seq<int>, bound: int) { |v| == 10 && forall i :: 0 <= i < 10 ==> 0 <= v[i] < bound }

  lemma FactorBound(r: seq<int>, k: nat, i: nat)
    requires Small(r, 0x2000) && k < 10 && i < 10
    ensures 0 <= Factor(r, k, i) <= 5 * 0x1fff
  {
  }

  lemma TermBound(a: int, f: int)
    requires 0 <= a < 0x4400 && 0 <= f <= 5 * 0x1fff
    ensures 0 <= a * f <= 0x43ff * 5 * 0x1fff
  {
    assert a * f <= 0x43ff * f;
  }

  /** x >>> 13 on an accumulator, which must be below 2^32 for that. */
  function Upper(d: int): (c: int)
    requires 0 <= d < 0x1_0000_0000
    ensures 0 <= c < 0x8_0000 && d == 0x2000 * c + Lower(d)
  {
    d / 0x2000
  }

  /** x & 0x1fff */
  function Lower(d: int): (l: int)
    requires 0 <= d
    ensures 0 <= l < 0x2000
  {
    d % 0x2000
  }

  /** Half of the terms of limb k are added to d. */
  method AddTerms(h: seq<int>, r: seq<int>, k: nat, from: nat, start: int) returns (d: int)
    requires Small(h, 0x4400) && Small(r, 0x2000) && k < 10 && (from == 0 || from == 5) && 0 <= start < 0x10_0000
    ensures d == start + Product(h, r, from + 5)[k] - Product(h, r, from)[k]
    ensures 0 <= d < 0x1_0000_0000
  {
    hide Product, Factor;
    d := start;
    var i := from;
    while i < from + 5
      invariant from <= i <= from + 5
      invariant d == start + Product(h, r, i)[k] - Product(h, r, from)[k]
      invariant 0 <= d < 0x10_0000 + (i - from) * (0x43ff * 5 * 0x1fff)
    {
      ProductEntry(h, r, i, k);
      FactorBound(r, k, i);
      TermBound(h[i], Factor(r, k, i));
      d := d + h[i] * Factor(r, k, i);
      i := i + 1;
    }
  }

  lemma ProductNone(h: seq<int>, r: seq<int>, k: nat)
    requires |h| == 10 && |r| == 10 && k < 10
    ensures Product(h, r, 0)[k] == 0
  {
  }

  /** One limb of the product, and what is carried into the next one. */
  method ProductLimb(h: seq<int>, r: seq<int>, k: nat, carry: int) returns (d: int, c: int)
    requires Small(h, 0x4400) && Small(r, 0x2000) && k < 10 && 0 <= carry < 0x10_0000
    ensures 0 <= d < 0x2000 && 0 <= c < 0x10_0000
    ensures d + 0x2000 * c == carry + Product(h, r, 10)[k]
  {
    hide Product;
    ProductNone(h, r, k);
    d := AddTerms(h, r, k, 0, carry);
    c := Upper(d);
    d := Lower(d);
    d := AddTerms(h, r, k, 5, d);
    c := c + Upper(d);
    d := Lower(d);
  }

  lemma EvalSnoc(v: seq<int>, d: int)
    ensures Eval(v + [d]) == Eval(v) + Power(|v|) * d
  {
    EvalAppend(v, [d]);
    EvalOne(d);
  }

  /** Moving a carry of limb k into limb k + 1 */
  lemma CarryStep(e: int, p: int, d: int, c: int, carry: int, x: int, f: int)
    requires d + LIMB * c == carry + x && e + p * carry == f
    ensures e + p * d + LIMB * p * c == f + p * x
  {
    assert p * (d + LIMB * c) == p * (carry + x);
    assert p * (LIMB * c) == LIMB * p * c;
  }

  lemma LimbStep(limbs: seq<int>, c: int, limb: int, carry: int, product: seq<int>)
    requires |limbs| < |product| && limb + LIMB * carry == c + product[|limbs|]
    requires Eval(limbs) + Power(|limbs|) * c == Eval(product[..|limbs|])
    ensures Eval(limbs + [limb]) + Power(|limbs| + 1) * carry == Eval(product[..|limbs| + 1])
  {
    hide Eval, Power;
    var k := |limbs|;
    EvalSnoc(limbs, limb);
    assert product[..k + 1] == product[..k] + [product[k]];
    EvalSnoc(product[..k], product[k]);
    PowerStep(k);
    CarryStep(Eval(limbs), Power(k), limb, carry, c, product[k], Eval(product[..k]));
  }

  /** The product of two numbers modulo 2^130 - 5, in reduced limbs */
  method Multiply(h: seq<int>, r: seq<int>) returns (d: seq<int>)
    requires Small(h, 0x4400) && Small(r, 0x2000)
    ensures Reduced(d) && Cong(Eval(d), Eval(h) * Eval(r))
  {
    hide Product, Eval, Power, Cong, Reduced;
    ghost var product := Product(h, r, 10);
    var limbs, c := [], 0;
    EvalEmpty();
    assert product[..0] == [];
    while |limbs| < 10
      invariant |limbs| <= 10 && forall i :: 0 <= i < |limbs| ==> 0 <= limbs[i] < 0x2000
      invariant 0 <= c < 0x10_0000
      invariant Eval(limbs) + Power(|limbs|) * c == Eval(product[..|limbs|])
    {
      var limb, carry := ProductLimb(h, r, |limbs|, c);
      LimbStep(limbs, c, limb, carry, product);
      limbs, c := limbs + [limb], carry;
    }
    assert product[..10] == product;
    d := FoldCarry(limbs, c, product);
    ProductIsProduct(h, r);
    CongTrans(Eval(d), Eval(product), Eval(h) * Eval(r));
  }

  lemma EvalEmpty()
    ensures Eval([]) == 0 && Power(0) == 1
  {
  }

  /** The last carry, five times, is added to limb 0, and what does not fit there to limb 1. */
  method FoldCarry(limbs: seq<int>, carry: int, ghost product: seq<int>) returns (d: seq<int>)
    requires Small(limbs, 0x2000) && 0 <= carry < 0x10_0000
    requires Eval(limbs) + Power(10) * carry == Eval(product)
    ensures Reduced(d) && Cong(Eval(d), Eval(product))
  {
    var c := 4 * carry + carry;
    c := c + limbs[0];
    d := limbs[0 := c % 0x2000];
    c := c / 0x2000;
    d := d[1 := d[1] + c];
    FoldValue(limbs, carry, d, c);
    TenLimbs();
    MultipleOf(-carry);
  }

  lemma FoldValue(limbs: seq<int>, carry: int, d: seq<int>, c: int)
    requires |limbs| == 10 && c == (5 * carry + limbs[0]) / 0x2000
    requires d == limbs[0 := (5 * carry + limbs[0]) % 0x2000][1 := limbs[1] + c]
    ensures Eval(d) == Eval(limbs) + 5 * carry
  {
    hide Eval;
    EvalTen(d);
    EvalTen(limbs);
  }

  // ---------- Blocks of a message ----------

  /** The bit above a full block */
  function HighBit(fin: bool): nat { if fin then 0 else TWO_128 }

  /** A block is added to the limbs and the sum is multiplied. */
  method AddBlock(h: seq<int>, r: seq<int>, b: seq<Byte>, fin: bool) returns (d: seq<int>)
    requires Reduced(h) && Small(r, 0x2000) && |b| == 16
    ensures Reduced(d) && Cong(Eval(d), (Eval(h) + LittleEndian(b) + HighBit(fin)) * Eval(r))
  {
    hide Limbs, WordsOf, Eval, LittleEndian, Cong;
    var hibit := if fin then 0 else 0x800;
    var limbs := Limbs(WordsOf(b), hibit);
    LimbsBound(WordsOf(b), hibit);
    LimbsValue(WordsOf(b), hibit);
    WordsOfValue(b);
    var sum := Plus(h, limbs);
    EvalPlus(h, limbs);
    d := Multiply(sum, r);
  }

  /** What full blocks make of the accumulator, before any reduction */
  function AbsorbBlocks(a: int, r: int, m: seq<Byte>, fin: bool): int
    decreases |m|
  {
    if |m| < 16 then a else AbsorbBlocks((a + LittleEndian(m[..16]) + HighBit(fin)) * r, r, m[16..], fin)
  }

  lemma CongTimes(a: int, b: int, r: int)
    requires Cong(a, b)
    ensures Cong(a * r, b * r)
  {
    CongMul(r, a, b);
    assert r * a == a * r && r * b == b * r;
  }

  /** Congruent accumulators stay congruent. */
  lemma {:induction false} AbsorbCong(a: int, b: int, r: int, m: seq<Byte>, fin: bool)
    requires Cong(a, b)
    ensures Cong(AbsorbBlocks(a, r, m, fin), AbsorbBlocks(b, r, m, fin))
    decreases |m|
  {
    hide Cong, LittleEndian;
    if |m| >= 16 {
      var v := LittleEndian(m[..16]) + HighBit(fin);
      assert Cong(a + v, b + v) by { CongShift(a, b, v); }
      CongTimes(a + v, b + v, r);
      AbsorbCong((a + v) * r, (b + v) * r, r, m[16..], fin);
      assert a + LittleEndian(m[..16]) + HighBit(fin) == a + v && b + LittleEndian(m[..16]) + HighBit(fin) == b + v;
    }
  }

  lemma CongShift(a: int, b: int, v: int)
    requires Cong(a, b)
    ensures Cong(a + v, b + v)
  {
  }

  /** Full blocks do to the limbs what the standard does to the accumulator. */
  lemma {:induction false} BlocksAbsorb(a: int, b: nat, r: nat, m: seq<Byte>)
    requires Cong(a, b) && |m| % 16 == 0
    ensures Cong(AbsorbBlocks(a, r, m, false), Absorb(b, r, m))
    decreases |m|
  {
    hide Cong, LittleEndian;
    if m != [] {
      var v := LittleEndian(m[..16]) + TWO_128;
      assert BlockValue(m[..16]) == v by { AboveSixteen(); }
      CongShift(a, b, v);
      CongTimes(a + v, b + v, r);
      assert Cong((a + v) * r, (b + v) * r % P) by { CongRemainder((a + v) * r, (b + v) * r); }
      BlocksAbsorb((a + v) * r, (b + v) * r % P, r, m[16..]);
      assert a + LittleEndian(m[..16]) + HighBit(false) == a + v;
    }
  }

  lemma CongRemainder(x: int, y: int)
    requires Cong(x, y)
    ensures Cong(x, y % P)
  {
  }

  lemma AboveSixteen()
    ensures Above(16) == TWO_128
  {
    assert Above(4) == 0x1_0000_0000;
    assert Above(8) == 0x1_0000_0000_0000_0000;
    assert Above(12) == 0x1_0000_0000_0000_0000_0000_0000;
  }

  /** The loop of blocks on the local copies of the limbs */
  method AddBlocks(h: seq<int>, r: seq<int>, m: seq<Byte>, fin: bool) returns (d: seq<int>)
    requires Reduced(h) && Small(r, 0x2000)
    ensures Reduced(d) && Cong(Eval(d), AbsorbBlocks(Eval(h), Eval(r), m, fin))
  {
    hide Cong, Eval, LittleEndian, Reduced;
    d := h;
    var mpos, bytes := 0, |m|;
    assert m[0..] == m;
    assert Cong(AbsorbBlocks(Eval(h), Eval(r), m, fin), AbsorbBlocks(Eval(h), Eval(r), m, fin)) by { CongReflexive(AbsorbBlocks(Eval(h), Eval(r), m, fin)); }
    while bytes >= 16
      invariant 0 <= mpos && 0 <= bytes && mpos + bytes == |m| && Reduced(d)
      invariant Cong(AbsorbBlocks(Eval(d), Eval(r), m[mpos..], fin), AbsorbBlocks(Eval(h), Eval(r), m, fin))
    {
      var b := m[mpos..mpos + 16];
      var e := AddBlock(d, r, b, fin);
      assert m[mpos..][..16] == b && m[mpos..][16..] == m[mpos + 16..];
      AbsorbCong(Eval(e), (Eval(d) + LittleEndian(b) + HighBit(fin)) * Eval(r), Eval(r), m[mpos + 16..], fin);
      CongTrans(AbsorbBlocks(Eval(e), Eval(r), m[mpos + 16..], fin),
                AbsorbBlocks(Eval(d), Eval(r), m[mpos..], fin),
                AbsorbBlocks(Eval(h), Eval(r), m, fin));
      d := e;
      mpos := mpos + 16;
      bytes := bytes - 16;
    }
  }

  lemma CongReflexive(a: int)
    ensures Cong(a, a)
  {
  }
}
