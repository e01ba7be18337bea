/** How Poly1305 takes sixteen bytes apart into limbs of 13 bits. */
module PolyLimbs {
  import opened Words
  import opened PolyMath

  function LittleEndian(s: seq<Byte>): nat {
    if s == [] then 0 else s[0] + 0x100 * LittleEndian(s[1..])
  }

  /** Two bytes as one word */
  function Word(low: Byte, high: Byte): (t: nat)
    ensures t == low + 0x100 * high
  {
    EightBits(low, high);
    Or(low, Shl(high, 8))
  }

  lemma EightBits(low: Byte, high: Byte)
    ensures Or(low, Shl(high, 8)) == low + 0x100 * high
  {
    ShlValues(1);
    ShlValues(high);
    OrAdds(low, high, 8);
  }

  lemma ShlValues(u: nat)
    ensures Shl(u, 1) == 2 * u && Shl(u, 2) == 4 * u && Shl(u, 3) == 8 * u && Shl(u, 5) == 0x20 * u
    ensures Shl(u, 6) == 0x40 * u && Shl(u, 7) == 0x80 * u
    ensures Shl(u, 8) == 0x100 * u && Shl(u, 9) == 0x200 * u && Shl(u, 11) == 0x800 * u && Shl(u, 12) == 0x1000 * u
  {
    assert Shl(u, 1) == 2 * u;
    assert Shl(u, 2) == 4 * u;
    assert Shl(u, 3) == 8 * u;
    assert Shl(u, 4) == 0x10 * u;
    assert Shl(u, 5) == 0x20 * u;
    assert Shl(u, 6) == 0x40 * u;
    assert Shl(u, 7) == 0x80 * u;
    assert Shl(u, 8) == 0x100 * u;
    assert Shl(u, 9) == 0x200 * u;
    assert Shl(u, 10) == 0x400 * u;
    assert Shl(u, 11) == 0x800 * u;
  }

  /** The limbs of eight words; the last one has the bit above the block. */
  function Limbs(t: seq<nat>, hibit: nat): (l: seq<int>)
    requires |t| == 8
    ensures |l| == 10
  {
    [
      t[0] % 0x2000,
      Or(t[0] / 0x2000, Shl(t[1], 3)) % 0x2000,
      Or(t[1] / 0x400, Shl(t[2], 6)) % 0x2000,
      Or(t[2] / 0x80, Shl(t[3], 9)) % 0x2000,
      Or(t[3] / 0x10, Shl(t[4], 12)) % 0x2000,
      t[4] / 2 % 0x2000,
      Or(t[4] / 0x4000, Shl(t[5], 2)) % 0x2000,
      Or(t[5] / 0x800, Shl(t[6], 5)) % 0x2000,
      Or(t[6] / 0x100, Shl(t[7], 8)) % 0x2000,
      Or(t[7] / 0x20, hibit)
    ]
  }

  predicate AreWords(t: seq<nat>) { |t| == 8 && forall i :: 0 <= i < 8 ==> t[i] < 0x10000 }

  function WordsValue(t: seq<nat>): nat
    requires |t| == 8
  {
    t[0] + 0x10000 * (t[1] + 0x10000 * (t[2] + 0x10000 * (t[3] + 0x10000 *
      (t[4] + 0x10000 * (t[5] + 0x10000 * (t[6] + 0x10000 * t[7]))))))
  }

  /** What is cut off above the limb */
  lemma Cut(a: nat, u: nat, p: nat, m: nat)
    requires p > 0 && m > 0 && p * m == 0x2000 && a < p
    ensures (a + p * u) % 0x2000 == a + p * (u % m)
  {
    var q, r := u / m, u % m;
    assert p * u == p * (m * q) + p * r;
    assert p * (m * q) == 0x2000 * q;
    assert p * r <= p * (m - 1);
    assert a + p * u == 0x2000 * q + (a + p * r);
  }

  lemma Joined3(t: nat, u: nat)
    requires t < 0x10000
    ensures Or(t / 0x2000, Shl(u, 3)) % 0x2000 == t / 0x2000 + 0x8 * (u % 0x400)
  {
    hide Or, Shl;
    ShlValues(1);
    ShlValues(u);
    OrAdds(t / 0x2000, u, 3);
    Cut(t / 0x2000, u, 0x8, 0x400);
  }

  lemma Joined6(t: nat, u: nat)
    requires t < 0x10000
    ensures Or(t / 0x400, Shl(u, 6)) % 0x2000 == t / 0x400 + 0x40 * (u % 0x80)
  {
    hide Or, Shl;
    ShlValues(1);
    ShlValues(u);
    OrAdds(t / 0x400, u, 6);
    Cut(t / 0x400, u, 0x40, 0x80);
  }

  lemma Joined9(t: nat, u: nat)
    requires t < 0x10000
    ensures Or(t / 0x80, Shl(u, 9)) % 0x2000 == t / 0x80 + 0x200 * (u % 0x10)
  {
    hide Or, Shl;
    ShlValues(1);
    ShlValues(u);
    OrAdds(t / 0x80, u, 9);
    Cut(t / 0x80, u, 0x200, 0x10);
  }

  lemma Joined12(t: nat, u: nat)
    requires t < 0x10000
    ensures Or(t / 0x10, Shl(u, 12)) % 0x2000 == t / 0x10 + 0x1000 * (u % 0x2)
  {
    hide Or, Shl;
    ShlValues(1);
    ShlValues(u);
    OrAdds(t / 0x10, u, 12);
    Cut(t / 0x10, u, 0x1000, 0x2);
  }

  lemma Joined2(t: nat, u: nat)
    requires t < 0x10000
    ensures Or(t / 0x4000, Shl(u, 2)) % 0x2000 == t / 0x4000 + 0x4 * (u % 0x800)
  {
    hide Or, Shl;
    ShlValues(1);
    ShlValues(u);
    OrAdds(t / 0x4000, u, 2);
    Cut(t / 0x4000, u, 0x4, 0x800);
  }

  lemma Joined5(t: nat, u: nat)
    requires t < 0x10000
    ensures Or(t / 0x800, Shl(u, 5)) % 0x2000 == t / 0x800 + 0x20 * (u % 0x100)
  {
    hide Or, Shl;
    ShlValues(1);
    ShlValues(u);
    OrAdds(t / 0x800, u, 5);
    Cut(t / 0x800, u, 0x20, 0x100);
  }

  lemma Joined8(t: nat, u: nat)
    requires t < 0x10000
    ensures Or(t / 0x100, Shl(u, 8)) % 0x2000 == t / 0x100 + 0x100 * (u % 0x20)
  {
    hide Or, Shl;
    ShlValues(1);
    ShlValues(u);
    OrAdds(t / 0x100, u, 8);
    Cut(t / 0x100, u, 0x100, 0x20);
  }

  /** With the overlapping words cut in two, the limbs are sums. */
  lemma LimbSums(t: seq<nat>, hibit: nat)
    requires AreWords(t) && (hibit == 0 || hibit == 0x800)
    ensures var l := Limbs(t, hibit);
            && l[0] == t[0] % 0x2000 && l[1] == t[0] / 0x2000 + 8 * (t[1] % 0x400)
            && l[2] == t[1] / 0x400 + 0x40 * (t[2] % 0x80) && l[3] == t[2] / 0x80 + 0x200 * (t[3] % 0x10)
            && l[4] == t[3] / 0x10 + 0x1000 * (t[4] % 2) && l[5] == t[4] / 2 % 0x2000
            && l[6] == t[4] / 0x4000 + 4 * (t[5] % 0x800) && l[7] == t[5] / 0x800 + 0x20 * (t[6] % 0x100)
            && l[8] == t[6] / 0x100 + 0x100 * (t[7] % 0x20) && l[9] == t[7] / 0x20 + hibit
  {
    hide Or, Shl;
    Joined3(t[0], t[1]);
    Joined6(t[1], t[2]);
    Joined9(t[2], t[3]);
    Joined12(t[3], t[4]);
    Joined2(t[4], t[5]);
    Joined5(t[5], t[6]);
    Joined8(t[6], t[7]);
    TopBit(t[7] / 0x20, hibit);
  }

  lemma TopBit(a: nat, hibit: nat)
    requires a < 0x800 && (hibit == 0 || hibit == 0x800)
    ensures Or(a, hibit) == a + hibit
  {
    if hibit == 0 {
      OrZero(a);
    } else {
      assert Shl(1, 11) == 0x800;
      OrAdds(a, 1, 11);
    }
  }

  lemma EvalTen(l: seq<int>)
    requires |l| == 10
    ensures Eval(l) == l[0] + LIMB * (l[1] + LIMB * (l[2] + LIMB * (l[3] + LIMB * (l[4] + LIMB *
                       (l[5] + LIMB * (l[6] + LIMB * (l[7] + LIMB * (l[8] + LIMB * l[9]))))))))
  {
    hide Eval;
    assert l == l[0..];
    EvalAt(l, 0);
    EvalAt(l, 1);
    EvalAt(l, 2);
    EvalAt(l, 3);
    EvalAt(l, 4);
    EvalAt(l, 5);
    EvalAt(l, 6);
    EvalAt(l, 7);
    EvalAt(l, 8);
    EvalAt(l, 9);
    assert Eval(l[10..]) == 0 by { EvalNone(l[10..]); }
  }

  lemma EvalAt(l: seq<int>, i: nat)
    requires i < |l|
    ensures Eval(l[i..]) == l[i] + LIMB * Eval(l[i + 1..])
  {
    assert l[i..][1..] == l[i + 1..];
  }

  lemma EvalNone(l: seq<int>)
    requires l == []
    ensures Eval(l) == 0
  {
  }

  /** The limbs of a block stand for it, with the bit above it. */
  lemma LimbsValue(t: seq<nat>, hibit: nat)
    requires AreWords(t) && (hibit == 0 || hibit == 0x800)
    ensures Eval(Limbs(t, hibit)) == WordsValue(t) + hibit * 0x20_0000_0000_0000_0000_0000_0000_0000
  {
    hide Limbs, Eval;
    var l := Limbs(t, hibit);
    LimbSums(t, hibit);
    EvalTen(l);
    Regroup(t[0], t[1], t[2], t[3], t[4], t[5], t[6], t[7]);
    AboveBlock(l[0], l[1], l[2], l[3], l[4], l[5], l[6], l[7], l[8], t[7] / 0x20, hibit);
  }

  lemma LimbsBound(t: seq<nat>, hibit: nat)
    requires AreWords(t) && (hibit == 0 || hibit == 0x800)
    ensures forall i :: 0 <= i < 10 ==> 0 <= Limbs(t, hibit)[i] < 0x2000
  {
    hide Or, Shl;
    TopBit(t[7] / 0x20, hibit);
  }

  lemma AboveBlock(a: int, b: int, c: int, d: int, e: int, f: int, g: int, h: int, i: int, j: int, hibit: int)
    ensures a + LIMB * (b + LIMB * (c + LIMB * (d + LIMB * (e + LIMB * (f + LIMB * (g + LIMB * (h + LIMB * (i
              + LIMB * (j + hibit)))))))))
            == a + LIMB * (b + LIMB * (c + LIMB * (d + LIMB * (e + LIMB * (f + LIMB * (g + LIMB * (h + LIMB * (i
              + LIMB * j)))))))) + hibit * 0x20_0000_0000_0000_0000_0000_0000_0000
  {
  }

  lemma Regroup(a: nat, b: nat, c: nat, d: nat, e: nat, f: nat, g: nat, h: nat)
    ensures a % 0x2000 + LIMB * (a / 0x2000 + 8 * (b % 0x400) + LIMB * (b / 0x400 + 0x40 * (c % 0x80) + LIMB *
              (c / 0x80 + 0x200 * (d % 0x10) + LIMB * (d / 0x10 + 0x1000 * (e % 2) + LIMB * (e / 2 % 0x2000 + LIMB *
              (e / 0x4000 + 4 * (f % 0x800) + LIMB * (f / 0x800 + 0x20 * (g % 0x100) + LIMB *
              (g / 0x100 + 0x100 * (h % 0x20) + LIMB * (h / 0x20)))))))) )
            == a + 0x10000 * (b + 0x10000 * (c + 0x10000 * (d + 0x10000 * (e + 0x10000 * (f + 0x10000 * (g + 0x10000 * h))))))
  {
    assert a == a % 0x2000 + 0x2000 * (a / 0x2000);
    assert b == b % 0x400 + 0x400 * (b / 0x400);
    assert c == c % 0x80 + 0x80 * (c / 0x80);
    assert d == d % 0x10 + 0x10 * (d / 0x10);
    assert e == e % 2 + 2 * (e / 2 % 0x2000) + 0x4000 * (e / 0x4000);
    assert f == f % 0x800 + 0x800 * (f / 0x800);
    assert g == g % 0x100 + 0x100 * (g / 0x100);
    assert h == h % 0x20 + 0x20 * (h / 0x20);
  }
}
