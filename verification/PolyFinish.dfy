/** The end of Poly1305, in place: full carries, the last reduction, words of 16 bits, and the pad. */
module PolyFinish {
  import opened Words
  import opened PolyMath
  import opened PolyLimbs
  import opened PolyKey
  import opened PolyBlocks

  /** An element of a Uint16Array */
  type Word16 = x: int | 0 <= x < 0x10000

  /** All limbs have 13 bits. */
  predicate Normal(h: seq<int>) { Small(h, 0x2000) }

  lemma EvalUpdate(s: seq<int>, i: nat, v: int)
    requires i < |s|
    ensures Eval(s[i := v]) == Eval(s) + Power(i) * (v - s[i])
  {
    hide Eval;
    var t := s[i := v];
    assert s == s[..i] + s[i..] && t == s[..i] + t[i..];
    EvalAppend(s[..i], s[i..]);
    EvalAppend(s[..i], t[i..]);
    EvalAt(s, i);
    EvalAt(t, i);
    assert t[i + 1..] == s[i + 1..];
    Difference(Power(i), Eval(s[i..]), Eval(t[i..]), v - s[i]);
  }

  lemma Difference(p: int, x: int, y: int, d: int)
    requires y == x + d
    ensures p * y == p * x + p * d
  {
  }

  /** Where a limb is cut to 13 bits, its value is what stays and what is carried. */
  lemma EvalCut(s: seq<int>, i: nat, c: int)
    requires i < |s| && 0 <= s[i] + c
    ensures Eval(s[i := (s[i] + c) % 0x2000]) + Power(i + 1) * ((s[i] + c) / 0x2000) == Eval(s) + Power(i) * c
  {
    hide Eval;
    var v, d := (s[i] + c) % 0x2000, (s[i] + c) / 0x2000;
    EvalUpdate(s, i, v);
    PowerStep(i);
    var p := Power(i);
    assert v - s[i] == c - LIMB * d;
    assert p * (c - LIMB * d) == p * c - LIMB * p * d by { assert p * (LIMB * d) == LIMB * p * d; }
  }

  /** The first loop of finish: carries from limb 1 to the top. */
  method CarryUp(h: array<Word16>) returns (c: int)
    requires h.Length == 10 && Reduced(h[..])
    modifies h
    ensures 0 <= c <= 1 && Eval(h[..]) + Power(10) * c == old(Eval(h[..]))
    ensures Normal(h[..])
    // a carry comes out at the top only if it went through all limbs, which are 0 then
    ensures c == 1 ==> h[1] < 0x400 && forall j :: 2 <= j < 10 ==> h[j] == 0
  {
    hide Eval, Power;
    ghost var was := h[..];
    EvalCut(was, 1, 0);
    c := h[1] / 0x2000;
    h[1] := h[1] % 0x2000;
    assert h[..] == was[1 := (was[1] + 0) % 0x2000];
    var i := 2;
    while i < 10
      invariant 2 <= i <= 10 && 0 <= c <= 1
      invariant Eval(h[..]) + Power(i) * c == Eval(was)
      invariant forall j :: 0 <= j < 10 ==> h[j] < 0x2000
      invariant c == 1 ==> h[1] < 0x400 && forall j :: 2 <= j < i ==> h[j] == 0
    {
      ghost var before, carry := h[..], c;
      EvalCut(before, i, carry);
      h[i] := h[i] + c;
      c := h[i] / 0x2000;
      h[i] := h[i] % 0x2000;
      assert h[..] == before[i := (before[i] + carry) % 0x2000];
      i := i + 1;
    }
  }

  /** finish, first part: all limbs get 13 bits, and the value stays the same modulo 2^130 - 5. */
  method CarryAll(h: array<Word16>)
    requires h.Length == 10 && Reduced(h[..])
    modifies h
    ensures Normal(h[..]) && Cong(Eval(h[..]), old(Eval(h[..])))
  {
    hide Eval, Power, Cong;
    ghost var was := h[..];
    var c := CarryUp(h);
    ghost var top, s := c, h[..];
    EvalCut(s, 0, 5 * top);
    h[0] := h[0] + c * 5;
    c := h[0] / 0x2000;
    h[0] := h[0] % 0x2000;
    ghost var t := h[..];
    assert t == s[0 := (s[0] + 5 * top) % 0x2000];
    EvalCut(t, 1, c);
    ghost var c1 := c;
    h[1] := h[1] + c;
    c := h[1] / 0x2000;
    h[1] := h[1] % 0x2000;
    ghost var u := h[..];
    assert u == t[1 := (t[1] + c1) % 0x2000];
    EvalUpdate(u, 2, u[2] + c);
    h[2] := h[2] + c;
    assert h[..] == u[2 := u[2] + c];
    assert Eval(h[..]) == Eval(s) + 5 * top by { PowersBelow(); }
    TopCarry(Eval(was), Eval(s), top);
  }

  lemma PowersBelow()
    ensures Power(0) == 1 && Power(1) == LIMB && Power(2) == LIMB * LIMB
  {
  }

  /** The carry at the top counts five at the bottom. */
  lemma TopCarry(was: int, s: int, top: int)
    requires s + Power(10) * top == was
    ensures Cong(s + 5 * top, was)
  {
    TenLimbs();
    MultipleOf(-top);
  }

  // ---------- The last reduction ----------

  lemma {:induction false} LimbRange(s: seq<int>)
    requires forall i :: 0 <= i < |s| ==> 0 <= s[i] < 0x2000
    ensures 0 <= Eval(s) < Power(|s|)
  {
    if s != [] {
      LimbRange(s[1..]);
    }
  }

  /** Five is added to a copy of the limbs; the carry at the top tells whether the number was too large. */
  method AddFive(h: array<Word16>, g: array<Word16>) returns (c: int)
    requires h.Length == 10 && g.Length == 10 && h != g && Normal(h[..])
    modifies g
    ensures 0 <= c <= 1 && Normal(g[..]) && Eval(g[..]) + Power(10) * c == Eval(h[..]) + 5
  {
    hide Eval, Power;
    ghost var s := h[..];
    EvalCut(s, 0, 5);
    assert Power(0) == 1 by { PowersBelow(); }
    assert h[0] == s[0] < 0x2000;
    g[0] := h[0] + 5;
    c := g[0] / 0x2000;
    g[0] := g[0] % 0x2000;
    assert g[..1] + s[1..] == s[0 := (s[0] + 5) % 0x2000];
    var i := 1;
    while i < 10
      invariant 1 <= i <= 10 && 0 <= c <= 1 && h[..] == s
      invariant Eval(g[..i] + s[i..]) + Power(i) * c == Eval(s) + 5
      invariant (forall j :: 0 <= j < i ==> g[j] < 0x2000) && forall j :: 0 <= j < 10 ==> h[j] == s[j] < 0x2000
    {
      ghost var before, carry := g[..i] + s[i..], c;
      EvalCut(before, i, carry);
      g[i] := h[i] + c;
      c := g[i] / 0x2000;
      g[i] := g[i] % 0x2000;
      assert g[..i + 1] + s[i + 1..] == before[i := (before[i] + carry) % 0x2000];
      i := i + 1;
    }
    assert g[..10] + s[10..] == g[..];
  }

  /** x & mask, where the mask is 0 or has all bits set */
  function Masked(x: nat, mask: int): nat
    requires mask == 0 || mask == -1
  {
    if mask == 0 then 0 else x
  }

  /** The limbs, but for bits that limb 9 has above its thirteen */
  ghost predicate Stands(h: seq<int>, clean: seq<int>) {
    Normal(clean) && (h == clean || h == clean[9 := clean[9] + 0xe000])
  }

  /** finish, second part: the number is reduced once more, without a branch. */
  method Freeze(h: array<Word16>) returns (ghost clean: seq<int>)
    requires h.Length == 10 && Normal(h[..])
    modifies h
    ensures Stands(h[..], clean) && Eval(clean) == old(Eval(h[..])) % P
  {
    hide Eval, Power;
    var g := new Word16[10];
    var c := AddFive(h, g);
    ghost var s, t := h[..], g[..];
    LimbRange(s);
    LimbRange(t);
    TenLimbs();
    g[9] := (g[9] as int - 0x2000) % 0x10000;
    var mask := if c == 1 then -1 else 0;
    var i := 0;
    while i < 10
      invariant 0 <= i <= 10 && h[..] == s
      invariant forall j :: 0 <= j < 10 ==>
                  g[j] == if j < i then Masked(t[9 := t[9] + 0xe000][j], mask) else t[9 := t[9] + 0xe000][j]
    {
      g[i] := Masked(g[i], mask);
      i := i + 1;
    }
    var other := -1 - mask;
    i := 0;
    while i < 10
      invariant 0 <= i <= 10
      invariant forall j :: 0 <= j < 10 ==> g[j] == Masked(t[9 := t[9] + 0xe000][j], mask)
      invariant forall j :: 0 <= j < 10 ==>
                  h[j] == if j >= i then s[j] else if mask == 0 then s[j] else t[9 := t[9] + 0xe000][j]
    {
      OrZero(Masked(h[i], other));
      OrZero(g[i]);
      h[i] := Or(Masked(h[i], other), g[i]);
      i := i + 1;
    }
    clean := if c == 1 then t else s;
    if c == 1 {
      assert h[..] == t[9 := t[9] + 0xe000];
    } else {
      assert h[..] == s;
    }
  }

  // ---------- Words of 16 bits ----------

  /** The sixteen bits of two joined limbs */
  lemma Joined16(a: nat, u: nat, k: nat, p: nat, m: nat)
    requires p > 0 && m > 0 && p * m == 0x10000 && a < p && Shl(1, k) == p && Shl(u, k) == p * u
    ensures Or(a, Shl(u, k)) % 0x10000 == a + p * (u % m)
  {
    hide Or, Shl;
    OrAdds(a, u, k);
    ProductParts(p, m, u / m, u % m);
    assert u == m * (u / m) + u % m;
    Divides(a + p * u, 0x10000, u / m, a + p * (u % m));
  }

  lemma ShlValuesToo(u: nat)
    ensures Shl(u, 4) == 0x10 * u && Shl(u, 10) == 0x400 * u && Shl(u, 13) == 0x2000 * u && Shl(u, 14) == 0x4000 * u
  {
    ShlValues(u);
    assert Shl(u, 4) == 0x10 * u;
    assert Shl(u, 10) == 0x400 * u;
    assert Shl(u, 13) == 0x2000 * u;
  }

  function Word16Of(x: nat): Word16 { x % 0x10000 }

  /** The words of ten limbs, as the shifts give them */
  function Words16(h: seq<int>): (w: seq<nat>)
    requires |h| == 10 && forall i :: 0 <= i < 10 ==> h[i] >= 0
    ensures AreWords(w)
  {
    [
      Word16Of(Or(h[0], Shl(h[1], 13))),
      Word16Of(Or(h[1] / 8, Shl(h[2], 10))),
      Word16Of(Or(h[2] / 0x40, Shl(h[3], 7))),
      Word16Of(Or(h[3] / 0x200, Shl(h[4], 4))),
      Word16Of(Or(Or(h[4] / 0x1000, Shl(h[5], 1)), Shl(h[6], 14))),
      Word16Of(Or(h[6] / 4, Shl(h[7], 11))),
      Word16Of(Or(h[7] / 0x20, Shl(h[8], 8))),
      Word16Of(Or(h[8] / 0x100, Shl(h[9], 5)))
    ]
  }

  /** finish, third part: the limbs are packed in place. */
  method Pack(h: array<Word16>)
    requires h.Length == 10
    modifies h
    ensures h[..8] == old(Words16(h[..]))
  {
    hide Or, Shl, Word16Of;
    h[0] := Word16Of(Or(h[0], Shl(h[1], 13)));
    h[1] := Word16Of(Or(h[1] / 8, Shl(h[2], 10)));
    h[2] := Word16Of(Or(h[2] / 0x40, Shl(h[3], 7)));
    h[3] := Word16Of(Or(h[3] / 0x200, Shl(h[4], 4)));
    h[4] := Word16Of(Or(Or(h[4] / 0x1000, Shl(h[5], 1)), Shl(h[6], 14)));
    h[5] := Word16Of(Or(h[6] / 4, Shl(h[7], 11)));
    h[6] := Word16Of(Or(h[7] / 0x20, Shl(h[8], 8)));
    h[7] := Word16Of(Or(h[8] / 0x100, Shl(h[9], 5)));
  }

  lemma WordSums(h: seq<int>)
    requires |h| == 10 && (forall i :: 0 <= i < 9 ==> 0 <= h[i] < 0x2000) && h[9] >= 0
    ensures var w := Words16(h);
            && w[0] == h[0] + 0x2000 * (h[1] % 8) && w[1] == h[1] / 8 + 0x400 * (h[2] % 0x40)
            && w[2] == h[2] / 0x40 + 0x80 * (h[3] % 0x200) && w[3] == h[3] / 0x200 + 0x10 * (h[4] % 0x1000)
            && w[4] == h[4] / 0x1000 + 2 * h[5] + 0x4000 * (h[6] % 4) && w[5] == h[6] / 4 + 0x800 * (h[7] % 0x20)
            && w[6] == h[7] / 0x20 + 0x100 * (h[8] % 0x100) && w[7] == h[8] / 0x100 + 0x20 * (h[9] % 0x800)
  {
    hide Or, Shl;
    ShlValues(1);
    ShlValuesToo(1);
    ShlValuesToo(h[1]);
    Joined16(h[0], h[1], 13, 0x2000, 8);
    ShlValuesToo(h[2]);
    Joined16(h[1] / 8, h[2], 10, 0x400, 0x40);
    ShlValues(h[3]);
    Joined16(h[2] / 0x40, h[3], 7, 0x80, 0x200);
    ShlValuesToo(h[4]);
    Joined16(h[3] / 0x200, h[4], 4, 0x10, 0x1000);
    ShlValues(h[5]);
    OrAdds(h[4] / 0x1000, h[5], 1);
    ShlValuesToo(h[6]);
    Joined16(h[4] / 0x1000 + 2 * h[5], h[6], 14, 0x4000, 4);
    ShlValues(h[7]);
    Joined16(h[6] / 4, h[7], 11, 0x800, 0x20);
    ShlValues(h[8]);
    Joined16(h[7] / 0x20, h[8], 8, 0x100, 0x100);
    ShlValues(h[9]);
    Joined16(h[8] / 0x100, h[9], 5, 0x20, 0x800);
  }

  /** The words stand for the number modulo 2^128, whatever limb 9 has above its bits. */
  lemma WordsStand(h: seq<int>, clean: seq<int>)
    requires Stands(h, clean)
    ensures WordsValue(Words16(h)) == Eval(clean) % TWO_128
  {
    hide Words16, Eval, WordsValue;
    var w := Words16(h);
    assert WordsValue(w) + TWO_128 * (clean[9] / 0x800) == Eval(clean) by { WordsSum(h, clean); }
    WordsRange(w);
    Divides(Eval(clean), TWO_128, clean[9] / 0x800, WordsValue(w));
  }

  lemma WordsSum(h: seq<int>, clean: seq<int>)
    requires Stands(h, clean)
    ensures WordsValue(Words16(h)) + TWO_128 * (clean[9] / 0x800) == Eval(clean)
  {
    hide Words16, Eval;
    WordSums(h);
    EvalTen(clean);
    CutRemainder(clean[9] + 0xe000, 0x800, 0x20);
    assert h[9] % 0x800 == clean[9] % 0x800;
    Regroup16(clean[0], clean[1], clean[2], clean[3], clean[4], clean[5], clean[6], clean[7], clean[8], clean[9]);
  }

  lemma WordsRange(w: seq<nat>)
    requires AreWords(w)
    ensures WordsValue(w) < TWO_128
  {
  }

  lemma Regroup16(a: nat, b: nat, c: nat, d: nat, e: nat, f: nat, g: nat, h: nat, i: nat, j: nat)
    ensures a + 0x2000 * (b % 8) + 0x10000 * (b / 8 + 0x400 * (c % 0x40) + 0x10000 * (c / 0x40 + 0x80 * (d % 0x200) + 0x10000 *
              (d / 0x200 + 0x10 * (e % 0x1000) + 0x10000 * (e / 0x1000 + 2 * f + 0x4000 * (g % 4) + 0x10000 *
              (g / 4 + 0x800 * (h % 0x20) + 0x10000 * (h / 0x20 + 0x100 * (i % 0x100) + 0x10000 *
              (i / 0x100 + 0x20 * (j % 0x800)))))))) + TWO_128 * (j / 0x800)
            == a + LIMB * (b + LIMB * (c + LIMB * (d + LIMB * (e + LIMB * (f + LIMB * (g + LIMB * (h + LIMB * (i
               + LIMB * j))))))))
  {
    assert b == b % 8 + 8 * (b / 8);
    assert c == c % 0x40 + 0x40 * (c / 0x40);
    assert d == d % 0x200 + 0x200 * (d / 0x200);
    assert e == e % 0x1000 + 0x1000 * (e / 0x1000);
    assert g == g % 4 + 4 * (g / 4);
    assert h == h % 0x20 + 0x20 * (h / 0x20);
    assert i == i % 0x100 + 0x100 * (i / 0x100);
    assert j == j % 0x800 + 0x800 * (j / 0x800);
  }

  // ---------- The pad ----------

  /** 2^(16 n) */
  function Power16(n: nat): nat { if n == 0 then 1 else 0x10000 * Power16(n - 1) }

  /** The number in the first n words */
  function Low(w: seq<nat>, n: nat): nat
    requires n <= |w|
  {
    if n == 0 then 0 else Low(w, n - 1) + Power16(n - 1) * w[n - 1]
  }

  lemma {:induction false} LowPrefix(v: seq<nat>, w: seq<nat>, n: nat)
    requires n <= |v| && n <= |w| && v[..n] == w[..n]
    ensures Low(v, n) == Low(w, n)
  {
    if n > 0 {
      assert v[n - 1] == v[..n][n - 1] && v[..n - 1] == v[..n][..n - 1] && w[..n - 1] == w[..n][..n - 1];
      LowPrefix(v, w, n - 1);
    }
  }

  lemma LowEight(w: seq<nat>)
    requires |w| == 8
    ensures Low(w, 8) == WordsValue(w) && Power16(8) == TWO_128
  {
    assert Power16(1) == 0x10000 && Power16(2) == 0x1_0000_0000 && Power16(3) == 0x1_0000_0000_0000;
    assert Power16(4) == 0x1_0000_0000_0000_0000;
    assert Power16(5) == 0x10000 * Power16(4) && Power16(6) == 0x10000 * Power16(5) && Power16(7) == 0x10000 * Power16(6);
    assert Low(w, 1) == w[0];
    assert Low(w, 2) == w[0] + 0x10000 * w[1];
    assert Low(w, 4) == Low(w, 3) + Power16(3) * w[3];
    assert Low(w, 6) == Low(w, 5) + Power16(5) * w[5];
  }

  /** One word of a sum: what stays and what is carried */
  lemma PadStep(low: nat, p: nat, carry: nat, before: nat, a: nat, b: nat, f: nat)
    requires low + p * carry == before && f == a + b + carry
    ensures low + p * (f % 0x10000) + 0x10000 * p * (f / 0x10000) == before + p * (a + b)
  {
    assert f == f % 0x10000 + 0x10000 * (f / 0x10000);
    assert p * f == p * (f % 0x10000) + p * (0x10000 * (f / 0x10000));
    assert p * (0x10000 * (f / 0x10000)) == 0x10000 * p * (f / 0x10000);
    assert p * (a + b + carry) == p * (a + b) + p * carry;
  }

  lemma LowSnoc(w: seq<nat>, n: nat)
    requires n < |w|
    ensures Low(w, n + 1) == Low(w, n) + Power16(n) * w[n] && Power16(n + 1) == 0x10000 * Power16(n)
  {
  }

  /** finish, fourth part: the pad is added modulo 2^128. */
  method AddPad(h: array<Word16>, pad: seq<nat>)
    requires h.Length == 10 && AreWords(pad)
    modifies h
    ensures WordsValue(h[..8]) == (old(WordsValue(h[..8])) + WordsValue(pad)) % TWO_128
  {
    hide Low, Power16, WordsValue;
    ghost var w: seq<nat> := h[..8];
    var f := 0;
    var i := 0;
    assert Low(h[..8], 0) == 0 && Low(w, 0) == 0 && Low(pad, 0) == 0 && Power16(0) == 1 by { LowNone(w, pad); }
    while i < 8
      invariant 0 <= i <= 8 && 0 <= f < 0x2_0000
      invariant forall j :: i <= j < 8 ==> h[j] == w[j]
      invariant Low(h[..8], i) + Power16(i) * (f / 0x10000) == Low(w, i) + Low(pad, i)
    {
      ghost var before: seq<nat>, carry := h[..8], f / 0x10000;
      f := h[i] + pad[i] + f / 0x10000;
      h[i] := f % 0x10000;
      LowPrefix(before, h[..8], i);
      LowSnoc(h[..8], i);
      LowSnoc(w, i);
      LowSnoc(pad, i);
      PadStep(Low(h[..8], i), Power16(i), carry, Low(w, i) + Low(pad, i), w[i], pad[i], f);
      assert Power16(i) * (w[i] + pad[i]) == Power16(i) * w[i] + Power16(i) * pad[i];
      i := i + 1;
    }
    ghost var sum: seq<nat> := h[..8];
    LowEight(sum);
    LowEight(w);
    LowEight(pad);
    assert WordsValue(sum) < TWO_128 by { WordsRange(sum); }
    Divides(WordsValue(w) + WordsValue(pad), TWO_128, f / 0x10000, WordsValue(sum));
  }

  lemma LowNone(w: seq<nat>, v: seq<nat>)
    ensures Low(w, 0) == 0 && Low(v, 0) == 0 && Power16(0) == 1
  {
  }

  /** finish, last part: sixteen bytes are written. */
  method Write(h: array<Word16>, mac: array<Byte>, macpos: nat)
    requires h.Length == 10 && macpos + 16 <= mac.Length
    modifies mac
    ensures LittleEndian(mac[macpos..macpos + 16]) == WordsValue(h[..8])
    ensures mac[..macpos] == old(mac[..macpos]) && mac[macpos + 16..] == old(mac[macpos + 16..])
  {
    hide LittleEndian, WordsValue, Word;
    var i := 0;
    while i < 8
      invariant 0 <= i <= 8
      invariant forall j :: 0 <= j < i ==>
                  mac[macpos + 2 * j] == h[j] % 0x100 && mac[macpos + 2 * j + 1] == h[j] / 0x100
      invariant forall j :: 0 <= j < mac.Length && !(macpos <= j < macpos + 16) ==> mac[j] == old(mac[j])
    {
      mac[macpos + 2 * i] := h[i] % 0x100;
      mac[macpos + 2 * i + 1] := h[i] / 0x100;
      i := i + 1;
    }
    ghost var b := mac[macpos..macpos + 16];
    WordIs();
    assert forall j :: 0 <= j < 8 ==> b[2 * j] == h[j] % 0x100 && b[2 * j + 1] == h[j] / 0x100;
    assert WordsOf(b) == h[..8];
    WordsOfValue(b);
  }
}
