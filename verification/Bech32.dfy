/** The Bech32 and Bech32m checksummed string format (BIP 173 and BIP 350). */
module Bech32 {
  import opened Wrappers
  import opened Utf16

  /** A 32-bit integer of the checksum computation; all states stay below 2^30. */
  type Word = bv32

  const STATES: Word := 0x40000000

  type Symbol = d: int | 0 <= d < 32

  /** What polymod consumes: symbols, and halves of 16-bit character codes. */
  type Value = v: int | 0 <= v < 0x800

  datatype Encoding = BECH32 | BECH32M

  function EncodingConst(enc: Encoding): Word {
    if enc.BECH32? then 1 else 0x2bc830a3
  }

  // ---------- The checksum step ----------

  function Xor(a: Word, b: Word): Word { a ^ b }

  function Generator(i: int): Word {
    if i == 0 then 0x3b6a57b2 else if i == 1 then 0x26508e6d else if i == 2 then 0x1ea119fa
    else if i == 3 then 0x3d4233dd else 0x2a1462b3
  }

  /** Bit i of chk >> 25. */
  predicate TopBit(chk: Word, i: int) {
    if i == 0 then (chk >> 25) & 1 != 0
    else if i == 1 then (chk >> 26) & 1 != 0
    else if i == 2 then (chk >> 27) & 1 != 0
    else if i == 3 then (chk >> 28) & 1 != 0
    else (chk >> 29) & 1 != 0
  }

  function Tap(chk: Word, i: int): Word { if TopBit(chk, i) then Generator(i) else 0 }

  function Shifted(chk: Word): Word { (chk & 0x1ffffff) << 5 }

  function Step(chk: Word, v: Word): Word {
    Xor(Xor(Xor(Xor(Xor(Xor(Shifted(chk), v), Tap(chk, 0)), Tap(chk, 1)), Tap(chk, 2)), Tap(chk, 3)), Tap(chk, 4))
  }

  function Bits(v: Value): Word { v as bv32 }

  function Poly(chk: Word, values: seq<Value>): Word
    decreases |values|
  {
    if values == [] then chk else Poly(Step(chk, Bits(values[0])), values[1..])
  }

  method Polymod(values: seq<Value>) returns (chk: Word)
    ensures chk == Poly(1, values)
  {
    hide Xor, Generator, TopBit, Shifted;
    chk := 1;
    var p := 0;
    assert values[0..] == values;
    while p < |values|
      invariant 0 <= p <= |values|
      invariant Poly(chk, values[p..]) == Poly(1, values)
    {
      assert values[p..][1..] == values[p + 1..];
      chk := PolymodStep(chk, values[p]);
      p := p + 1;
    }
  }

  /** The inner loop of polymod: the generators selected by the bits that are shifted out. */
  method PolymodStep(before: Word, value: Value) returns (chk: Word)
    ensures chk == Step(before, Bits(value))
  {
    hide Xor, Generator, TopBit, Shifted;
    chk := Xor(Shifted(before), Bits(value));
    ghost var c0 := chk;
    ghost var c1 := Xor(c0, Tap(before, 0));
    ghost var c2 := Xor(c1, Tap(before, 1));
    ghost var c3 := Xor(c2, Tap(before, 2));
    ghost var c4 := Xor(c3, Tap(before, 3));
    var i := 0;
    while i < 5
      invariant 0 <= i <= 5
      invariant (i == 0 ==> chk == c0) && (i == 1 ==> chk == c1) && (i == 2 ==> chk == c2)
      invariant (i == 3 ==> chk == c3) && (i == 4 ==> chk == c4)
      invariant i == 5 ==> chk == Xor(c4, Tap(before, 4))
    {
      if TopBit(before, i) {
        chk := Xor(chk, Generator(i));
      } else {
        XorUnits(chk);
        assert Tap(before, i) == 0;
      }
      i := i + 1;
    }
  }

  // ---------- Linearity ----------

  lemma XorUnits(g: Word)
    ensures Xor(g, g) == 0 && Xor(g, 0) == g && Xor(0, g) == g
  {
  }

  lemma XorSwap(a: Word, b: Word, c: Word, d: Word)
    ensures Xor(Xor(a, b), Xor(c, d)) == Xor(Xor(a, c), Xor(b, d))
  {
    hide Xor;
    XorAssociative(a, b, Xor(c, d));
    XorAssociative(b, c, d);
    XorSymmetric(b, c);
    XorAssociative(c, b, d);
    XorAssociative(a, c, Xor(b, d));
  }

  lemma XorSymmetric(a: Word, b: Word)
    ensures Xor(a, b) == Xor(b, a)
  {
  }

  lemma XorAssociative(a: Word, b: Word, c: Word)
    ensures Xor(Xor(a, b), c) == Xor(a, Xor(b, c))
  {
  }

  lemma XorCancel(a: Word, b: Word, c: Word)
    requires Xor(a, b) == Xor(a, c)
    ensures b == c
  {
  }

  lemma XorBound(a: Word, b: Word)
    requires a < STATES && b < STATES
    ensures Xor(a, b) < STATES
    ensures Xor(a, b) == 0 ==> a == b
  {
  }

  lemma TopBitLinear(a: Word, b: Word, i: int)
    ensures TopBit(Xor(a, b), i) == (TopBit(a, i) != TopBit(b, i))
  {
  }

  lemma TapLinear(a: Word, b: Word, i: int)
    ensures Tap(Xor(a, b), i) == Xor(Tap(a, i), Tap(b, i))
  {
    hide TopBit, Generator, Xor;
    TopBitLinear(a, b, i);
    XorUnits(Generator(i));
    XorUnits(0);
  }

  lemma ShiftedLinear(a: Word, b: Word)
    ensures Shifted(Xor(a, b)) == Xor(Shifted(a), Shifted(b))
  {
  }

  lemma AddTap(a: Word, b: Word, u: Word, v: Word, i: int)
    ensures Xor(Xor(u, v), Tap(Xor(a, b), i)) == Xor(Xor(u, Tap(a, i)), Xor(v, Tap(b, i)))
  {
    hide Tap, Xor;
    TapLinear(a, b, i);
    XorSwap(u, v, Tap(a, i), Tap(b, i));
  }

  /** One step is linear over GF(2), in the state and in the value. */
  lemma StepLinear(a: Word, b: Word, u: Word, v: Word)
    ensures Step(Xor(a, b), Xor(u, v)) == Xor(Step(a, u), Step(b, v))
  {
    hide Shifted, Tap, Xor;
    ShiftedLinear(a, b);
    XorSwap(Shifted(a), Shifted(b), u, v);
    var u0, v0 := Xor(Shifted(a), u), Xor(Shifted(b), v);
    AddTap(a, b, u0, v0, 0);
    var u1, v1 := Xor(u0, Tap(a, 0)), Xor(v0, Tap(b, 0));
    AddTap(a, b, u1, v1, 1);
    var u2, v2 := Xor(u1, Tap(a, 1)), Xor(v1, Tap(b, 1));
    AddTap(a, b, u2, v2, 2);
    var u3, v3 := Xor(u2, Tap(a, 2)), Xor(v2, Tap(b, 2));
    AddTap(a, b, u3, v3, 3);
    var u4, v4 := Xor(u3, Tap(a, 3)), Xor(v3, Tap(b, 3));
    AddTap(a, b, u4, v4, 4);
  }

  // ---------- Injectivity ----------

  /** The five generators are independent in their low bits. */
  lemma StepKernel(a: Word)
    requires a < STATES && Step(a, 0) == 0
    ensures a == 0
  {
  }

  lemma StepInjective(a: Word, b: Word, v: Word)
    requires a < STATES && b < STATES && Step(a, v) == Step(b, v)
    ensures a == b
  {
    hide Step, Xor;
    StepLinear(a, b, v, v);
    XorUnits(v);
    XorUnits(Step(a, v));
    XorBound(a, b);
    StepKernel(Xor(a, b));
  }

  lemma StepBound(a: Word, v: Word)
    requires v < STATES
    ensures Step(a, v) < STATES
  {
    hide Xor, Tap, Shifted;
    var x := Xor(Shifted(a), v);
    ShiftedBound(a);
    XorBound(Shifted(a), v);
    var x0 := Xor(x, Tap(a, 0));
    TapKeeps(x, a, 0);
    var x1 := Xor(x0, Tap(a, 1));
    TapKeeps(x0, a, 1);
    var x2 := Xor(x1, Tap(a, 2));
    TapKeeps(x1, a, 2);
    var x3 := Xor(x2, Tap(a, 3));
    TapKeeps(x2, a, 3);
    TapKeeps(x3, a, 4);
  }

  lemma ShiftedBound(a: Word)
    ensures Shifted(a) < STATES
  {
  }

  lemma TapKeeps(x: Word, a: Word, i: int)
    requires x < STATES
    ensures Xor(x, Tap(a, i)) < STATES
  {
    hide Xor, TopBit;
    assert Generator(i) < STATES;
    XorBound(x, Tap(a, i));
  }

  lemma ValueBound(v: Value)
    ensures Bits(v) < STATES
  {
  }

  lemma {:induction false} PolyAppend(chk: Word, a: seq<Value>, b: seq<Value>)
    ensures Poly(chk, a + b) == Poly(Poly(chk, a), b)
    decreases |a|
  {
    hide Step;
    if a == [] {
      assert a + b == b;
    } else {
      assert (a + b)[1..] == a[1..] + b;
      PolyAppend(Step(chk, Bits(a[0])), a[1..], b);
    }
  }

  lemma {:induction false} PolyBound(chk: Word, values: seq<Value>)
    requires chk < STATES
    ensures Poly(chk, values) < STATES
    decreases |values|
  {
    hide Step;
    if values != [] {
      ValueBound(values[0]);
      StepBound(chk, Bits(values[0]));
      PolyBound(Step(chk, Bits(values[0])), values[1..]);
    }
  }

  lemma {:induction false} PolyInjective(a: Word, b: Word, values: seq<Value>)
    requires a < STATES && b < STATES && Poly(a, values) == Poly(b, values)
    ensures a == b
    decreases |values|
  {
    hide Step;
    if values != [] {
      var v := Bits(values[0]);
      ValueBound(values[0]);
      StepBound(a, v);
      StepBound(b, v);
      PolyInjective(Step(a, v), Step(b, v), values[1..]);
      StepInjective(a, b, v);
    }
  }

  // ---------- Six symbols fill the state ----------

  function Zeros(n: nat): (z: seq<Value>)
    ensures |z| == n && forall j :: 0 <= j < n ==> z[j] == 0
  {
    seq(n, j => 0)
  }

  lemma {:induction false} PolySplit(chk: Word, c: seq<Symbol>)
    ensures Poly(chk, c) == Xor(Poly(chk, Zeros(|c|)), Poly(0, c))
  {
    PolyTwo(chk, 0, Zeros(|c|), c, c);
  }

  /** Poly is linear, for value sequences that add up symbol by symbol. */
  lemma {:induction false} PolyTwo(a: Word, b: Word, u: seq<Value>, v: seq<Value>, w: seq<Value>)
    requires |u| == |v| == |w|
    requires forall j :: 0 <= j < |u| ==> u[j] == 0 && w[j] == v[j]
    ensures Poly(Xor(a, b), w) == Xor(Poly(a, u), Poly(b, v))
    ensures b == 0 ==> Poly(a, w) == Xor(Poly(a, u), Poly(b, v))
    decreases |u|
  {
    hide Step, Xor;
    XorUnits(a);
    if u != [] {
      var x := Bits(v[0]);
      XorUnits(x);
      StepLinear(a, b, 0, x);
      PolyTwo(Step(a, 0), Step(b, x), u[1..], v[1..], w[1..]);
    }
  }

  /** The states that k symbols can reach from the zero state. */
  function Limit(k: int): Word {
    if k == 0 then 1 else if k == 1 then 0x20 else if k == 2 then 0x400 else if k == 3 then 0x8000
    else if k == 4 then 0x100000 else if k == 5 then 0x2000000 else STATES
  }

  predicate Within(x: Word, k: int) { x < Limit(k) }

  predicate Room(x: Word) { x < 0x2000000 }

  predicate FiveBits(u: Word) { u < 32 }

  lemma NoTopBits(chk: Word)
    requires Room(chk)
    ensures !TopBit(chk, 0) && !TopBit(chk, 1) && !TopBit(chk, 2) && !TopBit(chk, 3) && !TopBit(chk, 4)
  {
  }

  function Append(x: Word, u: Word): Word { (x << 5) | u }

  lemma ShiftedAppend(chk: Word, v: Word)
    requires Room(chk) && FiveBits(v)
    ensures Xor(Shifted(chk), v) == Append(chk, v)
  {
  }

  /** Below 2^25 nothing is shifted out, so a step just appends five bits. */
  lemma StepSmall(chk: Word, v: Word)
    requires Room(chk) && FiveBits(v)
    ensures Step(chk, v) == Append(chk, v)
  {
    hide TopBit, Xor, Shifted, Append, Generator, Room, FiveBits;
    NoTopBits(chk);
    XorUnits(Xor(Shifted(chk), v));
    ShiftedAppend(chk, v);
  }

  lemma AppendInjective(x: Word, y: Word, u: Word, v: Word)
    requires Room(x) && Room(y) && FiveBits(u) && FiveBits(v) && Append(x, u) == Append(y, v)
    ensures x == y && u == v
  {
  }

  lemma AppendBound(x: Word, u: Word, k: int)
    requires 0 <= k <= 5 && Within(x, k) && FiveBits(u)
    ensures Within(Append(x, u), k + 1)
  {
    if k == 0 {
    } else if k == 1 {
    } else if k == 2 {
    } else if k == 3 {
    } else if k == 4 {
    } else {
    }
  }

  lemma SymbolWord(d: Symbol)
    ensures FiveBits(Bits(d))
  {
  }

  lemma SymbolInjective(d: Symbol, d': Symbol)
    requires Bits(d) == Bits(d')
    ensures d == d'
  {
    hide Bits;
    SymbolBack(d);
    SymbolBack(d');
  }

  lemma SymbolBack(d: Symbol)
    ensures Bits(d) as int == d
  {
  }

  lemma LimitSmall(k: int, x: Word)
    requires 0 <= k <= 5 && Within(x, k)
    ensures Room(x)
  {
  }

  lemma {:induction false} SmallBound(c: seq<Symbol>)
    requires |c| <= 6
    ensures Within(Poly(0, c), |c|)
    decreases |c|
  {
    hide Step, Within, Room, FiveBits, Append, Bits, Poly;
    var k := |c| - 1;
    if k < 0 {
      LimitZero();
      PolyNothing(0);
      assert c == [];
    } else {
      SmallBound(c[..k]);
      SmallStep(c);
      SymbolWord(c[k]);
      AppendBound(Poly(0, c[..k]), Bits(c[k]), k);
    }
  }

  /** The last of at most six symbols is appended to the state of the others. */
  lemma SmallStep(c: seq<Symbol>)
    requires 0 < |c| <= 6 && Within(Poly(0, c[..|c| - 1]), |c| - 1)
    ensures Poly(0, c) == Append(Poly(0, c[..|c| - 1]), Bits(c[|c| - 1]))
    ensures Room(Poly(0, c[..|c| - 1])) && FiveBits(Bits(c[|c| - 1]))
  {
    hide Step, Within, Room, FiveBits, Append, Bits, Poly;
    var k := |c| - 1;
    LastStep(c);
    LimitSmall(k, Poly(0, c[..k]));
    SymbolWord(c[k]);
    StepSmall(Poly(0, c[..k]), Bits(c[k]));
  }

  lemma LastSymbols(c: seq<Symbol>, c': seq<Symbol>)
    requires 0 < |c| == |c'| <= 6 && Poly(0, c) == Poly(0, c')
    ensures Poly(0, c[..|c| - 1]) == Poly(0, c'[..|c| - 1])
    ensures c[|c| - 1] == c'[|c| - 1]
  {
    hide Step, Within, Room, FiveBits, Append, Bits, Poly;
    var k := |c| - 1;
    SmallBound(c[..k]);
    SmallBound(c'[..k]);
    SmallStep(c);
    SmallStep(c');
    AppendInjective(Poly(0, c[..k]), Poly(0, c'[..k]), Bits(c[k]), Bits(c'[k]));
    SymbolInjective(c[k], c'[k]);
  }

  lemma {:induction false} SmallInjective(c: seq<Symbol>, c': seq<Symbol>)
    requires |c| == |c'| <= 6 && Poly(0, c) == Poly(0, c')
    ensures c == c'
    decreases |c|
  {
    hide Poly;
    if c != [] {
      var k := |c| - 1;
      LastSymbols(c, c');
      SmallInjective(c[..k], c'[..k]);
      assert c == c[..k] + [c[k]] && c' == c'[..k] + [c'[k]];
    }
  }

  lemma LimitZero()
    ensures Within(0, 0)
  {
  }

  lemma LastStep(c: seq<Symbol>)
    requires c != []
    ensures Poly(0, c) == Step(Poly(0, c[..|c| - 1]), Bits(c[|c| - 1]))
  {
    hide Step;
    var k := |c| - 1;
    assert c == c[..k] + [c[k]];
    PolyAppend(0, c[..k], [c[k]]);
  }

  /**
   * Two strings of values that differ only inside a window of at most six symbols never have
   * the same checksum state; in particular every substitution of one symbol is detected.
   */
  lemma WindowDetected(before: seq<Value>, c: seq<Symbol>, c': seq<Symbol>, after: seq<Value>)
    requires |c| == |c'| <= 6 && c != c'
    ensures Poly(1, before + c + after) != Poly(1, before + c' + after)
  {
    hide Step, Xor;
    var st := Poly(1, before);
    PolyBound(1, before);
    forall x: seq<Symbol>
      ensures Poly(1, before + x + after) == Poly(Poly(st, x), after)
    {
      PolyAppend(1, before + x, after);
      PolyAppend(1, before, x);
    }
    if Poly(1, before + c + after) == Poly(1, before + c' + after) {
      PolyBound(st, c);
      PolyBound(st, c');
      PolyInjective(Poly(st, c), Poly(st, c'), after);
      PolySplit(st, c);
      PolySplit(st, c');
      XorCancel(Poly(st, Zeros(|c|)), Poly(0, c), Poly(0, c'));
      SmallInjective(c, c');
    }
  }

  // ---------- Creating the checksum ----------

  /** (mod >> (5 * (5 - p))) & 31. */
  function ChecksumWord(mod: Word, p: int): Word {
    if p == 0 then (mod >> 25) & 31
    else if p == 1 then (mod >> 20) & 31
    else if p == 2 then (mod >> 15) & 31
    else if p == 3 then (mod >> 10) & 31
    else if p == 4 then (mod >> 5) & 31
    else mod & 31
  }

  function ChecksumSymbol(mod: Word, p: int): (d: Symbol)
    ensures Bits(d) == ChecksumWord(mod, p)
  {
    WordSymbol(ChecksumWord(mod, p));
    ChecksumWord(mod, p) as int
  }

  lemma WordSymbol(w: Word)
    requires w < 32
    ensures 0 <= w as int < 32 && Bits(w as int) == w
  {
  }

  function Unpacked(mod: Word): (c: seq<Symbol>)
    ensures |c| == 6
  {
    seq(6, p => ChecksumSymbol(mod, p))
  }

  lemma PackBits(m: Word)
    requires m < STATES
    ensures Append(Append(Append(Append(Append(ChecksumWord(m, 0), ChecksumWord(m, 1)), ChecksumWord(m, 2)),
                                 ChecksumWord(m, 3)), ChecksumWord(m, 4)), ChecksumWord(m, 5)) == m
    ensures Append(0, ChecksumWord(m, 0)) == ChecksumWord(m, 0)
  {
  }

  /** Running over the unpacked symbols rebuilds the word. */
  lemma UnpackedRebuilds(m: Word)
    requires m < STATES
    ensures Poly(0, Unpacked(m)) == m
  {
    hide Step, Limit, ChecksumWord, Append, Poly, Bits;
    var c := Unpacked(m);
    assert Poly(0, c[..0]) == 0 by { PolyNothing(0); }
    UnpackedStep(c, 0);
    UnpackedStep(c, 1);
    UnpackedStep(c, 2);
    UnpackedStep(c, 3);
    UnpackedStep(c, 4);
    UnpackedStep(c, 5);
    assert c[..6] == c;
    PackBits(m);
  }

  lemma PolyNothing(chk: Word)
    ensures Poly(chk, []) == chk
  {
  }

  lemma UnpackedStep(c: seq<Symbol>, k: nat)
    requires |c| == 6 && k < 6
    ensures Poly(0, c[..k + 1]) == Append(Poly(0, c[..k]), Bits(c[k]))
  {
    hide Step, Within, Room, FiveBits, Append, Bits, Poly;
    assert c[..k + 1][..k] == c[..k];
    SmallBound(c[..k]);
    SmallStep(c[..k + 1]);
  }

  function HrpExpand(hrp: seq<CodeUnit>): (values: seq<Value>)
    ensures |values| == 2 * |hrp| + 1
  {
    seq(|hrp|, j requires 0 <= j < |hrp| => hrp[j] / 32) + [0] + seq(|hrp|, j requires 0 <= j < |hrp| => hrp[j] % 32)
  }

  function Checksum(hrp: seq<CodeUnit>, data: seq<Symbol>, enc: Encoding): seq<Symbol> {
    Unpacked(Xor(Poly(1, HrpExpand(hrp) + data + Zeros(6)), EncodingConst(enc)))
  }

  predicate Verifies(hrp: seq<CodeUnit>, data: seq<Symbol>, enc: Encoding) {
    Poly(1, HrpExpand(hrp) + data) == EncodingConst(enc)
  }

  /** The appended checksum makes polymod equal to the constant of the encoding. */
  lemma ChecksumVerifies(hrp: seq<CodeUnit>, data: seq<Symbol>, enc: Encoding)
    ensures Verifies(hrp, data + Checksum(hrp, data, enc), enc)
  {
    hide Step, Xor, HrpExpand, Poly, Unpacked, EncodingConst, Zeros;
    var values := HrpExpand(hrp) + data;
    var st := Poly(1, values);
    PolyBound(1, values);
    PolyAppend(1, values, Zeros(6));
    var zero := Poly(st, Zeros(6));
    PolyBound(st, Zeros(6));
    var k := EncodingConst(enc);
    ConstBound(enc);
    XorBound(zero, k);
    var m := Xor(zero, k);
    UnpackedRebuilds(m);
    PolySplit(st, Unpacked(m));
    XorUndo(zero, k);
    PolyAppend(1, values, Unpacked(m));
    assert HrpExpand(hrp) + (data + Unpacked(m)) == values + Unpacked(m);
  }

  lemma ConstBound(enc: Encoding)
    ensures EncodingConst(enc) < STATES
  {
  }

  lemma XorUndo(a: Word, b: Word)
    ensures Xor(a, Xor(a, b)) == b
  {
  }
}
