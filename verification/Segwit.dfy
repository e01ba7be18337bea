/** Segwit addresses (BIP 173, BIP 350): regrouping of bits, and Bech32 around it. */
module Segwit {
  import opened Wrappers
  import opened Utf16
  import opened Bech32
  import opened Bech32Codec

  type Byte = b: int | 0 <= b < 256

  type Int32 = x: int | -0x8000_0000 <= x < 0x8000_0000

  // ---------- Powers and remainders ----------

  function Pow2(n: nat): (p: int)
    ensures p > 0
  {
    if n == 0 then 1 else 2 * Pow2(n - 1)
  }

  lemma {:induction false} Pow2Add(a: nat, b: nat)
    ensures Pow2(a + b) == Pow2(a) * Pow2(b)
  {
    if a > 0 {
      Pow2Add(a - 1, b);
      assert 2 * (Pow2(a - 1) * Pow2(b)) == (2 * Pow2(a - 1)) * Pow2(b);
    }
  }

  lemma DivMod(x: int, d: int)
    requires d > 0
    ensures x == x / d * d + x % d && 0 <= x % d < d
  {
  }

  /** A value is its quotient and remainder whatever way it was written. */
  lemma DivModUnique(x: int, d: int, q: int, r: int)
    requires d > 0 && 0 <= r < d && x == q * d + r
    ensures x / d == q && x % d == r
  {
    DivMod(x, d);
    if x / d > q {
      Increasing(q + 1, x / d, d);
    } else if x / d < q {
      Increasing(x / d + 1, q, d);
    }
  }

  lemma Increasing(a: int, b: int, d: int)
    requires a <= b && d > 0
    ensures a * d <= b * d
  {
  }

  lemma Distribute(a: int, b: int, d: int)
    ensures (a + b) * d == a * d + b * d
  {
  }

  lemma Associate(a: int, b: int, c: int)
    ensures a * b * c == a * (b * c)
  {
  }

  /** Remainders by a * b are read off in two parts. */
  lemma ModSplit(x: int, a: int, b: int)
    requires a > 0 && b > 0
    ensures a * b > 0 && x % (a * b) == (x / b) % a * b + x % b
  {
    var q, low := x / b, x % b;
    DivMod(x, b);
    DivMod(q, a);
    var high := q % a;
    Distribute(q / a * a, high, b);
    Associate(q / a, a, b);
    Increasing(high + 1, a, b);
    Increasing(0, high, b);
    Distribute(high, 1, b);
    Increasing(1, a, b);
    DivModUnique(x, a * b, q / a, high * b + low);
  }

  /** Adding a multiple does not change a remainder. */
  lemma ModShift(x: int, k: int, d: int)
    requires d > 0
    ensures (x + k * d) % d == x % d
  {
    DivMod(x, d);
    Distribute(x / d, k, d);
    DivModUnique(x + k * d, d, x / d + k, x % d);
  }

  // ---------- convertbits ----------

  function ToInt32(x: int): int { (x + 0x8000_0000) % 0x1_0000_0000 - 0x8000_0000 }

  /** (acc << from) | value; the shifted accumulator has no bit where the value has one. */
  function ShiftIn(acc: int, from: nat, value: int): int {
    ToInt32(acc * Pow2(from)) + value
  }

  /** (acc >> bits) & ((1 << to) - 1) */
  function Group(acc: int, bits: nat, to: nat): (g: int)
    ensures 0 <= g < Pow2(to)
  {
    DivMod(acc / Pow2(bits), Pow2(to));
    acc / Pow2(bits) % Pow2(to)
  }

  /** The variables of convertbits. */
  datatype Regroup = Regroup(acc: int, bits: nat, ret: seq<int>)

  function Drained(st: Regroup, to: nat): Regroup
    requires to > 0
    decreases st.bits
  {
    if st.bits >= to then
      Drained(Regroup(st.acc, st.bits - to, st.ret + [Group(st.acc, st.bits - to, to)]), to)
    else st
  }

  predicate Invalid(value: Int32, from: nat) { value < 0 || value / Pow2(from) != 0 }

  /** The state after the elements of the data, or nothing when one is out of range. */
  function Regrouped(data: seq<Int32>, from: nat, to: nat): Option<Regroup>
    requires to > 0
  {
    if data == [] then Some(Regroup(0, 0, []))
    else
      var last := |data| - 1;
      match Regrouped(data[..last], from, to)
      case None => None
      case Some(st) =>
        if Invalid(data[last], from) then None
        else Some(Drained(Regroup(ShiftIn(st.acc, from, data[last]), st.bits + from, st.ret), to))
  }

  /** The padding group: (acc << (to - bits)) & ((1 << to) - 1). */
  function LastGroup(st: Regroup, to: nat): (g: int)
    requires st.bits <= to
    ensures 0 <= g < Pow2(to)
  {
    DivMod(st.acc * Pow2(to - st.bits), Pow2(to));
    st.acc * Pow2(to - st.bits) % Pow2(to)
  }

  function Converted(data: seq<Int32>, from: nat, to: nat, pad: bool): seq<int>
    requires to > 0
  {
    match Regrouped(data, from, to)
    case None => []
    case Some(st) =>
      DrainedBits(data, from, to);
      if pad then
        if st.bits > 0 then st.ret + [LastGroup(st, to)] else st.ret
      else if st.bits >= from || LastGroup(st, to) != 0 then []
      else st.ret
  }

  lemma {:induction false} DrainsBelow(st: Regroup, to: nat)
    requires to > 0
    ensures Drained(st, to).bits < to
    decreases st.bits
  {
    if st.bits >= to {
      DrainsBelow(Regroup(st.acc, st.bits - to, st.ret + [Group(st.acc, st.bits - to, to)]), to);
    }
  }

  lemma {:induction false} DrainedBits(data: seq<Int32>, from: nat, to: nat)
    requires to > 0 && Regrouped(data, from, to).Some?
    ensures Regrouped(data, from, to).value.bits < to
  {
    if data != [] {
      var last := |data| - 1;
      var st := Regrouped(data[..last], from, to).value;
      DrainsBelow(Regroup(ShiftIn(st.acc, from, data[last]), st.bits + from, st.ret), to);
    }
  }

  method Drain(start: Regroup, to: nat) returns (st: Regroup)
    requires to > 0
    ensures st == Drained(start, to)
  {
    st := start;
    while st.bits >= to
      invariant Drained(st, to) == Drained(start, to)
      decreases st.bits
    {
      var bits := st.bits - to;
      st := Regroup(st.acc, bits, st.ret + [Group(st.acc, bits, to)]);
    }
  }

  method ConvertBits(data: seq<Int32>, from: nat, to: nat, pad: bool) returns (ret: seq<int>)
    requires to > 0
    ensures ret == Converted(data, from, to, pad)
  {
    hide ShiftIn, Drained, Group, Invalid;
    var st := Regroup(0, 0, []);
    var p := 0;
    while p < |data|
      invariant 0 <= p <= |data|
      invariant Regrouped(data[..p], from, to) == Some(st)
    {
      assert data[..p + 1][..p] == data[..p];
      if Invalid(data[p], from) {
        InvalidPrefix(data, p + 1, from, to);
        return [];
      }
      st := Drain(Regroup(ShiftIn(st.acc, from, data[p]), st.bits + from, st.ret), to);
      p := p + 1;
    }
    assert data[..p] == data;
    DrainedBits(data, from, to);
    ret := st.ret;
    if pad {
      if st.bits > 0 {
        ret := ret + [LastGroup(st, to)];
      }
    } else if st.bits >= from || LastGroup(st, to) != 0 {
      return [];
    }
  }

  lemma {:induction false} InvalidPrefix(data: seq<Int32>, p: nat, from: nat, to: nat)
    requires to > 0 && p <= |data| && Regrouped(data[..p], from, to).None?
    ensures Regrouped(data, from, to).None?
    decreases |data|
  {
    if p < |data| {
      var front := data[..|data| - 1];
      assert front[..p] == data[..p];
      InvalidPrefix(front, p, from, to);
    } else {
      assert data[..p] == data;
    }
  }

  // ---------- The bits as one number ----------

  /** The groups of w bits, most significant first, as one number. */
  function Number(digits: seq<int>, w: nat): int {
    if digits == [] then 0
    else Number(digits[..|digits| - 1], w) * Pow2(w) + digits[|digits| - 1]
  }

  predicate InRange(digits: seq<int>, w: nat) {
    forall j :: 0 <= j < |digits| ==> 0 <= digits[j] < Pow2(w)
  }

  lemma NumberAppend(digits: seq<int>, d: int, w: nat)
    ensures Number(digits + [d], w) == Number(digits, w) * Pow2(w) + d
  {
    assert (digits + [d])[..|digits|] == digits;
  }

  /** Digit strings of one length are determined by their number. */
  lemma {:induction false} NumberInjective(a: seq<int>, b: seq<int>, w: nat)
    requires |a| == |b| && InRange(a, w) && InRange(b, w) && Number(a, w) == Number(b, w)
    ensures a == b
  {
    if a != [] {
      var k := |a| - 1;
      DivModUnique(Number(a, w), Pow2(w), Number(a[..k], w), a[k]);
      DivModUnique(Number(b, w), Pow2(w), Number(b[..k], w), b[k]);
      NumberInjective(a[..k], b[..k], w);
      assert a == a[..k] + [a[k]] && b == b[..k] + [b[k]];
    }
  }

  /** What the state stands for: the groups so far, and the pending low bits of the accumulator. */
  function Meaning(st: Regroup, to: nat): int {
    Number(st.ret, to) * Pow2(st.bits) + st.acc % Pow2(st.bits)
  }

  lemma DrainOne(st: Regroup, to: nat)
    requires 0 < to <= st.bits
    ensures var st' := Regroup(st.acc, st.bits - to, st.ret + [Group(st.acc, st.bits - to, to)]);
            Meaning(st', to) == Meaning(st, to)
  {
    hide Number;
    var rest := st.bits - to;
    var a, b, g := Pow2(to), Pow2(rest), Group(st.acc, rest, to);
    Pow2Add(to, rest);
    ModSplit(st.acc, a, b);
    NumberAppend(st.ret, g, to);
    Distribute(Number(st.ret, to) * a, g, b);
    Associate(Number(st.ret, to), a, b);
  }

  lemma {:induction false} DrainKeeps(st: Regroup, to: nat)
    requires to > 0 && InRange(st.ret, to)
    ensures var st' := Drained(st, to);
            && Meaning(st', to) == Meaning(st, to) && InRange(st'.ret, to) && st'.bits < to
            && |st'.ret| * to + st'.bits == |st.ret| * to + st.bits
    decreases st.bits
  {
    hide Meaning, Group;
    if st.bits >= to {
      var next := Regroup(st.acc, st.bits - to, st.ret + [Group(st.acc, st.bits - to, to)]);
      DrainOne(st, to);
      DrainKeeps(next, to);
      Distribute(|st.ret|, 1, to);
    }
  }

  /** The 32-bit accumulator drops bits only above the pending ones. */
  lemma ShiftInKeeps(acc: int, bits: nat, from: nat, value: int)
    requires bits + from <= 32 && 0 <= value < Pow2(from)
    ensures ShiftIn(acc, from, value) % Pow2(bits + from) == acc % Pow2(bits) * Pow2(from) + value
  {
    hide Pow2;
    var f, b := Pow2(from), Pow2(bits);
    Pow2Add(bits, from);
    var m, n := b * f, Pow2(32 - (bits + from));
    Pow2Add(bits + from, 32 - (bits + from));
    assert Pow2(32) == 0x1_0000_0000 by { Pow2Of32(); }
    var x := acc * f;
    DivMod(x + 0x8000_0000, 0x1_0000_0000);
    var k := (x + 0x8000_0000) / 0x1_0000_0000;
    assert ToInt32(x) == x - k * (m * n);
    assert k * (m * n) == (k * n) * m;
    ModShift(x + value, -(k * n), m);
    assert -(k * n) * m == -((k * n) * m);
    DivMod(acc, b);
    Distribute(acc / b * b, acc % b, f);
    Associate(acc / b, b, f);
    Increasing(acc % b + 1, b, f);
    Increasing(0, acc % b, f);
    Distribute(acc % b, 1, f);
    DivModUnique(x + value, m, acc / b, acc % b * f + value);
  }

  lemma Pow2Of32()
    ensures Pow2(32) == 0x1_0000_0000
  {
    assert Pow2(8) == 256;
    Pow2Add(8, 8);
    Pow2Add(16, 16);
  }

  /** The groups and the pending bits are the data, as one number. */
  lemma {:induction false} RegroupMeaning(data: seq<Int32>, from: nat, to: nat)
    requires 0 < to <= 8 && 0 < from <= 8 && InRange(data, from)
    ensures var r := Regrouped(data, from, to);
            && r.Some? && Meaning(r.value, to) == Number(data, from) && InRange(r.value.ret, to)
            && r.value.bits < to && |r.value.ret| * to + r.value.bits == |data| * from
  {
    hide Drained, ShiftIn, Pow2;
    if data == [] {
      EmptyMeaning(to);
    } else {
      var last := |data| - 1;
      var value := data[last];
      RegroupMeaning(data[..last], from, to);
      var st := Regrouped(data[..last], from, to).value;
      DivModUnique(value, Pow2(from), 0, value);
      var fed := Regroup(ShiftIn(st.acc, from, value), st.bits + from, st.ret);
      FeedMeaning(st, from, to, value);
      DrainKeeps(fed, to);
      Distribute(last, 1, from);
    }
  }

  lemma EmptyMeaning(to: nat)
    ensures Meaning(Regroup(0, 0, []), to) == 0
  {
  }

  lemma FeedMeaning(st: Regroup, from: nat, to: nat, value: int)
    requires st.bits < to <= 8 && from <= 8 && 0 <= value < Pow2(from)
    ensures Meaning(Regroup(ShiftIn(st.acc, from, value), st.bits + from, st.ret), to)
            == Meaning(st, to) * Pow2(from) + value
  {
    hide Pow2, ShiftIn;
    ShiftInKeeps(st.acc, st.bits, from, value);
    Pow2Add(st.bits, from);
    Distribute(Number(st.ret, to) * Pow2(st.bits), st.acc % Pow2(st.bits), Pow2(from));
    Associate(Number(st.ret, to), Pow2(st.bits), Pow2(from));
  }

  // ---------- Regrouping there and back ----------

  /** The last group is the pending bits, filled up with zeros. */
  lemma LastGroupValue(st: Regroup, to: nat)
    requires st.bits <= to
    ensures LastGroup(st, to) == st.acc % Pow2(st.bits) * Pow2(to - st.bits)
  {
    hide Pow2;
    var b, f := Pow2(st.bits), Pow2(to - st.bits);
    Pow2Add(st.bits, to - st.bits);
    DivMod(st.acc, b);
    Distribute(st.acc / b * b, st.acc % b, f);
    Associate(st.acc / b, b, f);
    Increasing(st.acc % b + 1, b, f);
    Increasing(0, st.acc % b, f);
    Distribute(st.acc % b, 1, f);
    DivModUnique(st.acc * f, b * f, st.acc / b, st.acc % b * f);
  }

  /** Padded regrouping multiplies the number by a power of two to fill the last group. */
  lemma PaddedMeaning(data: seq<Int32>, from: nat, to: nat) returns (fill: nat)
    requires 0 < to <= 8 && 0 < from <= 8 && InRange(data, from)
    ensures var r := Converted(data, from, to, true);
            && InRange(r, to) && fill < to && |r| * to == |data| * from + fill
            && Number(r, to) == Number(data, from) * Pow2(fill)
  {
    hide Pow2, Regrouped, LastGroup, Number;
    RegroupMeaning(data, from, to);
    var st := Regrouped(data, from, to).value;
    DrainedBits(data, from, to);
    if st.bits == 0 {
      fill := 0;
      Pow2Zero();
    } else {
      fill := to - st.bits;
      FillValue(st, to);
      Distribute(|st.ret|, 1, to);
    }
  }

  lemma FillValue(st: Regroup, to: nat)
    requires st.bits <= to
    ensures Number(st.ret + [LastGroup(st, to)], to) == Meaning(st, to) * Pow2(to - st.bits)
  {
    hide Pow2, LastGroup, Number;
    LastGroupValue(st, to);
    var high, low, b, f := Number(st.ret, to), st.acc % Pow2(st.bits), Pow2(st.bits), Pow2(to - st.bits);
    NumberAppend(st.ret, LastGroup(st, to), to);
    Pow2Add(st.bits, to - st.bits);
    Distribute(high * b, low, f);
    Associate(high, b, f);
  }

  lemma Pow2Zero()
    ensures Pow2(0) == 1
  {
  }

  /** Lengths that agree up to less than a byte and less than a byte. */
  lemma SameLength(a: nat, b: nat, x: nat, y: nat, w: nat)
    requires x < w && y < w && a * w + x == b * w + y
    ensures a == b && x == y
  {
    DivModUnique(a * w + x, w, a, x);
    DivModUnique(a * w + x, w, b, y);
  }

  /** Grouping bytes into fives with padding and back gives the bytes again. */
  lemma BytesRoundTrip(data: seq<Int32>)
    requires InRange(data, 8)
    ensures InRange(Converted(data, 8, 5, true), 5)
    ensures Converted(Converted(data, 8, 5, true), 5, 8, false) == data
  {
    hide Pow2, Regrouped, LastGroup, Number;
    var fill := PaddedMeaning(data, 8, 5);
    var r := Converted(data, 8, 5, true);
    FivesAreInts(r);
    RegroupMeaning(r, 5, 8);
    var st := Regrouped(r, 5, 8).value;
    SameLength(|st.ret|, |data|, st.bits, fill, 8);
    DivMod(st.acc, Pow2(fill));
    var f := Pow2(fill);
    DivModUnique(Number(r, 5), f, Number(st.ret, 8), st.acc % f);
    DivModUnique(Number(r, 5), f, Number(data, 8), 0);
    LastGroupValue(st, 8);
    NumberInjective(st.ret, data, 8);
  }

  lemma FivesAreInts(r: seq<int>)
    requires InRange(r, 5)
    ensures forall j :: 0 <= j < |r| ==> 0 <= r[j] < 32
  {
    assert Pow2(5) == 32 by {
      assert Pow2(3) == 8;
    }
  }

  lemma BytesAreInts(r: seq<int>)
    requires InRange(r, 8)
    ensures forall j :: 0 <= j < |r| ==> 0 <= r[j] < 256
  {
    assert Pow2(8) == 256 by {
      assert Pow2(5) == 32 by {
        assert Pow2(3) == 8;
      }
    }
  }

  /** Whatever unpadded regrouping accepts is the padded regrouping of its result. */
  lemma FivesRoundTrip(r: seq<Symbol>)
    requires Converted(r, 5, 8, false) != []
    ensures InRange(Converted(r, 5, 8, false), 8)
    ensures forall j :: 0 <= j < |Converted(r, 5, 8, false)| ==> 0 <= Converted(r, 5, 8, false)[j] < 256
    ensures Converted(Converted(r, 5, 8, false), 8, 5, true) == r
  {
    hide Pow2, Regrouped, LastGroup, Number;
    SymbolsInRange(r);
    RegroupMeaning(r, 5, 8);
    var st := Regrouped(r, 5, 8).value;
    var data := Converted(r, 5, 8, false);
    assert data == st.ret && st.bits < 5 && LastGroup(st, 8) == 0;
    LastGroupValue(st, 8);
    BytesAreInts(data);
    var fill := PaddedMeaning(data, 8, 5);
    var r' := Converted(data, 8, 5, true);
    SameLength(|r'|, |r|, 5 - 1 - fill, 5 - 1 - st.bits, 5);
    ZeroFactor(st.acc % Pow2(st.bits), Pow2(8 - st.bits));
    NumberInjective(r', r, 5);
  }

  lemma ZeroFactor(a: int, b: int)
    requires b > 0 && a * b == 0
    ensures a == 0
  {
  }

  lemma SymbolsInRange(r: seq<Symbol>)
    ensures InRange(r, 5)
  {
    assert Pow2(5) == 32 by {
      assert Pow2(3) == 8;
    }
  }

  // ---------- Addresses ----------

  datatype Address = Address(version: int, program: seq<int>)

  function Read(hrp: seq<CodeUnit>, addr: seq<CodeUnit>): Option<Address> {
    var plain := Decoded(addr, BECH32);
    var bech32m := plain.None?;
    var dec := if plain.None? then Decoded(addr, BECH32M) else plain;
    if dec.None? || dec.value.hrp != hrp || |dec.value.data| < 1 || dec.value.data[0] > 16 then None
    else
      var version := dec.value.data[0];
      var res := Converted(dec.value.data[1..], 5, 8, false);
      if |res| < 2 || |res| > 40 then None
      else if version == 0 && |res| != 20 && |res| != 32 then None
      else if version == 0 && bech32m then None
      else if version != 0 && !bech32m then None
      else Some(Address(version, res))
  }

  function EncodingOf(version: Symbol): Encoding { if version > 0 then BECH32M else BECH32 }

  lemma ConvertedAreSymbols(program: seq<Int32>)
    ensures forall j :: 0 <= j < |Converted(program, 8, 5, true)| ==> 0 <= Converted(program, 8, 5, true)[j] < 32
  {
    if Regrouped(program, 8, 5).Some? {
      RegroupedInRange(program, 8, 5);
      FivesAreInts(Converted(program, 8, 5, true));
    }
  }

  lemma {:induction false} RegroupedInRange(data: seq<Int32>, from: nat, to: nat)
    requires to > 0 && Regrouped(data, from, to).Some?
    ensures InRange(Regrouped(data, from, to).value.ret, to)
  {
    hide ShiftIn, Drained;
    if data != [] {
      var last := |data| - 1;
      RegroupedInRange(data[..last], from, to);
      var st := Regrouped(data[..last], from, to).value;
      DrainKeeps(Regroup(ShiftIn(st.acc, from, data[last]), st.bits + from, st.ret), to);
    }
  }

  /** The Bech32 data of an address: the version and the program in groups of five bits. */
  function Payload(version: Symbol, program: seq<Int32>): seq<Symbol> {
    ConvertedAreSymbols(program);
    [version] + Converted(program, 8, 5, true)
  }

  function Written(hrp: seq<CodeUnit>, version: Symbol, program: seq<Int32>): seq<CodeUnit> {
    var ret := Encoded(hrp, Payload(version, program), EncodingOf(version));
    if Read(hrp, ret).None? then [] else ret
  }

  method DecodeAddress(hrp: seq<CodeUnit>, addr: seq<CodeUnit>) returns (r: Option<Address>)
    ensures r == Read(hrp, addr)
  {
    hide Decoded, Converted;
    var bech32m := false;
    var dec := Decode(addr, BECH32);
    if dec.None? {
      dec := Decode(addr, BECH32M);
      bech32m := true;
    }
    if dec.None? || dec.value.hrp != hrp || |dec.value.data| < 1 || dec.value.data[0] > 16 {
      return None;
    }
    var version := dec.value.data[0];
    var res := ConvertBits(dec.value.data[1..], 5, 8, false);
    if |res| < 2 || |res| > 40 {
      return None;
    }
    if version == 0 && |res| != 20 && |res| != 32 {
      return None;
    }
    if version == 0 && bech32m {
      return None;
    }
    if version != 0 && !bech32m {
      return None;
    }
    r := Some(Address(version, res));
  }

  method EncodeAddress(hrp: seq<CodeUnit>, version: Symbol, program: seq<Int32>) returns (ret: seq<CodeUnit>)
    ensures ret == Written(hrp, version, program)
  {
    hide Encoded, Converted, Read;
    var enc := BECH32;
    if version > 0 {
      enc := BECH32M;
    }
    var groups := ConvertBits(program, 8, 5, true);
    ConvertedAreSymbols(program);
    ret := Encode(hrp, [version] + groups, enc);
    var back := DecodeAddress(hrp, ret);
    if back.None? {
      return [];
    }
  }

  /** The programs that BIP 141 and BIP 173 allow here for a version. */
  predicate Admissible(version: Symbol, program: seq<Int32>) {
    && version <= 16 && 2 <= |program| <= 40 && InRange(program, 8)
    && (version == 0 ==> |program| == 20 || |program| == 32)
  }

  /** hrp, separator, version, groups of five bits, checksum. */
  function AddressLength(hrp: seq<CodeUnit>, program: seq<Int32>): int {
    |hrp| + 2 + (8 * |program| + 4) / 5 + 6
  }

  lemma PayloadLength(version: Symbol, program: seq<Int32>)
    requires InRange(program, 8)
    ensures |Payload(version, program)| == 1 + (8 * |program| + 4) / 5
  {
    hide Converted, Pow2;
    var fill := PaddedMeaning(program, 8, 5);
  }

  /** A string read with the encoding it was written with is not accepted with the other one. */
  lemma ReadWritten(hrp: seq<CodeUnit>, version: Symbol, program: seq<Int32>)
    requires PlainHrp(hrp) && |hrp| + 1 + |Payload(version, program)| + 6 <= 90
    ensures var s := Encoded(hrp, Payload(version, program), EncodingOf(version));
            Read(hrp, s) ==
            var res := Converted(Payload(version, program)[1..], 5, 8, false);
            if version > 16 || |res| < 2 || |res| > 40 || (version == 0 && |res| != 20 && |res| != 32) then None
            else Some(Address(version, res))
  {
    hide Decoded, Encoded, Converted, PlainHrp, Read;
    var data := Payload(version, program);
    var s := Encoded(hrp, data, EncodingOf(version));
    DecodeEncoded(hrp, data, EncodingOf(version));
    if version > 0 {
      OtherEncodingRefused(s, BECH32M, BECH32);
    }
    ReadFound(hrp, s, version, data);
  }

  lemma ReadFound(hrp: seq<CodeUnit>, s: seq<CodeUnit>, version: Symbol, data: seq<Symbol>)
    requires data != [] && data[0] == version
    requires Decoded(s, EncodingOf(version)) == Some(Contents(hrp, data))
    requires version > 0 ==> Decoded(s, BECH32).None?
    ensures Read(hrp, s) ==
            var res := Converted(data[1..], 5, 8, false);
            if version > 16 || |res| < 2 || |res| > 40 || (version == 0 && |res| != 20 && |res| != 32) then None
            else Some(Address(version, res))
  {
    hide Decoded, Converted;
  }

  lemma ReadImpliesPlain(hrp: seq<CodeUnit>, addr: seq<CodeUnit>)
    requires Read(hrp, addr).Some?
    ensures PlainHrp(hrp) && |addr| <= 90
  {
    hide Decoded, Converted, PlainHrp;
    var enc := if Decoded(addr, BECH32).Some? then BECH32 else BECH32M;
    LowerHasNoUpper(addr, enc);
    DecodedLength(addr, enc);
  }

  lemma DecodedLength(addr: seq<CodeUnit>, enc: Encoding)
    requires Decoded(addr, enc).Some?
    ensures |addr| <= 90
  {
  }

  /**
   * An address is written exactly for a plain human-readable part and an admissible program
   * that together fit in 90 characters, and then it reads back as what was written.
   */
  lemma AddressRoundTrip(hrp: seq<CodeUnit>, version: Symbol, program: seq<Int32>)
    ensures Written(hrp, version, program) != []
            <==> PlainHrp(hrp) && Admissible(version, program) && AddressLength(hrp, program) <= 90
    ensures Written(hrp, version, program) != [] ==>
              Read(hrp, Written(hrp, version, program)) == Some(Address(version, program))
  {
    hide Encoded, Converted, Read, PlainHrp, InRange;
    var data := Payload(version, program);
    var s := Encoded(hrp, data, EncodingOf(version));
    EncodedShape(hrp, data, EncodingOf(version));
    if Read(hrp, s).Some? {
      ReadImpliesPlain(hrp, s);
    }
    PayloadTail(version, program);
    if InRange(program, 8) {
      BytesRoundTrip(program);
      PayloadLength(version, program);
    } else {
      OutOfRangeIsEmpty(program);
    }
    if PlainHrp(hrp) && |s| <= 90 {
      ReadWritten(hrp, version, program);
    }
  }

  lemma PayloadTail(version: Symbol, program: seq<Int32>)
    ensures Payload(version, program)[1..] == Converted(program, 8, 5, true)
  {
    hide Converted;
  }

  lemma {:induction false} OutOfRange(data: seq<Int32>, from: nat, to: nat)
    requires to > 0 && !InRange(data, from)
    ensures Regrouped(data, from, to).None?
  {
    var last := |data| - 1;
    if 0 <= data[last] < Pow2(from) {
      OutOfRange(data[..last], from, to);
    } else if data[last] >= 0 {
      DivMod(data[last], Pow2(from));
      assert Invalid(data[last], from);
    }
  }

  lemma OutOfRangeIsEmpty(program: seq<Int32>)
    requires !InRange(program, 8)
    ensures Converted(program, 8, 5, true) == [] && Converted([], 5, 8, false) == []
  {
    OutOfRange(program, 8, 5);
  }

  /** Only one checksum completes a given part and data. */
  lemma ChecksumUnique(hrp: seq<CodeUnit>, data: seq<Symbol>, tail: seq<Symbol>, enc: Encoding)
    requires |tail| == 6 && Verifies(hrp, data + tail, enc)
    ensures tail == Checksum(hrp, data, enc)
  {
    hide Poly, HrpExpand, Checksum;
    var other := Checksum(hrp, data, enc);
    assert |other| == 6 by { ChecksumLength(hrp, data, enc); }
    ChecksumVerifies(hrp, data, enc);
    if tail != other {
      var a, b := data + tail, data + other;
      assert a[|data|..|a|] == tail && b[|data|..|a|] == other;
      DataWindow(hrp, a, b, |data|, |a|);
    }
  }

  lemma ChecksumLength(hrp: seq<CodeUnit>, data: seq<Symbol>, enc: Encoding)
    ensures |Checksum(hrp, data, enc)| == 6
  {
  }

  /** A string that decodes is, in lower case, the encoding of what it decodes to. */
  lemma EncodeDecoded(s: seq<CodeUnit>, enc: Encoding)
    requires Decoded(s, enc).Some?
    ensures var c := Decoded(s, enc).value; Encoded(c.hrp, c.data, enc) == LowerCase(s)
  {
    hide Verifies, Checksum, CharIndex, SymbolChar, Printable, LowerCase;
    var t := LowerCase(s);
    var pos := LastOne(t);
    DecodedParts(s, enc);
    var all := Symbols(t[pos + 1..]);
    var c := Decoded(s, enc).value;
    assert all == c.data + all[|c.data|..];
    ChecksumUnique(c.hrp, c.data, all[|c.data|..], enc);
    assert Chars(all) == t[pos + 1..] by { CharsOfSymbols(t[pos + 1..]); }
    assert t == t[..pos] + [t[pos]] + t[pos + 1..];
  }

  lemma CharsOfSymbols(x: seq<CodeUnit>)
    requires AllSymbols(x)
    ensures Chars(Symbols(x)) == x
  {
    hide SymbolChar;
  }

  /** Every address that reads is, in lower case, the one written for its version and program. */
  lemma AddressCanonical(hrp: seq<CodeUnit>, addr: seq<CodeUnit>)
    requires Read(hrp, addr).Some?
    ensures var a := Read(hrp, addr).value;
            && 0 <= a.version < 32 && (forall j :: 0 <= j < |a.program| ==> 0 <= a.program[j] < 256)
            && Written(hrp, a.version, a.program) == LowerCase(addr)
  {
    hide Encoded, Converted, Decoded, Admissible, PlainHrp, InRange;
    var a := Read(hrp, addr).value;
    var enc := EncodingOf(a.version);
    var c := Decoded(addr, enc).value;
    FivesRoundTrip(c.data[1..]);
    assert c.data == Payload(a.version, a.program);
    EncodeDecoded(addr, enc);
    ReadImpliesPlain(hrp, addr);
    EncodedShape(hrp, c.data, enc);
    ReadWritten(hrp, a.version, a.program);
  }
}
