/** The one-time authenticator of RFC 8439, section 2.5, and how the key becomes limbs. */
module PolyKey {
  import opened Words
  import opened PolyMath
  import opened PolyLimbs

  // ---------- The standard ----------

  /** clamp: the top four bits of bytes 3, 7, 11, 15 and the bottom two of bytes 4, 8, 12 are cleared. */
  function Clamped(k: seq<Byte>): (r: seq<Byte>)
    requires |k| == 16
    ensures |r| == 16
  {
    [k[0], k[1], k[2], k[3] % 16, k[4] - k[4] % 4, k[5], k[6], k[7] % 16,
     k[8] - k[8] % 4, k[9], k[10], k[11] % 16, k[12] - k[12] % 4, k[13], k[14], k[15] % 16]
  }

  /** 256^n */
  function Above(n: nat): nat { if n == 0 then 1 else 0x100 * Above(n - 1) }

  /** A block with the bit above it */
  function BlockValue(b: seq<Byte>): nat { LittleEndian(b) + Above(|b|) }

  function Min(a: nat, b: nat): nat { if a < b then a else b }

  /** The accumulator after a message */
  function Absorb(a: nat, r: nat, m: seq<Byte>): nat
    decreases |m|
  {
    if m == [] then a
    else
      var n := Min(16, |m|);
      Absorb((a + BlockValue(m[..n])) * r % P, r, m[n..])
  }

  const TWO_128 := 0x1_00000000_00000000_00000000_00000000

  /** The tag, as a number of 128 bits */
  function Tag(key: seq<Byte>, m: seq<Byte>): nat
    requires |key| == 32
  {
    (Absorb(0, LittleEndian(Clamped(key[..16])), m) + LittleEndian(key[16..])) % TWO_128
  }

  lemma {:induction false} AbsorbAppend(a: nat, r: nat, m: seq<Byte>, b: seq<Byte>)
    requires |m| % 16 == 0
    ensures Absorb(a, r, m + b) == Absorb(Absorb(a, r, m), r, b)
    decreases |m|
  {
    if m == [] {
      assert m + b == b;
    } else {
      assert (m + b)[..16] == m[..16] && (m + b)[16..] == m[16..] + b;
      AbsorbAppend((a + BlockValue(m[..16])) * r % P, r, m[16..], b);
    }
  }

  // ---------- Words of sixteen bytes ----------

  function WordsOf(b: seq<Byte>): (t: seq<nat>)
    requires |b| == 16
    ensures AreWords(t)
  {
    [Word(b[0], b[1]), Word(b[2], b[3]), Word(b[4], b[5]), Word(b[6], b[7]),
     Word(b[8], b[9]), Word(b[10], b[11]), Word(b[12], b[13]), Word(b[14], b[15])]
  }

  lemma TwoBytes(b: seq<Byte>, i: nat)
    requires i + 2 <= |b|
    ensures LittleEndian(b[i..]) == b[i] + 0x100 * b[i + 1] + 0x10000 * LittleEndian(b[i + 2..])
  {
    assert b[i..][1..] == b[i + 1..] && b[i + 1..][1..] == b[i + 2..];
  }

  lemma WordsOfValue(b: seq<Byte>)
    requires |b| == 16
    ensures WordsValue(WordsOf(b)) == LittleEndian(b)
  {
    hide LittleEndian, Or, Shl;
    assert b == b[0..];
    TwoBytes(b, 0);
    TwoBytes(b, 2);
    TwoBytes(b, 4);
    TwoBytes(b, 6);
    TwoBytes(b, 8);
    TwoBytes(b, 10);
    TwoBytes(b, 12);
    TwoBytes(b, 14);
    assert LittleEndian(b[16..]) == 0 by { NoBytes(b[16..]); }
  }

  lemma NoBytes(b: seq<Byte>)
    requires b == []
    ensures LittleEndian(b) == 0
  {
  }

  // ---------- The key ----------

  /** The limbs of the first half of the key, with the masks of the constructor. */
  function KeyLimbs(t: seq<nat>): (l: seq<int>)
    requires |t| == 8
    ensures |l| == 10
  {
    [
      t[0] % 0x2000,
      Or(t[0] / 0x2000, Shl(t[1], 3)) % 0x2000,
      And(Or(t[1] / 0x400, Shl(t[2], 6)), 0x1f03),
      Or(t[2] / 0x80, Shl(t[3], 9)) % 0x2000,
      And(Or(t[3] / 0x10, Shl(t[4], 12)), 0x00ff),
      And(t[4] / 2, 0x1ffe),
      Or(t[4] / 0x4000, Shl(t[5], 2)) % 0x2000,
      And(Or(t[5] / 0x800, Shl(t[6], 5)), 0x1f81),
      Or(t[6] / 0x100, Shl(t[7], 8)) % 0x2000,
      And(t[7] / 0x20, 0x007f)
    ]
  }

  function ClampedWords(t: seq<nat>): (c: seq<nat>)
    requires AreWords(t)
    ensures AreWords(c)
  {
    [t[0], t[1] % 0x1000, t[2] - t[2] % 4, t[3] % 0x1000, t[4] - t[4] % 4, t[5] % 0x1000, t[6] - t[6] % 4, t[7] % 0x1000]
  }

  lemma ClampedWordsOf(k: seq<Byte>)
    requires |k| == 16
    ensures ClampedWords(WordsOf(k)) == WordsOf(Clamped(k))
  {
    hide Word;
    WordIs();
    var t, u := ClampedWords(WordsOf(k)), WordsOf(Clamped(k));
    HighByte(k[2], k[3]);
    HighByte(k[6], k[7]);
    HighByte(k[10], k[11]);
    HighByte(k[14], k[15]);
    LowByte(k[4], k[5]);
    LowByte(k[8], k[9]);
    LowByte(k[12], k[13]);
  }

  lemma WordIs()
    ensures forall a: Byte, b: Byte :: Word(a, b) == a + 0x100 * b
  {
  }

  lemma HighByte(a: Byte, b: Byte)
    ensures (a + 0x100 * b) % 0x1000 == a + 0x100 * (b % 16)
  {
  }

  lemma LowByte(a: Byte, b: Byte)
    ensures (a + 0x100 * b) % 4 == a % 4
  {
  }

  // The low bits of a number.

  lemma Low1(v: nat)
    ensures And(v, 1) == v % 2
  {
    hide And, Shl;
    ShlValues(1);
    ShlValues(v / 2);
    AndLow(v % 2, v / 2, 1);
  }

  lemma Low2(v: nat)
    ensures And(v, 3) == v % 4
  {
    hide And, Shl;
    ShlValues(1);
    ShlValues(v / 4);
    AndLow(v % 4, v / 4, 2);
  }

  lemma Low5(v: nat)
    ensures And(v, 31) == v % 32
  {
    hide And, Shl;
    ShlValues(1);
    ShlValues(v / 32);
    AndLow(v % 32, v / 32, 5);
  }

  lemma Low6(v: nat)
    ensures And(v, 63) == v % 64
  {
    hide And, Shl;
    ShlValues(1);
    ShlValues(v / 64);
    AndLow(v % 64, v / 64, 6);
  }

  lemma Low7(v: nat)
    ensures And(v, 0x7f) == v % 0x80
  {
    hide And, Shl;
    ShlValues(1);
    ShlValues(v / 0x80);
    AndLow(v % 0x80, v / 0x80, 7);
  }

  lemma Low8(v: nat)
    ensures And(v, 0xff) == v % 0x100
  {
    hide And, Shl;
    ShlValues(1);
    ShlValues(v / 0x100);
    AndLow(v % 0x100, v / 0x100, 8);
  }

  lemma Low12(v: nat)
    ensures And(v, 0xfff) == v % 0x1000
  {
    hide And, Shl;
    ShlValues(1);
    ShlValues(v / 0x1000);
    AndLow(v % 0x1000, v / 0x1000, 12);
  }

  /** A mask whose last two bits are 0 */
  lemma AndUpper(u: nat, mask: nat)
    ensures And(u, 4 * mask) == 4 * And(u / 4, mask)
  {
    hide And, Shl;
    ShlValues(1);
    ShlValues(u / 4);
    ShlValues(mask);
    ShlValues(And(u / 4, mask));
    AndSplits(u % 4, u / 4, 0, mask, 2);
    AndZero(u % 4);
  }

  lemma Mask2(t: nat, u: nat)
    requires t < 0x10000
    ensures And(Or(t / 0x400, Shl(u, 6)), 0x1f03) == t / 0x400 % 4 + 0x40 * (4 * (u / 4 % 32))
  {
    hide Or, And, Shl;
    ShlValues(1);
    ShlValues(u);
    ShlValues(0x7c);
    ShlValues(And(u, 0x7c));
    OrAdds(t / 0x400, u, 6);
    AndSplits(t / 0x400, u, 3, 0x7c, 6);
    Low2(t / 0x400);
    AndUpper(u, 31);
    Low5(u / 4);
  }

  lemma Mask4(t: nat, u: nat)
    requires t < 0x10000
    ensures And(Or(t / 0x10, Shl(u, 12)), 0xff) == t / 0x10 % 0x100
  {
    hide Or, And, Shl;
    ShlValues(1);
    ShlValues(u);
    ShlValues(0);
    OrAdds(t / 0x10, u, 12);
    AndSplits(t / 0x10, u, 0xff, 0, 12);
    AndZero(u);
    Low8(t / 0x10);
  }

  lemma Mask5(t: nat)
    ensures And(t / 2, 0x1ffe) == 2 * (t / 4 % 0x1000)
  {
    hide And, Shl;
    ShlValues(1);
    ShlValues(t / 4);
    ShlValues(0xfff);
    ShlValues(And(t / 4, 0xfff));
    AndSplits(t / 2 % 2, t / 4, 0, 0xfff, 1);
    AndZero(t / 2 % 2);
    Low12(t / 4);
  }

  lemma Mask7(t: nat, u: nat)
    requires t < 0x10000
    ensures And(Or(t / 0x800, Shl(u, 5)), 0x1f81) == t / 0x800 % 2 + 0x20 * (4 * (u / 4 % 64))
  {
    hide Or, And, Shl;
    ShlValues(1);
    ShlValues(u);
    ShlValues(0xfc);
    ShlValues(And(u, 0xfc));
    OrAdds(t / 0x800, u, 5);
    AndSplits(t / 0x800, u, 1, 0xfc, 5);
    Low1(t / 0x800);
    AndUpper(u, 63);
    Low6(u / 4);
  }

  lemma LowTwelve(t: nat)
    ensures t % 0x1000 % 0x400 == t % 0x400 && t % 0x1000 / 0x400 == t / 0x400 % 4
    ensures t % 0x1000 % 0x10 == t % 0x10 && t % 0x1000 / 0x10 == t / 0x10 % 0x100
    ensures t % 0x1000 % 0x800 == t % 0x800 && t % 0x1000 / 0x800 == t / 0x800 % 2
    ensures t % 0x1000 % 0x20 == t % 0x20 && t % 0x1000 / 0x20 == t / 0x20 % 0x80
  {
    CutRemainder(t, 0x400, 4);
    CutRemainder(t, 0x10, 0x100);
    CutRemainder(t, 0x800, 2);
    CutRemainder(t, 0x20, 0x80);
  }

  /** Four times v, by four times m */
  lemma FourTimes(v: nat, m: nat)
    requires m > 0
    ensures 4 * v % (4 * m) == 4 * (v % m) && 4 * v / (4 * m) == v / m
  {
    assert 4 * v == 4 * m * (v / m) + 4 * (v % m) by {
      assert v == m * (v / m) + v % m;
      assert 4 * m * (v / m) == 4 * (m * (v / m));
    }
    Divides(4 * v, 4 * m, v / m, 4 * (v % m));
  }

  lemma NoLowTwo(u: nat)
    ensures (u - u % 4) % 2 == 0
    ensures (u - u % 4) % 0x80 == 4 * (u / 4 % 32) && (u - u % 4) / 0x80 == u / 0x80
    ensures (u - u % 4) % 0x100 == 4 * (u / 4 % 64) && (u - u % 4) / 0x100 == u / 0x100
    ensures (u - u % 4) / 2 % 0x2000 == 2 * (u / 4 % 0x1000) && (u - u % 4) / 0x4000 == u / 0x4000
  {
    var v := u / 4;
    assert u - u % 4 == 4 * v;
    FourTimes(v, 32);
    FourTimes(v, 64);
    FourTimes(v, 0x1000);
    CutRemainder(u, 4, 32);
    CutRemainder(u, 4, 64);
    CutRemainder(u, 4, 0x1000);
    assert 4 * v / 2 == 2 * v;
    CutRemainder(4 * v, 2, 0x2000);
  }

  /** The masks on the limbs clear exactly what the standard clears in the bytes. */
  lemma KeyLimbsAreClamped(t: seq<nat>)
    requires AreWords(t)
    ensures KeyLimbs(t) == Limbs(ClampedWords(t), 0)
  {
    hide Or, And, Shl, Limbs;
    LimbSums(ClampedWords(t), 0);
    Joined3(t[0], t[1]);
    Mask2(t[1], t[2]);
    Joined9(t[2], t[3]);
    Mask4(t[3], t[4]);
    Mask5(t[4]);
    Joined2(t[4], t[5]);
    Mask7(t[5], t[6]);
    Joined8(t[6], t[7]);
    Low7(t[7] / 0x20);
    SameLimbs(KeyLimbs(t), Limbs(ClampedWords(t), 0), t);
  }

  lemma SameLimbs(k: seq<int>, l: seq<int>, t: seq<nat>)
    requires |k| == |l| == 10 && AreWords(t)
    requires k[0] == t[0] % 0x2000 && k[1] == t[0] / 0x2000 + 8 * (t[1] % 0x400)
    requires k[2] == t[1] / 0x400 % 4 + 0x40 * (4 * (t[2] / 4 % 32)) && k[3] == t[2] / 0x80 + 0x200 * (t[3] % 0x10)
    requires k[4] == t[3] / 0x10 % 0x100 && k[5] == 2 * (t[4] / 4 % 0x1000)
    requires k[6] == t[4] / 0x4000 + 4 * (t[5] % 0x800)
    requires k[7] == t[5] / 0x800 % 2 + 0x20 * (4 * (t[6] / 4 % 64)) && k[8] == t[6] / 0x100 + 0x100 * (t[7] % 0x20)
    requires k[9] == t[7] / 0x20 % 0x80
    requires var c := ClampedWords(t);
             && l[0] == c[0] % 0x2000 && l[1] == c[0] / 0x2000 + 8 * (c[1] % 0x400)
             && l[2] == c[1] / 0x400 + 0x40 * (c[2] % 0x80) && l[3] == c[2] / 0x80 + 0x200 * (c[3] % 0x10)
             && l[4] == c[3] / 0x10 + 0x1000 * (c[4] % 2) && l[5] == c[4] / 2 % 0x2000
             && l[6] == c[4] / 0x4000 + 4 * (c[5] % 0x800) && l[7] == c[5] / 0x800 + 0x20 * (c[6] % 0x100)
             && l[8] == c[6] / 0x100 + 0x100 * (c[7] % 0x20) && l[9] == c[7] / 0x20
    ensures k == l
  {
    LowTwelve(t[1]);
    NoLowTwo(t[2]);
    LowTwelve(t[3]);
    NoLowTwo(t[4]);
    LowTwelve(t[5]);
    NoLowTwo(t[6]);
    LowTwelve(t[7]);
  }
}
