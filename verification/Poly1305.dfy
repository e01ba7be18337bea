/** The Poly1305 object: what is given to update, in whatever pieces, is what finish authenticates. */
module Poly1305 {
  import opened Words
  import opened PolyMath
  import opened PolyLimbs
  import opened PolyKey
  import opened PolyBlocks
  import opened PolyFinish

  lemma NothingTaken(r: nat)
    ensures Reduced([0, 0, 0, 0, 0, 0, 0, 0, 0, 0])
    ensures Cong(Eval([0, 0, 0, 0, 0, 0, 0, 0, 0, 0]), Absorb(0, r, []))
  {
    hide Eval;
    Zeros();
  }

  lemma Joined(a: seq<Byte>, b: seq<Byte>, c: seq<Byte>)
    ensures a + b + c == a + (b + c)
  {
  }

  lemma OneBlock(a: int, acc: nat, r: nat, rest: seq<Byte>, padded: seq<Byte>)
    requires 0 < |rest| < 16 && |padded| == 16
    ensures Absorb(acc, r, rest) == (acc + BlockValue(rest)) * r % P
    ensures AbsorbBlocks(a, r, padded, true) == (a + LittleEndian(padded)) * r
  {
    hide LittleEndian, BlockValue;
    assert rest[..|rest|] == rest && padded[..16] == padded;
    var x := (acc + BlockValue(rest)) * r % P;
    assert Absorb(x, r, rest[|rest|..]) == x;
    var y := (a + LittleEndian(padded) + HighBit(true)) * r;
    assert AbsorbBlocks(y, r, padded[16..], true) == y;
  }

  class Authenticator {
    const buffer: array<Byte>
    const h: array<Word16>
    const r: seq<int>
    const pad: seq<nat>
    var leftover: nat
    var fin: bool
    ghost const key: seq<Byte>
    // everything that update was given
    ghost var message: seq<Byte>

    ghost function R(): nat
      requires |key| == 32
    {
      LittleEndian(Clamped(key[..16]))
    }

    /** What the limbs already have taken in */
    ghost function Taken(): seq<Byte>
      requires leftover <= |message|
      reads `message, `leftover
    {
      message[..|message| - leftover]
    }

    ghost predicate KeyValid() {
      && buffer.Length == 16 && h.Length == 10 && |key| == 32
      && r == KeyLimbs(WordsOf(key[..16])) && pad == WordsOf(key[16..])
    }

    ghost predicate Valid()
      reads this, buffer, h
    {
      && KeyValid() && !fin && leftover < 16 && leftover <= |message| && |Taken()| % 16 == 0
      && buffer[..leftover] == message[|message| - leftover..]
      && Reduced(h[..]) && Cong(Eval(h[..]), Absorb(0, R(), Taken()))
    }

    constructor (key: array<Byte>)
      requires key.Length >= 32
      ensures Valid() && fresh(buffer) && fresh(h) && this.key == key[..32] && message == []
    {
      hide KeyLimbs, WordsOf, Valid;
      buffer := new Byte[16];
      h := new Word16[10](i => 0);
      r := KeyLimbs(WordsOf(key[..16]));
      pad := WordsOf(key[16..32]);
      leftover, fin := 0, false;
      this.key := key[..32];
      message := [];
      new;
      assert h[..] == [0, 0, 0, 0, 0, 0, 0, 0, 0, 0];
      assert this.key[..16] == key[..16] && this.key[16..] == key[16..32];
      StartsValid();
    }

    lemma StartsValid()
      requires KeyValid() && leftover == 0 && !fin && message == []
      requires h[..] == [0, 0, 0, 0, 0, 0, 0, 0, 0, 0]
      ensures Valid()
    {
      hide KeyValid, Eval, Cong, Absorb, Clamped, LittleEndian, Reduced;
      Sizes();
      assert Taken() == [] && buffer[..0] == message[0..];
      NothingTaken(R());
    }

    /** The limbs of the key stand for the clamped number of the standard. */
    lemma KeyNumber()
      requires KeyValid()
      ensures Small(r, 0x2000) && Eval(r) == R()
    {
      hide Eval, KeyLimbs, WordsOf, Limbs;
      var k := key[..16];
      KeyLimbsAreClamped(WordsOf(k));
      ClampedWordsOf(k);
      WordsOfValue(Clamped(k));
      LimbsValue(WordsOf(Clamped(k)), 0);
      LimbsBound(WordsOf(Clamped(k)), 0);
    }

    lemma Sizes()
      requires KeyValid()
      ensures h.Length == 10 && buffer.Length == 16 && |key| == 32
      ensures AreWords(pad) && WordsValue(pad) == LittleEndian(key[16..])
    {
      hide WordsValue, LittleEndian, KeyLimbs;
      WordsOfValue(key[16..]);
    }

    method Blocks(m: array<Byte>, mpos: nat, bytes: nat)
      requires KeyValid() && mpos + bytes <= m.Length && Reduced(h[..])
      modifies h
      ensures Reduced(h[..])
      ensures Cong(Eval(h[..]), AbsorbBlocks(old(Eval(h[..])), R(), m[mpos..mpos + bytes], fin))
    {
      hide Eval, Cong, AbsorbBlocks, LittleEndian, Clamped, KeyLimbs, WordsOf, KeyValid;
      KeyNumber();
      ghost var was: seq<int> := h[..];
      var part := m[mpos..mpos + bytes];
      var d := AddBlocks(h[..], r, part, fin);
      Sizes();
      forall i | 0 <= i < 10 {
        h[i] := d[i];
      }
      assert h[..] == d && m[mpos..mpos + bytes] == part;
      assert Cong(Eval(h[..]), AbsorbBlocks(Eval(was), R(), part, fin));
    }

    /** Full blocks that follow what the limbs have taken are taken too. */
    lemma BlocksTaken(a: int, b: int, taken: seq<Byte>, more: seq<Byte>)
      requires KeyValid() && |taken| % 16 == 0 && |more| % 16 == 0
      requires Cong(a, Absorb(0, R(), taken)) && Cong(b, AbsorbBlocks(a, R(), more, false))
      ensures Cong(b, Absorb(0, R(), taken + more))
    {
      hide Cong, Absorb, AbsorbBlocks, Clamped, LittleEndian, KeyValid;
      Sizes();
      AbsorbAppend(0, R(), taken, more);
      BlocksAbsorb(a, Absorb(0, R(), taken), R(), more);
      CongTrans(b, AbsorbBlocks(a, R(), more, false), Absorb(Absorb(0, R(), taken), R(), more));
    }

    /** The state between two steps of update: all of the message but the bytes in the buffer is taken. */
    ghost predicate Holds(taken: seq<Byte>, rest: seq<Byte>)
      reads `leftover, `fin, buffer, h
    {
      && KeyValid() && !fin && leftover <= 16 && |taken| % 16 == 0
      && buffer[..leftover] == rest
      && Reduced(h[..]) && Cong(Eval(h[..]), Absorb(0, R(), taken))
    }

    lemma Opens()
      requires Valid()
      ensures Holds(Taken(), message[|message| - leftover..])
    {
      hide Cong, Absorb, Eval, KeyValid, Reduced;
    }

    lemma Closes(taken: seq<Byte>, rest: seq<Byte>)
      requires Holds(taken, rest) && leftover < 16 && message == taken + rest
      ensures Valid()
    {
      hide Cong, Absorb, Eval, Reduced;
      assert Taken() == taken && message[|message| - leftover..] == rest;
    }

    /** Bytes are put behind those in the buffer. */
    method Fill(m: array<Byte>, mpos: nat, count: nat, ghost taken: seq<Byte>, ghost rest: seq<Byte>)
      requires Holds(taken, rest) && m != buffer && mpos + count <= m.Length && leftover + count <= 16
      modifies buffer, `leftover
      ensures Holds(taken, rest + m[mpos..mpos + count]) && leftover == old(leftover) + count
    {
      hide Cong, Absorb, Eval, KeyValid;
      Sizes();
      var i := 0;
      while i < count
        invariant 0 <= i <= count && leftover == old(leftover)
        invariant buffer[..leftover] == rest
        invariant forall j :: leftover <= j < leftover + i ==> buffer[j] == m[mpos + (j - leftover)]
      {
        buffer[leftover + i] := m[mpos + i];
        i := i + 1;
      }
      leftover := leftover + count;
      assert buffer[..leftover] == rest + m[mpos..mpos + count];
    }

    /** The buffer is full and is taken. */
    method TakeBuffer(ghost taken: seq<Byte>, ghost rest: seq<Byte>)
      requires Holds(taken, rest) && leftover == 16
      modifies h, `leftover
      ensures Holds(taken + rest, []) && leftover == 0
    {
      hide Cong, Absorb, AbsorbBlocks, Eval, KeyValid, Reduced;
      Sizes();
      ghost var was: seq<int> := h[..];
      Blocks(buffer, 0, 16);
      BlocksTaken(Eval(was), Eval(h[..]), taken, rest);
      leftover := 0;
    }

    /** Full blocks of a message are taken directly. */
    method TakeBlocks(m: array<Byte>, mpos: nat, count: nat, ghost taken: seq<Byte>)
      requires Holds(taken, []) && leftover == 0 && mpos + count <= m.Length && count % 16 == 0
      modifies h
      ensures Holds(taken + m[mpos..mpos + count], [])
    {
      hide Cong, Absorb, AbsorbBlocks, Eval, KeyValid, Reduced;
      Sizes();
      ghost var was: seq<int> := h[..];
      Blocks(m, mpos, count);
      BlocksTaken(Eval(was), Eval(h[..]), taken, m[mpos..mpos + count]);
    }

    lemma NotEmpty(taken: seq<Byte>, rest: seq<Byte>)
      requires Holds(taken, rest)
      ensures leftover == |rest|
    {
      hide Cong, Absorb, Eval, Reduced;
    }

    /** update, first part: what is left over from before is filled up, and taken if the block is full. */
    method FillUp(m: array<Byte>, mpos: nat, bytes: nat, ghost taken: seq<Byte>, ghost rest: seq<Byte>)
      returns (want: nat, ghost newTaken: seq<Byte>, ghost newRest: seq<Byte>)
      requires Holds(taken, rest) && m != buffer && mpos + bytes <= m.Length && 0 < leftover < 16
      modifies buffer, h, `leftover
      ensures want <= bytes && Holds(newTaken, newRest) && newTaken + newRest == taken + rest + m[mpos..mpos + want]
      ensures leftover < 16 && if leftover == 0 then newRest == [] else want == bytes
    {
      hide Holds;
      want := 16 - leftover;
      if want > bytes {
        want := bytes;
      }
      Fill(m, mpos, want, taken, rest);
      newTaken, newRest := taken, rest + m[mpos..mpos + want];
      if leftover == 16 {
        TakeBuffer(newTaken, newRest);
        newTaken, newRest := newTaken + newRest, [];
      } else {
        NotEmpty(newTaken, newRest);
      }
      assert newTaken + newRest == taken + rest + m[mpos..mpos + want];
    }

    /** update, second part: full blocks are taken, and what remains is kept. */
    method TakeAndKeep(m: array<Byte>, start: nat, count: nat, ghost taken: seq<Byte>)
      returns (ghost newTaken: seq<Byte>, ghost newRest: seq<Byte>)
      requires Holds(taken, []) && leftover == 0 && m != buffer && start + count <= m.Length
      modifies buffer, h, `leftover
      ensures Holds(newTaken, newRest) && leftover < 16 && newTaken + newRest == taken + m[start..start + count]
    {
      hide Holds;
      var mpos, bytes := start, count;
      newTaken, newRest := taken, [];
      if bytes >= 16 {
        var want := bytes - bytes % 16;
        TakeBlocks(m, mpos, want, taken);
        newTaken := taken + m[mpos..mpos + want];
        mpos := mpos + want;
        bytes := bytes - want;
      }
      if bytes > 0 {
        Fill(m, mpos, bytes, newTaken, newRest);
        newRest := newRest + m[mpos..mpos + bytes];
      }
      assert newTaken + newRest == taken + m[start..start + count];
    }

    method Update(m: array<Byte>, mpos: nat, bytes: nat)
      requires Valid() && m != buffer && mpos + bytes <= m.Length
      modifies this, buffer, h
      ensures Valid() && message == old(message) + m[mpos..mpos + bytes]
    {
      hide Holds, Cong, Absorb, Eval, KeyValid, Reduced;
      ghost var taken, rest := Taken(), message[|message| - leftover..];
      ghost var all := message + m[mpos..mpos + bytes];
      Opens();
      assert taken + rest == message;
      var want := 0;
      if leftover > 0 {
        want, taken, rest := FillUp(m, mpos, bytes, taken, rest);
      } else {
        assert rest == [] && m[mpos..mpos] == [];
      }
      assert taken + rest == message + m[mpos..mpos + want];
      if leftover == 0 {
        ghost var first, second := m[mpos..mpos + want], m[mpos + want..mpos + want + (bytes - want)];
        assert taken == message + first && m[mpos..mpos + bytes] == first + second;
        taken, rest := TakeAndKeep(m, mpos + want, bytes - want, taken);
        Joined(message, first, second);
      }
      assert taken + rest == all;
      message := all;
      Closes(taken, rest);
    }

    /** The last block gets its bit and zeros behind it. */
    method TakeRest(ghost taken: seq<Byte>, ghost rest: seq<Byte>)
      requires Holds(taken, rest) && 0 < leftover < 16
      modifies this, buffer, h
      ensures KeyValid() && Reduced(h[..]) && Cong(Eval(h[..]), Absorb(0, R(), taken + rest))
    {
      hide Cong, Absorb, AbsorbBlocks, Eval, Reduced, LittleEndian, Clamped, KeyValid;
      Sizes();
      ghost var was: seq<int> := h[..];
      var i := leftover;
      buffer[i] := 1;
      i := i + 1;
      while i < 16
        invariant leftover == old(leftover) < i <= 16 && h[..] == was
        invariant buffer[..leftover] == rest && buffer[leftover] == 1
        invariant forall j :: leftover < j < i ==> buffer[j] == 0
      {
        buffer[i] := 0;
        i := i + 1;
      }
      fin := true;
      Blocks(buffer, 0, 16);
      LastBlock(Eval(was), Eval(h[..]), taken, rest, buffer[..]);
    }

    lemma LastBlock(a: int, b: int, taken: seq<Byte>, rest: seq<Byte>, padded: seq<Byte>)
      requires KeyValid() && |taken| % 16 == 0 && 0 < |rest| < 16 && |padded| == 16
      requires padded[..|rest|] == rest && padded[|rest|] == 1 && forall j :: |rest| < j < 16 ==> padded[j] == 0
      requires Cong(a, Absorb(0, R(), taken)) && Cong(b, AbsorbBlocks(a, R(), padded[0..16], true))
      ensures Cong(b, Absorb(0, R(), taken + rest))
    {
      hide Cong, LittleEndian, Clamped, KeyValid, AbsorbBlocks, Absorb, BlockValue;
      Sizes();
      var acc := Absorb(0, R(), taken);
      var v := LittleEndian(padded);
      assert padded[0..16] == padded;
      assert v == BlockValue(rest) by { ShortBlock(rest, padded); }
      AbsorbAppend(0, R(), taken, rest);
      OneBlock(a, acc, R(), rest, padded);
      CongShift(a, acc, v);
      CongTimes(a + v, acc + v, R());
      CongTrans(b, (a + v) * R(), (acc + v) * R());
      CongRemainder(b, (acc + v) * R());
    }

    method Finish(mac: array<Byte>, macpos: nat)
      requires Valid() && mac != buffer && macpos + 16 <= mac.Length
      modifies this, buffer, h, mac
      ensures LittleEndian(mac[macpos..macpos + 16]) == Tag(key, old(message))
      ensures mac[..macpos] == old(mac[..macpos]) && mac[macpos + 16..] == old(mac[macpos + 16..])
    {
      hide Holds, Cong, Absorb, Eval, Reduced, LittleEndian, Clamped, KeyValid, Words16, WordsValue, Stands, Normal, WordsOf;
      ghost var all := message;
      Opens();
      ghost var taken, rest := Taken(), message[|message| - leftover..];
      assert taken + rest == all;
      if leftover > 0 {
        TakeRest(taken, rest);
      } else {
        assert rest == [] && taken == all;
      }
      Sizes();
      assert Reduced(h[..]) && Cong(Eval(h[..]), Absorb(0, R(), all));
      ghost var taking: int := Eval(h[..]);
      CarryAll(h);
      ghost var carried: int := Eval(h[..]);
      ghost var clean := Freeze(h);
      ghost var limbs: seq<int> := h[..];
      AbsorbRange(0, R(), all);
      FullyReduced(taking, carried, Absorb(0, R(), all));
      Pack(h);
      WordsStand(limbs, clean);
      AddPad(h, pad);
      SumOfParts(Absorb(0, R(), all), WordsValue(pad));
      Write(h, mac, macpos);
    }
  }

  lemma FullyReduced(taking: int, carried: int, acc: nat)
    requires Cong(taking, acc) && Cong(carried, taking) && acc < P
    ensures carried % P == acc
  {
    CongTrans(carried, taking, acc);
    CongSame(carried, acc);
  }

  lemma SumOfParts(a: nat, b: nat)
    ensures (a % TWO_128 + b) % TWO_128 == (a + b) % TWO_128
  {
  }

  lemma {:induction false} AbsorbRange(a: nat, r: nat, m: seq<Byte>)
    requires a < P
    ensures Absorb(a, r, m) < P
    decreases |m|
  {
    if m != [] {
      var n := Min(16, |m|);
      AbsorbRange((a + BlockValue(m[..n])) * r % P, r, m[n..]);
    }
  }

  lemma {:induction false} ZerosBehind(zeros: seq<Byte>)
    requires forall j :: 0 <= j < |zeros| ==> zeros[j] == 0
    ensures LittleEndian(zeros) == 0
  {
    if zeros != [] {
      ZerosBehind(zeros[1..]);
    }
  }

  lemma ShortBlock(b: seq<Byte>, padded: seq<Byte>)
    requires |b| < |padded| && padded[..|b|] == b && padded[|b|] == 1
    requires forall j :: |b| < j < |padded| ==> padded[j] == 0
    ensures LittleEndian(padded) == BlockValue(b)
  {
    PaddedValue(b, padded);
  }

  /** The byte behind a short block is the bit above it. */
  lemma {:induction false} PaddedValue(b: seq<Byte>, padded: seq<Byte>)
    requires |b| < |padded| && padded[..|b|] == b && padded[|b|] == 1
    requires forall j :: |b| < j < |padded| ==> padded[j] == 0
    ensures LittleEndian(padded) == LittleEndian(b) + Above(|b|)
  {
    if b == [] {
      ZerosBehind(padded[1..]);
    } else {
      assert padded[1..][..|b| - 1] == b[1..];
      PaddedValue(b[1..], padded[1..]);
    }
  }
}
