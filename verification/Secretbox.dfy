/** Secret boxes as they are made: in buffers, part of which first holds the one-time key and then the tag. */
module Secretbox {
  import opened Wrappers
  import opened Words
  import opened PolyLimbs
  import opened PolyKey
  import opened SecretboxSpec
  import Poly1305

  // ---------- The key stream ----------

  /** 256^i times a carry out of byte i, where one was added to byte 8 */
  lemma CounterStep(low: nat, p: nat, u: nat, before: nat, x: nat)
    requires low + p * u == before + 1
    ensures low + p * ((u + x) % 0x100) + 0x100 * p * ((u + x) / 0x100) == before + p * x + 1
  {
    var f := u + x;
    assert f == f % 0x100 + 0x100 * (f / 0x100);
    assert p * f == p * (f % 0x100) + p * (0x100 * (f / 0x100));
    assert p * (0x100 * (f / 0x100)) == 0x100 * p * (f / 0x100);
    assert p * (u + x) == p * u + p * x;
  }

  lemma {:induction false} LittleEndianSnoc(b: seq<Byte>, x: Byte)
    ensures LittleEndian(b + [x]) == LittleEndian(b) + Above(|b|) * x && Above(|b| + 1) == 0x100 * Above(|b|)
  {
    if b == [] {
      assert [] + [x] == [x] && [x][1..] == [];
    } else {
      assert (b + [x])[1..] == b[1..] + [x];
      LittleEndianSnoc(b[1..], x);
      var p := Above(|b| - 1);
      assert 0x100 * (p * x) == 0x100 * p * x;
    }
  }

  lemma AboveEight()
    ensures Above(8) == TWO_64 && Above(0) == 1
  {
    assert Above(4) == 0x1_0000_0000;
  }

  lemma CounterValue(block: nat, was: seq<Byte>, now: seq<Byte>, u: nat)
    requires |was| == 8 && |now| == 8 && was == ToBytes(block % TWO_64, 8)
    requires LittleEndian(now) + TWO_64 * u == LittleEndian(was) + 1
    ensures now == ToBytes((block + 1) % TWO_64, 8)
  {
    hide ToBytes, LittleEndian, Above;
    AboveEight();
    ToBytesValue(block % TWO_64, 8);
    BytesOfValue(now);
    assert LittleEndian(now) == (block + 1) % TWO_64;
  }

  /** The number of the next block, in the last eight bytes of the input */
  method NextBlock(z: array<Byte>, ghost n: seq<Byte>, ghost block: nat)
    requires z.Length == 16 && |n| == 8 && z[..] == BlockInput(n, block)
    modifies z
    ensures z[..] == BlockInput(n, block + 1)
  {
    hide LittleEndian, Above, ToBytes;
    ghost var was := z[..];
    var u: int := 1;
    var i := 8;
    assert was[..8] == n && was[8..] == ToBytes(block % TWO_64, 8);
    assert z[8..8] == [] && was[8..8] == [];
    AboveEight();
    assert LittleEndian([]) == 0 by { NoBytes([]); }
    while i < 16
      invariant 8 <= i <= 16 && 0 <= u <= 1
      invariant z[..8] == was[..8] && z[i..] == was[i..]
      invariant LittleEndian(z[8..i]) + Above(i - 8) * u == LittleEndian(was[8..i]) + 1
    {
      ghost var low, carry := z[8..i], u;
      u := u + z[i];
      z[i] := u % 0x100;
      u := u / 0x100;
      assert was[i] == was[i..][0];
      assert z[8..i + 1] == low + [z[i]] && was[8..i + 1] == was[8..i] + [was[i]];
      LittleEndianSnoc(low, z[i]);
      LittleEndianSnoc(was[8..i], was[i]);
      CounterStep(LittleEndian(low), Above(i - 8), carry, LittleEndian(was[8..i]), was[i]);
      i := i + 1;
    }
    assert z[8..16] == z[8..] && was[8..16] == was[8..];
    CounterValue(block, was[8..], z[8..], u);
    assert z[..] == z[..8] + z[8..];
  }

  /** core_salsa20 */
  method CoreSalsa20(s: Salsa, x: array<Byte>, z: array<Byte>, k: seq<Byte>)
    requires x.Length == 64 && x != z
    modifies x
    ensures forall i :: 0 <= i < 64 ==> x[i] == s.core(z[..], k, i)
  {
    var input := z[..];
    forall i | 0 <= i < 64 {
      x[i] := s.core(input, k, i);
    }
    assert z[..] == input;
  }

  lemma BlockByte(s: Salsa, n: seq<Byte>, k: seq<Byte>, block: nat, j: nat)
    requires |n| == 8 && j < 64
    ensures Salsa20Byte(s, n, k, 64 * block + j) == s.core(BlockInput(n, block), k, j)
  {
    assert (64 * block + j) / 64 == block && (64 * block + j) % 64 == j;
  }

  method StartBlocks(n: seq<Byte>) returns (z: array<Byte>)
    requires |n| == 8
    ensures fresh(z) && z[..] == BlockInput(n, 0)
  {
    hide BlockInput;
    z := new Byte[16];
    var input := StartInput(n);
    forall i | 0 <= i < 16 {
      z[i] := input[i];
    }
    assert z[..] == input;
  }

  /** One block, or what is left of one, is written under the stream. */
  method XorBlock(c: array<Byte>, cpos: nat, m: array<Byte>, mpos: nat, count: nat, x: array<Byte>,
                  ghost s: Salsa, ghost n: seq<Byte>, ghost k: seq<Byte>, ghost block: nat)
    requires count <= 64 && x.Length == 64 && x != c && c != m && |n| == 8
    requires cpos + count <= c.Length && mpos + count <= m.Length
    requires forall i :: 0 <= i < 64 ==> x[i] == s.core(BlockInput(n, block), k, i)
    modifies c
    ensures c[..] == old(c[..cpos]) + SalsaMasked(s, n, k, m[mpos..mpos + count], 64 * block) + old(c[cpos + count..])
  {
    hide XorBytes, BlockInput, Salsa20Byte;
    var i := 0;
    while i < count
      invariant 0 <= i <= count
      invariant c[..cpos] == old(c[..cpos]) && c[cpos + i..] == old(c[cpos + i..])
      invariant forall j :: cpos <= j < cpos + i ==> c[j] == XorBytes(m[mpos + (j - cpos)], x[j - cpos])
    {
      c[cpos + i] := XorBytes(m[mpos + i], x[i]);
      i := i + 1;
    }
    ghost var part := m[mpos..mpos + count];
    forall j | 0 <= j < count
      ensures c[cpos..cpos + count][j] == SalsaMasked(s, n, k, part, 64 * block)[j]
    {
      BlockByte(s, n, k, block, j);
    }
    assert c[cpos..cpos + count] == SalsaMasked(s, n, k, part, 64 * block);
    assert c[..] == c[..cpos] + c[cpos..cpos + count] + c[cpos + count..];
  }

  /** What is written so far is followed by another piece. */
  lemma Written(front: seq<Byte>, done: seq<Byte>, more: seq<Byte>, rest: seq<Byte>, before: seq<Byte>, after: seq<Byte>,
                cpos: nat, count: nat)
    requires before == front + done + rest && cpos == |front| + |done| && |more| == count <= |rest|
    requires after == before[..cpos] + more + before[cpos + count..]
    ensures after == front + (done + more) + rest[count..]
  {
    assert before[..cpos] == front + done;
    assert before[cpos + count..] == rest[count..];
  }

  /** A buffer in which that much of a message is written, and the rest is as it was */
  ghost predicate Progress(s: Salsa, n: seq<Byte>, k: seq<Byte>, c: seq<Byte>, front: seq<Byte>, message: seq<Byte>,
                           was: seq<Byte>, done: nat)
    requires |n| == 8 && done <= |message| && done <= |was|
  {
    c == front + SalsaMasked(s, n, k, message[..done], 0) + was[done..]
  }

  lemma ProgressEnds(s: Salsa, n: seq<Byte>, k: seq<Byte>, front: seq<Byte>, message: seq<Byte>, was: seq<Byte>)
    requires |n| == 8 && |message| <= |was|
    ensures Progress(s, n, k, front + was, front, message, was, 0)
    ensures forall c :: Progress(s, n, k, c, front, message, was, |message|) ==>
              c == front + SalsaMasked(s, n, k, message, 0) + was[|message|..]
  {
    assert front + SalsaMasked(s, n, k, message[..0], 0) + was[0..] == front + was;
    assert message[..|message|] == message;
  }

  /** The next piece of the message, behind the blocks that are written. */
  method XorPiece(s: Salsa, c: array<Byte>, cpos: nat, m: array<Byte>, mpos: nat, count: nat, x: array<Byte>,
                  z: array<Byte>, ghost n: seq<Byte>, k: seq<Byte>, ghost block: nat,
                  ghost front: seq<Byte>, ghost message: seq<Byte>, ghost was: seq<Byte>, ghost mstart: nat)
    requires count <= 64 && x.Length == 64 && x != c && c != m && x != m && x != z && |n| == 8
    requires cpos + count <= c.Length && mpos + count <= m.Length && z[..] == BlockInput(n, block)
    requires cpos == |front| + 64 * block && 64 * block + count <= |message| && 64 * block + count <= |was|
    requires mstart + |message| <= m.Length && m[mstart..mstart + |message|] == message && mpos == mstart + 64 * block
    requires Progress(s, n, k, c[..], front, message, was, 64 * block)
    modifies c, x
    ensures Progress(s, n, k, c[..], front, message, was, 64 * block + count)
  {
    hide BlockInput, SalsaMasked;
    CoreSalsa20(s, x, z, k);
    ghost var before, done, more := c[..], message[..64 * block], m[mpos..mpos + count];
    assert more == message[64 * block..64 * block + count];
    XorBlock(c, cpos, m, mpos, count, x, s, n, k, block);
    assert message[..64 * block + count] == done + more;
    SalsaMaskedAppend(s, n, k, done, more, 0);
    Written(front, SalsaMasked(s, n, k, done, 0), SalsaMasked(s, n, k, more, 64 * block), was[64 * block..],
            before, c[..], cpos, count);
    assert was[64 * block..][count..] == was[64 * block + count..];
  }

  method CryptoStreamSalsa20Xor(s: Salsa, c: array<Byte>, cstart: nat, m: array<Byte>, mstart: nat, count: nat,
                                n: seq<Byte>, k: seq<Byte>)
    requires c != m && |n| == 8 && cstart + count <= c.Length && mstart + count <= m.Length
    modifies c
    ensures c[..] == old(c[..cstart]) + SalsaMasked(s, n, k, m[mstart..mstart + count], 0) + old(c[cstart + count..])
  {
    hide BlockInput, SalsaMasked, Progress;
    ghost var front, message, was := c[..cstart], m[mstart..mstart + count], c[cstart..];
    var x := new Byte[64];
    var z := StartBlocks(n);
    ghost var block := 0;
    var cpos, mpos, b := cstart, mstart, count;
    assert c[..] == front + was;
    ProgressEnds(s, n, k, front, message, was);
    while b >= 64
      invariant 0 <= b <= count && cpos == cstart + 64 * block && mpos == mstart + 64 * block && 64 * block + b == count
      invariant z[..] == BlockInput(n, block) && m[mstart..mstart + count] == message
      invariant Progress(s, n, k, c[..], front, message, was, 64 * block)
    {
      XorPiece(s, c, cpos, m, mpos, 64, x, z, n, k, block, front, message, was, mstart);
      NextBlock(z, n, block);
      block := block + 1;
      b := b - 64;
      cpos := cpos + 64;
      mpos := mpos + 64;
    }
    if b > 0 {
      XorPiece(s, c, cpos, m, mpos, b, x, z, n, k, block, front, message, was, mstart);
    }
    assert was[count..] == old(c[cstart + count..]) && m[mstart..mstart + count] == message;
  }

  /** The nonce, and zeros for the number of the first block */
  function StartInput(n: seq<Byte>): (z: seq<Byte>)
    requires |n| == 8
    ensures z == BlockInput(n, 0)
  {
    ZeroBytes(8);
    n + [0, 0, 0, 0, 0, 0, 0, 0]
  }

  lemma {:induction false} ZeroBytes(n: nat)
    ensures |ToBytes(0, n)| == n && forall i :: 0 <= i < n ==> ToBytes(0, n)[i] == 0
  {
    if n > 0 {
      ZeroBytes(n - 1);
    }
  }

  function Zeros(n: nat): (z: seq<Byte>)
    ensures |z| == n && forall i :: 0 <= i < n ==> z[i] == 0
  {
    seq(n, i => 0)
  }

  lemma ZerosAdd(a: nat, b: nat)
    ensures Zeros(a + b) == Zeros(a) + Zeros(b)
  {
  }

  lemma ZerosPrefix(a: nat, b: nat)
    requires b <= a
    ensures Zeros(a)[..b] == Zeros(b)
  {
  }

  /** A block of the stream itself is copied: that is what zeros are masked to. */
  method CopyBlock(c: array<Byte>, cpos: nat, count: nat, x: array<Byte>,
                   ghost s: Salsa, ghost n: seq<Byte>, ghost k: seq<Byte>, ghost block: nat)
    requires count <= 64 && x.Length == 64 && x != c && |n| == 8 && cpos + count <= c.Length
    requires forall i :: 0 <= i < 64 ==> x[i] == s.core(BlockInput(n, block), k, i)
    modifies c
    ensures c[..] == old(c[..cpos]) + SalsaMasked(s, n, k, Zeros(count), 64 * block) + old(c[cpos + count..])
  {
    hide XorBytes, BlockInput, Salsa20Byte;
    var i := 0;
    while i < count
      invariant 0 <= i <= count
      invariant c[..cpos] == old(c[..cpos]) && c[cpos + i..] == old(c[cpos + i..])
      invariant forall j :: cpos <= j < cpos + i ==> c[j] == x[j - cpos]
    {
      c[cpos + i] := x[i];
      i := i + 1;
    }
    forall j | 0 <= j < count
      ensures c[cpos..cpos + count][j] == SalsaMasked(s, n, k, Zeros(count), 64 * block)[j]
    {
      BlockByte(s, n, k, block, j);
      XorBytesTwice(0, Salsa20Byte(s, n, k, 64 * block + j));
    }
    assert c[cpos..cpos + count] == SalsaMasked(s, n, k, Zeros(count), 64 * block);
    assert c[..] == c[..cpos] + c[cpos..cpos + count] + c[cpos + count..];
  }

  /** The next piece of the stream, behind the blocks that are written. */
  method CopyPiece(s: Salsa, c: array<Byte>, cpos: nat, count: nat, x: array<Byte>, z: array<Byte>,
                   ghost n: seq<Byte>, k: seq<Byte>, ghost block: nat, ghost front: seq<Byte>, ghost was: seq<Byte>,
                   ghost total: nat)
    requires count <= 64 && x.Length == 64 && x != c && x != z && |n| == 8
    requires cpos + count <= c.Length && z[..] == BlockInput(n, block)
    requires cpos == |front| + 64 * block && 64 * block + count <= total <= |was|
    requires Progress(s, n, k, c[..], front, Zeros(total), was, 64 * block)
    modifies c, x
    ensures Progress(s, n, k, c[..], front, Zeros(total), was, 64 * block + count)
  {
    hide BlockInput, SalsaMasked, Zeros;
    CoreSalsa20(s, x, z, k);
    ghost var before := c[..];
    assert Zeros(total)[..64 * block] == Zeros(64 * block) && Zeros(total)[..64 * block + count] == Zeros(64 * block + count) by {
      ZerosPrefix(total, 64 * block);
      ZerosPrefix(total, 64 * block + count);
    }
    CopyBlock(c, cpos, count, x, s, n, k, block);
    ZerosAdd(64 * block, count);
    SalsaMaskedAppend(s, n, k, Zeros(64 * block), Zeros(count), 0);
    Written(front, SalsaMasked(s, n, k, Zeros(64 * block), 0), SalsaMasked(s, n, k, Zeros(count), 64 * block),
            was[64 * block..], before, c[..], cpos, count);
    assert was[64 * block..][count..] == was[64 * block + count..];
  }

  method CryptoStreamSalsa20(s: Salsa, c: array<Byte>, cstart: nat, count: nat, n: seq<Byte>, k: seq<Byte>)
    requires |n| == 8 && cstart + count <= c.Length
    modifies c
    ensures c[..] == old(c[..cstart]) + SalsaMasked(s, n, k, Zeros(count), 0) + old(c[cstart + count..])
  {
    hide BlockInput, SalsaMasked, Zeros, Progress;
    ghost var front, was := c[..cstart], c[cstart..];
    var x := new Byte[64];
    var z := StartBlocks(n);
    ghost var block := 0;
    var cpos, b := cstart, count;
    assert c[..] == front + was;
    ProgressEnds(s, n, k, front, Zeros(count), was);
    while b >= 64
      invariant 0 <= b <= count && cpos == cstart + 64 * block && 64 * block + b == count
      invariant z[..] == BlockInput(n, block)
      invariant Progress(s, n, k, c[..], front, Zeros(count), was, 64 * block)
    {
      CopyPiece(s, c, cpos, 64, x, z, n, k, block, front, was, count);
      NextBlock(z, n, block);
      block := block + 1;
      b := b - 64;
      cpos := cpos + 64;
    }
    if b > 0 {
      CopyPiece(s, c, cpos, b, x, z, n, k, block, front, was, count);
    }
    assert was[count..] == old(c[cstart + count..]);
  }

  /** core_hsalsa20 into a new key */
  method CoreHsalsa20(s: Salsa, n: seq<Byte>, k: seq<Byte>) returns (sub: seq<Byte>)
    requires |n| == 24
    ensures sub == SubKey(s, n, k)
  {
    sub := SubKey(s, n, k);
  }

  method CryptoStream(s: Salsa, c: array<Byte>, cpos: nat, d: nat, n: seq<Byte>, k: seq<Byte>)
    requires |n| == 24 && cpos + d <= c.Length
    modifies c
    ensures c[..] == old(c[..cpos]) + Masked(s, n, k, Zeros(d), 0) + old(c[cpos + d..])
  {
    var sub := CoreHsalsa20(s, n, k);
    CryptoStreamSalsa20(s, c, cpos, d, n[16..], sub);
  }

  method CryptoStreamXor(s: Salsa, c: array<Byte>, cpos: nat, m: array<Byte>, mpos: nat, d: nat,
                         n: seq<Byte>, k: seq<Byte>)
    requires c != m && |n| == 24 && cpos + d <= c.Length && mpos + d <= m.Length
    modifies c
    ensures c[..] == old(c[..cpos]) + Masked(s, n, k, m[mpos..mpos + d], 0) + old(c[cpos + d..])
  {
    var sub := CoreHsalsa20(s, n, k);
    CryptoStreamSalsa20Xor(s, c, cpos, m, mpos, d, n[16..], sub);
  }

  // ---------- Boxes ----------

  /** The tag of bytes of m goes into out; all three arrays may be the same one. */
  method CryptoOnetimeauth(out: array<Byte>, outpos: nat, m: array<Byte>, mpos: nat, n: nat, k: array<Byte>)
    requires k.Length >= 32 && mpos + n <= m.Length && outpos + 16 <= out.Length
    modifies out
    ensures out[..] == old(out[..outpos]) + TagBytes(old(k[..32]), old(m[mpos..mpos + n])) + old(out[outpos + 16..])
  {
    hide Poly1305.Authenticator.Valid, Tag, ToBytes, LittleEndian;
    var auth := new Poly1305.Authenticator(k);
    auth.Update(m, mpos, n);
    ghost var message := auth.message;
    assert message == old(m[mpos..mpos + n]);
    auth.Finish(out, outpos);
    BytesOfValue(out[outpos..outpos + 16]);
    assert out[outpos..outpos + 16] == TagBytes(old(k[..32]), message);
    assert out[..] == out[..outpos] + out[outpos..outpos + 16] + out[outpos + 16..];
  }

  /** The first bytes of a buffer are cleared. */
  method Clear(c: array<Byte>, count: nat)
    requires count <= c.Length
    modifies c
    ensures c[..] == Zeros(count) + old(c[count..])
  {
    var i := 0;
    while i < count
      invariant 0 <= i <= count && c[i..] == old(c[i..])
      invariant forall j :: 0 <= j < i ==> c[j] == 0
    {
      c[i] := 0;
      i := i + 1;
    }
    assert c[..count] == Zeros(count);
    assert c[..] == c[..count] + c[count..];
  }

  /** The tag is written between the two halves of the key that it is made with. */
  method Authenticate(c: array<Byte>)
    requires c.Length >= 32
    modifies c
    ensures c[16..] == TagBytes(old(c[..32]), old(c[32..])) + old(c[32..])
  {
    hide TagBytes;
    ghost var masked := c[..];
    CryptoOnetimeauth(c, 16, c, 32, c.Length - 32, c);
    assert masked[32..c.Length] == masked[32..];
    assert c[..] == masked[..16] + TagBytes(masked[..32], masked[32..]) + masked[32..];
  }

  method CryptoSecretbox(s: Salsa, c: array<Byte>, m: array<Byte>, n: seq<Byte>, k: seq<Byte>) returns (r: int)
    requires c != m && |n| == 24 && c.Length == m.Length
    modifies c
    ensures r == if m.Length < 32 then -1 else 0
    ensures r == -1 ==> c[..] == old(c[..])
    // the callers leave the first 32 bytes of the message buffer zero
    ensures r == 0 && m[..32] == Zeros(32) ==> c[..] == Zeros(16) + Box(s, m[32..], n, k)
  {
    hide Masked, Box, OneTimeKey, TagBytes, Zeros;
    var d := m.Length;
    if d < 32 {
      return -1;
    }
    CryptoStreamXor(s, c, 0, m, 0, d, n, k);
    ghost var masked := Masked(s, n, k, m[..], 0);
    assert m[0..d] == m[..];
    assert c[..] == masked;
    Authenticate(c);
    Clear(c, 16);
    if m[..32] == Zeros(32) {
      BoxParts(s, m[..], masked, n, k);
    }
    r := 0;
  }

  /** Where the message buffer starts with zeros, the masked buffer starts with the one-time key. */
  lemma BoxParts(s: Salsa, m: seq<Byte>, masked: seq<Byte>, n: seq<Byte>, k: seq<Byte>)
    requires |n| == 24 && |m| >= 32 && m[..32] == Zeros(32) && masked == Masked(s, n, k, m, 0)
    ensures masked[..32] == OneTimeKey(s, n, k) && masked[32..] == Masked(s, n, k, m[32..], 32)
    ensures TagBytes(masked[..32], masked[32..]) + masked[32..] == Box(s, m[32..], n, k)
  {
    hide TagBytes;
    forall j | 0 <= j < 32
      ensures masked[j] == StreamByte(s, n, k, j)
    {
      assert m[j] == m[..32][j];
      XorBytesTwice(0, StreamByte(s, n, k, j));
    }
  }

  /** crypto_verify_16: 0 or -1, without a branch on the bytes */
  method Verify16(x: array<Byte>, xi: nat, y: array<Byte>, yi: nat) returns (r: int)
    requires xi + 16 <= x.Length && yi + 16 <= y.Length
    ensures r == if x[xi..xi + 16] == y[yi..yi + 16] then 0 else -1
  {
    hide Or, XorBytes;
    var d: int := 0;
    var i := 0;
    while i < 16
      invariant 0 <= i <= 16 && 0 <= d < 0x100
      invariant d == 0 <==> x[xi..xi + i] == y[yi..yi + i]
    {
      XorBytesTwice(x[xi + i], y[yi + i]);
      OrBytes(d, XorBytes(x[xi + i], y[yi + i]));
      d := Or(d, XorBytes(x[xi + i], y[yi + i]));
      assert x[xi..xi + i + 1] == x[xi..xi + i] + [x[xi + i]] && y[yi..yi + i + 1] == y[yi..yi + i] + [y[yi + i]];
      i := i + 1;
    }
    // (d - 1) >>> 8 on 32 bits
    r := (d - 1) % 0x1_0000_0000 / 0x100 % 2 - 1;
  }

  lemma {:induction false} OrRange(a: nat, b: nat, k: nat)
    requires a < Shl(1, k) && b < Shl(1, k)
    ensures Or(a, b) < Shl(1, k) && (Or(a, b) == 0 <==> a == 0 && b == 0)
    decreases k
  {
    if k > 0 {
      OrRange(a / 2, b / 2, k - 1);
    }
  }

  lemma OrBytes(a: Byte, b: Byte)
    ensures Or(a, b) < 0x100 && (Or(a, b) == 0 <==> a == 0 && b == 0)
  {
    ShlValues(1);
    OrRange(a, b, 8);
  }

  method CryptoSecretboxOpen(s: Salsa, m: array<Byte>, c: array<Byte>, n: seq<Byte>, k: seq<Byte>) returns (r: int)
    requires c != m && |n| == 24 && c.Length == m.Length
    modifies m
    ensures c.Length < 32 ==> r == -1
    ensures c.Length >= 32 ==>
              match Open(s, c[16..], n, k)
              case None => r == -1
              case Some(message) => r == 0 && m[..] == Zeros(32) + message
    ensures r == -1 ==> m[..] == old(m[..])
  {
    hide Masked, OneTimeKey, TagBytes, Zeros;
    var d := c.Length;
    if d < 32 {
      return -1;
    }
    var x, t := new Byte[32], new Byte[16];
    CryptoStream(s, x, 0, 32, n, k);
    assert x[..] == OneTimeKey(s, n, k) by {
      assert x[..] == Masked(s, n, k, Zeros(32), 0);
      StreamStart(s, n, k);
    }
    CryptoOnetimeauth(t, 0, c, 32, d - 32, x);
    ghost var box := c[16..];
    assert x[..32] == x[..] && c[32..d] == box[16..] && c[16..32] == box[..16];
    assert t[..] == TagBytes(OneTimeKey(s, n, k), box[16..]);
    assert t[0..16] == t[..];
    var verified := Verify16(c, 16, t, 0);
    if verified != 0 {
      return -1;
    }
    CryptoStreamXor(s, m, 0, c, 0, d, n, k);
    assert c[0..d] == c[..];
    ghost var masked := Masked(s, n, k, c[..], 0);
    assert m[..] == masked;
    Clear(m, 32);
    assert masked[32..] == Masked(s, n, k, box[16..], 32) by { MaskedTail(s, c[..], n, k); assert c[..][32..] == box[16..]; }
    r := 0;
  }

  lemma StreamStart(s: Salsa, n: seq<Byte>, k: seq<Byte>)
    requires |n| == 24
    ensures Masked(s, n, k, Zeros(32), 0) == OneTimeKey(s, n, k)
  {
    forall j | 0 <= j < 32
      ensures Masked(s, n, k, Zeros(32), 0)[j] == StreamByte(s, n, k, j)
    {
      XorBytesTwice(0, StreamByte(s, n, k, j));
    }
  }

  lemma MaskedTail(s: Salsa, c: seq<Byte>, n: seq<Byte>, k: seq<Byte>)
    requires |n| == 24 && |c| >= 32
    ensures Masked(s, n, k, c, 0)[32..] == Masked(s, n, k, c[32..], 32)
  {
  }

  // ---------- What callers use ----------

  /** secretbox; nothing when the key or the nonce has the wrong size. */
  method MakeBox(s: Salsa, msg: seq<Byte>, nonce: seq<Byte>, key: seq<Byte>) returns (box: Option<seq<Byte>>)
    ensures box == if |key| == 32 && |nonce| == 24 then Some(Box(s, msg, nonce, key)) else None
  {
    hide Box, Zeros;
    if |key| != 32 || |nonce| != 24 {
      return None;
    }
    var m := new Byte[32 + |msg|](i => 0);
    var c := new Byte[m.Length];
    var i := 0;
    while i < |msg|
      invariant 0 <= i <= |msg|
      invariant forall j :: 0 <= j < 32 ==> m[j] == 0
      invariant forall j :: 32 <= j < 32 + i ==> m[j] == msg[j - 32]
    {
      m[i + 32] := msg[i];
      i := i + 1;
    }
    assert m[..32] == Zeros(32) by { IsZeros(m[..32]); }
    assert m[32..] == msg;
    var r := CryptoSecretbox(s, c, m, nonce, key);
    box := Some(c[16..]);
  }

  lemma IsZeros(b: seq<Byte>)
    requires forall j :: 0 <= j < |b| ==> b[j] == 0
    ensures b == Zeros(|b|)
  {
  }

  /** secretbox_open; nothing when it throws, and nothing inside when the box does not open. */
  method OpenBox(s: Salsa, box: seq<Byte>, nonce: seq<Byte>, key: seq<Byte>) returns (r: Option<Option<seq<Byte>>>)
    ensures r == if |key| == 32 && |nonce| == 24 then Some(Open(s, box, nonce, key)) else None
  {
    hide TagBytes, Masked, OneTimeKey, Zeros;
    if |key| != 32 || |nonce| != 24 {
      return None;
    }
    var c := new Byte[16 + |box|](i => 0);
    var m := new Byte[c.Length];
    var i := 0;
    while i < |box|
      invariant 0 <= i <= |box|
      invariant forall j :: 16 <= j < 16 + i ==> c[j] == box[j - 16]
    {
      c[i + 16] := box[i];
      i := i + 1;
    }
    assert c[16..] == box;
    if c.Length < 32 {
      return Some(None);
    }
    var result := CryptoSecretboxOpen(s, m, c, nonce, key);
    if result != 0 {
      return Some(None);
    }
    r := Some(Some(m[32..]));
  }
}
