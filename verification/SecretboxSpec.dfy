/** What a secret box is: a message under a key stream, with a tag. */
module SecretboxSpec {
  import opened Wrappers
  import opened Words
  import opened PolyLimbs
  import opened PolyKey

  /**
   * The cores of Salsa20, one byte of their output at a time: of a 16-byte input block under a
   * key, and of the first 16 bytes of the nonce for the key of the stream.
   */
  datatype Salsa = Salsa(core: (seq<Byte>, seq<Byte>, nat) -> Byte, hcore: (seq<Byte>, seq<Byte>, nat) -> Byte)

  /** The n bytes of a number, the low ones first */
  function ToBytes(v: nat, n: nat): (b: seq<Byte>)
    ensures |b| == n
  {
    if n == 0 then [] else [v % 0x100] + ToBytes(v / 0x100, n - 1)
  }

  lemma {:induction false} ToBytesValue(v: nat, n: nat)
    requires v < Above(n)
    ensures LittleEndian(ToBytes(v, n)) == v
  {
    if n > 0 {
      assert ToBytes(v, n)[1..] == ToBytes(v / 0x100, n - 1);
      ToBytesValue(v / 0x100, n - 1);
    }
  }

  lemma {:induction false} BytesOfValue(b: seq<Byte>)
    ensures ToBytes(LittleEndian(b), |b|) == b && LittleEndian(b) < Above(|b|)
  {
    if b != [] {
      BytesOfValue(b[1..]);
    }
  }

  const TWO_64 := 0x1_0000_0000_0000_0000

  /** The input of the core for one block: the rest of the nonce and the block's number */
  function BlockInput(n: seq<Byte>, block: nat): (z: seq<Byte>)
    requires |n| == 8
    ensures |z| == 16
  {
    n + ToBytes(block % TWO_64, 8)
  }

  /** The key of the stream */
  function SubKey(s: Salsa, n: seq<Byte>, k: seq<Byte>): (sub: seq<Byte>)
    requires |n| == 24
    ensures |sub| == 32
  {
    seq<Byte>(32, i requires 0 <= i < 32 => s.hcore(n[..16], k, i))
  }

  /** Byte i of the key stream for a nonce of 8 bytes */
  function Salsa20Byte(s: Salsa, n: seq<Byte>, k: seq<Byte>, i: nat): Byte
    requires |n| == 8
  {
    s.core(BlockInput(n, i / 64), k, i % 64)
  }

  function StreamByte(s: Salsa, n: seq<Byte>, k: seq<Byte>, i: nat): Byte
    requires |n| == 24
  {
    Salsa20Byte(s, n[16..], SubKey(s, n, k), i)
  }

  /** Bytes under the stream of an 8-byte nonce, from position i on */
  function SalsaMasked(s: Salsa, n: seq<Byte>, k: seq<Byte>, m: seq<Byte>, i: nat): (c: seq<Byte>)
    requires |n| == 8
    ensures |c| == |m|
  {
    seq(|m|, j requires 0 <= j < |m| => XorBytes(m[j], Salsa20Byte(s, n, k, i + j)))
  }

  lemma SalsaMaskedAppend(s: Salsa, n: seq<Byte>, k: seq<Byte>, a: seq<Byte>, b: seq<Byte>, i: nat)
    requires |n| == 8
    ensures SalsaMasked(s, n, k, a + b, i) == SalsaMasked(s, n, k, a, i) + SalsaMasked(s, n, k, b, i + |a|)
  {
  }

  /** Bytes under the stream from position i on */
  function Masked(s: Salsa, n: seq<Byte>, k: seq<Byte>, m: seq<Byte>, i: nat): (c: seq<Byte>)
    requires |n| == 24
    ensures |c| == |m|
  {
    SalsaMasked(s, n[16..], SubKey(s, n, k), m, i)
  }

  /** The key of the authenticator: the first bytes of the stream */
  function OneTimeKey(s: Salsa, n: seq<Byte>, k: seq<Byte>): (key: seq<Byte>)
    requires |n| == 24
    ensures |key| == 32
  {
    seq(32, j requires 0 <= j < 32 => StreamByte(s, n, k, j))
  }

  function TagBytes(key: seq<Byte>, m: seq<Byte>): (t: seq<Byte>)
    requires |key| == 32
    ensures |t| == 16
  {
    ToBytes(Tag(key, m), 16)
  }

  /** The box: the tag of the masked message, and the masked message */
  function Box(s: Salsa, m: seq<Byte>, n: seq<Byte>, k: seq<Byte>): (box: seq<Byte>)
    requires |n| == 24
    ensures |box| == |m| + 16
  {
    var body := Masked(s, n, k, m, 32);
    TagBytes(OneTimeKey(s, n, k), body) + body
  }

  /** Opening a box, or nothing if it is too short or its tag is another one */
  function Open(s: Salsa, box: seq<Byte>, n: seq<Byte>, k: seq<Byte>): Option<seq<Byte>>
    requires |n| == 24
  {
    if |box| < 16 || TagBytes(OneTimeKey(s, n, k), box[16..]) != box[..16] then None
    else Some(Masked(s, n, k, box[16..], 32))
  }

  lemma MaskedTwice(s: Salsa, n: seq<Byte>, k: seq<Byte>, m: seq<Byte>, i: nat)
    requires |n| == 24
    ensures Masked(s, n, k, Masked(s, n, k, m, i), i) == m
  {
    var c := Masked(s, n, k, m, i);
    forall j | 0 <= j < |m|
      ensures Masked(s, n, k, c, i)[j] == m[j]
    {
      XorBytesTwice(m[j], StreamByte(s, n, k, i + j));
    }
  }

  /** A box opens to a message exactly if it is that message's box. */
  lemma OpensOnlyItsBox(s: Salsa, box: seq<Byte>, m: seq<Byte>, n: seq<Byte>, k: seq<Byte>)
    requires |n| == 24
    ensures Open(s, box, n, k) == Some(m) <==> box == Box(s, m, n, k)
  {
    hide TagBytes, Masked;
    if Open(s, box, n, k) == Some(m) {
      MaskedTwice(s, n, k, box[16..], 32);
      assert box == box[..16] + box[16..];
    }
    if box == Box(s, m, n, k) {
      var body := Masked(s, n, k, m, 32);
      assert box[16..] == body && box[..16] == TagBytes(OneTimeKey(s, n, k), body);
      MaskedTwice(s, n, k, m, 32);
    }
  }

  // ---------- The stream does not repeat ----------

  /** The input of a block holds the rest of the nonce and the number of the block. */
  lemma BlockInputParts(n: seq<Byte>, block: nat)
    requires |n| == 8
    ensures BlockInput(n, block)[..8] == n && LittleEndian(BlockInput(n, block)[8..]) == block % TWO_64
  {
    assert Above(8) == TWO_64;
    ToBytesValue(block % TWO_64, 8);
    assert BlockInput(n, block)[8..] == ToBytes(block % TWO_64, 8);
  }

  /** Different blocks have different inputs, and so have different nonces. */
  lemma BlockInputsDiffer(n: seq<Byte>, m: seq<Byte>, i: nat, j: nat)
    requires |n| == |m| == 8 && i < TWO_64 && j < TWO_64
    ensures BlockInput(n, i) == BlockInput(m, j) <==> n == m && i == j
  {
    hide BlockInput;
    BlockInputParts(n, i);
    BlockInputParts(m, j);
  }

  /** No two inputs or keys of the core have the same 64 bytes of output. */
  ghost predicate InjectiveCore(s: Salsa) {
    forall z: seq<Byte>, y: seq<Byte>, k: seq<Byte>, l: seq<Byte> ::
      |z| == |y| == 16 && |k| == |l| == 32 && SameOutput(s.core, z, k, y, l, 64) ==> z == y && k == l
  }

  ghost predicate SameOutput(f: (seq<Byte>, seq<Byte>, nat) -> Byte, z: seq<Byte>, k: seq<Byte>, y: seq<Byte>, l: seq<Byte>, size: nat) {
    forall i :: 0 <= i < size ==> f(z, k, i) == f(y, l, i)
  }

  /** A block of the stream */
  function StreamBlock(s: Salsa, n: seq<Byte>, k: seq<Byte>, block: nat): (b: seq<Byte>)
    requires |n| == 24
    ensures |b| == 64
  {
    seq<Byte>(64, j requires 0 <= j < 64 => StreamByte(s, n, k, 64 * block + j))
  }

  /**
   * Under an injective core, equal blocks come only from the same place of the streams of nonces that end alike,
   * under one key of the stream; so no block of a stream is like another one of it.
   */
  lemma StreamBlocksDiffer(s: Salsa, n: seq<Byte>, m: seq<Byte>, k: seq<Byte>, l: seq<Byte>, i: nat, j: nat)
    requires InjectiveCore(s) && |n| == |m| == 24 && i < TWO_64 && j < TWO_64
    ensures StreamBlock(s, n, k, i) == StreamBlock(s, m, l, j)
       <==> n[16..] == m[16..] && SubKey(s, n, k) == SubKey(s, m, l) && i == j
  {
    hide BlockInput, SubKey;
    BlockOutput(s, n, k, i);
    BlockOutput(s, m, l, j);
    if StreamBlock(s, n, k, i) == StreamBlock(s, m, l, j) {
      assert SameOutput(s.core, BlockInput(n[16..], i), SubKey(s, n, k), BlockInput(m[16..], j), SubKey(s, m, l), 64);
      BlockInputsDiffer(n[16..], m[16..], i, j);
    }
  }

  lemma BlockOutput(s: Salsa, n: seq<Byte>, k: seq<Byte>, i: nat)
    requires |n| == 24
    ensures forall j :: 0 <= j < 64 ==> StreamBlock(s, n, k, i)[j] == s.core(BlockInput(n[16..], i), SubKey(s, n, k), j)
  {
    hide BlockInput, SubKey;
    forall j | 0 <= j < 64
      ensures StreamBlock(s, n, k, i)[j] == s.core(BlockInput(n[16..], i), SubKey(s, n, k), j)
    {
      Divides(64 * i + j, 64, i, j);
      assert StreamBlock(s, n, k, i)[j] == StreamByte(s, n, k, 64 * i + j);
    }
  }

  /** The authenticator's key is the start of the stream, and each byte of a message is under a byte of its own behind that. */
  lemma BoxBytes(s: Salsa, m: seq<Byte>, n: seq<Byte>, k: seq<Byte>)
    requires |n| == 24
    ensures forall j :: 0 <= j < |m| ==> Box(s, m, n, k)[16 + j] == XorBytes(m[j], StreamByte(s, n, k, 32 + j))
    ensures Box(s, m, n, k)[..16] == TagBytes(StreamBlock(s, n, k, 0)[..32], Box(s, m, n, k)[16..])
  {
    hide TagBytes, StreamByte;
    var body := Masked(s, n, k, m, 32);
    assert Box(s, m, n, k)[16..] == body;
    assert OneTimeKey(s, n, k) == StreamBlock(s, n, k, 0)[..32];
    MaskedBytes(s, n, k, m, 32);
  }

  lemma MaskedBytes(s: Salsa, n: seq<Byte>, k: seq<Byte>, m: seq<Byte>, i: nat)
    requires |n| == 24
    ensures forall j :: 0 <= j < |m| ==> Masked(s, n, k, m, i)[j] == XorBytes(m[j], StreamByte(s, n, k, i + j))
  {
  }
}
