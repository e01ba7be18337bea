/** SHA-256 and SHA-512 around their compression functions (FIPS 180-4), HMAC (RFC 2104), and HKDF (RFC 5869). */
module HashSpec {
  import opened Words

  type Word32 = x: int | 0 <= x < 0x1_0000_0000

  /** A compression function, one word of its result at a time: of the state and a block of bytes */
  type Compression = (seq<Word32>, seq<Byte>, nat) -> Word32

  function Compress(f: Compression, state: seq<Word32>, block: seq<Byte>): (s: seq<Word32>)
    ensures |s| == |state|
  {
    seq<Word32>(|state|, i requires 0 <= i < |state| => f(state, block, i))
  }

  /** The state after all full blocks of a message */
  function Fold(f: Compression, size: nat, state: seq<Word32>, m: seq<Byte>): (s: seq<Word32>)
    requires size > 0
    ensures |s| == |state|
    decreases |m|
  {
    if |m| < size then state else Fold(f, size, Compress(f, state, m[..size]), m[size..])
  }

  lemma {:induction false} FoldAppend(f: Compression, size: nat, state: seq<Word32>, a: seq<Byte>, b: seq<Byte>)
    requires size > 0 && |a| % size == 0
    ensures Fold(f, size, state, a + b) == Fold(f, size, Fold(f, size, state, a), b)
    decreases |a|
  {
    hide Compress;
    if a == [] {
      assert a + b == b;
    } else {
      AtLeastOne(|a|, size);
      assert (a + b)[..size] == a[..size] && (a + b)[size..] == a[size..] + b;
      FoldAppend(f, size, Compress(f, state, a[..size]), a[size..], b);
    }
  }

  lemma AtLeastOne(n: nat, size: nat)
    requires n > 0 && size > 0 && n % size == 0
    ensures n >= size && (n - size) % size == 0
  {
    if n < size {
      Divides(n, size, 0, n);
    } else {
      var q := n / size;
      assert n == size * q;
      assert size * (q - 1) == size * q - size;
      Divides(n - size, size, q - 1, 0);
    }
  }

  /** The low n bytes of a number, the high ones first */
  function BigEndian(v: nat, n: nat): (b: seq<Byte>)
    ensures |b| == n
  {
    if n == 0 then [] else BigEndian(v / 0x100, n - 1) + [v % 0x100]
  }

  function ZeroBytes(n: nat): (z: seq<Byte>)
    ensures |z| == n
  {
    seq(n, i => 0)
  }

  /**
   * What is put behind a message of n bytes (FIPS 180-4, section 5.1): a bit, zeros, and the
   * length in bits in a field of an eighth of a block.
   */
  function Padding(n: nat, size: nat): (p: seq<Byte>)
    requires size == 64 || size == 128
    ensures (n + |p|) % size == 0
  {
    var field := size / 8;
    var zeros := (2 * size - 1 - field - n % size) % size;
    PaddingLength(n, size);
    [0x80] + ZeroBytes(zeros) + BigEndian(8 * n, field)
  }

  lemma PaddingLength(n: nat, size: nat)
    requires size == 64 || size == 128
    ensures (n + 1 + (2 * size - 1 - size / 8 - n % size) % size + size / 8) % size == 0
  {
  }

  /** The bytes of words, the high ones first */
  function WordBytes(w: seq<Word32>): (b: seq<Byte>)
    ensures |b| == 4 * |w|
  {
    if w == [] then [] else BigEndian(w[0], 4) + WordBytes(w[1..])
  }

  // ---------- SHA-256 ----------

  const IV256: seq<Word32> :=
    [0x6a09e667, 0xbb67ae85, 0x3c6ef372, 0xa54ff53a, 0x510e527f, 0x9b05688c, 0x1f83d9ab, 0x5be0cd19]

  function Sha256(f: Compression, m: seq<Byte>): (d: seq<Byte>)
    ensures |d| == 32
  {
    WordBytes(Fold(f, 64, IV256, m + Padding(|m|, 64)))
  }

  // ---------- SHA-512: the upper halves of the words, and then the lower halves ----------

  const IV512: seq<Word32> :=
    [0x6a09e667, 0xbb67ae85, 0x3c6ef372, 0xa54ff53a, 0x510e527f, 0x9b05688c, 0x1f83d9ab, 0x5be0cd19,
     0xf3bcc908, 0x84caa73b, 0xfe94f82b, 0x5f1d36f1, 0xade682d1, 0x2b3e6c1f, 0xfb41bd6b, 0x137e2179]

  /** Upper and lower half of each word, in turn */
  function Halves(s: seq<Word32>): (w: seq<Word32>)
    requires |s| == 16
    ensures |w| == 16
  {
    seq<Word32>(16, i requires 0 <= i < 16 => if i % 2 == 0 then s[i / 2] else s[8 + i / 2])
  }

  function Sha512(f: Compression, m: seq<Byte>): (d: seq<Byte>)
    ensures |d| == 64
  {
    WordBytes(Halves(Fold(f, 128, IV512, m + Padding(|m|, 128))))
  }

  // ---------- HMAC ----------

  type Digest = seq<Byte> -> seq<Byte>

  /** The key, hashed if it is too long, with zeros up to the block size */
  function BlockKey(h: Digest, size: nat, key: seq<Byte>): (k: seq<Byte>)
    ensures |k| == size
  {
    var k := if |key| > size then h(key) else key;
    if |k| < size then k + ZeroBytes(size - |k|) else k[..size]
  }

  function XorAll(k: seq<Byte>, x: Byte): (r: seq<Byte>)
    ensures |r| == |k|
  {
    seq<Byte>(|k|, i requires 0 <= i < |k| => XorBytes(k[i], x))
  }

  function Hmac(h: Digest, size: nat, key: seq<Byte>, m: seq<Byte>): seq<Byte> {
    var k := BlockKey(h, size, key);
    h(XorAll(k, 0x5c) + h(XorAll(k, 0x36) + m))
  }

  // ---------- HKDF ----------

  /** The first n blocks of the output; the counter has one byte. */
  function Expanded(mac: (seq<Byte>, seq<Byte>) -> seq<Byte>, prk: seq<Byte>, info: seq<Byte>, n: nat): seq<seq<Byte>> {
    if n == 0 then []
    else
      var before := Expanded(mac, prk, info, n - 1);
      var last := if |before| == 0 then [] else before[|before| - 1];
      before + [mac(prk, last + info + [n % 0x100])]
  }
}
