/** HMAC over a given hash, and key derivation: extraction with HMAC-SHA512, expansion with HMAC-SHA256. */
module Kdf {
  import opened Wrappers
  import opened Words
  import opened HashSpec

  /** Bytes are put into a buffer, beginning at a position. */
  method Set(to: array<Byte>, from: seq<Byte>, at: nat)
    requires at + |from| <= to.Length
    modifies to
    ensures to[..at] == old(to[..at]) && to[at..at + |from|] == from && to[at + |from|..] == old(to[at + |from|..])
  {
    forall i | 0 <= i < |from| {
      to[at + i] := from[i];
    }
  }

  /** The key with zeros behind it, or the digest of a longer one */
  method BlockOfKey(digest: Digest, blockSize: nat, givenKey: seq<Byte>) returns (key: seq<Byte>)
    ensures |key| >= blockSize && key[..blockSize] == BlockKey(digest, blockSize, givenKey)
  {
    key := givenKey;
    if |key| > blockSize {
      key := digest(key);
    }
    if |key| < blockSize {
      var k := key;
      var b := new Byte[blockSize](i => 0);
      Set(b, k, 0);
      key := b[..];
      assert key == k + ZeroBytes(blockSize - |k|);
    }
  }

  method Hmac1(digest: Digest, blockSize: nat, givenKey: seq<Byte>, message: seq<Byte>) returns (code: seq<Byte>)
    ensures code == Hmac(digest, blockSize, givenKey, message)
  {
    hide BlockKey, XorBytes;
    var key := BlockOfKey(digest, blockSize, givenKey);
    var okp := new Byte[blockSize];
    var ikp := new Byte[blockSize];
    var i := 0;
    while i < blockSize
      invariant i <= blockSize
      invariant forall j :: 0 <= j < i ==> ikp[j] == XorBytes(key[j], 0x36) && okp[j] == XorBytes(key[j], 0x5c)
    {
      ikp[i] := XorBytes(key[i], 0x36);
      okp[i] := XorBytes(key[i], 0x5c);
      i := i + 1;
    }
    assert ikp[..] == XorAll(key[..blockSize], 0x36) && okp[..] == XorAll(key[..blockSize], 0x5c);
    var b1 := Join(ikp[..], message);
    var h0 := digest(b1);
    var b2 := Join(okp[..], h0);
    code := digest(b2);
  }

  method Join(a: seq<Byte>, b: seq<Byte>) returns (r: seq<Byte>)
    ensures r == a + b
  {
    var buf := new Byte[|a| + |b|];
    Set(buf, a, 0);
    Set(buf, b, |a|);
    r := buf[..];
    assert buf[..] == buf[..|a|] + buf[|a|..|a| + |b|];
  }

  function Mac512(f: Compression): (seq<Byte>, seq<Byte>) -> seq<Byte> {
    (k, m) => Hmac(x => Sha512(f, x), 128, k, m)
  }

  function Mac256(f: Compression): (seq<Byte>, seq<Byte>) -> seq<Byte> {
    (k, m) => Hmac(x => Sha256(f, x), 64, k, m)
  }

  function Concat(blocks: seq<seq<Byte>>): seq<Byte> {
    if blocks == [] then [] else Concat(blocks[..|blocks| - 1]) + blocks[|blocks| - 1]
  }

  /** HKDF of RFC 5869, section 2, with the two hashes */
  function Derived(f256: Compression, f512: Compression, length: nat, ikm: seq<Byte>, salt: seq<Byte>, info: seq<Byte>): seq<Byte> {
    var prk := Mac512(f512)(salt, ikm);
    var okm := Concat(Expanded(Mac256(f256), prk, info, (length + 31) / 32));
    if |okm| >= length then okm[..length] else okm
  }

  /** All blocks have the size of a digest. */
  lemma {:induction false} BlockSizes(f: Compression, prk: seq<Byte>, info: seq<Byte>, n: nat)
    ensures var e := Expanded(Mac256(f), prk, info, n);
      |e| == n && |Concat(e)| == 32 * n && (n > 0 ==> |e[n - 1]| == 32 && Concat(e)[32 * (n - 1)..] == e[n - 1])
  {
    if n > 0 {
      hide Mac256, Concat, Expanded;
      BlockSizes(f, prk, info, n - 1);
      MacSize(f, prk);
      NextBlock(Mac256(f), prk, info, n - 1);
      var e, d := Expanded(Mac256(f), prk, info, n), Expanded(Mac256(f), prk, info, n - 1);
      assert |e| == n && |e[n - 1]| == 32;
      assert Concat(e) == Concat(d) + e[n - 1];
    }
  }

  lemma MacSize(f: Compression, key: seq<Byte>)
    ensures forall m: seq<Byte> :: |Mac256(f)(key, m)| == 32
  {
    hide Sha256, BlockKey, XorAll;
  }

  /** One more block of the output */
  lemma NextBlock(mac: (seq<Byte>, seq<Byte>) -> seq<Byte>, prk: seq<Byte>, info: seq<Byte>, i: nat)
    ensures var e := Expanded(mac, prk, info, i);
      && var last := if |e| == 0 then [] else e[|e| - 1];
      && Expanded(mac, prk, info, i + 1) == e + [mac(prk, last + info + [(i + 1) % 0x100])]
      && Concat(Expanded(mac, prk, info, i + 1)) == Concat(e) + mac(prk, last + info + [(i + 1) % 0x100])
  {
    var e := Expanded(mac, prk, info, i);
    var n := Expanded(mac, prk, info, i + 1);
    assert n[..|n| - 1] == e;
  }

  /** What is hashed for block i: the block before, the info and the counter, which has one byte */
  method Input(before: seq<Byte>, info: seq<Byte>, i: nat) returns (r: seq<Byte>)
    requires |before| == if i == 0 then 0 else 32
    ensures r == before + info + [(i + 1) % 0x100]
  {
    var buf := new Byte[|info| + 1 + if i == 0 then 0 else 32];
    Set(buf, before, 0);
    Set(buf, info, |before|);
    buf[buf.Length - 1] := (i + 1) % 0x100;
    r := buf[..];
    assert r == r[..|before|] + r[|before|..|before| + |info|] + [r[|r| - 1]];
  }

  method Derive(f256: Compression, f512: Compression, outputLength: nat, ikm: seq<Byte>,
                givenSalt: Option<seq<Byte>>, givenInfo: Option<seq<Byte>>) returns (r: seq<Byte>)
    ensures |r| == outputLength
    ensures r == Derived(f256, f512, outputLength, ikm,
                         if givenSalt.Some? then givenSalt.value else ZeroBytes(64),
                         if givenInfo.Some? then givenInfo.value else [])
  {
    hide Expanded, Concat, Hmac, ZeroBytes;
    var salt := if givenSalt.Some? then givenSalt.value else ZeroBytes(64);
    var prk := Hmac1(x => Sha512(f512, x), 128, salt, ikm);
    assert prk == Mac512(f512)(salt, ikm);
    var info := if givenInfo.Some? then givenInfo.value else [];
    var n := (outputLength + 31) / 32;
    var output := Expand(f256, prk, info, n);
    r := output[..outputLength];
  }

  /** The block that goes behind the first i of the output */
  lemma BlockBehind(f: Compression, prk: seq<Byte>, info: seq<Byte>, i: nat, done: seq<Byte>, last: seq<Byte>)
    requires done == Concat(Expanded(Mac256(f), prk, info, i)) && |done| == 32 * i
    requires last == if i == 0 then [] else done[32 * (i - 1)..]
    ensures var chunk := Mac256(f)(prk, last + info + [(i + 1) % 0x100]);
            |chunk| == 32 && Concat(Expanded(Mac256(f), prk, info, i + 1)) == done + chunk
  {
    hide Expanded, Concat, Mac256;
    BlockSizes(f, prk, info, i);
    NextBlock(Mac256(f), prk, info, i);
    MacSize(f, prk);
  }

  method Expand(f: Compression, prk: seq<Byte>, info: seq<Byte>, n: nat) returns (r: seq<Byte>)
    ensures |r| == 32 * n && r == Concat(Expanded(Mac256(f), prk, info, n))
  {
    hide Expanded, Concat, Hmac;
    var output := new Byte[n * 32];
    var i := 0;
    BlockSizes(f, prk, info, 0);
    assert Concat(Expanded(Mac256(f), prk, info, 0)) == [];
    while i < n
      invariant i <= n && output[..32 * i] == Concat(Expanded(Mac256(f), prk, info, i))
    {
      ghost var done := output[..32 * i];
      var last := if i == 0 then [] else output[(i - 1) * 32..i * 32];
      assert i > 0 ==> last == done[32 * (i - 1)..];
      BlockBehind(f, prk, info, i, done, last);
      var buf := Input(last, info, i);
      var chunk := Hmac1(x => Sha256(f, x), 64, prk, buf);
      assert chunk == Mac256(f)(prk, buf);
      Set(output, chunk, i * 32);
      assert output[..32 * (i + 1)] == done + chunk;
      i := i + 1;
    }
    r := output[..];
    assert output[..] == output[..32 * n];
  }
}
