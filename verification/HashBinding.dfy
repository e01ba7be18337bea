/**
 * What a digest, a code and a derived key commit to: from two inputs with the same result, two different
 * inputs of the compression function or of the hash with the same result are found.
 */
module HashBinding {
  import opened Words
  import opened HashSpec
  import opened HashBlocks
  import Kdf

  // ---------- Numbers and words as bytes ----------

  function Span(n: nat): nat { if n == 0 then 1 else 0x100 * Span(n - 1) }

  lemma {:induction false} BigEndianInjective(a: nat, b: nat, n: nat)
    requires a < Span(n) && b < Span(n) && BigEndian(a, n) == BigEndian(b, n)
    ensures a == b
  {
    if n > 0 {
      var x, y := BigEndian(a / 0x100, n - 1), BigEndian(b / 0x100, n - 1);
      assert BigEndian(a, n) == x + [a % 0x100] && BigEndian(b, n) == y + [b % 0x100];
      assert x == BigEndian(a, n)[..n - 1] && y == BigEndian(b, n)[..n - 1];
      assert a % 0x100 == BigEndian(a, n)[n - 1] && b % 0x100 == BigEndian(b, n)[n - 1];
      BigEndianInjective(a / 0x100, b / 0x100, n - 1);
    }
  }

  lemma SpanFour()
    ensures Span(4) == 0x1_0000_0000
  {
    assert Span(2) == 0x1_0000;
  }

  lemma SpanEight()
    ensures Span(8) == 0x1_0000_0000_0000_0000
  {
    SpanFour();
    assert Span(6) == 0x1_0000_0000_0000;
  }

  lemma {:induction false} WordBytesInjective(v: seq<Word32>, w: seq<Word32>)
    requires WordBytes(v) == WordBytes(w)
    ensures v == w
    decreases |v|
  {
    if v != [] {
      assert |w| == |v|;
      assert WordBytes(v)[..4] == BigEndian(v[0], 4) && WordBytes(w)[..4] == BigEndian(w[0], 4);
      assert WordBytes(v)[4..] == WordBytes(v[1..]) && WordBytes(w)[4..] == WordBytes(w[1..]);
      SpanFour();
      BigEndianInjective(v[0], w[0], 4);
      WordBytesInjective(v[1..], w[1..]);
      assert v == [v[0]] + v[1..] && w == [w[0]] + w[1..];
    }
  }

  // ---------- Padding ----------

  /** The end of a padded message is its length in bits. */
  lemma PaddingEnds(n: nat, size: nat)
    requires size == 64 || size == 128
    ensures var p := Padding(n, size);
            |p| > size / 8 && p[0] == 0x80 && p[|p| - size / 8..] == BigEndian(8 * n, size / 8)
            && |p| <= size + size / 8 && forall i :: 1 <= i < |p| - size / 8 ==> p[i] == 0
  {
    hide BigEndian;
  }

  predicate Short(m: seq<Byte>) { |m| < 0x2000_0000_0000_0000 }

  /** Messages of different lengths end in different fields. */
  lemma LengthsDiffer(n: nat, k: nat, size: nat)
    requires size == 64 || size == 128
    requires n < 0x2000_0000_0000_0000 && k < 0x2000_0000_0000_0000 && BigEndian(8 * n, size / 8) == BigEndian(8 * k, size / 8)
    ensures n == k
  {
    hide BigEndian, ZeroBytes;
    SpanEight();
    if size == 128 {
      LongLengthField(n);
      LongLengthField(k);
      assert BigEndian(8 * n, 16)[8..] == BigEndian(8 * n, 8) && BigEndian(8 * k, 16)[8..] == BigEndian(8 * k, 8);
    }
    BigEndianInjective(8 * n, 8 * k, 8);
  }

  /** Padding can be taken off again in one way only. */
  lemma PaddingIsUnambiguous(m: seq<Byte>, n: seq<Byte>, size: nat)
    requires size == 64 || size == 128
    requires Short(m) && Short(n) && m + Padding(|m|, size) == n + Padding(|n|, size)
    ensures m == n
  {
    hide Padding, BigEndian;
    PaddingEnds(|m|, size);
    PaddingEnds(|n|, size);
    var p, q := m + Padding(|m|, size), n + Padding(|n|, size);
    assert p[|p| - size / 8..] == Padding(|m|, size)[|Padding(|m|, size)| - size / 8..];
    assert q[|q| - size / 8..] == Padding(|n|, size)[|Padding(|n|, size)| - size / 8..];
    LengthsDiffer(|m|, |n|, size);
    assert p[..|m|] == m && q[..|n|] == n;
  }

  // ---------- Collisions of the compression function ----------

  /** Two different inputs of the compression function with the same result */
  datatype Collision = Collision(s: seq<Word32>, x: seq<Byte>, t: seq<Word32>, y: seq<Byte>)

  ghost predicate Collides(f: Compression, size: nat, c: Collision) {
    && |c.s| == |c.t| && |c.x| == |c.y| == size && (c.s != c.t || c.x != c.y)
    && Compress(f, c.s, c.x) == Compress(f, c.t, c.y)
  }

  lemma {:induction false} FoldCollision(f: Compression, size: nat, s: seq<Word32>, t: seq<Word32>, a: seq<Byte>, b: seq<Byte>)
    returns (c: Collision)
    requires size > 0 && |s| == |t| && |a| == |b| && |a| % size == 0 && (s != t || a != b)
    requires Fold(f, size, s, a) == Fold(f, size, t, b) && |a| >= size
    ensures Collides(f, size, c)
    decreases |a|
  {
    hide Compress;
    var x, y := a[..size], b[..size];
    var u, v := Compress(f, s, x), Compress(f, t, y);
    FoldStep(f, size, s, a);
    FoldStep(f, size, t, b);
    AtLeastOne(|a|, size);
    if |a| == size {
      FoldStep(f, size, u, []);
      FoldStep(f, size, v, []);
      assert a[size..] == [] == b[size..] && a == x && b == y;
      c := Collision(s, x, t, y);
    } else if u == v && a[size..] == b[size..] {
      assert a == x + a[size..] && b == y + b[size..];
      c := Collision(s, x, t, y);
    } else {
      NextBlock(|a|, size);
      c := FoldCollision(f, size, u, v, a[size..], b[size..]);
    }
  }

  lemma NextBlock(n: nat, size: nat)
    requires size > 0 && n % size == 0 && n > size
    ensures n - size >= size
  {
    AtLeastOne(n, size);
    AtLeastOne(n - size, size);
  }

  lemma LastBlock(f: Compression, size: nat, s: seq<Word32>, a: seq<Byte>)
    requires size > 0 && |a| % size == 0 && |a| >= size
    ensures Fold(f, size, s, a) == Compress(f, Fold(f, size, s, a[..|a| - size]), a[|a| - size..])
  {
    hide Compress, Fold;
    var front, last := a[..|a| - size], a[|a| - size..];
    assert a == front + last;
    AtLeastOne(|a|, size);
    FoldAppend(f, size, s, front, last);
    FoldStep(f, size, Fold(f, size, s, front), last);
    assert last[..size] == last && last[size..] == [];
    FoldStep(f, size, Compress(f, Fold(f, size, s, front), last), []);
  }

  /** From two messages whose padded forms lead to the same state a collision is found. */
  lemma PaddedCollision(f: Compression, size: nat, iv: seq<Word32>, m: seq<Byte>, n: seq<Byte>) returns (c: Collision)
    requires size == 64 || size == 128
    requires Short(m) && Short(n) && m != n
    requires Fold(f, size, iv, m + Padding(|m|, size)) == Fold(f, size, iv, n + Padding(|n|, size))
    ensures Collides(f, size, c)
  {
    hide Padding, Compress, Fold, BigEndian;
    var p, q := m + Padding(|m|, size), n + Padding(|n|, size);
    PaddingEnds(|m|, size);
    PaddingEnds(|n|, size);
    WholePadded(|m|, size);
    WholePadded(|n|, size);
    if |m| == |n| {
      if p == q {
        PaddingIsUnambiguous(m, n, size);
      }
      c := FoldCollision(f, size, iv, iv, p, q);
    } else {
      LastBlock(f, size, iv, p);
      LastBlock(f, size, iv, q);
      var x, y := p[|p| - size..], q[|q| - size..];
      assert x[size - size / 8..] == Padding(|m|, size)[|Padding(|m|, size)| - size / 8..];
      assert y[size - size / 8..] == Padding(|n|, size)[|Padding(|n|, size)| - size / 8..];
      if x == y {
        LengthsDiffer(|m|, |n|, size);
      }
      c := Collision(Fold(f, size, iv, p[..|p| - size]), x, Fold(f, size, iv, q[..|q| - size]), y);
    }
  }

  lemma WholePadded(n: nat, size: nat)
    requires size == 64 || size == 128
    ensures (n + |Padding(n, size)|) % size == 0 && n + |Padding(n, size)| >= size
  {
    hide BigEndian;
    PaddingEnds(n, size);
    AtLeastOne(n + |Padding(n, size)|, size);
  }

  /** Two messages with the same SHA-256 digest lead to a collision of the compression function. */
  lemma Sha256Collision(f: Compression, m: seq<Byte>, n: seq<Byte>) returns (c: Collision)
    requires Short(m) && Short(n) && m != n && Sha256(f, m) == Sha256(f, n)
    ensures Collides(f, 64, c)
  {
    hide Fold, Padding, WordBytes;
    WordBytesInjective(Fold(f, 64, IV256, m + Padding(|m|, 64)), Fold(f, 64, IV256, n + Padding(|n|, 64)));
    c := PaddedCollision(f, 64, IV256, m, n);
  }

  lemma HalvesInjective(s: seq<Word32>, t: seq<Word32>)
    requires |s| == |t| == 16 && Halves(s) == Halves(t)
    ensures s == t
  {
    forall j | 0 <= j < 16
      ensures s[j] == t[j]
    {
      var i := if j < 8 then 2 * j else 2 * (j - 8) + 1;
      assert Halves(s)[i] == s[j] && Halves(t)[i] == t[j];
    }
  }

  /** The same for SHA-512 */
  lemma Sha512Collision(f: Compression, m: seq<Byte>, n: seq<Byte>) returns (c: Collision)
    requires Short(m) && Short(n) && m != n && Sha512(f, m) == Sha512(f, n)
    ensures Collides(f, 128, c)
  {
    assert |IV512| == 16;
    hide Fold, Padding, WordBytes, Halves, IV512;
    var s, t := Fold(f, 128, IV512, m + Padding(|m|, 128)), Fold(f, 128, IV512, n + Padding(|n|, 128));
    WordBytesInjective(Halves(s), Halves(t));
    HalvesInjective(s, t);
    c := PaddedCollision(f, 128, IV512, m, n);
  }

  // ---------- HMAC ----------

  lemma XorAllInjective(k: seq<Byte>, l: seq<Byte>, x: Byte)
    requires XorAll(k, x) == XorAll(l, x)
    ensures k == l
  {
    hide XorBytes;
    forall i | 0 <= i < |k|
      ensures k[i] == l[i]
    {
      assert XorAll(k, x)[i] == XorBytes(k[i], x) && XorAll(l, x)[i] == XorBytes(l[i], x);
      SameMask(k[i], l[i], x);
    }
    assert |k| == |XorAll(k, x)| == |XorAll(l, x)| == |l|;
  }

  lemma SameMask(a: Byte, b: Byte, x: Byte)
    requires XorBytes(a, x) == XorBytes(b, x)
    ensures a == b
  {
    XorBytesTwice(a, x);
    XorBytesTwice(b, x);
  }

  /** The block is determined by a key that is not too long, of a known length. */
  lemma BlockKeyInjective(h: Digest, size: nat, k: seq<Byte>, l: seq<Byte>)
    requires |k| == |l| <= size && BlockKey(h, size, k) == BlockKey(h, size, l)
    ensures k == l
  {
    assert BlockKey(h, size, k)[..|k|] == k && BlockKey(h, size, l)[..|l|] == l;
  }

  /** From two keys or messages with the same code, two inputs of the hash with the same digest are found. */
  lemma HmacCollision(h: Digest, size: nat, d: nat, k: seq<Byte>, m: seq<Byte>, l: seq<Byte>, n: seq<Byte>)
    returns (x: seq<Byte>, y: seq<Byte>)
    requires |k| == |l| <= size && (k != l || m != n) && Hmac(h, size, k, m) == Hmac(h, size, l, n)
    requires forall z: seq<Byte> :: |h(z)| == d
    ensures x != y && h(x) == h(y)
    ensures |x| <= size + |m| + d && |y| <= size + |n| + d
  {
    hide BlockKey, XorAll;
    var a, b := BlockKey(h, size, k), BlockKey(h, size, l);
    var inner, other := XorAll(a, 0x36) + m, XorAll(b, 0x36) + n;
    x, y := XorAll(a, 0x5c) + h(inner), XorAll(b, 0x5c) + h(other);
    if x == y {
      assert x[..size] == XorAll(a, 0x5c) && y[..size] == XorAll(b, 0x5c);
      assert x[size..] == h(inner) && y[size..] == h(other);
      XorAllInjective(a, b, 0x5c);
      BlockKeyInjective(h, size, k, l);
      assert inner[size..] == m && other[size..] == n;
      x, y := inner, other;
    }
  }

  // ---------- Derived keys ----------

  /** A collision of either hash */
  datatype Found = In256(c256: Collision) | In512(c512: Collision)

  ghost predicate IsFound(f256: Compression, f512: Compression, c: Found) {
    match c
    case In256(d) => Collides(f256, 64, d)
    case In512(d) => Collides(f512, 128, d)
  }

  /** A derived key begins with the first block of the expansion. */
  lemma DerivedStart(f256: Compression, f512: Compression, length: nat, ikm: seq<Byte>, salt: seq<Byte>, info: seq<Byte>)
    requires length >= 32
    ensures var prk := Kdf.Mac512(f512)(salt, ikm);
            |Kdf.Derived(f256, f512, length, ikm, salt, info)| == length
            && Kdf.Derived(f256, f512, length, ikm, salt, info)[..32] == Kdf.Mac256(f256)(prk, info + [1])
  {
    hide Hmac;
    var prk := Kdf.Mac512(f512)(salt, ikm);
    var n := (length + 31) / 32;
    Kdf.BlockSizes(f256, prk, info, n);
    FirstBlock(f256, prk, info, n);
  }

  lemma {:induction false} FirstBlock(f: Compression, prk: seq<Byte>, info: seq<Byte>, n: nat)
    requires n >= 1
    ensures var c := Kdf.Concat(Expanded(Kdf.Mac256(f), prk, info, n));
            |c| == 32 * n && c[..32] == Kdf.Mac256(f)(prk, info + [1])
  {
    hide Kdf.Mac256, Kdf.Concat, Expanded;
    Kdf.BlockSizes(f, prk, info, n - 1);
    Kdf.BlockSizes(f, prk, info, n);
    Kdf.NextBlock(Kdf.Mac256(f), prk, info, n - 1);
    var before := Kdf.Concat(Expanded(Kdf.Mac256(f), prk, info, n - 1));
    if n == 1 {
      assert before == [];
      assert [] + info + [1] == info + [1];
    } else {
      FirstBlock(f, prk, info, n - 1);
      assert Kdf.Concat(Expanded(Kdf.Mac256(f), prk, info, n))[..32] == before[..32];
    }
  }

  predicate Moderate(m: seq<Byte>) { |m| < 0x1000_0000_0000_0000 }

  /**
   * Two different choices of secret, salt and info that give the same key lead to a collision of one of
   * the two compression functions.
   */
  lemma DerivedCollision(f256: Compression, f512: Compression, length: nat, ikm: seq<Byte>, salt: seq<Byte>, info: seq<Byte>,
                         ikm': seq<Byte>, salt': seq<Byte>, info': seq<Byte>) returns (c: Found)
    requires length >= 32 && |salt| == |salt'| <= 128 && (ikm != ikm' || salt != salt' || info != info')
    requires Moderate(ikm) && Moderate(ikm') && Moderate(info) && Moderate(info')
    requires Kdf.Derived(f256, f512, length, ikm, salt, info) == Kdf.Derived(f256, f512, length, ikm', salt', info')
    ensures IsFound(f256, f512, c)
  {
    hide Hmac, Sha256, Sha512, Kdf.Derived, Collides;
    DerivedStart(f256, f512, length, ikm, salt, info);
    DerivedStart(f256, f512, length, ikm', salt', info');
    var h256: Digest, h512: Digest := x => Sha256(f256, x), x => Sha512(f512, x);
    var prk, prk' := Kdf.Mac512(f512)(salt, ikm), Kdf.Mac512(f512)(salt', ikm');
    assert |prk| == |prk'| == 64 by { CodeSize512(f512, salt, ikm); CodeSize512(f512, salt', ikm'); }
    if prk != prk' || info != info' {
      assert (info + [1])[..|info|] == info && (info' + [1])[..|info'|] == info';
      var x, y := HmacCollision(h256, 64, 32, prk, info + [1], prk', info' + [1]);
      var d := Sha256Collision(f256, x, y);
      c := In256(d);
    } else {
      var x, y := HmacCollision(h512, 128, 64, salt, ikm, salt', ikm');
      var d := Sha512Collision(f512, x, y);
      c := In512(d);
    }
  }

  lemma CodeSize512(f: Compression, key: seq<Byte>, m: seq<Byte>)
    ensures |Kdf.Mac512(f)(key, m)| == 64
  {
    hide Sha512, BlockKey, XorAll;
  }
}
