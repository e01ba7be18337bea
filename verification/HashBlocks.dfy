/** What both hashes do with their buffers: full blocks, and the bytes behind the last of them. */
module HashBlocks {
  import opened Words
  import opened HashSpec

  method TakeBlock(f: Compression, v: array<Word32>, block: seq<Byte>)
    modifies v
    ensures v[..] == Compress(f, old(v[..]), block)
  {
    var next := Compress(f, v[..], block);
    forall i | 0 <= i < v.Length {
      v[i] := next[i];
    }
  }

  /** The loop over full blocks; the result is the position behind the last one. */
  method TakeBlocks(f: Compression, v: array<Word32>, p: array<Byte>, start: nat, count: nat) returns (pos: nat)
    requires start + count <= p.Length
    modifies v
    ensures pos == start + count - count % 64
    ensures v[..] == Fold(f, 64, old(v[..]), old(p[start..start + count]))
  {
    hide *;
    var data := p[start..start + count];
    ghost var all := Fold(f, 64, v[..], data);
    pos := start;
    var len := count;
    while len >= 64
      invariant start <= pos && pos + len == start + count && len % 64 == count % 64
      invariant Fold(f, 64, v[..], data[pos - start..]) == all
    {
      var at := pos - start;
      OneBlock(f, v[..], data, at);
      TakeBlock(f, v, data[at..at + 64]);
      pos := pos + 64;
      len := len - 64;
    }
    FoldStep(f, 64, v[..], data[pos - start..]);
  }

  lemma OneBlock(f: Compression, v: seq<Word32>, data: seq<Byte>, at: nat)
    requires at + 64 <= |data|
    ensures Fold(f, 64, v, data[at..]) == Fold(f, 64, Compress(f, v, data[at..at + 64]), data[at + 64..])
  {
    hide Compress;
    assert data[at..][..64] == data[at..at + 64] && data[at..][64..] == data[at + 64..];
    FoldStep(f, 64, v, data[at..]);
  }

  lemma FoldStep(f: Compression, size: nat, v: seq<Word32>, m: seq<Byte>)
    requires size > 0
    ensures Fold(f, size, v, m) == if |m| < size then v else Fold(f, size, Compress(f, v, m[..size]), m[size..])
  {
  }

  // ---------- Words as bytes ----------

  lemma FourBytes(w: nat)
    ensures BigEndian(w, 4) == [w / 0x100_0000 % 0x100, w / 0x1_0000 % 0x100, w / 0x100 % 0x100, w % 0x100]
  {
    var a, b, c := w / 0x100, w / 0x1_0000, w / 0x100_0000;
    assert a / 0x100 == b && b / 0x100 == c;
    assert BigEndian(c, 1) == BigEndian(c / 0x100, 0) + [c % 0x100];
    assert BigEndian(b, 2) == BigEndian(c, 1) + [b % 0x100];
    assert BigEndian(a, 3) == BigEndian(b, 2) + [a % 0x100];
  }

  lemma BytesOfLow(w: nat)
    ensures BigEndian(w % 0x1_0000_0000, 4) == BigEndian(w, 4)
  {
    hide BigEndian;
    FourBytes(w);
    FourBytes(w % 0x1_0000_0000);
    var q, r := w / 0x1_0000_0000, w % 0x1_0000_0000;
    FirstByte(q, r);
    SecondByte(q, r);
    ThirdByte(q, r);
    FourthByte(q, r);
  }

  lemma FirstByte(q: nat, r: nat)
    ensures (0x1_0000_0000 * q + r) % 0x100 == r % 0x100
  {
    Multiples(0x100_0000 * q, r, 0x100);
  }

  lemma SecondByte(q: nat, r: nat)
    ensures (0x1_0000_0000 * q + r) / 0x100 % 0x100 == r / 0x100 % 0x100
  {
    Multiples(0x100_0000 * q, r, 0x100);
    Multiples(0x1_0000 * q, r / 0x100, 0x100);
  }

  lemma ThirdByte(q: nat, r: nat)
    ensures (0x1_0000_0000 * q + r) / 0x1_0000 % 0x100 == r / 0x1_0000 % 0x100
  {
    Multiples(0x1_0000 * q, r, 0x1_0000);
    Multiples(0x100 * q, r / 0x1_0000, 0x100);
  }

  lemma FourthByte(q: nat, r: nat)
    ensures (0x1_0000_0000 * q + r) / 0x100_0000 % 0x100 == r / 0x100_0000 % 0x100
  {
    Multiples(0x100 * q, r, 0x100_0000);
    Multiples(q, r / 0x100_0000, 0x100);
  }

  lemma Multiples(a: nat, r: nat, unit: nat)
    requires unit > 0
    ensures (unit * a + r) / unit == a + r / unit && (unit * a + r) % unit == r % unit
  {
    assert unit * (a + r / unit) == unit * a + unit * (r / unit);
    Divides(unit * a + r, unit, a + r / unit, r % unit);
  }

  lemma {:induction false} BigEndianParts(v: nat, n: nat)
    ensures BigEndian(v, n + 4) == BigEndian(v / 0x1_0000_0000, n) + BigEndian(v, 4)
  {
    var a, b, c := v / 0x100, v / 0x1_0000, v / 0x100_0000;
    assert a / 0x100 == b && b / 0x100 == c && c / 0x100 == v / 0x1_0000_0000;
    FourBytes(v);
    var d := BigEndian(v / 0x1_0000_0000, n);
    assert BigEndian(c, n + 1) == d + [c % 0x100];
    assert BigEndian(b, n + 2) == BigEndian(c, n + 1) + [b % 0x100];
    assert BigEndian(a, n + 3) == BigEndian(b, n + 2) + [a % 0x100];
    assert BigEndian(v, n + 4) == BigEndian(a, n + 3) + [v % 0x100];
  }

  lemma {:induction false} BytesOfZero(n: nat)
    ensures BigEndian(0, n) == ZeroBytes(n)
  {
    if n > 0 {
      BytesOfZero(n - 1);
    }
  }

  /** The upper and the lower word of a number of bits: of n bytes, (n / 2^29) | 0 and n << 3 */
  function High(n: nat): Word32 { n / 0x2000_0000 % 0x1_0000_0000 }
  function Low(n: nat): Word32 { 8 * n % 0x1_0000_0000 }

  lemma LengthField(n: nat)
    ensures BigEndian(8 * n, 8) == BigEndian(High(n), 4) + BigEndian(Low(n), 4)
  {
    hide BigEndian;
    BigEndianParts(8 * n, 4);
    BytesOfLow(8 * n);
    assert 8 * n / 0x1_0000_0000 == n / 0x2000_0000;
    BytesOfLow(n / 0x2000_0000);
  }

  lemma LongLengthField(n: nat)
    requires n < 0x2000_0000_0000_0000
    ensures BigEndian(8 * n, 16) == ZeroBytes(8) + BigEndian(8 * n, 8)
  {
    hide BigEndian;
    var h := 8 * n / 0x1_0000_0000;
    BigEndianParts(8 * n, 12);
    BigEndianParts(h, 8);
    BigEndianParts(8 * n, 4);
    BytesOfZero(8);
    assert h / 0x1_0000_0000 == 0;
  }

  /** A word is written with its high byte first. */
  method WriteWord(x: array<Byte>, at: nat, w: Word32)
    requires at + 4 <= x.Length
    modifies x
    ensures x[..at] == old(x[..at]) && x[at..at + 4] == BigEndian(w, 4) && x[at + 4..] == old(x[at + 4..])
  {
    FourBytes(w);
    x[at] := w / 0x100_0000 % 0x100;
    x[at + 1] := w / 0x1_0000 % 0x100;
    x[at + 2] := w / 0x100 % 0x100;
    x[at + 3] := w % 0x100;
  }

  lemma {:induction false} WordBytesAppend(a: seq<Word32>, b: seq<Word32>)
    ensures WordBytes(a + b) == WordBytes(a) + WordBytes(b)
  {
    if a == [] {
      assert a + b == b;
    } else {
      assert (a + b)[1..] == a[1..] + b;
      WordBytesAppend(a[1..], b);
    }
  }

  lemma OneMoreWord(w: seq<Word32>, i: nat)
    requires i < |w|
    ensures WordBytes(w[..i + 1]) == WordBytes(w[..i]) + BigEndian(w[i], 4)
  {
    assert w[..i + 1] == w[..i] + [w[i]];
    WordBytesAppend(w[..i], [w[i]]);
    assert WordBytes([w[i]]) == BigEndian(w[i], 4) + WordBytes([]);
  }

  // ---------- The end of a message ----------

  /** Where the last blocks end that hold what is left of the message, and what goes behind it */
  function PaddedLength(left: nat, size: nat): nat {
    if left < size - size / 8 then size else 2 * size
  }

  /** The last blocks: what is left of the message, a bit, zeros, and a length field of two words */
  ghost predicate Ends(x: seq<Byte>, rest: seq<Byte>, n: nat) {
    && |rest| + 9 <= |x|
    && x[..|rest|] == rest && x[|rest|] == 0x80
    && x[|rest| + 1..|x| - 8] == ZeroBytes(|x| - 9 - |rest|)
    && x[|x| - 8..] == BigEndian(High(n), 4) + BigEndian(Low(n), 4)
  }

  lemma ZerosOfPadding(n: nat, size: nat)
    requires size == 64 || size == 128
    ensures PaddedLength(n % size, size) - 1 - size / 8 - n % size == (2 * size - 1 - size / 8 - n % size) % size
    ensures 0 <= PaddedLength(n % size, size) - 1 - size / 8 - n % size
  {
  }

  /** What is behind the message is its padding. */
  lemma EndsPadded(x: seq<Byte>, rest: seq<Byte>, n: nat, size: nat)
    requires size == 64 || (size == 128 && n < 0x2000_0000_0000_0000)
    requires |rest| == n % size && |x| == PaddedLength(|rest|, size) && Ends(x, rest, n)
    ensures x == rest + Padding(n, size)
  {
    hide BigEndian, PaddedLength, ZeroBytes, High, Low, Padding;
    ZerosOfPadding(n, size);
    var l, k := |rest|, |x| - 8;
    LengthField(n);
    FieldOfPadding(x[l + 1..k], BigEndian(8 * n, 8), n, size);
    assert x == x[..l] + [x[l]] + x[l + 1..k] + x[k..];
  }

  lemma FieldOfPadding(zeros: seq<Byte>, field: seq<Byte>, n: nat, size: nat)
    requires size == 64 || (size == 128 && n < 0x2000_0000_0000_0000)
    requires |zeros| == PaddedLength(n % size, size) - 9 - n % size && zeros == ZeroBytes(|zeros|)
    requires field == BigEndian(8 * n, 8)
    ensures [0x80] + zeros + field == Padding(n, size)
  {
    hide BigEndian;
    ZerosOfPadding(n, size);
    if size == 128 {
      LongLengthField(n);
      assert zeros == ZeroBytes(|zeros| - 8) + ZeroBytes(8);
    }
  }

  lemma EndOfFold(f: Compression, size: nat, iv: seq<Word32>, taken: seq<Byte>, rest: seq<Byte>, x: seq<Byte>)
    requires size == 64 || (size == 128 && |taken + rest| < 0x2000_0000_0000_0000)
    requires |taken| % size == 0 && |rest| < size
    requires |x| == PaddedLength(|rest|, size) && Ends(x, rest, |taken + rest|)
    ensures Fold(f, size, Fold(f, size, iv, taken), x) == Fold(f, size, iv, taken + rest + Padding(|taken + rest|, size))
  {
    hide Fold, Ends, Padding, PaddedLength;
    var n := |taken + rest|;
    Divides(n, size, |taken| / size, |rest|);
    EndsPadded(x, rest, n, size);
    FoldAppend(f, size, iv, taken, x);
    assert taken + rest + Padding(n, size) == taken + x;
  }

  lemma Together(f: Compression, size: nat, iv: seq<Word32>, taken: seq<Byte>, more: seq<Byte>)
    requires size > 0 && |taken| % size == 0 && |more| % size == 0
    ensures |taken + more| % size == 0
    ensures Fold(f, size, Fold(f, size, iv, taken), more) == Fold(f, size, iv, taken + more)
  {
    hide Fold;
    FoldAppend(f, size, iv, taken, more);
    MultiplesAdd(|taken|, |more|, size);
  }

  lemma MultiplesAdd(a: nat, b: nat, size: nat)
    requires size > 0 && a % size == 0 && b % size == 0
    ensures (a + b) % size == 0
  {
    var p, q := a / size, b / size;
    assert a == size * p && b == size * q;
    assert size * (p + q) == size * p + size * q;
    Divides(a + b, size, p + q, 0);
  }
}
