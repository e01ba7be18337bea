/** SHA-512 over two arrays of half words: hash in one call, and the object that is given its data in pieces. */
module CryptoHash {
  import opened Words
  import opened HashSpec
  import opened HashBlocks

  method TakeBlock512(f: Compression, hh: array<Word32>, hl: array<Word32>, block: seq<Byte>)
    requires hh.Length == 8 && hl.Length == 8 && hh != hl
    modifies hh, hl
    ensures hh[..] + hl[..] == Compress(f, old(hh[..] + hl[..]), block)
  {
    hide Compress;
    var next := Compress(f, hh[..] + hl[..], block);
    forall i | 0 <= i < 8 {
      hh[i] := next[i];
    }
    forall i | 0 <= i < 8 {
      hl[i] := next[8 + i];
    }
    assert hh[..] == next[..8] && hl[..] == next[8..];
  }

  /** The loop over full blocks; the result is the number of bytes behind them. */
  method TakeBlocks512(f: Compression, hh: array<Word32>, hl: array<Word32>, m: array<Byte>, count: nat) returns (n: nat)
    requires hh.Length == 8 && hl.Length == 8 && hh != hl && count <= m.Length
    modifies hh, hl
    ensures n == count % 128
    ensures hh[..] + hl[..] == Fold(f, 128, old(hh[..] + hl[..]), old(m[..count]))
  {
    hide *;
    var data := m[..count];
    ghost var all := Fold(f, 128, hh[..] + hl[..], data);
    var pos := 0;
    n := count;
    while n >= 128
      invariant pos + n == count && n % 128 == count % 128
      invariant Fold(f, 128, hh[..] + hl[..], data[pos..]) == all
    {
      OneBlock512(f, hh[..] + hl[..], data, pos);
      TakeBlock512(f, hh, hl, data[pos..pos + 128]);
      pos := pos + 128;
      n := n - 128;
    }
    FoldStep(f, 128, hh[..] + hl[..], data[pos..]);
  }

  lemma OneBlock512(f: Compression, v: seq<Word32>, data: seq<Byte>, at: nat)
    requires at + 128 <= |data|
    ensures Fold(f, 128, v, data[at..]) == Fold(f, 128, Compress(f, v, data[at..at + 128]), data[at + 128..])
  {
    hide Compress;
    assert data[at..][..128] == data[at..at + 128] && data[at..][128..] == data[at + 128..];
    FoldStep(f, 128, v, data[at..]);
  }

  /** The initial state: the upper halves of its words, and the lower halves */
  method Initial() returns (hh: array<Word32>, hl: array<Word32>)
    ensures fresh(hh) && fresh(hl) && hh != hl && hh.Length == 8 && hl.Length == 8 && hh[..] + hl[..] == IV512
  {
    hh := InitialUpper();
    hl := InitialLower();
  }

  method InitialUpper() returns (hh: array<Word32>)
    ensures fresh(hh) && hh.Length == 8 && hh[..] == IV512[..8]
  {
    hh := new Word32[8];
    hh[0], hh[1], hh[2], hh[3] := 0x6a09e667, 0xbb67ae85, 0x3c6ef372, 0xa54ff53a;
    hh[4], hh[5], hh[6], hh[7] := 0x510e527f, 0x9b05688c, 0x1f83d9ab, 0x5be0cd19;
  }

  method InitialLower() returns (hl: array<Word32>)
    ensures fresh(hl) && hl.Length == 8 && hl[..] == IV512[8..]
  {
    hl := new Word32[8];
    hl[0], hl[1], hl[2], hl[3] := 0xf3bcc908, 0x84caa73b, 0xfe94f82b, 0x5f1d36f1;
    hl[4], hl[5], hl[6], hl[7] := 0xade682d1, 0x2b3e6c1f, 0xfb41bd6b, 0x137e2179;
  }

  /** A 64-bit number is written with its high byte first. */
  method WriteLong(x: array<Byte>, at: nat, h: Word32, l: Word32)
    requires at + 8 <= x.Length
    modifies x
    ensures x[..at] == old(x[..at]) && x[at..at + 8] == BigEndian(h, 4) + BigEndian(l, 4) && x[at + 8..] == old(x[at + 8..])
  {
    hide BigEndian;
    WriteWord(x, at, h);
    ghost var first := x[..at + 4];
    WriteWord(x, at + 4, l);
    assert x[at..at + 8] == first[at..] + x[at + 4..at + 8];
    assert x[..at] == first[..at];
  }

  /**
   * What is left of a message of b bytes is put at the front of one or two blocks of zeros,
   * with the bit and the length behind it.
   */
  method PutEnd512(x: array<Byte>, ghost rest: seq<Byte>, left: nat, b: nat) returns (n: nat)
    requires x.Length == 256 && left == |rest| < 128 && x[..left] == rest && forall i :: left <= i < 256 ==> x[i] == 0
    modifies x
    ensures n == PaddedLength(left, 128) && n <= 256 && Ends(x[..n], rest, b)
  {
    hide BigEndian;
    x[left] := 128;
    n := 256 - 128 * (if left < 112 then 1 else 0);
    x[n - 9] := 0;
    ghost var start := x[..n - 8];
    WriteLong(x, n - 8, High(b), Low(b));
    LongEnds(x[..n], start, rest, b);
  }

  lemma LongEnds(x: seq<Byte>, start: seq<Byte>, rest: seq<Byte>, b: nat)
    requires |rest| + 9 <= |x| && |start| == |x| - 8 && x[..|x| - 8] == start
    requires start[..|rest|] == rest && start[|rest|] == 0x80 && forall j :: |rest| < j < |start| ==> start[j] == 0
    requires x[|x| - 8..] == BigEndian(High(b), 4) + BigEndian(Low(b), 4)
    ensures Ends(x, rest, b)
  {
    hide BigEndian;
    assert x[..|rest|] == start[..|rest|];
    assert x[|rest| + 1..|x| - 8] == start[|rest| + 1..];
  }

  lemma OneMorePair(v: seq<Word32>, i: nat)
    requires |v| == 16 && i < 8
    ensures WordBytes(Halves(v)[..2 * (i + 1)])
         == WordBytes(Halves(v)[..2 * i]) + (BigEndian(v[i], 4) + BigEndian(v[8 + i], 4))
  {
    hide WordBytes, BigEndian;
    var w := Halves(v);
    OneMoreWord(w, 2 * i);
    OneMoreWord(w, 2 * i + 1);
    assert w[2 * i] == v[i] && w[2 * i + 1] == v[8 + i];
    var a, b, c := WordBytes(w[..2 * i]), BigEndian(v[i], 4), BigEndian(v[8 + i], 4);
    assert a + b + c == a + (b + c);
  }

  method WriteState512(out: array<Byte>, hh: array<Word32>, hl: array<Word32>)
    requires hh.Length == 8 && hl.Length == 8 && out.Length >= 64
    modifies out
    ensures out[..64] == WordBytes(Halves(old(hh[..] + hl[..]))) && out[64..] == old(out[64..])
  {
    hide WordBytes, BigEndian, Halves;
    var v := hh[..] + hl[..];
    assert out[..0] == WordBytes(Halves(v)[..0]) by { assert Halves(v)[..0] == []; assert WordBytes([]) == []; }
    var i := 0;
    while i < 8
      invariant i <= 8 && out[..8 * i] == WordBytes(Halves(v)[..2 * i]) && out[64..] == old(out[64..])
    {
      ghost var before := out[..8 * i];
      WriteLong(out, 8 * i, v[i], v[8 + i]);
      OneMorePair(v, i);
      assert out[..8 * (i + 1)] == before + out[8 * i..8 * i + 8];
      i := i + 1;
    }
    assert Halves(v)[..16] == Halves(v);
  }

  /** What ends both forms: the last blocks are taken and the digest is written. */
  method TakeEnd(f: Compression, hh: array<Word32>, hl: array<Word32>, x: array<Byte>, left: nat, b: nat, out: array<Byte>,
                 ghost taken: seq<Byte>, ghost rest: seq<Byte>)
    requires hh.Length == 8 && hl.Length == 8 && hh != hl && x.Length == 256 && x != out && out.Length >= 64
    requires |taken| % 128 == 0 && left == |rest| < 128 && b == |taken + rest|
    requires x[..left] == rest && forall i :: left <= i < 256 ==> x[i] == 0
    requires hh[..] + hl[..] == Fold(f, 128, IV512, taken)
    modifies hh, hl, x, out
    ensures b < 0x2000_0000_0000_0000 ==> out[..64] == Sha512(f, taken + rest)
    ensures out[64..] == old(out[64..])
  {
    hide Fold, Padding, Ends, PaddedLength, IV512, WordBytes, Halves;
    ghost var behind := out[64..];
    var n := PutEnd512(x, rest, left, b);
    if b < 0x2000_0000_0000_0000 {
      EndOfFold(f, 128, IV512, taken, rest, x[..n]);
    }
    var _ := TakeBlocks512(f, hh, hl, x, n);
    assert out[64..] == behind;
    WriteState512(out, hh, hl);
  }

  /** Two blocks, with bytes at their front and zeros behind them */
  method Behind(m: seq<Byte>) returns (x: array<Byte>)
    requires |m| < 128
    ensures fresh(x) && x.Length == 256 && x[..|m|] == m && forall i :: |m| <= i < 256 ==> x[i] == 0
  {
    x := new Byte[256](i => 0);
    var i := 0;
    while i < |m|
      invariant i <= |m|
      invariant forall j :: 0 <= j < i ==> x[j] == m[j]
      invariant forall j :: i <= j < 256 ==> x[j] == 0
    {
      x[i] := m[i];
      i := i + 1;
    }
  }

  /** crypto_hash: the digest of the first count bytes of m; the field for the length has no room for more than 2^61. */
  method Hash(f: Compression, out: array<Byte>, m: array<Byte>, count: nat)
    requires out.Length >= 64 && count <= m.Length
    modifies out
    ensures count < 0x2000_0000_0000_0000 ==> out[..64] == Sha512(f, old(m[..count]))
    ensures out[64..] == old(out[64..])
  {
    hide Fold, IV512, Sha512;
    var hh, hl := Initial();
    ghost var all := m[..count];
    var n := TakeBlocks512(f, hh, hl, m, count);
    ghost var taken, rest := all[..count - n], all[count - n..];
    assert taken + rest == all;
    var x := Behind(m[count - n..count]);
    WholeBlocks512(f, IV512, all);
    TakeEnd(f, hh, hl, x, n, count, out, taken, rest);
  }

  lemma {:induction false} FullBlocks512(f: Compression, v: seq<Word32>, m: seq<Byte>)
    ensures Fold(f, 128, v, m) == Fold(f, 128, v, m[..|m| - |m| % 128])
    decreases |m|
  {
    hide Compress, Fold;
    FoldStep(f, 128, v, m);
    var whole := m[..|m| - |m| % 128];
    FoldStep(f, 128, v, whole);
    if |m| >= 128 {
      FullBlocks512(f, Compress(f, v, m[..128]), m[128..]);
      assert m[128..][..|m| - 128 - (|m| - 128) % 128] == whole[128..] && whole[..128] == m[..128];
    }
  }

  lemma WholeBlocks512(f: Compression, v: seq<Word32>, m: seq<Byte>)
    ensures Fold(f, 128, v, m) == Fold(f, 128, v, m[..|m| - |m| % 128]) && (|m| - |m| % 128) % 128 == 0
  {
    hide Fold;
    FullBlocks512(f, v, m);
    Whole(|m|);
  }

  lemma Whole(n: nat)
    ensures (n - n % 128) % 128 == 0
  {
  }

  class HashState {
    const f: Compression
    const hh: array<Word32>
    const hl: array<Word32>
    const next: array<Byte>
    var p: nat
    var total: nat
    // everything that update was given
    ghost var message: seq<Byte>

    ghost predicate Shape() {
      hh.Length == 8 && hl.Length == 8 && hh != hl && next.Length == 128
    }

    ghost predicate Holds(taken: seq<Byte>, rest: seq<Byte>)
      reads `p, hh, hl, next
    {
      && Shape() && p < 128 && |taken| % 128 == 0
      && hh[..] + hl[..] == Fold(f, 128, IV512, taken) && next[..p] == rest
    }

    ghost predicate Valid()
      reads this, hh, hl, next
    {
      && total == |message| && p <= |message| && Holds(message[..|message| - p], message[|message| - p..])
    }

    constructor (f: Compression)
      ensures Valid() && message == [] && this.f == f
      ensures fresh({hh, hl}) && fresh(next)
    {
      hide Fold, IV512;
      var upper, lower := Initial();
      this.f := f;
      hh, hl := upper, lower;
      next := new Byte[128];
      p, total := 0, 0;
      message := [];
      new;
      FoldStep(f, 128, IV512, []);
      assert next[..0] == [];
      Closes([], []);
    }

    lemma Opens()
      requires Valid()
      ensures Holds(message[..|message| - p], message[|message| - p..])
    {
    }

    lemma Closes(taken: seq<Byte>, rest: seq<Byte>)
      requires Holds(taken, rest) && message == taken + rest && total == |message|
      ensures Valid()
    {
      hide Fold;
      assert message[..|message| - p] == taken && message[|message| - p..] == rest;
    }

    /** Bytes are put behind those in the buffer. */
    method Copy(data: array<Byte>, i: nat, count: nat, ghost rest: seq<Byte>)
      requires Shape() && data != next && i + count <= data.Length && p + count <= 128 && next[..p] == rest
      modifies next
      ensures next[..p + count] == rest + data[i..i + count]
    {
      var j := 0;
      while j < count
        invariant j <= count && next[..p] == rest
        invariant next[p..p + j] == data[i..i + j]
      {
        next[p + j] := data[i + j];
        j := j + 1;
        assert next[p..p + j] == next[p..p + (j - 1)] + [next[p + (j - 1)]];
        assert data[i..i + j] == data[i..i + (j - 1)] + [data[i + (j - 1)]];
      }
      assert next[..p + count] == next[..p] + next[p..p + count];
    }

    /** The buffer is filled up and taken. */
    method TakeNext(data: array<Byte>, i: nat, ghost taken: seq<Byte>, ghost rest: seq<Byte>)
      requires Holds(taken, rest) && data != next && i + (128 - p) <= data.Length
      modifies hh, hl, next, `p
      ensures p == 0 && Holds(taken + (rest + data[i..i + (128 - old(p))]), [])
    {
      hide Fold, IV512;
      Copy(data, i, 128 - p, rest);
      ghost var full := rest + data[i..i + (128 - p)];
      assert next[..128] == full;
      var _ := TakeBlocks512(f, hh, hl, next, 128);
      Together(f, 128, IV512, taken, full);
      p := 0;
      assert next[..0] == [];
    }

    /** What does not fill up the buffer is kept in it. */
    method Keep(data: array<Byte>, i: nat, ghost taken: seq<Byte>, ghost rest: seq<Byte>)
      requires Holds(taken, rest) && data != next && i <= data.Length && data.Length - i < 128 - p
      modifies next, `p
      ensures Holds(taken, rest + data[i..])
    {
      hide Fold, IV512;
      Copy(data, i, data.Length - i, rest);
      assert data[i..i + (data.Length - i)] == data[i..];
      p := p + (data.Length - i);
    }

    method Update(data: array<Byte>)
      requires Valid() && data != next
      modifies this, hh, hl, next
      ensures Valid() && message == old(message) + data[..]
    {
      hide Holds, Fold;
      Opens();
      ghost var given := data[..];
      ghost var taken, rest := message[..|message| - p], message[|message| - p..];
      ghost var before := message;
      assert taken + rest == before + given[..0];
      total := total + data.Length;
      var i := 0;
      while i < data.Length
        invariant i <= data.Length && Holds(taken, rest) && taken + rest == before + given[..i]
        invariant total == |before| + |given| && data[..] == given
      {
        Fits(taken, rest);
        var r := 128 - p;
        if r > data.Length - i {
          Keep(data, i, taken, rest);
          rest := rest + data[i..];
          assert before + given[..i] + data[i..] == before + given[..data.Length];
          assert taken + rest == before + given[..data.Length];
          i := data.Length;
        } else {
          TakeNext(data, i, taken, rest);
          taken, rest := taken + (rest + data[i..i + r]), [];
          assert before + given[..i] + data[i..i + r] == before + given[..i + r];
          assert taken + rest == before + given[..i + r];
          i := i + r;
        }
      }
      message := before + given;
      Closes(taken, rest);
    }

    lemma Fits(taken: seq<Byte>, rest: seq<Byte>)
      requires Holds(taken, rest)
      ensures p < 128
    {
      hide Fold;
    }

    /** The digest of everything given to update; the state has then taken the padding as well. */
    method Finish() returns (out: array<Byte>)
      requires Valid()
      modifies hh, hl
      ensures fresh(out) && out.Length == 64
      ensures |message| < 0x2000_0000_0000_0000 ==> out[..] == Sha512(f, message)
    {
      hide Fold, IV512, Sha512;
      out := new Byte[64];
      ghost var taken, rest := message[..|message| - p], message[|message| - p..];
      assert taken + rest == message;
      var n := p;
      var x := Behind(next[..n]);
      TakeEnd(f, hh, hl, x, n, total, out, taken, rest);
      assert out[..] == out[..64];
    }
  }
}
