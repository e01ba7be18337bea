/** The HMAC object over SHA-256: keyed once, and used again after each reset. */
module StreamHmac {
  import opened Wrappers
  import opened Words
  import opened HashSpec
  import opened StreamHash

  function Hash(f: Compression): Digest { m => Sha256(f, m) }

  lemma {:induction false} XorMiddle(x: nat, a: nat, b: nat)
    ensures Xor(Xor(x, a), Xor(a, b)) == Xor(x, b)
  {
    if x != 0 || a != 0 || b != 0 {
      XorMiddle(x / 2, a / 2, b / 2);
    }
  }

  lemma OtherPad(k: seq<Byte>)
    ensures forall i :: 0 <= i < |k| ==> XorBytes(XorAll(k, 0x36)[i], XorBytes(0x36, 0x5c)) == XorAll(k, 0x5c)[i]
  {
    hide Xor;
    forall i | 0 <= i < |k|
      ensures XorBytes(XorAll(k, 0x36)[i], XorBytes(0x36, 0x5c)) == XorAll(k, 0x5c)[i]
    {
      XorMiddle(k[i], 0x36, 0x5c);
    }
  }

  /** Each byte is changed by an exclusive or with the same byte. */
  method XorPad(pad: array<Byte>, x: Byte)
    modifies pad
    ensures pad[..] == XorAll(old(pad[..]), x)
  {
    hide XorBytes;
    var i := 0;
    while i < pad.Length
      invariant i <= pad.Length
      invariant forall j :: 0 <= j < i ==> pad[j] == XorBytes(old(pad[j]), x)
      invariant forall j :: i <= j < pad.Length ==> pad[j] == old(pad[j])
    {
      pad[i] := XorBytes(pad[i], x);
      i := i + 1;
    }
  }

  /** The key as one block */
  method PadKey(f: Compression, key: array<Byte>) returns (pad: array<Byte>)
    ensures fresh(pad) && pad.Length == 64 && pad[..] == BlockKey(Hash(f), 64, key[..])
  {
    hide HashSha256.Valid, Sha256;
    pad := new Byte[64](i => 0);
    if key.Length > 64 {
      var h := new HashSha256(f);
      var _ := h.Update(key, key.Length);
      assert h.message == key[..];
      h.Finish(pad);
      assert pad[..32] == Hash(f)(key[..]);
      h.Clean();
      assert pad[..] == pad[..32] + pad[32..];
    } else {
      var i := 0;
      while i < key.Length
        invariant i <= key.Length && forall j :: 0 <= j < i ==> pad[j] == key[j]
        invariant forall j :: i <= j < 64 ==> pad[j] == 0
      {
        pad[i] := key[i];
        i := i + 1;
      }
    }
  }

  class HMAC {
    const f: Compression
    const inner: HashSha256
    const outer: HashSha256
    const istate: array<Word32>
    const ostate: array<Word32>
    ghost const key: seq<Byte>
    // everything that update was given since the last reset
    ghost var message: seq<Byte>

    ghost function Block(): (b: seq<Byte>)
      ensures |b| == 64
    {
      BlockKey(Hash(f), 64, key)
    }

    ghost predicate Separate() {
      && inner != outer && inner.state != outer.state && inner.buffer != outer.buffer
      && istate.Length == 8 && ostate.Length == 8 && istate != ostate
      && istate !in {inner.state, outer.state} && ostate !in {inner.state, outer.state}
      && inner.f == f && outer.f == f
      && inner.state.Length == 8 && inner.buffer.Length == 128 && outer.state.Length == 8 && outer.buffer.Length == 128
    }

    ghost predicate Keyed()
      reads istate, ostate
    {
      && istate[..] == Fold(f, 64, IV256, XorAll(Block(), 0x36))
      && ostate[..] == Fold(f, 64, IV256, XorAll(Block(), 0x5c))
    }

    ghost predicate Valid()
      reads this, inner, inner.state, inner.buffer, outer, outer.state, outer.buffer, istate, ostate
    {
      && Separate() && Keyed() && inner.Valid() && outer.Valid() && inner.finished == outer.finished
      && inner.message == XorAll(Block(), 0x36) + message
      && outer.message == XorAll(Block(), 0x5c) + if outer.finished then Sha256(f, inner.message) else []
    }

    constructor (f: Compression, key: array<Byte>)
      ensures Valid() && Separate() && !outer.finished && message == []
      ensures this.f == f && this.key == key[..]
      ensures fresh({inner, outer, inner.state, inner.buffer, outer.state, outer.buffer, istate, ostate})
    {
      hide HashSha256.Valid, Sha256, BlockKey, Fold, XorAll, XorBytes;
      this.f := f;
      message := [];
      var i := new HashSha256(f);
      var o := new HashSha256(f);
      inner, outer := i, o;
      istate := new Word32[8];
      ostate := new Word32[8];
      this.key := key[..];
      new;
      var pad := PadKey(f, key);
      KeyWith(pad);
    }

    /** The hash of a block, and nothing behind it, is saved. */
    static method TakePad(h: HashSha256, pad: array<Byte>)
      requires h.Valid() && !h.finished && h.message == [] && pad != h.buffer && pad.Length == 64
      modifies h, h.state, h.buffer
      ensures h.Valid() && !h.finished && h.message == pad[..] && h.state.Length == 8
      ensures h.state[..] == Fold(h.f, 64, IV256, pad[..])
    {
      hide HashSha256.Valid, Fold;
      var _ := h.Update(pad, pad.Length);
      assert h.message == pad[..];
      NothingKept(h);
    }

    method KeyWith(pad: array<Byte>)
      requires Separate() && pad[..] == Block() && pad != inner.buffer && pad != outer.buffer && message == []
      requires inner.Valid() && !inner.finished && inner.message == []
      requires outer.Valid() && !outer.finished && outer.message == []
      modifies pad, inner, inner.state, inner.buffer, outer, outer.state, outer.buffer, istate, ostate
      ensures Valid() && !outer.finished && message == []
    {
      hide HashSha256.Valid, Fold, XorAll, XorBytes, Sha256;
      XorPad(pad, 0x36);
      TakePad(inner, pad);
      XorPad(pad, XorBytes(0x36, 0x5c));
      OtherPad(Block());
      PadsAgree(Block(), pad[..]);
      TakePad(outer, pad);
      inner.SaveState(istate);
      outer.SaveState(ostate);
      Clear(pad);
      assert Keyed();
    }

    /** Back to the state that only the key has gone into */
    method Reset()
      requires Separate() && Keyed()
      modifies this, inner, inner.state, outer, outer.state
      ensures Valid() && !outer.finished && message == []
    {
      hide HashSha256.Valid, Fold, XorAll;
      inner.RestoreState(istate, 64, XorAll(Block(), 0x36));
      outer.RestoreState(ostate, 64, XorAll(Block(), 0x5c));
      message := [];
    }

    /** Afterwards nothing is left of the key. */
    method Clean()
      requires Separate()
      modifies inner, inner.state, inner.buffer, outer, outer.state, outer.buffer, istate, ostate
      ensures forall i :: 0 <= i < 8 ==> istate[i] == 0 && ostate[i] == 0
      ensures inner.Valid() && inner.message == [] && outer.Valid() && outer.message == []
      ensures forall i :: 0 <= i < 128 ==> inner.buffer[i] == 0 && outer.buffer[i] == 0
    {
      hide HashSha256.Valid;
      var i := 0;
      while i < istate.Length
        invariant i <= 8 && forall j :: 0 <= j < i ==> istate[j] == 0 && ostate[j] == 0
        modifies istate, ostate
      {
        istate[i] := 0;
        ostate[i] := 0;
        i := i + 1;
      }
      inner.Clean();
      outer.Clean();
    }

    method Update(data: array<Byte>) returns (r: Result<(), HashError>)
      requires Valid() && data != inner.buffer && data != outer.buffer
      modifies this, inner, inner.state, inner.buffer
      ensures Valid() && outer.finished == old(outer.finished) && r.Err? == outer.finished
      ensures message == old(message) + if r.Ok? then data[..] else []
    {
      hide HashSha256.Valid, Fold, XorAll, Sha256;
      r := inner.Update(data, data.Length);
      assert data[..data.Length] == data[..];
      message := message + if r.Ok? then data[..] else [];
      assert inner.message == XorAll(Block(), 0x36) + message;
      if r.Err? {
        assert inner.message == old(inner.message);
      }
      assert Keyed();
    }

    lemma HmacOf()
      requires inner.message == XorAll(Block(), 0x36) + message
      requires outer.message == XorAll(Block(), 0x5c) + Sha256(f, inner.message)
      ensures Sha256(f, outer.message) == Hmac(Hash(f), 64, key, message)
    {
      hide Sha256, XorAll, BlockKey;
    }

    /** finish puts the code of everything given to update into out, as often as it is called. */
    method Finish(out: array<Byte>)
      requires Valid() && out != inner.buffer && out != outer.buffer && out.Length >= 32
      modifies inner, inner.state, inner.buffer, outer, outer.state, outer.buffer, out
      ensures Valid() && outer.finished && message == old(message)
      ensures out[..32] == Hmac(Hash(f), 64, key, message)
      ensures out[32..] == old(out[32..])
    {
      hide HashSha256.Valid, Fold, XorAll, Sha256, BlockKey;
      if outer.finished {
        outer.Finish(out);
      } else {
        inner.Finish(out);
        ghost var first := out[..32];
        var _ := outer.Update(out, 32);
        assert outer.message == XorAll(Block(), 0x5c) + first;
        outer.Finish(out);
      }
      assert Keyed();
      assert out[..32] == Sha256(f, outer.message);
      HmacOf();
    }

    method Digest() returns (out: array<Byte>)
      requires Valid()
      modifies inner, inner.state, inner.buffer, outer, outer.state, outer.buffer
      ensures Valid() && outer.finished && message == old(message) && fresh(out)
      ensures out[..] == Hmac(Hash(f), 64, key, message)
    {
      hide Valid, BlockKey, Hmac;
      out := new Byte[32];
      Finish(out);
      assert out[..] == out[..32];
    }
  }

  lemma PadsAgree(k: seq<Byte>, pad: seq<Byte>)
    requires forall i :: 0 <= i < |k| ==> XorBytes(XorAll(k, 0x36)[i], XorBytes(0x36, 0x5c)) == XorAll(k, 0x5c)[i]
    requires pad == XorAll(XorAll(k, 0x36), XorBytes(0x36, 0x5c))
    ensures pad == XorAll(k, 0x5c)
  {
    hide XorBytes;
  }

  method Clear(pad: array<Byte>)
    modifies pad
    ensures forall j :: 0 <= j < pad.Length ==> pad[j] == 0
  {
    var i := 0;
    while i < pad.Length
      invariant i <= pad.Length && forall j :: 0 <= j < i ==> pad[j] == 0
    {
      pad[i] := 0;
      i := i + 1;
    }
  }

  method OneShotSha256(f: Compression, data: array<Byte>) returns (digest: array<Byte>)
    ensures fresh(digest) && digest[..] == Sha256(f, data[..])
  {
    hide HashSha256.Valid, Sha256;
    var h := new HashSha256(f);
    var _ := h.Update(data, data.Length);
    assert h.message == data[..];
    digest := h.Digest();
    h.Clean();
  }

  method OneShotHmac(f: Compression, key: array<Byte>, data: array<Byte>) returns (digest: array<Byte>)
    ensures fresh(digest) && digest[..] == Hmac(Hash(f), 64, key[..], data[..])
  {
    hide Hmac, HMAC.Valid, BlockKey;
    var h := new HMAC(f, key);
    var _ := h.Update(data);
    assert h.message == data[..];
    digest := h.Digest();
    h.Clean();
  }
}
