/** Which keys Anastasis derives: those of a policy come from its shares and no others, in their order. */
module AnastasisBinding {
  import opened Wrappers
  import opened Words
  import opened HashSpec
  import opened HashBinding
  import opened AnastasisCrypto
  import Kdf

  /** Shares have the size of the random values they are. */
  predicate AreShares(s: seq<Bytes>) { forall i :: 0 <= i < |s| ==> |s[i]| == 32 }

  lemma {:induction false} FlattenSize(s: seq<Bytes>)
    requires AreShares(s)
    ensures |Flatten(s)| == 32 * |s|
  {
    if s != [] {
      FlattenSize(s[..|s| - 1]);
    }
  }

  lemma {:induction false} FlattenInjective(a: seq<Bytes>, b: seq<Bytes>)
    requires AreShares(a) && AreShares(b) && Flatten(a) == Flatten(b)
    ensures a == b
    decreases |a|
  {
    FlattenSize(a);
    FlattenSize(b);
    if a != [] {
      var x, y := a[..|a| - 1], b[..|b| - 1];
      FlattenSize(x);
      FlattenSize(y);
      assert Flatten(a)[..32 * |x|] == Flatten(x) && Flatten(b)[..32 * |y|] == Flatten(y);
      assert Flatten(a)[32 * |x|..] == a[|x|] && Flatten(b)[32 * |y|..] == b[|y|];
      FlattenInjective(x, y);
      assert a == x + [a[|x|]] && b == y + [b[|y|]];
    }
  }

  /**
   * Two lists of shares, or the same under two salts, that give the same policy key lead to a collision of a
   * compression function: a wrong share, a missing one, or shares in another order do not give the key.
   */
  lemma PolicyKeyCollision(p: Primitives, a: seq<Bytes>, b: seq<Bytes>, salt: Bytes, salt': Bytes) returns (c: Found)
    requires AreShares(a) && AreShares(b) && |a| < 0x10_0000_0000 && |b| < 0x10_0000_0000
    requires |salt| == |salt'| <= 128 && (a != b || salt != salt') && PolicyKey(p, a, salt) == PolicyKey(p, b, salt')
    ensures IsFound(p.f256, p.f512, c)
  {
    hide Kdf.Derived, IsFound;
    FlattenSize(a);
    FlattenSize(b);
    if Flatten(a) == Flatten(b) {
      FlattenInjective(a, b);
    }
    c := DerivedCollision(p.f256, p.f512, 64, Flatten(a), salt, POLICY_KEY_INFO, Flatten(b), salt', POLICY_KEY_INFO);
  }

  /** The same for the key of an encryption: another seed, nonce or salt does not give it. */
  lemma DerivedKeyCollision(p: Primitives, seed: Bytes, nonce: Bytes, salt: Bytes, seed': Bytes, nonce': Bytes, salt': Bytes)
    returns (c: Found)
    requires |nonce| == |nonce'| == 24 && (seed != seed' || nonce != nonce' || salt != salt')
    requires Moderate(seed) && Moderate(seed') && Moderate(salt) && Moderate(salt')
    requires DerivedKey(p, seed, nonce, salt) == DerivedKey(p, seed', nonce', salt')
    ensures IsFound(p.f256, p.f512, c)
  {
    hide Kdf.Derived, IsFound;
    c := DerivedCollision(p.f256, p.f512, 32, seed, nonce, salt, seed', nonce', salt');
  }

  /** Master keys and core secrets are encrypted under different keys even of one seed. */
  lemma SaltsDiffer()
    ensures MASTER_KEY_SALT != CORE_SECRET_SALT && |POLICY_KEY_INFO| == 27
  {
    assert MASTER_KEY_SALT[0] != CORE_SECRET_SALT[0];
  }
}
