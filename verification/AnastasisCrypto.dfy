/** How Anastasis encrypts: a key is derived from a seed and a nonce, and the nonce is put before the secret box. */
module AnastasisCrypto {
  import opened Wrappers
  import opened Words
  import opened HashSpec
  import opened SecretboxSpec
  import Kdf
  import Secretbox

  type Bytes = seq<Byte>

  /** The compression functions and the cipher core */
  datatype Primitives = Primitives(f256: Compression, f512: Compression, salsa: Salsa)

  /** The salts "emk" and "cse", and "anastasis-policy-key-derive" */
  const MASTER_KEY_SALT: Bytes := [0x65, 0x6d, 0x6b]
  const CORE_SECRET_SALT: Bytes := [0x63, 0x73, 0x65]
  const POLICY_KEY_INFO: Bytes :=
    [0x61, 0x6e, 0x61, 0x73, 0x74, 0x61, 0x73, 0x69, 0x73, 0x2d, 0x70, 0x6f, 0x6c, 0x69, 0x63, 0x79,
     0x2d, 0x6b, 0x65, 0x79, 0x2d, 0x64, 0x65, 0x72, 0x69, 0x76, 0x65]

  function DerivedKey(p: Primitives, seed: Bytes, nonce: Bytes, salt: Bytes): (key: Bytes)
    ensures |key| == 32
  {
    DerivedSize(p, 32, seed, nonce, salt);
    Kdf.Derived(p.f256, p.f512, 32, seed, nonce, salt)
  }

  lemma DerivedSize(p: Primitives, length: nat, ikm: Bytes, salt: Bytes, info: Bytes)
    ensures |Kdf.Derived(p.f256, p.f512, length, ikm, salt, info)| == length
  {
    hide Expanded, Hmac;
    Kdf.BlockSizes(p.f256, Kdf.Mac512(p.f512)(salt, ikm), info, (length + 31) / 32);
  }

  function Encrypted(p: Primitives, nonce: Bytes, seed: Bytes, plain: Bytes, salt: Bytes): Bytes
    requires |nonce| == 24
  {
    nonce + Box(p.salsa, plain, nonce, DerivedKey(p, seed, nonce, salt))
  }

  /** What is decrypted, or nothing if the program throws */
  function Decrypted(p: Primitives, seed: Bytes, c: Bytes, salt: Bytes): Option<Bytes> {
    if |c| < 24 then None else Open(p.salsa, c[24..], c[..24], DerivedKey(p, seed, c[..24], salt))
  }

  /** Something decrypts to a text exactly if it is an encryption of that text under the same seed and salt. */
  lemma DecryptsExactly(p: Primitives, seed: Bytes, c: Bytes, salt: Bytes, plain: Bytes)
    ensures Decrypted(p, seed, c, salt) == Some(plain) <==> |c| >= 24 && c == Encrypted(p, c[..24], seed, plain, salt)
  {
    hide Box, Open, DerivedKey;
    if |c| >= 24 {
      var key := DerivedKey(p, seed, c[..24], salt);
      OpensOnlyItsBox(p.salsa, c[24..], plain, c[..24], key);
      assert c == c[..24] + c[24..];
    }
  }

  lemma EncryptedDecrypts(p: Primitives, nonce: Bytes, seed: Bytes, plain: Bytes, salt: Bytes)
    requires |nonce| == 24
    ensures Decrypted(p, seed, Encrypted(p, nonce, seed, plain, salt), salt) == Some(plain)
  {
    hide Decrypted, Box, DerivedKey;
    var c := Encrypted(p, nonce, seed, plain, salt);
    assert c[..24] == nonce;
    DecryptsExactly(p, seed, c, salt, plain);
  }

  method Encrypt(p: Primitives, nonce: Bytes, seed: Bytes, plain: Bytes, salt: Bytes) returns (c: Bytes)
    requires |nonce| == 24
    ensures c == Encrypted(p, nonce, seed, plain, salt)
  {
    hide Box, Kdf.Derived;
    var key := Kdf.Derive(p.f256, p.f512, 32, seed, Some(nonce), Some(salt));
    var box := Secretbox.MakeBox(p.salsa, plain, nonce, key);
    c := nonce + box.value;
  }

  method Decrypt(p: Primitives, seed: Bytes, c: Bytes, salt: Bytes) returns (r: Option<Bytes>)
    ensures r == Decrypted(p, seed, c, salt)
  {
    hide Open, Kdf.Derived;
    var nonce := if |c| < 24 then c else c[..24];
    var enc := if |c| < 24 then [] else c[24..];
    var key := Kdf.Derive(p.f256, p.f512, 32, seed, Some(nonce), Some(salt));
    var found := Secretbox.OpenBox(p.salsa, enc, nonce, key);
    r := if found.None? then None else found.value;
  }

  // ---------- Keys of policies ----------

  function Flatten(chunks: seq<Bytes>): Bytes {
    if chunks == [] then [] else Flatten(chunks[..|chunks| - 1]) + chunks[|chunks| - 1]
  }

  method Concat(chunks: seq<Bytes>) returns (r: Bytes)
    ensures r == Flatten(chunks)
  {
    var payloadLen := 0;
    var i := 0;
    while i < |chunks|
      invariant i <= |chunks| && payloadLen == |Flatten(chunks[..i])|
    {
      assert chunks[..i + 1][..i] == chunks[..i];
      payloadLen := payloadLen + |chunks[i]|;
      i := i + 1;
    }
    assert chunks[..i] == chunks;
    var buf := new Byte[payloadLen];
    var p := 0;
    i := 0;
    while i < |chunks|
      invariant i <= |chunks| && p == |Flatten(chunks[..i])| <= payloadLen && buf[..p] == Flatten(chunks[..i])
    {
      assert chunks[..i + 1][..i] == chunks[..i];
      PartFits(chunks, i + 1);
      Kdf.Set(buf, chunks[i], p);
      assert buf[..p + |chunks[i]|] == buf[..p] + buf[p..p + |chunks[i]|];
      p := p + |chunks[i]|;
      i := i + 1;
    }
    assert chunks[..i] == chunks && buf[..] == buf[..p];
    r := buf[..];
  }

  lemma {:induction false} PartFits(chunks: seq<Bytes>, i: nat)
    requires i <= |chunks|
    ensures |Flatten(chunks[..i])| <= |Flatten(chunks)|
    decreases |chunks|
  {
    if i == |chunks| {
      assert chunks[..i] == chunks;
    } else {
      assert chunks[..|chunks| - 1][..i] == chunks[..i];
      PartFits(chunks[..|chunks| - 1], i);
    }
  }

  function PolicyKey(p: Primitives, shares: seq<Bytes>, salt: Bytes): Bytes {
    Kdf.Derived(p.f256, p.f512, 64, Flatten(shares), salt, POLICY_KEY_INFO)
  }

  method DerivePolicyKey(p: Primitives, shares: seq<Bytes>, salt: Bytes) returns (key: Bytes)
    ensures key == PolicyKey(p, shares, salt)
  {
    hide Kdf.Derived;
    var ikm := Concat(shares);
    key := Kdf.Derive(p.f256, p.f512, 64, ikm, Some(salt), Some(POLICY_KEY_INFO));
  }

  // ---------- The core secret ----------

  /** Random values for one encryption of a core secret; each nonce is used for one policy. */
  datatype Randomness = Randomness(masterKey: Bytes, nonce: Bytes, policyNonces: seq<Bytes>)

  predicate Enough(r: Randomness, n: nat) {
    |r.nonce| == 24 && |r.policyNonces| == n && forall i :: 0 <= i < n ==> |r.policyNonces[i]| == 24
  }

  function EncryptedMasterKey(p: Primitives, nonce: Bytes, policyKey: Bytes, masterKey: Bytes): Bytes
    requires |nonce| == 24
  {
    Encrypted(p, nonce, policyKey, masterKey, MASTER_KEY_SALT)
  }

  function RecoveredSecret(p: Primitives, encMasterKey: Bytes, policyKey: Bytes, encSecret: Bytes): Option<Bytes> {
    var masterKey := Decrypted(p, policyKey, encMasterKey, MASTER_KEY_SALT);
    if masterKey.None? then None else Decrypted(p, masterKey.value, encSecret, CORE_SECRET_SALT)
  }

  method EncryptCoreSecret(p: Primitives, policyKeys: seq<Bytes>, coreSecret: Bytes, random: Randomness)
    returns (encCoreSecret: Bytes, encMasterKeys: seq<Bytes>)
    requires Enough(random, |policyKeys|)
    ensures |encMasterKeys| == |policyKeys|
    ensures forall i :: 0 <= i < |policyKeys| ==> RecoveredSecret(p, encMasterKeys[i], policyKeys[i], encCoreSecret) == Some(coreSecret)
  {
    hide Encrypted, Decrypted;
    encCoreSecret := Encrypt(p, random.nonce, random.masterKey, coreSecret, CORE_SECRET_SALT);
    EncryptedDecrypts(p, random.nonce, random.masterKey, coreSecret, CORE_SECRET_SALT);
    encMasterKeys := [];
    var i := 0;
    while i < |policyKeys|
      invariant i == |encMasterKeys| <= |policyKeys|
      invariant forall j :: 0 <= j < i ==> RecoveredSecret(p, encMasterKeys[j], policyKeys[j], encCoreSecret) == Some(coreSecret)
    {
      var encMasterKey := Encrypt(p, random.policyNonces[i], policyKeys[i], random.masterKey, MASTER_KEY_SALT);
      EncryptedDecrypts(p, random.policyNonces[i], policyKeys[i], random.masterKey, MASTER_KEY_SALT);
      encMasterKeys := encMasterKeys + [encMasterKey];
      i := i + 1;
    }
  }

  method RecoverCoreSecret(p: Primitives, encMasterKey: Bytes, policyKey: Bytes, encSecret: Bytes) returns (r: Option<Bytes>)
    ensures r == RecoveredSecret(p, encMasterKey, policyKey, encSecret)
  {
    hide Decrypted;
    var masterKey := Decrypt(p, policyKey, encMasterKey, MASTER_KEY_SALT);
    if masterKey.None? {
      return None;
    }
    r := Decrypt(p, masterKey.value, encSecret, CORE_SECRET_SALT);
  }
}
