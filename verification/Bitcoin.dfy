/** The pair of unspendable segwit addresses that carry a reserve public key in a bitcoin transfer. */
module Bitcoin {
  import opened Wrappers
  import opened Utf16
  import opened Bech32Codec
  import opened Segwit

  datatype Error = UnknownNet

  predicate CharAt(s: seq<CodeUnit>, i: nat, c: CodeUnit) { i < |s| && s[i] == c }

  /** "tb", "bcrt" or "bc", by the first characters of the destination address. */
  function NetPrefix(addr: seq<CodeUnit>): Option<seq<CodeUnit>> {
    if CharAt(addr, 0, 0x74) && CharAt(addr, 1, 0x62) then Some([0x74, 0x62])
    else if CharAt(addr, 0, 0x62) && CharAt(addr, 1, 0x63) && CharAt(addr, 2, 0x72) && CharAt(addr, 3, 0x74) then
      Some([0x62, 0x63, 0x72, 0x74])
    else if CharAt(addr, 0, 0x62) && CharAt(addr, 1, 0x63) then Some([0x62, 0x63])
    else None
  }

  /** The first four key bytes with the top bit cleared, then the first half of the key. */
  function FirstPart(pub: seq<Byte>): seq<Byte>
    requires |pub| == 32
  {
    [pub[0] % 128] + pub[1..4] + pub[..16]
  }

  /** The same with the top bit set, then the second half. */
  function SecondPart(pub: seq<Byte>): seq<Byte>
    requires |pub| == 32
  {
    [pub[0] % 128 + 128] + pub[1..4] + pub[16..]
  }

  /** Writes src into dst from a position on, as TypedArray.set does. */
  method SetBytes(dst: array<Byte>, src: seq<Byte>, at: nat)
    requires at + |src| <= dst.Length
    modifies dst
    ensures dst[..] == old(dst[..at]) + src + old(dst[at + |src|..])
  {
    var i := 0;
    while i < |src|
      invariant 0 <= i <= |src|
      invariant forall j :: 0 <= j < dst.Length ==>
                  dst[j] == if at <= j < at + i then src[j - at] else old(dst[j])
    {
      dst[at + i] := src[i];
      i := i + 1;
    }
  }

  /** pub is what decoding the reserve key gave, if anything; the key has 32 bytes. */
  method GenerateFakeSegwitAddress(pub: Option<seq<Byte>>, addr: seq<CodeUnit>)
    returns (r: Result<seq<seq<CodeUnit>>, Error>)
    ensures pub.None? || |pub.value| != 32 ==> r == Ok([])
    ensures pub.Some? && |pub.value| == 32 ==>
              r == match NetPrefix(addr)
                   case None => Err(UnknownNet)
                   case Some(hrp) =>
                     Ok([Written(hrp, 0, FirstPart(pub.value)), Written(hrp, 0, SecondPart(pub.value))])
  {
    hide Written;
    if pub.None? || |pub.value| != 32 {
      return Ok([]);
    }
    var key := pub.value;
    var firstRnd := new Byte[4];
    SetBytes(firstRnd, key[..4], 0);
    var secondRnd := new Byte[4];
    SetBytes(secondRnd, key[..4], 0);
    firstRnd[0] := firstRnd[0] % 128;
    secondRnd[0] := secondRnd[0] % 128 + 128;

    var firstPart := new Byte[20];
    SetBytes(firstPart, firstRnd[..], 0);
    SetBytes(firstPart, key[..16], 4);
    var secondPart := new Byte[20];
    SetBytes(secondPart, secondRnd[..], 0);
    SetBytes(secondPart, key[16..], 4);
    assert firstPart[..] == FirstPart(key);
    assert secondPart[..] == SecondPart(key);

    var prefix := NetPrefix(addr);
    if prefix.None? {
      return Err(UnknownNet);
    }
    var addr1 := EncodeAddress(prefix.value, 0, firstPart[..]);
    var addr2 := EncodeAddress(prefix.value, 0, secondPart[..]);
    r := Ok([addr1, addr2]);
  }

  /** The key that two programs carry: the one with the top bit clear holds the first half. */
  function CarriedKey(a: seq<int>, b: seq<int>): seq<int>
    requires |a| == 20 && |b| == 20
  {
    if a[0] < 128 then a[4..] + b[4..] else b[4..] + a[4..]
  }

  /**
   * Both generated addresses are valid for the network, and their programs carry the whole key,
   * in whatever order they are found in the transaction.
   */
  lemma FakeAddressesCarryKey(pub: seq<Byte>, addr: seq<CodeUnit>)
    requires |pub| == 32 && NetPrefix(addr).Some?
    ensures var hrp := NetPrefix(addr).value;
            var a, b := Read(hrp, Written(hrp, 0, FirstPart(pub))), Read(hrp, Written(hrp, 0, SecondPart(pub)));
            && a.Some? && b.Some? && a.value.version == 0 && b.value.version == 0
            && |a.value.program| == 20 && |b.value.program| == 20
            && CarriedKey(a.value.program, b.value.program) == pub
            && CarriedKey(b.value.program, a.value.program) == pub
  {
    hide Written, Read;
    var hrp := NetPrefix(addr).value;
    assert PlainHrp(hrp);
    var first, second := FirstPart(pub), SecondPart(pub);
    BytesInRange(first);
    BytesInRange(second);
    AddressRoundTrip(hrp, 0, first);
    AddressRoundTrip(hrp, 0, second);
    assert first[4..] == pub[..16] && second[4..] == pub[16..];
    assert pub == pub[..16] + pub[16..];
  }

  /** The generated addresses are on the network of the address that they go with, and are seen as such. */
  lemma SameNetwork(pub: seq<Byte>, addr: seq<CodeUnit>)
    requires |pub| == 32 && NetPrefix(addr).Some?
    ensures var hrp := NetPrefix(addr).value;
            && hrp <= addr
            && NetPrefix(Written(hrp, 0, FirstPart(pub))) == NetPrefix(Written(hrp, 0, SecondPart(pub))) == Some(hrp)
  {
    hide Written, Read;
    FakeAddressesCarryKey(pub, addr);
    var hrp := NetPrefix(addr).value;
    StartsWithPrefix(hrp, FirstPart(pub));
    StartsWithPrefix(hrp, SecondPart(pub));
  }

  lemma StartsWithPrefix(hrp: seq<CodeUnit>, program: seq<Byte>)
    requires hrp in {[0x74, 0x62], [0x62, 0x63], [0x62, 0x63, 0x72, 0x74]} && |program| == 20
    ensures NetPrefix(Written(hrp, 0, program)) == Some(hrp)
  {
    BytesInRange(program);
    hide Read, Encoded;
    AddressRoundTrip(hrp, 0, program);
    PrefixAndOne(hrp, 0, program);
  }

  lemma PrefixAndOne(hrp: seq<CodeUnit>, version: int, program: seq<Byte>)
    requires 0 <= version < 32 && Written(hrp, version, program) != []
    ensures var s := Written(hrp, version, program); |s| > |hrp| && s[..|hrp|] == hrp && s[|hrp|] == ONE
  {
    hide Read;
  }

  lemma BytesInRange(data: seq<Byte>)
    ensures InRange(data, 8)
  {
    assert Pow2(8) == 256 by {
      assert Pow2(5) == 32 by {
        assert Pow2(3) == 8;
      }
    }
  }
}
