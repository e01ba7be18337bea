/** What the checksum protects besides the data: the human-readable part, and the version of an address. */
module Bech32Protection {
  import opened Wrappers
  import opened Utf16
  import opened Bech32
  import opened Bech32Codec
  import opened Segwit

  // ---------- The human-readable part ----------

  function HighParts(hrp: seq<CodeUnit>): (values: seq<Value>)
    ensures |values| == |hrp|
  {
    seq(|hrp|, j requires 0 <= j < |hrp| => hrp[j] / 32)
  }

  function LowParts(hrp: seq<CodeUnit>): (values: seq<Symbol>)
    ensures |values| == |hrp|
  {
    seq(|hrp|, j requires 0 <= j < |hrp| => hrp[j] % 32)
  }

  /** The two parts tell a character. */
  lemma PartsDetermine(a: seq<CodeUnit>, b: seq<CodeUnit>)
    requires HighParts(a) == HighParts(b) && LowParts(a) == LowParts(b)
    ensures a == b
  {
    assert |a| == |b|;
    forall j | 0 <= j < |a|
      ensures a[j] == b[j]
    {
      assert HighParts(a)[j] == a[j] / 32 && HighParts(b)[j] == b[j] / 32;
      assert LowParts(a)[j] == a[j] % 32 && LowParts(b)[j] == b[j] % 32;
    }
  }

  /**
   * Two human-readable parts that differ only in the low five bits of at most six neighbouring characters
   * do not both verify before the same data.
   */
  lemma HrpWindow(a: seq<CodeUnit>, b: seq<CodeUnit>, data: seq<Symbol>, lo: nat, hi: nat, enc: Encoding)
    requires |a| == |b| && lo <= hi <= |a| && hi - lo <= 6 && HighParts(a) == HighParts(b)
    requires forall j :: 0 <= j < |a| && !(lo <= j < hi) ==> a[j] == b[j]
    requires Verifies(a, data, enc) && Verifies(b, data, enc)
    ensures a == b
  {
    hide Poly;
    var high, x, y := HighParts(a), LowParts(a), LowParts(b);
    var front := high + [0] + x[..lo];
    LowOutside(a, b, lo, hi);
    Cut(a, data, lo, hi);
    Cut(b, data, lo, hi);
    if x[lo..hi] != y[lo..hi] {
      WindowDetected(front, x[lo..hi], y[lo..hi], x[hi..] + data);
    } else {
      assert x == x[..lo] + x[lo..hi] + x[hi..] && y == y[..lo] + y[lo..hi] + y[hi..];
      PartsDetermine(a, b);
    }
  }

  lemma LowOutside(a: seq<CodeUnit>, b: seq<CodeUnit>, lo: nat, hi: nat)
    requires |a| == |b| && lo <= hi <= |a|
    requires forall j :: 0 <= j < |a| && !(lo <= j < hi) ==> a[j] == b[j]
    ensures LowParts(a)[..lo] == LowParts(b)[..lo] && LowParts(a)[hi..] == LowParts(b)[hi..]
  {
  }

  lemma Cut(hrp: seq<CodeUnit>, data: seq<Symbol>, lo: nat, hi: nat)
    requires lo <= hi <= |hrp|
    ensures HrpExpand(hrp) + data
         == (HighParts(hrp) + [0] + LowParts(hrp)[..lo]) + LowParts(hrp)[lo..hi] + (LowParts(hrp)[hi..] + data)
  {
    var x := LowParts(hrp);
    assert HrpExpand(hrp) == HighParts(hrp) + [0] + x;
    assert x == x[..lo] + x[lo..hi] + x[hi..];
  }

  predicate Letter(u: CodeUnit) { Lower(u) || Upper(u) }

  lemma SameHighParts(s: seq<CodeUnit>, s': seq<CodeUnit>, lo: nat, hi: nat)
    requires |s| == |s'| && lo <= hi <= |s|
    requires forall j :: 0 <= j < |s| && !(lo <= j < hi) ==> s[j] == s'[j]
    requires forall j :: lo <= j < hi ==> Letter(s[j]) && Letter(s'[j])
    ensures HighParts(LowerCase(s)) == HighParts(LowerCase(s'))
  {
    forall j | 0 <= j < |s|
      ensures ToLower(s[j]) / 32 == ToLower(s'[j]) / 32
    {
    }
  }

  /**
   * A decodable string in which at most six neighbouring letters of the human-readable part are replaced by
   * other letters is refused, unless only their case is another.
   */
  lemma HrpBurstDetected(s: seq<CodeUnit>, s': seq<CodeUnit>, lo: nat, hi: nat, enc: Encoding)
    requires |s| == |s'| && LastOne(LowerCase(s)) == LastOne(LowerCase(s'))
    requires lo <= hi <= LastOne(LowerCase(s)) && hi - lo <= 6
    requires forall j :: 0 <= j < |s| && !(lo <= j < hi) ==> s[j] == s'[j]
    requires forall j :: lo <= j < hi ==> Letter(s[j]) && Letter(s'[j])
    requires Decoded(s, enc).Some? && Decoded(s', enc).Some?
    ensures LowerCase(s) == LowerCase(s')
  {
    hide Verifies, CharIndex, SymbolChar, LastOne, HrpExpand, HighParts, ToLower, Letter;
    var t, t' := LowerCase(s), LowerCase(s');
    var pos := LastOne(t);
    DecodedParts(s, enc);
    DecodedParts(s', enc);
    var a, b := t[..pos], t'[..pos];
    assert Verifies(a, Symbols(t[pos + 1..]), enc) && Verifies(b, Symbols(t'[pos + 1..]), enc);
    hide Decoded, LowerCase;
    SameHighParts(s[..pos], s'[..pos], lo, hi);
    assert a == LowerCase(s[..pos]) && b == LowerCase(s'[..pos]);
    assert t[pos + 1..] == t'[pos + 1..];
    HrpWindow(a, b, Symbols(t[pos + 1..]), lo, hi, enc);
    CutAtOne(t, pos);
    CutAtOne(t', pos);
  }

  // ---------- Addresses ----------

  /** An address of version 0 has the checksum of BIP 173, and one of another version that of BIP 350. */
  lemma VersionDecides(hrp: seq<CodeUnit>, addr: seq<CodeUnit>)
    requires Read(hrp, addr).Some?
    ensures var version := Read(hrp, addr).value.version;
            && Decoded(addr, BECH32).Some? == (version == 0) && Decoded(addr, BECH32M).Some? == (version != 0)
            && Decoded(addr, EncodingOf(version)).Some?
            && Decoded(addr, EncodingOf(version)).value.hrp == hrp
            && Decoded(addr, EncodingOf(version)).value.data != [] && Decoded(addr, EncodingOf(version)).value.data[0] == version
  {
    hide Decoded, Converted;
    if Decoded(addr, BECH32).Some? {
      OtherEncodingRefused(addr, BECH32, BECH32M);
    }
  }

  /** The parts of an address string behind the separator */
  lemma AddressParts(hrp: seq<CodeUnit>, rest: seq<CodeUnit>)
    requires Read(hrp, hrp + [ONE] + rest).Some? && forall j :: 0 <= j < |hrp| ==> Lower(hrp[j])
    ensures var s := hrp + [ONE] + rest;
            var t := LowerCase(s);
            && LastOne(t) == |hrp| && t[..|hrp|] == hrp && t[|hrp| + 1..] == LowerCase(rest)
            && AllSymbols(LowerCase(rest)) && |rest| >= 7
            && Read(hrp, s).value.version == Symbols(LowerCase(rest))[0]
  {
    hide Verifies, CharIndex, SymbolChar, LastOne, Converted;
    var s := hrp + [ONE] + rest;
    VersionDecides(hrp, s);
    var enc := EncodingOf(Read(hrp, s).value.version);
    DecodedParts(s, enc);
    var t := LowerCase(s);
    var pos := LastOne(t);
    assert Decoded(s, enc).value.hrp == t[..pos];
    assert |t[..pos]| == pos == |hrp|;
    assert t[|hrp| + 1..] == LowerCase(rest);
    assert t[..pos] == hrp;
    assert Decoded(s, enc).value.data == Symbols(t[pos + 1..])[..|t| - pos - 1 - 6];
  }

  /**
   * What stands behind the prefix of one network in an address never makes an address with the prefix of
   * another that is as long and has at most six letters.
   */
  lemma NetworksApart(a: seq<CodeUnit>, b: seq<CodeUnit>, rest: seq<CodeUnit>)
    requires |a| == |b| <= 6 && (forall j :: 0 <= j < |a| ==> Lower(a[j]) && Lower(b[j]))
    requires Read(a, a + [ONE] + rest).Some? && Read(b, b + [ONE] + rest).Some?
    ensures a == b
  {
    hide Verifies, CharIndex, SymbolChar, LastOne, Converted, Decoded, Read;
    AddressParts(a, rest);
    AddressParts(b, rest);
    VersionDecides(a, a + [ONE] + rest);
    VersionDecides(b, b + [ONE] + rest);
    var enc := EncodingOf(Read(a, a + [ONE] + rest).value.version);
    DecodedParts(a + [ONE] + rest, enc);
    DecodedParts(b + [ONE] + rest, enc);
    assert HighParts(a) == HighParts(b);
    HrpWindow(a, b, Symbols(LowerCase(rest)), 0, |a|, enc);
  }

  /** An address is one of a single network. */
  lemma OneNetwork(a: seq<CodeUnit>, b: seq<CodeUnit>, addr: seq<CodeUnit>)
    requires Read(a, addr).Some? && Read(b, addr).Some?
    ensures a == b
  {
    hide Decoded, Converted;
  }

  /** What is written for the main network is not read with the prefix of the test network, nor the other way. */
  lemma MainAndTestApart(version: Symbol, program: seq<Int32>)
    ensures var bc, tb := [0x62, 0x63], [0x74, 0x62];
            var main, test := Written(bc, version, program), Written(tb, version, program);
            && (main != [] ==> |main| > 2 && Read(tb, tb + main[2..]).None? && Read(tb, main).None?)
            && (test != [] ==> |test| > 2 && Read(bc, bc + test[2..]).None? && Read(bc, test).None?)
  {
    var bc: seq<CodeUnit>, tb: seq<CodeUnit> := [0x62, 0x63], [0x74, 0x62];
    OtherPrefix(bc, tb, version, program);
    OtherPrefix(tb, bc, version, program);
  }

  lemma OtherPrefix(a: seq<CodeUnit>, b: seq<CodeUnit>, version: Symbol, program: seq<Int32>)
    requires |a| == |b| == 2 && a != b && forall j :: 0 <= j < 2 ==> Lower(a[j]) && Lower(b[j])
    ensures var s := Written(a, version, program);
            s != [] ==> |s| > 2 && Read(b, b + s[2..]).None? && Read(b, s).None?
  {
    hide Read, Checksum, Payload, Chars, EncodingOf;
    var s := Written(a, version, program);
    if s != [] {
      var data := Payload(version, program);
      var rest := Chars(data + Checksum(a, data, EncodingOf(version)));
      assert s == a + [ONE] + rest;
      assert b + s[2..] == b + [ONE] + rest;
      if Read(b, b + s[2..]).Some? {
        NetworksApart(a, b, rest);
      }
      if Read(b, s).Some? {
        OneNetwork(a, b, s);
      }
    }
  }
}
