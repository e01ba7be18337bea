/** Bech32 strings: encoding, decoding, and what decoding detects. */
module Bech32Codec {
  import opened Wrappers
  import opened Utf16
  import opened Bech32

  const CHARSET := "qpzry9x8gf2tvdw0s3jn54khce6mua7l"

  const ONE: CodeUnit := 0x31

  // ---------- Characters ----------

  function SymbolChar(d: nat): (u: CodeUnit)
    requires d < 32
  {
    assert |CHARSET| == 32;
    CHARSET[d] as int
  }

  /** CHARSET.indexOf, from position i on. */
  function CharIndexFrom(u: CodeUnit, i: nat): (r: int)
    requires i <= 32
    ensures -1 <= r < 32
    ensures r >= 0 ==> SymbolChar(r) == u
    decreases 32 - i
  {
    if i == 32 then -1 else if SymbolChar(i) == u then i else CharIndexFrom(u, i + 1)
  }

  function CharIndex(u: CodeUnit): (r: int)
    ensures -1 <= r < 32
    ensures r >= 0 ==> SymbolChar(r) == u
  {
    CharIndexFrom(u, 0)
  }

  lemma CharsetDistinct(d: nat)
    requires d < 32
    ensures forall i: nat :: i < d ==> SymbolChar(i) != SymbolChar(d)
  {
  }

  lemma CharIndexOfSymbol(d: nat)
    requires d < 32
    ensures CharIndex(SymbolChar(d)) == d
  {
    hide SymbolChar;
    CharsetDistinct(d);
    var i := d;
    while i > 0
      invariant 0 <= i <= d
      invariant CharIndexFrom(SymbolChar(d), i) == d
    {
      i := i - 1;
    }
  }

  predicate Lower(u: CodeUnit) { 97 <= u <= 122 }

  predicate Upper(u: CodeUnit) { 65 <= u <= 90 }

  predicate Printable(u: CodeUnit) { 33 <= u <= 126 }

  lemma SymbolCharClass(d: nat)
    requires d < 32
    ensures var u := SymbolChar(d); Printable(u) && !Upper(u) && u != ONE
  {
  }

  function ToLower(u: CodeUnit): CodeUnit { if Upper(u) then u + 32 else u }

  /** String.toLowerCase on printable ASCII. */
  function LowerCase(s: seq<CodeUnit>): (t: seq<CodeUnit>)
    ensures |t| == |s| && forall j :: 0 <= j < |s| ==> t[j] == ToLower(s[j])
  {
    seq(|s|, j requires 0 <= j < |s| => ToLower(s[j]))
  }

  predicate AllPrintable(s: seq<CodeUnit>) { forall j :: 0 <= j < |s| ==> Printable(s[j]) }

  predicate HasLower(s: seq<CodeUnit>) { exists j :: 0 <= j < |s| && Lower(s[j]) }

  predicate HasUpper(s: seq<CodeUnit>) { exists j :: 0 <= j < |s| && Upper(s[j]) }

  /** lastIndexOf("1") */
  function LastOne(s: seq<CodeUnit>): (pos: int)
    ensures -1 <= pos < |s|
    ensures pos >= 0 ==> s[pos] == ONE
    ensures forall j :: pos < j < |s| ==> s[j] != ONE
  {
    if s == [] then -1 else if s[|s| - 1] == ONE then |s| - 1 else LastOne(s[..|s| - 1])
  }

  lemma LastOneIs(s: seq<CodeUnit>, pos: int)
    requires -1 <= pos < |s| && (pos >= 0 ==> s[pos] == ONE) && forall j :: pos < j < |s| ==> s[j] != ONE
    ensures LastOne(s) == pos
  {
  }

  predicate AllSymbols(s: seq<CodeUnit>) { forall j :: 0 <= j < |s| ==> CharIndex(s[j]) >= 0 }

  function Symbols(s: seq<CodeUnit>): (data: seq<Symbol>)
    requires AllSymbols(s)
    ensures |data| == |s| && forall j :: 0 <= j < |s| ==> data[j] == CharIndex(s[j])
  {
    seq(|s|, j requires 0 <= j < |s| => CharIndex(s[j]))
  }

  function Chars(data: seq<Symbol>): (s: seq<CodeUnit>)
    ensures |s| == |data| && forall j :: 0 <= j < |s| ==> s[j] == SymbolChar(data[j])
  {
    seq(|data|, j requires 0 <= j < |data| => SymbolChar(data[j]))
  }

  lemma SymbolsOfChars(data: seq<Symbol>)
    ensures AllSymbols(Chars(data)) && Symbols(Chars(data)) == data
  {
    hide SymbolChar, CharIndex;
    var s := Chars(data);
    forall j | 0 <= j < |s|
      ensures CharIndex(s[j]) == data[j]
    {
      CharIndexOfSymbol(data[j]);
    }
  }

  // ---------- Encoding ----------

  function Encoded(hrp: seq<CodeUnit>, data: seq<Symbol>, enc: Encoding): seq<CodeUnit> {
    hrp + [ONE] + Chars(data + Checksum(hrp, data, enc))
  }

  method ExpandHrp(hrp: seq<CodeUnit>) returns (ret: seq<Value>)
    ensures ret == HrpExpand(hrp)
  {
    ret := [];
    var p := 0;
    while p < |hrp|
      invariant 0 <= p <= |hrp| && |ret| == p
      invariant forall j :: 0 <= j < p ==> ret[j] == hrp[j] / 32
    {
      ret := ret + [hrp[p] / 32];
      p := p + 1;
    }
    ret := ret + [0];
    p := 0;
    while p < |hrp|
      invariant 0 <= p <= |hrp| && |ret| == |hrp| + 1 + p
      invariant forall j :: 0 <= j < |hrp| ==> ret[j] == hrp[j] / 32
      invariant ret[|hrp|] == 0
      invariant forall j :: 0 <= j < p ==> ret[|hrp| + 1 + j] == hrp[j] % 32
    {
      ret := ret + [hrp[p] % 32];
      p := p + 1;
    }
  }

  method CreateChecksum(hrp: seq<CodeUnit>, data: seq<Symbol>, enc: Encoding) returns (ret: seq<Symbol>)
    ensures ret == Checksum(hrp, data, enc)
  {
    hide Poly, Xor, ChecksumWord;
    var expanded := ExpandHrp(hrp);
    var zeros: seq<Value> := [0, 0, 0, 0, 0, 0];
    assert zeros == Zeros(6);
    var mod := Polymod(expanded + data + zeros);
    mod := Xor(mod, EncodingConst(enc));
    ret := [];
    var p := 0;
    while p < 6
      invariant 0 <= p <= 6 && |ret| == p
      invariant forall j :: 0 <= j < p ==> ret[j] == ChecksumSymbol(mod, j)
    {
      ret := ret + [ChecksumSymbol(mod, p)];
      p := p + 1;
    }
    assert ret == Unpacked(mod);
  }

  method Encode(hrp: seq<CodeUnit>, data: seq<Symbol>, enc: Encoding) returns (ret: seq<CodeUnit>)
    ensures ret == Encoded(hrp, data, enc)
  {
    hide SymbolChar, Checksum;
    var checksum := CreateChecksum(hrp, data, enc);
    var combined := data + checksum;
    ret := hrp + [ONE];
    var p := 0;
    while p < |combined|
      invariant 0 <= p <= |combined|
      invariant ret == hrp + [ONE] + Chars(combined[..p])
    {
      assert combined[..p + 1] == combined[..p] + [combined[p]];
      assert Chars(combined[..p + 1]) == Chars(combined[..p]) + [SymbolChar(combined[p])];
      ret := ret + [SymbolChar(combined[p])];
      p := p + 1;
    }
    assert combined[..p] == combined;
  }

  // ---------- Decoding ----------

  datatype Contents = Contents(hrp: seq<CodeUnit>, data: seq<Symbol>)

  /** Decoding of a string that has passed the character checks, in lower case. */
  function DecodedLower(t: seq<CodeUnit>, enc: Encoding): Option<Contents> {
    var pos := LastOne(t);
    if pos < 1 || pos + 7 > |t| || |t| > 90 then None
    else if !AllSymbols(t[pos + 1..]) then None
    else
      var data := Symbols(t[pos + 1..]);
      if !Verifies(t[..pos], data, enc) then None
      else Some(Contents(t[..pos], data[..|data| - 6]))
  }

  function Decoded(s: seq<CodeUnit>, enc: Encoding): Option<Contents> {
    if !AllPrintable(s) || (HasLower(s) && HasUpper(s)) then None
    else DecodedLower(LowerCase(s), enc)
  }

  method CheckCharacters(s: seq<CodeUnit>) returns (ok: bool)
    ensures ok <==> AllPrintable(s) && !(HasLower(s) && HasUpper(s))
  {
    var hasLower, hasUpper := false, false;
    var p := 0;
    while p < |s|
      invariant 0 <= p <= |s|
      invariant forall j :: 0 <= j < p ==> Printable(s[j])
      invariant hasLower <==> exists j :: 0 <= j < p && Lower(s[j])
      invariant hasUpper <==> exists j :: 0 <= j < p && Upper(s[j])
    {
      if s[p] < 33 || s[p] > 126 {
        return false;
      }
      if s[p] >= 97 && s[p] <= 122 {
        assert Lower(s[p]);
        hasLower := true;
      }
      if s[p] >= 65 && s[p] <= 90 {
        assert Upper(s[p]);
        hasUpper := true;
      }
      p := p + 1;
    }
    ok := !(hasLower && hasUpper);
  }

  method ReadSymbols(s: seq<CodeUnit>) returns (r: Option<seq<Symbol>>)
    ensures r == if AllSymbols(s) then Some(Symbols(s)) else None
  {
    hide CharIndex;
    var data: seq<Symbol> := [];
    var p := 0;
    while p < |s|
      invariant 0 <= p <= |s| && |data| == p
      invariant forall j :: 0 <= j < p ==> CharIndex(s[j]) >= 0 && data[j] == CharIndex(s[j])
    {
      var d := CharIndex(s[p]);
      if d == -1 {
        return None;
      }
      data := data + [d];
      p := p + 1;
    }
    assert data == Symbols(s);
    r := Some(data);
  }

  method Decode(s: seq<CodeUnit>, enc: Encoding) returns (r: Option<Contents>)
    ensures r == Decoded(s, enc)
  {
    hide Poly, CharIndex, HrpExpand;
    var ok := CheckCharacters(s);
    if !ok {
      return None;
    }
    var t := LowerCase(s);
    var pos := LastOne(t);
    if pos < 1 || pos + 7 > |t| || |t| > 90 {
      return None;
    }
    var hrp := t[..pos];
    var symbols := ReadSymbols(t[pos + 1..]);
    if symbols.None? {
      return None;
    }
    var data := symbols.value;
    var expanded := ExpandHrp(hrp);
    var chk := Polymod(expanded + data);
    if chk != EncodingConst(enc) {
      return None;
    }
    r := Some(Contents(hrp, data[..|data| - 6]));
  }

  // ---------- Properties ----------

  /** A human-readable part that decoding hands back unchanged. */
  predicate PlainHrp(hrp: seq<CodeUnit>) {
    hrp != [] && forall j :: 0 <= j < |hrp| ==> Printable(hrp[j]) && !Upper(hrp[j])
  }

  /** How an encoded string looks to the decoder. */
  lemma EncodedShape(hrp: seq<CodeUnit>, data: seq<Symbol>, enc: Encoding)
    ensures var s := Encoded(hrp, data, enc);
            && |s| == |hrp| + 1 + |data| + 6 && LastOne(s) == |hrp| && s[..|hrp|] == hrp
            && s[|hrp| + 1..] == Chars(data + Checksum(hrp, data, enc))
            && forall j :: |hrp| <= j < |s| ==> Printable(s[j]) && !Upper(s[j])
  {
    hide SymbolChar, Poly, ChecksumWord, Xor;
    var s := Encoded(hrp, data, enc);
    var symbols := data + Checksum(hrp, data, enc);
    var tail := Chars(symbols);
    forall j | 0 <= j < |tail|
      ensures Printable(tail[j]) && !Upper(tail[j]) && tail[j] != ONE
    {
      SymbolCharClass(symbols[j]);
    }
    assert s[|hrp|] == ONE;
    assert forall j :: |hrp| < j < |s| ==> s[j] == tail[j - |hrp| - 1];
    LastOneIs(s, |hrp|);
  }

  /** The decoder behind the character checks, on an encoded string. */
  lemma DecodeLowerEncoded(hrp: seq<CodeUnit>, data: seq<Symbol>, enc: Encoding)
    ensures DecodedLower(Encoded(hrp, data, enc), enc) ==
            if hrp != [] && |hrp| + 1 + |data| + 6 <= 90 then Some(Contents(hrp, data)) else None
  {
    hide SymbolChar, CharIndex, Encoded, Checksum, Verifies, Printable;
    var all := data + Checksum(hrp, data, enc);
    EncodedShape(hrp, data, enc);
    ChecksumVerifies(hrp, data, enc);
    SymbolsOfChars(all);
    assert |all| == |data| + 6 && all[..|data|] == data;
  }

  lemma PlainIsLower(s: seq<CodeUnit>)
    requires forall j :: 0 <= j < |s| ==> Printable(s[j]) && !Upper(s[j])
    ensures AllPrintable(s) && !HasUpper(s) && LowerCase(s) == s
  {
  }

  /**
   * Decoding an encoded string gives the human-readable part and the data back, exactly when
   * the part is plain and the string is no longer than 90 characters.
   */
  lemma DecodeEncoded(hrp: seq<CodeUnit>, data: seq<Symbol>, enc: Encoding)
    ensures Decoded(Encoded(hrp, data, enc), enc) == Some(Contents(hrp, data))
            <==> PlainHrp(hrp) && |hrp| + 1 + |data| + 6 <= 90
  {
    hide Encoded, DecodedLower;
    var s := Encoded(hrp, data, enc);
    EncodedShape(hrp, data, enc);
    assert forall j :: 0 <= j < |hrp| ==> hrp[j] == s[..|hrp|][j] == s[j];
    if forall j :: 0 <= j < |hrp| ==> Printable(hrp[j]) && !Upper(hrp[j]) {
      assert forall j :: 0 <= j < |s| ==> Printable(s[j]) && !Upper(s[j]);
      PlainIsLower(s);
      DecodeLowerEncoded(hrp, data, enc);
    } else if Decoded(s, enc) == Some(Contents(hrp, data)) {
      LowerHasNoUpper(s, enc);
    }
  }

  /** The human-readable part of a decoded string is printable and in lower case. */
  lemma LowerHasNoUpper(s: seq<CodeUnit>, enc: Encoding)
    requires Decoded(s, enc).Some?
    ensures PlainHrp(Decoded(s, enc).value.hrp)
  {
    hide Poly, CharIndex, HrpExpand;
    var t := LowerCase(s);
    assert forall j :: 0 <= j < |s| ==> Printable(t[j]) && !Upper(t[j]);
  }

  /** A string with one checksum constant never decodes with the other. */
  lemma OtherEncodingRefused(s: seq<CodeUnit>, enc: Encoding, other: Encoding)
    requires Decoded(s, enc).Some? && enc != other
    ensures Decoded(s, other).None?
  {
    hide Poly, CharIndex, HrpExpand;
  }

  /**
   * Replacing one character behind the separator by any other character than "1" (other than
   * by its own other case) makes a decodable string undecodable.
   */
  lemma SubstitutionDetected(s: seq<CodeUnit>, p: nat, u: CodeUnit, enc: Encoding)
    requires Decoded(s, enc).Some? && LastOne(LowerCase(s)) < p < |s|
    requires u != ONE && ToLower(u) != ToLower(s[p])
    ensures Decoded(s[p := u], enc).None?
  {
    hide Verifies, CharIndex, SymbolChar, LastOne, ToLower;
    var s', t, t' := s[p := u], LowerCase(s), LowerCase(s[p := u]);
    assert t' == t[p := ToLower(u)];
    var pos := LastOne(t);
    OneIsCaseless(u);
    LastOneIs(t', pos);
    if Decoded(s', enc).Some? {
      DecodedParts(s, enc);
      DecodedParts(s', enc);
      var data, data' := Symbols(t[pos + 1..]), Symbols(t'[pos + 1..]);
      SymbolsDiffer(t[pos + 1..], t'[pos + 1..], p - (pos + 1), p - pos);
      assert t[pos + 1..][p - (pos + 1)] == t[p] && t'[pos + 1..][p - (pos + 1)] == t'[p];
      assert t[..pos] == t'[..pos];
      DataWindow(t[..pos], data, data', p - (pos + 1), p - pos);
      VerifyTogether(t[..pos], data, data', enc);
    }
  }

  lemma OneIsCaseless(u: CodeUnit)
    ensures ToLower(u) == ONE <==> u == ONE
  {
  }

  /** What a successful decoding has checked. */
  lemma DecodedParts(s: seq<CodeUnit>, enc: Encoding)
    requires Decoded(s, enc).Some?
    ensures var t := LowerCase(s); var pos := LastOne(t);
            1 <= pos && pos + 7 <= |t| && AllSymbols(t[pos + 1..]) && Verifies(t[..pos], Symbols(t[pos + 1..]), enc)
  {
  }

  lemma VerifyTogether(hrp: seq<CodeUnit>, data: seq<Symbol>, data': seq<Symbol>, enc: Encoding)
    requires Verifies(hrp, data, enc) && Verifies(hrp, data', enc)
    ensures Poly(1, HrpExpand(hrp) + data) == Poly(1, HrpExpand(hrp) + data')
  {
  }

  /** Characters and symbols agree on where two strings differ. */
  lemma SymbolsDiffer(x: seq<CodeUnit>, x': seq<CodeUnit>, lo: nat, hi: nat)
    requires AllSymbols(x) && AllSymbols(x') && |x| == |x'| && lo <= hi <= |x|
    requires forall j :: 0 <= j < |x| && !(lo <= j < hi) ==> x[j] == x'[j]
    ensures forall j :: 0 <= j < |x| && !(lo <= j < hi) ==> Symbols(x)[j] == Symbols(x')[j]
    ensures Symbols(x)[lo..hi] == Symbols(x')[lo..hi] ==> x == x'
  {
    hide CharIndex, SymbolChar;
    var d, d' := Symbols(x), Symbols(x');
    if d[lo..hi] == d'[lo..hi] {
      forall j | 0 <= j < |x|
        ensures x[j] == x'[j]
      {
        if lo <= j < hi {
          assert d[lo..hi][j - lo] == d[j] && d'[lo..hi][j - lo] == d'[j];
          assert SymbolChar(d[j]) == x[j] && SymbolChar(d'[j]) == x'[j];
        }
      }
    }
  }

  /** Data that differ only between two places at most six apart cannot both verify. */
  lemma DataWindow(hrp: seq<CodeUnit>, data: seq<Symbol>, data': seq<Symbol>, lo: nat, hi: nat)
    requires |data| == |data'| && lo <= hi <= |data| && hi - lo <= 6 && data[lo..hi] != data'[lo..hi]
    requires forall j :: 0 <= j < |data| && !(lo <= j < hi) ==> data[j] == data'[j]
    ensures Poly(1, HrpExpand(hrp) + data) != Poly(1, HrpExpand(hrp) + data')
  {
    hide Poly, HrpExpand;
    var x := HrpExpand(hrp);
    var front, back := x + data[..lo], data[hi..];
    CutAt(x, data, lo, hi);
    CutAt(x, data', lo, hi);
    assert data'[..lo] == data[..lo] && data'[hi..] == data[hi..];
    WindowDetected(front, data[lo..hi], data'[lo..hi], back);
  }

  lemma CutAt(x: seq<Value>, data: seq<Symbol>, lo: nat, hi: nat)
    requires lo <= hi <= |data|
    ensures x + data == (x + data[..lo]) + data[lo..hi] + data[hi..]
  {
    assert data == data[..lo] + data[lo..hi] + data[hi..];
  }

  /**
   * The same for a burst: two strings of equal length with the same separator that differ only
   * in at most six consecutive characters behind it do not both decode, unless they differ in
   * case only.
   */
  lemma BurstDetected(s: seq<CodeUnit>, s': seq<CodeUnit>, lo: nat, hi: nat, enc: Encoding)
    requires |s| == |s'| && LastOne(LowerCase(s)) == LastOne(LowerCase(s')) < lo <= hi <= |s| && hi - lo <= 6
    requires forall j :: 0 <= j < |s| && !(lo <= j < hi) ==> s[j] == s'[j]
    requires Decoded(s, enc).Some? && Decoded(s', enc).Some?
    ensures LowerCase(s) == LowerCase(s')
  {
    hide Verifies, CharIndex, SymbolChar, LastOne, ToLower;
    var t, t' := LowerCase(s), LowerCase(s');
    var pos := LastOne(t);
    DecodedParts(s, enc);
    DecodedParts(s', enc);
    var x, x' := t[pos + 1..], t'[pos + 1..];
    var a, b := lo - (pos + 1), hi - (pos + 1);
    SymbolsDiffer(x, x', a, b);
    assert t[..pos] == t'[..pos];
    if Symbols(x)[a..b] != Symbols(x')[a..b] {
      DataWindow(t[..pos], Symbols(x), Symbols(x'), a, b);
      VerifyTogether(t[..pos], Symbols(x), Symbols(x'), enc);
    }
    CutAtOne(t, pos);
    CutAtOne(t', pos);
  }

  lemma CutAtOne(t: seq<CodeUnit>, pos: nat)
    requires pos < |t|
    ensures t == t[..pos] + [t[pos]] + t[pos + 1..]
  {
  }
}
