/** UTF-16 code units and code points, as JavaScript strings hold them. */
module Utf16 {
  import opened Wrappers

  /** One element of a JavaScript string. */
  type CodeUnit = u: int | 0 <= u < 0x10000

  type CodePoint = c: int | 0 <= c <= 0x10FFFF

  predicate IsHighSurrogate(u: CodeUnit) { 0xD800 <= u <= 0xDBFF }

  // (u & 0xfc00) == 0xdc00 on a 16-bit value
  predicate IsLowSurrogate(u: CodeUnit) { u - u % 0x400 == 0xDC00 }

  // ((high & 0x3ff) << 10) + (low & 0x3ff) + 0x10000
  function Combine(high: CodeUnit, low: CodeUnit): CodePoint {
    (high % 0x400) * 0x400 + low % 0x400 + 0x10000
  }

  /** The code points of a string; an unmatched surrogate stands for itself. */
  function CodePoints(s: seq<CodeUnit>): (cps: seq<CodePoint>)
    ensures |cps| <= |s|
  {
    if s == [] then []
    else if IsHighSurrogate(s[0]) && |s| > 1 && IsLowSurrogate(s[1]) then
      [Combine(s[0], s[1])] + CodePoints(s[2..])
    else
      [s[0]] + CodePoints(s[1..])
  }

  lemma CodePointsStep(s: seq<CodeUnit>, i: nat)
    requires i < |s|
    ensures CodePoints(s[i..]) ==
            if IsHighSurrogate(s[i]) && i + 1 < |s| && IsLowSurrogate(s[i + 1])
            then [Combine(s[i], s[i + 1])] + CodePoints(s[i + 2..])
            else [s[i]] + CodePoints(s[i + 1..])
  {
    hide IsHighSurrogate, IsLowSurrogate, Combine;
    assert s[i..][1..] == s[i + 1..];
    if i + 1 < |s| {
      assert s[i..][2..] == s[i + 2..];
    }
  }

  method Ucs2Decode(s: seq<CodeUnit>) returns (output: seq<CodePoint>)
    ensures output == CodePoints(s)
  {
    hide CodePoints, Combine, IsHighSurrogate, IsLowSurrogate;
    output := [];
    var counter := 0;
    assert s[0..] == s;
    while counter < |s|
      invariant 0 <= counter <= |s|
      invariant CodePoints(s) == output + CodePoints(s[counter..])
    {
      CodePointsStep(s, counter);
      var value := s[counter];
      counter := counter + 1;
      var c: CodePoint := value;
      if IsHighSurrogate(value) && counter < |s| {
        var extra := s[counter];
        counter := counter + 1;
        if IsLowSurrogate(extra) {
          c := Combine(value, extra);
        } else {
          counter := counter - 1;
        }
      }
      assert output + ([c] + CodePoints(s[counter..])) == output + [c] + CodePoints(s[counter..]);
      output := output + [c];
    }
    assert CodePoints(s[|s|..]) == [] by { EmptyCodePoints(s); }
  }

  lemma EmptyCodePoints(s: seq<CodeUnit>)
    ensures CodePoints(s[|s|..]) == []
  {
  }

  /** String.fromCodePoint of one value in range. */
  function Units(c: CodePoint): (us: seq<CodeUnit>) {
    if c < 0x10000 then [c]
    else [0xD800 + (c - 0x10000) / 0x400, 0xDC00 + (c - 0x10000) % 0x400]
  }

  /** String.fromCodePoint, which throws a RangeError outside 0..0x10FFFF. */
  function FromCodePoints(cps: seq<int>): Option<seq<CodeUnit>> {
    if cps == [] then Some([])
    else if !(0 <= cps[0] <= 0x10FFFF) then None
    else
      match FromCodePoints(cps[1..])
      case None => None
      case Some(rest) => Some(Units(cps[0]) + rest)
  }

  lemma CombineSplits(high: CodeUnit, low: CodeUnit)
    requires IsHighSurrogate(high) && IsLowSurrogate(low)
    ensures Units(Combine(high, low)) == [high, low]
  {
    assert high % 0x400 == high - 0xD800 && low % 0x400 == low - 0xDC00;
  }

  lemma FromCodePointsCons(c: CodePoint, rest: seq<CodePoint>)
    ensures FromCodePoints([c] + rest) ==
            match FromCodePoints(rest) case None => None case Some(us) => Some(Units(c) + us)
  {
    assert ([c] + rest)[1..] == rest;
  }

  /** No string is changed by splitting it into code points and joining them again. */
  lemma {:induction false} CodePointsRoundTrip(s: seq<CodeUnit>)
    ensures FromCodePoints(CodePoints(s)) == Some(s)
  {
    hide FromCodePoints, Units, Combine;
    if s == [] {
      assert FromCodePoints([]) == Some([]) by { EmptyRoundTrip(); }
    } else if IsHighSurrogate(s[0]) && |s| > 1 && IsLowSurrogate(s[1]) {
      CodePointsRoundTrip(s[2..]);
      CombineSplits(s[0], s[1]);
      FromCodePointsCons(Combine(s[0], s[1]), CodePoints(s[2..]));
      assert s == [s[0], s[1]] + s[2..];
    } else {
      CodePointsRoundTrip(s[1..]);
      FromCodePointsCons(s[0], CodePoints(s[1..]));
      assert Units(s[0]) == [s[0]] by { UnitsOfUnit(s[0]); }
      assert s == [s[0]] + s[1..];
    }
  }

  lemma EmptyRoundTrip()
    ensures FromCodePoints([]) == Some([])
  {
  }

  lemma UnitsOfUnit(u: CodeUnit)
    ensures Units(u) == [u]
  {
  }
}
