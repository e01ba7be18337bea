/** Amounts as strings: a currency, a colon, and a decimal number with at most eight digits behind the point. */
module AmountStrings {
  import opened Wrappers
  import opened Words
  import opened Amounts

  function Pow10(n: nat): (p: nat)
    ensures p > 0
  {
    if n == 0 then 1 else 10 * Pow10(n - 1)
  }

  predicate IsDigit(c: char) { '0' <= c <= '9' }
  predicate IsCurrencyChar(c: char) { 'a' <= c <= 'z' || 'A' <= c <= 'Z' || IsDigit(c) || c == '_' || c == '*' || c == '-' }

  predicate Digits(s: string) { forall i :: 0 <= i < |s| ==> IsDigit(s[i]) }
  predicate CurrencyName(s: string) { s != [] && forall i :: 0 <= i < |s| ==> IsCurrencyChar(s[i]) }

  function DigitChar(d: nat): (c: char)
    requires d < 10
    ensures IsDigit(c) && c as int - '0' as int == d
  {
    (d + '0' as int) as char
  }

  // ---------- Whole numbers ----------

  /** The digits of a number without zeros in front */
  function Decimal(n: nat): (s: string)
    ensures s != [] && Digits(s)
  {
    if n < 10 then [DigitChar(n)] else Decimal(n / 10) + [DigitChar(n % 10)]
  }

  function Number(s: string): nat
    requires Digits(s)
  {
    if s == [] then 0 else 10 * Number(s[..|s| - 1]) + (s[|s| - 1] as int - '0' as int)
  }

  lemma {:induction false} NumberOfDecimal(n: nat)
    ensures Number(Decimal(n)) == n
  {
    if n >= 10 {
      NumberOfDecimal(n / 10);
      var d := Decimal(n);
      assert d[..|d| - 1] == Decimal(n / 10);
    } else {
      assert Number(Decimal(n)[..0]) == 0;
    }
  }

  // ---------- Fractions ----------

  /** The digits of n / 10^8, from place i on; they end when nothing but zeros is left, but not before min digits. */
  function FractionDigits(n: nat, i: nat, min: nat): (s: string)
    requires n < BASE && i <= 8
    ensures |s| <= 8 - i && Digits(s)
    decreases 8 - i
  {
    if i == 8 || (n == 0 && i >= min) then []
    else [DigitChar(n * 10 / BASE)] + FractionDigits(n * 10 % BASE, i + 1, min)
  }

  /** What digits behind the point stand for, in units of 10^-8 */
  function FractionValue(s: string): nat
    requires Digits(s) && |s| <= 8
  {
    Number(s) * Pow10(8 - |s|)
  }

  lemma {:induction false} NumberFirst(d: char, s: string)
    requires IsDigit(d) && Digits(s)
    ensures Digits([d] + s) && Number([d] + s) == (d as int - '0' as int) * Pow10(|s|) + Number(s)
  {
    hide Pow10, Number;
    var t, x := [d] + s, d as int - '0' as int;
    NumberStep(t);
    if s == [] {
      PowerOfZero();
      NumberOfNothing();
      assert t[..0] == [];
    } else {
      var u := s[..|s| - 1];
      NumberStep(s);
      NumberFirst(d, u);
      assert t[..|t| - 1] == [d] + u;
      PowerStep(|u|);
      Regroup(x, Pow10(|u|));
    }
  }

  lemma NumberStep(s: string)
    requires s != [] && Digits(s)
    ensures Number(s) == 10 * Number(s[..|s| - 1]) + (s[|s| - 1] as int - '0' as int)
  {
  }

  lemma {:induction false} PowersMultiply(a: nat, b: nat)
    ensures Pow10(a + b) == Pow10(a) * Pow10(b)
  {
    if a > 0 {
      PowersMultiply(a - 1, b);
      assert Pow10(a) * Pow10(b) == 10 * (Pow10(a - 1) * Pow10(b));
    }
  }

  lemma PowerOfEight()
    ensures Pow10(8) == BASE
  {
    assert Pow10(4) == 10000;
  }

  /** Nothing is lost: after i digits what is left is a multiple of 10^i. */
  lemma {:induction false} FractionRoundTrip(n: nat, i: nat, min: nat, k: nat)
    requires n < BASE && i <= 8 && n == k * Pow10(i)
    ensures FractionValue(FractionDigits(n, i, min)) == n
    decreases 8 - i
  {
    hide Number, Pow10;
    PowerOfEight();
    NumberOfNothing();
    if i == 8 {
      OnlyZero(n, k);
    } else if n > 0 || i < min {
      var q, rest := n * 10 / BASE, n * 10 % BASE;
      var t := FractionDigits(rest, i + 1, min);
      NextMultiple(n, i, k);
      FractionRoundTrip(rest, i + 1, min, k - q * Pow10(7 - i));
      NumberFirst(DigitChar(q), t);
      PlaceValue(q, |t|, Number(t));
      assert n * 10 == q * BASE + rest;
    }
  }

  lemma NumberOfNothing()
    ensures Number([]) == 0
  {
  }

  lemma OnlyZero(n: nat, k: nat)
    requires n < BASE && n == k * BASE
    ensures n == 0
  {
    if k > 0 {
      AtLeastOnce(BASE, k);
    }
  }

  lemma NextMultiple(n: nat, i: nat, k: nat)
    requires n < BASE && i < 8 && n == k * Pow10(i)
    ensures var q := n * 10 / BASE; q < 10 && k >= q * Pow10(7 - i) && n * 10 % BASE == (k - q * Pow10(7 - i)) * Pow10(i + 1)
  {
    hide Pow10;
    var q := n * 10 / BASE;
    PowerOfEight();
    var p, r := Pow10(i + 1), Pow10(7 - i);
    PowersMultiply(7 - i, i + 1);
    assert p == 10 * Pow10(i) by { PowerStep(i); }
    assert n * 10 == k * p by { Regroup(k, Pow10(i)); }
    assert q * BASE == q * r * p by { Regroup3(q, r, p); }
    Remaining(k, q * r, p, n * 10 % BASE);
  }

  lemma PowerStep(i: nat)
    ensures Pow10(i + 1) == 10 * Pow10(i)
  {
  }

  lemma Regroup(k: nat, p: nat)
    ensures k * p * 10 == k * (10 * p)
  {
  }

  lemma Regroup3(q: nat, r: nat, p: nat)
    ensures q * (r * p) == q * r * p
  {
  }

  lemma Remaining(k: nat, l: nat, p: nat, rest: nat)
    requires p > 0 && k * p == l * p + rest
    ensures k >= l && rest == (k - l) * p
  {
    assert (k - l) * p == k * p - l * p;
    if k < l {
      assert (l - k) * p == l * p - k * p;
      AtLeastOnce(p, l - k);
    }
  }

  /** The first of the digits is worth 10^7 units; the others are worth a tenth of what they are by themselves. */
  lemma PlaceValue(q: nat, n: nat, v: nat)
    requires n <= 7
    ensures 10 * ((q * Pow10(n) + v) * Pow10(7 - n)) == q * BASE + v * Pow10(8 - n)
  {
    hide Pow10;
    PowerOfEight();
    var a, b := Pow10(n), Pow10(7 - n);
    PowersMultiply(n, 8 - n);
    PowerStep(7 - n);
    assert (q * a + v) * b == q * a * b + v * b;
    Regroup3(q, a, 10 * b);
    Regroup(v, b);
    Regroup(q * a, b);
  }

  // ---------- Printing ----------

  /** The value and the fraction of the normal form, with a point if there are digits behind it */
  function ValueString(a: Amount, min: nat): string {
    var av, af := a.value + a.fraction / BASE, a.fraction % BASE;
    if af == 0 && min == 0 then Decimal(av) else Decimal(av) + "." + FractionDigits(af, 0, min)
  }

  function Printed(a: Amount): string { a.currency + ":" + ValueString(a, 0) }

  method StringifyValue(a: Amount, minFractional: nat) returns (s: string)
    ensures s == ValueString(a, minFractional)
  {
    hide Decimal;
    var av := a.value + a.fraction / BASE;
    var af := a.fraction % BASE;
    s := Decimal(av);
    if af != 0 || minFractional != 0 {
      s := s + ".";
      var n: nat := af;
      var i := 0;
      ghost var all := s + FractionDigits(af, 0, minFractional);
      while i < 8
        invariant i <= 8 && n < BASE && s + FractionDigits(n, i, minFractional) == all
      {
        if n == 0 && i >= minFractional {
          break;
        }
        assert s + ([DigitChar(n * 10 / BASE)] + FractionDigits(n * 10 % BASE, i + 1, minFractional))
            == s + [DigitChar(n * 10 / BASE)] + FractionDigits(n * 10 % BASE, i + 1, minFractional);
        s := s + [DigitChar(n * 10 / BASE)];
        n := n * 10 % BASE;
        i := i + 1;
      }
      assert s == all;
    }
  }

  // ---------- Parsing ----------

  /** How many characters from a position on are of a kind */
  function Span(s: string, kind: char -> bool): (n: nat)
    ensures n <= |s| && forall i :: 0 <= i < n ==> kind(s[i])
    ensures n < |s| ==> !kind(s[n])
  {
    if s == [] || !kind(s[0]) then 0 else 1 + Span(s[1..], kind)
  }

  /** The parts that the regular expression finds: the currency, the digits, and the digits behind a point */
  datatype Parts = Parts(currency: string, whole: string, tail: Option<string>)

  function Match(s: string): Option<Parts> {
    var c := Span(s, IsCurrencyChar);
    if c == 0 || c == |s| || s[c] != ':' then None else MatchNumber(s[..c], s[c + 1..])
  }

  function MatchNumber(currency: string, r: string): Option<Parts> {
    var d := Span(r, IsDigit);
    if d == 0 then None
    else if d == |r| then Some(Parts(currency, r, None))
    else if r[d] != '.' then None
    else
      var f := Span(r[d + 1..], IsDigit);
      if f == 0 || d + 1 + f != |r| then None else Some(Parts(currency, r[..d], Some(r[d + 1..])))
  }

  ghost predicate Proper(p: Parts) {
    && CurrencyName(p.currency) && p.whole != [] && Digits(p.whole)
    && (p.tail.Some? ==> p.tail.value != [] && Digits(p.tail.value))
  }

  ghost function JoinedNumber(p: Parts): string {
    p.whole + if p.tail.Some? then "." + p.tail.value else []
  }

  ghost function Joined(p: Parts): string { p.currency + ":" + JoinedNumber(p) }

  lemma {:induction false} SpanOf(a: string, b: string, kind: char -> bool)
    requires forall i :: 0 <= i < |a| ==> kind(a[i])
    requires b == [] || !kind(b[0])
    ensures Span(a + b, kind) == |a|
  {
    if a == [] {
      assert a + b == b;
    } else {
      assert (a + b)[1..] == a[1..] + b;
      SpanOf(a[1..], b, kind);
    }
  }

  /** Matching is the inverse of joining the parts. */
  lemma MatchesExactly(s: string, p: Parts)
    ensures Match(s) == Some(p) <==> Proper(p) && s == Joined(p)
  {
    hide Span;
    if Match(s) == Some(p) {
      MatchedParts(s);
    }
    if Proper(p) && s == Joined(p) {
      JoinedMatches(p);
    }
  }

  lemma MatchedParts(s: string)
    ensures Match(s).Some? ==> Proper(Match(s).value) && s == Joined(Match(s).value)
  {
    hide Span, MatchNumber, JoinedNumber;
    if Match(s).Some? {
      var c := Span(s, IsCurrencyChar);
      MatchedNumber(s[..c], s[c + 1..]);
      assert s == s[..c] + [s[c]] + s[c + 1..];
    }
  }

  lemma MatchedNumber(currency: string, r: string)
    ensures var m := MatchNumber(currency, r);
            m.Some? ==> && m.value.currency == currency && m.value.whole != [] && Digits(m.value.whole)
                        && (m.value.tail.Some? ==> m.value.tail.value != [] && Digits(m.value.tail.value))
                        && r == JoinedNumber(m.value)
  {
    hide Span, IsDigit;
    var d := Span(r, IsDigit);
    if d < |r| {
      assert r == r[..d] + [r[d]] + r[d + 1..];
    }
  }

  lemma JoinedMatches(p: Parts)
    requires Proper(p)
    ensures Match(Joined(p)) == Some(p)
  {
    hide Span, MatchNumber, JoinedNumber;
    var s, r := Joined(p), JoinedNumber(p);
    assert s == p.currency + ([':'] + r);
    SpanOf(p.currency, [':'] + r, IsCurrencyChar);
    assert s[|p.currency| + 1..] == r && s[..|p.currency|] == p.currency;
    NumberMatches(p);
  }

  lemma NumberMatches(p: Parts)
    requires p.whole != [] && Digits(p.whole)
    requires p.tail.Some? ==> p.tail.value != [] && Digits(p.tail.value)
    ensures MatchNumber(p.currency, JoinedNumber(p)) == Some(p)
  {
    hide Span;
    var t := if p.tail.Some? then "." + p.tail.value else [];
    var r := p.whole + t;
    SpanOf(p.whole, t, IsDigit);
    if p.tail.Some? {
      assert r[|p.whole| + 1..] == p.tail.value && r[..|p.whole|] == p.whole;
      SpanOf(p.tail.value, [], IsDigit);
      assert p.tail.value + [] == p.tail.value;
    } else {
      assert r == p.whole;
    }
  }

  lemma MatchedProper(s: string)
    ensures Match(s).Some? ==> Proper(Match(s).value)
  {
    hide Span;
    MatchedParts(s);
  }

  function Parse(s: string): Option<Amount> {
    var m := Match(s);
    if m.None? then None
    else
      MatchedProper(s);
      var tail := if m.value.tail.Some? then m.value.tail.value else "0";
      if |tail| > 8 then None
      else
        var value := Number(m.value.whole);
        if value > MAX_VALUE then None else Some(Amount(Upper(m.value.currency), value, FractionValue(tail)))
  }

  // ---------- Round trips ----------

  lemma FractionBelowBase(s: string)
    requires Digits(s) && |s| <= 8
    ensures FractionValue(s) < BASE
  {
    hide Number;
    PowerOfEight();
    NumberBelow(s);
    PowersMultiply(|s|, 8 - |s|);
    var v, a, b := Number(s), Pow10(|s|), Pow10(8 - |s|);
    assert (v + 1) * b == v * b + b;
    Grows(b, v + 1, a);
  }

  lemma {:induction false} NumberBelow(s: string)
    requires Digits(s)
    ensures Number(s) < Pow10(|s|)
  {
    if s != [] {
      NumberBelow(s[..|s| - 1]);
    }
  }

  /** What is parsed is a normal amount within the limit, in capital letters. */
  lemma ParsedIsNormal(s: string)
    requires Parse(s).Some?
    ensures var a := Parse(s).value; Normal(a) && a.value <= MAX_VALUE && CurrencyName(a.currency) && Upper(a.currency) == a.currency
  {
    hide Span, Number, FractionValue;
    MatchedProper(s);
    var m := Match(s).value;
    FractionBelowBase(if m.tail.Some? then m.tail.value else "0");
  }

  lemma FractionNotEmpty(n: nat)
    requires 0 < n < BASE
    ensures FractionDigits(n, 0, 0) != []
  {
  }

  lemma ZeroFraction()
    ensures FractionValue("0") == 0
  {
  }

  function PrintedParts(a: Amount): Parts {
    var av, af := a.value + a.fraction / BASE, a.fraction % BASE;
    Parts(a.currency, Decimal(av), if af == 0 then None else Some(FractionDigits(af, 0, 0)))
  }

  lemma PrintedJoined(a: Amount)
    ensures Printed(a) == Joined(PrintedParts(a)) && (Proper(PrintedParts(a)) <==> CurrencyName(a.currency))
  {
    hide Decimal, FractionDigits;
    var af := a.fraction % BASE;
    if af != 0 {
      FractionNotEmpty(af);
    }
  }

  /** Parsing a printed amount gives its normal form, with the currency in capital letters. */
  lemma ParsePrinted(a: Amount)
    requires CurrencyName(a.currency) && Total(a) <= LIMIT
    ensures Parse(Printed(a)) == Some(Units(Upper(a.currency), Total(a)))
  {
    hide Decimal, FractionDigits, Number, Span, FractionValue, Match;
    var av, af := a.value + a.fraction / BASE, a.fraction % BASE;
    PrintedJoined(a);
    MatchesExactly(Printed(a), PrintedParts(a));
    NumberOfDecimal(av);
    FractionRoundTrip(af, 0, 0, af) by { assert af * Pow10(0) == af; }
    ZeroFraction();
    Carry(a.value, a.fraction);
    NormalIsUnits(Amount(Upper(a.currency), av, af));
  }

  /** A printed amount can be parsed exactly if its currency is a proper name and it is within the limit. */
  lemma PrintedParses(a: Amount)
    ensures Parse(Printed(a)).Some? <==> CurrencyName(a.currency) && Total(a) <= LIMIT
  {
    hide Decimal, FractionDigits, Number, Span, FractionValue, Match;
    var p := Parse(Printed(a));
    if CurrencyName(a.currency) && Total(a) <= LIMIT {
      ParsePrinted(a);
    }
    if p.Some? {
      var m := Match(Printed(a)).value;
      MatchesExactly(Printed(a), m);
      PrintedJoined(a);
      if a.fraction % BASE != 0 {
        FractionNotEmpty(a.fraction % BASE);
      }
      SameParts(m, PrintedParts(a));
      NumberOfDecimal(a.value + a.fraction / BASE);
      Carry(a.value, a.fraction);
    }
  }

  lemma OneColon(a: string, x: string)
    requires ':' !in a && ':' !in x
    ensures var s := a + [':'] + x; forall i :: 0 <= i < |s| && s[i] == ':' ==> i == |a|
  {
  }

  lemma FirstColon(a: string, b: string, x: string, y: string)
    requires a + [':'] + x == b + [':'] + y && ':' !in a && ':' !in x
    ensures a == b && x == y
  {
    var s := a + [':'] + x;
    assert s[|b|] == (b + [':'] + y)[|b|] == ':';
    OneColon(a, x);
    assert a == s[..|a|] && x == s[|a| + 1..] && b == s[..|b|] && y == s[|b| + 1..];
  }

  /** Parts found in a printed amount are those that were printed. */
  lemma SameParts(m: Parts, p: Parts)
    requires Proper(m) && Joined(m) == Joined(p)
    requires p.whole != [] && Digits(p.whole) && (p.tail.Some? ==> p.tail.value != [] && Digits(p.tail.value))
    ensures m == p
  {
    hide MatchNumber;
    assert ':' !in JoinedNumber(m) && ':' !in m.currency;
    FirstColon(m.currency, p.currency, JoinedNumber(m), JoinedNumber(p));
    NumberMatches(m);
    NumberMatches(p);
  }

  /** Printing what was parsed and parsing it again changes nothing. */
  lemma PrintingIsStable(s: string)
    requires Parse(s).Some?
    ensures Parse(Printed(Parse(s).value)) == Parse(s)
  {
    hide Parse, Decimal, FractionDigits, Normal, CurrencyName, Units, Total, LIMIT;
    ParsedIsNormal(s);
    var a := Parse(s).value;
    Small(a);
    ParsePrinted(a);
    NormalIsUnits(a);
  }

  lemma Small(a: Amount)
    requires Normal(a) && a.value <= MAX_VALUE
    ensures Total(a) <= LIMIT
  {
  }

  // ---------- How many digits ----------

  /** This many digits behind the point are enough for a fraction. */
  predicate Enough(n: nat, d: nat) { n * Pow10(d) % BASE == 0 }

  /** The least number of digits that are enough */
  ghost predicate Least(n: nat, d: int) {
    d >= 0 && Enough(n, d) && forall e :: 0 <= e < d ==> !Enough(n, e)
  }

  /** The zeros at the end of a number */
  function Zeros(n: nat): nat
    requires n > 0
  {
    if n % 10 == 0 then 1 + Zeros(n / 10) else 0
  }

  method MaxFractionalDigits(a: Amount) returns (d: int)
    ensures d == if a.fraction == 0 then 0 else 8 - Zeros(a.fraction)
  {
    if a.fraction == 0 {
      return 0;
    }
    var i := 0;
    var check := true;
    var rest := a.fraction;
    // what is left is no whole number any more once a last digit is not zero, but then the loop has ended
    while rest > 0 && check
      invariant check ==> rest > 0 && Zeros(a.fraction) == i + Zeros(rest)
      invariant !check ==> Zeros(a.fraction) == i - 1
      decreases check, rest
    {
      check := rest % 10 == 0;
      rest := rest / 10;
      i := i + 1;
    }
    d := 8 - i + 1;
  }

  lemma {:induction false} ZerosTakenOff(n: nat) returns (u: nat)
    requires n > 0
    ensures n == u * Pow10(Zeros(n)) && u % 10 != 0
  {
    if n % 10 == 0 {
      u := ZerosTakenOff(n / 10);
      Regroup(u, Pow10(Zeros(n / 10)));
    } else {
      u := n;
    }
  }

  /** What the method returns is the least number of digits exactly if the fraction has at most eight zeros at its end. */
  lemma LeastDigits(n: nat)
    requires n > 0
    ensures Least(n, 8 - Zeros(n)) <==> Zeros(n) <= 8
  {
    hide Pow10, Zeros;
    PowerOfEight();
    var z := Zeros(n);
    var u := ZerosTakenOff(n);
    if z <= 8 {
      Regroup4(u, z, 8 - z);
      assert Enough(n, 8 - z) by { Divides(u * BASE, BASE, u, 0); }
      forall e | 0 <= e < 8 - z
        ensures !Enough(n, e)
      {
        Regroup4(u, z, e);
        NotEnough(u, z + e);
      }
    }
  }

  lemma {:induction false} PowerBelow(n: nat)
    requires n > 0
    ensures n >= Pow10(Zeros(n))
  {
    if n % 10 == 0 {
      PowerBelow(n / 10);
    }
  }

  /** Digits of a normal fraction are printed until they are enough. */
  lemma {:induction false} EnoughPrinted(n: nat, i: nat, k: nat, d: nat)
    requires n < BASE && i + d <= 8 && n == k * Pow10(i)
    ensures |FractionDigits(n, i, 0)| <= d <==> Enough(n, d)
    decreases d
  {
    hide Pow10, Enough, FractionDigits;
    Printing(n, i);
    NoDigits(n, d);
    if n > 0 && i == 8 {
      PowerOfEight();
      OnlyZero(n, k);
    } else if n > 0 && d > 0 {
      var rest := n * 10 % BASE;
      NextMultiple(n, i, k);
      EnoughPrinted(rest, i + 1, k - n * 10 / BASE * Pow10(7 - i), d - 1);
      EnoughNext(n, d);
    }
  }

  lemma Printing(n: nat, i: nat)
    requires n < BASE && i <= 8
    ensures |FractionDigits(n, i, 0)| == if i == 8 || n == 0 then 0 else 1 + |FractionDigits(n * 10 % BASE, i + 1, 0)|
  {
  }

  lemma NoDigits(n: nat, d: nat)
    requires n < BASE
    ensures n == 0 ==> Enough(n, d)
    ensures d == 0 && Enough(n, d) ==> n == 0
  {
    PowerOfZero();
  }

  lemma PowerOfZero()
    ensures Pow10(0) == 1
  {
  }

  lemma EnoughNext(n: nat, d: nat)
    requires d > 0
    ensures Enough(n, d) <==> Enough(n * 10 % BASE, d - 1)
  {
    hide Pow10;
    var q, rest := n * 10 / BASE, n * 10 % BASE;
    var p := Pow10(d - 1);
    PowerStep(d - 1);
    assert n * 10 == BASE * q + rest;
    assert n * (10 * p) == n * 10 * p by { Regroup3(n, 10, p); }
    assert (BASE * q + rest) * p == BASE * q * p + rest * p;
    assert BASE * (q * p) == BASE * q * p by { Regroup3(BASE, q, p); }
    SameRemainder(rest * p, q * p);
  }

  lemma SameRemainder(a: nat, k: nat)
    ensures (BASE * k + a) % BASE == a % BASE
  {
  }

  /** As many digits are printed of a normal amount as maxFractionalDigits says. */
  lemma PrintedDigits(n: nat)
    requires 0 < n < BASE
    ensures Zeros(n) <= 8 && |FractionDigits(n, 0, 0)| == 8 - Zeros(n)
  {
    hide Pow10, FractionDigits, Enough, Zeros;
    FewZeros(n);
    LeastDigits(n);
    var d, l := 8 - Zeros(n), |FractionDigits(n, 0, 0)|;
    PowerOfZero();
    EnoughPrinted(n, 0, n, d);
    EnoughPrinted(n, 0, n, l);
  }

  lemma FewZeros(n: nat)
    requires 0 < n < BASE
    ensures Zeros(n) <= 8
  {
    PowerBelow(n);
    LargePower(Zeros(n));
  }

  lemma LargePower(z: nat)
    ensures z > 8 ==> Pow10(z) >= BASE
  {
    if z > 8 {
      PowerOfEight();
      PowersMultiply(8, z - 8);
      AtLeastOnce(BASE, Pow10(z - 8));
    }
  }

  lemma Regroup4(u: nat, z: nat, e: nat)
    ensures u * Pow10(z) * Pow10(e) == u * Pow10(z + e)
  {
    PowersMultiply(z, e);
    Regroup3(u, Pow10(z), Pow10(e));
  }

  lemma NotEnough(u: nat, k: nat)
    requires u % 10 != 0 && k < 8
    ensures u * Pow10(k) % BASE != 0
  {
    hide Pow10;
    PowerOfEight();
    if u * Pow10(k) % BASE == 0 {
      var t := u * Pow10(k) / BASE;
      PowersMultiply(8 - k, k);
      PowerStep(7 - k);
      var b := Pow10(7 - k);
      assert u * Pow10(k) == t * (10 * b) * Pow10(k) by { Regroup3(t, 10 * b, Pow10(k)); }
      TenTimes(t, b);
      Cancel(u, t * (10 * b), Pow10(k));
    }
  }

  lemma TenTimes(t: nat, b: nat)
    ensures t * (10 * b) % 10 == 0
  {
    assert t * (10 * b) == 10 * (t * b);
  }

  lemma Cancel(a: nat, b: nat, p: nat)
    requires p > 0 && a * p == b * p
    ensures a == b
  {
    Divides(a * p, p, a, 0);
    Divides(a * p, p, b, 0);
  }
}
