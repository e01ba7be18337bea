/** Sample strings of RFC 3492, section 7.1, and what they are encoded to: they pin all parameters and the digits. */
module PunycodeSamples {
  import opened Wrappers
  import opened Utf16
  import opened Words
  import opened Punycode
  import opened PunycodeProofs
  import opened PunycodeLimit

  /** How many of the first p elements are below a number */
  function Below(s: seq<int>, p: nat, c: int): nat
    requires p <= |s|
  {
    if p == 0 then 0 else Below(s, p - 1, c) + if s[p - 1] < c then 1 else 0
  }

  /** Elements other than the one looked for only count up delta. */
  lemma {:induction false} Walk(input: seq<int>, p: nat, q: nat, plusOne: nat, basicLength: nat, e: EncoderState)
    requires plusOne > 0 && InPass(input, p, e) && p <= q <= |input| && e.delta + (q - p) <= MAX_INT
    requires forall j :: p <= j < q ==> input[j] != e.n
    ensures 0 <= Below(input, q, e.n) - Below(input, p, e.n) <= q - p
    ensures var e' := e.(delta := e.delta + Below(input, q, e.n) - Below(input, p, e.n));
            InPass(input, q, e')
            && EncodePass(input, p, plusOne, basicLength, e) == EncodePass(input, q, plusOne, basicLength, e')
    decreases q - p
  {
    hide Kept;
    if p < q {
      KeptStep(input, e.n, p);
      assert Below(input, p + 1, e.n) == Below(input, p, e.n) + if input[p] < e.n then 1 else 0;
      Walk(input, p + 1, q, plusOne, basicLength, if input[p] < e.n then e.(delta := e.delta + 1) else e);
    }
  }

  /** The round of a code point that occurs once */
  lemma DistinctRound(input: seq<CodePoint>, c: CodePoint, p: nat, basicLength: nat, e: EncoderState)
    requires InPass(input, 0, e) && e.handled < |input| && p < |input| && input[p] == c && e.n <= c
    requires NoneBetween(input, e.n, c) && forall j :: 0 <= j < |input| && j != p ==> input[j] != c
    requires |input| <= 1000 && e.delta + (c - e.n) * (e.handled + 1) + |input| <= 0x1000_0000
    ensures var d := e.delta + (c - e.n) * (e.handled + 1) + Below(input, p, c);
            d >= 0 &&
            var e' := EncoderState(c + 1, Below(input, |input|, c) - Below(input, p + 1, c) + 1, Adapted(d, e.handled + 1, e.handled == basicLength),
                                   e.handled + 1, e.output + Varint(d, BASE, e.bias));
            EncodeRound(input, basicLength, e) == Ok(e') && InPass(input, 0, e')
  {
    hide Kept, Adapted, Varint, Smallest;
    SmallestFound(input, e.n, MAX_INT, c);
    PassStarts(input, e);
    var h := e.handled + 1;
    Guard(c - e.n, h, e.delta);
    var e1 := Advanced(input, e);
    Walk(input, 0, p, h, basicLength, e1);
    var e2 := e1.(delta := e1.delta + Below(input, p, c));
    EmittedFields(input, p, e2, h, basicLength);
    var e3 := Emitted(e2, h, basicLength);
    assert EncodePass(input, p, h, basicLength, e2) == EncodePass(input, p + 1, h, basicLength, e3);
    Walk(input, p + 1, |input|, h, basicLength, e3);
    KeptNextCodePoint(input, c, |input|);
    assert input[..|input|] == input && input[..0] == [];
    EmptyKept(c + 1);
  }

  lemma Guard(steps: nat, h: nat, delta: nat)
    requires h > 0 && delta + steps * h <= 0x1000_0000
    ensures steps <= (MAX_INT - delta) / h
  {
    var room := MAX_INT - delta;
    var rest := room - steps * h;
    assert h * (steps + rest / h) == h * steps + h * (rest / h);
    Divides(room, h, steps + rest / h, rest % h);
  }

  lemma {:induction false} NoneKept(input: seq<int>, n: int)
    requires forall j :: 0 <= j < |input| ==> input[j] >= n
    ensures Kept(input, n, 0) == []
  {
    if input != [] {
      NoneKept(input[..|input| - 1], n);
    }
  }

  /** Letters of either case are the digits 0 to 25, and the numerals are 26 to 35; small letters are written. */
  lemma DigitAlphabet(c: CodeUnit)
    ensures 0x61 <= c <= 0x7a ==> BasicToDigit(c) == c - 0x61 && DigitToBasic(c - 0x61) == c
    ensures 0x41 <= c <= 0x5a ==> BasicToDigit(c) == c - 0x41
    ensures 0x30 <= c <= 0x39 ==> BasicToDigit(c) == c - 0x30 + 26 && DigitToBasic(c - 0x30 + 26) == c
    ensures c > 0x7a ==> BasicToDigit(c) == BASE
  {
  }

  const SAMPLE: seq<CodeUnit> := [0x305d, 0x306e, 0x30b9, 0x30d4, 0x30fc, 0x30c9, 0x3067]

  lemma SampleRound0(e: EncoderState)
    requires InPass(SAMPLE, 0, e) && e == EncoderState(128, 0, 72, 0, [])
    ensures EncodeRound(SAMPLE, 0, e) == Ok(EncoderState(12382, 1, 17, 1, [0x64, 0x39, 0x6a]))
    ensures InPass(SAMPLE, 0, EncoderState(12382, 1, 17, 1, [0x64, 0x39, 0x6a]))
  {
    hide Kept, Adapted, Varint, Below, EncodeRound;
    assert Adapted(12253, 1, true) == 17 && Varint(12253, BASE, 72) == [0x64, 0x39, 0x6a] by { SampleNumbers0(); }
    assert Below(SAMPLE, 0, 0x305d) == Below(SAMPLE, 1, 0x305d) == 0 && Below(SAMPLE, 7, 0x305d) == 0 by { SampleCounts0(); }
    assert SAMPLE[0] == 0x305d;
    DistinctRound(SAMPLE, 0x305d, 0, 0, e) by { hide Kept; }
    assert e.output + [0x64, 0x39, 0x6a] == [0x64, 0x39, 0x6a];
  }

  lemma SampleCounts0()
    ensures Below(SAMPLE, 0, 0x305d) == Below(SAMPLE, 1, 0x305d) == 0 && Below(SAMPLE, 7, 0x305d) == 0
  {
    assert Below(SAMPLE, 0, 0x305d) == 0;
    assert Below(SAMPLE, 1, 0x305d) == 0;
    assert Below(SAMPLE, 2, 0x305d) == 0;
    assert Below(SAMPLE, 3, 0x305d) == 0;
    assert Below(SAMPLE, 4, 0x305d) == 0;
    assert Below(SAMPLE, 5, 0x305d) == 0;
    assert Below(SAMPLE, 6, 0x305d) == 0;
    assert Below(SAMPLE, 7, 0x305d) == 0;
  }

  lemma SampleNumbers0()
    ensures Adapted(12253, 1, true) == 17 && Varint(12253, BASE, 72) == [0x64, 0x39, 0x6a]
  {
    assert 34 == 17 + 17 / 1;
    assert Varint(9, 108, 72) == [0x6a];
    assert Varint(350, 72, 72) == [0x39, 0x6a];
  }

  lemma SampleRound1(e: EncoderState)
    requires InPass(SAMPLE, 0, e) && e == EncoderState(12382, 1, 17, 1, [0x64, 0x39, 0x6a])
    ensures EncodeRound(SAMPLE, 0, e) == Ok(EncoderState(12392, 1, 10, 2, [0x64, 0x39, 0x6a, 0x75, 0x61]))
    ensures InPass(SAMPLE, 0, EncoderState(12392, 1, 10, 2, [0x64, 0x39, 0x6a, 0x75, 0x61]))
  {
    hide Kept, Adapted, Varint, Below, EncodeRound;
    assert Adapted(20, 2, false) == 10 && Varint(20, BASE, 17) == [0x75, 0x61] by { SampleNumbers1(); }
    assert Below(SAMPLE, 6, 0x3067) == Below(SAMPLE, 7, 0x3067) == 1 && Below(SAMPLE, 7, 0x3067) == 1 by { SampleCounts1(); }
    assert SAMPLE[6] == 0x3067;
    DistinctRound(SAMPLE, 0x3067, 6, 0, e) by { hide Kept; }
    assert e.output + [0x75, 0x61] == [0x64, 0x39, 0x6a, 0x75, 0x61];
  }

  lemma SampleCounts1()
    ensures Below(SAMPLE, 6, 0x3067) == Below(SAMPLE, 7, 0x3067) == 1 && Below(SAMPLE, 7, 0x3067) == 1
  {
    assert Below(SAMPLE, 0, 0x3067) == 0;
    assert Below(SAMPLE, 1, 0x3067) == 1;
    assert Below(SAMPLE, 2, 0x3067) == 1;
    assert Below(SAMPLE, 3, 0x3067) == 1;
    assert Below(SAMPLE, 4, 0x3067) == 1;
    assert Below(SAMPLE, 5, 0x3067) == 1;
    assert Below(SAMPLE, 6, 0x3067) == 1;
    assert Below(SAMPLE, 7, 0x3067) == 1;
  }

  lemma SampleNumbers1()
    ensures Adapted(20, 2, false) == 10 && Varint(20, BASE, 17) == [0x75, 0x61]
  {
    assert 15 == 10 + 10 / 2;
    assert Varint(0, 72, 17) == [0x61];
  }

  lemma SampleRound2(e: EncoderState)
    requires InPass(SAMPLE, 0, e) && e == EncoderState(12392, 1, 10, 2, [0x64, 0x39, 0x6a, 0x75, 0x61])
    ensures EncodeRound(SAMPLE, 0, e) == Ok(EncoderState(12399, 2, 9, 3, [0x64, 0x39, 0x6a, 0x75, 0x61, 0x75]))
    ensures InPass(SAMPLE, 0, EncoderState(12399, 2, 9, 3, [0x64, 0x39, 0x6a, 0x75, 0x61, 0x75]))
  {
    hide Kept, Adapted, Varint, Below, EncodeRound;
    assert Adapted(20, 3, false) == 9 && Varint(20, BASE, 10) == [0x75] by { SampleNumbers2(); }
    assert Below(SAMPLE, 1, 0x306e) == Below(SAMPLE, 2, 0x306e) == 1 && Below(SAMPLE, 7, 0x306e) == 2 by { SampleCounts2(); }
    assert SAMPLE[1] == 0x306e;
    DistinctRound(SAMPLE, 0x306e, 1, 0, e) by { hide Kept; }
    assert e.output + [0x75] == [0x64, 0x39, 0x6a, 0x75, 0x61, 0x75];
  }

  lemma SampleCounts2()
    ensures Below(SAMPLE, 1, 0x306e) == Below(SAMPLE, 2, 0x306e) == 1 && Below(SAMPLE, 7, 0x306e) == 2
  {
    assert Below(SAMPLE, 0, 0x306e) == 0;
    assert Below(SAMPLE, 1, 0x306e) == 1;
    assert Below(SAMPLE, 2, 0x306e) == 1;
    assert Below(SAMPLE, 3, 0x306e) == 1;
    assert Below(SAMPLE, 4, 0x306e) == 1;
    assert Below(SAMPLE, 5, 0x306e) == 1;
    assert Below(SAMPLE, 6, 0x306e) == 1;
    assert Below(SAMPLE, 7, 0x306e) == 2;
  }

  lemma SampleNumbers2()
    ensures Adapted(20, 3, false) == 9 && Varint(20, BASE, 10) == [0x75]
  {
    assert 13 == 10 + 10 / 3;
  }

  lemma SampleRound3(e: EncoderState)
    requires InPass(SAMPLE, 0, e) && e == EncoderState(12399, 2, 9, 3, [0x64, 0x39, 0x6a, 0x75, 0x61, 0x75])
    ensures EncodeRound(SAMPLE, 0, e) == Ok(EncoderState(12474, 2, 29, 4, [0x64, 0x39, 0x6a, 0x75, 0x61, 0x75, 0x34, 0x31, 0x61]))
    ensures InPass(SAMPLE, 0, EncoderState(12474, 2, 29, 4, [0x64, 0x39, 0x6a, 0x75, 0x61, 0x75, 0x34, 0x31, 0x61]))
  {
    hide Kept, Adapted, Varint, Below, EncodeRound;
    assert Adapted(300, 4, false) == 29 && Varint(300, BASE, 9) == [0x34, 0x31, 0x61] by { SampleNumbers3(); }
    assert Below(SAMPLE, 2, 0x30b9) == Below(SAMPLE, 3, 0x30b9) == 2 && Below(SAMPLE, 7, 0x30b9) == 3 by { SampleCounts3(); }
    assert SAMPLE[2] == 0x30b9;
    DistinctRound(SAMPLE, 0x30b9, 2, 0, e) by { hide Kept; }
    assert e.output + [0x34, 0x31, 0x61] == [0x64, 0x39, 0x6a, 0x75, 0x61, 0x75, 0x34, 0x31, 0x61];
  }

  lemma SampleCounts3()
    ensures Below(SAMPLE, 2, 0x30b9) == Below(SAMPLE, 3, 0x30b9) == 2 && Below(SAMPLE, 7, 0x30b9) == 3
  {
    assert Below(SAMPLE, 0, 0x30b9) == 0;
    assert Below(SAMPLE, 1, 0x30b9) == 1;
    assert Below(SAMPLE, 2, 0x30b9) == 2;
    assert Below(SAMPLE, 3, 0x30b9) == 2;
    assert Below(SAMPLE, 4, 0x30b9) == 2;
    assert Below(SAMPLE, 5, 0x30b9) == 2;
    assert Below(SAMPLE, 6, 0x30b9) == 2;
    assert Below(SAMPLE, 7, 0x30b9) == 3;
  }

  lemma SampleNumbers3()
    ensures Adapted(300, 4, false) == 29 && Varint(300, BASE, 9) == [0x34, 0x31, 0x61]
  {
    assert 187 == 150 + 150 / 4;
    assert Varint(0, 108, 9) == [0x61];
    assert Varint(27, 72, 9) == [0x31, 0x61];
  }

  lemma SampleRound4(e: EncoderState)
    requires InPass(SAMPLE, 0, e) && e == EncoderState(12474, 2, 29, 4, [0x64, 0x39, 0x6a, 0x75, 0x61, 0x75, 0x34, 0x31, 0x61])
    ensures EncodeRound(SAMPLE, 0, e) == Ok(EncoderState(12490, 2, 20, 5, [0x64, 0x39, 0x6a, 0x75, 0x61, 0x75, 0x34, 0x31, 0x61, 0x77, 0x63]))
    ensures InPass(SAMPLE, 0, EncoderState(12490, 2, 20, 5, [0x64, 0x39, 0x6a, 0x75, 0x61, 0x75, 0x34, 0x31, 0x61, 0x77, 0x63]))
  {
    hide Kept, Adapted, Varint, Below, EncodeRound;
    assert Adapted(80, 5, false) == 20 && Varint(80, BASE, 29) == [0x77, 0x63] by { SampleNumbers4(); }
    assert Below(SAMPLE, 5, 0x30c9) == Below(SAMPLE, 6, 0x30c9) == 3 && Below(SAMPLE, 7, 0x30c9) == 4 by { SampleCounts4(); }
    assert SAMPLE[5] == 0x30c9;
    DistinctRound(SAMPLE, 0x30c9, 5, 0, e) by { hide Kept; }
    assert e.output + [0x77, 0x63] == [0x64, 0x39, 0x6a, 0x75, 0x61, 0x75, 0x34, 0x31, 0x61, 0x77, 0x63];
  }

  lemma SampleCounts4()
    ensures Below(SAMPLE, 5, 0x30c9) == Below(SAMPLE, 6, 0x30c9) == 3 && Below(SAMPLE, 7, 0x30c9) == 4
  {
    assert Below(SAMPLE, 0, 0x30c9) == 0;
    assert Below(SAMPLE, 1, 0x30c9) == 1;
    assert Below(SAMPLE, 2, 0x30c9) == 2;
    assert Below(SAMPLE, 3, 0x30c9) == 3;
    assert Below(SAMPLE, 4, 0x30c9) == 3;
    assert Below(SAMPLE, 5, 0x30c9) == 3;
    assert Below(SAMPLE, 6, 0x30c9) == 3;
    assert Below(SAMPLE, 7, 0x30c9) == 4;
  }

  lemma SampleNumbers4()
    ensures Adapted(80, 5, false) == 20 && Varint(80, BASE, 29) == [0x77, 0x63]
  {
    assert 48 == 40 + 40 / 5;
    assert Varint(2, 72, 29) == [0x63];
  }

  lemma SampleRound5(e: EncoderState)
    requires InPass(SAMPLE, 0, e) && e == EncoderState(12490, 2, 20, 5, [0x64, 0x39, 0x6a, 0x75, 0x61, 0x75, 0x34, 0x31, 0x61, 0x77, 0x63])
    ensures EncodeRound(SAMPLE, 0, e) == Ok(EncoderState(12501, 3, 17, 6, [0x64, 0x39, 0x6a, 0x75, 0x61, 0x75, 0x34, 0x31, 0x61, 0x77, 0x63, 0x7a, 0x63]))
    ensures InPass(SAMPLE, 0, EncoderState(12501, 3, 17, 6, [0x64, 0x39, 0x6a, 0x75, 0x61, 0x75, 0x34, 0x31, 0x61, 0x77, 0x63, 0x7a, 0x63]))
  {
    hide Kept, Adapted, Varint, Below, EncodeRound;
    assert Adapted(65, 6, false) == 17 && Varint(65, BASE, 20) == [0x7a, 0x63] by { SampleNumbers5(); }
    assert Below(SAMPLE, 3, 0x30d4) == Below(SAMPLE, 4, 0x30d4) == 3 && Below(SAMPLE, 7, 0x30d4) == 5 by { SampleCounts5(); }
    assert SAMPLE[3] == 0x30d4;
    DistinctRound(SAMPLE, 0x30d4, 3, 0, e) by { hide Kept; }
    assert e.output + [0x7a, 0x63] == [0x64, 0x39, 0x6a, 0x75, 0x61, 0x75, 0x34, 0x31, 0x61, 0x77, 0x63, 0x7a, 0x63];
  }

  lemma SampleCounts5()
    ensures Below(SAMPLE, 3, 0x30d4) == Below(SAMPLE, 4, 0x30d4) == 3 && Below(SAMPLE, 7, 0x30d4) == 5
  {
    assert Below(SAMPLE, 0, 0x30d4) == 0;
    assert Below(SAMPLE, 1, 0x30d4) == 1;
    assert Below(SAMPLE, 2, 0x30d4) == 2;
    assert Below(SAMPLE, 3, 0x30d4) == 3;
    assert Below(SAMPLE, 4, 0x30d4) == 3;
    assert Below(SAMPLE, 5, 0x30d4) == 3;
    assert Below(SAMPLE, 6, 0x30d4) == 4;
    assert Below(SAMPLE, 7, 0x30d4) == 5;
  }

  lemma SampleNumbers5()
    ensures Adapted(65, 6, false) == 17 && Varint(65, BASE, 20) == [0x7a, 0x63]
  {
    assert 37 == 32 + 32 / 6;
    assert Varint(2, 72, 20) == [0x63];
  }

  lemma SampleRound6(e: EncoderState)
    requires InPass(SAMPLE, 0, e) && e == EncoderState(12501, 3, 17, 6, [0x64, 0x39, 0x6a, 0x75, 0x61, 0x75, 0x34, 0x31, 0x61, 0x77, 0x63, 0x7a, 0x63])
    ensures EncodeRound(SAMPLE, 0, e) == Ok(EncoderState(12541, 3, 29, 7, [0x64, 0x39, 0x6a, 0x75, 0x61, 0x75, 0x34, 0x31, 0x61, 0x77, 0x63, 0x7a, 0x63, 0x7a, 0x70]))
    ensures InPass(SAMPLE, 0, EncoderState(12541, 3, 29, 7, [0x64, 0x39, 0x6a, 0x75, 0x61, 0x75, 0x34, 0x31, 0x61, 0x77, 0x63, 0x7a, 0x63, 0x7a, 0x70]))
  {
    hide Kept, Adapted, Varint, Below, EncodeRound;
    assert Adapted(280, 7, false) == 29 && Varint(280, BASE, 17) == [0x7a, 0x70] by { SampleNumbers6(); }
    assert Below(SAMPLE, 4, 0x30fc) == Below(SAMPLE, 5, 0x30fc) == 4 && Below(SAMPLE, 7, 0x30fc) == 6 by { SampleCounts6(); }
    assert SAMPLE[4] == 0x30fc;
    DistinctRound(SAMPLE, 0x30fc, 4, 0, e) by { hide Kept; }
    assert e.output + [0x7a, 0x70] == [0x64, 0x39, 0x6a, 0x75, 0x61, 0x75, 0x34, 0x31, 0x61, 0x77, 0x63, 0x7a, 0x63, 0x7a, 0x70];
  }

  lemma SampleCounts6()
    ensures Below(SAMPLE, 4, 0x30fc) == Below(SAMPLE, 5, 0x30fc) == 4 && Below(SAMPLE, 7, 0x30fc) == 6
  {
    assert Below(SAMPLE, 0, 0x30fc) == 0;
    assert Below(SAMPLE, 1, 0x30fc) == 1;
    assert Below(SAMPLE, 2, 0x30fc) == 2;
    assert Below(SAMPLE, 3, 0x30fc) == 3;
    assert Below(SAMPLE, 4, 0x30fc) == 4;
    assert Below(SAMPLE, 5, 0x30fc) == 4;
    assert Below(SAMPLE, 6, 0x30fc) == 5;
    assert Below(SAMPLE, 7, 0x30fc) == 6;
  }

  lemma SampleNumbers6()
    ensures Adapted(280, 7, false) == 29 && Varint(280, BASE, 17) == [0x7a, 0x70]
  {
    assert 160 == 140 + 140 / 7;
    assert Varint(15, 72, 17) == [0x70];
  }

  /** Seven characters of a line in Japanese (R) */
  lemma Sample()
    ensures Encoded(SAMPLE) == Ok([0x64, 0x39, 0x6a, 0x75, 0x61, 0x75, 0x34, 0x31, 0x61, 0x77, 0x63, 0x7a, 0x63, 0x7a, 0x70])
    ensures Decoded([0x64, 0x39, 0x6a, 0x75, 0x61, 0x75, 0x34, 0x31, 0x61, 0x77, 0x63, 0x7a, 0x63, 0x7a, 0x70]) == Ok(SAMPLE)
  {
    hide Kept, EncodeRound, InPass, Decoded;
    var e0 := SampleStarts();
    SampleRound0(e0);
    var e1 := EncoderState(12382, 1, 17, 1, [0x64, 0x39, 0x6a]);
    assert EncodeLoop(SAMPLE, 0, e0) == EncodeLoop(SAMPLE, 0, e1);
    SampleRound1(e1);
    var e2 := EncoderState(12392, 1, 10, 2, [0x64, 0x39, 0x6a, 0x75, 0x61]);
    assert EncodeLoop(SAMPLE, 0, e1) == EncodeLoop(SAMPLE, 0, e2);
    SampleRound2(e2);
    var e3 := EncoderState(12399, 2, 9, 3, [0x64, 0x39, 0x6a, 0x75, 0x61, 0x75]);
    assert EncodeLoop(SAMPLE, 0, e2) == EncodeLoop(SAMPLE, 0, e3);
    SampleRound3(e3);
    var e4 := EncoderState(12474, 2, 29, 4, [0x64, 0x39, 0x6a, 0x75, 0x61, 0x75, 0x34, 0x31, 0x61]);
    assert EncodeLoop(SAMPLE, 0, e3) == EncodeLoop(SAMPLE, 0, e4);
    SampleRound4(e4);
    var e5 := EncoderState(12490, 2, 20, 5, [0x64, 0x39, 0x6a, 0x75, 0x61, 0x75, 0x34, 0x31, 0x61, 0x77, 0x63]);
    assert EncodeLoop(SAMPLE, 0, e4) == EncodeLoop(SAMPLE, 0, e5);
    SampleRound5(e5);
    var e6 := EncoderState(12501, 3, 17, 6, [0x64, 0x39, 0x6a, 0x75, 0x61, 0x75, 0x34, 0x31, 0x61, 0x77, 0x63, 0x7a, 0x63]);
    assert EncodeLoop(SAMPLE, 0, e5) == EncodeLoop(SAMPLE, 0, e6);
    SampleRound6(e6);
    var e7 := EncoderState(12541, 3, 29, 7, [0x64, 0x39, 0x6a, 0x75, 0x61, 0x75, 0x34, 0x31, 0x61, 0x77, 0x63, 0x7a, 0x63, 0x7a, 0x70]);
    assert EncodeLoop(SAMPLE, 0, e6) == EncodeLoop(SAMPLE, 0, e7);
    SamplePlain();
    ShortStringsRoundTrip(SAMPLE);
  }

  lemma SamplePlain()
    ensures CodePoints(SAMPLE) == SAMPLE
  {
    PlainPrefix(SAMPLE, []);
    assert SAMPLE + [] == SAMPLE && CodePoints([]) == [];
  }

  lemma SampleStarts() returns (e: EncoderState)
    ensures e == EncoderState(128, 0, 72, 0, []) && InPass(SAMPLE, 0, e)
    ensures Encoded(SAMPLE) == EncodeLoop(SAMPLE, 0, e)
  {
    SamplePlain();
    NoneKept(SAMPLE, 128);
    e := EncoderState(128, 0, 72, 0, []);
    assert SAMPLE[..0] == [];
    KeptBelow(SAMPLE, 128);
  }

  const MIXED: seq<CodeUnit> := [0x62, 0xfc, 0x63, 0x68, 0x65, 0x72]

  lemma MixedRound0(e: EncoderState)
    requires InPass(MIXED, 0, e) && e == EncoderState(128, 0, 72, 5, [0x62, 0x63, 0x68, 0x65, 0x72, 0x2d])
    ensures EncodeRound(MIXED, 5, e) == Ok(EncoderState(253, 5, 0, 6, [0x62, 0x63, 0x68, 0x65, 0x72, 0x2d, 0x6b, 0x76, 0x61]))
    ensures InPass(MIXED, 0, EncoderState(253, 5, 0, 6, [0x62, 0x63, 0x68, 0x65, 0x72, 0x2d, 0x6b, 0x76, 0x61]))
  {
    hide Kept, Adapted, Varint, Below, EncodeRound;
    assert Adapted(745, 6, true) == 0 && Varint(745, BASE, 72) == [0x6b, 0x76, 0x61] by { MixedNumbers0(); }
    assert Below(MIXED, 1, 0xfc) == Below(MIXED, 2, 0xfc) == 1 && Below(MIXED, 6, 0xfc) == 5 by { MixedCounts0(); }
    assert MIXED[1] == 0xfc;
    DistinctRound(MIXED, 0xfc, 1, 5, e) by { hide Kept; }
    assert e.output + [0x6b, 0x76, 0x61] == [0x62, 0x63, 0x68, 0x65, 0x72, 0x2d, 0x6b, 0x76, 0x61];
  }

  lemma MixedCounts0()
    ensures Below(MIXED, 1, 0xfc) == Below(MIXED, 2, 0xfc) == 1 && Below(MIXED, 6, 0xfc) == 5
  {
    assert Below(MIXED, 0, 0xfc) == 0;
    assert Below(MIXED, 1, 0xfc) == 1;
    assert Below(MIXED, 2, 0xfc) == 1;
    assert Below(MIXED, 3, 0xfc) == 2;
    assert Below(MIXED, 4, 0xfc) == 3;
    assert Below(MIXED, 5, 0xfc) == 4;
    assert Below(MIXED, 6, 0xfc) == 5;
  }

  lemma MixedNumbers0()
    ensures Adapted(745, 6, true) == 0 && Varint(745, BASE, 72) == [0x6b, 0x76, 0x61]
  {
    assert 1 == 1 + 1 / 6;
    assert Varint(0, 108, 72) == [0x61];
    assert Varint(21, 72, 72) == [0x76, 0x61];
  }

  /** A word with one character that is not basic, as it stands in internationalized domain names */
  lemma Mixed()
    ensures Encoded(MIXED) == Ok([0x62, 0x63, 0x68, 0x65, 0x72, 0x2d, 0x6b, 0x76, 0x61])
    ensures Decoded([0x62, 0x63, 0x68, 0x65, 0x72, 0x2d, 0x6b, 0x76, 0x61]) == Ok(MIXED)
  {
    hide Kept, EncodeRound, InPass, Decoded;
    var e0 := MixedStarts();
    MixedRound0(e0);
    var e1 := EncoderState(253, 5, 0, 6, [0x62, 0x63, 0x68, 0x65, 0x72, 0x2d, 0x6b, 0x76, 0x61]);
    assert EncodeLoop(MIXED, 5, e0) == EncodeLoop(MIXED, 5, e1);
    MixedPlain();
    ShortStringsRoundTrip(MIXED);
  }

  lemma MixedPlain()
    ensures CodePoints(MIXED) == MIXED
  {
    PlainPrefix(MIXED, []);
    assert MIXED + [] == MIXED && CodePoints([]) == [];
  }

  lemma MixedStarts() returns (e: EncoderState)
    ensures e == EncoderState(128, 0, 72, 5, [0x62, 0x63, 0x68, 0x65, 0x72, 0x2d]) && InPass(MIXED, 0, e)
    ensures Encoded(MIXED) == EncodeLoop(MIXED, 5, e)
  {
    MixedPlain();
    MixedBasic();
    e := EncoderState(128, 0, 72, 5, [0x62, 0x63, 0x68, 0x65, 0x72, 0x2d]);
    assert MIXED[..0] == [];
    KeptBelow(MIXED, 128);
    assert [0x62, 0x63, 0x68, 0x65, 0x72] + [DELIMITER] == [0x62, 0x63, 0x68, 0x65, 0x72, 0x2d];
  }

  lemma MixedBasic()
    ensures Kept(MIXED, 128, 0) == [0x62, 0x63, 0x68, 0x65, 0x72]
  {
    hide Kept;
    EmptyKept(128);
    assert MIXED[..0] == [];
    KeptLast(MIXED[..1], 128, 0);
    assert MIXED[..1][..0] == MIXED[..0] && Kept(MIXED[..1], 128, 0) == [0x62];
    KeptLast(MIXED[..2], 128, 0);
    assert MIXED[..2][..1] == MIXED[..1] && Kept(MIXED[..2], 128, 0) == [0x62];
    KeptLast(MIXED[..3], 128, 0);
    assert MIXED[..3][..2] == MIXED[..2] && Kept(MIXED[..3], 128, 0) == [0x62, 0x63];
    KeptLast(MIXED[..4], 128, 0);
    assert MIXED[..4][..3] == MIXED[..3] && Kept(MIXED[..4], 128, 0) == [0x62, 0x63, 0x68];
    KeptLast(MIXED[..5], 128, 0);
    assert MIXED[..5][..4] == MIXED[..4] && Kept(MIXED[..5], 128, 0) == [0x62, 0x63, 0x68, 0x65];
    KeptLast(MIXED[..6], 128, 0);
    assert MIXED[..6][..5] == MIXED[..5] && Kept(MIXED[..6], 128, 0) == [0x62, 0x63, 0x68, 0x65, 0x72];
    assert MIXED[..6] == MIXED;
  }
}
