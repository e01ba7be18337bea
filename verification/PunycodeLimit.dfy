/** A string that the Punycode encoder accepts and the decoder refuses: the 31-bit guard is not the same on both sides. */
module PunycodeLimit {
  import opened Wrappers
  import opened Utf16
  import opened Punycode
  import opened PunycodeProofs

  /** Letters 'a', then U+0080 and U+10F66D. */
  function Letters(count: nat): (s: seq<CodeUnit>)
    ensures |s| == count && forall j :: 0 <= j < count ==> s[j] == 0x61
  {
    seq(count, j => 0x61)
  }

  const COUNT: nat := 1930
  const LAST: CodePoint := 0x10F66D
  const LIMIT_STRING: seq<CodeUnit> := Letters(COUNT) + [0x80, 0xDBFD, 0xDE6D]
  const LIMIT_POINTS: seq<CodePoint> := Letters(COUNT) + [0x80, LAST]

  lemma {:induction false} PlainPrefix(a: seq<CodeUnit>, b: seq<CodeUnit>)
    requires forall j :: 0 <= j < |a| ==> !IsHighSurrogate(a[j])
    ensures CodePoints(a + b) == a + CodePoints(b)
  {
    if a == [] {
      assert a + b == b;
    } else {
      PlainPrefix(a[1..], b);
      assert (a + b)[1..] == a[1..] + b;
      assert a == [a[0]] + a[1..];
    }
  }

  lemma LimitPoints()
    ensures CodePoints(LIMIT_STRING) == LIMIT_POINTS
  {
    var tail: seq<CodeUnit> := [0x80, 0xDBFD, 0xDE6D];
    PlainPrefix(Letters(COUNT), tail);
    assert tail[1..] == [0xDBFD, 0xDE6D] && tail[1..][2..] == [];
    assert CodePoints([]) == [];
    assert CodePoints(tail[1..]) == [LAST] + CodePoints([]);
    assert CodePoints(tail) == [0x80] + CodePoints(tail[1..]);
  }

  lemma {:induction false} KeptAll(input: seq<int>, n: int, p: int)
    requires forall j :: 0 <= j < |input| ==> input[j] < n
    ensures Kept(input, n, p) == input
  {
    if input != [] {
      KeptAll(input[..|input| - 1], n, p);
    }
  }

  /** The last code point does not fit: i would have to be 2147483687. */
  lemma LimitDoesNotFit()
    ensures !AllFitFrom(LIMIT_POINTS, INITIAL_N)
  {
    var input, p := LIMIT_POINTS, COUNT + 1;
    var front := input[..p];
    KeptAll(front, LAST, p);
    assert input[..|input| - 1] == front;
    assert Before(input, p) == front;
    assert front[COUNT] == 128;
    HighestBound(front, 128);
    assert Position(input, LAST, p) == p;
    assert !Fits(input, p);
  }

  /** Smaller elements only count up delta. */
  lemma {:induction false} SkipRun(input: seq<int>, p: nat, q: nat, plusOne: nat, basicLength: nat, e: EncoderState)
    requires plusOne > 0 && InPass(input, p, e) && p <= q <= |input| && e.delta + (q - p) <= MAX_INT
    requires forall j :: p <= j < q ==> input[j] < e.n
    ensures InPass(input, q, e.(delta := e.delta + (q - p)))
    ensures EncodePass(input, p, plusOne, basicLength, e)
            == EncodePass(input, q, plusOne, basicLength, e.(delta := e.delta + (q - p)))
    decreases q - p
  {
    hide Kept;
    if p < q {
      KeptStep(input, e.n, p);
      SkipRun(input, p + 1, q, plusOne, basicLength, e.(delta := e.delta + 1));
    }
  }

  lemma {:induction false} SmallestFound(input: seq<int>, n: int, m: int, c: int)
    requires n <= c <= m && NoneBetween(input, n, c) && (c in input || c == m)
    ensures Smallest(input, n, m) == c
  {
    if input != [] {
      var m' := if n <= input[0] < m then input[0] else m;
      assert input == [input[0]] + input[1..];
      assert forall j :: 0 <= j < |input[1..]| ==> input[1..][j] == input[j + 1];
      SmallestFound(input[1..], n, m', c);
    }
  }

  /** The round of U+0080: 1930 letters are counted, then one varint. */
  lemma FirstRound(e: EncoderState) returns (bias: int, output: seq<CodeUnit>)
    requires InPass(LIMIT_POINTS, 0, e) && e.n == 128 && e.delta == 0 && e.handled == COUNT
    ensures var e' := EncoderState(129, 1, bias, COUNT + 1, output);
            InPass(LIMIT_POINTS, 0, e') && EncodeRound(LIMIT_POINTS, COUNT, e) == Ok(e')
  {
    hide Kept, Adapted, Varint, Smallest;
    var input := LIMIT_POINTS;
    assert input[COUNT] == 128;
    SmallestFound(input, 128, MAX_INT, 128);
    assert Advanced(input, e) == e;
    SkipRun(input, 0, COUNT, COUNT + 1, COUNT, e);
    var e1 := e.(delta := COUNT);
    var e2 := Emitted(e1, COUNT + 1, COUNT);
    EmittedFields(input, COUNT, e1, COUNT + 1, COUNT);
    assert EncodePass(input, COUNT, COUNT + 1, COUNT, e1) == EncodePass(input, COUNT + 1, COUNT + 1, COUNT, e2);
    KeptStep(input, 128, COUNT + 1);
    assert EncodePass(input, COUNT + 1, COUNT + 1, COUNT, e2) == EncodePass(input, COUNT + 2, COUNT + 1, COUNT, e2) == Ok(e2);
    KeptNextCodePoint(input, 128, |input|);
    bias, output := e2.bias, e2.output;
  }

  /** The round of the last code point: its delta of 2147481756 is within 31 bits. */
  lemma SecondRound(e: EncoderState)
    requires InPass(LIMIT_POINTS, 0, e) && e.n == 129 && e.delta == 1 && e.handled == COUNT + 1
    ensures EncodeLoop(LIMIT_POINTS, COUNT, e).Ok?
  {
    hide Kept, Adapted, Varint, Smallest;
    var input := LIMIT_POINTS;
    assert input[COUNT + 1] == LAST;
    SmallestFound(input, 129, MAX_INT, LAST);
    PassStarts(input, e);
    var e1 := e.(delta := 2147479825, n := LAST);
    assert Advanced(input, e) == e1;
    SkipRun(input, 0, COUNT + 1, COUNT + 2, COUNT, e1);
    var e2 := e1.(delta := 2147481756);
    var e3 := Emitted(e2, COUNT + 2, COUNT);
    EmittedFields(input, COUNT + 1, e2, COUNT + 2, COUNT);
    assert EncodePass(input, COUNT + 1, COUNT + 2, COUNT, e2) == EncodePass(input, COUNT + 2, COUNT + 2, COUNT, e3) == Ok(e3);
    assert EncodeRound(input, COUNT, e) == Ok(e3.(delta := 1, n := LAST + 1));
  }

  /** Encoding the string succeeds and decoding the result overflows. */
  lemma EncodedButNotDecoded()
    ensures Encoded(LIMIT_STRING).Ok?
    ensures Decoded(Encoded(LIMIT_STRING).value) == Err(Overflow)
  {
    hide Kept, EncodeRound, AllFitFrom, Decoded;
    var input := LIMIT_POINTS;
    LimitPoints();
    KeptBelow(input, INITIAL_N);
    var basic: seq<CodeUnit> := Kept(input, INITIAL_N, 0);
    assert |basic| == COUNT by { LimitBasic(); }
    var e := EncoderState(INITIAL_N, 0, INITIAL_BIAS, |basic|, basic + [DELIMITER]);
    var bias, output := FirstRound(e);
    SecondRound(EncoderState(129, 1, bias, COUNT + 1, output));
    assert EncodedFrom(input, basic).Ok?;
    DecodeAfterEncode(LIMIT_STRING);
    LimitDoesNotFit();
  }

  lemma LimitBasic()
    ensures Kept(LIMIT_POINTS, INITIAL_N, 0) == Letters(COUNT)
  {
    var input := LIMIT_POINTS;
    assert input[..|input| - 1] == Letters(COUNT) + [0x80];
    assert (Letters(COUNT) + [0x80])[..COUNT] == Letters(COUNT);
    KeptAll(Letters(COUNT), INITIAL_N, 0);
  }
}
