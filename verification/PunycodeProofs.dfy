/**
 * The Punycode encoder and decoder stay in lockstep: which strings survive encoding and
 * decoding, and why no other guard of the decoder can fire.
 */
module PunycodeProofs {
  import opened Wrappers
  import opened Utf16
  import opened Punycode

  // ---------- Digits ----------

  lemma DigitRoundTrip(d: int)
    requires 0 <= d < BASE
    ensures BasicToDigit(DigitToBasic(d)) == d && DigitToBasic(d) != DELIMITER
  {
  }

  function Power35(n: nat): nat { if n == 0 then 1 else 35 * Power35(n - 1) }

  /** Every turn of the division loop of adapt uses up a factor of 35. */
  lemma {:induction false} ReduceBound(delta: int, k: int, turns: nat)
    requires delta < 456 * Power35(turns)
    ensures k <= Reduce(delta, k).1 <= k + BASE * turns
    ensures delta >= 0 ==> Reduce(delta, k).0 >= 0
    decreases turns
  {
    if delta > 455 {
      assert turns > 0;
      assert delta / 35 < 456 * Power35(turns - 1);
      ReduceBound(delta / 35, k + BASE, turns - 1);
    }
  }

  /** The bias never passes 213, so every digit from the seventh on has the threshold T_MAX. */
  lemma BiasBound(delta: int, numPoints: int, firstTime: bool)
    requires 0 <= delta <= MAX_INT && numPoints > 0
    ensures 0 <= Adapted(delta, numPoints, firstTime) <= 213
  {
    var halved := if firstTime then delta / DAMP else ToInt32(delta) / 2;
    assert 0 <= halved <= 1073741823;
    QuotientBound(halved, numPoints);
    ReducedBias(halved + halved / numPoints);
  }

  lemma LastTerm(reduced: int)
    requires 0 <= reduced <= 455
    ensures 0 <= 36 * reduced / (reduced + SKEW) <= 33
  {
    var q := 36 * reduced / (reduced + SKEW);
    assert 36 * reduced == q * (reduced + SKEW) + 36 * reduced % (reduced + SKEW);
    if q > 33 {
      ProductMonotone(reduced + SKEW, 34, q);
    }
  }

  lemma ReducedBias(sum: int)
    requires 0 <= sum < 2147483648
    ensures var (reduced, k) := Reduce(sum, 0); 0 <= BiasFrom(reduced, k) <= 213
  {
    assert Power35(5) == 52521875 by {
      assert Power35(1) == 35;
      assert Power35(2) == 1225;
      assert Power35(3) == 42875;
      assert Power35(4) == 1500625;
    }
    ReduceBound(sum, 0, 5);
    var (reduced, k) := Reduce(sum, 0);
    LastTerm(reduced);
  }

  lemma QuotientBound(a: nat, b: int)
    requires b > 0
    ensures 0 <= a / b <= a
  {
    assert a == a / b * b + a % b;
    assert a / b >= 0;
    ProductAtLeast(a / b, b);
  }

  lemma ProductAtLeast(q: nat, b: int)
    requires b > 0
    ensures q * b >= q
  {
  }

  lemma QuotientZero(a: nat, b: int)
    requires a < b
    ensures a / b == 0
  {
  }

  /**
   * The encoder adapts its bias with a count taken before the pass over the input, which is
   * too small from the second occurrence of a code point on. It makes no difference, because
   * such a delta is smaller than that count.
   */
  lemma StaleCountIsHarmless(delta: int, stale: int, actual: int)
    requires 0 <= delta < stale <= actual && delta <= MAX_INT
    ensures Adapted(delta, stale, false) == Adapted(delta, actual, false)
  {
    QuotientZero(ToInt32(delta) / 2, stale);
    QuotientZero(ToInt32(delta) / 2, actual);
  }

  // ---------- One variable-length integer ----------

  /** The largest weight the digit at k can have while k is among the first six digits. */
  predicate WeightBounded(w: int, k: int) {
    && k >= BASE && k % BASE == 0
    && (k == 36 ==> w <= 1) && (k == 72 ==> w <= 35) && (k == 108 ==> w <= 1225)
    && (k == 144 ==> w <= 42875) && (k == 180 ==> w <= 1500625) && (k == 216 ==> w <= 52521875)
  }

  /** The weight guard of the decoder cannot fire behind a digit that passed the digit guard. */
  lemma WeightGuard(w: int, k: int, bias: int, digit: int)
    requires w > 0 && WeightBounded(w, k) && bias <= 213
    requires Threshold(k, bias) <= digit && digit * w <= MAX_INT
    ensures w <= MAX_INT / (BASE - Threshold(k, bias))
    ensures WeightBounded(w * (BASE - Threshold(k, bias)), k + BASE)
  {
    var t := Threshold(k, bias);
    assert w * (BASE - t) <= 35 * w by { ProductMonotone(w, BASE - t, 35); }
    if k > 216 {
      assert t == T_MAX;
      assert 26 * w <= digit * w by { ProductMonotone(w, 26, digit); }
      assert w * (BASE - t) == 10 * w;
    }
    assert w * (BASE - t) <= MAX_INT;
    DivideBound(w, BASE - t);
  }

  lemma ProductMonotone(w: int, a: int, b: int)
    requires w > 0 && a <= b
    ensures w * a <= w * b
  {
  }

  lemma DivideBound(w: int, b: int)
    requires b > 0 && w * b <= MAX_INT
    ensures w <= MAX_INT / b
  {
    if w > MAX_INT / b {
      assert MAX_INT == MAX_INT / b * b + MAX_INT % b;
      ProductMonotone(b, MAX_INT / b + 1, w);
      assert false;
    }
  }

  /** digit <= floor(room / w) is digit * w <= room. */
  lemma DigitGuard(digit: int, w: int, room: int)
    requires w > 0
    ensures digit > room / w <==> digit * w > room
  {
    assert room == room / w * w + room % w;
    if digit > room / w {
      ProductMonotone(w, room / w + 1, digit);
    } else {
      ProductMonotone(w, digit, room / w);
    }
  }

  lemma VarintSplit(q: int, t: int, w: int, digit: int, rest: int)
    requires T_MIN <= t <= T_MAX && t <= q && w > 0
    requires digit == t + (q - t) % (BASE - t) && rest == (q - t) / (BASE - t)
    ensures digit * w + rest * (w * (BASE - t)) == q * w
    ensures digit * w >= 0 && rest * (w * (BASE - t)) >= 0 && w * (BASE - t) > 0
  {
    VarintStep(q, t);
    DivMod(q - t, BASE - t);
    assert q == digit + rest * (BASE - t);
    Regroup(digit, rest, BASE - t, w);
  }

  lemma DivMod(a: nat, b: int)
    requires b > 0
    ensures a == a / b * b + a % b
  {
  }

  lemma Regroup(digit: nat, rest: nat, m: int, w: int)
    requires m > 0 && w > 0
    ensures digit * w + rest * (w * m) == (digit + rest * m) * w
    ensures digit * w >= 0 && w * m > 0 && rest * (w * m) >= 0
  {
    assert w * m > 0;
    ProductNonNegative(digit, w);
    ProductNonNegative(rest, w * m);
    assert rest * (w * m) == (rest * m) * w;
  }

  predicate Holds(input: seq<CodeUnit>, index: nat, part: seq<CodeUnit>) {
    index + |part| <= |input| && input[index..index + |part|] == part
  }

  /** Reading back an emitted delta adds it to i, or reports that the sum leaves 31 bits. */
  lemma {:induction false} ReadsBack(input: seq<CodeUnit>, index: nat, q: nat, i: nat, w: int, k: int, bias: int)
    requires Holds(input, index, Varint(q, k, bias))
    requires w > 0 && WeightBounded(w, k) && bias <= 213
    ensures ReadDelta(input, index, i, w, k, bias) ==
            if i + q * w <= MAX_INT then Ok((i + q * w, index + |Varint(q, k, bias)|)) else Err(Overflow)
    decreases q
  {
    var t := Threshold(k, bias);
    var digits := Varint(q, k, bias);
    assert input[index] == digits[0];
    if q < t {
      DigitRoundTrip(q);
      DigitGuard(q, w, MAX_INT - i);
    } else {
      VarintStep(q, t);
      var digit, rest := t + (q - t) % (BASE - t), (q - t) / (BASE - t);
      DigitRoundTrip(digit);
      DigitGuard(digit, w, MAX_INT - i);
      VarintSplit(q, t, w, digit, rest);
      if digit * w <= MAX_INT - i {
        WeightGuard(w, k, bias, digit);
        assert input[index + 1..index + |digits|] == digits[1..] == Varint(rest, k + BASE, bias);
        ReadsBack(input, index + 1, rest, i + digit * w, w * (BASE - t), k + BASE, bias);
        ReadMore(input, index, i, w, k, bias, digit);
      }
    }
  }

  lemma ReadMore(input: seq<CodeUnit>, index: nat, i: int, w: int, k: int, bias: int, digit: int)
    requires w > 0 && index < |input| && BasicToDigit(input[index]) == digit < BASE
    requires digit <= (MAX_INT - i) / w && Threshold(k, bias) <= digit
    requires w <= MAX_INT / (BASE - Threshold(k, bias))
    ensures w * (BASE - Threshold(k, bias)) > 0
    ensures ReadDelta(input, index, i, w, k, bias) ==
            ReadDelta(input, index + 1, i + digit * w, w * (BASE - Threshold(k, bias)), k + BASE, bias)
  {
  }

  // ---------- Lockstep ----------

  /** The largest element, or INITIAL_N when all are basic: the decoder's n. */
  function Highest(s: seq<int>): int {
    if s == [] then INITIAL_N
    else
      var rest := Highest(s[..|s| - 1]);
      if s[|s| - 1] > rest then s[|s| - 1] else rest
  }

  lemma {:induction false} HighestBound(s: seq<int>, n: int)
    requires n >= INITIAL_N && forall j :: 0 <= j < |s| ==> s[j] <= n
    ensures INITIAL_N <= Highest(s) <= n
    ensures n in s ==> Highest(s) == n
  {
    if s != [] {
      var front := s[..|s| - 1];
      assert s == front + [s[|s| - 1]];
      HighestBound(front, n);
    }
  }

  lemma {:induction false} KeptAtMost(input: seq<int>, n: int, p: int)
    ensures forall j :: 0 <= j < |Kept(input, n, p)| ==> Kept(input, n, p)[j] <= n
  {
    if input != [] {
      KeptAtMost(input[..|input| - 1], n, p);
    }
  }

  /** How many code points the decoder holds, and has to its left, when it inserts input[p]. */
  function Before(input: seq<int>, p: nat): seq<int>
    requires p < |input|
  {
    Kept(input, input[p], p)
  }

  function Position(input: seq<int>, n: int, p: nat): (r: nat)
    requires p <= |input|
  {
    |Kept(input[..p], n, p)|
  }

  /**
   * The value of i at which the decoder inserts input[p]: it steps n up from the previous
   * insertion, one whole turn over the output for every step, and then goes to the position.
   */
  function Reach(input: seq<int>, p: nat): int
    requires p < |input|
  {
    (input[p] - Highest(Before(input, p))) * (|Before(input, p)| + 1) + Position(input, input[p], p)
  }

  /** steps * out, as that many turns of i over an output with out places. */
  function Turns(steps: int, out: nat): nat {
    if steps <= 0 then 0 else out + Turns(steps - 1, out)
  }

  lemma {:induction false} TurnsProduct(steps: nat, out: nat)
    ensures Turns(steps, out) == steps * out
  {
    if steps > 0 {
      TurnsProduct(steps - 1, out);
      assert (steps - 1) * out + out == steps * out;
    }
  }

  lemma {:induction false} TurnsAdd(a: nat, b: nat, out: nat)
    ensures Turns(a + b, out) == Turns(a, out) + Turns(b, out)
  {
    if a > 0 {
      TurnsAdd(a - 1, b, out);
    }
  }

  predicate Lockstep(input: seq<int>, p: nat, plusOne: nat, basicLength: nat, e: EncoderState, d: DecoderState) {
    && InPass(input, p, e) && e.n >= INITIAL_N
    && d.output == Kept(input, e.n, p) && d.n == Highest(d.output) && d.n <= e.n
    && d.bias == e.bias <= 213
    && e.delta == Turns(e.n - d.n, e.handled + 1) + Position(input, e.n, p) - d.i
    && d.i >= 0 && (d.i == 0 <==> e.handled == basicLength)
    && plusOne == |Kept(input, e.n, 0)| + 1
    && (e.handled + 1 == plusOne
        || (e.handled + 1 > plusOne && d.i > 0 && e.delta <= |Kept(input[..p], e.n, 0)|))
  }

  lemma {:induction false} KeptPrefix(input: seq<int>, n: int, p: nat)
    requires p < |input|
    ensures |Kept(input[..p + 1], n, 0)| == |Kept(input[..p], n, 0)| + if input[p] < n then 1 else 0
  {
    assert input[..p + 1][..p] == input[..p];
  }

  lemma {:induction false} KeptPrefixBound(input: seq<int>, n: int, p: nat)
    requires p <= |input|
    ensures |Kept(input[..p], n, 0)| <= |Kept(input, n, 0)|
    decreases |input|
  {
    if p == |input| {
      assert input[..p] == input;
    } else {
      assert input[..|input| - 1][..p] == input[..p];
      KeptPrefixBound(input[..|input| - 1], n, p);
    }
  }

  /** With i = steps * out + at, the decoder finds the steps and the position again. */
  lemma SplitReach(steps: nat, out: int, at: nat)
    requires 0 <= at < out
    ensures (steps * out + at) / out == steps && Rem(steps * out + at, out) == at
    ensures steps * out + at >= 0
  {
    var i := steps * out + at;
    ProductNonNegative(steps, out);
    DivMod(i, out);
    if i / out > steps {
      ProductMonotone(out, steps + 1, i / out);
    } else if i / out < steps {
      ProductMonotone(out, i / out + 1, steps);
    }
  }

  lemma DeltaReaches(input: seq<int>, p: nat, plusOne: nat, basicLength: nat, e: EncoderState, d: DecoderState)
    requires p < |input| && input[p] == e.n && Lockstep(input, p, plusOne, basicLength, e, d)
    ensures d.i + e.delta == Reach(input, p) == (e.n - d.n) * (|d.output| + 1) + Position(input, e.n, p)
  {
    assert d.output == Before(input, p);
    TurnsProduct(e.n - d.n, e.handled + 1);
  }

  /** What the decoder does with the delta of one occurrence. */
  lemma InsertedByDelta(input: seq<int>, p: nat, plusOne: nat, basicLength: nat, e: EncoderState, d: DecoderState)
    requires plusOne > 0 && p < |input| && input[p] == e.n <= 0x10FFFF && e.delta <= MAX_INT
    requires Lockstep(input, p, plusOne, basicLength, e, d)
    ensures d.i + e.delta == Reach(input, p) >= 0
    ensures Inserted(d, Reach(input, p)) ==
            Ok(DecoderState(e.n, Position(input, e.n, p) + 1, Adapted(e.delta, plusOne, e.handled == basicLength),
                            Kept(input, e.n, p + 1)))
  {
    hide Inserted, Adapted, Reach, Turns, Kept;
    KeptStep(input, e.n, p);
    DeltaReaches(input, p, plusOne, basicLength, e, d);
    var steps, at, i := e.n - d.n, Position(input, e.n, p), d.i + e.delta;
    assert i == steps * (|d.output| + 1) + at;
    InsertedAt(d, steps, at, i);
    SameBias(input, p, plusOne, basicLength, e, d);
  }

  lemma InsertedAt(d: DecoderState, steps: nat, at: nat, i: int)
    requires at <= |d.output| && d.n + steps <= 0x10FFFF && i == steps * (|d.output| + 1) + at
    ensures i >= 0
    ensures Inserted(d, i) ==
            Ok(DecoderState(d.n + steps, at + 1, Adapted(i - d.i, |d.output| + 1, d.i == 0),
                            Splice(d.output, at, d.n + steps)))
  {
    SplitReach(steps, |d.output| + 1, at);
  }

  /** The decoder takes over exactly the insertion that one emitted delta stands for. */
  lemma EmitStep(input: seq<int>, p: nat, plusOne: nat, basicLength: nat, e: EncoderState, d: DecoderState)
    requires plusOne > 0 && p < |input| && input[p] == e.n <= 0x10FFFF && e.delta <= MAX_INT
    requires Lockstep(input, p, plusOne, basicLength, e, d)
    requires basicLength <= e.handled
    ensures Inserted(d, Reach(input, p)).Ok?
    ensures Lockstep(input, p + 1, plusOne, basicLength, Emitted(e, plusOne, basicLength),
                     Inserted(d, Reach(input, p)).value)
  {
    hide Inserted, Adapted, Reach, Kept, Highest, Varint;
    InsertedByDelta(input, p, plusOne, basicLength, e, d);
    SameBias(input, p, plusOne, basicLength, e, d);
    KeptStep(input, e.n, p);
    KeptPrefix(input, e.n, p);
    var kept := Kept(input, e.n, p + 1);
    assert kept[Position(input, e.n, p)] == e.n;
    KeptAtMost(input, e.n, p + 1);
    HighestBound(kept, e.n);
    var e', d' := Emitted(e, plusOne, basicLength), Inserted(d, Reach(input, p)).value;
    assert Position(input, e'.n, p + 1) == d'.i;
  }

  /** An element other than n only counts, when it is smaller, as one more place to pass over. */
  lemma SkipStep(input: seq<int>, p: nat, plusOne: nat, basicLength: nat, e: EncoderState, d: DecoderState)
    requires p < |input| && input[p] != e.n
    requires Lockstep(input, p, plusOne, basicLength, e, d)
    ensures Lockstep(input, p + 1, plusOne, basicLength,
                     if input[p] < e.n then e.(delta := e.delta + 1) else e, d)
  {
    KeptStep(input, e.n, p);
    KeptPrefix(input, e.n, p);
  }

  lemma SameBias(input: seq<int>, p: nat, plusOne: nat, basicLength: nat, e: EncoderState, d: DecoderState)
    requires plusOne > 0 && p < |input| && 0 <= e.delta <= MAX_INT
    requires Lockstep(input, p, plusOne, basicLength, e, d)
    ensures Adapted(e.delta, |d.output| + 1, d.i == 0)
            == Adapted(e.delta, plusOne, e.handled == basicLength) <= 213
  {
    BiasBound(e.delta, plusOne, e.handled == basicLength);
    if e.handled + 1 > plusOne {
      KeptPrefixBound(input, e.n, p);
      StaleCountIsHarmless(e.delta, plusOne, e.handled + 1);
    }
  }

  // ---------- Whole runs ----------

  predicate NoDelimiter(s: seq<CodeUnit>, start: nat) {
    forall j :: start <= j < |s| ==> s[j] != DELIMITER
  }

  /** The longer output only adds digits to the shorter one. */
  predicate ExtendsBy(shorter: seq<CodeUnit>, longer: seq<CodeUnit>) {
    shorter <= longer && NoDelimiter(longer, |shorter|)
  }

  lemma {:induction false} VarintHasNoDelimiter(q: nat, k: int, bias: int)
    ensures NoDelimiter(Varint(q, k, bias), 0) && |Varint(q, k, bias)| > 0
    decreases q
  {
    var t := Threshold(k, bias);
    if q >= t {
      VarintStep(q, t);
      VarintHasNoDelimiter((q - t) / (BASE - t), k + BASE, bias);
    }
  }

  lemma {:induction false} PassExtends(input: seq<int>, p: nat, plusOne: nat, basicLength: nat, e: EncoderState)
    requires plusOne > 0 && InPass(input, p, e)
    requires EncodePass(input, p, plusOne, basicLength, e).Ok?
    ensures ExtendsBy(e.output, EncodePass(input, p, plusOne, basicLength, e).value.output)
    decreases |input| - p
  {
    if p < |input| {
      KeptStep(input, e.n, p);
      if input[p] < e.n {
        PassExtends(input, p + 1, plusOne, basicLength, e.(delta := e.delta + 1));
      } else if input[p] == e.n {
        VarintHasNoDelimiter(e.delta, BASE, e.bias);
        PassExtends(input, p + 1, plusOne, basicLength, Emitted(e, plusOne, basicLength));
      } else {
        PassExtends(input, p + 1, plusOne, basicLength, e);
      }
    }
  }

  lemma {:induction false} LoopExtends(input: seq<CodePoint>, basicLength: nat, e: EncoderState)
    requires InPass(input, 0, e) && EncodeLoop(input, basicLength, e).Ok?
    ensures ExtendsBy(e.output, EncodeLoop(input, basicLength, e).value)
    decreases |input| - e.handled
  {
    if e.handled < |input| {
      PassStarts(input, e);
      PassExtends(input, 0, e.handled + 1, basicLength, Advanced(input, e));
      LoopExtends(input, basicLength, EncodeRound(input, basicLength, e).value);
    }
  }

  /** The occurrence at p is inserted within 31 bits. */
  predicate Fits(input: seq<int>, p: nat)
    requires p < |input|
  {
    Reach(input, p) <= MAX_INT
  }

  /** All occurrences of n from position p on fit. */
  predicate AllFit(input: seq<int>, n: int, p: nat)
    decreases |input| - p
  {
    p >= |input| || ((input[p] == n ==> Fits(input, p)) && AllFit(input, n, p + 1))
  }

  lemma {:induction false} AllFitMeaning(input: seq<int>, n: int, p: nat)
    ensures AllFit(input, n, p) <==> forall j :: p <= j < |input| && input[j] == n ==> Fits(input, j)
    decreases |input| - p
  {
    if p < |input| {
      AllFitMeaning(input, n, p + 1);
    }
  }

  /**
   * One pass of the encoder, read back: the decoder ends in lockstep behind it, or stops with
   * an overflow at an occurrence that does not fit.
   */
  lemma {:induction false} PassDecodes(full: seq<CodeUnit>, input: seq<CodePoint>, p: nat, plusOne: nat,
                                       basicLength: nat, e: EncoderState, d: DecoderState)
    returns (fits: bool, d': DecoderState)
    requires plusOne > 0 && InPass(input, p, e) && e.n <= 0x10FFFF && e.delta <= MAX_INT
    requires basicLength <= e.handled && Lockstep(input, p, plusOne, basicLength, e, d)
    requires EncodePass(input, p, plusOne, basicLength, e).Ok?
    requires EncodePass(input, p, plusOne, basicLength, e).value.output <= full
    ensures fits <==> AllFit(input, e.n, p)
    ensures !fits ==> DecodeLoop(full, |e.output|, d) == Err(Overflow)
    ensures fits ==>
              var e' := EncodePass(input, p, plusOne, basicLength, e).value;
              && Lockstep(input, |input|, plusOne, basicLength, e', d') && basicLength <= e'.handled
              && DecodeLoop(full, |e.output|, d) == DecodeLoop(full, |e'.output|, d')
    decreases |input| - p, 1
  {
    hide DecodeLoop, Reach, Emitted;
    if p == |input| {
      fits, d' := true, d;
    } else {
      KeptStep(input, e.n, p);
      if input[p] == e.n {
        fits, d' := OccurrenceDecodes(full, input, p, plusOne, basicLength, e, d);
      } else {
        SkipStep(input, p, plusOne, basicLength, e, d);
        fits, d' := PassDecodes(full, input, p + 1, plusOne, basicLength,
                                if input[p] < e.n then e.(delta := e.delta + 1) else e, d);
      }
    }
  }

  lemma {:induction false} OccurrenceDecodes(full: seq<CodeUnit>, input: seq<CodePoint>, p: nat, plusOne: nat,
                                             basicLength: nat, e: EncoderState, d: DecoderState)
    returns (fits: bool, d': DecoderState)
    requires plusOne > 0 && InPass(input, p, e) && p < |input| && input[p] == e.n && e.delta <= MAX_INT
    requires basicLength <= e.handled && Lockstep(input, p, plusOne, basicLength, e, d)
    requires EncodePass(input, p, plusOne, basicLength, e).Ok?
    requires EncodePass(input, p, plusOne, basicLength, e).value.output <= full
    ensures fits <==> AllFit(input, e.n, p)
    ensures !fits ==> DecodeLoop(full, |e.output|, d) == Err(Overflow)
    ensures fits ==>
              var e' := EncodePass(input, p, plusOne, basicLength, e).value;
              && Lockstep(input, |input|, plusOne, basicLength, e', d') && basicLength <= e'.handled
              && DecodeLoop(full, |e.output|, d) == DecodeLoop(full, |e'.output|, d')
    decreases |input| - p, 0
  {
    hide DecodeLoop, Reach, Inserted;
    KeptStep(input, e.n, p);
    var e1 := Emitted(e, plusOne, basicLength);
    PassExtends(input, p + 1, plusOne, basicLength, e1);
    EmitDecodes(full, input, p, plusOne, basicLength, e, d);
    if Fits(input, p) {
      EmitStep(input, p, plusOne, basicLength, e, d);
      fits, d' := PassDecodes(full, input, p + 1, plusOne, basicLength, e1, Inserted(d, Reach(input, p)).value);
    } else {
      fits, d' := false, d;
    }
  }

  /** The decoder on the varint of one occurrence. */
  lemma EmitDecodes(full: seq<CodeUnit>, input: seq<CodePoint>, p: nat, plusOne: nat, basicLength: nat,
                    e: EncoderState, d: DecoderState)
    requires plusOne > 0 && p < |input| && input[p] == e.n <= 0x10FFFF && 0 <= e.delta <= MAX_INT
    requires Lockstep(input, p, plusOne, basicLength, e, d)
    requires Emitted(e, plusOne, basicLength).output <= full
    ensures Fits(input, p) ==> Inserted(d, Reach(input, p)).Ok?
    ensures DecodeLoop(full, |e.output|, d) ==
            if Fits(input, p)
            then DecodeLoop(full, |Emitted(e, plusOne, basicLength).output|, Inserted(d, Reach(input, p)).value)
            else Err(Overflow)
  {
    hide DecodeLoop, Inserted, Reach, ReadDelta;
    var digits := Varint(e.delta, BASE, e.bias);
    VarintHasNoDelimiter(e.delta, BASE, e.bias);
    assert full[|e.output|..|e.output| + |digits|] == (e.output + digits)[|e.output|..] == digits;
    ReadsBack(full, |e.output|, e.delta, d.i, 1, BASE, e.bias);
    InsertedByDelta(input, p, plusOne, basicLength, e, d);
    DecodeStep(full, |e.output|, d, Reach(input, p), |e.output| + |digits|);
  }

  lemma DecodeStep(full: seq<CodeUnit>, index: nat, d: DecoderState, i: int, next: nat)
    requires index < |full|
    ensures ReadDelta(full, index, d.i, 1, BASE, d.bias) == Err(Overflow) ==> DecodeLoop(full, index, d) == Err(Overflow)
    ensures ReadDelta(full, index, d.i, 1, BASE, d.bias) == Ok((i, next)) && Inserted(d, i).Ok? ==>
              DecodeLoop(full, index, d) == DecodeLoop(full, next, Inserted(d, i).value)
  {
  }

  /** All occurrences of code points from n on fit. */
  predicate AllFitFrom(input: seq<int>, n: int) {
    forall j :: 0 <= j < |input| && input[j] >= n ==> Fits(input, j)
  }

  lemma AllFitRound(input: seq<int>, n: int, m: int)
    requires n <= m && NoneBetween(input, n, m)
    ensures AllFitFrom(input, n) <==> AllFit(input, m, 0) && AllFitFrom(input, m + 1)
  {
    hide Fits, AllFit;
    AllFitMeaning(input, m, 0);
  }

  lemma AdvanceStep(input: seq<CodePoint>, basicLength: nat, e: EncoderState, d: DecoderState)
    requires InPass(input, 0, e) && e.handled < |input|
    requires Lockstep(input, 0, e.handled + 1, basicLength, e, d)
    ensures Lockstep(input, 0, e.handled + 1, basicLength, Advanced(input, e), d)
  {
    hide Kept, Highest, Smallest;
    var m := Smallest(input, e.n, MAX_INT);
    PassStarts(input, e);
    assert NoneBetween(input, e.n, m) && e.n <= m by { SmallestBounds(input, e.n); PassStarts(input, e); }
    KeptSkip(input, e.n, m);
    TurnsAdd(m - e.n, e.n - d.n, e.handled + 1);
    TurnsProduct(m - e.n, e.handled + 1);
    assert input[..0] == [];
    EmptyKept(e.n);
    EmptyKept(m);
  }

  lemma SmallestBounds(input: seq<int>, n: int)
    ensures NoneBetween(input, n, Smallest(input, n, MAX_INT))
  {
  }

  lemma EmptyKept(n: int)
    ensures Kept([], n, 0) == []
  {
  }

  lemma RoundEnd(input: seq<CodePoint>, plusOne: nat, basicLength: nat, e: EncoderState, d: DecoderState)
    requires Lockstep(input, |input|, plusOne, basicLength, e, d)
    ensures Lockstep(input, 0, e.handled + 1, basicLength, e.(delta := e.delta + 1, n := e.n + 1), d)
  {
    hide Kept, Highest;
    KeptNextCodePoint(input, e.n, |input|);
    assert input[..|input|] == input && input[..0] == [];
    EmptyKept(e.n + 1);
    TurnsAdd(1, e.n - d.n, e.handled + 1);
    TurnsProduct(1, e.handled + 1);
  }

  lemma {:induction false} AllKept(input: seq<int>, n: int)
    requires |Kept(input, n, 0)| == |input|
    ensures Kept(input, n, 0) == input && forall j :: 0 <= j < |input| ==> input[j] < n
  {
    if input != [] {
      AllKept(input[..|input| - 1], n);
    }
  }

  /** The guard of the encoder bounds the delta it goes on with. */
  lemma AdvanceGuard(input: seq<int>, e: EncoderState)
    requires Smallest(input, e.n, MAX_INT) - e.n <= (MAX_INT - e.delta) / (e.handled + 1)
    ensures Advanced(input, e).delta <= MAX_INT
  {
    DigitGuard(Smallest(input, e.n, MAX_INT) - e.n, e.handled + 1, MAX_INT - e.delta);
  }

  /** The whole main loop, read back. */
  lemma {:induction false} LoopDecodes(full: seq<CodeUnit>, input: seq<CodePoint>, basicLength: nat,
                                       e: EncoderState, d: DecoderState)
    requires InPass(input, 0, e) && basicLength <= e.handled
    requires Lockstep(input, 0, e.handled + 1, basicLength, e, d)
    requires EncodeLoop(input, basicLength, e) == Ok(full)
    ensures DecodeLoop(full, |e.output|, d) == if AllFitFrom(input, e.n) then Ok(input) else Err(Overflow)
    decreases |input| - e.handled
  {
    hide Lockstep, Fits, EncodePass, AllFit, Kept, Smallest, Advanced;
    if e.handled >= |input| {
      assert |full| == |e.output| && d.output == input && AllFitFrom(input, e.n) by {
        LoopEnds(full, input, basicLength, e, d);
      }
      DecodeLoopEnd(full, d);
    } else {
      RoundDecodes(full, input, basicLength, e, d);
    }
  }

  lemma DecodeLoopEnd(full: seq<CodeUnit>, d: DecoderState)
    ensures DecodeLoop(full, |full|, d) == Ok(d.output)
  {
  }

  lemma LoopEnds(full: seq<CodeUnit>, input: seq<CodePoint>, basicLength: nat, e: EncoderState, d: DecoderState)
    requires InPass(input, 0, e) && e.handled >= |input|
    requires Lockstep(input, 0, e.handled + 1, basicLength, e, d)
    requires EncodeLoop(input, basicLength, e) == Ok(full)
    ensures full == e.output && d.output == input && AllFitFrom(input, e.n)
  {
    hide Fits;
    AllKept(input, e.n);
  }

  lemma {:induction false} RoundDecodes(full: seq<CodeUnit>, input: seq<CodePoint>, basicLength: nat,
                                        e: EncoderState, d: DecoderState)
    requires InPass(input, 0, e) && basicLength <= e.handled < |input|
    requires Lockstep(input, 0, e.handled + 1, basicLength, e, d)
    requires EncodeLoop(input, basicLength, e) == Ok(full)
    ensures DecodeLoop(full, |e.output|, d) == if AllFitFrom(input, e.n) then Ok(input) else Err(Overflow)
    decreases |input| - e.handled, 0
  {
    hide Fits, AllFit, AllFitFrom, Lockstep, Kept, Smallest, DecodeLoop;
    var m, plusOne := Smallest(input, e.n, MAX_INT), e.handled + 1;
    var e1 := Advanced(input, e);
    PassStarts(input, e);
    AdvanceGuard(input, e);
    AdvanceStep(input, basicLength, e, d);
    var e2 := EncodePass(input, 0, plusOne, basicLength, e1).value;
    var e3 := e2.(delta := e2.delta + 1, n := m + 1);
    assert EncodeRound(input, basicLength, e) == Ok(e3);
    LoopExtends(input, basicLength, e3);
    var fits, d' := PassDecodes(full, input, 0, plusOne, basicLength, e1, d);
    SmallestBounds(input, e.n);
    AllFitRound(input, e.n, m);
    if fits {
      RoundEnd(input, plusOne, basicLength, e2, d');
      LoopDecodes(full, input, basicLength, e3, d');
    }
  }

  // ---------- When the encoder succeeds ----------

  predicate OccursFrom(input: seq<int>, n: int, p: nat) {
    exists j :: p <= j < |input| && input[j] == n
  }

  /** What the encoder counts on the way to an occurrence that fits stays within 31 bits. */
  lemma {:induction false} DeltaBound(input: seq<int>, p: nat, plusOne: nat, basicLength: nat,
                                      e: EncoderState, d: DecoderState)
    requires Lockstep(input, p, plusOne, basicLength, e, d) && |input| <= MAX_INT
    requires AllFit(input, e.n, p) && (OccursFrom(input, e.n, p) || d.n == e.n)
    ensures e.delta <= MAX_INT
    decreases |input| - p
  {
    hide Kept, Reach;
    if p == |input| {
      assert e.delta <= Position(input, e.n, p) <= |input|;
    } else if input[p] == e.n {
      DeltaReaches(input, p, plusOne, basicLength, e, d);
    } else {
      SkipStep(input, p, plusOne, basicLength, e, d);
      DeltaBound(input, p + 1, plusOne, basicLength, if input[p] < e.n then e.(delta := e.delta + 1) else e, d);
    }
  }

  lemma {:induction false} PassSucceeds(input: seq<CodePoint>, p: nat, plusOne: nat, basicLength: nat,
                                        e: EncoderState, d: DecoderState)
    returns (d': DecoderState)
    requires plusOne > 0 && e.n <= 0x10FFFF && basicLength <= e.handled && |input| <= MAX_INT
    requires InPass(input, p, e) && Lockstep(input, p, plusOne, basicLength, e, d)
    requires AllFit(input, e.n, p) && (OccursFrom(input, e.n, p) || d.n == e.n)
    ensures EncodePass(input, p, plusOne, basicLength, e).Ok?
    ensures var e' := EncodePass(input, p, plusOne, basicLength, e).value;
            basicLength <= e'.handled && Lockstep(input, |input|, plusOne, basicLength, e', d')
    decreases |input| - p
  {
    hide Kept, Reach, Inserted, Emitted, Lockstep, Fits;
    if p == |input| {
      d' := d;
    } else {
      KeptStep(input, e.n, p);
      DeltaBound(input, p, plusOne, basicLength, e, d);
      if input[p] == e.n {
        EmitStep(input, p, plusOne, basicLength, e, d);
        EmittedFields(input, p, e, plusOne, basicLength);
        InsertedByDelta(input, p, plusOne, basicLength, e, d);
        d' := PassSucceeds(input, p + 1, plusOne, basicLength, Emitted(e, plusOne, basicLength),
                           Inserted(d, Reach(input, p)).value);
      } else {
        var e1 := if input[p] < e.n then e.(delta := e.delta + 1) else e;
        SkipStep(input, p, plusOne, basicLength, e, d);
        DeltaBound(input, p + 1, plusOne, basicLength, e1, d);
        d' := PassSucceeds(input, p + 1, plusOne, basicLength, e1, d);
      }
    }
  }

  lemma EmittedFields(input: seq<int>, p: nat, e: EncoderState, plusOne: nat, basicLength: nat)
    requires InPass(input, p, e) && p < |input| && input[p] == e.n && plusOne > 0
    ensures var e' := Emitted(e, plusOne, basicLength);
            e'.n == e.n && e'.handled == e.handled + 1 && InPass(input, p + 1, e')
  {
    KeptStep(input, e.n, p);
  }

  lemma {:induction false} LoopSucceeds(input: seq<CodePoint>, basicLength: nat, e: EncoderState, d: DecoderState)
    requires InPass(input, 0, e) && basicLength <= e.handled && |input| <= MAX_INT
    requires Lockstep(input, 0, e.handled + 1, basicLength, e, d) && AllFitFrom(input, e.n)
    ensures EncodeLoop(input, basicLength, e).Ok?
    decreases |input| - e.handled
  {
    hide Fits, AllFit, AllFitFrom, Lockstep, Kept, Smallest;
    if e.handled < |input| {
      var m, plusOne := Smallest(input, e.n, MAX_INT), e.handled + 1;
      var e1 := Advanced(input, e);
      PassStarts(input, e);
      AdvanceStep(input, basicLength, e, d);
      SmallestBounds(input, e.n);
      AllFitRound(input, e.n, m);
      assert OccursFrom(input, m, 0);
      DeltaBound(input, 0, plusOne, basicLength, e1, d);
      DigitGuard(m - e.n, plusOne, MAX_INT - e.delta);
      var d' := PassSucceeds(input, 0, plusOne, basicLength, e1, d);
      var e2 := EncodePass(input, 0, plusOne, basicLength, e1).value;
      RoundEnd(input, plusOne, basicLength, e2, d');
      KeptGrows(input, m);
      KeptNextCodePoint(input, m, |input|);
      LoopSucceeds(input, basicLength, e2.(delta := e2.delta + 1, n := m + 1), d');
    }
  }

  // ---------- Whole strings ----------

  lemma InitialLockstep(input: seq<CodePoint>, basic: seq<CodeUnit>, output: seq<CodeUnit>)
    requires basic == Kept(input, INITIAL_N, 0)
    ensures Lockstep(input, 0, |basic| + 1, |basic|, EncoderState(INITIAL_N, 0, INITIAL_BIAS, |basic|, output),
                     DecoderState(INITIAL_N, 0, INITIAL_BIAS, basic))
  {
    KeptBelow(input, INITIAL_N);
    HighestBound(basic, INITIAL_N);
    assert input[..0] == [];
    EmptyKept(INITIAL_N);
  }

  lemma {:induction false} BasicEndSkips(input: seq<CodeUnit>, end: nat)
    requires end < |input| && NoDelimiter(input, end + 1)
    requires input[end] == DELIMITER || (end == 0 && input[0] != DELIMITER)
    ensures BasicEnd(input) == end
    decreases |input|
  {
    if end < |input| - 1 {
      BasicEndSkips(input[..|input| - 1], end);
    }
  }

  /** The string an encoder run of the code points gives, and what the decoder makes of it. */
  lemma DecodesEncoded(input: seq<CodePoint>, basic: seq<CodeUnit>, full: seq<CodeUnit>)
    requires basic == Kept(input, INITIAL_N, 0) && EncodedFrom(input, basic) == Ok(full)
    ensures Decoded(full) ==
            if !AllFitFrom(input, INITIAL_N) then Err(Overflow)
            else match FromCodePoints(input) case None => Err(InvalidCodePoint) case Some(units) => Ok(units)
  {
    hide AllFitFrom, Lockstep, FromCodePoints, EncodeLoop, DecodeLoop, Kept;
    var output: seq<CodeUnit> := if basic == [] then [] else basic + [DELIMITER];
    var e := EncoderState(INITIAL_N, 0, INITIAL_BIAS, |basic|, output);
    var d := DecoderState(INITIAL_N, 0, INITIAL_BIAS, basic);
    InitialLockstep(input, basic, output);
    assert input[..0] == [];
    LoopExtends(input, |basic|, e);
    LoopDecodes(full, input, |basic|, e, d);
    if basic == [] {
      if full != [] {
        BasicEndSkips(full, 0);
      }
    } else {
      BasicEndSkips(full, |basic|);
    }
    assert full[..|basic|] == basic;
    KeptBelowBasic(input, basic);
  }

  lemma KeptBelowBasic(input: seq<CodePoint>, basic: seq<CodeUnit>)
    requires basic == Kept(input, INITIAL_N, 0)
    ensures AllBasic(basic)
  {
    KeptBelow(input, INITIAL_N);
  }

  /**
   * Decoding an encoded string gives the string back exactly when every insertion fits in 31
   * bits, and otherwise reports an overflow; no other error can occur.
   */
  lemma DecodeAfterEncode(s: seq<CodeUnit>)
    requires Encoded(s).Ok?
    ensures Decoded(Encoded(s).value) == if AllFitFrom(CodePoints(s), INITIAL_N) then Ok(s) else Err(Overflow)
  {
    hide AllFitFrom, Decoded, EncodedFrom, CodePoints;
    var input := CodePoints(s);
    KeptBelow(input, INITIAL_N);
    DecodesEncoded(input, Kept(input, INITIAL_N, 0), Encoded(s).value);
    CodePointsRoundTrip(s);
  }

  /** A string is encoded and decoded again if and only if every insertion fits. */
  lemma RoundTripExactly(s: seq<CodeUnit>)
    requires |s| <= MAX_INT // no JavaScript string is longer
    ensures (Encoded(s).Ok? && Decoded(Encoded(s).value) == Ok(s)) <==> AllFitFrom(CodePoints(s), INITIAL_N)
  {
    hide AllFitFrom, Decoded, EncodeLoop, CodePoints, Lockstep;
    var input := CodePoints(s);
    if AllFitFrom(input, INITIAL_N) {
      KeptBelow(input, INITIAL_N);
      var basic: seq<CodeUnit> := Kept(input, INITIAL_N, 0);
      var output: seq<CodeUnit> := if basic == [] then [] else basic + [DELIMITER];
      InitialLockstep(input, basic, output);
      LoopSucceeds(input, |basic|, EncoderState(INITIAL_N, 0, INITIAL_BIAS, |basic|, output),
                   DecoderState(INITIAL_N, 0, INITIAL_BIAS, basic));
    }
    if Encoded(s).Ok? {
      DecodeAfterEncode(s);
    }
  }

  lemma {:induction false} KeptShorter(input: seq<int>, n: int, p: nat)
    requires p < |input| && n == input[p]
    ensures |Kept(input, n, p)| < |input|
  {
    var last := |input| - 1;
    if p < last {
      KeptShorter(input[..last], n, p);
    }
  }

  /** No string of at most 1926 code points overflows on either side. */
  lemma ShortStringsRoundTrip(s: seq<CodeUnit>)
    requires (|CodePoints(s)| + 1) * 0x110000 <= MAX_INT && |s| <= MAX_INT
    ensures Encoded(s).Ok? && Decoded(Encoded(s).value) == Ok(s)
  {
    var input := CodePoints(s);
    forall p | 0 <= p < |input| && input[p] >= INITIAL_N
      ensures Fits(input, p)
    {
      ReachBound(input, p);
    }
    assert AllFitFrom(input, INITIAL_N);
    RoundTripExactly(s);
  }

  lemma ReachBound(input: seq<CodePoint>, p: nat)
    requires p < |input| && input[p] >= INITIAL_N && (|input| + 1) * 0x110000 <= MAX_INT
    ensures Reach(input, p) <= MAX_INT
  {
    hide Kept, Highest;
    var n := input[p];
    KeptShorter(input, n, p);
    KeptStep(input, n, p);
    KeptAtMost(input, n, p);
    HighestBound(Before(input, p), n);
    var out := |Before(input, p)| + 1;
    ProductMonotone(out, n - Highest(Before(input, p)), 0x10FFFF);
  }
}
