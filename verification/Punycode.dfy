/** Punycode (RFC 3492): the two loops of the encoder and the decoder, and the functions they compute. */
module Punycode {
  import opened Wrappers
  import opened Utf16

  const MAX_INT := 2147483647
  const BASE := 36
  const T_MIN := 1
  const T_MAX := 26
  const SKEW := 38
  const DAMP := 700
  const INITIAL_BIAS := 72
  const INITIAL_N := 128
  const DELIMITER: CodeUnit := 0x2D

  datatype Error = Overflow | NotBasic | InvalidInput | InvalidCodePoint

  // ---------- JavaScript number operations ----------

  function ToInt32(x: int): int { (x + 0x8000_0000) % 0x1_0000_0000 - 0x8000_0000 }

  /** Math.floor(a / b), rounding towards minus infinity. */
  function FloorDiv(a: int, b: int): int
    requires b != 0
  {
    if b > 0 then a / b else (-a) / (-b)
  }

  /** a % b for positive b: the remainder takes the sign of a. */
  function Rem(a: int, b: int): int
    requires b > 0
  {
    if a >= 0 then a % b else -((-a) % b)
  }

  // ---------- Digits, thresholds, bias ----------

  function BasicToDigit(c: CodeUnit): int {
    if c - 0x30 < 0x0A then c - 0x16
    else if c - 0x41 < 0x1A then c - 0x41
    else if c - 0x61 < 0x1A then c - 0x61
    else BASE
  }

  /** The lower-case form (flag 0). */
  function DigitToBasic(digit: int): CodeUnit
    requires 0 <= digit < BASE
  {
    digit + 22 + 75 * (if digit < 26 then 1 else 0)
  }

  function Threshold(k: int, bias: int): (t: int)
    ensures T_MIN <= t <= T_MAX
  {
    if k <= bias then T_MIN else if k >= bias + T_MAX then T_MAX else k - bias
  }

  /** The division loop of adapt: the reduced delta and the accumulated k. */
  function Reduce(delta: int, k: int): (r: (int, int))
    ensures r.0 <= 455
    decreases delta
  {
    if delta > 455 then Reduce(delta / 35, k + BASE) else (delta, k)
  }

  // A delta of -38 divides by zero and gives a bias of minus infinity. Every bias of at
  // most 10 makes all thresholds T_MAX, as minus infinity does, so 0 stands for it.
  function BiasFrom(delta: int, k: int): int {
    if delta + SKEW == 0 then 0 else k + FloorDiv(36 * delta, delta + SKEW)
  }

  function Adapted(delta: int, numPoints: int, firstTime: bool): int
    requires numPoints > 0
  {
    var halved := if firstTime then delta / DAMP else ToInt32(delta) / 2;
    var (reduced, k) := Reduce(halved + halved / numPoints, 0);
    BiasFrom(reduced, k)
  }

  method Adapt(delta: int, numPoints: int, firstTime: bool) returns (bias: int)
    requires numPoints > 0
    ensures bias == Adapted(delta, numPoints, firstTime)
  {
    var k := 0;
    var d := if firstTime then delta / DAMP else ToInt32(delta) / 2;
    d := d + d / numPoints;
    ghost var start := d;
    while d > 455
      invariant Reduce(d, k) == Reduce(start, 0)
      decreases d
    {
      d := d / 35;
      k := k + BASE;
    }
    bias := BiasFrom(d, k);
  }

  // ---------- Decoder ----------

  datatype DecoderState = DecoderState(n: int, i: int, bias: int, output: seq<int>)

  /** One generalized variable-length integer, added to i; also the index after its last digit. */
  function ReadDelta(input: seq<CodeUnit>, index: nat, i: int, w: int, k: int, bias: int)
    : (r: Result<(int, nat), Error>)
    requires w > 0
    ensures r.Ok? ==> index < r.value.1 <= |input|
    decreases |input| - index
  {
    if index >= |input| then Err(InvalidInput)
    else
      var digit := BasicToDigit(input[index]);
      if digit >= BASE || digit > (MAX_INT - i) / w then Err(Overflow)
      else
        var t := Threshold(k, bias);
        if digit < t then Ok((i + digit * w, index + 1))
        else if w > MAX_INT / (BASE - t) then Err(Overflow)
        else ReadDelta(input, index + 1, i + digit * w, w * (BASE - t), k + BASE, bias)
  }

  /** Array.prototype.splice(start, 0, x); a negative start counts from the end. */
  function Splice(s: seq<int>, start: int, x: int): seq<int> {
    var at := if start >= |s| then |s| else if start >= 0 then start
              else if |s| + start > 0 then |s| + start else 0;
    s[..at] + [x] + s[at..]
  }

  /** What the decoder does with a delta that brought i to the given value. */
  function Inserted(st: DecoderState, i: int): Result<DecoderState, Error> {
    var out := |st.output| + 1;
    var bias := Adapted(i - st.i, out, st.i == 0);
    if i / out > MAX_INT - st.n then Err(Overflow)
    else
      var n := st.n + i / out;
      var at := Rem(i, out);
      Ok(DecoderState(n, at + 1, bias, Splice(st.output, at, n)))
  }

  function DecodeLoop(input: seq<CodeUnit>, index: nat, st: DecoderState): Result<seq<int>, Error>
    decreases |input| - index
  {
    if index >= |input| then Ok(st.output)
    else
      match ReadDelta(input, index, st.i, 1, BASE, st.bias)
      case Err(e) => Err(e)
      case Ok((i, next)) =>
        match Inserted(st, i)
        case Err(e) => Err(e)
        case Ok(st') => DecodeLoop(input, next, st')
  }

  /** The last index of the delimiter, or 0 when there is none (the code treats both alike). */
  function BasicEnd(input: seq<CodeUnit>): (basic: nat)
    ensures basic <= |input|
    ensures basic > 0 ==> basic < |input|
    ensures basic > 0 ==> input[basic] == DELIMITER
  {
    if input == [] then 0
    else if input[|input| - 1] == DELIMITER then |input| - 1
    else BasicEnd(input[..|input| - 1])
  }

  predicate AllBasic(s: seq<int>) { forall j :: 0 <= j < |s| ==> s[j] < 0x80 }

  function Decoded(input: seq<CodeUnit>): Result<seq<CodeUnit>, Error> {
    var basic := BasicEnd(input);
    if !AllBasic(input[..basic]) then Err(NotBasic)
    else
      match DecodeLoop(input, if basic > 0 then basic + 1 else 0,
                       DecoderState(INITIAL_N, 0, INITIAL_BIAS, input[..basic]))
      case Err(e) => Err(e)
      case Ok(output) =>
        match FromCodePoints(output)
        case None => Err(InvalidCodePoint)
        case Some(units) => Ok(units)
  }

  method LastIndexOf(input: seq<CodeUnit>, unit: CodeUnit) returns (index: int)
    ensures -1 <= index < |input|
    ensures index >= 0 ==> input[index] == unit
    ensures forall j :: index < j < |input| ==> input[j] != unit
  {
    index := |input| - 1;
    while index >= 0 && input[index] != unit
      invariant -1 <= index < |input|
      invariant forall j :: index < j < |input| ==> input[j] != unit
    {
      index := index - 1;
    }
  }

  lemma {:induction false} BasicEndIsLast(input: seq<CodeUnit>, last: int)
    requires -1 <= last < |input|
    requires last >= 0 ==> input[last] == DELIMITER
    requires forall j :: last < j < |input| ==> input[j] != DELIMITER
    ensures BasicEnd(input) == if last < 0 then 0 else last
    decreases |input|
  {
    if input != [] && last < |input| - 1 {
      BasicEndIsLast(input[..|input| - 1], last);
    }
  }

  /** The inner loop of the decoder. */
  method ReadVariableLength(input: seq<CodeUnit>, start: nat, oldi: int, bias: int)
    returns (r: Result<(int, nat), Error>)
    requires start <= |input|
    ensures r == ReadDelta(input, start, oldi, 1, BASE, bias)
  {
    var index, i := start, oldi;
    var w, k := 1, BASE;
    while true
      invariant w > 0 && start <= index <= |input|
      invariant ReadDelta(input, index, i, w, k, bias) == ReadDelta(input, start, oldi, 1, BASE, bias)
      decreases |input| - index
    {
      if index >= |input| {
        return Err(InvalidInput);
      }
      var digit := BasicToDigit(input[index]);
      index := index + 1;
      if digit >= BASE || digit > (MAX_INT - i) / w {
        return Err(Overflow);
      }
      i := i + digit * w;
      var t := Threshold(k, bias);
      if digit < t {
        return Ok((i, index));
      }
      var baseMinusT := BASE - t;
      if w > MAX_INT / baseMinusT {
        return Err(Overflow);
      }
      w := w * baseMinusT;
      k := k + BASE;
    }
  }

  /** The rest of one round of the main decoding loop: adapt the bias, insert the code point. */
  method Insert(st: DecoderState, newI: int) returns (r: Result<DecoderState, Error>)
    ensures r == Inserted(st, newI)
  {
    var i, n := newI, st.n;
    var out := |st.output| + 1;
    var bias := Adapt(i - st.i, out, st.i == 0);
    if i / out > MAX_INT - n {
      return Err(Overflow);
    }
    n := n + i / out;
    i := Rem(i, out);
    var output := Splice(st.output, i, n);
    i := i + 1;
    r := Ok(DecoderState(n, i, bias, output));
  }

  method Decode(input: seq<CodeUnit>) returns (r: Result<seq<CodeUnit>, Error>)
    ensures r == Decoded(input)
  {
    var basic := LastIndexOf(input, DELIMITER);
    BasicEndIsLast(input, basic);
    if basic < 0 {
      basic := 0;
    }
    var output: seq<int> := [];
    var j := 0;
    while j < basic
      invariant 0 <= j <= basic
      invariant output == input[..j] && AllBasic(output)
    {
      if input[j] >= 0x80 {
        assert input[..basic][j] == input[j];
        return Err(NotBasic);
      }
      output := output + [input[j]];
      j := j + 1;
    }

    var index := if basic > 0 then basic + 1 else 0;
    var st := DecoderState(INITIAL_N, 0, INITIAL_BIAS, output);
    ghost var expected := DecodeLoop(input, index, st);
    while index < |input|
      invariant 0 <= index <= |input|
      invariant DecodeLoop(input, index, st) == expected
      decreases |input| - index
    {
      var read := ReadVariableLength(input, index, st.i, st.bias);
      if read.Err? {
        return Err(read.error);
      }
      index := read.value.1;
      var inserted := Insert(st, read.value.0);
      if inserted.Err? {
        return Err(inserted.error);
      }
      st := inserted.value;
    }
    var units := FromCodePoints(st.output);
    r := if units.None? then Err(InvalidCodePoint) else Ok(units.value);
  }

  // ---------- Encoder ----------

  datatype EncoderState = EncoderState(n: int, delta: int, bias: int, handled: nat, output: seq<CodeUnit>)

  /**
   * The code points that have been handled when the encoder looks for n and has passed the
   * first p input positions: those below n, and the occurrences of n before p.
   */
  function Kept(input: seq<int>, n: int, p: int): (kept: seq<int>)
    ensures |kept| <= |input|
    ensures |kept| == |input| ==> kept == input
  {
    if input == [] then []
    else
      var last := |input| - 1;
      var rest := Kept(input[..last], n, p);
      if input[last] < n || (input[last] == n && last < p) then rest + [input[last]] else rest
  }

  lemma {:induction false} KeptPastEnd(input: seq<int>, n: int, p: int, q: int)
    requires |input| <= p && |input| <= q
    ensures Kept(input, n, p) == Kept(input, n, q)
  {
    if input != [] {
      KeptPastEnd(input[..|input| - 1], n, p, q);
    }
  }

  /** Passing position p inserts n behind the kept elements of the prefix, or keeps everything. */
  lemma {:induction false} KeptStep(input: seq<int>, n: int, p: nat)
    requires p < |input|
    ensures |Kept(input[..p], n, p)| <= |Kept(input, n, p)|
    ensures Kept(input, n, p + 1) ==
            if input[p] == n then Splice(Kept(input, n, p), |Kept(input[..p], n, p)|, n)
            else Kept(input, n, p)
    ensures |Kept(input[..p + 1], n, p + 1)| == |Kept(input[..p], n, p)| + if input[p] <= n then 1 else 0
  {
    var last := |input| - 1;
    assert input[..p + 1][..p] == input[..p];
    KeptPastEnd(input[..p], n, p, p + 1);
    if p == last {
      assert input[..p + 1] == input;
    } else {
      assert input[..last][..p] == input[..p];
      assert input[..last][..p + 1] == input[..p + 1];
      KeptStep(input[..last], n, p);
      KeptLast(input, n, p);
      KeptLast(input, n, p + 1);
      SpliceAppend(Kept(input[..last], n, p), |Kept(input[..p], n, p)|, n, input[last]);
    }
  }

  lemma KeptLast(input: seq<int>, n: int, p: int)
    requires input != []
    ensures Kept(input, n, p) ==
            var last := |input| - 1;
            var rest := Kept(input[..last], n, p);
            if input[last] < n || (input[last] == n && last < p) then rest + [input[last]] else rest
  {
  }

  lemma SpliceAppend(s: seq<int>, at: nat, x: int, y: int)
    requires at <= |s|
    ensures Splice(s + [y], at, x) == Splice(s, at, x) + [y]
  {
  }

  lemma {:induction false} KeptNextCodePoint(input: seq<int>, n: int, p: int)
    requires |input| <= p
    ensures Kept(input, n, p) == Kept(input, n + 1, 0)
  {
    if input != [] {
      KeptNextCodePoint(input[..|input| - 1], n, p);
    }
  }

  /** Nothing lies strictly below m that is not already below n. */
  predicate NoneBetween(input: seq<int>, n: int, m: int) {
    forall j :: 0 <= j < |input| ==> input[j] < n || m <= input[j]
  }

  lemma {:induction false} KeptSkip(input: seq<int>, n: int, m: int)
    requires n <= m && NoneBetween(input, n, m)
    ensures Kept(input, m, 0) == Kept(input, n, 0)
  {
    if input != [] {
      var front := input[..|input| - 1];
      assert forall j :: 0 <= j < |front| ==> front[j] == input[j];
      KeptSkip(front, n, m);
    }
  }

  /** An unhandled element is at least n. */
  lemma {:induction false} KeptMissing(input: seq<int>, n: int, p: int) returns (j: nat)
    requires |Kept(input, n, p)| < |input|
    ensures j < |input| && n <= input[j] && (input[j] == n ==> p <= j)
  {
    var last := |input| - 1;
    if input[last] < n || (input[last] == n && last < p) {
      j := KeptMissing(input[..last], n, p);
    } else {
      j := last;
    }
  }

  /** The smallest element that is at least n, or MAX_INT. */
  function Smallest(input: seq<int>, n: int, m: int): (r: int)
    ensures r <= m && NoneBetween(input, n, r)
    ensures r == m || (r in input && n <= r)
  {
    if input == [] then m
    else
      var m' := if n <= input[0] < m then input[0] else m;
      var r := Smallest(input[1..], n, m');
      assert forall j :: 0 < j < |input| ==> input[j] == input[1..][j - 1];
      r
  }

  method FindSmallest(input: seq<int>, n: int) returns (m: int)
    ensures m == Smallest(input, n, MAX_INT)
  {
    m := MAX_INT;
    var j := 0;
    while j < |input|
      invariant 0 <= j <= |input|
      invariant Smallest(input[j..], n, m) == Smallest(input, n, MAX_INT)
    {
      assert input[j..][1..] == input[j + 1..];
      if input[j] >= n && input[j] < m {
        m := input[j];
      }
      j := j + 1;
    }
  }

  lemma VarintStep(q: int, t: int)
    requires T_MIN <= t <= T_MAX && t <= q
    ensures 0 <= (q - t) / (BASE - t) < q
    ensures 0 <= t + (q - t) % (BASE - t) < BASE
  {
  }

  /** A delta as a generalized variable-length integer. */
  function Varint(q: nat, k: int, bias: int): (digits: seq<CodeUnit>)
    decreases q
  {
    var t := Threshold(k, bias);
    if q < t then [DigitToBasic(q)]
    else
      VarintStep(q, t);
      [DigitToBasic(t + (q - t) % (BASE - t))] + Varint((q - t) / (BASE - t), k + BASE, bias)
  }

  method EmitDelta(delta: nat, bias: int) returns (digits: seq<CodeUnit>)
    ensures digits == Varint(delta, BASE, bias)
  {
    digits := [];
    var q, k := delta, BASE;
    while true
      invariant q >= 0
      invariant digits + Varint(q, k, bias) == Varint(delta, BASE, bias)
      decreases q
    {
      var t := Threshold(k, bias);
      if q < t {
        return digits + [DigitToBasic(q)];
      }
      VarintStep(q, t);
      var qMinusT := q - t;
      var baseMinusT := BASE - t;
      ghost var before := digits;
      digits := digits + [DigitToBasic(t + qMinusT % baseMinusT)];
      assert digits + Varint(qMinusT / baseMinusT, k + BASE, bias) == before + Varint(q, k, bias);
      q := qMinusT / baseMinusT;
      k := k + BASE;
    }
  }

  /** Emits one occurrence of n; plusOne is the count taken before the pass over the input. */
  function Emitted(st: EncoderState, plusOne: nat, basicLength: nat): EncoderState
    requires st.delta >= 0 && plusOne > 0
  {
    EncoderState(st.n, 0, Adapted(st.delta, plusOne, st.handled == basicLength), st.handled + 1,
                 st.output + Varint(st.delta, BASE, st.bias))
  }

  /** The state before input position p lies in the run of the encoder. */
  predicate InPass(input: seq<int>, p: nat, st: EncoderState) {
    p <= |input| && st.delta >= 0 && st.handled == |Kept(input, st.n, p)|
  }

  /** One pass over the input from position p. */
  function EncodePass(input: seq<int>, p: nat, plusOne: nat, basicLength: nat, st: EncoderState)
    : (r: Result<EncoderState, Error>)
    requires plusOne > 0 && InPass(input, p, st)
    ensures r.Ok? ==> InPass(input, |input|, r.value) && r.value.n == st.n
    decreases |input| - p
  {
    if p == |input| then Ok(st)
    else
      KeptStep(input, st.n, p);
      if input[p] < st.n then
        if st.delta + 1 > MAX_INT then Err(Overflow)
        else EncodePass(input, p + 1, plusOne, basicLength, st.(delta := st.delta + 1))
      else if input[p] == st.n then
        EncodePass(input, p + 1, plusOne, basicLength, Emitted(st, plusOne, basicLength))
      else
        EncodePass(input, p + 1, plusOne, basicLength, st)
  }

  /** One round of the main encoding loop: all occurrences of the next code point. */
  function EncodeRound(input: seq<CodePoint>, basicLength: nat, st: EncoderState): (r: Result<EncoderState, Error>)
    requires InPass(input, 0, st) && st.handled < |input|
    ensures r.Ok? ==> InPass(input, 0, r.value) && st.handled < r.value.handled
  {
    var m := Smallest(input, st.n, MAX_INT);
    var plusOne := st.handled + 1;
    if m - st.n > (MAX_INT - st.delta) / plusOne then Err(Overflow)
    else
      PassStarts(input, st);
      KeptGrows(input, m);
      KeptNextCodePoint(input, m, |input|);
      match EncodePass(input, 0, plusOne, basicLength, Advanced(input, st))
      case Err(e) => Err(e)
      case Ok(st') => Ok(st'.(delta := st'.delta + 1, n := m + 1))
  }

  /** The main encoding loop. */
  function EncodeLoop(input: seq<CodePoint>, basicLength: nat, st: EncoderState): Result<seq<CodeUnit>, Error>
    requires InPass(input, 0, st)
    decreases |input| - st.handled
  {
    if st.handled >= |input| then Ok(st.output)
    else
      match EncodeRound(input, basicLength, st)
      case Err(e) => Err(e)
      case Ok(st') => EncodeLoop(input, basicLength, st')
  }

  /** The state moved on to the next code point of the input. */
  function Advanced(input: seq<int>, st: EncoderState): EncoderState {
    var m := Smallest(input, st.n, MAX_INT);
    st.(delta := st.delta + (m - st.n) * (st.handled + 1), n := m)
  }

  lemma ProductNonNegative(a: nat, b: nat)
    ensures a * b >= 0
  {
  }

  lemma PassStarts(input: seq<CodePoint>, st: EncoderState)
    requires InPass(input, 0, st) && st.handled < |input|
    ensures var m := Smallest(input, st.n, MAX_INT); st.n <= m && m in input
    ensures InPass(input, 0, Advanced(input, st))
  {
    var j := KeptMissing(input, st.n, 0);
    var m := Smallest(input, st.n, MAX_INT);
    assert m <= input[j];
    KeptSkip(input, st.n, m);
    ProductNonNegative(m - st.n, st.handled + 1);
  }

  /** A pass over an input that holds n handles at least one more code point. */
  lemma {:induction false} KeptGrows(input: seq<int>, n: int)
    ensures |Kept(input, n, 0)| <= |Kept(input, n, |input|)|
    ensures n in input ==> |Kept(input, n, 0)| < |Kept(input, n, |input|)|
  {
    if input != [] {
      var front := input[..|input| - 1];
      assert input == front + [input[|input| - 1]];
      KeptGrows(front, n);
      KeptPastEnd(front, n, |front|, |input|);
    }
  }

  function Encoded(s: seq<CodeUnit>): Result<seq<CodeUnit>, Error> {
    var input := CodePoints(s);
    KeptBelow(input, INITIAL_N);
    var basic: seq<CodeUnit> := Kept(input, INITIAL_N, 0);
    EncodedFrom(input, basic)
  }

  function EncodedFrom(input: seq<CodePoint>, basic: seq<CodeUnit>): Result<seq<CodeUnit>, Error>
    requires basic == Kept(input, INITIAL_N, 0)
  {
    var output: seq<CodeUnit> := if basic == [] then [] else basic + [DELIMITER];
    EncodeLoop(input, |basic|, EncoderState(INITIAL_N, 0, INITIAL_BIAS, |basic|, output))
  }

  lemma {:induction false} KeptBelow(input: seq<CodePoint>, n: int)
    ensures forall j :: 0 <= j < |Kept(input, n, 0)| ==> 0 <= Kept(input, n, 0)[j] < n
  {
    if input != [] {
      KeptBelow(input[..|input| - 1], n);
    }
  }

  /** The pass of the encoder over the input: one varint for every occurrence of n. */
  method EncodeOccurrences(input: seq<int>, plusOne: nat, basicLength: nat, start: EncoderState)
    returns (r: Result<EncoderState, Error>)
    requires plusOne > 0 && InPass(input, 0, start)
    ensures r == EncodePass(input, 0, plusOne, basicLength, start)
  {
    var st := start;
    var p := 0;
    while p < |input|
      invariant InPass(input, p, st)
      invariant EncodePass(input, p, plusOne, basicLength, st) == EncodePass(input, 0, plusOne, basicLength, start)
    {
      KeptStep(input, st.n, p);
      if input[p] < st.n {
        st := st.(delta := st.delta + 1);
        if st.delta > MAX_INT {
          return Err(Overflow);
        }
      }
      if input[p] == st.n {
        var digits := EmitDelta(st.delta, st.bias);
        var bias := Adapt(st.delta, plusOne, st.handled == basicLength);
        st := EncoderState(st.n, 0, bias, st.handled + 1, st.output + digits);
      }
      p := p + 1;
    }
    r := Ok(st);
  }

  method Encode(s: seq<CodeUnit>) returns (r: Result<seq<CodeUnit>, Error>)
    ensures r == Encoded(s)
  {
    var input := Ucs2Decode(s);
    var output: seq<CodeUnit> := [];
    var j := 0;
    while j < |input|
      invariant 0 <= j <= |input|
      invariant output == Kept(input[..j], INITIAL_N, 0)
    {
      assert input[..j + 1][..j] == input[..j];
      if input[j] < 0x80 {
        output := output + [input[j]];
      }
      j := j + 1;
    }
    assert input[..j] == input;
    r := EncodeNonBasic(input, output);
  }

  method OneRound(input: seq<CodePoint>, basicLength: nat, st: EncoderState) returns (r: Result<EncoderState, Error>)
    requires InPass(input, 0, st) && st.handled < |input|
    ensures r == EncodeRound(input, basicLength, st)
  {
    var m := FindSmallest(input, st.n);
    var plusOne := st.handled + 1;
    if m - st.n > (MAX_INT - st.delta) / plusOne {
      return Err(Overflow);
    }
    PassStarts(input, st);
    var next := st.(delta := st.delta + (m - st.n) * plusOne, n := m);
    var pass := EncodeOccurrences(input, plusOne, basicLength, next);
    if pass.Err? {
      return pass;
    }
    r := Ok(pass.value.(delta := pass.value.delta + 1, n := m + 1));
  }

  /** The encoder after the basic code points have been copied. */
  method EncodeNonBasic(input: seq<CodePoint>, basic: seq<CodeUnit>) returns (r: Result<seq<CodeUnit>, Error>)
    requires basic == Kept(input, INITIAL_N, 0)
    ensures r == EncodedFrom(input, basic)
  {
    var output := basic;
    var basicLength := |output|;
    if basicLength > 0 {
      output := output + [DELIMITER];
    }
    var st := EncoderState(INITIAL_N, 0, INITIAL_BIAS, basicLength, output);
    while st.handled < |input|
      invariant InPass(input, 0, st)
      invariant EncodeLoop(input, basicLength, st) == EncodedFrom(input, basic)
      decreases |input| - st.handled
    {
      var round := OneRound(input, basicLength, st);
      if round.Err? {
        return Err(round.error);
      }
      st := round.value;
    }
    r := Ok(st.output);
  }
}
