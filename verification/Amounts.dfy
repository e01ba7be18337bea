/** Amounts: a value and a fraction in units of 10^-8, added, subtracted, multiplied and divided exactly or saturated. */
module Amounts {
  import opened Wrappers
  import opened Words

  const BASE: nat := 1_0000_0000
  const MAX_VALUE: nat := 0x10_0000_0000_0000

  datatype Amount = Amount(currency: string, value: nat, fraction: nat)
  datatype Sum = Sum(amount: Amount, saturated: bool)
  datatype Error = MismatchedCurrency | DivisionByZero | NegativeFactor

  /** The number of smallest units */
  function Total(a: Amount): nat { a.value * BASE + a.fraction }

  /** The largest amount in smallest units */
  const LIMIT: nat := MAX_VALUE * BASE + BASE - 1

  predicate Normal(a: Amount) { a.fraction < BASE }

  function Units(currency: string, total: nat): (a: Amount)
    ensures Normal(a) && Total(a) == total
  {
    Amount(currency, total / BASE, total % BASE)
  }

  function Largest(currency: string): Amount { Amount(currency, MAX_VALUE, BASE - 1) }

  /** The amount for a total, or the largest one */
  function Clamped(currency: string, total: nat): Sum {
    if total > LIMIT then Sum(Largest(currency), true) else Sum(Units(currency, total), false)
  }

  lemma NormalIsUnits(a: Amount)
    requires Normal(a)
    ensures a == Units(a.currency, Total(a)) && (Total(a) > LIMIT <==> a.value > MAX_VALUE)
  {
    assert Total(a) / BASE == a.value;
  }

  function UpperChar(c: char): char { if 'a' <= c <= 'z' then c - 'a' + 'A' else c }
  function Upper(s: string): (u: string)
    ensures |u| == |s|
  {
    seq(|s|, i requires 0 <= i < |s| => UpperChar(s[i]))
  }

  predicate SameCurrency(a: string, b: string) { Upper(a) == Upper(b) }

  function TotalOf(s: seq<Amount>): nat { if s == [] then 0 else Total(s[0]) + TotalOf(s[1..]) }

  predicate AllOf(currency: string, s: seq<Amount>) { forall i :: 0 <= i < |s| ==> SameCurrency(s[i].currency, currency) }

  // ---------- Addition ----------

  /** What is added up, from left to right; the largest amount ends it, and so does another currency */
  function Added(currency: string, total: nat, rest: seq<Amount>): Result<Sum, Error>
    decreases |rest|
  {
    if total > LIMIT || rest == [] then Ok(Clamped(currency, total))
    else if !SameCurrency(rest[0].currency, currency) then Err(MismatchedCurrency)
    else Added(currency, total + Total(rest[0]), rest[1..])
  }

  /** In one currency it is the sum of all, or the largest amount exactly if the sum is more than that. */
  lemma {:induction false} AddedIsSum(currency: string, total: nat, rest: seq<Amount>)
    requires AllOf(currency, rest)
    ensures Added(currency, total, rest) == Ok(Clamped(currency, total + TotalOf(rest)))
    decreases |rest|
  {
    if rest != [] && total <= LIMIT {
      AddedIsSum(currency, total + Total(rest[0]), rest[1..]);
    }
  }

  /** There is an error exactly if another currency comes before the sum is too large. */
  lemma {:induction false} AddedFails(currency: string, total: nat, rest: seq<Amount>)
    ensures Added(currency, total, rest).Err?
       <==> exists k :: 0 <= k < |rest| && !SameCurrency(rest[k].currency, currency) && total + TotalOf(rest[..k]) <= LIMIT
    decreases |rest|
  {
    if rest != [] {
      var next := total + Total(rest[0]);
      AddedFails(currency, next, rest[1..]);
      forall k | 0 < k < |rest|
        ensures total + TotalOf(rest[..k]) == next + TotalOf(rest[1..][..k - 1])
      {
        assert rest[..k][1..] == rest[1..][..k - 1];
      }
      assert rest[..0] == [];
      if total <= LIMIT && SameCurrency(rest[0].currency, currency) {
        if k :| 0 <= k < |rest| && !SameCurrency(rest[k].currency, currency) && total + TotalOf(rest[..k]) <= LIMIT {
          assert rest[1..][k - 1] == rest[k];
        }
        if Added(currency, next, rest[1..]).Err? {
          var k :| 0 <= k < |rest[1..]| && !SameCurrency(rest[1..][k].currency, currency) && next + TotalOf(rest[1..][..k]) <= LIMIT;
          assert rest[k + 1] == rest[1..][k];
        }
      }
    }
  }

  method Add(first: Amount, rest: seq<Amount>) returns (r: Result<Sum, Error>)
    ensures r == Added(first.currency, Total(first), rest)
  {
    hide SameCurrency;
    var currency := first.currency;
    var value: nat := first.value + first.fraction / BASE;
    var fraction: nat := first.fraction % BASE;
    Carry(first.value, first.fraction);
    if value > MAX_VALUE {
      return Ok(Sum(Largest(currency), true));
    }
    var i := 0;
    while i < |rest|
      invariant i <= |rest| && value <= MAX_VALUE && fraction < BASE
      invariant Added(currency, value * BASE + fraction, rest[i..]) == Added(currency, Total(first), rest)
    {
      var x := rest[i];
      assert rest[i..][0] == x && rest[i..][1..] == rest[i + 1..];
      if !SameCurrency(x.currency, currency) {
        return Err(MismatchedCurrency);
      }
      Carry(value + x.value, fraction + x.fraction);
      ghost var before := value * BASE + fraction;
      value := value + x.value + (fraction + x.fraction) / BASE;
      fraction := (fraction + x.fraction) % BASE;
      assert value * BASE + fraction == before + Total(x);
      if value > MAX_VALUE {
        return Ok(Sum(Largest(currency), true));
      }
      i := i + 1;
    }
    NormalIsUnits(Amount(currency, value, fraction));
    r := Ok(Sum(Amount(currency, value, fraction), false));
  }

  lemma Carry(value: nat, fraction: nat)
    ensures (value + fraction / BASE) * BASE + fraction % BASE == value * BASE + fraction
    ensures value * BASE + fraction > LIMIT <==> value + fraction / BASE > MAX_VALUE
  {
  }

  // ---------- Subtraction ----------

  function SubtractOne(value: nat, fraction: int, b: Amount): Option<(nat, int)> {
    if fraction < b.fraction then
      if value < 1 || value - 1 < b.value then None else Some((value - 1 - b.value, fraction + BASE - b.fraction))
    else if value < b.value then None
    else Some((value - b.value, fraction - b.fraction))
  }

  datatype Difference = Difference(currency: string, value: nat, fraction: int, saturated: bool)

  function Subtracted(currency: string, value: nat, fraction: int, rest: seq<Amount>): Result<Difference, Error>
    decreases |rest|
  {
    if rest == [] then Ok(Difference(currency, value, fraction, false))
    else if !SameCurrency(rest[0].currency, currency) then Err(MismatchedCurrency)
    else
      var d := SubtractOne(value, fraction, rest[0]);
      if d.None? then Ok(Difference(currency, 0, 0, true)) else Subtracted(currency, d.value.0, d.value.1, rest[1..])
  }

  method Sub(a: Amount, rest: seq<Amount>) returns (r: Result<Difference, Error>)
    ensures r == Subtracted(a.currency, a.value, a.fraction, rest)
  {
    hide SameCurrency;
    var currency := a.currency;
    var value: nat := a.value;
    var fraction: int := a.fraction;
    var i := 0;
    while i < |rest|
      invariant i <= |rest|
      invariant Subtracted(currency, value, fraction, rest[i..]) == Subtracted(a.currency, a.value, a.fraction, rest)
    {
      var b := rest[i];
      assert rest[i..][0] == b && rest[i..][1..] == rest[i + 1..];
      if !SameCurrency(b.currency, currency) {
        return Err(MismatchedCurrency);
      }
      if fraction < b.fraction {
        if value < 1 {
          return Ok(Difference(currency, 0, 0, true));
        }
        value := value - 1;
        fraction := fraction + BASE;
      }
      fraction := fraction - b.fraction;
      if value < b.value {
        return Ok(Difference(currency, 0, 0, true));
      }
      value := value - b.value;
      i := i + 1;
    }
    r := Ok(Difference(currency, value, fraction, false));
  }

  predicate AllNormal(s: seq<Amount>) { forall i :: 0 <= i < |s| ==> Normal(s[i]) }

  /** Of normal amounts the difference is exact, and it is saturated exactly if it would be negative. */
  lemma {:induction false} SubtractedIsDifference(a: Amount, rest: seq<Amount>)
    requires Normal(a) && AllNormal(rest) && AllOf(a.currency, rest)
    ensures Subtracted(a.currency, a.value, a.fraction, rest)
         == Ok(if TotalOf(rest) > Total(a) then Difference(a.currency, 0, 0, true)
               else var u := Units(a.currency, Total(a) - TotalOf(rest)); Difference(a.currency, u.value, u.fraction, false))
    decreases |rest|
  {
    NormalIsUnits(a);
    if rest != [] {
      hide SameCurrency;
      var d := SubtractOne(a.value, a.fraction, rest[0]);
      OneSubtracted(a, rest[0]);
      if d.Some? {
        SubtractedIsDifference(Amount(a.currency, d.value.0, d.value.1), rest[1..]);
      }
    }
  }

  lemma OneSubtracted(a: Amount, b: Amount)
    requires Normal(a) && Normal(b)
    ensures var d := SubtractOne(a.value, a.fraction, b);
            && (d.None? <==> Total(b) > Total(a))
            && (d.Some? ==> 0 <= d.value.1 < BASE && d.value.0 * BASE + d.value.1 == Total(a) - Total(b))
  {
  }

  /** A single subtraction is right: a proper amount with the difference, or saturated if that is negative. */
  predicate SubtractsRightly(a: Amount, b: Amount) {
    var d := SubtractOne(a.value, a.fraction, b);
    if Total(a) < Total(b) then d.None?
    else d.Some? && d.value.1 >= 0 && d.value.0 * BASE + d.value.1 == Total(a) - Total(b)
  }

  /**
   * For any two amounts, normal or not, subtraction is right exactly if the fraction of the first does not
   * hold what its value lacks, and a single borrowed unit is enough for the fraction of the second.
   */
  lemma SubtractsRightlyExactly(a: Amount, b: Amount)
    ensures SubtractsRightly(a, b)
       <==> (&& !(a.value < b.value && a.fraction >= b.fraction + (b.value - a.value) * BASE)
             && !(a.value > b.value && b.fraction > a.fraction + BASE))
  {
  }

  /** An amount that is not normal and is not less than itself in normal form is found to be less. */
  lemma NotNormal(currency: string)
    ensures var a, b := Amount(currency, 0, BASE), Amount(currency, 1, 0);
            Total(a) == Total(b) && !SubtractsRightly(a, b)
  {
  }

  /** Subtraction undoes an addition that is not saturated. */
  lemma SubUndoesAdd(a: Amount, b: Amount)
    requires Normal(a) && Normal(b) && SameCurrency(b.currency, a.currency)
    ensures var s := Added(a.currency, Total(a), [b]);
            s.Ok? && (!s.value.saturated ==>
              Subtracted(a.currency, s.value.amount.value, s.value.amount.fraction, [b])
              == Ok(Difference(a.currency, a.value, a.fraction, false)))
  {
    hide SameCurrency;
    assert AllOf(a.currency, [b]) && TotalOf([b]) == Total(b) + TotalOf([]);
    AddedIsSum(a.currency, Total(a), [b]);
    var s := Clamped(a.currency, Total(a) + Total(b));
    if !s.saturated {
      SubtractedIsDifference(s.amount, [b]);
      NormalIsUnits(a);
    }
  }

  // ---------- Order ----------

  method Cmp(a: Amount, b: Amount) returns (r: Result<int, Error>)
    ensures r.Err? <==> a.currency != b.currency
    ensures r.Ok? ==> r.value in {-1, 0, 1}
    ensures r.Ok? ==> (r.value < 0 <==> Total(a) < Total(b)) && (r.value > 0 <==> Total(a) > Total(b))
  {
    if a.currency != b.currency {
      return Err(MismatchedCurrency);
    }
    var av := a.value + a.fraction / BASE;
    var af := a.fraction % BASE;
    var bv := b.value + b.fraction / BASE;
    var bf := b.fraction % BASE;
    Carry(a.value, a.fraction);
    Carry(b.value, b.fraction);
    r := Ok(if av < bv then -1 else if av > bv then 1 else if af < bf then -1 else if af > bf then 1 else 0);
  }

  // ---------- Multiplication ----------

  method Mult(a: Amount, factor: int) returns (r: Result<Sum, Error>)
    ensures r.Err? <==> factor < 0
    ensures factor == 0 ==> r == Ok(Sum(Amount(a.currency, 0, 0), false))
    ensures factor > 0 ==> r == Ok(Clamped(a.currency, Total(a) * factor))
  {
    hide Added, Clamped, Total;
    if factor < 0 {
      return Err(NegativeFactor);
    }
    if factor == 0 {
      return Ok(Sum(Amount(a.currency, 0, 0), false));
    }
    var n := factor;
    var x := a;
    var acc := Amount(a.currency, 0, 0);
    ghost var product := Total(a) * factor;
    ZeroTotal(acc);
    while n > 1
      invariant n >= 1 && x.currency == acc.currency == a.currency
      invariant Total(acc) + Total(x) * n == product
    {
      ghost var t, u := Total(acc), Total(x);
      Halves(u, n);
      if n % 2 == 0 {
        n := n / 2;
      } else {
        n := (n - 1) / 2;
        var r2 := AddOne(acc, x);
        if r2.saturated {
          TooMuch(a.currency, t + u, product);
          return Ok(r2);
        }
        acc := r2.amount;
      }
      var r2 := AddOne(x, x);
      if r2.saturated {
        AtLeastOnce(2 * u, n);
        TooMuch(a.currency, 2 * u, product);
        return Ok(r2);
      }
      x := r2.amount;
    }
    var r2 := AddOne(acc, x);
    r := Ok(r2);
  }

  lemma ZeroTotal(a: Amount)
    requires a.value == 0 && a.fraction == 0
    ensures Total(a) == 0
  {
  }

  lemma Halves(u: nat, n: nat)
    ensures n % 2 == 0 ==> u * n == 2 * u * (n / 2)
    ensures n % 2 == 1 ==> u * n == u + 2 * u * ((n - 1) / 2)
  {
    var h := n / 2;
    assert n == 2 * h || n == 2 * h + 1;
    assert u * (2 * h) == 2 * u * h && u * (2 * h + 1) == 2 * u * h + u;
  }

  lemma AtLeastOnce(x: nat, n: nat)
    requires n >= 1
    ensures x * n >= x
  {
  }

  lemma TooMuch(currency: string, part: nat, product: nat)
    requires part <= product && Clamped(currency, part).saturated
    ensures Clamped(currency, part) == Clamped(currency, product)
  {
  }

  method AddOne(a: Amount, b: Amount) returns (r: Sum)
    requires a.currency == b.currency
    ensures r == Clamped(a.currency, Total(a) + Total(b))
    ensures r.amount.currency == a.currency && (!r.saturated ==> Total(r.amount) == Total(a) + Total(b))
  {
    hide SameCurrency, Total;
    assert SameCurrency(b.currency, a.currency) by { SameSelf(a.currency); }
    AddedIsSum(a.currency, Total(a), [b]);
    assert TotalOf([b]) == Total(b) + TotalOf([]);
    var s := Add(a, [b]);
    r := s.value;
  }

  lemma SameSelf(c: string)
    ensures SameCurrency(c, c)
  {
  }

  // ---------- Division ----------

  /** Division of the number of units, rounded down; a normal amount stays one. */
  method Divide(a: Amount, n: nat) returns (r: Result<Amount, Error>)
    ensures r.Err? <==> n == 0
    ensures r.Ok? ==> r.value.currency == a.currency && Total(r.value) == Total(a) / n && (Normal(a) ==> Normal(r.value))
  {
    if n == 0 {
      return Err(DivisionByZero);
    }
    if n == 1 {
      return Ok(a);
    }
    var rest := a.value % n;
    DivideParts(a.value, a.fraction, n, BASE);
    r := Ok(Amount(a.currency, a.value / n, (rest * BASE + a.fraction) / n));
  }

  lemma DivideParts(v: nat, f: nat, n: nat, b: nat)
    requires n > 0
    ensures v / n * b + (v % n * b + f) / n == (v * b + f) / n
    ensures f < b ==> (v % n * b + f) / n < b
  {
    var q, r := v / n, v % n;
    DividesBack(v, n);
    DividesBack(r * b + f, n);
    DivideSum(v, q, r, n, b, f, (r * b + f) / n, (r * b + f) % n);
    if f < b {
      FractionBelow(r, f, n, b);
    }
  }

  lemma DividesBack(v: nat, n: nat)
    requires n > 0
    ensures v == n * (v / n) + v % n && v % n < n
  {
  }

  lemma DivideSum(v: nat, q: nat, r: nat, n: nat, b: nat, f: nat, t: nat, m: nat)
    requires m < n && v == n * q + r && r * b + f == n * t + m
    ensures (v * b + f) / n == q * b + t
  {
    Spread(q, r, n, b, f, t, m);
    Divides(v * b + f, n, q * b + t, m);
  }

  lemma Spread(q: nat, r: nat, n: nat, b: nat, f: nat, t: nat, m: nat)
    requires r * b + f == n * t + m
    ensures (n * q + r) * b + f == n * (q * b + t) + m
  {
    assert (n * q + r) * b == n * q * b + r * b;
    assert n * (q * b + t) == n * (q * b) + n * t;
    assert n * (q * b) == n * q * b;
  }

  lemma FractionBelow(r: nat, f: nat, n: nat, b: nat)
    requires r < n && f < b
    ensures (r * b + f) / n < b
  {
    var s := r * b + f;
    var t := s / n;
    assert s < n * b by {
      assert (r + 1) * b == r * b + b;
      Grows(b, r + 1, n);
    }
    assert s == n * t + s % n;
    if t >= b {
      Grows(n, b, t);
    }
  }
}
