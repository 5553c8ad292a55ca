/** Decimal text of integers, as `%d` and `%.0f` print it, and its reader. */
module Decimal {
  import opened Bytes
  import opened JsonText
  import opened JsonParse
  import opened JsonRoundTrip
  import opened JsonValue

  function PrintNat(n: nat): (s: bytes)
    ensures |s| > 0 && forall i :: 0 <= i < |s| ==> IsDigit(s[i])
    ensures |s| > 1 ==> s[0] != 0x30
  {
    if n < 10 then [0x30 + n] else PrintNat(n / 10) + [0x30 + n % 10]
  }

  function PrintInt(n: int): bytes {
    if n < 0 then [MINUS] + PrintNat(-n) else PrintNat(n)
  }

  /** Value and end of the digits from `p` on, continuing the number `acc`. */
  function ReadDigits(t: bytes, p: nat, acc: nat): (r: (nat, nat))
    ensures p <= r.1
    decreases |t| - p
  {
    if IsDigit(At(t, p)) then ReadDigits(t, p + 1, acc * 10 + (t[p] - 0x30)) else (acc, p)
  }

  /** Reading the digits of a number continues behind them. */
  lemma {:induction false} ReadPrinted(t: bytes, p: nat, n: nat)
    requires StartsWith(t, p, PrintNat(n))
    ensures ReadDigits(t, p, 0) == ReadDigits(t, p + |PrintNat(n)|, n)
  {
    var s := PrintNat(n);
    if n < 10 {
      AtText(t, p, s, 0);
    } else {
      var a := PrintNat(n / 10);
      SplitText(t, p, a, [0x30 + n % 10]);
      ReadPrinted(t, p, n / 10);
      AtText(t, p + |a|, [0x30 + n % 10], 0);
      assert n / 10 * 10 + n % 10 == n;
    }
  }

  /** strtod restricted to an optional sign and decimal digits; without a digit it takes nothing. */
  function ReadReal(s: bytes): Strtod {
    var start := if At(s, 0) == MINUS then 1 else 0;
    var (n, end) := ReadDigits(s, start, 0);
    if end == start then Strtod(0.0, 0, false)
    else Strtod(if start == 1 then -(n as real) else n as real, end, false)
  }

  const DECIMALS: NumberText := NumberText((x: real) => PrintInt(x.Floor), ReadReal)

  lemma DigitsAreDecimal(n: nat)
    ensures IsDecimal(PrintNat(n)) && NulFree(PrintNat(n))
  {
    assert forall i :: 0 <= i < |PrintNat(n)| ==> IsDigit(PrintNat(n)[i]);
  }

  lemma SignedIsDecimal(n: nat)
    requires n > 0
    ensures IsDecimal([MINUS] + PrintNat(n)) && NulFree([MINUS] + PrintNat(n))
  {
  }

  lemma ReadRest(s: bytes, rest: bytes, n: nat, p: nat)
    requires EndsNumber(rest) && s == PrintNat(n) && p <= 1
    ensures ReadDigits((if p == 1 then [MINUS] else []) + s + rest, p, 0) == (n, p + |s|)
  {
    var t := (if p == 1 then [MINUS] else []) + s + rest;
    assert t[p..p + |s|] == s;
    ReadPrinted(t, p, n);
    assert At(t, p + |s|) == At(rest, 0);
  }

  /** Every integer's decimal text meets the number assumption of the round trip. */
  lemma IntegersRoundTrip(n: int)
    ensures NumberRoundTrips(DECIMALS, n as real)
  {
    var a: nat, p := if n < 0 then -n else n, if n < 0 then 1 else 0;
    var s, text := PrintNat(a), PrintInt(n);
    assert (n as real).Floor == n;
    if n < 0 { SignedIsDecimal(a); } else { DigitsAreDecimal(a); }
    forall rest | EndsNumber(rest)
      ensures ReadReal(text + rest) == Strtod(n as real, |text|, false)
    {
      ReadRest(s, rest, a, p);
      if n < 0 {
        assert text + rest == [MINUS] + s + rest;
      } else {
        assert text + rest == [] + s + rest;
        assert IsDigit((text + rest)[0]);
      }
    }
  }

  ghost predicate IntegerNumbers(v: Value)
    decreases v
  {
    match v
    case Number(x) => x == x.Floor as real
    case Array(items) => forall i :: 0 <= i < |items| ==> IntegerNumbers(items[i])
    case Object(ms) => forall i :: 0 <= i < |ms| ==> IntegerNumbers(ms[i].value)
    case _ => true
  }

  lemma {:induction false} IntegerTreesRoundTrip(v: Value)
    requires IntegerNumbers(v)
    ensures NumbersRoundTrip(v, DECIMALS)
    decreases v
  {
    match v {
      case Number(x) => IntegersRoundTrip(x.Floor);
      case Array(items) => forall i | 0 <= i < |items| { IntegerTreesRoundTrip(items[i]); }
      case Object(ms) => forall i | 0 <= i < |ms| { IntegerTreesRoundTrip(ms[i].value); }
      case _ =>
    }
  }

  /** For trees of integers the round trip needs no assumption about number text. */
  lemma IntegerRoundTrip(v: Value, pretty: bool, slashes: bool)
    requires WellFormed(v) && IntegerNumbers(v)
    ensures var style := Style(pretty, slashes, DECIMALS);
            ParseText(Print(v, 0, style), DECIMALS) == if Height(v) <= MAX_NESTING then Some(v) else None
  {
    IntegerTreesRoundTrip(v);
    RoundTrip(v, Style(pretty, slashes, DECIMALS));
    FitsIsHeight(v, 0);
  }
}
