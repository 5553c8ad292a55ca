/** Prices in halves to sixty-fourths and their subdivisions, as the quote screen prints them. */
module PriceText {
  import opened Bytes
  import opened JsonText
  import opened Decimal

  /** A price is a whole number of 1 / (mainF * subF). */
  datatype Format = Format(mainF: int, subF: int, zdiv: int)

  const APOSTROPHE: byte := 0x27

  function Pow10(n: int): int {
    if n <= 0 then 1 else 10 * Pow10(n - 1)
  }

  /** atoi on a trimmed field. */
  function Atoi(s: bytes): int {
    if At(s, 0) == MINUS then 0 - ReadDigits(s, 1, 0).0
    else ReadDigits(s, if At(s, 0) == 0x2B then 1 else 0, 0).0
  }

  /** parse_pind: the price indicator chooses the format; neither a letter nor a digit count, it changes nothing. */
  function ParsePind(current: Format, pind: bytes): Format {
    match At(pind, 0) as char
    case 'A' => Format(2, 1, 1)
    case 'B' => Format(4, 1, 2)
    case 'C' => Format(8, 1, 3)
    case 'D' => Format(16, 1, 4)
    case 'E' => Format(32, 1, 5)
    case 'F' => Format(64, 1, 6)
    case 'G' => Format(128, 1, 7)
    case 'H' => Format(256, 1, 8)
    case 'I' => Format(32, 2, 6)
    case 'J' => Format(64, 2, 7)
    case 'K' => Format(32, 4, 7)
    case 'L' => Format(32, 8, 8)
    case _ =>
      var number := Atoi(pind);
      if 0 <= number <= 9 then Format(Pow10(number), 1, number) else current
  }

  function Digit(d: int): bytes
    requires 0 <= d <= 9
  {
    [0x30 + d]
  }

  /** The fraction in 1 / mainF, cut to two digits and, if it is subdivided, a tenth. */
  function FineDigits(x: real, f: Format): bytes
    requires 0.0 <= x < 100.0
  {
    var a, b, c := x.Floor / 10, x.Floor % 10, (x * 10.0).Floor % 10;
    if f.mainF == 8 then Digit(b) else if f.subF == 1 then Digit(a) + Digit(b) else Digit(a) + Digit(b) + Digit(c)
  }

  /** The digits behind the quote; `stale` is what an unset variable prints for a quarter price off its ticks. */
  function Fraction(part: real, f: Format, stale: bytes): Option<bytes>
    requires 0.0 <= part < 1.0
  {
    if f.mainF == 2 then Some(Digit(if part == 0.5 then 5 else 0))
    else if f.mainF == 4 then
      Some(if part == 0.0 then Digit(0) else if part == 0.25 then Digit(2) else if part == 0.5 then Digit(5)
           else if part == 0.75 then Digit(7) else stale)
    else if f.mainF == 8 || f.mainF == 16 || f.mainF == 32 || f.mainF == 64 then
      PartBelow(part, f.mainF);
      Some(FineDigits(part * f.mainF as real, f))
    else None
  }

  lemma PartBelow(part: real, mainF: int)
    requires 0.0 <= part < 1.0 && (mainF == 8 || mainF == 16 || mainF == 32 || mainF == 64)
    ensures 0.0 <= part * mainF as real < mainF as real
  {
  }

  /** editprc; `form` prints prices that have no fractional form, with the screen's printf format. */
  function EditPrice(val: real, flag: bool, display10: bool, f: Format, form: real -> bytes, stale: bytes): bytes {
    if val == 0.0 && !flag then [0x20]
    else if display10 then form(val)
    else
      var size := if val > 0.0 then val else -val;
      var whole := size.Floor;
      match Fraction(size - whole as real, f, stale)
      case None => form(val)
      case Some(digits) => (if val > 0.0 then [] else [MINUS]) + PrintNat(whole) + [APOSTROPHE] + digits
  }

  // ----- reading a price back

  /** A subdivision in 1 / n whose decimal was cut to one digit. */
  function Uncut(d: nat, n: nat): nat {
    (d * n + 9) / 10
  }

  /** The fraction digits as a number of ticks. */
  function TicksRead(d: nat, f: Format): nat
    requires f.mainF > 0 && f.subF > 0
  {
    if f.mainF == 2 || f.mainF == 4 then Uncut(d, f.mainF)
    else if f.subF == 1 then d
    else d / 10 * f.subF + Uncut(d % 10, f.subF)
  }

  /** A printed price as a number of ticks. */
  function ReadTicks(s: bytes, f: Format): int
    requires f.mainF > 0 && f.subF > 0
  {
    var start := if At(s, 0) == MINUS then 1 else 0;
    var (whole, end) := ReadDigits(s, start, 0);
    var (d, _) := ReadDigits(s, end + 1, 0);
    var ticks := whole * (f.mainF * f.subF) + TicksRead(d, f);
    if start == 1 then -ticks else ticks
  }

  // ----- the round trip

  /** The indicators with a fractional form of their own. */
  predicate Fractional(f: Format) {
    || (f.subF == 1 && (f.mainF == 2 || f.mainF == 4 || f.mainF == 8 || f.mainF == 16 || f.mainF == 32
                        || f.mainF == 64))
    || (f.mainF == 32 && (f.subF == 2 || f.subF == 4 || f.subF == 8))
    || (f.mainF == 64 && f.subF == 2)
  }

  /** What the digits of `t` ticks are, in whole numbers. */
  function TickDigits(t: nat, f: Format): bytes
    requires Fractional(f) && t < f.mainF * f.subF
  {
    var m := t / f.subF;
    if f.mainF == 2 || f.mainF == 4 then Digit(10 * t / f.mainF)
    else if f.mainF == 8 then Digit(m)
    else if f.subF == 1 then Digit(m / 10) + Digit(m % 10)
    else Digit(m / 10) + Digit(m % 10) + Digit(10 * (t % f.subF) / f.subF)
  }

  lemma FloorOf(n: nat, d: int)
    requires d == 1 || d == 2 || d == 4 || d == 8
    ensures (n as real / d as real).Floor == n / d
  {
  }

  lemma TenfoldSum(t: nat, d: nat, m: nat, j: nat, a: nat, b: nat)
    requires t == m * d + j && 10 * j == a * d + b && j < d && b < d
    ensures 10 * t == (10 * m + a) * d + b && a < 10
  {
  }

  /** The tenths of a subdivision. */
  lemma Tenths(t: nat, d: nat)
    requires d > 0
    ensures 10 * t / d % 10 == 10 * (t % d) / d < 10
  {
    var m, j := t / d, t % d;
    TenthsOf(t, d, m, j, 10 * j / d, 10 * j % d);
  }

  lemma TenthsOf(t: nat, d: nat, m: nat, j: nat, a: nat, b: nat)
    requires d > 0 && t == m * d + j && 10 * j == a * d + b && j < d && b < d
    ensures 10 * t / d % 10 == a < 10
  {
    TenfoldSum(t, d, m, j, a, b);
    RemainderUnique(10 * t, d, 10 * m + a, b);
  }

  /** Scaling a fraction by the main part leaves ticks of the subdivision. */
  lemma Scaled(t: nat, f: Format)
    requires Fractional(f) && t < f.mainF * f.subF
    ensures var part := t as real / (f.mainF * f.subF) as real;
            0.0 <= part < 1.0 && part * f.mainF as real == t as real / f.subF as real
  {
  }

  /** Dyadic fractions are exact: cutting the real number digit by digit is cutting the tick count. */
  lemma FractionOfTicks(t: nat, f: Format, stale: bytes)
    requires Fractional(f) && t < f.mainF * f.subF
    ensures var part := t as real / (f.mainF * f.subF) as real;
            0.0 <= part < 1.0 && Fraction(part, f, stale) == Some(TickDigits(t, f))
  {
    Scaled(t, f);
    if f.mainF == 2 || f.mainF == 4 {
      CoarseOfTicks(t, f, stale);
    } else {
      FineOfTicks(t, f, stale);
    }
  }

  lemma CoarseOfTicks(t: nat, f: Format, stale: bytes)
    requires Fractional(f) && t < f.mainF && f.mainF <= 4
    requires 0.0 <= t as real / f.mainF as real < 1.0
    ensures Fraction(t as real / f.mainF as real, f, stale) == Some(Digit(10 * t / f.mainF))
  {
  }

  lemma FineOfTicks(t: nat, f: Format, stale: bytes)
    requires Fractional(f) && t < f.mainF * f.subF && f.mainF > 4
    requires var part := t as real / (f.mainF * f.subF) as real;
             0.0 <= part < 1.0 && part * f.mainF as real == t as real / f.subF as real
    ensures Fraction(t as real / (f.mainF * f.subF) as real, f, stale) == Some(TickDigits(t, f))
  {
    hide FineDigits, TickDigits;
    PartBelow(t as real / (f.mainF * f.subF) as real, f.mainF);
    FineTicks(t, f);
  }

  lemma FineTicks(t: nat, f: Format)
    requires Fractional(f) && t < f.mainF * f.subF && f.mainF > 4 && 0.0 <= t as real / f.subF as real < 100.0
    ensures FineDigits(t as real / f.subF as real, f) == TickDigits(t, f)
  {
    FloorOf(t, f.subF);
    FloorOf(10 * t, f.subF);
    Tenths(t, f.subF);
    TenTimes(t, f.subF);
    hide Digit;
  }

  lemma TenTimes(t: nat, d: int)
    requires d == 1 || d == 2 || d == 4 || d == 8
    ensures t as real / d as real * 10.0 == (10 * t) as real / d as real
  {
  }

  // ----- reading the digits back

  lemma ReadOneMore(t: bytes, p: nat, acc: nat, d: nat)
    requires d <= 9 && p < |t| && t[p] == 0x30 + d
    ensures ReadDigits(t, p, acc) == ReadDigits(t, p + 1, 10 * acc + d)
  {
  }

  lemma ReadEnds(t: bytes, acc: nat)
    ensures ReadDigits(t, |t|, acc) == (acc, |t|)
  {
  }

  /** The number the digits of `t` ticks spell. */
  function Spelled(t: nat, f: Format): nat
    requires Fractional(f) && t < f.mainF * f.subF
  {
    var m := t / f.subF;
    if f.mainF == 2 || f.mainF == 4 then 10 * t / f.mainF
    else if f.subF == 1 then m
    else 10 * m + 10 * (t % f.subF) / f.subF
  }

  lemma TickDigitsSpell(text: bytes, p: nat, t: nat, f: Format)
    requires Fractional(f) && t < f.mainF * f.subF && p <= |text| && text[p..] == TickDigits(t, f)
    ensures ReadDigits(text, p, 0).0 == Spelled(t, f)
  {
    var s, m := TickDigits(t, f), t / f.subF;
    Tenths(t, f.subF);
    Tenths(t, f.mainF);
    assert m < 64 && forall i :: 0 <= i < |s| ==> text[p + i] == s[i];
    hide ReadDigits;
    ReadEnds(text, Spelled(t, f));
    if f.mainF == 2 || f.mainF == 4 {
      ReadOneMore(text, p, 0, 10 * t / f.mainF);
    } else if f.mainF == 8 {
      ReadOneMore(text, p, 0, m);
    } else {
      ReadOneMore(text, p, 0, m / 10);
      ReadOneMore(text, p + 1, m / 10, m % 10);
      if f.subF != 1 {
        ReadOneMore(text, p + 2, m, 10 * (t % f.subF) / f.subF);
      }
    }
  }

  /** No two tick counts spell the same: even the cut digit of a subdivision tells which one it was. */
  lemma SpelledReads(t: nat, f: Format)
    requires Fractional(f) && t < f.mainF * f.subF
    ensures TicksRead(Spelled(t, f), f) == t
  {
    var j := t % f.subF;
    Tenths(t, f.subF);
    assert f.subF == 2 ==> Uncut(10 * j / 2, 2) == j;
    assert f.subF == 4 ==> Uncut(10 * j / 4, 4) == j;
    assert f.subF == 8 ==> Uncut(10 * j / 8, 8) == j;
  }

  // ----- the round trip

  lemma WholePart(a: nat, u: nat)
    requires u > 0
    ensures (a as real / u as real).Floor == a / u
    ensures a as real / u as real - (a / u) as real == (a % u) as real / u as real
  {
    DividedParts(a, u, a / u, a % u);
  }

  lemma DividedParts(a: nat, u: nat, q: nat, r: nat)
    requires a == q * u + r && r < u
    ensures (a as real / u as real).Floor == q
    ensures a as real / u as real - q as real == r as real / u as real
  {
  }

  function SignOf(k: int): bytes {
    if k > 0 then [] else [MINUS]
  }

  /** The text of a price in ticks: sign, whole part, quote and the digits of the ticks left over. */
  lemma PriceIs(k: int, flag: bool, f: Format, form: real -> bytes, stale: bytes)
    requires Fractional(f) && (k != 0 || flag)
    ensures var u, a := f.mainF * f.subF, if k > 0 then k else -k;
            EditPrice(k as real / u as real, flag, false, f, form, stale)
              == SignOf(k) + PrintNat(a / u) + [APOSTROPHE] + TickDigits(a % u, f)
  {
    hide Fraction, TickDigits;
    var u := f.mainF * f.subF;
    var a: nat := if k > 0 then k else -k;
    SizeOf(k, u);
    WholePart(a, u);
    FractionOfTicks(a % u, f, stale);
  }

  lemma SizeOf(k: int, u: int)
    requires u > 0
    ensures var val := k as real / u as real;
            (val == 0.0 <==> k == 0) && (val > 0.0 <==> k > 0)
            && (if val > 0.0 then val else -val) == (if k > 0 then k else -k) as real / u as real
  {
  }

  /**
   * Every price that is a whole number of ticks can be told from its text, whatever its sign, whichever of the ten
   * fractional formats it has, and whether or not a zero is left blank.
   */
  lemma PriceReadsBack(k: int, flag: bool, f: Format, form: real -> bytes, stale: bytes)
    requires Fractional(f)
    ensures ReadTicks(EditPrice(k as real / (f.mainF * f.subF) as real, flag, false, f, form, stale), f) == k
  {
    hide EditPrice, ReadTicks;
    if k == 0 && !flag {
      BlankReadsZero(f, form, stale);
    } else {
      TextReadsBack(k, flag, f, form, stale);
    }
  }

  lemma BlankReadsZero(f: Format, form: real -> bytes, stale: bytes)
    requires Fractional(f)
    ensures ReadTicks(EditPrice(0 as real / (f.mainF * f.subF) as real, false, false, f, form, stale), f) == 0
  {
    hide Fraction;
    SizeOf(0, f.mainF * f.subF);
    assert EditPrice(0 as real / (f.mainF * f.subF) as real, false, false, f, form, stale) == [0x20];
  }

  lemma TextReadsBack(k: int, flag: bool, f: Format, form: real -> bytes, stale: bytes)
    requires Fractional(f) && (k != 0 || flag)
    ensures ReadTicks(EditPrice(k as real / (f.mainF * f.subF) as real, flag, false, f, form, stale), f) == k
  {
    hide EditPrice, Fraction, TickDigits, TicksRead, Spelled, ReadDigits;
    var u := f.mainF * f.subF;
    var a: nat := if k > 0 then k else -k;
    var q, t := a / u, a % u;
    PriceIs(k, flag, f, form, stale);
    var text := SignOf(k) + PrintNat(q) + [APOSTROPHE] + TickDigits(t, f);
    ReadParts(SignOf(k), q, TickDigits(t, f));
    TickDigitsSpell(text, |SignOf(k)| + |PrintNat(q)| + 1, t, f);
    SpelledReads(t, f);
    assert a == q * u + t;
  }

  lemma StopsAt(t: bytes, p: nat, acc: nat)
    requires p < |t| && !IsDigit(t[p])
    ensures ReadDigits(t, p, acc) == (acc, p)
  {
  }

  lemma {:induction false} ReadParts(sign: bytes, whole: nat, digits: bytes)
    requires sign == [] || sign == [MINUS]
    ensures var text := sign + PrintNat(whole) + [APOSTROPHE] + digits;
            && (At(text, 0) == MINUS <==> sign == [MINUS])
            && ReadDigits(text, |sign|, 0) == (whole, |sign| + |PrintNat(whole)|)
            && text[|sign| + |PrintNat(whole)| + 1..] == digits
  {
    hide PrintNat;
    var s := PrintNat(whole);
    var text := sign + s + [APOSTROPHE] + digits;
    assert text[|sign|..|sign| + |s|] == s;
    assert IsDigit(s[0]) && text[|sign|] == s[0];
    ReadPrinted(text, |sign|, whole);
    assert text[|sign| + |s|] == APOSTROPHE;
    StopsAt(text, |sign| + |s|, whole);
  }

  /** So two prices in ticks of the same format never print the same. */
  lemma PricesTellApart(k: int, l: int, f: Format, form: real -> bytes, stale: bytes)
    requires Fractional(f)
    requires var u := (f.mainF * f.subF) as real;
             EditPrice(k as real / u, false, false, f, form, stale)
               == EditPrice(l as real / u, false, false, f, form, stale)
    ensures k == l
  {
    PriceReadsBack(k, false, f, form, stale);
    PriceReadsBack(l, false, f, form, stale);
  }

  /** The indicators with a fractional form are exactly A to F and I to L, when no fractional format was set before. */
  lemma FractionalIndicators(f: Format, pind: bytes)
    requires !Fractional(f)
    ensures Fractional(ParsePind(f, pind)) <==> |pind| > 0 && (0x41 <= pind[0] <= 0x46 || 0x49 <= pind[0] <= 0x4C)
  {
    PowersOfTen();
  }

  lemma PowersOfTen()
    ensures forall n :: 0 <= n <= 9 ==> !Fractional(Format(Pow10(n), 1, n))
  {
  }

  /**
   * What each indicator stands for: A to F are halves to sixty-fourths, I, K and L are thirty-seconds in halves,
   * quarters and eighths, J is sixty-fourths in halves, a number is decimals, and the digits that the field has room
   * for are enough for one tick, whatever the format was before.
   */
  lemma IndicatorTicks(current: Format, pind: bytes)
    ensures var f, c := ParsePind(current, pind), At(pind, 0) as char;
            && ('A' <= c <= 'H' ==> f.subF == 1 && f.mainF == Pow2(At(pind, 0) - 0x40) == Pow2(f.zdiv))
            && (c == 'I' ==> f.mainF == 32 && f.subF == 2) && (c == 'J' ==> f.mainF == 64 && f.subF == 2)
            && (c == 'K' ==> f.mainF == 32 && f.subF == 4) && (c == 'L' ==> f.mainF == 32 && f.subF == 8)
            && ('I' <= c <= 'L' ==> f.mainF * f.subF == Pow2(f.zdiv))
            && (!('A' <= c <= 'L') ==>
                  f == if 0 <= Atoi(pind) <= 9 then Format(POWERS_OF_TEN[Atoi(pind)], 1, Atoi(pind)) else current)
  {
    Powers();
  }

  const POWERS_OF_TEN: seq<int> :=
    [1, 10, 100, 1_000, 10_000, 100_000, 1_000_000, 10_000_000, 100_000_000, 1_000_000_000]

  /** A number in front of anything but a digit is read with its sign; without a digit the field reads as nothing. */
  lemma NumberFields(n: nat, rest: bytes)
    requires !IsDigit(At(rest, 0))
    ensures Atoi(PrintNat(n) + rest) == n && Atoi([0x2B] + PrintNat(n) + rest) == n
    ensures Atoi([0x2D] + PrintNat(n) + rest) == 0 - n
    ensures Atoi(rest) == 0 || At(rest, 0) == 0x2B || At(rest, 0) == 0x2D
  {
    FieldDigits(n, [], rest);
    FieldDigits(n, [0x2B], rest);
    FieldDigits(n, [0x2D], rest);
    assert [] + PrintNat(n) + rest == PrintNat(n) + rest;
  }

  lemma FieldDigits(n: nat, sign: bytes, rest: bytes)
    requires !IsDigit(At(rest, 0)) && |sign| <= 1
    ensures ReadDigits(sign + PrintNat(n) + rest, |sign|, 0).0 == n
    ensures |sign| == 1 ==> At(sign + PrintNat(n) + rest, 0) == sign[0]
    ensures sign == [] ==> IsDigit(At(sign + PrintNat(n) + rest, 0))
  {
    var t, e := sign + PrintNat(n) + rest, |sign| + |PrintNat(n)|;
    assert t[|sign|..e] == PrintNat(n);
    ReadPrinted(t, |sign|, n);
    assert At(t, e) == At(rest, 0);
    assert sign == [] ==> t[0] == PrintNat(n)[0];
  }

  lemma Powers()
    ensures Pow2(1) == 2 && Pow2(2) == 4 && Pow2(3) == 8 && Pow2(4) == 16 && Pow2(5) == 32 && Pow2(6) == 64
    ensures Pow2(7) == 128 && Pow2(8) == 256
    ensures forall n :: 0 <= n <= 9 ==> Pow10(n) == POWERS_OF_TEN[n]
  {
    assert Pow10(3) == 1_000 && Pow10(6) == 1_000_000;
    assert Pow10(7) == 10_000_000 && Pow10(8) == 100_000_000 && Pow10(9) == 1_000_000_000;
  }
}
