/**
 * String literals as a grammar, with its own hexadecimal digits, its own table of escapes and surrogate pairs read off
 * the code point (section 7 of RFC 8259), and the proof that skip_quotes and process_string accept exactly these.
 */
module JsonLiterals {
  import opened Bytes
  import opened JsonText
  import opened JsonParse
  import opened JsonStrings

  // ----- the grammar

  /** The byte is hexadecimal digit `d`, in either case. */
  predicate HexAs(c: byte, d: nat) {
    if d < 10 then c == 0x30 + d else d < 16 && (c == 0x41 + d - 10 || c == 0x61 + d - 10)
  }

  predicate Hex4As(t: bytes, p: nat, u: nat) {
    && u < 0x10000 && p + 4 <= |t|
    && HexAs(t[p], u / 0x1000) && HexAs(t[p + 1], u / 0x100 % 0x10)
    && HexAs(t[p + 2], u / 0x10 % 0x10) && HexAs(t[p + 3], u % 0x10)
  }

  /** A backslash, a small u and four digits. */
  predicate Escape16(t: bytes, p: nat, u: nat) {
    p + 6 <= |t| && t[p] == 0x5C && t[p + 1] == 0x75 && Hex4As(t, p + 2, u)
  }

  predicate IsSurrogate(u: nat) {
    0xD800 <= u < 0xE000
  }

  /** The code point `cp` written as one escape, or as two when it does not fit 16 bits. */
  predicate EscapedCp(t: bytes, p: nat, q: nat, cp: nat) {
    || (q == p + 6 && !IsSurrogate(cp) && Escape16(t, p, cp))
    || (q == p + 12 && 0x10000 <= cp <= 0x10FFFF
        && Escape16(t, p, 0xD800 + (cp - 0x10000) / 0x400) && Escape16(t, p + 6, 0xDC00 + (cp - 0x10000) % 0x400))
  }

  /** The letter behind the backslash and the byte it stands for. */
  predicate Short(c: byte, b: byte) {
    || (c == b && (c == 0x22 || c == 0x5C || c == 0x2F))
    || (c == 0x62 && b == 0x08) || (c == 0x66 && b == 0x0C) || (c == 0x6E && b == 0x0A)
    || (c == 0x72 && b == 0x0D) || (c == 0x74 && b == 0x09)
  }

  /** The text from `p` to `q` is one character of a literal and stands for the bytes `u`. */
  ghost predicate Unit(t: bytes, p: nat, q: nat, u: bytes) {
    || (p < |t| && q == p + 1 && t[p] >= 0x20 && t[p] != 0x22 && t[p] != 0x5C && u == [t[p]])
    || (p + 1 < |t| && q == p + 2 && t[p] == 0x5C && |u| == 1 && Short(t[p + 1], u[0]))
    || exists cp: nat :: EscapedCp(t, p, q, cp) && cp <= 0x10FFFF && u == EncodeUtf8(cp)
  }

  /** The text from `p` to `e` spells the bytes `s`, character by character. */
  ghost predicate Spells(t: bytes, p: nat, e: nat, s: bytes)
    decreases e - p
  {
    if p >= e then p == e && s == []
    else exists q: nat, u: bytes :: Unit(t, p, q, u) && p < q <= e && u <= s && Spells(t, q, e, s[|u|..])
  }

  /** The text from `p` to `e` is a string literal with the value `s`. */
  ghost predicate Literal(t: bytes, p: nat, e: nat, s: bytes) {
    p + 2 <= e <= |t| && t[p] == 0x22 && t[e - 1] == 0x22 && Spells(t, p + 1, e - 1, s)
  }

  // ----- hexadecimal digits and surrogate pairs

  lemma HexIs(c: byte, d: nat)
    ensures HexValue(c) == Some(d) <==> HexAs(c, d)
  {
  }

  /** parse_utf16_hex reads exactly the four digits of a number. */
  lemma Hex4Is(t: bytes, p: nat, u: nat)
    ensures Hex4(t, p) == Some(u) <==> Hex4As(t, p, u)
  {
    hide HexValue, HexAs, Hex4;
    HexCases(t, p);
    DigitsInside(t, p);
    if u < 0x10000 {
      HexIs(At(t, p), u / 0x1000);
      HexIs(At(t, p + 1), u / 0x100 % 0x10);
      HexIs(At(t, p + 2), u / 0x10 % 0x10);
      HexIs(At(t, p + 3), u % 0x10);
      SplitDigits(u);
    }
    if Hex4(t, p).Some? {
      var a, b := HexValue(At(t, p)).value, HexValue(At(t, p + 1)).value;
      var c, d := HexValue(At(t, p + 2)).value, HexValue(At(t, p + 3)).value;
      FourDigits(a, b, c, d, Hex4(t, p).value);
    }
  }

  lemma DigitsInside(t: bytes, p: nat)
    ensures Hex4(t, p).Some? ==> Hex4(t, p).value < 0x10000 && p + 4 <= |t|
  {
  }

  lemma SplitDigits(u: nat)
    ensures u == u / 0x1000 * 0x1000 + u / 0x100 % 0x10 * 0x100 + u / 0x10 % 0x10 * 0x10 + u % 0x10
  {
    assert u / 0x10 / 0x10 == u / 0x100 && u / 0x100 / 0x10 == u / 0x1000;
  }

  lemma FourDigits(a: nat, b: nat, c: nat, d: nat, u: nat)
    requires a < 16 && b < 16 && c < 16 && d < 16 && u == a * 0x1000 + b * 0x100 + c * 0x10 + d
    ensures u / 0x1000 == a && u / 0x100 % 0x10 == b && u / 0x10 % 0x10 == c && u % 0x10 == d
  {
    assert u / 0x10 == a * 0x100 + b * 0x10 + c && u / 0x100 == a * 0x10 + b;
  }

  /** The two halves of a pair are those of the code point. */
  lemma PairIs(lead: nat, trail: nat, cp: nat)
    ensures IsLead(lead) && IsTrail(trail) && Combine(lead, trail) == cp <==>
              0x10000 <= cp <= 0x10FFFF
              && lead == 0xD800 + (cp - 0x10000) / 0x400 && trail == 0xDC00 + (cp - 0x10000) % 0x400
  {
  }

  // ----- one character

  /** parse_utf16 accepts exactly the escaped code points. */
  lemma EscapeIs(t: bytes, p: nat, q: nat, cp: nat)
    requires p < |t| && t[p] == 0x5C && At(t, p + 1) == 0x75
    ensures ParseUtf16(t, p + 1) == Parsed(cp, q) <==> EscapedCp(t, p, q, cp)
  {
    hide Hex4As, Hex4;
    var u := Hex4(t, p + 2);
    Hex4Is(t, p + 2, cp);
    if u.Some? && IsLead(u.value) {
      hide ParseUtf16, EscapedCp;
      PairEscapeIs(t, p, q, cp);
    } else if 0x10000 <= cp <= 0x10FFFF {
      Hex4Is(t, p + 2, 0xD800 + (cp - 0x10000) / 0x400);
      HalfIsLead(cp);
    }
  }

  lemma HalfIsLead(cp: nat)
    requires 0x10000 <= cp <= 0x10FFFF
    ensures IsLead(0xD800 + (cp - 0x10000) / 0x400)
  {
  }

  lemma PairEscapeIs(t: bytes, p: nat, q: nat, cp: nat)
    requires p < |t| && t[p] == 0x5C && At(t, p + 1) == 0x75
    requires Hex4(t, p + 2).Some? && IsLead(Hex4(t, p + 2).value)
    ensures ParseUtf16(t, p + 1) == Parsed(cp, q) <==> EscapedCp(t, p, q, cp)
  {
    hide Hex4As, Hex4, Combine;
    var u, w := Hex4(t, p + 2).value, Hex4(t, p + 8);
    Hex4Is(t, p + 2, u);
    Hex4Is(t, p + 2, cp);
    if w.Some? {
      DigitsInside(t, p + 8);
      Hex4Is(t, p + 8, w.value);
      PairIs(u, w.value, cp);
    }
    if 0x10000 <= cp <= 0x10FFFF {
      Hex4Is(t, p + 2, 0xD800 + (cp - 0x10000) / 0x400);
      Hex4Is(t, p + 8, 0xDC00 + (cp - 0x10000) % 0x400);
    }
  }

  /** Every code point outside the surrogates up to 0xFFFF, from its single escape, in either letter case. */
  lemma SingleEscape(t: bytes, p: nat, cp: nat)
    requires cp < 0x10000 && !IsSurrogate(cp) && Escape16(t, p, cp)
    ensures UnescapeOne(t, p) == Parsed(EncodeUtf8(cp), p + 6)
  {
    EscapeIs(t, p, p + 6, cp);
    hide ParseUtf16, EncodeUtf8, Hex4As;
  }

  /** Every code point above 0xFFFF, from the two escapes of its halves. */
  lemma PairOfEscapes(t: bytes, p: nat, cp: nat)
    requires 0x10000 <= cp <= 0x10FFFF && Escape16(t, p, 0xD800 + (cp - 0x10000) / 0x400)
    requires Escape16(t, p + 6, 0xDC00 + (cp - 0x10000) % 0x400)
    ensures UnescapeOne(t, p) == Parsed(EncodeUtf8(cp), p + 12)
  {
    EscapeIs(t, p, p + 12, cp);
    hide ParseUtf16, EncodeUtf8, Hex4As;
  }

  lemma ShortIs(c: byte, b: byte)
    ensures SimpleEscape(c) == Some(b) <==> Short(c, b)
  {
  }

  /** One turn of process_string consumes exactly one character of a literal, and yields what it stands for. */
  lemma UnitIs(t: bytes, p: nat, q: nat, u: bytes)
    requires p < |t| && t[p] != 0x22
    ensures UnescapeOne(t, p) == Parsed(u, q) <==> Unit(t, p, q, u)
  {
    if t[p] == 0x5C {
      if At(t, p + 1) == 0x75 {
        EscapedUnit(t, p, q, u);
      } else {
        ShortUnit(t, p, q, u);
      }
    }
  }

  lemma ShortUnit(t: bytes, p: nat, q: nat, u: bytes)
    requires p < |t| && t[p] == 0x5C && At(t, p + 1) != 0x75
    ensures UnescapeOne(t, p) == Parsed(u, q) <==> Unit(t, p, q, u)
  {
    var e := At(t, p + 1);
    if SimpleEscape(e).Some? {
      ShortIs(e, SimpleEscape(e).value);
    }
    if |u| == 1 {
      ShortIs(e, u[0]);
    }
    hide SimpleEscape, Short, EncodeUtf8, ParseUtf16;
    assert |u| == 1 ==> u == [u[0]];
  }

  lemma EscapedUnit(t: bytes, p: nat, q: nat, u: bytes)
    requires p < |t| && t[p] == 0x5C && At(t, p + 1) == 0x75
    ensures UnescapeOne(t, p) == Parsed(u, q) <==> Unit(t, p, q, u)
  {
    var r := ParseUtf16(t, p + 1);
    if r.Parsed? {
      EscapeIs(t, p, r.end, r.value);
    }
    forall cp: nat | EscapedCp(t, p, q, cp) ensures r == Parsed(cp, q) {
      EscapeIs(t, p, q, cp);
    }
    hide ParseUtf16, EscapedCp, EncodeUtf8, SimpleEscape;
    if |u| == 1 {
      assert !Short(0x75, u[0]);
    }
  }

  // ----- whole literals

  lemma {:induction false} SpelledIsRead(t: bytes, p: nat, e: nat, s: bytes)
    requires Spells(t, p, e, s) && p <= e < |t| && t[e] == 0x22
    ensures SkipQuoted(t, p) == Some(e + 1) && Process(t, p, e) == Parsed(s, e)
    decreases e - p
  {
    hide Unit, UnescapeOne, SkipQuoted, Process;
    if p < e {
      var q: nat, u: bytes :| Unit(t, p, q, u) && p < q <= e && u <= s && Spells(t, q, e, s[|u|..]);
      UnitStarts(t, p, q, u);
      UnitIs(t, p, q, u);
      SpelledIsRead(t, q, e, s[|u|..]);
      SkipFollows(t, p);
      ReadOne(t, p, e);
      assert s == u + s[|u|..];
    } else {
      AtQuote(t, p);
    }
  }

  /** One turn of the loop of process_string. */
  lemma ReadOne(t: bytes, p: nat, e: nat)
    requires p < |t| && p < e && t[p] != NUL && UnescapeOne(t, p).Parsed?
    ensures Process(t, p, e) == Prepend(UnescapeOne(t, p).value, Process(t, UnescapeOne(t, p).end, e))
  {
    hide UnescapeOne;
  }

  lemma AtQuote(t: bytes, p: nat)
    requires p < |t| && t[p] == 0x22
    ensures SkipQuoted(t, p) == Some(p + 1) && Process(t, p, p) == Parsed([], p)
  {
  }

  lemma UnitStarts(t: bytes, p: nat, q: nat, u: bytes)
    requires Unit(t, p, q, u)
    ensures p < |t| && t[p] != 0x22 && t[p] != NUL
  {
  }

  lemma {:induction false} ReadIsSpelled(t: bytes, p: nat, e: nat)
    requires p <= e < |t| && SkipQuoted(t, p) == Some(e + 1) && Process(t, p, e).Parsed?
    ensures Spells(t, p, e, Process(t, p, e).value)
    decreases e - p
  {
    if p < e {
      QuoteIsLast(t, p);
      UnescapeBelow(t, p, e);
      var r := UnescapeOne(t, p);
      SkipFollows(t, p);
      ReadIsSpelled(t, r.end, e);
      UnitIs(t, p, r.end, r.value);
      hide Unit, UnescapeOne, SkipQuoted;
      var s := Process(t, p, e).value;
      assert r.value <= s && s[|r.value|..] == Process(t, r.end, e).value;
      assert Unit(t, p, r.end, r.value);
    }
  }

  /** get_quoted_string accepts exactly the string literals, wherever they stand, and returns their values. */
  lemma LiteralsAreRead(t: bytes, p: nat, e: nat, s: bytes)
    ensures GetQuoted(t, p) == Parsed(s, e) <==> Literal(t, p, e, s)
  {
    hide Spells, Process;
    if Literal(t, p, e, s) {
      SpelledIsRead(t, p + 1, e - 1, s);
    }
    if GetQuoted(t, p) == Parsed(s, e) {
      QuotedIsBounded(t, p);
      ReadIsSpelled(t, p + 1, e - 1);
    }
  }
}
