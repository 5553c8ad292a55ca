/** Parsing undoes printing. */
module JsonRoundTrip {
  import opened Bytes
  import opened JsonValue
  import opened JsonText
  import opened JsonParse

  // ----- pieces of text

  lemma SplitText(t: bytes, p: nat, a: bytes, b: bytes)
    requires StartsWith(t, p, a + b)
    ensures StartsWith(t, p, a) && StartsWith(t, p + |a|, b)
  {
    assert t[p..p + |a|] == t[p..p + |a + b|][..|a|];
    assert t[p + |a|..p + |a| + |b|] == t[p..p + |a + b|][|a|..];
  }

  lemma AtText(t: bytes, p: nat, a: bytes, i: nat)
    requires StartsWith(t, p, a) && i < |a|
    ensures p + i < |t| && At(t, p + i) == t[p + i] == a[i]
  {
    assert t[p + i] == t[p..p + |a|][i];
  }

  // ----- strings

  /** Skipping one escaped byte leads to the next one. */
  lemma SkipOne(t: bytes, q: nat, c: byte, slashes: bool)
    requires StartsWith(t, q, EscapeByte(c, slashes))
    ensures SkipQuoted(t, q) == SkipQuoted(t, q + |EscapeByte(c, slashes)|)
  {
    var e := EscapeByte(c, slashes);
    EscapedBytes(t, q, e);
    assert |e| == 1 ==> e[0] != QUOTE && e[0] != BACKSLASH;
    assert |e| > 1 ==> e[0] == BACKSLASH && e[1] != NUL && (|e| == 2 || (|e| == 6 && PlainBytes(e[2..])));
    hide EscapeByte, StartsWith;
    if |e| == 1 {
      SkipPlain(t, q);
    } else if |e| == 6 {
      assert e[2..] == [e[2], e[3], e[4], e[5]];
      SkipPlain(t, q + 2);
      SkipPlain(t, q + 3);
      SkipPlain(t, q + 4);
      SkipPlain(t, q + 5);
    }
  }

  lemma EscapedBytes(t: bytes, q: nat, e: bytes)
    requires StartsWith(t, q, e) && 1 <= |e| <= 6
    ensures At(t, q) == e[0] && (|e| > 1 ==> At(t, q + 1) == e[1])
    ensures |e| == 6 ==> At(t, q + 2) == e[2] && At(t, q + 3) == e[3] && At(t, q + 4) == e[4] && At(t, q + 5) == e[5]
  {
  }

  predicate PlainBytes(s: bytes) {
    forall i :: 0 <= i < |s| ==> s[i] != QUOTE && s[i] != BACKSLASH && s[i] != NUL
  }

  lemma SkipPlain(t: bytes, q: nat)
    ensures At(t, q) != QUOTE && At(t, q) != NUL && At(t, q) != BACKSLASH ==> SkipQuoted(t, q) == SkipQuoted(t, q + 1)
  {
  }

  /** skip_quotes runs over an escaped string to its closing quote. */
  lemma {:induction false} SkipEscaped(t: bytes, q: nat, s: bytes, slashes: bool)
    requires StartsWith(t, q, Escape(s, slashes) + [QUOTE])
    ensures SkipQuoted(t, q) == Some(q + |Escape(s, slashes)| + 1)
    decreases s
  {
    hide EscapeByte, StartsWith;
    if |s| == 0 {
      assert Escape(s, slashes) + [QUOTE] == [QUOTE];
      AtText(t, q, [QUOTE], 0);
    } else {
      var e, rest := EscapeByte(s[0], slashes), Escape(s[1..], slashes) + [QUOTE];
      assert Escape(s, slashes) + [QUOTE] == e + rest;
      SplitText(t, q, e, rest);
      SkipOne(t, q, s[0], slashes);
      SkipEscaped(t, q + |e|, s[1..], slashes);
    }
  }

  /** One turn of process_string gives back the escaped byte. */
  lemma UnescapeEscaped(t: bytes, q: nat, c: byte, slashes: bool)
    requires StartsWith(t, q, EscapeByte(c, slashes))
    ensures q < |t| && t[q] != NUL
    ensures UnescapeOne(t, q) == Parsed([c], q + |EscapeByte(c, slashes)|)
  {
    var e := EscapeByte(c, slashes);
    AtText(t, q, e, 0);
    if |e| == 2 {
      AtText(t, q, e, 1);
    } else if |e| == 6 {
      UnescapeHex(t, q, c);
    }
  }

  lemma UnescapeHex(t: bytes, q: nat, c: byte)
    requires c < 0x20 && StartsWith(t, q, [BACKSLASH, LOWER_U, 0x30, 0x30, HexDigit(c / 16), HexDigit(c % 16)])
    ensures UnescapeOne(t, q) == Parsed([c], q + 6)
  {
    hide HexDigit, StartsWith;
    var e := [BACKSLASH, LOWER_U, 0x30, 0x30, HexDigit(c / 16), HexDigit(c % 16)];
    AtText(t, q, e, 0);
    AtText(t, q, e, 1);
    AtText(t, q, e, 2);
    AtText(t, q, e, 3);
    AtText(t, q, e, 4);
    AtText(t, q, e, 5);
    HexOfDigit(c / 16);
    HexOfDigit(c % 16);
    assert Hex4(t, q + 2) == Some(c);
  }

  lemma HexOfDigit(d: nat)
    requires d < 16
    ensures HexValue(HexDigit(d)) == Some(d)
  {
  }

  lemma {:induction false} ProcessEscaped(t: bytes, q: nat, s: bytes, slashes: bool)
    requires StartsWith(t, q, Escape(s, slashes))
    ensures Process(t, q, q + |Escape(s, slashes)|) == Parsed(s, q + |Escape(s, slashes)|)
    decreases s
  {
    hide EscapeByte, StartsWith, UnescapeOne;
    if |s| > 0 {
      var e, rest := EscapeByte(s[0], slashes), Escape(s[1..], slashes);
      SplitText(t, q, e, rest);
      UnescapeEscaped(t, q, s[0], slashes);
      ProcessEscaped(t, q + |e|, s[1..], slashes);
      assert s == [s[0]] + s[1..];
    }
  }

  /** Unescaping inverts escaping, for every byte string and both slash settings. */
  lemma QuotedRoundTrips(t: bytes, p: nat, s: bytes, slashes: bool)
    requires StartsWith(t, p, Quoted(s, slashes))
    ensures GetQuoted(t, p) == Parsed(s, p + |Quoted(s, slashes)|)
    ensures At(t, p) == QUOTE
  {
    hide StartsWith, Escape, SkipQuoted, Process;
    var e := Escape(s, slashes);
    assert Quoted(s, slashes) == [QUOTE] + (e + [QUOTE]);
    SplitText(t, p, [QUOTE], e + [QUOTE]);
    AtText(t, p, [QUOTE], 0);
    SkipEscaped(t, p + 1, s, slashes);
    SplitText(t, p + 1, e, [QUOTE]);
    ProcessEscaped(t, p + 1, s, slashes);
  }

  // ----- white space

  lemma {:induction false} SkipRun(t: bytes, p: nat, r: nat)
    requires p <= r <= |t|
    requires forall i :: p <= i < r ==> IsSpace(t[i])
    requires !IsSpace(At(t, r))
    ensures SkipSpaces(t, p) == r
    decreases r - p
  {
  }

  lemma {:induction false} IndentIsSpace(level: nat)
    ensures forall i :: 0 <= i < |Indent(level)| ==> IsSpace(Indent(level)[i])
  {
    if level > 0 {
      IndentIsSpace(level - 1);
    }
  }

  /** The gap in front of a part is skipped, whatever stops the skipping. */
  lemma SkipGap(t: bytes, p: nat, level: nat, style: Style)
    requires StartsWith(t, p, Gap(level, style)) && !IsSpace(At(t, p + |Gap(level, style)|))
    ensures SkipSpaces(t, p) == p + |Gap(level, style)|
  {
    var g := Gap(level, style);
    IndentIsSpace(level);
    forall i | p <= i < p + |g| ensures IsSpace(t[i]) {
      AtText(t, p, g, i - p);
    }
    SkipRun(t, p, p + |g|);
  }

  // ----- values

  /** The value lies within the nesting that the parser accepts when it starts at depth `nesting`. */
  ghost predicate Fits(v: Value, nesting: nat)
    decreases v
  {
    nesting <= MAX_NESTING &&
    match v
    case Array(items) => forall i :: 0 <= i < |items| ==> Fits(items[i], nesting + 1)
    case Object(members) => forall i :: 0 <= i < |members| ==> Fits(members[i].value, nesting + 1)
    case _ => true
  }

  /** What can come directly behind a printed value. */
  predicate Follows(t: bytes, p: nat) {
    p <= |t| && EndsNumber(t[p..])
  }

  /** The first byte of a printed value selects its parser; it is no space and ends no container. */
  lemma FirstByte(t: bytes, p: nat, v: Value, level: nat, style: Style)
    requires StartsWith(t, p, Print(v, level, style)) && NumbersRoundTrip(v, style.numbers)
    ensures var c := At(t, p);
            && p < |t| && !IsSpace(c) && c != NUL && c != RBRACKET && c != RBRACE
            && (v.Array? ==> c == LBRACKET) && (v.Object? ==> c == LBRACE) && (v.String? ==> c == QUOTE)
            && (v.Number? ==> c == MINUS || IsDigit(c))
            && (v.Null? ==> c == 0x6E) && (v.Boolean? ==> c == if v.b then 0x74 else 0x66)
  {
    var s := Print(v, level, style);
    assert |s| > 0;
    AtText(t, p, s, 0);
  }

  ghost predicate ItemsFit(items: seq<Value>, k: nat, nesting: nat) {
    forall i :: k <= i < |items| ==> Fits(items[i], nesting)
  }

  ghost predicate MembersFit(ms: seq<Member>, k: nat, nesting: nat) {
    forall i :: k <= i < |ms| ==> Fits(ms[i].value, nesting)
  }

  ghost function Expected(v: Value, fits: bool, end: nat): Parsed<Value> {
    if fits then Parsed(v, end) else Refused
  }

  /**
   * The central lemma: on the printed form of a value, anywhere in a text, the parser returns that value and
   * stops right behind it when the value fits the nesting limit, and refuses the text when it does not. Only behind
   * a number must the text not go on like a number.
   */
  lemma {:induction false} ParsePrinted(t: bytes, p: nat, v: Value, level: nat, nesting: nat, style: Style)
    requires WellFormed(v) && NumbersRoundTrip(v, style.numbers)
    requires StartsWith(t, p, Print(v, level, style))
    requires v.Number? ==> Follows(t, p + |Print(v, level, style)|)
    ensures ParseValue(t, p, nesting, style.numbers) == Expected(v, Fits(v, nesting), p + |Print(v, level, style)|)
    decreases v, 1
  {
    hide SkipSpaces, ParseArray, ParseObject, PrintItems, PrintMembers, Gap, Quoted, GetQuoted, Fits, EndsNumber;
    FirstByte(t, p, v, level, style);
    SkipRun(t, p, p);
    FitsScalar(v, nesting);
    if nesting <= MAX_NESTING {
      match v {
        case Null =>
        case Boolean(b) =>
          if b { AtText(t, p, TRUE_TEXT, 0); } else { AtText(t, p, FALSE_TEXT, 0); }
          BooleanText(t, p, b);
        case Number(n) => NumberText(t, p, n, style.numbers);
        case String(s) => QuotedRoundTrips(t, p, s, style.escapeSlashes);
        case Array(items) =>
          if |items| == 0 {
            EmptyArray(t, p, level, nesting + 1, style);
          } else {
            ParsePrintedArray(t, p, v, level, nesting, style);
          }
        case Object(members) =>
          if |members| == 0 {
            EmptyObject(t, p, level, nesting + 1, style);
          } else {
            ParsePrintedObject(t, p, v, level, nesting, style);
          }
      }
    }
  }

  lemma FitsScalar(v: Value, nesting: nat)
    ensures nesting > MAX_NESTING ==> !Fits(v, nesting)
    ensures nesting <= MAX_NESTING && !v.Array? && !v.Object? ==> Fits(v, nesting)
    ensures nesting <= MAX_NESTING && (v == Array([]) || v == Object([])) ==> Fits(v, nesting)
  {
  }

  lemma BooleanText(t: bytes, p: nat, b: bool)
    requires StartsWith(t, p, if b then TRUE_TEXT else FALSE_TEXT)
    ensures StartsWith(t, p, TRUE_TEXT) == b
  {
    if !b {
      AtText(t, p, FALSE_TEXT, 0);
      if StartsWith(t, p, TRUE_TEXT) {
        AtText(t, p, TRUE_TEXT, 0);
      }
    }
  }

  lemma NumberText(t: bytes, p: nat, n: real, nt: NumberText)
    requires NumberRoundTrips(nt, n)
    requires StartsWith(t, p, nt.format(n)) && Follows(t, p + |nt.format(n)|)
    ensures ParseNumber(t, p, nt) == Parsed(Number(n), p + |nt.format(n)|)
  {
    var s := nt.format(n);
    assert t[p..] == s + t[p + |s|..];
  }

  /** An opening bracket, what follows a gap, and the way `Print` splits around it. */
  lemma ContainerText(t: bytes, p: nat, open: byte, g: bytes, body: bytes, g': bytes, close: byte)
    requires StartsWith(t, p, [open] + g + body + g' + [close])
    ensures At(t, p) == open && StartsWith(t, p + 1, g) && StartsWith(t, p + 1 + |g|, body)
    ensures StartsWith(t, p + 1 + |g| + |body|, g') && StartsWith(t, p + 1 + |g| + |body| + |g'|, [close])
  {
    SplitText(t, p, [open] + g + body + g', [close]);
    SplitText(t, p, [open] + g + body, g');
    SplitText(t, p, [open] + g, body);
    SplitText(t, p, [open], g);
    AtText(t, p, [open], 0);
  }

  /** Behind the last part comes the gap, if any, and the closing bracket. */
  lemma AfterParts(t: bytes, e: nat, level: nat, style: Style, close: byte)
    requires close == RBRACKET || close == RBRACE
    requires StartsWith(t, e, Gap(level, style)) && StartsWith(t, e + |Gap(level, style)|, [close])
    ensures var r := e + |Gap(level, style)|;
            Follows(t, e) && At(t, e) != COMMA && SkipSpaces(t, e) == r < |t| && t[r] == close
  {
    var g := Gap(level, style);
    AtText(t, e + |g|, [close], 0);
    SkipGap(t, e, level, style);
    if |g| > 0 {
      AtText(t, e, g, 0);
    }
  }

  lemma ArrayText(v: Value, level: nat, style: Style)
    requires v.Array? && |v.items| > 0
    ensures Print(v, level, style)
            == [LBRACKET] + Gap(level + 1, style) + PrintItems(v.items, level, style) + Gap(level, style) + [RBRACKET]
  {
  }

  lemma ArrayPieces(t: bytes, p: nat, v: Value, level: nat, style: Style, q: nat, e: nat, r: nat)
    requires v.Array? && |v.items| > 0 && StartsWith(t, p, Print(v, level, style))
    requires q == p + 1 + |Gap(level + 1, style)|
    requires e == q + |PrintItems(v.items, level, style)|
    requires r == e + |Gap(level, style)|
    ensures At(t, p) == LBRACKET && p < |t| && r + 1 == p + |Print(v, level, style)|
    ensures StartsWith(t, p + 1, Gap(level + 1, style)) && StartsWith(t, q, PrintItems(v.items, level, style))
    ensures StartsWith(t, e, Gap(level, style)) && StartsWith(t, r, [RBRACKET])
  {
    hide Print, PrintItems, Gap, StartsWith;
    var g, body, g' := Gap(level + 1, style), PrintItems(v.items, level, style), Gap(level, style);
    ArrayText(v, level, style);
    ContainerText(t, p, LBRACKET, g, body, g', RBRACKET);
  }

  /** Where the parts of a printed, non-empty array lie: from `q` to `e`, with the closing bracket at `r`. */
  lemma ArrayParts(t: bytes, p: nat, v: Value, level: nat, style: Style, q: nat, e: nat, r: nat)
    requires v.Array? && |v.items| > 0 && NumbersRoundTrip(v.items[0], style.numbers)
    requires StartsWith(t, p, Print(v, level, style))
    requires q == p + 1 + |Gap(level + 1, style)|
    requires e == q + |PrintItems(v.items, level, style)|
    requires r == e + |Gap(level, style)|
    ensures p < |t| && t[p] == LBRACKET && SkipSpaces(t, p + 1) == q < |t|
    ensures StartsWith(t, q, PrintItems(v.items, level, style))
    ensures At(t, q) != NUL && At(t, q) != RBRACKET
    ensures Follows(t, e) && At(t, e) != COMMA && SkipSpaces(t, e) == r < |t| && t[r] == RBRACKET
    ensures r + 1 == p + |Print(v, level, style)|
  {
    hide Print, PrintItems, Gap, StartsWith, SkipSpaces, NumbersRoundTrip;
    ArrayPieces(t, p, v, level, style, q, e, r);
    FirstItem(t, q, v.items, level, style);
    SkipGap(t, p + 1, level + 1, style);
    AfterParts(t, e, level, style, RBRACKET);
  }

  lemma EmptyArray(t: bytes, p: nat, level: nat, nesting: nat, style: Style)
    requires StartsWith(t, p, [LBRACKET, RBRACKET])
    ensures p < |t| && t[p] == LBRACKET
    ensures ParseArray(t, p, nesting, style.numbers) == Parsed(Array([]), p + 2)
  {
  }

  lemma ArrayFits(v: Value, nesting: nat)
    requires v.Array? && nesting <= MAX_NESTING
    ensures Fits(v, nesting) == ItemsFit(v.items, 0, nesting + 1)
  {
  }

  lemma {:induction false} ParsePrintedArray(t: bytes, p: nat, v: Value, level: nat, nesting: nat, style: Style)
    requires v.Array? && |v.items| > 0 && WellFormed(v) && NumbersRoundTrip(v, style.numbers) && nesting <= MAX_NESTING
    requires StartsWith(t, p, Print(v, level, style))
    ensures p < |t| && t[p] == LBRACKET
    ensures ParseArray(t, p, nesting + 1, style.numbers) == Expected(v, Fits(v, nesting), p + |Print(v, level, style)|)
    decreases v, 0
  {
    hide Fits, ItemsFit, StartsWith, PrintItems, Gap, SkipSpaces, ParseArray, Print, EndsNumber, At, IsSpace;
    var q := p + 1 + |Gap(level + 1, style)|;
    ArrayFits(v, nesting);
    var e := q + |PrintItems(v.items, level, style)|;
    var r := e + |Gap(level, style)|;
    ArrayParts(t, p, v, level, style, q, e, r);
    ArrayStep(t, p, nesting + 1, style.numbers);
    assert v.items[0..] == v.items && v.items[..0] == [];
    ParsePrintedItems(t, q, v.items, 0, level, nesting + 1, style, r);
  }

  lemma CommaFollows(t: bytes, e: nat)
    requires e < |t| && At(t, e) == COMMA
    ensures Follows(t, e) && SkipSpaces(t, e) == e
  {
    SkipRun(t, e, e);
  }

  /** A printed part, a comma, a gap and the remaining parts. */
  lemma PartsText(t: bytes, q: nat, a: bytes, g: bytes, rest: bytes)
    requires StartsWith(t, q, a + ([COMMA] + g + rest))
    ensures StartsWith(t, q, a) && At(t, q + |a|) == COMMA && q + |a| < |t|
    ensures StartsWith(t, q + |a| + 1, g) && StartsWith(t, q + |a| + 1 + |g|, rest)
  {
    SplitText(t, q, a, [COMMA] + g + rest);
    SplitText(t, q + |a|, [COMMA] + g, rest);
    SplitText(t, q + |a|, [COMMA], g);
    AtText(t, q + |a|, [COMMA], 0);
  }

  lemma FirstItem(t: bytes, q: nat, items: seq<Value>, level: nat, style: Style)
    requires |items| > 0 && NumbersRoundTrip(items[0], style.numbers)
    requires StartsWith(t, q, PrintItems(items, level, style))
    ensures StartsWith(t, q, Print(items[0], level + 1, style))
    ensures q < |t| && !IsSpace(At(t, q)) && At(t, q) != RBRACKET && At(t, q) != NUL
  {
    hide StartsWith, Print, Gap;
    if |items| > 1 {
      PartsText(t, q, Print(items[0], level + 1, style), Gap(level + 1, style), PrintItems(items[1..], level, style));
    }
    FirstByte(t, q, items[0], level + 1, style);
  }

  lemma {:induction false} ParsePrintedItems(t: bytes, q: nat, items: seq<Value>, k: nat, level: nat, nesting: nat,
                                             style: Style, r: nat)
    requires k < |items|
    requires forall i :: 0 <= i < |items| ==> WellFormed(items[i]) && NumbersRoundTrip(items[i], style.numbers)
    requires StartsWith(t, q, PrintItems(items[k..], level, style))
    requires var e := q + |PrintItems(items[k..], level, style)|;
             Follows(t, e) && At(t, e) != COMMA && SkipSpaces(t, e) == r < |t| && t[r] == RBRACKET
    ensures ParseItems(t, q, nesting, style.numbers, items[..k])
            == Expected(Array(items), ItemsFit(items, k, nesting), r + 1)
    decreases items, |items| - k
  {
    hide Print, StartsWith, SkipSpaces, ParseItems, Gap, EndsNumber, At, Fits, WellFormed, NumbersRoundTrip;
    var rest := items[k..];
    var a, g := Print(items[k], level + 1, style), Gap(level + 1, style);
    var e := q + |a|;
    FirstItem(t, q, rest, level, style);
    if |rest| == 1 {
      assert PrintItems(rest, level, style) == a;
      LastItem(t, q, items, level, nesting, style, r);
    } else {
      var more := PrintItems(items[k + 1..], level, style);
      assert rest[1..] == items[k + 1..];
      assert PrintItems(rest, level, style) == a + ([COMMA] + g + more);
      PartsText(t, q, a, g, more);
      ItemAfterComma(t, e, items[k + 1..], level, style);
      NextItem(t, q, items, k, level, nesting, style, e + 1 + |g|);
      ParsePrintedItems(t, e + 1 + |g|, items, k + 1, level, nesting, style, r);
    }
  }

  lemma {:induction false} LastItem(t: bytes, q: nat, items: seq<Value>, level: nat, nesting: nat, style: Style, r: nat)
    requires |items| > 0
    requires var v := items[|items| - 1];
             WellFormed(v) && NumbersRoundTrip(v, style.numbers) && StartsWith(t, q, Print(v, level + 1, style))
    requires q < |t| && At(t, q) != NUL
    requires var e := q + |Print(items[|items| - 1], level + 1, style)|;
             Follows(t, e) && At(t, e) != COMMA && SkipSpaces(t, e) == r < |t| && t[r] == RBRACKET
    ensures ParseItems(t, q, nesting, style.numbers, items[..|items| - 1])
            == Expected(Array(items), Fits(items[|items| - 1], nesting), r + 1)
    decreases items, 0
  {
    hide ParseValue, ParseItems, Print, StartsWith, WellFormed, NumbersRoundTrip, Fits, EndsNumber;
    var k, nt := |items| - 1, style.numbers;
    ParsePrinted(t, q, items[k], level + 1, nesting, style);
    if Fits(items[k], nesting) {
      SkipRun(t, r, r);
      ItemStep(t, q, nesting, nt, items[..k], r);
      assert items[..k] + [items[k]] == items;
    } else {
      ItemRefused(t, q, nesting, nt, items[..k]);
    }
  }

  lemma ItemAfterComma(t: bytes, e: nat, items: seq<Value>, level: nat, style: Style)
    requires |items| > 0 && NumbersRoundTrip(items[0], style.numbers)
    requires StartsWith(t, e + 1, Gap(level + 1, style))
    requires StartsWith(t, e + 1 + |Gap(level + 1, style)|, PrintItems(items, level, style))
    ensures SkipSpaces(t, e + 1) == e + 1 + |Gap(level + 1, style)| < |t|
    ensures At(t, e + 1 + |Gap(level + 1, style)|) != RBRACKET && At(t, e + 1 + |Gap(level + 1, style)|) != NUL
  {
    hide StartsWith, PrintItems, Gap, SkipSpaces;
    FirstItem(t, e + 1 + |Gap(level + 1, style)|, items, level, style);
    SkipGap(t, e + 1, level + 1, style);
  }

  /** The loop of parse_array_value takes one printed item and the comma behind it. */
  lemma {:induction false} NextItem(t: bytes, q: nat, items: seq<Value>, k: nat, level: nat, nesting: nat,
                                    style: Style, q': nat)
    requires k < |items| && WellFormed(items[k]) && NumbersRoundTrip(items[k], style.numbers)
    requires StartsWith(t, q, Print(items[k], level + 1, style))
    requires var e := q + |Print(items[k], level + 1, style)|;
             e < |t| && At(t, e) == COMMA && SkipSpaces(t, e + 1) == q' < |t| && At(t, q') != RBRACKET
    requires q < |t| && At(t, q) != NUL
    ensures ParseItems(t, q, nesting, style.numbers, items[..k])
            == if Fits(items[k], nesting) then ParseItems(t, q', nesting, style.numbers, items[..k + 1]) else Refused
    decreases items, 0
  {
    hide ParseValue, ParseItems, Print, StartsWith, WellFormed, NumbersRoundTrip, Fits, EndsNumber, SkipSpaces;
    var e := q + |Print(items[k], level + 1, style)|;
    CommaFollows(t, e);
    ParsePrinted(t, q, items[k], level + 1, nesting, style);
    if Fits(items[k], nesting) {
      ItemStep(t, q, nesting, style.numbers, items[..k], e);
      assert items[..k] + [items[k]] == items[..k + 1];
    } else {
      ItemRefused(t, q, nesting, style.numbers, items[..k]);
    }
  }

  lemma ObjectText(v: Value, level: nat, style: Style)
    requires v.Object? && |v.members| > 0
    ensures Print(v, level, style)
            == [LBRACE] + Gap(level + 1, style) + PrintMembers(v.members, level, style) + Gap(level, style) + [RBRACE]
  {
  }

  lemma ObjectPieces(t: bytes, p: nat, v: Value, level: nat, style: Style, q: nat, e: nat, r: nat)
    requires v.Object? && |v.members| > 0 && StartsWith(t, p, Print(v, level, style))
    requires q == p + 1 + |Gap(level + 1, style)|
    requires e == q + |PrintMembers(v.members, level, style)|
    requires r == e + |Gap(level, style)|
    ensures At(t, p) == LBRACE && p < |t| && r + 1 == p + |Print(v, level, style)|
    ensures StartsWith(t, p + 1, Gap(level + 1, style)) && StartsWith(t, q, PrintMembers(v.members, level, style))
    ensures StartsWith(t, e, Gap(level, style)) && StartsWith(t, r, [RBRACE])
  {
    hide Print, PrintMembers, Gap, StartsWith;
    var g, body, g' := Gap(level + 1, style), PrintMembers(v.members, level, style), Gap(level, style);
    ObjectText(v, level, style);
    ContainerText(t, p, LBRACE, g, body, g', RBRACE);
  }

  /** Where the parts of a printed, non-empty object lie: from `q` to `e`, with the closing bracket at `r`. */
  lemma ObjectParts(t: bytes, p: nat, v: Value, level: nat, style: Style, q: nat, e: nat, r: nat)
    requires v.Object? && |v.members| > 0
    requires StartsWith(t, p, Print(v, level, style))
    requires q == p + 1 + |Gap(level + 1, style)|
    requires e == q + |PrintMembers(v.members, level, style)|
    requires r == e + |Gap(level, style)|
    ensures p < |t| && t[p] == LBRACE && SkipSpaces(t, p + 1) == q < |t|
    ensures StartsWith(t, q, PrintMembers(v.members, level, style))
    ensures At(t, q) == QUOTE
    ensures Follows(t, e) && At(t, e) != COMMA && SkipSpaces(t, e) == r < |t| && t[r] == RBRACE
    ensures r + 1 == p + |Print(v, level, style)|
  {
    hide Print, PrintMembers, Gap, StartsWith, SkipSpaces, NumbersRoundTrip;
    ObjectPieces(t, p, v, level, style, q, e, r);
    FirstMember(t, q, v.members, level, style);
    SkipGap(t, p + 1, level + 1, style);
    AfterParts(t, e, level, style, RBRACE);
  }

  lemma EmptyObject(t: bytes, p: nat, level: nat, nesting: nat, style: Style)
    requires StartsWith(t, p, [LBRACE, RBRACE])
    ensures p < |t| && t[p] == LBRACE
    ensures ParseObject(t, p, nesting, style.numbers) == Parsed(Object([]), p + 2)
  {
  }

  lemma ObjectFits(v: Value, nesting: nat)
    requires v.Object? && nesting <= MAX_NESTING
    ensures Fits(v, nesting) == MembersFit(v.members, 0, nesting + 1)
  {
  }

  lemma MembersAre(v: Value, nt: NumberText)
    requires v.Object? && WellFormed(v) && NumbersRoundTrip(v, nt)
    ensures Distinct(v.members)
    ensures forall i :: 0 <= i < |v.members| ==>
              NulFree(v.members[i].name) && WellFormed(v.members[i].value) && NumbersRoundTrip(v.members[i].value, nt)
  {
  }

  lemma {:induction false} ParsePrintedObject(t: bytes, p: nat, v: Value, level: nat, nesting: nat, style: Style)
    requires v.Object? && |v.members| > 0 && WellFormed(v) && NumbersRoundTrip(v, style.numbers)
             && nesting <= MAX_NESTING
    requires StartsWith(t, p, Print(v, level, style))
    ensures p < |t| && t[p] == LBRACE
    ensures ParseObject(t, p, nesting + 1, style.numbers) == Expected(v, Fits(v, nesting), p + |Print(v, level, style)|)
    decreases v, 0
  {
    hide Fits, MembersFit, StartsWith, PrintMembers, Gap, SkipSpaces, ParseObject, Print, EndsNumber, At, IsSpace;
    MembersAre(v, style.numbers);
    hide WellFormed, NumbersRoundTrip;
    var q := p + 1 + |Gap(level + 1, style)|;
    ObjectFits(v, nesting);
    var e := q + |PrintMembers(v.members, level, style)|;
    var r := e + |Gap(level, style)|;
    ObjectParts(t, p, v, level, style, q, e, r);
    ObjectStep(t, p, nesting + 1, style.numbers);
    assert v.members[0..] == v.members && v.members[..0] == [];
    ParsePrintedMembers(t, q, v.members, 0, level, nesting + 1, style, r);
  }

  lemma FirstMember(t: bytes, q: nat, ms: seq<Member>, level: nat, style: Style)
    requires |ms| > 0 && StartsWith(t, q, PrintMembers(ms, level, style))
    ensures StartsWith(t, q, PrintMember(ms[0], level, style))
    ensures q < |t| && At(t, q) == QUOTE
  {
    hide StartsWith, Gap;
    var a := PrintMember(ms[0], level, style);
    if |ms| > 1 {
      PartsText(t, q, a, Gap(level + 1, style), PrintMembers(ms[1..], level, style));
    }
    AtText(t, q, a, 0);
  }

  /** A printed member is its quoted name, a colon, a space when pretty, and its value from `s` on. */
  lemma MemberPieces(t: bytes, q: nat, m: Member, level: nat, style: Style, c: nat, s: nat)
    requires StartsWith(t, q, PrintMember(m, level, style)) && c == q + |Quoted(m.name, style.escapeSlashes)|
    requires s == c + 1 + if style.pretty then 1 else 0
    ensures StartsWith(t, q, Quoted(m.name, style.escapeSlashes)) && c < |t| && At(t, c) == COLON == t[c]
    ensures StartsWith(t, s, Print(m.value, level + 1, style))
    ensures s + |Print(m.value, level + 1, style)| == q + |PrintMember(m, level, style)|
    ensures s <= |t| && forall i :: c + 1 <= i < s ==> IsSpace(t[i])
  {
    hide StartsWith, Quoted, Print;
    var n, g := Quoted(m.name, style.escapeSlashes), if style.pretty then [SPACE] else [];
    var text := Print(m.value, level + 1, style);
    SplitText(t, q, n + [COLON] + g, text);
    SplitText(t, q, n + [COLON], g);
    SplitText(t, q, n, [COLON]);
    AtText(t, c, [COLON], 0);
    if style.pretty {
      AtText(t, c + 1, g, 0);
    }
  }

  lemma {:induction false} ParsePrintedMember(t: bytes, q: nat, m: Member, level: nat, nesting: nat, style: Style)
    requires WellFormed(m.value) && NumbersRoundTrip(m.value, style.numbers) && NulFree(m.name)
    requires StartsWith(t, q, PrintMember(m, level, style)) && Follows(t, q + |PrintMember(m, level, style)|)
    ensures ParseMember(t, q, nesting, style.numbers)
            == if Fits(m.value, nesting) then Parsed(m, q + |PrintMember(m, level, style)|) else Refused
    decreases m, 2
  {
    hide StartsWith, Quoted, Print, SkipSpaces, GetQuoted, ParseValue, WellFormed, NumbersRoundTrip, EndsNumber;
    hide PrintMember;
    var c := q + |Quoted(m.name, style.escapeSlashes)|;
    var s := c + 1 + if style.pretty then 1 else 0;
    MemberPieces(t, q, m, level, style, c, s);
    QuotedRoundTrips(t, q, m.name, style.escapeSlashes);
    SkipRun(t, c, c);
    FirstByte(t, s, m.value, level + 1, style);
    ParsePrinted(t, s, m.value, level + 1, nesting, style);
    SpacesFirst(t, c + 1, s, nesting, style.numbers);
  }

  /** parse_value skips the space that pretty printing puts behind a colon. */
  lemma SpacesFirst(t: bytes, p: nat, q: nat, nesting: nat, nt: NumberText)
    requires p <= q < |t| && (forall i :: p <= i < q ==> IsSpace(t[i])) && !IsSpace(t[q])
    ensures ParseValue(t, p, nesting, nt) == ParseValue(t, q, nesting, nt)
  {
  }

  lemma {:induction false} ParsePrintedMembers(t: bytes, q: nat, ms: seq<Member>, k: nat, level: nat, nesting: nat,
                                               style: Style, r: nat)
    requires k < |ms| && Distinct(ms)
    requires forall i :: 0 <= i < |ms| ==>
               NulFree(ms[i].name) && WellFormed(ms[i].value) && NumbersRoundTrip(ms[i].value, style.numbers)
    requires StartsWith(t, q, PrintMembers(ms[k..], level, style))
    requires var e := q + |PrintMembers(ms[k..], level, style)|;
             Follows(t, e) && At(t, e) != COMMA && SkipSpaces(t, e) == r < |t| && t[r] == RBRACE
    ensures ParseMembers(t, q, nesting, style.numbers, ms[..k])
            == Expected(Object(ms), MembersFit(ms, k, nesting), r + 1)
    decreases ms, |ms| - k
  {
    hide PrintMember, StartsWith, SkipSpaces, ParseMembers, Gap, WellFormed, NumbersRoundTrip, EndsNumber;
    var rest := ms[k..];
    var a, g := PrintMember(ms[k], level, style), Gap(level + 1, style);
    var e := q + |a|;
    FirstMember(t, q, rest, level, style);
    if |rest| == 1 {
      assert PrintMembers(rest, level, style) == a;
      LastMember(t, q, ms, level, nesting, style, r);
    } else {
      var more := PrintMembers(ms[k + 1..], level, style);
      assert rest[1..] == ms[k + 1..];
      assert PrintMembers(rest, level, style) == a + ([COMMA] + g + more);
      PartsText(t, q, a, g, more);
      MemberAfterComma(t, e, ms[k + 1..], level, style);
      NextMember(t, q, ms, k, level, nesting, style, e + 1 + |g|);
      ParsePrintedMembers(t, e + 1 + |g|, ms, k + 1, level, nesting, style, r);
    }
  }

  lemma AddNextMember(ms: seq<Member>, k: nat)
    requires k < |ms| && Distinct(ms)
    ensures AddMember(ms[..k], ms[k].name, ms[k].value) == Some(ms[..k + 1])
  {
    assert ms[..k] + [ms[k]] == ms[..k + 1];
  }

  lemma {:induction false} LastMember(t: bytes, q: nat, ms: seq<Member>, level: nat, nesting: nat, style: Style, r: nat)
    requires |ms| > 0 && Distinct(ms)
    requires var m := ms[|ms| - 1];
             NulFree(m.name) && WellFormed(m.value) && NumbersRoundTrip(m.value, style.numbers)
             && StartsWith(t, q, PrintMember(m, level, style))
    requires q < |t| && At(t, q) == QUOTE
    requires var e := q + |PrintMember(ms[|ms| - 1], level, style)|;
             Follows(t, e) && At(t, e) != COMMA && SkipSpaces(t, e) == r < |t| && t[r] == RBRACE
    ensures ParseMembers(t, q, nesting, style.numbers, ms[..|ms| - 1])
            == Expected(Object(ms), Fits(ms[|ms| - 1].value, nesting), r + 1)
    decreases ms, 0
  {
    hide ParseMember, ParseMembers, PrintMember, StartsWith, WellFormed, NumbersRoundTrip, Fits, EndsNumber, AddMember;
    var k, nt := |ms| - 1, style.numbers;
    ParsePrintedMember(t, q, ms[k], level, nesting, style);
    if Fits(ms[k].value, nesting) {
      SkipRun(t, r, r);
      AddNextMember(ms, k);
      assert ms[..k + 1] == ms;
      MemberStep(t, q, nesting, nt, ms[..k], ms, r);
    } else {
      MemberRefused(t, q, nesting, nt, ms[..k]);
    }
  }

  lemma MemberAfterComma(t: bytes, e: nat, ms: seq<Member>, level: nat, style: Style)
    requires |ms| > 0
    requires StartsWith(t, e + 1, Gap(level + 1, style))
    requires StartsWith(t, e + 1 + |Gap(level + 1, style)|, PrintMembers(ms, level, style))
    ensures SkipSpaces(t, e + 1) == e + 1 + |Gap(level + 1, style)| < |t|
    ensures At(t, e + 1 + |Gap(level + 1, style)|) == QUOTE
  {
    hide StartsWith, PrintMembers, Gap, SkipSpaces;
    FirstMember(t, e + 1 + |Gap(level + 1, style)|, ms, level, style);
    SkipGap(t, e + 1, level + 1, style);
  }

  /** The loop of parse_object_value takes one printed member and the comma behind it. */
  lemma {:induction false} NextMember(t: bytes, q: nat, ms: seq<Member>, k: nat, level: nat, nesting: nat,
                                      style: Style, q': nat)
    requires k < |ms| && Distinct(ms)
    requires NulFree(ms[k].name) && WellFormed(ms[k].value) && NumbersRoundTrip(ms[k].value, style.numbers)
    requires StartsWith(t, q, PrintMember(ms[k], level, style))
    requires var e := q + |PrintMember(ms[k], level, style)|;
             e < |t| && At(t, e) == COMMA && SkipSpaces(t, e + 1) == q' < |t| && At(t, q') == QUOTE
    requires q < |t| && At(t, q) == QUOTE
    ensures ParseMembers(t, q, nesting, style.numbers, ms[..k])
            == if Fits(ms[k].value, nesting) then ParseMembers(t, q', nesting, style.numbers, ms[..k + 1]) else Refused
    decreases ms, 0
  {
    hide ParseMember, ParseMembers, PrintMember, StartsWith, WellFormed, NumbersRoundTrip, Fits, EndsNumber,
      SkipSpaces, AddMember;
    var e := q + |PrintMember(ms[k], level, style)|;
    CommaFollows(t, e);
    ParsePrintedMember(t, q, ms[k], level, nesting, style);
    if Fits(ms[k].value, nesting) {
      AddNextMember(ms, k);
      MemberStep(t, q, nesting, style.numbers, ms[..k], ms[..k + 1], e);
    } else {
      MemberRefused(t, q, nesting, style.numbers, ms[..k]);
    }
  }

  /** Text printed from a well-formed value is a C string. */
  lemma {:induction false} PrintIsCString(v: Value, level: nat, style: Style)
    requires WellFormed(v) && NumbersRoundTrip(v, style.numbers)
    ensures NulFree(Print(v, level, style))
    decreases v, 1
  {
    GapIsCString(level, style);
    GapIsCString(level + 1, style);
    hide Gap, Escape;
    match v {
      case String(s) => EscapeIsCString(s, style.escapeSlashes);
      case Array(items) =>
        if |items| > 0 {
          ItemsAreCString(items, level, style);
          BracketIsCString(LBRACKET, Gap(level + 1, style), PrintItems(items, level, style), Gap(level, style),
                           RBRACKET);
        }
      case Object(ms) =>
        if |ms| > 0 {
          MembersAreCString(ms, level, style);
          BracketIsCString(LBRACE, Gap(level + 1, style), PrintMembers(ms, level, style), Gap(level, style), RBRACE);
        }
      case _ =>
    }
  }

  lemma BracketIsCString(open: byte, g: bytes, body: bytes, g': bytes, close: byte)
    requires open != NUL && NulFree(g) && NulFree(body) && NulFree(g') && close != NUL
    ensures NulFree([open] + g + body + g' + [close])
  {
  }

  lemma {:induction false} GapIsCString(level: nat, style: Style)
    ensures NulFree(Gap(level, style))
  {
    IndentIsSpace(level);
  }

  lemma {:induction false} EscapeIsCString(s: bytes, slashes: bool)
    ensures NulFree(Escape(s, slashes))
  {
    if |s| > 0 {
      EscapeIsCString(s[1..], slashes);
      assert NulFree(EscapeByte(s[0], slashes));
    }
  }

  lemma {:induction false} ItemsAreCString(items: seq<Value>, level: nat, style: Style)
    requires |items| > 0
    requires forall i :: 0 <= i < |items| ==> WellFormed(items[i]) && NumbersRoundTrip(items[i], style.numbers)
    ensures NulFree(PrintItems(items, level, style))
    decreases items, 0
  {
    PrintIsCString(items[0], level + 1, style);
    GapIsCString(level + 1, style);
    if |items| > 1 {
      ItemsAreCString(items[1..], level, style);
    }
  }

  lemma {:induction false} MembersAreCString(ms: seq<Member>, level: nat, style: Style)
    requires |ms| > 0
    requires forall i :: 0 <= i < |ms| ==> WellFormed(ms[i].value) && NumbersRoundTrip(ms[i].value, style.numbers)
    ensures NulFree(PrintMembers(ms, level, style))
    decreases ms, 0
  {
    hide Gap, Escape;
    EscapeIsCString(ms[0].name, style.escapeSlashes);
    PrintIsCString(ms[0].value, level + 1, style);
    GapIsCString(level + 1, style);
    if |ms| > 1 {
      MembersAreCString(ms[1..], level, style);
    }
  }

  /**
   * The round trip: the printed form of a value, compact or pretty, is a C string from which parsing returns
   * exactly that value with the same member order, if and only if the value nests no deeper than the limit.
   */
  lemma {:induction false} RoundTrip(v: Value, style: Style)
    requires WellFormed(v) && NumbersRoundTrip(v, style.numbers)
    ensures NulFree(Print(v, 0, style))
    ensures ParseText(Print(v, 0, style), style.numbers) == if Fits(v, 0) then Some(v) else None
  {
    hide Print, ParseValue, NumbersRoundTrip, WellFormed, Fits, NulFree;
    var t := Print(v, 0, style);
    PrintIsCString(v, 0, style);
    WholeText(t);
    NoByteOrderMark(t, v, style);
    ParsePrinted(t, 0, v, 0, 0, style);
  }

  lemma WholeText(t: bytes)
    ensures StartsWith(t, 0, t) && Follows(t, |t|)
  {
  }

  /** No printed value starts with the byte order mark that the parser skips. */
  lemma NoByteOrderMark(t: bytes, v: Value, style: Style)
    requires StartsWith(t, 0, Print(v, 0, style)) && NumbersRoundTrip(v, style.numbers)
    ensures !StartsWith(t, 0, [0xEF, 0xBB, 0xBF])
  {
    hide Print, NumbersRoundTrip;
    FirstByte(t, 0, v, 0, style);
  }

  /** Height of the container tree; a scalar or an empty container has height 0. */
  function Height(v: Value): nat
    decreases v
  {
    match v
    case Array(items) => if |items| == 0 then 0 else 1 + MaxHeight(items)
    case Object(ms) => if |ms| == 0 then 0 else 1 + MaxMemberHeight(ms)
    case _ => 0
  }

  function MaxHeight(items: seq<Value>): nat
    decreases items
  {
    if |items| == 0 then 0 else
    var h, r := Height(items[0]), MaxHeight(items[1..]);
    if h > r then h else r
  }

  function MaxMemberHeight(ms: seq<Member>): nat
    decreases ms
  {
    if |ms| == 0 then 0 else
    var h, r := Height(ms[0].value), MaxMemberHeight(ms[1..]);
    if h > r then h else r
  }

  /** The nesting condition of the round trip, as a bound on the height that a caller can compute. */
  lemma {:induction false} FitsIsHeight(v: Value, nesting: nat)
    ensures Fits(v, nesting) <==> nesting + Height(v) <= MAX_NESTING
    decreases v
  {
    match v {
      case Array(items) => if |items| > 0 { FitsItems(items, nesting + 1); }
      case Object(ms) => if |ms| > 0 { FitsMembers(ms, nesting + 1); }
      case _ =>
    }
  }

  lemma {:induction false} FitsItems(items: seq<Value>, nesting: nat)
    ensures |items| > 0 ==>
              ((forall i :: 0 <= i < |items| ==> Fits(items[i], nesting)) <==>
                 nesting + MaxHeight(items) <= MAX_NESTING)
    decreases items
  {
    if |items| > 0 {
      FitsIsHeight(items[0], nesting);
      FitsItems(items[1..], nesting);
      assert items == [items[0]] + items[1..];
    }
  }

  lemma {:induction false} FitsMembers(ms: seq<Member>, nesting: nat)
    ensures |ms| > 0 ==>
              ((forall i :: 0 <= i < |ms| ==> Fits(ms[i].value, nesting)) <==>
                 nesting + MaxMemberHeight(ms) <= MAX_NESTING)
    decreases ms
  {
    if |ms| > 0 {
      FitsIsHeight(ms[0].value, nesting);
      FitsMembers(ms[1..], nesting);
      assert ms == [ms[0]] + ms[1..];
    }
  }
}
