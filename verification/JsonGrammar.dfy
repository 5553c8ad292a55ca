/**
 * The texts the parser accepts, as a grammar that does not mention the parser: which stretch of a text denotes which
 * value, with blanks between any two tokens and an optional comma behind the last part of a container.
 */
module JsonGrammar {
  import opened Bytes
  import opened JsonValue
  import opened JsonText
  import opened JsonParse
  import opened JsonRoundTrip
  import opened JsonLiterals

  // ----- the grammar

  /** What isspace accepts: space, tab, newline, vertical tab, form feed and carriage return. */
  predicate IsBlank(c: byte) {
    c == 0x20 || c == 0x09 || c == 0x0A || c == 0x0B || c == 0x0C || c == 0x0D
  }

  predicate Blanks(t: bytes, p: nat, q: nat) {
    p <= q <= |t| && forall i :: p <= i < q ==> IsBlank(t[i])
  }

  /** The byte `c` stands at `p`. */
  predicate Mark(t: bytes, p: nat, c: byte) {
    p < |t| && t[p] == c
  }

  predicate Word(t: bytes, p: nat, e: nat, word: bytes) {
    e == p + |word| && e <= |t| && t[p..e] == word
  }

  /** No hexadecimal marker, and no zero in front of another digit or exponent. */
  predicate PlainDecimal(s: bytes) {
    && (forall i :: 0 <= i < |s| ==> s[i] != 0x78 && s[i] != 0x58 && s[i] != NUL)
    && (|s| > 1 && s[0] == 0x30 ==> s[1] == 0x2E)
    && (|s| > 2 && s[0] == 0x2D && s[1] == 0x30 ==> s[2] == 0x2E)
  }

  /** A digit or a minus sign, and as much as strtod takes, as long as that is plain decimal. */
  ghost predicate Numeral(t: bytes, p: nat, e: nat, x: real, nt: NumberText) {
    && p <= e <= |t| && p < |t| && (t[p] == 0x2D || 0x30 <= t[p] <= 0x39)
    && nt.strtod(t[p..]) == Strtod(x, e - p, false) && PlainDecimal(t[p..e])
  }

  /** The closing bracket, with a comma in front of it or without. */
  ghost predicate Closes(t: bytes, p: nat, e: nat, bracket: byte) {
    || (Mark(t, p, bracket) && e == p + 1)
    || (Mark(t, p, 0x2C) && exists q: nat :: Blanks(t, p + 1, q) && Mark(t, q, bracket) && e == q + 1)
  }

  /** The text from `p` to `e` denotes the value. */
  ghost predicate Denotes(t: bytes, p: nat, e: nat, v: Value, nt: NumberText)
    decreases v, 1
  {
    match v
    case Null => Word(t, p, e, [0x6E, 0x75, 0x6C, 0x6C])
    case Boolean(b) => Word(t, p, e, if b then [0x74, 0x72, 0x75, 0x65] else [0x66, 0x61, 0x6C, 0x73, 0x65])
    case Number(x) => Numeral(t, p, e, x, nt)
    case String(s) => Literal(t, p, e, s)
    case Array(items) =>
      && Mark(t, p, 0x5B)
      && exists q: nat :: Blanks(t, p + 1, q)
           && if |items| == 0 then Mark(t, q, 0x5D) && e == q + 1 else DenotesItems(t, q, e, items, nt)
    case Object(ms) =>
      && Mark(t, p, 0x7B) && Distinct(ms)
      && exists q: nat :: Blanks(t, p + 1, q)
           && if |ms| == 0 then Mark(t, q, 0x7D) && e == q + 1 else DenotesMembers(t, q, e, ms, nt)
  }

  /** Items with commas between them, and the closing bracket. */
  ghost predicate DenotesItems(t: bytes, p: nat, e: nat, items: seq<Value>, nt: NumberText)
    requires |items| > 0
    decreases items, 0
  {
    exists q: nat, r: nat :: Denotes(t, p, q, items[0], nt) && Blanks(t, q, r)
      && if |items| == 1 then Closes(t, r, e, 0x5D) else AndMoreItems(t, r, e, items[1..], nt)
  }

  ghost predicate AndMoreItems(t: bytes, r: nat, e: nat, items: seq<Value>, nt: NumberText)
    requires |items| > 0
    decreases items, 1
  {
    Mark(t, r, 0x2C) && exists p: nat :: Blanks(t, r + 1, p) && DenotesItems(t, p, e, items, nt)
  }

  /** A name without a NUL, a colon and a value. */
  ghost predicate DenotesMember(t: bytes, p: nat, e: nat, m: Member, nt: NumberText)
    decreases m, 0
  {
    && NulFree(m.name)
    && exists q: nat, r: nat, s: nat :: Literal(t, p, q, m.name) && Blanks(t, q, r) && Mark(t, r, 0x3A)
         && Blanks(t, r + 1, s) && Denotes(t, s, e, m.value, nt)
  }

  ghost predicate DenotesMembers(t: bytes, p: nat, e: nat, ms: seq<Member>, nt: NumberText)
    requires |ms| > 0
    decreases ms, 0
  {
    exists q: nat, r: nat :: DenotesMember(t, p, q, ms[0], nt) && Blanks(t, q, r)
      && if |ms| == 1 then Closes(t, r, e, 0x7D) else AndMoreMembers(t, r, e, ms[1..], nt)
  }

  ghost predicate AndMoreMembers(t: bytes, r: nat, e: nat, ms: seq<Member>, nt: NumberText)
    requires |ms| > 0
    decreases ms, 1
  {
    Mark(t, r, 0x2C) && exists p: nat :: Blanks(t, r + 1, p) && DenotesMembers(t, p, e, ms, nt)
  }

  /** Behind a byte order mark, if there is one, and blanks, the text starts with something that denotes the value. */
  ghost predicate TextDenotes(t: bytes, v: Value, nt: NumberText) {
    var start := if |t| >= 3 && t[..3] == [0xEF, 0xBB, 0xBF] then 3 else 0;
    exists p: nat, e: nat :: Blanks(t, start, p) && Denotes(t, p, e, v, nt)
  }

  // ----- blanks

  lemma {:induction false} BlanksAreSkipped(t: bytes, p: nat, q: nat)
    requires Blanks(t, p, q) && !IsBlank(At(t, q))
    ensures SkipSpaces(t, p) == q
    decreases q - p
  {
    if p < q {
      BlanksAreSkipped(t, p + 1, q);
    }
  }

  lemma SkippedAreBlanks(t: bytes, p: nat)
    requires p <= |t|
    ensures Blanks(t, p, SkipSpaces(t, p)) && !IsBlank(At(t, SkipSpaces(t, p)))
    ensures SkipSpaces(t, SkipSpaces(t, p)) == SkipSpaces(t, p)
  {
    var q := SkipSpaces(t, p);
    forall i | p <= i < q ensures IsBlank(t[i]) {
      assert IsSpace(At(t, i));
    }
    if q < |t| {
      BlanksAreSkipped(t, q, q);
    }
  }

  lemma BlankIsBlank(t: bytes, p: nat, c: byte)
    requires Mark(t, p, c) && !IsBlank(c)
    ensures SkipSpaces(t, p) == p && Blanks(t, p, p) && At(t, p) == c
  {
  }

  // ----- what is denoted is parsed

  /** What denotes a value starts with neither a blank nor a closing bracket. */
  lemma Starts(t: bytes, p: nat, e: nat, v: Value, nt: NumberText)
    requires Denotes(t, p, e, v, nt)
    ensures p < |t| && !IsBlank(t[p]) && t[p] != NUL && t[p] != 0x5D && t[p] != 0x7D
  {
    hide DenotesItems, DenotesMembers;
    match v {
      case Null => assert t[p] == t[p..e][0];
      case Boolean(b) => assert t[p] == t[p..e][0];
      case _ =>
    }
  }

  lemma DecimalIs(s: bytes)
    ensures IsDecimal(s) <==> PlainDecimal(s)
  {
  }

  lemma {:induction false} ValueIsParsed(t: bytes, pos: nat, p: nat, e: nat, v: Value, nesting: nat, nt: NumberText)
    requires Blanks(t, pos, p) && Denotes(t, p, e, v, nt) && Fits(v, nesting)
    ensures ParseValue(t, pos, nesting, nt) == Parsed(v, e)
    decreases v, 2
  {
    hide SkipSpaces, IsDecimal, PlainDecimal, Literal, GetQuoted, DenotesItems, DenotesMembers, ParseArray, ParseObject;
    hide Blanks;
    Starts(t, p, e, v, nt);
    BlanksAreSkipped(t, pos, p);
    match v {
      case Null => assert t[p] == t[p..e][0];
      case Boolean(b) =>
        assert t[p] == t[p..e][0];
        BooleanText(t, p, b);
      case Number(x) => DecimalIs(t[p..e]);
      case String(s) => LiteralsAreRead(t, p, e, s); LiteralQuote(t, p, e, s);
      case Array(items) => ArrayIsParsed(t, p, e, items, nesting, nt);
      case Object(ms) => ObjectIsParsed(t, p, e, ms, nesting, nt);
    }
  }

  lemma LiteralQuote(t: bytes, p: nat, e: nat, s: bytes)
    requires Literal(t, p, e, s)
    ensures Mark(t, p, 0x22)
  {
  }

  lemma {:induction false} ArrayIsParsed(t: bytes, p: nat, e: nat, items: seq<Value>, nesting: nat, nt: NumberText)
    requires Denotes(t, p, e, Array(items), nt) && Fits(Array(items), nesting)
    ensures p < |t| && t[p] == LBRACKET && ParseArray(t, p, nesting + 1, nt) == Parsed(Array(items), e)
    decreases items, 3
  {
    hide SkipSpaces, DenotesItems, ParseItems, Blanks;
    var q: nat :| Blanks(t, p + 1, q)
      && if |items| == 0 then Mark(t, q, 0x5D) && e == q + 1 else DenotesItems(t, q, e, items, nt);
    if |items| > 0 {
      ItemsAreParsed(t, q, e, items, [], nesting + 1, nt);
      assert [] + items == items;
    }
    BlanksAreSkipped(t, p + 1, q);
  }

  lemma {:induction false} ItemsAreParsed(t: bytes, p: nat, e: nat, items: seq<Value>, done: seq<Value>,
                                          nesting: nat, nt: NumberText)
    requires |items| > 0 && DenotesItems(t, p, e, items, nt)
    requires forall i :: 0 <= i < |items| ==> Fits(items[i], nesting)
    ensures p < |t| && !IsBlank(t[p]) && t[p] != 0x5D
    ensures ParseItems(t, p, nesting, nt, done) == Parsed(Array(done + items), e)
    decreases items, 2
  {
    hide SkipSpaces, ParseItems, ParseValue, Denotes, Blanks, Fits, IsBlank, Closes;
    var q: nat, r: nat :| Denotes(t, p, q, items[0], nt) && Blanks(t, q, r)
      && if |items| == 1 then Closes(t, r, e, 0x5D) else AndMoreItems(t, r, e, items[1..], nt);
    Starts(t, p, q, items[0], nt);
    NoBlanks(t, p);
    ValueIsParsed(t, p, p, q, items[0], nesting, nt);
    CommaOrBracket(0x5D);
    if |items| == 1 {
      ArrayCloses(t, p, q, r, e, items[0], done, nesting, nt);
      assert items == [items[0]];
    } else {
      var s := MoreItems(t, r, e, items[1..], nt);
      ItemsAreParsed(t, s, e, items[1..], done + [items[0]], nesting, nt);
      BlanksAreSkipped(t, q, r);
      BlanksAreSkipped(t, r + 1, s);
      ItemStep(t, p, nesting, nt, done, r);
      assert done + [items[0]] + items[1..] == done + items;
    }
  }

  lemma MoreItems(t: bytes, r: nat, e: nat, items: seq<Value>, nt: NumberText) returns (p: nat)
    requires |items| > 0 && AndMoreItems(t, r, e, items, nt)
    ensures Mark(t, r, 0x2C) && Blanks(t, r + 1, p) && DenotesItems(t, p, e, items, nt)
  {
    p :| Blanks(t, r + 1, p) && DenotesItems(t, p, e, items, nt);
  }

  lemma MoreMembers(t: bytes, r: nat, e: nat, ms: seq<Member>, nt: NumberText) returns (p: nat)
    requires |ms| > 0 && AndMoreMembers(t, r, e, ms, nt)
    ensures Mark(t, r, 0x2C) && Blanks(t, r + 1, p) && DenotesMembers(t, p, e, ms, nt)
  {
    p :| Blanks(t, r + 1, p) && DenotesMembers(t, p, e, ms, nt);
  }

  lemma NoBlanks(t: bytes, p: nat)
    requires p <= |t|
    ensures Blanks(t, p, p)
  {
  }

  lemma CommaOrBracket(bracket: byte)
    requires bracket == 0x5D || bracket == 0x7D
    ensures !IsBlank(0x2C) && !IsBlank(bracket) && !IsBlank(0x3A)
  {
  }

  /** The last item, with a comma behind it or without. */
  lemma ArrayCloses(t: bytes, p: nat, q: nat, r: nat, e: nat, v: Value, done: seq<Value>, nesting: nat, nt: NumberText)
    requires p < |t| && At(t, p) != NUL && ParseValue(t, p, nesting, nt) == Parsed(v, q)
    requires Blanks(t, q, r) && Closes(t, r, e, 0x5D)
    ensures ParseItems(t, p, nesting, nt, done) == Parsed(Array(done + [v]), e)
  {
    hide SkipSpaces, ParseItems, ParseValue, Blanks;
    BlanksAreSkipped(t, q, r);
    ItemStep(t, p, nesting, nt, done, r);
    if Mark(t, r, 0x5D) {
      BlankIsBlank(t, r, 0x5D);
    } else {
      var s: nat :| Blanks(t, r + 1, s) && Mark(t, s, 0x5D) && e == s + 1;
      BlanksAreSkipped(t, r + 1, s);
      BlankIsBlank(t, s, 0x5D);
    }
  }

  lemma {:induction false} ObjectIsParsed(t: bytes, p: nat, e: nat, ms: seq<Member>, nesting: nat, nt: NumberText)
    requires Denotes(t, p, e, Object(ms), nt) && Fits(Object(ms), nesting)
    ensures p < |t| && t[p] == LBRACE && ParseObject(t, p, nesting + 1, nt) == Parsed(Object(ms), e)
    decreases ms, 3
  {
    hide SkipSpaces, DenotesMembers, ParseMembers, Blanks;
    var q: nat :| Blanks(t, p + 1, q)
      && if |ms| == 0 then Mark(t, q, 0x7D) && e == q + 1 else DenotesMembers(t, q, e, ms, nt);
    if |ms| > 0 {
      assert [] + ms == ms;
      MembersAreParsed(t, q, e, ms, [], nesting + 1, nt);
    }
    BlanksAreSkipped(t, p + 1, q);
  }

  lemma {:induction false} MemberIsParsed(t: bytes, p: nat, e: nat, m: Member, nesting: nat, nt: NumberText)
    requires DenotesMember(t, p, e, m, nt) && Fits(m.value, nesting)
    ensures Mark(t, p, 0x22) && ParseMember(t, p, nesting, nt) == Parsed(m, e)
    decreases m, 3
  {
    hide SkipSpaces, ParseValue, Denotes, Blanks, Fits, GetQuoted, Literal, IsBlank;
    var q: nat, r: nat, s: nat :| Literal(t, p, q, m.name) && Blanks(t, q, r) && Mark(t, r, 0x3A)
      && Blanks(t, r + 1, s) && Denotes(t, s, e, m.value, nt);
    LiteralsAreRead(t, p, q, m.name);
    LiteralQuote(t, p, q, m.name);
    CommaOrBracket(0x7D);
    BlanksAreSkipped(t, q, r);
    ValueIsParsed(t, r + 1, s, e, m.value, nesting, nt);
  }

  lemma {:induction false} MembersAreParsed(t: bytes, p: nat, e: nat, ms: seq<Member>, done: seq<Member>,
                                            nesting: nat, nt: NumberText)
    requires |ms| > 0 && DenotesMembers(t, p, e, ms, nt) && Distinct(done + ms)
    requires forall i :: 0 <= i < |ms| ==> Fits(ms[i].value, nesting)
    ensures Mark(t, p, 0x22) && ParseMembers(t, p, nesting, nt, done) == Parsed(Object(done + ms), e)
    decreases ms, 2
  {
    hide SkipSpaces, ParseMembers, ParseMember, DenotesMember, Blanks, Fits, IsBlank, Closes, AddMember, Distinct;
    var q: nat, r: nat :| DenotesMember(t, p, q, ms[0], nt) && Blanks(t, q, r)
      && if |ms| == 1 then Closes(t, r, e, 0x7D) else AndMoreMembers(t, r, e, ms[1..], nt);
    MemberIsParsed(t, p, q, ms[0], nesting, nt);
    CommaOrBracket(0x7D);
    MemberIsAdded(done, ms);
    if |ms| == 1 {
      ObjectCloses(t, p, q, r, e, ms[0], done, nesting, nt);
      assert ms == [ms[0]];
    } else {
      var s := MoreMembers(t, r, e, ms[1..], nt);
      assert done + [ms[0]] + ms[1..] == done + ms;
      MembersAreParsed(t, s, e, ms[1..], done + [ms[0]], nesting, nt);
      QuoteIsNoBlank();
      BlanksAreSkipped(t, q, r);
      BlanksAreSkipped(t, r + 1, s);
      MemberStep(t, p, nesting, nt, done, done + [ms[0]], r);
    }
  }

  lemma QuoteIsNoBlank()
    ensures !IsBlank(0x22)
  {
  }

  lemma MemberIsAdded(done: seq<Member>, ms: seq<Member>)
    requires |ms| > 0 && Distinct(done + ms)
    ensures AddMember(done, ms[0].name, ms[0].value) == Some(done + [ms[0]])
  {
    assert (done + ms)[|done|] == ms[0];
    assert forall i :: 0 <= i < |done| ==> (done + ms)[i] == done[i];
  }

  lemma ObjectCloses(t: bytes, p: nat, q: nat, r: nat, e: nat, m: Member, done: seq<Member>, nesting: nat,
                     nt: NumberText)
    requires p < |t| && At(t, p) != NUL && ParseMember(t, p, nesting, nt) == Parsed(m, q)
    requires AddMember(done, m.name, m.value) == Some(done + [m]) && Blanks(t, q, r) && Closes(t, r, e, 0x7D)
    ensures ParseMembers(t, p, nesting, nt, done) == Parsed(Object(done + [m]), e)
  {
    hide SkipSpaces, ParseMembers, ParseMember, Blanks, AddMember;
    BlanksAreSkipped(t, q, r);
    MemberStep(t, p, nesting, nt, done, done + [m], r);
    if Mark(t, r, 0x7D) {
      BlankIsBlank(t, r, 0x7D);
    } else {
      var s: nat :| Blanks(t, r + 1, s) && Mark(t, s, 0x7D) && e == s + 1;
      BlanksAreSkipped(t, r + 1, s);
      BlankIsBlank(t, s, 0x7D);
    }
  }

  // ----- what is parsed is denoted

  lemma {:induction false} ValueIsDenoted(t: bytes, pos: nat, nesting: nat, nt: NumberText)
    requires pos <= |t| && ParseValue(t, pos, nesting, nt).Parsed?
    ensures var r := ParseValue(t, pos, nesting, nt);
            Denotes(t, SkipSpaces(t, pos), r.end, r.value, nt) && Fits(r.value, nesting)
    decreases |t| - pos, 0
  {
    hide SkipSpaces, IsDecimal, PlainDecimal, Literal, GetQuoted, DenotesItems, DenotesMembers, ParseArray, ParseObject;
    var p, r := SkipSpaces(t, pos), ParseValue(t, pos, nesting, nt);
    if At(t, p) == LBRACE {
      ObjectIsDenoted(t, p, nesting, nt);
    } else if At(t, p) == LBRACKET {
      ArrayIsDenoted(t, p, nesting, nt);
    } else if At(t, p) == QUOTE {
      LiteralsAreRead(t, p, r.end, r.value.s);
    } else if At(t, p) == MINUS || IsDigit(At(t, p)) {
      DecimalIs(t[p..r.end]);
    }
  }

  lemma {:induction false} ArrayIsDenoted(t: bytes, p: nat, nesting: nat, nt: NumberText)
    requires p < |t| && t[p] == LBRACKET && ParseArray(t, p, nesting + 1, nt).Parsed? && nesting <= MAX_NESTING
    ensures var r := ParseArray(t, p, nesting + 1, nt);
            Denotes(t, p, r.end, r.value, nt) && Fits(r.value, nesting)
    decreases |t| - p - 1, 2
  {
    hide SkipSpaces, DenotesItems, ParseItems, Blanks;
    var q, r := SkipSpaces(t, p + 1), ParseArray(t, p, nesting + 1, nt);
    SkippedAreBlanks(t, p + 1);
    if At(t, q) != RBRACKET {
      ItemsAreDenoted(t, q, nesting + 1, nt, []);
      assert r.value.items[0..] == r.value.items;
    }
    ArrayOf(t, p, q, r.end, r.value.items, nt);
  }

  lemma ArrayOf(t: bytes, p: nat, q: nat, e: nat, items: seq<Value>, nt: NumberText)
    requires Mark(t, p, 0x5B) && Blanks(t, p + 1, q)
    requires if |items| == 0 then Mark(t, q, 0x5D) && e == q + 1 else DenotesItems(t, q, e, items, nt)
    ensures Denotes(t, p, e, Array(items), nt)
  {
    hide Blanks;
  }

  lemma ObjectOf(t: bytes, p: nat, q: nat, e: nat, ms: seq<Member>, nt: NumberText)
    requires Mark(t, p, 0x7B) && Blanks(t, p + 1, q) && Distinct(ms)
    requires if |ms| == 0 then Mark(t, q, 0x7D) && e == q + 1 else DenotesMembers(t, q, e, ms, nt)
    ensures Denotes(t, p, e, Object(ms), nt)
  {
    hide Blanks, Distinct;
  }

  /** The items that the loop adds to those in front of it. */
  ghost predicate ItemsRead(t: bytes, p: nat, e: nat, v: Value, done: seq<Value>, nesting: nat, nt: NumberText) {
    && v.Array? && |done| < |v.items| && done == v.items[..|done|]
    && DenotesItems(t, p, e, v.items[|done|..], nt)
    && forall i :: |done| <= i < |v.items| ==> Fits(v.items[i], nesting)
  }

  lemma {:induction false} ItemsAreDenoted(t: bytes, p: nat, nesting: nat, nt: NumberText, done: seq<Value>)
    requires p <= |t| && SkipSpaces(t, p) == p && ParseItems(t, p, nesting, nt, done).Parsed?
    requires At(t, p) != RBRACKET
    ensures var r := ParseItems(t, p, nesting, nt, done);
            ItemsRead(t, p, r.end, r.value, done, nesting, nt)
    decreases |t| - p, 1
  {
    hide SkipSpaces, ParseItems, ParseValue, Denotes, DenotesItems, Blanks, Fits, Closes;
    var r := ParseItems(t, p, nesting, nt, done);
    ItemIsThere(t, p, nesting, nt, done);
    ValueIsDenoted(t, p, nesting, nt);
    var v, q := ParseValue(t, p, nesting, nt).value, ParseValue(t, p, nesting, nt).end;
    var e := SkipSpaces(t, q);
    SkippedAreBlanks(t, q);
    ItemStep(t, p, nesting, nt, done, e);
    if At(t, e) != COMMA {
      CloseArrayAt(t, e, done + [v]);
      BracketCloses(t, e, 0x5D);
      OneItem(t, p, q, e, r.end, v, nt);
      assert (done + [v])[|done|..] == [v];
    } else {
      var s := SkipSpaces(t, e + 1);
      SkippedAreBlanks(t, e + 1);
      if At(t, s) == RBRACKET {
        CloseArrayAt(t, s, done + [v]);
        CommaCloses(t, e, s, 0x5D);
        OneItem(t, p, q, e, r.end, v, nt);
        assert (done + [v])[|done|..] == [v];
      } else {
        ItemsAreDenoted(t, s, nesting, nt, done + [v]);
        ConsItem(t, p, q, e, s, r.end, v, r.value.items[|done| + 1..], nt);
        assert r.value.items[|done|] == v && [v] + r.value.items[|done| + 1..] == r.value.items[|done|..];
      }
    }
  }

  /** The loop goes on only where there is text, and only with an item. */
  lemma ItemIsThere(t: bytes, p: nat, nesting: nat, nt: NumberText, done: seq<Value>)
    requires p <= |t| && SkipSpaces(t, p) == p && ParseItems(t, p, nesting, nt, done).Parsed?
    requires At(t, p) != RBRACKET
    ensures p < |t| && At(t, p) != NUL && ParseValue(t, p, nesting, nt).Parsed?
  {
    hide SkipSpaces, ParseValue, ParseItems;
    ItemsEnd(t, p, nesting, nt, done);
    if p < |t| && At(t, p) != NUL && ParseValue(t, p, nesting, nt).Refused? {
      ItemRefused(t, p, nesting, nt, done);
    }
  }

  lemma CloseArrayAt(t: bytes, p: nat, items: seq<Value>)
    requires p <= |t| && SkipSpaces(t, p) == p && CloseArray(t, p, items).Parsed?
    ensures Mark(t, p, 0x5D) && CloseArray(t, p, items) == Parsed(Array(items), p + 1)
  {
    hide SkipSpaces;
  }

  lemma BracketCloses(t: bytes, p: nat, bracket: byte)
    requires Mark(t, p, bracket)
    ensures Closes(t, p, p + 1, bracket)
  {
  }

  lemma CommaCloses(t: bytes, p: nat, q: nat, bracket: byte)
    requires Mark(t, p, 0x2C) && Blanks(t, p + 1, q) && Mark(t, q, bracket)
    ensures Closes(t, p, q + 1, bracket)
  {
  }

  lemma OneItem(t: bytes, p: nat, q: nat, r: nat, e: nat, v: Value, nt: NumberText)
    requires Denotes(t, p, q, v, nt) && Blanks(t, q, r) && Closes(t, r, e, 0x5D)
    ensures DenotesItems(t, p, e, [v], nt)
  {
    hide Denotes, Blanks, Closes;
    assert Denotes(t, p, q, [v][0], nt);
  }

  lemma ConsItem(t: bytes, p: nat, q: nat, r: nat, s: nat, e: nat, v: Value, more: seq<Value>, nt: NumberText)
    requires Denotes(t, p, q, v, nt) && Blanks(t, q, r) && Mark(t, r, 0x2C) && Blanks(t, r + 1, s)
    requires |more| > 0 && DenotesItems(t, s, e, more, nt)
    ensures DenotesItems(t, p, e, [v] + more, nt)
  {
    MoreAhead(t, r, s, e, more, nt);
    hide Denotes, Blanks, AndMoreItems;
    var items := [v] + more;
    assert items[0] == v && items[1..] == more;
    assert Denotes(t, p, q, items[0], nt);
  }

  lemma MoreAhead(t: bytes, r: nat, s: nat, e: nat, items: seq<Value>, nt: NumberText)
    requires |items| > 0 && Mark(t, r, 0x2C) && Blanks(t, r + 1, s) && DenotesItems(t, s, e, items, nt)
    ensures AndMoreItems(t, r, e, items, nt)
  {
  }

  lemma {:induction false} ObjectIsDenoted(t: bytes, p: nat, nesting: nat, nt: NumberText)
    requires p < |t| && t[p] == LBRACE && ParseObject(t, p, nesting + 1, nt).Parsed? && nesting <= MAX_NESTING
    ensures var r := ParseObject(t, p, nesting + 1, nt);
            Denotes(t, p, r.end, r.value, nt) && Fits(r.value, nesting)
    decreases |t| - p - 1, 2
  {
    hide SkipSpaces, DenotesMembers, ParseMembers, Blanks;
    var q, r := SkipSpaces(t, p + 1), ParseObject(t, p, nesting + 1, nt);
    SkippedAreBlanks(t, p + 1);
    if At(t, q) != RBRACE {
      MembersAreDenoted(t, q, nesting + 1, nt, []);
      assert r.value.members[0..] == r.value.members;
    }
    ObjectOf(t, p, q, r.end, r.value.members, nt);
  }

  lemma {:induction false} MemberIsDenoted(t: bytes, p: nat, nesting: nat, nt: NumberText)
    requires p <= |t| && ParseMember(t, p, nesting, nt).Parsed?
    ensures var r := ParseMember(t, p, nesting, nt);
            DenotesMember(t, p, r.end, r.value, nt) && Fits(r.value.value, nesting)
    decreases |t| - p, 0
  {
    hide SkipSpaces, ParseValue, Denotes, Blanks, Fits, GetQuoted, Literal;
    var name := GetQuoted(t, p);
    var q := SkipSpaces(t, name.end);
    LiteralsAreRead(t, p, name.end, name.value);
    SkippedAreBlanks(t, name.end);
    ValueIsDenoted(t, q + 1, nesting, nt);
    SkippedAreBlanks(t, q + 1);
    assert Mark(t, q, 0x3A);
  }

  /** The members that the loop adds to those in front of it. */
  ghost predicate MembersRead(t: bytes, p: nat, e: nat, v: Value, done: seq<Member>, nesting: nat, nt: NumberText) {
    && v.Object? && Distinct(v.members) && |done| < |v.members| && done == v.members[..|done|]
    && DenotesMembers(t, p, e, v.members[|done|..], nt)
    && forall i :: |done| <= i < |v.members| ==> Fits(v.members[i].value, nesting)
  }

  lemma {:induction false} MembersAreDenoted(t: bytes, p: nat, nesting: nat, nt: NumberText, done: seq<Member>)
    requires p <= |t| && SkipSpaces(t, p) == p && ParseMembers(t, p, nesting, nt, done).Parsed?
    requires At(t, p) != RBRACE && Distinct(done)
    ensures var r := ParseMembers(t, p, nesting, nt, done);
            MembersRead(t, p, r.end, r.value, done, nesting, nt)
    decreases |t| - p, 1
  {
    hide SkipSpaces, ParseMembers, ParseMember, DenotesMember, DenotesMembers, Blanks, Fits, Closes;
    hide AddMember, Distinct;
    var r := ParseMembers(t, p, nesting, nt, done);
    MemberIsThere(t, p, nesting, nt, done);
    MemberIsDenoted(t, p, nesting, nt);
    var m, q := ParseMember(t, p, nesting, nt).value, ParseMember(t, p, nesting, nt).end;
    var e := SkipSpaces(t, q);
    SkippedAreBlanks(t, q);
    MemberStep(t, p, nesting, nt, done, done + [m], e);
    if At(t, e) != COMMA {
      CloseObjectAt(t, e, done + [m]);
      BracketCloses(t, e, 0x7D);
      OneMember(t, p, q, e, r.end, m, nt);
      assert (done + [m])[|done|..] == [m];
    } else {
      var s := SkipSpaces(t, e + 1);
      SkippedAreBlanks(t, e + 1);
      if At(t, s) == RBRACE {
        CloseObjectAt(t, s, done + [m]);
        CommaCloses(t, e, s, 0x7D);
        OneMember(t, p, q, e, r.end, m, nt);
        assert (done + [m])[|done|..] == [m];
      } else {
        MembersAreDenoted(t, s, nesting, nt, done + [m]);
        ConsMember(t, p, q, e, s, r.end, m, r.value.members[|done| + 1..], nt);
        assert r.value.members[|done|] == m && [m] + r.value.members[|done| + 1..] == r.value.members[|done|..];
      }
    }
  }

  /** The loop goes on only where there is text, and only with a member whose name is new. */
  lemma MemberIsThere(t: bytes, p: nat, nesting: nat, nt: NumberText, done: seq<Member>)
    requires p <= |t| && SkipSpaces(t, p) == p && ParseMembers(t, p, nesting, nt, done).Parsed?
    requires At(t, p) != RBRACE && Distinct(done)
    ensures p < |t| && At(t, p) != NUL && ParseMember(t, p, nesting, nt).Parsed?
    ensures var m := ParseMember(t, p, nesting, nt).value;
            AddMember(done, m.name, m.value) == Some(done + [m]) && Distinct(done + [m])
  {
    hide SkipSpaces, ParseMember, ParseMembers;
    MembersEnd(t, p, nesting, nt, done);
    if p < |t| && At(t, p) != NUL {
      if ParseMember(t, p, nesting, nt).Refused? {
        MemberRefused(t, p, nesting, nt, done);
      } else {
        var m := ParseMember(t, p, nesting, nt).value;
        if AddMember(done, m.name, m.value).None? {
          MemberRepeated(t, p, nesting, nt, done);
        }
      }
    }
  }

  lemma CloseObjectAt(t: bytes, p: nat, ms: seq<Member>)
    requires p <= |t| && SkipSpaces(t, p) == p && CloseObject(t, p, ms).Parsed?
    ensures Mark(t, p, 0x7D) && CloseObject(t, p, ms) == Parsed(Object(ms), p + 1)
  {
    hide SkipSpaces;
  }

  lemma OneMember(t: bytes, p: nat, q: nat, r: nat, e: nat, m: Member, nt: NumberText)
    requires DenotesMember(t, p, q, m, nt) && Blanks(t, q, r) && Closes(t, r, e, 0x7D)
    ensures DenotesMembers(t, p, e, [m], nt)
  {
    hide DenotesMember, Blanks, Closes;
    assert DenotesMember(t, p, q, [m][0], nt);
  }

  lemma ConsMember(t: bytes, p: nat, q: nat, r: nat, s: nat, e: nat, m: Member, more: seq<Member>, nt: NumberText)
    requires DenotesMember(t, p, q, m, nt) && Blanks(t, q, r) && Mark(t, r, 0x2C) && Blanks(t, r + 1, s)
    requires |more| > 0 && DenotesMembers(t, s, e, more, nt)
    ensures DenotesMembers(t, p, e, [m] + more, nt)
  {
    MoreMembersAhead(t, r, s, e, more, nt);
    hide DenotesMember, Blanks, AndMoreMembers;
    var ms := [m] + more;
    assert ms[0] == m && ms[1..] == more;
    assert DenotesMember(t, p, q, ms[0], nt);
  }

  lemma MoreMembersAhead(t: bytes, r: nat, s: nat, e: nat, ms: seq<Member>, nt: NumberText)
    requires |ms| > 0 && Mark(t, r, 0x2C) && Blanks(t, r + 1, s) && DenotesMembers(t, s, e, ms, nt)
    ensures AndMoreMembers(t, r, e, ms, nt)
  {
  }

  // ----- whole texts

  /**
   * The parser accepts a text with a value if and only if, behind a byte order mark and blanks, the text starts with
   * something that denotes the value, and the value is at most 2048 containers deep.
   */
  lemma ParserAccepts(t: bytes, v: Value, nt: NumberText)
    ensures ParseText(t, nt) == Some(v) <==> TextDenotes(t, v, nt) && Height(v) <= 2048
  {
    hide ParseValue, Denotes, Blanks, SkipSpaces, Height, Fits;
    FitsIsHeight(v, 0);
    var start := if |t| >= 3 && t[..3] == [0xEF, 0xBB, 0xBF] then 3 else 0;
    assert StartsWith(t, 0, [0xEF, 0xBB, 0xBF]) <==> start == 3 by {
      assert |t| >= 3 ==> t[0..3] == t[..3];
    }
    if ParseText(t, nt) == Some(v) {
      ValueIsDenoted(t, start, 0, nt);
      SkippedAreBlanks(t, start);
    }
    if TextDenotes(t, v, nt) && Height(v) <= 2048 {
      var p: nat, e: nat :| Blanks(t, start, p) && Denotes(t, p, e, v, nt);
      ValueIsParsed(t, start, p, e, v, 0, nt);
    }
  }

  /** So a text denotes one value at most within the limit. */
  lemma OneMeaning(t: bytes, v: Value, w: Value, nt: NumberText)
    requires TextDenotes(t, v, nt) && TextDenotes(t, w, nt) && Height(v) <= 2048 && Height(w) <= 2048
    ensures v == w
  {
    hide TextDenotes, Height, ParseText;
    ParserAccepts(t, v, nt);
    ParserAccepts(t, w, nt);
  }

  lemma {:induction false} DenotedIsWellFormed(t: bytes, p: nat, e: nat, v: Value, nt: NumberText)
    requires Denotes(t, p, e, v, nt)
    ensures WellFormed(v)
    decreases v, 1
  {
    match v {
      case Array(items) =>
        if |items| > 0 {
          var q: nat :| Blanks(t, p + 1, q) && DenotesItems(t, q, e, items, nt);
          ItemsAreWellFormed(t, q, e, items, nt);
        }
      case Object(ms) =>
        if |ms| > 0 {
          var q: nat :| Blanks(t, p + 1, q) && DenotesMembers(t, q, e, ms, nt);
          MembersAreWellFormed(t, q, e, ms, nt);
        }
      case _ =>
    }
  }

  lemma {:induction false} ItemsAreWellFormed(t: bytes, p: nat, e: nat, items: seq<Value>, nt: NumberText)
    requires |items| > 0 && DenotesItems(t, p, e, items, nt)
    ensures forall i :: 0 <= i < |items| ==> WellFormed(items[i])
    decreases items, 0
  {
    hide Blanks, Closes, Denotes, WellFormed;
    var q: nat, r: nat :| Denotes(t, p, q, items[0], nt) && Blanks(t, q, r)
      && if |items| == 1 then Closes(t, r, e, 0x5D) else AndMoreItems(t, r, e, items[1..], nt);
    DenotedIsWellFormed(t, p, q, items[0], nt);
    if |items| > 1 {
      var s := MoreItems(t, r, e, items[1..], nt);
      ItemsAreWellFormed(t, s, e, items[1..], nt);
      assert items == [items[0]] + items[1..];
    }
  }

  lemma {:induction false} MembersAreWellFormed(t: bytes, p: nat, e: nat, ms: seq<Member>, nt: NumberText)
    requires |ms| > 0 && DenotesMembers(t, p, e, ms, nt)
    ensures forall i :: 0 <= i < |ms| ==> NulFree(ms[i].name) && WellFormed(ms[i].value)
    decreases ms, 0
  {
    hide Blanks, Closes, DenotesMember, WellFormed, NulFree;
    var q: nat, r: nat :| DenotesMember(t, p, q, ms[0], nt) && Blanks(t, q, r)
      && if |ms| == 1 then Closes(t, r, e, 0x7D) else AndMoreMembers(t, r, e, ms[1..], nt);
    NamedValue(t, p, q, ms[0], nt);
    if |ms| > 1 {
      var s := MoreMembers(t, r, e, ms[1..], nt);
      MembersAreWellFormed(t, s, e, ms[1..], nt);
      assert ms == [ms[0]] + ms[1..];
    }
  }

  lemma {:induction false} NamedValue(t: bytes, p: nat, e: nat, m: Member, nt: NumberText)
    requires DenotesMember(t, p, e, m, nt)
    ensures NulFree(m.name) && WellFormed(m.value)
    decreases m, 0
  {
    hide Blanks, Denotes, Literal, WellFormed;
    var q: nat, r: nat, s: nat :| Literal(t, p, q, m.name) && Blanks(t, q, r) && Mark(t, r, 0x3A)
      && Blanks(t, r + 1, s) && Denotes(t, s, e, m.value, nt);
    DenotedIsWellFormed(t, s, e, m.value, nt);
  }

  /** Whatever the parser accepts has distinct names without a NUL in every object, so a table can hold it. */
  lemma AcceptedIsWellFormed(t: bytes, v: Value, nt: NumberText)
    requires ParseText(t, nt) == Some(v)
    ensures WellFormed(v)
  {
    hide ParseText, Height, WellFormed, Denotes;
    ParserAccepts(t, v, nt);
    var start := if |t| >= 3 && t[..3] == [0xEF, 0xBB, 0xBF] then 3 else 0;
    var p: nat, e: nat :| Blanks(t, start, p) && Denotes(t, p, e, v, nt);
    DenotedIsWellFormed(t, p, e, v, nt);
  }
}
