/**
 * The recursive-descent parser, as functions of a text and a cursor position: what the cursor-moving
 * methods of JsonParser.dfy compute.
 */
module JsonParse {
  import opened Bytes
  import opened JsonValue
  import opened JsonText

  const MAX_NESTING: nat := 2048

  datatype Parsed<+T> = Refused | Parsed(value: T, end: nat)

  predicate IsSpace(c: byte) {
    c == 0x20 || 0x09 <= c <= 0x0D
  }

  function SkipSpaces(t: bytes, p: nat): (r: nat)
    ensures p <= r && (p <= |t| ==> r <= |t|)
    ensures !IsSpace(At(t, r))
    ensures forall i :: p <= i < r ==> IsSpace(At(t, i))
    decreases |t| - p
  {
    if IsSpace(At(t, p)) then SkipSpaces(t, p + 1) else p
  }

  // ----- strings

  /** skip_quotes, after the opening quote: the position behind the closing quote. */
  function SkipQuoted(t: bytes, p: nat): (r: Option<nat>)
    ensures r.Some? ==> p < r.value <= |t| && t[r.value - 1] == QUOTE
    decreases |t| - p
  {
    var c := At(t, p);
    if c == QUOTE then Some(p + 1)
    else if c == NUL then None
    else if c == BACKSLASH then if At(t, p + 1) == NUL then None else SkipQuoted(t, p + 2)
    else SkipQuoted(t, p + 1)
  }

  function SkipQuotes(t: bytes, p: nat): Option<nat> {
    if At(t, p) == QUOTE then SkipQuoted(t, p + 1) else None
  }

  function HexValue(c: byte): (r: Option<nat>)
    ensures r.Some? ==> r.value < 16 && 0x30 <= c <= 0x66 && c != QUOTE && c != BACKSLASH
  {
    if 0x30 <= c <= 0x39 then Some(c - 0x30)
    else if 0x61 <= c <= 0x66 then Some(c - 0x61 + 10)
    else if 0x41 <= c <= 0x46 then Some(c - 0x41 + 10)
    else None
  }

  /** parse_utf16_hex: four hexadecimal digits. */
  function Hex4(t: bytes, p: nat): (r: Option<nat>)
    ensures r.Some? ==> r.value < 0x10000
    ensures r.Some? ==> p + 4 <= |t| && forall i :: p <= i < p + 4 ==> HexValue(t[i]).Some?
  {
    var a, b, c, d := HexValue(At(t, p)), HexValue(At(t, p + 1)), HexValue(At(t, p + 2)), HexValue(At(t, p + 3));
    if a.None? || b.None? || c.None? || d.None? then None
    else Some(a.value * 0x1000 + b.value * 0x100 + c.value * 0x10 + d.value)
  }

  /** The bytes parse_utf16 writes for a code point. */
  function EncodeUtf8(cp: nat): (r: bytes)
    requires cp <= 0x10FFFF
    ensures 1 <= |r| <= 4
  {
    if cp < 0x80 then [cp]
    else if cp < 0x800 then [0xC0 + cp / 0x40, 0x80 + cp % 0x40]
    else if cp < 0x10000 then [0xE0 + cp / 0x1000, 0x80 + cp / 0x40 % 0x40, 0x80 + cp % 0x40]
    else [0xF0 + cp / 0x40000, 0x80 + cp / 0x1000 % 0x40, 0x80 + cp / 0x40 % 0x40, 0x80 + cp % 0x40]
  }

  predicate IsLead(u: nat) { 0xD800 <= u <= 0xDBFF }

  predicate IsTrail(u: nat) { 0xDC00 <= u <= 0xDFFF }

  function Combine(lead: nat, trail: nat): (cp: nat)
    requires IsLead(lead) && IsTrail(trail)
    ensures 0x10000 <= cp <= 0x10FFFF
  {
    (lead - 0xD800) * 0x400 + (trail - 0xDC00) + 0x10000
  }

  /** parse_utf16, with the cursor on the `u`: one escape, or a surrogate pair of escapes. */
  function ParseUtf16(t: bytes, p: nat): (r: Parsed<nat>)
    ensures r.Parsed? ==> p < r.end <= |t| && r.value <= 0x10FFFF
  {
    var u := Hex4(t, p + 1);
    if u.None? then Refused
    else if IsLead(u.value) then
      if At(t, p + 5) != BACKSLASH || At(t, p + 6) != LOWER_U then Refused
      else
        var w := Hex4(t, p + 7);
        if w.None? || !IsTrail(w.value) then Refused else Parsed(Combine(u.value, w.value), p + 11)
    else if IsTrail(u.value) then Refused
    else Parsed(u.value, p + 5)
  }

  function SimpleEscape(c: byte): Option<byte> {
    if c == QUOTE || c == BACKSLASH || c == SLASH then Some(c)
    else if c == 0x62 then Some(0x08)
    else if c == 0x66 then Some(0x0C)
    else if c == 0x6E then Some(0x0A)
    else if c == 0x72 then Some(0x0D)
    else if c == 0x74 then Some(0x09)
    else None
  }

  /** What one turn of the process_string loop appends, and where it leaves the input pointer. */
  function UnescapeOne(t: bytes, q: nat): (r: Parsed<bytes>)
    requires q < |t|
    ensures r.Parsed? ==> q < r.end <= |t|
    ensures r.Parsed? ==> 1 <= |r.value| <= r.end - q
  {
    var c := t[q];
    if c == BACKSLASH then
      var e := At(t, q + 1);
      if e == LOWER_U then
        match ParseUtf16(t, q + 1)
        case Refused => Refused
        case Parsed(cp, end) => Parsed(EncodeUtf8(cp), end)
      else
        match SimpleEscape(e)
        case None => Refused
        case Some(b) => Parsed([b], q + 2)
    else if c < 0x20 then Refused
    else Parsed([c], q + 1)
  }

  function Prepend(out: bytes, r: Parsed<bytes>): Parsed<bytes> {
    match r
    case Refused => Refused
    case Parsed(more, end) => Parsed(out + more, end)
  }

  /** process_string on the input that starts at `q` and is `limit - q` long; `end` is the final input pointer. */
  function Process(t: bytes, q: nat, limit: nat): (r: Parsed<bytes>)
    ensures r.Parsed? ==> q <= r.end && |r.value| <= r.end - q
    decreases |t| - q
  {
    if At(t, q) == NUL || q >= limit then Parsed([], q)
    else
      match UnescapeOne(t, q)
      case Refused => Refused
      case Parsed(out, q') => Prepend(out, Process(t, q', limit))
  }

  /** get_quoted_string */
  function GetQuoted(t: bytes, p: nat): (r: Parsed<bytes>)
    ensures r.Parsed? ==> p + 1 < r.end <= |t|
  {
    match SkipQuotes(t, p)
    case None => Refused
    case Some(end) =>
      match Process(t, p + 1, p + 1 + (end - p - 2))
      case Refused => Refused
      case Parsed(s, _) => Parsed(s, end)
  }

  // ----- values

  function ParseNumber(t: bytes, p: nat, nt: NumberText): (r: Parsed<Value>)
    requires p <= |t|
    ensures r.Parsed? ==> p <= r.end <= |t|
  {
    var d := nt.strtod(t[p..]);
    if d.refused || p + d.length > |t| || !IsDecimal(t[p..p + d.length]) then Refused
    else Parsed(Number(d.value), p + d.length)
  }

  function ParseValue(t: bytes, pos: nat, nesting: nat, nt: NumberText): (r: Parsed<Value>)
    requires pos <= |t|
    ensures r.Parsed? ==> pos <= r.end <= |t|
    decreases |t| - pos, 0
  {
    if nesting > MAX_NESTING then Refused
    else
      var p := SkipSpaces(t, pos);
      var c := At(t, p);
      if c == LBRACE then ParseObject(t, p, nesting + 1, nt)
      else if c == LBRACKET then ParseArray(t, p, nesting + 1, nt)
      else if c == QUOTE then
        match GetQuoted(t, p)
        case Refused => Refused
        case Parsed(s, end) => Parsed(String(s), end)
      else if c == 0x66 || c == 0x74 then
        if StartsWith(t, p, TRUE_TEXT) then Parsed(Boolean(true), p + 4)
        else if StartsWith(t, p, FALSE_TEXT) then Parsed(Boolean(false), p + 5)
        else Refused
      else if c == MINUS || IsDigit(c) then ParseNumber(t, p, nt)
      else if c == 0x6E then
        if StartsWith(t, p, NULL_TEXT) then Parsed(Null, p + 4) else Refused
      else Refused
  }

  function ParseArray(t: bytes, p: nat, nesting: nat, nt: NumberText): (r: Parsed<Value>)
    requires p < |t| && t[p] == LBRACKET
    ensures r.Parsed? ==> p <= r.end <= |t|
    decreases |t| - p - 1, 2
  {
    var q := SkipSpaces(t, p + 1);
    if At(t, q) == RBRACKET then Parsed(Array([]), q + 1) else ParseItems(t, q, nesting, nt, [])
  }

  /** The loop of parse_array_value, with the items read so far. */
  function ParseItems(t: bytes, p: nat, nesting: nat, nt: NumberText, items: seq<Value>): (r: Parsed<Value>)
    requires p <= |t|
    ensures r.Parsed? ==> p <= r.end <= |t|
    decreases |t| - p, 1
  {
    if At(t, p) == NUL then CloseArray(t, p, items)
    else
      match ParseValue(t, p, nesting, nt)
      case Refused => Refused
      case Parsed(v, end) =>
        var q := SkipSpaces(t, end);
        if At(t, q) != COMMA then CloseArray(t, q, items + [v])
        else
          var q' := SkipSpaces(t, q + 1);
          if At(t, q') == RBRACKET then CloseArray(t, q', items + [v])
          else ParseItems(t, q', nesting, nt, items + [v])
  }

  function CloseArray(t: bytes, p: nat, items: seq<Value>): (r: Parsed<Value>)
    requires p <= |t|
    ensures r.Parsed? ==> p <= r.end <= |t|
  {
    var q := SkipSpaces(t, p);
    if At(t, q) != RBRACKET then Refused else Parsed(Array(items), q + 1)
  }

  function ParseObject(t: bytes, p: nat, nesting: nat, nt: NumberText): (r: Parsed<Value>)
    requires p < |t| && t[p] == LBRACE
    ensures r.Parsed? ==> p <= r.end <= |t|
    decreases |t| - p - 1, 2
  {
    var q := SkipSpaces(t, p + 1);
    if At(t, q) == RBRACE then Parsed(Object([]), q + 1) else ParseMembers(t, q, nesting, nt, [])
  }

  /** One name, colon and value. A name with an embedded NUL is refused. */
  function ParseMember(t: bytes, p: nat, nesting: nat, nt: NumberText): (r: Parsed<Member>)
    requires p <= |t|
    ensures r.Parsed? ==> p < r.end <= |t|
    decreases |t| - p, 0
  {
    match GetQuoted(t, p)
    case Refused => Refused
    case Parsed(name, end) =>
      if !NulFree(name) then Refused
      else
        var q := SkipSpaces(t, end);
        if At(t, q) != COLON then Refused
        else
          match ParseValue(t, q + 1, nesting, nt)
          case Refused => Refused
          case Parsed(v, end') => Parsed(Member(name, v), end')
  }

  /** The loop of parse_object_value, with the members added so far. */
  function ParseMembers(t: bytes, p: nat, nesting: nat, nt: NumberText, ms: seq<Member>): (r: Parsed<Value>)
    requires p <= |t|
    ensures r.Parsed? ==> p <= r.end <= |t|
    decreases |t| - p, 1
  {
    if At(t, p) == NUL then CloseObject(t, p, ms)
    else
      match ParseMember(t, p, nesting, nt)
      case Refused => Refused
      case Parsed(m, end) =>
        match AddMember(ms, m.name, m.value)
        case None => Refused
        case Some(ms') =>
          var q := SkipSpaces(t, end);
          if At(t, q) != COMMA then CloseObject(t, q, ms')
          else
            var q' := SkipSpaces(t, q + 1);
            if At(t, q') == RBRACE then CloseObject(t, q', ms')
            else ParseMembers(t, q', nesting, nt, ms')
  }

  function CloseObject(t: bytes, p: nat, ms: seq<Member>): (r: Parsed<Value>)
    requires p <= |t|
    ensures r.Parsed? ==> p <= r.end <= |t|
  {
    var q := SkipSpaces(t, p);
    if At(t, q) != RBRACE then Refused else Parsed(Object(ms), q + 1)
  }

  // ----- single turns of the parser's loops

  lemma ArrayStep(t: bytes, p: nat, nesting: nat, nt: NumberText)
    requires p < |t| && t[p] == LBRACKET
    ensures var q := SkipSpaces(t, p + 1);
            ParseArray(t, p, nesting, nt)
            == if At(t, q) == RBRACKET then Parsed(Array([]), q + 1) else ParseItems(t, q, nesting, nt, [])
  {
  }

  lemma ItemRefused(t: bytes, p: nat, nesting: nat, nt: NumberText, items: seq<Value>)
    requires p < |t| && At(t, p) != NUL && ParseValue(t, p, nesting, nt).Refused?
    ensures ParseItems(t, p, nesting, nt, items) == Refused
  {
  }

  lemma ItemsEnd(t: bytes, p: nat, nesting: nat, nt: NumberText, items: seq<Value>)
    requires p <= |t|
    ensures At(t, p) == NUL ==> ParseItems(t, p, nesting, nt, items) == CloseArray(t, p, items)
  {
  }

  lemma ItemStep(t: bytes, p: nat, nesting: nat, nt: NumberText, items: seq<Value>, e: nat)
    requires p < |t| && At(t, p) != NUL && ParseValue(t, p, nesting, nt).Parsed?
    requires e == SkipSpaces(t, ParseValue(t, p, nesting, nt).end)
    ensures var v := ParseValue(t, p, nesting, nt).value;
            e <= |t| && ParseItems(t, p, nesting, nt, items)
            == if At(t, e) != COMMA then CloseArray(t, e, items + [v])
               else
                 var q := SkipSpaces(t, e + 1);
                 if At(t, q) == RBRACKET then CloseArray(t, q, items + [v])
                 else ParseItems(t, q, nesting, nt, items + [v])
  {
    hide ParseValue, CloseArray, SkipSpaces;
  }

  lemma ObjectStep(t: bytes, p: nat, nesting: nat, nt: NumberText)
    requires p < |t| && t[p] == LBRACE
    ensures var q := SkipSpaces(t, p + 1);
            ParseObject(t, p, nesting, nt)
            == if At(t, q) == RBRACE then Parsed(Object([]), q + 1) else ParseMembers(t, q, nesting, nt, [])
  {
  }

  lemma MemberRefused(t: bytes, p: nat, nesting: nat, nt: NumberText, ms: seq<Member>)
    requires p < |t| && At(t, p) != NUL && ParseMember(t, p, nesting, nt).Refused?
    ensures ParseMembers(t, p, nesting, nt, ms) == Refused
  {
  }

  lemma MemberRepeated(t: bytes, p: nat, nesting: nat, nt: NumberText, ms: seq<Member>)
    requires p < |t| && At(t, p) != NUL && ParseMember(t, p, nesting, nt).Parsed?
    requires var m := ParseMember(t, p, nesting, nt).value; AddMember(ms, m.name, m.value).None?
    ensures ParseMembers(t, p, nesting, nt, ms) == Refused
  {
  }

  lemma MembersEnd(t: bytes, p: nat, nesting: nat, nt: NumberText, ms: seq<Member>)
    requires p <= |t|
    ensures At(t, p) == NUL ==> ParseMembers(t, p, nesting, nt, ms) == CloseObject(t, p, ms)
  {
  }

  lemma MemberStep(t: bytes, p: nat, nesting: nat, nt: NumberText, ms: seq<Member>, ms': seq<Member>, e: nat)
    requires p < |t| && At(t, p) != NUL && ParseMember(t, p, nesting, nt).Parsed?
    requires var m := ParseMember(t, p, nesting, nt).value; AddMember(ms, m.name, m.value) == Some(ms')
    requires e == SkipSpaces(t, ParseMember(t, p, nesting, nt).end)
    ensures e <= |t| && ParseMembers(t, p, nesting, nt, ms)
            == if At(t, e) != COMMA then CloseObject(t, e, ms')
               else
                 var q := SkipSpaces(t, e + 1);
                 if At(t, q) == RBRACE then CloseObject(t, q, ms') else ParseMembers(t, q, nesting, nt, ms')
  {
    hide ParseMember, CloseObject, AddMember, SkipSpaces;
  }

  /** json_parse_string: an optional byte order mark, then one value; text behind it is ignored. */
  function ParseText(t: bytes, nt: NumberText): Option<Value> {
    var p := if StartsWith(t, 0, [0xEF, 0xBB, 0xBF]) then 3 else 0;
    match ParseValue(t, p, 0, nt)
    case Refused => None
    case Parsed(v, _) => Some(v)
  }
}
