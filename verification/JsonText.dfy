/** The text a JSON value is printed to, compact or pretty. */
module JsonText {
  import opened Bytes
  import opened JsonValue

  const QUOTE: byte := 0x22
  const COMMA: byte := 0x2C
  const SLASH: byte := 0x2F
  const COLON: byte := 0x3A
  const BACKSLASH: byte := 0x5C
  const NEWLINE: byte := 0x0A
  const SPACE: byte := 0x20
  const LBRACKET: byte := 0x5B
  const RBRACKET: byte := 0x5D
  const LBRACE: byte := 0x7B
  const RBRACE: byte := 0x7D
  const MINUS: byte := 0x2D
  const LOWER_U: byte := 0x75

  const TRUE_TEXT: bytes := [0x74, 0x72, 0x75, 0x65]
  const FALSE_TEXT: bytes := [0x66, 0x61, 0x6C, 0x73, 0x65]
  const NULL_TEXT: bytes := [0x6E, 0x75, 0x6C, 0x6C]

  /** What the C library's strtod reports about the text it is given. */
  datatype Strtod = Strtod(value: real, length: nat, refused: bool)

  /** The number text functions, which belong to the C library or to the caller. */
  datatype NumberText = NumberText(format: real -> bytes, strtod: bytes -> Strtod)

  /** The settings a serialization depends on. */
  datatype Style = Style(pretty: bool, escapeSlashes: bool, numbers: NumberText)

  predicate IsDigit(c: byte) {
    0x30 <= c <= 0x39
  }

  /** is_decimal: no leading zero before another digit, no hexadecimal marker. */
  predicate IsDecimal(s: bytes) {
    && !(|s| > 1 && s[0] == 0x30 && s[1] != 0x2E)
    && !(|s| > 2 && s[0] == MINUS && s[1] == 0x30 && s[2] != 0x2E)
    && forall i :: 0 <= i < |s| ==> s[i] != 0x78 && s[i] != 0x58 && s[i] != NUL
  }

  /** The bytes that can follow a number in printed text. */
  predicate EndsNumber(rest: bytes) {
    rest == [] || rest[0] == COMMA || rest[0] == RBRACKET || rest[0] == RBRACE || rest[0] == NEWLINE
  }

  /** The number text of `n` is read back: the assumption under which a value round-trips. */
  ghost predicate NumberRoundTrips(nt: NumberText, n: real) {
    var text := nt.format(n);
    && |text| > 0 && (text[0] == MINUS || IsDigit(text[0]))
    && IsDecimal(text) && NulFree(text)
    && forall rest :: EndsNumber(rest) ==> nt.strtod(text + rest) == Strtod(n, |text|, false)
  }

  function HexDigit(d: nat): byte
    requires d < 16
  {
    if d < 10 then 0x30 + d else 0x61 + d - 10
  }

  /** One byte of a string, as json_serialize_string writes it. */
  function EscapeByte(c: byte, slashes: bool): (r: bytes)
    ensures 1 <= |r| <= 6
  {
    if c == QUOTE then [BACKSLASH, QUOTE]
    else if c == BACKSLASH then [BACKSLASH, BACKSLASH]
    else if c == 0x08 then [BACKSLASH, 0x62]
    else if c == 0x0C then [BACKSLASH, 0x66]
    else if c == 0x0A then [BACKSLASH, 0x6E]
    else if c == 0x0D then [BACKSLASH, 0x72]
    else if c == 0x09 then [BACKSLASH, 0x74]
    else if c < 0x20 then [BACKSLASH, LOWER_U, 0x30, 0x30, HexDigit(c / 16), HexDigit(c % 16)]
    else if c == SLASH && slashes then [BACKSLASH, SLASH]
    else [c]
  }

  function Escape(s: bytes, slashes: bool): bytes {
    if |s| == 0 then [] else EscapeByte(s[0], slashes) + Escape(s[1..], slashes)
  }

  function Quoted(s: bytes, slashes: bool): bytes {
    [QUOTE] + Escape(s, slashes) + [QUOTE]
  }

  function Indent(level: nat): bytes {
    if level == 0 then [] else [SPACE, SPACE, SPACE, SPACE] + Indent(level - 1)
  }

  /** The line break and indentation that pretty printing puts around the parts of a container. */
  function Gap(level: nat, style: Style): bytes {
    if style.pretty then [NEWLINE] + Indent(level) else []
  }

  function Print(v: Value, level: nat, style: Style): bytes
    decreases v, 1
  {
    match v
    case Null => NULL_TEXT
    case Boolean(b) => if b then TRUE_TEXT else FALSE_TEXT
    case Number(n) => style.numbers.format(n)
    case String(s) => Quoted(s, style.escapeSlashes)
    case Array(items) =>
      if |items| == 0 then [LBRACKET, RBRACKET]
      else [LBRACKET] + Gap(level + 1, style) + PrintItems(items, level, style) + Gap(level, style) + [RBRACKET]
    case Object(members) =>
      if |members| == 0 then [LBRACE, RBRACE]
      else [LBRACE] + Gap(level + 1, style) + PrintMembers(members, level, style) + Gap(level, style) + [RBRACE]
  }

  function PrintItems(items: seq<Value>, level: nat, style: Style): bytes
    requires |items| > 0
    decreases items, 0
  {
    var first := Print(items[0], level + 1, style);
    if |items| == 1 then first
    else first + ([COMMA] + Gap(level + 1, style) + PrintItems(items[1..], level, style))
  }

  function PrintMember(m: Member, level: nat, style: Style): bytes
    decreases m, 0
  {
    Quoted(m.name, style.escapeSlashes) + [COLON] + (if style.pretty then [SPACE] else [])
    + Print(m.value, level + 1, style)
  }

  function PrintMembers(ms: seq<Member>, level: nat, style: Style): bytes
    requires |ms| > 0
    decreases ms, 0
  {
    var first := PrintMember(ms[0], level, style);
    if |ms| == 1 then first
    else first + ([COMMA] + Gap(level + 1, style) + PrintMembers(ms[1..], level, style))
  }

  /** Member names are C strings and no object repeats one: what every table keeps. */
  ghost predicate WellFormed(v: Value)
    decreases v
  {
    match v
    case Array(items) => forall i :: 0 <= i < |items| ==> WellFormed(items[i])
    case Object(members) =>
      && Distinct(members)
      && forall i :: 0 <= i < |members| ==> NulFree(members[i].name) && WellFormed(members[i].value)
    case _ => true
  }

  ghost predicate NumbersRoundTrip(v: Value, nt: NumberText)
    decreases v
  {
    match v
    case Number(n) => NumberRoundTrips(nt, n)
    case Array(items) => forall i :: 0 <= i < |items| ==> NumbersRoundTrip(items[i], nt)
    case Object(members) => forall i :: 0 <= i < |members| ==> NumbersRoundTrip(members[i].value, nt)
    case _ => true
  }
}
