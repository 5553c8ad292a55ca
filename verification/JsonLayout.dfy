/**
 * What printed text looks like, said without the printer: compact text as parts between commas, pretty text as lines
 * of which each level is indented by four spaces, and strings byte by byte.
 */
module JsonLayout {
  import opened Bytes
  import opened JsonValue
  import opened JsonText

  // ----- text from parts

  function Joined(parts: seq<bytes>, sep: bytes): bytes {
    if |parts| == 0 then []
    else if |parts| == 1 then parts[0]
    else parts[0] + sep + Joined(parts[1..], sep)
  }

  function Spaces(n: nat): (s: bytes)
    ensures |s| == n
  {
    seq(n, _ => 0x20)
  }

  // ----- strings

  /** How a byte is written between quotes: \" \\ \b \f \n \r \t, \/ on demand, \u00xx for other controls. */
  function Written(c: byte, slashes: bool): bytes {
    match c as char
    case '\"' => [0x5C, 0x22]
    case '\\' => [0x5C, 0x5C]
    case '/' => if slashes then [0x5C, 0x2F] else [0x2F]
    case '\n' => [0x5C, 0x6E]
    case '\r' => [0x5C, 0x72]
    case '\t' => [0x5C, 0x74]
    case _ =>
      if c == 0x08 then [0x5C, 0x62]
      else if c == 0x0C then [0x5C, 0x66]
      else if c < 0x10 then [0x5C, 0x75, 0x30, 0x30, 0x30, if c < 0x0A then 0x30 + c else 0x57 + c]
      else if c < 0x20 then [0x5C, 0x75, 0x30, 0x30, 0x31, if c < 0x1A then 0x20 + c else 0x47 + c]
      else [c]
  }

  function InQuotes(s: bytes, slashes: bool): bytes {
    [0x22] + Joined(seq(|s|, i requires 0 <= i < |s| => Written(s[i], slashes)), []) + [0x22]
  }

  lemma WrittenIsEscaped(c: byte, slashes: bool)
    ensures EscapeByte(c, slashes) == Written(c, slashes)
  {
  }

  lemma {:induction false} EscapeIsWritten(s: bytes, slashes: bool)
    ensures Escape(s, slashes) == Joined(seq(|s|, i requires 0 <= i < |s| => Written(s[i], slashes)), [])
  {
    hide Written, EscapeByte;
    if |s| > 0 {
      var parts := seq(|s|, i requires 0 <= i < |s| => Written(s[i], slashes));
      EscapeIsWritten(s[1..], slashes);
      WrittenIsEscaped(s[0], slashes);
      assert parts[1..] == seq(|s[1..]|, i requires 0 <= i < |s[1..]| => Written(s[1..][i], slashes));
      assert Joined(parts, []) == parts[0] + Joined(parts[1..], []);
    }
  }

  lemma QuotedIsInQuotes(s: bytes, slashes: bool)
    ensures Quoted(s, slashes) == InQuotes(s, slashes)
  {
    EscapeIsWritten(s, slashes);
  }

  // ----- compact text

  function Compact(v: Value, slashes: bool, format: real -> bytes): bytes
    decreases v, 1
  {
    match v
    case Null => [0x6E, 0x75, 0x6C, 0x6C]
    case Boolean(b) => if b then [0x74, 0x72, 0x75, 0x65] else [0x66, 0x61, 0x6C, 0x73, 0x65]
    case Number(n) => format(n)
    case String(s) => InQuotes(s, slashes)
    case Array(items) => [0x5B] + Joined(CompactItems(items, slashes, format), [0x2C]) + [0x5D]
    case Object(ms) => [0x7B] + Joined(CompactMembers(ms, slashes, format), [0x2C]) + [0x7D]
  }

  function CompactItems(items: seq<Value>, slashes: bool, format: real -> bytes): (parts: seq<bytes>)
    ensures |parts| == |items|
    decreases items, 0
  {
    if |items| == 0 then [] else [Compact(items[0], slashes, format)] + CompactItems(items[1..], slashes, format)
  }

  function CompactMember(m: Member, slashes: bool, format: real -> bytes): bytes
    decreases m, 0
  {
    InQuotes(m.name, slashes) + [0x3A] + Compact(m.value, slashes, format)
  }

  function CompactMembers(ms: seq<Member>, slashes: bool, format: real -> bytes): (parts: seq<bytes>)
    ensures |parts| == |ms|
    decreases ms, 0
  {
    if |ms| == 0 then [] else [CompactMember(ms[0], slashes, format)] + CompactMembers(ms[1..], slashes, format)
  }

  lemma NoParts(sep: bytes)
    ensures Joined([], sep) == []
  {
  }

  /** Compact printing puts no blank anywhere and is the same at every level. */
  lemma {:induction false} CompactIsPrinted(v: Value, level: nat, style: Style)
    requires !style.pretty
    ensures Print(v, level, style) == Compact(v, style.escapeSlashes, style.numbers.format)
    decreases v, 1
  {
    hide InQuotes, Quoted, PrintItems, PrintMembers, CompactItems, CompactMembers, Joined, Indent;
    NoParts([0x2C]);
    match v {
      case String(s) => QuotedIsInQuotes(s, style.escapeSlashes);
      case Array(items) => if |items| > 0 { CompactItemsPrinted(items, level, style); }
      case Object(ms) => if |ms| > 0 { CompactMembersPrinted(ms, level, style); }
      case _ =>
    }
  }

  lemma {:induction false} CompactItemsPrinted(items: seq<Value>, level: nat, style: Style)
    requires !style.pretty && |items| > 0
    ensures PrintItems(items, level, style)
         == Joined(CompactItems(items, style.escapeSlashes, style.numbers.format), [0x2C])
    decreases items, 0
  {
    hide Print, Compact;
    CompactIsPrinted(items[0], level + 1, style);
    if |items| > 1 {
      CompactItemsPrinted(items[1..], level, style);
      var parts := CompactItems(items, style.escapeSlashes, style.numbers.format);
      assert parts[1..] == CompactItems(items[1..], style.escapeSlashes, style.numbers.format);
      assert [COMMA] + Gap(level + 1, style) == [0x2C];
    }
  }

  lemma {:induction false} CompactMemberPrinted(m: Member, level: nat, style: Style)
    requires !style.pretty
    ensures PrintMember(m, level, style) == CompactMember(m, style.escapeSlashes, style.numbers.format)
    decreases m, 0
  {
    hide Print, Compact, InQuotes, Quoted;
    QuotedIsInQuotes(m.name, style.escapeSlashes);
    CompactIsPrinted(m.value, level + 1, style);
  }

  lemma {:induction false} CompactMembersPrinted(ms: seq<Member>, level: nat, style: Style)
    requires !style.pretty && |ms| > 0
    ensures PrintMembers(ms, level, style)
         == Joined(CompactMembers(ms, style.escapeSlashes, style.numbers.format), [0x2C])
    decreases ms, 0
  {
    hide PrintMember, CompactMember;
    CompactMemberPrinted(ms[0], level, style);
    if |ms| > 1 {
      CompactMembersPrinted(ms[1..], level, style);
      var parts := CompactMembers(ms, style.escapeSlashes, style.numbers.format);
      assert parts[1..] == CompactMembers(ms[1..], style.escapeSlashes, style.numbers.format);
      assert [COMMA] + Gap(level + 1, style) == [0x2C];
    }
  }

  // ----- pretty text

  function Indented(lines: seq<bytes>): (r: seq<bytes>)
    ensures |r| == |lines|
  {
    seq(|lines|, i requires 0 <= i < |lines| => Spaces(4) + lines[i])
  }

  /** The lines with `tail` behind the last one. */
  function Ended(lines: seq<bytes>, tail: bytes): (r: seq<bytes>)
    requires |lines| > 0
    ensures |r| == |lines|
  {
    lines[..|lines| - 1] + [lines[|lines| - 1] + tail]
  }

  /** The lines with `head` in front of the first one. */
  function Led(head: bytes, lines: seq<bytes>): (r: seq<bytes>)
    requires |lines| > 0
    ensures |r| == |lines|
  {
    [head + lines[0]] + lines[1..]
  }

  /**
   * A scalar or an empty container is one line. A container has its brackets on lines of their own and its parts, four
   * spaces further in, between them; every part but the last ends in a comma.
   */
  function Lines(v: Value, slashes: bool, format: real -> bytes): (r: seq<bytes>)
    ensures |r| > 0
    decreases v, 1
  {
    match v
    case Array(items) =>
      if |items| == 0 then [[0x5B, 0x5D]] else [[0x5B]] + ItemLines(items, slashes, format) + [[0x5D]]
    case Object(ms) =>
      if |ms| == 0 then [[0x7B, 0x7D]] else [[0x7B]] + MemberLines(ms, slashes, format) + [[0x7D]]
    case _ => [Compact(v, slashes, format)]
  }

  function ItemLines(items: seq<Value>, slashes: bool, format: real -> bytes): (r: seq<bytes>)
    requires |items| > 0
    ensures |r| > 0
    decreases items, 0
  {
    var first := Indented(Lines(items[0], slashes, format));
    if |items| == 1 then first else Ended(first, [0x2C]) + ItemLines(items[1..], slashes, format)
  }

  /** The name, a colon and a space stand in front of the first line of the value. */
  function NamedLines(m: Member, slashes: bool, format: real -> bytes): (r: seq<bytes>)
    ensures |r| > 0
    decreases m, 0
  {
    Led(InQuotes(m.name, slashes) + [0x3A, 0x20], Lines(m.value, slashes, format))
  }

  function MemberLines(ms: seq<Member>, slashes: bool, format: real -> bytes): (r: seq<bytes>)
    requires |ms| > 0
    ensures |r| > 0
    decreases ms, 0
  {
    var first := Indented(NamedLines(ms[0], slashes, format));
    if |ms| == 1 then first else Ended(first, [0x2C]) + MemberLines(ms[1..], slashes, format)
  }

  lemma {:induction false} JoinedAppend(a: seq<bytes>, b: seq<bytes>, sep: bytes)
    requires |a| > 0 && |b| > 0
    ensures Joined(a + b, sep) == Joined(a, sep) + sep + Joined(b, sep)
  {
    if |a| == 1 {
      assert (a + b)[1..] == b;
    } else {
      JoinedAppend(a[1..], b, sep);
      assert (a + b)[1..] == a[1..] + b;
    }
  }

  lemma {:induction false} JoinedIndented(lines: seq<bytes>, sep: bytes)
    requires |lines| > 0
    ensures Joined(Indented(lines), sep) == Spaces(4) + Joined(lines, sep + Spaces(4))
  {
    if |lines| > 1 {
      JoinedIndented(lines[1..], sep);
      assert Indented(lines)[1..] == Indented(lines[1..]);
    }
  }

  lemma {:induction false} JoinedEnded(lines: seq<bytes>, tail: bytes, sep: bytes)
    requires |lines| > 0
    ensures Joined(Ended(lines, tail), sep) == Joined(lines, sep) + tail
  {
    if |lines| > 1 {
      JoinedEnded(lines[1..], tail, sep);
      assert Ended(lines, tail)[1..] == Ended(lines[1..], tail);
    }
  }

  lemma JoinedLed(head: bytes, lines: seq<bytes>, sep: bytes)
    requires |lines| > 0
    ensures Joined(Led(head, lines), sep) == head + Joined(lines, sep)
  {
    assert Led(head, lines)[1..] == lines[1..];
  }

  /** A line break and the indentation of a level. */
  function Break(level: nat): bytes {
    [0x0A] + Spaces(4 * level)
  }

  lemma {:induction false} IndentIsSpaces(level: nat)
    ensures Indent(level) == Spaces(4 * level)
  {
    if level > 0 {
      IndentIsSpaces(level - 1);
    }
  }

  lemma GapIsBreak(level: nat, style: Style)
    requires style.pretty
    ensures Gap(level, style) == Break(level) && Break(level + 1) == Break(level) + Spaces(4)
  {
    IndentIsSpaces(level);
  }

  /** Pretty printing is the lines, each on a level of its own indentation. */
  lemma {:induction false} PrettyIsPrinted(v: Value, level: nat, style: Style)
    requires style.pretty
    ensures Print(v, level, style) == Joined(Lines(v, style.escapeSlashes, style.numbers.format), Break(level))
    decreases v, 1
  {
    hide InQuotes, Quoted, Gap, Break, ItemLines, MemberLines, PrintItems, PrintMembers;
    match v {
      case String(s) => QuotedIsInQuotes(s, style.escapeSlashes);
      case Array(items) =>
        if |items| > 0 {
          PrettyItemsPrinted(items, level, style);
          var lines := ItemLines(items, style.escapeSlashes, style.numbers.format);
          Bracketed([0x5B], lines, PrintItems(items, level, style), [0x5D], level, style);
        }
      case Object(ms) =>
        if |ms| > 0 {
          PrettyMembersPrinted(ms, level, style);
          var lines := MemberLines(ms, style.escapeSlashes, style.numbers.format);
          Bracketed([0x7B], lines, PrintMembers(ms, level, style), [0x7D], level, style);
        }
      case _ =>
    }
  }

  lemma Bracketed(open: bytes, lines: seq<bytes>, body: bytes, close: bytes, level: nat, style: Style)
    requires style.pretty && |lines| > 0 && Joined(lines, Break(level)) == Spaces(4) + body
    ensures Joined([open] + lines + [close], Break(level))
         == open + Gap(level + 1, style) + body + Gap(level, style) + close
  {
    hide Gap, Break, Joined, Spaces;
    var sep := Break(level);
    JoinedAppend([open] + lines, [close], sep);
    JoinedAppend([open], lines, sep);
    OneLine(open, sep);
    OneLine(close, sep);
    GapIsBreak(level, style);
    GapIsBreak(level + 1, style);
    var sp := Spaces(4);
    assert Joined([open] + lines, sep) == open + (sep + sp) + body by { Regroup(open, sep, sp, body); }
  }

  lemma OneLine(line: bytes, sep: bytes)
    ensures Joined([line], sep) == line
  {
  }

  lemma Regroup(a: bytes, b: bytes, c: bytes, d: bytes)
    ensures a + b + (c + d) == a + (b + c) + d
  {
  }

  lemma {:induction false} PrettyItemsPrinted(items: seq<Value>, level: nat, style: Style)
    requires style.pretty && |items| > 0
    ensures Joined(ItemLines(items, style.escapeSlashes, style.numbers.format), Break(level))
         == Spaces(4) + PrintItems(items, level, style)
    decreases items, 0
  {
    hide Print, Lines, Gap, Break, Joined, Indented, Ended, Spaces;
    var format := style.numbers.format;
    var lines := Lines(items[0], style.escapeSlashes, format);
    PrettyIsPrinted(items[0], level + 1, style);
    JoinedIndented(lines, Break(level));
    GapIsBreak(level, style);
    GapIsBreak(level + 1, style);
    if |items| > 1 {
      var more := ItemLines(items[1..], style.escapeSlashes, format);
      PrettyItemsPrinted(items[1..], level, style);
      NextPart(Indented(lines), more, level);
    }
  }

  /** A part that is not the last one, and what follows. */
  lemma NextPart(lines: seq<bytes>, more: seq<bytes>, level: nat)
    requires |lines| > 0 && |more| > 0
    ensures Joined(Ended(lines, [0x2C]) + more, Break(level))
         == Joined(lines, Break(level)) + [0x2C] + Break(level) + Joined(more, Break(level))
  {
    hide Break;
    JoinedEnded(lines, [0x2C], Break(level));
    JoinedAppend(Ended(lines, [0x2C]), more, Break(level));
  }

  lemma {:induction false} PrettyMemberPrinted(m: Member, level: nat, style: Style)
    requires style.pretty
    ensures Joined(NamedLines(m, style.escapeSlashes, style.numbers.format), Break(level + 1))
         == PrintMember(m, level, style)
    decreases m, 0
  {
    hide Print, Lines, InQuotes, Quoted, Break, Joined;
    QuotedIsInQuotes(m.name, style.escapeSlashes);
    PrettyIsPrinted(m.value, level + 1, style);
    JoinedLed(InQuotes(m.name, style.escapeSlashes) + [0x3A, 0x20],
              Lines(m.value, style.escapeSlashes, style.numbers.format), Break(level + 1));
  }

  lemma {:induction false} PrettyMembersPrinted(ms: seq<Member>, level: nat, style: Style)
    requires style.pretty && |ms| > 0
    ensures Joined(MemberLines(ms, style.escapeSlashes, style.numbers.format), Break(level))
         == Spaces(4) + PrintMembers(ms, level, style)
    decreases ms, 0
  {
    hide PrintMember, NamedLines, Gap, Break, Joined, Indented, Ended, Spaces;
    var format := style.numbers.format;
    var lines := NamedLines(ms[0], style.escapeSlashes, format);
    PrettyMemberPrinted(ms[0], level, style);
    JoinedIndented(lines, Break(level));
    GapIsBreak(level, style);
    GapIsBreak(level + 1, style);
    if |ms| > 1 {
      var more := MemberLines(ms[1..], style.escapeSlashes, format);
      PrettyMembersPrinted(ms[1..], level, style);
      NextPart(Indented(lines), more, level);
    }
  }
}
