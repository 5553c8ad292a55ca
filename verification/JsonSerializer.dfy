/**
 * The serializer as the library runs it: one routine that either writes into a buffer or, given none, only
 * counts. Both passes agree, so a buffer of the counted size plus one is filled exactly.
 */
module JsonSerializer {
  import opened Bytes
  import opened JsonValue
  import opened JsonText

  /** Buffer contents `b` after `s` and a terminator are written at `at`. */
  function Overwritten(b: bytes, at: nat, s: bytes): (r: bytes)
    requires at + |s| < |b|
    ensures |r| == |b|
  {
    b[..at] + s + [NUL] + b[at + |s| + 1..]
  }

  lemma OverwriteTwice(b: bytes, at: nat, s: bytes, s': bytes)
    requires at + |s| + |s'| < |b|
    ensures Overwritten(Overwritten(b, at, s), at + |s|, s') == Overwritten(b, at, s + s')
  {
  }

  ghost predicate Room(buf: array?<byte>, at: nat, n: nat) {
    buf != null ==> at + n < buf.Length
  }

  ghost function Target(buf: array?<byte>): set<object> {
    if buf == null then {} else {buf}
  }

  /** The buffer, if there is one, holds `before` with `s` and a terminator written at `at`. */
  ghost predicate Written(buf: array?<byte>, before: bytes, at: nat, s: bytes)
    reads Target(buf)
  {
    buf != null ==> |before| == buf.Length && at + |s| < buf.Length && buf[..] == Overwritten(before, at, s)
  }

  ghost function Contents(buf: array?<byte>): bytes
    reads Target(buf)
  {
    if buf == null then [] else buf[..]
  }

  /** APPEND_STRING */
  method Append(buf: array?<byte>, at: nat, s: bytes) returns (written: nat)
    requires Room(buf, at, |s|)
    modifies Target(buf)
    ensures written == |s| && Written(buf, old(Contents(buf)), at, s)
  {
    if buf != null {
      forall i | 0 <= i < |s| {
        buf[at + i] := s[i];
      }
      buf[at + |s|] := NUL;
      assert buf[..] == Overwritten(old(buf[..]), at, s);
    }
    written := |s|;
  }

  /** APPEND_STRING behind what has been written so far. */
  method AppendMore(buf: array?<byte>, ghost before: bytes, at: nat, ghost done: bytes, written: nat, s: bytes)
    returns (total: nat)
    requires written == |done| && Room(buf, at, |done| + |s|) && Written(buf, before, at, done)
    modifies Target(buf)
    ensures total == |done + s| && Written(buf, before, at, done + s)
  {
    var n := Append(buf, at + written, s);
    total := written + n;
    if buf != null {
      OverwriteTwice(before, at, done, s);
    }
  }

  /** APPEND_INDENT behind what has been written so far. */
  method AppendIndent(buf: array?<byte>, ghost before: bytes, at: nat, ghost done: bytes, written: nat, level: nat)
    returns (total: nat)
    requires written == |done| && Room(buf, at, |done| + |Indent(level)|) && Written(buf, before, at, done)
    modifies Target(buf)
    ensures total == |done + Indent(level)| && Written(buf, before, at, done + Indent(level))
  {
    total := written;
    var i := 0;
    IndentGrows(0, level);
    assert done + Indent(0) == done;
    while i < level
      invariant i <= level && total == |done + Indent(i)| && |Indent(i)| <= |Indent(level)|
      invariant Written(buf, before, at, done + Indent(i))
    {
      IndentGrows(i + 1, level);
      IndentSnoc(i);
      assert done + Indent(i) + [SPACE, SPACE, SPACE, SPACE] == done + Indent(i + 1);
      total := AppendMore(buf, before, at, done + Indent(i), total, [SPACE, SPACE, SPACE, SPACE]);
      i := i + 1;
    }
  }

  lemma {:induction false} IndentGrows(i: nat, level: nat)
    requires i <= level
    ensures |Indent(i)| == 4 * i && |Indent(level)| == 4 * level
  {
    if level > 0 {
      IndentGrows(if i == level then i - 1 else i, level - 1);
    }
  }

  lemma {:induction false} IndentSnoc(i: nat)
    ensures Indent(i) + [SPACE, SPACE, SPACE, SPACE] == Indent(i + 1)
  {
    if i > 0 {
      IndentSnoc(i - 1);
      assert [SPACE, SPACE, SPACE, SPACE] + (Indent(i - 1) + [SPACE, SPACE, SPACE, SPACE])
        == Indent(i) + [SPACE, SPACE, SPACE, SPACE];
    }
  }

  lemma {:induction false} EscapeSnoc(s: bytes, i: nat, slashes: bool)
    requires i < |s|
    ensures Escape(s[..i + 1], slashes) == Escape(s[..i], slashes) + EscapeByte(s[i], slashes)
  {
    hide EscapeByte;
    if i == 0 {
      assert s[..1] == [s[0]];
      assert Escape([s[0]], slashes) == EscapeByte(s[0], slashes) + Escape([s[0]][1..], slashes);
    } else {
      EscapeSnoc(s[1..], i - 1, slashes);
      assert s[..i + 1][1..] == s[1..][..i] && s[..i][1..] == s[1..][..i - 1];
    }
  }

  lemma {:induction false} EscapePrefix(s: bytes, i: nat, slashes: bool)
    requires i <= |s|
    ensures |Escape(s[..i], slashes)| <= |Escape(s, slashes)|
    decreases |s| - i
  {
    if i < |s| {
      EscapeSnoc(s, i, slashes);
      EscapePrefix(s, i + 1, slashes);
    } else {
      assert s[..i] == s;
    }
  }

  /** Like `Written`, but the byte behind `s` may be anything. */
  ghost predicate Stored(buf: array?<byte>, before: bytes, at: nat, s: bytes)
    reads Target(buf)
  {
    buf != null ==>
      && |before| == buf.Length && at + |s| < buf.Length
      && buf[..at + |s|] == before[..at] + s && buf[at + |s| + 1..] == before[at + |s| + 1..]
  }

  lemma WrittenIsStored(buf: array?<byte>, before: bytes, at: nat, s: bytes)
    requires Written(buf, before, at, s)
    ensures Stored(buf, before, at, s)
  {
  }

  /** APPEND_STRING behind text that may lack its terminator. */
  method AppendStored(buf: array?<byte>, ghost before: bytes, at: nat, ghost done: bytes, written: nat, s: bytes)
    requires written == |done| && Room(buf, at, |done| + |s|) && Stored(buf, before, at, done) && |s| > 0
    modifies Target(buf)
    ensures Written(buf, before, at, done + s)
  {
    ghost var b := Contents(buf);
    var n := Append(buf, at + written, s);
    if buf != null {
      assert b[..at + written] == before[..at] + done;
      assert b[at + written + |s| + 1..] == b[at + written + 1..][|s|..] == before[at + written + 1..][|s|..];
      assert before[at + written + 1..][|s|..] == before[at + written + |s| + 1..];
      assert before[..at] + done + s == before[..at] + (done + s);
    }
  }

  /** A byte that needs no escape is stored without a terminator behind it. */
  method StoreByte(buf: array?<byte>, ghost before: bytes, at: nat, ghost done: bytes, written: nat, c: byte)
    requires written == |done| && Room(buf, at, |done| + 1) && Stored(buf, before, at, done)
    modifies Target(buf)
    ensures Stored(buf, before, at, done + [c])
  {
    if buf != null {
      ghost var b := buf[..];
      buf[at + written] := c;
      assert buf[..at + written + 1] == b[..at + written] + [c];
      assert buf[at + written + 2..] == b[at + written + 1..][1..];
      assert before[at + written + 2..] == before[at + written + 1..][1..];
    }
  }

  /** json_serialize_string */
  method SerializeString(s: bytes, buf: array?<byte>, at: nat, slashes: bool) returns (written: nat)
    requires Room(buf, at, |Quoted(s, slashes)|)
    modifies Target(buf)
    ensures written == |Quoted(s, slashes)| && Written(buf, old(Contents(buf)), at, Quoted(s, slashes))
  {
    hide Escape, EscapeByte, Stored, Written, Overwritten;
    ghost var before := Contents(buf);
    written := Append(buf, at, [QUOTE]);
    WrittenIsStored(buf, before, at, [QUOTE]);
    NothingEscaped(s, slashes);
    var i := 0;
    while i < |s|
      invariant i <= |s| && written == |[QUOTE] + Escape(s[..i], slashes)|
      invariant Stored(buf, before, at, [QUOTE] + Escape(s[..i], slashes))
    {
      written := EscapeNext(s, i, buf, before, at, slashes, written);
      i := i + 1;
    }
    assert s[..|s|] == s;
    AppendStored(buf, before, at, [QUOTE] + Escape(s, slashes), written, [QUOTE]);
    written := written + 1;
  }

  lemma NothingEscaped(s: bytes, slashes: bool)
    ensures [QUOTE] + Escape(s[..0], slashes) == [QUOTE]
  {
  }

  /** One turn of the loop of json_serialize_string. */
  method EscapeNext(s: bytes, i: nat, buf: array?<byte>, ghost before: bytes, at: nat, slashes: bool, written: nat)
    returns (total: nat)
    requires i < |s| && Room(buf, at, |Quoted(s, slashes)|) && written == |[QUOTE] + Escape(s[..i], slashes)|
    requires Stored(buf, before, at, [QUOTE] + Escape(s[..i], slashes))
    modifies Target(buf)
    ensures total == |[QUOTE] + Escape(s[..i + 1], slashes)|
    ensures Stored(buf, before, at, [QUOTE] + Escape(s[..i + 1], slashes))
  {
    hide Escape, Stored, Written, Overwritten;
    EscapeSnoc(s, i, slashes);
    EscapePrefix(s, i + 1, slashes);
    var e := EscapeByte(s[i], slashes);
    ghost var done := [QUOTE] + Escape(s[..i], slashes);
    assert done + e == [QUOTE] + Escape(s[..i + 1], slashes);
    if |e| == 1 && s[i] != SLASH {
      StoreByte(buf, before, at, done, written, s[i]);
    } else {
      AppendStored(buf, before, at, done, written, e);
      WrittenIsStored(buf, before, at, done + e);
    }
    total := written + |e|;
  }

  // ----- containers, in the layout of the source's loops

  /** What the loop over an array has printed after `i` items. */
  function ItemsLoop(items: seq<Value>, i: nat, level: nat, style: Style): bytes
    requires i <= |items|
    decreases i
  {
    if i == 0 then [] else ItemsLoop(items, i - 1, level, style) + ArrayTurnText(items, i - 1, level, style)
  }

  function ArrayTurnText(items: seq<Value>, i: nat, level: nat, style: Style): bytes
    requires i < |items|
  {
    (if style.pretty then Indent(level + 1) else []) + Print(items[i], level + 1, style)
    + (if i < |items| - 1 then [COMMA] else []) + (if style.pretty then [NEWLINE] else [])
  }

  function MembersLoop(ms: seq<Member>, i: nat, level: nat, style: Style): bytes
    requires i <= |ms|
    decreases i
  {
    if i == 0 then [] else MembersLoop(ms, i - 1, level, style) + ObjectTurnText(ms, i - 1, level, style)
  }

  function ObjectTurnText(ms: seq<Member>, i: nat, level: nat, style: Style): bytes
    requires i < |ms|
  {
    (if style.pretty then Indent(level + 1) else []) + PrintMember(ms[i], level, style)
    + (if i < |ms| - 1 then [COMMA] else []) + (if style.pretty then [NEWLINE] else [])
  }

  function Break(style: Style): bytes {
    if style.pretty then [NEWLINE] else []
  }

  function Lead(level: nat, style: Style): bytes {
    if style.pretty then Indent(level) else []
  }

  lemma GapSplits(level: nat, style: Style)
    ensures Gap(level, style) == Break(style) + Lead(level, style)
  {
  }

  /** The parts from index `i` on, printed by the loop, are the printed rest between its indentation and line break. */
  lemma {:induction false} ItemsLoopRest(items: seq<Value>, i: nat, level: nat, style: Style)
    requires i < |items|
    ensures ItemsLoop(items, i, level, style) + Lead(level + 1, style) + PrintItems(items[i..], level, style)
            + Break(style)
            == ItemsLoop(items, |items|, level, style)
    decreases |items| - i
  {
    hide Print, Gap, Indent;
    assert Gap(level + 1, style) == Break(style) + Lead(level + 1, style) by { GapSplits(level + 1, style); }
    var done, lead, item, brk := ItemsLoop(items, i, level, style), Lead(level + 1, style),
      Print(items[i], level + 1, style), Break(style);
    assert items[i..][1..] == items[i + 1..];
    if i + 1 == |items| {
      assert PrintItems(items[i..], level, style) == item;
      assert lead + item + [] + brk == lead + item + brk;
      Regroup(done, lead, item, brk);
    } else {
      var rest := PrintItems(items[i + 1..], level, style);
      ItemsLoopRest(items, i + 1, level, style);
      RegroupComma(done, lead, item, brk, rest);
    }
  }

  lemma {:induction false} MembersLoopRest(ms: seq<Member>, i: nat, level: nat, style: Style)
    requires i < |ms|
    ensures MembersLoop(ms, i, level, style) + Lead(level + 1, style) + PrintMembers(ms[i..], level, style)
            + Break(style)
            == MembersLoop(ms, |ms|, level, style)
    decreases |ms| - i
  {
    hide PrintMember, Gap, Indent;
    assert Gap(level + 1, style) == Break(style) + Lead(level + 1, style) by { GapSplits(level + 1, style); }
    var done, lead, item, brk := MembersLoop(ms, i, level, style), Lead(level + 1, style),
      PrintMember(ms[i], level, style), Break(style);
    assert ms[i..][1..] == ms[i + 1..];
    if i + 1 == |ms| {
      assert PrintMembers(ms[i..], level, style) == item;
      assert lead + item + [] + brk == lead + item + brk;
      Regroup(done, lead, item, brk);
    } else {
      var rest := PrintMembers(ms[i + 1..], level, style);
      MembersLoopRest(ms, i + 1, level, style);
      RegroupComma(done, lead, item, brk, rest);
    }
  }

  lemma Regroup(a: bytes, b: bytes, c: bytes, d: bytes)
    ensures a + (b + c + d) == a + b + c + d
  {
  }

  lemma RegroupComma(done: bytes, lead: bytes, item: bytes, brk: bytes, rest: bytes)
    ensures done + (lead + item + [COMMA] + brk) + lead + rest + brk
            == done + lead + (item + ([COMMA] + (brk + lead) + rest)) + brk
  {
  }

  /** The loop layout of a non-empty container is its printed form. */
  lemma ArrayShape(items: seq<Value>, level: nat, style: Style)
    requires |items| > 0
    ensures Print(Array(items), level, style)
            == [LBRACKET] + (Break(style) + Lead(level + 1, style)) + PrintItems(items, level, style)
               + (Break(style) + Lead(level, style)) + [RBRACKET]
  {
  }

  lemma ArrayLayout(items: seq<Value>, level: nat, style: Style)
    requires |items| > 0
    ensures [LBRACKET] + Break(style) + ItemsLoop(items, |items|, level, style) + Lead(level, style) + [RBRACKET]
            == Print(Array(items), level, style)
  {
    hide *;
    NoItems(items, level, style);
    ArrayShape(items, level, style);
    ItemsLoopRest(items, 0, level, style);
    assert items[0..] == items;
    var brk, lead, body := Break(style), Lead(level + 1, style), PrintItems(items, level, style);
    DropEmpty(lead, body, brk);
    Relayout([LBRACKET], brk, lead, body, Lead(level, style), [RBRACKET]);
  }

  lemma ObjectShape(ms: seq<Member>, level: nat, style: Style)
    requires |ms| > 0
    ensures Print(Object(ms), level, style)
            == [LBRACE] + (Break(style) + Lead(level + 1, style)) + PrintMembers(ms, level, style)
               + (Break(style) + Lead(level, style)) + [RBRACE]
  {
  }

  lemma ObjectLayout(ms: seq<Member>, level: nat, style: Style)
    requires |ms| > 0
    ensures [LBRACE] + Break(style) + MembersLoop(ms, |ms|, level, style) + Lead(level, style) + [RBRACE]
            == Print(Object(ms), level, style)
  {
    hide *;
    NoMembers(ms, level, style);
    ObjectShape(ms, level, style);
    MembersLoopRest(ms, 0, level, style);
    assert ms[0..] == ms;
    var brk, lead, body := Break(style), Lead(level + 1, style), PrintMembers(ms, level, style);
    DropEmpty(lead, body, brk);
    Relayout([LBRACE], brk, lead, body, Lead(level, style), [RBRACE]);
  }

  lemma DropEmpty(a: bytes, b: bytes, c: bytes)
    ensures [] + a + b + c == a + b + c
  {
  }

  lemma NoItems(items: seq<Value>, level: nat, style: Style)
    ensures ItemsLoop(items, 0, level, style) == []
  {
  }

  lemma NoMembers(ms: seq<Member>, level: nat, style: Style)
    ensures MembersLoop(ms, 0, level, style) == []
  {
  }

  lemma AppendAssoc(a: bytes, b: bytes, c: bytes, d: bytes)
    ensures a + b + (c + d) == a + b + c + d
  {
  }

  lemma Relayout(open: bytes, brk: bytes, lead: bytes, body: bytes, lead': bytes, close: bytes)
    ensures open + brk + (lead + body + brk) + lead' + close == open + (brk + lead) + body + (brk + lead') + close
  {
  }

  lemma {:induction false} ItemsLoopGrows(items: seq<Value>, i: nat, level: nat, style: Style)
    requires i <= |items|
    ensures |ItemsLoop(items, i, level, style)| <= |ItemsLoop(items, |items|, level, style)|
    decreases |items| - i
  {
    if i < |items| {
      ItemsLoopGrows(items, i + 1, level, style);
    }
  }

  lemma ItemsLoopStep(items: seq<Value>, i: nat, level: nat, style: Style)
    requires i < |items|
    ensures ItemsLoop(items, i + 1, level, style) == ItemsLoop(items, i, level, style)
            + ArrayTurnText(items, i, level, style)
  {
  }

  /** Everything printed up to the end of turn `i` fits where the whole container fits. */
  lemma ArrayRoom(items: seq<Value>, i: nat, level: nat, style: Style)
    requires i < |items|
    ensures |[LBRACKET] + Break(style) + ItemsLoop(items, i, level, style)| + |ArrayTurnText(items, i, level, style)|
            + |Lead(level, style)| + 1 <= |Print(Array(items), level, style)|
    ensures [LBRACKET] + Break(style) + ItemsLoop(items, i + 1, level, style)
            == [LBRACKET] + Break(style) + ItemsLoop(items, i, level, style) + ArrayTurnText(items, i, level, style)
  {
    ArrayLayout(items, level, style);
    ItemsLoopGrows(items, i + 1, level, style);
    ItemsLoopStep(items, i, level, style);
    hide *;
    var a, b, c, d := [LBRACKET], Break(style), ItemsLoop(items, i, level, style),
      ArrayTurnText(items, i, level, style);
    AppendAssoc(a, b, c, d);
  }

  lemma {:induction false} MembersLoopGrows(ms: seq<Member>, i: nat, level: nat, style: Style)
    requires i <= |ms|
    ensures |MembersLoop(ms, i, level, style)| <= |MembersLoop(ms, |ms|, level, style)|
    decreases |ms| - i
  {
    if i < |ms| {
      MembersLoopGrows(ms, i + 1, level, style);
    }
  }

  lemma MembersLoopStep(ms: seq<Member>, i: nat, level: nat, style: Style)
    requires i < |ms|
    ensures MembersLoop(ms, i + 1, level, style) == MembersLoop(ms, i, level, style)
            + ObjectTurnText(ms, i, level, style)
  {
  }

  /** Everything printed up to the end of turn `i` fits where the whole container fits. */
  lemma ObjectRoom(ms: seq<Member>, i: nat, level: nat, style: Style)
    requires i < |ms|
    ensures |[LBRACE] + Break(style) + MembersLoop(ms, i, level, style)| + |ObjectTurnText(ms, i, level, style)|
            + |Lead(level, style)| + 1 <= |Print(Object(ms), level, style)|
    ensures [LBRACE] + Break(style) + MembersLoop(ms, i + 1, level, style)
            == [LBRACE] + Break(style) + MembersLoop(ms, i, level, style) + ObjectTurnText(ms, i, level, style)
  {
    ObjectLayout(ms, level, style);
    MembersLoopGrows(ms, i + 1, level, style);
    MembersLoopStep(ms, i, level, style);
    hide *;
    var a, b, c, d := [LBRACE], Break(style), MembersLoop(ms, i, level, style), ObjectTurnText(ms, i, level, style);
    AppendAssoc(a, b, c, d);
  }

  // ----- the serializing routine

  /** json_serialize_to_buffer_r, writing at index `at` of `buf`, or counting when there is no buffer. */
  method SerializeValue(v: Value, buf: array?<byte>, at: nat, level: nat, style: Style) returns (written: nat)
    requires Room(buf, at, |Print(v, level, style)|)
    modifies Target(buf)
    ensures written == |Print(v, level, style)| && Written(buf, old(Contents(buf)), at, Print(v, level, style))
    decreases v, 1
  {
    hide Written, PrintItems, PrintMembers, Overwritten;
    match v {
      case Array(items) => written := SerializeArray(items, buf, at, level, style);
      case Object(members) => written := SerializeObject(members, buf, at, level, style);
      case String(s) => written := SerializeString(s, buf, at, style.escapeSlashes);
      case Boolean(b) => written := Append(buf, at, if b then TRUE_TEXT else FALSE_TEXT);
      case Number(n) => written := Append(buf, at, style.numbers.format(n));
      case Null => written := Append(buf, at, NULL_TEXT);
    }
  }

  /** The recursive call behind what has been written so far. */
  method SerializeMore(v: Value, buf: array?<byte>, ghost before: bytes, at: nat, ghost done: bytes, written: nat,
                       level: nat, style: Style)
    returns (total: nat)
    requires written == |done| && Room(buf, at, |done| + |Print(v, level, style)|) && Written(buf, before, at, done)
    modifies Target(buf)
    ensures total == |done + Print(v, level, style)| && Written(buf, before, at, done + Print(v, level, style))
    decreases v, 2
  {
    hide Print, Overwritten;
    var n := SerializeValue(v, buf, at + written, level, style);
    total := written + n;
    if buf != null {
      OverwriteTwice(before, at, done, Print(v, level, style));
    }
  }

  /** The JSONArray case. */
  method SerializeArray(items: seq<Value>, buf: array?<byte>, at: nat, level: nat, style: Style) returns (written: nat)
    requires Room(buf, at, |Print(Array(items), level, style)|)
    modifies Target(buf)
    ensures written == |Print(Array(items), level, style)|
    ensures Written(buf, old(Contents(buf)), at, Print(Array(items), level, style))
    decreases items, 3
  {
    hide Print, Written, Overwritten, ItemsLoop, ArrayTurnText, Indent;
    ghost var before := Contents(buf);
    if |items| == 0 {
      EmptyContainers(level, style);
      written := Append(buf, at, [LBRACKET]);
      written := AppendMore(buf, before, at, [LBRACKET], written, [RBRACKET]);
      assert [LBRACKET] + [RBRACKET] == [LBRACKET, RBRACKET];
      return;
    }
    ArrayLayout(items, level, style);
    NoItems(items, level, style);
    written := Append(buf, at, [LBRACKET]);
    written := AppendMore(buf, before, at, [LBRACKET], written, Break(style));
    ghost var open := [LBRACKET] + Break(style);
    assert open + [] == open;
    var i := 0;
    while i < |items|
      invariant i <= |items| && written == |open + ItemsLoop(items, i, level, style)|
      invariant Written(buf, before, at, open + ItemsLoop(items, i, level, style))
    {
      ArrayRoom(items, i, level, style);
      written := ArrayTurn(items, i, buf, before, at, open + ItemsLoop(items, i, level, style), written, level, style);
      i := i + 1;
    }
    ghost var done := open + ItemsLoop(items, |items|, level, style);
    written := AppendLead(buf, before, at, done, written, level, style);
    written := AppendMore(buf, before, at, done + Lead(level, style), written, [RBRACKET]);
  }

  /** One turn of the loop over an array. */
  method ArrayTurn(items: seq<Value>, i: nat, buf: array?<byte>, ghost before: bytes, at: nat, ghost done: bytes,
                   written: nat, level: nat, style: Style)
    returns (total: nat)
    requires i < |items| && written == |done| && Written(buf, before, at, done)
    requires Room(buf, at, |done| + |ArrayTurnText(items, i, level, style)|)
    modifies Target(buf)
    ensures total == |done + ArrayTurnText(items, i, level, style)|
    ensures Written(buf, before, at, done + ArrayTurnText(items, i, level, style))
    decreases items, 2
  {
    hide Print, Written, Overwritten, Indent;
    var comma := if i < |items| - 1 then [COMMA] else [];
    ghost var lead, item, brk := Lead(level + 1, style), Print(items[i], level + 1, style), Break(style);
    assert ArrayTurnText(items, i, level, style) == lead + item + comma + brk;
    hide ArrayTurnText, Lead, Break;
    total := AppendLead(buf, before, at, done, written, level + 1, style);
    total := SerializeMore(items[i], buf, before, at, done + lead, total, level + 1, style);
    total := AppendMore(buf, before, at, done + lead + item, total, comma);
    total := AppendMore(buf, before, at, done + lead + item + comma, total, Break(style));
    Regroup4(done, lead, item, comma, brk);
  }

  /** The JSONObject case. */
  method SerializeObject(ms: seq<Member>, buf: array?<byte>, at: nat, level: nat, style: Style) returns (written: nat)
    requires Room(buf, at, |Print(Object(ms), level, style)|)
    modifies Target(buf)
    ensures written == |Print(Object(ms), level, style)|
    ensures Written(buf, old(Contents(buf)), at, Print(Object(ms), level, style))
    decreases ms, 3
  {
    hide Print, Written, Overwritten, MembersLoop, ObjectTurnText, Indent;
    ghost var before := Contents(buf);
    if |ms| == 0 {
      EmptyContainers(level, style);
      written := Append(buf, at, [LBRACE]);
      written := AppendMore(buf, before, at, [LBRACE], written, [RBRACE]);
      assert [LBRACE] + [RBRACE] == [LBRACE, RBRACE];
      return;
    }
    ObjectLayout(ms, level, style);
    NoMembers(ms, level, style);
    written := Append(buf, at, [LBRACE]);
    written := AppendMore(buf, before, at, [LBRACE], written, Break(style));
    ghost var open := [LBRACE] + Break(style);
    assert open + [] == open;
    var i := 0;
    while i < |ms|
      invariant i <= |ms| && written == |open + MembersLoop(ms, i, level, style)|
      invariant Written(buf, before, at, open + MembersLoop(ms, i, level, style))
    {
      ObjectRoom(ms, i, level, style);
      written := ObjectTurn(ms, i, buf, before, at, open + MembersLoop(ms, i, level, style), written, level, style);
      i := i + 1;
    }
    ghost var done := open + MembersLoop(ms, |ms|, level, style);
    written := AppendLead(buf, before, at, done, written, level, style);
    written := AppendMore(buf, before, at, done + Lead(level, style), written, [RBRACE]);
  }

  /** One turn of the loop over an object. */
  method ObjectTurn(ms: seq<Member>, i: nat, buf: array?<byte>, ghost before: bytes, at: nat, ghost done: bytes,
                    written: nat, level: nat, style: Style)
    returns (total: nat)
    requires i < |ms| && written == |done| && Written(buf, before, at, done)
    requires Room(buf, at, |done| + |ObjectTurnText(ms, i, level, style)|)
    modifies Target(buf)
    ensures total == |done + ObjectTurnText(ms, i, level, style)|
    ensures Written(buf, before, at, done + ObjectTurnText(ms, i, level, style))
    decreases ms, 2
  {
    hide Print, Written, Overwritten, Indent, Quoted;
    var comma := if i < |ms| - 1 then [COMMA] else [];
    ghost var lead, brk := Lead(level + 1, style), Break(style);
    ghost var member := PrintMember(ms[i], level, style);
    assert ObjectTurnText(ms, i, level, style) == lead + member + comma + brk;
    hide ObjectTurnText, Lead, Break, PrintMember;
    total := AppendLead(buf, before, at, done, written, level + 1, style);
    total := SerializeMember(ms[i], buf, before, at, done + lead, total, level, style);
    total := AppendMore(buf, before, at, done + lead + member, total, comma);
    total := AppendMore(buf, before, at, done + lead + member + comma, total, Break(style));
    Regroup4(done, lead, member, comma, brk);
  }

  /** Name, colon and value of one member. */
  method SerializeMember(m: Member, buf: array?<byte>, ghost before: bytes, at: nat, ghost done: bytes, written: nat,
                         level: nat, style: Style)
    returns (total: nat)
    requires written == |done| && Room(buf, at, |done| + |PrintMember(m, level, style)|)
             && Written(buf, before, at, done)
    modifies Target(buf)
    ensures total == |done + PrintMember(m, level, style)|
            && Written(buf, before, at, done + PrintMember(m, level, style))
    decreases m, 3
  {
    hide Print, Overwritten, Quoted;
    var space := if style.pretty then [SPACE] else [];
    ghost var name, value := Quoted(m.name, style.escapeSlashes), Print(m.value, level + 1, style);
    assert PrintMember(m, level, style) == name + [COLON] + space + value;
    var n := SerializeString(m.name, buf, at + written, style.escapeSlashes);
    total := written + n;
    if buf != null {
      OverwriteTwice(before, at, done, name);
    }
    hide Written, PrintMember;
    total := AppendMore(buf, before, at, done + name, total, [COLON]);
    total := AppendMore(buf, before, at, done + name + [COLON], total, space);
    total := SerializeMore(m.value, buf, before, at, done + name + [COLON] + space, total, level + 1, style);
    Regroup4(done, name, [COLON], space, value);
  }

  /** The indentation that only pretty printing appends. */
  method AppendLead(buf: array?<byte>, ghost before: bytes, at: nat, ghost done: bytes, written: nat, level: nat,
                    style: Style)
    returns (total: nat)
    requires written == |done| && Room(buf, at, |done| + |Lead(level, style)|) && Written(buf, before, at, done)
    modifies Target(buf)
    ensures total == |done + Lead(level, style)| && Written(buf, before, at, done + Lead(level, style))
  {
    if style.pretty {
      total := AppendIndent(buf, before, at, done, written, level);
    } else {
      assert done + [] == done;
      total := written;
    }
  }

  lemma Regroup4(a: bytes, b: bytes, c: bytes, d: bytes, e: bytes)
    ensures a + b + c + d + e == a + (b + c + d + e)
  {
  }

  lemma EmptyContainers(level: nat, style: Style)
    ensures Print(Array([]), level, style) == [LBRACKET, RBRACKET]
    ensures Print(Object([]), level, style) == [LBRACE, RBRACE]
  {
  }

  // ----- the two passes

  /** json_serialization_size and json_serialization_size_pretty: the counting pass, plus the terminator. */
  method SerializationSize(v: Value, style: Style) returns (size: nat)
    ensures size == |Print(v, 0, style)| + 1
  {
    var n := SerializeValue(v, null, 0, 0, style);
    size := n + 1;
  }

  /** json_serialize_to_buffer: refuses a buffer that is too small, and touches nothing behind the terminator. */
  method SerializeToBuffer(v: Value, buf: array<byte>, style: Style) returns (ok: bool)
    modifies buf
    ensures ok <==> |Print(v, 0, style)| < buf.Length
    ensures ok ==> buf[..] == Print(v, 0, style) + [NUL] + old(buf[..])[|Print(v, 0, style)| + 1..]
    ensures !ok ==> buf[..] == old(buf[..])
  {
    var needed := SerializationSize(v, style);
    if buf.Length < needed {
      return false;
    }
    var written := SerializeValue(v, buf, 0, 0, style);
    ok := true;
  }

  /** json_serialize_to_string: the buffer of exactly the counted size is filled exactly, terminator included. */
  method SerializeToString(v: Value, style: Style) returns (buf: array<byte>)
    ensures fresh(buf) && buf[..] == Print(v, 0, style) + [NUL]
  {
    var size := SerializationSize(v, style);
    buf := new byte[size];
    var ok := SerializeToBuffer(v, buf, style);
  }
}
