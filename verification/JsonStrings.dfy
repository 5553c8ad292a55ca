/**
 * Quoted strings: the scan for the closing quote bounds everything that unescaping depends on, consumes and returns.
 */
module JsonStrings {
  import opened Bytes
  import opened JsonText
  import opened JsonParse
  import opened JsonRoundTrip

  // ----- unescaping stays within the quotes

  lemma HexIsPlain(t: bytes, p: nat)
    requires Hex4(t, p).Some?
    ensures SkipQuoted(t, p) == SkipQuoted(t, p + 4)
  {
    SkipPlain(t, p);
    SkipPlain(t, p + 1);
    SkipPlain(t, p + 2);
    SkipPlain(t, p + 3);
  }

  /** What one turn of process_string consumes, skip_quotes has skipped too. */
  lemma SkipFollows(t: bytes, q: nat)
    requires q < |t| && t[q] != QUOTE && UnescapeOne(t, q).Parsed?
    ensures SkipQuoted(t, UnescapeOne(t, q).end) == SkipQuoted(t, q)
  {
    if t[q] == BACKSLASH && At(t, q + 1) == LOWER_U {
      HexIsPlain(t, q + 2);
      if IsLead(Hex4(t, q + 2).value) {
        HexIsPlain(t, q + 8);
        assert SkipQuoted(t, q + 6) == SkipQuoted(t, q + 8);
      }
    } else {
      SkipPlain(t, q);
    }
  }

  lemma SameBelow(t: bytes, e: nat, i: nat)
    requires e <= |t|
    ensures At(t[..e], i) == if i < e then At(t, i) else NUL
  {
  }

  /** Four digits read in front of the closing quote are all in front of it. */
  lemma HexBelow(t: bytes, p: nat, e: nat)
    requires p <= e < |t| && SkipQuoted(t, p) == Some(e + 1)
    ensures Hex4(t[..e], p) == Hex4(t, p)
    ensures Hex4(t, p).Some? ==> p + 4 <= e && SkipQuoted(t, p + 4) == Some(e + 1)
  {
    SameBelow(t, e, p);
    SameBelow(t, e, p + 1);
    SameBelow(t, e, p + 2);
    SameBelow(t, e, p + 3);
    SkipPlain(t, p);
    SkipPlain(t, p + 1);
    SkipPlain(t, p + 2);
    SkipPlain(t, p + 3);
    hide Hex4;
    assert Hex4(t, p).Some? ==> SkipQuoted(t, p + 4) == Some(e + 1) by { if Hex4(t, p).Some? { HexIsPlain(t, p); } }
    HexCases(t, p);
    HexCases(t[..e], p);
  }

  lemma HexCases(t: bytes, p: nat)
    ensures var a, b := HexValue(At(t, p)), HexValue(At(t, p + 1));
            var c, d := HexValue(At(t, p + 2)), HexValue(At(t, p + 3));
            Hex4(t, p) == if a.None? || b.None? || c.None? || d.None? then None
                          else Some(a.value * 0x1000 + b.value * 0x100 + c.value * 0x10 + d.value)
  {
  }

  lemma SkipOver(t: bytes, q: nat, e: nat)
    ensures At(t, q) == BACKSLASH && SkipQuoted(t, q) == Some(e + 1) ==>
              SkipQuoted(t, q + 2) == Some(e + 1) && q + 2 <= e
    ensures At(t, q) != QUOTE && SkipQuoted(t, q) == Some(e + 1) ==> q + 1 <= e
  {
  }

  /** Cutting the text at the closing quote does not change what a turn of process_string does. */
  lemma UnescapeBelow(t: bytes, q: nat, e: nat)
    requires q < e < |t| && SkipQuoted(t, q) == Some(e + 1) && At(t, q) != QUOTE
    ensures UnescapeOne(t[..e], q) == UnescapeOne(t, q)
    ensures UnescapeOne(t, q).Parsed? ==> UnescapeOne(t, q).end <= e
  {
    hide SkipQuoted, Hex4, EncodeUtf8, Combine, SimpleEscape, IsLead, IsTrail;
    SameBelow(t, e, q);
    SameBelow(t, e, q + 1);
    SkipOver(t, q, e);
    SkipOver(t, q + 6, e);
    if t[q] == BACKSLASH && At(t, q + 1) == LOWER_U {
      HexBelow(t, q + 2, e);
      SameBelow(t, e, q + 6);
      SameBelow(t, e, q + 7);
      if Hex4(t, q + 2).Some? && At(t, q + 6) == BACKSLASH && At(t, q + 7) == LOWER_U {
        HexBelow(t, q + 8, e);
      }
    }
  }

  lemma {:induction false} ProcessBelow(t: bytes, q: nat, e: nat)
    requires q <= e < |t| && SkipQuoted(t, q) == Some(e + 1)
    ensures Process(t, q, e) == Process(t[..e], q, e)
    ensures Process(t, q, e).Parsed? ==> Process(t, q, e).end == e
    decreases e - q
  {
    SameBelow(t, e, q);
    if q < e {
      QuoteIsLast(t, q);
      UnescapeBelow(t, q, e);
      var r := UnescapeOne(t, q);
      if r.Parsed? {
        SkipFollows(t, q);
        ProcessBelow(t, r.end, e);
      }
    }
  }

  lemma QuoteIsLast(t: bytes, q: nat)
    requires SkipQuoted(t, q).Some? && q + 1 < SkipQuoted(t, q).value
    ensures q < |t| && t[q] != QUOTE && t[q] != NUL
  {
  }

  /**
   * skip_quotes stops behind a quote. What process_string makes of the text in between is the same whatever bytes
   * stand at the quote and behind it; it consumes exactly that text and returns no more bytes than it was given.
   */
  lemma QuotedIsBounded(t: bytes, p: nat)
    requires SkipQuotes(t, p).Some?
    ensures var e := SkipQuotes(t, p).value - 1;
            var inner := Process(t, p + 1, e);
            && p < e < |t| && t[e] == QUOTE
            && inner == Process(t[..e], p + 1, e)
            && (inner.Parsed? ==> inner.end == e && |inner.value| <= e - (p + 1))
            && (GetQuoted(t, p).Parsed? <==> inner.Parsed?)
            && (inner.Parsed? ==> GetQuoted(t, p) == Parsed(inner.value, e + 1))
  {
    ProcessBelow(t, p + 1, SkipQuotes(t, p).value - 1);
  }
}
