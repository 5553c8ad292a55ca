/**
 * What the escapes of a quoted string mean, stated on Unicode code points, and the proof that the byte-level
 * unescaper computes it: decoding commutes with unescaping.
 */
module CodePoints {
  import opened Bytes
  import opened JsonText
  import opened JsonParse
  import opened Utf8
  import opened JsonStrings

  // ----- the meaning of escapes (section 7 of RFC 8259)

  function CpAt(cps: seq<nat>, i: nat): nat {
    if i < |cps| then cps[i] else 0
  }

  /** A digit, or one of the letters A to F in either case. */
  function HexCp(c: nat): (r: Option<nat>)
    ensures r.Some? ==> r.value < 16
  {
    if 48 <= c <= 57 then Some(c - 48)
    else if 65 <= c <= 70 then Some(c - 55)
    else if 97 <= c <= 102 then Some(c - 87)
    else None
  }

  /** The high six bits of a unit say whether it is the first or the second half of a pair. */
  predicate FirstHalf(u: nat) {
    u / 0x400 == 0x36
  }

  predicate SecondHalf(u: nat) {
    u / 0x400 == 0x37
  }

  /** The low ten bits of both halves, counted from the first code point that needs a pair. */
  function PairCp(u: nat, w: nat): nat {
    0x10000 + 0x400 * (u % 0x400) + w % 0x400
  }

  /** The letters of short escapes: the signs that stand for themselves, and b, f, n, r, t. */
  function ShortCp(e: nat): Option<nat> {
    if e == 34 || e == 47 || e == 92 then Some(e)
    else if e == 98 then Some(8)
    else if e == 102 then Some(12)
    else if e == 110 then Some(10)
    else if e == 114 then Some(13)
    else if e == 116 then Some(9)
    else None
  }

  function Hex4Cp(cps: seq<nat>, i: nat): (r: Option<nat>)
    ensures r.Some? ==> r.value < 0x10000
  {
    var a, b, c, d := HexCp(CpAt(cps, i)), HexCp(CpAt(cps, i + 1)), HexCp(CpAt(cps, i + 2)), HexCp(CpAt(cps, i + 3));
    if a.None? || b.None? || c.None? || d.None? then None
    else Some(a.value * 0x1000 + b.value * 0x100 + c.value * 0x10 + d.value)
  }

  /** The code point that starts at `i`, escaped or not, and where the next one starts. */
  function UnescapeCp(cps: seq<nat>, i: nat): (r: Parsed<nat>)
    requires i < |cps|
    ensures r.Parsed? ==> i < r.end
  {
    var c := cps[i];
    if c == BACKSLASH then
      var e := CpAt(cps, i + 1);
      if e == LOWER_U then
        var u := Hex4Cp(cps, i + 2);
        if u.None? || SecondHalf(u.value) then Refused
        else if !FirstHalf(u.value) then Parsed(u.value, i + 6)
        else if CpAt(cps, i + 6) != BACKSLASH || CpAt(cps, i + 7) != LOWER_U then Refused
        else
          var w := Hex4Cp(cps, i + 8);
          if w.None? || !SecondHalf(w.value) then Refused else Parsed(PairCp(u.value, w.value), i + 12)
      else if ShortCp(e).None? then Refused
      else Parsed(ShortCp(e).value, i + 2)
    else if c < 0x20 then Refused
    else Parsed(c, i + 1)
  }

  function UnescapeCps(cps: seq<nat>, i: nat): Option<seq<nat>>
    decreases |cps| - i
  {
    if i >= |cps| then Some([])
    else
      match UnescapeCp(cps, i)
      case Refused => None
      case Parsed(c, j) =>
        match UnescapeCps(cps, j)
        case None => None
        case Some(rest) => Some([c] + rest)
  }

  // ----- bytes and code points side by side

  /** From byte `q` on, the text encodes the code points from index `i` on. */
  ghost predicate Aligned(t: bytes, q: nat, cps: seq<nat>, i: nat) {
    q <= |t| && i <= |cps| && AllScalar(cps) && t[q..] == EncodeAll(cps[i..])
  }

  /** The byte and the code point ahead agree if either is ASCII, and then the next ones are aligned again. */
  lemma HeadAgrees(t: bytes, q: nat, cps: seq<nat>, i: nat)
    requires Aligned(t, q, cps, i)
    ensures At(t, q) < 0x80 || CpAt(cps, i) < 0x80 ==> At(t, q) == CpAt(cps, i)
    ensures i < |cps| <==> q < |t|
    ensures i < |cps| && cps[i] < 0x80 ==> Aligned(t, q + 1, cps, i + 1)
  {
  }

  lemma HexAgrees(t: bytes, q: nat, cps: seq<nat>, i: nat)
    requires Aligned(t, q, cps, i)
    ensures Hex4(t, q) == Hex4Cp(cps, i)
    ensures Hex4(t, q).Some? ==> Aligned(t, q + 4, cps, i + 4)
  {
    hide Aligned;
    DigitAgrees(t, q, cps, i);
    if HexValue(At(t, q)).Some? {
      DigitAgrees(t, q + 1, cps, i + 1);
      if HexValue(At(t, q + 1)).Some? {
        DigitAgrees(t, q + 2, cps, i + 2);
        if HexValue(At(t, q + 2)).Some? {
          DigitAgrees(t, q + 3, cps, i + 3);
        }
      }
    }
    hide HexValue, HexCp;
    HexCases(t, q);
  }

  lemma DigitAgrees(t: bytes, q: nat, cps: seq<nat>, i: nat)
    requires Aligned(t, q, cps, i)
    ensures HexValue(At(t, q)) == HexCp(CpAt(cps, i))
    ensures HexValue(At(t, q)).Some? ==> Aligned(t, q + 1, cps, i + 1)
  {
    HeadAgrees(t, q, cps, i);
  }

  /** Bytes outside ASCII are copied. */
  lemma {:induction false} CopyRun(t: bytes, q: nat, k: nat)
    requires q + k <= |t| && forall j :: q <= j < q + k ==> t[j] >= 0x80
    ensures Process(t, q, |t|) == Prepend(t[q..q + k], Process(t, q + k, |t|))
    decreases k
  {
    CopyOne(t, q);
    hide Process;
    var rest := Process(t, q + k, |t|);
    if k == 0 {
      assert t[q..q] == [];
      assert rest.Parsed? ==> [] + rest.value == rest.value;
    } else {
      CopyRun(t, q + 1, k - 1);
      assert t[q..q + k] == [t[q]] + t[q + 1..q + k];
      assert rest.Parsed? ==> [t[q]] + (t[q + 1..q + k] + rest.value) == t[q..q + k] + rest.value;
    }
  }

  lemma CopyOne(t: bytes, q: nat)
    ensures q < |t| && t[q] >= 0x80 ==> Process(t, q, |t|) == Prepend([t[q]], Process(t, q + 1, |t|))
  {
  }

  /** The bytes of a code point outside ASCII lie ahead, and behind them the next one. */
  lemma BytesAhead(t: bytes, q: nat, cps: seq<nat>, i: nat)
    requires Aligned(t, q, cps, i) && i < |cps| && cps[i] >= 0x80
    ensures var e := EncodeUtf8(cps[i]);
            && StartsWith(t, q, e) && Aligned(t, q + |e|, cps, i + 1)
            && forall j :: 0 <= j < |e| ==> e[j] >= 0x80
  {
  }

  /** A code point outside ASCII and its bytes. */
  lemma CopyCodePoint(t: bytes, q: nat, cps: seq<nat>, i: nat) returns (q': nat)
    requires Aligned(t, q, cps, i) && i < |cps| && cps[i] >= 0x80
    ensures Aligned(t, q', cps, i + 1)
    ensures Process(t, q, |t|) == Prepend(EncodeUtf8(cps[i]), Process(t, q', |t|))
  {
    hide EncodeAll, EncodeUtf8, Process;
    BytesAhead(t, q, cps, i);
    var e := EncodeUtf8(cps[i]);
    q' := q + |e|;
    forall j | q <= j < q + |e| ensures t[j] >= 0x80 {
      assert t[q..q + |e|][j - q] == e[j - q];
    }
    CopyRun(t, q, |e|);
  }

  /** An escape sequence on both sides. */
  lemma EscapeAgrees(t: bytes, q: nat, cps: seq<nat>, i: nat)
    requires Aligned(t, q, cps, i) && i < |cps| && cps[i] == BACKSLASH
    ensures q < |t| && t[q] == BACKSLASH
    ensures UnescapeCp(cps, i).Refused? <==> UnescapeOne(t, q).Refused?
    ensures UnescapeCp(cps, i).Parsed? ==>
              var r, s := UnescapeCp(cps, i), UnescapeOne(t, q);
              IsScalar(r.value) && s.value == EncodeUtf8(r.value) && Aligned(t, s.end, cps, r.end)
  {
    HeadAgrees(t, q, cps, i);
    HeadAgrees(t, q + 1, cps, i + 1);
    hide Aligned, HexValue, Hex4, Hex4Cp, EncodeUtf8, IsLead, IsTrail, Combine, FirstHalf, SecondHalf, PairCp;
    if At(t, q + 1) == LOWER_U {
      assert LOWER_U < 0x80 && BACKSLASH < 0x80;
      HexAgrees(t, q + 2, cps, i + 2);
      var u := Hex4(t, q + 2);
      if u.Some? {
        HalvesAgree(u.value);
        UnitIsScalar(u.value);
        if IsLead(u.value) {
          PairAgrees(t, q + 6, cps, i + 6);
          var w := Hex4(t, q + 8);
          if w.Some? {
            HalvesAgree(w.value);
            if IsTrail(w.value) {
              PairsAgree(u.value, w.value);
            }
          }
        }
      }
    } else {
      SimpleIsAscii(At(t, q + 1), CpAt(cps, i + 1));
    }
  }

  /** The second half of a surrogate pair. */
  lemma PairAgrees(t: bytes, q: nat, cps: seq<nat>, i: nat)
    requires Aligned(t, q, cps, i)
    ensures (At(t, q) == BACKSLASH && At(t, q + 1) == LOWER_U) <==>
              (CpAt(cps, i) == BACKSLASH && CpAt(cps, i + 1) == LOWER_U)
    ensures At(t, q) == BACKSLASH && At(t, q + 1) == LOWER_U ==>
              Hex4(t, q + 2) == Hex4Cp(cps, i + 2) && (Hex4(t, q + 2).Some? ==> Aligned(t, q + 6, cps, i + 6))
  {
    HeadAgrees(t, q, cps, i);
    hide Aligned, Hex4, Hex4Cp;
    if At(t, q) == BACKSLASH {
      HeadAgrees(t, q + 1, cps, i + 1);
      if At(t, q + 1) == LOWER_U {
        HexAgrees(t, q + 2, cps, i + 2);
      }
    }
  }

  lemma HalvesAgree(u: nat)
    ensures IsLead(u) <==> FirstHalf(u)
    ensures IsTrail(u) <==> SecondHalf(u)
  {
  }

  lemma PairsAgree(u: nat, w: nat)
    requires IsLead(u) && IsTrail(w)
    ensures Combine(u, w) == PairCp(u, w) && IsScalar(PairCp(u, w))
  {
  }

  lemma UnitIsScalar(u: nat)
    requires u < 0x10000
    ensures !IsLead(u) && !IsTrail(u) ==> IsScalar(u)
  {
  }

  /** A short escape on both sides: `c` is the byte behind the backslash, `e` the code point. */
  lemma SimpleIsAscii(c: byte, e: nat)
    requires c < 0x80 || e < 0x80 ==> c == e
    ensures SimpleEscape(c).Some? <==> ShortCp(e).Some?
    ensures SimpleEscape(c).Some? ==>
              c < 0x80 && c != NUL && ShortCp(e) == Some(SimpleEscape(c).value) && SimpleEscape(c).value < 0x80
              && EncodeUtf8(SimpleEscape(c).value) == [SimpleEscape(c).value] && IsScalar(SimpleEscape(c).value)
  {
  }

  /** Both sides, from any aligned position to the end of the text. */
  lemma {:induction false} UnescapeAgrees(t: bytes, q: nat, cps: seq<nat>, i: nat)
    requires Aligned(t, q, cps, i) && NulFree(t)
    ensures match UnescapeCps(cps, i)
            case None => Process(t, q, |t|) == Refused
            case Some(us) => AllScalar(us) && Process(t, q, |t|) == Parsed(EncodeAll(us), |t|)
    decreases |cps| - i
  {
    HeadAgrees(t, q, cps, i);
    if i < |cps| {
      var r := UnescapeCp(cps, i);
      var q' := q;
      if cps[i] >= 0x80 {
        q' := CopyCodePoint(t, q, cps, i);
      } else if cps[i] == BACKSLASH {
        EscapeAgrees(t, q, cps, i);
        q' := if r.Parsed? then UnescapeOne(t, q).end else q;
      } else {
        q' := q + 1;
        assert EncodeUtf8(cps[i]) == [t[q]];
      }
      assert r.Refused? ==> Process(t, q, |t|) == Refused;
      assert r.Parsed? ==> IsScalar(r.value) && Aligned(t, q', cps, r.end)
                           && Process(t, q, |t|) == Prepend(EncodeUtf8(r.value), Process(t, q', |t|));
      hide Aligned, Process, UnescapeCp, EncodeUtf8, IsScalar;
      if r.Parsed? {
        UnescapeAgrees(t, q', cps, r.end);
        if UnescapeCps(cps, r.end).Some? {
          Prepended(r.value, UnescapeCps(cps, r.end).value);
        }
      }
    }
  }

  /**
   * If the text between the quotes is valid UTF-8 for the code points `cps`, then the string is accepted exactly
   * when the escapes among `cps` have a meaning, and its value is valid UTF-8 for the code points they mean.
   * A surrogate pair becomes one code point; a lone surrogate has no meaning.
   */
  lemma QuotedMeaning(t: bytes, p: nat, e: nat, cps: seq<nat>)
    requires NulFree(t) && SkipQuotes(t, p) == Some(e + 1)
    requires p < e < |t| && Decode(t[p + 1..e]) == Some(cps)
    ensures match UnescapeCps(cps, 0)
            case None => GetQuoted(t, p) == Refused
            case Some(us) =>
              && AllScalar(us) && GetQuoted(t, p) == Parsed(EncodeAll(us), e + 1)
              && Decode(GetQuoted(t, p).value) == Some(us)
              && Walk(GetQuoted(t, p).value, 0, |GetQuoted(t, p).value|)
  {
    hide Process, UnescapeCps, Decode, Walk, SkipQuotes, GetQuoted, EncodeAll, AllScalar, Aligned;
    AlignedInside(t, p, e, cps);
    UnescapeAgrees(t[..e], p + 1, cps, 0);
    QuotedIsBounded(t, p);
    var r := UnescapeCps(cps, 0);
    if r.Some? {
      ScalarsDecode(r.value);
    }
  }

  lemma AlignedInside(t: bytes, p: nat, e: nat, cps: seq<nat>)
    requires p < e < |t| && Decode(t[p + 1..e]) == Some(cps)
    ensures Aligned(t[..e], p + 1, cps, 0)
  {
    DecodeIsInverse(t[p + 1..e], cps);
    assert t[..e][p + 1..] == t[p + 1..e] && cps[0..] == cps;
  }

  lemma ScalarsDecode(us: seq<nat>)
    requires AllScalar(us)
    ensures Decode(EncodeAll(us)) == Some(us) && Walk(EncodeAll(us), 0, |EncodeAll(us)|)
  {
    EncodedDecodes(us);
    WalkOnWhole(EncodeAll(us));
  }
}
