/**
 * UTF-8: the sequence check of the library accepts exactly the encodings of Unicode scalar values
 * (section 3 of RFC 3629), so decoding and encoding are inverses; and how far the check looks into a longer text.
 */
module Utf8 {
  import opened Bytes
  import opened JsonParse

  // ----- the check

  predicate IsCont(b: byte) {
    0x80 <= b < 0xC0
  }

  function SequenceLength(c: byte): (n: nat)
    ensures n <= 4
  {
    if c == 0xC0 || c == 0xC1 || c > 0xF4 || IsCont(c) then 0
    else if c < 0x80 then 1
    else if c < 0xE0 then 2
    else if c < 0xF0 then 3
    else 4
  }

  /** The value that verify_utf8_sequence assembles for a sequence of `n` bytes, if it is one. */
  function Assemble(t: bytes, p: nat, n: nat): Option<nat> {
    var a, b, c, d := At(t, p), At(t, p + 1), At(t, p + 2), At(t, p + 3);
    if n == 1 then Some(a)
    else if n == 2 && IsCont(b) then Some(a % 0x20 * 0x40 + b % 0x40)
    else if n == 3 && IsCont(b) && IsCont(c) then Some((a % 0x10 * 0x40 + b % 0x40) * 0x40 + c % 0x40)
    else if n == 4 && IsCont(b) && IsCont(c) && IsCont(d) then
      Some(((a % 0x08 * 0x40 + b % 0x40) * 0x40 + c % 0x40) * 0x40 + d % 0x40)
    else None
  }

  /** verify_utf8_sequence: code point and end of the sequence at `p`. */
  function VerifySequence(t: bytes, p: nat): (r: Parsed<nat>)
    requires p < |t|
    ensures r.Parsed? ==> p < r.end <= |t|
  {
    var n := SequenceLength(t[p]);
    match Assemble(t, p, n)
    case None => Refused
    case Some(cp) =>
      if (cp < 0x80 && n > 1) || (cp < 0x800 && n > 2) || (cp < 0x10000 && n > 3) then Refused
      else if cp > 0x10FFFF then Refused
      else if 0xD800 <= cp <= 0xDFFF then Refused
      else Parsed(cp, p + n)
  }

  function Decode(s: bytes): Option<seq<nat>>
    decreases |s|
  {
    if |s| == 0 then Some([])
    else
      match VerifySequence(s, 0)
      case Refused => None
      case Parsed(cp, n) =>
        match Decode(s[n..])
        case None => None
        case Some(rest) => Some([cp] + rest)
  }

  /** is_valid_utf8 on the first `n` bytes of the buffer `s`; a sequence may start below `n` and end beyond it. */
  function Walk(s: bytes, p: nat, n: nat): bool
    requires n <= |s|
    decreases |s| - p
  {
    p >= n ||
    match VerifySequence(s, p)
    case Refused => false
    case Parsed(_, end) => Walk(s, end, n)
  }

  /** is_valid_utf8 */
  method IsValidUtf8(s: bytes, n: nat) returns (valid: bool)
    requires n <= |s|
    ensures valid == Walk(s, 0, n)
  {
    var p := 0;
    while p < n
      invariant p <= |s| && Walk(s, 0, n) == Walk(s, p, n)
      decreases |s| - p
    {
      match VerifySequence(s, p) {
        case Refused => return false;
        case Parsed(_, end) => p := end;
      }
    }
    return true;
  }

  // ----- the encodings of scalar values

  predicate IsScalar(cp: nat) {
    cp <= 0x10FFFF && !(0xD800 <= cp <= 0xDFFF)
  }

  predicate AllScalar(cps: seq<nat>) {
    forall i :: 0 <= i < |cps| ==> IsScalar(cps[i])
  }

  function EncodeAll(cps: seq<nat>): bytes
    requires AllScalar(cps)
  {
    if |cps| == 0 then [] else EncodeUtf8(cps[0]) + EncodeAll(cps[1..])
  }

  /** The low six bits of a value travel in one continuation byte. */
  lemma SixBits(high: nat, b: byte, cp: nat)
    requires IsCont(b) && cp == high * 0x40 + b % 0x40
    ensures cp / 0x40 == high && cp % 0x40 == b - 0x80
  {
  }

  lemma ThreeBytes(a: byte, b: byte, c: byte, cp: nat)
    requires 0xE0 <= a < 0xF0 && IsCont(b) && IsCont(c) && cp == (a % 0x10 * 0x40 + b % 0x40) * 0x40 + c % 0x40
    ensures cp / 0x1000 == a - 0xE0 && cp / 0x40 % 0x40 == b - 0x80 && cp % 0x40 == c - 0x80
  {
  }

  lemma FourBytes(a: byte, b: byte, c: byte, d: byte, cp: nat)
    requires 0xF0 <= a < 0xF8 && IsCont(b) && IsCont(c) && IsCont(d)
    requires cp == ((a % 0x08 * 0x40 + b % 0x40) * 0x40 + c % 0x40) * 0x40 + d % 0x40
    ensures cp / 0x40000 == a - 0xF0 && cp / 0x1000 % 0x40 == b - 0x80
    ensures cp / 0x40 % 0x40 == c - 0x80 && cp % 0x40 == d - 0x80
  {
    var x := (a % 0x08 * 0x40 + b % 0x40) * 0x40 + c % 0x40;
    SixBits(x, d, cp);
    SixBits(a % 0x08 * 0x40 + b % 0x40, c, x);
    SixBits(a % 0x08, b, x / 0x40);
    assert x / 0x40 == cp / 0x1000 && cp / 0x1000 / 0x40 == cp / 0x40000;
  }

  lemma BytesAt(t: bytes, p: nat, e: bytes)
    requires StartsWith(t, p, e) && 1 <= |e| <= 4
    ensures p < |t| && At(t, p) == t[p] == e[0] && (|e| > 1 ==> At(t, p + 1) == e[1])
    ensures (|e| > 2 ==> At(t, p + 2) == e[2]) && (|e| > 3 ==> At(t, p + 3) == e[3])
  {
  }

  lemma LowBits(v: nat)
    requires v < 0x40
    ensures (0x80 + v) % 0x40 == v
    ensures v < 0x20 ==> (0xC0 + v) % 0x20 == v
    ensures v < 0x10 ==> (0xE0 + v) % 0x10 == v
    ensures v < 0x08 ==> (0xF0 + v) % 0x08 == v
  {
  }

  lemma SplitBits(cp: nat)
    ensures cp == cp / 0x40 * 0x40 + cp % 0x40 && cp / 0x40 / 0x40 == cp / 0x1000 && cp / 0x1000 / 0x40 == cp / 0x40000
    ensures cp / 0x40 == cp / 0x1000 * 0x40 + cp / 0x40 % 0x40
            && cp / 0x1000 == cp / 0x40000 * 0x40 + cp / 0x1000 % 0x40
  {
  }

  lemma TwoBytesBack(cp: nat)
    requires 0x80 <= cp < 0x800
    ensures var a, b := 0xC0 + cp / 0x40, 0x80 + cp % 0x40;
            IsCont(b) && a % 0x20 * 0x40 + b % 0x40 == cp
  {
    LowBits(cp / 0x40);
    LowBits(cp % 0x40);
  }

  lemma ThreeBytesBack(cp: nat)
    requires 0x800 <= cp < 0x10000
    ensures var a, b, c := 0xE0 + cp / 0x1000, 0x80 + cp / 0x40 % 0x40, 0x80 + cp % 0x40;
            IsCont(b) && IsCont(c) && (a % 0x10 * 0x40 + b % 0x40) * 0x40 + c % 0x40 == cp
  {
    SplitBits(cp);
    LowBits(cp / 0x1000);
    LowBits(cp / 0x40 % 0x40);
    LowBits(cp % 0x40);
  }

  lemma FourBytesBack(cp: nat)
    requires 0x10000 <= cp <= 0x10FFFF
    ensures var a, b := 0xF0 + cp / 0x40000, 0x80 + cp / 0x1000 % 0x40;
            var c, d := 0x80 + cp / 0x40 % 0x40, 0x80 + cp % 0x40;
            && IsCont(b) && IsCont(c) && IsCont(d)
            && ((a % 0x08 * 0x40 + b % 0x40) * 0x40 + c % 0x40) * 0x40 + d % 0x40 == cp
  {
    SplitBits(cp);
    LowBits(cp / 0x40000);
    LowBits(cp / 0x1000 % 0x40);
    LowBits(cp / 0x40 % 0x40);
    LowBits(cp % 0x40);
  }

  lemma AssembleEncoded(t: bytes, p: nat, cp: nat)
    requires IsScalar(cp) && StartsWith(t, p, EncodeUtf8(cp))
    ensures Assemble(t, p, |EncodeUtf8(cp)|) == Some(cp)
  {
    BytesAt(t, p, EncodeUtf8(cp));
    hide StartsWith, At;
    if 0x80 <= cp < 0x800 {
      TwoBytesBack(cp);
    } else if 0x800 <= cp < 0x10000 {
      ThreeBytesBack(cp);
    } else if 0x10000 <= cp {
      FourBytesBack(cp);
    }
  }

  lemma VerifyEncoded(t: bytes, p: nat, cp: nat)
    requires IsScalar(cp) && StartsWith(t, p, EncodeUtf8(cp))
    ensures p < |t| && VerifySequence(t, p) == Parsed(cp, p + |EncodeUtf8(cp)|)
  {
    AssembleEncoded(t, p, cp);
    BytesAt(t, p, EncodeUtf8(cp));
    assert SequenceLength(EncodeUtf8(cp)[0]) == |EncodeUtf8(cp)|;
    assert |EncodeUtf8(cp)| == if cp < 0x80 then 1 else if cp < 0x800 then 2 else if cp < 0x10000 then 3 else 4;
    hide StartsWith, EncodeUtf8, Assemble, SequenceLength;
  }

  lemma VerifySound(t: bytes, p: nat)
    requires p < |t| && VerifySequence(t, p).Parsed?
    ensures var r := VerifySequence(t, p);
            IsScalar(r.value) && t[p..r.end] == EncodeUtf8(r.value)
  {
    var r := VerifySequence(t, p);
    var cp, n := r.value, r.end - p;
    var a, b, c, d := At(t, p), At(t, p + 1), At(t, p + 2), At(t, p + 3);
    AssembledEncodes(t, p, n, cp);
    hide EncodeUtf8, VerifySequence, Assemble, SequenceLength;
    assert t[p..r.end] == [a, b, c, d][..n];
  }

  lemma AssembledEncodes(t: bytes, p: nat, n: nat, cp: nat)
    requires p < |t| && n == SequenceLength(t[p]) && Assemble(t, p, n) == Some(cp) && cp <= 0x10FFFF
    requires (n > 1 ==> cp >= 0x80) && (n > 2 ==> cp >= 0x800) && (n > 3 ==> cp >= 0x10000)
    ensures 1 <= n <= 4 && EncodeUtf8(cp) == [At(t, p), At(t, p + 1), At(t, p + 2), At(t, p + 3)][..n]
  {
    var a, b, c, d := At(t, p), At(t, p + 1), At(t, p + 2), At(t, p + 3);
    AssembledBytes(t, p, n, cp);
    hide EncodeUtf8, Assemble, SequenceLength;
    assert [a, b, c, d][..1] == [a] && [a, b, c, d][..2] == [a, b];
    assert [a, b, c, d][..3] == [a, b, c] && [a, b, c, d][..4] == [a, b, c, d];
  }

  lemma AssembledBytes(t: bytes, p: nat, n: nat, cp: nat)
    requires p < |t| && n == SequenceLength(t[p]) && Assemble(t, p, n) == Some(cp) && cp <= 0x10FFFF
    requires (n > 1 ==> cp >= 0x80) && (n > 2 ==> cp >= 0x800) && (n > 3 ==> cp >= 0x10000)
    ensures var a, b, c, d := At(t, p), At(t, p + 1), At(t, p + 2), At(t, p + 3);
            1 <= n <= 4 && EncodeUtf8(cp) == if n == 1 then [a] else if n == 2 then [a, b]
                                             else if n == 3 then [a, b, c] else [a, b, c, d]
  {
    var a, b, c, d := At(t, p), At(t, p + 1), At(t, p + 2), At(t, p + 3);
    if n == 3 {
      ThreeBytes(a, b, c, cp);
    } else if n == 4 {
      FourBytes(a, b, c, d, cp);
    }
  }

  lemma {:induction false} EncodedDecodes(cps: seq<nat>)
    requires AllScalar(cps)
    ensures Decode(EncodeAll(cps)) == Some(cps)
  {
    if |cps| > 0 {
      var e, rest := EncodeUtf8(cps[0]), EncodeAll(cps[1..]);
      var s := e + rest;
      assert s[0..|e|] == e && s[|e|..] == rest;
      VerifyEncoded(s, 0, cps[0]);
      EncodedDecodes(cps[1..]);
      assert cps == [cps[0]] + cps[1..];
    }
  }

  lemma DecodeUnfolds(s: bytes)
    requires |s| > 0 && Decode(s).Some?
    ensures var r := VerifySequence(s, 0);
            && r.Parsed? && 0 < r.end <= |s| && Decode(s[r.end..]).Some?
            && Decode(s).value == [r.value] + Decode(s[r.end..]).value
  {
    hide VerifySequence;
  }

  lemma Prepended(c: nat, cps: seq<nat>)
    requires IsScalar(c) && AllScalar(cps)
    ensures AllScalar([c] + cps) && EncodeAll([c] + cps) == EncodeUtf8(c) + EncodeAll(cps)
  {
    assert ([c] + cps)[1..] == cps;
  }

  lemma {:induction false} DecodedEncodes(s: bytes)
    requires Decode(s).Some?
    ensures AllScalar(Decode(s).value) && EncodeAll(Decode(s).value) == s
    decreases |s|
  {
    if |s| > 0 {
      hide Decode, VerifySequence, EncodeUtf8, EncodeAll, IsScalar, AllScalar;
      var r := VerifySequence(s, 0);
      DecodeUnfolds(s);
      DecodedEncodes(s[r.end..]);
      VerifySound(s, 0);
      Prepended(r.value, Decode(s[r.end..]).value);
      Halves(s, r.end);
    }
  }

  lemma Halves(s: bytes, k: nat)
    requires k <= |s|
    ensures s[0..k] + s[k..] == s
  {
  }

  /** A byte string decodes to `cps` exactly when it is the encoding of the scalar values `cps`. */
  lemma DecodeIsInverse(s: bytes, cps: seq<nat>)
    ensures Decode(s) == Some(cps) <==> AllScalar(cps) && EncodeAll(cps) == s
  {
    if Decode(s).Some? {
      DecodedEncodes(s);
    }
    if AllScalar(cps) {
      EncodedDecodes(cps);
    }
  }

  ghost predicate ValidUtf8(s: bytes) {
    Decode(s).Some?
  }

  // ----- what the walk over a buffer accepts

  lemma VerifyIsLocal(s: bytes, p: nat, k: nat)
    requires p < k <= |s|
    ensures VerifySequence(s[p..k], 0).Parsed? <==> VerifySequence(s, p).Parsed? && VerifySequence(s, p).end <= k
    ensures VerifySequence(s[p..k], 0).Parsed? ==>
              VerifySequence(s[p..k], 0) == Parsed(VerifySequence(s, p).value, VerifySequence(s, p).end - p)
  {
  }

  /** One sequence of `s[p..k]` after the other. */
  lemma DecodeStep(s: bytes, p: nat, k: nat)
    requires p < k <= |s|
    ensures ValidUtf8(s[p..k]) <==>
            VerifySequence(s, p).Parsed? && VerifySequence(s, p).end <= k && ValidUtf8(s[VerifySequence(s, p).end..k])
  {
    VerifyIsLocal(s, p, k);
    hide VerifySequence;
    var r := VerifySequence(s, p);
    if r.Parsed? && r.end <= k {
      assert s[p..k][r.end - p..] == s[r.end..k];
    }
  }

  lemma {:induction false} WalkReaches(s: bytes, p: nat, n: nat)
    requires p <= |s| && n <= |s| && Walk(s, p, n)
    ensures exists k :: p <= k <= |s| && n <= k && ValidUtf8(s[p..k])
    decreases |s| - p
  {
    if p >= n {
      assert s[p..p] == [];
      assert ValidUtf8(s[p..p]);
    } else {
      var e := VerifySequence(s, p).end;
      WalkReaches(s, e, n);
      var k :| e <= k <= |s| && n <= k && ValidUtf8(s[e..k]);
      DecodeStep(s, p, k);
    }
  }

  lemma {:induction false} ReachedWalks(s: bytes, p: nat, n: nat, k: nat)
    requires p <= k <= |s| && n <= k && ValidUtf8(s[p..k])
    ensures Walk(s, p, n)
    decreases |s| - p
  {
    if p < n {
      DecodeStep(s, p, k);
      ReachedWalks(s, VerifySequence(s, p).end, n, k);
    }
  }

  /**
   * The check accepts the first `n` bytes of a buffer exactly when some prefix of at least `n` bytes is valid:
   * it does not notice that a length cuts the last sequence in two.
   */
  lemma WalkAccepts(s: bytes, n: nat)
    requires n <= |s|
    ensures Walk(s, 0, n) <==> exists k :: n <= k <= |s| && ValidUtf8(s[..k])
  {
    if Walk(s, 0, n) {
      WalkReaches(s, 0, n);
      var k :| 0 <= k <= |s| && n <= k && ValidUtf8(s[0..k]);
      assert s[..k] == s[0..k];
    }
    if k :| n <= k <= |s| && ValidUtf8(s[..k]) {
      assert s[..k] == s[0..k];
      ReachedWalks(s, 0, n, k);
    }
  }

  /** On a whole C string the check is validity. */
  lemma WalkOnWhole(s: bytes)
    ensures Walk(s, 0, |s|) <==> ValidUtf8(s)
  {
    WalkAccepts(s, |s|);
    assert s[..|s|] == s;
  }

  /** The two bytes of U+00E9: their first byte alone passes the check although it is not valid. */
  lemma CutSequenceAccepted()
    ensures Walk([0xC3, 0xA9], 0, 1) && !ValidUtf8([0xC3, 0xA9][..1])
  {
  }
}
