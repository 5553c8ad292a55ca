/** Bytes, C strings and the small result types shared by the other modules. */
module Bytes {
  type byte = b: int | 0 <= b < 0x100
  type bytes = seq<byte>

  const NUL: byte := 0

  datatype Option<+T> = None | Some(value: T)

  /** A C string is the bytes in front of its terminator, so it holds no NUL itself. */
  predicate NulFree(s: bytes) {
    forall i :: 0 <= i < |s| ==> s[i] != NUL
  }

  /** What `*(s + p)` reads in a terminated buffer whose contents are `s`. */
  function At(s: bytes, p: nat): byte {
    if p < |s| then s[p] else NUL
  }

  predicate StartsWith(s: bytes, p: nat, token: bytes) {
    p + |token| <= |s| && s[p..p + |token|] == token
  }

  /** Deletion that fills the gap with the last element instead of moving the rest up. */
  function SwapOut<T>(s: seq<T>, m: nat): (r: seq<T>)
    requires m < |s|
    ensures |r| == |s| - 1
    ensures forall i :: 0 <= i < |r| ==> r[i] == if i == m then s[|s| - 1] else s[i]
  {
    s[m := s[|s| - 1]][..|s| - 1]
  }

  /** Bitwise conjunction on unsigned words of any width. */
  function BitAnd(x: nat, y: nat): nat {
    if x == 0 || y == 0 then 0 else (x % 2) * (y % 2) + 2 * BitAnd(x / 2, y / 2)
  }

  function Pow2(k: nat): (r: nat)
    ensures r >= 1
  {
    if k == 0 then 1 else 2 * Pow2(k - 1)
  }

  function Rem(x: nat, n: nat): (r: nat)
    requires n > 0
    ensures r < n
  {
    x % n
  }

  /** Masking with a power of two less one is the remainder: what `hash & (capacity - 1)` relies on. */
  lemma {:induction false} MaskIsRemainder(x: nat, k: nat)
    ensures BitAnd(x, Pow2(k) - 1) == Rem(x, Pow2(k))
  {
    hide Rem;
    if k == 0 || x == 0 {
      RemainderUnique(x, Pow2(k), if k == 0 then x else 0, 0);
    } else {
      var p := Pow2(k - 1);
      MaskIsRemainder(x / 2, k - 1);
      MaskStep(x, p);
    }
  }

  lemma MaskStep(x: nat, p: nat)
    requires p >= 1 && x >= 1 && BitAnd(x / 2, p - 1) == Rem(x / 2, p)
    ensures BitAnd(x, 2 * p - 1) == Rem(x, 2 * p)
  {
    hide Rem;
    OddMask(x, p);
    HalfRemainder(x, p);
  }

  lemma OddMask(x: nat, p: nat)
    requires p >= 1 && x >= 1
    ensures BitAnd(x, 2 * p - 1) == x % 2 + 2 * BitAnd(x / 2, p - 1)
  {
    assert (2 * p - 1) / 2 == p - 1 && (2 * p - 1) % 2 == 1;
  }

  lemma HalfRemainder(x: nat, p: nat)
    requires p >= 1
    ensures Rem(x, 2 * p) == x % 2 + 2 * Rem(x / 2, p)
  {
    DoubledRemainder(x, p, x / 2, x % 2, x / 2 / p, x / 2 % p);
  }

  lemma DoubledRemainder(x: nat, p: nat, h: nat, b: nat, q: nat, r: nat)
    requires p >= 1 && x == 2 * h + b && b < 2 && h == q * p + r && r < p
    ensures Rem(x, 2 * p) == b + 2 * r
  {
    hide Rem;
    assert q * (2 * p) == 2 * (q * p);
    RemainderUnique(x, 2 * p, q, 2 * r + b);
  }

  lemma RemainderUnique(x: nat, n: nat, q: int, r: int)
    requires n > 0 && x == q * n + r && 0 <= r < n
    ensures Rem(x, n) == x % n == r && x / n == q
  {
    QuotientUnique(n, q, r, x / n, x % n);
  }

  lemma QuotientUnique(n: nat, q: int, r: int, q': int, r': int)
    requires q * n + r == q' * n + r' && 0 <= r < n && 0 <= r' < n
    ensures q == q' && r == r'
  {
    if q < q' {
      MulMonotone(q + 1, q', n);
    } else if q' < q {
      MulMonotone(q' + 1, q, n);
    }
  }

  lemma MulMonotone(a: int, b: int, n: nat)
    requires a <= b
    ensures a * n <= b * n
  {
    assert (b - a) * n >= 0;
  }
}
