/** Event masks: what the word operations of the broker do to the set of events that a mask stands for. */
module Masks {
  type Mask = bv32

  const WIDTH: nat := 32

  function Join(a: Mask, b: Mask): Mask {
    a | b
  }

  function Without(a: Mask, b: Mask): Mask {
    a & !b
  }

  function Common(a: Mask, b: Mask): Mask {
    a & b
  }

  predicate Meets(a: Mask, b: Mask) {
    Common(a, b) != 0
  }

  lemma MaskLaws(a: Mask, b: Mask)
    ensures Join(a, b) == 0 <==> a == 0 && b == 0
    ensures Join(0, b) == b && Join(a, 0) == a && Without(0, b) == 0
  {
  }

  // ----- the events of a mask

  predicate Odd(m: Mask) {
    m & 1 == 1
  }

  function Half(m: Mask): Mask {
    m >> 1
  }

  /** The numbers of the bits that are set, from `k` on, when `m` has been shifted down by `k`. */
  ghost function BitsFrom(m: Mask, k: nat): (s: set<nat>)
    requires k <= WIDTH
    ensures forall i :: i in s ==> k <= i < WIDTH
    decreases WIDTH - k
  {
    if k == WIDTH then {} else (if Odd(m) then {k} else {}) + BitsFrom(Half(m), k + 1)
  }

  /** The events a mask asks for: each of the 32 bits is one. */
  ghost function Bits(m: Mask): set<nat> {
    BitsFrom(m, 0)
  }

  lemma OddJoin(a: Mask, b: Mask)
    ensures Odd(Join(a, b)) <==> Odd(a) || Odd(b)
  {
  }

  lemma OddWithout(a: Mask, b: Mask)
    ensures Odd(Without(a, b)) <==> Odd(a) && !Odd(b)
  {
  }

  lemma OddCommon(a: Mask, b: Mask)
    ensures Odd(Common(a, b)) <==> Odd(a) && Odd(b)
  {
  }

  lemma HalfJoin(a: Mask, b: Mask)
    ensures Half(Join(a, b)) == Join(Half(a), Half(b))
  {
  }

  lemma HalfWithout(a: Mask, b: Mask)
    ensures Half(Without(a, b)) == Without(Half(a), Half(b))
  {
  }

  lemma HalfCommon(a: Mask, b: Mask)
    ensures Half(Common(a, b)) == Common(Half(a), Half(b))
  {
  }

  lemma {:induction false} JoinFrom(a: Mask, b: Mask, k: nat)
    requires k <= WIDTH
    ensures BitsFrom(Join(a, b), k) == BitsFrom(a, k) + BitsFrom(b, k)
    decreases WIDTH - k
  {
    hide Join, Odd, Half;
    if k < WIDTH {
      OddJoin(a, b);
      HalfJoin(a, b);
      JoinFrom(Half(a), Half(b), k + 1);
    }
  }

  lemma {:induction false} WithoutFrom(a: Mask, b: Mask, k: nat)
    requires k <= WIDTH
    ensures BitsFrom(Without(a, b), k) == BitsFrom(a, k) - BitsFrom(b, k)
    decreases WIDTH - k
  {
    hide Without, Odd, Half;
    if k < WIDTH {
      OddWithout(a, b);
      HalfWithout(a, b);
      WithoutFrom(Half(a), Half(b), k + 1);
    }
  }

  lemma {:induction false} CommonFrom(a: Mask, b: Mask, k: nat)
    requires k <= WIDTH
    ensures BitsFrom(Common(a, b), k) == BitsFrom(a, k) * BitsFrom(b, k)
    decreases WIDTH - k
  {
    hide Common, Odd, Half;
    if k < WIDTH {
      OddCommon(a, b);
      HalfCommon(a, b);
      CommonFrom(Half(a), Half(b), k + 1);
    }
  }

  /** Joining is union, clearing is difference. */
  lemma BitsLaws(a: Mask, b: Mask)
    ensures Bits(Join(a, b)) == Bits(a) + Bits(b)
    ensures Bits(Without(a, b)) == Bits(a) - Bits(b)
  {
    JoinFrom(a, b, 0);
    WithoutFrom(a, b, 0);
  }

  // ----- an empty mask

  /** The greatest mask that is left after `k` shifts. */
  function Limit(k: nat): Mask {
    if k == 0 then 0xFFFF_FFFF else Half(Limit(k - 1))
  }

  lemma HalfBelow(m: Mask, l: Mask)
    requires m <= l
    ensures Half(m) <= Half(l)
  {
  }

  lemma HalfOfNothing(m: Mask)
    ensures !Odd(m) && Half(m) == 0 <==> m == 0
  {
  }

  lemma LimitEnds()
    ensures Limit(WIDTH) == 0
  {
    assert Limit(4) == 0x0FFF_FFFF && Limit(8) == 0x00FF_FFFF;
    assert Limit(12) == 0x000F_FFFF && Limit(16) == 0xFFFF;
    assert Limit(20) == 0xFFF && Limit(24) == 0xFF && Limit(28) == 0xF;
    assert Limit(30) == 3 && Limit(31) == 1;
  }

  predicate Fits(m: Mask, k: nat) {
    m <= Limit(k)
  }

  lemma NothingLeft(m: Mask)
    requires Fits(m, WIDTH)
    ensures m == 0
  {
    LimitEnds();
    hide Limit;
  }

  lemma HalfFits(m: Mask, k: nat)
    requires Fits(m, k)
    ensures Fits(Half(m), k + 1)
  {
    HalfBelow(m, Limit(k));
  }

  lemma {:induction false} NothingFrom(m: Mask, k: nat)
    requires k <= WIDTH && Fits(m, k)
    ensures BitsFrom(m, k) == {} <==> m == 0
    decreases WIDTH - k
  {
    hide Odd, Half, Fits;
    if k == WIDTH {
      NothingLeft(m);
    } else {
      HalfFits(m, k);
      HalfOfNothing(m);
      NothingFrom(Half(m), k + 1);
    }
  }

  /** A mask asks for nothing exactly when it is zero. */
  lemma BitsOfNothing(m: Mask)
    ensures Bits(m) == {} <==> m == 0
  {
    NothingFrom(m, 0);
  }

  /** The word test finds out whether two masks have an event in common. */
  lemma MeetsIsCommon(a: Mask, b: Mask)
    ensures Meets(a, b) <==> Bits(a) * Bits(b) != {}
  {
    hide Common;
    CommonFrom(a, b, 0);
    BitsOfNothing(Common(a, b));
  }
}
