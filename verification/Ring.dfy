/** The ring of published messages: what push2sender writes, and which alarms still find their message there. */
module Ring {
  import opened Bytes

  datatype Message = Message(seqn: nat, code: bytes, mask: bv32, body: bytes)

  /** Symbol number, ring index and sequence number of a message; the first two are 16-bit fields. */
  datatype Alarm = Alarm(sidx: nat, indx: nat, seqn: nat)

  datatype Fifo = Fifo(slots: seq<Message>, widx: nat, seqn: nat)

  const WORD32: nat := 0x1_0000_0000
  const INDEXES: nat := 0x1_0000

  /** The remainder, by counting down: unlike `%` it keeps non-linear arithmetic out of the proofs that use it. */
  function Wrap(x: nat, n: nat): (r: nat)
    requires n > 0
    ensures r < n
  {
    if x < n then x else Wrap(x - n, n)
  }

  lemma {:induction false} WrapIsMod(x: nat, n: nat)
    requires n > 0
    ensures Wrap(x, n) == x % n
  {
    if x >= n {
      WrapIsMod(x - n, n);
      ModLess(x, n, (x - n) / n, (x - n) % n);
    }
  }

  lemma ModLess(x: nat, n: nat, q: nat, r: nat)
    requires n > 0 && x - n == q * n + r && r < n
    ensures x % n == r
  {
    assert x == (q + 1) * n + r;
    QuotientUnique(n, q + 1, r, x / n, x % n);
  }

  lemma WrapUnique(x: nat, n: nat, q: int, r: int)
    requires n > 0 && x == q * n + r && 0 <= r < n
    ensures Wrap(x, n) == r
  {
    WrapIsMod(x, n);
    RemainderUnique(x, n, q, r);
  }

  predicate FifoOk(f: Fifo) {
    f.widx < |f.slots|
  }

  /** push2sender: the message is stored under the truncated index, and the alarm names that slot. */
  function Push(f: Fifo, room: nat, m: Message): (r: (Fifo, Alarm))
    requires FifoOk(f)
    ensures FifoOk(r.0) && |r.0.slots| == |f.slots| && r.1.indx < |f.slots|
  {
    var indx := Wrap(f.widx, INDEXES);
    WrapAtMost(f.widx, INDEXES);
    (Fifo(f.slots[indx := m.(seqn := f.seqn)], Wrap(f.widx + 1, |f.slots|), Wrap(f.seqn + 1, WORD32)),
     Alarm(Wrap(room, INDEXES), indx, f.seqn))
  }

  lemma WrapAtMost(x: nat, n: nat)
    requires n > 0
    ensures Wrap(x, n) <= x && (x < n ==> Wrap(x, n) == x)
  {
  }

  function PushAll(f: Fifo, ms: seq<Message>): (r: Fifo)
    requires FifoOk(f)
    ensures FifoOk(r) && |r.slots| == |f.slots|
  {
    if |ms| == 0 then f else Push(PushAll(f, ms[..|ms| - 1]), 0, ms[|ms| - 1]).0
  }

  /** The ring as the broker starts it. */
  predicate Started(f: Fifo) {
    |f.slots| > 0 && f.widx == 0 && f.seqn == 0
  }

  /** The slot and the alarm of the message pushed as number `k`, on a ring of `n` slots. */
  function Slot(k: nat, n: nat): nat
    requires n > 0
  {
    Wrap(Wrap(k, n), INDEXES)
  }

  function AlarmOf(k: nat, n: nat, room: nat): Alarm
    requires n > 0
  {
    Alarm(Wrap(room, INDEXES), Slot(k, n), Wrap(k, WORD32))
  }

  /** The reader takes the message if the slot still carries the sequence number of the alarm. */
  predicate Accepts(f: Fifo, a: Alarm) {
    a.indx < |f.slots| && f.slots[a.indx].seqn == a.seqn
  }

  lemma NextWrap(k: nat, n: nat)
    requires n > 0
    ensures Wrap(Wrap(k, n) + 1, n) == Wrap(k + 1, n)
  {
    WrapIsMod(k, n);
    var q, r := k / n, k % n;
    assert k == q * n + r;
    if r + 1 < n {
      WrapUnique(k + 1, n, q, r + 1);
      WrapUnique(r + 1, n, 0, r + 1);
    } else {
      assert k + 1 == (q + 1) * n + 0;
      WrapUnique(k + 1, n, q + 1, 0);
      WrapUnique(r + 1, n, 1, 0);
    }
  }

  /** No message after `k`, of `total`, went to its slot. */
  ghost predicate LastAt(k: nat, total: nat, n: nat)
    requires n > 0
  {
    k < total && forall l: nat :: k < l < total ==> Slot(l, n) != Slot(k, n)
  }

  /** Index and sequence number stay in step with the number of messages, and a slot holds the last one put there. */
  lemma {:induction false} RingHolds(f: Fifo, ms: seq<Message>)
    requires Started(f)
    ensures var r, n := PushAll(f, ms), |f.slots|;
            && r.widx == Wrap(|ms|, n) && r.seqn == Wrap(|ms|, WORD32)
            && forall k: nat :: k < |ms| && LastAt(k, |ms|, n) ==>
                 Slot(k, n) < n && r.slots[Slot(k, n)] == ms[k].(seqn := Wrap(k, WORD32))
  {
    hide Wrap, Slot, LastAt;
    var n := |f.slots|;
    WrapAtMost(0, n);
    WrapAtMost(0, WORD32);
    if |ms| > 0 {
      var last := |ms| - 1;
      RingHolds(f, ms[..last]);
      NextWrap(last, n);
      NextWrap(last, WORD32);
      SlotWithin(last, n);
      forall k: nat | k < |ms| && LastAt(k, |ms|, n)
        ensures Slot(k, n) < n && PushAll(f, ms).slots[Slot(k, n)] == ms[k].(seqn := Wrap(k, WORD32))
      {
        LastBefore(k, last, n);
      }
    }
  }

  lemma SlotWithin(k: nat, n: nat)
    requires n > 0
    ensures Slot(k, n) < n && Slot(k, n) == Wrap(Wrap(k, n), INDEXES)
  {
  }

  lemma LastBefore(k: nat, last: nat, n: nat)
    requires n > 0 && LastAt(k, last + 1, n)
    ensures k <= last && (k < last ==> LastAt(k, last, n) && Slot(k, n) != Slot(last, n))
  {
    hide Slot;
  }

  /** push2sender's alarm for the message it has just stored. */
  lemma PushAlarm(f: Fifo, ms: seq<Message>, room: nat, m: Message)
    requires Started(f)
    ensures Push(PushAll(f, ms), room, m).1 == AlarmOf(|ms|, |f.slots|, room)
  {
    RingHolds(f, ms);
    hide Wrap;
  }

  /** Sixteen-bit indices reach every slot of a ring this size. */
  lemma SlotIsWrap(k: nat, n: nat)
    requires 0 < n <= INDEXES
    ensures Slot(k, n) == Wrap(k, n)
  {
    WrapAtMost(Wrap(k, n), INDEXES);
  }

  lemma OtherSlot(i: nat, l: nat, n: nat)
    requires n > 0 && i < l < i + n
    ensures Wrap(l, n) != Wrap(i, n)
  {
    hide Wrap;
    WrapIsMod(l, n);
    WrapIsMod(i, n);
    Apart(i, l, n, i / n, l / n, i % n, l % n);
  }

  lemma Apart(i: nat, l: nat, n: nat, a: nat, b: nat, r: nat, s: nat)
    requires i < l < i + n && i == a * n + r && l == b * n + s
    ensures r != s
  {
    if b <= a {
      MulMonotone(b, a, n);
    } else {
      MulMonotone(a + 1, b, n);
    }
  }

  /** The newest message in the slot of message `i` when `later` more have followed it: whole rounds further on. */
  function Newest(i: nat, later: nat, n: nat): nat
    requires n > 0
  {
    i + RoundsOf(later, n)
  }

  function RoundsOf(later: nat, n: nat): (r: nat)
    requires n > 0
    ensures r <= later < r + n
  {
    WrapAtMost(later, n);
    later - Wrap(later, n)
  }

  lemma NewestSlot(i: nat, later: nat, n: nat)
    requires n > 0
    ensures Wrap(Newest(i, later, n), n) == Wrap(i, n)
    ensures later < n <==> Newest(i, later, n) == i
  {
    hide Wrap;
    WrapAtMost(later, n);
    WrapIsMod(later, n);
    WrapIsMod(i, n);
    WholeRounds(i, later, n, i / n, i % n, later / n, later % n);
  }

  lemma WholeRounds(i: nat, later: nat, n: nat, a: nat, r: nat, q: nat, s: nat)
    requires n > 0 && i == a * n + r && later == q * n + s && r < n && s < n
    ensures Wrap(i + (later - s), n) == r
  {
    hide Wrap;
    assert i + q * n == (a + q) * n + r;
    WrapUnique(i + q * n, n, a + q, r);
  }

  lemma WordsApart(i: nat, k: nat)
    requires i <= k
    ensures Wrap(k, WORD32) == Wrap(i, WORD32) <==> Wrap(k - i, WORD32) == 0
  {
    WrapIsMod(k, WORD32);
    WrapIsMod(i, WORD32);
    WrapIsMod(k - i, WORD32);
  }

  lemma NewestIsLast(i: nat, later: nat, n: nat)
    requires 0 < n <= INDEXES
    ensures var k := Newest(i, later, n);
            && i <= k && Slot(k, n) == Slot(i, n) && LastAt(k, i + later + 1, n)
  {
    hide Wrap, RoundsOf;
    var k := Newest(i, later, n);
    NewestSlot(i, later, n);
    SlotIsWrap(i, n);
    SlotIsWrap(k, n);
    forall l: nat | k < l < i + later + 1 ensures Slot(l, n) != Slot(k, n) {
      SlotIsWrap(l, n);
      OtherSlot(k, l, n);
    }
  }

  lemma LastIsOne(k: nat, total: nat, n: nat)
    requires n > 0 && LastAt(k, total, n)
    ensures k < total
  {
  }

  /**
   * The alarm of message `i`, read after `later` more messages: its slot holds the newest message there, and the
   * alarm is accepted exactly if that one's number differs from `i` by a multiple of 2^32.
   */
  lemma AlarmFinds(f: Fifo, ms: seq<Message>, i: nat, room: nat)
    requires Started(f) && |f.slots| <= INDEXES && i < |ms|
    ensures var n, later := |f.slots|, |ms| - 1 - i;
            var a, k, r := AlarmOf(i, n, room), Newest(i, later, n), PushAll(f, ms);
            && a.indx < n && k < |ms| && r.slots[a.indx] == ms[k].(seqn := Wrap(k, WORD32))
            && (Accepts(r, a) <==> Wrap(k - i, WORD32) == 0)
  {
    hide Wrap, Slot, Newest, PushAll, LastAt;
    var n, later := |f.slots|, |ms| - 1 - i;
    var k := Newest(i, later, n);
    NewestIsLast(i, later, n);
    LastIsOne(k, |ms|, n);
    RingHolds(f, ms);
    WordsApart(i, k);
  }

  /**
   * Before the sequence numbers come round, an alarm is rejected exactly when the ring has been written all the way
   * round since, and an accepted one finds its own message.
   */
  lemma {:induction false} AlarmInTime(f: Fifo, ms: seq<Message>, i: nat, room: nat)
    requires Started(f) && |f.slots| <= INDEXES && i < |ms|
    ensures var n, later, a, r := |f.slots|, |ms| - 1 - i, AlarmOf(i, |f.slots|, room), PushAll(f, ms);
            && (later < n ==> Accepts(r, a) && r.slots[a.indx] == ms[i].(seqn := Wrap(i, WORD32)))
            && (n <= later < WORD32 ==> !Accepts(r, a))
  {
    hide Wrap, Slot, PushAll, Accepts, AlarmOf;
    if |ms| - 1 - i < |f.slots| {
      AlarmKept(f, ms, i, room);
    } else if |ms| - 1 - i < WORD32 {
      AlarmOverwritten(f, ms, i, room);
    }
  }

  lemma {:induction false} AlarmKept(f: Fifo, ms: seq<Message>, i: nat, room: nat)
    requires Started(f) && |f.slots| <= INDEXES && i < |ms| && |ms| - 1 - i < |f.slots|
    ensures var a, r := AlarmOf(i, |f.slots|, room), PushAll(f, ms);
            Accepts(r, a) && a.indx < |f.slots| && r.slots[a.indx] == ms[i].(seqn := Wrap(i, WORD32))
  {
    hide Wrap, Slot, Newest, PushAll, Accepts, AlarmOf;
    AlarmFinds(f, ms, i, room);
    NewestSlot(i, |ms| - 1 - i, |f.slots|);
    WrapAtMost(0, WORD32);
  }

  lemma AlarmOverwritten(f: Fifo, ms: seq<Message>, i: nat, room: nat)
    requires Started(f) && |f.slots| <= INDEXES && i < |ms| && |f.slots| <= |ms| - 1 - i < WORD32
    ensures !Accepts(PushAll(f, ms), AlarmOf(i, |f.slots|, room))
  {
    hide Wrap, Slot, Newest, PushAll, Accepts, AlarmOf;
    AlarmFinds(f, ms, i, room);
    RoundsPassed(i, |ms| - 1 - i, |f.slots|);
  }

  lemma RoundsPassed(i: nat, later: nat, n: nat)
    requires 0 < n <= later < WORD32
    ensures Newest(i, later, n) >= i && Wrap(Newest(i, later, n) - i, WORD32) != 0
  {
    NewestSlot(i, later, n);
    WrapAtMost(Newest(i, later, n) - i, WORD32);
  }

  lemma RoundsOfWord()
    ensures RoundsOf(WORD32, 512) == WORD32 && Wrap(WORD32, WORD32) == 0
  {
    WrapIsMod(WORD32, 512);
    WrapIsMod(WORD32, WORD32);
  }

  /**
   * Once the sequence numbers have come round, a ring whose size divides 2^32 lets a stale alarm find the wrong
   * message.
   */
  lemma {:induction false} StaleAlarmAccepted(f: Fifo, ms: seq<Message>, i: nat, room: nat)
    requires Started(f) && |f.slots| == 512 && i < |ms| && |ms| - 1 - i == WORD32
    ensures var a, r := AlarmOf(i, 512, room), PushAll(f, ms);
            && Accepts(r, a) && r.slots[a.indx] == ms[i + WORD32].(seqn := Wrap(i, WORD32))
  {
    hide Wrap, Slot, PushAll, Accepts;
    AlarmFinds(f, ms, i, room);
    RoundsOfWord();
    WordsApart(i, i + WORD32);
  }

  /** With more slots than 16-bit indices some are never used, and an alarm is lost before the ring comes round. */
  lemma TooManySlots(f: Fifo, ms: seq<Message>, room: nat)
    requires Started(f) && |f.slots| > INDEXES && |ms| == INDEXES + 1
    ensures !Accepts(PushAll(f, ms), AlarmOf(0, |f.slots|, room))
  {
    var n := |f.slots|;
    RingHolds(f, ms);
    WrapAtMost(INDEXES, n);
    WrapAtMost(0, n);
    assert Slot(INDEXES, n) == 0 == Slot(0, n);
  }

  // ----- the ring in shared memory

  class Pusher {
    const push: array<Message>
    var widx: nat
    var pushseqn: nat

    ghost function View(): Fifo
      reads this, push
    {
      Fifo(push[..], widx, pushseqn)
    }

    constructor (slots: nat)
      requires slots > 0
      ensures Started(View()) && |View().slots| == slots && fresh(push)
    {
      push := new Message[slots](_ => Message(0, [], 0, []));
      widx := 0;
      pushseqn := 0;
    }

    /** push2sender: the alarm goes to every sender thread. */
    method Push2Sender(room: nat, m: Message) returns (a: Alarm)
      requires FifoOk(View())
      modifies this`widx, this`pushseqn, push
      ensures (View(), a) == Push(old(View()), room, m)
    {
      hide Wrap;
      WrapAtMost(widx, INDEXES);
      var stamped := m.(seqn := pushseqn);
      pushseqn := Wrap(pushseqn + 1, WORD32);
      a := Alarm(Wrap(room, INDEXES), Wrap(widx, INDEXES), stamped.seqn);
      widx := Wrap(widx + 1, push.Length);
      push[a.indx] := stamped;
    }
  }
}
