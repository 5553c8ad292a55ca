/** From the ring to the client's queue: alarms as bytes on a socket, and what a client makes of them. */
module Delivery {
  import opened Bytes
  import opened Ring
  import opened Receiver

  /** `k` little-endian bytes. */
  function Unword(x: nat, k: nat): (s: bytes)
    ensures |s| == k
  {
    if k == 0 then [] else [x % 0x100] + Unword(x / 0x100, k - 1)
  }

  function Capacity(k: nat): nat {
    if k == 0 then 1 else 0x100 * Capacity(k - 1)
  }

  lemma {:induction false} WordUnword(s: bytes, p: nat, x: nat, k: nat)
    requires x < Capacity(k) && StartsWith(s, p, Unword(x, k))
    ensures Word(s, p, k) == x
    decreases k
  {
    if k > 0 {
      var w := Unword(x, k);
      assert s[p..p + k][0] == s[p];
      assert s[p + 1..p + k] == s[p..p + k][1..];
      WordUnword(s, p + 1, x / 0x100, k - 1);
    }
  }

  /** The record send_to_client writes: the alarm with its symbol number replaced by the mark. */
  function Record(a: Alarm): (s: bytes)
    ensures |s| == RECORD
  {
    Unword(ALARM_ID, 2) + Unword(a.indx, 2) + Unword(a.seqn, 4)
  }

  lemma RecordDecodes(a: Alarm)
    requires a.indx < INDEXES && a.seqn < WORD32
    ensures Decode(Record(a)) == a.(sidx := ALARM_ID)
  {
    hide Word, Unword;
    var s := Record(a);
    Capacities();
    assert s[0..2] == Unword(ALARM_ID, 2) && s[2..4] == Unword(a.indx, 2) && s[4..8] == Unword(a.seqn, 4);
    WordUnword(s, 0, ALARM_ID, 2);
    WordUnword(s, 2, a.indx, 2);
    WordUnword(s, 4, a.seqn, 4);
  }

  lemma Capacities()
    ensures Capacity(2) == INDEXES && Capacity(4) == WORD32
  {
    assert Capacity(2) == 0x100 * Capacity(1) && Capacity(3) == 0x100 * Capacity(2);
  }

  /** The stream a client gets when the messages numbered `ks` concern it. */
  function Stream(ks: seq<nat>, n: nat): (s: bytes)
    requires n > 0
    ensures |s| == RECORD * |ks|
  {
    if |ks| == 0 then [] else Record(AlarmOf(ks[0], n, 0)) + Stream(ks[1..], n)
  }

  /** Of the messages `ks`, those that fewer than `n` others had followed when message `at[i]` was the next to come. */
  function Held(ks: seq<nat>, ms: seq<Message>, n: nat, at: seq<nat>): seq<Message>
    requires |at| == |ks| && forall i :: 0 <= i < |ks| ==> ks[i] < |ms|
  {
    if |ks| == 0 then []
    else
      (if at[0] - 1 - ks[0] < n then [ms[ks[0]].(seqn := Wrap(ks[0], WORD32))] else []) + Held(ks[1..], ms, n, at[1..])
  }

  /** Every alarm is read after its message was pushed, and before the message numbers have wrapped. */
  ghost predicate InTime(ks: seq<nat>, ms: seq<Message>, at: seq<nat>) {
    && |at| == |ks|
    && forall i :: 0 <= i < |ks| ==> ks[i] < at[i] <= |ms| && at[i] <= ks[i] + WORD32
  }

  lemma {:induction false} HeldSplits(ks: seq<nat>, ms: seq<Message>, n: nat, at: seq<nat>, m: nat)
    requires |at| == |ks| && m <= |ks| && forall i :: 0 <= i < |ks| ==> ks[i] < |ms|
    ensures Held(ks, ms, n, at) == Held(ks[..m], ms, n, at[..m]) + Held(ks[m..], ms, n, at[m..])
  {
    hide Wrap, Held;
    if m == 0 {
      assert ks[0..] == ks && at[0..] == at;
      NothingHeld(ks[..0], ms, n, at[..0]);
    } else {
      HeldSplits(ks[1..], ms, n, at[1..], m - 1);
      assert ks[..m][1..] == ks[1..][..m - 1] && at[..m][1..] == at[1..][..m - 1];
      assert ks[1..][m - 1..] == ks[m..] && at[1..][m - 1..] == at[m..];
      HeldFirst(ks, ms, n, at);
      HeldFirst(ks[..m], ms, n, at[..m]);
    }
  }

  lemma HeldFirst(ks: seq<nat>, ms: seq<Message>, n: nat, at: seq<nat>)
    requires |at| == |ks| > 0 && forall i :: 0 <= i < |ks| ==> ks[i] < |ms|
    ensures Held(ks, ms, n, at) ==
              (if at[0] - 1 - ks[0] < n then [ms[ks[0]].(seqn := Wrap(ks[0], WORD32))] else [])
              + Held(ks[1..], ms, n, at[1..])
  {
  }

  lemma NothingHeld(ks: seq<nat>, ms: seq<Message>, n: nat, at: seq<nat>)
    requires |ks| == |at| == 0
    ensures Held(ks, ms, n, at) == []
  {
  }

  // ----- one read

  /** What the ring after `k` messages makes of the first `len` bytes of a stream. */
  ghost predicate PrefixNames(f: Fifo, ms: seq<Message>, k: nat, ks: seq<nat>, s: bytes, len: nat)
    requires FifoOk(f) && k <= |ms| && |ks| == len / RECORD && len <= |s|
    requires forall i :: 0 <= i < |ks| ==> ks[i] < |ms|
  {
    && WellFormed(s[..len]) && Rest(s[..len]) == s[len - len % RECORD..len]
    && Named(s[..len], PushAll(f, ms[..k]).slots) == Held(ks, ms, |f.slots|, seq(|ks|, _ => k))
  }

  lemma {:induction false} StreamPrefix(f: Fifo, ms: seq<Message>, k: nat, ks: seq<nat>, len: nat)
    requires Started(f) && |f.slots| <= INDEXES && k <= |ms| && len <= RECORD * |ks|
    requires forall i :: 0 <= i < |ks| ==> ks[i] < |ms|
    requires InTime(ks[..len / RECORD], ms, seq(len / RECORD, _ => k))
    ensures PrefixNames(f, ms, k, ks[..len / RECORD], Stream(ks, |f.slots|), len)
    decreases len
  {
    hide Record, Decode, PushAll, Wrap, Slot, Held, WellFormed, Rest, Named;
    var n, ring, s := |f.slots|, PushAll(f, ms[..k]).slots, Stream(ks, |f.slots|);
    if len < RECORD {
      ShortNames(s[..len], ring);
      NothingHeld(ks[..0], ms, n, []);
    } else {
      var a, rest, m := AlarmOf(ks[0], n, 0), Stream(ks[1..], n), len / RECORD;
      assert ks[..m][1..] == ks[1..][..m - 1] && ks[..m][0] == ks[0];
      assert seq(m, _ => k)[1..] == seq(m - 1, _ => k);
      StreamPrefix(f, ms, k, ks[1..], len - RECORD);
      TextSplits(Record(a), rest, len);
      FirstRecord(f, ms[..k], ks[0], rest[..len - RECORD]);
      HeldFirst(ks[..m], ms, n, seq(m, _ => k));
    }
  }

  lemma TextSplits(record: bytes, rest: bytes, len: nat)
    requires |record| == RECORD <= len <= RECORD + |rest|
    ensures len % RECORD == (len - RECORD) % RECORD
    ensures (record + rest)[..len] == record + rest[..len - RECORD]
    ensures (record + rest)[len - len % RECORD..len] == rest[len - RECORD - len % RECORD..len - RECORD]
  {
  }

  lemma ShortNames(s: bytes, ring: seq<Message>)
    requires |s| < RECORD
    ensures WellFormed(s) && Rest(s) == s && Named(s, ring) == []
  {
  }

  /** The record of one alarm in front of other bytes. */
  lemma FirstRecord(f: Fifo, ms: seq<Message>, k: nat, s: bytes)
    requires Started(f) && |f.slots| <= INDEXES && k < |ms| <= k + WORD32
    ensures var n, ring, t := |f.slots|, PushAll(f, ms).slots, Record(AlarmOf(k, |f.slots|, 0)) + s;
            && (WellFormed(t) <==> WellFormed(s)) && Rest(t) == Rest(s)
            && Named(t, ring) == (if |ms| - 1 - k < n then [ms[k].(seqn := Wrap(k, WORD32))] else []) + Named(s, ring)
  {
    hide Record, Decode, PushAll, Wrap, Slot, WellFormed, Rest, Named;
    var a := AlarmOf(k, |f.slots|, 0);
    AlarmInTime(f, ms, k, 0);
    AlarmRange(k, |f.slots|);
    RecordDecodes(a);
    RecordFirst(Record(a), s, PushAll(f, ms).slots);
  }

  lemma AlarmRange(k: nat, n: nat)
    requires n > 0
    ensures AlarmOf(k, n, 0).indx < INDEXES && AlarmOf(k, n, 0).seqn < WORD32
  {
  }

  // ----- read after read, while the publishers go on

  /** A read: its bytes, and how many messages had been pushed when they were looked at. */
  datatype Piece = Piece(data: bytes, pushed: nat)

  function Joined(pieces: seq<Piece>): bytes {
    if |pieces| == 0 then [] else pieces[0].data + Joined(pieces[1..])
  }

  ghost predicate PiecesOk(pieces: seq<Piece>, ms: seq<Message>) {
    forall i :: 0 <= i < |pieces| ==> pieces[i].pushed <= |ms|
  }

  /** The reads of a client, each on the ring as it was then. */
  function ReadPieces(st: State, pieces: seq<Piece>, f: Fifo, ms: seq<Message>): State
    requires st.broken || (StateOk(st) && st.batch == [])
    requires FifoOk(f) && PiecesOk(pieces, ms)
    decreases |pieces|
  {
    if |pieces| == 0 || st.broken then st
    else ReadPieces(Read(st, pieces[0].data, PushAll(f, ms[..pieces[0].pushed]).slots), pieces[1..], f, ms)
  }

  /** How many messages had been pushed when byte `p` of the stream was looked at. */
  function PushedAt(pieces: seq<Piece>, p: nat): nat
    requires p < |Joined(pieces)|
  {
    if p < |pieces[0].data| then pieces[0].pushed else PushedAt(pieces[1..], p - |pieces[0].data|)
  }

  /** For each of `count` records, the same for its last byte; `part` bytes of the first record came earlier. */
  function Completed(pieces: seq<Piece>, part: nat, count: nat): (at: seq<nat>)
    requires part < RECORD && |Joined(pieces)| + part == RECORD * count
    ensures |at| == count
  {
    seq(count, j requires 0 <= j < count => PushedAt(pieces, RECORD * j + (RECORD - 1 - part)))
  }

  lemma PushedLater(pieces: seq<Piece>, p: nat)
    requires |pieces| > 0 && |pieces[0].data| <= p < |Joined(pieces)|
    ensures PushedAt(pieces, p) == PushedAt(pieces[1..], p - |pieces[0].data|)
  {
  }

  /** The first read completes its records, and leaves the others to the next. */
  lemma CompletedSplits(pieces: seq<Piece>, part: nat, count: nat)
    requires |pieces| > 0 && part < RECORD && |Joined(pieces)| + part == RECORD * count
    ensures var m, part' := (part + |pieces[0].data|) / RECORD, (part + |pieces[0].data|) % RECORD;
            && m <= count && |Joined(pieces[1..])| + part' == RECORD * (count - m)
            && Completed(pieces, part, count)[..m] == seq(m, _ => pieces[0].pushed)
            && Completed(pieces, part, count)[m..] == Completed(pieces[1..], part', count - m)
  {
    var first := |pieces[0].data|;
    var m, part' := (part + first) / RECORD, (part + first) % RECORD;
    assert part + first == RECORD * m + part' && |Joined(pieces)| == first + |Joined(pieces[1..])|;
    var at := Completed(pieces, part, count);
    forall j | 0 <= j < m ensures at[j] == pieces[0].pushed {
      assert RECORD * j + (RECORD - 1 - part) < first;
    }
    hide PushedAt, Joined;
    forall j | 0 <= j < count - m ensures at[m..][j] == PushedAt(pieces[1..], RECORD * j + (RECORD - 1 - part')) {
      PushedLater(pieces, RECORD * (m + j) + (RECORD - 1 - part));
    }
  }

  /** One read of a stream that names what it should: the messages are queued and the record under way is kept. */
  lemma ReadQueues(st: State, data: bytes, ring: seq<Message>)
    requires StateOk(st) && st.batch == [] && WellFormed(st.part + data)
    ensures var s := st.part + data;
            Read(st, data, ring) == State(Rest(s), [], st.out + Named(s, ring), false)
  {
    hide WellFormed, Named, Rest, Read;
    var all := st.out + Named(st.part + data, ring);
    assert data + [] == data && st.out + [] == st.out;
    ReadFollows(st, data, [], ring, all);
    var r := Read(st, data, ring);
    assert r.part + [] == r.part;
    ShortNames(r.part, ring);
    assert r.out + [] + [] == r.out;
  }

  /**
   * The first of several reads: the `m` records it completes are those in front, and the stream goes on behind them.
   */
  lemma {:induction false} FirstPiece(f: Fifo, ms: seq<Message>, ks: seq<nat>, st: State, x: Piece, more: bytes,
                                      m: nat, p: nat)
    requires Started(f) && |f.slots| <= INDEXES && x.pushed <= |ms|
    requires StateOk(st) && st.batch == [] && st.part + (x.data + more) == Stream(ks, |f.slots|)
    requires |st.part| + |x.data| == RECORD * m + p && p < RECORD && m <= |ks|
    requires InTime(ks[..m], ms, seq(m, _ => x.pushed)) && forall i :: 0 <= i < |ks| ==> ks[i] < |ms|
    ensures var st' := Read(st, x.data, PushAll(f, ms[..x.pushed]).slots);
            && StateOk(st') && st'.batch == [] && |st'.part| == p
            && st'.out == st.out + Held(ks[..m], ms, |f.slots|, seq(m, _ => x.pushed))
            && st'.part + more == Stream(ks[m..], |f.slots|)
  {
    hide Stream, PushAll, Named, WellFormed, Rest, Read, Held;
    var n, s, len := |f.slots|, Stream(ks, |f.slots|), |st.part| + |x.data|;
    assert len / RECORD == m && len % RECORD == p;
    assert s[..len] == st.part + x.data && s[len..] == more;
    StreamPrefix(f, ms, x.pushed, ks, len);
    ReadQueues(st, x.data, PushAll(f, ms[..x.pushed]).slots);
    StreamDrop(ks, n, m);
    assert s[RECORD * m..] == s[RECORD * m..len] + s[len..];
  }

  lemma Regroup(a: seq<Message>, b: seq<Message>, c: seq<Message>)
    ensures a + b + c == a + (b + c)
  {
  }

  lemma {:induction false} PiecesQueue(f: Fifo, ms: seq<Message>, ks: seq<nat>, st: State, pieces: seq<Piece>)
    requires Started(f) && |f.slots| <= INDEXES && PiecesOk(pieces, ms)
    requires StateOk(st) && st.batch == [] && st.part + Joined(pieces) == Stream(ks, |f.slots|)
    requires InTime(ks, ms, Completed(pieces, |st.part|, |ks|))
    ensures ReadPieces(st, pieces, f, ms)
            == State([], [], st.out + Held(ks, ms, |f.slots|, Completed(pieces, |st.part|, |ks|)), false)
    decreases |pieces|
  {
    hide Stream, PushAll, Named, WellFormed, Rest, Read, Completed, Held;
    var n, at := |f.slots|, Completed(pieces, |st.part|, |ks|);
    if |pieces| == 0 {
      NothingHeld(ks, ms, n, at);
      assert st.out + [] == st.out;
    } else {
      var x := pieces[0];
      var m := (|st.part| + |x.data|) / RECORD;
      CompletedSplits(pieces, |st.part|, |ks|);
      FirstPiece(f, ms, ks, st, x, Joined(pieces[1..]), m, (|st.part| + |x.data|) % RECORD);
      var st' := Read(st, x.data, PushAll(f, ms[..x.pushed]).slots);
      HeldSplits(ks, ms, n, at, m);
      PiecesQueue(f, ms, ks[m..], st', pieces[1..]);
      Regroup(st.out, Held(ks[..m], ms, n, at[..m]), Held(ks[m..], ms, n, at[m..]));
    }
  }

  lemma {:induction false} StreamDrop(ks: seq<nat>, n: nat, m: nat)
    requires n > 0 && m <= |ks|
    ensures Stream(ks, n)[RECORD * m..] == Stream(ks[m..], n)
  {
    if m == 0 {
      assert ks[0..] == ks;
    } else {
      hide Record;
      StreamDrop(ks[1..], n, m - 1);
      assert ks[1..][m - 1..] == ks[m..];
      assert Stream(ks, n)[RECORD * m..] == Stream(ks[1..], n)[RECORD * (m - 1)..];
    }
  }

  /**
   * A client that is alarmed for the messages `ks`, in any order, and reads its socket in any pieces while publishers
   * go on pushing, queues exactly those that fewer than a ring of messages had followed when the last byte of their
   * record was read, each as it was pushed and in alarm order.
   */
  lemma {:induction false} Delivered(f: Fifo, ms: seq<Message>, ks: seq<nat>, pieces: seq<Piece>)
    requires Started(f) && |f.slots| <= INDEXES && PiecesOk(pieces, ms)
    requires Joined(pieces) == Stream(ks, |f.slots|)
    requires InTime(ks, ms, Completed(pieces, 0, |ks|))
    ensures ReadPieces(START, pieces, f, ms)
            == State([], [], Held(ks, ms, |f.slots|, Completed(pieces, 0, |ks|)), false)
  {
    hide Stream, PushAll, Held, Completed, ReadPieces, Joined;
    assert START.part + Joined(pieces) == Joined(pieces);
    PiecesQueue(f, ms, ks, START, pieces);
    var all := Held(ks, ms, |f.slots|, Completed(pieces, 0, |ks|));
    assert START.out + all == all;
  }
}
