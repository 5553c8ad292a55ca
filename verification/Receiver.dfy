/**
 * The client's receive thread: alarm records are put together from a byte stream, and the messages they name queued.
 */
module Receiver {
  import opened Bytes
  import opened Ring

  const ALARM_ID: nat := 0x7890
  const RECORD: nat := 8
  const BATCH: nat := 40

  /** Little-endian number in `k` bytes from `p` on. */
  function Word(s: bytes, p: nat, k: nat): nat
    requires p + k <= |s|
    decreases k
  {
    if k == 0 then 0 else s[p] + 0x100 * Word(s, p + 1, k - 1)
  }

  function Decode(s: bytes): Alarm
    requires |s| == RECORD
  {
    Alarm(Word(s, 0, 2), Word(s, 2, 2), Word(s, 4, 4))
  }

  /** `part` is the record under way, `batch` the messages of this read not queued yet, `out` those queued. */
  datatype State = State(part: bytes, batch: seq<Message>, out: seq<Message>, broken: bool)

  predicate StateOk(st: State) {
    |st.part| < RECORD && |st.batch| < BATCH && !st.broken
  }

  /** One byte of a read. */
  function Byte(st: State, b: byte, ring: seq<Message>): State
    requires StateOk(st)
  {
    var part := st.part + [b];
    if |part| < RECORD then st.(part := part)
    else
      var a := Decode(part);
      var st' := st.(part := []);
      if a.sidx != ALARM_ID then st'.(broken := true)
      else if a.indx >= |ring| || ring[a.indx].seqn != a.seqn then st'
      else if |st.batch| + 1 >= BATCH then st'.(batch := [], out := st.out + st.batch + [ring[a.indx]])
      else st'.(batch := st.batch + [ring[a.indx]])
  }

  /** The loop over the bytes of one read; a record without the alarm mark ends it. */
  function Loop(st: State, s: bytes, ring: seq<Message>): (r: State)
    requires StateOk(st)
    ensures !r.broken ==> StateOk(r)
    decreases |s|
  {
    if |s| == 0 then st
    else
      var st' := Byte(st, s[0], ring);
      if st'.broken then st' else Loop(st', s[1..], ring)
  }

  /** One read: what is left of the batch is queued at its end, unless the stream broke. */
  function Read(st: State, s: bytes, ring: seq<Message>): (r: State)
    requires StateOk(st) && st.batch == []
    ensures !r.broken ==> StateOk(r) && r.batch == []
  {
    var r := Loop(st, s, ring);
    if r.broken then r else r.(batch := [], out := r.out + r.batch)
  }

  function Reads(st: State, chunks: seq<bytes>, ring: seq<Message>): (r: State)
    requires st.broken || (StateOk(st) && st.batch == [])
    ensures !r.broken ==> StateOk(r) && r.batch == []
    decreases |chunks|
  {
    if |chunks| == 0 || st.broken then st else Reads(Read(st, chunks[0], ring), chunks[1..], ring)
  }

  const START: State := State([], [], [], false)

  // ----- the stream, however it is cut

  function Flat(chunks: seq<bytes>): bytes {
    if |chunks| == 0 then [] else chunks[0] + Flat(chunks[1..])
  }

  /** The messages of the whole records in front of the first one without the mark. */
  function Named(s: bytes, ring: seq<Message>): seq<Message> {
    if |s| < RECORD then []
    else
      var a := Decode(s[..RECORD]);
      if a.sidx != ALARM_ID then []
      else (if a.indx < |ring| && ring[a.indx].seqn == a.seqn then [ring[a.indx]] else []) + Named(s[RECORD..], ring)
  }

  predicate WellFormed(s: bytes) {
    |s| >= RECORD ==> Decode(s[..RECORD]).sidx == ALARM_ID && WellFormed(s[RECORD..])
  }

  /** What is left of a stream behind its whole records. */
  function Rest(s: bytes): bytes {
    if |s| < RECORD then s else Rest(s[RECORD..])
  }

  /** A state that has seen `seen`, with `rest` still to come: together they name what the stream names. */
  ghost predicate Follows(st: State, rest: bytes, ring: seq<Message>, all: seq<Message>) {
    st.out + st.batch + Named(st.part + rest, ring) == all
  }

  /** The stream seen from a record boundary. */
  lemma RecordFirst(part: bytes, s: bytes, ring: seq<Message>)
    requires |part| == RECORD
    ensures var a := Decode(part);
            && Named(part + s, ring) == (if a.sidx != ALARM_ID then []
                                         else (if a.indx < |ring| && ring[a.indx].seqn == a.seqn then [ring[a.indx]]
                                               else [])
                                              + Named(s, ring))
            && (WellFormed(part + s) <==> a.sidx == ALARM_ID && WellFormed(s))
            && Rest(part + s) == Rest(s)
  {
  }

  /** A message goes from the stream to the batch, or with the whole batch to the queue. */
  lemma Moves(out: seq<Message>, batch: seq<Message>, m: Message, more: seq<Message>)
    ensures out + batch + ([m] + more) == (out + batch + [m]) + [] + more
    ensures out + batch + ([m] + more) == out + (batch + [m]) + more
    ensures out + batch + ([] + more) == out + batch + more
  {
  }

  ghost predicate ByteDone(st: State, st': State, before: bytes, s: bytes, ring: seq<Message>, all: seq<Message>) {
    && (st'.broken ==> st'.out + st'.batch == all && !WellFormed(before) && |st'.batch| < BATCH)
    && (!st'.broken ==> Follows(st', s, ring, all) && (WellFormed(st'.part + s) <==> WellFormed(before)))
    && (!st'.broken ==> Rest(st'.part + s) == Rest(before))
  }

  lemma ByteFollows(st: State, b: byte, s: bytes, ring: seq<Message>, all: seq<Message>)
    requires StateOk(st) && Follows(st, [b] + s, ring, all)
    ensures ByteDone(st, Byte(st, b, ring), st.part + ([b] + s), s, ring, all)
  {
    assert st.part + ([b] + s) == st.part + [b] + s;
    if |st.part| + 1 < RECORD {
      PartByte(st, b, s, ring, all);
    } else {
      RecordByte(st, b, s, ring, all);
    }
    hide Byte, ByteDone, Decode, Named;
  }

  lemma PartByte(st: State, b: byte, s: bytes, ring: seq<Message>, all: seq<Message>)
    requires StateOk(st) && |st.part| + 1 < RECORD && st.out + st.batch + Named(st.part + [b] + s, ring) == all
    ensures ByteDone(st, Byte(st, b, ring), st.part + [b] + s, s, ring, all)
  {
    hide Decode, Named, WellFormed, Rest;
  }

  lemma RecordByte(st: State, b: byte, s: bytes, ring: seq<Message>, all: seq<Message>)
    requires StateOk(st) && |st.part| + 1 == RECORD && st.out + st.batch + Named(st.part + [b] + s, ring) == all
    ensures ByteDone(st, Byte(st, b, ring), st.part + [b] + s, s, ring, all)
  {
    hide Decode, Named, WellFormed, Rest;
    var part := st.part + [b];
    RecordFirst(part, s, ring);
    assert [] + s == s;
    var a := Decode(part);
    if a.indx < |ring| {
      Moves(st.out, st.batch, ring[a.indx], Named(s, ring));
    } else {
      assert [] + Named(s, ring) == Named(s, ring);
    }
  }

  lemma {:induction false} LoopFollows(st: State, s: bytes, rest: bytes, ring: seq<Message>, all: seq<Message>)
    requires StateOk(st) && Follows(st, s + rest, ring, all)
    ensures var r := Loop(st, s, ring);
            && (r.broken ==> r.out + r.batch == all && !WellFormed(st.part + s + rest) && |r.batch| < BATCH)
            && (!r.broken ==> Follows(r, rest, ring, all))
            && (!r.broken ==> (WellFormed(r.part + rest) <==> WellFormed(st.part + s + rest)))
            && (!r.broken ==> Rest(r.part + rest) == Rest(st.part + s + rest))
    decreases |s|
  {
    hide WellFormed, Named, Rest;
    if |s| == 0 {
      assert s + rest == rest && st.part + s + rest == st.part + rest;
    } else {
      assert s + rest == [s[0]] + (s[1..] + rest);
      assert st.part + s + rest == st.part + ([s[0]] + (s[1..] + rest));
      ByteFollows(st, s[0], s[1..] + rest, ring, all);
      var st' := Byte(st, s[0], ring);
      if !st'.broken {
        assert st'.part + s[1..] + rest == st'.part + (s[1..] + rest);
        LoopFollows(st', s[1..], rest, ring, all);
      }
    }
  }

  lemma {:induction false} ReadFollows(st: State, s: bytes, rest: bytes, ring: seq<Message>, all: seq<Message>)
    requires StateOk(st) && st.batch == [] && Follows(st, s + rest, ring, all)
    ensures var r := Read(st, s, ring);
            && (r.broken ==> r.out + r.batch == all && !WellFormed(st.part + (s + rest)) && |r.batch| < BATCH)
            && (!r.broken ==> Follows(r, rest, ring, all))
            && (!r.broken ==> (WellFormed(r.part + rest) <==> WellFormed(st.part + (s + rest))))
            && (!r.broken ==> Rest(r.part + rest) == Rest(st.part + (s + rest)))
  {
    hide WellFormed, Named, Rest, Loop;
    LoopFollows(st, s, rest, ring, all);
    assert st.part + s + rest == st.part + (s + rest);
    var r := Loop(st, s, ring);
    assert r.out + r.batch + [] == r.out + r.batch;
  }

  lemma {:induction false} ReadsFollow(st: State, chunks: seq<bytes>, ring: seq<Message>, all: seq<Message>)
    requires StateOk(st) && st.batch == [] && Follows(st, Flat(chunks), ring, all)
    ensures var r := Reads(st, chunks, ring);
            && (r.broken <==> !WellFormed(st.part + Flat(chunks)))
            && r.out + r.batch == all && |r.batch| < BATCH
            && (!r.broken ==> r.batch == [] && r.part == Rest(st.part + Flat(chunks)))
    decreases |chunks|
  {
    if |chunks| == 0 {
      assert st.part + Flat(chunks) == st.part;
    } else {
      hide WellFormed, Named, Rest, Read;
      ReadFollows(st, chunks[0], Flat(chunks[1..]), ring, all);
      if !Read(st, chunks[0], ring).broken {
        ReadsFollow(Read(st, chunks[0], ring), chunks[1..], ring, all);
      }
    }
  }

  /**
   * However the stream is cut into reads: a stream of alarm records queues exactly the messages it names, in order,
   * and stops at the record under way. A stream with a record that is none stops there, and then only messages of
   * the last read, fewer than a batch, are lost.
   */
  lemma ChunksDoNotMatter(chunks: seq<bytes>, ring: seq<Message>)
    ensures var s, r := Flat(chunks), Reads(START, chunks, ring);
            && (r.broken <==> !WellFormed(s))
            && (WellFormed(s) ==> r.out == Named(s, ring) && r.part == Rest(s))
            && r.out + r.batch == Named(s, ring) && |r.batch| < BATCH
  {
    assert START.part + Flat(chunks) == Flat(chunks);
    ReadsFollow(START, chunks, ring, Named(Flat(chunks), ring));
  }

  /** Messages are queued by the batch. */
  lemma {:induction false} LoopQueues(st: State, s: bytes, ring: seq<Message>)
    requires StateOk(st)
    ensures |Loop(st, s, ring).out| % BATCH == |st.out| % BATCH && st.out <= Loop(st, s, ring).out
    decreases |s|
  {
    hide Decode;
    if |s| > 0 {
      var st' := Byte(st, s[0], ring);
      if !st'.broken {
        LoopQueues(st', s[1..], ring);
      }
    }
  }

  /** A read that breaks has queued whole batches only. */
  lemma OneRead(st: State, s: bytes, ring: seq<Message>)
    requires StateOk(st) && st.batch == []
    ensures var r := Reads(st, [s], ring);
            r == Read(st, s, ring) && st.out <= r.out && (r.broken ==> |r.out| % BATCH == |st.out| % BATCH)
  {
    hide Loop;
    LoopQueues(st, s, ring);
    assert [s][1..] == [];
  }

  lemma TwoReads(a: bytes, b: bytes, ring: seq<Message>)
    ensures var r := Reads(START, [a], ring);
            && (r.broken ==> Reads(START, [a, b], ring) == r)
            && (!r.broken ==> Reads(START, [a, b], ring) == Reads(r, [b], ring) && r.out <= Reads(r, [b], ring).out)
  {
    hide Loop, Read;
    assert [a][1..] == [] && [a, b][1..] == [b];
    if !Read(START, a, ring).broken {
      OneRead(Read(START, a, ring), b, ring);
    }
  }

  /** One read of a stream with a bad record loses what is left over from whole batches. */
  lemma WholeReadLoses(s: bytes, ring: seq<Message>)
    requires !WellFormed(s)
    ensures var all := Named(s, ring);
            Reads(START, [s], ring).out == all[..|all| - |all| % BATCH]
  {
    hide Named, WellFormed, Rest, Reads, Read;
    FlatOne(s);
    ChunksDoNotMatter([s], ring);
    OneRead(START, s, ring);
    var r := Reads(START, [s], ring);
    assert r.out == (r.out + r.batch)[..|r.out|];
  }

  // ----- when the cut matters

  /** Behind the first record without the mark. */
  function BadEnd(s: bytes): (b: nat)
    requires !WellFormed(s)
    ensures RECORD <= b <= |s|
  {
    if Decode(s[..RECORD]).sidx != ALARM_ID then RECORD else RECORD + BadEnd(s[RECORD..])
  }

  /** Behind the last record that names a message. */
  function NamedEnd(s: bytes, ring: seq<Message>): (e: nat)
    requires Named(s, ring) != []
    ensures RECORD <= e <= |s|
  {
    if Named(s[RECORD..], ring) == [] then RECORD else RECORD + NamedEnd(s[RECORD..], ring)
  }

  /** A shorter piece of the stream is in order exactly if it ends inside the bad record or in front of it. */
  lemma {:induction false} PrefixOk(s: bytes, n: nat)
    requires !WellFormed(s) && n <= |s|
    ensures WellFormed(s[..n]) <==> n < BadEnd(s)
    decreases |s|
  {
    hide Decode;
    if n >= RECORD {
      assert s[..n][..RECORD] == s[..RECORD] && s[..n][RECORD..] == s[RECORD..][..n - RECORD];
      if Decode(s[..RECORD]).sidx == ALARM_ID {
        PrefixOk(s[RECORD..], n - RECORD);
      }
    }
  }

  /** It names everything once it holds the last record that does; one byte earlier a message is missing. */
  lemma {:induction false} PrefixIsNamed(s: bytes, ring: seq<Message>, n: nat)
    requires Named(s, ring) != [] && n <= |s|
    ensures n >= NamedEnd(s, ring) ==> Named(s[..n], ring) == Named(s, ring)
    ensures n == NamedEnd(s, ring) - 1 ==> |Named(s[..n], ring)| == |Named(s, ring)| - 1
    ensures !WellFormed(s) ==> NamedEnd(s, ring) + RECORD <= BadEnd(s)
    decreases |s|
  {
    hide Decode;
    var rest := s[RECORD..];
    if n >= RECORD {
      assert s[..n][..RECORD] == s[..RECORD] && s[..n][RECORD..] == rest[..n - RECORD];
    }
    if Named(rest, ring) != [] {
      PrefixIsNamed(rest, ring, if n >= RECORD then n - RECORD else 0);
    } else if n >= RECORD {
      PrefixNamesNothing(rest, ring, n - RECORD);
    }
  }

  lemma {:induction false} PrefixNamesNothing(s: bytes, ring: seq<Message>, n: nat)
    requires Named(s, ring) == [] && n <= |s|
    ensures Named(s[..n], ring) == []
    decreases |s|
  {
    hide Decode;
    if n >= RECORD {
      assert s[..n][..RECORD] == s[..RECORD] && s[..n][RECORD..] == s[RECORD..][..n - RECORD];
      if Decode(s[..RECORD]).sidx == ALARM_ID {
        PrefixNamesNothing(s[RECORD..], ring, n - RECORD);
      }
    }
  }

  lemma {:induction false} FlatAppends(c: seq<bytes>, d: seq<bytes>)
    ensures Flat(c + d) == Flat(c) + Flat(d)
    decreases |c|
  {
    if |c| == 0 {
      assert c + d == d;
    } else {
      FlatAppends(c[1..], d);
      assert (c + d)[1..] == c[1..] + d;
    }
  }

  lemma {:induction false} ReadsAppend(st: State, c: seq<bytes>, d: seq<bytes>, ring: seq<Message>)
    requires st.broken || (StateOk(st) && st.batch == [])
    ensures Reads(st, c + d, ring) == Reads(Reads(st, c, ring), d, ring)
    decreases |c|
  {
    hide Read;
    if |c| == 0 {
      assert c + d == d;
    } else if !st.broken {
      ReadsAppend(Read(st, c[0], ring), c[1..], d, ring);
      assert (c + d)[1..] == c[1..] + d;
    }
  }

  lemma {:induction false} ReadsGrow(st: State, c: seq<bytes>, ring: seq<Message>)
    requires st.broken || (StateOk(st) && st.batch == [])
    ensures st.out <= Reads(st, c, ring).out
    decreases |c|
  {
    hide Read, Loop;
    if |c| > 0 && !st.broken {
      OneRead(st, c[0], ring);
      ReadsGrow(Read(st, c[0], ring), c[1..], ring);
    }
  }

  /** The read that breaks: what comes in front of it is in order, with it no more. */
  lemma {:induction false} BreakingRead(c: seq<bytes>, i: nat) returns (k: nat)
    requires i <= |c| && WellFormed(Flat(c[..i])) && !WellFormed(Flat(c))
    ensures k < |c| && WellFormed(Flat(c[..k])) && !WellFormed(Flat(c[..k + 1]))
    decreases |c| - i
  {
    assert c[..|c|] == c;
    if WellFormed(Flat(c[..i + 1])) {
      k := BreakingRead(c, i + 1);
    } else {
      k := i;
    }
  }

  ghost predicate Short(c: seq<bytes>, limit: nat) {
    forall i :: 0 <= i < |c| ==> |c[i]| <= limit
  }

  /** If no read is long enough to hold the end of the last named record and the bad one, nothing is lost. */
  lemma {:induction false} NothingLost(c: seq<bytes>, ring: seq<Message>, limit: nat)
    requires var s := Flat(c); !WellFormed(s) && Named(s, ring) != [] && BadEnd(s) - NamedEnd(s, ring) >= limit
    requires Short(c, limit)
    ensures Reads(START, c, ring).out == Named(Flat(c), ring)
  {
    hide WellFormed, Named, Rest, Reads, BadEnd, NamedEnd, Flat;
    var s := Flat(c);
    EmptyOk();
    assert c[..0] == [];
    var k := BreakingRead(c, 0);
    var before, n := c[..k], |Flat(c[..k])|;
    assert c[..k + 1] == before + [c[k]] && c == before + c[k..] == c[..k + 1] + c[k + 1..];
    FlatAppends(before, [c[k]]);
    FlatAppends(before, c[k..]);
    FlatAppends(c[..k + 1], c[k + 1..]);
    FlatOne(c[k]);
    assert Flat(before) == s[..n] && Flat(c[..k + 1]) == s[..n + |c[k]|];
    PrefixOk(s, n + |c[k]|);
    PrefixIsNamed(s, ring, n);
    ChunksDoNotMatter(before, ring);
    ChunksDoNotMatter(c, ring);
    ReadsAppend(START, before, c[k..], ring);
    ReadsGrow(Reads(START, before, ring), c[k..], ring);
  }

  lemma EmptyOk()
    ensures Flat([]) == [] && WellFormed([])
  {
  }

  /** Byte by byte. */
  function Bytewise(s: bytes): (c: seq<bytes>)
    ensures |c| == |s| && forall i :: 0 <= i < |c| ==> |c[i]| == 1
  {
    if |s| == 0 then [] else [s[..1]] + Bytewise(s[1..])
  }

  lemma {:induction false} FlatBytewise(s: bytes)
    ensures Flat(Bytewise(s)) == s
  {
    if |s| > 0 {
      FlatBytewise(s[1..]);
      assert Bytewise(s)[1..] == Bytewise(s[1..]) && s[..1] + s[1..] == s;
    }
  }

  /** A cut with one long read, from the last byte of the last named record to the end of the bad one. */
  function WorstCut(s: bytes, ring: seq<Message>): seq<bytes>
    requires !WellFormed(s) && Named(s, ring) != [] && NamedEnd(s, ring) <= BadEnd(s)
  {
    var e, b := NamedEnd(s, ring) - 1, BadEnd(s);
    Bytewise(s[..e]) + [s[e..b]] + Bytewise(s[b..])
  }

  lemma {:induction false} WorstCutLoses(s: bytes, ring: seq<Message>)
    requires !WellFormed(s) && Named(s, ring) != [] && NamedEnd(s, ring) <= BadEnd(s)
    ensures Flat(WorstCut(s, ring)) == s
    ensures Reads(START, WorstCut(s, ring), ring).out != Named(s, ring)
  {
    hide WellFormed, Named, Rest, Reads, BadEnd, NamedEnd, Bytewise, Flat;
    var e, b := NamedEnd(s, ring) - 1, BadEnd(s);
    var front, x, back := Bytewise(s[..e]), s[e..b], Bytewise(s[b..]);
    FlatBytewise(s[..e]);
    FlatBytewise(s[b..]);
    FlatOne(x);
    FlatAppends(front, [x]);
    FlatAppends(front + [x], back);
    assert s[..e] + x == s[..b] && s[..b] + s[b..] == s;
    PrefixOk(s, e);
    PrefixOk(s, b);
    PrefixIsNamed(s, ring, e);
    ChunksDoNotMatter(front, ring);
    ChunksDoNotMatter(front + [x], ring);
    ReadsAppend(START, front, [x], ring);
    ReadsAppend(START, front + [x], back, ring);
    OneRead(Reads(START, front, ring), x, ring);
    BrokenStays(Reads(START, front + [x], ring), back, ring);
  }

  lemma BrokenStays(st: State, c: seq<bytes>, ring: seq<Message>)
    requires st.broken
    ensures Reads(st, c, ring) == st
  {
  }

  /** The messages queued do not depend on where the stream is cut into reads of at most `limit` bytes. */
  ghost predicate CutDoesNotMatter(s: bytes, ring: seq<Message>, limit: nat) {
    forall c, d :: Flat(c) == s && Flat(d) == s && Short(c, limit) && Short(d, limit) ==>
      Reads(START, c, ring).out == Reads(START, d, ring).out
  }

  /**
   * They depend on it exactly when the stream has a bad record, messages named in front of it, and one read can hold
   * the last byte of the last of these and the whole way to the end of the bad record.
   */
  lemma CutMatters(s: bytes, ring: seq<Message>, limit: nat)
    ensures CutDoesNotMatter(s, ring, limit) <==>
              WellFormed(s) || Named(s, ring) == [] || BadEnd(s) - NamedEnd(s, ring) >= limit
  {
    hide WellFormed, Named, Rest, Reads, Flat, BadEnd, NamedEnd;
    if WellFormed(s) || Named(s, ring) == [] || BadEnd(s) - NamedEnd(s, ring) >= limit {
      forall c, d | Flat(c) == s && Flat(d) == s && Short(c, limit) && Short(d, limit)
        ensures Reads(START, c, ring).out == Reads(START, d, ring).out
      {
        ChunksDoNotMatter(c, ring);
        ChunksDoNotMatter(d, ring);
        if !WellFormed(s) && Named(s, ring) != [] {
          NothingLost(c, ring, limit);
          NothingLost(d, ring, limit);
        }
      }
    } else {
      PrefixIsNamed(s, ring, 0);
      FlatBytewise(s);
      NothingLost(Bytewise(s), ring, 1);
      WorstCutLoses(s, ring);
      assert Short(WorstCut(s, ring), limit) && Short(Bytewise(s), limit);
    }
  }

  /** The same without a bound on the reads. */
  ghost predicate NoCutMatters(s: bytes, ring: seq<Message>) {
    forall c, d :: Flat(c) == s && Flat(d) == s ==> Reads(START, c, ring).out == Reads(START, d, ring).out
  }

  /** With no bound on the reads: exactly when the stream has a bad record and messages named in front of it. */
  lemma AnyCutMatters(s: bytes, ring: seq<Message>)
    ensures NoCutMatters(s, ring) <==> WellFormed(s) || Named(s, ring) == []
  {
    hide WellFormed, Named, Rest, Reads, Flat, BadEnd, NamedEnd;
    CutMatters(s, ring, |s|);
    forall c | Flat(c) == s ensures Short(c, |s|) {
      FlatHolds(c);
    }
  }

  lemma {:induction false} FlatHolds(c: seq<bytes>)
    ensures Short(c, |Flat(c)|)
  {
    if |c| > 0 {
      FlatHolds(c[1..]);
      assert forall i :: 0 < i < |c| ==> c[i] == c[1..][i - 1];
    }
  }

  /** The smallest case: a good record in the same read as a bad one is lost, in an earlier read it is not. */
  lemma {:induction false} BadRecordLosesItsRead(good: bytes, bad: bytes, ring: seq<Message>)
    requires |good| == |bad| == RECORD && Decode(good).sidx == ALARM_ID && Decode(bad).sidx != ALARM_ID
    requires Decode(good).indx < |ring| && ring[Decode(good).indx].seqn == Decode(good).seqn
    ensures Reads(START, [good + bad], ring).out == []
    ensures Reads(START, [good, bad], ring).out == [ring[Decode(good).indx]]
  {
    hide Decode, Loop, Named, WellFormed, Rest, Read, Reads;
    GoodThenBad(good, bad, ring);
    assert Flat([good, bad]) == good + bad by { assert [good, bad][1..] == [bad]; FlatOne(bad); }
    FlatOne(good);
    WholeReadLoses(good + bad, ring);
    ChunksDoNotMatter([good], ring);
    ChunksDoNotMatter([good, bad], ring);
    TwoReads(good, bad, ring);
  }

  lemma GoodThenBad(good: bytes, bad: bytes, ring: seq<Message>)
    requires |good| == |bad| == RECORD && Decode(good).sidx == ALARM_ID && Decode(bad).sidx != ALARM_ID
    requires Decode(good).indx < |ring| && ring[Decode(good).indx].seqn == Decode(good).seqn
    ensures Named(good, ring) == Named(good + bad, ring) == [ring[Decode(good).indx]]
    ensures WellFormed(good) && !WellFormed(good + bad)
  {
    hide Decode, Named, WellFormed, Rest;
    RecordFirst(bad, [], ring);
    RecordFirst(good, bad, ring);
    RecordFirst(good, [], ring);
    NothingNamed(ring);
    assert bad + [] == bad && good + [] == good;
  }

  lemma FlatOne(s: bytes)
    ensures Flat([s]) == s
  {
    assert Flat([s][1..]) == [];
  }

  lemma NothingNamed(ring: seq<Message>)
    ensures Named([], ring) == [] && WellFormed([]) && Rest([]) == []
  {
  }

  // ----- the thread itself

  /** rt_recver's buffers: the record under way stays in `alarmB` from one read to the next. */
  class Recver {
    const alarmB: array<byte>
    const pushmsg: array<Message>
    var alarmL: nat
    var queue: seq<Message>
    var alive: bool

    ghost predicate Valid()
      reads this
    {
      alarmB.Length >= RECORD && pushmsg.Length == BATCH && (alive ==> alarmL < RECORD)
    }

    ghost function View(batch: seq<Message>): State
      requires Valid()
      reads this, alarmB
    {
      State(if alive then alarmB[..alarmL] else [], batch, queue, !alive)
    }

    constructor ()
      ensures Valid() && View([]) == START && fresh(alarmB) && fresh(pushmsg)
    {
      alarmB := new byte[80](_ => 0);
      pushmsg := new Message[BATCH](_ => Message(0, [], 0, []));
      alarmL := 0;
      queue := [];
      alive := true;
    }

    /** One byte of the inner loop; `many` counts the messages of this read not queued yet. */
    method TakeByte(b: byte, many: nat, ring: seq<Message>) returns (more: nat)
      requires Valid() && alive && many < BATCH
      modifies this`alarmL, this`queue, this`alive, alarmB, pushmsg
      ensures Valid() && more < BATCH
      ensures View(pushmsg[..more]) == Byte(old(View(pushmsg[..many])), b, ring)
    {
      hide Decode;
      more := many;
      ghost var part := alarmB[..alarmL];
      alarmB[alarmL] := b;
      alarmL := alarmL + 1;
      assert alarmB[..alarmL] == part + [b];
      if alarmL < RECORD {
        return;
      }
      var a := Decode(alarmB[..RECORD]);
      alarmL := 0;
      if a.sidx != ALARM_ID {
        alive := false;
        return;
      }
      if a.indx >= |ring| || ring[a.indx].seqn != a.seqn {
        return;
      }
      ghost var batch := pushmsg[..many];
      pushmsg[many] := ring[a.indx];
      more := many + 1;
      assert pushmsg[..more] == batch + [ring[a.indx]];
      if more >= BATCH {
        queue := queue + pushmsg[..more];
        more := 0;
      }
    }

    /** One turn of the outer loop: a read of `s`. Messages that were not queued when the stream breaks stay behind. */
    method Receive(s: bytes, ring: seq<Message>)
      requires Valid() && alive
      modifies this`alarmL, this`queue, this`alive, alarmB, pushmsg
      ensures Valid()
      ensures exists lost :: View(lost) == Read(old(View([])), s, ring) && (alive ==> lost == [])
    {
      hide Byte;
      var i: nat, many: nat := 0, 0;
      ghost var st := View([]);
      assert pushmsg[..0] == [] && s[0..] == s;
      while i < |s| && alive
        invariant i <= |s| && Valid() && many < BATCH
        invariant alive ==> Loop(View(pushmsg[..many]), s[i..], ring) == Loop(st, s, ring)
        invariant !alive ==> View(pushmsg[..many]) == Loop(st, s, ring)
        decreases |s| - i
      {
        assert s[i..][0] == s[i] && s[i..][1..] == s[i + 1..];
        many := TakeByte(s[i], many, ring);
        i := i + 1;
      }
      ghost var lost := pushmsg[..many];
      if alive {
        assert View(lost) == Loop(st, s, ring);
        if many > 0 {
          queue := queue + pushmsg[..many];
        }
        assert View([]) == Read(st, s, ring);
      } else {
        assert View(lost) == Read(st, s, ring);
      }
    }
  }
}
