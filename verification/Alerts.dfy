/** The fan-out of one message: sender threads share out the client slots by stride and alert those that match. */
module Alerts {
  import opened Bytes
  import opened Masks
  import opened SymbolBoard
  import opened Subscriptions
  import opened Accounting
  import opened Batches
  import opened BusRuns

  /** The slot is to be alerted: linked, local, and listening at the room for one of the message's events. */
  predicate Matches(cs: seq<Client>, i: nat, room: nat, event: Mask)
    requires i < |cs|
  {
    cs[i].sock == i && cs[i].flag == LOCAL && room < |cs[i].mask| && Meets(cs[i].mask[room], event)
  }

  /** Every linked slot is below no_of_linked. */
  ghost predicate LinkedBelow(bus: Bus) {
    && bus.linked <= |bus.clients|
    && forall i :: 0 <= i < |bus.clients| && bus.clients[i].sock == i ==> i < bus.linked
  }

  // ----- no_of_linked

  /**
   * Accepting keeps every linked slot below no_of_linked if and only if it does not leave the slot of a refused
   * remote peer marked as linked above the limit.
   */
  lemma AcceptLinked(bus: Bus, sock: int, local: bool, written: bool)
    requires LinkedBelow(bus)
    ensures LinkedBelow(Accept(bus, sock, local, written)) <==>
              (0 <= sock < |bus.clients| ==> local || sock < bus.linked)
  {
    if 0 <= sock < |bus.clients| {
      assert Accept(bus, sock, local, written).clients[sock].sock == if local && !written then -1 else sock;
    }
  }

  /** A remote peer is refused on a bus with no client yet: its slot stays marked as linked, and no limit covers it. */
  lemma RefusedPeerExample()
    ensures var bus := Bus(Board([], 0, [], true), [Client(-1, 0, [])], 0);
            Exact(bus) && LinkedBelow(bus) && !LinkedBelow(Accept(bus, 0, false, true))
  {
    var bus := Bus(Board([], 0, [], true), [Client(-1, 0, [])], 0);
    assert Live(bus.board) == [];
    assert Exact(bus) by { UnusedIsExact(bus); }
    AcceptLinked(bus, 0, false, true);
  }

  /**
   * Closing recomputes the limit: afterwards it covers the linked slots, and no less would, even where an accept had
   * left it low.
   */
  lemma CloseLinked(bus: Bus, sock: nat)
    requires BusOk(bus) && sock < |bus.clients| && bus.clients[sock].sock == sock
    ensures var bus' := Close(bus, sock);
            && LinkedBelow(bus') && (bus'.linked > 0 ==> bus'.clients[bus'.linked - 1].sock == bus'.linked - 1)
            && |bus'.clients| == |bus.clients| && bus'.clients[sock].sock == -1
            && forall i :: 0 <= i < |bus.clients| && i != sock ==> bus'.clients[i] == bus.clients[i]
  {
    hide BoardOk;
  }

  lemma EventLinked(bus: Bus, e: Event)
    requires BusOk(bus) && LinkedBelow(bus)
    ensures LinkedBelow(Next(bus, e)) <==>
              (e.Accepted? && 0 <= e.sock < |bus.clients| ==> e.local || e.sock < bus.linked)
  {
    hide BoardOk, Accept, Close, Batch, Place, Delete;
    match e {
      case Accepted(sock, local, written) => AcceptLinked(bus, sock, local, written);
      case Closed(sock) =>
        if 0 <= sock < |bus.clients| && bus.clients[sock].sock == sock {
          CloseLinked(bus, sock);
        } else {
          CloseNothing(bus, sock);
        }
      case Sent(sock, cmds) => BatchLinked(bus, sock, cmds);
      case _ =>
    }
  }

  lemma CloseNothing(bus: Bus, sock: int)
    requires BusOk(bus) && !(0 <= sock < |bus.clients| && bus.clients[sock].sock == sock)
    ensures Close(bus, sock) == bus
  {
  }

  lemma BatchLinked(bus: Bus, s: int, cmds: seq<Command>)
    requires BusOk(bus)
    ensures var bus' := Batch(bus, s, cmds);
            && bus'.linked == bus.linked && |bus'.clients| == |bus.clients|
            && forall i :: 0 <= i < |bus.clients| ==>
                 bus'.clients[i].sock == bus.clients[i].sock && bus'.clients[i].flag == bus.clients[i].flag
  {
    if 0 <= s < |bus.clients| {
      StepsLinked(Started(bus, s), s, cmds);
      hide BoardOk, RunSteps;
    }
  }

  lemma {:induction false} StepsLinked(w: Work, s: nat, cmds: seq<Command>)
    requires Shape(w, s)
    ensures var w' := RunSteps(w, s, cmds);
            && w'.bus.linked == w.bus.linked
            && forall i :: 0 <= i < |w.bus.clients| ==>
                 w'.bus.clients[i].sock == w.bus.clients[i].sock && w'.bus.clients[i].flag == w.bus.clients[i].flag
  {
    hide BoardOk, Step;
    if |cmds| > 0 {
      StepsLinked(w, s, cmds[..|cmds| - 1]);
      StepLinked(RunSteps(w, s, cmds[..|cmds| - 1]), s, cmds[|cmds| - 1]);
    }
  }

  lemma StepLinked(w: Work, s: nat, c: Command)
    requires Shape(w, s)
    ensures var w' := Step(w, s, c);
            && w'.bus.linked == w.bus.linked
            && forall i :: 0 <= i < |w.bus.clients| ==>
                 w'.bus.clients[i].sock == w.bus.clients[i].sock && w'.bus.clients[i].flag == w.bus.clients[i].flag
  {
    hide BoardOk, Place, Search, Join, Without;
  }

  /** No peer is refused as remote at or above the limit. */
  ghost predicate LocalRun(bus: Bus, es: seq<Event>)
    requires BusOk(bus)
    decreases |es|
  {
    |es| > 0 ==>
      && (es[0].Accepted? && 0 <= es[0].sock < |bus.clients| ==> es[0].local || es[0].sock < bus.linked)
      && LocalRun(Next(bus, es[0]), es[1..])
  }

  /** So the limit covers the linked slots in every state of every run that refuses no remote peer above it. */
  lemma {:induction false} RunLinked(bus: Bus, es: seq<Event>)
    requires BusOk(bus) && LinkedBelow(bus) && LocalRun(bus, es)
    ensures LinkedBelow(Run(bus, es))
    decreases |es|
  {
    hide BusOk, LinkedBelow, Next;
    if |es| > 0 {
      EventLinked(bus, es[0]);
      RunLinked(Next(bus, es[0]), es[1..]);
    }
  }

  // ----- the sender threads

  /** What becomes of a write to a client's socket: it may take the alarm, be full, or fail in another way. */
  datatype Outcome = Written | WouldBlock | Failed

  /**
   * `pos[k]` is the slot that thread `k` looks at next; `tried` are the slots written to so far, by all threads, and
   * `sent` those of them whose socket took the alarm.
   */
  datatype Fan = Fan(bus: Bus, pos: seq<nat>, tried: seq<nat>, sent: seq<nat>)

  /**
   * One turn of thread `k`'s loop; `got` says what the write to each slot comes to (FanOut: there is one at most). A
   * full socket gets no alarm and stays open; a client whose socket fails is closed.
   */
  function Turn(f: Fan, room: nat, event: Mask, k: nat, got: nat -> Outcome): Fan
    requires k < |f.pos| && BusOk(f.bus) && f.bus.linked <= |f.bus.clients|
  {
    var i := f.pos[k];
    if i >= f.bus.linked then f
    else
      var f' := f.(pos := f.pos[k := i + |f.pos|]);
      if !Matches(f.bus.clients, i, room, event) then f'
      else
        var f'' := f'.(tried := f.tried + [i]);
        match got(i)
        case Written => f''.(sent := f.sent + [i])
        case WouldBlock => f''
        case Failed => f''.(bus := Close(f.bus, i))
  }

  /** The slot is linked and local, and its mask at the room has an event in common with the message's. */
  ghost predicate Wanted(bus: Bus, i: nat, room: nat, event: Mask) {
    && i < |bus.clients| && bus.clients[i].sock == i && bus.clients[i].flag == LOCAL
    && room < |bus.clients[i].mask| && Bits(bus.clients[i].mask[room]) * Bits(event) != {}
  }

  lemma MatchesIsWanted(bus: Bus, i: nat, room: nat, event: Mask)
    requires i < |bus.clients|
    ensures Matches(bus.clients, i, room, event) <==> Wanted(bus, i, room, event)
  {
    hide Bits, Meets;
    if room < |bus.clients[i].mask| {
      MeetsIsCommon(bus.clients[i].mask[room], event);
    }
  }

  /** Slot `i` was passed over, or not looked at, or written to; it is closed if the write failed. */
  ghost predicate SlotOk(bus: Bus, f: Fan, room: nat, event: Mask, got: nat -> Outcome, i: nat)
    requires |f.pos| > 0 && |f.bus.clients| == |bus.clients|
  {
    var done := Visited(f.pos, i) && Wanted(bus, i, room, event);
    && multiset(f.tried)[i] == (if done then 1 else 0)
    && multiset(f.sent)[i] == (if done && got(i) == Written then 1 else 0)
    && (i < |bus.clients| ==>
          if done && got(i) == Failed then f.bus.clients[i].sock == -1 else f.bus.clients[i] == bus.clients[i])
  }

  ghost predicate FanOk(bus: Bus, f: Fan, room: nat, event: Mask, got: nat -> Outcome) {
    && BusOk(f.bus) && LinkedBelow(f.bus) && |f.bus.clients| == |bus.clients| && Strided(f.pos)
    && forall i: nat :: SlotOk(bus, f, room, event, got, i)
  }

  /** Stepping by the thread count: the next turn of thread k takes up the slot it stands at and no other. */
  lemma Stride(i: nat, pos: nat, k: nat, n: nat)
    requires n > 0 && i % n == k && pos % n == k
    ensures i < pos + n <==> i < pos || i == pos
  {
    var a, b := i / n, pos / n;
    assert i == a * n + k && pos == b * n + k;
    if a < b {
      MulMonotone(a + 1, b, n);
    } else if b < a {
      MulMonotone(b + 1, a, n);
    }
  }

  lemma NextPosition(pos: nat, n: nat)
    requires n > 0
    ensures (pos + n) % n == pos % n
  {
    var q, r := pos / n, pos % n;
    assert pos + n == (q + 1) * n + r;
    RemainderUnique(pos + n, n, q + 1, r);
  }

  /** The slots that thread positions have gone past. */
  predicate Visited(pos: seq<nat>, i: nat)
    requires |pos| > 0
  {
    i < pos[i % |pos|]
  }

  ghost predicate Strided(pos: seq<nat>) {
    |pos| > 0 && forall k :: 0 <= k < |pos| ==> pos[k] % |pos| == k
  }

  lemma Advance(pos: seq<nat>, k: nat)
    requires Strided(pos) && k < |pos|
    ensures var pos' := pos[k := pos[k] + |pos|];
            && Strided(pos') && !Visited(pos, pos[k])
            && forall i: nat :: Visited(pos', i) <==> Visited(pos, i) || i == pos[k]
  {
    var n, pos' := |pos|, pos[k := pos[k] + |pos|];
    NextPosition(pos[k], n);
    forall i: nat ensures Visited(pos', i) <==> Visited(pos, i) || i == pos[k] {
      if i % n == k {
        Stride(i, pos[k], k, n);
      }
    }
  }

  lemma TurnKeeps(bus: Bus, f: Fan, room: nat, event: Mask, k: nat, got: nat -> Outcome)
    requires FanOk(bus, f, room, event, got) && k < |f.pos|
    ensures FanOk(bus, Turn(f, room, event, k, got), room, event, got)
  {
    hide BusOk, LinkedBelow, Close, Visited, Strided, SlotOk;
    if f.pos[k] < f.bus.linked {
      TurnBus(f, room, event, k, got);
      Advance(f.pos, k);
      LinkedIsSlot(f.bus);
      forall i: nat ensures SlotOk(bus, Turn(f, room, event, k, got), room, event, got, i) {
        assert SlotOk(bus, f, room, event, got, i);
        SlotKeeps(bus, f, room, event, k, got, i);
      }
    }
  }

  lemma SlotKeeps(bus: Bus, f: Fan, room: nat, event: Mask, k: nat, got: nat -> Outcome, i: nat)
    requires k < |f.pos| && f.pos[k] < f.bus.linked <= |f.bus.clients| == |bus.clients| && BusOk(f.bus)
    requires LinkedBelow(f.bus) && Strided(f.pos) && SlotOk(bus, f, room, event, got, i)
    ensures SlotOk(bus, Turn(f, room, event, k, got), room, event, got, i)
  {
    hide BusOk, LinkedBelow, Close, Visited, Strided, Meets, Bits, Wanted;
    TurnBus(f, room, event, k, got);
    Advance(f.pos, k);
    MatchesIsWanted(bus, f.pos[k], room, event);
  }

  lemma LinkedIsSlot(bus: Bus)
    requires LinkedBelow(bus)
    ensures bus.linked <= |bus.clients|
  {
  }

  lemma TurnBus(f: Fan, room: nat, event: Mask, k: nat, got: nat -> Outcome)
    requires k < |f.pos| && BusOk(f.bus) && LinkedBelow(f.bus)
    ensures var f', i := Turn(f, room, event, k, got), f.pos[k];
            && BusOk(f'.bus) && LinkedBelow(f'.bus) && |f'.bus.clients| == |f.bus.clients|
            && (i < f.bus.linked && Matches(f.bus.clients, i, room, event) && got(i) == Failed ==>
                  f'.bus.clients[i].sock == -1)
            && forall j :: 0 <= j < |f.bus.clients| && j != i ==> f'.bus.clients[j] == f.bus.clients[j]
  {
  }

  function Turns(f: Fan, room: nat, event: Mask, got: nat -> Outcome, schedule: seq<nat>): Fan
    requires BusOk(f.bus) && LinkedBelow(f.bus)
    requires forall t :: 0 <= t < |schedule| ==> schedule[t] < |f.pos|
    decreases |schedule|
  {
    if |schedule| == 0 then f
    else
      TurnBus(f, room, event, schedule[0], got);
      Turns(Turn(f, room, event, schedule[0], got), room, event, got, schedule[1..])
  }

  lemma {:induction false} TurnsKeep(bus: Bus, f: Fan, room: nat, event: Mask, got: nat -> Outcome, schedule: seq<nat>)
    requires FanOk(bus, f, room, event, got) && forall t :: 0 <= t < |schedule| ==> schedule[t] < |f.pos|
    ensures FanOk(bus, Turns(f, room, event, got, schedule), room, event, got)
    decreases |schedule|
  {
    if |schedule| > 0 {
      TurnKeeps(bus, f, room, event, schedule[0], got);
      hide FanOk, BusOk, LinkedBelow;
      TurnsKeep(bus, Turn(f, room, event, schedule[0], got), room, event, got, schedule[1..]);
    }
  }

  /** Every thread has run off the end of the linked slots. */
  predicate Finished(f: Fan) {
    forall k :: 0 <= k < |f.pos| ==> f.pos[k] >= f.bus.linked
  }

  function FanStart(bus: Bus, threads: nat): Fan {
    Fan(bus, seq(threads, k => k), [], [])
  }

  /**
   * However the turns of the sender threads interleave and whatever becomes of the writes: no slot is written to
   * twice or wrongly, and when all threads are through every matching slot was written to. Slot `i` then has exactly
   * one alarm if it matches and its write succeeded and none otherwise, and is closed exactly if its write failed.
   */
  lemma FanOut(bus: Bus, room: nat, event: Mask, threads: nat, got: nat -> Outcome, schedule: seq<nat>)
    requires BusOk(bus) && LinkedBelow(bus) && threads > 0
    requires forall t :: 0 <= t < |schedule| ==> schedule[t] < threads
    ensures var f := Turns(FanStart(bus, threads), room, event, got, schedule);
            && |f.bus.clients| == |bus.clients|
            && (forall i: nat ::
                  var wanted := if Wanted(bus, i, room, event) then 1 else 0;
                  && multiset(f.tried)[i] <= wanted
                  && (Finished(f) ==> multiset(f.tried)[i] == wanted)
                  && multiset(f.sent)[i] == (if got(i) == Written then multiset(f.tried)[i] else 0))
            && forall i :: 0 <= i < |bus.clients| ==>
                 if got(i) == Failed && i in f.tried then f.bus.clients[i].sock == -1
                 else f.bus.clients[i] == bus.clients[i]
  {
    var start := FanStart(bus, threads);
    FanStarts(bus, room, event, threads, got);
    TurnsKeep(bus, start, room, event, got, schedule);
    var f := Turns(start, room, event, got, schedule);
    hide Turns, BusOk, LinkedBelow, Strided, Matches, Visited, Finished;
    forall i: nat
      ensures SlotOk(bus, f, room, event, got, i)
      ensures Finished(f) && Wanted(bus, i, room, event) ==> Visited(f.pos, i)
    {
      if Finished(f) && Wanted(bus, i, room, event) {
        PassedAll(bus, f, room, event, got, i);
      }
    }
  }

  lemma PassedAll(bus: Bus, f: Fan, room: nat, event: Mask, got: nat -> Outcome, i: nat)
    requires FanOk(bus, f, room, event, got) && Finished(f) && Wanted(bus, i, room, event)
    ensures Visited(f.pos, i)
  {
    assert SlotOk(bus, f, room, event, got, i);
  }

  lemma FanStarts(bus: Bus, room: nat, event: Mask, threads: nat, got: nat -> Outcome)
    requires BusOk(bus) && LinkedBelow(bus) && threads > 0
    ensures FanOk(bus, FanStart(bus, threads), room, event, got)
  {
    hide BusOk, LinkedBelow, Matches;
    forall k | 0 <= k < threads ensures k % threads == k {
      RemainderUnique(k, threads, 0, k);
    }
    forall i: nat ensures !Visited(FanStart(bus, threads).pos, i) {
      if i >= threads {
        assert i % threads < threads;
      }
    }
  }

  /** Slot `i` is a linked local client that is subscribed to the code for one of the message's events. */
  ghost predicate Subscribed(bus: Bus, i: nat, code: bytes, event: Mask)
    requires bus.board.valr <= |bus.board.symbs| && i < |bus.clients|
  {
    && bus.clients[i].sock == i && bus.clients[i].flag == LOCAL
    && Bits(Sub(bus.board, bus.clients[i].mask, code)) * Bits(event) != {}
  }

  /** A harmless accept of a local client, and then its first batch: one code, for the events of a mask. */
  function Joined(bus: Bus, sock: nat, code: bytes, mask: Mask): Bus
    requires Exact(bus) && sock < |bus.clients| && Harmless(bus, Accepted(sock, true, true))
  {
    AcceptCounts(bus, sock, true, true);
    Batch(Accept(bus, sock, true, true), sock, [Command(INS_SYMB, mask, code)])
  }

  /**
   * An accepted client is served: when the board has a room for the code, it is subscribed to that code for exactly
   * the events it asked for, and counts are as exact as before.
   */
  lemma AcceptedIsServed(bus: Bus, sock: nat, code: bytes, mask: Mask, event: Mask)
    requires Exact(bus) && sock < |bus.clients| && Harmless(bus, Accepted(sock, true, true))
    requires Place(bus.board, code).1 >= 0
    ensures var bus' := Joined(bus, sock, code, mask);
            && Exact(bus') && |bus'.clients| == |bus.clients| && bus'.board.valr <= |bus'.board.symbs|
            && (Subscribed(bus', sock, code, event) <==> Bits(mask) * Bits(event) != {})
            && Bits(Sub(bus'.board, bus'.clients[sock].mask, code)) == Bits(mask)
  {
    hide BoardOk, Quiet, Accounted, Exact, Place, Bits, Batch, Accept, Harmless, Search, OthersKept, Sub;
    AcceptCounts(bus, sock, true, true);
    AcceptMeaning(bus, sock, true, true);
    FirstInsert(Accept(bus, sock, true, true), sock, code, mask);
  }

  /** A linked local client that asks for nothing yet, and its first command. */
  lemma FirstInsert(bus: Bus, s: nat, code: bytes, mask: Mask)
    requires Exact(bus) && s < |bus.clients| && bus.clients[s].sock == s && bus.clients[s].flag == LOCAL
    requires forall r :: 0 <= r < |bus.clients[s].mask| ==> bus.clients[s].mask[r] == 0
    requires Place(bus.board, code).1 >= 0
    ensures var bus' := Batch(bus, s, [Command(INS_SYMB, mask, code)]);
            && Exact(bus') && |bus'.clients| == |bus.clients| && bus'.board.valr <= |bus'.board.symbs|
            && bus'.clients[s].sock == s && bus'.clients[s].flag == LOCAL
            && Bits(Sub(bus'.board, bus'.clients[s].mask, code)) == Bits(mask)
  {
    var cmds := [Command(INS_SYMB, mask, code)];
    BatchMeaning(bus, s, cmds);
    BatchCounts(bus, s, cmds);
    FirstCommand(bus, s, cmds[0]);
    BatchLinked(bus, s, cmds);
    hide BoardOk, Quiet, Accounted, Place, Bits, Batch, Search, OthersKept, Sub, LandedAll, EventFold, SubFold, Leaks;
    TableFits(bus.board);
    ZeroSub(bus.board, bus.clients[s].mask, code);
    BitsOfNothing(0);
  }


  lemma ZeroSub(b: Board, mask: seq<Mask>, code: bytes)
    requires b.valr <= |b.symbs| && forall r :: 0 <= r < |mask| ==> mask[r] == 0
    ensures Sub(b, mask, code) == 0
  {
  }

  /** A batch of one command. */
  lemma FirstCommand(bus: Bus, s: nat, c: Command)
    requires BusOk(bus) && s < |bus.clients|
    ensures LandedAll(Started(bus, s), s, [c]) == [Place(bus.board, c.code).1 >= 0]
    ensures forall code, events ::
              EventFold([c], LandedAll(Started(bus, s), s, [c]), code, events)
              == EventStep(c, Place(bus.board, c.code).1 >= 0, code, events)
    ensures c.func != SET_MASK ==> !Leaks(bus, s, [c])
  {
    hide BoardOk, Place, Bits;
    assert [c][..0] == [];
    assert LandedAll(Started(bus, s), s, [c])[..0] == [];
  }

  /** Somebody linked is subscribed to the code. */
  ghost predicate Asked(bus: Bus, code: bytes)
    requires bus.board.valr <= |bus.board.symbs|
  {
    exists i :: 0 <= i < |bus.clients| && bus.clients[i].sock == i && Sub(bus.board, bus.clients[i].mask, code) != 0
  }

  /** Every local subscriber has exactly one alarm, unless its socket was full or failed, and nobody else has any. */
  ghost predicate Alarmed(bus: Bus, f: Fan, code: bytes, event: Mask, got: nat -> Outcome)
    requires bus.board.valr <= |bus.board.symbs|
  {
    forall i :: 0 <= i < |bus.clients| ==>
      multiset(f.sent)[i] == if Subscribed(bus, i, code, event) && got(i) == Written then 1 else 0
  }

  /**
   * From publisher to client: a message for a code is sent on exactly when somebody is subscribed to the code, and
   * then leaves one alarm with each local subscriber with one of its events in the mask whose socket takes it.
   */
  lemma Published(bus: Bus, code: bytes, event: Mask, threads: nat, got: nat -> Outcome, schedule: seq<nat>)
    requires Exact(bus) && LinkedBelow(bus) && threads > 0
    requires forall t :: 0 <= t < |schedule| ==> schedule[t] < threads
    ensures Pushed(bus.board, code).Some? <==> Asked(bus, code)
    ensures Pushed(bus.board, code).Some? ==>
              var f := Turns(FanStart(bus, threads), Pushed(bus.board, code).value, event, got, schedule);
              Finished(f) ==> Alarmed(bus, f, code, event, got)
  {
    hide BoardOk, Quiet, Accounted, Sub, Turns, Bits, Pushed, Finished;
    TableFits(bus.board);
    PushedIffWanted(bus, code);
    PushedRoom(bus.board, code);
    if Pushed(bus.board, code).Some? {
      FanOut(bus, Pushed(bus.board, code).value, event, threads, got, schedule);
    }
  }

  lemma PushedRoom(b: Board, code: bytes)
    requires b.valr <= |b.symbs|
    ensures Pushed(b, code).Some? ==> Pushed(b, code).value < |b.hooks|
  {
  }

  /** The same after any run of the broker from its start, whatever symbol files it read. */
  lemma PublishedAfterRun(bus: Bus, files: seq<seq<bytes>>, es: seq<Event>, code: bytes, event: Mask, threads: nat,
                          got: nat -> Outcome, schedule: seq<nat>)
    requires Fresh(bus) && NoCodeTwice(bus, files) && threads > 0
    requires HarmlessRun(Booted(bus, files), es) && LocalRun(Booted(bus, files), es)
    requires forall t :: 0 <= t < |schedule| ==> schedule[t] < threads
    ensures var now := Run(Booted(bus, files), es);
            && now.board.valr <= |now.board.symbs| && LinkedBelow(now)
            && (Pushed(now.board, code).Some? <==> Asked(now, code))
            && (Pushed(now.board, code).Some? ==>
                  var f := Turns(FanStart(now, threads), Pushed(now.board, code).value, event, got, schedule);
                  Finished(f) ==> Alarmed(now, f, code, event, got))
  {
    hide BoardOk, Quiet, Accounted, Sub, Turns, Bits, Pushed, Finished, HarmlessRun, LocalRun, Run, Asked, Alarmed;
    BootLinked(bus, files);
    hide Booted, Fresh, NoCodeTwice;
    FreshCounts(bus, files, es);
    RunLinked(Booted(bus, files), es);
    TableFits(Run(Booted(bus, files), es).board);
    Published(Run(Booted(bus, files), es), code, event, threads, got, schedule);
  }

  lemma BootLinked(bus: Bus, files: seq<seq<bytes>>)
    requires Fresh(bus) && NoCodeTwice(bus, files)
    ensures LinkedBelow(Booted(bus, files))
  {
    hide Exact;
    BootCounts(bus, files);
  }
}
