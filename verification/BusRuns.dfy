/** The push bus over whole runs: clients come, go and send batches, symbols are added and dropped. */
module BusRuns {
  import opened Bytes
  import opened Masks
  import opened SymbolCodes
  import opened SymbolBoard
  import opened Subscriptions
  import opened Accounting
  import opened Batches

  /** The slots below `n` that are linked end here. */
  function Top(cs: seq<Client>, n: nat): (r: nat)
    requires n <= |cs|
    ensures r <= n
    ensures forall i :: 0 <= i < n && cs[i].sock == i ==> i < r
    ensures r > 0 ==> cs[r - 1].sock == r - 1
  {
    if n == 0 then 0 else if cs[n - 1].sock == n - 1 then n else Top(cs, n - 1)
  }

  /** accept_client, after accept() gave `sock`; `local` and `written`: what peer and socket turn out to be. */
  function Accept(bus: Bus, sock: int, local: bool, written: bool): Bus {
    if !(0 <= sock < |bus.clients|) then bus
    else
      var c := bus.clients[sock].(sock := sock, mask := seq(|bus.clients[sock].mask|, _ => 0));
      if !local then bus.(clients := bus.clients[sock := c])
      else if !written then bus.(clients := bus.clients[sock := c.(sock := -1, flag := LOCAL)])
      else
        bus.(clients := bus.clients[sock := c.(flag := LOCAL)],
             linked := if bus.linked <= sock then sock + 1 else bus.linked)
  }

  /** close_client */
  function Close(bus: Bus, sock: int): Bus
    requires BusOk(bus)
  {
    if !(0 <= sock < |bus.clients|) || bus.clients[sock].sock != sock then bus
    else
      var left := Commit(Work(bus, seq(|bus.board.hooks|, _ => 0)), sock);
      var cs := left.clients[sock := left.clients[sock].(sock := -1)];
      left.(clients := cs, linked := Top(cs, |cs|))
  }

  /** RT_INS_SYMB and RT_DEL_SYMB on the push queue; a dynamic board ignores them. */
  function AddSymbol(bus: Bus, code: bytes): Bus
    requires BusOk(bus)
  {
    if bus.board.dynamic then bus else bus.(board := Place(bus.board, code).0)
  }

  function DropSymbol(bus: Bus, code: bytes): Bus
    requires BusOk(bus)
  {
    if bus.board.dynamic then bus else bus.(board := Delete(bus.board, code))
  }

  datatype Event =
    | Accepted(sock: int, local: bool, written: bool)
    | Closed(sock: int)
    | Sent(sock: int, cmds: seq<Command>)
    | Added(code: bytes)
    | Dropped(code: bytes)

  function Next(bus: Bus, e: Event): (r: Bus)
    requires BusOk(bus)
    ensures BusOk(r)
  {
    NextOk(bus, e);
    match e
    case Accepted(sock, local, written) => Accept(bus, sock, local, written)
    case Closed(sock) => Close(bus, sock)
    case Sent(sock, cmds) => Batch(bus, sock, cmds)
    case Added(code) => AddSymbol(bus, code)
    case Dropped(code) => DropSymbol(bus, code)
  }

  lemma NextOk(bus: Bus, e: Event)
    requires BusOk(bus)
    ensures e.Accepted? ==> BusOk(Accept(bus, e.sock, e.local, e.written))
    ensures e.Closed? ==> BusOk(Close(bus, e.sock))
    ensures e.Sent? ==> BusOk(Batch(bus, e.sock, e.cmds))
    ensures e.Added? ==> BusOk(AddSymbol(bus, e.code))
    ensures e.Dropped? ==> BusOk(DropSymbol(bus, e.code))
  {
    match e {
      case Accepted(_, _, _) =>
      case Closed(sock) =>
        if 0 <= sock < |bus.clients| {
          CommitOk(Work(bus, seq(|bus.board.hooks|, _ => 0)), sock);
          hide BoardOk, Live;
        }
      case Sent(sock, cmds) =>
        if 0 <= sock < |bus.clients| {
          CommitOk(RunSteps(Started(bus, sock), sock, cmds), sock);
          hide BoardOk, RunSteps;
        }
      case Added(code) => PlaceOk(bus.board, code); hide Placed, Place, Sorted, RoomsOk;
      case Dropped(code) => DeleteOk(bus.board, code); hide Delete, Entry, Sorted, RoomsOk;
    }
  }

  lemma CommitOk(w: Work, s: nat)
    requires Shape(w, s)
    ensures BusOk(Commit(w, s)) && Live(Commit(w, s).board) == Live(w.bus.board)
  {
  }

  /**
   * Events that keep the counts: a descriptor is handed out only while nothing is subscribed under it, no batch
   * leaks, and a static board drops only symbols that nobody listens to.
   */
  ghost predicate Harmless(bus: Bus, e: Event)
    requires BusOk(bus)
  {
    match e
    case Accepted(sock, _, _) =>
      0 <= sock < |bus.clients| ==> forall r :: 0 <= r < |bus.board.hooks| ==> !Holds(bus.clients, sock, r)
    case Closed(_) => true
    case Sent(sock, cmds) => Taken(bus, sock, cmds) ==> !Leaks(bus, sock, cmds)
    case Added(_) => true
    case Dropped(code) =>
      bus.board.dynamic || Search(bus.board, code) < 0 || Listeners(bus.clients, Search(bus.board, code)) == {}
  }

  /** A message queue entry has room for so many commands. */
  predicate Sized(e: Event) {
    e.Sent? ==> |e.cmds| <= MAX_BATCH
  }

  // ----- one event

  /**
   * What an accept does. A local peer whose descriptor is written is linked: its slot holds its own descriptor, says
   * local, asks for nothing yet and lies below the limit. If the write fails the slot is free. A remote peer is
   * refused with its slot marked and nothing else changed. A descriptor out of range changes nothing.
   */
  lemma AcceptMeaning(bus: Bus, sock: int, local: bool, written: bool)
    ensures var bus' := Accept(bus, sock, local, written);
            && bus'.board == bus.board && |bus'.clients| == |bus.clients|
            && (forall j :: 0 <= j < |bus.clients| && j != sock ==> bus'.clients[j] == bus.clients[j])
            && (!(0 <= sock < |bus.clients|) ==> bus' == bus)
            && (0 <= sock < |bus.clients| ==>
                  var was, c := bus.clients[sock], bus'.clients[sock];
                  && |c.mask| == |was.mask| && (forall r :: 0 <= r < |c.mask| ==> c.mask[r] == 0)
                  && (local ==> c.sock == (if written then sock else -1) && c.flag == LOCAL)
                  && (!local ==> c.sock == sock && c.flag == was.flag)
                  && bus.linked <= bus'.linked && (local && written ==> sock < bus'.linked)
                  && (bus'.linked > bus.linked ==> local && written && bus'.linked == sock + 1))
  {
  }

  lemma AcceptCounts(bus: Bus, sock: int, local: bool, written: bool)
    requires Exact(bus)
    ensures var bus' := Accept(bus, sock, local, written);
            Exact(bus') <==> Harmless(bus, Accepted(sock, local, written))
  {
    var bus' := Accept(bus, sock, local, written);
    if 0 <= sock < |bus.clients| {
      hide BoardOk, Listeners, Quiet;
      forall r | 0 <= r < |bus.board.hooks|
        ensures |Listeners(bus'.clients, r)|
             == |Listeners(bus.clients, r)| - (if Holds(bus.clients, sock, r) then 1 else 0)
      {
        ListenersUpdate(bus.clients, sock, bus'.clients[sock], r);
      }
      if r :| 0 <= r < |bus.board.hooks| && Holds(bus.clients, sock, r) {
        assert |Listeners(bus'.clients, r)| != bus.board.hooks[r].many;
      }
    }
  }

  lemma CloseCounts(bus: Bus, sock: int)
    requires Exact(bus)
    ensures Exact(Close(bus, sock)) && Live(Close(bus, sock).board) == Live(bus.board)
    ensures 0 <= sock < |bus.clients| ==> Close(bus, sock).clients[sock].sock != sock
    ensures forall j :: 0 <= j < |bus.clients| && j != sock ==> Close(bus, sock).clients[j] == bus.clients[j]
  {
    if 0 <= sock < |bus.clients| && bus.clients[sock].sock == sock {
      var zeros := Zeros(|bus.board.hooks|);
      var w := Work(bus, seq(|bus.board.hooks|, _ => 0));
      assert Working(w, sock, zeros) by { hide BoardOk, Quiet, Accounted; }
      CommitKeeps(w, sock, zeros);
      hide BoardOk, Listeners, Quiet, Live;
      var left, bus' := Commit(w, sock), Close(bus, sock);
      forall r | 0 <= r < |zeros| ensures |Listeners(bus'.clients, r)| == |Listeners(left.clients, r)| {
        ListenersUpdate(left.clients, sock, bus'.clients[sock], r);
      }
    }
  }

  lemma AddCounts(bus: Bus, code: bytes)
    requires Exact(bus)
    ensures Exact(AddSymbol(bus, code))
  {
    if !bus.board.dynamic {
      NextOk(bus, Added(code));
      PlaceOk(bus.board, code);
      PlacedKeepsCounts(bus.board, code, Place(bus.board, code).0, Place(bus.board, code).1);
      hide BoardOk, Place, Placed, Quiet, Listeners;
    }
  }

  lemma DropCounts(bus: Bus, code: bytes)
    requires Exact(bus)
    ensures Exact(DropSymbol(bus, code)) <==> Harmless(bus, Dropped(code))
  {
    if !bus.board.dynamic {
      NextOk(bus, Dropped(code));
      DeleteOk(bus.board, code);
      DropQuiet(bus.board, code);
      hide BoardOk, Delete, Listeners, Quiet;
      assert Accounted(DropSymbol(bus, code), Zeros(|bus.board.hooks|));
    }
  }

  lemma DropQuiet(b: Board, code: bytes)
    requires BoardOk(b) && Quiet(b) && BoardOk(Delete(b, code))
    ensures Quiet(Delete(b, code)) <==> Search(b, code) < 0 || b.hooks[Search(b, code)].many == 0
  {
    DeleteOk(b, code);
    RoomsDiffer(b, code);
    hide Sorted, RoomsOk, Position, Delete;
    var b' := Delete(b, code);
    if Search(b, code) >= 0 {
      assert Entry(Live(b'), code).Some? && !Entry(Live(b'), code).value.mark;
    }
  }

  /**
   * On a static board, dropping a symbol and adding it again forgets its listeners: the counts stay right only if it
   * had none.
   */
  lemma DropThenAdd(bus: Bus, code: bytes)
    requires Exact(bus) && !bus.board.dynamic
    ensures BusOk(DropSymbol(bus, code))
    ensures Accounted(AddSymbol(DropSymbol(bus, code), code), Zeros(|bus.board.hooks|)) <==>
              Harmless(bus, Dropped(code))
  {
    var b, zeros := bus.board, Zeros(|bus.board.hooks|);
    NextOk(bus, Dropped(code));
    DeleteOk(b, code);
    var b1 := Delete(b, code);
    PlaceOk(b1, code);
    var (b2, room) := Place(b1, code);
    DropCounts(bus, code);
    AddCountsIfExact(DropSymbol(bus, code), code);
    hide Sorted, RoomsOk, Position, Delete, Place, Listeners, Quiet, StoreNew;
    if !Harmless(bus, Dropped(code)) {
      assert room == Search(b, code) && b2.hooks[room].many == 0;
      assert |Listeners(bus.clients, room)| > 0;
    }
  }

  lemma AddCountsIfExact(bus: Bus, code: bytes)
    requires BusOk(bus)
    ensures Exact(bus) ==> Exact(AddSymbol(bus, code))
    ensures |AddSymbol(bus, code).board.hooks| == |bus.board.hooks|
  {
    PlaceOk(bus.board, code);
    TableFits(Place(bus.board, code).0);
    TableFits(bus.board);
    hide BoardOk, Place, Quiet, Accounted;
    if Exact(bus) {
      AddCounts(bus, code);
    }
  }

  /** An event keeps the counts exact if and only if it is harmless. */
  lemma EventCounts(bus: Bus, e: Event)
    requires Exact(bus) && Sized(e)
    ensures Exact(Next(bus, e)) <==> Harmless(bus, e)
  {
    hide BoardOk, Accounted, Quiet, Leaks, Batch, Close, DropSymbol, AddSymbol, Accept;
    match e {
      case Accepted(sock, local, written) => AcceptCounts(bus, sock, local, written);
      case Closed(sock) => CloseCounts(bus, sock);
      case Sent(sock, cmds) =>
        if Taken(bus, sock, cmds) {
          BatchCounts(bus, sock, cmds);
        } else {
          NotTaken(bus, sock, cmds);
        }
      case Added(code) => AddCounts(bus, code);
      case Dropped(code) => DropCounts(bus, code);
    }
  }

  lemma NotTaken(bus: Bus, s: int, cmds: seq<Command>)
    requires BusOk(bus) && !Taken(bus, s, cmds) && |cmds| <= MAX_BATCH
    ensures Batch(bus, s, cmds) == bus
  {
  }

  // ----- who is disturbed by whom

  /** An event of one client never changes what another client is subscribed to, whatever rooms are recycled. */
  lemma EventKeepsOthers(bus: Bus, e: Event, j: nat)
    requires Exact(bus) && Sized(e) && Harmless(bus, e)
    requires j < |bus.clients| && bus.clients[j].sock == j && !Concerns(e, j)
    ensures var bus' := Next(bus, e);
            && |bus'.clients| == |bus.clients| && bus'.clients[j] == bus.clients[j]
            && bus'.board.valr <= |bus'.board.symbs|
            && forall code :: Sub(bus'.board, bus.clients[j].mask, code) == Sub(bus.board, bus.clients[j].mask, code)
  {
    hide BoardOk, Accounted, Quiet, Leaks, Batch, Delete, Place, Placed;
    TableFits(Next(bus, e).board);
    HeldIsCounted(bus, Zeros(|bus.board.hooks|), j);
    match e {
      case Accepted(_, _, _) =>
      case Closed(sock) => CloseCounts(bus, sock); hide Close; SameSubs(bus.board, Next(bus, e).board);
      case Sent(sock, cmds) =>
        if Taken(bus, sock, cmds) {
          BatchMeaning(bus, sock, cmds);
        } else {
          NotTaken(bus, sock, cmds);
        }
      case Added(code) =>
        PlaceOk(bus.board, code);
        PlacedKeepsSubs(bus.board, code, Place(bus.board, code).0, Place(bus.board, code).1, bus.clients[j].mask);
      case Dropped(code) =>
        if !bus.board.dynamic {
          DropKeepsSubs(bus, code, j);
        }
    }
  }

  /** The slot an event is about. */
  predicate Concerns(e: Event, j: nat) {
    match e
    case Accepted(sock, _, _) => sock == j
    case Closed(sock) => sock == j
    case Sent(sock, _) => sock == j
    case _ => false
  }

  lemma DropKeepsSubs(bus: Bus, code: bytes, j: nat)
    requires Exact(bus) && Harmless(bus, Dropped(code)) && !bus.board.dynamic
    requires j < |bus.clients| && bus.clients[j].sock == j
    ensures BoardOk(Delete(bus.board, code))
    ensures forall c :: Sub(Delete(bus.board, code), bus.clients[j].mask, c) == Sub(bus.board, bus.clients[j].mask, c)
  {
    DeleteOk(bus.board, code);
    var mask, r := bus.clients[j].mask, Search(bus.board, code);
    if 0 <= r < |mask| {
      assert mask[r] == 0 by {
        assert j !in Listeners(bus.clients, r);
      }
    }
    hide Sorted, RoomsOk, Position, Delete, Accounted, Quiet;
  }

  // ----- runs

  function Run(bus: Bus, es: seq<Event>): (r: Bus)
    requires BusOk(bus)
    ensures BusOk(r)
    decreases |es|
  {
    if |es| == 0 then bus else Run(Next(bus, es[0]), es[1..])
  }

  ghost predicate HarmlessRun(bus: Bus, es: seq<Event>)
    requires BusOk(bus)
    decreases |es|
  {
    |es| > 0 ==> Sized(es[0]) && Harmless(bus, es[0]) && HarmlessRun(Next(bus, es[0]), es[1..])
  }

  /** In every state of every run of harmless events, each room counts exactly its listeners. */
  lemma {:induction false} RunCounts(bus: Bus, es: seq<Event>)
    requires Exact(bus) && HarmlessRun(bus, es)
    ensures Exact(Run(bus, es))
    decreases |es|
  {
    hide Accounted, Quiet, BoardOk, Next, Harmless;
    if |es| > 0 {
      EventCounts(bus, es[0]);
      RunCounts(Next(bus, es[0]), es[1..]);
    }
  }

  /** A client keeps its subscriptions through any run that does not concern it. */
  lemma {:induction false} RunKeepsOthers(bus: Bus, es: seq<Event>, j: nat)
    requires Exact(bus) && HarmlessRun(bus, es)
    requires j < |bus.clients| && bus.clients[j].sock == j && forall i :: 0 <= i < |es| ==> !Concerns(es[i], j)
    ensures var bus' := Run(bus, es);
            && |bus'.clients| == |bus.clients| && bus'.clients[j] == bus.clients[j]
            && bus'.board.valr <= |bus'.board.symbs|
            && forall code :: Sub(bus'.board, bus.clients[j].mask, code) == Sub(bus.board, bus.clients[j].mask, code)
    decreases |es|
  {
    hide Next, Harmless, Sub, BoardOk, Quiet, Accounted;
    TableFits(bus.board);
    if |es| > 0 {
      EventCounts(bus, es[0]);
      EventKeepsOthers(bus, es[0], j);
      RunKeepsOthers(Next(bus, es[0]), es[1..], j);
    }
  }

  // ----- the start

  /** Nobody is linked and nothing is counted; masks are still whatever malloc returned. */
  ghost predicate Unused(bus: Bus) {
    && |bus.board.symbs| == |bus.board.hooks| <= MAX_ROOMS && |bus.clients| <= MAX_CLIENTS && bus.linked == 0
    && (forall r :: 0 <= r < |bus.board.hooks| ==> bus.board.hooks[r].many == 0)
    && forall i :: 0 <= i < |bus.clients| ==>
         bus.clients[i].sock == -1 && |bus.clients[i].mask| == |bus.board.hooks|
  }

  /** The broker behind init_shm: no symbols yet. */
  ghost predicate Fresh(bus: Bus) {
    Unused(bus) && bus.board.valr == 0
  }

  /** The codes of the accepted lines that are read: as many as there are rooms. */
  function Fitting(lines: seq<bytes>, rooms: nat): (codes: seq<bytes>)
    ensures |codes| <= rooms
  {
    if |lines| <= rooms then lines else lines[..rooms]
  }

  /**
   * The broker when it starts to serve: behind init_shm come the symbol file, on a static board, and the preload
   * file, as far as they exist; each gives the codes of its accepted lines.
   */
  function Boot(bus: Bus, files: seq<seq<bytes>>): (r: Bus)
    requires |bus.board.symbs| == |bus.board.hooks|
    ensures |r.board.symbs| == |r.board.hooks| == |bus.board.hooks|
  {
    if |files| == 0 then bus
    else
      var before := Boot(bus, files[..|files| - 1]);
      before.(board := Load(before.board, Fitting(files[|files| - 1], |bus.board.symbs|)))
  }

  /** The file that is read last, if any is, names no code twice. */
  predicate NoCodeTwice(bus: Bus, files: seq<seq<bytes>>) {
    |files| > 0 ==>
      var codes := Fitting(files[|files| - 1], |bus.board.symbs|);
      forall i, j :: 0 <= i < j < |codes| ==> codes[i] != codes[j]
  }

  /** Whatever was loaded, the broker starts with exact counts if and only if the last file names no code twice. */
  lemma {:induction false} BootCounts(bus: Bus, files: seq<seq<bytes>>)
    requires Fresh(bus)
    ensures Unused(Boot(bus, files))
    ensures Exact(Boot(bus, files)) <==> NoCodeTwice(bus, files)
    ensures BusOk(Boot(bus, files)) <==> NoCodeTwice(bus, files)
    decreases |files|
  {
    hide Load, BoardOk, Quiet, Accounted;
    if |files| == 0 {
      FreshBoard(bus.board);
    } else {
      var before := Boot(bus, files[..|files| - 1]);
      BootCounts(bus, files[..|files| - 1]);
      LoadUnused(before, Fitting(files[|files| - 1], |bus.board.symbs|));
      LoadOk(before.board, Fitting(files[|files| - 1], |bus.board.symbs|));
    }
    UnusedIsExact(Boot(bus, files));
  }

  lemma LoadUnused(bus: Bus, codes: seq<bytes>)
    requires Unused(bus) && |codes| <= |bus.board.symbs|
    ensures Unused(bus.(board := Load(bus.board, codes)))
  {
    hide Sort;
    var b' := Load(bus.board, codes);
    forall r | 0 <= r < |b'.hooks| ensures b'.hooks[r].many == 0 {
      assert b'.hooks[r].many == bus.board.hooks[r].many;
    }
  }

  lemma FreshBoard(b: Board)
    requires b.valr == 0 && |b.symbs| == |b.hooks| <= MAX_ROOMS
    ensures BoardOk(b)
  {
  }

  lemma UnusedIsExact(bus: Bus)
    requires Unused(bus)
    ensures Exact(bus) <==> BoardOk(bus.board)
    ensures BusOk(bus) <==> BoardOk(bus.board)
  {
    hide Sorted, RoomsOk, Position;
    forall r ensures Listeners(bus.clients, r) == {} {
      assert forall i :: 0 <= i < |bus.clients| ==> bus.clients[i].sock != i;
    }
  }

  /** The broker when it starts to serve, with files that leave the board in order. */
  function Booted(bus: Bus, files: seq<seq<bytes>>): (r: Bus)
    requires Fresh(bus) && NoCodeTwice(bus, files)
    ensures Exact(r)
  {
    BootCounts(bus, files);
    Boot(bus, files)
  }

  /** From the start of the broker, with or without loaded symbols, counts are exact after every harmless run. */
  lemma FreshCounts(bus: Bus, files: seq<seq<bytes>>, es: seq<Event>)
    requires Fresh(bus) && NoCodeTwice(bus, files) && HarmlessRun(Booted(bus, files), es)
    ensures Exact(Run(Booted(bus, files), es))
  {
    hide Fresh, Unused, NoCodeTwice, Exact, Booted;
    RunCounts(Booted(bus, files), es);
  }

  // ----- publishing

  /** rtd_push: the room a message for the code is sent to the broker with, if it is sent at all. */
  function Pushed(b: Board, code: bytes): Option<nat>
    requires b.valr <= |b.symbs|
  {
    match Entry(Live(b), code)
    case None => None
    case Some(x) =>
      if 0 <= x.seqn < |b.hooks| && x.mark && b.hooks[x.seqn].many != 0 then Some(x.seqn) else None
  }

  /**
   * A message leaves its publisher exactly when some client is subscribed to its code, and goes to that code's room.
   */
  lemma PushedIffWanted(bus: Bus, code: bytes)
    requires Exact(bus)
    ensures Pushed(bus.board, code).Some? <==>
              exists i :: 0 <= i < |bus.clients| && bus.clients[i].sock == i
                && Sub(bus.board, bus.clients[i].mask, code) != 0
    ensures Pushed(bus.board, code).Some? ==>
              forall i :: 0 <= i < |bus.clients| ==>
                Sub(bus.board, bus.clients[i].mask, code) == bus.clients[i].mask[Pushed(bus.board, code).value]
  {
    RoomsDiffer(bus.board, code);
    hide Sorted, RoomsOk, Position, Quiet;
    var r := Search(bus.board, code);
    if r >= 0 {
      if |Listeners(bus.clients, r)| > 0 {
        var i :| i in Listeners(bus.clients, r);
      }
      if i: nat :| i < |bus.clients| && bus.clients[i].sock == i && bus.clients[i].mask[r] != 0 {
        assert i in Listeners(bus.clients, r);
      }
    }
  }

  // ----- the two ways to lose count, on the smallest bus

  /** One room, one local client: with a code on the board and `mask` for it, counted or not. */
  function Tiny(code: bytes, mask: Mask, many: nat, dynamic: bool): Bus {
    Bus(Board([Symb(code, 0, true)], 1, [Hook(code, many, true)], dynamic), [Client(0, LOCAL, [mask])], 1)
  }

  lemma TinyExact(code: bytes, mask: Mask, dynamic: bool)
    ensures Exact(Tiny(code, mask, if mask != 0 then 1 else 0, dynamic))
    ensures Search(Tiny(code, mask, if mask != 0 then 1 else 0, dynamic).board, code) == 0
  {
    var bus := Tiny(code, mask, if mask != 0 then 1 else 0, dynamic);
    assert Listeners(bus.clients, 0) == if mask != 0 then {0} else {};
    assert Live(bus.board) == [Symb(code, 0, true)];
  }

  /** A zero mask set once for a code that the client does not have: the room counts one listener too many. */
  lemma ZeroMaskExample()
    ensures var bus := Tiny([0x41], 0, 0, true);
            Exact(bus) && !Exact(Batch(bus, 0, [Command(SET_MASK, 0, [0x41])]))
  {
    var bus, cmds := Tiny([0x41], 0, 0, true), [Command(SET_MASK, 0, [0x41])];
    TinyExact([0x41], 0, true);
    assert Taken(bus, 0, cmds);
    BatchCounts(bus, 0, cmds);
    assert cmds[..0] == [];
    assert RunSteps(Started(bus, 0), 0, cmds[..0]) == Started(bus, 0);
    assert Landed(Started(bus, 0), 0, cmds[0]);
    hide Batch, BusOk, Place;
    assert LeaksAt(Started(bus, 0), 0, cmds, 0);
  }

  /** A static board drops a symbol that a client holds and adds it again: the room counts one listener too few. */
  lemma DropExample()
    ensures var bus := Tiny([0x41], 1, 1, false);
            && Exact(bus) && BusOk(DropSymbol(bus, [0x41]))
            && !Accounted(AddSymbol(DropSymbol(bus, [0x41]), [0x41]), Zeros(1))
  {
    var bus := Tiny([0x41], 1, 1, false);
    TinyExact([0x41], 1, false);
    assert 0 in Listeners(bus.clients, 0);
    hide Exact;
    DropThenAdd(bus, [0x41]);
  }
}
