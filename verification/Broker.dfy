/** The broker's state in arrays, changed in place; every operation is proved against the steps on values. */
module Broker {
  import opened Bytes
  import opened Masks
  import opened SymbolCodes
  import opened SymbolBoard
  import opened Subscriptions
  import opened Accounting
  import opened Batches
  import opened BusRuns
  import opened Alerts

  class Broker {
    const symb: array<Symb>
    const hook: array<Hook>
    const clients: array<Client>
    const dynamic: bool
    var valr: nat
    var linked: nat

    ghost function TheBoard(): Board
      reads this, symb, hook
    {
      Board(symb[..], valr, hook[..], dynamic)
    }

    /** The state as a value. */
    ghost function View(): Bus
      reads this, symb, hook, clients
    {
      Bus(TheBoard(), clients[..], linked)
    }

    ghost predicate Valid()
      reads this, symb, hook, clients
    {
      BusOk(View()) && linked <= clients.Length
    }

    /** init_shm: nothing on the board, nobody linked; the masks hold whatever was in the memory. */
    constructor (rooms: nat, masks: seq<seq<Mask>>, dynamic: bool)
      requires rooms <= MAX_ROOMS && forall i :: 0 <= i < |masks| ==> |masks[i]| == rooms
      ensures Valid() && fresh(symb) && fresh(hook) && fresh(clients)
      ensures |masks| <= MAX_CLIENTS ==> Fresh(View())
      ensures View().board.dynamic == dynamic && |View().board.hooks| == rooms && |View().clients| == |masks|
    {
      symb := new Symb[rooms](_ => Symb([], 0, false));
      hook := new Hook[rooms](_ => Hook([], 0, false));
      clients := new Client[|masks|](i requires 0 <= i < |masks| => Client(-1, 0, masks[i]));
      this.dynamic := dynamic;
      valr := 0;
      linked := 0;
      new;
      assert Live(TheBoard()) == [];
    }

    /** search_symbol_on_board */
    method SearchSymbol(code: bytes) returns (room: int)
      requires Valid()
      ensures room == Search(TheBoard(), code)
    {
      ghost var b := TheBoard();
      assert symb[..valr] == Live(b);
      var p := BinarySearch(symb, valr, code);
      hide BusOk, Position;
      if p == valr || !symb[p].mark {
        return -1;
      }
      return symb[p].seqn;
    }

    /** One entry of cleaning_board: an idle one loses its mark, and so does the hook at the same index. */
    method CleanEntry(i: nat) returns (idle: bool)
      requires i < symb.Length == hook.Length
      modifies symb, hook
      ensures idle == Idle(old(TheBoard()), i)
      ensures symb[i] == old(symb[i]).(mark := old(symb[i]).mark && !idle)
      ensures hook[i] == old(hook[i]).(mark := old(hook[i]).mark && !idle)
      ensures forall k :: 0 <= k < symb.Length && k != i ==> symb[k] == old(symb[k]) && hook[k] == old(hook[k])
    {
      var r := symb[i].seqn;
      idle := 0 <= r < symb.Length && hook[r].many <= 0;
      if idle {
        hook[i] := hook[i].(mark := false);
        symb[i] := symb[i].(mark := false);
      }
    }

    /** cleaning_board: the first entry whose room nobody listens to; all such entries lose their marks. */
    method CleaningBoard() returns (indx: int, room: int)
      requires symb.Length == hook.Length && valr <= symb.Length
      modifies symb, hook
      ensures !dynamic ==> indx == -1 && room == -1 && TheBoard() == old(TheBoard())
      ensures dynamic ==>
                && TheBoard() == Cleaned(old(TheBoard()))
                && var i := FirstIdle(old(TheBoard()), 0);
                   if i == symb.Length then indx == -1 && room == -1
                   else indx == i && room == old(TheBoard()).symbs[i].seqn
    {
      hide Idle, FirstIdle;
      indx, room := -1, -1;
      if !dynamic {
        return;
      }
      ghost var b := TheBoard();
      var i := 0;
      while i < symb.Length
        invariant i <= symb.Length
        invariant CleanedBelow(b, i)
        invariant if indx == -1 then room == -1 && FirstIdle(b, 0) == FirstIdle(b, i)
                  else 0 <= indx < i && indx == FirstIdle(b, 0) && room == b.symbs[indx].seqn
      {
        FirstIdleFrom(b, i);
        IdleLater(b, i);
        var r := symb[i].seqn;
        var idle := CleanEntry(i);
        if idle && indx == -1 {
          indx, room := i, r;
        }
        i := i + 1;
      }
      AllCleaned(b);
    }

    ghost predicate CleanedBelow(b: Board, n: nat)
      reads this, symb, hook
    {
      && n <= symb.Length == hook.Length == |b.symbs| == |b.hooks|
      && (forall k :: 0 <= k < n ==>
            && symb[k] == b.symbs[k].(mark := b.symbs[k].mark && !Idle(b, k))
            && hook[k] == b.hooks[k].(mark := b.hooks[k].mark && !Idle(b, k)))
      && forall k :: n <= k < symb.Length ==> symb[k] == b.symbs[k] && hook[k] == b.hooks[k]
    }

    lemma AllCleaned(b: Board)
      requires CleanedBelow(b, symb.Length) && b.dynamic == dynamic && b.valr == valr
      ensures TheBoard() == Cleaned(b)
    {
    }

    /** Cleaning the entries in front of one changes no count, so it makes none idle. */
    lemma IdleLater(b: Board, i: nat)
      requires CleanedBelow(b, i) && i < symb.Length
      ensures Idle(TheBoard(), i) == Idle(b, i)
    {
    }

    lemma FirstIdleFrom(b: Board, i: nat)
      requires i < |b.symbs|
      ensures FirstIdle(b, i) == if Idle(b, i) then i else FirstIdle(b, i + 1)
      ensures FirstIdle(b, |b.symbs|) == |b.symbs|
    {
    }

    /** What qsort does to the live part of the table. */
    method SortTable()
      requires valr <= symb.Length
      modifies symb
      ensures symb[..] == Sort(old(symb[..valr])) + old(symb[valr..])
    {
      var sorted := Sort(symb[..valr]);
      forall i | 0 <= i < valr {
        symb[i] := sorted[i];
      }
    }

    /** The new entry goes in and the table is sorted again. */
    method PutSymbol(i: nat, x: Symb)
      requires i < symb.Length && i <= valr <= symb.Length
      modifies this`valr, symb
      ensures valr == if i < old(valr) then old(valr) else i + 1
      ensures symb[..] == Sort(old(symb[..])[i := x][..valr]) + old(symb[..])[i := x][valr..]
    {
      hide Sort, Load;
      symb[i] := x;
      if i >= valr {
        valr := i + 1;
      }
      SortTable();
    }

    /** The entry of the code is found again and becomes valid, at a room that nobody listens to. */
    method MarkValid(code: bytes, ghost room: nat)
      requires valr <= symb.Length && Sorted(symb[..valr]) && Position(symb[..valr], code) < valr
      requires symb[Position(symb[..valr], code)].seqn == room < hook.Length
      modifies symb, hook
      ensures var p := Position(old(symb[..valr]), code);
              symb[..] == old(symb[..])[p := old(symb[p]).(mark := true)]
      ensures hook[..] == old(hook[..])[room := Hook(code, 0, true)]
    {
      hide Sorted, Position;
      var p := BinarySearch(symb, valr, code);
      if p < valr {
        hook[symb[p].seqn] := Hook(code, 0, true);
        symb[p] := symb[p].(mark := true);
      }
    }

    /** Storing a new symbol: the middle of insert_symbol_to_board. */
    method StoreSymbol(i: nat, room: nat, code: bytes)
      requires BoardOk(TheBoard()) && i < symb.Length && i <= valr && Position(Live(TheBoard()), code) == valr
      requires room == if i < valr then symb[i].seqn else i
      modifies this`valr, symb, hook
      ensures TheBoard() == StoreNew(old(TheBoard()), i, room, code)
    {
      hide Sort, Sorted, Position, StoreNew;
      ghost var b, x := TheBoard(), Symb(code, room, false);
      ghost var t := if i < valr then Live(b)[i := x] else Live(b) + [x];
      assert b.symbs[i] == symb[i] && room < hook.Length && ToShort(room) == room;
      StoredSorted(b, i, room, code, t);
      PutSymbol(i, Symb(code, ToShort(room), false));
      assert b.symbs[i := x][..valr] == t;
      assert symb[..valr] == Sort(t);
      ghost var p := Position(Sort(t), code);
      MarkValid(code, room);
      assert symb[..] == (Sort(t) + b.symbs[i := x][valr..])[p := Sort(t)[p].(mark := true)];
      StoredIs(b, i, room, code, t, TheBoard());
    }

    /** The board half of insert_symbol_to_board. */
    method PlaceSymbol(code: bytes) returns (room: int)
      requires BoardOk(TheBoard())
      modifies this`valr, symb, hook
      ensures (TheBoard(), room) == Place(old(TheBoard()), code)
    {
      ghost var b := TheBoard();
      hide Sort, Sorted, RoomsOk, Position, StoreNew, FirstIdle, Cleaned;
      assert symb[..valr] == Live(b);
      var p := BinarySearch(symb, valr, code);
      if p < valr {
        room := symb[p].seqn;
        RoomInTable(b, p);
        if !symb[p].mark {
          hook[room] := hook[room].(many := 0, mark := true);
          symb[p] := symb[p].(mark := true);
        }
        return;
      }
      var indx: int;
      if valr >= symb.Length {
        indx, room := CleaningBoard();
        CleanedKeeps(b);
        CleanedAbsent(b, code);
      } else {
        indx, room := valr, valr;
      }
      if room < 0 || room >= symb.Length {
        RoomsInTable(b);
        room := -1;
        return;
      }
      StoreSymbol(indx, room, code);
    }

    lemma RoomInTable(b: Board, p: nat)
      requires BoardOk(b) && p < b.valr
      ensures 0 <= b.symbs[p].seqn < |b.symbs|
    {
    }

    lemma RoomsInTable(b: Board)
      requires BoardOk(b)
      ensures forall p :: 0 <= p < b.valr ==> 0 <= b.symbs[p].seqn < |b.symbs|
    {
    }

    lemma CleanedAbsent(b: Board, code: bytes)
      requires BoardOk(b) && Position(Live(b), code) == b.valr && BoardOk(Cleaned(b))
      requires forall c ::
                 Entry(Live(Cleaned(b)), c) == match Entry(Live(b), c)
                                               case None => None
                                               case Some(x) => Some(x.(mark := x.mark && b.hooks[x.seqn].many > 0))
      ensures Position(Live(Cleaned(b)), code) == b.valr
    {
    }

    /** delete_symbol_from_board */
    method DeleteSymbol(code: bytes)
      requires Valid()
      modifies symb, hook
      ensures Valid() && View() == old(View()).(board := Delete(old(TheBoard()), code))
    {
      hide Sorted, RoomsOk, Position;
      ghost var b := TheBoard();
      DeleteOk(b, code);
      assert symb[..valr] == Live(b);
      var p := BinarySearch(symb, valr, code);
      if p < valr && symb[p].mark {
        RoomInTable(b, p);
        var room := symb[p].seqn;
        symb[p] := symb[p].(mark := false);
        if 0 <= room < hook.Length {
          hook[room] := hook[room].(mark := false);
        }
      }
      assert TheBoard() == Delete(b, code);
    }

    /** symbol_file_to_board, on the codes of the accepted lines; it stops reading when every room is taken. */
    method LoadSymbols(lines: seq<bytes>)
      requires symb.Length == hook.Length && valr <= symb.Length
      modifies this`valr, symb, hook
      ensures TheBoard() == Load(old(TheBoard()), if |lines| <= symb.Length then lines else lines[..symb.Length])
    {
      hide Sort, Load;
      ghost var b := TheBoard();
      var codes := if |lines| <= symb.Length then lines else lines[..symb.Length];
      var i := 0;
      while i < |codes|
        invariant i <= |codes| && hook[..] == b.hooks
        invariant forall k :: 0 <= k < i ==> symb[k] == Symb(codes[k], 0, true)
        invariant forall k :: i <= k < symb.Length ==> symb[k] == b.symbs[k]
      {
        symb[i] := Symb(codes[i], 0, true);
        i := i + 1;
      }
      valr := |codes|;
      assert symb[..valr] == Lines(codes) && symb[valr..] == b.symbs[valr..];
      SortTable();
      ghost var sorted := Sort(Lines(codes));
      forall k | 0 <= k < symb.Length ensures symb[k] == if k < valr then sorted[k] else b.symbs[k] {
        assert symb[..][k] == (sorted + b.symbs[valr..])[k];
      }
      NumberRooms(b, sorted);
      LoadedIs(b, codes, TheBoard());
    }

    /** The second loop of symbol_file_to_board: rooms follow the order of the table. */
    method NumberRooms(ghost b: Board, ghost sorted: seq<Symb>)
      requires |sorted| == valr <= symb.Length == hook.Length == |b.symbs| == |b.hooks| && hook[..] == b.hooks
      requires forall k :: 0 <= k < symb.Length ==> symb[k] == if k < valr then sorted[k] else b.symbs[k]
      modifies symb, hook
      ensures forall k :: 0 <= k < symb.Length ==>
                symb[k] == if k < valr then sorted[k].(seqn := ToShort(k)) else b.symbs[k]
      ensures forall k :: 0 <= k < hook.Length ==>
                hook[k] == if k < valr then b.hooks[k].(code := sorted[k].code, mark := true) else b.hooks[k]
    {
      hide ToShort;
      var i := 0;
      while i < valr
        invariant i <= valr
        invariant forall k :: 0 <= k < symb.Length ==>
                    symb[k] == if k < i then sorted[k].(seqn := ToShort(k))
                               else if k < valr then sorted[k] else b.symbs[k]
        invariant forall k :: 0 <= k < hook.Length ==>
                    hook[k] == if k < i then b.hooks[k].(code := sorted[k].code, mark := true) else b.hooks[k]
      {
        symb[i] := symb[i].(seqn := ToShort(i));
        hook[i] := hook[i].(code := symb[i].code, mark := true);
        i := i + 1;
      }
    }

    /** rtd_push up to the send: the room the message goes to. */
    method PushRoom(code: bytes) returns (room: Option<nat>)
      requires Valid()
      ensures room == Pushed(TheBoard(), code)
    {
      hide Position, Sorted, RoomsOk;
      assert symb[..valr] == Live(TheBoard());
      var p := BinarySearch(symb, valr, code);
      if p == valr {
        return None;
      }
      var r := symb[p].seqn;
      if r < 0 || r >= hook.Length || !symb[p].mark || hook[r].many == 0 {
        return None;
      }
      return Some(r);
    }

    // ----- clients

    /** A working mask: memory of its own, one entry per room. */
    ghost predicate Working(next: array<Mask>) {
      next.Length == hook.Length && next as object != symb && next as object != hook && next as object != clients
    }

    /** The client's part of insert_symbol_to_board. */
    method SubscribeFor(s: nat, room: nat, m: Mask)
      requires Valid() && s < clients.Length && room < hook.Length
      modifies hook, clients
      ensures Valid() && View() == Subscribe(old(View()), s, room, m)
    {
      hide BoardOk, Join;
      ghost var bus := View();
      var c := clients[s];
      if c.mask[room] == 0 {
        clients[s] := c.(mask := c.mask[room := m]);
        hook[room] := hook[room].(many := ToCount(hook[room].many + 1));
      } else {
        clients[s] := c.(mask := c.mask[room := Join(c.mask[room], m)]);
      }
      assert clients[..] == bus.clients[s := clients[s]] && hook[..] == bus.board.hooks[room := hook[room]];
      SubscribeOk(bus, s, room, m);
    }

    /** insert_symbol_to_board for the client of slot `s`, whose working mask is `next`. */
    method InsertFor(s: nat, next: array<Mask>, code: bytes, m: Mask) returns (room: int)
      requires Valid() && s < clients.Length && Working(next)
      modifies this`valr, symb, hook, clients, next
      ensures Valid() && (Work(View(), next[..]), room) == InsertSymbol(Work(old(View()), old(next[..])), s, code, m)
    {
      hide BoardOk, Place, Placed, Join, Subscribe;
      ghost var w := Work(View(), next[..]);
      PlaceOk(TheBoard(), code);
      room := PlaceSymbol(code);
      assert View() == w.bus.(board := Place(w.bus.board, code).0);
      if room < 0 {
        return;
      }
      SubscribeFor(s, room, m);
      next[room] := Join(next[room], m);
      assert next[..] == w.next[room := Join(w.next[room], m)];
    }

    /** One turn of the loop of check_command_for_client. */
    method RunCommand(s: nat, next: array<Mask>, c: Command)
      requires Valid() && s < clients.Length && Working(next)
      modifies this`valr, symb, hook, clients, next
      ensures Valid() && Work(View(), next[..]) == Step(Work(old(View()), old(next[..])), s, c)
    {
      hide BoardOk, InsertSymbol, Search, Without;
      ghost var w := Work(View(), next[..]);
      if c.func == RST_SYMB {
        forall r | 0 <= r < next.Length {
          next[r] := 0;
        }
        assert next[..] == seq(|w.next|, _ => 0);
      }
      if c.func == RST_SYMB || c.func == INS_SYMB {
        if c.mask != 0 {
          var _ := InsertFor(s, next, c.code, c.mask);
        }
      } else if c.func == SET_MASK {
        var room := InsertFor(s, next, c.code, c.mask);
        if 0 <= room < next.Length {
          next[room] := c.mask;
        }
      } else if c.func == DEL_MASK {
        var room := SearchSymbol(c.code);
        if 0 <= room < next.Length {
          next[room] := Without(next[room], c.mask);
        }
      } else if c.func == DEL_SYMB {
        var room := SearchSymbol(c.code);
        if 0 <= room < next.Length {
          next[room] := 0;
        }
      }
    }

    /** check_command_for_client, with the checks of its caller. */
    method CheckCommand(s: int, cmds: seq<Command>)
      requires Valid()
      modifies this`valr, symb, hook, clients
      ensures Valid() && View() == Batch(old(View()), s, cmds)
    {
      hide BoardOk, Step, Commit;
      if !(0 <= s < clients.Length) || clients[s].sock != s || clients[s].flag != LOCAL || |cmds| <= 0 {
        return;
      }
      ghost var w := Work(View(), clients[s].mask);
      var next := new Mask[hook.Length](r requires 0 <= r < hook.Length && |clients[s].mask| == hook.Length
                                          reads this, clients, hook => clients[s].mask[r]);
      assert next[..] == w.next;
      var i := 0;
      while i < |cmds|
        invariant i <= |cmds| && Valid() && Working(next)
        invariant Work(View(), next[..]) == RunSteps(w, s, cmds[..i])
      {
        RunCommand(s, next, cmds[i]);
        assert cmds[..i + 1][..i] == cmds[..i];
        i := i + 1;
      }
      assert cmds[..i] == cmds;
      CommitWork(s, next);
    }

    method CommitRoom(s: nat, r: nat, m: Mask)
      requires s < clients.Length && r < |clients[s].mask| && r < hook.Length
      modifies hook, clients
      ensures clients[s] == old(clients[s]).(mask := old(clients[s]).mask[r := m])
      ensures hook[r] == old(hook[r]).(many := Settled(old(hook[r]).many, old(clients[s]).mask[r], m))
      ensures forall j :: 0 <= j < clients.Length && j != s ==> clients[j] == old(clients[j])
      ensures forall k :: 0 <= k < hook.Length && k != r ==> hook[k] == old(hook[k])
    {
      if m == 0 && clients[s].mask[r] != 0 && hook[r].many > 0 {
        hook[r] := hook[r].(many := hook[r].many - 1);
      }
      clients[s] := clients[s].(mask := clients[s].mask[r := m]);
    }

    /** Its last loop: rooms that the client left are counted down, and its mask is replaced. */
    method CommitWork(s: nat, next: array<Mask>)
      requires Valid() && s < clients.Length && Working(next)
      modifies hook, clients
      ensures Valid() && View() == Commit(Work(old(View()), next[..]), s)
    {
      hide BoardOk, Commit, Settled;
      ghost var w := Work(View(), next[..]);
      ghost var c := clients[s];
      var r := 0;
      while r < hook.Length
        invariant r <= hook.Length && |clients[s].mask| == hook.Length
        invariant clients[s] == c.(mask := clients[s].mask)
        invariant forall k :: 0 <= k < hook.Length ==> clients[s].mask[k] == if k < r then next[k] else c.mask[k]
        invariant forall j :: 0 <= j < clients.Length && j != s ==> clients[j] == w.bus.clients[j]
        invariant forall k :: 0 <= k < hook.Length ==>
                    var h := w.bus.board.hooks[k];
                    hook[k] == h.(many := if k < r then Settled(h.many, c.mask[k], next[k]) else h.many)
      {
        CommitRoom(s, r, next[r]);
        r := r + 1;
      }
      CommitOk(w, s);
      CommittedIs(w, s, View());
    }

    // ----- connections

    /** accept_client, after accept() gave `sock`; `local` and `written`: what peer and socket turn out to be. */
    method AcceptClient(sock: int, local: bool, written: bool)
      requires Valid()
      modifies this`linked, clients
      ensures Valid() && View() == Accept(old(View()), sock, local, written)
    {
      hide BoardOk;
      if !(0 <= sock < clients.Length) {
        return;
      }
      ghost var bus := View();
      clients[sock] := clients[sock].(mask := seq(|clients[sock].mask|, _ => 0));
      clients[sock] := clients[sock].(sock := sock);
      if local {
        clients[sock] := clients[sock].(flag := LOCAL);
        if !written {
          clients[sock] := clients[sock].(sock := -1);
        } else if linked <= sock {
          linked := sock + 1;
        }
      }
      assert clients[..] == bus.clients[sock := clients[sock]];
    }

    /** The first loop of close_client: the client leaves every room it has bits at. */
    method LeaveRooms(s: nat)
      requires Valid() && s < clients.Length
      modifies hook, clients
      ensures Valid() && View() == Commit(Work(old(View()), seq(hook.Length, _ => 0)), s)
    {
      hide BoardOk, Commit, Settled;
      ghost var w := Work(View(), seq(hook.Length, _ => 0));
      ghost var c := clients[s];
      var r := 0;
      while r < hook.Length
        invariant r <= hook.Length && |clients[s].mask| == hook.Length
        invariant clients[s] == c.(mask := clients[s].mask)
        invariant forall k :: 0 <= k < hook.Length ==> clients[s].mask[k] == if k < r then 0 else c.mask[k]
        invariant forall j :: 0 <= j < clients.Length && j != s ==> clients[j] == w.bus.clients[j]
        invariant forall k :: 0 <= k < hook.Length ==>
                    var h := w.bus.board.hooks[k];
                    hook[k] == h.(many := if k < r then Settled(h.many, c.mask[k], 0) else h.many)
      {
        CommitRoom(s, r, 0);
        r := r + 1;
      }
      CommitOk(w, s);
      CommittedIs(w, s, View());
    }

    /** close_client */
    method CloseClient(sock: nat)
      requires Valid() && sock < clients.Length
      modifies this`linked, hook, clients
      ensures Valid() && View() == Close(old(View()), sock)
    {
      hide BoardOk, Commit;
      if clients[sock].sock != sock {
        return;
      }
      ghost var bus := View();
      LeaveRooms(sock);
      ghost var left := View();
      clients[sock] := clients[sock].(sock := -1);
      assert clients[..] == left.clients[sock := clients[sock]];
      var i, top := 0, 0;
      while i < clients.Length
        invariant i <= clients.Length && top == Top(clients[..], i)
      {
        if clients[i].sock == i {
          top := i + 1;
        }
        i := i + 1;
      }
      linked := top;
    }

    // ----- sending

    /**
     * One alarm in send_to_client for thread `k` of `threads`: `got` says what the write to each slot comes to. It is
     * the turns of that thread, one after the other, until the linked slots are used up.
     */
    method SendAlarms(k: nat, threads: nat, room: nat, event: Mask, got: nat -> Outcome)
      returns (tried: seq<nat>, sent: seq<nat>, ghost turns: seq<nat>, ghost last: nat)
      requires Valid() && LinkedBelow(View()) && k < threads
      modifies this`linked, hook, clients
      ensures Valid() && LinkedBelow(View()) && last >= linked
      ensures forall t :: 0 <= t < |turns| ==> turns[t] == k
      ensures var start := FanStart(old(View()), threads);
              Turns(start, room, event, got, turns) == Fan(View(), start.pos[k := last], tried, sent)
    {
      hide BoardOk, LinkedBelow, Close, Meets;
      ghost var start := FanStart(View(), threads);
      var i := k;
      tried, sent, turns := [], [], [];
      while i < linked
        invariant Valid() && LinkedBelow(View()) && clients.Length == |start.bus.clients|
        invariant forall t :: 0 <= t < |turns| ==> turns[t] == k
        invariant Turns(start, room, event, got, turns) == Fan(View(), start.pos[k := i], tried, sent)
        decreases clients.Length - i
      {
        ghost var f := Fan(View(), start.pos[k := i], tried, sent);
        TurnBus(f, room, event, k, got);
        TurnsSnoc(start, room, event, got, turns, k);
        turns := turns + [k];
        if Matches(clients[..], i, room, event) {
          tried := tried + [i];
          match got(i) {
            case Written => sent := sent + [i];
            case WouldBlock =>
            case Failed => CloseClient(i);
          }
        }
        assert start.pos[k := i][k := i + threads] == start.pos[k := i + threads];
        i := i + threads;
      }
      last := i;
    }
  }

  lemma {:induction false} TurnsSnoc(f: Fan, room: nat, event: Mask, got: nat -> Outcome, turns: seq<nat>, k: nat)
    requires BusOk(f.bus) && LinkedBelow(f.bus) && k < |f.pos|
    requires forall u :: 0 <= u < |turns| ==> turns[u] < |f.pos|
    ensures var g := Turns(f, room, event, got, turns);
            && BusOk(g.bus) && LinkedBelow(g.bus) && |g.pos| == |f.pos| && g.bus.linked <= |g.bus.clients|
            && Turns(f, room, event, got, turns + [k]) == Turn(g, room, event, k, got)
    decreases |turns|
  {
    hide BoardOk, Close, Matches;
    if |turns| > 0 {
      TurnBus(f, room, event, turns[0], got);
      TurnsSnoc(Turn(f, room, event, turns[0], got), room, event, got, turns[1..], k);
      assert (turns + [k])[1..] == turns[1..] + [k];
    }
  }

  lemma CommittedIs(w: Work, s: nat, bus: Bus)
    requires s < |w.bus.clients| == |bus.clients| && |bus.board.hooks| == |w.bus.board.hooks| == |w.next|
             == |w.bus.clients[s].mask|
    requires bus == w.bus.(clients := bus.clients, board := w.bus.board.(hooks := bus.board.hooks))
    requires bus.clients[s] == w.bus.clients[s].(mask := bus.clients[s].mask) && |bus.clients[s].mask| == |w.next|
    requires forall k :: 0 <= k < |w.next| ==> bus.clients[s].mask[k] == w.next[k]
    requires forall j :: 0 <= j < |bus.clients| && j != s ==> bus.clients[j] == w.bus.clients[j]
    requires forall k :: 0 <= k < |w.next| ==>
               var h := w.bus.board.hooks[k];
               bus.board.hooks[k] == h.(many := Settled(h.many, w.bus.clients[s].mask[k], w.next[k]))
    ensures bus == Commit(w, s)
  {
    hide Settled;
    assert bus.clients[s].mask == w.next;
    assert bus.board.hooks == Commit(w, s).board.hooks && bus.clients == Commit(w, s).clients;
  }

  lemma SubscribeOk(bus: Bus, s: nat, room: nat, m: Mask)
    requires BusOk(bus) && s < |bus.clients| && room < |bus.board.hooks|
    ensures BusOk(Subscribe(bus, s, room, m))
  {
  }

  lemma LoadedIs(b: Board, codes: seq<bytes>, b': Board)
    requires |codes| <= |b.symbs| == |b.hooks| == |b'.symbs| == |b'.hooks|
    requires b'.valr == |codes| && b'.dynamic == b.dynamic
    requires forall k :: 0 <= k < |b.symbs| ==>
               b'.symbs[k] == if k < |codes| then Sort(Lines(codes))[k].(seqn := ToShort(k)) else b.symbs[k]
    requires forall k :: 0 <= k < |b.hooks| ==>
               b'.hooks[k] == if k < |codes| then b.hooks[k].(code := Sort(Lines(codes))[k].code, mark := true)
                              else b.hooks[k]
    ensures b' == Load(b, codes)
  {
  }

  lemma StoredIs(b: Board, i: nat, room: nat, code: bytes, t: seq<Symb>, b': Board)
    requires i < |b.symbs| && i <= b.valr <= |b.symbs| && room < |b.hooks| && ToShort(room) == room
    requires b'.valr == (if i < b.valr then b.valr else i + 1) && b'.dynamic == b.dynamic
    requires t == b.symbs[i := Symb(code, room, false)][..b'.valr] && Position(Sort(t), code) < |Sort(t)|
    requires b'.symbs == (Sort(t) + b.symbs[i := Symb(code, room, false)][b'.valr..])
                           [Position(Sort(t), code) := Sort(t)[Position(Sort(t), code)].(mark := true)]
    requires b'.hooks == b.hooks[room := Hook(code, 0, true)]
    ensures b' == StoreNew(b, i, room, code)
  {
  }
}
