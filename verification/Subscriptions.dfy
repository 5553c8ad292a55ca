/**
 * Subscriptions of the push bus, as steps on values: clients hold a mask per room of the symbol board, and each
 * room counts the clients that listen to it. Broker.dfy runs the same steps on arrays.
 */
module Subscriptions {
  import opened Bytes
  import opened Masks
  import opened SymbolBoard

  const LOCAL := 1

  datatype Client = Client(sock: int, flag: int, mask: seq<Mask>)

  /** Client slots are indexed by descriptor; a slot is linked when it holds its own descriptor. */
  datatype Bus = Bus(board: Board, clients: seq<Client>, linked: nat)

  predicate Holds(cs: seq<Client>, i: nat, r: nat)
    requires i < |cs|
  {
    cs[i].sock == i && r < |cs[i].mask| && cs[i].mask[r] != 0
  }

  ghost function Listeners(cs: seq<Client>, r: nat): set<nat> {
    set i: nat | i < |cs| && Holds(cs, i, r)
  }

  ghost predicate BusOk(bus: Bus) {
    && BoardOk(bus.board)
    && forall i :: 0 <= i < |bus.clients| ==> |bus.clients[i].mask| == |bus.board.hooks|
  }

  /** Nobody is counted at a room whose symbol is marked deleted, or at an unused room. */
  ghost predicate Quiet(b: Board)
    requires BoardOk(b)
  {
    && (forall c ::
          var x := Entry(Live(b), c);
          x.Some? && !x.value.mark && 0 <= x.value.seqn < |b.hooks| ==> b.hooks[x.value.seqn].many == 0)
    && forall r :: b.valr <= r < |b.hooks| ==> b.hooks[r].many == 0
  }

  /** Each room counts its listeners, and `extra` more. */
  ghost predicate Accounted(bus: Bus, extra: seq<nat>) {
    && |extra| == |bus.board.hooks|
    && forall r :: 0 <= r < |extra| ==> bus.board.hooks[r].many == |Listeners(bus.clients, r)| + extra[r]
  }

  /** The counts fit their 16-bit field. */
  ghost predicate Bounded(bus: Bus, extra: seq<nat>) {
    forall r :: 0 <= r < |extra| ==> |bus.clients| + extra[r] <= 0xFFFF
  }

  /** Masks with no bit at an uncounted room. */
  ghost predicate Covered(mask: seq<Mask>, b: Board) {
    && |mask| == |b.hooks|
    && forall r :: 0 <= r < |mask| && mask[r] != 0 ==> b.hooks[r].many > 0
  }

  /** What a mask says about a code: nothing unless the code is on the board and valid. */
  function Sub(b: Board, mask: seq<Mask>, code: bytes): Mask
    requires b.valr <= |b.symbs|
  {
    var r := Search(b, code);
    if 0 <= r < |mask| then mask[r] else 0
  }

  // ----- commands

  /** A client command: `func` is one of the constants below, anything else is ignored. */
  datatype Command = Command(func: int, mask: Mask, code: bytes)

  const RST_SYMB := 1
  const INS_SYMB := 2
  const SET_MASK := 3
  const DEL_MASK := 4
  const DEL_SYMB := 5

  /** A batch under way: the bus, and the working copy that replaces the client's mask at the end. */
  datatype Work = Work(bus: Bus, next: seq<Mask>)

  ghost predicate Shape(w: Work, s: nat) {
    BusOk(w.bus) && s < |w.bus.clients| && |w.next| == |w.bus.board.hooks|
  }

  /** The client half of insert_symbol_to_board. */
  function Subscribe(bus: Bus, s: nat, room: nat, m: Mask): Bus
    requires s < |bus.clients| && room < |bus.clients[s].mask| && room < |bus.board.hooks|
  {
    var c := bus.clients[s];
    if c.mask[room] == 0 then
      var h := bus.board.hooks[room];
      bus.(clients := bus.clients[s := c.(mask := c.mask[room := m])],
           board := bus.board.(hooks := bus.board.hooks[room := h.(many := ToCount(h.many + 1))]))
    else
      bus.(clients := bus.clients[s := c.(mask := c.mask[room := Join(c.mask[room], m)])])
  }

  lemma SubscribeShape(bus: Bus, s: nat, room: nat, m: Mask)
    requires BusOk(bus) && s < |bus.clients| && room < |bus.board.hooks|
    ensures var bus' := Subscribe(bus, s, room, m);
            BusOk(bus') && |bus'.clients| == |bus.clients| && |bus'.board.hooks| == |bus.board.hooks|
  {
  }

  lemma PlaceShape(b: Board, code: bytes)
    requires BoardOk(b)
    ensures var (b', room) := Place(b, code);
            BoardOk(b') && |b'.hooks| == |b.hooks| && -1 <= room < |b.hooks|
  {
    PlaceOk(b, code);
    hide BoardOk, Place;
  }

  /** insert_symbol_to_board for a client. */
  function InsertSymbol(w: Work, s: nat, code: bytes, m: Mask): (r: (Work, int))
    requires Shape(w, s)
    ensures Shape(r.0, s) && -1 <= r.1 < |w.next| && r.1 == Place(w.bus.board, code).1
    ensures |r.0.next| == |w.next| && |r.0.bus.clients| == |w.bus.clients|
  {
    var (b, room) := Place(w.bus.board, code);
    PlaceShape(w.bus.board, code);
    var bus := w.bus.(board := b);
    if room < 0 then (w.(bus := bus), room)
    else
      SubscribeShape(bus, s, room, m);
      (Work(Subscribe(bus, s, room, m), w.next[room := Join(w.next[room], m)]), room)
  }

  function Step(w: Work, s: nat, c: Command): (r: Work)
    requires Shape(w, s)
    ensures Shape(r, s) && |r.next| == |w.next| && |r.bus.clients| == |w.bus.clients|
  {
    if c.func == RST_SYMB then
      var cleared := w.(next := seq(|w.next|, _ => 0));
      if c.mask == 0 then cleared else InsertSymbol(cleared, s, c.code, c.mask).0
    else if c.func == INS_SYMB then
      if c.mask == 0 then w else InsertSymbol(w, s, c.code, c.mask).0
    else if c.func == SET_MASK then
      var (w', room) := InsertSymbol(w, s, c.code, c.mask);
      if room < 0 then w' else w'.(next := w'.next[room := c.mask])
    else if c.func == DEL_MASK || c.func == DEL_SYMB then
      var room := Search(w.bus.board, c.code);
      if !(0 <= room < |w.next|) then w
      else w.(next := w.next[room := if c.func == DEL_MASK then Without(w.next[room], c.mask) else 0])
    else w
  }

  function RunSteps(w: Work, s: nat, cmds: seq<Command>): (r: Work)
    requires Shape(w, s)
    ensures Shape(r, s) && |r.next| == |w.next| && |r.bus.clients| == |w.bus.clients|
  {
    if |cmds| == 0 then w else Step(RunSteps(w, s, cmds[..|cmds| - 1]), s, cmds[|cmds| - 1])
  }

  /** The count of a room after the batch. */
  function Settled(many: nat, live: Mask, next: Mask): nat {
    if next == 0 && live != 0 && many > 0 then many - 1 else many
  }

  /** The end of a batch: rooms the client left are counted down, and the working copy becomes its mask. */
  function Commit(w: Work, s: nat): Bus
    requires s < |w.bus.clients| && |w.bus.clients[s].mask| == |w.next| == |w.bus.board.hooks|
  {
    var c, hs := w.bus.clients[s], w.bus.board.hooks;
    w.bus.(clients := w.bus.clients[s := c.(mask := w.next)],
           board := w.bus.board.(hooks := seq(|hs|, r requires 0 <= r < |hs| =>
                                            hs[r].(many := Settled(hs[r].many, c.mask[r], w.next[r])))))
  }

  /** check_command_for_client, with the checks of its caller. */
  function Batch(bus: Bus, s: int, cmds: seq<Command>): Bus
    requires BusOk(bus)
  {
    if 0 <= s < |bus.clients| && bus.clients[s].sock == s && bus.clients[s].flag == LOCAL && |cmds| > 0 then
      Commit(RunSteps(Work(bus, bus.clients[s].mask), s, cmds), s)
    else bus
  }
}
