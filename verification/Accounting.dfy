/**
 * What the command batches keep: every room counts exactly its listeners, recycling a room never disturbs a
 * subscription, and a batch does to each code's mask what its commands say.
 */
module Accounting {
  import opened Bytes
  import opened Masks
  import opened Pigeonhole
  import opened SymbolCodes
  import opened SymbolBoard
  import opened Subscriptions

  // ----- listeners

  lemma ListenersUpdate(cs: seq<Client>, s: nat, c: Client, r: nat)
    requires s < |cs|
    ensures |Listeners(cs[s := c], r)| - (if Holds(cs[s := c], s, r) then 1 else 0)
         == |Listeners(cs, r)| - (if Holds(cs, s, r) then 1 else 0)
  {
    OtherListeners(cs, s, c, r);
    LessOne(Listeners(cs, r), s);
    LessOne(Listeners(cs[s := c], r), s);
    assert s in Listeners(cs, r) <==> Holds(cs, s, r);
    assert s in Listeners(cs[s := c], r) <==> Holds(cs[s := c], s, r);
    hide Listeners, Holds;
  }

  lemma OtherListeners(cs: seq<Client>, s: nat, c: Client, r: nat)
    requires s < |cs|
    ensures Listeners(cs[s := c], r) - {s} == Listeners(cs, r) - {s}
  {
  }

  lemma LessOne(a: set<nat>, s: nat)
    ensures |a - {s}| == |a| - (if s in a then 1 else 0)
  {
    assert a == if s in a then (a - {s}) + {s} else a - {s};
  }

  lemma ListenersBound(cs: seq<Client>, r: nat)
    ensures |Listeners(cs, r)| <= |cs|
    ensures forall s: nat :: s < |cs| && !Holds(cs, s, r) ==> |Listeners(cs, r)| < |cs|
  {
    SubsetSize(Listeners(cs, r), UpTo(|cs|));
    forall s: nat | s < |cs| && !Holds(cs, s, r) ensures |Listeners(cs, r)| < |cs| {
      SubsetSize(Listeners(cs, r) + {s}, UpTo(|cs|));
    }
  }

  lemma HeldIsCounted(bus: Bus, extra: seq<nat>, s: nat)
    requires BusOk(bus) && Accounted(bus, extra) && s < |bus.clients| && bus.clients[s].sock == s
    ensures Covered(bus.clients[s].mask, bus.board)
  {
    hide BoardOk;
    forall r | 0 <= r < |bus.clients[s].mask| && bus.clients[s].mask[r] != 0 ensures bus.board.hooks[r].many > 0 {
      assert s in Listeners(bus.clients, r);
    }
  }

  // ----- placing a symbol

  /** Putting a symbol on the board changes no count, and leaves deleted and unused rooms uncounted. */
  lemma PlacedKeepsCounts(b: Board, code: bytes, b': Board, room: int)
    requires BoardOk(b) && BoardOk(b') && Placed(b, code, b', room) && Quiet(b)
    ensures forall r :: 0 <= r < |b.hooks| ==> b'.hooks[r].many == b.hooks[r].many
    ensures Quiet(b')
  {
    RoomsDiffer(b, code);
    hide Sorted, RoomsOk, Position;
    if room >= 0 && Search(b, code) < 0 {
      assert b.hooks[room].many == 0;
    }
    forall c | Entry(Live(b'), c).Some? && !Entry(Live(b'), c).value.mark
               && 0 <= Entry(Live(b'), c).value.seqn < |b'.hooks|
      ensures b'.hooks[Entry(Live(b'), c).value.seqn].many == 0
    {
      assert c != code && Kept(b, Entry(Live(b), c), Entry(Live(b'), c), room);
    }
  }

  /** Nor does it change what any counted subscription says about any code. */
  lemma PlacedKeepsSubs(b: Board, code: bytes, b': Board, room: int, mask: seq<Mask>)
    requires BoardOk(b) && BoardOk(b') && Placed(b, code, b', room) && Quiet(b) && Covered(mask, b)
    ensures Covered(mask, b')
    ensures forall c :: Sub(b', mask, c) == Sub(b, mask, c)
  {
    PlacedKeepsCounts(b, code, b', room);
    forall c ensures Sub(b', mask, c) == Sub(b, mask, c) {
      if c == code {
        PlacedKeepsOwnSub(b, code, b', room, mask);
      } else {
        PlacedKeepsOtherSub(b, code, b', room, mask, c);
      }
    }
  }

  lemma PlacedKeepsOwnSub(b: Board, code: bytes, b': Board, room: int, mask: seq<Mask>)
    requires BoardOk(b) && BoardOk(b') && Placed(b, code, b', room) && Quiet(b) && Covered(mask, b)
    ensures Sub(b', mask, code) == Sub(b, mask, code)
  {
  }

  lemma PlacedKeepsOtherSub(b: Board, code: bytes, b': Board, room: int, mask: seq<Mask>, c: bytes)
    requires BoardOk(b) && BoardOk(b') && Placed(b, code, b', room) && Quiet(b) && Covered(mask, b) && c != code
    ensures Sub(b', mask, c) == Sub(b, mask, c)
  {
    RoomsDiffer(b, code);
    hide Sorted, RoomsOk, Position;
    assert Kept(b, Entry(Live(b), c), Entry(Live(b'), c), room);
    if Entry(Live(b), c).Some? {
      var r := Entry(Live(b), c).value.seqn;
      assert r == room ==> b.hooks[r].many == 0;
    }
  }

  /** Writing a code's room touches what the mask says about that code only. */
  lemma SubAt(b: Board, code: bytes, mask: seq<Mask>, x: Mask)
    requires BoardOk(b) && 0 <= Search(b, code) < |mask|
    ensures forall c :: Sub(b, mask[Search(b, code) := x], c) == if c == code then x else Sub(b, mask, c)
  {
  }

  // ----- one command

  ghost predicate Working(w: Work, s: nat, extra: seq<nat>) {
    && Shape(w, s) && w.bus.clients[s].sock == s
    && Quiet(w.bus.board) && Accounted(w.bus, extra)
    && forall r :: 0 <= r < |w.next| && w.next[r] != 0 ==> w.bus.clients[s].mask[r] != 0
  }

  /** A zero mask put at a room the client has nothing at is counted and never counted down again. */
  function Leak(extra: seq<nat>, room: int, live: Mask, m: Mask): (r: seq<nat>)
    ensures |r| == |extra|
    ensures forall k :: 0 <= k < |extra| ==> extra[k] <= r[k] <= extra[k] + 1
  {
    if 0 <= room < |extra| && live == 0 && m == 0 then extra[room := extra[room] + 1] else extra
  }

  lemma SubscribeAccounts(bus: Bus, s: nat, room: nat, m: Mask, extra: seq<nat>)
    requires BusOk(bus) && s < |bus.clients| && bus.clients[s].sock == s && room < |bus.board.hooks|
    requires Accounted(bus, extra) && Bounded(bus, extra)
    ensures var bus' := Subscribe(bus, s, room, m);
            && Accounted(bus', Leak(extra, room, bus.clients[s].mask[room], m))
            && forall r :: 0 <= r < |bus.board.hooks| && r != room ==> bus'.board.hooks[r] == bus.board.hooks[r]
  {
    hide BoardOk, Listeners, Join;
    var c := bus.clients[s];
    var bus' := Subscribe(bus, s, room, m);
    MaskLaws(c.mask[room], m);
    ListenersBound(bus.clients, room);
    forall r | 0 <= r < |bus.board.hooks|
      ensures bus'.board.hooks[r].many == |Listeners(bus'.clients, r)| + Leak(extra, room, c.mask[room], m)[r]
    {
      ListenersUpdate(bus.clients, s, bus'.clients[s], r);
    }
  }

  lemma SubscribeQuiet(bus: Bus, s: nat, code: bytes, m: Mask)
    requires BusOk(bus) && s < |bus.clients| && Quiet(bus.board) && 0 <= Search(bus.board, code) < |bus.board.hooks|
    ensures var bus' := Subscribe(bus, s, Search(bus.board, code), m);
            && BusOk(bus') && Quiet(bus'.board) && Live(bus'.board) == Live(bus.board)
  {
    RoomsDiffer(bus.board, code);
    hide Sorted, RoomsOk, Position, Join;
  }

  /** Nobody else's mask changes, and what it says about each code stays the same. */
  ghost predicate OthersKept(bus: Bus, bus': Bus, s: nat)
    requires BusOk(bus) && BusOk(bus')
  {
    && |bus'.clients| == |bus.clients|
    && forall j :: 0 <= j < |bus.clients| && j != s ==>
         && bus'.clients[j] == bus.clients[j]
         && (bus.clients[j].sock == j ==>
               forall c :: Sub(bus'.board, bus.clients[j].mask, c) == Sub(bus.board, bus.clients[j].mask, c))
  }

  /** Two masks, one board later: the same subscriptions, except that `code` gains `m`. */
  ghost predicate Gains(b: Board, mask: seq<Mask>, b': Board, mask': seq<Mask>, code: bytes, gains: bool, m: Mask)
    requires BoardOk(b) && BoardOk(b')
  {
    forall c :: Sub(b', mask', c) == if gains && c == code then Join(Sub(b, mask, c), m) else Sub(b, mask, c)
  }

  lemma NextIsCovered(w: Work, s: nat, extra: seq<nat>)
    requires Working(w, s, extra)
    ensures Covered(w.next, w.bus.board) && Covered(w.bus.clients[s].mask, w.bus.board)
  {
    HeldIsCounted(w.bus, extra, s);
    hide BoardOk, Accounted, Quiet;
  }

  lemma PlaceKeepsWork(w: Work, s: nat, code: bytes, extra: seq<nat>)
    requires Working(w, s, extra)
    ensures var (b, room) := Place(w.bus.board, code);
            var bus := w.bus.(board := b);
            && Working(Work(bus, w.next), s, extra) && OthersKept(w.bus, bus, s)
            && Gains(w.bus.board, w.next, b, w.next, code, false, 0)
            && Gains(w.bus.board, w.bus.clients[s].mask, b, w.bus.clients[s].mask, code, false, 0)
            && (room >= 0 ==> Search(b, code) == room < |w.next|)
  {
    var (b, room) := Place(w.bus.board, code);
    PlaceOk(w.bus.board, code);
    PlacedKeepsCounts(w.bus.board, code, b, room);
    NextIsCovered(w, s, extra);
    PlacedKeepsSubs(w.bus.board, code, b, room, w.next);
    PlacedKeepsSubs(w.bus.board, code, b, room, w.bus.clients[s].mask);
    hide BoardOk, Sub, Kept, RoomFor, Listeners, Quiet, Place;
    forall j | 0 <= j < |w.bus.clients| && j != s && w.bus.clients[j].sock == j
      ensures forall c :: Sub(b, w.bus.clients[j].mask, c) == Sub(w.bus.board, w.bus.clients[j].mask, c)
    {
      HeldIsCounted(w.bus, extra, j);
      PlacedKeepsSubs(w.bus.board, code, b, room, w.bus.clients[j].mask);
    }
  }

  ghost function InsertLeak(w: Work, s: nat, code: bytes, m: Mask, extra: seq<nat>): (r: seq<nat>)
    requires Shape(w, s)
    ensures |r| == |extra|
    ensures forall k :: 0 <= k < |extra| ==> extra[k] <= r[k] <= extra[k] + 1
    ensures m != 0 ==> r == extra
  {
    var room := Place(w.bus.board, code).1;
    PlaceOk(w.bus.board, code);
    if room < 0 then extra else Leak(extra, room, w.bus.clients[s].mask[room], m)
  }

  lemma InsertKeeps(w: Work, s: nat, code: bytes, m: Mask, extra: seq<nat>)
    requires Working(w, s, extra) && Bounded(w.bus, extra)
    ensures var (w', room) := InsertSymbol(w, s, code, m);
            && Working(w', s, InsertLeak(w, s, code, m, extra)) && OthersKept(w.bus, w'.bus, s)
            && Gains(w.bus.board, w.next, w'.bus.board, w'.next, code, room >= 0, m)
            && Gains(w.bus.board, w.bus.clients[s].mask, w'.bus.board, w'.bus.clients[s].mask, code, room >= 0, m)
            && (room >= 0 ==> Search(w'.bus.board, code) == room)
  {
    hide BoardOk, Sub, Quiet, Accounted, Search, Place, Subscribe, Join;
    PlaceKeepsWork(w, s, code, extra);
    PlaceOk(w.bus.board, code);
    var (b, room) := Place(w.bus.board, code);
    var w1 := Work(w.bus.(board := b), w.next);
    if room >= 0 {
      SubscribeAccounts(w1.bus, s, room, m, extra);
      SubscribeQuiet(w1.bus, s, code, m);
      MarkedGains(w1, s, code, m);
    }
  }

  /** Adding bits at a code's room is adding them to what the mask says about the code. */
  lemma GainsAt(b: Board, b': Board, code: bytes, mask: seq<Mask>, m: Mask)
    requires BoardOk(b) && BoardOk(b') && Live(b') == Live(b) && 0 <= Search(b, code) < |mask|
    ensures var room := Search(b, code);
            Search(b', code) == room && Gains(b, mask, b', mask[room := Join(mask[room], m)], code, true, m)
  {
    hide Sorted, RoomsOk, Position, Join;
    SubAt(b, code, mask, Join(mask[Search(b, code)], m));
  }

  /** Once the symbol is valid at its room: both masks gain the bits there and nothing else changes. */
  lemma MarkedGains(w: Work, s: nat, code: bytes, m: Mask)
    requires Shape(w, s) && Quiet(w.bus.board) && 0 <= Search(w.bus.board, code) < |w.next|
             && w.bus.clients[s].sock == s
    requires forall r :: 0 <= r < |w.next| && w.next[r] != 0 ==> w.bus.clients[s].mask[r] != 0
    ensures var room := Search(w.bus.board, code);
            var bus := Subscribe(w.bus, s, room, m);
            var next := w.next[room := Join(w.next[room], m)];
            && BusOk(bus) && bus.clients[s].sock == s && Search(bus.board, code) == room
            && OthersKept(w.bus, bus, s)
            && Gains(w.bus.board, w.next, bus.board, next, code, true, m)
            && Gains(w.bus.board, w.bus.clients[s].mask, bus.board, bus.clients[s].mask, code, true, m)
            && forall r :: 0 <= r < |next| && next[r] != 0 ==> bus.clients[s].mask[r] != 0
  {
    var room, live := Search(w.bus.board, code), w.bus.clients[s].mask;
    var bus := Subscribe(w.bus, s, room, m);
    SubscribeQuiet(w.bus, s, code, m);
    hide BoardOk, Search, Quiet, Sub, Join, Gains, Live;
    MaskLaws(w.next[room], m);
    MaskLaws(live[room], m);
    GainsAt(w.bus.board, bus.board, code, w.next, m);
    GainsAt(w.bus.board, bus.board, code, live, m);
    assert bus.clients[s].mask == live[room := Join(live[room], m)];
    SameSubs(w.bus.board, bus.board);
  }

  lemma SameSubs(b: Board, b': Board)
    requires b.valr <= |b.symbs| && b'.valr <= |b'.symbs| && Live(b') == Live(b)
    ensures forall mask, code :: Sub(b', mask, code) == Sub(b, mask, code)
  {
  }

  /** What a command does to the mask of one code; `landed` says whether the board has a room for the command's. */
  function SubStep(c: Command, landed: bool, code: bytes, m: Mask): Mask {
    var mine := landed && c.code == code;
    if c.func == RST_SYMB then if mine then c.mask else 0
    else if c.func == INS_SYMB then if mine then Join(m, c.mask) else m
    else if c.func == SET_MASK then if mine then c.mask else m
    else if c.func == DEL_MASK then if c.code == code then Without(m, c.mask) else m
    else if c.func == DEL_SYMB then if c.code == code then 0 else m
    else m
  }

  /** The same on the events of the mask: inserting adds, clearing takes away, setting replaces. */
  ghost function EventStep(c: Command, landed: bool, code: bytes, events: set<nat>): set<nat> {
    if c.func == RST_SYMB then if landed && c.code == code then Bits(c.mask) else {}
    else if c.func == INS_SYMB && landed && c.code == code then events + Bits(c.mask)
    else if c.func == SET_MASK && landed && c.code == code then Bits(c.mask)
    else if c.func == DEL_MASK && c.code == code then events - Bits(c.mask)
    else if c.func == DEL_SYMB && c.code == code then {}
    else events
  }

  lemma StepEvents(c: Command, landed: bool, code: bytes, m: Mask)
    ensures Bits(SubStep(c, landed, code, m)) == EventStep(c, landed, code, Bits(m))
  {
    hide Bits, Join, Without;
    BitsLaws(m, c.mask);
    BitsOfNothing(0);
  }

  /** The bits a code has been given: what the client had and what the batch added, never less. */
  function GivenStep(c: Command, landed: bool, code: bytes, m: Mask): Mask {
    if landed && c.code == code && (c.func == RST_SYMB || c.func == INS_SYMB || c.func == SET_MASK) then Join(m, c.mask)
    else m
  }

  predicate Landed(w: Work, s: nat, c: Command)
    requires Shape(w, s)
  {
    Place(w.bus.board, c.code).1 >= 0
  }

  ghost function StepLeak(w: Work, s: nat, c: Command, extra: seq<nat>): (r: seq<nat>)
    requires Shape(w, s)
    ensures |r| == |extra|
    ensures forall k :: 0 <= k < |extra| ==> extra[k] <= r[k] <= extra[k] + 1
  {
    if c.func == SET_MASK then InsertLeak(w, s, c.code, c.mask, extra) else extra
  }

  ghost predicate Steps(w: Work, w': Work, s: nat, c: Command, landed: bool)
    requires Shape(w, s) && Shape(w', s)
  {
    && OthersKept(w.bus, w'.bus, s)
    && (forall code :: Sub(w'.bus.board, w'.next, code) == SubStep(c, landed, code, Sub(w.bus.board, w.next, code)))
    && (forall code :: Sub(w'.bus.board, w'.bus.clients[s].mask, code)
                    == GivenStep(c, landed, code, Sub(w.bus.board, w.bus.clients[s].mask, code)))
  }

  lemma StepKeeps(w: Work, s: nat, c: Command, extra: seq<nat>)
    requires Working(w, s, extra) && Bounded(w.bus, extra)
    ensures Working(Step(w, s, c), s, StepLeak(w, s, c, extra))
    ensures Steps(w, Step(w, s, c), s, c, Landed(w, s, c))
    ensures var w' := Step(w, s, c);
            && w.bus.board.valr <= |w.bus.board.symbs| && w'.bus.board.valr <= |w'.bus.board.symbs|
            && forall code :: Bits(Sub(w'.bus.board, w'.next, code))
                           == EventStep(c, Landed(w, s, c), code, Bits(Sub(w.bus.board, w.next, code)))
  {
    StepIsStep(w, s, c, extra);
    var w' := Step(w, s, c);
    TableFits(w.bus.board);
    TableFits(w'.bus.board);
    hide BoardOk, Bits, Sub, SubStep, EventStep, Step, Landed;
    forall code
      ensures Bits(Sub(w'.bus.board, w'.next, code))
           == EventStep(c, Landed(w, s, c), code, Bits(Sub(w.bus.board, w.next, code)))
    {
      StepEvents(c, Landed(w, s, c), code, Sub(w.bus.board, w.next, code));
    }
  }

  lemma StepIsStep(w: Work, s: nat, c: Command, extra: seq<nat>)
    requires Working(w, s, extra) && Bounded(w.bus, extra)
    ensures Working(Step(w, s, c), s, StepLeak(w, s, c, extra))
    ensures Steps(w, Step(w, s, c), s, c, Landed(w, s, c))
  {
    if c.func == RST_SYMB || c.func == INS_SYMB {
      InsertStep(w, s, c, extra);
    } else if c.func == SET_MASK {
      SetStep(w, s, c, extra);
    } else {
      DeleteStep(w, s, c, extra);
    }
  }

  lemma InsertStep(w: Work, s: nat, c: Command, extra: seq<nat>)
    requires Working(w, s, extra) && Bounded(w.bus, extra) && (c.func == RST_SYMB || c.func == INS_SYMB)
    ensures Working(Step(w, s, c), s, extra) && Steps(w, Step(w, s, c), s, c, Landed(w, s, c))
  {
    hide BoardOk, Sub, Quiet, Accounted, Place, InsertSymbol, Join, SubStep, GivenStep;
    var w1 := if c.func == RST_SYMB then w.(next := seq(|w.next|, _ => 0)) else w;
    ClearedSubs(w, s, seq(|w.next|, _ => 0));
    if c.mask != 0 {
      InsertKeeps(w1, s, c.code, c.mask, extra);
    }
    TableFits(w.bus.board);
    forall code { InsertSubs(c, Landed(w, s, c), code, Sub(w.bus.board, w.next, code)); }
    forall code { InsertSubs(c, Landed(w, s, c), code, Sub(w.bus.board, w.bus.clients[s].mask, code)); }
  }

  lemma TableFits(b: Board)
    requires BoardOk(b)
    ensures b.valr <= |b.symbs| == |b.hooks|
  {
  }

  lemma InsertSubs(c: Command, landed: bool, code: bytes, m: Mask)
    requires c.func == RST_SYMB || c.func == INS_SYMB
    ensures var start := if c.func == RST_SYMB then 0 else m;
            SubStep(c, landed, code, m)
            == if c.mask != 0 && landed && c.code == code then Join(start, c.mask) else start
    ensures GivenStep(c, landed, code, m) == if c.mask != 0 && landed && c.code == code then Join(m, c.mask) else m
  {
  }

  lemma ClearedSubs(w: Work, s: nat, zeros: seq<Mask>)
    requires Shape(w, s) && forall r :: 0 <= r < |zeros| ==> zeros[r] == 0
    ensures forall code :: Sub(w.bus.board, zeros, code) == 0
  {
  }

  lemma SetStep(w: Work, s: nat, c: Command, extra: seq<nat>)
    requires Working(w, s, extra) && Bounded(w.bus, extra) && c.func == SET_MASK
    ensures Working(Step(w, s, c), s, StepLeak(w, s, c, extra)) && Steps(w, Step(w, s, c), s, c, Landed(w, s, c))
  {
    hide BoardOk, Sub, Quiet, Accounted, Place, InsertSymbol, Search, Join, InsertLeak;
    InsertKeeps(w, s, c.code, c.mask, extra);
    var (w', room) := InsertSymbol(w, s, c.code, c.mask);
    if room >= 0 {
      SubAt(w'.bus.board, c.code, w'.next, c.mask);
      LiveRoom(w, s, c.code, c.mask);
    }
  }

  lemma LiveRoom(w: Work, s: nat, code: bytes, m: Mask)
    requires Shape(w, s)
    ensures var (w', room) := InsertSymbol(w, s, code, m);
            room >= 0 && m != 0 ==> w'.bus.clients[s].mask[room] != 0
  {
  }

  lemma DeleteStep(w: Work, s: nat, c: Command, extra: seq<nat>)
    requires Working(w, s, extra) && c.func != RST_SYMB && c.func != INS_SYMB && c.func != SET_MASK
    ensures Working(Step(w, s, c), s, extra) && Steps(w, Step(w, s, c), s, c, Landed(w, s, c))
  {
    hide BoardOk, Quiet, Accounted, Place, Search, Without, Sub, SubStep;
    TableFits(w.bus.board);
    DeleteSubs(w, s, c, Landed(w, s, c));
    var room := Search(w.bus.board, c.code);
    if 0 <= room < |w.next| {
      MaskLaws(w.next[room], c.mask);
    }
    assert OthersKept(w.bus, w.bus, s);
  }

  lemma DeleteSubs(w: Work, s: nat, c: Command, landed: bool)
    requires Shape(w, s) && c.func != RST_SYMB && c.func != INS_SYMB && c.func != SET_MASK
    ensures forall code ::
              Sub(w.bus.board, Step(w, s, c).next, code)
              == SubStep(c, landed, code, Sub(w.bus.board, w.next, code))
  {
    hide BoardOk, Search, Without, Join, Sub, InsertSymbol;
    TableFits(w.bus.board);
    SearchAndSub(w, s, c.code);
    MaskLaws(0, c.mask);
    var room := Search(w.bus.board, c.code);
    if 0 <= room < |w.next| {
      SubAt(w.bus.board, c.code, w.next, Without(w.next[room], c.mask));
      SubAt(w.bus.board, c.code, w.next, 0);
    }
  }

  lemma SearchAndSub(w: Work, s: nat, code: bytes)
    requires Shape(w, s)
    ensures var r := Search(w.bus.board, code);
            Sub(w.bus.board, w.next, code) == if 0 <= r < |w.next| then w.next[r] else 0
  {
  }
}
