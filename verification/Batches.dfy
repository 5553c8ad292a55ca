/** Whole command batches: what they do to each code's mask, and exactly when the listener counts stay right. */
module Batches {
  import opened Bytes
  import opened Masks
  import opened SymbolCodes
  import opened SymbolBoard
  import opened Subscriptions
  import opened Accounting

  /** A command message holds at most this many commands. */
  const MAX_BATCH: nat := 2340

  /** So that the counts, with all that one batch can leak, fit 16 bits. */
  const MAX_CLIENTS: nat := 0xFFFF - MAX_BATCH

  // ----- the reference meaning of a batch, code by code

  function SubFold(cmds: seq<Command>, landed: seq<bool>, code: bytes, m: Mask): Mask
    requires |landed| == |cmds|
  {
    var n := |cmds|;
    if n == 0 then m else SubStep(cmds[n - 1], landed[n - 1], code, SubFold(cmds[..n - 1], landed[..n - 1], code, m))
  }

  /** The same on the events of the mask. */
  ghost function EventFold(cmds: seq<Command>, landed: seq<bool>, code: bytes, events: set<nat>): set<nat>
    requires |landed| == |cmds|
  {
    var n := |cmds|;
    if n == 0 then events
    else EventStep(cmds[n - 1], landed[n - 1], code, EventFold(cmds[..n - 1], landed[..n - 1], code, events))
  }

  lemma {:induction false} FoldEvents(cmds: seq<Command>, landed: seq<bool>, code: bytes, m: Mask)
    requires |landed| == |cmds|
    ensures Bits(SubFold(cmds, landed, code, m)) == EventFold(cmds, landed, code, Bits(m))
  {
    hide Bits, SubStep, EventStep;
    var n := |cmds|;
    if n > 0 {
      FoldEvents(cmds[..n - 1], landed[..n - 1], code, m);
      StepEvents(cmds[n - 1], landed[n - 1], code, SubFold(cmds[..n - 1], landed[..n - 1], code, m));
    }
  }

  function Given(cmds: seq<Command>, landed: seq<bool>, code: bytes, m: Mask): Mask
    requires |landed| == |cmds|
  {
    var n := |cmds|;
    if n == 0 then m else GivenStep(cmds[n - 1], landed[n - 1], code, Given(cmds[..n - 1], landed[..n - 1], code, m))
  }

  /** Which commands of the batch find a room for their code on the board. */
  function LandedAll(w: Work, s: nat, cmds: seq<Command>): (r: seq<bool>)
    requires Shape(w, s)
    ensures |r| == |cmds|
  {
    var n := |cmds|;
    if n == 0 then []
    else LandedAll(w, s, cmds[..n - 1]) + [Landed(RunSteps(w, s, cmds[..n - 1]), s, cmds[n - 1])]
  }

  ghost function RunLeak(w: Work, s: nat, cmds: seq<Command>, extra: seq<nat>): (r: seq<nat>)
    requires Shape(w, s)
    ensures |r| == |extra|
    ensures forall k :: 0 <= k < |extra| ==> extra[k] <= r[k] <= extra[k] + |cmds|
  {
    var n := |cmds|;
    if n == 0 then extra
    else StepLeak(RunSteps(w, s, cmds[..n - 1]), s, cmds[n - 1], RunLeak(w, s, cmds[..n - 1], extra))
  }

  /** A zero mask set for a code that the client did not have before the batch (`m`) nor got during it so far. */
  predicate Leaky(cmds: seq<Command>, landed: seq<bool>, i: nat, m: Mask)
    requires i < |cmds| == |landed|
  {
    && cmds[i].func == SET_MASK && cmds[i].mask == 0 && landed[i]
    && Given(cmds[..i], landed[..i], cmds[i].code, m) == 0
  }

  ghost predicate LeaksAt(w: Work, s: nat, cmds: seq<Command>, i: nat)
    requires Shape(w, s) && i < |cmds|
  {
    Leaky(cmds, LandedAll(w, s, cmds), i, Sub(w.bus.board, w.bus.clients[s].mask, cmds[i].code))
  }

  // ----- running the commands

  lemma OthersKeptTransitive(a: Bus, b: Bus, c: Bus, s: nat)
    requires BusOk(a) && BusOk(b) && BusOk(c) && OthersKept(a, b, s) && OthersKept(b, c, s)
    ensures OthersKept(a, c, s)
  {
    hide BoardOk, Sub;
  }

  ghost predicate Ran(w: Work, w': Work, s: nat, cmds: seq<Command>, landed: seq<bool>)
    requires Shape(w, s) && Shape(w', s) && |landed| == |cmds|
  {
    && OthersKept(w.bus, w'.bus, s)
    && (forall code :: Sub(w'.bus.board, w'.next, code) == SubFold(cmds, landed, code, Sub(w.bus.board, w.next, code)))
    && (forall code :: Sub(w'.bus.board, w'.bus.clients[s].mask, code)
                    == Given(cmds, landed, code, Sub(w.bus.board, w.bus.clients[s].mask, code)))
  }

  lemma {:induction false} RunKeeps(w: Work, s: nat, cmds: seq<Command>, extra: seq<nat>)
    requires Working(w, s, extra) && forall r :: 0 <= r < |extra| ==> |w.bus.clients| + extra[r] + |cmds| <= 0xFFFF
    ensures Working(RunSteps(w, s, cmds), s, RunLeak(w, s, cmds, extra))
    ensures Ran(w, RunSteps(w, s, cmds), s, cmds, LandedAll(w, s, cmds))
  {
    hide Quiet, Accounted, Sub, Step, StepLeak, Landed, SubStep, GivenStep, BoardOk, Place;
    var n := |cmds|;
    if n > 0 {
      var w', e := RunSteps(w, s, cmds[..n - 1]), RunLeak(w, s, cmds[..n - 1], extra);
      RunKeeps(w, s, cmds[..n - 1], extra);
      StepKeeps(w', s, cmds[n - 1], e);
      OthersKeptTransitive(w.bus, w'.bus, RunSteps(w, s, cmds).bus, s);
      assert LandedAll(w, s, cmds)[..n - 1] == LandedAll(w, s, cmds[..n - 1]);
    } else {
      TableFits(w.bus.board);
    }
  }

  lemma LeakMeans(w: Work, s: nat, c: Command, extra: seq<nat>)
    requires Working(w, s, extra)
    ensures StepLeak(w, s, c, extra) == extra <==>
              !(c.func == SET_MASK && c.mask == 0 && Landed(w, s, c)
                && Sub(w.bus.board, w.bus.clients[s].mask, c.code) == 0)
  {
    PlaceKeepsWork(w, s, c.code, extra);
    var (b, room) := Place(w.bus.board, c.code);
    hide Quiet, Accounted, Place, OthersKept, Search;
    if room >= 0 {
      assert Sub(b, w.bus.clients[s].mask, c.code) == w.bus.clients[s].mask[room];
    }
  }

  lemma {:induction false} RunLeaks(w: Work, s: nat, cmds: seq<Command>, extra: seq<nat>)
    requires Working(w, s, extra) && forall r :: 0 <= r < |extra| ==> |w.bus.clients| + extra[r] + |cmds| <= 0xFFFF
    ensures RunLeak(w, s, cmds, extra) == extra <==> forall i :: 0 <= i < |cmds| ==> !LeaksAt(w, s, cmds, i)
  {
    hide Quiet, Accounted, Sub, Step, StepLeak, Landed, SubStep, GivenStep, BoardOk, Place, OthersKept, LeaksAt;
    var n := |cmds|;
    if n > 0 {
      var before := cmds[..n - 1];
      var w', e := RunSteps(w, s, before), RunLeak(w, s, before, extra);
      RunKeeps(w, s, before, extra);
      RunLeaks(w, s, before, extra);
      LeakMeans(w', s, cmds[n - 1], e);
      LastLeak(w, s, cmds, extra);
      forall i | 0 <= i < n - 1 ensures LeaksAt(w, s, cmds, i) <==> LeaksAt(w, s, before, i) {
        EarlierLeak(w, s, cmds, i);
      }
      assert RunLeak(w, s, cmds, extra) == extra <==> e == extra && StepLeak(w', s, cmds[n - 1], e) == e;
    }
  }

  lemma LastLeak(w: Work, s: nat, cmds: seq<Command>, extra: seq<nat>)
    requires Working(w, s, extra) && forall r :: 0 <= r < |extra| ==> |w.bus.clients| + extra[r] + |cmds| <= 0xFFFF
    requires |cmds| > 0
    ensures var c, w' := cmds[|cmds| - 1], RunSteps(w, s, cmds[..|cmds| - 1]);
            w'.bus.board.valr <= |w'.bus.board.symbs| &&
            (LeaksAt(w, s, cmds, |cmds| - 1) <==>
              c.func == SET_MASK && c.mask == 0 && Landed(w', s, c)
              && Sub(w'.bus.board, w'.bus.clients[s].mask, c.code) == 0)
  {
    hide Quiet, Accounted, Sub, Step, StepLeak, Landed, SubStep, GivenStep, BoardOk, Place, OthersKept, SubFold, Given;
    var n := |cmds|;
    RunKeeps(w, s, cmds[..n - 1], extra);
    TableFits(RunSteps(w, s, cmds[..n - 1]).bus.board);
    TableFits(w.bus.board);
    assert LandedAll(w, s, cmds)[..n - 1] == LandedAll(w, s, cmds[..n - 1]);
  }

  lemma EarlierLeak(w: Work, s: nat, cmds: seq<Command>, i: nat)
    requires Shape(w, s) && i < |cmds| - 1
    ensures LeaksAt(w, s, cmds, i) <==> LeaksAt(w, s, cmds[..|cmds| - 1], i)
  {
    hide Given, Sub, Landed, RunSteps, BoardOk;
    var n := |cmds|;
    var a, b := LandedAll(w, s, cmds), LandedAll(w, s, cmds[..n - 1]);
    TableFits(w.bus.board);
    assert a == b + [a[n - 1]];
    assert cmds[..n - 1][..i] == cmds[..i] && a[..i] == b[..i] && a[i] == b[i];
  }

  // ----- the end of the batch

  lemma CommitKeeps(w: Work, s: nat, extra: seq<nat>)
    requires Working(w, s, extra)
    ensures var bus := Commit(w, s);
            && BusOk(bus) && Quiet(bus.board) && Accounted(bus, extra) && OthersKept(w.bus, bus, s)
            && Live(bus.board) == Live(w.bus.board)
            && forall code :: Sub(bus.board, w.next, code) == Sub(w.bus.board, w.next, code)
  {
    CommitCounts(w, s, extra);
    CommitQuiet(w, s);
    hide Sorted, RoomsOk, Position, Quiet, Accounted;
    var bus := Commit(w, s);
    forall code ensures Search(bus.board, code) == Search(w.bus.board, code) {
      assert Live(bus.board) == Live(w.bus.board);
    }
  }

  lemma CommitCounts(w: Work, s: nat, extra: seq<nat>)
    requires Working(w, s, extra)
    ensures Accounted(Commit(w, s), extra)
  {
    hide BoardOk, Quiet, Listeners;
    var bus := Commit(w, s);
    NextIsCovered(w, s, extra);
    forall r | 0 <= r < |extra| ensures bus.board.hooks[r].many == |Listeners(bus.clients, r)| + extra[r] {
      ListenersUpdate(w.bus.clients, s, bus.clients[s], r);
    }
  }

  lemma CommitQuiet(w: Work, s: nat)
    requires Shape(w, s) && Quiet(w.bus.board)
    ensures BusOk(Commit(w, s)) && Quiet(Commit(w, s).board)
  {
  }

  // ----- whole batches

  ghost predicate Exact(bus: Bus) {
    && BusOk(bus) && Quiet(bus.board) && |bus.clients| <= MAX_CLIENTS
    && Accounted(bus, Zeros(|bus.board.hooks|))
  }

  ghost function Zeros(n: nat): seq<nat> {
    seq(n, _ => 0)
  }

  /** The commands are run: the slot is linked to a local client and the message is not empty. */
  predicate Taken(bus: Bus, s: int, cmds: seq<Command>) {
    0 <= s < |bus.clients| && bus.clients[s].sock == s && bus.clients[s].flag == LOCAL && 0 < |cmds| <= MAX_BATCH
  }

  function Started(bus: Bus, s: nat): Work
    requires s < |bus.clients|
  {
    Work(bus, bus.clients[s].mask)
  }

  ghost predicate Leaks(bus: Bus, s: nat, cmds: seq<Command>)
    requires BusOk(bus) && s < |bus.clients|
  {
    exists i :: 0 <= i < |cmds| && LeaksAt(Started(bus, s), s, cmds, i)
  }

  lemma BatchRuns(bus: Bus, s: nat, cmds: seq<Command>)
    requires Exact(bus) && Taken(bus, s, cmds)
    ensures var w := RunSteps(Started(bus, s), s, cmds);
            var leaked := RunLeak(Started(bus, s), s, cmds, Zeros(|bus.board.hooks|));
            && Working(w, s, leaked) && Ran(Started(bus, s), w, s, cmds, LandedAll(Started(bus, s), s, cmds))
            && Batch(bus, s, cmds) == Commit(w, s)
            && (leaked == Zeros(|bus.board.hooks|) <==> !Leaks(bus, s, cmds))
  {
    hide BoardOk, Quiet, Accounted, Sub, RunSteps, RunLeak, Ran, LeaksAt, LandedAll, Commit;
    RunKeeps(Started(bus, s), s, cmds, Zeros(|bus.board.hooks|));
    RunLeaks(Started(bus, s), s, cmds, Zeros(|bus.board.hooks|));
  }

  /**
   * A batch does to each code's events what its commands say in order: insert is union, clear is difference, set
   * replaces, delete and reset empty. Everybody else is left alone.
   */
  lemma BatchMeaning(bus: Bus, s: nat, cmds: seq<Command>)
    requires Exact(bus) && Taken(bus, s, cmds)
    ensures var bus' := Batch(bus, s, cmds);
            && BusOk(bus') && OthersKept(bus, bus', s) && |bus'.clients| == |bus.clients|
            && bus'.clients[s].sock == s && |bus'.board.hooks| == |bus.board.hooks|
            && bus.board.valr <= |bus.board.symbs| && bus'.board.valr <= |bus'.board.symbs|
            && (forall code :: Bits(Sub(bus'.board, bus'.clients[s].mask, code))
                            == EventFold(cmds, LandedAll(Started(bus, s), s, cmds), code,
                                         Bits(Sub(bus.board, bus.clients[s].mask, code))))
            && forall code :: Sub(bus'.board, bus'.clients[s].mask, code)
                           == SubFold(cmds, LandedAll(Started(bus, s), s, cmds), code,
                                      Sub(bus.board, bus.clients[s].mask, code))
  {
    BatchMasks(bus, s, cmds);
    TableFits(bus.board);
    TableFits(Batch(bus, s, cmds).board);
    hide BoardOk, Bits, Sub, SubFold, EventFold, Batch, LandedAll, Exact, OthersKept;
    var landed := LandedAll(Started(bus, s), s, cmds);
    forall code
      ensures Bits(SubFold(cmds, landed, code, Sub(bus.board, bus.clients[s].mask, code)))
           == EventFold(cmds, landed, code, Bits(Sub(bus.board, bus.clients[s].mask, code)))
    {
      FoldEvents(cmds, landed, code, Sub(bus.board, bus.clients[s].mask, code));
    }
  }

  lemma BatchMasks(bus: Bus, s: nat, cmds: seq<Command>)
    requires Exact(bus) && Taken(bus, s, cmds)
    ensures var bus' := Batch(bus, s, cmds);
            && BusOk(bus') && OthersKept(bus, bus', s) && |bus'.clients| == |bus.clients|
            && bus'.clients[s].sock == s && |bus'.board.hooks| == |bus.board.hooks|
            && forall code :: Sub(bus'.board, bus'.clients[s].mask, code)
                           == SubFold(cmds, LandedAll(Started(bus, s), s, cmds), code,
                                      Sub(bus.board, bus.clients[s].mask, code))
  {
    BatchRuns(bus, s, cmds);
    var w := RunSteps(Started(bus, s), s, cmds);
    var leaked := RunLeak(Started(bus, s), s, cmds, Zeros(|bus.board.hooks|));
    CommitKeeps(w, s, leaked);
    OthersKeptTransitive(bus, w.bus, Commit(w, s), s);
    hide BoardOk, Quiet, Accounted, Sub, RunSteps, RunLeak, OthersKept, SubFold, LandedAll, Batch;
  }

  /**
   * The counts stay exact if and only if no command sets a zero mask for a code the client has nothing at; then
   * each room's count changes by whether the client listens there now, less whether it did before.
   */
  lemma BatchCounts(bus: Bus, s: nat, cmds: seq<Command>)
    requires Exact(bus) && Taken(bus, s, cmds)
    ensures var bus' := Batch(bus, s, cmds);
            && (Exact(bus') <==> !Leaks(bus, s, cmds))
            && (!Leaks(bus, s, cmds) ==>
                  forall r :: 0 <= r < |bus.board.hooks| ==>
                    bus'.board.hooks[r].many == bus.board.hooks[r].many
                      + (if bus'.clients[s].mask[r] != 0 then 1 else 0)
                      - (if bus.clients[s].mask[r] != 0 then 1 else 0))
  {
    BatchRuns(bus, s, cmds);
    BatchMeaning(bus, s, cmds);
    var w := RunSteps(Started(bus, s), s, cmds);
    var leaked := RunLeak(Started(bus, s), s, cmds, Zeros(|bus.board.hooks|));
    CommitKeeps(w, s, leaked);
    hide BoardOk, Quiet, Sub, RunSteps, RunLeak, SubFold, LandedAll, Batch, Commit, Leaks, Accounted, Zeros, Ran,
      OthersKept, Working;
    var bus' := Batch(bus, s, cmds);
    if Accounted(bus', Zeros(|bus.board.hooks|)) {
      AccountedOnce(bus', leaked, Zeros(|bus.board.hooks|));
      CountChange(bus, bus', s);
    }
  }

  lemma AccountedOnce(bus: Bus, a: seq<nat>, b: seq<nat>)
    requires Accounted(bus, a) && Accounted(bus, b)
    ensures a == b
  {
    hide Listeners;
  }

  lemma CountChange(bus: Bus, bus': Bus, s: nat)
    requires BusOk(bus) && BusOk(bus') && |bus'.board.hooks| == |bus.board.hooks| && OthersKept(bus, bus', s)
    requires s < |bus.clients| && bus.clients[s].sock == s == bus'.clients[s].sock
    requires Accounted(bus, Zeros(|bus.board.hooks|)) && Accounted(bus', Zeros(|bus.board.hooks|))
    ensures forall r :: 0 <= r < |bus.board.hooks| ==>
              bus'.board.hooks[r].many == bus.board.hooks[r].many
                + (if bus'.clients[s].mask[r] != 0 then 1 else 0) - (if bus.clients[s].mask[r] != 0 then 1 else 0)
  {
    hide BoardOk, Sub, Listeners;
    assert bus'.clients == bus.clients[s := bus'.clients[s]];
    forall r | 0 <= r < |bus.board.hooks|
      ensures bus'.board.hooks[r].many == bus.board.hooks[r].many
                + (if bus'.clients[s].mask[r] != 0 then 1 else 0) - (if bus.clients[s].mask[r] != 0 then 1 else 0)
    {
      ListenersUpdate(bus.clients, s, bus'.clients[s], r);
    }
  }
}
