/**
 * Any number of threads in rt_packet_push and rt_packet_full at once, interleaved at every lock operation: the
 * locks never end in a deadlock, and the pool stays intact.
 */
module PoolThreads {
  import opened Bytes
  import opened Ring
  import opened PacketPool

  /**
   * Where a thread stands. A pusher (with the messages still to queue) wants the alloc lock, holds it, waits on its
   * condition, has a packet and wants the queue lock, or holds that; `woken` is set once it has waited. A reader
   * (with the number still to take) wants the queue lock, holds it, waits on its condition, has taken a packet and
   * wants the alloc lock as well, or holds both; `first` is set until it has seen a packet or stopped waiting.
   */
  datatype Pc =
    | Idle
    | PushWants(ms: seq<Message>, woken: bool)
    | PushAlloc(ms: seq<Message>, woken: bool)
    | PushWaits(ms: seq<Message>)
    | PushGot(node: nat, ms: seq<Message>)
    | PushQueue(node: nat, ms: seq<Message>)
    | FullWants(left: nat, first: bool)
    | FullQueue(left: nat, first: bool)
    | FullWaits(left: nat)
    | FullFrees(node: nat, left: nat)
    | FullBoth(node: nat, left: nat)

  datatype State = State(log: Log, pcs: seq<Pc>, alloc: Option<nat>, queue: Option<nat>)

  predicate HoldsAlloc(pc: Pc) {
    pc.PushAlloc? || pc.FullBoth?
  }

  predicate HoldsQueue(pc: Pc) {
    pc.PushQueue? || pc.FullQueue? || pc.FullFrees? || pc.FullBoth?
  }

  predicate WantsAlloc(pc: Pc) {
    pc.PushWants? || pc.FullFrees?
  }

  predicate WantsQueue(pc: Pc) {
    pc.PushGot? || pc.FullWants?
  }

  predicate HasNode(pc: Pc) {
    pc.PushGot? || pc.PushQueue? || pc.FullFrees? || pc.FullBoth?
  }

  /**
   * A thread that wants a lock can go on once nobody holds it; one that is calling neither routine cannot by itself.
   */
  predicate CanStep(st: State, t: nat)
    requires t < |st.pcs|
  {
    var pc := st.pcs[t];
    && !pc.Idle?
    && (WantsAlloc(pc) ==> st.alloc == None) && (WantsQueue(pc) ==> st.queue == None)
    && (pc.PushAlloc? || pc.PushQueue? || pc.PushGot? || pc.PushWants? ==> |pc.ms| > 0)
    && (pc.PushQueue? || pc.FullBoth? ==> pc.node in st.log.pool.hand)
  }

  /** What becomes of the thread, of the pool, and of the two locks. */
  datatype Effect = Effect(pc: Pc, log: Log, alloc: Option<nat>, queue: Option<nat>)

  /** The next move of thread `t`; `choice` decides how a wait of a reader ends. */
  function Go(st: State, t: nat, choice: bool): Effect
    requires t < |st.pcs| && CanStep(st, t)
  {
    var pool := st.log.pool;
    match st.pcs[t]
    case PushWants(ms, woken) => Effect(PushAlloc(ms, woken), st.log, Some(t), st.queue)
    case PushAlloc(ms, woken) =>
      if Enabled(pool, Get) then Effect(PushGot(pool.free[0], ms), LogAct(st.log, Get), None, st.queue)
      else if woken then Effect(Idle, st.log, None, st.queue)
      else Effect(PushWaits(ms), st.log, None, st.queue)
    case PushWaits(ms) => Effect(PushWants(ms, true), st.log, st.alloc, st.queue)
    case PushGot(n, ms) => Effect(PushQueue(n, ms), st.log, st.alloc, Some(t))
    case PushQueue(n, ms) =>
      Effect(if |ms| > 1 then PushWants(ms[1..], false) else Idle, LogAct(st.log, Put(n, ms[0])), st.alloc, None)
    case FullWants(left, first) => Effect(FullQueue(left, first), st.log, st.alloc, Some(t))
    case FullQueue(left, first) =>
      if !Enabled(pool, Take) && first && choice then Effect(FullWaits(left), st.log, st.alloc, None)
      else if Enabled(pool, Take) && left > 0 then
        Effect(FullFrees(pool.queue[0], left - 1), LogAct(st.log, Take), st.alloc, st.queue)
      else Effect(Idle, st.log, st.alloc, None)
    case FullWaits(left) => Effect(FullWants(left, choice), st.log, st.alloc, st.queue)
    case FullFrees(n, left) => Effect(FullBoth(n, left), st.log, Some(t), st.queue)
    case FullBoth(n, left) => Effect(FullQueue(left, false), LogAct(st.log, Give(n)), None, st.queue)
  }

  datatype Move =
    | Step(thread: nat, choice: bool)
    | CallPush(thread: nat, ms: seq<Message>)
    | CallFull(thread: nat, howmany: nat)

  predicate Allowed(st: State, m: Move) {
    && m.thread < |st.pcs|
    && if m.Step? then CanStep(st, m.thread) else st.pcs[m.thread].Idle?
  }

  function Next(st: State, m: Move): State
    requires Allowed(st, m)
  {
    match m
    case Step(t, choice) =>
      var e := Go(st, t, choice);
      State(e.log, st.pcs[t := e.pc], e.alloc, e.queue)
    case CallPush(t, ms) => st.(pcs := st.pcs[t := if |ms| > 0 then PushWants(ms, false) else Idle])
    case CallFull(t, howmany) => st.(pcs := st.pcs[t := FullWants(howmany, true)])
  }

  // ----- invariant

  /** Each lock is held by the thread that is inside it, and by no other. */
  ghost predicate LocksOk(st: State) {
    && (forall t: nat :: t < |st.pcs| ==> (HoldsAlloc(st.pcs[t]) <==> st.alloc == Some(t)))
    && (forall t: nat :: t < |st.pcs| ==> (HoldsQueue(st.pcs[t]) <==> st.queue == Some(t)))
    && (st.alloc.Some? ==> st.alloc.value < |st.pcs|) && (st.queue.Some? ==> st.queue.value < |st.pcs|)
  }

  /** Each packet in hand is some thread's, and no two threads have the same one. */
  ghost predicate NodesOk(pcs: seq<Pc>, hand: set<nat>) {
    && (forall t :: 0 <= t < |pcs| && HasNode(pcs[t]) ==> pcs[t].node in hand)
    && (forall t, u :: 0 <= t < |pcs| && 0 <= u < |pcs| && t != u && HasNode(pcs[t]) && HasNode(pcs[u]) ==>
          pcs[t].node != pcs[u].node)
    && (forall n :: n in hand ==> Carried(pcs, n))
  }

  predicate Carries(pc: Pc, n: nat) {
    HasNode(pc) && pc.node == n
  }

  ghost predicate Carried(pcs: seq<Pc>, n: nat) {
    exists t :: 0 <= t < |pcs| && Carries(pcs[t], n)
  }

  ghost predicate WorkOk(st: State) {
    forall t :: 0 <= t < |st.pcs| ==> var pc := st.pcs[t];
      pc.PushAlloc? || pc.PushQueue? || pc.PushGot? || pc.PushWants? || pc.PushWaits? ==> |pc.ms| > 0
  }

  ghost predicate Good(st: State) {
    && LocksOk(st) && NodesOk(st.pcs, st.log.pool.hand) && WorkOk(st)
    && PoolOk(st.log.pool) && st.log.drained + st.log.pool.packets == st.log.accepted
  }

  /** A move changes at most the mover's own hold on each lock. */
  lemma GoHolds(st: State, t: nat, choice: bool)
    requires LocksOk(st) && t < |st.pcs| && CanStep(st, t)
    ensures var e := Go(st, t, choice);
            && (HoldsAlloc(e.pc) <==> e.alloc == Some(t)) && (HoldsQueue(e.pc) <==> e.queue == Some(t))
            && (e.alloc == st.alloc || (e.alloc == None && st.alloc == Some(t))
                || (e.alloc == Some(t) && st.alloc == None))
            && (e.queue == st.queue || (e.queue == None && st.queue == Some(t))
                || (e.queue == Some(t) && st.queue == None))
  {
    hide LogAct, Enabled;
  }

  lemma GoLocks(st: State, m: Move)
    requires LocksOk(st) && Allowed(st, m)
    ensures LocksOk(Next(st, m))
  {
    hide Go, CanStep;
    if m.Step? {
      GoHolds(st, m.thread, m.choice);
    }
  }

  lemma GoWork(st: State, m: Move)
    requires WorkOk(st) && Allowed(st, m)
    ensures WorkOk(Next(st, m))
  {
    hide LogAct, Enabled;
  }

  /** What a move does to the pool, if anything. */
  function ActionOf(st: State, m: Move): Option<Action>
    requires m.thread < |st.pcs|
  {
    var pc := st.pcs[m.thread];
    if !m.Step? then None
    else if pc.PushAlloc? && Enabled(st.log.pool, Get) then Some(Get)
    else if pc.PushQueue? && |pc.ms| > 0 then Some(Put(pc.node, pc.ms[0]))
    else if pc.FullQueue? && Enabled(st.log.pool, Take) && pc.left > 0 then Some(Take)
    else if pc.FullBoth? then Some(Give(pc.node))
    else None
  }

  lemma GoAction(st: State, m: Move)
    requires Allowed(st, m)
    ensures var a := ActionOf(st, m);
            && (a.None? ==> Next(st, m).log == st.log)
            && (a.Some? ==> Enabled(st.log.pool, a.value) && Next(st, m).log == LogAct(st.log, a.value))
  {
    hide LogAct;
  }

  lemma GoPool(st: State, m: Move)
    requires PoolOk(st.log.pool) && st.log.drained + st.log.pool.packets == st.log.accepted && Allowed(st, m)
    ensures var log := Next(st, m).log;
            PoolOk(log.pool) && log.drained + log.pool.packets == log.accepted
  {
    GoAction(st, m);
    var a := ActionOf(st, m);
    if a.Some? {
      ActKeeps(st.log.pool, a.value);
      ActQueues(st.log, a.value);
    }
    hide Next, LogAct, PoolOk, ActionOf;
  }

  // ----- who has which packet

  lemma CarriedElsewhere(pcs: seq<Pc>, t: nat, pc: Pc, n: nat)
    requires t < |pcs| && Carried(pcs, n)
    ensures Carried(pcs[t := pc], n) || Carries(pcs[t], n)
    ensures Carries(pc, n) ==> Carried(pcs[t := pc], n)
  {
    var u :| 0 <= u < |pcs| && Carries(pcs[u], n);
    assert u != t ==> pcs[t := pc][u] == pcs[u];
    assert pcs[t := pc][t] == pc;
  }

  lemma NodesGain(pcs: seq<Pc>, hand: set<nat>, t: nat, pc: Pc)
    requires NodesOk(pcs, hand) && t < |pcs| && !HasNode(pcs[t]) && HasNode(pc) && pc.node !in hand
    ensures NodesOk(pcs[t := pc], hand + {pc.node})
  {
    forall n | n in hand ensures Carried(pcs[t := pc], n) {
      CarriedElsewhere(pcs, t, pc, n);
    }
    assert Carries(pcs[t := pc][t], pc.node);
  }

  lemma NodesLose(pcs: seq<Pc>, hand: set<nat>, t: nat, pc: Pc)
    requires NodesOk(pcs, hand) && t < |pcs| && HasNode(pcs[t]) && !HasNode(pc)
    ensures NodesOk(pcs[t := pc], hand - {pcs[t].node})
  {
    forall n | n in hand - {pcs[t].node} ensures Carried(pcs[t := pc], n) {
      CarriedElsewhere(pcs, t, pc, n);
    }
  }

  lemma NodesSame(pcs: seq<Pc>, hand: set<nat>, t: nat, pc: Pc)
    requires NodesOk(pcs, hand) && t < |pcs| && (HasNode(pcs[t]) <==> HasNode(pc))
    requires HasNode(pc) ==> pc.node == pcs[t].node
    ensures NodesOk(pcs[t := pc], hand)
  {
    forall n | n in hand ensures Carried(pcs[t := pc], n) {
      CarriedElsewhere(pcs, t, pc, n);
    }
  }

  /** The mover picks up a packet, puts one down, or goes on with what it has. */
  lemma GoPc(st: State, m: Move)
    requires Allowed(st, m)
    ensures var pc, pc', a := st.pcs[m.thread], Next(st, m).pcs[m.thread], ActionOf(st, m);
            && Next(st, m).pcs == st.pcs[m.thread := pc']
            && match a
               case None => (HasNode(pc) <==> HasNode(pc')) && (HasNode(pc) ==> pc.node == pc'.node)
               case Some(Get) => !HasNode(pc) && HasNode(pc') && |st.log.pool.free| > 0
                 && pc'.node == st.log.pool.free[0]
               case Some(Take) => !HasNode(pc) && HasNode(pc') && |st.log.pool.queue| > 0
                 && pc'.node == st.log.pool.queue[0]
               case Some(Put(n, _)) => HasNode(pc) && !HasNode(pc') && pc.node == n
               case Some(Give(n)) => HasNode(pc) && !HasNode(pc') && pc.node == n
  {
    hide LogAct;
  }

  lemma GoNodes(st: State, m: Move)
    requires NodesOk(st.pcs, st.log.pool.hand) && PoolOk(st.log.pool) && Allowed(st, m)
    ensures NodesOk(Next(st, m).pcs, Next(st, m).log.pool.hand)
  {
    hide NodesOk, PoolOk, Next, ActionOf, CanStep, HasNode;
    GoAction(st, m);
    GoPc(st, m);
    HandApartAll(st.log.pool);
    var pc := Next(st, m).pcs[m.thread];
    match ActionOf(st, m) {
      case None => NodesSame(st.pcs, st.log.pool.hand, m.thread, pc);
      case Some(Get) => NodesGain(st.pcs, st.log.pool.hand, m.thread, pc);
      case Some(Take) => NodesGain(st.pcs, st.log.pool.hand, m.thread, pc);
      case _ => NodesLose(st.pcs, st.log.pool.hand, m.thread, pc);
    }
  }

  lemma GoodNext(st: State, m: Move)
    requires Good(st) && Allowed(st, m)
    ensures Good(Next(st, m))
  {
    hide PoolOk, NodesOk, LocksOk, WorkOk, Next, Allowed;
    GoLocks(st, m);
    GoWork(st, m);
    GoPool(st, m);
    GoNodes(st, m);
  }

  // ----- runs

  ghost predicate CanRunAll(st: State, moves: seq<Move>)
    decreases |moves|
  {
    |moves| > 0 ==> Allowed(st, moves[0]) && CanRunAll(Next(st, moves[0]), moves[1..])
  }

  function RunAll(st: State, moves: seq<Move>): State
    requires CanRunAll(st, moves)
    decreases |moves|
  {
    if |moves| == 0 then st else RunAll(Next(st, moves[0]), moves[1..])
  }

  /** The pool as it starts, with any number of threads that call nothing yet. */
  ghost predicate Quiescent(st: State) {
    && st.alloc == None && st.queue == None && (forall t :: 0 <= t < |st.pcs| ==> st.pcs[t].Idle?)
    && PoolOk(st.log.pool) && st.log.pool.hand == {} && st.log.pool.packets == [] && st.log.accepted == []
    && st.log.drained == []
  }

  /**
   * In every state that any interleaving reaches: each lock has at most one holder, every packet is free, queued or
   * in the hand of exactly one thread, and the messages taken followed by those queued are those put in, in order.
   */
  lemma {:induction false} EveryInterleaving(st: State, moves: seq<Move>)
    requires Good(st) && CanRunAll(st, moves)
    ensures Good(RunAll(st, moves))
    decreases |moves|
  {
    hide Good, Allowed, Next;
    if |moves| > 0 {
      GoodNext(st, moves[0]);
      EveryInterleaving(Next(st, moves[0]), moves[1..]);
    }
  }

  lemma QuiescentIsGood(st: State)
    requires Quiescent(st)
    ensures Good(st)
  {
    hide PoolOk;
  }

  // ----- what one call does

  /** What was added behind. */
  function Grown<T>(before: seq<T>, now: seq<T>): seq<T> {
    if |before| <= |now| then now[|before|..] else []
  }

  /** The messages that thread `t` put into the queue and took out of it on the way. */
  function PutBy(st: State, moves: seq<Move>, t: nat): seq<Message>
    requires CanRunAll(st, moves)
    decreases |moves|
  {
    if |moves| == 0 then []
    else
      var next := Next(st, moves[0]);
      (if moves[0].thread == t then Grown(st.log.accepted, next.log.accepted) else []) + PutBy(next, moves[1..], t)
  }

  function TakenBy(st: State, moves: seq<Move>, t: nat): seq<Message>
    requires CanRunAll(st, moves)
    decreases |moves|
  {
    if |moves| == 0 then []
    else
      var next := Next(st, moves[0]);
      (if moves[0].thread == t then Grown(st.log.drained, next.log.drained) else []) + TakenBy(next, moves[1..], t)
  }

  /** The messages that a pusher still has to queue. */
  function Owed(pc: Pc): seq<Message> {
    if pc.PushWants? || pc.PushAlloc? || pc.PushWaits? || pc.PushGot? || pc.PushQueue? then pc.ms else []
  }

  /** The number that a reader may still take. */
  function Left(pc: Pc): nat {
    if pc.FullWants? || pc.FullQueue? || pc.FullWaits? || pc.FullFrees? || pc.FullBoth? then pc.left else 0
  }

  /** Thread `t` makes no new call on the way. */
  predicate OneCall(moves: seq<Move>, t: nat) {
    forall i :: 0 <= i < |moves| && moves[i].thread == t ==> moves[i].Step?
  }

  /** One step of a thread: what it puts and takes comes off what it owes and may take. */
  ghost predicate Shared(pc: Pc, pc': Pc, put: seq<Message>, taken: nat) {
    && put <= Owed(pc) && taken <= Left(pc)
    && (!pc'.Idle? ==> put + Owed(pc') == Owed(pc) && taken + Left(pc') == Left(pc))
  }

  lemma StepShare(st: State, m: Move)
    requires Allowed(st, m) && m.Step?
    ensures var st' := Next(st, m);
            && |st'.pcs| == |st.pcs|
            && Shared(st.pcs[m.thread], st'.pcs[m.thread], Grown(st.log.accepted, st'.log.accepted),
                      |Grown(st.log.drained, st'.log.drained)|)
  {
    hide LogAct, Enabled, Grown, Shared;
    if st.pcs[m.thread].FullWants? || st.pcs[m.thread].FullQueue? || st.pcs[m.thread].FullWaits?
       || st.pcs[m.thread].FullFrees? || st.pcs[m.thread].FullBoth? {
      ReaderShare(st, m.thread, m.choice);
    } else {
      PusherShare(st, m.thread, m.choice);
    }
  }

  lemma PusherShare(st: State, t: nat, choice: bool)
    requires t < |st.pcs| && CanStep(st, t)
    requires var pc := st.pcs[t]; pc.PushWants? || pc.PushAlloc? || pc.PushWaits? || pc.PushGot? || pc.PushQueue?
    ensures var e := Go(st, t, choice);
            Shared(st.pcs[t], e.pc, Grown(st.log.accepted, e.log.accepted), |Grown(st.log.drained, e.log.drained)|)
  {
    hide LogAct, Enabled, Grown;
    var pc, log := st.pcs[t], st.log;
    NothingGrown(log.accepted);
    NothingGrown(log.drained);
    if pc.PushAlloc? && Enabled(log.pool, Get) {
      LogGrows(log, Get);
    }
    if pc.PushQueue? {
      LogGrows(log, Put(pc.node, pc.ms[0]));
      assert pc.ms == [pc.ms[0]] + pc.ms[1..];
    }
  }

  lemma ReaderShare(st: State, t: nat, choice: bool)
    requires t < |st.pcs| && CanStep(st, t)
    requires var pc := st.pcs[t]; pc.FullWants? || pc.FullQueue? || pc.FullWaits? || pc.FullFrees? || pc.FullBoth?
    ensures var e := Go(st, t, choice);
            Shared(st.pcs[t], e.pc, Grown(st.log.accepted, e.log.accepted), |Grown(st.log.drained, e.log.drained)|)
  {
    hide LogAct, Enabled, Grown;
    var pc, log := st.pcs[t], st.log;
    NothingGrown(log.accepted);
    NothingGrown(log.drained);
    if pc.FullQueue? && Enabled(log.pool, Take) {
      LogGrows(log, Take);
    }
    if pc.FullBoth? {
      LogGrows(log, Give(pc.node));
    }
  }

  lemma NothingGrown(ms: seq<Message>)
    ensures Grown(ms, ms) == []
  {
  }

  /** What an action adds to the two ends of the log. */
  lemma LogGrows(l: Log, a: Action)
    requires Enabled(l.pool, a)
    ensures Grown(l.accepted, LogAct(l, a).accepted) == if a.Put? then [a.m] else []
    ensures |Grown(l.drained, LogAct(l, a).drained)| == if a.Take? then 1 else 0
  {
  }

  lemma OthersStay(st: State, m: Move, t: nat)
    requires Allowed(st, m) && t < |st.pcs| && t != m.thread
    ensures |Next(st, m).pcs| == |st.pcs| && Next(st, m).pcs[t] == st.pcs[t]
  {
  }

  /**
   * From any point of a call, whatever the others do: a pusher queues its messages in order and none twice, a reader
   * takes no more than it was asked for, and as long as the call goes on nothing of it is lost.
   */
  lemma {:induction false} CallShare(st: State, moves: seq<Move>, t: nat)
    requires CanRunAll(st, moves) && t < |st.pcs| && OneCall(moves, t)
    ensures var st' := RunAll(st, moves);
            && |st'.pcs| == |st.pcs|
            && PutBy(st, moves, t) <= Owed(st.pcs[t]) && |TakenBy(st, moves, t)| <= Left(st.pcs[t])
            && (!st'.pcs[t].Idle? ==>
                  && PutBy(st, moves, t) + Owed(st'.pcs[t]) == Owed(st.pcs[t])
                  && |TakenBy(st, moves, t)| + Left(st'.pcs[t]) == Left(st.pcs[t]))
    decreases |moves|
  {
    hide Allowed, Next, Owed, Left, Grown;
    if |moves| > 0 {
      var m, next := moves[0], Next(st, moves[0]);
      if m.thread == t {
        StepShare(st, m);
      } else {
        OthersStay(st, m, t);
      }
      CallShare(next, moves[1..], t);
      IdleOwesNothing(next.pcs[t]);
      if next.pcs[t].Idle? {
        IdleStays(next, moves[1..], t);
      }
    }
  }

  lemma IdleOwesNothing(pc: Pc)
    ensures pc.Idle? ==> Owed(pc) == [] && Left(pc) == 0
  {
  }

  lemma {:induction false} IdleStays(st: State, moves: seq<Move>, t: nat)
    requires CanRunAll(st, moves) && t < |st.pcs| && OneCall(moves, t) && st.pcs[t].Idle?
    ensures |RunAll(st, moves).pcs| == |st.pcs| && RunAll(st, moves).pcs[t].Idle?
    decreases |moves|
  {
    hide Next;
    if |moves| > 0 {
      OthersStay(st, moves[0], t);
      IdleStays(Next(st, moves[0]), moves[1..], t);
    }
  }

  /**
   * A pusher ends a call with messages left only when it finds no free packet after a wait, and it has waited when
   * it says so.
   */
  lemma GivesUp(st: State, m: Move)
    requires Allowed(st, m) && m.Step?
    ensures var pc, st' := st.pcs[m.thread], Next(st, m);
            var pc' := st'.pcs[m.thread];
            && (pc'.Idle? && |Owed(pc)| > |Grown(st.log.accepted, st'.log.accepted)| ==>
                  pc.PushAlloc? && pc.woken && st.log.pool.free == [])
            && ((pc'.PushWants? || pc'.PushAlloc?) && pc'.woken && !((pc.PushWants? || pc.PushAlloc?) && pc.woken) ==>
                  pc.PushWaits?)
            && (pc'.PushWaits? ==> st.log.pool.free == [])
  {
  }

  // ----- deadlock

  predicate Blocked(st: State, t: nat)
    requires t < |st.pcs|
  {
    (WantsAlloc(st.pcs[t]) && st.alloc != None) || (WantsQueue(st.pcs[t]) && st.queue != None)
  }

  /** Nobody who wants the queue lock holds the alloc lock. */
  lemma LockOrder(st: State, t: nat)
    requires Good(st) && t < |st.pcs| && WantsQueue(st.pcs[t])
    ensures st.alloc != Some(t)
  {
    hide PoolOk, NodesOk, WorkOk;
  }

  /** So whenever a thread is kept waiting by a lock, some thread inside a lock can go on: there is no deadlock. */
  lemma NoDeadlock(st: State, t: nat) returns (u: nat)
    requires Good(st) && t < |st.pcs| && Blocked(st, t)
    ensures u < |st.pcs| && CanStep(st, u) && (HoldsAlloc(st.pcs[u]) || HoldsQueue(st.pcs[u]))
  {
    hide PoolOk;
    u := if st.alloc.Some? then st.alloc.value else st.queue.value;
  }
}
