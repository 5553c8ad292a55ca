/**
 * The packet pool between a receiving and a reading thread: two lists linked through the same fixed set of nodes,
 * a stack of free ones and a queue of filled ones.
 */
module PacketPool {
  import opened Pigeonhole
  import opened Ring

  const MAX_PKTN: nat := 200
  const NULL: int := -1

  // ----- the pool as a value

  /** The nodes of the free list and of the queue, those a thread has in hand, and the queued messages. */
  datatype Pool = Pool(free: seq<nat>, queue: seq<nat>, hand: set<nat>, packets: seq<Message>)

  predicate IsNode(n: nat) {
    n < MAX_PKTN
  }

  ghost function Nodes(): set<nat> {
    set n: nat | n < MAX_PKTN && IsNode(n)
  }

  /** Every node is in exactly one place, and there are no others. */
  ghost predicate PoolOk(p: Pool) {
    && multiset(p.free) + multiset(p.queue) + multiset(p.hand) == multiset(Nodes())
    && |p.packets| == |p.queue|
  }

  lemma Whereabouts(p: Pool, n: nat)
    requires PoolOk(p)
    ensures multiset(p.free)[n] + multiset(p.queue)[n] + (if n in p.hand then 1 else 0) == if n < MAX_PKTN then 1 else 0
    ensures multiset(p.free)[n] > 0 <==> n in p.free
    ensures multiset(p.queue)[n] > 0 <==> n in p.queue
  {
    assert multiset(Nodes())[n] == (multiset(p.free) + multiset(p.queue) + multiset(p.hand))[n];
    assert n in multiset(p.free) <==> n in p.free;
    assert n in multiset(p.queue) <==> n in p.queue;
  }

  /** The nodes are conserved: free, queued and in hand add up to the whole pool. */
  lemma Conserved(p: Pool)
    requires PoolOk(p)
    ensures |p.free| + |p.queue| + |p.hand| == MAX_PKTN
  {
    assert |multiset(p.free) + multiset(p.queue) + multiset(p.hand)| == |multiset(Nodes())|;
    NodesCount(MAX_PKTN);
  }

  lemma NodesCount(k: nat)
    requires k == MAX_PKTN
    ensures Nodes() == UpTo(k)
  {
  }

  /** What the threads do to the pool, each step under one of its two locks. */
  datatype Action =
    | Get
    | Put(node: nat, m: Message)
    | Take
    | Give(node: nat)

  predicate Enabled(p: Pool, a: Action) {
    match a
    case Get => |p.free| > 0
    case Put(n, _) => n in p.hand
    case Take => |p.queue| > 0 && |p.packets| > 0
    case Give(n) => n in p.hand
  }

  function Act(p: Pool, a: Action): Pool
    requires Enabled(p, a)
  {
    match a
    case Get => p.(free := p.free[1..], hand := p.hand + {p.free[0]})
    case Put(n, m) => p.(queue := p.queue + [n], hand := p.hand - {n}, packets := p.packets + [m])
    case Take => p.(queue := p.queue[1..], hand := p.hand + {p.queue[0]}, packets := p.packets[1..])
    case Give(n) => p.(free := [n] + p.free, hand := p.hand - {n})
  }

  lemma FirstApart(s: seq<nat>)
    requires |s| > 0
    ensures multiset(s) == multiset{s[0]} + multiset(s[1..])
  {
    assert s == [s[0]] + s[1..];
  }

  lemma HandWith(h: set<nat>, n: nat)
    requires n !in h
    ensures multiset(h + {n}) == multiset(h) + multiset{n}
  {
  }

  lemma HandWithout(h: set<nat>, n: nat)
    requires n in h
    ensures multiset(h) == multiset(h - {n}) + multiset{n}
  {
  }

  lemma ActKeeps(p: Pool, a: Action)
    requires PoolOk(p) && Enabled(p, a)
    ensures PoolOk(Act(p, a))
  {
    if a.Get? || a.Take? {
      PickUp(p, a);
    } else {
      HandWithout(p.hand, a.node);
    }
  }

  lemma PickUp(p: Pool, a: Action)
    requires PoolOk(p) && Enabled(p, a) && (a.Get? || a.Take?)
    ensures PoolOk(Act(p, a))
  {
    hide UpTo;
    var list := if a.Get? then p.free else p.queue;
    Whereabouts(p, list[0]);
    FirstApart(list);
    HandWith(p.hand, list[0]);
  }

  // ----- runs of any number of threads

  /** What went into the queue and what came out of it. */
  datatype Log = Log(pool: Pool, accepted: seq<Message>, drained: seq<Message>)

  function LogAct(l: Log, a: Action): Log
    requires Enabled(l.pool, a)
  {
    Log(Act(l.pool, a),
        if a.Put? then l.accepted + [a.m] else l.accepted,
        if a.Take? then l.drained + [l.pool.packets[0]] else l.drained)
  }

  predicate CanRun(l: Log, actions: seq<Action>)
    decreases |actions|
  {
    |actions| > 0 ==> Enabled(l.pool, actions[0]) && CanRun(LogAct(l, actions[0]), actions[1..])
  }

  function RunLog(l: Log, actions: seq<Action>): Log
    requires CanRun(l, actions)
    decreases |actions|
  {
    if |actions| == 0 then l else RunLog(LogAct(l, actions[0]), actions[1..])
  }

  /**
   * However the steps of the threads interleave, every node stays in one place and the drained messages followed
   * by the queued ones are the accepted ones in order.
   */
  lemma {:induction false} FirstInFirstOut(l: Log, actions: seq<Action>)
    requires CanRun(l, actions) && PoolOk(l.pool) && l.drained + l.pool.packets == l.accepted
    ensures var r := RunLog(l, actions);
            PoolOk(r.pool) && r.drained + r.pool.packets == r.accepted
    decreases |actions|
  {
    if |actions| > 0 {
      ActKeeps(l.pool, actions[0]);
      ActQueues(l, actions[0]);
      hide PoolOk, LogAct, Enabled;
      FirstInFirstOut(LogAct(l, actions[0]), actions[1..]);
    }
  }

  lemma ActQueues(l: Log, a: Action)
    requires Enabled(l.pool, a) && l.drained + l.pool.packets == l.accepted
    ensures LogAct(l, a).drained + LogAct(l, a).pool.packets == LogAct(l, a).accepted
    ensures LogAct(l, a).pool == Act(l.pool, a)
  {
  }

  // ----- linked lists over the nodes

  /** The nodes of `s` are linked in order from `head` to the end of the list. */
  ghost predicate Linked(next: seq<int>, head: int, s: seq<nat>)
    decreases |s|
  {
    if |s| == 0 then head == NULL
    else head == s[0] && s[0] < |next| && Linked(next, next[s[0]], s[1..])
  }

  /** Writing a node that is not on the list leaves the list as it is. */
  lemma {:induction false} LinkedFrame(next: seq<int>, head: int, s: seq<nat>, n: nat, x: int)
    requires Linked(next, head, s) && n !in s && n < |next|
    ensures Linked(next[n := x], head, s)
    decreases |s|
  {
    if |s| > 0 {
      LinkedFrame(next, next[s[0]], s[1..], n, x);
    }
  }

  lemma {:induction false} LinkedAt(next: seq<int>, head: int, s: seq<nat>, i: nat)
    requires Linked(next, head, s) && i < |s|
    ensures s[i] < |next| && next[s[i]] == if i + 1 < |s| then s[i + 1] else NULL
    decreases |s|
  {
    if i > 0 {
      LinkedAt(next, next[s[0]], s[1..], i - 1);
    }
  }

  /** Hanging a node behind the last one. */
  lemma {:induction false} LinkedEnd(next: seq<int>, head: int, s: seq<nat>, n: nat)
    requires Linked(next, head, s) && |s| > 0 && n !in s && n < |next| && next[n] == NULL
    requires s[|s| - 1] !in s[..|s| - 1]
    ensures s[|s| - 1] < |next| && Linked(next[s[|s| - 1] := n], head, s + [n])
    decreases |s|
  {
    LinkedAt(next, head, s, |s| - 1);
    var last, next' := s[|s| - 1], next[s[|s| - 1] := n];
    assert (s + [n])[1..] == s[1..] + [n];
    if |s| == 1 {
      assert Linked(next', n, [n]);
      assert s[1..] + [n] == [n];
    } else {
      assert s[0] == s[..|s| - 1][0];
      assert s[1..][..|s| - 2] == s[..|s| - 1][1..];
      LinkedEnd(next, next[s[0]], s[1..], n);
    }
  }

  // ----- the pool in memory

  ghost predicate Within(s: seq<nat>, n: nat) {
    forall i :: 0 <= i < |s| ==> s[i] < n
  }

  ghost function Texts(pushmsg: seq<Message>, s: seq<nat>): (r: seq<Message>)
    requires Within(s, |pushmsg|)
    ensures |r| == |s|
  {
    seq(|s|, i requires 0 <= i < |s| => pushmsg[s[i]])
  }

  ghost function ViewOf(free: seq<nat>, queued: seq<nat>, hand: set<nat>, pushmsg: seq<Message>): Pool
    requires Within(queued, |pushmsg|)
  {
    Pool(free, queued, hand, Texts(pushmsg, queued))
  }

  class Packets {
    const next: array<int>
    const pushmsg: array<Message>
    var alloc: int
    var queue: int
    var pktn: nat

    ghost var free: seq<nat>
    ghost var queued: seq<nat>
    ghost var hand: set<nat>

    ghost predicate Valid()
      reads this, next, pushmsg
    {
      && next.Length == pushmsg.Length == MAX_PKTN
      && next as object != pushmsg
      && Linked(next[..], alloc, free) && Linked(next[..], queue, queued)
      && (forall n :: n in hand ==> n < MAX_PKTN && next[n] == NULL)
      && pktn == |free|
      && Within(queued, MAX_PKTN)
      && PoolOk(View())
    }

    ghost function View(): Pool
      requires Within(queued, pushmsg.Length)
      reads this, pushmsg
    {
      ViewOf(free, queued, hand, pushmsg[..])
    }

    /** rt_packet_init */
    constructor ()
      ensures Valid() && fresh(next) && fresh(pushmsg)
      ensures pktn == MAX_PKTN && View().queue == [] && View().hand == {} && View().packets == []
    {
      hide Numbers, UpTo, PoolOk, Linked;
      next := new int[MAX_PKTN](i => if i + 1 < MAX_PKTN then i + 1 else NULL);
      pushmsg := new Message[MAX_PKTN](_ => Message(0, [], 0, []));
      alloc := 0;
      queue := NULL;
      pktn := MAX_PKTN;
      free := Numbers(0, MAX_PKTN);
      queued := [];
      hand := {};
      new;
      FreshPool(next[..], pushmsg[..]);
    }

    /** rt_packet_get, when it stops waiting: a node, or NULL if there still is none. */
    method Get() returns (n: int)
      requires Valid()
      modifies this`alloc, this`pktn, this`free, this`hand, next
      ensures Valid() && |old(View()).packets| == |View().packets|
      ensures if Enabled(old(View()), Action.Get) then n == old(View()).free[0]
              && View() == Act(old(View()), Action.Get)
              else n == NULL && View() == old(View())
    {
      hide PoolOk, Linked, Texts;
      ghost var nx, pool := next[..], View();
      n := alloc;
      FreeHead(nx, n, free);
      if n == NULL {
        return;
      }
      PoppedFree(nx, pool, queue);
      ActKeeps(pool, Action.Get);
      alloc := next[n];
      pktn := pktn - 1;
      next[n] := NULL;
      hand := hand + {free[0]};
      free := free[1..];
      assert next[..] == nx[n := NULL];
    }

    /** rt_packet_free */
    method Free(n: nat)
      requires Valid() && n in hand
      modifies this`alloc, this`pktn, this`free, this`hand, next
      ensures Valid() && View() == Act(old(View()), Give(n))
    {
      hide PoolOk, Linked, Texts;
      ghost var nx, pool := next[..], View();
      GivenFree(nx, pool, alloc, queue, n);
      ActKeeps(pool, Give(n));
      next[n] := alloc;
      assert next[..] == nx[n := alloc];
      alloc := n;
      pktn := pktn + 1;
      free := [n] + free;
      hand := hand - {n};
    }

    /** The first queued packet comes off, its message with it: a turn of rt_packet_full before the node is freed. */
    method Dequeue() returns (n: nat, m: Message)
      requires Valid() && Enabled(View(), Take)
      modifies this`queue, this`queued, this`hand, next
      ensures Valid() && View() == Act(old(View()), Take)
      ensures n == old(View()).queue[0] && m == old(View()).packets[0] && n in hand
    {
      hide PoolOk, Linked, Texts;
      ghost var nx, pool := next[..], View();
      FreeHead(nx, queue, queued);
      PoppedQueue(nx, pool, alloc, pushmsg[..]);
      ActKeeps(pool, Take);
      n := queue;
      queue := next[n];
      next[n] := NULL;
      assert next[..] == nx[n := NULL];
      m := pushmsg[n];
      hand := hand + {queued[0]};
      queued := queued[1..];
    }

    /** The end of rt_packet_push: the packet is filled and hung behind the last one of the queue. */
    method Enqueue(n: nat, m: Message)
      requires Valid() && n in hand
      modifies this`queue, this`queued, this`hand, next, pushmsg
      ensures Valid() && View() == Act(old(View()), Put(n, m))
    {
      hide PoolOk, Linked, Texts;
      ghost var nx, pool, texts := next[..], View(), pushmsg[..];
      FreeHead(nx, queue, queued);
      HandApart(pool, n);
      ActKeeps(pool, Put(n, m));
      PutTexts(texts, queued, n, m);
      PutNode(nx, pool, alloc, queue, n);
      pushmsg[n] := m;
      assert pushmsg[..] == texts[n := m];
      if queue == NULL {
        queue := n;
      } else {
        var b := LastNode();
        next[b] := n;
        assert next[..] == nx[b := n];
      }
      queued := queued + [n];
      hand := hand - {n};
    }

    /** The walk to the end of the queue. */
    method LastNode() returns (b: nat)
      requires Linked(next[..], queue, queued) && |queued| > 0
      ensures b == queued[|queued| - 1]
    {
      hide Linked;
      FreeHead(next[..], queue, queued);
      ghost var i := 0;
      LinkedAt(next[..], queue, queued, 0);
      b := queue;
      while next[b] != NULL
        invariant 0 <= i < |queued| && b == queued[i] && b < next.Length
        invariant next[b] == if i + 1 < |queued| then queued[i + 1] else NULL
        decreases |queued| - i
      {
        LinkedAt(next[..], queue, queued, i + 1);
        b := next[b];
        i := i + 1;
      }
    }

    /** rt_packet_push: as many messages as there are free packets are queued, the others are lost. */
    method Push(ms: seq<Message>)
      requires Valid()
      modifies this, next, pushmsg
      ensures Valid() && hand == old(hand)
      ensures var k := if |ms| <= old(pktn) then |ms| else old(pktn);
              && pktn == old(pktn) - k
              && View().packets == old(View()).packets + ms[..k]
    {
      hide PoolOk, Linked, Texts;
      ghost var pool := View();
      var i := 0;
      while i < |ms|
        invariant i <= |ms| && Valid() && hand == pool.hand && i <= |pool.free| && |free| == |pool.free| - i
        invariant View().packets == pool.packets + ms[..i]
      {
        HandApartAll(View());
        var n := Get();
        if n == NULL {
          return;
        }
        Enqueue(n, ms[i]);
        assert ms[..i + 1] == ms[..i] + [ms[i]];
        i := i + 1;
      }
      assert ms[..i] == ms;
    }

    /** rt_packet_full, once it stops waiting: the oldest messages, at most `howmany`, leave the queue in order. */
    method Full(howmany: nat) returns (ms: seq<Message>)
      requires Valid()
      modifies this, next
      ensures Valid() && hand == old(hand)
      ensures var k := if howmany <= |old(View()).packets| then howmany else |old(View()).packets|;
              && ms == old(View()).packets[..k] && View().packets == old(View()).packets[k..]
              && pktn == old(pktn) + k
    {
      hide PoolOk, Linked, Texts;
      ghost var pool := View();
      ms := [];
      QueueLengths(pool);
      FreeHead(next[..], queue, queued);
      while queue != NULL && |ms| < howmany
        invariant Valid() && hand == pool.hand && |ms| <= howmany && |ms| <= |pool.packets|
        invariant ms == pool.packets[..|ms|] && View().packets == pool.packets[|ms|..]
        invariant |free| == |pool.free| + |ms| && (queue == NULL <==> |queued| == 0)
        invariant |View().packets| == |queued|
        decreases howmany - |ms|
      {
        ghost var k := |ms|;
        HandApartAll(View());
        var n, m := Dequeue();
        Free(n);
        ms := ms + [m];
        assert pool.packets[..k + 1] == pool.packets[..k] + [pool.packets[k]];
        FreeHead(next[..], queue, queued);
        QueueLengths(View());
      }
    }
  }

  lemma QueueLengths(p: Pool)
    requires PoolOk(p)
    ensures |p.packets| == |p.queue|
  {
  }

  lemma HandApart(p: Pool, n: nat)
    requires PoolOk(p) && n in p.hand
    ensures n < MAX_PKTN && n !in p.queue && n !in p.free
  {
    Whereabouts(p, n);
  }

  lemma HandApartAll(p: Pool)
    requires PoolOk(p)
    ensures |p.queue| > 0 ==> p.queue[0] !in p.hand
    ensures |p.free| > 0 ==> p.free[0] !in p.hand
  {
    if |p.free| > 0 {
      Whereabouts(p, p.free[0]);
      assert p.free[0] in p.free;
    }
    if |p.queue| > 0 {
      Whereabouts(p, p.queue[0]);
      assert p.queue[0] in p.queue;
    }
  }

  lemma PutTexts(pushmsg: seq<Message>, queued: seq<nat>, n: nat, m: Message)
    requires Within(queued, |pushmsg|) && n !in queued && n < |pushmsg|
    ensures Within(queued + [n], |pushmsg|)
    ensures Texts(pushmsg[n := m], queued + [n]) == Texts(pushmsg, queued) + [m]
  {
  }

  lemma PutNode(next: seq<int>, p: Pool, alloc: int, head: int, n: nat)
    requires |next| == MAX_PKTN && PoolOk(p) && Linked(next, head, p.queue) && Linked(next, alloc, p.free)
    requires n in p.hand && n < |next| && next[n] == NULL
    ensures if |p.queue| == 0 then Linked(next, n, p.queue + [n])
            else var last := p.queue[|p.queue| - 1];
                 && last < |next| && last !in p.hand
                 && Linked(next[last := n], head, p.queue + [n]) && Linked(next[last := n], alloc, p.free)
  {
    HandApart(p, n);
    if |p.queue| == 0 {
      assert p.queue + [n] == [n] && [n][1..] == [];
    } else {
      var s, last := p.queue, p.queue[|p.queue| - 1];
      LastApart(p);
      hide PoolOk;
      LinkedAt(next, head, s, |s| - 1);
      LinkedEnd(next, head, s, n);
      LinkedFrame(next, alloc, p.free, last, n);
    }
  }

  lemma LastApart(p: Pool)
    requires PoolOk(p) && |p.queue| > 0
    ensures var last := p.queue[|p.queue| - 1];
            last !in p.hand && last !in p.free && last !in p.queue[..|p.queue| - 1]
  {
    Whereabouts(p, p.queue[|p.queue| - 1]);
    LastOnce(p.queue);
  }

  lemma FirstOnce(s: seq<nat>)
    requires |s| > 0 && multiset(s)[s[0]] <= 1
    ensures s[0] !in s[1..]
  {
    FirstApart(s);
    assert s[0] !in multiset(s[1..]);
  }

  lemma LastOnce(s: seq<nat>)
    requires |s| > 0 && multiset(s)[s[|s| - 1]] <= 1
    ensures s[|s| - 1] !in s[..|s| - 1]
  {
    var last, rest := s[|s| - 1], s[..|s| - 1];
    assert s == rest + [last];
    assert last !in multiset(rest);
  }

  lemma PoppedQueue(next: seq<int>, p: Pool, alloc: int, pushmsg: seq<Message>)
    requires |next| == MAX_PKTN == |pushmsg| && PoolOk(p) && Linked(next, alloc, p.free) && Within(p.queue, |pushmsg|)
    requires |p.queue| > 0 && Linked(next, p.queue[0], p.queue) && p.packets == Texts(pushmsg, p.queue)
    ensures var n := p.queue[0];
            && n < |next| && n !in p.hand && Within(p.queue[1..], |pushmsg|)
            && Linked(next[n := NULL], next[n], p.queue[1..]) && Linked(next[n := NULL], alloc, p.free)
            && p.packets[0] == pushmsg[n] && p.packets[1..] == Texts(pushmsg, p.queue[1..])
  {
    var n := p.queue[0];
    hide PoolOk;
    Whereabouts(p, n);
    FirstOnce(p.queue);
    LinkedFrame(next, alloc, p.free, n, NULL);
    LinkedFrame(next, next[n], p.queue[1..], n, NULL);
  }

  lemma FreeHead(next: seq<int>, head: int, s: seq<nat>)
    requires Linked(next, head, s)
    ensures head == if |s| == 0 then NULL else s[0]
  {
  }

  /** Taking the first free node off: both lists are what they should be, and the nodes in hand stay unlinked. */
  lemma PoppedFree(next: seq<int>, p: Pool, head: int)
    requires |next| == MAX_PKTN && PoolOk(p) && Linked(next, head, p.queue)
    requires |p.free| > 0 && Linked(next, p.free[0], p.free)
    ensures var n := p.free[0];
            && n < |next| && n !in p.hand
            && Linked(next[n := NULL], next[n], p.free[1..]) && Linked(next[n := NULL], head, p.queue)
  {
    var n := p.free[0];
    hide PoolOk;
    Whereabouts(p, n);
    FirstOnce(p.free);
    LinkedFrame(next, head, p.queue, n, NULL);
    LinkedFrame(next, next[n], p.free[1..], n, NULL);
  }

  lemma GivenFree(next: seq<int>, p: Pool, alloc: int, head: int, n: nat)
    requires |next| == MAX_PKTN && PoolOk(p) && Linked(next, head, p.queue) && Linked(next, alloc, p.free)
             && n in p.hand
    ensures n < |next|
    ensures Linked(next[n := alloc], n, [n] + p.free) && Linked(next[n := alloc], head, p.queue)
  {
    Whereabouts(p, n);
    hide PoolOk;
    LinkedFrame(next, head, p.queue, n, alloc);
    LinkedFrame(next, alloc, p.free, n, alloc);
    assert ([n] + p.free)[1..] == p.free;
  }

  ghost function Numbers(a: nat, b: nat): (s: seq<nat>)
    requires a <= b
    ensures |s| == b - a
    decreases b - a
  {
    if a == b then [] else [a] + Numbers(a + 1, b)
  }

  /** rt_packet_init's array: each node is linked to the next, the last one to none. */
  ghost predicate Chained(next: seq<int>) {
    forall i :: 0 <= i < |next| ==> next[i] == if i + 1 < |next| then i + 1 else NULL
  }

  lemma ChainAt(next: seq<int>, i: nat)
    requires Chained(next) && i < |next|
    ensures next[i] == if i + 1 < |next| then i + 1 else NULL
  {
  }

  lemma FreshPool(next: seq<int>, pushmsg: seq<Message>)
    requires Chained(next) && |next| == |pushmsg| == MAX_PKTN
    ensures Linked(next, 0, Numbers(0, MAX_PKTN)) && Linked(next, NULL, [])
    ensures PoolOk(ViewOf(Numbers(0, MAX_PKTN), [], {}, pushmsg))
  {
    hide Numbers, UpTo, Chained;
    AllLinked(next, 0);
    NumbersAll(MAX_PKTN);
    NodesCount(MAX_PKTN);
  }

  lemma {:induction false} AllLinked(next: seq<int>, a: nat)
    requires a <= |next| && Chained(next)
    ensures Linked(next, if a < |next| then a else NULL, Numbers(a, |next|))
    decreases |next| - a
  {
    hide Chained;
    if a < |next| {
      ChainAt(next, a);
      AllLinked(next, a + 1);
      assert Numbers(a, |next|)[1..] == Numbers(a + 1, |next|);
    }
  }

  lemma {:induction false} NumbersAll(n: nat)
    ensures multiset(Numbers(0, n)) == multiset(UpTo(n))
  {
    if n > 0 {
      var k: nat := n - 1;
      NumbersAll(k);
      NumbersLast(0, n);
      OneMore(k);
      hide Numbers, UpTo;
      assert multiset(Numbers(0, n)) == multiset(Numbers(0, k)) + multiset{k};
    }
  }

  lemma OneMore(k: nat)
    ensures multiset(UpTo(k + 1)) == multiset(UpTo(k)) + multiset{k}
  {
  }

  lemma {:induction false} NumbersLast(a: nat, b: nat)
    requires a < b
    ensures Numbers(a, b) == Numbers(a, b - 1) + [b - 1]
    decreases b - a
  {
    if a + 1 < b {
      NumbersLast(a + 1, b);
    }
  }
}
