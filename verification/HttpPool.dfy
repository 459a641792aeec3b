/**
  The pool of connection handlers (httpconnectionhandlerpool.cpp:27-82).  Connections arrive, end,
  and the clean-up timer fires in any order; every step is atomic under the pool's mutex.
*/
module HttpPool {
  import opened Sequences
  import opened QtText
  import opened Numbers

  datatype Slot = Idle | Serving(connection: nat)

  /** The slots that serve a connection, in order. */
  function Served(pool: seq<Slot>): seq<nat> {
    if pool == [] then []
    else (if pool[0].Serving? then [pool[0].connection] else []) + Served(pool[1..])
  }

  function IdleCount(pool: seq<Slot>): (n: nat)
    ensures n <= |pool|
  {
    if pool == [] then 0 else (if pool[0].Idle? then 1 else 0) + IdleCount(pool[1..])
  }

  /** The position of the idle slot in front of which there are n others, or the length. */
  function NthIdle(pool: seq<Slot>, n: nat): (k: nat)
    ensures k <= |pool| && (k < |pool| ==> pool[k].Idle?)
  {
    if pool == [] then 0
    else if pool[0].Idle? then if n == 0 then 0 else 1 + NthIdle(pool[1..], n - 1)
    else 1 + NthIdle(pool[1..], n)
  }

  /** The pool after a connection has come; None when it is refused. */
  function Acquire(pool: seq<Slot>, maxThreads: int, c: nat): Option<seq<Slot>> {
    var k := NthIdle(pool, 0);
    if k < |pool| then Some(pool[k := Serving(c)])
    else if |pool| < maxThreads then Some(pool + [Serving(c)])
    else None
  }

  function AtLeastZero(n: int): nat { if n < 0 then 0 else n }

  /** The timer removes the first idle slot beyond the number that may stay. */
  function Cleaned(pool: seq<Slot>, minThreads: int): seq<Slot> {
    var k := NthIdle(pool, AtLeastZero(minThreads));
    if k < |pool| then pool[..k] + pool[k + 1..] else pool
  }

  /** The connection in slot k has ended. */
  function Release(pool: seq<Slot>, k: nat): seq<Slot>
    requires k < |pool|
  {
    pool[k := Idle]
  }

  // ----- what the steps do

  lemma {:induction false} ServedAppend(a: seq<Slot>, b: seq<Slot>)
    ensures Served(a + b) == Served(a) + Served(b) && IdleCount(a + b) == IdleCount(a) + IdleCount(b)
  {
    if a == [] {
      assert a + b == b;
    } else {
      assert (a + b)[1..] == a[1..] + b;
      ServedAppend(a[1..], b);
      Assoc(if a[0].Serving? then [a[0].connection] else [], Served(a[1..]), Served(b));
    }
  }

  lemma ServedOne(s: Slot)
    ensures Served([s]) == (if s.Serving? then [s.connection] else []) && IdleCount([s]) == if s.Idle? then 1 else 0
  {
    assert [s][1..] == [];
  }

  /** The slots around slot k. */
  lemma ServedAround(pool: seq<Slot>, k: nat, s: Slot)
    requires k < |pool|
    ensures var a, b := pool[..k], pool[k + 1..];
            && Served(pool) == Served(a) + Served([pool[k]]) + Served(b)
            && IdleCount(pool) == IdleCount(a) + IdleCount([pool[k]]) + IdleCount(b)
            && Served(pool[k := s]) == Served(a) + Served([s]) + Served(b)
            && IdleCount(pool[k := s]) == IdleCount(a) + IdleCount([s]) + IdleCount(b)
            && Served(a + b) == Served(a) + Served(b) && IdleCount(a + b) == IdleCount(a) + IdleCount(b)
  {
    var a, b := pool[..k], pool[k + 1..];
    assert pool == a + [pool[k]] + b && pool[k := s] == a + [s] + b;
    ServedAppend(a + [pool[k]], b);
    ServedAppend(a, [pool[k]]);
    ServedAppend(a + [s], b);
    ServedAppend(a, [s]);
    ServedAppend(a, b);
  }

  lemma {:induction false} NthIdleFound(pool: seq<Slot>, n: nat)
    ensures NthIdle(pool, n) < |pool| <==> n < IdleCount(pool)
    ensures NthIdle(pool, n) < |pool| ==> IdleCount(pool[..NthIdle(pool, n)]) == n
  {
    if pool != [] {
      var rest := pool[1..];
      var m := if pool[0].Idle? && n > 0 then n - 1 else n;
      NthIdleFound(rest, m);
      if !(pool[0].Idle? && n == 0) { assert pool[..1 + NthIdle(rest, m)][1..] == rest[..NthIdle(rest, m)]; }
    }
  }

  lemma {:induction false} ServedPlusIdle(pool: seq<Slot>)
    ensures |Served(pool)| + IdleCount(pool) == |pool|
  {
    if pool != [] { ServedPlusIdle(pool[1..]); }
  }

  /** A new connection is put beside those that are served, none of which is disturbed; it is
      refused exactly when every handler is busy and there are maxThreads handlers or more. */
  lemma AcquireServesOneMore(pool: seq<Slot>, maxThreads: int, c: nat)
    ensures var r, served := Acquire(pool, maxThreads, c), Served(pool);
            && (r.None? <==> |served| == |pool| && |pool| >= maxThreads)
            && (r.Some? ==> multiset(Served(r.value)) == multiset(served) + multiset{c}
                            && |r.value| == if |served| < |pool| then |pool| else |pool| + 1)
    ensures |Served(pool)| <= |pool|
  {
    hide Served, IdleCount, NthIdle;
    NthIdleFound(pool, 0);
    ServedPlusIdle(pool);
    var k := NthIdle(pool, 0);
    ServedOne(Serving(c));
    if k < |pool| {
      ServedAround(pool, k, Serving(c));
      ServedOne(pool[k]);
      OneMore(Served(pool[..k]), Served(pool[k + 1..]), c);
    } else {
      ServedAppend(pool, [Serving(c)]);
    }
  }

  lemma {:induction false} NoneIdle(pool: seq<Slot>)
    requires IdleCount(pool) == 0
    ensures forall j :: 0 <= j < |pool| ==> pool[j].Serving?
  {
    if pool != [] { NoneIdle(pool[1..]); }
  }

  /** The first idle handler is taken, and when none is idle a new one is put behind the others. */
  lemma TakesFirstIdle(pool: seq<Slot>, maxThreads: int, c: nat, r: seq<Slot>)
    requires Acquire(pool, maxThreads, c) == Some(r)
    ensures if exists k :: 0 <= k < |pool| && pool[k].Idle?
            then exists k :: 0 <= k < |pool| && pool[k].Idle? && (forall j :: 0 <= j < k ==> pool[j].Serving?) &&
                             r == pool[k := Serving(c)]
            else r == pool + [Serving(c)]
  {
    hide *;
    NthIdleFound(pool, 0);
    AcquireIs(pool, maxThreads, c, r);
    var k := NthIdle(pool, 0);
    if k < |pool| {
      NoneIdle(pool[..k]);
      assert forall j :: 0 <= j < k ==> pool[j] == pool[..k][j];
      assert pool[k].Idle?;
    } else {
      NoneIdle(pool);
    }
  }

  lemma AcquireIs(pool: seq<Slot>, maxThreads: int, c: nat, r: seq<Slot>)
    requires Acquire(pool, maxThreads, c) == Some(r)
    ensures var k := NthIdle(pool, 0);
            (k < |pool| ==> r == pool[k := Serving(c)]) && (k == |pool| ==> r == pool + [Serving(c)])
  {
    hide NthIdle;
  }

  /** The handler that goes is the first idle one with as many idle ones in front of it as may stay. */
  lemma RemovesFirstBeyond(pool: seq<Slot>, minThreads: int)
    requires IdleCount(pool) > AtLeastZero(minThreads)
    ensures exists k :: 0 <= k < |pool| && pool[k].Idle? && IdleCount(pool[..k]) == AtLeastZero(minThreads) &&
                        Cleaned(pool, minThreads) == pool[..k] + pool[k + 1..]
  {
    hide IdleCount, NthIdle;
    NthIdleFound(pool, AtLeastZero(minThreads));
    var k := NthIdle(pool, AtLeastZero(minThreads));
    assert pool[k].Idle?;
  }

  lemma OneMore(a: seq<nat>, b: seq<nat>, c: nat)
    ensures multiset(a + [c] + b) == multiset(a + [] + b) + multiset{c}
  {
  }

  /** Clean-up removes at most one handler, and only an idle one. */
  lemma CleanupKeepsServed(pool: seq<Slot>, minThreads: int)
    ensures var r := Cleaned(pool, minThreads);
            && Served(r) == Served(pool)
            && |r| <= |pool|
            && IdleCount(r) ==
               if IdleCount(pool) > AtLeastZero(minThreads) then IdleCount(pool) - 1 else IdleCount(pool)
  {
    hide Served, IdleCount, NthIdle;
    var m := AtLeastZero(minThreads);
    NthIdleFound(pool, m);
    var k := NthIdle(pool, m);
    if k < |pool| {
      ServedAround(pool, k, Idle);
      ServedOne(pool[k]);
    }
  }

  lemma CleanupSize(pool: seq<Slot>, minThreads: int)
    ensures |Served(pool)| <= |pool|
    ensures |Cleaned(pool, minThreads)| ==
            if |pool| - |Served(pool)| > AtLeastZero(minThreads) then |pool| - 1 else |pool|
  {
    hide Served, IdleCount, Cleaned;
    CleanupKeepsServed(pool, minThreads);
    ServedPlusIdle(pool);
    ServedPlusIdle(Cleaned(pool, minThreads));
  }

  lemma ReleaseEndsOne(pool: seq<Slot>, k: nat)
    requires k < |pool| && pool[k].Serving?
    ensures multiset(Served(Release(pool, k))) == multiset(Served(pool)) - multiset{pool[k].connection}
    ensures |Release(pool, k)| == |pool|
  {
    hide Served, IdleCount;
    ServedAround(pool, k, Idle);
    ServedOne(pool[k]);
    ServedOne(Idle);
    OneMore(Served(pool[..k]), Served(pool[k + 1..]), pool[k].connection);
  }

  // ----- whole runs

  /** Both settings are looked up at every step, so they may change during a run. */
  datatype Event = Connect(connection: nat, maxThreads: int) | Disconnect(slot: nat) | Timer(minThreads: int)

  /** One step of the pool.  A handler's end of connection is a step of a busy handler only. */
  function Step(pool: seq<Slot>, e: Event): seq<Slot> {
    match e
    case Connect(c, maxThreads) => (match Acquire(pool, maxThreads, c) case Some(p) => p case None => pool)
    case Disconnect(k) => if k < |pool| && pool[k].Serving? then Release(pool, k) else pool
    case Timer(minThreads) => Cleaned(pool, minThreads)
  }

  function Run(pool: seq<Slot>, events: seq<Event>): seq<Slot>
    decreases |events|
  {
    if events == [] then pool else Run(Step(pool, events[0]), events[1..])
  }

  /** A server without slots: the open connections, and how many handlers there are. */
  datatype Server = Server(open: multiset<nat>, handlers: nat)

  /** What an event means to it; a connection that ends is the one that the slot serves. */
  function Serve(v: Server, e: Event, pool: seq<Slot>): Server {
    match e
    case Connect(c, maxThreads) =>
      if |v.open| < v.handlers then Server(v.open + multiset{c}, v.handlers)
      else if v.handlers < maxThreads then Server(v.open + multiset{c}, v.handlers + 1)
      else v
    case Disconnect(k) =>
      if k < |pool| && pool[k].Serving? then v.(open := v.open - multiset{pool[k].connection}) else v
    case Timer(minThreads) =>
      if v.handlers - |v.open| > AtLeastZero(minThreads) then v.(handlers := v.handlers - 1) else v
  }

  function ServerAfter(v: Server, pool: seq<Slot>, events: seq<Event>): Server
    decreases |events|
  {
    if events == [] then v else ServerAfter(Serve(v, events[0], pool), Step(pool, events[0]), events[1..])
  }

  function ServerOf(pool: seq<Slot>): Server { Server(multiset(Served(pool)), |pool|) }

  lemma StepIsServe(pool: seq<Slot>, e: Event)
    ensures ServerOf(Step(pool, e)) == Serve(ServerOf(pool), e, pool)
  {
    hide Served, Acquire, Cleaned, Release;
    match e {
      case Connect(c, maxThreads) => AcquireServesOneMore(pool, maxThreads, c);
      case Disconnect(k) => if k < |pool| && pool[k].Serving? { ReleaseEndsOne(pool, k); }
      case Timer(minThreads) => CleanupKeepsServed(pool, minThreads); CleanupSize(pool, minThreads);
    }
  }

  /** In every run, whatever becomes of the settings, the pool serves exactly the connections that a
      server with that many handlers has open: none is lost by clean-up, none is served twice, and
      one is refused only when all handlers are busy and no further one is allowed. */
  lemma {:induction false} RunIsServer(pool: seq<Slot>, events: seq<Event>)
    ensures ServerOf(Run(pool, events)) == ServerAfter(ServerOf(pool), pool, events)
    decreases |events|
  {
    hide Step, Serve, ServerOf;
    if events != [] {
      StepIsServe(pool, events[0]);
      RunIsServer(Step(pool, events[0]), events[1..]);
    }
  }

  // ----- settings that stay as they are

  ghost predicate SameMaximum(events: seq<Event>, maxThreads: int) {
    forall i :: 0 <= i < |events| && events[i].Connect? ==> events[i].maxThreads == maxThreads
  }

  /** A server that admits connections as long as fewer than maxThreads are open. */
  function Admit(open: multiset<nat>, e: Event, pool: seq<Slot>): multiset<nat> {
    match e
    case Connect(c, maxThreads) => if |open| < maxThreads then open + multiset{c} else open
    case Disconnect(k) => if k < |pool| && pool[k].Serving? then open - multiset{pool[k].connection} else open
    case Timer(_) => open
  }

  function OpenAfter(open: multiset<nat>, pool: seq<Slot>, events: seq<Event>): multiset<nat>
    decreases |events|
  {
    if events == [] then open
    else OpenAfter(Admit(open, events[0], pool), Step(pool, events[0]), events[1..])
  }

  /** While maxThreads stays what it is, the pool serves exactly the connections that a server
      bounded by maxThreads has open, and there are never more than maxThreads handlers. */
  lemma {:induction false} PoolIsBoundedServer(pool: seq<Slot>, maxThreads: int, events: seq<Event>)
    requires |pool| <= AtLeastZero(maxThreads) && SameMaximum(events, maxThreads)
    ensures |Run(pool, events)| <= AtLeastZero(maxThreads)
    ensures multiset(Served(Run(pool, events))) == OpenAfter(multiset(Served(pool)), pool, events)
    decreases |events|
  {
    hide Served, Step;
    if events != [] {
      StepIsServe(pool, events[0]);
      FewServed(pool);
      PoolIsBoundedServer(Step(pool, events[0]), maxThreads, events[1..]);
    }
  }

  lemma FewServed(pool: seq<Slot>)
    ensures |Served(pool)| <= |pool|
  {
    ServedPlusIdle(pool);
  }

  function Timers(minThreads: int, n: nat): seq<Event> {
    if n == 0 then [] else [Timer(minThreads)] + Timers(minThreads, n - 1)
  }

  /** Without traffic the timer brings the idle handlers down to minThreads, one at a time, and no
      further. */
  lemma {:induction false} CleanupConverges(pool: seq<Slot>, minThreads: int, n: nat)
    ensures var r := Run(pool, Timers(minThreads, n));
            var m := AtLeastZero(minThreads);
            && Served(r) == Served(pool)
            && IdleCount(r) == if IdleCount(pool) - n > m then IdleCount(pool) - n else Minimum(IdleCount(pool), m)
    decreases n
  {
    hide Served, IdleCount, Cleaned;
    if n > 0 {
      CleanupKeepsServed(pool, minThreads);
      assert Timers(minThreads, n)[0] == Timer(minThreads) && Timers(minThreads, n)[1..] == Timers(minThreads, n - 1);
      CleanupConverges(Cleaned(pool, minThreads), minThreads, n - 1);
    }
  }

  // ----- the objects

  class HttpConnectionHandler {
    var busy: bool
    /** The connection that a busy handler serves. */
    ghost var connection: nat

    constructor ()
      ensures !busy
    {
      busy := false;
    }

    method SetBusy(ghost c: nat)
      modifies this
      ensures busy && connection == c
    {
      busy := true;
      connection := c;
    }

    /** The socket's signal at the end of a connection. */
    method Disconnected()
      modifies this
      ensures !busy
    {
      busy := false;
    }
  }

  ghost function SlotOf(h: HttpConnectionHandler): Slot
    reads h
  {
    if h.busy then Serving(h.connection) else Idle
  }

  class HttpConnectionHandlerPool {
    var pool: seq<HttpConnectionHandler>

    ghost predicate Valid()
      reads this
    {
      forall i, j :: 0 <= i < j < |pool| ==> pool[i] != pool[j]
    }

    ghost function Slots(): (r: seq<Slot>)
      reads this, pool
      ensures |r| == |pool| && forall i :: 0 <= i < |pool| ==> r[i] == SlotOf(pool[i])
    {
      seq(|pool|, i requires 0 <= i < |pool| reads this, pool => SlotOf(pool[i]))
    }

    constructor ()
      ensures Valid() && pool == []
    {
      pool := [];
    }

    method GetConnectionHandler(maxThreads: int, ghost c: nat) returns (freeHandler: HttpConnectionHandler?)
      requires Valid()
      modifies this, pool
      ensures Valid()
      ensures var r := Acquire(old(Slots()), maxThreads, c);
              if r.None? then freeHandler == null && Slots() == old(Slots()) && pool == old(pool)
              else freeHandler != null && Slots() == r.value && freeHandler in pool && SlotOf(freeHandler) == Serving(c)
      ensures freeHandler != null ==> (freeHandler in old(pool) && !old(freeHandler.busy)) || fresh(freeHandler)
    {
      ghost var before := Slots();
      freeHandler := null;
      var k := 0;
      assert before[0..] == before;
      while k < |pool| && pool[k].busy
        invariant 0 <= k <= |pool| && pool == old(pool) && Slots() == before
        invariant NthIdle(before, 0) == k + NthIdle(before[k..], 0)
      {
        NextSlot(before, k, 0);
        k := k + 1;
      }
      if k < |pool| {
        assert before[k..][0] == before[k];
        freeHandler := pool[k];
        freeHandler.SetBusy(c);
        assert Slots() == before[k := Serving(c)];
      } else if |pool| < maxThreads {
        freeHandler := new HttpConnectionHandler();
        freeHandler.SetBusy(c);
        pool := pool + [freeHandler];
        assert Slots() == before + [Serving(c)];
      }
    }

    /** The connection that handler k serves has ended. */
    method ConnectionEnded(k: nat)
      requires Valid() && k < |pool|
      modifies pool[k]
      ensures Valid() && pool == old(pool) && Slots() == Release(old(Slots()), k)
    {
      ghost var before := Slots();
      pool[k].Disconnected();
      assert Slots() == before[k := Idle];
    }

    /** Remove one idle handler beyond the number that may stay. */
    method Cleanup(minThreads: int)
      requires Valid()
      modifies `pool
      ensures Valid() && Slots() == Cleaned(old(Slots()), minThreads)
      ensures forall h :: h in old(pool) && h !in pool ==> !h.busy
    {
      hide NthIdle, SlotOf;
      var k := FindSurplus(minThreads);
      if k < |pool| {
        RemoveOne(k);
        ghost var before := Slots();
        NthIdleIsIdle(before, AtLeastZero(minThreads));
        assert !pool[k].busy by { IsIdle(pool[k]); }
        pool := pool[..k] + pool[k + 1..];
        assert Slots() == before[..k] + before[k + 1..];
      }
    }

    /** The loop of Cleanup: count the idle handlers up to the first that is one too many. */
    method FindSurplus(minThreads: int) returns (k: nat)
      ensures k == NthIdle(Slots(), AtLeastZero(minThreads))
    {
      hide NthIdle, SlotOf;
      ghost var slots, m := Slots(), AtLeastZero(minThreads);
      var idleCounter := 0;
      k := 0;
      assert slots[0..] == slots;
      while k < |pool|
        invariant 0 <= k <= |pool| && 0 <= idleCounter <= m
        invariant NthIdle(slots, m) == k + NthIdle(slots[k..], m - idleCounter)
      {
        NextSlot(slots, k, m - idleCounter);
        IsIdle(pool[k]);
        if !pool[k].busy {
          idleCounter := idleCounter + 1;
          if idleCounter > minThreads {
            return;
          }
        }
        k := k + 1;
      }
      assert slots[k..] == [];
      NoIdle();
    }

    lemma RemoveOne(k: nat)
      requires Valid() && k < |pool|
      ensures var rest := pool[..k] + pool[k + 1..];
              && (forall i, j :: 0 <= i < j < |rest| ==> rest[i] != rest[j])
              && (forall h :: h in pool && h !in rest ==> h == pool[k])
    {
      var rest := pool[..k] + pool[k + 1..];
      forall i | 0 <= i < |pool| && i != k ensures pool[i] in rest {
        assert rest[if i < k then i else i - 1] == pool[i];
      }
    }
  }

  lemma IsIdle(h: HttpConnectionHandler)
    ensures SlotOf(h).Idle? <==> !h.busy
  {
  }

  lemma NthIdleIsIdle(pool: seq<Slot>, n: nat)
    ensures NthIdle(pool, n) < |pool| ==> pool[NthIdle(pool, n)].Idle?
  {
  }

  lemma NoIdle()
    ensures forall n: nat {:trigger NthIdle([], n)} :: NthIdle([], n) == 0
  {
  }

  lemma NextSlot(pool: seq<Slot>, k: nat, n: nat)
    requires k < |pool|
    ensures NthIdle(pool[k..], n) ==
            if pool[k].Idle? then if n == 0 then 0 else 1 + NthIdle(pool[k + 1..], n - 1)
            else 1 + NthIdle(pool[k + 1..], n)
  {
    assert pool[k..][1..] == pool[k + 1..];
  }
}
