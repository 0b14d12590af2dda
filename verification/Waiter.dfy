/** The per-inbox object that long-polling callers block on. */
module Waiter {
  import opened Common

  /**
   * pending: waits still blocked; timers: the delay of each armed timer; settled: what each wait
   * was answered (true when notified, false when its timer fired); since: what each wait asked for.
   */
  datatype Board = Board(pending: set<nat>, timers: map<nat, nat>, lastNotifiedAt: int,
                         settled: map<nat, bool>, since: map<nat, int>, issued: nat)

  const EMPTY_BOARD := Board({}, map[], 0, map[], map[], 0)

  function Marked(settled: map<nat, bool>, woken: set<nat>): map<nat, bool> {
    settled + map v | v in woken :: true
  }

  /** Everyone blocked is answered true and loses its timer; the high-water mark rises. */
  function Notified(b: Board, createdAt: int): Board {
    b.(pending := {}, timers := b.timers - b.pending, lastNotifiedAt := Max(b.lastNotifiedAt, createdAt),
       settled := Marked(b.settled, b.pending))
  }

  /** A wait behind the high-water mark is answered at once; any other blocks with an armed timer. */
  function Waited(b: Board, delay: int, since: int): Board {
    var asked := b.(since := b.since[b.issued := since], issued := b.issued + 1);
    if b.lastNotifiedAt > since then asked.(settled := b.settled[b.issued := true])
    else asked.(pending := b.pending + {b.issued}, timers := b.timers[b.issued := Max(0, delay)])
  }

  function Fired(b: Board, ticket: nat): Board
    requires ticket in b.timers
  {
    b.(pending := b.pending - {ticket}, timers := b.timers - {ticket}, settled := b.settled[ticket := false])
  }

  /** Each wait is either blocked with its timer armed or answered without one, and no blocked wait is behind. */
  ghost predicate Sound(b: Board) {
    && b.timers.Keys == b.pending
    && b.pending !! b.settled.Keys
    && (forall v: nat :: v < b.issued <==> v in b.pending + b.settled.Keys)
    && b.since.Keys == b.pending + b.settled.Keys
    && (forall v :: v in b.pending ==> b.lastNotifiedAt <= b.since[v])
  }

  /** What was answered stays as it was answered, what was asked stays, and the mark never falls. */
  ghost predicate Continues(b: Board, c: Board) {
    && (forall v :: v in b.settled ==> v in c.settled && c.settled[v] == b.settled[v])
    && (forall v :: v in b.since ==> v in c.since && c.since[v] == b.since[v])
    && b.lastNotifiedAt <= c.lastNotifiedAt && b.issued <= c.issued
  }

  lemma NotifiedKeeps(b: Board, createdAt: int)
    requires Sound(b)
    ensures Sound(Notified(b, createdAt)) && Continues(b, Notified(b, createdAt))
    ensures forall v :: v in b.pending ==> v in Notified(b, createdAt).settled && Notified(b, createdAt).settled[v]
  {
    var c := Notified(b, createdAt);
    assert c.settled.Keys == b.pending + b.settled.Keys;
  }

  lemma WaitedKeeps(b: Board, delay: int, since: int)
    requires Sound(b)
    ensures Sound(Waited(b, delay, since)) && Continues(b, Waited(b, delay, since))
  {
    var c := Waited(b, delay, since);
    assert c.pending + c.settled.Keys == b.pending + b.settled.Keys + {b.issued};
    assert b.issued !in b.since;
  }

  lemma FiredKeeps(b: Board, ticket: nat)
    requires Sound(b) && ticket in b.timers
    ensures Sound(Fired(b, ticket)) && Continues(b, Fired(b, ticket))
  {
    var c := Fired(b, ticket);
    assert c.pending + c.settled.Keys == b.pending + b.settled.Keys;
  }

  /** The object itself: a set of blocked waits, the mark, one timer a wait. */
  class InboxWaiter {
    var pending: set<nat>
    var timers: map<nat, nat>
    var lastNotifiedAt: int
    var settled: map<nat, bool>
    var issued: nat
    ghost var since: map<nat, int>

    constructor ()
      ensures Valid() && Now() == EMPTY_BOARD
    {
      pending, timers, lastNotifiedAt, settled, issued, since := {}, map[], 0, map[], 0, map[];
    }

    ghost function Now(): Board
      reads this
    {
      Board(pending, timers, lastNotifiedAt, settled, since, issued)
    }

    ghost predicate Valid()
      reads this
    {
      Sound(Now())
    }

    /** Answers one wait; a wait is never answered twice. */
    method Resolve(ticket: nat, answer: bool)
      requires ticket !in settled
      modifies `settled
      ensures settled == old(settled)[ticket := answer]
    {
      settled := settled[ticket := answer];
    }

    method Notify(createdAt: int)
      requires Valid()
      modifies this
      ensures Valid() && Now() == Notified(old(Now()), createdAt)
    {
      NotifiedKeeps(Now(), createdAt);
      lastNotifiedAt := Max(lastNotifiedAt, createdAt);
      var woken := pending;
      pending := {};
      WakeAll(woken);
    }

    /** Disarms and answers the copied waiters one by one. */
    method WakeAll(woken: set<nat>)
      requires woken !! settled.Keys
      modifies `timers, `settled
      ensures timers == old(timers) - woken && settled == Marked(old(settled), woken)
    {
      var left := woken;
      ghost var done: set<nat> := {};
      while left != {}
        invariant done !! left && done + left == woken && left !! settled.Keys
        invariant timers == old(timers) - done && settled == Marked(old(settled), done)
      {
        var waiter :| waiter in left;
        if waiter in timers {
          timers := timers - {waiter};
        }
        Resolve(waiter, true);
        assert Marked(old(settled), done)[waiter := true] == Marked(old(settled), done + {waiter});
        left, done := left - {waiter}, done + {waiter};
      }
      assert done == woken;
    }

    method Wait(timeoutMs: int, asked: int) returns (ticket: nat)
      requires Valid()
      modifies this
      ensures Valid() && Now() == Waited(old(Now()), timeoutMs, asked) && ticket == old(issued)
    {
      WaitedKeeps(Now(), timeoutMs, asked);
      ticket, issued := issued, issued + 1;
      since := since[ticket := asked];
      if lastNotifiedAt > asked {
        Resolve(ticket, true);
      } else {
        pending := pending + {ticket};
        timers := timers[ticket := Max(0, timeoutMs)];
      }
    }

    /** The timer's callback. */
    method Fire(ticket: nat)
      requires Valid() && ticket in timers
      modifies this
      ensures Valid() && Now() == Fired(old(Now()), ticket)
    {
      FiredKeeps(Now(), ticket);
      timers := timers - {ticket};
      pending := pending - {ticket};
      Resolve(ticket, false);
    }
  }
}
