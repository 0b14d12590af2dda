/** Ingest stores a message and then notifies, a send only stores; a caller reads, waits, and reads again. */
module WaitProtocol {
  import opened Common
  import opened Waiter

  type Id = nat

  const WAIT_BATCH: nat := 100

  /** One long poll: before its first read, before it joins the waiter, blocked or answered there, done. */
  datatype Caller =
    | Reading(since: int)
    | Asking(since: int)
    | Blocked(since: int, ticket: nat)
    | Answered(since: int, found: seq<Id>)

  /** owed: messages stored whose notification has not run yet; received: every message ingest ever stored. */
  datatype State = State(
    rows: map<Id, int>,
    owed: map<Id, int>,
    received: set<Id>,
    board: Board,
    callers: map<Id, Caller>)

  datatype Event =
    | Insert(m: Id, at: int)
    | InsertOutbound(m: Id, at: int)
    | Notify(m: Id)
    | Delete(m: Id)
    | Ask(v: Id, since: int)
    | Read(v: Id, found: seq<Id>)
    | Wait(v: Id, delay: int)
    | Fire(ticket: nat)
    | Reread(v: Id, found: seq<Id>)

  const START := State(map[], map[], {}, EMPTY_BOARD, map[])

  ghost predicate Before(rows: map<Id, int>, a: Id, b: Id)
    requires a in rows && b in rows
  {
    rows[a] < rows[b] || (rows[a] == rows[b] && a < b)
  }

  /** found is what the query for rows newer than since returns: in order, and only cut off by the limit. */
  ghost predicate ReadAnswers(rows: map<Id, int>, since: int, found: seq<Id>) {
    && |found| <= WAIT_BATCH
    && (forall i :: 0 <= i < |found| ==> found[i] in rows && rows[found[i]] > since)
    && (forall i, j :: 0 <= i < j < |found| ==> Before(rows, found[i], found[j]))
    && (forall m :: m in rows && rows[m] > since && m !in found ==>
         |found| == WAIT_BATCH && Before(rows, found[|found| - 1], m))
  }

  ghost predicate Unused(s: State, m: Id) {
    m !in s.rows && m !in s.owed && m !in s.received
  }

  ghost predicate Enabled(s: State, e: Event) {
    match e
    case Insert(m, at) => Unused(s, m)
    case InsertOutbound(m, at) => Unused(s, m)
    case Notify(m) => m in s.owed
    case Delete(m) => m in s.rows
    case Ask(v, since) => v !in s.callers
    case Read(v, found) =>
      v in s.callers && s.callers[v].Reading? && ReadAnswers(s.rows, s.callers[v].since, found)
    case Wait(v, delay) => v in s.callers && s.callers[v].Asking?
    case Fire(ticket) => ticket in s.board.timers
    case Reread(v, found) =>
      && v in s.callers && s.callers[v].Blocked? && s.callers[v].ticket in s.board.settled
      && ReadAnswers(s.rows, s.callers[v].since, found)
  }

  ghost function After(s: State, e: Event): State
    requires Enabled(s, e)
  {
    match e
    case Insert(m, at) =>
      s.(rows := s.rows[m := at], owed := s.owed[m := at], received := s.received + {m})
    case InsertOutbound(m, at) => s.(rows := s.rows[m := at])
    case Notify(m) => s.(board := Notified(s.board, s.owed[m]), owed := s.owed - {m})
    case Delete(m) => s.(rows := s.rows - {m})
    case Ask(v, since) => s.(callers := s.callers[v := Reading(since)])
    case Read(v, found) =>
      var since := s.callers[v].since;
      s.(callers := s.callers[v := if found == [] then Asking(since) else Answered(since, found)])
    case Wait(v, delay) =>
      var since := s.callers[v].since;
      s.(board := Waited(s.board, delay, since), callers := s.callers[v := Blocked(since, s.board.issued)])
    case Fire(ticket) => s.(board := Fired(s.board, ticket))
    case Reread(v, found) => s.(callers := s.callers[v := Answered(s.callers[v].since, found)])
  }

  /** Received messages already notified lie at or below the mark; blocked callers hold the ticket they asked for. */
  ghost predicate Inv(s: State) {
    && Sound(s.board)
    && s.owed.Keys <= s.received
    && (forall m :: m in s.rows && m in s.received && m !in s.owed ==> s.rows[m] <= s.board.lastNotifiedAt)
    && (forall m :: m in s.rows && m in s.owed ==> s.rows[m] == s.owed[m])
    && (forall v :: v in s.callers && s.callers[v].Blocked? ==>
         && s.callers[v].ticket in s.board.since
         && s.board.since[s.callers[v].ticket] == s.callers[v].since)
  }

  lemma BoardAdvances(s: State, e: Event)
    requires Sound(s.board) && Enabled(s, e)
    ensures Sound(After(s, e).board) && Continues(s.board, After(s, e).board)
  {
    match e
    case Notify(m) => NotifiedKeeps(s.board, s.owed[m]);
    case Wait(v, delay) => WaitedKeeps(s.board, delay, s.callers[v].since);
    case Fire(ticket) => FiredKeeps(s.board, ticket);
    case _ =>
  }

  lemma InvKeeps(s: State, e: Event)
    requires Inv(s) && Enabled(s, e)
    ensures Inv(After(s, e))
  {
    BoardAdvances(s, e);
  }

  // ---------------------------------------------------------------- runs

  ghost predicate IsRun(states: seq<State>, events: seq<Event>) {
    && |states| == |events| + 1 && states[0] == START
    && (forall i :: 0 <= i < |events| ==> Enabled(states[i], events[i]) && states[i + 1] == After(states[i], events[i]))
  }

  lemma {:induction false} InvHolds(states: seq<State>, events: seq<Event>, i: nat)
    requires IsRun(states, events) && i <= |events|
    ensures Inv(states[i])
  {
    if i > 0 {
      InvHolds(states, events, i - 1);
      InvKeeps(states[i - 1], events[i - 1]);
    }
  }

  ghost predicate Ingested(events: seq<Event>, i: nat, m: Id)
    requires i <= |events|
  {
    exists k :: 0 <= k < i && events[k].Insert? && events[k].m == m
  }

  lemma {:induction false} ReceivedAreIngested(states: seq<State>, events: seq<Event>, i: nat, m: Id)
    requires IsRun(states, events) && i <= |events|
    ensures m in states[i].received <==> Ingested(events, i, m)
  {
    if i > 0 {
      ReceivedAreIngested(states, events, i - 1, m);
      assert states[i] == After(states[i - 1], events[i - 1]);
      if Ingested(events, i - 1, m) {
        var k :| 0 <= k < i - 1 && events[k].Insert? && events[k].m == m;
        assert 0 <= k < i && events[k].Insert? && events[k].m == m;
      }
    }
  }

  /** While a caller is blocked, a stored message it would find is still to be notified iff ingest stored it. */
  lemma NoLostWakeup(states: seq<State>, events: seq<Event>, i: nat, v: Id, m: Id)
    requires IsRun(states, events) && i <= |events|
    requires v in states[i].callers && states[i].callers[v].Blocked?
    requires states[i].callers[v].ticket in states[i].board.pending
    requires m in states[i].rows && states[i].rows[m] > states[i].callers[v].since
    ensures m in states[i].owed <==> Ingested(events, i, m)
  {
    InvHolds(states, events, i);
    ReceivedAreIngested(states, events, i, m);
    assert states[i].board.lastNotifiedAt <= states[i].board.since[states[i].callers[v].ticket];
  }

  /** Nothing but a notification or its own timer ends a wait, whatever is stored meanwhile. */
  lemma {:induction false} OnlySignalsEndWait(states: seq<State>, events: seq<Event>, i: nat, j: nat, ticket: nat)
    requires IsRun(states, events) && i <= j <= |events| && ticket in states[i].board.pending
    requires forall k :: i <= k < j ==> !events[k].Notify? && events[k] != Fire(ticket)
    ensures ticket in states[j].board.pending
  {
    if i < j {
      OnlySignalsEndWait(states, events, i, j - 1, ticket);
      assert states[j] == After(states[j - 1], events[j - 1]);
    }
  }

  lemma {:induction false} BoardContinues(states: seq<State>, events: seq<Event>, i: nat, j: nat)
    requires IsRun(states, events) && i <= j <= |events|
    ensures Continues(states[i].board, states[j].board)
  {
    if i < j {
      BoardContinues(states, events, i, j - 1);
      InvHolds(states, events, j - 1);
      BoardAdvances(states[j - 1], events[j - 1]);
    }
  }

  /** Once a message's notification has run, no caller that asked for it is ever blocked again, deleted or not. */
  lemma NotifiedNeverBlocks(states: seq<State>, events: seq<Event>, i: nat, j: nat, v: Id)
    requires IsRun(states, events) && i < j <= |events| && events[i].Notify?
    requires v in states[j].callers && states[j].callers[v].Blocked?
    requires states[j].callers[v].since < states[i].owed[events[i].m]
    ensures states[j].callers[v].ticket in states[j].board.settled
  {
    InvHolds(states, events, j);
    BoardContinues(states, events, i + 1, j);
    assert states[i + 1] == After(states[i], events[i]);
  }

  /** A wait is answered once: the answer never changes, and its timer stays disarmed. */
  lemma AnsweredOnce(states: seq<State>, events: seq<Event>, i: nat, j: nat, ticket: nat)
    requires IsRun(states, events) && i <= j <= |events| && ticket in states[i].board.settled
    ensures ticket in states[j].board.settled
    ensures states[j].board.settled[ticket] == states[i].board.settled[ticket]
    ensures ticket !in states[j].board.pending && ticket !in states[j].board.timers
  {
    InvHolds(states, events, j);
    BoardContinues(states, events, i, j);
  }

  // ---------------------------------------------------------------- what a woken caller finds

  /** The mark is where it started, or at some stored message and above where it started. */
  ghost predicate Attained(s: State) {
    || s.board.lastNotifiedAt == 0
    || (s.board.lastNotifiedAt > 0 && exists m :: m in s.rows && s.rows[m] == s.board.lastNotifiedAt)
  }

  ghost predicate Undeleted(events: seq<Event>, i: nat)
    requires i <= |events|
  {
    forall k :: 0 <= k < i ==> !events[k].Delete?
  }

  ghost predicate OwedStored(s: State) {
    forall m :: m in s.owed ==> m in s.rows && s.rows[m] == s.owed[m]
  }

  lemma AttainedKeeps(s: State, e: Event)
    requires Enabled(s, e) && !e.Delete? && Attained(s) && OwedStored(s)
    ensures Attained(After(s, e)) && OwedStored(After(s, e))
  {
    var t := After(s, e);
    forall m | m in s.rows
      ensures m in t.rows && t.rows[m] == s.rows[m]
    {
    }
    if e.Notify? {
      assert e.m in t.rows && t.rows[e.m] == s.owed[e.m];
    }
  }

  lemma {:induction false} AttainedHolds(states: seq<State>, events: seq<Event>, i: nat)
    requires IsRun(states, events) && i <= |events| && Undeleted(events, i)
    ensures Attained(states[i]) && OwedStored(states[i])
  {
    if i > 0 {
      AttainedHolds(states, events, i - 1);
      AttainedKeeps(states[i - 1], events[i - 1]);
    }
  }

  lemma FoundNewer(rows: map<Id, int>, since: int, found: seq<Id>)
    requires ReadAnswers(rows, since, found) && found != []
    ensures found[0] in rows && rows[found[0]] > since
  {
  }

  ghost predicate NothingNewer(rows: map<Id, int>, since: int) {
    forall m :: m in rows ==> rows[m] <= since
  }

  /**
   * With nothing deleted, a caller the mark has passed comes back empty exactly when it asked for a negative time,
   * the mark is still where it started, and nothing newer is stored.
   */
  lemma PassedCallerFinds(states: seq<State>, events: seq<Event>, i: nat)
    requires IsRun(states, events) && i < |events| && Undeleted(events, i) && events[i].Reread?
    requires states[i].callers[events[i].v].since < states[i].board.lastNotifiedAt
    ensures var s, since := states[i], states[i].callers[events[i].v].since;
      events[i].found == [] <==> since < 0 && s.board.lastNotifiedAt == 0 && NothingNewer(s.rows, since)
  {
    AttainedHolds(states, events, i);
    assert Enabled(states[i], events[i]);
    if events[i].found != [] {
      FoundNewer(states[i].rows, states[i].callers[events[i].v].since, events[i].found);
    }
  }

  /** A message that alone is newer is all there is to find. */
  lemma LoneNewerFound(rows: map<Id, int>, since: int, m: Id, found: seq<Id>)
    requires m in rows && ReadAnswers(rows, since, found)
    requires forall other :: other in rows && other != m ==> rows[other] <= since
    ensures found == if rows[m] > since then [m] else []
  {
    assert |found| > 1 ==> Before(rows, found[0], found[1]);
    assert found != [] ==> found[0] in rows && rows[found[0]] > since;
  }

  /** The notification of a stored message ends the wait of every blocked caller; only a newer row gives it mail. */
  lemma NotifyEndsWait(s: State, m: Id, v: Id, found: seq<Id>)
    requires Inv(s) && m in s.owed && m in s.rows
    requires v in s.callers && s.callers[v].Blocked? && s.callers[v].ticket in s.board.pending
    requires ReadAnswers(s.rows, s.callers[v].since, found)
    ensures Enabled(After(s, Notify(m)), Reread(v, found))
    ensures After(s, Notify(m)).board.settled[s.callers[v].ticket]
    ensures found == [] <==> NothingNewer(s.rows, s.callers[v].since)
    ensures m in found <==> s.owed[m] > s.callers[v].since && !CutOff(s.rows, found, m)
    ensures (forall other :: other in s.rows && other != m ==> s.rows[other] <= s.callers[v].since) ==>
      found == if s.owed[m] > s.callers[v].since then [m] else []
  {
    if found != [] {
      FoundNewer(s.rows, s.callers[v].since, found);
    }
    if forall other :: other in s.rows && other != m ==> s.rows[other] <= s.callers[v].since {
      LoneNewerFound(s.rows, s.callers[v].since, m, found);
    }
    if m in found {
      var i :| 0 <= i < |found| && found[i] == m;
      NotPastLast(s.rows, s.callers[v].since, found, i);
    }
  }

  /** A full batch whose last row comes before m. */
  ghost predicate CutOff(rows: map<Id, int>, found: seq<Id>, m: Id) {
    && |found| == WAIT_BATCH && found[WAIT_BATCH - 1] in rows && m in rows
    && Before(rows, found[WAIT_BATCH - 1], m)
  }

  lemma NotPastLast(rows: map<Id, int>, since: int, found: seq<Id>, i: nat)
    requires ReadAnswers(rows, since, found) && i < |found|
    ensures found[i] in rows && !CutOff(rows, found, found[i])
  {
    if |found| == WAIT_BATCH && i < WAIT_BATCH - 1 {
      assert Before(rows, found[i], found[WAIT_BATCH - 1]);
    }
  }

  ghost function BlockedOn(since: int, delay: int): State {
    State(map[], map[], {}, Board({0}, map[0 := Max(0, delay)], 0, map[], map[0 := since], 1),
          map[0 := Blocked(since, 0)])
  }

  lemma BlocksFirst(since: int, delay: int)
    requires 0 <= since
    ensures Enabled(START, Ask(0, since))
    ensures var s1 := After(START, Ask(0, since));
      && Enabled(s1, Read(0, []))
      && Enabled(After(s1, Read(0, [])), Wait(0, delay))
      && After(After(s1, Read(0, [])), Wait(0, delay)) == BlockedOn(since, delay)
  {
    var s1 := After(START, Ask(0, since));
    var s2 := After(s1, Read(0, []));
    assert s2 == State(map[], map[], {}, EMPTY_BOARD, map[0 := Asking(since)]);
    assert Waited(EMPTY_BOARD, delay, since) == BlockedOn(since, delay).board;
    assert s2.callers[0 := Blocked(since, 0)] == map[0 := Blocked(since, 0)];
  }

  lemma WokenEarly(since: int, at: int, delay: int)
    requires 0 <= at <= since
    ensures var s3 := BlockedOn(since, delay);
      && Enabled(s3, Insert(0, at))
      && Enabled(After(s3, Insert(0, at)), Notify(0))
      && var s5 := After(After(s3, Insert(0, at)), Notify(0));
      && Enabled(s5, Reread(0, []))
      && s5.board.settled == map[0 := true]
      && After(s5, Reread(0, [])).callers == map[0 := Answered(since, [])]
  {
    var s3 := BlockedOn(since, delay);
    var s5 := After(After(s3, Insert(0, at)), Notify(0));
    assert s5.board.settled == map[0 := true];
    assert s5.rows == map[0 := at];
  }

  /** So a message stamped before the caller asked, but stored later, sends the caller home early with nothing. */
  lemma EarlyEmptyAnswer(since: int, at: int, delay: int) returns (states: seq<State>, events: seq<Event>)
    requires 0 <= at <= since
    ensures events == [Ask(0, since), Read(0, []), Wait(0, delay), Insert(0, at), Notify(0), Reread(0, [])]
    ensures IsRun(states, events)
    ensures states[5].board.settled == map[0 := true] && states[6].callers == map[0 := Answered(since, [])]
  {
    events := [Ask(0, since), Read(0, []), Wait(0, delay), Insert(0, at), Notify(0), Reread(0, [])];
    BlocksFirst(since, delay);
    WokenEarly(since, at, delay);
    var s1 := After(START, events[0]);
    var s2 := After(s1, events[1]);
    var s3 := BlockedOn(since, delay);
    var s4 := After(s3, events[3]);
    var s5 := After(s4, events[4]);
    states := [START, s1, s2, s3, s4, s5, After(s5, events[5])];
  }

  /** A caller that asks for a negative time of an inbox nobody was notified about is not made to wait at all. */
  lemma NegativeSinceNeverWaits(since: int, delay: int) returns (states: seq<State>, events: seq<Event>)
    requires since < 0
    ensures events == [Ask(0, since), Read(0, []), Wait(0, delay), Reread(0, [])]
    ensures IsRun(states, events)
    ensures states[3].board.settled == map[0 := true] && states[4].callers == map[0 := Answered(since, [])]
  {
    events := [Ask(0, since), Read(0, []), Wait(0, delay), Reread(0, [])];
    var s1 := After(START, events[0]);
    var s2 := After(s1, events[1]);
    assert s2 == State(map[], map[], {}, EMPTY_BOARD, map[0 := Asking(since)]);
    var s3 := After(s2, events[2]);
    assert s3.board.settled == map[0 := true];
    assert s3.callers == map[0 := Blocked(since, 0)];
    var s4 := After(s3, events[3]);
    assert s4.callers == map[0 := Answered(since, [])];
    states := [START, s1, s2, s3, s4];
  }

  /** A message sent from the inbox leaves a caller asleep that would find it: only the timer brings the mail. */
  lemma SentNotSignalled(since: int, at: int, delay: int) returns (states: seq<State>, events: seq<Event>)
    requires 0 <= since < at
    ensures events == [Ask(0, since), Read(0, []), Wait(0, delay), InsertOutbound(0, at), Fire(0), Reread(0, [0])]
    ensures IsRun(states, events)
    ensures states[4].callers == map[0 := Blocked(since, 0)] && 0 in states[4].board.pending
    ensures states[4].rows == map[0 := at] && states[4].owed == map[]
    ensures states[6].callers == map[0 := Answered(since, [0])]
  {
    events := [Ask(0, since), Read(0, []), Wait(0, delay), InsertOutbound(0, at), Fire(0), Reread(0, [0])];
    BlocksFirst(since, delay);
    var s1 := After(START, events[0]);
    var s2 := After(s1, events[1]);
    var s3 := BlockedOn(since, delay);
    var s4 := After(s3, events[3]);
    var s5 := After(s4, events[4]);
    states := [START, s1, s2, s3, s4, s5, After(s5, events[5])];
  }
}
