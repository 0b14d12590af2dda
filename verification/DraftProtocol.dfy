/** Concurrent senders, drains, updates and deletes of drafts, interleaved one statement at a time. */
module DraftProtocol {
  import opened DraftStatus

  type Id = nat

  /** A draft row; body names the content last written to it. */
  datatype Row = Row(status: Status, body: nat)

  /** Where a request stands between two statements. body is what it loaded; found, what the row held when claimed. */
  datatype Worker =
    | Loaded(draft: Id, body: nat, drain: bool)
    | Claimed(draft: Id, body: nat, found: nat)
    | Delivered(draft: Id, body: nat, found: nat)
    | Refused(draft: Id, body: nat, found: nat)
    | UpdateChecked(draft: Id)
    | DeleteChecked(draft: Id)

  /** One successful dispatch of a draft's content to the transport; found is what the row held when it was claimed. */
  datatype Delivery = Delivery(draft: Id, body: nat, found: nat)

  datatype State = State(rows: map<Id, Row>, workers: map<Id, Worker>, used: set<Id>, log: seq<Delivery>)

  datatype Action =
    | Create(f: Id, status: Status, body: nat)
    | Load(w: Id, f: Id)
    | ListDue(w: Id, f: Id)
    | Claim(w: Id)
    | Dispatch(w: Id, accepted: bool)
    | Mark(w: Id)
    | CheckUpdate(w: Id, f: Id)
    | WriteUpdate(w: Id, status: Status, body: nat)
    | CheckDelete(w: Id, f: Id)
    | WriteDelete(w: Id)
    | Cascade(gone: set<Id>)

  /** The statuses a claim's UPDATE accepts: a drain takes scheduled drafts only. */
  predicate Claimable(status: Status, drain: bool) {
    if drain then status == Scheduled else status in OPEN_STATUSES
  }

  const INITIAL := State(map[], map[], {}, [])

  predicate Enabled(s: State, a: Action) {
    match a
    case Create(f, status, _) => f !in s.used && f !in s.rows && status in {Open, Scheduled}
    case Load(w, f) => w !in s.workers && f in s.rows && s.rows[f].status in OPEN_STATUSES
    case ListDue(w, f) => w !in s.workers && f in s.rows && s.rows[f].status == Scheduled
    case Claim(w) => w in s.workers && s.workers[w].Loaded?
    case Dispatch(w, _) => w in s.workers && s.workers[w].Claimed?
    case Mark(w) => w in s.workers && (s.workers[w].Delivered? || s.workers[w].Refused?)
    case CheckUpdate(w, f) => w !in s.workers && f in s.rows && s.rows[f].status in OPEN_STATUSES
    case WriteUpdate(w, status, _) => w in s.workers && s.workers[w].UpdateChecked? && status in {Open, Scheduled}
    case CheckDelete(w, f) => w !in s.workers && f in s.rows && s.rows[f].status != Sending
    case WriteDelete(w) => w in s.workers && s.workers[w].DeleteChecked?
    case Cascade(_) => true
  }

  function Next(s: State, a: Action): State
    requires Enabled(s, a)
  {
    match a
    case Create(f, status, body) =>
      s.(rows := s.rows[f := Row(status, body)], used := s.used + {f})
    case Load(w, f) => s.(workers := s.workers[w := Loaded(f, s.rows[f].body, false)])
    case ListDue(w, f) => s.(workers := s.workers[w := Loaded(f, s.rows[f].body, true)])
    case Claim(w) =>
      var me := s.workers[w];
      if me.draft in s.rows && Claimable(s.rows[me.draft].status, me.drain) then
        s.(rows := s.rows[me.draft := s.rows[me.draft].(status := Sending)],
           workers := s.workers[w := Claimed(me.draft, me.body, s.rows[me.draft].body)])
      else s.(workers := s.workers - {w})
    case Dispatch(w, accepted) =>
      var me := s.workers[w];
      if accepted then
        s.(workers := s.workers[w := Delivered(me.draft, me.body, me.found)],
           log := s.log + [Delivery(me.draft, me.body, me.found)])
      else s.(workers := s.workers[w := Refused(me.draft, me.body, me.found)])
    case Mark(w) =>
      var me := s.workers[w];
      s.(rows := SetStatus(s.rows, me.draft, if me.Delivered? then Sent else Failed), workers := s.workers - {w})
    case CheckUpdate(w, f) => s.(workers := s.workers[w := UpdateChecked(f)])
    case WriteUpdate(w, status, body) =>
      var f := s.workers[w].draft;
      s.(rows := if f in s.rows then s.rows[f := Row(status, body)] else s.rows, workers := s.workers - {w})
    case CheckDelete(w, f) => s.(workers := s.workers[w := DeleteChecked(f)])
    case WriteDelete(w) =>
      s.(rows := s.rows - {s.workers[w].draft}, workers := s.workers - {w})
    case Cascade(gone) => s.(rows := s.rows - gone)
  }

  /** UPDATE ... WHERE draft_id = ?: changes nothing when the row is gone. */
  function SetStatus(rows: map<Id, Row>, f: Id, status: Status): map<Id, Row> {
    if f in rows then rows[f := rows[f].(status := status)] else rows
  }

  // ---------------------------------------------------------------- runs

  ghost predicate Runs(s: State, actions: seq<Action>)
    decreases |actions|
  {
    actions == [] || (Enabled(s, actions[0]) && Runs(Next(s, actions[0]), actions[1..]))
  }

  ghost function After(s: State, actions: seq<Action>): State
    requires Runs(s, actions)
    decreases |actions|
  {
    if actions == [] then s else After(Next(s, actions[0]), actions[1..])
  }

  // ---------------------------------------------------------------- mutual exclusion

  predicate InFlight(worker: Worker) {
    worker.Claimed? || worker.Delivered? || worker.Refused?
  }

  predicate Sends(worker: Worker, f: Id) {
    InFlight(worker) && worker.draft == f
  }

  /** A draft is sending exactly when one worker is between its claim and its mark. */
  ghost predicate Exclusive(s: State) {
    && (forall w :: w in s.workers && InFlight(s.workers[w]) ==>
         s.workers[w].draft in s.rows && s.rows[s.workers[w].draft].status == Sending)
    && (forall v, w ::
         (v in s.workers && w in s.workers && InFlight(s.workers[v]) && InFlight(s.workers[w])
           && s.workers[v].draft == s.workers[w].draft) ==> v == w)
    && (forall f :: f in s.rows && s.rows[f].status == Sending ==> exists w :: w in s.workers && Sends(s.workers[w], f))
  }

  /** A sent draft is never written again. */
  ghost predicate SentKept(s: State, e: State) {
    forall f :: f in s.rows && s.rows[f].status == Sent && f in e.rows ==> e.rows[f] == s.rows[f]
  }

  /** An update's, a delete's and an inbox deletion's unguarded writes find rows they may change. */
  predicate Guarded(s: State, a: Action)
    requires Enabled(s, a)
  {
    match a
    case WriteUpdate(w, _, _) =>
      s.workers[w].draft in s.rows ==> s.rows[s.workers[w].draft].status in OPEN_STATUSES
    case WriteDelete(w) =>
      s.workers[w].draft in s.rows ==> s.rows[s.workers[w].draft].status != Sending
    case Cascade(gone) => forall f :: f in gone && f in s.rows ==> s.rows[f].status != Sending
    case _ => true
  }

  /** A step moves one worker and leaves every other where it is. */
  lemma OthersUntouched(s: State, a: Action)
    requires Enabled(s, a)
    ensures forall v :: v in Next(s, a).workers && (a.Create? || a.Cascade? || v != a.w) ==>
      v in s.workers && Next(s, a).workers[v] == s.workers[v]
  {
  }

  lemma RowsStaySending(s: State, a: Action, w: Id)
    requires Exclusive(s) && Enabled(s, a) && Guarded(s, a)
    requires w in Next(s, a).workers && InFlight(Next(s, a).workers[w])
    ensures var f := Next(s, a).workers[w].draft; f in Next(s, a).rows && Next(s, a).rows[f].status == Sending
  {
    OthersUntouched(s, a);
    if a.Mark? {
      assert InFlight(s.workers[a.w]);
    }
  }

  lemma SendingStaysHeld(s: State, a: Action, f: Id)
    requires Exclusive(s) && Enabled(s, a)
    requires f in Next(s, a).rows && Next(s, a).rows[f].status == Sending
    ensures exists w :: w in Next(s, a).workers && Sends(Next(s, a).workers[w], f)
  {
    var e := Next(s, a);
    if !(a.Claim? && a.w in e.workers && Sends(e.workers[a.w], f)) {
      var w :| w in s.workers && Sends(s.workers[w], f);
      assert Sends(e.workers[w], f);
    }
  }

  lemma SentStays(s: State, a: Action)
    requires Exclusive(s) && Enabled(s, a) && Guarded(s, a)
    ensures SentKept(s, Next(s, a))
  {
    if a.Mark? {
      assert InFlight(s.workers[a.w]);
    }
  }

  lemma GuardedKeeps(s: State, a: Action)
    requires Exclusive(s) && Enabled(s, a) && Guarded(s, a)
    ensures Exclusive(Next(s, a)) && SentKept(s, Next(s, a))
  {
    var e := Next(s, a);
    forall w | w in e.workers && InFlight(e.workers[w])
      ensures e.workers[w].draft in e.rows && e.rows[e.workers[w].draft].status == Sending
    {
      RowsStaySending(s, a, w);
    }
    forall v, w | v in e.workers && w in e.workers && InFlight(e.workers[v]) && InFlight(e.workers[w])
                  && e.workers[v].draft == e.workers[w].draft
      ensures v == w
    {
    }
    forall f | f in e.rows && e.rows[f].status == Sending
      ensures exists w :: w in e.workers && Sends(e.workers[w], f)
    {
      SendingStaysHeld(s, a, f);
    }
    SentStays(s, a);
  }

  lemma UnguardedBreaks(s: State, a: Action)
    requires Exclusive(s) && Enabled(s, a) && !Guarded(s, a)
    ensures !(Exclusive(Next(s, a)) && SentKept(s, Next(s, a)))
  {
    var e := Next(s, a);
    if a.Cascade? {
      var f :| f in a.gone && f in s.rows && s.rows[f].status == Sending;
      var w :| w in s.workers && Sends(s.workers[w], f);
      assert w in e.workers && Sends(e.workers[w], f) && f !in e.rows;
      return;
    }
    var f := s.workers[a.w].draft;
    if s.rows[f].status == Sending {
      var w :| w in s.workers && Sends(s.workers[w], f);
      assert w in e.workers && Sends(e.workers[w], f);
    }
  }

  /** Every state of a run is exclusive and no step touches a sent row. */
  ghost predicate SafeRun(s: State, actions: seq<Action>)
    requires Runs(s, actions)
    decreases |actions|
  {
    Exclusive(s) &&
    (actions != [] ==>
      SentKept(s, Next(s, actions[0])) && SafeRun(Next(s, actions[0]), actions[1..]))
  }

  ghost predicate GuardedRun(s: State, actions: seq<Action>)
    requires Runs(s, actions)
    decreases |actions|
  {
    actions != [] ==> Guarded(s, actions[0]) && GuardedRun(Next(s, actions[0]), actions[1..])
  }

  /** A run is safe if and only if no update, delete or inbox deletion writes to a row that forbids it by then. */
  lemma {:induction false} SafeExactlyWhenGuarded(s: State, actions: seq<Action>)
    requires Exclusive(s) && Runs(s, actions)
    ensures SafeRun(s, actions) <==> GuardedRun(s, actions)
    decreases |actions|
  {
    if actions != [] {
      if Guarded(s, actions[0]) {
        GuardedKeeps(s, actions[0]);
        SafeExactlyWhenGuarded(Next(s, actions[0]), actions[1..]);
      } else {
        UnguardedBreaks(s, actions[0]);
      }
    }
  }

  // ---------------------------------------------------------------- at most one delivery

  function Deliveries(log: seq<Delivery>, f: Id): nat {
    if log == [] then 0
    else Deliveries(log[..|log| - 1], f) + if log[|log| - 1].draft == f then 1 else 0
  }

  /** How often a draft was delivered, told from its row and its worker. */
  ghost predicate Counted(s: State) {
    && s.rows.Keys <= s.used
    && (forall f :: Deliveries(s.log, f) <= 1)
    && (forall f :: f !in s.used ==> Deliveries(s.log, f) == 0)
    && (forall f :: f in s.rows && s.rows[f].status in OPEN_STATUSES ==> Deliveries(s.log, f) == 0)
    && (forall f :: f in s.rows && s.rows[f].status == Sent ==> Deliveries(s.log, f) == 1)
    && (forall w :: w in s.workers && InFlight(s.workers[w]) ==>
         Deliveries(s.log, s.workers[w].draft) == if s.workers[w].Delivered? then 1 else 0)
  }

  ghost predicate Logged(log: seq<Delivery>, d: Delivery) {
    d in log && forall other :: other in log && other.draft == d.draft ==> other == d
  }

  /**
   * A draft's row keeps the body it had when it was claimed, while it is being sent and once it is sent;
   * and the draft's one delivery is the one its sender made.
   */
  ghost predicate BodyHeld(s: State) {
    && (forall w :: w in s.workers && InFlight(s.workers[w]) ==>
         s.workers[w].draft in s.rows && s.rows[s.workers[w].draft].body == s.workers[w].found)
    && (forall w :: w in s.workers && s.workers[w].Delivered? ==>
         Logged(s.log, Delivery(s.workers[w].draft, s.workers[w].body, s.workers[w].found)))
    && (forall f :: f in s.rows && s.rows[f].status == Sent ==>
         exists d :: Logged(s.log, d) && d.draft == f && d.found == s.rows[f].body)
  }

  lemma LogStep(log: seq<Delivery>, d: Delivery, f: Id)
    ensures Deliveries(log + [d], f) == Deliveries(log, f) + if d.draft == f then 1 else 0
  {
    assert (log + [d])[..|log|] == log;
  }

  lemma CountedStep(s: State, a: Action)
    requires Exclusive(s) && Counted(s) && Enabled(s, a) && Guarded(s, a)
    ensures Counted(Next(s, a))
  {
    match a
    case Dispatch(w, accepted) => CountedDispatch(s, w, accepted);
    case Mark(w) => CountedMark(s, w);
    case _ => CountedQuietly(s, a);
  }

  lemma CountedDispatch(s: State, w: Id, accepted: bool)
    requires Exclusive(s) && Counted(s) && Enabled(s, Dispatch(w, accepted))
    ensures Counted(Next(s, Dispatch(w, accepted)))
  {
    var me := s.workers[w];
    assert InFlight(me);
    if accepted {
      forall f {
        LogStep(s.log, Delivery(me.draft, me.body, me.found), f);
      }
    }
  }

  lemma CountedMark(s: State, w: Id)
    requires Exclusive(s) && Counted(s) && Enabled(s, Mark(w))
    ensures Counted(Next(s, Mark(w)))
  {
    assert InFlight(s.workers[w]);
  }

  lemma CountedQuietly(s: State, a: Action)
    requires Exclusive(s) && Counted(s) && Enabled(s, a) && Guarded(s, a) && !a.Dispatch? && !a.Mark?
    ensures Counted(Next(s, a))
  {
    OthersUntouched(s, a);
  }

  lemma {:induction false} NoDelivery(log: seq<Delivery>, f: Id)
    requires Deliveries(log, f) == 0
    ensures forall d :: d in log ==> d.draft != f
  {
    if log != [] {
      NoDelivery(log[..|log| - 1], f);
      assert log == log[..|log| - 1] + [log[|log| - 1]];
    }
  }

  lemma BodyDispatch(s: State, w: Id, accepted: bool)
    requires Exclusive(s) && Counted(s) && BodyHeld(s) && Enabled(s, Dispatch(w, accepted))
    ensures BodyHeld(Next(s, Dispatch(w, accepted)))
  {
    var me, e := s.workers[w], Next(s, Dispatch(w, accepted));
    assert InFlight(me);
    if accepted {
      var more := Delivery(me.draft, me.body, me.found);
      NoDelivery(s.log, me.draft);
      assert Logged(e.log, more);
      forall v | v in e.workers && e.workers[v].Delivered?
        ensures Logged(e.log, Delivery(e.workers[v].draft, e.workers[v].body, e.workers[v].found))
      {
        if v != w {
          assert InFlight(s.workers[v]);
        }
      }
      forall f | f in e.rows && e.rows[f].status == Sent
        ensures exists d :: Logged(e.log, d) && d.draft == f && d.found == e.rows[f].body
      {
        var d :| Logged(s.log, d) && d.draft == f && d.found == s.rows[f].body;
      }
    }
  }

  lemma BodyMark(s: State, w: Id)
    requires Exclusive(s) && BodyHeld(s) && Enabled(s, Mark(w))
    ensures BodyHeld(Next(s, Mark(w)))
  {
    var me, e := s.workers[w], Next(s, Mark(w));
    assert InFlight(me);
    forall f | f in e.rows && e.rows[f].status == Sent
      ensures exists d :: Logged(e.log, d) && d.draft == f && d.found == e.rows[f].body
    {
      if f == me.draft {
        assert Logged(s.log, Delivery(f, me.body, me.found));
      } else {
        var d :| Logged(s.log, d) && d.draft == f && d.found == s.rows[f].body;
        assert Logged(e.log, d);
      }
    }
  }

  lemma BodyQuietly(s: State, a: Action)
    requires Exclusive(s) && BodyHeld(s) && Enabled(s, a) && Guarded(s, a) && !a.Dispatch? && !a.Mark?
    ensures BodyHeld(Next(s, a))
  {
    OthersUntouched(s, a);
    var e := Next(s, a);
    forall f | f in e.rows && e.rows[f].status == Sent
      ensures exists d :: Logged(e.log, d) && d.draft == f && d.found == e.rows[f].body
    {
      var d :| Logged(s.log, d) && d.draft == f && d.found == s.rows[f].body;
      assert Logged(e.log, d);
    }
  }

  lemma BodyStep(s: State, a: Action)
    requires Exclusive(s) && Counted(s) && BodyHeld(s) && Enabled(s, a) && Guarded(s, a)
    ensures BodyHeld(Next(s, a))
  {
    match a
    case Dispatch(w, accepted) => BodyDispatch(s, w, accepted);
    case Mark(w) => BodyMark(s, w);
    case _ => BodyQuietly(s, a);
  }

  /** Over any guarded run every draft is delivered at most once, and exactly once when it is marked sent. */
  lemma {:induction false} DeliveredOnce(s: State, actions: seq<Action>)
    requires Exclusive(s) && Counted(s) && BodyHeld(s) && Runs(s, actions) && GuardedRun(s, actions)
    ensures Exclusive(After(s, actions)) && Counted(After(s, actions)) && BodyHeld(After(s, actions))
    decreases |actions|
  {
    if actions != [] {
      GuardedKeeps(s, actions[0]);
      CountedStep(s, actions[0]);
      BodyStep(s, actions[0]);
      DeliveredOnce(Next(s, actions[0]), actions[1..]);
    }
  }

  lemma GuardedRunsFromStart(actions: seq<Action>, f: Id)
    requires Runs(INITIAL, actions) && GuardedRun(INITIAL, actions)
    ensures var e := After(INITIAL, actions);
      && Deliveries(e.log, f) <= 1
      && (f in e.rows && e.rows[f].status == Sent ==> Deliveries(e.log, f) == 1)
      && (f in e.rows && e.rows[f].status in OPEN_STATUSES ==> Deliveries(e.log, f) == 0)
  {
    DeliveredOnce(INITIAL, actions);
  }

  // ---------------------------------------------------------------- which body a sent draft went out with

  /** The run's k-th action is a claim of the draft that succeeds; loaded is the claimant's body, found the row's. */
  ghost predicate ClaimedAt(actions: seq<Action>, k: nat, f: Id, loaded: nat, found: nat) {
    && k < |actions| && actions[k].Claim? && Runs(INITIAL, actions[..k])
    && var s := After(INITIAL, actions[..k]);
    && Enabled(s, actions[k]) && s.workers[actions[k].w].draft == f && s.workers[actions[k].w].body == loaded
    && f in s.rows && Claimable(s.rows[f].status, s.workers[actions[k].w].drain) && s.rows[f].body == found
  }

  lemma {:induction false} RunPrefix(s: State, actions: seq<Action>, n: nat)
    requires Runs(s, actions) && n < |actions|
    ensures Runs(s, actions[..n]) && Runs(s, actions[..n + 1]) && Enabled(After(s, actions[..n]), actions[n])
    ensures After(s, actions[..n + 1]) == Next(After(s, actions[..n]), actions[n])
    decreases n
  {
    assert actions[..n + 1][1..] == actions[1..][..n];
    if n == 0 {
      assert actions[..n] == [] && actions[..n + 1] == [actions[0]];
    } else {
      assert actions[..n][1..] == actions[1..][..n - 1];
      RunPrefix(Next(s, actions[0]), actions[1..], n - 1);
    }
  }

  /** Every worker past its claim, and every delivery, goes back to a claim of the run. */
  ghost predicate Traced(s: State, actions: seq<Action>) {
    && (forall w :: w in s.workers && InFlight(s.workers[w]) ==>
         exists k: nat :: ClaimedAt(actions, k, s.workers[w].draft, s.workers[w].body, s.workers[w].found))
    && (forall d :: d in s.log ==> exists k: nat :: ClaimedAt(actions, k, d.draft, d.body, d.found))
  }

  lemma TracedStep(s: State, actions: seq<Action>, n: nat)
    requires n < |actions| && Runs(INITIAL, actions[..n]) && s == After(INITIAL, actions[..n]) && Enabled(s, actions[n])
    requires Traced(s, actions)
    ensures Traced(Next(s, actions[n]), actions)
  {
    var a, e := actions[n], Next(s, actions[n]);
    forall w | w in e.workers && InFlight(e.workers[w])
      ensures exists k: nat :: ClaimedAt(actions, k, e.workers[w].draft, e.workers[w].body, e.workers[w].found)
    {
      if a.Claim? && w == a.w {
        assert ClaimedAt(actions, n, e.workers[w].draft, e.workers[w].body, e.workers[w].found);
      } else {
        OthersUntouched(s, a);
        assert w in s.workers && InFlight(s.workers[w]) && s.workers[w].draft == e.workers[w].draft;
      }
    }
    forall d | d in e.log
      ensures exists k: nat :: ClaimedAt(actions, k, d.draft, d.body, d.found)
    {
      if d !in s.log {
        assert InFlight(s.workers[a.w]) && d.draft == s.workers[a.w].draft;
      }
    }
  }

  lemma {:induction false} TracedHolds(actions: seq<Action>, n: nat)
    requires Runs(INITIAL, actions) && n <= |actions|
    ensures Runs(INITIAL, actions[..n]) && Traced(After(INITIAL, actions[..n]), actions)
  {
    if n == 0 {
      assert actions[..n] == [];
    } else {
      RunPrefix(INITIAL, actions, n - 1);
      TracedHolds(actions, n - 1);
      TracedStep(After(INITIAL, actions[..n - 1]), actions, n - 1);
    }
  }

  /** What the state after a run says of a sent draft's delivery. */
  lemma SentDelivery(s: State, actions: seq<Action>, f: Id) returns (d: Delivery, k: nat)
    requires BodyHeld(s) && Traced(s, actions) && f in s.rows && s.rows[f].status == Sent
    ensures Logged(s.log, d) && d.draft == f && d.found == s.rows[f].body && ClaimedAt(actions, k, f, d.body, d.found)
  {
    d :| Logged(s.log, d) && d.draft == f && d.found == s.rows[f].body;
    k :| ClaimedAt(actions, k, d.draft, d.body, d.found);
  }

  /**
   * Over any guarded run a sent draft went out once, after one claim of the run; and it went out with the body
   * its row shows if and only if at that claim the row still held the body the sender had loaded.
   */
  lemma SentBodyShown(actions: seq<Action>, f: Id) returns (d: Delivery, k: nat, found: nat)
    requires Runs(INITIAL, actions) && GuardedRun(INITIAL, actions)
    requires f in After(INITIAL, actions).rows && After(INITIAL, actions).rows[f].status == Sent
    ensures Logged(After(INITIAL, actions).log, d) && d.draft == f && Deliveries(After(INITIAL, actions).log, f) == 1
    ensures ClaimedAt(actions, k, f, d.body, found)
    ensures d.body == After(INITIAL, actions).rows[f].body <==> found == d.body
  {
    DeliveredOnce(INITIAL, actions);
    TracedHolds(actions, |actions|);
    assert actions[..|actions|] == actions;
    d, k := SentDelivery(After(INITIAL, actions), actions, f);
    found := d.found;
  }

  // ---------------------------------------------------------------- what the code does not keep

  lemma RunsCons(s: State, a: Action, rest: seq<Action>)
    requires Enabled(s, a) && Runs(Next(s, a), rest)
    ensures Runs(s, [a] + rest) && After(s, [a] + rest) == After(Next(s, a), rest)
    ensures Guarded(s, a) && GuardedRun(Next(s, a), rest) ==> GuardedRun(s, [a] + rest)
  {
    assert ([a] + rest)[1..] == rest;
  }

  lemma {:induction false} RunsAppend(s: State, first: seq<Action>, second: seq<Action>)
    requires Runs(s, first) && Runs(After(s, first), second)
    ensures Runs(s, first + second) && After(s, first + second) == After(After(s, first), second)
    decreases |first|
  {
    if first == [] {
      assert first + second == second;
    } else {
      assert (first + second)[0] == first[0] && (first + second)[1..] == first[1..] + second;
      RunsAppend(Next(s, first[0]), first[1..], second);
    }
  }

  lemma OneStep(s: State, a: Action)
    requires Enabled(s, a)
    ensures Runs(s, [a]) && After(s, [a]) == Next(s, a)
    ensures Guarded(s, a) ==> GuardedRun(s, [a])
  {
    RunsCons(s, a, []);
    assert [a] + [] == [a];
  }

  /** A sender that loads, claims and dispatches an open draft nobody else is sending. */
  lemma SendSteps(s: State, w: Id, f: Id)
    requires w !in s.workers && f in s.rows && s.rows[f].status in OPEN_STATUSES
    ensures var steps := [Load(w, f), Claim(w), Dispatch(w, true)];
      && Runs(s, steps)
      && After(s, steps) == State(s.rows[f := s.rows[f].(status := Sending)],
           s.workers[w := Delivered(f, s.rows[f].body, s.rows[f].body)], s.used,
           s.log + [Delivery(f, s.rows[f].body, s.rows[f].body)])
  {
    var s1 := Next(s, Load(w, f));
    var s2 := Next(s1, Claim(w));
    OneStep(s2, Dispatch(w, true));
    RunsCons(s1, Claim(w), [Dispatch(w, true)]);
    assert [Claim(w)] + [Dispatch(w, true)] == [Claim(w), Dispatch(w, true)];
    RunsCons(s, Load(w, f), [Claim(w), Dispatch(w, true)]);
    assert [Load(w, f)] + [Claim(w), Dispatch(w, true)] == [Load(w, f), Claim(w), Dispatch(w, true)];
    var e := Next(s2, Dispatch(w, true));
    assert e.rows == s.rows[f := s.rows[f].(status := Sending)];
    assert e.workers == s.workers[w := Delivered(f, s.rows[f].body, s.rows[f].body)];
  }

  /** An update that checked before the claim and writes after it reopens the draft, which is then sent twice. */
  lemma LateUpdateSendsTwice(s: State, f: Id, u: Id, v: Id, w: Id, body: nat)
    requires f in s.rows && s.rows[f].status in OPEN_STATUSES
    requires u !in s.workers && v !in s.workers && w !in s.workers && u != v && u != w && v != w
    ensures exists actions ::
      Runs(s, actions) && Deliveries(After(s, actions).log, f) == Deliveries(s.log, f) + 2
  {
    var s1 := Next(s, CheckUpdate(u, f));
    OneStep(s, CheckUpdate(u, f));
    SendSteps(s1, v, f);
    var first := [Load(v, f), Claim(v), Dispatch(v, true)];
    RunsAppend(s, [CheckUpdate(u, f)], first);
    var s2 := After(s1, first);
    LogStep(s.log, Delivery(f, s.rows[f].body, s.rows[f].body), f);
    var s3 := Next(s2, WriteUpdate(u, Open, body));
    OneStep(s2, WriteUpdate(u, Open, body));
    RunsAppend(s, [CheckUpdate(u, f)] + first, [WriteUpdate(u, Open, body)]);
    SendSteps(s3, w, f);
    var second := [Load(w, f), Claim(w), Dispatch(w, true)];
    RunsAppend(s, [CheckUpdate(u, f)] + first + [WriteUpdate(u, Open, body)], second);
    LogStep(s3.log, Delivery(f, body, body), f);
  }

  /** Even when every write is guarded, the content sent is the content read, not the content saved since. */
  lemma StaleBodySent(s: State, f: Id, u: Id, w: Id, body: nat)
    requires f in s.rows && s.rows[f].status in OPEN_STATUSES && body != s.rows[f].body
    requires u !in s.workers && w !in s.workers && u != w
    ensures exists actions ::
      && Runs(s, actions) && GuardedRun(s, actions)
      && After(s, actions).rows == s.rows[f := Row(Sent, body)]
      && After(s, actions).log == s.log + [Delivery(f, s.rows[f].body, body)]
  {
    var s1 := Next(s, Load(w, f));
    var s2 := Next(s1, CheckUpdate(u, f));
    var s3 := Next(s2, WriteUpdate(u, Open, body));
    var s4 := Next(s3, Claim(w));
    var s5 := Next(s4, Dispatch(w, true));
    OneStep(s5, Mark(w));
    RunsCons(s4, Dispatch(w, true), [Mark(w)]);
    var l4 := [Dispatch(w, true)] + [Mark(w)];
    RunsCons(s3, Claim(w), l4);
    var l3 := [Claim(w)] + l4;
    RunsCons(s2, WriteUpdate(u, Open, body), l3);
    var l2 := [WriteUpdate(u, Open, body)] + l3;
    RunsCons(s1, CheckUpdate(u, f), l2);
    var l1 := [CheckUpdate(u, f)] + l2;
    RunsCons(s, Load(w, f), l1);
    assert After(s, [Load(w, f)] + l1) == Next(s5, Mark(w));
    assert Next(s5, Mark(w)).rows == s.rows[f := Row(Sent, body)];
  }
}
