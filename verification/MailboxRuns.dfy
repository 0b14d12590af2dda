/** Whole histories of a mailbox: any calls, in any order, from an empty store. */
module MailboxRuns {
  import opened Common
  import opened DraftStatus
  import opened Tables
  import opened LedgerLaws
  import opened DraftLaws
  import opened MailStore

  datatype Call =
    | CallIngest(recipient: Id, raw: Bytes, contents: seq<Bytes>, candidate: Option<Id>, countLeft: bool,
                 quota: Option<nat>, acceptable: bool)
    | CallSend(account: Id, inbox: Id, textBytes: nat, contents: seq<Bytes>, accepted: bool)
    | CallReply(account: Id, inbox: Id, parent: Id, textBytes: nat, contents: seq<Bytes>, accepted: bool)
    | CallForward(account: Id, inbox: Id, parent: Id, textBytes: nat, accepted: bool)
    | CallDeleteMessage(account: Id, inbox: Id, message: Id)
    | CallBatchDelete(account: Id, inbox: Id, list: seq<Id>)
    | CallDeleteThread(account: Id, inbox: Id, thread: Id)
    | CallCreateInbox(account: Id, inbox: Id, limit: nat, acceptable: bool, routed: bool)
    | CallDeleteInbox(account: Id, inbox: Id)
    | CallCreateDraft(account: Id, inbox: Id, answers: Option<Id>, textBytes: nat, contents: seq<Bytes>, sendAt: SendAt,
                      now: int, acceptable: bool)
    | CallUpdateDraft(account: Id, inbox: Id, draft: Id, textBytes: nat, replacing: Option<seq<Bytes>>, sendAt: SendAt,
                      now: int, acceptable: bool)
    | CallDeleteDraft(account: Id, inbox: Id, draft: Id)
    | CallSendDraft(account: Id, inbox: Id, draft: Id, accepted: bool)
    | CallDrainOne(draft: Id, accepted: bool)

  // ---------------------------------------------------------------- what a call can lead to

  /** A message as a call stored it. */
  datatype Arrival = Arrival(m: Id, row: Message, base: Id, contents: seq<Bytes>, raw: map<ObjectKey, Bytes>)

  ghost predicate Arrives(d: Db, a: Arrival, e: Db) {
    && FreshMessage(d, a.m, a.row, a.base)
    && e == WithMessage(d, a.m, a.row, a.base, a.contents, a.raw)
  }

  /** A received message: as long as its raw form, which is stored under its key. */
  ghost predicate Receives(d: Db, call: Call, a: Arrival, e: Db)
    requires call.CallIngest?
  {
    && Arrives(d, a, e) && a.row.inbox == call.recipient && a.contents == call.contents
    && a.row.size == |call.raw| && a.raw == map[RawKey(a.m) := call.raw]
  }

  /** A message sent from an inbox: its size counts its text and its attachments, and there is no raw form. */
  ghost predicate Stores(d: Db, inbox: Id, textBytes: nat, contents: seq<Bytes>, a: Arrival, e: Db) {
    && Arrives(d, a, e) && a.contents == contents && a.raw == map[]
    && a.row == Outbound(inbox, a.row.thread, textBytes, contents)
  }

  ghost predicate Delivers(d: Db, f: Id, m: Id, t: Id, base: Id, e: Db) {
    && f in d.drafts && d.drafts[f].inbox in d.inboxes
    && FreshMessage(d, m, SentRow(d, f, t), base) && e == DraftDelivered(d, f, m, t, base)
  }

  ghost predicate Attempted(d: Db, f: Id, e: Db) {
    || (exists m, t, base :: Delivers(d, f, m, t, base, e))
    || (f in d.drafts && e == DraftSet(d, f, d.drafts[f].(status := Failed)))
  }

  ghost predicate Allowed(d: Db, call: Call)
    requires call.CallUpdateDraft?
  {
    Updatable(d, call.account, call.inbox, call.draft, call.textBytes, call.replacing, call.acceptable)
  }

  /** An update refused for its send time after it put attachments that do not fit the ones the draft had. */
  ghost predicate Leaks(d: Db, call: Call) {
    && call.CallUpdateDraft? && Allowed(d, call) && Refused(call.sendAt, call.now) && call.replacing.Some?
    && !Fits(call.replacing.value, d.drafts[call.draft].attachments)
  }

  /** A draft row that an update may leave: the same draft with other contents. */
  ghost predicate Revises(d: Db, call: Call, row: Draft)
    requires call.CallUpdateDraft? && call.draft in d.drafts
  {
    && row.inbox == d.drafts[call.draft].inbox && row.textBytes == call.textBytes
    && row.attachments == if call.replacing.Some? then Described(call.draft, call.replacing.value)
                          else d.drafts[call.draft].attachments
  }

  ghost predicate Updates(d: Db, call: Call, e: Db)
    requires call.CallUpdateDraft?
  {
    if !Allowed(d, call) then e == d
    else if Refused(call.sendAt, call.now) then
      e == if call.replacing.Some? then LateRejected(d, call.draft, call.replacing.value) else d
    else
      && call.draft in e.drafts && Revises(d, call, e.drafts[call.draft])
      && e == if call.replacing.Some? then DraftWritten(d, call.draft, e.drafts[call.draft], call.replacing.value)
              else DraftSet(d, call.draft, e.drafts[call.draft])
  }

  ghost predicate Drafted(d: Db, f: Id, call: Call, e: Db)
    requires call.CallCreateDraft?
  {
    && f !in d.drafts && f in e.drafts && e.drafts[f].inbox == call.inbox
    && e == DraftWritten(d, f, e.drafts[f], call.contents)
  }

  /** The tables and bucket a call can leave behind it. */
  ghost predicate Outcome(d: Db, call: Call, e: Db) {
    match call
    case CallIngest(_, _, _, _, _, _, _) => e == d || exists a: Arrival :: Receives(d, call, a, e)
    case CallSend(_, inbox, textBytes, contents, _) =>
      e == d || exists a: Arrival :: Stores(d, inbox, textBytes, contents, a, e)
    case CallReply(_, inbox, _, textBytes, contents, _) =>
      e == d || exists a: Arrival :: Stores(d, inbox, textBytes, contents, a, e)
    case CallForward(_, inbox, parent, textBytes, _) =>
      e == d || exists a: Arrival ::
        Stores(d, inbox, textBytes, MessageContents(d.attachments, d.bucket, parent), a, e)
    case CallDeleteMessage(account, _, m) => e == d || e == WithoutMessages(d, {m}, account)
    case CallBatchDelete(account, _, list) => e == d || e == WithoutMessages(d, Elements(list), account)
    case CallDeleteThread(account, _, t) => e == d || e == WithoutMessages(d, ThreadMessages(d.messages, t), account)
    case CallCreateInbox(account, inbox, _, _, _) => e == d || e == d.(inboxes := d.inboxes[inbox := account])
    case CallDeleteInbox(account, inbox) =>
      e == if InboxHeld(d.inboxes, account, inbox) then InboxRemoval(d, inbox, account) else d
    case CallCreateDraft(_, _, _, _, _, _, _, _) => e == d || exists f :: Drafted(d, f, call, e)
    case CallUpdateDraft(_, _, _, _, _, _, _, _) => Updates(d, call, e)
    case CallDeleteDraft(_, _, f) =>
      e == d || (f in d.drafts && e == DraftsDropped(d, d.drafts - {f}, BodyKeys(d.drafts[f].attachments)))
    case CallSendDraft(_, _, f, _) => e == d || Attempted(d, f, e)
    case CallDrainOne(f, _) => e == d || Attempted(d, f, e)
  }

  // ---------------------------------------------------------------- one call

  method PerformIngest(box: Mailbox, call: Call)
    requires box.Valid() && call.CallIngest?
    modifies box
    ensures box.Valid() && Outcome(old(box.Now()), call, box.Now())
    ensures old(Exact(box.Now())) ==> Exact(box.Now())
  {
    ghost var d := box.Now();
    var r, t, base := box.Ingest(call.recipient, call.raw, call.contents, call.candidate, call.countLeft, call.quota,
                                 call.acceptable);
    if r.Ok? {
      ghost var row := Message(call.recipient, t, |call.raw|, Some(RawKey(r.value)));
      assert Receives(d, call, Arrival(r.value, row, base, call.contents, map[RawKey(r.value) := call.raw]), box.Now());
    }
  }

  method PerformSend(box: Mailbox, call: Call)
    requires box.Valid() && call.CallSend?
    modifies box
    ensures box.Valid() && Outcome(old(box.Now()), call, box.Now())
    ensures old(Exact(box.Now())) ==> Exact(box.Now())
  {
    ghost var d := box.Now();
    var r, t, base := box.Send(call.account, call.inbox, call.textBytes, call.contents, call.accepted);
    if r.Ok? {
      ghost var row := Outbound(call.inbox, t, call.textBytes, call.contents);
      ghost var a := Arrival(r.value, row, base, call.contents, map[]);
      assert Stores(d, call.inbox, call.textBytes, call.contents, a, box.Now());
    }
  }

  method PerformReply(box: Mailbox, call: Call)
    requires box.Valid() && call.CallReply?
    modifies box
    ensures box.Valid() && Outcome(old(box.Now()), call, box.Now())
    ensures old(Exact(box.Now())) ==> Exact(box.Now())
  {
    ghost var d := box.Now();
    var r, t, base := box.Reply(call.account, call.inbox, call.parent, call.textBytes, call.contents, call.accepted);
    if r.Ok? {
      ghost var row := Outbound(call.inbox, t, call.textBytes, call.contents);
      ghost var a := Arrival(r.value, row, base, call.contents, map[]);
      assert Stores(d, call.inbox, call.textBytes, call.contents, a, box.Now());
    }
  }

  method PerformForward(box: Mailbox, call: Call)
    requires box.Valid() && call.CallForward?
    modifies box
    ensures box.Valid() && Outcome(old(box.Now()), call, box.Now())
    ensures old(Exact(box.Now())) ==> Exact(box.Now())
  {
    ghost var d := box.Now();
    var r, t, base := box.Forward(call.account, call.inbox, call.parent, call.textBytes, call.accepted);
    if r.Ok? {
      ghost var contents := MessageContents(d.attachments, d.bucket, call.parent);
      ghost var a := Arrival(r.value, Outbound(call.inbox, t, call.textBytes, contents), base, contents, map[]);
      assert Stores(d, call.inbox, call.textBytes, contents, a, box.Now());
    }
  }

  method PerformRemoval(box: Mailbox, call: Call)
    requires box.Valid() && (call.CallDeleteMessage? || call.CallBatchDelete? || call.CallDeleteThread?)
    modifies box
    ensures box.Valid() && Outcome(old(box.Now()), call, box.Now())
    ensures old(Exact(box.Now())) ==> Exact(box.Now())
  {
    match call
    case CallDeleteMessage(account, inbox, message) =>
      var _ := box.DeleteMessage(account, inbox, message);
    case CallBatchDelete(account, inbox, list) =>
      var _ := box.BatchDelete(account, inbox, list);
    case CallDeleteThread(account, inbox, thread) =>
      var _ := box.DeleteThread(account, inbox, thread);
  }

  method PerformInbox(box: Mailbox, call: Call)
    requires box.Valid() && (call.CallCreateInbox? || call.CallDeleteInbox?)
    modifies box
    ensures box.Valid() && Outcome(old(box.Now()), call, box.Now())
    ensures old(Exact(box.Now())) ==> Exact(box.Now())
  {
    match call
    case CallCreateInbox(account, inbox, limit, acceptable, routed) =>
      var _ := box.CreateInbox(account, inbox, limit, acceptable, routed);
    case CallDeleteInbox(account, inbox) =>
      var _ := box.DeleteInbox(account, inbox);
  }

  method PerformUpdate(box: Mailbox, call: Call)
    requires box.Valid() && call.CallUpdateDraft?
    modifies box
    ensures box.Valid() && Updates(old(box.Now()), call, box.Now())
    ensures old(Exact(box.Now())) ==> (Exact(box.Now()) <==> !Leaks(old(box.Now()), call))
  {
    var r := box.UpdateDraft(call.account, call.inbox, call.draft, call.textBytes, call.replacing, call.sendAt,
                             call.now, call.acceptable);
  }

  method PerformDraft(box: Mailbox, call: Call)
    requires box.Valid()
    requires call.CallCreateDraft? || call.CallDeleteDraft? || call.CallSendDraft? || call.CallDrainOne?
    modifies box
    ensures box.Valid() && Outcome(old(box.Now()), call, box.Now())
    ensures old(Exact(box.Now())) ==> Exact(box.Now())
  {
    ghost var d := box.Now();
    match call
    case CallCreateDraft(account, inbox, parent, textBytes, contents, sendAt, now, acceptable) =>
      var r := box.CreateDraft(account, inbox, parent, textBytes, contents, sendAt, now, acceptable);
      assert r.Ok? ==> Drafted(d, r.value, call, box.Now());
    case CallDeleteDraft(account, inbox, draft) =>
      var _ := box.DeleteDraft(account, inbox, draft);
    case CallSendDraft(account, inbox, draft, accepted) =>
      var r, t, base := box.SendDraft(account, inbox, draft, accepted);
      assert r.Ok? ==> Delivers(d, draft, r.value, t, base, box.Now());
    case CallDrainOne(draft, accepted) =>
      var outcome, m, t, base := box.DrainOne(draft, accepted);
      assert outcome == Some(true) ==> Delivers(d, draft, m, t, base, box.Now());
  }

  /** One call keeps every sum, count and link, and the bucket exact unless it is a leaking update. */
  method Perform(box: Mailbox, call: Call)
    requires box.Valid()
    modifies box
    ensures box.Valid() && Outcome(old(box.Now()), call, box.Now())
    ensures old(Exact(box.Now())) ==> (Exact(box.Now()) <==> !Leaks(old(box.Now()), call))
  {
    if call.CallIngest? {
      PerformIngest(box, call);
    } else if call.CallSend? {
      PerformSend(box, call);
    } else if call.CallReply? {
      PerformReply(box, call);
    } else if call.CallForward? {
      PerformForward(box, call);
    } else if call.CallDeleteMessage? || call.CallBatchDelete? || call.CallDeleteThread? {
      PerformRemoval(box, call);
    } else if call.CallCreateInbox? || call.CallDeleteInbox? {
      PerformInbox(box, call);
    } else if call.CallUpdateDraft? {
      PerformUpdate(box, call);
    } else {
      PerformDraft(box, call);
    }
  }

  // ---------------------------------------------------------------- histories

  const EMPTY := Db(map[], map[], map[], map[], map[], map[], map[], 0)

  /** Each state is one the step relation allows after the one before. */
  ghost predicate Chained<C, S>(calls: seq<C>, trail: seq<S>, step: (S, C, S) -> bool) {
    |trail| == |calls| + 1 && forall i :: 0 <= i < |calls| ==> step(trail[i], calls[i], trail[i + 1])
  }

  lemma ChainGrows<C, S>(calls: seq<C>, trail: seq<S>, n: nat, e: S, step: (S, C, S) -> bool)
    requires n < |calls| && Chained(calls[..n], trail, step) && step(trail[n], calls[n], e)
    ensures Chained(calls[..n + 1], trail + [e], step)
  {
    var more := trail + [e];
    forall i | 0 <= i < n + 1
      ensures step(more[i], calls[..n + 1][i], more[i + 1])
    {
      assert i < n ==> calls[..n][i] == calls[i];
    }
  }

  /** The states before the first call, between the calls, and after the last. */
  ghost predicate IsHistory(calls: seq<Call>, trail: seq<Db>) {
    Chained(calls, trail, Outcome) && trail[0] == EMPTY
  }

  /**
   * After any history every counter equals what it summarises and every object a row names is there; and the bucket
   * held nothing else all along if and only if no call of the history leaked where it was made.
   */
  method Replay(calls: seq<Call>) returns (box: Mailbox, ghost trail: seq<Db>)
    ensures fresh(box) && box.Valid()
    ensures IsHistory(calls, trail) && trail[|calls|] == box.Now()
    ensures AllConsistent(trail) && (AllExact(trail) <==> NoneLeaks(calls, trail))
  {
    box := new Mailbox();
    trail := [box.Now()];
    for n := 0 to |calls|
      invariant fresh(box) && box.Valid()
      invariant Kept(calls[..n], trail) && trail[n] == box.Now()
    {
      ghost var before := trail;
      Perform(box, calls[n]);
      trail := trail + [box.Now()];
      KeptGrows(calls, before, n, box.Now());
    }
    assert calls[..|calls|] == calls;
    ExactThroughout(calls, trail);
  }

  ghost predicate AllConsistent(trail: seq<Db>) {
    forall i :: 0 <= i < |trail| ==> Consistent(trail[i])
  }

  ghost predicate AllExact(trail: seq<Db>) {
    forall i :: 0 <= i < |trail| ==> Exact(trail[i])
  }

  ghost predicate NoneLeaks(calls: seq<Call>, trail: seq<Db>)
    requires |calls| < |trail|
  {
    forall i :: 0 <= i < |calls| ==> !Leaks(trail[i], calls[i])
  }

  ghost predicate Kept(calls: seq<Call>, trail: seq<Db>) {
    IsHistory(calls, trail) && Exact(trail[0]) && AllConsistent(trail) && Chained(calls, trail, KeepsExact)
  }

  ghost predicate KeepsExact(d: Db, call: Call, e: Db) {
    Exact(d) ==> (Exact(e) <==> !Leaks(d, call))
  }

  lemma KeptGrows(calls: seq<Call>, trail: seq<Db>, n: nat, e: Db)
    requires n < |calls| && Kept(calls[..n], trail)
    requires Outcome(trail[n], calls[n], e) && Consistent(e) && KeepsExact(trail[n], calls[n], e)
    ensures Kept(calls[..n + 1], trail + [e])
  {
    ChainGrows(calls, trail, n, e, Outcome);
    ChainGrows(calls, trail, n, e, KeepsExact);
  }

  lemma ExactThroughout(calls: seq<Call>, trail: seq<Db>)
    requires Kept(calls, trail)
    ensures AllExact(trail) <==> NoneLeaks(calls, trail)
  {
    if NoneLeaks(calls, trail) {
      for n := 0 to |calls|
        invariant forall i :: 0 <= i <= n ==> Exact(trail[i])
      {
        assert KeepsExact(trail[n], calls[n], trail[n + 1]) && !Leaks(trail[n], calls[n]);
      }
    }
    if AllExact(trail) {
      forall i | 0 <= i < |calls|
        ensures !Leaks(trail[i], calls[i])
      {
        assert KeepsExact(trail[i], calls[i], trail[i + 1]) && Exact(trail[i]) && Exact(trail[i + 1]);
      }
    }
  }

  /** Three calls that leave an object no row names: an inbox, a draft, and an update for a time already past. */
  method LeakFromEmpty(content: Bytes) returns (box: Mailbox)
    requires |content| <= OUTBOUND_MAX_BYTES
    ensures fresh(box) && box.Valid() && !Exact(box.Now())
  {
    box := new Mailbox();
    var f := OpenDraft(box);
    var update := CallUpdateDraft(0, 0, f, 0, Some([content]), At(5), 10, true);
    assert SumLengths([content]) == |content|;
    PerformUpdate(box, update);
  }

  method OpenDraft(box: Mailbox) returns (f: Id)
    requires box.Valid() && box.Now() == EMPTY
    modifies box
    ensures box.Valid() && (old(Exact(box.Now())) ==> Exact(box.Now()))
    ensures box.inboxes == map[0 := 0] && f in box.drafts
    ensures box.drafts[f] == Draft(0, None, 0, [], None, Open, None)
  {
    assert HeldBy(box.inboxes, 0) == {};
    var made := box.CreateInbox(0, 0, 1, true, true);
    assert made.Ok?;
    assert Composable(0, []) && !Refused(Clear, 10);
    var drafted := box.CreateDraft(0, 0, None, 0, [], Clear, 10, true);
    f := drafted.value;
    assert Described(f, []) == [];
  }
}
