/** The cron's round over the drafts that are due. */
module Drain {
  import opened Common
  import opened DraftStatus
  import opened Tables
  import opened DraftLaws
  import opened LedgerLaws
  import opened MailStore

  const DRAIN_BATCH: nat := 50

  predicate Due(row: Draft, now: int) {
    row.status == Scheduled && row.sendAt.Some? && row.sendAt.value <= now
  }

  ghost predicate Earlier(drafts: map<Id, Draft>, f: Id, g: Id)
    requires f in drafts && g in drafts && drafts[f].sendAt.Some? && drafts[g].sendAt.Some?
  {
    drafts[f].sendAt.value < drafts[g].sendAt.value || (drafts[f].sendAt == drafts[g].sendAt && f < g)
  }

  /** What the query for due drafts returns: in order, cut off at the batch size only. */
  ghost predicate DueList(drafts: map<Id, Draft>, now: int, due: seq<Id>) {
    && |due| <= DRAIN_BATCH
    && (forall i :: 0 <= i < |due| ==> due[i] in drafts && Due(drafts[due[i]], now))
    && (forall i, j :: 0 <= i < j < |due| ==> Earlier(drafts, due[i], due[j]))
    && (forall f :: f in drafts && Due(drafts[f], now) && f !in due ==>
         |due| == DRAIN_BATCH && Earlier(drafts, due[|due| - 1], f))
  }

  ghost predicate Attempted(drafts: map<Id, Draft>, f: Id) {
    f in drafts && (drafts[f].status == Sent || drafts[f].status == Failed)
  }

  /** How many of these drafts are sent. */
  function SentAmong(drafts: map<Id, Draft>, due: seq<Id>): nat {
    if due == [] then 0
    else
      SentAmong(drafts, due[..|due| - 1])
        + if due[|due| - 1] in drafts && drafts[due[|due| - 1]].status == Sent then 1 else 0
  }

  lemma {:induction false} SentAmongSame(a: map<Id, Draft>, b: map<Id, Draft>, due: seq<Id>)
    requires forall i :: 0 <= i < |due| ==> due[i] in a && due[i] in b && a[due[i]] == b[due[i]]
    ensures SentAmong(a, due) == SentAmong(b, due)
  {
    if due != [] {
      SentAmongSame(a, b, due[..|due| - 1]);
    }
  }

  /** One drain changes the draft it is for and no other. */
  method DrainStep(box: Mailbox, f: Id, accepted: bool) returns (outcome: bool)
    requires box.Valid() && f in box.drafts && box.drafts[f].status == Scheduled
    modifies box
    ensures box.Valid() && (old(Exact(box.Now())) ==> Exact(box.Now()))
    ensures Attempted(box.drafts, f) && box.drafts == old(box.drafts)[f := box.drafts[f]]
    ensures outcome == (box.drafts[f].status == Sent)
  {
    var result, _, _, _ := box.DrainOne(f, accepted);
    outcome := result.value;
  }

  /** The first n drafts were attempted, so many of them sent, and all others are as they were. */
  ghost predicate Progress(start: map<Id, Draft>, drafts: map<Id, Draft>, due: seq<Id>, n: nat, sent: nat)
    requires n <= |due|
  {
    && sent == SentAmong(drafts, due[..n])
    && (forall i :: 0 <= i < n ==> Attempted(drafts, due[i]))
    && (forall f :: f in start && f !in due[..n] ==> f in drafts && drafts[f] == start[f])
  }

  lemma ProgressStep(start: map<Id, Draft>, before: map<Id, Draft>, drafts: map<Id, Draft>, due: seq<Id>, n: nat,
                     sent: nat)
    requires n < |due| && due[n] !in due[..n] && Progress(start, before, due, n, sent)
    requires Attempted(drafts, due[n]) && drafts == before[due[n] := drafts[due[n]]]
    ensures Progress(start, drafts, due, n + 1, sent + if drafts[due[n]].status == Sent then 1 else 0)
  {
    forall i | 0 <= i < n
      ensures due[i] != due[n]
    {
      assert due[..n][i] == due[i];
    }
    SentAmongSame(before, drafts, due[..n]);
    assert due[..n + 1][..n] == due[..n];
  }

  /** Every listed draft is attempted once: afterwards each is sent or failed, and the counts say how many. */
  method DrainDueDrafts(box: Mailbox, now: int, due: seq<Id>, accepted: seq<bool>) returns (sent: nat, failed: nat)
    requires box.Valid() && DueList(box.drafts, now, due) && |accepted| == |due|
    modifies box
    ensures box.Valid() && (old(Exact(box.Now())) ==> Exact(box.Now()))
    ensures sent + failed == |due| && Progress(old(box.drafts), box.drafts, due, |due|, sent)
  {
    sent, failed := 0, 0;
    ghost var start := box.drafts;
    for n := 0 to |due|
      invariant box.Valid() && (old(Exact(box.Now())) ==> Exact(box.Now()))
      invariant sent + failed == n && Progress(start, box.drafts, due, n, sent)
    {
      ghost var before := box.drafts;
      var outcome := DrainStep(box, due[n], accepted[n]);
      ProgressStep(start, before, box.drafts, due, n, sent);
      if outcome {
        sent := sent + 1;
      } else {
        failed := failed + 1;
      }
    }
  }
}
