/** What the draft operations leave in the tables: writes, deletions and sends of held messages. */
module DraftLaws {
  import opened Common
  import opened Totals
  import opened DraftStatus
  import opened Tables
  import opened LedgerLaws

  const OUTBOUND_MAX_BYTES: nat := 5 * 1024 * 1024
  const OUTBOUND_MAX_ATTACHMENTS: nat := 32

  /** The size checks every outbound message passes before it is handed to a transport. */
  predicate Composable(textBytes: nat, contents: seq<Bytes>) {
    |contents| <= OUTBOUND_MAX_ATTACHMENTS && textBytes + SumLengths(contents) <= OUTBOUND_MAX_BYTES
  }

  /** The row of a sent message: its size counts its text and its attachments. */
  function Outbound(inbox: Id, t: Id, textBytes: nat, contents: seq<Bytes>): Message {
    Message(inbox, t, textBytes + SumLengths(contents), None)
  }

  /** The objects found under some keys, in order, skipping those that are missing. */
  function Loaded(bucket: map<ObjectKey, Bytes>, keys: seq<ObjectKey>): seq<Bytes> {
    if keys == [] then []
    else
      var front := Loaded(bucket, keys[..|keys| - 1]);
      var last := keys[|keys| - 1];
      if last in bucket then front + [bucket[last]] else front
  }

  /** Nothing is skipped when every key is stored. */
  lemma {:induction false} AllLoaded(bucket: map<ObjectKey, Bytes>, keys: seq<ObjectKey>)
    requires forall i :: 0 <= i < |keys| ==> keys[i] in bucket
    ensures |Loaded(bucket, keys)| == |keys|
    ensures forall i :: 0 <= i < |keys| ==> Loaded(bucket, keys)[i] == bucket[keys[i]]
  {
    if keys != [] {
      AllLoaded(bucket, keys[..|keys| - 1]);
    }
  }

  /** How a draft write gives its send time: not at all, explicitly none, a time in milliseconds, or no time. */
  datatype SendAt = Keep | Clear | At(time: int) | Malformed

  predicate Refused(sendAt: SendAt, now: int) {
    sendAt.Malformed? || (sendAt.At? && sendAt.time <= now)
  }

  function Resolved(sendAt: SendAt, current: Option<int>, now: int): Option<int> {
    match sendAt
    case At(time) => Some(time)
    case Keep => if current.Some? && current.value > now then current else None
    case _ => None
  }

  function StatusFor(sendAt: Option<int>): Status {
    if sendAt.Some? then Scheduled else Open
  }

  function Keys(attachments: seq<DraftAttachment>): seq<ObjectKey> {
    seq(|attachments|, i requires 0 <= i < |attachments| => attachments[i].key)
  }

  lemma KeysListed(attachments: seq<DraftAttachment>)
    ensures Elements(Keys(attachments)) == BodyKeys(attachments)
  {
    var keys := Keys(attachments);
    assert forall i :: 0 <= i < |attachments| ==> keys[i] == attachments[i].key;
    forall key | key in BodyKeys(attachments)
      ensures key in keys
    {
      var i :| 0 <= i < |attachments| && attachments[i].key == key;
      assert keys[i] == key;
    }
  }

  /** Every object a live draft lists is read back, in order: nothing is skipped. */
  lemma DraftLoaded(d: Db, f: Id)
    requires Consistent(d) && f in d.drafts && d.drafts[f].status != Sent
    ensures var contents := Loaded(d.bucket, Keys(d.drafts[f].attachments));
      && |contents| == |d.drafts[f].attachments|
      && forall i :: 0 <= i < |contents| ==> DraftKey(f, i) in d.bucket && contents[i] == d.bucket[DraftKey(f, i)]
  {
    var keys := Keys(d.drafts[f].attachments);
    forall i | 0 <= i < |keys|
      ensures keys[i] == DraftKey(f, i) && keys[i] in d.bucket
    {
      assert d.drafts[f].attachments[i] in d.drafts[f].attachments;
      assert Referenced(d, DraftKey(f, i));
    }
    AllLoaded(d.bucket, keys);
  }

  lemma Least(s: set<Id>) returns (least: Id)
    requires s != {}
    ensures least in s && forall k :: k in s ==> least <= k
  {
    var first :| first in s;
    least := first;
    if s != {first} {
      var other := Least(s - {first});
      least := if other < first then other else first;
      assert forall k :: k in s ==> k == first || k in s - {first};
    }
  }

  lemma LeastExists(s: set<Id>)
    requires s != {}
    ensures exists least :: least in s && forall k :: k in s ==> least <= k
  {
    var least := Least(s);
  }

  /** Row ids in ascending order, as ORDER BY rowid lists them. */
  function Ascending(s: set<Id>): seq<Id> {
    if s == {} then []
    else
      LeastExists(s);
      var least :| least in s && forall k :: k in s ==> least <= k;
      [least] + Ascending(s - {least})
  }

  lemma {:induction false} AscendingLists(s: set<Id>)
    ensures Elements(Ascending(s)) == s
  {
    if s != {} {
      LeastExists(s);
      var least :|
        least in s && (forall k :: k in s ==> least <= k) && Ascending(s) == [least] + Ascending(s - {least});
      AscendingLists(s - {least});
      ElementsCons(least, Ascending(s - {least}));
    }
  }

  lemma ElementsCons(x: Id, rest: seq<Id>)
    ensures Elements([x] + rest) == {x} + Elements(rest)
  {
    assert forall y :: y in [x] + rest <==> y == x || y in rest;
  }

  lemma {:induction false} AscendingIncreases(s: set<Id>, i: nat, j: nat)
    requires i < j < |Ascending(s)|
    ensures Ascending(s)[i] < Ascending(s)[j]
  {
    LeastExists(s);
    var least :| least in s && (forall k :: k in s ==> least <= k) && Ascending(s) == [least] + Ascending(s - {least});
    if i == 0 {
      AscendingLists(s - {least});
      assert Ascending(s - {least})[j - 1] in Elements(Ascending(s - {least}));
    } else {
      AscendingIncreases(s - {least}, i - 1, j - 1);
    }
  }

  function AttachmentIds(attachments: map<Id, Attachment>, m: Id): seq<Id> {
    Ascending(set k | k in attachments && attachments[k].message == m)
  }

  function RowKeys(attachments: map<Id, Attachment>, ids: seq<Id>): seq<ObjectKey>
    requires Elements(ids) <= attachments.Keys
  {
    seq(|ids|, i requires 0 <= i < |ids| => assert ids[i] in Elements(ids); attachments[ids[i]].key)
  }

  /** The contents of a message's attachments, in the order they were stored. */
  function MessageContents(attachments: map<Id, Attachment>, bucket: map<ObjectKey, Bytes>, m: Id): seq<Bytes> {
    AscendingLists(set k | k in attachments && attachments[k].message == m);
    Loaded(bucket, RowKeys(attachments, AttachmentIds(attachments, m)))
  }

  /** A stored message's attachments are read back in the order of their rows, each once and none skipped. */
  lemma MessageLoaded(d: Db, m: Id)
    requires Consistent(d)
    ensures var ids := AttachmentIds(d.attachments, m);
      var contents := MessageContents(d.attachments, d.bucket, m);
      && |contents| == |ids|
      && forall i :: 0 <= i < |ids| ==>
           && ids[i] in d.attachments && d.attachments[ids[i]].message == m
           && d.attachments[ids[i]].key in d.bucket && contents[i] == d.bucket[d.attachments[ids[i]].key]
           && |contents[i]| == d.attachments[ids[i]].size
    ensures var ids := AttachmentIds(d.attachments, m);
      && (forall i, j :: 0 <= i < j < |ids| ==> ids[i] < ids[j])
      && (forall k :: k in d.attachments && d.attachments[k].message == m ==> k in ids)
  {
    var ids := AttachmentIds(d.attachments, m);
    var rows := set k | k in d.attachments && d.attachments[k].message == m;
    forall i, j | 0 <= i < j < |ids|
      ensures ids[i] < ids[j]
    {
      AscendingIncreases(rows, i, j);
    }
    forall k | k in rows
      ensures k in ids
    {
      AscendingLists(rows);
      assert k in Elements(ids);
    }
    AscendingLists(set k | k in d.attachments && d.attachments[k].message == m);
    forall i | 0 <= i < |ids|
      ensures ids[i] in d.attachments && d.attachments[ids[i]].message == m
    {
      assert ids[i] in Elements(ids);
    }
    AllLoaded(d.bucket, RowKeys(d.attachments, ids));
  }

  // ---------------------------------------------------------------- updates refused late

  /** What a refused send time leaves of an update that had already put its attachments. */
  function LateRejected(d: Db, f: Id, contents: seq<Bytes>): Db {
    d.(bucket := d.bucket + DraftObjects(f, contents))
  }

  predicate Fits(contents: seq<Bytes>, attachments: seq<DraftAttachment>) {
    |contents| <= |attachments| && forall i :: 0 <= i < |contents| ==> |contents[i]| == attachments[i].size
  }

  lemma LateRejectedChanges(d: Db, f: Id, contents: seq<Bytes>)
    requires RowsLinked(d) && IdsUsed(d) && KeysShaped(d) && f in d.drafts
    ensures DraftsChanged(d, LateRejected(d, f, contents), {f})
  {
  }

  lemma LateRejectedKeeps(d: Db, f: Id, contents: seq<Bytes>)
    requires Consistent(d) && f in d.drafts
    ensures Consistent(LateRejected(d, f, contents))
  {
    var e := LateRejected(d, f, contents);
    LateRejectedChanges(d, f, contents);
    forall key | key in LiveKeys(d.drafts, f)
      ensures key in d.bucket
    {
      assert Referenced(d, key);
    }
    DraftsKeep(d, e, {f});
  }

  /** Such an update keeps the bucket exact if and only if what it put fits what the row still lists. */
  lemma LateRejectionLeaks(d: Db, f: Id, contents: seq<Bytes>)
    requires Consistent(d) && Exact(d) && f in d.drafts && d.drafts[f].status != Sent
    ensures Exact(LateRejected(d, f, contents)) <==> Fits(contents, d.drafts[f].attachments)
  {
    if Exact(LateRejected(d, f, contents)) {
      LeakNeedsFit(d, f, contents);
    }
    if Fits(contents, d.drafts[f].attachments) {
      FitLeaksNothing(d, f, contents);
    }
  }

  lemma LeakNeedsFit(d: Db, f: Id, contents: seq<Bytes>)
    requires KeysShaped(d) && f in d.drafts && d.drafts[f].status != Sent
    requires Exact(LateRejected(d, f, contents))
    ensures Fits(contents, d.drafts[f].attachments)
  {
    var e := LateRejected(d, f, contents);
    assert DraftSized(e, f);
    forall i | 0 <= i < |contents|
      ensures i < |d.drafts[f].attachments| && |contents[i]| == d.drafts[f].attachments[i].size
    {
      assert e.bucket[DraftKey(f, i)] == contents[i];
      assert DraftKey(f, i) in LiveKeys(e.drafts, f) by {
        assert Referenced(e, DraftKey(f, i));
        LiveReferenced(e, f, i);
      }
      var j :| 0 <= j < |d.drafts[f].attachments| && d.drafts[f].attachments[j].key == DraftKey(f, i);
      assert d.drafts[f].attachments[j].key == DraftKey(f, j) && j == i;
      assert |e.bucket[d.drafts[f].attachments[j].key]| == d.drafts[f].attachments[j].size;
    }
    if contents != [] {
      var last := contents[|contents| - 1];
    }
  }

  lemma FitKeyLive(d: Db, f: Id, contents: seq<Bytes>, i: nat)
    requires KeysShaped(d) && Exact(d) && f in d.drafts && d.drafts[f].status != Sent
    requires Fits(contents, d.drafts[f].attachments)
    ensures DraftKey(f, i) in LateRejected(d, f, contents).bucket ==> DraftKey(f, i) in LiveKeys(d.drafts, f)
  {
    if i < |contents| {
      assert d.drafts[f].attachments[i] in d.drafts[f].attachments;
    } else if DraftKey(f, i) in d.bucket {
      LiveReferenced(d, f, i);
    }
  }

  lemma FitLeaksNothing(d: Db, f: Id, contents: seq<Bytes>)
    requires RowsLinked(d) && IdsUsed(d) && KeysShaped(d) && Exact(d)
    requires f in d.drafts && d.drafts[f].status != Sent && Fits(contents, d.drafts[f].attachments)
    ensures Exact(LateRejected(d, f, contents))
  {
    var e := LateRejected(d, f, contents);
    LateRejectedChanges(d, f, contents);
    assert DraftSized(d, f);
    forall i: nat | DraftKey(f, i) in e.bucket
      ensures DraftKey(f, i) in LiveKeys(e.drafts, f)
    {
      FitKeyLive(d, f, contents, i);
    }
    DraftsKeepExact(d, e, {f});
  }

  /** A draft without attachments, given one with a send time that is already past: the object is orphaned. */
  lemma LateRejectionExample()
    ensures exists d: Db, f: Id, contents: seq<Bytes> ::
      Consistent(d) && Exact(d) && f in d.drafts && d.drafts[f].status != Sent
      && !Exact(LateRejected(d, f, contents))
  {
    var row := Draft(0, None, 0, [], None, Open, None);
    var d := Db(map[0 := 7], map[], map[], map[], map[1 := row], map[], map[], 2);
    assert forall a :: Owned(d.inboxes, d.messages, a) == {};
    assert MessageSizes(d.messages, {}) == map[] && AttachmentSizes(d.attachments, {}) == map[];
    assert Consistent(d) && Exact(d);
    LateRejectionLeaks(d, 1, [[0]]);
    assert !Fits([[0]], d.drafts[1].attachments);
  }

  // ---------------------------------------------------------------- drafts sent

  /** The message row a draft becomes when it is sent. */
  function SentRow(d: Db, f: Id, t: Id): Message
    requires f in d.drafts
  {
    Outbound(d.drafts[f].inbox, t, d.drafts[f].textBytes, Loaded(d.bucket, Keys(d.drafts[f].attachments)))
  }

  /** The tables after a draft was sent as message m: its objects now belong to the message alone. */
  function DraftDelivered(d: Db, f: Id, m: Id, t: Id, base: Id): Db
    requires f in d.drafts && d.drafts[f].inbox in d.inboxes
  {
    var row := d.drafts[f];
    var contents := Loaded(d.bucket, Keys(row.attachments));
    DraftsDropped(
      WithMessage(d, m, SentRow(d, f, t), base, contents, map[]),
      d.drafts[f := row.(status := Sent, sentMessage := Some(m))],
      BodyKeys(row.attachments))
  }

  /** The sent message holds byte for byte what the draft held, and the draft's own objects are gone. */
  lemma DraftDeliveredCopies(d: Db, f: Id, m: Id, t: Id, base: Id, i: nat)
    requires Consistent(d) && f in d.drafts && d.drafts[f].status != Sent && i < |d.drafts[f].attachments|
    ensures var e := DraftDelivered(d, f, m, t, base);
      && DraftKey(f, i) in d.bucket && DraftKey(f, i) !in e.bucket
      && AttachmentKey(m, i) in e.bucket && e.bucket[AttachmentKey(m, i)] == d.bucket[DraftKey(f, i)]
  {
    DraftLoaded(d, f);
    var row := d.drafts[f];
    assert row.attachments[i].key in BodyKeys(row.attachments);
    assert AttachmentKey(m, i) !in BodyKeys(row.attachments);
  }

  /** Sending a draft keeps the tables consistent and the bucket exact. */
  lemma DraftDeliveredKeeps(d: Db, f: Id, m: Id, t: Id, base: Id)
    requires Consistent(d) && f in d.drafts && d.drafts[f].status != Sent
    requires FreshMessage(d, m, SentRow(d, f, t), base)
    ensures Consistent(DraftDelivered(d, f, m, t, base))
    ensures Exact(d) ==> Exact(DraftDelivered(d, f, m, t, base))
  {
    var row := d.drafts[f];
    var contents := Loaded(d.bucket, Keys(row.attachments));
    WithMessageKeeps(d, m, SentRow(d, f, t), base, contents, map[]);
    var x := WithMessage(d, m, SentRow(d, f, t), base, contents, map[]);
    SentDropped(x, f, m);
  }

  lemma SentDropped(x: Db, f: Id, m: Id)
    requires Consistent(x) && f in x.drafts
    ensures var e := DraftsDropped(x, x.drafts[f := x.drafts[f].(status := Sent, sentMessage := Some(m))],
                                   BodyKeys(x.drafts[f].attachments));
      Consistent(e) && (Exact(x) ==> Exact(e))
  {
    var row := x.drafts[f];
    DraftsDroppedKeeps(x, x.drafts[f := row.(status := Sent, sentMessage := Some(m))], BodyKeys(row.attachments), {f});
  }

  function Claimed(d: Db, f: Id): Db
    requires f in d.drafts
  {
    DraftSet(d, f, d.drafts[f].(status := Sending))
  }

  /** A claimed draft keeps its objects. */
  lemma ClaimKeeps(d: Db, f: Id)
    requires Consistent(d) && f in d.drafts && d.drafts[f].status != Sent
    ensures Consistent(Claimed(d, f)) && (Exact(d) ==> Exact(Claimed(d, f)))
  {
    DraftSetKeeps(d, f, d.drafts[f].(status := Sending));
  }

  /** So does one whose attempt failed. */
  lemma FailureKeeps(d: Db, f: Id)
    requires Consistent(d) && f in d.drafts && d.drafts[f].status != Sent
    ensures var failed := DraftSet(d, f, d.drafts[f].(status := Failed));
      Consistent(failed) && (Exact(d) ==> Exact(failed))
  {
    DraftSetKeeps(d, f, d.drafts[f].(status := Failed));
  }

  lemma ClaimUndone(d: Db, f: Id)
    requires f in d.drafts
    ensures DraftSet(Claimed(d, f), f, Claimed(d, f).drafts[f].(status := Failed))
         == DraftSet(d, f, d.drafts[f].(status := Failed))
  {
  }

  /** Delivering from the claimed state leaves what delivering outright would. */
  lemma ClaimedDelivery(d: Db, f: Id, m: Id, t: Id, base: Id)
    requires f in d.drafts && d.drafts[f].inbox in d.inboxes
    ensures var row := d.drafts[f];
      var contents := Loaded(d.bucket, Keys(row.attachments));
      var x := WithMessage(Claimed(d, f), m, Outbound(row.inbox, t, row.textBytes, contents), base, contents, map[]);
      DraftsDropped(x, x.drafts[f := row.(status := Sent, sentMessage := Some(m))], BodyKeys(row.attachments))
        == DraftDelivered(d, f, m, t, base)
  {
  }
}
