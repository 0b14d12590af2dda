/** Values shared by every table of the mail store: optional columns, results and object bytes. */
module Common {
  datatype Option<+T> = None | Some(value: T)

  datatype Result<+T, +E> = Ok(value: T) | Err(error: E)

  newtype byte = x: int | 0 <= x < 256

  type Bytes = seq<byte>

  function Elements<T>(s: seq<T>): set<T> {
    set x | x in s
  }

  /** The first n elements, or all of them when there are fewer. */
  function Take<T>(s: seq<T>, n: nat): seq<T> {
    if |s| <= n then s else s[..n]
  }

  function Max(a: int, b: int): int {
    if a < b then b else a
  }
}

/** Where a draft stands. */
module DraftStatus {
  datatype Status = Open | Scheduled | Sending | Sent | Failed

  /** The statuses a draft can be changed and sent in. */
  const OPEN_STATUSES: set<Status> := {Open, Scheduled, Failed}
}

/** SUM(size) over the rows a query selects, with the laws the usage counter relies on. */
module Totals {
  ghost function Total(sizes: map<nat, nat>): nat
  {
    if sizes == map[] then 0
    else
      var k :| k in sizes;
      sizes[k] + Total(sizes - {k})
  }

  lemma {:induction false} TotalRemove(sizes: map<nat, nat>, k: nat)
    requires k in sizes
    ensures Total(sizes) == sizes[k] + Total(sizes - {k})
    decreases |sizes|
  {
    var p :| p in sizes && Total(sizes) == sizes[p] + Total(sizes - {p});
    if p != k {
      TotalRemove(sizes - {p}, k);
      TotalRemove(sizes - {k}, p);
      assert sizes - {p} - {k} == sizes - {k} - {p};
    }
  }

  lemma TotalAdd(sizes: map<nat, nat>, k: nat, v: nat)
    requires k !in sizes
    ensures Total(sizes[k := v]) == Total(sizes) + v
  {
    TotalRemove(sizes[k := v], k);
    assert sizes[k := v] - {k} == sizes;
  }

  /** A total splits over any two disjoint selections of rows. */
  lemma {:induction false} TotalUnion(a: map<nat, nat>, b: map<nat, nat>)
    requires a.Keys !! b.Keys
    ensures Total(a + b) == Total(a) + Total(b)
    decreases |b.Keys|
  {
    if b.Keys == {} {
      assert a + b == a;
      assert Total(b) == 0;
    } else {
      var k :| k in b.Keys;
      TotalUnion(a, b - {k});
      Regrouped(a, b, k);
      TotalRemove(b, k);
    }
  }

  lemma Regrouped(a: map<nat, nat>, b: map<nat, nat>, k: nat)
    requires k in b && k !in a
    ensures Total(a + b) == Total(a + (b - {k})) + b[k]
  {
    TotalRemove(a + b, k);
    assert (a + b) - {k} == a + (b - {k});
  }

  /** The SQL aggregate itself, visiting the selected rows in any order. */
  method Sum(sizes: map<nat, nat>) returns (total: nat)
    ensures total == Total(sizes)
  {
    total := 0;
    var rest := sizes;
    while rest != map[]
      invariant total + Total(rest) == Total(sizes)
      decreases |rest|
    {
      var k :| k in rest;
      TotalRemove(rest, k);
      total := total + rest[k];
      rest := rest - {k};
    }
  }
}

/** The relational tables and the object bucket, with the agreement every operation keeps. */
module Tables {
  import opened Common
  import opened DraftStatus
  import opened Totals

  type Id = nat

  datatype ObjectKey =
    | RawKey(message: Id)
    | AttachmentKey(message: Id, index: nat)
    | DraftKey(draft: Id, index: nat)

  datatype Thread = Thread(inbox: Id, count: nat)

  datatype Message = Message(inbox: Id, thread: Id, size: nat, raw: Option<ObjectKey>)

  datatype Attachment = Attachment(message: Id, size: nat, key: ObjectKey)

  datatype DraftAttachment = DraftAttachment(size: nat, key: ObjectKey)

  datatype Draft = Draft(
    inbox: Id, parent: Option<Id>, textBytes: nat, attachments: seq<DraftAttachment>,
    sendAt: Option<int>, status: Status, sentMessage: Option<Id>)

  datatype Db = Db(
    inboxes: map<Id, Id>,
    threads: map<Id, Thread>,
    messages: map<Id, Message>,
    attachments: map<Id, Attachment>,
    drafts: map<Id, Draft>,
    usage: map<Id, nat>,
    bucket: map<ObjectKey, Bytes>,
    nextId: Id)

  // ---------------------------------------------------------------- what the rows say

  function ThreadMessages(messages: map<Id, Message>, thread: Id): set<Id> {
    set m | m in messages && messages[m].thread == thread
  }

  function InboxMessages(messages: map<Id, Message>, inbox: Id): set<Id> {
    set m | m in messages && messages[m].inbox == inbox
  }

  /** The messages held for an account, through the inboxes it owns. */
  function Owned(inboxes: map<Id, Id>, messages: map<Id, Message>, account: Id): set<Id> {
    set m | m in messages && messages[m].inbox in inboxes && inboxes[messages[m].inbox] == account
  }

  function MessageSizes(messages: map<Id, Message>, ids: set<Id>): map<Id, nat> {
    map m | m in messages && m in ids :: messages[m].size
  }

  function AttachmentSizes(attachments: map<Id, Attachment>, ids: set<Id>): map<Id, nat> {
    map k | k in attachments && attachments[k].message in ids :: attachments[k].size
  }

  /** Bytes stored for a set of messages: their own sizes plus their attachments'. */
  ghost function Stored(messages: map<Id, Message>, attachments: map<Id, Attachment>, ids: set<Id>): nat {
    Total(MessageSizes(messages, ids)) + Total(AttachmentSizes(attachments, ids))
  }

  function Without(attachments: map<Id, Attachment>, ids: set<Id>): map<Id, Attachment> {
    map k | k in attachments && attachments[k].message !in ids :: attachments[k]
  }

  function RawKeys(messages: map<Id, Message>, ids: set<Id>): set<ObjectKey> {
    set m | m in ids && m in messages && messages[m].raw.Some? :: messages[m].raw.value
  }

  function AttachmentKeys(attachments: map<Id, Attachment>, ids: set<Id>): set<ObjectKey> {
    set k | k in attachments && attachments[k].message in ids :: attachments[k].key
  }

  function BodyKeys(attachments: seq<DraftAttachment>): set<ObjectKey> {
    set a | a in attachments :: a.key
  }

  /** Objects some row still refers to: a draft stops referring to its own once it is sent. */
  ghost predicate Referenced(d: Db, key: ObjectKey) {
    || (exists m :: m in d.messages && d.messages[m].raw == Some(key))
    || (exists k :: k in d.attachments && d.attachments[k].key == key)
    || (exists f :: f in d.drafts && d.drafts[f].status != Sent && key in BodyKeys(d.drafts[f].attachments))
  }

  function UsageOf(usage: map<Id, nat>, account: Id): nat {
    if account in usage then usage[account] else 0
  }

  // ---------------------------------------------------------------- the agreement

  ghost predicate RowsLinked(d: Db) {
    && (forall t :: t in d.threads ==> d.threads[t].inbox in d.inboxes)
    && (forall m :: m in d.messages ==>
         && d.messages[m].inbox in d.inboxes
         && d.messages[m].thread in d.threads
         && d.threads[d.messages[m].thread].inbox == d.messages[m].inbox)
    && (forall k :: k in d.attachments ==> d.attachments[k].message in d.messages)
    && (forall f :: f in d.drafts ==> d.drafts[f].inbox in d.inboxes)
  }

  ghost predicate IdsUsed(d: Db) {
    && (forall t :: t in d.threads ==> t < d.nextId)
    && (forall m :: m in d.messages ==> m < d.nextId)
    && (forall k :: k in d.attachments ==> k < d.nextId)
    && (forall f :: f in d.drafts ==> f < d.nextId)
  }

  /** Every thread is non-empty and counts exactly the messages that point at it. */
  ghost predicate ThreadsCounted(d: Db) {
    forall t :: t in d.threads ==> d.threads[t].count == |ThreadMessages(d.messages, t)| > 0
  }

  /** Every account is charged exactly for the rows it holds. */
  ghost predicate StorageCounted(d: Db) {
    forall a :: UsageOf(d.usage, a) == Stored(d.messages, d.attachments, Owned(d.inboxes, d.messages, a))
  }

  ghost predicate KeysShaped(d: Db) {
    && (forall m :: m in d.messages && d.messages[m].raw.Some? ==> d.messages[m].raw.value == RawKey(m))
    && (forall k :: k in d.attachments ==>
         d.attachments[k].key.AttachmentKey? && d.attachments[k].key.message == d.attachments[k].message)
    && (forall f, i :: f in d.drafts && 0 <= i < |d.drafts[f].attachments| ==>
         d.drafts[f].attachments[i].key == DraftKey(f, i))
  }

  /** No referenced object is missing, and stored messages' objects are as long as their rows say. */
  ghost predicate BucketHolds(d: Db) {
    && (forall key :: Referenced(d, key) ==> key in d.bucket)
    && (forall m :: m in d.messages && d.messages[m].raw.Some? ==>
         d.messages[m].raw.value in d.bucket && |d.bucket[d.messages[m].raw.value]| == d.messages[m].size)
    && (forall k :: k in d.attachments ==>
         d.attachments[k].key in d.bucket && |d.bucket[d.attachments[k].key]| == d.attachments[k].size)
  }

  /** What holds in every reachable state. */
  ghost predicate Consistent(d: Db) {
    RowsLinked(d) && IdsUsed(d) && ThreadsCounted(d) && StorageCounted(d) && KeysShaped(d) && BucketHolds(d)
  }

  /** The objects of one draft that its row still refers to. */
  function LiveKeys(drafts: map<Id, Draft>, f: Id): set<ObjectKey> {
    if f in drafts && drafts[f].status != Sent then BodyKeys(drafts[f].attachments) else {}
  }

  ghost predicate DraftSized(d: Db, f: Id) {
    f in d.drafts && d.drafts[f].status != Sent ==>
      forall i :: 0 <= i < |d.drafts[f].attachments| ==>
        && d.drafts[f].attachments[i].key in d.bucket
        && |d.bucket[d.drafts[f].attachments[i].key]| == d.drafts[f].attachments[i].size
  }

  /** Besides, the bucket holds no other object, and drafts' objects are as long as their rows say. */
  ghost predicate Exact(d: Db) {
    && (forall key :: key in d.bucket ==> Referenced(d, key))
    && (forall f :: f in d.drafts ==> DraftSized(d, f))
  }

  // ---------------------------------------------------------------- sums over rows

  lemma BytesSplit(messages: map<Id, Message>, attachments: map<Id, Attachment>, a: set<Id>, b: set<Id>)
    requires a !! b
    ensures Stored(messages, attachments, a + b) == Stored(messages, attachments, a) + Stored(messages, attachments, b)
  {
    TotalUnion(MessageSizes(messages, a), MessageSizes(messages, b));
    assert MessageSizes(messages, a + b) == MessageSizes(messages, a) + MessageSizes(messages, b);
    TotalUnion(AttachmentSizes(attachments, a), AttachmentSizes(attachments, b));
    assert AttachmentSizes(attachments, a + b) == AttachmentSizes(attachments, a) + AttachmentSizes(attachments, b);
  }

  /** What an account is released for some of its messages never exceeds what it is charged. */
  lemma ReleaseBounded(messages: map<Id, Message>, attachments: map<Id, Attachment>, all: set<Id>, gone: set<Id>)
    requires gone <= all
    ensures Stored(messages, attachments, all)
         == Stored(messages, attachments, gone) + Stored(messages, attachments, all - gone)
  {
    BytesSplit(messages, attachments, gone, all - gone);
    assert gone + (all - gone) == all;
  }

  lemma BytesAfterDelete(messages: map<Id, Message>, attachments: map<Id, Attachment>, gone: set<Id>, kept: set<Id>)
    requires kept !! gone
    ensures Stored(messages - gone, Without(attachments, gone), kept) == Stored(messages, attachments, kept)
  {
    assert MessageSizes(messages - gone, kept) == MessageSizes(messages, kept);
    assert AttachmentSizes(Without(attachments, gone), kept) == AttachmentSizes(attachments, kept);
  }

  // ---------------------------------------------------------------- rows added by one message

  function SumLengths(contents: seq<Bytes>): nat {
    if contents == [] then 0 else |contents[|contents| - 1]| + SumLengths(contents[..|contents| - 1])
  }

  /** The attachment rows of one message, numbered from base. */
  function RowsFor(base: Id, message: Id, contents: seq<Bytes>): (rows: map<Id, Attachment>)
    ensures forall k :: k in rows <==> base <= k < base + |contents|
    ensures forall k :: k in rows ==>
      rows[k] == Attachment(message, |contents[k - base]|, AttachmentKey(message, k - base))
  {
    if contents == [] then map[]
    else
      var n := |contents| - 1;
      RowsFor(base, message, contents[..n])[base + n := Attachment(message, |contents[n]|, AttachmentKey(message, n))]
  }

  function ObjectsFor(message: Id, contents: seq<Bytes>): map<ObjectKey, Bytes> {
    map i: nat | 0 <= i < |contents| :: AttachmentKey(message, i) := contents[i]
  }

  lemma RowsForSizes(base: Id, message: Id, contents: seq<Bytes>)
    requires contents != []
    ensures var n := |contents| - 1;
      AttachmentSizes(RowsFor(base, message, contents), {message})
        == AttachmentSizes(RowsFor(base, message, contents[..n]), {message})[base + n := |contents[n]|]
  {
  }

  lemma {:induction false} RowsForTotal(base: Id, message: Id, contents: seq<Bytes>)
    ensures Total(AttachmentSizes(RowsFor(base, message, contents), {message})) == SumLengths(contents)
  {
    if contents == [] {
      assert AttachmentSizes(RowsFor(base, message, contents), {message}) == map[];
    } else {
      var n := |contents| - 1;
      RowsForTotal(base, message, contents[..n]);
      RowsForSizes(base, message, contents);
      TotalAdd(AttachmentSizes(RowsFor(base, message, contents[..n]), {message}), base + n, |contents[n]|);
    }
  }

  /** Inserting the next attachment row, and putting the next object, extend what is already there. */
  lemma RowsStep(rows: map<Id, Attachment>, base: Id, m: Id, contents: seq<Bytes>, i: nat)
    requires i < |contents|
    ensures (rows + RowsFor(base, m, contents[..i]))[base + i := Attachment(m, |contents[i]|, AttachmentKey(m, i))]
         == rows + RowsFor(base, m, contents[..i + 1])
  {
  }

  lemma ObjectsStep(bucket: map<ObjectKey, Bytes>, m: Id, contents: seq<Bytes>, i: nat)
    requires i < |contents|
    ensures (bucket + ObjectsFor(m, contents[..i]))[AttachmentKey(m, i) := contents[i]]
         == bucket + ObjectsFor(m, contents[..i + 1])
  {
  }
}
