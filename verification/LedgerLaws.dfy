/** Which changes to the tables keep them in agreement: adding one message, deleting a set of them. */
module LedgerLaws {
  import opened Common
  import opened Totals
  import opened DraftStatus
  import opened Tables

  /** Drafts whose rows and objects do not change stay as long as their rows say. */
  lemma SizesKept(d: Db, e: Db, kept: set<Id>)
    requires forall f :: f in kept ==> f in d.drafts && f in e.drafts && e.drafts[f] == d.drafts[f] && DraftSized(d, f)
    requires forall f, i :: f in kept && 0 <= i < |d.drafts[f].attachments| ==>
      d.drafts[f].attachments[i].key == DraftKey(f, i)
    requires forall f, i :: f in kept && DraftKey(f, i) in d.bucket ==>
      DraftKey(f, i) in e.bucket && e.bucket[DraftKey(f, i)] == d.bucket[DraftKey(f, i)]
    ensures forall f :: f in kept ==> DraftSized(e, f)
  {
    forall f | f in kept
      ensures DraftSized(e, f)
    {
      assert DraftSized(d, f);
    }
  }

  /** MAX(0, n), as the counter upsert writes it. */
  function Floored(n: int): nat {
    if n < 0 then 0 else n
  }

  /** The counters after one upsert; a zero delta writes no row. */
  function Adjusted(usage: map<Id, nat>, account: Id, delta: int): map<Id, nat> {
    if delta == 0 then usage else usage[account := Floored(UsageOf(usage, account) + delta)]
  }

  /** The threads after a message joined one, which is inserted empty when it does not exist. */
  function Joined(threads: map<Id, Thread>, t: Id, inbox: Id): map<Id, Thread> {
    threads[t := Thread(inbox, 1 + if t in threads then threads[t].count else 0)]
  }

  /** The threads after one of them gains a message. */
  function Touched(threads: map<Id, Thread>, t: Id): map<Id, Thread> {
    if t in threads then threads[t := Thread(threads[t].inbox, threads[t].count + 1)] else threads
  }

  /** The raw object stored with a message, if any, is as long as its row says. */
  predicate RawFits(m: Id, row: Message, raw: map<ObjectKey, Bytes>) {
    if row.raw.Some? then raw.Keys == {RawKey(m)} && |raw[RawKey(m)]| == row.size else raw == map[]
  }

  lemma RawFirst(bucket: map<ObjectKey, Bytes>, m: Id, contents: seq<Bytes>, raw: Bytes)
    ensures bucket[RawKey(m) := raw] + ObjectsFor(m, contents)
         == bucket + ObjectsFor(m, contents) + map[RawKey(m) := raw]
  {
  }

  lemma NoRaw(bucket: map<ObjectKey, Bytes>)
    ensures bucket + map[] == bucket
  {
  }

  // ---------------------------------------------------------------- one message added

  /** e's message and attachment rows are d's plus message m, its attachments numbered from base. */
  ghost predicate AddedRows(d: Db, e: Db, m: Id, row: Message, base: Id, contents: seq<Bytes>) {
    && e.inboxes == d.inboxes && e.drafts == d.drafts
    && d.nextId <= m < e.nextId && d.nextId <= base && base + |contents| <= e.nextId
    && row.inbox in d.inboxes && row.raw in {None, Some(RawKey(m))}
    && e.messages == d.messages[m := row]
    && e.attachments == d.attachments + RowsFor(base, m, contents)
  }

  ghost predicate AddedThread(d: Db, e: Db, row: Message) {
    && (if row.thread in d.threads then d.threads[row.thread].inbox == row.inbox
        else d.nextId <= row.thread < e.nextId)
    && e.threads == Joined(d.threads, row.thread, row.inbox)
  }

  ghost predicate AddedObjects(d: Db, e: Db, m: Id, row: Message, contents: seq<Bytes>, raw: map<ObjectKey, Bytes>) {
    && RawFits(m, row, raw)
    && e.bucket == d.bucket + ObjectsFor(m, contents) + raw
  }

  ghost predicate Charged(d: Db, e: Db, account: Id, bytes: nat) {
    forall a :: UsageOf(e.usage, a) == UsageOf(d.usage, a) + if a == account then bytes else 0
  }

  /** e is d plus message m with its attachment rows, its objects, its thread and its charge. */
  ghost predicate Added(d: Db, e: Db, m: Id, row: Message, base: Id, contents: seq<Bytes>, raw: map<ObjectKey, Bytes>) {
    && AddedRows(d, e, m, row, base, contents)
    && AddedThread(d, e, row)
    && AddedObjects(d, e, m, row, contents, raw)
    && Charged(d, e, d.inboxes[row.inbox], row.size + SumLengths(contents))
  }

  lemma AddedBytes(messages: map<Id, Message>, attachments: map<Id, Attachment>, m: Id, row: Message,
                   base: Id, contents: seq<Bytes>)
    requires forall k :: k in attachments ==> attachments[k].message != m
    ensures Stored(messages[m := row], attachments + RowsFor(base, m, contents), {m})
         == row.size + SumLengths(contents)
  {
    AddedOwnSize(messages, m, row);
    var rows := RowsFor(base, m, contents);
    assert AttachmentSizes(attachments + rows, {m}) == AttachmentSizes(rows, {m});
    RowsForTotal(base, m, contents);
  }

  lemma AddedOwnSize(messages: map<Id, Message>, m: Id, row: Message)
    ensures Total(MessageSizes(messages[m := row], {m})) == row.size
  {
    TotalAdd(map[], m, row.size);
    assert MessageSizes(messages[m := row], {m}) == map[][m := row.size];
  }

  lemma AddedFrame(messages: map<Id, Message>, attachments: map<Id, Attachment>, m: Id, row: Message,
                   base: Id, contents: seq<Bytes>, ids: set<Id>)
    requires m !in ids
    requires forall k :: k in attachments ==> k < base
    ensures Stored(messages[m := row], attachments + RowsFor(base, m, contents), ids)
         == Stored(messages, attachments, ids)
  {
    assert MessageSizes(messages[m := row], ids) == MessageSizes(messages, ids);
    var rows := RowsFor(base, m, contents);
    assert AttachmentSizes(attachments + rows, ids) == AttachmentSizes(attachments, ids);
  }

  lemma AddedStorage(d: Db, e: Db, m: Id, row: Message, base: Id, contents: seq<Bytes>)
    requires RowsLinked(d) && IdsUsed(d) && StorageCounted(d)
    requires AddedRows(d, e, m, row, base, contents)
    requires Charged(d, e, d.inboxes[row.inbox], row.size + SumLengths(contents))
    ensures StorageCounted(e)
  {
    forall a
      ensures UsageOf(e.usage, a) == Stored(e.messages, e.attachments, Owned(e.inboxes, e.messages, a))
    {
      AddedOwned(d, e, m, row, base, contents, a);
    }
  }

  lemma AddedOwned(d: Db, e: Db, m: Id, row: Message, base: Id, contents: seq<Bytes>, a: Id)
    requires RowsLinked(d) && IdsUsed(d) && AddedRows(d, e, m, row, base, contents)
    ensures Stored(e.messages, e.attachments, Owned(e.inboxes, e.messages, a))
         == Stored(d.messages, d.attachments, Owned(d.inboxes, d.messages, a))
            + if a == d.inboxes[row.inbox] then row.size + SumLengths(contents) else 0
  {
    var before := Owned(d.inboxes, d.messages, a);
    AddedFrame(d.messages, d.attachments, m, row, base, contents, before);
    if a == d.inboxes[row.inbox] {
      assert Owned(e.inboxes, e.messages, a) == before + {m};
      BytesSplit(e.messages, e.attachments, before, {m});
      AddedBytes(d.messages, d.attachments, m, row, base, contents);
    } else {
      assert Owned(e.inboxes, e.messages, a) == before;
    }
  }

  lemma AddedThreads(d: Db, e: Db, m: Id, row: Message)
    requires RowsLinked(d) && ThreadsCounted(d)
    requires m !in d.messages && e.messages == d.messages[m := row] && AddedThread(d, e, row)
    ensures ThreadsCounted(e)
  {
    forall t | t in e.threads
      ensures e.threads[t].count == |ThreadMessages(e.messages, t)| > 0
    {
      if t == row.thread {
        assert ThreadMessages(e.messages, t) == ThreadMessages(d.messages, t) + {m};
        assert t !in d.threads ==> ThreadMessages(d.messages, t) == {};
      } else {
        assert ThreadMessages(e.messages, t) == ThreadMessages(d.messages, t);
      }
    }
  }

  lemma AddedLinks(d: Db, e: Db, m: Id, row: Message, base: Id, contents: seq<Bytes>)
    requires RowsLinked(d) && IdsUsed(d) && KeysShaped(d)
    requires AddedRows(d, e, m, row, base, contents) && AddedThread(d, e, row)
    ensures RowsLinked(e) && IdsUsed(e)
  {
    var rows := RowsFor(base, m, contents);
    assert forall k :: k in e.attachments ==> k in d.attachments || k in rows;
  }

  lemma AddedShapes(d: Db, e: Db, m: Id, row: Message, base: Id, contents: seq<Bytes>)
    requires KeysShaped(d) && AddedRows(d, e, m, row, base, contents)
    ensures KeysShaped(e)
  {
    var rows := RowsFor(base, m, contents);
    assert forall k :: k in e.attachments ==> k in d.attachments || k in rows;
  }

  lemma AddedReferences(d: Db, e: Db, m: Id, row: Message, base: Id, contents: seq<Bytes>, key: ObjectKey)
    requires IdsUsed(d)
    requires AddedRows(d, e, m, row, base, contents)
    ensures Referenced(e, key) <==>
      Referenced(d, key) || key in ObjectsFor(m, contents) || (row.raw.Some? && key == RawKey(m))
  {
    var rows := RowsFor(base, m, contents);
    if key in ObjectsFor(m, contents) {
      assert key == rows[base + key.index].key == e.attachments[base + key.index].key;
    }
    if k :| k in e.attachments && e.attachments[k].key == key && k in rows {
      assert key == AttachmentKey(m, k - base);
    }
    if x :| x in d.messages && d.messages[x].raw == Some(key) {
      assert e.messages[x].raw == Some(key);
    }
    if k :| k in d.attachments && d.attachments[k].key == key {
      assert e.attachments[k].key == key;
    }
    assert e.messages[m].raw == row.raw;
  }

  lemma NewSizes(d: Db, e: Db, m: Id, row: Message, base: Id, contents: seq<Bytes>, raw: map<ObjectKey, Bytes>, k: Id)
    requires AddedRows(d, e, m, row, base, contents) && AddedObjects(d, e, m, row, contents, raw)
    requires k in RowsFor(base, m, contents)
    ensures e.attachments[k].key in e.bucket && |e.bucket[e.attachments[k].key]| == e.attachments[k].size
  {
    assert ObjectsFor(m, contents)[AttachmentKey(m, k - base)] == contents[k - base];
  }

  lemma AddedSizes(d: Db, e: Db, m: Id, row: Message, base: Id, contents: seq<Bytes>, raw: map<ObjectKey, Bytes>, k: Id)
    requires RowsLinked(d) && IdsUsed(d) && KeysShaped(d) && BucketHolds(d)
    requires AddedRows(d, e, m, row, base, contents) && AddedObjects(d, e, m, row, contents, raw)
    requires k in e.attachments
    ensures e.attachments[k].key in e.bucket && |e.bucket[e.attachments[k].key]| == e.attachments[k].size
  {
    if k in RowsFor(base, m, contents) {
      NewSizes(d, e, m, row, base, contents, raw, k);
    }
  }

  lemma AddedRawSizes(d: Db, e: Db, m: Id, row: Message, base: Id, contents: seq<Bytes>, raw: map<ObjectKey, Bytes>,
                      x: Id)
    requires KeysShaped(d) && BucketHolds(d)
    requires AddedRows(d, e, m, row, base, contents) && AddedObjects(d, e, m, row, contents, raw)
    requires x in e.messages && e.messages[x].raw.Some?
    ensures e.messages[x].raw.value in e.bucket && |e.bucket[e.messages[x].raw.value]| == e.messages[x].size
  {
  }

  lemma AddedBucket(d: Db, e: Db, m: Id, row: Message, base: Id, contents: seq<Bytes>, raw: map<ObjectKey, Bytes>)
    requires RowsLinked(d) && IdsUsed(d) && KeysShaped(d) && BucketHolds(d)
    requires AddedRows(d, e, m, row, base, contents) && AddedObjects(d, e, m, row, contents, raw)
    ensures BucketHolds(e)
  {
    forall key | Referenced(e, key)
      ensures key in e.bucket
    {
      AddedReferences(d, e, m, row, base, contents, key);
    }
    forall k | k in e.attachments
      ensures e.attachments[k].key in e.bucket && |e.bucket[e.attachments[k].key]| == e.attachments[k].size
    {
      AddedSizes(d, e, m, row, base, contents, raw, k);
    }
    forall x | x in e.messages && e.messages[x].raw.Some?
      ensures e.messages[x].raw.value in e.bucket && |e.bucket[e.messages[x].raw.value]| == e.messages[x].size
    {
      AddedRawSizes(d, e, m, row, base, contents, raw, x);
    }
  }

  lemma AddedSized(d: Db, e: Db, m: Id, row: Message, contents: seq<Bytes>, raw: map<ObjectKey, Bytes>)
    requires KeysShaped(d) && Exact(d) && e.drafts == d.drafts && AddedObjects(d, e, m, row, contents, raw)
    ensures forall f :: f in e.drafts ==> DraftSized(e, f)
  {
    forall f, i | DraftKey(f, i) in d.bucket
      ensures DraftKey(f, i) in e.bucket && e.bucket[DraftKey(f, i)] == d.bucket[DraftKey(f, i)]
    {
    }
    SizesKept(d, e, e.drafts.Keys);
  }

  lemma AddedExact(d: Db, e: Db, m: Id, row: Message, base: Id, contents: seq<Bytes>, raw: map<ObjectKey, Bytes>)
    requires IdsUsed(d) && KeysShaped(d) && Exact(d)
    requires AddedRows(d, e, m, row, base, contents) && AddedObjects(d, e, m, row, contents, raw)
    ensures Exact(e)
  {
    forall key | key in e.bucket
      ensures Referenced(e, key)
    {
      AddedReferences(d, e, m, row, base, contents, key);
    }
    AddedSized(d, e, m, row, contents, raw);
  }

  /** Storing one more message keeps the counters, the threads and the bucket in agreement. */
  lemma AddedKeeps(d: Db, e: Db, m: Id, row: Message, base: Id, contents: seq<Bytes>, raw: map<ObjectKey, Bytes>)
    requires Consistent(d) && Added(d, e, m, row, base, contents, raw)
    ensures Consistent(e)
    ensures Exact(d) ==> Exact(e)
  {
    AddedLinks(d, e, m, row, base, contents);
    AddedShapes(d, e, m, row, base, contents);
    AddedStorage(d, e, m, row, base, contents);
    AddedThreads(d, e, m, row);
    AddedBucket(d, e, m, row, base, contents, raw);
    if Exact(d) {
      AddedExact(d, e, m, row, base, contents, raw);
    }
  }

  /** The tables after message m was stored; its attachment rows are numbered from base, no id above them is used. */
  function WithMessage(d: Db, m: Id, row: Message, base: Id, contents: seq<Bytes>, raw: map<ObjectKey, Bytes>): Db
    requires row.inbox in d.inboxes
  {
    Db(d.inboxes,
       Joined(d.threads, row.thread, row.inbox),
       d.messages[m := row],
       d.attachments + RowsFor(base, m, contents),
       d.drafts,
       Adjusted(d.usage, d.inboxes[row.inbox], row.size + SumLengths(contents)),
       d.bucket + ObjectsFor(m, contents) + raw,
       base + |contents|)
  }

  /** The ids a stored message takes are fresh, and its thread is one of its inbox or fresh too. */
  predicate FreshMessage(d: Db, m: Id, row: Message, base: Id) {
    && d.nextId <= m < base
    && row.inbox in d.inboxes && row.raw in {None, Some(RawKey(m))}
    && if row.thread in d.threads then d.threads[row.thread].inbox == row.inbox else d.nextId <= row.thread < base
  }

  /** Storing one more message keeps the tables consistent and the bucket exact. */
  lemma WithMessageKeeps(d: Db, m: Id, row: Message, base: Id, contents: seq<Bytes>, raw: map<ObjectKey, Bytes>)
    requires Consistent(d) && FreshMessage(d, m, row, base)
    requires RawFits(m, row, raw)
    ensures Consistent(WithMessage(d, m, row, base, contents, raw))
    ensures Exact(d) ==> Exact(WithMessage(d, m, row, base, contents, raw))
  {
    var e := WithMessage(d, m, row, base, contents, raw);
    AddedKeeps(d, e, m, row, base, contents, raw);
  }

  // ---------------------------------------------------------------- messages deleted

  ghost predicate RemovedRows(d: Db, e: Db, gone: set<Id>) {
    && e.inboxes == d.inboxes && e.drafts == d.drafts && e.nextId == d.nextId
    && e.messages == d.messages - gone
    && e.attachments == Without(d.attachments, gone)
  }

  /** The threads some messages still point at, each with its number of messages. */
  function Recounted(threads: map<Id, Thread>, messages: map<Id, Message>): map<Id, Thread> {
    map t | t in threads && ThreadMessages(messages, t) != {} ::
      Thread(threads[t].inbox, |ThreadMessages(messages, t)|)
  }

  /** The same, but only for some threads: emptied ones are dropped, surviving ones recounted. */
  function Refreshed(threads: map<Id, Thread>, messages: map<Id, Message>, touched: set<Id>): map<Id, Thread> {
    map t | t in threads && !(t in touched && ThreadMessages(messages, t) == {}) ::
      if t in touched then Thread(threads[t].inbox, |ThreadMessages(messages, t)|) else threads[t]
  }

  lemma RefreshedRecounts(d: Db, gone: set<Id>, touched: set<Id>)
    requires ThreadsCounted(d)
    requires forall m :: m in gone && m in d.messages ==> d.messages[m].thread in touched
    ensures Refreshed(d.threads, d.messages - gone, touched) == Recounted(d.threads, d.messages - gone)
  {
    forall t | t in d.threads && t !in touched
      ensures ThreadMessages(d.messages - gone, t) == ThreadMessages(d.messages, t)
    {
    }
  }

  /** e is d without some messages of one account, with emptied threads dropped and the counter lowered. */
  ghost predicate Removed(d: Db, e: Db, gone: set<Id>, account: Id) {
    && gone <= Owned(d.inboxes, d.messages, account)
    && RemovedRows(d, e, gone)
    && e.threads == Recounted(d.threads, e.messages)
    && e.bucket == d.bucket - (RawKeys(d.messages, gone) + AttachmentKeys(d.attachments, gone))
    && e.usage == Adjusted(d.usage, account, 0 - Stored(d.messages, d.attachments, gone))
  }

  /** Deleting messages of an account lowers its counter by exactly their bytes: the floor never bites. */
  lemma FloorNeverBites(d: Db, gone: set<Id>, account: Id)
    requires StorageCounted(d) && gone <= Owned(d.inboxes, d.messages, account)
    ensures Floored(UsageOf(d.usage, account) - Stored(d.messages, d.attachments, gone))
         == UsageOf(d.usage, account) - Stored(d.messages, d.attachments, gone)
  {
    ReleaseBounded(d.messages, d.attachments, Owned(d.inboxes, d.messages, account), gone);
  }

  lemma RemovedStorage(d: Db, e: Db, gone: set<Id>, account: Id)
    requires StorageCounted(d) && RemovedRows(d, e, gone)
    requires gone <= Owned(d.inboxes, d.messages, account)
    requires e.usage == Adjusted(d.usage, account, 0 - Stored(d.messages, d.attachments, gone))
    ensures StorageCounted(e)
  {
    FloorNeverBites(d, gone, account);
    forall a
      ensures UsageOf(e.usage, a) == Stored(e.messages, e.attachments, Owned(e.inboxes, e.messages, a))
    {
      RemovedOwned(d, e, gone, account, a);
    }
  }

  lemma RemovedOwned(d: Db, e: Db, gone: set<Id>, account: Id, a: Id)
    requires RemovedRows(d, e, gone) && gone <= Owned(d.inboxes, d.messages, account)
    ensures Stored(e.messages, e.attachments, Owned(e.inboxes, e.messages, a))
         == Stored(d.messages, d.attachments, Owned(d.inboxes, d.messages, a))
            - if a == account then Stored(d.messages, d.attachments, gone) else 0
  {
    var before := Owned(d.inboxes, d.messages, a);
    assert Owned(e.inboxes, e.messages, a) == before - gone;
    BytesAfterDelete(d.messages, d.attachments, gone, before - gone);
    if a == account {
      ReleaseBounded(d.messages, d.attachments, before, gone);
    } else {
      assert before - gone == before;
    }
  }

  lemma RemovedLinks(d: Db, e: Db, gone: set<Id>)
    requires RowsLinked(d) && IdsUsed(d) && KeysShaped(d) && ThreadsCounted(d)
    requires RemovedRows(d, e, gone) && e.threads == Recounted(d.threads, e.messages)
    ensures RowsLinked(e) && IdsUsed(e) && KeysShaped(e) && ThreadsCounted(e)
  {
    forall m | m in e.messages
      ensures e.messages[m].thread in e.threads
    {
      assert m in ThreadMessages(e.messages, e.messages[m].thread);
    }
  }

  lemma RemovedBucket(d: Db, e: Db, gone: set<Id>)
    requires RowsLinked(d) && KeysShaped(d) && BucketHolds(d)
    requires gone <= d.messages.Keys && RemovedRows(d, e, gone)
    requires e.bucket == d.bucket - (RawKeys(d.messages, gone) + AttachmentKeys(d.attachments, gone))
    ensures BucketHolds(e)
    ensures Exact(d) ==> Exact(e)
  {
    forall key
      ensures Referenced(e, key) ==> key in e.bucket
      ensures Exact(d) && key in e.bucket ==> Referenced(e, key)
    {
      RemovedReferences(d, e, gone, key);
    }
    if Exact(d) {
      SizesKept(d, e, e.drafts.Keys);
    }
  }

  lemma RemovedReferences(d: Db, e: Db, gone: set<Id>, key: ObjectKey)
    requires KeysShaped(d) && gone <= d.messages.Keys && RemovedRows(d, e, gone)
    ensures Referenced(e, key) <==>
      Referenced(d, key) && key !in RawKeys(d.messages, gone) && key !in AttachmentKeys(d.attachments, gone)
  {
    if Referenced(d, key) && key !in RawKeys(d.messages, gone) && key !in AttachmentKeys(d.attachments, gone) {
      if m :| m in d.messages && d.messages[m].raw == Some(key) {
        assert e.messages[m].raw == Some(key);
      } else if k :| k in d.attachments && d.attachments[k].key == key {
        assert e.attachments[k].key == key;
      }
    }
    if f :| f in d.drafts && key in BodyKeys(d.drafts[f].attachments) {
      var i :| 0 <= i < |d.drafts[f].attachments| && d.drafts[f].attachments[i].key == key;
      assert d.drafts[f].attachments[i].key == DraftKey(f, i);
    }
  }

  /** Deleting messages keeps the counters, the threads and the bucket in agreement. */
  lemma RemovedKeeps(d: Db, e: Db, gone: set<Id>, account: Id)
    requires Consistent(d) && Removed(d, e, gone, account)
    ensures Consistent(e)
    ensures Exact(d) ==> Exact(e)
  {
    RemovedLinks(d, e, gone);
    RemovedStorage(d, e, gone, account);
    RemovedBucket(d, e, gone);
  }

  /** The tables after some messages of an account were deleted and some threads refreshed. */
  ghost function Removal(d: Db, gone: set<Id>, touched: set<Id>, account: Id): Db {
    Db(d.inboxes,
       Refreshed(d.threads, d.messages - gone, touched),
       d.messages - gone,
       Without(d.attachments, gone),
       d.drafts,
       Adjusted(d.usage, account, 0 - Stored(d.messages, d.attachments, gone)),
       d.bucket - (RawKeys(d.messages, gone) + AttachmentKeys(d.attachments, gone)),
       d.nextId)
  }

  /** The tables after some messages of an account were deleted, whichever way that was asked for. */
  ghost function WithoutMessages(d: Db, gone: set<Id>, account: Id): Db {
    Removal(d, gone, {}, account).(threads := Recounted(d.threads, d.messages - gone))
  }

  /** Deleting messages keeps the tables consistent and the bucket exact. */
  lemma WithoutMessagesKeeps(d: Db, gone: set<Id>, account: Id)
    requires Consistent(d) && gone <= Owned(d.inboxes, d.messages, account)
    ensures Consistent(WithoutMessages(d, gone, account))
    ensures Exact(d) ==> Exact(WithoutMessages(d, gone, account))
  {
    var e := WithoutMessages(d, gone, account);
    RemovedKeeps(d, e, gone, account);
  }

  /** A thread survives a batch delete exactly when some message outside the batch points at it. */
  lemma BatchSettled(threads: map<Id, Thread>, messages: map<Id, Message>, gone: set<Id>, touched: set<Id>,
                     surviving: set<Id>)
    requires surviving == set m | m in messages && messages[m].thread in touched && m !in gone :: messages[m].thread
    ensures forall t :: t in touched ==> (ThreadMessages(messages - gone, t) == {} <==> t !in surviving)
  {
    forall t | t in touched
      ensures ThreadMessages(messages - gone, t) == {} <==> t !in surviving
    {
      if t in surviving {
        var m :| m in messages && messages[m].thread == t && m !in gone;
        assert m in ThreadMessages(messages - gone, t);
      }
    }
  }

  /** Refreshing just the threads of the deleted messages is as good as recounting every thread. */
  lemma RefreshSuffices(d: Db, gone: set<Id>, touched: set<Id>, account: Id)
    requires ThreadsCounted(d)
    requires forall m :: m in gone && m in d.messages ==> d.messages[m].thread in touched
    ensures Removal(d, gone, touched, account) == WithoutMessages(d, gone, account)
  {
    RefreshedRecounts(d, gone, touched);
  }

  // ---------------------------------------------------------------- drafts and inboxes changed

  predicate OfDraft(key: ObjectKey, drafts: set<Id>) {
    key.DraftKey? && key.draft in drafts
  }

  /** Only the rows and objects of some drafts differ between d and e. */
  ghost predicate DraftsChanged(d: Db, e: Db, changed: set<Id>) {
    && e.inboxes == d.inboxes && e.threads == d.threads && e.messages == d.messages
    && e.attachments == d.attachments && e.usage == d.usage && d.nextId <= e.nextId
    && (forall f :: f !in changed ==> (f in e.drafts <==> f in d.drafts))
    && (forall f :: f !in changed && f in d.drafts ==> f in e.drafts && e.drafts[f] == d.drafts[f])
    && (forall f :: f in e.drafts ==>
         && f < e.nextId && e.drafts[f].inbox in e.inboxes
         && forall i :: 0 <= i < |e.drafts[f].attachments| ==> e.drafts[f].attachments[i].key == DraftKey(f, i))
    && (forall key :: !OfDraft(key, changed) ==> (key in e.bucket <==> key in d.bucket))
    && (forall key :: !OfDraft(key, changed) && key in d.bucket ==> e.bucket[key] == d.bucket[key])
  }

  lemma LiveReferenced(d: Db, f: Id, i: nat)
    requires KeysShaped(d)
    ensures Referenced(d, DraftKey(f, i)) <==> DraftKey(f, i) in LiveKeys(d.drafts, f)
  {
    if g :| g in d.drafts && d.drafts[g].status != Sent && DraftKey(f, i) in BodyKeys(d.drafts[g].attachments) {
      assert g == f;
    }
  }

  /** References to objects of other rows do not change. */
  lemma OthersReferenced(d: Db, e: Db, changed: set<Id>, key: ObjectKey)
    requires KeysShaped(d) && DraftsChanged(d, e, changed) && !OfDraft(key, changed)
    ensures Referenced(e, key) <==> Referenced(d, key)
  {
    if key.DraftKey? {
      LiveReferenced(d, key.draft, key.index);
      LiveReferenced(e, key.draft, key.index);
    } else {
      assert forall f :: f in d.drafts ==> key !in BodyKeys(d.drafts[f].attachments);
      assert forall f :: f in e.drafts ==> key !in BodyKeys(e.drafts[f].attachments);
    }
  }

  /** Changing drafts keeps the agreement when their live objects are stored. */
  lemma DraftsKeep(d: Db, e: Db, changed: set<Id>)
    requires Consistent(d) && DraftsChanged(d, e, changed)
    requires forall f :: f in changed ==> LiveKeys(e.drafts, f) <= e.bucket.Keys
    ensures Consistent(e)
  {
    assert KeysShaped(e);
    forall key | Referenced(e, key)
      ensures key in e.bucket
    {
      if OfDraft(key, changed) {
        LiveReferenced(e, key.draft, key.index);
      } else {
        OthersReferenced(d, e, changed, key);
      }
    }
  }

  /** It keeps the bucket exact when, besides, it holds nothing else of theirs. */
  lemma DraftsKeepExact(d: Db, e: Db, changed: set<Id>)
    requires KeysShaped(d) && Exact(d) && DraftsChanged(d, e, changed)
    requires forall f, i :: f in changed && DraftKey(f, i) in e.bucket ==> DraftKey(f, i) in LiveKeys(e.drafts, f)
    requires forall f :: f in changed ==> DraftSized(e, f)
    ensures Exact(e)
  {
    assert KeysShaped(e);
    forall key | key in e.bucket
      ensures Referenced(e, key)
    {
      if OfDraft(key, changed) {
        LiveReferenced(e, key.draft, key.index);
      } else {
        OthersReferenced(d, e, changed, key);
      }
    }
    SizesKept(d, e, e.drafts.Keys - changed);
  }

  ghost predicate SameObjects(d: Db, e: Db) {
    e.messages == d.messages && e.attachments == d.attachments && e.drafts == d.drafts && e.bucket == d.bucket
  }

  lemma SameObjectsKeep(d: Db, e: Db)
    requires SameObjects(d, e) && BucketHolds(d) && KeysShaped(d)
    ensures BucketHolds(e) && (Exact(d) ==> Exact(e))
  {
    assert forall key :: Referenced(e, key) <==> Referenced(d, key);
    if Exact(d) {
      SizesKept(d, e, e.drafts.Keys);
    }
  }

  /** An inbox without messages, threads or drafts can come and go. */
  lemma InboxKeeps(d: Db, e: Db, inbox: Id)
    requires Consistent(d) && SameObjects(d, e)
    requires e.threads == d.threads && e.usage == d.usage && d.nextId <= e.nextId
    requires forall i :: i != inbox ==> (i in e.inboxes <==> i in d.inboxes)
    requires forall i :: i != inbox && i in d.inboxes ==> e.inboxes[i] == d.inboxes[i]
    requires forall t :: t in d.threads ==> d.threads[t].inbox != inbox
    requires forall f :: f in d.drafts ==> d.drafts[f].inbox != inbox
    ensures Consistent(e)
    ensures Exact(d) ==> Exact(e)
  {
    SameObjectsKeep(d, e);
    forall a
      ensures Owned(e.inboxes, e.messages, a) == Owned(d.inboxes, d.messages, a)
    {
    }
  }

  // ---------------------------------------------------------------- what each draft operation leaves

  function DraftObjects(f: Id, contents: seq<Bytes>): map<ObjectKey, Bytes> {
    map i: nat | 0 <= i < |contents| :: DraftKey(f, i) := contents[i]
  }

  function Described(f: Id, contents: seq<Bytes>): seq<DraftAttachment> {
    seq(|contents|, i requires 0 <= i < |contents| => DraftAttachment(|contents[i]|, DraftKey(f, i)))
  }

  lemma DescribedKeys(f: Id, contents: seq<Bytes>)
    ensures BodyKeys(Described(f, contents)) == DraftObjects(f, contents).Keys
  {
    var described := Described(f, contents);
    forall key | key in DraftObjects(f, contents)
      ensures key in BodyKeys(described)
    {
      assert described[key.index].key == key;
    }
  }

  /** A draft written with new attachments: their objects are put, those no longer listed are dropped. */
  function DraftWritten(d: Db, f: Id, row: Draft, contents: seq<Bytes>): Db {
    var previous := if f in d.drafts then BodyKeys(d.drafts[f].attachments) else {};
    Db(d.inboxes, d.threads, d.messages, d.attachments, d.drafts[f := row], d.usage,
       d.bucket + DraftObjects(f, contents) - (previous - BodyKeys(row.attachments)),
       if f < d.nextId then d.nextId else f + 1)
  }

  lemma DraftWrittenChanges(d: Db, f: Id, row: Draft, contents: seq<Bytes>)
    requires IdsUsed(d) && RowsLinked(d) && KeysShaped(d)
    requires row.inbox in d.inboxes && row.attachments == Described(f, contents)
    ensures DraftsChanged(d, DraftWritten(d, f, row, contents), {f})
  {
  }

  lemma DraftWrittenObjects(d: Db, f: Id, row: Draft, contents: seq<Bytes>)
    requires KeysShaped(d) && row.attachments == Described(f, contents) && row.status != Sent
    ensures var e := DraftWritten(d, f, row, contents);
      && LiveKeys(e.drafts, f) <= e.bucket.Keys
      && DraftSized(e, f)
      && forall i :: DraftKey(f, i) in e.bucket && DraftKey(f, i) in d.bucket && DraftKey(f, i) in PastKeys(d, f) ==>
           DraftKey(f, i) in LiveKeys(e.drafts, f)
  {
    DescribedKeys(f, contents);
  }

  lemma DraftWrittenKeeps(d: Db, f: Id, row: Draft, contents: seq<Bytes>)
    requires Consistent(d) && row.inbox in d.inboxes && row.status != Sent
    requires row.attachments == Described(f, contents)
    ensures Consistent(DraftWritten(d, f, row, contents))
  {
    DraftWrittenChanges(d, f, row, contents);
    DraftWrittenObjects(d, f, row, contents);
    DraftsKeep(d, DraftWritten(d, f, row, contents), {f});
  }

  lemma DraftWrittenExact(d: Db, f: Id, row: Draft, contents: seq<Bytes>)
    requires Consistent(d) && Exact(d) && row.inbox in d.inboxes && row.status != Sent
    requires row.attachments == Described(f, contents) && LiveKeys(d.drafts, f) == PastKeys(d, f)
    ensures Exact(DraftWritten(d, f, row, contents))
  {
    DraftWrittenChanges(d, f, row, contents);
    DraftWrittenObjects(d, f, row, contents);
    DescribedKeys(f, contents);
    var e := DraftWritten(d, f, row, contents);
    forall i | DraftKey(f, i) in e.bucket
      ensures DraftKey(f, i) in LiveKeys(e.drafts, f)
    {
      LiveReferenced(d, f, i);
    }
    DraftsKeepExact(d, e, {f});
  }

  function PastKeys(d: Db, f: Id): set<ObjectKey> {
    if f in d.drafts then BodyKeys(d.drafts[f].attachments) else {}
  }

  /** A draft row rewritten over the same attachments. */
  function DraftSet(d: Db, f: Id, row: Draft): Db {
    d.(drafts := d.drafts[f := row])
  }

  lemma DraftSetKeeps(d: Db, f: Id, row: Draft)
    requires Consistent(d) && f in d.drafts && d.drafts[f].status != Sent
    requires row.inbox == d.drafts[f].inbox && row.attachments == d.drafts[f].attachments
    ensures Consistent(DraftSet(d, f, row))
    ensures Exact(d) && row.status != Sent ==> Exact(DraftSet(d, f, row))
  {
    var e := DraftSet(d, f, row);
    assert DraftsChanged(d, e, {f});
    forall key | key in LiveKeys(e.drafts, f)
      ensures key in e.bucket
    {
      assert Referenced(d, key);
    }
    DraftsKeep(d, e, {f});
    if Exact(d) && row.status != Sent {
      assert DraftSized(d, f);
      forall i | DraftKey(f, i) in e.bucket
        ensures DraftKey(f, i) in LiveKeys(e.drafts, f)
      {
        LiveReferenced(d, f, i);
      }
      DraftsKeepExact(d, e, {f});
    }
  }

  /** Some drafts are gone, or done with, and their objects are dropped. */
  function DraftsDropped(d: Db, kept: map<Id, Draft>, keys: set<ObjectKey>): Db {
    d.(drafts := kept, bucket := d.bucket - keys)
  }

  lemma DraftsDroppedKeeps(d: Db, kept: map<Id, Draft>, keys: set<ObjectKey>, changed: set<Id>)
    requires Consistent(d)
    requires forall f :: f !in changed ==> (f in kept <==> f in d.drafts) && (f in kept ==> kept[f] == d.drafts[f])
    requires forall f :: f in changed && f in kept ==>
      f in d.drafts && kept[f].status == Sent && kept[f].inbox == d.drafts[f].inbox
      && kept[f].attachments == d.drafts[f].attachments
    requires forall key :: key in keys ==> OfDraft(key, changed)
    requires forall f :: f in changed ==> LiveKeys(d.drafts, f) <= keys
    ensures Consistent(DraftsDropped(d, kept, keys))
    ensures Exact(d) ==> Exact(DraftsDropped(d, kept, keys))
  {
    var e := DraftsDropped(d, kept, keys);
    assert DraftsChanged(d, e, changed);
    DraftsKeep(d, e, changed);
    if Exact(d) {
      forall f, i | f in changed && DraftKey(f, i) in d.bucket
        ensures DraftKey(f, i) in LiveKeys(d.drafts, f)
      {
        LiveReferenced(d, f, i);
      }
      DraftsKeepExact(d, e, changed);
    }
  }

  /** The keys of every draft of an inbox, whatever its status. */
  function InboxDraftKeys(drafts: map<Id, Draft>, inbox: Id): set<ObjectKey> {
    set f, key | f in drafts && drafts[f].inbox == inbox && key in BodyKeys(drafts[f].attachments) :: key
  }

  function ThreadsOutside(threads: map<Id, Thread>, inbox: Id): map<Id, Thread> {
    map t | t in threads && threads[t].inbox != inbox :: threads[t]
  }

  function DraftsOutside(drafts: map<Id, Draft>, inbox: Id): map<Id, Draft> {
    map f | f in drafts && drafts[f].inbox != inbox :: drafts[f]
  }

  /** The tables without an inbox: its messages released, its threads and drafts dropped with it. */
  ghost function InboxRemoval(d: Db, inbox: Id, account: Id): Db {
    var gone := InboxMessages(d.messages, inbox);
    Db(d.inboxes - {inbox},
       ThreadsOutside(d.threads, inbox),
       d.messages - gone,
       Without(d.attachments, gone),
       DraftsOutside(d.drafts, inbox),
       Adjusted(d.usage, account, 0 - Stored(d.messages, d.attachments, gone)),
       d.bucket - (RawKeys(d.messages, gone) + AttachmentKeys(d.attachments, gone))
                - InboxDraftKeys(d.drafts, inbox),
       d.nextId)
  }

  lemma InboxThreads(d: Db, inbox: Id)
    requires RowsLinked(d) && ThreadsCounted(d)
    ensures Recounted(d.threads, d.messages - InboxMessages(d.messages, inbox))
         == ThreadsOutside(d.threads, inbox)
  {
    var left := d.messages - InboxMessages(d.messages, inbox);
    forall t | t in d.threads
      ensures ThreadMessages(left, t) == if d.threads[t].inbox == inbox then {} else ThreadMessages(d.messages, t)
    {
    }
  }

  /** Deleting an inbox is deleting its messages, then its drafts, then its row. */
  lemma InboxRemovalSteps(d: Db, inbox: Id, account: Id)
    requires RowsLinked(d) && ThreadsCounted(d)
    ensures var e := InboxRemoval(d, inbox, account);
      var x := WithoutMessages(d, InboxMessages(d.messages, inbox), account);
      e == DraftsDropped(x, e.drafts, InboxDraftKeys(d.drafts, inbox)).(inboxes := e.inboxes)
  {
    InboxThreads(d, inbox);
  }

  lemma InboxDraftsKeep(d: Db, x: Db, inbox: Id, kept: map<Id, Draft>)
    requires Consistent(x) && x.drafts == d.drafts
    requires kept == DraftsOutside(d.drafts, inbox)
    ensures Consistent(DraftsDropped(x, kept, InboxDraftKeys(d.drafts, inbox)))
    ensures Exact(x) ==> Exact(DraftsDropped(x, kept, InboxDraftKeys(d.drafts, inbox)))
  {
    var changed := set f | f in d.drafts && d.drafts[f].inbox == inbox;
    DraftsDroppedKeeps(x, kept, InboxDraftKeys(d.drafts, inbox), changed);
  }

  /** The tables once an inbox's messages and drafts are gone and its row is not. */
  ghost function InboxEmptied(d: Db, inbox: Id, account: Id): Db {
    DraftsDropped(WithoutMessages(d, InboxMessages(d.messages, inbox), account), DraftsOutside(d.drafts, inbox),
                  InboxDraftKeys(d.drafts, inbox))
  }

  lemma InboxEmptiedKeeps(d: Db, inbox: Id, account: Id)
    requires Consistent(d) && inbox in d.inboxes && d.inboxes[inbox] == account
    ensures Consistent(InboxEmptied(d, inbox, account))
    ensures Exact(d) ==> Exact(InboxEmptied(d, inbox, account))
  {
    var gone := InboxMessages(d.messages, inbox);
    WithoutMessagesKeeps(d, gone, account);
    InboxDraftsKeep(d, WithoutMessages(d, gone, account), inbox, DraftsOutside(d.drafts, inbox));
  }

  /** Deleting an inbox keeps the tables consistent and the bucket exact. */
  lemma InboxRemovalKeeps(d: Db, inbox: Id, account: Id)
    requires Consistent(d) && inbox in d.inboxes && d.inboxes[inbox] == account
    ensures Consistent(InboxRemoval(d, inbox, account))
    ensures Exact(d) ==> Exact(InboxRemoval(d, inbox, account))
  {
    InboxEmptiedKeeps(d, inbox, account);
    InboxRemovalSteps(d, inbox, account);
    InboxKeeps(InboxEmptied(d, inbox, account), InboxRemoval(d, inbox, account), inbox);
  }
}
