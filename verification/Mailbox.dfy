/** The mail store: tables and bucket changed in place by the exported operations, one statement at a time. */
module MailStore {
  import opened Common
  import opened Totals
  import opened DraftStatus
  import opened Tables
  import opened LedgerLaws
  import opened DraftLaws

  datatype Error =
    | NotFound | Conflict | BadRequest | Rejected
    | TooLarge | UnknownRecipient | QuotaExceeded | Screened | Unroutable

  const INBOUND_MAX_BYTES: nat := 25 * 1024 * 1024
  const MAX_BATCH_MESSAGES: nat := 100
  const R2_DELETE_CHUNK: nat := 1000

  function ChunkKeys(keys: seq<ObjectKey>): (chunks: seq<seq<ObjectKey>>)
    ensures forall c :: 0 <= c < |chunks| ==> 0 < |chunks[c]| <= R2_DELETE_CHUNK
    ensures forall c :: 0 <= c < |chunks| - 1 ==> |chunks[c]| == R2_DELETE_CHUNK
    decreases |keys|
  {
    if keys == [] then []
    else if |keys| <= R2_DELETE_CHUNK then [keys]
    else [keys[..R2_DELETE_CHUNK]] + ChunkKeys(keys[R2_DELETE_CHUNK..])
  }

  lemma ElementsJoin<T>(a: seq<T>, b: seq<T>)
    ensures Elements(a + b) == Elements(a) + Elements(b)
  {
    assert forall x :: x in a + b <==> x in a || x in b;
  }

  /** The inboxes an account holds. */
  function HeldBy(inboxes: map<Id, Id>, account: Id): set<Id> {
    set i | i in inboxes && inboxes[i] == account
  }

  predicate InboxHeld(inboxes: map<Id, Id>, account: Id, inbox: Id) {
    inbox in inboxes && inboxes[inbox] == account
  }

  /** The message a draft answers, if any, is in the inbox. */
  predicate ParentIn(messages: map<Id, Message>, inbox: Id, parent: Option<Id>) {
    parent.Some? ==> parent.value in messages && messages[parent.value].inbox == inbox
  }

  /** What updateDraft checks before it writes anything. */
  ghost predicate Updatable(d: Db, account: Id, inbox: Id, f: Id, textBytes: nat, replacing: Option<seq<Bytes>>,
                            acceptable: bool)
  {
    && InboxHeld(d.inboxes, account, inbox) && f in d.drafts && d.drafts[f].inbox == inbox
    && d.drafts[f].status in OPEN_STATUSES && ParentIn(d.messages, inbox, d.drafts[f].parent) && acceptable
    && Composable(textBytes,
         if replacing.Some? then replacing.value else Loaded(d.bucket, Keys(d.drafts[f].attachments)))
  }

  function Flatten<T>(chunks: seq<seq<T>>): seq<T> {
    if chunks == [] then [] else chunks[0] + Flatten(chunks[1..])
  }

  /** No key is lost or reordered by chunking. */
  lemma {:induction false} ChunksCover(keys: seq<ObjectKey>)
    ensures Flatten(ChunkKeys(keys)) == keys
    decreases |keys|
  {
    if keys == [] {
    } else if |keys| <= R2_DELETE_CHUNK {
      assert ChunkKeys(keys) == [keys];
      assert Flatten([keys][1..]) == [];
    } else {
      ChunksCover(keys[R2_DELETE_CHUNK..]);
      assert ChunkKeys(keys)[1..] == ChunkKeys(keys[R2_DELETE_CHUNK..]);
      assert keys == keys[..R2_DELETE_CHUNK] + keys[R2_DELETE_CHUNK..];
    }
  }

  lemma ReplacingExact(d: Db, f: Id, row: Draft, contents: seq<Bytes>)
    requires Consistent(d) && Exact(d) && f in d.drafts && d.drafts[f].status != Sent
    requires row.inbox == d.drafts[f].inbox && row.status != Sent && row.attachments == Described(f, contents)
    ensures Exact(LateRejected(d, f, contents)) <==> Fits(contents, d.drafts[f].attachments)
    ensures Exact(DraftWritten(d, f, row, contents))
  {
    LateRejectionLeaks(d, f, contents);
    DraftWrittenExact(d, f, row, contents);
  }

  /** Where an update of draft f can end. */
  lemma UpdateLaws(d: Db, f: Id, row: Draft, replacing: Option<seq<Bytes>>)
    requires Consistent(d) && f in d.drafts && d.drafts[f].status in OPEN_STATUSES
    requires row.inbox == d.drafts[f].inbox && row.status != Sent
    requires row.attachments == if replacing.Some? then Described(f, replacing.value) else d.drafts[f].attachments
    ensures replacing.Some? ==>
      && Consistent(LateRejected(d, f, replacing.value)) && Consistent(DraftWritten(d, f, row, replacing.value))
      && (Exact(d) ==> (Exact(LateRejected(d, f, replacing.value)) <==> Fits(replacing.value, d.drafts[f].attachments)))
      && (Exact(d) ==> Exact(DraftWritten(d, f, row, replacing.value)))
    ensures replacing.None? ==> Consistent(DraftSet(d, f, row)) && (Exact(d) ==> Exact(DraftSet(d, f, row)))
  {
    if replacing.Some? {
      LateRejectedKeeps(d, f, replacing.value);
      DraftWrittenKeeps(d, f, row, replacing.value);
      if Exact(d) {
        ReplacingExact(d, f, row, replacing.value);
      }
    } else {
      DraftSetKeeps(d, f, row);
    }
  }

  class Mailbox {
    var inboxes: map<Id, Id>
    var threads: map<Id, Thread>
    var messages: map<Id, Message>
    var attachments: map<Id, Attachment>
    var drafts: map<Id, Draft>
    var usage: map<Id, nat>
    var bucket: map<ObjectKey, Bytes>
    var nextId: Id

    ghost function Now(): Db
      reads this
    {
      Db(inboxes, threads, messages, attachments, drafts, usage, bucket, nextId)
    }

    ghost predicate Valid()
      reads this
    {
      Consistent(Now())
    }

    constructor ()
      ensures Valid() && Exact(Now())
      ensures Now() == Db(map[], map[], map[], map[], map[], map[], map[], 0)
    {
      inboxes, threads, messages, attachments := map[], map[], map[], map[];
      drafts, usage, bucket, nextId := map[], map[], map[], 0;
      new;
      assert forall a :: Owned(inboxes, messages, a) == {};
      assert MessageSizes(messages, {}) == map[] && AttachmentSizes(attachments, {}) == map[];
    }

    /** Identifiers are never handed out twice. */
    method NewId() returns (id: Id)
      modifies this`nextId
      ensures id == old(nextId) && nextId == id + 1
    {
      id := nextId;
      nextId := nextId + 1;
    }

    predicate Holds(account: Id, inbox: Id)
      reads this`inboxes
    {
      InboxHeld(inboxes, account, inbox)
    }

    predicate HasMessage(inbox: Id, m: Id)
      reads this`messages
    {
      m in messages && messages[m].inbox == inbox
    }

    predicate HasThread(inbox: Id, t: Id)
      reads this`threads
    {
      t in threads && threads[t].inbox == inbox
    }

    predicate HasDraft(inbox: Id, f: Id)
      reads this`drafts
    {
      f in drafts && drafts[f].inbox == inbox
    }

    // -------------------------------------------------------------- counters and objects

    method ApplyUsage(account: Id, delta: int)
      modifies this`usage
      ensures usage == old(usage)[account := Floored(UsageOf(old(usage), account) + delta)]
    {
      usage := usage[account := Floored(UsageOf(usage, account) + delta)];
    }

    method RecordStorageDelta(account: Id, delta: int)
      modifies this`usage
      ensures usage == Adjusted(old(usage), account, delta)
    {
      if delta == 0 {
        return;
      }
      ApplyUsage(account, delta);
    }

    method StorageFor(ids: set<Id>) returns (bytes: nat)
      ensures bytes == Stored(messages, attachments, ids)
    {
      var own := Sum(MessageSizes(messages, ids));
      var attached := Sum(AttachmentSizes(attachments, ids));
      bytes := own + attached;
    }

    /** A query's keys, in whatever order the rows come. */
    method Listed(keys: set<ObjectKey>) returns (list: seq<ObjectKey>)
      ensures Elements(list) == keys
    {
      list := [];
      var rest := keys;
      while rest != {}
        invariant Elements(list) + rest == keys
      {
        var key :| key in rest;
        list, rest := list + [key], rest - {key};
      }
    }

    method DeleteObjects(keys: seq<ObjectKey>)
      modifies this`bucket
      ensures bucket == old(bucket) - Elements(keys)
    {
      var chunks := ChunkKeys(keys);
      var done: seq<ObjectKey> := [];
      var i := 0;
      while i < |chunks|
        invariant 0 <= i <= |chunks|
        invariant done + Flatten(chunks[i..]) == Flatten(chunks)
        invariant bucket == old(bucket) - Elements(done)
      {
        assert chunks[i..] == [chunks[i]] + chunks[i + 1..];
        ElementsJoin(done, chunks[i]);
        bucket := bucket - Elements(chunks[i]);
        done := done + chunks[i];
        i := i + 1;
      }
      ChunksCover(keys);
      assert done == keys;
    }

    method PutAttachments(m: Id, contents: seq<Bytes>)
      modifies this`bucket
      ensures bucket == old(bucket) + ObjectsFor(m, contents)
    {
      var i := 0;
      while i < |contents|
        invariant 0 <= i <= |contents|
        invariant bucket == old(bucket) + ObjectsFor(m, contents[..i])
      {
        ObjectsStep(old(bucket), m, contents, i);
        bucket := bucket[AttachmentKey(m, i) := contents[i]];
        i := i + 1;
      }
      assert contents[..i] == contents;
    }

    /** An inbound message's objects: the raw message first, then its attachments. */
    method PutInbound(m: Id, raw: Bytes, contents: seq<Bytes>)
      modifies this`bucket
      ensures bucket == old(bucket) + ObjectsFor(m, contents) + map[RawKey(m) := raw]
    {
      bucket := bucket[RawKey(m) := raw];
      PutAttachments(m, contents);
      RawFirst(old(bucket), m, contents, raw);
    }

    method InsertAttachments(m: Id, contents: seq<Bytes>)
      modifies this`attachments, this`nextId
      ensures attachments == old(attachments) + RowsFor(old(nextId), m, contents)
      ensures nextId == old(nextId) + |contents|
    {
      var i := 0;
      while i < |contents|
        invariant 0 <= i <= |contents|
        invariant nextId == old(nextId) + i
        invariant attachments == old(attachments) + RowsFor(old(nextId), m, contents[..i])
      {
        RowsStep(old(attachments), old(nextId), m, contents, i);
        var id := NewId();
        attachments := attachments[id := Attachment(m, |contents[i]|, AttachmentKey(m, i))];
        i := i + 1;
      }
      assert contents[..i] == contents;
    }

    /** An outbound message's attachments: each object is put just before its row. */
    method StoreAttachments(m: Id, contents: seq<Bytes>)
      modifies this`attachments, this`bucket, this`nextId
      ensures attachments == old(attachments) + RowsFor(old(nextId), m, contents)
      ensures bucket == old(bucket) + ObjectsFor(m, contents)
      ensures nextId == old(nextId) + |contents|
    {
      var i := 0;
      while i < |contents|
        invariant 0 <= i <= |contents|
        invariant nextId == old(nextId) + i
        invariant attachments == old(attachments) + RowsFor(old(nextId), m, contents[..i])
        invariant bucket == old(bucket) + ObjectsFor(m, contents[..i])
      {
        ObjectsStep(old(bucket), m, contents, i);
        RowsStep(old(attachments), old(nextId), m, contents, i);
        bucket := bucket[AttachmentKey(m, i) := contents[i]];
        var id := NewId();
        attachments := attachments[id := Attachment(m, |contents[i]|, AttachmentKey(m, i))];
        i := i + 1;
      }
      assert contents[..i] == contents;
    }

    method PutDraftAttachments(f: Id, contents: seq<Bytes>)
      modifies this`bucket
      ensures bucket == old(bucket) + DraftObjects(f, contents)
    {
      var i := 0;
      while i < |contents|
        invariant 0 <= i <= |contents|
        invariant bucket == old(bucket) + DraftObjects(f, contents[..i])
      {
        bucket := bucket[DraftKey(f, i) := contents[i]];
        i := i + 1;
      }
      assert contents[..i] == contents;
    }

    method LoadAttachments(keys: seq<ObjectKey>) returns (contents: seq<Bytes>)
      ensures contents == Loaded(bucket, keys)
    {
      contents := [];
      var i := 0;
      while i < |keys|
        invariant 0 <= i <= |keys|
        invariant contents == Loaded(bucket, keys[..i])
      {
        assert keys[..i + 1][..i] == keys[..i];
        if keys[i] in bucket {
          contents := contents + [bucket[keys[i]]];
        }
        i := i + 1;
      }
      assert keys[..i] == keys;
    }

    method TouchThread(t: Id)
      modifies this`threads
      ensures threads == Touched(old(threads), t)
    {
      if t in threads {
        threads := threads[t := Thread(threads[t].inbox, threads[t].count + 1)];
      }
    }

    // -------------------------------------------------------------- messages stored

    /** The thread a new message joins: the existing one, or a fresh one inserted with no message. */
    method OpenThread(inbox: Id, existing: Option<Id>) returns (t: Id)
      requires existing.Some? ==> HasThread(inbox, existing.value)
      requires nextId !in threads
      modifies this`threads, this`nextId
      ensures if existing.Some? then t == existing.value else t == old(nextId)
      ensures nextId == old(nextId) + if existing.Some? then 0 else 1
      ensures Touched(threads, t) == Joined(old(threads), t, inbox)
    {
      if existing.Some? {
        t := existing.value;
      } else {
        t := NewId();
        threads := threads[t := Thread(inbox, 0)];
      }
    }

    /** The rows of a received message: its thread, itself, its attachments, its charge. */
    method InsertInbound(m: Id, inbox: Id, size: nat, contents: seq<Bytes>, existing: Option<Id>)
      returns (t: Id, ghost base: Id)
      requires inbox in inboxes && nextId !in threads
      requires existing.Some? ==> HasThread(inbox, existing.value)
      modifies this`threads, this`messages, this`attachments, this`usage, this`nextId
      ensures if existing.Some? then t == existing.value && base == old(nextId) else t == old(nextId) && base == t + 1
      ensures nextId == base + |contents|
      ensures threads == Joined(old(threads), t, inbox)
      ensures messages == old(messages)[m := Message(inbox, t, size, Some(RawKey(m)))]
      ensures attachments == old(attachments) + RowsFor(base, m, contents)
      ensures usage == Adjusted(old(usage), inboxes[inbox], size + SumLengths(contents))
    {
      t := OpenThread(inbox, existing);
      messages := messages[m := Message(inbox, t, size, Some(RawKey(m)))];
      base := nextId;
      InsertAttachments(m, contents);
      TouchThread(t);
      RecordStorageDelta(inboxes[inbox], size + SumLengths(contents));
    }

    /** The steps of an ingest that has been admitted: objects first, rows after. */
    method StoreInbound(inbox: Id, raw: Bytes, contents: seq<Bytes>, existing: Option<Id>)
      returns (m: Id, t: Id, ghost base: Id)
      requires inbox in inboxes && nextId + 1 !in threads
      requires existing.Some? ==> HasThread(inbox, existing.value)
      modifies this
      ensures m == old(nextId)
      ensures if existing.Some? then t == existing.value && base == m + 1 else t == m + 1 && base == t + 1
      ensures Now() ==
        WithMessage(old(Now()), m, Message(inbox, t, |raw|, Some(RawKey(m))), base, contents, map[RawKey(m) := raw])
    {
      m := NewId();
      PutInbound(m, raw, contents);
      t, base := InsertInbound(m, inbox, |raw|, contents, existing);
    }

    /**
     * Stores one received message, or refuses it and changes nothing. countLeft says that the month's messages are
     * not used up, acceptable that neither the spam score nor an attachment's type is refused.
     */
    method Ingest(recipient: Id, raw: Bytes, contents: seq<Bytes>, candidate: Option<Id>, countLeft: bool,
                  limit: Option<nat>, acceptable: bool)
      returns (r: Result<Id, Error>, t: Id, ghost base: Id)
      requires Valid()
      modifies this
      ensures Valid()
      ensures old(Exact(Now())) ==> Exact(Now())
      ensures r.Err? ==> Now() == old(Now())
      ensures r.Err? <==>
        || |raw| > INBOUND_MAX_BYTES
        || recipient !in old(inboxes)
        || !countLeft
        || !acceptable
        || (limit.Some? && UsageOf(old(usage), old(inboxes)[recipient]) + |raw| > limit.value)
      ensures r.Ok? ==>
        && FreshMessage(old(Now()), r.value, Message(recipient, t, |raw|, Some(RawKey(r.value))), base)
        && Now() == WithMessage(old(Now()), r.value, Message(recipient, t, |raw|, Some(RawKey(r.value))),
                                base, contents, map[RawKey(r.value) := raw])
        && (if candidate.Some? && old(HasThread(recipient, candidate.value)) then t == candidate.value
            else t !in old(threads))
    {
      t, base := 0, 0;
      if |raw| > INBOUND_MAX_BYTES {
        return Err(TooLarge), t, base;
      }
      if recipient !in inboxes {
        return Err(UnknownRecipient), t, base;
      }
      var account := inboxes[recipient];
      if !countLeft || (limit.Some? && UsageOf(usage, account) + |raw| > limit.value) {
        return Err(QuotaExceeded), t, base;
      }
      if !acceptable {
        return Err(Screened), t, base;
      }
      var existing := if candidate.Some? && HasThread(recipient, candidate.value) then candidate else None;
      var m;
      m, t, base := StoreInbound(recipient, raw, contents, existing);
      WithMessageKeeps(
        old(Now()), m, Message(recipient, t, |raw|, Some(RawKey(m))), base, contents, map[RawKey(m) := raw]);
      r := Ok(m);
    }

    /** The steps that store a message the transport has accepted. */
    method StoreOutbound(inbox: Id, existing: Option<Id>, size: nat, contents: seq<Bytes>)
      returns (m: Id, t: Id, ghost base: Id)
      requires inbox in inboxes && nextId + 1 !in threads
      requires existing.Some? ==> HasThread(inbox, existing.value)
      modifies this
      ensures m == old(nextId)
      ensures if existing.Some? then t == existing.value && base == m + 1 else t == m + 1 && base == t + 1
      ensures Now() == WithMessage(old(Now()), m, Message(inbox, t, size, None), base, contents, map[])
    {
      m := NewId();
      t := OpenThread(inbox, existing);
      messages := messages[m := Message(inbox, t, size, None)];
      base := nextId;
      StoreAttachments(m, contents);
      TouchThread(t);
      RecordStorageDelta(inboxes[inbox], size + SumLengths(contents));
      NoRaw(bucket);
    }

    /** Stores one sent message in an existing thread or a new one. */
    method PersistOutbound(inbox: Id, existing: Option<Id>, size: nat, contents: seq<Bytes>)
      returns (m: Id, t: Id, ghost base: Id)
      requires Valid()
      requires inbox in inboxes && (existing.Some? ==> HasThread(inbox, existing.value))
      modifies this
      ensures Valid()
      ensures old(Exact(Now())) ==> Exact(Now())
      ensures FreshMessage(old(Now()), m, Message(inbox, t, size, None), base)
      ensures Now() == WithMessage(old(Now()), m, Message(inbox, t, size, None), base, contents, map[])
      ensures if existing.Some? then t == existing.value else t !in old(threads)
    {
      m, t, base := StoreOutbound(inbox, existing, size, contents);
      WithMessageKeeps(old(Now()), m, Message(inbox, t, size, None), base, contents, map[]);
    }

    /** A message sent through the transport: checked, handed over, then stored in a new thread. */
    method Send(account: Id, inbox: Id, textBytes: nat, contents: seq<Bytes>, accepted: bool)
      returns (r: Result<Id, Error>, t: Id, ghost base: Id)
      requires Valid()
      modifies this
      ensures Valid()
      ensures old(Exact(Now())) ==> Exact(Now())
      ensures r.Err? ==> Now() == old(Now())
      ensures r.Ok? <==> old(Holds(account, inbox)) && Composable(textBytes, contents) && accepted
      ensures r.Ok? ==>
        && t !in old(threads)
        && FreshMessage(old(Now()), r.value, Outbound(inbox, t, textBytes, contents), base)
        && Now() == WithMessage(old(Now()), r.value, Outbound(inbox, t, textBytes, contents), base, contents, map[])
    {
      t, base := 0, 0;
      if !Holds(account, inbox) {
        return Err(NotFound), t, base;
      }
      if !Composable(textBytes, contents) {
        return Err(BadRequest), t, base;
      }
      if !accepted {
        return Err(Rejected), t, base;
      }
      var m;
      m, t, base := PersistOutbound(inbox, None, textBytes + SumLengths(contents), contents);
      r := Ok(m);
    }

    /** A reply joins its parent's thread. */
    method Reply(account: Id, inbox: Id, parent: Id, textBytes: nat, contents: seq<Bytes>, accepted: bool)
      returns (r: Result<Id, Error>, t: Id, ghost base: Id)
      requires Valid()
      modifies this
      ensures Valid()
      ensures old(Exact(Now())) ==> Exact(Now())
      ensures r.Err? ==> Now() == old(Now())
      ensures r.Ok? <==>
        old(Holds(account, inbox)) && old(HasMessage(inbox, parent)) && Composable(textBytes, contents) && accepted
      ensures r.Ok? ==>
        && t == old(messages)[parent].thread
        && FreshMessage(old(Now()), r.value, Outbound(inbox, t, textBytes, contents), base)
        && Now() == WithMessage(old(Now()), r.value, Outbound(inbox, t, textBytes, contents), base, contents, map[])
    {
      t, base := 0, 0;
      if !Holds(account, inbox) || !HasMessage(inbox, parent) {
        return Err(NotFound), t, base;
      }
      if !Composable(textBytes, contents) {
        return Err(BadRequest), t, base;
      }
      var thread := messages[parent].thread;
      var existing := if HasThread(inbox, thread) then Some(thread) else None;
      if !accepted {
        return Err(Rejected), t, base;
      }
      var m;
      m, t, base := PersistOutbound(inbox, existing, textBytes + SumLengths(contents), contents);
      r := Ok(m);
    }

    // -------------------------------------------------------------- messages deleted

    /** Deletes message rows with their attachment rows, reporting the keys they held. */
    method DeleteRows(ids: set<Id>) returns (keys: set<ObjectKey>)
      modifies this`messages, this`attachments
      ensures keys == RawKeys(old(messages), ids) + AttachmentKeys(old(attachments), ids)
      ensures messages == old(messages) - ids
      ensures attachments == Without(old(attachments), ids)
    {
      keys := RawKeys(messages, ids) + AttachmentKeys(attachments, ids);
      attachments := Without(attachments, ids);
      messages := messages - ids;
    }

    /** The steps every delete shares: measure, delete the rows, lower the counter, drop the objects. */
    method Release(account: Id, ids: set<Id>)
      modifies this`messages, this`attachments, this`usage, this`bucket
      ensures messages == old(messages) - ids
      ensures attachments == Without(old(attachments), ids)
      ensures usage == Adjusted(old(usage), account, 0 - Stored(old(messages), old(attachments), ids))
      ensures bucket == old(bucket) - (RawKeys(old(messages), ids) + AttachmentKeys(old(attachments), ids))
    {
      var released := StorageFor(ids);
      var keys := DeleteRows(ids);
      RecordStorageDelta(account, -(released as int));
      var list := Listed(keys);
      DeleteObjects(list);
    }

    /** Drops a thread row with whatever messages it still has. */
    method DropThread(inbox: Id, t: Id) returns (keys: set<ObjectKey>)
      modifies this`messages, this`attachments, this`threads
      ensures var ids := if old(HasThread(inbox, t)) then ThreadMessages(old(messages), t) else {};
        && keys == RawKeys(old(messages), ids) + AttachmentKeys(old(attachments), ids)
        && messages == old(messages) - ids
        && attachments == Without(old(attachments), ids)
      ensures threads == if old(HasThread(inbox, t)) then old(threads) - {t} else old(threads)
    {
      if !HasThread(inbox, t) {
        assert Without(attachments, {}) == attachments;
        return {};
      }
      keys := DeleteRows(ThreadMessages(messages, t));
      threads := threads - {t};
    }

    method RecountThread(t: Id)
      modifies this`threads
      ensures threads == if t in old(threads) then
          old(threads)[t := Thread(old(threads)[t].inbox, |ThreadMessages(messages, t)|)] else old(threads)
    {
      if t in threads {
        threads := threads[t := Thread(threads[t].inbox, |ThreadMessages(messages, t)|)];
      }
    }

    /** What happens to a thread once one of its messages is gone. */
    method SettleThread(inbox: Id, t: Id)
      requires HasThread(inbox, t)
      modifies this
      ensures inboxes == old(inboxes) && drafts == old(drafts) && usage == old(usage) && nextId == old(nextId)
      ensures messages == old(messages) && attachments == old(attachments) && bucket == old(bucket)
      ensures threads == Refreshed(old(threads), old(messages), {t})
    {
      var remaining := ThreadMessages(messages, t);
      if remaining == {} {
        var keys := DropThread(inbox, t);
        var list := Listed(keys);
        DeleteObjects(list);
      } else {
        RecountThread(t);
      }
    }

    method RemoveOne(account: Id, inbox: Id, m: Id, t: Id)
      requires HasThread(inbox, t)
      modifies this
      ensures Now() == Removal(old(Now()), {m}, {t}, account)
    {
      Release(account, {m});
      SettleThread(inbox, t);
    }

    method DeleteMessage(account: Id, inbox: Id, m: Id) returns (r: Result<(), Error>)
      requires Valid()
      modifies this
      ensures Valid()
      ensures old(Exact(Now())) ==> Exact(Now())
      ensures r.Ok? <==> old(Holds(account, inbox)) && old(HasMessage(inbox, m))
      ensures Now() == if r.Ok? then WithoutMessages(old(Now()), {m}, account) else old(Now())
    {
      if !Holds(account, inbox) || !HasMessage(inbox, m) {
        return Err(NotFound);
      }
      var thread := messages[m].thread;
      RefreshSuffices(Now(), {m}, {thread}, account);
      WithoutMessagesKeeps(Now(), {m}, account);
      RemoveOne(account, inbox, m, thread);
      r := Ok(());
    }

    /** Drops the emptied threads of a batch and recounts the surviving ones. */
    method SettleThreads(inbox: Id, emptied: set<Id>, surviving: set<Id>)
      modifies this`threads
      ensures threads == map t | t in old(threads) && !(t in emptied && old(threads)[t].inbox == inbox) ::
        if t in surviving then Thread(old(threads)[t].inbox, |ThreadMessages(messages, t)|) else old(threads)[t]
    {
      threads := map t | t in threads && !(t in emptied && threads[t].inbox == inbox) :: threads[t];
      threads := map t | t in threads ::
        if t in surviving then Thread(threads[t].inbox, |ThreadMessages(messages, t)|) else threads[t];
    }

    /** The steps of a batch delete: the threads to drop are read off before the rows go. */
    method RemoveBatch(account: Id, inbox: Id, ids: set<Id>, ghost touched: set<Id>)
      requires ids <= messages.Keys
      requires touched == set m | m in ids :: messages[m].thread
      requires forall t :: t in touched ==> HasThread(inbox, t)
      modifies this
      ensures Now() == Removal(old(Now()), ids, touched, account)
    {
      var threadIds := set m | m in ids :: messages[m].thread;
      var surviving := set m | m in messages && messages[m].thread in threadIds && m !in ids :: messages[m].thread;
      var emptied := threadIds - surviving;
      Release(account, ids);
      SettleThreads(inbox, emptied, surviving);
      BatchSettled(old(threads), old(messages), ids, touched, surviving);
    }

    predicate HasMessages(inbox: Id, ids: set<Id>)
      reads this`messages
    {
      forall m :: m in ids ==> m in messages && messages[m].inbox == inbox
    }

    ghost function BatchThreads(inbox: Id, ids: set<Id>): (touched: set<Id>)
      requires RowsLinked(Now()) && HasMessages(inbox, ids)
      reads this
      ensures touched == set m | m in ids :: messages[m].thread
      ensures forall t :: t in touched ==> HasThread(inbox, t)
    {
      set m | m in ids :: messages[m].thread
    }

    method BatchDelete(account: Id, inbox: Id, list: seq<Id>) returns (r: Result<nat, Error>)
      requires Valid()
      modifies this
      ensures Valid()
      ensures old(Exact(Now())) ==> Exact(Now())
      ensures r.Ok? <==>
        && old(Holds(account, inbox)) && 0 < |Elements(list)| <= MAX_BATCH_MESSAGES
        && old(HasMessages(inbox, Elements(list)))
      ensures r.Ok? ==> r.value == |Elements(list)|
      ensures Now() == if r.Ok? then WithoutMessages(old(Now()), Elements(list), account) else old(Now())
    {
      var ids := Elements(list);
      if !Holds(account, inbox) {
        return Err(NotFound);
      }
      if ids == {} || |ids| > MAX_BATCH_MESSAGES {
        return Err(BadRequest);
      }
      if !HasMessages(inbox, ids) {
        return Err(NotFound);
      }
      ghost var touched := BatchThreads(inbox, ids);
      RefreshSuffices(Now(), ids, touched, account);
      WithoutMessagesKeeps(Now(), ids, account);
      RemoveBatch(account, inbox, ids, touched);
      r := Ok(|ids|);
    }

    method RemoveThread(account: Id, inbox: Id, t: Id)
      requires HasThread(inbox, t)
      modifies this
      ensures Now() == Removal(old(Now()), ThreadMessages(old(messages), t), {t}, account)
    {
      var released := StorageFor(ThreadMessages(messages, t));
      var keys := DropThread(inbox, t);
      RecordStorageDelta(account, -(released as int));
      var list := Listed(keys);
      DeleteObjects(list);
      assert ThreadMessages(messages, t) == {};
    }

    method DeleteThread(account: Id, inbox: Id, t: Id) returns (r: Result<(), Error>)
      requires Valid()
      modifies this
      ensures Valid()
      ensures old(Exact(Now())) ==> Exact(Now())
      ensures r.Ok? <==> old(Holds(account, inbox)) && old(HasThread(inbox, t))
      ensures Now() ==
        if r.Ok? then WithoutMessages(old(Now()), ThreadMessages(old(messages), t), account) else old(Now())
    {
      if !Holds(account, inbox) || !HasThread(inbox, t) {
        return Err(NotFound);
      }
      ghost var gone := ThreadMessages(messages, t);
      RefreshSuffices(Now(), gone, {t}, account);
      WithoutMessagesKeeps(Now(), gone, account);
      RemoveThread(account, inbox, t);
      r := Ok(());
    }

    // -------------------------------------------------------------- inboxes

    /**
     * acceptable says that the domain is one the account may use and the user name is valid and free to take,
     * routed that the zone took a rule for the address.
     */
    method CreateInbox(account: Id, inbox: Id, limit: nat, acceptable: bool, routed: bool)
      returns (r: Result<(), Error>)
      requires Valid()
      modifies this`inboxes
      ensures Valid()
      ensures old(Exact(Now())) ==> Exact(Now())
      ensures r.Ok? <==>
        && acceptable && routed && inbox !in old(inboxes)
        && |HeldBy(old(inboxes), account)| < limit
      ensures inboxes == if r.Ok? then old(inboxes)[inbox := account] else old(inboxes)
    {
      if !acceptable {
        return Err(BadRequest);
      }
      if |HeldBy(inboxes, account)| >= limit || inbox in inboxes {
        return Err(Conflict);
      }
      if !routed {
        return Err(Unroutable);
      }
      InboxKeeps(Now(), Now().(inboxes := inboxes[inbox := account]), inbox);
      inboxes := inboxes[inbox := account];
      r := Ok(());
    }

    /** The steps of an inbox delete, table after table. */
    method RemoveInbox(account: Id, inbox: Id)
      modifies this
      ensures Now() == InboxRemoval(old(Now()), inbox, account)
    {
      var ids := InboxMessages(messages, inbox);
      var released := StorageFor(ids);
      var draftKeys := InboxDraftKeys(drafts, inbox);
      drafts := DraftsOutside(drafts, inbox);
      var keys := DeleteRows(ids);
      threads := ThreadsOutside(threads, inbox);
      inboxes := inboxes - {inbox};
      RecordStorageDelta(account, -(released as int));
      DropObjects(keys, draftKeys);
    }

    method DropObjects(keys: set<ObjectKey>, draftKeys: set<ObjectKey>)
      modifies this`bucket
      ensures bucket == old(bucket) - keys - draftKeys
    {
      var list := Listed(keys);
      var draftList := Listed(draftKeys);
      DeleteObjects(list + draftList);
      assert Elements(list + draftList) == keys + draftKeys;
      assert old(bucket) - (keys + draftKeys) == old(bucket) - keys - draftKeys;
    }

    method DeleteInbox(account: Id, inbox: Id) returns (r: Result<(), Error>)
      requires Valid()
      modifies this
      ensures Valid()
      ensures old(Exact(Now())) ==> Exact(Now())
      ensures r.Ok? <==> old(Holds(account, inbox))
      ensures Now() == if r.Ok? then InboxRemoval(old(Now()), inbox, account) else old(Now())
    {
      if !Holds(account, inbox) {
        return Err(NotFound);
      }
      InboxRemovalKeeps(Now(), inbox, account);
      RemoveInbox(account, inbox);
      r := Ok(());
    }

    // -------------------------------------------------------------- forwarding

    method ReadAttachments(m: Id) returns (contents: seq<Bytes>)
      ensures contents == MessageContents(attachments, bucket, m)
    {
      AscendingLists(set k | k in attachments && attachments[k].message == m);
      contents := LoadAttachments(RowKeys(attachments, AttachmentIds(attachments, m)));
    }

    /** A forward starts a new thread and carries the attachments of its parent. */
    method Forward(account: Id, inbox: Id, parent: Id, textBytes: nat, accepted: bool)
      returns (r: Result<Id, Error>, t: Id, ghost base: Id)
      requires Valid()
      modifies this
      ensures Valid()
      ensures old(Exact(Now())) ==> Exact(Now())
      ensures r.Err? ==> Now() == old(Now())
      ensures r.Ok? <==>
        && old(Holds(account, inbox)) && old(HasMessage(inbox, parent)) && accepted
        && Composable(textBytes, MessageContents(old(attachments), old(bucket), parent))
      ensures r.Ok? ==>
        && t !in old(threads)
        && FreshMessage(old(Now()), r.value,
             Outbound(inbox, t, textBytes, MessageContents(old(attachments), old(bucket), parent)), base)
        && Now() == WithMessage(old(Now()), r.value,
             Outbound(inbox, t, textBytes, MessageContents(old(attachments), old(bucket), parent)), base,
             MessageContents(old(attachments), old(bucket), parent), map[])
    {
      t, base := 0, 0;
      if !Holds(account, inbox) || !HasMessage(inbox, parent) {
        return Err(NotFound), t, base;
      }
      var contents := ReadAttachments(parent);
      if !Composable(textBytes, contents) {
        return Err(BadRequest), t, base;
      }
      if !accepted {
        return Err(Rejected), t, base;
      }
      var m;
      m, t, base := PersistOutbound(inbox, None, textBytes + SumLengths(contents), contents);
      r := Ok(m);
    }

    // -------------------------------------------------------------- drafts

    predicate ParentHeld(inbox: Id, parent: Option<Id>)
      reads this`messages
    {
      ParentIn(messages, inbox, parent)
    }

    method CreateDraft(account: Id, inbox: Id, parent: Option<Id>, textBytes: nat, contents: seq<Bytes>,
                       sendAt: SendAt, now: int, acceptable: bool)
      returns (r: Result<Id, Error>)
      requires Valid()
      modifies this
      ensures Valid()
      ensures old(Exact(Now())) ==> Exact(Now())
      ensures r.Err? ==> Now() == old(Now())
      ensures r.Ok? <==>
        && old(Holds(account, inbox)) && old(ParentHeld(inbox, parent))
        && acceptable && Composable(textBytes, contents) && !Refused(sendAt, now)
      ensures r.Ok? ==>
        && r.value !in old(drafts)
        && Now() == DraftWritten(old(Now()), r.value,
             Draft(inbox, parent, textBytes, Described(r.value, contents), Resolved(sendAt, None, now),
                   StatusFor(Resolved(sendAt, None, now)), None), contents)
    {
      if !Holds(account, inbox) || !ParentHeld(inbox, parent) {
        return Err(NotFound);
      }
      if !acceptable || !Composable(textBytes, contents) || Refused(sendAt, now) {
        return Err(BadRequest);
      }
      var at := Resolved(sendAt, None, now);
      ghost var row := Draft(inbox, parent, textBytes, Described(nextId, contents), at, StatusFor(at), None);
      DraftWrittenKeeps(Now(), nextId, row, contents);
      if Exact(Now()) {
        DraftWrittenExact(Now(), nextId, row, contents);
      }
      var f := InsertDraft(inbox, parent, textBytes, contents, at);
      r := Ok(f);
    }

    method InsertDraft(inbox: Id, parent: Option<Id>, textBytes: nat, contents: seq<Bytes>, at: Option<int>)
      returns (f: Id)
      requires nextId !in drafts
      modifies this`drafts, this`bucket, this`nextId
      ensures f == old(nextId)
      ensures Now() == DraftWritten(old(Now()), f,
        Draft(inbox, parent, textBytes, Described(f, contents), at, StatusFor(at), None), contents)
    {
      f := NewId();
      PutDraftAttachments(f, contents);
      drafts := drafts[f := Draft(inbox, parent, textBytes, Described(f, contents), at, StatusFor(at), None)];
    }

    /** The row an update writes. */
    function Revised(row: Draft, f: Id, textBytes: nat, replacing: Option<seq<Bytes>>, sendAt: SendAt, now: int): Draft
    {
      var at := Resolved(sendAt, row.sendAt, now);
      row.(textBytes := textBytes, sendAt := at, status := StatusFor(at),
           attachments := if replacing.Some? then Described(f, replacing.value) else row.attachments)
    }

    /** Attachments are put before the send time is resolved, so a refused send time comes too late for them. */
    method UpdateDraft(account: Id, inbox: Id, f: Id, textBytes: nat, replacing: Option<seq<Bytes>>,
                       sendAt: SendAt, now: int, acceptable: bool)
      returns (r: Result<(), Error>)
      requires Valid()
      modifies this
      ensures Valid()
      ensures r.Ok? <==>
        Updatable(old(Now()), account, inbox, f, textBytes, replacing, acceptable) && !Refused(sendAt, now)
      ensures r.Ok? ==>
        Now() == (
          var row := Revised(old(drafts)[f], f, textBytes, replacing, sendAt, now);
          if replacing.Some? then DraftWritten(old(Now()), f, row, replacing.value) else DraftSet(old(Now()), f, row))
      ensures r.Err? ==>
        Now() == (
          if Updatable(old(Now()), account, inbox, f, textBytes, replacing, acceptable) && replacing.Some?
          then LateRejected(old(Now()), f, replacing.value) else old(Now()))
      ensures old(Exact(Now())) ==>
        (Exact(Now()) <==>
          (r.Err? && Updatable(old(Now()), account, inbox, f, textBytes, replacing, acceptable) && replacing.Some? ==>
             Fits(replacing.value, old(drafts)[f].attachments)))
    {
      if !Holds(account, inbox) || !HasDraft(inbox, f) {
        return Err(NotFound);
      }
      var row := drafts[f];
      if row.status !in OPEN_STATUSES {
        return Err(Conflict);
      }
      if !ParentHeld(inbox, row.parent) {
        return Err(NotFound);
      }
      var checked;
      if replacing.Some? {
        checked := replacing.value;
      } else {
        checked := LoadAttachments(Keys(row.attachments));
      }
      if !acceptable || !Composable(textBytes, checked) {
        return Err(BadRequest);
      }
      UpdateLaws(Now(), f, Revised(row, f, textBytes, replacing, sendAt, now), replacing);
      r := ReviseDraft(f, Revised(row, f, textBytes, replacing, sendAt, now), replacing, Refused(sendAt, now));
    }

    /** The writes of an update that passed its checks; a send time is refused only after the attachments are put. */
    method ReviseDraft(f: Id, next: Draft, replacing: Option<seq<Bytes>>, refused: bool) returns (r: Result<(), Error>)
      requires f in drafts && f < nextId
      modifies this`drafts, this`bucket
      ensures r.Ok? <==> !refused
      ensures Now() ==
        if refused then (if replacing.Some? then LateRejected(old(Now()), f, replacing.value) else old(Now()))
        else if replacing.Some? then DraftWritten(old(Now()), f, next, replacing.value)
        else DraftSet(old(Now()), f, next)
    {
      var row := drafts[f];
      if replacing.Some? {
        PutDraftAttachments(f, replacing.value);
      }
      if refused {
        return Err(BadRequest);
      }
      WriteRevision(f, next, row, replacing.Some?);
      r := Ok(());
    }

    /** The draft row, then the objects it no longer lists. */
    method WriteRevision(f: Id, next: Draft, row: Draft, replaced: bool)
      modifies this`drafts, this`bucket
      ensures drafts == old(drafts)[f := next]
      ensures bucket == if replaced then old(bucket) - (BodyKeys(row.attachments) - BodyKeys(next.attachments))
                        else old(bucket)
    {
      drafts := drafts[f := next];
      if replaced {
        var stale := Listed(BodyKeys(row.attachments) - BodyKeys(next.attachments));
        DeleteObjects(stale);
      }
    }

    method DeleteDraft(account: Id, inbox: Id, f: Id) returns (r: Result<(), Error>)
      requires Valid()
      modifies this`drafts, this`bucket
      ensures Valid()
      ensures old(Exact(Now())) ==> Exact(Now())
      ensures r.Ok? <==> old(Holds(account, inbox)) && old(HasDraft(inbox, f)) && old(drafts)[f].status != Sending
      ensures Now() == if r.Ok?
        then DraftsDropped(old(Now()), old(drafts) - {f}, BodyKeys(old(drafts)[f].attachments)) else old(Now())
    {
      if !Holds(account, inbox) || !HasDraft(inbox, f) {
        return Err(NotFound);
      }
      var row := drafts[f];
      if row.status == Sending {
        return Err(Conflict);
      }
      DraftsDroppedKeeps(Now(), drafts - {f}, BodyKeys(row.attachments), {f});
      KeysListed(row.attachments);
      drafts := drafts - {f};
      DeleteObjects(Keys(row.attachments));
      r := Ok(());
    }

    /** The send or reply a draft stands for. */
    method Dispatch(account: Id, row: Draft, contents: seq<Bytes>, accepted: bool)
      returns (r: Result<Id, Error>, t: Id, ghost base: Id)
      requires Valid()
      modifies this
      ensures Valid()
      ensures old(Exact(Now())) ==> Exact(Now())
      ensures r.Err? ==> Now() == old(Now())
      ensures r.Ok? <==>
        && old(Holds(account, row.inbox)) && old(ParentHeld(row.inbox, row.parent))
        && Composable(row.textBytes, contents) && accepted
      ensures r.Ok? ==>
        && (if row.parent.Some? then t == old(messages)[row.parent.value].thread else t !in old(threads))
        && FreshMessage(old(Now()), r.value, Outbound(row.inbox, t, row.textBytes, contents), base)
        && Now() == WithMessage(
             old(Now()), r.value, Outbound(row.inbox, t, row.textBytes, contents), base, contents, map[])
    {
      if row.parent.Some? {
        r, t, base := Reply(account, row.inbox, row.parent.value, row.textBytes, contents, accepted);
      } else {
        r, t, base := Send(account, row.inbox, row.textBytes, contents, accepted);
      }
    }

    /** What a draft needs to be sent: its parent is still there and its size is within the limits. */
    predicate Sendable(f: Id)
      requires f in drafts
      reads this
    {
      && ParentHeld(drafts[f].inbox, drafts[f].parent)
      && Composable(drafts[f].textBytes, Loaded(bucket, Keys(drafts[f].attachments)))
    }

    /** Claims a draft, dispatches it and marks the outcome; a sent draft's own objects are dropped. */
    method Attempt(account: Id, f: Id, accepted: bool) returns (r: Result<Id, Error>, t: Id, ghost base: Id)
      requires Valid()
      requires f in drafts && drafts[f].status in OPEN_STATUSES && Holds(account, drafts[f].inbox)
      modifies this
      ensures Valid()
      ensures old(Exact(Now())) ==> Exact(Now())
      ensures r.Ok? <==> old(Sendable(f)) && accepted
      ensures r.Err? ==> Now() == DraftSet(old(Now()), f, old(drafts)[f].(status := Failed))
      ensures r.Ok? ==>
        && (if old(drafts)[f].parent.Some? then t == old(messages)[old(drafts)[f].parent.value].thread
            else t !in old(threads))
        && FreshMessage(old(Now()), r.value, SentRow(old(Now()), f, t), base)
        && Now() == DraftDelivered(old(Now()), f, r.value, t, base)
    {
      var row := drafts[f];
      ClaimKeeps(Now(), f);
      FailureKeeps(Now(), f);
      ClaimUndone(Now(), f);
      Claim(f);
      var contents := LoadAttachments(Keys(row.attachments));
      r, t, base := Dispatch(account, row, contents, accepted);
      if r.Err? {
        MarkFailed(f);
      } else {
        DraftDeliveredKeeps(old(Now()), f, r.value, t, base);
        ClaimedDelivery(old(Now()), f, r.value, t, base);
        MarkSent(f, row, r.value);
      }
    }

    method Claim(f: Id)
      requires f in drafts
      modifies this`drafts
      ensures Now() == Claimed(old(Now()), f)
    {
      drafts := drafts[f := drafts[f].(status := Sending)];
    }

    method MarkFailed(f: Id)
      requires f in drafts
      modifies this`drafts
      ensures Now() == DraftSet(old(Now()), f, old(drafts)[f].(status := Failed))
    {
      drafts := drafts[f := drafts[f].(status := Failed)];
    }

    method MarkSent(f: Id, row: Draft, m: Id)
      modifies this`drafts, this`bucket
      ensures Now() ==
        DraftsDropped(
          old(Now()), old(drafts)[f := row.(status := Sent, sentMessage := Some(m))], BodyKeys(row.attachments))
    {
      drafts := drafts[f := row.(status := Sent, sentMessage := Some(m))];
      KeysListed(row.attachments);
      DeleteObjects(Keys(row.attachments));
    }

    predicate Openable(account: Id, inbox: Id, f: Id)
      reads this
    {
      Holds(account, inbox) && HasDraft(inbox, f) && drafts[f].status in OPEN_STATUSES
    }

    method SendDraft(account: Id, inbox: Id, f: Id, accepted: bool)
      returns (r: Result<Id, Error>, t: Id, ghost base: Id)
      requires Valid()
      modifies this
      ensures Valid()
      ensures old(Exact(Now())) ==> Exact(Now())
      ensures r.Ok? <==> old(Openable(account, inbox, f)) && old(Sendable(f)) && accepted
      ensures r.Ok? ==>
        && FreshMessage(old(Now()), r.value, SentRow(old(Now()), f, t), base)
        && Now() == DraftDelivered(old(Now()), f, r.value, t, base)
      ensures r.Err? ==>
        Now() == (
          if old(Openable(account, inbox, f)) then DraftSet(old(Now()), f, old(drafts)[f].(status := Failed))
          else old(Now()))
    {
      t, base := 0, 0;
      if !Holds(account, inbox) || !HasDraft(inbox, f) {
        return Err(NotFound), t, base;
      }
      if drafts[f].status !in OPEN_STATUSES {
        return Err(Conflict), t, base;
      }
      r, t, base := Attempt(account, f, accepted);
    }

    /** The cron's attempt at a due draft: only a scheduled draft is claimed, on behalf of its inbox's owner. */
    method DrainOne(f: Id, accepted: bool) returns (outcome: Option<bool>, ghost m: Id, t: Id, ghost base: Id)
      requires Valid()
      modifies this
      ensures Valid()
      ensures old(Exact(Now())) ==> Exact(Now())
      ensures outcome.None? <==> !(f in old(drafts) && old(drafts)[f].status == Scheduled)
      ensures outcome.None? ==> Now() == old(Now())
      ensures outcome.Some? ==> outcome.value == (old(Sendable(f)) && accepted)
      ensures outcome == Some(true) ==>
        && FreshMessage(old(Now()), m, SentRow(old(Now()), f, t), base)
        && Now() == DraftDelivered(old(Now()), f, m, t, base)
      ensures outcome == Some(false) ==> Now() == DraftSet(old(Now()), f, old(drafts)[f].(status := Failed))
    {
      m, t, base := 0, 0, 0;
      if f !in drafts || drafts[f].status != Scheduled {
        return None, m, t, base;
      }
      var r;
      r, t, base := Attempt(inboxes[drafts[f].inbox], f, accepted);
      m := if r.Ok? then r.value else 0;
      outcome := Some(r.Ok?);
    }
  }
}
