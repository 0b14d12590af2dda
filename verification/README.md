# Intray verification model

A Dafny model of the mail service's most intricate parts, with proofs about it. D1 tables are maps of rows and each SQL
statement is one step; the R2 bucket is a map from keys to bytes; objects the source mutates are classes, what it
computes is functions, and what runs concurrently is a state machine whose theorems speak about every run.

`dafny verify dfyconfig.toml` checks the whole project.

## What is modelled

- **The store** (`Tables`, `LedgerLaws`, `DraftLaws`, `Mailbox`, `MailboxRuns`, `Drain`). Inboxes, threads, messages,
  attachments, drafts, the usage counter and the bucket, changed in place by the exported operations. Three derived quantities
  (bytes per account, messages per thread, the object keys) are kept by increments, recounts and precomputed releases;
  they are proved equal to what they summarise after every history. `Consistent` says the tables and counters agree and
  every object a row names is there; `Exact` says the bucket holds nothing else and
  every draft attachment has its recorded size.
- **Sending drafts** (`DraftProtocol`). Any number of API senders and cron drains, updates and deletes, interleaved.
  The update's check and its write are separate steps, as in the source, and the write carries no status guard. So the
  promised exclusion does not hold of every run; it is proved to hold exactly of the runs in which no late write lands
  on a row that forbids it by then, and from any state with an open draft a run is given in which one does.
- **Waiting for mail** (`Waiter`, `WaitProtocol`). The per-inbox waiter object, and the protocol of reading, waiting,
  reading against ingest, which stores and then notifies, and sends, which store rows of the same inbox and do not.
- **Reconcilers** (`Routing`, `RoutingLaws`, `RoutingRuns`, `RoutingSetup` for the Email Routing rules; `Dns` for the
  zone's records).
- **Lists** (`Pagination`, `PageTokens`, `MessageList`, `Like`). Keyset pages over fixed and changing tables,
  the WHERE clause the filters build, and LIKE patterns.
- **Wire formats** (`Crlf`, `Smtp`, `SmtpSession`, `SmtpDelivery`, `HeaderFold`, `HeaderWords`, `Multipart`,
  `MessageBody`, `Base64`, `Utf8`, `Extract`, `RawStream`). Each writer is the source's; each reader is written from the standard
  it names.
- **Code redemption** (`Oauth`).

`Common`, `DraftStatus` and `Totals` (in `Tables.dfy`) and `Text` hold what several of these share.

## Where the code and its promise differ

Each of these is proved, with the condition under which the promise does hold.

- An update of a draft puts its new attachments before its send time can be refused. A refused update
  overwrites the draft's attachments all the same, and leaves objects no row names, or of another size than recorded,
  unless the new ones fit the old (`DraftLaws.LateRejectionLeaks`).
- An update that checked before a claim and writes after it can have a draft delivered twice
  (`DraftProtocol.LateUpdateSendsTwice`, against `DraftProtocol.SafeExactlyWhenGuarded`); a draft can also be sent with
  a body its row no longer shows (`DraftProtocol.StaleBodySent`), exactly when the row had changed between the read and
  the claim (`DraftProtocol.SentBodyShown`).
- A notification wakes every waiter, so a caller can come back empty before its time
  (`WaitProtocol.EarlyEmptyAnswer`); it finds the message exactly when that is newer than asked
  (`WaitProtocol.NotifyEndsWait`). A caller that asks for a negative time may not wait at all
  (`WaitProtocol.NegativeSinceNeverWaits`, with the condition in `WaitProtocol.PassedCallerFinds`).
- A message sent from the inbox is newer mail to a waiting caller's query, but nobody is notified of it: docs/architecture.md
  says it is not what a wait is for, and yet the wait returns it when something else ends it. So a caller can stay
  blocked while a message it would find is stored (`WaitProtocol.SentNotSignalled`); a wakeup is to come exactly for
  the messages ingest stored (`WaitProtocol.NoLostWakeup`).
- An inbox whose own rules are all disabled loses delivery when the catch-all is switched off
  (`RoutingRuns.StrandedLosesMail`, with the condition in `RoutingRuns.ReachedThroughout`).
- A folded segment that starts with a space and an over-long word becomes an empty line (`HeaderFold.FoldRoundTrip`);
  folded lines can be 79 long, not 78 (`HeaderFold.LongSubjectOverflows`, with the condition in `HeaderFold.LinesFit`).
- ASCII header text with a word the reader decodes is not protected (`HeaderWords.MisreadSubject`, with the condition in
  `HeaderWords.HeaderTextRoundTrip`).
- A message the SMTP server accepted is reported as failed when the server closes without answering QUIT
  (`SmtpDelivery.ReturnedExactly`).
- A list in which two DNS records replace one another is not written in full on every zone
  (`Dns.ConvergesExactly`), and deleting a domain does not bring back what onboarding replaced (`Dns.ReplacedIsLost`,
  `Dns.OnboardThenDelete`).

## Hypotheses

Identifiers and code hashes are fresh. Each exported store operation runs without faults and without another operation
in between; the draft protocol, the waiter and the code exchange are the parts modelled with interleaving. Routing
starts from distinct, normalised inbox addresses and distinct rule ids. Digests, acceptance by the transport and the
checks on content and names are parameters. What a reader makes of words in other charsets is a parameter too, and
shorter than the word. Texts are well-formed Unicode. Boundary marks are distinct, of equal length and without line ends, and
the headers of attachments are single non-empty lines whose type is not itself multipart.

## Model

| member | source | states |
|---|---|---|
| MailboxRuns.Replay | src/core/usage.ts:27-88 | after any sequence of calls from an empty store every storage counter, thread count and row link agrees with the rows and every object a row names is in the bucket; and over the states of the history the bucket held nothing else all along if and only if no call was, where it was made, an update refused for its send time after putting attachments that do not fit |
| MailboxRuns.Perform | src/core/drafts.ts:364-423 | one call of any kind leads to one of the states its kind allows and keeps all of that; the bucket stops being exact exactly when the call is an update refused for its send time after it had put attachments that do not fit the ones the draft had, more of them or of other sizes |
| MailboxRuns.LeakFromEmpty | src/core/drafts.ts:403-409 | three calls from an empty store after which the bucket is not exact: an inbox, a draft, and an update for a time already past |
| MailStore.Mailbox.constructor | src/db/inboxes.ts:19-45 | an empty store is consistent and exact |
| MailStore.Mailbox.Ingest | src/email/inbound.ts:138-269 | a received message is refused exactly for its size, an unknown recipient, the month's count or the storage quota, or by the spam and attachment screen, changing nothing; otherwise the tables become the old ones with that message, its attachments, its objects and its bytes, in the given thread or a new one |
| MailStore.Mailbox.StoreInbound | src/email/inbound.ts:180-265 | the store steps of ingest, in their order, add exactly one message with its rows, objects and bytes |
| MailStore.Mailbox.PersistOutbound | src/core/messages.ts:514-601 | storing an accepted outgoing message adds exactly that message, its attachments, objects and bytes, and joins or opens its thread |
| MailStore.Mailbox.Send | src/core/messages.ts:603-628 | exactly when the checks pass and the transport accepts, the message is stored in a new thread; otherwise nothing changes |
| MailStore.Mailbox.Reply | src/core/messages.ts:630-650 | a reply is stored in its parent's thread, under the same exact condition |
| MailStore.Mailbox.Forward | src/core/messages.ts:652-672 | a forward carries the parent's attachments, read from the bucket, into a new thread |
| MailStore.Mailbox.DeleteMessage | src/core/messages.ts:395-421 | deleting a message gives the tables and bucket without it: bytes released, thread recounted or dropped, its objects gone |
| MailStore.Mailbox.BatchDelete | src/core/messages.ts:445-459 | a batch delete happens for all listed messages or not at all, and then equals deleting them from every table at once |
| MailStore.Mailbox.DeleteThread | src/core/threads.ts:129-144 | deleting a thread equals deleting its messages |
| MailStore.Mailbox.DeleteInbox | src/core/inboxes.ts:147-164 | deleting an inbox removes its threads, messages, drafts and all their objects and releases its bytes, and nothing else |
| MailStore.Mailbox.CreateInbox | src/core/inboxes.ts:70-102 | an inbox is created exactly when its domain and user name are accepted, the account has room, its name is free and the zone took a rule for it |
| MailStore.Mailbox.CreateDraft | src/core/drafts.ts:292-327 | a draft is written with its attachments exactly when every check passes; a refused one leaves no trace |
| MailStore.Mailbox.UpdateDraft | src/core/drafts.ts:364-423 | the new row and objects of an update; what a refused update leaves behind; and the exact condition under which the bucket stays exact |
| MailStore.Mailbox.DeleteDraft | src/core/drafts.ts:425-442 | a draft that is not being sent goes with its objects |
| MailStore.Mailbox.SendDraft | src/core/drafts.ts:487-510 | a draft is sent exactly when it is open, its checks pass and the transport accepts; then it is marked with the new message and its objects move to it, and a failed attempt leaves it failed with its objects |
| MailStore.Mailbox.DrainOne | src/core/drafts.ts:524-540 | the drain does the same for a scheduled draft and nothing for any other |
| MailStore.Mailbox.Attempt | src/core/drafts.ts:448-478 | claim, dispatch and mark as one: the stored result equals delivering without the claim in between |
| MailStore.Mailbox.ApplyUsage | src/db/usage.ts:15-37 | the upsert adds a delta to the stored counter and floors it at zero |
| MailStore.Mailbox.RecordStorageDelta | src/core/usage.ts:65-88 | a zero delta writes nothing, any other is applied |
| MailStore.Mailbox.StorageFor | src/db/usage.ts:62-101 | the sum over a selection is its message sizes plus its attachment sizes |
| MailStore.Mailbox.DeleteObjects | src/core/objects.ts:11-15 | deleting in chunks removes exactly the listed keys |
| MailStore.Mailbox.TouchThread | src/db/threads.ts:73-96 | a new message adds one to its thread's count |
| MailStore.Mailbox.RecountThread | src/db/threads.ts:153-162 | the count becomes the number of messages that point at the thread |
| MailStore.Mailbox.DropThread | src/db/threads.ts:117-151 | a thread goes with its messages and their attachments, only from its own inbox, and the keys it returns are theirs |
| MailStore.Mailbox.DeleteRows | src/db/messages.ts:327-350 | the keys returned are those of the raw message and the attachments deleted |
| MailStore.Mailbox.SettleThreads | src/db/messages.ts:352-423 | emptied threads of the inbox are dropped and the surviving ones recounted |
| MailStore.Mailbox.RemoveInbox | src/db/inboxes.ts:112-159 | the cascade over the tables, with every key it has to return |
| MailStore.ChunksCover | src/core/objects.ts:5-9 | the chunks hold at most 1000 keys each and together are the whole list in order |
| LedgerLaws.WithMessageKeeps | src/db/messages.ts:76-141 | adding a message by increment keeps every counter equal to what it summarises and the bucket exact |
| LedgerLaws.WithoutMessagesKeeps | src/db/messages.ts:327-423 | removing messages by recount and release keeps them so |
| LedgerLaws.FloorNeverBites | src/db/usage.ts:15-37 | on consistent tables the floor at zero never changes a released counter |
| LedgerLaws.BatchSettled | src/db/messages.ts:352-423 | a touched thread is emptied by a batch exactly when no message outside the batch points at it |
| LedgerLaws.RefreshSuffices | src/core/messages.ts:411-420 | recounting only the touched threads equals recounting all of them |
| LedgerLaws.InboxRemovalKeeps | src/db/inboxes.ts:112-159 | the inbox cascade keeps every counter, count and link, and the bucket exact |
| LedgerLaws.InboxRemovalSteps | src/db/inboxes.ts:112-159 | the cascade equals deleting the inbox's messages, then its drafts, then its row |
| Tables.ReleaseBounded | src/db/usage.ts:62-101 | the bytes of a selection never exceed the bytes of what contains it: the rest is exactly the difference |
| DraftLaws.LateRejectionLeaks | src/core/drafts.ts:403-409 | an update refused for its send time after putting attachments leaves the bucket exact if and only if it put no more than the draft had, each of the size it replaced |
| DraftLaws.LateRejectionExample | src/core/drafts.ts:403-409 | a concrete draft and update that leave an object no row names |
| DraftLaws.DraftLoaded | src/core/drafts.ts:197-214 | the contents loaded for an unsent draft are those of its attachments, in order |
| DraftLaws.MessageLoaded | src/core/messages.ts:652-672 | the contents a forward carries are those of all the parent's attachment rows, each once, in row order and of the recorded sizes |
| DraftLaws.DraftDeliveredCopies | src/core/drafts.ts:448-478 | after a send each attachment lies under the message's key with the same bytes and no longer under the draft's |
| DraftLaws.DraftDeliveredKeeps | src/core/drafts.ts:487-510 | sending a draft keeps the tables consistent and the bucket exact |
| Drain.DrainDueDrafts | src/core/drafts.ts:542-555 | each draft the query lists is attempted once and ends sent or failed, the counts are those, and no other draft changes |
| Drain.DrainStep | src/core/drafts.ts:524-540 | a drain changes the draft it is for and no other |
| DraftProtocol.SafeExactlyWhenGuarded | src/db/drafts.ts:127-172 | over every interleaving of senders, drains, updates, deletes and inbox deletions: mutual exclusion and finality of sent hold throughout a run if and only if no update writes to a row that has meanwhile been claimed or sent, and no delete or inbox deletion takes a row that is being sent |
| DraftProtocol.GuardedKeeps | src/db/drafts.ts:158-201 | each guarded step keeps "sending exactly when one worker is between claim and mark" and leaves sent rows alone |
| DraftProtocol.UnguardedBreaks | src/db/drafts.ts:127-144 | any single write outside the guard breaks it at once |
| DraftProtocol.DeliveredOnce | src/core/drafts.ts:487-540 | along a guarded run no draft is handed to the transport successfully twice |
| DraftProtocol.GuardedRunsFromStart | src/core/drafts.ts:487-540 | from the empty state: a sent draft was delivered exactly once, an open one never |
| DraftProtocol.LateUpdateSendsTwice | src/core/drafts.ts:373-421 | without the guard any open draft can be delivered twice: an update that checked before a claim and writes after the send reopens it |
| DraftProtocol.StaleBodySent | src/core/drafts.ts:487-510 | a guarded run in which a draft is sent with the body read before an update that landed before the claim |
| DraftProtocol.SentBodyShown | src/db/drafts.ts:158-188 | over any guarded run a sent draft went out once, after one claim of the run, and with the body its row shows (attachment objects aside) if and only if at that claim the row still held the body the sender had loaded |
| Waiter.InboxWaiter.Notify | src/waiter.ts:18-28 | every blocked wait is answered true once with its timer cleared, and the mark rises |
| Waiter.InboxWaiter.WakeAll | src/waiter.ts:20-27 | the loop over the copied waiters answers each of them and touches no other |
| Waiter.InboxWaiter.Wait | src/waiter.ts:30-45 | a wait behind the mark is answered at once, any other blocks with an armed timer |
| Waiter.InboxWaiter.Fire | src/waiter.ts:37-40 | the timer answers its wait false and takes it out of the set |
| Waiter.NotifiedKeeps | src/waiter.ts:18-28 | waits are blocked with a timer or answered without one, never both, and none is behind the mark |
| Waiter.WaitedKeeps | src/waiter.ts:30-45 | a new wait keeps that |
| Waiter.FiredKeeps | src/waiter.ts:37-40 | so does a timer |
| WaitProtocol.NoLostWakeup | src/core/messages.ts:316-341 | in every reachable state, of the stored messages newer than a blocked caller asked for exactly those ingest stored still have their notification to come; those sent from the inbox have none |
| WaitProtocol.OnlySignalsEndWait | src/waiter.ts:18-45 | in any stretch of a run without a notification and without the wait's own timer the wait stays blocked, whatever is stored meanwhile |
| WaitProtocol.SentNotSignalled | src/core/messages.ts:514-601 | a run in which a message sent from the inbox, newer than the caller asked for, leaves it blocked with no notification to come, and only the timer lets it find the message |
| WaitProtocol.NotifiedNeverBlocks | src/email/inbound.ts:192-257 | once a notification has run no caller that asked for that message is blocked again, whatever happens later |
| WaitProtocol.AnsweredOnce | src/waiter.ts:10-46 | an answer given to a wait never changes and its timer stays disarmed |
| WaitProtocol.PassedCallerFinds | src/core/messages.ts:316-341 | when nothing is deleted, a caller the mark has passed returns empty exactly when it asked for a negative time, the mark is still where it started and nothing newer is stored |
| WaitProtocol.NotifyEndsWait | src/waiter.ts:18-28 | a notification ends every wait, with rows sent from the inbox among the stored ones; the caller comes back empty exactly when nothing stored is newer than asked, and with the message exactly when that is newer and not cut off by a full batch |
| WaitProtocol.EarlyEmptyAnswer | src/core/messages.ts:332-340 | a run in which a message stamped before the caller asked, but stored after, makes it return empty before its time |
| WaitProtocol.NegativeSinceNeverWaits | src/waiter.ts:30-33 | a run in which a caller that asks for a negative time is not made to wait at all |
| RoutingSetup.Setup.RunRoutingRules | scripts/lib/steps/routing.ts:156-203 | a run performs the planned calls, passes through exactly the states between, ends in the reconciled state, and is skipped exactly when the zone is reconciled and the catch-all off |
| RoutingSetup.Setup.CarryOut | scripts/lib/steps/routing.ts:188-201 | creations, one id write, deletions and the switch happen in this order |
| RoutingSetup.Setup.CreateRules | scripts/lib/steps/routing.ts:71-95 | one creation for each address, remembering the ids given |
| RoutingSetup.Setup.WriteRuleIds | scripts/lib/steps/routing.ts:60-69 | the updates are applied entry by entry as one batch |
| RoutingSetup.Setup.RemoveRules | scripts/lib/steps/routing.ts:97-101 | one deletion for each rule planned |
| Routing.ReadsEveryRule | scripts/lib/steps/routing.ts:31-41 | reading page by page until a short page returns the whole list |
| RoutingRuns.StoppedRunResumes | scripts/lib/steps/routing.ts:156-203 | a run stopped after any call and started again ends where an uninterrupted run does |
| RoutingRuns.ReconciledRunIsEmpty | scripts/lib/routing.ts:70-87 | the plan after a run is empty and the next run does nothing |
| RoutingRuns.ReachedThroughout | scripts/lib/steps/routing.ts:156-203 | an inbox that is reached stays reached after every call if and only if it is not one the catch-all alone serves while its own rules are disabled |
| RoutingRuns.StrandedLosesMail | scripts/lib/steps/routing.ts:193-201 | a world in which a run takes an inbox's mail away |
| RoutingRuns.OthersUntouched | scripts/lib/routing.ts:43-83 | after every call each rule is still there unless it is the worker's own and has no inbox |
| RoutingRuns.RunReaches | scripts/lib/steps/routing.ts:188-201 | after any number of calls the same final state lies ahead |
| RoutingRuns.RunFinishes | scripts/lib/steps/routing.ts:156-203 | a whole run ends in the reconciled state, which is a fixed point |
| RoutingRuns.IdsWrittenRight | scripts/lib/steps/routing.ts:188-189 | the one id write records for every inbox the rule its address has in the end, created or adopted |
| RoutingRuns.DirectFinal | scripts/lib/routing.ts:70-83 | in the end an inbox has an enabled rule exactly when it had one or had no rule at all |
| PageTokens.TokenRoundTrip | src/lib/pagination.ts:21-47 | a page token leads back to its cursor exactly when the id in it is not empty |
| Pagination.WalkIsSortedTable | src/lib/pagination.ts:79-89 | following tokens to the end lists the whole matching table, newest first |
| Pagination.StayingRowListedOnce | src/db/messages.ts:208-224 | whatever is inserted or deleted between requests, and whatever limit each of them asks for, a row there throughout is listed exactly once |
| Pagination.VisitDescends | src/db/messages.ts:208-224 | nothing is listed twice: each page starts strictly below the last row of the one before |
| Pagination.ListedWasThere | src/db/messages.ts:208-224 | every row listed was in the table when its page was read |
| Pagination.PageIsInterval | src/lib/pagination.ts:79-89 | a page is exactly the matching rows between two cursors, and has a token only when it is full and more follows |
| Pagination.NextIsLower | src/lib/pagination.ts:79-89 | the rows left shrink with every token, so the walk ends |
| Pagination.SortedUnique | src/db/messages.ts:216-222 | the order by time and id descending determines the listing |
| Pagination.ClampLimit | src/lib/pagination.ts:70-77 | the limit is the default of 25 without a number of at least 1, the whole part of what was asked up to 100, and 100 beyond |
| MessageList.Conditions | src/db/messages.ts:168-213 | for any filters, capitals included, the conditions pushed for them and the cursor together select exactly the rows the filters mean below the cursor |
| MessageList.SelectIsQuery | src/db/messages.ts:208-224 | what the assembled statement returns is one page's query over the wanted rows |
| MessageList.LabelCountMeansAll | src/db/messages.ts:177-184 | the count of matching labels equals the length of the list exactly when all are found and none is repeated |
| MessageList.NormalizeFilterLabels | src/core/messages.ts:158-171 | labels are trimmed, empty ones dropped, and each kept where it first occurs |
| MessageList.FirstOccurrencesKept | src/core/messages.ts:158-171 | what is kept is distinct, is everything that is not empty, and is in the order of first occurrence |
| Like.PatternFindsSubstrings | src/db/messages.ts:71-74 | under LIKE with its escape the lower-cased pattern matches exactly the texts that contain the value, but for case, whatever special characters either has |
| Like.LoweredPatternFinds | src/db/messages.ts:185-196 | against a lowered column any value is found exactly where it occurs but for case |
| HeaderFold.FoldRoundTrip | src/email/transports/mime.ts:90-108 | unfolding a folded header gives the unfolded input if and only if no segment after the first starts with a space and a word too long to share a line with it |
| HeaderFold.LinesFit | src/email/transports/mime.ts:90-108 | every physical line is at most 79 units long or one word; and all are at most 78 long or one word if and only if, when each segment is cut into longest runs of words that fit 78, no run of two or more words but the first has exactly 78 units |
| HeaderFold.FoldsLongestRuns | src/email/transports/mime.ts:90-108 | the lines of a segment are its longest runs of words, so there is one way to cut it into them |
| HeaderFold.LongSubjectOverflows | src/email/transports/mime.ts:90-108 | a subject that goes out with a line of 79 units and two words |
| HeaderFold.MisfoldedSegment | src/email/transports/mime.ts:90-108 | such a segment turns into an empty line |
| HeaderFold.MisfoldExample | src/email/transports/mime.ts:90-108 | a concrete header that does not unfold to its input |
| HeaderFold.UnfoldFoldedLength | src/email/transports/mime.ts:106-108 | each misfolding segment leaves exactly one line end too many |
| HeaderWords.HeaderTextRoundTrip | src/email/transports/mime.ts:69-74 | a reader of encoded words, in both encodings and whatever other charsets it knows, gets the text back if and only if it is not ASCII text with a word that reader decodes |
| HeaderWords.FieldRoundTrip | src/email/transports/mime.ts:55-108 | the same through encoding, folding, unfolding and reading |
| HeaderWords.MisreadSubject | src/email/transports/mime.ts:69-74 | an ASCII subject of thirteen characters that every such reader shows as one letter |
| HeaderWords.EncodedWordsFit | src/email/transports/mime.ts:55-67 | encoded words hold whole characters, join to the text, and are at most 52 long |
| HeaderWords.DecodedShorter | src/email/transports/mime.ts:55-57 | a decoded word is always shorter than its encoded form |
| Multipart.MultipartRoundTrip | src/email/transports/mime.ts:157-171 | splitting a rendered body at its boundary gives exactly the rendered parts if and only if no line of any part begins like a delimiter |
| Multipart.PartRoundTrip | src/email/transports/mime.ts:157-159 | a rendered part splits back into its headers and body |
| Multipart.BodyIsJoined | src/email/transports/mime.ts:161-171 | the joined list of delimiters and parts is the body told from its first delimiter on |
| MessageBody.BodyReadsBack | src/email/transports/mime.ts:173-184 | a reader of the whole, possibly nested, body finds every text and attachment in order, byte for byte |
| MessageBody.AlternativeReads | src/email/transports/mime.ts:173-180 | one text stands alone, none or two are an alternative, and either reads back |
| MessageBody.NestedClean | src/email/transports/mime.ts:161-171 | no line of an inner multipart begins like the outer delimiter |
| MessageBody.LeafClean | src/email/transports/mime.ts:130-155 | no line of a base64 part does either |
| Smtp.MailRoundTrip | src/email/transports/smtp.ts:158-162 | for any text and anything after it, a receiver finds the end where it was put and takes back the text and one CRLF |
| Smtp.StuffsByLine | src/email/transports/smtp.ts:158-162 | dots are doubled at the start of lines and nowhere else |
| Smtp.ReplyRoundTrip | src/email/transports/smtp.ts:71-82 | a multi-line reply written by its rules reads back whole, whatever follows it |
| SmtpSession.SmtpSession.ReadLine | src/email/transports/smtp.ts:56-69 | a line is the text before the first CRLF of buffer and unread chunks together; the rest stays |
| SmtpSession.SmtpSession.Collect | src/email/transports/smtp.ts:71-78 | lines are gathered until one that is not continued |
| SmtpSession.SmtpSession.Read | src/email/transports/smtp.ts:80-82 | the reply depends on the joined stream only, not on how the chunks cut it |
| SmtpSession.SmtpSession.Upgrade | src/email/transports/smtp.ts:93-100 | nothing received before TLS is read after it |
| SmtpSession.ReadAll | src/email/transports/smtp.ts:71-82 | a conversation of many replies in any chunks reads back as those replies |
| SmtpDelivery.Deliver | src/email/transports/smtp.ts:227-244 | what is written, when the server has accepted the message and when the call returns |
| SmtpDelivery.StartSession | src/email/transports/smtp.ts:172-187 | greeting, EHLO and, after STARTTLS, EHLO again on the secured stream |
| SmtpDelivery.TextOnlyAfterEveryRecipient | src/email/transports/smtp.ts:189-225 | the text goes out only after the sender and every recipient were not refused and DATA was answered 354 |
| SmtpDelivery.ReturnedExactly | src/email/transports/smtp.ts:227-244 | an accepted message is reported as sent exactly when the server goes on to answer QUIT |
| SmtpDelivery.AcceptedThenClosed | src/email/transports/smtp.ts:227-244 | a server that takes the message and closes makes it a failed one |
| SmtpDelivery.AcceptedReportedFailed | src/email/transports/smtp.ts:227-244 | for every message there is a server that accepts it and has it reported as failed |
| SmtpDelivery.TalkInOrder | src/email/transports/smtp.ts:189-225 | commands go out in order, each only after every reply before it was what was needed |
| SmtpDelivery.TalkJoins | src/email/transports/smtp.ts:227-244 | two scripts one after the other are one script |
| Base64.RoundTrip | src/lib/hash.ts:1-8 | decoding undoes encoding for all byte strings |
| Base64.UrlRoundTrip | src/lib/hash.ts:10-18 | the URL-safe decoder with its computed padding undoes the URL-safe encoder |
| Base64.UrlDecodesPlain | src/lib/hash.ts:14-18 | it also takes the plain encoding, padding and all |
| Base64.LinesRoundTrip | src/email/transports/mime.ts:110-116 | the text wrapped at 76 columns decodes to the bytes |
| Utf8.TruncationExact | src/email/extract.ts:109-115 | taken alone, the function returns the longest prefix of whole characters that fits, except exactly when a text with a byte order mark is cut after it |
| Extract.ExtractedIsLongestPrefix | src/email/extract.ts:92-131 | what is stored of an extracted text is the longest prefix of its normal form that fits the limit, for every text |
| Extract.NormalizedPlain | src/email/extract.ts:92-99 | normalised text has no white space but spaces and line ends, and none at its ends |
| Extract.UnmarkedCut | src/email/extract.ts:109-115 | a text without a byte order mark is cut to its longest fitting prefix, whatever the limit |
| Utf8.TruncatesToLongestPrefix | src/email/extract.ts:109-115 | what the result is in every case |
| Utf8.BoundaryFound | src/email/extract.ts:101-107 | one of the four probes is a boundary, fewer than four bytes back, and it is the last one within the limit |
| Utf8.FittingIsMost | src/email/extract.ts:109-115 | that many characters fit the limit and one more would not |
| Utf8.RoundTrip | src/email/extract.ts:109-115 | decoding undoes encoding for all well-formed text |
| RawStream.ReadRaw | src/email/inbound.ts:289-295 | the buffer returned is the stream cut at the announced size, or all of it |
| RawStream.FillBuffer | src/email/inbound.ts:271-287 | chunks are copied in at a moving offset, cut to the room left, and bytes beyond are untouched |
| RawStream.TakenIsPrefix | src/email/inbound.ts:271-287 | copying chunk by chunk equals cutting the whole stream |
| Dns.ConvergesExactly | src/core/domains.ts:104-138 | writing a list leaves all of it in every zone if and only if no two of its records clash |
| Dns.SecondPassIdle | src/core/domains.ts:104-138 | a second pass changes nothing |
| Dns.PassWritesNothing | src/core/domains.ts:104-119 | a pass over a zone that holds the list writes nothing |
| Dns.ReplacesOnlyItsKind | src/core/domains.ts:92-119 | a write replaces only another CNAME of the name, or a TXT record that is, as the wanted one is, an SPF or a DMARC policy |
| Dns.OthersUntouched | src/core/domains.ts:92-119 | entries keep their place and id, and one that no wanted record clashes with is unchanged |
| Dns.ClashLoses | src/core/domains.ts:92-138 | on an empty zone a list with a clash never gets everything in |
| Dns.OnboardThenDelete | src/core/domains.ts:274-298 | for any zone and any list, clashing or repeating records included, onboarding and then deleting a domain restores the zone if and only if nothing in it was wanted or in the way |
| Dns.ReplacedIsLost | src/core/domains.ts:104-119 | a zone whose CNAME onboarding replaces and deleting the domain does not bring back |
| Dns.DedupeRecords | src/core/domains.ts:80-90 | of the records with one key the first is kept, in its place, and no other; every key stays |
| Dns.ZoneClient.WriteRecord | src/core/domains.ts:104-119 | a record already there costs no write; otherwise the first one in its way is replaced in place or it is created |
| Dns.ZoneClient.WriteRecords | src/core/domains.ts:133-136 | the loop over the records, and its silence when all are there |
| Dns.ZoneClient.DeleteRecords | src/core/domains.ts:284-290 | the first match of each record goes |
| Oauth.CodeMintsOnce | src/core/oauth.ts:468-510 | over any interleaving of exchanges, issues and sweeps a code mints at most one key |
| Oauth.MintMatchesIssue | src/core/oauth.ts:468-510 | every key is for the account, client, redirect URI and challenge the code was issued with, and was asked for before it expired |
| Oauth.TakenStays | src/db/oauth.ts:177-195 | once an exchange holds a code nobody can claim it again, swept or not |
| Oauth.LoneExchangeMints | src/core/oauth.ts:468-510 | an exchange for a good code that nobody disturbs gets its key |
| Oauth.CodeTable.ExchangeToken | src/core/oauth.ts:468-510 | an undisturbed exchange succeeds exactly when the stored, unused code grants the request, and spends it |
| Oauth.CodeTable.ClaimOauthCode | src/db/oauth.ts:177-187 | the update changes a row exactly when the code is there and unused |
| Oauth.CodeTable.DeleteExpiredOauthCodes | src/db/oauth.ts:189-195 | exactly the codes that expired before the given time go |
| Oauth.CodeTable.InsertOauthCode | src/db/oauth.ts:137-168 | a fresh code is stored unused |

## Left out

- Monthly counters, spam scoring, attachment types, name checks, the send quota, rate limits and suppression lists: independent checks before the store steps; their outcome is a parameter where a call depends on it.
- Columns no counter depends on: addresses, subjects, previews, labels, participants and `last_message_at`, which is not the maximum over the remaining messages after a delete.
- That storage never exceeds its quota: admission counts the raw message only, and the attachments are added too, so the code does not keep it.
- Merging a draft's fields and the kinds of draft: the size of the text and the attachments are what the store keeps.
- Object keys as text: they are distinct constructors, so that different owners cannot share a key is part of the model.
- Faults between two statements, retries, a notification that fails, eviction of the waiter object and its fallback to polling.
- SentBodyShown: speaks of the body in the draft's row alone. An update puts its attachment objects, under keys the draft reuses, in a step of its own between its check and its write (src/core/drafts.ts:403-405), and a dispatch reads them after the claim (src/core/drafts.ts:454); so in a guarded run the attachments sent can be those of an update that is never written.
- Labels, search ranking and offset pages; offset pages are not stable under inserts.
- JSON: an inverse pair on cursors; label arrays and draft bodies are values.
- Time zones, dates, identifiers and random marks.
- Case folding beyond ASCII in filters, DNS contents and rule addresses.
- Lone surrogates, which the encoder replaces.
- Quoting of names and percent-encoding of file names: parameters arrive as text.
- The errors an SMTP refusal is mapped to; a refusal is one outcome. Decoding the bytes of a reply to text is not modelled.
- Zones whose record listing spans several pages.
- Sessions, one-time passwords and client registration before a code is issued, and the client lookup after the claim.
- The audit log, webhooks, bounce and DMARC reports, and reading PDF and Word documents.
- BodyReadsBack: attachments whose declared type is itself multipart are not covered, because a reader takes those for nested bodies.
- Leaves: reads nested parts up to a given depth; bodies of this program nest twice.
- RunRoutingRules: a creation that returns no id, and a declined confirmation, stop a run before its next call; that is a stopped run.
