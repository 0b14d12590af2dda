/** Listing messages: the conditions the filters add up to, and the rows they select. */
module MessageList {
  import opened Common
  import opened Pagination
  import opened Text
  import Like

  datatype Message = Message(inbox: string, labels: set<string>, from: string, to: string, subject: Option<string>,
                             spamScore: int)

  /** Filter texts and labels are as the request gave them. */
  datatype Filters = Filters(labels: seq<string>, from: Option<string>, to: Option<string>, subject: Option<string>,
                             since: Option<int>, before: Option<int>, maxSpamScore: Option<int>)

  datatype Column = From | To | Subject

  datatype Condition =
    | InInbox(inbox: string)
    | AllLabels(labels: seq<string>)
    | ColumnLike(column: Column, pattern: string)
    | NotBefore(at: int)
    | NotAfter(at: int)
    | SpamAtMost(score: int)
    | BelowCursor(cursor: Cursor)

  function ColumnText(m: Message, column: Column): Option<string> {
    match column
    case From => Some(m.from)
    case To => Some(m.to)
    case Subject => m.subject
  }

  /** One condition on one row; a missing column matches nothing. */
  predicate Holds(condition: Condition, r: Row<Message>) {
    match condition
    case InInbox(inbox) => r.body.inbox == inbox
    case AllLabels(labels) => |r.body.labels * Elements(labels)| == |labels|
    case ColumnLike(column, pattern) =>
      var text := ColumnText(r.body, column);
      text.Some? && Like.Matches(pattern, Lower(text.value))
    case NotBefore(at) => r.key.at >= at
    case NotAfter(at) => r.key.at <= at
    case SpamAtMost(score) => r.body.spamScore <= score
    case BelowCursor(cursor) => r.key.at < cursor.at || (r.key.at == cursor.at && TextLess(r.key.id, cursor.id))
  }

  predicate AllHold(conditions: seq<Condition>, r: Row<Message>) {
    forall i :: 0 <= i < |conditions| ==> Holds(conditions[i], r)
  }

  ghost predicate Distinct<T>(s: seq<T>) {
    forall i, j :: 0 <= i < j < |s| ==> s[i] != s[j]
  }

  // ---------------------------------------------------------------- what the filters mean

  predicate Given(text: Option<string>) {
    text.Some? && text.value != ""
  }

  /** The column holds the text asked for, in whatever case. */
  ghost predicate TextFound(m: Message, column: Column, wanted: Option<string>) {
    Given(wanted) ==>
      ColumnText(m, column).Some? && Contains(Lower(ColumnText(m, column).value), Lower(wanted.value))
  }

  /** The row carries every label asked for; a label asked for twice is never found. */
  ghost predicate LabelsFound(m: Message, labels: seq<string>) {
    Distinct(labels) && forall i :: 0 <= i < |labels| ==> labels[i] in m.labels
  }

  ghost predicate Wanted(r: Row<Message>, inbox: string, f: Filters) {
    && r.body.inbox == inbox && LabelsFound(r.body, f.labels)
    && TextFound(r.body, From, f.from) && TextFound(r.body, To, f.to) && TextFound(r.body, Subject, f.subject)
    && (f.since.Some? ==> f.since.value <= r.key.at) && (f.before.Some? ==> r.key.at <= f.before.value)
    && (f.maxSpamScore.Some? ==> r.body.spamScore <= f.maxSpamScore.value)
  }

  // ---------------------------------------------------------------- counting labels

  lemma {:induction false} DistinctCounts<T>(s: seq<T>)
    ensures |Elements(s)| <= |s|
    ensures |Elements(s)| == |s| <==> Distinct(s)
  {
    if s != [] {
      var front, last := s[..|s| - 1], s[|s| - 1];
      DistinctCounts(front);
      assert Elements(s) == Elements(front) + {last};
      if last !in front {
        assert Distinct(front) ==> Distinct(s);
      } else {
        assert Elements(s) == Elements(front);
        var i :| 0 <= i < |front| && front[i] == last;
        assert s[i] == s[|s| - 1];
      }
    }
  }

  lemma SubsetCounts<T>(a: set<T>, b: set<T>)
    ensures |a * b| <= |b|
    ensures |a * b| == |b| <==> b <= a
  {
    assert b == (a * b) + (b - a);
    if b <= a {
      assert a * b == b;
    }
  }

  /** The count of matching labels equals the length of the list exactly when all are found and none is repeated. */
  lemma LabelCountMeansAll(m: Message, labels: seq<string>)
    ensures |m.labels * Elements(labels)| == |labels| <==> LabelsFound(m, labels)
  {
    DistinctCounts(labels);
    SubsetCounts(m.labels, Elements(labels));
    assert Elements(labels) <= m.labels <==> forall i :: 0 <= i < |labels| ==> labels[i] in m.labels;
  }

  // ---------------------------------------------------------------- building the query

  lemma AppendHolds(conditions: seq<Condition>, c: Condition, r: Row<Message>)
    ensures AllHold(conditions + [c], r) <==> AllHold(conditions, r) && Holds(c, r)
  {
    var all := conditions + [c];
    if AllHold(all, r) {
      forall i | 0 <= i < |conditions|
        ensures Holds(conditions[i], r)
      {
        assert all[i] == conditions[i];
      }
      assert all[|conditions|] == c;
    }
  }

  lemma LikeMeansFound(r: Row<Message>, column: Column, wanted: string)
    requires wanted != ""
    ensures Holds(ColumnLike(column, Like.LikePattern(wanted)), r) <==> TextFound(r.body, column, Some(wanted))
  {
    var text := ColumnText(r.body, column);
    if text.Some? {
      Like.LoweredPatternFinds(wanted, text.value);
    }
  }

  /** Adds one condition to the list, with what the list now means. */
  method Push(conditions: seq<Condition>, c: Condition) returns (more: seq<Condition>)
    ensures more == conditions + [c]
    ensures forall r :: AllHold(more, r) <==> AllHold(conditions, r) && Holds(c, r)
  {
    more := conditions + [c];
    forall r
      ensures AllHold(more, r) <==> AllHold(conditions, r) && Holds(c, r)
    {
      AppendHolds(conditions, c, r);
    }
  }

  method PushText(conditions: seq<Condition>, column: Column, wanted: Option<string>) returns (more: seq<Condition>)
    ensures forall r :: AllHold(more, r) <==> AllHold(conditions, r) && TextFound(r.body, column, wanted)
  {
    more := conditions;
    if Given(wanted) {
      more := Push(conditions, ColumnLike(column, Like.LikePattern(wanted.value)));
      forall r
        ensures Holds(ColumnLike(column, Like.LikePattern(wanted.value)), r) <==> TextFound(r.body, column, wanted)
      {
        LikeMeansFound(r, column, wanted.value);
      }
    }
  }

  method PushLabels(conditions: seq<Condition>, labels: seq<string>) returns (more: seq<Condition>)
    ensures forall r :: AllHold(more, r) <==> AllHold(conditions, r) && LabelsFound(r.body, labels)
  {
    more := conditions;
    if |labels| > 0 {
      more := Push(conditions, AllLabels(labels));
      forall r: Row<Message>
        ensures Holds(AllLabels(labels), r) <==> LabelsFound(r.body, labels)
      {
        LabelCountMeansAll(r.body, labels);
      }
    }
  }

  /** The WHERE clause: its conditions together say what the filters and the cursor ask for. */
  method Conditions(inbox: string, f: Filters, cursor: Option<Cursor>) returns (conditions: seq<Condition>)
    ensures forall r :: AllHold(conditions, r) <==> Wanted(r, inbox, f) && Below(r.key, cursor)
  {
    conditions := Push([], InInbox(inbox));
    conditions := PushLabels(conditions, f.labels);
    conditions := PushText(conditions, From, f.from);
    conditions := PushText(conditions, To, f.to);
    conditions := PushText(conditions, Subject, f.subject);
    if f.since.Some? {
      conditions := Push(conditions, NotBefore(f.since.value));
    }
    if f.before.Some? {
      conditions := Push(conditions, NotAfter(f.before.value));
    }
    if f.maxSpamScore.Some? {
      conditions := Push(conditions, SpamAtMost(f.maxSpamScore.value));
    }
    if cursor.Some? {
      conditions := Push(conditions, BelowCursor(cursor.value));
    }
  }

  ghost function Selected(table: set<Row<Message>>, conditions: seq<Condition>): set<Row<Message>> {
    set r | r in table && AllHold(conditions, r)
  }

  ghost function WantedRows(table: set<Row<Message>>, inbox: string, f: Filters): set<Row<Message>> {
    set r | r in table && Wanted(r, inbox, f)
  }

  /** What the conditions select, sorted and cut off, is one page's query over the wanted rows. */
  lemma SelectIsQuery(table: set<Row<Message>>, conditions: seq<Condition>, inbox: string, f: Filters,
                      cursor: Option<Cursor>, limit: nat)
    requires DistinctKeys(table)
    requires forall r :: AllHold(conditions, r) <==> Wanted(r, inbox, f) && Below(r.key, cursor)
    ensures Take(Sorted(Selected(table, conditions)), limit + 1) == Query(WantedRows(table, inbox, f), cursor, limit)
  {
    assert Selected(table, conditions) == Under(WantedRows(table, inbox, f), cursor);
  }

  function TrimmedAll(raw: seq<string>): seq<string> {
    seq(|raw|, i requires 0 <= i < |raw| => Trimmed(raw[i]))
  }

  /** The non-empty entries of a list, each where it first occurs. */
  function FirstOccurrences(entries: seq<string>): seq<string> {
    if entries == [] then []
    else
      var front, last := FirstOccurrences(entries[..|entries| - 1]), entries[|entries| - 1];
      if last != "" && last !in front then front + [last] else front
  }

  /** They are distinct, they are all there, and they keep the order in which they first occurred. */
  lemma {:induction false} FirstOccurrencesKept(entries: seq<string>)
    ensures Distinct(FirstOccurrences(entries))
    ensures forall l :: l in FirstOccurrences(entries) <==> l != "" && l in entries
    ensures forall i, j :: 0 <= i < j < |FirstOccurrences(entries)| ==>
      FirstAt(entries, FirstOccurrences(entries)[i]) < FirstAt(entries, FirstOccurrences(entries)[j])
  {
    if entries != [] {
      var front, last := entries[..|entries| - 1], entries[|entries| - 1];
      FirstOccurrencesKept(front);
      assert entries == front + [last];
      forall l | l in front
        ensures FirstAt(entries, l) == FirstAt(front, l) < |front|
      {
        FirstAtStays(front, last, l);
      }
      if last != "" && last !in FirstOccurrences(front) {
        FirstAtEnd(front, last);
      }
    }
  }

  /** Where an entry first occurs; the length of the list when it does not. */
  function FirstAt(entries: seq<string>, l: string): (at: nat)
    ensures at <= |entries|
  {
    if entries == [] || entries[0] == l then 0 else 1 + FirstAt(entries[1..], l)
  }

  lemma {:induction false} FirstAtStays(front: seq<string>, last: string, l: string)
    requires l in front
    ensures FirstAt(front + [last], l) == FirstAt(front, l) < |front|
  {
    if front[0] != l {
      assert (front + [last])[1..] == front[1..] + [last];
      FirstAtStays(front[1..], last, l);
    }
  }

  lemma {:induction false} FirstAtEnd(front: seq<string>, last: string)
    requires last !in front
    ensures FirstAt(front + [last], last) == |front|
  {
    if front != [] {
      assert (front + [last])[1..] == front[1..] + [last];
      FirstAtEnd(front[1..], last);
    }
  }

  /** The labels of a request are trimmed, empty ones dropped, and each kept where it first occurs. */
  method NormalizeFilterLabels(raw: seq<string>) returns (labels: seq<string>)
    ensures labels == FirstOccurrences(TrimmedAll(raw))
    ensures Distinct(labels)
  {
    labels := [];
    for i := 0 to |raw|
      invariant labels == FirstOccurrences(TrimmedAll(raw)[..i])
    {
      var trimmed := Trimmed(raw[i]);
      assert TrimmedAll(raw)[..i + 1][..i] == TrimmedAll(raw)[..i];
      if |trimmed| > 0 && trimmed !in labels {
        labels := labels + [trimmed];
      }
    }
    assert TrimmedAll(raw)[..|raw|] == TrimmedAll(raw);
    FirstOccurrencesKept(TrimmedAll(raw));
  }
}
