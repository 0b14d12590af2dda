/** Writing a domain's DNS records into its zone, and taking them out again. */
module Dns {
  import opened Common
  import opened Text

  datatype Record = Record(kind: string, name: string, content: string, priority: Option<int>)

  datatype Entry = Entry(id: nat, record: Record)

  /** The zone in listing order, and the id the next record gets. */
  datatype Zone = Zone(entries: seq<Entry>, nextId: nat)

  // ---------------------------------------------------------------- which records are the same, which clash

  function RecordKey(r: Record): string {
    Lower(r.kind + "|" + r.name + "|" + r.content)
  }

  predicate SameSlot(a: Record, b: Record) {
    a.kind == b.kind && a.name == b.name
  }

  predicate Matches(a: Record, b: Record) {
    SameSlot(a, b) && a.content == b.content
  }

  predicate Mentions(r: Record, marker: string) {
    Contains(Lower(r.content), marker)
  }

  predicate BothMention(a: Record, b: Record, marker: string) {
    Mentions(a, marker) && Mentions(b, marker)
  }

  /** A CNAME takes the place of any other; a TXT only that of a fellow SPF or DMARC policy. */
  predicate Replaceable(record: Record, existing: Record) {
    || record.kind == "CNAME"
    || (record.kind == "TXT"
        && (BothMention(record, existing, "v=spf1") || BothMention(record, existing, "v=dmarc1")))
  }

  /** Writing one would find the other in its way and put itself in its place. */
  predicate Clash(a: Record, b: Record) {
    SameSlot(a, b) && a.content != b.content && Replaceable(a, b)
  }

  lemma ClashBothWays(a: Record, b: Record)
    ensures Clash(a, b) <==> Clash(b, a)
  {
  }

  // ---------------------------------------------------------------- one record

  predicate Present(entries: seq<Entry>, record: Record) {
    exists i :: 0 <= i < |entries| && Matches(entries[i].record, record)
  }

  /** The first entry in the way, if any. */
  function FirstStale(entries: seq<Entry>, record: Record): (at: nat)
    ensures at <= |entries|
    ensures at < |entries| ==> SameSlot(entries[at].record, record) && Replaceable(record, entries[at].record)
    ensures forall i :: 0 <= i < at ==> !(SameSlot(entries[i].record, record) && Replaceable(record, entries[i].record))
  {
    if entries == [] || (SameSlot(entries[0].record, record) && Replaceable(record, entries[0].record)) then 0
    else 1 + FirstStale(entries[1..], record)
  }

  function FirstMatch(entries: seq<Entry>, record: Record): (at: nat)
    ensures at <= |entries|
    ensures at < |entries| ==> Matches(entries[at].record, record)
    ensures forall i :: 0 <= i < at ==> !Matches(entries[i].record, record)
  {
    if entries == [] || Matches(entries[0].record, record) then 0 else 1 + FirstMatch(entries[1..], record)
  }

  function Written(z: Zone, record: Record): Zone {
    if Present(z.entries, record) then z
    else
      var at := FirstStale(z.entries, record);
      if at == |z.entries| then Zone(z.entries + [Entry(z.nextId, record)], z.nextId + 1)
      else z.(entries := z.entries[at := Entry(z.entries[at].id, record)])
  }

  function WrittenAll(z: Zone, wanted: seq<Record>): Zone
    decreases |wanted|
  {
    if wanted == [] then z else WrittenAll(Written(z, wanted[0]), wanted[1..])
  }

  /** The first entry with this type, name and content goes. */
  function Deleted(z: Zone, record: Record): Zone {
    var at := FirstMatch(z.entries, record);
    if at == |z.entries| then z else z.(entries := z.entries[..at] + z.entries[at + 1..])
  }

  function DeletedAll(z: Zone, records: seq<Record>): Zone
    decreases |records|
  {
    if records == [] then z else DeletedAll(Deleted(z, records[0]), records[1..])
  }

  // ---------------------------------------------------------------- wanted lists

  ghost predicate Distinct(wanted: seq<Record>) {
    forall i, j :: 0 <= i < j < |wanted| ==> !Matches(wanted[i], wanted[j])
  }

  ghost predicate NoClash(wanted: seq<Record>) {
    forall i, j :: 0 <= i < |wanted| && 0 <= j < |wanted| ==> !Clash(wanted[i], wanted[j])
  }

  ghost predicate AllPresent(entries: seq<Entry>, wanted: seq<Record>) {
    forall i :: 0 <= i < |wanted| ==> Present(entries, wanted[i])
  }

  ghost predicate HasKey(records: seq<Record>, key: string) {
    exists k :: 0 <= k < |records| && RecordKey(records[k]) == key
  }

  /** The record at a place is the first with its key. */
  ghost predicate FirstOfKey(records: seq<Record>, i: nat) {
    i < |records| && forall j :: 0 <= j < i ==> RecordKey(records[j]) != RecordKey(records[i])
  }

  /** The places of the records that are the first with their key. */
  ghost function FirstPlaces(records: seq<Record>, n: nat): (places: seq<nat>)
    requires n <= |records|
    ensures forall k :: 0 <= k < |places| ==> places[k] < n && FirstOfKey(records, places[k])
    ensures forall k, l :: 0 <= k < l < |places| ==> places[k] < places[l]
  {
    if n == 0 then [] else FirstPlaces(records, n - 1) + if FirstOfKey(records, n - 1) then [n - 1] else []
  }

  lemma {:induction false} FirstPlacesAll(records: seq<Record>, n: nat, i: nat)
    requires i < n <= |records| && FirstOfKey(records, i)
    ensures i in FirstPlaces(records, n)
  {
    if i < n - 1 {
      FirstPlacesAll(records, n - 1, i);
    }
  }

  /** The records at some places, in that order. */
  ghost function At(records: seq<Record>, places: seq<nat>): seq<Record>
    requires forall k :: 0 <= k < |places| ==> places[k] < |records|
  {
    seq(|places|, k requires 0 <= k < |places| => records[places[k]])
  }

  ghost function Firsts(records: seq<Record>, n: nat): seq<Record>
    requires n <= |records|
  {
    At(records, FirstPlaces(records, n))
  }

  lemma FirstsKeys(records: seq<Record>)
    ensures var firsts := Firsts(records, |records|);
      forall i, j :: 0 <= i < j < |firsts| ==> RecordKey(firsts[i]) != RecordKey(firsts[j])
  {
  }

  /** No key is lost. */
  lemma {:induction false} FirstsHaveKey(records: seq<Record>, i: nat)
    requires i < |records|
    ensures HasKey(Firsts(records, |records|), RecordKey(records[i]))
    decreases i
  {
    if FirstOfKey(records, i) {
      FirstPlacesAll(records, |records|, i);
      var places := FirstPlaces(records, |records|);
      var k :| 0 <= k < |places| && places[k] == i;
      assert Firsts(records, |records|)[k] == records[i];
    } else {
      FirstsHaveKey(records, EarlierOfKey(records, i));
    }
  }

  ghost function EarlierOfKey(records: seq<Record>, i: nat): (j: nat)
    requires i < |records| && !FirstOfKey(records, i)
    ensures j < i && RecordKey(records[j]) == RecordKey(records[i])
  {
    var j :| 0 <= j < i && RecordKey(records[j]) == RecordKey(records[i]);
    j
  }

  /** Of the records with one key, ignoring case, the first is listed, in its place; the others are not. */
  method DedupeRecords(records: seq<Record>) returns (kept: seq<Record>)
    ensures kept == Firsts(records, |records|)
    ensures Distinct(kept)
    ensures forall i :: 0 <= i < |records| ==> HasKey(kept, RecordKey(records[i]))
  {
    kept := [];
    var seen: set<string> := {};
    for n := 0 to |records|
      invariant kept == Firsts(records, n)
      invariant forall key :: key in seen <==> exists i :: 0 <= i < n && RecordKey(records[i]) == key
    {
      var key := RecordKey(records[n]);
      assert key !in seen <==> FirstOfKey(records, n);
      if key !in seen {
        seen := seen + {key};
        kept := kept + [records[n]];
      }
    }
    FirstsKeys(records);
    forall i | 0 <= i < |records|
      ensures HasKey(kept, RecordKey(records[i]))
    {
      FirstsHaveKey(records, i);
    }
  }

  // ---------------------------------------------------------------- what one write does

  /** After writing, the record is there; and what was there stays, but for one entry in the way. */
  lemma WrittenPresent(z: Zone, record: Record)
    ensures Present(Written(z, record).entries, record)
  {
    if !Present(z.entries, record) {
      var at := FirstStale(z.entries, record);
      assert Matches(Written(z, record).entries[at].record, record);
    }
  }

  lemma WrittenKeeps(z: Zone, record: Record, other: Record)
    requires Present(z.entries, other) && !Clash(record, other)
    ensures Present(Written(z, record).entries, other)
  {
    var i :| 0 <= i < |z.entries| && Matches(z.entries[i].record, other);
    var w := Written(z, record).entries;
    if !Present(z.entries, record) {
      assert !Matches(z.entries[i].record, record);
      assert FirstStale(z.entries, record) != i || i == |z.entries|;
    }
    assert w[i] == z.entries[i];
  }

  /** A write replaces nothing but another CNAME of the name, or a TXT that is an SPF or DMARC policy as it is. */
  lemma ReplacesOnlyItsKind(z: Zone, record: Record, i: nat)
    requires i < |z.entries| && Written(z, record).entries[i] != z.entries[i]
    ensures var was := z.entries[i].record;
      && SameSlot(was, record) && was.content != record.content
      && (record.kind == "CNAME"
          || (record.kind == "TXT" && ((Mentions(record, "v=spf1") && Mentions(was, "v=spf1"))
                                       || (Mentions(record, "v=dmarc1") && Mentions(was, "v=dmarc1")))))
  {
  }

  // ---------------------------------------------------------------- the whole loop

  lemma {:induction false} KeptThroughout(z: Zone, wanted: seq<Record>, other: Record)
    requires Present(z.entries, other) && forall i :: 0 <= i < |wanted| ==> !Clash(wanted[i], other)
    ensures Present(WrittenAll(z, wanted).entries, other)
    decreases |wanted|
  {
    if wanted != [] {
      WrittenKeeps(z, wanted[0], other);
      KeptThroughout(Written(z, wanted[0]), wanted[1..], other);
    }
  }

  /** When no two wanted records clash, every one of them is in the zone afterwards, whatever was there. */
  lemma {:induction false} AllWritten(z: Zone, wanted: seq<Record>)
    requires NoClash(wanted)
    ensures AllPresent(WrittenAll(z, wanted).entries, wanted)
    decreases |wanted|
  {
    if wanted != [] {
      WrittenPresent(z, wanted[0]);
      KeptThroughout(Written(z, wanted[0]), wanted[1..], wanted[0]);
      AllWritten(Written(z, wanted[0]), wanted[1..]);
      forall i | 0 <= i < |wanted|
        ensures Present(WrittenAll(z, wanted).entries, wanted[i])
      {
        if i > 0 {
          assert wanted[i] == wanted[1..][i - 1];
        }
      }
    }
  }

  /** A pass over a zone that holds everything wanted writes nothing. */
  lemma {:induction false} PassWritesNothing(z: Zone, wanted: seq<Record>)
    requires AllPresent(z.entries, wanted)
    ensures WrittenAll(z, wanted) == z
    decreases |wanted|
  {
    if wanted != [] {
      assert Present(z.entries, wanted[0]);
      assert forall i :: 0 <= i < |wanted[1..]| ==> wanted[1..][i] == wanted[i + 1];
      PassWritesNothing(z, wanted[1..]);
    }
  }

  /** So a second pass changes nothing. */
  lemma SecondPassIdle(z: Zone, wanted: seq<Record>)
    requires NoClash(wanted)
    ensures WrittenAll(WrittenAll(z, wanted), wanted) == WrittenAll(z, wanted)
  {
    AllWritten(z, wanted);
    PassWritesNothing(WrittenAll(z, wanted), wanted);
  }

  /** Entries keep their place and id; one that no wanted record clashes with is untouched. */
  lemma {:induction false} OthersUntouched(z: Zone, wanted: seq<Record>, i: nat)
    requires i < |z.entries|
    ensures i < |WrittenAll(z, wanted).entries| && WrittenAll(z, wanted).entries[i].id == z.entries[i].id
    ensures (forall k :: 0 <= k < |wanted| ==> !Clash(wanted[k], z.entries[i].record)) ==>
      WrittenAll(z, wanted).entries[i] == z.entries[i]
    ensures WrittenAll(z, wanted).entries[i] == z.entries[i] || WrittenAll(z, wanted).entries[i].record in wanted
    decreases |wanted|
  {
    if wanted != [] {
      var next := Written(z, wanted[0]);
      OthersUntouched(next, wanted[1..], i);
      if forall k :: 0 <= k < |wanted| ==> !Clash(wanted[k], z.entries[i].record) {
        WriteAvoids(z, wanted[0], i);
      }
    }
  }

  lemma WriteAvoids(z: Zone, record: Record, i: nat)
    requires i < |z.entries| && !Clash(record, z.entries[i].record)
    ensures Written(z, record).entries[i] == z.entries[i]
  {
    if !Present(z.entries, record) && FirstStale(z.entries, record) == i {
      assert Matches(z.entries[i].record, record);
    }
  }

  // ---------------------------------------------------------------- when the loop cannot succeed

  lemma WriteGrows(z: Zone, record: Record)
    ensures |z.entries| <= |Written(z, record).entries| <= |z.entries| + 1
  {
  }

  lemma {:induction false} AllGrow(z: Zone, wanted: seq<Record>)
    ensures |WrittenAll(z, wanted).entries| <= |z.entries| + |wanted|
    decreases |wanted|
  {
    if wanted != [] {
      AllGrow(Written(z, wanted[0]), wanted[1..]);
    }
  }

  /** No entry is wanted already or in the way of anything wanted. */
  ghost predicate Unrelated(entries: seq<Entry>, wanted: seq<Record>) {
    forall i, k :: 0 <= i < |entries| && 0 <= k < |wanted| ==>
      !Matches(entries[i].record, wanted[k]) && !Clash(wanted[k], entries[i].record)
  }

  /** When the zone grows by the whole list, every write was a creation, and nothing clashed with anything. */
  lemma {:induction false} AllCreated(z: Zone, wanted: seq<Record>)
    requires |WrittenAll(z, wanted).entries| == |z.entries| + |wanted|
    ensures Unrelated(z.entries, wanted)
    ensures forall i, j :: 0 <= i < j < |wanted| ==> !Clash(wanted[j], wanted[i])
    decreases |wanted|
  {
    if wanted != [] {
      var next, rest := Written(z, wanted[0]), wanted[1..];
      WriteGrows(z, wanted[0]);
      AllGrow(next, rest);
      AllCreated(next, rest);
      assert next.entries[|z.entries|].record == wanted[0];
      forall i, k | 0 <= i < |z.entries| && 0 <= k < |wanted|
        ensures !Matches(z.entries[i].record, wanted[k]) && !Clash(wanted[k], z.entries[i].record)
      {
        assert next.entries[i] == z.entries[i];
        if k > 0 {
          assert rest[k - 1] == wanted[k];
        }
      }
      forall i, j | 0 <= i < j < |wanted|
        ensures !Clash(wanted[j], wanted[i])
      {
        assert rest[j - 1] == wanted[j];
        if i > 0 {
          assert rest[i - 1] == wanted[i];
        }
      }
    }
  }

  function Dropped(entries: seq<Entry>, at: nat): seq<Entry>
    requires at < |entries|
  {
    entries[..at] + entries[at + 1..]
  }

  /** Taking one match of the first record away leaves the others. */
  lemma OthersRemain(entries: seq<Entry>, wanted: seq<Record>, at: nat)
    requires Distinct(wanted) && AllPresent(entries, wanted) && wanted != []
    requires at < |entries| && Matches(entries[at].record, wanted[0])
    ensures AllPresent(Dropped(entries, at), wanted[1..]) && Distinct(wanted[1..])
  {
    var left := Dropped(entries, at);
    forall k | 0 <= k < |wanted[1..]|
      ensures Present(left, wanted[1..][k])
    {
      var w := wanted[k + 1];
      assert Present(entries, w);
      var i :| 0 <= i < |entries| && Matches(entries[i].record, w);
      assert !Matches(wanted[0], w);
      assert i != at;
      if i < at {
        assert left[i] == entries[i];
      } else {
        assert left[i - 1] == entries[i];
      }
    }
  }

  lemma {:induction false} PresentNeedRoom(entries: seq<Entry>, wanted: seq<Record>)
    requires Distinct(wanted) && AllPresent(entries, wanted)
    ensures |wanted| <= |entries|
    decreases |wanted|
  {
    if wanted != [] {
      assert Present(entries, wanted[0]);
      var at :| 0 <= at < |entries| && Matches(entries[at].record, wanted[0]);
      OthersRemain(entries, wanted, at);
      PresentNeedRoom(Dropped(entries, at), wanted[1..]);
    }
  }

  /** On an empty zone a list with a clash in it never gets everything in. */
  lemma ClashLoses(wanted: seq<Record>, nextId: nat)
    requires Distinct(wanted) && AllPresent(WrittenAll(Zone([], nextId), wanted).entries, wanted)
    ensures NoClash(wanted)
  {
    var z := Zone([], nextId);
    AllGrow(z, wanted);
    PresentNeedRoom(WrittenAll(z, wanted).entries, wanted);
    AllCreated(z, wanted);
    forall i, j | 0 <= i < |wanted| && 0 <= j < |wanted|
      ensures !Clash(wanted[i], wanted[j])
    {
      ClashBothWays(wanted[i], wanted[j]);
    }
  }

  /** Writing the list leaves all of it in this zone. */
  ghost predicate Converges(z: Zone, wanted: seq<Record>) {
    AllPresent(WrittenAll(z, wanted).entries, wanted)
  }

  /** Writing a list leaves all of it in every zone exactly when no two of its records clash. */
  lemma ConvergesExactly(wanted: seq<Record>)
    requires Distinct(wanted)
    ensures (forall z :: Converges(z, wanted)) <==> NoClash(wanted)
  {
    if NoClash(wanted) {
      forall z
        ensures Converges(z, wanted)
      {
        AllWritten(z, wanted);
      }
    } else {
      var empty := Zone([], 0);
      if Converges(empty, wanted) {
        ClashLoses(wanted, 0);
      }
    }
  }

  // ---------------------------------------------------------------- taking the records out again

  ghost predicate IsWanted(e: Entry, wanted: seq<Record>) {
    exists k :: 0 <= k < |wanted| && Matches(e.record, wanted[k])
  }

  /** The entries that match nothing wanted, in order. */
  ghost function Unwanted(entries: seq<Entry>, wanted: seq<Record>): (left: seq<Entry>)
    ensures |left| <= |entries|
  {
    if entries == [] then []
    else (if IsWanted(entries[0], wanted) then [] else [entries[0]]) + Unwanted(entries[1..], wanted)
  }

  lemma {:induction false} UnwantedJoins(a: seq<Entry>, b: seq<Entry>, wanted: seq<Record>)
    ensures Unwanted(a + b, wanted) == Unwanted(a, wanted) + Unwanted(b, wanted)
  {
    if a == [] {
      assert a + b == b;
    } else {
      assert (a + b)[0] == a[0] && (a + b)[1..] == a[1..] + b;
      UnwantedJoins(a[1..], b, wanted);
    }
  }

  lemma UnwantedSplits(entries: seq<Entry>, at: nat, wanted: seq<Record>)
    requires at < |entries|
    ensures Unwanted(entries, wanted) == Unwanted(entries[..at], wanted)
      + (if IsWanted(entries[at], wanted) then [] else [entries[at]]) + Unwanted(entries[at + 1..], wanted)
  {
    var rest := entries[at..];
    assert entries == entries[..at] + rest;
    UnwantedJoins(entries[..at], rest, wanted);
    assert rest[0] == entries[at] && rest[1..] == entries[at + 1..];
  }

  lemma {:induction false} NoneWanted(entries: seq<Entry>, wanted: seq<Record>)
    ensures Unwanted(entries, wanted) == entries <==> forall i :: 0 <= i < |entries| ==> !IsWanted(entries[i], wanted)
  {
    if entries != [] {
      NoneWanted(entries[1..], wanted);
      assert entries == [entries[0]] + entries[1..];
      if forall i :: 0 <= i < |entries[1..]| ==> !IsWanted(entries[1..][i], wanted) {
        assert forall i :: 1 <= i < |entries| ==> entries[i] == entries[1..][i - 1];
      }
    }
  }

  /** When all entries from the n-th on are wanted, n are left over only if no earlier one is. */
  lemma {:induction false} LeftOver(entries: seq<Entry>, n: nat, wanted: seq<Record>)
    requires n <= |entries| && forall j :: n <= j < |entries| ==> IsWanted(entries[j], wanted)
    ensures |Unwanted(entries, wanted)| <= n
    ensures |Unwanted(entries, wanted)| == n ==>
      Unwanted(entries, wanted) == entries[..n] && forall i :: 0 <= i < n ==> !IsWanted(entries[i], wanted)
    ensures (forall i :: 0 <= i < n ==> !IsWanted(entries[i], wanted)) ==> |Unwanted(entries, wanted)| == n
  {
    if entries != [] {
      var rest := entries[1..];
      assert forall j :: 1 <= j < |entries| ==> rest[j - 1] == entries[j];
      if n == 0 {
        LeftOver(rest, 0, wanted);
      } else {
        LeftOver(rest, n - 1, wanted);
        assert entries[..n] == [entries[0]] + rest[..n - 1];
      }
    }
  }

  ghost function Copies(entries: seq<Entry>, r: Record): nat {
    |entries| - |Unwanted(entries, [r])|
  }

  ghost function Copy(e: Entry, r: Record): nat {
    if Matches(e.record, r) then 1 else 0
  }

  lemma CopiesSplit(entries: seq<Entry>, at: nat, r: Record)
    requires at < |entries|
    ensures Copies(entries, r) == Copies(entries[..at], r) + Copy(entries[at], r) + Copies(entries[at + 1..], r)
  {
    UnwantedSplits(entries, at, [r]);
    assert [r][0] == r;
  }

  lemma PresentHasCopy(entries: seq<Entry>, r: Record)
    ensures Present(entries, r) <==> Copies(entries, r) > 0
  {
    NoneWanted(entries, [r]);
    LeftOver(entries, |entries|, [r]);
    assert [r][0] == r;
    assert entries[..|entries|] == entries;
    assert forall e: Entry :: IsWanted(e, [r]) <==> Matches(e.record, r);
  }

  /** A write makes a second copy of nothing. */
  lemma WriteCopies(z: Zone, record: Record, r: Record)
    ensures Copies(Written(z, record).entries, r) <= Max(1, Copies(z.entries, r))
  {
    var w := Written(z, record).entries;
    PresentHasCopy(z.entries, r);
    if !Present(z.entries, record) {
      var at := FirstStale(z.entries, record);
      CopiesSplit(w, at, r);
      assert w[..at] == z.entries[..at];
      if at == |z.entries| {
        assert z.entries[..at] == z.entries;
        assert w[at + 1..] == [];
      } else {
        CopiesSplit(z.entries, at, r);
        assert w[at + 1..] == z.entries[at + 1..];
      }
    }
  }

  lemma {:induction false} WritesCopies(z: Zone, wanted: seq<Record>, r: Record)
    ensures Copies(WrittenAll(z, wanted).entries, r) <= Max(1, Copies(z.entries, r))
    decreases |wanted|
  {
    if wanted != [] {
      WriteCopies(z, wanted[0], r);
      WritesCopies(Written(z, wanted[0]), wanted[1..], r);
    }
  }

  lemma DeleteCopies(z: Zone, record: Record, r: Record)
    ensures Copies(Deleted(z, record).entries, r) <= Copies(z.entries, r)
    ensures Matches(record, r) ==> Copies(Deleted(z, record).entries, r) == Max(0, Copies(z.entries, r) - 1)
  {
    var at := FirstMatch(z.entries, record);
    if at < |z.entries| {
      CopiesSplit(z.entries, at, r);
      var a, b := z.entries[..at], z.entries[at + 1..];
      UnwantedJoins(a, b, [r]);
    } else if Matches(record, r) {
      PresentHasCopy(z.entries, r);
    }
  }

  lemma {:induction false} DeletesCopies(z: Zone, wanted: seq<Record>, r: Record)
    ensures Copies(DeletedAll(z, wanted).entries, r) <= Copies(z.entries, r)
    ensures (exists k :: 0 <= k < |wanted| && Matches(wanted[k], r)) ==>
      Copies(DeletedAll(z, wanted).entries, r) <= Max(0, Copies(z.entries, r) - 1)
    decreases |wanted|
  {
    if wanted != [] {
      DeleteCopies(z, wanted[0], r);
      DeletesCopies(Deleted(z, wanted[0]), wanted[1..], r);
      if k :| 0 <= k < |wanted| && Matches(wanted[k], r) {
        if k > 0 {
          assert wanted[1..][k - 1] == wanted[k];
        }
      }
    }
  }

  /** After onboarding and deleting fewer copies of a wanted record are left than there were, or none. */
  lemma CopiesAfterwards(z: Zone, wanted: seq<Record>, k: nat)
    requires k < |wanted|
    ensures Copies(DeletedAll(WrittenAll(z, wanted), wanted).entries, wanted[k])
         <= Max(0, Copies(z.entries, wanted[k]) - 1)
  {
    WritesCopies(z, wanted, wanted[k]);
    DeletesCopies(WrittenAll(z, wanted), wanted, wanted[k]);
    assert Matches(wanted[k], wanted[k]);
  }

  lemma DeleteLeavesUnwanted(z: Zone, record: Record, wanted: seq<Record>)
    requires record in wanted
    ensures Unwanted(Deleted(z, record).entries, wanted) == Unwanted(z.entries, wanted)
  {
    var at := FirstMatch(z.entries, record);
    if at < |z.entries| {
      UnwantedSplits(z.entries, at, wanted);
      UnwantedJoins(z.entries[..at], z.entries[at + 1..], wanted);
      var k :| 0 <= k < |wanted| && wanted[k] == record;
      assert Matches(z.entries[at].record, wanted[k]);
    }
  }

  lemma {:induction false} DeletesLeaveUnwanted(z: Zone, records: seq<Record>, wanted: seq<Record>)
    requires forall k :: 0 <= k < |records| ==> records[k] in wanted
    ensures Unwanted(DeletedAll(z, records).entries, wanted) == Unwanted(z.entries, wanted)
    decreases |records|
  {
    if records != [] {
      DeleteLeavesUnwanted(z, records[0], wanted);
      DeletesLeaveUnwanted(Deleted(z, records[0]), records[1..], wanted);
    }
  }

  /** Each entry afterwards is as it was in its place, or a wanted record. */
  lemma {:induction false} EntriesFrom(z: Zone, wanted: seq<Record>, i: nat)
    requires i < |WrittenAll(z, wanted).entries|
    ensures var e := WrittenAll(z, wanted).entries[i];
      (i < |z.entries| && e == z.entries[i]) || e.record in wanted
    decreases |wanted|
  {
    if wanted != [] {
      EntriesFrom(Written(z, wanted[0]), wanted[1..], i);
    }
  }

  lemma InListIsWanted(e: Entry, wanted: seq<Record>)
    requires e.record in wanted
    ensures IsWanted(e, wanted)
  {
    var k :| 0 <= k < |wanted| && wanted[k] == e.record;
    assert Matches(e.record, wanted[k]);
  }

  ghost predicate Untouched(z: Zone, wanted: seq<Record>, n: nat) {
    && n <= |z.entries| && n <= |WrittenAll(z, wanted).entries|
    && WrittenAll(z, wanted).entries[..n] == z.entries[..n]
  }

  /** The first n entries clash with nothing that comes after them. */
  ghost predicate NoneClash(entries: seq<Entry>, n: nat) {
    forall i, j :: 0 <= i < n <= j < |entries| ==> !Clash(entries[j].record, entries[i].record)
  }

  /** The first entry in the way comes before all that was created since, so leaving those in place means no clash. */
  lemma {:induction false} UntouchedUnrelated(z: Zone, wanted: seq<Record>, n: nat)
    requires n <= |z.entries| && Untouched(z, wanted, n) && NoneClash(z.entries, n)
    requires forall i :: 0 <= i < n ==> !IsWanted(z.entries[i], wanted)
    ensures forall i, k :: 0 <= i < n && 0 <= k < |wanted| ==> !Clash(wanted[k], z.entries[i].record)
    decreases |wanted|
  {
    if wanted != [] {
      var next, rest := Written(z, wanted[0]), wanted[1..];
      FirstAvoids(z, wanted, n);
      RestUnwanted(z, wanted, n);
      UntouchedUnrelated(next, rest, n);
      forall i, k | 0 <= i < n && 0 <= k < |wanted|
        ensures !Clash(wanted[k], z.entries[i].record)
      {
        assert next.entries[..n][i] == next.entries[i] && z.entries[..n][i] == z.entries[i];
        if k > 0 {
          assert rest[k - 1] == wanted[k];
        }
      }
    }
  }

  lemma RestUnwanted(z: Zone, wanted: seq<Record>, n: nat)
    requires wanted != [] && n <= |z.entries|
    requires Written(z, wanted[0]).entries[..n] == z.entries[..n]
    requires forall i :: 0 <= i < n ==> !IsWanted(z.entries[i], wanted)
    ensures forall i :: 0 <= i < n ==> !IsWanted(Written(z, wanted[0]).entries[i], wanted[1..])
  {
    var next, rest := Written(z, wanted[0]).entries, wanted[1..];
    forall i | 0 <= i < n
      ensures !IsWanted(next[i], rest)
    {
      assert next[..n][i] == next[i] && z.entries[..n][i] == z.entries[i];
      assert forall k :: 0 <= k < |rest| ==> rest[k] == wanted[k + 1];
    }
  }

  lemma FirstAvoids(z: Zone, wanted: seq<Record>, n: nat)
    requires wanted != [] && n <= |z.entries| && Untouched(z, wanted, n) && NoneClash(z.entries, n)
    requires forall i :: 0 <= i < n ==> !IsWanted(z.entries[i], wanted)
    ensures Written(z, wanted[0]).entries[..n] == z.entries[..n]
    ensures forall i :: 0 <= i < n ==> !Clash(wanted[0], z.entries[i].record)
    ensures NoneClash(Written(z, wanted[0]).entries, n)
  {
    var record, next := wanted[0], Written(z, wanted[0]);
    if Present(z.entries, record) {
      var j :| 0 <= j < |z.entries| && Matches(z.entries[j].record, record);
      assert j >= n by {
        assert Matches(z.entries[j].record, wanted[0]);
      }
      assert forall i :: 0 <= i < n ==> !Clash(z.entries[j].record, z.entries[i].record);
    } else {
      var at := FirstStale(z.entries, record);
      if at < n {
        OthersUntouched(next, wanted[1..], at);
        EntriesFrom(next, wanted[1..], at);
        var e := WrittenAll(z, wanted).entries[at];
        assert WrittenAll(z, wanted).entries[..n][at] == z.entries[..n][at];
        assert e == z.entries[at];
        InListIsWanted(e, wanted);
        assert false;
      }
    }
  }

  /** When the zone is as before, nothing in it was wanted and every entry stayed in place meanwhile. */
  lemma RestoredUntouched(z: Zone, wanted: seq<Record>)
    requires DeletedAll(WrittenAll(z, wanted), wanted).entries == z.entries
    ensures forall i :: 0 <= i < |z.entries| ==> !IsWanted(z.entries[i], wanted)
    ensures Untouched(z, wanted, |z.entries|)
  {
    var n, after := |z.entries|, WrittenAll(z, wanted).entries;
    forall i | 0 <= i < n
      ensures !IsWanted(z.entries[i], wanted)
    {
      if k :| 0 <= k < |wanted| && Matches(z.entries[i].record, wanted[k]) {
        CopiesAfterwards(z, wanted, k);
        PresentHasCopy(z.entries, wanted[k]);
        assert Present(z.entries, wanted[k]);
      }
    }
    NoneWanted(z.entries, wanted);
    DeletesLeaveUnwanted(WrittenAll(z, wanted), wanted, wanted);
    AddedWanted(z, wanted);
    LeftOver(after, n, wanted);
    assert z.entries[..n] == z.entries;
  }

  lemma AddedWanted(z: Zone, wanted: seq<Record>)
    ensures |z.entries| <= |WrittenAll(z, wanted).entries|
    ensures forall j :: |z.entries| <= j < |WrittenAll(z, wanted).entries| ==>
      IsWanted(WrittenAll(z, wanted).entries[j], wanted)
  {
    var after := WrittenAll(z, wanted).entries;
    if z.entries != [] {
      OthersUntouched(z, wanted, |z.entries| - 1);
    }
    forall j | |z.entries| <= j < |after|
      ensures IsWanted(after[j], wanted)
    {
      EntriesFrom(z, wanted, j);
      InListIsWanted(after[j], wanted);
    }
  }

  lemma UnrelatedRestored(z: Zone, wanted: seq<Record>)
    requires Unrelated(z.entries, wanted)
    ensures DeletedAll(WrittenAll(z, wanted), wanted).entries == z.entries
  {
    var n, after := |z.entries|, WrittenAll(z, wanted).entries;
    var final := DeletedAll(WrittenAll(z, wanted), wanted).entries;
    AddedWanted(z, wanted);
    forall i | 0 <= i < n
      ensures after[i] == z.entries[i] && !IsWanted(z.entries[i], wanted)
    {
      OthersUntouched(z, wanted, i);
    }
    LeftOver(after, n, wanted);
    assert after[..n] == z.entries;
    DeletesLeaveUnwanted(WrittenAll(z, wanted), wanted, wanted);
    NoneWanted(final, wanted);
    forall i | 0 <= i < |final|
      ensures !IsWanted(final[i], wanted)
    {
      if k :| 0 <= k < |wanted| && Matches(final[i].record, wanted[k]) {
        CopiesAfterwards(z, wanted, k);
        PresentHasCopy(z.entries, wanted[k]);
        PresentHasCopy(final, wanted[k]);
        assert Present(final, wanted[k]);
      }
    }
  }

  /** Onboarding and then deleting a domain restores the zone exactly when nothing in it was wanted or in the way. */
  lemma OnboardThenDelete(z: Zone, wanted: seq<Record>)
    ensures DeletedAll(WrittenAll(z, wanted), wanted).entries == z.entries <==> Unrelated(z.entries, wanted)
  {
    if Unrelated(z.entries, wanted) {
      UnrelatedRestored(z, wanted);
    }
    if DeletedAll(WrittenAll(z, wanted), wanted).entries == z.entries {
      RestoredUntouched(z, wanted);
      UntouchedUnrelated(z, wanted, |z.entries|);
    }
  }

  /** Onboarding over a CNAME that points elsewhere and then deleting the domain leaves the name without any. */
  lemma ReplacedIsLost(name: string, before: string, wanted: string, id: nat)
    requires before != wanted
    ensures var z := Zone([Entry(id, Record("CNAME", name, before, None))], id + 1);
      var records := [Record("CNAME", name, wanted, None)];
      DeletedAll(WrittenAll(z, records), records).entries == []
  {
    var held, record := Record("CNAME", name, before, None), Record("CNAME", name, wanted, None);
    var z := Zone([Entry(id, held)], id + 1);
    assert !Matches(z.entries[0].record, record) && FirstStale(z.entries, record) == 0;
    var w := Written(z, record);
    assert w.entries == [Entry(id, record)];
    assert FirstMatch(w.entries, record) == 0;
    assert Deleted(w, record).entries == [];
    assert [record][1..] == [];
    assert WrittenAll(z, [record]) == WrittenAll(w, []);
    assert DeletedAll(w, [record]) == DeletedAll(Deleted(w, record), []);
  }

  // ---------------------------------------------------------------- the client's calls

  /** The zone behind the API, changed one call at a time; writes counts the calls that change it. */
  class ZoneClient {
    var entries: seq<Entry>
    var nextId: nat
    var writes: nat

    constructor (z: Zone)
      ensures Now() == z && writes == 0
    {
      entries, nextId, writes := z.entries, z.nextId, 0;
    }

    function Now(): Zone
      reads this
    {
      Zone(entries, nextId)
    }

    /** Looks for the record, then for one to replace, and creates it when there is neither. */
    method WriteRecord(record: Record)
      modifies this
      ensures Now() == Written(old(Now()), record)
      ensures writes == old(writes) + if Present(old(entries), record) then 0 else 1
    {
      var held := FirstMatch(entries, record);
      if held < |entries| {
        return;
      }
      var stale := FirstStale(entries, record);
      if stale == |entries| {
        entries, nextId := entries + [Entry(nextId, record)], nextId + 1;
      } else {
        entries := entries[stale := Entry(entries[stale].id, record)];
      }
      writes := writes + 1;
    }

    /** Writes the records one by one; over a zone that has them all it changes nothing. */
    method WriteRecords(records: seq<Record>)
      modifies this
      ensures Now() == WrittenAll(old(Now()), records)
      ensures AllPresent(old(entries), records) ==> writes == old(writes)
    {
      ghost var start := Now();
      var i := 0;
      while i < |records|
        invariant 0 <= i <= |records|
        invariant WrittenAll(Now(), records[i..]) == WrittenAll(start, records)
        invariant AllPresent(start.entries, records) ==> writes == old(writes) && Now() == start
      {
        assert records[i..][1..] == records[i + 1..];
        assert AllPresent(start.entries, records) ==> Present(start.entries, records[i]);
        WriteRecord(records[i]);
        i := i + 1;
      }
    }

    /** Deletes the first entry that matches, if there is one. */
    method DeleteRecord(record: Record)
      modifies this
      ensures Now() == Deleted(old(Now()), record)
      ensures writes == old(writes) + if Present(old(entries), record) then 1 else 0
    {
      var held := FirstMatch(entries, record);
      if held < |entries| {
        entries := entries[..held] + entries[held + 1..];
        writes := writes + 1;
      }
    }

    method DeleteRecords(records: seq<Record>)
      modifies this
      ensures Now() == DeletedAll(old(Now()), records)
    {
      ghost var start := Now();
      var i := 0;
      while i < |records|
        invariant 0 <= i <= |records|
        invariant DeletedAll(Now(), records[i..]) == DeletedAll(start, records)
      {
        assert records[i..][1..] == records[i + 1..];
        DeleteRecord(records[i]);
        i := i + 1;
      }
    }
  }
}
