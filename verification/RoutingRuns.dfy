/** Whole runs of the routing reconciliation: interrupted anywhere, resumed, repeated. */
module RoutingRuns {
  import opened Common
  import opened Text
  import opened Routing
  import opened RoutingLaws

  // ---------------------------------------------------------------- the ids a run writes

  lemma {:induction false} AssignRight(inboxes: seq<Inbox>, entries: seq<Adopted>, zone: seq<ZoneRule>)
    requires forall k :: 0 <= k < |entries| ==> RuleAt(zone, entries[k].inboxId) == Some(entries[k].ruleId)
    requires forall i :: 0 <= i < |inboxes| ==>
      inboxes[i].ruleId == RuleAt(zone, inboxes[i].inboxId)
      || exists k :: 0 <= k < |entries| && entries[k].inboxId == inboxes[i].inboxId
    ensures AssignAll(inboxes, entries) == Recorded(inboxes, zone)
    decreases |entries|
  {
    if entries != [] {
      var next := Assign(inboxes, entries[0]);
      forall i | 0 <= i < |next|
        ensures next[i].ruleId == RuleAt(zone, next[i].inboxId)
             || exists k :: 0 <= k < |entries[1..]| && entries[1..][k].inboxId == next[i].inboxId
      {
        if next[i].ruleId != RuleAt(zone, next[i].inboxId) {
          var k :| 0 <= k < |entries| && entries[k].inboxId == inboxes[i].inboxId;
          assert entries[1..][k - 1].inboxId == next[i].inboxId;
        }
      }
      AssignRight(next, entries[1..], zone);
      assert Recorded(next, zone) == Recorded(inboxes, zone);
    }
  }

  function FinalZone(w: World, worker: string): seq<ZoneRule> {
    ZoneRules(FinalRules(w, worker), worker)
  }

  /** A covered inbox keeps, in the end, the rule it has now. */
  lemma {:induction false} CoveredKeepsRule(w: World, worker: string, address: string)
    requires WellFormed(w) && address in Addresses(w.inboxes)
    requires RuleAt(ZoneRules(w.rules, worker), address).Some?
    ensures RuleAt(FinalZone(w, worker), address) == RuleAt(ZoneRules(w.rules, worker), address)
    decreases |Missing(w, worker)|
  {
    if Missing(w, worker) == [] {
      KeptSameRule(w.rules, Addresses(w.inboxes), worker, address);
      assert FinalRules(w, worker) == Kept(w.rules, Addresses(w.inboxes), worker);
    } else {
      var first := Missing(w, worker)[0];
      var e := Apply(w, CreateRule(first), worker);
      CreateStep(w, worker);
      CreateKeepsFinal(w, worker);
      UncoveredIn(w.inboxes, ZoneRules(w.rules, worker), first);
      CreatedRuleAt(w, worker, address);
      CoveredKeepsRule(e, worker, address);
    }
  }

  lemma CreatedRuleAt(w: World, worker: string, address: string)
    requires WellFormed(w) && Missing(w, worker) != []
    ensures var first := Missing(w, worker)[0];
      RuleAt(ZoneRules(Apply(w, CreateRule(first), worker).rules, worker), address)
        == if first == address then Some(w.nextId) else RuleAt(ZoneRules(w.rules, worker), address)
  {
    var first := Missing(w, worker)[0];
    CreateStep(w, worker);
    NewRuleListed(w.nextId, first, worker);
    ZoneAppend(w.rules, NewRule(w.nextId, first, worker), worker);
    RuleAtAppend(ZoneRules(w.rules, worker), ZoneRule(w.nextId, first), address);
  }

  lemma CreateKeepsZone(w: World, worker: string)
    requires WellFormed(w) && Missing(w, worker) != []
    ensures var e := Apply(w, CreateRule(Missing(w, worker)[0]), worker);
      && WellFormed(e) && e.nextId == w.nextId + 1
      && FinalZone(e, worker) == FinalZone(w, worker)
      && Missing(e, worker) == Missing(w, worker)[1..]
  {
    CreateStep(w, worker);
    CreateKeepsFinal(w, worker);
    var e := Apply(w, CreateRule(Missing(w, worker)[0]), worker);
    assert Final(e, worker).rules == Final(w, worker).rules;
  }

  lemma FirstMissingGetsRule(w: World, worker: string)
    requires WellFormed(w) && Missing(w, worker) != []
    ensures RuleAt(FinalZone(w, worker), Missing(w, worker)[0]) == Some(w.nextId)
  {
    var first := Missing(w, worker)[0];
    CreateKeepsZone(w, worker);
    UncoveredIn(w.inboxes, ZoneRules(w.rules, worker), first);
    CreatedRuleAt(w, worker, first);
    CoveredKeepsRule(Apply(w, CreateRule(first), worker), worker, first);
  }

  /** A missing inbox ends up with the rule created for it. */
  lemma {:induction false} MissingGetsRule(w: World, worker: string, k: nat)
    requires WellFormed(w) && k < |Missing(w, worker)|
    ensures RuleAt(FinalZone(w, worker), Missing(w, worker)[k]) == Some(w.nextId + k)
    decreases k
  {
    if k == 0 {
      FirstMissingGetsRule(w, worker);
    } else {
      var e := Apply(w, CreateRule(Missing(w, worker)[0]), worker);
      CreateKeepsZone(w, worker);
      MissingGetsRule(e, worker, k - 1);
      assert Missing(w, worker)[k] == Missing(e, worker)[k - 1];
    }
  }

  lemma {:induction false} AdoptionsIn(inboxes: seq<Inbox>, zone: seq<ZoneRule>)
    ensures forall k :: 0 <= k < |Adoptions(inboxes, zone)| ==>
      && Adoptions(inboxes, zone)[k].inboxId in Addresses(inboxes)
      && RuleAt(zone, Adoptions(inboxes, zone)[k].inboxId) == Some(Adoptions(inboxes, zone)[k].ruleId)
  {
    if inboxes != [] {
      AdoptionsIn(inboxes[1..], zone);
      assert Addresses(inboxes) == {inboxes[0].inboxId} + Addresses(inboxes[1..]);
    }
  }

  lemma {:induction false} AdoptionsCover(inboxes: seq<Inbox>, zone: seq<ZoneRule>, i: nat)
    requires i < |inboxes| && RuleAt(zone, inboxes[i].inboxId).Some?
    requires inboxes[i].ruleId != RuleAt(zone, inboxes[i].inboxId)
    ensures exists k :: 0 <= k < |Adoptions(inboxes, zone)| && Adoptions(inboxes, zone)[k].inboxId == inboxes[i].inboxId
  {
    if i == 0 {
      assert Adoptions(inboxes, zone)[0].inboxId == inboxes[0].inboxId;
    } else {
      AdoptionsCover(inboxes[1..], zone, i - 1);
      var k :| 0 <= k < |Adoptions(inboxes[1..], zone)|
            && Adoptions(inboxes[1..], zone)[k].inboxId == inboxes[i].inboxId;
      var skipped := |Adoptions(inboxes, zone)| - |Adoptions(inboxes[1..], zone)|;
      assert Adoptions(inboxes, zone)[k + skipped] == Adoptions(inboxes[1..], zone)[k];
    }
  }

  function Entries(w: World, worker: string): seq<Adopted> {
    Created(Missing(w, worker), w.nextId) + Adoptions(w.inboxes, ZoneRules(w.rules, worker))
  }

  lemma EntriesRight(w: World, worker: string, k: nat)
    requires WellFormed(w) && k < |Entries(w, worker)|
    ensures RuleAt(FinalZone(w, worker), Entries(w, worker)[k].inboxId) == Some(Entries(w, worker)[k].ruleId)
  {
    var n := |Missing(w, worker)|;
    if k < n {
      MissingGetsRule(w, worker, k);
    } else {
      AdoptionsIn(w.inboxes, ZoneRules(w.rules, worker));
      var entry := Adoptions(w.inboxes, ZoneRules(w.rules, worker))[k - n];
      CoveredKeepsRule(w, worker, entry.inboxId);
    }
  }

  lemma EntriesCover(w: World, worker: string, i: nat)
    requires WellFormed(w) && i < |w.inboxes|
    ensures w.inboxes[i].ruleId == RuleAt(FinalZone(w, worker), w.inboxes[i].inboxId)
         || exists k :: 0 <= k < |Entries(w, worker)| && Entries(w, worker)[k].inboxId == w.inboxes[i].inboxId
  {
    var zone, address, n := ZoneRules(w.rules, worker), w.inboxes[i].inboxId, |Missing(w, worker)|;
    assert address in Addresses(w.inboxes);
    if RuleAt(zone, address).None? {
      UncoveredIn(w.inboxes, zone, address);
      var k :| 0 <= k < n && Missing(w, worker)[k] == address;
      assert Entries(w, worker)[k].inboxId == address;
    } else {
      CoveredKeepsRule(w, worker, address);
      if w.inboxes[i].ruleId != RuleAt(zone, address) {
        AdoptionsCover(w.inboxes, zone, i);
        var k :| 0 <= k < |Adoptions(w.inboxes, zone)| && Adoptions(w.inboxes, zone)[k].inboxId == address;
        assert Entries(w, worker)[n + k].inboxId == address;
      }
    }
  }

  /** The single id write records, for every inbox, the rule its address has in the end. */
  lemma IdsWrittenRight(w: World, worker: string)
    requires WellFormed(w)
    ensures AssignAll(w.inboxes, Entries(w, worker)) == Recorded(w.inboxes, FinalZone(w, worker))
  {
    forall k | 0 <= k < |Entries(w, worker)|
      ensures RuleAt(FinalZone(w, worker), Entries(w, worker)[k].inboxId) == Some(Entries(w, worker)[k].ruleId)
    {
      EntriesRight(w, worker, k);
    }
    forall i | 0 <= i < |w.inboxes|
      ensures w.inboxes[i].ruleId == RuleAt(FinalZone(w, worker), w.inboxes[i].inboxId)
           || exists k :: 0 <= k < |Entries(w, worker)| && Entries(w, worker)[k].inboxId == w.inboxes[i].inboxId
    {
      EntriesCover(w, worker, i);
    }
    AssignRight(w.inboxes, Entries(w, worker), FinalZone(w, worker));
  }

  // ---------------------------------------------------------------- where a run stands

  /** The deletions still to come hit strays only, and every stray. */
  ghost predicate DeletesStrays(w: World, worker: string, dels: seq<ZoneRule>) {
    && (forall k :: 0 <= k < |dels| ==>
         dels[k].ruleId < w.nextId && StrayId(w.rules, dels[k].ruleId, Addresses(w.inboxes), worker))
    && (forall i :: 0 <= i < |w.rules| && Stray(w.rules[i], Addresses(w.inboxes), worker) ==>
         exists k :: 0 <= k < |dels| && w.rules[i].id == Some(dels[k].ruleId))
  }

  function AfterCreates(entries: seq<Adopted>, dels: seq<ZoneRule>, w: World): seq<Step> {
    [WriteIds(entries)] + (DeleteSteps(dels) + SwitchSteps(w))
  }

  /** Before the id write: creates, then the write, then deletions, then the switch. */
  ghost predicate Creating(w: World, worker: string, entries: seq<Adopted>, dels: seq<ZoneRule>, steps: seq<Step>) {
    && steps == CreateSteps(Missing(w, worker)) + AfterCreates(entries, dels, w)
    && AssignAll(w.inboxes, entries) == Recorded(w.inboxes, FinalZone(w, worker))
    && DeletesStrays(w, worker, dels)
  }

  /** After it: deletions, then the switch. */
  ghost predicate Deleting(w: World, worker: string, dels: seq<ZoneRule>, steps: seq<Step>) {
    && steps == DeleteSteps(dels) + SwitchSteps(w)
    && Missing(w, worker) == []
    && w.inboxes == Recorded(w.inboxes, FinalZone(w, worker))
    && DeletesStrays(w, worker, dels)
  }

  /** z lies on the way from w to where w's run ends; only there can the catch-all have changed. */
  ghost predicate Midway(w: World, z: World, worker: string) {
    && WellFormed(z) && Final(z, worker) == Final(w, worker)
    && Addresses(z.inboxes) == Addresses(w.inboxes)
    && Kept(w.rules, Addresses(w.inboxes), worker) <= Kept(z.rules, Addresses(z.inboxes), worker)
    && (z.catchAll == w.catchAll || z == Final(w, worker))
  }

  lemma StepDrop(steps: seq<Step>, k: nat)
    requires 0 < k <= |steps|
    ensures steps[..k][1..] == steps[1..][..k - 1]
  {
  }

  // ---------------------------------------------------------------- deleting

  lemma StraysLeft(w: World, worker: string, dels: seq<ZoneRule>)
    requires DeletesStrays(w, worker, dels) && dels != []
    ensures DeletesStrays(Apply(w, DeleteRule(dels[0].ruleId), worker), worker, dels[1..])
  {
    var e := Apply(w, DeleteRule(dels[0].ruleId), worker);
    forall i | 0 <= i < |e.rules|
      ensures e.rules[i] in w.rules && e.rules[i].id != Some(dels[0].ruleId)
    {
      WithoutIn(w.rules, dels[0].ruleId, e.rules[i]);
    }
    forall i | 0 <= i < |e.rules| && Stray(e.rules[i], Addresses(e.inboxes), worker)
      ensures exists k :: 0 <= k < |dels[1..]| && e.rules[i].id == Some(dels[1..][k].ruleId)
    {
      var j :| 0 <= j < |w.rules| && w.rules[j] == e.rules[i];
      var k :| 0 <= k < |dels| && w.rules[j].id == Some(dels[k].ruleId);
      assert dels[1..][k - 1] == dels[k];
    }
  }

  lemma DeleteAdvances(w: World, worker: string, dels: seq<ZoneRule>, steps: seq<Step>)
    requires WellFormed(w) && Deleting(w, worker, dels, steps) && dels != []
    ensures var e := Apply(w, steps[0], worker);
      e.catchAll == w.catchAll && Midway(w, e, worker) && Deleting(e, worker, dels[1..], steps[1..])
  {
    DeleteKeepsFinal(w, dels[0].ruleId, worker);
    StraysLeft(w, worker, dels);
  }

  lemma {:induction false} NoStrayKept(rules: seq<Rule>, addresses: set<string>, worker: string)
    requires forall i :: 0 <= i < |rules| ==> !Stray(rules[i], addresses, worker)
    ensures Kept(rules, addresses, worker) == rules
  {
    if rules != [] {
      NoStrayKept(rules[..|rules| - 1], addresses, worker);
    }
  }

  lemma SwitchOnlyLeft(w: World, worker: string)
    requires WellFormed(w) && Missing(w, worker) == [] && DeletesStrays(w, worker, [])
    requires w.inboxes == Recorded(w.inboxes, FinalZone(w, worker))
    ensures FinalRules(w, worker) == w.rules && Kept(w.rules, Addresses(w.inboxes), worker) == w.rules
    ensures Final(w, worker) == w.(catchAll := Final(w, worker).catchAll)
  {
    NoStrayKept(w.rules, Addresses(w.inboxes), worker);
    assert FinalRules(w, worker) == w.rules;
  }

  lemma SwitchFinal(w: World, worker: string)
    requires WellFormed(w) && Missing(w, worker) == [] && DeletesStrays(w, worker, [])
    requires w.inboxes == Recorded(w.inboxes, FinalZone(w, worker))
    ensures Final(w, worker) == w.(catchAll := Final(w, worker).catchAll)
    ensures Final(Final(w, worker), worker) == Final(w, worker) && Midway(w, Final(w, worker), worker)
  {
    SwitchOnlyLeft(w, worker);
    var e := Final(w, worker);
    assert FinalRules(e, worker) == FinalRules(w, worker);
  }

  lemma PlaySwitch(w: World, worker: string, steps: seq<Step>, k: nat)
    requires WellFormed(w) && Deleting(w, worker, [], steps) && k <= |steps|
    ensures Arrives(w, worker, steps, k)
  {
    assert DeleteSteps([]) + SwitchSteps(w) == SwitchSteps(w);
    SwitchFinal(w, worker);
    if k == 0 {
      assert steps[..k] == [];
    } else {
      assert steps[..k] == [DisableCatchAll];
      assert Play(w, steps[..k], worker) == Play(Apply(w, DisableCatchAll, worker), [], worker);
    }
  }

  /** The first k steps lead somewhere on the way; all of them, to the end. */
  ghost predicate Arrives(w: World, worker: string, steps: seq<Step>, k: nat)
    requires k <= |steps|
  {
    && Midway(w, Play(w, steps[..k], worker), worker)
    && (k == |steps| ==> Play(w, steps[..k], worker) == Final(w, worker))
  }

  lemma PlayNone(w: World, worker: string, steps: seq<Step>)
    requires WellFormed(w) && steps != []
    ensures Arrives(w, worker, steps, 0)
  {
    assert steps[..0] == [];
  }

  /** One step, then the rest: what holds of the rest from where the step leads holds from here. */
  lemma PlayOneMore(w: World, worker: string, steps: seq<Step>, k: nat)
    requires 0 < k <= |steps|
    requires var e := Apply(w, steps[0], worker);
      e.catchAll == w.catchAll && Midway(w, e, worker) && Arrives(e, worker, steps[1..], k - 1)
    ensures Arrives(w, worker, steps, k)
  {
    StepDrop(steps, k);
    assert steps[..k][0] == steps[0];
    var e := Apply(w, steps[0], worker);
  }

  lemma {:induction false} PlayDeleting(w: World, worker: string, dels: seq<ZoneRule>, steps: seq<Step>, k: nat)
    requires WellFormed(w) && Deleting(w, worker, dels, steps) && k <= |steps|
    ensures Arrives(w, worker, steps, k)
    decreases |dels|
  {
    if dels == [] {
      PlaySwitch(w, worker, steps, k);
    } else if k == 0 {
      PlayNone(w, worker, steps);
    } else {
      DeleteAdvances(w, worker, dels, steps);
      PlayDeleting(Apply(w, steps[0], worker), worker, dels[1..], steps[1..], k - 1);
      PlayOneMore(w, worker, steps, k);
    }
  }

  // ---------------------------------------------------------------- creating

  lemma StraysStay(w: World, worker: string, dels: seq<ZoneRule>)
    requires WellFormed(w) && Missing(w, worker) != [] && DeletesStrays(w, worker, dels)
    ensures DeletesStrays(Apply(w, CreateRule(Missing(w, worker)[0]), worker), worker, dels)
  {
    var first := Missing(w, worker)[0];
    CreateStep(w, worker);
    NewRuleListed(w.nextId, first, worker);
    UncoveredIn(w.inboxes, ZoneRules(w.rules, worker), first);
  }

  lemma CreateAdvances(w: World, worker: string, entries: seq<Adopted>, dels: seq<ZoneRule>, steps: seq<Step>)
    requires WellFormed(w) && Creating(w, worker, entries, dels, steps) && Missing(w, worker) != []
    ensures var e := Apply(w, steps[0], worker);
      && e.catchAll == w.catchAll && Midway(w, e, worker) && Creating(e, worker, entries, dels, steps[1..])
      && |Missing(e, worker)| < |Missing(w, worker)|
  {
    CreateStep(w, worker);
    CreateKeepsFinal(w, worker);
    StraysStay(w, worker, dels);
  }

  lemma {:induction false} RecordedUncovered(inboxes: seq<Inbox>, records: seq<ZoneRule>, zone: seq<ZoneRule>)
    ensures Uncovered(Recorded(inboxes, records), zone) == Uncovered(inboxes, zone)
  {
    if inboxes != [] {
      assert Recorded(inboxes, records)[1..] == Recorded(inboxes[1..], records);
      RecordedUncovered(inboxes[1..], records, zone);
    }
  }

  lemma RecordedAddresses(inboxes: seq<Inbox>, records: seq<ZoneRule>)
    ensures Addresses(Recorded(inboxes, records)) == Addresses(inboxes)
  {
    var r := Recorded(inboxes, records);
    assert forall i :: 0 <= i < |inboxes| ==> r[i].inboxId == inboxes[i].inboxId;
    forall a | a in Addresses(inboxes)
      ensures a in Addresses(r)
    {
      var i :| 0 <= i < |inboxes| && inboxes[i].inboxId == a;
      assert r[i] in r;
    }
  }

  lemma WriteKeepsFinal(w: World, worker: string)
    requires WellFormed(w) && Missing(w, worker) == []
    ensures var e := w.(inboxes := Recorded(w.inboxes, FinalZone(w, worker)));
      && WellFormed(e) && Addresses(e.inboxes) == Addresses(w.inboxes) && Missing(e, worker) == []
      && FinalRules(e, worker) == FinalRules(w, worker)
      && Recorded(e.inboxes, FinalZone(e, worker)) == e.inboxes
  {
    RecordedAddresses(w.inboxes, FinalZone(w, worker));
    RecordedUncovered(w.inboxes, FinalZone(w, worker), ZoneRules(w.rules, worker));
    var e := w.(inboxes := Recorded(w.inboxes, FinalZone(w, worker)));
    assert FinalRules(e, worker) == FinalRules(w, worker);
  }

  lemma WriteAdvances(w: World, worker: string, entries: seq<Adopted>, dels: seq<ZoneRule>, steps: seq<Step>)
    requires WellFormed(w) && Creating(w, worker, entries, dels, steps) && Missing(w, worker) == []
    ensures steps != []
    ensures var e := Apply(w, steps[0], worker);
      e.catchAll == w.catchAll && Midway(w, e, worker) && Deleting(e, worker, dels, steps[1..])
  {
    assert CreateSteps([]) + AfterCreates(entries, dels, w) == AfterCreates(entries, dels, w);
    WriteKeepsFinal(w, worker);
  }

  lemma PlayWriting(w: World, worker: string, entries: seq<Adopted>, dels: seq<ZoneRule>, steps: seq<Step>, k: nat)
    requires WellFormed(w) && Creating(w, worker, entries, dels, steps) && Missing(w, worker) == []
    requires 0 < k <= |steps|
    ensures Arrives(w, worker, steps, k)
  {
    WriteAdvances(w, worker, entries, dels, steps);
    PlayDeleting(Apply(w, steps[0], worker), worker, dels, steps[1..], k - 1);
    PlayOneMore(w, worker, steps, k);
  }

  lemma {:induction false} PlayCreating(w: World, worker: string, entries: seq<Adopted>, dels: seq<ZoneRule>,
                                        steps: seq<Step>, k: nat)
    requires WellFormed(w) && Creating(w, worker, entries, dels, steps) && k <= |steps|
    ensures Arrives(w, worker, steps, k)
    decreases |Missing(w, worker)|
  {
    if k == 0 {
      PlayNone(w, worker, steps);
    } else if Missing(w, worker) == [] {
      PlayWriting(w, worker, entries, dels, steps, k);
    } else {
      CreateAdvances(w, worker, entries, dels, steps);
      PlayCreating(Apply(w, steps[0], worker), worker, entries, dels, steps[1..], k - 1);
      PlayOneMore(w, worker, steps, k);
    }
  }

  // ---------------------------------------------------------------- whole runs

  lemma {:induction false} StraysAre(rules: seq<Rule>, addresses: set<string>, worker: string, zone: seq<ZoneRule>)
    requires zone == ZoneRules(rules, worker)
    ensures forall z :: z in zone ==> exists i ::
      0 <= i < |rules| && Listed(rules[i], worker) && z == ZoneRule(rules[i].id.value, Address(rules[i]))
    ensures forall i :: 0 <= i < |rules| && Listed(rules[i], worker) ==>
      ZoneRule(rules[i].id.value, Address(rules[i])) in zone
  {
    if rules != [] {
      var n := |rules| - 1;
      StraysAre(rules[..n], addresses, worker, ZoneRules(rules[..n], worker));
      forall z | z in zone
        ensures exists i ::
          0 <= i < |rules| && Listed(rules[i], worker) && z == ZoneRule(rules[i].id.value, Address(rules[i]))
      {
        if z in ZoneRules(rules[..n], worker) {
          var i :| 0 <= i < n && Listed(rules[..n][i], worker)
                && z == ZoneRule(rules[..n][i].id.value, Address(rules[..n][i]));
          assert rules[i] == rules[..n][i];
        } else {
          assert Listed(rules[n], worker);
        }
      }
      forall i | 0 <= i < |rules| && Listed(rules[i], worker)
        ensures ZoneRule(rules[i].id.value, Address(rules[i])) in zone
      {
        if i < n {
          assert rules[..n][i] == rules[i];
        }
      }
    }
  }

  lemma {:induction false} StraysIn(zone: seq<ZoneRule>, addresses: set<string>, z: ZoneRule)
    ensures z in Strays(zone, addresses) <==> z in zone && z.address !in addresses
  {
    if zone != [] {
      StraysIn(zone[1..], addresses, z);
      assert zone == [zone[0]] + zone[1..];
    }
  }

  lemma PlannedDeletes(w: World, worker: string)
    requires WellFormed(w)
    ensures DeletesStrays(w, worker, PlanOf(w, worker).remove)
  {
    var zone, addresses := ZoneRules(w.rules, worker), Addresses(w.inboxes);
    var dels := Strays(zone, addresses);
    StraysAre(w.rules, addresses, worker, zone);
    forall k | 0 <= k < |dels|
      ensures dels[k].ruleId < w.nextId && StrayId(w.rules, dels[k].ruleId, addresses, worker)
    {
      StraysIn(zone, addresses, dels[k]);
      var i :| 0 <= i < |w.rules| && Listed(w.rules[i], worker)
            && dels[k] == ZoneRule(w.rules[i].id.value, Address(w.rules[i]));
      assert forall j :: 0 <= j < |w.rules| && w.rules[j].id == Some(dels[k].ruleId) ==> j == i;
    }
    forall i | 0 <= i < |w.rules| && Stray(w.rules[i], addresses, worker)
      ensures exists k :: 0 <= k < |dels| && w.rules[i].id == Some(dels[k].ruleId)
    {
      var z := ZoneRule(w.rules[i].id.value, Address(w.rules[i]));
      StraysIn(zone, addresses, z);
      var k :| 0 <= k < |dels| && dels[k] == z;
    }
  }

  /** Nothing to do means the zone is reconciled already. */
  lemma EmptyPlanFinal(w: World, worker: string)
    requires WellFormed(w) && !w.catchAll.enabled && IsEmptyPlan(PlanOf(w, worker))
    ensures Final(w, worker) == w
  {
    PlannedDeletes(w, worker);
    NoStrayKept(w.rules, Addresses(w.inboxes), worker);
    assert FinalRules(w, worker) == w.rules;
    IdsWrittenRight(w, worker);
    assert Entries(w, worker) == [];
  }

  lemma RunIsCreating(w: World, worker: string)
    requires WellFormed(w) && RunSteps(w, worker) != []
    ensures Creating(w, worker, Entries(w, worker), PlanOf(w, worker).remove, RunSteps(w, worker))
  {
    IdsWrittenRight(w, worker);
    PlannedDeletes(w, worker);
    var creates, write, dels := CreateSteps(Missing(w, worker)), [WriteIds(Entries(w, worker))],
                                DeleteSteps(PlanOf(w, worker).remove);
    assert creates + write + dels + SwitchSteps(w) == creates + (write + (dels + SwitchSteps(w)));
  }

  /** After any number of steps a run is on its way to the reconciled state; after all of them it is there. */
  lemma RunReaches(w: World, worker: string, k: nat)
    requires WellFormed(w) && k <= |RunSteps(w, worker)|
    ensures Midway(w, Play(w, RunSteps(w, worker)[..k], worker), worker)
    ensures k == |RunSteps(w, worker)| ==> Play(w, RunSteps(w, worker)[..k], worker) == Final(w, worker)
  {
    var steps := RunSteps(w, worker);
    if steps == [] {
      EmptyPlanFinal(w, worker);
    } else {
      RunIsCreating(w, worker);
      PlayCreating(w, worker, Entries(w, worker), PlanOf(w, worker).remove, steps, k);
    }
  }

  lemma RunFinishes(w: World, worker: string)
    requires WellFormed(w)
    ensures Play(w, RunSteps(w, worker), worker) == Final(w, worker)
    ensures WellFormed(Final(w, worker)) && Final(Final(w, worker), worker) == Final(w, worker)
  {
    var steps := RunSteps(w, worker);
    RunReaches(w, worker, |steps|);
    assert steps[..|steps|] == steps;
  }

  /** A run stopped after any step and started again ends where an uninterrupted run does. */
  lemma StoppedRunResumes(w: World, worker: string, k: nat)
    requires WellFormed(w) && k <= |RunSteps(w, worker)|
    ensures var z := Play(w, RunSteps(w, worker)[..k], worker);
      Play(z, RunSteps(z, worker), worker) == Play(w, RunSteps(w, worker), worker)
  {
    RunReaches(w, worker, k);
    RunFinishes(w, worker);
    RunFinishes(Play(w, RunSteps(w, worker)[..k], worker), worker);
  }

  lemma {:induction false} RecordedNothingToAdopt(inboxes: seq<Inbox>, zone: seq<ZoneRule>)
    requires Recorded(inboxes, zone) == inboxes
    ensures Adoptions(inboxes, zone) == []
  {
    if inboxes != [] {
      assert Recorded(inboxes, zone)[0] == inboxes[0];
      assert Recorded(inboxes, zone)[1..] == Recorded(inboxes[1..], zone);
      RecordedNothingToAdopt(inboxes[1..], zone);
    }
  }

  lemma {:induction false} KeptShorter(rules: seq<Rule>, addresses: set<string>, worker: string)
    ensures |Kept(rules, addresses, worker)| <= |rules|
    ensures |Kept(rules, addresses, worker)| == |rules| ==>
      forall i :: 0 <= i < |rules| ==> !Stray(rules[i], addresses, worker)
  {
    if rules != [] {
      KeptShorter(rules[..|rules| - 1], addresses, worker);
    }
  }

  lemma {:induction false} NoneStray(zone: seq<ZoneRule>, addresses: set<string>)
    requires forall z :: z in zone ==> z.address in addresses
    ensures Strays(zone, addresses) == []
  {
    if zone != [] {
      assert forall z :: z in zone[1..] ==> z in zone;
      NoneStray(zone[1..], addresses);
    }
  }

  lemma NoStrayPlanned(rules: seq<Rule>, addresses: set<string>, worker: string)
    requires forall i :: 0 <= i < |rules| ==> !Stray(rules[i], addresses, worker)
    ensures Strays(ZoneRules(rules, worker), addresses) == []
  {
    StraysAre(rules, addresses, worker, ZoneRules(rules, worker));
    NoneStray(ZoneRules(rules, worker), addresses);
  }

  /** Once reconciled, the next plan is empty and the next run does nothing. */
  lemma ReconciledRunIsEmpty(w: World, worker: string)
    requires WellFormed(w)
    ensures RunSteps(Final(w, worker), worker) == []
  {
    var y := Final(w, worker);
    RunFinishes(w, worker);
    assert y.nextId == y.nextId + |Missing(y, worker)|;
    assert FinalRules(y, worker) == Kept(y.rules, Addresses(y.inboxes), worker);
    RecordedNothingToAdopt(y.inboxes, ZoneRules(y.rules, worker));
    KeptShorter(y.rules, Addresses(y.inboxes), worker);
    NoStrayPlanned(y.rules, Addresses(y.inboxes), worker);
  }

  // ---------------------------------------------------------------- delivery along the way

  /** An enabled rule takes the address to the worker. */
  ghost predicate Direct(rules: seq<Rule>, worker: string, address: string) {
    exists i :: 0 <= i < |rules| && rules[i].enabled && Targets(rules[i], worker) && Address(rules[i]) == address
  }

  ghost predicate Reaches(w: World, worker: string, address: string) {
    (w.catchAll.enabled && w.catchAll.toWorker) || Direct(w.rules, worker, address)
  }

  lemma {:induction false} DirectKept(rules: seq<Rule>, addresses: set<string>, worker: string, address: string)
    requires address in addresses
    ensures Direct(Kept(rules, addresses, worker), worker, address) <==> Direct(rules, worker, address)
  {
    if rules != [] {
      var front, last := rules[..|rules| - 1], rules[|rules| - 1];
      DirectKept(front, addresses, worker, address);
      DirectAppend(front, last, worker, address);
      assert rules == front + [last];
      if Stray(last, addresses, worker) {
        assert Kept(rules, addresses, worker) == Kept(front, addresses, worker);
      } else {
        DirectAppend(Kept(front, addresses, worker), last, worker, address);
      }
    }
  }

  lemma DirectAppend(rules: seq<Rule>, rule: Rule, worker: string, address: string)
    ensures Direct(rules + [rule], worker, address) <==>
      Direct(rules, worker, address) || (rule.enabled && Targets(rule, worker) && Address(rule) == address)
  {
    var all := rules + [rule];
    if Direct(rules, worker, address) {
      var i :| 0 <= i < |rules| && rules[i].enabled && Targets(rules[i], worker) && Address(rules[i]) == address;
      assert all[i] == rules[i];
    }
    assert all[|rules|] == rule;
  }

  /** No step takes an address's own rule away. */
  lemma DirectStays(w: World, z: World, worker: string, address: string)
    requires Midway(w, z, worker) && address in Addresses(w.inboxes) && Direct(w.rules, worker, address)
    ensures Direct(z.rules, worker, address)
  {
    var addresses := Addresses(w.inboxes);
    DirectKept(w.rules, addresses, worker, address);
    var kept, later := Kept(w.rules, addresses, worker), Kept(z.rules, addresses, worker);
    var i :| 0 <= i < |kept| && kept[i].enabled && Targets(kept[i], worker) && Address(kept[i]) == address;
    assert later[i] == kept[i];
    DirectKept(z.rules, addresses, worker, address);
  }

  /** The inboxes with an enabled rule in the end: those that had one, and those that had no rule at all. */
  lemma {:induction false} DirectFinal(w: World, worker: string, address: string)
    requires WellFormed(w) && address in Addresses(w.inboxes)
    ensures Direct(FinalRules(w, worker), worker, address) <==>
      Direct(w.rules, worker, address) || RuleAt(ZoneRules(w.rules, worker), address).None?
    decreases |Missing(w, worker)|
  {
    UncoveredIn(w.inboxes, ZoneRules(w.rules, worker), address);
    if Missing(w, worker) == [] {
      DirectKept(w.rules, Addresses(w.inboxes), worker, address);
      assert FinalRules(w, worker) == Kept(w.rules, Addresses(w.inboxes), worker);
    } else {
      var first := Missing(w, worker)[0];
      CreateStep(w, worker);
      CreateKeepsFinal(w, worker);
      NewRuleListed(w.nextId, first, worker);
      CreatedRuleAt(w, worker, address);
      DirectAppend(w.rules, NewRule(w.nextId, first, worker), worker, address);
      DirectFinal(Apply(w, CreateRule(first), worker), worker, address);
    }
  }

  lemma {:induction false} KeptHolds(rules: seq<Rule>, addresses: set<string>, worker: string, rule: Rule)
    ensures rule in Kept(rules, addresses, worker) <==> rule in rules && !Stray(rule, addresses, worker)
  {
    if rules != [] {
      KeptHolds(rules[..|rules| - 1], addresses, worker, rule);
      assert rules == rules[..|rules| - 1] + [rules[|rules| - 1]];
    }
  }

  /** After every step, a rule there at the start is still there unless it is the worker's own and has no inbox. */
  lemma OthersUntouched(w: World, worker: string, rule: Rule, k: nat)
    requires WellFormed(w) && rule in w.rules && k <= |RunSteps(w, worker)|
    requires !(Listed(rule, worker) && Address(rule) !in Addresses(w.inboxes))
    ensures rule in Play(w, RunSteps(w, worker)[..k], worker).rules
  {
    RunReaches(w, worker, k);
    var z := Play(w, RunSteps(w, worker)[..k], worker);
    KeptHolds(w.rules, Addresses(w.inboxes), worker, rule);
    KeptHolds(z.rules, Addresses(z.inboxes), worker, rule);
  }

  /** The catch-all delivers the address now, and its own rules are all disabled. */
  ghost predicate Stranded(w: World, worker: string, address: string) {
    && w.catchAll.enabled && w.catchAll.toWorker
    && RuleAt(ZoneRules(w.rules, worker), address).Some?
    && !Direct(w.rules, worker, address)
  }

  /** An inbox that is reached stays reached after every step, if and only if it is not stranded. */
  lemma ReachedThroughout(w: World, worker: string, address: string)
    requires WellFormed(w) && address in Addresses(w.inboxes) && Reaches(w, worker, address)
    ensures (forall k :: 0 <= k <= |RunSteps(w, worker)| ==>
              Reaches(Play(w, RunSteps(w, worker)[..k], worker), worker, address))
            <==> !Stranded(w, worker, address)
  {
    var steps := RunSteps(w, worker);
    DirectFinal(w, worker, address);
    forall k | 0 <= k <= |steps| && !Stranded(w, worker, address)
      ensures Reaches(Play(w, steps[..k], worker), worker, address)
    {
      RunReaches(w, worker, k);
      if Direct(w.rules, worker, address) {
        DirectStays(w, Play(w, steps[..k], worker), worker, address);
      }
    }
    if Stranded(w, worker, address) {
      RunReaches(w, worker, |steps|);
      assert !Reaches(Play(w, steps[..|steps|], worker), worker, address);
    }
  }

  /** One inbox, its one rule disabled, and the catch-all on. */
  function StrandedWorld(worker: string): World {
    World([Rule(Some(0), false, [Matcher("literal", "to", Some("a"))], [RuleAction("worker", [worker])])],
          CatchAll(true, true), [Inbox("a", Some(0))], 1)
  }

  lemma StrandedShape(worker: string)
    ensures Normalize("a") == "a"
    ensures var rule := StrandedWorld(worker).rules[0]; Address(rule) == "a" && Listed(rule, worker)
  {
    var rule := StrandedWorld(worker).rules[0];
    assert Lower("a") == "a";
    assert RuleAction("worker", [worker]) in rule.actions;
  }

  lemma StrandedIs(worker: string)
    ensures var w := StrandedWorld(worker);
      WellFormed(w) && "a" in Addresses(w.inboxes) && Reaches(w, worker, "a") && Stranded(w, worker, "a")
  {
    var w := StrandedWorld(worker);
    StrandedShape(worker);
    assert Inbox("a", Some(0)) in w.inboxes;
    assert w.rules[..0] == [] && ZoneRules([], worker) == [];
    var zone := ZoneRules(w.rules, worker);
    assert zone == [] + [ZoneRule(0, "a")];
    assert zone[|zone| - 1].address == "a";
  }

  /** There the run that tidies up the zone takes the inbox's mail away. */
  lemma StrandedLosesMail(worker: string)
    ensures var w := StrandedWorld(worker);
      && WellFormed(w) && Reaches(w, worker, "a")
      && !Reaches(Play(w, RunSteps(w, worker), worker), worker, "a")
  {
    var w := StrandedWorld(worker);
    StrandedIs(worker);
    RunFinishes(w, worker);
    DirectFinal(w, worker, "a");
  }
}
