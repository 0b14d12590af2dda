/** Routing reconciliation is safe at every step, converges, and resumes wherever it stopped. */
module RoutingLaws {
  import opened Common
  import opened Routing

  // ---------------------------------------------------------------- where a run ends up

  predicate Stray(rule: Rule, addresses: set<string>, worker: string) {
    Listed(rule, worker) && Address(rule) !in addresses
  }

  /** The rules a run leaves alone: everyone else's, and the worker's own for addresses with an inbox. */
  function Kept(rules: seq<Rule>, addresses: set<string>, worker: string): seq<Rule> {
    if rules == [] then []
    else
      var last := rules[|rules| - 1];
      Kept(rules[..|rules| - 1], addresses, worker) + if Stray(last, addresses, worker) then [] else [last]
  }

  function NewRules(create: seq<string>, nextId: Id, worker: string): seq<Rule> {
    if create == [] then []
    else [NewRule(nextId, create[0], worker)] + NewRules(create[1..], nextId + 1, worker)
  }

  function Missing(w: World, worker: string): seq<string> {
    Uncovered(w.inboxes, ZoneRules(w.rules, worker))
  }

  function FinalRules(w: World, worker: string): seq<Rule> {
    Kept(w.rules, Addresses(w.inboxes), worker) + NewRules(Missing(w, worker), w.nextId, worker)
  }

  /** Every inbox with the id of the rule its address has. */
  function Recorded(inboxes: seq<Inbox>, zone: seq<ZoneRule>): seq<Inbox> {
    seq(|inboxes|, i requires 0 <= i < |inboxes| => inboxes[i].(ruleId := RuleAt(zone, inboxes[i].inboxId)))
  }

  /** The reconciled state, told without any order of steps. */
  function Final(w: World, worker: string): World {
    World(FinalRules(w, worker),
          if w.catchAll.enabled then CatchAll(false, false) else w.catchAll,
          Recorded(w.inboxes, ZoneRules(FinalRules(w, worker), worker)),
          w.nextId + |Missing(w, worker)|)
  }

  ghost predicate DistinctIds(rules: seq<Rule>) {
    forall i, j :: 0 <= i < j < |rules| && rules[i].id.Some? ==> rules[i].id != rules[j].id
  }

  /** Inbox addresses are distinct and already normalized; rule ids are distinct and older than the next one. */
  ghost predicate WellFormed(w: World) {
    && (forall i, j :: 0 <= i < j < |w.inboxes| ==> w.inboxes[i].inboxId != w.inboxes[j].inboxId)
    && (forall i :: 0 <= i < |w.inboxes| ==> Normalize(w.inboxes[i].inboxId) == w.inboxes[i].inboxId != "")
    && DistinctIds(w.rules)
    && (forall i :: 0 <= i < |w.rules| && w.rules[i].id.Some? ==> w.rules[i].id.value < w.nextId)
  }

  // ---------------------------------------------------------------- the zone as a list

  lemma ZoneAppend(rules: seq<Rule>, rule: Rule, worker: string)
    ensures ZoneRules(rules + [rule], worker)
         == ZoneRules(rules, worker) + if Listed(rule, worker) then [ZoneRule(rule.id.value, Address(rule))] else []
  {
    assert (rules + [rule])[..|rules|] == rules;
  }

  lemma NewRuleListed(id: Id, address: string, worker: string)
    requires Normalize(address) == address != ""
    ensures Listed(NewRule(id, address, worker), worker) && Address(NewRule(id, address, worker)) == address
  {
    var rule := NewRule(id, address, worker);
    assert RuleAction("worker", [worker]) in rule.actions;
  }

  lemma RuleAtAppend(zone: seq<ZoneRule>, rule: ZoneRule, address: string)
    ensures RuleAt(zone + [rule], address)
         == if rule.address == address then Some(rule.ruleId) else RuleAt(zone, address)
  {
    assert (zone + [rule])[..|zone|] == zone;
  }

  lemma KeptAppend(rules: seq<Rule>, rule: Rule, addresses: set<string>, worker: string)
    ensures Kept(rules + [rule], addresses, worker)
         == Kept(rules, addresses, worker) + if Stray(rule, addresses, worker) then [] else [rule]
  {
    assert (rules + [rule])[..|rules|] == rules;
  }

  /** Rules kept or not, an inbox address finds the same rule. */
  lemma {:induction false} KeptSameRule(rules: seq<Rule>, addresses: set<string>, worker: string, address: string)
    requires address in addresses
    ensures RuleAt(ZoneRules(Kept(rules, addresses, worker), worker), address)
         == RuleAt(ZoneRules(rules, worker), address)
  {
    if rules != [] {
      var front, last := rules[..|rules| - 1], rules[|rules| - 1];
      assert rules == front + [last];
      KeptSameRule(front, addresses, worker, address);
      ZoneAppend(front, last, worker);
      if Listed(last, worker) {
        RuleAtAppend(ZoneRules(front, worker), ZoneRule(last.id.value, Address(last)), address);
      }
      if !Stray(last, addresses, worker) {
        ZoneAppend(Kept(front, addresses, worker), last, worker);
        if Listed(last, worker) {
          RuleAtAppend(ZoneRules(Kept(front, addresses, worker), worker),
                       ZoneRule(last.id.value, Address(last)), address);
        } else {
          assert ZoneRules(Kept(front, addresses, worker), worker) + []
              == ZoneRules(Kept(front, addresses, worker), worker);
          assert ZoneRules(front, worker) + [] == ZoneRules(front, worker);
        }
      } else {
        assert Kept(rules, addresses, worker) == Kept(front, addresses, worker);
      }
    }
  }

  // ---------------------------------------------------------------- creating one rule

  lemma {:induction false} UncoveredOthers(inboxes: seq<Inbox>, zone: seq<ZoneRule>, rule: ZoneRule)
    requires forall i :: 0 <= i < |inboxes| ==> inboxes[i].inboxId != rule.address
    ensures Uncovered(inboxes, zone + [rule]) == Uncovered(inboxes, zone)
  {
    if inboxes != [] {
      RuleAtAppend(zone, rule, inboxes[0].inboxId);
      UncoveredOthers(inboxes[1..], zone, rule);
    }
  }

  lemma {:induction false} UncoveredFirst(inboxes: seq<Inbox>, zone: seq<ZoneRule>, rule: ZoneRule)
    requires forall i, j :: 0 <= i < j < |inboxes| ==> inboxes[i].inboxId != inboxes[j].inboxId
    requires Uncovered(inboxes, zone) != [] && rule.address == Uncovered(inboxes, zone)[0]
    ensures Uncovered(inboxes, zone + [rule]) == Uncovered(inboxes, zone)[1..]
  {
    RuleAtAppend(zone, rule, inboxes[0].inboxId);
    if RuleAt(zone, inboxes[0].inboxId).None? {
      UncoveredOthers(inboxes[1..], zone, rule);
    } else {
      UncoveredIn(inboxes[1..], zone, rule.address);
      UncoveredFirst(inboxes[1..], zone, rule);
    }
  }

  lemma {:induction false} UncoveredIn(inboxes: seq<Inbox>, zone: seq<ZoneRule>, address: string)
    ensures address in Uncovered(inboxes, zone) <==> address in Addresses(inboxes) && RuleAt(zone, address).None?
  {
    if inboxes != [] {
      UncoveredIn(inboxes[1..], zone, address);
      assert Addresses(inboxes) == {inboxes[0].inboxId} + Addresses(inboxes[1..]);
    }
  }

  lemma CreateStep(w: World, worker: string)
    requires WellFormed(w) && Missing(w, worker) != []
    ensures var address := Missing(w, worker)[0];
      var e := Apply(w, CreateRule(address), worker);
      && Normalize(address) == address != ""
      && Missing(e, worker) == Missing(w, worker)[1..]
      && Kept(e.rules, Addresses(e.inboxes), worker) ==
           Kept(w.rules, Addresses(w.inboxes), worker) + [NewRule(w.nextId, address, worker)]
  {
    var address := Missing(w, worker)[0];
    var zone := ZoneRules(w.rules, worker);
    UncoveredIn(w.inboxes, zone, address);
    var i :| 0 <= i < |w.inboxes| && w.inboxes[i].inboxId == address;
    NewRuleListed(w.nextId, address, worker);
    ZoneAppend(w.rules, NewRule(w.nextId, address, worker), worker);
    UncoveredFirst(w.inboxes, zone, ZoneRule(w.nextId, address));
    KeptAppend(w.rules, NewRule(w.nextId, address, worker), Addresses(w.inboxes), worker);
  }

  lemma CreateKeepsRules(w: World, worker: string)
    requires WellFormed(w) && Missing(w, worker) != []
    ensures FinalRules(Apply(w, CreateRule(Missing(w, worker)[0]), worker), worker) == FinalRules(w, worker)
  {
    var create := Missing(w, worker);
    CreateStep(w, worker);
    var kept, first, rest := Kept(w.rules, Addresses(w.inboxes), worker), NewRule(w.nextId, create[0], worker),
                             NewRules(create[1..], w.nextId + 1, worker);
    assert (kept + [first]) + rest == kept + ([first] + rest);
  }

  lemma CreateKeepsFinal(w: World, worker: string)
    requires WellFormed(w) && Missing(w, worker) != []
    ensures var e := Apply(w, CreateRule(Missing(w, worker)[0]), worker);
      WellFormed(e) && Final(e, worker) == Final(w, worker)
  {
    CreateStep(w, worker);
    CreateKeepsRules(w, worker);
  }

  // ---------------------------------------------------------------- deleting one stray

  /** The rules with this id are all strays. */
  predicate StrayId(rules: seq<Rule>, id: Id, addresses: set<string>, worker: string) {
    forall i :: 0 <= i < |rules| && rules[i].id == Some(id) ==> Stray(rules[i], addresses, worker)
  }

  lemma {:induction false} DeleteKeeps(rules: seq<Rule>, id: Id, addresses: set<string>, worker: string)
    requires StrayId(rules, id, addresses, worker)
    ensures Kept(WithoutRule(rules, id), addresses, worker) == Kept(rules, addresses, worker)
  {
    if rules != [] {
      var front, last := rules[..|rules| - 1], rules[|rules| - 1];
      assert StrayId(front, id, addresses, worker);
      DeleteKeeps(front, id, addresses, worker);
      if last.id != Some(id) {
        KeptAppend(WithoutRule(front, id), last, addresses, worker);
        assert WithoutRule(rules, id) == WithoutRule(front, id) + [last];
      } else {
        assert WithoutRule(rules, id) == WithoutRule(front, id);
        assert Kept(rules, addresses, worker) == Kept(front, addresses, worker);
      }
    }
  }

  lemma SameRuleUncovered(inboxes: seq<Inbox>, zone: seq<ZoneRule>, other: seq<ZoneRule>)
    requires forall i :: 0 <= i < |inboxes| ==> RuleAt(other, inboxes[i].inboxId) == RuleAt(zone, inboxes[i].inboxId)
    ensures Uncovered(inboxes, other) == Uncovered(inboxes, zone)
  {
  }

  lemma {:induction false} WithoutIn(rules: seq<Rule>, id: Id, rule: Rule)
    ensures rule in WithoutRule(rules, id) <==> rule in rules && rule.id != Some(id)
  {
    if rules != [] {
      WithoutIn(rules[..|rules| - 1], id, rule);
      assert rules == rules[..|rules| - 1] + [rules[|rules| - 1]];
    }
  }

  lemma {:induction false} WithoutDistinct(rules: seq<Rule>, id: Id)
    requires DistinctIds(rules)
    ensures DistinctIds(WithoutRule(rules, id))
  {
    if rules != [] {
      var front, last := rules[..|rules| - 1], rules[|rules| - 1];
      WithoutDistinct(front, id);
      var left := WithoutRule(front, id);
      forall i | 0 <= i < |left|
        ensures left[i] in front
      {
        WithoutIn(front, id, left[i]);
      }
    }
  }

  lemma DeleteKeepsShape(w: World, id: Id, worker: string)
    requires WellFormed(w)
    ensures WellFormed(Apply(w, DeleteRule(id), worker))
  {
    var e := Apply(w, DeleteRule(id), worker);
    WithoutDistinct(w.rules, id);
    forall i | 0 <= i < |e.rules|
      ensures e.rules[i] in w.rules
    {
      WithoutIn(w.rules, id, e.rules[i]);
    }
  }

  lemma DeleteKeepsMissing(w: World, id: Id, worker: string)
    requires StrayId(w.rules, id, Addresses(w.inboxes), worker)
    ensures Missing(Apply(w, DeleteRule(id), worker), worker) == Missing(w, worker)
  {
    var e, addresses := Apply(w, DeleteRule(id), worker), Addresses(w.inboxes);
    DeleteKeeps(w.rules, id, addresses, worker);
    forall i | 0 <= i < |w.inboxes|
      ensures RuleAt(ZoneRules(e.rules, worker), w.inboxes[i].inboxId)
           == RuleAt(ZoneRules(w.rules, worker), w.inboxes[i].inboxId)
    {
      assert w.inboxes[i].inboxId in addresses;
      KeptSameRule(w.rules, addresses, worker, w.inboxes[i].inboxId);
      KeptSameRule(e.rules, addresses, worker, w.inboxes[i].inboxId);
    }
    SameRuleUncovered(w.inboxes, ZoneRules(w.rules, worker), ZoneRules(e.rules, worker));
  }

  lemma DeleteKeepsFinal(w: World, id: Id, worker: string)
    requires WellFormed(w) && StrayId(w.rules, id, Addresses(w.inboxes), worker)
    ensures var e := Apply(w, DeleteRule(id), worker);
      && Missing(e, worker) == Missing(w, worker)
      && Kept(e.rules, Addresses(e.inboxes), worker) == Kept(w.rules, Addresses(w.inboxes), worker)
      && WellFormed(e) && Final(e, worker) == Final(w, worker)
  {
    DeleteKeeps(w.rules, id, Addresses(w.inboxes), worker);
    DeleteKeepsMissing(w, id, worker);
    DeleteKeepsShape(w, id, worker);
  }
}
