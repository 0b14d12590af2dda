/** Reconciling a zone's Email Routing rules with the deployment's inboxes. */
module Routing {
  import opened Common
  import opened Text

  type Id = nat

  datatype Matcher = Matcher(kind: string, field: string, value: Option<string>)

  datatype RuleAction = RuleAction(kind: string, workers: seq<string>)

  /** A rule as the API lists it; id is its tag, or its id when it has no tag. */
  datatype Rule = Rule(id: Option<Id>, enabled: bool, matchers: seq<Matcher>, actions: seq<RuleAction>)

  datatype CatchAll = CatchAll(enabled: bool, toWorker: bool)

  datatype Inbox = Inbox(inboxId: string, ruleId: Option<Id>)

  datatype World = World(rules: seq<Rule>, catchAll: CatchAll, inboxes: seq<Inbox>, nextId: Id)

  datatype ZoneRule = ZoneRule(ruleId: Id, address: string)

  datatype Adopted = Adopted(inboxId: string, ruleId: Id)

  datatype Plan = Plan(create: seq<string>, adopt: seq<Adopted>, remove: seq<ZoneRule>)

  const RULES_PER_PAGE: nat := 50

  // ---------------------------------------------------------------- reading the zone

  /** Rules are listed a page at a time until a page comes back short. */
  function ReadRules(rules: seq<Rule>, page: nat): seq<Rule>
    decreases |rules| - page * RULES_PER_PAGE
  {
    var start := page * RULES_PER_PAGE;
    if |rules| < start + RULES_PER_PAGE then
      if |rules| <= start then [] else rules[start..]
    else rules[start..start + RULES_PER_PAGE] + ReadRules(rules, page + 1)
  }

  lemma {:induction false} ReadsEveryRule(rules: seq<Rule>, page: nat)
    requires page * RULES_PER_PAGE <= |rules|
    ensures ReadRules(rules, page) == rules[page * RULES_PER_PAGE..]
    decreases |rules| - page * RULES_PER_PAGE
  {
    var start := page * RULES_PER_PAGE;
    if |rules| >= start + RULES_PER_PAGE {
      ReadsEveryRule(rules, page + 1);
      assert rules[start..] == rules[start..start + RULES_PER_PAGE] + rules[start + RULES_PER_PAGE..];
    }
  }

  function Normalize(s: string): string {
    Lower(Trimmed(s))
  }

  function FirstTo(matchers: seq<Matcher>): string {
    if matchers == [] then ""
    else if matchers[0].kind == "literal" && matchers[0].field == "to" then
      if matchers[0].value.Some? then matchers[0].value.value else ""
    else FirstTo(matchers[1..])
  }

  function Address(rule: Rule): string {
    Normalize(FirstTo(rule.matchers))
  }

  predicate Targets(rule: Rule, worker: string) {
    exists a :: a in rule.actions && a.kind == "worker" && worker in a.workers
  }

  predicate Listed(rule: Rule, worker: string) {
    Targets(rule, worker) && rule.id.Some? && Address(rule) != ""
  }

  /** The worker's own rules, in the order the zone lists them. */
  function ZoneRules(rules: seq<Rule>, worker: string): seq<ZoneRule> {
    if rules == [] then []
    else
      var last := rules[|rules| - 1];
      ZoneRules(rules[..|rules| - 1], worker)
        + if Listed(last, worker) then [ZoneRule(last.id.value, Address(last))] else []
  }

  // ---------------------------------------------------------------- planning

  /** The rule a map built from the list ends up holding for an address: the last one. */
  function RuleAt(zone: seq<ZoneRule>, address: string): Option<Id> {
    if zone == [] then None
    else if zone[|zone| - 1].address == address then Some(zone[|zone| - 1].ruleId)
    else RuleAt(zone[..|zone| - 1], address)
  }

  function Addresses(inboxes: seq<Inbox>): set<string> {
    set i | i in inboxes :: i.inboxId
  }

  function Uncovered(inboxes: seq<Inbox>, zone: seq<ZoneRule>): seq<string> {
    if inboxes == [] then []
    else
      (if RuleAt(zone, inboxes[0].inboxId).None? then [inboxes[0].inboxId] else []) + Uncovered(inboxes[1..], zone)
  }

  function Adoptions(inboxes: seq<Inbox>, zone: seq<ZoneRule>): seq<Adopted> {
    if inboxes == [] then []
    else
      var rule := RuleAt(zone, inboxes[0].inboxId);
      (if rule.Some? && inboxes[0].ruleId != rule then [Adopted(inboxes[0].inboxId, rule.value)] else [])
        + Adoptions(inboxes[1..], zone)
  }

  function Strays(zone: seq<ZoneRule>, addresses: set<string>): seq<ZoneRule> {
    if zone == [] then []
    else
      (if zone[0].address !in addresses then [zone[0]] else []) + Strays(zone[1..], addresses)
  }

  function PlanRouting(inboxes: seq<Inbox>, zone: seq<ZoneRule>): Plan {
    Plan(Uncovered(inboxes, zone), Adoptions(inboxes, zone), Strays(zone, Addresses(inboxes)))
  }

  predicate IsEmptyPlan(plan: Plan) {
    plan.create == [] && plan.adopt == [] && plan.remove == []
  }

  // ---------------------------------------------------------------- steps

  datatype Step =
    | CreateRule(address: string)
    | WriteIds(entries: seq<Adopted>)
    | DeleteRule(id: Id)
    | DisableCatchAll

  function NewRule(id: Id, address: string, worker: string): Rule {
    Rule(Some(id), true, [Matcher("literal", "to", Some(address))], [RuleAction("worker", [worker])])
  }

  function WithoutRule(rules: seq<Rule>, id: Id): seq<Rule> {
    if rules == [] then []
    else
      var last := rules[|rules| - 1];
      WithoutRule(rules[..|rules| - 1], id) + if last.id == Some(id) then [] else [last]
  }

  function Assign(inboxes: seq<Inbox>, entry: Adopted): seq<Inbox> {
    seq(|inboxes|, i requires 0 <= i < |inboxes| =>
      if inboxes[i].inboxId == entry.inboxId then inboxes[i].(ruleId := Some(entry.ruleId)) else inboxes[i])
  }

  function AssignAll(inboxes: seq<Inbox>, entries: seq<Adopted>): seq<Inbox>
    decreases |entries|
  {
    if entries == [] then inboxes else AssignAll(Assign(inboxes, entries[0]), entries[1..])
  }

  function Apply(w: World, step: Step, worker: string): World {
    match step
    case CreateRule(address) =>
      w.(rules := w.rules + [NewRule(w.nextId, address, worker)], nextId := w.nextId + 1)
    case WriteIds(entries) => w.(inboxes := AssignAll(w.inboxes, entries))
    case DeleteRule(id) => w.(rules := WithoutRule(w.rules, id))
    case DisableCatchAll => w.(catchAll := CatchAll(false, false))
  }

  function Created(create: seq<string>, nextId: Id): seq<Adopted> {
    seq(|create|, i requires 0 <= i < |create| => Adopted(create[i], nextId + i))
  }

  function CreateSteps(create: seq<string>): seq<Step> {
    seq(|create|, i requires 0 <= i < |create| => CreateRule(create[i]))
  }

  function DeleteSteps(remove: seq<ZoneRule>): seq<Step> {
    seq(|remove|, i requires 0 <= i < |remove| => DeleteRule(remove[i].ruleId))
  }

  function SwitchSteps(w: World): seq<Step> {
    if w.catchAll.enabled then [DisableCatchAll] else []
  }

  function PlanOf(w: World, worker: string): Plan {
    PlanRouting(w.inboxes, ZoneRules(w.rules, worker))
  }

  /** What one run does: creates, one id write, deletes, then the catch-all; nothing when all is in place. */
  function RunSteps(w: World, worker: string): seq<Step> {
    var plan := PlanOf(w, worker);
    if !w.catchAll.enabled && IsEmptyPlan(plan) then []
    else
      CreateSteps(plan.create) + [WriteIds(Created(plan.create, w.nextId) + plan.adopt)]
        + DeleteSteps(plan.remove) + SwitchSteps(w)
  }

  function Play(w: World, steps: seq<Step>, worker: string): World
    decreases |steps|
  {
    if steps == [] then w else Play(Apply(w, steps[0], worker), steps[1..], worker)
  }
}
