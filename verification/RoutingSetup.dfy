/** The setup step that brings a zone's rules in line, one API call at a time. */
module RoutingSetup {
  import opened Common
  import opened Routing
  import opened RoutingLaws
  import opened RoutingRuns

  datatype Outcome = Skipped | Done(created: nat, adopted: nat, deleted: nat, switched: bool)

  /** Every state on the way through a list of steps. */
  ghost function Trail(w: World, steps: seq<Step>, worker: string): seq<World> {
    seq(|steps| + 1, k requires 0 <= k <= |steps| => Play(w, steps[..k], worker))
  }

  lemma {:induction false} PlayAppend(w: World, steps: seq<Step>, step: Step, worker: string)
    ensures Play(w, steps + [step], worker) == Apply(Play(w, steps, worker), step, worker)
    decreases |steps|
  {
    if steps == [] {
      assert (steps + [step])[1..] == [];
    } else {
      assert (steps + [step])[1..] == steps[1..] + [step];
      PlayAppend(Apply(w, steps[0], worker), steps[1..], step, worker);
    }
  }

  lemma TrailAppend(w: World, steps: seq<Step>, step: Step, worker: string)
    ensures Trail(w, steps + [step], worker)
         == Trail(w, steps, worker) + [Apply(Play(w, steps, worker), step, worker)]
  {
    PlayAppend(w, steps, step, worker);
    forall k | 0 <= k <= |steps|
      ensures (steps + [step])[..k] == steps[..k]
    {
    }
    assert (steps + [step])[..|steps| + 1] == steps + [step];
  }

  /** The zone as the API holds it, the inbox table, and what has been done to them since a run began. */
  class Setup {
    const worker: string
    var rules: seq<Rule>
    var catchAll: CatchAll
    var inboxes: seq<Inbox>
    var nextId: Id
    ghost var performed: seq<Step>
    ghost var trail: seq<World>

    constructor (worker: string, w: World)
      ensures Now() == w && this.worker == worker
    {
      this.worker := worker;
      rules, catchAll, inboxes, nextId := w.rules, w.catchAll, w.inboxes, w.nextId;
    }

    function Now(): World
      reads this
    {
      World(rules, catchAll, inboxes, nextId)
    }

    /** From the start, exactly the recorded steps were performed, through exactly the recorded states. */
    ghost predicate Traced(start: World)
      reads this
    {
      Now() == Play(start, performed, worker) && trail == Trail(start, performed, worker)
    }

    /** Accounts for the step the caller just made from the world before. */
    ghost method Record(start: World, before: World, step: Step)
      requires before == Play(start, performed, worker) && trail == Trail(start, performed, worker)
      requires Now() == Apply(before, step, worker)
      modifies `performed, `trail
      ensures performed == old(performed) + [step] && Traced(start)
    {
      PlayAppend(start, performed, step, worker);
      TrailAppend(start, performed, step, worker);
      performed, trail := performed + [step], trail + [Now()];
    }

    /** Asks for one rule after another, remembering the id the zone gave each. */
    method CreateRules(addresses: seq<string>, ghost start: World) returns (created: seq<Adopted>)
      requires Traced(start)
      modifies this
      ensures Traced(start) && performed == old(performed) + CreateSteps(addresses)
      ensures created == Created(addresses, old(nextId))
      ensures catchAll == old(catchAll) && inboxes == old(inboxes)
    {
      created := [];
      ghost var did := performed;
      var i := 0;
      while i < |addresses|
        invariant i <= |addresses| && nextId == old(nextId) + i
        invariant created == Created(addresses, old(nextId))[..i]
        invariant performed == did + CreateSteps(addresses)[..i] && Traced(start)
        invariant catchAll == old(catchAll) && inboxes == old(inboxes)
      {
        ghost var before := Now();
        created := created + [Adopted(addresses[i], nextId)];
        rules := rules + [NewRule(nextId, addresses[i], worker)];
        nextId := nextId + 1;
        Record(start, before, CreateRule(addresses[i]));
        assert CreateSteps(addresses)[..i + 1] == CreateSteps(addresses)[..i] + [CreateRule(addresses[i])];
        i := i + 1;
      }
      assert CreateSteps(addresses)[..i] == CreateSteps(addresses);
    }

    /** One batch of updates; the entries are applied in order. */
    method WriteRuleIds(entries: seq<Adopted>, ghost start: World)
      requires Traced(start)
      modifies this
      ensures Traced(start) && performed == old(performed) + [WriteIds(entries)]
      ensures catchAll == old(catchAll)
    {
      ghost var before := Now();
      var i := 0;
      while i < |entries|
        invariant i <= |entries|
        invariant AssignAll(inboxes, entries[i..]) == AssignAll(before.inboxes, entries)
        invariant Now() == before.(inboxes := inboxes)
        invariant performed == old(performed) && trail == old(trail)
      {
        assert entries[i..][1..] == entries[i + 1..];
        inboxes := Assign(inboxes, entries[i]);
        i := i + 1;
      }
      Record(start, before, WriteIds(entries));
    }

    /** A rule that is gone already is no error. */
    method RemoveRules(remove: seq<ZoneRule>, ghost start: World)
      requires Traced(start)
      modifies this
      ensures Traced(start) && performed == old(performed) + DeleteSteps(remove)
      ensures catchAll == old(catchAll)
    {
      ghost var did := performed;
      var i := 0;
      while i < |remove|
        invariant i <= |remove|
        invariant performed == did + DeleteSteps(remove)[..i] && Traced(start)
        invariant catchAll == old(catchAll)
      {
        ghost var before := Now();
        rules := WithoutRule(rules, remove[i].ruleId);
        Record(start, before, DeleteRule(remove[i].ruleId));
        assert DeleteSteps(remove)[..i + 1] == DeleteSteps(remove)[..i] + [DeleteRule(remove[i].ruleId)];
        i := i + 1;
      }
      assert DeleteSteps(remove)[..i] == DeleteSteps(remove);
    }

    /** Creates first, the ids next, then the deletions; the catch-all goes last. */
    method CarryOut(plan: Plan, switching: bool, ghost start: World) returns (outcome: Outcome)
      requires Now() == start && performed == [] && Traced(start) && switching == catchAll.enabled
      modifies this
      ensures Traced(start)
      ensures performed == CreateSteps(plan.create) + [WriteIds(Created(plan.create, start.nextId) + plan.adopt)]
                             + DeleteSteps(plan.remove) + SwitchSteps(start)
      ensures outcome == Done(|plan.create|, |plan.adopt|, |plan.remove|, switching)
    {
      var created := CreateRules(plan.create, start);
      WriteRuleIds(created + plan.adopt, start);
      RemoveRules(plan.remove, start);
      if switching {
        ghost var before := Now();
        catchAll := CatchAll(false, false);
        Record(start, before, DisableCatchAll);
      } else {
        assert performed + [] == performed;
      }
      outcome := Done(|created|, |plan.adopt|, |plan.remove|, switching);
    }

    /** A whole run: it performs the planned steps, passes through the worlds between, and ends reconciled. */
    method RunRoutingRules() returns (outcome: Outcome)
      requires WellFormed(Now())
      modifies this
      ensures performed == RunSteps(old(Now()), worker)
      ensures trail == Trail(old(Now()), performed, worker)
      ensures Now() == Final(old(Now()), worker)
      ensures outcome.Skipped? <==> old(Now()) == Final(old(Now()), worker) && !old(catchAll).enabled
    {
      ghost var start := Now();
      performed, trail := [], [start];
      RunFinishes(start, worker);
      SkippedWhenDone(start, worker);
      ReadsEveryRule(rules, 0);
      assert rules[0..] == rules;
      var plan := PlanRouting(inboxes, ZoneRules(ReadRules(rules, 0), worker));
      var switching := catchAll.enabled;
      if !switching && IsEmptyPlan(plan) {
        return Skipped;
      }
      outcome := CarryOut(plan, switching, start);
    }
  }

  lemma SkippedWhenDone(w: World, worker: string)
    requires WellFormed(w)
    ensures !w.catchAll.enabled && IsEmptyPlan(PlanOf(w, worker)) <==> !w.catchAll.enabled && w == Final(w, worker)
  {
    if !w.catchAll.enabled && IsEmptyPlan(PlanOf(w, worker)) {
      EmptyPlanFinal(w, worker);
    }
    if !w.catchAll.enabled && w == Final(w, worker) {
      ReconciledRunIsEmpty(w, worker);
    }
  }
}
