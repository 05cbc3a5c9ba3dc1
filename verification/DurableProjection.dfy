/** The projection over the durable protocols: whatever records a local database
    sees, of whatever runs of the rule and state protocols, and in whatever order,
    any two databases that saw the same ones agree; and since a deletion leaves a
    tombstoned head, no reconciliation pass loses a monitor. */
module DurableProjection {
  import opened Wrappers
  import opened ObjectStore
  import opened AlertState
  import opened Projection
  import Rules = HeadProtocol
  import States = AlertStateHeads

  /** Reading a rule revision object gives a monitor with its id and revision. */
  ghost predicate Decodes(decode: Rules.Revision -> Monitor) {
    forall b: Rules.Revision | b.entity.Rule? :: decode(b).id == b.entity.id && decode(b).revision == b.revision
  }

  /** `m` is the body that the `k`-th head of its rule names. */
  ghost predicate RuleAt(decode: Rules.Revision -> Monitor, sh: Rules.Shared, k: nat, body: Rules.Revision, m: Monitor) {
    var h := sh.History(Rules.Rule(m.id));
    && k < |h| && !h[k].deleted && h[k].revisionKey.Some?
    && Has(sh.store, h[k].revisionKey.value, Rules.RevisionRecord(body)) && decode(body) == m
  }

  ghost predicate StateAt(sh: States.Shared, id: nat, k: nat, s: State) {
    k < |sh.History(id)| && sh.History(id)[k].proposal.head.state == s
  }

  /** The record is durable, or was the current one at some time before. */
  ghost predicate IsDurable(decode: Rules.Revision -> Monitor, rules: Rules.Shared, states: States.Shared, e: Event) {
    match e
    case RuleEvent(m) => exists k: nat, body :: RuleAt(decode, rules, k, body, m)
    case StateEvent(id, s) => exists k: nat :: StateAt(states, id, k, s)
    case TombstoneEvent(_, _, _) => true
  }

  lemma RuleIsNumbered(decode: Rules.Revision -> Monitor, actions: seq<Rules.Action>, worlds: seq<Rules.World>, i: nat,
                       k: nat, body: Rules.Revision, m: Monitor)
    requires Decodes(decode) && Rules.IsRun(actions, worlds) && i < |worlds| && RuleAt(decode, worlds[i].shared, k, body, m)
    ensures m.revision == k + 1
  {
    Rules.HeadsCountUp(actions, worlds, i, Rules.Rule(m.id));
  }

  lemma RulesArePerRevision(decode: Rules.Revision -> Monitor, actions: seq<Rules.Action>, worlds: seq<Rules.World>, i: nat,
                            m: Monitor, n: Monitor)
    requires Decodes(decode) && Rules.IsRun(actions, worlds) && i < |worlds| && m.id == n.id && m.revision == n.revision
    requires exists k: nat, body :: RuleAt(decode, worlds[i].shared, k, body, m)
    requires exists k: nat, body :: RuleAt(decode, worlds[i].shared, k, body, n)
    ensures m == n
  {
    var k: nat, a :| RuleAt(decode, worlds[i].shared, k, a, m);
    var l: nat, b :| RuleAt(decode, worlds[i].shared, l, b, n);
    RuleIsNumbered(decode, actions, worlds, i, k, a, m);
    RuleIsNumbered(decode, actions, worlds, i, l, b, n);
  }

  lemma StatesArePerSlot(deployment: string, actions: seq<States.Action>, worlds: seq<States.World>, i: nat, id: nat, s: State, t: State)
    requires States.IsRun(deployment, actions, worlds) && i < |worlds|
    requires s.revision == t.revision && s.lastSlot == t.lastSlot
    requires exists k: nat :: StateAt(worlds[i].shared, id, k, s)
    requires exists k: nat :: StateAt(worlds[i].shared, id, k, t)
    ensures s == t
  {
    var k: nat :| StateAt(worlds[i].shared, id, k, s);
    var l: nat :| StateAt(worlds[i].shared, id, l, t);
    States.HeadsFormARun(deployment, actions, worlds, i, id);
    var h := worlds[i].shared.History(id);
    assert States.States(h)[k] == s && States.States(h)[l] == t;
  }

  /** Durable records are one per version. */
  lemma DurableIsOnePerVersion(
    decode: Rules.Revision -> Monitor, deployment: string, events: seq<Event>,
    ruleActions: seq<Rules.Action>, ruleWorlds: seq<Rules.World>, i: nat,
    stateActions: seq<States.Action>, stateWorlds: seq<States.World>, j: nat)
    requires Decodes(decode) && Rules.IsRun(ruleActions, ruleWorlds) && i < |ruleWorlds|
    requires States.IsRun(deployment, stateActions, stateWorlds) && j < |stateWorlds|
    requires forall e | e in events :: IsDurable(decode, ruleWorlds[i].shared, stateWorlds[j].shared, e)
    ensures OneRecordPerVersion(events)
  {
    forall d, e | d in events && e in events && d.RuleEvent? && e.RuleEvent?
      && d.monitor.id == e.monitor.id && d.monitor.revision == e.monitor.revision
      ensures d == e
    {
      RulesArePerRevision(decode, ruleActions, ruleWorlds, i, d.monitor, e.monitor);
    }
    forall d, e | d in events && e in events && d.StateEvent? && e.StateEvent?
      && d.id == e.id && d.state.revision == e.state.revision && d.state.lastSlot == e.state.lastSlot
      ensures d == e
    {
      StatesArePerSlot(deployment, stateActions, stateWorlds, j, d.id, d.state, e.state);
    }
  }

  /** Two databases that saw the same durable records show the same monitors. */
  lemma ReplicasAgree(
    decode: Rules.Revision -> Monitor, deployment: string, events: seq<Event>, others: seq<Event>, id: nat,
    ruleActions: seq<Rules.Action>, ruleWorlds: seq<Rules.World>, i: nat,
    stateActions: seq<States.Action>, stateWorlds: seq<States.World>, j: nat)
    requires Decodes(decode) && Rules.IsRun(ruleActions, ruleWorlds) && i < |ruleWorlds|
    requires States.IsRun(deployment, stateActions, stateWorlds) && j < |stateWorlds|
    requires forall e | e in events :: IsDurable(decode, ruleWorlds[i].shared, stateWorlds[j].shared, e)
    requires forall e :: e in events <==> e in others
    ensures View(FoldAll(events), id) == View(FoldAll(others), id)
  {
    DurableIsOnePerVersion(decode, deployment, events, ruleActions, ruleWorlds, i, stateActions, stateWorlds, j);
    ProjectionIsConfluent(events, others, id);
  }

  /** The heads a projection sees at its world `k` are those of the rule protocol at `at[k]`. */
  ghost predicate Watches(worlds: seq<World>, ruleWorlds: seq<Rules.World>, at: seq<nat>) {
    && |at| == |worlds|
    && (forall k :: 0 <= k < |at| ==> at[k] < |ruleWorlds|)
    && (forall k, l :: 0 <= k <= l < |at| ==> at[k] <= at[l])
    && (forall k, id :: 0 <= k < |worlds| ==>
          (id in worlds[k].heads <==> Rules.DurableHead(ruleWorlds[at[k]].shared, Rules.Rule(id)).Some?))
  }

  lemma HeadsStay(ruleActions: seq<Rules.Action>, ruleWorlds: seq<Rules.World>, i: nat, j: nat, id: nat)
    requires Rules.IsRun(ruleActions, ruleWorlds) && i <= j < |ruleWorlds|
    requires Rules.DurableHead(ruleWorlds[i].shared, Rules.Rule(id)).Some?
    ensures Rules.DurableHead(ruleWorlds[j].shared, Rules.Rule(id)).Some?
  {
    var e := Rules.Rule(id);
    Rules.HeadsCountUp(ruleActions, ruleWorlds, i, e);
    Rules.HeadsCountUp(ruleActions, ruleWorlds, j, e);
    Rules.RunEvolves(ruleActions, ruleWorlds, i, j);
    assert ruleWorlds[i].shared.History(e) <= ruleWorlds[j].shared.History(e);
  }

  /** Over any run of the rule protocol, deletions included, and any interleaving of
      local folds with a reconciliation pass, the pass removes no row. */
  lemma PassKeepsEveryMonitor(
    actions: seq<Action>, worlds: seq<World>, b: nat, i: nat,
    ruleActions: seq<Rules.Action>, ruleWorlds: seq<Rules.World>, at: seq<nat>)
    requires IsRun(actions, worlds) && PassBegan(actions, worlds, b, i) && i < |actions| && actions[i].Prune?
    requires Rules.IsRun(ruleActions, ruleWorlds) && Watches(worlds, ruleWorlds, at)
    requires worlds[0].tables.monitors.Keys <= worlds[0].heads
    ensures worlds[i + 1].tables.monitors == worlds[i].tables.monitors
  {
    forall k | 0 <= k < |actions| ensures worlds[k].heads <= worlds[k + 1].heads {
      forall id | id in worlds[k].heads ensures id in worlds[k + 1].heads {
        HeadsStay(ruleActions, ruleWorlds, at[k], at[k + 1], id);
      }
    }
    DurableMonitorsAreKept(actions, worlds, b, i);
  }
}
