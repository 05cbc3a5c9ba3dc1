/** Committing alert state (crates/alert/src/records.rs:133-286,
    crates/alert/src/store.rs:388-449, crates/scry-alertd/src/evaluator.rs:211-333).

    Any number of evaluators work on any number of monitors.  Each reads the
    state head, folds one observation into it, writes an immutable transition
    record if the status changed, and compare-and-swaps the head.  An evaluator
    may stop between any two store operations, and a write may take effect and
    still be reported as failed.  The lease and the two rule-revision checks the
    evaluator makes only rule out runs, so they are not part of the model.

    SHA-256 is modelled as an injective function: a digest is the record it digests. */
module AlertStateHeads {
  import opened Wrappers
  import opened ObjectStore
  import opened AlertState
  import AlertRuns

  type Step = AlertRuns.Step

  const SCHEMA_VERSION: nat := 2

  datatype Key =
    | StateKey(monitor: nat)
    | TransitionKey(monitor: nat, sequence: nat, revision: nat, slot: nat, status: Status)

  datatype Transition = Transition(
    schemaVersion: nat,
    deployment: string,
    monitor: nat,
    revision: nat,
    slot: nat,
    evaluatedAt: nat,
    observation: Observation,
    previousStatus: Option<Status>,
    resumed: bool,
    state: State,
    previousKey: Option<Key>)
  {
    function Reference(): TransitionRef {
      TransitionRef(state.sequence, revision, slot, state.status, Sha256(this))
    }
  }

  datatype Digest = Sha256(of: Transition)

  /** Identity and digest of a transition; the object key is derived from it. */
  datatype TransitionRef = TransitionRef(sequence: nat, revision: nat, slot: nat, status: Status, digest: Digest)
  {
    function Key(monitor: nat): Key {
      TransitionKey(monitor, sequence, revision, slot, status)
    }
  }

  datatype StateHead = StateHead(
    schemaVersion: nat,
    deployment: string,
    monitor: nat,
    state: State,
    latest: TransitionRef,
    updatedAt: nat)
  {
    /** The structural checks of `StateHead::validate`. */
    predicate Valid(expectedDeployment: string, expectedMonitor: nat) {
      && schemaVersion == SCHEMA_VERSION
      && deployment == expectedDeployment && monitor == expectedMonitor
      && latest.sequence != 0 && latest.sequence == state.sequence && latest.status == state.status
      && !Before(state.revision, state.lastSlot, latest.revision, latest.slot)
    }

    /** `record` is exactly the transition this head references. */
    predicate Verifies(record: Transition) {
      && record.schemaVersion == SCHEMA_VERSION
      && record.deployment == deployment
      && record.monitor == monitor
      && record.revision == record.state.revision
      && record.slot == record.state.lastSlot
      && record.Reference() == latest
    }
  }

  datatype Record = HeadRecord(head: StateHead) | TransitionRecord(transition: Transition)

  /** What an evaluator offers to commit. */
  datatype Proposal = Proposal(head: StateHead, transition: Option<Transition>)

  /** The head and transition an evaluator builds for `step` on top of `prior`:
      a transition exactly when the status changed, otherwise the prior
      reference is kept.  A first state that is no transition is an error. */
  function Propose(deployment: string, prior: Option<StateHead>, step: Step): Option<Proposal> {
    var m := step.monitor;
    var priorState := if prior.Some? then Some(prior.value.state) else None;
    var (next, change) := Evaluate(m, priorState, step.observation, step.slot, step.now);
    if change.transitioned then
      var previousKey := if prior.Some? then Some(prior.value.latest.Key(m.id)) else None;
      var t := Transition(SCHEMA_VERSION, deployment, m.id, m.revision, step.slot, step.now, step.observation,
                          change.previous, change.resumed, next, previousKey);
      Some(Proposal(StateHead(SCHEMA_VERSION, deployment, m.id, next, t.Reference(), step.now), Some(t)))
    else if prior.Some? then
      Some(Proposal(StateHead(SCHEMA_VERSION, deployment, m.id, next, prior.value.latest, step.now), None))
    else
      None
  }

  /** `commit_state` accepts the proposal before it writes anything. */
  predicate Acceptable(p: Proposal) {
    && p.head.Valid(p.head.deployment, p.head.monitor)
    && (p.transition.Some? ==> p.head.Verifies(p.transition.value))
  }

  /** A head that was read, with its version tag. */
  datatype ReadHead = ReadHead(head: StateHead, tag: Tag)

  datatype Process =
    | Idle
    | Publishing(job: Job)
    | CheckingTransition(job: Job)
    | Swapping(job: Job)
    | Resolving(job: Job)
    | Succeeded(job: Job)
    | Refused

  /** One evaluation in progress; `since` is the length of the head history when it read the head. */
  datatype Job = Job(step: Step, prior: Option<ReadHead>, proposal: Proposal, since: nat)
  {
    function Monitor(): nat {
      step.monitor.id
    }
  }

  /** A head that became current, and the evaluation that produced it. */
  datatype Commit = Commit(step: Step, proposal: Proposal)

  datatype Shared = Shared(store: Store<Key, Record>, history: map<nat, seq<Commit>>, chain: map<nat, seq<Transition>>)
  {
    function History(id: nat): seq<Commit> {
      if id in history then history[id] else []
    }

    /** The committed transitions of a monitor, oldest first. */
    function Chain(id: nat): seq<Transition> {
      if id in chain then chain[id] else []
    }
  }

  datatype World = World(shared: Shared, processes: map<nat, Process>)
  {
    function At(p: nat): Process {
      if p in processes then processes[p] else Idle
    }
  }

  // ---------------------------------------------------------------- actions

  datatype Action =
    | Read(p: nat, step: Step)
    | Stop(p: nat)
    | PutTransition(p: nat, commits: bool, tag: Tag, report: Report)
    | CheckTransition(p: nat)
    | Swap(p: nat, commits: bool, tag: Tag, report: Report)
    | Resolve(p: nat)

  function CurrentHead(sh: Shared, id: nat): Option<ReadHead> {
    var k := StateKey(id);
    if k in sh.store.objects && sh.store.objects[k].record.HeadRecord?
    then Some(ReadHead(sh.store.objects[k].record.head, sh.store.objects[k].tag))
    else None
  }

  function HeadOf(prior: Option<ReadHead>): Option<StateHead> {
    if prior.Some? then Some(prior.value.head) else None
  }

  function StateOf(prior: Option<StateHead>): Option<State> {
    if prior.Some? then Some(prior.value.state) else None
  }

  predicate MaySwap(sh: Shared, j: Job, tag: Tag) {
    var k, r := StateKey(j.Monitor()), HeadRecord(j.proposal.head);
    match j.prior
    case None => MayCreate(sh.store, k, r, tag)
    case Some(read) => MayReplace(sh.store, k, r, read.tag, tag)
  }

  function TransitionAt(j: Job): (Key, Record)
    requires j.proposal.transition.Some?
  {
    (j.proposal.head.latest.Key(j.Monitor()), TransitionRecord(j.proposal.transition.value))
  }

  predicate Enabled(w: World, a: Action) {
    var sh := w.shared;
    match a
    case Read(_, _) => true
    case Stop(_) => true
    case PutTransition(p, commits, tag, report) =>
      && w.At(p).Publishing? && w.At(p).job.proposal.transition.Some?
      && (commits ==> MayCreate(sh.store, TransitionAt(w.At(p).job).0, TransitionAt(w.At(p).job).1, tag))
      && (report.Acknowledged? ==> commits)
    case CheckTransition(p) => w.At(p).CheckingTransition? && w.At(p).job.proposal.transition.Some?
    case Swap(p, commits, tag, report) =>
      && w.At(p).Swapping?
      && (commits ==> MaySwap(sh, w.At(p).job, tag))
      && (report.Acknowledged? ==> commits)
    case Resolve(p) => w.At(p).Resolving?
  }

  /** Read the head and compute: stop if the slot is covered, otherwise publish
      the transition if there is one, else go straight to the swap. */
  function AfterRead(deployment: string, sh: Shared, step: Step): Process {
    var id := step.monitor.id;
    var prior := CurrentHead(sh, id);
    if !AlertRuns.Uncovered(StateOf(HeadOf(prior)), step) then
      Refused
    else
      match Propose(deployment, HeadOf(prior), step)
      case None => Refused
      case Some(proposal) =>
        var job := Job(step, prior, proposal, |sh.History(id)|);
        if !Acceptable(proposal) then Refused
        else if proposal.transition.Some? then Publishing(job)
        else Swapping(job)
  }

  function AfterReport(report: Report, done: Process, resolve: Process): Process {
    match report
    case Acknowledged => done
    case Ambiguous => resolve
    case Broken => Idle
  }

  function Advance(sh: Shared, j: Job, tag: Tag): Shared
    requires TagAllowed(sh.store, StateKey(j.Monitor()), HeadRecord(j.proposal.head), tag)
  {
    var id := j.Monitor();
    Shared(Write(sh.store, StateKey(id), HeadRecord(j.proposal.head), tag),
           sh.history[id := sh.History(id) + [Commit(j.step, j.proposal)]],
           if j.proposal.transition.Some? then sh.chain[id := sh.Chain(id) + [j.proposal.transition.value]] else sh.chain)
  }

  function NextShared(w: World, a: Action): Shared
    requires Enabled(w, a)
  {
    var sh := w.shared;
    match a
    case PutTransition(p, commits, tag, _) =>
      var (k, r) := TransitionAt(w.At(p).job);
      if commits then sh.(store := Write(sh.store, k, r, tag)) else sh
    case Swap(p, commits, tag, _) =>
      if commits then Advance(sh, w.At(p).job, tag) else sh
    case _ => sh
  }

  function NextProcess(deployment: string, w: World, a: Action): Process
    requires Enabled(w, a)
  {
    var sh := w.shared;
    match a
    case Read(_, step) => AfterRead(deployment, sh, step)
    case Stop(_) => Idle
    case PutTransition(p, _, _, report) =>
      AfterReport(report, Swapping(w.At(p).job), CheckingTransition(w.At(p).job))
    case CheckTransition(p) =>
      var (k, r) := TransitionAt(w.At(p).job);
      if Has(sh.store, k, r) then Swapping(w.At(p).job) else Refused
    case Swap(p, _, _, report) =>
      AfterReport(report, Succeeded(w.At(p).job), Resolving(w.At(p).job))
    case Resolve(p) =>
      var j := w.At(p).job;
      if Has(sh.store, StateKey(j.Monitor()), HeadRecord(j.proposal.head)) then Succeeded(j) else Refused
  }

  function Next(deployment: string, w: World, a: Action): World
    requires Enabled(w, a)
  {
    World(NextShared(w, a), w.processes[a.p := NextProcess(deployment, w, a)])
  }

  function InitialWorld(): World {
    World(Shared(Store(map[], map[]), map[], map[]), map[])
  }

  /** `worlds` is a run of evaluators of one deployment on an empty store. */
  predicate IsRun(deployment: string, actions: seq<Action>, worlds: seq<World>) {
    && |worlds| == |actions| + 1
    && worlds[0] == InitialWorld()
    && forall i :: 0 <= i < |actions| ==>
         Enabled(worlds[i], actions[i]) && worlds[i + 1] == Next(deployment, worlds[i], actions[i])
  }

  // ---------------------------------------------------------------- the invariant

  function PriorHead(h: seq<Commit>, i: nat): Option<StateHead>
    requires i <= |h|
  {
    if i == 0 then None else Some(h[i - 1].proposal.head)
  }

  /** Commit `i` is an uncovered evaluation of monitor `id` on top of the head before it. */
  predicate CommitFollows(deployment: string, id: nat, h: seq<Commit>, i: nat)
    requires i < |h|
  {
    && h[i].step.monitor.id == id
    && AlertRuns.Uncovered(StateOf(PriorHead(h, i)), h[i].step)
    && Propose(deployment, PriorHead(h, i), h[i].step) == Some(h[i].proposal)
    && Acceptable(h[i].proposal)
  }

  /** Transition `k` has sequence `k + 1` and links to the one before it. */
  predicate ChainLinked(id: nat, ch: seq<Transition>, k: nat)
    requires k < |ch|
  {
    && ch[k].state.sequence == k + 1
    && ch[k].previousKey == (if k == 0 then None else Some(ch[k - 1].Reference().Key(id)))
  }

  predicate HistoryFollows(deployment: string, id: nat, h: seq<Commit>) {
    forall i: nat :: i < |h| ==> CommitFollows(deployment, id, h, i)
  }

  predicate LinkStored(store: Store<Key, Record>, id: nat, ch: seq<Transition>, k: nat)
    requires k < |ch|
  {
    ChainLinked(id, ch, k) && Has(store, ch[k].Reference().Key(id), TransitionRecord(ch[k]))
  }

  /** Every committed transition is linked and durable under its key. */
  predicate ChainStored(store: Store<Key, Record>, id: nat, ch: seq<Transition>) {
    forall k: nat :: k < |ch| ==> LinkStored(store, id, ch, k)
  }

  /** The store holds the newest head, which references the newest transition. */
  predicate HeadIsNewest(store: Store<Key, Record>, id: nat, h: seq<Commit>, ch: seq<Transition>) {
    if h == [] then StateKey(id) !in store.objects && ch == []
    else
      var last := h[|h| - 1].proposal.head;
      && Has(store, StateKey(id), HeadRecord(last))
      && |ch| > 0 && last.latest == ch[|ch| - 1].Reference() && last.Verifies(ch[|ch| - 1])
  }

  predicate MonitorInv(deployment: string, sh: Shared, id: nat) {
    && HistoryFollows(deployment, id, sh.History(id))
    && ChainStored(sh.store, id, sh.Chain(id))
    && HeadIsNewest(sh.store, id, sh.History(id), sh.Chain(id))
  }

  ghost predicate SharedInv(deployment: string, sh: Shared) {
    && TagsNameRecords(sh.store)
    && forall id :: MonitorInv(deployment, sh, id)
  }

  /** What a job relies on: the head it read is what its tag names, and its
      proposal is computed from that head. */
  predicate JobInv(deployment: string, sh: Shared, j: Job) {
    var id := j.Monitor();
    && j.since <= |sh.History(id)|
    && (j.prior.Some? ==>
          && (StateKey(id), j.prior.value.tag) in sh.store.named
          && sh.store.named[(StateKey(id), j.prior.value.tag)] == HeadRecord(j.prior.value.head))
    && AlertRuns.Uncovered(StateOf(HeadOf(j.prior)), j.step)
    && Propose(deployment, HeadOf(j.prior), j.step) == Some(j.proposal)
    && Acceptable(j.proposal)
  }

  predicate ProcessInv(deployment: string, sh: Shared, p: Process) {
    !p.Idle? && !p.Refused? ==>
      var j, h := p.job, sh.History(p.job.Monitor());
      && JobInv(deployment, sh, j)
      && ((p.Swapping? || p.Resolving?) && j.proposal.transition.Some? ==> Has(sh.store, TransitionAt(j).0, TransitionAt(j).1))
      && (p.Succeeded? ==> exists i :: j.since as int - 1 <= i < |h| && 0 <= i && h[i].proposal.head == j.proposal.head)
  }

  ghost predicate Inv(deployment: string, w: World) {
    SharedInv(deployment, w.shared) && forall p :: ProcessInv(deployment, w.shared, w.At(p))
  }

  /** How the shared state may change under an evaluator's feet. */
  ghost predicate Evolves(a: Shared, b: Shared) {
    && (forall id :: a.History(id) <= b.History(id) && a.Chain(id) <= b.Chain(id))
    && (forall k :: k in a.store.objects && k.TransitionKey? ==> Has(b.store, k, a.store.objects[k].record))
    && (forall kt :: kt in a.store.named ==> kt in b.store.named && b.store.named[kt] == a.store.named[kt])
  }

  // ---------------------------------------------------------------- preservation

  lemma ProcessIsStable(deployment: string, a: Shared, b: Shared, p: Process)
    requires ProcessInv(deployment, a, p) && Evolves(a, b)
    ensures ProcessInv(deployment, b, p)
  {
  }

  lemma MonitorIsStable(deployment: string, a: Shared, b: Shared, id: nat)
    requires MonitorInv(deployment, a, id) && Evolves(a, b)
    requires a.History(id) == b.History(id) && a.Chain(id) == b.Chain(id)
    requires StateKey(id) in b.store.objects <==> StateKey(id) in a.store.objects
    requires StateKey(id) in a.store.objects ==> b.store.objects[StateKey(id)] == a.store.objects[StateKey(id)]
    ensures MonitorInv(deployment, b, id)
  {
    forall k: nat | k < |a.Chain(id)| ensures LinkStored(b.store, id, a.Chain(id), k) {
      assert LinkStored(a.store, id, a.Chain(id), k);
    }
  }

  /** A swap that takes effect replaces exactly the head its evaluator read. */
  lemma SwapReplacesPrior(deployment: string, sh: Shared, j: Job, tag: Tag)
    requires SharedInv(deployment, sh) && JobInv(deployment, sh, j) && MaySwap(sh, j, tag)
    ensures HeadOf(j.prior) == PriorHead(sh.History(j.Monitor()), |sh.History(j.Monitor())|)
  {
    assert MonitorInv(deployment, sh, j.Monitor());
  }

  /** The next sequence number and link of the chain come from the head replaced. */
  lemma ProposalExtendsChain(deployment: string, prior: Option<StateHead>, step: Step)
    requires AlertRuns.Uncovered(StateOf(prior), step)
    requires Propose(deployment, prior, step).Some?
    ensures var p := Propose(deployment, prior, step).value;
      && p.head.monitor == step.monitor.id && p.head.deployment == deployment
      && p.head.state.sequence == (if prior.Some? then prior.value.state.sequence else 0) + (if p.transition.Some? then 1 else 0)
      && (p.transition.Some? ==>
            && p.transition.value.state == p.head.state
            && p.transition.value.Reference() == p.head.latest
            && p.transition.value.previousKey == (if prior.Some? then Some(prior.value.latest.Key(step.monitor.id)) else None))
      && (p.transition.None? ==> prior.Some? && p.head.latest == prior.value.latest)
  {
  }

  /** The two transitions are of one evaluation: the same rule revision and slot of one
      monitor, leading to the same status under the same sequence number. */
  predicate SameEvent(id: nat, a: Transition, id': nat, b: Transition) {
    id == id' && a.state.sequence == b.state.sequence && a.revision == b.revision && a.slot == b.slot && a.state.status == b.state.status
  }

  lemma KeysAreShared(id: nat, a: Transition, id': nat, b: Transition)
    ensures a.Reference().Key(id) == b.Reference().Key(id') <==> SameEvent(id, a, id', b)
  {
  }

  /** A proposal carries a transition exactly when the status changes.  The record tells
      the evaluation, the status before it, and whether an outage ends with the status
      it interrupted. */
  lemma ProposalTellsTheChange(deployment: string, prior: Option<StateHead>, step: Step)
    requires AlertRuns.Uncovered(StateOf(prior), step)
    requires Propose(deployment, prior, step).Some?
    ensures var p := Propose(deployment, prior, step).value;
      var before := if prior.Some? then Some(prior.value.state.status) else None;
      && p.head.updatedAt == step.now
      && (p.transition.Some? <==> before != Some(p.head.state.status))
      && (p.transition.Some? ==>
            var t := p.transition.value;
            && t.deployment == deployment && t.monitor == step.monitor.id
            && t.revision == step.monitor.revision && t.slot == step.slot
            && t.evaluatedAt == step.now && t.observation == step.observation
            && t.previousStatus == before
            && (t.resumed <==> prior.Some? && AlertRuns.Interrupts(prior.value.state, t.state.status)))
  {
  }

  /** Every proposal on top of a valid head passes the checks of `commit_state`. */
  lemma ProposalIsAcceptable(deployment: string, prior: Option<StateHead>, step: Step)
    requires AlertRuns.Uncovered(StateOf(prior), step)
    requires prior.Some? ==> prior.value.Valid(deployment, step.monitor.id)
    ensures Propose(deployment, prior, step).Some? && Acceptable(Propose(deployment, prior, step).value)
  {
  }

  lemma PublishingKeepsInv(deployment: string, sh: Shared, k: Key, r: Record, tag: Tag)
    requires SharedInv(deployment, sh) && k.TransitionKey? && MayCreate(sh.store, k, r, tag)
    ensures var sh' := sh.(store := Write(sh.store, k, r, tag)); SharedInv(deployment, sh') && Evolves(sh, sh')
  {
    var sh' := sh.(store := Write(sh.store, k, r, tag));
    assert Evolves(sh, sh');
    forall id ensures MonitorInv(deployment, sh', id) {
      assert MonitorInv(deployment, sh, id);
      MonitorIsStable(deployment, sh, sh', id);
    }
  }

  lemma AppendKeepsCommits(deployment: string, id: nat, h: seq<Commit>, c: Commit)
    requires HistoryFollows(deployment, id, h)
    requires CommitFollows(deployment, id, h + [c], |h|)
    ensures HistoryFollows(deployment, id, h + [c])
  {
    forall i: nat | i < |h + [c]| ensures CommitFollows(deployment, id, h + [c], i) {
      if i < |h| {
        assert CommitFollows(deployment, id, h, i);
        assert PriorHead(h + [c], i) == PriorHead(h, i) && (h + [c])[i] == h[i];
      }
    }
  }

  lemma AppendKeepsChain(store: Store<Key, Record>, id: nat, ch: seq<Transition>, t: Transition)
    requires ChainStored(store, id, ch)
    requires ChainLinked(id, ch + [t], |ch|) && Has(store, t.Reference().Key(id), TransitionRecord(t))
    ensures ChainStored(store, id, ch + [t])
  {
    var ch' := ch + [t];
    forall k: nat | k < |ch'| ensures LinkStored(store, id, ch', k) {
      if k < |ch| {
        assert LinkStored(store, id, ch, k);
      }
    }
  }

  /** The new head's transition has the next sequence number and links to the last one. */
  lemma ProposalLinks(deployment: string, sh: Shared, j: Job)
    requires MonitorInv(deployment, sh, j.Monitor()) && JobInv(deployment, sh, j)
    requires HeadOf(j.prior) == PriorHead(sh.History(j.Monitor()), |sh.History(j.Monitor())|)
    requires j.proposal.transition.Some?
    ensures ChainLinked(j.Monitor(), sh.Chain(j.Monitor()) + [j.proposal.transition.value], |sh.Chain(j.Monitor())|)
  {
    var id := j.Monitor();
    var h, ch := sh.History(id), sh.Chain(id);
    ProposalExtendsChain(deployment, HeadOf(j.prior), j.step);
    if h != [] {
      assert CommitFollows(deployment, id, h, |h| - 1);
      assert LinkStored(sh.store, id, ch, |ch| - 1);
    }
  }

  lemma AdvanceKeepsMonitor(deployment: string, sh: Shared, j: Job, tag: Tag)
    requires TagAllowed(sh.store, StateKey(j.Monitor()), HeadRecord(j.proposal.head), tag)
    requires MonitorInv(deployment, sh, j.Monitor()) && JobInv(deployment, sh, j)
    requires HeadOf(j.prior) == PriorHead(sh.History(j.Monitor()), |sh.History(j.Monitor())|)
    requires j.proposal.transition.Some? ==> Has(sh.store, TransitionAt(j).0, TransitionAt(j).1)
    ensures MonitorInv(deployment, Advance(sh, j, tag), j.Monitor())
  {
    var id := j.Monitor();
    var h := sh.History(id);
    AppendKeepsCommits(deployment, id, h, Commit(j.step, j.proposal));
    ProposalExtendsChain(deployment, HeadOf(j.prior), j.step);
    if h != [] {
      assert CommitFollows(deployment, id, h, |h| - 1);
      ProposalExtendsChain(deployment, PriorHead(h, |h| - 1), h[|h| - 1].step);
    }
    AdvanceKeepsChain(deployment, sh, j, tag);
  }

  lemma AdvanceKeepsChain(deployment: string, sh: Shared, j: Job, tag: Tag)
    requires TagAllowed(sh.store, StateKey(j.Monitor()), HeadRecord(j.proposal.head), tag)
    requires MonitorInv(deployment, sh, j.Monitor()) && JobInv(deployment, sh, j)
    requires HeadOf(j.prior) == PriorHead(sh.History(j.Monitor()), |sh.History(j.Monitor())|)
    requires j.proposal.transition.Some? ==> Has(sh.store, TransitionAt(j).0, TransitionAt(j).1)
    ensures var sh' := Advance(sh, j, tag); ChainStored(sh'.store, j.Monitor(), sh'.Chain(j.Monitor()))
  {
    var id, sh' := j.Monitor(), Advance(sh, j, tag);
    var ch := sh.Chain(id);
    ProposalExtendsChain(deployment, HeadOf(j.prior), j.step);
    forall k: nat | k < |ch| ensures LinkStored(sh'.store, id, ch, k) {
      assert LinkStored(sh.store, id, ch, k);
    }
    if j.proposal.transition.Some? {
      ProposalLinks(deployment, sh, j);
      AppendKeepsChain(sh'.store, id, ch, j.proposal.transition.value);
    }
  }

  lemma AdvanceEvolves(sh: Shared, j: Job, tag: Tag)
    requires MaySwap(sh, j, tag)
    ensures Evolves(sh, Advance(sh, j, tag))
  {
  }

  lemma AdvanceKeepsInv(deployment: string, sh: Shared, j: Job, tag: Tag)
    requires SharedInv(deployment, sh) && JobInv(deployment, sh, j) && MaySwap(sh, j, tag)
    requires j.proposal.transition.Some? ==> Has(sh.store, TransitionAt(j).0, TransitionAt(j).1)
    ensures SharedInv(deployment, Advance(sh, j, tag)) && Evolves(sh, Advance(sh, j, tag))
  {
    var sh' := Advance(sh, j, tag);
    SwapReplacesPrior(deployment, sh, j, tag);
    AdvanceEvolves(sh, j, tag);
    assert MonitorInv(deployment, sh, j.Monitor());
    AdvanceKeepsMonitor(deployment, sh, j, tag);
    forall id | id != j.Monitor() ensures MonitorInv(deployment, sh', id) {
      assert MonitorInv(deployment, sh, id);
      MonitorIsStable(deployment, sh, sh', id);
    }
  }

  lemma StepKeepsShared(deployment: string, w: World, a: Action)
    requires Inv(deployment, w) && Enabled(w, a)
    ensures SharedInv(deployment, NextShared(w, a)) && Evolves(w.shared, NextShared(w, a))
  {
    assert ProcessInv(deployment, w.shared, w.At(a.p));
    match a
    case PutTransition(p, commits, tag, _) =>
      if commits {
        PublishingKeepsInv(deployment, w.shared, TransitionAt(w.At(p).job).0, TransitionAt(w.At(p).job).1, tag);
      }
    case Swap(p, commits, tag, _) =>
      if commits {
        AdvanceKeepsInv(deployment, w.shared, w.At(p).job, tag);
      }
    case _ =>
  }

  lemma ReadIsKnown(deployment: string, sh: Shared, step: Step)
    requires SharedInv(deployment, sh)
    ensures ProcessInv(deployment, sh, AfterRead(deployment, sh, step))
  {
    assert MonitorInv(deployment, sh, step.monitor.id);
  }

  lemma StepKeepsActor(deployment: string, w: World, a: Action)
    requires Inv(deployment, w) && Enabled(w, a)
    ensures ProcessInv(deployment, NextShared(w, a), NextProcess(deployment, w, a))
  {
    var sh, p := w.shared, w.At(a.p);
    StepKeepsShared(deployment, w, a);
    assert ProcessInv(deployment, sh, p);
    ProcessIsStable(deployment, sh, NextShared(w, a), p);
    match a
    case Read(_, step) => ReadIsKnown(deployment, sh, step);
    case Resolve(_) => assert MonitorInv(deployment, sh, p.job.Monitor());
    case Swap(_, _, _, _) => SwapIsKnown(deployment, w, a);
    case _ =>
  }

  lemma SwapIsKnown(deployment: string, w: World, a: Action)
    requires a.Swap? && Enabled(w, a)
    requires ProcessInv(deployment, w.shared, w.At(a.p)) && ProcessInv(deployment, NextShared(w, a), w.At(a.p))
    ensures ProcessInv(deployment, NextShared(w, a), NextProcess(deployment, w, a))
  {
    if a.commits {
      var j := w.At(a.p).job;
      assert NextShared(w, a).History(j.Monitor())[|w.shared.History(j.Monitor())|].proposal.head == j.proposal.head;
    }
  }

  lemma StepKeepsInv(deployment: string, w: World, a: Action)
    requires Inv(deployment, w) && Enabled(w, a)
    ensures Inv(deployment, Next(deployment, w, a)) && Evolves(w.shared, Next(deployment, w, a).shared)
  {
    StepKeepsShared(deployment, w, a);
    StepKeepsActor(deployment, w, a);
    forall p ensures ProcessInv(deployment, NextShared(w, a), Next(deployment, w, a).At(p)) {
      if p != a.p {
        ProcessIsStable(deployment, w.shared, NextShared(w, a), w.At(p));
      }
    }
  }

  lemma {:induction false} RunKeepsInv(deployment: string, actions: seq<Action>, worlds: seq<World>, i: nat)
    requires IsRun(deployment, actions, worlds) && i < |worlds|
    ensures Inv(deployment, worlds[i])
  {
    if i > 0 {
      RunKeepsInv(deployment, actions, worlds, i - 1);
      StepKeepsInv(deployment, worlds[i - 1], actions[i - 1]);
    }
  }

  lemma {:induction false} StepEvolves(deployment: string, actions: seq<Action>, worlds: seq<World>, i: nat)
    requires IsRun(deployment, actions, worlds) && i < |actions|
    ensures Evolves(worlds[i].shared, worlds[i + 1].shared)
  {
    RunKeepsInv(deployment, actions, worlds, i);
    StepKeepsInv(deployment, worlds[i], actions[i]);
  }

  lemma {:induction false} RunEvolves(deployment: string, actions: seq<Action>, worlds: seq<World>, i: nat, j: nat)
    requires IsRun(deployment, actions, worlds) && i <= j < |worlds|
    ensures Evolves(worlds[i].shared, worlds[j].shared)
  {
    forall k | i <= k < j ensures Evolves(worlds[k].shared, worlds[k + 1].shared) {
      StepEvolves(deployment, actions, worlds, k);
    }
    ChainEvolves(worlds, i, j);
  }

  lemma {:induction false} ChainEvolves(worlds: seq<World>, i: nat, j: nat)
    requires i <= j < |worlds| && forall k :: i <= k < j ==> Evolves(worlds[k].shared, worlds[k + 1].shared)
    ensures Evolves(worlds[i].shared, worlds[j].shared)
    decreases j
  {
    if i < j {
      ChainEvolves(worlds, i, j - 1);
      EvolvesIsTransitive(worlds[i].shared, worlds[j - 1].shared, worlds[j].shared);
    }
  }

  lemma EvolvesIsTransitive(a: Shared, b: Shared, c: Shared)
    requires Evolves(a, b) && Evolves(b, c)
    ensures Evolves(a, c)
  {
    forall id ensures a.History(id) <= c.History(id) && a.Chain(id) <= c.Chain(id) {
      assert a.History(id) <= b.History(id) <= c.History(id) && a.Chain(id) <= b.Chain(id) <= c.Chain(id);
    }
    forall k | k in a.store.objects && k.TransitionKey? ensures Has(c.store, k, a.store.objects[k].record) {
      assert Has(b.store, k, a.store.objects[k].record);
    }
  }

  // ---------------------------------------------------------------- theorems about every run

  function Steps(h: seq<Commit>): seq<Step> {
    seq(|h|, i requires 0 <= i < |h| => h[i].step)
  }

  function States(h: seq<Commit>): seq<State> {
    seq(|h|, i requires 0 <= i < |h| => h[i].proposal.head.state)
  }

  /** In every interleaving, the heads a monitor has had are one run of the alert
      state machine in which every step takes effect: each was computed from the
      one before it, however many evaluators raced, stopped or were misinformed.
      So `(revision, slot)` strictly increases. */
  lemma HeadsFormARun(deployment: string, actions: seq<Action>, worlds: seq<World>, i: nat, id: nat)
    requires IsRun(deployment, actions, worlds) && i < |worlds|
    ensures var h := worlds[i].shared.History(id);
      && HeadOf(CurrentHead(worlds[i].shared, id)) == PriorHead(h, |h|)
      && AlertRuns.IsRun(Steps(h), States(h))
      && (forall k: nat :: k < |h| ==> AlertRuns.Effective(Steps(h), States(h), k) && Steps(h)[k].monitor.id == id)
      && (forall k: nat, l: nat :: k < l < |h| ==> AlertRuns.StateBefore(States(h)[k], States(h)[l]))
  {
    RunKeepsInv(deployment, actions, worlds, i);
    var h := worlds[i].shared.History(id);
    var steps, states := Steps(h), States(h);
    assert MonitorInv(deployment, worlds[i].shared, id);
    forall k: nat | k < |h|
      ensures AlertRuns.Follows(steps, states, k) && AlertRuns.Effective(steps, states, k) && steps[k].monitor.id == id
    {
      assert CommitFollows(deployment, id, h, k);
      assert StateOf(PriorHead(h, k)) == AlertRuns.Prior(states, k);
    }
    forall k: nat, l: nat | k < l < |h| ensures AlertRuns.StateBefore(states[k], states[l]) {
      AlertRuns.EffectiveStepsIncrease(steps, states, k, l);
      AlertRuns.OneStepIsOrdered(steps, states, k);
      AlertRuns.OneStepIsOrdered(steps, states, l);
    }
  }

  /** What commit `k` records: the evaluation, and how its status follows from the ones before. */
  ghost predicate TellsTheChange(h: seq<Commit>, k: nat)
    requires k < |h|
  {
    var p, step, states := h[k].proposal, h[k].step, States(h);
    var before := if k == 0 then None else Some(states[k - 1].status);
    && p.head.updatedAt == step.now
    && (p.transition.Some? <==> before != Some(states[k].status))
    && (p.transition.Some? ==>
          var t := p.transition.value;
          && t.state == states[k] && t.revision == step.monitor.revision && t.slot == step.slot
          && t.evaluatedAt == step.now && t.observation == step.observation
          && t.previousStatus == before
          && (t.resumed <==> exists j: nat :: j + 1 < k && AlertRuns.HeldBeforeOutage(states, j, k, states[k].status)))
  }

  /** In every interleaving, a transition is committed exactly when the status differs from
      that of the head before it, and says so: `previous_status` is the status of that head,
      and `resumed` tells that an outage ends with the status held before it began. */
  lemma TransitionsTellTheHistory(deployment: string, actions: seq<Action>, worlds: seq<World>, i: nat, id: nat, k: nat)
    requires IsRun(deployment, actions, worlds) && i < |worlds| && k < |worlds[i].shared.History(id)|
    ensures TellsTheChange(worlds[i].shared.History(id), k)
  {
    var h := worlds[i].shared.History(id);
    HeadsFormARun(deployment, actions, worlds, i, id);
    RunKeepsInv(deployment, actions, worlds, i);
    assert MonitorInv(deployment, worlds[i].shared, id);
    assert CommitFollows(deployment, id, h, k);
    ProposalTellsTheChange(deployment, PriorHead(h, k), h[k].step);
    ProposalExtendsChain(deployment, PriorHead(h, k), h[k].step);
    if h[k].proposal.transition.Some? {
      ChangeIsProposed(deployment, h, k);
    }
    AlertRuns.ChangeIsReported(Steps(h), States(h), k);
  }

  lemma ChangeIsProposed(deployment: string, h: seq<Commit>, k: nat)
    requires k < |h| && Propose(deployment, PriorHead(h, k), h[k].step) == Some(h[k].proposal)
    requires h[k].proposal.transition.Some?
    ensures h[k].proposal.transition.value.resumed == AlertRuns.ChangeAt(Steps(h), States(h), k).resumed
  {
    assert StateOf(PriorHead(h, k)) == AlertRuns.Prior(States(h), k);
  }

  /** Every head that is ever durable passes `validate`, and the transition it
      references is durable under its key and passes the digest check, then and later. */
  lemma HeadsAreBacked(deployment: string, actions: seq<Action>, worlds: seq<World>, i: nat, j: nat, id: nat)
    requires IsRun(deployment, actions, worlds) && i <= j < |worlds|
    requires CurrentHead(worlds[i].shared, id).Some?
    ensures var head := CurrentHead(worlds[i].shared, id).value.head;
      && head.Valid(deployment, id) && head.monitor == id && head.deployment == deployment
      && head.latest.sequence == head.state.sequence > 0 && head.latest.status == head.state.status
      && exists t: Transition ::
           && Has(worlds[j].shared.store, head.latest.Key(id), TransitionRecord(t)) && head.Verifies(t)
           && t.monitor == id && t.deployment == deployment && t.state.status == head.state.status
           && t.state.sequence == head.state.sequence
  {
    RunKeepsInv(deployment, actions, worlds, i);
    RunEvolves(deployment, actions, worlds, i, j);
    var sh := worlds[i].shared;
    assert MonitorInv(deployment, sh, id);
    var h, ch := sh.History(id), sh.Chain(id);
    assert CommitFollows(deployment, id, h, |h| - 1);
    ProposalExtendsChain(deployment, PriorHead(h, |h| - 1), h[|h| - 1].step);
    assert LinkStored(sh.store, id, ch, |ch| - 1);
    assert Has(worlds[j].shared.store, ch[|ch| - 1].Reference().Key(id), TransitionRecord(ch[|ch| - 1]));
  }

  /** The records found by following `previous_transition_key` from `key`, at most `n` of them. */
  function Walk(store: Store<Key, Record>, key: Option<Key>, n: nat): seq<Transition>
    decreases n
  {
    if n == 0 || key.None? || key.value !in store.objects || !store.objects[key.value].record.TransitionRecord? then []
    else
      var t := store.objects[key.value].record.transition;
      [t] + Walk(store, t.previousKey, n - 1)
  }

  lemma {:induction false} WalkStaysOnChain(store: Store<Key, Record>, id: nat, ch: seq<Transition>, k: nat, n: nat)
    requires ChainStored(store, id, ch) && k < |ch|
    ensures var walked := Walk(store, Some(ch[k].Reference().Key(id)), n);
      && |walked| == (if n <= k + 1 then n else k + 1)
      && forall x :: 0 <= x < |walked| ==> walked[x] == ch[k - x]
    decreases n
  {
    assert LinkStored(store, id, ch, k);
    if n > 0 && k > 0 {
      WalkStaysOnChain(store, id, ch, k - 1, n - 1);
    }
  }

  lemma {:induction false} ChainIsCommitted(deployment: string, actions: seq<Action>, worlds: seq<World>, i: nat, id: nat)
    requires IsRun(deployment, actions, worlds) && i < |worlds|
    ensures var sh := worlds[i].shared;
      forall t :: t in sh.Chain(id) ==> exists k :: 0 <= k < |sh.History(id)| && sh.History(id)[k].proposal.transition == Some(t)
  {
    if i > 0 {
      ChainIsCommitted(deployment, actions, worlds, i - 1, id);
      var sh, sh' := worlds[i - 1].shared, worlds[i].shared;
      var h, h' := sh.History(id), sh'.History(id);
      forall t | t in sh'.Chain(id) ensures exists k :: 0 <= k < |h'| && h'[k].proposal.transition == Some(t) {
        if t in sh.Chain(id) {
          var k :| 0 <= k < |h| && h[k].proposal.transition == Some(t);
          assert h'[k] == h[k];
        } else {
          assert h'[|h|].proposal.transition == Some(t);
        }
      }
    }
  }

  /** Following the transition links from the durable head finds the committed
      transitions, newest first, down to the very first one, each with the next
      lower sequence number, and nothing else: a record written by an evaluator
      that lost, or stopped, is found only if an equal record was committed. */
  lemma OnlyCommittedTransitionsAreReachable(deployment: string, actions: seq<Action>, worlds: seq<World>, i: nat, id: nat, n: nat)
    requires IsRun(deployment, actions, worlds) && i < |worlds|
    requires CurrentHead(worlds[i].shared, id).Some?
    ensures var sh := worlds[i].shared;
      var head := CurrentHead(sh, id).value.head;
      var walked := Walk(sh.store, Some(head.latest.Key(id)), n);
      && |walked| == (if n <= head.state.sequence then n else head.state.sequence)
      && (forall x :: 0 <= x < |walked| ==> walked[x].state.sequence == head.state.sequence - x)
      && (forall t :: t in walked ==> exists k :: 0 <= k < |sh.History(id)| && sh.History(id)[k].proposal.transition == Some(t))
  {
    RunKeepsInv(deployment, actions, worlds, i);
    ChainIsCommitted(deployment, actions, worlds, i, id);
    var sh := worlds[i].shared;
    assert MonitorInv(deployment, sh, id);
    var h, ch := sh.History(id), sh.Chain(id);
    var head := h[|h| - 1].proposal.head;
    assert CommitFollows(deployment, id, h, |h| - 1);
    WalkStaysOnChain(sh.store, id, ch, |ch| - 1, n);
    var walked := Walk(sh.store, Some(head.latest.Key(id)), n);
    assert LinkStored(sh.store, id, ch, |ch| - 1);
    forall x | 0 <= x < |walked| ensures walked[x].state.sequence == head.state.sequence - x {
      assert LinkStored(sh.store, id, ch, |ch| - 1 - x);
    }
  }

  /** Process `p` has been working on the evaluation it read at `s`. */
  predicate Working(actions: seq<Action>, p: nat, s: nat, i: nat)
    requires i <= |actions|
  {
    && s < i
    && actions[s].Read? && actions[s].p == p
    && forall k :: s < k < i && actions[k].p == p ==> !actions[k].Read?
  }

  lemma {:induction false} WorkingKeepsStart(deployment: string, actions: seq<Action>, worlds: seq<World>, p: nat, s: nat, i: nat)
    requires IsRun(deployment, actions, worlds) && i <= |actions| && Working(actions, p, s, i)
    ensures var q := worlds[i].At(p);
      !q.Idle? && !q.Refused? ==> q.job.step == actions[s].step && q.job.since == |worlds[s].shared.History(q.job.Monitor())|
    decreases i
  {
    if s + 1 < i {
      WorkingKeepsStart(deployment, actions, worlds, p, s, i - 1);
    }
  }

  lemma {:induction false} HistoryReached(
    deployment: string, actions: seq<Action>, worlds: seq<World>, id: nat, s: nat, i: nat, n: nat) returns (m: nat)
    requires IsRun(deployment, actions, worlds) && s <= i < |worlds|
    requires |worlds[s].shared.History(id)| <= n <= |worlds[i].shared.History(id)|
    ensures s <= m <= i && |worlds[m].shared.History(id)| == n
    decreases i
  {
    if |worlds[i].shared.History(id)| == n {
      m := i;
    } else {
      m := HistoryReached(deployment, actions, worlds, id, s, i - 1, n);
    }
  }

  /** An evaluator reports success only if its exact head was durable at some
      moment between its read and the report. */
  lemma SuccessMeansDurable(deployment: string, actions: seq<Action>, worlds: seq<World>, p: nat, s: nat, i: nat) returns (m: nat)
    requires IsRun(deployment, actions, worlds) && i <= |actions| && Working(actions, p, s, i)
    requires worlds[i].At(p).Succeeded?
    ensures var j := worlds[i].At(p).job;
      && j.step == actions[s].step
      && s <= m <= i && HeadOf(CurrentHead(worlds[m].shared, j.Monitor())) == Some(j.proposal.head)
  {
    var j := worlds[i].At(p).job;
    var id := j.Monitor();
    RunKeepsInv(deployment, actions, worlds, i);
    WorkingKeepsStart(deployment, actions, worlds, p, s, i);
    RunEvolves(deployment, actions, worlds, s, i);
    var h := worlds[i].shared.History(id);
    assert ProcessInv(deployment, worlds[i].shared, worlds[i].At(p));
    var k :| j.since as int - 1 <= k < |h| && 0 <= k && h[k].proposal.head == j.proposal.head;
    m := HistoryReached(deployment, actions, worlds, id, s, i, k + 1);
    HeadAtLength(deployment, actions, worlds, id, m, i);
  }

  /** The head of a world is the one its history ends with, as a later world still has it. */
  lemma HeadAtLength(deployment: string, actions: seq<Action>, worlds: seq<World>, id: nat, m: nat, i: nat)
    requires IsRun(deployment, actions, worlds) && m <= i < |worlds| && worlds[m].shared.History(id) != []
    ensures var n := |worlds[m].shared.History(id)|;
      && n <= |worlds[i].shared.History(id)|
      && HeadOf(CurrentHead(worlds[m].shared, id)) == Some(worlds[i].shared.History(id)[n - 1].proposal.head)
  {
    RunEvolves(deployment, actions, worlds, m, i);
    assert worlds[m].shared.History(id) <= worlds[i].shared.History(id);
    RunKeepsInv(deployment, actions, worlds, m);
    assert MonitorInv(deployment, worlds[m].shared, id);
  }

  // ---------------------------------------------------------------- progress

  /** An evaluator that read the head has something to commit unless the head covers its slot. */
  lemma UnreadyMeansCovered(deployment: string, sh: Shared, step: Step)
    requires SharedInv(deployment, sh)
    ensures var p := AfterRead(deployment, sh, step);
      AlertRuns.Uncovered(StateOf(HeadOf(CurrentHead(sh, step.monitor.id))), step) <==> p.Publishing? || p.Swapping?
  {
    var prior := HeadOf(CurrentHead(sh, step.monitor.id));
    assert MonitorInv(deployment, sh, step.monitor.id);
    if AlertRuns.Uncovered(StateOf(prior), step) {
      var h := sh.History(step.monitor.id);
      if h != [] {
        assert CommitFollows(deployment, step.monitor.id, h, |h| - 1);
        ProposalExtendsChain(deployment, PriorHead(h, |h| - 1), h[|h| - 1].step);
      }
      ProposalIsAcceptable(deployment, prior, step);
    }
  }

  /** Another record is at the key of the proposal's transition. */
  predicate TransitionTaken(store: Store<Key, Record>, proposal: Proposal, id: nat) {
    && proposal.transition.Some?
    && var k := proposal.head.latest.Key(id);
    && k in store.objects && !Has(store, k, TransitionRecord(proposal.transition.value))
  }

  /** Publish the transition with nobody else about and a store in order: the PUT takes
      effect if it may; if not, the object is read back. */
  function PublishAlone(deployment: string, w: World, p: nat, tag: Tag): World
    requires w.At(p).Publishing? && w.At(p).job.proposal.transition.Some?
  {
    var (k, r) := TransitionAt(w.At(p).job);
    if MayCreate(w.shared.store, k, r, tag) then
      Next(deployment, w, PutTransition(p, true, tag, Acknowledged))
    else
      Next(deployment, Next(deployment, w, PutTransition(p, false, tag, Ambiguous)), CheckTransition(p))
  }

  function SwapAlone(deployment: string, w: World, p: nat, tag: Tag): World
    requires w.At(p).Swapping?
  {
    if MaySwap(w.shared, w.At(p).job, tag) then
      Next(deployment, w, Swap(p, true, tag, Acknowledged))
    else
      Next(deployment, Next(deployment, w, Swap(p, false, tag, Ambiguous)), Resolve(p))
  }

  /** One evaluation with nobody else about. */
  function EvaluateAlone(deployment: string, w: World, p: nat, step: Step, tag: Tag): World {
    var read := Next(deployment, w, Read(p, step));
    var ready :=
      if read.At(p).Publishing? && read.At(p).job.proposal.transition.Some?
      then PublishAlone(deployment, read, p, tag) else read;
    if ready.At(p).Swapping? then SwapAlone(deployment, ready, p, tag) else ready
  }

  predicate TagIsFresh(store: Store<Key, Record>, tag: Tag) {
    forall kt :: kt in store.named ==> kt.1 < tag
  }

  lemma PublishesAlone(deployment: string, w: World, p: nat, j: Job, tag: Tag)
    requires w.At(p) == Publishing(j) && j.proposal.transition.Some? && TagIsFresh(w.shared.store, tag)
    ensures var w', k := PublishAlone(deployment, w, p, tag), StateKey(j.Monitor());
      && w'.At(p) == (if TransitionTaken(w.shared.store, j.proposal, j.Monitor()) then Refused else Swapping(j))
      && w'.shared.history == w.shared.history
      && CurrentHead(w'.shared, j.Monitor()) == CurrentHead(w.shared, j.Monitor())
      && (k in w'.shared.store.objects <==> k in w.shared.store.objects) && (k, tag) !in w'.shared.store.named
  {
  }

  lemma SwapsAlone(deployment: string, w: World, p: nat, j: Job, tag: Tag)
    requires w.At(p) == Swapping(j) && CurrentHead(w.shared, j.Monitor()) == j.prior
    requires (j.prior.None? ==> StateKey(j.Monitor()) !in w.shared.store.objects) && (StateKey(j.Monitor()), tag) !in w.shared.store.named
    ensures var w' := SwapAlone(deployment, w, p, tag);
      w'.At(p) == Succeeded(j) && w'.shared.History(j.Monitor()) == w.shared.History(j.Monitor()) + [Commit(j.step, j.proposal)]
  {
  }

  /** From any state the protocol can be in, an evaluation with nobody else about
      commits exactly when the head does not cover its slot and its transition's key
      is free or holds that transition.  Otherwise the heads stay as they are. */
  lemma EvaluationCommitsExactly(deployment: string, w: World, p: nat, step: Step, tag: Tag)
    requires Inv(deployment, w) && TagIsFresh(w.shared.store, tag)
    ensures var id, w' := step.monitor.id, EvaluateAlone(deployment, w, p, step, tag);
      var prior := HeadOf(CurrentHead(w.shared, id));
      var proposal := Propose(deployment, prior, step);
      && (w'.At(p).Succeeded? <==>
            && AlertRuns.Uncovered(StateOf(prior), step)
            && proposal.Some? && !TransitionTaken(w.shared.store, proposal.value, id))
      && w'.shared.History(id) ==
           w.shared.History(id) + if w'.At(p).Succeeded? then [Commit(step, proposal.value)] else []
  {
    UnreadyMeansCovered(deployment, w.shared, step);
    assert MonitorInv(deployment, w.shared, step.monitor.id);
    var read := Next(deployment, w, Read(p, step));
    if read.At(p).Publishing? {
      var j := read.At(p).job;
      PublishesAlone(deployment, read, p, j, tag);
      var ready := PublishAlone(deployment, read, p, tag);
      if ready.At(p).Swapping? {
        SwapsAlone(deployment, ready, p, j, tag);
      }
    } else if read.At(p).Swapping? {
      SwapsAlone(deployment, read, p, read.At(p).job, tag);
    }
  }

  /** Somebody read the head to evaluate the slot before `i`. */
  predicate SlotWasRead(actions: seq<Action>, s: nat, i: nat, id: nat, revision: nat, slot: nat)
    requires i <= |actions|
  {
    && s < i && actions[s].Read?
    && actions[s].step.monitor.id == id && actions[s].step.monitor.revision == revision && actions[s].step.slot == slot
  }

  predicate IsWorking(p: Process) {
    !p.Idle? && !p.Refused?
  }

  lemma {:induction false} JobWasRead(deployment: string, actions: seq<Action>, worlds: seq<World>, i: nat, p: nat) returns (s: nat)
    requires IsRun(deployment, actions, worlds) && i < |worlds| && IsWorking(worlds[i].At(p))
    ensures s < i && actions[s].Read? && actions[s].step == worlds[i].At(p).job.step
  {
    var a := actions[i - 1];
    if a.p == p && a.Read? {
      s := i - 1;
    } else {
      s := JobWasRead(deployment, actions, worlds, i - 1, p);
    }
  }

  /** Every transition in the store was written by an evaluation of its slot. */
  lemma {:induction false} TransitionWasRead(deployment: string, actions: seq<Action>, worlds: seq<World>, i: nat, k: Key) returns (s: nat)
    requires IsRun(deployment, actions, worlds) && i < |worlds| && k.TransitionKey? && k in worlds[i].shared.store.objects
    ensures SlotWasRead(actions, s, i, k.monitor, k.revision, k.slot)
  {
    var w, a := worlds[i - 1], actions[i - 1];
    if a.PutTransition? && a.commits && TransitionAt(w.At(a.p).job).0 == k {
      s := JobWasRead(deployment, actions, worlds, i - 1, a.p);
      RunKeepsInv(deployment, actions, worlds, i - 1);
      var j := w.At(a.p).job;
      assert JobInv(deployment, w.shared, j);
      ProposalTellsTheChange(deployment, HeadOf(j.prior), j.step);
      ProposalExtendsChain(deployment, HeadOf(j.prior), j.step);
    } else {
      s := TransitionWasRead(deployment, actions, worlds, i - 1, k);
    }
  }

  /** In every run, an evaluation of a slot nobody has tried before, with nobody else
      about, commits exactly when the head does not cover the slot: no other slot's
      record can be in its way. */
  lemma OnlyItsOwnSlotIsInTheWay(deployment: string, actions: seq<Action>, worlds: seq<World>, i: nat, p: nat, step: Step, tag: Tag)
    requires IsRun(deployment, actions, worlds) && i < |worlds| && TagIsFresh(worlds[i].shared.store, tag)
    requires forall s :: !SlotWasRead(actions, s, i, step.monitor.id, step.monitor.revision, step.slot)
    ensures EvaluateAlone(deployment, worlds[i], p, step, tag).At(p).Succeeded?
       <==> AlertRuns.Uncovered(StateOf(HeadOf(CurrentHead(worlds[i].shared, step.monitor.id))), step)
  {
    var w, id := worlds[i], step.monitor.id;
    var prior := HeadOf(CurrentHead(w.shared, id));
    RunKeepsInv(deployment, actions, worlds, i);
    EvaluationCommitsExactly(deployment, w, p, step, tag);
    UnreadyMeansCovered(deployment, w.shared, step);
    var proposal := Propose(deployment, prior, step);
    if AlertRuns.Uncovered(StateOf(prior), step) && proposal.value.transition.Some? {
      ProposalTellsTheChange(deployment, prior, step);
      ProposalExtendsChain(deployment, prior, step);
      var k := proposal.value.head.latest.Key(id);
      if k in w.shared.store.objects {
        var s := TransitionWasRead(deployment, actions, worlds, i, k);
      }
    }
  }

  /** The world after an evaluator published its transition and stopped. */
  function Stranded(deployment: string, w: World, p: nat, step: Step, tag: Tag): World {
    var read := Next(deployment, w, Read(p, step));
    if read.At(p).Publishing? && read.At(p).job.proposal.transition.Some?
    then Next(deployment, PublishAlone(deployment, read, p, tag), Stop(p)) else read
  }

  lemma StrandedHoldsTransition(deployment: string, w: World, p: nat, step: Step, tag: Tag)
    requires Inv(deployment, w) && TagIsFresh(w.shared.store, tag)
    requires var prior := HeadOf(CurrentHead(w.shared, step.monitor.id));
      && AlertRuns.Uncovered(StateOf(prior), step)
      && var a := Propose(deployment, prior, step);
      && a.Some? && a.value.transition.Some? && a.value.head.latest.Key(step.monitor.id) !in w.shared.store.objects
    ensures var id, w' := step.monitor.id, Stranded(deployment, w, p, step, tag);
      var a := Propose(deployment, HeadOf(CurrentHead(w.shared, id)), step).value;
      && Inv(deployment, w') && TagIsFresh(w'.shared.store, tag + 1)
      && CurrentHead(w'.shared, id) == CurrentHead(w.shared, id)
      && Has(w'.shared.store, a.head.latest.Key(id), TransitionRecord(a.transition.value))
  {
    UnreadyMeansCovered(deployment, w.shared, step);
    StrandedKeepsInv(deployment, w, p, step, tag);
  }

  lemma StrandedKeepsInv(deployment: string, w: World, p: nat, step: Step, tag: Tag)
    requires Inv(deployment, w)
    ensures Inv(deployment, Stranded(deployment, w, p, step, tag))
  {
    var read := Next(deployment, w, Read(p, step));
    StepKeepsInv(deployment, w, Read(p, step));
    if read.At(p).Publishing? && read.At(p).job.proposal.transition.Some? {
      PublishingAloneKeepsInv(deployment, read, p, tag);
      StepKeepsInv(deployment, PublishAlone(deployment, read, p, tag), Stop(p));
    }
  }

  lemma PublishingAloneKeepsInv(deployment: string, w: World, p: nat, tag: Tag)
    requires Inv(deployment, w) && w.At(p).Publishing? && w.At(p).job.proposal.transition.Some?
    ensures Inv(deployment, PublishAlone(deployment, w, p, tag))
  {
    var (k, r) := TransitionAt(w.At(p).job);
    if MayCreate(w.shared.store, k, r, tag) {
      StepKeepsInv(deployment, w, PutTransition(p, true, tag, Acknowledged));
    } else {
      var put := PutTransition(p, false, tag, Ambiguous);
      StepKeepsInv(deployment, w, put);
      StepKeepsInv(deployment, Next(deployment, w, put), CheckTransition(p));
    }
  }

  /** A transition left behind by an evaluator that stopped can be in the way: the same
      slot evaluated again to the same status from another observation is not committed. */
  lemma StrandedTransitionBlocks(deployment: string, w: World, p: nat, q: nat, step: Step, other: Observation, tag: Tag)
    requires Inv(deployment, w) && TagIsFresh(w.shared.store, tag) && other != step.observation
    requires var prior := HeadOf(CurrentHead(w.shared, step.monitor.id));
      && AlertRuns.Uncovered(StateOf(prior), step)
      && var a, b := Propose(deployment, prior, step), Propose(deployment, prior, step.(observation := other));
      && a.Some? && b.Some? && a.value.transition.Some? && b.value.transition.Some?
      && a.value.head.state.status == b.value.head.state.status
      && a.value.head.latest.Key(step.monitor.id) !in w.shared.store.objects
    ensures !EvaluateAlone(deployment, Stranded(deployment, w, p, step, tag), q, step.(observation := other), tag + 1).At(q).Succeeded?
  {
    StrandedHoldsTransition(deployment, w, p, step, tag);
    var id, prior := step.monitor.id, HeadOf(CurrentHead(w.shared, step.monitor.id));
    var w', again := Stranded(deployment, w, p, step, tag), step.(observation := other);
    KeysClash(deployment, w'.shared.store, prior, step, again);
    EvaluationCommitsExactly(deployment, w', q, again, tag + 1);
  }

  /** Two observations that lead to one status make different transitions with one key. */
  lemma KeysClash(deployment: string, store: Store<Key, Record>, prior: Option<StateHead>, step: Step, again: Step)
    requires AlertRuns.Uncovered(StateOf(prior), step) && again == step.(observation := again.observation) && again != step
    requires var a, b := Propose(deployment, prior, step), Propose(deployment, prior, again);
      && a.Some? && b.Some? && a.value.transition.Some? && b.value.transition.Some?
      && a.value.head.state.status == b.value.head.state.status
      && Has(store, a.value.head.latest.Key(step.monitor.id), TransitionRecord(a.value.transition.value))
    ensures TransitionTaken(store, Propose(deployment, prior, again).value, step.monitor.id)
  {
    ProposalExtendsChain(deployment, prior, step);
    ProposalExtendsChain(deployment, prior, again);
  }
}
