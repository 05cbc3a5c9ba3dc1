/** Publishing and deleting rules and notification targets
    (crates/alert/src/store.rs:80-310, 473-538).

    Any number of commands run concurrently.  Each is a small program over the
    shared store: write an immutable revision (or tombstone) object, read the
    head, compare-and-swap the head, and resolve an ambiguous answer by reading
    back.  A command may stop between any two store operations, a write may take
    effect and still be reported as failed, and commands may be replayed. */
module HeadProtocol {
  import opened Wrappers
  import opened ObjectStore

  datatype Entity = Rule(id: nat) | Target(id: nat)

  datatype Key =
    | HeadKey(entity: Entity)
    | RevisionKey(entity: Entity, revision: nat, command: string)
    | TombstoneKey(entity: Entity, command: string)

  /** One immutable revision of a monitor or target; `content` is everything else in it. */
  datatype Revision = Revision(entity: Entity, revision: nat, updatedAt: nat, content: string)

  datatype Tombstone = Tombstone(entity: Entity, revision: nat, command: string, deletedAt: nat)

  datatype Head = Head(
    entity: Entity,
    revision: nat,
    revisionKey: Option<Key>,
    updatedAt: nat,
    deleted: bool,
    tombstoneKey: Option<Key>)

  datatype Record = HeadRecord(head: Head) | RevisionRecord(body: Revision) | TombstoneRecord(tombstone: Tombstone)

  /** Publish a revision, or delete.  A target update carries the head tag its
      caller observed beforehand; a rule update uses the tag it reads itself. */
  datatype Command =
    | Publish(body: Revision, id: string, observed: Option<Tag>)
    | Delete(tombstone: Tombstone, seen: Tag)
  {
    function Entity(): Entity {
      match this
      case Publish(b, _, _) => b.entity
      case Delete(t, _) => t.entity
    }

    /** The immutable object the command writes first. */
    function StageKey(): Key {
      match this
      case Publish(b, c, _) => RevisionKey(b.entity, b.revision, c)
      case Delete(t, _) => TombstoneKey(t.entity, t.command)
    }

    function StageRecord(): Record {
      match this
      case Publish(b, _, _) => RevisionRecord(b)
      case Delete(t, _) => TombstoneRecord(t)
    }

    /** The head the command tries to make current. */
    function NewHead(): Head {
      match this
      case Publish(b, c, _) => Head(b.entity, b.revision, Some(StageKey()), b.updatedAt, false, None)
      case Delete(t, _) => Head(t.entity, t.revision, None, t.deletedAt, true, Some(StageKey()))
    }
  }

  /** Where a running command is.  `since` is the length of the entity's head
      history when the command started. */
  datatype Process =
    | Idle
    | Staging(command: Command, since: nat)
    | CheckingStage(command: Command, since: nat)
    | Staged(command: Command, since: nat)
    | Swapping(command: Command, since: nat, expected: Option<Tag>)
    | Resolving(command: Command, since: nat)
    | Succeeded(command: Command, since: nat)
    | Refused(command: Command)

  /** The store, and the heads every entity has had so far, oldest first. */
  datatype Shared = Shared(store: Store<Key, Record>, history: map<Entity, seq<Head>>)
  {
    function History(e: Entity): seq<Head> {
      if e in history then history[e] else []
    }
  }

  datatype World = World(shared: Shared, processes: map<nat, Process>)
  {
    function At(p: nat): Process {
      if p in processes then processes[p] else Idle
    }
  }

  // ---------------------------------------------------------------- actions

  datatype Action =
    | Start(p: nat, command: Command)
    | Stop(p: nat)
    | PutStage(p: nat, commits: bool, tag: Tag, report: Report)
    | CheckStage(p: nat)
    | ReadHead(p: nat)
    | Swap(p: nat, commits: bool, tag: Tag, report: Report)
    | Resolve(p: nat)

  function InitialWorld(): World {
    World(Shared(Store(map[], map[]), map[]), map[])
  }

  /** Make `head` the current head of its entity. */
  function Advance(sh: Shared, head: Head, tag: Tag): Shared
    requires TagAllowed(sh.store, HeadKey(head.entity), HeadRecord(head), tag)
  {
    Shared(Write(sh.store, HeadKey(head.entity), HeadRecord(head), tag),
           sh.history[head.entity := sh.History(head.entity) + [head]])
  }

  predicate MayStart(sh: Shared, command: Command) {
    match command
    case Publish(b, _, observed) => observed.Some? ==> (HeadKey(b.entity), observed.value) in sh.store.named
    // Both delete handlers read the head first and refuse unless it is live at the expected revision.
    case Delete(t, seen) =>
      var k := HeadKey(t.entity);
      && k in sh.store.objects && sh.store.objects[k].tag == seen
      && sh.store.objects[k].record.HeadRecord?
      && !sh.store.objects[k].record.head.deleted
      && sh.store.objects[k].record.head.revision == t.revision
  }

  predicate MaySwap(sh: Shared, command: Command, expected: Option<Tag>, tag: Tag) {
    var k, r := HeadKey(command.Entity()), HeadRecord(command.NewHead());
    match expected
    case None => MayCreate(sh.store, k, r, tag)
    case Some(e) => MayReplace(sh.store, k, r, e, tag)
  }

  predicate Enabled(w: World, a: Action) {
    var sh := w.shared;
    match a
    case Start(p, c) => MayStart(sh, c)
    case Stop(p) => true
    case PutStage(p, commits, tag, report) =>
      && w.At(p).Staging?
      && (commits ==> MayCreate(sh.store, w.At(p).command.StageKey(), w.At(p).command.StageRecord(), tag))
      && (report.Acknowledged? ==> commits)
    case CheckStage(p) => w.At(p).CheckingStage?
    case ReadHead(p) => w.At(p).Staged?
    case Swap(p, commits, tag, report) =>
      && w.At(p).Swapping?
      && (commits ==> MaySwap(sh, w.At(p).command, w.At(p).expected, tag))
      && (report.Acknowledged? ==> commits)
    case Resolve(p) => w.At(p).Resolving?
  }

  /** What `create_rule_revision` / `create_target_revision` do with the head they
      read; `tombstone_rule` / `tombstone_target` go straight to the swap. */
  function AfterStage(sh: Shared, c: Command, since: nat): Process {
    var k := HeadKey(c.Entity());
    match c
    case Delete(_, seen) => Swapping(c, since, Some(seen))
    case Publish(b, _, observed) =>
      if k !in sh.store.objects then
        if b.revision == 1 && (b.entity.Target? ==> observed.None?) then Swapping(c, since, None) else Refused(c)
      else
        var current := sh.store.objects[k];
        if current.record == HeadRecord(c.NewHead()) then
          Succeeded(c, since)
        else if current.record.HeadRecord? && !current.record.head.deleted && current.record.head.revision + 1 == b.revision then
          match b.entity
          case Rule(_) => Swapping(c, since, Some(current.tag))
          case Target(_) => if observed.Some? then Swapping(c, since, observed) else Refused(c)
        else
          Refused(c)
  }

  /** The process after a PUT reported `report`. */
  function AfterReport(report: Report, done: Process, resolve: Process): Process {
    match report
    case Acknowledged => done
    case Ambiguous => resolve
    case Broken => Idle
  }

  function NextShared(w: World, a: Action): Shared
    requires Enabled(w, a)
  {
    var sh := w.shared;
    match a
    case PutStage(p, commits, tag, _) =>
      var c := w.At(p).command;
      if commits then sh.(store := Write(sh.store, c.StageKey(), c.StageRecord(), tag)) else sh
    case Swap(p, commits, tag, _) =>
      if commits then Advance(sh, w.At(p).command.NewHead(), tag) else sh
    case _ => sh
  }

  function NextProcess(w: World, a: Action): Process
    requires Enabled(w, a)
  {
    var sh := w.shared;
    match a
    case Start(_, c) => Staging(c, |sh.History(c.Entity())|)
    case Stop(_) => Idle
    case PutStage(p, _, _, report) =>
      var c, since := w.At(p).command, w.At(p).since;
      AfterReport(report, Staged(c, since), CheckingStage(c, since))
    case CheckStage(p) =>
      var c, since := w.At(p).command, w.At(p).since;
      if Has(sh.store, c.StageKey(), c.StageRecord()) then Staged(c, since) else Refused(c)
    case ReadHead(p) => AfterStage(sh, w.At(p).command, w.At(p).since)
    case Swap(p, _, _, report) =>
      var c, since := w.At(p).command, w.At(p).since;
      AfterReport(report, Succeeded(c, since), Resolving(c, since))
    case Resolve(p) =>
      var c, since := w.At(p).command, w.At(p).since;
      if Has(sh.store, HeadKey(c.Entity()), HeadRecord(c.NewHead())) then Succeeded(c, since) else Refused(c)
  }

  function Next(w: World, a: Action): World
    requires Enabled(w, a)
  {
    World(NextShared(w, a), w.processes[a.p := NextProcess(w, a)])
  }

  /** `worlds` follows `actions` from its first world. */
  predicate IsPath(actions: seq<Action>, worlds: seq<World>) {
    && |worlds| == |actions| + 1
    && forall i :: 0 <= i < |actions| ==> Enabled(worlds[i], actions[i]) && worlds[i + 1] == Next(worlds[i], actions[i])
  }

  /** `worlds` is a run: it starts empty and every step is one enabled action of some process. */
  predicate IsRun(actions: seq<Action>, worlds: seq<World>) {
    IsPath(actions, worlds) && worlds[0] == InitialWorld()
  }

  // ---------------------------------------------------------------- the invariant

  /** A live head is the first, second, third, … in order; only the last may be a
      tombstone, and it carries the revision it deleted. */
  predicate HistoryInOrder(h: seq<Head>) {
    && (forall i :: 0 <= i < |h| && !h[i].deleted ==> h[i].revision == i + 1)
    && (forall i :: 0 <= i < |h| && h[i].deleted ==> i == |h| - 1 && i > 0 && h[i].revision == i)
  }

  /** The head is that of some command whose immutable object is durable. */
  ghost predicate HeadIsBacked(sh: Shared, e: Entity, head: Head) {
    exists c: Command :: c.NewHead() == head && c.Entity() == e && Has(sh.store, c.StageKey(), c.StageRecord())
  }

  ghost predicate EntityInv(sh: Shared, e: Entity) {
    var h := sh.History(e);
    && HistoryInOrder(h)
    && (forall i :: 0 <= i < |h| ==> HeadIsBacked(sh, e, h[i]))
    && (HeadKey(e) in sh.store.objects <==> h != [])
    && (h != [] ==> sh.store.objects[HeadKey(e)].record == HeadRecord(h[|h| - 1]))
  }

  ghost predicate SharedInv(sh: Shared) {
    && TagsNameRecords(sh.store)
    && (forall e :: EntityInv(sh, e))
    && (forall e, t :: (HeadKey(e), t) in sh.store.named ==> NamesEarlier(sh, e, t, |sh.History(e)|))
  }

  /** Tag `t` names the head at index `i`. */
  ghost predicate Names(sh: Shared, e: Entity, t: Tag, i: int) {
    && 0 <= i < |sh.History(e)|
    && (HeadKey(e), t) in sh.store.named
    && sh.store.named[(HeadKey(e), t)] == HeadRecord(sh.History(e)[i])
  }

  /** Tag `t` names one of the first `n` heads. */
  ghost predicate NamesEarlier(sh: Shared, e: Entity, t: Tag, n: int) {
    exists i :: i < n && Names(sh, e, t, i)
  }

  /** The head a swap may replace: for an update, no newer than the live
      predecessor of the new revision; for a deletion, the head it deletes. */
  ghost predicate SwapIsSound(sh: Shared, c: Command, expected: Option<Tag>) {
    var h := sh.History(c.Entity());
    match c
    case Publish(b, _, _) =>
      if expected.None? then b.revision == 1
      else
        var i := b.revision as int - 2;
        0 <= i < |h| && !h[i].deleted && NamesEarlier(sh, b.entity, expected.value, i + 1)
    case Delete(t, _) =>
      && 0 < t.revision <= |h| && !h[t.revision - 1].deleted
      && expected.Some? && Names(sh, t.entity, expected.value, t.revision - 1)
  }

  ghost predicate ProcessInv(sh: Shared, p: Process) {
    (p.Staging? || p.CheckingStage? || p.Staged? || p.Swapping? || p.Resolving? || p.Succeeded?) ==>
      var c, h := p.command, sh.History(p.command.Entity());
      && p.since <= |h|
      && (p.Staged? || p.Swapping? || p.Resolving? ==> Has(sh.store, c.StageKey(), c.StageRecord()))
      && (c.Publish? && c.observed.Some? ==> NamesEarlier(sh, c.body.entity, c.observed.value, p.since))
      && (c.Delete? ==> SwapIsSound(sh, c, Some(c.seen)))
      && (p.Swapping? ==> SwapIsSound(sh, c, p.expected))
      && (p.Succeeded? ==> exists i :: p.since as int - 1 <= i < |h| && 0 <= i && h[i] == c.NewHead())
  }

  ghost predicate Inv(w: World) {
    SharedInv(w.shared) && forall p :: ProcessInv(w.shared, w.At(p))
  }

  /** How the shared state may change under everyone's feet: histories only grow,
      immutable objects stay, tags keep their meaning. */
  ghost predicate Evolves(a: Shared, b: Shared) {
    && (forall e :: a.History(e) <= b.History(e))
    && (forall k :: k in a.store.objects && !k.HeadKey? ==> Has(b.store, k, a.store.objects[k].record))
    && (forall kt :: kt in a.store.named ==> kt in b.store.named && b.store.named[kt] == a.store.named[kt])
  }

  // ---------------------------------------------------------------- preservation

  lemma NamesIsStable(a: Shared, b: Shared, e: Entity, t: Tag, n: int)
    requires Evolves(a, b) && NamesEarlier(a, e, t, n)
    ensures NamesEarlier(b, e, t, n)
  {
    var i :| i < n && Names(a, e, t, i);
    assert Names(b, e, t, i);
  }

  /** What a process knows is not disturbed by the others. */
  lemma ProcessIsStable(a: Shared, b: Shared, p: Process)
    requires ProcessInv(a, p) && Evolves(a, b)
    ensures ProcessInv(b, p)
  {
    if !p.Idle? && !p.Refused? {
      var c := p.command;
      if c.Publish? && c.observed.Some? {
        NamesIsStable(a, b, c.body.entity, c.observed.value, p.since);
      }
      if p.Swapping? && c.Publish? && p.expected.Some? {
        NamesIsStable(a, b, c.body.entity, p.expected.value, c.body.revision - 1);
      }
    }
  }

  /** Writing an absent immutable object disturbs no head. */
  lemma StagingKeepsInv(sh: Shared, k: Key, r: Record, tag: Tag)
    requires SharedInv(sh) && !k.HeadKey? && MayCreate(sh.store, k, r, tag)
    ensures var sh' := sh.(store := Write(sh.store, k, r, tag)); SharedInv(sh') && Evolves(sh, sh')
  {
    var sh' := sh.(store := Write(sh.store, k, r, tag));
    forall e ensures EntityInv(sh', e) {
      assert EntityInv(sh, e);
    }
    assert Evolves(sh, sh');
    forall e, t | (HeadKey(e), t) in sh'.store.named ensures NamesEarlier(sh', e, t, |sh'.History(e)|) {
      NamesIsStable(sh, sh', e, t, |sh.History(e)|);
    }
  }

  /** A swap that takes effect extends the history by exactly the right head. */
  lemma SwapReplacesPredecessor(sh: Shared, c: Command, expected: Option<Tag>, tag: Tag)
    requires SharedInv(sh) && SwapIsSound(sh, c, expected) && MaySwap(sh, c, expected, tag)
    ensures var h := sh.History(c.Entity());
      if c.Publish? then |h| + 1 == c.body.revision && (forall i :: 0 <= i < |h| ==> !h[i].deleted)
      else 0 < |h| == c.tombstone.revision && (forall i :: 0 <= i < |h| ==> !h[i].deleted)
  {
    var e := c.Entity();
    var h := sh.History(e);
    assert EntityInv(sh, e);
    if expected.Some? {
      var bound := if c.Publish? then c.body.revision - 1 else c.tombstone.revision;
      assert NamesEarlier(sh, e, expected.value, bound);
      var i :| i < bound && Names(sh, e, expected.value, i);
      assert h[i] == h[|h| - 1];
    }
  }

  lemma AdvanceEvolves(sh: Shared, c: Command, expected: Option<Tag>, tag: Tag)
    requires SharedInv(sh) && MaySwap(sh, c, expected, tag)
    ensures var sh' := Advance(sh, c.NewHead(), tag);
      && Evolves(sh, sh')
      && forall e, t :: (HeadKey(e), t) in sh'.store.named ==> NamesEarlier(sh', e, t, |sh'.History(e)|)
  {
    var head := c.NewHead();
    var sh' := Advance(sh, head, tag);
    forall e, t | (HeadKey(e), t) in sh'.store.named ensures NamesEarlier(sh', e, t, |sh'.History(e)|) {
      if (e, t) == (head.entity, tag) {
        assert Names(sh', e, t, |sh.History(e)|);
      } else {
        NamesIsStable(sh, sh', e, t, |sh.History(e)|);
      }
    }
  }

  lemma AdvanceKeepsEntity(sh: Shared, c: Command, tag: Tag, e: Entity)
    requires TagAllowed(sh.store, HeadKey(c.Entity()), HeadRecord(c.NewHead()), tag)
    requires EntityInv(sh, e) && Evolves(sh, Advance(sh, c.NewHead(), tag))
    requires e == c.Entity() ==> HistoryInOrder(sh.History(e) + [c.NewHead()])
    requires Has(sh.store, c.StageKey(), c.StageRecord())
    ensures EntityInv(Advance(sh, c.NewHead(), tag), e)
  {
    var sh' := Advance(sh, c.NewHead(), tag);
    var h, h' := sh.History(e), sh'.History(e);
    forall i | 0 <= i < |h'| ensures HeadIsBacked(sh', e, h'[i]) {
      if i < |h| {
        assert HeadIsBacked(sh, e, h[i]);
      } else {
        assert Has(sh'.store, c.StageKey(), c.StageRecord());
      }
    }
  }

  lemma AdvanceKeepsEntities(sh: Shared, c: Command, tag: Tag)
    requires TagAllowed(sh.store, HeadKey(c.Entity()), HeadRecord(c.NewHead()), tag)
    requires (forall e :: EntityInv(sh, e)) && Evolves(sh, Advance(sh, c.NewHead(), tag))
    requires HistoryInOrder(sh.History(c.Entity()) + [c.NewHead()])
    requires Has(sh.store, c.StageKey(), c.StageRecord())
    ensures forall e :: EntityInv(Advance(sh, c.NewHead(), tag), e)
  {
    forall e ensures EntityInv(Advance(sh, c.NewHead(), tag), e) {
      AdvanceKeepsEntity(sh, c, tag, e);
    }
  }

  lemma HistoryGrowsInOrder(sh: Shared, c: Command, expected: Option<Tag>, tag: Tag)
    requires SharedInv(sh) && SwapIsSound(sh, c, expected) && MaySwap(sh, c, expected, tag)
    ensures HistoryInOrder(sh.History(c.Entity()) + [c.NewHead()])
  {
    SwapReplacesPredecessor(sh, c, expected, tag);
    assert EntityInv(sh, c.Entity());
  }

  lemma AdvanceKeepsInv(sh: Shared, c: Command, expected: Option<Tag>, tag: Tag)
    requires SharedInv(sh) && SwapIsSound(sh, c, expected) && MaySwap(sh, c, expected, tag)
    requires Has(sh.store, c.StageKey(), c.StageRecord())
    ensures var sh' := Advance(sh, c.NewHead(), tag); SharedInv(sh') && Evolves(sh, sh')
  {
    AdvanceEvolves(sh, c, expected, tag);
    HistoryGrowsInOrder(sh, c, expected, tag);
    AdvanceKeepsEntities(sh, c, tag);
  }

  lemma StepKeepsShared(w: World, a: Action)
    requires Inv(w) && Enabled(w, a)
    ensures SharedInv(NextShared(w, a)) && Evolves(w.shared, NextShared(w, a))
  {
    assert ProcessInv(w.shared, w.At(a.p));
    match a
    case PutStage(p, commits, tag, _) =>
      if commits {
        StagingKeepsInv(w.shared, w.At(p).command.StageKey(), w.At(p).command.StageRecord(), tag);
      }
    case Swap(p, commits, tag, _) =>
      if commits {
        AdvanceKeepsInv(w.shared, w.At(p).command, w.At(p).expected, tag);
      }
    case _ =>
  }

  lemma StartIsSound(sh: Shared, c: Command)
    requires SharedInv(sh) && MayStart(sh, c)
    ensures ProcessInv(sh, Staging(c, |sh.History(c.Entity())|))
  {
    var e := c.Entity();
    assert EntityInv(sh, e);
    if c.Delete? {
      assert Names(sh, e, c.seen, |sh.History(e)| - 1);
    }
  }

  lemma ReadHeadIsSound(sh: Shared, p: Process)
    requires SharedInv(sh) && p.Staged? && ProcessInv(sh, p)
    ensures ProcessInv(sh, AfterStage(sh, p.command, p.since))
  {
    var c, e := p.command, p.command.Entity();
    var h := sh.History(e);
    assert EntityInv(sh, e);
    if h != [] {
      assert Names(sh, e, sh.store.objects[HeadKey(e)].tag, |h| - 1);
    }
    if c.Publish? && c.observed.Some? {
      var i :| i < p.since && Names(sh, e, c.observed.value, i);
      assert NamesEarlier(sh, e, c.observed.value, |h|);
    }
  }

  /** The process that acted knows what its new position claims. */
  lemma StepKeepsActor(w: World, a: Action)
    requires Inv(w) && Enabled(w, a)
    ensures ProcessInv(NextShared(w, a), NextProcess(w, a))
  {
    var sh, p := w.shared, w.At(a.p);
    StepKeepsShared(w, a);
    assert ProcessInv(sh, p);
    ProcessIsStable(sh, NextShared(w, a), p);
    match a
    case Start(_, c) => StartIsSound(sh, c);
    case ReadHead(_) => ReadHeadIsSound(sh, p);
    case Resolve(_) => assert EntityInv(sh, p.command.Entity());
    case Swap(_, _, _, _) => SwapIsKnown(w, a);
    case _ =>
  }

  lemma SwapIsKnown(w: World, a: Action)
    requires a.Swap? && Enabled(w, a) && ProcessInv(w.shared, w.At(a.p)) && ProcessInv(NextShared(w, a), w.At(a.p))
    ensures ProcessInv(NextShared(w, a), NextProcess(w, a))
  {
    if a.commits {
      var c := w.At(a.p).command;
      assert NextShared(w, a).History(c.Entity())[|w.shared.History(c.Entity())|] == c.NewHead();
    }
  }

  lemma StepKeepsInv(w: World, a: Action)
    requires Inv(w) && Enabled(w, a)
    ensures Inv(Next(w, a)) && Evolves(w.shared, Next(w, a).shared)
  {
    StepKeepsShared(w, a);
    StepKeepsActor(w, a);
    forall p ensures ProcessInv(Next(w, a).shared, Next(w, a).At(p)) {
      if p != a.p {
        ProcessIsStable(w.shared, Next(w, a).shared, w.At(p));
      }
    }
  }

  // ---------------------------------------------------------------- theorems about every run

  lemma {:induction false} PathKeepsInv(actions: seq<Action>, worlds: seq<World>, i: nat)
    requires IsPath(actions, worlds) && Inv(worlds[0]) && i < |worlds|
    ensures Inv(worlds[i])
  {
    if i > 0 {
      PathKeepsInv(actions, worlds, i - 1);
      StepKeepsInv(worlds[i - 1], actions[i - 1]);
    }
  }

  lemma RunKeepsInv(actions: seq<Action>, worlds: seq<World>, i: nat)
    requires IsRun(actions, worlds) && i < |worlds|
    ensures Inv(worlds[i])
  {
    assert Inv(InitialWorld());
    PathKeepsInv(actions, worlds, i);
  }

  lemma {:induction false} RunEvolves(actions: seq<Action>, worlds: seq<World>, i: nat, j: nat)
    requires IsRun(actions, worlds) && i <= j < |worlds|
    ensures Evolves(worlds[i].shared, worlds[j].shared)
    decreases j
  {
    if i < j {
      RunEvolves(actions, worlds, i, j - 1);
      RunKeepsInv(actions, worlds, j - 1);
      StepKeepsInv(worlds[j - 1], actions[j - 1]);
      EvolvesIsTransitive(worlds[i].shared, worlds[j - 1].shared, worlds[j].shared);
    }
  }

  lemma EvolvesIsTransitive(a: Shared, b: Shared, c: Shared)
    requires Evolves(a, b) && Evolves(b, c)
    ensures Evolves(a, c)
  {
    forall e ensures a.History(e) <= c.History(e) {
      assert a.History(e) <= b.History(e) <= c.History(e);
    }
    forall k | k in a.store.objects && !k.HeadKey? ensures Has(c.store, k, a.store.objects[k].record) {
      assert Has(b.store, k, a.store.objects[k].record);
    }
  }

  /** The durable head of `e`, if there is one. */
  function DurableHead(sh: Shared, e: Entity): Option<Head> {
    if HeadKey(e) in sh.store.objects && sh.store.objects[HeadKey(e)].record.HeadRecord?
    then Some(sh.store.objects[HeadKey(e)].record.head)
    else None
  }

  /** A live head names a durable revision of its entity, a deleted one a durable
      tombstone, and repeats the number and the time written there. */
  ghost predicate NamesItsObject(sh: Shared, e: Entity, head: Head) {
    && head.entity == e
    && if head.deleted
       then
         && head.revisionKey.None? && head.tombstoneKey.Some?
         && exists t: Tombstone ::
              && Has(sh.store, head.tombstoneKey.value, TombstoneRecord(t))
              && t.entity == e && t.revision == head.revision && t.deletedAt == head.updatedAt
       else
         && head.tombstoneKey.None? && head.revisionKey.Some?
         && exists body: Revision ::
              && Has(sh.store, head.revisionKey.value, RevisionRecord(body))
              && body.entity == e && body.revision == head.revision && body.updatedAt == head.updatedAt
  }

  /** In every interleaving the durable heads of an entity so far are revisions
      1, 2, 3, … without skip or repeat, followed by at most one tombstone of the
      last of them; the store holds the newest; and every head, current or past,
      names a durable object of this entity with its own number and time. */
  lemma HeadsCountUp(actions: seq<Action>, worlds: seq<World>, i: nat, e: Entity)
    requires IsRun(actions, worlds) && i < |worlds|
    ensures var sh, h := worlds[i].shared, worlds[i].shared.History(e);
      && HistoryInOrder(h)
      && DurableHead(sh, e) == (if h == [] then None else Some(h[|h| - 1]))
      && forall k :: 0 <= k < |h| ==> NamesItsObject(sh, e, h[k])
  {
    RunKeepsInv(actions, worlds, i);
    var sh, h := worlds[i].shared, worlds[i].shared.History(e);
    assert EntityInv(sh, e);
    forall k | 0 <= k < |h| ensures NamesItsObject(sh, e, h[k]) {
      assert HeadIsBacked(sh, e, h[k]);
      var c: Command :| c.NewHead() == h[k] && c.Entity() == e && Has(sh.store, c.StageKey(), c.StageRecord());
    }
  }

  /** A deleted head is final. */
  lemma DeletedStaysDeleted(actions: seq<Action>, worlds: seq<World>, i: nat, j: nat, e: Entity)
    requires IsRun(actions, worlds) && i <= j < |worlds|
    requires DurableHead(worlds[i].shared, e).Some? && DurableHead(worlds[i].shared, e).value.deleted
    ensures DurableHead(worlds[j].shared, e) == DurableHead(worlds[i].shared, e)
  {
    HeadsCountUp(actions, worlds, i, e);
    HeadsCountUp(actions, worlds, j, e);
    RunEvolves(actions, worlds, i, j);
    var h, h' := worlds[i].shared.History(e), worlds[j].shared.History(e);
    assert h <= h' && h'[|h| - 1].deleted;
  }

  /** A head becomes current only through the swap of a process running a command for it. */
  lemma OnlyItsOwnCommandPublishes(w: World, a: Action, e: Entity)
    requires Inv(w) && Enabled(w, a)
    requires Next(w, a).shared.History(e) != w.shared.History(e)
    ensures a.Swap? && a.commits && w.At(a.p).Swapping?
    ensures var c := w.At(a.p).command;
      && c.Entity() == e
      && Next(w, a).shared.History(e) == w.shared.History(e) + [c.NewHead()]
      && Has(w.shared.store, c.StageKey(), c.StageRecord())
  {
    assert ProcessInv(w.shared, w.At(a.p));
  }

  /** Between its start and now, process `p` has only been running `c`. */
  predicate Running(actions: seq<Action>, p: nat, c: Command, s: nat, i: nat)
    requires i <= |actions|
  {
    && s < i
    && actions[s] == Start(p, c)
    && forall k :: s < k < i && actions[k].p == p ==> !actions[k].Start?
  }

  lemma {:induction false} RunningKeepsStart(actions: seq<Action>, worlds: seq<World>, p: nat, c: Command, s: nat, i: nat)
    requires IsRun(actions, worlds) && i <= |actions| && Running(actions, p, c, s, i)
    ensures var q := worlds[i].At(p); !q.Idle? && !q.Refused? ==> q.command == c && q.since == |worlds[s].shared.History(c.Entity())|
    decreases i
  {
    if s + 1 < i {
      RunningKeepsStart(actions, worlds, p, c, s, i - 1);
    }
  }

  /** The history reached length `n` at some world between `s` and `i`. */
  lemma {:induction false} HistoryReached(actions: seq<Action>, worlds: seq<World>, e: Entity, s: nat, i: nat, n: nat) returns (m: nat)
    requires IsRun(actions, worlds) && s <= i < |worlds|
    requires |worlds[s].shared.History(e)| <= n <= |worlds[i].shared.History(e)|
    ensures s <= m <= i && |worlds[m].shared.History(e)| == n
    decreases i
  {
    if |worlds[i].shared.History(e)| == n {
      m := i;
    } else {
      RunKeepsInv(actions, worlds, i - 1);
      if worlds[i].shared.History(e) != worlds[i - 1].shared.History(e) {
        OnlyItsOwnCommandPublishes(worlds[i - 1], actions[i - 1], e);
      }
      m := HistoryReached(actions, worlds, e, s, i - 1, n);
    }
  }

  /** A command reports success only if its exact head was the durable value at
      some moment of the call, even when the store answered ambiguously. */
  lemma SuccessMeansDurable(actions: seq<Action>, worlds: seq<World>, p: nat, c: Command, s: nat, i: nat) returns (m: nat)
    requires IsRun(actions, worlds) && i <= |actions| && Running(actions, p, c, s, i)
    requires worlds[i].At(p).Succeeded?
    ensures s <= m <= i && DurableHead(worlds[m].shared, c.Entity()) == Some(c.NewHead())
  {
    var e := c.Entity();
    RunKeepsInv(actions, worlds, i);
    RunningKeepsStart(actions, worlds, p, c, s, i);
    RunEvolves(actions, worlds, s, i);
    var h := worlds[i].shared.History(e);
    assert ProcessInv(worlds[i].shared, worlds[i].At(p));
    var k :| worlds[i].At(p).since as int - 1 <= k < |h| && 0 <= k && h[k] == c.NewHead();
    m := HistoryReached(actions, worlds, e, s, i, k + 1);
    RunEvolves(actions, worlds, m, i);
    HeadsCountUp(actions, worlds, m, e);
  }

  // ---------------------------------------------------------------- what a stopped command leaves behind

  /** A head names the object at `k`. */
  predicate Refers(h: Head, k: Key) {
    h.revisionKey == Some(k) || h.tombstoneKey == Some(k)
  }

  /** No head of any entity names, or ever named, the object at `k`. */
  ghost predicate Invisible(sh: Shared, k: Key) {
    forall e, i :: 0 <= i < |sh.History(e)| ==> !Refers(sh.History(e)[i], k)
  }

  /** The process may still write the object at `k` or swap to a head that names it. */
  predicate Pursues(p: Process, k: Key) {
    (p.Staging? || p.CheckingStage? || p.Staged? || p.Swapping?) && p.command.StageKey() == k
  }

  ghost predicate Abandoned(w: World, k: Key) {
    Invisible(w.shared, k) && forall p :: !Pursues(w.At(p), k)
  }

  lemma StepKeepsAbandoned(w: World, a: Action, k: Key)
    requires Inv(w) && Enabled(w, a) && Abandoned(w, k) && (a.Start? ==> a.command.StageKey() != k)
    ensures Abandoned(Next(w, a), k)
  {
    var w' := Next(w, a);
    assert !Pursues(w.At(a.p), k);
    forall e, i | 0 <= i < |w'.shared.History(e)| ensures !Refers(w'.shared.History(e)[i], k) {
      if w'.shared.History(e) != w.shared.History(e) {
        OnlyItsOwnCommandPublishes(w, a, e);
      }
    }
    forall p ensures !Pursues(w'.At(p), k) {
      assert !Pursues(w.At(p), k);
      if p == a.p {
        ActorKeepsCommand(w, a, k);
      }
    }
  }

  /** A process comes to pursue `k` only by a start. */
  lemma ActorKeepsCommand(w: World, a: Action, k: Key)
    requires Enabled(w, a)
    ensures Pursues(NextProcess(w, a), k) ==> if a.Start? then a.command.StageKey() == k else Pursues(w.At(a.p), k)
  {
  }

  /** The object left behind by a command that stopped stays invisible in every
      continuation of the run, unless a command with that key is started again. */
  lemma {:induction false} StrandedStaysInvisible(actions: seq<Action>, worlds: seq<World>, i: nat, j: nat, k: Key)
    requires IsRun(actions, worlds) && i <= j < |worlds| && Abandoned(worlds[i], k)
    requires forall m :: i <= m < j && actions[m].Start? ==> actions[m].command.StageKey() != k
    ensures Abandoned(worlds[j], k)
    ensures forall e :: DurableHead(worlds[j].shared, e).Some? ==> !Refers(DurableHead(worlds[j].shared, e).value, k)
    decreases j
  {
    if i < j {
      StrandedStaysInvisible(actions, worlds, i, j - 1, k);
      RunKeepsInv(actions, worlds, j - 1);
      StepKeepsAbandoned(worlds[j - 1], actions[j - 1], k);
    }
    forall e | DurableHead(worlds[j].shared, e).Some? ensures !Refers(DurableHead(worlds[j].shared, e).value, k) {
      HeadsCountUp(actions, worlds, j, e);
    }
  }

  // ---------------------------------------------------------------- commands with nobody else about

  /** Another record is at the key of the command's immutable object. */
  predicate StageTaken(store: Store<Key, Record>, c: Command) {
    c.StageKey() in store.objects && !Has(store, c.StageKey(), c.StageRecord())
  }

  /** The head is the command's own, or one it may replace. */
  predicate HeadIsReady(store: Store<Key, Record>, c: Command) {
    var k := HeadKey(c.Entity());
    match c
    case Delete(_, _) => true
    case Publish(b, _, observed) =>
      if k !in store.objects then b.revision == 1 && (b.entity.Target? ==> observed.None?)
      else
        var current := store.objects[k];
        || current.record == HeadRecord(c.NewHead())
        || (&& current.record.HeadRecord? && !current.record.head.deleted && current.record.head.revision + 1 == b.revision
            && (b.entity.Target? ==> observed == Some(current.tag)))
  }

  /** Start, write the object and read the head.  A PUT takes effect if it may; if not,
      the object is read back. */
  function StageAlone(w: World, p: nat, c: Command, tag: Tag): World
    requires MayStart(w.shared, c)
  {
    var started := Next(w, Start(p, c));
    if MayCreate(w.shared.store, c.StageKey(), c.StageRecord(), tag) then
      Next(started, PutStage(p, true, tag, Acknowledged))
    else
      Next(Next(started, PutStage(p, false, tag, Ambiguous)), CheckStage(p))
  }

  function ReadAlone(w: World, p: nat, c: Command, tag: Tag): World
    requires MayStart(w.shared, c)
  {
    var staged := StageAlone(w, p, c, tag);
    if staged.At(p).Staged? then Next(staged, ReadHead(p)) else staged
  }

  function SwapAlone(w: World, p: nat, tag: Tag): World
    requires w.At(p).Swapping?
  {
    if MaySwap(w.shared, w.At(p).command, w.At(p).expected, tag) then
      Next(w, Swap(p, true, tag, Acknowledged))
    else
      Next(Next(w, Swap(p, false, tag, Ambiguous)), Resolve(p))
  }

  /** The whole command. */
  function ExecuteAlone(w: World, p: nat, c: Command, stageTag: Tag, headTag: Tag): World
    requires MayStart(w.shared, c)
  {
    var read := ReadAlone(w, p, c, stageTag);
    if read.At(p).Swapping? then SwapAlone(read, p, headTag) else read
  }

  /** The tags the store hands out are allowed for the two objects. */
  predicate TagsAllowed(store: Store<Key, Record>, c: Command, stageTag: Tag, headTag: Tag) {
    && TagAllowed(store, c.StageKey(), c.StageRecord(), stageTag)
    && TagAllowed(store, HeadKey(c.Entity()), HeadRecord(c.NewHead()), headTag)
  }

  /** Staging touches nothing but the command's own object. */
  lemma StagesAlone(w: World, p: nat, c: Command, tag: Tag)
    requires Inv(w) && MayStart(w.shared, c) && TagAllowed(w.shared.store, c.StageKey(), c.StageRecord(), tag)
    ensures var w' := StageAlone(w, p, c, tag);
      && w'.At(p) == (if StageTaken(w.shared.store, c) then Refused(c) else Staged(c, |w.shared.History(c.Entity())|))
      && (forall q :: q != p ==> w'.At(q) == w.At(q))
      && w'.shared == w.shared.(store :=
           if MayCreate(w.shared.store, c.StageKey(), c.StageRecord(), tag)
           then Write(w.shared.store, c.StageKey(), c.StageRecord(), tag) else w.shared.store)
  {
  }

  /** The two stores agree on the object at `k` and on its tags. */
  ghost predicate SameAt(a: Store<Key, Record>, b: Store<Key, Record>, k: Key) {
    && (k in a.objects <==> k in b.objects) && (k in a.objects ==> a.objects[k] == b.objects[k])
    && forall t :: (k, t) in b.named ==> (k, t) in a.named && a.named[(k, t)] == b.named[(k, t)]
  }

  lemma ReadsAlone(w: World, p: nat, c: Command, tag: Tag)
    requires Inv(w) && MayStart(w.shared, c) && TagAllowed(w.shared.store, c.StageKey(), c.StageRecord(), tag)
    ensures var w' := ReadAlone(w, p, c, tag);
      && w'.At(p) == (if StageTaken(w.shared.store, c) then Refused(c) else AfterStage(w.shared, c, |w.shared.History(c.Entity())|))
      && (forall q :: q != p ==> w'.At(q) == w.At(q))
      && w'.shared.history == w.shared.history && SameAt(w.shared.store, w'.shared.store, HeadKey(c.Entity()))
  {
    StagesAlone(w, p, c, tag);
  }

  /** The version a swap expects is the one in the store. */
  predicate Matches(store: Store<Key, Record>, k: Key, expected: Option<Tag>) {
    if k in store.objects then expected == Some(store.objects[k].tag) else expected.None?
  }

  /** The head read decides whether the command can go on. */
  lemma ReadDecides(sh: Shared, c: Command, since: nat)
    requires MayStart(sh, c)
    ensures var ours := Has(sh.store, HeadKey(c.Entity()), HeadRecord(c.NewHead()));
      match AfterStage(sh, c, since)
      case Succeeded(d, s) => d == c && ours && HeadIsReady(sh.store, c)
      case Swapping(d, s, expected) =>
        d == c && !ours && (Matches(sh.store, HeadKey(c.Entity()), expected) <==> HeadIsReady(sh.store, c))
      case Refused(d) => d == c && !HeadIsReady(sh.store, c)
      case _ => false
  {
  }

  lemma SwapsAlone(w: World, p: nat, c: Command, since: nat, expected: Option<Tag>, tag: Tag)
    requires w.At(p) == Swapping(c, since, expected) && TagAllowed(w.shared.store, HeadKey(c.Entity()), HeadRecord(c.NewHead()), tag)
    requires !Has(w.shared.store, HeadKey(c.Entity()), HeadRecord(c.NewHead()))
    ensures var w', k := SwapAlone(w, p, tag), HeadKey(c.Entity());
      if Matches(w.shared.store, k, expected)
      then w'.At(p) == Succeeded(c, since) && w'.shared == Advance(w.shared, c.NewHead(), tag)
      else w'.At(p) == Refused(c) && w'.shared == w.shared
  {
  }

  /** From any state the protocol can be in, a command that nobody disturbs succeeds
      exactly when no other record is at the key of its object and the head is its own
      or one it may replace.  So a replayed command finishes its work. */
  lemma CommandSucceedsExactly(w: World, p: nat, c: Command, stageTag: Tag, headTag: Tag)
    requires Inv(w) && MayStart(w.shared, c) && TagsAllowed(w.shared.store, c, stageTag, headTag)
    ensures var w', h := ExecuteAlone(w, p, c, stageTag, headTag), w.shared.History(c.Entity());
      && (w'.At(p).Succeeded? <==> !StageTaken(w.shared.store, c) && HeadIsReady(w.shared.store, c))
      && (forall q :: q != p ==> w'.At(q) == w.At(q))
      && w'.shared.History(c.Entity()) ==
           h + if w'.At(p).Succeeded? && DurableHead(w.shared, c.Entity()) != Some(c.NewHead()) then [c.NewHead()] else []
  {
    ReadsAlone(w, p, c, stageTag);
    if !StageTaken(w.shared.store, c) {
      FinishesAlone(w.shared, ReadAlone(w, p, c, stageTag), p, c, |w.shared.History(c.Entity())|, headTag);
    }
  }

  /** The rest of the command, from the head that was read in `sh`. */
  lemma FinishesAlone(sh: Shared, read: World, p: nat, c: Command, since: nat, tag: Tag)
    requires MayStart(sh, c) && read.At(p) == AfterStage(sh, c, since)
    requires TagAllowed(sh.store, HeadKey(c.Entity()), HeadRecord(c.NewHead()), tag)
    requires read.shared.history == sh.history && SameAt(sh.store, read.shared.store, HeadKey(c.Entity()))
    ensures var w', h := if read.At(p).Swapping? then SwapAlone(read, p, tag) else read, sh.History(c.Entity());
      && (w'.At(p).Succeeded? <==> HeadIsReady(sh.store, c))
      && (forall q :: q != p ==> w'.At(q) == read.At(q))
      && w'.shared.History(c.Entity()) ==
           h + if w'.At(p).Succeeded? && DurableHead(sh, c.Entity()) != Some(c.NewHead()) then [c.NewHead()] else []
  {
    ReadDecides(sh, c, since);
    if read.At(p).Swapping? {
      SwapsAlone(read, p, c, read.At(p).since, read.At(p).expected, tag);
    }
  }

  // ---------------------------------------------------------------- whose object is in the way

  /** The two commands write one object: they are of one kind and carry one id, for
      one entity and, if they publish, one revision. */
  predicate SameObject(a: Command, b: Command) {
    match (a, b)
    case (Publish(x, i, _), Publish(y, j, _)) => x.entity == y.entity && x.revision == y.revision && i == j
    case (Delete(x, _), Delete(y, _)) => x.entity == y.entity && x.command == y.command
    case _ => false
  }

  /** Their objects have different contents. */
  predicate Differ(a: Command, b: Command) {
    match (a, b)
    case (Publish(x, _, _), Publish(y, _, _)) => x != y
    case (Delete(x, _), Delete(y, _)) => x != y
    case _ => true
  }

  lemma KeysAreShared(a: Command, b: Command)
    ensures a.StageKey() == b.StageKey() <==> SameObject(a, b)
    ensures a.StageRecord() == b.StageRecord() <==> !Differ(a, b)
    ensures !a.StageKey().HeadKey?
  {
  }

  predicate StartedBefore(actions: seq<Action>, s: nat, i: nat, c: Command)
    requires i <= |actions|
  {
    s < i && actions[s].Start? && actions[s].command == c
  }

  lemma {:induction false} CommandWasStarted(actions: seq<Action>, worlds: seq<World>, i: nat, p: nat) returns (s: nat)
    requires IsRun(actions, worlds) && i < |worlds| && !worlds[i].At(p).Idle?
    ensures StartedBefore(actions, s, i, worlds[i].At(p).command)
  {
    var a := actions[i - 1];
    if a.p == p && a.Start? {
      s := i - 1;
    } else {
      s := CommandWasStarted(actions, worlds, i - 1, p);
    }
  }

  /** Every immutable object in the store was written by a command that was started. */
  lemma {:induction false} ObjectWasStaged(actions: seq<Action>, worlds: seq<World>, i: nat, k: Key) returns (s: nat)
    requires IsRun(actions, worlds) && i < |worlds| && !k.HeadKey? && k in worlds[i].shared.store.objects
    ensures s < i && actions[s].Start?
    ensures k == actions[s].command.StageKey()
    ensures worlds[i].shared.store.objects[k].record == actions[s].command.StageRecord()
  {
    var a := actions[i - 1];
    if a.PutStage? && a.commits && worlds[i - 1].At(a.p).command.StageKey() == k {
      s := CommandWasStarted(actions, worlds, i - 1, a.p);
    } else {
      s := ObjectWasStaged(actions, worlds, i - 1, k);
    }
  }

  /** In every run, a command that nobody disturbs succeeds exactly when the head is its
      own or one it may replace, unless a command of its kind with its id was started
      before, for its entity and revision, with other contents.  What any other command
      left behind is not in its way. */
  lemma OnlyItsOwnIdIsInTheWay(
    actions: seq<Action>, worlds: seq<World>, i: nat, p: nat, c: Command, stageTag: Tag, headTag: Tag)
    requires IsRun(actions, worlds) && i < |worlds| && MayStart(worlds[i].shared, c)
    requires TagsAllowed(worlds[i].shared.store, c, stageTag, headTag)
    requires forall s :: 0 <= s < i && actions[s].Start? ==>
      !(SameObject(actions[s].command, c) && Differ(actions[s].command, c))
    ensures ExecuteAlone(worlds[i], p, c, stageTag, headTag).At(p).Succeeded? <==> HeadIsReady(worlds[i].shared.store, c)
  {
    RunKeepsInv(actions, worlds, i);
    CommandSucceedsExactly(worlds[i], p, c, stageTag, headTag);
    KeysAreShared(c, c);
    if c.StageKey() in worlds[i].shared.store.objects {
      var s := ObjectWasStaged(actions, worlds, i, c.StageKey());
      KeysAreShared(actions[s].command, c);
    }
  }

  /** One more step of a path. */
  lemma PathGrows(actions: seq<Action>, worlds: seq<World>, a: Action)
    requires IsPath(actions, worlds) && Enabled(worlds[|actions|], a)
    ensures IsPath(actions + [a], worlds + [Next(worlds[|actions|], a)])
  {
  }
}
