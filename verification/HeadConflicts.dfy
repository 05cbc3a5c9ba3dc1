/** What a conflict means to the command that gets it
    (crates/alert/src/store.rs:502-538).

    `update` reads the head back after an ambiguous answer and reports a conflict
    when the bytes are not its own.  The command may have committed all the same and
    been overtaken.  Which heads leave that open is decided here, for every head and
    every command. */
module HeadConflicts {
  import opened Wrappers
  import opened ObjectStore
  import opened HeadProtocol

  /** Some steps lead from `from` to `to`. */
  ghost predicate Leads(from: World, to: World) {
    exists actions, worlds :: IsPath(actions, worlds) && worlds[0] == from && worlds[|actions|] == to
  }

  ghost predicate Reachable(w: World) {
    Leads(InitialWorld(), w)
  }

  lemma LeadsNowhere(w: World)
    ensures Leads(w, w)
  {
    assert IsPath([], [w]);
  }

  lemma LeadsNext(from: World, w: World, a: Action)
    requires Leads(from, w) && Enabled(w, a)
    ensures Leads(from, Next(w, a))
  {
    var actions, worlds :| IsPath(actions, worlds) && worlds[0] == from && worlds[|actions|] == w;
    PathGrows(actions, worlds, a);
    assert IsPath(actions + [a], worlds + [Next(w, a)]) && (worlds + [Next(w, a)])[|actions + [a]|] == Next(w, a);
  }

  lemma LeadsToInv(from: World, w: World)
    requires Leads(from, w) && Inv(from)
    ensures Inv(w)
  {
    var actions, worlds :| IsPath(actions, worlds) && worlds[0] == from && worlds[|actions|] == w;
    PathKeepsInv(actions, worlds, |actions|);
  }

  lemma ReachableInv(w: World)
    requires Reachable(w)
    ensures Inv(w)
  {
    LeadsToInv(InitialWorld(), w);
  }

  /** Process `p` is about to read back head `g` for its command `c`. */
  predicate ReadsBack(w: World, p: nat, c: Command, g: Head) {
    w.At(p).Resolving? && w.At(p).command == c && DurableHead(w.shared, c.Entity()) == Some(g)
  }

  /** The head read back is that of a later revision, or deletes the command's
      revision or a later one. */
  predicate Undecided(c: Command, g: Head) {
    c.Publish? && (g.revision > c.body.revision || (g.deleted && g.revision == c.body.revision))
  }

  /** In every other case, a missing head included, the command never took effect. */
  lemma ConflictIsGenuine(w: World, p: nat)
    requires Inv(w) && w.At(p).Resolving?
    ensures var c := w.At(p).command;
      var g := DurableHead(w.shared, c.Entity());
      g != Some(c.NewHead()) && (g.None? || !Undecided(c, g.value)) ==> c.NewHead() !in w.shared.History(c.Entity())
  {
    assert EntityInv(w.shared, w.At(p).command.Entity());
  }

  // ---------------------------------------------------------------- runs in which a commit is overtaken

  /** Revisions count from one; a target update carries the version it saw, and
      nothing else does. */
  predicate Proper(c: Command) {
    match c
    case Publish(b, _, observed) => b.revision > 0 && (observed.Some? <==> b.entity.Target? && b.revision > 1)
    case Delete(t, _) => t.revision > 0
  }

  /** Distinct tags for the successive heads; the one before revision `c.body.revision`
      gets the tag `c` observed. */
  function TagOf(c: Command, i: nat): Tag
    requires c.Publish? && Proper(c)
  {
    if c.observed.None? then i
    else if i == c.body.revision - 1 then c.observed.value
    else if i == c.observed.value then c.body.revision - 1
    else i
  }

  /** The command for revision `i` in a run where `d` comes last.  Revision
      `c.body.revision` is published by `c`, or by a rival when `c` is to lose. */
  function Plan(c: Command, d: Command, wins: bool, i: nat): (r: Command)
    requires c.Publish? && Proper(c) && d.Entity() == c.Entity() && i > 0
    ensures r.Publish? && Proper(r) && r.Entity() == c.Entity() && r.body.revision == i
    ensures r.observed.Some? ==> r.observed == Some(TagOf(c, i - 1))
    ensures r.StageKey() == c.StageKey() ==> wins && i == c.body.revision
  {
    var observed := if c.Entity().Target? && i > 1 then Some(TagOf(c, i - 1)) else None;
    if i == c.body.revision then
      if wins then c else Publish(Revision(c.Entity(), i, 0, ""), c.id + "+", observed)
    else if d.Publish? && i == d.body.revision then Publish(d.body, d.id, observed)
    else Publish(Revision(c.Entity(), i, 0, ""), "", observed)
  }

  /** The store holds only the head, under one of the first `i` tags, revision objects up
      to `i` and, if `tried`, the object of `c`. */
  ghost predicate Tidy(store: Store<Key, Record>, c: Command, tried: bool, i: nat)
    requires c.Publish? && Proper(c)
  {
    && (forall k :: k in store.objects ==> k == HeadKey(c.Entity()) || Known(k, c, tried, i))
    && (forall kt :: kt in store.named ==>
          if kt.0 == HeadKey(c.Entity()) then Issued(kt.1, c, i) else Known(kt.0, c, tried, i))
  }

  predicate Known(k: Key, c: Command, tried: bool, i: nat) {
    (k.RevisionKey? && k.revision <= i) || (tried && k == c.StageKey())
  }

  ghost predicate Issued(tag: Tag, c: Command, i: nat)
    requires c.Publish? && Proper(c)
  {
    exists r: nat :: 0 < r <= i && tag == TagOf(c, r)
  }

  /** A reachable world after the first `i` planned commands.  Process `p` has tried to
      publish `c` and got no answer. */
  ghost predicate Built(w: World, p: nat, c: Command, d: Command, wins: bool, tried: bool, i: nat)
    requires c.Publish? && Proper(c) && d.Entity() == c.Entity()
  {
    && Reachable(w) && Tidy(w.shared.store, c, tried, i) && Follows(w.shared, c, d, wins, i)
    && (i >= c.body.revision || tried ==> w.At(p).Resolving? && w.At(p).command == c)
  }

  ghost predicate Follows(sh: Shared, c: Command, d: Command, wins: bool, i: nat)
    requires c.Publish? && Proper(c) && d.Entity() == c.Entity()
  {
    && |sh.History(c.Entity())| == i
    && (forall r: nat :: 0 < r <= i ==> sh.History(c.Entity())[r - 1] == Plan(c, d, wins, r).NewHead())
    && (i > 0 ==> HeadKey(c.Entity()) in sh.store.objects && sh.store.objects[HeadKey(c.Entity())].tag == TagOf(c, i))
  }

  lemma TagsDiffer(c: Command, i: nat, j: nat)
    requires c.Publish? && Proper(c) && i != j
    ensures TagOf(c, i) != TagOf(c, j)
  {
  }

  lemma LeadsAlone(from: World, w: World, p: nat, c: Command, tag: Tag)
    requires Leads(from, w) && MayStart(w.shared, c)
    ensures Leads(from, ReadAlone(w, p, c, tag))
  {
    var started := Next(w, Start(p, c));
    LeadsNext(from, w, Start(p, c));
    if MayCreate(w.shared.store, c.StageKey(), c.StageRecord(), tag) {
      LeadsNext(from, started, PutStage(p, true, tag, Acknowledged));
    } else {
      LeadsNext(from, started, PutStage(p, false, tag, Ambiguous));
      LeadsNext(from, Next(started, PutStage(p, false, tag, Ambiguous)), CheckStage(p));
    }
    var staged := StageAlone(w, p, c, tag);
    if staged.At(p).Staged? {
      LeadsNext(from, staged, ReadHead(p));
    }
  }

  /** A command for revision `i + 1` that saw the head before it. */
  predicate IsNext(x: Command, c: Command, i: nat)
    requires c.Publish? && Proper(c)
  {
    && x.Publish? && Proper(x) && x.Entity() == c.Entity() && x.body.revision == i + 1
    && (i > 0 && x.observed.Some? ==> x.observed == Some(TagOf(c, i)))
  }

  /** It may start, and goes on to swap from that head. */
  lemma NextGoesOn(sh: Shared, c: Command, d: Command, wins: bool, x: Command, i: nat)
    requires c.Publish? && Proper(c) && d.Entity() == c.Entity() && IsNext(x, c, i)
    requires SharedInv(sh) && Follows(sh, c, d, wins, i)
    ensures MayStart(sh, x) && AfterStage(sh, x, i) == Swapping(x, i, if i == 0 then None else Some(TagOf(c, i)))
  {
    assert EntityInv(sh, c.Entity());
    if i > 0 {
      assert sh.History(c.Entity())[i - 1] == Plan(c, d, wins, i).NewHead();
    }
  }

  /** Process `q` is about to swap to the head of `x`; nothing else has changed but the
      object of `x`. */
  ghost predicate Poised(w: World, read: World, q: nat, x: Command, c: Command, i: nat)
    requires c.Publish? && Proper(c)
  {
    && Reachable(read) && read.shared.history == w.shared.history
    && (forall p :: p != q ==> read.At(p) == w.At(p))
    && read.At(q) == Swapping(x, i, if i == 0 then None else Some(TagOf(c, i)))
    && TagAllowed(w.shared.store, x.StageKey(), x.StageRecord(), 0)
    && read.shared.store == Write(w.shared.store, x.StageKey(), x.StageRecord(), 0)
  }

  lemma IsPoised(w: World, p: nat, q: nat, c: Command, d: Command, wins: bool, tried: bool, x: Command, i: nat) returns (read: World)
    requires c.Publish? && Proper(c) && d.Entity() == c.Entity() && Built(w, p, c, d, wins, tried, i)
    requires IsNext(x, c, i) && !Known(x.StageKey(), c, tried, i)
    ensures Poised(w, read, q, x, c, i)
  {
    ReachableInv(w);
    NextGoesOn(w.shared, c, d, wins, x, i);
    StagesAlone(w, q, x, 0);
    ReadsAlone(w, q, x, 0);
    LeadsAlone(InitialWorld(), w, q, x, 0);
    read := ReadAlone(w, q, x, 0);
  }

  lemma TagIsNew(store: Store<Key, Record>, c: Command, tried: bool, i: nat)
    requires c.Publish? && Proper(c) && Tidy(store, c, tried, i)
    ensures (HeadKey(c.Entity()), TagOf(c, i + 1)) !in store.named
  {
    if (HeadKey(c.Entity()), TagOf(c, i + 1)) in store.named {
      var r: nat :| 0 < r <= i && TagOf(c, i + 1) == TagOf(c, r);
      TagsDiffer(c, r, i + 1);
    }
  }

  /** The object of `c` is written. */
  lemma TidyAfterTry(store: Store<Key, Record>, c: Command, i: nat)
    requires c.Publish? && Proper(c) && Tidy(store, c, false, i) && TagAllowed(store, c.StageKey(), c.StageRecord(), 0)
    ensures Tidy(Write(store, c.StageKey(), c.StageRecord(), 0), c, true, i)
  {
  }

  /** The head of the next revision is written, under the next tag. */
  lemma TidyAfterSwap(store: Store<Key, Record>, c: Command, tried: bool, x: Command, i: nat)
    requires c.Publish? && Proper(c) && Tidy(store, c, tried, i) && TagAllowed(store, x.StageKey(), x.StageRecord(), 0)
    requires x.Publish? && x.Entity() == c.Entity() && x.body.revision == i + 1 && (tried ==> c.body.revision == i + 1)
    ensures var staged, k, tag := Write(store, x.StageKey(), x.StageRecord(), 0), HeadKey(c.Entity()), TagOf(c, i + 1);
      && (k, tag) !in staged.named
      && Tidy(Write(staged, k, HeadRecord(x.NewHead()), tag), c, false, i + 1)
  {
    TagIsNew(store, c, tried, i);
    var tag := TagOf(c, i + 1);
    assert Issued(tag, c, i + 1);
    forall t | Issued(t, c, i) ensures Issued(t, c, i + 1) {
      var r: nat :| 0 < r <= i && t == TagOf(c, r);
    }
  }

  /** The swap of a poised process takes effect. */
  lemma SwapsTo(w: World, read: World, q: nat, c: Command, d: Command, wins: bool, x: Command, i: nat, report: Report) returns (w': World)
    requires c.Publish? && Proper(c) && d.Entity() == c.Entity() && SharedInv(w.shared) && Follows(w.shared, c, d, wins, i)
    requires Poised(w, read, q, x, c, i) && x == Plan(c, d, wins, i + 1) && !report.Broken?
    requires (HeadKey(c.Entity()), TagOf(c, i + 1)) !in read.shared.store.named
    ensures Reachable(w') && Follows(w'.shared, c, d, wins, i + 1)
    ensures w'.At(q) == (if report.Acknowledged? then Succeeded(x, i) else Resolving(x, i)) && forall p :: p != q ==> w'.At(p) == w.At(p)
    ensures w'.shared.store == Write(read.shared.store, HeadKey(c.Entity()), HeadRecord(x.NewHead()), TagOf(c, i + 1))
  {
    assert EntityInv(w.shared, c.Entity());
    var swap := Swap(q, true, TagOf(c, i + 1), report);
    assert Enabled(read, swap);
    LeadsNext(InitialWorld(), read, swap);
    w' := Next(read, swap);
    assert w'.shared.History(c.Entity()) == w.shared.History(c.Entity()) + [x.NewHead()];
  }

  /** The next planned command is published. */
  lemma Publishes(w: World, p: nat, c: Command, d: Command, wins: bool, tried: bool, i: nat) returns (w': World)
    requires c.Publish? && Proper(c) && d.Entity() == c.Entity() && Built(w, p, c, d, wins, tried, i)
    requires tried <==> !wins && i + 1 == c.body.revision
    ensures Built(w', p, c, d, wins, false, i + 1)
  {
    var x, mine := Plan(c, d, wins, i + 1), wins && i + 1 == c.body.revision;
    var q := if mine then p else p + 1;
    var read := IsPoised(w, p, q, c, d, wins, tried, x, i);
    TidyAfterSwap(w.shared.store, c, tried, x, i);
    ReachableInv(w);
    w' := SwapsTo(w, read, q, c, d, wins, x, i, if mine then Ambiguous else Acknowledged);
  }

  /** Process `p` stages `c`, reads the head and swaps without effect and without an answer. */
  lemma TriesInVain(w: World, p: nat, c: Command, d: Command, i: nat) returns (w': World)
    requires c.Publish? && Proper(c) && d.Entity() == c.Entity() && Built(w, p, c, d, false, false, i) && i + 1 == c.body.revision
    ensures Built(w', p, c, d, false, true, i)
  {
    var read := IsPoised(w, p, p, c, d, false, false, c, i);
    TidyAfterTry(w.shared.store, c, i);
    LeadsNext(InitialWorld(), read, Swap(p, false, 0, Ambiguous));
    w' := Next(read, Swap(p, false, 0, Ambiguous));
  }

  lemma {:induction false} Build(p: nat, c: Command, d: Command, wins: bool, i: nat) returns (w: World)
    requires c.Publish? && Proper(c) && d.Entity() == c.Entity()
    ensures Built(w, p, c, d, wins, false, i)
  {
    if i == 0 {
      w := InitialWorld();
      LeadsNowhere(w);
    } else {
      w := Build(p, c, d, wins, i - 1);
      if !wins && i == c.body.revision {
        w := TriesInVain(w, p, c, d, i - 1);
        w := Publishes(w, p, c, d, wins, true, i - 1);
      } else {
        w := Publishes(w, p, c, d, wins, false, i - 1);
      }
    }
  }

  /** Process `q` is about to delete the last planned revision. */
  lemma DeletionIsPoised(w: World, p: nat, c: Command, d: Command, wins: bool, i: nat) returns (read: World)
    requires c.Publish? && Proper(c) && d.Delete? && d.Entity() == c.Entity() && d.tombstone.revision == i > 0
    requires Built(w, p, c, d, wins, false, i)
    ensures Reachable(read) && read.shared.history == w.shared.history && (forall q :: q != p + 1 ==> read.At(q) == w.At(q))
    ensures read.At(p + 1) == Swapping(d.(seen := TagOf(c, i)), i, Some(TagOf(c, i)))
    ensures SameAt(w.shared.store, read.shared.store, HeadKey(c.Entity()))
  {
    var x := d.(seen := TagOf(c, i));
    ReachableInv(w);
    assert EntityInv(w.shared, c.Entity());
    assert w.shared.History(c.Entity())[i - 1] == Plan(c, d, wins, i).NewHead();
    ReadsAlone(w, p + 1, x, 0);
    LeadsAlone(InitialWorld(), w, p + 1, x, 0);
    read := ReadAlone(w, p + 1, x, 0);
  }

  lemma Deletes(w: World, p: nat, c: Command, d: Command, wins: bool, i: nat) returns (w': World)
    requires c.Publish? && Proper(c) && d.Delete? && d.Entity() == c.Entity() && d.tombstone.revision == i > 0
    requires Built(w, p, c, d, wins, false, i)
    ensures Reachable(w') && w'.At(p) == w.At(p)
    ensures w'.shared.History(c.Entity()) == w.shared.History(c.Entity()) + [d.NewHead()]
    ensures DurableHead(w'.shared, c.Entity()) == Some(d.NewHead())
  {
    var read := DeletionIsPoised(w, p, c, d, wins, i);
    TagIsNew(w.shared.store, c, false, i);
    var swap := Swap(p + 1, true, TagOf(c, i + 1), Acknowledged);
    assert Enabled(read, swap);
    LeadsNext(InitialWorld(), read, swap);
    w' := Next(read, swap);
  }

  /** Where the head read back leaves the question open, there is a run in which the
      command committed and one in which it did not. */
  lemma UndecidedEitherWay(p: nat, c: Command, d: Command, wins: bool) returns (w: World)
    requires Proper(c) && Proper(d) && d.Entity() == c.Entity() && Undecided(c, d.NewHead())
    ensures Reachable(w) && ReadsBack(w, p, c, d.NewHead()) && (c.NewHead() in w.shared.History(c.Entity()) <==> wins)
  {
    var n := d.NewHead().revision;
    w := Build(p, c, d, wins, n);
    CommittedExactly(w.shared, c, d, wins, n);
    if d.Delete? {
      w := Deletes(w, p, c, d, wins, n);
    } else {
      LastIsDurable(w, p, c, d, wins);
    }
  }

  lemma CommittedExactly(sh: Shared, c: Command, d: Command, wins: bool, n: nat)
    requires c.Publish? && Proper(c) && d.Entity() == c.Entity() && Follows(sh, c, d, wins, n) && c.body.revision <= n
    requires d.Publish? ==> d.body.revision != c.body.revision
    ensures c.NewHead() in sh.History(c.Entity()) <==> wins
  {
    var h, m := sh.History(c.Entity()), c.body.revision - 1;
    forall k: nat | k < |h| ensures h[k] == Plan(c, d, wins, k + 1).NewHead() {
    }
    assert h[m] == Plan(c, d, wins, m + 1).NewHead();
  }

  lemma LastIsDurable(w: World, p: nat, c: Command, d: Command, wins: bool)
    requires c.Publish? && Proper(c) && Proper(d) && d.Publish? && d.Entity() == c.Entity() && d.body.revision > c.body.revision
    requires Built(w, p, c, d, wins, false, d.body.revision)
    ensures DurableHead(w.shared, c.Entity()) == Some(d.NewHead())
  {
    ReachableInv(w);
    assert EntityInv(w.shared, c.Entity());
    assert w.shared.History(c.Entity())[d.body.revision - 1] == Plan(c, d, wins, d.body.revision).NewHead();
  }

  /** For every command and every head it may read back: the conflict is genuine in all
      reachable states if and only if the head is neither of a later revision nor a
      tombstone of the command's revision or a later one. */
  lemma ConflictIsGenuineExactly(p: nat, c: Command, d: Command)
    requires Proper(c) && Proper(d) && d.Entity() == c.Entity() && d.NewHead() != c.NewHead()
    ensures (forall w :: Reachable(w) && ReadsBack(w, p, c, d.NewHead()) ==> c.NewHead() !in w.shared.History(c.Entity()))
       <==> !Undecided(c, d.NewHead())
  {
    if Undecided(c, d.NewHead()) {
      var w := UndecidedEitherWay(p, c, d, true);
    } else {
      forall w | Reachable(w) && ReadsBack(w, p, c, d.NewHead()) ensures c.NewHead() !in w.shared.History(c.Entity()) {
        ReachableInv(w);
        ConflictIsGenuine(w, p);
      }
    }
  }

  // ---------------------------------------------------------------- from any state

  /** The command publishes the next revision of a rule that is live or new. */
  predicate PublishesNext(sh: Shared, c: Command) {
    && c.Publish? && c.body.entity.Rule? && c.observed.None?
    && var h := sh.History(c.Entity());
    && c.body.revision == |h| + 1
    && (h != [] ==> !h[|h| - 1].deleted)
  }

  lemma NextIsReady(sh: Shared, c: Command)
    requires SharedInv(sh) && PublishesNext(sh, c)
    ensures MayStart(sh, c) && HeadIsReady(sh.store, c) && AfterStage(sh, c, |sh.History(c.Entity())|).Swapping?
    ensures DurableHead(sh, c.Entity()) != Some(c.NewHead())
  {
    assert EntityInv(sh, c.Entity());
  }

  /** The swap takes effect and its answer is lost. */
  lemma CommitsUnheard(w: World, p: nat, c: Command, n: Tag) returns (w': World)
    requires Inv(w) && PublishesNext(w.shared, c) && c.StageKey() !in w.shared.store.objects
    requires forall kt :: kt in w.shared.store.named ==> kt.1 < n
    ensures Leads(w, w') && w'.At(p) == Resolving(c, |w.shared.History(c.Entity())|)
    ensures w'.shared.History(c.Entity()) == w.shared.History(c.Entity()) + [c.NewHead()]
    ensures w'.shared.store ==
      Write(Write(w.shared.store, c.StageKey(), c.StageRecord(), n), HeadKey(c.Entity()), HeadRecord(c.NewHead()), n)
  {
    NextIsReady(w.shared, c);
    StagesAlone(w, p, c, n);
    ReadsAlone(w, p, c, n);
    LeadsNowhere(w);
    LeadsAlone(w, w, p, c, n);
    var read := ReadAlone(w, p, c, n);
    ReadDecides(w.shared, c, |w.shared.History(c.Entity())|);
    var swap := Swap(p, true, n, Ambiguous);
    assert Enabled(read, swap);
    LeadsNext(w, read, swap);
    w' := Next(read, swap);
  }

  lemma LeadsThrough(from: World, w: World, p: nat, c: Command, stageTag: Tag, headTag: Tag)
    requires Leads(from, w) && MayStart(w.shared, c)
    ensures Leads(from, ExecuteAlone(w, p, c, stageTag, headTag))
  {
    LeadsAlone(from, w, p, c, stageTag);
    var read := ReadAlone(w, p, c, stageTag);
    if read.At(p).Swapping? {
      if MaySwap(read.shared, read.At(p).command, read.At(p).expected, headTag) {
        LeadsNext(from, read, Swap(p, true, headTag, Acknowledged));
      } else {
        LeadsNext(from, read, Swap(p, false, headTag, Ambiguous));
        LeadsNext(from, Next(read, Swap(p, false, headTag, Ambiguous)), Resolve(p));
      }
    }
  }

  /** The next command publishes undisturbed. */
  lemma Overtakes(from: World, w: World, q: nat, d: Command, stageTag: Tag, headTag: Tag) returns (w': World)
    requires Leads(from, w) && Inv(from) && PublishesNext(w.shared, d)
    requires d.StageKey() !in w.shared.store.objects && TagsAllowed(w.shared.store, d, stageTag, headTag)
    ensures Leads(from, w') && DurableHead(w'.shared, d.Entity()) == Some(d.NewHead()) && forall p :: p != q ==> w'.At(p) == w.At(p)
    ensures w.shared.History(d.Entity()) <= w'.shared.History(d.Entity())
  {
    LeadsToInv(from, w);
    NextIsReady(w.shared, d);
    CommandSucceedsExactly(w, q, d, stageTag, headTag);
    LeadsThrough(from, w, q, d, stageTag, headTag);
    w' := ExecuteAlone(w, q, d, stageTag, headTag);
    LeadsToInv(from, w');
    assert EntityInv(w'.shared, d.Entity());
  }

  /** Any two commands for consecutive revisions can show it, in any state: the first
      one's swap takes effect, its answer is lost, and the second publishes before the
      read back. */
  lemma CommittedCommandCanReportConflict(w: World, p: nat, q: nat, c: Command, d: Command, n: Tag) returns (w': World)
    requires Inv(w) && p != q && PublishesNext(w.shared, c)
    requires d.Publish? && d.observed.None? && d.Entity() == c.Entity() && d.body.revision == c.body.revision + 1
    requires c.StageKey() !in w.shared.store.objects && d.StageKey() !in w.shared.store.objects
    requires forall kt :: kt in w.shared.store.named ==> kt.1 < n
    ensures Leads(w, w') && w'.At(p) == Refused(c) && c.NewHead() in w'.shared.History(c.Entity())
  {
    var w1 := CommitsUnheard(w, p, c, n);
    var w2 := Overtakes(w, w1, q, d, n, n + 1);
    LeadsNext(w, w2, Resolve(p));
    w' := Next(w2, Resolve(p));
  }
}
