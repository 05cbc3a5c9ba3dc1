/** The local SQLite projection of durable alert records (crates/alert/src/sqlite.rs).

    Each table is a map and each statement an atomic update.  A row's scheduling
    columns are copies of fields of its record and are not repeated here. */
module Projection {
  import opened Wrappers
  import opened AlertState

  /** A row of `monitors`; a tombstone keeps the revision and drops the record. */
  datatype Row = Row(revision: nat, deleted: bool, record: Option<Monitor>, updatedAt: nat, localSeq: nat)

  datatype Tables = Tables(monitors: map<nat, Row>, states: map<nat, State>, localSeq: nat)

  datatype Summary = Summary(monitor: Monitor, state: Option<State>)

  // ---------------------------------------------------------------- statements

  /** Insert a live rule, or advance it to a higher revision; a tombstone wins. */
  function FoldRule(t: Tables, m: Monitor): Tables {
    var seqNo := t.localSeq + 1;
    var row := Row(m.revision, false, Some(m), m.updatedAt, seqNo);
    if m.id !in t.monitors || (!t.monitors[m.id].deleted && m.revision > t.monitors[m.id].revision)
    then Tables(t.monitors[m.id := row], t.states, seqNo)
    else t.(localSeq := seqNo)
  }

  function Max(a: nat, b: nat): nat {
    if a < b then b else a
  }

  /** Turn the row into a tombstone and drop the state. */
  function FoldTombstone(t: Tables, id: nat, revision: nat, at: nat): Tables {
    var seqNo := t.localSeq + 1;
    var monitors :=
      if id !in t.monitors then t.monitors[id := Row(revision, true, None, at, seqNo)]
      else if !t.monitors[id].deleted then t.monitors[id := Row(Max(t.monitors[id].revision, revision), true, None, at, seqNo)]
      else t.monitors;
    Tables(monitors, t.states - {id}, seqNo)
  }

  /** Keep the newest state in `(revision, slot)` order, unless the monitor is tombstoned. */
  function FoldState(t: Tables, id: nat, s: State): Tables {
    if id in t.monitors && t.monitors[id].deleted then t
    else if id !in t.states || Before(t.states[id].revision, t.states[id].lastSlot, s.revision, s.lastSlot)
    then t.(states := t.states[id := s])
    else t
  }

  function Forget(t: Tables, ids: set<nat>): Tables {
    t.(monitors := t.monitors - ids, states := t.states - ids)
  }

  /** The rows a pass with this epoch and listing removes. */
  function Stale(t: Tables, epoch: nat, listed: set<nat>): set<nat> {
    set id | id in t.monitors && t.monitors[id].localSeq <= epoch && id !in listed
  }

  /** The view `get_monitor` gives of one monitor. */
  function View(t: Tables, id: nat): Option<Summary> {
    if id in t.monitors && !t.monitors[id].deleted && t.monitors[id].record.Some?
    then Some(Summary(t.monitors[id].record.value, if id in t.states then Some(t.states[id]) else None))
    else None
  }

  /** The schema's check constraint, and the counter that stamps rows. */
  predicate Consistent(t: Tables) {
    forall id :: id in t.monitors ==>
      && (t.monitors[id].deleted || t.monitors[id].record.Some?)
      && t.monitors[id].localSeq <= t.localSeq
  }

  /** A durable record reaching the projection. */
  datatype Event =
    | RuleEvent(monitor: Monitor)
    | StateEvent(id: nat, state: State)
    | TombstoneEvent(id: nat, revision: nat, at: nat)

  function Apply(t: Tables, e: Event): Tables {
    match e
    case RuleEvent(m) => FoldRule(t, m)
    case StateEvent(id, s) => FoldState(t, id, s)
    case TombstoneEvent(id, r, at) => FoldTombstone(t, id, r, at)
  }

  function FoldFrom(t: Tables, events: seq<Event>): Tables {
    if events == [] then t else Apply(FoldFrom(t, events[..|events| - 1]), events[|events| - 1])
  }

  /** Whatever is folded later, the rows stamped at most `epoch` are rows of `t`, unchanged. */
  ghost predicate Marks(t: Tables, epoch: nat) {
    forall events: seq<Event>, id :: id in FoldFrom(t, events).monitors && FoldFrom(t, events).monitors[id].localSeq <= epoch ==>
      id in t.monitors && t.monitors[id] == FoldFrom(t, events).monitors[id]
  }

  lemma {:induction false} CounterMarks(t: Tables, events: seq<Event>, id: nat)
    requires Consistent(t)
    ensures var u := FoldFrom(t, events);
      && Consistent(u) && t.localSeq <= u.localSeq
      && (id in u.monitors && u.monitors[id].localSeq <= t.localSeq ==> id in t.monitors && t.monitors[id] == u.monitors[id])
  {
    if events != [] {
      CounterMarks(t, events[..|events| - 1], id);
    }
  }

  class AlertsDb {
    var monitors: map<nat, Row>
    var states: map<nat, State>
    var localSeq: nat

    ghost function Contents(): Tables
      reads this
    {
      Tables(monitors, states, localSeq)
    }

    ghost predicate Valid()
      reads this
    {
      Consistent(Contents())
    }

    /** A fresh database. */
    constructor ()
      ensures Valid() && Contents() == Tables(map[], map[], 0)
    {
      monitors, states, localSeq := map[], map[], 0;
    }

    /** A stamp above those of all rows. */
    method NextSeq() returns (seqNo: nat)
      requires Valid()
      modifies this`localSeq
      ensures Valid() && localSeq == seqNo == old(localSeq) + 1
      ensures forall id | id in monitors :: monitors[id].localSeq < seqNo
    {
      localSeq := localSeq + 1;
      seqNo := localSeq;
    }

    /** Every row is stamped at most `epoch`, and every row folded later above it. */
    method ProjectionEpoch() returns (epoch: nat)
      requires Valid()
      ensures forall id | id in monitors :: monitors[id].localSeq <= epoch
      ensures Marks(Contents(), epoch)
    {
      epoch := localSeq;
      forall events: seq<Event>, id |
        id in FoldFrom(Contents(), events).monitors && FoldFrom(Contents(), events).monitors[id].localSeq <= epoch
        ensures id in monitors && monitors[id] == FoldFrom(Contents(), events).monitors[id]
      {
        CounterMarks(Contents(), events, id);
      }
    }

    method FoldMonitor(m: Monitor) returns (changed: bool)
      requires Valid()
      modifies this
      ensures Valid() && Contents() == FoldRule(old(Contents()), m)
      ensures changed <==> monitors != old(monitors)
      ensures changed ==> View(Contents(), m.id).Some? && View(Contents(), m.id).value.monitor == m
    {
      var seqNo := NextSeq();
      changed := m.id !in monitors || (!monitors[m.id].deleted && m.revision > monitors[m.id].revision);
      if changed {
        monitors := monitors[m.id := Row(m.revision, false, Some(m), m.updatedAt, seqNo)];
        assert m.id in old(monitors) ==> old(monitors)[m.id] != monitors[m.id];
      }
    }

    method TombstoneMonitor(id: nat, revision: nat, at: nat)
      requires Valid()
      modifies this
      ensures Valid() && Contents() == FoldTombstone(old(Contents()), id, revision, at)
    {
      var seqNo := NextSeq();
      if id !in monitors {
        monitors := monitors[id := Row(revision, true, None, at, seqNo)];
      } else if !monitors[id].deleted {
        monitors := monitors[id := Row(Max(monitors[id].revision, revision), true, None, at, seqNo)];
      }
      states := states - {id};
    }

    method FoldCurrentState(id: nat, s: State) returns (changed: bool)
      requires Valid()
      modifies this
      ensures Valid() && Contents() == FoldState(old(Contents()), id, s)
      ensures changed <==> states != old(states)
    {
      changed := false;
      if id in monitors && monitors[id].deleted {
        return;
      }
      if id !in states || Before(states[id].revision, states[id].lastSlot, s.revision, s.lastSlot) {
        states := states[id := s];
        changed := true;
        assert id in old(states) ==> old(states)[id] != s;
      }
    }

    method ForgetMonitor(id: nat)
      requires Valid()
      modifies this
      ensures Valid() && Contents() == Forget(old(Contents()), {id})
    {
      states := states - {id};
      monitors := monitors - {id};
    }

    /** Hard-delete the rows stamped at or before `epoch` that are not listed. */
    method PruneMonitors(epoch: nat, listed: set<nat>) returns (removed: nat)
      requires Valid()
      modifies this
      ensures Valid() && Contents() == Forget(old(Contents()), Stale(old(Contents()), epoch, listed))
      ensures removed == |Stale(old(Contents()), epoch, listed)|
    {
      var stale := UnlistedIds(epoch, listed);
      removed := |stale|;
      var left := stale;
      while left != {}
        invariant Valid() && left <= stale
        invariant Contents() == Forget(old(Contents()), stale - left)
        decreases |left|
      {
        var id :| id in left;
        ForgetMonitor(id);
        ForgetOneMore(old(Contents()), stale, left, id);
        left := left - {id};
      }
      assert stale - {} == stale;
    }

    method UnlistedIds(epoch: nat, listed: set<nat>) returns (stale: set<nat>)
      ensures stale == Stale(Contents(), epoch, listed)
    {
      stale := {};
      var rows := monitors.Keys;
      while rows != {}
        invariant rows <= monitors.Keys
        invariant stale == Stale(Contents(), epoch, listed) - rows
        decreases |rows|
      {
        var id :| id in rows;
        if monitors[id].localSeq <= epoch && id !in listed {
          stale := stale + {id};
        }
        rows := rows - {id};
      }
    }

    method GetMonitor(id: nat) returns (summary: Option<Summary>)
      requires Valid()
      ensures summary == View(Contents(), id)
    {
      if id !in monitors || monitors[id].deleted {
        return None;
      }
      summary := Some(Summary(monitors[id].record.value, if id in states then Some(states[id]) else None));
    }
  }

  lemma ForgetOneMore(t: Tables, stale: set<nat>, left: set<nat>, id: nat)
    requires id in left && left <= stale
    ensures Forget(Forget(t, stale - left), {id}) == Forget(t, stale - (left - {id}))
  {
    assert stale - (left - {id}) == stale - left + {id};
  }

  // ---------------------------------------------------------------- confluence

  function FoldAll(events: seq<Event>): Tables {
    FoldFrom(Tables(map[], map[], 0), events)
  }

  ghost predicate Deleted(events: seq<Event>, id: nat) {
    exists e :: e in events && e.TombstoneEvent? && e.id == id
  }

  /** `m` is a rule of `id` among the events with the highest revision. */
  predicate NewestRule(events: seq<Event>, id: nat, m: Monitor) {
    && RuleEvent(m) in events && m.id == id
    && forall e :: e in events && e.RuleEvent? && e.monitor.id == id ==> e.monitor.revision <= m.revision
  }

  /** `s` is a state of `id` among the events that no other is ahead of. */
  predicate NewestState(events: seq<Event>, id: nat, s: State) {
    && StateEvent(id, s) in events
    && forall e :: e in events && e.StateEvent? && e.id == id ==> !Before(s.revision, s.lastSlot, e.state.revision, e.state.lastSlot)
  }

  ghost predicate HasRule(events: seq<Event>, id: nat) {
    exists e :: e in events && e.RuleEvent? && e.monitor.id == id
  }

  ghost predicate HasState(events: seq<Event>, id: nat) {
    exists e :: e in events && e.StateEvent? && e.id == id
  }

  /** What the set of events, taken without order, says about monitor `id`. */
  ghost predicate Describes(events: seq<Event>, id: nat, view: Option<Summary>) {
    if Deleted(events, id) || !HasRule(events, id) then view == None
    else
      && view.Some?
      && NewestRule(events, id, view.value.monitor)
      && (view.value.state.Some? <==> HasState(events, id))
      && (view.value.state.Some? ==> NewestState(events, id, view.value.state.value))
  }

  ghost predicate FoldInv(events: seq<Event>, t: Tables, id: nat) {
    && (id in t.monitors <==> Deleted(events, id) || HasRule(events, id))
    && (id in t.monitors ==> (t.monitors[id].deleted <==> Deleted(events, id)))
    && (id in t.monitors && !t.monitors[id].deleted ==>
          && t.monitors[id].record.Some? && NewestRule(events, id, t.monitors[id].record.value)
          && t.monitors[id].revision == t.monitors[id].record.value.revision)
    && (Deleted(events, id) ==> id !in t.states)
    && (!Deleted(events, id) ==> (id in t.states <==> HasState(events, id)))
    && (id in t.states ==> NewestState(events, id, t.states[id]))
  }

  lemma {:induction false} FoldKeepsInv(events: seq<Event>, id: nat)
    ensures FoldInv(events, FoldAll(events), id)
  {
    if events != [] {
      var n := |events| - 1;
      var e := events[n];
      FoldKeepsInv(events[..n], id);
      assert events == events[..n] + [e];
      var t, t' := FoldAll(events[..n]), FoldAll(events);
      if e.RuleEvent? && e.monitor.id == id
        && (id !in t.monitors || (!t.monitors[id].deleted && e.monitor.revision > t.monitors[id].revision)) {
        assert NewestRule(events, id, e.monitor);
      }
      if e.StateEvent? && e.id == id && id in t'.states && t'.states[id] == e.state {
        assert NewestState(events, id, e.state);
      }
    }
  }

  /** Folding durable records in any order, with any duplication, shows of each
      monitor exactly what the set of records describes: nothing once a tombstone
      is among them, otherwise the newest rule joined with the newest state. */
  lemma FoldShowsNewest(events: seq<Event>, id: nat)
    ensures Describes(events, id, View(FoldAll(events), id))
  {
    FoldKeepsInv(events, id);
  }

  /** Event `k` is the first tombstone of `id`. */
  predicate FirstTombstone(events: seq<Event>, id: nat, k: nat) {
    && k < |events| && events[k].TombstoneEvent? && events[k].id == id
    && forall j :: 0 <= j < k && events[j].TombstoneEvent? ==> events[j].id != id
  }

  predicate RuleOf(e: Event, id: nat) {
    e.RuleEvent? && e.monitor.id == id
  }

  /** A tombstone row keeps the time of the first tombstone, and the highest of its revision
      and those of the rules before it. */
  ghost predicate Buried(events: seq<Event>, id: nat, row: Row, k: nat) {
    && FirstTombstone(events, id, k)
    && row.deleted && row.record.None? && row.updatedAt == events[k].at
    && row.revision >= events[k].revision
    && (forall j :: 0 <= j < k && RuleOf(events[j], id) ==> row.revision >= events[j].monitor.revision)
    && (row.revision == events[k].revision || exists j :: 0 <= j < k && RuleOf(events[j], id) && events[j].monitor.revision == row.revision)
  }

  /** A live row is the copy of its record; a tombstone row is what the first tombstone left. */
  lemma {:induction false} RowIsExact(events: seq<Event>, id: nat)
    requires id in FoldAll(events).monitors
    ensures var row := FoldAll(events).monitors[id];
      if Deleted(events, id) then exists k: nat :: Buried(events, id, row, k)
      else
        && row.record.Some? && NewestRule(events, id, row.record.value)
        && row == Row(row.record.value.revision, false, row.record, row.record.value.updatedAt, row.localSeq)
  {
    FoldKeepsInv(events, id);
    if events != [] {
      var n := |events| - 1;
      var t, t' := FoldAll(events[..n]), FoldAll(events);
      FoldKeepsInv(events[..n], id);
      if id in t.monitors && t'.monitors[id] == t.monitors[id] {
        RowIsExact(events[..n], id);
        if Deleted(events[..n], id) {
          var k: nat :| Buried(events[..n], id, t.monitors[id], k);
          assert Buried(events, id, t'.monitors[id], k);
        }
      } else if events[n].TombstoneEvent? {
        BuriedNow(events, id);
      }
    }
  }

  lemma BuriedNow(events: seq<Event>, id: nat)
    requires events != [] && events[|events| - 1].TombstoneEvent? && events[|events| - 1].id == id
    requires !Deleted(events[..|events| - 1], id)
    ensures id in FoldAll(events).monitors && Buried(events, id, FoldAll(events).monitors[id], |events| - 1)
  {
    var n := |events| - 1;
    var before, t := events[..n], FoldAll(events[..n]);
    FoldKeepsInv(before, id);
    assert forall j | 0 <= j < n :: before[j] == events[j] && before[j] in before;
    if id in t.monitors {
      var m := t.monitors[id].record.value;
      var j :| 0 <= j < n && before[j] == RuleEvent(m);
      assert RuleOf(events[j], id);
    }
  }

  /** One body per monitor and revision, one state per monitor, revision and slot. */
  predicate OneRecordPerVersion(events: seq<Event>) {
    && (forall d, e | d in events && e in events && d.RuleEvent? && e.RuleEvent? ::
          d.monitor.id == e.monitor.id && d.monitor.revision == e.monitor.revision ==> d == e)
    && (forall d, e | d in events && e in events && d.StateEvent? && e.StateEvent? ::
          d.id == e.id && d.state.revision == e.state.revision && d.state.lastSlot == e.state.lastSlot ==> d == e)
  }

  /** Two projections that saw the same records agree on every monitor. */
  lemma ProjectionIsConfluent(events: seq<Event>, others: seq<Event>, id: nat)
    requires OneRecordPerVersion(events)
    requires forall e :: e in events <==> e in others
    ensures View(FoldAll(events), id) == View(FoldAll(others), id)
  {
    FoldShowsNewest(events, id);
    FoldShowsNewest(others, id);
    var v, u := View(FoldAll(events), id), View(FoldAll(others), id);
    if v.Some? {
      assert RuleEvent(v.value.monitor) in events && RuleEvent(u.value.monitor) in events;
      if v.value.state.Some? {
        assert StateEvent(id, v.value.state.value) in events && StateEvent(id, u.value.state.value) in events;
      }
    }
  }

  // ---------------------------------------------------------------- pruning

  /** A reconciliation pass: it captures the epoch, lists the bucket, loads every
      listed id, and prunes. */
  datatype Pass =
    | NoPass
    | Begun(epoch: nat)
    | Loading(epoch: nat, pending: set<nat>, listed: set<nat>)

  datatype World = World(tables: Tables, heads: set<nat>, pass: Pass)

  datatype Action =
    | HeadAppears(id: nat)
    | HeadLost(id: nat)
    | Fold(event: Event)
    | Reopen(localSeq: nat)
    | BeginPass
    | List(ids: set<nat>)
    | Load(id: nat)
    | Prune

  function EventId(e: Event): nat {
    match e
    case RuleEvent(m) => m.id
    case StateEvent(id, _) => id
    case TombstoneEvent(id, _, _) => id
  }

  predicate Enabled(w: World, a: Action) {
    match a
    case Fold(e) => EventId(e) in w.heads
    // A restarted process derives the counter from the rows and abandons the pass.
    case Reopen(n) => forall id :: id in w.tables.monitors ==> w.tables.monitors[id].localSeq <= n
    case List(ids) => w.pass.Begun? && w.heads <= ids
    case Load(id) => w.pass.Loading? && id in w.pass.pending
    case Prune => w.pass.Loading? && w.pass.pending == {}
    case _ => true
  }

  function Next(w: World, a: Action): World
    requires Enabled(w, a)
  {
    match a
    case HeadAppears(id) => w.(heads := w.heads + {id})
    case HeadLost(id) => w.(heads := w.heads - {id})
    case Fold(e) => w.(tables := Apply(w.tables, e))
    case Reopen(n) => w.(tables := w.tables.(localSeq := n), pass := NoPass)
    case BeginPass => w.(pass := Begun(w.tables.localSeq))
    case List(ids) => w.(pass := Loading(w.pass.epoch, ids, {}))
    case Load(id) =>
      // An id without a durable head is left out of the listing.
      w.(pass := Loading(w.pass.epoch, w.pass.pending - {id}, if id in w.heads then w.pass.listed + {id} else w.pass.listed))
    case Prune => w.(tables := Forget(w.tables, Stale(w.tables, w.pass.epoch, w.pass.listed)), pass := NoPass)
  }

  predicate IsRun(actions: seq<Action>, worlds: seq<World>) {
    && |worlds| == |actions| + 1
    && Consistent(worlds[0].tables) && worlds[0].pass.NoPass?
    && forall i :: 0 <= i < |actions| ==> Enabled(worlds[i], actions[i]) && worlds[i + 1] == Next(worlds[i], actions[i])
  }

  /** The pass running at `i` began at action `b`. */
  predicate PassBegan(actions: seq<Action>, worlds: seq<World>, b: nat, i: nat)
    requires IsRun(actions, worlds)
  {
    && b < i < |worlds| && actions[b].BeginPass?
    && forall k :: b < k < i ==> !actions[k].BeginPass? && !actions[k].Prune? && !actions[k].Reopen?
  }

  lemma {:induction false} TablesStayConsistent(actions: seq<Action>, worlds: seq<World>, i: nat)
    requires IsRun(actions, worlds) && i < |worlds|
    ensures Consistent(worlds[i].tables)
  {
    if i > 0 {
      TablesStayConsistent(actions, worlds, i - 1);
    }
  }

  /** While the pass runs, what it has listed or still has to load is every id
      that has been durable since it began; and rows it may judge existed then. */
  lemma {:induction false} PassSeesDurableHeads(actions: seq<Action>, worlds: seq<World>, b: nat, i: nat, id: nat)
    requires IsRun(actions, worlds) && PassBegan(actions, worlds, b, i)
    ensures !worlds[i].pass.NoPass? && worlds[i].pass.epoch == worlds[b].tables.localSeq
    ensures worlds[i].pass.Loading? && id !in worlds[i].pass.pending && id !in worlds[i].pass.listed ==>
              exists k :: b <= k <= i && id !in worlds[k].heads
    ensures id in worlds[i].tables.monitors && worlds[i].tables.monitors[id].localSeq <= worlds[i].pass.epoch ==>
              id in worlds[b].tables.monitors && worlds[b].tables.monitors[id] == worlds[i].tables.monitors[id]
    ensures worlds[i].tables.localSeq >= worlds[b].tables.localSeq
    decreases i
  {
    if b + 1 < i {
      PassSeesDurableHeads(actions, worlds, b, i - 1, id);
      assert worlds[i] == Next(worlds[i - 1], actions[i - 1]);
    } else {
      assert worlds[i] == Next(worlds[b], actions[b]);
    }
  }

  /** Pruning removes a row only if the row has not changed since the pass began
      and its monitor had no durable head at some moment of the pass. */
  lemma PruneRemovesOnlyAbsentMonitors(actions: seq<Action>, worlds: seq<World>, b: nat, i: nat, id: nat)
    requires IsRun(actions, worlds) && PassBegan(actions, worlds, b, i) && i < |actions| && actions[i].Prune?
    requires id in worlds[i].tables.monitors
    ensures id !in worlds[i + 1].tables.monitors ==>
      && id in worlds[b].tables.monitors && worlds[b].tables.monitors[id] == worlds[i].tables.monitors[id]
      && exists k :: b <= k <= i && id !in worlds[k].heads
  {
    PassSeesDurableHeads(actions, worlds, b, i, id);
    assert worlds[i + 1] == Next(worlds[i], actions[i]);
  }

  /** A monitor without a head is not listed and its row is not touched. */
  lemma {:induction false} AbsentIsLeftAlone(actions: seq<Action>, worlds: seq<World>, b: nat, i: nat, id: nat)
    requires IsRun(actions, worlds) && PassBegan(actions, worlds, b, i)
    requires forall k :: b <= k <= i ==> id !in worlds[k].heads
    ensures worlds[i].pass.Loading? ==> id !in worlds[i].pass.listed
    ensures id in worlds[i].tables.monitors <==> id in worlds[b].tables.monitors
    ensures id in worlds[i].tables.monitors ==> worlds[i].tables.monitors[id] == worlds[b].tables.monitors[id]
    decreases i
  {
    if b + 1 < i {
      AbsentIsLeftAlone(actions, worlds, b, i - 1, id);
      assert worlds[i] == Next(worlds[i - 1], actions[i - 1]);
    } else {
      assert worlds[i] == Next(worlds[b], actions[b]);
    }
  }

  /** And it removes every row whose monitor had no durable head while the pass ran,
      together with its state. */
  lemma PruneRemovesEveryAbsentMonitor(actions: seq<Action>, worlds: seq<World>, b: nat, i: nat, id: nat)
    requires IsRun(actions, worlds) && PassBegan(actions, worlds, b, i) && i < |actions| && actions[i].Prune?
    requires id in worlds[b].tables.monitors && forall k :: b <= k <= i ==> id !in worlds[k].heads
    ensures id !in worlds[i + 1].tables.monitors && id !in worlds[i + 1].tables.states
  {
    TablesStayConsistent(actions, worlds, b);
    AbsentIsLeftAlone(actions, worlds, b, i, id);
    PassSeesDurableHeads(actions, worlds, b, i, id);
    assert worlds[i + 1] == Next(worlds[i], actions[i]);
  }

  lemma {:induction false} RowsWereDurable(actions: seq<Action>, worlds: seq<World>, i: nat, j: nat)
    requires IsRun(actions, worlds) && i <= j < |worlds|
    requires worlds[0].tables.monitors.Keys <= worlds[0].heads
    requires forall k :: 0 <= k < |actions| ==> worlds[k].heads <= worlds[k + 1].heads
    ensures worlds[i].tables.monitors.Keys <= worlds[i].heads <= worlds[j].heads
    decreases j
  {
    if i < j {
      RowsWereDurable(actions, worlds, i, j - 1);
      assert worlds[j] == Next(worlds[j - 1], actions[j - 1]);
    } else if i > 0 {
      RowsWereDurable(actions, worlds, i - 1, i - 1);
      assert worlds[i] == Next(worlds[i - 1], actions[i - 1]);
    }
  }

  /** As long as no head is lost, no interleaving of folds with a pass removes the row
      of any monitor. */
  lemma DurableMonitorsAreKept(actions: seq<Action>, worlds: seq<World>, b: nat, i: nat)
    requires IsRun(actions, worlds) && PassBegan(actions, worlds, b, i) && i < |actions| && actions[i].Prune?
    requires worlds[0].tables.monitors.Keys <= worlds[0].heads
    requires forall k :: 0 <= k < |actions| ==> worlds[k].heads <= worlds[k + 1].heads
    ensures worlds[i + 1].tables.monitors == worlds[i].tables.monitors
  {
    forall id | id in worlds[i].tables.monitors ensures id in worlds[i + 1].tables.monitors {
      PruneRemovesOnlyAbsentMonitors(actions, worlds, b, i, id);
      if id !in worlds[i + 1].tables.monitors {
        var k :| b <= k <= i && id !in worlds[k].heads;
        RowsWereDurable(actions, worlds, b, k);
      }
    }
    assert worlds[i + 1] == Next(worlds[i], actions[i]);
  }
}
