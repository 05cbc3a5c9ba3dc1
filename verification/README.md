# Scry in Dafny

A model of the parts of Scry whose correctness is hardest to see from the code, with
proofs. `dafny verify dfyconfig.toml` checks everything.

**Durable alerts** (`crates/alert`, `crates/scry-alertd`)

- `AlertState` is the state machine of one monitor, `AlertRuns` its runs: ordering,
  counting, holds and episodes.
- `ObjectStore` is the shared store with its conditional PUTs. `HeadProtocol` and
  `AlertStateHeads` are the two publication protocols over it: any number of processes, any
  interleaving of their store calls, crashes between any two calls, writes that take
  effect and are reported as failed. `HeadConflicts` says what a conflict means.
  `AlertStore` and `StateStore` are the operations as the program runs them, call by call,
  as steps of those protocols.
- `Projection` is the local SQLite projection, and `DurableProjection` joins it to the
  protocols. `Schedule` picks the slot to evaluate. `Template` validates and renders
  notification bodies.

**Bit stream codec** (`crates/binschema-runtime`)

- `Bits` holds the laws of masks and shifts, `BitStream` what a stream of bits means,
  `BitStreamEncoder` and `BitStreamDecoder` the two classes with their fast paths,
  `VarLength` and `VarLengthIo` the six variable-length integers.
  `BitStreamRoundTrip` runs writers, `finish` and readers one after the other;
  `BitStreamLayout` and `VarLengthLayout` say which bits and bytes come out.

**Index and lineage** (`crates/block`, `crates/compact`): `Bloom` and `Ancestry`.

**Stream algorithms**: `MetricBatches` and `CriTail` (`crates/agent`), `SpanTree`
(`desktop`).

## Reading the model

- Machine integers are natural numbers; every place where a width, a saturation or a
  wrap-around shows is written out. Shifts of signed LEB128 wrap at 64 as in a release
  build.
- A version tag of the object store may be a counter or a content hash: the protocols
  rely only on a tag never naming two records of one key. Canonical JSON and SHA-256 are
  injective.
- A float is its IEEE class with an exact value; the code only compares.
- What comes from outside is a parameter: the steps of other processes, the answer to each
  conditional PUT and which GETs fail, the clock, the jitter digest, the two gram hashes and
  the filter size, the outcome of each shipment, the timestamp parser and the UTF-8 test.

## Where the code and its comments differ

- `crates/alert/src/state.rs:147-149` says hold time never crosses a rule edit. A recovery
  hold does when the edit takes effect on an outage evaluation:
  `AlertRuns.RecoveryHoldCanCrossAnEdit`, and exactly then:
  `AlertRuns.RecoveryStaysInOneRevisionExactly`.
- `crates/alert/src/store.rs:508-509` says anything but our own bytes read back is a
  genuine conflict. A write that committed and was overtaken is reported as one too:
  `HeadConflicts.CommittedCommandCanReportConflict`. Which heads leave it open:
  `HeadConflicts.ConflictIsGenuineExactly`.
- `crates/alert/src/store.rs:408-411` says a losing writer leaves its transition
  unreachable. It can also be in the way of the next evaluation of its slot:
  `AlertStateHeads.StrandedTransitionBlocks`, and exactly then:
  `AlertStateHeads.EvaluationCommitsExactly`.
- `latest_due_slot` misses a due slot when the newest ended one overflows:
  `Schedule.DueSlotCanBeMissed`, and exactly then:
  `Schedule.LatestDueSlotIsNewestExactly`.
- The LEB128 reader refuses every ten-byte encoding, so a `u64` from 2^63 on does not read
  back: `VarLength.LebRoundTrip`.
- The bloom builder drops a gram whose first hash it has seen:
  `Bloom.NoFalseNegativesExactly` says exactly when that is harmless.
- `crates/block/src/bloom.rs:241-243` says parsing a sidecar is never a correctness risk.
  Some headers parse to a filter whose probe panics: `Bloom.UnusableSidecarsParse`, and
  exactly then: `Bloom.ParsedAnswersExactly`.
- The byte limit on an ancestor closure can never be the one that fails:
  `Ancestry.CompactedAncestorClosure`.
- The template scanner looks for a stray `}}` only after the last placeholder:
  `Template.CanonicalIsCut` and `Template.CutIsCanonical` say which strings pass.

## Model

| member | source | states |
|---|---|---|
| `AlertRuns.RunExists` | crates/alert/src/state.rs:153-219 | every sequence of evaluations, in any order of revisions and slots, has a run, so what is proved of runs is proved of something |
| `AlertRuns.SequenceCountsStatusChanges` | crates/alert/src/state.rs:196-209 | in every run `transition_sequence` is the number of status changes so far, counted independently over the states |
| `AlertRuns.OneStepIsOrdered` | crates/alert/src/state.rs:160-170 | a covered `(revision, slot)` leaves the state as it was; every other step stamps its own revision and slot and strictly raises the pair |
| `AlertRuns.RunIsMonotone` | crates/alert/src/state.rs:94-97 | no run ever moves backwards in `(revision, slot)` |
| `AlertRuns.EffectiveStepsIncrease` | crates/alert/src/state.rs:160-170 | the steps that take effect have strictly increasing `(revision, slot)`, whatever replays and late results come between |
| `AlertRuns.InterruptedIsWellFormed` | crates/alert/src/state.rs:192-195 | in every run `interrupted` is set only in NoData or Error, and only to Firing or Recovering |
| `AlertRuns.InterruptedIsHeldBefore` | crates/alert/src/state.rs:192-195 | `interrupted` is the active status, with its `since`, of the last state before the outage began, and is set if and only if there is one |
| `AlertRuns.ActiveUntilResolved` | crates/alert/src/state.rs:74-83 | an active alert, its outages included, stays active until a step ends Inactive or Disabled, and is never Pending in between |
| `AlertRuns.ActiveExactly` | crates/alert/src/state.rs:74-83 | an alert counts as active if and only if it fired and no step since ended Inactive or Disabled |
| `AlertRuns.SinceIsEntryTime` | crates/alert/src/state.rs:181-191 | `since` of a status, or of the one an outage interrupted, is the clock of the step that entered it: the state before did not carry it, or an edit restarted a hold; every state from there on carries it |
| `AlertRuns.ChangeIsReported` | crates/alert/src/state.rs:170-218 | a step reports the statuses on both sides and whether they differ; `resumed` if and only if an outage ends with the status held just before it began |
| `AlertRuns.StatusFollowsTheRule` | crates/alert/src/state.rs:221-312 | with breach said by the six comparators on numbers: Disabled if and only if the rule is; a breach fires or, without an active alert and with a `for` hold, is Pending; a clear value is Inactive or, with an active alert and a recovery hold, Recovering; each outage policy ends as its name says |
| `AlertRuns.FiresAtOnceExactly` | crates/alert/src/state.rs:269-277 | with no `for` hold, or on an active alert whatever its holds, a step ends Firing if and only if the rule is enabled and the observation counts as a breach, or a failed evaluation keeps a Firing status |
| `AlertRuns.ResolvesAtOnceExactly` | crates/alert/src/state.rs:289-300 | with no recovery hold an active alert becomes Inactive if and only if the rule is enabled and the value is clear |
| `AlertRuns.LastValueIsLatest` | crates/alert/src/state.rs:198-206 | `last_value` is the value of the latest step that brought one, if the rule was not edited since, and nothing otherwise |
| `AlertRuns.OutageIsRecorded` | crates/alert/src/state.rs:221-267 | a state is stale if and only if the rule is enabled and the observation is no value; the error class is that of the failure, if any; the clock is that of the step |
| `AlertRuns.EpisodesAreSeparated` | crates/alert/src/state.rs:269-312 | two entries into Firing from a non-active state have an Inactive or Disabled state between them |
| `AlertRuns.PendingHasStretch` | crates/alert/src/state.rs:269-287 | a Pending state ends an unbroken Pending stretch under one revision, begun at its `since` |
| `AlertRuns.FiresExactlyAfterHold` | crates/alert/src/state.rs:269-287 | with `for_seconds > 0` a non-active alert fires on a breaching step if and only if the Pending stretch, under one revision and with no clear value in it, has lasted `for_seconds` |
| `AlertRuns.RecoveringHasStretch` | crates/alert/src/state.rs:289-312 | a Recovering state, or the one an outage interrupted, ends a stretch with no breaching observation begun at its `since` |
| `AlertRuns.RecoveryContinues` | crates/alert/src/state.rs:289-312 | a step that carries a recovery on without having entered it saw no breach, and changes the revision only on an outage |
| `AlertRuns.ResolvesExactlyAfterHold` | crates/alert/src/state.rs:289-312 | with `recover_for_seconds > 0` an active alert becomes Inactive if and only if the value is clear, the rule was not edited on this step and that stretch has lasted `recover_for_seconds` |
| `AlertRuns.RecoveryStaysInOneRevisionExactly` | crates/alert/src/state.rs:181-195 | the recovery stretch lies under one revision if and only if no rule edit took effect on an outage evaluation in it |
| `AlertRuns.RecoveryHoldCanCrossAnEdit` | crates/alert/src/state.rs:146-149 | a concrete run whose recovery hold crosses an edit, against the comment in the code |
| `HeadProtocol.StepKeepsInv` | crates/alert/src/store.rs:80-310 | every store step of every process keeps the protocol invariant, and the shared state only evolves: histories grow, immutable objects stay, tags keep their meaning |
| `HeadProtocol.RunKeepsInv` | crates/alert/src/store.rs:80-310 | the invariant holds in every world of every interleaving, with crashes, replays and lost answers |
| `HeadProtocol.HeadsCountUp` | crates/alert/src/store.rs:80-106 | in every interleaving the durable heads of a rule or target are revisions 1, 2, 3, … without skip or repeat, then at most one tombstone; every head, current or past, names a durable revision or tombstone object with its id, revision and time |
| `HeadProtocol.DeletedStaysDeleted` | crates/alert/src/store.rs:140-158 | once the durable head is a tombstone it never changes again |
| `HeadProtocol.StrandedStaysInvisible` | crates/alert/src/store.rs:73-79 | in every continuation of every run: an object that no head has named and no process is working on is named by no head, unless a command with its key is started again |
| `HeadProtocol.SwapReplacesPredecessor` | crates/alert/src/store.rs:92-97 | a swap that takes effect replaces exactly the live predecessor revision, or the head a deletion read |
| `HeadProtocol.SuccessMeansDurable` | crates/alert/src/store.rs:510-538 | a command succeeds only if its own head was the durable value at some moment of the call |
| `HeadProtocol.CommandSucceedsExactly` | crates/alert/src/store.rs:80-310 | from any reachable state an undisturbed command, rule or target, publish or delete, new or replayed, succeeds if and only if no other record is at the key of its object and the head is its own or one it may replace |
| `HeadProtocol.KeysAreShared` | crates/alert/src/records.rs:288-328 | two commands write one object if and only if they are of one kind, with one command id, for one entity and, if they publish, one revision; none writes at a head's key |
| `HeadProtocol.ObjectWasStaged` | crates/alert/src/store.rs:73-79 | every immutable object in the store is that of a command that was started earlier in the run |
| `HeadProtocol.OnlyItsOwnIdIsInTheWay` | crates/alert/src/records.rs:288-328 | in every run, unless a command of its kind with its id was started before for its entity and revision with other contents, an undisturbed command succeeds if and only if the head is its own or one it may replace: nothing any other command left behind blocks it |
| `HeadConflicts.ConflictIsGenuine` | crates/alert/src/store.rs:526-532 | reading back no head, an earlier revision, deleted or not, or another live head of the same revision means that the command never took effect; so does any head but its own for a deletion |
| `HeadConflicts.UndecidedEitherWay` | crates/alert/src/store.rs:502-538 | reading back a later revision, or a tombstone of the command's revision or a later one, leaves it open: for every such head there is a run in which the command committed and one in which it did not |
| `HeadConflicts.ConflictIsGenuineExactly` | crates/alert/src/store.rs:508-509 | for every command and every head it may read back: the conflict is genuine in all reachable states if and only if the head is not of those |
| `HeadConflicts.CommittedCommandCanReportConflict` | crates/alert/src/store.rs:502-509 | from any state, two commands for consecutive revisions can show a conflict for a head that became durable, against the comment in the code |
| `AlertStore.AlertStore.Yield` | crates/alert/src/store.rs:64-71 | between two store calls any other processes take any steps; the invariant survives and this process is untouched |
| `AlertStore.AlertStore.CreateStage` | crates/alert/src/store.rs:473-500 | `create_identical` on the immutable object: Ok when it is durable, our own bytes read back included; a collision means other bytes are there; an object error means a PUT or GET broke off |
| `AlertStore.AlertStore.SwapHead` | crates/alert/src/store.rs:510-538 | `update`: Ok is the protocol's success, a conflict its refusal with another head read back last, an object error a PUT or GET that broke off |
| `AlertStore.AlertStore.ReadBackStage` | crates/alert/src/store.rs:485-493 | after an ambiguous answer: our bytes are success, other bytes a collision, a failed GET an object error |
| `AlertStore.AlertStore.ReadBack` | crates/alert/src/store.rs:526-532 | after an ambiguous answer: our bytes are success, anything else a refusal, a failed GET an object error even if the swap took effect |
| `AlertStore.AlertStore.AdvanceHead` | crates/alert/src/store.rs:80-106 | already ours, swap from the predecessor, create, or conflict: every result is the protocol's, and a conflict means the head read last is not ours |
| `AlertStore.AlertStore.DeleteHead` | crates/alert/src/store.rs:140-158 | the tombstone swap from the head version the caller saw, every result the protocol's |
| `AlertStore.AlertStore.Execute` | crates/alert/src/store.rs:80-310 | under every interference and every answer the operation keeps the invariant, Ok means its exact head was durable at some moment of the call, and every error says what the store held when it was read last |
| `AlertStateHeads.ProposalIsAcceptable` | crates/alert/src/records.rs:248-285 | whatever an evaluator proposes on a backed head passes `validate` and `verify_transition` |
| `AlertStateHeads.ProposalExtendsChain` | crates/alert/src/state.rs:196-209 | a proposal raises the sequence by one exactly with a new transition, which carries the new state and links to the transition before; without one the reference of the prior head is kept |
| `AlertStateHeads.ProposalTellsTheChange` | crates/scry-alertd/src/evaluator.rs:278-308 | a proposal carries a transition if and only if the status changes; the record has the evaluation's slot, revision, clock and observation, the status before it, and `resumed` if and only if an outage ends with the status it interrupted; the head has the clock |
| `AlertStateHeads.SwapReplacesPrior` | crates/alert/src/store.rs:429-436 | a head swap that takes effect replaces exactly the head its evaluator read |
| `AlertStateHeads.StepKeepsInv` | crates/alert/src/store.rs:412-437 | every store step of every evaluator keeps the protocol invariant |
| `AlertStateHeads.RunKeepsInv` | crates/alert/src/store.rs:412-437 | the invariant holds in every world of every interleaving |
| `AlertStateHeads.HeadsFormARun` | crates/alert/src/store.rs:412-437 | for any number of racing evaluators, crashes and lost answers, a monitor's durable heads are one run of `evaluate` in which every step takes effect, so `(revision, slot)` strictly increases |
| `AlertStateHeads.TransitionsTellTheHistory` | crates/scry-alertd/src/evaluator.rs:278-308 | in every interleaving a transition is committed if and only if the status differs from that of the head before it; its `previous_status` is that head's, and `resumed` says that an outage ended with the status held before it began |
| `AlertStateHeads.HeadsAreBacked` | crates/alert/src/records.rs:248-285 | every head that is ever durable passes `validate`, and its `latest_transition` object is durable with the referenced digest and the head's monitor, deployment, sequence and status, then and later |
| `AlertStateHeads.OnlyCommittedTransitionsAreReachable` | crates/alert/src/store.rs:403-411 | following `previous` links from a head visits only transitions of committed heads: a losing writer's transition is never reachable |
| `AlertStateHeads.ChainIsCommitted` | crates/alert/src/store.rs:439-449 | every transition on the chain was published by an evaluation whose head became durable |
| `AlertStateHeads.SuccessMeansDurable` | crates/alert/src/store.rs:412-437 | a commit succeeds only if its exact head was the durable value at some moment after the head was read |
| `AlertStateHeads.UnreadyMeansCovered` | crates/scry-alertd/src/evaluator.rs:211-333 | in every reachable store an evaluator that read the head has something acceptable to commit if and only if the head does not cover its slot |
| `AlertStateHeads.EvaluationCommitsExactly` | crates/alert/src/store.rs:412-437 | from any reachable state an undisturbed evaluation commits if and only if the head does not cover its slot and no other record is at the key of its transition; otherwise the heads stay as they are |
| `AlertStateHeads.KeysAreShared` | crates/alert/src/records.rs:337-351 | two transitions share a key if and only if they are of one monitor, revision and slot, with one sequence number and one status |
| `AlertStateHeads.TransitionWasRead` | crates/alert/src/store.rs:403-411 | every transition in the store was written by an evaluation of its slot earlier in the run |
| `AlertStateHeads.OnlyItsOwnSlotIsInTheWay` | crates/alert/src/store.rs:403-411 | in every run, an undisturbed evaluation of a slot nobody has tried before commits if and only if the head does not cover the slot |
| `AlertStateHeads.StrandedTransitionBlocks` | crates/alert/src/records.rs:340-351 | a transition left behind by an evaluator that stopped blocks the same slot evaluated again to the same status from another observation, because the key does not hold the digest |
| `StateStore.StateStore.ReadBackTransition` | crates/alert/src/store.rs:485-493 | after an ambiguous answer: our bytes are success, other bytes a collision, a failed GET an object error |
| `StateStore.StateStore.ReadBack` | crates/alert/src/store.rs:526-532 | after an ambiguous answer: our bytes are success, anything else a refusal, a failed GET an object error even if the swap took effect |
| `StateStore.StateStore.CreateTransition` | crates/alert/src/store.rs:473-500 | publishing the transition object, identical bytes counting as success, other bytes a collision |
| `StateStore.StateStore.SwapHead` | crates/alert/src/store.rs:510-538 | the head swap of an evaluation: every result is the protocol's, and a conflict means the head read last is not ours |
| `StateStore.StateStore.CommitState` | crates/alert/src/store.rs:412-437 | transition first, head last: every result is the protocol's, and every error says what the store held when it was read last |
| `StateStore.StateStore.EvaluateOnce` | crates/scry-alertd/src/evaluator.rs:211-333 | one evaluation under every interference: nothing is committed only if the head read covers the slot; Ok means the head computed from the head read was durable at some moment of the call; an object error means a PUT or GET broke off, and every other error is explained by what was read last |
| `Projection.AlertsDb.constructor` | crates/alert/src/sqlite.rs:83-108 | a fresh database is empty with counter zero |
| `Projection.AlertsDb.NextSeq` | crates/alert/src/sqlite.rs:110-113 | a stamp above that of every row, and the counter stays at least every stamp |
| `Projection.AlertsDb.ProjectionEpoch` | crates/alert/src/sqlite.rs:115-120 | every row is stamped at most the epoch, and whatever is folded later, the rows stamped at most the epoch are rows of now, unchanged |
| `Projection.CounterMarks` | crates/alert/src/sqlite.rs:110-120 | over any sequence of folds the counter keeps above the stamps and only rows already there carry stamps up to the old counter |
| `Projection.AlertsDb.FoldMonitor` | crates/alert/src/sqlite.rs:124-157 | folds a rule by revision, a tombstone winning; `changed` exactly when the table changed, and then the view shows the rule |
| `Projection.AlertsDb.TombstoneMonitor` | crates/alert/src/sqlite.rs:159-192 | turns the row into a tombstone that keeps the higher revision, and drops the state |
| `Projection.AlertsDb.FoldCurrentState` | crates/alert/src/sqlite.rs:214-246 | keeps the lexicographically newest state unless tombstoned; `changed` exactly when the table changed |
| `Projection.AlertsDb.ForgetMonitor` | crates/alert/src/sqlite.rs:197-212 | removes the row and the state |
| `Projection.AlertsDb.PruneMonitors` | crates/alert/src/sqlite.rs:270-282 | removes exactly the rows unlisted and last changed at or before the epoch |
| `Projection.AlertsDb.UnlistedIds` | crates/alert/src/sqlite.rs:284-304 | the ids of those rows, each once |
| `Projection.AlertsDb.GetMonitor` | crates/alert/src/sqlite.rs:456-477 | the live rule joined with its state, if any |
| `Projection.FoldShowsNewest` | crates/alert/src/sqlite.rs:124-246 | after any sequence of folds the view is what the set of records says: nothing if a tombstone is among them, else the highest revision joined with the lexicographically greatest state |
| `Projection.RowIsExact` | crates/alert/src/sqlite.rs:124-192 | after any sequence of folds a live row is the copy of its newest rule; a tombstone row has the time of the first tombstone and the highest of its revision and those of the rules before it |
| `Projection.ProjectionIsConfluent` | crates/alert/src/sqlite.rs:124-246 | two databases that folded the same records in any order and with any repetition show the same monitors |
| `Projection.TablesStayConsistent` | crates/alert/src/sqlite.rs:29-35 | in every interleaving of folds and passes the schema's check constraint and the stamps hold |
| `Projection.PruneRemovesOnlyAbsentMonitors` | crates/alert/src/sqlite.rs:270-304 | a pass removes a row only if it did not change since the epoch and the head was absent at some moment of the pass |
| `Projection.PruneRemovesEveryAbsentMonitor` | crates/alert/src/sqlite.rs:270-304 | in every interleaving a pass removes, with its state, each row there when it began whose monitor had no durable head while it ran |
| `Projection.DurableMonitorsAreKept` | crates/scry-alertd/src/projection.rs:140-207 | as long as no head is lost, in every interleaving of local folds with the pass the prune removes no row |
| `DurableProjection.StatesArePerSlot` | crates/alert/src/store.rs:412-437 | in any run of the state protocol two durable states of a monitor with the same revision and slot are the same |
| `DurableProjection.RulesArePerRevision` | crates/alert/src/store.rs:80-106 | in any run of the rule protocol two durable bodies of a rule with the same revision are the same |
| `DurableProjection.PassKeepsEveryMonitor` | crates/scry-alertd/src/projection.rs:140-207 | over any run of the rule protocol, deletions included, and any interleaving of local folds with the pass, the prune removes no row |
| `DurableProjection.ReplicasAgree` | crates/alert/src/sqlite.rs:124-246 | databases that saw the same durable records of any runs of the two protocols agree on every monitor |
| `Schedule.SlotIsExact` | crates/alert/src/schedule.rs:22-54 | checked `u64` arithmetic gives the unbounded slot if and only if it fits |
| `Schedule.EndedSlots` | crates/alert/src/schedule.rs:66-70 | how many intervals have ended, as the division bounds it |
| `Schedule.SlotIsJittered` | crates/alert/src/schedule.rs:22-54 | a slot that fits is a whole interval from the epoch, run after the delay plus an offset below the interval: the digest's remainder up to the jitter, or below the interval if that is shorter |
| `Schedule.LatestDueSlotIsNewestExactly` | crates/alert/src/schedule.rs:56-89 | `latest_due_slot` returns the due slot with the highest id, or nothing when none is due, if and only if the newest ended slot can be represented (or is the first and not due) |
| `Schedule.DueSlotCanBeMissed` | crates/alert/src/schedule.rs:78-88 | at the end of the clock's range a due slot is missed: a concrete input |
| `Schedule.RoomForJitterSuffices` | crates/alert/src/schedule.rs:56-89 | `now` plus the jitter cap within `u64` is enough |
| `Schedule.LatestDueSlotIsMonotone` | crates/alert/src/schedule.rs:56-89 | within that condition the returned id never decreases as `now` grows |
| `BitStream.WordRoundTrip` | crates/binschema-runtime/src/bitstream.rs:69-107 | a value's bits in stream order read back as the value masked to their number, for both bit orders |
| `BitStream.BytesRoundTrip` | crates/binschema-runtime/src/bitstream.rs:150-217 | a word's bytes read back as the word, for both endiannesses and any width |
| `BitStream.OpRoundTrip` | crates/binschema-runtime/src/bitstream.rs:514-740 | one write reads back wherever it stands in a stream, aligned or not |
| `BitStream.StreamRoundTrip` | crates/binschema-runtime/src/bitstream.rs:69-740 | for both bit orders and any sequence of bit fields and integers, each at whatever alignment the ones before left, the matching reads in order return the values written, masked to their width |
| `BitStream.ByteIsWord` | crates/binschema-runtime/src/bitstream.rs:134-147 | a byte written at any alignment is a one-byte word |
| `BitStream.ByteReadsAsWord` | crates/binschema-runtime/src/bitstream.rs:618-638 | a byte read at any alignment is a one-byte word |
| `BitStreamLayout.FieldLayout` | crates/binschema-runtime/src/bitstream.rs:69-125 | in the finished bytes, at any position and in both bit orders: which bit of which byte each bit of a field is |
| `BitStreamLayout.WordBitLayout` | crates/binschema-runtime/src/bitstream.rs:134-217 | and each bit of an integer's bytes: the stream's order on a byte boundary, least significant first off it |
| `BitStreamLayout.AlignedWordLayout` | crates/binschema-runtime/src/bitstream.rs:134-217 | on a byte boundary an integer is its bytes, most or least significant first as asked, whatever the bit order |
| `BitStreamEncoder.BitStreamEncoder.constructor` | crates/binschema-runtime/src/bitstream.rs:35-42 | an empty stream |
| `BitStreamEncoder.BitStreamEncoder.FlushByte` | crates/binschema-runtime/src/bitstream.rs:127-131 | the current byte joins the buffer, all eight bits |
| `BitStreamEncoder.BitStreamEncoder.WriteSingleBit` | crates/binschema-runtime/src/bitstream.rs:109-124 | appends the bit |
| `BitStreamEncoder.BitStreamEncoder.WriteBits` | crates/binschema-runtime/src/bitstream.rs:69-107 | appends the value's bits, nothing for a width outside 1 to 64; the fast path and the bit loop alike |
| `BitStreamEncoder.BitStreamEncoder.WriteField` | crates/binschema-runtime/src/bitstream.rs:80-92 | the MSB-first fast path appends the same bits as the loop |
| `BitStreamEncoder.BitStreamEncoder.WriteUint8` | crates/binschema-runtime/src/bitstream.rs:134-147 | appends the byte in stream order when aligned, least significant bit first otherwise |
| `BitStreamEncoder.BitStreamEncoder.WriteUint16` | crates/binschema-runtime/src/bitstream.rs:150-169 | appends the two-byte word operation |
| `BitStreamEncoder.BitStreamEncoder.WriteUint32` | crates/binschema-runtime/src/bitstream.rs:172-195 | appends the four-byte word operation |
| `BitStreamEncoder.BitStreamEncoder.WriteUint64` | crates/binschema-runtime/src/bitstream.rs:198-217 | appends the eight-byte word operation, by halves when unaligned |
| `BitStreamEncoder.BitStreamEncoder.Finish` | crates/binschema-runtime/src/bitstream.rs:486-491 | the bytes hold every bit written, then fewer than eight zero bits |
| `BitStreamDecoder.BitStreamDecoder.constructor` | crates/binschema-runtime/src/bitstream.rs:504-511 | a decoder at the start |
| `BitStreamDecoder.BitStreamDecoder.ReadSingleBit` | crates/binschema-runtime/src/bitstream.rs:576-596 | the bit at the position, or end of input |
| `BitStreamDecoder.BitStreamDecoder.ReadBitLoop` | crates/binschema-runtime/src/bitstream.rs:561-573 | the value of the next bits in the given order, or end of input |
| `BitStreamDecoder.BitStreamDecoder.ReadBits` | crates/binschema-runtime/src/bitstream.rs:514-573 | the bit-field read of the stream for widths 1 to 64, an error for other widths, end of input when bits are missing |
| `BitStreamDecoder.BitStreamDecoder.ReadField` | crates/binschema-runtime/src/bitstream.rs:525-558 | the MSB-first fast path from one or two bytes equals the bit loop |
| `BitStreamDecoder.BitStreamDecoder.ReadUint8` | crates/binschema-runtime/src/bitstream.rs:618-638 | the byte at any alignment |
| `BitStreamDecoder.BitStreamDecoder.ReadUint16` | crates/binschema-runtime/src/bitstream.rs:641-672 | the two-byte word read of the stream at any alignment |
| `BitStreamDecoder.BitStreamDecoder.ReadUint32` | crates/binschema-runtime/src/bitstream.rs:675-710 | the four-byte word read of the stream at any alignment |
| `BitStreamDecoder.BitStreamDecoder.ReadUint64` | crates/binschema-runtime/src/bitstream.rs:713-740 | the eight-byte word read of the stream at any alignment |
| `VarLength.LebRoundTrip` | crates/binschema-runtime/src/bitstream.rs:399-413 | LEB128: a `u64` below 2^63 reads back with the bytes after it left over; every larger one is refused by the reader |
| `VarLength.ZigzagRoundTrip` | crates/binschema-runtime/src/bitstream.rs:349-352 | zigzag is undone on every `i64`, and reads back if and only if it lies in -2^62 to 2^62 - 1 |
| `VarLength.SlebRoundTrip` | crates/binschema-runtime/src/bitstream.rs:356-370 | signed LEB128: every `i64` reads back |
| `VarLength.DerRoundTrip` | crates/binschema-runtime/src/bitstream.rs:374-395 | DER lengths (section 8.1.3 of ITU-T X.690): every `u64` reads back |
| `VarLength.ByteLength` | crates/binschema-runtime/src/bitstream.rs:378-384 | the number of bytes is the least that holds the value |
| `VarLength.EbmlRoundTrip` | crates/binschema-runtime/src/bitstream.rs:417-446 | EBML (section 4 of RFC 8794): values up to 2^56 - 2 read back, the writer refuses every other |
| `VarLength.VlqRoundTrip` | crates/binschema-runtime/src/bitstream.rs:450-477 | MIDI-style VLQ: values up to 0x0FFFFFFF read back, the writer refuses every other |
| `VarLengthLayout.LebLayout` | crates/binschema-runtime/src/bitstream.rs:396-413 | LEB128 writes the least number of seven-bit groups, at least one, least significant first, the continuation bit on all but the last |
| `VarLengthLayout.ZigzagLength` | crates/binschema-runtime/src/bitstream.rs:346-352 | zigzag takes the least number of groups that hold the number in two's complement |
| `VarLengthLayout.SlebLayout` | crates/binschema-runtime/src/bitstream.rs:354-370 | so does signed LEB128, whose groups are those of the number itself |
| `VarLengthLayout.DerLayout` | crates/binschema-runtime/src/bitstream.rs:372-394 | one byte if and only if below 128; otherwise their marked number and the least number of bytes of the value, most significant first |
| `VarLengthLayout.EbmlLayout` | crates/binschema-runtime/src/bitstream.rs:415-446 | the least width w with the value at most 2^(7w) - 2, and the value under the marker bit at 7w, most significant byte first |
| `VarLengthLayout.VlqLayout` | crates/binschema-runtime/src/bitstream.rs:448-477 | the least number of groups, most significant first, the continuation bit on all but the last |
| `VarLengthLayout.LebReadsAny` | crates/binschema-runtime/src/bitstream.rs:975-996 | of any bytes, padded ones included: up to nine groups read as their sum, more are refused, and a number that does not end is refused or runs out |
| `VarLengthLayout.SlebReadsAny` | crates/binschema-runtime/src/bitstream.rs:928-952 | of any bytes: up to nine groups read as their sum in two's complement |
| `VarLengthLayout.VlqReadsAny` | crates/binschema-runtime/src/bitstream.rs:1030-1055 | of any bytes: up to four groups read as their sum, more are refused, and a number that does not end is refused or runs out |
| `BitStreamRoundTrip.WriteItem` | crates/binschema-runtime/src/bitstream.rs:69-477 | every writer appends the bits of its item, at any alignment |
| `BitStreamRoundTrip.ReadItem` | crates/binschema-runtime/src/bitstream.rs:514-1055 | every reader, where its item stands, returns the value and moves past it |
| `BitStreamRoundTrip.RoundTrip` | crates/binschema-runtime/src/bitstream.rs:35-1055 | for both bit orders and any sequence of bit fields, integers and the six variable-length integers, each at whatever alignment the ones before left: write them, finish, and read them back knowing only their kinds; every read returns the value written |
| `VarLengthIo.WrittenIsAhead` | crates/binschema-runtime/src/bitstream.rs:134-147 | bytes written at any alignment are the next bytes a decoder finds there |
| `VarLengthIo.WriteLeb` | crates/binschema-runtime/src/bitstream.rs:399-413 | the loop of masks and shifts appends the LEB128 bytes |
| `VarLengthIo.ReadLeb` | crates/binschema-runtime/src/bitstream.rs:976-997 | the reader's loop returns what the LEB128 reading function says, and leaves the bytes after it |
| `VarLengthIo.WriteZigzag` | crates/binschema-runtime/src/bitstream.rs:349-352 | the shift and exclusive-or give the zigzag value |
| `VarLengthIo.ReadZigzag` | crates/binschema-runtime/src/bitstream.rs:921-925 | the reader undoes it |
| `VarLengthIo.WriteSleb` | crates/binschema-runtime/src/bitstream.rs:356-370 | appends the signed LEB128 bytes |
| `VarLengthIo.ReadSleb` | crates/binschema-runtime/src/bitstream.rs:929-951 | the reader's loop with its sign extension |
| `VarLengthIo.WriteDer` | crates/binschema-runtime/src/bitstream.rs:374-395 | appends the short or long form |
| `VarLengthIo.ReadDer` | crates/binschema-runtime/src/bitstream.rs:955-972 | reads either form, refusing more than eight length bytes |
| `VarLengthIo.WriteEbml` | crates/binschema-runtime/src/bitstream.rs:417-446 | appends the EBML bytes, whose width `VarLengthLayout.EbmlLayout` proves least, or refuses and writes nothing |
| `VarLengthIo.ReadEbml` | crates/binschema-runtime/src/bitstream.rs:1000-1027 | finds the width by the leading zeros and strips the marker |
| `VarLengthIo.WriteVlq` | crates/binschema-runtime/src/bitstream.rs:450-477 | appends the groups most significant first, or refuses and writes nothing |
| `VarLengthIo.ReadVlq` | crates/binschema-runtime/src/bitstream.rs:1031-1055 | reads at most four groups |
| `Bloom.BuiltExactly` | crates/block/src/bloom.rs:143-160 | a bit of a built filter is set if and only if some collected gram probes it |
| `Bloom.BodiesKept` | crates/block/src/bloom.rs:104-126 | when the first hash decides the second among the strings in question, the pair of every window of every body is collected |
| `Bloom.TextsAreClosed` | crates/block/src/bloom.rs:92-126 | all byte strings, and the ASCII strings, are closed under taking parts |
| `Bloom.NoFalseNegativesExactly` | crates/block/src/bloom.rs:104-276 | over any class of strings closed under taking parts: for any bodies, pattern and size the filter has no false negatives, if and only if grams with equal first hashes have equal second hashes |
| `Bloom.DroppedGramIsMissed` | crates/block/src/bloom.rs:110-114 | otherwise the two grams as bodies and a size with two probes show a missed pattern |
| `Bloom.SidecarRoundTrip` | crates/block/src/bloom.rs:226-259 | parsing the sidecar bytes gives back the filter, whatever follows them |
| `Bloom.NoBlockIsSkipped` | crates/block/src/bloom.rs:196-259 | a pattern that occurs in a body is admitted by the built filter and by the one read back from its sidecar |
| `Bloom.RejectsExactly` | crates/block/src/bloom.rs:196-211 | a pattern is rejected if and only if some probe of some window of it, at any position, finds its bit not set |
| `Bloom.ProbeWrapsOnce` | crates/block/src/bloom.rs:261-276 | the wrapping probe is the exact sum modulo 2^64, then modulo the size |
| `Bloom.SidecarLayout` | crates/block/src/bloom.rs:226-240 | the sidecar byte by byte: magic, version, n-gram, probe count and size in network order, bits |
| `Bloom.BodyBloomBuilder.constructor` | crates/block/src/bloom.rs:81-87 | the n-gram width is clamped to 1 to 255 |
| `Bloom.BodyBloomBuilder.AddBodyBounded` | crates/block/src/bloom.rs:104-126 | collects every window of the body, or stops at the first new one that would cross the bound, keeping those before it |
| `Bloom.BodyBloomBuilder.AddBody` | crates/block/src/bloom.rs:92-96 | without a bound every window is collected |
| `Bloom.BodyBloomBuilder.FinishBounded` | crates/block/src/bloom.rs:143-160 | nothing if and only if the estimate and the bit array exceed the bound, else the built filter |
| `Bloom.BodyBloom.SetGram` | crates/block/src/bloom.rs:261-266 | sets exactly the probes of the gram, in place |
| `Bloom.BodyBloom.TestGram` | crates/block/src/bloom.rs:268-276 | true exactly when every probe is set |
| `Bloom.BodyBloom.ContainsPattern` | crates/block/src/bloom.rs:196-211 | on any parsed filter: an answer if and only if windows are not empty and there are bits to probe, and then true exactly when every gram of the pattern is admitted; short patterns always |
| `Bloom.BodyBloom.ToBytesBounded` | crates/block/src/bloom.rs:226-240 | the sidecar bytes unless they exceed the bound |
| `Bloom.FromBytes` | crates/block/src/bloom.rs:244-259 | the parsed filter, of the size its header says, or nothing on a bad header or a short buffer |
| `Bloom.ParsedAnswersExactly` | crates/block/src/bloom.rs:244-276 | a parsed filter answers every pattern if and only if its n-gram is not zero and it has bits when it has probes |
| `Bloom.UnusableSidecarsParse` | crates/block/src/bloom.rs:244-259 | eighteen bytes that parse to a filter with empty windows, and eighteen that parse to one without bits |
| `Bloom.BuildFromBodies` | crates/block/src/bloom.rs:181-190 | the filter built over all bodies |
| `Ancestry.CompactedAncestorClosure` | crates/block/src/meta.rs:55-112 | the strictly sorted closure, or the fault of the first faulty input; the byte limit can never be the reason |
| `Ancestry.AcceptedExactly` | crates/block/src/meta.rs:62-101 | a merge is accepted if and only if the inputs are distinct blocks other than the output, none lists itself or the output, every list is strictly sorted, and all ancestors together are at most 584: no prefix fails before the whole |
| `Ancestry.FaultIsTrue` | crates/block/src/meta.rs:62-101 | the error names an input with that fault, and nothing is wrong before it |
| `Ancestry.SomePairOutOfOrder` | crates/block/src/meta.rs:86-90 | true exactly when the list is not strictly increasing |
| `Ancestry.ClosureIsReachability` | crates/block/src/meta.rs:24-29 | over any history of compactions with fresh ids, `compacted_from` is exactly the set of blocks reachable by direct-input edges |
| `Ancestry.ClosuresAreCanonical` | crates/block/src/meta.rs:24-29 | every closure is strictly sorted and never contains its own block |
| `Ancestry.OnlyTheLimitCanFail` | crates/block/src/meta.rs:62-101 | merging distinct blocks of a history under a fresh id can only fail on the number of ancestors |
| `Ancestry.AncestryAtMost` | crates/block/src/meta.rs:16-21 | a block of level l has at most fanout + … + fanout^l ancestors |
| `Ancestry.ValidatePolicy` | crates/compact/src/policy.rs:73-99 | accepts a policy if and only if that sum at the top level is within the limit |
| `Ancestry.ValidatedPolicyNeverFails` | crates/compact/src/policy.rs:61-72 | under an accepted policy no merge is refused: the closure is returned, within both limits |
| `Ancestry.ShippedPolicyFits` | crates/block/src/meta.rs:16-21 | fanout 8 through level 3 needs 584 entries and 22,777 bytes |
| `MetricBatches.ApproxSeriesBytes` | crates/agent/src/lib.rs:798-809 | the saturating fold is the exact size, saturated |
| `MetricBatches.MetricsBatcher.KeepSeries` | crates/agent/src/lib.rs:720-729 | exactly the series whose cached decision passes are kept, each with its last entry; a decision is made once, on the labels first seen |
| `MetricBatches.CountUses` | crates/agent/src/lib.rs:731-735 | each kept series knows how many samples are to come |
| `MetricBatches.MetricsBatcher.FlushMetrics` | crates/agent/src/lib.rs:887-942 | the pending batch is handed over as it stands, nothing is lost, and everything handed over is in order even if the connection failed; the id advances only when shipped |
| `MetricBatches.DictHoldsFirst` | crates/agent/src/lib.rs:767-781 | the dictionary of a batch holds exactly the fingerprints of its samples, each with the entry its first sample came with |
| `MetricBatches.FilledIsExact` | crates/agent/src/lib.rs:707-820 | deliveries that fit make a batch with their samples in order, the dictionary their entries make, exact byte estimate, first and last time, within both limits |
| `MetricBatches.SentIsExact` | crates/agent/src/lib.rs:887-942 | so is every batch handed over |
| `MetricBatches.FlushedExactlyWhenFull` | crates/agent/src/lib.rs:811-820 | a flush is due if and only if the batch is not empty and has the most records allowed, or its exact bytes with the next sample, and its series if new, exceed the byte limit |
| `MetricBatches.WireBytesAreBatchBytes` | crates/agent/src/lib.rs:564-586 | those bytes are the exact bytes of the batch's samples and dictionary |
| `MetricBatches.HandedOnlyWhenFull` | crates/agent/src/lib.rs:811-820 | a batch handed over while ingesting had the most records allowed, or would have exceeded the byte limit with the very delivery that came next |
| `MetricBatches.MetricsBatcher.Push` | crates/agent/src/lib.rs:767-793 | a sample that fits joins the pending batch with the entry it came with |
| `MetricBatches.MetricsBatcher.FoldSample` | crates/agent/src/lib.rs:751-793 | the pending batch is handed over first if and only if it has no room for the sample; one use of the series is taken, and the sample joins with the entry kept for it; the use count and both lookups cannot fail |
| `MetricBatches.TakeUse` | crates/agent/src/lib.rs:768-787 | one use of a kept series is taken; its entry goes with the last use exactly when the batch does not have it yet |
| `MetricBatches.MetricsBatcher.IngestMetrics` | crates/agent/src/lib.rs:707-796 | batches handed over followed by the pending one hold exactly the kept samples in arrival order, each brought in with the last entry its scrape had for it; no batch is handed over that had room for the delivery after it; every other sample is counted as dropped; a decision once made stands, and a new one follows the labels first seen |
| `CriTail.BufferHolds` | crates/agent/src/cri.rs:277-289 | a stream's buffer holds its joined partial messages since its last full line, whatever the other stream does |
| `CriTail.Reassembled` | crates/agent/src/cri.rs:257-304 | each emitted body is its stream's partial messages since its previous full line joined with the full line's message |
| `CriTail.SpelledParses` | crates/agent/src/cri.rs:107-124 | a line of timestamp, `stdout` or `stderr`, `F` or `P` and a message that may be left off parses to those fields, if the timestamp does |
| `CriTail.OnlySpelledParses` | crates/agent/src/cri.rs:107-124 | and no other line parses |
| `CriTail.SinceIsAfterLastFull` | crates/agent/src/cri.rs:277-289 | that stretch begins right after the stream's previous full line and holds no other |
| `CriTail.SplitIsPass` | crates/agent/src/cri.rs:257-266 | folding the newline-separated segments is one pass byte by byte |
| `CriTail.Tailer.ReadNew` | crates/agent/src/cri.rs:211-254 | the complete lines and the new leftover are the old leftover and the bytes read, cut at the last newline; a shorter file starts over |
| `CriTail.Tailer.ProcessChunk` | crates/agent/src/cri.rs:257-304 | folds every segment of the chunk |
| `CriTail.Tailer.ProcessLine` | crates/agent/src/cri.rs:263-302 | folds one line: skip, stash or emit |
| `CriTail.Tailer.Poll` | crates/agent/src/cri.rs:167-176 | one read of an append-only file keeps the tailer equal to one pass over the bytes read |
| `CriTail.Tailer.Tail` | crates/agent/src/cri.rs:165-196 | so does any number of reads at any observed lengths and any chunk size |
| `CriTail.EmittedRecords` | crates/agent/src/cri.rs:211-304 | what has been emitted is the records of the complete lines seen, however the file was read |
| `Template.CutSpellsBack` | crates/alert/src/template.rs:93-114 | cutting an accepted string into literals and placeholders loses nothing |
| `Template.CanonicalIsCut` | crates/alert/src/template.rs:93-114 | the spelling of every canonical list of pieces is accepted and cut into that list |
| `Template.CutIsCanonical` | crates/alert/src/template.rs:93-114 | and nothing else is accepted |
| `Template.CheckText` | crates/alert/src/template.rs:93-114 | a string passes if and only if it is well formed, allow-listed and within the placeholder bound; each error is explained |
| `Template.ValidateAst` | crates/alert/src/template.rs:116-142 | the explicit-stack validator accepts exactly the trees that meet the recursive definition: nodes, depth, placeholders, every string well formed and allow-listed; each error convicts the tree |
| `Template.AcceptedRenders` | crates/alert/src/template.rs:144-173 | on every accepted tree no `expect` or `unreachable!` of the renderer can be reached |
| `Template.RenderText` | crates/alert/src/template.rs:146-160 | a string renders to its literals and values, left to right in one pass, inserted values not looked at again |
| `Template.PlaceholdersRender` | crates/alert/src/template.rs:49-62 | each of the seven names, between any literals, renders to the value of that name |
| `Template.RenderValue` | crates/alert/src/template.rs:144-173 | the tree rewritten value by value is the recursive rendering |
| `Template.RenderKeepsShape` | crates/alert/src/template.rs:144-173 | rendering keeps shape, keys and every leaf that is not a string |
| `SpanTree.BuildSpanTree` | desktop/src/traces.ts:148-184 | ends on every input, repeated ids and cycles included, and lists each id that leads to a root once, and no other; with unique ids the result is the pre-order listing of the sorted forest |
| `SpanTree.SortSpans` | desktop/src/traces.ts:165-171 | a permutation in order of start, ties by id |
| `SpanTree.GroupSpans` | desktop/src/traces.ts:149-163 | roots and children in input order |
| `SpanTree.Walker.Walk` | desktop/src/traces.ts:175-181 | lists a span and everything below it that was not listed before, leaving no child of a listed span out; where the subtree is new it appends exactly its pre-order |
| `SpanTree.SeenExactly` | desktop/src/traces.ts:173-182 | a walk that saw the roots and the children of all it saw has seen exactly the ids that lead to a root |
| `SpanTree.ListedExactly` | desktop/src/traces.ts:142-147 | exactly the spans whose parent chain reaches a root are listed, at the length of that chain |
| `SpanTree.ListedUnderParent` | desktop/src/traces.ts:142-163 | by parent links alone: at the top if and only if there is no parent or it is not in the set, below if and only if the parent is listed one higher |
| `SpanTree.ListedOnce` | desktop/src/traces.ts:176-177 | each once |
| `SpanTree.ParentsComeFirst` | desktop/src/traces.ts:175-181 | every listed span that is no root comes after its parent, one deeper |
| `SpanTree.SubtreesAreContiguous` | desktop/src/traces.ts:175-181 | each subtree is one stretch of the list |
| `SpanTree.SiblingsComeInOrder` | desktop/src/traces.ts:165-171 | roots and the children of each span appear in order of start, then id |
| `SpanTree.AcyclicIsPermuted` | desktop/src/traces.ts:142-184 | without a cycle of parents the list is a permutation of the spans |

## Left out

- HTTP handlers, Kubernetes discovery, TCP sessions, timers and reconnect loops: plumbing around the modelled core.
- Secret generations, mutation receipts and the notification outbox: they use the same create-if-absent and compare-and-swap steps and would only add easy members.
- Encryption, SQL validation, Parquet, Arrow, zstd and gzip: they rest on libraries outside the repository.
- `crc32` in `crates/binschema-runtime/src/lib.rs`: its table is not that of the IEEE polynomial, so there is no standard to state.
- Prometheus text parsing: nothing in the repository prints it back.
- Signed integers, floats and the aligned-only shortcuts of the bit stream: casts and copies of the modelled integer paths.
- SQLite itself: migrations, the deployment binding, the 63-bit range of its integers, pagination and the targets table, which folds like the monitors table.
- The evaluator's lease and its two rule-revision checks: they only rule out runs.
- JSON parsing and printing of templates, and the two byte limits around them.
- Log tailing: the channel closing, I/O errors other than a missing file, and path parsing.
- The cost of the metric batches on the wire: encoding and compression are one outcome per hand-over.
- MetricBatches.MetricsBatcher.IngestMetrics: after a failed hand-over the pending batch is not described, because the error ends the agent.
- Bloom.NoFalseNegativesExactly: over all UTF-8 strings, which are not closed under taking parts, only the half from the hashes to the filter follows (take all byte strings); the other half is stated for byte strings and for ASCII, because a gram may end inside a character.
- Bloom.DroppedGramIsMissed: the two bodies are the grams themselves, which are strings of the program only when they are whole characters.
- Objects that are too large, do not parse or fail their checks, and the errors the store operations return for them: the protocols only write well-formed records.
- Bloom.BodyBloomBuilder.FinishBounded: the sizes are any `m >= 1` and `k >= 1` rather than those of the floating-point formula.
- VarLengthIo.ReadSleb: a shift past the word wraps as in a release build; a debug build panics there.
- SpanTree.BuildSpanTree: where spans share an id, which of them is listed and at which depth is not stated, because the program leaves it to the order of the walk.
