/**
 The batch-rename coordinator: every object goes source -> temporary -> destination, with a
 journal record before and after each rename, and a later run continues from the journal.
 */
module BatchCoordinator {
  import opened Bytes
  import opened BatchTransaction
  import opened BatchDisk
  import opened BatchForecast
  import opened BatchJournal
  import opened BatchVolume
  import opened Decimals

  datatype StepOutcome = StepCommitted | StepNoCommit | StepRecoveryRequired | StepJournalError | StepStopped

  datatype RunStatus =
    | RunSuccess | RunRolledBack | RunRecoveryRequired | RunJournalError | RunStopped | RunNothingToDo

  // ---------------------------------------------------------------- remaining work

  /** Renames an item still needs. */
  function StepsLeft(phase: Phase, l: Location): nat {
    match l
    case AtSource => if phase == RollingBack then 0 else 2
    case AtTemporary => 1
    case AtDestination => 0
  }

  function WorkOf(phase: Phase, items: seq<Item>): (w: nat)
    ensures w <= 2 * |items|
  {
    if items == [] then 0 else StepsLeft(phase, items[0].location) + WorkOf(phase, items[1..])
  }

  function Work(t: Transaction): (w: nat)
    ensures w <= 2 * |t.items|
  {
    WorkOf(t.phase, t.items)
  }

  lemma {:induction false} WorkOfUpdate(phase: Phase, items: seq<Item>, i: nat, item: Item)
    requires i < |items|
    ensures WorkOf(phase, items[i := item]) + StepsLeft(phase, items[i].location)
            == WorkOf(phase, items) + StepsLeft(phase, item.location)
  {
    if i == 0 {
      assert items[0 := item][1..] == items[1..];
    } else {
      assert items[i := item][1..] == items[1..][i - 1 := item];
      WorkOfUpdate(phase, items[1..], i - 1, item);
    }
  }

  lemma {:induction false} WorkOfPhase(p: Phase, q: Phase, items: seq<Item>)
    requires p != RollingBack && q != RollingBack
    ensures WorkOf(p, items) == WorkOf(q, items)
  {
    if items != [] {
      WorkOfPhase(p, q, items[1..]);
    }
  }

  lemma {:induction false} WorkOfRollback(p: Phase, items: seq<Item>)
    ensures WorkOf(RollingBack, items) <= WorkOf(p, items)
  {
    if items != [] {
      WorkOfRollback(p, items[1..]);
    }
  }

  /** The journalled transaction is on its way back. */
  predicate Abandoned(t: Transaction) {
    t.phase == RollingBack || (t.phase == Evacuating && t.activeStep == NoStep && t.failure != Success)
  }

  // ---------------------------------------------------------------- moving one item

  const UNTRUSTED_DETAIL: Bytes :=
    Ascii("batch step succeeded ") + Ascii("without a trustworthy ") + Ascii("object snapshot")

  function RunStatusOf(outcome: StepOutcome): RunStatus {
    match outcome
    case StepJournalError => RunJournalError
    case StepStopped => RunStopped
    case _ => RunRecoveryRequired
  }

  /** A record stays a record of its batch when one item arrives at the target of its step. */
  lemma ArrivalIsRecorded(b: Batch, t: Transaction, i: nat, step: StepKind, snapshot: Snapshot)
    requires Records(b, t) && MayStep(t, i, step)
    requires StableIdentity(snapshot.revision) == b.moves[i].obj
    requires t.items[i].kind == Directory ==> snapshot.size == 0
    ensures Records(b, Applied(t, i, step, snapshot))
    ensures Applied(t, i, step, snapshot).Places() == t.Places()[i := t.items[i].Target(step)]
    ensures Work(Applied(t, i, step, snapshot)) + 1 == Work(t)
  {
    var t' := Applied(t, i, step, snapshot);
    ItemOf(b, t, i);
    ArrivalKeepsNames(b, t, i, step, snapshot);
    assert t'.items == t.items[i := t'.items[i]] && t'.phase == t.phase;
    assert ValidItem(t.phase, t.items[i]);
    assert ValidItem(t.phase, t'.items[i]);
    hide ValidMoves, ValidItem, StableIdentity;
    WorkOfUpdate(t.phase, t.items, i, t'.items[i]);
    hide WorkOf;
  }

  lemma ArrivalKeepsNames(b: Batch, t: Transaction, i: nat, step: StepKind, snapshot: Snapshot)
    requires Records(b, t) && step != NoStep && i < |t.items|
    requires StableIdentity(snapshot.revision) == b.moves[i].obj
    ensures Applied(t, i, step, snapshot).Moves() == t.Moves()
    ensures Applied(t, i, step, snapshot).Places() == t.Places()[i := t.items[i].Target(step)]
  {
    ItemOf(b, t, i);
    hide ValidMoves, ValidItem, StableIdentity;
  }

  /** A record stays a record of its batch when only its header changes to a valid one. */
  lemma HeaderIsRecorded(b: Batch, t: Transaction, t': Transaction)
    requires Records(b, t) && t'.items == t.items && t'.operationId == t.operationId
    requires ValidHeader(t')
    requires forall i | 0 <= i < |t.items| :: LocationAllowed(t'.phase, t.items[i].location)
    ensures Records(b, t') && t'.Places() == t.Places()
  {
    assert t'.Moves() == t.Moves();
    forall j | 0 <= j < |t'.items|
      ensures ValidItem(t'.phase, t'.items[j])
    {
      assert ValidItem(t.phase, t.items[j]);
    }
  }

  /** The record that announces a step of item i. */
  function Intent(t: Transaction, i: u32, step: StepKind): Transaction {
    t.(activeStep := step, activeIndex := i, evidence := NoEvidence)
  }

  lemma IntentIsRecorded(b: Batch, t: Transaction, i: nat, step: StepKind)
    requires Records(b, t) && MayStep(t, i, step)
    ensures i < 0x1_0000_0000 && Records(b, Intent(t, i, step)) && Intent(t, i, step).Places() == t.Places()
  {
    PlacesOf(b, t);
    HeaderIsRecorded(b, t, Intent(t, i, step));
  }

  lemma SamePhaseIsRecorded(b: Batch, t: Transaction, t': Transaction)
    requires Records(b, t) && t'.items == t.items && t'.operationId == t.operationId
    requires t'.phase == t.phase && ValidHeader(t')
    ensures Records(b, t') && t'.Places() == t.Places()
    ensures t'.activeStep != NoStep && t'.activeStep == t.activeStep && t'.activeIndex == t.activeIndex ==>
              t'.PlacesMoved() == t.PlacesMoved()
  {
    PlacesOf(b, t);
    HeaderIsRecorded(b, t, t');
  }

  /** Item i, and no other, has arrived at the target of its step. */
  predicate Advanced(t: Transaction, t': Transaction, i: nat, step: StepKind) {
    && i < |t.items| == |t'.items| && step != NoStep && t'.phase == t.phase
    && t'.items == t.items[i := t'.items[i]] && t'.items[i].location == StepLocation(step)
    && Work(t') + 1 == Work(t)
    && (t.phase == RollingBack ==> t'.failure == t.failure)
    && (t.phase != RollingBack ==> t'.failure == Success)
  }

  /** The directory is as the report says. */
  ghost predicate Supported(b: Batch, t: Transaction, dir: Directory, r: OperationResult)
    requires Records(b, t) && t.activeStep != NoStep
  {
    && (r.status == Success || r.evidence == Committed ==> Holds(b, dir, t.PlacesMoved()))
    && (r.evidence == NoCommit ==> r.status != Success && Holds(b, dir, t.Places()))
  }

  lemma HonestIsSupported(b: Batch, t: Transaction, dir: Directory, r: OperationResult)
    requires Describes(b, t, dir) && t.activeStep != NoStep
    requires Honest(r, dir, t.items[t.activeIndex], t.activeStep)
    ensures Supported(b, t, dir, r)
  {
    var i := t.activeIndex;
    ItemOf(b, t, i);
    if Holds(b, dir, t.Places()) {
      assert IsAt(dir, t.Places()[i], t.items[i]);
    } else {
      assert IsAt(dir, t.PlacesMoved()[i], t.items[i]);
    }
  }

  /** In a quiet directory the active object is at exactly one of its two names. */
  lemma ActiveIsDecided(b: Batch, t: Transaction, dir: Directory)
    requires WellPlanned(b) && b.quiet && Describes(b, t, dir) && t.activeStep != NoStep
    ensures if Holds(b, dir, t.Places())
            then HasStayed(dir, t.items[t.activeIndex], t.activeStep) && t.evidence != Committed
            else HasLeft(dir, t.items[t.activeIndex], t.activeStep)
  {
    var i := t.activeIndex;
    ItemOf(b, t, i);
    if Holds(b, dir, t.Places()) {
      assert IsAt(dir, t.Places()[i], t.items[i]);
      TargetIsFree(b, t, dir, i, t.activeStep);
      assert t.items[i].Target(t.activeStep) !in dir;
      assert !Holds(b, dir, t.PlacesMoved()) by {
        assert t.PlacesMoved()[i] == t.items[i].Target(t.activeStep);
      }
    } else {
      assert IsAt(dir, t.PlacesMoved()[i], t.items[i]);
      SourceIsVacated(b, t, dir, i, t.activeStep);
    }
  }

  // ---------------------------------------------------------------- what the service says, and what follows

  /** The rename is confirmed, of the expected object. */
  predicate Taken(b: Batch, i: nat, r: OperationResult) {
    && i < |b.moves| && r.status == Success
    && StableIdentity(r.snapshot.revision) == b.moves[i].obj
  }

  /** It is confirmed that nothing was renamed. */
  predicate Refused(r: OperationResult) {
    r.status != Success && r.evidence == NoCommit
  }

  /** An observation of a step about which something is on record already. */
  function Weighed(t: Transaction, observed: OperationResult): OperationResult {
    if t.evidence == NoEvidence then observed
    else MergeReconciliation(
           OperationResult(t.failure, t.evidence, false, false, NO_SNAPSHOT, t.detail), observed)
  }

  /** Evidence that contradicts the evidence on record. */
  predicate Contradicts(t: Transaction, observed: OperationResult) {
    || t.evidence == Conflicting || observed.evidence == Conflicting
    || (t.evidence == Committed && observed.evidence == NoCommit)
    || (t.evidence == NoCommit && observed.evidence == Committed)
  }

  /**
   What another look makes of the evidence on record: a contradiction stays one for ever, what is seen
   decides and keeps the earlier detail, and a look that sees nothing changes nothing.
   */
  lemma WeighedMeans(t: Transaction, observed: OperationResult)
    requires t.evidence != NoEvidence && t.failure != Success
    ensures var r := Weighed(t, observed);
      if Contradicts(t, observed) then
        r.status == UnknownOutcome && r.evidence == Conflicting && r.detail == CONFLICT_DETAIL
      else if observed.status in {Success, Conflict, SourceChanged} then
        && r.status == observed.status && r.evidence == observed.evidence && r.snapshot == observed.snapshot
        && observed.detail <= r.detail && (observed.status == Success || t.detail == [] ==> r.detail == observed.detail)
        && (observed.status != Success ==> |r.detail| >= |t.detail|)
      else
        r.status == t.failure && r.evidence == t.evidence && r.detail == t.detail
  {
  }

  /** So a look settles a recorded step only when nothing contradicts it. */
  lemma WeighedSettles(b: Batch, t: Transaction, observed: OperationResult, i: nat)
    requires t.evidence != NoEvidence && t.failure != Success
    requires observed.status == Success ==> observed.evidence != NoCommit
    ensures OutcomeOf(b, i, Weighed(t, observed)) != StepRecoveryRequired <==>
      && !Contradicts(t, observed)
      && (|| Taken(b, i, observed)
          || (if observed.status in {Success, Conflict, SourceChanged}
              then Refused(observed) else t.evidence == NoCommit))
  {
    WeighedMeans(t, observed);
  }

  function OutcomeOf(b: Batch, i: nat, r: OperationResult): StepOutcome {
    if Taken(b, i, r) then StepCommitted else if Refused(r) then StepNoCommit else StepRecoveryRequired
  }

  /** A failure as it is journalled: with the step and the number of the item in front. */
  function Explained(step: StepKind, i: nat, r: OperationResult): OperationResult {
    if r.status == Success then r
    else r.(detail := StepName(step) + Decimal(i + 1) + Ascii(": ") + r.detail)
  }

  function StepName(step: StepKind): Bytes {
    match step
    case Evacuate => Ascii("batch evacuate item ")
    case RollBack => Ascii("batch rollback item ")
    case _ => Ascii("batch publish item ")
  }

  /** What the record says after a step that was not taken. */
  predicate Noted(t: Transaction, step: StepKind, i: nat, r: OperationResult) {
    if r.status == Success then
      && t.activeStep == step && t.activeIndex == i && t.evidence == r.evidence
      && t.failure == UnknownOutcome && t.detail == UNTRUSTED_DETAIL
    else
      && t.failure == r.status && t.detail == r.detail
      && if Refused(r) then t.activeStep == NoStep && (step == Evacuate ==> t.phase == RollingBack)
         else t.activeStep == step && t.activeIndex == i && t.evidence == r.evidence
  }

  /** An object that was not found is looked for, and what is found then decides. */
  predicate Decisive(a: Answer) {
    a.looked || a.result.status != NotFound
  }

  predicate Passes(b: Batch, a: Answer) {
    Decisive(a) ==> Taken(b, a.index, a.result)
  }

  /** An evacuation is refused: the batch goes back. */
  predicate TurnsBack(a: Answer) {
    Decisive(a) && a.step == Evacuate && Refused(a.result)
  }

  /** Any other failure is left to a later run. */
  predicate Halts(b: Batch, a: Answer) {
    !Passes(b, a) && !TurnsBack(a)
  }

  ghost predicate AllPass(b: Batch, answers: seq<Answer>, from: nat, to: nat) {
    from <= to <= |answers| && forall k | from <= k < to :: Passes(b, answers[k])
  }

  ghost predicate SomeHalts(b: Batch, answers: seq<Answer>, from: nat) {
    exists k :: from <= k < |answers| && Halts(b, answers[k])
  }

  /** An evacuation was refused, with this status. */
  ghost predicate TurnedBackBy(answers: seq<Answer>, from: nat, failure: Status) {
    exists k :: from <= k < |answers| && TurnsBack(answers[k]) && answers[k].result.status == failure
  }

  ghost predicate SomeTurnsBack(answers: seq<Answer>, from: nat) {
    exists failure :: TurnedBackBy(answers, from, failure)
  }

  /** How a run ends whose records can all be written, decided by nothing but the answers it got. */
  ghost function Fate(b: Batch, abandoned: bool, answers: seq<Answer>, from: nat): RunStatus {
    if SomeHalts(b, answers, from) then RunRecoveryRequired
    else if abandoned || SomeTurnsBack(answers, from) then RunRolledBack
    else RunSuccess
  }

  lemma StillPass(b: Batch, heard: seq<Answer>, answers: seq<Answer>, from: nat, to: nat)
    requires heard <= answers && AllPass(b, heard, from, to)
    ensures AllPass(b, answers, from, to)
  {
    hide Passes;
    forall k | from <= k < to
      ensures Passes(b, answers[k])
    {
      assert answers[k] == heard[k];
    }
  }

  /** Answers that pass do not change the fate. */
  lemma FateSkips(b: Batch, abandoned: bool, answers: seq<Answer>, from: nat, to: nat)
    requires AllPass(b, answers, from, to)
    ensures Fate(b, abandoned, answers, from) == Fate(b, abandoned, answers, to)
    ensures forall failure | TurnedBackBy(answers, to, failure) :: TurnedBackBy(answers, from, failure)
  {
    hide Taken, Refused, Decisive;
    if SomeHalts(b, answers, from) {
      var k :| from <= k < |answers| && Halts(b, answers[k]);
      assert k >= to;
    }
    forall failure
      ensures TurnedBackBy(answers, from, failure) <==> TurnedBackBy(answers, to, failure)
    {
      if TurnedBackBy(answers, from, failure) {
        var k :| from <= k < |answers| && TurnsBack(answers[k]) && answers[k].result.status == failure;
        PassingDoesNotTurn(b, answers[k]);
        assert k >= to;
      }
    }
  }

  lemma PassingDoesNotTurn(b: Batch, a: Answer)
    requires TurnsBack(a)
    ensures !Passes(b, a)
  {
  }

  /** After a refused evacuation the fate is that of a rollback. */
  lemma FateTurns(b: Batch, answers: seq<Answer>, from: nat)
    requires from < |answers| && TurnsBack(answers[from])
    ensures Fate(b, false, answers, from) == Fate(b, true, answers, from + 1)
    ensures TurnedBackBy(answers, from, answers[from].result.status)
  {
    hide Taken, Refused, Decisive, Passes, TurnsBack;
    if SomeHalts(b, answers, from) {
      var k :| from <= k < |answers| && Halts(b, answers[k]);
      assert k >= from + 1;
    }
    assert TurnedBackBy(answers, from, answers[from].result.status);
  }

  /** The last answer can end the run. */
  lemma FateHalts(b: Batch, abandoned: bool, answers: seq<Answer>, from: nat)
    requires from < |answers| && Halts(b, answers[|answers| - 1])
    ensures Fate(b, abandoned, answers, from) == RunRecoveryRequired
  {
  }

  class Coordinator {
    const volume: Volume
    var txn: Transaction

    constructor (volume: Volume, txn: Transaction)
      ensures this.volume == volume && this.txn == txn
    {
      this.volume, this.txn := volume, txn;
    }

    /** Between two steps: the journal holds the transaction and the directory agrees with it. */
    ghost predicate Ready()
      reads this`txn, volume`disk, volume`trace, volume`epochs, volume`histories
    {
      && volume.Valid() && Records(volume.batch, txn) && txn.activeStep == NoStep
      && Holds(volume.batch, volume.disk.dir, txn.Places())
      && volume.disk.Readable() == Some(txn)
    }

    /** Item i is taking a step: its intent is journalled. */
    ghost predicate Active(i: nat, step: StepKind)
      reads this`txn, volume`disk, volume`trace, volume`epochs, volume`histories
    {
      && volume.Valid() && Describes(volume.batch, txn, volume.disk.dir)
      && step != NoStep && txn.activeStep == step && txn.activeIndex == i
      && volume.disk.Readable() == Some(txn)
    }

    /** What comes of a step is decided by this result, unless the journal cannot hold the record of it. */
    ghost predicate Weighs(step: StepKind, i: nat, r: OperationResult, outcome: StepOutcome)
      reads this`txn, volume`disk
    {
      && outcome == (if Storable(volume.parent, txn) then OutcomeOf(volume.batch, i, r) else StepJournalError)
      && (outcome == StepRecoveryRequired ==> volume.disk.Readable() == Some(txn) && Noted(txn, step, i, r))
    }

    /** The last answer is not one that passes, and it is on record. */
    ghost predicate Halted(step: StepKind, outcome: StepOutcome)
      reads this`txn, volume`disk, volume`answers
    {
      && volume.answers != []
      && var a := volume.answers[|volume.answers| - 1];
         && Decisive(a) && a.step == step && outcome == OutcomeOf(volume.batch, a.index, a.result)
         && volume.disk.Readable() == Some(txn)
         && Noted(txn, step, a.index, Explained(step, a.index, a.result))
    }

    /** How steps of one kind ended: all were taken, or the last was not, or its record does not fit. */
    ghost predicate Told(from: nat, step: StepKind, outcome: StepOutcome)
      reads this`txn, volume`disk, volume`answers
    {
      && (outcome == StepJournalError <==> !Storable(volume.parent, txn))
      && (if outcome == StepCommitted then AllPass(volume.batch, volume.answers, from, |volume.answers|)
          else from < |volume.answers| && AllPass(volume.batch, volume.answers, from, |volume.answers| - 1))
      && (outcome !in {StepCommitted, StepJournalError} ==>
            outcome in {StepNoCommit, StepRecoveryRequired} && Halted(step, outcome))
    }

    lemma ToldLater(from: nat, heard: seq<Answer>, step: StepKind, outcome: StepOutcome)
      requires heard <= volume.answers && AllPass(volume.batch, heard, from, |heard|)
      requires Told(|heard|, step, outcome)
      ensures Told(from, step, outcome)
      ensures outcome == StepCommitted ==> AllPass(volume.batch, volume.answers, from, |volume.answers|)
    {
      hide Passes, Halted, Storable;
      StillPass(volume.batch, heard, volume.answers, from, |heard|);
    }

    lemma AllTold(from: nat, step: StepKind)
      requires volume.Valid() && volume.disk.Readable() == Some(txn)
      requires AllPass(volume.batch, volume.answers, from, |volume.answers|)
      ensures Told(from, step, StepCommitted)
    {
      hide Volume.Valid, AllPass, Storable, Size;
      StoredFits();
    }

    lemma StepTold(from: nat, i: nat, step: StepKind, r: OperationResult, outcome: StepOutcome)
      requires Answered(from, step, i, r) && Weighs(step, i, Explained(step, i, r), outcome)
      requires outcome == StepNoCommit ==>
        volume.disk.Readable() == Some(txn) && Noted(txn, step, i, Explained(step, i, r))
      ensures Told(from, step, outcome)
      ensures |volume.answers| > from && volume.answers[|volume.answers| - 1].index == i
    {
      hide Storable, Noted;
    }

    lemma Passed(from: nat, step: StepKind)
      requires Told(from, step, StepCommitted)
      ensures AllPass(volume.batch, volume.answers, from, |volume.answers|)
    {
    }

    /** What a refused evacuation leaves for the rollback. */
    lemma RefusalTold(from: nat)
      requires Told(from, Evacuate, StepNoCommit)
      ensures from < |volume.answers| && AllPass(volume.batch, volume.answers, from, |volume.answers| - 1)
      ensures TurnsBack(volume.answers[|volume.answers| - 1])
      ensures txn.failure == volume.answers[|volume.answers| - 1].result.status
    {
      hide AllPass, Storable;
    }

    /** How a run ended, by the answers from a position on. */
    ghost predicate Concluded(from: nat, abandoned: bool, status: RunStatus)
      reads this`txn, volume`disk, volume`answers
    {
      && status == (if Storable(volume.parent, txn) then Fate(volume.batch, abandoned, volume.answers, from)
                    else RunJournalError)
      && (status == RunRecoveryRequired ==> from < |volume.answers| && Unfinished())
      && (status == RunRolledBack && !abandoned ==> TurnedBackBy(volume.answers, from, txn.failure))
    }

    /** The last answer is on record, as it was reported. */
    ghost predicate Unfinished()
      reads this`txn, volume`disk, volume`answers
    {
      && volume.answers != []
      && var a := volume.answers[|volume.answers| - 1];
         && Decisive(a) && volume.disk.Readable() == Some(txn)
         && Noted(txn, a.step, a.index, Explained(a.step, a.index, a.result))
    }

    /** Steps that end a run decide its fate. */
    lemma Concludes(from: nat, abandoned: bool, step: StepKind, outcome: StepOutcome)
      requires Told(from, step, outcome) && (outcome == StepNoCommit ==> step != Evacuate)
      ensures outcome != StepCommitted ==> Concluded(from, abandoned, RunStatusOf(outcome))
      ensures outcome == StepCommitted ==>
        && Storable(volume.parent, txn)
        && Fate(volume.batch, abandoned, volume.answers, from) == if abandoned then RunRolledBack else RunSuccess
    {
      hide Storable, Noted, Taken;
      if outcome == StepCommitted {
        FateSkips(volume.batch, abandoned, volume.answers, from, |volume.answers|);
      } else if outcome != StepJournalError {
        FateHalts(volume.batch, abandoned, volume.answers, from);
      }
    }

    lemma ConcludedLater(from: nat, heard: seq<Answer>, abandoned: bool, status: RunStatus)
      requires heard <= volume.answers && AllPass(volume.batch, heard, from, |heard|)
      requires Concluded(|heard|, abandoned, status)
      ensures Concluded(from, abandoned, status)
    {
      hide Storable, Unfinished, Passes, Fate, TurnedBackBy;
      StillPass(volume.batch, heard, volume.answers, from, |heard|);
      FateSkips(volume.batch, abandoned, volume.answers, from, |heard|);
    }

    /** A rollback after a refused evacuation concludes the whole run. */
    lemma ConcludedBack(from: nat, heard: seq<Answer>, status: RunStatus)
      requires from < |heard| && heard <= volume.answers && Concluded(|heard|, true, status)
      requires AllPass(volume.batch, heard, from, |heard| - 1) && TurnsBack(heard[|heard| - 1])
      requires status == RunRolledBack ==> txn.failure == heard[|heard| - 1].result.status
      ensures Concluded(from, false, status)
    {
      hide Storable, Unfinished, Passes, Fate, TurnedBackBy, TurnsBack;
      var last := |heard| - 1;
      assert volume.answers[last] == heard[last];
      StillPass(volume.batch, heard, volume.answers, from, last);
      FateSkips(volume.batch, false, volume.answers, from, last);
      FateTurns(volume.batch, volume.answers, last);
    }

    /** The record on disk describes the directory. */
    lemma StoredDescribes()
      requires volume.Valid() && volume.disk.Readable() == Some(txn)
      ensures Describes(volume.batch, txn, volume.disk.dir) && WellPlanned(volume.batch)
    {
      hide Volume.ValidPast, WellPlanned, Describes;
    }

    /** What is on disk fits into the journal. */
    lemma StoredFits()
      requires volume.Valid() && volume.disk.Readable() == Some(txn)
      ensures Storable(volume.parent, txn) && Size(volume.parent, txn) <= LIMIT
    {
    }

    /** Writes the record; one that is not well formed or that the journal cannot hold is refused. */
    method Persist() returns (ok: bool)
      requires volume.Valid()
      requires ValidTransaction(txn) ==> Describes(volume.batch, txn, volume.disk.dir)
      requires volume.disk.Readable().Some? ==> Follows(volume.disk.Readable().value.phase, txn.phase)
      modifies volume`disk, volume`trace, volume`epochs, volume`histories, volume`faults
      ensures ok ==> volume.faults == old(volume.faults)
      ensures volume.Valid() && volume.disk.dir == old(volume.disk.dir)
      ensures if old(volume.disk.Readable().Some?) then volume.SameRun()
              else old(volume.trace) <= volume.trace && |volume.trace| <= |old(volume.trace)| + 1
      ensures ok ==> Storable(volume.parent, txn) && volume.disk.primary == Some(txn)
      ensures !Storable(volume.parent, txn) ==> !ok && volume.disk == old(volume.disk)
      ensures volume.calm ==> (ok <==> Storable(volume.parent, txn))
    {
      hide Volume.ValidPast, Volume.Valid, Describes, ValidTransaction, Follows, Size;
      var record := MakeRecord(volume.parent, txn);
      if record.None? {
        return false;
      }
      ok := volume.Write(txn);
    }

    /** Takes over a confirmed rename, unless the report does not identify the object. */
    method ApplySuccess(i: nat, step: StepKind, r: OperationResult) returns (applied: bool)
      requires step != NoStep && i < |txn.items| && r.status == Success
      requires StableIdentity(txn.items[i].snapshot.revision) != []
      modifies this`txn
      ensures applied <==> StableIdentity(r.snapshot.revision)
                           == StableIdentity(old(txn.items[i]).snapshot.revision)
      ensures txn == if applied then Applied(old(txn), i, step, r.snapshot) else old(txn)
    {
      var expected := StableIdentity(txn.items[i].snapshot.revision);
      if expected == [] || StableIdentity(r.snapshot.revision) != expected {
        return false;
      }
      var item := txn.items[i];
      txn := txn.(items := txn.items[i := item.(
                    current := item.Target(step), snapshot := r.snapshot, location := StepLocation(step))]);
      txn := txn.(activeStep := NoStep, activeIndex := 0, evidence := NoEvidence);
      if txn.phase != RollingBack {
        txn := txn.(failure := Success, detail := []);
      }
      applied := true;
    }

    /** Journals the intent and attempts the rename. */
    method Attempt(i: nat, step: StepKind) returns (journalled: bool, r: OperationResult)
      requires Ready() && MayStep(txn, i, step)
      modifies this`txn, volume
      ensures journalled ==> volume.faults == old(volume.faults)
      ensures volume.Valid() && i < 0x1_0000_0000 && txn == Intent(old(txn), i, step)
      ensures volume.SameRun()
      ensures journalled ==>
        && Active(i, step) && volume.disk.primary == Some(txn)
        && Supported(volume.batch, txn, volume.disk.dir, r)
        && volume.renames == old(volume.renames) + 1
        && (volume.calm ==> Answered(|old(volume.answers)|, step, i, r))
      ensures volume.calm ==> journalled
      ensures volume.reliable ==>
        && r.status == Success && Trusted(r, old(txn).items[i])
        && HasLeft(volume.disk.dir, txn.items[i], step)
        && volume.reconciliations == old(volume.reconciliations)
    {
      hide Volume.ValidPast, StableIdentity, Safe;
      r := OperationResult(IoError, NoEvidence, false, false, NO_SNAPSHOT, []);
      ghost var before := txn;
      txn := txn.(activeStep := step, activeIndex := i, evidence := NoEvidence);
      IntentIsRecorded(volume.batch, before, i, step);
      journalled := Persist();
      if !journalled {
        return;
      }
      if volume.batch.quiet {
        TargetIsFree(volume.batch, before, volume.disk.dir, i, step);
      }
      r := TryRename();
    }

    /** The last answer is this one; one before it only said that the object was not found. */
    ghost predicate Answered(from: nat, step: StepKind, i: nat, r: OperationResult)
      reads volume`answers
    {
      && from < |volume.answers| && AllPass(volume.batch, volume.answers, from, |volume.answers| - 1)
      && var a := volume.answers[|volume.answers| - 1];
         Decisive(a) && a.step == step && a.index == i && a.result == r
    }

    /** The rename of the journalled step; if the object is not found, a look at where it is. */
    method TryRename() returns (r: OperationResult)
      requires Active(txn.activeIndex, txn.activeStep) && volume.disk.primary == Some(txn)
      requires Holds(volume.batch, volume.disk.dir, txn.Places())
      requires volume.batch.quiet ==> Free(volume.disk.dir, txn.items[txn.activeIndex].Target(txn.activeStep))
      modifies volume
      ensures volume.faults == old(volume.faults)
      ensures Active(txn.activeIndex, txn.activeStep) && volume.disk.primary == Some(txn) && volume.SameRun()
      ensures Supported(volume.batch, txn, volume.disk.dir, r) && volume.renames == old(volume.renames) + 1
      ensures volume.calm ==> Answered(|old(volume.answers)|, txn.activeStep, txn.activeIndex, r)
      ensures volume.reliable ==>
        && r.status == Success && Trusted(r, txn.items[txn.activeIndex])
        && HasLeft(volume.disk.dir, txn.items[txn.activeIndex], txn.activeStep)
        && volume.reconciliations == old(volume.reconciliations)
    {
      hide Volume.ValidPast, StableIdentity, WellPlanned, Safe, Locates, Holds;
      r := volume.Rename(txn);
      StoredDescribes();
      if r.status == NotFound {
        var stop := volume.Stopping();
        if !stop {
          r := volume.Reconcile(txn);
        }
      }
      StoredDescribes();
      HonestIsSupported(volume.batch, txn, volume.disk.dir, r);
    }

    /** One step of the protocol, from its intent to its journalled result. */
    method ExecuteStep(i: nat, step: StepKind) returns (outcome: StepOutcome)
      requires Ready() && MayStep(txn, i, step)
      modifies this`txn, volume
      ensures outcome != StepJournalError ==> volume.faults == old(volume.faults)
      ensures volume.Valid() && volume.SameRun()
      ensures txn.phase == old(txn.phase) || (step == Evacuate && txn.phase == RollingBack)
      ensures outcome == StepCommitted ==> Ready() && Advanced(old(txn), txn, i, step)
      ensures outcome == StepNoCommit ==>
        && Ready() && txn.items == old(txn.items)
        && txn.phase == if step == Evacuate then RollingBack else old(txn.phase)
      ensures volume.calm ==>
        && Told(|old(volume.answers)|, step, outcome)
        && |volume.answers| > |old(volume.answers)| && volume.answers[|volume.answers| - 1].index == i
      ensures volume.reliable ==>
        && outcome == (if Size(volume.parent, After(old(txn), i, step)) <= LIMIT
                       then StepCommitted else StepJournalError)
        && volume.renames == old(volume.renames) + 1
        && volume.reconciliations == old(volume.reconciliations)
        && Alike(txn, After(old(txn), i, step))
        && (outcome == StepJournalError ==> Stuck())
    {
      hide Alike, Size, CanFinish, Volume.ValidPast, Holds, WorkOf, StableIdentity, WellPlanned, Safe, Told, Weighs,
           Noted, AllPass, Storable, Taken, Decimal, StepName, Answered, OutcomeOf, ValidMoves,
           ValidTransaction, Locates;
      ghost var before := txn;
      var journalled, r := Attempt(i, step);
      if !journalled {
        return StepJournalError;
      }
      if r.status == Success {
        outcome := RecordSuccess(i, step, r);
        if volume.reliable {
          StepIsForeseen(volume.parent, before, i, step, r.snapshot, volume.disk.dir);
        }
      } else {
        outcome := RecordFailure(i, step, Explained(step, i, r));
      }
      if volume.calm {
        StepTold(|old(volume.answers)|, i, step, r, outcome);
      }
    }

    method RecordSuccess(i: nat, step: StepKind, r: OperationResult) returns (outcome: StepOutcome)
      requires Active(i, step) && r.status == Success && r.evidence != NoCommit
      requires Holds(volume.batch, volume.disk.dir, txn.PlacesMoved())
      modifies this`txn, volume`disk, volume`trace, volume`epochs, volume`histories, volume`faults
      ensures outcome != StepJournalError ==> volume.faults == old(volume.faults)
      ensures volume.Valid() && volume.disk.dir == old(volume.disk.dir)
      ensures volume.SameRun() && txn.phase == old(txn.phase)
      ensures outcome == StepCommitted ==> Ready() && txn == Applied(old(txn), i, step, r.snapshot)
      ensures outcome == StepCommitted ==> Advanced(old(txn), txn, i, step)
      ensures outcome != StepNoCommit
      ensures volume.calm ==> Weighs(step, i, r, outcome)
      ensures volume.reliable && Trusted(r, old(txn.items[i])) ==>
        && txn == Applied(old(txn), i, step, r.snapshot)
        && outcome == (if Size(volume.parent, txn) <= LIMIT then StepCommitted else StepJournalError)
        && (outcome == StepJournalError ==> volume.disk == old(volume.disk))
    {
      hide Alike, WorkOf, Volume.ValidPast, StableIdentity, WellPlanned, Safe;
      ghost var before := txn;
      ItemOf(volume.batch, txn, i);
      txn := txn.(evidence := r.evidence);
      var applied := ApplySuccess(i, step, r);
      if applied {
        outcome := RecordArrival(i, step, r.snapshot, before);
      } else {
        outcome := RecordDoubt(before);
      }
    }

    /** The object has arrived; the journal still says that it is on its way. */
    method RecordArrival(i: nat, step: StepKind, snapshot: Snapshot, ghost before: Transaction)
      returns (outcome: StepOutcome)
      requires volume.Valid() && volume.disk.Readable() == Some(before) && Records(volume.batch, before)
      requires step != NoStep && before.activeStep == step && before.activeIndex == i
      requires txn == Applied(before, i, step, snapshot)
      requires StableIdentity(snapshot.revision) == volume.batch.moves[i].obj
      requires Holds(volume.batch, volume.disk.dir, before.PlacesMoved())
      modifies this`txn, volume`disk, volume`trace, volume`epochs, volume`histories, volume`faults
      ensures outcome != StepJournalError ==> volume.faults == old(volume.faults)
      ensures volume.Valid() && volume.disk.dir == old(volume.disk.dir)
      ensures volume.SameRun() && txn == old(txn)
      ensures outcome == StepCommitted ==> Ready() && Advanced(before, txn, i, step)
      ensures outcome in {StepJournalError, StepStopped, StepCommitted}
      ensures volume.calm ==> outcome == if Storable(volume.parent, txn) then StepCommitted else StepJournalError
      ensures volume.reliable && (before.items[i].kind == Directory ==> snapshot.size == 0) ==>
        && outcome == (if Size(volume.parent, txn) <= LIMIT then StepCommitted else StepJournalError)
        && (outcome == StepJournalError ==> volume.disk == old(volume.disk))
    {
      hide WorkOf, StableIdentity, Holds, Volume.ValidPast, Size, WellPlanned, Safe;
      if before.items[i].kind == Directory ==> snapshot.size == 0 {
        ArrivalIsRecorded(volume.batch, before, i, step, snapshot);
      }
      var ok := Persist();
      if !ok {
        return StepJournalError;
      }
      var stop := volume.Stopping();
      return if stop then StepStopped else StepCommitted;
    }

    /** The rename is reported as done, but not of the expected object. */
    method RecordDoubt(ghost before: Transaction) returns (outcome: StepOutcome)
      requires volume.Valid() && volume.disk.Readable() == Some(before) && Describes(volume.batch, before, volume.disk.dir)
      requires before.activeStep != NoStep && Holds(volume.batch, volume.disk.dir, before.PlacesMoved())
      requires txn == before.(evidence := txn.evidence) && txn.evidence != NoCommit
      modifies this`txn, volume`disk, volume`trace, volume`epochs, volume`histories, volume`faults
      ensures outcome != StepJournalError ==> volume.faults == old(volume.faults)
      ensures volume.Valid() && volume.disk.dir == old(volume.disk.dir)
      ensures volume.SameRun() && txn.phase == before.phase
      ensures outcome in {StepRecoveryRequired, StepJournalError}
      ensures volume.calm ==>
        outcome == if Storable(volume.parent, txn) then StepRecoveryRequired else StepJournalError
      ensures outcome == StepRecoveryRequired ==> volume.disk.Readable() == Some(txn)
      ensures txn == before.(evidence := txn.evidence, failure := UnknownOutcome, detail := UNTRUSTED_DETAIL)
      ensures txn.evidence == old(txn.evidence)
    {
      txn := txn.(failure := UnknownOutcome, detail := UNTRUSTED_DETAIL);
      SamePhaseIsRecorded(volume.batch, before, txn);
      var ok := Persist();
      return if ok then StepRecoveryRequired else StepJournalError;
    }

    method RecordFailure(i: nat, step: StepKind, r: OperationResult) returns (outcome: StepOutcome)
      requires Active(i, step) && txn.evidence == NoEvidence && r.status != Success
      requires Supported(volume.batch, txn, volume.disk.dir, r)
      modifies this`txn, volume`disk, volume`trace, volume`epochs, volume`histories, volume`faults
      ensures outcome != StepJournalError ==> volume.faults == old(volume.faults)
      ensures volume.Valid() && volume.SameRun()
      ensures txn.phase == old(txn.phase) || (step == Evacuate && txn.phase == RollingBack)
      ensures outcome != StepCommitted
      ensures outcome == StepNoCommit ==>
        && Ready() && txn.items == old(txn.items) && r.evidence == NoCommit
        && txn.phase == if step == Evacuate then RollingBack else old(txn.phase)
      ensures volume.calm ==> Weighs(step, i, r, outcome) && (outcome == StepNoCommit ==> Noted(txn, step, i, r))
    {
      hide Volume.ValidPast, WellPlanned, Safe;
      ghost var before := txn;
      PlacesOf(volume.batch, txn);
      if r.evidence == NoCommit {
        txn := txn.(failure := r.status, evidence := r.evidence, detail := r.detail);
        if step == Evacuate {
          txn := txn.(phase := RollingBack);
        }
        txn := txn.(activeStep := NoStep, activeIndex := 0, evidence := NoEvidence);
        HeaderIsRecorded(volume.batch, before, txn);
        var ok := Persist();
        if !ok {
          return StepJournalError;
        }
        var stop := volume.Stopping();
        return if stop then StepStopped else StepNoCommit;
      }
      outcome := RecordEvidence(r);
    }

    /** The outcome of the active step stays open. */
    method RecordEvidence(r: OperationResult) returns (outcome: StepOutcome)
      requires volume.Valid() && Describes(volume.batch, txn, volume.disk.dir)
      requires volume.disk.Readable() == Some(txn)
      requires txn.activeStep != NoStep && r.status != Success && r.evidence != NoCommit
      requires r.evidence == Committed ==> Holds(volume.batch, volume.disk.dir, txn.PlacesMoved())
      modifies this`txn, volume`disk, volume`trace, volume`epochs, volume`histories, volume`faults
      ensures outcome != StepJournalError ==> volume.faults == old(volume.faults)
      ensures volume.Valid() && volume.disk.dir == old(volume.disk.dir)
      ensures volume.SameRun()
      ensures txn == old(txn).(failure := r.status, evidence := r.evidence, detail := r.detail)
      ensures outcome in {StepJournalError, StepStopped, StepRecoveryRequired}
      ensures volume.calm ==>
        && outcome == (if Storable(volume.parent, txn) then StepRecoveryRequired else StepJournalError)
        && (Storable(volume.parent, txn) <==> Size(volume.parent, txn) <= LIMIT)
        && (outcome == StepJournalError ==> volume.disk == old(volume.disk))
      ensures outcome == StepRecoveryRequired ==> volume.disk.primary == Some(txn)
    {
      hide Volume.ValidPast, WellPlanned, Safe;
      ghost var before := txn;
      txn := txn.(failure := r.status, evidence := r.evidence, detail := r.detail);
      SamePhaseIsRecorded(volume.batch, before, txn);
      var ok := Persist();
      if !ok {
        return StepJournalError;
      }
      var stop := volume.Stopping();
      return if stop then StepStopped else StepRecoveryRequired;
    }

    /** A later look has shown that the active step never happened. */
    method RecordNoCommit() returns (outcome: StepOutcome)
      requires volume.Valid() && Records(volume.batch, txn) && txn.activeStep != NoStep
      requires volume.disk.Readable() == Some(txn)
      requires Holds(volume.batch, volume.disk.dir, txn.Places())
      modifies this`txn, volume`disk, volume`trace, volume`epochs, volume`histories, volume`faults
      ensures outcome != StepJournalError ==> volume.faults == old(volume.faults)
      ensures volume.Valid() && volume.disk.dir == old(volume.disk.dir)
      ensures volume.SameRun() && txn == NotDone(old(txn))
      ensures outcome in {StepJournalError, StepStopped, StepNoCommit}
      ensures outcome == StepNoCommit ==> Ready()
      ensures volume.calm ==> outcome == if Storable(volume.parent, txn) then StepNoCommit else StepJournalError
      ensures volume.reliable ==> outcome == StepNoCommit
    {
      hide Volume.ValidPast, WellPlanned, Safe;
      ghost var before := txn;
      txn := txn.(activeStep := NoStep, activeIndex := 0, evidence := NoEvidence);
      if txn.phase != RollingBack {
        txn := txn.(failure := Success, detail := []);
      }
      SamePhaseIsRecorded(volume.batch, before, txn);
      var ok := Persist();
      if !ok {
        return StepJournalError;
      }
      var stop := volume.Stopping();
      return if stop then StepStopped else StepNoCommit;
    }

    /** The service was asked once, where the active object is. */
    ghost predicate Looked(before: seq<Answer>, t: Transaction)
      reads volume`answers
    {
      && |volume.answers| == |before| + 1 && before <= volume.answers
      && var a := volume.answers[|before|];
         a.looked && a.step == t.activeStep && a.index == t.activeIndex
    }

    /** Looks for the active object and weighs what was recorded about it before. */
    method Inspect() returns (r: OperationResult)
      requires volume.Valid() && volume.disk.Readable() == Some(txn) && txn.activeStep != NoStep
      modifies volume
      ensures volume.faults == old(volume.faults)
      ensures Active(txn.activeIndex, txn.activeStep)
      ensures Supported(volume.batch, txn, volume.disk.dir, r)
      ensures volume.SameRun()
      ensures volume.renames == old(volume.renames)
      ensures volume.reconciliations == old(volume.reconciliations) + 1
      ensures volume.batch.quiet ==> volume.disk.dir == old(volume.disk.dir)
      ensures Looked(old(volume.answers), txn) && r == Weighed(txn, volume.answers[|volume.answers| - 1].result)
      ensures txn.evidence == Conflicting ==>
        r.status == UnknownOutcome && r.evidence == Conflicting && r.detail == CONFLICT_DETAIL
      ensures volume.reliable && txn.evidence != Conflicting ==>
        var item := txn.items[txn.activeIndex];
        && (HasLeft(volume.disk.dir, item, txn.activeStep) ==> r.status == Success && Trusted(r, item))
        && (!HasLeft(volume.disk.dir, item, txn.activeStep) ==> r.status != Success && r.evidence == NoCommit)
    {
      hide Volume.ValidPast, WellPlanned, Safe;
      StoredDescribes();
      r := volume.Reconcile(txn);
      StoredDescribes();
      HonestIsSupported(volume.batch, txn, volume.disk.dir, r);
      if volume.reliable {
        ActiveIsDecided(volume.batch, txn, volume.disk.dir);
      }
      r := Weighed(txn, r);
    }

    /** Finds out what became of a rename whose result was never journalled. */
    method ReconcileActive() returns (outcome: StepOutcome)
      requires volume.Valid() && volume.disk.Readable() == Some(txn) && txn.activeStep != NoStep
      modifies this`txn, volume
      ensures outcome != StepJournalError ==> volume.faults == old(volume.faults)
      ensures volume.Valid() && volume.renames == old(volume.renames)
      ensures volume.SameRun() && txn.phase == old(txn.phase)
      ensures volume.batch.quiet ==> volume.disk.dir == old(volume.disk.dir)
      ensures outcome == StepCommitted ==>
        Ready() && Advanced(old(txn), txn, old(txn).activeIndex, old(txn).activeStep)
      ensures outcome == StepNoCommit ==> Ready() && txn == NotDone(old(txn))
      ensures Looked(old(volume.answers), old(txn))
      ensures volume.calm ==>
        var r := Weighed(old(txn), volume.answers[|old(volume.answers)|].result);
        Weighs(old(txn).activeStep, old(txn).activeIndex, r, outcome)
      ensures volume.reliable ==> volume.reconciliations == old(volume.reconciliations) + 1
      ensures volume.reliable && old(txn.evidence) == Conflicting ==>
        && outcome == (if Size(volume.parent, Unresolved(old(txn))) <= LIMIT
                       then StepRecoveryRequired else StepJournalError)
        && (outcome == StepRecoveryRequired ==> volume.disk.primary == Some(Unresolved(old(txn))))
      ensures volume.reliable && old(txn.evidence) != Conflicting ==>
        var s := Settled(old(txn), old(volume.disk.dir));
        && Alike(txn, s)
        && (if Size(volume.parent, s) <= LIMIT then outcome in {StepCommitted, StepNoCommit}
            else outcome == StepJournalError)
      ensures volume.reliable && outcome == StepJournalError ==> Stuck()
    {
      hide Volume.ValidPast, WellPlanned, Safe, Holds, ValidMoves, WorkOf, StableIdentity, CanFinish, Alike, Stuck,
           Size,
           ValidTransaction;
      var r := Inspect();
      outcome := TakeIn(r);
    }

    /** What an observation of the active step means for the record. */
    method TakeIn(r: OperationResult) returns (outcome: StepOutcome)
      requires Active(txn.activeIndex, txn.activeStep) && Supported(volume.batch, txn, volume.disk.dir, r)
      requires txn.evidence == Conflicting ==>
        r.status == UnknownOutcome && r.evidence == Conflicting && r.detail == CONFLICT_DETAIL
      requires volume.reliable && txn.evidence != Conflicting ==>
        var item := txn.items[txn.activeIndex];
        && (HasLeft(volume.disk.dir, item, txn.activeStep) ==> r.status == Success && Trusted(r, item))
        && (!HasLeft(volume.disk.dir, item, txn.activeStep) ==> r.status != Success && r.evidence == NoCommit)
      modifies this`txn, volume`disk, volume`trace, volume`epochs, volume`histories, volume`faults
      ensures outcome != StepJournalError ==> volume.faults == old(volume.faults)
      ensures volume.Valid() && volume.SameRun() && txn.phase == old(txn.phase)
      ensures volume.disk.dir == old(volume.disk.dir)
      ensures volume.calm ==> Weighs(old(txn).activeStep, old(txn).activeIndex, r, outcome)
      ensures outcome == StepCommitted ==>
        Ready() && Advanced(old(txn), txn, old(txn).activeIndex, old(txn).activeStep)
      ensures outcome == StepNoCommit ==> Ready() && txn == NotDone(old(txn))
      ensures volume.reliable && old(txn.evidence) == Conflicting ==>
        && outcome == (if Size(volume.parent, Unresolved(old(txn))) <= LIMIT
                       then StepRecoveryRequired else StepJournalError)
        && (outcome == StepRecoveryRequired ==> volume.disk.primary == Some(Unresolved(old(txn))))
      ensures volume.reliable && old(txn.evidence) != Conflicting ==>
        var s := Settled(old(txn), old(volume.disk.dir));
        && Alike(txn, s)
        && (if Size(volume.parent, s) <= LIMIT then outcome in {StepCommitted, StepNoCommit}
            else outcome == StepJournalError)
      ensures volume.reliable && outcome == StepJournalError ==> Stuck()
    {
      hide Volume.ValidPast, Holds, ValidMoves, WorkOf, StableIdentity, CanFinish, Alike, WellPlanned, Safe;
      ghost var before := txn;
      var i, step := txn.activeIndex, txn.activeStep;
      if r.status == Success {
        outcome := RecordSuccess(i, step, r);
        if volume.reliable && before.evidence != Conflicting {
          ArrivalIsForeseen(volume.parent, before, r.snapshot, volume.disk.dir);
        }
        return;
      }
      if r.evidence == NoCommit {
        outcome := RecordNoCommit();
        AlikeSelf(txn);
      } else {
        outcome := RecordEvidence(r);
      }
    }

    method EnterPhase(phase: Phase) returns (ok: bool)
      requires Ready() && Follows(txn.phase, phase)
      requires forall i | 0 <= i < |txn.items| :: LocationAllowed(phase, txn.items[i].location)
      modifies this`txn, volume`disk, volume`trace, volume`epochs, volume`histories, volume`faults
      ensures ok ==> volume.faults == old(volume.faults)
      ensures volume.Valid() && volume.SameRun() && txn == old(txn).(phase := phase)
      ensures ok ==> Ready()
      ensures volume.calm ==> ok
    {
      ghost var before := txn;
      txn := txn.(phase := phase);
      HeaderIsRecorded(volume.batch, before, txn);
      ok := Persist();
    }

    method EvacuateAll() returns (outcome: StepOutcome)
      requires Ready() && txn.phase == Evacuating
      modifies this`txn, volume
      ensures outcome != StepJournalError ==> volume.faults == old(volume.faults)
      ensures volume.Valid() && volume.SameRun()
      ensures txn.phase in {Evacuating, RollingBack}
      ensures outcome == StepCommitted ==>
        && Ready() && txn.phase == Evacuating
        && forall i | 0 <= i < |txn.items| :: txn.items[i].location == AtTemporary
      ensures outcome == StepNoCommit ==> Ready() && txn.phase == RollingBack
      ensures volume.calm ==> Told(|old(volume.answers)|, Evacuate, outcome)
      ensures volume.reliable ==>
        && volume.reconciliations == old(volume.reconciliations)
        && volume.renames <= old(volume.renames + Work(txn))
        && (if WalkFits(volume.parent, old(txn), Evacuate)
            then && outcome == StepCommitted && Alike(txn, Walk(old(txn), Evacuate, |old(txn).items|))
                 && volume.renames + Work(txn) == old(volume.renames + Work(txn))
            else outcome == StepJournalError)
      ensures volume.reliable && outcome == StepJournalError ==> Stuck()
    {
      hide Volume.ValidPast, Volume.Valid, OnCourse, Alike, Walk, Size, After, WorkOf, Holds, ValidTransaction,
           Told;
      ghost var start := txn;
      StoredFits();
      SetsOff(volume.parent, txn, Evacuate);
      var i := 0;
      while i < |txn.items|
        invariant i <= |txn.items| == |start.items|
        invariant Ready() && txn.phase == Evacuating && volume.SameRun()
        invariant forall j | 0 <= j < i :: txn.items[j].location != AtSource
        invariant volume.faults == old(volume.faults)
        invariant volume.calm ==> AllPass(volume.batch, volume.answers, |old(volume.answers)|, |volume.answers|)
        invariant volume.reliable ==> OnCourse(volume.parent, txn, start, Evacuate, i)
        invariant volume.reliable ==> volume.reconciliations == old(volume.reconciliations)
        invariant volume.reliable ==> volume.renames + Work(txn) == old(volume.renames + Work(txn))
        decreases |start.items| - i
      {
        ghost var before := txn;
        if volume.reliable {
          NextRound(volume.parent, txn, start, Evacuate, i);
        }
        if txn.items[i].location == AtSource {
          WorkIsLeft(txn.phase, txn.items, i);
          ghost var heard := volume.answers;
          var step := ExecuteStep(i, Evacuate);
          if volume.calm {
            ToldLater(|old(volume.answers)|, heard, Evacuate, step);
          }
          if step != StepCommitted {
            return step;
          }
        }
        if volume.reliable {
          AlikeSelf(before);
          StaysOnCourse(volume.parent, before, txn, start, Evacuate, i);
        }
        i := i + 1;
      }
      PlacesOf(volume.batch, txn);
      if volume.calm {
        AllTold(|old(volume.answers)|, Evacuate);
      }
      if volume.reliable {
        Arrives(volume.parent, txn, start, Evacuate);
      }
      outcome := StepCommitted;
    }

    method PublishAll() returns (outcome: StepOutcome)
      requires Ready() && txn.phase == Publishing
      modifies this`txn, volume
      ensures outcome != StepJournalError ==> volume.faults == old(volume.faults)
      ensures volume.Valid() && volume.SameRun()
      ensures txn.phase == Publishing
      ensures outcome == StepCommitted ==> Ready() && txn.Places() == Destinations(volume.batch)
      ensures volume.calm ==> Told(|old(volume.answers)|, Publish, outcome)
      ensures volume.reliable ==>
        && volume.reconciliations == old(volume.reconciliations)
        && volume.renames <= old(volume.renames + Work(txn))
        && outcome == if WalkFits(volume.parent, old(txn), Publish) then StepCommitted else StepJournalError
      ensures volume.reliable && outcome == StepJournalError ==> Stuck()
    {
      hide Volume.ValidPast, Volume.Valid, OnCourse, Alike, Walk, Size, After, WorkOf, Holds, ValidTransaction,
           WellPlanned, Safe, Told;
      ghost var start := txn;
      StoredFits();
      SetsOff(volume.parent, txn, Publish);
      var i := 0;
      while i < |txn.items|
        invariant i <= |txn.items| == |start.items|
        invariant Ready() && txn.phase == Publishing && volume.SameRun()
        invariant forall j | 0 <= j < i :: txn.items[j].location == AtDestination
        invariant volume.faults == old(volume.faults)
        invariant volume.calm ==> AllPass(volume.batch, volume.answers, |old(volume.answers)|, |volume.answers|)
        invariant volume.reliable ==> OnCourse(volume.parent, txn, start, Publish, i)
        invariant volume.reliable ==> volume.reconciliations == old(volume.reconciliations)
        invariant volume.reliable ==> volume.renames + Work(txn) == old(volume.renames + Work(txn))
        decreases |start.items| - i
      {
        PlacesOf(volume.batch, txn);
        ghost var before := txn;
        if volume.reliable {
          NextRound(volume.parent, txn, start, Publish, i);
        }
        if txn.items[i].location != AtDestination {
          if txn.items[i].location != AtTemporary {
            assert false;  // no record of this phase has an object at its source
          }
          WorkIsLeft(txn.phase, txn.items, i);
          ghost var heard := volume.answers;
          var step := ExecuteStep(i, Publish);
          if volume.calm {
            ToldLater(|old(volume.answers)|, heard, Publish, step);
          }
          if step != StepCommitted {
            return step;
          }
        }
        if volume.reliable {
          AlikeSelf(before);
          StaysOnCourse(volume.parent, before, txn, start, Publish, i);
        }
        i := i + 1;
      }
      PlacesOf(volume.batch, txn);
      assert txn.Places() == Destinations(volume.batch);
      if volume.calm {
        AllTold(|old(volume.answers)|, Publish);
      }
      if volume.reliable {
        Arrives(volume.parent, txn, start, Publish);
      }
      outcome := StepCommitted;
    }

    method RollBackAll() returns (outcome: StepOutcome)
      requires Ready() && txn.phase == RollingBack
      modifies this`txn, volume
      ensures outcome != StepJournalError ==> volume.faults == old(volume.faults)
      ensures volume.Valid() && volume.SameRun() && txn.phase == RollingBack
      ensures outcome == StepCommitted ==>
        Ready() && txn.Places() == Sources(volume.batch) && txn.failure == old(txn.failure)
      ensures volume.calm ==> Told(|old(volume.answers)|, RollBack, outcome)
      ensures volume.reliable ==>
        && volume.reconciliations == old(volume.reconciliations)
        && volume.renames <= old(volume.renames + Work(txn))
        && outcome == if WalkFits(volume.parent, old(txn), RollBack) then StepCommitted else StepJournalError
      ensures volume.reliable && outcome == StepJournalError ==> Stuck()
    {
      hide Volume.ValidPast, Volume.Valid, OnCourse, Alike, Walk, Size, After, WorkOf, Holds, ValidTransaction,
           WellPlanned, Safe, Told;
      ghost var start := txn;
      StoredFits();
      SetsOff(volume.parent, txn, RollBack);
      var i := |txn.items|;
      while i > 0
        invariant 0 <= i <= |txn.items| == |start.items|
        invariant Ready() && txn.phase == RollingBack && volume.SameRun() && txn.failure == start.failure
        invariant forall j | i <= j < |txn.items| :: txn.items[j].location == AtSource
        invariant volume.faults == old(volume.faults)
        invariant volume.calm ==> AllPass(volume.batch, volume.answers, |old(volume.answers)|, |volume.answers|)
        invariant volume.reliable ==> OnCourse(volume.parent, txn, start, RollBack, |start.items| - i)
        invariant volume.reliable ==> volume.reconciliations == old(volume.reconciliations)
        invariant volume.reliable ==> volume.renames + Work(txn) == old(volume.renames + Work(txn))
        decreases i
      {
        PlacesOf(volume.batch, txn);
        i := i - 1;
        ghost var before, k := txn, |start.items| - 1 - i;
        if volume.reliable {
          NextRound(volume.parent, txn, start, RollBack, k);
        }
        if txn.items[i].location == AtTemporary {
          WorkIsLeft(txn.phase, txn.items, i);
          ghost var heard := volume.answers;
          var step := ExecuteStep(i, RollBack);
          if volume.calm {
            ToldLater(|old(volume.answers)|, heard, RollBack, step);
          }
          if step != StepCommitted {
            return step;
          }
        }
        if volume.reliable {
          AlikeSelf(before);
          StaysOnCourse(volume.parent, before, txn, start, RollBack, k);
        }
      }
      PlacesOf(volume.batch, txn);
      assert txn.Places() == Sources(volume.batch);
      if volume.calm {
        AllTold(|old(volume.answers)|, RollBack);
      }
      if volume.reliable {
        Arrives(volume.parent, txn, start, RollBack);
      }
      outcome := StepCommitted;
    }

    /** Takes every object back to its source and drops the journal. */
    method Undo() returns (status: RunStatus)
      requires Ready() && txn.phase == RollingBack
      modifies this`txn, volume
      ensures status != RunJournalError ==> volume.faults == old(volume.faults)
      ensures Ended(status) && status != RunSuccess && volume.SameRun()
      ensures status == RunRolledBack ==> txn.failure == old(txn.failure)
      ensures volume.calm ==> Concluded(|old(volume.answers)|, true, status)
      ensures volume.reliable ==>
        && status == (if WalkFits(volume.parent, old(txn), RollBack) then RunRolledBack else RunJournalError)
        && volume.reconciliations == old(volume.reconciliations)
        && volume.renames <= old(volume.renames + Work(txn))
      ensures volume.reliable && status == RunJournalError ==> Stuck()
    {
      hide Volume.ValidPast, WellPlanned, Safe, WorkOf, WalkFits, Stuck, Holds, WellKept, ValidTransaction, Told;
      var outcome := RollBackAll();
      if volume.calm {
        Concludes(|old(volume.answers)|, true, RollBack, outcome);
      }
      if outcome != StepCommitted {
        return RunStatusOf(outcome);
      }
      var ok := volume.Remove();
      return if ok then RunRolledBack else RunJournalError;
    }

    /** Puts every object at its destination and drops the journal. */
    method Finish() returns (status: RunStatus)
      requires Ready() && txn.phase == Publishing
      modifies this`txn, volume
      ensures status != RunJournalError ==> volume.faults == old(volume.faults)
      ensures Ended(status) && status != RunRolledBack && volume.SameRun()
      ensures volume.calm ==> Concluded(|old(volume.answers)|, false, status)
      ensures volume.reliable ==>
        && status == (if WalkFits(volume.parent, old(txn), Publish) then RunSuccess else RunJournalError)
        && volume.reconciliations == old(volume.reconciliations)
        && volume.renames <= old(volume.renames + Work(txn))
      ensures volume.reliable && status == RunJournalError ==> Stuck()
    {
      hide Volume.ValidPast, WellPlanned, Safe, WorkOf, WalkFits, Stuck, Holds, WellKept, ValidTransaction, Told;
      var outcome := PublishAll();
      if volume.calm {
        Concludes(|old(volume.answers)|, false, Publish, outcome);
      }
      if outcome != StepCommitted {
        return RunStatusOf(outcome);
      }
      var ok := volume.Remove();
      return if ok then RunSuccess else RunJournalError;
    }

    /** Even when nothing fails, the next resume will end with the journal error that this run ended with. */
    ghost predicate Stuck()
      reads volume`disk
    {
      && volume.disk.Readable().Some?
      && var t := volume.disk.Readable().value;
         && t.activeIndex < |t.items| && Foreseen(volume.parent, t, volume.disk.dir) == RunJournalError
    }

    /** What the status of a run says about the disk. */
    ghost predicate Ended(status: RunStatus)
      reads volume`disk, volume`trace, volume`epochs, volume`histories
    {
      && volume.Valid()
      && (status in {RunSuccess, RunRolledBack} ==> volume.disk.Readable().None?)
      && (status == RunSuccess ==> Holds(volume.batch, volume.disk.dir, Destinations(volume.batch)))
      && (status == RunRolledBack ==> Holds(volume.batch, volume.disk.dir, Sources(volume.batch)))
    }

    /** Evacuates what is still at its source, then publishes; or undoes. */
    method Proceed() returns (status: RunStatus)
      requires Ready()
      modifies this`txn, volume
      ensures status != RunJournalError ==> volume.faults == old(volume.faults)
      ensures Ended(status) && volume.SameRun()
      ensures Irrevocable(old(txn.phase)) ==> status != RunRolledBack
      ensures old(txn.phase) == RollingBack ==> status != RunSuccess
      ensures volume.calm ==> Concluded(|old(volume.answers)|, old(txn.phase) == RollingBack, status)
      ensures volume.reliable ==>
        && status == (if !CanFinish(volume.parent, old(txn)) then RunJournalError
                      else if old(txn.phase) == RollingBack then RunRolledBack else RunSuccess)
        && volume.reconciliations == old(volume.reconciliations)
        && volume.renames <= old(volume.renames + Work(txn))
      ensures volume.reliable && status == RunJournalError ==> Stuck()
    {
      hide Volume.ValidPast, Volume.Valid, Alike, Walk, Size, WorkOf, Holds, ValidTransaction, WalkFits, Locations,
           WellPlanned, Safe, Told, Concluded, TurnsBack, Stuck;
      ghost var start := txn;
      PlacesOf(volume.batch, txn);
      if txn.phase in {Prepared, Evacuating} {
        var outcome := EvacuateAndCommit();
        ghost var heard := volume.answers;
        if outcome == StepNoCommit {
          if volume.calm {
            RefusalTold(|old(volume.answers)|);
          }
          status := Undo();
          if volume.calm {
            ConcludedBack(|old(volume.answers)|, heard, status);
          }
          return;
        }
        if outcome != StepCommitted {
          if volume.calm {
            Concludes(|old(volume.answers)|, false, Evacuate, outcome);
          }
          return RunStatusOf(outcome);
        }
        if volume.reliable {
          AlikePhase(txn, Evacuated(start).(phase := CommitIntent), Publishing);
          AlikeWalkFits(volume.parent, txn.(phase := Publishing), Evacuated(start).(phase := Publishing), Publish);
        }
      }
      ghost var heard := volume.answers;
      if Irrevocable(txn.phase) {
        status := Conclude();
      } else {
        status := Undo();
      }
      if volume.calm {
        ConcludedLater(|old(volume.answers)|, heard, old(txn.phase) == RollingBack, status);
      }
    }

    /** Brings every object to its temporary name and journals the intent to publish. */
    method EvacuateAndCommit() returns (outcome: StepOutcome)
      requires Ready() && txn.phase in {Prepared, Evacuating}
      modifies this`txn, volume
      ensures outcome != StepJournalError ==> volume.faults == old(volume.faults)
      ensures volume.Valid() && volume.SameRun()
      ensures outcome == StepCommitted ==> Ready() && txn.phase == CommitIntent
      ensures outcome == StepNoCommit ==> Ready() && txn.phase == RollingBack
      ensures volume.calm ==>
        if outcome == StepCommitted then AllPass(volume.batch, volume.answers, |old(volume.answers)|, |volume.answers|)
        else Told(|old(volume.answers)|, Evacuate, outcome)
      ensures volume.reliable ==>
        && volume.reconciliations == old(volume.reconciliations)
        && volume.renames <= old(volume.renames + Work(txn))
        && (if WalkFits(volume.parent, old(txn).(phase := Evacuating), Evacuate)
            then && outcome == StepCommitted && Alike(txn, Evacuated(old(txn)).(phase := CommitIntent))
                 && volume.renames + Work(txn) == old(volume.renames + Work(txn))
            else outcome == StepJournalError)
      ensures volume.reliable && outcome == StepJournalError ==> Stuck()
    {
      hide Volume.ValidPast, Volume.Valid, Alike, Walk, Size, WorkOf, Holds, ValidTransaction, WalkFits, Locations;
      if txn.phase == Prepared {
        PlacesOf(volume.batch, txn);
        WorkOfPhase(Prepared, Evacuating, txn.items);
        var ok := EnterPhase(Evacuating);
        if !ok {
          return StepJournalError;
        }
      }
      ghost var start := txn;
      outcome := EvacuateAll();
      if outcome != StepCommitted {
        return;
      }
      WorkOfPhase(Evacuating, CommitIntent, txn.items);
      if volume.calm {
        Passed(|old(volume.answers)|, Evacuate);
      }
      if volume.reliable {
        assert start.(phase := Evacuating) == start;
        AlikePhase(txn, Evacuated(start), CommitIntent);
      }
      var ok := EnterPhase(CommitIntent);
      outcome := if ok then StepCommitted else StepJournalError;
    }

    /** From here on there is no way back. */
    method Conclude() returns (status: RunStatus)
      requires Ready() && Irrevocable(txn.phase)
      modifies this`txn, volume
      ensures status != RunJournalError ==> volume.faults == old(volume.faults)
      ensures Ended(status) && status != RunRolledBack && volume.SameRun()
      ensures volume.calm ==> Concluded(|old(volume.answers)|, false, status)
      ensures volume.reliable ==>
        && status == (if WalkFits(volume.parent, old(txn).(phase := Publishing), Publish)
                      then RunSuccess else RunJournalError)
        && volume.reconciliations == old(volume.reconciliations)
        && volume.renames <= old(volume.renames + Work(txn))
      ensures volume.reliable && status == RunJournalError ==> Stuck()
    {
      hide Volume.ValidPast, Volume.Valid, Alike, Walk, Size, WorkOf, Holds, ValidTransaction, WalkFits, Locations;
      if txn.phase == CommitIntent {
        PlacesOf(volume.batch, txn);
        WorkOfPhase(CommitIntent, Publishing, txn.items);
        var ok := EnterPhase(Publishing);
        if !ok {
          return RunJournalError;
        }
      }
      status := Finish();
    }

    /**
     How a run ended that began with this record. If a step was active, the first answer says what became
     of it: when it was taken, or confirmed not to be, the run goes on, and else it ends there.
     */
    ghost predicate Resumed(t: Transaction, from: nat, status: RunStatus)
      reads this`txn, volume`disk, volume`answers
    {
      if t.activeStep == NoStep then Concluded(from, Abandoned(t), status)
      else
        && from < |volume.answers| && volume.answers[from].looked
        && var r := Weighed(t, volume.answers[from].result);
           if OutcomeOf(volume.batch, t.activeIndex, r) != StepRecoveryRequired
           then Concluded(from + 1, Abandoned(t), status)
           else
             && |volume.answers| == from + 1
             && status == (if Storable(volume.parent, txn) then RunRecoveryRequired else RunJournalError)
             && (status == RunRecoveryRequired ==>
                   volume.disk.Readable() == Some(txn) && Noted(txn, t.activeStep, t.activeIndex, r))
    }

    /** The step that was active has stayed open, or its record does not fit. */
    lemma EndsThere(t: Transaction, from: nat, outcome: StepOutcome)
      requires t.activeStep != NoStep && |volume.answers| == from + 1 && volume.answers[from].looked
      requires Weighs(t.activeStep, t.activeIndex, Weighed(t, volume.answers[from].result), outcome)
      requires outcome in {StepRecoveryRequired, StepJournalError}
      ensures Resumed(t, from, RunStatusOf(outcome))
    {
      hide Noted, Storable, Taken, Fate, Weighed, Refused;
    }

    lemma GoesOn(t: Transaction, from: nat, status: RunStatus)
      requires if t.activeStep == NoStep then Concluded(from, Abandoned(t), status)
               else
                 && from < |volume.answers| && volume.answers[from].looked
                 && Concluded(from + 1, Abandoned(t), status)
                 && OutcomeOf(volume.batch, t.activeIndex, Weighed(t, volume.answers[from].result))
                    != StepRecoveryRequired
      ensures Resumed(t, from, status)
    {
      hide Concluded, OutcomeOf;
    }

    /** Continues the journalled transaction, whatever state it was left in. */
    method ContinueTransaction() returns (status: RunStatus)
      requires volume.Valid() && volume.disk.Readable() == Some(txn)
      modifies this`txn, volume
      ensures status != RunJournalError ==> volume.faults == old(volume.faults)
      ensures Ended(status) && volume.SameRun()
      ensures Irrevocable(old(txn.phase)) ==> status != RunRolledBack
      ensures old(txn.phase) == RollingBack ==> status != RunSuccess
      ensures volume.calm ==> Resumed(old(txn), |old(volume.answers)|, status)
      ensures volume.reliable ==>
        && status == Foreseen(volume.parent, old(txn), old(volume.disk.dir))
        && volume.renames <= old(volume.renames + Work(txn))
        && volume.reconciliations
           == old(volume.reconciliations) + (if old(txn.activeStep) == NoStep then 0 else 1)
        && (old(txn.evidence) == Conflicting ==> volume.disk.dir == old(volume.disk.dir))
        && (status == RunRecoveryRequired ==> volume.disk.primary == Some(Unresolved(old(txn))))
      ensures volume.reliable && status == RunJournalError ==> Stuck()
    {
      hide Walk, Size, WorkOf, Holds, ValidMoves, CanFinish, Volume.ValidPast, WellPlanned, Safe, Concluded, Stuck;
      StoredDescribes();
      ghost var start := txn;
      if txn.activeStep != NoStep {
        status := ContinueActive();
        return;
      }
      if txn.phase == Evacuating && txn.failure != Success {
        var ok := TurnBack();
        if !ok {
          return RunJournalError;
        }
      }
      status := Proceed();
      if volume.calm {
        GoesOn(start, |old(volume.answers)|, status);
      }
    }

    /** A step was under way when the record was left. */
    method ContinueActive() returns (status: RunStatus)
      requires volume.Valid() && volume.disk.Readable() == Some(txn) && txn.activeStep != NoStep
      requires txn.activeIndex < |txn.items|
      modifies this`txn, volume
      ensures status != RunJournalError ==> volume.faults == old(volume.faults)
      ensures Ended(status) && volume.SameRun()
      ensures Irrevocable(old(txn.phase)) ==> status != RunRolledBack
      ensures old(txn.phase) == RollingBack ==> status != RunSuccess
      ensures volume.calm ==> Resumed(old(txn), |old(volume.answers)|, status)
      ensures volume.reliable ==>
        && status == Foreseen(volume.parent, old(txn), old(volume.disk.dir))
        && volume.renames <= old(volume.renames + Work(txn))
        && volume.reconciliations == old(volume.reconciliations) + 1
        && (old(txn.evidence) == Conflicting ==> volume.disk.dir == old(volume.disk.dir))
        && (status == RunRecoveryRequired ==> volume.disk.primary == Some(Unresolved(old(txn))))
      ensures volume.reliable && status == RunJournalError ==> Stuck()
    {
      hide Alike, Walk, Size, WorkOf, Holds, ValidMoves, WalkFits, CanFinish, Volume.ValidPast, WellPlanned, Safe,
           Resumed, Concluded, Weighed, Taken, Noted, Refused, Stuck;
      ghost var start := txn;
      var outcome := ReconcileActive();
      if outcome in {StepRecoveryRequired, StepJournalError, StepStopped} {
        if volume.calm {
          EndsThere(start, |old(volume.answers)|, outcome);
        }
        if volume.reliable && start.evidence != Conflicting {
          CannotFinish(volume.parent, Settled(start, old(volume.disk.dir)));
        }
        return RunStatusOf(outcome);
      }
      if volume.reliable {
        AlikeCanFinish(volume.parent, txn, Settled(start, old(volume.disk.dir)));
      }
      status := Proceed();
      if volume.calm {
        GoesOn(start, |old(volume.answers)|, status);
      }
    }

    /** An evacuation that had failed is rolled back. */
    method TurnBack() returns (ok: bool)
      requires volume.Valid() && volume.disk.Readable() == Some(txn)
      requires txn.activeStep == NoStep && txn.phase == Evacuating
      modifies this`txn, volume`disk, volume`trace, volume`epochs, volume`histories, volume`faults
      ensures ok ==> volume.faults == old(volume.faults)
      ensures volume.Valid() && volume.SameRun() && txn == old(txn).(phase := RollingBack)
      ensures Work(txn) <= old(Work(txn))
      ensures if ok then Ready() else !volume.calm
    {
      hide Volume.ValidPast, WellPlanned, Safe, Holds, ValidMoves, WorkOf;
      StoredDescribes();
      PlacesOf(volume.batch, txn);
      WorkOfRollback(txn.phase, txn.items);
      ok := EnterPhase(RollingBack);
    }

    /** A new batch. Only here is the transaction given, as the plan prepared it. */
    method RunNew() returns (status: RunStatus)
      requires volume.Valid() && FreshlyPrepared(volume.batch, txn)
      requires volume.disk.Readable().None? ==> Holds(volume.batch, volume.disk.dir, Sources(volume.batch))
      modifies this`txn, volume
      ensures status != RunJournalError ==> volume.faults == old(volume.faults)
      ensures Reported(status) && old(volume.trace) <= volume.trace && NeverTurnsBack(|old(volume.trace)| - 1)
      ensures old(volume.disk.Readable()).Some? ==>
        status in {RunStopped, RunRecoveryRequired} && volume.disk == old(volume.disk)
      ensures volume.calm ==>
        if old(volume.disk.Readable()).Some? then status == RunRecoveryRequired
        else if volume.batch.moves == [] then status == RunNothingToDo
        else Concluded(|old(volume.answers)|, false, status)
      ensures volume.reliable && old(volume.disk.Readable()).None? ==>
        && status == (if volume.batch.moves == [] then RunNothingToDo
                      else if PlanFits(volume.parent, old(txn)) then RunSuccess else RunJournalError)
        && volume.reconciliations == old(volume.reconciliations)
        && volume.renames <= old(volume.renames) + 2 * |volume.batch.moves|
      ensures volume.reliable && status == RunJournalError ==>
        if Storable(volume.parent, old(txn)) then Stuck() else volume.disk == old(volume.disk)
    {
      hide Size, WorkOf, ValidMoves, PlanFits, StableIdentity, Remembered, Volume.Steadfast, NeverTurnsBack,
           WellPlanned, Safe, Concluded, Stuck;
      ghost var from := |volume.trace| - 1;
      StaysDecided(from);
      var stop := volume.Stopping();
      if stop {
        return RunStopped;
      }
      if volume.disk.Readable().Some? {
        return RunRecoveryRequired;
      }
      if |txn.items| == 0 {
        return RunNothingToDo;
      }
      status := Begin();
      Report(status);
    }

    /** Writes the first record and goes on from it. */
    method Begin() returns (status: RunStatus)
      requires volume.Valid() && FreshlyPrepared(volume.batch, txn) && txn.items != []
      requires volume.disk.Readable().None? && Holds(volume.batch, volume.disk.dir, Sources(volume.batch))
      modifies this`txn, volume
      ensures Ended(status) && old(volume.trace) <= volume.trace && NeverTurnsBack(|old(volume.trace)| - 1)
      ensures status != RunJournalError ==> volume.faults == old(volume.faults)
      ensures volume.calm ==> Concluded(|old(volume.answers)|, false, status)
      ensures volume.reliable ==>
        && status == (if PlanFits(volume.parent, old(txn)) then RunSuccess else RunJournalError)
        && volume.reconciliations == old(volume.reconciliations)
        && volume.renames <= old(volume.renames) + 2 * |volume.batch.moves|
      ensures volume.reliable && status == RunJournalError ==>
        if Storable(volume.parent, old(txn)) then Stuck() else volume.disk == old(volume.disk)
    {
      hide Alike, Walk, Size, WorkOf, ValidMoves, WalkFits, CanFinish, PlanFits, StableIdentity, Remembered,
           Volume.Steadfast, NeverTurnsBack, WellPlanned, Safe, Fate, Unfinished, TurnedBackBy, Stuck;
      ghost var from := |volume.trace| - 1;
      StaysDecided(from);
      assert Sources(volume.batch) == txn.Places();
      PlanDecides(volume.parent, txn);
      var ok := Persist();
      StaysDecided(from);
      if !ok {
        if volume.reliable {
          CannotFinish(volume.parent, txn);
        }
        return RunJournalError;
      }
      status := ContinueTransaction();
      StaysDecided(from);
    }

    /** What a later run does: it has nothing but the journal. */
    method RunResume() returns (status: RunStatus)
      requires volume.Valid()
      modifies this`txn, volume
      ensures status != RunJournalError ==> volume.faults == old(volume.faults)
      ensures Reported(status) && old(volume.trace) <= volume.trace && NeverTurnsBack(|old(volume.trace)| - 1)
      ensures !Resumable(volume.parent, old(volume.disk)) ==>
        status == RunJournalError && volume.disk == old(volume.disk)
      ensures Decided(old(volume.disk)) ==> status != RunRolledBack
      ensures volume.calm && Resumable(volume.parent, old(volume.disk)) ==>
        Resumed(old(volume.disk.Readable()).value, |old(volume.answers)|, status)
      ensures volume.reliable && Resumable(volume.parent, old(volume.disk)) ==>
        var t := old(volume.disk.Readable()).value;
        && volume.renames <= old(volume.renames) + Work(t)
        && volume.reconciliations <= old(volume.reconciliations) + 1
        && status == Foreseen(volume.parent, t, old(volume.disk.dir))
        && (status == RunJournalError ==> Stuck())
        && (status == RunRecoveryRequired ==> volume.disk.primary == Some(Unresolved(t)))
    {
      hide Remembered, Volume.Steadfast, NeverTurnsBack, WellPlanned, Safe;
      ghost var from := |volume.trace| - 1;
      StaysDecided(from);
      var loaded := volume.Load();
      if loaded.None? {
        return RunJournalError;
      }
      txn := loaded.value;
      status := ContinueTransaction();
      StaysDecided(from);
      Report(status);
    }

    /** From this state on, a record that announces publication is never followed by one that does not. */
    ghost predicate NeverTurnsBack(from: int)
      reads volume
    {
      forall i, j | 0 <= from <= i <= j < |volume.trace| :: KeepsDecision(volume.trace[i], volume.trace[j])
    }

    lemma StaysDecided(from: nat)
      requires volume.Valid() && from < |volume.trace|
      requires || volume.epochs[from] == volume.Epoch()
               || (!Decided(volume.trace[from])
                   && (from + 1 < |volume.trace| ==> volume.epochs[from + 1] == volume.Epoch()))
      ensures NeverTurnsBack(from)
    {
      hide WellPlanned, Safe, WellKept;
      forall i, j | from <= i <= j < |volume.trace|
        ensures KeepsDecision(volume.trace[i], volume.trace[j])
      {
        if volume.epochs[from] == volume.Epoch() {
          assert volume.epochs[from] <= volume.epochs[i] <= volume.epochs[j] <= volume.Epoch();
        } else if from < i {
          assert volume.epochs[from + 1] <= volume.epochs[i] <= volume.epochs[j] <= volume.Epoch();
        }
      }
    }

    /** The status of a run read as a statement about the whole directory. */
    ghost predicate Reported(status: RunStatus)
      reads volume`disk, volume`trace, volume`epochs, volume`histories
    {
      && volume.Valid()
      && (status == RunSuccess && volume.batch.quiet ==>
            volume.disk.Readable().None? && SimultaneouslyRenamed(volume.batch, volume.disk.dir))
      && (status == RunRolledBack && volume.batch.quiet ==>
            volume.disk.Readable().None? && volume.disk.dir == volume.batch.initial)
    }

    lemma Report(status: RunStatus)
      requires Ended(status)
      ensures Reported(status)
    {
      if volume.batch.quiet && status == RunSuccess {
        AllAtDestination(volume.batch, volume.disk.dir);
      } else if volume.batch.quiet && status == RunRolledBack {
        AllAtSource(volume.batch, volume.disk.dir);
      }
    }
  }

  // ---------------------------------------------------------------- a failure-free run, round by round

  /** The transaction has the shape foreseen for round k, and the journal held every record so far. */
  predicate OnCourse(parent: Bytes, t: Transaction, start: Transaction, step: StepKind, k: nat)
    requires step != NoStep
  {
    && k <= |start.items| == |t.items| && Alike(t, Walk(start, step, k))
    && forall l | 0 <= l <= k :: Size(parent, Walk(start, step, l)) <= LIMIT
  }

  /** What round k makes of the transaction. */
  function NextOf(t: Transaction, step: StepKind, k: nat): Transaction
    requires step != NoStep && k < |t.items|
  {
    var i := Turn(|t.items|, step, k);
    if MayStep(t, i, step) then After(t, i, step) else t
  }

  lemma SetsOff(parent: Bytes, t: Transaction, step: StepKind)
    requires step != NoStep && Size(parent, t) <= LIMIT
    ensures OnCourse(parent, t, t, step, 0)
  {
    assert Walk(t, step, 0) == t;
  }

  lemma NextRound(parent: Bytes, t: Transaction, start: Transaction, step: StepKind, k: nat)
    requires step != NoStep && k < |t.items| && OnCourse(parent, t, start, step, k)
    ensures Alike(NextOf(t, step, k), Walk(start, step, k + 1))
    ensures Size(parent, NextOf(t, step, k)) == Size(parent, Walk(start, step, k + 1))
    ensures Size(parent, NextOf(t, step, k)) > LIMIT ==> !WalkFits(parent, start, step)
    ensures Size(parent, t) <= LIMIT
  {
    var i := Turn(|start.items|, step, k);
    var u := Walk(start, step, k);
    AlikeSize(parent, t, u);
    assert AlikeItem(t.items[i], u.items[i]);
    AlikeAfter(t, u, i, step, t.items[i].snapshot);
    AlikeSize(parent, NextOf(t, step, k), Walk(start, step, k + 1));
  }

  lemma Arrives(parent: Bytes, t: Transaction, start: Transaction, step: StepKind)
    requires step != NoStep && OnCourse(parent, t, start, step, |start.items|)
    ensures WalkFits(parent, start, step) && Alike(t, Walk(start, step, |start.items|))
  {
  }

  lemma StaysOnCourse(parent: Bytes, t: Transaction, t': Transaction, start: Transaction, step: StepKind, k: nat)
    requires step != NoStep && k < |t.items| && OnCourse(parent, t, start, step, k)
    requires Alike(t', NextOf(t, step, k)) && Size(parent, NextOf(t, step, k)) <= LIMIT
    ensures OnCourse(parent, t', start, step, k + 1)
  {
    hide Walk, Size, Alike, NextOf;
    NextRound(parent, t, start, step, k);
    AlikeTransitive(t', NextOf(t, step, k), Walk(start, step, k + 1));
  }

  lemma AlikeTransitive(t: Transaction, u: Transaction, v: Transaction)
    requires Alike(t, u) && Alike(u, v)
    ensures Alike(t, v)
  {
    forall j | 0 <= j < |t.items|
      ensures AlikeItem(t.items[j], v.items[j])
    {
      assert AlikeItem(t.items[j], u.items[j]) && AlikeItem(u.items[j], v.items[j]);
    }
  }

  lemma {:induction false} WorkIsLeft(phase: Phase, items: seq<Item>, i: nat)
    requires i < |items| && StepsLeft(phase, items[i].location) > 0
    ensures WorkOf(phase, items) > 0
  {
    if i > 0 {
      WorkIsLeft(phase, items[1..], i - 1);
    }
  }

  lemma AlikeSelf(t: Transaction)
    ensures Alike(t, t)
  {
  }

  lemma AlikePhase(t: Transaction, u: Transaction, phase: Phase)
    requires Alike(t, u)
    ensures Alike(t.(phase := phase), u.(phase := phase))
  {
  }

  /** Whether the record of the intent or the one before it is taken, the result has one shape. */
  lemma SameAfterIntent(t: Transaction, i: nat, step: StepKind, snapshot: Snapshot)
    requires step != NoStep && i < |t.items| && i < 0x1_0000_0000
    requires |snapshot.revision| == |t.items[i].snapshot.revision|
    ensures Alike(Applied(Intent(t, i, step), i, step, snapshot), After(t, i, step))
  {
    assert Alike(Intent(t, i, step), t);
    AlikeAfter(Intent(t, i, step), t, i, step, snapshot);
  }

  lemma CannotFinish(parent: Bytes, t: Transaction)
    requires Size(parent, t) > LIMIT
    ensures !CanFinish(parent, t)
  {
    assert Walk(t, RollBack, 0) == t;
    assert Walk(t.(phase := Publishing), Publish, 0) == t.(phase := Publishing);
    assert Walk(t.(phase := Evacuating), Evacuate, 0) == t.(phase := Evacuating);
  }

  /** The record from which a run goes on: without an active step, or with what became of it. */
  ghost function Settled(t: Transaction, dir: Directory): Transaction
    requires t.activeStep != NoStep ==> t.activeIndex < |t.items|
  {
    if t.activeStep == NoStep then (if Abandoned(t) then t.(phase := RollingBack) else t)
    else if HasLeft(dir, t.items[t.activeIndex], t.activeStep) then After(t, t.activeIndex, t.activeStep)
    else NotDone(t)
  }

  /** The record after another look at a step whose evidence conflicts. */
  function Unresolved(t: Transaction): Transaction {
    t.(failure := UnknownOutcome, evidence := Conflicting, detail := CONFLICT_DETAIL)
  }

  /** How a run ends in which nothing fails. */
  ghost function Foreseen(parent: Bytes, t: Transaction, dir: Directory): RunStatus
    requires t.activeStep != NoStep ==> t.activeIndex < |t.items|
  {
    if t.evidence == Conflicting then
      if Size(parent, Unresolved(t)) <= LIMIT then RunRecoveryRequired else RunJournalError
    else if !CanFinish(parent, Settled(t, dir)) then RunJournalError
    else if Abandoned(t) then RunRolledBack else RunSuccess
  }

  /** Finding that the active rename has happened leads to the record that was foreseen. */
  lemma ArrivalIsForeseen(parent: Bytes, t: Transaction, snapshot: Snapshot, dir: Directory)
    requires t.activeStep != NoStep && t.activeIndex < |t.items| && t.evidence != Conflicting
    requires |snapshot.revision| == |t.items[t.activeIndex].snapshot.revision|
    requires HasLeft(dir, t.items[t.activeIndex], t.activeStep)
    ensures var t' := Applied(t, t.activeIndex, t.activeStep, snapshot);
      && Alike(t', Settled(t, dir)) && Size(parent, t') == Size(parent, Settled(t, dir))
      && (Size(parent, t') > LIMIT ==> Foreseen(parent, t, dir) == RunJournalError)
  {
    var t', s := Applied(t, t.activeIndex, t.activeStep, snapshot), Settled(t, dir);
    AlikeSelf(t);
    AlikeAfter(t, t, t.activeIndex, t.activeStep, snapshot);
    AlikeSize(parent, t', s);
    if Size(parent, t') > LIMIT {
      CannotFinish(parent, s);
    }
  }

  /** The same for a step from its intent on; what does not fit then will never fit. */
  lemma StepIsForeseen(parent: Bytes, t: Transaction, i: nat, step: StepKind, snapshot: Snapshot, dir: Directory)
    requires step != NoStep && i < |t.items| && i < 0x1_0000_0000
    requires |snapshot.revision| == |t.items[i].snapshot.revision|
    requires HasLeft(dir, t.items[i], step)
    ensures var t' := Applied(Intent(t, i, step), i, step, snapshot);
      && Alike(t', After(t, i, step)) && Size(parent, t') == Size(parent, After(t, i, step))
      && (Size(parent, t') > LIMIT ==> Foreseen(parent, Intent(t, i, step), dir) == RunJournalError)
  {
    SameAfterIntent(t, i, step, snapshot);
    AlikeSize(parent, Applied(Intent(t, i, step), i, step, snapshot), After(t, i, step));
    ArrivalIsForeseen(parent, Intent(t, i, step), snapshot, dir);
  }

  /** There is a record, and its paths and texts are UTF-8. */
  predicate Resumable(parent: Bytes, d: Disk) {
    d.Readable().Some? && Legible(parent, d.Readable().value)
  }

  /** The transaction a plan prepares: nothing has happened yet. */
  ghost predicate FreshlyPrepared(b: Batch, t: Transaction) {
    && t.Moves() == b.moves && AtStart(t)
    && (t.items != [] ==> ValidTransaction(t))
  }

  /** After a record of commit intent or publishing there is none of a rollback, through all reboots. */
  ghost predicate NeverRollsBack(history: seq<Disk>) {
    forall a, b | 0 <= a <= b < |history| && Decided(history[a]) && history[b].Readable().Some? ::
      history[b].Readable().value.phase != RollingBack
  }

  /** What every durable state of a valid volume satisfies. */
  lemma TraceIsSound(volume: Volume)
    requires volume.Valid()
    ensures forall d, i | d in volume.trace && 0 <= i < |volume.batch.moves| :: Present(volume.batch, d.dir, i)
    ensures volume.batch.quiet ==> forall d | d in volume.trace :: Intact(volume.batch, d.dir)
    ensures volume.batch.quiet ==> forall d | d in volume.trace && d.Readable().None? ::
      d.dir == volume.batch.initial || SimultaneouslyRenamed(volume.batch, d.dir)
    ensures |volume.epochs| == |volume.trace|
    ensures forall i, j | 0 <= i <= j < |volume.trace| && volume.epochs[i] == volume.epochs[j] ::
      Decided(volume.trace[i]) && volume.trace[j].Readable().Some? ==>
        volume.trace[j].Readable().value.phase != RollingBack
    ensures |volume.histories| == |volume.trace|
    ensures forall j | 0 <= j < |volume.trace| ::
      EndsIn(volume.histories[j], volume.trace[j]) && NeverRollsBack(volume.histories[j])
    ensures forall j | 0 < j < |volume.trace| :: HasPast(volume.trace, volume.histories, j)
  {
    hide WellPlanned, Holds, Describes;
    forall d | d in volume.trace
      ensures forall i | 0 <= i < |volume.batch.moves| :: Present(volume.batch, d.dir, i)
      ensures volume.batch.quiet ==> Intact(volume.batch, d.dir)
      ensures volume.batch.quiet && d.Readable().None? ==>
                d.dir == volume.batch.initial || SimultaneouslyRenamed(volume.batch, d.dir)
    {
      NoObjectLost(volume.batch, d);
      if volume.batch.quiet {
        NothingElseTouched(volume.batch, d);
        if d.Readable().None? {
          AllOrNothing(volume.batch, d);
        }
      }
    }
    forall i, j | 0 <= i <= j < |volume.trace| && volume.epochs[i] == volume.epochs[j]
      ensures KeepsDecision(volume.trace[i], volume.trace[j])
    {
    }
    forall j | 0 <= j < |volume.trace|
      ensures NeverRollsBack(volume.histories[j])
    {
      StraightMeans(volume.histories[j]);
    }
  }

  lemma StraightMeans(history: seq<Disk>)
    requires Straight(history)
    ensures NeverRollsBack(history)
  {
    forall a, b | 0 <= a <= b < |history| && Decided(history[a]) && history[b].Readable().Some?
      ensures history[b].Readable().value.phase != RollingBack
    {
      assert KeepsDecision(history[a], history[b]);
    }
  }

  /**
   Every lifetime of a batch: it is started once; then, any number of times, the process dies
   with any state it has ever left on disk, or ends, and a later run resumes.
   */
  method Lifetime(volume: Volume, t: Transaction, rounds: nat)
    requires volume.Valid() && FreshlyPrepared(volume.batch, t)
    requires volume.disk == Disk(volume.batch.initial, None, None)
    modifies volume
    ensures old(volume.trace) <= volume.trace && |volume.epochs| == |volume.trace|
    ensures forall d, i | d in volume.trace && 0 <= i < |volume.batch.moves| :: Present(volume.batch, d.dir, i)
    ensures volume.batch.quiet ==> forall d | d in volume.trace :: Intact(volume.batch, d.dir)
    ensures volume.batch.quiet ==> forall d | d in volume.trace && d.Readable().None? ::
      d.dir == volume.batch.initial || SimultaneouslyRenamed(volume.batch, d.dir)
    ensures forall i, j | 0 <= i <= j < |volume.trace| && volume.epochs[i] == volume.epochs[j] ::
      Decided(volume.trace[i]) && volume.trace[j].Readable().Some? ==>
        volume.trace[j].Readable().value.phase != RollingBack
    ensures |volume.histories| == |volume.trace|
    ensures forall j | 0 <= j < |volume.trace| ::
      EndsIn(volume.histories[j], volume.trace[j]) && NeverRollsBack(volume.histories[j])
    ensures forall j | 0 < j < |volume.trace| :: HasPast(volume.trace, volume.histories, j)
  {
    hide Intact, SimultaneouslyRenamed, Present, Decided, Holds, WellPlanned, ValidTransaction;
    var c := new Coordinator(volume, t);
    StartIsSafe(volume.batch);
    var status := c.RunNew();
    for round := 0 to rounds
      invariant volume.Valid() && old(volume.trace) <= volume.trace
    {
      var dies: bool := *;
      if dies {
        var k: nat :| k < |volume.trace|;
        volume.Reboot(k);
      }
      status := c.RunResume();
    }
    TraceIsSound(volume);
  }
}
