/**
 The world of the batch-rename coordinator: a directory, the durable journal store and the
 file-operation service. Failures, their reports and the acts of other programs are chosen
 nondeterministically; every state a crash could leave behind is appended to `trace`.
 */
module BatchVolume {
  import opened Bytes
  import opened BatchTransaction
  import opened BatchDisk
  import opened BatchJournal
  import opened TransactionCodec

  datatype OperationResult = OperationResult(
    status: Status, evidence: Evidence,
    destinationPresent: bool, destinationMatches: bool,
    snapshot: Snapshot, detail: Bytes)

  /** What the service said of a step, after attempting it or after looking where its object is. */
  datatype Answer = Answer(step: StepKind, index: nat, looked: bool, result: OperationResult)

  const NO_SNAPSHOT: Snapshot := Snapshot(0, 0, [])

  const CONFLICT_DETAIL: Bytes :=
    Ascii("operation result conflicts ") + Ascii("with read-only reconciliation; ")
    + Ascii("recovery is required")

  /** Combines what an attempt reported with what a later observation reports. */
  function MergeReconciliation(attempted: OperationResult, observed: OperationResult)
    : OperationResult
  {
    if || attempted.evidence == Conflicting || observed.evidence == Conflicting
       || (attempted.evidence == Committed && observed.evidence == NoCommit)
       || (attempted.evidence == NoCommit && observed.evidence == Committed)
    then
      OperationResult(UnknownOutcome, Conflicting, observed.destinationPresent,
                      observed.destinationMatches, NO_SNAPSHOT, CONFLICT_DETAIL)
    else if && attempted.status == UnknownOutcome && attempted.evidence == Committed
            && attempted.destinationPresent && attempted.destinationMatches
            && observed.status == Success && observed.evidence == Committed
    then
      attempted.(destinationPresent := observed.destinationPresent,
                 destinationMatches := observed.destinationMatches,
                 snapshot := observed.snapshot)
    else if observed.status in {Success, Conflict, SourceChanged} then
      if observed.status == Success || attempted.detail == [] then observed
      else observed.(detail := observed.detail + Ascii("; operation attempt: ") + attempted.detail)
    else
      attempted.(destinationPresent := observed.destinationPresent,
                 destinationMatches := observed.destinationMatches,
                 evidence := if attempted.evidence == NoEvidence then observed.evidence
                             else attempted.evidence)
  }

  predicate IsAt(dir: Directory, n: Name, item: Item) {
    n in dir && dir[n] == StableIdentity(item.snapshot.revision)
  }

  predicate HasLeft(dir: Directory, item: Item, step: StepKind)
    requires step != NoStep
  {
    IsAt(dir, item.Target(step), item) && !IsAt(dir, item.current, item)
  }

  predicate HasStayed(dir: Directory, item: Item, step: StepKind)
    requires step != NoStep
  {
    IsAt(dir, item.current, item) && !IsAt(dir, item.Target(step), item)
  }

  /** A report of success or of a commit is true, and so is a report of no commit. */
  predicate Honest(r: OperationResult, dir: Directory, item: Item, step: StepKind)
    requires step != NoStep
  {
    && (r.status == Success || r.evidence == Committed ==> HasLeft(dir, item, step))
    && (r.evidence == NoCommit ==> HasStayed(dir, item, step))
  }

  /**
   The report identifies the object, gives a directory no size, and its revision is as long as
   the one on record: only a time of a fixed number of digits changes in it.
   */
  predicate Trusted(r: OperationResult, item: Item) {
    && StableIdentity(r.snapshot.revision) == StableIdentity(item.snapshot.revision)
    && |r.snapshot.revision| == |item.snapshot.revision|
    && (item.kind == Directory && item.snapshot.size == 0 ==> r.snapshot.size == 0)
  }

  /** A report that says all there is to say. */
  predicate Full(r: OperationResult, dir: Directory, item: Item, step: StepKind)
    requires step != NoStep
  {
    && (HasLeft(dir, item, step) ==> r.status == Success && r.evidence == Committed && Trusted(r, item))
    && (HasStayed(dir, item, step) ==> r.status != Success && r.evidence == NoCommit)
  }

  // ---------------------------------------------------------------- phases on disk

  /** The order of the phases: evacuation may be abandoned, publication may not. */
  predicate Follows(p: Phase, q: Phase) {
    || p == q
    || (p == Prepared && q == Evacuating)
    || (p == Evacuating && q in {CommitIntent, RollingBack})
    || (p == CommitIntent && q == Publishing)
  }

  predicate Irrevocable(p: Phase) {
    p in {CommitIntent, Publishing}
  }

  /** The record that would be read says that the batch will be published. */
  predicate Decided(d: Disk) {
    d.Readable().Some? && Irrevocable(d.Readable().value.phase)
  }

  /** A state that has become `later` has not gone back on a decision. */
  predicate KeepsDecision(earlier: Disk, later: Disk) {
    Decided(earlier) ==> later.Readable().None? || Decided(later)
  }

  /** Both generations are records the journal accepts, the older one of an earlier or the same phase. */
  predicate WellKept(parent: Bytes, d: Disk) {
    && (d.primary.Some? ==> Storable(parent, d.primary.value))
    && (d.previous.Some? ==> Storable(parent, d.previous.value))
    && (d.primary.Some? && d.previous.Some? ==> Follows(d.previous.value.phase, d.primary.value.phase))
  }

  /** No state of a history goes back on a decision of an earlier one. */
  ghost predicate Straight(history: seq<Disk>) {
    forall a, b | 0 <= a <= b < |history| :: KeepsDecision(history[a], history[b])
  }

  /** The history of a later state is that of an earlier one and then itself, or a batch begins with it. */
  predicate Continues(trace: seq<Disk>, histories: seq<seq<Disk>>, i: nat, j: nat)
    requires i < j < |trace| == |histories|
  {
    || histories[j] == histories[i] + [trace[j]]
    || (trace[i].Readable().None? && trace[j].Readable().Some? && histories[j] == [trace[j]])
  }

  predicate HasPast(trace: seq<Disk>, histories: seq<seq<Disk>>, j: nat)
    requires j < |trace| == |histories|
  {
    exists i :: 0 <= i < j && Continues(trace, histories, i, j)
  }

  ghost predicate Remembered(trace: seq<Disk>, histories: seq<seq<Disk>>) {
    && |histories| == |trace|
    && (forall j | 0 <= j < |trace| :: Straight(histories[j]) && EndsIn(histories[j], trace[j]))
    && forall j | 0 < j < |trace| :: HasPast(trace, histories, j)
  }

  predicate EndsIn(history: seq<Disk>, d: Disk) {
    history != [] && history[|history| - 1] == d
  }

  lemma OneStateMore(trace: seq<Disk>, histories: seq<seq<Disk>>, k: nat, d: Disk)
    requires Remembered(trace, histories) && k < |trace| && KeepsDecision(trace[k], d)
    requires trace[k].Readable().None? ==> d.Readable().None?
    ensures Remembered(trace + [d], histories + [histories[k] + [d]])
  {
    var h := histories[k] + [d];
    forall a, b | 0 <= a <= b < |h|
      ensures KeepsDecision(h[a], h[b])
    {
      if b < |h| - 1 {
        assert KeepsDecision(histories[k][a], histories[k][b]);
      } else if a < b {
        assert EndsIn(histories[k], trace[k]) && KeepsDecision(histories[k][a], histories[k][|h| - 2]);
      }
    }
    assert Continues(trace + [d], histories + [h], k, |trace|);
    Grown(trace, histories, d, h);
  }

  lemma BatchBegins(trace: seq<Disk>, histories: seq<seq<Disk>>, d: Disk)
    requires Remembered(trace, histories) && trace != []
    requires trace[|trace| - 1].Readable().None? && d.Readable().Some?
    ensures Remembered(trace + [d], histories + [[d]])
  {
    assert Continues(trace + [d], histories + [[d]], |trace| - 1, |trace|);
    Grown(trace, histories, d, [d]);
  }

  lemma Grown(trace: seq<Disk>, histories: seq<seq<Disk>>, d: Disk, h: seq<Disk>)
    requires Remembered(trace, histories) && Straight(h) && EndsIn(h, d)
    requires HasPast(trace + [d], histories + [h], |trace|)
    ensures Remembered(trace + [d], histories + [h])
  {
    hide KeepsDecision, Straight;
    var trace', histories' := trace + [d], histories + [h];
    forall j | 0 < j < |trace'|
      ensures HasPast(trace', histories', j)
    {
      if j < |trace| {
        assert HasPast(trace, histories, j);
        var i :| 0 <= i < j && Continues(trace, histories, i, j);
        assert Continues(trace', histories', i, j);
      }
    }
  }

  /** Within an epoch no state goes back on a decision. */
  ghost predicate Firm(trace: seq<Disk>, epochs: seq<nat>) {
    && |epochs| == |trace| && (forall i, j | 0 <= i <= j < |epochs| :: epochs[i] <= epochs[j])
    && (forall i, j | 0 <= i <= j < |trace| && epochs[i] == epochs[j] :: KeepsDecision(trace[i], trace[j]))
  }

  lemma FirmGrows(trace: seq<Disk>, epochs: seq<nat>, d: Disk, begun: nat)
    requires Firm(trace, epochs) && trace != []
    requires begun == 0 ==>
               && KeepsDecision(trace[|trace| - 1], d)
               && (trace[|trace| - 1].Readable().None? ==> d.Readable().None?)
    ensures |epochs| == |trace| && Firm(trace + [d], epochs + [epochs[|epochs| - 1] + begun])
  {
    var n := |trace|;
    var now := epochs[n - 1] + begun;
    var trace', epochs' := trace + [d], epochs + [now];
    forall i | 0 <= i < n && epochs[i] == now
      ensures KeepsDecision(trace[i], d)
    {
      assert epochs[i] <= epochs[n - 1];
      assert KeepsDecision(trace[i], trace[n - 1]);
    }
    hide KeepsDecision;
    forall i, j | 0 <= i <= j <= n && epochs'[i] == epochs'[j]
      ensures KeepsDecision(trace'[i], trace'[j])
    {
      if j == n && i == n {
        Itself(d);
      }
    }
  }

  lemma Itself(d: Disk)
    ensures KeepsDecision(d, d)
  {
  }

  class Volume {
    const batch: Batch
    /** The directory of the batch, as paths begin with it. */
    const parent: Bytes
    /** The journal can be written and removed, and nobody asks to stop; renames may still fail. */
    const calm: bool
    /** Calm, no interference, and every rename succeeds and is fully reported. */
    const reliable: bool
    var disk: Disk
    var trace: seq<Disk>
    /** For every state of the trace, how often a process or a batch had begun before it. */
    ghost var epochs: seq<nat>
    /** For every state of the trace, the states that led to it through all reboots, since its batch began. */
    ghost var histories: seq<seq<Disk>>
    /** Everything the service has said. */
    ghost var answers: seq<Answer>
    /** How often the journal could not be written or removed. */
    ghost var faults: nat
    var renames: nat
    var reconciliations: nat

    ghost predicate Valid()
      reads this`disk, this`trace, this`epochs, this`histories
    {
      && WellPlanned(batch) && IsParent(parent)
      && (reliable ==> batch.quiet && calm)
      && Safe(batch, disk) && WellKept(parent, disk) && ValidPast()
    }

    /** What holds of every state that was ever on disk, and of how they followed each other. */
    ghost predicate ValidPast()
      reads this`disk, this`trace, this`epochs, this`histories
    {
      && trace != [] && trace[|trace| - 1] == disk
      && (forall d | d in trace :: Safe(batch, d) && WellKept(parent, d))
      && |epochs| == |trace| && Steadfast()
      && Remembered(trace, histories)
    }

    /** As long as no process and no batch begins, a decision to publish is never taken back. */
    ghost predicate Steadfast()
      reads this`trace, this`epochs
    {
      Firm(trace, epochs)
    }

    /** Trace and answers have only grown, and all that was added belongs to the process and batch of before. */
    twostate predicate SameRun()
      reads this`trace, this`epochs, this`answers
    {
      && old(trace) <= trace && old(epochs) <= epochs && Epoch() == old(Epoch())
      && old(answers) <= answers
    }

    ghost function Epoch(): nat
      reads this`epochs
    {
      if epochs == [] then 0 else epochs[|epochs| - 1]
    }

    constructor (batch: Batch, parent: Bytes, calm: bool, reliable: bool)
      requires WellPlanned(batch) && IsParent(parent) && (reliable ==> batch.quiet && calm)
      ensures Valid() && this.batch == batch && this.parent == parent
      ensures this.calm == calm && this.reliable == reliable
      ensures disk == Disk(batch.initial, None, None) && trace == [disk]
      ensures answers == [] && renames == 0 && reconciliations == 0
    {
      this.batch := batch;
      this.parent := parent;
      this.calm, this.reliable := calm, reliable;
      disk := Disk(batch.initial, None, None);
      trace := [Disk(batch.initial, None, None)];
      epochs, histories := [0], [[Disk(batch.initial, None, None)]];
      answers, faults, renames, reconciliations := [], 0, 0, 0;
      new;
      StartIsSafe(batch);
    }

    /** What an earlier process has left behind. */
    constructor Found(batch: Batch, parent: Bytes, calm: bool, reliable: bool, disk: Disk)
      requires WellPlanned(batch) && IsParent(parent) && (reliable ==> batch.quiet && calm)
      requires Safe(batch, disk) && WellKept(parent, disk)
      ensures Valid() && this.batch == batch && this.parent == parent
      ensures this.calm == calm && this.reliable == reliable
      ensures this.disk == disk && trace == [disk]
      ensures answers == [] && renames == 0 && reconciliations == 0
    {
      this.batch := batch;
      this.parent := parent;
      this.calm, this.reliable := calm, reliable;
      this.disk := disk;
      trace := [disk];
      epochs, histories := [0], [[disk]];
      answers, faults, renames, reconciliations := [], 0, 0, 0;
    }

    /** The next durable state. */
    method Settle(d: Disk)
      requires Valid() && Safe(batch, d) && WellKept(parent, d) && KeepsDecision(disk, d)
      modifies this`disk, this`trace, this`epochs, this`histories
      ensures Valid() && disk == d && trace == old(trace) + [d]
      ensures old(disk.Readable().Some?) || d.Readable().None? ==> SameRun()
    {
      if disk.Readable().None? && d.Readable().Some? {
        // a record where there was none begins a batch
        BatchBegins(trace, histories, d);
        Append(d, 1, [d]);
      } else {
        OneStateMore(trace, histories, |trace| - 1, d);
        Append(d, 0, histories[|trace| - 1] + [d]);
      }
    }

    method Append(d: Disk, ghost begun: nat, ghost history: seq<Disk>)
      requires Valid() && Safe(batch, d) && WellKept(parent, d)
      requires begun == 0 ==> KeepsDecision(disk, d) && (disk.Readable().None? ==> d.Readable().None?)
      requires Remembered(trace + [d], histories + [history])
      modifies this`disk, this`trace, this`epochs, this`histories
      ensures Valid() && disk == d && trace == old(trace) + [d] && histories == old(histories) + [history]
      ensures begun == 0 ==> SameRun()
    {
      hide Remembered, Firm, Safe, WellKept, WellPlanned;
      FirmGrows(trace, epochs, d, begun);
      disk := d;
      epochs, histories := epochs + [epochs[|epochs| - 1] + begun], histories + [history];
      trace := trace + [d];
    }

    /** A crash: some state left on disk is what the next run finds. */
    method Reboot(k: nat)
      requires Valid() && k < |trace|
      modifies this`disk, this`trace, this`epochs, this`histories
      ensures Valid() && disk == old(trace[k]) && trace == old(trace) + [disk]
      ensures histories == old(histories) + [old(histories[k]) + [disk]]
    {
      OneStateMore(trace, histories, k, trace[k]);
      Append(trace[k], 1, histories[k] + [trace[k]]);
    }

    method Stopping() returns (stop: bool)
      ensures calm ==> !stop
    {
      var requested: bool := *;
      stop := requested && !calm;
    }

    /** Whether an operation on the journal fails. */
    method Chance() returns (fails: bool)
      modifies this`faults
      ensures calm ==> !fails
      ensures faults == old(faults) + if fails then 1 else 0
    {
      fails := Stopping();
      faults := faults + if fails then 1 else 0;
    }

    /** Others change entries that do not hold a selected object. */
    method Interfere()
      requires Valid()
      modifies this`disk, this`trace, this`epochs, this`histories
      ensures Valid() && SameRun()
      ensures disk == old(disk).(dir := disk.dir)
      ensures batch.quiet ==> disk == old(disk)
      ensures forall n | n in old(disk.dir) && (exists m | m in batch.moves :: m.obj == old(disk.dir)[n]) ::
                n in disk.dir && disk.dir[n] == old(disk.dir)[n]
    {
      if !batch.quiet {
        var before := disk.dir;
        var after: Directory :|
          forall n | n in before && (exists m | m in batch.moves :: m.obj == before[n]) ::
            n in after && after[n] == before[n];
        InterferenceIsSafe(batch, disk, after);
        Settle(disk.(dir := after));
      }
    }

    // -------------------------------------------------------------- durable journal store

    /**
     Replaces the record: the primary generation becomes the previous one, then the new record
     becomes primary. It may stop in between, and may report failure although it succeeded.
     */
    method Write(t: Transaction) returns (ok: bool)
      requires Valid() && Describes(batch, t, disk.dir) && Storable(parent, t)
      requires disk.Readable().Some? ==> Follows(disk.Readable().value.phase, t.phase)
      modifies this`disk, this`trace, this`epochs, this`histories, this`faults
      ensures Valid() && disk.dir == old(disk.dir)
      ensures if old(disk.Readable().Some?) then SameRun() else old(trace) <= trace && |trace| <= |old(trace)| + 1
      ensures ok ==> disk.primary == Some(t)
      ensures calm ==> ok
      ensures ok <==> faults == old(faults)
      ensures faults >= old(faults)
    {
      hide ValidPast, Holds, WellPlanned, ValidTransaction;
      var fails := Chance();
      if fails {
        return false;
      }
      if disk.primary.Some? {
        DemotionIsSafe(batch, disk);
        Settle(disk.(primary := None, previous := disk.primary));
        fails := Chance();
        if fails {
          return false;
        }
      }
      WriteIsSafe(batch, disk, t);
      Settle(disk.(primary := Some(t)));
      fails := Chance();
      ok := !fails;
    }

    /** Removes both generations, primary first; each removal may fail on its own. */
    method Remove() returns (ok: bool)
      requires Valid() && disk.Readable().Some? && disk.Readable().value.activeStep == NoStep
      requires disk.Readable().value.Places() in {Sources(batch), Destinations(batch)}
      requires disk.Readable().value.phase in {RollingBack, Publishing}
      modifies this`disk, this`trace, this`epochs, this`histories, this`faults
      ensures Valid() && disk.dir == old(disk.dir)
      ensures SameRun()
      ensures ok ==> disk.Readable().None? && Holds(batch, disk.dir, old(disk.Readable().value.Places()))
      ensures calm ==> ok
      ensures ok <==> faults == old(faults)
      ensures faults >= old(faults)
    {
      hide ValidPast, WellPlanned, StableIdentity;
      RemovalIsSafe(batch, disk);
      ghost var places := disk.Readable().value.Places();
      ok := true;
      var fails := Chance();
      if fails {
        ok := false;
      } else {
        Settle(disk.(primary := None));
      }
      fails := Chance();
      if fails {
        ok := false;
      } else {
        Settle(disk.(previous := None));
      }
      fails := Chance();
      ok := ok && !fails;
    }

    /** What a reader makes of the record: nothing, if its paths and texts are not UTF-8. */
    method Load() returns (r: Option<Transaction>)
      requires Valid()
      ensures r == if disk.Readable().Some? && Legible(parent, disk.Readable().value) then disk.Readable() else None
    {
      if disk.Readable().None? {
        return None;
      }
      r := ReadBack(parent, disk.Readable().value);
    }

    // -------------------------------------------------------------- file operations

    /** Attempts the active rename of the journalled record; it never replaces an entry. */
    method Rename(t: Transaction) returns (r: OperationResult)
      requires Valid() && disk.primary == Some(t) && t.activeStep != NoStep
      requires Describes(batch, t, disk.dir)
      requires batch.quiet ==> Free(disk.dir, t.items[t.activeIndex].Target(t.activeStep))
      requires Holds(batch, disk.dir, t.Places())
      modifies this`disk, this`trace, this`epochs, this`histories, this`answers, this`renames
      ensures Valid() && disk == old(disk).(dir := disk.dir) && renames == old(renames) + 1
      ensures answers == old(answers) + [Answer(t.activeStep, t.activeIndex, false, r)]
      ensures SameRun()
      ensures Honest(r, disk.dir, t.items[t.activeIndex], t.activeStep)
      ensures reliable ==> r.status == Success && Trusted(r, t.items[t.activeIndex])
    {
      hide ValidPast, Safe, WellPlanned, StableIdentity, ValidMoves;
      renames := renames + 1;
      var item := t.items[t.activeIndex];
      Interfere();
      InterferenceKeepsPlaces(batch, old(disk.dir), disk.dir, t.Places());
      var refused: bool := *;
      if (reliable || !refused) && item.Target(t.activeStep) !in disk.dir {
        Move(t);
      }
      r := Report(item, t.activeStep);
      answers := answers + [Answer(t.activeStep, t.activeIndex, false, r)];
    }

    /** The rename itself: one entry gets another name. */
    method Move(t: Transaction)
      requires Valid() && disk.primary == Some(t) && t.activeStep != NoStep
      requires Records(batch, t) && Holds(batch, disk.dir, t.Places())
      requires t.items[t.activeIndex].Target(t.activeStep) !in disk.dir
      modifies this`disk, this`trace, this`epochs, this`histories
      ensures Valid() && disk == old(disk).(dir := disk.dir) && SameRun()
      ensures HasLeft(disk.dir, t.items[t.activeIndex], t.activeStep)
    {
      hide ValidPast, StableIdentity;
      var item := t.items[t.activeIndex];
      ItemOf(batch, t, t.activeIndex);
      assert t.Places()[t.activeIndex] == item.current;
      RenameIsSafe(batch, disk, t);
      Settle(disk.(dir := (disk.dir - {item.current})[item.Target(t.activeStep) := disk.dir[item.current]]));
    }

    /** Looks where the object of the active rename is, without changing anything. */
    method Reconcile(t: Transaction) returns (r: OperationResult)
      requires Valid() && disk.Readable() == Some(t) && t.activeStep != NoStep
      requires Describes(batch, t, disk.dir)
      modifies this`disk, this`trace, this`epochs, this`histories, this`answers, this`reconciliations
      ensures Valid() && disk == old(disk).(dir := disk.dir)
      ensures answers == old(answers) + [Answer(t.activeStep, t.activeIndex, true, r)]
      ensures reconciliations == old(reconciliations) + 1
      ensures SameRun()
      ensures batch.quiet ==> disk == old(disk)
      ensures Honest(r, disk.dir, t.items[t.activeIndex], t.activeStep)
      ensures reliable ==> Full(r, disk.dir, t.items[t.activeIndex], t.activeStep)
    {
      hide ValidPast, Safe, WellPlanned, Locates;
      reconciliations := reconciliations + 1;
      var item := t.items[t.activeIndex];
      ItemOf(batch, t, t.activeIndex);
      Interfere();
      r := Report(item, t.activeStep);
      answers := answers + [Answer(t.activeStep, t.activeIndex, true, r)];
    }

    /** Any honest report; when reliable, the full one. */
    method Report(item: Item, step: StepKind) returns (r: OperationResult)
      requires step != NoStep
      ensures Honest(r, disk.dir, item, step)
      ensures reliable ==> Full(r, disk.dir, item, step)
    {
      var left, stayed := HasLeft(disk.dir, item, step), HasStayed(disk.dir, item, step);
      var occupied := item.Target(step) in disk.dir;
      if left {
        r := OperationResult(Success, Committed, true, true, item.snapshot, []);
      } else if stayed {
        r := OperationResult(UnknownOutcome, NoCommit, occupied, false, NO_SNAPSHOT, []);
      } else {
        r := OperationResult(Conflict, NoEvidence, occupied, false, NO_SNAPSHOT, []);
      }
      var other: OperationResult := *;
      if Honest(other, disk.dir, item, step) && (reliable ==> Full(other, disk.dir, item, step)) {
        r := other;
      }
    }
  }

  // ---------------------------------------------------------------- every change is safe

  lemma StartIsSafe(b: Batch)
    requires WellPlanned(b)
    ensures Safe(b, Disk(b.initial, None, None)) && Holds(b, b.initial, Sources(b))
  {
    forall n | n in b.initial
      ensures n in Sources(b) || Bystander(b, n)
    {
      NamedOrBystander(b, n);
    }
    assert forall i | 0 <= i < |b.moves| :: b.moves[i].source in b.initial;
    hide Bystander;
  }

  lemma NamedOrBystander(b: Batch, n: Name)
    requires n in b.initial
    ensures n in Sources(b) || Bystander(b, n)
  {
    if i :| 0 <= i < |b.moves| && b.moves[i].source == n {
      assert Sources(b)[i] == n;
    }
  }

  lemma InterferenceKeepsPlaces(b: Batch, before: Directory, after: Directory, at: seq<Name>)
    requires !b.quiet || before == after
    requires forall n | n in before && (exists m | m in b.moves :: m.obj == before[n]) ::
               n in after && after[n] == before[n]
    requires Holds(b, before, at)
    ensures Holds(b, after, at)
  {
    forall i | 0 <= i < |at|
      ensures at[i] in after && after[at[i]] == b.moves[i].obj
    {
      assert b.moves[i] in b.moves && b.moves[i].obj == before[at[i]];
    }
  }

  lemma InterferenceIsSafe(b: Batch, d: Disk, after: Directory)
    requires Safe(b, d) && !b.quiet
    requires forall n | n in d.dir && (exists m | m in b.moves :: m.obj == d.dir[n]) ::
               n in after && after[n] == d.dir[n]
    ensures Safe(b, d.(dir := after))
  {
    forall at | Holds(b, d.dir, at)
      ensures Holds(b, after, at)
    {
      InterferenceKeepsPlaces(b, d.dir, after, at);
    }
  }

  lemma DemotionIsSafe(b: Batch, d: Disk)
    requires Safe(b, d) && d.primary.Some?
    ensures Safe(b, d.(primary := None, previous := d.primary))
  {
  }

  lemma WriteIsSafe(b: Batch, d: Disk, t: Transaction)
    requires Safe(b, d) && d.primary.None? && Describes(b, t, d.dir)
    ensures Safe(b, d.(primary := Some(t)))
  {
  }

  lemma RemovalIsSafe(b: Batch, d: Disk)
    requires Safe(b, d) && d.Readable().Some? && d.Readable().value.activeStep == NoStep
    requires d.Readable().value.Places() in {Sources(b), Destinations(b)}
    ensures Holds(b, d.dir, d.Readable().value.Places())
    ensures Safe(b, d.(primary := None)) && Safe(b, d.(previous := None))
    ensures Safe(b, d.(primary := None, previous := None))
  {
  }

  lemma RenameIsSafe(b: Batch, d: Disk, t: Transaction)
    requires WellPlanned(b) && Safe(b, d) && d.primary == Some(t) && t.activeStep != NoStep
    requires Describes(b, t, d.dir) && Holds(b, d.dir, t.Places())
    requires t.items[t.activeIndex].Target(t.activeStep) !in d.dir
    ensures t.items[t.activeIndex].current in d.dir
    ensures var i := t.activeIndex;
            var after := (d.dir - {t.items[i].current})
                           [t.items[i].Target(t.activeStep) := d.dir[t.items[i].current]];
            Safe(b, d.(dir := after)) && Holds(b, after, t.PlacesMoved())
  {
    var i := t.activeIndex;
    ItemOf(b, t, i);
    assert t.Places()[i] == t.items[i].current;
    if Bystander(b, t.items[i].current) {
      BystandersApart(b, i, t.items[i].location, t.items[i].current);
    }
    RenameMovesOne(b, d.dir, t.Places(), i, t.items[i].Target(t.activeStep));
  }
}
