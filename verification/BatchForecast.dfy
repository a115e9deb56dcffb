/**
 Which records a rename is going to write when nothing fails. Their lengths are known from the
 names in the record it starts from, so a caller can tell whether the journal will hold them all.
 */
module BatchForecast {
  import opened Bytes
  import opened BatchTransaction
  import opened BatchDisk
  import opened BatchJournal

  // ---------------------------------------------------------------- the records to come

  /** The record after item i has arrived at the target of its step. */
  function Applied(t: Transaction, i: nat, step: StepKind, snapshot: Snapshot): (r: Transaction)
    requires step != NoStep && i < |t.items|
    ensures |r.items| == |t.items| && r.phase == t.phase
  {
    var item := t.items[i].(current := t.items[i].Target(step), snapshot := snapshot,
                            location := StepLocation(step));
    var arrived := t.(items := t.items[i := item], activeStep := NoStep, activeIndex := 0,
                      evidence := NoEvidence);
    if t.phase == RollingBack then arrived else arrived.(failure := Success, detail := [])
  }

  function After(t: Transaction, i: nat, step: StepKind): (r: Transaction)
    requires step != NoStep && i < |t.items|
    ensures |r.items| == |t.items| && r.phase == t.phase
  {
    Applied(t, i, step, t.items[i].snapshot)
  }

  /** The item that is looked at in round k: rollback goes from the last to the first. */
  function Turn(n: nat, step: StepKind, k: nat): (i: nat)
    requires k < n
    ensures i < n
  {
    if step == RollBack then n - 1 - k else k
  }

  /** The record after k rounds of steps of one kind. */
  function Walk(t: Transaction, step: StepKind, k: nat): (r: Transaction)
    requires step != NoStep && k <= |t.items|
    ensures |r.items| == |t.items| && r.phase == t.phase
    decreases k
  {
    if k == 0 then t
    else
      var u, i := Walk(t, step, k - 1), Turn(|t.items|, step, k - 1);
      if MayStep(u, i, step) then After(u, i, step) else u
  }

  /** The journal holds every record of these rounds. */
  predicate WalkFits(parent: Bytes, t: Transaction, step: StepKind)
    requires step != NoStep
  {
    forall k | 0 <= k <= |t.items| :: Size(parent, Walk(t, step, k)) <= LIMIT
  }

  function Evacuated(t: Transaction): Transaction {
    Walk(t.(phase := Evacuating), Evacuate, |t.items|)
  }

  /** The journal holds every record that is still to be written when no step is active. */
  predicate CanFinish(parent: Bytes, t: Transaction) {
    if t.phase == RollingBack then WalkFits(parent, t, RollBack)
    else if t.phase in {CommitIntent, Publishing} then WalkFits(parent, t.(phase := Publishing), Publish)
    else
      && WalkFits(parent, t.(phase := Evacuating), Evacuate)
      && WalkFits(parent, Evacuated(t).(phase := Publishing), Publish)
  }

  /** The record once the active step turned out not to have happened. */
  function NotDone(t: Transaction): Transaction {
    var idle := t.(activeStep := NoStep, activeIndex := 0, evidence := NoEvidence);
    if t.phase == RollingBack then idle else idle.(failure := Success, detail := [])
  }

  // ---------------------------------------------------------------- records of one shape

  predicate AlikeItem(a: Item, b: Item) {
    b == a.(snapshot := b.snapshot) && |a.snapshot.revision| == |b.snapshot.revision|
  }

  /** The records differ in snapshots of equal length and in fields of fixed width only. */
  predicate Alike(t: Transaction, u: Transaction) {
    && t.phase == u.phase && |t.detail| == |u.detail| && |t.items| == |u.items|
    && forall j | 0 <= j < |t.items| :: AlikeItem(t.items[j], u.items[j])
  }

  lemma {:induction false} AlikeItemsSize(parent: Bytes, a: seq<Item>, b: seq<Item>)
    requires |a| == |b| && forall j | 0 <= j < |a| :: AlikeItem(a[j], b[j])
    ensures ItemsSize(parent, a) == ItemsSize(parent, b)
  {
    if a != [] {
      AlikeItemsSize(parent, a[1..], b[1..]);
    }
  }

  lemma AlikeSize(parent: Bytes, t: Transaction, u: Transaction)
    requires Alike(t, u)
    ensures Size(parent, t) == Size(parent, u)
  {
    AlikeItemsSize(parent, t.items, u.items);
  }

  lemma AlikeAfter(t: Transaction, u: Transaction, i: nat, step: StepKind, snapshot: Snapshot)
    requires Alike(t, u) && step != NoStep && i < |t.items|
    requires |snapshot.revision| == |t.items[i].snapshot.revision|
    ensures Alike(Applied(t, i, step, snapshot), After(u, i, step))
  {
    var t', u' := Applied(t, i, step, snapshot), After(u, i, step);
    forall j | 0 <= j < |t.items|
      ensures AlikeItem(t'.items[j], u'.items[j])
    {
      assert AlikeItem(t.items[j], u.items[j]);
    }
  }

  lemma {:induction false} AlikeWalk(t: Transaction, u: Transaction, step: StepKind, k: nat)
    requires Alike(t, u) && step != NoStep && k <= |t.items|
    ensures Alike(Walk(t, step, k), Walk(u, step, k))
  {
    if k > 0 {
      AlikeWalk(t, u, step, k - 1);
      var i := Turn(|t.items|, step, k - 1);
      var t', u' := Walk(t, step, k - 1), Walk(u, step, k - 1);
      assert AlikeItem(t'.items[i], u'.items[i]);
      AlikeAfter(t', u', i, step, t'.items[i].snapshot);
    }
  }

  lemma AlikeWalkFits(parent: Bytes, t: Transaction, u: Transaction, step: StepKind)
    requires Alike(t, u) && step != NoStep
    ensures WalkFits(parent, t, step) <==> WalkFits(parent, u, step)
  {
    forall k | 0 <= k <= |t.items|
      ensures Size(parent, Walk(t, step, k)) == Size(parent, Walk(u, step, k))
    {
      AlikeWalk(t, u, step, k);
      AlikeSize(parent, Walk(t, step, k), Walk(u, step, k));
    }
  }

  lemma AlikeCanFinish(parent: Bytes, t: Transaction, u: Transaction)
    requires Alike(t, u)
    ensures CanFinish(parent, t) <==> CanFinish(parent, u)
  {
    if t.phase == RollingBack {
      AlikeWalkFits(parent, t, u, RollBack);
    } else if t.phase in {CommitIntent, Publishing} {
      AlikeWalkFits(parent, t.(phase := Publishing), u.(phase := Publishing), Publish);
    } else {
      AlikeWalkFits(parent, t.(phase := Evacuating), u.(phase := Evacuating), Evacuate);
      AlikeWalk(t.(phase := Evacuating), u.(phase := Evacuating), Evacuate, |t.items|);
      AlikeWalkFits(parent, Evacuated(t).(phase := Publishing), Evacuated(u).(phase := Publishing), Publish);
    }
  }

  // ---------------------------------------------------------------- what a plan can tell

  function Placed(item: Item, l: Location): Item {
    item.(current := item.Place(l), location := l)
  }

  /** The record of a batch of which the first k items are at `ahead` and the others at `behind`. */
  function Halfway(t: Transaction, phase: Phase, k: nat, ahead: Location, behind: Location): (r: Transaction)
    ensures |r.items| == |t.items|
  {
    t.(phase := phase, items := seq(|t.items|, i requires 0 <= i < |t.items| =>
         Placed(t.items[i], if i < k then ahead else behind)))
  }

  /** The journal holds the batch with any number of objects evacuated, and with any number published. */
  predicate PlanFits(parent: Bytes, t: Transaction) {
    forall k | 0 <= k <= |t.items| ::
      && Size(parent, Halfway(t, Evacuating, k, AtTemporary, AtSource)) <= LIMIT
      && Size(parent, Halfway(t, Publishing, k, AtDestination, AtTemporary)) <= LIMIT
  }

  /** Nothing has happened yet. */
  predicate AtStart(t: Transaction) {
    && t.phase == Prepared && t.activeStep == NoStep && t.activeIndex == 0 && t.evidence == NoEvidence
    && t.failure == Success && t.detail == []
    && forall i | 0 <= i < |t.items| :: t.items[i].location == AtSource && t.items[i].current == t.items[i].source
  }

  lemma {:induction false} WalkIsHalfway(t: Transaction, phase: Phase, step: StepKind, behind: Location, k: nat)
    requires k <= |t.items| && t.phase == phase && t.activeStep == NoStep && t.activeIndex == 0
    requires t.evidence == NoEvidence && t.failure == Success && t.detail == []
    requires (phase == Evacuating && step == Evacuate && behind == AtSource)
             || (phase == Publishing && step == Publish && behind == AtTemporary)
    requires forall i | 0 <= i < |t.items| :: t.items[i] == Placed(t.items[i], behind)
    ensures Walk(t, step, k) == Halfway(t, phase, k, StepLocation(step), behind)
  {
    if k == 0 {
      assert t.items == Halfway(t, phase, 0, StepLocation(step), behind).items;
    } else {
      WalkIsHalfway(t, phase, step, behind, k - 1);
      OneStepMore(t, phase, step, behind, k);
    }
  }

  lemma OneStepMore(t: Transaction, phase: Phase, step: StepKind, behind: Location, k: nat)
    requires 0 < k <= |t.items| && t.phase == phase && t.activeStep == NoStep && t.activeIndex == 0
    requires t.evidence == NoEvidence && t.failure == Success && t.detail == []
    requires (phase == Evacuating && step == Evacuate && behind == AtSource)
             || (phase == Publishing && step == Publish && behind == AtTemporary)
    requires Walk(t, step, k - 1) == Halfway(t, phase, k - 1, StepLocation(step), behind)
    ensures Walk(t, step, k) == Halfway(t, phase, k, StepLocation(step), behind)
  {
    var u, v := Halfway(t, phase, k - 1, StepLocation(step), behind), Halfway(t, phase, k, StepLocation(step), behind);
    assert Turn(|t.items|, step, k - 1) == k - 1 && MayStep(u, k - 1, step);
    assert Walk(t, step, k) == After(u, k - 1, step);
    hide Walk;
    assert After(u, k - 1, step).items == v.items;
  }

  lemma EvacuationIsHalfway(t: Transaction, k: nat)
    requires AtStart(t) && k <= |t.items|
    ensures Walk(t.(phase := Evacuating), Evacuate, k) == Halfway(t, Evacuating, k, AtTemporary, AtSource)
  {
    hide Walk;
    WalkIsHalfway(t.(phase := Evacuating), Evacuating, Evacuate, AtSource, k);
  }

  lemma PublicationIsHalfway(t: Transaction, k: nat)
    requires AtStart(t) && k <= |t.items|
    ensures var p := Evacuated(t).(phase := Publishing);
      |p.items| == |t.items| && Walk(p, Publish, k) == Halfway(t, Publishing, k, AtDestination, AtTemporary)
  {
    var p := Evacuated(t).(phase := Publishing);
    hide Walk;
    EvacuationIsHalfway(t, |t.items|);
    assert p == Halfway(t, Publishing, 0, AtDestination, AtTemporary);
    WalkIsHalfway(p, Publishing, Publish, AtTemporary, k);
    assert Halfway(p, Publishing, k, AtDestination, AtTemporary).items
        == Halfway(t, Publishing, k, AtDestination, AtTemporary).items;
  }

  /** For a batch that has not begun, 2n + 2 sums over the names of the plan decide. */
  lemma PlanDecides(parent: Bytes, t: Transaction)
    requires AtStart(t)
    ensures CanFinish(parent, t) <==> PlanFits(parent, t)
  {
    hide Walk, Halfway, Size;
    forall k | 0 <= k <= |t.items|
      ensures Walk(t.(phase := Evacuating), Evacuate, k) == Halfway(t, Evacuating, k, AtTemporary, AtSource)
      ensures Walk(Evacuated(t).(phase := Publishing), Publish, k)
           == Halfway(t, Publishing, k, AtDestination, AtTemporary)
    {
      EvacuationIsHalfway(t, k);
      PublicationIsHalfway(t, k);
    }
  }

  // ---------------------------------------------------------------- room for the longest names

  function Max(a: nat, b: nat): nat {
    if a < b then b else a
  }

  /** The length of an item when its object is under the longest of its names. */
  function WorstItemSize(parent: Bytes, item: Item): nat {
    40 + 4 * |parent| + |item.source| + |item.temporary| + |item.destination| + |item.snapshot.revision|
    + Max(|item.source|, Max(|item.temporary|, |item.destination|))
  }

  function WorstItemsSize(parent: Bytes, items: seq<Item>): nat {
    if items == [] then 0 else WorstItemSize(parent, items[0]) + WorstItemsSize(parent, items[1..])
  }

  function WorstSize(parent: Bytes, t: Transaction): nat {
    32 + |t.detail| + WorstItemsSize(parent, t.items)
  }

  predicate AtPlaces(items: seq<Item>) {
    forall i | 0 <= i < |items| :: items[i].current == items[i].Place(items[i].location)
  }

  lemma {:induction false} WorstBounds(parent: Bytes, items: seq<Item>)
    requires AtPlaces(items)
    ensures ItemsSize(parent, items) <= WorstItemsSize(parent, items)
  {
    if items != [] {
      assert items[0].current == items[0].Place(items[0].location);
      assert AtPlaces(items[1..]) by {
        forall i | 0 <= i < |items[1..]|
          ensures items[1..][i].current == items[1..][i].Place(items[1..][i].location)
        {
          assert items[1..][i] == items[i + 1];
        }
      }
      WorstBounds(parent, items[1..]);
    }
  }

  lemma {:induction false} WorstStays(parent: Bytes, items: seq<Item>, i: nat, l: Location)
    requires i < |items|
    ensures WorstItemsSize(parent, items[i := Placed(items[i], l)]) == WorstItemsSize(parent, items)
  {
    if i == 0 {
      assert items[0 := Placed(items[0], l)][1..] == items[1..];
    } else {
      assert items[i := Placed(items[i], l)][1..] == items[1..][i - 1 := Placed(items[i], l)];
      WorstStays(parent, items[1..], i - 1, l);
    }
  }

  lemma {:induction false} WorstWalk(parent: Bytes, t: Transaction, step: StepKind, k: nat)
    requires step != NoStep && k <= |t.items| && AtPlaces(t.items)
    ensures AtPlaces(Walk(t, step, k).items)
    ensures Size(parent, Walk(t, step, k)) <= WorstSize(parent, Walk(t, step, k)) <= WorstSize(parent, t)
  {
    hide After, AtPlaces, ItemsSize, WorstItemsSize;
    if k > 0 {
      WorstWalk(parent, t, step, k - 1);
      var u, i := Walk(t, step, k - 1), Turn(|t.items|, step, k - 1);
      WorstAfter(parent, u, i, step);
    }
    WorstBounds(parent, Walk(t, step, k).items);
  }

  lemma WorstAfter(parent: Bytes, t: Transaction, i: nat, step: StepKind)
    requires step != NoStep && i < |t.items| && AtPlaces(t.items)
    ensures AtPlaces(After(t, i, step).items) && WorstSize(parent, After(t, i, step)) <= WorstSize(parent, t)
  {
    WorstStays(parent, t.items, i, StepLocation(step));
    assert After(t, i, step).items == t.items[i := Placed(t.items[i], StepLocation(step))];
  }

  lemma WorstFits(parent: Bytes, t: Transaction, step: StepKind)
    requires step != NoStep && AtPlaces(t.items) && WorstSize(parent, t) <= LIMIT
    ensures WalkFits(parent, t, step)
  {
    forall k | 0 <= k <= |t.items|
      ensures Size(parent, Walk(t, step, k)) <= LIMIT
    {
      WorstWalk(parent, t, step, k);
    }
  }

  /** Room for the longest name of every object is room for the whole rename, from any record. */
  lemma RoomForLongestNames(parent: Bytes, t: Transaction)
    requires ValidTransaction(t) && WorstSize(parent, t) <= LIMIT
    ensures CanFinish(parent, t) && CanFinish(parent, NotDone(t))
    ensures t.activeStep != NoStep ==> CanFinish(parent, After(t, t.activeIndex, t.activeStep))
  {
    assert AtPlaces(t.items) by {
      assert forall i | 0 <= i < |t.items| :: ValidItem(t.phase, t.items[i]);
    }
    RoomIsEnough(parent, t);
    RoomIsEnough(parent, NotDone(t));
    if t.activeStep != NoStep {
      var i := t.activeIndex;
      WorstAfter(parent, t, i, t.activeStep);
      RoomIsEnough(parent, After(t, i, t.activeStep));
    }
  }

  lemma RoomIsEnough(parent: Bytes, t: Transaction)
    requires AtPlaces(t.items) && WorstSize(parent, t) <= LIMIT
    ensures CanFinish(parent, t)
  {
    WorstFits(parent, t, RollBack);
    WorstFits(parent, t.(phase := Publishing), Publish);
    WorstFits(parent, t.(phase := Evacuating), Evacuate);
    WorstWalk(parent, t.(phase := Evacuating), Evacuate, |t.items|);
    WorstFits(parent, Evacuated(t).(phase := Publishing), Publish);
  }
}
