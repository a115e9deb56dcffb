/** From a plan to the transaction of a batch, and what the plan guarantees about that batch. */
module BatchPrepare {
  import opened Bytes
  import opened NameTemplate
  import opened BatchTransaction
  import opened BatchDisk
  import opened BatchPlan
  import opened BatchCoordinator

  /** Indices below n of the items that get another name. */
  function ChangedUpTo(items: seq<Item>, n: nat): (ks: seq<nat>)
    requires n <= |items|
    ensures forall k | 0 <= k < |ks| :: ks[k] < n && items[ks[k]].source != items[ks[k]].destination
    ensures forall k, l | 0 <= k < l < |ks| :: ks[k] < ks[l]
    ensures forall i | 0 <= i < n && items[i].source != items[i].destination :: i in ks
  {
    if n == 0 then []
    else ChangedUpTo(items, n - 1)
         + if items[n - 1].source != items[n - 1].destination then [n - 1] else []
  }

  function ItemOfRow(plan: Plan, sources: seq<Source>, operationId: u64, i: nat): Item
    requires i < |sources| == |plan.rows| && plan.rows[i].destination.Some?
  {
    var s := sources[i];
    Item(s.path.name, TemporaryLeaf(operationId, i), plan.rows[i].destination.value.name,
         s.path.name, s.snapshot, AtSource, s.kind)
  }

  predicate Usable(plan: Plan, sources: seq<Source>) {
    && plan.issue == NoIssue && |plan.rows| == |sources|
    && (forall i | 0 <= i < |sources| ::
          plan.rows[i].issue == NoIssue && plan.rows[i].source == sources[i].path
          && plan.rows[i].destination.Some?)
  }

  /** The complete selection, as the planner saw it. */
  function Selection(plan: Plan, sources: seq<Source>, operationId: u64): (items: seq<Item>)
    requires Usable(plan, sources)
    ensures |items| == |sources|
  {
    seq(|sources|, i requires 0 <= i < |sources| => ItemOfRow(plan, sources, operationId, i))
  }

  function StartOf(operationId: u64, items: seq<Item>): Transaction {
    Transaction(operationId, Prepared, NoStep, 0, NoEvidence, Success, [], items)
  }

  /** Items that keep their name are dropped after validation; the rest is numbered anew. */
  function RenamedUpTo(operationId: u64, items: seq<Item>, n: nat): (r: seq<Item>)
    requires n <= |items|
    ensures |r| == |ChangedUpTo(items, n)|
  {
    var ks := ChangedUpTo(items, n);
    seq(|ks|, k requires 0 <= k < |ks| => items[ks[k]].(temporary := TemporaryLeaf(operationId, k)))
  }

  function Renamed(operationId: u64, items: seq<Item>): (r: seq<Item>)
  {
    RenamedUpTo(operationId, items, |items|)
  }

  /** None when the plan and the sources do not make a valid transaction. */
  function Prepare(plan: Plan, sources: seq<Source>, operationId: u64): Option<Transaction> {
    if !Usable(plan, sources) || operationId == 0 then None
    else
      var items := Selection(plan, sources, operationId);
      if ValidTransaction(StartOf(operationId, items))
      then Some(StartOf(operationId, Renamed(operationId, items))) else None
  }

  method PrepareBatch(plan: Plan, sources: seq<Source>, operationId: u64) returns (r: Option<Transaction>)
    ensures r == Prepare(plan, sources, operationId)
  {
    if plan.issue != NoIssue || |plan.rows| != |sources| || operationId == 0 {
      return None;
    }
    var items := SelectRows(plan, sources, operationId);
    if items.None? || !ValidTransaction(StartOf(operationId, items.value)) {
      return None;
    }
    var kept := DropUnchanged(operationId, items.value);
    r := Some(StartOf(operationId, kept));
  }

  method SelectRows(plan: Plan, sources: seq<Source>, operationId: u64) returns (r: Option<seq<Item>>)
    requires plan.issue == NoIssue && |plan.rows| == |sources|
    ensures r == if Usable(plan, sources) then Some(Selection(plan, sources, operationId)) else None
  {
    var items: seq<Item> := [];
    for i := 0 to |sources|
      invariant |items| == i
      invariant forall j | 0 <= j < i ::
                  && plan.rows[j].issue == NoIssue && plan.rows[j].source == sources[j].path
                  && plan.rows[j].destination.Some?
                  && items[j] == ItemOfRow(plan, sources, operationId, j)
    {
      if plan.rows[i].issue != NoIssue || plan.rows[i].source != sources[i].path
         || plan.rows[i].destination.None? {
        return None;
      }
      items := items + [ItemOfRow(plan, sources, operationId, i)];
    }
    assert items == Selection(plan, sources, operationId);
    r := Some(items);
  }

  lemma OneMoreRenamed(operationId: u64, items: seq<Item>, n: nat)
    requires n < |items|
    ensures var kept := RenamedUpTo(operationId, items, n);
      RenamedUpTo(operationId, items, n + 1)
      == if items[n].source == items[n].destination then kept
         else kept + [items[n].(temporary := TemporaryLeaf(operationId, |kept|))]
  {
    hide TemporaryLeaf;
    var kept, next := RenamedUpTo(operationId, items, n), RenamedUpTo(operationId, items, n + 1);
    assert forall k | 0 <= k < |kept| :: next[k] == kept[k];
  }

  method DropUnchanged(operationId: u64, items: seq<Item>) returns (kept: seq<Item>)
    ensures kept == Renamed(operationId, items)
  {
    kept := [];
    for i := 0 to |items|
      invariant kept == RenamedUpTo(operationId, items, i)
    {
      hide TemporaryLeaf, ChangedUpTo, RenamedUpTo;
      OneMoreRenamed(operationId, items, i);
      if items[i].source != items[i].destination {
        kept := kept + [items[i].(temporary := TemporaryLeaf(operationId, |kept|))];
      }
    }
  }

  // ---------------------------------------------------------------- a valid plan is safe to run

  /** The listing shows the whole directory, whose names do not collide. */
  predicate CompleteListing(dir: Directory, listing: seq<Name>) {
    && (forall n | n in dir :: n in listing)
    && (forall m, n | m in dir && n in dir :: CollisionKey(m) == CollisionKey(n) ==> m == n)
  }

  predicate Selected(dir: Directory, sources: seq<Source>) {
    forall s | s in sources :: s.path.name in dir && dir[s.path.name] == Identity(s)
  }

  /** Nothing, old or planned, collides with a temporary name of the operation. */
  ghost predicate FreshTemporaries(dir: Directory, plan: Plan, operationId: u64) {
    forall k: nat ::
      && Free(dir, TemporaryLeaf(operationId, k))
      && forall row | row in plan.rows && row.destination.Some? ::
           CollisionKey(row.destination.value.name) != CollisionKey(TemporaryLeaf(operationId, k))
  }

  /** What a clear plan says about the names of the selection. */
  lemma ClearNames(sources: seq<Source>, listing: seq<Name>, o: Options, rules: Rules, plan: Plan, i: nat)
    requires i < |sources| == |plan.rows| && AllClear(plan.rows)
    requires forall k | 0 <= k < |sources| :: RowDone(sources, listing, o, rules, plan.rows[k], k, |sources|)
    ensures plan.rows[i].destination.Some? && plan.rows[i].source == sources[i].path
    ensures Identity(sources[i]) != []
    ensures forall j | 0 <= j < i :: Key(sources[j]) != Key(sources[i]) && Identity(sources[j]) != Identity(sources[i])
    ensures var key := CollisionKey(plan.rows[i].destination.value.name);
            && (forall j | 0 <= j < |sources| && j != i :: RowKey(plan.rows[j]) != Some(key))
            && (key in (set n | n in listing :: CollisionKey(n)) ==> exists s | s in sources :: Key(s) == key)
  {
    var ns := Namings(sources, listing, o, rules);
    assert ns[i] == NamingOf(sources, listing, o, rules, i);
    assert plan.rows[i].issue == NoIssue;
    FailureHasReason(sources[i], o, rules, i);
    assert ns[i].own == NoIssue && ns[i].key == RowKey(plan.rows[i]);
    forall j | 0 <= j < |sources| && j != i
      ensures RowKey(plan.rows[j]) != ns[i].key
    {
      assert ns[j] == NamingOf(sources, listing, o, rules, j) && plan.rows[j].issue == NoIssue;
      FailureHasReason(sources[j], o, rules, j);
      assert !SameKey(ns, i, j);
    }
  }

  lemma {:induction false} ExpandFailureHasReason(t: Bytes, v: Values)
    ensures Expand(t, v).Failed? ==> Expand(t, v).issue != NoIssue
  {
    if t != [] {
      if Doubled(t, OPEN) || Doubled(t, CLOSE) {
        ExpandFailureHasReason(t[2..], v);
      } else if t[0] == OPEN {
        var close := Find(t, CLOSE, 1);
        if close < |t| {
          ExpandFailureHasReason(t[close + 1..], v);
        }
      } else {
        ExpandFailureHasReason(t[1..], v);
      }
    }
  }

  lemma FailureHasReason(s: Source, o: Options, rules: Rules, i: nat)
    ensures Generate(s, o, rules, i).Failed? ==> Generate(s, o, rules, i).issue != NoIssue
  {
    forall v {
      ExpandFailureHasReason(o.template, v);
    }
  }

  /** A plan without issues, in the terms of the selection it was made for. */
  ghost predicate Clear(sources: seq<Source>, listing: seq<Name>, items: seq<Item>) {
    |items| == |sources| && forall i | 0 <= i < |items| :: ClearRow(sources, listing, items, i)
  }

  ghost predicate ClearRow(sources: seq<Source>, listing: seq<Name>, items: seq<Item>, i: nat)
    requires i < |items| == |sources|
  {
    && items[i].source == sources[i].path.name
    && items[i].AsMove().obj == Identity(sources[i]) != []
    && (CollisionKey(items[i].destination) in (set n | n in listing :: CollisionKey(n)) ==>
          exists j | 0 <= j < |items| :: CollisionKey(items[j].source) == CollisionKey(items[i].destination))
    && (forall j | 0 <= j < i ::
          && CollisionKey(items[i].source) != CollisionKey(items[j].source)
          && CollisionKey(items[i].destination) != CollisionKey(items[j].destination)
          && items[i].AsMove().obj != items[j].AsMove().obj)
  }

  lemma SelectionIsClear(sources: seq<Source>, listing: seq<Name>, o: Options, rules: Rules, plan: Plan,
                         operationId: u64)
    requires |plan.rows| == |sources| && AllClear(plan.rows) && Usable(plan, sources)
    requires forall k | 0 <= k < |sources| :: RowDone(sources, listing, o, rules, plan.rows[k], k, |sources|)
    ensures Clear(sources, listing, Selection(plan, sources, operationId))
  {
    var items := Selection(plan, sources, operationId);
    forall i | 0 <= i < |items|
      ensures ClearRow(sources, listing, items, i)
    {
      RowIsClear(sources, listing, o, rules, plan, operationId, i);
    }
  }

  lemma SelectionRows(plan: Plan, sources: seq<Source>, operationId: u64)
    requires Usable(plan, sources)
    ensures var items := Selection(plan, sources, operationId);
            forall j | 0 <= j < |items| ::
              && items[j].source == sources[j].path.name
              && items[j].AsMove().obj == Identity(sources[j])
              && RowKey(plan.rows[j]) == Some(CollisionKey(items[j].destination))
  {
    var items := Selection(plan, sources, operationId);
    forall j | 0 <= j < |items|
      ensures items[j] == ItemOfRow(plan, sources, operationId, j)
    {
    }
  }

  lemma RowIsClear(sources: seq<Source>, listing: seq<Name>, o: Options, rules: Rules, plan: Plan,
                   operationId: u64, i: nat)
    requires |plan.rows| == |sources| && AllClear(plan.rows) && Usable(plan, sources) && i < |sources|
    requires forall k | 0 <= k < |sources| :: RowDone(sources, listing, o, rules, plan.rows[k], k, |sources|)
    ensures ClearRow(sources, listing, Selection(plan, sources, operationId), i)
  {
    hide RowDone, Usable, AllClear, CollisionKey;
    var items := Selection(plan, sources, operationId);
    ClearNames(sources, listing, o, rules, plan, i);
    var key := CollisionKey(items[i].destination);
    SelectionRows(plan, sources, operationId);
    if key in (set n | n in listing :: CollisionKey(n)) {
      OccupantIsSelected(sources, items, key);
    }
  }

  lemma OccupantIsSelected(sources: seq<Source>, items: seq<Item>, key: Name)
    requires |items| == |sources| && exists s | s in sources :: Key(s) == key
    requires forall j | 0 <= j < |items| :: items[j].source == sources[j].path.name
    ensures exists j | 0 <= j < |items| :: CollisionKey(items[j].source) == key
  {
    hide CollisionKey;
    var s :| s in sources && Key(s) == key;
    var j :| 0 <= j < |sources| && sources[j] == s;
    assert CollisionKey(items[j].source) == key;
  }

  lemma RenamedItem(operationId: u64, items: seq<Item>, k: nat) returns (i: nat)
    requires k < |Renamed(operationId, items)|
    ensures i < |items| && i == ChangedUpTo(items, |items|)[k]
    ensures items[i].source != items[i].destination
    ensures Renamed(operationId, items)[k] == items[i].(temporary := TemporaryLeaf(operationId, k))
  {
    i := ChangedUpTo(items, |items|)[k];
  }

  /** The moves of a clear selection are well planned. */
  lemma ClearIsWellPlanned(sources: seq<Source>, listing: seq<Name>, items: seq<Item>, b: Batch, operationId: u64)
    requires Clear(sources, listing, items)
    requires CompleteListing(b.initial, listing) && Selected(b.initial, sources)
    requires b.moves == StartOf(operationId, Renamed(operationId, items)).Moves()
    requires forall k: nat :: Free(b.initial, TemporaryLeaf(operationId, k))
    requires forall k: nat, i | 0 <= i < |items| ::
      CollisionKey(items[i].destination) != CollisionKey(TemporaryLeaf(operationId, k))
    ensures WellPlanned(b)
  {
    var kept := Renamed(operationId, items);
    forall k | 0 <= k < |kept|
      ensures b.moves[k] == kept[k].AsMove()
      ensures b.moves[k].source in b.initial && b.initial[b.moves[k].source] == b.moves[k].obj
      ensures Free(b.initial, b.moves[k].temporary)
      ensures forall n | n in b.initial && CollisionKey(n) == CollisionKey(b.moves[k].destination) :: Moves(b, n)
      ensures forall l | 0 <= l < |kept| ::
                CollisionKey(b.moves[l].temporary) != CollisionKey(b.moves[k].destination)
    {
      var i := RenamedItem(operationId, items, k);
      assert ClearRow(sources, listing, items, i) && sources[i] in sources;
      forall l | 0 <= l < |kept|
        ensures CollisionKey(b.moves[l].temporary) != CollisionKey(b.moves[k].destination)
      {
        var _ := RenamedItem(operationId, items, l);
      }
      forall n | n in b.initial && CollisionKey(n) == CollisionKey(b.moves[k].destination)
        ensures Moves(b, n)
      {
        ColliderMoves(sources, listing, items, b, operationId, i, n);
      }
    }
    forall k, l | 0 <= k < |kept| && 0 <= l < |kept| && k != l
      ensures b.moves[k].obj != b.moves[l].obj
      ensures CollisionKey(b.moves[k].source) != CollisionKey(b.moves[l].source)
      ensures CollisionKey(b.moves[k].destination) != CollisionKey(b.moves[l].destination)
      ensures CollisionKey(b.moves[k].temporary) != CollisionKey(b.moves[l].temporary)
    {
      var i := RenamedItem(operationId, items, k);
      var j := RenamedItem(operationId, items, l);
      assert ClearRow(sources, listing, items, i) && ClearRow(sources, listing, items, j);
      TemporaryKeysDistinct(operationId, k, l);
    }
  }

  /** What occupies a destination is itself moved away: it cannot be a row that keeps its name. */
  lemma ColliderMoves(sources: seq<Source>, listing: seq<Name>, items: seq<Item>, b: Batch, operationId: u64,
                      i: nat, n: Name)
    requires Clear(sources, listing, items)
    requires CompleteListing(b.initial, listing) && Selected(b.initial, sources)
    requires b.moves == StartOf(operationId, Renamed(operationId, items)).Moves()
    requires i < |items| && items[i].source != items[i].destination
    requires n in b.initial && CollisionKey(n) == CollisionKey(items[i].destination)
    ensures Moves(b, n)
  {
    assert ClearRow(sources, listing, items, i);
    var j :| 0 <= j < |items| && CollisionKey(items[j].source) == CollisionKey(n);
    assert ClearRow(sources, listing, items, j) && sources[j] in sources;
    assert items[j].source == n;
    if i != j {
      assert CollisionKey(items[i].destination) != CollisionKey(items[j].destination);
    }
    var ks := ChangedUpTo(items, |items|);
    var k :| 0 <= k < |ks| && ks[k] == j;
    assert b.moves[k] == Renamed(operationId, items)[k].AsMove();
  }

  /**
   A plan without issues, made from a complete listing, yields a batch that can be run without
   ever overwriting anything: swaps, longer cycles, case-only changes and unchanged rows included.
   */
  lemma PlanIsSafe(sources: seq<Source>, listing: seq<Name>, o: Options, rules: Rules, plan: Plan,
                   operationId: u64, dir: Directory, quiet: bool)
    requires |plan.rows| == |sources| && AllClear(plan.rows)
    requires forall k | 0 <= k < |sources| :: RowDone(sources, listing, o, rules, plan.rows[k], k, |sources|)
    requires CompleteListing(dir, listing) && Selected(dir, sources)
    requires FreshTemporaries(dir, plan, operationId)
    requires Prepare(plan, sources, operationId).Some?
    ensures var t := Prepare(plan, sources, operationId).value;
            var b := Batch(dir, t.Moves(), quiet);
            WellPlanned(b) && FreshlyPrepared(b, t)
  {
    hide RowDone, ValidTransaction, Selection, Renamed, TemporaryLeaf, CollisionKey, Clear, WellPlanned;
    var items := Selection(plan, sources, operationId);
    var b := Batch(dir, StartOf(operationId, Renamed(operationId, items)).Moves(), quiet);
    SelectionIsClear(sources, listing, o, rules, plan, operationId);
    DestinationsAreFresh(sources, plan, operationId, dir);
    ClearIsWellPlanned(sources, listing, items, b, operationId);
    KeptIsValid(operationId, items);
  }

  /** A plan without issues can be prepared, if it is not too long and its names are names. */
  lemma ClearPlanPrepares(sources: seq<Source>, listing: seq<Name>, o: Options, rules: Rules, plan: Plan, operationId: u64)
    requires sources != [] && |plan.rows| == |sources| && plan.issue == NoIssue && AllClear(plan.rows)
    requires forall k | 0 <= k < |sources| :: RowDone(sources, listing, o, rules, plan.rows[k], k, |sources|)
    requires forall s | s in sources :: SLASH !in s.path.name
    requires forall name | rules.validName(name) :: SLASH !in name
    ensures Prepare(plan, sources, operationId).Some? <==> operationId != 0 && |sources| <= MAXIMUM_ITEMS
  {
    hide RowDone, Generate, CollisionKey, StableIdentity, TemporaryLeaf;
    forall k | 0 <= k < |sources|
      ensures plan.rows[k].source == sources[k].path && IsPlanned(sources, o, rules, plan.rows[k], k)
      ensures && Generate(sources[k], o, rules, k).Expanded?
              && Generate(sources[k], o, rules, k).value == plan.rows[k].destination.value.name
    {
      ClearMeans(sources, listing, o, rules, plan.rows[k], k);
      PlannedPath(sources, listing, o, rules, plan.rows[k], k);
      RowSource(sources, listing, o, rules, plan.rows[k], k);
    }
    assert Usable(plan, sources);
    var items := Selection(plan, sources, operationId);
    forall k | 0 <= k < |sources|
      ensures ValidItem(Prepared, items[k])
    {
    }
    MovesAreValid(sources, o, rules, plan, operationId);
  }

  /** A row of a clear plan, for what a transaction needs of it. */
  ghost predicate IsPlanned(sources: seq<Source>, o: Options, rules: Rules, row: Row, k: nat)
    requires k < |sources|
  {
    && SourceIsFit(sources, rules, k) && row.destination.Some? && rules.validName(row.destination.value.name)
    && forall j | 0 <= j < |sources| && j != k && Generate(sources[j], o, rules, j).Expanded? ::
         CollisionKey(Generate(sources[j], o, rules, j).value) != CollisionKey(row.destination.value.name)
  }

  lemma RowSource(sources: seq<Source>, listing: seq<Name>, o: Options, rules: Rules, row: Row, k: nat)
    requires k < |sources| && RowDone(sources, listing, o, rules, row, k, |sources|)
    ensures row.source == sources[k].path
  {
  }

  lemma MovesAreValid(sources: seq<Source>, o: Options, rules: Rules, plan: Plan, operationId: u64)
    requires Usable(plan, sources)
    requires forall k | 0 <= k < |sources| :: IsPlanned(sources, o, rules, plan.rows[k], k)
    requires forall k | 0 <= k < |sources| ::
               && Generate(sources[k], o, rules, k).Expanded?
               && Generate(sources[k], o, rules, k).value == plan.rows[k].destination.value.name
    requires forall s | s in sources :: SLASH !in s.path.name
    requires forall name | rules.validName(name) :: SLASH !in name
    ensures ValidMoves(operationId, StartOf(operationId, Selection(plan, sources, operationId)).Moves())
  {
    hide Generate, CollisionKey, StableIdentity, TemporaryLeaf;
    var moves := StartOf(operationId, Selection(plan, sources, operationId)).Moves();
    forall i | 0 <= i < |moves|
      ensures moves[i].obj != [] && moves[i].temporary == TemporaryLeaf(operationId, i)
      ensures SLASH !in moves[i].source && SLASH !in moves[i].destination
    {
      assert IsPlanned(sources, o, rules, plan.rows[i], i) && sources[i] in sources;
    }
    forall i, j | 0 <= i < j < |moves|
      ensures moves[i].obj != moves[j].obj
      ensures CollisionKey(moves[i].source) != CollisionKey(moves[j].source)
      ensures CollisionKey(moves[i].destination) != CollisionKey(moves[j].destination)
    {
      assert IsPlanned(sources, o, rules, plan.rows[j], j);
    }
  }

  lemma DestinationsAreFresh(sources: seq<Source>, plan: Plan, operationId: u64, dir: Directory)
    requires Usable(plan, sources) && FreshTemporaries(dir, plan, operationId)
    ensures forall k: nat, i | 0 <= i < |sources| ::
      CollisionKey(Selection(plan, sources, operationId)[i].destination)
      != CollisionKey(TemporaryLeaf(operationId, k))
  {
    forall k: nat, i | 0 <= i < |sources|
      ensures CollisionKey(Selection(plan, sources, operationId)[i].destination)
              != CollisionKey(TemporaryLeaf(operationId, k))
    {
      assert plan.rows[i] in plan.rows;
      assert Free(dir, TemporaryLeaf(operationId, k));
    }
  }

  lemma KeptIsValid(operationId: u64, items: seq<Item>)
    requires ValidTransaction(StartOf(operationId, items))
    ensures var t := StartOf(operationId, Renamed(operationId, items));
            t.items != [] ==> ValidTransaction(t)
    ensures forall i | 0 <= i < |Renamed(operationId, items)| ::
              var item := Renamed(operationId, items)[i];
              item.current == item.source && item.location == AtSource
  {
    hide ChangedUpTo, TemporaryLeaf, ValidItem, ValidMoves;
    var t := StartOf(operationId, Renamed(operationId, items));
    KeptIsShorter(items, |items|);
    KeptItemsAreValid(operationId, items);
    KeptMovesAreValid(operationId, items);
    assert t.items != [] ==> ValidHeader(t);
  }

  lemma KeptItemsAreValid(operationId: u64, items: seq<Item>)
    requires forall i | 0 <= i < |items| :: ValidItem(Prepared, items[i])
    ensures forall k | 0 <= k < |Renamed(operationId, items)| ::
              var item := Renamed(operationId, items)[k];
              ValidItem(Prepared, item) && item.current == item.source && item.location == AtSource
  {
    forall k | 0 <= k < |Renamed(operationId, items)|
      ensures var item := Renamed(operationId, items)[k];
              ValidItem(Prepared, item) && item.current == item.source && item.location == AtSource
    {
      var i := RenamedItem(operationId, items, k);
      assert ValidItem(Prepared, items[i]);
    }
  }

  lemma KeptMovesAreValid(operationId: u64, items: seq<Item>)
    requires ValidMoves(operationId, StartOf(operationId, items).Moves())
    ensures ValidMoves(operationId, StartOf(operationId, Renamed(operationId, items)).Moves())
  {
    var before := StartOf(operationId, items).Moves();
    var after := StartOf(operationId, Renamed(operationId, items)).Moves();
    forall k | 0 <= k < |after|
      ensures after[k].obj != [] && after[k].temporary == TemporaryLeaf(operationId, k)
      ensures SLASH !in after[k].source && SLASH !in after[k].destination
    {
      var i := RenamedItem(operationId, items, k);
      assert before[i] == items[i].AsMove();
    }
    forall k, l | 0 <= k < l < |after|
      ensures after[k].obj != after[l].obj
      ensures CollisionKey(after[k].source) != CollisionKey(after[l].source)
      ensures CollisionKey(after[k].destination) != CollisionKey(after[l].destination)
    {
      var i := RenamedItem(operationId, items, k);
      var j := RenamedItem(operationId, items, l);
      assert before[i] == items[i].AsMove() && before[j] == items[j].AsMove();
    }
  }

  lemma {:induction false} KeptIsShorter(items: seq<Item>, n: nat)
    requires n <= |items|
    ensures |ChangedUpTo(items, n)| <= n
  {
    if n > 0 {
      KeptIsShorter(items, n - 1);
    }
  }
}
