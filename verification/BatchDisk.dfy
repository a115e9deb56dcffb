/**
 What survives a crash during a batch rename: the directory and the two generations of the
 durable journal. `Safe` is the property every such state has; the lemmas show which
 changes of the disk keep it.
 */
module BatchDisk {
  import opened Bytes
  import opened BatchTransaction

  type Directory = map<Name, Bytes>

  /**
   One batch: the directory it started from and the moves it was asked for. `quiet` says that
   nobody else changes the directory; otherwise others may add, remove and replace every entry
   except those of the selected objects.
   */
  datatype Batch = Batch(initial: Directory, moves: seq<Move>, quiet: bool)

  datatype Disk = Disk(dir: Directory, primary: Option<Transaction>, previous: Option<Transaction>)
  {
    /** The record a reader gets: the previous generation stands in for a missing primary one. */
    function Readable(): Option<Transaction> {
      if primary.Some? then primary else previous
    }
  }

  function Sources(b: Batch): (at: seq<Name>)
    ensures |at| == |b.moves|
  {
    seq(|b.moves|, i requires 0 <= i < |b.moves| => b.moves[i].source)
  }

  function Destinations(b: Batch): (at: seq<Name>)
    ensures |at| == |b.moves|
  {
    seq(|b.moves|, i requires 0 <= i < |b.moves| => b.moves[i].destination)
  }

  predicate Moves(b: Batch, n: Name) {
    exists i | 0 <= i < |b.moves| :: b.moves[i].source == n
  }

  /** An entry of the initial directory that the batch does not move. */
  predicate Bystander(b: Batch, n: Name) {
    n in b.initial && !Moves(b, n)
  }

  /** Apart from the selected objects, which are at `at`, the directory is the initial one. */
  ghost predicate Arranged(b: Batch, dir: Directory, at: seq<Name>) {
    && (forall n | n in dir :: n in at || (Bystander(b, n) && dir[n] == b.initial[n]))
    && (forall n | Bystander(b, n) :: n in dir && dir[n] == b.initial[n])
  }

  /** Object i is at `at[i]`. */
  ghost predicate Holds(b: Batch, dir: Directory, at: seq<Name>) {
    && |at| == |b.moves|
    && (forall i | 0 <= i < |at| :: at[i] in dir && dir[at[i]] == b.moves[i].obj)
    && (b.quiet ==> Arranged(b, dir, at))
  }

  ghost predicate Records(b: Batch, t: Transaction) {
    ValidTransaction(t) && t.Moves() == b.moves
  }

  /**
   Read against the record, the directory has every inactive object at its recorded place and
   the active one either there or at the target of its step; recorded evidence is true.
   */
  ghost predicate Locates(b: Batch, t: Transaction, dir: Directory)
    requires Records(b, t)
  {
    && t.evidence != NoCommit
    && (|| (t.evidence != Committed && Holds(b, dir, t.Places()))
        || (t.activeStep != NoStep && Holds(b, dir, t.PlacesMoved())))
  }

  ghost predicate Describes(b: Batch, t: Transaction, dir: Directory) {
    Records(b, t) && Locates(b, t, dir)
  }

  /**
   The record that would be read describes the directory; with no record left the batch has
   happened completely or not at all. Once no step is active, the older generation, which
   becomes readable when the primary one is deleted first, describes the directory as well.
   */
  ghost predicate Safe(b: Batch, d: Disk) {
    && (d.Readable().None? ==> Holds(b, d.dir, Sources(b)) || Holds(b, d.dir, Destinations(b)))
    && (d.Readable().Some? ==> Describes(b, d.Readable().value, d.dir))
    && (d.primary.Some? && d.primary.value.activeStep == NoStep && d.previous.Some? ==>
          Describes(b, d.previous.value, d.dir))
  }

  // ---------------------------------------------------------------- planning

  predicate Free(dir: Directory, n: Name) {
    forall m | m in dir :: CollisionKey(m) != CollisionKey(n)
  }

  /**
   What the planner guarantees about a batch, for a complete listing in which no two names
   collide and temporary names that collide with nothing.
   */
  predicate WellPlanned(b: Batch) {
    && (forall m, n | m in b.initial && n in b.initial ::
          CollisionKey(m) == CollisionKey(n) ==> m == n)
    && (forall i | 0 <= i < |b.moves| ::
          && b.moves[i].source in b.initial
          && b.initial[b.moves[i].source] == b.moves[i].obj
          && Free(b.initial, b.moves[i].temporary))
    && (forall i, j | 0 <= i < |b.moves| && 0 <= j < |b.moves| ::
          && CollisionKey(b.moves[i].temporary) != CollisionKey(b.moves[j].destination)
          && (i != j ==>
                && b.moves[i].obj != b.moves[j].obj
                && CollisionKey(b.moves[i].source) != CollisionKey(b.moves[j].source)
                && CollisionKey(b.moves[i].temporary) != CollisionKey(b.moves[j].temporary)
                && CollisionKey(b.moves[i].destination) != CollisionKey(b.moves[j].destination)))
    && (forall i, n | 0 <= i < |b.moves| && n in b.initial ::
          CollisionKey(n) == CollisionKey(b.moves[i].destination) ==> Moves(b, n))
  }

  /** Item i of a record may take this step now. */
  predicate MayStep(t: Transaction, i: nat, step: StepKind) {
    step != NoStep && i < |t.items| && StepMatches(t.phase, step, t.items[i].location)
  }

  function PlaceOf(m: Move, l: Location): Name {
    match l
    case AtSource => m.source
    case AtTemporary => m.temporary
    case AtDestination => m.destination
  }

  lemma ItemOf(b: Batch, t: Transaction, i: nat)
    requires Records(b, t) && i < |t.items|
    ensures |b.moves| == |t.items| && b.moves[i] == t.items[i].AsMove()
    ensures t.Places()[i] == t.items[i].current == PlaceOf(b.moves[i], t.items[i].location)
    ensures LocationAllowed(t.phase, t.items[i].location)
  {
    assert t.Moves()[i] == t.items[i].AsMove();
    assert ValidItem(t.phase, t.items[i]);
  }

  /** Two names of a batch collide only if one is a source and the other a destination. */
  lemma NamesApart(b: Batch, i: nat, k: Location, j: nat, l: Location)
    requires WellPlanned(b) && i < |b.moves| && j < |b.moves|
    requires if k == l then i != j else k == AtTemporary || l == AtTemporary
    ensures CollisionKey(PlaceOf(b.moves[i], k)) != CollisionKey(PlaceOf(b.moves[j], l))
  {
    assert Free(b.initial, b.moves[i].temporary) && b.moves[i].source in b.initial;
    assert Free(b.initial, b.moves[j].temporary) && b.moves[j].source in b.initial;
  }

  /** Only an entry that the batch moves can collide with a name of the batch. */
  lemma BystandersApart(b: Batch, i: nat, l: Location, n: Name)
    requires WellPlanned(b) && i < |b.moves| && Bystander(b, n)
    ensures CollisionKey(n) != CollisionKey(PlaceOf(b.moves[i], l))
  {
    assert Free(b.initial, b.moves[i].temporary) && b.moves[i].source in b.initial;
    assert !Moves(b, n);
  }

  function PlacesAt(b: Batch, ls: seq<Location>): (at: seq<Name>)
    requires |ls| == |b.moves|
    ensures |at| == |ls|
  {
    seq(|ls|, i requires 0 <= i < |ls| => PlaceOf(b.moves[i], ls[i]))
  }

  lemma NameIsFree(b: Batch, dir: Directory, ls: seq<Location>, i: nat, l: Location)
    requires WellPlanned(b) && b.quiet && |ls| == |b.moves| && i < |ls|
    requires Holds(b, dir, PlacesAt(b, ls))
    requires ls[i] != l
    requires forall j | 0 <= j < |ls| :: ls[j] == l || ls[j] == AtTemporary || l == AtTemporary
    ensures Free(dir, PlaceOf(b.moves[i], l))
  {
    forall m | m in dir
      ensures CollisionKey(m) != CollisionKey(PlaceOf(b.moves[i], l))
    {
      if m in PlacesAt(b, ls) {
        var j :| 0 <= j < |ls| && PlacesAt(b, ls)[j] == m;
        NamesApart(b, i, l, j, ls[j]);
      } else {
        BystandersApart(b, i, l, m);
      }
    }
  }

  function Locations(t: Transaction): (ls: seq<Location>)
    ensures |ls| == |t.items|
  {
    seq(|t.items|, i requires 0 <= i < |t.items| => t.items[i].location)
  }

  lemma PlacesOf(b: Batch, t: Transaction)
    requires Records(b, t)
    ensures |t.items| == |b.moves| && t.Places() == PlacesAt(b, Locations(t))
    ensures forall i | 0 <= i < |t.items| :: LocationAllowed(t.phase, t.items[i].location)
  {
    forall i | 0 <= i < |t.items|
      ensures t.Places()[i] == PlacesAt(b, Locations(t))[i]
      ensures LocationAllowed(t.phase, t.items[i].location)
    {
      ItemOf(b, t, i);
    }
  }

  /** No overwrite: every step the protocol may take targets a name that collides with nothing. */
  lemma TargetIsFree(b: Batch, t: Transaction, dir: Directory, i: nat, step: StepKind)
    requires WellPlanned(b) && b.quiet && Records(b, t) && Holds(b, dir, t.Places())
    requires MayStep(t, i, step)
    ensures Free(dir, t.items[i].Target(step))
  {
    PlacesOf(b, t);
    ItemOf(b, t, i);
    NameIsFree(b, dir, Locations(t), i, StepLocation(step));
  }

  /** After a step the name it left is vacant. */
  lemma SourceIsVacated(b: Batch, t: Transaction, dir: Directory, i: nat, step: StepKind)
    requires WellPlanned(b) && b.quiet && Records(b, t)
    requires MayStep(t, i, step)
    requires Holds(b, dir, t.Places()[i := t.items[i].Target(step)])
    ensures t.items[i].current !in dir
  {
    PlacesOf(b, t);
    ItemOf(b, t, i);
    var ls := Locations(t)[i := StepLocation(step)];
    assert PlacesAt(b, ls) == t.Places()[i := t.items[i].Target(step)];
    forall j | 0 <= j < |ls|
      ensures ls[j] == t.items[i].location || ls[j] == AtTemporary || t.items[i].location == AtTemporary
    {
      assert j != i ==> LocationAllowed(t.phase, t.items[j].location);
    }
    NameIsFree(b, dir, ls, i, t.items[i].location);
  }

  /** A rename that found its target vacant moves one object and nothing else. */
  lemma RenameMovesOne(b: Batch, dir: Directory, at: seq<Name>, i: nat, target: Name)
    requires Holds(b, dir, at) && i < |at| && target !in dir
    requires forall j, k | 0 <= j < k < |b.moves| :: b.moves[j].obj != b.moves[k].obj
    requires b.quiet ==> !Bystander(b, at[i])
    ensures Holds(b, (dir - {at[i]})[target := b.moves[i].obj], at[i := target])
  {
    var dir' := (dir - {at[i]})[target := b.moves[i].obj];
    var at' := at[i := target];
    forall j | 0 <= j < |at'|
      ensures at'[j] in dir' && dir'[at'[j]] == b.moves[j].obj
    {
      if j != i {
        assert at[j] != at[i] by { assert b.moves[j].obj != b.moves[i].obj; }
      }
    }
    if b.quiet {
      forall n | n in dir'
        ensures n in at' || (Bystander(b, n) && dir'[n] == b.initial[n])
      {
        if n == target {
          assert at'[i] == n;
        } else if n in at {
          var k :| 0 <= k < |at| && at[k] == n;
          assert at'[k] == n;
        }
      }
    }
  }

  // ---------------------------------------------------------------- what Safe means

  /** Crash consistency: whatever a crash leaves behind, every object has a definite place. */
  lemma Whereabouts(b: Batch, d: Disk) returns (ls: seq<Location>)
    requires Safe(b, d)
    ensures |ls| == |b.moves| && Holds(b, d.dir, PlacesAt(b, ls))
  {
    if d.Readable().None? {
      var l := if Holds(b, d.dir, Sources(b)) then AtSource else AtDestination;
      ls := seq(|b.moves|, _ => l);
      assert PlacesAt(b, ls) == if l == AtSource then Sources(b) else Destinations(b);
    } else {
      var t := d.Readable().value;
      PlacesOf(b, t);
      ls := Locations(t);
      if !Holds(b, d.dir, t.Places()) {
        var i := t.activeIndex;
        ItemOf(b, t, i);
        ls := ls[i := StepLocation(t.activeStep)];
        assert PlacesAt(b, ls) == t.PlacesMoved();
      }
    }
  }

  predicate IsNameOf(m: Move, n: Name) {
    n == m.source || n == m.temporary || n == m.destination
  }

  /** Object i is under one of its three names. */
  ghost predicate Present(b: Batch, dir: Directory, i: nat)
    requires i < |b.moves|
  {
    exists n :: IsNameOf(b.moves[i], n) && n in dir && dir[n] == b.moves[i].obj
  }

  ghost predicate UnderOneName(b: Batch, dir: Directory, i: nat)
    requires i < |b.moves|
  {
    forall m, n | m in dir && n in dir && dir[m] == b.moves[i].obj == dir[n] ::
      IsNameOf(b.moves[i], m) && IsNameOf(b.moves[i], n) ==> m == n
  }

  predicate IsPlaced(b: Batch, dir: Directory, n: Name)
    requires n in dir
  {
    exists i | 0 <= i < |b.moves| :: IsNameOf(b.moves[i], n) && dir[n] == b.moves[i].obj
  }

  /** The directory is the initial one except that the selected objects may be under other names
      of theirs: no object lost, none under two of its names, no other entry touched. */
  ghost predicate Intact(b: Batch, dir: Directory) {
    && (forall i | 0 <= i < |b.moves| :: Present(b, dir, i) && UnderOneName(b, dir, i))
    && (forall n | Bystander(b, n) :: n in dir && dir[n] == b.initial[n])
    && (forall n | n in dir :: (Bystander(b, n) && dir[n] == b.initial[n]) || IsPlaced(b, dir, n))
  }

  lemma NoObjectLost(b: Batch, d: Disk)
    requires Safe(b, d)
    ensures forall i | 0 <= i < |b.moves| :: Present(b, d.dir, i)
  {
    var ls := Whereabouts(b, d);
    forall i | 0 <= i < |b.moves|
      ensures Present(b, d.dir, i)
    {
      var n := PlacesAt(b, ls)[i];
      assert IsNameOf(b.moves[i], n) && n in d.dir;
    }
  }

  lemma OneNameOnly(b: Batch, dir: Directory, at: seq<Name>, i: nat, n: Name)
    requires WellPlanned(b) && b.quiet && Holds(b, dir, at)
    requires i < |b.moves| && IsNameOf(b.moves[i], n) && n in dir && dir[n] == b.moves[i].obj
    ensures n == at[i]
  {
    assert Free(b.initial, b.moves[i].temporary);
    assert !Bystander(b, n);
    var j :| 0 <= j < |at| && at[j] == n;
    assert dir[at[j]] == b.moves[j].obj;
  }

  lemma OnlyUnderOneName(b: Batch, dir: Directory, at: seq<Name>, i: nat)
    requires WellPlanned(b) && b.quiet && Holds(b, dir, at) && i < |b.moves|
    ensures UnderOneName(b, dir, i)
  {
    forall n | n in dir && dir[n] == b.moves[i].obj && IsNameOf(b.moves[i], n)
      ensures n == at[i]
    {
      OneNameOnly(b, dir, at, i, n);
    }
  }

  lemma PlacedOrBystander(b: Batch, dir: Directory, ls: seq<Location>, n: Name)
    requires |ls| == |b.moves| && Holds(b, dir, PlacesAt(b, ls)) && b.quiet && n in dir
    ensures (Bystander(b, n) && dir[n] == b.initial[n]) || IsPlaced(b, dir, n)
  {
    if n in PlacesAt(b, ls) {
      var i :| 0 <= i < |ls| && PlacesAt(b, ls)[i] == n;
      assert IsNameOf(b.moves[i], n);
    }
  }

  lemma NothingElseTouched(b: Batch, d: Disk)
    requires WellPlanned(b) && b.quiet && Safe(b, d)
    ensures Intact(b, d.dir)
  {
    NoObjectLost(b, d);
    var ls := Whereabouts(b, d);
    HoldsIntact(b, d.dir, ls);
  }

  lemma HoldsIntact(b: Batch, dir: Directory, ls: seq<Location>)
    requires WellPlanned(b) && b.quiet && |ls| == |b.moves| && Holds(b, dir, PlacesAt(b, ls))
    requires forall i | 0 <= i < |b.moves| :: Present(b, dir, i)
    ensures Intact(b, dir)
  {
    forall i | 0 <= i < |b.moves|
      ensures UnderOneName(b, dir, i)
    {
      OnlyUnderOneName(b, dir, PlacesAt(b, ls), i);
    }
    forall n | n in dir
      ensures (Bystander(b, n) && dir[n] == b.initial[n]) || IsPlaced(b, dir, n)
    {
      PlacedOrBystander(b, dir, ls, n);
    }
  }

  /** Where the simultaneous renaming sends a name. */
  function NewName(moves: seq<Move>, n: Name): Name {
    if moves == [] then n
    else if moves[0].source == n then moves[0].destination
    else NewName(moves[1..], n)
  }

  lemma {:induction false} NewNameOf(moves: seq<Move>, n: Name)
    ensures if exists i | 0 <= i < |moves| :: moves[i].source == n
            then exists i | 0 <= i < |moves| ::
                   moves[i].source == n && moves[i].destination == NewName(moves, n)
            else NewName(moves, n) == n
  {
    if moves != [] {
      if moves[0].source == n {
      } else {
        NewNameOf(moves[1..], n);
        if i :| 0 <= i < |moves[1..]| && moves[1..][i].source == n
                && moves[1..][i].destination == NewName(moves[1..], n) {
          assert moves[i + 1].source == n;
        }
      }
    }
  }

  lemma NewNameOfBystander(b: Batch, n: Name)
    requires Bystander(b, n)
    ensures NewName(b.moves, n) == n
  {
    NewNameOf(b.moves, n);
  }

  lemma NewNameOfMoved(b: Batch, i: nat)
    requires WellPlanned(b) && i < |b.moves|
    ensures NewName(b.moves, b.moves[i].source) == b.moves[i].destination
  {
    NewNameOf(b.moves, b.moves[i].source);
  }

  /** The directory is the initial one with every name n replaced by NewName(n), all at once. */
  ghost predicate SimultaneouslyRenamed(b: Batch, dir: Directory) {
    && (forall n | n in b.initial ::
          NewName(b.moves, n) in dir && dir[NewName(b.moves, n)] == b.initial[n])
    && (forall m | m in dir :: exists n | n in b.initial :: NewName(b.moves, n) == m)
    && (forall m, n | m in b.initial && n in b.initial ::
          NewName(b.moves, m) == NewName(b.moves, n) ==> m == n)
  }

  lemma AllAtDestination(b: Batch, dir: Directory)
    requires WellPlanned(b) && b.quiet && Holds(b, dir, Destinations(b))
    ensures SimultaneouslyRenamed(b, dir)
  {
    forall n | n in b.initial
      ensures NewName(b.moves, n) in dir && dir[NewName(b.moves, n)] == b.initial[n]
    {
      if i :| 0 <= i < |b.moves| && b.moves[i].source == n {
        NewNameOfMoved(b, i);
        assert Destinations(b)[i] == b.moves[i].destination;
      } else {
        NewNameOfBystander(b, n);
      }
    }
    forall m | m in dir
      ensures exists n | n in b.initial :: NewName(b.moves, n) == m
    {
      if m in Destinations(b) {
        var i :| 0 <= i < |b.moves| && Destinations(b)[i] == m;
        NewNameOfMoved(b, i);
      } else {
        NewNameOfBystander(b, m);
      }
    }
    forall m, n | m in b.initial && n in b.initial && NewName(b.moves, m) == NewName(b.moves, n)
      ensures m == n
    {
      NewNameInjective(b, m, n);
    }
  }

  lemma NewNameInjective(b: Batch, m: Name, n: Name)
    requires WellPlanned(b) && m in b.initial && n in b.initial
    requires NewName(b.moves, m) == NewName(b.moves, n)
    ensures m == n
  {
    if i :| 0 <= i < |b.moves| && b.moves[i].source == m {
      NewNameOfMoved(b, i);
      if j :| 0 <= j < |b.moves| && b.moves[j].source == n {
        NewNameOfMoved(b, j);
      } else {
        NewNameOfBystander(b, n);
      }
    } else {
      NewNameOfBystander(b, m);
      if j :| 0 <= j < |b.moves| && b.moves[j].source == n {
        NewNameOfMoved(b, j);
      } else {
        NewNameOfBystander(b, n);
      }
    }
  }

  lemma AllAtSource(b: Batch, dir: Directory)
    requires WellPlanned(b) && b.quiet && Holds(b, dir, Sources(b))
    ensures dir == b.initial
  {
    forall n | n in dir
      ensures n in b.initial && dir[n] == b.initial[n]
    {
      if n in Sources(b) {
        var i :| 0 <= i < |b.moves| && Sources(b)[i] == n;
        assert b.moves[i].source in b.initial;
      }
    }
    forall n | n in b.initial
      ensures n in dir
    {
      if i :| 0 <= i < |b.moves| && b.moves[i].source == n {
        assert Sources(b)[i] == n;
      }
    }
  }

  /** All or nothing: with no journal left, the renaming has happened completely or not at all. */
  lemma AllOrNothing(b: Batch, d: Disk)
    requires WellPlanned(b) && b.quiet && Safe(b, d) && d.Readable().None?
    ensures d.dir == b.initial || SimultaneouslyRenamed(b, d.dir)
  {
    if Holds(b, d.dir, Sources(b)) {
      AllAtSource(b, d.dir);
    } else {
      AllAtDestination(b, d.dir);
    }
  }
}
