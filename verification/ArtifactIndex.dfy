/**
 The index as two tables under atomic transactions. A statement may fail, and the recovery from a
 corrupt database empties both tables. Which statement fails, and what recovers, is an input: the
 outcomes that the coming statements meet. The SQL text and the file format are not modelled.
 */
module ArtifactIndex {
  import opened Bytes
  import opened ArtifactCodec
  import opened CacheKey

  const MAX_SOURCE_IDENTITY_BYTES: nat := 32_768
  const MAX_STABLE_ID_BYTES: nat := 4_096
  const MAX_SIGNED: nat := 0x7fff_ffff_ffff_ffff
  const MAX_OLDEST: nat := 100_000

  datatype Record = Record(digest: Bytes, source: SourceStamp, metadata: Metadata, identity: ColorIdentity,
                           path: Bytes, bytes: nat, access: i64)

  datatype LocatorRow = LocatorRow(target: Bytes, binding: Bytes)

  datatype Touched = Updated | Missing | TouchFailed

  /** A corrupt database is deleted and opened anew; either step may fail. */
  datatype Statement = Done | Fails | Corrupt(deleted: bool, opens: bool)

  /** Where the artifact of a digest is kept, below the root. */
  function PathOf(digest: Bytes): Bytes
    requires ValidDigest(digest)
  {
    digest[..2] + Ascii("/") + digest[2..4] + Ascii("/") + digest + Ascii(".vvt")
  }

  function FileBytes(m: Metadata, c: ColorIdentity): nat {
    HeaderLength(c) + m.payloadBytes
  }

  predicate ValidText(text: Bytes, maximum: nat) {
    0 < |text| <= maximum && IsName(text)
  }

  predicate ValidSource(s: SourceStamp) {
    && ValidText(s.identity, MAX_SOURCE_IDENTITY_BYTES) && s.size <= MAX_SIGNED
    && (s.stableId.Some? ==> ValidText(s.stableId.value, MAX_STABLE_ID_BYTES))
  }

  predicate ValidRecord(r: Record) {
    && ValidDigest(r.digest) && ValidSource(r.source) && ValidMetadata(r.metadata) && ValidIdentity(r.identity)
    && r.bytes == FileBytes(r.metadata, r.identity) <= MAX_ARTIFACT_BYTES
    && r.path == PathOf(r.digest) && r.access >= 0
  }

  // ---------------------------------------------------------------- the rows of the first table

  /** Row order: last access, then digest. */
  predicate Before(a: Record, b: Record) {
    a.access < b.access || (a.access == b.access && CompareBytes(a.digest, b.digest) < 0)
  }

  lemma BeforeIsTotal(a: Record, b: Record)
    requires a.digest != b.digest
    ensures Before(a, b) <==> !Before(b, a)
  {
    CompareBytesTotal(a.digest, b.digest);
  }

  lemma BeforeIsTransitive(a: Record, b: Record, c: Record)
    requires Before(a, b) && Before(b, c)
    ensures Before(a, c)
  {
    if a.access == b.access == c.access {
      CompareBytesTransitive(a.digest, b.digest, c.digest);
    }
  }

  predicate Keyed(rows: map<Bytes, Record>) {
    forall d | d in rows :: rows[d].digest == d
  }

  ghost function TotalBytes(rows: map<Bytes, Record>): nat
    decreases |rows|
  {
    if rows == map[] then 0
    else
      var d :| d in rows;
      rows[d].bytes + TotalBytes(rows - {d})
  }

  lemma {:induction false} TotalBytesLess(rows: map<Bytes, Record>, d: Bytes)
    requires d in rows
    ensures TotalBytes(rows) == rows[d].bytes + TotalBytes(rows - {d})
    decreases |rows|
  {
    var e :| e in rows && TotalBytes(rows) == rows[e].bytes + TotalBytes(rows - {e});
    if e != d {
      TotalBytesLess(rows - {e}, d);
      TotalBytesLess(rows - {d}, e);
      assert rows - {e} - {d} == rows - {d} - {e};
    }
  }

  /** The row that no other comes before. */
  lemma {:induction false} LeastExists(rows: map<Bytes, Record>) returns (d: Bytes)
    requires rows != map[] && Keyed(rows)
    ensures d in rows && forall e | e in rows && e != d :: Before(rows[d], rows[e])
    decreases |rows|
  {
    hide Before;
    d :| d in rows;
    var first := d;
    var others := rows - {first};
    if others != map[] {
      var c := LeastExists(others);
      BeforeIsTotal(rows[c], rows[first]);
      d := if Before(rows[c], rows[first]) then c else first;
      forall e | e in rows && e != d
        ensures Before(rows[d], rows[e])
      {
        if e != first && e != c {
          assert e in others && others[e] == rows[e] && others[c] == rows[c];
          if d == first {
            BeforeIsTransitive(rows[first], rows[c], rows[e]);
          }
        } else if e == first {
          assert d == c;
        }
      }
    } else {
      assert forall e | e in rows :: e == first || e in others;
    }
  }

  /** The first rows in row order. */
  ghost predicate AreOldest(rows: map<Bytes, Record>, limit: nat, found: seq<Record>) {
    && |found| == (if limit < |rows| then limit else |rows|)
    && (forall x | x in found :: x.digest in rows && rows[x.digest] == x)
    && (forall i, j | 0 <= i < j < |found| :: Before(found[i], found[j]) && found[i].digest != found[j].digest)
    && forall x, d | x in found && d in rows && (forall y | y in found :: y.digest != d) :: Before(x, rows[d])
  }

  // ---------------------------------------------------------------- the index

  function BindingOf(h: Hashing, locator: Bytes, target: Bytes): Bytes {
    Hex(h.of(BindingBytes(locator, target)))
  }

  /** A row of the second table that was written for its locator and target. */
  predicate Bound(h: Hashing, locator: Bytes, row: LocatorRow) {
    row.binding == BindingOf(h, locator, row.target)
  }

  /** A row that is bound stays so for its own locator and target only: a damaged one is noticed. */
  lemma DamageIsNoticed(h: Hashing, locator: Bytes, row: LocatorRow, other: Bytes, damaged: LocatorRow)
    requires KeepsApart(h) && Bound(h, locator, row) && |locator| == |other| && damaged.binding == row.binding
    requires BindingBytes(locator, row.target) in h.inputs && BindingBytes(other, damaged.target) in h.inputs
    ensures Bound(h, other, damaged) <==> other == locator && damaged.target == row.target
  {
    if Bound(h, other, damaged) {
      HexIsInjective(h.of(BindingBytes(locator, row.target)), h.of(BindingBytes(other, damaged.target)));
      BindingBytesInjective(locator, row.target, other, damaged.target);
    }
  }

  predicate ValidTables(h: Hashing, rows: map<Bytes, Record>, locators: map<Bytes, LocatorRow>) {
    && Keyed(rows) && (forall d | d in rows :: ValidRecord(rows[d]))
    && forall l | l in locators && Bound(h, l, locators[l]) :: locators[l].target in rows
  }

  lemma RowWritten(h: Hashing, rows: map<Bytes, Record>, locators: map<Bytes, LocatorRow>, r: Record)
    requires ValidTables(h, rows, locators) && ValidRecord(r)
    ensures ValidTables(h, rows[r.digest := r], locators)
  {
    hide ValidRecord, Bound;
  }

  lemma AccessWritten(h: Hashing, rows: map<Bytes, Record>, locators: map<Bytes, LocatorRow>, d: Bytes, access: i64)
    requires ValidTables(h, rows, locators) && d in rows && access >= 0
    ensures ValidTables(h, rows[d := rows[d].(access := access)], locators)
  {
    hide Bound;
    assert ValidRecord(rows[d].(access := access));
    RowWritten(h, rows, locators, rows[d].(access := access));
  }

  lemma LocatorWritten(h: Hashing, rows: map<Bytes, Record>, locators: map<Bytes, LocatorRow>, l: Bytes, row: LocatorRow)
    requires ValidTables(h, rows, locators) && row.target in rows
    ensures ValidTables(h, rows, locators[l := row])
  {
    hide ValidRecord, Bound;
  }

  class ArtifactIndex {
    const hashing: Hashing
    var rows: map<Bytes, Record>
    var locators: map<Bytes, LocatorRow>
    var ready: bool
    /** The last error text is not empty. */
    var failed: bool
    /** What the coming statements meet; after the last of them nothing fails. */
    var outcomes: seq<Statement>
    /** Statements that did not work, and calls while the index was closed. */
    ghost var failures: nat
    /** How often a recovery emptied the tables. */
    ghost var wipes: nat

    /** Every bound locator leads to a row that exists. */
    predicate Valid()
      reads `rows, `locators
    {
      ValidTables(hashing, rows, locators)
    }

    predicate Holds(r: map<Bytes, Record>, l: map<Bytes, LocatorRow>)
      reads this
    {
      rows == r && locators == l
    }

    /** Nothing fails from here on. */
    predicate Calm()
      reads this
    {
      ready && outcomes == []
    }

    /** Failures and recoveries are counted; without a failure there is no recovery. */
    twostate predicate Counts()
      reads this
    {
      && failures >= old(failures) && wipes >= old(wipes)
      && (failures == old(failures) ==> wipes == old(wipes))
    }

    twostate predicate StaysCalm()
      reads this
    {
      old(Calm()) ==> Calm() && failures == old(failures)
    }

    /** The tables are as they were, or a recovery emptied them. */
    twostate predicate Survives()
      reads this
    {
      if wipes == old(wipes) then Holds(old(rows), old(locators)) else Holds(map[], map[])
    }

    constructor (hashing: Hashing, outcomes: seq<Statement>)
      ensures Valid() && this.hashing == hashing && rows == map[] && locators == map[]
      ensures ready && !failed && this.outcomes == outcomes
    {
      this.hashing, this.outcomes := hashing, outcomes;
      rows, locators, ready, failed, failures, wipes := map[], map[], true, false, 0, 0;
    }

    /** A new process opens the same file, which may turn out to be unreadable. */
    method Reopen()
      requires Valid()
      modifies this
      ensures Valid() && Counts() && Survives() && failed == !ready
      ensures failures == old(failures) ==> ready
      ensures old(outcomes) == [] ==> Calm() && failures == old(failures)
    {
      var result := Execute();
      ready := result == Done;
      if result.Corrupt? {
        var _ := Recover(result);
      }
      failed := !ready;
    }

    /** Others damage rows of the second table; they do not forge a binding. */
    method Interfere()
      requires Valid()
      modifies `locators
      ensures Valid()
      ensures forall l | l in locators && Bound(hashing, l, locators[l]) ::
                l in old(locators) && locators[l] == old(locators)[l]
    {
      var damaged: map<Bytes, LocatorRow> := *;
      locators := map l | l in locators && (l in damaged ==> !Bound(hashing, l, damaged[l])) ::
        if l in damaged then damaged[l] else locators[l];
    }

    /** What the next statement meets. */
    method Execute() returns (result: Statement)
      modifies `outcomes, `failures
      ensures result == HeadOr(old(outcomes), Done) && outcomes == Later(old(outcomes))
      ensures failures == old(failures) + if result == Done then 0 else 1
    {
      result := HeadOr(outcomes, Done);
      outcomes := Later(outcomes);
      failures := failures + if result == Done then 0 else 1;
    }

    /** Deletes the database files and starts with empty tables. */
    method Recover(result: Statement) returns (recovered: bool)
      requires Valid() && result.Corrupt?
      modifies `rows, `locators, `ready, `wipes
      ensures Valid() && recovered == ready == (result.deleted && result.opens)
      ensures if result.deleted then Holds(map[], map[]) && wipes == old(wipes) + 1
              else Holds(old(rows), old(locators)) && wipes == old(wipes)
    {
      ready := false;
      if !result.deleted {
        return false;
      }
      rows, locators, wipes := map[], map[], wipes + 1;
      ready := result.opens;
      recovered := ready;
    }

    /**
     What every operation does around its statement: two attempts, a recovery between them. A row
     that the statement comes upon may not read back; that is corruption, too.
     */
    method Commit(unreadable: bool) returns (committed: bool)
      requires Valid()
      modifies this
      ensures Valid() && Counts() && Survives() && failed == !committed
      ensures failures == old(failures) ==> committed && !unreadable
      ensures unreadable && committed ==> wipes != old(wipes)
      ensures !unreadable ==> StaysCalm()
      ensures old(ready) && !unreadable && old(outcomes) == [Fails] ==>
                !committed && wipes == old(wipes) && Calm()
      ensures old(ready) && !unreadable && old(outcomes) == [Corrupt(true, true)] ==>
                committed && wipes != old(wipes) && Calm()
    {
      hide Valid;
      failed := true;
      if !ready {
        failures := failures + 1;
        return false;
      }
      for attempt := 0 to 2
        invariant Valid() && failed && ready && Counts() && Survives()
        invariant attempt == 0 ==> failures == old(failures) && outcomes == old(outcomes)
        invariant attempt == 1 ==> wipes != old(wipes) && failures > old(failures)
        invariant attempt == 1 && !unreadable ==>
                    old(outcomes) != [] && old(outcomes)[0].Corrupt? && outcomes == old(outcomes)[1..]
        invariant attempt < 2
      {
        var result := Execute();
        if result == Done && unreadable && attempt == 0 {
          failures := failures + 1;
          var recovery := Execute();
          result := Corrupt(recovery != Fails, recovery == Done);
        }
        if result == Done {
          failed := false;
          return true;
        }
        if attempt != 0 || !result.Corrupt? {
          return false;
        }
        var recovered := Recover(result);
        if !recovered {
          return false;
        }
      }
      assert false;
    }

    method Find(digest: Bytes) returns (record: Option<Record>)
      requires Valid()
      modifies this
      ensures Valid() && Counts() && Survives() && StaysCalm()
      ensures record.Some? ==> !failed && wipes == old(wipes) && digest in rows && record.value == rows[digest]
      ensures record.None? && !failed ==> digest !in rows
      ensures failures == old(failures) && ValidDigest(digest) ==> !failed
    {
      if !ValidDigest(digest) {
        failed := true;
        return None;
      }
      var committed := Commit(false);
      record := if committed && digest in rows then Some(rows[digest]) else None;
    }

    method Publish(record: Record) returns (published: bool)
      requires Valid()
      modifies this
      ensures Valid() && Counts() && StaysCalm() && failed == !published
      ensures published ==> ValidRecord(record)
      ensures published ==>
                if wipes == old(wipes) then Holds(old(rows)[record.digest := record], old(locators))
                else Holds(map[record.digest := record], map[])
      ensures !published ==> Survives()
      ensures failures == old(failures) ==> published == ValidRecord(record)
    {
      hide ValidRecord, ValidTables;
      if !ValidRecord(record) {
        failed := true;
        return false;
      }
      published := Commit(false);
      if published {
        RowWritten(hashing, rows, locators, record);
        rows := rows[record.digest := record];
      }
    }

    method Touch(digest: Bytes, access: i64) returns (touched: Touched)
      requires Valid()
      modifies this
      ensures Valid() && Counts() && StaysCalm() && (failed <==> touched == TouchFailed)
      ensures touched == Updated ==>
                wipes == old(wipes) && digest in old(rows)
                && Holds(old(rows)[digest := old(rows)[digest].(access := access)], old(locators))
      ensures touched != Updated ==> Survives()
      ensures touched == Missing ==> digest !in rows
      ensures failures == old(failures) ==> (touched == TouchFailed <==> !ValidDigest(digest) || access < 0)
    {
      hide ValidDigest, ValidTables;
      if !ValidDigest(digest) || access < 0 {
        failed := true;
        return TouchFailed;
      }
      var committed := Commit(false);
      if !committed {
        return TouchFailed;
      }
      if digest !in rows {
        return Missing;
      }
      AccessWritten(hashing, rows, locators, digest, access);
      rows := rows[digest := rows[digest].(access := access)];
      touched := Updated;
    }

    /** Locators without those that lead to the digest. */
    function Unaimed(l: map<Bytes, LocatorRow>, digest: Bytes): map<Bytes, LocatorRow> {
      map x | x in l && l[x].target != digest :: l[x]
    }

    /** The row of a digest goes together with the locators that lead to it. */
    method Erase(digest: Bytes) returns (erased: bool)
      requires Valid()
      modifies this
      ensures Valid() && Counts() && StaysCalm() && (erased ==> !failed)
      ensures !failed ==> digest !in rows
      ensures !failed && wipes == old(wipes) ==>
                Holds(old(rows) - {digest}, Unaimed(old(locators), digest)) && erased == (digest in old(rows))
      ensures wipes != old(wipes) ==> Holds(map[], map[]) && !erased
      ensures failed ==> Survives()
      ensures failures == old(failures) && ValidDigest(digest) ==> !failed
    {
      hide ValidRecord, ValidDigest, Bound;
      if !ValidDigest(digest) {
        failed := true;
        return false;
      }
      var committed := Commit(false);
      if !committed {
        return false;
      }
      erased := digest in rows;
      locators := Unaimed(locators, digest);
      rows := rows - {digest};
    }

    /** A row whose binding is wrong is never followed; it is corruption. */
    method FindLocator(locator: Bytes) returns (target: Option<Bytes>)
      requires Valid()
      modifies this
      ensures Valid() && Counts() && Survives()
      ensures target.Some? ==>
                && !failed && wipes == old(wipes) && locator in locators && target.value == locators[locator].target
                && Bound(hashing, locator, locators[locator])
      ensures target.None? && !failed ==> locator !in locators
      ensures ValidDigest(locator) && locator in old(locators) && !Bound(hashing, locator, old(locators)[locator]) ==>
                target.None? && failures > old(failures) && (!failed ==> wipes > old(wipes))
      ensures (locator in old(locators) ==> Bound(hashing, locator, old(locators)[locator])) ==> StaysCalm()
      ensures failures == old(failures) && ValidDigest(locator) ==>
                !failed && target == if locator in locators then Some(locators[locator].target) else None
    {
      if !ValidDigest(locator) {
        failed := true;
        return None;
      }
      var committed := Commit(locator in locators && !Bound(hashing, locator, locators[locator]));
      if !committed || locator !in locators {
        return None;
      }
      target := Some(locators[locator].target);
    }

    /** Only a row that is there can be a target. */
    method PublishLocator(locator: Bytes, target: Bytes) returns (published: bool)
      requires Valid()
      modifies this
      ensures Valid() && Counts() && StaysCalm() && failed == !published
      ensures published ==>
                && wipes == old(wipes) && target in old(rows)
                && Holds(old(rows), old(locators)[locator := LocatorRow(target, BindingOf(hashing, locator, target))])
      ensures !published ==> Survives()
      ensures failures == old(failures) ==>
                published == (ValidDigest(locator) && ValidDigest(target) && target in old(rows))
    {
      hide ValidTables, ValidDigest, BindingOf;
      if !ValidDigest(locator) || !ValidDigest(target) {
        failed := true;
        return false;
      }
      published := Commit(false);
      if published {
        if target !in rows {
          failed := true;
          return false;
        }
        LocatorWritten(hashing, rows, locators, locator, LocatorRow(target, BindingOf(hashing, locator, target)));
        locators := locators[locator := LocatorRow(target, BindingOf(hashing, locator, target))];
      }
    }

    /** True when a row was deleted; false without an error when there was none. */
    method EraseLocator(locator: Bytes) returns (erased: bool)
      requires Valid()
      modifies this
      ensures Valid() && Counts() && StaysCalm() && (erased ==> !failed)
      ensures !failed && wipes == old(wipes) ==>
                Holds(old(rows), old(locators) - {locator}) && erased == (locator in old(locators))
      ensures wipes != old(wipes) ==> Holds(map[], map[]) && !erased
      ensures !failed ==> locator !in locators
      ensures failed ==> Survives()
      ensures failures == old(failures) && ValidDigest(locator) ==> !failed
      ensures old(ready) && ValidDigest(locator) && old(outcomes) == [Fails] ==> failed && wipes == old(wipes) && Calm()
    {
      if !ValidDigest(locator) {
        failed := true;
        return false;
      }
      var committed := Commit(false);
      if !committed {
        return false;
      }
      erased := locator in locators;
      locators := locators - {locator};
    }

    /** Zero when the statement fails. */
    method Count() returns (n: nat)
      requires Valid()
      modifies this
      ensures Valid() && Counts() && Survives() && StaysCalm()
      ensures n == if failed then 0 else |rows|
      ensures failures == old(failures) ==> !failed
      ensures old(ready) && old(outcomes) == [Fails] ==> failed && wipes == old(wipes) && Calm()
      ensures old(ready) && old(outcomes) == [Corrupt(true, true)] ==> wipes != old(wipes) && Calm()
    {
      var committed := Commit(false);
      n := if committed then |rows| else 0;
    }

    method SumOfBytes() returns (n: nat)
      requires Valid()
      modifies this
      ensures Valid() && Counts() && Survives() && StaysCalm()
      ensures n == if failed then 0 else TotalBytes(rows)
      ensures failures == old(failures) ==> !failed
    {
      var committed := Commit(false);
      if !committed {
        return 0;
      }
      n := SumUp(rows);
    }

    method Oldest(limit: nat) returns (found: seq<Record>)
      requires Valid()
      modifies this
      ensures Valid() && Counts() && Survives() && StaysCalm()
      ensures failed ==> found == []
      ensures !failed ==> AreOldest(rows, limit, found)
      ensures failures == old(failures) ==> (failed <==> limit > MAX_OLDEST)
    {
      hide ValidRecord, Bound, AreOldest;
      if limit > MAX_OLDEST {
        failed := true;
        return [];
      }
      var committed := Commit(false);
      if !committed {
        return [];
      }
      found := InRowOrder(rows, limit);
    }
  }

  method SumUp(rows: map<Bytes, Record>) returns (n: nat)
    ensures n == TotalBytes(rows)
  {
    n := 0;
    var rest := rows;
    while rest != map[]
      invariant n + TotalBytes(rest) == TotalBytes(rows)
      decreases |rest|
    {
      var d :| d in rest;
      TotalBytesLess(rest, d);
      n := n + rest[d].bytes;
      rest := rest - {d};
    }
  }

  method InRowOrder(rows: map<Bytes, Record>, limit: nat) returns (found: seq<Record>)
    requires Keyed(rows)
    ensures AreOldest(rows, limit, found)
  {
    found := [];
    var rest := rows;
    while |found| < limit && rest != map[]
      invariant |found| <= limit && |found| + |rest| == |rows|
      invariant Split(rows, rest, found)
      decreases |rest|
    {
      ghost var least := LeastExists(rest);
      var d :| d in rest && forall e | e in rest && e != d :: Before(rest[d], rest[e]);
      TakenNext(rows, rest, found, d);
      found := found + [rest[d]];
      rest := rest - {d};
    }
    SplitIsOldest(rows, rest, found, limit);
  }

  /** Some rows taken out in row order, the rest behind them. */
  ghost predicate Split(rows: map<Bytes, Record>, rest: map<Bytes, Record>, found: seq<Record>) {
    && Keyed(rows) && Keyed(rest) && rest.Keys <= rows.Keys && (forall d | d in rest :: rest[d] == rows[d])
    && TakenOut(rows, rest, found) && Rising(found) && Ahead(found, rest) && Covered(rows, rest, found)
  }

  ghost predicate TakenOut(rows: map<Bytes, Record>, rest: map<Bytes, Record>, found: seq<Record>) {
    forall x | x in found :: x.digest in rows && rows[x.digest] == x && x.digest !in rest
  }

  ghost predicate Rising(found: seq<Record>) {
    forall i, j | 0 <= i < j < |found| :: Before(found[i], found[j]) && found[i].digest != found[j].digest
  }

  ghost predicate Ahead(found: seq<Record>, rest: map<Bytes, Record>) {
    forall x, d | x in found && d in rest :: Before(x, rest[d])
  }

  ghost predicate Covered(rows: map<Bytes, Record>, rest: map<Bytes, Record>, found: seq<Record>) {
    forall d | d in rows && d !in rest :: exists x | x in found :: x.digest == d
  }

  lemma TakenNext(rows: map<Bytes, Record>, rest: map<Bytes, Record>, found: seq<Record>, d: Bytes)
    requires Split(rows, rest, found) && d in rest
    requires forall e | e in rest && e != d :: Before(rest[d], rest[e])
    ensures Split(rows, rest - {d}, found + [rest[d]])
  {
    hide Before, TakenOut, Rising, Ahead, Covered;
    NextIsOut(rows, rest, found, d);
    NextIsLast(rows, rest, found, d);
    NextIsAhead(found, rest, d);
    NextIsCovered(rows, rest, found, d);
  }

  lemma NextIsOut(rows: map<Bytes, Record>, rest: map<Bytes, Record>, found: seq<Record>, d: Bytes)
    requires TakenOut(rows, rest, found) && d in rest && d in rows && rest[d] == rows[d] && rest[d].digest == d
    ensures TakenOut(rows, rest - {d}, found + [rest[d]])
  {
  }

  lemma NextIsLast(rows: map<Bytes, Record>, rest: map<Bytes, Record>, found: seq<Record>, d: Bytes)
    requires Rising(found) && Ahead(found, rest) && TakenOut(rows, rest, found) && d in rest && rest[d].digest == d
    ensures Rising(found + [rest[d]])
  {
    hide Before;
    var more := found + [rest[d]];
    forall i, j | 0 <= i < j < |more|
      ensures Before(more[i], more[j]) && more[i].digest != more[j].digest
    {
      assert more[i] == found[i] && found[i] in found;
    }
  }

  lemma NextIsAhead(found: seq<Record>, rest: map<Bytes, Record>, d: Bytes)
    requires Ahead(found, rest) && d in rest && forall e | e in rest && e != d :: Before(rest[d], rest[e])
    ensures Ahead(found + [rest[d]], rest - {d})
  {
    hide Before;
  }

  lemma NextIsCovered(rows: map<Bytes, Record>, rest: map<Bytes, Record>, found: seq<Record>, d: Bytes)
    requires Covered(rows, rest, found) && d in rest && rest[d].digest == d
    ensures Covered(rows, rest - {d}, found + [rest[d]])
  {
    var more := found + [rest[d]];
    forall e | e in rows && e !in rest - {d}
      ensures exists x | x in more :: x.digest == e
    {
      if e == d {
        assert rest[d] in more;
      } else {
        var x :| x in found && x.digest == e;
        assert x in more;
      }
    }
  }

  lemma SplitIsOldest(rows: map<Bytes, Record>, rest: map<Bytes, Record>, found: seq<Record>, limit: nat)
    requires Split(rows, rest, found) && |found| <= limit && |found| + |rest| == |rows|
    requires |found| == limit || rest == map[]
    ensures AreOldest(rows, limit, found)
  {
    hide Before;
    forall x, d | x in found && d in rows && (forall y | y in found :: y.digest != d)
      ensures Before(x, rows[d])
    {
      assert d in rest;
    }
  }
}
