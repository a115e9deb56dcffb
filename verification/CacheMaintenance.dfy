/**
 Pruning the disk cache: orphaned files first, then the least recently used records until the
 entry, byte and free-space limits hold. Free space is whatever the file system says.
 */
module CacheMaintenance {
  import opened Bytes
  import opened CacheKey
  import opened ArtifactIndex
  import opened ArtifactStore

  const MAXIMUM_U64: nat := 0xffff_ffff_ffff_ffff

  const MAXIMUM_BATCH: nat := 10_000

  datatype Limits = Limits(maximumEntries: nat, maximumBytes: nat, minimumFreeBytes: nat,
                           maximumScan: nat, maximumProbes: nat)

  datatype PruneError =
    | NoError | InvalidConfiguration | IndexUnavailable | OrphanScanFailed | ArtifactRemovalFailed
    | IndexRemovalFailed | NoProgress | ProbeFailed | ProbeLimitReached | FreeSpaceUnmet

  function SaturatingAdd(a: nat, b: nat): nat {
    if a + b > MAXIMUM_U64 then MAXIMUM_U64 else a + b
  }

  /** What keeps the pruning loop running. */
  predicate Exceeds(entries: nat, bytes: nat, reserveReached: bool, limits: Limits) {
    entries > limits.maximumEntries || bytes > limits.maximumBytes || !reserveReached
  }

  /** What a failing aggregate is read as. */
  function Read(fails: bool, n: nat): nat {
    if fails then 0 else n
  }

  /** Rows without the records that were removed. */
  function Left(rows: map<Bytes, Record>, removed: seq<Record>): map<Bytes, Record> {
    map d | d in rows && rows[d] !in removed :: rows[d]
  }

  function BytesOf(removed: seq<Record>): nat {
    if removed == [] then 0 else BytesOf(removed[..|removed| - 1]) + removed[|removed| - 1].bytes
  }

  function Count(files: map<Bytes, Content>): nat {
    |files|
  }

  lemma OneFileLess(files: map<Bytes, Content>, digest: Bytes)
    ensures Count(files) == Count(files - {digest}) + if digest in files then 1 else 0
  {
    if digest in files {
      assert files == (files - {digest})[digest := files[digest]];
    } else {
      assert files == files - {digest};
    }
  }

  /** A file without a row had none before the pruning. */
  predicate Accounted(files: map<Bytes, Content>, rows: map<Bytes, Record>, initial: map<Bytes, Record>) {
    forall d | d in files :: d in rows || d !in initial
  }

  /** Every file with a well-formed name has a row. */
  predicate Indexed(files: map<Bytes, Content>, rows: map<Bytes, Record>) {
    forall d | d in files && ValidDigest(d) :: d in rows
  }

  /** The files of the rows are still there, but for one whose record could not be erased. */
  predicate Kept(before: map<Bytes, Content>, files: map<Bytes, Content>, rows: map<Bytes, Record>, torn: Option<Bytes>) {
    forall d | d in before && d in rows && torn != Some(d) :: d in files
  }

  predicate Within<K(!new), V(==)>(some: map<K, V>, all: map<K, V>) {
    forall k | k in some :: k in all && some[k] == all[k]
  }

  /** The files that are there were there before, and none of them lost its row. */
  predicate Filed(before: map<Bytes, Content>, files: map<Bytes, Content>,
                  initial: map<Bytes, Record>, rest: map<Bytes, Record>)
  {
    Within(files, before) && Accounted(files, rest, initial)
  }

  predicate Tidy(before: map<Bytes, Content>, files: map<Bytes, Content>, rest: map<Bytes, Record>,
                 torn: Option<Bytes>, swept: bool)
  {
    Kept(before, files, rest, torn) && (swept ==> Indexed(files, rest))
  }

  /** A file without a row may go. */
  lemma OrphanMayGo(before: map<Bytes, Content>, files: map<Bytes, Content>, initial: map<Bytes, Record>,
                    rest: map<Bytes, Record>, torn: Option<Bytes>, swept: bool, digest: Bytes)
    requires Filed(before, files, initial, rest)
    ensures Filed(before, files - {digest}, initial, rest)
    ensures Tidy(before, files, rest, torn, swept) && digest !in rest ==>
              Tidy(before, files - {digest}, rest, torn, swept)
  {
  }

  /** The file of a victim goes; its row may follow. */
  lemma VictimMayGo(before: map<Bytes, Content>, files: map<Bytes, Content>, initial: map<Bytes, Record>,
                    rest: map<Bytes, Record>, swept: bool, digest: Bytes)
    requires Filed(before, files, initial, rest)
    ensures Filed(before, files - {digest}, initial, rest) && Filed(before, files - {digest}, initial, rest - {digest})
    ensures Tidy(before, files, rest, None, swept) ==>
              Tidy(before, files - {digest}, rest, Some(digest), swept)
              && Tidy(before, files - {digest}, rest - {digest}, None, swept)
  {
  }

  /** Some records taken out in row order, and the rest. */
  ghost predicate Ledger(initial: map<Bytes, Record>, rest: map<Bytes, Record>, removed: seq<Record>) {
    && Split(initial, rest, removed) && |removed| + |rest| == |initial|
    && TotalBytes(initial) == TotalBytes(rest) + BytesOf(removed)
  }

  lemma NothingTaken(initial: map<Bytes, Record>)
    requires Keyed(initial)
    ensures Ledger(initial, initial, [])
  {
    hide TotalBytes;
  }

  lemma OneRecordLess(initial: map<Bytes, Record>, rest: map<Bytes, Record>, removed: seq<Record>, victim: Record)
    requires Ledger(initial, rest, removed) && IsNext(rest, victim)
    ensures Ledger(initial, rest - {victim.digest}, removed + [victim])
  {
    hide Split, Before, TotalBytes;
    TakenNext(initial, rest, removed, victim.digest);
    TotalBytesLess(rest, victim.digest);
    assert (removed + [victim])[..|removed|] == removed;
  }

  /** What the ledger says about the removed records and about the rows that are left. */
  lemma LedgerIsOldest(initial: map<Bytes, Record>, rest: map<Bytes, Record>, removed: seq<Record>)
    requires Ledger(initial, rest, removed)
    ensures AreOldest(initial, |removed|, removed) && rest == Left(initial, removed)
  {
    hide Before, TotalBytes;
    SplitIsOldest(initial, rest, removed, |removed|);
    forall d
      ensures d in rest <==> d in Left(initial, removed)
    {
      if d in initial && d !in rest {
        var x :| x in removed && x.digest == d;
        assert initial[d] == x;
      }
    }
  }

  /** The next record to go: nothing comes before it. */
  ghost predicate IsNext(rows: map<Bytes, Record>, victim: Record) {
    victim.digest in rows && rows[victim.digest] == victim
    && forall e | e in rows && e != victim.digest :: Before(victim, rows[e])
  }

  class Pruning {
    const store: ArtifactStore
    const index: ArtifactIndex
    const limits: Limits
    const batchLimit: nat

    var error: PruneError
    var entriesBefore: nat
    var entriesAfter: nat
    var bytesBefore: nat
    var bytesAfter: nat
    var recordsRemoved: nat
    var artifactsRemoved: nat
    var orphansFound: nat
    var orphansRemoved: nat
    var orphanBytesFound: nat
    var probes: nat
    var reserveReached: bool

    /** What there was when pruning started. */
    ghost const initial: map<Bytes, Record>
    ghost const locators: map<Bytes, LocatorRow>
    ghost const files: map<Bytes, Content>
    ghost const wipes: nat
    ghost const failures: nat

    /** The records erased, the rows that were not, and the one whose file went and whose row stayed. */
    ghost var removed: seq<Record>
    ghost var rest: map<Bytes, Record>
    ghost var torn: Option<Bytes>
    /** Every file was looked at. */
    ghost var swept: bool
    /** The last count and the last sum on which the loop decides failed. */
    ghost var countFailed: bool
    ghost var sumFailed: bool
    /** The counts and the sums before and after worked. */
    ghost var counted: bool
    ghost var summed: bool

    /** Whatever fails, the erased records are the first ones in row order, and none of them has a file left. */
    ghost predicate Valid()
      reads `error, `recordsRemoved, `removed, `rest, `torn, `swept, `reserveReached, `countFailed, `sumFailed
      reads store`files, index`rows, index`locators, index`wipes, index`failures
    {
      && ValidBut(torn) && (limits.minimumFreeBytes == 0 ==> reserveReached)
      && (torn.Some? ==> error == IndexRemovalFailed)
      && (Faultless() ==> Undisturbed() && !countFailed && !sumFailed)
    }

    ghost predicate ValidBut(torn: Option<Bytes>)
      reads `recordsRemoved, `removed, `rest, `swept, store`files
      reads index`rows, index`locators, index`wipes, index`failures
    {
      && index.Valid() && recordsRemoved == |removed| && Ledger(initial, rest, removed)
      && index.wipes >= wipes && index.failures >= failures && index.rows == (if Undisturbed() then rest else map[])
      && Within(index.locators, locators) && Filed(files, store.files, initial, rest)
      && (Undisturbed() ==> Tidy(files, store.files, rest, torn, swept))
    }

    /** No recovery emptied the tables since pruning began. */
    ghost predicate Undisturbed()
      reads index`wipes
    {
      index.wipes == wipes
    }

    /** No statement failed since pruning began. */
    ghost predicate Faultless()
      reads index`failures
    {
      index.failures == failures
    }

    constructor (store: ArtifactStore, index: ArtifactIndex, limits: Limits, batchLimit: nat)
      requires index.Valid()
      ensures Valid() && this.store == store && this.index == index && this.limits == limits
      ensures this.batchLimit == batchLimit && IsNew()
      ensures initial == index.rows && locators == index.locators && files == store.files && Faultless()
    {
      NothingTaken(index.rows);
      this.store, this.index, this.limits, this.batchLimit := store, index, limits, batchLimit;
      error, entriesAfter, recordsRemoved, artifactsRemoved := NoError, 0, 0, 0;
      orphansFound, orphansRemoved, orphanBytesFound, probes, reserveReached := 0, 0, 0, 0, true;
      initial, locators, files, wipes, failures := index.rows, index.locators, store.files, index.wipes, index.failures;
      removed, rest, torn, swept := [], index.rows, None, false;
      countFailed, sumFailed, counted, summed := false, false, false, false;
      entriesBefore, bytesBefore, bytesAfter := 0, 0, 0;
    }

    ghost predicate IsNew()
      reads this
    {
      && error == NoError && removed == [] && !swept && !counted && !summed && reserveReached
      && orphansFound == 0 && orphansRemoved == 0 && artifactsRemoved == 0 && probes == 0
    }

    /** The number reported is the number of files that went. */
    ghost predicate FilesCounted()
      reads `artifactsRemoved, store`files
    {
      artifactsRemoved + Count(store.files) == |files|
    }

    /** What the books say does not change what is valid about rows and files. */
    twostate lemma StillValid()
      requires old(Valid()) && unchanged(store) && unchanged(index)
      requires unchanged(`recordsRemoved, `removed, `rest, `torn, `swept, `reserveReached)
      requires error == old(error) || old(error) == NoError
      requires unchanged(`countFailed, `sumFailed) || (Faultless() ==> !countFailed && !sumFailed)
      ensures Valid()
    {
      hide ValidBut;
    }

    /** Asks for the free space; false at the probe limit or when there is no answer. */
    method ObserveSpace() returns (observed: bool)
      requires Valid() && error == NoError
      modifies `error, `probes, `reserveReached
      ensures Valid() && (observed <==> error == NoError)
      ensures !observed ==> error == ProbeFailed || error == ProbeLimitReached
      ensures probes <= old(probes) + 1 && (observed ==> probes == old(probes) + 1)
    {
      hide Ledger, Filed, Tidy, index.Valid;
      if probes >= limits.maximumProbes {
        error := ProbeLimitReached;
        return false;
      }
      var available: nat, fails := *, *;
      probes := probes + 1;
      if fails {
        error := ProbeFailed;
        return false;
      }
      reserveReached := available >= limits.minimumFreeBytes;
      observed := true;
    }

    // ---------------------------------------------------------------- orphans

    method ScanAndRemoveOrphans() returns (complete: bool)
      requires Valid() && error == NoError && limits.maximumScan > 0 && orphansFound == orphansRemoved == 0
      modifies `error, `orphansFound, `orphansRemoved, `orphanBytesFound, `artifactsRemoved, `swept, store, index
      ensures old(FilesCounted()) ==> FilesCounted()
      ensures Valid() && orphansRemoved <= orphansFound && index.Counts()
      ensures error == NoError && complete ==> swept && (Undisturbed() ==> Indexed(store.files, index.rows))
      ensures error == NoError || error == OrphanScanFailed || error == IndexUnavailable || error == ArtifactRemovalFailed
    {
      hide Ledger, Filed, Accounted, Kept, Within, ValidDigest, index.Valid;
      var found, all, scanned := store.ScanDigests(limits.maximumScan);
      complete := all;
      if !scanned {
        error, swept := OrphanScanFailed, false;
        return;
      }
      RemoveOrphans(found);
      swept := complete && error == NoError;
    }

    /** Removes files that no row describes. */
    method RemoveOrphans(scanned: seq<(Bytes, nat)>)
      requires Valid() && error == NoError
      requires forall i | 0 <= i < |scanned| :: ValidDigest(scanned[i].0)
      modifies `error, `orphansFound, `orphansRemoved, `orphanBytesFound, `artifactsRemoved, store, index
      ensures old(FilesCounted()) ==> FilesCounted()
      ensures Valid() && orphansRemoved - old(orphansRemoved) <= orphansFound - old(orphansFound)
      ensures index.Counts()
      ensures error == NoError && Undisturbed() ==>
                forall i | 0 <= i < |scanned| :: scanned[i].0 in store.files ==> scanned[i].0 in index.rows
      ensures forall d | d in store.files :: d in old(store.files)
      ensures error == NoError || error == IndexUnavailable || error == ArtifactRemovalFailed
    {
      hide Ledger, Filed, Tidy, ValidDigest, index.Valid;
      for k := 0 to |scanned|
        invariant Valid() && error == NoError && index.Counts()
        invariant orphansRemoved - old(orphansRemoved) <= orphansFound - old(orphansFound)
        invariant forall d | d in store.files :: d in old(store.files)
        invariant old(FilesCounted()) ==> FilesCounted()
        invariant Undisturbed() ==>
                    forall i | 0 <= i < k :: scanned[i].0 in store.files ==> scanned[i].0 in index.rows
      {
        InspectFile(scanned[k].0, scanned[k].1);
        if error != NoError {
          return;
        }
      }
    }

    /** One scanned file goes exactly if no row describes it. */
    method InspectFile(digest: Bytes, size: nat)
      requires Valid() && error == NoError && ValidDigest(digest)
      modifies `error, `orphansFound, `orphansRemoved, `orphanBytesFound, `artifactsRemoved, store, index
      ensures old(FilesCounted()) ==> FilesCounted()
      ensures Valid() && orphansRemoved - old(orphansRemoved) <= orphansFound - old(orphansFound)
      ensures index.Counts()
      ensures error == NoError ==> digest in store.files ==> digest in index.rows
      ensures store.files == old(store.files) || store.files == old(store.files) - {digest}
      ensures digest in old(index.rows) && index.wipes == old(index.wipes) ==> store.files == old(store.files)
      ensures error == NoError || error == IndexUnavailable || error == ArtifactRemovalFailed
    {
      hide Valid, ValidDigest, Undisturbed, FilesCounted, Count;
      var described := HasRow(digest);
      if !described && error == NoError {
        RemoveOrphan(digest, size);
      }
    }

    method HasRow(digest: Bytes) returns (described: bool)
      requires Valid() && error == NoError
      modifies `error, index
      ensures Valid() && index.Counts() && (error == NoError || error == IndexUnavailable)
      ensures error == NoError ==> (described <==> digest in index.rows)
      ensures described ==> error == NoError
      ensures index.wipes == old(index.wipes) ==> index.rows == old(index.rows)
    {
      hide Ledger, Filed, Tidy, index.Valid, ValidDigest;
      var record := index.Find(digest);
      described := record.Some?;
      if !described && index.failed {
        error := IndexUnavailable;
      }
    }

    /** A file goes, and is counted. */
    method Delete(digest: Bytes) returns (removal: Removal)
      modifies `artifactsRemoved, store
      ensures old(FilesCounted()) ==> FilesCounted()
      ensures store.files == if removal == RemovalFailed then old(store.files) else old(store.files) - {digest}
      ensures Count(old(store.files)) == Count(store.files) + if removal == Removed then 1 else 0
    {
      OneFileLess(store.files, digest);
      hide Count;
      removal := store.RemoveDigestChecked(digest);
      if removal == Removed {
        artifactsRemoved := artifactsRemoved + 1;
      }
    }

    /** A file that no row describes. */
    method RemoveOrphan(digest: Bytes, size: nat)
      requires Valid() && error == NoError && digest !in index.rows
      modifies `error, `orphansFound, `orphansRemoved, `orphanBytesFound, `artifactsRemoved, store
      ensures old(FilesCounted()) ==> FilesCounted()
      ensures Valid() && orphansRemoved - old(orphansRemoved) <= orphansFound - old(orphansFound)
      ensures error == NoError ==> digest !in store.files
      ensures orphansFound == old(orphansFound) + 1 && orphanBytesFound == SaturatingAdd(old(orphanBytesFound), size)
      ensures orphansRemoved == old(orphansRemoved) + Count(old(store.files)) - Count(store.files)
      ensures store.files == old(store.files) || store.files == old(store.files) - {digest}
      ensures error == NoError || error == ArtifactRemovalFailed
    {
      hide Ledger, Filed, Tidy, Within, index.Valid, ValidDigest, SaturatingAdd, FilesCounted, Count;
      orphansFound := orphansFound + 1;
      orphanBytesFound := SaturatingAdd(orphanBytesFound, size);
      var removal := Delete(digest);
      OrphanMayGo(files, old(store.files), initial, rest, torn, swept, digest);
      assert Valid();
      label Gone:
      if removal == RemovalFailed {
        error := ArtifactRemovalFailed;
      } else if removal == Removed {
        orphansRemoved := orphansRemoved + 1;
      }
      StillValid@Gone();
    }

    // ---------------------------------------------------------------- records

    /** One record: the file goes first, so that a file never loses its row while it is there. */
    method RemoveVictim(victim: Record) returns (gone: bool)
      requires Valid() && error == NoError && ValidDigest(victim.digest) && IsNext(index.rows, victim)
      modifies `error, `artifactsRemoved, `recordsRemoved, `removed, `rest, `torn, store, index
      ensures old(FilesCounted()) ==> FilesCounted()
      ensures Valid() && gone == (error == NoError) && index.Counts()
      ensures gone ==> index.rows == old(index.rows) - {victim.digest}
      ensures gone ==> removed == old(removed) + [victim] && |rest| == |old(rest)| - 1
      ensures !gone ==> removed == old(removed) && rest == old(rest) && |index.rows| <= |old(index.rows)|
      ensures torn == (if error == IndexRemovalFailed then Some(victim.digest) else None)
      ensures error == NoError || error == ArtifactRemovalFailed || error == IndexRemovalFailed
    {
      hide Valid, Detached, ValidDigest, IsNext, FilesCounted, Count;
      var dropped := DropFile(victim);
      if !dropped {
        return false;
      }
      gone := EraseVictim(victim);
    }

    /** Everything is in order but for a victim whose row has no file any more. */
    ghost predicate Detached(victim: Record)
      reads `recordsRemoved, `removed, `rest, `torn, `swept, `reserveReached, `countFailed, `sumFailed
      reads store`files, index`rows, index`locators, index`wipes, index`failures
    {
      && ValidBut(Some(victim.digest)) && torn == None
      && (Faultless() ==> Undisturbed() && !countFailed && !sumFailed)
      && (limits.minimumFreeBytes == 0 ==> reserveReached)
      && Filed(files, store.files, initial, rest - {victim.digest})
      && (Undisturbed() ==> Tidy(files, store.files, rest - {victim.digest}, None, swept))
    }

    method DropFile(victim: Record) returns (dropped: bool)
      requires Valid() && error == NoError && ValidDigest(victim.digest)
      modifies `error, `artifactsRemoved, store
      ensures old(FilesCounted()) ==> FilesCounted()
      ensures if dropped then Detached(victim) && error == NoError else Valid() && error == ArtifactRemovalFailed
      ensures torn == None
    {
      hide Ledger, Filed, Tidy, Within, ValidDigest, index.Valid, FilesCounted, Count;
      var removal := Delete(victim.digest);
      VictimMayGo(files, old(store.files), initial, rest, swept, victim.digest);
      dropped := removal != RemovalFailed;
      if !dropped {
        error := ArtifactRemovalFailed;
      }
    }

    /** The row of a victim whose file is gone. */
    method EraseVictim(victim: Record) returns (gone: bool)
      requires Detached(victim) && error == NoError && ValidDigest(victim.digest) && IsNext(index.rows, victim)
      modifies `error, `recordsRemoved, `removed, `rest, `torn, index
      ensures Valid() && gone == (error == NoError) && index.Counts()
      ensures gone ==> index.rows == old(index.rows) - {victim.digest}
      ensures gone ==> removed == old(removed) + [victim] && |rest| == |old(rest)| - 1
      ensures !gone ==> removed == old(removed) && rest == old(rest) && |index.rows| <= |old(index.rows)|
      ensures torn == (if error == IndexRemovalFailed then Some(victim.digest) else None)
      ensures error == NoError || error == IndexRemovalFailed
    {
      hide Ledger, Filed, Tidy, Within, ValidDigest, index.Valid, IsNext;
      IsNextIsThere(index.rows, victim);
      OneRecordLess(initial, rest, removed, victim);
      var erased := EraseRow(victim);
      if !erased {
        error, torn := IndexRemovalFailed, Some(victim.digest);
        return false;
      }
      recordsRemoved := recordsRemoved + 1;
      removed, rest := removed + [victim], rest - {victim.digest};
      gone := true;
    }

    method EraseRow(victim: Record) returns (erased: bool)
      requires Detached(victim) && ValidDigest(victim.digest) && victim.digest in index.rows
      modifies index
      ensures index.Counts() && |index.rows| <= |old(index.rows)|
      ensures !erased ==> Detached(victim)
      ensures erased ==>
                && index.wipes == old(index.wipes) && index.rows == old(index.rows) - {victim.digest}
                && index.Valid() && Within(index.locators, locators)
    {
      hide Ledger, Filed, Tidy, Within, ValidDigest, index.Valid, index.Unaimed;
      assert index.rows == rest;
      UnaimedIsWithin(index, victim.digest, locators);
      erased := index.Erase(victim.digest);
    }

    method RemoveBatch(victims: seq<Record>)
      requires Valid() && error == NoError && victims != []
      requires AreOldest(index.rows, |victims|, victims) && forall v | v in victims :: ValidDigest(v.digest)
      modifies `error, `artifactsRemoved, `recordsRemoved, `removed, `rest, `torn, store, index
      ensures old(FilesCounted()) ==> FilesCounted()
      ensures Valid() && index.Counts()
      ensures |index.rows| <= |old(index.rows)| && |rest| >= |old(rest)| - |victims|
      ensures error == NoError ==> |index.rows| == |old(index.rows)| - |victims|
      ensures error == NoError || error == ArtifactRemovalFailed || error == IndexRemovalFailed
    {
      hide Valid, ValidDigest, AreOldest, IsNext, Remaining, FilesCounted, Count;
      ghost var rows := index.rows;
      NoneGone(rows, victims);
      for k := 0 to |victims|
        invariant Valid() && error == NoError && |rest| == |old(rest)| - k
        invariant |index.rows| == |rows| - k && index.Counts() && (old(FilesCounted()) ==> FilesCounted())
        invariant index.rows == Remaining(rows, victims, k)
      {
        VictimIsNext(rows, victims, k);
        OneMoreGone(rows, victims, k);
        assert victims[k] in victims;
        IsNextIsThere(index.rows, victims[k]);
        var gone := RemoveVictim(victims[k]);
        if !gone {
          return;
        }
      }
    }

    /** The two aggregates; each is zero when its statement fails. */
    method Measure() returns (entries: nat, bytes: nat, ghost noCount: bool, ghost noSum: bool)
      requires Valid()
      modifies index
      ensures Valid() && index.Counts() && (Undisturbed() ==> index.rows == rest)
      ensures index.wipes == old(index.wipes) ==>
                && index.rows == old(index.rows) && entries == Read(noCount, |index.rows|)
                && bytes == Read(noSum, TotalBytes(index.rows))
      ensures index.wipes != old(index.wipes) ==> index.rows == map[]
      ensures index.failures == old(index.failures) ==> !noCount && !noSum
      ensures if noCount then entries == 0 else |index.rows| <= entries <= |old(index.rows)|
      ensures if noSum then bytes == 0 else TotalBytes(index.rows) <= bytes <= old(TotalBytes(index.rows))
      ensures index.StaysCalm() && (old(index.Calm()) ==> index.wipes == old(index.wipes))
      ensures old(index.ready) && old(index.outcomes) == [Fails] ==>
                noCount && index.wipes == old(index.wipes) && index.Calm()
      ensures old(index.ready) && old(index.outcomes) == [Corrupt(true, true)] ==>
                index.wipes != old(index.wipes) && entries == bytes == 0 && index.Calm()
    {
      hide Ledger, Filed, Tidy, ValidDigest, index.Valid, TotalBytes;
      NothingHasNoBytes();
      entries := index.Count();
      noCount := index.failed;
      bytes := index.SumOfBytes();
      noSum := index.failed;
    }

    /** The oldest records, never more than the excess if entries exceed. */
    method Victims(entriesRead: nat) returns (victims: seq<Record>)
      requires Valid() && error == NoError && 0 < batchLimit <= MAX_OLDEST
      modifies `error, index
      ensures Valid() && index.Counts() && |index.rows| <= |old(index.rows)|
      ensures error == NoError <==> victims != []
      ensures AreOldest(index.rows, |victims|, victims) && forall v | v in victims :: ValidDigest(v.digest)
      ensures entriesRead > limits.maximumEntries ==> |victims| <= entriesRead - limits.maximumEntries
      ensures victims != [] ==>
                && index.rows == old(index.rows) && |victims| <= batchLimit
                && (|victims| < |index.rows| ==>
                      |victims| == batchLimit || |victims| == entriesRead - limits.maximumEntries)
      ensures victims == [] && error != IndexUnavailable ==>
                index.rows == map[] && error == if reserveReached then NoProgress else FreeSpaceUnmet
    {
      hide Ledger, Filed, Tidy, ValidDigest, index.Valid, TotalBytes, Before;
      var excess := if entriesRead > limits.maximumEntries then entriesRead - limits.maximumEntries else 0;
      var requested := if excess == 0 || excess > batchLimit then batchLimit else excess;
      victims := index.Oldest(requested);
      if victims == [] {
        error := if index.failed then IndexUnavailable else if !reserveReached then FreeSpaceUnmet else NoProgress;
        return;
      }
      OldestAreValid(index, requested, victims);
    }

    /** The aggregates on which the loop decides. */
    method Reckon() returns (entries: nat, bytes: nat)
      requires Valid()
      modifies `countFailed, `sumFailed, index
      ensures Valid() && index.Counts() && Measured(entries, bytes) && |index.rows| <= |old(index.rows)|
      ensures entries <= |rest| && (Undisturbed() && !countFailed ==> entries == |rest|)
      ensures bytes <= TotalBytes(rest) && (Undisturbed() && !sumFailed ==> bytes == TotalBytes(rest))
      ensures index.StaysCalm()
      ensures old(index.ready) && old(index.outcomes) == [Fails] ==>
                entries == 0 && countFailed && index.wipes == old(index.wipes) && index.Calm()
      ensures old(index.ready) && old(index.outcomes) == [Corrupt(true, true)] ==>
                index.wipes != old(index.wipes) && entries == bytes == 0 && index.Calm()
    {
      hide index.Calm, Read, Valid, TotalBytes;
      RowsAreLeft();
      ghost var noCount, noSum;
      entries, bytes, noCount, noSum := Measure();
      label Read:
      countFailed, sumFailed := noCount, noSum;
      StillValid@Read();
    }

    /** One batch of the oldest records. */
    method ReduceOnce(entriesRead: nat) returns (entries: nat, bytes: nat)
      requires Valid() && error == NoError && 0 < batchLimit <= MAX_OLDEST && entriesRead <= |rest|
      modifies `error, `probes, `reserveReached, `artifactsRemoved, `recordsRemoved, `removed, `rest, `torn,
               `countFailed, `sumFailed, store, index
      ensures old(FilesCounted()) ==> FilesCounted()
      ensures Valid() && index.Counts()
      ensures error == NoError ==> |index.rows| < |old(index.rows)| && Measured(entries, bytes)
      ensures error == NoError ==> entries <= |rest| && bytes <= TotalBytes(rest)
      ensures error == NoError && !old(reserveReached) ==> probes == old(probes) + 1
      ensures entriesRead > limits.maximumEntries ==>
                |rest| >= |old(rest)| - (entriesRead - limits.maximumEntries)
    {
      hide Valid, TotalBytes, AreOldest, ValidDigest, Measured, FilesCounted, Count;
      entries, bytes := 0, 0;
      var victims := Victims(entriesRead);
      if error != NoError {
        return;
      }
      RemoveBatch(victims);
      if error != NoError {
        return;
      }
      entries, bytes := Reckon();
      if !reserveReached {
        var _ := ObserveSpace();
      }
    }

    /** What the loop decides on is not less than what there is, unless a read failed. */
    ghost predicate Measured(entries: nat, bytes: nat)
      reads `countFailed, `sumFailed, index`rows
    {
      && (!countFailed ==> |index.rows| <= entries) && (!sumFailed ==> TotalBytes(index.rows) <= bytes)
    }

    /**
     Erases the oldest records until nothing seems to exceed the limits. An end without an error
     means that the limits hold, exactly if they hold for what the last count or sum could not read.
     */
    method ReduceToLimits(entriesRead: nat, bytesRead: nat)
      requires Valid() && error == NoError && 0 < batchLimit <= MAX_OLDEST && removed == []
      requires Measured(entriesRead, bytesRead) && entriesRead <= |rest| && bytesRead <= TotalBytes(rest)
      modifies `error, `probes, `reserveReached, `artifactsRemoved, `recordsRemoved, `removed, `rest, `torn,
               `countFailed, `sumFailed, store, index
      ensures old(FilesCounted()) ==> FilesCounted()
      ensures Valid() && index.Counts() && (error == NoError ==> reserveReached && Conclusive())
      ensures OnlyEntriesExceed() ==> |removed| <= Excess()
      ensures !Exceeds(entriesRead, bytesRead, old(reserveReached), limits) ==>
                error == NoError && removed == [] && rest == old(rest) && unchanged(store) && unchanged(index)
    {
      hide Ledger, Filed, Tidy, ValidDigest, index.Valid, TotalBytes, AreOldest;
      var entries: nat, bytes: nat := entriesRead, bytesRead;
      LedgerCounts();
      while Exceeds(entries, bytes, reserveReached, limits)
        invariant Valid() && error == NoError && Measured(entries, bytes) && index.Counts()
        invariant old(FilesCounted()) ==> FilesCounted()
        invariant entries <= |rest| && bytes <= TotalBytes(rest)
        invariant OnlyEntriesExceed() ==> |rest| + Excess() >= |initial|
        invariant !Exceeds(entriesRead, bytesRead, old(reserveReached), limits) ==>
                    removed == [] && rest == old(rest) && unchanged(store) && unchanged(index)
                    && entries == entriesRead && bytes == bytesRead && reserveReached == old(reserveReached)
        decreases |index.rows|
      {
        LedgerCounts();
        entries, bytes := ReduceOnce(entries);
        if error != NoError {
          LedgerCounts();
          return;
        }
      }
      LedgerCounts();
    }

    /** The limits hold exactly if they hold for what could not be read. */
    ghost predicate Conclusive()
      reads `countFailed, `sumFailed, index`rows
    {
      WithinLimits() <==>
      (countFailed ==> |index.rows| <= limits.maximumEntries)
      && (sumFailed ==> TotalBytes(index.rows) <= limits.maximumBytes)
    }

    ghost predicate WithinLimits()
      reads index`rows
    {
      |index.rows| <= limits.maximumEntries && TotalBytes(index.rows) <= limits.maximumBytes
    }

    /** Neither bytes nor free space ask for an erasure. */
    ghost predicate OnlyEntriesExceed() {
      limits.minimumFreeBytes == 0 && TotalBytes(initial) <= limits.maximumBytes
    }

    ghost function Excess(): nat {
      if |initial| > limits.maximumEntries then |initial| - limits.maximumEntries else 0
    }

    lemma LedgerCounts()
      requires Valid()
      ensures |removed| + |rest| == |initial| && TotalBytes(rest) <= TotalBytes(initial)
    {
      hide Split, Filed, Tidy, index.Valid, TotalBytes;
    }

    // ---------------------------------------------------------------- all of it

    method MeasureBefore() returns (entries: nat, bytes: nat)
      requires Valid() && removed == []
      modifies `countFailed, `sumFailed, `entriesBefore, `bytesBefore, index
      ensures Valid() && Measured(entries, bytes) && entries <= |rest| && bytes <= TotalBytes(rest)
      ensures Undisturbed() && !countFailed ==> entriesBefore == SaturatingAdd(|initial|, orphansFound)
      ensures Undisturbed() && !sumFailed ==> bytesBefore == SaturatingAdd(TotalBytes(initial), orphanBytesFound)
      ensures bytes <= TotalBytes(initial) && index.StaysCalm() && index.Counts()
      ensures old(index.ready) && old(index.outcomes) == [Fails] ==>
                entries == 0 && countFailed && index.wipes == old(index.wipes) && index.Calm()
      ensures old(index.ready) && old(index.outcomes) == [Corrupt(true, true)] ==>
                index.wipes != old(index.wipes) && entries == bytes == 0 && index.Calm()
    {
      hide index.Calm, Valid, TotalBytes, Measured;
      LedgerCounts();
      AllAreLeft();
      entries, bytes := Reckon();
      entriesBefore, bytesBefore := SaturatingAdd(entries, orphansFound), SaturatingAdd(bytes, orphanBytesFound);
    }

    /** The rows in the table are those of the ledger, unless a recovery emptied it. */
    lemma RowsAreLeft()
      requires Valid()
      ensures index.rows == (if Undisturbed() then rest else map[])
      ensures index.wipes >= wipes && index.failures >= failures
      ensures Faultless() ==> Undisturbed() && !countFailed && !sumFailed
      ensures |index.rows| <= |rest| && TotalBytes(index.rows) <= TotalBytes(rest)
    {
      hide Ledger, Filed, Tidy, Within, index.Valid, TotalBytes;
      NothingHasNoBytes();
    }

    lemma AllAreLeft()
      requires Valid() && removed == []
      ensures rest == initial
    {
      hide Before, TotalBytes, Split, Filed, Tidy, index.Valid, AreOldest;
      LedgerIsOldest(initial, rest, removed);
    }

    /** What being valid means for the erased records and for the files. */
    lemma ValidMeans()
      requires Valid()
      ensures recordsRemoved == |removed| && index.rows == (if Undisturbed() then rest else map[])
      ensures AreOldest(initial, |removed|, removed) && rest == Left(initial, removed)
      ensures Accounted(store.files, rest, initial)
      ensures Undisturbed() ==> Kept(files, store.files, rest, torn) && (swept ==> Indexed(store.files, rest))
    {
      hide Before, TotalBytes, Split, index.Valid, Left, AreOldest, Accounted, Kept, Indexed, Within;
      LedgerIsOldest(initial, rest, removed);
    }

    lemma NothingDone()
      requires artifactsRemoved == 0 && store.files == files
      ensures FilesCounted()
    {
    }

    /** Pruning adds nothing. */
    lemma OnlyLess()
      requires Valid()
      ensures index.Valid() && Within(store.files, files) && Within(index.locators, locators)
    {
      hide Ledger, Tidy, Within, Accounted, index.Valid;
    }

    method MeasureAfter() returns (ghost noCount: bool, ghost noSum: bool)
      requires Valid()
      modifies `entriesAfter, `bytesAfter, index
      ensures Valid() && index.Counts() && (old(index.Calm()) ==> index.wipes == old(index.wipes))
      ensures index.failures == old(index.failures) ==> !noCount && !noSum
      ensures |index.rows| <= |old(index.rows)| && TotalBytes(index.rows) <= old(TotalBytes(index.rows))
      ensures index.wipes == old(index.wipes) ==> index.rows == old(index.rows)
      ensures Undisturbed() && !noCount ==> entriesAfter == |rest|
      ensures Undisturbed() && !noSum ==> bytesAfter == TotalBytes(rest)
    {
      hide index.Calm, Read, ValidBut, TotalBytes;
      RowsAreLeft();
      NothingHasNoBytes();
      entriesAfter, bytesAfter, noCount, noSum := Measure();
    }

    /** The last measuring, and what it says together with the first. */
    method Settle(ghost noCount: bool, ghost noSum: bool)
      requires Valid()
      requires Undisturbed() && !noCount ==> entriesBefore == SaturatingAdd(|initial|, orphansFound)
      requires Undisturbed() && !noSum ==> bytesBefore == SaturatingAdd(TotalBytes(initial), orphanBytesFound)
      modifies `counted, `summed, `entriesAfter, `bytesAfter, index
      ensures Valid() && Balanced() && index.Counts() && (old(index.Calm()) ==> index.rows == old(index.rows))
      ensures index.failures == old(index.failures) ==> counted == !noCount && summed == !noSum
      ensures old(Conclusive()) ==> Conclusive()
    {
      hide index.Calm, Valid, TotalBytes, SaturatingAdd, BytesOf, Balanced;
      RowsAreLeft();
      ghost var lastCount, lastSum := MeasureAfter();
      RowsAreLeft();
      NothingHasNoBytes();
      counted, summed := !noCount && !lastCount, !noSum && !lastSum;
      BalanceHolds();
    }

    /** The part after the orphans: measure, reduce, measure again. */
    method PruneRecords()
      requires Valid() && error == NoError && 0 < batchLimit <= MAX_OLDEST && removed == []
      modifies `error, `probes, `reserveReached, `artifactsRemoved, `recordsRemoved, `removed, `rest, `torn,
               `countFailed, `sumFailed, `counted, `summed, `entriesBefore, `bytesBefore, `entriesAfter, `bytesAfter,
               store, index
      ensures old(FilesCounted()) ==> FilesCounted()
      ensures Valid() && Balanced() && (error == NoError ==> reserveReached && Conclusive())
      ensures Faultless() ==> counted && summed && !countFailed && !sumFailed
      ensures OnlyEntriesExceed() ==> |removed| <= Excess()
      ensures old(index.ready) && old(reserveReached) && old(index.outcomes) == [Fails]
              && TotalBytes(initial) <= limits.maximumBytes ==>
                error == NoError && index.rows == old(index.rows) && store.files == old(store.files)
      ensures old(index.ready) && old(reserveReached) && old(index.outcomes) == [Corrupt(true, true)] ==>
                error == NoError && index.rows == map[] && store.files == old(store.files)
    {
      hide index.Calm, Valid, Measured, Balanced, TotalBytes, OnlyEntriesExceed, Conclusive, Excess, FilesCounted;
      RowsAreLeft();
      var entries, bytes := MeasureBefore();
      ghost var noCount, noSum := countFailed, sumFailed;
      RowsAreLeft();
      ReduceToLimits(entries, bytes);
      RowsAreLeft();
      Settle(noCount, noSum);
      RowsAreLeft();
    }

    /** Without a recovery, what was there is what is left, what was erased and what was orphaned. */
    ghost predicate Balanced()
      reads `counted, `summed, `entriesBefore, `entriesAfter, `bytesBefore, `bytesAfter, index`wipes
      reads `recordsRemoved, `removed, `orphansFound, `orphanBytesFound
    {
      && (Undisturbed() && counted ==> entriesBefore == SaturatingAdd(entriesAfter + recordsRemoved, orphansFound))
      && (Undisturbed() && summed ==> bytesBefore == SaturatingAdd(bytesAfter + BytesOf(removed), orphanBytesFound))
    }

    lemma BalanceHolds()
      requires Valid()
      requires Undisturbed() && counted ==>
                 entriesBefore == SaturatingAdd(|initial|, orphansFound) && entriesAfter == |rest|
      requires Undisturbed() && summed ==>
                 bytesBefore == SaturatingAdd(TotalBytes(initial), orphanBytesFound) && bytesAfter == TotalBytes(rest)
      ensures Balanced()
    {
      hide Split, Filed, Tidy, index.Valid, TotalBytes, BytesOf;
    }

    /** The free space and the orphans. */
    method PrepareRecords(scanOrphans: bool) returns (complete: bool)
      requires Valid() && IsNew() && (scanOrphans ==> limits.maximumScan > 0)
      modifies `error, `orphansFound, `orphansRemoved, `orphanBytesFound, `artifactsRemoved, `swept, `probes,
               `reserveReached, store, index
      ensures old(FilesCounted()) ==> FilesCounted()
      ensures Valid() && index.Counts()
      ensures error == NoError && complete && scanOrphans ==> swept
      ensures error == NoError && limits.minimumFreeBytes != 0 ==>
                if orphansRemoved != 0 && !reserveReached then probes == 2 else 1 <= probes <= 2
      ensures Plain(scanOrphans) ==>
                error == NoError && complete && unchanged(store) && unchanged(index) && reserveReached
    {
      hide ValidBut;
      complete := true;
      if limits.minimumFreeBytes != 0 {
        var observed := ObserveSpace();
        if !observed {
          return;
        }
      }
      if scanOrphans {
        complete := ScanAndRemoveOrphans();
        if error != NoError {
          return;
        }
      }
      if limits.minimumFreeBytes != 0 && orphansRemoved != 0 && !reserveReached {
        var _ := ObserveSpace();
      }
    }

    lemma NothingMeasured()
      requires !counted && !summed
      ensures Balanced()
    {
    }

    /** Whether pruning can begin. */
    method Check(scanOrphans: bool)
      requires Valid() && error == NoError
      modifies `error
      ensures Valid()
      ensures error == if !index.ready then IndexUnavailable
                       else if CanRun(scanOrphans) then NoError else InvalidConfiguration
    {
      hide ValidBut;
      if !index.ready {
        error := IndexUnavailable;
      } else if batchLimit == 0 || batchLimit > MAXIMUM_BATCH || (scanOrphans && limits.maximumScan == 0)
                || (limits.minimumFreeBytes != 0 && limits.maximumProbes == 0) {
        error := InvalidConfiguration;
      }
    }

    predicate CanRun(scanOrphans: bool) {
      && 0 < batchLimit <= MAXIMUM_BATCH && (scanOrphans ==> limits.maximumScan > 0)
      && (limits.minimumFreeBytes > 0 ==> limits.maximumProbes > 0)
    }

    /** Pruning by entries and bytes alone. */
    predicate Plain(scanOrphans: bool) {
      !scanOrphans && limits.minimumFreeBytes == 0 && 0 < batchLimit <= MAXIMUM_BATCH
    }

    lemma LimitsHold()
      requires Valid() && Conclusive()
      ensures Faultless() ==> WithinLimits()
      ensures Undisturbed() && !countFailed && OnlyEntriesExceed() && |removed| <= Excess() ==> |removed| == Excess()
    {
      hide Split, Filed, Tidy, index.Valid, TotalBytes;
      LedgerCounts();
    }

    /**
     Whatever fails, the records erased are the first ones in row order, and none of them keeps its
     file. An end without an error means that the limits hold, exactly if they hold for what could
     not be read.
     */
    method Prune(scanOrphans: bool)
      requires Valid() && IsNew() && Faultless() && store.files == files
      modifies this, store, index
      ensures FilesCounted()
      ensures Valid() && Balanced()
      ensures AreOldest(initial, |removed|, removed) && recordsRemoved == |removed|
      ensures index.rows == if Undisturbed() then Left(initial, removed) else map[]
      ensures Accounted(store.files, Left(initial, removed), initial)
      ensures Undisturbed() ==> Kept(files, store.files, index.rows, torn)
      ensures scanOrphans && error == NoError && Undisturbed() ==> Indexed(store.files, index.rows)
      ensures !old(index.ready) ==> error == IndexUnavailable && unchanged(store) && unchanged(index)
      ensures old(index.ready) && !CanRun(scanOrphans) ==>
                error == InvalidConfiguration && unchanged(store) && unchanged(index)
      ensures OnlyEntriesExceed() ==> recordsRemoved <= Excess()
      ensures error == NoError && Undisturbed() && !countFailed && OnlyEntriesExceed() ==> recordsRemoved == Excess()
      ensures error == NoError ==> reserveReached && Conclusive()
      ensures error == NoError && Faultless() ==> counted && summed && WithinLimits()
      ensures Plain(scanOrphans) && old(index.ready) && old(index.outcomes) == [Fails]
              && TotalBytes(initial) <= limits.maximumBytes ==>
                error == NoError && index.rows == initial && store.files == files
      ensures Plain(scanOrphans) && old(index.ready) && old(index.outcomes) == [Corrupt(true, true)] ==>
                error == NoError && index.rows == map[] && store.files == files
    {
      hide ValidBut, Exceeds, OnlyEntriesExceed, Conclusive, Accounted, Kept, Indexed, ValidDigest, TotalBytes, AreOldest,
           Left, Excess, FilesCounted, Balanced, WithinLimits, Undisturbed, Faultless;
      NothingDone();
      NothingMeasured();
      AllAreLeft();
      ValidMeans();
      Check(scanOrphans);
      if error != NoError {
        return;
      }
      var complete := PrepareRecords(scanOrphans);
      ValidMeans();
      NothingMeasured();
      if error != NoError {
        return;
      }
      PruneRecords();
      ValidMeans();
      if error == NoError {
        LimitsHold();
      }
      if !complete && error == NoError {
        error := OrphanScanFailed;
      }
    }
  }

  /** The rows that are left when so many victims are gone. */
  ghost function Remaining(rows: map<Bytes, Record>, victims: seq<Record>, k: nat): map<Bytes, Record>
    requires k <= |victims|
  {
    if k == 0 then rows else Remaining(rows, victims, k - 1) - {victims[k - 1].digest}
  }

  lemma NoneGone(rows: map<Bytes, Record>, victims: seq<Record>)
    ensures Remaining(rows, victims, 0) == rows
  {
  }

  lemma OneMoreGone(rows: map<Bytes, Record>, victims: seq<Record>, k: nat)
    requires k < |victims|
    ensures Remaining(rows, victims, k + 1) == Remaining(rows, victims, k) - {victims[k].digest}
  {
  }

  lemma {:induction false} RemainingRows(rows: map<Bytes, Record>, victims: seq<Record>, k: nat)
    requires k <= |victims|
    ensures forall d :: d in Remaining(rows, victims, k)
                        <==> d in rows && forall i | 0 <= i < k :: victims[i].digest != d
    ensures forall d | d in Remaining(rows, victims, k) :: Remaining(rows, victims, k)[d] == rows[d]
  {
    if k > 0 {
      RemainingRows(rows, victims, k - 1);
    }
  }

  lemma VictimIsNext(rows: map<Bytes, Record>, victims: seq<Record>, k: nat)
    requires AreOldest(rows, |victims|, victims) && k < |victims|
    ensures IsNext(Remaining(rows, victims, k), victims[k])
  {
    RemainingRows(rows, victims, k);
    var rest := Remaining(rows, victims, k);
    assert victims[k] in victims;
    hide Before, Remaining;
    assert victims[k].digest in rest && rest[victims[k].digest] == victims[k] by {
      assert forall i | 0 <= i < k :: victims[i].digest != victims[k].digest;
    }
    forall e | e in rest && e != victims[k].digest
      ensures Before(victims[k], rest[e])
    {
      VictimIsEarlier(rows, victims, k, e);
    }
  }

  lemma VictimIsEarlier(rows: map<Bytes, Record>, victims: seq<Record>, k: nat, e: Bytes)
    requires AreOldest(rows, |victims|, victims) && k < |victims| && e in rows
    requires forall i | 0 <= i <= k :: victims[i].digest != e
    ensures Before(victims[k], rows[e])
  {
    hide Before;
    assert victims[k] in victims;
    if y :| y in victims && y.digest == e {
      var j :| 0 <= j < |victims| && victims[j] == y;
      assert j > k && rows[e] == victims[j];
    }
  }

  lemma NothingHasNoBytes()
    ensures TotalBytes(map[]) == 0
  {
  }

  lemma IsNextIsThere(rows: map<Bytes, Record>, victim: Record)
    requires IsNext(rows, victim)
    ensures victim.digest in rows
  {
  }

  lemma UnaimedIsWithin(index: ArtifactIndex, digest: Bytes, all: map<Bytes, LocatorRow>)
    requires Within(index.locators, all)
    ensures Within(index.Unaimed(index.locators, digest), all) && Within(map[], all)
  {
  }

  lemma OldestAreValid(index: ArtifactIndex, limit: nat, victims: seq<Record>)
    requires index.Valid() && AreOldest(index.rows, limit, victims)
    ensures AreOldest(index.rows, |victims|, victims) && |victims| <= limit
    ensures forall v | v in victims :: ValidDigest(v.digest)
  {
    hide Before, ValidDigest;
  }
}
