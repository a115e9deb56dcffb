/**
 The three layers of the thumbnail cache: memory, artifact files and the index with its locators.
 Lookups repair what does not agree; a locator that was erased is never followed again.
 */
module ThumbnailCache {
  import opened Bytes
  import opened ArtifactCodec
  import opened CacheKey
  import opened ArtifactIndex
  import opened ArtifactStore
  import opened MemoryCache
  import CacheMaintenance

  const ACCESS_GRANULARITY: int := 60_000_000_000

  const PRUNE_BATCH: nat := 256

  /** QOI as an opaque partial decoder: the size of the image, if there is one. */
  datatype Qoi = Qoi(size: Bytes -> Option<(nat, nat)>)

  datatype LookupResult =
    | MemoryHit(artifact: Artifact, record: Option<Record>, error: bool)
    | DiskHit(artifact: Artifact, record: Option<Record>, error: bool)
    | Miss
    | LookupFailed

  datatype Request = Request(key: Key, metadata: Metadata, payload: Bytes, identity: ColorIdentity, access: i64)

  /** An artifact that has replaced the file of a key in a publication. */
  datatype Offer = Offer(key: Key, artifact: Artifact)

  /** Which locator was bound to what, and when. */
  datatype Alias = Alias(locator: Locator, key: Key, boundAt: nat)

  /**
   What happened so far: offers, bindings and revocations with their times. `lost` are locators
   whose last erasure could neither delete the row nor write the fence; after a reopen they are
   `forgotten`.
   */
  datatype History = History(offers: set<Offer>, aliases: map<Bytes, Alias>, revokedAt: map<Bytes, nat>,
                             clock: nat, lost: set<Bytes>, forgotten: set<Bytes>)

  predicate Hashed(h: Hashing, k: Key) {
    ShortKey(k) && KeyBytes(k) in h.inputs
  }

  predicate HashedLocator(h: Hashing, l: Locator) {
    ShortLocator(l) && LocatorBytes(l) in h.inputs
  }

  function KeyDigest(h: Hashing, k: Key): Bytes
    requires ShortKey(k)
  {
    Hex(h.of(KeyBytes(k)))
  }

  function LocatorDigest(h: Hashing, l: Locator): Bytes
    requires ShortLocator(l)
  {
    Hex(h.of(LocatorBytes(l)))
  }

  predicate Decodes(q: Qoi, m: Metadata, payload: Bytes) {
    q.size(payload) == Some((m.width, m.height))
  }

  function RecordOf(k: Key, digest: Bytes, a: Artifact, access: i64): Record
    requires ValidDigest(digest)
  {
    Record(digest, k.source, a.metadata, a.identity, PathOf(digest), HeaderLength(a.identity) + |a.payload|, access)
  }

  /** What can be published: the image, the texts and the times are valid, and the file is not too large. */
  predicate Publishable(qoi: Qoi, q: Request) {
    && Decodes(qoi, q.metadata, q.payload) && ShortKey(q.key) && ValidSource(q.key.source)
    && ValidMetadata(q.metadata) && ValidIdentity(q.identity) && q.access >= 0
    && HeaderLength(q.identity) + |q.payload| <= MAX_ARTIFACT_BYTES
  }

  /** The record that a publication writes. */
  function KeyRecord(h: Hashing, k: Key, a: Artifact, access: i64): Record
    requires ShortKey(k) && ValidDigest(KeyDigest(h, k))
  {
    RecordOf(k, KeyDigest(h, k), a, access)
  }

  /** The record describes this artifact of this key; only the time of access is free. */
  predicate Matches(r: Record, k: Key, digest: Bytes, a: Artifact)
    requires ValidDigest(digest)
  {
    r == RecordOf(k, digest, a, r.access)
  }

  /** A file that is served: it is the artifact its name says, and the image in it decodes to its size. */
  predicate Displayable(q: Qoi, files: map<Bytes, Content>, digest: Bytes) {
    SoundFile(files, digest) && Decodes(q, files[digest].artifact.metadata, files[digest].artifact.payload)
  }

  /** No file changes but this one, which may only go if it cannot be served. */
  predicate KeepsFiles(q: Qoi, before: map<Bytes, Content>, after: map<Bytes, Content>, digest: Bytes) {
    after == before || (after == before - {digest} && !Displayable(q, before, digest))
  }

  function RowOf(rows: map<Bytes, Record>, digest: Bytes): Option<Record> {
    if digest in rows then Some(rows[digest]) else None
  }

  /** The record of an artifact that is served: the one found, if it matches, else a new one. */
  function ServedRecord(k: Key, digest: Bytes, a: Artifact, row: Option<Record>, access: i64): Record
    requires ValidDigest(digest)
  {
    if row.None? || !Matches(row.value, k, digest, a) then RecordOf(k, digest, a, access)
    else if access >= 0 && access >= row.value.access && access - row.value.access >= ACCESS_GRANULARITY
    then row.value.(access := access)
    else row.value
  }

  predicate SoundFile(files: map<Bytes, Content>, digest: Bytes) {
    ValidDigest(digest) && digest in files && Sound(files[digest], digest)
  }

  ghost predicate OfferedAt(h: Hashing, offers: set<Offer>, digest: Bytes, a: Artifact) {
    exists o | o in offers :: o.artifact == a && Hashed(h, o.key) && KeyDigest(h, o.key) == digest
  }

  ghost predicate OfferedFiles(h: Hashing, offers: set<Offer>, files: map<Bytes, Content>) {
    forall d | d in files && Sound(files[d], d) :: OfferedAt(h, offers, d, files[d].artifact)
  }

  ghost predicate OfferedResidents(h: Hashing, q: Qoi, offers: set<Offer>, rs: seq<Resident>) {
    forall r | r in rs ::
      OfferedAt(h, offers, r.digest, r.artifact) && Decodes(q, r.artifact.metadata, r.artifact.payload)
  }

  function RevokedAt(y: History, l: Bytes): nat {
    if l in y.revokedAt then y.revokedAt[l] else 0
  }

  /** The alias is filed under the digest of its own locator. */
  predicate IsFor(h: Hashing, alias: Alias, l: Bytes) {
    HashedLocator(h, alias.locator) && LocatorDigest(h, alias.locator) == l
  }

  /** A row of the second table leads to what its locator was bound to after it was last erased. */
  predicate Trustworthy(h: Hashing, y: History, fences: set<Bytes>, l: Bytes, row: LocatorRow) {
    && l in y.aliases && Hashed(h, y.aliases[l].key) && row.target == KeyDigest(h, y.aliases[l].key)
    && IsFor(h, y.aliases[l], l)
    && y.aliases[l].boundAt <= y.clock
    && (RevokedAt(y, l) < y.aliases[l].boundAt || l in fences || l in y.lost || l in y.forgotten)
  }

  /** So does every row with the right binding; others damage rows, and those are never followed. */
  ghost predicate SafeLocators(h: Hashing, y: History, fences: set<Bytes>, locators: map<Bytes, LocatorRow>) {
    && (forall l | l in locators && Bound(h, l, locators[l]) :: Trustworthy(h, y, fences, l, locators[l]))
    && forall l | l in y.revokedAt :: y.revokedAt[l] <= y.clock
  }

  lemma DigestIsValid(h: Hashing, x: Bytes)
    requires KeepsApart(h)
    ensures ValidDigest(Hex(h.of(x)))
  {
  }

  /** An artifact offered for the digest of a key was offered for that key. */
  lemma OfferedForKey(h: Hashing, offers: set<Offer>, k: Key, a: Artifact)
    requires KeepsApart(h) && Hashed(h, k) && OfferedAt(h, offers, KeyDigest(h, k), a)
    ensures Offer(k, a) in offers
  {
    var o :| o in offers && o.artifact == a && Hashed(h, o.key) && KeyDigest(h, o.key) == KeyDigest(h, k);
    DigestIdentifiesKey(h, o.key, k);
  }

  class PersistentThumbnailCache {
    const hashing: Hashing
    const qoi: Qoi
    const store: ArtifactStore
    const index: ArtifactIndex
    const memory: MemoryArtifactCache
    /** Locators with a revocation file. */
    var fences: set<Bytes>
    var offline: bool
    /** What the coming operations on revocation files meet; after the last of them nothing fails. */
    var outcomes: seq<Outcome>
    ghost var history: History

    ghost function Residents(): seq<Resident>
      reads memory, memory.entries
    {
      View(memory.entries)
    }

    ghost predicate Valid()
      reads `history, `fences, `offline, store`files, index`rows, index`locators, memory, memory.entries
    {
      KeepsApart(hashing) && (history.lost != {} ==> offline) && ValidIndex() && ValidStore() && ValidMemory()
    }

    ghost predicate ValidIndex()
      reads `history, `fences, index`rows, index`locators
    {
      && index.hashing == hashing && index.Valid()
      && SafeLocators(hashing, history, fences, index.locators)
    }

    ghost predicate ValidStore()
      reads `history, store`files
    {
      OfferedFiles(hashing, history.offers, store.files)
    }

    ghost predicate ValidMemory()
      reads `history, memory, memory.entries
    {
      memory.Valid() && OfferedResidents(hashing, qoi, history.offers, Residents())
    }

    /** Nothing fails from here on, in any layer. */
    predicate Calm()
      reads this, store, index
    {
      index.Calm() && store.outcomes == [] && outcomes == []
    }

    /** A cache over a store that already has files, each of them offered for its key. */
    constructor (hashing: Hashing, qoi: Qoi, store: ArtifactStore, outcomes: seq<Statement>, limits: Limits,
                 ghost offers: set<Offer>)
      requires KeepsApart(hashing) && OfferedFiles(hashing, offers, store.files)
      ensures Valid() && this.hashing == hashing && this.qoi == qoi && this.store == store
      ensures fresh(index) && fresh(memory) && memory.limits == limits && memory.entries == []
      ensures history.offers == offers && !offline && index.rows == map[] && index.locators == map[]
      ensures index.ready && index.outcomes == outcomes && this.outcomes == []
    {
      this.hashing, this.qoi, this.store := hashing, qoi, store;
      index := new ArtifactIndex(hashing, outcomes);
      memory := new MemoryArtifactCache(limits);
      fences, offline, this.outcomes := {}, false, [];
      history := History(offers, map[], map[], 0, {}, {});
    }

    // ---------------------------------------------------------------- one layer at a time

    method FindRecord(digest: Bytes) returns (record: Option<Record>)
      requires Valid() && ValidDigest(digest)
      modifies index
      ensures Valid() && index.Counts() && index.StaysCalm()
      ensures record.Some? ==> index.wipes == old(index.wipes) && digest in index.rows && record.value == index.rows[digest]
      ensures record.None? && !index.failed ==> digest !in index.rows
      ensures index.failures == old(index.failures) ==>
                index.rows == old(index.rows) && index.locators == old(index.locators) && !index.failed
    {
      hide ValidStore, ValidMemory, KeepsApart, index.Valid, ValidDigest, SafeLocators;
      ghost var locators := index.locators;
      record := index.Find(digest);
      FewerLocatorsAreSafe(hashing, history, fences, locators, index.locators);
    }

    method PublishRecord(record: Record) returns (published: bool)
      requires Valid()
      modifies index
      ensures Valid() && index.Counts() && index.StaysCalm()
      ensures published ==> ValidRecord(record) && record.digest in index.rows && index.rows[record.digest] == record
      ensures index.failures == old(index.failures) ==>
                published == ValidRecord(record) && index.locators == old(index.locators)
                && index.rows == if published then old(index.rows)[record.digest := record] else old(index.rows)
    {
      hide ValidStore, ValidMemory, KeepsApart, index.Valid, ValidRecord, SafeLocators;
      ghost var locators := index.locators;
      published := index.Publish(record);
      FewerLocatorsAreSafe(hashing, history, fences, locators, index.locators);
    }

    method TouchRecord(digest: Bytes, access: i64) returns (touched: Touched)
      requires Valid()
      modifies index
      ensures Valid() && index.Counts() && index.StaysCalm()
      ensures touched == Updated ==>
                digest in old(index.rows)
                && index.rows == old(index.rows)[digest := old(index.rows)[digest].(access := access)]
      ensures index.failures == old(index.failures) ==>
                index.locators == old(index.locators) && (touched != Updated ==> index.rows == old(index.rows))
      ensures index.failures == old(index.failures) && ValidDigest(digest) ==>
                (touched == Updated <==> digest in old(index.rows) && access >= 0)
    {
      hide ValidStore, ValidMemory, KeepsApart, index.Valid, ValidDigest, SafeLocators;
      ghost var locators := index.locators;
      touched := index.Touch(digest, access);
      FewerLocatorsAreSafe(hashing, history, fences, locators, index.locators);
    }

    method EraseRecord(digest: Bytes) returns (erased: bool)
      requires Valid() && ValidDigest(digest)
      modifies index
      ensures Valid() && index.Counts() && index.StaysCalm() && (erased ==> !index.failed)
      ensures !index.failed ==>
                && digest !in index.rows && (forall l | l in index.locators :: index.locators[l].target != digest)
                && erased == (index.wipes == old(index.wipes) && digest in old(index.rows))
      ensures index.failures == old(index.failures) ==> !index.failed && index.rows == old(index.rows) - {digest}
    {
      hide ValidStore, ValidMemory, KeepsApart, index.Valid, ValidDigest, SafeLocators;
      ghost var locators := index.locators;
      erased := index.Erase(digest);
      FewerLocatorsAreSafe(hashing, history, fences, locators, index.locators);
    }

    method FindFile(digest: Bytes) returns (stored: Stored)
      requires Valid()
      modifies store
      ensures Valid() && (old(store.outcomes) == [] ==> store.outcomes == [])
      ensures stored.Hit? ==> store.files == old(store.files)
      ensures stored.Hit? ==> digest in store.files && store.files[digest] == Holding(stored.artifact)
                              && OfferedAt(hashing, history.offers, digest, stored.artifact)
      ensures stored.Absent? ==> digest !in store.files
      ensures stored.Hit? ==> SoundFile(old(store.files), digest)
      ensures store.files == old(store.files)
              || (store.files == old(store.files) - {digest} && !SoundFile(old(store.files), digest))
      ensures old(store.outcomes) == [] && ValidDigest(digest) ==>
                !stored.StoreFailed? && (stored.Hit? <==> SoundFile(old(store.files), digest))
    {
      hide ValidIndex, ValidMemory, KeepsApart, OfferedAt, Sound;
      stored := store.LookupDigest(digest);
    }

    method RemoveFile(digest: Bytes) returns (removal: Removal)
      requires Valid()
      modifies store
      ensures Valid() && (removal == Removed ==> digest in old(store.files))
      ensures if removal == RemovalFailed then store.files == old(store.files)
              else store.files == old(store.files) - {digest}
      ensures removal == NotFound ==> digest !in old(store.files)
      ensures old(store.outcomes) == [] && ValidDigest(digest) ==> removal != RemovalFailed && store.outcomes == []
    {
      hide ValidIndex, ValidMemory, KeepsApart, OfferedAt, Sound;
      removal := store.RemoveDigestChecked(digest);
    }

    method FindResident(digest: Bytes) returns (resident: Option<Artifact>)
      requires Valid()
      modifies memory
      ensures Valid()
      ensures resident.Some? == MemoryCache.Holds(Residents(), digest) && AccessOf(digest) == old(AccessOf(digest))
      ensures resident.Some? == MemoryCache.Lookup(old(Residents()), digest).Some?
      ensures resident.Some? ==> resident.value == MemoryCache.Lookup(old(Residents()), digest).value.artifact
      ensures resident.Some? ==> OfferedAt(hashing, history.offers, digest, resident.value)
                                 && Decodes(qoi, resident.value.metadata, resident.value.payload)
      ensures forall e | e in memory.entries :: e in old(memory.entries)
    {
      hide ValidIndex, ValidStore, KeepsApart, OfferedAt, Decodes, View, MemoryCache.Lookup, Without, Coherent;
      ghost var before := Residents();
      resident := memory.Find(digest);
      if resident.Some? {
        FoundResident(before, Residents(), digest);
      }
    }

    method ForgetResident(digest: Bytes) returns (erased: bool)
      requires Valid()
      modifies memory
      ensures Valid() && !MemoryCache.Holds(Residents(), digest)
      ensures erased == MemoryCache.Holds(old(Residents()), digest) && Residents() == Without(old(Residents()), digest)
      ensures forall e | e in memory.entries :: e in old(memory.entries)
    {
      hide ValidIndex, ValidStore, KeepsApart, OfferedResidents, View, MemoryCache.Lookup, Without, MemoryCache.Holds,
           DistinctDigests, MemoryCache.Fits, Mapped;
      ghost var before := Residents();
      WithoutIsDistinct(before, digest);
      FewerAreOffered(hashing, qoi, history.offers, before, digest);
      erased := memory.Erase(digest);
    }

    /** Puts an artifact into memory, if it fits there. */
    method Remember(digest: Bytes, artifact: Artifact, access: i64)
      requires Valid() && OfferedAt(hashing, history.offers, digest, artifact) && ValidDigest(digest)
      requires Decodes(qoi, artifact.metadata, artifact.payload)
      modifies memory
      ensures Valid()
      ensures forall e | e in memory.entries :: e in old(memory.entries) || fresh(e)
      ensures if memory.limits.maximumEntries > 0 && Weight(artifact) <= memory.limits.maximumBytes
              then MemoryCache.Lookup(Residents(), digest) == Some(Resident(digest, artifact, access))
              else Residents() == old(Residents())
    {
      hide ValidIndex, ValidStore, KeepsApart, OfferedAt, Decodes, View, MemoryCache.Lookup, Without, Trimmed,
           ValidDigest,
           Coherent, Fits;
      ghost var before := Residents();
      var inserted := memory.Insert(digest, Some(artifact), access);
      if inserted {
        InsertedAreOffered(hashing, qoi, history.offers, before, Resident(digest, artifact, access), memory.limits);
      }
    }

    method ExchangeAccess(digest: Bytes, expected: i64, desired: i64) returns (exchanged: bool)
      requires Valid()
      modifies memory.entries
      ensures Valid() && (exchanged <==> old(AccessOf(digest)) == Some(expected))
      ensures AccessOf(digest) == if exchanged then Some(desired) else old(AccessOf(digest))
    {
      hide ValidIndex, ValidStore, KeepsApart, OfferedAt, OfferedResidents, Decodes, View, MemoryCache.Lookup,
           memory.Valid;
      ghost var before := Residents();
      exchanged := memory.CompareExchangePersistedAccess(digest, expected, desired);
      SameArtifactsAreOffered(hashing, qoi, history.offers, before, Residents());
      ExchangedAccess(before, Residents(), digest, exchanged, desired);
    }

    /** The access time that the memory believes to be recorded. */
    ghost function AccessOf(digest: Bytes): Option<i64>
      reads memory, memory.entries
    {
      AccessIn(Residents(), digest)
    }

    lemma AccessOfResident(digest: Bytes)
      ensures AccessOf(digest).Some? <==> MemoryCache.Holds(Residents(), digest)
    {
      hide View;
    }

    // ---------------------------------------------------------------- lookup by key

    method Lookup(key: Key, access: i64) returns (r: LookupResult)
      requires Valid() && Hashed(hashing, key)
      modifies store, index, memory, memory.entries
      ensures Valid() && Found(r, key)
      ensures index.failures == old(index.failures) ==> Agree(r, key)
      ensures index.failures == old(index.failures) && old(IsResident(KeyDigest(hashing, key))) ==>
                var d := KeyDigest(hashing, key);
                && r.MemoryHit? && store.files == old(store.files) && MemoryCache.Holds(Residents(), d)
                && !r.error && r.record == RowOf(old(index.rows), d)
                && index.rows == Refreshed(old(index.rows), d, old(AccessOf(d)), access)
      ensures r.MemoryHit? ==>
                && old(MemoryCache.Holds(Residents(), KeyDigest(hashing, key)))
                && r.artifact == MemoryCache.Lookup(old(Residents()), KeyDigest(hashing, key)).value.artifact
      ensures KeepsFiles(qoi, old(store.files), store.files, KeyDigest(hashing, key))
      ensures old(store.outcomes == [] && Displayable(qoi, store.files, KeyDigest(hashing, key))
                  && !MemoryCache.Holds(Residents(), KeyDigest(hashing, key))) ==>
                IsServed(r, key, old(store.files), old(index.rows), access, index.failures == old(index.failures))
      ensures old(Calm()) ==>
                && Calm() && index.failures == old(index.failures)
                && (r.MemoryHit? <==> old(Remembered(KeyDigest(hashing, key))))
                && (r.DiskHit? <==> old(OnDiskOnly(KeyDigest(hashing, key)))) && !r.LookupFailed?
    {
      hide ValidIndex, ValidStore, ValidMemory, OfferedAt, Decodes, View, Hex, ValidDigest;
      var digest := KeyDigest(hashing, key);
      DigestIsValid(hashing, KeyBytes(key));
      var resident := FindResident(digest);
      if resident.Some? {
        OfferedForKey(hashing, history.offers, key, resident.value);
        assert forall i | 0 <= i < |memory.entries| :: memory.entries[i] in old(memory.entries);
        r := LookupResident(key, digest, resident.value, access);
      } else {
        r := LookupStored(key, digest, access);
      }
    }

    /** In memory, and one of the other layers knows it. */
    ghost predicate Remembered(digest: Bytes)
      reads store, index, memory, memory.entries
    {
      MemoryCache.Holds(Residents(), digest) && (digest in index.rows || SoundFile(store.files, digest))
    }

    /** Not in memory, but in a file that can be served. */
    ghost predicate OnDiskOnly(digest: Bytes)
      reads this, store, memory, memory.entries
    {
      !MemoryCache.Holds(Residents(), digest) && Displayable(qoi, store.files, digest)
    }

    /** What is in the file is what is served, and when the index works, with an exact record. */
    ghost predicate IsServed(r: LookupResult, key: Key, files: map<Bytes, Content>, rows: map<Bytes, Record>,
                             access: i64, indexWorks: bool)
      requires ShortKey(key) && Displayable(qoi, files, KeyDigest(hashing, key))
      reads this, index, memory, memory.entries
    {
      var d := KeyDigest(hashing, key);
      var a, row := files[d].artifact, RowOf(rows, d);
      && r.DiskHit? && r.artifact == a
      && (indexWorks ==> ServedWith(r, key, d, a, row, access) && (!r.error ==> index.rows == rows[d := r.record.value]))
      && (!r.error ==> r.record.Some? && IsRemembered(d, a, r.record.value.access))
    }

    /** An error says that a record was needed and is not valid; else the record is the exact one. */
    ghost predicate ServedWith(r: LookupResult, key: Key, d: Bytes, a: Artifact, row: Option<Record>, access: i64)
      requires ValidDigest(d) && r.DiskHit?
    {
      && (r.error <==> (row.None? || !Matches(row.value, key, d, a)) && !ValidRecord(RecordOf(key, d, a, access)))
      && r.record == if r.error then None else Some(ServedRecord(key, d, a, row, access))
    }

    ghost predicate IsRemembered(digest: Bytes, artifact: Artifact, access: i64)
      reads memory, memory.entries
    {
      memory.limits.maximumEntries > 0 && Weight(artifact) <= memory.limits.maximumBytes ==>
        MemoryCache.Lookup(Residents(), digest) == Some(Resident(digest, artifact, access))
    }

    /** In memory, with a record. */
    ghost predicate IsResident(digest: Bytes)
      reads index, memory, memory.entries
    {
      MemoryCache.Lookup(Residents(), digest).Some? && digest in index.rows
    }

    /** A hit is an artifact offered for this very key, and it decodes to the size it claims. */
    ghost predicate Found(r: LookupResult, key: Key)
      reads this
    {
      r.MemoryHit? || r.DiskHit? ==>
        Offer(key, r.artifact) in history.offers && Decodes(qoi, r.artifact.metadata, r.artifact.payload)
    }

    /** What the layers hold after a lookup in which the index did not fail. */
    ghost predicate Agree(r: LookupResult, key: Key)
      requires ShortKey(key)
      reads this, store, index, memory, memory.entries
    {
      var d := KeyDigest(hashing, key);
      && ValidDigest(d)
      && (r.MemoryHit? && !r.error ==> d in index.rows)
      && (r.DiskHit? ==> d in store.files && store.files[d] == Holding(r.artifact))
      && (r.DiskHit? && !r.error ==>
            d in index.rows && Matches(index.rows[d], key, d, r.artifact) && r.record == Some(index.rows[d]))
      && (r.Miss? ==> d !in index.rows && d !in store.files && !MemoryCache.Holds(Residents(), d))
    }

    method LookupResident(key: Key, digest: Bytes, resident: Artifact, access: i64) returns (r: LookupResult)
      requires Valid() && Hashed(hashing, key) && digest == KeyDigest(hashing, key) && ValidDigest(digest)
      requires Offer(key, resident) in history.offers && Decodes(qoi, resident.metadata, resident.payload)
      modifies store, index, memory, memory.entries
      ensures Valid() && Found(r, key) && !r.DiskHit? && index.Counts() && (r.MemoryHit? ==> r.artifact == resident)
      ensures index.failures == old(index.failures) ==> Agree(r, key)
      ensures index.failures == old(index.failures) && digest in old(index.rows) ==>
                r.MemoryHit? && store.files == old(store.files)
      ensures KeepsFiles(qoi, old(store.files), store.files, digest)
      ensures r.MemoryHit? && old(MemoryCache.Holds(Residents(), digest)) ==> MemoryCache.Holds(Residents(), digest)
      ensures index.failures == old(index.failures) && digest in old(index.rows) ==>
                && !r.error && r.record == RowOf(old(index.rows), digest)
                && index.rows == Refreshed(old(index.rows), digest, old(AccessOf(digest)), access)
      ensures index.failures == old(index.failures) ==> index.locators == old(index.locators)
      ensures old(Calm()) ==>
                && Calm() && index.failures == old(index.failures) && !r.LookupFailed?
                && (r.MemoryHit? <==> digest in old(index.rows) || SoundFile(old(store.files), digest))
    {
      hide KeepsApart, Residents, MemoryCache.Lookup, AccessOf, PathOf, Sound, ValidIndex, ValidStore, ValidMemory,
           OfferedAt, Decodes, View, Hex, ValidDigest, RecordOf;
      var record := FindRecord(digest);
      if record.None? {
        record, r := Reconstruct(key, digest, resident, access);
        if record.None? {
          return;
        }
      }
      AccessOfResident(digest);
      ghost var _ := RefreshAccess(digest, access);
      AccessOfResident(digest);
      r := MemoryHit(resident, record, false);
    }

    /** The rows with the access of one moved forward, if it is due by what the memory believes. */
    function Refreshed(rows: map<Bytes, Record>, digest: Bytes, believed: Option<i64>, access: i64): map<Bytes, Record>
      requires digest in rows
    {
      if IsDue(believed, access) && access >= 0 then rows[digest := rows[digest].(access := access)] else rows
    }

    /** The record of a resident is missing: it is written again, if there is a file. */
    method Reconstruct(key: Key, digest: Bytes, resident: Artifact, access: i64)
      returns (record: Option<Record>, r: LookupResult)
      requires Valid() && Hashed(hashing, key) && digest == KeyDigest(hashing, key) && ValidDigest(digest)
      requires Offer(key, resident) in history.offers && Decodes(qoi, resident.metadata, resident.payload)
      modifies store, index, memory
      ensures Valid() && index.Counts() && KeepsFiles(qoi, old(store.files), store.files, digest)
      ensures record.Some? ==> digest in index.rows && unchanged(memory)
      ensures record.None? ==> r == MemoryHit(resident, None, true) || r == Miss || r == LookupFailed
      ensures record.None? && r.MemoryHit? ==> unchanged(memory)
      ensures r == Miss && record.None? ==> digest !in store.files && !MemoryCache.Holds(Residents(), digest)
      ensures index.failures == old(index.failures) ==>
                index.locators == old(index.locators) && (record.None? ==> index.rows == old(index.rows))
      ensures old(index.Calm() && store.outcomes == []) ==>
                && index.Calm() && store.outcomes == [] && index.failures == old(index.failures)
                && if SoundFile(old(store.files), digest) then record.Some? || r.MemoryHit? else record.None? && r == Miss
    {
      hide KeepsApart, Residents, MemoryCache.Lookup, PathOf, Sound, ValidIndex, ValidStore, ValidMemory,
           OfferedAt, Decodes, View, Hex, ValidDigest, RecordOf;
      record, r := None, Miss;
      var stored := FindFile(digest);
      if !stored.Hit? {
        var _ := ForgetResident(digest);
        r := if stored.StoreFailed? then LookupFailed else Miss;
        return;
      }
      var recovered := Describe(key, digest, stored.artifact, access);
      var published := PublishRecord(recovered);
      if published {
        record := Some(recovered);
      } else {
        r := MemoryHit(resident, None, true);
      }
    }

    method Describe(key: Key, digest: Bytes, a: Artifact, access: i64) returns (record: Record)
      requires ValidDigest(digest)
      ensures record == RecordOf(key, digest, a, access) && record.digest == digest && record.access == access
      ensures Matches(record, key, digest, a)
    {
      record := RecordOf(key, digest, a, access);
    }

    /** Moves the recorded access forward, at most once per minute, and what the memory believes of it. */
    method RefreshAccess(digest: Bytes, access: i64) returns (ghost moved: bool)
      requires Valid()
      modifies index, memory.entries
      ensures Valid() && index.Counts() && index.StaysCalm()
      ensures moved ==>
                && IsDue(old(AccessOf(digest)), access) && AccessOf(digest) == Some(access) && digest in old(index.rows)
                && access - old(AccessOf(digest)).value >= 60_000_000_000
                && index.rows == old(index.rows)[digest := old(index.rows)[digest].(access := access)]
      ensures !moved ==> AccessOf(digest) == old(AccessOf(digest))
      ensures index.failures == old(index.failures) ==> index.locators == old(index.locators)
      ensures index.failures == old(index.failures) && !moved ==> index.rows == old(index.rows)
      ensures index.failures == old(index.failures) && IsDue(old(AccessOf(digest)), access) && ValidDigest(digest) ==>
                moved == (digest in old(index.rows) && access >= 0)
    {
      hide ValidIndex, ValidStore, ValidMemory, KeepsApart, AccessOf, ValidDigest;
      moved := false;
      var persisted := BelievedAccess(digest);
      if persisted.None? || access < persisted.value || access - persisted.value < ACCESS_GRANULARITY {
        return;
      }
      var exchanged := ExchangeAccess(digest, persisted.value, access);
      if exchanged {
        var touched := TouchRecord(digest, access);
        moved := touched == Updated;
        if touched != Updated {
          var _ := ExchangeAccess(digest, access, persisted.value);
        }
      }
    }

    predicate IsDue(persisted: Option<i64>, access: i64) {
      persisted.Some? && access >= persisted.value && access - persisted.value >= ACCESS_GRANULARITY
    }

    method BelievedAccess(digest: Bytes) returns (access: Option<i64>)
      requires Valid()
      ensures access == AccessOf(digest)
    {
      hide View, MemoryCache.Lookup;
      access := memory.PersistedAccess(digest);
    }

    method LookupStored(key: Key, digest: Bytes, access: i64) returns (r: LookupResult)
      requires Valid() && Hashed(hashing, key) && digest == KeyDigest(hashing, key) && ValidDigest(digest)
      requires !MemoryCache.Holds(Residents(), digest)
      modifies store, index, memory
      ensures Valid() && Found(r, key) && index.Counts()
      ensures index.failures == old(index.failures) ==> Agree(r, key)
      ensures KeepsFiles(qoi, old(store.files), store.files, digest)
      ensures old(store.outcomes == [] && Displayable(qoi, store.files, digest)) ==>
                IsServed(r, key, old(store.files), old(index.rows), access, index.failures == old(index.failures))
      ensures !r.MemoryHit?
      ensures old(Calm()) ==>
                && Calm() && index.failures == old(index.failures) && !r.LookupFailed?
                && (r.DiskHit? <==> Displayable(qoi, old(store.files), digest))
    {
      hide KeepsApart, Residents, MemoryCache.Lookup, AccessOf, PathOf, Sound, ValidIndex, ValidStore, ValidMemory,
           OfferedAt, Decodes, View, Hex, ValidDigest, RecordOf, MemoryCache.Holds, ServedRecord;
      var record := FindRecord(digest);
      var stored := FindFile(digest);
      if stored.StoreFailed? {
        return LookupFailed;
      }
      if stored.Absent? {
        r := ForgetRow(digest, record);
        return;
      }
      OfferedForKey(hashing, history.offers, key, stored.artifact);
      if !Decodes(qoi, stored.artifact.metadata, stored.artifact.payload) {
        var removal := RemoveFile(digest);
        if removal == RemovalFailed {
          return LookupFailed;
        }
        r := ForgetRow(digest, record);
        return;
      }
      r := ServeFromDisk(key, digest, stored.artifact, record, access);
    }

    /** A record whose file is gone goes, too. */
    method ForgetRow(digest: Bytes, record: Option<Record>) returns (r: LookupResult)
      requires Valid() && ValidDigest(digest)
      modifies index
      ensures Valid() && (r == Miss || r == LookupFailed) && index.Counts() && index.StaysCalm()
      ensures r == Miss && (record.None? ==> digest !in old(index.rows)) ==> digest !in index.rows
      ensures old(index.Calm()) && (record.Some? ==> digest in old(index.rows)) ==> r == Miss
    {
      hide ValidIndex, ValidStore, ValidMemory, ValidDigest;
      if record.Some? {
        var erased := EraseRecord(digest);
        if !erased {
          return LookupFailed;
        }
      }
      r := Miss;
    }

    method ServeFromDisk(key: Key, digest: Bytes, artifact: Artifact, found: Option<Record>, access: i64)
      returns (r: LookupResult)
      requires Valid() && Hashed(hashing, key) && digest == KeyDigest(hashing, key) && ValidDigest(digest)
      requires digest in store.files && store.files[digest] == Holding(artifact)
      requires OfferedAt(hashing, history.offers, digest, artifact)
      requires Decodes(qoi, artifact.metadata, artifact.payload)
      modifies index, memory
      ensures Valid() && r.DiskHit? && r.artifact == artifact && index.Counts() && index.StaysCalm()
      ensures index.failures == old(index.failures)
              && (found.Some? ==> digest in old(index.rows) && found.value == old(index.rows)[digest]) ==>
                Agree(r, key)
      ensures index.failures == old(index.failures) && found == RowOf(old(index.rows), digest) ==>
                && ServedWith(r, key, digest, artifact, found, access)
                && (!r.error ==> index.rows == old(index.rows)[digest := r.record.value])
      ensures !r.error ==> r.record.Some? && IsRemembered(digest, artifact, r.record.value.access)
    {
      hide ValidIndex, ValidStore, ValidMemory, OfferedAt, Decodes, View, Hex, ValidDigest;
      var record := found;
      if record.None? || !Matches(record.value, key, digest, artifact) {
        var recovered := Describe(key, digest, artifact, access);
        var published := PublishRecord(recovered);
        if !published {
          return DiskHit(artifact, None, true);
        }
        record := Some(recovered);
      } else if access >= record.value.access && access - record.value.access >= ACCESS_GRANULARITY {
        var touched := TouchRecord(digest, access);
        if touched == Updated {
          record := Some(record.value.(access := access));
        }
      }
      Remember(digest, artifact, record.value.access);
      r := DiskHit(artifact, record, false);
    }

    // ---------------------------------------------------------------- lookup by locator

    /**
     A hit follows a binding of this very locator, and never one older than its last erasure,
     whatever failed in that erasure; only after a reopen can it, for a locator whose row and fence
     both failed.
     */
    method LookupLocator(locator: Locator, access: i64) returns (r: LookupResult)
      requires Valid() && HashedLocator(hashing, locator)
      modifies this`outcomes, store, index, memory
      ensures Valid()
      ensures old(Calm() && Reachable(LocatorDigest(hashing, locator))) ==>
                (r.MemoryHit? || r.DiskHit?) && Calm() && Reachable(LocatorDigest(hashing, locator))
      ensures r.MemoryHit? || r.DiskHit? ==>
                && !offline && LocatorDigest(hashing, locator) !in fences && Follows(r, LocatorDigest(hashing, locator))
                && history.aliases[LocatorDigest(hashing, locator)].locator == locator
    {
      hide ValidIndex, ValidStore, ValidMemory, OfferedAt, Decodes, View, Hex, ValidDigest, LocatorBytes;
      if offline {
        return Miss;
      }
      var locatorDigest := LocatorDigest(hashing, locator);
      DigestIsValid(hashing, LocatorBytes(locator));
      var revoked := IsRevoked(locatorDigest);
      if revoked {
        return Miss;
      }
      var target := FindTarget(locatorDigest);
      if target.None? {
        return Miss;
      }
      DigestIdentifiesLocator(hashing, history.aliases[locatorDigest].locator, locator);
      r := FollowTarget(locatorDigest, target.value, access);
    }

    /** The locator is neither fenced nor off, and its row leads to an artifact that can be served. */
    ghost predicate Reachable(locator: Bytes)
      reads this, store, index, memory, memory.entries
    {
      && !offline && locator !in fences && ValidDigest(locator) && locator in index.locators
      && Bound(hashing, locator, index.locators[locator])
      && Servable(index.locators[locator].target)
    }

    ghost predicate Servable(target: Bytes)
      reads this, store, index, memory, memory.entries
    {
      && ValidDigest(target) && target in index.rows
      && (MemoryCache.Holds(Residents(), target)
          || (Displayable(qoi, store.files, target) && Describes(index.rows[target], target, store.files[target].artifact)))
    }

    /** The artifact was offered for the key that the locator was bound to since it was last erased. */
    ghost predicate Follows(r: LookupResult, locator: Bytes)
      requires r.MemoryHit? || r.DiskHit?
      reads this
    {
      && locator in history.aliases && Offer(history.aliases[locator].key, r.artifact) in history.offers
      && Decodes(qoi, r.artifact.metadata, r.artifact.payload)
      && (RevokedAt(history, locator) < history.aliases[locator].boundAt || locator in history.forgotten)
    }

    /** A fence that cannot be inspected counts as one. */
    method IsRevoked(locator: Bytes) returns (revoked: bool)
      modifies `outcomes
      ensures !revoked ==> locator !in fences
      ensures old(outcomes) == [] ==> outcomes == [] && revoked == (locator in fences)
    {
      var outcome := Meet();
      revoked := locator in fences || outcome != Works;
    }

    method Meet() returns (outcome: Outcome)
      modifies `outcomes
      ensures outcome == HeadOr(old(outcomes), Works) && outcomes == Later(old(outcomes))
    {
      outcome, outcomes := HeadOr(outcomes, Works), Later(outcomes);
    }

    method FindTarget(locator: Bytes) returns (target: Option<Bytes>)
      requires Valid() && !offline && locator !in fences && ValidDigest(locator)
      modifies index
      ensures Valid()
      ensures old(index.Calm()) && locator in old(index.locators)
                && Bound(hashing, locator, old(index.locators)[locator]) ==>
                index.Calm() && index.locators == old(index.locators) && index.rows == old(index.rows) && target == Some(old(index.locators)[locator].target)
      ensures target.Some? ==>
                && locator in history.aliases && Hashed(hashing, history.aliases[locator].key)
                && target.value == KeyDigest(hashing, history.aliases[locator].key)
                && IsFor(hashing, history.aliases[locator], locator)
                && (RevokedAt(history, locator) < history.aliases[locator].boundAt || locator in history.forgotten)
    {
      hide ValidStore, ValidMemory, KeepsApart, index.Valid, ValidDigest, Hex, KeyBytes;
      ghost var locators := index.locators;
      target := index.FindLocator(locator);
      FewerLocatorsAreSafe(hashing, history, fences, locators, index.locators);
      assert locator in locators && Bound(hashing, locator, locators[locator]) ==>
               Trustworthy(hashing, history, fences, locator, locators[locator]);
    }

    method FollowTarget(locator: Bytes, target: Bytes, access: i64) returns (r: LookupResult)
      requires Valid() && locator in history.aliases && ValidDigest(locator)
      requires Hashed(hashing, history.aliases[locator].key)
      requires target == KeyDigest(hashing, history.aliases[locator].key)
      requires RevokedAt(history, locator) < history.aliases[locator].boundAt || locator in history.forgotten
      modifies store, index, memory
      ensures Valid() && index.Counts()
      ensures index.failures == old(index.failures) && (r.MemoryHit? || r.DiskHit?) ==>
                && !r.error && IsRowServed(r.record, old(index.rows), index.rows, target, access)
                && index.locators == old(index.locators) && store.files == old(store.files)
                && (r.MemoryHit? ==> MemoryCache.Holds(Residents(), target))
                && (r.DiskHit? ==> Displayable(qoi, store.files, target)
                                   && Describes(index.rows[target], target, store.files[target].artifact)
                                   && IsRemembered(target, r.artifact, index.rows[target].access))
      ensures store.files == old(store.files) || store.files == old(store.files) - {target}
      ensures index.failures == old(index.failures) && !(r.MemoryHit? || r.DiskHit?) ==>
                target !in index.rows && locator !in index.locators
      ensures old(index.Calm() && store.outcomes == [] && Servable(target)) ==>
                (r.MemoryHit? || r.DiskHit?) && index.Calm() && store.outcomes == [] && index.failures == old(index.failures)
      ensures r.MemoryHit? || r.DiskHit? ==> Follows(r, locator)
    {
      hide ValidIndex, ValidStore, ValidMemory, OfferedAt, Decodes, View, Hex, ValidDigest, MovesAccess, Residents,
           MemoryCache.Lookup, MemoryCache.Holds, RevokedAt, KeyBytes;
      ghost var key := history.aliases[locator].key;
      DigestIsValid(hashing, KeyBytes(key));
      var record := FindRecord(target);
      if record.None? {
        DropLocator(locator);
        return Miss;
      }
      var resident := FindResident(target);
      if resident.Some? {
        OfferedForKey(hashing, history.offers, key, resident.value);
        var touched := TouchOlder(target, record.value, access);
        return MemoryHit(resident.value, Some(touched), false);
      }
      r := FollowToDisk(locator, target, record.value, access);
    }

    /** What is not in memory is served from its file, if that and the record agree. */
    method FollowToDisk(locator: Bytes, target: Bytes, record: Record, access: i64) returns (r: LookupResult)
      requires Valid() && locator in history.aliases && ValidDigest(locator) && ValidDigest(target)
      requires Hashed(hashing, history.aliases[locator].key)
      requires target == KeyDigest(hashing, history.aliases[locator].key)
      requires RevokedAt(history, locator) < history.aliases[locator].boundAt || locator in history.forgotten
      requires target in index.rows && index.rows[target] == record
      modifies store, index, memory
      ensures Valid() && index.Counts() && !r.MemoryHit?
      ensures index.failures == old(index.failures) && r.DiskHit? ==>
                && !r.error && IsRowServed(r.record, old(index.rows), index.rows, target, access)
                && index.locators == old(index.locators) && store.files == old(store.files)
                && Displayable(qoi, store.files, target)
                && Describes(index.rows[target], target, store.files[target].artifact)
                && IsRemembered(target, r.artifact, index.rows[target].access)
      ensures store.files == old(store.files) || store.files == old(store.files) - {target}
      ensures old(store.outcomes) == [] && !r.DiskHit? ==> target !in store.files
      ensures index.failures == old(index.failures) && !r.DiskHit? ==>
                target !in index.rows && locator !in index.locators
      ensures old(index.Calm() && store.outcomes == []) && Displayable(qoi, old(store.files), target)
              && Describes(record, target, old(store.files)[target].artifact) ==>
                r.DiskHit? && index.Calm() && store.outcomes == [] && index.failures == old(index.failures)
      ensures r.DiskHit? ==> Follows(r, locator)
    {
      hide ValidIndex, ValidStore, ValidMemory, OfferedAt, Decodes, View, Hex, ValidDigest, MovesAccess, Residents,
           MemoryCache.Lookup, MemoryCache.Holds, RevokedAt, KeyBytes;
      ghost var key := history.aliases[locator].key;
      var stored := FindFile(target);
      if !stored.Hit? {
        DropTarget(locator, target);
        return if stored.StoreFailed? then LookupFailed else Miss;
      }
      var artifact := stored.artifact;
      OfferedForKey(hashing, history.offers, key, artifact);
      if !Decodes(qoi, artifact.metadata, artifact.payload) || !Describes(record, target, artifact) {
        var _ := RemoveFile(target);
        DropTarget(locator, target);
        return Miss;
      }
      var touched := TouchOlder(target, record, access);
      Remember(target, artifact, touched.access);
      r := DiskHit(artifact, Some(touched), false);
    }

    /** Only the access moves, exactly when it is due. */
    predicate MovesAccess(before: Record, after: Record, access: i64) {
      after == before.(access := if IsDue(Some(before.access), access) && access >= 0 then access else before.access)
    }

    predicate IsRowServed(record: Option<Record>, before: map<Bytes, Record>, after: map<Bytes, Record>,
                          target: Bytes, access: i64)
    {
      && target in before && target in after && record == Some(after[target])
      && after == before[target := after[target]] && MovesAccess(before[target], after[target], access)
    }

    method TouchOlder(digest: Bytes, record: Record, access: i64) returns (touched: Record)
      requires Valid()
      modifies index
      ensures Valid() && index.Counts() && index.StaysCalm()
      ensures touched == record || touched == record.(access := access)
      ensures touched != record ==> IsDue(Some(record.access), access)
      ensures index.failures == old(index.failures) && RowOf(old(index.rows), digest) == Some(record) && ValidDigest(digest) ==>
                && index.rows == old(index.rows)[digest := touched] && MovesAccess(record, touched, access)
                && index.locators == old(index.locators)
    {
      hide ValidIndex, ValidStore, ValidMemory, ValidDigest;
      touched := record;
      if access >= record.access && access - record.access >= ACCESS_GRANULARITY {
        var result := TouchRecord(digest, access);
        if result == Updated {
          touched := record.(access := access);
        }
      }
    }

    method DropTarget(locator: Bytes, target: Bytes)
      requires Valid() && ValidDigest(target) && ValidDigest(locator)
      modifies index
      ensures Valid() && index.Counts()
      ensures index.failures == old(index.failures) ==> target !in index.rows && locator !in index.locators
    {
      hide ValidIndex, ValidStore, ValidMemory, ValidDigest;
      var _ := EraseRecord(target);
      DropLocator(locator);
    }

    method DropLocator(locator: Bytes)
      requires Valid() && ValidDigest(locator)
      modifies index
      ensures Valid() && index.Counts()
      ensures index.failures == old(index.failures) ==> index.rows == old(index.rows) && locator !in index.locators
    {
      hide ValidStore, ValidMemory, KeepsApart, index.Valid, ValidDigest, SafeLocators;
      ghost var locators := index.locators;
      var _ := index.EraseLocator(locator);
      FewerLocatorsAreSafe(hashing, history, fences, locators, index.locators);
    }

    // ---------------------------------------------------------------- publication

    /** All layers hold what was published; memory only if it is not too large for it. */
    method Publish(q: Request) returns (published: bool)
      requires Valid() && (ShortKey(q.key) ==> Hashed(hashing, q.key))
      modifies this`history, store, index, memory
      ensures Valid() && history == old(history).(offers := history.offers)
      ensures old(history.offers) <= history.offers
      ensures forall o | o in history.offers && o !in old(history.offers) ::
                && o.key == q.key && o.artifact.payload == q.payload && Decodes(qoi, q.metadata, q.payload)
                && ShortKey(q.key) && HasReplaced(old(store.files), store.files, KeyDigest(hashing, q.key), o.artifact)
      ensures published ==> Publishable(qoi, q) && ValidDigest(KeyDigest(hashing, q.key)) && Published(q, old(Residents()))
      ensures old(Calm()) ==> Calm() && published == Publishable(qoi, q)
      ensures old(store.outcomes) == [] && !published ==>
                store.files == old(store.files)
                || (ShortKey(q.key) && store.files == old(store.files) - {KeyDigest(hashing, q.key)})
      ensures forall e | e in memory.entries :: e in old(memory.entries) || fresh(e)
    {
      hide ValidIndex, ValidStore, ValidMemory, OfferedAt, Decodes, View, Hex, ValidDigest, Represents,
           ValidMetadata, ValidIdentity, KeyBytes;
      if !Decodes(qoi, q.metadata, q.payload) || !ShortKey(q.key) {
        return false;
      }
      var raw := hashing.of(KeyBytes(q.key));
      HashIsLong(hashing, KeyBytes(q.key));
      var encoded := Encode(q.metadata, q.payload, raw, q.identity);
      if !encoded.Encoded? {
        return false;
      }
      var artifact := Artifact(encoded.metadata, raw, q.identity, q.payload);
      SameSize(qoi, q.metadata, q.payload, encoded.metadata);
      DigestIsValid(hashing, KeyBytes(q.key));
      RecordIsValid(hashing, q.key, artifact, q.access, q.metadata);
      published := PublishArtifact(q.key, artifact, encoded.bytes, q.access);
    }

    /** File, record and, if the artifact fits there, memory hold it under the digest of its key. */
    ghost predicate Everywhere(key: Key, a: Artifact, access: i64, residents: seq<Resident>)
      reads this, store, index, memory, memory.entries
      requires ShortKey(key) && ValidDigest(KeyDigest(hashing, key))
    {
      var d := KeyDigest(hashing, key);
      && d in store.files && store.files[d] == Holding(a) && Sound(store.files[d], d)
      && d in index.rows && index.rows[d] == KeyRecord(hashing, key, a, access)
      && (if memory.limits.maximumEntries > 0 && Weight(a) <= memory.limits.maximumBytes
          then MemoryCache.Lookup(Residents(), d) == Some(Resident(d, a, access))
          else Residents() == residents)
    }

    ghost predicate Published(q: Request, residents: seq<Resident>)
      reads this, store, index, memory, memory.entries
      requires ShortKey(q.key) && ValidDigest(KeyDigest(hashing, q.key))
    {
      var d := KeyDigest(hashing, q.key);
      && d in store.files && store.files[d].Holding?
      && var a := store.files[d].artifact;
         && a.payload == q.payload && a.identity == q.identity && Offer(q.key, a) in history.offers
         && Decodes(qoi, a.metadata, a.payload)
         && Everywhere(q.key, a, q.access, residents)
    }

    method PublishArtifact(key: Key, artifact: Artifact, encoded: Bytes, access: i64) returns (published: bool)
      requires Valid() && Hashed(hashing, key) && ValidDigest(KeyDigest(hashing, key))
      requires FileFor(encoded, KeyDigest(hashing, key), artifact)
      requires Decodes(qoi, artifact.metadata, artifact.payload)
      modifies this`history, store, index, memory
      ensures Valid() && history == old(history).(offers := history.offers)
      ensures history.offers == old(history.offers)
              || (history.offers == old(history.offers) + {Offer(key, artifact)}
                  && HasReplaced(old(store.files), store.files, KeyDigest(hashing, key), artifact))
      ensures published ==> Offer(key, artifact) in history.offers
      ensures published ==> Everywhere(key, artifact, access, old(Residents()))
      ensures old(store.outcomes) == [] && !published ==> store.files == old(store.files) - {KeyDigest(hashing, key)}
      ensures forall e | e in memory.entries :: e in old(memory.entries) || fresh(e)
      ensures published ==> ValidRecord(KeyRecord(hashing, key, artifact, access))
      ensures old(Calm()) ==> Calm() && published == ValidRecord(KeyRecord(hashing, key, artifact, access))
    {
      hide Sound, ValidIndex, ValidStore, ValidMemory, OfferedAt, Decodes, View, Hex, ValidDigest, KeyBytes, FileFor,
           Represents,
           ValidRecord, RecordOf, PathOf, Weight, MemoryCache.Lookup, KeepsApart;
      var digest := KeyDigest(hashing, key);
      var committed := CommitFile(key, digest, artifact, encoded);
      if !committed {
        return false;
      }
      var record := Describe(key, digest, artifact, access);
      published := PublishRecord(record);
      if !published {
        var _ := RemoveFile(digest);
        return;
      }
      OfferIsOffered(hashing, history.offers, key, artifact);
      Remember(digest, artifact, access);
    }

    /**
     The store decodes the staged bytes again, and finds the artifact that was encoded. From the
     replacement of the file on the artifact counts as offered, whatever is reported of it.
     */
    method CommitFile(key: Key, digest: Bytes, artifact: Artifact, encoded: Bytes) returns (committed: bool)
      requires Valid() && Hashed(hashing, key) && digest == KeyDigest(hashing, key)
      requires FileFor(encoded, digest, artifact)
      modifies this`history, store
      ensures Valid() && (committed ==> Sound(Holding(artifact), digest))
      ensures if store.files == old(store.files) && !committed then history == old(history)
              else && store.files == old(store.files)[digest := Holding(artifact)]
                   && history == old(history).(offers := old(history.offers) + {Offer(key, artifact)})
      ensures old(store.outcomes) == [] ==> committed && store.outcomes == []
    {
      hide OfferedFiles, OfferedResidents, OfferedAt, KeepsApart, Hex, KeyBytes, Represents, index.Valid,
           memory.Valid, View,
           Trustworthy, SafeLocators;
      OnlyFileFor(encoded, digest, artifact);
      ghost var files, y := store.files, history;
      var decoded := store.Commit(digest, encoded);
      committed := decoded.Some?;
      if committed || store.files != files {
        history := y.(offers := y.offers + {Offer(key, artifact)});
        ReplacedIsOffered(hashing, y.offers, files, key, artifact);
        MoreOffers(hashing, qoi, y.offers, history.offers, Residents());
        SameSafety(hashing, y, history, fences, index.locators);
      }
    }

    // ---------------------------------------------------------------- bindings and revocations

    method BindLocator(locator: Locator, key: Key) returns (bound: bool)
      requires Valid() && (ShortKey(key) ==> Hashed(hashing, key))
      requires ShortLocator(locator) ==> HashedLocator(hashing, locator)
      modifies this`history, this`fences, this`outcomes, index
      ensures Valid()
      ensures bound ==> ShortLocator(locator) && ShortKey(key)
      ensures bound ==> var l := LocatorDigest(hashing, locator);
                l !in fences && l in history.aliases && history.aliases[l] == Alias(locator, key, history.clock)
                && RevokedAt(history, l) < history.aliases[l].boundAt && l in index.locators
                && index.locators[l].target == KeyDigest(hashing, key) && Bound(hashing, l, index.locators[l])
      ensures old(Calm()) ==>
                Calm() && index.rows == old(index.rows)
                && bound == (ShortLocator(locator) && ShortKey(key) && KeyDigest(hashing, key) in index.rows)
    {
      hide ValidIndex, ValidStore, ValidMemory, Hex, ValidDigest, KeyBytes, LocatorBytes;
      if !ShortLocator(locator) || !ShortKey(key) {
        return false;
      }
      var l := LocatorDigest(hashing, locator);
      DigestIsValid(hashing, LocatorBytes(locator));
      DigestIsValid(hashing, KeyBytes(key));
      var published := PublishAlias(locator, l, key);
      if !published {
        return false;
      }
      bound := RemoveFence(l);
    }

    method PublishAlias(ghost locator: Locator, l: Bytes, key: Key) returns (published: bool)
      requires Valid() && Hashed(hashing, key) && HashedLocator(hashing, locator) && l == LocatorDigest(hashing, locator)
      modifies this`history, index
      ensures Valid()
      ensures published ==>
                && l in history.aliases && history.aliases[l] == Alias(locator, key, history.clock)
                && RevokedAt(history, l) < history.clock
                && l in index.locators && index.locators[l].target == KeyDigest(hashing, key)
                && Bound(hashing, l, index.locators[l])
      ensures !published ==> history == old(history)
      ensures index.StaysCalm() && (old(index.Calm()) ==> index.rows == old(index.rows))
      ensures old(index.Calm()) && ValidDigest(l) && ValidDigest(KeyDigest(hashing, key)) ==>
                published == (KeyDigest(hashing, key) in index.rows)
    {
      hide ValidStore, ValidMemory, KeepsApart, index.Valid, ValidDigest, Hex, KeyBytes, Trustworthy;
      ghost var locators, y := index.locators, history;
      published := index.PublishLocator(l, KeyDigest(hashing, key));
      if published {
        history := history.(clock := y.clock + 1, aliases := y.aliases[l := Alias(locator, key, y.clock + 1)],
                            lost := y.lost - {l}, forgotten := y.forgotten - {l});
        BoundIsSafe(hashing, y, history, fences, locators, index.locators, locator, l, key);
        SameOffers();
      } else {
        FewerLocatorsAreSafe(hashing, y, fences, locators, index.locators);
      }
    }

    /** A fence may be gone although its removal was reported as failed. */
    method RemoveFence(l: Bytes) returns (removed: bool)
      requires Valid()
      requires l in index.locators && Bound(hashing, l, index.locators[l]) ==>
                 l in history.aliases && RevokedAt(history, l) < history.aliases[l].boundAt
      modifies this`fences, this`outcomes
      ensures Valid() && (removed ==> l !in fences)
      ensures fences == old(fences) - {l} || fences == old(fences)
      ensures old(outcomes) == [] ==> removed && outcomes == [] && fences == old(fences) - {l}
    {
      hide ValidStore, ValidMemory, KeepsApart, index.Valid, Bound;
      var outcome := Meet();
      if outcome != FailsBefore {
        ghost var before := fences;
        fences := fences - {l};
        UnfencedIsSafe(hashing, history, before, fences, index.locators, l);
      }
      removed := outcome == Works;
    }

    /** False also when the fence was written but could not be made durable. */
    method PersistFence(l: Bytes) returns (persisted: bool)
      requires Valid()
      modifies this`fences, this`outcomes
      ensures Valid() && (persisted ==> l in fences) && old(fences) <= fences
      ensures outcomes == Later(old(outcomes)) && (persisted <==> HeadOr(old(outcomes), Works) == Works)
      ensures fences == if HeadOr(old(outcomes), Works) == FailsBefore then old(fences) else old(fences) + {l}
    {
      hide ValidStore, ValidMemory, KeepsApart, index.Valid, Bound;
      var outcome := Meet();
      if outcome != FailsBefore {
        fences := fences + {l};
      }
      persisted := outcome == Works;
    }

    /** The erasure counts from the moment it is asked for, whether or not it succeeds. */
    method EraseLocator(locator: Locator) returns (erased: bool)
      requires Valid()
      modifies this`history, this`fences, this`offline, this`outcomes, index
      ensures Valid() && history.aliases == old(history.aliases) && history.offers == old(history.offers)
      ensures old(outcomes) == [FailsBefore] && old(index.ready) && old(index.outcomes) == [Fails]
              && ShortLocator(locator) ==>
                && outcomes == [] && fences == old(fences) && index.Calm() && !erased
                && LocatorDigest(hashing, locator) in history.lost
                && index.rows == old(index.rows) && index.locators == old(index.locators)
      ensures ShortLocator(locator) ==> var l := LocatorDigest(hashing, locator);
                && RevokedAt(history, l) == history.clock == old(history.clock) + 1
                && l !in history.forgotten && (l in history.lost ==> offline)
                && (l in index.locators ==> l in fences || offline)
      ensures erased ==> ShortLocator(locator) && LocatorDigest(hashing, locator) !in index.locators
      ensures !ShortLocator(locator) ==> offline && fences == old(fences) && unchanged(index)
      ensures ShortLocator(locator) && offline && !old(offline) ==> index.failed && HeadOr(old(outcomes), Works) != Works
      ensures old(Calm()) && ShortLocator(locator) ==> var l := LocatorDigest(hashing, locator);
                && Calm() && offline == old(offline) && fences == old(fences) - {l} && index.rows == old(index.rows)
                && index.locators == old(index.locators) - {l} && erased == (l in old(index.locators))
    {
      hide ValidIndex, ValidStore, ValidMemory, Hex, LocatorBytes;
      if !ShortLocator(locator) {
        offline := true;
        return false;
      }
      var l := LocatorDigest(hashing, locator);
      DigestIsValid(hashing, LocatorBytes(locator));
      var fenced := PersistFence(l);
      erased := RevokeRow(l, fenced);
      if !index.failed {
        var _ := RemoveFence(l);
      }
    }

    /** Deletes the row; if neither that nor the fence worked, locators are no longer followed. */
    method RevokeRow(l: Bytes, fenced: bool) returns (erased: bool)
      requires Valid() && ValidDigest(l) && (fenced ==> l in fences)
      modifies this`history, this`offline, index
      ensures Valid() && (erased ==> !index.failed) && (old(offline) ==> offline)
      ensures RevokedAt(history, l) == history.clock == old(history.clock) + 1
      ensures l !in history.forgotten && (l in history.lost ==> offline)
      ensures !index.failed ==> l !in index.locators
      ensures index.failed && !fenced ==> offline && l in history.lost
      ensures !(index.failed && !fenced) ==> offline == old(offline)
      ensures old(index.Calm()) ==>
                && index.Calm() && !index.failed && index.rows == old(index.rows)
                && index.locators == old(index.locators) - {l} && erased == (l in old(index.locators))
      ensures history.aliases == old(history.aliases) && history.offers == old(history.offers)
      ensures old(index.ready) && old(index.outcomes) == [Fails] ==>
                index.failed && index.Calm() && index.rows == old(index.rows) && index.locators == old(index.locators)
    {
      hide ValidStore, ValidMemory, KeepsApart, index.Valid, ValidDigest, Trustworthy;
      ghost var locators, y := index.locators, history;
      erased := index.EraseLocator(l);
      if index.failed && !fenced {
        offline := true;
      }
      history := history.(clock := y.clock + 1, revokedAt := y.revokedAt[l := y.clock + 1],
                          lost := if index.failed && !fenced then y.lost + {l} else y.lost - {l},
                          forgotten := y.forgotten - {l});
      RevokedIsSafe(hashing, y, history, fences, locators, index.locators, l);
      SameOffers();
    }

    /** What is valid about files and residents depends on the offers only. */
    twostate lemma SameOffers()
      requires old(ValidStore()) && old(ValidMemory()) && history.offers == old(history.offers)
      requires unchanged(store) && unchanged(memory) && unchanged(memory.entries)
      ensures ValidStore() && ValidMemory()
    {
    }

    /** Removes a key from every layer, unless the removal in that layer or in the one before it fails. */
    method Erase(key: Key) returns (erased: bool, ghost removal: Removal)
      requires Valid() && Hashed(hashing, key)
      modifies store, index, memory
      ensures Valid() && !MemoryCache.Holds(Residents(), KeyDigest(hashing, key))
      ensures removal == RemovalFailed ==> store.files == old(store.files) && unchanged(index)
      ensures removal != RemovalFailed ==>
                && store.files == old(store.files) - {KeyDigest(hashing, key)}
                && (!index.failed ==>
                      KeyDigest(hashing, key) !in index.rows
                      && forall l | l in index.locators :: index.locators[l].target != KeyDigest(hashing, key))
      ensures index.failures == old(index.failures) && removal != RemovalFailed ==>
                !index.failed && index.rows == old(index.rows) - {KeyDigest(hashing, key)}
      ensures Residents() == Without(old(Residents()), KeyDigest(hashing, key))
      ensures old(Calm()) ==> Calm() && removal != RemovalFailed && !index.failed
      ensures removal != RemovalFailed && !index.failed && index.wipes == old(index.wipes) ==>
                (erased <==> MemoryCache.Holds(old(Residents()), KeyDigest(hashing, key))
                             || KeyDigest(hashing, key) in old(store.files) || KeyDigest(hashing, key) in old(index.rows))
      ensures !erased ==> !MemoryCache.Holds(old(Residents()), KeyDigest(hashing, key))
    {
      hide ValidIndex, ValidStore, ValidMemory, OfferedAt, Decodes, View, Hex, ValidDigest, KeyBytes;
      var digest := KeyDigest(hashing, key);
      DigestIsValid(hashing, KeyBytes(key));
      erased := ForgetResident(digest);
      var outcome := RemoveFile(digest);
      removal := outcome;
      if outcome == RemovalFailed {
        return;
      }
      var unindexed := EraseRecord(digest);
      erased := erased || outcome == Removed || unindexed;
    }

    /** Pruning takes files, rows and locators away; memory goes when any record or orphan did. */
    method Prune(limits: CacheMaintenance.Limits, scanOrphans: bool) returns (pruning: CacheMaintenance.Pruning)
      requires Valid()
      modifies store, index, memory
      ensures Valid() && fresh(pruning) && pruning.store == store && pruning.index == index && pruning.Valid()
      ensures pruning.limits == limits && pruning.batchLimit == PRUNE_BATCH
      ensures pruning.initial == old(index.rows) && pruning.files == old(store.files)
      ensures if pruning.recordsRemoved != 0 || pruning.orphansRemoved != 0 then memory.entries == []
              else unchanged(memory)
    {
      hide ValidIndex, ValidStore, ValidMemory, KeepsApart, CacheMaintenance.Pruning.Valid;
      IndexIsValid();
      pruning := new CacheMaintenance.Pruning(store, index, limits, PRUNE_BATCH);
      PruneDisk(pruning, scanOrphans);
      if pruning.recordsRemoved != 0 || pruning.orphansRemoved != 0 {
        ForgetAll();
      }
    }

    lemma IndexIsValid()
      requires Valid()
      ensures index.Valid()
    {
      hide ValidStore, ValidMemory, index.Valid, SafeLocators;
    }

    method PruneDisk(pruning: CacheMaintenance.Pruning, scanOrphans: bool)
      requires Valid() && pruning.store == store && pruning.index == index && pruning.Valid()
      requires pruning.IsNew() && pruning.Faultless()
      requires pruning.files == store.files && pruning.locators == index.locators
      modifies pruning, store, index
      ensures Valid() && pruning.Valid()
    {
      hide KeepsApart, OfferedFiles, OfferedResidents, SafeLocators, index.Valid, memory.Valid, AreOldest,
           CacheMaintenance.Pruning.Valid, CacheMaintenance.Pruning.Balanced, CacheMaintenance.Pruning.Conclusive,
           CacheMaintenance.Left, CacheMaintenance.Accounted, CacheMaintenance.Kept, CacheMaintenance.Indexed,
           CacheMaintenance.Within, View;
      ghost var files, locators := store.files, index.locators;
      pruning.Prune(scanOrphans);
      pruning.OnlyLess();
      PrunedIsOffered(hashing, history.offers, files, store.files);
      PrunedIsSafe(hashing, history, fences, locators, index.locators);
    }

    method ForgetAll()
      requires Valid()
      modifies memory
      ensures Valid() && memory.entries == []
    {
      hide ValidIndex, ValidStore, KeepsApart;
      memory.Clear();
      assert Residents() == [];
    }

    // ---------------------------------------------------------------- processes and others

    /** A new process over the same files: an empty memory, and no knowledge of what it lost. */
    method Reopen()
      requires Valid()
      modifies this`history, this`offline, index, memory
      ensures Valid() && !offline && memory.entries == []
      ensures old(index.outcomes) == [] ==>
                index.Calm() && index.rows == old(index.rows) && index.locators == old(index.locators)
      ensures history == old(history).(lost := {}, forgotten := old(history.forgotten) + old(history.lost))
    {
      hide KeepsApart, index.Valid, SafeLocators, OfferedFiles, OfferedResidents, View, memory.Valid;
      ForgetAll();
      ghost var locators, y := index.locators, history;
      index.Reopen();
      offline := false;
      history := history.(lost := {}, forgotten := y.forgotten + y.lost);
      FewerLocatorsAreSafe(hashing, y, fences, locators, index.locators);
      ReopenedIsSafe(hashing, y, history, fences, index.locators);
    }

    /** Others damage or delete artifact files. */
    method FilesChange()
      requires Valid()
      modifies store
      ensures Valid()
    {
      hide ValidIndex, ValidMemory, KeepsApart, OfferedAt, Hex;
      store.Interfere();
    }

    /** Sets what coming operations on revocation files and coming statements of the index will meet. */
    method Foresee(fences: seq<Outcome>, statements: seq<Statement>)
      requires Valid()
      modifies this`outcomes, index`outcomes
      ensures Valid() && outcomes == fences && index.outcomes == statements
    {
      hide KeepsApart, ValidRecord, Bound, Trustworthy, ValidStore, ValidMemory;
      outcomes := fences;
      index.outcomes := statements;
    }

    /** Others damage rows of locators. */
    method LocatorsChange()
      requires Valid()
      modifies index
      ensures Valid()
    {
      hide ValidStore, ValidMemory, KeepsApart, index.Valid, Bound, Trustworthy;
      ghost var locators := index.locators;
      index.Interfere();
      FewerLocatorsAreSafe(hashing, history, fences, locators, index.locators);
    }
  }

  /** Moving a resident to the front does not change which residents there are. */
  lemma FoundResident(before: seq<Resident>, after: seq<Resident>, digest: Bytes)
    requires MemoryCache.Lookup(before, digest).Some?
    requires after == [MemoryCache.Lookup(before, digest).value] + Without(before, digest)
    ensures (forall r | r in after :: r in before) && MemoryCache.Holds(after, digest)
  {
    assert after[0].digest == digest;
  }

  lemma FewerAreOffered(h: Hashing, q: Qoi, offers: set<Offer>, before: seq<Resident>, digest: Bytes)
    requires OfferedResidents(h, q, offers, before)
    ensures OfferedResidents(h, q, offers, Without(before, digest))
  {
    hide OfferedAt, Decodes;
  }

  lemma InsertedAreOffered(h: Hashing, q: Qoi, offers: set<Offer>, before: seq<Resident>, r: Resident, limits: Limits)
    requires OfferedResidents(h, q, offers, before)
    requires OfferedAt(h, offers, r.digest, r.artifact) && Decodes(q, r.artifact.metadata, r.artifact.payload)
    ensures OfferedResidents(h, q, offers, Trimmed([r] + Without(before, r.digest), limits))
  {
  }

  lemma SameArtifactsAreOffered(h: Hashing, q: Qoi, offers: set<Offer>, before: seq<Resident>, after: seq<Resident>)
    requires OfferedResidents(h, q, offers, before) && |after| == |before|
    requires forall i | 0 <= i < |after| ::
               after[i].digest == before[i].digest && after[i].artifact == before[i].artifact
    ensures OfferedResidents(h, q, offers, after)
  {
    hide OfferedAt, Decodes;
    forall r | r in after
      ensures OfferedAt(h, offers, r.digest, r.artifact) && Decodes(q, r.artifact.metadata, r.artifact.payload)
    {
      var i :| 0 <= i < |after| && after[i] == r;
      assert before[i] in before;
    }
  }

  lemma PrunedIsOffered(h: Hashing, offers: set<Offer>, all: map<Bytes, Content>, fewer: map<Bytes, Content>)
    requires OfferedFiles(h, offers, all) && CacheMaintenance.Within(fewer, all)
    ensures OfferedFiles(h, offers, fewer)
  {
    hide OfferedAt, Sound;
  }

  lemma PrunedIsSafe(h: Hashing, y: History, fences: set<Bytes>,
                     all: map<Bytes, LocatorRow>, fewer: map<Bytes, LocatorRow>)
    requires SafeLocators(h, y, fences, all) && CacheMaintenance.Within(fewer, all)
    ensures SafeLocators(h, y, fences, fewer)
  {
    hide Trustworthy, Bound;
  }

  lemma FewerLocatorsAreSafe(h: Hashing, y: History, fences: set<Bytes>,
                             all: map<Bytes, LocatorRow>, fewer: map<Bytes, LocatorRow>)
    requires SafeLocators(h, y, fences, all)
    requires forall l | l in fewer && Bound(h, l, fewer[l]) :: l in all && fewer[l] == all[l]
    ensures SafeLocators(h, y, fences, fewer)
  {
    hide Trustworthy, Bound;
  }

  function AccessIn(rs: seq<Resident>, digest: Bytes): Option<i64> {
    var found := MemoryCache.Lookup(rs, digest);
    if found.None? then None else Some(found.value.access)
  }

  lemma {:induction false} ExchangedAccess(before: seq<Resident>, after: seq<Resident>, digest: Bytes,
                                           exchanged: bool, desired: i64)
    requires |after| == |before| && (exchanged ==> AccessIn(before, digest).Some?)
    requires forall i | 0 <= i < |after| ::
               after[i] == if exchanged && before[i].digest == digest then before[i].(access := desired) else before[i]
    ensures AccessIn(after, digest) == if exchanged then Some(desired) else AccessIn(before, digest)
  {
    if before != [] && before[0].digest != digest {
      assert forall i | 0 <= i < |after[1..]| :: after[1..][i] == after[i + 1] && before[1..][i] == before[i + 1];
      ExchangedAccess(before[1..], after[1..], digest, exchanged, desired);
    }
  }

  /** The record agrees with the artifact in everything but the key's source and the access. */
  predicate Describes(r: Record, digest: Bytes, a: Artifact)
    requires ValidDigest(digest)
  {
    && r.digest == digest && r.metadata == a.metadata && r.identity == a.identity
    && r.path == PathOf(digest) && r.bytes == HeaderLength(a.identity) + |a.payload|
  }

  /** A record describes an artifact if and only if it is the one of that artifact under a key with its source. */
  lemma DescribesMeans(r: Record, k: Key, digest: Bytes, a: Artifact)
    requires ValidDigest(digest) && r.source == k.source
    ensures Describes(r, digest, a) <==> Matches(r, k, digest, a)
  {
    hide ValidDigest, PathOf, HeaderLength;
  }

  lemma HashIsLong(h: Hashing, x: Bytes)
    requires KeepsApart(h)
    ensures |h.of(x)| == 32
  {
  }

  lemma OnlyFileFor(encoded: Bytes, digest: Bytes, a: Artifact)
    requires FileFor(encoded, digest, a)
    ensures forall b | FileFor(encoded, digest, b) :: b == a
  {
    hide Represents, Hex;
    forall b | FileFor(encoded, digest, b)
      ensures b == a
    {
      RepresentsOne(encoded, a, b);
    }
  }

  /** The record of an artifact that could be encoded is valid exactly if its source and time are. */
  lemma RecordIsValid(h: Hashing, k: Key, a: Artifact, access: i64, m: Metadata)
    requires KeepsApart(h) && ShortKey(k) && ValidMetadata(m) && ValidIdentity(a.identity)
    requires |a.payload| <= MAX_ARTIFACT_BYTES && a.metadata == Completed(m, a.payload)
    requires ValidDigest(KeyDigest(h, k))
    ensures ValidRecord(KeyRecord(h, k, a, access))
            <==> ValidSource(k.source) && access >= 0 && HeaderLength(a.identity) + |a.payload| <= MAX_ARTIFACT_BYTES
  {
    hide KeyBytes, ValidSource, ValidIdentity;
  }

  lemma SameSize(q: Qoi, m: Metadata, payload: Bytes, n: Metadata)
    requires Decodes(q, m, payload) && n.width == m.width && n.height == m.height
    ensures Decodes(q, n, payload)
  {
  }

  lemma OfferIsOffered(h: Hashing, offers: set<Offer>, k: Key, a: Artifact)
    requires Offer(k, a) in offers && Hashed(h, k)
    ensures OfferedAt(h, offers, KeyDigest(h, k), a)
  {
    assert Offer(k, a).artifact == a;
  }

  /** The artifact has replaced the file, and at most its removal came after that. */
  predicate HasReplaced(before: map<Bytes, Content>, after: map<Bytes, Content>, digest: Bytes, a: Artifact) {
    after == before[digest := Holding(a)] || after == before - {digest}
  }

  lemma StillOffered(h: Hashing, some: set<Offer>, more: set<Offer>, digest: Bytes, a: Artifact)
    requires OfferedAt(h, some, digest, a) && some <= more
    ensures OfferedAt(h, more, digest, a)
  {
    var o :| o in some && o.artifact == a && Hashed(h, o.key) && KeyDigest(h, o.key) == digest;
    assert o in more;
  }

  lemma ReplacedIsOffered(h: Hashing, offers: set<Offer>, files: map<Bytes, Content>, k: Key, a: Artifact)
    requires OfferedFiles(h, offers, files) && Hashed(h, k)
    ensures OfferedFiles(h, offers + {Offer(k, a)}, files[KeyDigest(h, k) := Holding(a)])
  {
    hide OfferedAt, Hex, KeyBytes;
    var more, after := offers + {Offer(k, a)}, files[KeyDigest(h, k) := Holding(a)];
    forall d | d in after && Sound(after[d], d)
      ensures OfferedAt(h, more, d, after[d].artifact)
    {
      if d == KeyDigest(h, k) {
        OfferIsOffered(h, more, k, a);
      } else {
        StillOffered(h, offers, more, d, files[d].artifact);
      }
    }
  }

  lemma MoreOffers(h: Hashing, q: Qoi, some: set<Offer>, more: set<Offer>, rs: seq<Resident>)
    requires OfferedResidents(h, q, some, rs) && some <= more
    ensures OfferedResidents(h, q, more, rs)
  {
    hide OfferedAt, Decodes;
    forall r | r in rs
      ensures OfferedAt(h, more, r.digest, r.artifact)
    {
      StillOffered(h, some, more, r.digest, r.artifact);
    }
  }

  lemma SameSafety(h: Hashing, y: History, z: History, fences: set<Bytes>, locators: map<Bytes, LocatorRow>)
    requires SafeLocators(h, y, fences, locators) && z == y.(offers := z.offers)
    ensures SafeLocators(h, z, fences, locators)
  {
  }

  lemma BoundIsSafe(h: Hashing, y: History, z: History, fences: set<Bytes>, before: map<Bytes, LocatorRow>,
                    after: map<Bytes, LocatorRow>, locator: Locator, l: Bytes, k: Key)
    requires SafeLocators(h, y, fences, before) && Hashed(h, k)
    requires HashedLocator(h, locator) && l == LocatorDigest(h, locator)
    requires z == y.(clock := y.clock + 1, aliases := y.aliases[l := Alias(locator, k, y.clock + 1)],
                     lost := y.lost - {l}, forgotten := y.forgotten - {l})
    requires l in after && after[l].target == KeyDigest(h, k)
    requires forall x | x in after && x != l :: x in before && after[x] == before[x]
    ensures SafeLocators(h, z, fences, after)
    ensures RevokedAt(z, l) < z.clock
  {
    hide KeyDigest, KeyBytes;
  }

  lemma UnfencedIsSafe(h: Hashing, y: History, fences: set<Bytes>, fewer: set<Bytes>,
                       locators: map<Bytes, LocatorRow>, l: Bytes)
    requires SafeLocators(h, y, fences, locators) && fewer == fences - {l}
    requires l in locators && Bound(h, l, locators[l]) ==> l in y.aliases && RevokedAt(y, l) < y.aliases[l].boundAt
    ensures SafeLocators(h, y, fewer, locators)
  {
    hide KeyDigest, KeyBytes;
  }

  lemma RevokedIsSafe(h: Hashing, y: History, z: History, fences: set<Bytes>, before: map<Bytes, LocatorRow>,
                      after: map<Bytes, LocatorRow>, l: Bytes)
    requires SafeLocators(h, y, fences, before)
    requires forall x | x in after :: x in before && after[x] == before[x]
    requires z == y.(clock := y.clock + 1, revokedAt := y.revokedAt[l := y.clock + 1],
                     lost := z.lost, forgotten := y.forgotten - {l})
    requires z.lost == y.lost + {l} || z.lost == y.lost - {l}
    requires l in after ==> l in fences || l in z.lost
    ensures SafeLocators(h, z, fences, after)
  {
    hide KeyDigest, KeyBytes;
  }

  lemma ReopenedIsSafe(h: Hashing, y: History, z: History, fences: set<Bytes>, locators: map<Bytes, LocatorRow>)
    requires SafeLocators(h, y, fences, locators)
    requires z == y.(lost := {}, forgotten := y.forgotten + y.lost)
    ensures SafeLocators(h, z, fences, locators)
  {
    hide KeyDigest, KeyBytes;
  }
}
