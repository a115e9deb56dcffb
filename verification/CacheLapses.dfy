/**
 Whole runs of the cache: what is published comes back from the disk; and runs in which it does less
 than one might expect, pruning that stops over its limits or loses sight of a file, an older artifact
 that is served again, and an erased locator that is.
 */
module CacheLapses {
  import opened Bytes
  import opened CacheKey
  import opened ArtifactCodec
  import opened ArtifactIndex
  import opened ArtifactStore
  import opened ThumbnailCache
  import CacheMaintenance
  import MemoryCache

  /** A count that fails reads as zero, and the record that is one too many stays. */
  method StopsOverTheLimit(hashing: Hashing, record: Record, content: Content)
    returns (pruning: CacheMaintenance.Pruning)
    requires ValidRecord(record)
    ensures pruning.error == CacheMaintenance.NoError && pruning.limits.maximumEntries == 0
    ensures pruning.index.rows == map[record.digest := record] && !pruning.WithinLimits()
  {
    hide ValidRecord;
    pruning := PruneAll(hashing, record, content, [Fails]);
    assert |map[record.digest := record]| == 1;
  }

  /** A recovery during the count empties the table: the file stays, and no row accounts for it. */
  method LosesSight(hashing: Hashing, record: Record, content: Content) returns (pruning: CacheMaintenance.Pruning)
    requires ValidRecord(record)
    ensures pruning.error == CacheMaintenance.NoError
    ensures record.digest in pruning.store.files && record.digest in pruning.initial
    ensures record.digest !in pruning.index.rows
  {
    hide ValidRecord;
    pruning := PruneAll(hashing, record, content, [Corrupt(true, true)]);
  }

  /** Prunes a cache of one file and its record to nothing. */
  method PruneAll(hashing: Hashing, record: Record, content: Content, outcomes: seq<Statement>)
    returns (pruning: CacheMaintenance.Pruning)
    requires ValidRecord(record)
    ensures pruning.initial == map[record.digest := record] && pruning.limits.maximumEntries == 0
    ensures outcomes == [Fails] ==>
              pruning.error == CacheMaintenance.NoError && pruning.index.rows == pruning.initial
    ensures outcomes == [Corrupt(true, true)] ==>
              pruning.error == CacheMaintenance.NoError && pruning.index.rows == map[]
              && pruning.store.files == map[record.digest := content]
  {
    hide ValidRecord, TotalBytes, AreOldest, CacheMaintenance.Accounted, CacheMaintenance.Kept,
         CacheMaintenance.Indexed,
         CacheMaintenance.Left, CacheMaintenance.Pruning.Valid, CacheMaintenance.Pruning.Balanced,
         CacheMaintenance.Pruning.Conclusive, CacheMaintenance.Pruning.OnlyEntriesExceed, BindingOf;
    var store := new ArtifactStore(map[record.digest := content], []);
    var index := new ArtifactIndex(hashing, []);
    var published := index.Publish(record);
    index.outcomes := outcomes;
    var weight := SumUp(index.rows);
    var limits := CacheMaintenance.Limits(0, weight, 0, 0, 0);
    pruning := new CacheMaintenance.Pruning(store, index, limits, 256);
    pruning.Prune(false);
  }

  /** A new cache with one publication. */
  method PublishFirst(hashing: Hashing, qoi: Qoi, limits: MemoryCache.Limits, q: Request)
    returns (cache: PersistentThumbnailCache)
    requires KeepsApart(hashing) && Publishable(qoi, q) && ShortKey(q.key) && Hashed(hashing, q.key)
    ensures fresh(cache) && fresh(cache.store) && fresh(cache.index) && fresh(cache.memory)
    ensures forall e | e in cache.memory.entries :: fresh(e)
    ensures cache.Valid() && cache.Calm() && cache.hashing == hashing && cache.qoi == qoi && !cache.offline
    ensures cache.memory.limits == limits
    ensures ValidDigest(KeyDigest(hashing, q.key)) && cache.Published(q, [])
    ensures limits.maximumEntries > 0 && HEADER_BYTES + |q.payload| <= limits.maximumBytes ==>
              Remembers(cache, KeyDigest(hashing, q.key), q.payload)
  {
    hide Decodes, Publishable, KeyBytes, ValidDigest, Sound, PathOf, KeyRecord, PersistentThumbnailCache.Valid,
         PersistentThumbnailCache.Residents, MemoryCache.Lookup;
    cache := StartEmpty(hashing, qoi, limits);
    var published := cache.Publish(q);
  }

  method StartEmpty(hashing: Hashing, qoi: Qoi, limits: MemoryCache.Limits) returns (cache: PersistentThumbnailCache)
    requires KeepsApart(hashing)
    ensures fresh(cache) && fresh(cache.store) && fresh(cache.index) && fresh(cache.memory)
    ensures cache.memory.entries == [] && cache.Residents() == [] && cache.memory.limits == limits
    ensures cache.Valid() && cache.Calm() && cache.hashing == hashing && cache.qoi == qoi && !cache.offline
  {
    hide KeepsApart, OfferedAt, PersistentThumbnailCache.Valid;
    var store := new ArtifactStore(map[], []);
    cache := new PersistentThumbnailCache(hashing, qoi, store, [], limits, {});
    assert cache.Residents() == [];
  }

  ghost predicate Remembers(cache: PersistentThumbnailCache, digest: Bytes, payload: Bytes)
    reads cache, cache.memory, cache.memory.entries
  {
    && MemoryCache.Lookup(cache.Residents(), digest).Some?
    && MemoryCache.Lookup(cache.Residents(), digest).value.artifact.payload == payload
  }

  /** What is published comes back from the disk in the next process, with its record. */
  method ComesBack(cache: PersistentThumbnailCache, q: Request, access: i64) returns (r: LookupResult)
    requires cache.Valid() && cache.Calm() && Publishable(cache.qoi, q) && Hashed(cache.hashing, q.key)
    modifies cache`history, cache`offline, cache.store, cache.index, cache.memory
    ensures cache.Valid() && cache.Calm()
    ensures r.DiskHit? && !r.error && r.artifact.payload == q.payload
    ensures r.record.Some? && r.record.value.source == q.key.source && r.record.value.digest == KeyDigest(cache.hashing, q.key)
  {
    hide Decodes, Publishable, KeyBytes, ValidDigest, PathOf, MemoryCache.View, MemoryCache.Lookup, cache.Valid,
         HeaderLength;
    var _ := cache.Publish(q);
    cache.Reopen();
    assert !MemoryCache.Holds(cache.Residents(), KeyDigest(cache.hashing, q.key)) by {
      assert cache.Residents() == [];
    }
    r := cache.Lookup(q.key, access);
  }

  /** A publication that is too large for the memory replaces the record only. */
  method PublishTooLarge(cache: PersistentThumbnailCache, q: Request, ghost payload: Bytes)
    requires cache.Valid() && cache.Calm() && Publishable(cache.qoi, q) && ShortKey(q.key) && Hashed(cache.hashing, q.key)
    requires HEADER_BYTES + |q.payload| > cache.memory.limits.maximumBytes
    requires Remembers(cache, KeyDigest(cache.hashing, q.key), payload)
    modifies cache`history, cache.store, cache.index, cache.memory
    ensures cache.Valid() && cache.Calm() && Remembers(cache, KeyDigest(cache.hashing, q.key), payload)
    ensures forall e | e in cache.memory.entries :: e in old(cache.memory.entries) || fresh(e)
    ensures KeyDigest(cache.hashing, q.key) in cache.index.rows
    ensures FileHolds(cache.store, KeyDigest(cache.hashing, q.key), q.payload)
  {
    hide Decodes, Publishable, KeyBytes, ValidDigest, Sound, PathOf, MemoryCache.View, MemoryCache.Lookup, cache.Valid,
         cache.Residents;
    var _ := cache.Publish(q);
  }

  predicate FileHolds(store: ArtifactStore, digest: Bytes, payload: Bytes)
    reads store
  {
    digest in store.files && store.files[digest].Holding? && store.files[digest].artifact.payload == payload
  }

  method PublishBoth(hashing: Hashing, qoi: Qoi, limits: MemoryCache.Limits, older: Request, newer: Request)
    returns (cache: PersistentThumbnailCache)
    requires KeepsApart(hashing) && older.key == newer.key && Publishable(qoi, older) && Publishable(qoi, newer)
    requires ShortKey(older.key) && Hashed(hashing, older.key)
    requires limits.maximumEntries > 0 && HEADER_BYTES + |older.payload| <= limits.maximumBytes
    requires HEADER_BYTES + |newer.payload| > limits.maximumBytes
    ensures fresh(cache) && fresh(cache.store) && fresh(cache.index) && fresh(cache.memory)
    ensures forall e | e in cache.memory.entries :: fresh(e)
    ensures cache.Valid() && cache.Calm() && cache.hashing == hashing
    ensures Remembers(cache, KeyDigest(hashing, newer.key), older.payload)
    ensures KeyDigest(hashing, newer.key) in cache.index.rows
    ensures FileHolds(cache.store, KeyDigest(hashing, newer.key), newer.payload)
  {
    hide Decodes, Publishable, KeyBytes, ValidDigest, Sound, PathOf, MemoryCache.View, MemoryCache.Lookup,
         MemoryCache.Holds,
         KeepsApart;
    cache := PublishFirst(hashing, qoi, limits, older);
    hide cache.Valid, cache.Residents;
    PublishTooLarge(cache, newer, older.payload);
  }

  /**
   After a publication that is too large for the memory, lookups go on to serve the older artifact,
   although nothing failed.
   */
  method ServesTheOlder(hashing: Hashing, qoi: Qoi, limits: MemoryCache.Limits, older: Request, newer: Request)
    returns (cache: PersistentThumbnailCache, r: LookupResult)
    requires KeepsApart(hashing) && older.key == newer.key && Publishable(qoi, older) && Publishable(qoi, newer)
    requires ShortKey(older.key) && Hashed(hashing, older.key)
    requires limits.maximumEntries > 0 && HEADER_BYTES + |older.payload| <= limits.maximumBytes
    requires HEADER_BYTES + |newer.payload| > limits.maximumBytes
    ensures cache.Valid() && r.MemoryHit? && r.artifact.payload == older.payload != newer.payload
    ensures FileHolds(cache.store, KeyDigest(hashing, newer.key), newer.payload)
  {
    hide Decodes, Publishable, KeyBytes, ValidDigest, Sound, PathOf, MemoryCache.View, MemoryCache.Lookup,
         MemoryCache.Holds,
         KeepsApart;
    cache := PublishBoth(hashing, qoi, limits, older, newer);
    hide cache.Valid, cache.Residents, cache.Agree, cache.Found;
    r := cache.Lookup(newer.key, newer.access);
  }

  /** The file and the record of a digest are in order. */
  ghost predicate OnDisk(cache: PersistentThumbnailCache, digest: Bytes)
    reads cache, cache.store, cache.index
  {
    && ValidDigest(digest) && digest in cache.index.rows && SoundFile(cache.store.files, digest)
    && Decodes(cache.qoi, cache.store.files[digest].artifact.metadata, cache.store.files[digest].artifact.payload)
    && Describes(cache.index.rows[digest], digest, cache.store.files[digest].artifact)
  }

  /** A locator bound to a key that is on disk. */
  ghost predicate BoundTo(cache: PersistentThumbnailCache, l: Bytes, target: Bytes)
    reads cache, cache.store, cache.index
  {
    && l in cache.index.locators && cache.index.locators[l].target == target && OnDisk(cache, target)
    && Bound(cache.hashing, l, cache.index.locators[l])
    && l !in cache.fences && l in cache.history.aliases && cache.history.aliases[l].boundAt <= cache.history.clock
  }

  /** The last erasure of the locator came after its last binding. */
  ghost predicate IsErased(cache: PersistentThumbnailCache, locator: Locator)
    reads cache`history
  {
    && ShortLocator(locator) && LocatorDigest(cache.hashing, locator) in cache.history.aliases
    && var l := LocatorDigest(cache.hashing, locator);
       cache.history.aliases[l].boundAt < RevokedAt(cache.history, l)
  }

  /** The cache works, nothing will fail, and the locator leads to what is on disk. */
  ghost predicate Stands(cache: PersistentThumbnailCache, locator: Locator, target: Bytes)
    reads cache, cache.store, cache.index, cache.memory, cache.memory.entries
  {
    && cache.Valid() && cache.Calm() && HashedLocator(cache.hashing, locator)
    && ValidDigest(LocatorDigest(cache.hashing, locator))
    && BoundTo(cache, LocatorDigest(cache.hashing, locator), target)
  }

  lemma PublishedIsOnDisk(cache: PersistentThumbnailCache, q: Request)
    requires ShortKey(q.key) && ValidDigest(KeyDigest(cache.hashing, q.key)) && cache.Published(q, [])
    ensures OnDisk(cache, KeyDigest(cache.hashing, q.key))
  {
    hide Decodes, KeyBytes, ValidDigest, Sound, PathOf, PersistentThumbnailCache.Residents, MemoryCache.Lookup;
  }

  method BindFirst(hashing: Hashing, qoi: Qoi, limits: MemoryCache.Limits, q: Request, locator: Locator)
    returns (cache: PersistentThumbnailCache)
    requires KeepsApart(hashing) && Publishable(qoi, q) && ShortKey(q.key) && Hashed(hashing, q.key)
    requires HashedLocator(hashing, locator)
    ensures fresh(cache) && fresh(cache.store) && fresh(cache.index) && fresh(cache.memory)
    ensures cache.hashing == hashing && Stands(cache, locator, KeyDigest(hashing, q.key))
  {
    hide Decodes, Publishable, KeyBytes, LocatorBytes, ValidDigest, Sound, PathOf, KeepsApart, MemoryCache.Lookup,
         PersistentThumbnailCache.Valid, PersistentThumbnailCache.Residents, Hex, RecordOf;
    DigestIsValid(hashing, LocatorBytes(locator));
    cache := PublishFirst(hashing, qoi, limits, q);
    PublishedIsOnDisk(cache, q);
    hide OnDisk, PersistentThumbnailCache.Published;
    var bound := cache.BindLocator(locator, q.key);
  }

  /** Neither the row nor the fence of an erasure works; then the process ends. */
  method EraseInVain(cache: PersistentThumbnailCache, locator: Locator, ghost target: Bytes)
    requires Stands(cache, locator, target)
    modifies cache, cache.index, cache.memory
    ensures Stands(cache, locator, target) && !cache.offline && cache.memory.entries == []
    ensures IsErased(cache, locator)
  {
    hide Decodes, KeyBytes, LocatorBytes, ValidDigest, Sound, PathOf, cache.Valid, cache.Residents, Hex,
         MemoryCache.Lookup;
    cache.Foresee([FailsBefore], [Fails]);
    var erased := cache.EraseLocator(locator);
    cache.Reopen();
  }

  lemma BoundIsReachable(cache: PersistentThumbnailCache, l: Bytes, target: Bytes)
    requires BoundTo(cache, l, target) && !cache.offline && ValidDigest(l)
    ensures cache.Reachable(l) && l in cache.history.aliases
  {
    hide Decodes, ValidDigest, Sound, PathOf, Bound, PersistentThumbnailCache.Residents, Describes;
  }

  method LookupBound(cache: PersistentThumbnailCache, locator: Locator, access: i64, ghost target: Bytes)
    returns (r: LookupResult)
    requires Stands(cache, locator, target) && !cache.offline
    modifies cache`outcomes, cache.store, cache.index, cache.memory
    ensures cache.Valid() && (r.MemoryHit? || r.DiskHit?)
  {
    hide Decodes, LocatorBytes, ValidDigest, Hex, PersistentThumbnailCache.Valid, PersistentThumbnailCache.Residents,
         PersistentThumbnailCache.Reachable, BoundTo, PersistentThumbnailCache.Follows;
    BoundIsReachable(cache, LocatorDigest(cache.hashing, locator), target);
    r := cache.LookupLocator(locator, access);
  }

  /** Row and fence both fail in an erasure: after a reopen the locator is followed as if it had not been. */
  method FollowsTheErased(hashing: Hashing, qoi: Qoi, limits: MemoryCache.Limits, q: Request, locator: Locator)
    returns (cache: PersistentThumbnailCache, r: LookupResult)
    requires KeepsApart(hashing) && Publishable(qoi, q) && ShortKey(q.key) && Hashed(hashing, q.key)
    requires HashedLocator(hashing, locator)
    ensures cache.Valid() && (r.MemoryHit? || r.DiskHit?) && IsErased(cache, locator)
  {
    hide *;
    cache := BindFirst(hashing, qoi, limits, q, locator);
    EraseInVain(cache, locator, KeyDigest(hashing, q.key));
    r := LookupBound(cache, locator, q.access, KeyDigest(hashing, q.key));
  }
}
