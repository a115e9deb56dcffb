/**
 The memory layer: a recency list of artifacts, found through a map, kept within an entry and a
 byte limit. The list is a sequence of entry objects, the most recent first.
 */
module MemoryCache {
  import opened Bytes
  import opened ArtifactCodec
  import opened CacheKey

  datatype Limits = Limits(maximumEntries: nat, maximumBytes: nat)

  datatype Stats = Stats(entries: nat, bytes: nat, hits: nat, misses: nat, evictions: nat)

  /** What one entry holds. */
  datatype Resident = Resident(digest: Bytes, artifact: Artifact, access: i64)

  // ---------------------------------------------------------------- the recency list as a value

  function Weight(a: Artifact): nat {
    HEADER_BYTES + |a.payload|
  }

  /** An artifact weighs as much as its file, without the names of its color profile. */
  lemma WeightIsFileLength(file: Bytes, a: Artifact)
    requires Represents(file, a)
    ensures |file| == Weight(a) + |a.identity.name| + |a.identity.fingerprint|
  {
  }

  function Total(rs: seq<Resident>): nat {
    if rs == [] then 0 else Total(rs[..|rs| - 1]) + Weight(rs[|rs| - 1].artifact)
  }

  predicate Fits(rs: seq<Resident>, limits: Limits) {
    |rs| <= limits.maximumEntries && Total(rs) <= limits.maximumBytes
  }

  predicate DistinctDigests(rs: seq<Resident>) {
    forall i, j | 0 <= i < j < |rs| :: rs[i].digest != rs[j].digest
  }

  predicate Holds(rs: seq<Resident>, digest: Bytes) {
    exists i | 0 <= i < |rs| :: rs[i].digest == digest
  }

  function Without(rs: seq<Resident>, digest: Bytes): (r: seq<Resident>)
    ensures |r| <= |rs| && forall x | x in r :: x in rs && x.digest != digest
  {
    if rs == [] then []
    else (if rs[0].digest == digest then [] else [rs[0]]) + Without(rs[1..], digest)
  }

  function Lookup(rs: seq<Resident>, digest: Bytes): (r: Option<Resident>)
    ensures r.None? <==> !Holds(rs, digest)
    ensures r.Some? ==> r.value in rs && r.value.digest == digest
  {
    if rs == [] then None
    else if rs[0].digest == digest then Some(rs[0])
    else
      assert forall i | 0 < i < |rs| :: rs[i] == rs[1..][i - 1];
      Lookup(rs[1..], digest)
  }

  /** Evicting from the end until the limits hold. */
  function Trimmed(rs: seq<Resident>, limits: Limits): (r: seq<Resident>)
    ensures r <= rs && (Fits(r, limits) || r == [])
  {
    if rs == [] || Fits(rs, limits) then rs else Trimmed(rs[..|rs| - 1], limits)
  }

  lemma NothingWeighsNothing()
    ensures Total([]) == 0
  {
  }

  /** No longer beginning of the list would fit. */
  lemma {:induction false} TrimmedIsLongest(rs: seq<Resident>, limits: Limits, n: nat)
    requires n <= |rs| && Fits(rs[..n], limits)
    ensures n <= |Trimmed(rs, limits)| && Fits(Trimmed(rs, limits), limits)
  {
    if rs == [] || Fits(rs, limits) {
      assert Trimmed(rs, limits) == rs;
      assert rs == [] ==> rs[..n] == rs;
    } else {
      assert rs[..|rs|] == rs;
      assert rs[..|rs| - 1][..n] == rs[..n];
      TrimmedIsLongest(rs[..|rs| - 1], limits, n);
    }
  }

  /** An artifact that fits on its own is never evicted by its own insertion. */
  lemma FirstStays(r: Resident, rest: seq<Resident>, limits: Limits)
    requires limits.maximumEntries > 0 && Weight(r.artifact) <= limits.maximumBytes
    ensures Trimmed([r] + rest, limits) != [] && Trimmed([r] + rest, limits)[0] == r
    ensures Fits(Trimmed([r] + rest, limits), limits)
  {
    assert ([r] + rest)[..1] == [r];
    assert [r][..0] == [];
    assert Total([r]) == Weight(r.artifact);
    TrimmedIsLongest([r] + rest, limits, 1);
  }

  lemma {:induction false} TotalInFront(r: Resident, rest: seq<Resident>)
    ensures Total([r] + rest) == Weight(r.artifact) + Total(rest)
  {
    if rest == [] {
      assert [r] + rest == [r] && [r][..0] == [];
    } else {
      assert ([r] + rest)[..|rest|] == [r] + rest[..|rest| - 1];
      TotalInFront(r, rest[..|rest| - 1]);
    }
  }

  lemma {:induction false} WithoutNothing(rs: seq<Resident>, digest: Bytes)
    requires !Holds(rs, digest)
    ensures Without(rs, digest) == rs
  {
    if rs != [] {
      assert forall i | 0 <= i < |rs| - 1 :: rs[1..][i] == rs[i + 1];
      WithoutNothing(rs[1..], digest);
    }
  }

  lemma {:induction false} WithoutIsDistinct(rs: seq<Resident>, digest: Bytes)
    requires DistinctDigests(rs)
    ensures DistinctDigests(Without(rs, digest)) && !Holds(Without(rs, digest), digest)
  {
    if rs != [] {
      var rest := Without(rs[1..], digest);
      WithoutIsDistinct(rs[1..], digest);
      forall i | 0 <= i < |rest|
        ensures rest[i].digest != rs[0].digest
      {
        assert rest[i] in rest && rest[i] in rs[1..];
      }
    }
  }

  /** Taking one digest out takes its weight out. */
  lemma {:induction false} TotalWithout(rs: seq<Resident>, digest: Bytes)
    requires DistinctDigests(rs)
    ensures Lookup(rs, digest).None? ==> Without(rs, digest) == rs
    ensures Lookup(rs, digest).Some? ==>
              && |Without(rs, digest)| == |rs| - 1
              && Total(Without(rs, digest)) + Weight(Lookup(rs, digest).value.artifact) == Total(rs)
  {
    hide Total;
    if rs != [] {
      var rest := rs[1..];
      assert rs == [rs[0]] + rest;
      TotalInFront(rs[0], rest);
      if rs[0].digest == digest {
        assert !Holds(rest, digest);
        WithoutNothing(rest, digest);
        assert Without(rs, digest) == rest;
      } else {
        TotalWithout(rest, digest);
        TotalInFront(rs[0], Without(rest, digest));
      }
    }
  }

  /** The last of a list of distinct digests. */
  lemma {:induction false} WithoutLast(rs: seq<Resident>)
    requires rs != [] && DistinctDigests(rs)
    ensures Without(rs, rs[|rs| - 1].digest) == rs[..|rs| - 1]
    decreases |rs|
  {
    if |rs| > 1 {
      WithoutLast(rs[1..]);
      assert rs[..|rs| - 1] == [rs[0]] + rs[1..][..|rs| - 2];
    } else {
      assert rs[1..] == [];
    }
  }

  lemma LookupFirst(rs: seq<Resident>, r: Resident)
    requires rs != [] && rs[0] == r
    ensures Lookup(rs, r.digest) == Some(r)
  {
  }

  lemma {:induction false} LookupIs(rs: seq<Resident>, r: Resident)
    requires DistinctDigests(rs) && r in rs
    ensures Lookup(rs, r.digest) == Some(r)
  {
    if rs[0] != r {
      assert r in rs[1..];
      LookupIs(rs[1..], r);
    }
  }

  // ---------------------------------------------------------------- the objects

  class Entry {
    const digest: Bytes
    const artifact: Artifact
    const weight: nat
    var access: i64

    constructor (digest: Bytes, artifact: Artifact, weight: nat, access: i64)
      ensures this.digest == digest && this.artifact == artifact && this.weight == weight && this.access == access
    {
      this.digest, this.artifact, this.weight, this.access := digest, artifact, weight, access;
    }
  }

  ghost function View(es: seq<Entry>): (rs: seq<Resident>)
    reads es
    ensures |rs| == |es|
    ensures forall i | 0 <= i < |es| :: rs[i] == Resident(es[i].digest, es[i].artifact, es[i].access)
  {
    if es == [] then [] else [Resident(es[0].digest, es[0].artifact, es[0].access)] + View(es[1..])
  }

  function Removed(es: seq<Entry>, e: Entry): (r: seq<Entry>)
    ensures (forall x | x in r :: x in es && x != e) && (forall x | x in es && x != e :: x in r)
  {
    if es == [] then [] else (if es[0] == e then [] else [es[0]]) + Removed(es[1..], e)
  }

  lemma {:induction false} ViewRemoved(es: seq<Entry>, e: Entry)
    requires e in es && DistinctDigests(View(es))
    ensures View(Removed(es, e)) == Without(View(es), e.digest)
  {
    var rest, rs := es[1..], View(es);
    ViewRest(es);
    RemovedStep(es, e);
    WithoutStep(rs, e.digest);
    if es[0] == e {
      FirstIsAlone(es);
      hide *;
      NothingRemoved(rest, e);
      WithoutNothing(View(rest), e.digest);
    } else {
      OthersDiffer(es, e);
      hide *;
      ViewRemoved(rest, e);
      ViewPushed(Removed(rest, e), es[0]);
    }
  }

  lemma ViewRest(es: seq<Entry>)
    requires es != []
    ensures View(es)[1..] == View(es[1..])
    ensures View(es)[0] == Resident(es[0].digest, es[0].artifact, es[0].access)
  {
  }

  lemma RemovedStep(es: seq<Entry>, e: Entry)
    requires es != []
    ensures Removed(es, e) == if es[0] == e then Removed(es[1..], e) else [es[0]] + Removed(es[1..], e)
  {
  }

  lemma WithoutStep(rs: seq<Resident>, digest: Bytes)
    requires rs != []
    ensures Without(rs, digest)
         == if rs[0].digest == digest then Without(rs[1..], digest) else [rs[0]] + Without(rs[1..], digest)
  {
  }

  lemma OthersDiffer(es: seq<Entry>, e: Entry)
    requires e in es && es[0] != e && DistinctDigests(View(es))
    ensures es[0].digest != e.digest && e in es[1..] && DistinctDigests(View(es)[1..])
  {
    var i :| 0 <= i < |es| && es[i] == e;
    assert View(es)[0].digest != View(es)[i].digest;
    hide View;
  }

  lemma FirstIsAlone(es: seq<Entry>)
    requires es != [] && DistinctDigests(View(es))
    ensures es[0] !in es[1..] && !Holds(View(es)[1..], es[0].digest)
  {
    var rs := View(es);
    forall i | 0 < i < |es|
      ensures es[i] != es[0] && rs[i].digest != es[0].digest
    {
      assert rs[i].digest != rs[0].digest;
    }
    hide View;
  }

  lemma {:induction false} NothingRemoved(es: seq<Entry>, e: Entry)
    requires e !in es
    ensures Removed(es, e) == es
  {
    if es != [] {
      NothingRemoved(es[1..], e);
    }
  }

  /** The map leads from each digest to the entry that has it. */
  ghost predicate Mapped(es: seq<Entry>, byDigest: map<Bytes, Entry>) {
    && (forall e | e in es :: e.digest in byDigest && byDigest[e.digest] == e && e.weight == Weight(e.artifact))
    && (forall d | d in byDigest :: byDigest[d] in es && byDigest[d].digest == d)
  }

  ghost predicate Coherent(es: seq<Entry>, byDigest: map<Bytes, Entry>, stats: Stats)
    reads es
  {
    && DistinctDigests(View(es)) && Mapped(es, byDigest)
    && stats.entries == |es| && stats.bytes == Total(View(es))
  }

  lemma PushedIsMapped(es: seq<Entry>, byDigest: map<Bytes, Entry>, e: Entry)
    requires Mapped(es, byDigest) && e.digest !in byDigest && e.weight == Weight(e.artifact)
    ensures Mapped([e] + es, byDigest[e.digest := e])
  {
    var all, updated := [e] + es, byDigest[e.digest := e];
    forall x | x in all
      ensures x.digest in updated && updated[x.digest] == x && x.weight == Weight(x.artifact)
    {
      assert x == e || x in es;
    }
    forall d | d in updated
      ensures updated[d] in all && updated[d].digest == d
    {
      assert d == e.digest || d in byDigest;
    }
  }

  lemma PushedIsCoherent(es: seq<Entry>, byDigest: map<Bytes, Entry>, stats: Stats, e: Entry)
    requires Coherent(es, byDigest, stats) && e.digest !in byDigest && e.weight == Weight(e.artifact)
    ensures View([e] + es) == [Resident(e.digest, e.artifact, e.access)] + View(es)
    ensures Coherent([e] + es, byDigest[e.digest := e],
                     stats.(entries := |es| + 1, bytes := stats.bytes + e.weight))
  {
    ViewPushed(es, e);
    var r := Resident(e.digest, e.artifact, e.access);
    TotalInFront(r, View(es));
    PushedIsMapped(es, byDigest, e);
    assert forall i | 0 <= i < |es| :: es[i] in es && View(es)[i].digest != e.digest;
    hide Total, View, Mapped;
    PushedIsDistinct(r, View(es));
  }

  lemma PushedIsDistinct(r: Resident, rs: seq<Resident>)
    requires DistinctDigests(rs) && forall i | 0 <= i < |rs| :: rs[i].digest != r.digest
    ensures DistinctDigests([r] + rs)
  {
  }

  lemma RemovedIsCoherent(es: seq<Entry>, byDigest: map<Bytes, Entry>, stats: Stats, e: Entry)
    requires Coherent(es, byDigest, stats) && e in es
    ensures View(Removed(es, e)) == Without(View(es), e.digest)
    ensures stats.bytes - e.weight == Total(Without(View(es), e.digest)) >= 0
    ensures Coherent(Removed(es, e), byDigest - {e.digest},
                     stats.(bytes := stats.bytes - e.weight, entries := |Removed(es, e)|))
  {
    hide Total, Without, Lookup, View, Removed;
    ViewRemoved(es, e);
    EntryIsFound(es, e);
    TotalWithout(View(es), e.digest);
    WithoutIsDistinct(View(es), e.digest);
    RemovedIsMapped(es, byDigest, e);
    hide Mapped;
  }

  lemma EntryIsFound(es: seq<Entry>, e: Entry)
    requires e in es && DistinctDigests(View(es))
    ensures Lookup(View(es), e.digest) == Some(Resident(e.digest, e.artifact, e.access))
  {
    var i :| 0 <= i < |es| && es[i] == e;
    assert View(es)[i] in View(es);
    hide View;
    LookupIs(View(es), Resident(e.digest, e.artifact, e.access));
  }

  lemma RemovedIsMapped(es: seq<Entry>, byDigest: map<Bytes, Entry>, e: Entry)
    requires Mapped(es, byDigest) && e in es
    ensures e.weight == Weight(e.artifact) && Mapped(Removed(es, e), byDigest - {e.digest})
  {
    hide Removed;
  }

  lemma ViewPushed(es: seq<Entry>, e: Entry)
    ensures View([e] + es) == [Resident(e.digest, e.artifact, e.access)] + View(es)
  {
  }

  lemma TrimmedStep(rs: seq<Resident>, limits: Limits)
    ensures Fits(rs, limits) || rs == [] ==> Trimmed(rs, limits) == rs
    ensures !Fits(rs, limits) && rs != [] ==> Trimmed(rs, limits) == Trimmed(rs[..|rs| - 1], limits)
  {
  }

  class MemoryArtifactCache {
    const limits: Limits
    var entries: seq<Entry>
    var byDigest: map<Bytes, Entry>
    var stats: Stats

    /** List and map hold the same entries, once each, and the totals are exact. */
    ghost predicate Consistent()
      reads this, entries
    {
      Coherent(entries, byDigest, stats)
    }

    ghost predicate Valid()
      reads this, entries
    {
      Consistent() && Fits(View(entries), limits)
    }

    constructor (limits: Limits)
      ensures Valid() && entries == [] && this.limits == limits
    {
      this.limits := limits;
      entries, byDigest, stats := [], map[], Stats(0, 0, 0, 0, 0);
    }

    method Find(digest: Bytes) returns (found: Option<Artifact>)
      requires Valid()
      modifies this
      ensures Valid()
      ensures found.Some? <==> Lookup(old(View(entries)), digest).Some?
      ensures found.Some? ==>
                && found.value == Lookup(old(View(entries)), digest).value.artifact
                && View(entries) == [Lookup(old(View(entries)), digest).value] + Without(old(View(entries)), digest)
                && stats == old(stats).(hits := old(stats).hits + 1)
      ensures found.None? ==> entries == old(entries) && stats == old(stats).(misses := old(stats).misses + 1)
      ensures forall e | e in entries :: e in old(entries)
    {
      hide Total, Without, Lookup, View, Removed, Trimmed;
      EntryOf(digest);
      if digest !in byDigest {
        stats := stats.(misses := stats.misses + 1);
        return None;
      }
      var entry := byDigest[digest];
      Splice(entry);
      stats := stats.(hits := stats.hits + 1);
      found := Some(entry.artifact);
    }

    /** The entry goes to the front of the list. */
    method Splice(entry: Entry)
      requires Valid() && entry in entries
      modifies `entries
      ensures Valid()
      ensures View(entries) == [Resident(entry.digest, entry.artifact, entry.access)]
                               + Without(old(View(entries)), entry.digest)
      ensures forall e | e in entries :: e in old(entries)
    {
      hide Total, Without, Lookup, View, Removed, Trimmed;
      ghost var before, value := View(entries), Resident(entry.digest, entry.artifact, entry.access);
      EntryOf(entry.digest);
      ViewRemoved(entries, entry);
      TotalWithout(before, entry.digest);
      WithoutIsDistinct(before, entry.digest);
      ViewPushed(Removed(entries, entry), entry);
      TotalInFront(value, Without(before, entry.digest));
      entries := [entry] + Removed(entries, entry);
    }

    /** The map finds what a search of the list would find. */
    lemma EntryOf(digest: Bytes)
      requires Consistent()
      ensures digest in byDigest <==> Lookup(View(entries), digest).Some?
      ensures digest in byDigest ==>
                && byDigest[digest] in entries && byDigest[digest].digest == digest
                && Lookup(View(entries), digest).value
                   == Resident(digest, byDigest[digest].artifact, byDigest[digest].access)
    {
      var rs := View(entries);
      if digest in byDigest {
        var i :| 0 <= i < |entries| && entries[i] == byDigest[digest];
        assert rs[i] in rs;
        LookupIs(rs, rs[i]);
      }
      forall i | 0 <= i < |rs|
        ensures rs[i].digest in byDigest
      {
        assert entries[i] in entries;
      }
    }

    method EraseEntry(entry: Entry)
      requires Consistent() && entry in entries
      modifies this
      ensures Consistent() && View(entries) == Without(old(View(entries)), entry.digest)
      ensures entry !in entries && (forall e | e in entries :: e in old(entries))
      ensures stats == old(stats).(entries := |entries|, bytes := Total(View(entries)))
    {
      hide Total, Without, Lookup, View, Removed, Trimmed, Coherent;
      RemovedIsCoherent(entries, byDigest, stats, entry);
      stats := stats.(bytes := stats.bytes - entry.weight);
      byDigest := byDigest - {entry.digest};
      entries := Removed(entries, entry);
      stats := stats.(entries := |entries|);
    }

    method EvictLast()
      requires Consistent() && entries != []
      modifies this
      ensures Consistent() && View(entries) == old(View(entries))[..|old(entries)| - 1]
      ensures stats.hits == old(stats.hits) && stats.misses == old(stats.misses)
      ensures stats.evictions == old(stats.evictions) + 1 && (forall e | e in entries :: e in old(entries))
    {
      hide Total, Without, Lookup, View, Removed, Trimmed;
      WithoutLast(View(entries));
      EraseEntry(entries[|entries| - 1]);
      stats := stats.(evictions := stats.evictions + 1);
    }

    method EvictToLimits()
      requires Consistent()
      modifies this
      ensures Valid() && View(entries) == Trimmed(old(View(entries)), limits)
      ensures stats.hits == old(stats.hits) && stats.misses == old(stats.misses)
      ensures stats.evictions == old(stats.evictions) + |old(entries)| - |entries|
      ensures forall e | e in entries :: e in old(entries)
    {
      hide Total, Without, Lookup, View, Removed, Trimmed;
      ghost var all := View(entries);
      NothingWeighsNothing();
      while |entries| > limits.maximumEntries || stats.bytes > limits.maximumBytes
        invariant Consistent() && Trimmed(all, limits) == Trimmed(View(entries), limits)
        invariant stats.hits == old(stats.hits) && stats.misses == old(stats.misses)
        invariant stats.evictions == old(stats.evictions) + |old(entries)| - |entries|
        invariant forall e | e in entries :: e in old(entries)
        decreases |entries|
      {
        TrimmedStep(View(entries), limits);
        EvictLast();
      }
      TrimmedStep(View(entries), limits);
    }

    /** After an insertion the residents are the longest beginning of the recency list that fits. */
    method Insert(digest: Bytes, artifact: Option<Artifact>, access: i64) returns (inserted: bool)
      requires Valid()
      modifies this
      ensures Valid()
      ensures inserted <==> artifact.Some? && ValidDigest(digest) && limits.maximumEntries > 0
                            && Weight(artifact.value) <= limits.maximumBytes
      ensures !inserted ==> entries == old(entries) && stats == old(stats)
      ensures inserted ==>
                View(entries) == Trimmed([Resident(digest, artifact.value, access)]
                                         + Without(old(View(entries)), digest), limits)
      ensures inserted ==> Lookup(View(entries), digest) == Some(Resident(digest, artifact.value, access))
      ensures stats.hits == old(stats.hits) && stats.misses == old(stats.misses)
      ensures forall e | e in entries :: e in old(entries) || fresh(e)
    {
      hide Coherent, Total, Without, Lookup, View, Removed, Trimmed, Holds;
      if artifact.None? || !ValidDigest(digest) {
        return false;
      }
      var weight := Weight(artifact.value);
      if limits.maximumEntries == 0 || weight > limits.maximumBytes {
        return false;
      }
      ghost var before := View(entries);
      MakeRoom(digest);
      ghost var rest := View(entries);
      assert rest == Without(before, digest);
      ghost var first := Resident(digest, artifact.value, access);
      PushFront(digest, artifact.value, weight, access);
      FirstStays(first, rest, limits);
      LookupFirst(Trimmed([first] + rest, limits), first);
      EvictToLimits();
      inserted := true;
    }

    /** An earlier entry for the digest is erased. */
    method MakeRoom(digest: Bytes)
      requires Consistent()
      modifies this
      ensures Consistent() && View(entries) == Without(old(View(entries)), digest) && digest !in byDigest
      ensures stats.hits == old(stats.hits) && stats.misses == old(stats.misses)
      ensures forall e | e in entries :: e in old(entries)
    {
      hide Total, Without, Lookup, View, Removed, Trimmed;
      EntryOf(digest);
      TotalWithout(View(entries), digest);
      WithoutIsDistinct(View(entries), digest);
      if digest in byDigest {
        EraseEntry(byDigest[digest]);
      }
      EntryOf(digest);
    }

    method PushFront(digest: Bytes, artifact: Artifact, weight: nat, access: i64)
      requires Consistent() && digest !in byDigest && weight == Weight(artifact)
      modifies this
      ensures Consistent() && View(entries) == [Resident(digest, artifact, access)] + old(View(entries))
      ensures stats.hits == old(stats.hits) && stats.misses == old(stats.misses)
      ensures forall e | e in entries :: e in old(entries) || fresh(e)
    {
      hide Total, View, Coherent;
      var entry := new Entry(digest, artifact, weight, access);
      PushedIsCoherent(entries, byDigest, stats, entry);
      entries := [entry] + entries;
      byDigest := byDigest[digest := entry];
      stats := stats.(entries := |entries|, bytes := stats.bytes + weight);
    }

    method PersistedAccess(digest: Bytes) returns (access: Option<i64>)
      requires Valid()
      ensures access.Some? <==> Lookup(View(entries), digest).Some?
      ensures access.Some? ==> access.value == Lookup(View(entries), digest).value.access
    {
      EntryOf(digest);
      access := if digest in byDigest then Some(byDigest[digest].access) else None;
    }

    /** Writes the new access time only over the one the caller saw. */
    method CompareExchangePersistedAccess(digest: Bytes, expected: i64, desired: i64) returns (exchanged: bool)
      requires Valid()
      modifies entries
      ensures Valid()
      ensures exchanged <==>
              Lookup(old(View(entries)), digest).Some? && Lookup(old(View(entries)), digest).value.access == expected
      ensures |View(entries)| == |old(View(entries))|
      ensures forall i | 0 <= i < |entries| ::
                View(entries)[i] == if exchanged && old(View(entries))[i].digest == digest
                                    then old(View(entries))[i].(access := desired) else old(View(entries))[i]
    {
      hide Total, Without, Lookup, View, Removed, Trimmed;
      EntryOf(digest);
      ghost var before := View(entries);
      if digest !in byDigest || byDigest[digest].access != expected {
        return false;
      }
      var entry := byDigest[digest];
      entry.access := desired;
      SameWeights(before, View(entries));
      exchanged := true;
    }

    method Erase(digest: Bytes) returns (erased: bool)
      requires Valid()
      modifies this
      ensures Valid() && View(entries) == Without(old(View(entries)), digest)
      ensures erased <==> Lookup(old(View(entries)), digest).Some?
      ensures forall e | e in entries :: e in old(entries)
    {
      hide Total, Without, Lookup, View, Removed, Trimmed;
      EntryOf(digest);
      TotalWithout(View(entries), digest);
      if digest !in byDigest {
        return false;
      }
      EraseEntry(byDigest[digest]);
      erased := true;
    }

    method Clear()
      requires Valid()
      modifies this
      ensures Valid() && entries == [] && stats == old(stats).(entries := 0, bytes := 0)
    {
      entries, byDigest, stats := [], map[], stats.(entries := 0, bytes := 0);
    }
  }

  lemma {:induction false} SameWeights(a: seq<Resident>, b: seq<Resident>)
    requires |a| == |b| && forall i | 0 <= i < |a| :: a[i].artifact == b[i].artifact
    ensures Total(a) == Total(b)
  {
    if a != [] {
      SameWeights(a[..|a| - 1], b[..|b| - 1]);
    }
  }
}
