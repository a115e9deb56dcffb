/**
 Artifact files by digest. A file either decodes to an artifact or is unreadable; replacing a file
 is atomic; anything may fail. Which operation fails, and how, is an input: the outcomes that the
 coming operations meet. Paths, staging names and syscalls are not modelled.
 */
module ArtifactStore {
  import opened Bytes
  import opened ArtifactCodec
  import opened CacheKey

  datatype Content = Holding(artifact: Artifact) | Unreadable

  datatype Stored = Hit(artifact: Artifact) | Absent | StoreFailed

  datatype Removal = Removed | NotFound | RemovalFailed

  /** An operation works, fails without an effect, or takes effect and reports a failure. */
  datatype Outcome = Works | FailsBefore | FailsAfter

  /** The file is the artifact that its name says it is. */
  predicate Sound(c: Content, digest: Bytes) {
    c.Holding? && Hex(c.artifact.digest) == digest
  }

  /** The bytes are a well-formed artifact file for this digest. */
  ghost predicate FileFor(staged: Bytes, digest: Bytes, a: Artifact) {
    Represents(staged, a) && Hex(a.digest) == digest
  }

  class ArtifactStore {
    var files: map<Bytes, Content>
    /** What the coming operations meet; after the last of them nothing fails. */
    var outcomes: seq<Outcome>

    constructor (files: map<Bytes, Content>, outcomes: seq<Outcome>)
      ensures this.files == files && this.outcomes == outcomes
    {
      this.files, this.outcomes := files, outcomes;
    }

    method Meet() returns (outcome: Outcome)
      modifies `outcomes
      ensures outcome == HeadOr(old(outcomes), Works) && outcomes == Later(old(outcomes))
    {
      outcome := HeadOr(outcomes, Works);
      outcomes := Later(outcomes);
    }

    /** Others may damage or delete files; they do not forge artifacts. */
    method Interfere()
      modifies `files
      ensures forall d | d in files && files[d].Holding? :: d in old(files) && files[d] == old(files)[d]
    {
      var victims: set<Bytes>, damaged: set<Bytes> := *, *;
      files := map d | d in files && d !in victims :: if d in damaged then Unreadable else files[d];
    }

    /** A file that does not hold its artifact is removed. */
    method LookupDigest(digest: Bytes) returns (stored: Stored)
      modifies this
      ensures stored.Hit? ==> ValidDigest(digest) && files == old(files) && digest in files && files[digest] == Holding(stored.artifact)
                              && Sound(files[digest], digest)
      ensures stored.Absent? ==> files == old(files) - {digest}
                                 && (digest in old(files) ==> !Sound(old(files)[digest], digest))
      ensures stored.StoreFailed? ==> files == old(files)
      ensures old(outcomes) == [] ==> outcomes == [] && (stored.StoreFailed? ==> !ValidDigest(digest))
    {
      if !ValidDigest(digest) {
        return StoreFailed;
      }
      var outcome := Meet();
      if outcome != Works {
        return StoreFailed;
      }
      if digest !in files {
        return Absent;
      }
      if Sound(files[digest], digest) {
        return Hit(files[digest].artifact);
      }
      var removal := RemoveDigestChecked(digest);
      stored := if removal == RemovalFailed then StoreFailed else Absent;
    }

    /** Digests with a file, at most so many; complete when all of them were reached. */
    method ScanDigests(maximum: nat) returns (found: seq<(Bytes, nat)>, complete: bool, scanned: bool)
      requires maximum > 0
      ensures forall i | 0 <= i < |found| :: found[i].0 in files && ValidDigest(found[i].0)
      ensures forall i, j | 0 <= i < j < |found| :: found[i].0 != found[j].0
      ensures scanned && complete ==> forall d | d in files && ValidDigest(d) :: exists i | 0 <= i < |found| :: found[i].0 == d
    {
      found := [];
      var rest := files.Keys;
      var interrupted, limited := *, *;
      while rest != {} && !interrupted && !limited
        invariant rest <= files.Keys
        invariant forall i | 0 <= i < |found| :: found[i].0 in files && found[i].0 !in rest && ValidDigest(found[i].0)
        invariant forall i, j | 0 <= i < j < |found| :: found[i].0 != found[j].0
        invariant forall d | d in files && d !in rest && ValidDigest(d) :: exists i | 0 <= i < |found| :: found[i].0 == d
        decreases |rest|
      {
        var d: Bytes, size: nat := *, *;
        d :| d in rest;
        rest := rest - {d};
        ghost var before := found;
        if ValidDigest(d) {
          found := found + [(d, size)];
          assert found[|before|].0 == d;
        }
        assert forall i | 0 <= i < |before| :: found[i] == before[i];
        interrupted, limited := *, *;
      }
      scanned := !interrupted;
      complete := rest == {};
    }

    method RemoveDigestChecked(digest: Bytes) returns (removal: Removal)
      modifies this
      ensures removal == RemovalFailed ==> files == old(files)
      ensures removal != RemovalFailed ==> files == old(files) - {digest}
      ensures removal == Removed ==> digest in old(files)
      ensures removal == NotFound ==> digest !in old(files)
      ensures old(outcomes) == [] ==> outcomes == [] && (removal == RemovalFailed ==> !ValidDigest(digest))
    {
      if !ValidDigest(digest) {
        return RemovalFailed;
      }
      var outcome := Meet();
      if outcome != Works {
        return RemovalFailed;
      }
      if digest !in files {
        return NotFound;
      }
      files := files - {digest};
      removal := Removed;
    }

    /**
     Staged bytes replace the file of a digest only if they are an artifact of that very digest; an
     error may be reported after the replacement, too.
     */
    method Commit(digest: Bytes, staged: Bytes) returns (committed: Option<Artifact>)
      modifies this
      ensures committed.Some? ==>
                FileFor(staged, digest, committed.value) && files == old(files)[digest := Holding(committed.value)]
      ensures committed.None? ==>
                files == old(files)
                || exists a :: FileFor(staged, digest, a) && files == old(files)[digest := Holding(a)]
      ensures old(outcomes) == [] ==>
                outcomes == [] && (committed.None? ==> forall a :: !FileFor(staged, digest, a))
    {
      hide Represents, Hex;
      var written := Meet();
      if written != Works {
        return None;
      }
      var decoded := Decode(staged);
      if decoded.None? {
        return None;
      }
      if Hex(decoded.value.digest) != digest {
        OnlyThisFile(staged, digest, decoded.value);
        return None;
      }
      var replaced := Meet();
      if replaced == FailsBefore {
        return None;
      }
      assert FileFor(staged, digest, decoded.value);
      files := files[digest := Holding(decoded.value)];
      committed := if replaced == Works then decoded else None;
    }
  }

  /** Bytes that hold another artifact hold none of this digest. */
  lemma OnlyThisFile(staged: Bytes, digest: Bytes, a: Artifact)
    requires Represents(staged, a) && Hex(a.digest) != digest
    ensures forall b :: !FileFor(staged, digest, b)
  {
    hide Represents, Hex;
    forall b
      ensures !FileFor(staged, digest, b)
    {
      if FileFor(staged, digest, b) {
        assert Represents(staged, b);
        RepresentsOne(staged, a, b);
      }
    }
  }
}
