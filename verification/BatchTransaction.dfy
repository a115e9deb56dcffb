/**
 The record a batch rename keeps in its journal, and when such a record is well formed.
 All names of a batch live in one directory, so a path is its last component.
 */
module BatchTransaction {
  import opened Bytes

  type Name = Bytes

  datatype Status =
    | Success | InvalidRequest | NotFound | Conflict | SourceChanged | PermissionDenied
    | AuthenticationRequired | Disconnected | TimedOut | Unsupported | UnknownOutcome
    | IoError | CrossDevice | FileInUse

  datatype Evidence = NoEvidence | Committed | NoCommit | Conflicting

  datatype ObjectKind = RegularFile | Directory

  datatype Phase = Prepared | Evacuating | RollingBack | CommitIntent | Publishing

  datatype Location = AtSource | AtTemporary | AtDestination

  datatype StepKind = NoStep | Evacuate | RollBack | Publish

  datatype Snapshot = Snapshot(size: u64, modified: i64, revision: Bytes)

  datatype Item = Item(
    source: Name, temporary: Name, destination: Name, current: Name,
    snapshot: Snapshot, location: Location, kind: ObjectKind)
  {
    function Place(l: Location): Name {
      match l
      case AtSource => source
      case AtTemporary => temporary
      case AtDestination => destination
    }

    function Target(step: StepKind): Name
      requires step != NoStep
    {
      Place(StepLocation(step))
    }

    function AsMove(): Move {
      Move(source, temporary, destination, StableIdentity(snapshot.revision))
    }
  }

  /** The part of an item that no step changes: three names and the identity of the object. */
  datatype Move = Move(source: Name, temporary: Name, destination: Name, obj: Bytes)

  datatype Transaction = Transaction(
    operationId: u64, phase: Phase, activeStep: StepKind, activeIndex: u32,
    evidence: Evidence, failure: Status, detail: Bytes, items: seq<Item>)
  {
    function Moves(): (ms: seq<Move>)
      ensures |ms| == |items|
    {
      seq(|items|, i requires 0 <= i < |items| => items[i].AsMove())
    }

    /** Where each object is while no rename is under way. */
    function Places(): (at: seq<Name>)
      ensures |at| == |items|
    {
      seq(|items|, i requires 0 <= i < |items| => items[i].current)
    }

    /** Where each object is once the active rename has happened. */
    function PlacesMoved(): (at: seq<Name>)
      requires activeStep != NoStep && activeIndex < |items|
    {
      Places()[activeIndex := items[activeIndex].Target(activeStep)]
    }
  }

  function StepLocation(step: StepKind): Location
    requires step != NoStep
  {
    match step
    case Evacuate => AtTemporary
    case RollBack => AtSource
    case Publish => AtDestination
  }

  const MAXIMUM_ITEMS: nat := 10_000

  // ---------------------------------------------------------------- object identity

  predicate StartsWith(s: Bytes, prefix: Bytes) {
    |prefix| <= |s| && s[..|prefix|] == prefix
  }

  const COLON: byte := 58

  function CountColons(s: Bytes): nat {
    if s == [] then 0 else (if s[0] == COLON then 1 else 0) + CountColons(s[1..])
  }

  /** Index of the first colon at or after `from`, or |s|. */
  function FindColon(s: Bytes, from: nat): (k: nat)
    requires from <= |s|
    ensures from <= k <= |s|
    decreases |s| - from
  {
    if from == |s| || s[from] == COLON then from else FindColon(s, from + 1)
  }

  /** Index of the last colon, or |s|. */
  function FindLastColon(s: Bytes, n: nat): (k: nat)
    requires n <= |s|
    ensures k < n || k == |s|
  {
    if n == 0 then |s| else if s[n - 1] == COLON then n - 1 else FindLastColon(s, n - 1)
  }

  /** The part of a source revision that survives a rename; empty when the revision is malformed. */
  function StableIdentity(revision: Bytes): Bytes {
    if StartsWith(revision, Ascii("win-file128:")) then
      var volumeEnd := FindColon(revision, |"win-file128:"|);
      if volumeEnd == |revision| then [] else
      var idEnd := FindColon(revision, volumeEnd + 1);
      if idEnd == volumeEnd + 1 && idEnd < |revision| then []
      else revision[..idEnd]
    else if StartsWith(revision, Ascii("posix2:")) then
      DropLastField(revision, 3)
    else if StartsWith(revision, Ascii("win-file:")) || StartsWith(revision, Ascii("win-smb64:"))
         || StartsWith(revision, Ascii("posix:")) then
      DropLastField(revision, 2)
    else []
  }

  function DropLastField(revision: Bytes, colons: nat): Bytes {
    if CountColons(revision) == colons then revision
    else if CountColons(revision) != colons + 1 then []
    else
      var last := FindLastColon(revision, |revision|);
      if last == |revision| || last == 0 then [] else revision[..last]
  }

  lemma {:induction false} ColonsAdd(a: Bytes, b: Bytes)
    ensures CountColons(a + b) == CountColons(a) + CountColons(b)
  {
    if a == [] {
      assert a + b == b;
    } else {
      assert (a + b)[1..] == a[1..] + b;
      ColonsAdd(a[1..], b);
    }
  }

  lemma {:induction false} NoColons(a: Bytes)
    requires COLON !in a
    ensures CountColons(a) == 0
  {
    if a != [] {
      NoColons(a[1..]);
    }
  }

  lemma {:induction false} ColonAt(s: Bytes, from: nat, k: nat)
    requires from <= k < |s| && s[k] == COLON && COLON !in s[from..k]
    ensures FindColon(s, from) == k
    decreases k - from
  {
    if from < k {
      assert s[from] == s[from..k][0] && s[from + 1..k] == s[from..k][1..];
      ColonAt(s, from + 1, k);
    }
  }

  lemma {:induction false} NoColonAfter(s: Bytes, from: nat)
    requires from <= |s| && COLON !in s[from..]
    ensures FindColon(s, from) == |s|
    decreases |s| - from
  {
    if from < |s| {
      assert s[from] == s[from..][0] && s[from + 1..] == s[from..][1..];
      NoColonAfter(s, from + 1);
    }
  }

  lemma {:induction false} LastColonAt(s: Bytes, n: nat, k: nat)
    requires k < n <= |s| && s[k] == COLON && COLON !in s[k + 1..n]
    ensures FindLastColon(s, n) == k
    decreases n
  {
    if k < n - 1 {
      assert s[n - 1] == s[k + 1..n][n - k - 2] && s[k + 1..n - 1] == s[k + 1..n][..n - k - 2];
      LastColonAt(s, n - 1, k);
    }
  }

  /** What a revision with numeric fields begins with, and how many colons its object has. */
  datatype Scheme = WinFile | WinSmb64 | Posix | Posix2
  {
    function Beginning(): (s: Bytes)
      ensures s != []
    {
      match this
      case WinFile => Ascii("win-file:")
      case WinSmb64 => Ascii("win-smb64:")
      case Posix => Ascii("posix:")
      case Posix2 => Ascii("posix2:")
    }

    function Colons(): nat {
      if this == Posix2 then 3 else 2
    }
  }

  lemma SchemeDecides(scheme: Scheme, s: Bytes)
    requires StartsWith(s, scheme.Beginning())
    ensures StableIdentity(s) == DropLastField(s, scheme.Colons())
  {
    var p := scheme.Beginning();
    forall k | 0 <= k < |p|
      ensures s[k] == p[k]
    {
      assert s[..|p|][k] == s[k];
    }
    Apart(s, Ascii("win-file128:"), 8, 49);
    Apart(s, Ascii("win-file128:"), 4, 102);
    Apart(s, Ascii("win-file128:"), 0, 119);
    Apart(s, Ascii("posix2:"), 5, 50);
    Apart(s, Ascii("posix2:"), 0, 112);
    hide DropLastField;
  }

  lemma Apart(s: Bytes, beginning: Bytes, k: nat, b: byte)
    requires k < |beginning| && beginning[k] == b
    ensures StartsWith(s, beginning) ==> k < |s| && s[k] == b
  {
    assert StartsWith(s, beginning) ==> s[..|beginning|][k] == s[k];
  }

  /** The identity is the object, whatever time follows it. */
  lemma IdentityIsObject(scheme: Scheme, stem: Bytes, time: Bytes)
    requires StartsWith(stem, scheme.Beginning()) && CountColons(stem) == scheme.Colons() && COLON !in time
    ensures StableIdentity(stem) == stem && StableIdentity(stem + [COLON] + time) == stem
  {
    var revision, p := stem + [COLON] + time, scheme.Beginning();
    assert revision[..|p|] == stem[..|p|];
    SchemeDecides(scheme, stem);
    SchemeDecides(scheme, revision);
    TimeIsDropped(stem, time, scheme.Colons());
  }

  lemma TimeIsDropped(stem: Bytes, time: Bytes, colons: nat)
    requires stem != [] && CountColons(stem) == colons && COLON !in time
    ensures DropLastField(stem, colons) == stem && DropLastField(stem + [COLON] + time, colons) == stem
  {
    var revision := stem + [COLON] + time;
    ColonsAdd(stem + [COLON], time);
    ColonsAdd(stem, [COLON]);
    NoColons(time);
    assert CountColons([COLON]) == 1;
    hide CountColons;
    assert revision[|stem| + 1..] == time && revision[..|stem|] == stem;
    LastColonAt(revision, |revision|, |stem|);
  }

  const WIDE: Bytes := Ascii("win-file128:")

  /** With identifiers of 128 bits the object is a volume and a number, whatever follows them. */
  lemma WideIdentityIsObject(volume: Bytes, id: Bytes, rest: Bytes)
    requires COLON !in volume && COLON !in id && id != []
    ensures var stem := WIDE + volume + [COLON] + id;
      StableIdentity(stem) == stem && StableIdentity(stem + [COLON] + rest) == stem
  {
    hide StableIdentity, WIDE;
    var stem, v := WIDE + volume + [COLON] + id, |WIDE| + |volume|;
    var revision := stem + [COLON] + rest;
    assert stem[..|WIDE|] == WIDE && stem[|WIDE|..v] == volume && stem[v + 1..] == id;
    WideFields(stem, v, |stem|);
    assert revision[..|stem|] == stem && stem[..|stem|] == stem;
    assert revision[..|WIDE|] == WIDE && revision[|WIDE|..v] == volume && revision[v + 1..|stem|] == id;
    WideFields(revision, v, |stem|);
  }

  lemma WideFields(revision: Bytes, v: nat, end: nat)
    requires |WIDE| <= v && v + 1 < end <= |revision| && revision[..|WIDE|] == WIDE
    requires revision[v] == COLON && COLON !in revision[|WIDE|..v]
    requires COLON !in revision[v + 1..end] && (end < |revision| ==> revision[end] == COLON)
    ensures StableIdentity(revision) == revision[..end]
  {
    ColonAt(revision, |WIDE|, v);
    if end < |revision| {
      ColonAt(revision, v + 1, end);
    } else {
      NoColonAfter(revision, v + 1);
    }
    hide FindColon, CountColons, DropLastField;
  }

  // ---------------------------------------------------------------- names

  /** ASCII lower case; two names collide when their keys are equal. */
  function CollisionKey(name: Name): (key: Name)
    ensures |key| == |name|
  {
    Lowered(name)
  }

  /** Lower-case hexadecimal without leading zeros. */
  function Hex(n: nat): (r: Bytes)
    ensures |r| > 0
    ensures forall i | 0 <= i < |r| :: 48 <= r[i] <= 57 || 97 <= r[i] <= 102
  {
    if n < 16 then [HexDigit(n)] else Hex(n / 16) + [HexDigit(n % 16)]
  }

  function TemporaryLeaf(operationId: u64, index: nat): Name {
    Ascii(".vove-") + Hex(operationId) + Ascii("-") + Hex(index) + Ascii(".tmp")
  }

  // ---------------------------------------------------------------- well-formedness

  predicate LocationAllowed(phase: Phase, l: Location) {
    match phase
    case Prepared => l == AtSource
    case Evacuating => l != AtDestination
    case RollingBack => l != AtDestination
    case CommitIntent => l == AtTemporary
    case Publishing => l != AtSource
  }

  predicate StepMatches(phase: Phase, step: StepKind, l: Location) {
    match step
    case NoStep => true
    case Evacuate => phase == Evacuating && l == AtSource
    case RollBack => phase == RollingBack && l == AtTemporary
    case Publish => phase == Publishing && l == AtTemporary
  }

  predicate ValidHeader(t: Transaction) {
    && t.operationId != 0
    && 0 < |t.items| <= MAXIMUM_ITEMS
    && (t.activeStep == NoStep ==> t.activeIndex == 0 && t.evidence == NoEvidence)
    && t.activeIndex < |t.items|
    && StepMatches(t.phase, t.activeStep, t.items[t.activeIndex].location)
    && (t.failure == Success ==> t.evidence == NoEvidence)
  }

  predicate ValidItem(phase: Phase, item: Item) {
    && item.current == item.Place(item.location)
    && LocationAllowed(phase, item.location)
    && (item.kind == Directory ==> item.snapshot.size == 0)
  }

  const SLASH: byte := 47

  /** Source keys, destination keys and identities are pairwise distinct; no name leaves the directory. */
  predicate ValidMoves(operationId: u64, moves: seq<Move>) {
    && (forall i | 0 <= i < |moves| ::
          && moves[i].obj != [] && moves[i].temporary == TemporaryLeaf(operationId, i)
          && SLASH !in moves[i].source && SLASH !in moves[i].destination)
    && (forall i, j | 0 <= i < j < |moves| ::
          && moves[i].obj != moves[j].obj
          && CollisionKey(moves[i].source) != CollisionKey(moves[j].source)
          && CollisionKey(moves[i].destination) != CollisionKey(moves[j].destination))
  }

  predicate ValidTransaction(t: Transaction) {
    && ValidHeader(t)
    && (forall i | 0 <= i < |t.items| :: ValidItem(t.phase, t.items[i]))
    && ValidMoves(t.operationId, t.Moves())
  }

  // ---------------------------------------------------------------- temporary names

  lemma {:induction false} HexInjective(m: nat, n: nat)
    requires Hex(m) == Hex(n)
    ensures m == n
  {
    if m >= 16 && n >= 16 {
      assert Hex(m / 16) == Hex(m)[..|Hex(m)| - 1] == Hex(n)[..|Hex(n)| - 1] == Hex(n / 16);
      HexInjective(m / 16, n / 16);
      assert Hex(m)[|Hex(m)| - 1] == Hex(n)[|Hex(n)| - 1];
    }
  }

  /** Temporary names of one operation are distinct, also when letter case is ignored. */
  lemma TemporaryKeysDistinct(operationId: u64, i: nat, j: nat)
    requires i != j
    ensures CollisionKey(TemporaryLeaf(operationId, i)) != CollisionKey(TemporaryLeaf(operationId, j))
  {
    var a, b := TemporaryLeaf(operationId, i), TemporaryLeaf(operationId, j);
    LeafIsLowerCase(operationId, i);
    LeafIsLowerCase(operationId, j);
    if a == b {
      var prefix := Ascii(".vove-") + Hex(operationId) + Ascii("-");
      assert a[|prefix|..|a| - 4] == Hex(i);
      assert b[|prefix|..|b| - 4] == Hex(j);
      HexInjective(i, j);
    }
  }

  lemma LeafIsLowerCase(operationId: u64, i: nat)
    ensures CollisionKey(TemporaryLeaf(operationId, i)) == TemporaryLeaf(operationId, i)
  {
    var leaf := TemporaryLeaf(operationId, i);
    forall k | 0 <= k < |leaf|
      ensures LowerAscii(leaf[k]) == leaf[k]
    {
    }
  }
}
