/**
 Batches that the journal cannot carry to their end: one with a name that is not UTF-8, one that
 is too long from the start, and one that becomes too long on its way.
 */
module BatchLimits {
  import opened Bytes
  import opened BatchTransaction
  import opened BatchDisk
  import opened BatchForecast
  import opened BatchJournal
  import opened BatchCoordinator
  import opened BatchVolume
  import opened TransactionCodec
  import Utf8

  // ---------------------------------------------------------------- as many files as one likes

  const FILE: byte := 97
  const RENAMED: byte := 98

  function FileName(first: byte, i: nat): Name {
    [first] + Hex(4096 + i)
  }

  function Revision(i: nat): Bytes {
    Ascii("posix:") + Hex(4096 + i) + Ascii(":")
  }

  function FileItem(i: nat): Item {
    Item(FileName(FILE, i), TemporaryLeaf(1, i), FileName(RENAMED, i), FileName(FILE, i),
         Snapshot(0, 0, Revision(i)), AtSource, RegularFile)
  }

  function FileItems(n: nat): (items: seq<Item>)
    ensures |items| == n && forall i | 0 <= i < n :: items[i] == FileItem(i)
  {
    seq(n, i requires 0 <= i < n => FileItem(i))
  }

  /** Rename n files a1000, a1001, ... to b1000, b1001, ... */
  function Files(n: nat): Transaction {
    Transaction(1, Prepared, NoStep, 0, NoEvidence, Success, [], FileItems(n))
  }

  function FileDirectory(n: nat): Directory {
    if n == 0 then map[] else FileDirectory(n - 1)[FileName(FILE, n - 1) := Revision(n - 1)]
  }

  function FileBatch(n: nat): Batch {
    Batch(FileDirectory(n), Files(n).Moves(), true)
  }

  /** What the beginnings of revisions look like. */
  lemma Beginnings()
    ensures Ascii(":") == [COLON] && Ascii("posix:") == [112, 111, 115, 105, 120] + [COLON]
    ensures CountColons(Ascii("posix:")) == 1
    ensures Ascii("win-file128:")[0] == 119 && Ascii("posix2:")[5] == 50
  {
    ColonsAdd([112, 111, 115, 105, 120], [COLON]);
    NoColons([112, 111, 115, 105, 120]);
    assert Ascii("posix:") == [112, 111, 115, 105, 120] + [COLON];
  }

  /** A revision of two fields is the identity itself. */
  lemma RevisionIsIdentity(i: nat)
    ensures StableIdentity(Revision(i)) == Revision(i) != []
  {
    hide Hex, Ascii;
    var r := Revision(i);
    Beginnings();
    ColonsAdd(Ascii("posix:") + Hex(4096 + i), Ascii(":"));
    ColonsAdd(Ascii("posix:"), Hex(4096 + i));
    NoColons(Hex(4096 + i));
    assert CountColons(r) == 2;
    assert r[0] == 112 && r[5] == COLON && r[..6] == Ascii("posix:");
    hide CountColons;
  }

  lemma HexLength(i: nat)
    requires i < 0x1_0000
    ensures |Hex(i)| <= 4 && (4096 <= i ==> |Hex(i)| == 4)
  {
    if i >= 16 {
      assert |Hex(i)| == |Hex(i / 16)| + 1;
      if i / 16 >= 16 {
        assert |Hex(i / 16)| == |Hex(i / 16 / 16)| + 1;
        if i / 16 / 16 >= 16 {
          assert |Hex(i / 16 / 16)| == |Hex(i / 16 / 16 / 16)| + 1;
        }
      }
    }
  }

  lemma FileNameIsKey(first: byte, i: nat)
    requires !(65 <= first <= 90)
    ensures CollisionKey(FileName(first, i)) == FileName(first, i)
  {
    hide Hex;
  }

  lemma FileNamesDiffer(first: byte, second: byte, i: nat, j: nat)
    requires first != second || i != j
    ensures FileName(first, i) != FileName(second, j)
  {
    hide Hex;
    if FileName(first, i) == FileName(second, j) {
      assert FileName(first, i)[0] == FileName(second, j)[0];
      assert FileName(first, i)[1..] == Hex(4096 + i) && FileName(second, j)[1..] == Hex(4096 + j);
      HexInjective(4096 + i, 4096 + j);
    }
  }

  lemma RevisionsDiffer(i: nat, j: nat)
    requires i != j
    ensures Revision(i) != Revision(j)
  {
    hide Hex;
    if Revision(i) == Revision(j) {
      assert Revision(i)[6..|Revision(i)| - 1] == Hex(4096 + i);
      assert Revision(j)[6..|Revision(j)| - 1] == Hex(4096 + j);
      HexInjective(4096 + i, 4096 + j);
    }
  }

  lemma TemporaryIsApart(first: byte, i: nat, j: nat)
    requires first in {FILE, RENAMED}
    ensures CollisionKey(FileName(first, i)) != CollisionKey(TemporaryLeaf(1, j))
  {
    hide Hex;
    assert CollisionKey(FileName(first, i))[0] == first;
    assert CollisionKey(TemporaryLeaf(1, j))[0] == 46;
  }

  lemma {:induction false} InDirectory(n: nat)
    ensures forall i | 0 <= i < n :: FileName(FILE, i) in FileDirectory(n) && FileDirectory(n)[FileName(FILE, i)] == Revision(i)
    ensures forall m | m in FileDirectory(n) :: exists i | 0 <= i < n :: m == FileName(FILE, i)
  {
    hide FileName, Revision;
    if n > 0 {
      InDirectory(n - 1);
      forall i | 0 <= i < n - 1
        ensures FileName(FILE, i) != FileName(FILE, n - 1)
      {
        FileNamesDiffer(FILE, FILE, i, n - 1);
      }
    }
  }

  lemma FileMove(n: nat, i: nat)
    requires i < n
    ensures FileBatch(n).moves[i]
         == Move(FileName(FILE, i), TemporaryLeaf(1, i), FileName(RENAMED, i), Revision(i))
  {
    hide FileName, Revision, TemporaryLeaf;
    RevisionIsIdentity(i);
    assert FileBatch(n).moves[i] == FileItem(i).AsMove();
  }

  lemma FilePairs(n: nat, i: nat, j: nat)
    requires i < n && j < n
    ensures var ms := FileBatch(n).moves;
      && CollisionKey(ms[i].temporary) != CollisionKey(ms[j].destination)
      && CollisionKey(ms[i].source) != CollisionKey(ms[j].destination)
      && CollisionKey(ms[i].source) != CollisionKey(ms[j].temporary)
      && (i != j ==>
            && ms[i].obj != ms[j].obj
            && CollisionKey(ms[i].source) != CollisionKey(ms[j].source)
            && CollisionKey(ms[i].temporary) != CollisionKey(ms[j].temporary)
            && CollisionKey(ms[i].destination) != CollisionKey(ms[j].destination))
  {
    hide FileName, Revision, TemporaryLeaf, CollisionKey;
    FileMove(n, i);
    FileMove(n, j);
    FileNameIsKey(FILE, i);
    FileNameIsKey(FILE, j);
    FileNameIsKey(RENAMED, i);
    FileNameIsKey(RENAMED, j);
    TemporaryIsApart(RENAMED, j, i);
    TemporaryIsApart(FILE, i, j);
    FileNamesDiffer(FILE, RENAMED, i, j);
    if i != j {
      FileNamesDiffer(FILE, FILE, i, j);
      FileNamesDiffer(RENAMED, RENAMED, i, j);
      RevisionsDiffer(i, j);
      TemporaryKeysDistinct(1, i, j);
    }
  }

  /** Nothing in the directory collides with a new name. */
  lemma FileIsPlanned(n: nat, i: nat)
    requires i < n
    ensures var b := FileBatch(n);
      && b.moves[i].source in b.initial && b.initial[b.moves[i].source] == b.moves[i].obj
      && Free(b.initial, b.moves[i].temporary) && Free(b.initial, b.moves[i].destination)
  {
    hide FileName, Revision, TemporaryLeaf, CollisionKey, FileDirectory;
    var b := FileBatch(n);
    InDirectory(n);
    FileMove(n, i);
    forall m | m in b.initial
      ensures CollisionKey(m) != CollisionKey(b.moves[i].temporary)
      ensures CollisionKey(m) != CollisionKey(b.moves[i].destination)
    {
      var k :| 0 <= k < n && m == FileName(FILE, k);
      FileMove(n, k);
      FilePairs(n, k, i);
    }
  }

  lemma FileKeysAreNames(n: nat)
    ensures forall m, m' | m in FileDirectory(n) && m' in FileDirectory(n) ::
      CollisionKey(m) == CollisionKey(m') ==> m == m'
  {
    hide FileName, Revision, CollisionKey, FileDirectory;
    InDirectory(n);
    forall m | m in FileDirectory(n)
      ensures CollisionKey(m) == m
    {
      var k :| 0 <= k < n && m == FileName(FILE, k);
      FileNameIsKey(FILE, k);
    }
  }

  lemma FilesAreWellPlanned(n: nat)
    ensures WellPlanned(FileBatch(n))
  {
    hide FileName, Revision, TemporaryLeaf, CollisionKey, FileDirectory, Moves;
    var b := FileBatch(n);
    assert |b.moves| == n;
    FileKeysAreNames(n);
    forall i | 0 <= i < n
      ensures b.moves[i].source in b.initial && b.initial[b.moves[i].source] == b.moves[i].obj
      ensures Free(b.initial, b.moves[i].temporary) && Free(b.initial, b.moves[i].destination)
    {
      FileIsPlanned(n, i);
    }
    forall i, j | 0 <= i < n && 0 <= j < n
      ensures CollisionKey(b.moves[i].temporary) != CollisionKey(b.moves[j].destination)
      ensures i != j ==>
                && b.moves[i].obj != b.moves[j].obj
                && CollisionKey(b.moves[i].source) != CollisionKey(b.moves[j].source)
                && CollisionKey(b.moves[i].temporary) != CollisionKey(b.moves[j].temporary)
                && CollisionKey(b.moves[i].destination) != CollisionKey(b.moves[j].destination)
    {
      FilePairs(n, i, j);
    }
  }

  lemma FilesArePrepared(n: nat)
    requires 0 < n <= MAXIMUM_ITEMS
    ensures FreshlyPrepared(FileBatch(n), Files(n)) && ValidTransaction(Files(n))
  {
    hide FileName, Revision, TemporaryLeaf, CollisionKey;
    var t := Files(n);
    forall i | 0 <= i < n
      ensures t.Moves()[i].obj != [] && t.Moves()[i].temporary == TemporaryLeaf(1, i)
      ensures SLASH !in t.Moves()[i].source && SLASH !in t.Moves()[i].destination
      ensures ValidItem(Prepared, t.items[i])
    {
      FileMove(n, i);
      RevisionIsIdentity(i);
      NoSlash(i);
    }
    forall i, j | 0 <= i < j < n
      ensures t.Moves()[i].obj != t.Moves()[j].obj
      ensures CollisionKey(t.Moves()[i].source) != CollisionKey(t.Moves()[j].source)
      ensures CollisionKey(t.Moves()[i].destination) != CollisionKey(t.Moves()[j].destination)
    {
      FilePairs(n, i, j);
    }
  }

  lemma NoSlash(i: nat)
    ensures SLASH !in FileName(FILE, i) && SLASH !in FileName(RENAMED, i)
  {
    hide Hex;
  }

  // ---------------------------------------------------------------- how long their records are

  lemma {:induction false} ItemsSizeBetween(parent: Bytes, items: seq<Item>, low: nat, high: nat)
    requires forall i | 0 <= i < |items| :: low <= ItemSize(parent, items[i]) <= high
    ensures |items| * low <= ItemsSize(parent, items) <= |items| * high
  {
    if items != [] {
      ItemsSizeBetween(parent, items[1..], low, high);
      assert |items| * low == |items[1..]| * low + low && |items| * high == |items[1..]| * high + high;
    }
  }

  lemma FileSize(parent: Bytes, i: nat, l: Location)
    requires i < MAXIMUM_ITEMS
    ensures 79 + 4 * |parent| <= ItemSize(parent, FileItem(i)) <= 82 + 4 * |parent|
    ensures ItemSize(parent, Placed(FileItem(i), AtTemporary)) >= 87 + 4 * |parent|
  {
    hide Hex;
    HexLength(4096 + i);
    HexLength(i);
    HexOfOne();
    assert |TemporaryLeaf(1, i)| == 12 + |Hex(i)|;
  }

  lemma HexOfOne()
    ensures |Hex(1)| == 1
  {
  }

  lemma FilesSize(parent: Bytes, n: nat)
    requires n <= MAXIMUM_ITEMS
    ensures 32 + n * (79 + 4 * |parent|) <= Size(parent, Files(n)) <= 32 + n * (82 + 4 * |parent|)
    ensures Size(parent, Halfway(Files(n), Evacuating, n, AtTemporary, AtSource)) >= 32 + n * (87 + 4 * |parent|)
  {
    hide ItemSize, FileItem;
    var items, moved := Files(n).items, Halfway(Files(n), Evacuating, n, AtTemporary, AtSource).items;
    forall i | 0 <= i < n
      ensures 79 + 4 * |parent| <= ItemSize(parent, items[i]) <= 82 + 4 * |parent|
      ensures 87 + 4 * |parent| <= ItemSize(parent, moved[i]) <= ItemsSize(parent, moved)
    {
      FileSize(parent, i, AtTemporary);
      assert moved[i] == Placed(FileItem(i), AtTemporary);
      ItemsSizeBounds(parent, moved, i);
    }
    ItemsSizeBetween(parent, items, 79 + 4 * |parent|, 82 + 4 * |parent|);
    ItemsSizeBetween(parent, moved, 87 + 4 * |parent|, ItemsSize(parent, moved));
  }

  // ---------------------------------------------------------------- the batches

  /** As many files as the planner allows, in a directory whose path has 96 bytes: no record fits. */
  lemma TooLongFromTheStart(parent: Bytes)
    requires |parent| == 96
    ensures WellPlanned(FileBatch(MAXIMUM_ITEMS)) && FreshlyPrepared(FileBatch(MAXIMUM_ITEMS), Files(MAXIMUM_ITEMS))
    ensures !Storable(parent, Files(MAXIMUM_ITEMS)) && !PlanFits(parent, Files(MAXIMUM_ITEMS))
  {
    hide Files, FileBatch, Halfway, WellPlanned, FreshlyPrepared, ItemsSize, ValidTransaction;
    FilesAreWellPlanned(MAXIMUM_ITEMS);
    FilesArePrepared(MAXIMUM_ITEMS);
    FilesSize(parent, MAXIMUM_ITEMS);
    StartIsHalfway(MAXIMUM_ITEMS);
    assert Size(parent, Files(MAXIMUM_ITEMS)) > LIMIT;
    assert Size(parent, Halfway(Files(MAXIMUM_ITEMS), Evacuating, 0, AtTemporary, AtSource)) > LIMIT;
  }

  lemma StartIsHalfway(n: nat)
    ensures |Files(n).items| == n
    ensures Halfway(Files(n), Evacuating, 0, AtTemporary, AtSource) == Files(n).(phase := Evacuating)
  {
    assert Halfway(Files(n), Evacuating, 0, AtTemporary, AtSource).items == Files(n).items;
  }

  /**
   The same files in a directory whose path has 84 bytes: the first record fits, but not the one
   with all objects at their longer temporary names, so the batch is begun and cannot be ended.
   */
  lemma TooLongOnTheWay(parent: Bytes)
    requires |parent| == 84
    ensures WellPlanned(FileBatch(MAXIMUM_ITEMS)) && FreshlyPrepared(FileBatch(MAXIMUM_ITEMS), Files(MAXIMUM_ITEMS))
    ensures Storable(parent, Files(MAXIMUM_ITEMS)) && !PlanFits(parent, Files(MAXIMUM_ITEMS))
  {
    hide Files, FileBatch, Halfway, WellPlanned, FreshlyPrepared, ItemsSize, ValidTransaction;
    FilesAreWellPlanned(MAXIMUM_ITEMS);
    FilesArePrepared(MAXIMUM_ITEMS);
    FilesSize(parent, MAXIMUM_ITEMS);
    StartIsHalfway(MAXIMUM_ITEMS);
    var n := |Files(MAXIMUM_ITEMS).items|;
    assert Size(parent, Halfway(Files(MAXIMUM_ITEMS), Evacuating, n, AtTemporary, AtSource)) > LIMIT;
  }

  /** However often it is resumed, and though nothing fails, such a batch ends in a journal error. */
  method BeginAndResume(parent: Bytes, rounds: nat) returns (first: RunStatus, last: RunStatus)
    requires IsParent(parent) && |parent| == 84
    ensures first == last == RunJournalError
  {
    hide Files, FileBatch, WellPlanned, FreshlyPrepared, PlanFits, Storable, Foreseen;
    var batch, t := FileBatch(MAXIMUM_ITEMS), Files(MAXIMUM_ITEMS);
    TooLongOnTheWay(parent);
    MovesOfFiles(MAXIMUM_ITEMS);
    StartIsSafe(batch);
    var volume := new Volume(batch, parent, true, true);
    var c := new Coordinator(volume, t);
    first := c.RunNew();
    last := first;
    for round := 0 to rounds
      invariant volume.Valid() && c.Stuck() && last == RunJournalError
    {
      last := c.RunResume();
    }
  }

  lemma MovesOfFiles(n: nat)
    ensures |FileBatch(n).moves| == n && FileBatch(n).quiet
  {
  }

  // ---------------------------------------------------------------- a name that is not UTF-8

  const RAW: Name := [0xff]

  function RawItem(): Item {
    FileItem(0).(source := RAW, current := RAW)
  }

  /** One file whose name is the single byte FF gets the name b1000. */
  function RawFile(): Transaction {
    Files(0).(items := [RawItem()])
  }

  function RawBatch(): Batch {
    Batch(map[RAW := Revision(0)], RawFile().Moves(), true)
  }

  lemma RawMove()
    ensures |RawBatch().moves| == 1
    ensures RawBatch().moves[0] == Move(RAW, TemporaryLeaf(1, 0), FileName(RENAMED, 0), Revision(0))
    ensures RawFile().items[0] == RawItem() && RawFile().Moves()[0] == RawBatch().moves[0]
  {
    hide FileName, Revision, TemporaryLeaf;
    RevisionIsIdentity(0);
    assert RawBatch().moves[0] == RawItem().AsMove();
  }

  lemma RawIsPlanned()
    ensures WellPlanned(RawBatch()) && FreshlyPrepared(RawBatch(), RawFile())
  {
    hide FileName, Revision, TemporaryLeaf, CollisionKey, RawFile, Hex;
    var b := RawBatch();
    RawMove();
    RevisionIsIdentity(0);
    NoSlash(0);
    TemporaryIsApart(RENAMED, 0, 0);
    RawKey();
    RawIsFresh();
  }

  lemma RawIsFresh()
    ensures FreshlyPrepared(RawBatch(), RawFile())
  {
    hide FileName, Revision, TemporaryLeaf, CollisionKey, Hex;
    RawMove();
    RevisionIsIdentity(0);
    NoSlash(0);
  }

  lemma RawKey()
    ensures CollisionKey(RAW) == RAW
    ensures CollisionKey(TemporaryLeaf(1, 0)) != RAW && CollisionKey(FileName(RENAMED, 0)) != RAW
  {
    hide Hex;
    assert CollisionKey(TemporaryLeaf(1, 0))[0] == 46;
    assert CollisionKey(FileName(RENAMED, 0))[0] == RENAMED;
  }

  lemma RawIsShort()
    ensures Size([SLASH], RawFile()) <= WorstSize([SLASH], RawFile()) <= LIMIT
  {
    hide Hex;
    HexLength(4096);
    HexLength(0);
    HexOfOne();
    var items := RawFile().items;
    assert items[1..] == [];
    assert |TemporaryLeaf(1, 0)| == 12 + |Hex(0)|;
    assert ItemsSize([SLASH], items) == ItemSize([SLASH], items[0]);
    assert WorstItemsSize([SLASH], items) == WorstItemSize([SLASH], items[0]);
  }

  lemma RawBytes()
    ensures !Utf8.WellFormed([SLASH] + RAW)
  {
    assert [SLASH] + RAW == [SLASH, 0xff];
    assert [SLASH, 0xff][1..] == [0xff];
    assert Utf8.Decode([SLASH, 0xff]).Some? ==> Utf8.Decode([SLASH, 0xff]).value.length == 1;
    assert Utf8.Decode([0xff]).None?;
  }

  /** The plan is clear and every record fits, so the rename may begin; but no record of it can be read. */
  lemma RawIsIllegible()
    ensures Storable([SLASH], RawFile()) && PlanFits([SLASH], RawFile())
    ensures forall t | Records(RawBatch(), t) :: !Legible([SLASH], t)
  {
    RawIsPlanned();
    RawMove();
    RawIsShort();
    RoomForLongestNames([SLASH], RawFile());
    PlanDecides([SLASH], RawFile());
    forall t | Records(RawBatch(), t)
      ensures !Legible([SLASH], t)
    {
      NamesDecide([SLASH], t);
      assert t.Moves()[0].source == RAW;
      RawBytes();
    }
  }

  /** After a crash behind the first record every resume ends in a journal error, though nothing fails. */
  method CrashAndResume(rounds: nat) returns (last: RunStatus)
    ensures rounds > 0 ==> last == RunJournalError
  {
    hide RawBatch, RawFile, WellPlanned, Storable, Legible, Holds, Revision;
    var batch, t := RawBatch(), RawFile();
    RawIsPlanned();
    RawIsIllegible();
    RawFirstRecord();
    var volume := new Volume.Found(batch, [SLASH], true, true, Disk(batch.initial, Some(t), None));
    var c := new Coordinator(volume, t);
    last := RunStopped;
    for round := 0 to rounds
      invariant volume.Valid() && volume.disk.Readable() == Some(t)
      invariant round > 0 ==> last == RunJournalError
    {
      last := c.RunResume();
    }
  }

  lemma RawFirstRecord()
    ensures RawBatch().quiet && Describes(RawBatch(), RawFile(), RawBatch().initial)
  {
    hide Hex, FileName, Revision, StableIdentity, ValidMoves;
    RawIsPlanned();
    StartIsSafe(RawBatch());
    assert RawFile().Places() == Sources(RawBatch()) by {
      RawMove();
    }
  }

  // ---------------------------------------------------------------- evidence that conflicts

  /** The first file is being evacuated, and what was reported about it conflicts. */
  function Doubtful(): Transaction {
    Files(1).(phase := Evacuating, activeStep := Evacuate, evidence := Conflicting, failure := UnknownOutcome)
  }

  lemma {:induction false} AsciiIsUtf8(s: Bytes)
    requires forall i | 0 <= i < |s| :: s[i] < 0x80
    ensures Utf8.WellFormed(s)
  {
    if s != [] {
      assert Utf8.Decode(s).Some? && Utf8.Decode(s).value.length == 1;
      AsciiIsUtf8(s[1..]);
    }
  }

  lemma DoubtfulRecord()
    ensures FileBatch(1).quiet && Describes(FileBatch(1), Doubtful(), FileBatch(1).initial)
    ensures Storable([SLASH], Doubtful()) && Storable([SLASH], Unresolved(Doubtful()))
    ensures Legible([SLASH], Doubtful()) && Legible([SLASH], Unresolved(Doubtful()))
  {
    DoubtfulDescribes();
    hide *;
    DoubtfulIsShort();
    DoubtfulIsText();
  }

  lemma DoubtfulDescribes()
    ensures FileBatch(1).quiet && Describes(FileBatch(1), Doubtful(), FileBatch(1).initial)
    ensures ValidTransaction(Doubtful()) && ValidTransaction(Unresolved(Doubtful()))
    ensures Size([SLASH], Doubtful()) <= LIMIT ==> Storable([SLASH], Doubtful())
    ensures Size([SLASH], Unresolved(Doubtful())) <= LIMIT ==> Storable([SLASH], Unresolved(Doubtful()))
  {
    hide Hex, FileName, Revision, TemporaryLeaf, ValidMoves, StableIdentity, CONFLICT_DETAIL, Size, WellPlanned;
    FilesAreWellPlanned(1);
    FilesArePrepared(1);
    StartIsSafe(FileBatch(1));
    assert Doubtful().Moves() == FileBatch(1).moves;
    assert Doubtful().Places() == Sources(FileBatch(1));
    assert Unresolved(Doubtful()).Moves() == Doubtful().Moves();
    assert ValidTransaction(Files(1));
    hide FileBatch, Holds;
  }

  lemma DoubtfulIsShort()
    ensures Size([SLASH], Doubtful()) <= LIMIT && Size([SLASH], Unresolved(Doubtful())) <= LIMIT
  {
    hide FileItem, ItemSize;
    FileSize([SLASH], 0, AtSource);
    var items := Doubtful().items;
    assert items[1..] == [] && items[0] == FileItem(0);
    assert ItemsSize([SLASH], items) == ItemSize([SLASH], items[0]);
    assert |CONFLICT_DETAIL| < 100;
  }

  lemma FileText()
    ensures LegibleNames([SLASH], FileItem(0).AsMove()) && Utf8.WellFormed(Revision(0))
  {
    hide Hex, Utf8.WellFormed, StableIdentity;
    var m := FileItem(0).AsMove();
    AsciiIsUtf8([SLASH] + m.source);
    AsciiIsUtf8([SLASH] + m.temporary);
    AsciiIsUtf8([SLASH] + m.destination);
    AsciiIsUtf8(Revision(0));
  }

  lemma DetailText()
    ensures Utf8.WellFormed(CONFLICT_DETAIL) && Utf8.WellFormed([])
  {
    hide Utf8.WellFormed, Ascii;
    AsciiIsUtf8(CONFLICT_DETAIL);
    AsciiIsUtf8([]);
  }

  lemma DoubtfulIsText()
    requires ValidTransaction(Doubtful()) && ValidTransaction(Unresolved(Doubtful()))
    ensures Legible([SLASH], Doubtful()) && Legible([SLASH], Unresolved(Doubtful()))
  {
    assert Doubtful().items[0] == FileItem(0) && FileItem(0).snapshot.revision == Revision(0);
    hide FileItem, Revision, ValidTransaction, LegibleNames, Legible, StableIdentity, CONFLICT_DETAIL;
    FileText();
    DetailText();
    assert Unresolved(Doubtful()).Moves() == Doubtful().Moves() == [FileItem(0).AsMove()];
    NamesDecide([SLASH], Doubtful());
    NamesDecide([SLASH], Unresolved(Doubtful()));
  }

  /** However often it is resumed, and though nothing fails, a doubtful rename stays doubtful. */
  method ResumeDoubtful(rounds: nat) returns (last: RunStatus)
    ensures rounds > 0 ==> last == RunRecoveryRequired
  {
    hide FileBatch, Doubtful, Unresolved, WellPlanned, Storable, Legible, Holds, Size;
    var batch, t := FileBatch(1), Doubtful();
    FilesAreWellPlanned(1);
    DoubtfulRecord();
    DoubtfulAgain();
    var volume := new Volume.Found(batch, [SLASH], true, true, Disk(batch.initial, Some(t), None));
    var c := new Coordinator(volume, t);
    last := RunStopped;
    for round := 0 to rounds
      invariant volume.Valid() && volume.disk.Readable() in {Some(t), Some(Unresolved(t))}
      invariant round > 0 ==> last == RunRecoveryRequired
    {
      last := c.RunResume();
    }
  }

  lemma DoubtfulAgain()
    ensures Doubtful().evidence == Conflicting && Doubtful().activeIndex < |Doubtful().items|
    ensures Unresolved(Doubtful()).evidence == Conflicting
    ensures Unresolved(Unresolved(Doubtful())) == Unresolved(Doubtful())
    ensures Size([SLASH], Unresolved(Doubtful())) <= LIMIT
  {
    DoubtfulIsShort();
  }
}
