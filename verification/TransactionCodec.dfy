/**
 The bytes of a journalled batch-rename transaction. Its strings are whole paths: the directory
 of the batch, up to and including its last separator, in front of every name.
 */
module TransactionCodec {
  import opened Bytes
  import opened Fields
  import opened BatchTransaction
  import Utf8

  const MAGIC: u32 := 0x3154_4256
  const VERSION: u32 := 3
  const MAXIMUM_PAYLOAD: nat := 4 * 1024 * 1024

  // ---------------------------------------------------------------- enumerations as bytes

  function PhaseCode(p: Phase): byte {
    match p case Prepared => 0 case Evacuating => 1 case RollingBack => 2 case CommitIntent => 3 case Publishing => 4
  }

  function PhaseOf(b: nat): (p: Option<Phase>)
    ensures p.Some? ==> PhaseCode(p.value) == b
  {
    if b == 0 then Some(Prepared) else if b == 1 then Some(Evacuating) else if b == 2 then Some(RollingBack)
    else if b == 3 then Some(CommitIntent) else if b == 4 then Some(Publishing) else None
  }

  function StepCode(s: StepKind): byte {
    match s case NoStep => 0 case Evacuate => 1 case RollBack => 2 case Publish => 3
  }

  function StepOf(b: nat): (s: Option<StepKind>)
    ensures s.Some? ==> StepCode(s.value) == b
  {
    if b == 0 then Some(NoStep) else if b == 1 then Some(Evacuate) else if b == 2 then Some(RollBack)
    else if b == 3 then Some(Publish) else None
  }

  function LocationCode(l: Location): byte {
    match l case AtSource => 0 case AtTemporary => 1 case AtDestination => 2
  }

  function LocationOf(b: nat): (l: Option<Location>)
    ensures l.Some? ==> LocationCode(l.value) == b
  {
    if b == 0 then Some(AtSource) else if b == 1 then Some(AtTemporary) else if b == 2 then Some(AtDestination)
    else None
  }

  function EvidenceCode(e: Evidence): byte {
    match e case NoEvidence => 0 case Committed => 1 case NoCommit => 2 case Conflicting => 3
  }

  function EvidenceOf(b: nat): (e: Option<Evidence>)
    ensures e.Some? ==> EvidenceCode(e.value) == b
  {
    if b == 0 then Some(NoEvidence) else if b == 1 then Some(Committed) else if b == 2 then Some(NoCommit)
    else if b == 3 then Some(Conflicting) else None
  }

  const STATUSES: seq<Status> := [
    Success, InvalidRequest, NotFound, Conflict, SourceChanged, PermissionDenied, AuthenticationRequired,
    Disconnected, TimedOut, Unsupported, UnknownOutcome, IoError, CrossDevice, FileInUse]

  function StatusCode(s: Status): (b: byte)
    ensures b < |STATUSES| && STATUSES[b] == s
  {
    match s
    case Success => 0 case InvalidRequest => 1 case NotFound => 2 case Conflict => 3 case SourceChanged => 4
    case PermissionDenied => 5 case AuthenticationRequired => 6 case Disconnected => 7 case TimedOut => 8
    case Unsupported => 9 case UnknownOutcome => 10 case IoError => 11 case CrossDevice => 12 case FileInUse => 13
  }

  function KindCode(k: ObjectKind): byte {
    match k case RegularFile => 0 case Directory => 1
  }

  // ---------------------------------------------------------------- paths

  predicate IsParent(parent: Bytes) {
    parent != [] && parent[0] == SLASH && parent[|parent| - 1] == SLASH
  }

  function AbsoluteItem(parent: Bytes, item: Item): Item {
    item.(source := parent + item.source, temporary := parent + item.temporary,
          destination := parent + item.destination, current := parent + item.current)
  }

  /** The transaction with paths in the place of names. */
  function Absolute(parent: Bytes, t: Transaction): (r: Transaction)
    ensures |r.items| == |t.items|
  {
    t.(items := seq(|t.items|, i requires 0 <= i < |t.items| => AbsoluteItem(parent, t.items[i])))
  }

  /** A path up to and including its last separator. */
  function ParentOf(path: Bytes): (parent: Bytes)
    ensures parent <= path && SLASH !in path[|parent|..]
    ensures parent != [] ==> parent[|parent| - 1] == SLASH
  {
    if path == [] then []
    else if path[|path| - 1] == SLASH then path
    else ParentOf(path[..|path| - 1])
  }

  predicate InParent(parent: Bytes, path: Bytes) {
    parent <= path && SLASH !in path[|parent|..]
  }

  predicate ItemInParent(parent: Bytes, item: Item) {
    && InParent(parent, item.source) && InParent(parent, item.temporary)
    && InParent(parent, item.destination) && InParent(parent, item.current)
  }

  function RelativeItem(parent: Bytes, item: Item): Item
    requires ItemInParent(parent, item)
  {
    item.(source := item.source[|parent|..], temporary := item.temporary[|parent|..],
          destination := item.destination[|parent|..], current := item.current[|parent|..])
  }

  datatype Located = Located(parent: Bytes, txn: Transaction)

  /** The transaction with names in the place of paths; None when the paths are not in one directory. */
  function Relative(t: Transaction): Option<Located>
    requires t.items != []
  {
    var parent := ParentOf(t.items[0].source);
    if IsParent(parent) && forall i | 0 <= i < |t.items| :: ItemInParent(parent, t.items[i])
    then
      Some(Located(parent, t.(items :=
        seq(|t.items|, i requires 0 <= i < |t.items| => RelativeItem(parent, t.items[i])))))
    else None
  }

  lemma {:induction false} ParentOfName(parent: Bytes, name: Name)
    requires IsParent(parent) && SLASH !in name
    ensures ParentOf(parent + name) == parent
  {
    if name == [] {
      assert parent + name == parent;
    } else {
      assert (parent + name)[..|parent + name| - 1] == parent + name[..|name| - 1];
      ParentOfName(parent, name[..|name| - 1]);
    }
  }

  lemma LeafHasNoSlash(operationId: u64, index: nat)
    ensures SLASH !in TemporaryLeaf(operationId, index)
  {
  }

  lemma RelativeOfAbsolute(parent: Bytes, t: Transaction)
    requires IsParent(parent) && ValidTransaction(t)
    ensures Relative(Absolute(parent, t)) == Some(Located(parent, t))
  {
    hide TemporaryLeaf, CollisionKey, StableIdentity;
    var paths := Absolute(parent, t).items;
    assert t.Moves()[0] == t.items[0].AsMove();
    ParentOfName(parent, t.items[0].source);
    forall i | 0 <= i < |t.items|
      ensures ItemInParent(parent, paths[i]) && RelativeItem(parent, paths[i]) == t.items[i]
    {
      var item := t.items[i];
      assert t.Moves()[i] == item.AsMove() && ValidItem(t.phase, item);
      LeafHasNoSlash(t.operationId, i);
      assert (parent + item.source)[|parent|..] == item.source;
      assert (parent + item.temporary)[|parent|..] == item.temporary;
      assert (parent + item.destination)[|parent|..] == item.destination;
      assert (parent + item.current)[|parent|..] == item.current;
    }
    assert Relative(Absolute(parent, t)).value.txn.items == t.items;
  }

  // ---------------------------------------------------------------- encoding

  const ITEM: seq<Kind> := [Int(1), Int(1), Int(2), Int(8), Int(8), Text, Text, Text, Text, Text]

  function ItemFields(item: Item): seq<Field> {
    [Number(LocationCode(item.location)), Number(KindCode(item.kind)), Number(0),
     Number(item.snapshot.size), Number(Unsigned(item.snapshot.modified)),
     Str(item.source), Str(item.temporary), Str(item.destination), Str(item.current),
     Str(item.snapshot.revision)]
  }

  const HEADER: seq<Kind> :=
    [Int(4), Int(4), Int(8), Int(1), Int(1), Int(1), Int(1), Int(4), Int(4), Text]

  function HeaderFields(t: Transaction): seq<Field> {
    [Number(MAGIC), Number(VERSION), Number(t.operationId),
     Number(PhaseCode(t.phase)), Number(StepCode(t.activeStep)),
     Number(StatusCode(t.failure)), Number(EvidenceCode(t.evidence)),
     Number(t.activeIndex), Number(|t.items|), Str(t.detail)]
  }

  predicate EncodableItem(item: Item) {
    FitAll(ITEM, ItemFields(item))
  }

  function EncodeItem(item: Item): Bytes
    requires EncodableItem(item)
  {
    EncodeAll(ITEM, ItemFields(item))
  }

  function EncodeItems(items: seq<Item>): Bytes
    requires forall i | 0 <= i < |items| :: EncodableItem(items[i])
  {
    if items == [] then [] else EncodeItem(items[0]) + EncodeItems(items[1..])
  }

  /** Every string has a length that four bytes can hold. */
  predicate Encodable(t: Transaction) {
    FitAll(HEADER, HeaderFields(t)) && forall i | 0 <= i < |t.items| :: EncodableItem(t.items[i])
  }

  function EncodePaths(t: Transaction): Bytes
    requires Encodable(t)
  {
    EncodeAll(HEADER, HeaderFields(t)) + EncodeItems(t.items)
  }

  /** None when the transaction is invalid or too large. */
  function Encode(parent: Bytes, t: Transaction): Option<Bytes> {
    if !ValidTransaction(t) || !Encodable(Absolute(parent, t)) then None
    else
      var payload := EncodePaths(Absolute(parent, t));
      if |payload| > MAXIMUM_PAYLOAD then None else Some(payload)
  }

  // ---------------------------------------------------------------- decoding

  predicate IsNumber(f: Field, bound: nat) {
    f.Number? && f.value < bound
  }

  predicate IsUtf8(f: Field) {
    f.Str? && Utf8.WellFormed(f.text)
  }

  const TWO_TO_THE_64: nat := 0x1_0000_0000_0000_0000

  function ItemOfFields(fs: seq<Field>, version: nat): Option<Item>
    requires |fs| == |ITEM|
  {
    if && IsNumber(fs[0], 3) && IsNumber(fs[1], if version == 2 then 1 else 2) && IsNumber(fs[2], 1)
       && IsNumber(fs[3], TWO_TO_THE_64) && IsNumber(fs[4], TWO_TO_THE_64)
       && IsUtf8(fs[5]) && IsUtf8(fs[6]) && IsUtf8(fs[7]) && IsUtf8(fs[8]) && IsUtf8(fs[9])
    then
      Some(Item(fs[5].text, fs[6].text, fs[7].text, fs[8].text,
                Snapshot(fs[3].value, Signed(fs[4].value), fs[9].text),
                LocationOf(fs[0].value).value, if fs[1].value == 0 then RegularFile else Directory))
    else None
  }

  function ReadItem(b: Bytes, version: nat): Read<Item> {
    match ReadAll(ITEM, b)
    case Short => Short
    case Read(fs, rest) =>
      match ItemOfFields(fs, version)
      case None => Short
      case Some(item) => Read(item, rest)
  }

  function ReadItems(b: Bytes, version: nat, count: nat): Read<seq<Item>>
    decreases count
  {
    if count == 0 then Read([], b)
    else match ReadItem(b, version)
      case Short => Short
      case Read(item, rest) =>
        match ReadItems(rest, version, count - 1)
        case Short => Short
        case Read(items, end) => Read([item] + items, end)
  }

  /** The header without its items; None when a field is out of range. */
  function HeaderOfFields(fs: seq<Field>, items: seq<Item>): Option<Transaction>
    requires |fs| == |HEADER|
  {
    if && fs[0] == Number(MAGIC) && fs[1] in {Number(2), Number(VERSION)} && IsNumber(fs[2], TWO_TO_THE_64)
       && IsNumber(fs[3], 5) && IsNumber(fs[4], 4) && IsNumber(fs[5], |STATUSES|) && IsNumber(fs[6], 4)
       && IsNumber(fs[7], 0x1_0000_0000) && IsNumber(fs[8], MAXIMUM_ITEMS + 1) && fs[8] != Number(0)
       && fs[9].Str?
    then
      Some(Transaction(fs[2].value, PhaseOf(fs[3].value).value, StepOf(fs[4].value).value, fs[7].value,
                       EvidenceOf(fs[6].value).value, STATUSES[fs[5].value], fs[9].text, items))
    else None
  }

  /** The transaction as it is written, with paths; None when fields are missing or out of range. */
  function DecodePaths(payload: Bytes): Option<Transaction> {
    match ReadAll(HEADER, payload)
    case Short => None
    case Read(fs, rest) =>
      if HeaderOfFields(fs, []).None? then None
      else match ReadItems(rest, fs[1].value, fs[8].value)
        case Short => None
        case Read(items, end) =>
          var t := HeaderOfFields(fs, items).value;
          if end != [] || !Utf8.WellFormed(t.detail) then None else Some(t)
  }

  /** None when the bytes are not a record that can be continued. */
  function Decode(payload: Bytes): Option<Located> {
    if |payload| > MAXIMUM_PAYLOAD || DecodePaths(payload).None? then None
    else
      var t := DecodePaths(payload).value;
      if t.items == [] || Relative(t).None? || !ValidTransaction(Relative(t).value.txn) then None
      else Relative(t)
  }

  // ---------------------------------------------------------------- round trip

  predicate TextItem(item: Item) {
    && Utf8.WellFormed(item.source) && Utf8.WellFormed(item.temporary) && Utf8.WellFormed(item.destination)
    && Utf8.WellFormed(item.current) && Utf8.WellFormed(item.snapshot.revision)
  }

  /** All names, revisions and the failure text are UTF-8. */
  predicate IsText(t: Transaction) {
    Utf8.WellFormed(t.detail) && forall i | 0 <= i < |t.items| :: TextItem(t.items[i])
  }

  lemma ItemReadsBack(item: Item, rest: Bytes)
    requires EncodableItem(item)
    ensures ReadItem(EncodeItem(item) + rest, VERSION) == if TextItem(item) then Read(item, rest) else Short
  {
    hide ReadAll, EncodeAll, Utf8.WellFormed;
    ReadsBack(ITEM, ItemFields(item), rest);
  }

  lemma {:induction false} ItemsReadBack(items: seq<Item>)
    requires forall i | 0 <= i < |items| :: EncodableItem(items[i])
    ensures ReadItems(EncodeItems(items), VERSION, |items|)
            == if forall i | 0 <= i < |items| :: TextItem(items[i]) then Read(items, []) else Short
  {
    hide ReadItem, EncodeItem, TextItem;
    if items != [] {
      ItemReadsBack(items[0], EncodeItems(items[1..]));
      ItemsReadBack(items[1..]);
      assert [items[0]] + items[1..] == items;
      assert forall i | 1 <= i < |items| :: items[i] == items[1..][i - 1];
    }
  }

  lemma HeaderReadsBack(t: Transaction, rest: Bytes)
    requires 0 < |t.items| <= MAXIMUM_ITEMS && Encodable(t)
    ensures ReadAll(HEADER, EncodeAll(HEADER, HeaderFields(t)) + rest) == Read(HeaderFields(t), rest)
    ensures forall items :: HeaderOfFields(HeaderFields(t), items) == Some(t.(items := items))
  {
    hide ReadAll, EncodeAll, Utf8.WellFormed;
    ReadsBack(HEADER, HeaderFields(t), rest);
    assert |t.items| <= MAXIMUM_ITEMS;
  }

  lemma PathsReadBack(t: Transaction)
    requires 0 < |t.items| <= MAXIMUM_ITEMS && Encodable(t)
    ensures DecodePaths(EncodePaths(t)) == if IsText(t) then Some(t) else None
  {
    ItemsReadBack(t.items);
    HeaderReadsBack(t, EncodeItems(t.items));
    assert t.(items := t.items) == t;
  }

  /**
   A written record is read back as the same transaction if, and only if, its paths, revisions and
   failure text are UTF-8: encoding does not check that, decoding does.
   */
  lemma TransactionReadsBack(parent: Bytes, t: Transaction)
    requires IsParent(parent) && Encode(parent, t).Some?
    ensures Decode(Encode(parent, t).value)
            == if IsText(Absolute(parent, t)) then Some(Located(parent, t)) else None
  {
    assert 0 < |t.items| <= MAXIMUM_ITEMS;
    hide EncodePaths, DecodePaths, IsText, Encodable, ValidTransaction, Absolute, Relative;
    PathsReadBack(Absolute(parent, t));
    RelativeOfAbsolute(parent, t);
  }
}
