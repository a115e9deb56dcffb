/**
 What the journal of a batch can hold: how long the record of a transaction is, which
 transactions can be written, and what is read back.
 */
module BatchJournal {
  import opened Bytes
  import opened Fields
  import opened BatchTransaction
  import opened TransactionCodec
  import Crc32
  import JournalEnvelope
  import Utf8

  const BATCH_RENAME: u32 := 1
  const LIMIT: nat := JournalEnvelope.MAXIMUM_PAYLOAD_BYTES

  // ---------------------------------------------------------------- how long a record is

  function ItemSize(parent: Bytes, item: Item): nat {
    40 + 4 * |parent| + |item.source| + |item.temporary| + |item.destination| + |item.current|
    + |item.snapshot.revision|
  }

  function ItemsSize(parent: Bytes, items: seq<Item>): nat {
    if items == [] then 0 else ItemSize(parent, items[0]) + ItemsSize(parent, items[1..])
  }

  function Size(parent: Bytes, t: Transaction): nat {
    32 + |t.detail| + ItemsSize(parent, t.items)
  }

  /** The journal accepts the record. */
  predicate Storable(parent: Bytes, t: Transaction) {
    ValidTransaction(t) && Size(parent, t) <= LIMIT
  }

  /** A reader of the record gets the transaction back. */
  predicate Legible(parent: Bytes, t: Transaction) {
    IsText(Absolute(parent, t))
  }

  predicate LegibleNames(parent: Bytes, m: Move) {
    && Utf8.WellFormed(parent + m.source) && Utf8.WellFormed(parent + m.temporary)
    && Utf8.WellFormed(parent + m.destination)
  }

  /**
   The names decide: if one path of a batch is not UTF-8, none of its records can be read; if all
   are, only the revisions and the failure text of a record remain.
   */
  lemma NamesDecide(parent: Bytes, t: Transaction)
    requires ValidTransaction(t)
    ensures Legible(parent, t) <==>
      && (forall i | 0 <= i < |t.items| ::
            LegibleNames(parent, t.Moves()[i]) && Utf8.WellFormed(t.items[i].snapshot.revision))
      && Utf8.WellFormed(t.detail)
  {
    hide Utf8.WellFormed, ValidMoves, StableIdentity;
    forall i | 0 <= i < |t.items|
      ensures TextItem(Absolute(parent, t).items[i])
         <==> LegibleNames(parent, t.Moves()[i]) && Utf8.WellFormed(t.items[i].snapshot.revision)
    {
      assert t.Moves()[i] == t.items[i].AsMove() && ValidItem(t.phase, t.items[i]);
    }
  }

  lemma ItemBytes(parent: Bytes, item: Item)
    requires EncodableItem(AbsoluteItem(parent, item))
    ensures |EncodeItem(AbsoluteItem(parent, item))| == ItemSize(parent, item)
  {
    hide EncodeAll, LittleEndian, Pow256;
    var fs := ItemFields(AbsoluteItem(parent, item));
    EncodedSize(ITEM, fs, 10);
    assert ITEM[..10] == ITEM && fs[..10] == fs;
  }

  lemma HeaderBytes(t: Transaction)
    requires FitAll(HEADER, HeaderFields(t))
    ensures |EncodeAll(HEADER, HeaderFields(t))| == 32 + |t.detail|
  {
    hide EncodeAll, LittleEndian, Pow256;
    var fs := HeaderFields(t);
    EncodedSize(HEADER, fs, 10);
    assert HEADER[..10] == HEADER && fs[..10] == fs;
  }

  lemma {:induction false} ItemsBytes(parent: Bytes, items: seq<Item>, paths: seq<Item>)
    requires |paths| == |items|
    requires forall i | 0 <= i < |items| :: paths[i] == AbsoluteItem(parent, items[i]) && EncodableItem(paths[i])
    ensures |EncodeItems(paths)| == ItemsSize(parent, items)
  {
    hide EncodableItem, EncodeItem, AbsoluteItem;
    if items != [] {
      ItemBytes(parent, items[0]);
      ItemsBytes(parent, items[1..], paths[1..]);
    }
  }

  lemma {:induction false} ItemsSizeBounds(parent: Bytes, items: seq<Item>, i: nat)
    requires i < |items|
    ensures ItemSize(parent, items[i]) <= ItemsSize(parent, items)
  {
    if i > 0 {
      ItemsSizeBounds(parent, items[1..], i - 1);
    }
  }

  lemma ItemFits(parent: Bytes, item: Item)
    requires ItemSize(parent, item) <= LIMIT
    ensures EncodableItem(AbsoluteItem(parent, item))
  {
    Widths();
  }

  lemma HeaderFits(t: Transaction)
    requires |t.items| <= MAXIMUM_ITEMS && |t.detail| <= LIMIT
    ensures FitAll(HEADER, HeaderFields(t))
  {
    Widths();
  }

  lemma EncodableIfSmall(parent: Bytes, t: Transaction)
    requires ValidTransaction(t) && Size(parent, t) <= LIMIT
    ensures Encodable(Absolute(parent, t))
  {
    hide EncodableItem, FitAll, AbsoluteItem, ItemSize, ValidMoves, ValidItem;
    HeaderFits(Absolute(parent, t));
    forall i | 0 <= i < |t.items|
      ensures EncodableItem(Absolute(parent, t).items[i])
    {
      ItemsSizeBounds(parent, t.items, i);
      ItemFits(parent, t.items[i]);
    }
  }

  lemma BytesOf(parent: Bytes, t: Transaction)
    requires Encodable(Absolute(parent, t))
    ensures |EncodePaths(Absolute(parent, t))| == Size(parent, t)
  {
    HeaderBytes(Absolute(parent, t));
    ItemsBytes(parent, t.items, Absolute(parent, t).items);
  }

  /** The records the journal accepts are those that encode and fit into an envelope. */
  lemma StorableIffEncodes(parent: Bytes, t: Transaction)
    ensures Storable(parent, t) <==> Encode(parent, t).Some? && |Encode(parent, t).value| <= LIMIT
    ensures Encode(parent, t).Some? ==> |Encode(parent, t).value| == Size(parent, t)
  {
    hide EncodePaths, Encodable, ValidTransaction, Size, Absolute;
    if Storable(parent, t) {
      EncodableIfSmall(parent, t);
    }
    if Encodable(Absolute(parent, t)) {
      BytesOf(parent, t);
    }
  }

  // ---------------------------------------------------------------- writing and reading

  /** The bytes of a record; None when it is invalid, or too long for the transaction or the envelope. */
  method MakeRecord(parent: Bytes, t: Transaction) returns (record: Option<Bytes>)
    ensures record.Some? <==> Storable(parent, t)
    ensures record.Some? ==>
      Encode(parent, t).Some? && record.value == JournalEnvelope.Envelope(BATCH_RENAME, Encode(parent, t).value)
  {
    StorableIffEncodes(parent, t);
    var payload := Encode(parent, t);
    if payload.None? {
      return None;
    }
    var written := JournalEnvelope.Write(BATCH_RENAME, payload.value);
    record := if written.Record? then Some(written.bytes) else None;
  }

  /** The transaction in a record; None when the record is damaged, of another kind or not legible. */
  method LoadRecord(bytes: Bytes) returns (r: Option<Located>)
    ensures forall loaded | JournalEnvelope.Means(bytes, loaded) ::
      r == match loaded
           case Corrupt => None
           case LegacyUntyped(all) => Decode(all)
           case Typed(kind, payload) => if kind == BATCH_RENAME then Decode(payload) else None
  {
    var loaded := JournalEnvelope.Read(bytes);
    forall other | JournalEnvelope.Means(bytes, other)
      ensures other == loaded
    {
      JournalEnvelope.MeaningIsUnique(bytes, loaded, other);
    }
    match loaded
    case Corrupt => r := None;
    case LegacyUntyped(all) => r := Decode(all);
    case Typed(kind, payload) => r := if kind == BATCH_RENAME then Decode(payload) else None;
  }

  /** What is journalled is read back if, and only if, its paths and texts are UTF-8. */
  method ReadBack(parent: Bytes, t: Transaction) returns (r: Option<Transaction>)
    requires IsParent(parent) && Storable(parent, t)
    ensures r == if Legible(parent, t) then Some(t) else None
  {
    hide Encode, Decode, Storable, Crc32.Checksum;
    var record := MakeRecord(parent, t);
    var located := LoadRecord(record.value);
    StorableIffEncodes(parent, t);
    TransactionReadsBack(parent, t);
    assert JournalEnvelope.Means(record.value, JournalEnvelope.Typed(BATCH_RENAME, Encode(parent, t).value));
    assert located == Decode(Encode(parent, t).value);
    r := if located.None? then None else Some(located.value.txn);
  }
}
