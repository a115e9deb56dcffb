/** The typed envelope around the current-operation journal, and the legacy records before it. */
module JournalEnvelope {
  import opened Bytes
  import opened BatchTransaction
  import Crc32
  import Fields
  import TransactionCodec

  const MAGIC: Bytes := [0x56, 0x4f, 0x56, 0x45, 0x43, 0x55, 0x52, 0x52]
  const RESERVED_PREFIX: Bytes := [0x56, 0x4f, 0x56, 0x45]
  const SCHEMA_VERSION: u32 := 1
  const HEADER_BYTES: nat := 24
  const MAXIMUM_PAYLOAD_BYTES: nat := 4 * 1024 * 1024 - HEADER_BYTES

  datatype Loaded = Corrupt | LegacyUntyped(bytes: Bytes) | Typed(kind: u32, payload: Bytes)

  datatype Written = UnknownKind | PayloadTooLarge | Record(bytes: Bytes)

  function Header(kind: nat, size: nat, checksum: nat): (h: Bytes)
    ensures |h| == HEADER_BYTES
  {
    MAGIC + LittleEndian(SCHEMA_VERSION, 4) + LittleEndian(kind, 4) + LittleEndian(size, 4) + LittleEndian(checksum, 4)
  }

  function Envelope(kind: u32, payload: Bytes): Bytes {
    Header(kind, |payload|, Crc32.Checksum(payload)) + payload
  }

  /** What a write would have produced. */
  predicate IsRecord(bytes: Bytes, kind: u32, payload: Bytes) {
    kind != 0 && |payload| <= MAXIMUM_PAYLOAD_BYTES && bytes == Envelope(kind, payload)
  }

  /** What the stored bytes mean. */
  ghost predicate Means(bytes: Bytes, loaded: Loaded) {
    match loaded
    case Typed(kind, payload) => IsRecord(bytes, kind, payload)
    case LegacyUntyped(all) => all == bytes && !(RESERVED_PREFIX <= bytes)
    case Corrupt => RESERVED_PREFIX <= bytes && forall kind, payload :: !IsRecord(bytes, kind, payload)
  }

  // ---------------------------------------------------------------- writing

  method WriteU32(bytes: array<byte>, offset: nat, value: u32)
    requires offset + 4 <= bytes.Length
    modifies bytes
    ensures bytes[..offset + 4] == old(bytes[..offset]) + LittleEndian(value, 4)
  {
    hide *;
    bytes[offset] := value % 0x100;
    bytes[offset + 1] := value / 0x100 % 0x100;
    bytes[offset + 2] := value / 0x1_0000 % 0x100;
    bytes[offset + 3] := value / 0x100_0000 % 0x100;
    FourBytes(value);
    assert bytes[..offset] == old(bytes[..offset]);
    Joins(bytes[..], offset, LittleEndian(value, 4));
  }

  /** A block of the output at its offset. */
  method WriteBlock(bytes: array<byte>, offset: nat, block: Bytes)
    requires offset + |block| <= bytes.Length
    modifies bytes
    ensures bytes[..offset + |block|] == old(bytes[..offset]) + block
  {
    forall i | 0 <= i < |block| {
      bytes[offset + i] := block[i];
    }
    assert bytes[..offset] == old(bytes[..offset]);
    Joins(bytes[..], offset, block);
  }

  lemma Joins(bytes: Bytes, offset: nat, block: Bytes)
    requires offset + |block| <= |bytes| && forall i | 0 <= i < |block| :: bytes[offset + i] == block[i]
    ensures bytes[..offset + |block|] == bytes[..offset] + block
  {
  }

  lemma FourBytes(value: u32)
    ensures LittleEndian(value, 4)
         == [value % 0x100, value / 0x100 % 0x100, value / 0x1_0000 % 0x100, value / 0x100_0000 % 0x100]
  {
    assert value / 0x100 / 0x100 == value / 0x1_0000;
    assert value / 0x1_0000 / 0x100 == value / 0x100_0000;
    assert LittleEndian(value / 0x1_0000, 2)
        == [value / 0x1_0000 % 0x100] + LittleEndian(value / 0x100_0000, 1);
  }

  lemma HeaderParts(kind: nat, size: nat, checksum: nat)
    ensures Header(kind, size, checksum)
         == MAGIC + LittleEndian(SCHEMA_VERSION, 4) + LittleEndian(kind, 4) + LittleEndian(size, 4)
            + LittleEndian(checksum, 4)
  {
  }

  method Encode(kind: u32, payload: Bytes) returns (bytes: array<byte>)
    requires |payload| <= MAXIMUM_PAYLOAD_BYTES
    ensures fresh(bytes) && bytes[..] == Envelope(kind, payload)
  {
    assert Envelope(kind, payload) == Header(kind, |payload|, Crc32.Checksum(payload)) + payload;
    hide *;
    bytes := new byte[HEADER_BYTES + |payload|](_ => 0);
    WriteHeader(bytes, kind, payload);
    WriteBlock(bytes, 24, payload);
    assert bytes[..] == bytes[..24 + |payload|];
  }

  method WriteHeader(bytes: array<byte>, kind: u32, payload: Bytes)
    requires bytes.Length >= HEADER_BYTES && |payload| <= MAXIMUM_PAYLOAD_BYTES
    modifies bytes
    ensures bytes[..24] == Header(kind, |payload|, Crc32.Checksum(payload))
  {
    HeaderParts(kind, |payload|, Crc32.Checksum(payload));
    hide *;
    WriteBlock(bytes, 0, MAGIC);
    assert bytes[..8] == MAGIC;
    WriteU32(bytes, 8, SCHEMA_VERSION);
    WriteU32(bytes, 12, kind);
    WriteU32(bytes, 16, |payload|);
    var checksum := Crc32.BitwiseChecksum(payload);
    WriteU32(bytes, 20, checksum);
  }

  method Write(kind: u32, payload: Bytes) returns (written: Written)
    ensures kind == 0 ==> written == UnknownKind
    ensures kind != 0 && |payload| > MAXIMUM_PAYLOAD_BYTES ==> written == PayloadTooLarge
    ensures kind != 0 && |payload| <= MAXIMUM_PAYLOAD_BYTES ==>
              written.Record? && IsRecord(written.bytes, kind, payload)
  {
    if kind == 0 {
      return UnknownKind;
    }
    if |payload| > MAXIMUM_PAYLOAD_BYTES {
      return PayloadTooLarge;
    }
    var bytes := Encode(kind, payload);
    written := Record(bytes[..]);
  }

  // ---------------------------------------------------------------- reading

  function U32At(bytes: Bytes, offset: nat): u32
    requires offset + 4 <= |bytes|
  {
    Widths();
    LittleEndianWritesBack(bytes[offset..offset + 4]);
    FromLittleEndian(bytes[offset..offset + 4])
  }

  method Read(bytes: Bytes) returns (loaded: Loaded)
    ensures Means(bytes, loaded)
  {
    var reservedPrefix := |bytes| >= 4 && bytes[..4] == RESERVED_PREFIX;
    var exactMagic := |bytes| >= 8 && bytes[..8] == MAGIC;
    PrefixesOf(bytes);
    if !exactMagic {
      if reservedPrefix {
        return Corrupt;
      }
      return LegacyUntyped(bytes);
    }
    if |bytes| < HEADER_BYTES || U32At(bytes, 8) != SCHEMA_VERSION {
      return Corrupt;
    }
    var kind, payloadSize := U32At(bytes, 12), U32At(bytes, 16);
    if kind == 0 || payloadSize > MAXIMUM_PAYLOAD_BYTES || |bytes| != HEADER_BYTES + payloadSize {
      return Corrupt;
    }
    var payload := bytes[HEADER_BYTES..];
    var checksum := Crc32.BitwiseChecksum(payload);
    if U32At(bytes, 20) != checksum {
      return Corrupt;
    }
    HeaderOf(bytes);
    loaded := Typed(kind, payload);
  }

  /** Only bytes with these properties are the envelope of anything. */
  lemma PrefixesOf(bytes: Bytes)
    ensures |bytes| >= 8 && bytes[..8] == MAGIC ==> RESERVED_PREFIX <= bytes
    ensures forall kind, payload :: IsRecord(bytes, kind, payload) ==>
      && |bytes| == HEADER_BYTES + |payload| && bytes[..8] == MAGIC && bytes[HEADER_BYTES..] == payload
      && U32At(bytes, 8) == SCHEMA_VERSION && U32At(bytes, 12) == kind && U32At(bytes, 16) == |payload|
      && U32At(bytes, 20) == Crc32.Checksum(payload)
  {
    if |bytes| >= 8 && bytes[..8] == MAGIC {
      assert bytes[..8][..4] == RESERVED_PREFIX;
    }
    forall kind, payload | IsRecord(bytes, kind, payload)
      ensures |bytes| == HEADER_BYTES + |payload| && bytes[..8] == MAGIC && bytes[HEADER_BYTES..] == payload
      ensures U32At(bytes, 8) == SCHEMA_VERSION && U32At(bytes, 12) == kind && U32At(bytes, 16) == |payload|
      ensures U32At(bytes, 20) == Crc32.Checksum(payload)
    {
      EnvelopeParts(kind, payload);
    }
  }

  lemma EnvelopeParts(kind: u32, payload: Bytes)
    requires |payload| <= MAXIMUM_PAYLOAD_BYTES
    ensures var b := Envelope(kind, payload);
      && |b| == HEADER_BYTES + |payload| && b[..8] == MAGIC && b[HEADER_BYTES..] == payload
      && U32At(b, 8) == SCHEMA_VERSION && U32At(b, 12) == kind && U32At(b, 16) == |payload|
      && U32At(b, 20) == Crc32.Checksum(payload)
  {
    hide Crc32.Checksum;
    var b := Envelope(kind, payload);
    Widths();
    LittleEndianReadsBack(SCHEMA_VERSION, 4);
    LittleEndianReadsBack(kind, 4);
    LittleEndianReadsBack(|payload|, 4);
    LittleEndianReadsBack(Crc32.Checksum(payload), 4);
    assert b[8..12] == LittleEndian(SCHEMA_VERSION, 4);
    assert b[12..16] == LittleEndian(kind, 4);
    assert b[16..20] == LittleEndian(|payload|, 4);
    assert b[20..24] == LittleEndian(Crc32.Checksum(payload), 4);
  }

  lemma PartBack(bytes: Bytes, offset: nat)
    requires offset + 4 <= |bytes|
    ensures LittleEndian(U32At(bytes, offset), 4) == bytes[offset..offset + 4]
  {
    LittleEndianWritesBack(bytes[offset..offset + 4]);
  }

  lemma SixParts(bytes: Bytes)
    requires |bytes| >= HEADER_BYTES
    ensures bytes
         == bytes[..8] + bytes[8..12] + bytes[12..16] + bytes[16..20] + bytes[20..24] + bytes[HEADER_BYTES..]
  {
    assert bytes[..8] + bytes[8..12] == bytes[..12];
    assert bytes[..12] + bytes[12..16] == bytes[..16];
    assert bytes[..16] + bytes[16..20] == bytes[..20];
    assert bytes[..20] + bytes[20..24] == bytes[..24];
  }

  lemma HeaderOf(bytes: Bytes)
    requires |bytes| >= HEADER_BYTES && bytes[..8] == MAGIC && U32At(bytes, 8) == SCHEMA_VERSION
    ensures bytes == Header(U32At(bytes, 12), U32At(bytes, 16), U32At(bytes, 20)) + bytes[HEADER_BYTES..]
  {
    PartBack(bytes, 8);
    PartBack(bytes, 12);
    PartBack(bytes, 16);
    PartBack(bytes, 20);
    SixParts(bytes);
  }

  // ---------------------------------------------------------------- what reading guarantees

  /** The stored bytes have one meaning: a record reads back as the kind and payload written. */
  lemma MeaningIsUnique(bytes: Bytes, a: Loaded, b: Loaded)
    requires Means(bytes, a) && Means(bytes, b)
    ensures a == b
  {
    PrefixesOf(bytes);
  }

  lemma EveryRecordReadsBack(kind: u32, payload: Bytes, loaded: Loaded)
    requires kind != 0 && |payload| <= MAXIMUM_PAYLOAD_BYTES
    requires Means(Envelope(kind, payload), loaded)
    ensures loaded == Typed(kind, payload)
  {
    MeaningIsUnique(Envelope(kind, payload), loaded, Typed(kind, payload));
  }

  /**
   One damaged byte, wherever it is: legacy only if the reserved prefix itself is hit, corrupt in
   the rest of the header and in the payload. The kind is the one field no check covers.
   */
  lemma DamageIsClassified(kind: u32, payload: Bytes, at: nat, bad: byte, loaded: Loaded)
    requires kind != 0 && |payload| <= MAXIMUM_PAYLOAD_BYTES
    requires at < HEADER_BYTES + |payload| && bad != Envelope(kind, payload)[at]
    requires Means(Envelope(kind, payload)[at := bad], loaded)
    ensures at < 4 <==> loaded.LegacyUntyped?
    ensures loaded.Typed? <==> 12 <= at < 16 && U32At(Envelope(kind, payload)[at := bad], 12) != 0
    ensures loaded.Typed? ==> loaded.kind != kind && loaded.payload == payload
  {
    hide Crc32.Checksum;
    var good := Envelope(kind, payload);
    var damaged := good[at := bad];
    EnvelopeParts(kind, payload);
    PrefixesOf(damaged);
    assert good[..4] == RESERVED_PREFIX;
    if at < 4 {
      assert damaged[..4][at] != RESERVED_PREFIX[at];
    } else {
      assert damaged[..4] == RESERVED_PREFIX;
      if 12 <= at < 16 {
        DamagedKind(good, at, bad);
        HeaderOf(damaged);
        assert damaged[24..] == payload;
        var other := U32At(damaged, 12);
        if other != 0 {
          assert damaged == Envelope(other, payload);
          MeaningIsUnique(damaged, loaded, Typed(other, payload));
        }
      } else if loaded.Typed? {
        DamagedElsewhere(kind, payload, at, bad, loaded.kind, loaded.payload);
      }
    }
  }

  lemma DamagedKind(good: Bytes, at: nat, bad: byte)
    requires |good| >= HEADER_BYTES && 12 <= at < 16 && bad != good[at]
    ensures U32At(good[at := bad], 12) != U32At(good, 12)
    ensures U32At(good[at := bad], 8) == U32At(good, 8) && U32At(good[at := bad], 16) == U32At(good, 16)
    ensures U32At(good[at := bad], 20) == U32At(good, 20) && good[at := bad][..8] == good[..8]
  {
    var damaged := good[at := bad];
    assert damaged[8..12] == good[8..12] && damaged[16..20] == good[16..20] && damaged[20..24] == good[20..24];
    LittleEndianWritesBack(damaged[12..16]);
    LittleEndianWritesBack(good[12..16]);
    assert damaged[12..16][at - 12] != good[12..16][at - 12];
  }

  lemma DamagedElsewhere(kind: u32, payload: Bytes, at: nat, bad: byte, kind': u32, payload': Bytes)
    requires |payload| <= MAXIMUM_PAYLOAD_BYTES
    requires at < HEADER_BYTES + |payload| && bad != Envelope(kind, payload)[at]
    requires 4 <= at && !(12 <= at < 16)
    ensures !IsRecord(Envelope(kind, payload)[at := bad], kind', payload')
  {
    if at < 24 {
      KindTouchesFourBytes(kind, kind', payload, at);
      if IsRecord(Envelope(kind, payload)[at := bad], kind', payload') {
        SamePayload(kind, payload, at, bad, kind', payload');
      }
    } else {
      DamagedPayload(kind, payload, at - 24, bad);
      if IsRecord(Envelope(kind, payload)[at := bad], kind', payload') {
        EnvelopeParts(kind', payload');
      }
    }
  }

  lemma SamePayload(kind: u32, payload: Bytes, at: nat, bad: byte, kind': u32, payload': Bytes)
    requires at < HEADER_BYTES && IsRecord(Envelope(kind, payload)[at := bad], kind', payload')
    ensures payload' == payload
  {
    hide Crc32.Checksum;
    var damaged := Envelope(kind, payload)[at := bad];
    EnvelopeParts(kind', payload');
    assert damaged[HEADER_BYTES..] == payload;
  }

  lemma DamagedPayload(kind: u32, payload: Bytes, i: nat, bad: byte)
    requires i < |payload| <= MAXIMUM_PAYLOAD_BYTES && bad != payload[i]
    ensures var damaged := Envelope(kind, payload)[HEADER_BYTES + i := bad];
      U32At(damaged, 20) != Crc32.Checksum(damaged[HEADER_BYTES..])
  {
    EnvelopeParts(kind, payload);
    KeepsHeader(Envelope(kind, payload), i, bad);
    OneChangeNoticed(payload, i, bad);
  }

  lemma KeepsHeader(good: Bytes, i: nat, bad: byte)
    requires HEADER_BYTES + i < |good|
    ensures U32At(good[HEADER_BYTES + i := bad], 20) == U32At(good, 20)
    ensures good[HEADER_BYTES + i := bad][HEADER_BYTES..] == good[HEADER_BYTES..][i := bad]
  {
    assert good[HEADER_BYTES + i := bad][20..24] == good[20..24];
  }

  lemma OneChangeNoticed(payload: Bytes, i: nat, bad: byte)
    requires i < |payload| && bad != payload[i]
    ensures Crc32.Checksum(payload[i := bad]) != Crc32.Checksum(payload)
  {
    assert payload == payload[..i] + [payload[i]] + payload[i + 1..];
    assert payload[i := bad] == payload[..i] + [bad] + payload[i + 1..];
    Crc32.OneDamagedByteIsNoticed(payload[..i], payload[i], bad, payload[i + 1..]);
  }

  lemma KindTouchesFourBytes(kind: u32, kind': u32, payload: Bytes, at: nat)
    requires at < 12 || 16 <= at < 24
    ensures Envelope(kind, payload)[at] == Envelope(kind', payload)[at]
  {
  }

  /** A transaction journalled before the envelope existed is never taken for a damaged record. */
  lemma LegacyTransactionIsRecognised(parent: Bytes, t: Transaction, bytes: Bytes, loaded: Loaded)
    requires TransactionCodec.Encode(parent, t) == Some(bytes) && Means(bytes, loaded)
    ensures loaded == LegacyUntyped(bytes)
  {
    hide TransactionCodec.EncodePaths, TransactionCodec.Absolute, ValidTransaction, TransactionCodec.Encodable,
         Crc32.Checksum;
    FirstTwoBytes(TransactionCodec.Absolute(parent, t));
    PrefixesOf(bytes);
  }

  lemma FirstTwoBytes(t: Transaction)
    requires TransactionCodec.Encodable(t)
    ensures var bytes := TransactionCodec.EncodePaths(t);
      |bytes| > 1 && bytes[0] == 0x56 && bytes[1] == 0x42
  {
    hide TransactionCodec.EncodeItems, TransactionCodec.EncodableItem, Fields.EncodeAll, Fields.FitAll, LittleEndian;
    Fields.EncodeFirst(TransactionCodec.HEADER, TransactionCodec.HeaderFields(t));
    FourBytes(TransactionCodec.MAGIC);
  }
}
