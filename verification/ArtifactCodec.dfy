/** The VVT1 artifact format: a checksummed header with a colour identity, then the payload. */
module ArtifactCodec {
  import opened Bytes
  import Crc32
  import Utf8

  const MAGIC: Bytes := [0x56, 0x56, 0x54, 0x31]
  const VERSION: u16 := 5
  const HEADER_BYTES: nat := 72
  const MAX_ARTIFACT_BYTES: nat := 24 * 1024 * 1024
  const MAX_DIMENSION: nat := 2048
  const MAX_PAGES: nat := 1_000_000
  const MAX_NAME_BYTES: nat := 256
  const MAX_FINGERPRINT_BYTES: nat := 128
  const QOI_RGBA8: byte := 1
  const INDEXED: byte := 6
  const EMBEDDED_PREVIEW: byte := 1

  datatype Metadata = Metadata(encoding: byte, width: u32, height: u32, payloadBytes: u32, payloadCrc: u32,
                               pages: u32, model: byte, provenance: byte)

  datatype ColorIdentity = ColorIdentity(name: Bytes, fingerprint: Bytes)

  datatype Artifact = Artifact(metadata: Metadata, digest: Bytes, identity: ColorIdentity, payload: Bytes)

  datatype Encoding = InvalidArgument | TooLarge | Encoded(bytes: Bytes, metadata: Metadata)

  predicate ValidMetadata(m: Metadata) {
    && m.encoding == QOI_RGBA8 && m.model <= INDEXED && m.provenance <= EMBEDDED_PREVIEW
    && 0 < m.width <= MAX_DIMENSION && 0 < m.height <= MAX_DIMENSION && 0 < m.pages <= MAX_PAGES
  }

  predicate IsName(text: Bytes) {
    Utf8.WellFormed(text) && 0 !in text
  }

  predicate ValidIdentity(c: ColorIdentity) {
    && |c.name| <= MAX_NAME_BYTES && |c.fingerprint| <= MAX_FINGERPRINT_BYTES
    && IsName(c.name) && IsName(c.fingerprint)
  }

  function HeaderLength(c: ColorIdentity): nat {
    HEADER_BYTES + |c.name| + |c.fingerprint|
  }

  // ---------------------------------------------------------------- integers at offsets

  function Joined(a: byte, b: byte, c: byte, d: byte): nat {
    FromLittleEndian([a, b, c, d])
  }

  lemma JoinedIs(a: byte, b: byte, c: byte, d: byte)
    ensures Joined(a, b, c, d) == a + 0x100 * (b + 0x100 * (c + 0x100 * d))
  {
    FirstByteOf(a, [b, c, d]);
    FirstByteOf(b, [c, d]);
    FirstByteOf(c, [d]);
    FirstByteOf(d, []);
  }

  lemma FirstByteOf(low: byte, high: Bytes)
    ensures FromLittleEndian([low] + high) == low + 0x100 * FromLittleEndian(high)
  {
  }

  lemma JoinSplit(value: u32)
    ensures 0 <= value / 0x100_0000 < 0x100
    ensures Joined(value % 0x100, value / 0x100 % 0x100, value / 0x1_0000 % 0x100, value / 0x100_0000) == value
  {
    var high := value / 0x100;
    var higher := high / 0x100;
    assert higher == value / 0x1_0000 && higher / 0x100 == value / 0x100_0000;
    JoinedIs(value % 0x100, high % 0x100, higher % 0x100, higher / 0x100);
  }

  lemma JoinedIsInjective(a: byte, b: byte, c: byte, d: byte, a': byte, b': byte, c': byte, d': byte)
    requires Joined(a, b, c, d) == Joined(a', b', c', d')
    ensures a == a' && b == b' && c == c' && d == d'
  {
    JoinedIs(a, b, c, d);
    JoinedIs(a', b', c', d');
    hide *;
    SameLowByte(a, b + 0x100 * (c + 0x100 * d), a', b' + 0x100 * (c' + 0x100 * d'));
    SameLowByte(b, c + 0x100 * d, b', c' + 0x100 * d');
    SameLowByte(c, d, c', d');
  }

  lemma SameLowByte(low: byte, high: nat, low': byte, high': nat)
    requires low + 0x100 * high == low' + 0x100 * high'
    ensures low == low' && high == high'
  {
    LowByte(low, high);
    LowByte(low', high');
  }

  function U16(b: Bytes, at: nat): u16
    requires at + 2 <= |b|
  {
    JoinedIs(b[at], b[at + 1], 0, 0);
    Joined(b[at], b[at + 1], 0, 0)
  }

  function U32(b: Bytes, at: nat): u32
    requires at + 4 <= |b|
  {
    JoinedIs(b[at], b[at + 1], b[at + 2], b[at + 3]);
    Joined(b[at], b[at + 1], b[at + 2], b[at + 3])
  }

  method WriteU16(output: array<byte>, at: nat, value: u16)
    requires at + 2 <= output.Length
    modifies output
    ensures U16(output[..], at) == value && output[at + 1] == value / 0x100
    ensures forall i | 0 <= i < output.Length && !(at <= i < at + 2) :: output[i] == old(output[i])
  {
    output[at] := value % 0x100;
    output[at + 1] := value / 0x100;
    JoinedIs(value % 0x100, value / 0x100, 0, 0);
  }

  method WriteU32(output: array<byte>, at: nat, value: u32)
    requires at + 4 <= output.Length
    modifies output
    ensures U32(output[..], at) == value
    ensures forall i | 0 <= i < output.Length && !(at <= i < at + 4) :: output[i] == old(output[i])
  {
    JoinSplit(value);
    output[at] := value % 0x100;
    output[at + 1] := value / 0x100 % 0x100;
    output[at + 2] := value / 0x1_0000 % 0x100;
    output[at + 3] := value / 0x100_0000;
  }

  method Copy(output: array<byte>, at: nat, data: Bytes)
    requires at + |data| <= output.Length
    modifies output
    ensures output[..][at..at + |data|] == data
    ensures forall i | 0 <= i < output.Length && !(at <= i < at + |data|) :: output[i] == old(output[i])
  {
    forall i | 0 <= i < |data| {
      output[at + i] := data[i];
    }
  }

  // ---------------------------------------------------------------- the format

  /** The header is summed with its own checksum field zeroed. */
  function HeaderChecksum(header: Bytes): u32
    requires |header| >= HEADER_BYTES
  {
    Crc32.Checksum(header[..28] + [0, 0, 0, 0] + header[32..])
  }

  predicate Sized(b: Bytes, a: Artifact) {
    && |a.digest| == 32 && ValidMetadata(a.metadata) && ValidIdentity(a.identity)
    && |b| == HeaderLength(a.identity) + |a.payload| <= MAX_ARTIFACT_BYTES
  }

  predicate HasSizes(b: Bytes, a: Artifact)
    requires |b| >= HEADER_BYTES
  {
    && b[0] == MAGIC[0] && b[1] == MAGIC[1] && b[2] == MAGIC[2] && b[3] == MAGIC[3]
    && U16(b, 4) == VERSION && U16(b, 6) == HeaderLength(a.identity)
    && U16(b, 64) == |a.identity.name| && U16(b, 66) == |a.identity.fingerprint|
  }

  /** Of the two encoding bytes only the first is looked at: the enumeration is one byte wide. */
  predicate HasMetadata(b: Bytes, m: Metadata)
    requires |b| >= HEADER_BYTES
  {
    && b[8] == m.encoding && b[10] == m.model && b[11] == m.provenance
    && U32(b, 12) == m.width && U32(b, 16) == m.height && U32(b, 20) == m.payloadBytes
    && U32(b, 24) == m.payloadCrc && U32(b, 68) == m.pages
  }

  predicate HasBlocks(b: Bytes, a: Artifact)
    requires Sized(b, a)
  {
    var named := HEADER_BYTES + |a.identity.name|;
    var header := HeaderLength(a.identity);
    && b[32..64] == a.digest && b[HEADER_BYTES..named] == a.identity.name
    && b[named..header] == a.identity.fingerprint && b[header..] == a.payload
  }

  predicate HasChecksums(b: Bytes, a: Artifact)
    requires Sized(b, a)
  {
    && U32(b, 28) == HeaderChecksum(b[..HeaderLength(a.identity)])
    && a.metadata.payloadCrc == Crc32.Checksum(a.payload) && a.metadata.payloadBytes == |a.payload|
  }

  /** These bytes are an artifact file holding a. */
  predicate Represents(b: Bytes, a: Artifact) {
    && Sized(b, a) && HasSizes(b, a) && HasMetadata(b, a.metadata) && HasBlocks(b, a) && HasChecksums(b, a)
  }

  // ---------------------------------------------------------------- encoding

  method WriteMetadata(output: array<byte>, m: Metadata)
    requires output.Length >= HEADER_BYTES
    modifies output
    ensures HasMetadata(output[..], m) && output[9] == 0
    ensures forall i | 0 <= i < output.Length && !(8 <= i < 28 || 68 <= i < 72) :: output[i] == old(output[i])
  {
    WriteU16(output, 8, m.encoding);
    output[10] := m.model;
    output[11] := m.provenance;
    WriteU32(output, 12, m.width);
    WriteU32(output, 16, m.height);
    WriteU32(output, 20, m.payloadBytes);
    WriteU32(output, 24, m.payloadCrc);
    WriteU32(output, 68, m.pages);
  }

  method WriteSizes(output: array<byte>, a: Artifact)
    requires Sized(output[..], a)
    modifies output
    ensures HasSizes(output[..], a)
    ensures forall i | 0 <= i < output.Length && !(i < 8 || 64 <= i < 68) :: output[i] == old(output[i])
  {
    Copy(output, 0, MAGIC);
    assert output[..4] == MAGIC;
    WriteU16(output, 4, VERSION);
    WriteU16(output, 6, HeaderLength(a.identity));
    WriteU16(output, 64, |a.identity.name|);
    WriteU16(output, 66, |a.identity.fingerprint|);
  }

  method WriteBlocks(output: array<byte>, a: Artifact)
    requires Sized(output[..], a)
    modifies output
    ensures Sized(output[..], a) && HasBlocks(output[..], a)
    ensures forall i | 0 <= i < HEADER_BYTES && !(32 <= i < 64) :: output[i] == old(output[i])
  {
    var named := HEADER_BYTES + |a.identity.name|;
    var header := HeaderLength(a.identity);
    Copy(output, 32, a.digest);
    ghost var one := output[..];
    Copy(output, HEADER_BYTES, a.identity.name);
    ghost var two := output[..];
    Copy(output, named, a.identity.fingerprint);
    ghost var three := output[..];
    Copy(output, header, a.payload);
    ghost var four := output[..];
    SliceKept(one, four, 32, 64);
    SliceKept(two, four, HEADER_BYTES, named);
    SliceKept(three, four, named, header);
    assert four[32..64] == a.digest && four[HEADER_BYTES..named] == a.identity.name;
    assert four[..header + |a.payload|] == four;
    assert four[named..header] == a.identity.fingerprint && four[header..] == a.payload;
  }

  predicate Admitted(a: Artifact) {
    && |a.digest| == 32 && ValidMetadata(a.metadata) && ValidIdentity(a.identity)
    && HeaderLength(a.identity) + |a.payload| <= MAX_ARTIFACT_BYTES
    && a.metadata.payloadCrc == Crc32.Checksum(a.payload) && a.metadata.payloadBytes == |a.payload|
  }

  predicate Unsummed(b: Bytes) {
    |b| >= HEADER_BYTES && b[28] == 0 && b[29] == 0 && b[30] == 0 && b[31] == 0
  }

  method WriteAll(output: array<byte>, a: Artifact)
    requires Sized(output[..], a)
    modifies output
    ensures AllButSum(output[..], a)
  {
    hide Crc32.Checksum, Utf8.WellFormed, HasSizes, HasMetadata, HasBlocks, ValidMetadata, ValidIdentity, U16, U32;
    WriteSizes(output, a);
    ghost var sized := output[..];
    WriteMetadata(output, a.metadata);
    ghost var stamped := output[..];
    Copy(output, 28, [0, 0, 0, 0]);
    assert output[28..32] == [0, 0, 0, 0];
    ghost var numbered := output[..];
    Cleared(numbered);
    WriteBlocks(output, a);
    ghost var written := output[..];
    SizesKept(sized, written, a);
    MetadataKept(stamped, written, a.metadata);
  }

  lemma SizesKept(before: Bytes, after: Bytes, a: Artifact)
    requires HEADER_BYTES <= |before| && HEADER_BYTES <= |after| && HasSizes(before, a)
    requires forall i | 0 <= i < 8 || 64 <= i < 68 :: after[i] == before[i]
    ensures HasSizes(after, a)
  {
  }

  lemma MetadataKept(before: Bytes, after: Bytes, m: Metadata)
    requires HEADER_BYTES <= |before| && HEADER_BYTES <= |after| && HasMetadata(before, m)
    requires forall i | (8 <= i < 28 && i != 9) || 68 <= i < 72 :: after[i] == before[i]
    ensures HasMetadata(after, m)
  {
  }

  ghost predicate AllButSum(b: Bytes, a: Artifact) {
    && Sized(b, a) && HasSizes(b, a) && HasMetadata(b, a.metadata)
    && HasBlocks(b, a) && Unsummed(b) && b[9] == 0
  }

  method Serialize(a: Artifact) returns (bytes: Bytes)
    requires Admitted(a)
    ensures Represents(bytes, a) && bytes[9] == 0
  {
    hide Crc32.Checksum, Utf8.WellFormed;
    var output := new byte[HeaderLength(a.identity) + |a.payload|](_ => 0);
    WriteAll(output, a);
    var crc := Crc32.ArtifactChecksum(output[..HeaderLength(a.identity)]);
    WriteChecksum(output, a, crc);
    bytes := output[..];
  }

  method WriteChecksum(output: array<byte>, ghost a: Artifact, crc: u32)
    requires Admitted(a) && AllButSum(output[..], a)
    requires crc == Crc32.Checksum(output[..HeaderLength(a.identity)])
    modifies output
    ensures Represents(output[..], a) && output[9] == 0
  {
    hide Crc32.Checksum, Utf8.WellFormed;
    ghost var unsummed := output[..];
    assert output[..HeaderLength(a.identity)] == unsummed[..HeaderLength(a.identity)];
    WriteU32(output, 28, crc);
    ghost var summed := output[..];
    assert U32(summed, 28) == crc;
    SumCompletes(unsummed, summed, a);
  }

  function Completed(m: Metadata, payload: Bytes): Metadata
    requires |payload| <= MAX_ARTIFACT_BYTES
  {
    m.(payloadBytes := |payload|, payloadCrc := Crc32.Checksum(payload))
  }

  method Encode(metadata: Metadata, payload: Bytes, digest: Bytes, identity: ColorIdentity)
    returns (result: Encoding)
    requires |digest| == 32
    ensures result.InvalidArgument? <==> !ValidMetadata(metadata) || !ValidIdentity(identity)
    ensures result.TooLarge? ==> HeaderLength(identity) + |payload| > MAX_ARTIFACT_BYTES
    ensures result.Encoded? ==>
              && |payload| <= MAX_ARTIFACT_BYTES && result.metadata == Completed(metadata, payload)
              && Represents(result.bytes, Artifact(result.metadata, digest, identity, payload))
              && result.bytes[9] == 0
  {
    if !ValidMetadata(metadata) {
      return InvalidArgument;
    }
    var valid := ValidColorIdentity(identity);
    if !valid {
      return InvalidArgument;
    }
    if |payload| > MAX_ARTIFACT_BYTES - HeaderLength(identity) {
      return TooLarge;
    }
    var crc := Crc32.ArtifactChecksum(payload);
    var complete := metadata.(payloadBytes := |payload|, payloadCrc := crc);
    var bytes := Serialize(Artifact(complete, digest, identity, payload));
    result := Encoded(bytes, complete);
  }

  method ValidColorIdentity(c: ColorIdentity) returns (valid: bool)
    ensures valid <==> ValidIdentity(c)
  {
    if |c.name| > MAX_NAME_BYTES || |c.fingerprint| > MAX_FINGERPRINT_BYTES {
      return false;
    }
    valid := Utf8.ValidText(c.name);
    if valid {
      valid := Utf8.ValidText(c.fingerprint);
    }
  }

  /** Only the checksum field is written after the sum is taken. */
  lemma SumIsLast(before: Bytes, after: Bytes, a: Artifact)
    requires AllButSum(before, a) && |after| == |before| && Admitted(a)
    requires forall i | 0 <= i < |after| && !(28 <= i < 32) :: after[i] == before[i]
    requires U32(after, 28) == HeaderChecksum(after[..HeaderLength(a.identity)])
    ensures Represents(after, a)
  {
    hide Crc32.Checksum, Utf8.WellFormed;
    SizesKept(before, after, a);
    MetadataKept(before, after, a.metadata);
    BlocksKept(before, after, a);
  }

  lemma SumCompletes(before: Bytes, after: Bytes, a: Artifact)
    requires AllButSum(before, a) && |after| == |before| && Admitted(a)
    requires forall i | 0 <= i < |after| && !(28 <= i < 32) :: after[i] == before[i]
    requires U32(after, 28) == Crc32.Checksum(before[..HeaderLength(a.identity)])
    ensures Represents(after, a)
  {
    hide Crc32.Checksum, Utf8.WellFormed;
    SumMatches(before, after, HeaderLength(a.identity));
    SumIsLast(before, after, a);
  }

  lemma SumMatches(before: Bytes, after: Bytes, header: nat)
    requires HEADER_BYTES <= header <= |before| == |after| && Unsummed(before)
    requires forall i | 0 <= i < |after| && !(28 <= i < 32) :: after[i] == before[i]
    requires U32(after, 28) == Crc32.Checksum(before[..header])
    ensures U32(after, 28) == HeaderChecksum(after[..header])
  {
    hide Crc32.Checksum, Utf8.WellFormed;
    ZeroedSum(before[..header], after[..header]);
  }

  lemma ZeroedSum(before: Bytes, after: Bytes)
    requires |before| == |after| >= HEADER_BYTES && Unsummed(before)
    requires forall i | 0 <= i < |after| && !(28 <= i < 32) :: after[i] == before[i]
    ensures HeaderChecksum(after) == Crc32.Checksum(before)
  {
    var zeroed := after[..28] + [0, 0, 0, 0] + after[32..];
    assert forall i | 0 <= i < |before| :: zeroed[i] == before[i];
    assert zeroed == before;
  }

  lemma Cleared(b: Bytes)
    requires |b| >= HEADER_BYTES && b[28..32] == [0, 0, 0, 0]
    ensures Unsummed(b)
  {
    assert b[28..32][0] == 0 && b[28..32][1] == 0 && b[28..32][2] == 0 && b[28..32][3] == 0;
  }

  lemma BlocksKept(before: Bytes, after: Bytes, a: Artifact)
    requires Sized(before, a) && |after| == |before| && HasBlocks(before, a)
    requires forall i | 32 <= i < |after| :: after[i] == before[i]
    ensures HasBlocks(after, a)
  {
    var named := HEADER_BYTES + |a.identity.name|;
    var header := HeaderLength(a.identity);
    SliceKept(before, after, 32, 64);
    SliceKept(before, after, HEADER_BYTES, named);
    SliceKept(before, after, named, header);
    SliceKept(before, after, header, |after|);
  }

  lemma SliceKept(before: Bytes, after: Bytes, from: nat, to: nat)
    requires from <= to <= |before| == |after|
    requires forall i | from <= i < to :: after[i] == before[i]
    ensures after[from..to] == before[from..to]
  {
    forall i | 0 <= i < to - from
      ensures after[from..to][i] == before[from..to][i]
    {
      assert after[from + i] == before[from + i];
    }
  }

  // ---------------------------------------------------------------- decoding

  /** The lengths of the two names, when magic, version and header length agree with them. */
  method ReadSizes(b: Bytes) returns (sizes: Option<(nat, nat)>)
    requires |b| >= HEADER_BYTES
    ensures sizes.Some? ==> HasLengths(b, sizes.value.0, sizes.value.1)
    ensures sizes.None? ==> forall n, f :: !HasLengths(b, n, f)
  {
    if b[..4] != MAGIC {
      assert b[..4] == [b[0], b[1], b[2], b[3]];
      return None;
    }
    assert b[..4][0] == MAGIC[0] && b[..4][1] == MAGIC[1] && b[..4][2] == MAGIC[2] && b[..4][3] == MAGIC[3];
    var header := U16(b, 6);
    if U16(b, 4) != VERSION || header < HEADER_BYTES || header > |b| {
      return None;
    }
    var name, fingerprint := U16(b, 64), U16(b, 66);
    if name > MAX_NAME_BYTES || fingerprint > MAX_FINGERPRINT_BYTES || header != HEADER_BYTES + name + fingerprint {
      return None;
    }
    sizes := Some((name, fingerprint));
  }

  predicate HasLengths(b: Bytes, n: nat, f: nat)
    requires |b| >= HEADER_BYTES
  {
    && b[0] == MAGIC[0] && b[1] == MAGIC[1] && b[2] == MAGIC[2] && b[3] == MAGIC[3]
    && U16(b, 4) == VERSION && U16(b, 6) == HEADER_BYTES + n + f && U16(b, 64) == n && U16(b, 66) == f
    && n <= MAX_NAME_BYTES && f <= MAX_FINGERPRINT_BYTES && HEADER_BYTES + n + f <= |b|
  }

  function ReadMetadata(b: Bytes): (m: Metadata)
    requires |b| >= HEADER_BYTES
    ensures HasMetadata(b, m) && forall other :: HasMetadata(b, other) ==> other == m
  {
    Metadata(U16(b, 8) % 0x100, U32(b, 12), U32(b, 16), U32(b, 20), U32(b, 24), U32(b, 68), b[10], b[11])
  }

  function Extract(b: Bytes, n: nat, f: nat): Artifact
    requires HEADER_BYTES + n + f <= |b|
  {
    Artifact(ReadMetadata(b), b[32..64],
             ColorIdentity(b[HEADER_BYTES..HEADER_BYTES + n], b[HEADER_BYTES + n..HEADER_BYTES + n + f]),
             b[HEADER_BYTES + n + f..])
  }

  /** There is only one artifact the bytes can represent. */
  lemma OnlyExtract(b: Bytes, a: Artifact)
    requires Represents(b, a)
    ensures HasLengths(b, |a.identity.name|, |a.identity.fingerprint|)
    ensures a == Extract(b, |a.identity.name|, |a.identity.fingerprint|)
  {
    OnlyLengths(b, a);
    assert a.metadata == ReadMetadata(b);
    OnlyBlocks(b, a);
  }

  lemma OnlyLengths(b: Bytes, a: Artifact)
    requires Sized(b, a) && HasSizes(b, a)
    ensures HasLengths(b, |a.identity.name|, |a.identity.fingerprint|)
  {
  }

  lemma OnlyBlocks(b: Bytes, a: Artifact)
    requires Sized(b, a) && HasBlocks(b, a)
    ensures Extract(b, |a.identity.name|, |a.identity.fingerprint|) == a.(metadata := ReadMetadata(b))
  {
  }

  method Decode(b: Bytes) returns (decoded: Option<Artifact>)
    ensures decoded.Some? ==> Represents(b, decoded.value)
    ensures decoded.None? ==> forall a :: !Represents(b, a)
  {
    if |b| < HEADER_BYTES || |b| > MAX_ARTIFACT_BYTES {
      return None;
    }
    var sizes := ReadSizes(b);
    if sizes.None? {
      forall a
        ensures !Represents(b, a)
      {
        if Represents(b, a) {
          OnlyExtract(b, a);
        }
      }
      return None;
    }
    var (n, f) := sizes.value;
    var a := Extract(b, n, f);
    var sound := Check(b, n, f);
    if sound {
      return Some(a);
    }
    forall other
      ensures !Represents(b, other)
    {
      if Represents(b, other) {
        OnlyExtract(b, other);
      }
    }
    decoded := None;
  }

  method Check(b: Bytes, n: nat, f: nat) returns (sound: bool)
    requires HEADER_BYTES <= |b| <= MAX_ARTIFACT_BYTES && HasLengths(b, n, f)
    ensures sound <==> Represents(b, Extract(b, n, f))
  {
    hide Crc32.Checksum, Utf8.WellFormed;
    var a := Extract(b, n, f);
    sound := CheckParts(b, HEADER_BYTES + n + f, U32(b, 28), a);
    ExtractFits(b, n, f);
  }

  method CheckParts(b: Bytes, header: nat, expectedCrc: u32, a: Artifact) returns (sound: bool)
    requires HEADER_BYTES <= header <= |b|
    ensures sound <==>
            && expectedCrc == HeaderChecksum(b[..header]) && ValidMetadata(a.metadata)
            && |b| == header + a.metadata.payloadBytes && ValidIdentity(a.identity)
            && Crc32.Checksum(a.payload) == a.metadata.payloadCrc
  {
    var checkedHeader := b[..28] + [0, 0, 0, 0] + b[32..header];
    assert checkedHeader == b[..header][..28] + [0, 0, 0, 0] + b[..header][32..];
    var crc := Crc32.ArtifactChecksum(checkedHeader);
    if crc != expectedCrc || !ValidMetadata(a.metadata) || |b| != header + a.metadata.payloadBytes {
      return false;
    }
    var valid := ValidColorIdentity(a.identity);
    if !valid {
      return false;
    }
    crc := Crc32.ArtifactChecksum(a.payload);
    sound := crc == a.metadata.payloadCrc;
  }

  /** What is left to check once the lengths agree. */
  lemma ExtractFits(b: Bytes, n: nat, f: nat)
    requires HEADER_BYTES <= |b| <= MAX_ARTIFACT_BYTES && HasLengths(b, n, f)
    ensures var a := Extract(b, n, f);
      Represents(b, a) <==>
      && U32(b, 28) == HeaderChecksum(b[..HEADER_BYTES + n + f]) && ValidMetadata(a.metadata)
      && |b| == HEADER_BYTES + n + f + a.metadata.payloadBytes && ValidIdentity(a.identity)
      && Crc32.Checksum(a.payload) == a.metadata.payloadCrc
  {
    hide Crc32.Checksum, Utf8.WellFormed;
    ExtractNumbers(b, n, f);
    if Sized(b, Extract(b, n, f)) {
      ExtractBlocks(b, n, f);
    }
  }

  lemma ExtractNumbers(b: Bytes, n: nat, f: nat)
    requires HEADER_BYTES <= |b| && HasLengths(b, n, f)
    ensures HeaderLength(Extract(b, n, f).identity) == HEADER_BYTES + n + f
    ensures HasSizes(b, Extract(b, n, f)) && HasMetadata(b, Extract(b, n, f).metadata)
  {
  }

  lemma ExtractBlocks(b: Bytes, n: nat, f: nat)
    requires HEADER_BYTES + n + f <= |b|
    requires Sized(b, Extract(b, n, f))
    ensures HasBlocks(b, Extract(b, n, f))
  {
  }

  // ---------------------------------------------------------------- there and back

  /** Decoding an encoded artifact gives that artifact: the bytes represent nothing else. */
  lemma RepresentsOne(b: Bytes, a: Artifact, other: Artifact)
    requires Represents(b, a) && Represents(b, other)
    ensures a == other
  {
    OnlyExtract(b, a);
    OnlyExtract(b, other);
  }

  /**
   Re-encoding an accepted file gives the same bytes exactly when the second encoding byte is zero:
   the decoder reads sixteen bits and keeps eight.
   */
  lemma ReencodingRestores(b: Bytes, a: Artifact, again: Bytes)
    requires Represents(b, a) && Represents(again, a) && again[9] == 0
    ensures again == b <==> b[9] == 0
  {
    hide Crc32.Checksum, Utf8.WellFormed;
    if b[9] == 0 {
      SameButSum(b, again, a);
      SameSumBytes(b, again, a);
      assert again == b;
    }
  }

  lemma SameButSum(b: Bytes, c: Bytes, a: Artifact)
    requires Sized(b, a) && HasSizes(b, a) && HasMetadata(b, a.metadata) && HasBlocks(b, a)
    requires Sized(c, a) && HasSizes(c, a) && HasMetadata(c, a.metadata) && HasBlocks(c, a)
    requires b[9] == c[9]
    ensures forall i | 0 <= i < |b| && !(28 <= i < 32) :: b[i] == c[i]
  {
    SameSizes(b, c, a);
    SameMetadata(b, c, a.metadata);
    SameBlocks(b, c, a);
  }

  lemma SameSumBytes(b: Bytes, c: Bytes, a: Artifact)
    requires Sized(b, a) && Sized(c, a) && HasChecksums(b, a) && HasChecksums(c, a)
    requires forall i | 0 <= i < |b| && !(28 <= i < 32) :: b[i] == c[i]
    ensures forall i | 28 <= i < 32 :: b[i] == c[i]
  {
    hide Crc32.Checksum, Utf8.WellFormed;
    SameSum(b[..HeaderLength(a.identity)], c[..HeaderLength(a.identity)]);
    SameU32(b, c, 28);
  }

  /** Every artifact file has 255 siblings that decode alike and are not what the encoder writes. */
  lemma SecondEncodingByteIsIgnored(b: Bytes, a: Artifact, v: byte) returns (sibling: Bytes)
    requires Represents(b, a)
    ensures Represents(sibling, a) && sibling[9] == v
  {
    hide Crc32.Checksum, Utf8.WellFormed;
    var header := HeaderLength(a.identity);
    var changed := b[9 := v];
    sibling := WithSum(changed, HeaderChecksum(changed[..header]));
    SiblingSum(changed, sibling, header);
    SizesKept(b, sibling, a);
    MetadataKept(b, sibling, a.metadata);
    BlocksKept(b, sibling, a);
  }

  lemma SiblingSum(b: Bytes, c: Bytes, header: nat)
    requires HEADER_BYTES <= header <= |b| == |c|
    requires forall i | 0 <= i < |b| && !(28 <= i < 32) :: b[i] == c[i]
    ensures HeaderChecksum(b[..header]) == HeaderChecksum(c[..header])
  {
    SameSum(b[..header], c[..header]);
  }

  function WithSum(b: Bytes, sum: u32): (c: Bytes)
    requires |b| >= HEADER_BYTES
    ensures |c| == |b| && U32(c, 28) == sum
    ensures forall i | 0 <= i < |b| && !(28 <= i < 32) :: c[i] == b[i]
  {
    JoinSplit(sum);
    b[28 := sum % 0x100][29 := sum / 0x100 % 0x100][30 := sum / 0x1_0000 % 0x100][31 := sum / 0x100_0000]
  }

  lemma SameSum(h: Bytes, k: Bytes)
    requires |h| == |k| >= HEADER_BYTES
    requires forall i | 0 <= i < |h| && !(28 <= i < 32) :: h[i] == k[i]
    ensures HeaderChecksum(h) == HeaderChecksum(k)
  {
    assert h[..28] == k[..28] && h[32..] == k[32..];
  }

  lemma SameU16(b: Bytes, c: Bytes, at: nat)
    requires at + 2 <= |b| && at + 2 <= |c| && U16(b, at) == U16(c, at)
    ensures b[at] == c[at] && b[at + 1] == c[at + 1]
  {
    JoinedIsInjective(b[at], b[at + 1], 0, 0, c[at], c[at + 1], 0, 0);
  }

  lemma SameU32(b: Bytes, c: Bytes, at: nat)
    requires at + 4 <= |b| && at + 4 <= |c| && U32(b, at) == U32(c, at)
    ensures b[at] == c[at] && b[at + 1] == c[at + 1] && b[at + 2] == c[at + 2] && b[at + 3] == c[at + 3]
  {
    JoinedIsInjective(b[at], b[at + 1], b[at + 2], b[at + 3], c[at], c[at + 1], c[at + 2], c[at + 3]);
  }

  lemma SameSizes(b: Bytes, c: Bytes, a: Artifact)
    requires |b| >= HEADER_BYTES && |c| >= HEADER_BYTES && HasSizes(b, a) && HasSizes(c, a)
    ensures forall i | 0 <= i < 8 || 64 <= i < 68 :: b[i] == c[i]
  {
    SameU16(b, c, 4);
    SameU16(b, c, 6);
    SameU16(b, c, 64);
    SameU16(b, c, 66);
  }

  lemma SameMetadata(b: Bytes, c: Bytes, m: Metadata)
    requires |b| >= HEADER_BYTES && |c| >= HEADER_BYTES && HasMetadata(b, m) && HasMetadata(c, m)
    requires b[9] == c[9]
    ensures forall i | 8 <= i < 28 || 68 <= i < 72 :: b[i] == c[i]
  {
    SameU32(b, c, 12);
    SameU32(b, c, 16);
    SameU32(b, c, 20);
    SameU32(b, c, 24);
    SameU32(b, c, 68);
  }

  lemma SameBlocks(b: Bytes, c: Bytes, a: Artifact)
    requires Sized(b, a) && Sized(c, a) && HasBlocks(b, a) && HasBlocks(c, a)
    ensures forall i | 32 <= i < 64 || 72 <= i < |b| :: b[i] == c[i]
  {
    var named := HEADER_BYTES + |a.identity.name|;
    var header := HeaderLength(a.identity);
    forall i | 32 <= i < 64 || 72 <= i < |b|
      ensures b[i] == c[i]
    {
      if i < 64 {
        assert b[32..64][i - 32] == c[32..64][i - 32];
      } else if i < named {
        assert b[72..named][i - 72] == c[72..named][i - 72];
      } else if i < header {
        assert b[named..header][i - named] == c[named..header][i - named];
      } else {
        assert b[header..][i - header] == c[header..][i - header];
      }
    }
  }
}
