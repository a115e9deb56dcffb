/** Records made of little-endian integers and length-prefixed strings, in a fixed order. */
module Fields {
  import opened Bytes

  datatype Kind = Int(width: nat) | Text

  datatype Field = Number(value: nat) | Str(text: Bytes)

  datatype Read<+T> = Short | Read(value: T, rest: Bytes)

  predicate Fits(k: Kind, f: Field) {
    match k
    case Int(width) => f.Number? && f.value < Pow256(width)
    case Text => f.Str? && |f.text| < 0x1_0000_0000
  }

  predicate FitAll(ks: seq<Kind>, fs: seq<Field>) {
    |ks| == |fs| && forall i | 0 <= i < |ks| :: Fits(ks[i], fs[i])
  }

  function EncodeField(k: Kind, f: Field): Bytes
    requires Fits(k, f)
  {
    match k
    case Int(width) => LittleEndian(f.value, width)
    case Text => LittleEndian(|f.text|, 4) + f.text
  }

  function EncodeAll(ks: seq<Kind>, fs: seq<Field>): Bytes
    requires FitAll(ks, fs)
  {
    if ks == [] then [] else EncodeField(ks[0], fs[0]) + EncodeAll(ks[1..], fs[1..])
  }

  function ReadInteger(b: Bytes, width: nat): Read<nat> {
    if |b| < width then Short else Read(FromLittleEndian(b[..width]), b[width..])
  }

  function ReadField(k: Kind, b: Bytes): Read<Field> {
    match k
    case Int(width) =>
      (match ReadInteger(b, width) case Short => Short case Read(v, rest) => Read(Number(v), rest))
    case Text =>
      match ReadInteger(b, 4)
      case Short => Short
      case Read(size, rest) => if |rest| < size then Short else Read(Str(rest[..size]), rest[size..])
  }

  function ReadAll(ks: seq<Kind>, b: Bytes): (r: Read<seq<Field>>)
    ensures r.Read? ==> |r.value| == |ks|
  {
    if ks == [] then Read([], b)
    else match ReadField(ks[0], b)
      case Short => Short
      case Read(f, rest) =>
        match ReadAll(ks[1..], rest)
        case Short => Short
        case Read(fs, end) => Read([f] + fs, end)
  }

  lemma IntegerReadsBack(v: nat, width: nat, rest: Bytes)
    requires v < Pow256(width)
    ensures ReadInteger(LittleEndian(v, width) + rest, width) == Read(v, rest)
  {
    LittleEndianReadsBack(v, width);
    var b := LittleEndian(v, width) + rest;
    assert b[..width] == LittleEndian(v, width) && b[width..] == rest;
  }

  lemma FieldReadsBack(k: Kind, f: Field, rest: Bytes)
    requires Fits(k, f)
    ensures ReadField(k, EncodeField(k, f) + rest) == Read(f, rest)
  {
    match k
    case Int(width) => IntegerReadsBack(f.value, width, rest);
    case Text =>
      Widths();
      IntegerReadsBack(|f.text|, 4, f.text + rest);
      assert EncodeField(k, f) + rest == LittleEndian(|f.text|, 4) + (f.text + rest);
      assert (f.text + rest)[..|f.text|] == f.text && (f.text + rest)[|f.text|..] == rest;
  }

  lemma EncodeFirst(ks: seq<Kind>, fs: seq<Field>)
    requires FitAll(ks, fs) && ks != []
    ensures FitAll(ks[1..], fs[1..])
    ensures EncodeAll(ks, fs) == EncodeField(ks[0], fs[0]) + EncodeAll(ks[1..], fs[1..])
  {
  }

  lemma ReadFirst(ks: seq<Kind>, b: Bytes, f: Field, more: Bytes, fs: seq<Field>, rest: Bytes)
    requires ks != [] && ReadField(ks[0], b) == Read(f, more) && ReadAll(ks[1..], more) == Read(fs, rest)
    ensures ReadAll(ks, b) == Read([f] + fs, rest)
  {
    hide ReadField;
  }

  /** A written record reads back, whatever follows it. */
  lemma {:induction false} ReadsBack(ks: seq<Kind>, fs: seq<Field>, rest: Bytes)
    requires FitAll(ks, fs)
    ensures ReadAll(ks, EncodeAll(ks, fs) + rest) == Read(fs, rest)
  {
    if ks == [] {
      assert EncodeAll(ks, fs) + rest == rest;
    } else {
      EncodeFirst(ks, fs);
      var head, more := EncodeField(ks[0], fs[0]), EncodeAll(ks[1..], fs[1..]);
      FieldReadsBack(ks[0], fs[0], more + rest);
      ReadsBack(ks[1..], fs[1..], rest);
      hide *;
      Associate(head, more, rest);
      ReadFirst(ks, head + (more + rest), fs[0], more + rest, fs[1..], rest);
      assert [fs[0]] + fs[1..] == fs;
    }
  }

  /** Records of one layout differ in their bytes if they differ at all. */
  lemma Injective(ks: seq<Kind>, fs: seq<Field>, gs: seq<Field>, r: Bytes, s: Bytes)
    requires FitAll(ks, fs) && FitAll(ks, gs)
    requires EncodeAll(ks, fs) + r == EncodeAll(ks, gs) + s
    ensures fs == gs && r == s
  {
    ReadsBack(ks, fs, r);
    ReadsBack(ks, gs, s);
  }

  lemma {:induction false} EncodeAppend(ks: seq<Kind>, fs: seq<Field>, k: Kind, f: Field)
    requires FitAll(ks, fs) && Fits(k, f)
    ensures FitAll(ks + [k], fs + [f])
    ensures EncodeAll(ks + [k], fs + [f]) == EncodeAll(ks, fs) + EncodeField(k, f)
  {
    hide EncodeField, Fits;
    if ks == [] {
      assert [k][1..] == [] && [f][1..] == [];
      assert ks + [k] == [k] && fs + [f] == [f];
    } else {
      EncodeAppend(ks[1..], fs[1..], k, f);
      assert (ks + [k])[1..] == ks[1..] + [k] && (fs + [f])[1..] == fs[1..] + [f];
      Associate(EncodeField(ks[0], fs[0]), EncodeAll(ks[1..], fs[1..]), EncodeField(k, f));
    }
  }

  // ---------------------------------------------------------------- how long records are

  function FieldSize(k: Kind, f: Field): nat
    requires Fits(k, f)
  {
    match k
    case Int(width) => width
    case Text => 4 + |f.text|
  }

  /** The length of the first n fields of a record. */
  function SizeUpTo(ks: seq<Kind>, fs: seq<Field>, n: nat): nat
    requires FitAll(ks, fs) && n <= |ks|
    decreases n
  {
    if n == 0 then 0 else SizeUpTo(ks, fs, n - 1) + FieldSize(ks[n - 1], fs[n - 1])
  }

  lemma FieldBytes(k: Kind, f: Field)
    requires Fits(k, f)
    ensures |EncodeField(k, f)| == FieldSize(k, f)
  {
  }

  lemma {:induction false} EncodedSize(ks: seq<Kind>, fs: seq<Field>, n: nat)
    requires FitAll(ks, fs) && n <= |ks|
    ensures |EncodeAll(ks[..n], fs[..n])| == SizeUpTo(ks, fs, n)
  {
    if n > 0 {
      hide EncodeField, EncodeAll, FieldSize, Fits;
      EncodedSize(ks, fs, n - 1);
      EncodeAppend(ks[..n - 1], fs[..n - 1], ks[n - 1], fs[n - 1]);
      UpTo(ks, n - 1);
      UpTo(fs, n - 1);
      FieldBytes(ks[n - 1], fs[n - 1]);
    }
  }
}
