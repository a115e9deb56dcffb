/** Keys and locators as bytes for hashing, and the padding the hash puts behind them. */
module CacheKey {
  import opened Bytes
  import opened Fields

  const KEY_SCHEMA_VERSION: u32 := 7
  const LOCATOR_VERSION: u32 := 1
  const CANONICAL_EDGE: u32 := 512
  const KEY_DOMAIN: Bytes := Ascii("VOVE-CACHE-KEY")
  const LOCATOR_DOMAIN: Bytes := Ascii("VOVE-CACHE-LOCATOR")
  const BINDING_DOMAIN: Bytes := Ascii("VOVE-LOCATOR-BINDING-V1")

  datatype SourceStamp = SourceStamp(identity: Bytes, size: u64, modified: i64, stableId: Option<Bytes>)

  datatype ColorPolicy = ColorPolicy(version: u32, fingerprint: Bytes)

  datatype Key = Key(source: SourceStamp, handler: Bytes, handlerVersion: u32, renderPolicy: u32,
                     color: ColorPolicy, edge: u32, page: u32)

  datatype Locator = Locator(source: SourceStamp, routingPolicy: u32, renderPolicy: u32,
                             color: ColorPolicy, page: u32, edge: u32)

  // ---------------------------------------------------------------- layouts

  const STAMP: seq<Kind> := [Text, Int(4), Text, Int(8), Int(8), Int(1)]
  const KEY: seq<Kind> := [Text, Int(4), Int(4), Int(4), Int(4), Text, Int(4)]
  const LOCATOR: seq<Kind> := [Int(4), Int(4), Int(4), Text, Int(4)]

  /** What both layouts begin with; the last byte says whether a stable id follows. */
  function StampFields(domain: Bytes, version: u32, s: SourceStamp): seq<Field> {
    [Str(domain), Number(version), Str(s.identity), Number(s.size), Number(Unsigned(s.modified)),
     Number(if s.stableId.Some? then 1 else 0)]
  }

  function IdLayout(s: SourceStamp): seq<Kind> {
    if s.stableId.Some? then [Text] else []
  }

  function IdFields(s: SourceStamp): seq<Field> {
    if s.stableId.Some? then [Str(s.stableId.value)] else []
  }

  function KeyFields(k: Key): seq<Field> {
    [Str(k.handler), Number(k.handlerVersion), Number(k.renderPolicy), Number(k.color.version),
     Number(k.edge), Str(k.color.fingerprint), Number(k.page)]
  }

  function LocatorFields(l: Locator): seq<Field> {
    [Number(l.routingPolicy), Number(l.renderPolicy), Number(l.color.version),
     Str(l.color.fingerprint), Number(l.page)]
  }

  /** The edge is written only when it is not the old fixed one. */
  function EdgeLayout(l: Locator): seq<Kind> {
    if l.edge == CANONICAL_EDGE then [] else [Int(4)]
  }

  function EdgeFields(l: Locator): seq<Field> {
    if l.edge == CANONICAL_EDGE then [] else [Number(l.edge)]
  }

  predicate FitsLength(text: Bytes) {
    |text| < 0x1_0000_0000
  }

  predicate ShortStamp(s: SourceStamp) {
    FitsLength(s.identity) && (s.stableId.Some? ==> FitsLength(s.stableId.value))
  }

  predicate ShortKey(k: Key) {
    ShortStamp(k.source) && FitsLength(k.handler) && FitsLength(k.color.fingerprint)
  }

  predicate ShortLocator(l: Locator) {
    ShortStamp(l.source) && FitsLength(l.color.fingerprint)
  }

  function KeyKinds(k: Key): seq<Kind> {
    STAMP + IdLayout(k.source) + KEY
  }

  function AllKeyFields(k: Key): seq<Field> {
    StampFields(KEY_DOMAIN, KEY_SCHEMA_VERSION, k.source) + IdFields(k.source) + KeyFields(k)
  }

  function LocatorKinds(l: Locator): seq<Kind> {
    STAMP + IdLayout(l.source) + LOCATOR + EdgeLayout(l)
  }

  function AllLocatorFields(l: Locator): seq<Field> {
    StampFields(LOCATOR_DOMAIN, LOCATOR_VERSION, l.source) + IdFields(l.source) + LocatorFields(l) + EdgeFields(l)
  }

  function KeyBytes(k: Key): Bytes
    requires ShortKey(k)
  {
    KeyFit(k);
    EncodeAll(KeyKinds(k), AllKeyFields(k))
  }

  function LocatorBytes(l: Locator): Bytes
    requires ShortLocator(l)
  {
    LocatorFit(l);
    EncodeAll(LocatorKinds(l), AllLocatorFields(l))
  }

  function BindingBytes(locatorDigest: Bytes, artifactDigest: Bytes): Bytes {
    BINDING_DOMAIN + [0] + locatorDigest + [0] + artifactDigest
  }

  lemma StampFits(domain: Bytes, version: u32, s: SourceStamp)
    requires FitsLength(domain) && ShortStamp(s)
    ensures FitAll(STAMP, StampFields(domain, version, s)) && FitAll(IdLayout(s), IdFields(s))
  {
    Widths();
  }

  lemma KeyFit(k: Key)
    requires ShortKey(k)
    ensures FitAll(KEY, KeyFields(k)) && FitAll(KeyKinds(k), AllKeyFields(k))
  {
    Widths();
    StampFits(KEY_DOMAIN, KEY_SCHEMA_VERSION, k.source);
  }

  lemma LocatorFit(l: Locator)
    requires ShortLocator(l)
    ensures FitAll(LOCATOR, LocatorFields(l)) && FitAll(EdgeLayout(l), EdgeFields(l))
    ensures FitAll(LocatorKinds(l), AllLocatorFields(l))
  {
    Widths();
    StampFits(LOCATOR_DOMAIN, LOCATOR_VERSION, l.source);
  }

  // ---------------------------------------------------------------- serialization

  /** A growing buffer that knows which fields it holds. */
  class Writer {
    var output: Bytes
    ghost var kinds: seq<Kind>
    ghost var fields: seq<Field>

    ghost predicate Valid()
      reads this
    {
      FitAll(kinds, fields) && output == EncodeAll(kinds, fields)
    }

    constructor ()
      ensures Valid() && output == [] && kinds == [] && fields == []
    {
      output, kinds, fields := [], [], [];
    }

    method AppendInteger(value: nat, width: nat)
      requires Valid() && value < Pow256(width)
      modifies this
      ensures Valid() && kinds == old(kinds) + [Int(width)] && fields == old(fields) + [Number(value)]
    {
      ghost var before := output;
      var rest := value;
      assert LittleEndian(value, 0) == [];
      for i := 0 to width
        invariant output + LittleEndian(rest, width - i) == before + LittleEndian(value, width)
        invariant kinds == old(kinds) && fields == old(fields)
      {
        assert output + LittleEndian(rest, width - i)
            == output + [rest % 0x100] + LittleEndian(rest / 0x100, width - i - 1);
        output := output + [rest % 0x100];
        rest := rest / 0x100;
      }
      EncodeAppend(kinds, fields, Int(width), Number(value));
      kinds, fields := kinds + [Int(width)], fields + [Number(value)];
    }

    /** False for a string whose length does not fit four bytes; nothing is written then. */
    method AppendString(text: Bytes) returns (appended: bool)
      requires Valid()
      modifies this
      ensures Valid() && appended == FitsLength(text)
      ensures appended ==> kinds == old(kinds) + [Text] && fields == old(fields) + [Str(text)]
    {
      hide EncodeAll, FitAll;
      if |text| > 0xffff_ffff {
        return false;
      }
      ghost var ks, fs := kinds, fields;
      Widths();
      AppendInteger(|text|, 4);
      TextIsTwoParts(ks, fs, text);
      output := output + text;
      kinds, fields := ks + [Text], fs + [Str(text)];
      appended := true;
    }

    method AppendStamp(domain: Bytes, version: u32, s: SourceStamp) returns (appended: bool)
      requires Valid() && kinds == [] && fields == [] && FitsLength(domain)
      modifies this
      ensures Valid() && appended == ShortStamp(s)
      ensures appended ==>
                kinds == STAMP + IdLayout(s) && fields == StampFields(domain, version, s) + IdFields(s)
    {
      hide EncodeAll;
      Widths();
      appended := AppendString(domain);
      AppendInteger(version, 4);
      appended := AppendString(s.identity);
      if !appended {
        return;
      }
      AppendInteger(s.size, 8);
      AppendInteger(Unsigned(s.modified), 8);
      AppendInteger(if s.stableId.Some? then 1 else 0, 1);
      assert kinds == STAMP && fields == StampFields(domain, version, s);
      if s.stableId.Some? {
        appended := AppendString(s.stableId.value);
      }
    }
  }

  lemma TextIsTwoParts(ks: seq<Kind>, fs: seq<Field>, text: Bytes)
    requires FitAll(ks, fs) && FitsLength(text)
    ensures FitAll(ks + [Int(4)], fs + [Number(|text|)]) && FitAll(ks + [Text], fs + [Str(text)])
    ensures EncodeAll(ks + [Text], fs + [Str(text)]) == EncodeAll(ks + [Int(4)], fs + [Number(|text|)]) + text
  {
    Widths();
    EncodeAppend(ks, fs, Int(4), Number(|text|));
    EncodeAppend(ks, fs, Text, Str(text));
    assert EncodeField(Text, Str(text)) == EncodeField(Int(4), Number(|text|)) + text;
    hide *;
    Associate(EncodeAll(ks, fs), EncodeField(Int(4), Number(|text|)), text);
  }

  lemma FiveMore<T>(s: seq<T>, a: T, b: T, c: T, d: T, e: T)
    ensures s + [a] + [b] + [c] + [d] + [e] == s + [a, b, c, d, e]
  {
  }

  lemma SevenMore<T>(s: seq<T>, a: T, b: T, c: T, d: T, e: T, f: T, g: T)
    ensures s + [a] + [b] + [c] + [d] + [e] + [f] + [g] == s + [a, b, c, d, e, f, g]
  {
  }

  /** None where the program throws: a string of 4 GiB or more. */
  method SerializeKey(k: Key) returns (bytes: Option<Bytes>)
    ensures bytes == if ShortKey(k) then Some(KeyBytes(k)) else None
  {
    hide EncodeAll, FitAll, IdLayout, IdFields, StampFields;
    Widths();
    var w := new Writer();
    var ok := w.AppendStamp(KEY_DOMAIN, KEY_SCHEMA_VERSION, k.source);
    if !ok {
      return None;
    }
    ghost var ks, fs := w.kinds, w.fields;
    ok := w.AppendString(k.handler);
    if !ok {
      return None;
    }
    w.AppendInteger(k.handlerVersion, 4);
    w.AppendInteger(k.renderPolicy, 4);
    w.AppendInteger(k.color.version, 4);
    w.AppendInteger(k.edge, 4);
    ok := w.AppendString(k.color.fingerprint);
    if !ok {
      return None;
    }
    w.AppendInteger(k.page, 4);
    SevenMore(ks, Text, Int(4), Int(4), Int(4), Int(4), Text, Int(4));
    SevenMore(fs, Str(k.handler), Number(k.handlerVersion), Number(k.renderPolicy), Number(k.color.version),
              Number(k.edge), Str(k.color.fingerprint), Number(k.page));
    bytes := Some(w.output);
  }

  method SerializeLocator(l: Locator) returns (bytes: Option<Bytes>)
    ensures bytes == if ShortLocator(l) then Some(LocatorBytes(l)) else None
  {
    hide EncodeAll, FitAll, IdLayout, IdFields, StampFields;
    Widths();
    var w := new Writer();
    var ok := w.AppendStamp(LOCATOR_DOMAIN, LOCATOR_VERSION, l.source);
    if !ok {
      return None;
    }
    ghost var ks, fs := w.kinds, w.fields;
    w.AppendInteger(l.routingPolicy, 4);
    w.AppendInteger(l.renderPolicy, 4);
    w.AppendInteger(l.color.version, 4);
    ok := w.AppendString(l.color.fingerprint);
    if !ok {
      return None;
    }
    w.AppendInteger(l.page, 4);
    FiveMore(ks, Int(4), Int(4), Int(4), Text, Int(4));
    FiveMore(fs, Number(l.routingPolicy), Number(l.renderPolicy), Number(l.color.version),
             Str(l.color.fingerprint), Number(l.page));
    if l.edge != CANONICAL_EDGE {
      w.AppendInteger(l.edge, 4);
    }
    assert w.kinds == ks + LOCATOR + EdgeLayout(l) && w.fields == fs + LocatorFields(l) + EdgeFields(l);
    bytes := Some(w.output);
  }

  // ---------------------------------------------------------------- injective and apart

  lemma {:induction false} EncodeConcat(ks: seq<Kind>, fs: seq<Field>, ls: seq<Kind>, gs: seq<Field>)
    requires FitAll(ks, fs) && FitAll(ls, gs)
    ensures FitAll(ks + ls, fs + gs)
    ensures EncodeAll(ks + ls, fs + gs) == EncodeAll(ks, fs) + EncodeAll(ls, gs)
    decreases |ks|
  {
    hide EncodeAll, EncodeField;
    FitsConcat(ks, fs, ls, gs);
    if ks == [] {
      EncodeNothing();
      assert ks + ls == ls && fs + gs == gs;
    } else {
      EncodeConcat(ks[1..], fs[1..], ls, gs);
      EncodeFirst(ks, fs);
      EncodeFirst(ks + ls, fs + gs);
      assert (ks + ls)[1..] == ks[1..] + ls && (fs + gs)[1..] == fs[1..] + gs;
      Associate(EncodeField(ks[0], fs[0]), EncodeAll(ks[1..], fs[1..]), EncodeAll(ls, gs));
    }
  }

  lemma FitsConcat(ks: seq<Kind>, fs: seq<Field>, ls: seq<Kind>, gs: seq<Field>)
    requires FitAll(ks, fs) && FitAll(ls, gs)
    ensures FitAll(ks + ls, fs + gs)
  {
  }

  lemma EncodeNothing()
    ensures FitAll([], []) && EncodeAll([], []) == []
  {
  }

  /** Two records that begin with a stamp and are equal have equal stamps and equal rests. */
  lemma StampsAgree(domain: Bytes, version: u32, s: SourceStamp, t: SourceStamp, r: Bytes, q: Bytes)
    requires FitsLength(domain) && ShortStamp(s) && ShortStamp(t)
    requires FitAll(STAMP, StampFields(domain, version, s)) && FitAll(STAMP, StampFields(domain, version, t))
    requires FitAll(IdLayout(s), IdFields(s)) && FitAll(IdLayout(t), IdFields(t))
    requires EncodeAll(STAMP, StampFields(domain, version, s)) + (EncodeAll(IdLayout(s), IdFields(s)) + r)
          == EncodeAll(STAMP, StampFields(domain, version, t)) + (EncodeAll(IdLayout(t), IdFields(t)) + q)
    ensures s == t && r == q
  {
    hide EncodeAll;
    var fs, gs := StampFields(domain, version, s), StampFields(domain, version, t);
    Injective(STAMP, fs, gs, EncodeAll(IdLayout(s), IdFields(s)) + r, EncodeAll(IdLayout(t), IdFields(t)) + q);
    assert fs[2] == gs[2] && fs[3] == gs[3] && fs[4] == gs[4] && fs[5] == gs[5];
    assert s.stableId.Some? == t.stableId.Some?;
    Injective(IdLayout(s), IdFields(s), IdFields(t), r, q);
    if s.stableId.Some? {
      assert IdFields(s)[0] == IdFields(t)[0];
    }
  }

  /** Different keys never serialize to the same bytes. */
  lemma KeyBytesInjective(a: Key, b: Key)
    requires ShortKey(a) && ShortKey(b) && KeyBytes(a) == KeyBytes(b)
    ensures a == b
  {
    hide EncodeAll;
    KeyParts(a);
    KeyParts(b);
    StampsAgree(KEY_DOMAIN, KEY_SCHEMA_VERSION, a.source, b.source,
                EncodeAll(KEY, KeyFields(a)), EncodeAll(KEY, KeyFields(b)));
    var fs, gs := KeyFields(a), KeyFields(b);
    Injective(KEY, fs, gs, [], []);
    assert fs[0] == gs[0] && fs[1] == gs[1] && fs[2] == gs[2] && fs[3] == gs[3];
    assert fs[4] == gs[4] && fs[5] == gs[5] && fs[6] == gs[6];
  }

  lemma KeyParts(k: Key)
    requires ShortKey(k)
    ensures FitAll(STAMP, StampFields(KEY_DOMAIN, KEY_SCHEMA_VERSION, k.source))
    ensures FitAll(IdLayout(k.source), IdFields(k.source)) && FitAll(KEY, KeyFields(k))
    ensures KeyBytes(k) == EncodeAll(STAMP, StampFields(KEY_DOMAIN, KEY_SCHEMA_VERSION, k.source))
                           + (EncodeAll(IdLayout(k.source), IdFields(k.source)) + EncodeAll(KEY, KeyFields(k)))
  {
    hide EncodeAll;
    var fs := StampFields(KEY_DOMAIN, KEY_SCHEMA_VERSION, k.source);
    StampFits(KEY_DOMAIN, KEY_SCHEMA_VERSION, k.source);
    KeyFit(k);
    EncodeConcat(IdLayout(k.source), IdFields(k.source), KEY, KeyFields(k));
    EncodeConcat(STAMP, fs, IdLayout(k.source) + KEY, IdFields(k.source) + KeyFields(k));
    assert KeyKinds(k) == STAMP + (IdLayout(k.source) + KEY);
    assert AllKeyFields(k) == fs + (IdFields(k.source) + KeyFields(k));
  }

  /** Different locators never serialize to the same bytes, with or without the optional edge. */
  lemma LocatorBytesInjective(a: Locator, b: Locator)
    requires ShortLocator(a) && ShortLocator(b) && LocatorBytes(a) == LocatorBytes(b)
    ensures a == b
  {
    hide EncodeAll;
    LocatorParts(a);
    LocatorParts(b);
    var ra, rb := EncodeAll(EdgeLayout(a), EdgeFields(a)), EncodeAll(EdgeLayout(b), EdgeFields(b));
    var fs, gs := LocatorFields(a), LocatorFields(b);
    StampsAgree(LOCATOR_DOMAIN, LOCATOR_VERSION, a.source, b.source,
                EncodeAll(LOCATOR, fs) + ra, EncodeAll(LOCATOR, gs) + rb);
    Injective(LOCATOR, fs, gs, ra, rb);
    assert fs[0] == gs[0] && fs[1] == gs[1] && fs[2] == gs[2] && fs[3] == gs[3] && fs[4] == gs[4];
    EdgeDecides(a, b);
  }

  lemma EdgeDecides(a: Locator, b: Locator)
    requires FitAll(EdgeLayout(a), EdgeFields(a)) && FitAll(EdgeLayout(b), EdgeFields(b))
    requires EncodeAll(EdgeLayout(a), EdgeFields(a)) == EncodeAll(EdgeLayout(b), EdgeFields(b))
    ensures a.edge == b.edge
  {
    EdgeLength(a);
    EdgeLength(b);
    if a.edge != CANONICAL_EDGE {
      Injective(EdgeLayout(a), EdgeFields(a), EdgeFields(b), [], []);
      assert EdgeFields(a)[0] == EdgeFields(b)[0];
    }
  }

  lemma EdgeLength(l: Locator)
    requires FitAll(EdgeLayout(l), EdgeFields(l))
    ensures |EncodeAll(EdgeLayout(l), EdgeFields(l))| == if l.edge == CANONICAL_EDGE then 0 else 4
  {
  }

  lemma LocatorParts(l: Locator)
    requires ShortLocator(l)
    ensures FitAll(STAMP, StampFields(LOCATOR_DOMAIN, LOCATOR_VERSION, l.source))
    ensures FitAll(IdLayout(l.source), IdFields(l.source))
    ensures FitAll(LOCATOR, LocatorFields(l)) && FitAll(EdgeLayout(l), EdgeFields(l))
    ensures LocatorBytes(l) == EncodeAll(STAMP, StampFields(LOCATOR_DOMAIN, LOCATOR_VERSION, l.source))
                               + (EncodeAll(IdLayout(l.source), IdFields(l.source))
                                  + (EncodeAll(LOCATOR, LocatorFields(l)) + EncodeAll(EdgeLayout(l), EdgeFields(l))))
  {
    hide EncodeAll;
    var fs := StampFields(LOCATOR_DOMAIN, LOCATOR_VERSION, l.source);
    StampFits(LOCATOR_DOMAIN, LOCATOR_VERSION, l.source);
    LocatorFit(l);
    var ks1, fs1 := LOCATOR + EdgeLayout(l), LocatorFields(l) + EdgeFields(l);
    EncodeConcat(LOCATOR, LocatorFields(l), EdgeLayout(l), EdgeFields(l));
    EncodeConcat(IdLayout(l.source), IdFields(l.source), ks1, fs1);
    EncodeConcat(STAMP, fs, IdLayout(l.source) + ks1, IdFields(l.source) + fs1);
    assert LocatorKinds(l) == STAMP + (IdLayout(l.source) + ks1);
    assert AllLocatorFields(l) == fs + (IdFields(l.source) + fs1);
  }

  /** Keys, locators and bindings never share a hash input. */
  lemma DomainsAreApart(k: Key, l: Locator, p: Bytes, q: Bytes)
    requires ShortKey(k) && ShortLocator(l)
    ensures KeyBytes(k) != LocatorBytes(l)
    ensures KeyBytes(k) != BindingBytes(p, q) && LocatorBytes(l) != BindingBytes(p, q)
  {
    hide EncodeAll;
    KeyParts(k);
    LocatorParts(l);
    StampFits(KEY_DOMAIN, KEY_SCHEMA_VERSION, k.source);
    FirstByte(KEY_DOMAIN, KEY_SCHEMA_VERSION, k.source);
    FirstByte(LOCATOR_DOMAIN, LOCATOR_VERSION, l.source);
    BindingFirst(p, q);
    hide KeyBytes, LocatorBytes, BindingBytes;
    assert KeyBytes(k)[0] == |KEY_DOMAIN| && LocatorBytes(l)[0] == |LOCATOR_DOMAIN|;
  }

  lemma BindingFirst(p: Bytes, q: Bytes)
    ensures BindingBytes(p, q) != [] && BindingBytes(p, q)[0] == 0x56
  {
    assert BINDING_DOMAIN[0] == 0x56;
  }

  lemma FirstByte(domain: Bytes, version: u32, s: SourceStamp)
    requires |domain| < 0x100 && FitAll(STAMP, StampFields(domain, version, s))
    ensures EncodeAll(STAMP, StampFields(domain, version, s)) != []
    ensures EncodeAll(STAMP, StampFields(domain, version, s))[0] == |domain|
  {
    var rest := EncodeAll(STAMP[1..], StampFields(domain, version, s)[1..]);
    assert EncodeAll(STAMP, StampFields(domain, version, s)) == LittleEndian(|domain|, 4) + domain + rest;
  }

  lemma BindingBytesInjective(l: Bytes, a: Bytes, m: Bytes, b: Bytes)
    requires |l| == |m| && BindingBytes(l, a) == BindingBytes(m, b)
    ensures l == m && a == b
  {
    MiddleInjective(BINDING_DOMAIN + [0], l, a, m, b);
  }

  lemma MiddleInjective(d: Bytes, l: Bytes, a: Bytes, m: Bytes, b: Bytes)
    requires |l| == |m| && d + l + [0] + a == d + m + [0] + b
    ensures l == m && a == b
  {
    var p, q := d + l + [0] + a, d + m + [0] + b;
    assert l == p[|d|..|d| + |l|] && m == q[|d|..|d| + |l|];
    assert a == p[|d| + |l| + 1..] && b == q[|d| + |l| + 1..];
  }

  // ---------------------------------------------------------------- padding and hexadecimal

  function BigEndian(v: nat, width: nat): (b: Bytes)
    ensures |b| == width
  {
    if width == 0 then [] else BigEndian(v / 0x100, width - 1) + [v % 0x100]
  }

  function Zeros(n: nat): (z: Bytes)
    ensures |z| == n
  {
    seq(n, _ => 0)
  }

  function PaddingZeros(size: nat): (n: nat)
    ensures n < 64 && (size + 1 + n) % 64 == 56
  {
    (119 - size % 64) % 64
  }

  function BitLength(size: nat): u64 {
    size * 8 % 0x1_0000_0000_0000_0000
  }

  function PaddedMessage(bytes: Bytes): Bytes {
    bytes + [0x80] + Zeros(PaddingZeros(|bytes|)) + BigEndian(BitLength(|bytes|), 8)
  }

  method Pad(bytes: Bytes) returns (padded: Bytes)
    ensures padded == PaddedMessage(bytes) && |padded| % 64 == 0
  {
    hide PaddingZeros, Zeros, BigEndian;
    padded := bytes + [0x80];
    ghost var zeros: nat := 0;
    assert padded == bytes + [0x80] + Zeros(0);
    while |padded| % 64 != 56
      invariant zeros <= PaddingZeros(|bytes|) && padded == bytes + [0x80] + Zeros(zeros)
      decreases PaddingZeros(|bytes|) - zeros
    {
      SameRemainder(|bytes|, zeros, |padded|);
      OneMoreZero(bytes + [0x80], zeros);
      padded := padded + [0];
      zeros := zeros + 1;
    }
    SameRemainder(|bytes|, zeros, |padded|);
    padded := padded + BigEndian(BitLength(|bytes|), 8);
  }

  lemma OneMoreZero(bytes: Bytes, n: nat)
    ensures bytes + Zeros(n) + [0] == bytes + Zeros(n + 1)
  {
  }

  lemma SameRemainder(size: nat, zeros: nat, padded: nat)
    requires zeros <= PaddingZeros(size) && padded == size + 1 + zeros
    ensures padded % 64 == 56 <==> zeros == PaddingZeros(size)
    ensures padded % 64 == 56 ==> (padded + 8) % 64 == 0
  {
    var r, q := size % 64, size / 64;
    ZerosAfter(r);
    assert PaddingZeros(size) == PaddingZeros(r);
    hide PaddingZeros;
    WholeBlocks(q, r + 1 + zeros);
    WholeBlocks(q, r + 9 + zeros);
  }

  lemma ZerosAfter(r: nat)
    requires r < 64
    ensures PaddingZeros(r) == if r <= 55 then 55 - r else 119 - r
  {
  }

  lemma WholeBlocks(q: nat, x: nat)
    requires x < 192
    ensures (64 * q + x) % 64 == if x < 64 then x else if x < 128 then x - 64 else x - 128
  {
  }

  lemma {:induction false} BigEndianInjective(v: nat, w: nat, width: nat)
    requires v < Pow256(width) && w < Pow256(width) && BigEndian(v, width) == BigEndian(w, width)
    ensures v == w
    decreases width
  {
    if width > 0 {
      var a, b := BigEndian(v, width), BigEndian(w, width);
      assert a[width - 1] == b[width - 1];
      assert a[..width - 1] == BigEndian(v / 0x100, width - 1) && b[..width - 1] == BigEndian(w / 0x100, width - 1);
      BigEndianInjective(v / 0x100, w / 0x100, width - 1);
    }
  }

  /** Padding keeps messages apart, up to the length the 64-bit count can tell. */
  lemma PaddingIsInjective(a: Bytes, b: Bytes)
    requires |a| < 0x2000_0000_0000_0000 && |b| < 0x2000_0000_0000_0000
    requires PaddedMessage(a) == PaddedMessage(b)
    ensures a == b
  {
    LengthIsLast(a);
    LengthIsLast(b);
    BigEndianInjective(BitLength(|a|), BitLength(|b|), 8);
    assert a == PaddedMessage(a)[..|a|] && b == PaddedMessage(b)[..|b|];
  }

  lemma LengthIsLast(bytes: Bytes)
    requires |bytes| < 0x2000_0000_0000_0000
    ensures var p := PaddedMessage(bytes);
      |p| >= 8 && p[|p| - 8..] == BigEndian(BitLength(|bytes|), 8)
    ensures BitLength(|bytes|) == |bytes| * 8 && BitLength(|bytes|) < Pow256(8)
  {
    Widths();
    hide BigEndian, Zeros, PaddingZeros, Pow256;
  }

  /** 64 lower-case hexadecimal digits. */
  predicate ValidDigest(digest: Bytes) {
    |digest| == 64 && forall i | 0 <= i < 64 :: 48 <= digest[i] <= 57 || 97 <= digest[i] <= 102
  }

  /** The hash is a parameter that keeps apart the inputs that are ever hashed. */
  datatype Hashing = Hashing(of: Bytes -> Bytes, inputs: set<Bytes>)

  ghost predicate KeepsApart(h: Hashing) {
    && (forall x :: |h.of(x)| == 32)
    && forall x, y | x in h.inputs && y in h.inputs :: h.of(x) == h.of(y) ==> x == y
  }

  /** Two keys with one digest are one key, because no two hashed inputs collide. */
  lemma DigestIdentifiesKey(h: Hashing, a: Key, b: Key)
    requires KeepsApart(h) && ShortKey(a) && ShortKey(b)
    requires KeyBytes(a) in h.inputs && KeyBytes(b) in h.inputs && Hex(h.of(KeyBytes(a))) == Hex(h.of(KeyBytes(b)))
    ensures a == b
  {
    HexIsInjective(h.of(KeyBytes(a)), h.of(KeyBytes(b)));
    KeyBytesInjective(a, b);
  }

  /** The same for locators. */
  lemma DigestIdentifiesLocator(h: Hashing, a: Locator, b: Locator)
    requires KeepsApart(h) && ShortLocator(a) && ShortLocator(b)
    requires LocatorBytes(a) in h.inputs && LocatorBytes(b) in h.inputs
    requires Hex(h.of(LocatorBytes(a))) == Hex(h.of(LocatorBytes(b)))
    ensures a == b
  {
    HexIsInjective(h.of(LocatorBytes(a)), h.of(LocatorBytes(b)));
    LocatorBytesInjective(a, b);
  }

  function Hex(digest: Bytes): (h: Bytes)
    ensures |h| == 2 * |digest|
    ensures forall i | 0 <= i < |h| :: 48 <= h[i] <= 57 || 97 <= h[i] <= 102
  {
    if digest == [] then []
    else Hex(digest[..|digest| - 1]) + [HexDigit(digest[|digest| - 1] / 16), HexDigit(digest[|digest| - 1] % 16)]
  }

  method ToHex(digest: Bytes) returns (output: Bytes)
    ensures output == Hex(digest)
  {
    output := [];
    for i := 0 to |digest|
      invariant output == Hex(digest[..i])
    {
      assert digest[..i + 1][..i] == digest[..i];
      output := output + [HexDigit(digest[i] / 16)];
      output := output + [HexDigit(digest[i] % 16)];
    }
    assert digest[..|digest|] == digest;
  }

  lemma TwoDigits(x: byte, y: byte)
    requires HexDigit(x / 16) == HexDigit(y / 16) && HexDigit(x % 16) == HexDigit(y % 16)
    ensures x == y
  {
  }

  lemma LastTwo(p: Bytes, x: byte, y: byte, q: Bytes, z: byte, w: byte)
    requires p + [x, y] == q + [z, w]
    ensures p == q && x == z && y == w
  {
    var r := p + [x, y];
    assert p == r[..|r| - 2] && q == r[..|r| - 2];
    assert r[|r| - 2] == x == z && r[|r| - 1] == y == w;
  }

  lemma {:induction false} HexIsInjective(a: Bytes, b: Bytes)
    requires Hex(a) == Hex(b)
    ensures a == b
    decreases |a|
  {
    hide HexDigit;
    if a != [] && b != [] {
      var n, m := |a| - 1, |b| - 1;
      LastTwo(Hex(a[..n]), HexDigit(a[n] / 16), HexDigit(a[n] % 16),
              Hex(b[..m]), HexDigit(b[m] / 16), HexDigit(b[m] % 16));
      TwoDigits(a[n], b[m]);
      HexIsInjective(a[..n], b[..m]);
      assert a == a[..n] + [a[n]] && b == b[..m] + [b[m]];
    } else {
      assert 2 * |a| == |Hex(a)| == |Hex(b)| == 2 * |b|;
    }
  }
}
