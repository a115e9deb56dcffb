/**
 UTF-8 as the catalogue and the codecs use it: a strict decoder (section 3 of RFC 3629), its
 inverse, a byte-preserving lower-casing of arbitrary bytes, and the two validators.
 Masks and shifts are written as divisions and remainders by powers of two.
 */
module Utf8 {
  import opened Bytes

  datatype Decoded = Decoded(length: nat, codepoint: nat)

  predicate IsScalar(c: nat) {
    c <= 0x10FFFF && !(0xD800 <= c <= 0xDFFF)
  }

  predicate IsContinuation(b: byte) {
    b / 64 == 2
  }

  /** Length announced by a lead byte; 0 for a byte that cannot start a sequence. */
  function LeadLength(b: byte): (n: nat)
    ensures n <= 4
  {
    if b < 0x80 then 1
    else if b / 32 == 6 then 2
    else if b / 16 == 14 then 3
    else if b / 8 == 30 then 4
    else 0
  }

  function LeadBits(b: byte): (n: nat)
    ensures LeadLength(b) == 2 ==> n < 32
    ensures LeadLength(b) == 3 ==> n < 16
    ensures LeadLength(b) == 4 ==> n < 8
  {
    if b < 0x80 then b else if b / 32 == 6 then b % 32 else if b / 16 == 14 then b % 16 else b % 8
  }

  /** The smallest value that needs n bytes. */
  function Minimum(n: nat): nat {
    if n <= 1 then 0 else if n == 2 then 0x80 else if n == 3 then 0x800 else 0x1_0000
  }

  predicate Continued(s: Bytes, n: nat) {
    n <= |s| && forall i | 1 <= i < n :: IsContinuation(s[i])
  }

  function Accumulate(s: Bytes, n: nat): nat
    requires 1 <= n <= |s|
  {
    if n == 1 then LeadBits(s[0]) else Accumulate(s, n - 1) * 64 + s[n - 1] % 64
  }

  /** The sequence at the start of s, unless it is malformed. */
  function Decode(s: Bytes): (r: Option<Decoded>)
    requires s != []
    ensures r.Some? ==> 1 <= r.value.length <= |s| && IsScalar(r.value.codepoint)
  {
    var n := LeadLength(s[0]);
    if n == 0 || !Continued(s, n) then None
    else
      var value := Accumulate(s, n);
      if value < Minimum(n) || !IsScalar(value) then None else Some(Decoded(n, value))
  }

  /** The same, with the cursor and the loop of the program. */
  method DecodeAt(text: Bytes, start: nat) returns (r: Option<Decoded>)
    requires start < |text|
    ensures r == Decode(text[start..])
  {
    var first := text[start];
    if first < 0x80 {
      return Some(Decoded(1, first));
    }
    var length: nat, value: nat, minimum: nat;
    if first / 32 == 6 {
      length, value, minimum := 2, first % 32, 0x80;
    } else if first / 16 == 14 {
      length, value, minimum := 3, first % 16, 0x800;
    } else if first / 8 == 30 {
      length, value, minimum := 4, first % 8, 0x1_0000;
    } else {
      return None;
    }
    if start + length > |text| {
      return None;
    }
    ghost var s := text[start..];
    for offset := 1 to length
      invariant Continued(s, offset) && value == Accumulate(s, offset)
    {
      var continuation := text[start + offset];
      if continuation / 64 != 2 {
        assert !IsContinuation(s[offset]);
        return None;
      }
      value := value * 64 + continuation % 64;
    }
    if value < minimum || value > 0x10FFFF || 0xD800 <= value <= 0xDFFF {
      return None;
    }
    r := Some(Decoded(length, value));
  }

  function Encode(c: nat): (s: Bytes)
    requires IsScalar(c)
    ensures 1 <= |s| <= 4
  {
    if c <= 0x7F then [c]
    else if c <= 0x7FF then [0xC0 + c / 64, 0x80 + c % 64]
    else if c <= 0xFFFF then [0xE0 + c / 4096, 0x80 + c / 64 % 64, 0x80 + c % 64]
    else [0xF0 + c / 262144, 0x80 + c / 4096 % 64, 0x80 + c / 64 % 64, 0x80 + c % 64]
  }

  lemma AccumulateShort(s: Bytes, n: nat)
    requires 1 <= n <= |s| && n <= 4
    ensures Accumulate(s, n) == match n
              case 1 => LeadBits(s[0])
              case 2 => LeadBits(s[0]) * 64 + s[1] % 64
              case 3 => (LeadBits(s[0]) * 64 + s[1] % 64) * 64 + s[2] % 64
              case _ => ((LeadBits(s[0]) * 64 + s[1] % 64) * 64 + s[2] % 64) * 64 + s[3] % 64
  {
    assert n >= 2 ==> Accumulate(s, 2) == Accumulate(s, 1) * 64 + s[1] % 64;
    assert n >= 3 ==> Accumulate(s, 3) == Accumulate(s, 2) * 64 + s[2] % 64;
  }

  lemma Sextets(c: nat)
    ensures c / 4096 == c / 64 / 64 && c / 262144 == c / 64 / 64 / 64
    ensures c == c / 64 * 64 + c % 64
    ensures c == (c / 4096 * 64 + c / 64 % 64) * 64 + c % 64
    ensures c == ((c / 262144 * 64 + c / 4096 % 64) * 64 + c / 64 % 64) * 64 + c % 64
  {
  }

  /** The lead byte and the sextets behind it make up the code point. */
  lemma EncodedAccumulates(c: nat, s: Bytes)
    requires IsScalar(c) && Encode(c) <= s
    ensures LeadLength(s[0]) == |Encode(c)| && Continued(s, |Encode(c)|)
    ensures Accumulate(s, |Encode(c)|) == c && Minimum(|Encode(c)|) <= c
  {
    EncodedBytes(c, s);
    assert c <= 0x7F ==> Continued(s, 1) && Accumulate(s, 1) == LeadBits(s[0]);
    assert Minimum(1) == 0 && Minimum(2) == 0x80 && Minimum(3) == 0x800 && Minimum(4) == 0x1_0000;
    hide *;
    if c <= 0x7F {
      Leads(c, 0, 0, 0);
    } else if c <= 0x7FF {
      Carries2(c / 64, c % 64, s);
    } else if c <= 0xFFFF {
      Sextets(c);
      Carries3(c / 4096, c / 64 % 64, c % 64, s);
    } else {
      Sextets(c);
      Carries4(c / 262144, c / 4096 % 64, c / 64 % 64, c % 64, s);
    }
  }

  lemma EncodedBytes(c: nat, s: Bytes)
    requires IsScalar(c) && Encode(c) <= s
    ensures c <= 0x7F ==> |Encode(c)| == 1 && s[0] == c
    ensures 0x7F < c <= 0x7FF ==> |Encode(c)| == 2 && s[0] == 0xC0 + c / 64 && s[1] == 0x80 + c % 64
    ensures 0x7FF < c <= 0xFFFF ==>
              |Encode(c)| == 3 && s[0] == 0xE0 + c / 4096 && s[1] == 0x80 + c / 64 % 64 && s[2] == 0x80 + c % 64
    ensures 0xFFFF < c ==>
              && |Encode(c)| == 4 && s[0] == 0xF0 + c / 262144 && s[1] == 0x80 + c / 4096 % 64
              && s[2] == 0x80 + c / 64 % 64 && s[3] == 0x80 + c % 64 && c <= 0x10FFFF
  {
    assert forall i | 0 <= i < |Encode(c)| :: s[i] == Encode(c)[i];
  }

  lemma Carries2(a: nat, b: nat, s: Bytes)
    requires a < 32 && b < 64 && |s| >= 2 && s[0] == 0xC0 + a && s[1] == 0x80 + b
    ensures LeadLength(s[0]) == 2 && Continued(s, 2) && Accumulate(s, 2) == a * 64 + b
  {
    Leads(0, a, 0, 0);
    Sextet(b);
    AccumulateShort(s, 2);
    hide Accumulate, LeadBits, IsContinuation;
  }

  lemma Carries3(a: nat, b: nat, c: nat, s: Bytes)
    requires a < 16 && b < 64 && c < 64 && |s| >= 3 && s[0] == 0xE0 + a && s[1] == 0x80 + b && s[2] == 0x80 + c
    ensures LeadLength(s[0]) == 3 && Continued(s, 3) && Accumulate(s, 3) == (a * 64 + b) * 64 + c
  {
    Leads(0, 0, a, 0);
    Sextet(b);
    Sextet(c);
    AccumulateShort(s, 3);
    hide Accumulate, LeadBits, IsContinuation;
  }

  lemma Carries4(a: nat, b: nat, c: nat, d: nat, s: Bytes)
    requires a < 8 && b < 64 && c < 64 && d < 64 && |s| >= 4
    requires s[0] == 0xF0 + a && s[1] == 0x80 + b && s[2] == 0x80 + c && s[3] == 0x80 + d
    ensures LeadLength(s[0]) == 4 && Continued(s, 4) && Accumulate(s, 4) == ((a * 64 + b) * 64 + c) * 64 + d
  {
    Leads(0, 0, 0, a);
    Sextet(b);
    Sextet(c);
    Sextet(d);
    AccumulateShort(s, 4);
    hide Accumulate, LeadBits, IsContinuation;
  }

  /** What the lead bytes of one to four bytes announce and carry. */
  lemma Leads(one: nat, two: nat, three: nat, four: nat)
    ensures one < 128 ==> LeadLength(one) == 1 && LeadBits(one) == one
    ensures two < 32 ==> LeadLength(0xC0 + two) == 2 && LeadBits(0xC0 + two) == two
    ensures three < 16 ==> LeadLength(0xE0 + three) == 3 && LeadBits(0xE0 + three) == three
    ensures four < 8 ==> LeadLength(0xF0 + four) == 4 && LeadBits(0xF0 + four) == four
  {
  }

  lemma Sextet(low: nat)
    requires low < 64
    ensures IsContinuation(0x80 + low) && (0x80 + low) % 64 == low
  {
  }

  /** A lead byte is its mark and its bits. */
  lemma LeadIs(b: byte)
    ensures LeadLength(b) == 1 ==> b == LeadBits(b)
    ensures LeadLength(b) == 2 ==> b == 0xC0 + LeadBits(b)
    ensures LeadLength(b) == 3 ==> b == 0xE0 + LeadBits(b)
    ensures LeadLength(b) == 4 ==> b == 0xF0 + LeadBits(b)
  {
  }

  /** Decoding what was encoded gives the code point back, whatever follows. */
  lemma DecodeEncoded(c: nat, rest: Bytes)
    requires IsScalar(c)
    ensures Decode(Encode(c) + rest) == Some(Decoded(|Encode(c)|, c))
  {
    EncodedAccumulates(c, Encode(c) + rest);
  }

  /** A decoded sequence is the encoding of its code point: there is no second spelling. */
  lemma EncodeDecoded(s: Bytes)
    requires s != [] && Decode(s).Some?
    ensures Encode(Decode(s).value.codepoint) == s[..Decode(s).value.length]
  {
    var n, c := LeadLength(s[0]), Decode(s).value.codepoint;
    hide *;
    LeadIs(s[0]);
    Decoding(s);
    if n == 1 {
      OneByte(c);
      assert s[..1] == [s[0]];
    } else if n == 2 {
      TwoBytes(LeadBits(s[0]), s[1]);
      assert s[..2] == [s[0], s[1]];
    } else if n == 3 {
      ThreeBytes(LeadBits(s[0]), s[1], s[2]);
      assert s[..3] == [s[0], s[1], s[2]];
    } else {
      FourBytes(LeadBits(s[0]), s[1], s[2], s[3]);
      assert s[..4] == [s[0], s[1], s[2], s[3]];
    }
  }

  lemma Decoding(s: Bytes)
    requires s != [] && Decode(s).Some?
    ensures var n := LeadLength(s[0]);
      var c := Decode(s).value.codepoint;
      && 1 <= n <= |s| && n <= 4 && Decode(s).value.length == n && IsScalar(c)
      && (n > 1 ==> IsContinuation(s[1])) && (n > 2 ==> IsContinuation(s[2])) && (n > 3 ==> IsContinuation(s[3]))
      && (n == 1 ==> c == LeadBits(s[0]) < 0x80)
      && (n == 2 ==> c == LeadBits(s[0]) * 64 + s[1] % 64 && 0x80 <= c)
      && (n == 3 ==> c == (LeadBits(s[0]) * 64 + s[1] % 64) * 64 + s[2] % 64 && 0x800 <= c)
      && (n == 4 ==> c == ((LeadBits(s[0]) * 64 + s[1] % 64) * 64 + s[2] % 64) * 64 + s[3] % 64 && 0x1_0000 <= c)
  {
    AccumulateShort(s, LeadLength(s[0]));
    hide IsContinuation, Accumulate, LeadBits;
  }

  lemma OneByte(c: nat)
    requires c < 0x80
    ensures Encode(c) == [c]
  {
  }

  lemma TwoBytes(lead: nat, x: byte)
    requires IsContinuation(x)
    requires var c := lead * 64 + x % 64; 0x80 <= c && lead < 32
    ensures Encode(lead * 64 + x % 64) == [0xC0 + lead, x]
  {
    Append(lead, x);
    hide IsContinuation;
  }

  lemma ThreeBytes(lead: nat, x: byte, y: byte)
    requires IsContinuation(x) && IsContinuation(y)
    requires var c := (lead * 64 + x % 64) * 64 + y % 64; 0x800 <= c && IsScalar(c) && lead < 16
    ensures Encode((lead * 64 + x % 64) * 64 + y % 64) == [0xE0 + lead, x, y]
  {
    Append(lead, x);
    Append(lead * 64 + x % 64, y);
    Sextets((lead * 64 + x % 64) * 64 + y % 64);
    hide IsContinuation;
  }

  lemma FourBytes(lead: nat, x: byte, y: byte, z: byte)
    requires IsContinuation(x) && IsContinuation(y) && IsContinuation(z)
    requires var c := ((lead * 64 + x % 64) * 64 + y % 64) * 64 + z % 64; 0x1_0000 <= c && IsScalar(c)
    ensures Encode(((lead * 64 + x % 64) * 64 + y % 64) * 64 + z % 64) == [0xF0 + lead, x, y, z]
  {
    Append(lead, x);
    Append(lead * 64 + x % 64, y);
    Append((lead * 64 + x % 64) * 64 + y % 64, z);
    Sextets(((lead * 64 + x % 64) * 64 + y % 64) * 64 + z % 64);
  }

  /** A continuation byte adds its six bits at the end. */
  lemma Append(high: nat, b: byte)
    requires IsContinuation(b)
    ensures (high * 64 + b % 64) / 64 == high && (high * 64 + b % 64) % 64 == b % 64
    ensures b == 0x80 + b % 64
  {
  }

  // ---------------------------------------------------------------- lower-casing

  function SimpleLower(c: nat): nat {
    if 65 <= c <= 90 then c + 0x20
    else if 0x00C0 <= c <= 0x00D6 || 0x00D8 <= c <= 0x00DE then c + 0x20
    else if 0x0391 <= c <= 0x03AB && c != 0x03A2 then c + 0x20
    else if 0x0400 <= c <= 0x040F then c + 0x50
    else if 0x0410 <= c <= 0x042F then c + 0x20
    else c
  }

  lemma SimpleLowerKeepsLength(c: nat)
    requires IsScalar(c)
    ensures IsScalar(SimpleLower(c)) && |Encode(SimpleLower(c))| == |Encode(c)|
    ensures SimpleLower(SimpleLower(c)) == SimpleLower(c)
  {
  }

  function Fold(s: Bytes): Bytes {
    if s == [] then []
    else match Decode(s)
      case None => [s[0]] + Fold(s[1..])
      case Some(d) =>
        SimpleLowerKeepsLength(d.codepoint);
        Encode(SimpleLower(d.codepoint)) + Fold(s[d.length..])
  }

  /** The search key of a name that is not valid UTF-8. */
  method FallbackSearchKey(utf8: Bytes) returns (result: Bytes)
    ensures result == Fold(utf8)
  {
    FoldStarts(utf8);
    hide *;
    result := [];
    var offset := 0;
    while offset < |utf8|
      invariant offset <= |utf8|
      invariant Fold(utf8) == FoldedFrom(utf8, offset, result)
      decreases |utf8| - offset
    {
      var start := offset;
      var decoded := DecodeAt(utf8, start);
      FoldStep(utf8, start, result);
      if decoded.None? {
        result := result + [utf8[start]];
        offset := start + 1;
      } else {
        offset := start + decoded.value.length;
        SimpleLowerKeepsLength(decoded.value.codepoint);
        result := result + Encode(SimpleLower(decoded.value.codepoint));
      }
    }
    FoldEnds(utf8, result);
  }

  /** What is done, and the folding of the rest. */
  function FoldedFrom(s: Bytes, k: nat, done: Bytes): Bytes
    requires k <= |s|
  {
    done + Fold(s[k..])
  }

  lemma FoldStarts(s: Bytes)
    ensures FoldedFrom(s, 0, []) == Fold(s)
  {
    assert s[0..] == s && [] + Fold(s) == Fold(s);
  }

  lemma FoldEnds(s: Bytes, done: Bytes)
    ensures FoldedFrom(s, |s|, done) == done
  {
    assert s[|s|..] == [] && done + [] == done;
  }

  lemma FoldStep(s: Bytes, k: nat, done: Bytes)
    requires k < |s|
    ensures match Decode(s[k..])
            case None => FoldedFrom(s, k, done) == FoldedFrom(s, k + 1, done + [s[k]])
            case Some(d) =>
              IsScalar(SimpleLower(d.codepoint)) &&
              FoldedFrom(s, k, done) == FoldedFrom(s, k + d.length, done + Encode(SimpleLower(d.codepoint)))
  {
    var rest := s[k..];
    match Decode(rest)
    case None =>
      assert rest[1..] == s[k + 1..];
      Associate(done, [s[k]], Fold(s[k + 1..]));
    case Some(d) =>
      SimpleLowerKeepsLength(d.codepoint);
      assert rest[d.length..] == s[k + d.length..];
      Associate(done, Encode(SimpleLower(d.codepoint)), Fold(s[k + d.length..]));
  }

  lemma {:induction false} FoldKeepsLength(s: Bytes)
    ensures |Fold(s)| == |s|
  {
    if s != [] {
      match Decode(s)
      case None => FoldKeepsLength(s[1..]);
      case Some(d) =>
        SimpleLowerKeepsLength(d.codepoint);
        EncodeDecoded(s);
        FoldKeepsLength(s[d.length..]);
    }
  }

  /** Folding keeps continuation bytes where they are, and a leading run of them unchanged. */
  lemma {:induction false} FoldKeepsContinuations(s: Bytes, k: nat)
    requires k < |s|
    ensures |Fold(s)| == |s| && IsContinuation(Fold(s)[k]) == IsContinuation(s[k])
    ensures (forall i | 0 <= i <= k :: IsContinuation(s[i])) ==> Fold(s)[k] == s[k]
  {
    FoldKeepsLength(s);
    match Decode(s)
    case None =>
      FoldKeepsLength(s[1..]);
      if k > 0 {
        FoldKeepsContinuations(s[1..], k - 1);
        assert s[1..][k - 1] == s[k];
      }
    case Some(d) =>
      SimpleLowerKeepsLength(d.codepoint);
      EncodeDecoded(s);
      FoldKeepsLength(s[d.length..]);
      assert !IsContinuation(s[0]);
      hide Decode, SimpleLower;
      if k < d.length {
        assert s[k] == Encode(d.codepoint)[k];
        EncodedMarks(d.codepoint, k);
        EncodedMarks(SimpleLower(d.codepoint), k);
      } else {
        hide Encode, IsContinuation;
        FoldKeepsContinuations(s[d.length..], k - d.length);
        assert s[d.length..][k - d.length] == s[k];
      }
  }

  /** Only the first byte of an encoding is no continuation. */
  lemma EncodedMarks(c: nat, k: nat)
    requires IsScalar(c) && k < |Encode(c)|
    ensures IsContinuation(Encode(c)[k]) == (k > 0)
  {
  }

  /** What was malformed stays malformed when the bytes behind it are folded. */
  lemma MalformedStays(s: Bytes)
    requires s != [] && Decode(s).None?
    ensures Decode([s[0]] + Fold(s[1..])).None?
  {
    var t := [s[0]] + Fold(s[1..]);
    FoldKeepsLength(s[1..]);
    var n := LeadLength(s[0]);
    if n > 0 && Continued(t, n) {
      forall i | 1 <= i < n
        ensures t[i] == s[i] && IsContinuation(s[i])
      {
        ContinuationsBefore(s, t, i);
      }
      assert Continued(s, n);
      AccumulateShort(s, n);
      AccumulateShort(t, n);
    }
  }

  lemma ContinuationsBefore(s: Bytes, t: Bytes, i: nat)
    requires s != [] && t == [s[0]] + Fold(s[1..]) && 1 <= i < |t| == |s|
    requires forall k | 1 <= k <= i :: IsContinuation(t[k])
    ensures t[i] == s[i] && IsContinuation(s[i])
  {
    forall k | 0 <= k < i
      ensures IsContinuation(s[1..][k])
    {
      FoldKeepsContinuations(s[1..], k);
      assert t[k + 1] == Fold(s[1..])[k];
    }
    FoldKeepsContinuations(s[1..], i - 1);
  }

  /** Folding twice changes nothing more, also when malformed bytes are mixed in. */
  lemma {:induction false} FoldIsIdempotent(s: Bytes)
    ensures Fold(Fold(s)) == Fold(s)
  {
    if s != [] {
      match Decode(s)
      case None =>
        MalformedStays(s);
        FoldIsIdempotent(s[1..]);
        assert ([s[0]] + Fold(s[1..]))[1..] == Fold(s[1..]);
      case Some(d) =>
        SimpleLowerKeepsLength(d.codepoint);
        var lower, rest := Encode(SimpleLower(d.codepoint)), Fold(s[d.length..]);
        DecodeEncoded(SimpleLower(d.codepoint), rest);
        FoldIsIdempotent(s[d.length..]);
        assert (lower + rest)[|lower|..] == rest;
    }
  }

  // ---------------------------------------------------------------- which letters are folded

  /** Capital letters from `first` to `last`, and the small letter of the first. */
  datatype Alphabet = Alphabet(first: nat, last: nat, small: nat)

  /** Latin, Latin with accents around the multiplication sign, Greek around an unused place, Cyrillic. */
  const ALPHABETS: seq<Alphabet> := [
    Alphabet(0x41, 0x5A, 0x61), Alphabet(0xC0, 0xD6, 0xE0), Alphabet(0xD8, 0xDE, 0xF8),
    Alphabet(0x391, 0x3A1, 0x3B1), Alphabet(0x3A3, 0x3AB, 0x3C3),
    Alphabet(0x400, 0x40F, 0x450), Alphabet(0x410, 0x42F, 0x430)]

  predicate CapitalOf(a: Alphabet, capital: nat, small: nat) {
    a.first <= capital <= a.last && small == a.small + (capital - a.first)
  }

  predicate IsCapitalOf(capital: nat, small: nat) {
    exists k | 0 <= k < |ALPHABETS| :: CapitalOf(ALPHABETS[k], capital, small)
  }

  /** Two characters are folded alike if and only if they are the same letter but for its case. */
  lemma FoldsCase(c: nat, d: nat)
    ensures SimpleLower(c) == SimpleLower(d)
            <==> c == d || IsCapitalOf(c, d) || IsCapitalOf(d, c)
  {
    LowerIsSmall(c, d);
    LowerIsSmall(d, c);
    LowerStays(c);
    LowerStays(d);
    hide ALPHABETS, CapitalOf;
    if SimpleLower(c) == SimpleLower(d) && c != d {
      assert SimpleLower(c) == d || SimpleLower(d) == c;
    }
  }

  lemma LowerIsSmall(c: nat, d: nat)
    ensures IsCapitalOf(c, d) <==> c != d && SimpleLower(c) == d
  {
    assert CapitalOf(ALPHABETS[0], c, d) <==> 0x41 <= c <= 0x5A && d == c + 0x20;
    assert CapitalOf(ALPHABETS[1], c, d) <==> 0xC0 <= c <= 0xD6 && d == c + 0x20;
    assert CapitalOf(ALPHABETS[2], c, d) <==> 0xD8 <= c <= 0xDE && d == c + 0x20;
    assert CapitalOf(ALPHABETS[3], c, d) <==> 0x391 <= c <= 0x3A1 && d == c + 0x20;
    assert CapitalOf(ALPHABETS[4], c, d) <==> 0x3A3 <= c <= 0x3AB && d == c + 0x20;
    assert CapitalOf(ALPHABETS[5], c, d) <==> 0x400 <= c <= 0x40F && d == c + 0x50;
    assert CapitalOf(ALPHABETS[6], c, d) <==> 0x410 <= c <= 0x42F && d == c + 0x20;
  }

  lemma LowerStays(c: nat)
    ensures SimpleLower(SimpleLower(c)) == SimpleLower(c)
  {
  }

  /** Text is folded letter by letter. */
  function Written(cs: seq<nat>): Bytes
    requires forall c | c in cs :: IsScalar(c)
  {
    if cs == [] then [] else Encode(cs[0]) + Written(cs[1..])
  }

  function LoweredAll(cs: seq<nat>): (ds: seq<nat>)
    requires forall c | c in cs :: IsScalar(c)
    ensures |ds| == |cs| && forall d | d in ds :: IsScalar(d)
  {
    if cs == [] then []
    else
      SimpleLowerKeepsLength(cs[0]);
      [SimpleLower(cs[0])] + LoweredAll(cs[1..])
  }

  lemma {:induction false} FoldOfText(cs: seq<nat>)
    requires forall c | c in cs :: IsScalar(c)
    ensures Fold(Written(cs)) == Written(LoweredAll(cs))
  {
    hide Decode, Encode, SimpleLower, IsScalar;
    if cs != [] {
      var rest := Written(cs[1..]);
      DecodeEncoded(cs[0], rest);
      SimpleLowerKeepsLength(cs[0]);
      FoldOfText(cs[1..]);
      assert (Encode(cs[0]) + rest)[|Encode(cs[0])|..] == rest;
      assert LoweredAll(cs)[1..] == LoweredAll(cs[1..]);
    }
  }

  /** Plain ASCII is folded like a collision key. */
  lemma {:induction false} FoldOfAscii(s: Bytes)
    requires forall i | 0 <= i < |s| :: s[i] < 0x80
    ensures Fold(s) == Lowered(s)
  {
    if s != [] {
      FoldOfAscii(s[1..]);
      assert Decode(s) == Some(Decoded(1, s[0]));
      assert Lowered(s) == [LowerAscii(s[0])] + Lowered(s[1..]);
    }
  }

  // ---------------------------------------------------------------- validators

  /** Every byte belongs to a well-formed sequence. */
  predicate WellFormed(s: Bytes) {
    s == [] || (Decode(s).Some? && WellFormed(s[Decode(s).value.length..]))
  }

  /** Reads `count` continuation bytes behind a lead byte. */
  method ReadContinuations(text: Bytes, offset: nat, count: nat, lead: nat) returns (r: Option<nat>)
    requires offset < |text| && lead == LeadBits(text[offset])
    ensures r == if Continued(text[offset..], count + 1) then Some(Accumulate(text[offset..], count + 1)) else None
  {
    ghost var rest := text[offset..];
    if offset + count >= |text| {
      return None;
    }
    var codepoint: nat := lead;
    for index := 1 to count + 1
      invariant Continued(rest, index) && codepoint == Accumulate(rest, index)
    {
      var b := text[offset + index];
      if b / 64 != 2 {
        assert !IsContinuation(rest[index]);
        return None;
      }
      codepoint := codepoint * 64 + b % 64;
    }
    r := Some(codepoint);
  }

  predicate Rejected(count: nat, codepoint: nat) {
    || (count == 2 && codepoint < 0x800) || (count == 3 && codepoint < 0x1_0000)
    || 0xD800 <= codepoint <= 0xDFFF || codepoint > 0x10FFFF
  }

  /** The validator of colour identities: text without NUL. */
  method ValidText(value: Bytes) returns (valid: bool)
    ensures valid <==> WellFormed(value) && 0 !in value
  {
    hide Decode, Accumulate;
    var offset := 0;
    assert value[0..] == value;
    while offset < |value|
      invariant offset <= |value|
      invariant WellFormed(value) <==> WellFormed(value[offset..])
      invariant 0 !in value[..offset]
      decreases |value| - offset
    {
      ghost var rest := value[offset..];
      var first := value[offset];
      var count, lead := 0, first as int;
      if first <= 0x7F {
        if first == 0 {
          return false;
        }
      } else if 0xC2 <= first <= 0xDF {
        count, lead := 1, first % 32;
      } else if 0xE0 <= first <= 0xEF {
        count, lead := 2, first % 16;
      } else if 0xF0 <= first <= 0xF4 {
        count, lead := 3, first % 8;
      } else {
        LeadRejected(rest);
        return false;
      }
      var codepoint := ReadContinuations(value, offset, count, lead);
      DecodeIs(rest, count);
      if codepoint.None? || Rejected(count, codepoint.value) {
        return false;
      }
      StepOver(value, offset, count + 1);
      offset := offset + count + 1;
    }
    assert value[..offset] == value;
    valid := true;
  }

  lemma StepOver(value: Bytes, offset: nat, n: nat)
    requires offset < |value| && offset + n <= |value| && n > 0 && Continued(value[offset..], n)
    ensures value[offset..][n..] == value[offset + n..]
    ensures 0 !in value[..offset] && value[offset] != 0 ==> 0 !in value[..offset + n]
  {
    var rest := value[offset..];
    assert forall i | 1 <= i < n :: IsContinuation(rest[i]) && rest[i] != 0;
    assert value[..offset + n] == value[..offset] + rest[..n];
  }

  /** What Decode does once the length announced by the lead byte is known. */
  lemma DecodeIs(s: Bytes, count: nat)
    requires s != [] && LeadLength(s[0]) == count + 1 && !(0xC0 <= s[0] < 0xC2)
    ensures Decode(s) == if Continued(s, count + 1) && !Rejected(count, Accumulate(s, count + 1))
                         then Some(Decoded(count + 1, Accumulate(s, count + 1))) else None
  {
    if Continued(s, count + 1) {
      AccumulateShort(s, count + 1);
    }
  }

  lemma LeadRejected(s: Bytes)
    requires s != [] && (0x80 <= s[0] < 0xC2 || s[0] > 0xF4)
    ensures Decode(s).None?
  {
    var n := LeadLength(s[0]);
    if n > 0 && Continued(s, n) {
      AccumulateShort(s, n);
    }
  }

  /** The validator of journalled names and details; it admits NUL. */
  method ValidUtf8(text: Bytes) returns (valid: bool)
    ensures valid <==> WellFormed(text)
  {
    hide Decode, Accumulate, IsContinuation, Continued;
    var index := 0;
    assert text[0..] == text;
    while index < |text|
      invariant index <= |text|
      invariant WellFormed(text) <==> WellFormed(text[index..])
      decreases |text| - index
    {
      ghost var rest := text[index..];
      var first := text[index];
      var count, lead := 0, first as int;
      if first > 0x7F {
        if first / 32 == 6 {
          count, lead := 1, first % 32;
          if lead < 2 {
            LeadRejected(rest);
            return false;
          }
        } else if first / 16 == 14 {
          count, lead := 2, first % 16;
        } else if first / 8 == 30 {
          count, lead := 3, first % 8;
        } else {
          LeadRejected(rest);
          return false;
        }
      }
      var codepoint := ReadContinuations(text, index, count, lead);
      DecodeIs(rest, count);
      if codepoint.None? || Rejected(count, codepoint.value) {
        return false;
      }
      StepOver(text, index, count + 1);
      index := index + count + 1;
    }
    valid := true;
  }
}
