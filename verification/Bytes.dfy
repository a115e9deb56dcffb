/** Bytes, fixed-width little-endian integers and the byte-wise order, shared by every codec. */
module Bytes {

  type byte = x: int | 0 <= x < 0x100
  type u16 = x: int | 0 <= x < 0x1_0000
  type u32 = x: int | 0 <= x < 0x1_0000_0000
  type u64 = x: int | 0 <= x < 0x1_0000_0000_0000_0000
  type i64 = x: int | -0x8000_0000_0000_0000 <= x < 0x8000_0000_0000_0000

  type Bytes = seq<byte>

  datatype Option<+T> = None | Some(value: T)

  /** The first of what is coming, or what comes when nothing is left. */
  function HeadOr<T>(coming: seq<T>, otherwise: T): T {
    if coming == [] then otherwise else coming[0]
  }

  function Later<T>(coming: seq<T>): seq<T> {
    if coming == [] then [] else coming[1..]
  }

  /** The bytes of an ASCII literal. */
  function Ascii(s: string): (r: Bytes)
    requires forall i | 0 <= i < |s| :: s[i] < 128 as char
    ensures |r| == |s| && forall i | 0 <= i < |r| :: r[i] < 128
  {
    seq(|s|, i requires 0 <= i < |s| => s[i] as int)
  }

  function LowerAscii(b: byte): byte {
    if 65 <= b <= 90 then b + 32 else b
  }

  /** ASCII letters in lower case, every other byte as it is. */
  function Lowered(s: Bytes): (r: Bytes)
    ensures |r| == |s| && forall i | 0 <= i < |s| :: r[i] == LowerAscii(s[i])
  {
    seq(|s|, i requires 0 <= i < |s| => LowerAscii(s[i]))
  }

  function HexDigit(d: nat): byte
    requires d < 16
  {
    if d < 10 then 48 + d else 87 + d
  }

  /** A signed value as the same 64 bits read without a sign, and back. */
  function Unsigned(v: i64): u64 {
    if v < 0 then v + 0x1_0000_0000_0000_0000 else v
  }

  function Signed(v: u64): i64 {
    if v >= 0x8000_0000_0000_0000 then v - 0x1_0000_0000_0000_0000 else v
  }

  /** `width` little-endian bytes of `v`. */
  function LittleEndian(v: nat, width: nat): (r: Bytes)
    ensures |r| == width
  {
    if width == 0 then [] else [v % 0x100] + LittleEndian(v / 0x100, width - 1)
  }

  function FromLittleEndian(b: Bytes): (v: nat)
  {
    if b == [] then 0 else b[0] + 0x100 * FromLittleEndian(b[1..])
  }

  function Pow256(n: nat): (p: nat)
    ensures p > 0
  {
    if n == 0 then 1 else 0x100 * Pow256(n - 1)
  }

  lemma {:induction false} LittleEndianReadsBack(v: nat, width: nat)
    requires v < Pow256(width)
    ensures FromLittleEndian(LittleEndian(v, width)) == v
  {
    if width > 0 {
      LittleEndianReadsBack(v / 0x100, width - 1);
      assert LittleEndian(v, width)[1..] == LittleEndian(v / 0x100, width - 1);
    }
  }

  lemma LowByte(low: byte, high: nat)
    ensures (low + 0x100 * high) % 0x100 == low && (low + 0x100 * high) / 0x100 == high
  {
  }

  lemma {:induction false} LittleEndianWritesBack(b: Bytes)
    ensures FromLittleEndian(b) < Pow256(|b|)
    ensures LittleEndian(FromLittleEndian(b), |b|) == b
  {
    if b != [] {
      LittleEndianWritesBack(b[1..]);
      LowByte(b[0], FromLittleEndian(b[1..]));
      assert b == [b[0]] + b[1..];
    }
  }

  lemma Widths()
    ensures Pow256(1) == 0x100 && Pow256(2) == 0x1_0000
    ensures Pow256(4) == 0x1_0000_0000 && Pow256(8) == 0x1_0000_0000_0000_0000
  {
    assert Pow256(3) == 0x100_0000;
    assert Pow256(5) == 0x100_0000_0000;
    assert Pow256(7) == 0x100 * Pow256(6);
  }

  /** Unsigned byte-wise comparison, the sign of `std::string_view::compare`. */
  function CompareBytes(a: Bytes, b: Bytes): (r: int)
    ensures -1 <= r <= 1
    decreases |a|
  {
    if a == [] then (if b == [] then 0 else -1)
    else if b == [] then 1
    else if a[0] != b[0] then (if a[0] < b[0] then -1 else 1)
    else CompareBytes(a[1..], b[1..])
  }

  lemma {:induction false} CompareBytesTotal(a: Bytes, b: Bytes)
    ensures CompareBytes(a, b) == -CompareBytes(b, a)
    ensures CompareBytes(a, b) == 0 <==> a == b
  {
    if a != [] && b != [] {
      CompareBytesTotal(a[1..], b[1..]);
      assert a == [a[0]] + a[1..] && b == [b[0]] + b[1..];
    }
  }

  lemma {:induction false} CompareBytesTransitive(a: Bytes, b: Bytes, c: Bytes)
    requires CompareBytes(a, b) <= 0 && CompareBytes(b, c) <= 0
    ensures CompareBytes(a, c) <= 0
    ensures CompareBytes(a, b) < 0 || CompareBytes(b, c) < 0 ==> CompareBytes(a, c) < 0
  {
    if a != [] && b != [] && c != [] && a[0] == b[0] == c[0] {
      CompareBytesTransitive(a[1..], b[1..], c[1..]);
    }
  }

  const DOT: byte := 46

  /** The position of the last dot, or -1. */
  function LastDot(name: Bytes): (i: int)
    ensures -1 <= i < |name| && (i >= 0 ==> name[i] == DOT) && DOT !in name[i + 1..]
  {
    if name == [] then -1
    else
      var n := |name| - 1;
      if name[n] == DOT then n else LastDot(name[..n])
  }

  lemma {:induction false} OneLastDot(name: Bytes, dot: nat)
    requires dot < |name| && name[dot] == DOT && DOT !in name[dot + 1..]
    ensures LastDot(name) == dot
  {
    var n := |name| - 1;
    if dot < n {
      assert name[n] == name[dot + 1..][n - dot - 1];
      assert name[..n][dot + 1..] == name[dot + 1..][..n - dot - 1];
      OneLastDot(name[..n], dot);
    }
  }

  function CompareInts(a: int, b: int): int {
    if a < b then -1 else if b < a then 1 else 0
  }

  lemma Associate<T>(a: seq<T>, b: seq<T>, c: seq<T>)
    ensures a + (b + c) == (a + b) + c
  {
  }

  lemma Extended<T>(a: seq<T>, b: seq<T>, c: seq<T>, more: seq<T>)
    requires c == b + more
    ensures a + c == (a + b) + more
  {
  }

  lemma Cut<T>(a: seq<T>, b: seq<T>)
    ensures (a + b)[..|a|] == a && (a + b)[|a|..] == b
  {
  }

  lemma CutFirst<T>(a: seq<T>, b: seq<T>)
    requires a != []
    ensures (a + b)[0] == a[0] && (a + b)[1..] == a[1..] + b
  {
  }

  lemma UpTo<T>(s: seq<T>, k: nat)
    requires k < |s|
    ensures s[..k] + [s[k]] == s[..k + 1]
  {
  }
}
