/**
 CRC-32 (section 8 of RFC 1952), computed bit by bit for the journal and with a table for cached
 artifacts. Both methods are proved against the same function. The 32-bit register is the
 sequence of its bits, the least significant first.
 */
module Crc32 {
  import opened Bytes

  function Zeros(n: nat): (z: seq<bool>)
    ensures |z| == n
    ensures forall i | 0 <= i < n :: !z[i]
  {
    seq(n, _ => false)
  }

  type Word = w: seq<bool> | |w| == 32 witness Zeros(32)

  /** The `width` lowest bits of n. */
  function Bits(n: nat, width: nat): (b: seq<bool>)
    ensures |b| == width
  {
    if width == 0 then [] else [n % 2 == 1] + Bits(n / 2, width - 1)
  }

  function Power2(n: nat): (p: nat)
    ensures p > 0
  {
    if n == 0 then 1 else 2 * Power2(n - 1)
  }

  function Number(b: seq<bool>): (n: nat)
    ensures n < Power2(|b|)
  {
    if b == [] then 0 else (if b[0] then 1 else 0) + 2 * Number(b[1..])
  }

  function Xor(a: Word, b: Word): (c: Word)
    ensures forall i | 0 <= i < 32 :: c[i] == (a[i] != b[i])
  {
    seq(32, i requires 0 <= i < 32 => a[i] != b[i])
  }

  function And(a: Word, b: Word): (c: Word)
    ensures forall i | 0 <= i < 32 :: c[i] == (a[i] && b[i])
  {
    seq(32, i requires 0 <= i < 32 => a[i] && b[i])
  }

  function Complement(a: Word): (c: Word)
    ensures forall i | 0 <= i < 32 :: c[i] == !a[i]
  {
    seq(32, i requires 0 <= i < 32 => !a[i])
  }

  function Ones(): Word {
    Complement(Zeros(32))
  }

  function Polynomial(): Word {
    Bits(0xedb8_8320, 32)
  }

  function ShiftRight(a: Word, n: nat): (c: Word)
    requires n <= 32
    ensures forall i | 0 <= i < 32 :: c[i] == (i + n < 32 && a[i + n])
  {
    a[n..] + Zeros(n)
  }

  /** One bit: shift right, and subtract the polynomial if a one fell out. */
  function Step(x: Word): Word {
    if x[0] then Xor(ShiftRight(x, 1), Polynomial()) else ShiftRight(x, 1)
  }

  function Steps(x: Word, n: nat): Word
    decreases n
  {
    if n == 0 then x else Steps(Step(x), n - 1)
  }

  function Register(x: Word, bytes: Bytes): Word
    decreases |bytes|
  {
    if bytes == [] then x else Register(Steps(Xor(x, Bits(bytes[0], 32)), 8), bytes[1..])
  }

  /** The checksum, one bit at a time. */
  function Checksum(bytes: Bytes): u32 {
    AsU32(Complement(Register(Ones(), bytes)))
  }

  function AsU32(w: Word): u32 {
    Power2Of32();
    Number(w)
  }

  lemma Power2Of32()
    ensures Power2(8) == 0x100 && Power2(32) == 0x1_0000_0000
  {
    assert Power2(4) == 16;
    assert Power2(8) == 16 * Power2(4);
    assert Power2(12) == 16 * Power2(8);
    assert Power2(16) == 16 * Power2(12);
    assert Power2(20) == 16 * Power2(16);
    assert Power2(24) == 16 * Power2(20);
    assert Power2(28) == 16 * Power2(24);
    assert Power2(32) == 16 * Power2(28);
  }

  // ---------------------------------------------------------------- one bit at a time

  method BitwiseChecksum(bytes: Bytes) returns (crc32: u32)
    ensures crc32 == Checksum(bytes)
  {
    var crc := Ones();
    assert bytes[0..] == bytes;
    for i := 0 to |bytes|
      invariant Register(Ones(), bytes) == Register(crc, bytes[i..])
    {
      RegisterStep(crc, bytes, i);
      crc := EightBits(Xor(crc, Bits(bytes[i], 32)));
    }
    crc32 := AsU32(Complement(crc));
  }

  lemma RegisterStep(x: Word, bytes: Bytes, i: nat)
    requires i < |bytes|
    ensures Register(x, bytes[i..]) == Register(Steps(Xor(x, Bits(bytes[i], 32)), 8), bytes[i + 1..])
  {
    assert bytes[i..][1..] == bytes[i + 1..];
  }

  /** One bit as the journal writes it: the polynomial is masked with the bit that falls out. */
  function MaskedStep(x: Word): Word {
    var mask := if x[0] then Ones() else Zeros(32);
    Xor(ShiftRight(x, 1), And(Polynomial(), mask))
  }

  lemma MaskedStepIsStep(x: Word)
    ensures MaskedStep(x) == Step(x)
  {
    var shifted := ShiftRight(x, 1);
    if x[0] {
      assert And(Polynomial(), Ones()) == Polynomial();
    } else {
      assert Xor(shifted, And(Polynomial(), Zeros(32))) == shifted;
    }
  }

  method EightBits(start: Word) returns (crc: Word)
    ensures crc == Steps(start, 8)
  {
    hide MaskedStep, Step;
    crc := start;
    for bit := 0 to 8
      invariant Steps(start, 8) == Steps(crc, 8 - bit)
    {
      MaskedStepIsStep(crc);
      crc := MaskedStep(crc);
    }
  }

  // ---------------------------------------------------------------- one byte at a time

  /** What the table holds for a byte: the register after its eight bits. */
  function Entry(i: nat): Word {
    Steps(Bits(i, 32), 8)
  }

  ghost predicate IsTable(table: seq<Word>) {
    |table| == 256 && forall i | 0 <= i < 256 :: table[i] == Entry(i)
  }

  method MakeTable() returns (table: array<Word>)
    ensures fresh(table) && IsTable(table[..])
  {
    hide Steps, Bits, Zeros;
    table := new Word[256](_ => Zeros(32));
    for index := 0 to 256
      invariant forall i | 0 <= i < index :: table[i] == Entry(i)
    {
      table[index] := EightBits(Bits(index, 32));
    }
  }

  /** The low eight bits of the register combined with a byte. */
  function TableIndex(value: Word, b: byte): (i: nat)
    ensures i < 256
  {
    Number(Xor(value, Bits(b, 32))[..8])
  }

  method TableChecksum(table: array<Word>, bytes: Bytes) returns (crc32: u32)
    requires IsTable(table[..])
    ensures crc32 == Checksum(bytes)
  {
    var value := Ones();
    assert bytes[0..] == bytes;
    for i := 0 to |bytes|
      invariant Register(Ones(), bytes) == Register(value, bytes[i..])
    {
      RegisterStep(value, bytes, i);
      LookupIsEightSteps(table[..], value, bytes[i]);
      value := Xor(ShiftRight(value, 8), table[TableIndex(value, bytes[i])]);
    }
    crc32 := AsU32(Complement(value));
  }

  /** With the table built at the call; the program builds the same table when it is compiled. */
  method ArtifactChecksum(bytes: Bytes) returns (crc32: u32)
    ensures crc32 == Checksum(bytes)
  {
    var table := MakeTable();
    crc32 := TableChecksum(table, bytes);
  }

  lemma StepIsLinear(a: Word, b: Word)
    ensures Step(Xor(a, b)) == Xor(Step(a), Step(b))
  {
    forall i | 0 <= i < 32
      ensures Step(Xor(a, b))[i] == Xor(Step(a), Step(b))[i]
    {
      assert ShiftRight(Xor(a, b), 1)[i] == (ShiftRight(a, 1)[i] != ShiftRight(b, 1)[i]);
    }
  }

  lemma {:induction false} StepsAreLinear(a: Word, b: Word, n: nat)
    ensures Steps(Xor(a, b), n) == Xor(Steps(a, n), Steps(b, n))
    decreases n
  {
    hide Step, Xor;
    if n > 0 {
      StepIsLinear(a, b);
      StepsAreLinear(Step(a), Step(b), n - 1);
    }
  }

  /** With n zeros at the end, n steps only shift. */
  lemma {:induction false} ZeroSteps(a: Word, n: nat)
    requires n <= 32 && a[..n] == Zeros(n)
    ensures Steps(a, n) == ShiftRight(a, n)
    decreases n
  {
    if n == 0 {
      assert ShiftRight(a, 0) == a;
    } else {
      assert !a[..n][0];
      var b := ShiftRight(a, 1);
      forall i | 0 <= i < n - 1
        ensures !b[i]
      {
        assert b[i] == a[..n][i + 1];
      }
      assert b[..n - 1] == Zeros(n - 1);
      ZeroSteps(b, n - 1);
      assert ShiftRight(b, n - 1) == ShiftRight(a, n);
    }
  }

  lemma {:induction false} NumberOfBits(b: seq<bool>, width: nat)
    requires |b| <= width
    ensures Bits(Number(b), width) == b + Zeros(width - |b|)
    decreases width
  {
    if b == [] {
      if width > 0 {
        NumberOfBits([], width - 1);
        assert Zeros(width) == [false] + Zeros(width - 1);
      }
    } else {
      NumberOfBits(b[1..], width - 1);
      assert b == [b[0]] + b[1..];
    }
  }

  lemma {:induction false} HighBitsOfSmall(n: nat, small: nat, width: nat)
    requires small <= width && n < Power2(small)
    ensures forall i | small <= i < width :: !Bits(n, width)[i]
    decreases width
  {
    if width > 0 {
      if small == 0 {
        HighBitsOfSmall(0, 0, width - 1);
      } else {
        HighBitsOfSmall(n / 2, small - 1, width - 1);
      }
      forall i | small <= i < width && i > 0
        ensures !Bits(n, width)[i]
      {
        assert Bits(n, width)[i] == Bits(n / 2, width - 1)[i - 1];
      }
    }
  }

  function LowByte(x: Word): (c: Word)
    ensures forall i | 0 <= i < 32 :: c[i] == (i < 8 && x[i])
  {
    x[..8] + Zeros(24)
  }

  function HighBytes(x: Word): (c: Word)
    ensures forall i | 0 <= i < 32 :: c[i] == (i >= 8 && x[i])
  {
    Zeros(8) + x[8..]
  }

  /** Eight steps of the register are one look at the table. */
  lemma LookupIsEightSteps(table: seq<Word>, x: Word, b: byte)
    requires IsTable(table)
    ensures Steps(Xor(x, Bits(b, 32)), 8) == Xor(ShiftRight(x, 8), table[TableIndex(x, b)])
  {
    var y := Xor(x, Bits(b, 32));
    assert y == Xor(HighBytes(y), LowByte(y));
    StepsAreLinear(HighBytes(y), LowByte(y), 8);
    ZeroSteps(HighBytes(y), 8);
    HighBytesShifted(x, b);
    NumberOfBits(y[..8], 32);
  }

  lemma HighBytesShifted(x: Word, b: byte)
    ensures ShiftRight(HighBytes(Xor(x, Bits(b, 32))), 8) == ShiftRight(x, 8)
  {
    Power2Of32();
    HighBitsOfSmall(b, 8, 32);
  }

  // ---------------------------------------------------------------- damage is noticed

  lemma {:induction false} HighestBit(n: nat, width: nat)
    requires 0 < width && Power2(width - 1) <= n < Power2(width)
    ensures Bits(n, width)[width - 1]
    decreases width
  {
    if width > 1 {
      HighestBit(n / 2, width - 1);
    }
  }

  lemma HighestStepBit(x: Word)
    ensures Step(x)[31] == x[0]
  {
    hide Bits, Xor, ShiftRight;
    Power2Of32();
    HighestBit(0xedb8_8320, 32);
  }

  /** No two registers become equal in one bit: the highest bit tells which branch was taken. */
  lemma StepIsInjective(a: Word, b: Word)
    requires Step(a) == Step(b)
    ensures a == b
  {
    hide Polynomial, Xor, ShiftRight;
    HighestStepBit(a);
    HighestStepBit(b);
    forall i | 0 < i < 32
      ensures a[i] == b[i]
    {
      assert Step(a)[i - 1] == Step(b)[i - 1];
    }
    assert a[0] == b[0];
  }

  lemma {:induction false} StepsAreInjective(a: Word, b: Word, n: nat)
    requires Steps(a, n) == Steps(b, n)
    ensures a == b
    decreases n
  {
    hide Step;
    if n > 0 {
      StepsAreInjective(Step(a), Step(b), n - 1);
      StepIsInjective(a, b);
    }
  }

  lemma XorCommutes(a: Word, b: Word)
    ensures Xor(a, b) == Xor(b, a)
  {
  }

  lemma XorIsInjective(a: Word, b: Word, c: Word)
    requires Xor(a, c) == Xor(b, c)
    ensures a == b
  {
    forall i | 0 <= i < 32
      ensures a[i] == b[i]
    {
      assert Xor(a, c)[i] == Xor(b, c)[i];
    }
  }

  lemma {:induction false} RegisterIsInjective(a: Word, b: Word, bytes: Bytes)
    requires Register(a, bytes) == Register(b, bytes)
    ensures a == b
    decreases |bytes|
  {
    if bytes != [] {
      var c := Bits(bytes[0], 32);
      RegisterIsInjective(Steps(Xor(a, c), 8), Steps(Xor(b, c), 8), bytes[1..]);
      StepsAreInjective(Xor(a, c), Xor(b, c), 8);
      XorIsInjective(a, b, c);
    }
  }

  lemma {:induction false} RegisterOfTail(x: Word, a: Bytes, b: Bytes)
    ensures Register(x, a + b) == Register(Register(x, a), b)
    decreases |a|
  {
    if a == [] {
      assert a + b == b;
    } else {
      assert (a + b)[1..] == a[1..] + b;
      RegisterOfTail(Steps(Xor(x, Bits(a[0], 32)), 8), a[1..], b);
    }
  }

  lemma {:induction false} NumberBack(n: nat, width: nat)
    requires n < Power2(width)
    ensures Number(Bits(n, width)) == n
    decreases width
  {
    if width > 0 {
      NumberBack(n / 2, width - 1);
      assert Bits(n, width)[1..] == Bits(n / 2, width - 1);
    }
  }

  lemma {:induction false} NumberIsInjective(a: seq<bool>, b: seq<bool>)
    requires |a| == |b| && Number(a) == Number(b)
    ensures a == b
    decreases |a|
  {
    if a != [] {
      NumberIsInjective(a[1..], b[1..]);
      assert a == [a[0]] + a[1..] && b == [b[0]] + b[1..];
    }
  }

  /** Damage to a single byte always changes the checksum. */
  lemma OneDamagedByteIsNoticed(before: Bytes, good: byte, bad: byte, after: Bytes)
    requires good != bad
    ensures Checksum(before + [good] + after) != Checksum(before + [bad] + after)
  {
    if Checksum(before + [good] + after) == Checksum(before + [bad] + after) {
      var x := Register(Ones(), before);
      DamageReachesRegister(before, good, after);
      DamageReachesRegister(before, bad, after);
      var g, b := AfterByte(x, good), AfterByte(x, bad);
      SameChecksum(Register(g, after), Register(b, after));
      RegisterIsInjective(g, b, after);
      StepsAreInjective(Xor(Bits(good, 32), x), Xor(Bits(bad, 32), x), 8);
      XorIsInjective(Bits(good, 32), Bits(bad, 32), x);
      Power2Of32();
      NumberBack(good, 32);
      NumberBack(bad, 32);
    }
  }

  function AfterByte(x: Word, b: byte): Word {
    Steps(Xor(Bits(b, 32), x), 8)
  }

  lemma DamageReachesRegister(before: Bytes, b: byte, after: Bytes)
    ensures Checksum(before + [b] + after)
         == AsU32(Complement(Register(AfterByte(Register(Ones(), before), b), after)))
  {
    var x := Register(Ones(), before);
    assert before + [b] + after == before + ([b] + after);
    RegisterOfTail(Ones(), before, [b] + after);
    assert ([b] + after)[1..] == after;
    XorCommutes(Bits(b, 32), x);
  }

  lemma SameChecksum(a: Word, b: Word)
    requires AsU32(Complement(a)) == AsU32(Complement(b))
    ensures a == b
  {
    NumberIsInjective(Complement(a), Complement(b));
    forall i | 0 <= i < 32
      ensures a[i] == b[i]
    {
      assert Complement(a)[i] == Complement(b)[i];
    }
  }

  // ---------------------------------------------------------------- which checksum it is

  /** The powers of x in the polynomial of ISO 3309, below the thirty-second. */
  const POWERS: set<nat> := {0, 1, 2, 4, 5, 7, 8, 10, 11, 12, 16, 22, 23, 26}

  function FromPowers(powers: set<nat>): Word {
    seq(32, i requires 0 <= i < 32 => 31 - i in powers)
  }

  /** The constant is that polynomial, the highest power in the lowest bit. */
  lemma PolynomialIsStandard()
    ensures Polynomial() == FromPowers(POWERS)
  {
    var b := FromPowers(POWERS);
    LowestDigits();
    MiddleDigits();
    HighestDigits();
    hide FromPowers, Digit, Number, Bits;
    NumberOfDigits(b);
    NumberOfBits(b, 32);
    assert b + Zeros(0) == b;
  }

  lemma LowestDigits()
    ensures var b := FromPowers(POWERS);
      Digit(b, 0) == 0 && Digit(b, 4) == 2
  {
  }

  lemma MiddleDigits()
    ensures var b := FromPowers(POWERS);
      Digit(b, 8) == 3 && Digit(b, 12) == 8 && Digit(b, 16) == 8
  {
  }

  lemma HighestDigits()
    ensures var b := FromPowers(POWERS);
      Digit(b, 20) == 0xb && Digit(b, 24) == 0xd && Digit(b, 28) == 0xe
  {
  }

  lemma NumberOfDigits(b: Word)
    ensures Number(b) == Digit(b, 0) + 0x10 * Digit(b, 4) + 0x100 * Digit(b, 8) + 0x1000 * Digit(b, 12)
                         + 0x1_0000 * Digit(b, 16) + 0x10_0000 * Digit(b, 20)
                         + 0x100_0000 * Digit(b, 24) + 0x1000_0000 * Digit(b, 28)
  {
    hide Digit, Number;
    Digits(b, 24);
    Digits(b, 16);
    Digits(b, 8);
    Digits(b, 0);
    assert b[32..] == [] && b[0..] == b;
    NumberOfNothing();
  }

  lemma NumberOfNothing()
    ensures Number([]) == 0
  {
  }

  /** Eight bits of a number. */
  lemma Digits(b: seq<bool>, i: nat)
    requires i + 8 <= |b|
    ensures Number(b[i..]) == Digit(b, i) + 16 * Digit(b, i + 4) + 256 * Number(b[i + 8..])
  {
    FourBits(b, i);
    FourBits(b, i + 4);
  }

  lemma FourBits(b: seq<bool>, i: nat)
    requires i + 4 <= |b|
    ensures Number(b[i..]) == Digit(b, i) + 16 * Number(b[i + 4..])
  {
    assert b[i..][1..] == b[i + 1..] && b[i + 1..][1..] == b[i + 2..];
    assert b[i + 2..][1..] == b[i + 3..] && b[i + 3..][1..] == b[i + 4..];
    assert Number(b[i + 2..]) == (if b[i + 2] then 1 else 0) + 2 * Number(b[i + 3..]);
    assert Number(b[i + 1..]) == (if b[i + 1] then 1 else 0) + 2 * Number(b[i + 2..]);
  }

  /** Four bits as a number below sixteen. */
  function Digit(b: seq<bool>, i: nat): nat
    requires i + 4 <= |b|
  {
    (if b[i] then 1 else 0) + (if b[i + 1] then 2 else 0) + (if b[i + 2] then 4 else 0) + (if b[i + 3] then 8 else 0)
  }

  /** The first n bits. */
  function Head(n: nat): Word {
    seq(32, i requires 0 <= i < 32 => i < n)
  }

  lemma LowBits(b: seq<bool>)
    requires |b| == 8
    ensures Bits(Digit(b, 0) + 16 * Digit(b, 4), 32) == b + Zeros(24)
  {
    Digits(b, 0);
    assert b[0..] == b && b[8..] == [];
    NumberOfBits(b, 32);
  }

  lemma OnesOut(n: nat)
    requires 8 <= n <= 32
    ensures Steps(Xor(Head(n), Bits(0xff, 32)), 8) == Head(n - 8)
  {
    hide Bits, Steps;
    LowBits(Head(8)[..8]);
    var x := Xor(Head(n), Bits(0xff, 32));
    ZeroSteps(x, 8);
    assert ShiftRight(x, 8) == Head(n - 8);
  }

  lemma HighBitOut()
    ensures Steps(Xor(Head(0), Bits(0x80, 32)), 8) == Polynomial()
  {
    hide Bits, Steps, Polynomial, Step;
    LowBits(Zeros(7) + [true]);
    var x := Xor(Head(0), Bits(0x80, 32));
    StepsSplit(x, 7, 1);
    ZeroSteps(x, 7);
    OneStep(ShiftRight(x, 7));
  }

  lemma OneStep(x: Word)
    requires x[0] && forall i | 0 < i < 32 :: !x[i]
    ensures Steps(x, 1) == Polynomial()
  {
    hide Bits, Polynomial;
    assert Steps(Step(x), 0) == Step(x) && ShiftRight(x, 1) == Zeros(32);
    assert Xor(Zeros(32), Polynomial()) == Polynomial();
  }

  lemma {:induction false} StepsSplit(x: Word, m: nat, n: nat)
    ensures Steps(x, m + n) == Steps(Steps(x, m), n)
    decreases m
  {
    if m > 0 {
      StepsSplit(Step(x), m - 1, n);
    }
  }

  lemma {:induction false} NumberOfComplement(b: seq<bool>, c: seq<bool>)
    requires |b| == |c| && forall i | 0 <= i < |b| :: c[i] == !b[i]
    ensures Number(b) + Number(c) == Power2(|b|) - 1
  {
    if b != [] {
      NumberOfComplement(b[1..], c[1..]);
    }
  }

  lemma OneByte(x: Word, b: byte, rest: Bytes)
    ensures Register(x, [b] + rest) == Register(Steps(Xor(x, Bits(b, 32)), 8), rest)
  {
    hide Steps, Xor, Bits;
    assert ([b] + rest)[1..] == rest;
  }

  /** A check value: it depends on the polynomial, on both complements and on the order of bits and bytes. */
  lemma CheckValue()
    ensures Checksum([0xff, 0xff, 0xff, 0xff, 0x80]) == 0x1247_7cdf
  {
    hide Register, Polynomial, Complement, Power2, Number, Ones;
    CheckRegister();
    NumberOfPolynomial();
    assert [0xff] + ([0xff] + ([0xff] + ([0xff] + ([0x80] + [])))) == [0xff, 0xff, 0xff, 0xff, 0x80];
  }

  lemma CheckRegister()
    ensures Register(Ones(), [0xff] + ([0xff] + ([0xff] + ([0xff] + ([0x80] + []))))) == Polynomial()
  {
    hide *;
    var rest := [0x80] + [];
    HighBitOut();
    NothingLeft(Polynomial());
    OneByte(Head(0), 0x80, []);
    ByteOut(8, rest);
    ByteOut(16, [0xff] + rest);
    ByteOut(24, [0xff] + ([0xff] + rest));
    ByteOut(32, [0xff] + ([0xff] + ([0xff] + rest)));
    OnesAreHead();
  }

  lemma ByteOut(n: nat, rest: Bytes)
    requires 8 <= n <= 32
    ensures Register(Head(n), [0xff] + rest) == Register(Head(n - 8), rest)
  {
    hide *;
    OneByte(Head(n), 0xff, rest);
    OnesOut(n);
  }

  lemma OnesAreHead()
    ensures Ones() == Head(32)
  {
  }

  lemma NothingLeft(x: Word)
    ensures Register(x, []) == x
  {
  }

  lemma NumberOfPolynomial()
    ensures Number(Complement(Polynomial())) == 0x1247_7cdf
  {
    Power2Of32();
    NumberBack(0xedb8_8320, 32);
    NumberOfComplement(Polynomial(), Complement(Polynomial()));
    hide Number, Power2, Bits;
  }
}
