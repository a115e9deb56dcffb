/** Decimal numerals as bytes: what the rename counter prints and what natural sorting reads. */
module Decimals {
  import opened Bytes

  function Decimal(n: nat): (r: Bytes)
    ensures |r| > 0
    ensures forall i | 0 <= i < |r| :: 48 <= r[i] <= 57
  {
    if n < 10 then [48 + n] else Decimal(n / 10) + [48 + n % 10]
  }

  function Zeros(n: nat): (r: Bytes)
    ensures |r| == n && forall i | 0 <= i < n :: r[i] == 48
  {
    if n == 0 then [] else Zeros(n - 1) + [48]
  }

  function Padded(n: nat, width: nat): Bytes {
    Zeros(if |Decimal(n)| < width then width - |Decimal(n)| else 0) + Decimal(n)
  }

  /** The number a run of digits denotes. */
  function NumberOf(digits: Bytes): int {
    if digits == [] then 0 else NumberOf(digits[..|digits| - 1]) * 10 + digits[|digits| - 1] as int - 48
  }

  lemma {:induction false} DecimalDenotes(n: nat)
    ensures NumberOf(Decimal(n)) == n
  {
    if n >= 10 {
      DecimalDenotes(n / 10);
      assert Decimal(n)[..|Decimal(n)| - 1] == Decimal(n / 10);
    }
  }

  lemma {:induction false} ZerosDenoteNothing(n: nat, digits: Bytes)
    ensures NumberOf(Zeros(n) + digits) == NumberOf(digits)
  {
    var s := Zeros(n) + digits;
    if digits == [] {
      if n > 0 {
        ZerosDenoteNothing(n - 1, []);
        assert s[..|s| - 1] == Zeros(n - 1) + [];
      }
    } else {
      ZerosDenoteNothing(n, digits[..|digits| - 1]);
      assert s[..|s| - 1] == Zeros(n) + digits[..|digits| - 1];
    }
  }

  /** Padding never hides the number. */
  lemma PaddedDenotes(n: nat, width: nat)
    ensures NumberOf(Padded(n, width)) == n
  {
    DecimalDenotes(n);
    ZerosDenoteNothing(if |Decimal(n)| < width then width - |Decimal(n)| else 0, Decimal(n));
  }
}
