/** The natural order of file names: digit runs compare as numbers, padding only breaks ties. */
module NaturalOrder {
  import opened Bytes
  import opened Decimals

  predicate IsDigit(b: byte) {
    48 <= b <= 57
  }

  /** How many digits the text starts with. */
  function Run(s: Bytes): (n: nat)
    ensures n <= |s| && (forall i | 0 <= i < n :: IsDigit(s[i])) && (n < |s| ==> !IsDigit(s[n]))
  {
    if s == [] || !IsDigit(s[0]) then 0 else 1 + Run(s[1..])
  }

  /** What decides first: each byte alone, each run of digits as the number it denotes. */
  function Keys(s: Bytes): seq<int> {
    if s == [] then []
    else if !IsDigit(s[0]) then [s[0] as int, 0] + Keys(s[1..])
    else [48, NumberOf(s[..Run(s)])] + Keys(s[Run(s)..])
  }

  /** What decides between equal keys: the widths of the runs. */
  function Widths(s: Bytes): seq<int> {
    if s == [] then []
    else if !IsDigit(s[0]) then Widths(s[1..])
    else [Run(s)] + Widths(s[Run(s)..])
  }

  function Lexicographic(a: seq<int>, b: seq<int>): (r: int)
    ensures -1 <= r <= 1
  {
    if a == [] then (if b == [] then 0 else -1)
    else if b == [] then 1
    else if a[0] != b[0] then CompareInts(a[0], b[0])
    else Lexicographic(a[1..], b[1..])
  }

  function Order(a: Bytes, b: Bytes): int {
    Continued(0, a, b)
  }

  /** The order of two names whose beginnings were equal up to a padding of this sign. */
  function Continued(padding: int, a: Bytes, b: Bytes): int {
    var natural := Lexicographic(Keys(a), Keys(b));
    if natural != 0 then natural else if padding != 0 then padding else Lexicographic(Widths(a), Widths(b))
  }

  // ---------------------------------------------------------------- the algorithm

  method SkipDigits(s: Bytes, start: nat) returns (end: nat)
    requires start < |s|
    ensures start <= end <= |s| && end == start + Run(s[start..])
    ensures (forall i | start <= i < end :: IsDigit(s[i])) && (IsDigit(s[start]) ==> start < end)
  {
    end := start;
    while end < |s| && IsDigit(s[end])
      invariant start <= end <= |s| && forall i | start <= i < end :: IsDigit(s[i])
      invariant Run(s[start..]) == end - start + Run(s[end..])
    {
      assert s[end..][1..] == s[end + 1..];
      end := end + 1;
    }
  }

  method SkipZeros(s: Bytes, start: nat, end: nat) returns (significant: nat)
    requires start <= end <= |s|
    ensures start <= significant <= end
    ensures NumberOf(s[start..end]) == NumberOf(s[significant..end])
    ensures significant < end ==> s[significant] != 48
  {
    significant := start;
    while significant < end && s[significant] == 48
      invariant start <= significant <= end
      invariant NumberOf(s[start..end]) == NumberOf(s[significant..end])
    {
      LeadingZero(s[significant + 1..end]);
      assert s[significant..end] == [48] + s[significant + 1..end];
      significant := significant + 1;
    }
  }

  method CompareNaturalNames(lhs: Bytes, rhs: Bytes) returns (order: int)
    ensures order == Order(lhs, rhs)
  {
    var left: nat, right: nat, padding: int := 0, 0, 0;
    FromTheStart(lhs, rhs);
    hide *;
    while left < |lhs| && right < |rhs|
      invariant left <= |lhs| && right <= |rhs| && -1 <= padding <= 1
      invariant Order(lhs, rhs) == OrderFrom(padding, lhs, left, rhs, right)
      decreases |lhs| - left
    {
      if IsDigit(lhs[left]) && IsDigit(rhs[right]) {
        var leftEnd := SkipDigits(lhs, left);
        var rightEnd := SkipDigits(rhs, right);
        RunsDecideAt(padding, lhs, left, leftEnd, rhs, right, rightEnd);
        var value := CompareRuns(lhs, left, leftEnd, rhs, right, rightEnd);
        if value != 0 {
          return value;
        }
        if padding == 0 {
          padding := CompareInts(leftEnd - left, rightEnd - right);
        }
        left, right := leftEnd, rightEnd;
      } else {
        BytesDecideAt(padding, lhs, left, rhs, right);
        if lhs[left] != rhs[right] {
          return if lhs[left] < rhs[right] then -1 else 1;
        }
        left, right := left + 1, right + 1;
      }
    }
    EndDecidesAt(padding, lhs, left, rhs, right);
    if left != |lhs| || right != |rhs| {
      return if left == |lhs| then -1 else 1;
    }
    order := padding;
  }

  /** The order of two names of which so much was equal up to a padding of this sign. */
  function OrderFrom(padding: int, lhs: Bytes, left: nat, rhs: Bytes, right: nat): int
    requires left <= |lhs| && right <= |rhs|
  {
    Continued(padding, lhs[left..], rhs[right..])
  }

  lemma FromTheStart(lhs: Bytes, rhs: Bytes)
    ensures Order(lhs, rhs) == OrderFrom(0, lhs, 0, rhs, 0)
  {
    assert lhs[0..] == lhs && rhs[0..] == rhs;
  }

  lemma OrderFromIs(padding: int, lhs: Bytes, left: nat, rhs: Bytes, right: nat)
    requires left <= |lhs| && right <= |rhs|
    ensures OrderFrom(padding, lhs, left, rhs, right) == Continued(padding, lhs[left..], rhs[right..])
  {
  }

  lemma RunsDecideAt(padding: int, lhs: Bytes, left: nat, leftEnd: nat, rhs: Bytes, right: nat, rightEnd: nat)
    requires left < |lhs| && right < |rhs| && IsDigit(lhs[left]) && IsDigit(rhs[right])
    requires leftEnd == left + Run(lhs[left..]) && rightEnd == right + Run(rhs[right..])
    ensures var m, n := NumberOf(lhs[left..leftEnd]), NumberOf(rhs[right..rightEnd]);
      OrderFrom(padding, lhs, left, rhs, right)
      == if m != n then CompareInts(m, n)
         else OrderFrom(if padding == 0 then CompareInts(leftEnd - left, rightEnd - right) else padding,
                        lhs, leftEnd, rhs, rightEnd)
  {
    hide *;
    var a, b := lhs[left..], rhs[right..];
    RestAt(lhs, left, Run(a));
    RestAt(rhs, right, Run(b));
    RunsDecide(padding, a, b);
    OrderFromIs(padding, lhs, left, rhs, right);
    OrderFromIs(if padding == 0 then CompareInts(leftEnd - left, rightEnd - right) else padding,
                lhs, leftEnd, rhs, rightEnd);
  }

  lemma RestAt(s: Bytes, k: nat, n: nat)
    requires k + n <= |s|
    ensures s[k..][..n] == s[k..k + n] && s[k..][n..] == s[k + n..]
  {
  }

  lemma BytesDecideAt(padding: int, lhs: Bytes, left: nat, rhs: Bytes, right: nat)
    requires left < |lhs| && right < |rhs| && !(IsDigit(lhs[left]) && IsDigit(rhs[right]))
    ensures OrderFrom(padding, lhs, left, rhs, right)
         == if lhs[left] < rhs[right] then -1 else if lhs[left] > rhs[right] then 1
            else OrderFrom(padding, lhs, left + 1, rhs, right + 1)
  {
    var a, b := lhs[left..], rhs[right..];
    hide Continued;
    BytesDecide(padding, a, b);
    assert a[1..] == lhs[left + 1..] && b[1..] == rhs[right + 1..];
  }

  lemma EndDecidesAt(padding: int, lhs: Bytes, left: nat, rhs: Bytes, right: nat)
    requires left <= |lhs| && right <= |rhs| && (left == |lhs| || right == |rhs|)
    ensures OrderFrom(padding, lhs, left, rhs, right)
         == if left < |lhs| then 1 else if right < |rhs| then -1 else padding
  {
    hide Continued;
    EndDecides(padding, lhs[left..], rhs[right..]);
  }

  /** Numbers of any length, compared without converting them. */
  method CompareRuns(lhs: Bytes, left: nat, leftEnd: nat, rhs: Bytes, right: nat, rightEnd: nat) returns (order: int)
    requires left <= leftEnd <= |lhs| && right <= rightEnd <= |rhs|
    requires forall i | left <= i < leftEnd :: IsDigit(lhs[i])
    requires forall i | right <= i < rightEnd :: IsDigit(rhs[i])
    ensures order == CompareInts(NumberOf(lhs[left..leftEnd]), NumberOf(rhs[right..rightEnd]))
  {
    var leftSignificant := SkipZeros(lhs, left, leftEnd);
    var rightSignificant := SkipZeros(rhs, right, rightEnd);
    var leftDigits, rightDigits := leftEnd - leftSignificant, rightEnd - rightSignificant;
    ghost var m, n := lhs[leftSignificant..leftEnd], rhs[rightSignificant..rightEnd];
    if leftDigits != rightDigits {
      if leftDigits < rightDigits {
        MoreDigits(m, n);
      } else {
        MoreDigits(n, m);
      }
      return if leftDigits < rightDigits then -1 else 1;
    }
    SameDigits(m, n);
    order := CompareBytes(lhs[leftSignificant..leftEnd], rhs[rightSignificant..rightEnd]);
  }

  predicate AllDigits(s: Bytes) {
    forall i | 0 <= i < |s| :: IsDigit(s[i])
  }

  lemma {:induction false} LeadingZero(s: Bytes)
    ensures NumberOf([48] + s) == NumberOf(s)
  {
    if s != [] {
      LeadingZero(s[..|s| - 1]);
      assert ([48] + s)[..|s|] == [48] + s[..|s| - 1];
    }
  }

  lemma {:induction false} NotNegative(s: Bytes)
    requires AllDigits(s)
    ensures NumberOf(s) >= 0
    ensures s != [] && s[0] != 48 ==> NumberOf(s) > 0
  {
    if s != [] {
      NotNegative(s[..|s| - 1]);
    }
  }

  lemma {:induction false} MoreDigits(m: Bytes, n: Bytes)
    requires AllDigits(m) && AllDigits(n) && |m| < |n| && n[0] != 48
    ensures NumberOf(m) < NumberOf(n)
    decreases |m|
  {
    if m == [] {
      NotNegative(n);
    } else {
      MoreDigits(m[..|m| - 1], n[..|n| - 1]);
    }
  }

  lemma {:induction false} SameDigits(m: Bytes, n: Bytes)
    requires AllDigits(m) && AllDigits(n) && |m| == |n|
    ensures CompareBytes(m, n) == CompareInts(NumberOf(m), NumberOf(n))
    decreases |m|
  {
    if m != [] {
      var k := |m| - 1;
      SameDigits(m[..k], n[..k]);
      LastByteDecides(m, n);
    }
  }

  lemma {:induction false} LastByteDecides(m: Bytes, n: Bytes)
    requires |m| == |n| > 0
    ensures var k := |m| - 1;
      CompareBytes(m, n)
      == if CompareBytes(m[..k], n[..k]) != 0 then CompareBytes(m[..k], n[..k])
         else CompareInts(m[k], n[k])
    decreases |m|
  {
    if |m| > 1 {
      LastByteDecides(m[1..], n[1..]);
      assert m[1..][..|m| - 2] == m[..|m| - 1][1..] && n[1..][..|m| - 2] == n[..|m| - 1][1..];
    }
  }

  lemma RunsDecide(padding: int, a: Bytes, b: Bytes)
    requires a != [] && b != [] && IsDigit(a[0]) && IsDigit(b[0])
    ensures var m, n := NumberOf(a[..Run(a)]), NumberOf(b[..Run(b)]);
      m != n ==> Continued(padding, a, b) == CompareInts(m, n)
    ensures var m, n := NumberOf(a[..Run(a)]), NumberOf(b[..Run(b)]);
      m == n ==>
        Continued(padding, a, b)
        == Continued(if padding == 0 then CompareInts(Run(a), Run(b)) else padding, a[Run(a)..], b[Run(b)..])
  {
    PairDecides(Keys(a), Keys(b));
    assert Keys(a)[2..] == Keys(a[Run(a)..]) && Keys(b)[2..] == Keys(b[Run(b)..]);
    assert Widths(a)[1..] == Widths(a[Run(a)..]) && Widths(b)[1..] == Widths(b[Run(b)..]);
  }

  lemma BytesDecide(padding: int, a: Bytes, b: Bytes)
    requires a != [] && b != [] && !(IsDigit(a[0]) && IsDigit(b[0]))
    ensures a[0] != b[0] ==> Continued(padding, a, b) == if a[0] < b[0] then -1 else 1
    ensures a[0] == b[0] ==> Continued(padding, a, b) == Continued(padding, a[1..], b[1..])
  {
    PairDecides(Keys(a), Keys(b));
    if a[0] == b[0] {
      assert Keys(a)[2..] == Keys(a[1..]) && Keys(b)[2..] == Keys(b[1..]);
    }
  }

  lemma EndDecides(padding: int, a: Bytes, b: Bytes)
    requires a == [] || b == []
    ensures Continued(padding, a, b) == if a != [] then 1 else if b != [] then -1 else padding
  {
    assert b != [] ==> Keys(b) != [];
  }

  lemma PairDecides(a: seq<int>, b: seq<int>)
    requires |a| >= 2 && |b| >= 2
    ensures Lexicographic(a, b)
         == if a[0] != b[0] then CompareInts(a[0], b[0])
            else if a[1] != b[1] then CompareInts(a[1], b[1])
            else Lexicographic(a[2..], b[2..])
  {
    assert a[1..][1..] == a[2..] && b[1..][1..] == b[2..];
  }

  // ---------------------------------------------------------------- a total order

  lemma {:induction false} LexicographicTotal(a: seq<int>, b: seq<int>)
    ensures Lexicographic(a, b) == -Lexicographic(b, a)
    ensures Lexicographic(a, b) == 0 <==> a == b
  {
    if a != [] && b != [] {
      LexicographicTotal(a[1..], b[1..]);
      assert a == [a[0]] + a[1..] && b == [b[0]] + b[1..];
    }
  }

  lemma {:induction false} LexicographicTransitive(a: seq<int>, b: seq<int>, c: seq<int>)
    requires Lexicographic(a, b) <= 0 && Lexicographic(b, c) <= 0
    ensures Lexicographic(a, c) <= 0
    ensures Lexicographic(a, b) < 0 || Lexicographic(b, c) < 0 ==> Lexicographic(a, c) < 0
  {
    if a != [] && b != [] && c != [] && a[0] == b[0] == c[0] {
      LexicographicTransitive(a[1..], b[1..], c[1..]);
    }
  }

  lemma OrderIsAntisymmetric(a: Bytes, b: Bytes)
    ensures Order(a, b) == -Order(b, a)
  {
    LexicographicTotal(Keys(a), Keys(b));
    LexicographicTotal(Widths(a), Widths(b));
  }

  lemma OrderIsTransitive(a: Bytes, b: Bytes, c: Bytes)
    requires Order(a, b) <= 0 && Order(b, c) <= 0
    ensures Order(a, c) <= 0
    ensures Order(a, b) < 0 || Order(b, c) < 0 ==> Order(a, c) < 0
  {
    LexicographicTransitive(Keys(a), Keys(b), Keys(c));
    LexicographicTotal(Keys(a), Keys(b));
    LexicographicTotal(Keys(b), Keys(c));
    if Keys(a) == Keys(b) == Keys(c) {
      LexicographicTransitive(Widths(a), Widths(b), Widths(c));
    }
  }

  /** Only the same bytes compare as equal. */
  lemma OrderIsStrict(a: Bytes, b: Bytes)
    ensures Order(a, b) == 0 <==> a == b
  {
    LexicographicTotal(Keys(a), Keys(b));
    LexicographicTotal(Widths(a), Widths(b));
    if Keys(a) == Keys(b) && Widths(a) == Widths(b) {
      KeysAndWidthsDetermine(a, b);
    }
  }

  lemma {:induction false} KeysAndWidthsDetermine(a: Bytes, b: Bytes)
    requires Keys(a) == Keys(b) && Widths(a) == Widths(b)
    ensures a == b
  {
    if a != [] && b != [] {
      assert Keys(a)[0] == Keys(b)[0] && Keys(a)[1] == Keys(b)[1];
      var n, m := if IsDigit(a[0]) then Run(a) else 1, if IsDigit(b[0]) then Run(b) else 1;
      if IsDigit(a[0]) {
        assert Widths(a)[0] == Widths(b)[0];
        assert Widths(a)[1..] == Widths(a[n..]) && Widths(b)[1..] == Widths(b[n..]);
        SameDigits(a[..n], b[..n]);
        CompareBytesTotal(a[..n], b[..n]);
      }
      assert Keys(a)[2..] == Keys(a[n..]) && Keys(b)[2..] == Keys(b[m..]);
      KeysAndWidthsDetermine(a[n..], b[m..]);
      assert a == a[..n] + a[n..] && b == b[..m] + b[m..];
    }
  }

  // ---------------------------------------------------------------- numbers inside names

  /** A beginning that does not cut a number in two contributes its own keys. */
  lemma {:induction false} KeysOfPrefix(p: Bytes, s: Bytes)
    requires p == [] || !IsDigit(p[|p| - 1])
    ensures Keys(p + s) == Keys(p) + Keys(s) && Widths(p + s) == Widths(p) + Widths(s)
    decreases |p|
  {
    if p == [] {
      assert p + s == s;
    } else if IsDigit(p[0]) {
      var n := Run(p);
      RunOfPrefix(p, s);
      var q := p[n..];
      assert 0 < n && (q == [] || q[|q| - 1] == p[|p| - 1]);
      hide *;
      CutAt(p, s, n);
      KeysOfPrefix(q, s);
      FirstRun(p, s);
    } else {
      hide *;
      CutFirst(p, s);
      KeysOfPrefix(p[1..], s);
      FirstByte(p, s);
    }
  }

  lemma CutAt(p: Bytes, s: Bytes, n: nat)
    requires n <= |p|
    ensures (p + s)[..n] == p[..n] && (p + s)[n..] == p[n..] + s
  {
  }

  lemma UnfoldRun(s: Bytes)
    requires s != [] && IsDigit(s[0])
    ensures Keys(s) == [48, NumberOf(s[..Run(s)])] + Keys(s[Run(s)..])
    ensures Widths(s) == [Run(s)] + Widths(s[Run(s)..])
  {
  }

  lemma FirstRun(p: Bytes, s: Bytes)
    requires p != [] && IsDigit(p[0]) && Run(p + s) == Run(p)
    requires (p + s)[..Run(p)] == p[..Run(p)] && (p + s)[Run(p)..] == p[Run(p)..] + s
    requires Keys(p[Run(p)..] + s) == Keys(p[Run(p)..]) + Keys(s)
    requires Widths(p[Run(p)..] + s) == Widths(p[Run(p)..]) + Widths(s)
    ensures Keys(p + s) == Keys(p) + Keys(s) && Widths(p + s) == Widths(p) + Widths(s)
  {
    UnfoldRun(p);
    UnfoldRun(p + s);
    hide *;
    Associate([48, NumberOf(p[..Run(p)])], Keys(p[Run(p)..]), Keys(s));
    Associate([Run(p)], Widths(p[Run(p)..]), Widths(s));
  }

  lemma UnfoldByte(s: Bytes)
    requires s != [] && !IsDigit(s[0])
    ensures Keys(s) == [s[0] as int, 0] + Keys(s[1..]) && Widths(s) == Widths(s[1..])
  {
  }

  lemma FirstByte(p: Bytes, s: Bytes)
    requires p != [] && !IsDigit(p[0]) && (p + s)[1..] == p[1..] + s
    requires Keys(p[1..] + s) == Keys(p[1..]) + Keys(s) && Widths(p[1..] + s) == Widths(p[1..]) + Widths(s)
    ensures Keys(p + s) == Keys(p) + Keys(s) && Widths(p + s) == Widths(p) + Widths(s)
  {
    UnfoldByte(p);
    UnfoldByte(p + s);
    hide *;
    Associate([p[0] as int, 0], Keys(p[1..]), Keys(s));
  }

  lemma {:induction false} RunOfPrefix(p: Bytes, s: Bytes)
    requires Run(p) < |p| || s == [] || !IsDigit(s[0])
    ensures Run(p + s) == Run(p)
    decreases |p|
  {
    if p == [] {
      assert p + s == s;
    } else if IsDigit(p[0]) {
      assert (p + s)[1..] == p[1..] + s;
      RunOfPrefix(p[1..], s);
    }
  }

  lemma {:induction false} RunOfDigits(d: Bytes)
    requires AllDigits(d)
    ensures Run(d) == |d|
  {
    if d != [] {
      RunOfDigits(d[1..]);
    }
  }

  /** A number in front of what is no digit contributes itself. */
  lemma KeysOfRun(d: Bytes, s: Bytes)
    requires d != [] && AllDigits(d) && (s == [] || !IsDigit(s[0]))
    ensures Keys(d + s) == [48, NumberOf(d)] + Keys(s) && Widths(d + s) == [|d|] + Widths(s)
  {
    RunOfDigits(d);
    RunOfPrefix(d, s);
    assert IsDigit((d + s)[0]);
    UnfoldRun(d + s);
    hide *;
    Cut(d, s);
  }

  lemma KeysAround(p: Bytes, d: Bytes, s: Bytes)
    requires p == [] || !IsDigit(p[|p| - 1])
    requires d != [] && AllDigits(d) && (s == [] || !IsDigit(s[0]))
    ensures Keys(p + d + s) == Keys(p) + ([48, NumberOf(d)] + Keys(s))
    ensures Widths(p + d + s) == Widths(p) + ([|d|] + Widths(s))
  {
    hide *;
    var x := d + s;
    KeysOfRun(d, s);
    KeysOfPrefix(p, x);
    Associate(p, d, s);
  }

  lemma {:induction false} CommonPrefix(p: seq<int>, a: seq<int>, b: seq<int>)
    ensures Lexicographic(p + a, p + b) == Lexicographic(a, b)
  {
    if p == [] {
      assert p + a == a && p + b == b;
    } else {
      assert (p + a)[1..] == p[1..] + a && (p + b)[1..] == p[1..] + b;
      CommonPrefix(p[1..], a, b);
    }
  }

  /** After a common beginning, different numbers decide by their value, whatever follows them. */
  lemma NumbersCompareByValue(p: Bytes, d: Bytes, e: Bytes, s: Bytes, t: Bytes)
    requires p == [] || !IsDigit(p[|p| - 1])
    requires d != [] && AllDigits(d) && (s == [] || !IsDigit(s[0]))
    requires e != [] && AllDigits(e) && (t == [] || !IsDigit(t[0]))
    requires NumberOf(d) != NumberOf(e)
    ensures Order(p + d + s, p + e + t) < 0 <==> NumberOf(d) < NumberOf(e)
  {
    hide Keys, Widths, NumberOf;
    KeysAround(p, d, s);
    KeysAround(p, e, t);
    var x, y := [48, NumberOf(d)] + Keys(s), [48, NumberOf(e)] + Keys(t);
    CommonPrefix(Keys(p), x, y);
    PairDecides(x, y);
  }

  lemma TailsDecide(p: Bytes, d: Bytes, e: Bytes, s: Bytes, t: Bytes)
    requires p == [] || !IsDigit(p[|p| - 1])
    requires d != [] && AllDigits(d) && (s == [] || !IsDigit(s[0]))
    requires e != [] && AllDigits(e) && (t == [] || !IsDigit(t[0]))
    requires NumberOf(d) == NumberOf(e)
    ensures Lexicographic(Keys(p + d + s), Keys(p + e + t)) == Lexicographic(Keys(s), Keys(t))
  {
    hide *;
    KeysAround(p, d, s);
    KeysAround(p, e, t);
    SamePair(Keys(p), NumberOf(d), Keys(s), Keys(t), Keys(p + d + s), Keys(p + e + t));
  }

  lemma WidthsDecide(p: Bytes, d: Bytes, e: Bytes, s: Bytes, t: Bytes)
    requires p == [] || !IsDigit(p[|p| - 1])
    requires d != [] && AllDigits(d) && (s == [] || !IsDigit(s[0]))
    requires e != [] && AllDigits(e) && (t == [] || !IsDigit(t[0]))
    requires |d| < |e|
    ensures Lexicographic(Widths(p + d + s), Widths(p + e + t)) == -1
  {
    hide *;
    KeysAround(p, d, s);
    KeysAround(p, e, t);
    FirstDecides(Widths(p), |d|, |e|, Widths(s), Widths(t), Widths(p + d + s), Widths(p + e + t));
  }

  /** The same number with different padding decides only if nothing after it does. */
  lemma PaddingDecidesLast(p: Bytes, d: Bytes, e: Bytes, s: Bytes, t: Bytes)
    requires p == [] || !IsDigit(p[|p| - 1])
    requires d != [] && AllDigits(d) && (s == [] || !IsDigit(s[0]))
    requires e != [] && AllDigits(e) && (t == [] || !IsDigit(t[0]))
    requires NumberOf(d) == NumberOf(e)
    ensures Keys(s) != Keys(t) ==> Order(p + d + s, p + e + t) == Order(s, t) && Order(s, t) != 0
    ensures Keys(s) == Keys(t) && |d| < |e| ==> Order(p + d + s, p + e + t) == -1
  {
    hide *;
    TailsDecide(p, d, e, s, t);
    if |d| < |e| {
      WidthsDecide(p, d, e, s, t);
    }
    LexicographicTotal(Keys(s), Keys(t));
    KeysFirst(p + d + s, p + e + t);
    KeysFirst(s, t);
  }

  lemma KeysFirst(a: Bytes, b: Bytes)
    ensures var natural := Lexicographic(Keys(a), Keys(b));
      Order(a, b) == if natural != 0 then natural else Lexicographic(Widths(a), Widths(b))
  {
  }

  lemma SamePair(p: seq<int>, n: int, x: seq<int>, y: seq<int>, a: seq<int>, b: seq<int>)
    requires a == p + ([48, n] + x) && b == p + ([48, n] + y)
    ensures Lexicographic(a, b) == Lexicographic(x, y)
  {
    CommonPrefix(p, [48, n] + x, [48, n] + y);
    CommonPrefix([48, n], x, y);
  }

  lemma FirstDecides(p: seq<int>, m: int, n: int, x: seq<int>, y: seq<int>, a: seq<int>, b: seq<int>)
    requires m < n && a == p + ([m] + x) && b == p + ([n] + y)
    ensures Lexicographic(a, b) == -1
  {
    CommonPrefix(p, [m] + x, [n] + y);
  }
}
