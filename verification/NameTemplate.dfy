/** Batch-rename name templates: braces, tokens and counters. */
module NameTemplate {
  import opened Bytes
  import opened Decimals

  datatype Issue =
    | NoIssue | EmptySelection | MixedDirectories | InvalidSource | InvalidTemplate | UnknownToken
    | CounterOverflow | InvalidName | DuplicateDestination | OccupiedDestination

  datatype Token = NameToken | CounterToken | DateToken | TimeToken

  /** What a template is made of. */
  datatype Piece = Literal(text: Bytes) | Insert(token: Token)

  /** The text each token stands for. */
  datatype Values = Values(stem: Bytes, counter: Bytes, date: Bytes, clock: Bytes)
  {
    function Of(token: Token): Bytes {
      match token
      case NameToken => stem
      case CounterToken => counter
      case DateToken => date
      case TimeToken => clock
    }
  }

  const OPEN: byte := 123
  const CLOSE: byte := 125

  function Spelling(token: Token): (s: Bytes)
    ensures OPEN !in s && CLOSE !in s && s != []
  {
    match token
    case NameToken => Ascii("name")
    case CounterToken => Ascii("counter")
    case DateToken => Ascii("date")
    case TimeToken => Ascii("time")
  }

  function Escape(text: Bytes): Bytes {
    if text == [] then []
    else (if text[0] in {OPEN, CLOSE} then [text[0], text[0]] else [text[0]]) + Escape(text[1..])
  }

  function PrintPiece(p: Piece): Bytes {
    match p
    case Literal(text) => Escape(text)
    case Insert(token) => [OPEN] + Spelling(token) + [CLOSE]
  }

  function Print(ps: seq<Piece>): Bytes {
    if ps == [] then [] else PrintPiece(ps[0]) + Print(ps[1..])
  }

  function TextOf(p: Piece, v: Values): Bytes {
    match p
    case Literal(text) => text
    case Insert(token) => v.Of(token)
  }

  function Meaning(ps: seq<Piece>, v: Values): Bytes {
    if ps == [] then [] else TextOf(ps[0], v) + Meaning(ps[1..], v)
  }

  // ---------------------------------------------------------------- expansion

  datatype Expansion = Expanded(value: Bytes) | Failed(issue: Issue)
  {
    function After(prefix: Bytes): Expansion {
      match this
      case Expanded(value) => Expanded(prefix + value)
      case Failed(issue) => Failed(issue)
    }
  }

  /** First index at or after `from` holding `b`, or |s|. */
  function Find(s: Bytes, b: byte, from: nat): (k: nat)
    requires from <= |s|
    ensures from <= k <= |s|
    ensures b !in s[from..k] && (k < |s| ==> s[k] == b)
    decreases |s| - from
  {
    if from == |s| || s[from] == b then from
    else
      assert s[from..] == [s[from]] + s[from + 1..];
      var k := Find(s, b, from + 1);
      assert s[from..k] == [s[from]] + s[from + 1..k];
      k
  }

  function TokenOf(s: Bytes): (t: Option<Token>)
    ensures t.Some? ==> Spelling(t.value) == s
  {
    if s == Spelling(NameToken) then Some(NameToken)
    else if s == Spelling(CounterToken) then Some(CounterToken)
    else if s == Spelling(DateToken) then Some(DateToken)
    else if s == Spelling(TimeToken) then Some(TimeToken)
    else None
  }

  predicate Doubled(t: Bytes, b: byte) {
    |t| >= 2 && t[0] == b && t[1] == b
  }

  function Expand(t: Bytes, v: Values): Expansion {
    if t == [] then Expanded([])
    else if Doubled(t, OPEN) || Doubled(t, CLOSE) then Expand(t[2..], v).After([t[0]])
    else if t[0] == CLOSE then Failed(InvalidTemplate)
    else if t[0] != OPEN then Expand(t[1..], v).After([t[0]])
    else
      var close := Find(t, CLOSE, 1);
      if close == |t| then Failed(InvalidTemplate)
      else match TokenOf(t[1..close])
        case None => Failed(UnknownToken)
        case Some(token) => Expand(t[close + 1..], v).After(v.Of(token))
  }

  /** The loop that expands a template. */
  method ExpandTemplate(template: Bytes, v: Values) returns (r: Expansion)
    ensures r == Expand(template, v)
  {
    hide *;
    var output: Bytes := [];
    var offset := 0;
    assert template[0..] == template;
    NothingBefore(Expand(template, v));
    while offset < |template|
      invariant offset <= |template|
      invariant Expand(template, v) == Expand(template[offset..], v).After(output)
      decreases |template| - offset
    {
      var value := template[offset];
      if value == OPEN && offset + 1 < |template| && template[offset + 1] == OPEN {
        AtPair(template, v, output, offset);
        output := output + [OPEN];
        offset := offset + 2;
      } else if value == CLOSE && offset + 1 < |template| && template[offset + 1] == CLOSE {
        AtPair(template, v, output, offset);
        output := output + [CLOSE];
        offset := offset + 2;
      } else if value != OPEN {
        AtSingle(template, v, output, offset);
        if value == CLOSE {
          return Failed(InvalidTemplate);
        }
        output := output + [value];
        offset := offset + 1;
      } else {
        var close := Find(template, CLOSE, offset + 1);
        AtToken(template, v, output, offset, close);
        if close == |template| {
          return Failed(InvalidTemplate);
        }
        var token := TokenOf(template[offset + 1..close]);
        if token.None? {
          return Failed(UnknownToken);
        }
        output := output + v.Of(token.value);
        offset := close + 1;
      }
    }
    AtEnd(template, v, output);
    r := Expanded(output);
  }

  lemma NothingBefore(e: Expansion)
    ensures e.After([]) == e
  {
    match e
    case Expanded(value) => assert [] + value == value;
    case Failed(issue) =>
  }

  lemma AtEnd(t: Bytes, v: Values, output: Bytes)
    ensures Expand(t[|t|..], v).After(output) == Expanded(output)
  {
    assert t[|t|..] == [] && output + [] == output;
  }

  lemma AtPair(t: Bytes, v: Values, output: Bytes, offset: nat)
    requires offset + 1 < |t| && t[offset + 1] == t[offset] && t[offset] in {OPEN, CLOSE}
    ensures Expand(t[offset..], v).After(output) == Expand(t[offset + 2..], v).After(output + [t[offset]])
  {
    assert t[offset..][1] == t[offset + 1];
    Advance(t, v, output, offset, 2, [t[offset]]);
  }

  lemma AtSingle(t: Bytes, v: Values, output: Bytes, offset: nat)
    requires offset < |t| && t[offset] != OPEN
    requires t[offset] == CLOSE ==> offset + 1 == |t| || t[offset + 1] != CLOSE
    ensures if t[offset] == CLOSE then Expand(t[offset..], v).After(output) == Failed(InvalidTemplate)
            else Expand(t[offset..], v).After(output) == Expand(t[offset + 1..], v).After(output + [t[offset]])
  {
    assert offset + 1 < |t| ==> t[offset..][1] == t[offset + 1];
    if t[offset] != CLOSE {
      Advance(t, v, output, offset, 1, [t[offset]]);
    }
  }

  lemma AtToken(t: Bytes, v: Values, output: Bytes, offset: nat, close: nat)
    requires offset < |t| && t[offset] == OPEN && (offset + 1 == |t| || t[offset + 1] != OPEN)
    requires close == Find(t, CLOSE, offset + 1)
    ensures close == |t| ==> Expand(t[offset..], v).After(output) == Failed(InvalidTemplate)
    ensures close < |t| && TokenOf(t[offset + 1..close]).None? ==>
              Expand(t[offset..], v).After(output) == Failed(UnknownToken)
    ensures close < |t| && TokenOf(t[offset + 1..close]).Some? ==>
              Expand(t[offset..], v).After(output)
              == Expand(t[close + 1..], v).After(output + v.Of(TokenOf(t[offset + 1..close]).value))
  {
    hide *;
    var rest, n := t[offset..], close - offset;
    assert offset + 1 < |t| ==> rest[1] == t[offset + 1];
    FindInSuffix(t, CLOSE, offset, offset + 1);
    FirstToken(rest, v, n);
    if close == |t| {
      FailedStays(InvalidTemplate, output);
    } else {
      SliceOf(t, offset, 1, n);
      if TokenOf(rest[1..n]).Some? {
        Advance(t, v, output, offset, n + 1, v.Of(TokenOf(rest[1..n]).value));
      } else {
        FailedStays(UnknownToken, output);
      }
    }
  }

  lemma FailedStays(issue: Issue, output: Bytes)
    ensures Failed(issue).After(output) == Failed(issue)
  {
  }

  lemma FirstToken(t: Bytes, v: Values, close: nat)
    requires t != [] && t[0] == OPEN && (|t| == 1 || t[1] != OPEN) && close == Find(t, CLOSE, 1)
    ensures Expand(t, v) == if close == |t| then Failed(InvalidTemplate)
                            else if TokenOf(t[1..close]).None? then Failed(UnknownToken)
                            else Expand(t[close + 1..], v).After(v.Of(TokenOf(t[1..close]).value))
  {
    hide TokenOf, Find;
  }

  lemma SliceOf(t: Bytes, offset: nat, i: nat, j: nat)
    requires i <= j && offset + j <= |t|
    ensures t[offset..][i..j] == t[offset + i..offset + j]
  {
  }

  lemma Advance(t: Bytes, v: Values, output: Bytes, offset: nat, n: nat, text: Bytes)
    requires offset + n <= |t|
    requires Expand(t[offset..], v) == Expand(t[offset..][n..], v).After(text)
    ensures Expand(t[offset..], v).After(output) == Expand(t[offset + n..], v).After(output + text)
  {
    assert t[offset..][n..] == t[offset + n..];
    var e := Expand(t[offset + n..], v);
    if e.Expanded? {
      assert output + (text + e.value) == output + text + e.value;
    }
  }

  lemma {:induction false} FindInSuffix(s: Bytes, b: byte, offset: nat, from: nat)
    requires offset <= from <= |s|
    ensures Find(s, b, from) == Find(s[offset..], b, from - offset) + offset
    decreases |s| - from
  {
    if from < |s| && s[from] != b {
      FindInSuffix(s, b, offset, from + 1);
    }
  }

  // ---------------------------------------------------------------- templates mean what they print

  lemma FindClose(s: Bytes, rest: Bytes)
    requires CLOSE !in s
    ensures Find([OPEN] + s + [CLOSE] + rest, CLOSE, 1) == |s| + 1
  {
    var t := [OPEN] + s + [CLOSE] + rest;
    var k := Find(t, CLOSE, 1);
    assert t[|s| + 1] == CLOSE;
    assert forall i | 1 <= i < |s| + 1 :: t[i] == s[i - 1];
  }

  lemma {:induction false} ExpandLiteral(text: Bytes, rest: Bytes, v: Values)
    ensures Expand(Escape(text) + rest, v) == Expand(rest, v).After(text)
  {
    var t := Escape(text) + rest;
    if text == [] {
      assert t == rest;
    } else {
      var n := if text[0] in {OPEN, CLOSE} then 2 else 1;
      assert t[n..] == Escape(text[1..]) + rest;
      assert Expand(t, v) == Expand(t[n..], v).After([text[0]]);
      ExpandLiteral(text[1..], rest, v);
      AfterAfter(Expand(rest, v), [text[0]], text[1..]);
      assert text == [text[0]] + text[1..];
    }
  }

  lemma AfterAfter(e: Expansion, first: Bytes, second: Bytes)
    ensures e.After(second).After(first) == e.After(first + second)
  {
    if e.Expanded? {
      assert first + (second + e.value) == first + second + e.value;
    }
  }

  lemma ExpandToken(token: Token, rest: Bytes, v: Values)
    ensures Expand([OPEN] + Spelling(token) + [CLOSE] + rest, v) == Expand(rest, v).After(v.Of(token))
  {
    var s := Spelling(token);
    SpellingIsPlain(token);
    hide *;
    var t := [OPEN] + s + [CLOSE] + rest;
    FindClose(s, rest);
    assert t[0] == OPEN && t[1] == s[0];
    assert t[1..|s| + 1] == s && t[|s| + 2..] == rest;
    FirstToken(t, v, |s| + 1);
  }

  lemma SpellingIsPlain(token: Token)
    ensures var s := Spelling(token);
      s != [] && s[0] != OPEN && CLOSE !in s && TokenOf(s) == Some(token)
  {
  }

  /** A printed template expands to what its pieces mean. */
  lemma {:induction false} PrintThenExpand(ps: seq<Piece>, v: Values)
    ensures Expand(Print(ps), v) == Expanded(Meaning(ps, v))
  {
    if ps != [] {
      PrintThenExpand(ps[1..], v);
      match ps[0]
      case Literal(text) => ExpandLiteral(text, Print(ps[1..]), v);
      case Insert(token) =>
        ExpandToken(token, Print(ps[1..]), v);
    }
  }

  lemma Prepended(p: Piece, rest: seq<Piece>, v: Values)
    ensures Print([p] + rest) == PrintPiece(p) + Print(rest)
    ensures Meaning([p] + rest, v) == TextOf(p, v) + Meaning(rest, v)
  {
    assert ([p] + rest)[1..] == rest;
  }

  /** Whatever expands is the print of some pieces, and expands to their meaning. */
  lemma {:induction false} ExpandedIsPrinted(t: Bytes, v: Values) returns (ps: seq<Piece>)
    requires Expand(t, v).Expanded?
    ensures Print(ps) == t && Expand(t, v).value == Meaning(ps, v)
  {
    if t == [] {
      return [];
    }
    hide Expand, Print, Meaning, PrintPiece, TextOf;
    var p, n := FirstPiece(t, v);
    var rest := ExpandedIsPrinted(t[n..], v);
    Prepended(p, rest, v);
    ps := [p] + rest;
    assert t == t[..n] + t[n..];
  }

  lemma FirstPiece(t: Bytes, v: Values) returns (p: Piece, n: nat)
    requires t != [] && Expand(t, v).Expanded?
    ensures 0 < n <= |t| && PrintPiece(p) == t[..n]
    ensures Expand(t, v) == Expand(t[n..], v).After(TextOf(p, v))
  {
    if t[0] != OPEN || Doubled(t, OPEN) {
      p, n := FirstLiteral(t, v);
    } else {
      var close := Find(t, CLOSE, 1);
      FirstToken(t, v, close);
      assert t[..close + 1] == [t[0]] + t[1..close] + [t[close]];
      hide Expand;
      p, n := Insert(TokenOf(t[1..close]).value), close + 1;
    }
  }

  lemma FirstLiteral(t: Bytes, v: Values) returns (p: Piece, n: nat)
    requires t != [] && Expand(t, v).Expanded? && (t[0] != OPEN || Doubled(t, OPEN))
    ensures 0 < n <= |t| && PrintPiece(p) == t[..n]
    ensures Expand(t, v) == Expand(t[n..], v).After(TextOf(p, v))
  {
    hide TokenOf, Find;
    assert Escape([]) == [] && Escape([t[0]]) == (if t[0] in {OPEN, CLOSE} then [t[0], t[0]] else [t[0]]) + Escape([]);
    hide Escape;
    p, n := Literal([t[0]]), if Doubled(t, OPEN) || Doubled(t, CLOSE) then 2 else 1;
    assert t[..n] == if n == 2 then [t[0], t[0]] else [t[0]];
  }

  // ---------------------------------------------------------------- counters

  const MAXIMUM_U64: u64 := 0xFFFF_FFFF_FFFF_FFFF

  function CounterAt(start: u64, step: u64, index: nat): Option<u64> {
    if step != 0 && index > (MAXIMUM_U64 - start) / step then None
    else Some((start + index * step) % 0x1_0000_0000_0000_0000)
  }

  /** The counter is returned exactly when it fits 64 bits, and then nothing wraps around. */
  lemma CounterIsExact(start: u64, step: u64, index: nat)
    ensures CounterAt(start, step, index)
            == if start + index * step <= MAXIMUM_U64 then Some(start + index * step) else None
  {
    if step != 0 {
      var room := MAXIMUM_U64 - start;
      var q := room / step;
      QuotientBounds(room, step);
      if index > q {
        ScaleUp(q + 1, index, step);
      } else {
        ScaleUp(index, q, step);
      }
    }
  }

  lemma QuotientBounds(room: nat, step: nat)
    requires step > 0
    ensures room / step * step <= room < (room / step + 1) * step
  {
  }

  lemma ScaleUp(a: nat, b: nat, c: nat)
    requires a <= b
    ensures a * c <= b * c
  {
  }
}
