/**
 Planning a batch rename: new names from a template, and the collisions that forbid a plan.
 Time zones and the rules for valid and reserved file names are parameters.
 */
module BatchPlan {
  import opened Bytes
  import opened Decimals
  import opened NameTemplate
  import opened BatchTransaction
  import opened BatchDisk

  /** A path: the normalised directory it is in, and its last component. */
  datatype Path = Path(absolute: bool, parent: Bytes, name: Name)

  datatype Source = Source(path: Path, snapshot: Snapshot, kind: ObjectKind)

  datatype CalendarTime = CalendarTime(year: nat, month: nat, day: nat, hour: nat, minute: nat, second: nat)

  datatype DateFormat = YearMonthDayDashed | YearMonthDay | DayMonthYear
  datatype TimeFormat = HourMinuteDashed | HourMinute | HourMinuteSecond

  datatype Options = Options(
    template: Bytes, counterStart: u64, counterStep: u64, padding: byte,
    useModified: bool, now: i64, dateFormat: DateFormat, timeFormat: TimeFormat,
    replaceExtension: bool, extension: Bytes)

  /** What the platform decides. */
  datatype Rules = Rules(
    localTime: i64 -> Option<CalendarTime>, validName: Name -> bool, reserved: Name -> bool)

  // ---------------------------------------------------------------- one new name

  const DASH: byte := 45

  /** Where the extension starts; |name| when there is none. */
  function ExtensionStart(name: Name): (k: nat)
    ensures k <= |name|
  {
    var k := LastDot(name);
    if k <= 0 || name == [DOT, DOT] then |name| else k
  }

  function FormatDate(t: CalendarTime, f: DateFormat): Bytes {
    match f
    case YearMonthDayDashed => Padded(t.year, 4) + [DASH] + Padded(t.month, 2) + [DASH] + Padded(t.day, 2)
    case YearMonthDay => Padded(t.year, 4) + Padded(t.month, 2) + Padded(t.day, 2)
    case DayMonthYear => Padded(t.day, 2) + [DASH] + Padded(t.month, 2) + [DASH] + Padded(t.year, 4)
  }

  function FormatTime(t: CalendarTime, f: TimeFormat): Bytes {
    match f
    case HourMinuteDashed => Padded(t.hour, 2) + [DASH] + Padded(t.minute, 2)
    case HourMinute => Padded(t.hour, 2) + Padded(t.minute, 2)
    case HourMinuteSecond => Padded(t.hour, 2) + [DASH] + Padded(t.minute, 2) + [DASH] + Padded(t.second, 2)
  }

  function ExpandName(source: Source, o: Options, rules: Rules, index: nat): Expansion {
    if o.template == [] || o.padding == 0 || o.padding > 20 || o.counterStep == 0 then Failed(InvalidTemplate)
    else
      var counter := CounterAt(o.counterStart, o.counterStep, index);
      if counter.None? then Failed(CounterOverflow) else
      var time := rules.localTime(if o.useModified then source.snapshot.modified else o.now);
      if time.None? then Failed(InvalidSource) else
      var name := source.path.name;
      var stem := if source.kind == Directory then name else name[..ExtensionStart(name)];
      Expand(o.template, Values(stem, Padded(counter.value, o.padding),
                                FormatDate(time.value, o.dateFormat), FormatTime(time.value, o.timeFormat)))
  }

  function NewExtension(source: Source, o: Options): Bytes {
    if source.kind == Directory then []
    else if !o.replaceExtension then source.path.name[ExtensionStart(source.path.name)..]
    else if o.extension == [] then []
    else [DOT] + o.extension
  }

  /** The new name of a source, or why it has none. */
  function Generate(source: Source, o: Options, rules: Rules, index: nat): Expansion {
    match ExpandName(source, o, rules, index)
    case Failed(issue) => Failed(issue)
    case Expanded(value) =>
      var name := value + NewExtension(source, o);
      if || (source.kind == RegularFile && o.replaceExtension && o.extension != [] && o.extension[0] == DOT)
         || !rules.validName(name) || rules.reserved(name)
      then Failed(InvalidName) else Expanded(name)
  }

  // ---------------------------------------------------------------- what a plan must say

  function Key(s: Source): Name {
    CollisionKey(s.path.name)
  }

  function Identity(s: Source): Bytes {
    StableIdentity(s.snapshot.revision)
  }

  predicate InvalidPath(s: Source, rules: Rules) {
    || !s.path.absolute || s.path.name == [] || rules.reserved(s.path.name)
    || (s.kind == Directory && s.snapshot.size != 0)
  }

  /** The first thing wrong with source i, on its own or with regard to earlier ones. */
  function SourceIssue(sources: seq<Source>, rules: Rules, i: nat): Issue
    requires i < |sources|
  {
    var s := sources[i];
    if InvalidPath(s, rules) then InvalidSource
    else if s.path.parent != sources[0].path.parent then MixedDirectories
    else if exists j | 0 <= j < i :: Key(sources[j]) == Key(s) then InvalidSource
    else if Identity(s) == [] || exists j | 0 <= j < i :: Identity(sources[j]) == Identity(s) then InvalidSource
    else NoIssue
  }

  /** The first thing wrong with row i before new names are compared. */
  function OwnIssue(sources: seq<Source>, o: Options, rules: Rules, i: nat): Issue
    requires i < |sources|
  {
    var generated := Generate(sources[i], o, rules, i);
    if SourceIssue(sources, rules, i) != NoIssue || generated.Expanded? then SourceIssue(sources, rules, i)
    else generated.issue
  }

  /** What the collision pass needs to know about a row. */
  datatype Naming = Naming(own: Issue, key: Option<Name>, taken: bool)

  /** `taken`: the new name collides with an entry that is not selected. */
  function NamingOf(sources: seq<Source>, listing: seq<Name>, o: Options, rules: Rules, i: nat): Naming
    requires i < |sources|
  {
    match Generate(sources[i], o, rules, i)
    case Failed(_) => Naming(OwnIssue(sources, o, rules, i), None, false)
    case Expanded(name) =>
      Naming(OwnIssue(sources, o, rules, i), Some(CollisionKey(name)),
             && (exists n | n in listing :: CollisionKey(n) == CollisionKey(name))
             && (forall s | s in sources :: Key(s) != CollisionKey(name)))
  }

  function Namings(sources: seq<Source>, listing: seq<Name>, o: Options, rules: Rules): (ns: seq<Naming>)
    ensures |ns| == |sources|
  {
    seq(|sources|, i requires 0 <= i < |sources| => NamingOf(sources, listing, o, rules, i))
  }

  predicate SameKey(ns: seq<Naming>, i: nat, j: nat)
    requires i < |ns| && j < |ns|
  {
    ns[i].key.Some? && ns[j].key == ns[i].key
  }

  /** What is wrong with row i when only the first n new names are compared. */
  function RowIssue(ns: seq<Naming>, i: nat, n: nat): Issue
    requires i < |ns| && n <= |ns|
  {
    if i >= n || ns[i].own != NoIssue then ns[i].own
    else if exists j | 0 <= j < i :: SameKey(ns, i, j) then DuplicateDestination
    else if ns[i].taken then OccupiedDestination
    else if exists j | i < j < n :: SameKey(ns, i, j) then DuplicateDestination
    else NoIssue
  }

  datatype Row = Row(source: Path, destination: Option<Path>, issue: Issue)

  datatype Plan = Plan(issue: Issue, rows: seq<Row>)

  function Destination(sources: seq<Source>, o: Options, rules: Rules, i: nat): Option<Path>
    requires i < |sources|
  {
    match Generate(sources[i], o, rules, i)
    case Failed(_) => None
    case Expanded(name) =>
      if name == sources[i].path.name then Some(sources[i].path)
      else Some(Path(sources[0].path.absolute, sources[0].path.parent, name))
  }

  /** Row i before new names are compared. */
  function FirstRow(sources: seq<Source>, o: Options, rules: Rules, i: nat): Row
    requires i < |sources|
  {
    Row(sources[i].path, Destination(sources, o, rules, i), OwnIssue(sources, o, rules, i))
  }

  predicate RowDone(sources: seq<Source>, listing: seq<Name>, o: Options, rules: Rules,
                    row: Row, i: nat, n: nat)
    requires i < |sources| && n <= |sources|
  {
    && row.source == sources[i].path
    && row.destination == Destination(sources, o, rules, i)
    && row.issue == RowIssue(Namings(sources, listing, o, rules), i, n)
  }

  predicate AllClear(rows: seq<Row>) {
    forall k | 0 <= k < |rows| :: rows[k].issue == NoIssue
  }

  /** Plans a batch: every row gets its new name, or the first thing that is wrong with it. */
  method PlanBatchRename(sources: seq<Source>, listing: seq<Name>, o: Options, rules: Rules)
    returns (plan: Plan)
    ensures sources == [] ==> plan == Plan(EmptySelection, [])
    ensures |plan.rows| == |sources|
    ensures forall i | 0 <= i < |sources| ::
              RowDone(sources, listing, o, rules, plan.rows[i], i, |sources|)
    ensures plan.issue == NoIssue <==> sources != [] && AllClear(plan.rows)
  {
    if sources == [] {
      return Plan(EmptySelection, []);
    }
    hide RowIssue, CollisionKey, RowKey, Namings, FirstRow, Key, Destination, OwnIssue;
    var rows, sourceKeys := NameRows(sources, o, rules);
    var occupied := set n | n in listing :: CollisionKey(n);
    ghost var first := rows;
    forall k | 0 <= k < |sources|
      ensures Namings(sources, listing, o, rules)[k].own == first[k].issue
      ensures Namings(sources, listing, o, rules)[k].key == RowKey(first[k])
      ensures var naming := Namings(sources, listing, o, rules)[k];
        naming.taken <==> naming.key.Some? && naming.key.value in occupied && naming.key.value !in sourceKeys
      ensures first[k].source == sources[k].path && first[k].destination == Destination(sources, o, rules, k)
    {
      FirstRowIsNamed(sources, listing, o, rules, k, occupied, sourceKeys);
    }
    rows := FindCollisions(rows, occupied, sourceKeys, Namings(sources, listing, o, rules));
    var issue := FirstIssue(rows);
    plan := Plan(issue, rows);
  }

  /** What the first pass says of a row is what the second pass needs to know. */
  lemma FirstRowIsNamed(sources: seq<Source>, listing: seq<Name>, o: Options, rules: Rules, k: nat,
                        occupied: set<Name>, sourceKeys: set<Name>)
    requires k < |sources| && occupied == set n | n in listing :: CollisionKey(n)
    requires forall key :: key in sourceKeys <==> exists s | s in sources :: Key(s) == key
    ensures var row, naming := FirstRow(sources, o, rules, k), Namings(sources, listing, o, rules)[k];
      && row.issue == naming.own && RowKey(row) == naming.key
      && row.source == sources[k].path && row.destination == Destination(sources, o, rules, k)
      && (naming.taken <==> naming.key.Some? && naming.key.value in occupied && naming.key.value !in sourceKeys)
  {
    hide CollisionKey, Generate, OwnIssue;
    assert Namings(sources, listing, o, rules)[k] == NamingOf(sources, listing, o, rules, k);
  }

  method FirstIssue(rows: seq<Row>) returns (issue: Issue)
    ensures issue == NoIssue <==> AllClear(rows)
  {
    issue := NoIssue;
    for i := 0 to |rows|
      invariant issue == NoIssue <==> forall k | 0 <= k < i :: rows[k].issue == NoIssue
    {
      if issue == NoIssue {
        issue := rows[i].issue;
      }
    }
  }

  /** First pass: each source on its own and against the earlier ones. */
  method NameRows(sources: seq<Source>, o: Options, rules: Rules)
    returns (rows: seq<Row>, sourceKeys: set<Name>)
    requires sources != []
    ensures |rows| == |sources|
    ensures forall k | 0 <= k < |rows| :: rows[k] == FirstRow(sources, o, rules, k)
    ensures forall key :: key in sourceKeys <==> exists s | s in sources :: Key(s) == key
  {
    hide Key, Identity;
    var identities: set<Bytes> := {};
    rows, sourceKeys := [], {};
    for i := 0 to |sources|
      invariant |rows| == i
      invariant forall k | 0 <= k < i :: rows[k] == FirstRow(sources, o, rules, k)
      invariant forall key :: key in sourceKeys <==> exists j | 0 <= j < i :: Key(sources[j]) == key
      invariant forall id :: id in identities <==> exists j | 0 <= j < i :: Identity(sources[j]) == id
    {
      var row := NameRow(sources, o, rules, i, sourceKeys, identities);
      rows := rows + [row];
      sourceKeys := sourceKeys + {Key(sources[i])};
      identities := identities + {Identity(sources[i])};
    }
  }

  method NameRow(sources: seq<Source>, o: Options, rules: Rules, i: nat,
                 sourceKeys: set<Name>, identities: set<Bytes>)
    returns (row: Row)
    requires i < |sources|
    requires forall key :: key in sourceKeys <==> exists j | 0 <= j < i :: Key(sources[j]) == key
    requires forall id :: id in identities <==> exists j | 0 <= j < i :: Identity(sources[j]) == id
    ensures row == FirstRow(sources, o, rules, i)
  {
    var issue := CheckSource(sources, rules, i, sourceKeys, identities);
    var generated := Generate(sources[i], o, rules, i);
    if generated.Failed? && issue == NoIssue {
      issue := generated.issue;
    }
    row := Row(sources[i].path, Destination(sources, o, rules, i), issue);
  }

  method CheckSource(sources: seq<Source>, rules: Rules, i: nat, sourceKeys: set<Name>, identities: set<Bytes>)
    returns (issue: Issue)
    requires i < |sources|
    requires forall key :: key in sourceKeys <==> exists j | 0 <= j < i :: Key(sources[j]) == key
    requires forall id :: id in identities <==> exists j | 0 <= j < i :: Identity(sources[j]) == id
    ensures issue == SourceIssue(sources, rules, i)
  {
    var s := sources[i];
    issue := NoIssue;
    if InvalidPath(s, rules) {
      issue := InvalidSource;
    } else if s.path.parent != sources[0].path.parent {
      issue := MixedDirectories;
    }
    if Key(s) in sourceKeys && issue == NoIssue {
      issue := InvalidSource;
    }
    if (Identity(s) == [] || Identity(s) in identities) && issue == NoIssue {
      issue := InvalidSource;
    }
  }

  /** The collision key of a row's new name. */
  function RowKey(row: Row): Option<Name> {
    if row.destination.None? then None else Some(CollisionKey(row.destination.value.name))
  }

  /** Second pass: new names against each other and against the rest of the directory. */
  method FindCollisions(named: seq<Row>, occupied: set<Name>, sourceKeys: set<Name>, ghost ns: seq<Naming>)
    returns (rows: seq<Row>)
    requires |named| == |ns|
    requires forall k | 0 <= k < |ns| :: named[k].issue == ns[k].own && RowKey(named[k]) == ns[k].key
    requires forall k | 0 <= k < |ns| ::
               ns[k].taken <==> ns[k].key.Some? && ns[k].key.value in occupied && ns[k].key.value !in sourceKeys
    ensures |rows| == |ns|
    ensures forall k | 0 <= k < |ns| :: rows[k] == named[k].(issue := RowIssue(ns, k, |ns|))
  {
    rows := named;
    var destinationKeys: map<Name, nat> := map[];
    for i := 0 to |named|
      invariant |rows| == |ns|
      invariant forall k | 0 <= k < |ns| :: rows[k] == named[k].(issue := RowIssue(ns, k, i))
      invariant forall key | key in destinationKeys ::
                  destinationKeys[key] < i && ns[destinationKeys[key]].key == Some(key)
      invariant forall k | 0 <= k < i && ns[k].key.Some? ::
                  ns[k].key.value in destinationKeys && destinationKeys[ns[k].key.value] <= k
    {
      ghost var before := rows;
      if rows[i].destination.Some? {
        var key := CollisionKey(rows[i].destination.value.name);
        if key in destinationKeys {
          var first := destinationKeys[key];
          rows := Mark(rows, i, DuplicateDestination);
          rows := Mark(rows, first, DuplicateDestination);
          RepeatedKey(ns, i, first);
        } else {
          destinationKeys := destinationKeys[key := i];
          if key in occupied && key !in sourceKeys {
            rows := Mark(rows, i, OccupiedDestination);
          }
          NewKey(ns, i);
        }
      } else {
        NewKey(ns, i);
      }
    }
  }

  lemma RepeatedKey(ns: seq<Naming>, i: nat, first: nat)
    requires first < i < |ns| && SameKey(ns, i, first)
    requires forall k | 0 <= k < i && SameKey(ns, i, k) :: first <= k
    ensures forall k | 0 <= k < |ns| && k != first && k != i :: RowIssue(ns, k, i + 1) == RowIssue(ns, k, i)
    ensures forall k | k in {first, i} ::
              RowIssue(ns, k, i + 1) == if RowIssue(ns, k, i) == NoIssue then DuplicateDestination else RowIssue(ns, k, i)
  {
    assert SameKey(ns, first, i);
    assert forall k | 0 <= k < first :: SameKey(ns, first, k) ==> SameKey(ns, i, k);
    forall k | 0 <= k < i && k != first
      ensures RowIssue(ns, k, i + 1) == RowIssue(ns, k, i)
    {
      if SameKey(ns, k, i) {
        assert SameKey(ns, k, first) && SameKey(ns, i, k);
      }
    }
  }

  lemma NewKey(ns: seq<Naming>, i: nat)
    requires i < |ns| && forall k | 0 <= k < i :: !SameKey(ns, i, k)
    ensures forall k | 0 <= k < |ns| && k != i :: RowIssue(ns, k, i + 1) == RowIssue(ns, k, i)
    ensures RowIssue(ns, i, i + 1)
            == if ns[i].own == NoIssue && ns[i].taken then OccupiedDestination else ns[i].own
  {
    forall k | 0 <= k < i
      ensures RowIssue(ns, k, i + 1) == RowIssue(ns, k, i)
    {
      assert !SameKey(ns, i, k);
      assert !SameKey(ns, k, i);
    }
  }

  /** The first issue of a row stays. */
  function Mark(rows: seq<Row>, i: nat, issue: Issue): (r: seq<Row>)
    requires i < |rows|
    ensures |r| == |rows|
  {
    if rows[i].issue == NoIssue then rows[i := rows[i].(issue := issue)] else rows
  }

  // ---------------------------------------------------------------- what a new name is

  /** The extension begins with the last dot, unless that is the first byte; the parent directory has none. */
  predicate Splits(name: Name, stem: Name, extension: Bytes) {
    && name == stem + extension
    && (extension == [] ==> name == [DOT, DOT] || name == [] || DOT !in name[1..])
    && (extension != [] ==> name != [DOT, DOT] && stem != [] && extension[0] == DOT && DOT !in extension[1..])
  }

  lemma NameSplits(name: Name)
    ensures Splits(name, name[..ExtensionStart(name)], name[ExtensionStart(name)..])
  {
    var k := LastDot(name);
    if k <= 0 || name == [DOT, DOT] {
      Unsplit(name, k);
      assert ExtensionStart(name) == |name|;
    } else {
      SplitAt(name, k);
    }
  }

  lemma SplitAt(name: Name, k: nat)
    requires 0 < k < |name| && name[k] == DOT && DOT !in name[k + 1..] && name != [DOT, DOT]
    ensures Splits(name, name[..k], name[k..])
  {
    assert name[k..][1..] == name[k + 1..];
  }

  lemma Unsplit(name: Name, k: int)
    requires (-1 <= k <= 0 && k < |name| && DOT !in name[k + 1..]) || name == [DOT, DOT]
    ensures Splits(name, name[..|name|], name[|name|..])
  {
    assert name != [] && k == -1 ==> forall j | 0 <= j < |name[1..]| :: name[1..][j] == name[k + 1..][j + 1];
  }

  lemma SplitsOneWay(name: Name, stem: Name, extension: Bytes)
    requires Splits(name, stem, extension)
    ensures stem == name[..ExtensionStart(name)] && extension == name[ExtensionStart(name)..]
  {
    if extension != [] {
      assert name[|stem|] == DOT && name[|stem| + 1..] == extension[1..];
      OneLastDot(name, |stem|);
    }
  }

  /** What the tokens stand for when row i of a plan is named. */
  predicate AreValues(v: Values, stem: Name, time: CalendarTime, o: Options, i: nat) {
    && v.stem == stem
    && |v.counter| >= o.padding && NumberOf(v.counter) == o.counterStart + i * o.counterStep <= MAXIMUM_U64
    && v.date == FormatDate(time, o.dateFormat) && v.clock == FormatTime(time, o.timeFormat)
  }

  /** What follows the expanded template. */
  function Tail(source: Source, extension: Bytes, o: Options): Bytes {
    if source.kind == Directory then []
    else if o.replaceExtension then ReplacedExtension(o)
    else extension
  }

  /**
   A generated name is what the pieces of the template mean, where {name} is the name of a directory
   or the stem of a file, followed by the old extension of a file or the one that replaces it.
   */
  lemma GeneratedName(s: Source, o: Options, rules: Rules, i: nat)
    returns (ps: seq<Piece>, v: Values, stem: Name, extension: Bytes, time: CalendarTime)
    requires Generate(s, o, rules, i).Expanded?
    ensures o.template == Print(ps) && Generate(s, o, rules, i).value == Meaning(ps, v) + Tail(s, extension, o)
    ensures if s.kind == Directory then stem == s.path.name else Splits(s.path.name, stem, extension)
    ensures rules.localTime(if o.useModified then s.snapshot.modified else o.now) == Some(time)
    ensures AreValues(v, stem, time, o, i)
  {
    hide Print, Meaning, Expand, ExtensionStart, Splits, FormatDate, FormatTime;
    CounterIsExact(o.counterStart, o.counterStep, i);
    var counter := CounterAt(o.counterStart, o.counterStep, i).value;
    time := rules.localTime(if o.useModified then s.snapshot.modified else o.now).value;
    var name := s.path.name;
    NameSplits(name);
    extension := name[ExtensionStart(name)..];
    stem := if s.kind == Directory then name else name[..ExtensionStart(name)];
    v := Values(stem, Padded(counter, o.padding), FormatDate(time, o.dateFormat), FormatTime(time, o.timeFormat));
    PaddedDenotes(counter, o.padding);
    PaddedIsWide(counter, o.padding);
    ps := ExpandedIsPrinted(o.template, v);
  }

  /** What the options and the source must be like for a name to be generated at all. */
  predicate CanGenerate(s: Source, o: Options, rules: Rules, i: nat) {
    && o.template != [] && 1 <= o.padding <= 20
    && o.counterStep >= 1 && o.counterStart + i * o.counterStep <= MAXIMUM_U64
    && rules.localTime(if o.useModified then s.snapshot.modified else o.now).Some?
    && (s.kind == RegularFile && o.replaceExtension ==> !([DOT] <= o.extension))
  }

  /** The values of the tokens, when there are any. */
  function TokenValues(s: Source, o: Options, rules: Rules, i: nat): Values
    requires CanGenerate(s, o, rules, i)
  {
    var time := rules.localTime(if o.useModified then s.snapshot.modified else o.now).value;
    Values(if s.kind == Directory then s.path.name else s.path.name[..ExtensionStart(s.path.name)],
           Padded(o.counterStart + i * o.counterStep, o.padding),
           FormatDate(time, o.dateFormat), FormatTime(time, o.timeFormat))
  }

  /** A name is generated only from a printed template and only if it is valid and not reserved. */
  lemma GeneratedOnlyIf(s: Source, o: Options, rules: Rules, i: nat) returns (ps: seq<Piece>)
    requires Generate(s, o, rules, i).Expanded?
    ensures CanGenerate(s, o, rules, i) && o.template == Print(ps)
    ensures rules.validName(Generate(s, o, rules, i).value) && !rules.reserved(Generate(s, o, rules, i).value)
  {
    hide Print, Meaning, Expand, ExtensionStart, FormatDate, FormatTime, Padded;
    CounterIsExact(o.counterStart, o.counterStep, i);
    ps := ExpandedIsPrinted(o.template, TokenValues(s, o, rules, i));
  }

  /** And it is generated whenever that is so. */
  lemma GeneratedIf(s: Source, o: Options, rules: Rules, i: nat, ps: seq<Piece>)
    requires CanGenerate(s, o, rules, i) && o.template == Print(ps)
    requires var name := Meaning(ps, TokenValues(s, o, rules, i)) + NewExtension(s, o);
      rules.validName(name) && !rules.reserved(name)
    ensures Generate(s, o, rules, i) == Expanded(Meaning(ps, TokenValues(s, o, rules, i)) + NewExtension(s, o))
  {
    hide Print, Meaning, Expand, ExtensionStart, FormatDate, FormatTime, Padded, NewExtension;
    CounterIsExact(o.counterStart, o.counterStep, i);
    PrintThenExpand(ps, TokenValues(s, o, rules, i));
  }

  /** The template that is just the old name, with the old extension kept, changes no name. */
  lemma NameStays(s: Source, o: Options, rules: Rules, i: nat)
    requires o.template == Print([Insert(NameToken)]) && (s.kind == Directory || !o.replaceExtension)
    requires Generate(s, o, rules, i).Expanded?
    ensures Generate(s, o, rules, i).value == s.path.name
  {
    var ps, v, stem, extension, time := GeneratedName(s, o, rules, i);
    var ps' := [Insert(NameToken)];
    PrintThenExpand(ps', v);
    PrintThenExpand(ps, v);
    hide Print, Expand, Generate, Splits;
    assert Meaning(ps, v) == Meaning(ps', v);
    Prepended(Insert(NameToken), [], v);
    assert [Insert(NameToken)] + [] == ps' && stem + [] == stem;
    hide Meaning;
    if s.kind == RegularFile {
      NameIsJoined(s.path.name, stem, extension);
    }
    assert s.path.name + [] == s.path.name;
  }

  lemma NameIsJoined(name: Name, stem: Name, extension: Bytes)
    requires Splits(name, stem, extension)
    ensures name == stem + extension
  {
  }

  /** In a plan: the new path is the generated name in the directory of the batch. */
  lemma PlannedPath(sources: seq<Source>, listing: seq<Name>, o: Options, rules: Rules, row: Row, i: nat)
    requires i < |sources| && RowDone(sources, listing, o, rules, row, i, |sources|)
    ensures row.destination.Some? <==> Generate(sources[i], o, rules, i).Expanded?
    ensures row.destination.Some? ==>
      && row.destination.value.name == Generate(sources[i], o, rules, i).value
      && (row.issue == NoIssue ==> row.destination.value.parent == sources[i].path.parent)
      && (row.destination.value.name == sources[i].path.name ==> row.destination.value == sources[i].path)
      && rules.validName(row.destination.value.name) && !rules.reserved(row.destination.value.name)
  {
    hide ExpandName, NewExtension, CollisionKey, StableIdentity;
    assert Namings(sources, listing, o, rules)[i] == NamingOf(sources, listing, o, rules, i);
  }

  /** A source that can be renamed: a named object in the directory of the others, and none of the earlier ones. */
  ghost predicate SourceIsFit(sources: seq<Source>, rules: Rules, i: nat)
    requires i < |sources|
  {
    var s := sources[i];
    && s.path.absolute && s.path.name != [] && !rules.reserved(s.path.name)
    && (s.kind == Directory ==> s.snapshot.size == 0) && s.path.parent == sources[0].path.parent
    && StableIdentity(s.snapshot.revision) != []
    && forall j | 0 <= j < i ::
         && CollisionKey(sources[j].path.name) != CollisionKey(s.path.name)
         && StableIdentity(sources[j].snapshot.revision) != StableIdentity(s.snapshot.revision)
  }

  /** A new name that is free: no other row and no entry outside the selection has it, in any case. */
  ghost predicate NameIsFree(sources: seq<Source>, listing: seq<Name>, o: Options, rules: Rules, i: nat, name: Name)
    requires i < |sources|
  {
    && (forall j | 0 <= j < |sources| && j != i && Generate(sources[j], o, rules, j).Expanded? ::
          CollisionKey(Generate(sources[j], o, rules, j).value) != CollisionKey(name))
    && forall n | n in listing && CollisionKey(n) == CollisionKey(name) ::
         exists s | s in sources :: CollisionKey(s.path.name) == CollisionKey(name)
  }

  /** A row of a plan is clear if and only if its source is fit and its new name exists and is free. */
  lemma ClearMeans(sources: seq<Source>, listing: seq<Name>, o: Options, rules: Rules, row: Row, i: nat)
    requires i < |sources| && RowDone(sources, listing, o, rules, row, i, |sources|)
    ensures row.issue == NoIssue <==>
      && SourceIsFit(sources, rules, i) && Generate(sources[i], o, rules, i).Expanded?
      && NameIsFree(sources, listing, o, rules, i, Generate(sources[i], o, rules, i).value)
  {
    var ns := Namings(sources, listing, o, rules);
    FitMeans(sources, rules, i);
    OwnIssueIsIssue(sources, o, rules, i);
    assert ns[i] == NamingOf(sources, listing, o, rules, i);
    hide SourceIssue, SourceIsFit, Generate, CollisionKey, NamingOf, NameIsFree, OwnIssue, Namings;
    if Generate(sources[i], o, rules, i).Expanded? {
      FreeMeans(sources, listing, o, rules, i);
    }
    IssueMeans(ns, i);
  }

  lemma IssueMeans(ns: seq<Naming>, i: nat)
    requires i < |ns|
    ensures RowIssue(ns, i, |ns|) == NoIssue <==>
      ns[i].own == NoIssue && !ns[i].taken && forall j | 0 <= j < |ns| && j != i :: !SameKey(ns, i, j)
  {
    hide SameKey;
  }

  lemma FreeMeans(sources: seq<Source>, listing: seq<Name>, o: Options, rules: Rules, i: nat)
    requires i < |sources| && Generate(sources[i], o, rules, i).Expanded?
    ensures var ns := Namings(sources, listing, o, rules);
      NameIsFree(sources, listing, o, rules, i, Generate(sources[i], o, rules, i).value)
      <==> !ns[i].taken && forall j | 0 <= j < |ns| && j != i :: !SameKey(ns, i, j)
  {
    hide Generate, CollisionKey, OwnIssue;
    var ns := Namings(sources, listing, o, rules);
    forall j | 0 <= j < |sources|
      ensures ns[j] == NamingOf(sources, listing, o, rules, j)
      ensures SameKey(ns, i, j) <==>
        && Generate(sources[j], o, rules, j).Expanded?
        && CollisionKey(Generate(sources[j], o, rules, j).value) == CollisionKey(Generate(sources[i], o, rules, i).value)
    {
      assert ns[j] == NamingOf(sources, listing, o, rules, j) && ns[i] == NamingOf(sources, listing, o, rules, i);
    }
    forall s
      ensures Key(s) == CollisionKey(s.path.name)
    {
    }
  }

  lemma FitMeans(sources: seq<Source>, rules: Rules, i: nat)
    requires i < |sources|
    ensures SourceIssue(sources, rules, i) == NoIssue <==> SourceIsFit(sources, rules, i)
  {
    hide CollisionKey, StableIdentity;
    forall j | 0 <= j < i
      ensures Key(sources[j]) == CollisionKey(sources[j].path.name)
      ensures Identity(sources[j]) == StableIdentity(sources[j].snapshot.revision)
    {
    }
  }

  /** What cannot be generated is an issue of its own. */
  lemma OwnIssueIsIssue(sources: seq<Source>, o: Options, rules: Rules, i: nat)
    requires i < |sources|
    ensures OwnIssue(sources, o, rules, i) == NoIssue <==>
      SourceIssue(sources, rules, i) == NoIssue && Generate(sources[i], o, rules, i).Expanded?
  {
    hide SourceIssue;
    FailureHasIssue(sources[i], o, rules, i);
  }

  lemma FailureHasIssue(s: Source, o: Options, rules: Rules, i: nat)
    ensures Generate(s, o, rules, i) != Failed(NoIssue)
  {
    hide Expand;
    forall v: Values
      ensures Expand(o.template, v) != Failed(NoIssue)
    {
      ExpandHasIssue(o.template, v);
    }
  }

  lemma {:induction false} ExpandHasIssue(t: Bytes, v: Values)
    ensures Expand(t, v) != Failed(NoIssue)
    decreases |t|
  {
    if t != [] {
      if Doubled(t, OPEN) || Doubled(t, CLOSE) {
        ExpandHasIssue(t[2..], v);
      } else if t[0] != CLOSE && t[0] != OPEN {
        ExpandHasIssue(t[1..], v);
      } else if t[0] == OPEN {
        var close := Find(t, CLOSE, 1);
        if close < |t| {
          ExpandHasIssue(t[close + 1..], v);
        }
      }
    }
  }

  /** The fields of a date in the order of its format, each a decimal number. */
  lemma DateFields(t: CalendarTime, f: DateFormat) returns (a: Bytes, b: Bytes, c: Bytes)
    ensures FormatDate(t, f) == if f == YearMonthDay then a + b + c else a + [DASH] + b + [DASH] + c
    ensures NumberOf(b) == t.month && |b| >= 2
    ensures f == DayMonthYear ==> NumberOf(a) == t.day && |a| >= 2 && NumberOf(c) == t.year && |c| >= 4
    ensures f != DayMonthYear ==> NumberOf(a) == t.year && |a| >= 4 && NumberOf(c) == t.day && |c| >= 2
  {
    hide Padded, NumberOf;
    var year, month, day := Padded(t.year, 4), Padded(t.month, 2), Padded(t.day, 2);
    PaddedDenotes(t.year, 4);
    PaddedDenotes(t.month, 2);
    PaddedDenotes(t.day, 2);
    PaddedIsWide(t.year, 4);
    PaddedIsWide(t.month, 2);
    PaddedIsWide(t.day, 2);
    a, b, c := if f == DayMonthYear then day else year, month, if f == DayMonthYear then year else day;
  }

  /** The same for a time of day. */
  lemma TimeFields(t: CalendarTime, f: TimeFormat) returns (a: Bytes, b: Bytes, c: Bytes)
    ensures FormatTime(t, f) == if f == HourMinute then a + b else if f == HourMinuteDashed then a + [DASH] + b
                                else a + [DASH] + b + [DASH] + c
    ensures NumberOf(a) == t.hour && NumberOf(b) == t.minute && NumberOf(c) == t.second
    ensures |a| >= 2 && |b| >= 2 && |c| >= 2
  {
    hide Padded, NumberOf;
    a, b, c := Padded(t.hour, 2), Padded(t.minute, 2), Padded(t.second, 2);
    PaddedDenotes(t.hour, 2);
    PaddedDenotes(t.minute, 2);
    PaddedDenotes(t.second, 2);
    PaddedIsWide(t.hour, 2);
    PaddedIsWide(t.minute, 2);
    PaddedIsWide(t.second, 2);
  }

  lemma PaddedIsWide(n: nat, width: nat)
    ensures |Padded(n, width)| >= width
  {
  }

  // ---------------------------------------------------------------- numbered names

  function Numbered(before: Bytes, after: Bytes): seq<Piece> {
    [Literal(before), Insert(CounterToken), Literal(after)]
  }

  /** The name that such a template gives to a regular file. */
  lemma NumberedName(s: Source, o: Options, rules: Rules, i: nat, before: Bytes, after: Bytes) returns (n: nat)
    requires o.template == Print(Numbered(before, after))
    requires s.kind == RegularFile && o.replaceExtension
    requires Generate(s, o, rules, i).Expanded?
    ensures o.counterStep != 0 && n == o.counterStart + i * o.counterStep <= MAXIMUM_U64
    ensures Generate(s, o, rules, i).value == before + Padded(n, o.padding) + (after + ReplacedExtension(o))
  {
    hide Print, Expand, Padded, Numbered;
    n := o.counterStart + i * o.counterStep;
    CounterIsExact(o.counterStart, o.counterStep, i);
    forall v: Values
      ensures Expand(o.template, v) == Expanded(before + v.counter + after)
    {
      NumberedMeaning(before, after, v);
      PrintThenExpand(Numbered(before, after), v);
    }
    var p := Padded(n, o.padding);
    assert before + p + after + NewExtension(s, o) == before + p + (after + ReplacedExtension(o));
  }

  lemma NumberedMeaning(before: Bytes, after: Bytes, v: Values)
    ensures Meaning(Numbered(before, after), v) == before + v.counter + after
  {
    Prepended(Literal(after), [], v);
    Prepended(Insert(CounterToken), [Literal(after)], v);
    Prepended(Literal(before), [Insert(CounterToken), Literal(after)], v);
    assert [Literal(after)] + [] == [Literal(after)];
    assert [Insert(CounterToken)] + [Literal(after)] == [Insert(CounterToken), Literal(after)];
    assert [Literal(before)] + [Insert(CounterToken), Literal(after)] == Numbered(before, after);
    assert before + (v.counter + (after + [])) == before + v.counter + after;
  }

  lemma KeyOfConcatenation(a: Name, b: Name)
    ensures CollisionKey(a + b) == CollisionKey(a) + CollisionKey(b)
  {
  }

  lemma DigitsHaveNoCase(digits: Bytes)
    requires forall k | 0 <= k < |digits| :: 48 <= digits[k] <= 57
    ensures CollisionKey(digits) == digits
  {
  }

  /** Numbering regular files never produces a duplicate destination. */
  lemma NumberedNamesDistinct(s: Source, t: Source, o: Options, rules: Rules, i: nat, j: nat, before: Bytes, after: Bytes)
    requires o.template == Print(Numbered(before, after))
    requires s.kind == RegularFile && t.kind == RegularFile && o.replaceExtension && i < j
    requires Generate(s, o, rules, i).Expanded? && Generate(t, o, rules, j).Expanded?
    ensures CollisionKey(Generate(s, o, rules, i).value) != CollisionKey(Generate(t, o, rules, j).value)
  {
    var m := NumberedName(s, o, rules, i, before, after);
    var n := NumberedName(t, o, rules, j, before, after);
    CountersDistinct(o.counterStart, o.counterStep, i, j);
    NumberedKeysDistinct(before, m, n, o.padding, after + ReplacedExtension(o));
  }

  function ReplacedExtension(o: Options): Bytes {
    if o.extension == [] then [] else [DOT] + o.extension
  }

  lemma CountersDistinct(start: nat, step: nat, i: nat, j: nat)
    requires i < j && step > 0
    ensures start + i * step != start + j * step
  {
    ScaleUp(i + 1, j, step);
  }

  lemma NumberedKeysDistinct(before: Bytes, m: nat, n: nat, width: nat, tail: Bytes)
    requires m != n
    ensures CollisionKey(before + Padded(m, width) + tail) != CollisionKey(before + Padded(n, width) + tail)
  {
    NumberedKey(before, m, width, tail);
    NumberedKey(before, n, width, tail);
    PaddedDenotes(m, width);
    PaddedDenotes(n, width);
    if CollisionKey(before + Padded(m, width) + tail) == CollisionKey(before + Padded(n, width) + tail) {
      MiddleDecides(CollisionKey(before), Padded(m, width), Padded(n, width), CollisionKey(tail));
    }
  }

  lemma MiddleDecides(a: Bytes, p: Bytes, q: Bytes, b: Bytes)
    requires a + p + b == a + q + b
    ensures p == q
  {
    assert (a + p + b)[|a|..|a| + |p|] == p;
    assert (a + q + b)[|a|..|a| + |q|] == q;
    assert |a + p + b| == |a + q + b|;
  }

  lemma NumberedKey(before: Bytes, n: nat, width: nat, tail: Bytes)
    ensures CollisionKey(before + Padded(n, width) + tail)
            == CollisionKey(before) + Padded(n, width) + CollisionKey(tail)
  {
    KeyOfConcatenation(before + Padded(n, width), tail);
    KeyOfConcatenation(before, Padded(n, width));
    DigitsHaveNoCase(Padded(n, width));
  }
}
