/** What a catalogue shows: which entries, in which groups and in which order. */
module CatalogListing {
  import opened Bytes
  import opened StableGrouping
  import NaturalOrder

  datatype EntryKind = File | Directory

  datatype Entry = Entry(id: u64, kind: EntryKind, name: Bytes, searchKey: Bytes, size: u64, modified: i64)

  datatype SortField = ByName | ByExtension | ByModified | BySize

  datatype Settings = Settings(filterKey: Bytes, caseSensitive: bool, field: SortField, descending: bool)

  // ---------------------------------------------------------------- which entries

  /** Hidden names and temporary files are never catalogued. */
  predicate Catalogued(e: Entry) {
    var n := |e.name|;
    && n > 0 && e.name[0] != DOT
    && (e.kind != File || n < 4 || Lowered(e.name[n - 4..]) != Ascii(".tmp"))
  }

  predicate StandsAt(text: Bytes, part: Bytes, i: nat)
    requires i + |part| <= |text|
  {
    text[i..i + |part|] == part
  }

  predicate Contains(text: Bytes, part: Bytes) {
    exists i | 0 <= i <= |text| - |part| :: StandsAt(text, part, i)
  }

  predicate Matches(e: Entry, s: Settings) {
    s.filterKey == [] || Contains(if s.caseSensitive then e.name else e.searchKey, s.filterKey)
  }

  function OnlyCatalogued(batch: seq<Entry>): (es: seq<Entry>)
    ensures forall e | e in es :: e in batch && Catalogued(e)
  {
    if batch == [] then []
    else
      var n := |batch| - 1;
      OnlyCatalogued(batch[..n]) + if Catalogued(batch[n]) then [batch[n]] else []
  }

  /** The matching entries from `from` on, in arrival order. */
  function Matching(es: seq<Entry>, s: Settings, from: nat): (ix: seq<nat>)
    ensures forall k | 0 <= k < |ix| :: from <= ix[k] < |es| && Matches(es[ix[k]], s)
    ensures forall j, k | 0 <= j < k < |ix| :: ix[j] < ix[k]
    ensures forall i | from <= i < |es| && Matches(es[i], s) :: i in ix
    decreases |es|
  {
    if |es| <= from then []
    else
      var n := |es| - 1;
      Matching(es[..n], s, from) + if Matches(es[n], s) then [n] else []
  }

  // ---------------------------------------------------------------- groups

  const EXTENSIONS: set<string> := {
    "af", "afdesign", "afphoto", "afpub", "aftemplate", "ai", "arw", "avif", "bmp", "cdr",
    "cr2", "cr3", "dng", "dxf", "eps", "gif", "heic", "heif", "hpgl", "ico",
    "idml", "indd", "indt", "jfif", "jpe", "jpeg", "jpg", "jxl", "kra", "nef",
    "nrw", "ora", "orf", "pdf", "pef", "plt", "png", "ps", "psb", "psd",
    "raf", "rw2", "srw", "svg", "svgz", "tif", "tiff", "webp", "xcf"}

  function Text(s: Bytes): string {
    seq(|s|, i requires 0 <= i < |s| => s[i] as char)
  }

  predicate IsPreviewName(name: Bytes) {
    var dot := LastDot(name);
    dot > 0 && 1 <= |name| - (dot + 1) <= 10 && Text(Lowered(name[dot + 1..])) in EXTENSIONS
  }

  /** 0 for directories, 1 for files that a preview can be made of, 2 for the others. */
  function Group(e: Entry): (g: Level)
    ensures (g == 0 <==> e.kind == Directory)
  {
    if e.kind == Directory then 0 else if IsPreviewName(e.name) then 1 else 2
  }

  function Groups(es: seq<Entry>): (gs: seq<Level>)
    ensures |gs| == |es| && forall i | 0 <= i < |es| :: gs[i] == Group(es[i])
  {
    seq(|es|, i requires 0 <= i < |es| => Group(es[i]))
  }

  // ---------------------------------------------------------------- order

  function ExtensionOf(name: Bytes): Bytes {
    var dot := LastDot(name);
    if dot <= 0 || dot + 1 >= |name| then [] else name[dot + 1..]
  }

  function NameOrder(a: Entry, b: Entry): int {
    NaturalOrder.Order(a.searchKey, b.searchKey)
  }

  function KeyOrder(a: Entry, b: Entry, field: SortField): int {
    match field
    case ByName => NameOrder(a, b)
    case ByExtension => CompareBytes(ExtensionOf(a.searchKey), ExtensionOf(b.searchKey))
    case ByModified => CompareInts(a.modified, b.modified)
    case BySize => CompareInts(a.size, b.size)
  }

  /** The comparison that sorts the rows of one group. */
  predicate Less(a: Entry, b: Entry, s: Settings) {
    var keyOrder := KeyOrder(a, b, s.field);
    if keyOrder != 0 then (if s.descending then keyOrder > 0 else keyOrder < 0)
    else if s.field != ByName && NameOrder(a, b) != 0 then
      (if s.descending then NameOrder(a, b) > 0 else NameOrder(a, b) < 0)
    else if s.descending then a.id > b.id else a.id < b.id
  }

  function Then(x: int, y: int): int {
    if x != 0 then x else y
  }

  /** One order behind all settings: key, then name, then id. */
  function FullOrder(a: Entry, b: Entry, field: SortField): int {
    Then(KeyOrder(a, b, field), Then(NameOrder(a, b), CompareInts(a.id, b.id)))
  }

  lemma LessIsFullOrder(a: Entry, b: Entry, s: Settings)
    ensures Less(a, b, s) <==> if s.descending then FullOrder(a, b, s.field) > 0 else FullOrder(a, b, s.field) < 0
  {
  }

  lemma OrdersAreAntisymmetric(a: Entry, b: Entry, field: SortField)
    ensures NameOrder(a, b) == -NameOrder(b, a) && KeyOrder(a, b, field) == -KeyOrder(b, a, field)
    ensures FullOrder(a, b, field) == -FullOrder(b, a, field)
  {
    hide NaturalOrder.Order, ExtensionOf, CompareBytes;
    NaturalOrder.OrderIsAntisymmetric(a.searchKey, b.searchKey);
    CompareBytesTotal(ExtensionOf(a.searchKey), ExtensionOf(b.searchKey));
  }

  predicate Chained(ab: int, bc: int, ac: int) {
    ab <= 0 && bc <= 0 ==> ac <= 0 && (ab < 0 || bc < 0 ==> ac < 0)
  }

  lemma KeyOrderIsTransitive(a: Entry, b: Entry, c: Entry, field: SortField)
    ensures Chained(KeyOrder(a, b, field), KeyOrder(b, c, field), KeyOrder(a, c, field))
  {
    hide NaturalOrder.Order, ExtensionOf, CompareBytes;
    if KeyOrder(a, b, field) <= 0 && KeyOrder(b, c, field) <= 0 {
      if field == ByName {
        NaturalOrder.OrderIsTransitive(a.searchKey, b.searchKey, c.searchKey);
      } else if field == ByExtension {
        CompareBytesTransitive(ExtensionOf(a.searchKey), ExtensionOf(b.searchKey), ExtensionOf(c.searchKey));
      }
    }
  }

  lemma FullOrderIsTransitive(a: Entry, b: Entry, c: Entry, field: SortField)
    ensures Chained(FullOrder(a, b, field), FullOrder(b, c, field), FullOrder(a, c, field))
  {
    hide KeyOrder, NameOrder;
    forall f: SortField
      ensures Chained(KeyOrder(a, b, f), KeyOrder(b, c, f), KeyOrder(a, c, f))
      ensures Chained(KeyOrder(c, b, f), KeyOrder(b, a, f), KeyOrder(c, a, f))
    {
      KeyOrderIsTransitive(a, b, c, f);
      KeyOrderIsTransitive(c, b, a, f);
    }
    OrdersAreAntisymmetric(a, b, field);
    OrdersAreAntisymmetric(b, c, field);
    OrdersAreAntisymmetric(a, c, field);
    NameIsKey(a, b, c);
  }

  lemma NameIsKey(a: Entry, b: Entry, c: Entry)
    ensures KeyOrder(a, b, ByName) == NameOrder(a, b) && KeyOrder(b, c, ByName) == NameOrder(b, c)
    ensures KeyOrder(a, c, ByName) == NameOrder(a, c) && KeyOrder(c, b, ByName) == NameOrder(c, b)
    ensures KeyOrder(b, a, ByName) == NameOrder(b, a) && KeyOrder(c, a, ByName) == NameOrder(c, a)
  {
  }

  /** A strict order, total on entries with different ids. */
  lemma LessIsStrictOrder(a: Entry, b: Entry, c: Entry, s: Settings)
    ensures !(Less(a, b, s) && Less(b, a, s))
    ensures !Less(b, a, s) && !Less(c, b, s) ==> !Less(c, a, s)
    ensures a.id != b.id ==> Less(a, b, s) || Less(b, a, s)
  {
    hide KeyOrder, NameOrder;
    LessIsFullOrder(a, b, s);
    LessIsFullOrder(b, a, s);
    LessIsFullOrder(c, b, s);
    LessIsFullOrder(c, a, s);
    OrdersAreAntisymmetric(a, b, s.field);
    OrdersAreAntisymmetric(b, c, s.field);
    OrdersAreAntisymmetric(a, c, s.field);
    FullOrderIsTransitive(a, b, c, s.field);
    FullOrderIsTransitive(c, b, a, s.field);
  }

  // ---------------------------------------------------------------- sorting

  predicate Sorted(es: seq<Entry>, s: Settings, ix: seq<nat>)
    requires Within(Groups(es), ix)
  {
    forall j, k | 0 <= j < k < |ix| :: !Less(es[ix[k]], es[ix[j]], s)
  }

  /** In front of the first row that it may precede. */
  function Insert(es: seq<Entry>, s: Settings, i: nat, ix: seq<nat>): (r: seq<nat>)
    requires i < |es| && Within(Groups(es), ix)
    ensures |r| == |ix| + 1 && forall x :: x in r <==> x == i || x in ix
    ensures Within(Groups(es), r)
  {
    hide Less, Group;
    if ix == [] then [i]
    else if Less(es[ix[0]], es[i], s) then [ix[0]] + Insert(es, s, i, ix[1..]) else [i] + ix
  }

  /** A stable sort: rows that compare as equal keep their order. */
  function StableSort(es: seq<Entry>, s: Settings, ix: seq<nat>): (r: seq<nat>)
    requires Within(Groups(es), ix)
    ensures |r| == |ix| && Within(Groups(es), r) && forall x :: x in r <==> x in ix
  {
    if ix == [] then [] else Insert(es, s, ix[0], StableSort(es, s, ix[1..]))
  }

  lemma SortedInFront(es: seq<Entry>, s: Settings, x: nat, rest: seq<nat>)
    requires x < |es| && Within(Groups(es), rest) && Sorted(es, s, rest)
    requires forall y | y in rest :: y < |es| && !Less(es[y], es[x], s)
    ensures Within(Groups(es), [x] + rest) && Sorted(es, s, [x] + rest)
  {
    hide Less, Group;
    var r := [x] + rest;
    forall j, k | 0 <= j < k < |r|
      ensures !Less(es[r[k]], es[r[j]], s)
    {
      assert r[k] == rest[k - 1] && rest[k - 1] in rest;
      if j > 0 {
        assert r[j] == rest[j - 1];
      }
    }
  }

  lemma {:induction false} InsertSorts(es: seq<Entry>, s: Settings, i: nat, ix: seq<nat>)
    requires i < |es| && Within(Groups(es), ix) && Sorted(es, s, ix)
    ensures Sorted(es, s, Insert(es, s, i, ix))
  {
    hide Less;
    if ix != [] {
      var first, rest := ix[0], ix[1..];
      FirstIsLeast(es, s, ix);
      if Less(es[first], es[i], s) {
        InsertSorts(es, s, i, rest);
        LessIsStrictOrder(es[first], es[i], es[i], s);
        SortedInFront(es, s, first, Insert(es, s, i, rest));
      } else {
        forall y | y in ix
          ensures y < |es| && !Less(es[y], es[i], s)
        {
          LessIsStrictOrder(es[i], es[first], es[y], s);
        }
        SortedInFront(es, s, i, ix);
      }
    }
  }

  lemma FirstIsLeast(es: seq<Entry>, s: Settings, ix: seq<nat>)
    requires Within(Groups(es), ix) && Sorted(es, s, ix) && ix != []
    ensures Sorted(es, s, ix[1..])
    ensures forall y | y in ix :: y < |es| && !Less(es[y], es[ix[0]], s)
  {
    hide Less;
    forall y | y in ix
      ensures y < |es| && !Less(es[y], es[ix[0]], s)
    {
      var k :| 0 <= k < |ix| && ix[k] == y;
      LessIsStrictOrder(es[y], es[y], es[y], s);
    }
  }

  lemma {:induction false} StableSortSorts(es: seq<Entry>, s: Settings, ix: seq<nat>)
    requires Within(Groups(es), ix)
    ensures Sorted(es, s, StableSort(es, s, ix))
  {
    hide Less, Insert;
    if ix != [] {
      StableSortSorts(es, s, ix[1..]);
      InsertSorts(es, s, ix[0], StableSort(es, s, ix[1..]));
    }
  }

  // ---------------------------------------------------------------- what is shown

  function Rows(es: seq<Entry>, ix: seq<nat>): (rows: seq<Entry>)
    requires Within(Groups(es), ix)
    ensures |rows| == |ix| && forall k | 0 <= k < |rows| :: rows[k] == es[ix[k]]
  {
    seq(|ix|, k requires 0 <= k < |ix| => es[ix[k]])
  }

  /** The matching entries grouped, in arrival order: what is shown while entries still arrive. */
  function Arrived(es: seq<Entry>, s: Settings): (ix: seq<nat>)
    ensures Within(Groups(es), ix)
  {
    Grouped(Groups(es), Matching(es, s, 0))
  }

  predicate Distinct(ix: seq<nat>) {
    forall j, k | 0 <= j < k < |ix| :: ix[j] != ix[k]
  }

  /** Each row once, and exactly the matching entries. */
  ghost predicate Complete(es: seq<Entry>, s: Settings, ix: seq<nat>) {
    && (forall i :: i in ix <==> 0 <= i < |es| && Matches(es[i], s)) && Distinct(ix)
  }

  /** No row belongs before one that stands above it. */
  predicate InOrder(es: seq<Entry>, s: Settings, ix: seq<nat>)
    requires Within(Groups(es), ix)
  {
    forall j, k | 0 <= j < k < |ix| :: !Precedes(es[ix[k]], es[ix[j]], s)
  }

  predicate Precedes(a: Entry, b: Entry, s: Settings) {
    Group(a) < Group(b) || (Group(a) == Group(b) && Less(a, b, s))
  }

  /** A finished listing. */
  ghost predicate Listed(es: seq<Entry>, s: Settings, ix: seq<nat>) {
    Within(Groups(es), ix) && Complete(es, s, ix) && InOrder(es, s, ix)
  }

  predicate DistinctIds(es: seq<Entry>) {
    forall i, j | 0 <= i < j < |es| :: es[i].id != es[j].id
  }

  lemma PrecedesIsStrictOrder(a: Entry, b: Entry, c: Entry, s: Settings)
    ensures !(Precedes(a, b, s) && Precedes(b, a, s))
    ensures !Precedes(b, a, s) && !Precedes(c, b, s) ==> !Precedes(c, a, s)
    ensures a.id != b.id ==> Precedes(a, b, s) || Precedes(b, a, s)
  {
    hide Less, Group;
    LessIsStrictOrder(a, b, c, s);
  }

  /**
   A finished listing depends on the set of entries and the settings only: not on the order the
   entries came in, nor on how they were split into batches, nor on what was set before.
   */
  lemma ListingIsCanonical(es: seq<Entry>, ix: seq<nat>, fs: seq<Entry>, jx: seq<nat>, s: Settings)
    requires Listed(es, s, ix) && Listed(fs, s, jx)
    requires DistinctIds(es) && DistinctIds(fs) && forall e :: e in es <==> e in fs
    ensures Rows(es, ix) == Rows(fs, jx)
  {
    RowsAreMatches(es, ix, s);
    RowsAreMatches(fs, jx, s);
    SameRows(Rows(es, ix), Rows(fs, jx), s);
  }

  ghost predicate Strict(rows: seq<Entry>, s: Settings) {
    forall j, k | 0 <= j < k < |rows| :: rows[j].id != rows[k].id && !Precedes(rows[k], rows[j], s)
  }

  lemma RowsAreMatches(es: seq<Entry>, ix: seq<nat>, s: Settings)
    requires Listed(es, s, ix) && DistinctIds(es)
    ensures forall e :: e in Rows(es, ix) <==> e in es && Matches(e, s)
    ensures Strict(Rows(es, ix), s)
  {
    hide Precedes, Matches;
    var rows := Rows(es, ix);
    forall k | 0 <= k < |rows|
      ensures rows[k] in es && Matches(rows[k], s)
    {
      assert ix[k] in ix;
    }
    forall e
      ensures e in rows <==> e in es && Matches(e, s)
    {
      if e in es && Matches(e, s) {
        var i :| 0 <= i < |es| && es[i] == e;
        assert i in ix;
        var k :| 0 <= k < |ix| && ix[k] == i;
        assert rows[k] == e;
      }
    }
  }

  /** Two strictly ordered sequences of the same rows are the same. */
  lemma {:induction false} SameRows(a: seq<Entry>, b: seq<Entry>, s: Settings)
    requires Strict(a, s) && Strict(b, s) && forall e :: e in a <==> e in b
    ensures a == b
    decreases |a|
  {
    hide Precedes;
    assert b != [] ==> b[0] in b;
    if a != [] {
      assert a[0] in a && a[0] in b;
      assert b[0] in b && b[0] in a;
      PrecedesIsStrictOrder(a[0], b[0], a[0], s);
      assert a[0] == b[0];
      forall e
        ensures e in a[1..] <==> e in b[1..]
      {
        RestOf(a, e, s);
        RestOf(b, e, s);
      }
      SameRows(a[1..], b[1..], s);
      assert a == [a[0]] + a[1..] && b == [b[0]] + b[1..];
    }
  }

  lemma RestOf(a: seq<Entry>, e: Entry, s: Settings)
    requires Strict(a, s) && a != []
    ensures e in a[1..] <==> e in a && e != a[0]
  {
    if e in a && e != a[0] {
      var k :| 0 <= k < |a| && a[k] == e;
      assert a[1..][k - 1] == e;
    }
    forall k | 0 <= k < |a| - 1
      ensures a[1..][k] != a[0] && a[1..][k] in a
    {
      assert a[1..][k] == a[k + 1];
    }
  }

  // ---------------------------------------------------------------- from rows to a listing

  /** The rows of each group, sorted. */
  function Listing(es: seq<Entry>, s: Settings, ix: seq<nat>): (r: seq<nat>)
    requires Within(Groups(es), ix)
    ensures Within(Groups(es), r)
  {
    StableSort(es, s, OfGroup(Groups(es), ix, 0)) + StableSort(es, s, OfGroup(Groups(es), ix, 1))
    + StableSort(es, s, OfGroup(Groups(es), ix, 2))
  }

  lemma {:induction false} OfGroupDistinct(gs: seq<Level>, ix: seq<nat>, g: nat)
    requires Within(gs, ix) && Distinct(ix)
    ensures Distinct(OfGroup(gs, ix, g))
  {
    if ix != [] {
      var n := |ix| - 1;
      OfGroupDistinct(gs, ix[..n], g);
      OfGroupMembers(gs, ix[..n], g);
      var r := OfGroup(gs, ix[..n], g);
      forall k | 0 <= k < |r|
        ensures r[k] != ix[n]
      {
        assert r[k] in r;
      }
    }
  }

  lemma {:induction false} InsertDistinct(es: seq<Entry>, s: Settings, i: nat, ix: seq<nat>)
    requires i < |es| && Within(Groups(es), ix) && Distinct(ix) && i !in ix
    ensures Distinct(Insert(es, s, i, ix))
  {
    hide Less, Group;
    if ix != [] && Less(es[ix[0]], es[i], s) {
      var r := Insert(es, s, i, ix[1..]);
      InsertDistinct(es, s, i, ix[1..]);
      forall k | 0 <= k < |r|
        ensures r[k] != ix[0]
      {
        assert r[k] in r;
      }
    }
  }

  lemma {:induction false} StableSortDistinct(es: seq<Entry>, s: Settings, ix: seq<nat>)
    requires Within(Groups(es), ix) && Distinct(ix)
    ensures Distinct(StableSort(es, s, ix))
  {
    hide Less, Group, Insert;
    if ix != [] {
      StableSortDistinct(es, s, ix[1..]);
      InsertDistinct(es, s, ix[0], StableSort(es, s, ix[1..]));
    }
  }

  /** One sorted group is in order, and every row belongs to it. */
  lemma SortedGroup(es: seq<Entry>, s: Settings, ix: seq<nat>, g: nat)
    requires Within(Groups(es), ix) && Distinct(ix)
    ensures var r := StableSort(es, s, OfGroup(Groups(es), ix, g));
      && Within(Groups(es), r) && Sorted(es, s, r) && Distinct(r)
      && (forall i :: i in r <==> i in ix && Groups(es)[i] == g)
      && forall k | 0 <= k < |r| :: Group(es[r[k]]) == g
  {
    hide Less, Group, Insert, OfGroup;
    var rows := OfGroup(Groups(es), ix, g);
    OfGroupDistinct(Groups(es), ix, g);
    OfGroupMembers(Groups(es), ix, g);
    StableSortDistinct(es, s, rows);
    StableSortSorts(es, s, rows);
    var r := StableSort(es, s, rows);
    forall k | 0 <= k < |r|
      ensures Group(es[r[k]]) == g
    {
      assert r[k] in r;
    }
  }

  /** Whatever rows it starts from, if they are the matching ones the result is a finished listing. */
  lemma ListingIsListed(es: seq<Entry>, s: Settings, ix: seq<nat>)
    requires Within(Groups(es), ix) && Complete(es, s, ix)
    ensures Listed(es, s, Listing(es, s, ix))
    ensures GroupsRise(Groups(es), Listing(es, s, ix))
  {
    hide Less, Group, StableSort, OfGroup, Matches;
    var a, b, c := StableSort(es, s, OfGroup(Groups(es), ix, 0)), StableSort(es, s, OfGroup(Groups(es), ix, 1)),
                   StableSort(es, s, OfGroup(Groups(es), ix, 2));
    SortedGroup(es, s, ix, 0);
    SortedGroup(es, s, ix, 1);
    SortedGroup(es, s, ix, 2);
    Joined(es, s, a, 0, b, 1);
    Joined(es, s, a + b, 1, c, 2);
    forall i
      ensures i in a + b + c <==> i in ix
    {
      assert i in ix ==> Groups(es)[i] == 0 || Groups(es)[i] == 1 || Groups(es)[i] == 2;
    }
  }

  /** Rows of lower groups in front of rows of a higher one. */
  lemma Joined(es: seq<Entry>, s: Settings, a: seq<nat>, g: nat, b: seq<nat>, h: nat)
    requires Within(Groups(es), a) && Within(Groups(es), b) && InOrder(es, s, a) && g < h
    requires GroupsRise(Groups(es), a) && Distinct(a) && Distinct(b) && Sorted(es, s, b)
    requires forall k | 0 <= k < |a| :: Group(es[a[k]]) <= g
    requires forall k | 0 <= k < |b| :: Group(es[b[k]]) == h
    ensures Within(Groups(es), a + b) && InOrder(es, s, a + b) && GroupsRise(Groups(es), a + b) && Distinct(a + b)
    ensures forall k | 0 <= k < |a + b| :: Group(es[(a + b)[k]]) <= h
  {
    hide Less, Group;
  }

  lemma MatchingIsComplete(es: seq<Entry>, s: Settings)
    ensures Complete(es, s, Matching(es, s, 0))
    ensures Complete(es, s, Arrived(es, s)) && GroupsRise(Groups(es), Arrived(es, s))
  {
    var gs, ix := Groups(es), Matching(es, s, 0);
    hide Matches, Group, OfGroup, Matching, Grouped, GroupsRise, Groups;
    assert forall i | i in ix :: exists k :: 0 <= k < |ix| && ix[k] == i;
    GroupedHasEach(gs, ix);
    GroupedRises(gs, ix);
  }

  /** Grouping moves rows, and neither loses nor repeats one. */
  lemma GroupedHasEach(gs: seq<Level>, ix: seq<nat>)
    requires Within(gs, ix) && Distinct(ix)
    ensures (forall i :: i in Grouped(gs, ix) <==> i in ix) && Distinct(Grouped(gs, ix))
  {
    hide OfGroup;
    OfGroupMembers(gs, ix, 0);
    OfGroupMembers(gs, ix, 1);
    OfGroupMembers(gs, ix, 2);
    OfGroupDistinct(gs, ix, 0);
    OfGroupDistinct(gs, ix, 1);
    OfGroupDistinct(gs, ix, 2);
    assert forall i | i in ix :: gs[i] == 0 || gs[i] == 1 || gs[i] == 2;
  }

  /** New entries add their matching rows behind the old ones. */
  lemma {:induction false} MatchingExtends(es: seq<Entry>, more: seq<Entry>, s: Settings)
    ensures Matching(es + more, s, 0) == Matching(es, s, 0) + Matching(es + more, s, |es|)
    decreases |more|
  {
    hide Matches;
    if more == [] {
      assert es + more == es;
    } else {
      var n := |more| - 1;
      assert (es + more)[..|es| + n] == es + more[..n];
      MatchingExtends(es, more[..n], s);
    }
  }

  // ---------------------------------------------------------------- what a listing means for its entries

  /** The last dot divides the name, and neither part is empty. */
  predicate Divides(name: Bytes, stem: Bytes, extension: Bytes) {
    name == stem + [DOT] + extension && stem != [] && extension != [] && DOT !in extension
  }

  /** What stands behind the last dot; nothing, if that dot is the first or the last byte or there is none. */
  ghost predicate HasExtension(name: Bytes, extension: Bytes) {
    if extension == [] then forall stem, x :: !Divides(name, stem, x)
    else exists stem :: Divides(name, stem, extension)
  }

  lemma DivisionIsAtLastDot(name: Bytes, stem: Bytes, extension: Bytes)
    requires Divides(name, stem, extension)
    ensures LastDot(name) == |stem| && extension == name[|stem| + 1..]
  {
    assert name[|stem|] == DOT && name[|stem| + 1..] == extension;
    OneLastDot(name, |stem|);
  }

  lemma DotDivides(name: Bytes, dot: nat)
    requires 0 < dot < |name| - 1 && name[dot] == DOT && DOT !in name[dot + 1..]
    ensures Divides(name, name[..dot], name[dot + 1..])
  {
    var stem, extension := name[..dot], name[dot + 1..];
    assert [name[dot]] == [DOT];
    assert name == stem + [name[dot]] + extension;
  }

  lemma ExtensionMeans(name: Bytes)
    ensures HasExtension(name, ExtensionOf(name))
  {
    var dot := LastDot(name);
    if 0 < dot < |name| - 1 {
      DotDivides(name, dot);
    } else {
      Undivided(name);
    }
    hide Divides, LastDot;
  }

  lemma Undivided(name: Bytes)
    requires !(0 < LastDot(name) < |name| - 1)
    ensures HasExtension(name, [])
  {
    hide Divides, LastDot;
    forall stem, x
      ensures !Divides(name, stem, x)
    {
      NoDivision(name, stem, x);
    }
  }

  lemma NoDivision(name: Bytes, stem: Bytes, extension: Bytes)
    requires !(0 < LastDot(name) < |name| - 1)
    ensures !Divides(name, stem, extension)
  {
    if Divides(name, stem, extension) {
      Divided(name, stem, extension);
    }
  }

  lemma Divided(name: Bytes, stem: Bytes, extension: Bytes)
    requires Divides(name, stem, extension)
    ensures 0 < LastDot(name) < |name| - 1 && extension == name[LastDot(name) + 1..]
  {
    hide LastDot;
    DivisionIsAtLastDot(name, stem, extension);
  }

  /** At the first difference the lesser byte comes first, and a beginning before what it begins. */
  predicate ComesBefore(x: Bytes, y: Bytes) {
    exists n :: 0 <= n < |y| && n <= |x| && DiffersAt(x, y, n)
  }

  predicate DiffersAt(x: Bytes, y: Bytes, n: nat)
    requires n < |y| && n <= |x|
  {
    x[..n] == y[..n] && (n == |x| || x[n] < y[n])
  }

  lemma {:induction false} BytesInOrder(x: Bytes, y: Bytes)
    requires CompareBytes(x, y) < 0
    ensures ComesBefore(x, y)
  {
    if x == [] || x[0] < y[0] {
      assert DiffersAt(x, y, 0);
    } else {
      BytesInOrder(x[1..], y[1..]);
      var n :| 0 <= n < |y[1..]| && n <= |x[1..]| && DiffersAt(x[1..], y[1..], n);
      assert x[..n + 1] == [x[0]] + x[1..][..n] && y[..n + 1] == [y[0]] + y[1..][..n];
      assert DiffersAt(x, y, n + 1);
    }
  }

  /** Equal keys are ordered by name, and equal names by id. */
  predicate NameThenId(a: Entry, b: Entry) {
    var order := NaturalOrder.Order(a.searchKey, b.searchKey);
    order < 0 || (order == 0 && a.id <= b.id)
  }

  ghost predicate ExtensionsRise(a: Entry, b: Entry) {
    exists x, y :: HasExtension(a.searchKey, x) && HasExtension(b.searchKey, y)
                   && (ComesBefore(x, y) || (x == y && NameThenId(a, b)))
  }

  /** In order of the field, and where that is equal, of name and id. */
  ghost predicate Rises(a: Entry, b: Entry, field: SortField) {
    match field
    case ByName => NameThenId(a, b)
    case ByExtension => ExtensionsRise(a, b)
    case ByModified => a.modified < b.modified || (a.modified == b.modified && NameThenId(a, b))
    case BySize => a.size < b.size || (a.size == b.size && NameThenId(a, b))
  }

  /** The groups rise, and in a group the field rises or falls. */
  ghost predicate StandsBefore(a: Entry, b: Entry, s: Settings) {
    || Group(a) < Group(b)
    || (Group(a) == Group(b) && if s.descending then Rises(b, a, s.field) else Rises(a, b, s.field))
  }

  /** Any two rows of a finished listing. */
  lemma FinishedRows(es: seq<Entry>, s: Settings, ix: seq<nat>, j: nat, k: nat)
    requires Listed(es, s, ix) && j < k < |ix|
    ensures StandsBefore(es[ix[j]], es[ix[k]], s)
  {
    hide Group, NaturalOrder.Order, ExtensionOf, CompareBytes, HasExtension, Complete, ComesBefore;
    var a, b := es[ix[if s.descending then k else j]], es[ix[if s.descending then j else k]];
    assert !Precedes(es[ix[k]], es[ix[j]], s);
    OrdersAreAntisymmetric(a, b, s.field);
    if s.field == ByExtension {
      var x, y := ExtensionOf(a.searchKey), ExtensionOf(b.searchKey);
      ExtensionMeans(a.searchKey);
      ExtensionMeans(b.searchKey);
      CompareBytesTotal(x, y);
      if x != y && CompareBytes(x, y) <= 0 {
        BytesInOrder(x, y);
      }
    }
  }

  /** Whose previews are shown: a file with one of the extensions, in any case. */
  ghost predicate HasPreview(e: Entry) {
    e.kind == File && exists stem, extension :: Divides(e.name, stem, extension) && IsPreviewed(extension)
  }

  predicate IsPreviewed(extension: Bytes) {
    |extension| <= 10 && Text(Lowered(extension)) in EXTENSIONS
  }

  /** Directories, then files with a preview, then the others. */
  lemma GroupMeans(e: Entry)
    ensures Group(e) == if e.kind == Directory then 0 else if HasPreview(e) then 1 else 2
  {
    var dot := LastDot(e.name);
    hide LastDot, EXTENSIONS;
    if 0 < dot < |e.name| - 1 {
      DotDivides(e.name, dot);
    }
    hide Divides;
    if HasPreview(e) {
      var stem, extension :| Divides(e.name, stem, extension) && IsPreviewed(extension);
      Divided(e.name, stem, extension);
    }
  }

  predicate Surrounded(text: Bytes, before: Bytes, part: Bytes, after: Bytes) {
    text == before + part + after
  }

  lemma ContainsMeans(text: Bytes, part: Bytes)
    ensures Contains(text, part) <==> exists before, after :: Surrounded(text, before, part, after)
  {
    if Contains(text, part) {
      var at :| 0 <= at <= |text| - |part| && StandsAt(text, part, at);
      assert Surrounded(text, text[..at], part, text[at + |part|..]);
    }
    if before, after :| Surrounded(text, before, part, after) {
      assert StandsAt(text, part, |before|);
    }
  }

  /** The filter stands somewhere in the name, or in the folded name. */
  ghost predicate IsFound(e: Entry, s: Settings) {
    var text := if s.caseSensitive then e.name else e.searchKey;
    exists before, after :: Surrounded(text, before, s.filterKey, after)
  }

  /** A finished listing shows the entries that are found. */
  lemma ShownIffFound(es: seq<Entry>, s: Settings, ix: seq<nat>, i: nat)
    requires Listed(es, s, ix) && i < |es|
    ensures i in ix <==> IsFound(es[i], s)
  {
    hide InOrder, Contains, Surrounded;
    var text := if s.caseSensitive then es[i].name else es[i].searchKey;
    ContainsMeans(text, s.filterKey);
    assert s.filterKey == [] ==> Contains(text, s.filterKey) by {
      hide *;
      EmptyIsContained(text);
    }
  }

  lemma EmptyIsContained(text: Bytes)
    ensures Contains(text, [])
  {
    assert StandsAt(text, [], 0);
  }

  /** Neither a name that begins with a dot nor a temporary file is ever listed, and nothing else is left out. */
  lemma CataloguedMeans(e: Entry)
    ensures Catalogued(e) <==> e.name != [] && !IsHidden(e.name) && !(e.kind == File && IsTemporary(e.name))
  {
    hide Lowered;
    if stem, ending :| e.name == stem + ending && Lowered(ending) == Ascii(".tmp") {
      assert ending == e.name[|e.name| - 4..];
    }
    if |e.name| >= 4 {
      assert e.name == e.name[..|e.name| - 4] + e.name[|e.name| - 4..];
    }
    if |e.name| > 0 {
      assert e.name == [e.name[0]] + e.name[1..];
    }
  }

  predicate IsHidden(name: Bytes) {
    Ascii(".") <= name
  }

  ghost predicate IsTemporary(name: Bytes) {
    exists stem, ending :: name == stem + ending && Lowered(ending) == Ascii(".tmp")
  }

  /** Which part of a batch is kept does not depend on how it is split. */
  lemma {:induction false} OnlyCataloguedConcat(a: seq<Entry>, b: seq<Entry>)
    ensures OnlyCatalogued(a + b) == OnlyCatalogued(a) + OnlyCatalogued(b)
  {
    hide Catalogued;
    if b == [] {
      assert a + b == a;
    } else {
      var n := |b| - 1;
      assert (a + b)[..|a + b| - 1] == a + b[..n];
      OnlyCataloguedConcat(a, b[..n]);
    }
  }
}
