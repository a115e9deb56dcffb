/**
 The catalogue model: entries arrive in batches, and an index of the visible rows is kept up to
 date. Single writer; the standard library's stable sort and stable partition are functions.
 */
module DirectoryModel {
  import opened Bytes
  import opened StableGrouping
  import opened CatalogListing

  class DirectoryModel {
    var generation: u64
    var loading: bool
    var settings: Settings
    var entries: seq<Entry>
    var visible: seq<nat>
    var visibleDirectories: nat
    /** False while rows arrive, and after an abort until something sorts them. */
    ghost var sorted: bool

    ghost predicate Valid()
      reads this
    {
      Indexed(entries, settings, visible, visibleDirectories, loading, sorted)
    }

    constructor ()
      ensures Valid() && generation == 0 && !loading && entries == [] && sorted
    {
      hide Indexed;
      var initial := Settings([], false, ByName, false);
      NothingIsListed(initial);
      generation, loading, settings := 0, false, initial;
      entries, visible, visibleDirectories, sorted := [], [], 0, true;
    }

    /** The rows a batch would add, in arrival order. */
    ghost function NewRows(batch: seq<Entry>): seq<nat>
      reads this
    {
      Matching(entries + OnlyCatalogued(batch), settings, |entries|)
    }

    method BeginGeneration() returns (g: u64)
      requires Valid()
      modifies this
      ensures Valid() && loading && entries == [] && visible == [] && settings == old(settings)
      ensures g == generation == if old(generation) == 0xffff_ffff_ffff_ffff then 0 else old(generation) + 1
    {
      hide Indexed;
      generation := if generation == 0xffff_ffff_ffff_ffff then 0 else generation + 1;
      loading := true;
      entries, visible, visibleDirectories, sorted := [], [], 0, false;
      NothingIsIndexed(settings, true);
      g := generation;
    }

    /** How many rows a batch will add. */
    method MatchingCount(batch: seq<Entry>) returns (n: nat)
      requires Valid()
      ensures n == |NewRows(batch)|
    {
      n := 0;
      assert batch[..|batch|] == batch;
      for k := 0 to |batch|
        invariant n == |NewRows(batch[..k])|
      {
        OneMoreRow(entries, batch, k, settings);
        if Catalogued(batch[k]) && Matches(batch[k], settings) {
          n := n + 1;
        }
      }
    }

    /**
     Whether a batch will move rows that are shown. While entries arrive this is exact: it is
     false if and only if the old rows will be the beginning of the new ones.
     */
    method AppendReordersVisibleRows(batch: seq<Entry>) returns (reorders: bool)
      requires Valid()
      ensures !sorted ==> (reorders <==> !(visible <= Arrived(entries + OnlyCatalogued(batch), settings)))
      ensures reorders <==>
              !(visible <= Grouped(Groups(entries + OnlyCatalogued(batch)), visible + NewRows(batch)))
    {
      hide Group, Less, Matches, Catalogued, Matching, OfGroup, OnlyCatalogued, Grouped, GroupsRise, Groups;
      AppendedRows(entries, visible, batch, settings);
      if !sorted {
        ArrivedExtends(entries, OnlyCatalogued(batch), settings);
      }
      if visible == [] {
        return false;
      }
      var lastGroup := Group(entries[visible[|visible| - 1]]);
      var k := 0;
      while k < |batch|
        invariant k <= |batch|
        invariant forall j | 0 <= j < k :: !Intrudes(batch[j], settings, lastGroup)
      {
        if Intrudes(batch[k], settings, lastGroup) {
          IntruderIsNew(entries, batch, k, settings);
          return true;
        }
        k := k + 1;
      }
      NoIntruder(entries, batch, settings, lastGroup);
      reorders := false;
    }

    method AppendBatch(forGeneration: u64, batch: seq<Entry>) returns (accepted: bool)
      requires Valid()
      modifies this
      ensures Valid() && accepted == (old(loading) && forGeneration == old(generation))
      ensures generation == old(generation) && loading == old(loading) && settings == old(settings)
      ensures !accepted ==> entries == old(entries) && visible == old(visible) && sorted == old(sorted)
      ensures accepted ==> entries == old(entries) + OnlyCatalogued(batch)
      ensures accepted ==> visible == Grouped(Groups(entries), old(visible) + old(NewRows(batch)))
    {
      hide Group, Less, Matches, Matching, Catalogued, OnlyCatalogued, OfGroup, Indexed, Groups, GroupsRise, Grouped;
      if !loading || forGeneration != generation {
        return false;
      }
      ghost var es, rows := entries, visible;
      LoadingMeans(entries, settings, visible, visibleDirectories, sorted);
      var regroup := AppendRows(batch);
      IndexedAgain(es, rows, batch, settings, visibleDirectories);
      if regroup {
        var _, _ := PartitionVisibleGroups();
      } else {
        RisingIsGrouped(Groups(entries), visible);
      }
      accepted := true;
    }

    /** The new rows behind the old ones, and whether they must be grouped again. */
    method AppendRows(batch: seq<Entry>) returns (regroup: bool)
      requires Within(Groups(entries), visible) && GroupsRise(Groups(entries), visible)
      requires visibleDirectories == |OfGroup(Groups(entries), visible, 0)|
      modifies `entries, `visible, `visibleDirectories
      ensures entries == old(entries) + OnlyCatalogued(batch)
      ensures visible == old(visible) + old(NewRows(batch)) && Within(Groups(entries), visible)
      ensures visibleDirectories == |OfGroup(Groups(entries), visible, 0)|
      ensures !regroup ==> GroupsRise(Groups(entries), visible)
    {
      hide Group, Matches, Catalogued, OfGroup, Matching, OnlyCatalogued, GroupsRise, Within, Groups, EntriesAfter,
           RowsAfter;
      AllArrived(entries, visible, batch, settings);
      regroup := AppendEach(batch);
    }

    method AppendEach(batch: seq<Entry>) returns (regroup: bool)
      requires Within(Groups(entries), visible) && GroupsRise(Groups(entries), visible)
      requires visibleDirectories == |OfGroup(Groups(entries), visible, 0)|
      modifies `entries, `visible, `visibleDirectories
      ensures entries == EntriesAfter(old(entries), batch, |batch|)
      ensures visible == RowsAfter(old(entries), old(visible), batch, |batch|, settings)
      ensures Within(Groups(entries), visible)
      ensures visibleDirectories == |OfGroup(Groups(entries), visible, 0)|
      ensures !regroup ==> GroupsRise(Groups(entries), visible)
    {
      NoneArrived(entries, visible, batch, settings);
      hide *;
      ghost var es, rows := entries, visible;
      var lastGroup := GroupOfLastRow();
      regroup := false;
      for k := 0 to |batch|
        invariant entries == EntriesAfter(es, batch, k) && visible == RowsAfter(es, rows, batch, k, settings)
        invariant Within(Groups(entries), visible)
        invariant visibleDirectories == |OfGroup(Groups(entries), visible, 0)|
        invariant lastGroup == LastGroup(Groups(entries), visible)
        invariant !regroup ==> GroupsRise(Groups(entries), visible)
      {
        OneMoreArrived(es, rows, batch, k, settings);
        if Catalogued(batch[k]) {
          lastGroup, regroup := AppendRow(batch[k], lastGroup, regroup);
        }
      }
    }

    method GroupOfLastRow() returns (group: Level)
      requires Within(Groups(entries), visible)
      ensures group == LastGroup(Groups(entries), visible)
    {
      group := if visible == [] then 0 else Group(entries[visible[|visible| - 1]]);
    }

    method AppendRow(entry: Entry, lastGroup: Level, regroup: bool) returns (group: Level, again: bool)
      requires Within(Groups(entries), visible) && lastGroup == LastGroup(Groups(entries), visible)
      requires visibleDirectories == |OfGroup(Groups(entries), visible, 0)|
      requires !regroup ==> GroupsRise(Groups(entries), visible)
      modifies `entries, `visible, `visibleDirectories
      ensures entries == old(entries) + [entry]
      ensures visible == old(visible) + if Matches(entry, settings) then [|entries| - 1] else []
      ensures Within(Groups(entries), visible) && group == LastGroup(Groups(entries), visible)
      ensures visibleDirectories == |OfGroup(Groups(entries), visible, 0)|
      ensures !again ==> GroupsRise(Groups(entries), visible)
    {
      hide Group, Matches, Catalogued, OfGroup;
      group, again := lastGroup, regroup;
      RowsStay(entries, entry, visible);
      entries := entries + [entry];
      if Matches(entry, settings) {
        RowPushed(entries, visible);
        visible := visible + [|entries| - 1];
        visibleDirectories := visibleDirectories + if entry.kind == Directory then 1 else 0;
        group := Group(entry);
        again := again || group < lastGroup;
      }
    }

    /** Stable partitions: directories first, then previews, then the rest. */
    method PartitionVisibleGroups() returns (directories: nat, files: nat)
      requires Within(Groups(entries), visible)
      modifies `visible
      ensures visible == Grouped(Groups(entries), old(visible)) && GroupsRise(Groups(entries), visible)
      ensures directories == |OfGroup(Groups(entries), old(visible), 0)|
      ensures files == directories + |OfGroup(Groups(entries), old(visible), 1)|
      ensures OfGroup(Groups(entries), visible, 0) == OfGroup(Groups(entries), old(visible), 0)
    {
      ghost var rows := visible;
      ghost var gs := Groups(entries);
      var (first, rest) := Partition(entries, visible, 0);
      PartitionTwice(gs, rows);
      GroupedKeepsGroups(gs, rows, 0);
      GroupedRises(gs, rows);
      directories := |first|;
      var (previews, others) := Partition(entries, rest, 1);
      files := directories + |previews|;
      visible := first + previews + others;
    }

    method SortVisibleIndices()
      requires Within(Groups(entries), visible)
      modifies `visible
      ensures visible == Listing(entries, settings, old(visible))
    {
      ghost var rows := visible;
      var directories, files := PartitionVisibleGroups();
      ghost var gs := Groups(entries);
      ghost var a, b, c := OfGroup(gs, rows, 0), OfGroup(gs, rows, 1), OfGroup(gs, rows, 2);
      assert visible == a + b + c;
      assert visible[..directories] == a && visible[directories..files] == b && visible[files..] == c;
      visible := StableSort(entries, settings, visible[..directories])
                 + StableSort(entries, settings, visible[directories..files])
                 + StableSort(entries, settings, visible[files..]);
    }

    method RebuildVisibleIndices()
      requires (forall e | e in entries :: Catalogued(e)) && (loading ==> !sorted)
      modifies `visible, `visibleDirectories, `sorted
      ensures Valid() && sorted == !loading
    {
      hide Group, Less, Matches, Catalogued, Matching, OfGroup;
      MatchInArrivalOrder();
      MatchingIsComplete(entries, settings);
      ghost var rows := visible;
      if loading {
        var _, _ := PartitionVisibleGroups();
        sorted := false;
      } else {
        SortVisibleIndices();
        ListingIsListed(entries, settings, rows);
        ListingKeepsDirectories(entries, settings, rows);
        sorted := true;
      }
    }

    method MatchInArrivalOrder()
      modifies `visible, `visibleDirectories
      ensures visible == Matching(entries, settings, 0) && Within(Groups(entries), visible)
      ensures visibleDirectories == |OfGroup(Groups(entries), visible, 0)|
    {
      hide *;
      visible, visibleDirectories := [], 0;
      NoMatches(entries, settings);
      for index := 0 to |entries|
        invariant visible == Matching(entries[..index], settings, 0)
        invariant Within(Groups(entries), visible)
        invariant visibleDirectories == |OfGroup(Groups(entries), visible, 0)|
      {
        OneMoreMatch(entries, settings, index);
        if Matches(entries[index], settings) {
          PushedAt(entries, visible, index);
          visible := visible + [index];
          visibleDirectories := visibleDirectories + if entries[index].kind == Directory then 1 else 0;
        }
      }
      assert entries[..|entries|] == entries;
    }

    /** The other route: all entries at once. */
    method ReplaceGeneration(forGeneration: u64, all: seq<Entry>) returns (accepted: bool)
      requires Valid()
      modifies this
      ensures Valid() && accepted == (old(loading) && forGeneration == old(generation))
      ensures generation == old(generation) && loading == old(loading) && settings == old(settings)
      ensures !accepted ==> entries == old(entries) && visible == old(visible) && sorted == old(sorted)
      ensures accepted ==> entries == OnlyCatalogued(all)
    {
      hide Group, Less, Matches, Catalogued, Matching, OfGroup;
      if !loading || forGeneration != generation {
        return false;
      }
      entries := OnlyCatalogued(all);
      MatchInArrivalOrder();
      var _, _ := PartitionVisibleGroups();
      accepted := true;
    }

    method FinishGeneration(forGeneration: u64) returns (accepted: bool)
      requires Valid()
      modifies this
      ensures Valid() && accepted == (old(loading) && forGeneration == old(generation))
      ensures generation == old(generation) && settings == old(settings) && entries == old(entries)
      ensures accepted ==> !loading && sorted
      ensures !accepted ==> loading == old(loading) && visible == old(visible) && sorted == old(sorted)
    {
      hide Group, Less, Matches, Catalogued, Matching, OfGroup;
      if !loading || forGeneration != generation {
        return false;
      }
      loading := false;
      Resort();
      accepted := true;
    }

    /** Sorts the rows that are there. */
    method Resort()
      requires (forall e | e in entries :: Catalogued(e)) && Within(Groups(entries), visible) && !loading
      requires Complete(entries, settings, visible) || visible == Arrived(entries, settings)
      requires visibleDirectories == |OfGroup(Groups(entries), visible, 0)|
      modifies `visible, `sorted
      ensures Valid() && sorted
    {
      hide Group, Less, Matches, Catalogued, Matching, OfGroup;
      ghost var rows := visible;
      MatchingIsComplete(entries, settings);
      SortVisibleIndices();
      ListingIsListed(entries, settings, rows);
      ListingKeepsDirectories(entries, settings, rows);
      sorted := true;
    }

    /** An aborted load keeps its rows as they are. */
    method AbortGeneration(forGeneration: u64) returns (accepted: bool)
      requires Valid()
      modifies this
      ensures Valid() && accepted == (old(loading) && forGeneration == old(generation))
      ensures generation == old(generation) && settings == old(settings) && entries == old(entries)
      ensures visible == old(visible) && sorted == old(sorted)
      ensures loading == (old(loading) && !accepted)
    {
      hide Group, Less, Matches, Catalogued, Matching, OfGroup;
      if !loading || forGeneration != generation {
        return false;
      }
      loading := false;
      accepted := true;
    }

    method SetFilterKey(key: Bytes)
      requires Valid()
      modifies this
      ensures Valid() && settings == old(settings).(filterKey := key)
      ensures generation == old(generation) && loading == old(loading) && entries == old(entries)
      ensures settings != old(settings) && !loading ==> sorted
      ensures settings == old(settings) ==> visible == old(visible) && sorted == old(sorted)
      ensures old(sorted) ==> sorted
    {
      hide Listed, Arrived, Group, Catalogued, OfGroup;
      if settings.filterKey == key {
        return;
      }
      settings := settings.(filterKey := key);
      RebuildVisibleIndices();
    }

    method SetFilterCase(caseSensitive: bool)
      requires Valid()
      modifies this
      ensures Valid() && settings == old(settings).(caseSensitive := caseSensitive)
      ensures generation == old(generation) && loading == old(loading) && entries == old(entries)
      ensures settings != old(settings) && !loading ==> sorted
      ensures settings == old(settings) ==> visible == old(visible) && sorted == old(sorted)
      ensures old(sorted) ==> sorted
    {
      hide Listed, Arrived, Group, Catalogued, OfGroup;
      if settings.caseSensitive == caseSensitive {
        return;
      }
      settings := settings.(caseSensitive := caseSensitive);
      RebuildVisibleIndices();
    }

    method SetSort(field: SortField, descending: bool)
      requires Valid()
      modifies this
      ensures Valid() && settings == old(settings).(field := field, descending := descending)
      ensures generation == old(generation) && loading == old(loading) && entries == old(entries)
      ensures settings != old(settings) && !loading ==> sorted
      ensures settings == old(settings) ==> visible == old(visible) && sorted == old(sorted)
      ensures old(sorted) ==> sorted
    {
      hide Group, Less, Matches, Catalogued, Matching, OfGroup;
      if settings.field == field && settings.descending == descending {
        return;
      }
      ghost var before := settings;
      settings := settings.(field := field, descending := descending);
      SortDoesNotFilter(entries, visible, before, settings);
      if !loading {
        Resort();
      }
    }
  }

  /**
   Two finished models with the same settings show the same rows if they hold the same entries,
   whichever batches and settings brought them there.
   */
  lemma FinishedModelsAgree(a: DirectoryModel, b: DirectoryModel)
    requires a.Valid() && b.Valid() && a.sorted && b.sorted && a.settings == b.settings
    requires DistinctIds(a.entries) && DistinctIds(b.entries)
    requires forall e :: e in a.entries <==> e in b.entries
    ensures Rows(a.entries, a.visible) == Rows(b.entries, b.visible)
  {
    hide Less, Group, Matches, Catalogued, OfGroup;
    ListingIsCanonical(a.entries, a.visible, b.entries, b.visible, a.settings);
  }

  // ---------------------------------------------------------------- the steps of an append

  lemma NoMatches(es: seq<Entry>, s: Settings)
    ensures Matching(es[..0], s, 0) == [] && Within(Groups(es), []) && OfGroup(Groups(es), [], 0) == []
  {
  }

  lemma OneMoreMatch(es: seq<Entry>, s: Settings, k: nat)
    requires k < |es|
    ensures Matching(es[..k + 1], s, 0) == Matching(es[..k], s, 0) + if Matches(es[k], s) then [k] else []
  {
    hide Matches;
    assert es[..k + 1][..k] == es[..k];
  }

  /** The entries and the rows when the first k entries of a batch have been taken in. */
  function EntriesAfter(es: seq<Entry>, batch: seq<Entry>, k: nat): seq<Entry>
    requires k <= |batch|
  {
    es + OnlyCatalogued(batch[..k])
  }

  function RowsAfter(es: seq<Entry>, rows: seq<nat>, batch: seq<Entry>, k: nat, s: Settings): seq<nat>
    requires k <= |batch|
  {
    rows + Matching(EntriesAfter(es, batch, k), s, |es|)
  }

  lemma AllArrived(es: seq<Entry>, rows: seq<nat>, batch: seq<Entry>, s: Settings)
    ensures EntriesAfter(es, batch, |batch|) == es + OnlyCatalogued(batch)
    ensures RowsAfter(es, rows, batch, |batch|, s) == rows + Matching(es + OnlyCatalogued(batch), s, |es|)
  {
    assert batch[..|batch|] == batch;
    hide OnlyCatalogued, Matching;
  }

  lemma NoneArrived(es: seq<Entry>, rows: seq<nat>, batch: seq<Entry>, s: Settings)
    ensures EntriesAfter(es, batch, 0) == es && RowsAfter(es, rows, batch, 0, s) == rows
  {
    assert batch[..0] == [] && es + [] == es && rows + [] == rows;
    assert OnlyCatalogued([]) == [] && Matching(es, s, |es|) == [];
    hide OnlyCatalogued, Matching;
  }

  lemma OneMoreArrived(es: seq<Entry>, rows: seq<nat>, batch: seq<Entry>, k: nat, s: Settings)
    requires k < |batch|
    ensures var before, after := EntriesAfter(es, batch, k), EntriesAfter(es, batch, k + 1);
      && after == (if Catalogued(batch[k]) then before + [batch[k]] else before)
      && RowsAfter(es, rows, batch, k + 1, s)
         == RowsAfter(es, rows, batch, k, s)
            + if Catalogued(batch[k]) && Matches(batch[k], s) then [|after| - 1] else []
  {
    OneMoreRow(es, batch, k, s);
    var before, after := EntriesAfter(es, batch, k), EntriesAfter(es, batch, k + 1);
    var old_, new_ := Matching(before, s, |es|), Matching(after, s, |es|);
    assert RowsAfter(es, rows, batch, k, s) == rows + old_ && RowsAfter(es, rows, batch, k + 1, s) == rows + new_;
    hide *;
    Extended(rows, old_, new_, if Catalogued(batch[k]) && Matches(batch[k], s) then [|after| - 1] else []);
  }

  /** The index of the visible rows fits the entries and the settings. */
  ghost predicate Indexed(es: seq<Entry>, s: Settings, visible: seq<nat>, directories: nat,
                          loading: bool, sorted: bool)
  {
    && (forall e | e in es :: Catalogued(e))
    && Within(Groups(es), visible) && GroupsRise(Groups(es), visible)
    && directories == |OfGroup(Groups(es), visible, 0)|
    && (if sorted then !loading && Listed(es, s, visible) else visible == Arrived(es, s))
  }

  /** What a sorted model shows, in terms of its entries: those that are found, by group and field. */
  lemma SortedModelShows(m: DirectoryModel)
    requires m.Valid() && m.sorted
    ensures forall i | 0 <= i < |m.entries| :: i in m.visible <==> IsFound(m.entries[i], m.settings)
    ensures |Rows(m.entries, m.visible)| == |m.visible|
    ensures forall j, k | 0 <= j < k < |m.visible| ::
      StandsBefore(Rows(m.entries, m.visible)[j], Rows(m.entries, m.visible)[k], m.settings)
  {
    hide Group, Listed, IsFound, StandsBefore;
    forall i | 0 <= i < |m.entries|
      ensures i in m.visible <==> IsFound(m.entries[i], m.settings)
    {
      ShownIffFound(m.entries, m.settings, m.visible, i);
    }
    forall j, k | 0 <= j < k < |m.visible|
      ensures StandsBefore(Rows(m.entries, m.visible)[j], Rows(m.entries, m.visible)[k], m.settings)
    {
      FinishedRows(m.entries, m.settings, m.visible, j, k);
    }
  }

  lemma NothingIsListed(s: Settings)
    ensures Indexed([], s, [], 0, false, true)
  {
    NoMatches([], s);
    hide Group, Matches, Catalogued, Less, OfGroup, Matching, Groups;
  }

  lemma NothingArrived(s: Settings)
    ensures Arrived([], s) == []
  {
  }

  lemma NothingIsIndexed(s: Settings, loading: bool)
    ensures Indexed([], s, [], 0, loading, false)
  {
    NoMatches([], s);
    NothingArrived(s);
    hide Group, Matches, Catalogued, Less, OfGroup, Matching, Groups, Arrived;
  }

  /** While entries arrive the rows are grouped, not sorted. */
  lemma LoadingMeans(es: seq<Entry>, s: Settings, visible: seq<nat>, directories: nat, sorted: bool)
    requires Indexed(es, s, visible, directories, true, sorted)
    ensures !sorted && (forall e | e in es :: Catalogued(e)) && visible == Arrived(es, s)
    ensures Within(Groups(es), visible) && GroupsRise(Groups(es), visible)
    ensures directories == |OfGroup(Groups(es), visible, 0)|
  {
  }

  lemma IndexedAgain(es: seq<Entry>, rows: seq<nat>, batch: seq<Entry>, s: Settings, directories: nat)
    requires (forall e | e in es :: Catalogued(e)) && rows == Arrived(es, s)
    requires var all := es + OnlyCatalogued(batch);
      var after := rows + Matching(all, s, |es|);
      Within(Groups(all), after) && directories == |OfGroup(Groups(all), after, 0)|
    ensures var all := es + OnlyCatalogued(batch);
      Indexed(all, s, Grouped(Groups(all), rows + Matching(all, s, |es|)), directories, true, false)
  {
    hide Group, Less, Matches, Matching, Catalogued, OfGroup, Groups, Grouped;
    var all := es + OnlyCatalogued(batch);
    var after := rows + Matching(all, s, |es|);
    ArrivedExtends(es, OnlyCatalogued(batch), s);
    GroupedRises(Groups(all), after);
    GroupedKeepsGroups(Groups(all), after, 0);
    assert forall e | e in all :: e in es || e in OnlyCatalogued(batch);
  }

  predicate Intrudes(e: Entry, s: Settings, lastGroup: Level) {
    Catalogued(e) && Matches(e, s) && Group(e) < lastGroup
  }

  function LastGroup(gs: seq<Level>, ix: seq<nat>): Level
    requires Within(gs, ix)
  {
    if ix == [] then 0 else gs[ix[|ix| - 1]]
  }

  function Partition(es: seq<Entry>, ix: seq<nat>, g: Level): (r: (seq<nat>, seq<nat>))
    requires Within(Groups(es), ix)
    ensures Within(Groups(es), r.0) && Within(Groups(es), r.1)
  {
    (OfGroup(Groups(es), ix, g), Outside(Groups(es), ix, g))
  }

  function Outside(gs: seq<Level>, ix: seq<nat>, g: Level): (r: seq<nat>)
    requires Within(gs, ix)
    ensures Within(gs, r)
  {
    if ix == [] then []
    else
      var n := |ix| - 1;
      Outside(gs, ix[..n], g) + if gs[ix[n]] != g then [ix[n]] else []
  }

  lemma {:induction false} PartitionTwice(gs: seq<Level>, ix: seq<nat>)
    requires Within(gs, ix)
    ensures var rest := Outside(gs, ix, 0);
      OfGroup(gs, rest, 1) == OfGroup(gs, ix, 1) && Outside(gs, rest, 1) == OfGroup(gs, ix, 2)
  {
    if ix != [] {
      var n := |ix| - 1;
      PartitionTwice(gs, ix[..n]);
      var rest := Outside(gs, ix[..n], 0);
      if gs[ix[n]] != 0 {
        assert Outside(gs, ix, 0) == rest + [ix[n]];
        assert (rest + [ix[n]])[..|rest|] == rest;
      } else {
        assert Outside(gs, ix, 0) == rest;
      }
    }
  }

  /** What one more entry of a batch does to the entries and to the new rows. */
  lemma OneMoreRow(es: seq<Entry>, batch: seq<Entry>, k: nat, s: Settings)
    requires k < |batch|
    ensures var before, after := es + OnlyCatalogued(batch[..k]), es + OnlyCatalogued(batch[..k + 1]);
      && after == (if Catalogued(batch[k]) then before + [batch[k]] else before)
      && Matching(after, s, |es|)
         == Matching(before, s, |es|)
            + if Catalogued(batch[k]) && Matches(batch[k], s) then [|after| - 1] else []
  {
    hide Catalogued, Matches;
    assert batch[..k + 1][..k] == batch[..k];
    var before, after := es + OnlyCatalogued(batch[..k]), es + OnlyCatalogued(batch[..k + 1]);
    if Catalogued(batch[k]) {
      assert after == before + [batch[k]];
      assert after[..|after| - 1] == before;
    }
  }

  lemma RowsStay(es: seq<Entry>, e: Entry, ix: seq<nat>)
    requires Within(Groups(es), ix)
    ensures Groups(es + [e]) == Groups(es) + [Group(e)] && Within(Groups(es + [e]), ix)
    ensures OfGroup(Groups(es + [e]), ix, 0) == OfGroup(Groups(es), ix, 0)
  {
    hide Group;
    assert Groups(es + [e]) == Groups(es) + [Group(e)];
    OfGroupExtends(Groups(es), [Group(e)], ix, 0);
  }

  lemma RowPushed(es: seq<Entry>, ix: seq<nat>)
    requires Within(Groups(es), ix) && es != []
    ensures Within(Groups(es), ix + [|es| - 1])
    ensures |OfGroup(Groups(es), ix + [|es| - 1], 0)|
         == |OfGroup(Groups(es), ix, 0)| + if es[|es| - 1].kind == Directory then 1 else 0
  {
    PushedAt(es, ix, |es| - 1);
  }

  lemma PushedAt(es: seq<Entry>, ix: seq<nat>, i: nat)
    requires Within(Groups(es), ix) && i < |es|
    ensures Within(Groups(es), ix + [i])
    ensures |OfGroup(Groups(es), ix + [i], 0)|
         == |OfGroup(Groups(es), ix, 0)| + if es[i].kind == Directory then 1 else 0
  {
    hide Group;
    assert (ix + [i])[..|ix|] == ix;
  }

  /** Appending to what has arrived and grouping again is the same as grouping everything. */
  lemma ArrivedExtends(es: seq<Entry>, more: seq<Entry>, s: Settings)
    ensures Within(Groups(es + more), Arrived(es, s) + Matching(es + more, s, |es|))
    ensures Grouped(Groups(es + more), Arrived(es, s) + Matching(es + more, s, |es|)) == Arrived(es + more, s)
  {
    hide Matches, Group, Matching, OfGroup;
    var ix, new_ := Matching(es, s, 0), Matching(es + more, s, |es|);
    MatchingExtends(es, more, s);
    assert Groups(es + more) == Groups(es) + Groups(more);
    OfGroupExtends(Groups(es), Groups(more), ix, 0);
    OfGroupExtends(Groups(es), Groups(more), ix, 1);
    OfGroupExtends(Groups(es), Groups(more), ix, 2);
    GroupedThenMore(Groups(es + more), ix, new_);
  }

  /** The old rows stay a beginning exactly when no new row belongs before the last of them. */
  lemma AppendedRows(es: seq<Entry>, rows: seq<nat>, batch: seq<Entry>, s: Settings)
    requires Within(Groups(es), rows) && GroupsRise(Groups(es), rows)
    ensures var all := es + OnlyCatalogued(batch);
      var new_ := Matching(all, s, |es|);
      && Within(Groups(all), rows + new_)
      && (rows <= Grouped(Groups(all), rows + new_)
          <==> rows == [] || forall i | i in new_ :: Group(all[i]) >= Group(all[rows[|rows| - 1]]))
  {
    hide Matches, Group, Catalogued, Matching, OnlyCatalogued, OfGroup, Grouped;
    var all := es + OnlyCatalogued(batch);
    var new_ := Matching(all, s, |es|);
    assert forall i | 0 <= i < |es| :: all[i] == es[i] && Groups(all)[i] == Groups(es)[i];
    assert forall i | i in new_ :: i >= |es|;
    PrefixStays(Groups(all), rows, new_);
  }

  lemma {:induction false} IntruderIsNew(es: seq<Entry>, batch: seq<Entry>, k: nat, s: Settings)
    requires k < |batch| && Catalogued(batch[k]) && Matches(batch[k], s)
    ensures var all := es + OnlyCatalogued(batch);
      exists i :: i in Matching(all, s, |es|) && all[i] == batch[k]
  {
    hide Catalogued, Matches;
    var j := KeptAt(batch, k);
    var all := es + OnlyCatalogued(batch);
    assert all[|es| + j] == batch[k];
    assert |es| + j in Matching(all, s, |es|);
  }

  lemma {:induction false} KeptAt(batch: seq<Entry>, k: nat) returns (j: nat)
    requires k < |batch| && Catalogued(batch[k])
    ensures j < |OnlyCatalogued(batch)| && OnlyCatalogued(batch)[j] == batch[k]
  {
    hide Catalogued;
    var n := |batch| - 1;
    if k == n {
      j := |OnlyCatalogued(batch)| - 1;
    } else {
      j := KeptAt(batch[..n], k);
    }
  }

  lemma NoIntruder(es: seq<Entry>, batch: seq<Entry>, s: Settings, lastGroup: Level)
    requires forall j | 0 <= j < |batch| :: !Intrudes(batch[j], s, lastGroup)
    ensures var all := es + OnlyCatalogued(batch);
      forall i | i in Matching(all, s, |es|) :: Group(all[i]) >= lastGroup
  {
    hide Catalogued, Matches, Group;
    var all := es + OnlyCatalogued(batch);
    forall i | i in Matching(all, s, |es|)
      ensures Group(all[i]) >= lastGroup
    {
      assert all[i] == OnlyCatalogued(batch)[i - |es|] && all[i] in OnlyCatalogued(batch);
      var j :| 0 <= j < |batch| && batch[j] == all[i];
    }
  }

  lemma ListingKeepsDirectories(es: seq<Entry>, s: Settings, ix: seq<nat>)
    requires Within(Groups(es), ix) && Complete(es, s, ix)
    ensures |OfGroup(Groups(es), Listing(es, s, ix), 0)| == |OfGroup(Groups(es), ix, 0)|
  {
    hide Less, Group, StableSort, OfGroup, Matches;
    var gs := Groups(es);
    var a, b, c := StableSort(es, s, OfGroup(gs, ix, 0)), StableSort(es, s, OfGroup(gs, ix, 1)),
                   StableSort(es, s, OfGroup(gs, ix, 2));
    SortedGroup(es, s, ix, 0);
    SortedGroup(es, s, ix, 1);
    SortedGroup(es, s, ix, 2);
    OfGroupConcat(gs, a + b, c, 0);
    OfGroupConcat(gs, a, b, 0);
    OneGroup(gs, a, 0, 0);
    NoneAbove(gs, b, 0);
    NoneAbove(gs, c, 0);
  }

  /** How rows are sorted does not decide which are shown. */
  lemma SortDoesNotFilter(es: seq<Entry>, ix: seq<nat>, s: Settings, t: Settings)
    requires t == s.(field := t.field, descending := t.descending)
    ensures Arrived(es, t) == Arrived(es, s)
    ensures Complete(es, s, ix) ==> Complete(es, t, ix)
  {
    SameMatches(es, s, t);
  }

  lemma {:induction false} SameMatches(es: seq<Entry>, s: Settings, t: Settings)
    requires t == s.(field := t.field, descending := t.descending)
    ensures Matching(es, t, 0) == Matching(es, s, 0)
    decreases |es|
  {
    hide Contains, Group;
    if es != [] {
      SameMatches(es[..|es| - 1], s, t);
    }
  }
}
