/** Rows arranged by a level of 0, 1 or 2, each level keeping the order its rows came in. */
module StableGrouping {

  type Level = x: int | 0 <= x <= 2

  predicate Within(gs: seq<Level>, ix: seq<nat>) {
    forall k | 0 <= k < |ix| :: ix[k] < |gs|
  }

  function OfGroup(gs: seq<Level>, ix: seq<nat>, g: nat): (r: seq<nat>)
    requires Within(gs, ix)
    ensures forall k | 0 <= k < |r| :: r[k] < |gs| && gs[r[k]] == g
    ensures |r| <= |ix|
  {
    if ix == [] then []
    else
      var n := |ix| - 1;
      OfGroup(gs, ix[..n], g) + if gs[ix[n]] == g then [ix[n]] else []
  }

  lemma {:induction false} OfGroupMembers(gs: seq<Level>, ix: seq<nat>, g: nat)
    requires Within(gs, ix)
    ensures forall i :: i in OfGroup(gs, ix, g) <==> i in ix && gs[i] == g
  {
    if ix != [] {
      OfGroupMembers(gs, ix[..|ix| - 1], g);
    }
  }

  /** Level by level, each in the order its rows came in. */
  function Grouped(gs: seq<Level>, ix: seq<nat>): (r: seq<nat>)
    requires Within(gs, ix)
    ensures Within(gs, r)
  {
    OfGroup(gs, ix, 0) + OfGroup(gs, ix, 1) + OfGroup(gs, ix, 2)
  }

  predicate GroupsRise(gs: seq<Level>, ix: seq<nat>)
    requires Within(gs, ix)
  {
    forall j, k | 0 <= j < k < |ix| :: gs[ix[j]] <= gs[ix[k]]
  }

  lemma {:induction false} OfGroupConcat(gs: seq<Level>, a: seq<nat>, b: seq<nat>, g: nat)
    requires Within(gs, a) && Within(gs, b)
    ensures OfGroup(gs, a + b, g) == OfGroup(gs, a, g) + OfGroup(gs, b, g)
  {
    if b == [] {
      assert a + b == a;
    } else {
      var n := |b| - 1;
      assert (a + b)[..|a + b| - 1] == a + b[..n];
      OfGroupConcat(gs, a, b[..n], g);
    }
  }

  /** Later entries do not change how earlier ones are grouped. */
  lemma {:induction false} OfGroupExtends(gs: seq<Level>, later: seq<Level>, ix: seq<nat>, g: nat)
    requires Within(gs, ix)
    ensures Within(gs + later, ix) && OfGroup(gs + later, ix, g) == OfGroup(gs, ix, g)
  {
    if ix != [] {
      OfGroupExtends(gs, later, ix[..|ix| - 1], g);
    }
  }

  lemma UnfoldGroup(gs: seq<Level>, ix: seq<nat>, g: nat)
    requires Within(gs, ix) && ix != []
    ensures OfGroup(gs, ix, g)
         == OfGroup(gs, ix[..|ix| - 1], g) + if gs[ix[|ix| - 1]] == g then [ix[|ix| - 1]] else []
  {
  }

  lemma FrontIsSame(gs: seq<Level>, ix: seq<nat>, g: nat)
    requires Within(gs, ix) && ix != [] && forall k | 0 <= k < |ix| :: gs[ix[k]] == g
    ensures var before := ix[..|ix| - 1];
      Within(gs, before) && (forall k | 0 <= k < |before| :: gs[before[k]] == g) && ix == before + [ix[|ix| - 1]]
    ensures gs[ix[|ix| - 1]] == g
  {
  }

  lemma {:induction false} OneGroup(gs: seq<Level>, ix: seq<nat>, g: nat, h: nat)
    requires Within(gs, ix) && forall k | 0 <= k < |ix| :: gs[ix[k]] == g
    ensures OfGroup(gs, ix, h) == if g == h then ix else []
  {
    if ix != [] {
      hide *;
      FrontIsSame(gs, ix, g);
      UnfoldGroup(gs, ix, h);
      OneGroup(gs, ix[..|ix| - 1], g, h);
    }
  }

  /** Grouping is stable: it keeps the order within each group. */
  lemma GroupedKeepsGroups(gs: seq<Level>, ix: seq<nat>, g: nat)
    requires Within(gs, ix) && g <= 2
    ensures OfGroup(gs, Grouped(gs, ix), g) == OfGroup(gs, ix, g)
  {
    hide OfGroup;
    var a, b, c := OfGroup(gs, ix, 0), OfGroup(gs, ix, 1), OfGroup(gs, ix, 2);
    OfGroupConcat(gs, a + b, c, g);
    OfGroupConcat(gs, a, b, g);
    OneGroup(gs, a, 0, g);
    OneGroup(gs, b, 1, g);
    OneGroup(gs, c, 2, g);
  }

  lemma GroupedRises(gs: seq<Level>, ix: seq<nat>)
    requires Within(gs, ix)
    ensures GroupsRise(gs, Grouped(gs, ix))
  {
  }

  /** Grouping a grouped beginning again only sorts in what follows it. */
  lemma GroupedThenMore(gs: seq<Level>, ix: seq<nat>, more: seq<nat>)
    requires Within(gs, ix) && Within(gs, more)
    ensures Grouped(gs, Grouped(gs, ix) + more) == Grouped(gs, ix + more)
  {
    forall g: nat | g <= 2
      ensures OfGroup(gs, Grouped(gs, ix) + more, g) == OfGroup(gs, ix + more, g)
    {
      OfGroupConcat(gs, Grouped(gs, ix), more, g);
      OfGroupConcat(gs, ix, more, g);
      GroupedKeepsGroups(gs, ix, g);
    }
  }

  lemma {:induction false} RisingIsGrouped(gs: seq<Level>, ix: seq<nat>)
    requires Within(gs, ix) && GroupsRise(gs, ix)
    ensures Grouped(gs, ix) == ix
  {
    if ix != [] {
      var n := |ix| - 1;
      RisingIsGrouped(gs, ix[..n]);
      LastRow(gs, ix, gs[ix[n]]);
      assert ix == ix[..n] + [ix[n]];
    }
  }

  lemma LastRow(gs: seq<Level>, ix: seq<nat>, last: Level)
    requires Within(gs, ix) && GroupsRise(gs, ix) && ix != [] && last == gs[ix[|ix| - 1]]
    ensures Grouped(gs, ix) == Grouped(gs, ix[..|ix| - 1]) + [ix[|ix| - 1]]
  {
    var n := |ix| - 1;
    UnfoldGroup(gs, ix, 0);
    UnfoldGroup(gs, ix, 1);
    UnfoldGroup(gs, ix, 2);
    var before, x := ix[..n], [ix[n]];
    assert forall k | 0 <= k < n :: gs[before[k]] <= last;
    var a, b, c := OfGroup(gs, before, 0), OfGroup(gs, before, 1), OfGroup(gs, before, 2);
    assert Grouped(gs, before) == a + b + c;
    assert Grouped(gs, ix) == (a + if last == 0 then x else []) + (b + if last == 1 then x else [])
                              + (c + if last == 2 then x else []);
    hide *;
    if last <= 1 {
      NoneAbove(gs, before, 2);
    }
    if last == 0 {
      NoneAbove(gs, before, 1);
    }
    Slots(a, b, c, x);
  }

  /** Where something new goes when the slots behind it are empty. */
  lemma Slots(a: seq<nat>, b: seq<nat>, c: seq<nat>, x: seq<nat>)
    ensures (a + []) + (b + []) + (c + x) == a + b + c + x
    ensures c == [] ==> (a + []) + (b + x) + (c + []) == a + b + c + x
    ensures b == [] && c == [] ==> (a + x) + (b + []) + (c + []) == a + b + c + x
  {
  }

  lemma {:induction false} NoneAbove(gs: seq<Level>, ix: seq<nat>, g: nat)
    requires Within(gs, ix) && forall k | 0 <= k < |ix| :: gs[ix[k]] != g
    ensures OfGroup(gs, ix, g) == []
  {
    if ix != [] {
      NoneAbove(gs, ix[..|ix| - 1], g);
    }
  }

  /** New rows keep the old ones a beginning exactly when none belongs to a group before the last. */
  lemma PrefixStays(gs: seq<Level>, rows: seq<nat>, more: seq<nat>)
    requires Within(gs, rows) && Within(gs, more) && GroupsRise(gs, rows)
    requires forall i | i in more :: i !in rows
    ensures rows <= Grouped(gs, rows + more)
       <==> rows == [] || forall i | i in more :: gs[i] >= gs[rows[|rows| - 1]]
  {
    RisingIsGrouped(gs, rows);
    if rows != [] {
      var last := gs[rows[|rows| - 1]];
      assert forall i | i in rows :: gs[i] <= last;
      hide OfGroup, Grouped, GroupsRise;
      if forall i | i in more :: gs[i] >= last {
        LaterGroupsOnly(gs, rows, more, last);
      } else {
        var i :| i in more && gs[i] < last;
        Intrusion(gs, rows, more, i);
      }
    }
  }

  /** A row of an earlier group than the last goes in front of it. */
  lemma Intrusion(gs: seq<Level>, rows: seq<nat>, more: seq<nat>, i: nat)
    requires Within(gs, rows) && Within(gs, more) && rows != [] && Grouped(gs, rows) == rows
    requires i in more && gs[i] < gs[rows[|rows| - 1]] && forall k | k in more :: k !in rows
    ensures !(rows <= Grouped(gs, rows + more))
  {
    hide OfGroup, Grouped;
    if j :| j in more && gs[j] == 0 {
      EarlierGroupIntrudes(gs, rows, more, 0, j);
    } else {
      assert forall k | 0 <= k < |more| :: more[k] in more;
      NoneAbove(gs, more, 0);
      EarlierGroupIntrudes(gs, rows, more, 1, i);
    }
  }

  lemma GroupedMore(gs: seq<Level>, rows: seq<nat>, more: seq<nat>)
    requires Within(gs, rows) && Within(gs, more)
    ensures Grouped(gs, rows + more)
         == OfGroup(gs, rows, 0) + OfGroup(gs, more, 0) + (OfGroup(gs, rows, 1) + OfGroup(gs, more, 1))
            + (OfGroup(gs, rows, 2) + OfGroup(gs, more, 2))
  {
    hide OfGroup;
    OfGroupConcat(gs, rows, more, 0);
    OfGroupConcat(gs, rows, more, 1);
    OfGroupConcat(gs, rows, more, 2);
  }

  lemma LaterGroupsOnly(gs: seq<Level>, rows: seq<nat>, more: seq<nat>, last: nat)
    requires Within(gs, rows) && Within(gs, more) && Grouped(gs, rows) == rows && last <= 2
    requires forall i | i in more :: gs[i] >= last
    requires forall i | i in rows :: gs[i] <= last
    ensures rows <= Grouped(gs, rows + more)
  {
    GroupedMore(gs, rows, more);
    assert rows == Grouped(gs, rows);
    assert (forall k | 0 <= k < |rows| :: rows[k] in rows) && forall k | 0 <= k < |more| :: more[k] in more;
    hide OfGroup;
    var a, b, c := OfGroup(gs, rows, 0), OfGroup(gs, rows, 1), OfGroup(gs, rows, 2);
    var x, y, z := OfGroup(gs, more, 0), OfGroup(gs, more, 1), OfGroup(gs, more, 2);
    assert rows == a + b + c;
    if last == 0 {
      NoneAbove(gs, rows, 1);
    } else {
      NoneAbove(gs, more, 0);
    }
    if last == 2 {
      NoneAbove(gs, more, 1);
    } else {
      NoneAbove(gs, rows, 2);
    }
    Beginning(a, b, c, x, y, z);
  }

  lemma Beginning(a: seq<nat>, b: seq<nat>, c: seq<nat>, x: seq<nat>, y: seq<nat>, z: seq<nat>)
    requires (b == [] && c == []) || (x == [] && c == []) || (x == [] && y == [])
    ensures a + b + c <= (a + x) + (b + y) + (c + z)
  {
    if x == [] && y == [] {
      assert a + x == a && b + y == b;
      assert a + b + (c + z) == (a + b + c) + z;
    } else if x == [] {
      assert a + x == a;
      assert a + (b + y) + (c + z) == (a + b) + (y + (c + z));
    } else {
      assert (a + x) + (b + y) + (c + z) == a + (x + (b + y) + (c + z));
    }
  }

  lemma EarlierGroupIntrudes(gs: seq<Level>, rows: seq<nat>, more: seq<nat>, g: nat, i: nat)
    requires Within(gs, rows) && Within(gs, more) && rows != []
    requires Grouped(gs, rows) == rows && (g == 0 || (g == 1 && OfGroup(gs, more, 0) == []))
    requires i in more && gs[i] == g < gs[rows[|rows| - 1]]
    requires forall k | k in more :: k !in rows
    ensures !(rows <= Grouped(gs, rows + more))
  {
    hide OfGroup;
    GroupedMore(gs, rows, more);
    var last := rows[|rows| - 1];
    var a, b, c := OfGroup(gs, rows, 0), OfGroup(gs, rows, 1), OfGroup(gs, rows, 2);
    var news := OfGroup(gs, more, g);
    OfGroupMembers(gs, more, g);
    OfGroupMembers(gs, rows, gs[last]);
    assert i in news && news[0] in news && last in OfGroup(gs, rows, gs[last]);
    var before := if g == 0 then a else a + b;
    assert rows == a + b + c && |before| < |rows|;
    assert Grouped(gs, rows + more)[|before|] == news[0];
    assert rows[|before|] in rows;
  }
}
