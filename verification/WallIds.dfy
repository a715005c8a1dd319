/** Exactness of the two brick tables: each names every brick of its wall's range
    once, and together they name 1..226. Kept apart from the tables themselves so
    the solver does not meet the table constants' definitions while it works
    with these whole-table facts. */
module WallIds {
  import opened SeqFacts
  import opened WallTables

  /** The west table names every brick 1..123 exactly once. */
  lemma WestIdsExact()
    ensures Distinct(Ids(West))
    ensures Elems(Ids(West)) == Span(1, WestBricks)
  {
    WestNamesAll();
    WestEntriesInRange();
    IdsCover(West, 1, WestBricks);
  }

  /** The east table names every brick 124..226 exactly once. */
  lemma EastIdsExact()
    ensures Distinct(Ids(East))
    ensures Elems(Ids(East)) == Span(WestBricks + 1, NumBricks)
  {
    EastNamesAll();
    EastEntriesInRange();
    IdsCover(East, WestBricks + 1, NumBricks);
  }

  lemma IdsCover(table: seq<Cell>, lo: int, hi: int)
    requires |table| == hi - lo + 1
    requires HoldsWithin(table, lo, hi) && NamesEvery(table, lo, hi)
    ensures Distinct(Ids(table))
    ensures Elems(Ids(table)) == Span(lo, hi)
  {
    var ids := Ids(table);
    forall x | x in ids ensures lo <= x <= hi {
      var i :| 0 <= i < |ids| && ids[i] == x;
      assert table[i] in table;
    }
    forall k | lo <= k <= hi ensures k in ids {
      assert Names(table, k);
      var c :| c in table && c.brick == k;
      var i :| 0 <= i < |table| && table[i] == c;
      assert ids[i] == k;
    }
    CoveringIsDistinct(ids, lo, hi);
  }

  /** Together the walls name every brick 1..226 exactly once, so the allocation
      screen's list of bricks is a permutation of the location numbers. */
  lemma AllBricksExact()
    ensures |AllBricks()| == NumBricks
    ensures Distinct(AllBricks())
    ensures forall k :: k in AllBricks() <==> 1 <= k <= NumBricks
  {
    WestIdsExact();
    EastIdsExact();
    SpanCard(1, WestBricks);
    SpanCard(WestBricks + 1, NumBricks);
    JoinSpans(Ids(East), Ids(West), 1, WestBricks, NumBricks);
  }
}
