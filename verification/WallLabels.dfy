/** Label uniqueness of the two brick tables. Each table is an object literal
    keyed by label, so no label can name two bricks; here that is proved of the
    tables as written, row by row, so that looking a label up finds its brick. */
module WallLabels {
  import opened Wrappers
  import opened WallTables

  /** Every entry of `table` lies on the row with index `r`, and no two share a column. */
  predicate RowUnique(table: seq<Cell>, r: int)
  {
    UniqueLabels(table) && forall c :: c in table ==> RowIndex(c.row) == r
  }

  /** Every entry of `table` lies on a row with index in `lo..hi`. */
  predicate RowsWithin(table: seq<Cell>, lo: int, hi: int)
  {
    forall c :: c in table ==> lo <= RowIndex(c.row) <= hi
  }

  /** Two tables with unique labels on disjoint row ranges have unique labels together. */
  lemma JoinUnique(s: seq<Cell>, t: seq<Cell>, lo: int, mid: int, hi: int)
    requires UniqueLabels(s) && RowsWithin(s, lo, mid)
    requires RowUnique(t, hi) && lo <= mid < hi
    ensures UniqueLabels(s + t) && RowsWithin(s + t, lo, hi)
  {
    forall x | x in s + t ensures lo <= RowIndex(x.row) <= hi {
      if x in s {
        assert lo <= RowIndex(x.row) <= mid;
      } else {
        assert x in t;
      }
    }
    forall a, b | a in s + t && b in s + t && a.row == b.row && a.col == b.col ensures a == b {
      assert (a in s || a in t) && (b in s || b in t);
    }
  }

  /** Every entry of `row` lies on row `ch`. */
  predicate OnRow(row: seq<Cell>, ch: char)
  {
    forall i :: 0 <= i < |row| ==> row[i].row == ch
  }

  /** The entries of `row` are written left to right. */
  predicate ColsRise(row: seq<Cell>)
  {
    forall i :: 0 <= i < |row| - 1 ==> row[i].col < row[i + 1].col
  }

  lemma {:induction false} ColsChain(row: seq<Cell>, i: int, j: int)
    requires ColsRise(row)
    requires 0 <= i < j < |row|
    ensures row[i].col < row[j].col
    decreases j - i
  {
    if i + 1 < j {
      ColsChain(row, i + 1, j);
    }
  }

  /** An entry on the same row as `t` and in a column none of `t` uses keeps the
      row free of repeated columns. */
  lemma ConsUnique(x: Cell, t: seq<Cell>, r: int)
    requires RowUnique(t, r) && RowIndex(x.row) == r
    requires forall c :: c in t ==> c.col != x.col
    ensures RowUnique([x] + t, r)
  {
    assert forall c :: c in [x] + t ==> c == x || c in t;
  }

  /** A row written left to right has no repeated column. */
  lemma RisingUnique(row: seq<Cell>, ch: char)
    requires OnRow(row, ch) && ColsRise(row)
    ensures RowUnique(row, RowIndex(ch))
  {
    forall a, b | a in row && b in row && a.row == b.row && a.col == b.col ensures a == b {
      var i :| 0 <= i < |row| && row[i] == a;
      var j :| 0 <= j < |row| && row[j] == b;
      if i < j {
        ColsChain(row, i, j);
      } else if j < i {
        ColsChain(row, j, i);
      }
    }
  }

  /** Twelve rows, one per row index 0..11, each free of repeated columns, have
      unique labels together. */
  lemma UniqueRows(a: seq<Cell>, b: seq<Cell>, c: seq<Cell>, d: seq<Cell>, e: seq<Cell>, f: seq<Cell>,
                   g: seq<Cell>, h: seq<Cell>, i: seq<Cell>, j: seq<Cell>, k: seq<Cell>, l: seq<Cell>)
    requires RowUnique(a, 0) && RowUnique(b, 1) && RowUnique(c, 2) && RowUnique(d, 3)
    requires RowUnique(e, 4) && RowUnique(f, 5) && RowUnique(g, 6) && RowUnique(h, 7)
    requires RowUnique(i, 8) && RowUnique(j, 9) && RowUnique(k, 10) && RowUnique(l, 11)
    ensures UniqueLabels(a + b + c + d + e + f + g + h + i + j + k + l)
  {
    JoinUnique(a, b, 0, 0, 1);
    JoinUnique(a + b, c, 0, 1, 2);
    JoinUnique(a + b + c, d, 0, 2, 3);
    JoinUnique(a + b + c + d, e, 0, 3, 4);
    JoinUnique(a + b + c + d + e, f, 0, 4, 5);
    JoinUnique(a + b + c + d + e + f, g, 0, 5, 6);
    JoinUnique(a + b + c + d + e + f + g, h, 0, 6, 7);
    JoinUnique(a + b + c + d + e + f + g + h, i, 0, 7, 8);
    JoinUnique(a + b + c + d + e + f + g + h + i, j, 0, 8, 9);
    JoinUnique(a + b + c + d + e + f + g + h + i + j, k, 0, 9, 10);
    JoinUnique(a + b + c + d + e + f + g + h + i + j + k, l, 0, 10, 11);
  }

  lemma WestRowAUnique()
    ensures RowUnique(WestA, 0)
  {
    assert OnRow(WestA, 'A') && ColsRise(WestA);
    RisingUnique(WestA, 'A');
  }

  lemma WestRowBUnique()
    ensures RowUnique(WestB, 1)
  {
    assert OnRow(WestB, 'B') && ColsRise(WestB);
    RisingUnique(WestB, 'B');
  }

  lemma WestRowCUnique()
    ensures RowUnique(WestC, 2)
  {
    assert OnRow(WestC, 'C') && ColsRise(WestC);
    RisingUnique(WestC, 'C');
  }

  lemma WestRowDUnique()
    ensures RowUnique(WestD, 3)
  {
    assert OnRow(WestD, 'D') && ColsRise(WestD);
    RisingUnique(WestD, 'D');
  }

  lemma WestRowEUnique()
    ensures RowUnique(WestE, 4)
  {
    assert OnRow(WestE, 'E') && ColsRise(WestE);
    RisingUnique(WestE, 'E');
  }

  lemma WestRowFUnique()
    ensures RowUnique(WestF, 5)
  {
    assert OnRow(WestF, 'F') && ColsRise(WestF);
    RisingUnique(WestF, 'F');
  }

  lemma WestRowGUnique()
    ensures RowUnique(WestG, 6)
  {
    assert OnRow(WestG, 'G') && ColsRise(WestG);
    RisingUnique(WestG, 'G');
  }

  lemma WestRowHUnique()
    ensures RowUnique(WestH, 7)
  {
    assert OnRow(WestH, 'H') && ColsRise(WestH);
    RisingUnique(WestH, 'H');
  }

  /** Row I of the west wall after its first entry `I10`. */
  const WestIRest: seq<Cell> := [Cell('I', 2, 33), Cell('I', 13, 39), Cell('I', 15, 49), Cell('I', 16, 56), Cell('I', 18, 70), Cell('I', 19, 76), Cell('I', 22, 95), Cell('I', 23, 101), Cell('I', 25, 114), Cell('I', 26, 122)]

  lemma WestISplit()
    ensures WestI == [Cell('I', 10, 25)] + WestIRest
  {
  }

  /** The rest of row I is written left to right from column 2 and never uses
      column 10. */
  lemma WestIRestRises()
    ensures OnRow(WestIRest, 'I') && ColsRise(WestIRest)
    ensures forall c :: c in WestIRest ==> c.col != 10
  {
  }

  /** Row I of the west wall is written out of order (`I10` before `I2`), but its
      columns are still all different. */
  lemma WestRowIUnique()
    ensures RowUnique(WestI, 8)
  {
    WestIRestRises();
    RisingUnique(WestIRest, 'I');
    ConsUnique(Cell('I', 10, 25), WestIRest, 8);
    WestISplit();
  }

  lemma WestRowJUnique()
    ensures RowUnique(WestJ, 9)
  {
    assert OnRow(WestJ, 'J') && ColsRise(WestJ);
    RisingUnique(WestJ, 'J');
  }

  lemma WestRowKUnique()
    ensures RowUnique(WestK, 10)
  {
    assert OnRow(WestK, 'K') && ColsRise(WestK);
    RisingUnique(WestK, 'K');
  }

  lemma WestRowLUnique()
    ensures RowUnique(WestL, 11)
  {
    assert OnRow(WestL, 'L') && ColsRise(WestL);
    RisingUnique(WestL, 'L');
  }

  lemma EastRowAUnique()
    ensures RowUnique(EastA, 0)
  {
    assert OnRow(EastA, 'A') && ColsRise(EastA);
    RisingUnique(EastA, 'A');
  }

  lemma EastRowBUnique()
    ensures RowUnique(EastB, 1)
  {
    assert OnRow(EastB, 'B') && ColsRise(EastB);
    RisingUnique(EastB, 'B');
  }

  lemma EastRowCUnique()
    ensures RowUnique(EastC, 2)
  {
    assert OnRow(EastC, 'C') && ColsRise(EastC);
    RisingUnique(EastC, 'C');
  }

  lemma EastRowDUnique()
    ensures RowUnique(EastD, 3)
  {
    assert OnRow(EastD, 'D') && ColsRise(EastD);
    RisingUnique(EastD, 'D');
  }

  lemma EastRowEUnique()
    ensures RowUnique(EastE, 4)
  {
    assert OnRow(EastE, 'E') && ColsRise(EastE);
    RisingUnique(EastE, 'E');
  }

  lemma EastRowFUnique()
    ensures RowUnique(EastF, 5)
  {
    assert OnRow(EastF, 'F') && ColsRise(EastF);
    RisingUnique(EastF, 'F');
  }

  lemma EastRowGUnique()
    ensures RowUnique(EastG, 6)
  {
    assert OnRow(EastG, 'G') && ColsRise(EastG);
    RisingUnique(EastG, 'G');
  }

  lemma EastRowHUnique()
    ensures RowUnique(EastH, 7)
  {
    assert OnRow(EastH, 'H') && ColsRise(EastH);
    RisingUnique(EastH, 'H');
  }

  lemma EastRowIUnique()
    ensures RowUnique(EastI, 8)
  {
    assert OnRow(EastI, 'I') && ColsRise(EastI);
    RisingUnique(EastI, 'I');
  }

  lemma EastRowJUnique()
    ensures RowUnique(EastJ, 9)
  {
    assert OnRow(EastJ, 'J') && ColsRise(EastJ);
    RisingUnique(EastJ, 'J');
  }

  lemma EastRowKUnique()
    ensures RowUnique(EastK, 10)
  {
    assert OnRow(EastK, 'K') && ColsRise(EastK);
    RisingUnique(EastK, 'K');
  }

  lemma EastRowLUnique()
    ensures RowUnique(EastL, 11)
  {
    assert OnRow(EastL, 'L') && ColsRise(EastL);
    RisingUnique(EastL, 'L');
  }

  /** No label of the west table names two bricks. */
  lemma WestLabelsUnique()
    ensures UniqueLabels(West)
  {
    WestRowAUnique(); WestRowBUnique(); WestRowCUnique(); WestRowDUnique(); WestRowEUnique(); WestRowFUnique();
    WestRowGUnique(); WestRowHUnique(); WestRowIUnique(); WestRowJUnique(); WestRowKUnique(); WestRowLUnique();
    UniqueRows(WestA, WestB, WestC, WestD, WestE, WestF, WestG, WestH, WestI, WestJ, WestK, WestL);
  }

  /** No label of the east table names two bricks. */
  lemma EastLabelsUnique()
    ensures UniqueLabels(East)
  {
    EastRowAUnique(); EastRowBUnique(); EastRowCUnique(); EastRowDUnique(); EastRowEUnique(); EastRowFUnique();
    EastRowGUnique(); EastRowHUnique(); EastRowIUnique(); EastRowJUnique(); EastRowKUnique(); EastRowLUnique();
    UniqueRows(EastA, EastB, EastC, EastD, EastE, EastF, EastG, EastH, EastI, EastJ, EastK, EastL);
  }

  /** Looking up a west entry's own label finds that entry's brick. */
  lemma WestLookup(c: Cell)
    requires c in West
    ensures Lookup(West, RowIndex(c.row), c.col) == Some(c.brick)
  {
    WestLabelsUnique();
    LookupEntry(West, c);
  }

  /** Looking up an east entry's own label finds that entry's brick. */
  lemma EastLookup(c: Cell)
    requires c in East
    ensures Lookup(East, RowIndex(c.row), c.col) == Some(c.brick)
  {
    EastLabelsUnique();
    LookupEntry(East, c);
  }
}
