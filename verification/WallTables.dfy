/** The two brick tables of the installation: each maps a cell label (row letter
    A-L, column number) to the id of the brick mounted there. A label missing from
    a table is a gap in the wall. The west wall spans columns 1-26 and holds bricks
    1-123; the east wall spans columns 27-47 and holds bricks 124-226. Bricks are
    numbered column by column, top to bottom within a column, with one entry out of
    that order: west `I2`, which holds brick 33 between `H12` (32) and `J12` (34). */
module WallTables {
  import opened Wrappers
  import opened SeqFacts

  /** One table entry: the cell label and the brick id. The tables store the id as a
      zero-padded string such as "011"; every consumer converts it with `Number` or
      `parseInt`, and a non-empty string is always truthy, so the model keeps the number. */
  datatype Cell = Cell(row: char, col: int, brick: int)

  /** The extent of a wall: an inclusive column range and a half-open range of row
      indices counted from row letter 'A'. */
  datatype WallSize = WallSize(colFirst: int, colLast: int, rowStart: int, rowEnd: int)

  const RowStart: int := 0
  const RowHeight: int := 12
  const WestSize: WallSize := WallSize(1, 26, RowStart, RowHeight)
  const EastSize: WallSize := WallSize(27, 47, RowStart, RowHeight)

  /** Number of bricks on the west wall; the east wall continues from the next id. */
  const WestBricks: int := 123
  /** Number of bricks on both walls, the backend's `NUM_BRICKS`. */
  const NumBricks: int := 226

  /** The west entry `I2`, numbered as if it stood in column 12. */
  const OutOfOrder: Cell := Cell('I', 2, 33)

  /** The index of a row letter, counted from 'A'. */
  function RowIndex(row: char): int
  {
    row as int - 'A' as int
  }

  /** A cell lies on a wall when its row and column fall inside the wall's ranges. */
  predicate OnWall(size: WallSize, c: Cell)
  {
    size.rowStart <= RowIndex(c.row) < size.rowEnd && size.colFirst <= c.col <= size.colLast
  }

  /** Some entry of `table` holds brick `k`. */
  predicate Names(table: seq<Cell>, k: int)
  {
    exists c :: c in table && c.brick == k
  }

  /** Every brick `lo..hi` is held by some entry of `table`. */
  predicate NamesEvery(table: seq<Cell>, lo: int, hi: int)
  {
    forall k :: lo <= k <= hi ==> Names(table, k)
  }

  /** Every entry of `table` holds a brick in `lo..hi`. */
  predicate HoldsWithin(table: seq<Cell>, lo: int, hi: int)
  {
    forall c :: c in table ==> lo <= c.brick <= hi
  }

  /** Every entry of `table` lies on the wall of `size` and holds a brick in `lo..hi`. */
  predicate Placed(table: seq<Cell>, size: WallSize, lo: int, hi: int)
  {
    forall c :: c in table ==> OnWall(size, c) && lo <= c.brick <= hi
  }

  lemma PlacedWithin(t: seq<Cell>, size: WallSize, lo: int, hi: int)
    requires Placed(t, size, lo, hi)
    ensures HoldsWithin(t, lo, hi)
  {
  }

  /** Twelve rows that each lie on the wall lie on it together. */
  lemma PlacedRows(a: seq<Cell>, b: seq<Cell>, c: seq<Cell>, d: seq<Cell>, e: seq<Cell>, f: seq<Cell>,
                   g: seq<Cell>, h: seq<Cell>, i: seq<Cell>, j: seq<Cell>, k: seq<Cell>, l: seq<Cell>,
                   size: WallSize, lo: int, hi: int)
    requires Placed(a, size, lo, hi) && Placed(b, size, lo, hi) && Placed(c, size, lo, hi)
    requires Placed(d, size, lo, hi) && Placed(e, size, lo, hi) && Placed(f, size, lo, hi)
    requires Placed(g, size, lo, hi) && Placed(h, size, lo, hi) && Placed(i, size, lo, hi)
    requires Placed(j, size, lo, hi) && Placed(k, size, lo, hi) && Placed(l, size, lo, hi)
    ensures Placed(a + b + c + d + e + f + g + h + i + j + k + l, size, lo, hi)
  {
  }

  /** No two entries share a label, as in the object literal the tables are written as. */
  predicate UniqueLabels(table: seq<Cell>)
  {
    forall a, b :: a in table && b in table && a.row == b.row && a.col == b.col ==> a == b
  }

  // West wall, one constant per row, entries in the order they are written.
  const WestA: seq<Cell> := [Cell('A', 5, 11), Cell('A', 11, 27), Cell('A', 15, 44), Cell('A', 16, 52), Cell('A', 18, 65), Cell('A', 22, 90), Cell('A', 25, 109)]
  const WestB: seq<Cell> := [Cell('B', 7, 16), Cell('B', 11, 28), Cell('B', 13, 36), Cell('B', 15, 45), Cell('B', 17, 59), Cell('B', 18, 66), Cell('B', 20, 79), Cell('B', 21, 83), Cell('B', 22, 91), Cell('B', 24, 103), Cell('B', 26, 117)]
  const WestC: seq<Cell> := [Cell('C', 4, 7), Cell('C', 5, 12), Cell('C', 10, 23), Cell('C', 12, 30), Cell('C', 13, 37), Cell('C', 16, 53), Cell('C', 21, 84), Cell('C', 23, 97), Cell('C', 24, 104), Cell('C', 25, 110)]
  const WestD: seq<Cell> := [Cell('D', 7, 17), Cell('D', 10, 24), Cell('D', 13, 38), Cell('D', 17, 60), Cell('D', 18, 67), Cell('D', 19, 73), Cell('D', 23, 98), Cell('D', 26, 118)]
  const WestE: seq<Cell> := [Cell('E', 2, 2), Cell('E', 3, 5), Cell('E', 8, 19), Cell('E', 15, 46), Cell('E', 17, 61), Cell('E', 19, 74), Cell('E', 20, 80), Cell('E', 21, 85), Cell('E', 22, 92), Cell('E', 24, 105), Cell('E', 25, 111), Cell('E', 26, 119)]
  const WestF: seq<Cell> := [Cell('F', 6, 14), Cell('F', 9, 21), Cell('F', 12, 31), Cell('F', 14, 40), Cell('F', 15, 47), Cell('F', 16, 54), Cell('F', 18, 68), Cell('F', 19, 75), Cell('F', 21, 86), Cell('F', 23, 99), Cell('F', 24, 106), Cell('F', 25, 112), Cell('F', 26, 120)]
  const WestG: seq<Cell> := [Cell('G', 1, 1), Cell('G', 3, 6), Cell('G', 4, 8), Cell('G', 7, 18), Cell('G', 11, 29), Cell('G', 14, 41), Cell('G', 16, 55), Cell('G', 17, 62), Cell('G', 18, 69), Cell('G', 20, 81), Cell('G', 22, 93), Cell('G', 25, 113)]
  const WestH: seq<Cell> := [Cell('H', 2, 3), Cell('H', 4, 9), Cell('H', 8, 20), Cell('H', 12, 32), Cell('H', 15, 48), Cell('H', 17, 63), Cell('H', 21, 87), Cell('H', 22, 94), Cell('H', 23, 100), Cell('H', 26, 121)]
  const WestI: seq<Cell> := [Cell('I', 10, 25), Cell('I', 2, 33), Cell('I', 13, 39), Cell('I', 15, 49), Cell('I', 16, 56), Cell('I', 18, 70), Cell('I', 19, 76), Cell('I', 22, 95), Cell('I', 23, 101), Cell('I', 25, 114), Cell('I', 26, 122)]
  const WestJ: seq<Cell> := [Cell('J', 6, 15), Cell('J', 12, 34), Cell('J', 14, 42), Cell('J', 17, 64), Cell('J', 18, 71), Cell('J', 20, 82), Cell('J', 24, 107), Cell('J', 25, 115)]
  const WestK: seq<Cell> := [Cell('K', 2, 4), Cell('K', 4, 10), Cell('K', 10, 26), Cell('K', 15, 50), Cell('K', 16, 57), Cell('K', 18, 72), Cell('K', 19, 77), Cell('K', 21, 88), Cell('K', 23, 102), Cell('K', 26, 123)]
  const WestL: seq<Cell> := [Cell('L', 5, 13), Cell('L', 9, 22), Cell('L', 12, 35), Cell('L', 14, 43), Cell('L', 15, 51), Cell('L', 16, 58), Cell('L', 19, 78), Cell('L', 21, 89), Cell('L', 22, 96), Cell('L', 24, 108), Cell('L', 25, 116)]

  /** The whole west table, in the order the entries are written. */
  const West: seq<Cell> :=
    WestA + WestB + WestC + WestD + WestE + WestF + WestG + WestH + WestI + WestJ + WestK + WestL
  // East wall, one constant per row, entries in the order they are written.
  const EastA: seq<Cell> := [Cell('A', 28, 126), Cell('A', 30, 137), Cell('A', 31, 144), Cell('A', 33, 159), Cell('A', 35, 172), Cell('A', 38, 190), Cell('A', 42, 210)]
  const EastB: seq<Cell> := [Cell('B', 27, 124), Cell('B', 29, 130), Cell('B', 31, 145), Cell('B', 33, 160), Cell('B', 36, 178), Cell('B', 39, 195), Cell('B', 45, 221)]
  const EastC: seq<Cell> := [Cell('C', 28, 127), Cell('C', 29, 131), Cell('C', 31, 146), Cell('C', 32, 152), Cell('C', 34, 165), Cell('C', 37, 185), Cell('C', 40, 201), Cell('C', 43, 215)]
  const EastD: seq<Cell> := [Cell('D', 28, 128), Cell('D', 30, 138), Cell('D', 32, 153), Cell('D', 34, 166), Cell('D', 35, 173), Cell('D', 37, 186), Cell('D', 39, 196), Cell('D', 41, 206), Cell('D', 44, 216)]
  const EastE: seq<Cell> := [Cell('E', 29, 132), Cell('E', 30, 139), Cell('E', 31, 147), Cell('E', 33, 161), Cell('E', 36, 179), Cell('E', 40, 202), Cell('E', 45, 222)]
  const EastF: seq<Cell> := [Cell('F', 27, 125), Cell('F', 30, 140), Cell('F', 31, 148), Cell('F', 33, 162), Cell('F', 34, 167), Cell('F', 35, 174), Cell('F', 36, 180), Cell('F', 38, 191), Cell('F', 39, 197), Cell('F', 42, 211)]
  const EastG: seq<Cell> := [Cell('G', 29, 133), Cell('G', 32, 154), Cell('G', 34, 168), Cell('G', 36, 181), Cell('G', 38, 192), Cell('G', 40, 203), Cell('G', 44, 217)]
  const EastH: seq<Cell> := [Cell('H', 28, 129), Cell('H', 30, 141), Cell('H', 32, 155), Cell('H', 34, 169), Cell('H', 35, 175), Cell('H', 37, 187), Cell('H', 40, 204), Cell('H', 42, 212), Cell('H', 46, 224)]
  const EastI: seq<Cell> := [Cell('I', 29, 134), Cell('I', 30, 142), Cell('I', 31, 149), Cell('I', 32, 156), Cell('I', 35, 176), Cell('I', 36, 182), Cell('I', 39, 198), Cell('I', 41, 207), Cell('I', 42, 213), Cell('I', 44, 218), Cell('I', 47, 225)]
  const EastJ: seq<Cell> := [Cell('J', 29, 135), Cell('J', 31, 150), Cell('J', 33, 163), Cell('J', 34, 170), Cell('J', 36, 183), Cell('J', 37, 188), Cell('J', 39, 199), Cell('J', 41, 208), Cell('J', 44, 219), Cell('J', 45, 223)]
  const EastK: seq<Cell> := [Cell('K', 30, 143), Cell('K', 32, 157), Cell('K', 34, 171), Cell('K', 35, 177), Cell('K', 37, 189), Cell('K', 38, 193), Cell('K', 40, 205), Cell('K', 42, 214), Cell('K', 47, 226)]
  const EastL: seq<Cell> := [Cell('L', 29, 136), Cell('L', 31, 151), Cell('L', 32, 158), Cell('L', 33, 164), Cell('L', 36, 184), Cell('L', 38, 194), Cell('L', 39, 200), Cell('L', 41, 209), Cell('L', 44, 220)]

  /** The whole east table, in the order the entries are written. */
  const East: seq<Cell> :=
    EastA + EastB + EastC + EastD + EastE + EastF + EastG + EastH + EastI + EastJ + EastK + EastL
  /** The brick ids of a table, in table order (`Object.values`). */
  function Ids(table: seq<Cell>): (r: seq<int>)
    ensures |r| == |table|
    ensures forall i :: 0 <= i < |table| ==> r[i] == table[i].brick
  {
    seq(|table|, i requires 0 <= i < |table| => table[i].brick)
  }

  /** Every brick id of both walls, east wall first, as the allocation screen
      gathers them. */
  function AllBricks(): seq<int>
  {
    Ids(East) + Ids(West)
  }

  /** The brick stored under the label with row index `row` and column `col`, or
      None when that label is a gap. */
  function Lookup(table: seq<Cell>, row: int, col: int): (r: Option<int>)
    ensures r.Some? ==> exists c :: c in table && RowIndex(c.row) == row && c.col == col && c.brick == r.value
    ensures r.None? ==> forall c :: c in table ==> RowIndex(c.row) != row || c.col != col
  {
    if table == [] then None
    else if RowIndex(table[0].row) == row && table[0].col == col then Some(table[0].brick)
    else Lookup(table[1..], row, col)
  }

  /** With unique labels, looking up an entry's own label finds that entry's brick. */
  lemma LookupEntry(table: seq<Cell>, c: Cell)
    requires UniqueLabels(table)
    requires c in table
    ensures Lookup(table, RowIndex(c.row), c.col) == Some(c.brick)
  {
  }

  /** A cell on the west wall lies on rows A-L and columns 1-26 and holds a brick
      in 1..123. */
  lemma WestEntriesInRange()
    ensures |West| == WestBricks
    ensures Placed(West, WestSize, 1, WestBricks)
    ensures HoldsWithin(West, 1, WestBricks)
  {
    WestLength();
    WestRowAInRange(); WestRowBInRange(); WestRowCInRange(); WestRowDInRange(); WestRowEInRange(); WestRowFInRange(); WestRowGInRange(); WestRowHInRange(); WestRowIInRange(); WestRowJInRange(); WestRowKInRange(); WestRowLInRange();
    PlacedRows(WestA, WestB, WestC, WestD, WestE, WestF, WestG, WestH, WestI, WestJ, WestK, WestL,
               WestSize, 1, WestBricks);
    PlacedWithin(West, WestSize, 1, WestBricks);
  }

  lemma WestLength()
    ensures |West| == WestBricks
  {
  }

  /** A cell on the east wall lies on rows A-L and columns 27-47 and holds a brick
      in 124..226. */
  lemma EastEntriesInRange()
    ensures |East| == NumBricks - WestBricks
    ensures Placed(East, EastSize, WestBricks + 1, NumBricks)
    ensures HoldsWithin(East, WestBricks + 1, NumBricks)
  {
    EastLength();
    EastRowAInRange(); EastRowBInRange(); EastRowCInRange(); EastRowDInRange(); EastRowEInRange(); EastRowFInRange(); EastRowGInRange(); EastRowHInRange(); EastRowIInRange(); EastRowJInRange(); EastRowKInRange(); EastRowLInRange();
    PlacedRows(EastA, EastB, EastC, EastD, EastE, EastF, EastG, EastH, EastI, EastJ, EastK, EastL,
               EastSize, WestBricks + 1, NumBricks);
    PlacedWithin(East, EastSize, WestBricks + 1, NumBricks);
  }

  lemma EastLength()
    ensures |East| == NumBricks - WestBricks
  {
  }

  lemma WestRowAInRange()
    ensures Placed(WestA, WestSize, 1, WestBricks)
  {
  }

  lemma WestRowBInRange()
    ensures Placed(WestB, WestSize, 1, WestBricks)
  {
  }

  lemma WestRowCInRange()
    ensures Placed(WestC, WestSize, 1, WestBricks)
  {
  }

  lemma WestRowDInRange()
    ensures Placed(WestD, WestSize, 1, WestBricks)
  {
  }

  lemma WestRowEInRange()
    ensures Placed(WestE, WestSize, 1, WestBricks)
  {
  }

  lemma WestRowFInRange()
    ensures Placed(WestF, WestSize, 1, WestBricks)
  {
  }

  lemma WestRowGInRange()
    ensures Placed(WestG, WestSize, 1, WestBricks)
  {
  }

  lemma WestRowHInRange()
    ensures Placed(WestH, WestSize, 1, WestBricks)
  {
  }

  lemma WestRowIInRange()
    ensures Placed(WestI, WestSize, 1, WestBricks)
  {
  }

  lemma WestRowJInRange()
    ensures Placed(WestJ, WestSize, 1, WestBricks)
  {
  }

  lemma WestRowKInRange()
    ensures Placed(WestK, WestSize, 1, WestBricks)
  {
  }

  lemma WestRowLInRange()
    ensures Placed(WestL, WestSize, 1, WestBricks)
  {
  }

  lemma EastRowAInRange()
    ensures Placed(EastA, EastSize, WestBricks + 1, NumBricks)
  {
  }

  lemma EastRowBInRange()
    ensures Placed(EastB, EastSize, WestBricks + 1, NumBricks)
  {
  }

  lemma EastRowCInRange()
    ensures Placed(EastC, EastSize, WestBricks + 1, NumBricks)
  {
  }

  lemma EastRowDInRange()
    ensures Placed(EastD, EastSize, WestBricks + 1, NumBricks)
  {
  }

  lemma EastRowEInRange()
    ensures Placed(EastE, EastSize, WestBricks + 1, NumBricks)
  {
  }

  lemma EastRowFInRange()
    ensures Placed(EastF, EastSize, WestBricks + 1, NumBricks)
  {
  }

  lemma EastRowGInRange()
    ensures Placed(EastG, EastSize, WestBricks + 1, NumBricks)
  {
  }

  lemma EastRowHInRange()
    ensures Placed(EastH, EastSize, WestBricks + 1, NumBricks)
  {
  }

  lemma EastRowIInRange()
    ensures Placed(EastI, EastSize, WestBricks + 1, NumBricks)
  {
  }

  lemma EastRowJInRange()
    ensures Placed(EastJ, EastSize, WestBricks + 1, NumBricks)
  {
  }

  lemma EastRowKInRange()
    ensures Placed(EastK, EastSize, WestBricks + 1, NumBricks)
  {
  }

  lemma EastRowLInRange()
    ensures Placed(EastL, EastSize, WestBricks + 1, NumBricks)
  {
  }

  /** An entry of a west row is an entry of the west table, and names its brick. */
  lemma NamesWest(c: Cell, k: int)
    requires c in WestA || c in WestB || c in WestC || c in WestD || c in WestE || c in WestF
             || c in WestG || c in WestH || c in WestI || c in WestJ || c in WestK || c in WestL
    requires c.brick == k
    ensures Names(West, k)
  {
  }

  /** An entry of an east row is an entry of the east table, and names its brick. */
  lemma NamesEast(c: Cell, k: int)
    requires c in EastA || c in EastB || c in EastC || c in EastD || c in EastE || c in EastF
             || c in EastG || c in EastH || c in EastI || c in EastJ || c in EastK || c in EastL
    requires c.brick == k
    ensures Names(East, k)
  {
  }

  lemma WestCovers001To005()
    ensures forall k :: 1 <= k <= 5 ==> Names(West, k)
  {
    forall k | 1 <= k <= 5
      ensures Names(West, k)
    {
      if k == 1 { NamesWest(WestG[0], k); }
      else if k == 2 { NamesWest(WestE[0], k); }
      else if k == 3 { NamesWest(WestH[0], k); }
      else if k == 4 { NamesWest(WestK[0], k); }
      else if k == 5 { NamesWest(WestE[1], k); }
    }
  }

  lemma WestCovers006To010()
    ensures forall k :: 6 <= k <= 10 ==> Names(West, k)
  {
    forall k | 6 <= k <= 10
      ensures Names(West, k)
    {
      if k == 6 { NamesWest(WestG[1], k); }
      else if k == 7 { NamesWest(WestC[0], k); }
      else if k == 8 { NamesWest(WestG[2], k); }
      else if k == 9 { NamesWest(WestH[1], k); }
      else if k == 10 { NamesWest(WestK[1], k); }
    }
  }

  lemma WestCovers011To015()
    ensures forall k :: 11 <= k <= 15 ==> Names(West, k)
  {
    forall k | 11 <= k <= 15
      ensures Names(West, k)
    {
      if k == 11 { NamesWest(WestA[0], k); }
      else if k == 12 { NamesWest(WestC[1], k); }
      else if k == 13 { NamesWest(WestL[0], k); }
      else if k == 14 { NamesWest(WestF[0], k); }
      else if k == 15 { NamesWest(WestJ[0], k); }
    }
  }

  lemma WestCovers016To020()
    ensures forall k :: 16 <= k <= 20 ==> Names(West, k)
  {
    forall k | 16 <= k <= 20
      ensures Names(West, k)
    {
      if k == 16 { NamesWest(WestB[0], k); }
      else if k == 17 { NamesWest(WestD[0], k); }
      else if k == 18 { NamesWest(WestG[3], k); }
      else if k == 19 { NamesWest(WestE[2], k); }
      else if k == 20 { NamesWest(WestH[2], k); }
    }
  }

  lemma WestCovers021To025()
    ensures forall k :: 21 <= k <= 25 ==> Names(West, k)
  {
    forall k | 21 <= k <= 25
      ensures Names(West, k)
    {
      if k == 21 { NamesWest(WestF[1], k); }
      else if k == 22 { NamesWest(WestL[1], k); }
      else if k == 23 { NamesWest(WestC[2], k); }
      else if k == 24 { NamesWest(WestD[1], k); }
      else if k == 25 { NamesWest(WestI[0], k); }
    }
  }

  lemma WestCovers026To030()
    ensures forall k :: 26 <= k <= 30 ==> Names(West, k)
  {
    forall k | 26 <= k <= 30
      ensures Names(West, k)
    {
      if k == 26 { NamesWest(WestK[2], k); }
      else if k == 27 { NamesWest(WestA[1], k); }
      else if k == 28 { NamesWest(WestB[1], k); }
      else if k == 29 { NamesWest(WestG[4], k); }
      else if k == 30 { NamesWest(WestC[3], k); }
    }
  }

  lemma WestCovers031To035()
    ensures forall k :: 31 <= k <= 35 ==> Names(West, k)
  {
    forall k | 31 <= k <= 35
      ensures Names(West, k)
    {
      if k == 31 { NamesWest(WestF[2], k); }
      else if k == 32 { NamesWest(WestH[3], k); }
      else if k == 33 { NamesWest(WestI[1], k); }
      else if k == 34 { NamesWest(WestJ[1], k); }
      else if k == 35 { NamesWest(WestL[2], k); }
    }
  }

  lemma WestCovers036To040()
    ensures forall k :: 36 <= k <= 40 ==> Names(West, k)
  {
    forall k | 36 <= k <= 40
      ensures Names(West, k)
    {
      if k == 36 { NamesWest(WestB[2], k); }
      else if k == 37 { NamesWest(WestC[4], k); }
      else if k == 38 { NamesWest(WestD[2], k); }
      else if k == 39 { NamesWest(WestI[2], k); }
      else if k == 40 { NamesWest(WestF[3], k); }
    }
  }

  lemma WestCovers041To045()
    ensures forall k :: 41 <= k <= 45 ==> Names(West, k)
  {
    forall k | 41 <= k <= 45
      ensures Names(West, k)
    {
      if k == 41 { NamesWest(WestG[5], k); }
      else if k == 42 { NamesWest(WestJ[2], k); }
      else if k == 43 { NamesWest(WestL[3], k); }
      else if k == 44 { NamesWest(WestA[2], k); }
      else if k == 45 { NamesWest(WestB[3], k); }
    }
  }

  lemma WestCovers046To050()
    ensures forall k :: 46 <= k <= 50 ==> Names(West, k)
  {
    forall k | 46 <= k <= 50
      ensures Names(West, k)
    {
      if k == 46 { NamesWest(WestE[3], k); }
      else if k == 47 { NamesWest(WestF[4], k); }
      else if k == 48 { NamesWest(WestH[4], k); }
      else if k == 49 { NamesWest(WestI[3], k); }
      else if k == 50 { NamesWest(WestK[3], k); }
    }
  }

  lemma WestCovers051To055()
    ensures forall k :: 51 <= k <= 55 ==> Names(West, k)
  {
    forall k | 51 <= k <= 55
      ensures Names(West, k)
    {
      if k == 51 { NamesWest(WestL[4], k); }
      else if k == 52 { NamesWest(WestA[3], k); }
      else if k == 53 { NamesWest(WestC[5], k); }
      else if k == 54 { NamesWest(WestF[5], k); }
      else if k == 55 { NamesWest(WestG[6], k); }
    }
  }

  lemma WestCovers056To060()
    ensures forall k :: 56 <= k <= 60 ==> Names(West, k)
  {
    forall k | 56 <= k <= 60
      ensures Names(West, k)
    {
      if k == 56 { NamesWest(WestI[4], k); }
      else if k == 57 { NamesWest(WestK[4], k); }
      else if k == 58 { NamesWest(WestL[5], k); }
      else if k == 59 { NamesWest(WestB[4], k); }
      else if k == 60 { NamesWest(WestD[3], k); }
    }
  }

  lemma WestCovers061To065()
    ensures forall k :: 61 <= k <= 65 ==> Names(West, k)
  {
    forall k | 61 <= k <= 65
      ensures Names(West, k)
    {
      if k == 61 { NamesWest(WestE[4], k); }
      else if k == 62 { NamesWest(WestG[7], k); }
      else if k == 63 { NamesWest(WestH[5], k); }
      else if k == 64 { NamesWest(WestJ[3], k); }
      else if k == 65 { NamesWest(WestA[4], k); }
    }
  }

  lemma WestCovers066To070()
    ensures forall k :: 66 <= k <= 70 ==> Names(West, k)
  {
    forall k | 66 <= k <= 70
      ensures Names(West, k)
    {
      if k == 66 { NamesWest(WestB[5], k); }
      else if k == 67 { NamesWest(WestD[4], k); }
      else if k == 68 { NamesWest(WestF[6], k); }
      else if k == 69 { NamesWest(WestG[8], k); }
      else if k == 70 { NamesWest(WestI[5], k); }
    }
  }

  lemma WestCovers071To075()
    ensures forall k :: 71 <= k <= 75 ==> Names(West, k)
  {
    forall k | 71 <= k <= 75
      ensures Names(West, k)
    {
      if k == 71 { NamesWest(WestJ[4], k); }
      else if k == 72 { NamesWest(WestK[5], k); }
      else if k == 73 { NamesWest(WestD[5], k); }
      else if k == 74 { NamesWest(WestE[5], k); }
      else if k == 75 { NamesWest(WestF[7], k); }
    }
  }

  lemma WestCovers076To080()
    ensures forall k :: 76 <= k <= 80 ==> Names(West, k)
  {
    forall k | 76 <= k <= 80
      ensures Names(West, k)
    {
      if k == 76 { NamesWest(WestI[6], k); }
      else if k == 77 { NamesWest(WestK[6], k); }
      else if k == 78 { NamesWest(WestL[6], k); }
      else if k == 79 { NamesWest(WestB[6], k); }
      else if k == 80 { NamesWest(WestE[6], k); }
    }
  }

  lemma WestCovers081To085()
    ensures forall k :: 81 <= k <= 85 ==> Names(West, k)
  {
    forall k | 81 <= k <= 85
      ensures Names(West, k)
    {
      if k == 81 { NamesWest(WestG[9], k); }
      else if k == 82 { NamesWest(WestJ[5], k); }
      else if k == 83 { NamesWest(WestB[7], k); }
      else if k == 84 { NamesWest(WestC[6], k); }
      else if k == 85 { NamesWest(WestE[7], k); }
    }
  }

  lemma WestCovers086To090()
    ensures forall k :: 86 <= k <= 90 ==> Names(West, k)
  {
    forall k | 86 <= k <= 90
      ensures Names(West, k)
    {
      if k == 86 { NamesWest(WestF[8], k); }
      else if k == 87 { NamesWest(WestH[6], k); }
      else if k == 88 { NamesWest(WestK[7], k); }
      else if k == 89 { NamesWest(WestL[7], k); }
      else if k == 90 { NamesWest(WestA[5], k); }
    }
  }

  lemma WestCovers091To095()
    ensures forall k :: 91 <= k <= 95 ==> Names(West, k)
  {
    forall k | 91 <= k <= 95
      ensures Names(West, k)
    {
      if k == 91 { NamesWest(WestB[8], k); }
      else if k == 92 { NamesWest(WestE[8], k); }
      else if k == 93 { NamesWest(WestG[10], k); }
      else if k == 94 { NamesWest(WestH[7], k); }
      else if k == 95 { NamesWest(WestI[7], k); }
    }
  }

  lemma WestCovers096To100()
    ensures forall k :: 96 <= k <= 100 ==> Names(West, k)
  {
    forall k | 96 <= k <= 100
      ensures Names(West, k)
    {
      if k == 96 { NamesWest(WestL[8], k); }
      else if k == 97 { NamesWest(WestC[7], k); }
      else if k == 98 { NamesWest(WestD[6], k); }
      else if k == 99 { NamesWest(WestF[9], k); }
      else if k == 100 { NamesWest(WestH[8], k); }
    }
  }

  lemma WestCovers101To105()
    ensures forall k :: 101 <= k <= 105 ==> Names(West, k)
  {
    forall k | 101 <= k <= 105
      ensures Names(West, k)
    {
      if k == 101 { NamesWest(WestI[8], k); }
      else if k == 102 { NamesWest(WestK[8], k); }
      else if k == 103 { NamesWest(WestB[9], k); }
      else if k == 104 { NamesWest(WestC[8], k); }
      else if k == 105 { NamesWest(WestE[9], k); }
    }
  }

  lemma WestCovers106To110()
    ensures forall k :: 106 <= k <= 110 ==> Names(West, k)
  {
    forall k | 106 <= k <= 110
      ensures Names(West, k)
    {
      if k == 106 { NamesWest(WestF[10], k); }
      else if k == 107 { NamesWest(WestJ[6], k); }
      else if k == 108 { NamesWest(WestL[9], k); }
      else if k == 109 { NamesWest(WestA[6], k); }
      else if k == 110 { NamesWest(WestC[9], k); }
    }
  }

  lemma WestCovers111To115()
    ensures forall k :: 111 <= k <= 115 ==> Names(West, k)
  {
    forall k | 111 <= k <= 115
      ensures Names(West, k)
    {
      if k == 111 { NamesWest(WestE[10], k); }
      else if k == 112 { NamesWest(WestF[11], k); }
      else if k == 113 { NamesWest(WestG[11], k); }
      else if k == 114 { NamesWest(WestI[9], k); }
      else if k == 115 { NamesWest(WestJ[7], k); }
    }
  }

  lemma WestCovers116To120()
    ensures forall k :: 116 <= k <= 120 ==> Names(West, k)
  {
    forall k | 116 <= k <= 120
      ensures Names(West, k)
    {
      if k == 116 { NamesWest(WestL[10], k); }
      else if k == 117 { NamesWest(WestB[10], k); }
      else if k == 118 { NamesWest(WestD[7], k); }
      else if k == 119 { NamesWest(WestE[11], k); }
      else if k == 120 { NamesWest(WestF[12], k); }
    }
  }

  lemma WestCovers121To123()
    ensures forall k :: 121 <= k <= 123 ==> Names(West, k)
  {
    forall k | 121 <= k <= 123
      ensures Names(West, k)
    {
      if k == 121 { NamesWest(WestH[9], k); }
      else if k == 122 { NamesWest(WestI[10], k); }
      else if k == 123 { NamesWest(WestK[9], k); }
    }
  }

  lemma EastCovers124To128()
    ensures forall k :: 124 <= k <= 128 ==> Names(East, k)
  {
    forall k | 124 <= k <= 128
      ensures Names(East, k)
    {
      if k == 124 { NamesEast(EastB[0], k); }
      else if k == 125 { NamesEast(EastF[0], k); }
      else if k == 126 { NamesEast(EastA[0], k); }
      else if k == 127 { NamesEast(EastC[0], k); }
      else if k == 128 { NamesEast(EastD[0], k); }
    }
  }

  lemma EastCovers129To133()
    ensures forall k :: 129 <= k <= 133 ==> Names(East, k)
  {
    forall k | 129 <= k <= 133
      ensures Names(East, k)
    {
      if k == 129 { NamesEast(EastH[0], k); }
      else if k == 130 { NamesEast(EastB[1], k); }
      else if k == 131 { NamesEast(EastC[1], k); }
      else if k == 132 { NamesEast(EastE[0], k); }
      else if k == 133 { NamesEast(EastG[0], k); }
    }
  }

  lemma EastCovers134To138()
    ensures forall k :: 134 <= k <= 138 ==> Names(East, k)
  {
    forall k | 134 <= k <= 138
      ensures Names(East, k)
    {
      if k == 134 { NamesEast(EastI[0], k); }
      else if k == 135 { NamesEast(EastJ[0], k); }
      else if k == 136 { NamesEast(EastL[0], k); }
      else if k == 137 { NamesEast(EastA[1], k); }
      else if k == 138 { NamesEast(EastD[1], k); }
    }
  }

  lemma EastCovers139To143()
    ensures forall k :: 139 <= k <= 143 ==> Names(East, k)
  {
    forall k | 139 <= k <= 143
      ensures Names(East, k)
    {
      if k == 139 { NamesEast(EastE[1], k); }
      else if k == 140 { NamesEast(EastF[1], k); }
      else if k == 141 { NamesEast(EastH[1], k); }
      else if k == 142 { NamesEast(EastI[1], k); }
      else if k == 143 { NamesEast(EastK[0], k); }
    }
  }

  lemma EastCovers144To148()
    ensures forall k :: 144 <= k <= 148 ==> Names(East, k)
  {
    forall k | 144 <= k <= 148
      ensures Names(East, k)
    {
      if k == 144 { NamesEast(EastA[2], k); }
      else if k == 145 { NamesEast(EastB[2], k); }
      else if k == 146 { NamesEast(EastC[2], k); }
      else if k == 147 { NamesEast(EastE[2], k); }
      else if k == 148 { NamesEast(EastF[2], k); }
    }
  }

  lemma EastCovers149To153()
    ensures forall k :: 149 <= k <= 153 ==> Names(East, k)
  {
    forall k | 149 <= k <= 153
      ensures Names(East, k)
    {
      if k == 149 { NamesEast(EastI[2], k); }
      else if k == 150 { NamesEast(EastJ[1], k); }
      else if k == 151 { NamesEast(EastL[1], k); }
      else if k == 152 { NamesEast(EastC[3], k); }
      else if k == 153 { NamesEast(EastD[2], k); }
    }
  }

  lemma EastCovers154To158()
    ensures forall k :: 154 <= k <= 158 ==> Names(East, k)
  {
    forall k | 154 <= k <= 158
      ensures Names(East, k)
    {
      if k == 154 { NamesEast(EastG[1], k); }
      else if k == 155 { NamesEast(EastH[2], k); }
      else if k == 156 { NamesEast(EastI[3], k); }
      else if k == 157 { NamesEast(EastK[1], k); }
      else if k == 158 { NamesEast(EastL[2], k); }
    }
  }

  lemma EastCovers159To163()
    ensures forall k :: 159 <= k <= 163 ==> Names(East, k)
  {
    forall k | 159 <= k <= 163
      ensures Names(East, k)
    {
      if k == 159 { NamesEast(EastA[3], k); }
      else if k == 160 { NamesEast(EastB[3], k); }
      else if k == 161 { NamesEast(EastE[3], k); }
      else if k == 162 { NamesEast(EastF[3], k); }
      else if k == 163 { NamesEast(EastJ[2], k); }
    }
  }

  lemma EastCovers164To168()
    ensures forall k :: 164 <= k <= 168 ==> Names(East, k)
  {
    forall k | 164 <= k <= 168
      ensures Names(East, k)
    {
      if k == 164 { NamesEast(EastL[3], k); }
      else if k == 165 { NamesEast(EastC[4], k); }
      else if k == 166 { NamesEast(EastD[3], k); }
      else if k == 167 { NamesEast(EastF[4], k); }
      else if k == 168 { NamesEast(EastG[2], k); }
    }
  }

  lemma EastCovers169To173()
    ensures forall k :: 169 <= k <= 173 ==> Names(East, k)
  {
    forall k | 169 <= k <= 173
      ensures Names(East, k)
    {
      if k == 169 { NamesEast(EastH[3], k); }
      else if k == 170 { NamesEast(EastJ[3], k); }
      else if k == 171 { NamesEast(EastK[2], k); }
      else if k == 172 { NamesEast(EastA[4], k); }
      else if k == 173 { NamesEast(EastD[4], k); }
    }
  }

  lemma EastCovers174To178()
    ensures forall k :: 174 <= k <= 178 ==> Names(East, k)
  {
    forall k | 174 <= k <= 178
      ensures Names(East, k)
    {
      if k == 174 { NamesEast(EastF[5], k); }
      else if k == 175 { NamesEast(EastH[4], k); }
      else if k == 176 { NamesEast(EastI[4], k); }
      else if k == 177 { NamesEast(EastK[3], k); }
      else if k == 178 { NamesEast(EastB[4], k); }
    }
  }

  lemma EastCovers179To183()
    ensures forall k :: 179 <= k <= 183 ==> Names(East, k)
  {
    forall k | 179 <= k <= 183
      ensures Names(East, k)
    {
      if k == 179 { NamesEast(EastE[4], k); }
      else if k == 180 { NamesEast(EastF[6], k); }
      else if k == 181 { NamesEast(EastG[3], k); }
      else if k == 182 { NamesEast(EastI[5], k); }
      else if k == 183 { NamesEast(EastJ[4], k); }
    }
  }

  lemma EastCovers184To188()
    ensures forall k :: 184 <= k <= 188 ==> Names(East, k)
  {
    forall k | 184 <= k <= 188
      ensures Names(East, k)
    {
      if k == 184 { NamesEast(EastL[4], k); }
      else if k == 185 { NamesEast(EastC[5], k); }
      else if k == 186 { NamesEast(EastD[5], k); }
      else if k == 187 { NamesEast(EastH[5], k); }
      else if k == 188 { NamesEast(EastJ[5], k); }
    }
  }

  lemma EastCovers189To193()
    ensures forall k :: 189 <= k <= 193 ==> Names(East, k)
  {
    forall k | 189 <= k <= 193
      ensures Names(East, k)
    {
      if k == 189 { NamesEast(EastK[4], k); }
      else if k == 190 { NamesEast(EastA[5], k); }
      else if k == 191 { NamesEast(EastF[7], k); }
      else if k == 192 { NamesEast(EastG[4], k); }
      else if k == 193 { NamesEast(EastK[5], k); }
    }
  }

  lemma EastCovers194To198()
    ensures forall k :: 194 <= k <= 198 ==> Names(East, k)
  {
    forall k | 194 <= k <= 198
      ensures Names(East, k)
    {
      if k == 194 { NamesEast(EastL[5], k); }
      else if k == 195 { NamesEast(EastB[5], k); }
      else if k == 196 { NamesEast(EastD[6], k); }
      else if k == 197 { NamesEast(EastF[8], k); }
      else if k == 198 { NamesEast(EastI[6], k); }
    }
  }

  lemma EastCovers199To203()
    ensures forall k :: 199 <= k <= 203 ==> Names(East, k)
  {
    forall k | 199 <= k <= 203
      ensures Names(East, k)
    {
      if k == 199 { NamesEast(EastJ[6], k); }
      else if k == 200 { NamesEast(EastL[6], k); }
      else if k == 201 { NamesEast(EastC[6], k); }
      else if k == 202 { NamesEast(EastE[5], k); }
      else if k == 203 { NamesEast(EastG[5], k); }
    }
  }

  lemma EastCovers204To208()
    ensures forall k :: 204 <= k <= 208 ==> Names(East, k)
  {
    forall k | 204 <= k <= 208
      ensures Names(East, k)
    {
      if k == 204 { NamesEast(EastH[6], k); }
      else if k == 205 { NamesEast(EastK[6], k); }
      else if k == 206 { NamesEast(EastD[7], k); }
      else if k == 207 { NamesEast(EastI[7], k); }
      else if k == 208 { NamesEast(EastJ[7], k); }
    }
  }

  lemma EastCovers209To213()
    ensures forall k :: 209 <= k <= 213 ==> Names(East, k)
  {
    forall k | 209 <= k <= 213
      ensures Names(East, k)
    {
      if k == 209 { NamesEast(EastL[7], k); }
      else if k == 210 { NamesEast(EastA[6], k); }
      else if k == 211 { NamesEast(EastF[9], k); }
      else if k == 212 { NamesEast(EastH[7], k); }
      else if k == 213 { NamesEast(EastI[8], k); }
    }
  }

  lemma EastCovers214To218()
    ensures forall k :: 214 <= k <= 218 ==> Names(East, k)
  {
    forall k | 214 <= k <= 218
      ensures Names(East, k)
    {
      if k == 214 { NamesEast(EastK[7], k); }
      else if k == 215 { NamesEast(EastC[7], k); }
      else if k == 216 { NamesEast(EastD[8], k); }
      else if k == 217 { NamesEast(EastG[6], k); }
      else if k == 218 { NamesEast(EastI[9], k); }
    }
  }

  lemma EastCovers219To223()
    ensures forall k :: 219 <= k <= 223 ==> Names(East, k)
  {
    forall k | 219 <= k <= 223
      ensures Names(East, k)
    {
      if k == 219 { NamesEast(EastJ[8], k); }
      else if k == 220 { NamesEast(EastL[8], k); }
      else if k == 221 { NamesEast(EastB[6], k); }
      else if k == 222 { NamesEast(EastE[6], k); }
      else if k == 223 { NamesEast(EastJ[9], k); }
    }
  }

  lemma EastCovers224To226()
    ensures forall k :: 224 <= k <= 226 ==> Names(East, k)
  {
    forall k | 224 <= k <= 226
      ensures Names(East, k)
    {
      if k == 224 { NamesEast(EastH[8], k); }
      else if k == 225 { NamesEast(EastI[10], k); }
      else if k == 226 { NamesEast(EastK[8], k); }
    }
  }

  /** Every id of the west wall's range is named by some entry. */
  lemma WestNamesAll()
    ensures NamesEvery(West, 1, WestBricks)
  {
    WestCovers001To005(); WestCovers006To010(); WestCovers011To015(); WestCovers016To020(); WestCovers021To025(); WestCovers026To030(); WestCovers031To035(); WestCovers036To040(); WestCovers041To045(); WestCovers046To050(); WestCovers051To055(); WestCovers056To060(); WestCovers061To065(); WestCovers066To070(); WestCovers071To075(); WestCovers076To080(); WestCovers081To085(); WestCovers086To090(); WestCovers091To095(); WestCovers096To100(); WestCovers101To105(); WestCovers106To110(); WestCovers111To115(); WestCovers116To120(); WestCovers121To123();
  }

  /** Every id of the east wall's range is named by some entry. */
  lemma EastNamesAll()
    ensures NamesEvery(East, WestBricks + 1, NumBricks)
  {
    EastCovers124To128(); EastCovers129To133(); EastCovers134To138(); EastCovers139To143(); EastCovers144To148(); EastCovers149To153(); EastCovers154To158(); EastCovers159To163(); EastCovers164To168(); EastCovers169To173(); EastCovers174To178(); EastCovers179To183(); EastCovers184To188(); EastCovers189To193(); EastCovers194To198(); EastCovers199To203(); EastCovers204To208(); EastCovers209To213(); EastCovers214To218(); EastCovers219To223(); EastCovers224To226();
  }

  /** Along a row, an entry further right holds a higher id. */
  predicate IncreasingAlongRow(row: seq<Cell>)
  {
    forall a, b :: a in row && b in row && a.col < b.col ==> a.brick < b.brick
  }

  /** The entries of a row are written left to right, and each holds a higher id
      than the one before it. */
  predicate AscendingPairs(row: seq<Cell>)
  {
    forall i :: 0 <= i < |row| - 1 ==> row[i].col < row[i + 1].col && row[i].brick < row[i + 1].brick
  }

  lemma {:induction false} AscendingChain(row: seq<Cell>, i: int, j: int)
    requires AscendingPairs(row)
    requires 0 <= i < j < |row|
    ensures row[i].col < row[j].col && row[i].brick < row[j].brick
    decreases j - i
  {
    if i + 1 < j {
      AscendingChain(row, i + 1, j);
    }
  }

  /** Each entry of a row has a smaller column and id than the next, read off
      from the front of the row. */
  predicate Rising(row: seq<Cell>)
  {
    |row| < 2 || (row[0].col < row[1].col && row[0].brick < row[1].brick && Rising(row[1..]))
  }

  lemma {:induction false} RisingPairs(row: seq<Cell>)
    requires Rising(row)
    ensures AscendingPairs(row)
  {
    if |row| >= 2 {
      RisingPairs(row[1..]);
      forall i | 0 <= i < |row| - 1 ensures row[i].col < row[i + 1].col && row[i].brick < row[i + 1].brick {
        if i > 0 {
          assert row[i] == row[1..][i - 1] && row[i + 1] == row[1..][i];
        }
      }
    }
  }

  /** A row written left to right with rising ids has ids rising with the column. */
  lemma AscendingIncreasing(row: seq<Cell>)
    requires AscendingPairs(row)
    ensures IncreasingAlongRow(row)
  {
    forall a, b | a in row && b in row && a.col < b.col ensures a.brick < b.brick {
      var i :| 0 <= i < |row| && row[i] == a;
      var j :| 0 <= j < |row| && row[j] == b;
      if j < i {
        AscendingChain(row, j, i);
      } else if i < j {
        AscendingChain(row, i, j);
      }
    }
  }

  lemma WestRowAOrdered()
    ensures AscendingPairs(WestA)
  {
    assert Rising(WestA);
    RisingPairs(WestA);
  }

  lemma WestRowBOrdered()
    ensures AscendingPairs(WestB)
  {
    assert Rising(WestB);
    RisingPairs(WestB);
  }

  lemma WestRowCOrdered()
    ensures AscendingPairs(WestC)
  {
    assert Rising(WestC);
    RisingPairs(WestC);
  }

  lemma WestRowDOrdered()
    ensures AscendingPairs(WestD)
  {
    assert Rising(WestD);
    RisingPairs(WestD);
  }

  lemma WestRowEOrdered()
    ensures AscendingPairs(WestE)
  {
    assert Rising(WestE);
    RisingPairs(WestE);
  }

  lemma WestRowFOrdered()
    ensures AscendingPairs(WestF)
  {
    assert Rising(WestF);
    RisingPairs(WestF);
  }

  lemma WestRowGOrdered()
    ensures AscendingPairs(WestG)
  {
    assert Rising(WestG);
    RisingPairs(WestG);
  }

  lemma WestRowHOrdered()
    ensures AscendingPairs(WestH)
  {
    assert Rising(WestH);
    RisingPairs(WestH);
  }

  lemma WestRowIOrdered()
    ensures AscendingPairs(WestI[..1] + WestI[2..])
  {
    var rest := WestI[2..];
    assert Rising([Cell('I', 13, 39), Cell('I', 15, 49), Cell('I', 16, 56), Cell('I', 18, 70), Cell('I', 19, 76), Cell('I', 22, 95), Cell('I', 23, 101), Cell('I', 25, 114), Cell('I', 26, 122)]);
    assert rest == [Cell('I', 13, 39), Cell('I', 15, 49), Cell('I', 16, 56), Cell('I', 18, 70), Cell('I', 19, 76), Cell('I', 22, 95), Cell('I', 23, 101), Cell('I', 25, 114), Cell('I', 26, 122)];
    var row := WestI[..1] + rest;
    assert row[0] == WestI[0] && row[1] == WestI[2] && row[1..] == rest;
    RisingPairs(row);
  }

  lemma WestRowJOrdered()
    ensures AscendingPairs(WestJ)
  {
    assert Rising(WestJ);
    RisingPairs(WestJ);
  }

  lemma WestRowKOrdered()
    ensures AscendingPairs(WestK)
  {
    assert Rising(WestK);
    RisingPairs(WestK);
  }

  lemma WestRowLOrdered()
    ensures AscendingPairs(WestL)
  {
    assert Rising(WestL);
    RisingPairs(WestL);
  }

  lemma EastRowAOrdered()
    ensures AscendingPairs(EastA)
  {
    assert Rising(EastA);
    RisingPairs(EastA);
  }

  lemma EastRowBOrdered()
    ensures AscendingPairs(EastB)
  {
    assert Rising(EastB);
    RisingPairs(EastB);
  }

  lemma EastRowCOrdered()
    ensures AscendingPairs(EastC)
  {
    assert Rising(EastC);
    RisingPairs(EastC);
  }

  lemma EastRowDOrdered()
    ensures AscendingPairs(EastD)
  {
    assert Rising(EastD);
    RisingPairs(EastD);
  }

  lemma EastRowEOrdered()
    ensures AscendingPairs(EastE)
  {
    assert Rising(EastE);
    RisingPairs(EastE);
  }

  lemma EastRowFOrdered()
    ensures AscendingPairs(EastF)
  {
    assert Rising(EastF);
    RisingPairs(EastF);
  }

  lemma EastRowGOrdered()
    ensures AscendingPairs(EastG)
  {
    assert Rising(EastG);
    RisingPairs(EastG);
  }

  lemma EastRowHOrdered()
    ensures AscendingPairs(EastH)
  {
    assert Rising(EastH);
    RisingPairs(EastH);
  }

  lemma EastRowIOrdered()
    ensures AscendingPairs(EastI)
  {
    assert Rising(EastI);
    RisingPairs(EastI);
  }

  lemma EastRowJOrdered()
    ensures AscendingPairs(EastJ)
  {
    assert Rising(EastJ);
    RisingPairs(EastJ);
  }

  lemma EastRowKOrdered()
    ensures AscendingPairs(EastK)
  {
    assert Rising(EastK);
    RisingPairs(EastK);
  }

  lemma EastRowLOrdered()
    ensures AscendingPairs(EastL)
  {
    assert Rising(EastL);
    RisingPairs(EastL);
  }

  /** Column-major numbering seen along a row: every west row but row I is written
      left to right with rising ids, so further right means a higher id. */
  lemma WestRowsIncrease()
    ensures AscendingPairs(WestA) && AscendingPairs(WestB) && AscendingPairs(WestC)
    ensures AscendingPairs(WestD) && AscendingPairs(WestE) && AscendingPairs(WestF)
    ensures AscendingPairs(WestG) && AscendingPairs(WestH) && AscendingPairs(WestJ)
    ensures AscendingPairs(WestK) && AscendingPairs(WestL)
  {
    WestRowAOrdered(); WestRowBOrdered(); WestRowCOrdered(); WestRowDOrdered();
    WestRowEOrdered(); WestRowFOrdered(); WestRowGOrdered(); WestRowHOrdered();
    WestRowJOrdered(); WestRowKOrdered(); WestRowLOrdered();
  }

  /** Every row of the east wall is written left to right with rising ids. */
  lemma EastRowsIncrease()
    ensures AscendingPairs(EastA) && AscendingPairs(EastB) && AscendingPairs(EastC)
    ensures AscendingPairs(EastD) && AscendingPairs(EastE) && AscendingPairs(EastF)
    ensures AscendingPairs(EastG) && AscendingPairs(EastH) && AscendingPairs(EastI)
    ensures AscendingPairs(EastJ) && AscendingPairs(EastK) && AscendingPairs(EastL)
  {
    EastRowAOrdered(); EastRowBOrdered(); EastRowCOrdered(); EastRowDOrdered();
    EastRowEOrdered(); EastRowFOrdered(); EastRowGOrdered(); EastRowHOrdered();
    EastRowIOrdered(); EastRowJOrdered(); EastRowKOrdered(); EastRowLOrdered();
  }
}
