/** The numbering convention of the brick tables: ids run down each column and
    then on to the next column to the right, as the header of the tables
    documents. The west entry `I2` is the one exception; it is numbered as if it
    stood in column 12. The proof regroups each table by column. */
module WallOrder {
  import opened WallTables

  /** The column an entry is numbered in: its own, except `I2` of the west wall. */
  function NumberedCol(c: Cell): int
  {
    if c == OutOfOrder then 12 else c.col
  }

  /** Column-major reading order: by numbered column, then down the rows. */
  predicate ReadBefore(a: Cell, b: Cell)
  {
    NumberedCol(a) < NumberedCol(b) || (NumberedCol(a) == NumberedCol(b) && RowIndex(a.row) < RowIndex(b.row))
  }

  /** Every entry of `row` is numbered in a column `lo..hi` and listed in that
      column by `column`. */
  predicate InColumns(row: seq<Cell>, column: int -> seq<Cell>, lo: int, hi: int)
  {
    forall i :: 0 <= i < |row| ==> lo <= NumberedCol(row[i]) <= hi && row[i] in column(NumberedCol(row[i]))
  }

  /** `col` lists, top to bottom, entries numbered in column `j`, holding the ids
      after `start` one by one. */
  predicate ColumnRun(col: seq<Cell>, j: int, start: int)
  {
    (forall i :: 0 <= i < |col| ==> NumberedCol(col[i]) == j && col[i].brick == start + 1 + i)
    && (forall i :: 0 <= i < |col| - 1 ==> RowIndex(col[i].row) < RowIndex(col[i + 1].row))
  }

  // The west table regrouped by numbered column, top to bottom: a proof device,
  // checked against the table itself by WestGathered.
  const WestCol1: seq<Cell> := [Cell('G', 1, 1)]
  const WestCol2: seq<Cell> := [Cell('E', 2, 2), Cell('H', 2, 3), Cell('K', 2, 4)]
  const WestCol3: seq<Cell> := [Cell('E', 3, 5), Cell('G', 3, 6)]
  const WestCol4: seq<Cell> := [Cell('C', 4, 7), Cell('G', 4, 8), Cell('H', 4, 9), Cell('K', 4, 10)]
  const WestCol5: seq<Cell> := [Cell('A', 5, 11), Cell('C', 5, 12), Cell('L', 5, 13)]
  const WestCol6: seq<Cell> := [Cell('F', 6, 14), Cell('J', 6, 15)]
  const WestCol7: seq<Cell> := [Cell('B', 7, 16), Cell('D', 7, 17), Cell('G', 7, 18)]
  const WestCol8: seq<Cell> := [Cell('E', 8, 19), Cell('H', 8, 20)]
  const WestCol9: seq<Cell> := [Cell('F', 9, 21), Cell('L', 9, 22)]
  const WestCol10: seq<Cell> := [Cell('C', 10, 23), Cell('D', 10, 24), Cell('I', 10, 25), Cell('K', 10, 26)]
  const WestCol11: seq<Cell> := [Cell('A', 11, 27), Cell('B', 11, 28), Cell('G', 11, 29)]
  const WestCol12: seq<Cell> := [Cell('C', 12, 30), Cell('F', 12, 31), Cell('H', 12, 32), Cell('I', 2, 33), Cell('J', 12, 34), Cell('L', 12, 35)]
  const WestCol13: seq<Cell> := [Cell('B', 13, 36), Cell('C', 13, 37), Cell('D', 13, 38), Cell('I', 13, 39)]
  const WestCol14: seq<Cell> := [Cell('F', 14, 40), Cell('G', 14, 41), Cell('J', 14, 42), Cell('L', 14, 43)]
  const WestCol15: seq<Cell> := [Cell('A', 15, 44), Cell('B', 15, 45), Cell('E', 15, 46), Cell('F', 15, 47), Cell('H', 15, 48), Cell('I', 15, 49), Cell('K', 15, 50), Cell('L', 15, 51)]
  const WestCol16: seq<Cell> := [Cell('A', 16, 52), Cell('C', 16, 53), Cell('F', 16, 54), Cell('G', 16, 55), Cell('I', 16, 56), Cell('K', 16, 57), Cell('L', 16, 58)]
  const WestCol17: seq<Cell> := [Cell('B', 17, 59), Cell('D', 17, 60), Cell('E', 17, 61), Cell('G', 17, 62), Cell('H', 17, 63), Cell('J', 17, 64)]
  const WestCol18: seq<Cell> := [Cell('A', 18, 65), Cell('B', 18, 66), Cell('D', 18, 67), Cell('F', 18, 68), Cell('G', 18, 69), Cell('I', 18, 70), Cell('J', 18, 71), Cell('K', 18, 72)]
  const WestCol19: seq<Cell> := [Cell('D', 19, 73), Cell('E', 19, 74), Cell('F', 19, 75), Cell('I', 19, 76), Cell('K', 19, 77), Cell('L', 19, 78)]
  const WestCol20: seq<Cell> := [Cell('B', 20, 79), Cell('E', 20, 80), Cell('G', 20, 81), Cell('J', 20, 82)]
  const WestCol21: seq<Cell> := [Cell('B', 21, 83), Cell('C', 21, 84), Cell('E', 21, 85), Cell('F', 21, 86), Cell('H', 21, 87), Cell('K', 21, 88), Cell('L', 21, 89)]
  const WestCol22: seq<Cell> := [Cell('A', 22, 90), Cell('B', 22, 91), Cell('E', 22, 92), Cell('G', 22, 93), Cell('H', 22, 94), Cell('I', 22, 95), Cell('L', 22, 96)]
  const WestCol23: seq<Cell> := [Cell('C', 23, 97), Cell('D', 23, 98), Cell('F', 23, 99), Cell('H', 23, 100), Cell('I', 23, 101), Cell('K', 23, 102)]
  const WestCol24: seq<Cell> := [Cell('B', 24, 103), Cell('C', 24, 104), Cell('E', 24, 105), Cell('F', 24, 106), Cell('J', 24, 107), Cell('L', 24, 108)]
  const WestCol25: seq<Cell> := [Cell('A', 25, 109), Cell('C', 25, 110), Cell('E', 25, 111), Cell('F', 25, 112), Cell('G', 25, 113), Cell('I', 25, 114), Cell('J', 25, 115), Cell('L', 25, 116)]
  const WestCol26: seq<Cell> := [Cell('B', 26, 117), Cell('D', 26, 118), Cell('E', 26, 119), Cell('F', 26, 120), Cell('H', 26, 121), Cell('I', 26, 122), Cell('K', 26, 123)]

  /** The west entries numbered in column `j`, top to bottom. */
  function WestColumn(j: int): seq<Cell>
  {
    match j
    case 1 => WestCol1
    case 2 => WestCol2
    case 3 => WestCol3
    case 4 => WestCol4
    case 5 => WestCol5
    case 6 => WestCol6
    case 7 => WestCol7
    case 8 => WestCol8
    case 9 => WestCol9
    case 10 => WestCol10
    case 11 => WestCol11
    case 12 => WestCol12
    case 13 => WestCol13
    case 14 => WestCol14
    case 15 => WestCol15
    case 16 => WestCol16
    case 17 => WestCol17
    case 18 => WestCol18
    case 19 => WestCol19
    case 20 => WestCol20
    case 21 => WestCol21
    case 22 => WestCol22
    case 23 => WestCol23
    case 24 => WestCol24
    case 25 => WestCol25
    case 26 => WestCol26
    case _ => []
  }

  /** How many west ids come before column `j`, counted from the wall's first id. */
  function WestStart(j: int): int
  {
    match j
    case 1 => 0
    case 2 => 1
    case 3 => 4
    case 4 => 6
    case 5 => 10
    case 6 => 13
    case 7 => 15
    case 8 => 18
    case 9 => 20
    case 10 => 22
    case 11 => 26
    case 12 => 29
    case 13 => 35
    case 14 => 39
    case 15 => 43
    case 16 => 51
    case 17 => 58
    case 18 => 64
    case 19 => 72
    case 20 => 78
    case 21 => 82
    case 22 => 89
    case 23 => 96
    case 24 => 102
    case 25 => 108
    case 26 => 116
    case 27 => 123
    case _ => 0
  }

  lemma WestRowAInColumns()
    ensures InColumns(WestA, WestColumn, 1, 26)
  {
  }

  lemma WestRowBInColumns()
    ensures InColumns(WestB, WestColumn, 1, 26)
  {
  }

  lemma WestRowCInColumns()
    ensures InColumns(WestC, WestColumn, 1, 26)
  {
  }

  lemma WestRowDInColumns()
    ensures InColumns(WestD, WestColumn, 1, 26)
  {
  }

  lemma WestRowEInColumns()
    ensures InColumns(WestE, WestColumn, 1, 26)
  {
  }

  lemma WestRowFInColumns()
    ensures InColumns(WestF, WestColumn, 1, 26)
  {
  }

  lemma WestRowGInColumns()
    ensures InColumns(WestG, WestColumn, 1, 26)
  {
  }

  lemma WestRowHInColumns()
    ensures InColumns(WestH, WestColumn, 1, 26)
  {
  }

  lemma WestRowIInColumns()
    ensures InColumns(WestI, WestColumn, 1, 26)
  {
  }

  lemma WestRowJInColumns()
    ensures InColumns(WestJ, WestColumn, 1, 26)
  {
  }

  lemma WestRowKInColumns()
    ensures InColumns(WestK, WestColumn, 1, 26)
  {
  }

  lemma WestRowLInColumns()
    ensures InColumns(WestL, WestColumn, 1, 26)
  {
  }

  // The east table regrouped by numbered column, top to bottom: a proof device,
  // checked against the table itself by EastGathered.
  const EastCol27: seq<Cell> := [Cell('B', 27, 124), Cell('F', 27, 125)]
  const EastCol28: seq<Cell> := [Cell('A', 28, 126), Cell('C', 28, 127), Cell('D', 28, 128), Cell('H', 28, 129)]
  const EastCol29: seq<Cell> := [Cell('B', 29, 130), Cell('C', 29, 131), Cell('E', 29, 132), Cell('G', 29, 133), Cell('I', 29, 134), Cell('J', 29, 135), Cell('L', 29, 136)]
  const EastCol30: seq<Cell> := [Cell('A', 30, 137), Cell('D', 30, 138), Cell('E', 30, 139), Cell('F', 30, 140), Cell('H', 30, 141), Cell('I', 30, 142), Cell('K', 30, 143)]
  const EastCol31: seq<Cell> := [Cell('A', 31, 144), Cell('B', 31, 145), Cell('C', 31, 146), Cell('E', 31, 147), Cell('F', 31, 148), Cell('I', 31, 149), Cell('J', 31, 150), Cell('L', 31, 151)]
  const EastCol32: seq<Cell> := [Cell('C', 32, 152), Cell('D', 32, 153), Cell('G', 32, 154), Cell('H', 32, 155), Cell('I', 32, 156), Cell('K', 32, 157), Cell('L', 32, 158)]
  const EastCol33: seq<Cell> := [Cell('A', 33, 159), Cell('B', 33, 160), Cell('E', 33, 161), Cell('F', 33, 162), Cell('J', 33, 163), Cell('L', 33, 164)]
  const EastCol34: seq<Cell> := [Cell('C', 34, 165), Cell('D', 34, 166), Cell('F', 34, 167), Cell('G', 34, 168), Cell('H', 34, 169), Cell('J', 34, 170), Cell('K', 34, 171)]
  const EastCol35: seq<Cell> := [Cell('A', 35, 172), Cell('D', 35, 173), Cell('F', 35, 174), Cell('H', 35, 175), Cell('I', 35, 176), Cell('K', 35, 177)]
  const EastCol36: seq<Cell> := [Cell('B', 36, 178), Cell('E', 36, 179), Cell('F', 36, 180), Cell('G', 36, 181), Cell('I', 36, 182), Cell('J', 36, 183), Cell('L', 36, 184)]
  const EastCol37: seq<Cell> := [Cell('C', 37, 185), Cell('D', 37, 186), Cell('H', 37, 187), Cell('J', 37, 188), Cell('K', 37, 189)]
  const EastCol38: seq<Cell> := [Cell('A', 38, 190), Cell('F', 38, 191), Cell('G', 38, 192), Cell('K', 38, 193), Cell('L', 38, 194)]
  const EastCol39: seq<Cell> := [Cell('B', 39, 195), Cell('D', 39, 196), Cell('F', 39, 197), Cell('I', 39, 198), Cell('J', 39, 199), Cell('L', 39, 200)]
  const EastCol40: seq<Cell> := [Cell('C', 40, 201), Cell('E', 40, 202), Cell('G', 40, 203), Cell('H', 40, 204), Cell('K', 40, 205)]
  const EastCol41: seq<Cell> := [Cell('D', 41, 206), Cell('I', 41, 207), Cell('J', 41, 208), Cell('L', 41, 209)]
  const EastCol42: seq<Cell> := [Cell('A', 42, 210), Cell('F', 42, 211), Cell('H', 42, 212), Cell('I', 42, 213), Cell('K', 42, 214)]
  const EastCol43: seq<Cell> := [Cell('C', 43, 215)]
  const EastCol44: seq<Cell> := [Cell('D', 44, 216), Cell('G', 44, 217), Cell('I', 44, 218), Cell('J', 44, 219), Cell('L', 44, 220)]
  const EastCol45: seq<Cell> := [Cell('B', 45, 221), Cell('E', 45, 222), Cell('J', 45, 223)]
  const EastCol46: seq<Cell> := [Cell('H', 46, 224)]
  const EastCol47: seq<Cell> := [Cell('I', 47, 225), Cell('K', 47, 226)]

  /** The east entries numbered in column `j`, top to bottom. */
  function EastColumn(j: int): seq<Cell>
  {
    match j
    case 27 => EastCol27
    case 28 => EastCol28
    case 29 => EastCol29
    case 30 => EastCol30
    case 31 => EastCol31
    case 32 => EastCol32
    case 33 => EastCol33
    case 34 => EastCol34
    case 35 => EastCol35
    case 36 => EastCol36
    case 37 => EastCol37
    case 38 => EastCol38
    case 39 => EastCol39
    case 40 => EastCol40
    case 41 => EastCol41
    case 42 => EastCol42
    case 43 => EastCol43
    case 44 => EastCol44
    case 45 => EastCol45
    case 46 => EastCol46
    case 47 => EastCol47
    case _ => []
  }

  /** How many east ids come before column `j`, counted from the wall's first id. */
  function EastStart(j: int): int
  {
    match j
    case 27 => 123
    case 28 => 125
    case 29 => 129
    case 30 => 136
    case 31 => 143
    case 32 => 151
    case 33 => 158
    case 34 => 164
    case 35 => 171
    case 36 => 177
    case 37 => 184
    case 38 => 189
    case 39 => 194
    case 40 => 200
    case 41 => 205
    case 42 => 209
    case 43 => 214
    case 44 => 215
    case 45 => 220
    case 46 => 223
    case 47 => 224
    case 48 => 226
    case _ => 0
  }

  lemma EastRowAInColumns()
    ensures InColumns(EastA, EastColumn, 27, 47)
  {
  }

  lemma EastRowBInColumns()
    ensures InColumns(EastB, EastColumn, 27, 47)
  {
  }

  lemma EastRowCInColumns()
    ensures InColumns(EastC, EastColumn, 27, 47)
  {
  }

  lemma EastRowDInColumns()
    ensures InColumns(EastD, EastColumn, 27, 47)
  {
  }

  lemma EastRowEInColumns()
    ensures InColumns(EastE, EastColumn, 27, 47)
  {
  }

  lemma EastRowFInColumns()
    ensures InColumns(EastF, EastColumn, 27, 47)
  {
  }

  lemma EastRowGInColumns()
    ensures InColumns(EastG, EastColumn, 27, 47)
  {
  }

  lemma EastRowHInColumns()
    ensures InColumns(EastH, EastColumn, 27, 47)
  {
  }

  lemma EastRowIInColumns()
    ensures InColumns(EastI, EastColumn, 27, 47)
  {
  }

  lemma EastRowJInColumns()
    ensures InColumns(EastJ, EastColumn, 27, 47)
  {
  }

  lemma EastRowKInColumns()
    ensures InColumns(EastK, EastColumn, 27, 47)
  {
  }

  lemma EastRowLInColumns()
    ensures InColumns(EastL, EastColumn, 27, 47)
  {
  }

  /** Every entry of `table` is numbered in a column `lo..hi` and listed in that
      column by `column`. */
  predicate Gathered(table: seq<Cell>, column: int -> seq<Cell>, lo: int, hi: int)
  {
    forall c :: c in table ==> lo <= NumberedCol(c) <= hi && c in column(NumberedCol(c))
  }

  lemma InColumnsGathered(row: seq<Cell>, column: int -> seq<Cell>, lo: int, hi: int)
    requires InColumns(row, column, lo, hi)
    ensures Gathered(row, column, lo, hi)
  {
    forall c | c in row ensures lo <= NumberedCol(c) <= hi && c in column(NumberedCol(c)) {
      var i :| 0 <= i < |row| && row[i] == c;
    }
  }

  /** Twelve rows gathered into columns are gathered together. */
  lemma GatheredRows(a: seq<Cell>, b: seq<Cell>, c: seq<Cell>, d: seq<Cell>, e: seq<Cell>, f: seq<Cell>,
                     g: seq<Cell>, h: seq<Cell>, i: seq<Cell>, j: seq<Cell>, k: seq<Cell>, l: seq<Cell>,
                     column: int -> seq<Cell>, lo: int, hi: int)
    requires InColumns(a, column, lo, hi) && InColumns(b, column, lo, hi) && InColumns(c, column, lo, hi)
    requires InColumns(d, column, lo, hi) && InColumns(e, column, lo, hi) && InColumns(f, column, lo, hi)
    requires InColumns(g, column, lo, hi) && InColumns(h, column, lo, hi) && InColumns(i, column, lo, hi)
    requires InColumns(j, column, lo, hi) && InColumns(k, column, lo, hi) && InColumns(l, column, lo, hi)
    ensures Gathered(a + b + c + d + e + f + g + h + i + j + k + l, column, lo, hi)
  {
    InColumnsGathered(a, column, lo, hi); InColumnsGathered(b, column, lo, hi); InColumnsGathered(c, column, lo, hi);
    InColumnsGathered(d, column, lo, hi); InColumnsGathered(e, column, lo, hi); InColumnsGathered(f, column, lo, hi);
    InColumnsGathered(g, column, lo, hi); InColumnsGathered(h, column, lo, hi); InColumnsGathered(i, column, lo, hi);
    InColumnsGathered(j, column, lo, hi); InColumnsGathered(k, column, lo, hi); InColumnsGathered(l, column, lo, hi);
  }

  lemma {:induction false} RowsChain(col: seq<Cell>, j: int, start: int, p: int, q: int)
    requires ColumnRun(col, j, start)
    requires 0 <= p < q < |col|
    ensures RowIndex(col[p].row) < RowIndex(col[q].row)
    decreases q - p
  {
    if p + 1 < q {
      RowsChain(col, j, start, p + 1, q);
    }
  }

  /** Each column `lo..hi` holds the ids after `start(j)` one by one, top to
      bottom, up to where the next column starts. */
  predicate Runs(column: int -> seq<Cell>, start: int -> int, lo: int, hi: int)
  {
    forall j :: lo <= j <= hi ==> ColumnRun(column(j), j, start(j)) && start(j + 1) == start(j) + |column(j)|
  }

  lemma {:induction false} StartRises(column: int -> seq<Cell>, start: int -> int, lo: int, hi: int, j: int, k: int)
    requires Runs(column, start, lo, hi)
    requires lo <= j <= k <= hi + 1
    ensures start(j) <= start(k)
    decreases k - j
  {
    if j < k {
      StartRises(column, start, lo, hi, j + 1, k);
    }
  }

  /** A table gathered into column runs is numbered in column-major order. */
  lemma ColumnMajorOf(table: seq<Cell>, column: int -> seq<Cell>, start: int -> int, lo: int, hi: int, a: Cell, b: Cell)
    requires Gathered(table, column, lo, hi) && Runs(column, start, lo, hi)
    requires a in table && b in table
    ensures ReadBefore(a, b) <==> a.brick < b.brick
  {
    var ja := NumberedCol(a);
    var jb := NumberedCol(b);
    if ja < jb {
      StartRises(column, start, lo, hi, ja + 1, jb);
    } else if jb < ja {
      StartRises(column, start, lo, hi, jb + 1, ja);
    }
    Compare(a, b, column(ja), column(jb), ja, jb, start(ja), start(jb));
  }

  /** Two entries found in their column runs compare in reading order exactly as
      their ids do, provided earlier columns' runs end before later ones start. */
  lemma Compare(a: Cell, b: Cell, ca: seq<Cell>, cb: seq<Cell>, ja: int, jb: int, sa: int, sb: int)
    requires a in ca && b in cb
    requires ColumnRun(ca, ja, sa) && ColumnRun(cb, jb, sb)
    requires ja == jb ==> ca == cb && sa == sb
    requires ja < jb ==> sa + |ca| <= sb
    requires jb < ja ==> sb + |cb| <= sa
    ensures ReadBefore(a, b) <==> a.brick < b.brick
  {
    var p :| 0 <= p < |ca| && ca[p] == a;
    var q :| 0 <= q < |cb| && cb[q] == b;
    if ja == jb {
      if p < q {
        RowsChain(ca, ja, sa, p, q);
      } else if q < p {
        RowsChain(ca, ja, sa, q, p);
      }
    }
  }

  lemma WestColumn1Run()
    ensures ColumnRun(WestCol1, 1, 0) && 1 == 0 + |WestCol1|
  {
  }

  lemma WestColumn2Run()
    ensures ColumnRun(WestCol2, 2, 1) && 4 == 1 + |WestCol2|
  {
  }

  lemma WestColumn3Run()
    ensures ColumnRun(WestCol3, 3, 4) && 6 == 4 + |WestCol3|
  {
  }

  lemma WestColumn4Run()
    ensures ColumnRun(WestCol4, 4, 6) && 10 == 6 + |WestCol4|
  {
  }

  lemma WestColumn5Run()
    ensures ColumnRun(WestCol5, 5, 10) && 13 == 10 + |WestCol5|
  {
  }

  lemma WestColumn6Run()
    ensures ColumnRun(WestCol6, 6, 13) && 15 == 13 + |WestCol6|
  {
  }

  lemma WestColumn7Run()
    ensures ColumnRun(WestCol7, 7, 15) && 18 == 15 + |WestCol7|
  {
  }

  lemma WestColumn8Run()
    ensures ColumnRun(WestCol8, 8, 18) && 20 == 18 + |WestCol8|
  {
  }

  lemma WestColumn9Run()
    ensures ColumnRun(WestCol9, 9, 20) && 22 == 20 + |WestCol9|
  {
  }

  lemma WestColumn10Run()
    ensures ColumnRun(WestCol10, 10, 22) && 26 == 22 + |WestCol10|
  {
  }

  lemma WestColumn11Run()
    ensures ColumnRun(WestCol11, 11, 26) && 29 == 26 + |WestCol11|
  {
  }

  lemma WestColumn12Run()
    ensures ColumnRun(WestCol12, 12, 29) && 35 == 29 + |WestCol12|
  {
  }

  lemma WestColumn13Run()
    ensures ColumnRun(WestCol13, 13, 35) && 39 == 35 + |WestCol13|
  {
  }

  lemma WestColumn14Run()
    ensures ColumnRun(WestCol14, 14, 39) && 43 == 39 + |WestCol14|
  {
  }

  lemma WestColumn15Run()
    ensures ColumnRun(WestCol15, 15, 43) && 51 == 43 + |WestCol15|
  {
  }

  lemma WestColumn16Run()
    ensures ColumnRun(WestCol16, 16, 51) && 58 == 51 + |WestCol16|
  {
  }

  lemma WestColumn17Run()
    ensures ColumnRun(WestCol17, 17, 58) && 64 == 58 + |WestCol17|
  {
  }

  lemma WestColumn18Run()
    ensures ColumnRun(WestCol18, 18, 64) && 72 == 64 + |WestCol18|
  {
  }

  lemma WestColumn19Run()
    ensures ColumnRun(WestCol19, 19, 72) && 78 == 72 + |WestCol19|
  {
  }

  lemma WestColumn20Run()
    ensures ColumnRun(WestCol20, 20, 78) && 82 == 78 + |WestCol20|
  {
  }

  lemma WestColumn21Run()
    ensures ColumnRun(WestCol21, 21, 82) && 89 == 82 + |WestCol21|
  {
  }

  lemma WestColumn22Run()
    ensures ColumnRun(WestCol22, 22, 89) && 96 == 89 + |WestCol22|
  {
  }

  lemma WestColumn23Run()
    ensures ColumnRun(WestCol23, 23, 96) && 102 == 96 + |WestCol23|
  {
  }

  lemma WestColumn24Run()
    ensures ColumnRun(WestCol24, 24, 102) && 108 == 102 + |WestCol24|
  {
  }

  lemma WestColumn25Run()
    ensures ColumnRun(WestCol25, 25, 108) && 116 == 108 + |WestCol25|
  {
  }

  lemma WestColumn26Run()
    ensures ColumnRun(WestCol26, 26, 116) && 123 == 116 + |WestCol26|
  {
  }

  lemma WestColumnRuns1To6(j: int)
    requires 1 <= j <= 6
    ensures ColumnRun(WestColumn(j), j, WestStart(j)) && WestStart(j + 1) == WestStart(j) + |WestColumn(j)|
  {
    if j == 1 { WestColumn1Run(); } else if j == 2 { WestColumn2Run(); } else if j == 3 { WestColumn3Run(); } else if j == 4 { WestColumn4Run(); } else if j == 5 { WestColumn5Run(); } else { WestColumn6Run(); }
  }

  lemma WestColumnRuns7To12(j: int)
    requires 7 <= j <= 12
    ensures ColumnRun(WestColumn(j), j, WestStart(j)) && WestStart(j + 1) == WestStart(j) + |WestColumn(j)|
  {
    if j == 7 { WestColumn7Run(); } else if j == 8 { WestColumn8Run(); } else if j == 9 { WestColumn9Run(); } else if j == 10 { WestColumn10Run(); } else if j == 11 { WestColumn11Run(); } else { WestColumn12Run(); }
  }

  lemma WestColumnRuns13To18(j: int)
    requires 13 <= j <= 18
    ensures ColumnRun(WestColumn(j), j, WestStart(j)) && WestStart(j + 1) == WestStart(j) + |WestColumn(j)|
  {
    if j == 13 { WestColumn13Run(); } else if j == 14 { WestColumn14Run(); } else if j == 15 { WestColumn15Run(); } else if j == 16 { WestColumn16Run(); } else if j == 17 { WestColumn17Run(); } else { WestColumn18Run(); }
  }

  lemma WestColumnRuns19To24(j: int)
    requires 19 <= j <= 24
    ensures ColumnRun(WestColumn(j), j, WestStart(j)) && WestStart(j + 1) == WestStart(j) + |WestColumn(j)|
  {
    if j == 19 { WestColumn19Run(); } else if j == 20 { WestColumn20Run(); } else if j == 21 { WestColumn21Run(); } else if j == 22 { WestColumn22Run(); } else if j == 23 { WestColumn23Run(); } else { WestColumn24Run(); }
  }

  lemma WestColumnRuns25To26(j: int)
    requires 25 <= j <= 26
    ensures ColumnRun(WestColumn(j), j, WestStart(j)) && WestStart(j + 1) == WestStart(j) + |WestColumn(j)|
  {
    if j == 25 { WestColumn25Run(); } else { WestColumn26Run(); }
  }

  /** Column `j` of the west wall holds the ids after `WestStart(j)` one by one,
      top to bottom, up to where column `j + 1` starts. */
  lemma WestColumnRuns(j: int)
    requires 1 <= j <= 26
    ensures ColumnRun(WestColumn(j), j, WestStart(j)) && WestStart(j + 1) == WestStart(j) + |WestColumn(j)|
  {
    if j <= 6 { WestColumnRuns1To6(j); } else if j <= 12 { WestColumnRuns7To12(j); } else if j <= 18 { WestColumnRuns13To18(j); } else if j <= 24 { WestColumnRuns19To24(j); } else { WestColumnRuns25To26(j); }
  }

  lemma WestRuns()
    ensures Runs(WestColumn, WestStart, 1, 26)
  {
    forall j | 1 <= j <= 26
      ensures ColumnRun(WestColumn(j), j, WestStart(j)) && WestStart(j + 1) == WestStart(j) + |WestColumn(j)|
    {
      WestColumnRuns(j);
    }
  }

  /** Every west entry sits in the column it is numbered in. */
  lemma WestGathered()
    ensures Gathered(West, WestColumn, 1, 26)
  {
    WestRowAInColumns(); WestRowBInColumns(); WestRowCInColumns(); WestRowDInColumns(); WestRowEInColumns(); WestRowFInColumns();
    WestRowGInColumns(); WestRowHInColumns(); WestRowIInColumns(); WestRowJInColumns(); WestRowKInColumns(); WestRowLInColumns();
    GatheredRows(WestA, WestB, WestC, WestD, WestE, WestF, WestG, WestH, WestI, WestJ, WestK, WestL, WestColumn, 1, 26);
  }

  /** The west table is numbered column by column, top to bottom within a
      column: one entry comes before another in that reading order exactly when
      its id is lower (`I2` read as column 12). */
  lemma WestColumnMajor(a: Cell, b: Cell)
    requires a in West && b in West
    ensures ReadBefore(a, b) <==> a.brick < b.brick
  {
    WestGathered();
    WestRuns();
    ColumnMajorOf(West, WestColumn, WestStart, 1, 26, a, b);
  }

  lemma EastColumn27Run()
    ensures ColumnRun(EastCol27, 27, 123) && 125 == 123 + |EastCol27|
  {
  }

  lemma EastColumn28Run()
    ensures ColumnRun(EastCol28, 28, 125) && 129 == 125 + |EastCol28|
  {
  }

  lemma EastColumn29Run()
    ensures ColumnRun(EastCol29, 29, 129) && 136 == 129 + |EastCol29|
  {
  }

  lemma EastColumn30Run()
    ensures ColumnRun(EastCol30, 30, 136) && 143 == 136 + |EastCol30|
  {
  }

  lemma EastColumn31Run()
    ensures ColumnRun(EastCol31, 31, 143) && 151 == 143 + |EastCol31|
  {
  }

  lemma EastColumn32Run()
    ensures ColumnRun(EastCol32, 32, 151) && 158 == 151 + |EastCol32|
  {
  }

  lemma EastColumn33Run()
    ensures ColumnRun(EastCol33, 33, 158) && 164 == 158 + |EastCol33|
  {
  }

  lemma EastColumn34Run()
    ensures ColumnRun(EastCol34, 34, 164) && 171 == 164 + |EastCol34|
  {
  }

  lemma EastColumn35Run()
    ensures ColumnRun(EastCol35, 35, 171) && 177 == 171 + |EastCol35|
  {
  }

  lemma EastColumn36Run()
    ensures ColumnRun(EastCol36, 36, 177) && 184 == 177 + |EastCol36|
  {
  }

  lemma EastColumn37Run()
    ensures ColumnRun(EastCol37, 37, 184) && 189 == 184 + |EastCol37|
  {
  }

  lemma EastColumn38Run()
    ensures ColumnRun(EastCol38, 38, 189) && 194 == 189 + |EastCol38|
  {
  }

  lemma EastColumn39Run()
    ensures ColumnRun(EastCol39, 39, 194) && 200 == 194 + |EastCol39|
  {
  }

  lemma EastColumn40Run()
    ensures ColumnRun(EastCol40, 40, 200) && 205 == 200 + |EastCol40|
  {
  }

  lemma EastColumn41Run()
    ensures ColumnRun(EastCol41, 41, 205) && 209 == 205 + |EastCol41|
  {
  }

  lemma EastColumn42Run()
    ensures ColumnRun(EastCol42, 42, 209) && 214 == 209 + |EastCol42|
  {
  }

  lemma EastColumn43Run()
    ensures ColumnRun(EastCol43, 43, 214) && 215 == 214 + |EastCol43|
  {
  }

  lemma EastColumn44Run()
    ensures ColumnRun(EastCol44, 44, 215) && 220 == 215 + |EastCol44|
  {
  }

  lemma EastColumn45Run()
    ensures ColumnRun(EastCol45, 45, 220) && 223 == 220 + |EastCol45|
  {
  }

  lemma EastColumn46Run()
    ensures ColumnRun(EastCol46, 46, 223) && 224 == 223 + |EastCol46|
  {
  }

  lemma EastColumn47Run()
    ensures ColumnRun(EastCol47, 47, 224) && 226 == 224 + |EastCol47|
  {
  }

  lemma EastColumnRuns27To32(j: int)
    requires 27 <= j <= 32
    ensures ColumnRun(EastColumn(j), j, EastStart(j)) && EastStart(j + 1) == EastStart(j) + |EastColumn(j)|
  {
    if j == 27 { EastColumn27Run(); } else if j == 28 { EastColumn28Run(); } else if j == 29 { EastColumn29Run(); } else if j == 30 { EastColumn30Run(); } else if j == 31 { EastColumn31Run(); } else { EastColumn32Run(); }
  }

  lemma EastColumnRuns33To38(j: int)
    requires 33 <= j <= 38
    ensures ColumnRun(EastColumn(j), j, EastStart(j)) && EastStart(j + 1) == EastStart(j) + |EastColumn(j)|
  {
    if j == 33 { EastColumn33Run(); } else if j == 34 { EastColumn34Run(); } else if j == 35 { EastColumn35Run(); } else if j == 36 { EastColumn36Run(); } else if j == 37 { EastColumn37Run(); } else { EastColumn38Run(); }
  }

  lemma EastColumnRuns39To44(j: int)
    requires 39 <= j <= 44
    ensures ColumnRun(EastColumn(j), j, EastStart(j)) && EastStart(j + 1) == EastStart(j) + |EastColumn(j)|
  {
    if j == 39 { EastColumn39Run(); } else if j == 40 { EastColumn40Run(); } else if j == 41 { EastColumn41Run(); } else if j == 42 { EastColumn42Run(); } else if j == 43 { EastColumn43Run(); } else { EastColumn44Run(); }
  }

  lemma EastColumnRuns45To47(j: int)
    requires 45 <= j <= 47
    ensures ColumnRun(EastColumn(j), j, EastStart(j)) && EastStart(j + 1) == EastStart(j) + |EastColumn(j)|
  {
    if j == 45 { EastColumn45Run(); } else if j == 46 { EastColumn46Run(); } else { EastColumn47Run(); }
  }

  /** Column `j` of the east wall holds the ids after `EastStart(j)` one by one,
      top to bottom, up to where column `j + 1` starts. */
  lemma EastColumnRuns(j: int)
    requires 27 <= j <= 47
    ensures ColumnRun(EastColumn(j), j, EastStart(j)) && EastStart(j + 1) == EastStart(j) + |EastColumn(j)|
  {
    if j <= 32 { EastColumnRuns27To32(j); } else if j <= 38 { EastColumnRuns33To38(j); } else if j <= 44 { EastColumnRuns39To44(j); } else { EastColumnRuns45To47(j); }
  }

  lemma EastRuns()
    ensures Runs(EastColumn, EastStart, 27, 47)
  {
    forall j | 27 <= j <= 47
      ensures ColumnRun(EastColumn(j), j, EastStart(j)) && EastStart(j + 1) == EastStart(j) + |EastColumn(j)|
    {
      EastColumnRuns(j);
    }
  }

  /** Every east entry sits in the column it is numbered in. */
  lemma EastGathered()
    ensures Gathered(East, EastColumn, 27, 47)
  {
    EastRowAInColumns(); EastRowBInColumns(); EastRowCInColumns(); EastRowDInColumns(); EastRowEInColumns(); EastRowFInColumns();
    EastRowGInColumns(); EastRowHInColumns(); EastRowIInColumns(); EastRowJInColumns(); EastRowKInColumns(); EastRowLInColumns();
    GatheredRows(EastA, EastB, EastC, EastD, EastE, EastF, EastG, EastH, EastI, EastJ, EastK, EastL, EastColumn, 27, 47);
  }

  /** The east table is numbered column by column, top to bottom within a
      column: one entry comes before another in that reading order exactly when
      its id is lower. */
  lemma EastColumnMajor(a: Cell, b: Cell)
    requires a in East && b in East
    ensures ReadBefore(a, b) <==> a.brick < b.brick
  {
    EastGathered();
    EastRuns();
    ColumnMajorOf(East, EastColumn, EastStart, 27, 47, a, b);
  }
}
