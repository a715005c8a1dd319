/** The wall grids the video page, the preview modal and the brick page draw from the
    brick tables: which label each grid cell carries, which brick (if any) sits
    there, and how each page classifies the cell — assigned video, broken, viewed
    (highlighted), droppable, with or without edit controls. */
module WallGrid {
  import opened Wrappers
  import opened Entities
  import opened WallTables

  /** The row letters of a grid, as row indices: `col[1] - col[0]` of them (a
      negative length clamps to none), the k-th being `rowStart + k`. */
  function Letters(size: WallSize): (r: seq<int>)
    ensures |r| == if size.colLast < size.colFirst then 0 else size.colLast - size.colFirst
    ensures forall k :: 0 <= k < |r| ==> r[k] == size.rowStart + k
  {
    var n := if size.colLast < size.colFirst then 0 else size.colLast - size.colFirst;
    seq(n, k requires 0 <= k < n => size.rowStart + k)
  }

  /** A cell label: a row index, or None where the letter is `undefined` (the
      header row, or a row past the last letter), and a column. */
  datatype Label = Label(row: Option<int>, col: int)

  /** The label of the cell in grid row `i` (row 0 is the column header) and column
      `j`: letter `i - 1` followed by the column. */
  function GridLabel(size: WallSize, i: int, j: int): (r: Label)
    ensures r.col == j
    ensures 1 <= i <= |Letters(size)| ==> r.row == Some(size.rowStart + i - 1)
    ensures !(1 <= i <= |Letters(size)|) ==> r.row.None?
  {
    var letters := Letters(size);
    if 1 <= i <= |letters| then Label(Some(letters[i - 1]), j) else Label(None, j)
  }

  /** The brick the table stores under a label; None is a gap, including every label
      with an undefined letter. */
  function BrickAt(table: seq<Cell>, at: Label): (r: Option<int>)
    ensures r.Some? ==> at.row.Some? && (exists c :: c in table && RowIndex(c.row) == at.row.value
                                                     && c.col == at.col && c.brick == r.value)
    ensures r.None? <==> at.row.None? || forall c :: c in table ==> RowIndex(c.row) != at.row.value || c.col != at.col
  {
    if at.row.None? then None else Lookup(table, at.row.value, at.col)
  }

  /** The grid's brick rows: one per row 1..`row[1]` of the loop (row 0 is the
      header), each with one cell per column `col[0]..col[1]`. */
  function Grid(size: WallSize, table: seq<Cell>): (g: seq<seq<Option<int>>>)
    ensures |g| == if size.rowEnd < 0 then 0 else size.rowEnd
    ensures forall i :: 0 <= i < |g| ==>
              |g[i]| == (if size.colLast < size.colFirst then 0 else size.colLast - size.colFirst + 1)
    ensures forall i, k :: 0 <= i < |g| && 0 <= k < |g[i]| ==>
              g[i][k] == BrickAt(table, GridLabel(size, i + 1, size.colFirst + k))
  {
    var rows := if size.rowEnd < 0 then 0 else size.rowEnd;
    var cols := if size.colLast < size.colFirst then 0 else size.colLast - size.colFirst + 1;
    seq(rows, i requires 0 <= i < rows =>
      seq(cols, k requires 0 <= k < cols => BrickAt(table, GridLabel(size, i + 1, size.colFirst + k))))
  }

  /** Letters suffice for every row of the wall, and the grid starts at row 'A'. */
  predicate LettersCoverRows(size: WallSize)
  {
    size.rowStart == 0 && size.rowEnd <= size.colLast - size.colFirst
  }

  /** On a wall whose letters cover its rows, an entry on the wall appears in the
      grid, in the row of its letter and the column of its number. */
  lemma EntryInGrid(size: WallSize, table: seq<Cell>, c: Cell)
    requires LettersCoverRows(size)
    requires c in table && OnWall(size, c)
    ensures var g := Grid(size, table);
      var i := RowIndex(c.row) - size.rowStart;
      var k := c.col - size.colFirst;
      0 <= i < |g| && 0 <= k < |g[i]| && g[i][k].Some?
  {
    var i := RowIndex(c.row) - size.rowStart;
    assert GridLabel(size, i + 1, c.col).row == Some(RowIndex(c.row));
  }

  /** With unique labels, the cell an entry appears in shows that entry's brick. */
  lemma EntryBrickInGrid(size: WallSize, table: seq<Cell>, c: Cell)
    requires LettersCoverRows(size)
    requires UniqueLabels(table)
    requires c in table && OnWall(size, c)
    ensures var g := Grid(size, table);
      var i := RowIndex(c.row) - size.rowStart;
      var k := c.col - size.colFirst;
      0 <= i < |g| && 0 <= k < |g[i]| && g[i][k] == Some(c.brick)
  {
    var i := RowIndex(c.row) - size.rowStart;
    assert GridLabel(size, i + 1, c.col).row == Some(RowIndex(c.row));
    LookupEntry(table, c);
  }

  /** Both walls have letters for all twelve rows: 25 on the west wall, 20 on the
      east wall. */
  lemma WallsHaveLetters()
    ensures LettersCoverRows(WestSize) && |Letters(WestSize)| == 25
    ensures LettersCoverRows(EastSize) && |Letters(EastSize)| == 20
  {
  }

  // ---------------------------------------------------------------------------
  // Broken and viewed bricks

  /** `VideoPage`'s `brokenBricks`: the cached bricks with at least one status, in
      order. */
  function BrokenBricks(bricks: seq<Brick>): (r: seq<Brick>)
    ensures forall b :: b in r <==> b in bricks && |b.statuses| > 0
    ensures |r| <= |bricks|
  {
    if bricks == [] then []
    else (if |bricks[0].statuses| > 0 then [bricks[0]] else []) + BrokenBricks(bricks[1..])
  }

  /** The ids of the bricks carrying the viewed status, in order (the
      `bricksWithViewingStatus` effect once it has run); none when no status is
      viewed. */
  function ViewedIds(bricks: seq<Brick>, viewing: Option<Status>): (r: seq<int>)
    ensures forall x :: x in r <==>
              viewing.Some? && exists b :: b in bricks && b.id == x && HasStatus(b, viewing.value.id)
  {
    if viewing.None? || bricks == [] then []
    else (if HasStatus(bricks[0], viewing.value.id) then [bricks[0].id] else [])
         + ViewedIds(bricks[1..], viewing)
  }

  /** Some brick of the list has id `n`, as `brokenBricks.some(brick => brick.id === n)`. */
  predicate Listed(bricks: seq<Brick>, n: int)
  {
    exists b :: b in bricks && b.id == n
  }

  /** A brick carrying the viewed status is broken, so filtering to broken bricks
      first does not change the viewed ids: the video page and the brick page
      highlight the same bricks. */
  lemma {:induction false} ViewedIdsOfBroken(bricks: seq<Brick>, viewing: Option<Status>)
    ensures ViewedIds(BrokenBricks(bricks), viewing) == ViewedIds(bricks, viewing)
  {
    if viewing.Some? && bricks != [] {
      ViewedIdsOfBroken(bricks[1..], viewing);
      var b := bricks[0];
      var broken := BrokenBricks(bricks);
      assert ViewedIds(bricks, viewing)
             == (if HasStatus(b, viewing.value.id) then [b.id] else []) + ViewedIds(bricks[1..], viewing);
      if |b.statuses| > 0 {
        assert broken == [b] + BrokenBricks(bricks[1..]);
        assert broken[0] == b && broken[1..] == BrokenBricks(bricks[1..]);
        assert ViewedIds(broken, viewing)
               == (if HasStatus(b, viewing.value.id) then [b.id] else []) + ViewedIds(broken[1..], viewing);
      } else {
        assert !HasStatus(b, viewing.value.id);
        assert broken == BrokenBricks(bricks[1..]);
      }
    }
  }

  // ---------------------------------------------------------------------------
  // Cell classification

  /** The video a cell shows: the first location with the brick's number, if its
      video field is truthy, resolved against the video list. A gap's `Number` is
      NaN, which matches no location. */
  function AssignedVideo(locations: seq<Location>, videos: seq<Video>, brick: Option<int>): (r: Option<Video>)
    ensures brick.None? ==> r.None?
    ensures r.Some? ==> r.value in videos && brick.Some?
                        && exists l :: l in locations && l.number == brick.value && l.video == Ref(r.value.id)
  {
    if brick.None? then None
    else match FindLocation(locations, brick.value)
      case None => None
      case Some(l) => if l.video.Truthy() then FindVideo(videos, l.video.id) else None
  }

  /** No two videos share an id. */
  predicate UniqueVideoIds(videos: seq<Video>)
  {
    forall i, j :: 0 <= i < j < |videos| ==> videos[i].id != videos[j].id
  }

  /** With unique location numbers and video ids, a brick shows video `v` exactly
      when its location refers to `v` and `v` is in the list. */
  lemma AssignedVideoExact(locations: seq<Location>, videos: seq<Video>, n: int, v: Video)
    requires UniqueNumbers(locations) && UniqueVideoIds(videos)
    ensures AssignedVideo(locations, videos, Some(n)) == Some(v) <==>
            v in videos && exists l :: l in locations && l.number == n && l.video == Ref(v.id)
  {
    if v in videos && exists l :: l in locations && l.number == n && l.video == Ref(v.id) {
      var l :| l in locations && l.number == n && l.video == Ref(v.id);
      FindUniqueLocation(locations, l);
      FindUniqueVideo(videos, v);
    }
  }

  /** With unique ids, `find` returns the one video with that id. */
  lemma FindUniqueVideo(videos: seq<Video>, v: Video)
    requires UniqueVideoIds(videos)
    requires v in videos
    ensures FindVideo(videos, v.id) == Some(v)
  {
    var f := FindVideo(videos, v.id);
    var i :| 0 <= i < |videos| && videos[i] == f.value && forall j :: 0 <= j < i ==> videos[j].id != v.id;
    var k :| 0 <= k < |videos| && videos[k] == v;
    assert !(i < k) && !(k < i);
  }

  /** How `Wall` draws a cell on the video page. */
  datatype WallCell = WallCell(brick: Option<int>, video: Option<Video>, broken: bool, viewing: bool,
                               droppable: bool, controls: bool)

  /** `Wall.generateGrid` for one label. */
  function WallCellAt(table: seq<Cell>, locations: seq<Location>, videos: seq<Video>, brokenBricks: seq<Brick>,
                      viewing: Option<Status>, editing: bool, at: Label): (r: WallCell)
    ensures r.brick == BrickAt(table, at)
    ensures r.droppable <==> r.brick.Some?
    ensures r.brick.None? ==> r.video.None? && !r.broken && !r.viewing
    ensures r.viewing <==> (r.brick.Some? && viewing.Some?
                            && exists b :: b in brokenBricks && b.id == r.brick.value && HasStatus(b, viewing.value.id))
    ensures r.broken <==> r.brick.Some? && Listed(brokenBricks, r.brick.value) && !r.viewing
    ensures r.controls <==> editing && r.video.Some?
  {
    var brick := BrickAt(table, at);
    var video := AssignedVideo(locations, videos, brick);
    var viewed := brick.Some? && brick.value in ViewedIds(brokenBricks, viewing);
    var broken := brick.Some? && Listed(brokenBricks, brick.value) && !viewed;
    WallCell(brick, video, broken, viewed, brick.Some?, editing && video.Some?)
  }

  /** How `PreviewWall` draws a cell in the preview modal. */
  datatype PreviewCell = PreviewCell(brick: Option<int>, video: Option<Video>, broken: bool,
                                     droppable: bool, controls: bool)

  /** `PreviewWall.generateGrid` for one label: no highlight, and the remove and
      duplicate buttons on every occupied cell. */
  function PreviewCellAt(table: seq<Cell>, locations: seq<Location>, videos: seq<Video>, brokenBricks: seq<Brick>,
                         at: Label): (r: PreviewCell)
    ensures r.brick == BrickAt(table, at)
    ensures r.droppable <==> r.brick.Some?
    ensures r.broken <==> r.brick.Some? && Listed(brokenBricks, r.brick.value)
    ensures r.controls <==> r.video.Some?
  {
    var brick := BrickAt(table, at);
    var video := AssignedVideo(locations, videos, brick);
    PreviewCell(brick, video, brick.Some? && Listed(brokenBricks, brick.value), brick.Some?, video.Some?)
  }

  /** The preview draws the same bricks and videos as the video page; a brick it
      marks broken is one the video page marks broken or viewed, never both. */
  lemma PreviewAgreesWithWall(table: seq<Cell>, locations: seq<Location>, videos: seq<Video>,
                              brokenBricks: seq<Brick>, viewing: Option<Status>, editing: bool, at: Label)
    ensures var w := WallCellAt(table, locations, videos, brokenBricks, viewing, editing, at);
      var p := PreviewCellAt(table, locations, videos, brokenBricks, at);
      p.brick == w.brick && p.video == w.video && p.droppable == w.droppable
      && (p.broken <==> w.broken || w.viewing) && !(w.broken && w.viewing)
  {
  }

  /** How `BrickWall` draws a cell on the brick page. */
  datatype BrickCell = BrickCell(brick: Option<int>, viewing: bool, defaultColour: bool, click: Option<int>)

  /** `BrickWall.generateGrid` for one label: highlight over every cached brick, the
      default colour on unhighlighted bricks only, and a click that passes
      `Number(brickNumber)` — NaN (None) for a gap. */
  function BrickCellAt(table: seq<Cell>, bricks: seq<Brick>, viewing: Option<Status>, at: Label): (r: BrickCell)
    ensures r.brick == BrickAt(table, at) && r.click == r.brick
    ensures r.viewing <==> (r.brick.Some? && viewing.Some?
                            && exists b :: b in bricks && b.id == r.brick.value && HasStatus(b, viewing.value.id))
    ensures r.defaultColour <==> r.brick.Some? && !r.viewing
  {
    var brick := BrickAt(table, at);
    var viewed := brick.Some? && brick.value in ViewedIds(bricks, viewing);
    BrickCell(brick, viewed, brick.Some? && !viewed, brick)
  }

  /** The video page, which is handed only the broken bricks, highlights exactly the
      cells the brick page highlights from the whole cache. */
  lemma HighlightAgrees(table: seq<Cell>, locations: seq<Location>, videos: seq<Video>, bricks: seq<Brick>,
                        viewing: Option<Status>, editing: bool, at: Label)
    ensures WallCellAt(table, locations, videos, BrokenBricks(bricks), viewing, editing, at).viewing
            == BrickCellAt(table, bricks, viewing, at).viewing
  {
    ViewedIdsOfBroken(bricks, viewing);
  }
}
