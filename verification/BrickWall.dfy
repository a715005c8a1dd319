/** The brick page's wall: clicking a brick (creating it on the server when it is
    not cached yet), keeping the selected brick in step with the cache, and the
    hand-over between the brick-status modal and its add and remove sub-modals. */
module BrickWall {
  import opened Wrappers
  import opened Entities

  /** The wall's selection and which modal is open. */
  datatype Modals = Modals(selected: Option<Brick>, selectedStatus: Option<Status>,
                           showStatus: bool, showAdd: bool, showRemove: bool)

  /** The wall's brick cache together with its modal state. */
  datatype WallState = WallState(bricks: seq<Brick>, modals: Modals)

  /** The brick-status modal is drawn only when it is open and a brick is selected. */
  predicate StatusModalShown(m: Modals)
  {
    m.showStatus && m.selected.Some?
  }

  /** `handleBrickClick` for brick `n`. A cached brick is selected as it is; an
      uncached one is POSTed with no statuses, and `created` is the server's reply,
      None when the request fails. The status modal opens either way. */
  function Click(s: WallState, n: int, created: Option<Brick>): (r: WallState)
    ensures r.modals.showStatus
    ensures r.modals.showAdd == s.modals.showAdd && r.modals.showRemove == s.modals.showRemove
    ensures r.modals.selectedStatus == s.modals.selectedStatus
    ensures (exists b :: b in s.bricks && b.id == n) ==>
              r.bricks == s.bricks && r.modals.selected.Some? && r.modals.selected.value in s.bricks
              && r.modals.selected.value.id == n
    ensures (forall b :: b in s.bricks ==> b.id != n) && created.Some? ==>
              r.bricks == s.bricks + [created.value] && r.modals.selected == Some(Brick(n, []))
    ensures (forall b :: b in s.bricks ==> b.id != n) && created.None? ==>
              r.bricks == s.bricks && r.modals.selected == s.modals.selected
  {
    match FindBrick(s.bricks, n)
    case Some(b) => s.(modals := s.modals.(selected := Some(b), showStatus := true))
    case None =>
      match created
      case Some(c) => WallState(s.bricks + [c], s.modals.(selected := Some(Brick(n, [])), showStatus := true))
      case None => s.(modals := s.modals.(showStatus := true))
  }

  /** A click on a gap passes `Number(undefined)`, NaN: no cached brick matches, and
      the POST of a brick without a valid id fails, so only the open flag is set. */
  function ClickGap(s: WallState): (r: WallState)
    ensures r.bricks == s.bricks && r.modals.selected == s.modals.selected && r.modals.showStatus
    ensures s.modals.selected.None? ==> !StatusModalShown(r.modals)
  {
    s.(modals := s.modals.(showStatus := true))
  }

  /** The effect that re-reads the selected brick from the cache whenever the cache
      changes; a brick that left the cache leaves nothing selected. */
  function Resync(s: WallState): (r: WallState)
    ensures r.bricks == s.bricks
    ensures s.modals.selected.None? ==> r == s
    ensures s.modals.selected.Some? ==> r.modals.selected == FindBrick(s.bricks, s.modals.selected.value.id)
    ensures r.modals.showStatus == s.modals.showStatus && r.modals.showAdd == s.modals.showAdd
            && r.modals.showRemove == s.modals.showRemove && r.modals.selectedStatus == s.modals.selectedStatus
  {
    if s.modals.selected.Some? then s.(modals := s.modals.(selected := FindBrick(s.bricks, s.modals.selected.value.id)))
    else s
  }

  /** Closing the status modal drops the selection. */
  function CloseStatus(m: Modals): (r: Modals)
    ensures !StatusModalShown(r) && r.selected.None?
  {
    m.(selected := None, showStatus := false)
  }

  /** Opening the add sub-modal hides the status modal. */
  function OpenAdd(m: Modals): (r: Modals)
    ensures r.showAdd && !StatusModalShown(r)
  {
    m.(showAdd := true, showStatus := false)
  }

  /** Closing the add sub-modal reopens the status modal. */
  function CloseAdd(m: Modals): (r: Modals)
    ensures !r.showAdd && r.showStatus && r.selected == m.selected
  {
    m.(showStatus := true, showAdd := false)
  }

  /** Opening the remove sub-modal for a status hides the status modal. */
  function OpenRemove(m: Modals, status: Status): (r: Modals)
    ensures r.showRemove && r.selectedStatus == Some(status) && !StatusModalShown(r)
  {
    m.(selectedStatus := Some(status), showRemove := true, showStatus := false)
  }

  /** Closing the remove sub-modal clears the status and reopens the status modal. */
  function CloseRemove(m: Modals): (r: Modals)
    ensures !r.showRemove && r.showStatus && r.selectedStatus.None? && r.selected == m.selected
  {
    m.(selectedStatus := None, showStatus := true, showRemove := false)
  }

  /** After a brick is created and the cache effect runs, the selection is the
      server's brick, since no cached brick had that id before it. */
  lemma ClickThenResync(s: WallState, n: int, created: Brick)
    requires forall b :: b in s.bricks ==> b.id != n
    requires created.id == n
    ensures Resync(Click(s, n, Some(created))).modals.selected == Some(created)
    ensures StatusModalShown(Resync(Click(s, n, Some(created))).modals)
  {
    var bricks := s.bricks + [created];
    var f := FindBrick(bricks, n);
    var i :| 0 <= i < |bricks| && bricks[i] == f.value && forall j :: 0 <= j < i ==> bricks[j].id != n;
    assert bricks[|s.bricks|] == created;
  }

  /** Opening a sub-modal from the status modal and closing it again returns to the
      status modal exactly as it was. */
  lemma SubModalRoundTrip(m: Modals, status: Status)
    requires m.showStatus && !m.showAdd && !m.showRemove && m.selectedStatus.None?
    ensures CloseAdd(OpenAdd(m)) == m
    ensures CloseRemove(OpenRemove(m, status)) == m
  {
  }
}
