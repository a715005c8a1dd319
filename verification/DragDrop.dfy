/** The drag-and-drop handlers of the video page and of the preview modal: dragging a
    video from the list, from a wall brick or from the duplicate slot (brick number
    -1), dropping it on a brick or back on the slot, and removing a brick's video.
    The PATCH requests each branch sends are left out; only the local location list
    and drag state are modelled. */
module DragDrop {
  import opened Wrappers
  import opened Entities
  import opened Placement

  /** The brick number the walls give the duplicate slot, both as a drag source and
      as a drop target. */
  const DuplicateSlot: int := -1

  /** A video being dragged from the wall and the brick number it came from. */
  datatype Drag = Drag(video: Video, src: int)

  /** The state the video page's handlers share: the show's locations, the wall
      container's drag, and the video page's own drag from the list. */
  datatype Page = Page(locations: seq<Location>, wallDrag: Option<Drag>, listDrag: Option<Video>)

  /** The preview modal's state: the locations it was handed and its own drag. */
  datatype Preview = Preview(locations: seq<Location>, drag: Option<Drag>)

  /** A drop on a number no location carries reads `.video` of `undefined` and throws. */
  datatype Fault = MissingLocation

  /** The first location numbered `dest`, the one `find` returns, holds a video. */
  predicate Occupied(locations: seq<Location>, dest: int)
  {
    var f := FindLocation(locations, dest);
    f.Some? && f.value.video.Truthy()
  }

  /** With unique numbers, a brick is occupied exactly when its location holds a
      video. */
  lemma OccupiedUnique(locations: seq<Location>, l: Location)
    requires UniqueNumbers(locations) && l in locations
    ensures Occupied(locations, l.number) <==> l.video.Truthy()
  {
    FindUniqueLocation(locations, l);
  }

  /** A copy onto `dest` (from the list or the duplicate slot): an empty destination
      receives the video, an occupied one keeps its own, and a missing one throws. */
  function PlaceCopy(locations: seq<Location>, dest: int, v: Video): (r: Result<seq<Location>, Fault>)
    ensures r.Err? <==> forall l :: l in locations ==> l.number != dest
    ensures r.Ok? && Occupied(locations, dest) ==> r.value == locations
    ensures r.Ok? && !Occupied(locations, dest) ==> r.value == SetVideo(locations, dest, Ref(v.id))
  {
    match FindLocation(locations, dest)
    case None => Err(MissingLocation)
    case Some(l) =>
      if l.video.Truthy() then Ok(locations)
      else Ok(SetVideo(locations, dest, Ref(v.id)))
  }

  /** A drop from wall brick `src` onto wall brick `dest`: onto an occupied brick the
      two swap, the source taking the destination's video; otherwise the video moves
      and the source is left holding `''`. */
  function Rearrange(locations: seq<Location>, src: int, dest: int, v: Video): (r: seq<Location>)
    ensures |r| == |locations|
    ensures forall i :: 0 <= i < |locations| ==> r[i].number == locations[i].number
    ensures forall i :: 0 <= i < |locations| && locations[i].number != src && locations[i].number != dest
              ==> r[i] == locations[i]
    ensures forall i :: 0 <= i < |locations| && locations[i].number == dest ==> r[i].video == Ref(v.id)
  {
    var d := FindLocation(locations, dest);
    if d.Some? && d.value.video.Truthy() then
      SetVideo(SetVideo(locations, src, d.value.video), dest, Ref(v.id))
    else
      SetVideo(SetVideo(locations, src, Blank), dest, Ref(v.id))
  }

  /** `VideoPage.handleDrop`: a drop of a video dragged from the list. */
  function ListDrop(p: Page, dest: int, editing: bool): (r: Result<Page, Fault>)
    ensures !editing || p.listDrag.None? ==> r == Ok(p)
    ensures editing && p.listDrag.Some? && dest < 0 ==> r == Ok(p.(listDrag := None))
    ensures r.Ok? ==> r.value.wallDrag == p.wallDrag
    ensures r.Ok? && editing && p.listDrag.Some? ==> r.value.listDrag.None?
  {
    if !editing || p.listDrag.None? then Ok(p)
    else if dest < 0 then Ok(p.(listDrag := None))
    else
      match PlaceCopy(p.locations, dest, p.listDrag.value)
      case Err(e) => Err(e)
      case Ok(ls) => Ok(p.(locations := ls, listDrag := None))
  }

  /** `WallContainer.handleDrop`: a drop of a video dragged on the wall; with nothing
      dragged on the wall, the list's handler takes the drop. */
  function WallDrop(p: Page, dest: int, editing: bool): (r: Result<Page, Fault>)
    ensures !editing ==> r == Ok(p)
    ensures editing && p.wallDrag.Some? && dest < 0 ==> r == Ok(p.(wallDrag := None))
    ensures r.Ok? && editing ==> r.value.wallDrag.None?
    ensures editing && p.wallDrag.None? ==> r == ListDrop(p, dest, editing)
  {
    if !editing then Ok(p)
    else if p.wallDrag.Some? then
      var d := p.wallDrag.value;
      if dest < 0 then Ok(p.(wallDrag := None))
      else if d.src < 0 then
        match PlaceCopy(p.locations, dest, d.video)
        case Err(e) => Err(e)
        case Ok(ls) => Ok(p.(locations := ls, wallDrag := None))
      else Ok(p.(locations := Rearrange(p.locations, d.src, dest, d.video), wallDrag := None))
    else
      match ListDrop(p, dest, editing)
      case Err(e) => Err(e)
      case Ok(q) => Ok(q.(wallDrag := None))
  }

  /** `PreviewModal.handleDrop`: the wall rules without the edit guard and without a
      list fallback; the swap branch returns before the drag is cleared. */
  function PreviewDrop(s: Preview, dest: int): (r: Result<Preview, Fault>)
    ensures s.drag.None? ==> r == Ok(s)
    ensures s.drag.Some? && dest < 0 ==> r == Ok(s.(drag := None))
    ensures (s.drag.Some? && 0 <= dest && 0 <= s.drag.value.src && Occupied(s.locations, dest))
              ==> r.Ok? && r.value.drag == s.drag
    ensures (r.Ok? && s.drag.Some? && (dest < 0 || s.drag.value.src < 0 || !Occupied(s.locations, dest)))
              ==> r.value.drag.None?
  {
    if s.drag.None? then Ok(s)
    else
      var d := s.drag.value;
      if dest < 0 then Ok(s.(drag := None))
      else if d.src < 0 then
        match PlaceCopy(s.locations, dest, d.video)
        case Err(e) => Err(e)
        case Ok(ls) => Ok(s.(locations := ls, drag := None))
      else
        var found := FindLocation(s.locations, dest);
        if found.Some? && found.value.video.Truthy() then
          Ok(s.(locations := Rearrange(s.locations, d.src, dest, d.video)))
        else
          Ok(s.(locations := Rearrange(s.locations, d.src, dest, d.video), drag := None))
  }

  /** `WallContainer.handleDragStart`: remembers the video and its brick, unless
      editing is locked. */
  function WallDragStart(p: Page, v: Video, src: int, editing: bool): (r: Page)
    ensures !editing ==> r == p
    ensures editing ==> r.wallDrag == Some(Drag(v, src)) && r.locations == p.locations && r.listDrag == p.listDrag
  {
    if editing then p.(wallDrag := Some(Drag(v, src))) else p
  }

  /** `VideoPage.handleDragStart`: remembers the video dragged from the list, unless
      editing is locked. */
  function ListDragStart(p: Page, v: Video, editing: bool): (r: Page)
    ensures !editing ==> r == p
    ensures editing ==> r.listDrag == Some(v) && r.locations == p.locations && r.wallDrag == p.wallDrag
  {
    if editing then p.(listDrag := Some(v)) else p
  }

  /** `PreviewModal.handleDragStart`: no edit guard. */
  function PreviewDragStart(s: Preview, v: Video, src: int): (r: Preview)
    ensures r.drag == Some(Drag(v, src)) && r.locations == s.locations
  {
    s.(drag := Some(Drag(v, src)))
  }

  /** `WallContainer.handleRemove`: nulls the video of brick `n`, unless editing is
      locked. */
  function WallRemove(p: Page, n: int, editing: bool): (r: Page)
    ensures !editing ==> r == p
    ensures r.wallDrag == p.wallDrag && r.listDrag == p.listDrag
    ensures editing ==> r.locations == SetVideo(p.locations, n, Null)
  {
    if editing then p.(locations := SetVideo(p.locations, n, Null)) else p
  }

  /** `PreviewModal.handleRemove`: the same without the guard. */
  function PreviewRemove(s: Preview, n: int): (r: Preview)
    ensures r.drag == s.drag
    ensures r.locations == SetVideo(s.locations, n, Null)
  {
    s.(locations := SetVideo(s.locations, n, Null))
  }

  /** Closing the preview modal (`show` turning false) clears its drag. */
  function PreviewClose(s: Preview): (r: Preview)
    ensures r.drag.None? && r.locations == s.locations
  {
    s.(drag := None)
  }

  // ---------------------------------------------------------------------------
  // Properties of the transitions

  /** Removing changes only the locations numbered `n`, and each of them ends up
      with no video. */
  lemma RemoveOnlyTarget(locations: seq<Location>, n: int)
    ensures var r := SetVideo(locations, n, Null);
      |r| == |locations|
      && (forall i :: 0 <= i < |r| && locations[i].number != n ==> r[i] == locations[i])
      && (forall i :: 0 <= i < |r| && locations[i].number == n ==> r[i] == Location(n, Null))
  {
  }

  /** A swap between two distinct occupied bricks: the source receives the
      destination's old video and the destination the dragged one. */
  lemma SwapContents(locations: seq<Location>, i: int, j: int, v: Video)
    requires UniqueNumbers(locations)
    requires 0 <= i < |locations| && 0 <= j < |locations| && i != j
    requires locations[j].video.Truthy()
    ensures var r := Rearrange(locations, locations[i].number, locations[j].number, v);
      r[i].video == locations[j].video && r[j].video == Ref(v.id)
  {
    FindUniqueLocation(locations, locations[j]);
  }

  /** A move onto an empty brick: the source is left holding `''` and the
      destination the dragged video. */
  lemma MoveContents(locations: seq<Location>, i: int, j: int, v: Video)
    requires UniqueNumbers(locations)
    requires 0 <= i < |locations| && 0 <= j < |locations| && i != j
    requires !locations[j].video.Truthy()
    ensures var r := Rearrange(locations, locations[i].number, locations[j].number, v);
      r[i].video == Blank && r[j].video == Ref(v.id)
  {
    FindUniqueLocation(locations, locations[j]);
  }

  /** Dropping a video back on the brick it was dragged from changes nothing. */
  lemma SelfDropNoChange(locations: seq<Location>, src: int, v: Video)
    requires forall l :: l in locations && l.number == src ==> l.video == Ref(v.id)
    ensures Rearrange(locations, src, src, v) == locations
  {
    var d := FindLocation(locations, src);
    if d.Some? {
      SetVideoSame(locations, src, Ref(v.id));
    } else {
      SetVideoAbsent(locations, src, Blank);
      SetVideoAbsent(locations, src, Ref(v.id));
    }
  }

  /** Handing location `i`'s video to location `j` and giving `i` a reference worth
      the same as `j`'s old one keeps the multiset of videos on the wall. */
  lemma ExchangeKeepsVideos(locations: seq<Location>, i: int, j: int, w: VideoRef)
    requires UniqueNumbers(locations)
    requires 0 <= i < |locations| && 0 <= j < |locations| && i != j
    requires RefIds(w) == RefIds(locations[j].video)
    ensures Assigned(SetVideo(SetVideo(locations, locations[i].number, w), locations[j].number, locations[i].video))
            == Assigned(locations)
  {
    var first := SetVideo(locations, locations[i].number, w);
    SetVideoAssigned(locations, i, w);
    assert first[j] == locations[j];
    SetVideoAssigned(first, j, locations[i].video);
    var second := SetVideo(first, locations[j].number, locations[i].video);
    assert Assigned(second) + RefIds(w) == Assigned(locations) + RefIds(w);
    UnionCancel(Assigned(second), Assigned(locations), RefIds(w));
  }

  /** A move or swap between two distinct bricks keeps the multiset of videos on
      the wall, provided the source holds the dragged video. */
  lemma RearrangeKeepsVideos(locations: seq<Location>, i: int, j: int, v: Video)
    requires UniqueNumbers(locations)
    requires 0 <= i < |locations| && 0 <= j < |locations| && i != j
    requires locations[i].video == Ref(v.id)
    ensures Assigned(Rearrange(locations, locations[i].number, locations[j].number, v)) == Assigned(locations)
  {
    FindUniqueLocation(locations, locations[j]);
    if locations[j].video.Truthy() {
      ExchangeKeepsVideos(locations, i, j, locations[j].video);
    } else {
      ExchangeKeepsVideos(locations, i, j, Blank);
    }
  }

  /** A self-drop of a brick holding the dragged video keeps the multiset too, being
      no change at all. */
  lemma SelfDropKeepsVideos(locations: seq<Location>, i: int, v: Video)
    requires UniqueNumbers(locations)
    requires 0 <= i < |locations|
    requires locations[i].video == Ref(v.id)
    ensures Rearrange(locations, locations[i].number, locations[i].number, v) == locations
  {
    forall l | l in locations && l.number == locations[i].number ensures l.video == Ref(v.id) {
      FindUniqueLocation(locations, l);
      FindUniqueLocation(locations, locations[i]);
    }
    SelfDropNoChange(locations, locations[i].number, v);
  }

  /** A copy onto an empty brick adds exactly the dragged video to the wall; onto an
      occupied brick it evicts nothing. */
  lemma PlaceCopyAddsOne(locations: seq<Location>, j: int, v: Video)
    requires UniqueNumbers(locations)
    requires 0 <= j < |locations|
    ensures var r := PlaceCopy(locations, locations[j].number, v);
      r.Ok? && (locations[j].video.Truthy() ==> Assigned(r.value) == Assigned(locations))
      && (!locations[j].video.Truthy() ==> Assigned(r.value) == Assigned(locations) + multiset{v.id})
  {
    FindUniqueLocation(locations, locations[j]);
    assert locations[j] in locations;
    if !locations[j].video.Truthy() {
      SetVideoAssigned(locations, j, Ref(v.id));
    }
  }

  /** With nothing dragged on the wall, the wall's drop is the list's drop. */
  lemma WallDropDelegates(p: Page, dest: int)
    requires p.wallDrag.None?
    ensures WallDrop(p, dest, true) == ListDrop(p, dest, true)
  {
  }

  /** Dropping on the duplicate slot, in either handler, leaves every location as it
      was and ends the drag. */
  lemma DuplicateSlotDropKeepsLocations(p: Page, s: Preview)
    requires p.wallDrag.Some? && s.drag.Some?
    ensures WallDrop(p, DuplicateSlot, true) == Ok(p.(wallDrag := None))
    ensures PreviewDrop(s, DuplicateSlot) == Ok(s.(drag := None))
  {
  }
}
