/** The records the pages exchange with the server: videos, brick statuses, bricks
    with their status lists, and the per-show wall locations. Each is reduced to the
    fields the modelled logic reads. */
module Entities {
  import opened Wrappers

  /** A video of a show. Ids are database keys, so they are positive. */
  datatype Video = Video(id: int, title: string)

  /** A brick status from the catalog, such as "Broken". */
  datatype Status = Status(id: int, name: string)

  /** A brick as the brick endpoint returns it: its number and its current statuses.
      A brick with no status is healthy. */
  datatype Brick = Brick(id: int, statuses: seq<Status>)

  /** The `video` field of a location as the pages hold it: `null` (never assigned,
      or removed), the empty string (left behind by a move), or a video id. */
  datatype VideoRef = Null | Blank | Ref(id: int)
  {
    /** JavaScript truthiness of the field: `null` and `''` are falsy, and a video
        id, being positive, is truthy. */
    predicate Truthy()
    {
      Ref?
    }
  }

  /** The assignment of a video to one brick of a show's wall. */
  datatype Location = Location(number: int, video: VideoRef)

  /** The brick carries a status with the given id. */
  predicate HasStatus(b: Brick, statusId: int)
  {
    exists s :: s in b.statuses && s.id == statusId
  }

  /** The first element of `videos` whose id is `id`, as `videos.find`. */
  function FindVideo(videos: seq<Video>, id: int): (r: Option<Video>)
    ensures r.None? <==> forall v :: v in videos ==> v.id != id
    ensures r.Some? ==> r.value in videos && r.value.id == id
    ensures r.Some? ==> exists i :: 0 <= i < |videos| && videos[i] == r.value
                          && forall j :: 0 <= j < i ==> videos[j].id != id
  {
    if videos == [] then None
    else if videos[0].id == id then Some(videos[0])
    else
      var r := FindVideo(videos[1..], id);
      if r.Some? then
        ghost var i :| 0 <= i < |videos[1..]| && videos[1..][i] == r.value
                       && forall j :: 0 <= j < i ==> videos[1..][j].id != id;
        assert videos[i + 1] == r.value;
        r
      else r
  }

  /** The first brick of `bricks` whose id is `id`, as `bricks.find`. */
  function FindBrick(bricks: seq<Brick>, id: int): (r: Option<Brick>)
    ensures r.None? <==> forall b :: b in bricks ==> b.id != id
    ensures r.Some? ==> r.value in bricks && r.value.id == id
    ensures r.Some? ==> exists i :: 0 <= i < |bricks| && bricks[i] == r.value
                          && forall j :: 0 <= j < i ==> bricks[j].id != id
  {
    if bricks == [] then None
    else if bricks[0].id == id then Some(bricks[0])
    else
      var r := FindBrick(bricks[1..], id);
      if r.Some? then
        ghost var i :| 0 <= i < |bricks[1..]| && bricks[1..][i] == r.value
                       && forall j :: 0 <= j < i ==> bricks[1..][j].id != id;
        assert bricks[i + 1] == r.value;
        r
      else r
  }

  /** The first location whose number is `n`, as `locations.find`. */
  function FindLocation(locations: seq<Location>, n: int): (r: Option<Location>)
    ensures r.None? <==> forall l :: l in locations ==> l.number != n
    ensures r.Some? ==> r.value in locations && r.value.number == n
    ensures r.Some? ==> exists i :: 0 <= i < |locations| && locations[i] == r.value
                          && forall j :: 0 <= j < i ==> locations[j].number != n
  {
    if locations == [] then None
    else if locations[0].number == n then Some(locations[0])
    else
      var r := FindLocation(locations[1..], n);
      if r.Some? then
        ghost var i :| 0 <= i < |locations[1..]| && locations[1..][i] == r.value
                       && forall j :: 0 <= j < i ==> locations[1..][j].number != n;
        assert locations[i + 1] == r.value;
        r
      else r
  }

  /** No two locations share a number, as the backend's uniqueness constraint on
      (show, location number) guarantees. */
  predicate UniqueNumbers(locations: seq<Location>)
  {
    forall i, j :: 0 <= i < j < |locations| ==> locations[i].number != locations[j].number
  }

  /** With unique numbers, `find` returns the one location with that number. */
  lemma FindUniqueLocation(locations: seq<Location>, l: Location)
    requires UniqueNumbers(locations)
    requires l in locations
    ensures FindLocation(locations, l.number) == Some(l)
  {
    var r := FindLocation(locations, l.number);
    var k :| 0 <= k < |locations| && locations[k] == l;
    var i :| 0 <= i < |locations| && locations[i] == r.value
             && forall j :: 0 <= j < i ==> locations[j].number != l.number;
    assert !(k < i);
  }
}
