/** The server's shows, videos and wall locations, and the show endpoints that
    change them: saving a show, assigning an artist, partial updates, location
    patches, clearing the wall, saving a wall distribution, the download
    manifest and the list of show statuses. */
module ShowStore {
  import opened Wrappers
  import opened DecimalText
  import Shows

  const NumBricks: int := 226
  const FrameRate: int := 30
  const TimeLimit: int := 5 * 60

  /** The largest frame count a show may have, one full-length video. */
  const MaxFrames: int := FrameRate * TimeLimit

  /** A stored show: its status, its artist field (a user id as text) and its
      frame count. */
  datatype StoredShow = StoredShow(status: Shows.ShowStatus, artist: Option<string>, frameCount: int)

  /** The tables: shows by id, each video's show by video id, and each location's
      video keyed by (show, location number). Keying locations by the pair makes
      the number unique within a show. */
  datatype Store = Store(shows: map<int, StoredShow>, videos: map<int, int>,
                         locations: map<(int, int), Option<int>>)

  /** A video may only fill a location of its own show. */
  predicate SameShow(st: Store, k: (int, int))
    requires k in st.locations
  {
    st.locations[k].Some? ==> st.locations[k].value in st.videos && st.videos[st.locations[k].value] == k.0
  }

  /** What the models promise of the tables: every video and location belongs to
      a stored show, location numbers lie in 1..226, a location's video is from
      the same show, and frame counts lie in 0..9000. */
  predicate Consistent(st: Store)
  {
    && (forall v :: v in st.videos ==> st.videos[v] in st.shows)
    && (forall k :: k in st.locations ==> k.0 in st.shows && 1 <= k.1 <= NumBricks && SameShow(st, k))
    && (forall id :: id in st.shows ==> 0 <= st.shows[id].frameCount <= MaxFrames)
  }

  predicate HasLocations(st: Store, id: int)
  {
    exists k :: k in st.locations && k.0 == id
  }

  /** Locations 1..226 of a show. */
  function WallOf(id: int): (r: set<(int, int)>)
    ensures forall k :: k in r <==> k.0 == id && 1 <= k.1 <= NumBricks
  {
    set n: int | 1 <= n <= NumBricks :: (id, n)
  }

  /** `Show.save`: store the show; the blank video is regenerated on the first
      save or when the frame count changes; a show with no locations gets
      locations 1..226 with no video, and existing locations are never
      recreated. The flag says whether the blank video is regenerated. */
  function SaveShow(st: Store, id: int, s: StoredShow): (r: (Store, bool))
    ensures r.0.shows == st.shows[id := s] && r.0.videos == st.videos
    ensures r.1 <==> id !in st.shows || st.shows[id].frameCount != s.frameCount
    ensures HasLocations(st, id) ==> r.0.locations == st.locations
    ensures !HasLocations(st, id) ==>
              forall k :: k in r.0.locations <==> k in st.locations || (k.0 == id && 1 <= k.1 <= NumBricks)
    ensures forall k :: k in r.0.locations && k.0 == id && !HasLocations(st, id) ==> r.0.locations[k].None?
    ensures forall k :: k in st.locations ==> k in r.0.locations && r.0.locations[k] == st.locations[k]
  {
    var regenerate := id !in st.shows || st.shows[id].frameCount != s.frameCount;
    var locations :=
      if HasLocations(st, id) then st.locations
      else map k | k in st.locations.Keys + WallOf(id) :: if k in st.locations then st.locations[k] else None;
    (Store(st.shows[id := s], st.videos, locations), regenerate)
  }

  /** Saving a show with a frame count in range keeps the tables consistent, and
      afterwards the show has all 226 locations if it had none. */
  lemma SaveShowKeepsConsistent(st: Store, id: int, s: StoredShow)
    requires Consistent(st) && 0 <= s.frameCount <= MaxFrames
    ensures Consistent(SaveShow(st, id, s).0)
    ensures !HasLocations(st, id) ==> forall n :: 1 <= n <= NumBricks ==> (id, n) in SaveShow(st, id, s).0.locations
  {
    var r := SaveShow(st, id, s).0;
    forall k | k in r.locations ensures SameShow(r, k) {
      if k in st.locations {
        assert SameShow(st, k);
      }
    }
  }

  /** `Video.clean`: a stored video may not move to another show. */
  predicate VideoMoveAllowed(st: Store, video: int, show: int)
  {
    video !in st.videos || st.videos[video] == show
  }

  /** `Location.clean`: a location may only hold a video of its own show. */
  predicate LocationVideoAllowed(st: Store, show: int, video: Option<int>)
  {
    video.None? || (video.value in st.videos && st.videos[video.value] == show)
  }

  /** The location checks are exactly what keeps a location consistent. */
  lemma LocationCheckMatches(st: Store, k: (int, int))
    requires k in st.locations
    ensures SameShow(st, k) <==> LocationVideoAllowed(st, k.0, st.locations[k])
  {
  }

  /** A video saved after `Video.clean`: a show that does not exist is refused,
      and so is a stored video given a different show; otherwise the video is
      stored under that show. */
  function SaveVideoChecked(st: Store, video: int, show: int): (r: Result<Store, HttpError>)
    ensures r.Ok? <==> show in st.shows && VideoMoveAllowed(st, video, show)
    ensures r.Ok? ==>
              && r.value.shows == st.shows && r.value.locations == st.locations
              && r.value.videos.Keys == st.videos.Keys + {video} && r.value.videos[video] == show
              && forall v :: v in st.videos ==> r.value.videos[v] == st.videos[v]
  {
    if show !in st.shows then Err(BadRequest)
    else if !VideoMoveAllowed(st, video, show) then Err(BadRequest)
    else Ok(st.(videos := st.videos[video := show]))
  }

  /** A checked video save keeps the tables consistent. */
  lemma SaveVideoKeepsConsistent(st: Store, video: int, show: int)
    requires Consistent(st)
    ensures SaveVideoChecked(st, video, show).Ok? ==> Consistent(SaveVideoChecked(st, video, show).value)
  {
    var r := SaveVideoChecked(st, video, show);
    if r.Ok? {
      forall k | k in r.value.locations ensures SameShow(r.value, k) {
        assert SameShow(st, k);
      }
    }
  }

  /** Without `Video.clean`, moving a video that sits on a wall to another show
      would leave a location holding a video of a different show. */
  lemma UncheckedMoveBreaksLocation(st: Store, k: (int, int), show: int)
    requires k in st.locations && st.locations[k].Some? && SameShow(st, k) && show != k.0
    ensures !VideoMoveAllowed(st, st.locations[k].value, show)
    ensures !SameShow(st.(videos := st.videos[st.locations[k].value := show]), k)
  {
  }

  /** Deleting a video: every location that held it is set to no video. */
  function DeleteVideo(st: Store, v: int): (r: Store)
    ensures r.shows == st.shows && r.videos == st.videos - {v}
    ensures r.locations.Keys == st.locations.Keys
    ensures forall k :: k in r.locations ==>
              r.locations[k] == (if st.locations[k] == Some(v) then None else st.locations[k])
  {
    st.(videos := st.videos - {v},
        locations := map k | k in st.locations :: if st.locations[k] == Some(v) then None else st.locations[k])
  }

  /** After deleting a video no location refers to it and the tables stay
      consistent. */
  lemma DeleteVideoKeepsConsistent(st: Store, v: int)
    requires Consistent(st)
    ensures Consistent(DeleteVideo(st, v))
    ensures forall k :: k in DeleteVideo(st, v).locations ==> DeleteVideo(st, v).locations[k] != Some(v)
  {
    var r := DeleteVideo(st, v);
    forall k | k in r.locations ensures SameShow(r, k) {
      assert SameShow(st, k);
    }
  }

  /** Deleting every video of a show, with the locations that held them emptied. */
  function DeleteVideosOf(st: Store, id: int): (r: Store)
    ensures r.shows == st.shows
    ensures forall v :: v in r.videos <==> v in st.videos && st.videos[v] != id
    ensures forall v :: v in r.videos ==> r.videos[v] == st.videos[v]
    ensures r.locations.Keys == st.locations.Keys
    ensures forall k :: k in r.locations ==>
              r.locations[k] == (if st.locations[k].Some? && st.locations[k].value in st.videos
                                    && st.videos[st.locations[k].value] == id
                                 then None else st.locations[k])
  {
    var gone := set v | v in st.videos && st.videos[v] == id;
    Store(st.shows,
          map v | v in st.videos && st.videos[v] != id :: st.videos[v],
          map k | k in st.locations :: if st.locations[k].Some? && st.locations[k].value in gone
                                       then None else st.locations[k])
  }

  /** Request failures, by HTTP status. */
  datatype HttpError = BadRequest | NotFound | ServerError

  /** `assign_artist`. A missing or empty artist id is a 400 and an unknown show a
      404; an id `int` cannot read is a server error. The id is stored as given.
      Artist 0 means unassigned: the show becomes unassigned unless approved,
      which it stays; any other artist puts the show in design, even from
      approved. The show is then saved. */
  function AssignArtist(st: Store, showId: int, artistId: Option<string>): (r: Result<Store, HttpError>)
    ensures r == Err(BadRequest) <==> artistId.None? || artistId.value == ""
    ensures r == Err(NotFound) <==> artistId.Some? && artistId.value != "" && showId !in st.shows
    ensures r == Err(ServerError) <==>
              artistId.Some? && artistId.value != "" && showId in st.shows && ParseInt(artistId.value).None?
    ensures r.Ok? ==>
              var n := ParseInt(artistId.value).value;
              var old_ := st.shows[showId];
              && r.value.shows.Keys == st.shows.Keys
              && (forall id :: id in st.shows && id != showId ==> r.value.shows[id] == st.shows[id])
              && r.value.shows[showId].artist == artistId
              && r.value.shows[showId].frameCount == old_.frameCount
              && r.value.shows[showId].status ==
                   (if n != 0 then Shows.InDesign
                    else if old_.status == Shows.Approved then Shows.Approved else Shows.Unassigned)
              && r.value.videos == st.videos
  {
    if artistId.None? || artistId.value == "" then Err(BadRequest)
    else if showId !in st.shows then Err(NotFound)
    else match ParseInt(artistId.value)
      case None => Err(ServerError)
      case Some(n) =>
        var old_ := st.shows[showId];
        var status :=
          if n != 0 then Shows.InDesign
          else if old_.status == Shows.Approved then Shows.Approved
          else Shows.Unassigned;
        Ok(SaveShow(st, showId, old_.(artist := artistId, status := status)).0)
  }

  /** Assigning and then unassigning a show that was not approved leaves it
      unassigned, and the artist field then holds "0", which no signed-in user's
      id matches, so no artist can edit it. */
  lemma AssignThenUnassign(st: Store, showId: int, artistId: string, role: Shows.Role, storedId: Option<string>)
    requires showId in st.shows && artistId != "" && ParseInt(artistId).Some? && ParseInt(artistId).value != 0
    requires storedId != Some("0")
    ensures AssignArtist(st, showId, Some(artistId)).Ok?
    ensures var st1 := AssignArtist(st, showId, Some(artistId)).value;
            var st2 := AssignArtist(st1, showId, Some("0"));
            && st1.shows[showId].status == Shows.InDesign
            && st2.Ok? && st2.value.shows[showId].status == Shows.Unassigned
            && (Shows.UserAccess(role, storedId, st2.value.shows[showId].artist) <==> role == Shows.Admin)
  {
    assert ParseInt("0") == Some(0) by {
      assert AllDigits("0");
    }
  }

  /** Assigning an artist keeps the tables consistent. */
  lemma AssignKeepsConsistent(st: Store, showId: int, artistId: Option<string>)
    requires Consistent(st)
    ensures AssignArtist(st, showId, artistId).Ok? ==> Consistent(AssignArtist(st, showId, artistId).value)
  {
    if AssignArtist(st, showId, artistId).Ok? {
      var old_ := st.shows[showId];
      var n := ParseInt(artistId.value).value;
      var status :=
        if n != 0 then Shows.InDesign
        else if old_.status == Shows.Approved then Shows.Approved
        else Shows.Unassigned;
      SaveShowKeepsConsistent(st, showId, old_.(artist := artistId, status := status));
    }
  }

  /** A show PATCH body as JSON: the fields the model follows. `status` is the
      raw text sent. */
  datatype ShowPatch = ShowPatch(frameCount: Option<int>, status: Option<string>)

  /** Whether the body's frame count is truthy: given and not 0. */
  predicate FrameCountTruthy(body: ShowPatch)
  {
    body.frameCount.Some? && body.frameCount.value != 0
  }

  /** `ShowViewSet.partial_update`. The serializer validates the body first: a
      frame count outside 0..9000 or a status that is not one of the five choices
      is a 400. A truthy frame count that differs from the stored one deletes all
      of the show's videos; a frame count of 0 is falsy and deletes nothing,
      though it is still stored. Any valid status is stored, whatever the current
      one. The show is then saved; the flag says whether its blank video is
      regenerated. */
  function PartialUpdate(st: Store, showId: int, body: ShowPatch): (r: Result<(Store, bool), HttpError>)
    ensures r == Err(NotFound) <==> showId !in st.shows
    ensures r == Err(BadRequest) <==>
              showId in st.shows
              && ((body.frameCount.Some? && !(0 <= body.frameCount.value <= MaxFrames))
                  || (body.status.Some? && ParseStatus(body.status.value).None?))
    ensures r.Ok? ==>
              var old_ := st.shows[showId];
              var count := body.frameCount.GetOr(old_.frameCount);
              var status := if body.status.Some? then ParseStatus(body.status.value).value else old_.status;
              var dropped := FrameCountTruthy(body) && body.frameCount.value != old_.frameCount;
              && r.value.1 == (count != old_.frameCount)
              && r.value.0.shows == st.shows[showId := old_.(frameCount := count, status := status)]
              && (body.status.Some? ==> StatusValue(r.value.0.shows[showId].status) == body.status.value)
              && (dropped ==> r.value.0.videos == DeleteVideosOf(st, showId).videos)
              && (!dropped ==> r.value.0.videos == st.videos)
  {
    if showId !in st.shows then Err(NotFound)
    else if body.frameCount.Some? && !(0 <= body.frameCount.value <= MaxFrames) then Err(BadRequest)
    else if body.status.Some? && ParseStatus(body.status.value).None? then Err(BadRequest)
    else
      var old_ := st.shows[showId];
      var status := if body.status.Some? then ParseStatus(body.status.value).value else old_.status;
      StatusValueRoundTrip(status, if body.status.Some? then body.status.value else StatusValue(status));
      var st1 := if FrameCountTruthy(body) && body.frameCount.value != old_.frameCount then DeleteVideosOf(st, showId) else st;
      Ok(SaveShow(st1, showId, old_.(frameCount := body.frameCount.GetOr(old_.frameCount), status := status)))
  }

  /** A new, non-zero frame count empties the show: none of its videos remain and
      none of its locations hold a video; other shows keep their videos; the
      tables stay consistent. */
  lemma FrameChangeEmptiesShow(st: Store, showId: int, n: int)
    requires Consistent(st) && showId in st.shows && 0 < n <= MaxFrames && n != st.shows[showId].frameCount
    ensures var r := PartialUpdate(st, showId, ShowPatch(Some(n), None));
            && r.Ok? && r.value.1
            && (forall v :: v in r.value.0.videos ==> r.value.0.videos[v] != showId)
            && (forall v :: v in st.videos && st.videos[v] != showId ==> v in r.value.0.videos)
            && (forall k :: k in r.value.0.locations && k.0 == showId ==> r.value.0.locations[k].None?)
            && Consistent(r.value.0)
  {
    var st1 := DeleteVideosOf(st, showId);
    forall k | k in st1.locations ensures SameShow(st1, k) {
      assert SameShow(st, k);
    }
    assert Consistent(st1);
    SaveShowKeepsConsistent(st1, showId, st.shows[showId].(frameCount := n));
    var r := PartialUpdate(st, showId, ShowPatch(Some(n), None)).value.0;
    forall k | k in r.locations && k.0 == showId ensures r.locations[k].None? {
      if k in st1.locations {
        assert SameShow(st, k);
      }
    }
  }

  /** A frame count of 0 is falsy: it is stored and the blank video is
      regenerated, but every video of the show is kept. */
  lemma ZeroFrameCountKeepsVideos(st: Store, showId: int)
    requires showId in st.shows && st.shows[showId].frameCount != 0
    ensures var r := PartialUpdate(st, showId, ShowPatch(Some(0), None));
            && r.Ok? && r.value.1
            && r.value.0.shows[showId].frameCount == 0
            && r.value.0.videos == st.videos
  {
  }

  /** The status field has no transition check: an approved show PATCHed back to
      `unassigned` is stored as unassigned, and the text `done` is a 400. */
  lemma StatusPatchUnchecked(st: Store, showId: int)
    requires showId in st.shows && st.shows[showId].status == Shows.Approved
    ensures var r := PartialUpdate(st, showId, ShowPatch(None, Some("unassigned")));
            r.Ok? && r.value.0.shows[showId].status == Shows.Unassigned && r.value.0.videos == st.videos
    ensures PartialUpdate(st, showId, ShowPatch(None, Some("done"))) == Err(BadRequest)
  {
  }

  /** A location PATCH body. Only `video` is writable; `location_number` and
      `show` are read-only and ignored. `video` is None when absent, Some(None)
      for null. */
  datatype LocationPatch = LocationPatch(number: Option<int>, show: Option<int>, video: Option<Option<int>>)

  /** The `location` PATCH as written. Every failure, a missing show included,
      is caught and answered as a validation error (400): an unknown show, a
      number that is not an integer, a missing location, an unknown video id.
      Any stored video is accepted, whichever show it belongs to. */
  function PatchLocation(st: Store, showId: int, number: string, patch: LocationPatch): (r: Result<Store, HttpError>)
    ensures r.Err? ==> r.error == BadRequest
    ensures r.Ok? <==>
              showId in st.shows && ParseInt(number).Some? && (showId, ParseInt(number).value) in st.locations
              && (patch.video.Some? && patch.video.value.Some? ==> patch.video.value.value in st.videos)
    ensures r.Ok? ==>
              var k := (showId, ParseInt(number).value);
              r.value == st.(locations := st.locations[k := patch.video.GetOr(st.locations[k])])
  {
    if showId !in st.shows then Err(BadRequest)
    else match ParseInt(number)
      case None => Err(BadRequest)
      case Some(n) =>
        if (showId, n) !in st.locations then Err(BadRequest)
        else if patch.video.Some? && patch.video.value.Some? && patch.video.value.value !in st.videos then Err(BadRequest)
        else Ok(st.(locations := st.locations[(showId, n) := patch.video.GetOr(st.locations[(showId, n)])]))
  }

  /** The read-only fields make no difference to a PATCH. */
  lemma PatchIgnoresReadOnly(st: Store, showId: int, number: string, p: LocationPatch, q: LocationPatch)
    requires p.video == q.video
    ensures PatchLocation(st, showId, number, p) == PatchLocation(st, showId, number, q)
  {
  }

  /** As written, a PATCH can put a video of one show on another show's wall,
      which `Location.clean` forbids: the serializer never calls it. */
  lemma PatchCrossShow()
    ensures var st := Store(map[1 := StoredShow(Shows.InDesign, None, 10), 2 := StoredShow(Shows.InDesign, None, 10)],
                            map[7 := 2], map[(1, 1) := None]);
            && Consistent(st)
            && PatchLocation(st, 1, "1", LocationPatch(None, None, Some(Some(7)))).Ok?
            && !Consistent(PatchLocation(st, 1, "1", LocationPatch(None, None, Some(Some(7)))).value)
  {
    var st := Store(map[1 := StoredShow(Shows.InDesign, None, 10), 2 := StoredShow(Shows.InDesign, None, 10)],
                    map[7 := 2], map[(1, 1) := None]);
    assert ParseInt("1") == Some(1) by {
      assert AllDigits("1");
    }
    var r := PatchLocation(st, 1, "1", LocationPatch(None, None, Some(Some(7)))).value;
    assert (1, 1) in r.locations && !SameShow(r, (1, 1));
  }

  /** The PATCH with `Location.clean` applied: a video of another show is
      refused like an unknown one. */
  function PatchLocationChecked(st: Store, showId: int, number: string, patch: LocationPatch)
    : (r: Result<Store, HttpError>)
    ensures r.Err? ==> r.error == BadRequest
    ensures r.Ok? <==>
              showId in st.shows && ParseInt(number).Some? && (showId, ParseInt(number).value) in st.locations
              && (patch.video.Some? ==> LocationVideoAllowed(st, showId, patch.video.value))
    ensures r.Ok? ==> r == PatchLocation(st, showId, number, patch)
  {
    if patch.video.Some? && !LocationVideoAllowed(st, showId, patch.video.value) then Err(BadRequest)
    else PatchLocation(st, showId, number, patch)
  }

  /** The checked PATCH keeps the tables consistent and changes only the one
      location. */
  lemma PatchCheckedKeepsConsistent(st: Store, showId: int, number: string, patch: LocationPatch)
    requires Consistent(st)
    ensures var r := PatchLocationChecked(st, showId, number, patch);
            r.Ok? ==> Consistent(r.value) && r.value.shows == st.shows && r.value.videos == st.videos
                      && r.value.locations.Keys == st.locations.Keys
                      && forall k :: k in st.locations && k != (showId, ParseInt(number).value) ==>
                           r.value.locations[k] == st.locations[k]
  {
    var r := PatchLocationChecked(st, showId, number, patch);
    if r.Ok? {
      forall k | k in r.value.locations ensures SameShow(r.value, k) {
        assert SameShow(st, k);
      }
    }
  }

  /** The locations of a show that hold a video. */
  function Filled(st: Store, showId: int): (r: set<(int, int)>)
    ensures forall k :: k in r <==> k in st.locations && k.0 == showId && st.locations[k].Some?
  {
    set k | k in st.locations && k.0 == showId && st.locations[k].Some?
  }

  /** `clear_locations`: every location of the show is emptied, and the reply
      counts the ones that held a video. */
  function ClearLocations(st: Store, showId: int): (r: Result<(Store, nat), HttpError>)
    ensures r.Err? <==> showId !in st.shows
    ensures r.Err? ==> r.error == NotFound
    ensures r.Ok? ==>
              && r.value.1 == |Filled(st, showId)|
              && r.value.0.shows == st.shows && r.value.0.videos == st.videos
              && r.value.0.locations.Keys == st.locations.Keys
              && (forall k :: k in st.locations ==>
                    r.value.0.locations[k] == (if k.0 == showId then None else st.locations[k]))
  {
    if showId !in st.shows then Err(NotFound)
    else Ok((st.(locations := map k | k in st.locations :: if k.0 == showId then None else st.locations[k]),
             |Filled(st, showId)|))
  }

  /** Clearing leaves the show with nothing to clear, and keeps the tables
      consistent. */
  lemma ClearTwice(st: Store, showId: int)
    requires Consistent(st) && showId in st.shows
    ensures var r := ClearLocations(st, showId).value.0;
            Consistent(r) && ClearLocations(r, showId).value.1 == 0
  {
    var r := ClearLocations(st, showId).value.0;
    forall k | k in r.locations ensures SameShow(r, k) {
      assert SameShow(st, k);
    }
    assert Filled(r, showId) == {};
  }

  /** The form-field prefix of a wall distribution entry. */
  const DistPrefix: string := "brickDistribution["

  /** The location number text of a key `brickDistribution[N]`, None for any other
      key. */
  function DistributionKey(key: string): (r: Option<string>)
    ensures r.Some? <==> |key| > |DistPrefix| && key[..|DistPrefix|] == DistPrefix && key[|key| - 1] == ']'
    ensures r.Some? ==> key == DistPrefix + r.value + "]"
  {
    if |key| > |DistPrefix| && key[..|DistPrefix|] == DistPrefix && key[|key| - 1] == ']' then
      Some(key[|DistPrefix|..|key| - 1])
    else None
  }

  /** Python dict assignment: an existing key keeps its place and takes the new
      value, a new key goes last. */
  function Put(d: seq<(string, string)>, k: string, v: string): (r: seq<(string, string)>)
    ensures (exists i :: 0 <= i < |d| && d[i].0 == k) ==> |r| == |d|
    ensures (forall i :: 0 <= i < |d| ==> d[i].0 != k) ==> r == d + [(k, v)]
    ensures forall i :: 0 <= i < |d| ==> r[i] == (if d[i].0 == k then (k, v) else d[i])
  {
    if exists i :: 0 <= i < |d| && d[i].0 == k then
      seq(|d|, i requires 0 <= i < |d| => if d[i].0 == k then (k, v) else d[i])
    else d + [(k, v)]
  }

  /** The `brick_distribution` dict built from the request's fields, in order. */
  function Collect(fields: seq<(string, string)>): (r: seq<(string, string)>)
    ensures forall i :: 0 <= i < |r| ==> exists j :: 0 <= j < |fields| && DistributionKey(fields[j].0) == Some(r[i].0)
  {
    if fields == [] then []
    else
      var d := Collect(fields[..|fields| - 1]);
      var f := fields[|fields| - 1];
      match DistributionKey(f.0)
      case None => d
      case Some(n) =>
        assert forall i :: 0 <= i < |fields| - 1 ==> fields[..|fields| - 1][i] == fields[i];
        Put(d, n, f.1)
  }

  /** Write `(location number, video)` pairs into a show's locations in order, a
      later pair for the same number winning; the upsert creates a location it
      does not find. */
  function ApplyAll(locations: map<(int, int), Option<int>>, showId: int, pairs: seq<(int, Option<int>)>)
    : (r: map<(int, int), Option<int>>)
    ensures forall k :: k in r <==> k in locations || (k.0 == showId && exists i :: 0 <= i < |pairs| && pairs[i].0 == k.1)
    ensures forall k :: k in locations && (k.0 != showId || forall i :: 0 <= i < |pairs| ==> pairs[i].0 != k.1) ==>
              r[k] == locations[k]
  {
    if pairs == [] then locations
    else
      var last := pairs[|pairs| - 1];
      var r := ApplyAll(locations, showId, pairs[..|pairs| - 1]);
      assert forall i :: 0 <= i < |pairs| - 1 ==> pairs[..|pairs| - 1][i] == pairs[i];
      r[(showId, last.0) := last.1]
  }

  /** The location an entry names holds that entry's video unless a later entry
      names the same location. */
  lemma {:induction false} ApplyAllLastWins(locations: map<(int, int), Option<int>>, showId: int,
                                            pairs: seq<(int, Option<int>)>, i: int)
    requires 0 <= i < |pairs| && forall j :: i < j < |pairs| ==> pairs[j].0 != pairs[i].0
    ensures (showId, pairs[i].0) in ApplyAll(locations, showId, pairs)
            && ApplyAll(locations, showId, pairs)[(showId, pairs[i].0)] == pairs[i].1
  {
    if i < |pairs| - 1 {
      var init := pairs[..|pairs| - 1];
      assert init[i] == pairs[i];
      ApplyAllLastWins(locations, showId, init, i);
    }
  }

  /** How a wall distribution request ends. */
  datatype DistOutcome = Saved | ShowMissing | Crashed

  /** The video an entry names: a stored video, or none for an unknown id. */
  function Resolve(st: Store, video: int): (r: Option<int>)
    ensures r.Some? <==> video in st.videos
    ensures r.Some? ==> r.value == video
  {
    if video in st.videos then Some(video) else None
  }

  /** An entry the loop can write: both sides read as integers, and the location
      number is not negative, as the positive-integer column demands. */
  predicate Storable(e: (string, string))
  {
    ParseInt(e.0).Some? && ParseInt(e.1).Some? && ParseInt(e.0).value >= 0
  }

  /** The dict entries read as (location number, video), in order, up to the
      first one that cannot be written: one `int` cannot read, or a negative
      location number, which the database refuses. The flag says whether all were
      written. */
  function ReadEntries(st: Store, dist: seq<(string, string)>): (r: (seq<(int, Option<int>)>, bool))
    ensures |r.0| <= |dist|
    ensures r.1 ==> |r.0| == |dist|
    ensures !r.1 ==> |r.0| < |dist| && !Storable(dist[|r.0|])
    ensures forall i :: 0 <= i < |r.0| ==>
              Storable(dist[i]) && ParseInt(dist[i].0) == Some(r.0[i].0) && r.0[i].0 >= 0
              && r.0[i].1 == Resolve(st, ParseInt(dist[i].1).value)
    ensures r.1 <==> forall i :: 0 <= i < |dist| ==> Storable(dist[i])
  {
    if dist == [] then ([], true)
    else if !Storable(dist[0]) then ([], false)
    else
      var rest := ReadEntries(st, dist[1..]);
      ([(ParseInt(dist[0].0).value, Resolve(st, ParseInt(dist[0].1).value))] + rest.0, rest.1)
  }

  /** `save_wall_distribution` as written. Entries are read from the
      `brickDistribution[N]` fields; an unknown show is a 404; each entry then
      upserts location N of the show with the named video, or none if no video
      has that id. An entry `int` cannot read, or a negative N, aborts with a
      server error, the earlier entries already written. Nothing else checks N,
      and nothing checks the video's show. */
  function SaveWallDistribution(st: Store, showId: int, fields: seq<(string, string)>): (r: (Store, DistOutcome))
    ensures r.1 == ShowMissing <==> showId !in st.shows
    ensures r.1 == ShowMissing ==> r.0 == st
    ensures r.1 != ShowMissing ==>
              var read := ReadEntries(st, Collect(fields));
              && (r.1 == Saved <==> read.1)
              && r.0 == st.(locations := ApplyAll(st.locations, showId, read.0))
  {
    if showId !in st.shows then (st, ShowMissing)
    else
      var read := ReadEntries(st, Collect(fields));
      (st.(locations := ApplyAll(st.locations, showId, read.0)), if read.1 then Saved else Crashed)
  }

  /** As written, a distribution for brick 300 creates location 300, outside
      the wall's 1..226. */
  lemma DistributionOutsideWall()
    ensures var st := Store(map[1 := StoredShow(Shows.InDesign, None, 10)], map[], map[]);
            var r := SaveWallDistribution(st, 1, [("brickDistribution[300]", "7")]);
            && Consistent(st)
            && r.1 == Saved && (1, 300) in r.0.locations && !Consistent(r.0)
  {
    var st := Store(map[1 := StoredShow(Shows.InDesign, None, 10)], map[], map[]);
    CollectOne("brickDistribution[300]", "300", "7");
    ReadsThreeHundred(st);
    var r := SaveWallDistribution(st, 1, [("brickDistribution[300]", "7")]);
    assert (1, 300) in r.0.locations;
  }

  /** A negative location number reads as an integer, but the positive-integer
      column refuses it: the request fails with a server error and stores nothing
      for that entry. */
  lemma NegativeLocationCrashes(st: Store)
    requires 1 in st.shows
    ensures SaveWallDistribution(st, 1, [("brickDistribution[-5]", "7")]) == (st, Crashed)
  {
    CollectOne("brickDistribution[-5]", "-5", "7");
    assert "-5"[0] == '-' && "-5"[1..] == "5";
    assert "5"[0] == '5' && AllDigits("5");
    assert !IsDigit("-5"[0]);
    assert "5"[..0] == [];
    assert DigitsValue("5") == 5;
    assert ParseInt("-5") == Some(-5);
    assert !Storable(("-5", "7"));
  }

  /** The one entry `300 -> 7` reads cleanly as location 300. */
  lemma ReadsThreeHundred(st: Store)
    ensures ReadEntries(st, [("300", "7")]).1
    ensures |ReadEntries(st, [("300", "7")]).0| == 1 && ReadEntries(st, [("300", "7")]).0[0].0 == 300
  {
    ParseThreeHundred();
    assert ParseInt("7") == Some(7) by {
      assert AllDigits("7");
    }
  }

  lemma CollectOne(key: string, n: string, v: string)
    requires key == DistPrefix + n + "]"
    ensures Collect([(key, v)]) == [(n, v)]
  {
    var fields := [(key, v)];
    assert fields[..0] == [];
    assert key[..|DistPrefix|] == DistPrefix && key[|DistPrefix|..|key| - 1] == n;
  }

  lemma ParseThreeHundred()
    ensures ParseInt("300") == Some(300)
  {
    assert AllDigits("300");
    assert "300"[..2] == "30" && "30"[..1] == "3" && "3"[..0] == "";
    assert DigitsValue("3") == 3;
    assert DigitsValue("30") == 30;
    assert DigitsValue("300") == 300;
  }

  /** Why a checked distribution is refused. */
  predicate EntryAllowed(st: Store, showId: int, e: (int, Option<int>))
  {
    1 <= e.0 <= NumBricks && LocationVideoAllowed(st, showId, e.1)
  }

  /** The distribution with the location's own validators applied: every entry is
      read and checked before anything is written, and a request with an
      unreadable entry, a number outside 1..226 or a video of another show is
      refused whole (400) with nothing changed. An unknown video id still
      empties the location. */
  function SaveWallDistributionChecked(st: Store, showId: int, fields: seq<(string, string)>)
    : (r: Result<Store, HttpError>)
    ensures r == Err(NotFound) <==> showId !in st.shows
    ensures var read := ReadEntries(st, Collect(fields));
            r.Ok? <==> showId in st.shows && read.1 && forall i :: 0 <= i < |read.0| ==> EntryAllowed(st, showId, read.0[i])
    ensures r.Ok? ==> r.value == SaveWallDistribution(st, showId, fields).0
  {
    if showId !in st.shows then Err(NotFound)
    else
      var read := ReadEntries(st, Collect(fields));
      if !read.1 || exists i :: 0 <= i < |read.0| && !EntryAllowed(st, showId, read.0[i]) then Err(BadRequest)
      else Ok(st.(locations := ApplyAll(st.locations, showId, read.0)))
  }

  /** The checked distribution keeps the tables consistent, and each location it
      names holds the last video named for it. */
  lemma DistributionCheckedKeepsConsistent(st: Store, showId: int, fields: seq<(string, string)>)
    requires Consistent(st)
    ensures var r := SaveWallDistributionChecked(st, showId, fields);
            var read := ReadEntries(st, Collect(fields)).0;
            r.Ok? ==> Consistent(r.value)
                      && forall i :: 0 <= i < |read| && (forall j :: i < j < |read| ==> read[j].0 != read[i].0) ==>
                           (showId, read[i].0) in r.value.locations && r.value.locations[(showId, read[i].0)] == read[i].1
  {
    var r := SaveWallDistributionChecked(st, showId, fields);
    var read := ReadEntries(st, Collect(fields)).0;
    if r.Ok? {
      CheckedWrite(st, showId, read);
    }
  }

  /** Allowed entries written into a stored show: the tables stay consistent and
      each named location holds the last video named for it. */
  lemma CheckedWrite(st: Store, showId: int, read: seq<(int, Option<int>)>)
    requires Consistent(st) && showId in st.shows
    requires forall i :: 0 <= i < |read| ==> EntryAllowed(st, showId, read[i])
    ensures var s := st.(locations := ApplyAll(st.locations, showId, read));
            Consistent(s)
            && forall i :: 0 <= i < |read| && (forall j :: i < j < |read| ==> read[j].0 != read[i].0) ==>
                 (showId, read[i].0) in s.locations && s.locations[(showId, read[i].0)] == read[i].1
  {
    forall i | 0 <= i < |read| && (forall j :: i < j < |read| ==> read[j].0 != read[i].0)
      ensures (showId, read[i].0) in ApplyAll(st.locations, showId, read)
              && ApplyAll(st.locations, showId, read)[(showId, read[i].0)] == read[i].1
    {
      ApplyAllLastWins(st.locations, showId, read, i);
    }
    ApplyAllKeepsConsistent(st, showId, read);
  }

  /** Writing allowed entries into a stored show keeps the tables consistent. */
  lemma {:induction false} ApplyAllKeepsConsistent(st: Store, showId: int, pairs: seq<(int, Option<int>)>)
    requires Consistent(st) && showId in st.shows
    requires forall i :: 0 <= i < |pairs| ==> EntryAllowed(st, showId, pairs[i])
    ensures Consistent(st.(locations := ApplyAll(st.locations, showId, pairs)))
  {
    if pairs != [] {
      var init := pairs[..|pairs| - 1];
      assert forall i :: 0 <= i < |init| ==> init[i] == pairs[i];
      ApplyAllKeepsConsistent(st, showId, init);
      var s1 := st.(locations := ApplyAll(st.locations, showId, init));
      var last := pairs[|pairs| - 1];
      assert EntryAllowed(st, showId, last);
      var s2 := st.(locations := ApplyAll(st.locations, showId, pairs));
      assert s2.locations == s1.locations[(showId, last.0) := last.1];
      forall k | k in s2.locations ensures k.0 in s2.shows && 1 <= k.1 <= NumBricks && SameShow(s2, k) {
        if k != (showId, last.0) {
          assert SameShow(s1, k);
        }
      }
    }
  }

  /** What an archive entry is read from. */
  datatype Source = BlankVideo | VideoFile(video: int)

  /** The archive entry for location `i`: its video's file if the location exists,
      holds a video and the file is on disk (`files`), else the blank video. */
  function EntrySource(st: Store, showId: int, files: set<int>, i: int): (r: Source)
    ensures r.VideoFile? <==> (showId, i) in st.locations && st.locations[(showId, i)].Some?
                              && st.locations[(showId, i)].value in files
    ensures r.VideoFile? ==> st.locations[(showId, i)] == Some(r.video)
  {
    if (showId, i) in st.locations && st.locations[(showId, i)].Some? && st.locations[(showId, i)].value in files
    then VideoFile(st.locations[(showId, i)].value)
    else BlankVideo
  }

  /** `download_all_videos`: one archive entry `{i}.mp4` for each i in 1..226. */
  function Manifest(st: Store, showId: int, files: set<int>): (r: Result<seq<(string, Source)>, HttpError>)
    ensures r.Err? <==> showId !in st.shows
    ensures r.Err? ==> r.error == NotFound
    ensures r.Ok? ==> |r.value| == NumBricks
    ensures r.Ok? ==> forall i :: 0 <= i < |r.value| ==>
              r.value[i] == (Decimal(i + 1) + ".mp4", EntrySource(st, showId, files, i + 1))
  {
    if showId !in st.shows then Err(NotFound)
    else Ok(seq(NumBricks, i requires 0 <= i < NumBricks =>
                (Decimal(i + 1) + ".mp4", EntrySource(st, showId, files, i + 1))))
  }

  /** The archive's entry names are all different, and an entry names location
      `i` exactly when it is called `{i}.mp4`. */
  lemma ManifestNamesDistinct(st: Store, showId: int, files: set<int>)
    requires showId in st.shows
    ensures var m := Manifest(st, showId, files).value;
            forall i, j :: 0 <= i < j < |m| ==> m[i].0 != m[j].0
  {
    var m := Manifest(st, showId, files).value;
    forall i, j | 0 <= i < j < |m| ensures m[i].0 != m[j].0 {
      var a, b := Decimal(i + 1), Decimal(j + 1);
      if a + ".mp4" == b + ".mp4" {
        assert a == (a + ".mp4")[..|a|] && b == (b + ".mp4")[..|b|];
        DecimalInjective(i + 1, j + 1);
      }
    }
  }

  /** After clearing the wall, the archive is all blank videos. */
  lemma ClearedWallDownloadsBlank(st: Store, showId: int, files: set<int>)
    requires showId in st.shows
    ensures var m := Manifest(ClearLocations(st, showId).value.0, showId, files).value;
            forall i :: 0 <= i < |m| ==> m[i].1 == BlankVideo
  {
  }

  /** The five show statuses in declaration order. */
  const AllStatuses: seq<Shows.ShowStatus> :=
    [Shows.Unassigned, Shows.InDesign, Shows.PendingApproval, Shows.Approved, Shows.Archived]

  /** The stored value of a status. */
  function StatusValue(s: Shows.ShowStatus): (v: string)
    ensures 0 < |v| <= 20
  {
    match s
    case Unassigned => "unassigned"
    case InDesign => "in_design"
    case PendingApproval => "pending_approval"
    case Approved => "approved"
    case Archived => "archived"
  }

  function StatusDisplay(s: Shows.ShowStatus): (d: string)
  {
    match s
    case Unassigned => "Unassigned"
    case InDesign => "In Design"
    case PendingApproval => "Pending Approval"
    case Approved => "Approved"
    case Archived => "Archived"
  }

  /** The status a stored value names, None for any other text. */
  function ParseStatus(v: string): (r: Option<Shows.ShowStatus>)
  {
    if v == "unassigned" then Some(Shows.Unassigned)
    else if v == "in_design" then Some(Shows.InDesign)
    else if v == "pending_approval" then Some(Shows.PendingApproval)
    else if v == "approved" then Some(Shows.Approved)
    else if v == "archived" then Some(Shows.Archived)
    else None
  }

  /** Stored values and statuses correspond one to one. */
  lemma StatusValueRoundTrip(s: Shows.ShowStatus, v: string)
    ensures ParseStatus(StatusValue(s)) == Some(s)
    ensures ParseStatus(v) == Some(s) ==> v == StatusValue(s)
  {
  }

  /** `retrieve_show_statuses`: (value, display) for each status, in declaration
      order. */
  function StatusChoices(): (r: seq<(string, string)>)
    ensures |r| == |AllStatuses|
    ensures forall i :: 0 <= i < |r| ==> r[i] == (StatusValue(AllStatuses[i]), StatusDisplay(AllStatuses[i]))
  {
    seq(|AllStatuses|, i requires 0 <= i < |AllStatuses| => (StatusValue(AllStatuses[i]), StatusDisplay(AllStatuses[i])))
  }

  /** Every status is listed exactly once, and every listed value reads back as
      its status. */
  lemma StatusChoicesComplete(s: Shows.ShowStatus)
    ensures var r := StatusChoices();
            (exists i :: 0 <= i < |r| && r[i].0 == StatusValue(s))
            && (forall i, j :: 0 <= i < j < |r| ==> r[i].0 != r[j].0)
            && (forall i :: 0 <= i < |r| ==> ParseStatus(r[i].0) == Some(AllStatuses[i]))
  {
    var r := StatusChoices();
    match s
    case Unassigned => assert r[0].0 == StatusValue(s);
    case InDesign => assert r[1].0 == StatusValue(s);
    case PendingApproval => assert r[2].0 == StatusValue(s);
    case Approved => assert r[3].0 == StatusValue(s);
    case Archived => assert r[4].0 == StatusValue(s);
  }

  /** `get_artist_username`: no artist (None or empty) gives None; otherwise the
      artist text is looked up as a user id, an unknown id giving None. Text
      that is not an integer makes the lookup raise. */
  function ArtistUsername(artist: Option<string>, users: map<int, string>): (r: Result<Option<string>, HttpError>)
    ensures artist.None? || artist.value == "" ==> r == Ok(None)
    ensures artist.Some? && artist.value != "" ==>
              match ParseInt(artist.value)
              case None => r == Err(ServerError)
              case Some(n) => r == Ok(if n in users then Some(users[n]) else None)
  {
    if artist.None? || artist.value == "" then Ok(None)
    else match ParseInt(artist.value)
      case None => Err(ServerError)
      case Some(n) => Ok(if n in users then Some(users[n]) else None)
  }

  /** A show unassigned through `assign_artist` has no artist name, since user ids
      start at 1. */
  lemma UnassignedHasNoUsername(st: Store, showId: int, users: map<int, string>)
    requires showId in st.shows
    requires forall n :: n in users ==> n >= 1
    ensures AssignArtist(st, showId, Some("0")).Ok?
    ensures ArtistUsername(AssignArtist(st, showId, Some("0")).value.shows[showId].artist, users) == Ok(None)
  {
    assert ParseInt("0") == Some(0) by {
      assert AllDigits("0");
    }
  }

  /** Deleting a show removes its videos and locations, and any location of
      another show holding one of its videos is emptied. */
  function DeleteShowCascade(st: Store, id: int): (r: Store)
    ensures r.shows == st.shows - {id}
    ensures forall v :: v in r.videos <==> v in st.videos && st.videos[v] != id
    ensures forall k :: k in r.locations <==> k in st.locations && k.0 != id
  {
    var gone := set v | v in st.videos && st.videos[v] == id;
    Store(st.shows - {id},
          map v | v in st.videos && st.videos[v] != id :: st.videos[v],
          map k | k in st.locations && k.0 != id ::
            if st.locations[k].Some? && st.locations[k].value in gone then None else st.locations[k])
  }

  /** The cascade keeps the tables consistent and leaves other shows' locations as
      they were. */
  lemma DeleteShowKeepsConsistent(st: Store, id: int)
    requires Consistent(st)
    ensures Consistent(DeleteShowCascade(st, id))
    ensures forall k :: k in st.locations && k.0 != id ==> DeleteShowCascade(st, id).locations[k] == st.locations[k]
  {
    var r := DeleteShowCascade(st, id);
    forall k | k in r.locations ensures SameShow(r, k) && r.locations[k] == st.locations[k] {
      assert SameShow(st, k);
    }
  }
}
