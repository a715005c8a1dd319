/** Updating a show's location list the way every page does it: mapping over the
    list and replacing the video of each location that carries a given number. The
    multiset of assigned video ids measures what such an update gains and loses. */
module Placement {
  import opened Entities

  /** The list after setting the video of every location numbered `n` to `v`. */
  function SetVideo(locations: seq<Location>, n: int, v: VideoRef): (r: seq<Location>)
    ensures |r| == |locations|
    ensures forall i :: 0 <= i < |locations| ==> r[i].number == locations[i].number
    ensures forall i :: 0 <= i < |locations| && locations[i].number == n ==> r[i].video == v
    ensures forall i :: 0 <= i < |locations| && locations[i].number != n ==> r[i] == locations[i]
  {
    if locations == [] then []
    else
      [if locations[0].number == n then Location(n, v) else locations[0]]
      + SetVideo(locations[1..], n, v)
  }

  /** The video ids a reference contributes to the wall: one for an id, none for a
      falsy reference. */
  function RefIds(v: VideoRef): multiset<int>
  {
    if v.Ref? then multiset{v.id} else multiset{}
  }

  /** The multiset of video ids shown on the wall, one per location holding one. */
  function Assigned(locations: seq<Location>): multiset<int>
  {
    if locations == [] then multiset{}
    else RefIds(locations[0].video) + Assigned(locations[1..])
  }

  /** Setting a number no location carries leaves the list as it was. */
  lemma SetVideoAbsent(locations: seq<Location>, n: int, v: VideoRef)
    requires forall l :: l in locations ==> l.number != n
    ensures SetVideo(locations, n, v) == locations
  {
  }

  /** Setting every location numbered `n` to the video they already hold changes
      nothing. */
  lemma SetVideoSame(locations: seq<Location>, n: int, v: VideoRef)
    requires forall l :: l in locations && l.number == n ==> l.video == v
    ensures SetVideo(locations, n, v) == locations
  {
    var r := SetVideo(locations, n, v);
    forall i | 0 <= i < |locations| ensures r[i] == locations[i] {
      assert locations[i] in locations;
    }
  }

  /** Multiset union regrouped; stated once so that the proofs below need not
      search for it. */
  lemma UnionRegroup(a: multiset<int>, b: multiset<int>, c: multiset<int>)
    ensures a + b + c == a + (b + c)
  {
  }

  /** Multiset union cancels on the right. */
  lemma UnionCancel(a: multiset<int>, b: multiset<int>, c: multiset<int>)
    requires a + c == b + c
    ensures a == b
  {
    forall x ensures a[x] == b[x] {
      assert (a + c)[x] == (b + c)[x];
    }
  }

  /** Replacing the video of the first location, whose number no other location
      carries. */
  lemma SetVideoAssignedHead(locations: seq<Location>, v: VideoRef)
    requires UniqueNumbers(locations)
    requires 0 < |locations|
    ensures Assigned(SetVideo(locations, locations[0].number, v)) + RefIds(locations[0].video)
            == Assigned(locations) + RefIds(v)
  {
    var n := locations[0].number;
    var tail := locations[1..];
    forall l | l in tail ensures l.number != n {
      var j :| 0 <= j < |tail| && tail[j] == l;
      assert locations[j + 1] == l;
    }
    SetVideoAbsent(tail, n, v);
    assert SetVideo(locations, n, v) == [Location(n, v)] + tail;
    assert Assigned(SetVideo(locations, n, v)) == RefIds(v) + Assigned(tail);
  }

  /** With unique numbers, replacing the video of the location at index `k` swaps its
      old contribution to the assigned multiset for the new one (stated without
      subtraction: old list plus new reference equals new list plus old reference). */
  lemma {:induction false} SetVideoAssigned(locations: seq<Location>, k: int, v: VideoRef)
    requires UniqueNumbers(locations)
    requires 0 <= k < |locations|
    ensures Assigned(SetVideo(locations, locations[k].number, v)) + RefIds(locations[k].video)
            == Assigned(locations) + RefIds(v)
    decreases |locations|
  {
    if k == 0 {
      SetVideoAssignedHead(locations, v);
    } else {
      var n := locations[k].number;
      var tail := locations[1..];
      assert UniqueNumbers(tail);
      assert tail[k - 1] == locations[k];
      SetVideoAssigned(tail, k - 1, v);
      var s := SetVideo(locations, n, v);
      assert locations[0].number != n;
      assert s == [locations[0]] + SetVideo(tail, n, v);
      var head := RefIds(locations[0].video);
      assert Assigned(s) == head + Assigned(SetVideo(tail, n, v));
      UnionRegroup(head, Assigned(SetVideo(tail, n, v)), RefIds(locations[k].video));
      UnionRegroup(head, Assigned(tail), RefIds(v));
    }
  }
}
