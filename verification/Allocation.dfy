/** Random allocation on the video page: the selected videos are spread over every
    brick that holds no video yet. The two shuffles the page draws from
    `Math.random` are parameters here, each an arbitrary permutation of positions,
    so every property below holds whatever order the shuffles produce. */
module Allocation {
  import opened Wrappers
  import opened SeqFacts
  import opened Entities
  import WallTables
  import WallIds

  /** One entry of the distribution sent to the server: brick number to video id. */
  datatype Pair = Pair(brick: int, video: int)

  /** What confirming the allocation leads to. */
  datatype Outcome =
    | NothingSelected               // an alert, and no request
    | Declined                      // the confirmation dialog was dismissed
    | NoneAvailable                 // an alert, and no request
    | Crashed                       // `.id` read on an undefined video; nothing is sent
    | Distributed(pairs: seq<Pair>) // the distribution that is saved

  /** The brick is free: the location at array index `brick - 1` is missing or
      its video is falsy. The index is positional; see `PositionalEligible`. */
  predicate Eligible(locations: seq<Location>, brick: int)
  {
    !(0 <= brick - 1 < |locations|) || !locations[brick - 1].video.Truthy()
  }

  /** The free bricks of `bricks`, in their order. */
  function Available(bricks: seq<int>, locations: seq<Location>): (r: seq<int>)
    ensures forall b :: b in r <==> b in bricks && Eligible(locations, b)
    ensures |r| <= |bricks|
    ensures Distinct(bricks) ==> Distinct(r)
  {
    if bricks == [] then []
    else
      var rest := Available(bricks[1..], locations);
      assert forall b :: b in bricks <==> b == bricks[0] || b in bricks[1..];
      if Eligible(locations, bricks[0]) then [bricks[0]] + rest else rest
  }

  /** The free bricks keep the order of the brick list. */
  lemma {:induction false} AvailableInOrder(bricks: seq<int>, locations: seq<Location>)
    ensures Subsequence(Available(bricks, locations), bricks)
  {
    if bricks != [] {
      var rest := Available(bricks[1..], locations);
      AvailableInOrder(bricks[1..], locations);
      if Eligible(locations, bricks[0]) {
        assert ([bricks[0]] + rest)[1..] == rest;
      }
    }
  }

  /** `p` lists each position `0..n-1`, and only those: a reordering of `n` items. */
  predicate IsPermutation(p: seq<int>, n: int)
  {
    |p| == n && (forall i :: 0 <= i < |p| ==> 0 <= p[i] < n) && (forall k :: 0 <= k < n ==> k in p)
  }

  /** `s` reordered by `p`: position `i` receives the item at position `p[i]`. */
  function Permute<T>(s: seq<T>, p: seq<int>): (r: seq<T>)
    requires IsPermutation(p, |s|)
    ensures |r| == |s|
    ensures forall i :: 0 <= i < |r| ==> r[i] == s[p[i]]
  {
    seq(|p|, i requires 0 <= i < |p| => s[p[i]])
  }

  /** Reordering keeps exactly the same items. */
  lemma PermuteElems<T>(s: seq<T>, p: seq<int>)
    requires IsPermutation(p, |s|)
    ensures forall x :: x in Permute(s, p) <==> x in s
  {
    var r := Permute(s, p);
    forall x | x in s ensures x in r {
      var k :| 0 <= k < |s| && s[k] == x;
      assert k in p;
      var i :| 0 <= i < |p| && p[i] == k;
      assert r[i] == x;
    }
  }

  /** Reordering distinct values leaves them distinct. */
  lemma PermuteDistinct(s: seq<int>, p: seq<int>)
    requires IsPermutation(p, |s|)
    requires Distinct(s)
    ensures Distinct(Permute(s, p))
  {
    if |s| > 0 {
      CoveringIsDistinct(p, 0, |s| - 1);
    }
  }

  /** The selected ids looked up in the video list, as `selected.map(find)`. */
  function Resolve(videos: seq<Video>, selected: seq<int>): (r: seq<Option<Video>>)
    ensures |r| == |selected|
    ensures forall i :: 0 <= i < |r| ==> r[i] == FindVideo(videos, selected[i])
  {
    seq(|selected|, i requires 0 <= i < |selected| => FindVideo(videos, selected[i]))
  }

  /** `ids` repeated round-robin to length `n`: the video chosen for the `i`-th
      brick is `ids[i mod |ids|]`. */
  function Cycle(ids: seq<int>, n: nat): (r: seq<int>)
    requires |ids| > 0
    ensures |r| == n
    ensures forall i :: 0 <= i < n ==> r[i] == ids[i % |ids|]
  {
    seq(n, i requires 0 <= i < n => ids[i % |ids|])
  }

  /** The round-robin loop over the shuffled bricks. Brick `i` reads
      `videos[i mod k]`, so the loop fails exactly when one of the first
      `min(n, k)` videos is undefined. */
  function Spread(bricks: seq<int>, videos: seq<Option<Video>>): (r: Option<seq<Pair>>)
    requires |videos| > 0
    ensures r.None? <==> exists j :: 0 <= j < |videos| && j < |bricks| && videos[j].None?
    ensures r.Some? ==> |r.value| == |bricks|
    ensures r.Some? ==> forall i :: 0 <= i < |bricks| ==>
                          videos[i % |videos|].Some? && r.value[i] == Pair(bricks[i], videos[i % |videos|].value.id)
  {
    if exists j :: 0 <= j < |videos| && j < |bricks| && videos[j].None? then None
    else
      assert forall i :: 0 <= i < |bricks| ==> i % |videos| <= i;
      Some(seq(|bricks|, i requires 0 <= i < |bricks| => Pair(bricks[i], videos[i % |videos|].value.id)))
  }

  /** The brick numbers of a distribution, in order. */
  function BricksOf(pairs: seq<Pair>): (r: seq<int>)
    ensures |r| == |pairs| && forall i :: 0 <= i < |pairs| ==> r[i] == pairs[i].brick
  {
    seq(|pairs|, i requires 0 <= i < |pairs| => pairs[i].brick)
  }

  /** The video ids of a distribution, in order. */
  function VideosOf(pairs: seq<Pair>): (r: seq<int>)
    ensures |r| == |pairs| && forall i :: 0 <= i < |pairs| ==> r[i] == pairs[i].video
  {
    seq(|pairs|, i requires 0 <= i < |pairs| => pairs[i].video)
  }

  /** `handleConfirmAllocation` over the brick list `bricks`. `brickOrder` and
      `videoOrder` stand for the two random sorts. */
  function Allocate(selected: seq<int>, confirmed: bool, videos: seq<Video>, locations: seq<Location>,
                    bricks: seq<int>, brickOrder: seq<int>, videoOrder: seq<int>): (r: Outcome)
    requires IsPermutation(brickOrder, |Available(bricks, locations)|)
    requires IsPermutation(videoOrder, |selected|)
    ensures r.NothingSelected? <==> selected == []
    ensures r.Declined? <==> selected != [] && !confirmed
    ensures r.NoneAvailable? <==> selected != [] && confirmed && Available(bricks, locations) == []
    ensures r.Distributed? ==> |r.pairs| == |Available(bricks, locations)| > 0
    ensures r.Distributed? && |selected| == 1 ==>
              BricksOf(r.pairs) == Available(bricks, locations)
              && forall i :: 0 <= i < |r.pairs| ==> r.pairs[i].video == selected[0]
  {
    if |selected| == 0 then NothingSelected
    else if !confirmed then Declined
    else
      var avail := Available(bricks, locations);
      if |avail| == 0 then NoneAvailable
      else if |selected| == 1 then
        match FindVideo(videos, selected[0])
        case None => Crashed
        case Some(v) => Distributed(seq(|avail|, i requires 0 <= i < |avail| => Pair(avail[i], v.id)))
      else
        match Spread(Permute(avail, brickOrder), Permute(Resolve(videos, selected), videoOrder))
        case None => Crashed
        case Some(pairs) => Distributed(pairs)
  }

  /** The allocation as the page runs it, over every brick of both walls, east
      wall first. */
  function ConfirmAllocation(selected: seq<int>, confirmed: bool, videos: seq<Video>, locations: seq<Location>,
                             brickOrder: seq<int>, videoOrder: seq<int>): (r: Outcome)
    requires IsPermutation(brickOrder, |Available(WallTables.AllBricks(), locations)|)
    requires IsPermutation(videoOrder, |selected|)
    ensures r.NothingSelected? <==> selected == []
  {
    Allocate(selected, confirmed, videos, locations, WallTables.AllBricks(), brickOrder, videoOrder)
  }

  /** The selection after confirming: it is cleared only when the distribution was
      computed; every early return keeps it. */
  function SelectionAfter(r: Outcome, selected: seq<int>): (s: seq<int>)
    ensures s == [] <==> r.Distributed? || selected == []
  {
    if r.Distributed? then [] else selected
  }

  /** The distribution's keys are exactly the free bricks, each once when the brick
      list has no repeats: a brick holding a video is never reassigned. */
  lemma AllocationKeys(selected: seq<int>, confirmed: bool, videos: seq<Video>, locations: seq<Location>,
                       bricks: seq<int>, brickOrder: seq<int>, videoOrder: seq<int>)
    requires IsPermutation(brickOrder, |Available(bricks, locations)|)
    requires IsPermutation(videoOrder, |selected|)
    requires Allocate(selected, confirmed, videos, locations, bricks, brickOrder, videoOrder).Distributed?
    ensures var pairs := Allocate(selected, confirmed, videos, locations, bricks, brickOrder, videoOrder).pairs;
            forall b :: b in BricksOf(pairs) <==> b in bricks && Eligible(locations, b)
    ensures var pairs := Allocate(selected, confirmed, videos, locations, bricks, brickOrder, videoOrder).pairs;
            Distinct(bricks) ==> Distinct(BricksOf(pairs))
  {
    var avail := Available(bricks, locations);
    var pairs := Allocate(selected, confirmed, videos, locations, bricks, brickOrder, videoOrder).pairs;
    if |selected| == 1 {
      assert BricksOf(pairs) == avail;
    } else {
      var shuffled := Permute(avail, brickOrder);
      assert BricksOf(pairs) == shuffled;
      PermuteElems(avail, brickOrder);
      if Distinct(bricks) {
        PermuteDistinct(avail, brickOrder);
      }
    }
  }

  /** Every brick of the distribution receives one of the selected videos, and one
      that is in the video list. */
  lemma AllocationVideos(selected: seq<int>, confirmed: bool, videos: seq<Video>, locations: seq<Location>,
                         bricks: seq<int>, brickOrder: seq<int>, videoOrder: seq<int>)
    requires IsPermutation(brickOrder, |Available(bricks, locations)|)
    requires IsPermutation(videoOrder, |selected|)
    requires Allocate(selected, confirmed, videos, locations, bricks, brickOrder, videoOrder).Distributed?
    ensures var pairs := Allocate(selected, confirmed, videos, locations, bricks, brickOrder, videoOrder).pairs;
            forall i :: 0 <= i < |pairs| ==>
              pairs[i].video in selected && exists v :: v in videos && v.id == pairs[i].video
  {
    var avail := Available(bricks, locations);
    var pairs := Allocate(selected, confirmed, videos, locations, bricks, brickOrder, videoOrder).pairs;
    if |selected| > 1 {
      var resolved := Resolve(videos, selected);
      var shuffled := Permute(resolved, videoOrder);
      forall i | 0 <= i < |pairs|
        ensures pairs[i].video in selected && exists v :: v in videos && v.id == pairs[i].video
      {
        var j := i % |selected|;
        var f := FindVideo(videos, selected[videoOrder[j]]);
        assert shuffled[j] == f;
        assert pairs[i].video == f.value.id;
      }
    }
  }

  /** When every selected id names a listed video, a confirmed allocation with a
      free brick always produces a distribution. */
  lemma ListedSelectionDistributes(selected: seq<int>, videos: seq<Video>, locations: seq<Location>,
                                   bricks: seq<int>, brickOrder: seq<int>, videoOrder: seq<int>)
    requires IsPermutation(brickOrder, |Available(bricks, locations)|)
    requires IsPermutation(videoOrder, |selected|)
    requires selected != [] && Available(bricks, locations) != []
    requires forall x :: x in selected ==> exists v :: v in videos && v.id == x
    ensures Allocate(selected, true, videos, locations, bricks, brickOrder, videoOrder).Distributed?
  {
    assert selected[0] in selected;
    if |selected| > 1 {
      var shuffled := Permute(Resolve(videos, selected), videoOrder);
      forall j | 0 <= j < |shuffled| ensures shuffled[j].Some? {
        assert selected[videoOrder[j]] in selected;
      }
    }
  }

  /** A positive multiple of `k` is at least `k`. */
  lemma {:induction false} MulAtLeast(k: int, d: int)
    requires k > 0 && d >= 1
    ensures k * d >= k
    decreases d
  {
    if d > 1 {
      MulAtLeast(k, d - 1);
      assert k * d == k * (d - 1) + k;
    }
  }

  /** Multiples of `k` with different factors are at least `k` apart. */
  lemma MulGap(k: int, a: int, b: int)
    requires k > 0 && a > b
    ensures k * a >= k * b + k
  {
    assert k * (a - b) == k * a - k * b;
    MulAtLeast(k, a - b);
  }

  /** Euclidean division by a positive divisor has one quotient and remainder. */
  lemma DivUnique(x: int, k: int, q: int, r: int)
    requires k > 0 && 0 <= r < k && x == k * q + r
    ensures x / k == q && x % k == r
  {
    var q0, r0 := x / k, x % k;
    assert x == k * q0 + r0;
    if q0 < q {
      MulGap(k, q, q0);
    } else if q0 > q {
      MulGap(k, q0, q);
    }
  }

  /** How the quotient and remainder move when the dividend grows by one. */
  lemma DivStep(m: nat, k: int)
    requires k > 0
    ensures m % k == k - 1 ==> (m + 1) % k == 0 && (m + 1) / k == m / k + 1
    ensures m % k < k - 1 ==> (m + 1) % k == m % k + 1 && (m + 1) / k == m / k
  {
    var q, r := m / k, m % k;
    if r == k - 1 {
      DivUnique(m + 1, k, q + 1, 0);
    } else {
      DivUnique(m + 1, k, q, r + 1);
    }
  }

  /** The round-robin count formula advances by one exactly at position `m mod k`. */
  lemma RoundRobinStep(m: nat, k: int, j: int)
    requires 0 <= j < k
    ensures (m + 1) / k + (if j < (m + 1) % k then 1 else 0)
            == m / k + (if j < m % k then 1 else 0) + (if m % k == j then 1 else 0)
  {
    DivStep(m, k);
  }

  /** In `n` round-robin picks over distinct ids, the id at position `j` is picked
      `n div k` times, plus one when `j` is among the first `n mod k` positions. */
  lemma {:induction false} CycleCount(ids: seq<int>, n: nat, j: int)
    requires |ids| > 0 && Distinct(ids) && 0 <= j < |ids|
    ensures multiset(Cycle(ids, n))[ids[j]] == n / |ids| + (if j < n % |ids| then 1 else 0)
  {
    var k := |ids|;
    if n == 0 {
      assert Cycle(ids, 0) == [];
    } else {
      var m := n - 1;
      CycleCount(ids, m, j);
      var y := ids[m % k];
      assert Cycle(ids, n) == Cycle(ids, m) + [y];
      assert multiset(Cycle(ids, n)) == multiset(Cycle(ids, m)) + multiset{y};
      assert y == ids[j] <==> m % k == j;
      RoundRobinStep(m, k, j);
    }
  }

  /** With several distinct videos selected, the allocation is balanced: each
      selected video gets `n div k` or `n div k + 1` of the `n` free bricks, so any
      two counts differ by at most one, and no other video gets any. */
  lemma AllocationBalanced(selected: seq<int>, confirmed: bool, videos: seq<Video>, locations: seq<Location>,
                           bricks: seq<int>, brickOrder: seq<int>, videoOrder: seq<int>)
    requires IsPermutation(brickOrder, |Available(bricks, locations)|)
    requires IsPermutation(videoOrder, |selected|)
    requires |selected| > 1 && Distinct(selected)
    requires Allocate(selected, confirmed, videos, locations, bricks, brickOrder, videoOrder).Distributed?
    ensures var pairs := Allocate(selected, confirmed, videos, locations, bricks, brickOrder, videoOrder).pairs;
            forall x :: x in selected ==>
              |pairs| / |selected| <= multiset(VideosOf(pairs))[x] <= |pairs| / |selected| + 1
    ensures var pairs := Allocate(selected, confirmed, videos, locations, bricks, brickOrder, videoOrder).pairs;
            forall x :: x !in selected ==> multiset(VideosOf(pairs))[x] == 0
  {
    var pairs := Allocate(selected, confirmed, videos, locations, bricks, brickOrder, videoOrder).pairs;
    var n := |pairs|;
    var k := |selected|;
    var resolved := Resolve(videos, selected);
    var shuffled := Permute(resolved, videoOrder);
    var ids := Permute(selected, videoOrder);
    forall i | 0 <= i < n ensures VideosOf(pairs)[i] == Cycle(ids, n)[i] {
      var j := i % k;
      assert shuffled[j] == FindVideo(videos, selected[videoOrder[j]]);
    }
    assert VideosOf(pairs) == Cycle(ids, n);
    PermuteElems(selected, videoOrder);
    PermuteDistinct(selected, videoOrder);
    forall x | x in selected
      ensures n / k <= multiset(VideosOf(pairs))[x] <= n / k + 1
    {
      var j :| 0 <= j < k && ids[j] == x;
      CycleCount(ids, n, j);
    }
    forall x | x !in selected ensures multiset(VideosOf(pairs))[x] == 0 {
      assert x !in Cycle(ids, n);
    }
  }

  /** The locations are listed in number order from 1, the order the wall's array
      index assumes. */
  predicate Positional(locations: seq<Location>)
  {
    forall i :: 0 <= i < |locations| ==> locations[i].number == i + 1
  }

  /** With positional locations, a brick in range is free exactly when the location
      carrying its number holds no video. */
  lemma PositionalEligible(locations: seq<Location>, brick: int)
    requires Positional(locations)
    requires 1 <= brick <= |locations|
    ensures FindLocation(locations, brick).Some?
    ensures Eligible(locations, brick) <==> !FindLocation(locations, brick).value.video.Truthy()
  {
    assert UniqueNumbers(locations);
    FindUniqueLocation(locations, locations[brick - 1]);
  }

  /** On the real walls, the distribution names each free brick of 1..226 once, and
      with the locations in number order none of them holds a video. */
  lemma WallAllocation(selected: seq<int>, confirmed: bool, videos: seq<Video>, locations: seq<Location>,
                       brickOrder: seq<int>, videoOrder: seq<int>)
    requires IsPermutation(brickOrder, |Available(WallTables.AllBricks(), locations)|)
    requires IsPermutation(videoOrder, |selected|)
    requires ConfirmAllocation(selected, confirmed, videos, locations, brickOrder, videoOrder).Distributed?
    ensures var pairs := ConfirmAllocation(selected, confirmed, videos, locations, brickOrder, videoOrder).pairs;
            Distinct(BricksOf(pairs))
            && (forall b :: b in BricksOf(pairs) <==> 1 <= b <= WallTables.NumBricks && Eligible(locations, b))
    ensures var pairs := ConfirmAllocation(selected, confirmed, videos, locations, brickOrder, videoOrder).pairs;
            Positional(locations) && |locations| == WallTables.NumBricks ==>
              forall b :: b in BricksOf(pairs) ==> !FindLocation(locations, b).value.video.Truthy()
  {
    var pairs := ConfirmAllocation(selected, confirmed, videos, locations, brickOrder, videoOrder).pairs;
    WallIds.AllBricksExact();
    AllocationKeys(selected, confirmed, videos, locations, WallTables.AllBricks(), brickOrder, videoOrder);
    if Positional(locations) && |locations| == WallTables.NumBricks {
      forall b | b in BricksOf(pairs) ensures !FindLocation(locations, b).value.video.Truthy() {
        PositionalEligible(locations, b);
      }
    }
  }
}
