/** The video list beside the wall: reordering by dragging one item over another,
    the single highlighted video, the set of videos ticked for random allocation,
    and what deleting a video does to both lists. */
module VideoListing {
  import opened Wrappers
  import opened SeqFacts
  import opened Entities
  import Shows

  /** `s` without its item at `i`, as `splice(i, 1)`. */
  function RemoveAt<T>(s: seq<T>, i: int): (r: seq<T>)
    requires 0 <= i < |s|
    ensures |r| == |s| - 1
    ensures forall k :: 0 <= k < i ==> r[k] == s[k]
    ensures forall k :: i <= k < |r| ==> r[k] == s[k + 1]
  {
    s[..i] + s[i + 1..]
  }

  /** `s` with `x` inserted before position `i`, as `splice(i, 0, x)`. */
  function InsertAt<T>(s: seq<T>, i: int, x: T): (r: seq<T>)
    requires 0 <= i <= |s|
    ensures |r| == |s| + 1 && r[i] == x
    ensures forall k :: 0 <= k < i ==> r[k] == s[k]
    ensures forall k :: i < k < |r| ==> r[k] == s[k - 1]
  {
    s[..i] + [x] + s[i..]
  }

  /** Inserting and then removing at the same position gives the list back. */
  lemma RemoveInsert<T>(s: seq<T>, i: int, x: T)
    requires 0 <= i <= |s|
    ensures RemoveAt(InsertAt(s, i, x), i) == s
  {
  }

  /** Removing an item and inserting it back where it was gives the list back. */
  lemma InsertRemove<T>(s: seq<T>, i: int)
    requires 0 <= i < |s|
    ensures InsertAt(RemoveAt(s, i), i, s[i]) == s
  {
  }

  /** The reorder of `handleDragOver`: the item at `from` is taken out and put back
      at `to`. It lands at `to`, and the other items keep their relative order. */
  function Move<T>(s: seq<T>, from: int, to: int): (r: seq<T>)
    requires 0 <= from < |s| && 0 <= to < |s|
    ensures |r| == |s| && r[to] == s[from]
    ensures RemoveAt(r, to) == RemoveAt(s, from)
  {
    var rest := RemoveAt(s, from);
    RemoveInsert(rest, to, s[from]);
    InsertAt(rest, to, s[from])
  }

  /** A move is a permutation: the multiset of items is unchanged. */
  lemma MovePermutes<T>(s: seq<T>, from: int, to: int)
    requires 0 <= from < |s| && 0 <= to < |s|
    ensures multiset(Move(s, from, to)) == multiset(s)
  {
    var rest := RemoveAt(s, from);
    var x := s[from];
    assert s == s[..from] + [x] + s[from + 1..];
    assert multiset(s) == multiset(s[..from]) + multiset{x} + multiset(s[from + 1..]);
    assert multiset(rest) == multiset(s[..from]) + multiset(s[from + 1..]);
    assert Move(s, from, to) == rest[..to] + [x] + rest[to..];
    assert rest == rest[..to] + rest[to..];
    assert multiset(rest) == multiset(rest[..to]) + multiset(rest[to..]);
    assert multiset(Move(s, from, to)) == multiset(rest[..to]) + multiset{x} + multiset(rest[to..]);
    assert multiset(Move(s, from, to)) == multiset(rest) + multiset{x};
    assert multiset(s) == multiset(rest) + multiset{x};
  }

  /** Dragging on over a second item continues the same move: the two steps make a
      single move from the first position to the last. */
  lemma MoveThenMove<T>(s: seq<T>, a: int, b: int, c: int)
    requires 0 <= a < |s| && 0 <= b < |s| && 0 <= c < |s|
    ensures Move(Move(s, a, b), b, c) == Move(s, a, c)
  {
    var t := Move(s, a, b);
    assert RemoveAt(t, b) == RemoveAt(s, a);
    assert t[b] == s[a];
  }

  /** Dragging an item back to where it started restores the list. */
  lemma MoveBack<T>(s: seq<T>, a: int, b: int)
    requires 0 <= a < |s| && 0 <= b < |s|
    ensures Move(Move(s, a, b), b, a) == s
  {
    MoveThenMove(s, a, b, a);
    InsertRemove(s, a);
  }

  /** The list as the drag handlers see it: the videos in display order and the
      index of the item being dragged, if any. */
  datatype ListDrag = ListDrag(videos: seq<Video>, dragged: Option<int>)

  /** The dragged index, when there is one, points into the list. */
  predicate ValidDrag(s: ListDrag)
  {
    s.dragged.None? || 0 <= s.dragged.value < |s.videos|
  }

  /** Drag start on item `index`; ignored without editing control. */
  function DragStart(s: ListDrag, index: int, editing: bool): (r: ListDrag)
    requires ValidDrag(s)
    requires 0 <= index < |s.videos|
    ensures r.videos == s.videos && ValidDrag(r)
    ensures editing ==> r.dragged == Some(index)
    ensures !editing ==> r == s
  {
    if editing then s.(dragged := Some(index)) else s
  }

  /** Drag over item `index`. Without editing control, with nothing dragged, or over
      the dragged item itself, nothing changes; otherwise the dragged item moves to
      `index` and the drag continues from there. */
  function DragOver(s: ListDrag, index: int, editing: bool): (r: ListDrag)
    requires ValidDrag(s)
    requires 0 <= index < |s.videos|
    ensures ValidDrag(r) && multiset(r.videos) == multiset(s.videos)
    ensures !editing || s.dragged.None? || s.dragged == Some(index) ==> r == s
    ensures editing && s.dragged.Some? ==>
              r.dragged == Some(index) && r.videos[index] == s.videos[s.dragged.value]
              && RemoveAt(r.videos, index) == RemoveAt(s.videos, s.dragged.value)
  {
    if !editing || s.dragged.None? || s.dragged.value == index then s
    else
      MovePermutes(s.videos, s.dragged.value, index);
      ListDrag(Move(s.videos, s.dragged.value, index), Some(index))
  }

  /** Drag end forgets the dragged index; ignored without editing control. */
  function DragEnd(s: ListDrag, editing: bool): (r: ListDrag)
    ensures r.videos == s.videos
    ensures editing ==> r.dragged.None?
    ensures !editing ==> r == s
  {
    if editing then s.(dragged := None) else s
  }

  /** However many items a drag passes over, the list ends up as one move of the
      dragged item from where the drag started to where it is now. */
  lemma DragOverComposes(s: ListDrag, i: int, j: int)
    requires ValidDrag(s) && s.dragged.Some?
    requires 0 <= i < |s.videos| && 0 <= j < |s.videos|
    ensures DragOver(DragOver(s, i, true), j, true).videos == Move(s.videos, s.dragged.value, j)
  {
    var a := s.dragged.value;
    if a == i {
    } else if i == j {
    } else {
      MoveThenMove(s.videos, a, i, j);
    }
  }

  /** `handleSelectVideo`: clicking the highlighted video clears the highlight,
      clicking any other highlights it. */
  function SelectOne(current: Option<int>, id: int): (r: Option<int>)
    ensures r.Some? <==> current != Some(id)
    ensures r.Some? ==> r.value == id
  {
    if current == Some(id) then None else Some(id)
  }

  /** `s` without any occurrence of `x`, in order, as `filter(y => y !== x)`. */
  function Without(s: seq<int>, x: int): (r: seq<int>)
    ensures forall y :: y in r <==> y in s && y != x
    ensures |r| <= |s|
    ensures Distinct(s) ==> Distinct(r)
    ensures x !in s ==> r == s
    ensures SeqFacts.Subsequence(r, s)
  {
    if s == [] then []
    else
      var rest := Without(s[1..], x);
      assert forall y :: y in s <==> y == s[0] || y in s[1..];
      assert Distinct(s) ==> s[0] !in s[1..];
      if s[0] == x then
        rest
      else
        assert ([s[0]] + rest)[1..] == rest;
        [s[0]] + rest
  }

  /** Filtering out `x` keeps every copy of every other id. */
  lemma {:induction false} WithoutKeepsCopies(s: seq<int>, x: int, y: int)
    requires y != x
    ensures multiset(Without(s, x))[y] == multiset(s)[y]
  {
    if s != [] {
      WithoutKeepsCopies(s[1..], x, y);
      assert s == [s[0]] + s[1..];
      if s[0] != x {
        assert Without(s, x) == [s[0]] + Without(s[1..], x);
      }
    }
  }

  /** `handleVideoSelectForAllocation`: a ticked id is unticked, an unticked one is
      appended. Only `id` changes membership. */
  function Toggle(selected: seq<int>, id: int): (r: seq<int>)
    ensures id in r <==> id !in selected
    ensures forall y :: y != id ==> (y in r <==> y in selected)
    ensures Distinct(selected) ==> Distinct(r)
  {
    if id in selected then Without(selected, id) else selected + [id]
  }

  /** Ticking and unticking an id that was not ticked restores the selection. */
  lemma ToggleTwice(selected: seq<int>, id: int)
    requires id !in selected
    ensures Toggle(Toggle(selected, id), id) == selected
  {
    var t := selected + [id];
    assert t[..|selected|] == selected;
    WithoutLast(selected, id);
  }

  /** Filtering out a value appended to a list that lacked it gives the list back. */
  lemma {:induction false} WithoutLast(s: seq<int>, x: int)
    requires x !in s
    ensures Without(s + [x], x) == s
  {
    if s != [] {
      assert (s + [x])[1..] == s[1..] + [x];
      WithoutLast(s[1..], x);
    }
  }

  /** The ids of the listed videos, in list order. */
  function VideoIds(videos: seq<Video>): (r: seq<int>)
    ensures |r| == |videos|
    ensures forall i :: 0 <= i < |videos| ==> r[i] == videos[i].id
  {
    seq(|videos|, i requires 0 <= i < |videos| => videos[i].id)
  }

  /** `handleSelectAll`: ticking selects every listed video, unticking none. */
  function SelectAll(videos: seq<Video>, checked: bool): (r: seq<int>)
    ensures checked ==> |r| == |videos| && forall x :: x in r <==> exists v :: v in videos && v.id == x
    ensures !checked ==> r == []
  {
    if checked then
      var ids := VideoIds(videos);
      assert forall x :: x in ids ==> exists v :: v in videos && v.id == x;
      assert forall v :: v in videos ==> v.id in ids by {
        forall v | v in videos ensures v.id in ids {
          var i :| 0 <= i < |videos| && videos[i] == v;
          assert ids[i] == v.id;
        }
      }
      ids
    else []
  }

  /** The "select all" box is ticked when as many ids are selected as videos are
      listed; it compares counts, not contents. */
  predicate AllSelected(selected: seq<int>, videos: seq<Video>)
  {
    |selected| == |videos|
  }

  /** The list and the selection after the server accepts deleting video `id`:
      it leaves both. */
  function DeleteVideo(videos: seq<Video>, selected: seq<int>, id: int): (r: (seq<Video>, seq<int>))
    ensures forall v :: v in r.0 <==> v in videos && v.id != id
    ensures forall x :: x in r.1 <==> x in selected && x != id
    ensures SeqFacts.Subsequence(r.0, videos) && SeqFacts.Subsequence(r.1, selected)
  {
    (DropVideo(videos, id), Without(selected, id))
  }

  /** `videos.filter(video => video.id !== id)`. */
  function DropVideo(videos: seq<Video>, id: int): (r: seq<Video>)
    ensures forall v :: v in r <==> v in videos && v.id != id
    ensures |r| <= |videos|
    ensures SeqFacts.Subsequence(r, videos)
  {
    if videos == [] then []
    else
      var rest := DropVideo(videos[1..], id);
      assert forall v :: v in videos <==> v == videos[0] || v in videos[1..];
      if videos[0].id == id then
        rest
      else
        assert ([videos[0]] + rest)[1..] == rest;
        [videos[0]] + rest
  }

  /** Deleting a video keeps every copy of every other video in the list and of
      every other id in the selection. */
  lemma DeleteVideoKeepsCopies(videos: seq<Video>, selected: seq<int>, id: int, v: Video, x: int)
    requires v.id != id && x != id
    ensures multiset(DeleteVideo(videos, selected, id).0)[v] == multiset(videos)[v]
    ensures multiset(DeleteVideo(videos, selected, id).1)[x] == multiset(selected)[x]
  {
    DropVideoKeepsCopies(videos, id, v);
    WithoutKeepsCopies(selected, id, x);
  }

  /** The filter keeps every copy of every other video: only the deleted id's
      entries change in number. */
  lemma {:induction false} DropVideoKeepsCopies(videos: seq<Video>, id: int, v: Video)
    requires v.id != id
    ensures multiset(DropVideo(videos, id))[v] == multiset(videos)[v]
  {
    if videos != [] {
      DropVideoKeepsCopies(videos[1..], id, v);
      assert videos == [videos[0]] + videos[1..];
      var rest := DropVideo(videos[1..], id);
      if videos[0].id != id {
        assert DropVideo(videos, id) == [videos[0]] + rest;
      }
    }
  }

  /** Every selected id names a listed video. */
  predicate Listed(videos: seq<Video>, selected: seq<int>)
  {
    forall x :: x in selected ==> exists v :: v in videos && v.id == x
  }

  /** The selection only ever names listed videos: ticking a listed video's box,
      selecting all, and deleting a video all keep it so. */
  lemma SelectionStaysListed(videos: seq<Video>, selected: seq<int>, v: Video, id: int, checked: bool)
    requires Listed(videos, selected)
    requires v in videos
    ensures Listed(videos, Toggle(selected, v.id))
    ensures Listed(videos, SelectAll(videos, checked))
    ensures Listed(DeleteVideo(videos, selected, id).0, DeleteVideo(videos, selected, id).1)
  {
    var (vs, sel) := DeleteVideo(videos, selected, id);
    forall x | x in sel ensures exists w :: w in vs && w.id == x {
      var w :| w in videos && w.id == x;
      assert w in vs;
    }
  }
}
