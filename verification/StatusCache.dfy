/** The brick page's copy of the status catalog and of the bricks, and what each
    status dialog does to them: creating and deleting catalog statuses, adding a
    status to a brick, assigning a status to a chosen brick, and removing one,
    along with the selection and viewing state around them. */
module StatusCache {
  import opened Wrappers
  import opened Entities
  import Shows
  import SeqFacts
  import BrickStatus
  import DecimalText
  import WallGrid

  /** The brick page gives editing control, and entry, to admins only. */
  predicate BrickPageEditing(role: Shows.Role)
  {
    role == Shows.Admin
  }

  predicate BrickPageAccess(role: Shows.Role)
  {
    role == Shows.Admin
  }

  /** Unlike the video page, where an assigned artist may also edit, the brick
      page's control and entry coincide and are an admin's alone. */
  lemma BrickPageAdminOnly(role: Shows.Role, storedId: Option<string>, artist: Option<string>,
                           status: Shows.ShowStatus)
    ensures BrickPageEditing(role) <==> BrickPageAccess(role)
    ensures BrickPageEditing(role) ==> !Shows.VideoEditLocked(role, storedId, artist, status)
  {
  }

  /** The first catalog status with the given id, as `statuses.find`. */
  function FindStatus(statuses: seq<Status>, id: int): (r: Option<Status>)
    ensures r.None? <==> forall s :: s in statuses ==> s.id != id
    ensures r.Some? ==> r.value in statuses && r.value.id == id
  {
    if statuses == [] then None
    else if statuses[0].id == id then Some(statuses[0])
    else FindStatus(statuses[1..], id)
  }

  /** The brick page's effect on the viewed status: it is cleared once no catalog
      status has its id, and otherwise kept as it is. */
  function InvalidateViewing(viewing: Option<Status>, catalog: seq<Status>): (r: Option<Status>)
    ensures r.None? <==> viewing.None? || forall s :: s in catalog ==> s.id != viewing.value.id
    ensures r.Some? ==> r == viewing
  {
    if viewing.Some? && FindStatus(catalog, viewing.value.id).None? then None else viewing
  }

  /** Running the effect again changes nothing. */
  lemma InvalidateSettles(viewing: Option<Status>, catalog: seq<Status>)
    ensures InvalidateViewing(InvalidateViewing(viewing, catalog), catalog) == InvalidateViewing(viewing, catalog)
  {
  }

  /** `handleSelectStatus` in the status list: clicking the selected status clears
      both the selection and the viewed status; clicking another makes the catalog
      entry with that id both selected and viewed. The result is the pair
      (selected, viewed). */
  function SelectInList(selected: Option<Status>, catalog: seq<Status>, id: int)
    : (r: (Option<Status>, Option<Status>))
    ensures selected.Some? && selected.value.id == id ==> r == (None, None)
    ensures !(selected.Some? && selected.value.id == id) ==>
              r.0 == r.1 && (r.0.Some? <==> exists s :: s in catalog && s.id == id)
              && (r.0.Some? ==> r.0.value in catalog && r.0.value.id == id)
  {
    if selected.Some? && selected.value.id == id then (None, None)
    else (FindStatus(catalog, id), FindStatus(catalog, id))
  }

  /** Clicking the same catalog status twice returns to no selection and no view. */
  lemma SelectInListTwice(selected: Option<Status>, catalog: seq<Status>, id: int)
    requires exists s :: s in catalog && s.id == id
    requires !(selected.Some? && selected.value.id == id)
    ensures var r := SelectInList(selected, catalog, id);
            r.0.Some? && SelectInList(r.0, catalog, id) == (None, None)
  {
  }

  /** The status list's buttons: Create and Delete need editing control, and
      Delete is enabled only with a selection; Assign appears on every item with
      editing control. */
  predicate CreateStatusShown(editing: bool) { editing }

  predicate DeleteStatusEnabled(editing: bool, selected: Option<Status>)
  {
    editing && selected.Some?
  }

  predicate AssignShown(editing: bool) { editing }

  /** `handleSelectStatus` in the brick-status modal: a repeat click clears the
      selection, any other click selects the brick's status with that id. */
  function SelectOnBrick(selected: Option<Status>, brick: Brick, id: int): (r: Option<Status>)
    ensures selected.Some? && selected.value.id == id ==> r.None?
    ensures !(selected.Some? && selected.value.id == id) ==>
              (r.Some? <==> HasStatus(brick, id)) && (r.Some? ==> r.value in brick.statuses && r.value.id == id)
  {
    if selected.Some? && selected.value.id == id then None else FindStatus(brick.statuses, id)
  }

  /** The modal's Add and Remove buttons need editing control; Remove also needs
      a selected status. */
  predicate AddToBrickShown(editing: bool) { editing }

  predicate RemoveFromBrickEnabled(editing: bool, selected: Option<Status>)
  {
    editing && selected.Some?
  }

  /** Every status control on the brick page is an admin's: Create, Assign and
      Add appear exactly for admins, and Delete and Remove are enabled exactly
      for an admin with a selection, so a repeat click on the selected status
      disables Remove again. */
  lemma ControlsNeedAdmin(role: Shows.Role, selected: Option<Status>, brick: Brick, id: int)
    ensures CreateStatusShown(BrickPageEditing(role)) <==> role == Shows.Admin
    ensures AssignShown(BrickPageEditing(role)) <==> role == Shows.Admin
    ensures AddToBrickShown(BrickPageEditing(role)) <==> role == Shows.Admin
    ensures DeleteStatusEnabled(BrickPageEditing(role), selected) <==> role == Shows.Admin && selected.Some?
    ensures RemoveFromBrickEnabled(BrickPageEditing(role), SelectOnBrick(selected, brick, id)) <==>
              role == Shows.Admin && !(selected.Some? && selected.value.id == id) && HasStatus(brick, id)
  {
  }

  /** The history the modal lists: the server's list reversed, or nothing when
      the fetch failed. */
  function ShownHistory(fetched: Option<seq<BrickStatus.Entry>>): (r: seq<BrickStatus.Entry>)
    ensures fetched.None? ==> r == []
    ensures fetched.Some? ==> |r| == |fetched.value|
    ensures fetched.Some? ==> forall i :: 0 <= i < |r| ==> r[i] == fetched.value[|r| - 1 - i]
  {
    if fetched.None? then []
    else seq(|fetched.value|, i requires 0 <= i < |fetched.value| => fetched.value[|fetched.value| - 1 - i])
  }

  /** Over the server's history, the modal lists a brick's rows newest first, and
      lists every one of them. */
  lemma HistoryNewestFirst(db: BrickStatus.Db, pk: int)
    requires BrickStatus.WellFormed(db) && pk in db.bricks
    ensures var shown := ShownHistory(Some(BrickStatus.BrickHistory(db, pk).value));
            (forall i, j :: 0 <= i < j < |shown| ==> shown[i].time >= shown[j].time)
            && (forall e :: e in shown <==> e in db.log && e.brick == pk)
  {
    var h := BrickStatus.BrickHistory(db, pk).value;
    assert BrickStatus.Chronological(db.log);
    ReversedNewestFirst(h);
  }

  /** A history in time order, reversed, lists the same rows newest first. */
  lemma ReversedNewestFirst(h: seq<BrickStatus.Entry>)
    requires BrickStatus.Chronological(h)
    ensures var shown := ShownHistory(Some(h));
            (forall i, j :: 0 <= i < j < |shown| ==> shown[i].time >= shown[j].time)
            && (forall e :: e in shown <==> e in h)
  {
    var shown := ShownHistory(Some(h));
    forall e | e in h ensures e in shown {
      var k :| 0 <= k < |h| && h[k] == e;
      assert shown[|h| - 1 - k] == e;
    }
  }

  /** `handleAddNewStatus` in the create dialog's outcome. */
  datatype AddNotice = EmptyName | DuplicateName | StatusAdded | AddFailed

  /** `handleAddNewStatus`: an empty or already used name (exact, case-sensitive
      match) sends nothing; otherwise the server's new status is appended and the
      name cleared, or on failure nothing changes. `reply` is the created status,
      None when the request fails. */
  function AddStatus(catalog: seq<Status>, name: string, reply: Option<Status>)
    : (r: (seq<Status>, string, AddNotice))
    ensures r.2 == EmptyName <==> name == ""
    ensures r.2 == DuplicateName <==> name != "" && exists s :: s in catalog && s.name == name
    ensures r.2 == StatusAdded <==>
              name != "" && (forall s :: s in catalog ==> s.name != name) && reply.Some?
    ensures r.2 == StatusAdded ==> r.0 == catalog + [reply.value] && r.1 == ""
    ensures r.2 != StatusAdded ==> r.0 == catalog && r.1 == name
  {
    if name == "" then (catalog, name, EmptyName)
    else if exists s :: s in catalog && s.name == name then (catalog, name, DuplicateName)
    else if reply.Some? then (catalog + [reply.value], "", StatusAdded)
    else (catalog, name, AddFailed)
  }

  /** No two catalog statuses share a name. */
  predicate NamesDistinct(catalog: seq<Status>)
  {
    forall i, j :: 0 <= i < j < |catalog| ==> catalog[i].name != catalog[j].name
  }

  /** The dialog never lets two statuses with the same name into the catalog,
      provided the server names the new status as asked. */
  lemma AddKeepsNamesDistinct(catalog: seq<Status>, name: string, reply: Option<Status>)
    requires NamesDistinct(catalog)
    requires reply.Some? ==> reply.value.name == name
    ensures NamesDistinct(AddStatus(catalog, name, reply).0)
  {
    var r := AddStatus(catalog, name, reply);
    if r.2 == StatusAdded {
      forall i, j | 0 <= i < j < |r.0| ensures r.0[i].name != r.0[j].name {
        if j == |catalog| {
          assert r.0[i] in catalog;
        }
      }
    }
  }

  /** `statuses.filter(s => s.id !== id)`. */
  function DropStatus(statuses: seq<Status>, id: int): (r: seq<Status>)
    ensures forall s :: s in r <==> s in statuses && s.id != id
    ensures SeqFacts.Subsequence(r, statuses)
    ensures (forall s :: s in statuses ==> s.id != id) ==> r == statuses
  {
    if statuses == [] then []
    else
      var rest := DropStatus(statuses[1..], id);
      assert forall s :: s in statuses <==> s == statuses[0] || s in statuses[1..];
      if statuses[0].id == id then rest
      else
        assert ([statuses[0]] + rest)[1..] == rest;
        assert statuses == [statuses[0]] + statuses[1..];
        [statuses[0]] + rest
  }

  /** Every brick with status `id` stripped from its list, as
      `bricks.map(b => ({...b, statuses: b.statuses.filter(...)}))`. */
  function StripEverywhere(bricks: seq<Brick>, id: int): (r: seq<Brick>)
    ensures |r| == |bricks|
    ensures forall i :: 0 <= i < |r| ==>
              r[i].id == bricks[i].id && r[i].statuses == DropStatus(bricks[i].statuses, id)
  {
    seq(|bricks|, i requires 0 <= i < |bricks| => Brick(bricks[i].id, DropStatus(bricks[i].statuses, id)))
  }

  /** `handleRemoveStatus` in the delete dialog. After a successful DELETE the
      status leaves the catalog and every brick, and the list's selection is
      cleared; on failure nothing changes. The result is (catalog, bricks,
      selection). */
  function DeleteCatalogStatus(catalog: seq<Status>, bricks: seq<Brick>, selected: Status, ok: bool)
    : (r: (seq<Status>, seq<Brick>, Option<Status>))
    ensures ok ==> r.0 == DropStatus(catalog, selected.id) && r.1 == StripEverywhere(bricks, selected.id)
                   && r.2.None?
    ensures !ok ==> r == (catalog, bricks, Some(selected))
  {
    if ok then (DropStatus(catalog, selected.id), StripEverywhere(bricks, selected.id), None)
    else (catalog, bricks, Some(selected))
  }

  /** After a successful delete no brick carries the status, every other status of
      every brick stays, in order, the viewed status is dropped if it was the one
      deleted, and no brick is then highlighted for it. */
  lemma DeletedStatusForgotten(catalog: seq<Status>, bricks: seq<Brick>, selected: Status,
                               viewing: Option<Status>)
    requires viewing.Some? ==> viewing.value.id == selected.id
    ensures var r := DeleteCatalogStatus(catalog, bricks, selected, true);
            (forall b :: b in r.1 ==> !HasStatus(b, selected.id))
            && (forall i, s :: 0 <= i < |bricks| && s in bricks[i].statuses && s.id != selected.id
                  ==> s in r.1[i].statuses)
            && InvalidateViewing(viewing, r.0).None?
            && WallGrid.ViewedIds(r.1, viewing) == []
  {
    var r := DeleteCatalogStatus(catalog, bricks, selected, true);
    forall b | b in r.1 ensures !HasStatus(b, selected.id) {
      var i :| 0 <= i < |r.1| && r.1[i] == b;
    }
    var v := WallGrid.ViewedIds(r.1, viewing);
    if v != [] {
      assert v[0] in v;
    }
  }

  /** The add-to-brick dialog's choices: catalog statuses the brick lacks, by id. */
  function AvailableStatuses(catalog: seq<Status>, brick: Brick): (r: seq<Status>)
    ensures forall s :: s in r <==> s in catalog && !HasStatus(brick, s.id)
    ensures SeqFacts.Subsequence(r, catalog)
  {
    if catalog == [] then []
    else
      var rest := AvailableStatuses(catalog[1..], brick);
      assert forall s :: s in catalog <==> s == catalog[0] || s in catalog[1..];
      if HasStatus(brick, catalog[0].id) then rest
      else
        assert ([catalog[0]] + rest)[1..] == rest;
        [catalog[0]] + rest
  }

  /** The cache after a modify-status reply: every brick with the reply's id is
      replaced by the reply, every other brick is left as it was. */
  function ReplaceById(bricks: seq<Brick>, updated: Brick): (r: seq<Brick>)
    ensures |r| == |bricks|
    ensures forall i :: 0 <= i < |r| ==> r[i] == (if bricks[i].id == updated.id then updated else bricks[i])
  {
    seq(|bricks|, i requires 0 <= i < |bricks| => if bricks[i].id == updated.id then updated else bricks[i])
  }

  /** After a reply for a cached brick, the cache holds the reply for that id. */
  lemma ReplaceFinds(bricks: seq<Brick>, updated: Brick)
    requires exists b :: b in bricks && b.id == updated.id
    ensures FindBrick(ReplaceById(bricks, updated), updated.id) == Some(updated)
  {
    var r := ReplaceById(bricks, updated);
    var k :| 0 <= k < |bricks| && bricks[k].id == updated.id;
    assert r[k] == updated;
  }

  /** A repeated reply changes nothing more. */
  lemma ReplaceIdempotent(bricks: seq<Brick>, updated: Brick)
    ensures ReplaceById(ReplaceById(bricks, updated), updated) == ReplaceById(bricks, updated)
  {
  }

  /** `handleAddNewStatus` in the add-to-brick dialog. The Add button is disabled
      without a selection. On a reply the cache takes the updated brick, the status
      leaves the dialog's choices and the selection clears; on failure nothing
      changes. The result is (bricks, choices, selection). */
  function AddToBrick(bricks: seq<Brick>, available: seq<Status>, selected: Option<Status>,
                      reply: Option<Brick>): (r: (seq<Brick>, seq<Status>, Option<Status>))
    ensures selected.None? || reply.None? ==> r == (bricks, available, selected)
    ensures selected.Some? && reply.Some? ==>
              r.0 == ReplaceById(bricks, reply.value) && r.1 == DropStatus(available, selected.value.id)
              && r.2.None?
  {
    if selected.None? || reply.None? then (bricks, available, selected)
    else (ReplaceById(bricks, reply.value), DropStatus(available, selected.value.id), None)
  }

  /** The dialog's choices stay in step with the brick: when the server's reply is
      the brick with the chosen status added, the pruned choices are exactly the
      statuses the updated brick still lacks. */
  lemma ChoicesStayInStep(catalog: seq<Status>, bricks: seq<Brick>, brick: Brick, chosen: Status,
                          reply: Brick)
    requires chosen in AvailableStatuses(catalog, brick)
    requires forall id :: HasStatus(reply, id) <==> HasStatus(brick, id) || id == chosen.id
    ensures var r := AddToBrick(bricks, AvailableStatuses(catalog, brick), Some(chosen), Some(reply));
            forall s :: s in r.1 <==> s in AvailableStatuses(catalog, reply)
  {
  }

  /** The bricks 1..`hi` offered by the assign dialog from `lo` on: those not
      cached, or cached without the status. */
  function BricksFrom(lo: int, bricks: seq<Brick>, statusId: int): (r: seq<int>)
    ensures forall n :: n in r <==> lo <= n <= BrickStatus.NumBricks && Unassigned(bricks, n, statusId)
    ensures forall i, j :: 0 <= i < j < |r| ==> r[i] < r[j]
    ensures forall i :: 0 <= i < |r| ==> lo <= r[i]
    decreases BrickStatus.NumBricks - lo
  {
    if lo > BrickStatus.NumBricks then []
    else
      var rest := BricksFrom(lo + 1, bricks, statusId);
      if Unassigned(bricks, lo, statusId) then
        assert forall i :: 0 <= i < |rest| ==> lo < rest[i];
        [lo] + rest
      else rest
  }

  /** Brick `n` is not cached, or is cached without the status. */
  predicate Unassigned(bricks: seq<Brick>, n: int, statusId: int)
  {
    var b := FindBrick(bricks, n);
    b.None? || !HasStatus(b.value, statusId)
  }

  /** `availableBricks` of the assign dialog: the ids 1..226, ascending, whose
      cached brick is missing or lacks the status. */
  function AvailableBricks(bricks: seq<Brick>, statusId: int): (r: seq<int>)
    ensures forall n :: n in r <==> 1 <= n <= BrickStatus.NumBricks && Unassigned(bricks, n, statusId)
    ensures forall i, j :: 0 <= i < j < |r| ==> r[i] < r[j]
  {
    BricksFrom(1, bricks, statusId)
  }

  /** With no brick cached, every brick is offered. */
  lemma EmptyCacheOffersAll(statusId: int)
    ensures forall n :: n in AvailableBricks([], statusId) <==> 1 <= n <= BrickStatus.NumBricks
  {
  }

  /** `assignStatusToBrick`. With no brick chosen (0) nothing happens. An uncached
      brick is first POSTed, and `created` (None on failure) is appended; the
      modify request follows regardless, and its `reply` replaces the brick and
      resets the choice, while a failure keeps the choice. The result is (bricks,
      chosen brick). */
  function AssignStatus(bricks: seq<Brick>, chosen: int, created: Option<Brick>, reply: Option<Brick>)
    : (r: (seq<Brick>, int))
    ensures chosen == 0 ==> r == (bricks, 0)
    ensures chosen != 0 ==>
              var cached := exists b :: b in bricks && b.id == chosen;
              var grown := if !cached && created.Some? then bricks + [created.value] else bricks;
              && (reply.Some? ==> r == (ReplaceById(grown, reply.value), 0))
              && (reply.None? ==> r == (grown, chosen))
  {
    if chosen == 0 then (bricks, 0)
    else
      var cached := exists b :: b in bricks && b.id == chosen;
      var grown := if !cached && created.Some? then bricks + [created.value] else bricks;
      if reply.Some? then (ReplaceById(grown, reply.value), 0) else (grown, chosen)
  }

  /** Once the server confirms the status on the chosen brick, that brick is no
      longer offered, provided the brick was cached or its creation succeeded with
      the chosen id. */
  lemma AssignedBrickLeavesChoices(bricks: seq<Brick>, chosen: int, statusId: int,
                                   created: Option<Brick>, reply: Brick)
    requires chosen != 0 && reply.id == chosen && HasStatus(reply, statusId)
    requires (exists b :: b in bricks && b.id == chosen) || (created.Some? && created.value.id == chosen)
    ensures chosen !in AvailableBricks(AssignStatus(bricks, chosen, created, Some(reply)).0, statusId)
  {
    var cached := exists b :: b in bricks && b.id == chosen;
    var grown := if !cached && created.Some? then bricks + [created.value] else bricks;
    assert exists b :: b in grown && b.id == chosen by {
      if !cached {
        assert grown[|bricks|] == created.value;
      }
    }
    ReplaceFinds(grown, reply);
  }

  /** A modify-status request as the dialogs send it. */
  datatype ModifyRequest = ModifyRequest(brick: int, statusId: int, actionType: string)

  /** The remove dialog's request: the brick, the selected status, `remove`. */
  function RemoveRequest(brick: Brick, selected: Status): (q: ModifyRequest)
    ensures q.brick == brick.id && q.statusId == selected.id
    ensures BrickStatus.ParseAction(q.actionType) == Some(BrickStatus.RemoveAction)
  {
    ModifyRequest(brick.id, selected.id, "remove")
  }

  /** The server accepts the remove dialog's request, its status id sent as form
      text, for a stored brick and an existing status, and answers with the
      brick's statuses minus that one. */
  lemma RemoveRequestAccepted(db: BrickStatus.Db, brick: Brick, selected: Status, now: int)
    requires brick.id in db.bricks && selected.id in db.catalog
    ensures var q := RemoveRequest(brick, selected);
            var r := BrickStatus.ModifyStatus(db, q.brick, Some(DecimalText.SignedDecimal(q.statusId)), Some(q.actionType), now);
            r.Ok? && r.value.1 == db.bricks[brick.id] - {selected.id}
  {
    DecimalText.ParseSignedDecimal(selected.id);
  }

  /** `handleRemoveStatus` in the remove-from-brick dialog: a reply replaces the
      brick with its id, a failure leaves the cache untouched. The dialog's result
      message comes back with it. */
  function RemoveFromBrick(bricks: seq<Brick>, reply: Option<Brick>): (r: (seq<Brick>, string))
    ensures reply.Some? ==> r.0 == ReplaceById(bricks, reply.value)
    ensures reply.None? ==> r.0 == bricks
    ensures r.1 != ""
  {
    if reply.Some? then (ReplaceById(bricks, reply.value), "Status removed successfully!")
    else (bricks, "Failed to remove status. Please try again.")
  }

  /** The dialog asks for confirmation while its result message is empty. */
  predicate ConfirmationShown(result: string)
  {
    result == ""
  }

  /** After an answer the dialog shows the result; closing resets the message, so
      the next opening asks for confirmation again. */
  lemma RemoveDialogCycle(bricks: seq<Brick>, reply: Option<Brick>)
    ensures !ConfirmationShown(RemoveFromBrick(bricks, reply).1)
    ensures ConfirmationShown(CloseRemoveDialog())
  {
  }

  /** Closing the remove-from-brick dialog clears its message. */
  function CloseRemoveDialog(): (result: string)
    ensures result == ""
  {
    ""
  }
}
