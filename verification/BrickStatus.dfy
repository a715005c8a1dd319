/** The server side of brick health: the status catalog, each brick's set of
    statuses, and the history log that `modify-status` appends to. The central
    invariant is that a brick's statuses are exactly what replaying its history
    gives, and that every modelled request handler keeps it. */
module BrickStatus {
  import opened Wrappers
  import opened DecimalText

  /** The number of bricks on the wall (`NUM_BRICKS`, 226 by default). */
  const NumBricks: int := 226

  /** A history action; stored as `add` or `remove`. */
  datatype Action = AddAction | RemoveAction

  function ActionName(a: Action): (s: string)
    ensures s == "add" || s == "remove"
  {
    match a
    case AddAction => "add"
    case RemoveAction => "remove"
  }

  /** The `action_type` field read back as an action; anything else is not one. */
  function ParseAction(s: string): (r: Option<Action>)
    ensures r.Some? <==> s == "add" || s == "remove"
  {
    if s == "add" then Some(AddAction) else if s == "remove" then Some(RemoveAction) else None
  }

  /** The stored name of an action reads back as that action, and an accepted
      `action_type` is the name of what it parses to. */
  lemma ActionRoundTrip(a: Action, s: string)
    ensures ParseAction(ActionName(a)) == Some(a)
    ensures ParseAction(s).Some? ==> ActionName(ParseAction(s).value) == s
  {
  }

  /** One history row: which brick, which status, what happened and when. */
  datatype Entry = Entry(brick: int, status: int, action: Action, time: int)

  /** The tables involved: status ids, bricks with their status sets, and the
      history rows in the order they were created. */
  datatype Db = Db(catalog: set<int>, bricks: map<int, set<int>>, log: seq<Entry>)

  /** The failures of `modify_status`; every one of them is answered as a
      validation error (400). */
  datatype ModifyError = NoSuchBrick | MissingStatusId | MissingActionType | UnreadableStatusId | UnknownStatus | InvalidAction

  /** A status set after one history action. */
  function Apply(s: set<int>, e: Entry): (r: set<int>)
    ensures e.action == AddAction ==> r == s + {e.status}
    ensures e.action == RemoveAction ==> r == s - {e.status}
  {
    if e.action == AddAction then s + {e.status} else s - {e.status}
  }

  /** The status set a history produces from a healthy brick. */
  function Replay(h: seq<Entry>): set<int>
  {
    if h == [] then {} else Apply(Replay(h[..|h| - 1]), h[|h| - 1])
  }

  /** History rows never go back in time. */
  predicate Chronological(log: seq<Entry>)
  {
    forall i, j :: 0 <= i < j < |log| ==> log[i].time <= log[j].time
  }

  /** The rows of brick `b`, in log order. */
  function HistoryOf(log: seq<Entry>, b: int): (r: seq<Entry>)
    ensures forall e :: e in r <==> e in log && e.brick == b
    ensures Chronological(log) ==> Chronological(r)
  {
    if log == [] then []
    else
      var init := HistoryOf(log[..|log| - 1], b);
      var last := log[|log| - 1];
      assert forall e :: e in log <==> e in log[..|log| - 1] || e == last by {
        assert log == log[..|log| - 1] + [last];
      }
      if last.brick == b then
        assert Chronological(log) ==> forall e :: e in init ==> e.time <= last.time by {
          if Chronological(log) {
            forall e | e in init ensures e.time <= last.time {
              var i :| 0 <= i < |log| - 1 && log[i] == e;
            }
          }
        }
        init + [last]
      else init
  }

  lemma HistoryOfAppend(log: seq<Entry>, e: Entry, b: int)
    ensures HistoryOf(log + [e], b) == HistoryOf(log, b) + (if e.brick == b then [e] else [])
  {
    assert (log + [e])[..|log|] == log;
  }

  /** A brick with no rows has an empty history. */
  lemma {:induction false} NoRowsNoHistory(log: seq<Entry>, b: int)
    requires forall e :: e in log ==> e.brick != b
    ensures HistoryOf(log, b) == []
  {
    if log != [] {
      assert log[|log| - 1] in log;
      assert forall e :: e in log[..|log| - 1] ==> e in log;
      NoRowsNoHistory(log[..|log| - 1], b);
    }
  }

  /** The database invariant: bricks lie in 1..226, statuses and rows refer to
      existing statuses and bricks, rows are chronological, and each brick's
      statuses are what its history replays to. */
  predicate WellFormed(db: Db)
  {
    (forall b :: b in db.bricks ==> 1 <= b <= NumBricks && db.bricks[b] <= db.catalog)
    && (forall e :: e in db.log ==> e.brick in db.bricks && e.status in db.catalog)
    && Chronological(db.log)
    && (forall b :: b in db.bricks ==> Replay(HistoryOf(db.log, b)) == db.bricks[b])
  }

  /** Every row is no later than `now`. */
  predicate NotAfter(log: seq<Entry>, now: int)
  {
    forall e :: e in log ==> e.time <= now
  }

  /** `BrickViewSet.modify_status` at time `now`, on the form fields the dialogs
      send as text. The brick is looked up first, then the two fields must be
      present and non-empty (the text `0` is truthy), the status id must read as
      an integer naming a stored status and the action must be `add` or `remove`.
      The outer handler answers every failure, an unknown brick included, as a
      validation error (400). Adding a present status or removing an absent one
      answers 200 and changes nothing; a real change updates the set and appends
      exactly one row. The reply is the brick's new status set. */
  function ModifyStatus(db: Db, pk: int, statusId: Option<string>, actionType: Option<string>, now: int)
    : (r: Result<(Db, set<int>), ModifyError>)
    ensures r == Err(NoSuchBrick) <==> pk !in db.bricks
    ensures r == Err(MissingStatusId) <==> pk in db.bricks && (statusId.None? || statusId.value == "")
    ensures r == Err(UnreadableStatusId) ==> ParseInt(statusId.value).None?
    ensures r == Err(UnknownStatus) ==> ParseInt(statusId.value).Some? && ParseInt(statusId.value).value !in db.catalog
    ensures r.Ok? <==>
              pk in db.bricks && statusId.Some? && ParseInt(statusId.value).Some?
              && ParseInt(statusId.value).value in db.catalog
              && actionType.Some? && ParseAction(actionType.value).Some?
    ensures r.Ok? ==>
              var s, a := ParseInt(statusId.value).value, ParseAction(actionType.value).value;
              var old_, new_ := db.bricks[pk], r.value.1;
              && r.value.0.catalog == db.catalog
              && r.value.0.bricks == db.bricks[pk := new_]
              && (a == AddAction ==> new_ == old_ + {s})
              && (a == RemoveAction ==> new_ == old_ - {s})
              && (new_ != old_ ==> r.value.0.log == db.log + [Entry(pk, s, a, now)])
              && (new_ == old_ ==> r.value.0.log == db.log)
  {
    if pk !in db.bricks then Err(NoSuchBrick)
    else if statusId.None? || statusId.value == "" then Err(MissingStatusId)
    else if actionType.None? || actionType.value == "" then Err(MissingActionType)
    else if ParseInt(statusId.value).None? then Err(UnreadableStatusId)
    else if ParseInt(statusId.value).value !in db.catalog then Err(UnknownStatus)
    else
      var s := ParseInt(statusId.value).value;
      var current := db.bricks[pk];
      match ParseAction(actionType.value)
      case None => Err(InvalidAction)
      case Some(a) =>
        var changed := if a == AddAction then s !in current else s in current;
        if changed then
          var e := Entry(pk, s, a, now);
          var next := Apply(current, e);
          Ok((Db(db.catalog, db.bricks[pk := next], db.log + [e]), next))
        else
          Ok((db, current))
  }

  /** Appending a row for a real change to brick `pk` keeps every brick equal to
      the replay of its history. */
  lemma AppendKeepsReplay(db: Db, e: Entry)
    requires e.brick in db.bricks
    requires forall b :: b in db.bricks ==> Replay(HistoryOf(db.log, b)) == db.bricks[b]
    ensures var bricks := db.bricks[e.brick := Apply(db.bricks[e.brick], e)];
            forall b :: b in bricks ==> Replay(HistoryOf(db.log + [e], b)) == bricks[b]
  {
    var bricks := db.bricks[e.brick := Apply(db.bricks[e.brick], e)];
    forall b | b in bricks ensures Replay(HistoryOf(db.log + [e], b)) == bricks[b] {
      HistoryOfAppend(db.log, e, b);
      if b == e.brick {
        var h := HistoryOf(db.log, b) + [e];
        assert h[..|h| - 1] == HistoryOf(db.log, b);
      }
    }
  }

  lemma AppendKeepsChronological(log: seq<Entry>, e: Entry)
    requires Chronological(log) && NotAfter(log, e.time)
    ensures Chronological(log + [e])
  {
    var l := log + [e];
    forall i, j | 0 <= i < j < |l| ensures l[i].time <= l[j].time {
      if j == |log| {
        assert l[i] in log;
      }
    }
  }

  /** `modify_status` keeps the invariant, provided the clock has not gone back. */
  lemma ModifyKeepsWellFormed(db: Db, pk: int, statusId: Option<string>, actionType: Option<string>, now: int)
    requires WellFormed(db) && NotAfter(db.log, now)
    requires ModifyStatus(db, pk, statusId, actionType, now).Ok?
    ensures WellFormed(ModifyStatus(db, pk, statusId, actionType, now).value.0)
    ensures NotAfter(ModifyStatus(db, pk, statusId, actionType, now).value.0.log, now)
  {
    var db2 := ModifyStatus(db, pk, statusId, actionType, now).value.0;
    if db2.log != db.log {
      var e := Entry(pk, ParseInt(statusId.value).value, ParseAction(actionType.value).value, now);
      assert db2.log == db.log + [e];
      assert db2.bricks == db.bricks[pk := Apply(db.bricks[pk], e)];
      AppendKeepsReplay(db, e);
      AppendKeepsChronological(db.log, e);
      assert forall x :: x in db2.log <==> x in db.log || x == e;
    }
  }

  /** A second identical request changes nothing and logs nothing. */
  lemma ModifyIdempotent(db: Db, pk: int, statusId: Option<string>, actionType: Option<string>, now: int, later: int)
    requires ModifyStatus(db, pk, statusId, actionType, now).Ok?
    ensures var db1 := ModifyStatus(db, pk, statusId, actionType, now).value.0;
            ModifyStatus(db1, pk, statusId, actionType, later) == Ok((db1, db1.bricks[pk]))
  {
  }

  /** Adding a status the brick lacks and then removing it restores the brick's
      statuses, leaving two rows behind: the add, then the remove. */
  lemma AddThenRemove(db: Db, pk: int, s: int, t1: int, t2: int)
    requires pk in db.bricks && s in db.catalog && s !in db.bricks[pk]
    ensures var r1 := ModifyStatus(db, pk, Some(SignedDecimal(s)), Some("add"), t1);
            r1.Ok? &&
            var r2 := ModifyStatus(r1.value.0, pk, Some(SignedDecimal(s)), Some("remove"), t2);
            r2.Ok? && r2.value.0.bricks == db.bricks
            && r2.value.0.log == db.log + [Entry(pk, s, AddAction, t1), Entry(pk, s, RemoveAction, t2)]
  {
    ParseSignedDecimal(s);
    var r1 := ModifyStatus(db, pk, Some(SignedDecimal(s)), Some("add"), t1);
    assert r1.value.0.bricks[pk] == db.bricks[pk] + {s};
    var r2 := ModifyStatus(r1.value.0, pk, Some(SignedDecimal(s)), Some("remove"), t2);
    assert r2.value.0.bricks[pk] == db.bricks[pk];
    assert r2.value.0.bricks == db.bricks;
  }

  /** `history`: the brick's rows in time order, or an error for an unknown brick. */
  function BrickHistory(db: Db, pk: int): (r: Result<seq<Entry>, ModifyError>)
    ensures r.Err? <==> pk !in db.bricks
    ensures r.Ok? ==> (forall e :: e in r.value <==> e in db.log && e.brick == pk)
    ensures r.Ok? && Chronological(db.log) ==> Chronological(r.value)
  {
    if pk !in db.bricks then Err(NoSuchBrick) else Ok(HistoryOf(db.log, pk))
  }

  /** A nested status the serializer accepts: a name of 1 to 50 characters. */
  predicate StatusNameValid(name: string)
  {
    0 < |name| <= 50
  }

  /** `create` for a brick. The request must carry the id, in 1..226 and new,
      and the required `statuses` list, each entry with a valid name; otherwise
      it is a 400 (None). The listed statuses are then dropped: the brick starts
      healthy. */
  function CreateBrick(db: Db, id: int, statuses: Option<seq<string>>): (r: Option<Db>)
    ensures r.Some? <==>
              1 <= id <= NumBricks && id !in db.bricks
              && statuses.Some? && forall i :: 0 <= i < |statuses.value| ==> StatusNameValid(statuses.value[i])
    ensures r.Some? ==> r.value == db.(bricks := db.bricks[id := {}])
  {
    if 1 <= id <= NumBricks && id !in db.bricks && statuses.Some?
       && forall i :: 0 <= i < |statuses.value| ==> StatusNameValid(statuses.value[i])
    then Some(db.(bricks := db.bricks[id := {}]))
    else None
  }

  /** The wall's request, an id with an empty `statuses` list, creates a new
      brick; the same request without the list is refused. */
  lemma CreateNeedsStatuses(db: Db, id: int)
    requires 1 <= id <= NumBricks && id !in db.bricks
    ensures CreateBrick(db, id, Some([])) == Some(db.(bricks := db.bricks[id := {}]))
    ensures CreateBrick(db, id, None) == None
  {
  }

  /** A multipart status id `0` is present, so it fails as an unknown status, not
      as a missing one. */
  lemma ZeroStatusIdUnknown(db: Db, pk: int, now: int)
    requires pk in db.bricks && 0 !in db.catalog
    ensures ModifyStatus(db, pk, Some("0"), Some("add"), now) == Err(UnknownStatus)
  {
    assert AllDigits("0");
    assert DigitsValue("0") == 0 by {
      assert "0"[..0] == [];
    }
  }

  lemma CreateKeepsWellFormed(db: Db, id: int, statuses: Option<seq<string>>)
    requires WellFormed(db) && CreateBrick(db, id, statuses).Some?
    ensures WellFormed(CreateBrick(db, id, statuses).value)
  {
    NoRowsNoHistory(db.log, id);
  }

  /** The rows that do not mention status `s`. */
  function DropStatusRows(log: seq<Entry>, s: int): (r: seq<Entry>)
    ensures forall e :: e in r <==> e in log && e.status != s
    ensures Chronological(log) ==> Chronological(r)
  {
    if log == [] then []
    else
      var init := DropStatusRows(log[..|log| - 1], s);
      var last := log[|log| - 1];
      assert forall e :: e in log <==> e in log[..|log| - 1] || e == last by {
        assert log == log[..|log| - 1] + [last];
      }
      if last.status != s then
        assert Chronological(log) ==> forall e :: e in init ==> e.time <= last.time by {
          if Chronological(log) {
            forall e | e in init ensures e.time <= last.time {
              var i :| 0 <= i < |log| - 1 && log[i] == e;
            }
          }
        }
        init + [last]
      else init
  }

  /** Deleting status `s`: it leaves the catalog and every brick, and its rows go
      with it (the foreign keys cascade). */
  function DeleteStatus(db: Db, s: int): (r: Db)
    ensures r.catalog == db.catalog - {s}
    ensures r.bricks.Keys == db.bricks.Keys
    ensures forall b :: b in r.bricks ==> r.bricks[b] == db.bricks[b] - {s}
    ensures forall e :: e in r.log <==> e in db.log && e.status != s
  {
    Db(db.catalog - {s}, map b | b in db.bricks :: db.bricks[b] - {s}, DropStatusRows(db.log, s))
  }

  lemma {:induction false} HistoryOfDrop(log: seq<Entry>, s: int, b: int)
    ensures HistoryOf(DropStatusRows(log, s), b) == DropStatusRows(HistoryOf(log, b), s)
  {
    if log != [] {
      var init := log[..|log| - 1];
      var last := log[|log| - 1];
      HistoryOfDrop(init, s, b);
      if last.status != s {
        HistoryOfAppend(DropStatusRows(init, s), last, b);
      }
      if last.brick == b {
        var h := HistoryOf(init, b) + [last];
        assert h[..|h| - 1] == HistoryOf(init, b);
      }
    }
  }

  /** Replaying a history without the rows of `s` gives the same set without `s`. */
  lemma {:induction false} ReplayDrop(h: seq<Entry>, s: int)
    ensures Replay(DropStatusRows(h, s)) == Replay(h) - {s}
  {
    if h != [] {
      var init := h[..|h| - 1];
      var last := h[|h| - 1];
      ReplayDrop(init, s);
      assert Replay(h) == Apply(Replay(init), last);
      if last.status != s {
        var d := DropStatusRows(init, s) + [last];
        assert DropStatusRows(h, s) == d;
        assert d[..|d| - 1] == DropStatusRows(init, s);
        assert Replay(d) == Apply(Replay(init) - {s}, last);
      } else {
        assert DropStatusRows(h, s) == DropStatusRows(init, s);
      }
    }
  }

  lemma DeleteKeepsWellFormed(db: Db, s: int)
    requires WellFormed(db)
    ensures WellFormed(DeleteStatus(db, s))
  {
    var db2 := DeleteStatus(db, s);
    forall b | b in db2.bricks ensures Replay(HistoryOf(db2.log, b)) == db2.bricks[b] {
      HistoryOfDrop(db.log, s, b);
      ReplayDrop(HistoryOf(db.log, b), s);
    }
  }
}
