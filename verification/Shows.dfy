/** The show workflow as the browser sees it: who may open and edit a show, the
    review cycle (in design, pending approval, approved), the create-show form's
    checks, the search and status filter, and the show details editor. */
module Shows {
  import opened Wrappers
  import opened IsoDates
  import SeqFacts

  /** The five show states; a new show starts `Unassigned`. */
  datatype ShowStatus = Unassigned | InDesign | PendingApproval | Approved | Archived

  /** A show submitted for review or approved: the artist's work is frozen. */
  predicate UnderReview(s: ShowStatus)
  {
    s == Approved || s == PendingApproval
  }

  /** The role stored at sign-in: `admin`, `artist`, or anything else (including
      nothing stored). */
  datatype Role = Admin | Artist | Visitor

  /** A show as listed: `artist` is the assigned artist's user id, null when none. */
  datatype Show = Show(id: int, title: string, status: ShowStatus, artist: Option<string>)

  /** The id a page compares against the assigned artist: the stored user id for an
      artist, null for everybody else. */
  function CurrentUserId(role: Role, storedId: Option<string>): (r: Option<string>)
    ensures role == Artist ==> r == storedId
    ensures role != Artist ==> r.None?
  {
    if role == Artist then storedId else None
  }

  /** `userAccess`, the same on the video page and the show details page. An admin
      always gets in; otherwise the show must have an artist, and it must be this
      artist. */
  function UserAccess(role: Role, storedId: Option<string>, artist: Option<string>): (r: bool)
    ensures r <==> role == Admin || (role == Artist && artist.Some? && storedId == artist)
  {
    if role == Admin then true
    else if artist.None? then false
    else CurrentUserId(role, storedId) == artist
  }

  /** Two different non-admin users never both have access to one show. */
  lemma OneArtistPerShow(role1: Role, id1: Option<string>, role2: Role, id2: Option<string>,
                         artist: Option<string>)
    requires role1 != Admin && role2 != Admin && id1 != id2
    ensures !(UserAccess(role1, id1, artist) && UserAccess(role2, id2, artist))
  {
  }

  /** The video page's `editLocked`: admins are never locked; anyone else is locked
      while the show is under review, and otherwise unless they have access. */
  function VideoEditLocked(role: Role, storedId: Option<string>, artist: Option<string>,
                           status: ShowStatus): (r: bool)
    ensures role == Admin ==> !r
    ensures role != Admin ==> (r <==> UnderReview(status) || !UserAccess(role, storedId, artist))
  {
    if role == Admin then false
    else if UnderReview(status) then true
    else !UserAccess(role, storedId, artist)
  }

  /** Editing control on the video page belongs to admins and to the artist
      artist of a show not under review, and to no one else. */
  lemma EditingControlHolders(role: Role, storedId: Option<string>, artist: Option<string>,
                              status: ShowStatus)
    ensures !VideoEditLocked(role, storedId, artist, status) <==>
              role == Admin
              || (role == Artist && artist.Some? && storedId == artist && !UnderReview(status))
  {
  }

  /** What clicking a show card does: artists are turned away from shows under
      review, everybody else opens the show's video page. */
  datatype Navigation = OpenVideoPage(id: int) | RefuseApproved | RefusePending

  function ShowClick(role: Role, show: Show): (r: Navigation)
    ensures r.OpenVideoPage? <==> !(role == Artist && UnderReview(show.status))
    ensures r.OpenVideoPage? ==> r.id == show.id
    ensures r == RefuseApproved <==> role == Artist && show.status == Approved
  {
    if role == Artist && show.status == Approved then RefuseApproved
    else if role == Artist && show.status == PendingApproval then RefusePending
    else OpenVideoPage(show.id)
  }

  /** The list and the video page agree for artists: the assigned artist who may
      open a show from the list gets editing control there, and a show the list
      refuses would be locked anyway. */
  lemma ListAgreesWithVideoPage(storedId: Option<string>, show: Show)
    ensures ShowClick(Artist, show).OpenVideoPage? && UserAccess(Artist, storedId, show.artist)
            ==> !VideoEditLocked(Artist, storedId, show.artist, show.status)
    ensures !ShowClick(Artist, show).OpenVideoPage?
            ==> VideoEditLocked(Artist, storedId, show.artist, show.status)
  {
  }

  /** The per-show buttons. The action block shows for admins, and for artists on
      any show not approved. */
  predicate ActionsShown(role: Role, status: ShowStatus)
  {
    role == Admin || (role == Artist && status != Approved)
  }

  /** "Complete Design": an artist on a show in design. */
  predicate CompleteOffered(role: Role, status: ShowStatus)
  {
    role == Artist && status == InDesign
  }

  /** "Approve" and "Deny": an admin on a show pending approval. */
  predicate ReviewOffered(role: Role, status: ShowStatus)
  {
    role == Admin && status == PendingApproval
  }

  /** "Delete": admins only. */
  predicate DeleteOffered(role: Role)
  {
    role == Admin
  }

  /** The review buttons sit inside the action block, and no role is offered both
      submitting and reviewing the same show. */
  lemma ButtonsNest(role: Role, status: ShowStatus)
    ensures CompleteOffered(role, status) ==> ActionsShown(role, status)
    ensures ReviewOffered(role, status) ==> ActionsShown(role, status) && DeleteOffered(role)
    ensures !(CompleteOffered(role, status) && ReviewOffered(role, status))
  {
  }

  /** The list after a status PATCH for show `id`: only a 200 reply changes it, and
      then only the status of the shows with that id. */
  function WithStatus(shows: seq<Show>, id: int, status: ShowStatus, http: int): (r: seq<Show>)
    ensures |r| == |shows|
    ensures forall i :: 0 <= i < |r| ==>
              r[i] == (if http == 200 && shows[i].id == id then shows[i].(status := status) else shows[i])
  {
    if http != 200 then shows
    else seq(|shows|, i requires 0 <= i < |shows| =>
               if shows[i].id == id then shows[i].(status := status) else shows[i])
  }

  /** `r` is the list after the server answered a status PATCH for show `id`
      with `http`. On a 200 every show with that id takes `status`, no show
      changes any other field, and the list keeps its length and order. Any other
      reply, or a failed request, leaves the list as it was. */
  predicate StatusPatched(shows: seq<Show>, r: seq<Show>, id: int, status: ShowStatus, http: int)
  {
    && |r| == |shows|
    && (http != 200 ==> r == shows)
    && (http == 200 ==> forall i :: 0 <= i < |r| ==>
          && r[i].status == (if shows[i].id == id then status else shows[i].status)
          && r[i] == shows[i].(status := r[i].status))
  }

  /** `handleCompleteDesign`: the artist submits the design for review. */
  function CompleteDesign(shows: seq<Show>, id: int, http: int): (r: seq<Show>)
    ensures StatusPatched(shows, r, id, PendingApproval, http)
  {
    WithStatus(shows, id, PendingApproval, http)
  }

  /** `handleApproveShow`: an admin approves the show. */
  function ApproveShow(shows: seq<Show>, id: int, http: int): (r: seq<Show>)
    ensures StatusPatched(shows, r, id, Approved, http)
  {
    WithStatus(shows, id, Approved, http)
  }

  /** `handleDenyShow`: an admin sends the show back to design. */
  function DenyShow(shows: seq<Show>, id: int, http: int): (r: seq<Show>)
    ensures StatusPatched(shows, r, id, InDesign, http)
  {
    WithStatus(shows, id, InDesign, http)
  }

  /** Denying a submitted design undoes the submission: when every show with that
      id was in design, the list returns to what it was. */
  lemma DenyUndoesComplete(shows: seq<Show>, id: int)
    requires forall i :: 0 <= i < |shows| && shows[i].id == id ==> shows[i].status == InDesign
    ensures DenyShow(CompleteDesign(shows, id, 200), id, 200) == shows
  {
    var r := DenyShow(CompleteDesign(shows, id, 200), id, 200);
    assert forall i :: 0 <= i < |shows| ==> r[i] == shows[i];
  }

  /** One review cycle for the assigned artist of a show in design: submitting is
      offered and the artist can edit; once submitted, the list refuses the artist,
      the video page locks, and the admin is offered the review; a denial restores
      the artist's editing. */
  lemma ReviewCycle(shows: seq<Show>, i: int, storedId: Option<string>)
    requires 0 <= i < |shows|
    requires shows[i].status == InDesign && shows[i].artist == storedId && storedId.Some?
    ensures CompleteOffered(Artist, shows[i].status)
    ensures !VideoEditLocked(Artist, storedId, shows[i].artist, shows[i].status)
    ensures var after := CompleteDesign(shows, shows[i].id, 200);
            after[i].status == PendingApproval
            && !ShowClick(Artist, after[i]).OpenVideoPage?
            && VideoEditLocked(Artist, storedId, after[i].artist, after[i].status)
            && ReviewOffered(Admin, after[i].status)
    ensures var back := DenyShow(CompleteDesign(shows, shows[i].id, 200), shows[i].id, 200);
            back[i].status == InDesign
            && !VideoEditLocked(Artist, storedId, back[i].artist, back[i].status)
  {
  }

  /** `handleDeleteShow`: after the confirmation and a successful DELETE, every
      show with that id leaves the list and the rest keep their order. */
  function DeleteShow(shows: seq<Show>, id: int, confirmed: bool, ok: bool): (r: seq<Show>)
    ensures !(confirmed && ok) ==> r == shows
    ensures confirmed && ok ==> forall s :: s in r <==> s in shows && s.id != id
    ensures SeqFacts.Subsequence(r, shows)
  {
    if !(confirmed && ok) then (SeqFacts.SubsequenceRefl(shows); shows) else DropShow(shows, id)
  }

  function DropShow(shows: seq<Show>, id: int): (r: seq<Show>)
    ensures forall s :: s in r <==> s in shows && s.id != id
    ensures SeqFacts.Subsequence(r, shows)
  {
    if shows == [] then []
    else
      var rest := DropShow(shows[1..], id);
      assert forall s :: s in shows <==> s == shows[0] || s in shows[1..];
      if shows[0].id == id then rest
      else
        assert ([shows[0]] + rest)[1..] == rest;
        [shows[0]] + rest
  }

  /** The characters JavaScript's `trim` removes: the WhiteSpace and LineTerminator
      code points of sections 12.2 and 12.3 of ECMA-262, every space separator
      (category Zs) included. */
  predicate IsSpace(c: char)
  {
    c == ' ' || c == '\t' || c == '\n' || c == '\r' || c == '\U{000B}' || c == '\U{000C}'
    || c == '\U{00A0}' || c == '\U{1680}' || '\U{2000}' <= c <= '\U{200A}' || c == '\U{2028}'
    || c == '\U{2029}' || c == '\U{202F}' || c == '\U{205F}' || c == '\U{3000}' || c == '\U{FEFF}'
  }

  /** `s.trim() === ''`. */
  predicate Blank(s: string)
  {
    forall i :: 0 <= i < |s| ==> IsSpace(s[i])
  }

  /** `toLowerCase` on ASCII letters. */
  function Lower(s: string): (r: string)
    ensures |r| == |s|
    ensures forall i :: 0 <= i < |s| ==>
              r[i] == (if 'A' <= s[i] <= 'Z' then (s[i] as int + 32) as char else s[i])
  {
    seq(|s|, i requires 0 <= i < |s| => if 'A' <= s[i] <= 'Z' then (s[i] as int + 32) as char else s[i])
  }

  /** `t` occurs in `s` starting at position `i`. */
  predicate OccursAt(s: string, t: string, i: int)
  {
    0 <= i <= |s| - |t| && s[i..i + |t|] == t
  }

  /** `s.includes(t)`. */
  predicate Contains(s: string, t: string)
  {
    exists i :: 0 <= i <= |s| && OccursAt(s, t, i)
  }

  /** The status menu: every status, or one. */
  datatype StatusFilter = All | Only(status: ShowStatus)

  /** A show passes the search when the term is blank or its title contains the
      term, ignoring case, and passes the menu when the menu is `All` or names its
      status. */
  predicate Matches(show: Show, term: string, filter: StatusFilter)
  {
    (Blank(term) || Contains(Lower(show.title), Lower(term)))
    && (filter.All? || show.status == filter.status)
  }

  /** `handleFindShows`: the shows passing both filters, in list order. It reads
      the search term from page state; the page re-runs it after every change to
      the list, the term or the menu. */
  function FindShows(shows: seq<Show>, term: string, filter: StatusFilter): (r: seq<Show>)
    ensures forall s :: s in r <==> s in shows && Matches(s, term, filter)
    ensures SeqFacts.Subsequence(r, shows)
  {
    if shows == [] then []
    else
      var rest := FindShows(shows[1..], term, filter);
      assert forall s :: s in shows <==> s == shows[0] || s in shows[1..];
      if Matches(shows[0], term, filter) then
        assert ([shows[0]] + rest)[1..] == rest;
        [shows[0]] + rest
      else rest
  }

  /** A blank term with the `All` menu shows the whole list. */
  lemma {:induction false} FindEverything(shows: seq<Show>, term: string)
    requires Blank(term)
    ensures FindShows(shows, term, All) == shows
  {
    if shows != [] {
      FindEverything(shows[1..], term);
      assert shows == [shows[0]] + shows[1..];
    }
  }

  /** Searching the search result again changes nothing. */
  lemma {:induction false} FindIdempotent(shows: seq<Show>, term: string, filter: StatusFilter)
    ensures FindShows(FindShows(shows, term, filter), term, filter) == FindShows(shows, term, filter)
  {
    if shows != [] {
      FindIdempotent(shows[1..], term, filter);
      var rest := FindShows(shows[1..], term, filter);
      if Matches(shows[0], term, filter) {
        assert ([shows[0]] + rest)[1..] == rest;
      }
    }
  }

  /** Once a design is submitted, the show drops out of the "in design" view. */
  lemma SubmittedLeavesDesignView(shows: seq<Show>, id: int, term: string)
    ensures forall s :: s in FindShows(CompleteDesign(shows, id, 200), term, Only(InDesign)) ==> s.id != id
  {
    var after := CompleteDesign(shows, id, 200);
    forall s | s in FindShows(after, term, Only(InDesign)) ensures s.id != id {
      var i :| 0 <= i < |after| && after[i] == s;
    }
  }

  /** The create-show form. `frameCount` is the numeric value of the number input
      (0 when it is empty); dates are the `YYYY-MM-DD` strings the date inputs
      report, empty when unset. */
  datatype ShowForm = ShowForm(name: string, start: string, end: string, frameCount: real,
                               hasImage: bool)

  /** The outcome of `handleCreateShow`'s checks, in the order they run. */
  datatype CreateCheck = Incomplete | NotAfterToday | EndBeforeStart | BadFrameCount | Submit

  /** `frameCount < 1 || frameCount % 1 !== 0` fails the check. */
  predicate WholeAtLeastOne(x: real)
  {
    !(x < 1.0) && x - (x.Floor as real) == 0.0
  }

  function CheckCreate(f: ShowForm, today: string): (r: CreateCheck)
    ensures r == Incomplete <==> Blank(f.name) || f.start == "" || f.end == "" || !f.hasImage
    ensures r == Submit <==>
              !Blank(f.name) && f.start != "" && f.end != "" && f.hasImage
              && LexLess(today, f.start) && LexLess(today, f.end) && !LexLess(f.end, f.start)
              && WholeAtLeastOne(f.frameCount)
    ensures r == BadFrameCount ==> !WholeAtLeastOne(f.frameCount)
  {
    if Blank(f.name) || f.start == "" || f.end == "" || !f.hasImage then Incomplete
    // `start <= today` is `!(today < start)` on strings.
    else if !LexLess(today, f.start) || !LexLess(today, f.end) then NotAfterToday
    else if LexLess(f.end, f.start) then EndBeforeStart
    else if !WholeAtLeastOne(f.frameCount) then BadFrameCount
    else Submit
  }

  /** A name or search term made only of ideographic spaces is blank to `trim`:
      the form is incomplete and the search lists every show. */
  lemma IdeographicSpaceBlank(f: ShowForm, today: string, shows: seq<Show>)
    requires f.name == "\U{3000}"
    ensures CheckCreate(f, today) == Incomplete
    ensures FindShows(shows, "\U{3000}\U{3000}", All) == shows
  {
    FindEverything(shows, "\U{3000}\U{3000}");
  }

  /** On well-formed dates the form accepts exactly the shows that start after
      today and do not end before they start; the frame count is then a positive
      whole number. */
  lemma CreateAcceptsChronology(f: ShowForm, today: Date, start: Date, end: Date)
    requires ValidDate(today) && ValidDate(start) && ValidDate(end)
    requires f.start == Iso(start) && f.end == Iso(end)
    requires !Blank(f.name) && f.hasImage
    ensures CheckCreate(f, Iso(today)) == Submit <==>
              Before(today, start) && !Before(end, start) && WholeAtLeastOne(f.frameCount)
    ensures CheckCreate(f, Iso(today)) == Submit ==> f.frameCount.Floor >= 1
  {
    IsoChronological(today, start);
    IsoChronological(today, end);
    IsoChronological(end, start);
    if LexLess(Iso(today), f.start) && !LexLess(f.end, f.start) {
      AfterTodayCarries(Iso(today), f.start, f.end);
    }
  }

  /** The page after `handleCreateShow`: on a passing form and a created show, the
      new show is appended and the form cleared; otherwise nothing but the message
      changes. */
  function CreateShow(shows: seq<Show>, f: ShowForm, today: string, created: Option<Show>)
    : (r: (seq<Show>, ShowForm))
    ensures CheckCreate(f, today) == Submit && created.Some? ==>
              r.0 == shows + [created.value] && r.1 == ShowForm("", "", "", 0.0, false)
    ensures CheckCreate(f, today) != Submit || created.None? ==> r == (shows, f)
  {
    if CheckCreate(f, today) == Submit && created.Some? then
      (shows + [created.value], ShowForm("", "", "", 0.0, false))
    else (shows, f)
  }

  /** A cleared form never passes: the next show needs a fresh name, dates and
      image. */
  lemma ClearedFormRejected(shows: seq<Show>, f: ShowForm, today: string, created: Show)
    requires CheckCreate(f, today) == Submit
    ensures CheckCreate(CreateShow(shows, f, today, Some(created)).1, today) == Incomplete
  {
  }

  /** A value on the show details page: the frame count arrives from the server as
      a number and becomes a string once typed into. */
  datatype JsValue = Num(n: int) | Text(s: string)

  predicate AllDigits(s: string)
  {
    forall i :: 0 <= i < |s| ==> '0' <= s[i] <= '9'
  }

  /** The frame-count input keeps a typed value only if it matches `^\d*$`. */
  function TypeFrameCount(current: JsValue, typed: string): (r: JsValue)
    ensures AllDigits(typed) ==> r == Text(typed)
    ensures !AllDigits(typed) ==> r == current
    ensures r.Text? ==> AllDigits(r.s) || r == current
  {
    if AllDigits(typed) then Text(typed) else current
  }

  /** Whatever is typed, the field only ever holds its server value or digits. */
  lemma FieldHoldsDigits(server: int, typings: seq<string>)
    ensures var v := TypeAll(Num(server), typings);
            v == Num(server) || (v.Text? && AllDigits(v.s))
  {
    TypeAllKeeps(Num(server), typings);
  }

  /** The field after a series of keystroke edits. */
  function TypeAll(v: JsValue, typings: seq<string>): JsValue
    decreases |typings|
  {
    if typings == [] then v else TypeAll(TypeFrameCount(v, typings[0]), typings[1..])
  }

  lemma {:induction false} TypeAllKeeps(v: JsValue, typings: seq<string>)
    ensures var w := TypeAll(v, typings);
            w == v || (w.Text? && AllDigits(w.s))
    decreases |typings|
  {
    if typings != [] {
      var v1 := TypeFrameCount(v, typings[0]);
      TypeAllKeeps(v1, typings[1..]);
    }
  }

  /** The show details editor: the edited values, the values shown, the frame count
      last saved, and whether the editor is open. */
  datatype Details = Details(description: string, frameCount: JsValue,
                             shownDescription: string, shownFrameCount: JsValue,
                             previous: JsValue, editing: bool)

  /** A changed frame count asks for confirmation, since the server then deletes
      every video. The comparison is strict, so a typed string never equals the
      number the server sent. */
  predicate NeedsConfirm(d: Details)
  {
    d.frameCount != d.previous
  }

  /** `handleEditDescription`: declining the prompt sends nothing; a 200 reply shows
      the edited values, records the frame count as saved and closes the editor;
      any other reply changes nothing. `reply` is absent when the request throws. */
  function SaveDetails(d: Details, confirmed: bool, reply: Option<int>): (r: (Details, bool))
    ensures r.1 <==> !NeedsConfirm(d) || confirmed
    ensures r.1 && reply == Some(200) ==>
              r.0.shownDescription == d.description && r.0.shownFrameCount == d.frameCount
              && r.0.previous == d.frameCount && !r.0.editing
              && r.0.description == d.description && r.0.frameCount == d.frameCount
    ensures !(r.1 && reply == Some(200)) ==> r.0 == d
  {
    if NeedsConfirm(d) && !confirmed then (d, false)
    else if reply == Some(200) then
      (d.(shownDescription := d.description, shownFrameCount := d.frameCount,
          previous := d.frameCount, editing := false), true)
    else (d, true)
  }

  /** After a successful save, saving again asks nothing and changes nothing. */
  lemma SaveSettles(d: Details, confirmed: bool)
    requires SaveDetails(d, confirmed, Some(200)).1
    ensures var d1 := SaveDetails(d, confirmed, Some(200)).0;
            !NeedsConfirm(d1) && SaveDetails(d1, false, Some(200)).0 == d1
  {
  }

  /** Retyping the number the server sent still asks for confirmation: the typed
      string differs from the number under `!==`. */
  lemma RetypedValuePrompts(d: Details)
    requires d.previous == Num(120) && d.frameCount == TypeFrameCount(d.previous, "120")
    ensures NeedsConfirm(d)
  {
  }

  /** The show details page's `editLocked`: true while the show is under review,
      otherwise undefined, which reads as false. */
  function DetailsEditLocked(status: ShowStatus): (r: bool)
    ensures r <==> UnderReview(status)
  {
    if status == Approved || status == PendingApproval then true else false
  }

  /** The frame-count input appears only while editing an unlocked show. */
  predicate FrameInputShown(editing: bool, status: ShowStatus)
  {
    editing && !DetailsEditLocked(status)
  }

  /** For everyone but admins the details page locks the frame count no later than
      the video page locks the wall; admins keep the wall but not the frame count
      of a show under review. */
  lemma LocksAgree(role: Role, storedId: Option<string>, artist: Option<string>, status: ShowStatus)
    ensures role != Admin && DetailsEditLocked(status) ==> VideoEditLocked(role, storedId, artist, status)
    ensures role == Admin ==> !VideoEditLocked(role, storedId, artist, status)
                              && (FrameInputShown(true, status) <==> !UnderReview(status))
  {
  }
}
