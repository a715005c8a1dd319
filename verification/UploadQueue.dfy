/** The upload dialog's bookkeeping: the chosen files, the six per-file records
    kept by file name, adding and removing files, marking files cropped, the Upload
    button's gate, the first-in first-out dispatcher that keeps at most a
    configured number of uploads running, and how each upload's end is recorded. */
module UploadQueue {
  import opened Wrappers
  import opened UploadChecks
  import SeqFacts
  import Entities

  /** The recorded outcome of one upload. */
  datatype UploadStatus = Succeeded | Failed

  /** The per-file records, each keyed by file name: progress, status, error
      message, cropped flag, crop coordinates and estimated time left. */
  datatype Records = Records(progress: map<string, int>, status: map<string, UploadStatus>,
                             errors: map<string, string>, cropped: map<string, bool>,
                             coords: map<string, Coords>, eta: map<string, int>)

  const NoRecords: Records := Records(map[], map[], map[], map[], map[], map[])

  /** `name` has an entry in none of the six records. */
  predicate Forgotten(r: Records, name: string)
  {
    name !in r.progress && name !in r.status && name !in r.errors
    && name !in r.cropped && name !in r.coords && name !in r.eta
  }

  /** The records of `r` and `s` agree on `name`. */
  predicate SameRecord(r: Records, s: Records, name: string)
  {
    (name in r.progress <==> name in s.progress) && (name in r.progress ==> r.progress[name] == s.progress[name])
    && (name in r.status <==> name in s.status) && (name in r.status ==> r.status[name] == s.status[name])
    && (name in r.errors <==> name in s.errors) && (name in r.errors ==> r.errors[name] == s.errors[name])
    && (name in r.cropped <==> name in s.cropped) && (name in r.cropped ==> r.cropped[name] == s.cropped[name])
    && (name in r.coords <==> name in s.coords) && (name in r.coords ==> r.coords[name] == s.coords[name])
    && (name in r.eta <==> name in s.eta) && (name in r.eta ==> r.eta[name] == s.eta[name])
  }

  /** `removeFileRecord`: the file's name leaves all six records and every other
      name keeps its entries. */
  function RemoveRecord(r: Records, name: string): (s: Records)
    ensures Forgotten(s, name)
    ensures forall other :: other != name ==> SameRecord(s, r, other)
  {
    Records(r.progress - {name}, r.status - {name}, r.errors - {name},
            r.cropped - {name}, r.coords - {name}, r.eta - {name})
  }

  /** The names of `files`, in order. */
  function Names(files: seq<Media>): (r: seq<string>)
    ensures |r| == |files| && forall i :: 0 <= i < |files| ==> r[i] == files[i].name
  {
    seq(|files|, i requires 0 <= i < |files| => files[i].name)
  }

  /** The files of `files` whose name is not in `names`, in order. */
  function Fresh(files: seq<Media>, names: seq<string>): (r: seq<Media>)
    ensures forall f :: f in r <==> f in files && f.name !in names
    ensures |r| <= |files|
    ensures (forall f :: f in files ==> f.name in names) ==> r == []
    ensures SeqFacts.Subsequence(r, files)
  {
    if files == [] then []
    else
      var rest := Fresh(files[1..], names);
      assert forall f :: f in files <==> f == files[0] || f in files[1..];
      if files[0].name in names then rest
      else
        assert ([files[0]] + rest)[1..] == rest;
        [files[0]] + rest
  }

  /** The filter keeps every copy of every file it keeps. */
  lemma {:induction false} FreshKeepsCopies(files: seq<Media>, names: seq<string>, f: Media)
    requires f.name !in names
    ensures multiset(Fresh(files, names))[f] == multiset(files)[f]
  {
    if files != [] {
      FreshKeepsCopies(files[1..], names, f);
      KeepStep(files[0], files[1..], Fresh(files[1..], names), Fresh(files, names), f, files[0].name !in names);
      assert files == [files[0]] + files[1..];
    }
  }

  /** One step of a filter: an item kept in front of a tail that has as many copies
      of `f` as the original tail, or a dropped item other than `f`. */
  lemma KeepStep<T>(x: T, tail: seq<T>, kept: seq<T>, out: seq<T>, f: T, keep: bool)
    requires multiset(kept)[f] == multiset(tail)[f]
    requires out == if keep then [x] + kept else kept
    requires !keep ==> x != f
    ensures multiset(out)[f] == multiset([x] + tail)[f]
  {
    ConsCount(x, tail, f);
    if keep {
      ConsCount(x, kept, f);
    }
  }

  /** Putting `x` in front adds one copy of `x` and none of anything else. */
  lemma ConsCount<T>(x: T, s: seq<T>, f: T)
    ensures multiset([x] + s)[f] == multiset(s)[f] + (if x == f then 1 else 0)
  {
  }

  /** Forget the records of every file in `files`. */
  function RemoveRecords(r: Records, files: seq<Media>): (s: Records)
    ensures forall f :: f in files ==> Forgotten(s, f.name)
    ensures forall name :: (forall f :: f in files ==> f.name != name) ==> SameRecord(s, r, name)
    decreases |files|
  {
    if files == [] then r
    else
      var r1 := RemoveRecord(r, files[0].name);
      var s := RemoveRecords(r1, files[1..]);
      assert forall f :: f in files <==> f == files[0] || f in files[1..];
      assert Forgotten(s, files[0].name) by {
        if forall g :: g in files[1..] ==> g.name != files[0].name {
          assert SameRecord(s, r1, files[0].name);
        }
      }
      assert forall name :: (forall f :: f in files ==> f.name != name) ==> SameRecord(s, r, name) by {
        forall name | forall f :: f in files ==> f.name != name
          ensures SameRecord(s, r, name)
        {
          assert files[0] in files;
          assert SameRecord(s, r1, name);
          assert SameRecord(r1, r, name);
        }
      }
      s
  }

  /** `handleFileChange` with the chosen `files`. Files whose name is already
      chosen are never appended again; the others are appended in order. When some
      were already chosen the user is asked, and agreeing only clears their
      records. */
  function FileChange(selected: seq<Media>, r: Records, files: seq<Media>, confirmAdd: bool): (out: (seq<Media>, Records))
    ensures out.0 == selected + Fresh(files, Names(selected))
    ensures forall f :: f in out.0 ==> f in selected || f in files
    ensures confirmAdd ==> forall f :: f in files && f.name in Names(selected) ==> Forgotten(out.1, f.name)
    ensures forall name :: (!confirmAdd || forall f :: f in files ==> f.name != name || f.name !in Names(selected))
              ==> SameRecord(out.1, r, name)
  {
    var existing := Names(selected);
    var duplicates := DuplicatesOf(files, existing);
    if |duplicates| > 0 then
      var newFiles := selected + Fresh(files, existing);
      if !confirmAdd then (newFiles, r)
      else (newFiles, RemoveRecords(r, duplicates))
    else
      assert Fresh(files, existing) == files by { FreshAll(files, existing); }
      (selected + files, r)
  }

  /** The files of `files` whose name is in `names`. */
  function DuplicatesOf(files: seq<Media>, names: seq<string>): (r: seq<Media>)
    ensures forall f :: f in r <==> f in files && f.name in names
  {
    if files == [] then []
    else
      var rest := DuplicatesOf(files[1..], names);
      assert forall f :: f in files <==> f == files[0] || f in files[1..];
      if files[0].name in names then [files[0]] + rest else rest
  }

  /** With no name clash, every file is fresh. */
  lemma {:induction false} FreshAll(files: seq<Media>, names: seq<string>)
    requires forall f :: f in files ==> f.name !in names
    ensures Fresh(files, names) == files
  {
    if files != [] {
      assert files[0] in files;
      assert forall f :: f in files[1..] ==> f in files;
      FreshAll(files[1..], names);
    }
  }

  /** Choosing the same files again adds nothing to the list. */
  lemma ChoosingAgainAddsNothing(selected: seq<Media>, r: Records, confirmAdd: bool)
    ensures FileChange(selected, r, selected, confirmAdd).0 == selected
  {
    var names := Names(selected);
    assert forall f :: f in selected ==> f.name in names by {
      forall f | f in selected ensures f.name in names {
        var i :| 0 <= i < |selected| && selected[i] == f;
        assert names[i] == f.name;
      }
    }
  }

  /** `handleRemoveFile`: the file leaves the list, with every other file named
      like it, and its records are forgotten. */
  function RemoveFile(selected: seq<Media>, r: Records, name: string): (out: (seq<Media>, Records))
    ensures forall f :: f in out.0 <==> f in selected && f.name != name
    ensures SeqFacts.Subsequence(out.0, selected)
    ensures Forgotten(out.1, name)
    ensures forall other :: other != name ==> SameRecord(out.1, r, other)
  {
    (Fresh(selected, [name]), RemoveRecord(r, name))
  }

  /** Removing a file keeps every copy of every file named otherwise, and removing
      it again changes nothing. */
  lemma RemoveFileKeepsCopies(selected: seq<Media>, r: Records, name: string, f: Media)
    requires f.name != name
    ensures multiset(RemoveFile(selected, r, name).0)[f] == multiset(selected)[f]
    ensures var once := RemoveFile(selected, r, name);
            RemoveFile(once.0, once.1, name).0 == once.0
  {
    FreshKeepsCopies(selected, [name], f);
    var once := RemoveFile(selected, r, name);
    FreshAll(once.0, [name]);
  }

  /** The file counts as cropped. */
  predicate Cropped(r: Records, name: string)
  {
    name in r.cropped && r.cropped[name]
  }

  /** `allFilesCropped`. */
  predicate AllCropped(selected: seq<Media>, r: Records)
  {
    forall f :: f in selected ==> Cropped(r, f.name)
  }

  /** The Upload button is shown only for a non-empty list and is enabled when
      every file is cropped and no upload is running. */
  predicate UploadEnabled(selected: seq<Media>, r: Records, uploading: bool)
  {
    |selected| > 0 && AllCropped(selected, r) && !uploading
  }

  /** The marking loop waits for good on `f`: it is not marked yet and its size
      probe never settles. */
  predicate Stalls(r: Records, c: Option<Constraints>, f: Media)
  {
    !Cropped(r, f.name) && NoNeedCropping(c, f) == NeverAnswered
  }

  /** One step of the marking loop: `f` is marked when its probe answers that it
      needs no cropping. */
  function MarkOne(r: Records, c: Option<Constraints>, f: Media): (s: Records)
    ensures s.progress == r.progress && s.status == r.status && s.errors == r.errors
            && s.coords == r.coords && s.eta == r.eta
    ensures forall name :: Cropped(r, name) ==> Cropped(s, name)
    ensures NoNeedCropping(c, f) == Answered(true) ==> Cropped(s, f.name)
    ensures forall name :: Cropped(s, name) ==> Cropped(r, name) || (name == f.name && NoNeedCropping(c, f) == Answered(true))
  {
    if !Cropped(r, f.name) && NoNeedCropping(c, f) == Answered(true)
    then r.(cropped := r.cropped[f.name := true]) else r
  }

  /** The effect that marks as cropped each unmarked file that needs no cropping.
      It awaits the probes one file at a time: a rejected probe is logged and the
      loop goes on, but at the first unmarked file whose probe never settles it
      waits for good and no later file is looked at. The effect runs again
      whenever a mark lands, so each file is judged against the marks made before
      it; this is the state once no run marks anything more. */
  function MarkExact(selected: seq<Media>, r: Records, c: Option<Constraints>): (s: Records)
    ensures s.progress == r.progress && s.status == r.status && s.errors == r.errors
            && s.coords == r.coords && s.eta == r.eta
    ensures forall name :: Cropped(r, name) ==> Cropped(s, name)
    ensures forall name :: Cropped(s, name) ==>
              Cropped(r, name) || exists f :: f in selected && f.name == name && NoNeedCropping(c, f) == Answered(true)
    ensures (forall f :: f in selected ==> !Stalls(r, c, f)) ==>
              forall f :: f in selected && NoNeedCropping(c, f) == Answered(true) ==> Cropped(s, f.name)
  {
    if selected == [] then r
    else
      var f := selected[0];
      assert forall g :: g in selected <==> g == f || g in selected[1..];
      if Stalls(r, c, f) then r
      else
        MarkExact(selected[1..], MarkOne(r, c, f), c)
  }

  /** Every file that needs no cropping and comes before any stalling file is
      marked. */
  lemma {:induction false} MarkReaches(selected: seq<Media>, r: Records, c: Option<Constraints>, i: int)
    requires 0 <= i < |selected| && NoNeedCropping(c, selected[i]) == Answered(true)
    requires forall j :: 0 <= j < i ==> !Stalls(r, c, selected[j])
    ensures Cropped(MarkExact(selected, r, c), selected[i].name)
  {
    var f := selected[0];
    var r1 := MarkOne(r, c, f);
    if i > 0 {
      assert !Stalls(r, c, f);
      forall j | 0 <= j < i - 1 ensures !Stalls(r1, c, selected[1..][j]) {
        assert !Stalls(r, c, selected[j + 1]);
      }
      MarkReaches(selected[1..], r1, c, i - 1);
    }
  }

  /** A stalling file stops the marking: only files before it can have been
      marked, unless the name was marked already. */
  lemma {:induction false} MarkStopsAtStall(selected: seq<Media>, r: Records, c: Option<Constraints>, i: int)
    requires 0 <= i < |selected| && Stalls(r, c, selected[i])
    requires forall j :: 0 <= j < i ==> selected[j].name != selected[i].name
    ensures forall name :: Cropped(MarkExact(selected, r, c), name) ==>
              Cropped(r, name)
              || exists j :: 0 <= j < i && selected[j].name == name && NoNeedCropping(c, selected[j]) == Answered(true)
  {
    var f := selected[0];
    if i > 0 && !Stalls(r, c, f) {
      var r1 := MarkOne(r, c, f);
      assert selected[1..][i - 1] == selected[i];
      MarkStopsAtStall(selected[1..], r1, c, i - 1);
      forall name | Cropped(MarkExact(selected, r, c), name)
        ensures Cropped(r, name)
                || exists j :: 0 <= j < i && selected[j].name == name && NoNeedCropping(c, selected[j]) == Answered(true)
      {
        if !Cropped(r1, name) {
          var j :| 0 <= j < i - 1 && selected[1..][j].name == name && NoNeedCropping(c, selected[1..][j]) == Answered(true);
          assert selected[j + 1] == selected[1..][j];
        } else if !Cropped(r, name) {
          assert name == f.name;
        }
      }
    }
  }

  /** A chosen text file stalls the marking: an image of exactly the minimum size
      chosen after it stays "Not cropped", while chosen before it, it is marked. */
  lemma TextFileStallsMarking()
    ensures var notes := Media("notes.txt", "text/plain", 0, 0, 0, 0, true);
      var exact := Media("exact.png", "image/png", 854, 480, 0, 0, true);
      !Cropped(MarkExact([notes, exact], NoRecords, Some(ServerConstraints)), "exact.png")
      && Cropped(MarkExact([exact, notes], NoRecords, Some(ServerConstraints)), "exact.png")
  {
    var notes := Media("notes.txt", "text/plain", 0, 0, 0, 0, true);
    var exact := Media("exact.png", "image/png", 854, 480, 0, 0, true);
    assert notes.kind[..6] == "text/p" && exact.kind[..6] == "image/";
    assert Stalls(NoRecords, Some(ServerConstraints), notes);
    assert NoNeedCropping(Some(ServerConstraints), exact) == Answered(true);
  }

  /** After the marking effect, the Upload button's cropping condition holds only
      if each file was cropped already or needs no cropping; with no stalling file
      that is also enough. */
  lemma MarkExactThenAllCropped(selected: seq<Media>, r: Records, c: Option<Constraints>)
    ensures AllCropped(selected, MarkExact(selected, r, c)) ==>
              forall f :: f in selected ==>
                (Cropped(r, f.name) || exists g :: g in selected && g.name == f.name && NoNeedCropping(c, g) == Answered(true))
    ensures (forall f :: f in selected ==> !Stalls(r, c, f)) ==>
              ((forall f :: f in selected ==>
                 (Cropped(r, f.name) || exists g :: g in selected && g.name == f.name && NoNeedCropping(c, g) == Answered(true)))
               ==> AllCropped(selected, MarkExact(selected, r, c)))
  {
  }

  /** `handleCloseCropModal`: a successful crop of the file being cropped marks
      it, and stores the coordinates when there are any. */
  function CloseCrop(r: Records, fileToCrop: Option<string>, result: CropResult): (s: Records)
    ensures fileToCrop.Some? && result.success ==> Cropped(s, fileToCrop.value)
    ensures fileToCrop.Some? && result.success && result.coords.Some? ==>
              fileToCrop.value in s.coords && s.coords[fileToCrop.value] == result.coords.value
    ensures forall name :: fileToCrop != Some(name) || !result.success ==> SameRecord(s, r, name)
  {
    if fileToCrop.Some? && result.success then
      var name := fileToCrop.value;
      var r1 := r.(cropped := r.cropped[name := true]);
      if result.coords.Some? then r1.(coords := r1.coords[name := result.coords.value]) else r1
    else r
  }

  /** The crop dialog marks a file cropped exactly when the user confirmed after the
      cropper reported an area; the X button never does. */
  lemma CropDialogMarks(r: Records, name: string, coords: Option<Coords>)
    ensures Cropped(CloseCrop(r, Some(name), ConfirmCrop(coords)), name) <==> coords.Some? || Cropped(r, name)
    ensures CloseCrop(r, Some(name), CancelCrop()) == r
  {
  }

  /** The offsets sent with an upload: the stored coordinates, or 0 and 0. */
  function CropOffsets(r: Records, name: string): (o: Coords)
    ensures name in r.coords ==> o == r.coords[name]
    ensures name !in r.coords ==> o == Coords(0, 0)
  {
    if name in r.coords then r.coords[name] else Coords(0, 0)
  }

  const DuplicateTitleMessage: string :=
    "File name already exists: Duplicate videos must be deleted first to be reuploaded."

  /** The first loop of `handleUpload`. A file named like an existing video is
      marked failed with a message and not queued; a file with any recorded status
      is skipped; the rest are queued in order. `known` is the status record as it
      stood when the upload began. */
  function Enqueue(selected: seq<Media>, titles: set<string>, known: map<string, UploadStatus>, r: Records)
    : (out: (seq<Media>, Records))
    ensures forall f :: f in out.0 <==> f in selected && f.name !in titles && f.name !in known
    ensures SeqFacts.Subsequence(out.0, selected)
    ensures forall f :: f in selected && f.name in titles ==>
              f.name in out.1.status && out.1.status[f.name] == Failed
              && f.name in out.1.errors && out.1.errors[f.name] == DuplicateTitleMessage
    ensures out.1.progress == r.progress && out.1.cropped == r.cropped
            && out.1.coords == r.coords && out.1.eta == r.eta
    ensures forall name :: (forall f :: f in selected ==> f.name != name || f.name !in titles) ==>
              SameRecord(out.1, r, name)
  {
    if selected == [] then ([], r)
    else
      var f := selected[0];
      var r1 := if f.name in titles
                then r.(errors := r.errors[f.name := DuplicateTitleMessage], status := r.status[f.name := Failed])
                else r;
      var rest := Enqueue(selected[1..], titles, known, r1);
      assert forall g :: g in selected <==> g == f || g in selected[1..];
      assert f.name in titles ==>
               f.name in rest.1.status && rest.1.status[f.name] == Failed
               && f.name in rest.1.errors && rest.1.errors[f.name] == DuplicateTitleMessage by {
        if f.name in titles && forall g :: g in selected[1..] ==> g.name != f.name || g.name !in titles {
          assert SameRecord(rest.1, r1, f.name);
        }
      }
      assert forall name :: (forall g :: g in selected ==> g.name != name || g.name !in titles) ==>
               SameRecord(rest.1, r, name) by {
        forall name | forall g :: g in selected ==> g.name != name || g.name !in titles
          ensures SameRecord(rest.1, r, name)
        {
          assert f in selected;
          assert SameRecord(r1, r, name);
          assert SameRecord(rest.1, r1, name);
        }
      }
      if f.name in titles || f.name in known then rest
      else
        assert ([f] + rest.0)[1..] == rest.0;
        ([f] + rest.0, rest.1)
  }

  /** The files the first loop of `handleUpload` queues: those with no title
      clash and no recorded status, in their order. */
  function Queued(selected: seq<Media>, titles: set<string>, known: map<string, UploadStatus>): (q: seq<Media>)
  {
    if selected == [] then []
    else if selected[0].name in titles || selected[0].name in known then Queued(selected[1..], titles, known)
    else [selected[0]] + Queued(selected[1..], titles, known)
  }

  /** The loop's queue is that filter, whatever the records hold. */
  lemma {:induction false} EnqueueQueued(selected: seq<Media>, titles: set<string>, known: map<string, UploadStatus>, r: Records)
    ensures Enqueue(selected, titles, known, r).0 == Queued(selected, titles, known)
  {
    if selected != [] {
      var g := selected[0];
      var r1 := if g.name in titles
                then r.(errors := r.errors[g.name := DuplicateTitleMessage], status := r.status[g.name := Failed])
                else r;
      EnqueueQueued(selected[1..], titles, known, r1);
    }
  }

  lemma {:induction false} QueuedKeepsCopies(selected: seq<Media>, titles: set<string>, known: map<string, UploadStatus>, f: Media)
    ensures multiset(Queued(selected, titles, known))[f]
              == if f.name in titles || f.name in known then 0 else multiset(selected)[f]
  {
    if selected != [] {
      var rest := Queued(selected[1..], titles, known);
      QueuedKeepsCopies(selected[1..], titles, known, f);
      assert selected == [selected[0]] + selected[1..];
      ConsCount(selected[0], selected[1..], f);
      if !(selected[0].name in titles || selected[0].name in known) {
        ConsCount(selected[0], rest, f);
      }
    }
  }

  /** The queue holds every copy of every file it takes, and none of the others. */
  lemma EnqueueKeepsCopies(selected: seq<Media>, titles: set<string>, known: map<string, UploadStatus>,
                           r: Records, f: Media)
    ensures multiset(Enqueue(selected, titles, known, r).0)[f]
              == if f.name in titles || f.name in known then 0 else multiset(selected)[f]
  {
    EnqueueQueued(selected, titles, known, r);
    QueuedKeepsCopies(selected, titles, known, f);
  }

  /** The concurrency limit: the configured number, or 1 when it is missing, not a
      number, or 0. */
  function MaxConcurrent(configured: Option<int>): (m: int)
    ensures configured.None? || configured.value == 0 ==> m == 1
    ensures configured.Some? && configured.value != 0 ==> m == configured.value
  {
    if configured.Some? && configured.value != 0 then configured.value else 1
  }

  /** The dispatcher: files waiting in order, the number of uploads running, and
      the files started so far in the order they were started. */
  datatype Dispatcher = Dispatcher(queue: seq<Media>, active: int, started: seq<Media>)

  /** `processNextUpload`: while files wait and fewer than `limit` uploads run,
      start the first waiting file. */
  method Pump(d: Dispatcher, limit: int) returns (r: Dispatcher)
    ensures r.started + r.queue == d.started + d.queue
    ensures |d.queue| > 0 && d.active < limit ==> |r.started| > |d.started|
    ensures |r.started| >= |d.started|
    ensures r.active == d.active + (|r.started| - |d.started|)
    ensures d.active <= limit ==> r.active <= limit
    ensures d.active >= limit ==> r == d
    ensures r.queue == [] || r.active >= limit
  {
    r := d;
    while |r.queue| > 0 && r.active < limit
      invariant r.started + r.queue == d.started + d.queue
      invariant |r.started| >= |d.started|
      invariant r.active == d.active + (|r.started| - |d.started|)
      invariant d.active <= limit ==> r.active <= limit
      invariant d.active >= limit ==> r == d
      invariant |d.queue| > 0 && d.active < limit ==> r == d || |r.started| > |d.started|
      decreases |r.queue|
    {
      var next := r.queue[0];
      assert r.started + r.queue == (r.started + [next]) + r.queue[1..];
      r := Dispatcher(r.queue[1..], r.active + 1, r.started + [next]);
    }
  }

  /** An upload finishes, successfully or not: one fewer runs, and the dispatcher
      runs again. */
  method Finish(d: Dispatcher, limit: int) returns (r: Dispatcher)
    requires d.active > 0
    ensures r.started + r.queue == d.started + d.queue
    ensures d.active <= limit ==> r.active <= limit
    ensures r.queue == [] || r.active >= limit
    ensures |d.queue| > 0 && d.active <= limit ==> |r.started| > |d.started|
  {
    r := Pump(d.(active := d.active - 1), limit);
  }

  /** `handleUpload` from the start: the queue is built, then pumped. Uploads start
      in queue order, never more than the limit at once, and with a positive limit
      at least one file starts when any is queued. */
  method StartUploads(selected: seq<Media>, titles: set<string>, r: Records, configured: Option<int>)
    returns (d: Dispatcher, s: Records)
    ensures d.started + d.queue == Enqueue(selected, titles, r.status, r).0
    ensures d.active == |d.started| <= MaxConcurrent(configured) || d.active == 0
    ensures MaxConcurrent(configured) > 0 && |Enqueue(selected, titles, r.status, r).0| > 0 ==> |d.started| > 0
    ensures s == Enqueue(selected, titles, r.status, r).1
  {
    var queued := Enqueue(selected, titles, r.status, r);
    s := queued.1;
    d := Pump(Dispatcher(queued.0, 0, []), MaxConcurrent(configured));
  }

  /** What a failed upload carries, each part absent when the error has none: the
      server's error for the `file` field, the reply body, and the error's own
      message. A refusal by `validateFile` before the request has only a message. */
  datatype UploadError = UploadError(fileError: Option<string>, body: Option<string>, message: Option<string>)

  /** How one upload ends: the server's record of the new video, or an error. */
  datatype UploadOutcome = Uploaded(video: Entities.Video) | UploadFailed(error: UploadError)

  const UnexpectedMessage: string := "An unexpected error occurred."

  /** A present, non-empty text: what `||` lets through. */
  predicate Given(t: Option<string>)
  {
    t.Some? && t.value != ""
  }

  /** The message recorded for a failed upload: the first given one of the field
      error, the body and the message, else the fallback text. */
  function FailureText(e: UploadError): (t: string)
    ensures t != ""
    ensures t == UnexpectedMessage || Some(t) == e.fileError || Some(t) == e.body || Some(t) == e.message
    ensures Given(e.fileError) ==> t == e.fileError.value
    ensures !Given(e.fileError) && Given(e.body) ==> t == e.body.value
    ensures !Given(e.fileError) && !Given(e.body) && Given(e.message) ==> t == e.message.value
    ensures !Given(e.fileError) && !Given(e.body) && !Given(e.message) ==> t == UnexpectedMessage
  {
    if Given(e.fileError) then e.fileError.value
    else if Given(e.body) then e.body.value
    else if Given(e.message) then e.message.value
    else UnexpectedMessage
  }

  /** The end of `uploadFile` for the file named `name`: a success appends the new
      video to the list and records the file as succeeded; a failure leaves the
      list and records the file as failed with its message. No other name's
      records and none of the other four records change. */
  function Settle(videos: seq<Entities.Video>, r: Records, name: string, o: UploadOutcome)
    : (out: (seq<Entities.Video>, Records))
    ensures o.Uploaded? ==> out.0 == videos + [o.video] && out.1.errors == r.errors
    ensures o.UploadFailed? ==> out.0 == videos && name in out.1.errors && out.1.errors[name] == FailureText(o.error)
    ensures name in out.1.status && (out.1.status[name] == Succeeded <==> o.Uploaded?)
    ensures out.1.progress == r.progress && out.1.cropped == r.cropped
            && out.1.coords == r.coords && out.1.eta == r.eta
    ensures forall other :: other != name ==> SameRecord(out.1, r, other)
  {
    match o
    case Uploaded(v) => (videos + [v], r.(status := r.status[name := Succeeded]))
    case UploadFailed(e) =>
      (videos, r.(status := r.status[name := Failed], errors := r.errors[name := FailureText(e)]))
  }

  /** A refusal by `validateFile` records the refusal's own message. */
  lemma ValidationMessageRecorded(videos: seq<Entities.Video>, r: Records, name: string, m: string)
    requires m != ""
    ensures var out := Settle(videos, r, name, UploadFailed(UploadError(None, None, Some(m))));
            out.0 == videos && out.1.errors[name] == m && out.1.status[name] == Failed
  {
  }

  /** Once an upload has settled, a later press of Upload does not send that file
      again, whichever way it ended, and every other file is queued as before. */
  lemma SettledNotRequeued(videos: seq<Entities.Video>, r: Records, name: string, o: UploadOutcome,
                           selected: seq<Media>, titles: set<string>, r2: Records)
    ensures var known := Settle(videos, r, name, o).1.status;
            forall f :: f in selected && f.name == name ==> f !in Enqueue(selected, titles, known, r2).0
    ensures var known := Settle(videos, r, name, o).1.status;
            forall f :: f in selected && f.name != name ==>
              (f in Enqueue(selected, titles, known, r2).0 <==> f in Enqueue(selected, titles, r.status, r2).0)
  {
  }

  /** The dialog is reset: nothing chosen, no records, nothing uploading. */
  function Reset(): (out: (seq<Media>, Records, bool))
    ensures out.0 == [] && !out.2
    ensures forall name :: Forgotten(out.1, name)
  {
    ([], NoRecords, false)
  }
}
