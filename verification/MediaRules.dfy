/** The back end's media rules: the frame-count and resolution decisions of the
    cropping helpers, the trims they make, and the order of checks an upload goes
    through before it is stored, with the error text the client receives. Frame
    counts, sizes and durations are integers. */
module MediaRules {
  import opened Wrappers
  import opened DecimalText
  import UploadChecks
  import Shows
  import ErrorText

  /** The stored format: 854 by 480 pixels, 30 frames a second, at most five
      minutes; a file up to 60 frames too long is trimmed rather than refused. */
  const Width: int := 854
  const Height: int := 480
  const FrameRate: int := 30
  const TimeLimit: int := 5 * 60
  const MarginOn: bool := true
  const TrimMargin: int := 60
  const FrameMargin: int := if MarginOn then TrimMargin else 0

  /** The refusal of an upload that carries no file. `Video.file` is a required
      file field, so the serializer's field check refuses a missing file with the
      REST framework's own text before `validate_file` runs; that method's
      "No file uploaded." is never reached. */
  const NoFileMessage: string := "No file was submitted."

  /** How a frame count compares with the show's. */
  datatype Length = Exact | Trim | TooLong | TooShort

  /** `validate_length`: equal counts match; a count above the show's by less
      than the margin is to be trimmed; anything else is refused. */
  function CheckLength(frames: int, needed: int): (r: Length)
    ensures r == Exact <==> frames == needed
    ensures r == Trim <==> needed < frames < needed + FrameMargin
    ensures r == TooLong <==> frames >= needed + FrameMargin && frames > needed
    ensures r == TooShort <==> frames < needed
  {
    if frames == needed then Exact
    else if frames > needed then
      if frames < needed + FrameMargin then Trim else TooLong
    else TooShort
  }

  /** A trimmed file loses fewer than two seconds of frames, and trimming it to
      the show's count makes it match. */
  lemma TrimIsSmall(frames: int, needed: int)
    requires CheckLength(frames, needed) == Trim
    ensures 0 < frames - needed < 2 * FrameRate
    ensures CheckLength(needed, needed) == Exact
  {
  }

  /** The error `validate_length` raises for a refused count. */
  function LengthMessage(frames: nat, needed: nat): string
  {
    "Media frame count (" + Decimal(frames) + ") " + (if frames > needed then ">" else "<")
    + " needed frame count (" + Decimal(needed) + ")."
  }

  /** `valid_resolution`: strictly, exactly the stored size; otherwise at least
      it on both sides. */
  function ValidResolution(width: int, height: int, strict: bool): (r: bool)
    ensures strict ==> (r <==> width == Width && height == Height)
    ensures !strict ==> (r <==> width >= Width && height >= Height)
  {
    if strict then width == Width && height == Height
    else !(width < Width || height < Height)
  }

  /** An exact size is also a large enough one, and the loose test is the one the
      browser applies with the server's published limits. */
  lemma ResolutionTests(width: int, height: int, m: UploadChecks.Media)
    ensures ValidResolution(width, height, true) ==> ValidResolution(width, height, false)
    ensures ValidResolution(m.width, m.height, false) <==> UploadChecks.LargeEnough(UploadChecks.ServerConstraints, m)
  {
  }

  /** A ValidationError raised with message `m`, as `str` shows it. */
  function Reject(m: string): ErrorText.Failure
  {
    ErrorText.ValidationFailure(ErrorText.Wrapped(m))
  }

  /** `crop_clip_resolution` after the crop: a clip with more frames than the
      show is trimmed to the show's count, one with fewer is refused. The result
      is the frame count of the file written. */
  function CropClip(croppedFrames: nat, showFrames: nat): (r: Result<nat, ErrorText.Failure>)
    ensures r.Ok? <==> croppedFrames >= showFrames
    ensures r.Ok? ==> r.value == showFrames
  {
    if croppedFrames > showFrames then Ok(showFrames)
    else if croppedFrames < showFrames then
      Err(Reject("Video could not successfully crop to " + Decimal(Width) + "x" + Decimal(Height) + "."))
    else Ok(croppedFrames)
  }

  /** What the cropping helpers do to the stored file. */
  datatype Rewrite = Untouched | Rewritten(frames: nat)

  /** `crop_file_resolution`: a file of exactly the stored size is left alone;
      any other is cropped through `CropClip`. */
  function CropFileResolution(width: int, height: int, croppedFrames: nat, showFrames: nat)
    : (r: Result<Rewrite, ErrorText.Failure>)
    ensures ValidResolution(width, height, true) ==> r == Ok(Untouched)
    ensures !ValidResolution(width, height, true) ==>
              (r.Ok? <==> croppedFrames >= showFrames) && (r.Ok? ==> r.value == Rewritten(showFrames))
  {
    if ValidResolution(width, height, true) then Ok(Untouched)
    else match CropClip(croppedFrames, showFrames)
      case Ok(n) => Ok(Rewritten(n))
      case Err(e) => Err(e)
  }

  /** The text of the `UnboundLocalError` Python raises for a local read before
      any assignment. */
  function Unbound(name: string): string
  {
    "cannot access local variable '" + name + "' where it is not associated with a value"
  }

  function MediaName(gif: bool): string
  {
    if gif then "GIF" else "Video"
  }

  /** The error raised when a trim does not produce the show's count. */
  function TrimMessage(gif: bool, needed: nat, got: nat): string
  {
    MediaName(gif) + " could not successfully crop to " + Decimal(needed) + " frames, got "
    + Decimal(got) + " frames instead."
  }

  /** `crop_file_duration` as written: a matching file is left alone; a file
      within the margin is trimmed and the result checked. For a refused count,
      `validate_length` raises before `tmp_path` is assigned, and the handler's
      `tmp_clean(tmp_path)` then raises `UnboundLocalError` in its place. */
  function CropFileDurationAsWritten(frames: nat, needed: nat, framesAfterTrim: nat, gif: bool)
    : (r: Result<Rewrite, ErrorText.Failure>)
    ensures CheckLength(frames, needed) in {TooLong, TooShort} ==>
              r == Err(ErrorText.OtherFailure(Unbound("tmp_path")))
  {
    match CheckLength(frames, needed)
    case Exact => Ok(Untouched)
    case Trim =>
      if framesAfterTrim != needed then Err(Reject(TrimMessage(gif, needed, framesAfterTrim)))
      else Ok(Rewritten(framesAfterTrim))
    case _ => Err(ErrorText.OtherFailure(Unbound("tmp_path")))
  }

  /** `crop_file_duration` with `tmp_path` bound before the `try`: a refused count
      reaches the caller as the error `validate_length` raised. */
  function CropFileDuration(frames: nat, needed: nat, framesAfterTrim: nat, gif: bool)
    : (r: Result<Rewrite, ErrorText.Failure>)
    ensures r == Ok(Untouched) <==> frames == needed
    ensures r.Ok? ==> r == Ok(Untouched) || r == Ok(Rewritten(needed))
    ensures r.Ok? <==> frames == needed || (CheckLength(frames, needed) == Trim && framesAfterTrim == needed)
    ensures CheckLength(frames, needed) in {TooLong, TooShort} ==> r == Err(Reject(LengthMessage(frames, needed)))
    ensures r.Err? ==> r.error.ValidationFailure?
  {
    match CheckLength(frames, needed)
    case Exact => Ok(Untouched)
    case Trim =>
      if framesAfterTrim != needed then Err(Reject(TrimMessage(gif, needed, framesAfterTrim)))
      else Ok(Rewritten(framesAfterTrim))
    case _ => Err(Reject(LengthMessage(frames, needed)))
  }

  /** The two agree except on a refused count, where the written code reports an
      unbound variable instead of the frame counts. */
  lemma CropFileDurationLosesMessage(framesAfterTrim: nat, gif: bool)
    ensures CropFileDurationAsWritten(100, 10, framesAfterTrim, gif)
              == Err(ErrorText.OtherFailure(Unbound("tmp_path")))
    ensures CropFileDuration(100, 10, framesAfterTrim, gif) == Err(Reject(LengthMessage(100, 10)))
  {
  }

  lemma CropFileDurationAgrees(frames: nat, needed: nat, framesAfterTrim: nat, gif: bool)
    requires CheckLength(frames, needed) in {Exact, Trim}
    ensures CropFileDurationAsWritten(frames, needed, framesAfterTrim, gif)
              == CropFileDuration(frames, needed, framesAfterTrim, gif)
  {
  }

  /** An upload as the server sees it. `durationMs` is the clip's duration in
      milliseconds, `fpsTenths` its frame rate rounded to one decimal and counted
      in tenths, `frames` the frame count the probe reports; `decodes` says
      whether the media library can open the file, and `decodeError` is the text
      of its error when it cannot. */
  datatype Upload = Upload(present: bool, name: string, kind: string, width: int, height: int,
                           durationMs: int, fpsTenths: int, frames: nat,
                           decodes: bool, decodeError: string)

  /** `name.split('.')[-1]`: what follows the last dot, or the whole name. */
  function AfterLastDot(s: string): (r: string)
    ensures '.' !in r
    ensures |r| <= |s| && r == s[|s| - |r|..]
    ensures r == s || s[|s| - |r| - 1] == '.'
  {
    if s == [] then []
    else if s[|s| - 1] == '.' then []
    else
      var r := AfterLastDot(s[..|s| - 1]);
      assert s[..|s| - 1][|s| - 1 - |r|..] + [s[|s| - 1]] == s[|s| - |r| - 1..];
      r + [s[|s| - 1]]
  }

  /** The extension the checks use, lower-cased. */
  function Extension(u: Upload): string
  {
    Shows.Lower(AfterLastDot(u.name))
  }

  /** Whether the video branch applies: a `video/` type or a `gif` extension. */
  predicate Moving(u: Upload)
  {
    UploadChecks.StartsWith(u.kind, "video/") || Extension(u) == "gif"
  }

  /** The failure the inner handler raises for what went wrong while inspecting
      the media. */
  function Inner(media: string, e: ErrorText.Failure): ErrorText.Failure
  {
    Reject("Failed to process " + media + " file: " + ErrorText.Clean(e))
  }

  /** The text the client receives for a failure the outer handler catches. */
  function Outer(e: ErrorText.Failure): string
  {
    "Failed to handle file: " + ErrorText.Clean(e)
  }

  /** The video and GIF checks once the clip is open, in order: duration, size,
      frame rate, frame count. */
  function InspectClip(u: Upload, showFrames: nat): (r: Option<ErrorText.Failure>)
    ensures r.None? <==> u.durationMs <= TimeLimit * 1000 && ValidResolution(u.width, u.height, false)
                         && u.fpsTenths == FrameRate * 10 && CheckLength(u.frames, showFrames) in {Exact, Trim}
  {
    var media := if Extension(u) == "gif" then "GIF" else "Video";
    if u.durationMs > TimeLimit * 1000 then
      Some(Reject(media + " is too long. Maximum allowed duration is " + Decimal(TimeLimit / 60) + " minutes."))
    else if !ValidResolution(u.width, u.height, false) then
      Some(Reject(media + " resolution is too small. Must be at least " + Decimal(Width) + " x "
                  + Decimal(Height) + "."))
    else if u.fpsTenths != FrameRate * 10 then
      Some(Reject(media + " framerate must be " + Decimal(FrameRate) + "fps."))
    else if CheckLength(u.frames, showFrames) in {TooLong, TooShort} then
      Some(Reject(LengthMessage(u.frames, showFrames)))
    else None
  }

  /** `validate_file` as written, once the `show` field has named a show or an
      id no show has (None). A missing file (by the field check before it) or
      show is refused outright.
      Every later failure is caught and reported as "Failed to handle file: …";
      a failed check inside the video or image branch is first re-raised as
      "Failed to process … file: …". When the media library cannot open the file,
      the `finally` clause closes a clip that was never assigned, and the
      resulting `UnboundLocalError` replaces the library's error. */
  function ValidateUploadAsWritten(u: Upload, showFrames: Option<nat>): (r: Result<(), string>)
    ensures !u.present ==> r == Err(NoFileMessage)
    ensures u.present && showFrames.None? ==> r == Err("Associated show not found.")
    ensures u.present && showFrames.Some? && !u.decodes
            && (Moving(u) || UploadChecks.StartsWith(u.kind, "image/")) ==>
              r == Err(Outer(ErrorText.OtherFailure(Unbound(if Moving(u) then "video_clip" else "image_clip"))))
  {
    if !u.present then Err(NoFileMessage)
    else if showFrames.None? then Err("Associated show not found.")
    else if Moving(u) then
      if !u.decodes then Err(Outer(ErrorText.OtherFailure(Unbound("video_clip"))))
      else match InspectClip(u, showFrames.value)
        case None => Ok(())
        case Some(e) => Err(Outer(Inner(if Extension(u) == "gif" then "gif" else "video", e)))
    else if UploadChecks.StartsWith(u.kind, "image/") then
      if !u.decodes then Err(Outer(ErrorText.OtherFailure(Unbound("image_clip"))))
      else if !ValidResolution(u.width, u.height, false) then
        Err(Outer(Inner("image", Reject("Image resolution is too small. Must be at least "
                                        + Decimal(Width) + " x " + Decimal(Height) + "."))))
      else Ok(())
    else Err(Outer(Reject("Unsupported file extension.")))
  }

  /** `validate_file` with the clip closed only once it is open: an unreadable
      file reports the library's error under both wrappers. */
  function ValidateUpload(u: Upload, showFrames: Option<nat>): (r: Result<(), string>)
    ensures !u.present ==> r == Err(NoFileMessage)
    ensures u.present && showFrames.None? ==> r == Err("Associated show not found.")
    ensures r.Ok? <==> u.present && showFrames.Some? && u.decodes
                       && (if Moving(u) then InspectClip(u, showFrames.value).None?
                           else UploadChecks.StartsWith(u.kind, "image/") && ValidResolution(u.width, u.height, false))
    ensures r.Err? && u.present && showFrames.Some? ==> UploadChecks.StartsWith(r.error, "Failed to handle file: ")
    ensures u.present && showFrames.Some? && !u.decodes && Moving(u) ==>
              r == Err(Outer(Inner(if Extension(u) == "gif" then "gif" else "video", ErrorText.OtherFailure(u.decodeError))))
  {
    if !u.present then Err(NoFileMessage)
    else if showFrames.None? then Err("Associated show not found.")
    else if Moving(u) then
      var media := if Extension(u) == "gif" then "gif" else "video";
      if !u.decodes then Err(Outer(Inner(media, ErrorText.OtherFailure(u.decodeError))))
      else match InspectClip(u, showFrames.value)
        case None => Ok(())
        case Some(e) => Err(Outer(Inner(media, e)))
    else if UploadChecks.StartsWith(u.kind, "image/") then
      if !u.decodes then Err(Outer(Inner("image", ErrorText.OtherFailure(u.decodeError))))
      else if !ValidResolution(u.width, u.height, false) then
        Err(Outer(Inner("image", Reject("Image resolution is too small. Must be at least "
                                        + Decimal(Width) + " x " + Decimal(Height) + "."))))
      else Ok(())
    else Err(Outer(Reject("Unsupported file extension.")))
  }

  /** The `show` field of an upload: left out, or the text sent. */
  datatype ShowField = NoShow | ShowText(text: string)

  /** How the server answers an upload: stored, refused with a message (400), or
      an uncaught exception (500). */
  datatype Answer = Accepted | Refused(message: string) | ServerError

  /** The answer for a validation outcome once a show was looked up. */
  function AnswerOf(v: Result<(), string>): (r: Answer)
    ensures r == Accepted <==> v.Ok?
    ensures v.Err? ==> r == Refused(v.error)
  {
    if v.Ok? then Accepted else Refused(v.error)
  }

  /** `validate_file` as written, from the request's `show` field. An empty or
      missing field falls through to `validated_data`, which cannot be read while
      validation is running, and text that is not an integer makes the id lookup
      raise; neither is caught, so both are a server error. A readable id that no
      show has is refused as "Associated show not found.". `shows` gives each
      stored show's frame count. */
  function UploadAnswerAsWritten(u: Upload, field: ShowField, shows: map<int, nat>): (r: Answer)
    ensures !u.present ==> r == Refused(NoFileMessage)
    ensures u.present ==>
              (r == ServerError <==> field.NoShow? || field.text == "" || ParseInt(field.text).None?)
    ensures u.present && field.ShowText? && ParseInt(field.text).Some? && ParseInt(field.text).value !in shows ==>
              r == Refused("Associated show not found.")
    ensures r == Accepted <==>
              u.present && field.ShowText? && ParseInt(field.text).Some? && ParseInt(field.text).value in shows
              && ValidateUploadAsWritten(u, Some(shows[ParseInt(field.text).value])).Ok?
  {
    if !u.present then Refused(NoFileMessage)
    else if field.NoShow? || field.text == "" || ParseInt(field.text).None? then ServerError
    else
      var id := ParseInt(field.text).value;
      AnswerOf(ValidateUploadAsWritten(u, if id in shows then Some(shows[id]) else None))
  }

  /** The id a `show` field names, when it is present and reads as an integer. */
  function FieldId(field: ShowField): (r: Option<int>)
    ensures r.Some? <==> field.ShowText? && ParseInt(field.text).Some?
    ensures r.Some? ==> r == ParseInt(field.text)
  {
    if field.ShowText? then ParseInt(field.text) else None
  }

  /** `validate_file` as its comment intends: whenever no show can be found from
      the field, missing, unreadable or unknown, the upload is refused as
      "Associated show not found."; an unreadable file keeps the library's error. */
  function UploadAnswer(u: Upload, field: ShowField, shows: map<int, nat>): (r: Answer)
    ensures r != ServerError
    ensures u.present && (FieldId(field).None? || FieldId(field).value !in shows) ==>
              r == Refused("Associated show not found.")
    ensures r == Accepted <==>
              u.present && FieldId(field).Some? && FieldId(field).value in shows
              && ValidateUpload(u, Some(shows[FieldId(field).value])).Ok?
  {
    var id := FieldId(field);
    AnswerOf(ValidateUpload(u, if id.Some? && id.value in shows then Some(shows[id.value]) else None))
  }

  /** The two answers differ on the show field only where the written code
      raises: for a file the library can open they agree whenever the field
      reads as an id. */
  lemma UploadAnswerAgrees(u: Upload, field: ShowField, shows: map<int, nat>)
    requires u.decodes
    ensures (UploadAnswerAsWritten(u, field, shows) == ServerError) <==> (u.present && FieldId(field).None?)
    ensures UploadAnswerAsWritten(u, field, shows) != ServerError ==>
              UploadAnswerAsWritten(u, field, shows) == UploadAnswer(u, field, shows)
  {
    ValidateUploadAgrees(u, if FieldId(field).Some? && FieldId(field).value in shows then Some(shows[FieldId(field).value]) else None);
  }

  /** A show id sent as its decimal text reaches the checks with that show's
      frame count. */
  lemma ShowFieldAnswers(u: Upload, shows: map<int, nat>, id: int)
    requires u.present && id in shows
    ensures UploadAnswerAsWritten(u, ShowText(SignedDecimal(id)), shows)
              == AnswerOf(ValidateUploadAsWritten(u, Some(shows[id])))
  {
    ParseSignedDecimal(id);
  }

  /** A missing field and the text `abc` are server errors; the unknown id 99 is
      refused as a missing show. */
  lemma ShowFieldFailures(u: Upload, shows: map<int, nat>)
    requires u.present && 99 !in shows
    ensures UploadAnswerAsWritten(u, NoShow, shows) == ServerError
    ensures UploadAnswerAsWritten(u, ShowText("abc"), shows) == ServerError
    ensures UploadAnswerAsWritten(u, ShowText("99"), shows) == Refused("Associated show not found.")
  {
    assert !IsDigit("abc"[0]) && "abc"[0] != '-' && "abc"[0] != '+';
    assert "99"[..1] == "9" && "9"[..0] == [] && AllDigits("99");
    assert DigitsValue("99") == 99;
  }

  /** The two differ only for a file the library cannot open. */
  lemma ValidateUploadAgrees(u: Upload, showFrames: Option<nat>)
    requires u.decodes
    ensures ValidateUploadAsWritten(u, showFrames) == ValidateUpload(u, showFrames)
  {
  }

  /** A video the library cannot open: the written code names the clip variable,
      the corrected one passes the library's error on. */
  lemma UnreadableVideoLosesMessage(u: Upload, showFrames: nat)
    requires u.present && u.kind == "video/mp4" && Extension(u) != "gif" && !u.decodes
    ensures ValidateUploadAsWritten(u, Some(showFrames)) == Err(Outer(ErrorText.OtherFailure(Unbound("video_clip"))))
    ensures ValidateUpload(u, Some(showFrames)) == Err(Outer(Inner("video", ErrorText.OtherFailure(u.decodeError))))
  {
    Mp4Moves(u);
  }

  /** An `mp4` upload takes the video branch. */
  lemma Mp4Moves(u: Upload)
    requires u.kind == "video/mp4"
    ensures Moving(u)
  {
    assert u.kind[..6] == "video/";
  }

  /** An upload the server accepts never sends `crop_file_duration` down its
      broken path: its frame count was already found within the margin of the
      same show's count. */
  lemma AcceptedUploadCropsCleanly(u: Upload, showFrames: nat, framesAfterTrim: nat)
    requires ValidateUploadAsWritten(u, Some(showFrames)).Ok? && Moving(u)
    ensures CropFileDurationAsWritten(u.frames, showFrames, framesAfterTrim, Extension(u) == "gif")
              == CropFileDuration(u.frames, showFrames, framesAfterTrim, Extension(u) == "gif")
  {
  }

  /** The image branch checks no frame count, yet the stored file is trimmed
      whenever its extension is `mp4`, whatever its type: an MP4 sent with an
      `image/` type and far too many frames is accepted and then reaches the
      broken path of the trim. */
  lemma ImageTypedMp4ReachesTrimBug(u: Upload, showFrames: nat, framesAfterTrim: nat)
    requires u.present && UploadChecks.StartsWith(u.kind, "image/") && Extension(u) == "mp4" && u.decodes
    requires ValidResolution(u.width, u.height, false) && CheckLength(u.frames, showFrames) == TooLong
    ensures ValidateUploadAsWritten(u, Some(showFrames)) == Ok(())
    ensures CropFileDurationAsWritten(u.frames, showFrames, framesAfterTrim, false)
              == Err(ErrorText.OtherFailure(Unbound("tmp_path")))
    ensures CropFileDuration(u.frames, showFrames, framesAfterTrim, false) == Err(Reject(LengthMessage(u.frames, showFrames)))
  {
    ImageTypeNotMoving(u);
    var r := ValidateUploadAsWritten(u, Some(showFrames));
    assert r == Ok(());
  }

  /** An `image/` upload with an `mp4` extension takes the image branch. */
  lemma ImageTypeNotMoving(u: Upload)
    requires UploadChecks.StartsWith(u.kind, "image/") && Extension(u) == "mp4"
    ensures !Moving(u)
  {
    assert !UploadChecks.StartsWith(u.kind, "video/") by {
      assert u.kind[..6] == "image/";
      assert "image/"[0] != "video/"[0];
    }
    assert Extension(u) != "gif" by {
      assert "mp4"[0] != "gif"[0];
    }
  }

  /** A GIF that the browser accepts because it judges GIFs as images alone can
      still be refused by the server, which checks its frame rate. */
  lemma GifFrameRateOnlyOnServer(m: UploadChecks.Media, u: Upload, showFrames: nat)
    requires m.kind == "image/gif" && m.loads && UploadChecks.LargeEnough(UploadChecks.ServerConstraints, m)
    requires u.present && u.kind == m.kind && Extension(u) == "gif" && u.decodes
    requires u.fpsTenths != FrameRate * 10
    ensures UploadChecks.ValidateFile(UploadChecks.ServerConstraints, m) == UploadChecks.Accepted
    ensures ValidateUpload(u, Some(showFrames)).Err?
  {
    UploadChecks.GifJudgedAsImage(UploadChecks.ServerConstraints, m);
  }

  lemma LiteralsTame()
    ensures ErrorText.Tame("video") && ErrorText.Tame("Unsupported file extension.")
  {
  }

  lemma DecimalTame(n: nat)
    ensures ErrorText.Tame(Decimal(n))
  {
    var d := Decimal(n);
    assert forall i :: 0 <= i < |d| ==> IsDigit(d[i]);
  }

  lemma LengthMessageTame(frames: nat, needed: nat)
    ensures ErrorText.Tame(LengthMessage(frames, needed))
  {
    DecimalTame(frames);
    DecimalTame(needed);
    var rel := if frames > needed then ">" else "<";
    assert ErrorText.Tame("Media frame count (") && ErrorText.Tame(") ") && ErrorText.Tame(rel);
    assert ErrorText.Tame(" needed frame count (") && ErrorText.Tame(").");
    ErrorText.TameJoin("Media frame count (", Decimal(frames));
    ErrorText.TameJoin("Media frame count (" + Decimal(frames), ") ");
    ErrorText.TameJoin("Media frame count (" + Decimal(frames) + ") ", rel);
    ErrorText.TameJoin("Media frame count (" + Decimal(frames) + ") " + rel, " needed frame count (");
    ErrorText.TameJoin("Media frame count (" + Decimal(frames) + ") " + rel + " needed frame count (", Decimal(needed));
    ErrorText.TameJoin("Media frame count (" + Decimal(frames) + ") " + rel + " needed frame count (" + Decimal(needed), ").");
  }

  /** A message raised inside the video or image branch reaches the client
      under both wrappers and otherwise intact. */
  lemma ReportedTwice(media: string, m: string)
    requires ErrorText.Tame(media) && ErrorText.Tame(m)
    ensures Outer(Inner(media, Reject(m))) == "Failed to handle file: " + ("Failed to process " + media + " file: " + m)
  {
    InnerKeepsTame(media, m);
    ErrorText.TameUnwraps("Failed to process " + media + " file: " + m);
  }

  /** The inner wrapper passes a tame message through and leaves it tame. */
  lemma InnerKeepsTame(media: string, m: string)
    requires ErrorText.Tame(media) && ErrorText.Tame(m)
    ensures Inner(media, Reject(m)) == Reject("Failed to process " + media + " file: " + m)
    ensures ErrorText.Tame("Failed to process " + media + " file: " + m)
  {
    ErrorText.TameUnwraps(m);
    WrapperLiteralsTame();
    ErrorText.TameJoin("Failed to process ", media);
    ErrorText.TameJoin("Failed to process " + media, " file: ");
    ErrorText.TameJoin("Failed to process " + media + " file: ", m);
  }

  lemma WrapperLiteralsTame()
    ensures ErrorText.Tame("Failed to process ") && ErrorText.Tame(" file: ")
  {
  }

  /** A message raised outside the two branches reaches the client under the
      outer wrapper only. */
  lemma ReportedOnce(m: string)
    requires ErrorText.Tame(m)
    ensures Outer(Reject(m)) == "Failed to handle file: " + m
  {
    ErrorText.TameUnwraps(m);
  }

  /** A video whose frame count is out of reach is refused with both frame
      counts in the text. */
  lemma FrameCountReported(u: Upload, showFrames: nat)
    requires u.present && u.decodes && Moving(u) && Extension(u) != "gif"
    requires InspectClip(u, showFrames).Some? && CheckLength(u.frames, showFrames) in {TooLong, TooShort}
    requires u.durationMs <= TimeLimit * 1000 && ValidResolution(u.width, u.height, false)
    requires u.fpsTenths == FrameRate * 10
    ensures ValidateUpload(u, Some(showFrames))
              == Err("Failed to handle file: " + ("Failed to process " + "video" + " file: " + LengthMessage(u.frames, showFrames)))
  {
    var e := Reject(LengthMessage(u.frames, showFrames));
    LengthMessageTame(u.frames, showFrames);
    LiteralsTame();
    ReportedTwice("video", LengthMessage(u.frames, showFrames));
    assert InspectClip(u, showFrames) == Some(e);
    assert ValidateUpload(u, Some(showFrames)) == Err(Outer(Inner("video", e)));
  }

  /** A file of any other type is refused as unsupported, under the outer
      wrapper only. */
  lemma UnsupportedReported(u: Upload, showFrames: nat)
    requires u.present && !Moving(u) && !UploadChecks.StartsWith(u.kind, "image/")
    ensures ValidateUpload(u, Some(showFrames)) == Err("Failed to handle file: " + "Unsupported file extension.")
  {
    var m := "Unsupported file extension.";
    LiteralsTame();
    ReportedOnce(m);
    assert ValidateUpload(u, Some(showFrames)) == Err(Outer(Reject(m)));
  }
}
