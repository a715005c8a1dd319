/** The browser-side admission rules for media: the type, frame-rate, duration and
    resolution checks run before an upload, the exact-size test that spares a file
    from cropping, and the crop dialog's validity gate and results. Media metadata
    is reduced to integers. */
module UploadChecks {
  import opened Wrappers

  /** The limits the server publishes (`upload_constraints`). */
  datatype Constraints = Constraints(maxDuration: int, minWidth: int, minHeight: int, allowedFrameRate: int)

  /** The server's own limits: 300 seconds, 854 by 480 pixels, 30 frames a second
      (backend/videos/constants.py). */
  const ServerConstraints: Constraints := Constraints(5 * 60, 854, 480, 30)

  /** A chosen file as the browser reports it. `frameRate` is the decoded rate
      already rounded, 0 when the browser does not report one; `loads` says whether
      the browser can decode the file's metadata at all. */
  datatype Media = Media(name: string, kind: string, width: int, height: int,
                         duration: int, frameRate: int, loads: bool)

  /** The outcome of `validateFile`. */
  datatype Verdict =
    | Accepted
    | Unsupported   // neither a video nor an image type
    | LoadFailed    // the browser could not read the file
    | BadFrameRate
    | TooLong
    | TooSmall

  predicate StartsWith(s: string, prefix: string)
  {
    |prefix| <= |s| && s[..|prefix|] == prefix
  }

  predicate IsVideo(m: Media) { StartsWith(m.kind, "video/") }

  predicate IsImage(m: Media) { StartsWith(m.kind, "image/") }

  /** The frame rate the checks use: an unreported rate falls back to the allowed
      one, so it can never fail the frame-rate check. */
  function EffectiveRate(c: Constraints, m: Media): (r: int)
    ensures m.frameRate == 0 ==> r == c.allowedFrameRate
    ensures m.frameRate != 0 ==> r == m.frameRate
  {
    if m.frameRate != 0 then m.frameRate else c.allowedFrameRate
  }

  predicate LargeEnough(c: Constraints, m: Media)
  {
    m.width >= c.minWidth && m.height >= c.minHeight
  }

  /** `validateFile`. Videos are checked for frame rate, then duration, then size;
      images, GIFs among them, only for size. The separate GIF branch of the
      source is never reached, because `image/gif` already starts with `image/`. */
  function ValidateFile(c: Constraints, m: Media): (r: Verdict)
    ensures r == Unsupported <==> !IsVideo(m) && !IsImage(m)
    ensures r == LoadFailed <==> (IsVideo(m) || IsImage(m)) && !m.loads
    ensures IsVideo(m) && m.loads ==>
              (r == BadFrameRate <==> EffectiveRate(c, m) != c.allowedFrameRate)
    ensures IsVideo(m) && m.loads ==>
              (r == TooLong <==> EffectiveRate(c, m) == c.allowedFrameRate && m.duration > c.maxDuration)
    ensures IsVideo(m) && m.loads ==>
              (r == Accepted <==> EffectiveRate(c, m) == c.allowedFrameRate
                                  && m.duration <= c.maxDuration && LargeEnough(c, m))
    ensures !IsVideo(m) && IsImage(m) && m.loads ==>
              (r == Accepted <==> LargeEnough(c, m)) && (r != Accepted ==> r == TooSmall)
  {
    if !IsVideo(m) && !IsImage(m) then Unsupported
    else if !m.loads then LoadFailed
    else if IsVideo(m) then
      if EffectiveRate(c, m) != c.allowedFrameRate then BadFrameRate
      else if m.duration > c.maxDuration then TooLong
      else if !LargeEnough(c, m) then TooSmall
      else Accepted
    else if !LargeEnough(c, m) then TooSmall
    else Accepted
  }

  /** A GIF is judged as an image: by its size alone, whatever its duration or
      frame rate. */
  lemma GifJudgedAsImage(c: Constraints, m: Media)
    requires m.kind == "image/gif" && m.loads
    ensures ValidateFile(c, m) == (if LargeEnough(c, m) then Accepted else TooSmall)
  {
    assert IsImage(m);
    assert !IsVideo(m) by {
      assert m.kind[..6] == "image/";
    }
  }

  /** How the size probe of `noNeedCropping` ends: with an answer, with a
      rejection when the browser cannot read the file, or never, for a type that
      is neither an image nor a video (the promise has no branch that settles it). */
  datatype CropCheck = Answered(exact: bool) | LoadRejected | NeverAnswered

  /** `noNeedCropping`: a loadable image or video whose size is exactly the
      minimum needs no crop. A zero or missing minimum reads as `null`, which no
      size equals. */
  function NoNeedCropping(c: Option<Constraints>, m: Media): (r: CropCheck)
    ensures r == NeverAnswered <==> !IsImage(m) && !IsVideo(m)
    ensures r == LoadRejected <==> (IsImage(m) || IsVideo(m)) && !m.loads
    ensures r == Answered(true) <==>
              (IsImage(m) || IsVideo(m)) && m.loads && c.Some?
              && c.value.minWidth != 0 && c.value.minHeight != 0
              && m.width == c.value.minWidth && m.height == c.value.minHeight
  {
    if !IsImage(m) && !IsVideo(m) then NeverAnswered
    else if !m.loads then LoadRejected
    else
      Answered(c.Some? && c.value.minWidth != 0 && c.value.minHeight != 0
               && m.width == c.value.minWidth && m.height == c.value.minHeight)
  }

  /** A file spared from cropping passes every size check of `validateFile`: an
      image is then accepted outright, and a video fails only on frame rate or
      duration. */
  lemma ExactSizePassesSizeCheck(c: Constraints, m: Media)
    requires NoNeedCropping(Some(c), m) == Answered(true)
    ensures LargeEnough(c, m)
    ensures ValidateFile(c, m) != TooSmall
    ensures !IsVideo(m) ==> ValidateFile(c, m) == Accepted
  {
  }

  /** The crop target: the given resolution, or 854 by 480 when none is given. */
  function Target(resolution: Option<(int, int)>): (r: (int, int))
    ensures resolution.None? ==> r == (854, 480)
    ensures resolution.Some? ==> r == resolution.value
  {
    resolution.GetOr((854, 480))
  }

  /** The crop dialog's format flag: true until a file is given, then whether its
      type is a video or an image type. */
  function FormatValid(file: Option<Media>): (r: bool)
    ensures r <==> file.None? || IsVideo(file.value) || IsImage(file.value)
  {
    match file
    case None => true
    case Some(m) => IsVideo(m) || IsImage(m)
  }

  /** The crop dialog's resolution flag: true until a loadable file is given, then
      whether both sides reach the target. A file of another type is decoded as an
      image; if it cannot be decoded the flag keeps its initial value. */
  function ResolutionValid(file: Option<Media>, target: (int, int)): (r: bool)
    ensures r <==> file.None? || !file.value.loads
                   || (file.value.width >= target.0 && file.value.height >= target.1)
  {
    match file
    case None => true
    case Some(m) => !m.loads || !(m.width < target.0 || m.height < target.1)
  }

  /** The Crop button is disabled when either flag is false. */
  predicate CropDisabled(file: Option<Media>, target: (int, int))
  {
    !ResolutionValid(file, target) || !FormatValid(file)
  }

  /** Crop coordinates reported by the cropper, in pixels of the source. */
  datatype Coords = Coords(x: int, y: int)

  /** What the dialog passes to `onClose`: coordinates (null when absent) and a
      success flag. */
  datatype CropResult = CropResult(coords: Option<Coords>, success: bool)

  /** The Crop button: coordinates and success once the cropper has reported an
      area, null and failure otherwise. */
  function ConfirmCrop(coords: Option<Coords>): (r: CropResult)
    ensures r.success <==> coords.Some?
    ensures r.coords == coords
  {
    if coords.Some? then CropResult(coords, true) else CropResult(None, false)
  }

  /** The X button: null, with the success flag left at its default, false. */
  function CancelCrop(): (r: CropResult)
    ensures !r.success && r.coords.None?
  {
    CropResult(None, false)
  }

  /** A file of any type other than video or image cannot be cropped, whatever its
      size; and on the upload dialog's own target a loadable video or image can be
      cropped exactly when `validateFile` would not reject it as too small. */
  lemma CropGateMatchesValidation(c: Constraints, m: Media)
    ensures !IsVideo(m) && !IsImage(m) ==> CropDisabled(Some(m), (c.minWidth, c.minHeight))
    ensures (IsVideo(m) || IsImage(m)) && m.loads ==>
              (CropDisabled(Some(m), (c.minWidth, c.minHeight)) <==> !LargeEnough(c, m))
  {
  }
}
