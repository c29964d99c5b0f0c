/**
 * The timestamp-resolution policy of `MetaDataParser`: for each file, a fixed
 * chain of strategies whose first success is returned, ending in the file's
 * modification time and, after that, in `None`.
 *
 * The libraries the resolver calls are replaced by what they yield for the
 * file at hand: the EXIF tag map (or the failure to open the image), the
 * outcome of the RAW thumbnail read, the outcome of the ffprobe run, and the
 * naive datetime `datetime.fromtimestamp(os.path.getmtime(path))` (or `None`
 * when either call raises). `timezone.localize` attaches the configured zone
 * name. The provenance of each result and the messages a call prints are made
 * explicit, so that the policy's promises can be stated about them.
 */
module MetadataParser {
  import opened Wrappers
  import opened Calendar
  import opened DateFormat
  import opened Paths

  /** DateTime, DateTimeOriginal, DateTimeDigitized, in priority order. */
  const PhotoExifKeys: seq<int> := [306, 36867, 36868]
  const SupportedImageExts: seq<string> := [".jpg", ".jpeg", ".heic", ".heif", ".png", ".tif", ".tiff"]
  const SupportedRawExts: seq<string> := [".dng", ".raw", ".nef", ".cr2", ".arw"]
  const VideoExifKeys: seq<string> := ["creation_time", "com.apple.quicktime.creationdate"]

  /** The year a container tag holds when the date is really missing. */
  const EpochYear: int := 1970

  /** Which strategy produced a timestamp. */
  datatype Source =
    | ExifTag(tag: int)          // a tag of the image's EXIF block
    | RawThumbnail               // the datetime of a RAW file's embedded thumbnail
    | ContainerTag(key: string)  // a format tag reported by ffprobe
    | FileTime                   // the file's modification time

  datatype Resolution = Resolution(at: Stamp, source: Source)

  /** The kinds of message a resolver prints (their text is not modelled). */
  datatype Notice =
    | PhotoExifError     // "Error parsing photo EXIF"
    | RawFallbackFailed  // "RAW fallback did not work"
    | EpochSentinel      // "EXIF holds the year 1970, the date is probably missing"
    | ProbeFailed        // "ffprobe could not read the file, using fallback"
    | VideoExifError     // "error while analysing video EXIF"
    | Video360FileTime   // ".insv file: date taken from the file time"

  /** What a resolver call returns (`None` is Python's None) and what it prints. */
  datatype Resolved = Resolved(value: Option<Resolution>, printed: seq<Notice>)

  /** `Image.open(path).getexif()`: a tag map, or an exception. */
  datatype ImageRead = ImageUnreadable | ImageExif(tags: map<int, string>)

  /** What reading a RAW file's embedded thumbnail yields. */
  datatype RawRead =
    | RawUnreadable                 // rawpy.imread raises
    | ThumbnailError                // extract_thumb raises
    | ThumbnailUndated              // the thumbnail is falsy or has no `datetime`
    | ThumbnailDated(datetime: string)

  /** Running ffprobe and decoding its JSON output. */
  datatype ProbeRead =
    | ProbeExitFailure   // CalledProcessError: non-zero exit status
    | ProbeUnusable      // any other exception: ffprobe missing, output not JSON, ...
    | Probed(tags: Option<map<string, string>>)  // None: no `format` or no `tags` entry

  /** The timestamp the final fallback returns: the localized mtime, if readable. */
  function FileTimeFallback(timezone: string, mtime: Option<DateTime>): (r: Option<Resolution>)
    ensures r.None? <==> mtime.None?
    ensures r.Some? ==> r.value.source == FileTime && r.value.at == Aware(mtime.value, timezone)
  {
    match mtime
    case None => None
    case Some(t) => Some(Resolution(Aware(t, timezone), FileTime))
  }

  /** `keys[i]` is the first of `keys` that `m` holds. */
  predicate FirstPresentAt<K, V>(keys: seq<K>, m: map<K, V>, i: int)
  {
    0 <= i < |keys| && keys[i] in m && forall j | 0 <= j < i :: keys[j] !in m
  }

  /** The index of the first key `m` holds, as a for-loop with early return finds it. */
  function FirstPresent<K, V>(keys: seq<K>, m: map<K, V>): (r: Option<nat>)
    ensures r.None? <==> forall i | 0 <= i < |keys| :: keys[i] !in m
    ensures r.Some? ==> FirstPresentAt(keys, m, r.value)
  {
    if keys == [] then None
    else if keys[0] in m then Some(0)
    else match FirstPresent(keys[1..], m)
      case None => None
      case Some(i) => Some(i + 1)
  }

  lemma FirstPresentAtIsUnique<K, V>(keys: seq<K>, m: map<K, V>, i: int, j: int)
    requires FirstPresentAt(keys, m, i) && FirstPresentAt(keys, m, j)
    ensures i == j
  {
  }

  function ExifDate(s: string): Option<DateTime>
  {
    Parse(s, ExifLayout)
  }

  /** `timestamp[:19]` parsed with '%Y-%m-%dT%H:%M:%S'. */
  function VideoTagDate(value: string): Option<DateTime>
  {
    Parse(value[..if |value| < Width then |value| else Width], IsoLayout)
  }

  /** The key is present and its value parses to a year other than 1970. */
  predicate UsableVideoTag(tags: map<string, string>, key: string)
  {
    key in tags && VideoTagDate(tags[key]).Some? && VideoTagDate(tags[key]).value.year != EpochYear
  }

  /** The key is present and its value parses to the year 1970. */
  predicate SentinelVideoTag(tags: map<string, string>, key: string)
  {
    key in tags && VideoTagDate(tags[key]).Some? && VideoTagDate(tags[key]).value.year == EpochYear
  }

  datatype VideoHit = VideoHit(index: nat, at: DateTime)
  datatype TagScan = TagScan(hit: Option<VideoHit>, printed: seq<Notice>)

  /** The index the scan stopped at: its hit, or the end of the key list. */
  function Examined(scan: TagScan, keys: seq<string>): int
  {
    if scan.hit.Some? then scan.hit.value.index else |keys|
  }

  /**
   * The loop over the video keys: a present key whose value parses to a year
   * other than 1970 wins; a present key that fails to parse, or parses to
   * 1970 (with a warning unless suppressed), is skipped for the next one.
   */
  function ScanVideoTags(keys: seq<string>, tags: map<string, string>, suppress: bool): (r: TagScan)
    ensures r.hit.None? <==> forall i | 0 <= i < |keys| :: !UsableVideoTag(tags, keys[i])
    ensures r.hit.Some? ==>
      r.hit.value.index < |keys| && UsableVideoTag(tags, keys[r.hit.value.index]) &&
      VideoTagDate(tags[keys[r.hit.value.index]]) == Some(r.hit.value.at) &&
      r.hit.value.at.year != EpochYear &&
      forall j | 0 <= j < r.hit.value.index :: !UsableVideoTag(tags, keys[j])
    ensures suppress ==> r.printed == []
    ensures forall n | n in r.printed :: n == EpochSentinel
    ensures !suppress ==>
      (r.printed != [] <==> exists j | 0 <= j < Examined(r, keys) :: SentinelVideoTag(tags, keys[j]))
  {
    if keys == [] then TagScan(None, [])
    else
      var rest := ScanVideoTags(keys[1..], tags, suppress);
      var later := TagScan(if rest.hit.None? then None else Some(VideoHit(rest.hit.value.index + 1, rest.hit.value.at)), rest.printed);
      if keys[0] !in tags then later
      else match VideoTagDate(tags[keys[0]])
        case None => later
        case Some(dt) =>
          if dt.year == EpochYear then
            TagScan(later.hit, (if suppress then [] else [EpochSentinel]) + later.printed)
          else TagScan(Some(VideoHit(0, dt)), [])
  }

  /**
   * The standard-image branch of `get_photo_exif`: the first tag of
   * PhotoExifKeys the image holds decides; if it is malformed the ValueError
   * escapes the loop to the outer handler and the later tags are not tried.
   */
  function ImageBranch(timezone: string, image: ImageRead, mtime: Option<DateTime>): (r: Resolved)
    ensures r.value.Some? && r.value.value.source.ExifTag? <==>
      image.ImageExif? &&
      exists i :: FirstPresentAt(PhotoExifKeys, image.tags, i) && ExifDate(image.tags[PhotoExifKeys[i]]).Some?
    ensures r.value.Some? && r.value.value.source.ExifTag? ==>
      exists i :: FirstPresentAt(PhotoExifKeys, image.tags, i) && PhotoExifKeys[i] == r.value.value.source.tag &&
        ExifDate(image.tags[PhotoExifKeys[i]]) == Some(r.value.value.at.local) &&
        r.value.value.at == Aware(r.value.value.at.local, timezone)
    ensures !(r.value.Some? && r.value.value.source.ExifTag?) ==> r.value == FileTimeFallback(timezone, mtime)
    ensures r.printed != [] <==>
      image.ImageUnreadable? ||
      exists i :: FirstPresentAt(PhotoExifKeys, image.tags, i) && ExifDate(image.tags[PhotoExifKeys[i]]).None?
  {
    match image
    case ImageUnreadable => Resolved(FileTimeFallback(timezone, mtime), [PhotoExifError])
    case ImageExif(tags) =>
      match FirstPresent(PhotoExifKeys, tags)
      case None => Resolved(FileTimeFallback(timezone, mtime), [])
      case Some(i) =>
        assert forall j :: FirstPresentAt(PhotoExifKeys, tags, j) ==> j == i by {
          forall j | FirstPresentAt(PhotoExifKeys, tags, j) { FirstPresentAtIsUnique(PhotoExifKeys, tags, i, j); }
        }
        match ExifDate(tags[PhotoExifKeys[i]])
        case Some(dt) => Resolved(Some(Resolution(Aware(dt, timezone), ExifTag(PhotoExifKeys[i]))), [])
        case None => Resolved(FileTimeFallback(timezone, mtime), [PhotoExifError])
  }

  /**
   * The RAW branch of `get_photo_exif`: the embedded thumbnail's datetime,
   * parsed with the EXIF format; every failure falls through to the mtime.
   */
  function RawBranch(timezone: string, raw: RawRead, mtime: Option<DateTime>): (r: Resolved)
    ensures r.value.Some? && r.value.value.source == RawThumbnail <==>
      raw.ThumbnailDated? && ExifDate(raw.datetime).Some?
    ensures r.value.Some? && r.value.value.source == RawThumbnail ==>
      r.value.value.at == Aware(ExifDate(raw.datetime).value, timezone)
    ensures r.value.Some? && r.value.value.source != RawThumbnail ==> r.value == FileTimeFallback(timezone, mtime)
    ensures r.value.None? ==> r.value == FileTimeFallback(timezone, mtime)
    ensures r.printed == [] <==> raw.ThumbnailUndated? || (raw.ThumbnailDated? && ExifDate(raw.datetime).Some?)
  {
    match raw
    case RawUnreadable => Resolved(FileTimeFallback(timezone, mtime), [PhotoExifError])
    case ThumbnailError => Resolved(FileTimeFallback(timezone, mtime), [RawFallbackFailed])
    case ThumbnailUndated => Resolved(FileTimeFallback(timezone, mtime), [])
    case ThumbnailDated(s) =>
      match ExifDate(s)
      case Some(dt) => Resolved(Some(Resolution(Aware(dt, timezone), RawThumbnail)), [])
      case None => Resolved(FileTimeFallback(timezone, mtime), [RawFallbackFailed])
  }

  /** The photo strategy a (lower-cased) extension selects. */
  datatype PhotoRoute = StandardImage | RawImage | NotAPhoto

  function PhotoRouteOf(extension: string): (route: PhotoRoute)
    ensures route == StandardImage <==> extension in SupportedImageExts
    ensures route == RawImage <==> extension in SupportedRawExts
  {
    if extension in SupportedImageExts then StandardImage
    else if extension in SupportedRawExts then RawImage
    else NotAPhoto
  }

  /**
   * `get_photo_exif`: the lower-cased extension selects the image branch, the
   * RAW branch, or neither; whatever the branch does not resolve ends in the
   * localized mtime, and `None` only when the mtime cannot be read.
   */
  function GetPhotoExif(timezone: string, filePath: string, image: ImageRead, raw: RawRead,
                        mtime: Option<DateTime>): (r: Resolved)
    ensures r.value.None? ==> mtime.None?
    ensures r.value.Some? && r.value.value.source == FileTime ==>
      mtime.Some? && r.value.value.at == Aware(mtime.value, timezone)
    ensures r.value.Some? && r.value.value.source != FileTime ==>
      r.value.value.at == Aware(r.value.value.at.local, timezone) && ValidDateTime(r.value.value.at.local)
    ensures r.value.Some? && r.value.value.source.ExifTag? ==>
      PhotoRouteOf(Lower(Extension(filePath))) == StandardImage
    ensures r.value.Some? && r.value.value.source == RawThumbnail ==>
      PhotoRouteOf(Lower(Extension(filePath))) == RawImage
    ensures r.value.Some? ==> !r.value.value.source.ContainerTag?
    ensures PhotoRouteOf(Lower(Extension(filePath))) == StandardImage ==> r == ImageBranch(timezone, image, mtime)
    ensures PhotoRouteOf(Lower(Extension(filePath))) == RawImage ==> r == RawBranch(timezone, raw, mtime)
    ensures PhotoRouteOf(Lower(Extension(filePath))) == NotAPhoto ==>
      r.value == FileTimeFallback(timezone, mtime) && r.printed == []
  {
    match PhotoRouteOf(Lower(Extension(filePath)))
    case StandardImage => ImageBranch(timezone, image, mtime)
    case RawImage => RawBranch(timezone, raw, mtime)
    case NotAPhoto => Resolved(FileTimeFallback(timezone, mtime), [])
  }

  /**
   * `get_video_exif`: the container tags ffprobe reports, scanned in the
   * order of VideoExifKeys; a failed probe or missing tags go straight to the
   * localized mtime. `suppress` silences the messages and nothing else.
   */
  function GetVideoExif(timezone: string, probe: ProbeRead, mtime: Option<DateTime>, suppress: bool): (r: Resolved)
    ensures r.value.None? ==> mtime.None?
    ensures r.value.Some? ==> r.value.value.source.ContainerTag? || r.value.value.source == FileTime
    ensures r.value.Some? && r.value.value.source == FileTime ==>
      mtime.Some? && r.value.value.at == Aware(mtime.value, timezone)
    ensures r.value.Some? && r.value.value.source.ContainerTag? ==>
      probe.Probed? && probe.tags.Some? &&
      exists i | 0 <= i < |VideoExifKeys| ::
        VideoExifKeys[i] == r.value.value.source.key &&
        UsableVideoTag(probe.tags.value, VideoExifKeys[i]) &&
        VideoTagDate(probe.tags.value[VideoExifKeys[i]]) == Some(r.value.value.at.local) &&
        r.value.value.at == Aware(r.value.value.at.local, timezone) &&
        forall j | 0 <= j < i :: !UsableVideoTag(probe.tags.value, VideoExifKeys[j])
    ensures r.value.Some? && r.value.value.source.ContainerTag? ==> r.value.value.at.local.year != EpochYear
    ensures (r.value.Some? && r.value.value.source.ContainerTag?) <==>
      probe.Probed? && probe.tags.Some? &&
      exists i | 0 <= i < |VideoExifKeys| :: UsableVideoTag(probe.tags.value, VideoExifKeys[i])
    ensures suppress ==> r.printed == []
  {
    match probe
    case ProbeExitFailure => Resolved(FileTimeFallback(timezone, mtime), if suppress then [] else [ProbeFailed])
    case ProbeUnusable => Resolved(FileTimeFallback(timezone, mtime), if suppress then [] else [VideoExifError])
    case Probed(None) => Resolved(FileTimeFallback(timezone, mtime), [])
    case Probed(Some(tags)) =>
      var scan := ScanVideoTags(VideoExifKeys, tags, suppress);
      match scan.hit
      case Some(h) => Resolved(Some(Resolution(Aware(h.at, timezone), ContainerTag(VideoExifKeys[h.index]))), scan.printed)
      case None => Resolved(FileTimeFallback(timezone, mtime), scan.printed)
  }

  /**
   * `get_video360_exif` as written: the video path with messages suppressed;
   * only when it returns None is the mtime read a second time (`mtimeRetry`),
   * with an informational message.
   */
  function GetVideo360Exif(timezone: string, probe: ProbeRead, mtime: Option<DateTime>,
                           mtimeRetry: Option<DateTime>): (r: Resolved)
    ensures GetVideoExif(timezone, probe, mtime, true).value.Some? ==>
      r.value == GetVideoExif(timezone, probe, mtime, true).value && r.printed == []
    ensures r.value.None? ==> mtime.None? && mtimeRetry.None?
    ensures GetVideoExif(timezone, probe, mtime, true).value.None? ==> r.value == FileTimeFallback(timezone, mtimeRetry)
    ensures r.printed != [] ==> r.printed == [Video360FileTime] && mtime.None? && mtimeRetry.Some?
    ensures r.printed == [Video360FileTime] <==>
      GetVideoExif(timezone, probe, mtime, true).value.None? && mtimeRetry.Some?
  {
    var result := GetVideoExif(timezone, probe, mtime, true);
    if result.value.Some? then result
    else match mtimeRetry
      case Some(t) => Resolved(Some(Resolution(Aware(t, timezone), FileTime)), [Video360FileTime])
      case None => Resolved(None, [])
  }

  /**
   * `get_video360_exif` as evidently intended: the same value, with the
   * informational message printed exactly when the date is the file time.
   */
  function GetVideo360ExifReported(timezone: string, probe: ProbeRead, mtime: Option<DateTime>): (r: Resolved)
    ensures r.value == GetVideoExif(timezone, probe, mtime, false).value
    ensures Video360FileTime in r.printed <==> r.value.Some? && r.value.value.source == FileTime
    ensures forall n | n in r.printed :: n == Video360FileTime
  {
    var result := GetVideoExif(timezone, probe, mtime, true);
    SuppressChangesOnlyPrinting(timezone, probe, mtime);
    if result.value.Some? && result.value.value.source == FileTime then Resolved(result.value, [Video360FileTime])
    else result
  }

  /** `suppress_errors` changes what is printed, never the value returned. */
  lemma SuppressChangesOnlyPrinting(timezone: string, probe: ProbeRead, mtime: Option<DateTime>)
    ensures GetVideoExif(timezone, probe, mtime, true).value == GetVideoExif(timezone, probe, mtime, false).value
    ensures GetVideoExif(timezone, probe, mtime, true).printed == []
  {
  }

  /**
   * With a modification time that reads the same both times, the 360-degree
   * resolver returns exactly what the video resolver returns.
   */
  lemma Video360AgreesWithVideo(timezone: string, probe: ProbeRead, mtime: Option<DateTime>)
    ensures GetVideo360Exif(timezone, probe, mtime, mtime).value == GetVideoExif(timezone, probe, mtime, false).value
    ensures GetVideo360Exif(timezone, probe, mtime, mtime).value == GetVideo360ExifReported(timezone, probe, mtime).value
  {
    SuppressChangesOnlyPrinting(timezone, probe, mtime);
  }

  /**
   * As written, the ".insv: date taken from the file time" message is printed
   * only if the modification time became readable between the two reads: with
   * a stable file it is never printed, even when the date is the file time.
   */
  lemma Video360FileTimeNoticeUnreachable(timezone: string, probe: ProbeRead, mtime: Option<DateTime>)
    ensures Video360FileTime !in GetVideo360Exif(timezone, probe, mtime, mtime).printed
  {
  }

  /** The input that shows it: an .insv file without container tags. */
  lemma Video360FileTimeNoticeMissing(timezone: string, t: DateTime)
    ensures GetVideo360Exif(timezone, Probed(None), Some(t), Some(t)) ==
      Resolved(Some(Resolution(Aware(t, timezone), FileTime)), [])
    ensures GetVideo360ExifReported(timezone, Probed(None), Some(t)).printed == [Video360FileTime]
  {
  }

  /** A tag value that parses to 1970 is never the answer, even if it is the only one. */
  lemma EpochTagFallsBack(timezone: string, tags: map<string, string>, mtime: Option<DateTime>, suppress: bool)
    requires forall i | 0 <= i < |VideoExifKeys| :: VideoExifKeys[i] in tags ==> SentinelVideoTag(tags, VideoExifKeys[i])
    ensures GetVideoExif(timezone, Probed(Some(tags)), mtime, suppress).value == FileTimeFallback(timezone, mtime)
    ensures !suppress && (exists i | 0 <= i < |VideoExifKeys| :: VideoExifKeys[i] in tags) ==>
      EpochSentinel in GetVideoExif(timezone, Probed(Some(tags)), mtime, suppress).printed
    ensures suppress || (forall i | 0 <= i < |VideoExifKeys| :: VideoExifKeys[i] !in tags) ==>
      GetVideoExif(timezone, Probed(Some(tags)), mtime, suppress).printed == []
  {
    var scan := ScanVideoTags(VideoExifKeys, tags, suppress);
    if !suppress && exists i | 0 <= i < |VideoExifKeys| :: VideoExifKeys[i] in tags {
      var i :| 0 <= i < |VideoExifKeys| && VideoExifKeys[i] in tags;
      assert SentinelVideoTag(tags, VideoExifKeys[i]);
      assert scan.hit.None? && Examined(scan, VideoExifKeys) == 2;
      assert GetVideoExif(timezone, Probed(Some(tags)), mtime, suppress).printed == scan.printed;
      assert scan.printed != [] && scan.printed[0] in scan.printed;
    }
  }

  /** Only the first 19 characters are parsed, so fractional seconds and a zone suffix are ignored. */
  lemma TrailingCharactersIgnored(d: DateTime, suffix: string)
    requires ValidDateTime(d)
    ensures VideoTagDate(Format(d, IsoLayout) + suffix) == Some(d)
  {
    FormatSlices(d, IsoLayout);
    var v := Format(d, IsoLayout) + suffix;
    assert v[..Width] == Format(d, IsoLayout);
    FormatThenParse(d, IsoLayout);
  }

  /** A malformed first tag ends the search: the later tags are not consulted. */
  lemma MalformedFirstTagFallsBack(timezone: string, filePath: string, tags: map<int, string>,
                                   raw: RawRead, mtime: Option<DateTime>)
    requires Lower(Extension(filePath)) in SupportedImageExts
    requires 306 in tags && ExifDate(tags[306]).None?
    ensures GetPhotoExif(timezone, filePath, ImageExif(tags), raw, mtime) ==
      Resolved(FileTimeFallback(timezone, mtime), [PhotoExifError])
  {
    assert FirstPresentAt(PhotoExifKeys, tags, 0);
  }

  /** A photo whose extension is in neither list is resolved by its mtime alone. */
  lemma UnsupportedPhotoUsesFileTime(timezone: string, filePath: string, image: ImageRead,
                                     raw: RawRead, mtime: Option<DateTime>)
    requires Lower(Extension(filePath)) !in SupportedImageExts + SupportedRawExts
    ensures GetPhotoExif(timezone, filePath, image, raw, mtime) == Resolved(FileTimeFallback(timezone, mtime), [])
  {
  }

  lemma JpgIsStandardImage()
    ensures PhotoRouteOf(Lower(Extension("a.jpg"))) == StandardImage
  {
    assert LastIndexOf("a.jpg", '/') == -1;
    assert "a.jpg"[1] == '.' && "a.jpg"[2..] == "jpg";
    assert LastIndexOf("a.jpg", '.') == 1;
    assert "a.jpg"[0] != '.' && "a.jpg"[1..] == ".jpg";
    assert Extension("a.jpg") == ".jpg";
    assert Lower(".jpg") == ".jpg";
  }

  lemma DateTimeOriginalHit(timezone: string, mtime: Option<DateTime>)
    ensures ImageBranch(timezone, ImageExif(map[36867 := "2023:05:01 14:30:00"]), mtime).value ==
      Some(Resolution(Aware(DateTime(2023, 5, 1, 14, 30, 0), timezone), ExifTag(36867)))
  {
    var d := DateTime(2023, 5, 1, 14, 30, 0);
    assert Format(d, ExifLayout) == "2023:05:01 14:30:00";
    FormatThenParse(d, ExifLayout);
    assert FirstPresentAt(PhotoExifKeys, map[36867 := "2023:05:01 14:30:00"], 1);
  }

  /** "a.jpg" with DateTimeOriginal "2023:05:01 14:30:00", zone Europe/Moscow. */
  lemma MoscowPhotoScenario(raw: RawRead, mtime: Option<DateTime>)
    ensures GetPhotoExif("Europe/Moscow", "a.jpg", ImageExif(map[36867 := "2023:05:01 14:30:00"]), raw, mtime).value ==
      Some(Resolution(Aware(DateTime(2023, 5, 1, 14, 30, 0), "Europe/Moscow"), ExifTag(36867)))
  {
    JpgIsStandardImage();
    DateTimeOriginalHit("Europe/Moscow", mtime);
  }

  /** "b.mp4" whose `creation_time` is "1970-01-01T00:00:00.000000Z" gets its mtime. */
  lemma EpochVideoScenario(timezone: string, mtime: Option<DateTime>)
    ensures GetVideoExif(timezone, Probed(Some(map["creation_time" := "1970-01-01T00:00:00.000000Z"])), mtime, false).value ==
      FileTimeFallback(timezone, mtime)
  {
    var d := DateTime(1970, 1, 1, 0, 0, 0);
    assert Format(d, IsoLayout) == "1970-01-01T00:00:00";
    assert "1970-01-01T00:00:00.000000Z" == Format(d, IsoLayout) + ".000000Z";
    TrailingCharactersIgnored(d, ".000000Z");
    EpochTagFallsBack(timezone, map["creation_time" := "1970-01-01T00:00:00.000000Z"], mtime, false);
  }

  /** An unreadable RAW file "c.dng" gets its mtime, and no exception escapes. */
  lemma UnreadableRawScenario(timezone: string, image: ImageRead, mtime: Option<DateTime>)
    ensures GetPhotoExif(timezone, "c.dng", image, RawUnreadable, mtime) ==
      Resolved(FileTimeFallback(timezone, mtime), [PhotoExifError])
  {
    assert LastIndexOf("c.dng", '/') == -1;
    assert "c.dng"[1] == '.' && "c.dng"[2..] == "dng";
    assert LastIndexOf("c.dng", '.') == 1;
    assert "c.dng"[0] != '.' && "c.dng"[1..] == ".dng";
    assert Extension("c.dng") == ".dng";
    assert Lower(".dng") == ".dng";
  }
}
