/**
 * The batch driver `run_autotest`: list the samples directory, classify each
 * file name by its lower-cased extension, call the matching resolver and
 * append one row per supported file to `results`.
 *
 * The resolvers and the modification-time lookup are parameters: a `Call`
 * records whether a resolver raised or what it returned. Console output, the
 * log file and the CSV file are not modelled; the run's outcome says whether
 * the directory was analysed (which is when the log and CSV are truncated and
 * rewritten) and with which rows.
 */
module Autotest {
  import opened Wrappers
  import opened Calendar
  import opened Paths
  import MetadataParser

  const PhotoExts: seq<string> :=
    [".jpg", ".jpeg", ".png", ".heic", ".heif", ".tif", ".tiff", ".dng", ".raw", ".nef", ".cr2", ".arw"]
  const VideoExts: seq<string> := [".mp4", ".mov", ".avi", ".mkv", ".webm"]
  const Video360Exts: seq<string> := [".insv"]

  const SamplesDir: string := "samples"
  const UnknownType: string := "Unknown"
  const NoMethod: string := "None"

  /** What calling a resolver does: raise, or return a value (`None` is falsy). */
  datatype Call = Raised | Returned(value: Option<Stamp>)

  /** One entry of `results`: the CSV columns Filename, Type, Date, Method. */
  datatype Row = Row(filename: string, mediaType: string, date: Option<Stamp>, methodUsed: string)

  datatype Run =
    | MissingSamplesDir        // returns before touching the log and the CSV
    | EmptySamplesDir          // likewise
    | Analysed(results: seq<Row>)

  datatype MediaKind = PhotoKind | VideoKind | Video360Kind

  /** `os.path.join(SAMPLES_DIR, name)` for a name `os.listdir` returned. */
  function SamplePath(name: string): string
  {
    SamplesDir + "/" + name
  }

  /** The if/elif chain over the three extension lists. */
  function KindOf(extension: string): (kind: Option<MediaKind>)
    ensures kind == Some(PhotoKind) <==> extension in PhotoExts
    ensures kind == Some(VideoKind) <==> extension in VideoExts
    ensures kind == Some(Video360Kind) <==> extension in Video360Exts
  {
    if extension in PhotoExts then Some(PhotoKind)
    else if extension in VideoExts then Some(VideoKind)
    else if extension in Video360Exts then Some(Video360Kind)
    else None
  }

  function TypeName(kind: MediaKind): string
  {
    match kind
    case PhotoKind => "Photo"
    case VideoKind => "Video"
    case Video360Kind => "Video360"
  }

  function MethodName(kind: MediaKind): string
  {
    match kind
    case PhotoKind => "EXIF/RAW/Fallback"
    case VideoKind | Video360Kind => "FFPROBE/Fallback"
  }

  /** The resolver the file's kind selects, applied to its path. */
  function Invoke(kind: MediaKind, photo: string -> Call, video: string -> Call, video360: string -> Call,
                  path: string): Call
  {
    match kind
    case PhotoKind => photo(path)
    case VideoKind => video(path)
    case Video360Kind => video360(path)
  }

  /** The kind the loop body derives from a listed file name. */
  function NameKind(name: string): Option<MediaKind>
  {
    KindOf(Lower(Extension(name)))
  }

  /** The row one iteration of the loop appends, or `None` when it `continue`s. */
  function RowFor(name: string, photo: string -> Call, video: string -> Call, video360: string -> Call,
                  mtime: string -> Option<DateTime>): (row: Option<Row>)
    ensures row.None? <==> NameKind(name).None?
    ensures row.Some? ==> row.value.filename == name
    ensures row.Some? ==>
      (row.value.mediaType == UnknownType <==> Invoke(NameKind(name).value, photo, video, video360, SamplePath(name)).Raised?)
    ensures row.Some? && row.value.mediaType == UnknownType ==> row.value.date.None? && row.value.methodUsed == NoMethod
    ensures row.Some? && row.value.mediaType != UnknownType ==>
      row.value.mediaType == TypeName(NameKind(name).value) && row.value.methodUsed == MethodName(NameKind(name).value)
    ensures (row.Some? && Invoke(NameKind(name).value, photo, video, video360, SamplePath(name)).Returned? &&
             Invoke(NameKind(name).value, photo, video, video360, SamplePath(name)).value.Some?) ==>
      row.value.date == Invoke(NameKind(name).value, photo, video, video360, SamplePath(name)).value
    ensures row.Some? && Invoke(NameKind(name).value, photo, video, video360, SamplePath(name)) == Returned(None) ==>
      row.value.date == (if mtime(SamplePath(name)).Some? then Some(Naive(mtime(SamplePath(name)).value)) else None)
  {
    match NameKind(name)
    case None => None
    case Some(kind) =>
      var path := SamplePath(name);
      match Invoke(kind, photo, video, video360, path)
      case Raised => Some(Row(name, UnknownType, None, NoMethod))
      case Returned(Some(dt)) => Some(Row(name, TypeName(kind), Some(dt), MethodName(kind)))
      case Returned(None) =>
        var date := match mtime(path) case Some(t) => Some(Naive(t)) case None => None;
        Some(Row(name, TypeName(kind), date, MethodName(kind)))
  }

  function RowsOf(row: Option<Row>): seq<Row>
  {
    match row
    case None => []
    case Some(r) => [r]
  }

  /** The `results` list after the loop has gone through `files`. */
  function ExpectedRows(files: seq<string>, photo: string -> Call, video: string -> Call, video360: string -> Call,
                        mtime: string -> Option<DateTime>): seq<Row>
  {
    if files == [] then []
    else ExpectedRows(files[..|files| - 1], photo, video, video360, mtime) +
         RowsOf(RowFor(files[|files| - 1], photo, video, video360, mtime))
  }

  /** The listed names with a supported extension, in listing order. */
  function SupportedNames(files: seq<string>): (names: seq<string>)
    ensures forall n | n in names :: n in files && NameKind(n).Some?
  {
    if files == [] then []
    else SupportedNames(files[..|files| - 1]) +
         (if NameKind(files[|files| - 1]).Some? then [files[|files| - 1]] else [])
  }

  /**
   * The body of the loop for one listed name: `None` where it `continue`s
   * (unsupported extension), otherwise the row it appends.
   */
  method AnalyseFile(fileName: string, photo: string -> Call, video: string -> Call,
                     video360: string -> Call, mtime: string -> Option<DateTime>) returns (row: Option<Row>)
    ensures row == RowFor(fileName, photo, video, video360, mtime)
  {
    var filePath := SamplePath(fileName);
    var extension := Lower(Extension(fileName));
    var dt: Option<Stamp> := None;
    var mediaType := UnknownType;
    var methodUsed := NoMethod;
    var call: Call;
    if extension in PhotoExts {
      call := photo(filePath);
      if call.Returned? {
        dt, mediaType, methodUsed := call.value, "Photo", "EXIF/RAW/Fallback";
      }
    } else if extension in VideoExts {
      call := video(filePath);
      if call.Returned? {
        dt, mediaType, methodUsed := call.value, "Video", "FFPROBE/Fallback";
      }
    } else if extension in Video360Exts {
      call := video360(filePath);
      if call.Returned? {
        dt, mediaType, methodUsed := call.value, "Video360", "FFPROBE/Fallback";
      }
    } else {
      return None;
    }
    // A falsy result is replaced by the raw mtime; if that read raises too,
    // the row keeps its date None.
    if call.Returned? && dt.None? {
      var fallback := mtime(filePath);
      if fallback.Some? {
        dt := Some(Naive(fallback.value));
      }
    }
    row := Some(Row(fileName, mediaType, dt, methodUsed));
  }

  /** `run_autotest`, from the directory listing to the `results` it writes. */
  method RunAutotest(listing: Option<seq<string>>, photo: string -> Call, video: string -> Call,
                     video360: string -> Call, mtime: string -> Option<DateTime>) returns (run: Run)
    ensures listing.None? ==> run == MissingSamplesDir
    ensures listing == Some([]) ==> run == EmptySamplesDir
    ensures listing.Some? && listing.value != [] ==>
      run == Analysed(ExpectedRows(listing.value, photo, video, video360, mtime))
  {
    if listing.None? {
      return MissingSamplesDir;
    }
    var files := listing.value;
    if files == [] {
      return EmptySamplesDir;
    }
    var results: seq<Row> := [];
    for i := 0 to |files|
      invariant results == ExpectedRows(files[..i], photo, video, video360, mtime)
    {
      assert files[..i + 1][..i] == files[..i];
      var row := AnalyseFile(files[i], photo, video, video360, mtime);
      if row.None? {
        continue;
      }
      results := results + [row.value];
    }
    assert files[..|files|] == files;
    run := Analysed(results);
  }

  /** Exactly the supported files get a row, one each, in listing order. */
  lemma {:induction false} RowsFollowListing(files: seq<string>, photo: string -> Call, video: string -> Call,
                                             video360: string -> Call, mtime: string -> Option<DateTime>)
    ensures var rows := ExpectedRows(files, photo, video, video360, mtime);
      |rows| == |SupportedNames(files)| &&
      forall i | 0 <= i < |rows| ::
        Some(rows[i]) == RowFor(SupportedNames(files)[i], photo, video, video360, mtime)
  {
    if files != [] {
      RowsFollowListing(files[..|files| - 1], photo, video, video360, mtime);
    }
  }

  /** The three extension lists do not overlap. */
  lemma ExtensionListsAreDisjoint(e: string)
    ensures !(e in PhotoExts && e in VideoExts)
    ensures !(e in PhotoExts && e in Video360Exts)
    ensures !(e in VideoExts && e in Video360Exts)
  {
  }

  /**
   * Every extension the driver treats as a photo is one the photo resolver
   * reads metadata for, as a standard image or as a RAW file.
   */
  lemma PhotoExtsArePhotoRoutes(e: string)
    ensures e in PhotoExts <==> MetadataParser.PhotoRouteOf(e) != MetadataParser.NotAPhoto
  {
  }

  /**
   * A listed name the driver sends to the photo resolver reaches one of that
   * resolver's metadata branches: the resolver takes the extension of the
   * joined path, which is the name's own.
   */
  lemma PhotoDispatchReachesMetadata(name: string)
    requires forall k | 0 <= k < |name| :: name[k] != '/'
    requires NameKind(name) == Some(PhotoKind)
    ensures MetadataParser.PhotoRouteOf(Lower(Extension(SamplePath(name)))) != MetadataParser.NotAPhoto
  {
    ExtensionIgnoresDirectory(SamplesDir, name);
    PhotoExtsArePhotoRoutes(Lower(Extension(name)));
  }

  /** What the libraries yield for a file: the inputs of the three resolvers. */
  datatype FileFacts = FileFacts(image: MetadataParser.ImageRead, raw: MetadataParser.RawRead,
                                 probe: MetadataParser.ProbeRead, mtime: Option<DateTime>)

  /** A resolver of MetadataParser seen from the driver: it never raises. */
  function Returns(r: MetadataParser.Resolved): Call
  {
    Returned(if r.value.Some? then Some(r.value.value.at) else None)
  }

  function ParserPhoto(timezone: string, facts: string -> FileFacts): string -> Call
  {
    path => Returns(MetadataParser.GetPhotoExif(timezone, path, facts(path).image, facts(path).raw, facts(path).mtime))
  }

  function ParserVideo(timezone: string, facts: string -> FileFacts): string -> Call
  {
    path => Returns(MetadataParser.GetVideoExif(timezone, facts(path).probe, facts(path).mtime, false))
  }

  function ParserVideo360(timezone: string, facts: string -> FileFacts): string -> Call
  {
    path => Returns(MetadataParser.GetVideo360Exif(timezone, facts(path).probe, facts(path).mtime, facts(path).mtime))
  }

  function FileMtime(facts: string -> FileFacts): string -> Option<DateTime>
  {
    path => facts(path).mtime
  }

  /** A resolver that never raises gives the driver a date it keeps as it is, or None. */
  predicate ResolvedRow(timezone: string, facts: string -> FileFacts, row: Row)
  {
    row.mediaType != UnknownType &&
    (row.date.None? ==> facts(SamplePath(row.filename)).mtime.None?) &&
    (row.date.Some? ==> row.date.value == Aware(row.date.value.local, timezone))
  }

  lemma ParserRowIsResolved(timezone: string, facts: string -> FileFacts, name: string)
    requires NameKind(name).Some?
    ensures ResolvedRow(timezone, facts, RowFor(name, ParserPhoto(timezone, facts), ParserVideo(timezone, facts),
                                                ParserVideo360(timezone, facts), FileMtime(facts)).value)
  {
    var path := SamplePath(name);
    var f := facts(path);
    match NameKind(name).value {
      case PhotoKind =>
        var r := MetadataParser.GetPhotoExif(timezone, path, f.image, f.raw, f.mtime);
        assert ParserPhoto(timezone, facts)(path) == Returns(r);
      case VideoKind =>
        var r := MetadataParser.GetVideoExif(timezone, f.probe, f.mtime, false);
        assert ParserVideo(timezone, facts)(path) == Returns(r);
      case Video360Kind =>
        var r := MetadataParser.GetVideo360Exif(timezone, f.probe, f.mtime, f.mtime);
        assert ParserVideo360(timezone, facts)(path) == Returns(r);
    }
  }

  /**
   * With the parser's own resolvers and files whose modification time reads
   * the same each time, no row is "Unknown", a row lacks a date only when its
   * file's mtime is unreadable, and every date is localized to the configured
   * zone: the driver's own naive fallback is never what ends up in a row.
   */
  lemma {:induction false} ParserRowsAreResolved(timezone: string, facts: string -> FileFacts, files: seq<string>)
    ensures forall row | row in ExpectedRows(files, ParserPhoto(timezone, facts), ParserVideo(timezone, facts),
                                             ParserVideo360(timezone, facts), FileMtime(facts)) ::
      ResolvedRow(timezone, facts, row)
  {
    if files != [] {
      ParserRowsAreResolved(timezone, facts, files[..|files| - 1]);
      var name := files[|files| - 1];
      if NameKind(name).Some? {
        ParserRowIsResolved(timezone, facts, name);
      }
    }
  }
}
