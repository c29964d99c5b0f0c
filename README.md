# MetaData-Parser: timestamp resolution, modelled in Dafny

This project models the core of MetaData-Parser. That core is `MetaDataParser`, the policy that picks one
"creation timestamp" for a media file. It also models the batch driver `run_autotest`, which applies that
policy to every file of a samples directory.

For each file the resolver runs a fixed chain of strategies and returns the first one that works:

- **Standard images** (`.jpg`, `.jpeg`, `.heic`, `.heif`, `.png`, `.tif`, `.tiff`): the EXIF tags 306, 36867
  and 36868 are tried in that order. These are DateTime from TIFF 6.0 section 8, then DateTimeOriginal and
  DateTimeDigitized from Exif 2.3 section 4.6.5. The first tag present decides. If that tag is malformed,
  the resolver falls back at once and the later tags are never tried.
- **RAW images** (`.dng`, `.raw`, `.nef`, `.cr2`, `.arw`): the datetime of the embedded thumbnail is used.
- **Videos**: ffprobe's container tags `creation_time` and `com.apple.quicktime.creationdate` are tried in
  that order. Only the first 19 characters of a value are parsed. A value that does not parse, or that parses
  to the year 1970, is skipped and the next key is tried.
- **360-degree videos**: the video chain runs with its messages suppressed.

Every chain ends with the file's modification time (mtime), localized to the configured zone. After that
comes `None`.

The libraries are replaced by what they yield for the file at hand:

- the EXIF map, or the failure to open the image;
- the outcome of reading the RAW thumbnail;
- the outcome of running ffprobe;
- the mtime as `datetime.fromtimestamp` gives it, or `None` when that read raises.

The configured timezone is a parameter. Localizing attaches the zone name to the naive fields.

Each result carries its provenance: an EXIF tag, the RAW thumbnail, a container tag, or the file time. Each
call also lists the kinds of message it prints. With both made explicit, the policy's promises can be stated
as contracts.

Modules:

- `Calendar`: naive and aware datetimes, and the ranges Python's `datetime` accepts.
- `DateFormat`: the two strptime formats, their formatters and round trips.
- `Paths`: `os.path.splitext` and `str.lower`.
- `MetadataParser`: the three resolvers and their properties.
- `Autotest`: the driver loop, as a method proved against the function `ExpectedRows`.

Two details of the source are worth knowing:

- The `.insv` resolver's informational message (metadata_parser.py:110,113) announces a fallback to the file
  time. With a stable mtime the code never reaches it, because `get_video_exif` has already returned the
  localized mtime (see Findings).
- The driver's own fallback (autotest.py:78) stores a naive `fromtimestamp` value, so `Autotest.Row` dates
  can be `Naive`. The lemma `Autotest.ParserRowsAreResolved` shows that this branch never fills a row when
  the parser's own resolvers are used.

## Model

| member | source | states |
|---|---|---|
| `DateFormat.Parse` | metadata_parser.py:36 | strptime with `'%Y:%m:%d %H:%M:%S'` or `'%Y-%m-%dT%H:%M:%S'` succeeds only on a 19-character string, and only with a calendar-valid datetime (month, day within the month including leap years, hour, minute, second) |
| `DateFormat.FormatThenParse` | metadata_parser.py:36 | every valid datetime, rendered in either format, parses back to itself |
| `DateFormat.ParseThenFormat` | metadata_parser.py:77 | whatever parses is exactly the rendering of its result, except at the date/time separator (any whitespace for the blank; `T` or `t`) |
| `DateFormat.RenderingParses` | metadata_parser.py:45 | the converse: a string that matches the rendering of a valid datetime, with an accepted separator, parses to that datetime |
| `Paths.Extension` | metadata_parser.py:28 | `os.path.splitext(p)[1]` is empty exactly when every `.` of the last path component has only dots before it within that component; otherwise it is the suffix of `p` from its last `.`, which holds no `/` and no other `.` |
| `Paths.Lower` | metadata_parser.py:28 | lower-casing keeps the length and maps each character on its own |
| `Paths.ExtensionIgnoresDirectory` | autotest.py:42-43 | joining a listed name to the samples directory leaves its extension unchanged, so the driver and the resolver see the same extension |
| `MetadataParser.FileTimeFallback` | metadata_parser.py:53-57 | the fallback is `None` exactly when the mtime cannot be read; otherwise it is the localized mtime, marked as file time |
| `MetadataParser.FirstPresent` | metadata_parser.py:34-35 | the key loop stops at the first key the map holds; it finds none only if the map holds no key of the list |
| `MetadataParser.ImageBranch` | metadata_parser.py:31-37 | an EXIF hit happens exactly when the first present tag parses; the hit comes from that tag; otherwise the result is the mtime fallback; a message is printed exactly when the image is unreadable or its first present tag is malformed |
| `MetadataParser.RawBranch` | metadata_parser.py:39-48 | the thumbnail's datetime is returned exactly when it exists and parses; every other outcome is the mtime fallback; the only silent failure is a thumbnail with no datetime |
| `MetadataParser.PhotoRouteOf` | metadata_parser.py:31-39 | the lower-cased extension selects the image branch exactly for the image list and the RAW branch exactly for the RAW list |
| `MetadataParser.GetPhotoExif` | metadata_parser.py:27-57 | `None` only when the mtime is unreadable; a file-time result is the localized mtime; a metadata result is valid and in the configured zone; an image extension gives exactly the image branch's result and a RAW extension exactly the RAW branch's result; any other extension gives the silent mtime fallback |
| `MetadataParser.MalformedFirstTagFallsBack` | metadata_parser.py:34-55 | a malformed DateTime (306) ends the search with the mtime fallback and an error message, whatever tags 36867 and 36868 hold |
| `MetadataParser.UnsupportedPhotoUsesFileTime` | metadata_parser.py:28-55 | an extension in neither list goes straight to the mtime fallback and prints nothing |
| `MetadataParser.ScanVideoTags` | metadata_parser.py:73-88 | the key scan returns the first key whose value parses to a year other than 1970, or nothing if no such key exists; its date is never in 1970; a suppressed scan prints nothing; otherwise it warns exactly when a 1970 value came before the stopping point |
| `MetadataParser.GetVideoExif` | metadata_parser.py:59-102 | `None` only when the mtime is unreadable; a container-tag result exists exactly when the probe succeeded with tags and some key is usable; it then comes from the first usable key in key order, is parsed from the first 19 characters, is localized, and never has year 1970; a probe failure or missing tags give the mtime fallback; with `suppress_errors` nothing is printed |
| `MetadataParser.SuppressChangesOnlyPrinting` | metadata_parser.py:80-96 | `suppress_errors` never changes the returned value; with it, the video resolver prints nothing |
| `MetadataParser.EpochTagFallsBack` | metadata_parser.py:79-88 | if every present key holds a 1970 date, the result is the mtime fallback; without suppression a warning is printed as soon as some key is present; with suppression, or with no key present, nothing is printed |
| `MetadataParser.TrailingCharactersIgnored` | metadata_parser.py:77 | anything after the 19th character (such as `.000000Z`) does not affect the parsed date |
| `MetadataParser.GetVideo360Exif` | metadata_parser.py:104-116 | when the suppressed video resolver returns a value, that value is returned and nothing is printed; otherwise the result is the localized second mtime read, or `None`; the informational message is printed exactly when the first mtime read failed and the second succeeded |
| `MetadataParser.Video360AgreesWithVideo` | metadata_parser.py:106-108 | with an mtime that reads the same twice, the 360-degree resolver returns what the video resolver returns |
| `MetadataParser.Video360FileTimeNoticeUnreachable` | metadata_parser.py:111-114 | as written, with a stable mtime, the informational file-time message is never printed |
| `MetadataParser.Video360FileTimeNoticeMissing` | metadata_parser.py:104-116 | an `.insv` file without container tags gets its file time and no message; the corrected resolver prints the message |
| `MetadataParser.GetVideo360ExifReported` | metadata_parser.py:104-116 | corrected resolver: returns the video resolver's value, and prints the informational message exactly when that value is the file time |
| `MetadataParser.MoscowPhotoScenario` | metadata_parser.py:27-37 | `a.jpg` with DateTimeOriginal `2023:05:01 14:30:00` in zone Europe/Moscow gives 2023-05-01 14:30:00 in that zone, from tag 36867 |
| `MetadataParser.EpochVideoScenario` | metadata_parser.py:73-102 | a video whose `creation_time` is `1970-01-01T00:00:00.000000Z` gets the mtime fallback |
| `MetadataParser.UnreadableRawScenario` | metadata_parser.py:39-55 | an unreadable `c.dng` gets the mtime fallback, with the error message and no exception |
| `Autotest.KindOf` | autotest.py:54-70 | the dispatch picks Photo, Video or Video360 exactly for the members of the matching extension list |
| `Autotest.ExtensionListsAreDisjoint` | autotest.py:7-9 | the three extension lists are pairwise disjoint |
| `Autotest.PhotoExtsArePhotoRoutes` | autotest.py:7 | the driver's photo list is exactly the resolver's image list plus its RAW list |
| `Autotest.PhotoDispatchReachesMetadata` | autotest.py:42-55 | a listed name sent to the photo resolver always reaches a metadata branch there |
| `Autotest.RowFor` | autotest.py:44-94 | an unsupported name gives no row; otherwise the row carries the name; its type is "Unknown" exactly when the resolver raised, and then the date is None and the method "None"; otherwise type and method follow the kind, and a non-`None` resolver value is the date; a `None` value is replaced by the raw naive mtime, or stays `None` when that read raises too |
| `Autotest.AnalyseFile` | autotest.py:42-94 | one pass of the loop body produces the row `RowFor` describes, or none where it `continue`s |
| `Autotest.RunAutotest` | autotest.py:18-94 | a missing or empty samples directory returns before any file is truncated and gives no rows; otherwise `results` is the per-file rows in listing order |
| `Autotest.RowsFollowListing` | autotest.py:41-94 | exactly the supported files get a row, one each, in listing order, even when a resolver raises |
| `Autotest.ParserRowIsResolved` | autotest.py:54-81 | with the model's own resolvers, a supported file's row is never "Unknown"; it has no date only when the mtime is unreadable; its date is localized to the configured zone |
| `Autotest.ParserRowsAreResolved` | autotest.py:41-94 | the same holds for every row of a run |

## Findings

| source | as written | input that shows it | evidently intended | confidence | as-written member | corrected member |
|---|---|---|---|---|---|---|
| metadata_parser.py:106-116 | `get_video_exif` already falls back to the mtime. So the `.insv` "date taken from the file time" message prints only if the first mtime read failed and the second succeeded. | an `.insv` file with no container tags and a readable mtime: its date is the file time, and nothing is printed | print the message whenever the returned date is the file time | medium; not executed | `MetadataParser.Video360FileTimeNoticeUnreachable` | `MetadataParser.GetVideo360ExifReported` |

The driver-level lemmas use the as-written `MetadataParser.GetVideo360Exif` for `.insv` files. The lemma
`MetadataParser.Video360AgreesWithVideo` proves that the corrected resolver returns the same value, so the
rows are the same with either.

## Left out

- `DateFormat.Parse` covers only strptime's fixed-width form: all digits present, ASCII digits only. Some
  strings strptime also accepts are rejected, such as single-digit fields (`2023:5:1 1:2:3`), a
  space-padded day, several blanks between date and time, and non-ASCII digits.
- `DateFormat.Parse` treats Python's `\s` as the characters `str.isspace()` accepts. It assumes
  `strptime` rejects second 60 or 61, as the `datetime` constructor does.
- `Paths.Lower` lower-cases ASCII letters only. Python's Unicode lower-casing of other letters (for example
  the Kelvin sign to `k`) is not modelled.
- `Paths.Extension` follows POSIX `posixpath.splitext`. Windows path rules are not modelled.
- `MetaDataParser.__init__` is replaced by a timezone parameter. An unknown zone name fails at construction
  in the source; this is not modelled. The ffprobe lookup (`find_ffprobe`, `shutil.which`) affects only
  whether the probe succeeds, so it is folded into the probe outcome.
- `timezone.localize` keeps the zone name. The UTC offset from the zone database is not modelled.
  `datetime.fromtimestamp` is part of the mtime input.
- Image, HEIF, RAW and ffprobe decoding, and `json.loads`, are foreign calls. The model takes their outcomes
  as inputs. Tag maps hold strings only. A non-string value would raise `TypeError` instead of `ValueError`.
  For a video key, that skips the remaining keys.
- In rawpy, `extract_thumb()` returns a thumbnail without a `datetime` attribute, so in practice the RAW
  branch always falls back. The model keeps the branch as the source writes it.
- Printed text is left out: the file's base name and the exception text. Only the kind of each message is
  modelled. Exceptions raised by `print` itself (a console that cannot encode a character) are left out.
- `os.path.exists`, `os.listdir`, and log and CSV writing are I/O. The listing is an input, and the run's
  outcome says whether the directory was analysed. A `samples` path that exists but is not a directory
  (where `listdir` raises) is not modelled.
- `meta_data_parser.py` is a broken duplicate of `metadata_parser.py`: it lacks imports, and its video
  function returns a process handle. It is not part of this model.
- Idempotence of the resolvers is not stated as a lemma: every resolver is a function of its inputs.
