# rename-media, modelled in Dafny

`rename-media` renames photographs and videos after the date they were taken.
For every file in one directory it checks the extension against a fixed table,
reads a creation date from the file's metadata (EXIF for images, MediaInfo for
videos), and moves the file to `<prefix><YYYYMMDD>T<HHMMSS><suffix>.<ext>` in
the same directory, never overwriting anything. For each file it yields a
result `(old name, new name, success)`.

The image pipeline (`src/rename_media/image.py`) and the video pipeline
(`src/rename_media/video.py`) are the same code with a different extension
table and date reader. The model is therefore one pipeline parameterised by
`Media = Image | Video`:

| module | file | what it holds |
|---|---|---|
| `Wrappers` | `wrappers.dfy` | `Option` and `Result` |
| `Ascii` | `ascii.dfy` | ASCII `str.lower`/`upper`, digits and Python's `\s` whitespace class |
| `Extensions` | `extensions.dfy` | `SUPPORTED_TYPES_MAPPING`, `is_supported_file_extension`, `normalize_file_extension` |
| `Calendar` | `calendar.dfy` | the naive `datetime` record, its validity rule, and Python's proleptic ordinal turned into seconds |
| `DateText` | `datetext.dfy` | `strptime` for `%Y<sep>%m<sep>%d %H:%M:%S` and `strftime('%Y%m%dT%H%M%S')` |
| `Reconcile` | `reconcile.dfy` | the video pipeline's choice between encoded and modification date |
| `Metadata` | `metadata.dfy` | both `extract_creation_date` functions over the metadata libraries' readings |
| `Files` | `files.dfy` | `FileInformation.instance` (pathlib stem/suffix) and `create_renamed_file_information` |
| `Rename` | `rename.dfy` | `rename_file` on a directory modelled as a map from names to entries |
| `Walker` | `walker.dfy` | `rename_with_date` as a fold over a snapshot of the directory listing |

The directory is a `map<string, Entry>`. An entry is a folder or a file. A file
carries what the EXIF reader and the MediaInfo reader report for it, and
whether the operating system would refuse to move it. The listing that
`iterdir` produces is a sequence naming every entry once. The walk returns the
results it yielded, the directory afterwards, and the error that ended it
early, if any: the date extractors are called outside any `try`, so an error
that escapes them ends the generator.

## Model

| member | source | states |
|---|---|---|
| Extensions.Normalize | src/rename_media/image.py:42-43 | the result is the table's value for the key the extension spells in any letter case; it is a canonical key that maps to itself, non-empty and dot-free |
| Extensions.SupportedIffCaseVariant | src/rename_media/image.py:38-39 | `is_supported_file_extension`: an extension is supported exactly when it is some key of the table with any of its letters upper-cased |
| Extensions.NormalizeIdempotent | src/rename_media/image.py:35 | normalising an already normalised extension gives it back |
| Extensions.NormalizeIgnoresCase | src/rename_media/image.py:42-43 | an upper-cased supported extension is supported and normalises to what the extension does; in particular the upper-cased canonical form normalises to the canonical form |
| Extensions.ImageSupport | tests/test_rename_media/test_image.py:43-50 | jpg, JPG, jpeg, JPEG, png and PNG are supported images; wav, WAV and mp4 are not |
| Extensions.ImageNormalization | tests/test_rename_media/test_image.py:60-63 | jpg, JPG, jpeg and JPEG normalise to jpg; png and PNG to png |
| Extensions.VideoSupport | src/rename_media/video.py:34-43 | a video extension is supported exactly when it is mp4 in any letter case, and it then normalises to mp4 |
| Ascii.LowerOfCaseVariant | src/rename_media/image.py:39 | lower-casing any upper/lower-case spelling of a lower-case word gives the word |
| Ascii.CaseVariantOfLower | src/rename_media/image.py:39 | every word is a case spelling of its lower-cased form |
| Ascii.LowerUpper | src/rename_media/image.py:39 | lower-casing an upper-cased word gives its lower-cased form |
| Calendar.DaysInMonth | src/rename_media/image.py:60 | every month has 28 to 31 days |
| Calendar.YearLength | src/rename_media/video.py:64 | the day count before year y+1 exceeds the one before y by 365 or, in a leap year, 366 |
| Calendar.DaysBeforeYearGrows | src/rename_media/video.py:64 | later years start on later days |
| Calendar.MonthLength | src/rename_media/video.py:64 | each month starts exactly its predecessor's length after it |
| Calendar.DaysBeforeMonthGrows | src/rename_media/video.py:64 | later months of one year start on later days |
| Calendar.OrdinalWithinYear | src/rename_media/video.py:64 | a valid date's day number lies inside its year |
| Calendar.OrdinalMonotonic | src/rename_media/video.py:64 | a date earlier in the calendar has a smaller day number |
| Calendar.ToSecondsMonotonic | src/rename_media/video.py:64 | an earlier timestamp has fewer seconds since the epoch |
| Calendar.ToSecondsInjective | src/rename_media/video.py:60-64 | two timestamps have the same seconds exactly when they are equal, so a zero difference means equal dates |
| DateText.Pad | src/rename_media/image.py:66 | the padded text has exactly the given width, only digits, and denotes the value |
| DateText.DigitRun | src/rename_media/image.py:60 | the leading digit run is all digits and stops at a non-digit or the end |
| DateText.SpaceRun | src/rename_media/image.py:60 | the leading whitespace run is all whitespace and stops at a non-space or the end |
| DateText.Stamp | src/rename_media/image.py:66 | the file-name stamp is always 15 characters |
| DateText.DigitsDetermined | src/rename_media/image.py:66 | digit strings of one width with one value are the same string |
| DateText.LastDigit | src/rename_media/image.py:60 | a digit string's last digit is its value modulo 10 and the rest denotes the value divided by 10 |
| DateText.DigitsValueBound | src/rename_media/image.py:66 | n digits denote less than 10^n |
| DateText.PadOfDigits | src/rename_media/image.py:60-66 | padding a digit string's value back to its width gives the string |
| DateText.DigitRunOf | src/rename_media/image.py:60 | digits followed by a non-digit are exactly the leading run |
| DateText.ScanFieldOf | src/rename_media/image.py:60 | a one- or two-digit field followed by a non-digit is read whole, and accepted exactly when its value is in range |
| DateText.ScanDateOf | src/rename_media/image.py:60 | four year digits, a month of one or two digits and a day of one or two digits or a space and a digit, joined by the separator, are read as their three numbers, month and day checked against their ranges |
| DateText.ScanYearOf | src/rename_media/image.py:60 | four digits followed by a non-digit are read as the year they spell |
| DateText.ScanDayOf | src/rename_media/image.py:60 | one or two digits, or a space and a digit, followed by a non-digit are read as a day exactly when they spell 1 to 31 |
| DateText.ScanClockOf | src/rename_media/image.py:60 | hour, minute and second of one or two digits each, joined by colons, are read as their three numbers, each checked against its range |
| DateText.ParseCanonical | src/rename_media/image.py:60 | text shaped `YYYY:MM:DD HH:MM:SS` parses exactly when its fields form a real date-time, and then to those fields |
| DateText.ParseLenient | src/rename_media/image.py:60 | text with a four-digit year, a month, hour, minute and second of one or two digits, a day of one or two digits or a space and a digit, and any run of whitespace before the clock parses exactly when its fields form a real date-time, and then to those fields; this holds for any non-digit separator, so also for the video reader's `-` dates |
| DateText.ParseShape | src/rename_media/image.py:60 | the converse of `ParseLenient`: text that parses is exactly a four-digit year, the separator (not a digit), a month, the separator, a day, a whitespace run and three one- or two-digit clock fields joined by colons, with nothing before or after, and it parses to those fields' values; so any other text raises `ValueError` |
| DateText.ParsedOpening | src/rename_media/image.py:60 | text that parses opens with exactly four digits and then the separator: a shorter or longer year, or another separator, is rejected |
| DateText.RejectsTrailing | src/rename_media/image.py:60 | a well-formed date-time followed by more text that does not start with a digit is rejected, since strptime leaves no data unconverted |
| DateText.ScanDateShape | src/rename_media/image.py:60 | a date part that scans is a four-digit year, a month and a day joined by a non-digit separator, followed by a non-digit or the end, and scans to their values |
| DateText.ScanClockShape | src/rename_media/image.py:60 | a clock part that scans is three one- or two-digit fields joined by colons, and scans to their values |
| DateText.StampOfCanonical | src/rename_media/image.py:60-66 | parsing well-formed text and formatting the stamp keeps the digits, drops the separators and inserts `T` |
| DateText.RenderIsCanonical | src/rename_media/image.py:60 | a date-time written in the parsed format is well-formed text whose fields are that date-time |
| DateText.ParseRender | src/rename_media/image.py:60 | writing a date-time in the format and parsing it gives it back |
| DateText.StampInjective | src/rename_media/image.py:66 | different date-times get different stamps |
| DateText.StampParts | src/rename_media/image.py:66 | the stamp holds the padded year, month and day, then after the `T` the padded hour, minute and second |
| DateText.SampleParse | tests/test_rename_media/test_image.py:52-54 | `2025:11:09 16:38:56` parses to 2025-11-09 16:38:56 |
| DateText.SampleLenient | src/rename_media/image.py:60 | `2025:1: 9  1:2:3` parses to 2025-01-09 01:02:03 |
| DateText.SampleLenientInvalid | src/rename_media/video.py:50-52 | `2025-2-30 1:2:3` is well-shaped but names no real day, so it does not parse |
| DateText.SampleRender | tests/test_rename_media/test_image.py:52-54 | the sample date written in the EXIF format is `2025:11:09 16:38:56` |
| DateText.PadTwo | src/rename_media/image.py:66 | a value below 100 pads to its tens digit then its units digit |
| DateText.SampleYear | tests/test_rename_media/test_image.py:94 | the year 2025 pads to `2025` |
| DateText.SamplePads | tests/test_rename_media/test_image.py:94 | the sample date's fields pad to 2025, 11, 09, 16, 38, 56 |
| DateText.SampleStamp | tests/test_rename_media/test_image.py:94 | the sample date's stamp is `20251109T163856` |
| Reconcile.WholeHourOffsetsExactly | src/rename_media/video.py:65 | the offsets read as a time-zone shift are exactly the positive whole hours below one day |
| Reconcile.ReconcileDates | src/rename_media/video.py:59-70 | the result is one of the two dates; it is the modification date (and differs from the encoded one) exactly when the dates are a whole number of hours apart, less than a day |
| Reconcile.ReconcileSymmetric | src/rename_media/video.py:64-70 | whether the modification date is chosen does not depend on which date is later |
| Reconcile.ReconcileEqual | src/rename_media/video.py:60-61 | equal dates give the encoded date |
| Reconcile.ReconcileTwoHours | src/rename_media/video.py:64-67 | dates two hours apart give the modification date |
| Reconcile.ReconcileTwentyFiveHours | src/rename_media/video.py:64-70 | dates 25 hours apart give the encoded date |
| Reconcile.ReconcileNinetyMinutes | src/rename_media/video.py:64-70 | dates 90 minutes apart give the encoded date |
| Metadata.ExtractImageDate | src/rename_media/image.py:46-60 | a directory raises `IsADirectoryError`; an unreadable file or one without EXIF gives no date; a missing `DateTime` raises `AttributeError`; a `DateTime` that parses gives that date, and one that does not raises `ValueError` |
| Metadata.ExtractVideoDate | src/rename_media/video.py:45-70 | only an `OSError` escapes; a date exactly when the encoded date is present and the modification text parses, and then the modification date when the two are 1 to 23 whole hours apart, otherwise the encoded date |
| Metadata.MalformedDateSeverity | src/rename_media/video.py:53-57 | the same malformed text aborts the image walk but only means "no date" to the video walk |
| Metadata.ImageDateOfRendered | src/rename_media/image.py:60 | a well-formed EXIF date is returned unchanged |
| Metadata.VideoDateOfRendered | src/rename_media/video.py:59-70 | a video is dated by its modification date when the two dates are whole hours apart within a day, otherwise by its encoded date |
| Files.LastIndexOf | src/rename_media/image.py:25 | the index found holds the character and no later index does; -1 when absent |
| Files.Instance | src/rename_media/image.py:21-25 | a directory is refused; a file keeps its path, gets its parent as directory, no date, a dot-free extension; stem plus `.extension` spell its name, and a non-empty extension comes with a non-empty stem |
| Files.HiddenNameHasNoExtension | src/rename_media/image.py:25 | a name `.<ext>` whose only dot leads it has stem `.<ext>` and no extension |
| Files.ClassifyJoined | src/rename_media/image.py:25 | `<base>.<ext>` classifies to stem `base` and extension `ext` |
| Files.CreateRenamedFileInformation | src/rename_media/image.py:63-70 | the planned file is in the same directory and keeps the creation date |
| Files.PlannedName | src/rename_media/image.py:63-70 | the planned name is prefix, stamp, suffix, a dot and the normalised extension, and classifying it gives back that stem and extension |
| Files.SamplePlannedName | tests/test_rename_media/test_image.py:121-133 | the sample photograph with `prefix_`/`_suffix` is planned as `prefix_20251109T163856_suffix.jpg` |
| Rename.MovedSize | src/rename_media/image.py:80 | moving one entry to a fresh name keeps the number of entries |
| Rename.RenameFile | src/rename_media/image.py:73-81 | a taken target name is refused with the directory untouched; otherwise, unless the move itself is refused, the source moves to the target and nothing else changes |
| Walker.ProcessEntry | src/rename_media/image.py:85-115 | folders are skipped; a file aborts exactly when it is supported and extracting its date raises, with that error; an unsupported file or one without a date yields a failed result and changes nothing; a success is a move |
| Walker.WalkEntries | src/rename_media/image.py:84-115 | the walk never changes the number of entries in the directory |
| Walker.WalkResultsShape | src/rename_media/image.py:96-115 | every result stays in the walked directory, and a failed result names the file's own path twice |
| Walker.RenameWithDate | src/rename_media/image.py:84-85 | a missing path fails with `FileNotFoundError` and a non-directory with `NotADirectoryError`, before any result |
| Walker.RenameWithDateCoversDirectory | src/rename_media/image.py:84-115 | walking a directory that no extraction error cuts short gives one result per listed file, in order, so every file of the directory gets one |
| Walker.TailOfListing | src/rename_media/image.py:85 | the rest of a listing names neither its first entry nor anything twice |
| Walker.StepFrames | src/rename_media/image.py:80 | processing one entry leaves every other listed entry as it was |
| Walker.FilePathsFrame | src/rename_media/image.py:88-92 | which listed entries are files depends only on those entries |
| Walker.OldNamesAppend | src/rename_media/image.py:84 | the old names of concatenated results are the concatenated old names |
| Walker.WalkFollowsListing | src/rename_media/image.py:85-115 | the walk yields exactly one result per listed file, in listing order, skipping folders; an early end happens at a listed file whose date extraction raised that error, after results for all earlier files |
| Walker.ConsFollowsListing | src/rename_media/image.py:94-115 | a file's result followed by results that follow the rest of the listing follows the whole listing |
| Walker.FilePathsHas | src/rename_media/image.py:85-92 | every listed file is among the paths the walk must report |
| Walker.WalkSkip | src/rename_media/image.py:87-92 | a folder adds nothing and the walk goes on |
| Walker.WalkEmit | src/rename_media/image.py:94-115 | a file's result comes first, then the walk of the rest over the directory as it now is |
| Walker.WalkKeepsUnlisted | src/rename_media/image.py:77-80 | an entry the walk does not reach keeps its name and contents |
| Walker.WalkOldNamesListed | src/rename_media/image.py:85-96 | every result is about a listed name |
| Walker.InPlaceCons | src/rename_media/image.py:96-115 | a result that leaves its file in place or moved intact, put before such results about later listed files, keeps that property |
| Walker.WalkInPlace | src/rename_media/image.py:96-115 | a file whose rename failed is still under its old name, unchanged; a renamed file is found under its new name with its original contents |
| Walker.WalkTargetsAvoid | src/rename_media/image.py:77-78 | no rename lands on an entry the walk does not reach |
| Walker.TargetsDistinctCons | src/rename_media/image.py:77-80 | a successful result whose target no later result reaches, put before results with distinct targets, keeps the targets distinct |
| Walker.WalkTargetsDistinct | src/rename_media/image.py:77-80 | no two successful renames share a target, so nothing is overwritten |
| Walker.DatedFileStep | src/rename_media/image.py:94-115 | a supported, dated file moves to its planned name unless that name is taken or the move fails, and then yields a failed result |
| Walker.JoinedDistinct | src/rename_media/image.py:25 | different stems with one extension make different names |
| Walker.WalkOne | src/rename_media/image.py:85 | a one-file listing whose file yields a result gives exactly that result |
| Walker.WalkTwo | src/rename_media/image.py:85 | two files that both yield a result give those two results in order |
| Walker.SameStampCollide | src/rename_media/image.py:77-78 | two files with the same date: the first is renamed, the second fails and stays where it was |
| Walker.MovesFirst | src/rename_media/image.py:107-109 | a dated file whose planned name is free is moved there |
| Walker.RefusesSecond | src/rename_media/image.py:110-112 | a dated file whose planned name is taken yields a failed result and changes nothing |
| Walker.WalkUnsupported | tests/test_rename_media/test_image.py:85-88 | in a directory with no supported file every result fails, the walk ends normally and nothing moves |
| Walker.RenamedStep | src/rename_media/image.py:94-109 | a supported, dated, movable file whose planned name is free yields a successful result and moves there intact |
| Walker.WalkAllRenamed | src/rename_media/image.py:84-115 | when every listed file is supported, dated and movable and the planned names are pairwise different and free, the walk ends normally with one successful result per file, in listing order, each from the file to its planned name |

Some members are steps of the proofs above and model no source line of their
own, so the table leaves them out:
- integer-division facts behind `Calendar.YearLength`: `StepOver4`, `StepOver100`, `StepOver400`, `DivisorChain`, `Multiple400` and `Multiple100`;
- a digit-arithmetic fact behind `DateText.LastDigit`: `DivMod10`;
- the composition of padded fields behind the sample lemmas: `RenderOfPads` and `StampOfPads`;
- literal string concatenations: `SampleRenderText`, `SampleStampText` and `Files.SampleFileName`;
- `Files.LastIndexOfIs` and `Files.PlannedPathOf`, used by `ClassifyJoined` and `SamplePlannedName`;
- the steps of `DateText.ParseLenient` and `ParseCanonical`: `FieldValueIsDigitsValue`, `SpaceRunOf`, `LastFieldOf`, `FieldThenColon`, `DateThen`, `ClockThen`, `SpacesThenClock`, `ParseOfScans`, `ParseOfParts`, `ParseFailsAtScan` and `SampleYearValue`;
- the steps of `DateText.ParseShape` and `RejectsTrailing`: `ScanFieldShape`, `FieldThenShape`, `YearThenShape`, `ScanYearShape`, `ScanDayShape`, `ExpectSpacesShape`, `JoinPieces` and `ClockThenJunk`;
- the induction steps of `Walker.WalkAllRenamed`: `RenamedCons`, `WalkRenamedHead`, `RenamesToSameEntry`, `DistinctTail`, `TailRenames`, `TailTargetsFree` and `RenamedTail`.

The video pipeline's `FileInformation.instance` (src/rename_media/video.py:20-24),
`create_renamed_file_information` (src/rename_media/video.py:73-80),
`rename_file` (src/rename_media/video.py:83-91) and `rename_with_date`
(src/rename_media/video.py:94-125) are line for line the image pipeline's. The
members above cover them with `m == Video`.

## Left out

- The command line (`cmdline.py`, `__main__.py`), logging and printing: they hold no logic of the pipeline.
- The `exif` and `pymediainfo` libraries: each file carries what they report as an uninterpreted reading (`ExifReading`, `MediaInfoReading`).
- `%Z` in the video encoded-date format: the zone name is not parsed. The encoded date comes as a reading that either holds a naive timestamp or says that parse raised.
- `float` `total_seconds()`: replaced by integer seconds. Both dates have one-second resolution, so the difference is always whole.
- Non-ASCII text: `str.lower` and `\d` in `strptime` are modelled on ASCII only. Python also accepts other Unicode decimal digits and lower-cases non-ASCII letters.
- DateText.Stamp: pads the year to four digits for every year. The platform `strftime` may not pad years below 1000, so the model's stamp for such years can differ from the program's.
- Files.Suffix: follows `pathlib` before Python 3.14, where a name ending in a dot has no suffix.
- Path handling: a prefix or suffix containing `/` makes the program leave the directory; the model treats the planned name as a plain name in the same directory map.
- Filesystem behaviour: `iterdir` order, permissions and races between the existence check and the move are not modelled. The listing is a fixed snapshot, and a refused move is a per-file flag.
- `rename_file`'s own errors other than `FileExistsError` are collapsed into one refusal (`RenameFailed`), as the walker treats them the same way.
