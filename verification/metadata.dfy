/** What the metadata readers report about one file, and how each pipeline
    turns that into a creation date, no date, or an error that escapes.

    The `exif` and `pymediainfo` libraries are not modelled: each file carries
    the outcome of asking each of them, as an uninterpreted reading. */
module Metadata {
  import opened Wrappers
  import opened Calendar
  import opened DateText
  import opened Reconcile
  import opened Extensions

  /** Outcome of opening a file with `exif.Image` and reading its `DateTime`. */
  datatype ExifReading =
    | OpenIsADirectory          // `open` raised `IsADirectoryError`
    | Unreadable                // `open` or `exif.Image` raised anything else
    | NoExif                    // `has_exif` is false
    | NoDateTimeTag             // reading the `datetime` attribute raised
    | DateTimeTag(text: string) // the `DateTime` tag's text

  /** Outcome of `pymediainfo.MediaInfo.parse` and reading the general track. */
  datatype MediaInfoReading =
    | OsFailure                 // an `OSError` was raised
    | NoTrackData               // no general track, or an attribute is missing
    | TrackDates(encoded: Option<Timestamp>, modification: string)
      // `encoded`: the encoded date parsed with its zone name (None when that
      // parse raised); `modification`: the local last-modification text

  /** The two media types, each with its own extension table and reader. */
  datatype Media = Image | Video

  function TableOf(m: Media): Table {
    match m
    case Image => ImageTable
    case Video => VideoTable
  }

  /** Errors that escape `extract_creation_date` and so the whole walk. */
  datatype HardError =
    | IsADirectoryError
    | OsError
    | AttributeError
    | ValueError

  datatype Extraction =
    | Found(date: Timestamp)
    | NotFound
    | Raised(error: HardError)

  /** `extract_creation_date` of the image pipeline. The date string is parsed
      outside the `try`, so a malformed or missing `DateTime` escapes. */
  function ExtractImageDate(r: ExifReading): (x: Extraction)
    ensures x.NotFound? <==> r.Unreadable? || r.NoExif?
    ensures x.Found? <==> r.DateTimeTag? && ParseDateTime(r.text, ':').Some?
    ensures x.Found? ==> r.DateTimeTag? && ParseDateTime(r.text, ':') == Some(x.date)
    ensures r.DateTimeTag? ==> x.Found? || x == Raised(ValueError)
    ensures r.OpenIsADirectory? ==> x == Raised(IsADirectoryError)
    ensures r.NoDateTimeTag? ==> x == Raised(AttributeError)
  {
    match r
    case OpenIsADirectory => Raised(IsADirectoryError)
    case Unreadable => NotFound
    case NoExif => NotFound
    case NoDateTimeTag => Raised(AttributeError)
    case DateTimeTag(text) =>
      match ParseDateTime(text, ':')
      case Some(d) => Found(d)
      case None => Raised(ValueError)
  }

  /** `extract_creation_date` of the video pipeline: only an `OSError`
      escapes; every other failure means no date. */
  function ExtractVideoDate(r: MediaInfoReading): (x: Extraction)
    ensures x.Raised? <==> r.OsFailure?
    ensures x.Raised? ==> x.error == OsError
    ensures x.Found? <==> r.TrackDates? && r.encoded.Some? && ParseDateTime(r.modification, '-').Some?
    ensures x.Found? ==>
      var encoded, modified := r.encoded.value, ParseDateTime(r.modification, '-').value;
      x.date == if Distance(encoded, modified) in WholeHourOffsets then modified else encoded
  {
    match r
    case OsFailure => Raised(OsError)
    case NoTrackData => NotFound
    case TrackDates(encoded, modification) =>
      match (encoded, ParseDateTime(modification, '-'))
      case (Some(e), Some(m)) => Found(ReconcileDates(e, m))
      case _ => NotFound
  }

  function ExtractCreationDate(m: Media, exif: ExifReading, mediaInfo: MediaInfoReading): Extraction {
    match m
    case Image => ExtractImageDate(exif)
    case Video => ExtractVideoDate(mediaInfo)
  }

  /** The same malformed date text is fatal to the image walk but only a
      missing date to the video walk. */
  lemma MalformedDateSeverity(text: string, encoded: Timestamp)
    requires ParseDateTime(text, ':').None? && ParseDateTime(text, '-').None?
    ensures ExtractImageDate(DateTimeTag(text)) == Raised(ValueError)
    ensures ExtractVideoDate(TrackDates(Some(encoded), text)) == NotFound
  {
  }

  /** A well-formed EXIF date is the creation date of the image, unchanged. */
  lemma ImageDateOfRendered(t: Timestamp)
    ensures ExtractImageDate(DateTimeTag(Render(t, ':'))) == Found(t)
  {
    ParseRender(t, ':');
  }

  /** A video whose two dates agree is dated by them; one whose dates are a
      whole number of hours apart (under a day) is dated by the local
      modification date. */
  lemma VideoDateOfRendered(encoded: Timestamp, modified: Timestamp)
    ensures ExtractVideoDate(TrackDates(Some(encoded), Render(modified, '-')))
         == Found(if Distance(encoded, modified) in WholeHourOffsets then modified else encoded)
  {
    ParseRender(modified, '-');
    ToSecondsInjective(encoded, modified);
  }
}
