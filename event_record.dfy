/**
 * `extract_metadata_and_format_date`: one image file becomes one event record
 * or none. The image/EXIF libraries are replaced by the value they would
 * yield (`ExifRead`); the extension test of the directory loop lives here too.
 */
module EventRecord {
  import opened Wrappers
  import opened PyStr
  import opened DateFormat
  import opened SeqLemmas

  /** The `media` object of an event. */
  datatype Media = Media(url: string)

  /** One element of `events`. `text` is the `{}` placeholder; the outputter never fills it. */
  datatype Event = Event(startDate: DateParts, media: Media, text: map<string, string>)

  /** What opening the image and loading its EXIF block yields. */
  datatype ExifRead =
    | Unreadable               // opening, the `exif` entry, EXIF parsing or UTF-8 decoding raised
    | NoDateTime               // the 0th IFD has no DateTime tag
    | DateTime(value: string)  // the DateTime tag, decoded

  const UrlPrefix: string := "static/image_png/"

  /** The media URL: the prefix, the name with its last four characters cut off, and "png". */
  function MediaUrl(filename: string): (url: string)
    ensures |url| == |UrlPrefix| + (if |filename| < 4 then 0 else |filename| - 4) + 3
    ensures url[..|UrlPrefix|] == UrlPrefix && url[|url| - 3..] == "png"
    ensures url[|UrlPrefix|..|url| - 3] <= filename
  {
    var stem := SliceTo(filename, -4);
    assert (UrlPrefix + stem + "png")[|UrlPrefix|..|UrlPrefix| + |stem|] == stem;
    UrlPrefix + stem + "png"
  }

  /** The extension test of the directory loop: `.png`, `.jpg` or `.jpeg`, ignoring ASCII case. */
  predicate IsImageName(filename: string)
  {
    var lower := Lower(filename);
    EndsWith(lower, ".png") || EndsWith(lower, ".jpg") || EndsWith(lower, ".jpeg")
  }

  /** The test is insensitive to ASCII case. */
  lemma IsImageNameIgnoresCase(filename: string)
    ensures IsImageName(Lower(filename)) == IsImageName(filename)
  {
    LowerIdempotent(filename);
  }

  /**
   * What the URL of an accepted name is. For a `.jpeg` name the dot survives
   * and the URL ends in ".png"; for a `.png` or `.jpg` name the cut takes the
   * dot with it and the URL ends in the stem followed directly by "png".
   */
  lemma MediaUrlOfImageName(filename: string)
    requires IsImageName(filename)
    ensures EndsWith(Lower(filename), ".jpeg") ==>
              |filename| >= 5 && MediaUrl(filename) == UrlPrefix + filename[..|filename| - 5] + ".png"
    ensures !EndsWith(Lower(filename), ".jpeg") ==>
              |filename| >= 4 && MediaUrl(filename) == UrlPrefix + filename[..|filename| - 4] + "png"
  {
    var n := |filename|;
    ImageNameLength(filename);
    MediaUrlCut(filename);
    if EndsWith(Lower(filename), ".jpeg") {
      JpegDot(filename);
      PrefixSnoc(filename, n - 4);
      AppendAssoc(UrlPrefix + filename[..n - 5], ".", "png");
    }
  }

  lemma ImageNameLength(filename: string)
    requires IsImageName(filename)
    ensures |filename| >= 4
  {
  }

  /** A name ending in ".jpeg" in any case has its dot five characters from the end. */
  lemma JpegDot(filename: string)
    requires EndsWith(Lower(filename), ".jpeg")
    ensures |filename| >= 5 && filename[|filename| - 5] == '.'
  {
    assert Lower(filename)[|filename| - 5] == '.';
  }

  /** For a name of at least four characters the cut is exactly the last four. */
  lemma MediaUrlCut(filename: string)
    requires |filename| >= 4
    ensures MediaUrl(filename) == UrlPrefix + filename[..|filename| - 4] + "png"
  {
  }

  /**
   * `extract_metadata_and_format_date`: a record exactly when the DateTime tag
   * is there and converts; every exception, and a missing tag, give `None`.
   */
  function ExtractMetadataAndFormatDate(filename: string, read: ExifRead): (r: Option<Event>)
    ensures r.Some? <==> read.DateTime? && ConvertDateFormat(read.value).Some?
    ensures r.Some? ==> ConvertDateFormat(read.value) == Some(r.value.startDate)
    ensures r.Some? ==> r.value.media.url == MediaUrl(filename) && r.value.text == map[]
  {
    match read
    case Unreadable => None
    case NoDateTime => None
    case DateTime(value) =>
      match ConvertDateFormat(value)
      case None => None
      case Some(date) => Some(Event(date, Media(MediaUrl(filename)), map[]))
  }

  /** A well-formed EXIF DateTime always yields a record dated by its first ten characters. */
  lemma ExtractExifDateTime(filename: string, value: string)
    requires IsExifDateTime(value)
    ensures ExtractMetadataAndFormatDate(filename, DateTime(value))
            == Some(Event(DateParts(value[0..4], value[5..7], value[8..10]), Media(MediaUrl(filename)), map[]))
  {
    ConvertExifDateTime(value);
  }

  /** Names the extension test rejects: another extension, no dot, an extension not at the end. */
  lemma RejectedNameExamples()
    ensures !IsImageName("notes.txt") && !IsImageName("png") && !IsImageName("photo.jpg.bak")
  {
    var notes, backup := Lower("notes.txt"), Lower("photo.jpg.bak");
    assert notes[8] == 't' && backup[12] == 'k';
    NotEndsWithLast(notes, ".png");
    NotEndsWithLast(notes, ".jpg");
    NotEndsWithLast(notes, ".jpeg");
    NotEndsWithLast(backup, ".png");
    NotEndsWithLast(backup, ".jpg");
    NotEndsWithLast(backup, ".jpeg");
  }

  /** The URL rule on a few names: four characters go, whatever the extension's length. */
  lemma MediaUrlExamples()
    ensures MediaUrl("photo.jpg") == "static/image_png/photopng"
    ensures MediaUrl("a.png") == "static/image_png/apng"
    ensures MediaUrl("x.jpeg") == "static/image_png/x.png"
    ensures MediaUrl("abc") == "static/image_png/png"
  {
  }
}
