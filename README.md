# Event outputter model

The timeline site builds its `events.json` from a directory of photographs
with a short batch script (`Events_outputter.py`). The script:

1. lists the directory;
2. keeps the names whose lowercase form ends in `.png`, `.jpg` or `.jpeg`;
3. reads the EXIF `DateTime` tag of each kept image;
4. turns `"YYYY:MM:DD HH:MM:SS"` into `{"year", "month", "day"}` strings;
5. builds one record per image as `{"start_date", "media": {"url"}, "text": {}}`;
6. sorts the records by `(year, month, day)`;
7. wraps them as `{"events": [...]}`.

This project models those three functions in Dafny and proves what they
promise.

Layout, one module per file:

- `wrappers.dfy` (`Wrappers`): `Option`, standing for "a record or `None`" and "a date or an `IndexError`".
- `seq_lemmas.dfy` (`SeqLemmas`): generic facts about concatenation and slicing that the proofs use.
- `py_str.dfy` (`PyStr`): the Python string behaviour the script relies on:
  - `str.split` with an explicit separator (empty fields kept), and `join` as its partner;
  - ASCII `lower`;
  - `endswith`;
  - `s[:stop]` with a negative stop;
  - `<` on strings, proved equal to the textbook lexicographic order and shown to be a strict total order.
- `date_format.dfy` (`DateFormat`):
  - `convert_date_format`;
  - the tuple order used by the sort;
  - the agreement of that string order with chronological order on well-formed EXIF dates.
- `event_record.dfy` (`EventRecord`): `extract_metadata_and_format_date`, the media URL rule and the extension test.
- `sort_events.dfy` (`SortEvents`):
  - the stable sort as a specification function (`SortByDate`, a stable insertion sort);
  - its properties: sorted, permutation, stable, and the only stable sort;
  - an in-place insertion sort on an `array` proved to compute it.
- `directory.dfy` (`Directory`): `process_images_in_directory` as a method. Its loop appends the records in listing order. It then copies them into an array, sorts in place and wraps the result.

The outside world enters as parameters:

- The directory listing is a `seq<string>`.
- The result of opening an image and reading its EXIF block is a per-name function `metadata: string -> ExifRead`. An `ExifRead` is one of:
  - `Unreadable`: any exception while opening, loading or decoding;
  - `NoDateTime`: no `DateTime` tag in the 0th IFD;
  - `DateTime(value)`: the decoded tag.

A conversion that runs out of `:`-fields raises `IndexError` inside the
`try` block of `extract_metadata_and_format_date`. The script catches it,
so the image yields no record. The model represents this as
`ConvertDateFormat` returning `None`.

The media URL is `"static/image_png/" + filename[0:-4] + "png"` (line 28).
It cuts the last four characters of the name, whatever the extension, and
adds no dot:

- `photo.jpg` becomes `static/image_png/photopng`;
- `a.png` becomes `static/image_png/apng`;
- `x.jpeg` becomes `static/image_png/x.png`;
- a name shorter than four characters becomes just the prefix plus `png`.

`EventRecord.MediaUrlOfImageName` and `EventRecord.MediaUrlExamples` state
this.

## Model

| member | source | states |
|---|---|---|
| PyStr.Split | Events_outputter.py:9 | `str.split(sep)`: one more field than there are separators, and no field contains the separator |
| PyStr.JoinSplit | Events_outputter.py:9 | joining the fields of a split with the separator gives back the original string |
| PyStr.SplitJoin | Events_outputter.py:9 | splitting a join of separator-free fields gives back exactly those fields |
| PyStr.SplitAtFirst | Events_outputter.py:9 | the first field of a split is the text before the first separator; the rest is the split of the text after it |
| PyStr.SplitConcat | Events_outputter.py:9 | splitting `a + sep + b` gives the fields of `a` followed by the fields of `b` |
| PyStr.EndsWith | Events_outputter.py:40 | `s.endswith(suffix)`: the definition (the suffix fits and the last characters equal it); used by `EventRecord.IsImageName` and `EventRecord.RejectedNameExamples` |
| PyStr.Lower | Events_outputter.py:40 | `lower()` on ASCII keeps the length, leaves no upper-case letter, and changes only upper-case letters (each to its lower-case partner) |
| PyStr.LowerIdempotent | Events_outputter.py:40 | lowering twice is lowering once |
| PyStr.SliceTo | Events_outputter.py:28 | `s[:stop]` is a prefix of `s` of length `max(0, |s|+stop)` for a negative stop and `min(stop, |s|)` otherwise |
| PyStr.Less | Events_outputter.py:47 | string `<`: the definition, compared character by character with a proper prefix first; its properties are `LessIsLexLess`, `LessIrreflexive`, `LessTransitive`, `LessTrichotomy` and `DateFormat.FixedWidthLessIsNumeric` |
| PyStr.LessIsLexLess | Events_outputter.py:47 | Python's string `<` holds exactly when `a` is a proper prefix of `b` or they first differ at a position where `a` has the smaller code point, in both directions |
| PyStr.LessIrreflexive | Events_outputter.py:47 | no string is below itself |
| PyStr.LessTransitive | Events_outputter.py:47 | string `<` is transitive |
| PyStr.LessTrichotomy | Events_outputter.py:47 | any two strings are equal or ordered one way or the other |
| DateFormat.DatePortion | Events_outputter.py:9 | `split(" ")[0]` is the space-free prefix that ends at the first space or at the end of the string |
| DateFormat.ConvertDateFormat | Events_outputter.py:7-14 | a date comes back exactly when the date portion has at least two `:` (three fields); on success no field contains `:` or a space |
| DateFormat.ConvertIgnoresTime | Events_outputter.py:9 | appending a space and any time part to a space-free date never changes the conversion |
| DateFormat.ConvertFields | Events_outputter.py:9-14 | three colon-free, space-free fields followed by nothing or by further `:`-fields convert to exactly those three; extra fields are ignored |
| DateFormat.ConvertedFieldsArePrefix | Events_outputter.py:9-14 | conversely, a successful conversion returns the first three fields of the date portion, which continues with nothing or a `:` |
| DateFormat.ConvertExifDateTime | Events_outputter.py:7-14 | a well-formed `YYYY:MM:DD HH:MM:SS` converts to `s[0..4]`, `s[5..7]`, `s[8..10]` |
| DateFormat.DateLess | Events_outputter.py:47 | the sort key's tuple `<` on `(year, month, day)`: the definition; its properties are `DateLessIrreflexive`, `DateLessAsymmetric`, `DateLessTransitive`, `DateLessTrichotomy` and `ExifDateOrderIsChronological` |
| DateFormat.DateLessIrreflexive | Events_outputter.py:47 | the `(year, month, day)` tuple order is irreflexive |
| DateFormat.DateLessAsymmetric | Events_outputter.py:47 | two dates are never each below the other |
| DateFormat.DateLessTransitive | Events_outputter.py:47 | the tuple order is transitive |
| DateFormat.DateLessTrichotomy | Events_outputter.py:47 | any two dates are equal or ordered one way or the other by the tuple order |
| DateFormat.FixedWidthLessIsNumeric | Events_outputter.py:47 | on digit strings of one width, string `<` is `<` on their decimal values, in both directions |
| DateFormat.ExifDateOrderIsChronological | Events_outputter.py:47 | for two well-formed EXIF date-times, the tuple order of their converted dates is the chronological order of the numeric (year, month, day), in both directions |
| EventRecord.MediaUrl | Events_outputter.py:28 | the URL is `static/image_png/`, then the name with its last four characters cut (nothing left for shorter names), then `png` |
| EventRecord.MediaUrlOfImageName | Events_outputter.py:28 | for an accepted `.jpeg` name the URL ends in the stem plus `.png`; for an accepted `.png` or `.jpg` name it ends in the stem plus `png`, without the dot |
| EventRecord.MediaUrlExamples | Events_outputter.py:28 | `photo.jpg`, `a.png`, `x.jpeg` and `abc` give `photopng`, `apng`, `x.png` and `png` after the prefix |
| EventRecord.IsImageName | Events_outputter.py:40 | the extension test `filename.lower().endswith(('.png', '.jpg', '.jpeg'))`: the definition; its properties are `IsImageNameIgnoresCase`, `RejectedNameExamples` and `MediaUrlOfImageName` |
| EventRecord.IsImageNameIgnoresCase | Events_outputter.py:40 | the extension test gives the same answer for a name and its lowercase form |
| EventRecord.RejectedNameExamples | Events_outputter.py:40 | `notes.txt`, `png` and `photo.jpg.bak` fail the extension test |
| EventRecord.ExtractMetadataAndFormatDate | Events_outputter.py:17-33 | a record comes back exactly when the DateTime tag was read and converts; its date is the conversion, its URL is the media URL of the name and its text is empty; an unreadable image, a missing tag or a failed conversion give `None` |
| EventRecord.ExtractExifDateTime | Events_outputter.py:23-30 | an image with a well-formed DateTime gives the record dated by the tag's first ten characters |
| SortEvents.Insert | Events_outputter.py:47 | one insertion step: the definition, placing the event after every element whose date is not above its own; its properties are `InsertPermutes`, `InsertSorted`, `InsertStable` and `InsertAt` |
| SortEvents.SortByDate | Events_outputter.py:47 | `events.sort(key=...)`: the definition as stable insertion sort; its properties are `SortByDatePermutes`, `SortByDateSorted`, `SortByDateStable`, `SortByDateIsStableSort`, `StableSortIsSortByDate`, `SortByDateOfSorted` and `SortByDateIdempotent` |
| SortEvents.InsertPermutes | Events_outputter.py:47 | inserting adds exactly the new event to the multiset |
| SortEvents.SortByDatePermutes | Events_outputter.py:47 | the sort is a permutation of its input |
| SortEvents.InsertSorted | Events_outputter.py:47 | inserting into a date-sorted sequence keeps it sorted |
| SortEvents.InsertStable | Events_outputter.py:47 | inserting keeps the events of each date in the order of `sorted + [e]` |
| SortEvents.SortByDateSorted | Events_outputter.py:47 | the sort's output is ascending by `(year, month, day)` |
| SortEvents.SortByDateStable | Events_outputter.py:47 | for every date, the events of that date keep their input order |
| SortEvents.SortByDateIsStableSort | Events_outputter.py:47 | the sort is a stable sort of its input and a permutation of it |
| SortEvents.SortedUnique | Events_outputter.py:47 | two date-sorted sequences with the same events of every date, in the same order, are equal |
| SortEvents.StableSortIsSortByDate | Events_outputter.py:47 | a sequence is a stable sort of `s` if and only if it equals `SortByDate(s)`, so any stable sort (Python's included) gives this result |
| SortEvents.SortByDateOfSorted | Events_outputter.py:47 | a sequence already in date order is left unchanged |
| SortEvents.SortTwoInOrder | Events_outputter.py:47 | two events already in date order are left as they are |
| SortEvents.SortByDateIdempotent | Events_outputter.py:47 | sorting twice is sorting once |
| SortEvents.InsertAt | Events_outputter.py:47 | an event lands after a prefix whose last date is not above its own and before a suffix of strictly later dates |
| SortEvents.ShiftLater | Events_outputter.py:47 | the inner loop moves every element dated after `e` up one slot, stops at the first element from the right whose date is not above `e`'s, and leaves the rest of the array alone |
| SortEvents.InsertInPlace | Events_outputter.py:47 | after one step, the prefix `a[..i+1]` is the old prefix with `a[i]` inserted, and the rest of the array is unchanged |
| SortEvents.InsertionSortByDate | Events_outputter.py:47 | the in-place sort leaves `SortByDate` of the old contents in the array |
| Directory.Produced | Events_outputter.py:40-44 | one loop iteration: the definition, giving the name's record when it passes the extension test and the record can be built, nothing otherwise; its properties are `SkippedNameContributesNothing`, `CollectSound` and `CollectComplete` |
| Directory.Collect | Events_outputter.py:38-44 | the appended list has at most one record per listed name |
| Directory.CollectConcat | Events_outputter.py:38-44 | the records of a concatenated listing are the records of its parts, in order |
| Directory.SkippedNameContributesNothing | Events_outputter.py:40-44 | a name that fails the extension test or yields no record adds nothing wherever it stands, and the rest of the batch is unaffected |
| Directory.CollectSound | Events_outputter.py:38-44 | every appended record is the record of some listed name that passed the extension test |
| Directory.CollectComplete | Events_outputter.py:38-44 | every listed image name whose record can be built has that record appended |
| Directory.ProcessImagesInDirectory | Events_outputter.py:36-50 | the document's events are the sorted records of the listing: sorted by date, stable, a permutation of the appended records, at most one per listed name, none for an empty listing, each from a listed image name |
| Directory.SortedCollectFacts | Events_outputter.py:38-50 | the sorted records are a stable sort and permutation of the appended ones, at most one per listed name, each from a listed image name |
| Directory.OneDatedImageAmongOthers | Events_outputter.py:36-50 | a listing of a dated image, a non-image and an image without DateTime yields exactly the dated image's record |
| Directory.OlderImageSortsFirst | Events_outputter.py:47 | of two dated images, the one taken earlier comes first, for both listing orders `[newer, older]` and `[older, newer]` |

## Left out

- Opening the image and loading its EXIF block (`Image.open`, `piexif.load`, lines 20-24) are foreign library calls. Their outcome is the `ExifRead` parameter.
- `.decode('utf-8')` (line 24) is not modelled. A decoding failure is one more way to get `Unreadable`; a success is the `DateTime` string.
- `os.listdir` and `os.path.join` (lines 39-41) are file-system I/O. The listing, in whatever order the system returns it, is the `listing` parameter. `image_path` is used only to open the file and in the error message.
- The error message printed on an exception (line 32) is console output and is not modelled.
- The module-level run, `json.dumps`/`json.dump` and writing `static/data/events.json` (lines 53-60) are I/O and serialisation. `EventsDocument` stands for the `{"events": ...}` object.
- The image handle that is never closed (line 20) is resource management, not logic.
- Full Unicode `str.lower()` is not modelled. `PyStr.Lower` folds only ASCII letters, which is all the extension test needs.
- `EventRecord.Event` keeps `text` as an always-empty `map<string, string>`, the `{}` of the record.
- Catching any `Exception` is narrowed to what can happen in the modelled code. That is the `IndexError` of a short date, represented as `None` from `ConvertDateFormat`, plus the library failures folded into `Unreadable`.
- Python's `list.sort` is Timsort. It is not modelled step by step. `StableSortIsSortByDate` proves that every stable sort by the same key gives the result of `SortByDate`, which the in-place insertion sort computes.
- Running the whole script twice on the same listing and metadata gives the same document, because `ProcessImagesInDirectory` is determined by its inputs (its first postcondition). Idempotence of the sort itself is `SortByDateIdempotent`.
