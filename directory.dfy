/**
 * `process_images_in_directory`: the loop that keeps image names and appends
 * their records, the in-place stable sort by `(year, month, day)`, and the
 * `{"events": ...}` document. The directory listing is a parameter, and so is
 * what the EXIF read gives for each name.
 */
module Directory {
  import opened Wrappers
  import opened PyStr
  import opened DateFormat
  import opened EventRecord
  import opened SortEvents
  import opened SeqLemmas

  /** The top-level `{"events": [...]}` object. */
  datatype EventsDocument = EventsDocument(events: seq<Event>)

  /** What one listed name adds to `events`: its record, or nothing. */
  function Produced(filename: string, metadata: string -> ExifRead): seq<Event>
  {
    if !IsImageName(filename) then []
    else
      match ExtractMetadataAndFormatDate(filename, metadata(filename))
      case None => []
      case Some(event) => [event]
  }

  /** The `events` list once the loop has run over `listing`, before sorting. */
  function Collect(listing: seq<string>, metadata: string -> ExifRead): (events: seq<Event>)
    ensures |events| <= |listing|
  {
    if listing == [] then []
    else Collect(listing[..|listing| - 1], metadata) + Produced(listing[|listing| - 1], metadata)
  }

  lemma {:induction false} CollectConcat(a: seq<string>, b: seq<string>, metadata: string -> ExifRead)
    ensures Collect(a + b, metadata) == Collect(a, metadata) + Collect(b, metadata)
    decreases |b|
  {
    if b == [] {
      assert a + b == a;
    } else {
      ConcatInit(a, b);
      CollectConcat(a, b[..|b| - 1], metadata);
      AppendAssoc(Collect(a, metadata), Collect(b[..|b| - 1], metadata), Produced(b[|b| - 1], metadata));
    }
  }

  /**
   * A name that fails the extension test, or whose record cannot be built,
   * contributes nothing wherever it stands, and the rest of the batch goes on.
   */
  lemma SkippedNameContributesNothing(before: seq<string>, filename: string, after: seq<string>,
                                      metadata: string -> ExifRead)
    requires !IsImageName(filename) || ExtractMetadataAndFormatDate(filename, metadata(filename)).None?
    ensures Collect(before + [filename] + after, metadata) == Collect(before + after, metadata)
  {
    assert Produced(filename, metadata) == [];
    CollectAround(before, filename, after, metadata);
    CollectConcat(before, after, metadata);
  }

  /** Every collected event is the record of some listed name that passed the extension test. */
  lemma {:induction false} CollectSound(listing: seq<string>, metadata: string -> ExifRead)
    ensures forall e :: e in Collect(listing, metadata) ==>
              exists f :: f in listing && IsImageName(f) && ExtractMetadataAndFormatDate(f, metadata(f)) == Some(e)
    decreases |listing|
  {
    if listing != [] {
      var init := listing[..|listing| - 1];
      CollectSound(init, metadata);
      forall e | e in Collect(listing, metadata)
        ensures exists f :: f in listing && IsImageName(f) && ExtractMetadataAndFormatDate(f, metadata(f)) == Some(e)
      {
        if e in Collect(init, metadata) {
          var f :| f in init && IsImageName(f) && ExtractMetadataAndFormatDate(f, metadata(f)) == Some(e);
          assert f in listing;
        } else {
          assert listing[|listing| - 1] in listing;
        }
      }
    }
  }

  /** Every listed image name whose record can be built has that record collected. */
  lemma CollectComplete(listing: seq<string>, metadata: string -> ExifRead, filename: string)
    requires filename in listing && IsImageName(filename)
    requires ExtractMetadataAndFormatDate(filename, metadata(filename)).Some?
    ensures ExtractMetadataAndFormatDate(filename, metadata(filename)).value in Collect(listing, metadata)
  {
    CollectHas(listing, metadata, filename);
    assert Produced(filename, metadata) == [ExtractMetadataAndFormatDate(filename, metadata(filename)).value];
  }

  /** Whatever a listed name produces is among the collected events. */
  lemma CollectHas(listing: seq<string>, metadata: string -> ExifRead, filename: string)
    requires filename in listing
    ensures multiset(Produced(filename, metadata)) <= multiset(Collect(listing, metadata))
  {
    var i :| 0 <= i < |listing| && listing[i] == filename;
    var before, after := listing[..i], listing[i + 1..];
    assert listing == before + [filename] + after;
    CollectAround(before, filename, after, metadata);
  }

  /** The events of a listing split around one name. */
  lemma CollectAround(before: seq<string>, filename: string, after: seq<string>, metadata: string -> ExifRead)
    ensures Collect(before + [filename] + after, metadata)
            == Collect(before, metadata) + Produced(filename, metadata) + Collect(after, metadata)
  {
    CollectConcat(before + [filename], after, metadata);
    CollectConcat(before, [filename], metadata);
    CollectOne(filename, metadata);
  }

  /**
   * `process_images_in_directory`: append the record of every image name in
   * listing order, sort the list in place by date, wrap it as `{"events": ...}`.
   */
  method ProcessImagesInDirectory(listing: seq<string>, metadata: string -> ExifRead) returns (doc: EventsDocument)
    ensures doc.events == SortByDate(Collect(listing, metadata))
    ensures IsStableSortOf(doc.events, Collect(listing, metadata))
    ensures multiset(doc.events) == multiset(Collect(listing, metadata))
    ensures |doc.events| <= |listing|
    ensures listing == [] ==> doc.events == []
    ensures forall e :: e in doc.events ==>
              exists f :: f in listing && IsImageName(f) && ExtractMetadataAndFormatDate(f, metadata(f)) == Some(e)
  {
    var events: seq<Event> := [];
    for k := 0 to |listing|
      invariant events == Collect(listing[..k], metadata)
    {
      var filename := listing[k];
      if IsImageName(filename) {
        var eventData := ExtractMetadataAndFormatDate(filename, metadata(filename));
        if eventData.Some? {
          events := events + [eventData.value];
        }
      }
      CollectStep(listing, k, metadata);
    }
    assert listing[..|listing|] == listing;
    var a := new Event[|events|](k requires 0 <= k < |events| => events[k]);
    assert a[..] == events;
    InsertionSortByDate(a);
    doc := EventsDocument(a[..]);
    SortedCollectFacts(listing, metadata);
  }

  /** One more name of the listing adds what that name produces. */
  lemma CollectStep(listing: seq<string>, k: nat, metadata: string -> ExifRead)
    requires k < |listing|
    ensures Collect(listing[..k + 1], metadata) == Collect(listing[..k], metadata) + Produced(listing[k], metadata)
  {
    assert listing[..k + 1][..k] == listing[..k];
  }

  /** What the sorted collection of a listing is, independently of how it is computed. */
  lemma SortedCollectFacts(listing: seq<string>, metadata: string -> ExifRead)
    ensures IsStableSortOf(SortByDate(Collect(listing, metadata)), Collect(listing, metadata))
    ensures multiset(SortByDate(Collect(listing, metadata))) == multiset(Collect(listing, metadata))
    ensures |SortByDate(Collect(listing, metadata))| <= |listing|
    ensures forall e :: e in SortByDate(Collect(listing, metadata)) ==>
              exists f :: f in listing && IsImageName(f) && ExtractMetadataAndFormatDate(f, metadata(f)) == Some(e)
  {
    var events := Collect(listing, metadata);
    var sorted := SortByDate(events);
    SortByDateIsStableSort(events);
    CollectSound(listing, metadata);
    assert |sorted| == |multiset(sorted)| == |multiset(events)| == |events|;
    forall e | e in sorted
      ensures exists f :: f in listing && IsImageName(f) && ExtractMetadataAndFormatDate(f, metadata(f)) == Some(e)
    {
      assert e in multiset(sorted);
      assert e in events;
    }
  }

  /**
   * A listing of a dated image, a non-image and an image without a DateTime
   * tag yields exactly one event, for the dated image.
   */
  lemma OneDatedImageAmongOthers(image: string, other: string, undated: string, value: string,
                                 metadata: string -> ExifRead)
    requires IsImageName(image) && !IsImageName(other)
    requires metadata(image) == DateTime(value) && IsExifDateTime(value)
    requires metadata(undated) == NoDateTime
    ensures SortByDate(Collect([image, other, undated], metadata))
            == [Event(DateParts(value[0..4], value[5..7], value[8..10]), Media(MediaUrl(image)), map[])]
  {
    var event := Event(DateParts(value[0..4], value[5..7], value[8..10]), Media(MediaUrl(image)), map[]);
    assert Produced(image, metadata) == [event] by {
      ExtractExifDateTime(image, value);
    }
    assert Produced(other, metadata) == [];
    assert Produced(undated, metadata) == [];
    CollectThree(image, other, undated, metadata);
    assert Collect([image, other, undated], metadata) == [event];
    SortOne(event);
  }

  lemma CollectOne(f: string, metadata: string -> ExifRead)
    ensures Collect([f], metadata) == Produced(f, metadata)
  {
    assert [f][..0] == [];
  }

  lemma CollectTwo(f1: string, f2: string, metadata: string -> ExifRead)
    ensures Collect([f1, f2], metadata) == Produced(f1, metadata) + Produced(f2, metadata)
  {
    assert [f1, f2] == [f1] + [f2];
    CollectConcat([f1], [f2], metadata);
    CollectOne(f1, metadata);
    CollectOne(f2, metadata);
  }

  lemma CollectThree(f1: string, f2: string, f3: string, metadata: string -> ExifRead)
    ensures Collect([f1, f2, f3], metadata) == Produced(f1, metadata) + Produced(f2, metadata) + Produced(f3, metadata)
  {
    assert [f1, f2, f3] == [f1, f2] + [f3];
    CollectConcat([f1, f2], [f3], metadata);
    CollectTwo(f1, f2, metadata);
    CollectOne(f3, metadata);
  }

  /** Two dated images listed newest first come out oldest first. */
  lemma OlderImageSortsFirst(newer: string, older: string, newValue: string, oldValue: string,
                             metadata: string -> ExifRead)
    requires IsImageName(newer) && IsImageName(older)
    requires metadata(newer) == DateTime(newValue) && IsExifDateTime(newValue)
    requires metadata(older) == DateTime(oldValue) && IsExifDateTime(oldValue)
    requires ChronologicallyBefore(
               DecimalValue(oldValue[0..4]), DecimalValue(oldValue[5..7]), DecimalValue(oldValue[8..10]),
               DecimalValue(newValue[0..4]), DecimalValue(newValue[5..7]), DecimalValue(newValue[8..10]))
    ensures var events := SortByDate(Collect([newer, older], metadata));
            |events| == 2 && events[0].media.url == MediaUrl(older) && events[1].media.url == MediaUrl(newer)
    ensures var events := SortByDate(Collect([older, newer], metadata));
            |events| == 2 && events[0].media.url == MediaUrl(older) && events[1].media.url == MediaUrl(newer)
  {
    var oldEvent := Event(DateParts(oldValue[0..4], oldValue[5..7], oldValue[8..10]), Media(MediaUrl(older)), map[]);
    var newEvent := Event(DateParts(newValue[0..4], newValue[5..7], newValue[8..10]), Media(MediaUrl(newer)), map[]);
    ProducedExif(newer, newValue, metadata);
    ProducedExif(older, oldValue, metadata);
    assert DateLess(oldEvent.startDate, newEvent.startDate) by {
      ExifDateOrderIsChronological(oldValue, newValue);
      ConvertExifDateTime(oldValue);
      ConvertExifDateTime(newValue);
    }
    SortTwoCollected(newer, older, newEvent, oldEvent, metadata);
    DateLessAsymmetric(oldEvent.startDate, newEvent.startDate);
    KeepTwoCollected(older, newer, oldEvent, newEvent, metadata);
  }

  /** An image name with a well-formed DateTime produces the record dated by it. */
  lemma ProducedExif(filename: string, value: string, metadata: string -> ExifRead)
    requires IsImageName(filename) && metadata(filename) == DateTime(value) && IsExifDateTime(value)
    ensures Produced(filename, metadata)
            == [Event(DateParts(value[0..4], value[5..7], value[8..10]), Media(MediaUrl(filename)), map[])]
  {
    ExtractExifDateTime(filename, value);
  }

  /** Two names producing one record each, the second not dated earlier, keep their order. */
  lemma KeepTwoCollected(first: string, second: string, e1: Event, e2: Event, metadata: string -> ExifRead)
    requires Produced(first, metadata) == [e1] && Produced(second, metadata) == [e2]
    requires !DateLess(e2.startDate, e1.startDate)
    ensures SortByDate(Collect([first, second], metadata)) == [e1, e2]
  {
    CollectTwo(first, second, metadata);
    assert Collect([first, second], metadata) == [e1, e2];
    SortTwoInOrder(e1, e2);
  }

  /** Two names producing one record each, the second dated earlier, come out swapped. */
  lemma SortTwoCollected(first: string, second: string, e1: Event, e2: Event, metadata: string -> ExifRead)
    requires Produced(first, metadata) == [e1] && Produced(second, metadata) == [e2]
    requires DateLess(e2.startDate, e1.startDate)
    ensures SortByDate(Collect([first, second], metadata)) == [e2, e1]
  {
    CollectTwo(first, second, metadata);
    assert Collect([first, second], metadata) == [e1, e2];
    SortTwo(e1, e2);
  }
}
