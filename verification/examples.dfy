/** The unit tests of the modelled consumers, replayed on event streams.
    Every stream starts with the document-start event, an `Other`.  Most
    streams are what a tokenizer that passes every event through would give;
    the ones marked "as xml-rs streams it" are what the configured xml-rs
    reader gives, which keeps no comments, merges adjacent text and ends an
    ill-formed document with an error event. */
module Examples {
  import opened Wrappers
  import opened XmlEvents
  import opened Errors
  import opened Parser
  import opened StringLeaf
  import opened Integers
  import opened CopyrightParser
  import opened TrackSegmentParser

  // String leaf

  /** `<string>hello world</string>` */
  lemma SimpleString()
    ensures ConsumeString([Other, StartElement("string", []), Characters("hello world"), EndElement("string")], 0, "string", false)
            == Ok(Parsed("hello world", 4))
  {
  }

  /** `<foo>bar<baz></baz></foo>`: no markup inside a string. */
  lemma StringRejectsNestedTag()
    ensures ConsumeString([Other, StartElement("foo", []), Characters("bar"), StartElement("baz", []),
                           EndElement("baz"), EndElement("foo")], 0, "foo", false)
            == Err(InvalidChildElement("baz", "foo"))
  {
  }

  /** `bar</foo>`: the opening tag is required, and text is not noise. */
  lemma StringNeedsOpeningTag()
    ensures ConsumeString([Other, Characters("bar"), EndElement("foo")], 0, "foo", false)
            == Err(InvalidChildElement("bar", "foo"))
  {
  }

  /** `<foo>bar`: the closing tag is required. */
  lemma StringNeedsClosingTag()
    ensures ConsumeString([Other, StartElement("foo", []), Characters("bar")], 0, "foo", false)
            == Err(MissingClosingTag("foo"))
  {
  }

  /** `<foo></foo>` and `<foo/>`: empty content is an error unless allowed. */
  lemma EmptyString()
    ensures ConsumeString([Other, StartElement("foo", []), EndElement("foo")], 0, "foo", false) == Err(NoStringContent)
    ensures ConsumeString([Other, StartElement("foo", []), EndElement("foo")], 0, "foo", true) == Ok(Parsed("", 3))
  {
  }

  /** `<foo></foobar>`: a foreign closing tag is an error. */
  lemma StringRejectsForeignClosingTag()
    ensures ConsumeString([Other, StartElement("foo", []), EndElement("foobar")], 0, "foo", false)
            == Err(InvalidClosingTag("foobar", "foo"))
  {
  }

  /** `<foo>a<?p?>b</foo>`: the text on either side of the processing
      instruction arrives as two events; the last one wins, nothing is
      concatenated. */
  lemma StringLastTextWins()
    ensures ConsumeString([Other, StartElement("foo", []), Characters("a"), Other, Characters("b"), EndElement("foo")], 0, "foo", false)
            == Ok(Parsed("b", 6))
  {
  }

  /** `bar</foo>` as xml-rs streams it: the stray text is a tokenizer error,
      which the opening-tag search skips like any other event, and the
      stream then ends. */
  lemma StringNeedsOpeningTagTokenized()
    ensures ConsumeString([Other, TokError], 0, "foo", false) == Err(MissingOpeningTag("foo"))
  {
  }

  /** `<foo>bar` as xml-rs streams it: the missing closing tag ends the stream
      with a tokenizer error. */
  lemma StringNeedsClosingTagTokenized()
    ensures ConsumeString([Other, StartElement("foo", []), Characters("bar"), TokError], 0, "foo", false)
            == Err(XmlParseError)
  {
  }

  /** `<foo></foobar>` as xml-rs streams it: the mismatched closing tag is a
      tokenizer error. */
  lemma StringForeignClosingTagTokenized()
    ensures ConsumeString([Other, StartElement("foo", []), TokError], 0, "foo", false) == Err(XmlParseError)
  {
  }

  // Integers

  /** A sign, leading zeros and a negative zero all parse; a bare sign does not. */
  lemma ParseI32Spellings()
    ensures ParseI32("+2020") == Some(2020)
    ensures ParseI32("02020") == Some(2020)
    ensures ParseI32("-0") == Some(0)
    ensures ParseI32("-") == None && ParseI32("+") == None && ParseI32("") == None
  {
    Value2020();
    assert "+2020"[1..] == "2020";
    assert DigitsValue("02020") == 2020 by {
      assert "02020"[..4] == "0202" && "0202"[..3] == "020" && "020"[..2] == "02" && "02"[..1] == "0" && "0"[..0] == "";
    }
    assert "-0"[1..] == "0" && "0"[..0] == "";
  }

  lemma Value2020()
    ensures DigitsValue("2020") == 2020
  {
    assert "2020"[..3] == "202" && "202"[..2] == "20" && "20"[..1] == "2" && "2"[..0] == "";
  }

  // Copyright

  const OsmAuthor := [Attribute("author", "OpenStreetMap contributors")]
  const OsmLicense := "https://www.openstreetmap.org/copyright"

  const OsmChildren := [Year("2020"), License(OsmLicense)]

  /** The events of the full copyright test. */
  const OsmCopyright: seq<Event> := [
    Other, StartElement("copyright", OsmAuthor),
    StartElement("year", []), Characters("2020"), EndElement("year"),
    StartElement("license", []), Characters(OsmLicense), EndElement("license"),
    EndElement("copyright")]

  lemma OsmCopyrightRendered()
    ensures OsmCopyright == [Other] + RenderCopyright(OsmAuthor, OsmChildren)
  {
    assert OsmChildren[1..] == [License(OsmLicense)];
    assert OsmChildren[1..][1..] == [];
    assert RenderChildren(OsmChildren[1..]) == RenderChild(License(OsmLicense));
    assert RenderChildren(OsmChildren) == RenderChild(Year("2020")) + RenderChild(License(OsmLicense));
  }

  lemma OsmCopyrightFields()
    ensures LastWins(Copyright(FindAuthor(OsmAuthor), None, None), OsmChildren)
            == Copyright(Some("OpenStreetMap contributors"), Some(2020), Some(OsmLicense))
  {
    assert OsmChildren[1..] == [License(OsmLicense)];
    assert OsmChildren[1..][1..] == [];
    Value2020();
    assert ParseI32("2020") == Some(2020);
    SingleTextLeaf("2020");
    SingleTextLeaf(OsmLicense);
    assert FindAuthor(OsmAuthor) == Some("OpenStreetMap contributors");
    assert LastYearText(OsmChildren[1..][1..]) == None && LastLicense(OsmChildren[1..][1..]) == None;
    assert LastYearText(OsmChildren[1..]) == None && LastLicense(OsmChildren[1..]) == Some(OsmLicense);
    assert LastYearText(OsmChildren) == Some("2020") && LastLicense(OsmChildren) == Some(OsmLicense);
  }

  /** The full copyright test: author, year and license. */
  lemma SimpleCopyright()
    ensures ConsumeCopyright(OsmCopyright, 0)
            == Ok(Parsed(Copyright(Some("OpenStreetMap contributors"), Some(2020), Some(OsmLicense)), 9))
  {
    OsmCopyrightRendered();
    OsmCopyrightFields();
    SpelledAfterStart(OsmCopyright, RenderCopyright(OsmAuthor, OsmChildren));
    RenderedCopyrightAfterNoise(OsmCopyright, OsmAuthor, OsmChildren);
  }

  /** `<copyright author='pelmers'></copyright>` */
  lemma BarebonesCopyright()
    ensures ConsumeCopyright([Other, StartElement("copyright", [Attribute("author", "pelmers")]), EndElement("copyright")], 0)
            == Ok(Parsed(Copyright(Some("pelmers"), None, None), 3))
  {
  }

  /** `<copyright><baz/></copyright>`: the child vocabulary is closed. */
  lemma CopyrightRejectsUnknownChild()
    ensures ConsumeCopyright([Other, StartElement("copyright", []), StartElement("baz", []), EndElement("baz"),
                              EndElement("copyright")], 0)
            == Err(InvalidChildElement("baz", "copyright"))
  {
  }

  /** `<copyright><year>2020</year><year>20x0</year></copyright>`: an
      unparsable year is absent, not an error, and it overrides the earlier one. */
  lemma CopyrightUnparsableYear()
    ensures ConsumeCopyright([Other, StartElement("copyright", []),
                              StartElement("year", []), Characters("2020"), EndElement("year"),
                              StartElement("year", []), Characters("20x0"), EndElement("year"),
                              EndElement("copyright")], 0)
            == Ok(Parsed(Copyright(None, None, None), 9))
  {
    var children := [Year("2020"), Year("20x0")];
    var events := [Other] + RenderCopyright([], children);
    assert events == [Other, StartElement("copyright", []),
                      StartElement("year", []), Characters("2020"), EndElement("year"),
                      StartElement("year", []), Characters("20x0"), EndElement("year"),
                      EndElement("copyright")];
    SpelledAfterStart(events, RenderCopyright([], children));
    RenderedCopyrightAfterNoise(events, [], children);
    assert children[1..] == [Year("20x0")];
    SingleTextLeaf("2020");
    SingleTextLeaf("20x0");
    assert children[1..][1..] == [];
    assert !AllDigits("20x0") by { assert !IsDigit("20x0"[2]); }
  }

  const LicenseBody := [Characters("old"), Other, Characters("new")]
  const LicenseChildren := [LicenseChild([Attribute("lang", "en")], LicenseBody)]

  /** The events of `<copyright><license lang='en'>old<?p?>new</license></copyright>`. */
  const LicenseCopyright: seq<Event> := [
    Other, StartElement("copyright", []),
    StartElement("license", [Attribute("lang", "en")]),
    Characters("old"), Other, Characters("new"), EndElement("license"),
    EndElement("copyright")]

  lemma LicenseCopyrightRendered()
    ensures LicenseCopyright == [Other] + RenderCopyright([], LicenseChildren)
  {
    assert LicenseChildren[1..] == [];
    assert RenderChildren(LicenseChildren) == RenderChild(LicenseChildren[0]);
  }

  lemma LicenseCopyrightFields()
    ensures ReadableLeaves(LicenseChildren)
    ensures LastWins(Copyright(FindAuthor([]), None, None), LicenseChildren) == Copyright(None, None, Some("new"))
  {
    assert LastText(LicenseBody, 0, 3) == Some("new");
    assert FillerBody(LicenseBody);
    assert LicenseChildren[1..] == [];
    assert LastLicense(LicenseChildren) == Some("new");
    assert LastYearText(LicenseChildren) == None;
    assert FindAuthor([]) == None;
  }

  /** `<copyright><license lang='en'>old<?p?>new</license></copyright>`: a
      leaf may carry attributes and filler; its last text is what is kept. */
  lemma CopyrightLicenseLastText()
    ensures ConsumeCopyright(LicenseCopyright, 0) == Ok(Parsed(Copyright(None, None, Some("new")), 8))
  {
    LicenseCopyrightRendered();
    LicenseCopyrightFields();
    SpelledAfterStart(LicenseCopyright, RenderCopyright([], LicenseChildren));
    RenderedCopyrightAfterNoise(LicenseCopyright, [], LicenseChildren);
  }

  /** `<copyright><year></year></copyright>`: only text that is there
      degrades to absent; an empty year is an error of the string leaf. */
  lemma CopyrightEmptyYear()
    ensures ConsumeCopyright([Other, StartElement("copyright", []), StartElement("year", []), EndElement("year"),
                              EndElement("copyright")], 0)
            == Err(NoStringContent)
  {
  }

  /** The events after a leading document-start event spell the rest. */
  lemma SpelledAfterStart(events: seq<Event>, rest: seq<Event>)
    requires events == [Other] + rest
    ensures SpelledAt(events, 1, rest)
  {
    forall i | 0 <= i < |rest| ensures events[1 + i] == rest[i] {
    }
  }

  /** A rendered copyright element after the document-start event. */
  lemma RenderedCopyrightAfterNoise(events: seq<Event>, attributes: seq<Attribute>, children: seq<CopyrightChild>)
    requires ReadableLeaves(children)
    requires 0 < |events| && events[0] == Other
    requires SpelledAt(events, 1, RenderCopyright(attributes, children))
    requires |events| == 1 + |RenderCopyright(attributes, children)|
    ensures ConsumeCopyright(events, 0)
            == Ok(Parsed(LastWins(Copyright(FindAuthor(attributes), None, None), children), |events|))
  {
    VerifyStartingTagSkipsNoise(events, 0, 1, "copyright");
    ConsumeRenderedCopyright(events, 1, attributes, children);
  }

  // Track segment

  /** A stand-in for the waypoint consumer, good enough for the tests: it
      accepts a `trkpt` opening tag, skips to the next `trkpt` closing tag and
      returns the opening tag's attributes. */
  function StubPoint(events: seq<Event>, pos: nat): (r: ParseResult<seq<Attribute>>)
    ensures r.Ok? ==> pos < r.value.next <= |events|
  {
    match VerifyStartingTag(events, pos, "trkpt")
    case Err(e) => Err(e)
    case Ok(start) =>
      match SkipPast(events, start.next, "trkpt")
      case Err(e) => Err(e)
      case Ok(next) => Ok(Parsed(start.value, next))
  }

  /** The cursor just after the first closing tag named `tag`. */
  function SkipPast(events: seq<Event>, pos: nat, tag: string): (r: Result<nat, GpxError>)
    ensures r.Ok? ==> pos < r.value <= |events| && events[r.value - 1].IsEndOf(tag)
    decreases |events| - pos
  {
    if pos >= |events| then Err(MissingClosingTag(tag))
    else if events[pos].IsEndOf(tag) then Ok(pos + 1)
    else SkipPast(events, pos + 1, tag)
  }

  lemma {:induction false} SkipPastFinds(events: seq<Event>, pos: nat, k: nat, tag: string)
    requires pos <= k < |events|
    requires events[k].IsEndOf(tag)
    requires forall j :: pos <= j < k ==> !events[j].IsEndOf(tag)
    ensures SkipPast(events, pos, tag) == Ok(k + 1)
    decreases k - pos
  {
    if pos < k {
      SkipPastFinds(events, pos + 1, k, tag);
    }
  }

  /** The stand-in reads a `trkpt` element whose first `trkpt` closing tag is at `close`. */
  lemma StubPointReads(events: seq<Event>, pos: nat, close: nat)
    requires pos < close < |events|
    requires events[pos].IsStartOf("trkpt")
    requires events[close].IsEndOf("trkpt")
    requires forall j :: pos < j < close ==> !events[j].IsEndOf("trkpt")
    ensures StubPoint(events, pos) == Ok(Parsed(events[pos].attributes, close + 1))
  {
    VerifyStartingTagAccepts(events, pos, pos, "trkpt");
    SkipPastFinds(events, pos + 1, close, "trkpt");
  }

  function Point(lon: string, lat: string): seq<Attribute> {
    [Attribute("lon", lon), Attribute("lat", lat)]
  }

  const White := Point("-77.0365", "38.8977")
  const Boston := Point("-71.063611", "42.358056")
  const Augusta := Point("-69.7832", "44.31055")

  /** The three-point segment of the track-segment test; whitespace between
      tags arrives as text. */
  const FullSegment: seq<Event> := [
    Other, StartElement("trkseg", []), Characters(" "),
    StartElement("trkpt", White), Characters(" "),
    StartElement("name", []), Characters("The White House"), EndElement("name"),
    Characters(" "), EndElement("trkpt"), Characters(" "),
    StartElement("trkpt", Boston), Characters(" "),
    StartElement("name", []), Characters("Boston, Massachusetts"), EndElement("name"),
    Characters(" "), EndElement("trkpt"), Characters(" "),
    StartElement("trkpt", Augusta), Characters(" "),
    StartElement("name", []), Characters("Augusta, Maine"), EndElement("name"),
    Characters(" "), EndElement("trkpt"), Characters(" "),
    EndElement("trkseg")]

  /** The full track-segment test: three `trkpt` children give three points,
      in document order. */
  lemma FullTrackSegment()
    ensures ConsumeTrackSegment(StubPoint, FullSegment, 0) == Ok(Parsed(TrackSegment([White, Boston, Augusta]), 28))
  {
    VerifyStartingTagAccepts(FullSegment, 0, 1, "trkseg");
    FullSegmentLayout();
    ConsumeTrackSegmentCollects(StubPoint, FullSegment, 0, SegmentPoints, SegmentStarts, SegmentGaps, 27);
  }

  const SegmentPoints := [White, Boston, Augusta]
  const SegmentStarts: seq<nat> := [3, 11, 19]
  const SegmentGaps: seq<nat> := [2, 10, 18, 26]

  lemma FullSegmentPoint(i: nat)
    requires i < 3
    ensures SegmentGaps[i] + 1 == SegmentStarts[i]
    ensures SegmentChildAt(SegmentStarts[i], SegmentPoints[i], SegmentGaps[i + 1])
  {
    if i == 0 {
      WhiteHouseRead();
    } else if i == 1 {
      BostonRead();
    } else {
      AugustaRead();
    }
  }

  /** A `trkpt` child opening at `start` right after the filler at `start - 1`. */
  ghost predicate SegmentChildAt(start: nat, point: seq<Attribute>, next: nat) {
    && 0 < start < |FullSegment|
    && OnlyFiller(FullSegment, start - 1, start)
    && FullSegment[start].IsStartOf("trkpt")
    && StubPoint(FullSegment, start) == Ok(Parsed(point, next))
  }

  lemma WhiteHouseRead()
    ensures SegmentChildAt(3, White, 10)
  {
    StubPointReads(FullSegment, 3, 9);
  }

  lemma BostonRead()
    ensures SegmentChildAt(11, Boston, 18)
  {
    StubPointReads(FullSegment, 11, 17);
  }

  lemma AugustaRead()
    ensures SegmentChildAt(19, Augusta, 26)
  {
    StubPointReads(FullSegment, 19, 25);
  }

  lemma FullSegmentLayout()
    ensures PointLayout(StubPoint, FullSegment, SegmentPoints, SegmentStarts, SegmentGaps, 27)
  {
    forall i | 0 <= i < 3
      ensures && SegmentGaps[i] <= SegmentStarts[i] < |FullSegment|
              && OnlyFiller(FullSegment, SegmentGaps[i], SegmentStarts[i])
              && FullSegment[SegmentStarts[i]].IsStartOf("trkpt")
              && StubPoint(FullSegment, SegmentStarts[i]) == Ok(Parsed(SegmentPoints[i], SegmentGaps[i + 1]))
    {
      FullSegmentPoint(i);
    }
    assert OnlyFiller(FullSegment, 26, 27);
  }

  /** `<trkseg></trkseg>` has no points. */
  lemma EmptyTrackSegment()
    ensures ConsumeTrackSegment(StubPoint, [Other, StartElement("trkseg", []), EndElement("trkseg")], 0)
            == Ok(Parsed(TrackSegment([]), 3))
  {
  }
}
