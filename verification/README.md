# GPX streaming parser core, in Dafny

This project models the core of a streaming recursive-descent GPX reader. The
reader walks a forward-only stream of XML events. For each entity, a consumer
checks the opening tag, dispatches known children to their own consumers, and
stops just after its own closing tag.

The model covers four pieces:

- the opening-tag check `verify_starting_tag`, which every consumer starts with
  (`Parser.VerifyStartingTag`);
- the string leaf consumer (`StringLeaf.ConsumeString`);
- the copyright consumer, with its `author` attribute and its `license` and
  `year` children (`CopyrightParser.ConsumeCopyright`);
- the track-segment consumer, which collects `trkpt` children in document order
  (`TrackSegmentParser.ConsumeTrackSegment`).

The event stream is a `seq<Event>` plus a `nat` cursor. A cursor at or past the
end of the sequence means the stream is exhausted. Each consumer is a pure,
total function from the stream and cursor to `Result<Parsed<T>, GpxError>`.
`Parsed` pairs the value with the cursor after the consumed events. Termination
is by `|events| - pos`. Each event step consumes one event, and each successful
child read consumes at least one.

Modules follow the source files:

| file | module | source |
|---|---|---|
| `wrappers.dfy` | `Wrappers` | `Option`, Rust-style `Result` |
| `xml_events.dfy` | `XmlEvents` | the event stream the tokenizer produces |
| `errors.dfy` | `Errors` | the error kinds raised by the modelled consumers |
| `parser.dfy` | `Parser` | `src/parser/mod.rs` |
| `string_leaf.dfy` | `StringLeaf` | `src/parser/string.rs` |
| `integers.dfy` | `Integers` | the `str::parse` call for the copyright year |
| `copyright.dfy` | `CopyrightParser` | `src/parser/copyright.rs` |
| `track_segment.dfy` | `TrackSegmentParser` | `src/parser/tracksegment.rs` |
| `examples.dfy` | `Examples` | the unit tests of the three consumer files |

Each consumer has an independent characterisation, connected to it by lemmas:

- **Opening-tag check.** Any run of noise is skipped. The first tag or text after
  the noise decides the result: accept, reject, or missing tag.
- **String leaf.** The first event after the text and other filler decides the
  result. The value is the last text event, given by `LastText`, a definition
  that reads the stream from the end.
- **Copyright.** A copyright element is rendered from a list of children. Reading
  the rendering back gives each field from its last child (`LastWins`). Every
  value the consumer can produce round-trips through its rendering.
- **Track segment.** A segment body is laid out as a list of points with filler
  between them. The consumer returns exactly those points, in order.

## Model

| member | source | states |
|---|---|---|
| Parser.VerifyStartingTag | src/parser/mod.rs:82-110 | On success, the accepted event is an opening tag with the expected name, its attributes are returned unchanged, and the cursor sits just after it. On failure, the error is either a missing opening tag or an invalid-child error naming the expected tag. |
| Parser.VerifyStartingTagSound | src/parser/mod.rs:88-107 | Every event skipped before an accepted opening tag is noise. When the opening tag is reported missing, only noise was left in the stream. |
| Parser.VerifyStartingTagSkipsNoise | src/parser/mod.rs:88-106 | Any number of events that are not tags or text are skipped, tokenizer errors included. The result equals the result from the first event after them. |
| Parser.VerifyStartingTagAccepts | src/parser/mod.rs:91-98 | After noise, an opening tag with the expected name gives its attributes, with the cursor just after it. |
| Parser.VerifyStartingTagRejects | src/parser/mod.rs:94-105 | After noise, any other opening tag, any closing tag, or any text (whitespace too) fails with `InvalidChildElement(found, expected)`. `found` is the tag name or the text. |
| Parser.VerifyStartingTagMissing | src/parser/mod.rs:107 | A stream holding only noise fails with `MissingOpeningTag(expected)`. |
| StringLeaf.ConsumeString | src/parser/string.rs:12-45 | An error from the opening-tag check passes through unchanged. On success, the opening tag was accepted, the cursor ends just past a closing tag with the leaf's name, and the value is non-empty unless empty is allowed. |
| StringLeaf.StringContent | src/parser/string.rs:18-44 | The loop after the opening tag ends just past a closing tag with the leaf's name, and returns non-empty text unless empty is allowed. |
| StringLeaf.StringContentSound | src/parser/string.rs:20-43 | A successful loop crossed only text and other filler, and returns the last text among them, or the text it started with if there was none. |
| StringLeaf.ConsumeStringSound | src/parser/string.rs:17-44 | On success, only text and other filler lie between the opening tag and the closing tag. The value is the last text event among them, not a concatenation, or empty if there was none. |
| StringLeaf.LastTextCons | src/parser/string.rs:28 | The last text of a range is the last text of the range without its first event. If there is none, a first event that is text is the fallback. |
| StringLeaf.StringContentStops | src/parser/string.rs:20-44 | After text and filler, the next event decides the outcome. Exhaustion gives `MissingClosingTag`, a tokenizer error is passed through, a nested opening tag gives `InvalidChildElement`, and a foreign closing tag gives `InvalidClosingTag`. The matching closing tag succeeds if and only if empty is allowed or the last text is non-empty; otherwise it gives `NoStringContent`. |
| StringLeaf.ConsumeStringStops | src/parser/string.rs:17-44 | The same decision for the whole consumer, measured from just after the accepted opening tag. |
| Integers.ParseI32 | src/parser/copyright.rs:38 | A year text gives a value exactly when it has the shape `[+-]?[0-9]+` and the number it denotes fits in 32 bits. The value is that number: a `-` negates it, and a `+` or leading zeros change nothing. |
| Integers.ParseShowInt | src/parser/copyright.rs:38 | The decimal spelling of any integer parses back to that integer exactly when it fits in 32 bits; otherwise there is no value. |
| Integers.ParseShowRoundTrip | src/parser/copyright.rs:38 | Every 32-bit year survives being written out and parsed back. |
| CopyrightParser.FindAuthor | src/parser/copyright.rs:16-21 | The author is the value of the first attribute whose local name is `author`. It is absent exactly when there is no such attribute. |
| CopyrightParser.ConsumeCopyright | src/parser/copyright.rs:12-63 | An opening-tag error passes through. On success, the author comes from the opening tag's attributes, the cursor sits just past a `copyright` closing tag, the license is never empty, and the year fits in 32 bits. |
| CopyrightParser.CopyrightContent | src/parser/copyright.rs:23-62 | The loop keeps the author, ends just past a `copyright` closing tag, and preserves the invariant that the license is non-empty and the year fits in 32 bits. |
| CopyrightParser.CopyrightChildInto | src/parser/copyright.rs:36-38 | Reading a `license` or `year` child fails exactly when the string leaf fails, and with the leaf's error. On success, the cursor ends where the leaf read ended. A `license` child sets only the license, to the leaf's text. A `year` child sets only the year, to the parsed text, which is absent when it does not parse. The license stays non-empty and the year within 32 bits. |
| CopyrightParser.CopyrightContentStops | src/parser/copyright.rs:23-62 | After text and filler, the next event decides the outcome. Exhaustion gives `MissingClosingTag("copyright")`. A peeked tokenizer error gives `EventParsingError("copyright")`. An unknown child gives `InvalidChildElement(child, "copyright")`. A failing `license` or `year` leaf passes its error through. A foreign closing tag gives `InvalidClosingTag(name, "copyright")`. The matching closing tag is consumed and the copyright returned. |
| CopyrightParser.ConsumeStringOfLeaf | src/parser/string.rs:17-44 | A leaf element with any attributes, whose body is text and other filler with a non-empty last text, is read as that last text. The cursor ends just past its closing tag. |
| CopyrightParser.CopyrightContentStep | src/parser/copyright.rs:35-58 | One rendered child is consumed whole. A `license` or `year` child, with any attributes and any text and filler inside, applies its last text. Text and other events between children change nothing. |
| CopyrightParser.ReadsAllChildren | src/parser/copyright.rs:23-58 | A reader that crosses one child at a time, applying each, and returns at the closing tag ends with all children applied in document order. |
| CopyrightParser.ApplyChildrenLastWins | src/parser/copyright.rs:37-38 | Applying the children one by one, in document order, sets each field from its last child. A field with no child keeps its value, and an unparsable last year makes the year absent. |
| CopyrightParser.ContentReaderCrosses | src/parser/copyright.rs:35-58 | The copyright loop is such a reader: from the first event of any rendered child, it continues as from just after that child with the child applied. |
| CopyrightParser.CopyrightContentLastWins | src/parser/copyright.rs:35-38 | Over any sequence of children, each field takes its last child's value. Leaves may carry attributes and hold text and filler; a leaf's value is its last text. An unparsable last year gives an absent year. The cursor ends just past the closing tag. |
| CopyrightParser.ConsumeCopyrightLastWins | src/parser/copyright.rs:14-63 | The whole consumer, given an opening tag, rendered children and a closing tag, returns the first `author` attribute and the last-wins fields, and stops just past the closing tag. |
| CopyrightParser.ConsumedLeaf | src/parser/string.rs:17-44 | The converse of `ConsumeStringOfLeaf`: a leaf read at an opening tag is that tag, a body of text and other filler whose last text is the value read, and the matching closing tag. The cursor ends just past it. |
| CopyrightParser.CopyrightContentLayout | src/parser/copyright.rs:23-62 | When the loop succeeds, the events it crossed up to the closing tag are a sequence of children: readable `license` and `year` leaves, text and other events. Its result is last-wins over them. |
| CopyrightParser.ConsumeCopyrightSound | src/parser/copyright.rs:14-63 | The converse of `ConsumeCopyrightLastWins`: whatever the consumer accepts is an opening tag, then children that spell every event up to the returned closing tag. The author comes from that opening tag, and the fields are last-wins over those children. |
| CopyrightParser.ConsumeRenderedCopyright | src/parser/copyright.rs:14-63 | A rendered copyright element found at any position in the stream is read in full, with the same result. |
| CopyrightParser.AuthorAttributesFound | src/parser/copyright.rs:17-21 | The author written as an attribute is the author found. |
| CopyrightParser.ChildrenOfLastWins | src/parser/copyright.rs:36-38 | The children written for a producible copyright set its year and license back, last-wins. |
| CopyrightParser.CopyrightRoundTrip | src/parser/copyright.rs:14-63 | Every copyright the consumer can produce is read back from its own rendering. |
| TrackSegmentParser.ConsumeTrackSegment | src/parser/tracksegment.rs:12-56 | The `trkseg` opening tag is checked first, and its error passes through. On success, the cursor sits just past a `trkseg` closing tag that comes after the opening tag. |
| TrackSegmentParser.SegmentContent | src/parser/tracksegment.rs:17-55 | Points already collected are kept as a prefix, and the cursor ends just past a `trkseg` closing tag. |
| TrackSegmentParser.SegmentContentStops | src/parser/tracksegment.rs:17-55 | After text and filler, the next event decides the outcome. Exhaustion gives `MissingClosingTag("tracksegment")`. A peeked tokenizer error gives `TrackSegmentError`. A non-`trkpt` child gives `InvalidChildElement(child, "tracksegment")`. A failing point passes its error through. A foreign closing tag gives `InvalidClosingTag(name, "trksegment")`. The matching closing tag is consumed and the segment returned. |
| TrackSegmentParser.SegmentContentSkips | src/parser/tracksegment.rs:49-51 | Text and other filler between children are consumed and ignored. |
| TrackSegmentParser.SegmentContentCollects | src/parser/tracksegment.rs:29-31 | Each `trkpt` child's point is appended, so the loop returns the collected points followed by one point per child, in document order. |
| TrackSegmentParser.ConsumeTrackSegmentCollects | src/parser/tracksegment.rs:13-56 | A segment laid out as N `trkpt` children gives exactly those N points, in order, with the cursor just past the closing tag. |
| TrackSegmentParser.SegmentContentLayout | src/parser/tracksegment.rs:17-55 | When the loop succeeds, the points it added were read one per `trkpt` child, in document order, with only filler between the children and before the closing tag. |
| TrackSegmentParser.ConsumeTrackSegmentSound | src/parser/tracksegment.rs:13-56 | The converse of `ConsumeTrackSegmentCollects`: whatever the consumer accepts has a layout of the returned points. It starts just after the opening tag and closes just before the returned cursor. |
| Examples.SimpleString | src/parser/string.rs:53-64 | `<string>hello world</string>` yields `"hello world"`. |
| Examples.StringRejectsNestedTag | src/parser/string.rs:66-72 | `<foo>bar<baz></baz></foo>` fails with `InvalidChildElement("baz", "foo")`. |
| Examples.StringNeedsOpeningTag | src/parser/string.rs:74-80 | `bar</foo>` fails because text is not skipped before the opening tag. |
| Examples.StringNeedsClosingTag | src/parser/string.rs:82-88 | `<foo>bar` fails with `MissingClosingTag("foo")`. |
| Examples.EmptyString | src/parser/string.rs:90-110 | `<foo></foo>` fails with `NoStringContent` when empty is not allowed, and yields `""` when it is. |
| Examples.StringRejectsForeignClosingTag | src/parser/string.rs:112-118 | `<foo></foobar>` fails with `InvalidClosingTag("foobar", "foo")`. |
| Examples.StringLastTextWins | src/parser/string.rs:28 | Two text events on either side of a processing instruction yield the second one only. |
| Examples.StringNeedsOpeningTagTokenized | src/parser/string.rs:74-80 | `bar</foo>`, streamed as the document start then a tokenizer error, fails with `MissingOpeningTag("foo")`. |
| Examples.StringNeedsClosingTagTokenized | src/parser/string.rs:82-88 | `<foo>bar`, streamed with a tokenizer error at the end, fails with `XmlParseError`. |
| Examples.StringForeignClosingTagTokenized | src/parser/string.rs:112-118 | `<foo></foobar>`, streamed with a tokenizer error in place of the closing tag, fails with `XmlParseError`. |
| Examples.ParseI32Spellings | src/parser/copyright.rs:38 | `+2020` and `02020` give 2020, `-0` gives 0, and a bare sign or empty text gives no value. |
| Examples.SimpleCopyright | src/parser/copyright.rs:71-93 | The full example yields the author, year 2020 and the license. |
| Examples.BarebonesCopyright | src/parser/copyright.rs:95-106 | `<copyright author='pelmers'></copyright>` yields the author only. |
| Examples.CopyrightRejectsUnknownChild | src/parser/copyright.rs:39-44 | A `baz` child fails with `InvalidChildElement("baz", "copyright")`. |
| Examples.CopyrightUnparsableYear | src/parser/copyright.rs:38 | A later unparsable year replaces an earlier valid one with "absent", not an error. |
| Examples.CopyrightLicenseLastText | src/parser/copyright.rs:37 | A `license` leaf with an attribute and text on either side of a processing instruction sets the license to the last text. |
| Examples.CopyrightEmptyYear | src/parser/copyright.rs:38 | An empty year is a `NoStringContent` error from the leaf, not an absent year. |
| Examples.FullTrackSegment | src/parser/tracksegment.rs:67-88 | Three `trkpt` children give three points, in document order. |
| Examples.EmptyTrackSegment | src/parser/tracksegment.rs:94-102 | `<trkseg></trkseg>` gives zero points. |

Notes on the model:

- **Event stream.** Attributes and tag names are local names; namespaces are not
  modelled. `Other` covers document start and end, processing instructions, and
  any other event that is not a tag or text. `TokError` is an error item from
  the tokenizer. The model accepts any stream: it does not assume the
  tokenizer drops comments or merges adjacent text.
- **Test inputs.** Most examples feed each test's input to the consumers as the
  event stream a tokenizer would emit if it passed every event through. The
  configured tokenizer (src/parser/mod.rs:113-117) keeps its library defaults,
  which drop comments, merge adjacent text and report ill-formed input as an
  error. For the ill-formed inputs `bar</foo>`, `<foo>bar` and `<foo></foobar>`
  the examples ending in `Tokenized` replay that stream as well. Each test
  expects an error, and both streams give one.
- **String leaf errors.** A tokenizer error inside a string leaf is converted to
  a crate error by a `From` conversion that is not part of this model. It is
  modelled as the single variant `XmlParseError`.
- **Year type.** The copyright `year` field is declared outside the modelled
  files. The model takes it to be a signed 32-bit integer parsed with Rust's
  `str::parse`: an optional `+` or `-`, then ASCII digits, checked for range.
- **Waypoint consumer.** It is a parameter of the track-segment consumer. It is
  required only to move the cursor forward and stay inside the stream when it
  succeeds (`Advances`). The examples use a stand-in, `Examples.StubPoint`,
  which accepts a `trkpt` opening tag and skips to the `trkpt` closing tag.
- **Spelling of error names.** The track-segment errors name the entity
  inconsistently, as the source does: `"tracksegment"` for an invalid child and
  for a missing closing tag, `"trksegment"` for a foreign closing tag.

## Left out

- Tokenisation: `create_context` and the XML parser configuration (src/parser/mod.rs:112-121). Byte input, character decoding, and the folding of whitespace and CDATA into text all belong to an external library. The model starts from the event sequence.
- The parse context's format version and extension type parameter (src/parser/mod.rs:62-80). None of the modelled consumers reads them. The extension type is taken as unit.
- The test macro (src/parser/mod.rs:15-44) builds a context with `create_context` and calls the consumer under test. The examples state its results on event streams.
- `src/reader.rs` builds a context and calls the document consumer, which is not part of this model.
- The waypoint consumer and the other entity consumers (metadata, track, route, person, link, time, bounds, fix) are not part of this model. The track segment takes the waypoint consumer as a parameter.
- Examples.FullTrackSegment: does not check the float length of the line string built from the points (src/parser/tracksegment.rs:90-91). Floating-point geometry is not modelled.
- tests/gpx_read.rs: reads fixture files and checks floating-point and timestamp fields parsed by consumers outside this model.
- The behaviour of the real tokenizer after it reports an error (whether it yields further events) is not modelled. The stream may continue after a `TokError` event, and the opening-tag check skips such an event as the source's catch-all arm does.
