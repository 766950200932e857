/** The copyright block: an optional `author` attribute and the children
    `license` and `year`, each a string leaf. */
module CopyrightParser {
  import opened Wrappers
  import opened XmlEvents
  import opened Errors
  import opened Parser
  import opened StringLeaf
  import opened Integers

  datatype Copyright = Copyright(author: Option<string>, year: Option<int>, license: Option<string>)

  /** What the consumer can return: a license is never empty text and a year
      always fits in 32 bits. */
  ghost predicate Producible(c: Copyright) {
    && (c.license.Some? ==> c.license.value != "")
    && (c.year.Some? ==> IsI32(c.year.value))
  }

  /** No attribute in `attributes` is named `author`. */
  predicate NoAuthor(attributes: seq<Attribute>) {
    forall i :: 0 <= i < |attributes| ==> attributes[i].localName != "author"
  }

  /** `attributes[i]` is the first attribute named `author`. */
  predicate FirstAuthorAt(attributes: seq<Attribute>, i: int) {
    && 0 <= i < |attributes|
    && attributes[i].localName == "author"
    && NoAuthor(attributes[..i])
  }

  /** The value of the first attribute whose local name is `author`. */
  function FindAuthor(attributes: seq<Attribute>): (r: Option<string>)
    ensures r.None? <==> NoAuthor(attributes)
    ensures r.Some? ==> exists i :: FirstAuthorAt(attributes, i) && attributes[i].value == r.value
  {
    if |attributes| == 0 then None
    else if attributes[0].localName == "author" then
      assert FirstAuthorAt(attributes, 0);
      Some(attributes[0].value)
    else
      var r := FindAuthor(attributes[1..]);
      FindAuthorStep(attributes, r);
      r
  }

  /** An attribute not named `author` at the front changes nothing. */
  lemma FindAuthorStep(attributes: seq<Attribute>, r: Option<string>)
    requires |attributes| > 0 && attributes[0].localName != "author"
    requires r.None? <==> NoAuthor(attributes[1..])
    requires r.Some? ==> exists i :: FirstAuthorAt(attributes[1..], i) && attributes[1..][i].value == r.value
    ensures r.None? <==> NoAuthor(attributes)
    ensures r.Some? ==> exists i :: FirstAuthorAt(attributes, i) && attributes[i].value == r.value
  {
    assert forall j :: 1 <= j < |attributes| ==> attributes[1..][j - 1] == attributes[j];
    if r.Some? {
      var i :| FirstAuthorAt(attributes[1..], i) && attributes[1..][i].value == r.value;
      assert attributes[..i + 1] == [attributes[0]] + attributes[1..][..i];
      assert FirstAuthorAt(attributes, i + 1);
    }
  }

  /** Reads a `copyright` element.  Leaves the cursor just after its closing tag. */
  function ConsumeCopyright(events: seq<Event>, pos: nat): (r: ParseResult<Copyright>)
    ensures VerifyStartingTag(events, pos, "copyright").Err? ==>
              r == Err(VerifyStartingTag(events, pos, "copyright").error)
    ensures r.Ok? ==>
              && pos < r.value.next <= |events|
              && events[r.value.next - 1] == EndElement("copyright")
              && VerifyStartingTag(events, pos, "copyright").Ok?
              && r.value.value.author == FindAuthor(VerifyStartingTag(events, pos, "copyright").value.value)
              && Producible(r.value.value)
  {
    match VerifyStartingTag(events, pos, "copyright")
    case Err(e) => Err(e)
    case Ok(start) => CopyrightContent(events, start.next, Copyright(FindAuthor(start.value), None, None))
  }

  /** The peek-then-dispatch loop of `ConsumeCopyright` over the children;
      `copyright` holds what the children read so far have set. */
  function CopyrightContent(events: seq<Event>, pos: nat, copyright: Copyright): (r: ParseResult<Copyright>)
    ensures r.Ok? ==>
              && pos < r.value.next <= |events|
              && events[r.value.next - 1] == EndElement("copyright")
              && r.value.value.author == copyright.author
    ensures r.Ok? && Producible(copyright) ==> Producible(r.value.value)
    decreases |events| - pos
  {
    if pos >= |events| then Err(MissingClosingTag("copyright"))
    else
      match events[pos]
      case TokError => Err(EventParsingError("copyright"))
      case StartElement(name, _) =>
        if name == "license" || name == "year" then
          match CopyrightChildInto(events, pos, name, copyright)
          case Err(e) => Err(e)
          case Ok(child) => CopyrightContent(events, child.next, child.value)
        else Err(InvalidChildElement(name, "copyright"))
      case EndElement(name) =>
        if name != "copyright" then Err(InvalidClosingTag(name, "copyright"))
        else Ok(Parsed(copyright, pos + 1))
      case _ => CopyrightContent(events, pos + 1, copyright)
  }

  /** Reads one `license` or `year` child and stores it into `copyright`: the
      license as a non-empty string, the year as a best-effort integer. */
  function CopyrightChildInto(events: seq<Event>, pos: nat, name: string, copyright: Copyright): (r: ParseResult<Copyright>)
    requires name == "license" || name == "year"
    ensures r.Err? <==> ConsumeString(events, pos, name, false).Err?
    ensures r.Err? ==> r.error == ConsumeString(events, pos, name, false).error
    ensures r.Ok? ==> r.value.value.author == copyright.author
    ensures r.Ok? ==> pos < r.value.next <= |events|
    ensures r.Ok? && Producible(copyright) ==> Producible(r.value.value)
    ensures r.Ok? ==>
              && ConsumeString(events, pos, name, false).Ok?
              && r.value.next == ConsumeString(events, pos, name, false).value.next
    ensures r.Ok? && name == "license" ==>
              r.value.value == copyright.(license := Some(ConsumeString(events, pos, name, false).value.value))
    ensures r.Ok? && name == "year" ==>
              r.value.value == copyright.(year := ParseI32(ConsumeString(events, pos, name, false).value.value))
  {
    match ConsumeString(events, pos, name, false)
    case Err(e) => Err(e)
    case Ok(text) =>
      if name == "license" then Ok(Parsed(copyright.(license := Some(text.value)), text.next))
      else Ok(Parsed(copyright.(year := ParseI32(text.value)), text.next))
  }

  /** After a run of text and other filler, the first remaining event decides
      what the copyright loop does. */
  lemma {:induction false} CopyrightContentStops(events: seq<Event>, pos: nat, c: nat, copyright: Copyright)
    requires pos <= c
    requires OnlyFiller(events, pos, c)
    ensures var r := CopyrightContent(events, pos, copyright);
            && (c == |events| ==> r == Err(MissingClosingTag("copyright")))
            && (c < |events| && events[c].TokError? ==> r == Err(EventParsingError("copyright")))
            && (c < |events| && events[c].StartElement? && events[c].name != "license" && events[c].name != "year" ==>
                  r == Err(InvalidChildElement(events[c].name, "copyright")))
            && (c < |events| && (events[c].IsStartOf("license") || events[c].IsStartOf("year"))
                && ConsumeString(events, c, events[c].name, false).Err? ==>
                  r == Err(ConsumeString(events, c, events[c].name, false).error))
            && (c < |events| && events[c].EndElement? && events[c].name != "copyright" ==>
                  r == Err(InvalidClosingTag(events[c].name, "copyright")))
            && (c < |events| && events[c].IsEndOf("copyright") ==> r == Ok(Parsed(copyright, c + 1)))
    decreases c - pos
  {
    if pos < c {
      CopyrightContentStops(events, pos + 1, c, copyright);
    }
  }

  /** A child of a copyright body.  A `license` or `year` leaf keeps the
      attributes of its opening tag and the events between its tags. */
  datatype CopyrightChild =
    | LicenseChild(attributes: seq<Attribute>, body: seq<Event>)
    | YearChild(attributes: seq<Attribute>, body: seq<Event>)
    | TextChild(text: string)
    | OtherChild

  /** A leaf holding a single text event and no attributes. */
  function License(text: string): CopyrightChild {
    LicenseChild([], [Characters(text)])
  }

  function Year(text: string): CopyrightChild {
    YearChild([], [Characters(text)])
  }

  function RenderLeaf(name: string, attributes: seq<Attribute>, body: seq<Event>): seq<Event> {
    [StartElement(name, attributes)] + body + [EndElement(name)]
  }

  function RenderChild(child: CopyrightChild): seq<Event> {
    match child
    case LicenseChild(a, b) => RenderLeaf("license", a, b)
    case YearChild(a, b) => RenderLeaf("year", a, b)
    case TextChild(t) => [Characters(t)]
    case OtherChild => [Other]
  }

  /** A copyright body written out as a sequence of children. */
  function RenderChildren(children: seq<CopyrightChild>): seq<Event> {
    if |children| == 0 then [] else RenderChild(children[0]) + RenderChildren(children[1..])
  }

  function RenderCopyright(attributes: seq<Attribute>, children: seq<CopyrightChild>): seq<Event> {
    [StartElement("copyright", attributes)] + RenderChildren(children) + [EndElement("copyright")]
  }

  /** Only text and other filler inside a leaf. */
  ghost predicate FillerBody(body: seq<Event>) {
    OnlyFiller(body, 0, |body|)
  }

  /** What the string leaf reads from a leaf body: its last text. */
  function LeafText(body: seq<Event>): string {
    LastText(body, 0, |body|).GetOr("")
  }

  /** A `license` or `year` leaf the string leaf reads: filler only, and
      non-empty last text. */
  ghost predicate ReadableLeaf(child: CopyrightChild) {
    (child.LicenseChild? || child.YearChild?) ==> FillerBody(child.body) && LeafText(child.body) != ""
  }

  ghost predicate ReadableLeaves(children: seq<CopyrightChild>) {
    forall i :: 0 <= i < |children| ==> ReadableLeaf(children[i])
  }

  /** The text of the last `license` child. */
  function LastLicense(children: seq<CopyrightChild>): Option<string> {
    if |children| == 0 then None
    else
      match LastLicense(children[1..])
      case Some(t) => Some(t)
      case None => if children[0].LicenseChild? then Some(LeafText(children[0].body)) else None
  }

  /** The text of the last `year` child. */
  function LastYearText(children: seq<CopyrightChild>): Option<string> {
    if |children| == 0 then None
    else
      match LastYearText(children[1..])
      case Some(t) => Some(t)
      case None => if children[0].YearChild? then Some(LeafText(children[0].body)) else None
  }

  /** `copyright` after `children` are read: each field is set by its last
      child, a year whose text does not parse becoming absent; a field with no
      child keeps its value. */
  function LastWins(copyright: Copyright, children: seq<CopyrightChild>): Copyright {
    Copyright(
      copyright.author,
      match LastYearText(children) case Some(t) => ParseI32(t) case None => copyright.year,
      match LastLicense(children) case Some(t) => Some(t) case None => copyright.license)
  }

  /** A leaf element whose body is filler with non-empty last text is read
      back as that text, the cursor ending just past its closing tag. */
  lemma ConsumeStringOfLeaf(events: seq<Event>, pos: nat, tagname: string, attributes: seq<Attribute>, body: seq<Event>)
    requires FillerBody(body) && LeafText(body) != ""
    requires SpelledAt(events, pos, RenderLeaf(tagname, attributes, body))
    ensures ConsumeString(events, pos, tagname, false) == Ok(Parsed(LeafText(body), pos + |body| + 2))
  {
    var open := [StartElement(tagname, attributes)];
    var close := pos + 1 + |body|;
    SpelledConcat(events, pos, open + body, [EndElement(tagname)]);
    SpelledConcat(events, pos, open, body);
    assert events[pos + 0] == open[0];
    assert events[pos + |open + body| + 0] == [EndElement(tagname)][0];
    assert OnlyFiller(events, pos + 1, close) by {
      forall j | pos + 1 <= j < close ensures events[j].IsFiller() {
        assert events[pos + 1 + (j - pos - 1)] == body[j - pos - 1];
      }
    }
    VerifyStartingTagAccepts(events, pos, pos, tagname);
    LastTextSpelled(events, pos + 1, body, |body|);
    ConsumeStringStops(events, pos, close, tagname, false);
  }

  /** Rendered children are the first child followed by the rest. */
  lemma RenderedChildrenSplit(events: seq<Event>, pos: nat, children: seq<CopyrightChild>)
    requires |children| > 0
    requires SpelledAt(events, pos, RenderChildren(children))
    ensures SpelledAt(events, pos, RenderChild(children[0]))
    ensures SpelledAt(events, pos + |RenderChild(children[0])|, RenderChildren(children[1..]))
    ensures |RenderChildren(children)| == |RenderChild(children[0])| + |RenderChildren(children[1..])|
  {
    SpelledConcat(events, pos, RenderChild(children[0]), RenderChildren(children[1..]));
  }

  /** Reading one rendered child moves past it and applies what it sets. */
  lemma CopyrightContentStep(events: seq<Event>, pos: nat, child: CopyrightChild, copyright: Copyright)
    requires ReadableLeaf(child)
    requires SpelledAt(events, pos, RenderChild(child))
    ensures CopyrightContent(events, pos, copyright)
            == CopyrightContent(events, pos + |RenderChild(child)|, StepChild(copyright, child))
  {
    assert events[pos] == RenderChild(child)[0];
    match child {
      case LicenseChild(a, b) =>
        ConsumeStringOfLeaf(events, pos, "license", a, b);
      case YearChild(a, b) =>
        ConsumeStringOfLeaf(events, pos, "year", a, b);
      case TextChild(t) =>
      case OtherChild =>
    }
  }

  /** Applying the first child and then the rest is last-wins over all of them. */
  lemma LastWinsStep(copyright: Copyright, children: seq<CopyrightChild>)
    requires |children| > 0
    ensures LastWins(StepChild(copyright, children[0]), children[1..]) == LastWins(copyright, children)
  {
  }

  /** A reader of the copyright loop seen from outside: where it starts and
      what it has set so far, to what it returns. */
  type ChildReader = (nat, Copyright) -> ParseResult<Copyright>

  /** What one child does to the fields read so far. */
  type ChildStep = (Copyright, CopyrightChild) -> Copyright

  /** `apply` over `children`, first to last. */
  function ApplyChildren(apply: ChildStep, copyright: Copyright, children: seq<CopyrightChild>): Copyright
    decreases |children|
  {
    if |children| == 0 then copyright else ApplyChildren(apply, apply(copyright, children[0]), children[1..])
  }

  /** Where a child may be found: `at(p, child)` when `child` is rendered
      from `p` on in a form the reader accepts. */
  type ChildAt = (nat, CopyrightChild) -> bool

  /** `read` crosses each child found by `at`, applying it. */
  ghost predicate CrossesChildren(read: ChildReader, apply: ChildStep, at: ChildAt) {
    forall p: nat, c: Copyright, child: CopyrightChild :: CrossesAt(read, apply, at, p, c, child)
  }

  /** `read` crosses `child` when it is found at `p`. */
  ghost predicate CrossesAt(read: ChildReader, apply: ChildStep, at: ChildAt, p: nat, c: Copyright, child: CopyrightChild) {
    at(p, child) ==> read(p, c) == read(p + |RenderChild(child)|, apply(c, child))
  }

  /** `children` are found by `at` one after the other from `pos` on. */
  ghost predicate ChildrenAt(at: ChildAt, pos: nat, children: seq<CopyrightChild>)
    decreases |children|
  {
    |children| == 0 || (at(pos, children[0]) && ChildrenAt(at, pos + |RenderChild(children[0])|, children[1..]))
  }

  /** `read` started at `close` returns what it was given, past `close`. */
  ghost predicate StopsAt(read: ChildReader, close: nat) {
    forall c: Copyright :: StopsWith(read, close, c)
  }

  ghost predicate StopsWith(read: ChildReader, close: nat, c: Copyright) {
    read(close, c) == Ok(Parsed(c, close + 1))
  }

  /** Any reader that crosses children one by one and stops at `close`
      ends with every child applied in order. */
  lemma {:induction false} ReadsAllChildren(read: ChildReader, apply: ChildStep, at: ChildAt, pos: nat, children: seq<CopyrightChild>, close: nat, copyright: Copyright)
    requires ChildrenAt(at, pos, children)
    requires close == pos + |RenderChildren(children)|
    requires CrossesChildren(read, apply, at)
    requires StopsAt(read, close)
    ensures read(pos, copyright) == Ok(Parsed(ApplyChildren(apply, copyright, children), close + 1))
    decreases |children|
  {
    if |children| == 0 {
      assert StopsWith(read, close, copyright);
    } else {
      var child := children[0];
      var n := |RenderChild(child)|;
      var step := apply(copyright, child);
      assert |RenderChildren(children)| == n + |RenderChildren(children[1..])|;
      ReadsAllChildren(read, apply, at, pos + n, children[1..], close, step);
      assert CrossesAt(read, apply, at, pos, copyright, child);
    }
  }

  /** Where a child that passes `readable` is found in `events`. */
  ghost function FoundAt(readable: CopyrightChild -> bool, events: seq<Event>): ChildAt {
    (p: nat, child: CopyrightChild) => readable(child) && SpelledAt(events, p, RenderChild(child))
  }

  /** Readable children rendered in a row are found one after the other. */
  lemma {:induction false} RenderedChildrenAt(readable: CopyrightChild -> bool, events: seq<Event>, pos: nat, children: seq<CopyrightChild>)
    requires forall i :: 0 <= i < |children| ==> readable(children[i])
    requires SpelledAt(events, pos, RenderChildren(children))
    ensures ChildrenAt(FoundAt(readable, events), pos, children)
    decreases |children|
  {
    if |children| > 0 {
      RenderedChildrenSplit(events, pos, children);
      AllReadableTail(readable, children);
      RenderedChildrenAt(readable, events, pos + |RenderChild(children[0])|, children[1..]);
    }
  }

  lemma AllReadableTail(readable: CopyrightChild -> bool, children: seq<CopyrightChild>)
    requires |children| > 0
    requires forall i :: 0 <= i < |children| ==> readable(children[i])
    ensures readable(children[0])
    ensures forall i :: 0 <= i < |children[1..]| ==> readable(children[1..][i])
  {
    forall i | 0 <= i < |children[1..]| ensures readable(children[1..][i]) {
      assert children[1..][i] == children[i + 1];
    }
  }

  /** Applying the children one by one is last-wins over all of them. */
  lemma {:induction false} ApplyChildrenLastWins(copyright: Copyright, children: seq<CopyrightChild>)
    ensures ApplyChildren(StepChild, copyright, children) == LastWins(copyright, children)
    decreases |children|
  {
    if |children| > 0 {
      ApplyChildrenLastWins(StepChild(copyright, children[0]), children[1..]);
      LastWinsStep(copyright, children);
    }
  }

  /** Reading rendered children sets every field to its last child's value,
      in document order, and stops just after the closing tag. */
  lemma CopyrightContentLastWins(events: seq<Event>, pos: nat, children: seq<CopyrightChild>, close: nat, copyright: Copyright)
    requires ReadableLeaves(children)
    requires SpelledAt(events, pos, RenderChildren(children))
    requires close == pos + |RenderChildren(children)| < |events|
    requires events[close] == EndElement("copyright")
    ensures CopyrightContent(events, pos, copyright) == Ok(Parsed(LastWins(copyright, children), close + 1))
  {
    var read := ContentReader(events);
    ContentReaderCrosses(events);
    ContentReaderCloses(events, close);
    RenderedChildrenAt(ReadableLeaf, events, pos, children);
    ReadsAllChildren(read, StepChild, FoundAt(ReadableLeaf, events), pos, children, close, copyright);
    ApplyChildrenLastWins(copyright, children);
  }

  /** The copyright loop over `events`, as a reader. */
  function ContentReader(events: seq<Event>): ChildReader {
    (p: nat, c: Copyright) => CopyrightContent(events, p, c)
  }

  lemma ContentReaderCrosses(events: seq<Event>)
    ensures CrossesChildren(ContentReader(events), StepChild, FoundAt(ReadableLeaf, events))
  {
    forall p: nat, c: Copyright, child: CopyrightChild
      ensures CrossesAt(ContentReader(events), StepChild, FoundAt(ReadableLeaf, events), p, c, child)
    {
      if ReadableLeaf(child) && SpelledAt(events, p, RenderChild(child)) {
        CopyrightContentStep(events, p, child, c);
      }
    }
  }

  lemma ContentReaderCloses(events: seq<Event>, close: nat)
    requires close < |events| && events[close] == EndElement("copyright")
    ensures StopsAt(ContentReader(events), close)
  {
    forall c: Copyright ensures StopsWith(ContentReader(events), close, c) {
      CopyrightContentStops(events, close, close, c);
    }
  }

  /** What one rendered child sets. */
  function StepChild(copyright: Copyright, child: CopyrightChild): Copyright {
    match child
    case LicenseChild(_, b) => copyright.(license := Some(LeafText(b)))
    case YearChild(_, b) => copyright.(year := ParseI32(LeafText(b)))
    case _ => copyright
  }

  /** An accepted `copyright` opening tag starts the loop with its author. */
  lemma ConsumeCopyrightOpens(events: seq<Event>, pos: nat, attributes: seq<Attribute>)
    requires pos < |events|
    requires events[pos] == StartElement("copyright", attributes)
    ensures ConsumeCopyright(events, pos)
            == CopyrightContent(events, pos + 1, Copyright(FindAuthor(attributes), None, None))
  {
    VerifyStartingTagAccepts(events, pos, pos, "copyright");
  }

  lemma SpelledCopyrightParts(events: seq<Event>, pos: nat, attributes: seq<Attribute>, children: seq<CopyrightChild>)
    requires SpelledAt(events, pos, RenderCopyright(attributes, children))
    ensures events[pos] == StartElement("copyright", attributes)
    ensures SpelledAt(events, pos + 1, RenderChildren(children))
    ensures events[pos + 1 + |RenderChildren(children)|] == EndElement("copyright")
    ensures |RenderCopyright(attributes, children)| == |RenderChildren(children)| + 2
  {
    var all := RenderCopyright(attributes, children);
    var body := RenderChildren(children);
    assert events[pos] == all[0];
    forall i | 0 <= i < |body| ensures events[pos + 1 + i] == body[i] {
      assert all[1 + i] == body[i];
    }
    assert events[pos + 1 + |body|] == all[1 + |body|];
  }

  /** The whole copyright consumer over a rendered element: the author is the
      first `author` attribute and every child field is last-wins. */
  lemma ConsumeCopyrightLastWins(events: seq<Event>, pos: nat, attributes: seq<Attribute>, children: seq<CopyrightChild>, close: nat)
    requires ReadableLeaves(children)
    requires pos < |events| && events[pos] == StartElement("copyright", attributes)
    requires SpelledAt(events, pos + 1, RenderChildren(children))
    requires close == pos + 1 + |RenderChildren(children)| < |events|
    requires events[close] == EndElement("copyright")
    ensures ConsumeCopyright(events, pos)
            == Ok(Parsed(LastWins(Copyright(FindAuthor(attributes), None, None), children), close + 1))
  {
    var start := Copyright(FindAuthor(attributes), None, None);
    ConsumeCopyrightOpens(events, pos, attributes);
    CopyrightContentLastWins(events, pos + 1, children, close, start);
  }

  /** `children` spell the events from `pos` to `close`, their leaves are
      readable, and reading them over `copyright` gives `result`. */
  ghost predicate ChildrenRead(events: seq<Event>, pos: nat, close: nat, copyright: Copyright,
                               children: seq<CopyrightChild>, result: Copyright) {
    && ReadableLeaves(children)
    && SpelledAt(events, pos, RenderChildren(children))
    && pos + |RenderChildren(children)| == close
    && result == LastWins(copyright, children)
  }

  /** Some children spell the events from `pos` to `close` and read as `result`. */
  ghost predicate ReadAsChildren(events: seq<Event>, pos: nat, close: nat, copyright: Copyright, result: Copyright) {
    exists children: seq<CopyrightChild> :: ChildrenRead(events, pos, close, copyright, children, result)
  }

  /** Children read from `pos` on extend to the child found just before them. */
  lemma ChildrenReadCons(events: seq<Event>, pos: nat, close: nat, copyright: Copyright,
                         child: CopyrightChild, next: nat, after: Copyright, rest: seq<CopyrightChild>, result: Copyright)
    requires ReadableLeaf(child)
    requires SpelledAt(events, pos, RenderChild(child))
    requires next == pos + |RenderChild(child)| && after == StepChild(copyright, child)
    requires ChildrenRead(events, next, close, after, rest, result)
    ensures ChildrenRead(events, pos, close, copyright, [child] + rest, result)
  {
    var children := [child] + rest;
    assert children[0] == child && children[1..] == rest;
    assert RenderChildren(children) == RenderChild(child) + RenderChildren(rest);
    SpelledJoin(events, pos, RenderChild(child), RenderChildren(rest));
    LastWinsStep(copyright, children);
    forall i | 0 <= i < |children| ensures ReadableLeaf(children[i]) {
      if i > 0 {
        assert children[i] == rest[i - 1];
      }
    }
  }

  /** A string leaf read at an opening tag at `pos` is a leaf element whose
      body is filler with non-empty last text, the value read. */
  lemma ConsumedLeaf(events: seq<Event>, pos: nat, tagname: string) returns (body: seq<Event>)
    requires pos < |events| && events[pos].IsStartOf(tagname)
    requires ConsumeString(events, pos, tagname, false).Ok?
    ensures var text := ConsumeString(events, pos, tagname, false).value;
            && FillerBody(body)
            && LeafText(body) == text.value != ""
            && SpelledAt(events, pos, RenderLeaf(tagname, events[pos].attributes, body))
            && text.next == pos + |body| + 2
  {
    var text := ConsumeString(events, pos, tagname, false).value;
    VerifyStartingTagAccepts(events, pos, pos, tagname);
    ConsumeStringSound(events, pos, tagname, false);
    body := events[pos + 1 .. text.next - 1];
    assert SpelledAt(events, pos + 1, body);
    LastTextSpelled(events, pos + 1, body, |body|);
    var leaf := RenderLeaf(tagname, events[pos].attributes, body);
    forall i | 0 <= i < |leaf| ensures events[pos + i] == leaf[i] {
      if i == 0 {
        assert leaf[0] == events[pos];
      } else if i <= |body| {
        assert leaf[i] == body[i - 1];
      } else {
        assert leaf[i] == EndElement(tagname);
      }
    }
    forall i | 0 <= i < |body| ensures body[i].IsFiller() {
      assert body[i] == events[pos + 1 + i];
    }
  }

  /** The converse of `CopyrightContentLastWins`: whatever the copyright loop
      returns was read from children that spell the events up to its closing
      tag, every field last-wins over them. */
  lemma {:induction false} CopyrightContentLayout(events: seq<Event>, pos: nat, copyright: Copyright)
    returns (children: seq<CopyrightChild>)
    ensures var r := CopyrightContent(events, pos, copyright);
            r.Ok? ==> ChildrenRead(events, pos, r.value.next - 1, copyright, children, r.value.value)
    decreases |events| - pos, 1
  {
    children := [];
    var r := CopyrightContent(events, pos, copyright);
    if r.Err? || pos >= |events| {
      return;
    }
    if events[pos].StartElement? {
      children := LeafLayoutAt(events, pos, copyright);
    } else if events[pos].IsFiller() {
      children := FillerLayoutAt(events, pos, copyright);
    } else {
      assert r == Ok(Parsed(copyright, pos + 1));
      assert LastWins(copyright, []) == copyright;
    }
  }

  /** `CopyrightContentLayout` when a `license` or `year` leaf is read at the cursor. */
  lemma {:induction false} LeafLayoutAt(events: seq<Event>, pos: nat, copyright: Copyright)
    returns (children: seq<CopyrightChild>)
    requires pos < |events| && events[pos].StartElement?
    requires CopyrightContent(events, pos, copyright).Ok?
    ensures var r := CopyrightContent(events, pos, copyright);
            ChildrenRead(events, pos, r.value.next - 1, copyright, children, r.value.value)
    decreases |events| - pos, 0
  {
    var r := CopyrightContent(events, pos, copyright);
    CopyrightContentAtLeaf(events, pos, copyright);
    var name := events[pos].name;
    var step := CopyrightChildInto(events, pos, name, copyright).value;
    var child := LeafChildAt(events, pos, name, copyright);
    var rest := CopyrightContentLayout(events, step.next, step.value);
    ChildrenReadCons(events, pos, r.value.next - 1, copyright, child, step.next, step.value, rest, r.value.value);
    children := [child] + rest;
  }

  /** A copyright loop that succeeds with an opening tag at the cursor read a
      `license` or `year` leaf there and went on after it. */
  lemma CopyrightContentAtLeaf(events: seq<Event>, pos: nat, copyright: Copyright)
    requires pos < |events| && events[pos].StartElement?
    requires CopyrightContent(events, pos, copyright).Ok?
    ensures events[pos].name == "license" || events[pos].name == "year"
    ensures CopyrightChildInto(events, pos, events[pos].name, copyright).Ok?
    ensures CopyrightContent(events, pos, copyright)
            == CopyrightContent(events, CopyrightChildInto(events, pos, events[pos].name, copyright).value.next,
                                CopyrightChildInto(events, pos, events[pos].name, copyright).value.value)
  {
  }

  /** The leaf a successful `CopyrightChildInto` read at `pos`, as a child. */
  lemma LeafChildAt(events: seq<Event>, pos: nat, name: string, copyright: Copyright) returns (child: CopyrightChild)
    requires name == "license" || name == "year"
    requires pos < |events| && events[pos].IsStartOf(name)
    requires CopyrightChildInto(events, pos, name, copyright).Ok?
    ensures ReadableLeaf(child)
    ensures SpelledAt(events, pos, RenderChild(child))
    ensures pos + |RenderChild(child)| == CopyrightChildInto(events, pos, name, copyright).value.next
    ensures StepChild(copyright, child) == CopyrightChildInto(events, pos, name, copyright).value.value
  {
    var body := ConsumedLeaf(events, pos, name);
    child := if name == "license" then LicenseChild(events[pos].attributes, body)
             else YearChild(events[pos].attributes, body);
    assert RenderChild(child) == RenderLeaf(name, events[pos].attributes, body);
  }

  /** `CopyrightContentLayout` when text or other filler is at the cursor. */
  lemma {:induction false} FillerLayoutAt(events: seq<Event>, pos: nat, copyright: Copyright)
    returns (children: seq<CopyrightChild>)
    requires pos < |events| && events[pos].IsFiller()
    requires CopyrightContent(events, pos, copyright).Ok?
    ensures var r := CopyrightContent(events, pos, copyright);
            ChildrenRead(events, pos, r.value.next - 1, copyright, children, r.value.value)
    decreases |events| - pos, 0
  {
    var r := CopyrightContent(events, pos, copyright);
    assert r == CopyrightContent(events, pos + 1, copyright);
    var child := if events[pos].Characters? then TextChild(events[pos].text) else OtherChild;
    assert RenderChild(child) == [events[pos]];
    var rest := CopyrightContentLayout(events, pos + 1, copyright);
    ChildrenReadCons(events, pos, r.value.next - 1, copyright, child, pos + 1, copyright, rest, r.value.value);
    children := [child] + rest;
  }

  /** The converse of `ConsumeCopyrightLastWins`: whatever the consumer
      accepts is an opening tag followed by children that spell the events up
      to the closing tag, the author taken from the opening tag and every
      child field last-wins. */
  lemma ConsumeCopyrightSound(events: seq<Event>, pos: nat)
    ensures var r := ConsumeCopyright(events, pos);
            r.Ok? ==>
              var start := VerifyStartingTag(events, pos, "copyright").value;
              ReadAsChildren(events, start.next, r.value.next - 1,
                             Copyright(FindAuthor(start.value), None, None), r.value.value)
  {
    var r := ConsumeCopyright(events, pos);
    if r.Ok? {
      var start := VerifyStartingTag(events, pos, "copyright").value;
      var author := Copyright(FindAuthor(start.value), None, None);
      var children := CopyrightContentLayout(events, start.next, author);
      assert ChildrenRead(events, start.next, r.value.next - 1, author, children, r.value.value);
    }
  }

  /** The `author` attribute that writes `author`. */
  function AuthorAttributes(author: Option<string>): seq<Attribute> {
    match author
    case Some(a) => [Attribute("author", a)]
    case None => []
  }

  /** The children that write `c`: its year, then its license. */
  function ChildrenOf(c: Copyright): seq<CopyrightChild> {
    match (c.year, c.license)
    case (Some(y), Some(l)) => [Year(ShowInt(y)), License(l)]
    case (Some(y), None) => [Year(ShowInt(y))]
    case (None, Some(l)) => [License(l)]
    case (None, None) => []
  }

  lemma SingleTextLeaf(text: string)
    ensures FillerBody([Characters(text)]) && LeafText([Characters(text)]) == text
  {
    assert LastText([Characters(text)], 0, 1) == Some(text);
  }

  lemma ChildrenOfLastWins(c: Copyright)
    requires Producible(c)
    ensures ReadableLeaves(ChildrenOf(c))
    ensures LastWins(Copyright(c.author, None, None), ChildrenOf(c)) == c
  {
    var children := ChildrenOf(c);
    if c.year.Some? {
      ParseShowRoundTrip(c.year.value);
      assert ShowInt(c.year.value) != "";
      SingleTextLeaf(ShowInt(c.year.value));
    }
    if c.license.Some? {
      SingleTextLeaf(c.license.value);
    }
    match (c.year, c.license) {
      case (Some(y), Some(l)) =>
        assert children[1..] == [License(l)];
        assert children[1..][1..] == [];
        assert LastYearText(children[1..]) == None;
        assert LastLicense(children[1..]) == Some(l);
        assert LastYearText(children) == Some(ShowInt(y));
        assert LastLicense(children) == Some(l);
      case (Some(y), None) =>
        assert children[1..] == [];
        assert LastYearText(children) == Some(ShowInt(y));
        assert LastLicense(children) == None;
      case (None, Some(l)) =>
        assert children[1..] == [];
        assert LastYearText(children) == None;
        assert LastLicense(children) == Some(l);
      case (None, None) =>
    }
  }

  /** A rendered copyright element anywhere in the stream is read in full. */
  lemma ConsumeRenderedCopyright(events: seq<Event>, pos: nat, attributes: seq<Attribute>, children: seq<CopyrightChild>)
    requires ReadableLeaves(children)
    requires SpelledAt(events, pos, RenderCopyright(attributes, children))
    ensures ConsumeCopyright(events, pos)
            == Ok(Parsed(LastWins(Copyright(FindAuthor(attributes), None, None), children),
                         pos + |RenderCopyright(attributes, children)|))
  {
    var close := pos + 1 + |RenderChildren(children)|;
    SpelledCopyrightParts(events, pos, attributes, children);
    ConsumeCopyrightLastWins(events, pos, attributes, children, close);
    ReadUpTo(ConsumeCopyright(events, pos), LastWins(Copyright(FindAuthor(attributes), None, None), children),
             close + 1, pos + |RenderCopyright(attributes, children)|);
  }

  /** A result read up to `a` is read up to any `b` equal to it. */
  lemma ReadUpTo(r: ParseResult<Copyright>, c: Copyright, a: nat, b: nat)
    requires r == Ok(Parsed(c, a)) && a == b
    ensures r == Ok(Parsed(c, b))
  {
  }

  lemma AuthorAttributesFound(author: Option<string>)
    ensures FindAuthor(AuthorAttributes(author)) == author
  {
    if author.Some? {
      assert FirstAuthorAt(AuthorAttributes(author), 0);
    }
  }

  /** Every copyright the consumer can produce is read back from its own
      rendering. */
  lemma CopyrightRoundTrip(c: Copyright)
    requires Producible(c)
    ensures var events := RenderCopyright(AuthorAttributes(c.author), ChildrenOf(c));
            ConsumeCopyright(events, 0) == Ok(Parsed(c, |events|))
  {
    var attributes := AuthorAttributes(c.author);
    var events := RenderCopyright(attributes, ChildrenOf(c));
    ChildrenOfLastWins(c);
    AuthorAttributesFound(c.author);
    assert SpelledAt(events, 0, events);
    ConsumeRenderedCopyright(events, 0, attributes, ChildrenOf(c));
  }
}
