/** The string leaf: the text content of one element with no markup inside. */
module StringLeaf {
  import opened Wrappers
  import opened XmlEvents
  import opened Errors
  import opened Parser

  /** The text of the last `Characters` event in `events[lo..hi]`, if there is one. */
  function LastText(events: seq<Event>, lo: nat, hi: nat): Option<string>
    requires hi <= |events|
    decreases hi
  {
    if hi <= lo then None
    else if events[hi - 1].Characters? then Some(events[hi - 1].text)
    else LastText(events, lo, hi - 1)
  }

  /** Reads one element named `tagname` and returns its text.  Of several
      text events the last one is kept; nested elements, a foreign closing tag,
      a tokenizer error and a missing closing tag are errors, and so is empty
      text unless `allowEmpty`. */
  function ConsumeString(events: seq<Event>, pos: nat, tagname: string, allowEmpty: bool): (r: ParseResult<string>)
    ensures r.Ok? ==> pos < r.value.next <= |events|
    ensures VerifyStartingTag(events, pos, tagname).Err? ==>
              r == Err(VerifyStartingTag(events, pos, tagname).error)
    ensures r.Ok? ==>
              && VerifyStartingTag(events, pos, tagname).Ok?
              && VerifyStartingTag(events, pos, tagname).value.next < r.value.next
              && events[r.value.next - 1] == EndElement(tagname)
              && (allowEmpty || r.value.value != "")
  {
    match VerifyStartingTag(events, pos, tagname)
    case Err(e) => Err(e)
    case Ok(start) => StringContent(events, start.next, tagname, allowEmpty, "")
  }

  /** The loop of `ConsumeString` after the opening tag; `text` is the last
      text seen so far. */
  function StringContent(events: seq<Event>, pos: nat, tagname: string, allowEmpty: bool, text: string): (r: ParseResult<string>)
    ensures r.Ok? ==>
              && pos < r.value.next <= |events|
              && events[r.value.next - 1] == EndElement(tagname)
              && (allowEmpty || r.value.value != "")
    decreases |events| - pos
  {
    if pos >= |events| then Err(MissingClosingTag(tagname))
    else
      match events[pos]
      case TokError => Err(XmlParseError)
      case StartElement(name, _) => Err(InvalidChildElement(name, tagname))
      case Characters(content) => StringContent(events, pos + 1, tagname, allowEmpty, content)
      case EndElement(name) =>
        if name != tagname then Err(InvalidClosingTag(name, tagname))
        else if allowEmpty || text != "" then Ok(Parsed(text, pos + 1))
        else Err(NoStringContent)
      case Other => StringContent(events, pos + 1, tagname, allowEmpty, text)
  }

  /** A successful string loop crossed only text and filler, and returns the
      last text among them (or the text it started with). */
  lemma {:induction false} StringContentSound(events: seq<Event>, pos: nat, tagname: string, allowEmpty: bool, text: string)
    ensures var r := StringContent(events, pos, tagname, allowEmpty, text);
            r.Ok? ==>
              && OnlyFiller(events, pos, r.value.next - 1)
              && r.value.value == LastText(events, pos, r.value.next - 1).GetOr(text)
    decreases |events| - pos
  {
    if pos < |events| && events[pos].IsFiller() {
      var text' := if events[pos].Characters? then events[pos].text else text;
      StringContentFillerStep(events, pos, tagname, allowEmpty, text);
      StringContentSound(events, pos + 1, tagname, allowEmpty, text');
      var rest := StringContent(events, pos + 1, tagname, allowEmpty, text');
      if rest.Ok? {
        LastTextCons(events, pos, rest.value.next - 1, text);
        assert rest.value.value == LastText(events, pos, rest.value.next - 1).GetOr(text);
      }
    } else if StringContent(events, pos, tagname, allowEmpty, text).Ok? {
      assert LastText(events, pos, pos) == None;
      assert StringContent(events, pos, tagname, allowEmpty, text) == Ok(Parsed(text, pos + 1));
    }
  }

  /** Text and other filler are crossed, the text becoming the latest one. */
  lemma StringContentFillerStep(events: seq<Event>, pos: nat, tagname: string, allowEmpty: bool, text: string)
    requires pos < |events| && events[pos].IsFiller()
    ensures StringContent(events, pos, tagname, allowEmpty, text)
            == StringContent(events, pos + 1, tagname, allowEmpty, if events[pos].Characters? then events[pos].text else text)
  {
  }

  /** A successful string read crossed only text and filler between its tags,
      and returns the last text among them; several texts are not joined. */
  lemma ConsumeStringSound(events: seq<Event>, pos: nat, tagname: string, allowEmpty: bool)
    ensures var r := ConsumeString(events, pos, tagname, allowEmpty);
            r.Ok? ==>
              var open := VerifyStartingTag(events, pos, tagname).value.next;
              && OnlyFiller(events, open, r.value.next - 1)
              && r.value.value == LastText(events, open, r.value.next - 1).GetOr("")
  {
    var start := VerifyStartingTag(events, pos, tagname);
    if start.Ok? {
      StringContentSound(events, start.value.next, tagname, allowEmpty, "");
    }
  }

  /** Peeling one event off the front of a range: a text event there becomes
      the fallback when no later text follows. */
  lemma {:induction false} LastTextCons(events: seq<Event>, pos: nat, c: nat, text: string)
    requires pos < c <= |events|
    ensures LastText(events, pos, c).GetOr(text)
            == LastText(events, pos + 1, c).GetOr(if events[pos].Characters? then events[pos].text else text)
    decreases c
  {
    if pos + 1 < c && !events[c - 1].Characters? {
      LastTextCons(events, pos, c - 1, text);
    }
  }

  /** After a run of text and other filler, the first remaining event decides
      the outcome of the string loop. */
  lemma {:induction false} StringContentStops(events: seq<Event>, pos: nat, c: nat, tagname: string, allowEmpty: bool, text: string)
    requires pos <= c
    requires OnlyFiller(events, pos, c)
    ensures var r := StringContent(events, pos, tagname, allowEmpty, text);
            var t := LastText(events, pos, c).GetOr(text);
            && (c == |events| ==> r == Err(MissingClosingTag(tagname)))
            && (c < |events| && events[c].TokError? ==> r == Err(XmlParseError))
            && (c < |events| && events[c].StartElement? ==> r == Err(InvalidChildElement(events[c].name, tagname)))
            && (c < |events| && events[c].EndElement? && events[c].name != tagname ==>
                  r == Err(InvalidClosingTag(events[c].name, tagname)))
            && (c < |events| && events[c].IsEndOf(tagname) ==>
                  r == if allowEmpty || t != "" then Ok(Parsed(t, c + 1)) else Err(NoStringContent))
    decreases c - pos
  {
    if pos < c {
      LastTextCons(events, pos, c, text);
      var text' := if events[pos].Characters? then events[pos].text else text;
      StringContentStops(events, pos + 1, c, tagname, allowEmpty, text');
    }
  }

  /** The whole string consumer: once the opening tag is accepted, the first
      event after it that is not text or other filler decides the outcome. */
  lemma {:induction false} ConsumeStringStops(events: seq<Event>, pos: nat, c: nat, tagname: string, allowEmpty: bool)
    requires VerifyStartingTag(events, pos, tagname).Ok?
    requires VerifyStartingTag(events, pos, tagname).value.next <= c
    requires OnlyFiller(events, VerifyStartingTag(events, pos, tagname).value.next, c)
    ensures var r := ConsumeString(events, pos, tagname, allowEmpty);
            var t := LastText(events, VerifyStartingTag(events, pos, tagname).value.next, c).GetOr("");
            && (c == |events| ==> r == Err(MissingClosingTag(tagname)))
            && (c < |events| && events[c].TokError? ==> r == Err(XmlParseError))
            && (c < |events| && events[c].StartElement? ==> r == Err(InvalidChildElement(events[c].name, tagname)))
            && (c < |events| && events[c].EndElement? && events[c].name != tagname ==>
                  r == Err(InvalidClosingTag(events[c].name, tagname)))
            && (c < |events| && events[c].IsEndOf(tagname) ==>
                  r == if allowEmpty || t != "" then Ok(Parsed(t, c + 1)) else Err(NoStringContent))
  {
    StringContentStops(events, VerifyStartingTag(events, pos, tagname).value.next, c, tagname, allowEmpty, "");
  }

  /** The last text of events spelled out elsewhere is the last text of
      what they spell. */
  lemma {:induction false} LastTextSpelled(events: seq<Event>, pos: nat, body: seq<Event>, h: nat)
    requires SpelledAt(events, pos, body) && h <= |body|
    ensures LastText(events, pos, pos + h) == LastText(body, 0, h)
    decreases h
  {
    if h > 0 {
      assert events[pos + (h - 1)] == body[h - 1];
      LastTextSpelled(events, pos, body, h - 1);
    }
  }
}
