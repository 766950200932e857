/** The parse context and the opening-tag check every consumer starts with.
    The context is the event sequence plus a cursor; a cursor at or past the
    end means the stream is exhausted. */
module Parser {
  import opened Wrappers
  import opened XmlEvents
  import opened Errors

  /** A parsed value and the cursor just after the events it was parsed from. */
  datatype Parsed<T> = Parsed(value: T, next: nat)

  type ParseResult<T> = Result<Parsed<T>, GpxError>

  /** What an error names for a structural event: a tag's local name, or the text. */
  function Found(e: Event): string
    requires e.IsStructural()
  {
    match e
    case StartElement(name, _) => name
    case EndElement(name) => name
    case Characters(text) => text
  }

  /** Skips events that are neither tags nor text, then accepts an opening tag
      named `localName` and returns its attributes, or fails on the first tag
      or text that is anything else. */
  function VerifyStartingTag(events: seq<Event>, pos: nat, localName: string): (r: ParseResult<seq<Attribute>>)
    ensures r.Ok? ==>
              && pos < r.value.next <= |events|
              && events[r.value.next - 1] == StartElement(localName, r.value.value)
    ensures r.Err? ==> r.error == MissingOpeningTag(localName) || (r.error.InvalidChildElement? && r.error.expected == localName)
    decreases |events| - pos
  {
    if pos >= |events| then Err(MissingOpeningTag(localName))
    else
      match events[pos]
      case StartElement(name, attributes) =>
        if name != localName then Err(InvalidChildElement(name, localName))
        else Ok(Parsed(attributes, pos + 1))
      case EndElement(name) => Err(InvalidChildElement(name, localName))
      case Characters(chars) => Err(InvalidChildElement(chars, localName))
      case _ => VerifyStartingTag(events, pos + 1, localName)
  }

  /** Only noise lies before an accepted opening tag, and only noise is left
      when the opening tag is missing. */
  lemma {:induction false} VerifyStartingTagSound(events: seq<Event>, pos: nat, localName: string)
    ensures var r := VerifyStartingTag(events, pos, localName);
            && (r.Ok? ==> OnlyNoise(events, pos, r.value.next - 1))
            && (r == Err(MissingOpeningTag(localName)) ==> OnlyNoise(events, pos, |events|))
    decreases |events| - pos
  {
    if pos < |events| && !events[pos].IsStructural() {
      VerifyStartingTagSound(events, pos + 1, localName);
    }
  }

  /** Any run of noise is skipped: the outcome is decided by what follows it. */
  lemma {:induction false} VerifyStartingTagSkipsNoise(events: seq<Event>, pos: nat, k: nat, localName: string)
    requires pos <= k
    requires OnlyNoise(events, pos, k)
    ensures VerifyStartingTag(events, pos, localName) == VerifyStartingTag(events, k, localName)
    decreases k - pos
  {
    if pos < k {
      VerifyStartingTagSkipsNoise(events, pos + 1, k, localName);
    }
  }

  /** An expected opening tag after noise is accepted with its attributes
      unchanged, and the cursor ends just after it. */
  lemma {:induction false} VerifyStartingTagAccepts(events: seq<Event>, pos: nat, k: nat, localName: string)
    requires pos <= k < |events|
    requires OnlyNoise(events, pos, k)
    requires events[k].IsStartOf(localName)
    ensures VerifyStartingTag(events, pos, localName) == Ok(Parsed(events[k].attributes, k + 1))
  {
    VerifyStartingTagSkipsNoise(events, pos, k, localName);
  }

  /** Any other tag or text after noise, whitespace included, is rejected and named. */
  lemma {:induction false} VerifyStartingTagRejects(events: seq<Event>, pos: nat, k: nat, localName: string)
    requires pos <= k < |events|
    requires OnlyNoise(events, pos, k)
    requires events[k].IsStructural() && !events[k].IsStartOf(localName)
    ensures VerifyStartingTag(events, pos, localName) == Err(InvalidChildElement(Found(events[k]), localName))
  {
    VerifyStartingTagSkipsNoise(events, pos, k, localName);
  }

  /** A stream holding nothing but noise ends in a missing opening tag. */
  lemma {:induction false} VerifyStartingTagMissing(events: seq<Event>, pos: nat, localName: string)
    requires OnlyNoise(events, pos, |events|)
    ensures VerifyStartingTag(events, pos, localName) == Err(MissingOpeningTag(localName))
  {
    if pos < |events| {
      VerifyStartingTagSkipsNoise(events, pos, |events|, localName);
    }
  }
}
