/** The already-tokenised XML event stream the parser walks.  Tokenisation,
    whitespace and CDATA normalisation happen before this point: whitespace-only
    text and CDATA sections arrive as `Characters`. */
module XmlEvents {

  /** An attribute of an opening tag, reduced to its local name and value. */
  datatype Attribute = Attribute(localName: string, value: string)

  datatype Event =
    | StartElement(name: string, attributes: seq<Attribute>)
    | EndElement(name: string)
    | Characters(text: string)
      /** Comments, processing instructions, document start and end. */
    | Other
      /** The tokenizer reported malformed input at this point. */
    | TokError
  {
    /** Opening tags, closing tags and text: the events a tag check decides on. */
    predicate IsStructural() {
      StartElement? || EndElement? || Characters?
    }

    predicate IsStartOf(tag: string) {
      StartElement? && name == tag
    }

    predicate IsEndOf(tag: string) {
      EndElement? && name == tag
    }

    /** Events a composite consumer consumes and ignores between its children. */
    predicate IsFiller() {
      Characters? || Other?
    }
  }

  /** Every event in `events[lo..hi]` is noise to the opening-tag check. */
  ghost predicate OnlyNoise(events: seq<Event>, lo: nat, hi: nat) {
    && hi <= |events|
    && forall j :: lo <= j < hi ==> !events[j].IsStructural()
  }

  /** Every event in `events[lo..hi]` is text or other non-element noise. */
  ghost predicate OnlyFiller(events: seq<Event>, lo: nat, hi: nat) {
    && hi <= |events|
    && forall j :: lo <= j < hi ==> events[j].IsFiller()
  }

  /** The events from `pos` on spell out `s`. */
  ghost predicate SpelledAt(events: seq<Event>, pos: nat, s: seq<Event>) {
    && pos + |s| <= |events|
    && forall i :: 0 <= i < |s| ==> events[pos + i] == s[i]
  }

  /** Spelling a concatenation is spelling its parts one after the other. */
  lemma SpelledConcat(events: seq<Event>, pos: nat, a: seq<Event>, b: seq<Event>)
    requires SpelledAt(events, pos, a + b)
    ensures SpelledAt(events, pos, a)
    ensures SpelledAt(events, pos + |a|, b)
  {
    forall i | 0 <= i < |a| ensures events[pos + i] == a[i] {
      assert (a + b)[i] == a[i];
    }
    forall i | 0 <= i < |b| ensures events[pos + |a| + i] == b[i] {
      assert (a + b)[|a| + i] == b[i];
    }
  }

  /** The converse of `SpelledConcat`: parts spelled one after the other
      spell their concatenation. */
  lemma SpelledJoin(events: seq<Event>, pos: nat, a: seq<Event>, b: seq<Event>)
    requires SpelledAt(events, pos, a)
    requires SpelledAt(events, pos + |a|, b)
    ensures SpelledAt(events, pos, a + b)
  {
    forall i | 0 <= i < |a + b| ensures events[pos + i] == (a + b)[i] {
      if i >= |a| {
        assert events[pos + |a| + (i - |a|)] == b[i - |a|];
      }
    }
  }
}
