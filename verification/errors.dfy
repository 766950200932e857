/** The error kinds the modelled consumers raise; tag names and the text
    that was found are plain strings. */
module Errors {

  datatype GpxError =
      /** The expected opening tag never came before the stream ran out. */
    | MissingOpeningTag(expected: string)
      /** `found` (a tag name, or text) appeared where `expected` was wanted. */
    | InvalidChildElement(found: string, expected: string)
      /** A closing tag named `found` closed the element `expected`. */
    | InvalidClosingTag(found: string, expected: string)
      /** The stream ran out while `expected` was still open. */
    | MissingClosingTag(expected: string)
      /** A string leaf that must not be empty was empty. */
    | NoStringContent
      /** The tokenizer failed while `entity` was being parsed. */
    | EventParsingError(entity: string)
      /** The tokenizer failed inside a track segment. */
    | TrackSegmentError
      /** A tokenizer failure passed through unchanged by a string leaf. */
    | XmlParseError
}
