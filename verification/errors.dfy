/** The failures the patcher and the older command-line tool can raise, and the
    text each one carries. */
module Errors {

  datatype Error =
    /** `RuntimeError` raised when a document number matches neither format. */
    | UnknownDocumentFormat(input: string)
    /** `AssertionError` raised when no user id data entry (`II`) is found. */
    | NoUserEntries
    /** `AssertionError` raised by the older tool on a foreign root namespace. */
    | NamespaceMismatch(actual: string, expected: string)
    /** `IndexError` of the older tool when `KEDU/ZUSDRA/II` selects nothing. */
    | MissingUserEntry
    /** The file could not be read or is not well-formed XML. */
    | MalformedXml
    /** An operation that needs a loaded document was called before `load`. */
    | NotLoaded
    /** Neither or both of `--id` and `--passport` were given (exit code 2). */
    | Usage
    /** lxml's `ValueError` on setting element text that holds a character XML
        does not allow. */
    | InvalidXmlText

  /** The message text the program attaches to each failure, never empty; the
      lemmas below show which inputs it quotes. */
  function Message(e: Error): (m: string)
    ensures |m| > 0
  {
    match e
    case UnknownDocumentFormat(input) =>
      "Unknown document format for document id \"" + input + "\"!"
    case NoUserEntries =>
      "Malformed ZUS KEDU document, expected at least one user id data entry, found 0!"
    case NamespaceMismatch(actual, expected) =>
      "Actual namespace \"" + actual + "\" differs than expected one \"" + expected
      + "\", document cannot be processed"
    case MissingUserEntry =>
      "list index out of range"
    case MalformedXml =>
      "document is not well-formed XML"
    case NotLoaded =>
      "no document loaded"
    case Usage =>
      "Needs exactly one argument '--id' or '--passport'"
    case InvalidXmlText =>
      "All strings must be XML compatible: Unicode or ASCII, no NULL bytes or control characters"
  }

  /** `t` occurs in `s` as a contiguous piece. */
  ghost predicate Contains(s: string, t: string)
  {
    exists i :: OccursAt(s, t, i)
  }

  /** `t` occurs in `s` starting at index `i`. */
  predicate OccursAt(s: string, t: string, i: int)
  {
    0 <= i <= |s| - |t| && s[i..i + |t|] == t
  }

  /** An unrecognised document number is reported with the input exactly as the
      caller supplied it, before any normalisation. */
  lemma UnknownFormatNamesInput(input: string)
    ensures Contains(Message(UnknownDocumentFormat(input)), input)
  {
    var prefix := "Unknown document format for document id \"";
    assert OccursAt(Message(UnknownDocumentFormat(input)), input, |prefix|);
  }

  /** A namespace mismatch names both the namespace found and the one expected. */
  lemma NamespaceMismatchNamesBoth(actual: string, expected: string)
    ensures Contains(Message(NamespaceMismatch(actual, expected)), actual)
    ensures Contains(Message(NamespaceMismatch(actual, expected)), expected)
  {
    var m := Message(NamespaceMismatch(actual, expected));
    var head := "Actual namespace \"";
    var middle := "\" differs than expected one \"";
    assert OccursAt(m, actual, |head|);
    assert OccursAt(m, expected, |head| + |actual| + |middle|);
  }
}
