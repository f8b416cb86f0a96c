/**
 * What a rule hands back to the linter: results anchored at segments, each
 * with the fixes the linter may apply. Fixes are declarative; applying them
 * and re-parsing the edited text is the linter's business.
 */
module Linting {
  import opened Wrappers
  import opened Segments

  /**
   * A segment in a fix's payload: a whitespace or keyword token made fresh by
   * the rule (`WhitespaceSegment()`, `KeywordSegment(raw)`), or a segment of
   * the parsed tree reused as it is.
   */
  datatype EditSegment =
    | Whitespace(raw: string)
    | Keyword(raw: string)
    | Existing(segment: Segment)

  /** The source text a fix's payload inserts. */
  function EditText(edit: seq<EditSegment>): string {
    if edit == [] then ""
    else
      var head := match edit[0]
        case Whitespace(raw) => raw
        case Keyword(raw) => raw
        case Existing(segment) => Text(segment);
      head + EditText(edit[1..])
  }

  /** `LintFix.create_after(anchor, edit)`: insert `edit` right after `anchor`. */
  datatype LintFix = CreateAfter(anchor: Segment, edit: seq<EditSegment>)

  /** `LintResult(anchor, description, fixes)` */
  datatype LintResult = LintResult(anchor: Segment, description: string, fixes: seq<LintFix>)

  /**
   * How a rule's `_eval` ends: it returns a list of results or `None`, or it
   * raises an `IndexError` out of a list subscript.
   */
  datatype EvalResult =
    | Returned(value: Option<seq<LintResult>>)
    | IndexError
}
