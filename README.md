# HNL_A001: simple columns must be aliased

A model in Dafny of the sqlfluff plugin rule `Rule_HNL_A001`. The rule visits
each `select_clause` segment of a parsed SQL statement. It reports every simple
column in the clause that has no alias. A simple column is a bare column
reference, not a function or an expression. Each report carries a fix that
appends a self-alias, so `a.col_a` becomes `a.col_a AS col_a`: the name is the
first quoted identifier of the reference if it has one, otherwise its last
naked identifier, so a naked qualifier such as `a` is never taken. A quoted
qualifier is taken, though (see "## Findings").

- `segments.dfy` (module `Segments`): the parse tree as the rule sees it. It
  has the `Segment` datatype (raw leaf tokens and nodes with ordered children,
  each with its set of class types and a uuid for identity). It also has the
  tree queries the rule calls: `get_child` (`GetChild`, the first child of a
  type), `get_children` and `Segments.select` (`GetChildren`, `Select`, all
  children of a type in order) and `get_raw_segments` (`RawSegments`).
- `linting.dfy` (module `Linting`): what a rule returns. It has `LintResult`,
  the `create_after` `LintFix`, the segments of a fix's payload, and
  `EvalResult`, which is either the returned value (a list of results or
  `None`) or the `IndexError` the rule can raise.
- `rule_hnl_a001.dfy` (module `RuleHnlA001`): the rule. `Eval` is `_eval`: a
  loop over the clause elements that appends to a list of violations. It is
  proved equal to the specification function `Expected`. `ChooseIdentifier`
  picks the column's name. `Qualifying` is an independent filter of the
  elements the rule should flag, and the lemmas tie `Expected` to it.
- `wrappers.dfy` (module `Wrappers`): `Option`, for `None`-or-segment.

Three points of the rule's behaviour, each as its code has it:

- The fix is inserted after the element's last raw segment (rules.py:107), not
  after the column reference node.
- The payload reuses the identifier segment as it is (`Existing`), quotes
  included (rules.py:108); the rule strips nothing.
- An element with no column-reference child, such as a function call or an
  expression, is skipped without any report (rules.py:81).

## Model

| member | source | states |
|---|---|---|
| `RuleHnlA001.Eval` | plugins/sqlfluff-plugin-hnl/src/sqlfluff_plugin_hnl/rules.py:51-114 | On a `select_clause` segment (the assertion at line 63 becomes the precondition), the loop's outcome is exactly `Expected(clause)`: the results in order, `None` when there are none, or `IndexError` |
| `RuleHnlA001.CheckElement` | plugins/sqlfluff-plugin-hnl/src/sqlfluff_plugin_hnl/rules.py:70-111 | The loop body on one element yields exactly the verdict `Check` gives: skip, one result, or a raise |
| `RuleHnlA001.CheckVerdicts` | plugins/sqlfluff-plugin-hnl/src/sqlfluff_plugin_hnl/rules.py:79-111 | An element is skipped exactly when it does not qualify, raises exactly when it qualifies and has no raw segment, and otherwise gives the result `ViolationFor` builds |
| `RuleHnlA001.CheckByParts` | plugins/sqlfluff-plugin-hnl/src/sqlfluff_plugin_hnl/rules.py:70-111 | The verdict in terms of the values the loop reads off the element: raw segments, column reference and alias expression |
| `RuleHnlA001.CollectStep` | plugins/sqlfluff-plugin-hnl/src/sqlfluff_plugin_hnl/rules.py:69-112 | One more element extends the walk: a skip keeps the results, a flag appends its result, a raise ends the walk |
| `RuleHnlA001.CollectSnoc` | plugins/sqlfluff-plugin-hnl/src/sqlfluff_plugin_hnl/rules.py:69-112 | The walk over some elements and then one more is one step past the walk over the first ones |
| `RuleHnlA001.AdvanceCrashes` | plugins/sqlfluff-plugin-hnl/src/sqlfluff_plugin_hnl/rules.py:101-107 | A step ends in a raise exactly when the walk had already raised or the element raises |
| `RuleHnlA001.CrashPersists` | plugins/sqlfluff-plugin-hnl/src/sqlfluff_plugin_hnl/rules.py:101-107 | An `IndexError` on one element ends the whole evaluation, whatever follows |
| `RuleHnlA001.Expected` | plugins/sqlfluff-plugin-hnl/src/sqlfluff_plugin_hnl/rules.py:114 | A returned list of results is never empty: `violations or None` turns an empty list into `None` |
| `RuleHnlA001.HasIdentifierExactly` | plugins/sqlfluff-plugin-hnl/src/sqlfluff_plugin_hnl/rules.py:85-87 | A column reference passes the identifier guard exactly when one of its children is a naked or quoted identifier |
| `RuleHnlA001.QualifiesExactly` | plugins/sqlfluff-plugin-hnl/src/sqlfluff_plugin_hnl/rules.py:74-87 | An element is flagged exactly when its first column-reference child has an identifier child and none of its children is an alias expression |
| `RuleHnlA001.ChooseIdentifier` | plugins/sqlfluff-plugin-hnl/src/sqlfluff_plugin_hnl/rules.py:88-96 | The name is the first quoted-identifier child if there is one, otherwise the last naked-identifier child (no naked child comes after it) |
| `RuleHnlA001.AliasEditSpellsSelfAlias` | plugins/sqlfluff-plugin-hnl/src/sqlfluff_plugin_hnl/rules.py:108 | The payload spells ` AS ` followed by the identifier's own text, quotes included, and reuses no segment but the identifier |
| `RuleHnlA001.ViolationForSpellsAlias` | plugins/sqlfluff-plugin-hnl/src/sqlfluff_plugin_hnl/rules.py:101-111 | A result has exactly one fix, and its payload spells ` AS ` followed by the chosen identifier's text |
| `RuleHnlA001.ViolationForReports` | plugins/sqlfluff-plugin-hnl/src/sqlfluff_plugin_hnl/rules.py:101-111 | The result built for a flagged element is described "Column should be aliased.", is anchored at the element's first raw segment, and has one fix inserting whitespace, `AS`, whitespace and the chosen identifier after its last raw segment |
| `RuleHnlA001.Qualifying` | plugins/sqlfluff-plugin-hnl/src/sqlfluff_plugin_hnl/rules.py:79-87 | The elements to flag are elements of the input, and each has a column reference that names its column and has no alias expression |
| `RuleHnlA001.QualifyingKeepsAll` | plugins/sqlfluff-plugin-hnl/src/sqlfluff_plugin_hnl/rules.py:79-87 | No element that passes the guards is left out of the elements to flag |
| `RuleHnlA001.NothingQualifies` | plugins/sqlfluff-plugin-hnl/src/sqlfluff_plugin_hnl/rules.py:81-87 | Where no element passes the guards, nothing is flagged |
| `RuleHnlA001.SomeLacksRawsAppend` | plugins/sqlfluff-plugin-hnl/src/sqlfluff_plugin_hnl/rules.py:103 | Some segment of a concatenation has no raw segment exactly when some segment of one of the parts has none |
| `RuleHnlA001.RaisesOnStep` | plugins/sqlfluff-plugin-hnl/src/sqlfluff_plugin_hnl/rules.py:101-107 | Some flagged element lacks raw segments exactly when one before the last does, or the last is flagged and lacks them |
| `RuleHnlA001.CollectRaisesExactly` | plugins/sqlfluff-plugin-hnl/src/sqlfluff_plugin_hnl/rules.py:101-107 | The walk raises exactly when a qualifying element has no raw segment to subscript |
| `RuleHnlA001.CollectReportsQualifying` | plugins/sqlfluff-plugin-hnl/src/sqlfluff_plugin_hnl/rules.py:65-112 | A walk that does not raise gives one result per qualifying element, in document order, each the one `ViolationFor` builds for it, and no others |
| `RuleHnlA001.ExpectedRaisesExactly` | plugins/sqlfluff-plugin-hnl/src/sqlfluff_plugin_hnl/rules.py:101-107 | The rule raises exactly when a qualifying element of the clause has no raw segment |
| `RuleHnlA001.ExpectedNoneExactly` | plugins/sqlfluff-plugin-hnl/src/sqlfluff_plugin_hnl/rules.py:65-114 | The rule returns `None` exactly when no element of the clause qualifies |
| `RuleHnlA001.ExpectedReportsEach` | plugins/sqlfluff-plugin-hnl/src/sqlfluff_plugin_hnl/rules.py:65-114 | A returned list has one result per qualifying element, in document order, each reporting its element as `ViolationForReports` states |
| `RuleHnlA001.ReportsEachViolation` | plugins/sqlfluff-plugin-hnl/src/sqlfluff_plugin_hnl/rules.py:101-111 | Results built by `ViolationFor`, one per flagged element, report those elements one for one |
| `RuleHnlA001.ExpectedFlagsQualifyingElements` | plugins/sqlfluff-plugin-hnl/src/sqlfluff_plugin_hnl/rules.py:65-114 | The result is `None` exactly when no element qualifies. Otherwise there is one result per qualifying element, in order. Each is described "Column should be aliased." and anchored at the element's first raw segment. Each has one fix: insert whitespace, `AS`, whitespace and the chosen identifier after the element's last raw segment. `IndexError` happens exactly when a qualifying element has no raw segment |
| `RuleHnlA001.OtherChildrenAreIgnored` | plugins/sqlfluff-plugin-hnl/src/sqlfluff_plugin_hnl/rules.py:67-69 | Inserting a child that is not a `select_clause_element` anywhere in the clause leaves the outcome unchanged |
| `RuleHnlA001.AliasedClauseIsClean` | plugins/sqlfluff-plugin-hnl/src/sqlfluff_plugin_hnl/rules.py:36-44 | A clause where every named reference column already has an alias expression (`col AS col`) gives `None` |
| `RuleHnlA001.WellFormedClauseNeverRaises` | plugins/sqlfluff-plugin-hnl/src/sqlfluff_plugin_hnl/rules.py:101-107 | On a tree with no empty non-raw segment, the subscripts at lines 103 and 107 never raise |
| `RuleHnlA001.AliasedElementIsSkipped` | plugins/sqlfluff-plugin-hnl/src/sqlfluff_plugin_hnl/rules.py:74-81 | A flagged element that then gets an alias expression after its children, as the fix parses, is no longer flagged |
| `RuleHnlA001.FixedClauseIsClean` | plugins/sqlfluff-plugin-hnl/src/sqlfluff_plugin_hnl/rules.py:74-81 | Once every flagged element has been replaced by its fixed form, the rule reports nothing on the clause: applying the fixes settles it |
| `RuleHnlA001.QualifiedReferenceNamesColumn` | plugins/sqlfluff-plugin-hnl/src/sqlfluff_plugin_hnl/rules.py:58-61 | For `a.col_a` the chosen name is `col_a`, not the qualifier `a` |
| `RuleHnlA001.QuotedQualifierIsChosen` | plugins/sqlfluff-plugin-hnl/src/sqlfluff_plugin_hnl/rules.py:93-94 | For `"a".col_a` the rule takes the quoted qualifier `"a"`, while the intended name is `col_a` |
| `RuleHnlA001.LastIdentifierExists` | plugins/sqlfluff-plugin-hnl/src/sqlfluff_plugin_hnl/rules.py:89-92 | The last identifier of a reference exists exactly when the reference has an identifier |
| `RuleHnlA001.LastIdentifierIsLast` | plugins/sqlfluff-plugin-hnl/src/sqlfluff_plugin_hnl/rules.py:89-92 | What is found as the last identifier has no identifier after it |
| `RuleHnlA001.IntendedIdentifier` | plugins/sqlfluff-plugin-hnl/src/sqlfluff_plugin_hnl/rules.py:89-92 | The corrected choice is the last identifier of the reference, naked or quoted, so never a qualifier |
| `RuleHnlA001.UnquotedChoiceIsIntended` | plugins/sqlfluff-plugin-hnl/src/sqlfluff_plugin_hnl/rules.py:93-96 | Where the reference has no quoted identifier, the rule's choice is the corrected one |
| `RuleHnlA001.LastNakedIsLastIdentifier` | plugins/sqlfluff-plugin-hnl/src/sqlfluff_plugin_hnl/rules.py:95-96 | Where no child is quoted, the last naked identifier is the last identifier |
| `RuleHnlA001.ClauseExample` | plugins/sqlfluff-plugin-hnl/src/sqlfluff_plugin_hnl/rules.py:58-61 | On `SELECT a.col_a, b AS b, count(x)` exactly one result is returned: anchored at `a`, inserting ` AS col_a` after `col_a` |
| `Segments.FirstOfType` | plugins/sqlfluff-plugin-hnl/src/sqlfluff_plugin_hnl/rules.py:74-77 | `get_child` gives nothing exactly when no child has the type, and otherwise the first child that has it |
| `Segments.GetChildIsFirst` | plugins/sqlfluff-plugin-hnl/src/sqlfluff_plugin_hnl/rules.py:74-77 | `get_child` finds nothing exactly when no child has the type; otherwise it finds a child of that type with none of that type before it |
| `Segments.FirstOfTypeAppend` | plugins/sqlfluff-plugin-hnl/src/sqlfluff_plugin_hnl/rules.py:74-77 | Appending a child does not change which child `get_child` finds, unless none was found before |
| `Segments.GetChildren` | plugins/sqlfluff-plugin-hnl/src/sqlfluff_plugin_hnl/rules.py:96 | `get_children` yields only children of the requested type |
| `Segments.SelectSound` | plugins/sqlfluff-plugin-hnl/src/sqlfluff_plugin_hnl/rules.py:69 | Selection by type keeps only segments of the input that have that type |
| `Segments.SelectEmpty` | plugins/sqlfluff-plugin-hnl/src/sqlfluff_plugin_hnl/rules.py:69 | Selection by type is empty exactly when no segment has the type |
| `Segments.SelectLast` | plugins/sqlfluff-plugin-hnl/src/sqlfluff_plugin_hnl/rules.py:96 | What a selection ends with is the last segment that has the type, so `[-1]` at line 96 is the last naked identifier |
| `Segments.SelectKeepsType` | plugins/sqlfluff-plugin-hnl/src/sqlfluff_plugin_hnl/rules.py:69 | Selection by type keeps only segments of that type. It is empty exactly when none has the type. It ends with the last one that has it |
| `Segments.SelectKeepsAll` | plugins/sqlfluff-plugin-hnl/src/sqlfluff_plugin_hnl/rules.py:69 | Selection by type drops no segment that has the type |
| `Segments.SelectAppend` | plugins/sqlfluff-plugin-hnl/src/sqlfluff_plugin_hnl/rules.py:69 | Selection keeps document order: selecting from a concatenation concatenates the selections |
| `Segments.RawSegments` | plugins/sqlfluff-plugin-hnl/src/sqlfluff_plugin_hnl/rules.py:70-72 | `get_raw_segments` yields only raw (leaf) segments |
| `Segments.WellFormedHasRawSegments` | plugins/sqlfluff-plugin-hnl/src/sqlfluff_plugin_hnl/rules.py:70-72 | A segment with no empty non-raw segment below it has at least one raw segment |

## Findings

| source | as written | input that shows it | evidently intended | confidence | as-written member | corrected member |
|---|---|---|---|---|---|---|
| plugins/sqlfluff-plugin-hnl/src/sqlfluff_plugin_hnl/rules.py:93-96 | the first quoted identifier is taken whenever the reference has one, even when it is the qualifier | `"a".col_a`, whose fix would give `"a".col_a AS "a"` | the column's own name: the last identifier of the reference, naked or quoted (`col_a`), as the comment at lines 89-92 says | not executed | `RuleHnlA001.QuotedQualifierIsChosen` | `RuleHnlA001.IntendedIdentifier`, with `RuleHnlA001.UnquotedChoiceIsIntended` |

`Eval`, `Check` and `Expected` keep the rule's choice as written
(`ChooseIdentifier`), so that they describe what the code does;
`IntendedIdentifier` is the corrected choice, proved to be the last identifier
and to agree with the rule wherever the reference has no quoted identifier.

## Left out

- Plugin registration and default configuration loading (`__init__.py`,
  `get_rules`, `load_default_config`): host glue that calls into sqlfluff.
- The `forbidden_columns` option (`__init__.py`, `get_configs_info`): it is
  declared but nothing implements it.
- Packaging metadata (`setup.py`): no behaviour.
- The sqlfluff parser, the `SegmentSeekerCrawler` that picks which segments the
  rule visits, and the `FunctionalContext`/`Segments` helpers. They are
  replaced by a `Segment` value given to `Eval` and by the tree queries of
  module `Segments`.
- Applying a `LintFix` and re-parsing the edited text. This belongs to the
  host. `AliasedElementIsSkipped` states only what happens once the re-parsed
  element has its alias expression.
- Alias-consistency policies, column ordering and `noqa` suppression: no code
  for them exists in the rule modelled here.
- Segment identity: segments are values; the `uuid` field stands for
  identity, and the model does not require uuids to be unique.
- Python truthiness of segments: a segment that `get_child` returns is taken as
  present, as for any segment object that does not define a length.
- The `assert column_identifier` at rules.py:98: the chosen identifier is a
  segment whenever the guard at lines 85-87 holds, so the assertion cannot
  fail and has no counterpart in the model.
