/**
 * Rule HNL_A001: a simple column of a SELECT clause (a bare column
 * reference, not an expression) must carry an alias, if only a self-alias
 * `col AS col`. The rule visits one `select_clause` segment and reports each
 * unaliased reference column, with a fix that appends ` AS <name>`.
 */
module RuleHnlA001 {
  import opened Wrappers
  import opened Segments
  import opened Linting

  const SelectClause := "select_clause"
  const SelectClauseElement := "select_clause_element"
  const ColumnReference := "column_reference"
  const AliasExpression := "alias_expression"
  const NakedIdentifier := "naked_identifier"
  const QuotedIdentifier := "quoted_identifier"

  const Description := "Column should be aliased."

  /** The text a `WhitespaceSegment()` carries by default. */
  const Space := " "

  /** A naked or quoted identifier: what a column name is made of. */
  predicate IsIdentifier(s: Segment) {
    IsType(s, NakedIdentifier) || IsType(s, QuotedIdentifier)
  }

  /**
   * A column reference that names its column through a naked or a quoted
   * identifier; a positional reference such as Snowflake's `$1` does not.
   */
  predicate HasIdentifier(column: Segment) {
    GetChild(column, NakedIdentifier).Some? || GetChild(column, QuotedIdentifier).Some?
  }

  /** A reference names its column exactly when one of its children is an identifier. */
  lemma HasIdentifierExactly(column: Segment)
    ensures HasIdentifier(column) <==> exists c :: c in Children(column) && IsIdentifier(c)
  {
    GetChildIsFirst(column, NakedIdentifier);
    GetChildIsFirst(column, QuotedIdentifier);
  }

  /**
   * The identifier the rule takes as the alias: the first quoted identifier
   * if there is one, else the last naked identifier, so that `a.col_a`
   * yields `col_a` and never a naked qualifier such as `a`. A quoted
   * qualifier is taken, though: `"a".col_a` yields `"a"` (see
   * `QuotedQualifierIsChosen` and the corrected `IntendedIdentifier`).
   */
  function ChooseIdentifier(column: Segment): (r: Segment)
    requires HasIdentifier(column)
    ensures GetChild(column, QuotedIdentifier).Some? ==>
      exists j :: FirstOfTypeAt(Children(column), j, QuotedIdentifier) && Children(column)[j] == r
    ensures GetChild(column, QuotedIdentifier).None? ==>
      exists j :: LastOfTypeAt(Children(column), j, NakedIdentifier) && Children(column)[j] == r
  {
    match GetChild(column, QuotedIdentifier)
    case Some(quoted) => quoted
    case None =>
      var names := GetChildren(column, NakedIdentifier);
      SelectKeepsType(Children(column), NakedIdentifier);
      names[|names| - 1]
  }

  /**
   * A clause element the rule flags: it has a column reference that names its
   * column, and no alias expression.
   */
  predicate Qualifies(element: Segment) {
    && GetChild(element, ColumnReference).Some?
    && GetChild(element, AliasExpression).None?
    && HasIdentifier(GetChild(element, ColumnReference).value)
  }

  /**
   * An element qualifies exactly when its first column-reference child has an
   * identifier child and none of its children is an alias expression.
   */
  lemma QualifiesExactly(element: Segment)
    ensures Qualifies(element) <==>
      && (exists j :: FirstOfTypeAt(Children(element), j, ColumnReference)
                     && exists c :: c in Children(Children(element)[j]) && IsIdentifier(c))
      && forall c :: c in Children(element) ==> !IsType(c, AliasExpression)
  {
    GetChildIsFirst(element, ColumnReference);
    GetChildIsFirst(element, AliasExpression);
    var cs := Children(element);
    if GetChild(element, ColumnReference).Some? {
      var j :| FirstOfTypeAt(cs, j, ColumnReference) && cs[j] == GetChild(element, ColumnReference).value;
      HasIdentifierExactly(cs[j]);
      forall j' | FirstOfTypeAt(cs, j', ColumnReference)
        ensures j' == j
      {
        assert !(j' < j) && !(j < j');
      }
    }
  }

  /** The identifier a qualifying element is to be aliased by. */
  function ColumnName(element: Segment): Segment
    requires Qualifies(element)
  {
    ChooseIdentifier(GetChild(element, ColumnReference).value)
  }

  /** The payload of the fix: ` AS <identifier>`. */
  function AliasEdit(identifier: Segment): seq<EditSegment> {
    [Whitespace(Space), Keyword("AS"), Whitespace(Space), Existing(identifier)]
  }

  /**
   * The fix spells ` AS ` followed by the identifier's own text, quotes
   * included, and the identifier is the only existing segment it reuses.
   */
  lemma AliasEditSpellsSelfAlias(identifier: Segment)
    ensures EditText(AliasEdit(identifier)) == " AS " + Text(identifier)
    ensures forall e :: e in AliasEdit(identifier) && e.Existing? ==> e.segment == identifier
  {
    var r := AliasEdit(identifier);
    assert EditText(r[3..]) == Text(identifier) by {
      assert r[3..][1..] == [];
      assert Text(identifier) + "" == Text(identifier);
    }
    assert r[2..][1..] == r[3..] && r[1..][1..] == r[2..];
    assert EditText(r[2..]) == " " + Text(identifier);
    assert EditText(r[1..]) == "AS" + (" " + Text(identifier));
    assert EditText(r) == " " + ("AS" + (" " + Text(identifier)));
    assert " " + ("AS" + (" " + Text(identifier))) == " AS " + Text(identifier);
  }

  /**
   * The result for a run of raw segments and an identifier: anchored at the
   * first raw segment, with one fix inserting the self-alias after the last.
   */
  function Violation(raws: seq<Segment>, identifier: Segment): LintResult
    requires raws != []
  {
    LintResult(raws[0], Description, [CreateAfter(raws[|raws| - 1], AliasEdit(identifier))])
  }

  /**
   * `v` is described "Column should be aliased.", is anchored at the first of
   * `raws` and carries one fix, which inserts the self-alias payload
   * (whitespace, `AS`, whitespace and `identifier`) after the last of `raws`.
   */
  predicate Describes(v: LintResult, raws: seq<Segment>, identifier: Segment)
    requires raws != []
  {
    && v.anchor == raws[0]
    && v.description == "Column should be aliased."
    && v.fixes == [CreateAfter(raws[|raws| - 1], AliasEdit(identifier))]
  }

  /** The result for a flagged element. */
  function ViolationFor(element: Segment): (r: LintResult)
    requires Qualifies(element) && RawSegments(element) != []
  {
    Violation(RawSegments(element), ColumnName(element))
  }

  /**
   * The one fix of a result spells ` AS ` followed by the chosen identifier's
   * text, quotes included.
   */
  lemma ViolationForSpellsAlias(element: Segment)
    requires Qualifies(element) && RawSegments(element) != []
    ensures |ViolationFor(element).fixes| == 1
    ensures EditText(ViolationFor(element).fixes[0].edit) ==
      " AS " + Text(ChooseIdentifier(GetChild(element, ColumnReference).value))
  {
    var identifier := ChooseIdentifier(GetChild(element, ColumnReference).value);
    assert ViolationFor(element).fixes[0].edit == AliasEdit(identifier);
    AliasEditSpellsSelfAlias(identifier);
  }

  /** What one clause element contributes. */
  datatype Verdict = Skip | Flag(result: LintResult) | Raises

  /**
   * The verdict on one element: skipped unless it qualifies; flagged when it
   * does; raising when it qualifies but has no raw segment to anchor at.
   */
  function Check(element: Segment): (r: Verdict)
  {
    if !Qualifies(element) then Skip
    else if RawSegments(element) == [] then Raises
    else Flag(ViolationFor(element))
  }

  /**
   * An element is skipped exactly when it does not qualify, and raises
   * exactly when it qualifies but has no raw segment; otherwise it is
   * flagged with its result.
   */
  lemma CheckVerdicts(element: Segment)
    ensures Check(element) == Skip <==> !Qualifies(element)
    ensures Check(element) == Raises <==> Qualifies(element) && RawSegments(element) == []
    ensures Check(element).Flag? ==>
      Qualifies(element) && RawSegments(element) != [] && Check(element).result == ViolationFor(element)
  {
  }

  /** The state of the walk over the clause elements after some of them. */
  datatype Walk = Done(violations: seq<LintResult>) | Crashed

  /**
   * One step of the walk: a skipped element leaves the results as they are, a
   * flagged one appends its result, and a raise ends the walk for good.
   */
  function Advance(w: Walk, verdict: Verdict): Walk {
    match w
    case Crashed => Crashed
    case Done(vs) =>
      match verdict
      case Skip => Done(vs)
      case Flag(v) => Done(vs + [v])
      case Raises => Crashed
  }

  /** The walk over `elements` in document order, as `_eval`'s loop makes it. */
  function Collect(elements: seq<Segment>): (r: Walk)
  {
    if elements == [] then Done([])
    else Advance(Collect(elements[..|elements| - 1]), Check(elements[|elements| - 1]))
  }

  /** One more element extends the walk by that element's verdict. */
  lemma CollectStep(elements: seq<Segment>, i: nat, vs: seq<LintResult>)
    requires i < |elements| && Collect(elements[..i]) == Done(vs)
    ensures Check(elements[i]) == Skip ==> Collect(elements[..i + 1]) == Done(vs)
    ensures Check(elements[i]).Flag? ==> Collect(elements[..i + 1]) == Done(vs + [Check(elements[i]).result])
    ensures Check(elements[i]) == Raises ==> Collect(elements[..i + 1]) == Crashed
  {
    var prefix := elements[..i + 1];
    assert prefix[..|prefix| - 1] == elements[..i];
    assert prefix[|prefix| - 1] == elements[i];
    assert Collect(prefix) ==
      match Check(elements[i])
      case Skip => Done(vs)
      case Flag(v) => Done(vs + [v])
      case Raises => Crashed;
  }

  /** The verdict on an element in terms of the values `_eval` reads off it. */
  lemma CheckByParts(element: Segment, raws: seq<Segment>, column: Option<Segment>, alias: Option<Segment>)
    requires raws == RawSegments(element)
    requires column == GetChild(element, ColumnReference) && alias == GetChild(element, AliasExpression)
    ensures !(column.Some? && alias.None? && HasIdentifier(column.value)) ==> Check(element) == Skip
    ensures column.Some? && alias.None? && HasIdentifier(column.value) && raws == [] ==> Check(element) == Raises
    ensures column.Some? && alias.None? && HasIdentifier(column.value) && raws != [] ==>
      Check(element) == Flag(LintResult(raws[0], Description,
        [CreateAfter(raws[|raws| - 1], AliasEdit(ChooseIdentifier(column.value)))]))
  {
  }

  /** Once the walk has raised, the rest of the elements cannot undo it. */
  lemma {:induction false} CrashPersists(elements: seq<Segment>, n: nat)
    requires n <= |elements| && Collect(elements[..n]) == Crashed
    ensures Collect(elements) == Crashed
    decreases |elements| - n
  {
    if n < |elements| {
      assert elements[..n + 1][..n] == elements[..n];
      CrashPersists(elements, n + 1);
    } else {
      assert elements[..n] == elements;
    }
  }

  /** The outcome of the rule on `clause`: `violations or None`. */
  function Expected(clause: Segment): (r: EvalResult)
    ensures r.Returned? && r.value.Some? ==> r.value.value != []
  {
    match Collect(Select(Children(clause), SelectClauseElement))
    case Crashed => IndexError
    case Done(vs) => Returned(if vs == [] then None else Some(vs))
  }

  /** The elements the rule flags, in document order: a reference definition. */
  function Qualifying(elements: seq<Segment>): (r: seq<Segment>)
    ensures forall x :: x in r ==> x in elements
    ensures forall k :: 0 <= k < |r| ==> Qualifies(r[k])
  {
    if elements == [] then []
    else
      var init, last := elements[..|elements| - 1], elements[|elements| - 1];
      Qualifying(init) + (if Qualifies(last) then [last] else [])
  }

  /** The reference filter drops no qualifying element. */
  lemma {:induction false} QualifyingKeepsAll(elements: seq<Segment>)
    ensures forall e :: e in elements && Qualifies(e) ==> e in Qualifying(elements)
  {
    if elements != [] {
      var init, last := elements[..|elements| - 1], elements[|elements| - 1];
      assert elements == init + [last];
      QualifyingKeepsAll(init);
    }
  }

  /** Where no element qualifies, there is nothing to flag. */
  lemma {:induction false} NothingQualifies(elements: seq<Segment>)
    requires forall e :: e in elements ==> !Qualifies(e)
    ensures Qualifying(elements) == []
  {
    if elements != [] {
      NothingQualifies(elements[..|elements| - 1]);
    }
  }

  /** The clause's direct `select_clause_element` children that the rule flags. */
  function QualifyingElements(clause: Segment): seq<Segment> {
    Qualifying(Select(Children(clause), SelectClauseElement))
  }

  /** Some segment of `q` has no raw segment. */
  predicate SomeLacksRaws(q: seq<Segment>) {
    exists k :: 0 <= k < |q| && RawSegments(q[k]) == []
  }

  /** Some segment of a concatenation lacks raw segments exactly when one of a part does. */
  lemma SomeLacksRawsAppend(q: seq<Segment>, tail: seq<Segment>)
    ensures SomeLacksRaws(q + tail) <==> SomeLacksRaws(q) || SomeLacksRaws(tail)
  {
    var r := q + tail;
    if SomeLacksRaws(q) {
      var k :| 0 <= k < |q| && RawSegments(q[k]) == [];
      assert r[k] == q[k];
    }
    if SomeLacksRaws(tail) {
      var k :| 0 <= k < |tail| && RawSegments(tail[k]) == [];
      assert r[|q| + k] == tail[k];
    }
    if SomeLacksRaws(r) {
      var k :| 0 <= k < |r| && RawSegments(r[k]) == [];
      if k < |q| {
        assert r[k] == q[k];
      } else {
        assert r[k] == tail[k - |q|];
      }
    }
  }

  /** Some flagged element has no raw segment, so subscripting its raw segments raises. */
  predicate RaisesOn(elements: seq<Segment>) {
    SomeLacksRaws(Qualifying(elements))
  }

  /** The walk raises exactly when some qualifying element has no raw segment. */
  lemma {:induction false} CollectRaisesExactly(elements: seq<Segment>)
    ensures Collect(elements) == Crashed <==> RaisesOn(elements)
  {
    if elements != [] {
      var init, last := elements[..|elements| - 1], elements[|elements| - 1];
      CollectRaisesExactly(init);
      assert Collect(elements) == Advance(Collect(init), Check(last));
      AdvanceCrashes(Collect(init), Check(last));
      RaisesOnStep(elements);
      CheckVerdicts(last);
    }
  }

  /** A step ends in a raise exactly when the walk had raised or the element raises. */
  lemma AdvanceCrashes(w: Walk, verdict: Verdict)
    ensures Advance(w, verdict) == Crashed <==> w == Crashed || verdict == Raises
  {
  }

  /**
   * Some qualifying element lacks raw segments exactly when one before the
   * last does, or the last one qualifies and lacks them.
   */
  lemma RaisesOnStep(elements: seq<Segment>)
    requires elements != []
    ensures RaisesOn(elements) <==>
      || RaisesOn(elements[..|elements| - 1])
      || (Qualifies(elements[|elements| - 1]) && RawSegments(elements[|elements| - 1]) == [])
  {
    var init, last := elements[..|elements| - 1], elements[|elements| - 1];
    var tail := if Qualifies(last) then [last] else [];
    assert Qualifying(elements) == Qualifying(init) + tail;
    SomeLacksRawsAppend(Qualifying(init), tail);
    assert SomeLacksRaws(tail) <==> Qualifies(last) && RawSegments(last) == [] by {
      if SomeLacksRaws(tail) {
        var k :| 0 <= k < |tail| && RawSegments(tail[k]) == [];
      }
      if Qualifies(last) && RawSegments(last) == [] {
        assert tail[0] == last;
      }
    }
  }

  /**
   * A walk that does not raise reports exactly the qualifying elements, one
   * result each, in document order.
   */
  lemma {:induction false} CollectReportsQualifying(elements: seq<Segment>)
    requires Collect(elements).Done?
    ensures |Collect(elements).violations| == |Qualifying(elements)|
    ensures forall k :: 0 <= k < |Qualifying(elements)| ==>
      && RawSegments(Qualifying(elements)[k]) != []
      && Collect(elements).violations[k] == ViolationFor(Qualifying(elements)[k])
  {
    if elements != [] {
      var init, last := elements[..|elements| - 1], elements[|elements| - 1];
      assert Collect(init).Done?;
      CollectReportsQualifying(init);
      var q, q' := Qualifying(init), Qualifying(elements);
      var vs, vs' := Collect(init).violations, Collect(elements).violations;
      match Check(last)
      case Skip =>
        assert q' == q && vs' == vs;
      case Flag(v) =>
        assert q' == q + [last] && vs' == vs + [v];
        forall k | 0 <= k < |q'|
          ensures RawSegments(q'[k]) != [] && vs'[k] == ViolationFor(q'[k])
        {
          if k < |q| {
            assert q'[k] == q[k] && vs'[k] == vs[k];
          }
        }
    }
  }

  /** The rule raises exactly when a qualifying element has no raw segment. */
  lemma ExpectedRaisesExactly(clause: Segment)
    ensures Expected(clause) == IndexError <==> RaisesOn(Select(Children(clause), SelectClauseElement))
  {
    CollectRaisesExactly(Select(Children(clause), SelectClauseElement));
  }

  /** The rule returns `None` exactly when no element qualifies. */
  lemma ExpectedNoneExactly(clause: Segment)
    ensures Expected(clause) == Returned(None) <==> QualifyingElements(clause) == []
  {
    var elements := Select(Children(clause), SelectClauseElement);
    if Collect(elements).Done? {
      CollectReportsQualifying(elements);
    } else {
      CollectRaisesExactly(elements);
    }
  }

  /**
   * `v` reports `element`: the element qualifies, has raw segments, and `v`
   * is the self-alias report on those raw segments and the element's chosen
   * identifier.
   */
  predicate Reports(element: Segment, v: LintResult) {
    && Qualifies(element)
    && RawSegments(element) != []
    && Describes(v, RawSegments(element), ColumnName(element))
  }

  /** `vs` reports the elements `q` one for one, in order. */
  predicate ReportsEach(q: seq<Segment>, vs: seq<LintResult>) {
    |vs| == |q| && forall k :: 0 <= k < |q| ==> Reports(q[k], vs[k])
  }

  /**
   * A returned list has one result per qualifying element, in document order,
   * each as `ViolationFor` makes it.
   */
  lemma ExpectedReportsEach(clause: Segment)
    ensures Expected(clause).Returned? && Expected(clause).value.Some? ==>
      ReportsEach(QualifyingElements(clause), Expected(clause).value.value)
  {
    var elements := Select(Children(clause), SelectClauseElement);
    if Collect(elements).Done? {
      var q, vs := QualifyingElements(clause), Collect(elements).violations;
      assert q == Qualifying(elements);
      assert Expected(clause) == Returned(if vs == [] then None else Some(vs));
      CollectReportsQualifying(elements);
      ReportsEachViolation(q, vs);
    }
  }

  /** Results made by `ViolationFor`, one per qualifying element, report those elements. */
  lemma ReportsEachViolation(q: seq<Segment>, vs: seq<LintResult>)
    requires |vs| == |q|
    requires forall k :: 0 <= k < |q| ==> Qualifies(q[k])
    requires forall k :: 0 <= k < |q| ==> RawSegments(q[k]) != [] && vs[k] == ViolationFor(q[k])
    ensures ReportsEach(q, vs)
  {
    forall k | 0 <= k < |q|
      ensures Reports(q[k], vs[k])
    {
      ViolationForReports(q[k]);
    }
  }

  /** The result `ViolationFor` makes reports its element. */
  lemma ViolationForReports(element: Segment)
    requires Qualifies(element) && RawSegments(element) != []
    ensures Reports(element, ViolationFor(element))
  {
    ViolationDescribes(RawSegments(element), ColumnName(element));
  }

  /** `Violation` makes the result `Describes` states. */
  lemma ViolationDescribes(raws: seq<Segment>, identifier: Segment)
    requires raws != []
    ensures Describes(Violation(raws, identifier), raws, identifier)
  {
  }

  /**
   * What the rule reports on a clause: nothing (`None`) exactly when no
   * element qualifies; otherwise one result per qualifying element, in
   * document order, each described as "Column should be aliased.", anchored at
   * the element's first raw segment and carrying one fix that inserts
   * whitespace, `AS`, whitespace and the chosen identifier after the element's
   * last raw segment. It raises only when a qualifying element has no raw
   * segment.
   */
  lemma ExpectedFlagsQualifyingElements(clause: Segment)
    ensures Expected(clause) == IndexError <==> RaisesOn(Select(Children(clause), SelectClauseElement))
    ensures Expected(clause) == Returned(None) <==> QualifyingElements(clause) == []
    ensures Expected(clause).Returned? && Expected(clause).value.Some? ==>
      ReportsEach(QualifyingElements(clause), Expected(clause).value.value)
  {
    ExpectedRaisesExactly(clause);
    ExpectedNoneExactly(clause);
    ExpectedReportsEach(clause);
  }

  /**
   * Children of the clause other than `select_clause_element` segments never
   * change what the rule reports, wherever they stand.
   */
  lemma OtherChildrenAreIgnored(uuid: nat, types: set<string>, before: seq<Segment>, other: Segment, after: seq<Segment>)
    requires !IsType(other, SelectClauseElement)
    ensures Expected(Node(uuid, types, before + [other] + after)) == Expected(Node(uuid, types, before + after))
  {
    var t := SelectClauseElement;
    SelectAppend(before, [other], t);
    SelectAppend(before + [other], after, t);
    SelectAppend(before, after, t);
    assert Select([other], t) == [] by {
      assert [other][..0] == [];
    }
    var with, without := Node(uuid, types, before + [other] + after), Node(uuid, types, before + after);
    assert Select(Children(with), t) == Select(Children(without), t);
    assert Collect(Select(Children(with), t)) == Collect(Select(Children(without), t));
  }

  /**
   * The rule's best practice: in a clause where every reference column that
   * names its column already has an alias expression, nothing is reported.
   */
  lemma AliasedClauseIsClean(clause: Segment)
    requires forall e ::
      (e in Children(clause) && IsType(e, SelectClauseElement) &&
       GetChild(e, ColumnReference).Some? && HasIdentifier(GetChild(e, ColumnReference).value))
      ==> GetChild(e, AliasExpression).Some?
    ensures Expected(clause) == Returned(None)
  {
    var elements := Select(Children(clause), SelectClauseElement);
    SelectKeepsType(Children(clause), SelectClauseElement);
    forall e | e in elements
      ensures !Qualifies(e)
    {
      assert e in Children(clause) && IsType(e, SelectClauseElement);
    }
    NothingQualifies(elements);
    ExpectedFlagsQualifyingElements(clause);
  }

  /** On a tree the parser builds (no empty non-raw segment) the rule never raises. */
  lemma WellFormedClauseNeverRaises(clause: Segment)
    requires WellFormed(clause)
    ensures Expected(clause).Returned?
  {
    var elements := Select(Children(clause), SelectClauseElement);
    SelectKeepsType(Children(clause), SelectClauseElement);
    if RaisesOn(elements) {
      var q := Qualifying(elements);
      assert SomeLacksRaws(q);
      var k :| 0 <= k < |q| && RawSegments(q[k]) == [];
      assert q[k] in elements;
      WellFormedHasRawSegments(q[k]);
      assert false;
    }
    ExpectedFlagsQualifyingElements(clause);
  }

  /**
   * `fixed` is `element` as it parses once its fix is applied: the same
   * segment with further children after its own, one of them an alias
   * expression (for ` AS col` that is whitespace and then the alias).
   */
  predicate FixedElement(element: Segment, fixed: Segment) {
    && element.Node? && fixed.Node?
    && fixed.uuid == element.uuid && fixed.types == element.types
    && |element.segments| <= |fixed.segments|
    && fixed.segments[..|element.segments|] == element.segments
    && exists c :: c in fixed.segments[|element.segments|..] && IsType(c, AliasExpression)
  }

  /**
   * The fix settles the element: once a flagged element carries an alias
   * expression after its other children, as the inserted ` AS <name>` parses,
   * the rule no longer flags it. (Re-parsing itself is the host's.)
   */
  lemma AliasedElementIsSkipped(element: Segment, fixed: Segment)
    requires Qualifies(element) && FixedElement(element, fixed)
    ensures Check(fixed) == Skip
  {
    var n := |element.segments|;
    assert fixed.segments == element.segments + fixed.segments[n..];
    FirstOfTypeAppend(element.segments, fixed.segments[n..], ColumnReference);
    FirstOfTypeAppend(element.segments, fixed.segments[n..], AliasExpression);
  }

  /**
   * Applying every fix is idempotent: in a clause where each flagged element
   * has been replaced by its fixed form and nothing else changed, the rule
   * reports nothing.
   */
  lemma FixedClauseIsClean(clause: Segment, fixed: Segment)
    requires
      var es, fs := Select(Children(clause), SelectClauseElement), Select(Children(fixed), SelectClauseElement);
      && |fs| == |es|
      && forall k :: 0 <= k < |es| ==>
           if Qualifies(es[k]) then FixedElement(es[k], fs[k]) else fs[k] == es[k]
    ensures Expected(fixed) == Returned(None)
  {
    var es, fs := Select(Children(clause), SelectClauseElement), Select(Children(fixed), SelectClauseElement);
    forall f | f in fs
      ensures !Qualifies(f)
    {
      var k :| 0 <= k < |fs| && fs[k] == f;
      if Qualifies(es[k]) {
        AliasedElementIsSkipped(es[k], f);
      }
    }
    NothingQualifies(fs);
    ExpectedFlagsQualifyingElements(fixed);
  }

  /** `a.col_a` names the column `col_a`, not the qualifier `a`. */
  lemma QualifiedReferenceNamesColumn()
    ensures
      var qualifier := Raw(2, {NakedIdentifier}, "a");
      var name := Raw(4, {NakedIdentifier}, "col_a");
      var column := Node(1, {ColumnReference}, [qualifier, Raw(3, {"symbol", "dot"}, "."), name]);
      HasIdentifier(column) && ChooseIdentifier(column) == name
  {
  }

  /** `ss[j]` is the last identifier among `ss`: none follows it. */
  predicate LastIdentifierAt(ss: seq<Segment>, j: int) {
    0 <= j < |ss| && IsIdentifier(ss[j]) && forall i :: j < i < |ss| ==> !IsIdentifier(ss[i])
  }

  /** The last identifier among `ss`, naked or quoted, if there is one. */
  function LastIdentifier(ss: seq<Segment>): Option<Segment> {
    if ss == [] then None
    else if IsIdentifier(ss[|ss| - 1]) then Some(ss[|ss| - 1])
    else LastIdentifier(ss[..|ss| - 1])
  }

  /** `LastIdentifier` finds an identifier exactly when there is one. */
  lemma {:induction false} LastIdentifierExists(ss: seq<Segment>)
    ensures LastIdentifier(ss).None? <==> forall j :: 0 <= j < |ss| ==> !IsIdentifier(ss[j])
  {
    if ss != [] && !IsIdentifier(ss[|ss| - 1]) {
      var init := ss[..|ss| - 1];
      LastIdentifierExists(init);
      forall j | 0 <= j < |ss| && IsIdentifier(ss[j])
        ensures LastIdentifier(ss).Some?
      {
        assert j < |init| && init[j] == ss[j];
      }
    }
  }

  /** What `LastIdentifier` finds has no identifier after it. */
  lemma {:induction false} LastIdentifierIsLast(ss: seq<Segment>)
    ensures LastIdentifier(ss).Some? ==> exists j :: LastIdentifierAt(ss, j) && ss[j] == LastIdentifier(ss).value
  {
    if ss != [] {
      var init := ss[..|ss| - 1];
      if IsIdentifier(ss[|ss| - 1]) {
        assert LastIdentifierAt(ss, |ss| - 1);
      } else if LastIdentifier(init).Some? {
        LastIdentifierIsLast(init);
        var j :| LastIdentifierAt(init, j) && init[j] == LastIdentifier(init).value;
        assert LastIdentifierAt(ss, j);
      }
    }
  }

  /**
   * The identifier the rule evidently means to take: the last identifier of
   * the reference, naked or quoted. No identifier follows it, so it is the
   * column's own name and never a qualifier, quoted or not.
   */
  function IntendedIdentifier(column: Segment): (r: Segment)
    requires HasIdentifier(column)
    ensures exists j :: LastIdentifierAt(Children(column), j) && Children(column)[j] == r
  {
    var cs := Children(column);
    LastIdentifierExists(cs);
    LastIdentifierIsLast(cs);
    assert LastIdentifier(cs).Some? by {
      var t := if GetChild(column, NakedIdentifier).Some? then NakedIdentifier else QuotedIdentifier;
      var j :| FirstOfTypeAt(cs, j, t) && cs[j] == GetChild(column, t).value;
      assert IsIdentifier(cs[j]);
    }
    LastIdentifier(cs).value
  }

  /** Among segments none of which is quoted, the last naked identifier is the last identifier. */
  lemma LastNakedIsLastIdentifier(ss: seq<Segment>, j: int, j': int)
    requires forall i :: 0 <= i < |ss| ==> !IsType(ss[i], QuotedIdentifier)
    requires LastOfTypeAt(ss, j, NakedIdentifier) && LastIdentifierAt(ss, j')
    ensures j == j'
  {
    assert !(j < j') by {
      assert IsType(ss[j'], NakedIdentifier);
    }
    assert !(j' < j) by {
      assert IsIdentifier(ss[j]);
    }
  }

  /**
   * Where the reference has no quoted identifier, the rule's choice is the
   * intended one.
   */
  lemma UnquotedChoiceIsIntended(column: Segment)
    requires HasIdentifier(column) && GetChild(column, QuotedIdentifier).None?
    ensures ChooseIdentifier(column) == IntendedIdentifier(column)
  {
    var cs := Children(column);
    var chosen, intended := ChooseIdentifier(column), IntendedIdentifier(column);
    var j :| LastOfTypeAt(cs, j, NakedIdentifier) && cs[j] == chosen;
    var j' :| LastIdentifierAt(cs, j') && cs[j'] == intended;
    LastNakedIsLastIdentifier(cs, j, j');
  }

  /**
   * `"a".col_a`: the rule takes the quoted qualifier `"a"` and would fix the
   * column to `"a".col_a AS "a"`; the intended name is `col_a`.
   */
  lemma QuotedQualifierIsChosen()
    ensures
      var qualifier := Raw(2, {QuotedIdentifier}, "\"a\"");
      var name := Raw(4, {NakedIdentifier}, "col_a");
      var column := Node(1, {ColumnReference}, [qualifier, Raw(3, {"symbol"}, "."), name]);
      && HasIdentifier(column)
      && ChooseIdentifier(column) == qualifier
      && IntendedIdentifier(column) == name
  {
    var qualifier := Raw(2, {QuotedIdentifier}, "\"a\"");
    var name := Raw(4, {NakedIdentifier}, "col_a");
    var column := Node(1, {ColumnReference}, [qualifier, Raw(3, {"symbol"}, "."), name]);
    assert IsIdentifier(column.segments[2]);
    assert LastIdentifier(column.segments) == Some(name);
    assert IsType(column.segments[0], QuotedIdentifier);
    assert GetChild(column, QuotedIdentifier) == Some(qualifier);
  }

  // `SELECT a.col_a, b AS b, count(x)` as the parser segments it.
  const ExampleQualifier := Raw(4, {NakedIdentifier}, "a")
  const ExampleName := Raw(6, {NakedIdentifier}, "col_a")
  const ExampleFirst := Node(2, {SelectClauseElement}, [
    Node(3, {ColumnReference}, [ExampleQualifier, Raw(5, {"symbol"}, "."), ExampleName])])
  const ExampleSecond := Node(7, {SelectClauseElement}, [
    Node(8, {ColumnReference}, [Raw(9, {NakedIdentifier}, "b")]), Raw(10, {"whitespace"}, " "),
    Node(11, {AliasExpression}, [Raw(12, {"keyword"}, "AS"), Raw(13, {"whitespace"}, " "),
      Raw(14, {NakedIdentifier}, "b")])])
  const ExampleThird := Node(15, {SelectClauseElement}, [
    Node(16, {"function"}, [Raw(17, {"function_name"}, "count"), Raw(18, {"symbol"}, "("),
      Raw(19, {NakedIdentifier}, "x"), Raw(20, {"symbol"}, ")")])])
  const ExampleClause := Node(1, {SelectClause}, [
    Raw(21, {"keyword"}, "SELECT"), ExampleFirst, Raw(22, {"comma"}, ","),
    ExampleSecond, Raw(23, {"comma"}, ","), ExampleThird])

  lemma ExampleElements()
    ensures Select(Children(ExampleClause), SelectClauseElement) == [ExampleFirst, ExampleSecond, ExampleThird]
  {
    var cs, t := Children(ExampleClause), SelectClauseElement;
    assert !IsType(cs[0], t) && IsType(cs[1], t) && !IsType(cs[2], t);
    assert IsType(cs[3], t) && !IsType(cs[4], t) && IsType(cs[5], t);
    assert cs[..1][..0] == [];
    assert Select(cs[..1], t) == [];
    assert cs[..2][..1] == cs[..1];
    assert Select(cs[..2], t) == [ExampleFirst];
    assert cs[..3][..2] == cs[..2];
    assert Select(cs[..3], t) == [ExampleFirst];
    assert cs[..4][..3] == cs[..3];
    assert Select(cs[..4], t) == [ExampleFirst, ExampleSecond];
    assert cs[..5][..4] == cs[..4];
    assert Select(cs[..5], t) == [ExampleFirst, ExampleSecond];
    assert cs[..5] == cs[..|cs| - 1];
  }

  /** In `a.col_a` the rule takes `col_a`, the last naked identifier. */
  lemma ExampleColumnName()
    ensures ChooseIdentifier(ExampleFirst.segments[0]) == ExampleName
  {
    var column := ExampleFirst.segments[0];
    var parts := column.segments;
    assert GetChildren(column, NakedIdentifier) == [ExampleQualifier, ExampleName] by {
      var t := NakedIdentifier;
      assert IsType(parts[0], t) && !IsType(parts[1], t) && IsType(parts[2], t);
      assert parts[..1][..0] == [];
      assert Select(parts[..1], t) == [ExampleQualifier];
      assert parts[..2][..1] == parts[..1];
      assert Select(parts[..2], t) == [ExampleQualifier];
      assert parts[..2] == parts[..|parts| - 1];
    }
    assert GetChild(column, QuotedIdentifier) == None by {
      assert forall j :: 0 <= j < |parts| ==> !IsType(parts[j], QuotedIdentifier);
    }
    var names := GetChildren(column, NakedIdentifier);
    assert ChooseIdentifier(column) == names[|names| - 1];
  }

  /** The raw segments of `a.col_a` are its three tokens. */
  lemma ExampleFirstRaws()
    ensures RawSegments(ExampleFirst) == ExampleFirst.segments[0].segments
  {
    var parts := ExampleFirst.segments[0].segments;
    assert RawSegmentsOf(parts[2..]) == [ExampleName] by {
      assert parts[2..][1..] == [];
    }
    assert RawSegmentsOf(parts[1..]) == parts[1..] by {
      assert parts[1..][1..] == parts[2..];
      assert RawSegments(parts[1]) == [parts[1]];
    }
    assert RawSegments(parts[0]) == [parts[0]];
    assert RawSegmentsOf(parts) == parts;
    assert RawSegments(ExampleFirst.segments[0]) == parts;
    assert ExampleFirst.segments[1..] == [];
  }

  /** `a.col_a` is flagged, anchored at `a`, with ` AS col_a` inserted after `col_a`. */
  lemma ExampleFirstFlagged()
    ensures Check(ExampleFirst) == Flag(LintResult(ExampleQualifier, "Column should be aliased.",
      [CreateAfter(ExampleName, [Whitespace(" "), Keyword("AS"), Whitespace(" "), Existing(ExampleName)])]))
  {
    var column := ExampleFirst.segments[0];
    ExampleColumnName();
    ExampleFirstRaws();
    assert GetChild(ExampleFirst, ColumnReference) == Some(column);
    assert GetChild(ExampleFirst, AliasExpression) == None;
    CheckByParts(ExampleFirst, column.segments, Some(column), None);
  }

  /** `b AS b` already has its alias, and `count(x)` is no column reference. */
  lemma ExampleOthersSkipped()
    ensures Check(ExampleSecond) == Skip && Check(ExampleThird) == Skip
  {
    assert IsType(ExampleSecond.segments[2], AliasExpression);
    assert !IsType(ExampleThird.segments[0], ColumnReference);
  }

  /**
   * On the example clause only the first column is flagged, and its fix
   * inserts ` AS col_a` after `col_a`.
   */
  lemma ClauseExample()
    ensures Expected(ExampleClause) == Returned(Some([
      LintResult(ExampleQualifier, "Column should be aliased.",
        [CreateAfter(ExampleName, [Whitespace(" "), Keyword("AS"), Whitespace(" "), Existing(ExampleName)])])]))
  {
    ExampleElements();
    ExampleFirstFlagged();
    ExampleOthersSkipped();
    WalkFlagsFirstOfThree(ExampleFirst, ExampleSecond, ExampleThird);
  }

  /** A walk over three elements of which only the first is flagged reports it alone. */
  lemma WalkFlagsFirstOfThree(a: Segment, b: Segment, c: Segment)
    requires Check(a).Flag? && Check(b) == Skip && Check(c) == Skip
    ensures Collect([a, b, c]) == Done([Check(a).result])
  {
    var v := Check(a).result;
    var none: seq<Segment> := [];
    CollectSnoc(none, a);
    CollectSnoc(none + [a], b);
    CollectSnoc(none + [a] + [b], c);
    assert none + [a] + [b] + [c] == [a, b, c];
    assert Collect(none + [a]) == Done([v]);
  }

  /** The walk over `elements` and then `x` is one step past the walk over `elements`. */
  lemma CollectSnoc(elements: seq<Segment>, x: Segment)
    ensures Collect(elements + [x]) == Advance(Collect(elements), Check(x))
  {
    assert (elements + [x])[..|elements|] == elements;
  }

  /**
   * The body of `_eval`'s loop for one clause element: it reads the element's
   * raw segments, column reference and alias expression, and either skips the
   * element, builds its result, or raises on the subscript of an empty list
   * of raw segments.
   */
  method CheckElement(element: Segment) returns (verdict: Verdict)
    ensures verdict == Check(element)
  {
    var raws := RawSegments(element);
    var column := GetChild(element, ColumnReference);
    var alias := GetChild(element, AliasExpression);
    CheckByParts(element, raws, column, alias);
    if column.Some? && alias.None? {
      if GetChild(column.value, NakedIdentifier).Some? || GetChild(column.value, QuotedIdentifier).Some? {
        var identifier := ChooseIdentifier(column.value);
        if |raws| == 0 {
          return Raises;
        }
        var fix := CreateAfter(raws[|raws| - 1], AliasEdit(identifier));
        return Flag(LintResult(raws[0], Description, [fix]));
      }
    }
    return Skip;
  }

  /**
   * `Rule_HNL_A001._eval`: walks the `select_clause_element` children of the
   * visited clause and collects one result per unaliased reference column.
   */
  method Eval(clause: Segment) returns (out: EvalResult)
    requires IsType(clause, SelectClause)
    ensures out == Expected(clause)
  {
    var violations: seq<LintResult> := [];
    var children := Select(Children(clause), SelectClauseElement);
    var i := 0;
    while i < |children|
      invariant 0 <= i <= |children|
      invariant Collect(children[..i]) == Done(violations)
    {
      var verdict := CheckElement(children[i]);
      CollectStep(children, i, violations);
      match verdict {
        case Raises =>
          CrashPersists(children, i + 1);
          return IndexError;
        case Flag(result) =>
          violations := violations + [result];
        case Skip =>
      }
      i := i + 1;
    }
    assert children[..|children|] == children;
    out := if violations == [] then Returned(None) else Returned(Some(violations));
  }
}
