/**
 * The parsed SQL tree as sqlfluff hands it to a rule, reduced to what the
 * HNL rules read: a segment's class types, its ordered children and its raw
 * (leaf) segments. The tree is never changed by a rule; a rule only reads it
 * and answers with declarative fixes.
 */
module Segments {
  import opened Wrappers

  /**
   * A segment of the parse tree. A `Raw` segment is a leaf token with its
   * source text; a `Node` groups child segments in document order. `types`
   * is the set of class types `is_type` accepts; `uuid` stands for the
   * segment's identity, so that two equal-looking tokens at different places
   * stay apart.
   */
  datatype Segment =
    | Raw(uuid: nat, types: set<string>, raw: string)
    | Node(uuid: nat, types: set<string>, segments: seq<Segment>)

  /** `segment.is_type(t)` */
  predicate IsType(s: Segment, t: string) {
    t in s.types
  }

  /** `segment.segments`: a raw segment has no children. */
  function Children(s: Segment): seq<Segment> {
    match s
    case Raw(_, _, _) => []
    case Node(_, _, ss) => ss
  }

  /** `ss[j]` is the first segment of `ss` of type `t`. */
  predicate FirstOfTypeAt(ss: seq<Segment>, j: int, t: string) {
    0 <= j < |ss| && IsType(ss[j], t) && forall i :: 0 <= i < j ==> !IsType(ss[i], t)
  }

  /** `ss[j]` is the last segment of `ss` of type `t`. */
  predicate LastOfTypeAt(ss: seq<Segment>, j: int, t: string) {
    0 <= j < |ss| && IsType(ss[j], t) && forall i :: j < i < |ss| ==> !IsType(ss[i], t)
  }

  /** The first segment of `ss` whose type is `t`, if there is one. */
  function FirstOfType(ss: seq<Segment>, t: string): (r: Option<Segment>)
    ensures r.None? <==> forall j :: 0 <= j < |ss| ==> !IsType(ss[j], t)
    ensures r.Some? ==> exists j :: FirstOfTypeAt(ss, j, t) && ss[j] == r.value
  {
    if ss == [] then None
    else if IsType(ss[0], t) then
      assert FirstOfTypeAt(ss, 0, t);
      Some(ss[0])
    else
      var r := FirstOfType(ss[1..], t);
      assert r.Some? ==> exists j :: FirstOfTypeAt(ss, j, t) && ss[j] == r.value by {
        if r.Some? {
          var j :| FirstOfTypeAt(ss[1..], j, t) && ss[1..][j] == r.value;
          assert FirstOfTypeAt(ss, j + 1, t);
        }
      }
      r
  }

  /**
   * Appending segments leaves the first segment of type `t` where it was;
   * only where there was none can one of the appended ones become it.
   */
  lemma {:induction false} FirstOfTypeAppend(ss: seq<Segment>, xs: seq<Segment>, t: string)
    ensures FirstOfType(ss + xs, t) ==
      if FirstOfType(ss, t).Some? then FirstOfType(ss, t) else FirstOfType(xs, t)
  {
    if ss == [] {
      assert ss + xs == xs;
    } else {
      assert (ss + xs)[1..] == ss[1..] + xs;
      FirstOfTypeAppend(ss[1..], xs, t);
    }
  }

  /** `segment.get_child(t)`: the first child of type `t`, or nothing. */
  function GetChild(s: Segment, t: string): (r: Option<Segment>)
  {
    FirstOfType(Children(s), t)
  }

  /**
   * `get_child` finds nothing exactly when no child has type `t`; otherwise it
   * finds a child of that type with none of that type before it.
   */
  lemma GetChildIsFirst(s: Segment, t: string)
    ensures GetChild(s, t).None? <==> forall c :: c in Children(s) ==> !IsType(c, t)
    ensures GetChild(s, t).Some? ==>
      && GetChild(s, t).value in Children(s) && IsType(GetChild(s, t).value, t)
      && exists j :: FirstOfTypeAt(Children(s), j, t) && Children(s)[j] == GetChild(s, t).value
  {
    var cs := Children(s);
    if GetChild(s, t).Some? {
      var j :| FirstOfTypeAt(cs, j, t) && cs[j] == GetChild(s, t).value;
      assert cs[j] in cs;
    }
  }

  /**
   * `Segments.select(sp.is_type(t))`: the segments of `ss` of type `t`, kept
   * in document order.
   */
  function Select(ss: seq<Segment>, t: string): seq<Segment> {
    if ss == [] then []
    else Select(ss[..|ss| - 1], t) + (if IsType(ss[|ss| - 1], t) then [ss[|ss| - 1]] else [])
  }

  /** `Select` keeps only segments of `ss` of type `t`. */
  lemma {:induction false} SelectSound(ss: seq<Segment>, t: string)
    ensures forall x :: x in Select(ss, t) ==> x in ss && IsType(x, t)
  {
    if ss != [] {
      var init, last := ss[..|ss| - 1], ss[|ss| - 1];
      assert ss == init + [last];
      SelectSound(init, t);
    }
  }

  /** `Select` is empty exactly when no segment of `ss` has type `t`. */
  lemma {:induction false} SelectEmpty(ss: seq<Segment>, t: string)
    ensures Select(ss, t) == [] <==> forall j :: 0 <= j < |ss| ==> !IsType(ss[j], t)
  {
    if ss != [] {
      var init, last := ss[..|ss| - 1], ss[|ss| - 1];
      SelectEmpty(init, t);
      if !IsType(last, t) {
        assert Select(ss, t) == Select(init, t);
        forall j | 0 <= j < |ss| && IsType(ss[j], t)
          ensures Select(ss, t) != []
        {
          assert j < |init| && init[j] == ss[j];
        }
      }
    }
  }

  /** What `Select` ends with is the last segment of `ss` of type `t`. */
  lemma {:induction false} SelectLast(ss: seq<Segment>, t: string)
    ensures Select(ss, t) != [] ==>
      exists j :: LastOfTypeAt(ss, j, t) && ss[j] == Select(ss, t)[|Select(ss, t)| - 1]
  {
    if ss != [] {
      var init, last := ss[..|ss| - 1], ss[|ss| - 1];
      var r, r' := Select(ss, t), Select(init, t);
      if IsType(last, t) {
        assert r == r' + [last];
        assert LastOfTypeAt(ss, |ss| - 1, t);
      } else if r != [] {
        assert r == r';
        SelectLast(init, t);
        var j :| LastOfTypeAt(init, j, t) && init[j] == r'[|r'| - 1];
        assert LastOfTypeAt(ss, j, t);
      }
    }
  }

  /**
   * `Select` keeps only segments of type `t`: it is empty only when
   * none has that type, and what it ends with is the last one that has it.
   */
  lemma SelectKeepsType(ss: seq<Segment>, t: string)
    ensures forall x :: x in Select(ss, t) ==> x in ss && IsType(x, t)
    ensures Select(ss, t) == [] <==> forall j :: 0 <= j < |ss| ==> !IsType(ss[j], t)
    ensures Select(ss, t) != [] ==>
      exists j :: LastOfTypeAt(ss, j, t) && ss[j] == Select(ss, t)[|Select(ss, t)| - 1]
  {
    SelectSound(ss, t);
    SelectEmpty(ss, t);
    SelectLast(ss, t);
  }

  /** `Select` drops no segment of type `t`. */
  lemma {:induction false} SelectKeepsAll(ss: seq<Segment>, t: string)
    ensures forall x :: x in ss && IsType(x, t) ==> x in Select(ss, t)
  {
    if ss != [] {
      var init, last := ss[..|ss| - 1], ss[|ss| - 1];
      assert ss == init + [last];
      SelectKeepsAll(init, t);
    }
  }

  /** `segment.get_children(t)`: every child of type `t`, in order. */
  function GetChildren(s: Segment, t: string): (r: seq<Segment>)
    ensures forall c :: c in r ==> c in Children(s) && IsType(c, t)
  {
    SelectKeepsType(Children(s), t);
    Select(Children(s), t)
  }

  /** Selecting from a concatenation selects from each part, in order. */
  lemma {:induction false} SelectAppend(a: seq<Segment>, b: seq<Segment>, t: string)
    ensures Select(a + b, t) == Select(a, t) + Select(b, t)
    decreases |b|
  {
    if b == [] {
      assert a + b == a;
    } else {
      var b', x := b[..|b| - 1], b[|b| - 1];
      var tail := if IsType(x, t) then [x] else [];
      assert (a + b)[..|a + b| - 1] == a + b';
      assert (a + b)[|a + b| - 1] == x;
      assert Select(a + b, t) == Select(a + b', t) + tail;
      assert Select(b, t) == Select(b', t) + tail;
      SelectAppend(a, b', t);
    }
  }

  /**
   * `segment.get_raw_segments()`: the leaf tokens under `s` in document
   * order; a raw segment is its own only raw segment.
   */
  function RawSegments(s: Segment): (r: seq<Segment>)
    ensures forall x :: x in r ==> x.Raw?
    decreases s, 1
  {
    match s
    case Raw(_, _, _) => [s]
    case Node(_, _, ss) => RawSegmentsOf(ss)
  }

  /** The raw segments of each of `ss`, concatenated in order. */
  function RawSegmentsOf(ss: seq<Segment>): (r: seq<Segment>)
    ensures forall x :: x in r ==> x.Raw?
    decreases ss, 0
  {
    if ss == [] then [] else RawSegments(ss[0]) + RawSegmentsOf(ss[1..])
  }

  /** The source text of a run of raw segments, concatenated. */
  function RawText(rs: seq<Segment>): string {
    if rs == [] then ""
    else (if rs[0].Raw? then rs[0].raw else "") + RawText(rs[1..])
  }

  /** `segment.raw`: the source text a segment spans. */
  function Text(s: Segment): string {
    RawText(RawSegments(s))
  }

  /**
   * What the parser guarantees of every tree it builds: no non-raw segment
   * is empty.
   */
  predicate WellFormed(s: Segment) {
    match s
    case Raw(_, _, _) => true
    case Node(_, _, ss) => ss != [] && forall c :: c in ss ==> WellFormed(c)
  }

  /** A well-formed segment has at least one raw segment. */
  lemma {:induction false} WellFormedHasRawSegments(s: Segment)
    requires WellFormed(s)
    ensures RawSegments(s) != []
  {
    match s
    case Raw(_, _, _) =>
    case Node(_, _, ss) =>
      assert ss[0] in ss;
      WellFormedHasRawSegments(ss[0]);
  }
}
