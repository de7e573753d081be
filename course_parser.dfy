/**
 * The free-text course parser of the job recommender
 * (`JobRecommendationSystem._extract_courses_from_text`): it cuts a model's
 * answer into sections at the numbered header lines, reads the five course
 * fields of each section through a keyword priority chain, and keeps at most
 * three courses.
 */
module CourseParser {
  import opened Wrappers
  import opened PyStrings

  /** One course record, with the keys `course_name`, `provider`, `description`, `url`, `relevance`. */
  datatype Course = Course(courseName: string, provider: string, description: string, url: string, relevance: string)

  function Min(a: int, b: int): int { if a <= b then a else b }

  // ---------------------------------------------------------------------------
  // Phase 1: sections

  /** A line whose stripped text starts with `1.`, `2.`, `3.`, `Course 1:`, `Course 2:` or `Course 3:`. */
  predicate IsHeader(line: string)
    ensures IsHeader(line) ==> |line| >= 2
  {
    var t := Strip(line);
    || StartsWith(t, "1.") || StartsWith(t, "2.") || StartsWith(t, "3.")
    || StartsWith(t, "Course 1:") || StartsWith(t, "Course 2:") || StartsWith(t, "Course 3:")
  }

  /** Number of header lines. */
  function HeaderCount(lines: seq<string>): nat
    decreases |lines|
  {
    if lines == [] then 0
    else HeaderCount(lines[..|lines| - 1]) + (if IsHeader(lines[|lines| - 1]) then 1 else 0)
  }

  /** Index of the first header line, or `|lines|` when there is none. */
  function FirstHeader(lines: seq<string>): (r: nat)
    ensures r <= |lines|
    decreases |lines|
  {
    if lines == [] then 0
    else if IsHeader(lines[0]) then 0
    else 1 + FirstHeader(lines[1..])
  }

  /** No line before the first header index is a header, and the line at it is one. */
  lemma {:induction false} FirstHeaderSpec(lines: seq<string>)
    ensures forall j :: 0 <= j < FirstHeader(lines) ==> !IsHeader(lines[j])
    ensures FirstHeader(lines) < |lines| ==> IsHeader(lines[FirstHeader(lines)])
    decreases |lines|
  {
    if lines != [] && !IsHeader(lines[0]) {
      FirstHeaderSpec(lines[1..]);
      forall j | 1 <= j < FirstHeader(lines)
        ensures !IsHeader(lines[j])
      {
        assert lines[j] == lines[1..][j - 1];
      }
    }
  }

  /**
   * The lines of each section, as the section loop builds them: a header line
   * opens a new section, any other line extends the open section, and lines
   * read while no section is open are dropped.
   */
  function SectionLines(lines: seq<string>): seq<seq<string>>
    decreases |lines|
  {
    if lines == [] then []
    else
      var prev := SectionLines(lines[..|lines| - 1]);
      var line := lines[|lines| - 1];
      if IsHeader(line) then prev + [[line]]
      else if prev == [] then prev
      else prev[..|prev| - 1] + [prev[|prev| - 1] + [line]]
  }

  /** Each section joined back with newlines: `current_section` as the source accumulates it. */
  function JoinEach(gs: seq<seq<string>>): (r: seq<string>)
    ensures |r| == |gs|
  {
    seq(|gs|, k requires 0 <= k < |gs| => Join(gs[k], '\n'))
  }

  /** The section texts phase 1 produces. */
  function Sections(lines: seq<string>): seq<string> {
    JoinEach(SectionLines(lines))
  }

  /** A section opens with a header line and holds no other header line. */
  predicate WellFormedSection(g: seq<string>) {
    |g| > 0 && IsHeader(g[0]) && forall j :: 1 <= j < |g| ==> !IsHeader(g[j])
  }

  function Flatten(gs: seq<seq<string>>): seq<string>
    decreases |gs|
  {
    if gs == [] then [] else Flatten(gs[..|gs| - 1]) + gs[|gs| - 1]
  }

  lemma FirstHeaderSnocAt(ls: seq<string>, l: string, r0: nat, r: nat)
    requires r0 == FirstHeader(ls) && r == FirstHeader(ls + [l])
    ensures r0 < |ls| ==> r == r0
    ensures r0 == |ls| && IsHeader(l) ==> r == |ls|
    ensures r0 == |ls| && !IsHeader(l) ==> r == |ls| + 1
  {
    var all := ls + [l];
    FirstHeaderSpec(ls);
    FirstHeaderSpec(all);
    assert all[|ls|] == l;
    assert forall j :: 0 <= j < |ls| ==> all[j] == ls[j];
  }

  /** Reading one more line moves the first header only when there was none. */
  lemma FirstHeaderSnoc(ls: seq<string>, l: string)
    ensures FirstHeader(ls + [l]) ==
      if FirstHeader(ls) < |ls| then FirstHeader(ls)
      else if IsHeader(l) then |ls| else |ls| + 1
  {
    FirstHeaderSnocAt(ls, l, FirstHeader(ls), FirstHeader(ls + [l]));
  }

  /** There is one section per header line. */
  lemma {:induction false} SectionCount(lines: seq<string>)
    ensures |SectionLines(lines)| == HeaderCount(lines)
    decreases |lines|
  {
    if lines != [] {
      var ls, l := lines[..|lines| - 1], lines[|lines| - 1];
      assert lines == ls + [l];
      SectionCount(ls);
      SectionLinesSnoc(ls, l);
    }
  }

  /** Every section opens with its header and holds no other header. */
  lemma {:induction false} SectionsWellFormed(lines: seq<string>)
    ensures forall k :: 0 <= k < |SectionLines(lines)| ==> WellFormedSection(SectionLines(lines)[k])
    decreases |lines|
  {
    if lines != [] {
      var ls, l := lines[..|lines| - 1], lines[|lines| - 1];
      assert lines == ls + [l];
      SectionsWellFormed(ls);
      SectionLinesSnoc(ls, l);
      var prev := SectionLines(ls);
      var gs := SectionLines(lines);
      if IsHeader(l) {
        forall k | 0 <= k < |gs|
          ensures WellFormedSection(gs[k])
        {
          if k < |prev| {
            assert gs[k] == prev[k];
          }
        }
      } else if prev != [] {
        var m := |prev|;
        assert WellFormedSection(prev[m - 1]);
        forall k | 0 <= k < |gs|
          ensures WellFormedSection(gs[k])
        {
          if k < m - 1 {
            assert gs[k] == prev[k];
          } else {
            assert gs[k] == prev[m - 1] + [l];
          }
        }
      }
    }
  }

  lemma FlattenSnoc(gs: seq<seq<string>>, g: seq<string>)
    ensures Flatten(gs + [g]) == Flatten(gs) + g
  {
    assert (gs + [g])[..|gs|] == gs;
  }

  lemma FlattenExtendLast(init: seq<seq<string>>, last: seq<string>, l: string)
    ensures Flatten(init + [last + [l]]) == Flatten(init + [last]) + [l]
  {
    FlattenSnoc(init, last + [l]);
    FlattenSnoc(init, last);
    var f := Flatten(init);
    assert f + (last + [l]) == (f + last) + [l];
  }

  lemma SliceSnoc(ls: seq<string>, l: string, i: nat)
    requires i <= |ls|
    ensures (ls + [l])[i..] == ls[i..] + [l]
  {
  }

  lemma FlattenStep(ls: seq<string>, l: string, prev: seq<seq<string>>, gs: seq<seq<string>>, r0: nat, r: nat)
    requires prev == SectionLines(ls) && gs == SectionLines(ls + [l])
    requires r0 == FirstHeader(ls) && r == FirstHeader(ls + [l])
    requires r0 <= |ls| && Flatten(prev) == ls[r0..]
    ensures r <= |ls| + 1 && Flatten(gs) == (ls + [l])[r..]
  {
    FirstHeaderSnocAt(ls, l, r0, r);
    SectionLinesSnoc(ls, l);
    if IsHeader(l) {
      FlattenStepHeader(ls, l, prev, r0, r);
    } else if prev != [] {
      LastSectionOpensWithHeader(ls);
      var init, last := prev[..|prev| - 1], prev[|prev| - 1];
      assert init + [last] == prev;
      FlattenStepExtend(ls, l, init, last, r0);
    }
  }

  lemma FlattenStepHeader(ls: seq<string>, l: string, prev: seq<seq<string>>, r0: nat, r: nat)
    requires r0 <= |ls| && Flatten(prev) == ls[r0..]
    requires r0 < |ls| ==> r == r0
    requires r0 == |ls| ==> r == |ls|
    ensures Flatten(prev + [[l]]) == (ls + [l])[r..]
  {
    FlattenSnoc(prev, [l]);
    SliceSnoc(ls, l, r0);
  }

  lemma FlattenStepExtend(ls: seq<string>, l: string, init: seq<seq<string>>, last: seq<string>, r0: nat)
    requires r0 <= |ls| && Flatten(init + [last]) == ls[r0..]
    requires |last| > 0
    ensures r0 < |ls|
    ensures Flatten(init + [last + [l]]) == (ls + [l])[r0..]
  {
    FlattenSnoc(init, last);
    FlattenExtendLast(init, last, l);
    SliceSnoc(ls, l, r0);
  }

  /** The sections laid end to end are exactly the lines from the first header on. */
  lemma {:induction false} SectionsFlatten(lines: seq<string>)
    ensures Flatten(SectionLines(lines)) == lines[FirstHeader(lines)..]
    decreases |lines|
  {
    if lines != [] {
      var ls := lines[..|lines| - 1];
      SectionsFlatten(ls);
      var l := lines[|lines| - 1];
      assert ls + [l] == lines;
      FlattenStep(ls, l, SectionLines(ls), SectionLines(lines), FirstHeader(ls), FirstHeader(lines));
    }
  }

  /**
   * There is one section per header line, every section opens with its header
   * and holds no other header, and the sections laid end to end are exactly
   * the lines from the first header on.
   */
  lemma SectionLinesShape(lines: seq<string>)
    ensures |SectionLines(lines)| == HeaderCount(lines)
    ensures forall k :: 0 <= k < |SectionLines(lines)| ==> WellFormedSection(SectionLines(lines)[k])
    ensures Flatten(SectionLines(lines)) == lines[FirstHeader(lines)..]
  {
    SectionCount(lines);
    SectionsWellFormed(lines);
    SectionsFlatten(lines);
  }

  /** Every line of every section is one of the input lines. */
  lemma {:induction false} SectionLinesFromInput(lines: seq<string>)
    ensures forall k, j :: 0 <= k < |SectionLines(lines)| && 0 <= j < |SectionLines(lines)[k]| ==>
      SectionLines(lines)[k][j] in lines
    decreases |lines|
  {
    if lines != [] {
      var ls, l := lines[..|lines| - 1], lines[|lines| - 1];
      SectionLinesFromInput(ls);
      var prev := SectionLines(ls);
      var gs := SectionLines(lines);
      forall k, j | 0 <= k < |gs| && 0 <= j < |gs[k]|
        ensures gs[k][j] in lines
      {
        if IsHeader(l) {
          if k < |prev| {
            assert gs[k][j] == prev[k][j];
            assert prev[k][j] in ls;
          }
        } else if prev != [] {
          var m := |prev|;
          if k < m - 1 {
            assert gs[k] == prev[k];
            assert prev[k][j] in ls;
          } else if j < |prev[m - 1]| {
            assert gs[k][j] == prev[m - 1][j];
            assert prev[m - 1][j] in ls;
          }
        }
      }
    }
  }

  lemma {:induction false} JoinAppend(a: seq<string>, b: seq<string>, c: char)
    requires |a| > 0 && |b| > 0
    ensures Join(a + b, c) == Join(a, c) + [c] + Join(b, c)
    decreases |a|
  {
    var ab := a + b;
    assert ab[0] == a[0];
    if |a| == 1 {
      assert ab[1..] == b;
    } else {
      JoinAppend(a[1..], b, c);
      assert ab[1..] == a[1..] + b;
      var x, y := Join(a[1..], c), Join(b, c);
      assert Join(ab, c) == a[0] + [c] + (x + [c] + y);
      assert Join(a, c) == a[0] + [c] + x;
    }
  }

  /** Joining the joined sections equals joining their lines. */
  lemma {:induction false} JoinEachFlatten(gs: seq<seq<string>>)
    requires forall k :: 0 <= k < |gs| ==> |gs[k]| > 0
    ensures Join(JoinEach(gs), '\n') == Join(Flatten(gs), '\n')
    decreases |gs|
  {
    if gs != [] {
      var init := gs[..|gs| - 1];
      var last := gs[|gs| - 1];
      JoinEachFlatten(init);
      assert JoinEach(gs) == JoinEach(init) + [Join(last, '\n')];
      if init == [] {
        assert Flatten(gs) == last;
      } else {
        JoinSnoc(JoinEach(init), Join(last, '\n'), '\n');
        assert Flatten(init) != [] by {
          assert Flatten(init) == Flatten(init[..|init| - 1]) + init[|init| - 1];
        }
        JoinAppend(Flatten(init), last, '\n');
      }
    }
  }

  /** Joining the sections with newlines gives back the lines from the first header on. */
  lemma SectionsRejoin(lines: seq<string>)
    ensures Join(Sections(lines), '\n') == Join(lines[FirstHeader(lines)..], '\n')
  {
    SectionLinesShape(lines);
    JoinEachFlatten(SectionLines(lines));
  }

  /**
   * For lines cut from a text at its newlines: each section text begins with
   * its header line, and splitting it at newlines gives back exactly its
   * lines, which is what phase 2 walks through.
   */
  lemma SectionTextSplitsBack(lines: seq<string>, k: nat)
    requires forall j :: 0 <= j < |lines| ==> '\n' !in lines[j]
    requires k < |Sections(lines)|
    ensures |SectionLines(lines)[k]| > 0 && IsHeader(SectionLines(lines)[k][0])
    ensures StartsWith(Sections(lines)[k], SectionLines(lines)[k][0])
    ensures Split(Sections(lines)[k], '\n') == SectionLines(lines)[k]
  {
    SectionLinesShape(lines);
    SectionLinesFromInput(lines);
    var g := SectionLines(lines)[k];
    assert WellFormedSection(g);
    JoinStartsWithFirst(g, '\n');
    forall j | 0 <= j < |g|
      ensures '\n' !in g[j]
    {
      assert g[j] in lines;
    }
    SplitJoin(g, '\n');
  }

  lemma SectionLinesSnoc(ls: seq<string>, l: string)
    ensures var prev := SectionLines(ls);
      SectionLines(ls + [l]) ==
        if IsHeader(l) then prev + [[l]]
        else if prev == [] then []
        else prev[..|prev| - 1] + [prev[|prev| - 1] + [l]]
  {
    assert (ls + [l])[..|ls|] == ls;
  }

  lemma JoinEachSnoc(gs: seq<seq<string>>, g: seq<string>)
    ensures JoinEach(gs + [g]) == JoinEach(gs) + [Join(g, '\n')]
  {
  }

  /** A section that opens with a header line has a non-empty text. */
  lemma SectionTextNonEmpty(g: seq<string>)
    requires |g| > 0 && IsHeader(g[0])
    ensures Join(g, '\n') != ""
  {
    JoinStartsWithFirst(g, '\n');
  }

  /** The open section, when there is one, is non-empty and opens with a header line. */
  lemma {:induction false} LastSectionOpensWithHeader(lines: seq<string>)
    ensures var gs := SectionLines(lines);
      gs != [] ==> |gs[|gs| - 1]| > 0 && IsHeader(gs[|gs| - 1][0])
    decreases |lines|
  {
    if lines != [] {
      var ls, l := lines[..|lines| - 1], lines[|lines| - 1];
      assert lines == ls + [l];
      LastSectionOpensWithHeader(ls);
      SectionLinesSnoc(ls, l);
    }
  }

  /**
   * The loop variables `(sections, current_section)` after reading `lines`:
   * the closed sections and the text of the open one, "" when none is open.
   */
  function LoopState(lines: seq<string>): (seq<string>, string) {
    var gs := SectionLines(lines);
    if gs == [] then ([], "") else (JoinEach(gs[..|gs| - 1]), Join(gs[|gs| - 1], '\n'))
  }

  /** One turn of the section loop. */
  function SectionStep(st: (seq<string>, string), line: string): (seq<string>, string) {
    var (sections, current) := st;
    if IsHeader(line) then (if current != "" then sections + [current] else sections, line)
    else if current != "" then (sections, current + "\n" + line)
    else st
  }

  /** Nothing is open exactly when no header has been read. */
  lemma LoopStateOpen(lines: seq<string>)
    ensures LoopState(lines).1 == "" <==> SectionLines(lines) == []
  {
    var gs := SectionLines(lines);
    LastSectionOpensWithHeader(lines);
    if gs != [] {
      SectionTextNonEmpty(gs[|gs| - 1]);
    }
  }

  /** The loop turn takes the state of `ls` to the state of `ls + [l]`. */
  lemma LoopStateSnoc(ls: seq<string>, l: string)
    ensures LoopState(ls + [l]) == SectionStep(LoopState(ls), l)
  {
    SectionLinesSnoc(ls, l);
    LoopStateOpen(ls);
    var gs := SectionLines(ls);
    if IsHeader(l) {
      var gs' := gs + [[l]];
      assert gs'[..|gs'| - 1] == gs;
      if gs != [] {
        JoinEachSnoc(gs[..|gs| - 1], gs[|gs| - 1]);
        assert gs[..|gs| - 1] + [gs[|gs| - 1]] == gs;
      }
    } else if gs != [] {
      var m := |gs|;
      LastSectionOpensWithHeader(ls);
      JoinSnoc(gs[m - 1], l, '\n');
      var gs' := gs[..m - 1] + [gs[m - 1] + [l]];
      assert gs'[..m - 1] == gs[..m - 1];
    }
  }

  /** Closing the open section at the end gives the sections. */
  lemma LoopStateFinish(lines: seq<string>)
    ensures var (sections, current) := LoopState(lines);
      Sections(lines) == if current != "" then sections + [current] else sections
  {
    LoopStateOpen(lines);
    var gs := SectionLines(lines);
    if gs != [] {
      JoinEachSnoc(gs[..|gs| - 1], gs[|gs| - 1]);
      assert gs[..|gs| - 1] + [gs[|gs| - 1]] == gs;
    }
  }

  /** Phase 1: the section loop of the source. */
  method SplitIntoSections(lines: seq<string>) returns (sections: seq<string>)
    ensures sections == Sections(lines)
  {
    sections := [];
    var current := "";
    for i := 0 to |lines|
      invariant (sections, current) == LoopState(lines[..i])
    {
      var line := lines[i];
      assert lines[..i + 1] == lines[..i] + [line];
      LoopStateSnoc(lines[..i], line);
      if IsHeader(line) {
        if current != "" {
          sections := sections + [current];
        }
        current := line;
      } else if current != "" {
        current := current + "\n" + line;
      }
    }
    assert lines[..|lines|] == lines;
    LoopStateFinish(lines);
    if current != "" {
      sections := sections + [current];
    }
  }

  // ---------------------------------------------------------------------------
  // Phase 2: the fields of one section

  datatype Field = CourseName | Provider | Description | Url | Relevance

  /**
   * The if/elif chain over the lower-cased line: "course" or "name" first,
   * then "provider", "description", "url" or "http", and "relevan".
   */
  function Route(low: string): (r: Option<Field>)
    ensures r == Some(CourseName) <==> Contains(low, "course") || Contains(low, "name")
    ensures r == Some(Provider) <==>
      !Contains(low, "course") && !Contains(low, "name") && Contains(low, "provider")
    ensures r == Some(Description) <==>
      !Contains(low, "course") && !Contains(low, "name") && !Contains(low, "provider")
      && Contains(low, "description")
    ensures r == Some(Url) <==>
      !Contains(low, "course") && !Contains(low, "name") && !Contains(low, "provider")
      && !Contains(low, "description") && (Contains(low, "url") || Contains(low, "http"))
    ensures r == Some(Relevance) <==>
      !Contains(low, "course") && !Contains(low, "name") && !Contains(low, "provider")
      && !Contains(low, "description") && !Contains(low, "url") && !Contains(low, "http")
      && Contains(low, "relevan")
  {
    if Contains(low, "course") || Contains(low, "name") then Some(CourseName)
    else if Contains(low, "provider") then Some(Provider)
    else if Contains(low, "description") then Some(Description)
    else if Contains(low, "url") || Contains(low, "http") then Some(Url)
    else if Contains(low, "relevan") then Some(Relevance)
    else None
  }

  /**
   * What one section line writes, if anything: the field it is routed to and
   * the stripped text after its first `:`; nothing when it has no `:`.
   */
  function Assignment(line: string): (r: Option<(Field, string)>)
    ensures r.Some? <==> Route(Lower(Strip(line))).Some? && ':' in Strip(line)
    ensures r.Some? ==> r.value.0 == Route(Lower(Strip(line))).value
  {
    var t := Strip(line);
    match Route(Lower(t))
    case None => None
    case Some(f) =>
      var k := Find(t, ':');
      if k < 0 then None else Some((f, Strip(t[k + 1..])))
  }

  /** The value a line writes is the stripped text after the first `:` of the stripped line. */
  lemma AssignedValueFollowsFirstColon(line: string)
    requires Assignment(line).Some?
    ensures var t := Strip(line);
      exists k :: 0 <= k < |t| && t[k] == ':' && ':' !in t[..k] && Assignment(line).value.1 == Strip(t[k + 1..])
  {
    var t := Strip(line);
    var k := Find(t, ':');
    assert t[k] == ':' && ':' !in t[..k];
  }

  predicate AssignsTo(line: string, f: Field) {
    Assignment(line).Some? && Assignment(line).value.0 == f
  }

  /** The value a field has before any line is read. */
  function DefaultValue(section: string, f: Field): string {
    match f
    case CourseName => "Unknown Course"
    case Provider => "Unknown Provider"
    case Description => section
    case Url => ""
    case Relevance => ""
  }

  function Get(c: Course, f: Field): string {
    match f
    case CourseName => c.courseName
    case Provider => c.provider
    case Description => c.description
    case Url => c.url
    case Relevance => c.relevance
  }

  /** The value written by the last line that assigns `f`, if any line does. */
  function LastValue(lines: seq<string>, f: Field): Option<string>
    decreases |lines|
  {
    if lines == [] then None
    else if AssignsTo(lines[|lines| - 1], f) then Some(Assignment(lines[|lines| - 1]).value.1)
    else LastValue(lines[..|lines| - 1], f)
  }

  function FieldValue(section: string, lines: seq<string>, f: Field): string {
    match LastValue(lines, f)
    case Some(v) => v
    case None => DefaultValue(section, f)
  }

  /** A value `LastValue` finds was written by one of the lines. */
  lemma {:induction false} LastValueFromLine(lines: seq<string>, f: Field)
    ensures LastValue(lines, f).Some? ==>
      exists l :: l in lines && AssignsTo(l, f) && Assignment(l).value.1 == LastValue(lines, f).value
    decreases |lines|
  {
    if lines != [] && !AssignsTo(lines[|lines| - 1], f) {
      var init := lines[..|lines| - 1];
      LastValueFromLine(init, f);
      if LastValue(init, f).Some? {
        var l :| l in init && AssignsTo(l, f) && Assignment(l).value.1 == LastValue(init, f).value;
        assert l in lines;
      }
    }
  }

  lemma FieldsFromLines(section: string, lines: seq<string>)
    ensures forall f :: (Get(CourseFromLines(section, lines), f) == DefaultValue(section, f)
      || exists l :: l in lines && AssignsTo(l, f) && Assignment(l).value.1 == Get(CourseFromLines(section, lines), f))
  {
    forall f
      ensures Get(CourseFromLines(section, lines), f) == DefaultValue(section, f)
        || exists l :: l in lines && AssignsTo(l, f) && Assignment(l).value.1 == Get(CourseFromLines(section, lines), f)
    {
      LastValueFromLine(lines, f);
    }
  }

  /** The course read from `lines`: each field holds its last assignment, or its default. */
  function CourseFromLines(section: string, lines: seq<string>): Course {
    Course(
      FieldValue(section, lines, CourseName),
      FieldValue(section, lines, Provider),
      FieldValue(section, lines, Description),
      FieldValue(section, lines, Url),
      FieldValue(section, lines, Relevance))
  }

  lemma GetFieldValue(section: string, lines: seq<string>, f: Field)
    ensures Get(CourseFromLines(section, lines), f) == FieldValue(section, lines, f)
  {
  }

  /** The course phase 2 reads from one section text. */
  function CourseOf(section: string): (c: Course)
    ensures forall f :: (Get(c, f) == DefaultValue(section, f)
      || exists l :: l in Split(section, '\n') && AssignsTo(l, f) && Assignment(l).value.1 == Get(c, f))
  {
    FieldsFromLines(section, Split(section, '\n'));
    CourseFromLines(section, Split(section, '\n'))
  }

  lemma FieldValueSnoc(section: string, ls: seq<string>, l: string, f: Field)
    ensures FieldValue(section, ls + [l], f) ==
      if AssignsTo(l, f) then Assignment(l).value.1 else FieldValue(section, ls, f)
  {
    assert (ls + [l])[..|ls|] == ls;
  }

  function Set(c: Course, f: Field, v: string): Course {
    match f
    case CourseName => c.(courseName := v)
    case Provider => c.(provider := v)
    case Description => c.(description := v)
    case Url => c.(url := v)
    case Relevance => c.(relevance := v)
  }

  /** The effect of one line on a course record. */
  function Apply(c: Course, line: string): Course {
    match Assignment(line)
    case None => c
    case Some((f, v)) => Set(c, f, v)
  }

  /** Reading the lines one after the other builds the course of "last assignment wins". */
  lemma CourseFromLinesSnoc(section: string, ls: seq<string>, l: string)
    ensures CourseFromLines(section, ls + [l]) == Apply(CourseFromLines(section, ls), l)
  {
    FieldValueSnoc(section, ls, l, CourseName);
    FieldValueSnoc(section, ls, l, Provider);
    FieldValueSnoc(section, ls, l, Description);
    FieldValueSnoc(section, ls, l, Url);
    FieldValueSnoc(section, ls, l, Relevance);
  }

  /** The body of the line loop: the if/elif keyword chain over one line. */
  method ApplyLine(course: Course, rawLine: string) returns (updated: Course)
    ensures updated == Apply(course, rawLine)
  {
    updated := course;
    var line := Strip(rawLine);
    var low := Lower(line);
    // `line.split(':', 1)` has a second part exactly when the line holds a ':'
    var colon := Find(line, ':');
    if Contains(low, "course") || Contains(low, "name") {
      if colon >= 0 {
        updated := updated.(courseName := Strip(line[colon + 1..]));
      }
    } else if Contains(low, "provider") {
      if colon >= 0 {
        updated := updated.(provider := Strip(line[colon + 1..]));
      }
    } else if Contains(low, "description") {
      if colon >= 0 {
        updated := updated.(description := Strip(line[colon + 1..]));
      }
    } else if Contains(low, "url") || Contains(low, "http") {
      if colon >= 0 {
        updated := updated.(url := Strip(line[colon + 1..]));
      }
    } else if Contains(low, "relevan") {
      if colon >= 0 {
        updated := updated.(relevance := Strip(line[colon + 1..]));
      }
    }
  }

  /** Phase 2 for one section: the line loop that fills the course record. */
  method ParseSection(section: string) returns (course: Course)
    ensures course == CourseOf(section)
  {
    course := Course("Unknown Course", "Unknown Provider", section, "", "");
    var lines := Split(section, '\n');
    for i := 0 to |lines|
      invariant course == CourseFromLines(section, lines[..i])
    {
      assert lines[..i + 1] == lines[..i] + [lines[i]];
      CourseFromLinesSnoc(section, lines[..i], lines[i]);
      course := ApplyLine(course, lines[i]);
    }
    assert lines[..|lines|] == lines;
  }

  /**
   * A line mentioning "course" or "name" can only set the course name, even
   * when it also mentions a provider, a description, a url or a relevance.
   */
  lemma NameLineSetsOnlyName(section: string, ls: seq<string>, l: string)
    requires Contains(Lower(Strip(l)), "course") || Contains(Lower(Strip(l)), "name")
    ensures forall f :: f != CourseName ==>
      Get(CourseFromLines(section, ls + [l]), f) == Get(CourseFromLines(section, ls), f)
  {
    assert (ls + [l])[..|ls|] == ls;
  }

  /** A line without `:` changes nothing. */
  lemma LineWithoutColonChangesNothing(section: string, ls: seq<string>, l: string)
    requires ':' !in Strip(l)
    ensures CourseFromLines(section, ls + [l]) == CourseFromLines(section, ls)
  {
    assert (ls + [l])[..|ls|] == ls;
  }

  /**
   * A bare link routed to the url field is split at the colon of its scheme,
   * so the url stored is the link without its "https:".
   */
  lemma BareLinkLosesScheme(c: Course, line: string, rest: string)
    requires Strip(line) == "https:" + rest
    requires Route(Lower(Strip(line))) == Some(Url)
    ensures Apply(c, line) == c.(url := Strip(rest))
  {
    var t := Strip(line);
    assert t[5] == ':';
    assert t[..5] == "https";
    var k := Find(t, ':');
    assert k == 5;
    assert t[k + 1..] == rest;
  }

  lemma {:induction false} LastValueAt(all: seq<string>, i: nat, f: Field)
    requires i < |all| && AssignsTo(all[i], f)
    requires forall j :: i < j < |all| ==> !AssignsTo(all[j], f)
    ensures LastValue(all, f) == Some(Assignment(all[i]).value.1)
    decreases |all|
  {
    if i < |all| - 1 {
      var init := all[..|all| - 1];
      assert forall j :: i <= j < |init| ==> init[j] == all[j];
      LastValueAt(init, i, f);
    }
  }

  /** A line that assigns a field decides it, unless a later line assigns it again. */
  lemma LastAssignmentWins(section: string, ls: seq<string>, l: string, rest: seq<string>, f: Field)
    requires AssignsTo(l, f)
    requires forall j :: 0 <= j < |rest| ==> !AssignsTo(rest[j], f)
    ensures Get(CourseFromLines(section, ls + [l] + rest), f) == Assignment(l).value.1
  {
    var all := ls + [l] + rest;
    assert all[|ls|] == l;
    forall j | |ls| < j < |all|
      ensures !AssignsTo(all[j], f)
    {
      assert all[j] == rest[j - |ls| - 1];
    }
    LastValueAt(all, |ls|, f);
    GetFieldValue(section, all, f);
  }

  /**
   * A field no line assigns keeps its default; in particular the description
   * is then the whole section text.
   */
  lemma {:induction false} UnassignedFieldKeepsDefault(section: string, ls: seq<string>, f: Field)
    requires forall j :: 0 <= j < |ls| ==> !AssignsTo(ls[j], f)
    ensures Get(CourseFromLines(section, ls), f) == DefaultValue(section, f)
    decreases |ls|
  {
    if ls != [] {
      UnassignedFieldKeepsDefault(section, ls[..|ls| - 1], f);
    }
  }

  // ---------------------------------------------------------------------------
  // The whole parser

  /** The course read from each section, in order. */
  function CoursesOf(sections: seq<string>): (r: seq<Course>)
    ensures |r| == |sections|
  {
    seq(|sections|, k requires 0 <= k < |sections| => CourseOf(sections[k]))
  }

  /** At most the first three of the courses read from the sections of `text`. */
  function ExtractedCourses(text: string): (r: seq<Course>)
    ensures var sections := Sections(Split(text, '\n'));
      && |r| == Min(3, |sections|)
      && forall k :: 0 <= k < |r| ==> r[k] == CourseOf(sections[k])
  {
    var all := CoursesOf(Sections(Split(text, '\n')));
    if |all| <= 3 then all else all[..3]
  }

  /** The parser returns one course per header line, but never more than three. */
  lemma CourseCount(text: string)
    ensures |ExtractedCourses(text)| == Min(3, HeaderCount(Split(text, '\n')))
  {
    SectionCount(Split(text, '\n'));
  }

  /** Phase 2: the loop over the sections. */
  method ParseSections(sections: seq<string>) returns (courses: seq<Course>)
    ensures courses == CoursesOf(sections)
  {
    courses := [];
    for i := 0 to |sections|
      invariant |courses| == i
      invariant forall k :: 0 <= k < i ==> courses[k] == CourseOf(sections[k])
    {
      var course := ParseSection(sections[i]);
      courses := courses + [course];
    }
  }

  /** `_extract_courses_from_text` */
  method ExtractCourses(text: string) returns (courses: seq<Course>)
    ensures courses == ExtractedCourses(text)
    ensures |courses| == Min(3, HeaderCount(Split(text, '\n')))
  {
    var lines := Split(text, '\n');
    var sections := SplitIntoSections(lines);
    courses := ParseSections(sections);
    if |courses| > 3 {
      courses := courses[..3];
    }
    CourseCount(text);
  }
}
