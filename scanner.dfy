/** The module scanner (api/parse-transcript.py:65-91; the same code is
    api/parser.py:52-78): a forward cursor over the tokenized lines that pairs each
    module id with the first grade in the fifteen lines after it.

    The scan is stated over the three searches it makes on a line (`LineTests`), so
    that what it does with their answers can be reasoned about apart from how the
    answers are found; `Handler` names the searches the handler makes. */
module Scanner {
  import opened Text
  import opened Patterns
  import opened Tokenizer

  /** How many lines after a module id are searched for its grade: `range(15)`. */
  const WindowSize: nat := 15

  /** `{'module_id': module_id, 'grade': f"{grade:.1f}"}` */
  datatype Course = Course(moduleId: string, grade: string)

  /** The searches made on a line: for a module id, for the ungraded marker, and for
      the first comma-decimal numeral (in tenths). */
  datatype LineTests = LineTests(moduleId: string -> Option<string>, ungraded: string -> bool, decimal: string -> Option<nat>)

  /** Stripping a line keeps a slice of it with only whitespace around it. */
  lemma StripIsAround(line: string)
    ensures var i := Run(line, 0, IsSpace);
      SpacesAround(line, i, i + |Strip(line)|) && Strip(line) == line[i..i + |Strip(line)|]
  {
  }

  /** The id search on `lines[i].strip()`. None of the three patterns can match
      whitespace at either end of its match, so stripping first changes nothing. */
  function IdOf(line: string): (id: Option<string>)
    ensures id == FindModuleId(line)
  {
    StripIsAround(line);
    FindModuleIdAround(line, Strip(line), Run(line, 0, IsSpace), Run(line, 0, IsSpace) + |Strip(line)|);
    FindModuleId(Strip(line))
  }

  /** The ungraded search on `lines[i + j].strip()`. */
  predicate UngradedOf(line: string)
    ensures UngradedOf(line) <==> IsUngraded(line)
  {
    StripIsAround(line);
    UngradedAround(line, Strip(line), Run(line, 0, IsSpace), Run(line, 0, IsSpace) + |Strip(line)|);
    IsUngraded(Strip(line))
  }

  /** The grade search on `lines[i + j].strip()`. */
  function DecimalOf(line: string): (v: Option<nat>)
    ensures v == FindDecimal(line)
  {
    StripIsAround(line);
    FindDecimalAround(line, Strip(line), Run(line, 0, IsSpace), Run(line, 0, IsSpace) + |Strip(line)|);
    FindDecimal(Strip(line))
  }

  const Handler: LineTests := LineTests(IdOf, UngradedOf, DecimalOf)

  /** `1.0 <= grade <= 5.0` for a grade in tenths. Both bounds are exact doubles and
      the conversion of a numeral to a double is monotone, so the float comparison
      agrees with this one. */
  predicate InGradeRange(v: nat) { 10 <= v <= 50 }

  /** A line that ends the window: it holds the ungraded marker, or its first
      comma-decimal numeral lies in [1.0, 5.0]. */
  predicate EndsWindow(t: LineTests, line: string) {
    t.ungraded(line) || (t.decimal(line).Some? && InGradeRange(t.decimal(line).value))
  }

  /** How the window after a module id ends: a grade on line `at`, an ungraded marker on
      line `at`, or neither within fifteen lines or before the end of the lines. */
  datatype WindowEnd = Graded(tenths: nat, at: nat) | Ungraded(at: nat) | Exhausted

  /** The inner `for j in range(15)` loop, from offset j of the window that starts at
      line `start` (the line after the id). */
  function ScanWindow(t: LineTests, lines: seq<string>, start: nat, j: nat): (w: WindowEnd)
    requires j <= WindowSize
    ensures !w.Exhausted? ==> start + j <= w.at < start + WindowSize && w.at < |lines|
    decreases WindowSize - j
  {
    if j == WindowSize || start + j >= |lines| then Exhausted
    else
      var line := lines[start + j];
      if t.ungraded(line) then Ungraded(start + j)
      else
        match t.decimal(line)
        case Some(v) => if InGradeRange(v) then Graded(v, start + j) else ScanWindow(t, lines, start, j + 1)
        case None => ScanWindow(t, lines, start, j + 1)
  }

  /** The window ends on its first line that ends a window, if it has one: on an
      ungraded marker, which takes precedence over a numeral on the same line, or on
      a grade in range; an out-of-range numeral does not end it. */
  lemma {:induction false} ScanWindowSpec(t: LineTests, lines: seq<string>, start: nat, j: nat)
    requires j <= WindowSize
    ensures var w := ScanWindow(t, lines, start, j);
            && (w.Ungraded? ==> t.ungraded(lines[w.at]))
            && (w.Graded? ==> !t.ungraded(lines[w.at]) && t.decimal(lines[w.at]) == Some(w.tenths) && InGradeRange(w.tenths))
            && (forall k :: start + j <= k < |lines| && k < start + WindowSize && (w.Exhausted? || k < w.at)
                  ==> !EndsWindow(t, lines[k]))
    decreases WindowSize - j
  {
    if j < WindowSize && start + j < |lines| {
      ScanWindowSpec(t, lines, start, j + 1);
    }
  }

  /** An emitted course together with the lines it was read from. */
  datatype Hit = Hit(idLine: nat, gradeLine: nat, moduleId: string, tenths: nat)

  /** The outer `while i < len(lines)` loop from cursor i: the courses it emits. */
  function ScanFrom(t: LineTests, lines: seq<string>, i: nat): (hits: seq<Hit>)
    ensures forall h <- hits :: i <= h.idLine < h.gradeLine < |lines|
    ensures i <= |lines| ==> 2 * |hits| <= |lines| - i
    decreases |lines| - i
  {
    if i >= |lines| then []
    else
      match t.moduleId(lines[i])
      case None => ScanFrom(t, lines, i + 1)
      case Some(id) =>
        match ScanWindow(t, lines, i + 1, 0)
        case Exhausted => ScanFrom(t, lines, i + 1)
        case Ungraded(k) => ScanFrom(t, lines, k + 1)
        case Graded(v, k) => [Hit(i, k, id, v)] + ScanFrom(t, lines, k + 1)
  }

  function CourseOf(h: Hit): (c: Course)
  {
    Course(h.moduleId, FormatTenths(h.tenths))
  }

  /** The records the scanner appends, one per hit, in order. */
  function Courses(hits: seq<Hit>): (cs: seq<Course>)
  {
    seq(|hits|, n requires 0 <= n < |hits| => CourseOf(hits[n]))
  }

  /** When the window of an id ends with neither a grade nor a marker, the id yields
      nothing and the scan goes on from the line after it, so the window's lines, and
      any id among them, are scanned again. */
  lemma ExhaustedWindowRescans(t: LineTests, lines: seq<string>, i: nat)
    requires i < |lines| && t.moduleId(lines[i]).Some?
    requires ScanWindow(t, lines, i + 1, 0) == Exhausted
    ensures ScanFrom(t, lines, i) == ScanFrom(t, lines, i + 1)
    ensures forall k :: i < k < |lines| && k <= i + WindowSize ==> !EndsWindow(t, lines[k])
  {
    ScanWindowSpec(t, lines, i + 1, 0);
  }

  /** An ungraded marker in the window consumes the id without a course, even when the
      marker line also holds a numeral in range; the scan resumes after the marker. */
  lemma UngradedConsumes(t: LineTests, lines: seq<string>, i: nat, k: nat)
    requires i < |lines| && t.moduleId(lines[i]).Some?
    requires ScanWindow(t, lines, i + 1, 0) == Ungraded(k)
    ensures ScanFrom(t, lines, i) == ScanFrom(t, lines, k + 1)
    ensures i < k <= i + WindowSize && t.ungraded(lines[k])
  {
    ScanWindowSpec(t, lines, i + 1, 0);
  }

  /** A grade in the window emits one course for the id, and the scan resumes after
      the grade line. */
  lemma GradedEmits(t: LineTests, lines: seq<string>, i: nat, v: nat, k: nat)
    requires i < |lines| && t.moduleId(lines[i]).Some?
    requires ScanWindow(t, lines, i + 1, 0) == Graded(v, k)
    ensures ScanFrom(t, lines, i) == [Hit(i, k, t.moduleId(lines[i]).value, v)] + ScanFrom(t, lines, k + 1)
    ensures i < k <= i + WindowSize && t.decimal(lines[k]) == Some(v) && InGradeRange(v)
  {
    ScanWindowSpec(t, lines, i + 1, 0);
  }

  /** A line without a module id is passed over. */
  lemma NoIdSkips(t: LineTests, lines: seq<string>, i: nat)
    requires i < |lines| && t.moduleId(lines[i]).None?
    ensures ScanFrom(t, lines, i) == ScanFrom(t, lines, i + 1)
  {
  }

  lemma CoursesAppend(hits: seq<Hit>, h: Hit)
    ensures Courses(hits + [h]) == Courses(hits) + [CourseOf(h)]
  {
    assert Courses(hits + [h])[|hits|] == CourseOf(h);
  }

  /** The inner `for j in range(15)` loop over the window that starts at line `start`:
      it stops at the end of the lines, on an ungraded marker, or on a grade in range,
      and goes on past a line with no numeral or an out-of-range one. */
  method SearchWindow(t: LineTests, lines: seq<string>, start: nat) returns (w: WindowEnd)
    ensures w == ScanWindow(t, lines, start, 0)
  {
    w := Exhausted;
    for j := 0 to WindowSize
      invariant ScanWindow(t, lines, start, j) == ScanWindow(t, lines, start, 0)
    {
      if start + j >= |lines| {
        return;
      }
      var nextLine := lines[start + j];
      if t.ungraded(nextLine) {
        w := Ungraded(start + j);
        return;
      }
      var gradeMatch := t.decimal(nextLine);
      if gradeMatch.Some? {
        var grade := gradeMatch.value;
        if InGradeRange(grade) {
          w := Graded(grade, start + j);
          return;
        }
      }
    }
  }

  /** The scanner loop of the handler, making the searches `t` on each line (the
      handler passes `Handler`). The cursor only moves forward: past the id line, and
      on a grade or an ungraded marker past that line; when the window ends without
      either, it stays on the line after the id. */
  method Scan(t: LineTests, lines: seq<string>) returns (courses: seq<Course>)
    ensures courses == Courses(ScanFrom(t, lines, 0))
  {
    courses := [];
    ghost var hits: seq<Hit> := [];
    var i := 0;
    while i < |lines|
      invariant i <= |lines|
      invariant hits + ScanFrom(t, lines, i) == ScanFrom(t, lines, 0)
      invariant courses == Courses(hits)
      decreases |lines| - i
    {
      var idMatch := t.moduleId(lines[i]);
      if idMatch.Some? {
        var moduleId := idMatch.value;
        ghost var idLine := i;
        i := i + 1;
        var w := SearchWindow(t, lines, i);
        match w
        case Exhausted =>
          ExhaustedWindowRescans(t, lines, idLine);
        case Ungraded(k) =>
          UngradedConsumes(t, lines, idLine, k);
          i := k + 1;
        case Graded(grade, k) =>
          ghost var h := Hit(idLine, k, moduleId, grade);
          GradedEmits(t, lines, idLine, grade, k);
          ConcatAssoc(hits, [h], ScanFrom(t, lines, k + 1));
          CoursesAppend(hits, h);
          courses := courses + [Course(moduleId, FormatTenths(grade))];
          hits := hits + [h];
          i := k + 1;
      } else {
        NoIdSkips(t, lines, i);
        i := i + 1;
      }
    }
    assert hits + [] == hits;
  }

  /** Everything a hit says about the lines it was read from: the id is the id found
      on its line; the grade line is 1 to 15 lines after it, holds no ungraded marker,
      and its first numeral is the grade, in range; and no line in between ends the
      window. */
  ghost predicate HitFits(t: LineTests, lines: seq<string>, h: Hit) {
    && h.idLine < h.gradeLine <= h.idLine + WindowSize && h.gradeLine < |lines|
    && t.moduleId(lines[h.idLine]) == Some(h.moduleId)
    && !t.ungraded(lines[h.gradeLine])
    && t.decimal(lines[h.gradeLine]) == Some(h.tenths) && InGradeRange(h.tenths)
    && forall k :: h.idLine < k < h.gradeLine ==> !EndsWindow(t, lines[k])
  }

  /** Every hit fits its lines, and none comes from before the cursor. */
  lemma {:induction false} ScanFromFits(t: LineTests, lines: seq<string>, i: nat)
    ensures forall h <- ScanFrom(t, lines, i) :: i <= h.idLine && HitFits(t, lines, h)
    decreases |lines| - i
  {
    if i < |lines| {
      match t.moduleId(lines[i])
      case None => ScanFromFits(t, lines, i + 1);
      case Some(id) =>
        ScanWindowSpec(t, lines, i + 1, 0);
        match ScanWindow(t, lines, i + 1, 0)
        case Exhausted => ScanFromFits(t, lines, i + 1);
        case Ungraded(k) => ScanFromFits(t, lines, k + 1);
        case Graded(v, k) =>
          ScanFromFits(t, lines, k + 1);
          assert HitFits(t, lines, Hit(i, k, id, v));
    }
  }

  /** Hits in increasing order of their id line, each grade line before the next hit's
      id line. */
  ghost predicate Ordered(hits: seq<Hit>) {
    forall n, m :: 0 <= n < m < |hits| ==> hits[n].gradeLine < hits[m].idLine
  }

  lemma ConsOrdered(h: Hit, rest: seq<Hit>)
    requires Ordered(rest)
    requires forall r <- rest :: h.gradeLine < r.idLine
    ensures Ordered([h] + rest)
  {
    var hits := [h] + rest;
    forall n, m | 0 <= n < m < |hits| ensures hits[n].gradeLine < hits[m].idLine {
      assert hits[m] == rest[m - 1];
      if n > 0 {
        assert hits[n] == rest[n - 1];
      }
    }
  }

  /** Hits come in increasing order of their id line, and each grade line lies before
      the next hit's id line. */
  lemma {:induction false} ScanFromOrdered(t: LineTests, lines: seq<string>, i: nat)
    ensures Ordered(ScanFrom(t, lines, i))
    decreases |lines| - i
  {
    if i < |lines| {
      if t.moduleId(lines[i]).None? {
        NoIdSkips(t, lines, i);
        ScanFromOrdered(t, lines, i + 1);
      } else {
        match ScanWindow(t, lines, i + 1, 0)
        case Exhausted =>
          ExhaustedWindowRescans(t, lines, i);
          ScanFromOrdered(t, lines, i + 1);
        case Ungraded(k) =>
          UngradedConsumes(t, lines, i, k);
          ScanFromOrdered(t, lines, k + 1);
        case Graded(v, k) =>
          GradedEmits(t, lines, i, v, k);
          ScanFromOrdered(t, lines, k + 1);
          ConsOrdered(Hit(i, k, t.moduleId(lines[i]).value, v), ScanFrom(t, lines, k + 1));
      }
    }
  }

  /** The window looks at no line beyond the fifteenth after the id: two line sequences
      that agree there (and on whether they end there) give the same window result. */
  lemma {:induction false} ScanWindowLocal(t: LineTests, lines: seq<string>, other: seq<string>, start: nat, j: nat)
    requires j <= WindowSize
    requires Min(|lines|, start + WindowSize) == Min(|other|, start + WindowSize)
    requires forall k :: start <= k < Min(|lines|, start + WindowSize) ==> lines[k] == other[k]
    ensures ScanWindow(t, lines, start, j) == ScanWindow(t, other, start, j)
    decreases WindowSize - j
  {
    if j < WindowSize && start + j < |lines| {
      assert lines[start + j] == other[start + j];
      ScanWindowLocal(t, lines, other, start, j + 1);
    }
  }

  /** What a hit reads: the id is the id found on its line, and the grade, in range,
      is the numeral found on its grade line, which lies after the id line. */
  lemma HitsRead(t: LineTests, lines: seq<string>)
    ensures forall h <- ScanFrom(t, lines, 0) ::
              && h.idLine < h.gradeLine < |lines|
              && t.moduleId(lines[h.idLine]) == Some(h.moduleId)
              && t.decimal(lines[h.gradeLine]) == Some(h.tenths) && InGradeRange(h.tenths)
  {
    ScanFromFits(t, lines, 0);
  }

  /** Every grade emitted is one of "1.0", ..., "5.0". */
  lemma CoursesGraded(t: LineTests, lines: seq<string>)
    ensures forall c <- Courses(ScanFrom(t, lines, 0)) :: IsGradeString(c.grade)
  {
    var hits := ScanFrom(t, lines, 0);
    HitsRead(t, lines);
    forall c <- Courses(hits) ensures IsGradeString(c.grade) {
      var n :| 0 <= n < |hits| && c == CourseOf(hits[n]);
      assert hits[n] in hits;
      GradeStrings(hits[n].tenths);
    }
  }

  /** The id the handler reads off a line is the leftmost-longest module id of the
      stripped line. */
  lemma IdOfIsFirst(line: string, id: string)
    requires IdOf(line) == Some(id)
    ensures exists p: nat :: IsFirstModuleId(Strip(line), p, id)
  {
    FindModuleIdSpec(Strip(line));
  }

  /** A grade in range that the handler reads off a line renders as one of "1.0", ...,
      "5.0", which reads back as the first comma-decimal numeral of the stripped line. */
  lemma DecimalOfRenders(line: string, v: nat)
    requires DecimalOf(line) == Some(v) && InGradeRange(v)
    ensures IsGradeString(FormatTenths(v))
    ensures Some(Tenths(FormatTenths(v))) == FindDecimal(Strip(line))
  {
    GradeStrings(v);
    FormatTenthsRoundTrip(v);
  }

  /** Every course the handler emits carries the leftmost-longest module id of its id
      line and one of the grades "1.0", ..., "5.0", which reads back as the first
      comma-decimal numeral of its grade line, a later line. */
  lemma CourseFields(lines: seq<string>)
    ensures forall h <- ScanFrom(Handler, lines, 0) ::
              && h.idLine < h.gradeLine < |lines|
              && (exists p: nat :: IsFirstModuleId(Strip(lines[h.idLine]), p, CourseOf(h).moduleId))
              && IsGradeString(CourseOf(h).grade)
              && Some(Tenths(CourseOf(h).grade)) == FindDecimal(Strip(lines[h.gradeLine]))
  {
    HitsRead(Handler, lines);
    forall h <- ScanFrom(Handler, lines, 0)
      ensures && h.idLine < h.gradeLine < |lines|
              && (exists p: nat :: IsFirstModuleId(Strip(lines[h.idLine]), p, CourseOf(h).moduleId))
              && IsGradeString(CourseOf(h).grade)
              && Some(Tenths(CourseOf(h).grade)) == FindDecimal(Strip(lines[h.gradeLine]))
    {
      IdOfIsFirst(lines[h.idLine], CourseOf(h).moduleId);
      DecimalOfRenders(lines[h.gradeLine], h.tenths);
    }
  }
}
