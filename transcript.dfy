/** The extraction core of the upload handler (api/parse-transcript.py:55-98; the
    same code is api/parser.py:42-85): the page texts are joined into one text, the
    text is normalised and cut into lines, the lines are scanned for courses, and the
    normalised text is searched for the total credits and the GPA. */
module Transcript {
  import opened Text
  import opened Tokenizer
  import opened Patterns
  import opened Scanner
  import opened Summary

  /** `{'gpa': gpa, 'total_credits': total_credits, 'courses': courses}`, the GPA in
      tenths. */
  datatype Record = Record(gpa: Option<nat>, totalCredits: Option<nat>, courses: seq<Course>)

  /** `page.extract_text() or ''`: a page without a text layer contributes nothing. */
  function PageText(page: Option<string>): (r: string)
    ensures page.Some? ==> r == page.value
    ensures page.None? ==> Tokenize(r) == []
  {
    if page.Some? then page.value
    else
      assert SplitLines(Collapse("")) == [""];
      ""
  }

  /** `all_text` after the page loop: each page's text followed by a line feed. */
  function PagesText(pages: seq<Option<string>>): (r: string)
    ensures pages == [] <==> r == []
    ensures r != [] ==> r[|r| - 1] == '\n'
  {
    if pages == [] then "" else PagesText(pages[..|pages| - 1]) + PageText(pages[|pages| - 1]) + "\n"
  }

  /** The page loop, `all_text += page_text + '\n'`. */
  method ConcatPages(pages: seq<Option<string>>) returns (allText: string)
    ensures allText == PagesText(pages)
  {
    allText := "";
    for k := 0 to |pages|
      invariant allText == PagesText(pages[..k])
    {
      assert pages[..k + 1][..k] == pages[..k];
      allText := allText + PageText(pages[k]) + "\n";
    }
    assert pages[..|pages|] == pages;
  }

  /** The lines of each page, page after page. */
  function PagesLines(pages: seq<Option<string>>): (lines: seq<string>)
  {
    if pages == [] then [] else PagesLines(pages[..|pages| - 1]) + Tokenize(PageText(pages[|pages| - 1]))
  }

  /** A trailing line feed adds no line. */
  lemma TokenizeLineEnd(text: string)
    ensures Tokenize(text + "\n") == Tokenize(text)
  {
    TokenizeConcat(text, "");
    assert text + "\n" + "" == text + "\n";
    assert Tokenize("") == [] by {
      assert SplitLines(Collapse("")) == [""];
    }
  }

  lemma LastLineSplit(x: string, page: string)
    requires x != [] && x[|x| - 1] == '\n'
    ensures x == x[..|x| - 1] + "\n"
    ensures x + page + "\n" == x[..|x| - 1] + "\n" + (page + "\n")
  {
    assert x == x[..|x| - 1] + "\n";
  }

  /** Appending one more page after a text that ends at a line boundary appends that
      page's lines. */
  lemma TokenizeAppendPage(x: string, page: string)
    requires x == [] || x[|x| - 1] == '\n'
    ensures Tokenize(x + page + "\n") == Tokenize(x) + Tokenize(page)
  {
    TokenizeLineEnd(page);
    if x == [] {
      assert x + page + "\n" == page + "\n";
    } else {
      var before := x[..|x| - 1];
      LastLineSplit(x, page);
      TokenizeConcat(before, page + "\n");
      TokenizeLineEnd(before);
    }
  }

  /** No line spans two pages: the lines of the joined text are the lines of each page
      in turn. */
  lemma {:induction false} PagesTextLines(pages: seq<Option<string>>)
    ensures Tokenize(PagesText(pages)) == PagesLines(pages)
  {
    if pages != [] {
      var init := pages[..|pages| - 1];
      var last := PageText(pages[|pages| - 1]);
      PagesTextLines(init);
      TokenizeAppendPage(PagesText(init), last);
      assert PagesText(pages) == PagesText(init) + last + "\n";
      assert PagesLines(pages) == PagesLines(init) + Tokenize(last);
    }
  }

  /** The record the handler builds from the joined page text: courses from the lines of
      the normalised text, credits and GPA from the first matches in the normalised
      text itself. */
  function Extract(allText: string): (r: Record)
    ensures 2 * |r.courses| <= |Tokenize(allText)|
    ensures forall c <- r.courses :: IsGradeString(c.grade)
    ensures r.totalCredits == None <==> !CreditsOccur(Collapse(allText))
    ensures r.totalCredits.Some? ==>
              exists p: nat, q: nat, e: nat :: IsFirstCredits(Collapse(allText), p, q, e) && r.totalCredits.value == DigitsValue(Collapse(allText)[q..e])
    ensures (forall p: nat :: !GpaMarkerAt(Collapse(allText), p)) ==> r.gpa == None
    ensures r.gpa == None <==> !GpaOccurs(Collapse(allText))
    ensures r.gpa.Some? ==>
              exists p: nat, q: nat, n: nat :: IsFirstGpa(Collapse(allText), p, q, n) && r.gpa.value == Tenths(Collapse(allText)[q..q + n])
  {
    var text := Collapse(allText);
    var lines := Tokenize(allText);
    var hits := ScanFrom(Handler, lines, 0);
    CoursesGraded(Handler, lines);
    TotalCreditsSpec(text);
    GpaSpec(text);
    Record(Gpa(text), TotalCredits(text), Courses(hits))
  }

  /** The handler's extraction, from the page texts to the record. */
  method ParseText(pages: seq<Option<string>>) returns (result: Record)
    ensures result == Extract(PagesText(pages))
  {
    var courses: seq<Course> := [];
    var totalCredits: Option<nat> := None;
    var gpa: Option<nat> := None;
    var allText := ConcatPages(pages);
    allText := Collapse(allText);
    var lines := CleanLines(SplitLines(allText));
    courses := Scan(Handler, lines);
    var credits := TotalCredits(allText);
    if credits.Some? {
      totalCredits := credits;
    }
    var grade := Gpa(allText);
    if grade.Some? {
      gpa := grade;
    }
    result := Record(gpa, totalCredits, courses);
  }
}
