# Transcript text extraction

A model of the part of the transcript upload handler that turns the text of a
transcript PDF into a record `{gpa, total_credits, courses}`. The code lives in
`api/parse-transcript.py:55-98`. `api/parser.py:42-85` holds the same code 13 lines
earlier. The extraction has four parts:

- **Page text.** The text of each page is followed by a line feed, and a page without a
  text layer counts as empty.
- **Tokenizer.** Every run of spaces and tabs becomes one space. The text is cut at
  line feeds, each piece is stripped, and empty pieces are dropped.
- **Module scanner.** A cursor walks over the lines. On a line holding a module id
  (`[A-Z]{2,4}\d{4,7}(?:_[A-Z])?`), it looks at up to fifteen following lines:
  - a line with the ungraded marker (`[A-Za-z]+\s+[&A-Za-z]+\s+BE`) consumes the module
    without a record;
  - otherwise the first `\d+,\d` numeral of a line, when it lies in [1.0, 5.0], gives the
    grade of a course record;
  - an out-of-range numeral does not end the window;
  - when the window ends without either, the id yields nothing and the scan resumes on
    the line after the id.
- **Summary.** Two searches over the normalised text, ignoring case:
  - the total credits, the digits after `Gesamtcredits` or `Total Credits`;
  - the GPA, the first comma-decimal numeral after `Zwischennote`.

The files:

| file | contents |
|---|---|
| `text.dfy` | character classes, runs of characters, decimal digits |
| `tokenizer.dfy` | tokenizer |
| `patterns.dfy` | the three line patterns and grade rendering |
| `scanner.dfy` | module scanner |
| `summary.dfy` | credits and GPA searches |
| `transcript.dfy` | page concatenation and the assembly of the record |

How the model is built:

- **Patterns.** Each regular expression appears twice.
  - A function performs the search the way Python's backtracking matcher does.
  - A ghost predicate states the language the pattern denotes.
  - Lemmas prove that the search finds exactly the leftmost match, and that it reads
    the group the matcher captures.
- **Scanner.** The loop is an imperative method, `Scanner.Scan`. It is proved equal to
  a recursive specification, `Scanner.ScanFrom`, and the properties of the scan are
  proved about that specification.
- **Searches as a parameter.** The scanner takes the three searches it makes on a line
  as a parameter (`Scanner.LineTests`). `Scanner.Handler` is the searches the handler
  actually makes, and the assembly uses it.
- **Numbers.** Grades and the GPA are counted in tenths, so 2.3 is 23 and the range
  check `1.0 <= grade <= 5.0` is `10 <= v <= 50`.

A line such as "Seminar & Project BE" is not an ungraded marker. The pattern itself
rejects it: the word two places before `BE` must match `[A-Za-z]+`, and here it is `&`.
The scanner then goes on looking in the same window. It emits a record for the id only
when a grade in range stands on a window line before any ungraded marker; a later
marker line ends the window, and a grade after it is not read, so the id then yields
nothing. The order of the checks in the window matters on a line that holds both a
marker and a numeral too: the marker wins.

## Model

| member | source | states |
|---|---|---|
| Text.NatToStringRoundTrip | api/parse-transcript.py:85 | the decimal rendering of a number reads back as that number |
| Text.NatToString | api/parse-transcript.py:85 | `str(n)`: at least one character, decimal digits only, and no leading zero |
| Tokenizer.Collapse | api/parse-transcript.py:63 | the result has no tab and no two adjacent spaces, is empty exactly when the input is, and starts with a space exactly where the input starts with a blank |
| Tokenizer.CollapseFixpoint | api/parse-transcript.py:63 | collapsing leaves a text unchanged exactly when it already has no tab and no double space |
| Tokenizer.CollapseKeepsText | api/parse-transcript.py:63 | collapsing keeps every character other than spaces and tabs, in order |
| Tokenizer.CollapseConcat | api/parse-transcript.py:63 | a line feed separates runs of blanks: two texts joined by a line feed collapse separately |
| Tokenizer.CollapseSplice | api/parse-transcript.py:63 | a run of spaces and tabs between two non-blank characters collapses to exactly one space, and the text on each side collapses on its own |
| Tokenizer.SplitLines | api/parse-transcript.py:64 | `split('\n')` gives at least one piece; no piece holds a line feed; the first piece is a prefix of the text |
| Tokenizer.SplitLinesCollapsed | api/parse-transcript.py:63-64 | the pieces of a text without tabs or double spaces have none either |
| Tokenizer.JoinSplit | api/parse-transcript.py:64 | joining the pieces with line feeds gives back the text |
| Tokenizer.SplitJoin | api/parse-transcript.py:64 | splitting a join of line-feed-free lines gives back those lines |
| Tokenizer.SplitAppend | api/parse-transcript.py:64 | a text without a line feed extends the first piece of what follows it |
| Tokenizer.SplitConcat | api/parse-transcript.py:64 | splitting two texts joined by a line feed gives the pieces of each in turn |
| Tokenizer.StripRight | api/parse-transcript.py:64 | the result is a prefix of the input, does not end with whitespace, and only whitespace was removed |
| Tokenizer.Strip | api/parse-transcript.py:64 | `str.strip()`: the result neither starts nor ends with whitespace; it equals its input exactly when the input has no surrounding whitespace; it is the input with its leading and trailing whitespace runs removed |
| Tokenizer.StripBlock | api/parse-transcript.py:64 | the stripped text is the block of the input after its leading whitespace, with only whitespace after it |
| Tokenizer.StripNothing | api/parse-transcript.py:64 | a text without whitespace at either end is left as it is |
| Tokenizer.StripKeepsClean | api/parse-transcript.py:64 | stripping keeps a text free of tabs, double spaces and line feeds |
| Tokenizer.CleanLines | api/parse-transcript.py:64 | dropping empty stripped pieces gives no more lines than pieces |
| Tokenizer.CleanLinesSpec | api/parse-transcript.py:64 | the kept lines are exactly the pieces that strip to something, each stripped, in their order: an increasing index map names, for each line, the piece it comes from, and names every piece that strips to something |
| Tokenizer.CleanLinesClean | api/parse-transcript.py:64 | from pieces without line feeds, tabs or double spaces, every kept line is non-empty, has no surrounding whitespace and keeps those properties |
| Tokenizer.Tokenize | api/parse-transcript.py:63-64 | every line is non-empty, has no surrounding whitespace, and holds no line feed, no tab and no two adjacent spaces |
| Tokenizer.CleanLinesFixpoint | api/parse-transcript.py:64 | cleaning lines that are already clean changes nothing |
| Tokenizer.CleanLinesConcat | api/parse-transcript.py:64 | cleaning distributes over concatenation |
| Tokenizer.JoinCollapsed | api/parse-transcript.py:63-64 | joining collapsed lines with line feeds gives a collapsed text |
| Tokenizer.TokenizeIdempotent | api/parse-transcript.py:63-64 | tokenizing the line-feed join of the tokenizer's output gives that output again |
| Tokenizer.TokenizeConcat | api/parse-transcript.py:63-64 | the lines of two texts joined by a line feed are the lines of each in turn |
| Tokenizer.TokenizeSpec | api/parse-transcript.py:63-64 | the lines of a text are the pieces of its collapsed form, split at line feeds, that strip to something, each stripped, in order |
| Patterns.IdMatchAt | api/parse-transcript.py:68 | a match of the id pattern tried at a position stays inside the line |
| Patterns.IdShapeForcesMatch | api/parse-transcript.py:68 | wherever a word of the id language starts, the matcher matches, at least as long |
| Patterns.IdMatchAtSpec | api/parse-transcript.py:68 | the match tried at a position is a word of the id language and the longest one starting there |
| Patterns.FindIdFrom | api/parse-transcript.py:68 | the search finds a position where the pattern matches, and no match starts before it |
| Patterns.FindModuleIdSpec | api/parse-transcript.py:68-70 | no id is found exactly when no substring is in the id language; otherwise the id is the leftmost, then longest, such substring |
| Patterns.FindModuleId | api/parse-transcript.py:68-70 | the id found is a word of the id language, 6 to 13 characters long |
| Patterns.FindModuleIdAround | api/parse-transcript.py:67-68 | whitespace around a line does not change the id found in it |
| Patterns.DecimalAt | api/parse-transcript.py:79 | a `\d+,\d` match tried at a position stays inside the line |
| Patterns.DecimalAtSpec | api/parse-transcript.py:79 | the match tried at a position is a `\d+,\d` token, and it is the only token starting there |
| Patterns.FindDecimalFrom | api/parse-transcript.py:79 | the search finds a position where a token matches, and no token starts before it |
| Patterns.FindDecimalSpec | api/parse-transcript.py:79-83 | no numeral is found exactly when no substring is a `\d+,\d` token; otherwise the value, in tenths, is that of the leftmost token |
| Patterns.FindDecimal | api/parse-transcript.py:79-83 | a numeral is found exactly when a digit, a comma and a digit occur together somewhere in the line |
| Patterns.Tenths | api/parse-transcript.py:81-83 | the value in tenths is the value of the numeral's digits read without the comma |
| Patterns.FindDecimalAround | api/parse-transcript.py:75-79 | whitespace around a line does not change the numeral found in it |
| Patterns.UngradedAtSound | api/parse-transcript.py:76 | a marker found by walking back from `BE` is a word of the pattern's language |
| Patterns.UngradedAtComplete | api/parse-transcript.py:76 | every word of the language ending in `BE` at a position is found there |
| Patterns.UngradedAtSpec | api/parse-transcript.py:76 | the marker test at a position holds exactly when a word of the language has its `BE` there |
| Patterns.UngradedFromSpec | api/parse-transcript.py:76 | the search from a position succeeds exactly when some word of the language has its `BE` at or after that position |
| Patterns.IsUngraded | api/parse-transcript.py:76 | the marker test holds exactly when some substring of the line is in the pattern's language |
| Patterns.UngradedAround | api/parse-transcript.py:75-76 | whitespace around a line does not change whether it holds the marker |
| Patterns.UngradedAppend | api/parse-transcript.py:76 | the search is not anchored at the end: text appended after a marker keeps the line a marker |
| Patterns.FormatTenths | api/parse-transcript.py:85 | `f"{grade:.1f}"`: digits without a leading zero, a point, and one digit |
| Patterns.FormatTenthsRoundTrip | api/parse-transcript.py:83-85 | the one-decimal rendering of a grade reads back as the same value |
| Patterns.GradeStrings | api/parse-transcript.py:84-85 | a value in [1.0, 5.0] renders as one of "1.0" … "5.0", and each of those strings is the rendering of its own value in range |
| Patterns.IdFiveLetters | api/parse-transcript.py:68 | in "ABCDE1234" the id found is "BCDE1234" |
| Patterns.IdLongDigits | api/parse-transcript.py:68 | in "INF12345678_X" the id found is "INF1234567" |
| Patterns.IdSuffix | api/parse-transcript.py:68 | in "MA1234_B Analysis" the id found is "MA1234_B" |
| Patterns.DecimalWholeRun | api/parse-transcript.py:79-83 | "12,3" reads as 12.3, not 2.3 |
| Patterns.DecimalOneTenth | api/parse-transcript.py:79-83 | "2,30" reads as 2.3 and "1,2,3" as 1.2 |
| Patterns.DecimalLeadingZero | api/parse-transcript.py:79-85 | "02,3" reads as 2.3 and renders as "2.3" |
| Patterns.UngradedTwoWords | api/parse-transcript.py:76 | "Project Seminar BE" is an ungraded marker |
| Patterns.UngradedBeforeAnything | api/parse-transcript.py:76 | "Project Seminar BEST" is an ungraded marker |
| Patterns.UngradedAmpersand | api/parse-transcript.py:76 | "Seminar & BE" is an ungraded marker |
| Patterns.NotUngradedAmpersandFirst | api/parse-transcript.py:76 | "Seminar & Project BE" is not an ungraded marker |
| Scanner.ScanWindow | api/parse-transcript.py:72-89 | the window ends on a line at offset 1 to 15 after the id and before the end of the lines, or runs out |
| Scanner.ScanWindowSpec | api/parse-transcript.py:72-89 | the window ends on its first line that holds the marker or a grade in range; the marker wins over a numeral on the same line; an out-of-range numeral does not end it |
| Scanner.ScanWindowLocal | api/parse-transcript.py:72-75 | no line beyond the fifteenth after the id is looked at |
| Scanner.IdOf | api/parse-transcript.py:67-68 | the id search on the stripped line finds what it finds on the line itself |
| Scanner.UngradedOf | api/parse-transcript.py:75-76 | the marker test on the stripped line agrees with the test on the line itself |
| Scanner.DecimalOf | api/parse-transcript.py:75-79 | the numeral search on the stripped line finds what it finds on the line itself |
| Scanner.ScanFrom | api/parse-transcript.py:65-91 | every hit lies at or after the cursor, its grade line after its id line; each hit uses two lines of its own, so there are at most half as many hits as lines remain |
| Scanner.ExhaustedWindowRescans | api/parse-transcript.py:66-75 | when the window runs out, the id yields nothing and the scan resumes on the line after the id; no line of the window ends it |
| Scanner.UngradedConsumes | api/parse-transcript.py:76-78 | a marker in the window consumes the id with no record, and the scan resumes after the marker's line |
| Scanner.GradedEmits | api/parse-transcript.py:79-87 | a grade in range in the window emits one record, and the scan resumes after the grade's line |
| Scanner.SearchWindow | api/parse-transcript.py:72-89 | the inner loop ends the window exactly as the window specification does: on the first marker, on the first grade in range, or not at all |
| Scanner.NoIdSkips | api/parse-transcript.py:90-91 | a line without a module id is passed over |
| Scanner.Scan | api/parse-transcript.py:65-91 | the loop's records are exactly those of the recursive scan from the first line |
| Scanner.ScanFromFits | api/parse-transcript.py:68-89 | each hit's id is found on its id line; its grade line is 1 to 15 lines after it and holds no marker; the grade is that line's first numeral and in range; no line in between ends the window |
| Scanner.ScanFromOrdered | api/parse-transcript.py:71-86 | hits come in increasing order of their id line, and each grade line lies before the next hit's id line |
| Scanner.HitsRead | api/parse-transcript.py:68-84 | every hit's id is the one found on its id line, and its grade is the in-range first numeral of its grade line |
| Scanner.CoursesGraded | api/parse-transcript.py:84-85 | every emitted grade string is one of "1.0" … "5.0" |
| Scanner.IdOfIsFirst | api/parse-transcript.py:67-70 | the id the handler reads off a line is the leftmost-longest module id of the stripped line |
| Scanner.DecimalOfRenders | api/parse-transcript.py:79-85 | a grade in range read off a line renders as a grade string that reads back as that line's first numeral |
| Scanner.CourseFields | api/parse-transcript.py:65-91 | every record carries the leftmost-longest id of an earlier line and the rendering of the first numeral of a later line |
| Summary.CreditsAtSpec | api/parse-transcript.py:92 | the credits pattern at a position fails exactly when it has no match there, and otherwise reads the digits the matcher captures |
| Summary.CreditsAt | api/parse-transcript.py:92 | the credits pattern can match at a position only where a marker starts and a character follows it |
| Summary.FindCreditsFrom | api/parse-transcript.py:92 | the search finds a position where the credits pattern matches, and none before it |
| Summary.TotalCreditsSpec | api/parse-transcript.py:92-94 | the credits are absent exactly when the pattern matches nowhere; otherwise they are the value of the digits of the leftmost match |
| Summary.TotalCredits | api/parse-transcript.py:92-94 | without a `Gesamtcredits` or `Total Credits` marker there are no credits |
| Summary.FindGpaFrom | api/parse-transcript.py:95 | the search finds a position where the GPA pattern matches, and none before it |
| Summary.GpaAt | api/parse-transcript.py:95 | the GPA pattern can match at a position only where a marker starts and at least three characters follow it |
| Summary.GpaAtSpec | api/parse-transcript.py:95 | the GPA pattern at a position fails exactly when no marker-gap-numeral match starts there, and otherwise reads the numeral the lazy gap stops at: the first one after the marker, with its whole digit run |
| Summary.NoDecimalInSuffix | api/parse-transcript.py:95 | a text without a numeral has none in any suffix |
| Summary.Gpa | api/parse-transcript.py:95-97 | without a `Zwischennote` marker there is no GPA |
| Summary.GpaSpec | api/parse-transcript.py:95-97 | the GPA is absent exactly when the pattern matches nowhere; otherwise it is the value of the numeral the leftmost match captures |
| Summary.GpaAfterFirstMarker | api/parse-transcript.py:95-97 | the GPA is the first numeral after the first marker, and absent exactly when no numeral follows that marker |
| Transcript.PageText | api/parse-transcript.py:61 | a page with a text layer contributes that text, and a page without one contributes no line |
| Transcript.PagesText | api/parse-transcript.py:58-62 | the joined text is empty exactly when there are no pages, and otherwise ends with a line feed |
| Transcript.ConcatPages | api/parse-transcript.py:58-62 | the page loop builds the joined page text |
| Transcript.TokenizeLineEnd | api/parse-transcript.py:62-64 | a trailing line feed adds no line |
| Transcript.TokenizeAppendPage | api/parse-transcript.py:62-64 | one more page appends that page's lines |
| Transcript.PagesTextLines | api/parse-transcript.py:59-64 | no line spans two pages: the lines of the joined text are the lines of each page in turn |
| Transcript.Extract | api/parse-transcript.py:63-98 | at most half as many records as lines; every grade is one of "1.0" … "5.0"; the credits and the GPA are absent exactly when their pattern occurs nowhere in the normalised text, and otherwise are the values the leftmost match captures |
| Transcript.ParseText | api/parse-transcript.py:55-98 | the handler's steps, from the page texts, build the record of the joined page text |

## Left out

- HTTP routing, the upload form, CORS headers, status codes and JSON serialisation are transport only.
- Multipart and base64 decoding of the upload, and the missing-PDF response, are left out. They are foreign library calls.
- PDF text extraction is foreign code. Each page's text is an input, `None` standing for a page without a text layer.
- The `except Exception` error response (api/parse-transcript.py:107-112) is left out. The only exception the modelled code can raise is the one below.
- Summary.TotalCredits: returns the credits for a digit run of any length. Python's `int()` at api/parse-transcript.py:94 refuses a string of more than 4300 digits (its default limit on integer string conversion) with a `ValueError`, and the handler then answers with status 500 instead of a record.
- The `ValueError` branch of the grade conversion is not modelled. A `\d+,\d` token with its comma replaced by a point always converts, so the branch is dead.
- Grades and the GPA are integer tenths rather than floats. Rounding of numerals too long for a double is not modelled.
- `\d`, `\s` and `str.strip()` are modelled on ASCII only. Other Unicode digits and separators are not.
- The case folding of `re.IGNORECASE` is modelled on ASCII only. Non-ASCII characters that fold to ASCII letters are not.
