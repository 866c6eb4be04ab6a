/** The three regular expressions the scanner applies to a line, the conversion of a
    comma-decimal numeral, and the one-decimal rendering of a grade
    (api/parse-transcript.py:68, 76, 79-85; api/parser.py:55, 63, 66-72).

    Each pattern is given twice: as the search that Python's backtracking matcher
    performs (a function), and as the language the pattern denotes (a ghost
    predicate); the lemmas connect the two. */
module Patterns {
  import opened Text

  // ----- Module id: [A-Z]{2,4}\d{4,7}(?:_[A-Z])?

  /** `t` is in the module-id language, split as `a` uppercase letters, `b - a` digits,
      then nothing or `_` and one uppercase letter. */
  ghost predicate IdShape(t: string, a: nat, b: nat) {
    && 2 <= a <= 4 && a + 4 <= b <= a + 7 && b <= |t|
    && (forall k :: 0 <= k < a ==> IsUpper(t[k]))
    && (forall k :: a <= k < b ==> IsDigit(t[k]))
    && (b == |t| || (b + 2 == |t| && t[b] == '_' && IsUpper(t[b + 1])))
  }

  ghost predicate IsModuleId(t: string) {
    exists a: nat, b: nat :: IdShape(t, a, b)
  }

  /** Length of the match the matcher finds when it tries the module-id pattern at
      index p. With five or more uppercase letters from p, every way of taking two to
      four of them leaves a letter where `\d` must match, so there is none; the digits
      are greedy up to seven and the optional suffix is taken when present. */
  function IdMatchAt(s: string, p: nat): (n: Option<nat>)
    requires p <= |s|
    ensures n.Some? ==> p + n.value <= |s|
  {
    var u := Run(s, p, IsUpper);
    if u < 2 || u > 4 then None
    else
      var d := Run(s, p + u, IsDigit);
      if d < 4 then None
      else
        var e := p + u + Min(d, 7);
        if e + 1 < |s| && s[e] == '_' && IsUpper(s[e + 1]) then Some(e + 2 - p) else Some(e - p)
  }

  /** Any word of the language starting at p makes the matcher succeed at p, with a
      match at least as long. */
  lemma IdShapeForcesMatch(s: string, p: nat, r: nat, a: nat, b: nat)
    requires p <= r <= |s| && IdShape(s[p..r], a, b)
    ensures IdMatchAt(s, p).Some? && r - p <= IdMatchAt(s, p).value
  {
    var t := s[p..r];
    var m := r - p;
    forall k | p <= k < p + a ensures IsUpper(s[k]) {
      assert s[k] == t[k - p];
    }
    forall k | p + a <= k < p + b ensures IsDigit(s[k]) {
      assert s[k] == t[k - p];
    }
    RunIs(s, p, IsUpper, a);
    RunAtLeast(s, p + a, IsDigit, b - a);
    if m == b + 2 {
      assert s[p + b] == t[b] && s[p + b + 1] == t[b + 1];
      RunIs(s, p + a, IsDigit, b - a);
    }
  }

  /** What the matcher finds at p is a word of the language, and the longest one there;
      when it finds nothing, no word of the language starts at p. */
  lemma IdMatchAtSpec(s: string, p: nat)
    requires p <= |s|
    ensures IdMatchAt(s, p).Some? ==> IsModuleId(s[p..p + IdMatchAt(s, p).value])
    ensures forall r: nat :: p <= r <= |s| && IsModuleId(s[p..r])
              ==> IdMatchAt(s, p).Some? && r - p <= IdMatchAt(s, p).value
  {
    forall r: nat | p <= r <= |s| && IsModuleId(s[p..r])
      ensures IdMatchAt(s, p).Some? && r - p <= IdMatchAt(s, p).value
    {
      var a: nat, b: nat :| IdShape(s[p..r], a, b);
      IdShapeForcesMatch(s, p, r, a, b);
    }
    var r := IdMatchAt(s, p);
    if r.Some? {
      var u := Run(s, p, IsUpper);
      var d := Run(s, p + u, IsDigit);
      var b := u + Min(d, 7);
      var t := s[p..p + r.value];
      forall k | 0 <= k < b ensures if k < u then IsUpper(t[k]) else IsDigit(t[k]) {
        assert t[k] == s[p + k];
      }
      assert IdShape(t, u, b);
    }
  }

  /** Leftmost index from p on where the matcher succeeds. */
  function FindIdFrom(s: string, p: nat): (q: Option<nat>)
    requires p <= |s|
    ensures q.Some? ==> p <= q.value <= |s| && IdMatchAt(s, q.value).Some?
    ensures forall k :: p <= k <= |s| && (q.None? || k < q.value) ==> IdMatchAt(s, k).None?
    decreases |s| - p
  {
    if IdMatchAt(s, p).Some? then Some(p)
    else if p == |s| then None
    else FindIdFrom(s, p + 1)
  }

  /** `re.search(r'[A-Z]{2,4}\d{4,7}(?:_[A-Z])?', line)`, and its `group(0)`. */
  function FindModuleId(line: string): (id: Option<string>)
    ensures id.Some? ==> IsModuleId(id.value) && 6 <= |id.value| <= 13
  {
    match FindIdFrom(line, 0)
    case None => None
    case Some(p) =>
      IdMatchAtSpec(line, p);
      Some(line[p..p + IdMatchAt(line, p).value])
  }

  /** `id` is the leftmost-longest occurrence of the module-id language in `s`,
      starting at index p. */
  ghost predicate IsFirstModuleId(s: string, p: nat, id: string) {
    && p + |id| <= |s| && s[p..p + |id|] == id && IsModuleId(id)
    && forall q: nat, r: nat :: q <= r <= |s| && IsModuleId(s[q..r]) ==> p < q || (p == q && r - q <= |id|)
  }

  /** The id search finds nothing exactly when no substring is a module id, and
      otherwise finds the leftmost, and there the longest, one. */
  lemma FindModuleIdSpec(line: string)
    ensures FindModuleId(line) == None <==> forall q: nat, r: nat :: q <= r <= |line| ==> !IsModuleId(line[q..r])
    ensures FindModuleId(line).Some? ==> exists p: nat :: IsFirstModuleId(line, p, FindModuleId(line).value)
  {
    var found := FindIdFrom(line, 0);
    if found.Some? {
      var p := found.value;
      var id := FindModuleId(line).value;
      IdMatchAtSpec(line, p);
      forall q: nat, r: nat | q <= r <= |line| && IsModuleId(line[q..r])
        ensures p < q || (p == q && r - q <= |id|)
      {
        IdMatchAtSpec(line, q);
      }
      assert IsFirstModuleId(line, p, id);
    } else {
      forall q: nat, r: nat | q <= r <= |line| ensures !IsModuleId(line[q..r]) {
        IdMatchAtSpec(line, q);
      }
    }
  }

  // ----- Comma-decimal numeral: \d+,\d

  /** `t` is in the language of `\d+,\d`. */
  ghost predicate IsDecimalToken(t: string) {
    && |t| >= 3
    && (forall k :: 0 <= k < |t| - 2 ==> IsDigit(t[k]))
    && t[|t| - 2] == ',' && IsDigit(t[|t| - 1])
  }

  /** `float(t.replace(',', '.'))` for a numeral of one decimal place, in tenths: the
      digits before the separator, then the one digit after it. */
  function Tenths(t: string): (r: nat)
    requires |t| >= 2
    ensures r == DigitsValue(t[..|t| - 2] + [t[|t| - 1]])
  {
    var whole := t[..|t| - 2];
    assert (whole + [t[|t| - 1]])[..|whole|] == whole;
    DigitsValue(whole) * 10 + DigitValue(t[|t| - 1])
  }

  /** Length of the digit run of the match of `\d+,\d` at index p, if any: `\d+` takes
      every digit from p, and giving any back leaves a digit where `,` must match. */
  function DecimalAt(s: string, p: nat): (d: Option<nat>)
    requires p <= |s|
    ensures d.Some? ==> p + d.value + 2 <= |s|
  {
    var d := Run(s, p, IsDigit);
    if d >= 1 && p + d + 1 < |s| && s[p + d] == ',' && IsDigit(s[p + d + 1]) then Some(d) else None
  }

  /** What the matcher finds at p is the one word of the language starting at p. */
  lemma DecimalAtSpec(s: string, p: nat)
    requires p <= |s|
    ensures DecimalAt(s, p).Some? ==> IsDecimalToken(s[p..p + DecimalAt(s, p).value + 2])
    ensures forall r: nat :: p <= r <= |s| && IsDecimalToken(s[p..r]) ==> DecimalAt(s, p) == Some(r - p - 2)
  {
    forall r: nat | p <= r <= |s| && IsDecimalToken(s[p..r])
      ensures DecimalAt(s, p) == Some(r - p - 2)
    {
      var t := s[p..r];
      var m := r - p;
      forall k | p <= k < p + m - 2 ensures IsDigit(s[k]) {
        assert s[k] == t[k - p];
      }
      assert s[p + m - 2] == t[m - 2] && s[p + m - 1] == t[m - 1];
      RunIs(s, p, IsDigit, m - 2);
    }
    var r := DecimalAt(s, p);
    if r.Some? {
      var t := s[p..p + r.value + 2];
      forall k | 0 <= k < r.value ensures IsDigit(t[k]) {
        assert t[k] == s[p + k];
      }
    }
  }

  /** Leftmost index from p on where `\d+,\d` matches. */
  function FindDecimalFrom(s: string, p: nat): (q: Option<nat>)
    requires p <= |s|
    ensures q.Some? ==> p <= q.value <= |s| && DecimalAt(s, q.value).Some?
    ensures forall k :: p <= k <= |s| && (q.None? || k < q.value) ==> DecimalAt(s, k).None?
    decreases |s| - p
  {
    if DecimalAt(s, p).Some? then Some(p)
    else if p == |s| then None
    else FindDecimalFrom(s, p + 1)
  }

  /** `re.search(r'\d+,\d', line)`, converted to a number in tenths. */
  function FindDecimal(line: string): (v: Option<nat>)
    ensures v.Some? <==> exists p: nat :: DigitCommaDigitAt(line, p)
  {
    CommaDecimalFound(line);
    match FindDecimalFrom(line, 0)
    case None => None
    case Some(p) =>
      var d := DecimalAt(line, p).value;
      assert DigitCommaDigitAt(line, p + d - 1);
      Some(Tenths(line[p..p + d + 2]))
  }

  /** A digit, a comma and a digit at index p: the pattern matches somewhere exactly
      when this occurs somewhere. */
  predicate DigitCommaDigitAt(s: string, p: nat) {
    p + 2 < |s| && IsDigit(s[p]) && s[p + 1] == ',' && IsDigit(s[p + 2])
  }

  /** Where a digit, a comma and a digit occur, the search finds a numeral. */
  lemma CommaDecimalFound(line: string)
    ensures (exists p: nat :: DigitCommaDigitAt(line, p)) ==> FindDecimalFrom(line, 0).Some?
  {
    forall p: nat | DigitCommaDigitAt(line, p) ensures FindDecimalFrom(line, 0).Some? {
      RunIs(line, p, IsDigit, 1);
      assert DecimalAt(line, p).Some?;
    }
  }

  /** The token at index p, of length n, is the leftmost occurrence of `\d+,\d` in `s`. */
  ghost predicate IsFirstDecimal(s: string, p: nat, n: nat) {
    && p + n <= |s| && IsDecimalToken(s[p..p + n])
    && forall q: nat, r: nat :: q <= r <= |s| && IsDecimalToken(s[q..r]) ==> p < q || (p == q && r - q == n)
  }

  /** The decimal search finds nothing exactly when no substring is a comma-decimal
      numeral, and otherwise reads the value of the leftmost one. */
  lemma FindDecimalSpec(line: string)
    ensures FindDecimal(line) == None <==> forall q: nat, r: nat :: q <= r <= |line| ==> !IsDecimalToken(line[q..r])
    ensures FindDecimal(line).Some? ==>
              exists p: nat, n: nat :: IsFirstDecimal(line, p, n) && FindDecimal(line).value == Tenths(line[p..p + n])
  {
    var found := FindDecimalFrom(line, 0);
    if found.Some? {
      var p := found.value;
      var n := DecimalAt(line, p).value + 2;
      DecimalAtSpec(line, p);
      forall q: nat, r: nat | q <= r <= |line| && IsDecimalToken(line[q..r])
        ensures p < q || (p == q && r - q == n)
      {
        DecimalAtSpec(line, q);
      }
      assert IsFirstDecimal(line, p, n);
    } else {
      forall q: nat, r: nat | q <= r <= |line| ensures !IsDecimalToken(line[q..r]) {
        DecimalAtSpec(line, q);
      }
    }
  }

  // ----- Ungraded entry: [A-Za-z]+\s+[&A-Za-z]+\s+BE

  /** `[&A-Za-z]` */
  predicate IsWordOrAmp(c: char) { IsLetter(c) || c == '&' }

  /** A match of the ungraded pattern whose `BE` starts at e, with the letters on
      [a, b), whitespace on [b, c), letters or `&` on [c, d) and whitespace on [d, e). */
  ghost predicate UngradedSegments(s: string, a: nat, b: nat, c: nat, d: nat, e: nat) {
    && a < b < c < d < e && e + 2 <= |s| && s[e] == 'B' && s[e + 1] == 'E'
    && (forall k :: a <= k < b ==> IsLetter(s[k]))
    && (forall k :: b <= k < c ==> IsSpace(s[k]))
    && (forall k :: c <= k < d ==> IsWordOrAmp(s[k]))
    && (forall k :: d <= k < e ==> IsSpace(s[k]))
  }

  ghost predicate HasUngradedAt(s: string, e: nat) {
    exists a: nat, b: nat, c: nat, d: nat :: UngradedSegments(s, a, b, c, d, e)
  }

  /** Whether the ungraded pattern matches with its `BE` at index e. Going back from e,
      the runs alternate between whitespace and non-whitespace, so each of them has to
      be the longest run ending where the next one starts. */
  predicate UngradedAt(s: string, e: nat)
    requires e <= |s|
  {
    && e + 2 <= |s| && s[e] == 'B' && s[e + 1] == 'E'
    && var w1 := RunBack(s, e, IsSpace);
       var t := RunBack(s, e - w1, IsWordOrAmp);
       var w2 := RunBack(s, e - w1 - t, IsSpace);
       w1 >= 1 && t >= 1 && w2 >= 1 && e - w1 - t - w2 >= 1 && IsLetter(s[e - w1 - t - w2 - 1])
  }

  /** A match found by going back from e is a word of the pattern's language. */
  lemma UngradedAtSound(s: string, e: nat)
    requires e <= |s| && UngradedAt(s, e)
    ensures HasUngradedAt(s, e)
  {
    var w1 := RunBack(s, e, IsSpace);
    var t := RunBack(s, e - w1, IsWordOrAmp);
    var w2 := RunBack(s, e - w1 - t, IsSpace);
    var b := e - w1 - t - w2;
    assert UngradedSegments(s, b - 1, b, e - w1 - t, e - w1, e);
  }

  /** Any word of the language with its `BE` at e is found by going back from e. */
  lemma UngradedAtComplete(s: string, a: nat, b: nat, c: nat, d: nat, e: nat)
    requires UngradedSegments(s, a, b, c, d, e)
    ensures UngradedAt(s, e)
  {
    assert !IsSpace(s[d - 1]) by { assert IsWordOrAmp(s[d - 1]); }
    RunBackIs(s, e, IsSpace, e - d);
    assert !IsWordOrAmp(s[c - 1]) by { assert IsSpace(s[c - 1]); }
    RunBackIs(s, d, IsWordOrAmp, d - c);
    assert !IsSpace(s[b - 1]) by { assert IsLetter(s[b - 1]); }
    RunBackIs(s, c, IsSpace, c - b);
  }

  lemma UngradedAtSpec(s: string, e: nat)
    requires e <= |s|
    ensures UngradedAt(s, e) <==> HasUngradedAt(s, e)
  {
    if UngradedAt(s, e) {
      UngradedAtSound(s, e);
    }
    if HasUngradedAt(s, e) {
      var a: nat, b: nat, c: nat, d: nat :| UngradedSegments(s, a, b, c, d, e);
      UngradedAtComplete(s, a, b, c, d, e);
    }
  }

  predicate UngradedFrom(s: string, e: nat)
    requires e <= |s|
    decreases |s| - e
  {
    e + 2 <= |s| && (UngradedAt(s, e) || UngradedFrom(s, e + 1))
  }

  lemma {:induction false} UngradedFromSpec(s: string, e0: nat)
    requires e0 <= |s|
    ensures UngradedFrom(s, e0) <==> exists e: nat :: e0 <= e <= |s| && HasUngradedAt(s, e)
    decreases |s| - e0
  {
    UngradedAtSpec(s, e0);
    if e0 + 2 <= |s| {
      UngradedFromSpec(s, e0 + 1);
    }
    forall e: nat | e0 <= e <= |s| && HasUngradedAt(s, e) ensures UngradedFrom(s, e0) {
      if e == e0 {
      } else {
        assert e0 + 1 <= e;
      }
    }
  }

  /** `re.search(r'[A-Za-z]+\s+[&A-Za-z]+\s+BE', line)` is truthy: exactly when some
      substring of the line is in the language of the pattern. */
  predicate IsUngraded(line: string)
    ensures IsUngraded(line) <==> exists e: nat :: e <= |line| && HasUngradedAt(line, e)
  {
    UngradedFromSpec(line, 0);
    UngradedFrom(line, 0)
  }

  /** The search is not anchored at the end: whatever follows a match leaves it a
      match. */
  lemma UngradedAppend(line: string, rest: string)
    requires IsUngraded(line)
    ensures IsUngraded(line + rest)
  {
    var e: nat :| e <= |line| && HasUngradedAt(line, e);
    var a: nat, b: nat, c: nat, d: nat :| UngradedSegments(line, a, b, c, d, e);
    assert UngradedSegments(line + rest, a, b, c, d, e);
    assert e <= |line + rest| && HasUngradedAt(line + rest, e);
  }

  // ----- Surrounding whitespace

  /** A word that neither starts nor ends with whitespace, found in a text that is
      whitespace outside `s[i..j]`, lies inside that part. */
  lemma WordInside(s: string, i: nat, j: nat, q: nat, w: string)
    requires SpacesAround(s, i, j) && q + |w| <= |s| && s[q..q + |w|] == w
    requires w != [] && !IsSpace(w[0]) && !IsSpace(w[|w| - 1])
    ensures i <= q && q + |w| <= j && s[i..j][q - i..q - i + |w|] == w
  {
    assert s[q] == w[0] && s[q + |w| - 1] == w[|w| - 1];
    SliceOfSlice(s, i, j, q - i, q - i + |w|);
  }

  /** A module id starts with a letter and ends with a letter or a digit. */
  lemma IdEnds(w: string)
    requires IsModuleId(w)
    ensures w != [] && !IsSpace(w[0]) && !IsSpace(w[|w| - 1])
  {
    var a: nat, b: nat :| IdShape(w, a, b);
    assert IsUpper(w[0]);
  }

  /** A module id in a text surrounded by whitespace lies inside the part between. */
  lemma IdInside(s: string, i: nat, j: nat, q: nat, r: nat)
    requires SpacesAround(s, i, j) && q <= r <= |s| && IsModuleId(s[q..r])
    ensures i <= q && r <= j && IsModuleId(s[i..j][q - i..r - i])
  {
    IdEnds(s[q..r]);
    WordInside(s, i, j, q, s[q..r]);
  }

  /** The leftmost-longest module id of the part between surrounding whitespace is the
      leftmost-longest one of the whole text. */
  lemma FirstIdAround(s: string, i: nat, j: nat, p: nat, id: string)
    requires SpacesAround(s, i, j) && IsFirstModuleId(s[i..j], p, id)
    ensures IsFirstModuleId(s, i + p, id)
  {
    var t := s[i..j];
    SliceOfSlice(s, i, j, p, p + |id|);
    forall q: nat, r: nat | q <= r <= |s| && IsModuleId(s[q..r]) ensures i + p < q || (i + p == q && r - q <= |id|) {
      IdInside(s, i, j, q, r);
    }
  }

  /** A text has one leftmost-longest module id. */
  lemma FirstIdUnique(s: string, p: nat, id: string, p': nat, id': string)
    requires IsFirstModuleId(s, p, id) && IsFirstModuleId(s, p', id')
    ensures id == id'
  {
    assert IsModuleId(s[p'..p' + |id'|]) && IsModuleId(s[p..p + |id|]);
  }

  /** Where a module id occurs, the search finds one. */
  lemma ModuleIdFound(line: string, q: nat, w: string)
    requires q + |w| <= |line| && line[q..q + |w|] == w && IsModuleId(w)
    ensures FindModuleId(line).Some?
  {
    FindModuleIdSpec(line);
  }

  /** The search finds the leftmost-longest module id. */
  lemma FirstModuleIdFound(line: string, p: nat, id: string)
    requires IsFirstModuleId(line, p, id)
    ensures FindModuleId(line) == Some(id)
  {
    ModuleIdFound(line, p, id);
    FindModuleIdSpec(line);
    var p': nat :| IsFirstModuleId(line, p', FindModuleId(line).value);
    FirstIdUnique(line, p, id, p', FindModuleId(line).value);
  }

  /** Where the found module id lies: at the leftmost position where one starts, and
      there the longest. */
  lemma FoundIdIsFirst(line: string) returns (p: nat)
    requires FindModuleId(line).Some?
    ensures IsFirstModuleId(line, p, FindModuleId(line).value)
  {
    FindModuleIdSpec(line);
    p :| IsFirstModuleId(line, p, FindModuleId(line).value);
  }

  lemma FoundIdAt(line: string) returns (p: nat)
    requires FindModuleId(line).Some?
    ensures p + |FindModuleId(line).value| <= |line| && line[p..p + |FindModuleId(line).value|] == FindModuleId(line).value
  {
    p := FindIdFrom(line, 0).value;
  }

  lemma IdFoundInside(s: string, i: nat, j: nat, p: nat, id: string)
    requires SpacesAround(s, i, j) && p + |id| <= |s| && s[p..p + |id|] == id && IsModuleId(id)
    ensures FindModuleId(s[i..j]).Some?
  {
    IdEnds(id);
    WordInside(s, i, j, p, id);
    var t, q: nat := s[i..j], p - i;
    assert t[q..q + |id|] == id;
    ModuleIdFound(t, q, id);
  }

  lemma IdFoundAround(s: string, i: nat, j: nat, p: nat, id: string)
    requires SpacesAround(s, i, j) && IsFirstModuleId(s[i..j], p, id)
    ensures FindModuleId(s) == Some(id)
  {
    FirstIdAround(s, i, j, p, id);
    FirstModuleIdFound(s, i + p, id);
  }

  /** Whitespace around a line does not change the module id found in it. */
  lemma FindModuleIdAround(s: string, t: string, i: nat, j: nat)
    requires SpacesAround(s, i, j) && t == s[i..j]
    ensures FindModuleId(t) == FindModuleId(s)
  {
    if FindModuleId(s).Some? {
      var p := FoundIdAt(s);
      IdFoundInside(s, i, j, p, FindModuleId(s).value);
    }
    if FindModuleId(t).Some? {
      var p := FoundIdIsFirst(t);
      IdFoundAround(s, i, j, p, FindModuleId(t).value);
    }
  }

  /** A comma-decimal numeral starts and ends with a digit. */
  lemma DecimalEnds(w: string)
    requires IsDecimalToken(w)
    ensures w != [] && !IsSpace(w[0]) && !IsSpace(w[|w| - 1])
  {
    assert IsDigit(w[0]);
  }

  /** A numeral in a text surrounded by whitespace lies inside the part between. */
  lemma DecimalInside(s: string, i: nat, j: nat, q: nat, r: nat)
    requires SpacesAround(s, i, j) && q <= r <= |s| && IsDecimalToken(s[q..r])
    ensures i <= q && r <= j && s[i..j][q - i..r - i] == s[q..r]
  {
    DecimalEnds(s[q..r]);
    WordInside(s, i, j, q, s[q..r]);
  }

  lemma FirstDecimalAround(s: string, i: nat, j: nat, p: nat, n: nat)
    requires SpacesAround(s, i, j) && IsFirstDecimal(s[i..j], p, n)
    ensures IsFirstDecimal(s, i + p, n) && s[i + p..i + p + n] == s[i..j][p..p + n]
  {
    SliceOfSlice(s, i, j, p, p + n);
    forall q: nat, r: nat | q <= r <= |s| && IsDecimalToken(s[q..r]) ensures i + p < q || (i + p == q && r - q == n) {
      DecimalInside(s, i, j, q, r);
    }
  }

  /** A text has one leftmost numeral. */
  lemma FirstDecimalUnique(s: string, p: nat, n: nat, p': nat, n': nat)
    requires IsFirstDecimal(s, p, n) && IsFirstDecimal(s, p', n')
    ensures p == p' && n == n'
  {
    assert IsDecimalToken(s[p'..p' + n']) && IsDecimalToken(s[p..p + n]);
  }

  /** Where a numeral occurs, the search finds one. */
  lemma DecimalFound(line: string, q: nat, w: string)
    requires q + |w| <= |line| && line[q..q + |w|] == w && IsDecimalToken(w)
    ensures FindDecimal(line).Some?
  {
    FindDecimalSpec(line);
  }

  /** The search reads the leftmost numeral. */
  lemma FirstDecimalFound(line: string, p: nat, n: nat)
    requires IsFirstDecimal(line, p, n)
    ensures FindDecimal(line) == Some(Tenths(line[p..p + n]))
  {
    DecimalFound(line, p, line[p..p + n]);
    FindDecimalSpec(line);
    var p': nat, n': nat :| IsFirstDecimal(line, p', n') && FindDecimal(line).value == Tenths(line[p'..p' + n']);
    FirstDecimalUnique(line, p, n, p', n');
  }

  /** Where the numeral read lies: it is the leftmost one. */
  lemma FoundDecimalIsFirst(line: string) returns (p: nat, n: nat)
    requires FindDecimal(line).Some?
    ensures IsFirstDecimal(line, p, n) && FindDecimal(line).value == Tenths(line[p..p + n])
  {
    FindDecimalSpec(line);
    p, n :| IsFirstDecimal(line, p, n) && FindDecimal(line).value == Tenths(line[p..p + n]);
  }

  lemma DecimalFoundInside(s: string, i: nat, j: nat, p: nat, w: string)
    requires SpacesAround(s, i, j) && p + |w| <= |s| && s[p..p + |w|] == w && IsDecimalToken(w)
    ensures FindDecimal(s[i..j]).Some?
  {
    DecimalEnds(w);
    WordInside(s, i, j, p, w);
    var t, q: nat := s[i..j], p - i;
    assert t[q..q + |w|] == w;
    DecimalFound(t, q, w);
  }

  lemma DecimalFoundAround(s: string, i: nat, j: nat, p: nat, n: nat)
    requires SpacesAround(s, i, j) && IsFirstDecimal(s[i..j], p, n)
    ensures FindDecimal(s) == Some(Tenths(s[i..j][p..p + n]))
  {
    FirstDecimalAround(s, i, j, p, n);
    FirstDecimalFound(s, i + p, n);
  }

  /** Whitespace around a line does not change the numeral found in it. */
  lemma FindDecimalAround(s: string, t: string, i: nat, j: nat)
    requires SpacesAround(s, i, j) && t == s[i..j]
    ensures FindDecimal(t) == FindDecimal(s)
  {
    if FindDecimal(s).Some? {
      var p, n := FoundDecimalIsFirst(s);
      DecimalFoundInside(s, i, j, p, s[p..p + n]);
    }
    if FindDecimal(t).Some? {
      var p, n := FoundDecimalIsFirst(t);
      DecimalFoundAround(s, i, j, p, n);
    }
  }

  /** Whitespace around a line does not change whether it holds the ungraded marker:
      a word of the pattern starts with a letter and ends with `E`. */
  lemma UngradedAround(s: string, t: string, i: nat, j: nat)
    requires SpacesAround(s, i, j) && t == s[i..j]
    ensures IsUngraded(t) <==> IsUngraded(s)
  {
    if IsUngraded(t) {
      var e: nat :| e <= |t| && HasUngradedAt(t, e);
      var a: nat, b: nat, c: nat, d: nat :| UngradedSegments(t, a, b, c, d, e);
      SegmentsShifted(s, i, j, a, b, c, d, e);
      assert HasUngradedAt(s, i + e);
    }
    if IsUngraded(s) {
      var e: nat :| e <= |s| && HasUngradedAt(s, e);
      var a: nat, b: nat, c: nat, d: nat :| UngradedSegments(s, a, b, c, d, e);
      SegmentsInside(s, i, j, a, b, c, d, e);
      assert HasUngradedAt(t, e - i);
    }
  }

  lemma SegmentsShifted(s: string, i: nat, j: nat, a: nat, b: nat, c: nat, d: nat, e: nat)
    requires i <= j <= |s| && UngradedSegments(s[i..j], a, b, c, d, e)
    ensures UngradedSegments(s, i + a, i + b, i + c, i + d, i + e)
  {
    var t := s[i..j];
    assert s[i + e] == t[e] && s[i + e + 1] == t[e + 1];
    forall k | i + a <= k < i + e ensures s[k] == t[k - i] { }
  }

  lemma SegmentsInside(s: string, i: nat, j: nat, a: nat, b: nat, c: nat, d: nat, e: nat)
    requires SpacesAround(s, i, j) && UngradedSegments(s, a, b, c, d, e)
    ensures i <= a && e + 2 <= j
    ensures UngradedSegments(s[i..j], a - i, b - i, c - i, d - i, e - i)
  {
    assert IsLetter(s[a]) && !IsSpace(s[a]);
    assert !IsSpace(s[e + 1]);
    var t := s[i..j];
    assert t[e - i] == s[e] && t[e + 1 - i] == s[e + 1];
    forall k | a - i <= k < e - i ensures t[k] == s[k + i] { }
  }

  // ----- Grade rendering: f"{grade:.1f}"

  /** `f"{v / 10:.1f}"` for a value given in tenths: the whole part in digits without
      a leading zero, a point, and one digit. */
  function FormatTenths(v: nat): (g: string)
    ensures |g| >= 3 && g[|g| - 2] == '.' && IsDigit(g[|g| - 1])
    ensures forall k :: 0 <= k < |g| - 2 ==> IsDigit(g[k])
    ensures g[0] == '0' ==> |g| == 3
  {
    NatToString(v / 10) + "." + [DigitChar(v % 10)]
  }

  /** Rendering loses nothing: reading the rendering back gives the value. */
  lemma FormatTenthsRoundTrip(v: nat)
    ensures |FormatTenths(v)| >= 3
    ensures Tenths(FormatTenths(v)) == v
  {
    var g := FormatTenths(v);
    assert g[..|g| - 2] == NatToString(v / 10);
    NatToStringRoundTrip(v / 10);
  }

  /** One of the strings "1.0", "1.1", ..., "4.9", "5.0". */
  predicate IsGradeString(g: string) {
    |g| == 3 && '1' <= g[0] <= '5' && g[1] == '.' && IsDigit(g[2]) && (g[0] == '5' ==> g[2] == '0')
  }

  /** The renderings of the values in [1.0, 5.0] are exactly the grade strings. */
  lemma GradeStrings(v: nat)
    ensures 10 <= v <= 50 ==> IsGradeString(FormatTenths(v))
    ensures forall g :: IsGradeString(g) ==> 10 <= Tenths(g) <= 50 && FormatTenths(Tenths(g)) == g
  {
    forall g | IsGradeString(g) ensures 10 <= Tenths(g) <= 50 && FormatTenths(Tenths(g)) == g {
      var w := g[..1];
      assert DigitsValue(w) == DigitValue(g[0]) by {
        assert w[..0] == [];
      }
      var t := Tenths(g);
      assert t / 10 == DigitValue(g[0]) && t % 10 == DigitValue(g[2]);
      assert NatToString(t / 10) == [g[0]];
    }
  }

  // ----- Worked lines

  lemma FiveLettersMatches(s: string)
    requires s == "ABCDE1234"
    ensures IdMatchAt(s, 0).None? && IdMatchAt(s, 1) == Some(8)
  {
    RunIs(s, 0, IsUpper, 5);
    RunIs(s, 1, IsUpper, 4);
    RunIs(s, 5, IsDigit, 4);
  }

  lemma FiveLettersFound(s: string)
    requires s == "ABCDE1234"
    ensures FindIdFrom(s, 0) == Some(1)
  {
    FiveLettersMatches(s);
  }

  /** The upper-case run where a match starts must be two to four letters long, so in
      a run of five the match starts at the second letter. */
  lemma IdFiveLetters()
    ensures FindModuleId("ABCDE1234") == Some("BCDE1234")
  {
    var s := "ABCDE1234";
    FiveLettersFound(s);
    FiveLettersMatches(s);
    assert s[1..9] == "BCDE1234";
  }

  lemma LongDigitsMatch(s: string)
    requires s == "INF12345678_X"
    ensures IdMatchAt(s, 0) == Some(10)
  {
    RunIs(s, 0, IsUpper, 3);
    RunIs(s, 3, IsDigit, 8);
  }

  /** The digits stop after seven, and a suffix is only taken right after them. */
  lemma IdLongDigits()
    ensures FindModuleId("INF12345678_X") == Some("INF1234567")
  {
    var s := "INF12345678_X";
    LongDigitsMatch(s);
    assert s[0..10] == "INF1234567";
  }

  lemma SuffixMatches(s: string)
    requires s == "MA1234_B Analysis"
    ensures IdMatchAt(s, 0) == Some(8)
  {
    RunIs(s, 0, IsUpper, 2);
    RunIs(s, 2, IsDigit, 4);
  }

  /** An underscore and a capital right after the digits belong to the id. */
  lemma IdSuffix()
    ensures FindModuleId("MA1234_B Analysis") == Some("MA1234_B")
  {
    var s := "MA1234_B Analysis";
    SuffixMatches(s);
    assert s[0..8] == "MA1234_B";
  }

  /** A numeral is read from the start of its digit run: "12,3" is 12.3 (which the
      grade range then rejects), not 2.3. */
  lemma DecimalWholeRun()
    ensures FindDecimal("12,3") == Some(123)
  {
    var s := "12,3";
    RunIs(s, 0, IsDigit, 2);
    assert DecimalAt(s, 0) == Some(2);
    assert s[0..4][..2] == "12";
    assert DigitsValue("12") == 12 by { assert "12"[..1] == "1"; assert "1"[..0] == ""; }
  }

  /** Only one digit is read after the comma. */
  lemma DecimalOneTenth()
    ensures FindDecimal("2,30") == Some(23)
    ensures FindDecimal("1,2,3") == Some(12)
  {
    RunIs("2,30", 0, IsDigit, 1);
    assert DecimalAt("2,30", 0) == Some(1);
    assert "2,30"[0..3][..1] == "2";
    assert DigitsValue("2") == 2 by { assert "2"[..0] == ""; }
    RunIs("1,2,3", 0, IsDigit, 1);
    assert DecimalAt("1,2,3", 0) == Some(1);
    assert "1,2,3"[0..3][..1] == "1";
    assert DigitsValue("1") == 1 by { assert "1"[..0] == ""; }
  }

  /** A leading zero is read and then lost in the rendering. */
  lemma DecimalLeadingZero()
    ensures FindDecimal("02,3") == Some(23)
    ensures FormatTenths(23) == "2.3"
  {
    var s := "02,3";
    RunIs(s, 0, IsDigit, 2);
    assert DecimalAt(s, 0) == Some(2);
    assert s[0..4][..2] == "02";
    assert DigitsValue("02") == 2 by { assert "02"[..1] == "0"; assert "0"[..0] == ""; }
    assert NatToString(2) == "2";
  }

  lemma ProjectSeminarWord(s: string)
    requires s == "Project Seminar BE"
    ensures RunBack(s, 15, IsWordOrAmp) == 7
  {
    assert s[7] == ' ';
    RunBackIs(s, 15, IsWordOrAmp, 7);
  }

  lemma ProjectSeminarBlanks(s: string)
    requires s == "Project Seminar BE"
    ensures RunBack(s, 16, IsSpace) == 1 && RunBack(s, 8, IsSpace) == 1
  {
    assert s[14] == 'r' && s[15] == ' ' && s[7] == ' ' && s[6] == 't';
    RunBackIs(s, 16, IsSpace, 1);
    RunBackIs(s, 8, IsSpace, 1);
  }

  lemma ProjectSeminarAt(s: string)
    requires s == "Project Seminar BE"
    ensures UngradedAt(s, 16)
  {
    ProjectSeminarWord(s);
    ProjectSeminarBlanks(s);
  }

  /** Two words before `BE` make an ungraded entry. */
  lemma UngradedTwoWords()
    ensures IsUngraded("Project Seminar BE")
  {
    var s := "Project Seminar BE";
    ProjectSeminarAt(s);
    UngradedAtSound(s, 16);
  }

  /** Anything may follow `BE`. */
  lemma UngradedBeforeAnything()
    ensures IsUngraded("Project Seminar BEST")
  {
    UngradedTwoWords();
    UngradedAppend("Project Seminar BE", "ST");
    assert "Project Seminar BE" + "ST" == "Project Seminar BEST";
  }

  lemma SeminarAmpersandRuns(s: string)
    requires s == "Seminar & BE"
    ensures RunBack(s, 10, IsSpace) == 1 && RunBack(s, 9, IsWordOrAmp) == 1 && RunBack(s, 8, IsSpace) == 1
  {
    assert s[6] == 'r' && s[7] == ' ' && s[8] == '&' && s[9] == ' ';
    RunBackIs(s, 10, IsSpace, 1);
    RunBackIs(s, 9, IsWordOrAmp, 1);
    RunBackIs(s, 8, IsSpace, 1);
  }

  /** An ampersand may stand in the middle. */
  lemma UngradedAmpersand()
    ensures IsUngraded("Seminar & BE")
  {
    var s := "Seminar & BE";
    SeminarAmpersandRuns(s);
    assert UngradedAt(s, 10);
    UngradedAtSound(s, 10);
  }

  lemma AmpersandProjectWord(s: string)
    requires s == "Seminar & Project BE"
    ensures RunBack(s, 17, IsWordOrAmp) == 7
  {
    assert s[9] == ' ';
    RunBackIs(s, 17, IsWordOrAmp, 7);
  }

  lemma AmpersandProjectBlanks(s: string)
    requires s == "Seminar & Project BE"
    ensures RunBack(s, 18, IsSpace) == 1 && RunBack(s, 10, IsSpace) == 1
  {
    assert s[8] == '&' && s[9] == ' ' && s[16] == 't' && s[17] == ' ';
    RunBackIs(s, 18, IsSpace, 1);
    RunBackIs(s, 10, IsSpace, 1);
  }

  lemma OneCapitalE(s: string)
    requires s == "Seminar & Project BE"
    ensures forall k :: 0 <= k < |s| && k != 19 ==> s[k] != 'E'
  {
  }

  /** The ampersand may not be the first word: two tokens before `BE` there must be
      letters. */
  lemma NotUngradedAmpersandFirst()
    ensures !IsUngraded("Seminar & Project BE")
  {
    var s := "Seminar & Project BE";
    AmpersandProjectWord(s);
    AmpersandProjectBlanks(s);
    assert !IsLetter(s[8]);
    OneCapitalE(s);
    UngradedAtSpec(s, 18);
  }
}
