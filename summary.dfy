/** The two summary searches over the normalised text (api/parse-transcript.py:92-97;
    the same code is api/parser.py:79-84): the total credits after a `Gesamtcredits`
    or `Total Credits` marker, and the GPA, the first comma-decimal numeral after a
    `Zwischennote` marker, both markers matched ignoring case.

    As for the line patterns, each search is given as what the matcher does (a
    function) and as what the pattern denotes (a ghost predicate), and lemmas connect
    the two. */
module Summary {
  import opened Text
  import opened Patterns

  /** The case folding of `re.IGNORECASE`, on ASCII. */
  function Lower(c: char): (l: char)
  {
    if IsUpper(c) then (c as int + 32) as char else c
  }

  /** The lower-case literal `word` occurs at index p of s, ignoring case. */
  predicate MatchesAt(s: string, p: nat, word: string) {
    p + |word| <= |s| && forall k :: 0 <= k < |word| ==> Lower(s[p + k]) == word[k]
  }

  // ----- Total credits: (?:Gesamtcredits|Total Credits)\s*(\d+)

  /** Both alternatives of the credits marker are thirteen characters long. */
  const CreditsMarkerLength: nat := 13

  predicate CreditsMarkerAt(s: string, p: nat) {
    MatchesAt(s, p, "gesamtcredits") || MatchesAt(s, p, "total credits")
  }

  /** A match of the credits pattern at index p whose group is `s[q..r]`: the marker,
      whitespace up to q, then one or more digits up to r. */
  ghost predicate CreditsMatch(s: string, p: nat, q: nat, r: nat) {
    && CreditsMarkerAt(s, p) && p + CreditsMarkerLength <= q < r <= |s|
    && (forall k :: p + CreditsMarkerLength <= k < q ==> IsSpace(s[k]))
    && (forall k :: q <= k < r ==> IsDigit(s[k]))
  }

  /** The group the matcher captures at p: of all matches there, the one whose group
      starts where every other does and is the longest. */
  ghost predicate IsCreditsCapture(s: string, p: nat, q: nat, r: nat) {
    && CreditsMatch(s, p, q, r)
    && forall q': nat, r': nat :: CreditsMatch(s, p, q', r') ==> q' == q && r' <= r
  }

  /** The credits pattern tried at index p: after the marker, `\s*` takes the whole
      whitespace run and `(\d+)` the whole digit run after it. With no digit there,
      giving back whitespace cannot help, since a blank then stands where a digit
      must. The result is `int()` of the group. */
  function CreditsAt(s: string, p: nat): (r: Option<nat>)
    requires p <= |s|
    ensures r.Some? ==> CreditsMarkerAt(s, p) && p + CreditsMarkerLength < |s|
  {
    if CreditsMarkerAt(s, p) then
      var q := p + CreditsMarkerLength + Run(s, p + CreditsMarkerLength, IsSpace);
      var d := Run(s, q, IsDigit);
      if d == 0 then None else Some(DigitsValue(s[q..q + d]))
    else None
  }

  /** The credits search at p fails exactly when the pattern has no match there, and
      otherwise reads the group the matcher captures. */
  lemma CreditsAtSpec(s: string, p: nat)
    requires p <= |s|
    ensures CreditsAt(s, p) == None <==> forall q: nat, r: nat :: !CreditsMatch(s, p, q, r)
    ensures CreditsAt(s, p).Some? ==>
              exists q: nat, r: nat :: IsCreditsCapture(s, p, q, r) && CreditsAt(s, p).value == DigitsValue(s[q..r])
  {
    if CreditsMarkerAt(s, p) {
      var m := p + CreditsMarkerLength;
      var q := m + Run(s, m, IsSpace);
      var r := q + Run(s, q, IsDigit);
      forall q': nat, r': nat | CreditsMatch(s, p, q', r') ensures q' == q && r' <= r {
        assert IsDigit(s[q']) && !IsSpace(s[q']);
        assert r == |s| || !IsDigit(s[r]);
      }
      if r > q {
        assert IsCreditsCapture(s, p, q, r);
      }
    }
  }

  /** Leftmost index from p on where the credits pattern matches. */
  function FindCreditsFrom(s: string, p: nat): (q: Option<nat>)
    requires p <= |s|
    ensures q.Some? ==> p <= q.value <= |s| && CreditsAt(s, q.value).Some?
    ensures forall k :: p <= k <= |s| && (q.None? || k < q.value) ==> CreditsAt(s, k).None?
    decreases |s| - p
  {
    if CreditsAt(s, p).Some? then Some(p)
    else if p == |s| then None
    else FindCreditsFrom(s, p + 1)
  }

  /** `re.search(r'(?:Gesamtcredits|Total Credits)\s*(\d+)', all_text, re.IGNORECASE)`,
      and `int()` of its group when it matches. */
  function TotalCredits(text: string): (r: Option<nat>)
    ensures (forall p: nat :: !CreditsMarkerAt(text, p)) ==> r == None
  {
    match FindCreditsFrom(text, 0)
    case None => None
    case Some(p) => CreditsAt(text, p)
  }

  /** The credits pattern matches somewhere in s. */
  ghost predicate CreditsOccur(s: string) {
    exists p: nat, q: nat, r: nat :: CreditsMatch(s, p, q, r)
  }

  /** The group of the leftmost match of the credits pattern is `s[q..r]`. */
  ghost predicate IsFirstCredits(s: string, p: nat, q: nat, r: nat) {
    && IsCreditsCapture(s, p, q, r)
    && forall p': nat, q': nat, r': nat :: CreditsMatch(s, p', q', r') ==> p <= p'
  }

  /** No credits are reported exactly when the pattern matches nowhere; otherwise they
      are the value of the digits the leftmost match captures. */
  lemma TotalCreditsSpec(text: string)
    ensures TotalCredits(text) == None <==> !CreditsOccur(text)
    ensures TotalCredits(text).Some? ==>
              exists p: nat, q: nat, r: nat :: IsFirstCredits(text, p, q, r) && TotalCredits(text).value == DigitsValue(text[q..r])
  {
    var found := FindCreditsFrom(text, 0);
    if found.Some? {
      var p := found.value;
      CreditsAtSpec(text, p);
      var q: nat, r: nat :| IsCreditsCapture(text, p, q, r) && CreditsAt(text, p).value == DigitsValue(text[q..r]);
      forall p': nat, q': nat, r': nat | CreditsMatch(text, p', q', r') ensures p <= p' {
        CreditsAtSpec(text, p');
      }
      assert IsFirstCredits(text, p, q, r);
    } else {
      forall p: nat, q: nat, r: nat ensures !CreditsMatch(text, p, q, r) {
        if p <= |text| {
          CreditsAtSpec(text, p);
        }
      }
    }
  }

  // ----- GPA: Zwischennote\s*[\s\S]*?(\d+,\d)

  /** The GPA marker is twelve characters long. */
  const GpaMarkerLength: nat := 12

  predicate GpaMarkerAt(s: string, p: nat) {
    MatchesAt(s, p, "zwischennote")
  }

  /** The GPA pattern tried at index p: the marker, then a gap that the lazy
      `[\s\S]*?` grows one character at a time, then `(\d+,\d)`. The `\s*` before the
      gap only takes characters no numeral starts with, so the group is the first
      comma-decimal numeral after the marker, read in tenths. */
  function GpaAt(s: string, p: nat): (r: Option<nat>)
    requires p <= |s|
    ensures r.Some? ==> GpaMarkerAt(s, p) && p + GpaMarkerLength + 3 <= |s|
  {
    if GpaMarkerAt(s, p) then FindDecimal(s[p + GpaMarkerLength..]) else None
  }

  /** Leftmost index from p on where the GPA pattern matches. */
  function FindGpaFrom(s: string, p: nat): (q: Option<nat>)
    requires p <= |s|
    ensures q.Some? ==> p <= q.value <= |s| && GpaAt(s, q.value).Some?
    ensures forall k :: p <= k <= |s| && (q.None? || k < q.value) ==> GpaAt(s, k).None?
    decreases |s| - p
  {
    if GpaAt(s, p).Some? then Some(p)
    else if p == |s| then None
    else FindGpaFrom(s, p + 1)
  }

  /** `re.search(r'Zwischennote\s*[\s\S]*?(\d+,\d)', all_text, re.IGNORECASE)`, and
      its group in tenths when it matches. */
  function Gpa(text: string): (r: Option<nat>)
    ensures (forall p: nat :: !GpaMarkerAt(text, p)) ==> r == None
  {
    match FindGpaFrom(text, 0)
    case None => None
    case Some(p) => GpaAt(text, p)
  }

  /** A match of the GPA pattern at index p whose group is `s[q..q + n]`: the marker,
      then a gap of any characters, which `\s*[\s\S]*?` together cover, then a
      `\d+,\d` numeral. */
  ghost predicate GpaMatch(s: string, p: nat, q: nat, n: nat) {
    GpaMarkerAt(s, p) && p + GpaMarkerLength <= q && q + n <= |s| && IsDecimalToken(s[q..q + n])
  }

  /** The group the matcher captures at p: the lazy gap stops at the first position
      where the numeral matches, and there `\d+` takes the whole digit run. */
  ghost predicate IsGpaCapture(s: string, p: nat, q: nat, n: nat) {
    && GpaMatch(s, p, q, n)
    && forall q': nat, n': nat :: GpaMatch(s, p, q', n') ==> q < q' || (q == q' && n == n')
  }

  /** The numerals after the marker at p are the numerals of the text after it: the
      one at index a of `tail` is the one at index q of the text. */
  lemma GpaTailToken(s: string, p: nat, tail: string, q: nat, a: nat, n: nat)
    requires GpaMarkerAt(s, p) && tail == s[p + GpaMarkerLength..]
    requires q == p + GpaMarkerLength + a && a + n <= |tail|
    ensures tail[a..a + n] == s[q..q + n]
    ensures GpaMatch(s, p, q, n) <==> IsDecimalToken(tail[a..a + n])
  {
    SliceOfSlice(s, p + GpaMarkerLength, |s|, a, a + n);
    assert tail[a..a + n] == s[q..q + n];
  }

  /** The GPA pattern at p fails exactly when it has no match there. */
  lemma GpaAtNone(s: string, p: nat)
    requires p <= |s|
    ensures GpaAt(s, p) == None <==> forall q: nat, n: nat :: !GpaMatch(s, p, q, n)
  {
    if GpaMarkerAt(s, p) {
      var m := p + GpaMarkerLength;
      var tail := s[m..];
      assert GpaAt(s, p) == FindDecimal(tail);
      FindDecimalSpec(tail);
      forall q: nat, n: nat | GpaMatch(s, p, q, n)
        ensures q - m + n <= |tail| && IsDecimalToken(tail[q - m..q - m + n])
      {
        GpaTailToken(s, p, tail, q, q - m, n);
      }
      if FindDecimal(tail).Some? {
        var a: nat, n: nat :| IsFirstDecimal(tail, a, n) && FindDecimal(tail).value == Tenths(tail[a..a + n]);
        GpaTailToken(s, p, tail, m + a, a, n);
      }
    }
  }

  /** Where the GPA pattern matches at p, it reads the numeral that the matcher
      captures. */
  lemma GpaAtCapture(s: string, p: nat)
    requires p <= |s| && GpaAt(s, p).Some?
    ensures exists q: nat, n: nat :: IsGpaCapture(s, p, q, n) && GpaAt(s, p).value == Tenths(s[q..q + n])
  {
    var m := p + GpaMarkerLength;
    var tail := s[m..];
    assert GpaAt(s, p) == FindDecimal(tail);
    FindDecimalSpec(tail);
    var a: nat, n: nat :| IsFirstDecimal(tail, a, n) && FindDecimal(tail).value == Tenths(tail[a..a + n]);
    GpaFirstInTail(s, p, tail, a, n);
  }

  /** The leftmost numeral of the text after the marker is the group the matcher
      captures. */
  lemma GpaFirstInTail(s: string, p: nat, tail: string, a: nat, n: nat)
    requires GpaMarkerAt(s, p) && tail == s[p + GpaMarkerLength..] && IsFirstDecimal(tail, a, n)
    ensures IsGpaCapture(s, p, p + GpaMarkerLength + a, n)
    ensures tail[a..a + n] == s[p + GpaMarkerLength + a..p + GpaMarkerLength + a + n]
  {
    var m := p + GpaMarkerLength;
    GpaTailToken(s, p, tail, m + a, a, n);
    forall q': nat, n': nat | GpaMatch(s, p, q', n') ensures m + a < q' || (m + a == q' && n == n') {
      var b := q' - m;
      GpaTailToken(s, p, tail, q', b, n');
      assert b <= b + n' <= |tail| && IsDecimalToken(tail[b..b + n']);
    }
  }

  /** The GPA pattern at p fails exactly when it has no match there, and otherwise reads
      the numeral that the matcher captures. */
  lemma GpaAtSpec(s: string, p: nat)
    requires p <= |s|
    ensures GpaAt(s, p) == None <==> forall q: nat, n: nat :: !GpaMatch(s, p, q, n)
    ensures GpaAt(s, p).Some? ==>
              exists q: nat, n: nat :: IsGpaCapture(s, p, q, n) && GpaAt(s, p).value == Tenths(s[q..q + n])
  {
    GpaAtNone(s, p);
    if GpaAt(s, p).Some? {
      GpaAtCapture(s, p);
    }
  }

  /** The GPA pattern matches somewhere in s. */
  ghost predicate GpaOccurs(s: string) {
    exists p: nat, q: nat, n: nat :: GpaMatch(s, p, q, n)
  }

  /** The group of the leftmost match of the GPA pattern is `s[q..q + n]`. */
  ghost predicate IsFirstGpa(s: string, p: nat, q: nat, n: nat) {
    && IsGpaCapture(s, p, q, n)
    && forall p': nat, q': nat, n': nat :: GpaMatch(s, p', q', n') ==> p <= p'
  }

  /** No GPA is reported exactly when the pattern matches nowhere; otherwise it is the
      value of the numeral the leftmost match captures. */
  lemma GpaSpec(text: string)
    ensures Gpa(text) == None <==> !GpaOccurs(text)
    ensures Gpa(text).Some? ==>
              exists p: nat, q: nat, n: nat :: IsFirstGpa(text, p, q, n) && Gpa(text).value == Tenths(text[q..q + n])
  {
    var found := FindGpaFrom(text, 0);
    if found.Some? {
      var p := found.value;
      GpaAtSpec(text, p);
      var q: nat, n: nat :| IsGpaCapture(text, p, q, n) && GpaAt(text, p).value == Tenths(text[q..q + n]);
      forall p': nat, q': nat, n': nat | GpaMatch(text, p', q', n') ensures p <= p' {
        GpaAtSpec(text, p');
      }
      assert IsFirstGpa(text, p, q, n);
    } else {
      forall p: nat, q: nat, n: nat ensures !GpaMatch(text, p, q, n) {
        if p <= |text| {
          GpaAtSpec(text, p);
        }
      }
    }
  }

  /** A text with no comma-decimal numeral has none in any of its suffixes. */
  lemma NoDecimalInSuffix(s: string, d: nat)
    requires d <= |s|
    requires FindDecimal(s) == None
    ensures FindDecimal(s[d..]) == None
  {
    FindDecimalSpec(s);
    FindDecimalSpec(s[d..]);
    forall q: nat, r: nat | q <= r <= |s[d..]| ensures !IsDecimalToken(s[d..][q..r]) {
      assert s[d..][q..r] == s[d + q..d + r];
    }
  }

  /** The GPA is the first comma-decimal numeral after the first marker, or none when
      no numeral follows that marker: a later marker is followed by fewer numerals. */
  lemma GpaAfterFirstMarker(text: string, p: nat)
    requires p <= |text| && GpaMarkerAt(text, p)
    requires forall p': nat :: p' < p ==> !GpaMarkerAt(text, p')
    ensures Gpa(text) == FindDecimal(text[p + GpaMarkerLength..])
  {
    var tail := text[p + GpaMarkerLength..];
    if FindDecimal(tail) == None {
      forall k | 0 <= k <= |text| ensures GpaAt(text, k) == None {
        if p < k && GpaMarkerAt(text, k) {
          NoDecimalInSuffix(tail, k - p);
          assert tail[k - p..] == text[k + GpaMarkerLength..];
        }
      }
    } else {
      assert GpaAt(text, p).Some?;
    }
  }
}
