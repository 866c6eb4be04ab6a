/** The tokenizer (api/parse-transcript.py:63-64, api/parser.py:50-51):
    `re.sub(r'[ \t]+', ' ', text)`, then the stripped pieces of `text.split('\n')`
    with the empty ones dropped. */
module Tokenizer {
  import opened Text

  /** No tab, and no space directly followed by another space: the shape of text
      in which every run of spaces and tabs is a single space. */
  predicate Collapsed(s: string) {
    forall k :: 0 <= k < |s| ==> s[k] != '\t' && (s[k] == ' ' ==> k + 1 == |s| || s[k + 1] != ' ')
  }

  /** `re.sub(r'[ \t]+', ' ', s)`: every maximal run of spaces and tabs becomes one space. */
  function Collapse(s: string): (r: string)
    ensures Collapsed(r)
    ensures s == [] <==> r == []
    ensures s != [] ==> r[0] == (if IsBlank(s[0]) then ' ' else s[0])
    decreases |s|
  {
    if s == [] then []
    else if IsBlank(s[0]) then [' '] + Collapse(s[Run(s, 0, IsBlank)..])
    else [s[0]] + Collapse(s[1..])
  }

  /** The characters of `s` that are neither space nor tab, in order. */
  function NonBlank(s: string): (r: string)
  {
    if s == [] then [] else (if IsBlank(s[0]) then [] else [s[0]]) + NonBlank(s[1..])
  }

  /** Collapsing is the identity exactly on collapsed text. */
  lemma {:induction false} CollapseFixpoint(s: string)
    ensures Collapse(s) == s <==> Collapsed(s)
    decreases |s|
  {
    if s != [] && Collapsed(s) {
      if IsBlank(s[0]) {
        RunIs(s, 0, IsBlank, 1);
      }
      assert Collapsed(s[1..]) by {
        forall k | 0 <= k < |s| - 1
          ensures s[1..][k] != '\t' && (s[1..][k] == ' ' ==> k + 1 == |s| - 1 || s[1..][k + 1] != ' ')
        {
          assert s[1..][k] == s[k + 1];
        }
      }
      CollapseFixpoint(s[1..]);
      assert s == [s[0]] + s[1..];
    }
  }

  lemma {:induction false} NonBlankDropBlanks(s: string, n: nat)
    requires n <= |s|
    requires forall k :: 0 <= k < n ==> IsBlank(s[k])
    ensures NonBlank(s) == NonBlank(s[n..])
    decreases n
  {
    if n > 0 {
      NonBlankDropBlanks(s[1..], n - 1);
      assert s[1..][n - 1..] == s[n..];
    }
  }

  /** Collapsing changes only whitespace: the other characters survive, in order. */
  lemma {:induction false} CollapseKeepsText(s: string)
    ensures NonBlank(Collapse(s)) == NonBlank(s)
    decreases |s|
  {
    if s != [] {
      if IsBlank(s[0]) {
        var n := Run(s, 0, IsBlank);
        CollapseKeepsText(s[n..]);
        NonBlankDropBlanks(s, n);
        var r := Collapse(s);
        assert r[1..] == Collapse(s[n..]);
      } else {
        CollapseKeepsText(s[1..]);
        var r := Collapse(s);
        assert r[1..] == Collapse(s[1..]);
      }
    }
  }

  /** A run of spaces and tabs between two other characters (or at either end of the
      text) leaves exactly one space: it is neither dropped nor merged into its
      neighbours. */
  lemma {:induction false} CollapseSplice(x: string, w: string, y: string)
    requires w != [] && forall k :: 0 <= k < |w| ==> IsBlank(w[k])
    requires x == [] || !IsBlank(x[|x| - 1])
    requires y == [] || !IsBlank(y[0])
    ensures Collapse(x + w + y) == Collapse(x) + " " + Collapse(y)
    decreases |x|
  {
    if x == [] {
      CollapseBlankHead(w, y);
      assert x + w + y == w + y;
    } else if IsBlank(x[0]) {
      var m := Run(x, 0, IsBlank);
      CollapseBlankStep(x, w + y, m);
      var x' := x[m..];
      assert x'[|x'| - 1] == x[|x| - 1];
      CollapseSplice(x', w, y);
      calc {
        Collapse(x + w + y);
        == { ConcatAssoc(x, w, y); }
        Collapse(x + (w + y));
        ==
        " " + Collapse(x' + (w + y));
        == { ConcatAssoc(x', w, y); }
        " " + (Collapse(x') + " " + Collapse(y));
        == { ConcatAssoc(" ", Collapse(x') + " ", Collapse(y)); ConcatAssoc(" ", Collapse(x'), " "); }
        Collapse(x) + " " + Collapse(y);
      }
    } else {
      var x' := x[1..];
      CollapseCharStep(x, w + y);
      assert x' == [] || x'[|x'| - 1] == x[|x| - 1];
      CollapseSplice(x', w, y);
      calc {
        Collapse(x + w + y);
        == { ConcatAssoc(x, w, y); }
        Collapse(x + (w + y));
        ==
        [x[0]] + Collapse(x' + (w + y));
        == { ConcatAssoc(x', w, y); }
        [x[0]] + (Collapse(x') + " " + Collapse(y));
        == { ConcatAssoc([x[0]], Collapse(x') + " ", Collapse(y)); ConcatAssoc([x[0]], Collapse(x'), " "); }
        Collapse(x) + " " + Collapse(y);
      }
    }
  }

  /** A leading blank run becomes one space. */
  lemma CollapseBlankHead(w: string, y: string)
    requires w != [] && forall k :: 0 <= k < |w| ==> IsBlank(w[k])
    requires y == [] || !IsBlank(y[0])
    ensures Collapse(w + y) == " " + Collapse(y)
  {
    var s := w + y;
    RunIs(s, 0, IsBlank, |w|);
    assert s[|w|..] == y;
  }

  /** The leading blank run of x, which ends before x does, becomes one space. */
  lemma CollapseBlankStep(x: string, rest: string, m: nat)
    requires x != [] && IsBlank(x[0]) && !IsBlank(x[|x| - 1])
    requires m == Run(x, 0, IsBlank)
    ensures m < |x|
    ensures Collapse(x) == " " + Collapse(x[m..])
    ensures Collapse(x + rest) == " " + Collapse(x[m..] + rest)
  {
    var s := x + rest;
    RunIs(s, 0, IsBlank, m);
    assert s[m..] == x[m..] + rest;
  }

  /** A character other than a blank is kept as it is. */
  lemma CollapseCharStep(x: string, rest: string)
    requires x != [] && !IsBlank(x[0])
    ensures Collapse(x) == [x[0]] + Collapse(x[1..])
    ensures Collapse(x + rest) == [x[0]] + Collapse(x[1..] + rest)
  {
    var s := x + rest;
    assert s[0] == x[0];
    assert s[1..] == x[1..] + rest;
  }

  /** Collapsing never merges across a line break. */
  lemma {:induction false} CollapseConcat(a: string, b: string)
    ensures Collapse(a + "\n" + b) == Collapse(a) + "\n" + Collapse(b)
    decreases |a|
  {
    var s := a + "\n" + b;
    if a == [] {
      assert s == "\n" + b;
      assert s[1..] == b;
    } else if IsBlank(a[0]) {
      var m := Run(a, 0, IsBlank);
      RunIs(s, 0, IsBlank, m);
      assert s[m..] == a[m..] + "\n" + b;
      CollapseConcat(a[m..], b);
    } else {
      assert s[1..] == a[1..] + "\n" + b;
      CollapseConcat(a[1..], b);
    }
  }

  /** `s.split('\n')` */
  function SplitLines(s: string): (parts: seq<string>)
    ensures |parts| >= 1
    ensures forall k :: 0 <= k < |parts| ==> '\n' !in parts[k]
    ensures |parts[0]| <= |s| && parts[0] == s[..|parts[0]|]
    decreases |s|
  {
    if s == [] then [""]
    else
      var rest := SplitLines(s[1..]);
      if s[0] == '\n' then [""] + rest
      else [[s[0]] + rest[0]] + rest[1..]
  }

  /** The pieces of a text without blank runs have none. */
  lemma {:induction false} SplitLinesCollapsed(s: string)
    requires Collapsed(s)
    ensures forall k :: 0 <= k < |SplitLines(s)| ==> Collapsed(SplitLines(s)[k])
    decreases |s|
  {
    if s != [] {
      var t := s[1..];
      forall k | 0 <= k < |t|
        ensures t[k] != '\t' && (t[k] == ' ' ==> k + 1 == |t| || t[k + 1] != ' ')
      {
        assert t[k] == s[k + 1];
      }
      SplitLinesCollapsed(t);
      var rest := SplitLines(t);
      if s[0] != '\n' {
        var first := [s[0]] + rest[0];
        assert first == s[..|first|];
        CollapsedInfix(s, 0, |first|);
      }
    }
  }

  /** `'\n'.join(lines)` */
  function JoinLines(lines: seq<string>): (text: string)
  {
    if |lines| == 0 then ""
    else if |lines| == 1 then lines[0]
    else lines[0] + "\n" + JoinLines(lines[1..])
  }

  /** Joining the pieces of a split gives the text back. */
  lemma {:induction false} JoinSplit(s: string)
    ensures JoinLines(SplitLines(s)) == s
    decreases |s|
  {
    if s != [] {
      var rest := SplitLines(s[1..]);
      JoinSplit(s[1..]);
      if s[0] == '\n' {
        assert SplitLines(s)[1..] == rest;
        assert s == "\n" + s[1..];
      } else {
        var parts := SplitLines(s);
        if |rest| == 1 {
          assert parts == [[s[0]] + rest[0]];
          assert s == [s[0]] + s[1..];
        } else {
          assert parts[1..] == rest[1..];
          assert s == [s[0]] + s[1..];
        }
      }
    }
  }

  lemma {:induction false} SplitAppend(a: string, b: string)
    requires '\n' !in a
    ensures SplitLines(a + b) == [a + SplitLines(b)[0]] + SplitLines(b)[1..]
    decreases |a|
  {
    var parts := SplitLines(b);
    if a == [] {
      assert a + b == b;
      assert a + parts[0] == parts[0];
      assert parts == [parts[0]] + parts[1..];
    } else {
      var s := a + b;
      assert s[0] == a[0] && a[0] != '\n';
      assert s[1..] == a[1..] + b;
      SplitAppend(a[1..], b);
      var rest := SplitLines(s[1..]);
      assert rest[0] == a[1..] + parts[0] && rest[1..] == parts[1..];
      assert SplitLines(s) == [[s[0]] + rest[0]] + rest[1..];
      assert [a[0]] + (a[1..] + parts[0]) == a + parts[0];
    }
  }

  /** Splitting the join of lines free of line breaks gives the lines back. */
  lemma {:induction false} SplitJoin(lines: seq<string>)
    requires |lines| >= 1
    requires forall k :: 0 <= k < |lines| ==> '\n' !in lines[k]
    ensures SplitLines(JoinLines(lines)) == lines
    decreases |lines|
  {
    if |lines| == 1 {
      SplitAppend(lines[0], "");
      assert lines[0] + "" == lines[0];
    } else {
      SplitJoin(lines[1..]);
      var rest := JoinLines(lines[1..]);
      SplitAppend(lines[0], "\n" + rest);
      assert ("\n" + rest)[1..] == rest;
      assert lines[0] + "\n" + rest == lines[0] + ("\n" + rest);
      assert lines == [lines[0]] + lines[1..];
    }
  }

  /** A line break in the text separates the pieces of the two sides. */
  lemma {:induction false} SplitConcat(x: string, y: string)
    ensures SplitLines(x + "\n" + y) == SplitLines(x) + SplitLines(y)
    decreases |x|
  {
    var s := x + "\n" + y;
    if x == [] {
      assert s == "\n" + y;
      assert s[1..] == y;
    } else {
      assert s[1..] == x[1..] + "\n" + y;
      SplitConcat(x[1..], y);
    }
  }

  /** `s.rstrip()` */
  function StripRight(s: string): (r: string)
    ensures |r| <= |s| && r == s[..|r|]
    ensures r == [] || !IsSpace(r[|r| - 1])
    ensures forall k :: |r| <= k < |s| ==> IsSpace(s[k])
  {
    s[..|s| - RunBack(s, |s|, IsSpace)]
  }

  /** Whitespace at the end of a suffix is whitespace at the end of the whole. */
  lemma SpacesShifted(s: string, d: nat, n: nat)
    requires d + n <= |s|
    requires forall k :: n <= k < |s[d..]| ==> IsSpace(s[d..][k])
    ensures forall k :: d + n <= k < |s| ==> IsSpace(s[k])
  {
    forall k | d + n <= k < |s| ensures IsSpace(s[k]) {
      assert s[k] == s[d..][k - d];
    }
  }

  /** Where the block left by stripping lies in `s`. */
  lemma StripBlock(s: string)
    ensures var d := Run(s, 0, IsSpace);
            var r := StripRight(s[d..]);
            && d + |r| <= |s| && r == s[d..d + |r|]
            && (forall k :: d + |r| <= k < |s| ==> IsSpace(s[k]))
  {
    var d := Run(s, 0, IsSpace);
    var r := StripRight(s[d..]);
    assert r == s[d..d + |r|];
    SpacesShifted(s, d, |r|);
  }

  /** A text without whitespace at either end is left as it is. */
  lemma StripNothing(s: string)
    requires s == [] || (!IsSpace(s[0]) && !IsSpace(s[|s| - 1]))
    ensures StripRight(s[Run(s, 0, IsSpace)..]) == s
  {
    if s != [] {
      assert Run(s, 0, IsSpace) == 0 && s[0..] == s;
      assert RunBack(s, |s|, IsSpace) == 0;
    }
  }

  /** `s.strip()`: the block of `s` left after removing the whitespace at both ends. */
  function Strip(s: string): (r: string)
    ensures r == [] || (!IsSpace(r[0]) && !IsSpace(r[|r| - 1]))
    ensures r == s <==> (s == [] || (!IsSpace(s[0]) && !IsSpace(s[|s| - 1])))
    ensures var d := Run(s, 0, IsSpace);
            d + |r| <= |s| && r == s[d..d + |r|] && forall k :: d + |r| <= k < |s| ==> IsSpace(s[k])
  {
    StripBlock(s);
    if s == [] || (!IsSpace(s[0]) && !IsSpace(s[|s| - 1])) then
      StripNothing(s);
      StripRight(s[Run(s, 0, IsSpace)..])
    else
      StripRight(s[Run(s, 0, IsSpace)..])
  }

  /** What stripping keeps of a line free of line breaks and of blank runs has neither. */
  lemma StripKeepsClean(s: string)
    ensures Collapsed(s) ==> Collapsed(Strip(s))
    ensures '\n' !in s ==> '\n' !in Strip(s)
  {
    var l := Strip(s);
    var d := Run(s, 0, IsSpace);
    if Collapsed(s) { CollapsedInfix(s, d, d + |l|); }
    if '\n' in l {
      var k :| 0 <= k < |l| && l[k] == '\n';
      assert s[d + k] == '\n';
    }
  }

  /** A piece of collapsed text is collapsed. */
  lemma CollapsedInfix(s: string, d: nat, e: nat)
    requires d <= e <= |s|
    requires Collapsed(s)
    ensures Collapsed(s[d..e])
  {
    var t := s[d..e];
    forall k | 0 <= k < |t|
      ensures t[k] != '\t' && (t[k] == ' ' ==> k + 1 == |t| || t[k + 1] != ' ')
    {
      assert t[k] == s[d + k];
      if k + 1 < |t| {
        assert t[k + 1] == s[d + k + 1];
      }
    }
  }

  /** A line as the tokenizer emits it: non-empty, no whitespace at either end,
      no line break, no tab and no two consecutive spaces. */
  predicate IsCleanLine(l: string) {
    l != [] && !IsSpace(l[0]) && !IsSpace(l[|l| - 1]) && '\n' !in l && Collapsed(l)
  }

  /** What the comprehension keeps of one piece: its stripped text, unless that is empty. */
  function Kept(part: string): (kept: seq<string>)
  {
    if Strip(part) == "" then [] else [Strip(part)]
  }

  /** `[line.strip() for line in parts if line.strip()]` */
  function CleanLines(parts: seq<string>): (lines: seq<string>)
    ensures |lines| <= |parts|
  {
    if parts == [] then [] else Kept(parts[0]) + CleanLines(parts[1..])
  }

  /** From pieces free of line breaks and of blank runs, every line kept is clean. */
  lemma KeptClean(part: string)
    requires '\n' !in part && Collapsed(part)
    ensures forall k :: 0 <= k < |Kept(part)| ==> IsCleanLine(Kept(part)[k])
  {
    StripKeepsClean(part);
  }

  lemma CleanConcat(x: seq<string>, y: seq<string>)
    requires forall k :: 0 <= k < |x| ==> IsCleanLine(x[k])
    requires forall k :: 0 <= k < |y| ==> IsCleanLine(y[k])
    ensures forall k :: 0 <= k < |x + y| ==> IsCleanLine((x + y)[k])
  {
  }

  lemma {:induction false} CleanLinesClean(parts: seq<string>)
    requires forall k :: 0 <= k < |parts| ==> '\n' !in parts[k] && Collapsed(parts[k])
    ensures forall k :: 0 <= k < |CleanLines(parts)| ==> IsCleanLine(CleanLines(parts)[k])
    decreases |parts|
  {
    if parts != [] {
      KeptClean(parts[0]);
      CleanLinesClean(parts[1..]);
      CleanLinesFirst(parts);
      CleanConcat(Kept(parts[0]), CleanLines(parts[1..]));
    }
  }

  /** `[line.strip() for line in text.split('\n') if line.strip()]` after the collapse
      of line 63: every line it yields is a clean line. */
  function Tokenize(text: string): (lines: seq<string>)
    ensures forall k :: 0 <= k < |lines| ==> IsCleanLine(lines[k])
  {
    SplitLinesCollapsed(Collapse(text));
    CleanLinesClean(SplitLines(Collapse(text)));
    CleanLines(SplitLines(Collapse(text)))
  }

  lemma {:induction false} CleanLinesFixpoint(lines: seq<string>)
    requires forall k :: 0 <= k < |lines| ==> IsCleanLine(lines[k])
    ensures CleanLines(lines) == lines
    decreases |lines|
  {
    if lines != [] {
      CleanLinesFixpoint(lines[1..]);
      assert lines == [lines[0]] + lines[1..];
    }
  }

  lemma CleanLinesFirst(parts: seq<string>)
    requires parts != []
    ensures CleanLines(parts) == Kept(parts[0]) + CleanLines(parts[1..])
  {
  }

  lemma {:induction false} CleanLinesConcat(x: seq<string>, y: seq<string>)
    ensures CleanLines(x + y) == CleanLines(x) + CleanLines(y)
    decreases |x|
  {
    if x == [] {
      assert x + y == y;
    } else {
      var first := Kept(x[0]);
      assert (x + y)[0] == x[0] && (x + y)[1..] == x[1..] + y;
      CleanLinesFirst(x + y);
      CleanLinesFirst(x);
      CleanLinesConcat(x[1..], y);
      ConcatAssoc(first, CleanLines(x[1..]), CleanLines(y));
    }
  }

  /** `line.strip()` for each piece. */
  function StripAll(parts: seq<string>): (pieces: seq<string>)
  {
    if parts == [] then [] else [Strip(parts[0])] + StripAll(parts[1..])
  }

  /** `lines` is what a filter on non-empty strings keeps of `pieces`, read through the
      index map `idx`: line n is the non-empty piece `idx[n]`; the indices increase, so
      the order of the pieces is kept; and every non-empty piece has its index in
      `idx`. */
  ghost predicate KeepsNonEmpty(pieces: seq<string>, lines: seq<string>, idx: seq<nat>) {
    && |idx| == |lines|
    && (forall n :: 0 <= n < |idx| ==> idx[n] < |pieces| && pieces[idx[n]] != "" && lines[n] == pieces[idx[n]])
    && (forall n, m :: 0 <= n < m < |idx| ==> idx[n] < idx[m])
    && (forall k :: 0 <= k < |pieces| && pieces[k] != "" ==> k in idx)
  }

  /** The index map one piece further back: every index moves up by one. */
  function Shifted(idx: seq<nat>): (r: seq<nat>)
  {
    seq(|idx|, n requires 0 <= n < |idx| => idx[n] + 1)
  }

  /** The index map of the first piece: index 0 when it is non-empty. */
  function HeadIndex(pieces: seq<string>): (head: seq<nat>)
    requires pieces != []
  {
    if pieces[0] == "" then [] else [0]
  }

  /** Each line is read from the piece its index names. */
  lemma KeepsConsRead(pieces: seq<string>, lines: seq<string>, lines': seq<string>, idx': seq<nat>)
    requires pieces != [] && |idx'| == |lines'|
    requires forall n :: 0 <= n < |idx'| ==> idx'[n] < |pieces[1..]| && pieces[1..][idx'[n]] != "" && lines'[n] == pieces[1..][idx'[n]]
    requires lines == (if pieces[0] == "" then [] else [pieces[0]]) + lines'
    ensures var idx := HeadIndex(pieces) + Shifted(idx');
      |idx| == |lines| && forall n :: 0 <= n < |idx| ==> idx[n] < |pieces| && pieces[idx[n]] != "" && lines[n] == pieces[idx[n]]
  {
    var head := HeadIndex(pieces);
    var idx := head + Shifted(idx');
    forall n | 0 <= n < |idx|
      ensures idx[n] < |pieces| && pieces[idx[n]] != "" && lines[n] == pieces[idx[n]]
    {
      if n >= |head| {
        var m := n - |head|;
        assert idx[n] == idx'[m] + 1 && lines[n] == lines'[m];
        assert pieces[idx[n]] == pieces[1..][idx'[m]];
      }
    }
  }

  /** The shifted map still increases. */
  lemma KeepsConsOrder(pieces: seq<string>, idx': seq<nat>)
    requires pieces != []
    requires forall n, m :: 0 <= n < m < |idx'| ==> idx'[n] < idx'[m]
    ensures var idx := HeadIndex(pieces) + Shifted(idx');
      forall n, m :: 0 <= n < m < |idx| ==> idx[n] < idx[m]
  {
    var head := HeadIndex(pieces);
    var idx := head + Shifted(idx');
    forall n, m | 0 <= n < m < |idx| ensures idx[n] < idx[m] {
      if n >= |head| {
        assert idx[n] == idx'[n - |head|] + 1;
      }
      assert idx[m] == idx'[m - |head|] + 1;
    }
  }

  /** The shifted map still names every non-empty piece. */
  lemma KeepsConsAll(pieces: seq<string>, idx': seq<nat>)
    requires pieces != []
    requires forall k :: 0 <= k < |pieces[1..]| && pieces[1..][k] != "" ==> k in idx'
    ensures var idx := HeadIndex(pieces) + Shifted(idx');
      forall k :: 0 <= k < |pieces| && pieces[k] != "" ==> k in idx
  {
    var head := HeadIndex(pieces);
    var idx := head + Shifted(idx');
    forall k | 0 <= k < |pieces| && pieces[k] != "" ensures k in idx {
      if k == 0 {
        assert idx[0] == 0;
      } else {
        assert pieces[k] == pieces[1..][k - 1];
        var n :| 0 <= n < |idx'| && idx'[n] == k - 1;
        assert idx[|head| + n] == k;
      }
    }
  }

  /** The first piece is kept at index 0 when it is non-empty, and the map of the other
      pieces follows, shifted by one. */
  lemma KeepsCons(pieces: seq<string>, lines: seq<string>, lines': seq<string>, idx': seq<nat>)
    requires pieces != [] && KeepsNonEmpty(pieces[1..], lines', idx')
    requires lines == (if pieces[0] == "" then [] else [pieces[0]]) + lines'
    ensures KeepsNonEmpty(pieces, lines, HeadIndex(pieces) + Shifted(idx'))
  {
    KeepsConsRead(pieces, lines, lines', idx');
    KeepsConsOrder(pieces, idx');
    KeepsConsAll(pieces, idx');
  }

  /** One step of the comprehension, in terms of the stripped pieces. */
  lemma CleanLinesStep(parts: seq<string>)
    requires parts != []
    ensures var pieces := StripAll(parts);
      && pieces[1..] == StripAll(parts[1..])
      && CleanLines(parts) == (if pieces[0] == "" then [] else [pieces[0]]) + CleanLines(parts[1..])
  {
    CleanLinesFirst(parts);
  }

  /** `[line.strip() for line in parts if line.strip()]` keeps exactly the pieces that
      strip to something, each as its stripped text, in their order. */
  lemma {:induction false} CleanLinesSpec(parts: seq<string>)
    ensures exists idx: seq<nat> :: KeepsNonEmpty(StripAll(parts), CleanLines(parts), idx)
    decreases |parts|
  {
    var pieces := StripAll(parts);
    if parts == [] {
      assert KeepsNonEmpty(pieces, CleanLines(parts), []);
    } else {
      CleanLinesSpec(parts[1..]);
      var idx' :| KeepsNonEmpty(StripAll(parts[1..]), CleanLines(parts[1..]), idx');
      CleanLinesStep(parts);
      KeepsCons(pieces, CleanLines(parts), CleanLines(parts[1..]), idx');
    }
  }

  /** The lines of a text are the pieces of its collapsed form, split at line feeds,
      that strip to something, each stripped, in order. */
  lemma TokenizeSpec(text: string)
    ensures exists idx: seq<nat> :: KeepsNonEmpty(StripAll(SplitLines(Collapse(text))), Tokenize(text), idx)
  {
    var parts := SplitLines(Collapse(text));
    CleanLinesSpec(parts);
    assert Tokenize(text) == CleanLines(parts);
  }

  lemma {:induction false} JoinCollapsed(lines: seq<string>)
    requires forall k :: 0 <= k < |lines| ==> Collapsed(lines[k])
    ensures Collapsed(JoinLines(lines))
    decreases |lines|
  {
    if |lines| > 1 {
      JoinCollapsed(lines[1..]);
      var a, b := lines[0], JoinLines(lines[1..]);
      var s := a + "\n" + b;
      forall k | 0 <= k < |s|
        ensures s[k] != '\t' && (s[k] == ' ' ==> k + 1 == |s| || s[k + 1] != ' ')
      {
        if k < |a| {
          assert s[k] == a[k];
          if k + 1 < |a| { assert s[k + 1] == a[k + 1]; }
        } else if k > |a| {
          assert s[k] == b[k - |a| - 1];
          if k + 1 < |s| { assert s[k + 1] == b[k - |a|]; }
        }
      }
    }
  }

  /** Tokenizing is idempotent: re-tokenizing the `'\n'`-join of the lines gives the
      same lines. */
  lemma TokenizeIdempotent(text: string)
    ensures Tokenize(JoinLines(Tokenize(text))) == Tokenize(text)
  {
    var lines := Tokenize(text);
    var j := JoinLines(lines);
    if lines == [] {
      assert SplitLines(Collapse(j)) == [""];
      assert Strip("") == "";
    } else {
      JoinCollapsed(lines);
      CollapseFixpoint(j);
      SplitJoin(lines);
      CleanLinesFixpoint(lines);
    }
  }

  /** A line break in the text is a line boundary: the lines of `a + "\n" + b` are the
      lines of `a` followed by the lines of `b`. */
  lemma TokenizeConcat(a: string, b: string)
    ensures Tokenize(a + "\n" + b) == Tokenize(a) + Tokenize(b)
  {
    CollapseConcat(a, b);
    SplitConcat(Collapse(a), Collapse(b));
    CleanLinesConcat(SplitLines(Collapse(a)), SplitLines(Collapse(b)));
  }
}
