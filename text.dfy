/** Character classes and small string utilities shared by the transcript parser.

    Python's `\d`, `\s` and `str.strip()` know the whole of Unicode; this model is
    restricted to ASCII: a digit is '0'..'9', and whitespace is the set of ASCII
    characters for which `str.isspace()` holds. */
module Text {

  datatype Option<T> = None | Some(value: T)

  /** `[A-Z]` */
  predicate IsUpper(c: char) { 'A' <= c <= 'Z' }

  /** `[A-Za-z]` */
  predicate IsLetter(c: char) { 'A' <= c <= 'Z' || 'a' <= c <= 'z' }

  /** `\d` */
  predicate IsDigit(c: char) { '0' <= c <= '9' }

  /** `[ \t]`, the class whose runs the whitespace collapse replaces by one space */
  predicate IsBlank(c: char) { c == ' ' || c == '\t' }

  /** `\s`, and what `str.strip()` removes: space, tab, line feed, vertical tab,
      form feed, carriage return, and the four separators 0x1C..0x1F. */
  predicate IsSpace(c: char) { c == ' ' || '\t' <= c <= '\r' || '\U{1C}' <= c <= '\U{1F}' }

  lemma ConcatAssoc<T>(a: seq<T>, b: seq<T>, c: seq<T>)
    ensures a + (b + c) == (a + b) + c
  {
  }

  function Min(a: int, b: int): (m: int) { if a <= b then a else b }

  /** Length of the longest run of characters satisfying `p` that starts at index `i`. */
  function Run(s: string, i: nat, p: char -> bool): (n: nat)
    requires i <= |s|
    ensures i + n <= |s|
    ensures forall k :: i <= k < i + n ==> p(s[k])
    ensures i + n == |s| || !p(s[i + n])
    decreases |s| - i
  {
    if i < |s| && p(s[i]) then 1 + Run(s, i + 1, p) else 0
  }

  /** Length of the longest run of characters satisfying `p` that ends just before index `j`. */
  function RunBack(s: string, j: nat, p: char -> bool): (n: nat)
    requires j <= |s|
    ensures n <= j
    ensures forall k :: j - n <= k < j ==> p(s[k])
    ensures n == j || !p(s[j - n - 1])
  {
    if j > 0 && p(s[j - 1]) then 1 + RunBack(s, j - 1, p) else 0
  }

  /** A run is determined by where it stops: whatever satisfies `p` on [i, i + n)
      and fails it at i + n (or meets the end) is the run. */
  lemma RunIs(s: string, i: nat, p: char -> bool, n: nat)
    requires i + n <= |s|
    requires forall k :: i <= k < i + n ==> p(s[k])
    requires i + n == |s| || !p(s[i + n])
    ensures Run(s, i, p) == n
  {
  }

  /** A run is at least as long as any stretch of characters satisfying `p`. */
  lemma RunAtLeast(s: string, i: nat, p: char -> bool, n: nat)
    requires i + n <= |s|
    requires forall k :: i <= k < i + n ==> p(s[k])
    ensures Run(s, i, p) >= n
  {
  }

  lemma RunBackIs(s: string, j: nat, p: char -> bool, n: nat)
    requires n <= j <= |s|
    requires forall k :: j - n <= k < j ==> p(s[k])
    requires n == j || !p(s[j - n - 1])
    ensures RunBack(s, j, p) == n
  {
  }

  lemma SliceOfSlice<T>(s: seq<T>, i: nat, j: nat, q: nat, r: nat)
    requires i <= j <= |s| && q <= r <= j - i
    ensures s[i..j][q..r] == s[i + q..i + r]
  {
    forall k | 0 <= k < r - q ensures s[i..j][q..r][k] == s[i + q..i + r][k] {
      assert s[i..j][q..r][k] == s[i..j][q + k];
    }
  }

  /** Everything before index i and from index j on is whitespace: `s[i..j]` is what
      stripping can leave of `s`. */
  predicate SpacesAround(s: string, i: nat, j: nat) {
    && i <= j <= |s|
    && (forall k :: 0 <= k < i ==> IsSpace(s[k]))
    && (forall k :: j <= k < |s| ==> IsSpace(s[k]))
  }

  /** The value of a decimal digit; non-digits, which never reach it, count as zero. */
  function DigitValue(c: char): (d: nat)
    ensures d < 10
  {
    if IsDigit(c) then c as int - '0' as int else 0
  }

  function DigitChar(d: nat): (c: char)
    requires d < 10
    ensures IsDigit(c) && DigitValue(c) == d
  {
    ('0' as int + d) as char
  }

  /** `int(ds)` for a string of decimal digits (leading zeros allowed, "" is 0). */
  function DigitsValue(ds: string): (v: nat)
  {
    if ds == [] then 0 else DigitsValue(ds[..|ds| - 1]) * 10 + DigitValue(ds[|ds| - 1])
  }

  /** `str(n)`: decimal digits, no leading zero. */
  function NatToString(n: nat): (r: string)
    ensures |r| >= 1
    ensures forall k :: 0 <= k < |r| ==> IsDigit(r[k])
    ensures r[0] == '0' ==> r == "0"
  {
    if n < 10 then [DigitChar(n)] else NatToString(n / 10) + [DigitChar(n % 10)]
  }

  /** `int(str(n)) == n` */
  lemma {:induction false} NatToStringRoundTrip(n: nat)
    ensures DigitsValue(NatToString(n)) == n
  {
    var r := NatToString(n);
    if n >= 10 {
      NatToStringRoundTrip(n / 10);
      assert r[..|r| - 1] == NatToString(n / 10);
    } else {
      assert r[..|r| - 1] == [];
    }
  }
}
