/**
 * The string operations the two analyzers rely on, on `string` (= seq<char>):
 * Python's `str.isspace()`, `str.strip()`, `str.split()`, the substring test
 * `t in s`, `int()` on a run of at most 4300 decimal digits, and `<` on `str`.
 */
module Text {

  /** Python's `str.isspace()`: the characters that `strip()` and `split()` treat as whitespace. */
  predicate IsSpace(c: char) {
    || ('\t' <= c <= '\r')
    || ('\U{1C}' <= c <= ' ')
    || c == '\U{85}' || c == '\U{A0}' || c == '\U{1680}'
    || ('\U{2000}' <= c <= '\U{200A}')
    || c == '\U{2028}' || c == '\U{2029}' || c == '\U{202F}' || c == '\U{205F}' || c == '\U{3000}'
  }

  predicate NotSpace(c: char) {
    !IsSpace(c)
  }

  /** The regex class `\d`, restricted to ASCII digits (the only ones tcpdump prints). */
  predicate IsDigit(c: char) {
    '0' <= c <= '9'
  }

  /** True of a string that `strip()` empties. */
  predicate IsBlank(s: string) {
    forall i :: 0 <= i < |s| ==> IsSpace(s[i])
  }

  /** Length of the longest run of characters satisfying `p` that starts at index `i`. */
  function Run(s: string, i: nat, p: char -> bool): (n: nat)
    requires i <= |s|
    ensures i + n <= |s|
    ensures forall j {:trigger p(s[j])} :: i <= j < i + n ==> p(s[j])
    ensures i + n == |s| || !p(s[i + n])
    decreases |s| - i
  {
    if i < |s| && p(s[i]) then 1 + Run(s, i + 1, p) else 0
  }

  /** Number of whitespace characters at the end of `s`. */
  function TrailingSpaces(s: string): (n: nat)
    ensures n <= |s|
    ensures forall j :: |s| - n <= j < |s| ==> IsSpace(s[j])
    ensures n == |s| || !IsSpace(s[|s| - n - 1])
  {
    if s != [] && IsSpace(s[|s| - 1]) then 1 + TrailingSpaces(s[..|s| - 1]) else 0
  }

  /** Python's `s.strip()`: `s` without its leading and trailing whitespace. */
  function Strip(s: string): (r: string)
    ensures r == [] <==> IsBlank(s)
    ensures r != [] ==> NotSpace(r[0]) && NotSpace(r[|r| - 1])
    ensures exists lo :: 0 <= lo <= |s| - |r| && r == s[lo..lo + |r|] && IsBlank(s[..lo]) && IsBlank(s[lo + |r|..])
  {
    var lo := Run(s, 0, IsSpace);
    if lo == |s| then
      assert s[..lo] == s;
      []
    else
      var hi := |s| - TrailingSpaces(s);
      assert lo < hi;
      assert !IsBlank(s) by { assert !IsSpace(s[lo]); }
      var r := s[lo..hi];
      assert r == s[lo..lo + |r|] && IsBlank(s[..lo]) && IsBlank(s[lo + |r|..]);
      r
  }

  /** A run of characters satisfying `p` that is followed by one that does not is what `Run` measures. */
  lemma {:induction false} RunExact(s: string, i: nat, n: nat, p: char -> bool)
    requires i + n <= |s|
    requires forall j :: i <= j < i + n ==> p(s[j])
    requires i + n == |s| || !p(s[i + n])
    ensures Run(s, i, p) == n
    decreases n
  {
    if n > 0 {
      RunExact(s, i + 1, n - 1, p);
    }
  }

  /** The concatenation of a sequence of strings. */
  function Flatten(ws: seq<string>): string {
    if ws == [] then [] else ws[0] + Flatten(ws[1..])
  }

  /** The non-whitespace characters of `s`, in order. */
  function NonSpaces(s: string): string {
    if s == [] then [] else (if IsSpace(s[0]) then [] else [s[0]]) + NonSpaces(s[1..])
  }

  lemma {:induction false} NonSpacesOfWord(s: string, n: nat)
    requires n <= |s|
    requires forall j :: 0 <= j < n ==> NotSpace(s[j])
    ensures NonSpaces(s) == s[..n] + NonSpaces(s[n..])
  {
    if n > 0 {
      NonSpacesOfWord(s[1..], n - 1);
      assert s[1..][n - 1..] == s[n..];
      assert s[..n] == [s[0]] + s[1..][..n - 1];
    }
  }

  /**
   * Python's `s.split()` with no argument: the maximal runs of non-whitespace
   * characters, in order. No word is empty or holds whitespace.
   */
  function Words(s: string): (ws: seq<string>)
    ensures forall k :: 0 <= k < |ws| ==> ws[k] != [] && forall j :: 0 <= j < |ws[k]| ==> NotSpace(ws[k][j])
    decreases |s|
  {
    if s == [] then []
    else if IsSpace(s[0]) then Words(s[1..])
    else
      var n := Run(s, 0, NotSpace);
      [s[..n]] + Words(s[n..])
  }

  /** The words put end to end give back `s` without its whitespace. */
  lemma {:induction false} WordsFlatten(s: string)
    ensures Flatten(Words(s)) == NonSpaces(s)
    decreases |s|
  {
    if s != [] {
      WordsFlatten(s[1..]);
      if !IsSpace(s[0]) {
        var n := Run(s, 0, NotSpace);
        WordsFlatten(s[n..]);
        NonSpacesOfWord(s, n);
        assert ([s[..n]] + Words(s[n..]))[1..] == Words(s[n..]);
      }
    }
  }

  /** Every character of every word is a character of `s`. */
  lemma {:induction false} WordsCharsFromInput(s: string)
    ensures forall k, j :: 0 <= k < |Words(s)| && 0 <= j < |Words(s)[k]| ==> Words(s)[k][j] in s
    decreases |s|
  {
    var ws := Words(s);
    if s != [] {
      if IsSpace(s[0]) {
        WordsCharsFromInput(s[1..]);
        forall k, j | 0 <= k < |ws| && 0 <= j < |ws[k]| ensures ws[k][j] in s {
          var i :| 0 <= i < |s[1..]| && s[1..][i] == ws[k][j];
          assert s[i + 1] == ws[k][j];
        }
      } else {
        var n := Run(s, 0, NotSpace);
        var rest := Words(s[n..]);
        WordsCharsFromInput(s[n..]);
        forall k, j | 0 <= k < |ws| && 0 <= j < |ws[k]| ensures ws[k][j] in s {
          if k == 0 {
            assert ws[k][j] == s[j];
          } else {
            assert ws[k] == rest[k - 1];
            var i :| 0 <= i < |s[n..]| && s[n..][i] == ws[k][j];
            assert s[n + i] == ws[k][j];
          }
        }
      }
    }
  }

  /** `split()` finds no word exactly when `strip()` would empty the string. */
  lemma {:induction false} WordsEmptyIffBlank(s: string)
    ensures Words(s) == [] <==> IsBlank(s)
    decreases |s|
  {
    if s != [] && IsSpace(s[0]) {
      WordsEmptyIffBlank(s[1..]);
      if IsBlank(s[1..]) {
        forall i | 0 <= i < |s| ensures IsSpace(s[i]) {
          if i > 0 { assert s[i] == s[1..][i - 1]; }
        }
      }
    }
  }

  /** A run of non-whitespace characters with nothing around it is one word. */
  lemma WordsOfWord(w: string)
    requires w != [] && forall j :: 0 <= j < |w| ==> NotSpace(w[j])
    ensures Words(w) == [w]
  {
    RunExact(w, 0, |w|, NotSpace);
    assert NotSpace(w[0]);
    assert w[..|w|] == w && w[|w|..] == [];
  }

  /** A word of `a` ends where `a` does when whitespace follows. */
  lemma WordRunBeforeSpace(a: string, t: string, m: nat)
    requires t != [] && IsSpace(t[0]) && m == Run(a, 0, NotSpace)
    ensures Run(a + t, 0, NotSpace) == m
  {
    forall j | 0 <= j < m ensures NotSpace((a + t)[j]) {
      assert (a + t)[j] == a[j];
    }
    if m < |a| {
      assert (a + t)[m] == a[m];
    } else {
      assert (a + t)[m] == t[0];
    }
    RunExact(a + t, 0, m, NotSpace);
  }

  /** A string that starts with a word splits into that word and the words after it. */
  lemma WordsOfWordStart(s: string, n: nat)
    requires s != [] && NotSpace(s[0]) && n == Run(s, 0, NotSpace)
    ensures Words(s) == [s[..n]] + Words(s[n..])
  {
  }

  lemma SlicesOfJoin(a: string, t: string, m: nat)
    requires 0 < m <= |a|
    ensures (a + t)[0] == a[0] && (a + t)[..m] == a[..m] && (a + t)[m..] == a[m..] + t
  {
  }

  /** The first word of `a` is the first word of `a + t`, and the words of the rest follow it. */
  lemma WordsSplitAfterWord(a: string, t: string, m: nat)
    requires t != [] && IsSpace(t[0]) && a != [] && NotSpace(a[0]) && m == Run(a, 0, NotSpace)
    requires Words(a[m..] + t) == Words(a[m..]) + Words(t[1..])
    ensures Words(a + t) == Words(a) + Words(t[1..])
  {
    WordRunBeforeSpace(a, t, m);
    SlicesOfJoin(a, t, m);
    WordsOfWordStart(a + t, m);
    WordsOfWordStart(a, m);
  }

  /** A whitespace character separates words: `split()` breaks there and only there. */
  lemma {:induction false} WordsSplitAtSpace(a: string, c: char, b: string)
    requires IsSpace(c)
    ensures Words(a + [c] + b) == Words(a) + Words(b)
    decreases |a|
  {
    var t := [c] + b;
    assert a + [c] + b == a + t && t[1..] == b;
    if a == [] {
      assert a + t == t;
    } else if IsSpace(a[0]) {
      assert (a + t)[1..] == a[1..] + [c] + b;
      WordsSplitAtSpace(a[1..], c, b);
    } else {
      var m := Run(a, 0, NotSpace);
      WordsSplitAtSpace(a[m..], c, b);
      assert a[m..] + [c] + b == a[m..] + t;
      WordsSplitAfterWord(a, t, m);
    }
  }

  /** `t` occurs in `s` starting at index `i`. */
  predicate IsPrefixAt(s: string, i: nat, t: string) {
    i + |t| <= |s| && s[i..i + |t|] == t
  }

  /** Python's `t in s` on strings: `t` occurs somewhere in `s`. */
  predicate Contains(s: string, t: string) {
    exists i: nat :: i <= |s| - |t| && IsPrefixAt(s, i, t)
  }

  /** The value of an ASCII digit. */
  function DigitValue(c: char): (v: nat)
    requires IsDigit(c)
    ensures v < 10
  {
    (c as int) - ('0' as int)
  }

  predicate AllDigits(ds: string) {
    forall j :: 0 <= j < |ds| ==> IsDigit(ds[j])
  }

  /** Python's `int(ds)` on a run of at most 4300 decimal digits (leading zeros allowed). */
  function DecimalValue(ds: string): nat
    requires AllDigits(ds)
  {
    if ds == [] then 0 else 10 * DecimalValue(ds[..|ds| - 1]) + DigitValue(ds[|ds| - 1])
  }

  /** Python's `a < b` on `str`: code-point-wise lexicographic order, a proper prefix first. */
  predicate LexLess(a: string, b: string)
    decreases |a|
  {
    if a == [] then b != []
    else if b == [] then false
    else if a[0] != b[0] then a[0] < b[0]
    else LexLess(a[1..], b[1..])
  }

  lemma {:induction false} LexLessIrreflexive(a: string)
    ensures !LexLess(a, a)
    decreases |a|
  {
    if a != [] {
      LexLessIrreflexive(a[1..]);
    }
  }

  lemma {:induction false} LexLessTransitive(a: string, b: string, c: string)
    requires LexLess(a, b) && LexLess(b, c)
    ensures LexLess(a, c)
    decreases |a|
  {
    if a != [] && b != [] && c != [] && a[0] == b[0] && b[0] == c[0] {
      LexLessTransitive(a[1..], b[1..], c[1..]);
    }
  }

  /** Any two different strings are ordered one way or the other: `sort()` is total on `str`. */
  lemma {:induction false} LexLessTotal(a: string, b: string)
    ensures a == b || LexLess(a, b) || LexLess(b, a)
    decreases |a|
  {
    if a != [] && b != [] && a[0] == b[0] {
      LexLessTotal(a[1..], b[1..]);
      if a[1..] == b[1..] {
        assert a == [a[0]] + a[1..] && b == [b[0]] + b[1..];
      }
    }
  }

  lemma LexLessAsymmetric(a: string, b: string)
    requires LexLess(a, b)
    ensures !LexLess(b, a)
  {
    if LexLess(b, a) {
      LexLessTransitive(a, b, a);
      LexLessIrreflexive(a);
    }
  }
}
