/**
 * Character classes, stripping and line splitting as Python's `str` type and
 * text-mode files provide them to the mod manager.
 *
 * A file's contents are a `string`; iterating a text file (`for line in f`,
 * `readlines()`) is `SplitLines`, and `writelines` is `Join`.
 */
module Text {

  /** Python's `str.isspace()`, which is also the class `\s` matches in a `str` pattern. */
  predicate IsSpace(c: char) {
    c == ' ' || ('\t' <= c <= '\r') || ('\U{1C}' <= c <= '\U{1F}')
    || c == '\U{85}' || c == '\U{A0}' || c == '\U{1680}'
    || ('\U{2000}' <= c <= '\U{200A}') || c == '\U{2028}' || c == '\U{2029}'
    || c == '\U{202F}' || c == '\U{205F}' || c == '\U{3000}'
  }

  /** The ASCII decimal digits. */
  predicate IsDigit(c: char) {
    '0' <= c <= '9'
  }

  predicate AllDigits(s: string) {
    forall i | 0 <= i < |s| :: IsDigit(s[i])
  }

  predicate StartsWith(s: string, prefix: string) {
    |prefix| <= |s| && s[..|prefix|] == prefix
  }

  predicate EndsWith(s: string, suffix: string) {
    |suffix| <= |s| && s[|s| - |suffix|..] == suffix
  }

  /** Length of the longest all-whitespace prefix of `s`. */
  function LeadingSpaces(s: string): (n: nat)
    ensures n <= |s|
    ensures n == |s| || !IsSpace(s[n])
  {
    if |s| > 0 && IsSpace(s[0]) then 1 + LeadingSpaces(s[1..]) else 0
  }

  /** Length of the longest all-whitespace suffix of `s`. */
  function TrailingSpaces(s: string): (n: nat)
    ensures n <= |s|
    ensures n == |s| || !IsSpace(s[|s| - 1 - n])
  {
    if |s| > 0 && IsSpace(s[|s| - 1]) then 1 + TrailingSpaces(s[..|s| - 1]) else 0
  }

  /** Length of the longest all-digit prefix of `s`. */
  function LeadingDigits(s: string): (n: nat)
    ensures n <= |s|
    ensures AllDigits(s[..n])
    ensures n == |s| || !IsDigit(s[n])
  {
    if |s| > 0 && IsDigit(s[0]) then 1 + LeadingDigits(s[1..]) else 0
  }

  /** Index of the first `'\n'` in `s`, or `|s|` when there is none. */
  function FirstNewline(s: string): (n: nat)
    ensures n <= |s|
    ensures '\n' !in s[..n]
    ensures n == |s| || s[n] == '\n'
  {
    if |s| == 0 then 0
    else if s[0] == '\n' then 0
    else
      assert s[..1 + FirstNewline(s[1..])] == [s[0]] + s[1..][..FirstNewline(s[1..])];
      1 + FirstNewline(s[1..])
  }

  /** Python's `s.lstrip()`. */
  function TrimStart(s: string): string {
    s[LeadingSpaces(s)..]
  }

  /** Python's `s.rstrip()`. */
  function TrimEnd(s: string): string {
    s[..|s| - TrailingSpaces(s)]
  }

  /** Python's `s.strip()`. */
  function Strip(s: string): string {
    TrimEnd(TrimStart(s))
  }

  /** What `(.+)` captures at the start of `s`: everything before the first newline. */
  function UpToNewline(s: string): string {
    s[..FirstNewline(s)]
  }

  /** Neither end of `s` is whitespace: `s.strip()` would leave it alone. */
  predicate IsStripped(s: string) {
    s == [] || (!IsSpace(s[0]) && !IsSpace(s[|s| - 1]))
  }

  lemma StripIsStripped(s: string)
    ensures IsStripped(Strip(s))
    ensures |Strip(s)| <= |s|
  {
    var t := TrimStart(s);
    var r := Strip(s);
    if r != [] {
      assert r[0] == t[0];
      assert r[|r| - 1] == t[|t| - 1 - TrailingSpaces(t)];
    }
  }

  lemma StrippedIsFixed(s: string)
    requires IsStripped(s)
    ensures TrimStart(s) == s && TrimEnd(s) == s && Strip(s) == s
  {
  }

  /** The result of stripping is a slice of its input, so it holds no character the input lacks. */
  lemma StripIsSlice(s: string)
    ensures exists i, j | 0 <= i <= j <= |s| :: Strip(s) == s[i..j]
  {
    var i := LeadingSpaces(s);
    var j := |s| - TrailingSpaces(s[i..]);
    assert Strip(s) == s[i..j];
  }

  /**
   * The lines Python yields when iterating a text file with contents `s`:
   * every line keeps its terminating `'\n'`, and a last line without one is
   * yielded only when it is not empty.
   */
  function SplitLines(s: string): seq<string>
    decreases |s|
  {
    if s == [] then []
    else
      var n := FirstNewline(s);
      if n == |s| then [s] else [s[..n + 1]] + SplitLines(s[n + 1..])
  }

  /** What `writelines` puts in a file: the lines one after the other. */
  function Join(lines: seq<string>): string {
    if lines == [] then [] else lines[0] + Join(lines[1..])
  }

  /** A line as a file yields it: not empty, and `'\n'` at most as its last character. */
  predicate IsLine(l: string) {
    l != [] && '\n' !in l[..|l| - 1]
  }

  /** A line that ends with its `'\n'`. */
  predicate IsFullLine(l: string) {
    IsLine(l) && l[|l| - 1] == '\n'
  }

  /** A sequence of lines as iterating one file yields it: only the last may lack its `'\n'`. */
  predicate WellFormedLines(lines: seq<string>) {
    (forall i | 0 <= i < |lines| :: IsLine(lines[i]))
    && (forall i | 0 <= i < |lines| - 1 :: IsFullLine(lines[i]))
  }

  lemma JoinAppend(a: seq<string>, b: seq<string>)
    ensures Join(a + b) == Join(a) + Join(b)
  {
    if a != [] {
      assert (a + b)[0] == a[0] && (a + b)[1..] == a[1..] + b;
      JoinAppend(a[1..], b);
      assert Join(a + b) == a[0] + (Join(a[1..]) + Join(b));
    } else {
      assert a + b == b;
    }
  }

  /** Writing back the lines read from a file reproduces the file exactly. */
  lemma {:induction false} JoinSplitLines(s: string)
    ensures Join(SplitLines(s)) == s
    decreases |s|
  {
    if s != [] {
      var n := FirstNewline(s);
      if n < |s| {
        JoinSplitLines(s[n + 1..]);
        assert s == s[..n + 1] + s[n + 1..];
      }
    }
  }

  /** Every sequence a file yields is well formed. */
  lemma {:induction false} SplitLinesWellFormed(s: string)
    ensures WellFormedLines(SplitLines(s))
    decreases |s|
  {
    if s != [] {
      var n := FirstNewline(s);
      if n < |s| {
        var head := s[..n + 1];
        assert head[..|head| - 1] == s[..n];
        SplitLinesWellFormed(s[n + 1..]);
        ConsWellFormed(head, SplitLines(s[n + 1..]));
      } else {
        assert s[..|s| - 1] == s[..n][..|s| - 1];
      }
    }
  }

  lemma ConsWellFormed(head: string, rest: seq<string>)
    requires IsFullLine(head) && WellFormedLines(rest)
    ensures WellFormedLines([head] + rest)
  {
    var lines := [head] + rest;
    assert forall i | 1 <= i < |lines| :: lines[i] == rest[i - 1];
  }

  /** Reading back a file written from well-formed lines yields the same lines. */
  lemma {:induction false} SplitLinesJoin(lines: seq<string>)
    requires WellFormedLines(lines)
    ensures SplitLines(Join(lines)) == lines
  {
    if lines != [] {
      var l := lines[0];
      var rest := lines[1..];
      assert WellFormedLines(rest) by {
        forall i | 0 <= i < |rest| ensures IsLine(rest[i]) { assert rest[i] == lines[i + 1]; }
        forall i | 0 <= i < |rest| - 1 ensures IsFullLine(rest[i]) { assert rest[i] == lines[i + 1]; }
      }
      assert IsLine(lines[0]);
      var s := Join(lines);
      assert s == l + Join(rest);
      assert s[..|l| - 1] == l[..|l| - 1];
      if rest == [] {
        assert s == l;
        if l[|l| - 1] == '\n' {
          assert FirstNewline(s) == |l| - 1;
          assert s[..|l|] == l;
          assert s[|l|..] == [];
        } else {
          assert '\n' !in s;
          assert FirstNewline(s) == |s|;
        }
      } else {
        assert IsFullLine(lines[0]);
        assert s[|l| - 1] == '\n';
        assert FirstNewline(s) == |l| - 1;
        assert s[..|l|] == l;
        assert s[|l|..] == Join(rest);
        SplitLinesJoin(rest);
      }
    }
  }

  lemma LeadingSpacesConcat(p: string, s: string)
    requires forall i | 0 <= i < |p| :: IsSpace(p[i])
    ensures LeadingSpaces(p + s) == |p| + LeadingSpaces(s)
    ensures TrimStart(p + s) == TrimStart(s)
  {
    if p != [] {
      assert (p + s)[1..] == p[1..] + s;
      LeadingSpacesConcat(p[1..], s);
    } else {
      assert p + s == s;
    }
  }

  lemma TrimStartNonSpace(s: string)
    requires s == [] || !IsSpace(s[0])
    ensures TrimStart(s) == s
  {
  }

  lemma TrailingSpacesConcat(s: string, p: string)
    requires forall i | 0 <= i < |p| :: IsSpace(p[i])
    ensures TrailingSpaces(s + p) == TrailingSpaces(s) + |p|
    ensures TrimEnd(s + p) == TrimEnd(s)
  {
    if p != [] {
      assert (s + p)[..|s + p| - 1] == s + p[..|p| - 1];
      TrailingSpacesConcat(s, p[..|p| - 1]);
    } else {
      assert s + p == s;
    }
  }

  lemma LeadingDigitsConcat(d: string, s: string)
    requires AllDigits(d)
    ensures LeadingDigits(d + s) == |d| + LeadingDigits(s)
  {
    if d != [] {
      assert (d + s)[1..] == d[1..] + s;
      LeadingDigitsConcat(d[1..], s);
    } else {
      assert d + s == s;
    }
  }

  lemma FirstNewlineConcat(v: string, s: string)
    requires '\n' !in v
    ensures FirstNewline(v + s) == |v| + FirstNewline(s)
    ensures UpToNewline(v + s) == v + UpToNewline(s)
  {
    if v != [] {
      assert (v + s)[1..] == v[1..] + s;
      FirstNewlineConcat(v[1..], s);
    } else {
      assert v + s == s;
    }
  }

  /** The decimal representation of `n`, as Python's `str(n)` and f-strings write it. */
  function DecimalString(n: nat): (r: string)
    ensures r != [] && AllDigits(r)
    ensures r[0] == '0' ==> n == 0
  {
    var last := ['0' + (n % 10) as char];
    if n < 10 then last else DecimalString(n / 10) + last
  }
}
