/**
 * The three line patterns the mod manager recognises in a profile and in the
 * portable list, written out as functions instead of regular expressions:
 *
 *   entry prefix   `^\s*active_mods\[\d+\]`            (_replace_mod_block)
 *   entry          `^\s*active_mods\[\d+\]:\s*(.+)`    (_get_mods_from_profile)
 *   list entry     `active_mods\[\d+\]:\s*(.+)`         (_load_mods_from_list_file)
 *   count line     `^\s*active_mods:\s*\d+`             (_replace_mod_block)
 *
 * and the two line formats it writes.
 */
module SiiLines {
  import opened Text
  import opened Outcome

  const EntryKey: string := "active_mods["
  const CountKey: string := "active_mods:"

  /** A payload as the parsers return it: stripped, and on one line. */
  predicate ValidPayload(v: string) {
    IsStripped(v) && '\n' !in v
  }

  /**
   * When `s` begins with `active_mods[`, one or more digits and `]`, what
   * follows the `]`.
   */
  function AfterIndex(s: string): (r: Option<string>)
    ensures r.Some? ==>
      var k := |s| - |r.value|;
      && k >= |EntryKey| + 2
      && StartsWith(s, EntryKey)
      && AllDigits(s[|EntryKey|..k - 1])
      && s[k - 1] == ']'
      && r.value == s[k..]
  {
    if !StartsWith(s, EntryKey) then None
    else
      var rest := s[|EntryKey|..];
      var d := LeadingDigits(rest);
      if d == 0 || d == |rest| || rest[d] != ']' then None
      else
        assert s[|EntryKey|..|EntryKey| + d] == rest[..d];
        Some(rest[d + 1..])
  }

  /**
   * What `\s*(.+)` followed by `.strip()` yields at the start of `rest`. The
   * group needs one character other than a newline; when `rest` holds nothing
   * but whitespace the backtracking match captures whitespace, which strips
   * to the empty string.
   */
  function Capture(rest: string): (r: Option<string>)
    ensures r.Some? ==> ValidPayload(r.value)
    ensures r.None? <==> forall i | 0 <= i < |rest| :: rest[i] == '\n'
  {
    if forall i | 0 <= i < |rest| :: rest[i] == '\n' then None
    else
      var line := UpToNewline(TrimStart(rest));
      StripIsStripped(line);
      StripIsSlice(line);
      Some(Strip(line))
  }

  /** `active_mods\[\d+\]:\s*(.+)` matched at the start of `s`: the stripped payload. */
  function PayloadAfterIndex(s: string): (r: Option<string>)
    ensures r.Some? ==> ValidPayload(r.value) && AfterIndex(s).Some?
  {
    match AfterIndex(s)
    case None => None
    case Some(t) => if |t| > 0 && t[0] == ':' then Capture(t[1..]) else None
  }

  /** Matches `^\s*active_mods\[\d+\]`: a mod entry, with or without a payload. */
  predicate IsEntryLine(line: string) {
    AfterIndex(TrimStart(line)).Some?
  }

  /** Matches `^\s*active_mods:\s*\d+`: the count line of the mod block. */
  predicate IsCountLine(line: string) {
    var s := TrimStart(line);
    && StartsWith(s, CountKey)
    && var t := TrimStart(s[|CountKey|..]);
    && |t| > 0 && IsDigit(t[0])
  }

  /** The payload `_get_mods_from_profile` takes from one profile line, if the line matches. */
  function ProfileMatch(line: string): (r: Option<string>)
    ensures r.Some? ==> ValidPayload(r.value) && IsEntryLine(line)
  {
    PayloadAfterIndex(TrimStart(line))
  }

  /** A stripped list-file line that `_load_mods_from_list_file` skips: blank, or a `#` or `::` comment. */
  predicate IsSkipped(s: string) {
    s == [] || StartsWith(s, "#") || StartsWith(s, "::")
  }

  /** The payload `_load_mods_from_list_file` takes from one list-file line, if any. */
  function ListMatch(line: string): (r: Option<string>)
    ensures r.Some? ==> ValidPayload(r.value) && !IsSkipped(Strip(line))
  {
    var s := Strip(line);
    if IsSkipped(s) then None else PayloadAfterIndex(s)
  }

  /** The entry line both parsers build for the `i`-th mod (without line terminator). */
  function FormatEntry(i: nat, payload: string): string {
    " " + EntryText(DecimalString(i), payload)
  }

  /** An entry line after its leading space, for the index written as the digits `d`. */
  function EntryText(d: string, payload: string): string {
    EntryKey + d + "]" + ": " + payload
  }

  /** The count line `_replace_mod_block` writes for a block of `n` mods. */
  function CountText(n: nat): string {
    " " + CountKey + " " + DecimalString(n) + "\n"
  }

  lemma AfterIndexOf(d: string, t: string)
    requires d != [] && AllDigits(d)
    ensures AfterIndex(EntryKey + d + "]" + t) == Some(t)
  {
    var s := EntryKey + d + "]" + t;
    assert s[..|EntryKey|] == EntryKey;
    var rest := s[|EntryKey|..];
    assert rest == d + ("]" + t);
    LeadingDigitsConcat(d, "]" + t);
    assert ("]" + t)[0] == ']';
    assert rest[|d| + 1..] == t;
  }

  /** A space followed by a non-space character: stripping the start drops the space. */
  lemma TrimOneSpace(s: string)
    requires s != [] && !IsSpace(s[0])
    ensures TrimStart(" " + s) == s
  {
    LeadingSpacesConcat(" ", s);
    TrimStartNonSpace(s);
  }

  lemma CaptureLine(v: string)
    requires ValidPayload(v)
    ensures Capture(" " + v + "\n") == Some(v)
  {
    var rest := " " + v + "\n";
    assert rest[0] != '\n';
    if v == [] {
      assert rest == " \n" + "";
      LeadingSpacesConcat(" \n", "");
    } else {
      assert rest == " " + (v + "\n");
      TrimOneSpace(v + "\n");
      FirstNewlineConcat(v, "\n");
      assert UpToNewline("\n") == [];
      StrippedIsFixed(v);
    }
  }

  lemma CaptureBare(v: string)
    requires ValidPayload(v) && v != []
    ensures Capture(" " + v) == Some(v)
  {
    var rest := " " + v;
    assert rest[0] != '\n';
    TrimOneSpace(v);
    FirstNewlineConcat(v, "");
    assert v + "" == v;
    StrippedIsFixed(v);
  }

  /** The entry text starts with `active_mods[`, its digits and `]`, whatever follows it. */
  lemma EntryTextIndex(d: string, v: string, tail: string)
    requires d != [] && AllDigits(d)
    ensures AfterIndex(EntryText(d, v) + tail) == Some(": " + v + tail)
  {
    assert EntryText(d, v) + tail == EntryKey + d + "]" + (": " + v + tail);
    AfterIndexOf(d, ": " + v + tail);
  }

  /** The entry text begins with a letter and is not the count key. */
  lemma EntryTextStart(d: string, v: string, tail: string)
    ensures (EntryText(d, v) + tail)[0] == 'a'
    ensures !StartsWith(EntryText(d, v) + tail, CountKey)
  {
    var s := EntryText(d, v) + tail;
    assert s[|CountKey| - 1] == '[';
  }

  /** The leading space of an entry line is all that `\s*` skips. */
  lemma EntryLineTrim(d: string, v: string)
    ensures TrimStart(" " + EntryText(d, v) + "\n") == EntryText(d, v) + "\n"
  {
    EntryTextStart(d, v, "\n");
    assert " " + EntryText(d, v) + "\n" == " " + (EntryText(d, v) + "\n");
    TrimOneSpace(EntryText(d, v) + "\n");
  }

  lemma EntryBodyPayload(d: string, v: string)
    requires d != [] && AllDigits(d) && ValidPayload(v)
    ensures AfterIndex(EntryText(d, v) + "\n").Some?
    ensures PayloadAfterIndex(EntryText(d, v) + "\n") == Some(v)
  {
    EntryTextIndex(d, v, "\n");
    var t := ": " + v + "\n";
    assert t[1..] == " " + v + "\n";
    CaptureLine(v);
  }

  /** An entry line the parsers format parses back, in a profile, to its payload. */
  lemma FormatEntryParses(i: nat, v: string)
    requires ValidPayload(v)
    ensures ProfileMatch(FormatEntry(i, v) + "\n") == Some(v)
    ensures IsEntryLine(FormatEntry(i, v) + "\n")
    ensures !IsCountLine(FormatEntry(i, v) + "\n")
  {
    var d := DecimalString(i);
    EntryLineTrim(d, v);
    EntryBodyPayload(d, v);
    EntryTextStart(d, v, "\n");
  }

  /** A list-file line is stripped down to its text between one leading space and trailing whitespace. */
  lemma StripPadded(core: string, tail: string)
    requires core != [] && IsStripped(core)
    requires forall i | 0 <= i < |tail| :: IsSpace(tail[i])
    ensures Strip(" " + core + tail) == core
  {
    assert " " + core + tail == " " + (core + tail);
    TrimOneSpace(core + tail);
    TrailingSpacesConcat(core, tail);
    StrippedIsFixed(core);
  }

  /**
   * The same line, written to the list file and read back, yields its payload
   * when the payload is not empty, and nothing when it is.
   */
  lemma FormatEntryReloads(i: nat, v: string)
    requires ValidPayload(v)
    ensures ListMatch(FormatEntry(i, v) + "\n") == if v == [] then None else Some(v)
  {
    if v == [] { ReloadEmpty(DecimalString(i)); } else { ReloadPayload(DecimalString(i), v); }
  }

  lemma StripEmptyEntry(d: string)
    ensures Strip(" " + EntryText(d, "") + "\n") == EntryKey + d + "]" + ":"
  {
    var core := EntryKey + d + "]" + ":";
    assert " " + EntryText(d, "") + "\n" == " " + core + " \n";
    assert core[0] == 'a';
    StripPadded(core, " \n");
  }

  lemma ReloadEmpty(d: string)
    requires d != [] && AllDigits(d)
    ensures ListMatch(" " + EntryText(d, "") + "\n") == None
  {
    var core := EntryKey + d + "]" + ":";
    StripEmptyEntry(d);
    assert core[0] == 'a';
    AfterIndexOf(d, ":");
  }

  lemma StripEntry(d: string, v: string)
    requires ValidPayload(v) && v != []
    ensures Strip(" " + EntryText(d, v) + "\n") == EntryText(d, v)
  {
    var core := EntryText(d, v);
    EntryTextStart(d, v, []);
    assert core + [] == core;
    assert core[|core| - 1] == v[|v| - 1];
    StripPadded(core, "\n");
  }

  lemma EntryTextPayload(d: string, v: string)
    requires d != [] && AllDigits(d)
    requires ValidPayload(v) && v != []
    ensures PayloadAfterIndex(EntryText(d, v)) == Some(v)
  {
    EntryTextIndex(d, v, []);
    assert EntryText(d, v) + [] == EntryText(d, v);
    assert (": " + v + [])[1..] == " " + v;
    CaptureBare(v);
  }

  lemma ReloadPayload(d: string, v: string)
    requires d != [] && AllDigits(d)
    requires ValidPayload(v) && v != []
    ensures ListMatch(" " + EntryText(d, v) + "\n") == Some(v)
  {
    StripEntry(d, v);
    EntryTextNotSkipped(d, v);
    EntryTextPayload(d, v);
    ListMatchStripped(" " + EntryText(d, v) + "\n", EntryText(d, v));
  }

  lemma EntryTextNotSkipped(d: string, v: string)
    ensures !IsSkipped(EntryText(d, v))
  {
    EntryTextStart(d, v, []);
    assert EntryText(d, v) + [] == EntryText(d, v);
  }

  /** The list loader looks only at the stripped line. */
  lemma ListMatchStripped(line: string, core: string)
    requires Strip(line) == core && !IsSkipped(core)
    ensures ListMatch(line) == PayloadAfterIndex(core)
  {
  }

  /** The count line the rewriter writes is a count line and not an entry. */
  lemma CountTextIsCount(n: nat)
    ensures IsCountLine(CountText(n))
    ensures !IsEntryLine(CountText(n))
    ensures ProfileMatch(CountText(n)).None?
  {
    var line := CountText(n);
    var d := DecimalString(n);
    var body := CountKey + " " + d + "\n";
    assert line == " " + body;
    assert body[0] == 'a';
    TrimOneSpace(body);
    assert body[..|CountKey|] == CountKey;
    var t := body[|CountKey|..];
    assert t == " " + (d + "\n");
    assert !IsSpace(d[0]);
    TrimOneSpace(d + "\n");
    assert body[|EntryKey| - 1] == ':';
  }

  /** The count line ends with its newline and holds no other. */
  lemma CountTextIsFull(n: nat)
    ensures IsFullLine(CountText(n))
  {
    var d := DecimalString(n);
    assert CountText(n)[..|CountText(n)| - 1] == " " + CountKey + " " + d;
    assert forall k | 0 <= k < |d| :: d[k] != '\n' by {
      forall k | 0 <= k < |d| ensures d[k] != '\n' { assert IsDigit(d[k]); }
    }
  }

  /** No line is both an entry and the count line. */
  lemma EntryIsNotCount(line: string)
    ensures !(IsEntryLine(line) && IsCountLine(line))
  {
    var s := TrimStart(line);
    if IsEntryLine(line) {
      assert s[|EntryKey| - 1] == '[';
    }
  }
}
