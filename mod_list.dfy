/**
 * The two parsers that collect the ordered mod list: `_get_mods_from_profile`
 * over the lines of a plaintext profile, and `_load_mods_from_list_file` over
 * the lines of the portable `list.txt`. Both renumber what they find 0..N-1
 * in the order they meet it, whatever index the line declared.
 */
module ModList {
  import opened Text
  import opened Outcome
  import opened SiiLines

  /**
   * The payloads a line-by-line parser collects when `parse` says what each
   * line yields: one per matching line, in file order.
   */
  function Collect(parse: string -> Option<string>, lines: seq<string>): (ps: seq<string>)
    ensures |ps| <= |lines|
  {
    if lines == [] then []
    else
      var init := Collect(parse, lines[..|lines| - 1]);
      match parse(lines[|lines| - 1])
      case Some(v) => init + [v]
      case None => init
  }

  /** The payloads `_get_mods_from_profile` collects. */
  function ProfilePayloads(lines: seq<string>): (ps: seq<string>)
    ensures forall k | 0 <= k < |ps| :: ValidPayload(ps[k])
  {
    CollectValid(ProfileMatch, lines);
    Collect(ProfileMatch, lines)
  }

  /** The payloads `_load_mods_from_list_file` collects. */
  function ListPayloads(lines: seq<string>): (ps: seq<string>)
    ensures forall k | 0 <= k < |ps| :: ValidPayload(ps[k])
  {
    CollectValid(ListMatch, lines);
    Collect(ListMatch, lines)
  }

  /** A parser whose every match is a valid payload collects only valid payloads. */
  lemma {:induction false} CollectValid(parse: string -> Option<string>, lines: seq<string>)
    requires forall l :: parse(l).Some? ==> ValidPayload(parse(l).value)
    ensures forall k | 0 <= k < |Collect(parse, lines)| :: ValidPayload(Collect(parse, lines)[k])
  {
    if lines != [] {
      CollectValid(parse, lines[..|lines| - 1]);
    }
  }

  /** The mod lines both parsers return for the payloads `ps`, numbered by position. */
  function Render(ps: seq<string>): seq<string> {
    seq(|ps|, i requires 0 <= i < |ps| => FormatEntry(i, ps[i]))
  }

  /** Each line with `"\n"` appended, as `action_extract` and `_replace_mod_block` write mod lines. */
  function WithNewlines(mods: seq<string>): seq<string> {
    seq(|mods|, i requires 0 <= i < |mods| => mods[i] + "\n")
  }

  /** The contents `action_extract` writes to `list.txt` for the extracted mod lines. */
  function ListFileText(mods: seq<string>): string {
    Join(WithNewlines(mods))
  }

  lemma CollectSnoc(parse: string -> Option<string>, lines: seq<string>, i: nat)
    requires i < |lines|
    ensures Collect(parse, lines[..i + 1]) ==
      match parse(lines[i])
      case Some(v) => Collect(parse, lines[..i]) + [v]
      case None => Collect(parse, lines[..i])
  {
    assert lines[..i + 1][..i] == lines[..i];
  }

  lemma RenderSnoc(ps: seq<string>, v: string)
    ensures Render(ps + [v]) == Render(ps) + [FormatEntry(|ps|, v)]
  {
  }

  /**
   * `_get_mods_from_profile` on the profile's lines: the renumbered mod lines,
   * or `no_mods_found` when no line matches.
   */
  method GetModsFromProfile(lines: seq<string>) returns (r: Result<seq<string>>)
    ensures r.Fatal? <==> ProfilePayloads(lines) == []
    ensures r.Fatal? ==> r.reason == NoModsFound
    ensures r.Ok? ==> r.value == Render(ProfilePayloads(lines))
  {
    var mods: seq<string> := [];
    for i := 0 to |lines|
      invariant mods == Render(ProfilePayloads(lines[..i]))
    {
      CollectSnoc(ProfileMatch, lines, i);
      var m := ProfileMatch(lines[i]);
      if m.Some? {
        RenderSnoc(ProfilePayloads(lines[..i]), m.value);
        mods := mods + [FormatEntry(|mods|, m.value)];
      }
    }
    assert lines[..|lines|] == lines;
    if mods == [] {
      return Fatal(NoModsFound);
    }
    return Ok(mods);
  }

  /**
   * `_load_mods_from_list_file` on the lines of `list.txt`: blank and comment
   * lines are skipped, other lines that do not match are ignored, and the
   * matches are renumbered; `no_mods_found` when nothing matches.
   */
  method LoadModsFromListFile(lines: seq<string>) returns (r: Result<seq<string>>)
    ensures r.Fatal? <==> ListPayloads(lines) == []
    ensures r.Fatal? ==> r.reason == NoModsFound
    ensures r.Ok? ==> r.value == Render(ListPayloads(lines))
  {
    var mods: seq<string> := [];
    for i := 0 to |lines|
      invariant mods == Render(ListPayloads(lines[..i]))
    {
      CollectSnoc(ListMatch, lines, i);
      var line := Strip(lines[i]);
      if IsSkipped(line) {
        continue;
      }
      var m := PayloadAfterIndex(line);
      if m.Some? {
        RenderSnoc(ListPayloads(lines[..i]), m.value);
        mods := mods + [FormatEntry(|mods|, m.value)];
      }
    }
    assert lines[..|lines|] == lines;
    if mods == [] {
      return Fatal(NoModsFound);
    }
    return Ok(mods);
  }

  /** Parsing a file in two parts collects the first part's mods, then the second's. */
  lemma {:induction false} CollectAppend(parse: string -> Option<string>, a: seq<string>, b: seq<string>)
    ensures Collect(parse, a + b) == Collect(parse, a) + Collect(parse, b)
    decreases |b|
  {
    if b == [] {
      assert a + b == a;
    } else {
      var b' := b[..|b| - 1];
      assert (a + b)[..|a + b| - 1] == a + b';
      assert (a + b)[|a + b| - 1] == b[|b| - 1];
      CollectAppend(parse, a, b');
    }
  }

  /** A parser collects nothing exactly when no line matches. */
  lemma {:induction false} NothingCollected(parse: string -> Option<string>, lines: seq<string>)
    ensures Collect(parse, lines) == [] <==> forall i | 0 <= i < |lines| :: parse(lines[i]).None?
  {
    if lines != [] {
      var init := lines[..|lines| - 1];
      NothingCollected(parse, init);
      assert forall i | 0 <= i < |init| :: init[i] == lines[i];
    }
  }

  /** `no_mods_found` from the profile parser: no line matches the entry pattern with a payload. */
  lemma NoProfileMods(lines: seq<string>)
    ensures ProfilePayloads(lines) == [] <==> forall i | 0 <= i < |lines| :: ProfileMatch(lines[i]).None?
  {
    NothingCollected(ProfileMatch, lines);
  }

  /** `no_mods_found` from the list loader: no line is a non-comment entry with a payload. */
  lemma NoListMods(lines: seq<string>)
    ensures ListPayloads(lines) == [] <==> forall i | 0 <= i < |lines| :: ListMatch(lines[i]).None?
  {
    NothingCollected(ListMatch, lines);
  }

  /** A blank or comment line anywhere in `list.txt` changes nothing the loader returns. */
  lemma SkippedLineIgnored(a: seq<string>, line: string, b: seq<string>)
    requires IsSkipped(Strip(line))
    ensures ListPayloads(a + [line] + b) == ListPayloads(a + b)
  {
    CollectAppend(ListMatch, a + [line], b);
    CollectAppend(ListMatch, a, b);
    assert (a + [line])[..|a|] == a;
  }

  /** The lines the profile parser returns, written one per line, parse back to the same payloads. */
  lemma {:induction false} RenderedLinesReparse(ps: seq<string>)
    requires forall k | 0 <= k < |ps| :: ValidPayload(ps[k])
    ensures ProfilePayloads(WithNewlines(Render(ps))) == ps
    decreases |ps|
  {
    if ps != [] {
      var init := ps[..|ps| - 1];
      var v := ps[|ps| - 1];
      assert ps == init + [v];
      var lines := WithNewlines(Render(ps));
      assert lines[..|lines| - 1] == WithNewlines(Render(init));
      assert lines[|lines| - 1] == FormatEntry(|init|, v) + "\n";
      FormatEntryParses(|init|, v);
      RenderedLinesReparse(init);
    }
  }

  /** The same lines reload through the list loader when no payload is empty. */
  lemma {:induction false} RenderedLinesReload(ps: seq<string>)
    requires forall k | 0 <= k < |ps| :: ValidPayload(ps[k]) && ps[k] != []
    ensures ListPayloads(WithNewlines(Render(ps))) == ps
    decreases |ps|
  {
    if ps != [] {
      var init := ps[..|ps| - 1];
      var v := ps[|ps| - 1];
      assert ps == init + [v];
      var lines := WithNewlines(Render(ps));
      assert lines[..|lines| - 1] == WithNewlines(Render(init));
      assert lines[|lines| - 1] == FormatEntry(|init|, v) + "\n";
      FormatEntryReloads(|init|, v);
      RenderedLinesReload(init);
    }
  }

  lemma EntryHasNoNewline(i: nat, v: string)
    requires ValidPayload(v)
    ensures '\n' !in FormatEntry(i, v)
  {
    var d := DecimalString(i);
    assert forall k | 0 <= k < |d| :: d[k] != '\n' by {
      forall k | 0 <= k < |d| ensures d[k] != '\n' { assert IsDigit(d[k]); }
    }
  }

  /** What `action_extract` writes to `list.txt` is read back as exactly the lines it wrote. */
  lemma ListFileLines(ps: seq<string>)
    requires forall k | 0 <= k < |ps| :: ValidPayload(ps[k])
    ensures SplitLines(ListFileText(Render(ps))) == WithNewlines(Render(ps))
  {
    var lines := WithNewlines(Render(ps));
    forall i | 0 <= i < |lines|
      ensures IsFullLine(lines[i])
    {
      EntryHasNoNewline(i, ps[i]);
      assert lines[i][..|lines[i]| - 1] == FormatEntry(i, ps[i]);
    }
    SplitLinesJoin(lines);
  }

  /**
   * Round trip through `list.txt`: the mod lines `action_extract` writes are
   * loaded back unchanged by `_load_mods_from_list_file`, provided no payload
   * is empty (an empty payload leaves `" active_mods[i]: "`, which the loader
   * drops).
   */
  lemma ListFileRoundTrip(ps: seq<string>)
    requires forall k | 0 <= k < |ps| :: ValidPayload(ps[k]) && ps[k] != []
    ensures ListPayloads(SplitLines(ListFileText(Render(ps)))) == ps
  {
    ListFileLines(ps);
    RenderedLinesReload(ps);
  }

  /** What the profile parser extracts reloads from `list.txt` to the same mod lines when no payload is empty. */
  lemma ExtractThenLoad(profile: seq<string>)
    requires forall k | 0 <= k < |ProfilePayloads(profile)| :: ProfilePayloads(profile)[k] != []
    ensures Render(ListPayloads(SplitLines(ListFileText(Render(ProfilePayloads(profile))))))
         == Render(ProfilePayloads(profile))
  {
    ListFileRoundTrip(ProfilePayloads(profile));
  }

  /** An empty payload is lost on the way through `list.txt`. */
  lemma EmptyPayloadDropped(i: nat)
    ensures ListMatch(FormatEntry(i, "") + "\n") == None
    ensures ProfileMatch(FormatEntry(i, "") + "\n") == Some("")
  {
    FormatEntryReloads(i, "");
    FormatEntryParses(i, "");
  }
}
