/**
 * `_replace_mod_block`: rewrites the lines of a plaintext profile so that the
 * mod block holds a new list. Every entry line is dropped, every count line
 * is replaced in place by a fresh count line and the new mod lines, and all
 * other lines pass through in their order.
 *
 * The rewrite only depends on how each line is classified, so its laws are
 * proved once for any classification `kind` and any replacement `block`, and
 * then applied to the profile's own patterns.
 */
module ModBlock {
  import opened Text
  import opened Outcome
  import opened SiiLines
  import opened ModList

  /** How the rewriter sees a line. */
  datatype Kind = Entry | Count | Other

  /** The entry pattern is tried first, then the count pattern. */
  function KindOf(line: string): (k: Kind)
    ensures k == Entry <==> IsEntryLine(line)
    ensures k == Count <==> IsCountLine(line)
  {
    EntryIsNotCount(line);
    if IsEntryLine(line) then Entry else if IsCountLine(line) then Count else Other
  }

  /** What replaces each count line: a count line for `|newMods|`, then each new mod on its own line. */
  function Block(newMods: seq<string>): seq<string> {
    [CountText(|newMods|)] + WithNewlines(newMods)
  }

  /** What the rewriter emits for one line of kind `k`. */
  function Image(k: Kind, line: string, block: seq<string>): seq<string> {
    match k
    case Entry => []
    case Count => block
    case Other => [line]
  }

  /** The lines emitted for `content`, line by line in order. */
  function RewriteBy(kind: string -> Kind, content: seq<string>, block: seq<string>): seq<string> {
    if content == [] then []
    else
      var last := content[|content| - 1];
      RewriteBy(kind, content[..|content| - 1], block) + Image(kind(last), last, block)
  }

  /** The lines of `lines` of kind `k`, in order. */
  function Select(kind: string -> Kind, lines: seq<string>, k: Kind): (r: seq<string>)
    ensures |r| <= |lines|
    ensures forall x | x in r :: x in lines && kind(x) == k
  {
    if lines == [] then []
    else
      var init := Select(kind, lines[..|lines| - 1], k);
      if kind(lines[|lines| - 1]) == k then init + [lines[|lines| - 1]] else init
  }

  /** `k` copies of `s`, one after the other. */
  function Repeat<T>(s: seq<T>, k: nat): (r: seq<T>)
    ensures |r| == k * |s|
  {
    if k == 0 then [] else Repeat(s, k - 1) + s
  }

  /** A replacement block: a count line followed by entry lines only. */
  predicate IsBlock(kind: string -> Kind, block: seq<string>) {
    && |block| >= 1
    && kind(block[0]) == Count
    && forall i | 1 <= i < |block| :: kind(block[i]) == Entry
  }

  /** What `_replace_mod_block` emits for the profile lines `content`. */
  function Rewrite(content: seq<string>, newMods: seq<string>): seq<string> {
    RewriteBy(KindOf, content, Block(newMods))
  }

  /** The count lines of `content`. */
  function CountLines(content: seq<string>): seq<string> {
    Select(KindOf, content, Count)
  }

  /** Mod lines as the parsers return them: single lines that are entries once `"\n"` is added. */
  predicate ModLines(mods: seq<string>) {
    forall i | 0 <= i < |mods| :: '\n' !in mods[i] && IsEntryLine(mods[i] + "\n")
  }

  // ---------------------------------------------------------------------
  // Laws of the rewrite for any classification

  lemma RewriteBySnoc(kind: string -> Kind, content: seq<string>, i: nat, block: seq<string>)
    requires i < |content|
    ensures RewriteBy(kind, content[..i + 1], block)
         == RewriteBy(kind, content[..i], block) + Image(kind(content[i]), content[i], block)
    ensures Select(kind, content[..i + 1], Count)
         == Select(kind, content[..i], Count) + (if kind(content[i]) == Count then [content[i]] else [])
  {
    assert content[..i + 1][..i] == content[..i];
  }

  /** The rewrite works line by line: rewriting two parts is rewriting the whole. */
  lemma {:induction false} RewriteByAppend(kind: string -> Kind, a: seq<string>, b: seq<string>, block: seq<string>)
    ensures RewriteBy(kind, a + b, block) == RewriteBy(kind, a, block) + RewriteBy(kind, b, block)
    decreases |b|
  {
    if b == [] {
      assert a + b == a;
    } else {
      var b' := b[..|b| - 1];
      var last := b[|b| - 1];
      var image := Image(kind(last), last, block);
      assert b == b' + [last];
      assert a + b == (a + b') + [last];
      calc {
        RewriteBy(kind, a + b, block);
      ==  { RewriteByLast(kind, a + b', last, block); }
        RewriteBy(kind, a + b', block) + image;
      ==  { RewriteByAppend(kind, a, b', block); }
        (RewriteBy(kind, a, block) + RewriteBy(kind, b', block)) + image;
      ==
        RewriteBy(kind, a, block) + (RewriteBy(kind, b', block) + image);
      ==  { RewriteByLast(kind, b', last, block); }
        RewriteBy(kind, a, block) + RewriteBy(kind, b, block);
      }
    }
  }

  /** The rewrite of lines ending in `last` ends with the image of `last`. */
  lemma RewriteByLast(kind: string -> Kind, init: seq<string>, last: string, block: seq<string>)
    ensures RewriteBy(kind, init + [last], block) == RewriteBy(kind, init, block) + Image(kind(last), last, block)
  {
    assert (init + [last])[..|init|] == init;
  }

  lemma {:induction false} SelectAppend(kind: string -> Kind, a: seq<string>, b: seq<string>, k: Kind)
    ensures Select(kind, a + b, k) == Select(kind, a, k) + Select(kind, b, k)
    decreases |b|
  {
    if b == [] {
      assert a + b == a;
    } else {
      var b' := b[..|b| - 1];
      assert (a + b)[..|a + b| - 1] == a + b';
      assert (a + b)[|a + b| - 1] == b[|b| - 1];
      SelectAppend(kind, a, b', k);
    }
  }

  /** Nothing of kind `k` is selected exactly when no line has kind `k`. */
  lemma {:induction false} NoneSelected(kind: string -> Kind, lines: seq<string>, k: Kind)
    ensures Select(kind, lines, k) == [] <==> forall i | 0 <= i < |lines| :: kind(lines[i]) != k
  {
    if lines != [] {
      var init := lines[..|lines| - 1];
      NoneSelected(kind, init, k);
      assert forall i | 0 <= i < |init| :: init[i] == lines[i];
    }
  }

  lemma RepeatSnoc<T>(s: seq<T>, k: nat)
    ensures Repeat(s, k + 1) == Repeat(s, k) + s
  {
  }

  /** The rewrite drops lines that are all entries. */
  lemma {:induction false} EntriesDropped(kind: string -> Kind, es: seq<string>, block: seq<string>)
    requires forall i | 0 <= i < |es| :: kind(es[i]) == Entry
    ensures RewriteBy(kind, es, block) == []
  {
    if es != [] {
      var init := es[..|es| - 1];
      assert forall i | 0 <= i < |init| :: kind(init[i]) == Entry by {
        forall i | 0 <= i < |init| ensures kind(init[i]) == Entry { assert init[i] == es[i]; }
      }
      EntriesDropped(kind, init, block);
    }
  }

  /** Lines that are all entries are all selected as entries, and as nothing else. */
  lemma {:induction false} EntriesSelected(kind: string -> Kind, es: seq<string>, k: Kind)
    requires forall i | 0 <= i < |es| :: kind(es[i]) == Entry
    ensures Select(kind, es, k) == if k == Entry then es else []
  {
    if es != [] {
      var init := es[..|es| - 1];
      assert forall i | 0 <= i < |init| :: kind(init[i]) == Entry by {
        forall i | 0 <= i < |init| ensures kind(init[i]) == Entry { assert init[i] == es[i]; }
      }
      EntriesSelected(kind, init, k);
      assert es == init + [es[|es| - 1]];
    }
  }

  /** What a replacement block consists of, kind by kind; rewriting it gives it back. */
  lemma BlockParts(kind: string -> Kind, block: seq<string>)
    requires IsBlock(kind, block)
    ensures Select(kind, block, Other) == []
    ensures Select(kind, block, Count) == [block[0]]
    ensures Select(kind, block, Entry) == block[1..]
    ensures RewriteBy(kind, block, block) == block
  {
    BlockSelect(kind, block, Other);
    BlockSelect(kind, block, Count);
    BlockSelect(kind, block, Entry);
    BlockRewrite(kind, block);
  }

  lemma BlockSelect(kind: string -> Kind, block: seq<string>, k: Kind)
    requires IsBlock(kind, block)
    ensures Select(kind, block, k) == if k == Count then [block[0]] else if k == Entry then block[1..] else []
  {
    var es := block[1..];
    assert block == [block[0]] + es;
    assert forall i | 0 <= i < |es| :: es[i] == block[i + 1];
    EntriesSelected(kind, es, k);
    SelectAppend(kind, [block[0]], es, k);
    assert [block[0]][..0] == [];
  }

  lemma BlockRewrite(kind: string -> Kind, block: seq<string>)
    requires IsBlock(kind, block)
    ensures RewriteBy(kind, block, block) == block
  {
    var es := block[1..];
    assert block == [block[0]] + es;
    assert forall i | 0 <= i < |es| :: es[i] == block[i + 1];
    EntriesDropped(kind, es, block);
    RewriteByAppend(kind, [block[0]], es, block);
    assert [block[0]][..0] == [];
  }

  /** The image of one line, selected by kind, when the block is a replacement block. */
  lemma ImageParts(kind: string -> Kind, line: string, block: seq<string>)
    requires IsBlock(kind, block)
    ensures Select(kind, Image(kind(line), line, block), Other)
         == if kind(line) == Other then [line] else []
    ensures Select(kind, Image(kind(line), line, block), Count)
         == if kind(line) == Count then [block[0]] else []
    ensures Select(kind, Image(kind(line), line, block), Entry)
         == if kind(line) == Count then block[1..] else []
    ensures RewriteBy(kind, Image(kind(line), line, block), block) == Image(kind(line), line, block)
  {
    match kind(line)
    case Entry =>
    case Count => BlockParts(kind, block);
    case Other => SingleLine(kind, line, block);
  }

  lemma SingleLine(kind: string -> Kind, line: string, block: seq<string>)
    requires kind(line) == Other
    ensures Select(kind, [line], Other) == [line]
    ensures Select(kind, [line], Count) == []
    ensures Select(kind, [line], Entry) == []
    ensures RewriteBy(kind, [line], block) == [line]
  {
    assert [line][..0] == [];
  }

  /** The lines of kind Other come out exactly as they went in, in the same order. */
  lemma {:induction false} OthersKept(kind: string -> Kind, content: seq<string>, block: seq<string>)
    requires IsBlock(kind, block)
    ensures Select(kind, RewriteBy(kind, content, block), Other) == Select(kind, content, Other)
    decreases |content|
  {
    if content != [] {
      var init := content[..|content| - 1];
      var last := content[|content| - 1];
      OthersKept(kind, init, block);
      SelectAppend(kind, RewriteBy(kind, init, block), Image(kind(last), last, block), Other);
      ImageParts(kind, last, block);
    }
  }

  /** The entries of the result are the block's entries, once per count line of the input. */
  lemma {:induction false} EntriesFromBlocks(kind: string -> Kind, content: seq<string>, block: seq<string>)
    requires IsBlock(kind, block)
    ensures Select(kind, RewriteBy(kind, content, block), Entry)
         == Repeat(block[1..], |Select(kind, content, Count)|)
    decreases |content|
  {
    if content != [] {
      var init := content[..|content| - 1];
      var last := content[|content| - 1];
      EntriesFromBlocks(kind, init, block);
      SelectAppend(kind, RewriteBy(kind, init, block), Image(kind(last), last, block), Entry);
      ImageParts(kind, last, block);
      RepeatSnoc(block[1..], |Select(kind, init, Count)|);
    }
  }

  /** Each count line of the input becomes the block's count line. */
  lemma {:induction false} CountsFromBlocks(kind: string -> Kind, content: seq<string>, block: seq<string>)
    requires IsBlock(kind, block)
    ensures Select(kind, RewriteBy(kind, content, block), Count)
         == Repeat([block[0]], |Select(kind, content, Count)|)
    decreases |content|
  {
    if content != [] {
      var init := content[..|content| - 1];
      var last := content[|content| - 1];
      CountsFromBlocks(kind, init, block);
      SelectAppend(kind, RewriteBy(kind, init, block), Image(kind(last), last, block), Count);
      ImageParts(kind, last, block);
      RepeatSnoc([block[0]], |Select(kind, init, Count)|);
    }
  }

  /** A second rewrite with the same block changes nothing. */
  lemma {:induction false} RewriteByIdempotent(kind: string -> Kind, content: seq<string>, block: seq<string>)
    requires IsBlock(kind, block)
    ensures RewriteBy(kind, RewriteBy(kind, content, block), block) == RewriteBy(kind, content, block)
    decreases |content|
  {
    if content != [] {
      var init := content[..|content| - 1];
      var last := content[|content| - 1];
      RewriteByIdempotent(kind, init, block);
      RewriteByAppend(kind, RewriteBy(kind, init, block), Image(kind(last), last, block), block);
      ImageParts(kind, last, block);
    }
  }

  /** Without a count line, the rewrite only drops the entry lines. */
  lemma {:induction false} RewriteByWithoutCount(kind: string -> Kind, content: seq<string>, block: seq<string>)
    requires Select(kind, content, Count) == []
    ensures RewriteBy(kind, content, block) == Select(kind, content, Other)
    decreases |content|
  {
    if content != [] {
      var init := content[..|content| - 1];
      var last := content[|content| - 1];
      assert Select(kind, init, Count) == [] by {
        SelectAppend(kind, init, [last], Count);
        assert content == init + [last];
      }
      RewriteByWithoutCount(kind, init, block);
    }
  }

  /**
   * Any parser that finds nothing in lines of kind Other collects from the
   * rewritten lines what it collects from the block, once per count line.
   */
  lemma {:induction false} CollectAfterRewrite(kind: string -> Kind, parse: string -> Option<string>,
                                               content: seq<string>, block: seq<string>)
    requires forall l :: kind(l) == Other ==> parse(l).None?
    ensures Collect(parse, RewriteBy(kind, content, block))
         == Repeat(Collect(parse, block), |Select(kind, content, Count)|)
    decreases |content|
  {
    if content != [] {
      var init := content[..|content| - 1];
      var last := content[|content| - 1];
      CollectAfterRewrite(kind, parse, init, block);
      CollectAppend(parse, RewriteBy(kind, init, block), Image(kind(last), last, block));
      RepeatSnoc(Collect(parse, block), |Select(kind, init, Count)|);
      if kind(last) != Count {
        assert Image(kind(last), last, block)[..0] == [];
      }
    }
  }


  /** Every line ends with its `'\n'` and holds no other. */
  predicate AllFull(lines: seq<string>) {
    forall i | 0 <= i < |lines| :: IsFullLine(lines[i])
  }

  lemma FullAppend(a: seq<string>, b: seq<string>)
    requires AllFull(a)
    ensures AllFull(b) ==> AllFull(a + b)
    ensures WellFormedLines(b) ==> WellFormedLines(a + b)
  {
    forall i | |a| <= i < |a + b| ensures (a + b)[i] == b[i - |a|] {}
  }

  /** Rewriting full lines with a block of full lines gives full lines. */
  lemma {:induction false} RewriteByFull(kind: string -> Kind, content: seq<string>, block: seq<string>)
    requires AllFull(content) && AllFull(block)
    ensures AllFull(RewriteBy(kind, content, block))
    decreases |content|
  {
    if content != [] {
      var init := content[..|content| - 1];
      var last := content[|content| - 1];
      assert AllFull(init) by {
        forall i | 0 <= i < |init| ensures IsFullLine(init[i]) { assert init[i] == content[i]; }
      }
      RewriteByFull(kind, init, block);
      FullAppend(RewriteBy(kind, init, block), Image(kind(last), last, block));
    }
  }

  /**
   * Rewriting the lines of a file with a block of full lines gives lines that
   * are again the lines of a file: writing them and reading them back yields
   * them unchanged.
   */
  lemma RewriteByWellFormed(kind: string -> Kind, content: seq<string>, block: seq<string>)
    requires WellFormedLines(content) && AllFull(block)
    ensures WellFormedLines(RewriteBy(kind, content, block))
  {
    if content != [] {
      var init := content[..|content| - 1];
      var last := content[|content| - 1];
      assert AllFull(init) by {
        forall i | 0 <= i < |init| ensures IsFullLine(init[i]) { assert init[i] == content[i]; }
      }
      RewriteByFull(kind, init, block);
      var img := Image(kind(last), last, block);
      assert WellFormedLines(img) by {
        if kind(last) == Count {
          assert forall i | 0 <= i < |block| :: IsFullLine(block[i]);
        } else if kind(last) == Other {
          assert img == [last];
        }
      }
      FullAppend(RewriteBy(kind, init, block), img);
    }
  }

  // ---------------------------------------------------------------------
  // The profile's rewrite

  /** The inner loop of `_replace_mod_block`: the count line, then each new mod with `"\n"` appended. */
  method AppendBlock(result: seq<string>, newMods: seq<string>) returns (r: seq<string>)
    ensures r == result + Block(newMods)
  {
    r := result + [CountText(|newMods|)];
    for j := 0 to |newMods|
      invariant r == result + [CountText(|newMods|)] + WithNewlines(newMods[..j])
    {
      WithNewlinesSnoc(newMods, j);
      r := r + [newMods[j] + "\n"];
    }
    assert newMods[..|newMods|] == newMods;
  }

  /**
   * `_replace_mod_block(content, new_mods)`: the rewritten lines, or
   * `format_error` when the profile has no count line (and then nothing is
   * returned to be written).
   */
  method ReplaceModBlock(content: seq<string>, newMods: seq<string>) returns (r: Result<seq<string>>)
    ensures r.Fatal? <==> CountLines(content) == []
    ensures r.Fatal? ==> r.reason == FormatError
    ensures r.Ok? ==> r.value == Rewrite(content, newMods)
  {
    var result: seq<string> := [];
    var inserted := false;
    for i := 0 to |content|
      invariant result == Rewrite(content[..i], newMods)
      invariant inserted <==> CountLines(content[..i]) != []
    {
      var line := content[i];
      RewriteBySnoc(KindOf, content, i, Block(newMods));
      CountLinesSnoc(content, i);
      if IsEntryLine(line) {
        continue;
      }
      if IsCountLine(line) {
        result := AppendBlock(result, newMods);
        inserted := true;
        continue;
      }
      result := result + [line];
    }
    assert content[..|content|] == content;
    if !inserted {
      return Fatal(FormatError);
    }
    return Ok(result);
  }

  lemma WithNewlinesSnoc(mods: seq<string>, j: nat)
    requires j < |mods|
    ensures WithNewlines(mods[..j + 1]) == WithNewlines(mods[..j]) + [mods[j] + "\n"]
  {
  }

  lemma CountLinesSnoc(content: seq<string>, i: nat)
    requires i < |content|
    ensures (CountLines(content[..i + 1]) != []) == (CountLines(content[..i]) != [] || IsCountLine(content[i]))
  {
    RewriteBySnoc(KindOf, content, i, []);
  }

  /** `format_error` exactly when no line of the profile matches the count pattern. */
  lemma NoCountLine(content: seq<string>)
    ensures CountLines(content) == [] <==> forall i | 0 <= i < |content| :: !IsCountLine(content[i])
  {
    NoneSelected(KindOf, content, Count);
  }

  /** Mod lines and a count line for their number make a replacement block. */
  lemma BlockIsBlock(newMods: seq<string>)
    requires ModLines(newMods)
    ensures IsBlock(KindOf, Block(newMods))
  {
    var b := Block(newMods);
    assert KindOf(b[0]) == Count by {
      CountTextIsCount(|newMods|);
    }
    forall i | 1 <= i < |b| ensures KindOf(b[i]) == Entry {
      ModLineInBlock(newMods, i - 1);
    }
  }

  lemma ModLineInBlock(mods: seq<string>, i: nat)
    requires ModLines(mods) && i < |mods|
    ensures KindOf(Block(mods)[i + 1]) == Entry
  {
    assert Block(mods)[i + 1] == mods[i] + "\n";
  }

  /**
   * Pass-through: the lines that are neither entries nor count lines come out
   * exactly as they went in, in the same relative order.
   */
  lemma OtherLinesPassThrough(content: seq<string>, newMods: seq<string>)
    requires ModLines(newMods)
    ensures Select(KindOf, Rewrite(content, newMods), Other) == Select(KindOf, content, Other)
  {
    BlockIsBlock(newMods);
    OthersKept(KindOf, content, Block(newMods));
  }

  /**
   * Dropped and replaced: the entry lines of the result are the new mod lines,
   * once per count line of the input, so every old entry line is gone.
   */
  lemma EntriesAreReplaced(content: seq<string>, newMods: seq<string>)
    requires ModLines(newMods)
    ensures Select(KindOf, Rewrite(content, newMods), Entry)
         == Repeat(WithNewlines(newMods), |CountLines(content)|)
  {
    BlockIsBlock(newMods);
    EntriesFromBlocks(KindOf, content, Block(newMods));
    assert Block(newMods)[1..] == WithNewlines(newMods);
  }

  /** Each count line of the input becomes exactly one count line, declaring `|newMods|`. */
  lemma CountLinesAreRenewed(content: seq<string>, newMods: seq<string>)
    requires ModLines(newMods)
    ensures CountLines(Rewrite(content, newMods)) == Repeat([CountText(|newMods|)], |CountLines(content)|)
  {
    BlockIsBlock(newMods);
    CountsFromBlocks(KindOf, content, Block(newMods));
  }

  /**
   * With exactly one count line, the result is the profile with its entry
   * lines dropped and the new block standing where the count line stood.
   */
  lemma SingleCountLine(before: seq<string>, count: string, after: seq<string>, newMods: seq<string>)
    requires IsCountLine(count)
    requires CountLines(before) == [] && CountLines(after) == []
    ensures Rewrite(before + [count] + after, newMods)
         == Select(KindOf, before, Other) + Block(newMods) + Select(KindOf, after, Other)
  {
    var block := Block(newMods);
    RewriteByAppend(KindOf, before + [count], after, block);
    RewriteByAppend(KindOf, before, [count], block);
    RewriteByWithoutCount(KindOf, before, block);
    RewriteByWithoutCount(KindOf, after, block);
    assert [count][..0] == [];
  }

  /** Lines of kind Other yield nothing to the profile parser. */
  lemma OtherLinesHoldNoMods()
    ensures forall l :: KindOf(l) == Other ==> ProfileMatch(l).None?
  {
  }

  /** The block written for the mods `Render(ps)` parses back to `ps`. */
  lemma BlockReparses(ps: seq<string>)
    requires forall k | 0 <= k < |ps| :: ValidPayload(ps[k])
    ensures Collect(ProfileMatch, Block(Render(ps))) == ps
  {
    var mods := Render(ps);
    CountTextIsCount(|mods|);
    CollectAppend(ProfileMatch, [CountText(|mods|)], WithNewlines(mods));
    assert [CountText(|mods|)][..0] == [];
    RenderedLinesReparse(ps);
  }

  /**
   * Re-parsing the rewritten profile finds the new payloads once per count
   * line of the original profile.
   */
  lemma RewriteReparses(content: seq<string>, ps: seq<string>)
    requires forall k | 0 <= k < |ps| :: ValidPayload(ps[k])
    ensures ProfilePayloads(Rewrite(content, Render(ps))) == Repeat(ps, |CountLines(content)|)
  {
    OtherLinesHoldNoMods();
    CollectAfterRewrite(KindOf, ProfileMatch, content, Block(Render(ps)));
    BlockReparses(ps);
  }

  /** With exactly one count line, re-parsing the rewritten profile yields exactly the new mod lines. */
  lemma RewriteThenParse(content: seq<string>, ps: seq<string>)
    requires forall k | 0 <= k < |ps| :: ValidPayload(ps[k])
    requires |CountLines(content)| == 1
    ensures ProfilePayloads(Rewrite(content, Render(ps))) == ps
    ensures Render(ProfilePayloads(Rewrite(content, Render(ps)))) == Render(ps)
  {
    RewriteReparses(content, ps);
    RepeatSnoc(ps, 0);
  }

  /** The lines the parsers produce are mod lines. */
  lemma RenderedAreModLines(ps: seq<string>)
    requires forall k | 0 <= k < |ps| :: ValidPayload(ps[k])
    ensures ModLines(Render(ps))
  {
    forall i | 0 <= i < |ps|
      ensures '\n' !in Render(ps)[i] && IsEntryLine(Render(ps)[i] + "\n")
    {
      EntryHasNoNewline(i, ps[i]);
      FormatEntryParses(i, ps[i]);
    }
  }

  /**
   * Idempotence: replacing the block a second time with the same mods changes
   * nothing, and the second call does not fail, since a count line remains.
   */
  lemma ReplaceIdempotent(content: seq<string>, newMods: seq<string>)
    requires ModLines(newMods)
    ensures CountLines(content) != [] ==> CountLines(Rewrite(content, newMods)) != []
    ensures Rewrite(Rewrite(content, newMods), newMods) == Rewrite(content, newMods)
  {
    BlockIsBlock(newMods);
    RewriteByIdempotent(KindOf, content, Block(newMods));
    CountsFromBlocks(KindOf, content, Block(newMods));
  }

  /** The block `_replace_mod_block` writes consists of full lines. */
  lemma BlockIsFull(newMods: seq<string>)
    requires ModLines(newMods)
    ensures AllFull(Block(newMods))
  {
    var b := Block(newMods);
    assert IsFullLine(b[0]) by {
      CountTextIsFull(|newMods|);
    }
    forall i | 1 <= i < |b| ensures IsFullLine(b[i]) {
      ModLineFull(newMods, i - 1);
    }
  }

  lemma ModLineFull(mods: seq<string>, i: nat)
    requires ModLines(mods) && i < |mods|
    ensures IsFullLine(Block(mods)[i + 1])
  {
    var line := Block(mods)[i + 1];
    assert line == mods[i] + "\n";
    assert line[..|line| - 1] == mods[i];
  }

  /** What `_write_file_lines` stores after `_replace_mod_block` on the lines `_read_file_lines` returned. */
  function RewriteFile(text: string, newMods: seq<string>): string {
    Join(Rewrite(SplitLines(text), newMods))
  }

  /** Reading back the rewritten file yields exactly the lines the rewriter produced. */
  lemma RewriteFileLines(text: string, newMods: seq<string>)
    requires ModLines(newMods)
    ensures SplitLines(RewriteFile(text, newMods)) == Rewrite(SplitLines(text), newMods)
  {
    SplitLinesWellFormed(text);
    BlockIsFull(newMods);
    RewriteByWellFormed(KindOf, SplitLines(text), Block(newMods));
    SplitLinesJoin(Rewrite(SplitLines(text), newMods));
  }

  /** Rewriting the profile file a second time with the same mods leaves it as the first rewrite left it. */
  lemma RewriteFileIdempotent(text: string, newMods: seq<string>)
    requires ModLines(newMods)
    ensures RewriteFile(RewriteFile(text, newMods), newMods) == RewriteFile(text, newMods)
  {
    RewriteFileLines(text, newMods);
    ReplaceIdempotent(SplitLines(text), newMods);
  }

  /** With exactly one count line, the rewritten file parses back to the new payloads. */
  lemma RewriteFileReparses(text: string, ps: seq<string>)
    requires forall k | 0 <= k < |ps| :: ValidPayload(ps[k])
    requires |CountLines(SplitLines(text))| == 1
    ensures ProfilePayloads(SplitLines(RewriteFile(text, Render(ps)))) == ps
  {
    RenderedAreModLines(ps);
    RewriteFileLines(text, Render(ps));
    RewriteThenParse(SplitLines(text), ps);
  }
}
