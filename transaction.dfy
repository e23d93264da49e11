/**
 * The file-level actions of the mod manager over a store of files:
 * `action_extract` copies the profile's mod list to `list.txt`,
 * `action_apply` writes the list from `list.txt` into the profile under a
 * backup, and `action_clean_backups` deletes the backups.
 *
 * `SII_Decrypt.exe` is the uninterpreted `codec`: run on a file it replaces
 * the contents `c` with `codec(c).value`, or exits with an error
 * (`codec(c) == None`), which `_run_sii_decrypt` turns into `decrypt_failed`.
 * The manager runs it both to decrypt and, afterwards, to "re-encrypt".
 */
module Transaction {
  import opened Text
  import opened Outcome
  import opened SiiLines
  import opened ModList
  import opened ModBlock
  import opened ProfileFiles

  /** A file's location: `os.path.join(dir, name)`. */
  datatype Path = Path(dir: string, name: string)

  /** The name of the profile file the manager edits. */
  const ProfileName: string := "profile.sii"

  /** The name of the portable list file, `LIST_FILE`. */
  const ListName: string := "list.txt"

  /** The profile, its backup and the list file are three different files. */
  lemma DistinctFiles(profile: Path, listFile: Path, stamp: string)
    requires profile.name == ProfileName && listFile.name == ListName
    ensures BackupPath(profile, stamp) != profile
    ensures listFile != profile && listFile != BackupPath(profile, stamp)
  {
    BackupIsNotProfile(profile, stamp);
    assert ListName[0] != ProfileName[0];
    assert !IsBackupFile(ListName) by {
      assert ListName[0] != BackupPrefix[0];
    }
  }

  /** Where `_create_profile_backup` puts the backup taken at time stamp `stamp`: next to the profile. */
  function BackupPath(profile: Path, stamp: string): (b: Path)
    ensures b.dir == profile.dir && IsBackupFile(b.name)
  {
    BackupNameIsFiltered(stamp);
    Path(profile.dir, BackupName(stamp))
  }

  /** The backup never overwrites the profile itself. */
  lemma BackupIsNotProfile(profile: Path, stamp: string)
    requires profile.name == ProfileName
    ensures BackupPath(profile, stamp) != profile
  {
    ProfileIsNotBackup();
  }

  /** Running `SII_Decrypt.exe` on the file at `p`: the new store, or `None` when the tool fails. */
  function Tool(codec: string -> Option<string>, files: map<Path, string>, p: Path): (r: Option<map<Path, string>>)
    ensures r.Some? ==> r.value.Keys == files.Keys && p in files
    ensures r.Some? ==> forall q | q in files && q != p :: r.value[q] == files[q]
  {
    if p in files && codec(files[p]).Some? then Some(files[p := codec(files[p]).value]) else None
  }

  /** The exceptions the environment may raise inside `action_apply`'s `try` block. */
  datatype Faults = Faults(
    readFails: bool,            // `_read_file_lines` raises
    writeFault: Option<nat>)    // `_write_file_lines` raises after writing this many characters

  /** How `action_apply` ends. */
  datatype ApplyOutcome =
    | ListNotFound                       // no `list.txt`: nothing is touched
    | Applied(count: nat, backup: string) // success: the number of mods and the backup's name
    | Restored                           // an exception in the `try` block: the backup was copied back
    | Halted(reason: Reason)             // `handle_fatal`: the program exits where it stands

  function Min(a: nat, b: nat): nat {
    if a < b then a else b
  }

  /**
   * The `except` branch of `action_apply`: copy the backup over the profile,
   * then run the tool again if the profile was encrypted.
   */
  function RestoreSpec(codec: string -> Option<string>, files: map<Path, string>,
                       profile: Path, backup: Path, wasEncrypted: bool): (ApplyOutcome, map<Path, string>)
    requires backup in files
  {
    var f := files[profile := files[backup]];
    if !wasEncrypted then (Restored, f)
    else match Tool(codec, f, profile)
      case None => (Halted(DecryptFailed), f)
      case Some(g) => (Restored, g)
  }

  /** `_create_profile_backup` followed by `_decrypt_if_needed`: the store, or `None` when the tool fails. */
  function BackupAndDecrypt(codec: string -> Option<string>, files: map<Path, string>,
                            profile: Path, stamp: string): (r: (map<Path, string>, Option<map<Path, string>>))
    requires profile in files
    ensures r.0 == files[BackupPath(profile, stamp) := files[profile]]
    ensures r.1.Some? ==> r.1.value.Keys == r.0.Keys
  {
    var f1 := files[BackupPath(profile, stamp) := files[profile]];
    var wasEnc := IsEncrypted(files[profile]);
    (f1, if wasEnc then Tool(codec, f1, profile) else Some(f1))
  }

  /** The payloads `_load_mods_from_list_file` finds in a `list.txt` with contents `text`. */
  function ListedMods(text: string): seq<string> {
    ListPayloads(SplitLines(text))
  }

  /**
   * `_replace_mod_block` on the profile text `text` with the mod lines of
   * the payloads `ps`, written back: `None` for `format_error`.
   */
  function RewriteProfile(text: string, ps: seq<string>): Option<string> {
    if CountLines(SplitLines(text)) == [] then None else Some(RewriteFile(text, Render(ps)))
  }

  /** `action_apply` from the check for `list.txt` to the final message. */
  function ApplySpec(codec: string -> Option<string>, files: map<Path, string>,
                     profile: Path, listFile: Path, stamp: string, faults: Faults): (ApplyOutcome, map<Path, string>)
    requires profile in files
  {
    ApplyBy(codec, ListedMods, RewriteProfile, files, profile, listFile, stamp, faults)
  }

  /**
   * The steps of `action_apply` for any way `load` of reading the list file
   * and any way `rewrite` of rewriting the profile text with it.
   */
  function ApplyBy(codec: string -> Option<string>, load: string -> seq<string>,
                   rewrite: (string, seq<string>) -> Option<string>, files: map<Path, string>,
                   profile: Path, listFile: Path, stamp: string, faults: Faults): (ApplyOutcome, map<Path, string>)
    requires profile in files
  {
    if listFile !in files then (ListNotFound, files)
    else
      var backup := BackupPath(profile, stamp);
      var wasEnc := IsEncrypted(files[profile]);
      var (f1, d) := BackupAndDecrypt(codec, files, profile, stamp);
      if d.None? then (Halted(DecryptFailed), f1)
      else
        var f2 := d.value;
        var listed := load(f2[listFile]);
        if listed == [] then (Halted(NoModsFound), f2)
        else if faults.readFails then RestoreSpec(codec, f2, profile, backup, wasEnc)
        else
          var out := rewrite(f2[profile], listed);
          if out.None? then (Halted(FormatError), f2)
          else
            match faults.writeFault
            case Some(n) => RestoreSpec(codec, f2[profile := out.value[..Min(n, |out.value|)]], profile, backup, wasEnc)
            case None =>
              var f3 := f2[profile := out.value];
              if !wasEnc then (Applied(|listed|, backup.name), f3)
              else match Tool(codec, f3, profile)
                case None => (Halted(DecryptFailed), f3)
                case Some(f4) => (Applied(|listed|, backup.name), f4)
  }

  /** `action_extract` after the game check. */
  function ExtractSpec(codec: string -> Option<string>, files: map<Path, string>,
                       profile: Path, listFile: Path, stamp: string): (Result<nat>, map<Path, string>)
    requires profile in files
  {
    ExtractBy(codec, ProfileMods, files, profile, listFile, stamp)
  }

  /** The payloads the extractor finds in the profile's text. */
  function ProfileMods(text: string): seq<string> {
    ProfilePayloads(SplitLines(text))
  }

  /** `action_extract` with the profile parser as a parameter. */
  function ExtractBy(codec: string -> Option<string>, found: string -> seq<string>,
                     files: map<Path, string>, profile: Path, listFile: Path,
                     stamp: string): (Result<nat>, map<Path, string>)
    requires profile in files
  {
    var wasEnc := IsEncrypted(files[profile]);
    var (f1, d) := BackupAndDecrypt(codec, files, profile, stamp);
    if d.None? then (Fatal(DecryptFailed), f1)
    else
      var f2 := d.value;
      var ps := found(f2[profile]);
      if ps == [] then (Fatal(NoModsFound), f2)
      else
        var e := if wasEnc then Tool(codec, f2, profile) else Some(f2);
        if e.None? then (Fatal(DecryptFailed), f2)
        else (Ok(|ps|), e.value[listFile := ListFileText(Render(ps))])
  }

  /** The contents of the profile once `_decrypt_if_needed` has run, if the tool did not fail. */
  function Decrypted(codec: string -> Option<string>, content: string): Option<string> {
    if IsEncrypted(content) then codec(content) else Some(content)
  }

  /** The backups `action_clean_backups` attempts to delete, given the names it found. */
  function Attempted(dir: string, names: seq<string>, undeletable: set<Path>): set<Path> {
    if names == [] then {}
    else
      var p := Path(dir, names[|names| - 1]);
      Attempted(dir, names[..|names| - 1], undeletable) + (if p in undeletable then {} else {p})
  }

  /** The names of `listing` the clean-up filter keeps, in order. */
  function BackupsIn(listing: seq<string>): (r: seq<string>)
    ensures forall k | 0 <= k < |r| :: IsBackupFile(r[k]) && r[k] in listing
    ensures forall n | n in listing && IsBackupFile(n) :: n in r
  {
    if listing == [] then []
    else
      var init := BackupsIn(listing[..|listing| - 1]);
      var last := listing[|listing| - 1];
      assert forall n | n in listing[..|listing| - 1] :: n in listing;
      assert forall n | n in listing :: n in listing[..|listing| - 1] || n == last;
      if IsBackupFile(last) then init + [last] else init
  }

  /** The files of a store that the clean-up action may delete. */
  lemma AttemptedAreBackups(dir: string, names: seq<string>, undeletable: set<Path>)
    requires forall k | 0 <= k < |names| :: IsBackupFile(names[k])
    ensures forall p | p in Attempted(dir, names, undeletable) :: p.dir == dir && IsBackupFile(p.name) && p !in undeletable
  {
    if names != [] {
      AttemptedAreBackups(dir, names[..|names| - 1], undeletable);
    }
  }

  lemma {:induction false} AttemptedCovers(dir: string, names: seq<string>, undeletable: set<Path>)
    ensures forall k | 0 <= k < |names| :: Path(dir, names[k]) in undeletable || Path(dir, names[k]) in Attempted(dir, names, undeletable)
  {
    if names != [] {
      var init := names[..|names| - 1];
      AttemptedCovers(dir, init, undeletable);
      assert forall k | 0 <= k < |init| :: init[k] == names[k];
    }
  }

  /**
   * After confirmed clean-up, the only backups left in the profile's folder
   * are those the system refused to delete; every other file is untouched.
   */
  lemma CleanRemovesBackups(files: map<Path, string>, dir: string, listing: seq<string>, undeletable: set<Path>)
    requires forall n :: n in listing <==> Path(dir, n) in files
    ensures var left := files - Attempted(dir, BackupsIn(listing), undeletable);
      && (forall p | p in left && p.dir == dir && IsBackupFile(p.name) :: p in undeletable)
      && (forall p | p in files && !(p.dir == dir && IsBackupFile(p.name)) :: p in left && left[p] == files[p])
  {
    var found := BackupsIn(listing);
    AttemptedAreBackups(dir, found, undeletable);
    AttemptedCovers(dir, found, undeletable);
    forall p | p in files && p.dir == dir && IsBackupFile(p.name) && p !in undeletable
      ensures p in Attempted(dir, found, undeletable)
    {
      assert p.name in listing;
      var k :| 0 <= k < |found| && found[k] == p.name;
    }
  }

  class FileStore {
    /** The contents of every file, by path. */
    var files: map<Path, string>
    /** What `SII_Decrypt.exe` does to a file's contents. */
    const codec: string -> Option<string>

    constructor (files: map<Path, string>, codec: string -> Option<string>)
      ensures this.files == files && this.codec == codec
    {
      this.files := files;
      this.codec := codec;
    }

    /** `shutil.copy2(from, to)`. */
    method Copy(from: Path, to: Path)
      requires from in files
      modifies this
      ensures files == old(files)[to := old(files)[from]]
    {
      files := files[to := files[from]];
    }

    /** `_run_sii_decrypt(p)`: `false` when the tool exits with an error, and then the file is left as it was. */
    method RunSiiDecrypt(p: Path) returns (ok: bool)
      modifies this
      ensures ok <==> Tool(codec, old(files), p).Some?
      ensures files == if ok then Tool(codec, old(files), p).value else old(files)
    {
      if p in files {
        var out := codec(files[p]);
        if out.Some? {
          files := files[p := out.value];
          return true;
        }
      }
      return false;
    }

    /** `_create_profile_backup`: copies the profile next to itself under the backup name. */
    method CreateProfileBackup(profile: Path, stamp: string) returns (backup: Path)
      requires profile in files
      modifies this
      ensures backup == BackupPath(profile, stamp)
      ensures files == old(files)[backup := old(files)[profile]]
    {
      backup := Path(profile.dir, BackupName(stamp));
      Copy(profile, backup);
    }

    /** `_read_file_lines`. */
    method ReadFileLines(p: Path) returns (lines: seq<string>)
      requires p in files
      ensures lines == SplitLines(files[p])
    {
      lines := SplitLines(files[p]);
    }

    /** `_write_file_lines`: all of the text, or, when the write raises, the part written before it did. */
    method WriteFileLines(p: Path, lines: seq<string>, fault: Option<nat>)
      modifies this
      ensures var text := Join(lines);
        files == old(files)[p := if fault.Some? then text[..Min(fault.value, |text|)] else text]
    {
      var text := Join(lines);
      if fault.Some? {
        files := files[p := text[..Min(fault.value, |text|)]];
      } else {
        files := files[p := text];
      }
    }

    /** The `except` branch of `action_apply`. */
    method Restore(profile: Path, backup: Path, wasEncrypted: bool) returns (r: ApplyOutcome)
      requires backup in files
      modifies this
      ensures (r, files) == RestoreSpec(codec, old(files), profile, backup, wasEncrypted)
    {
      Copy(backup, profile);
      if wasEncrypted {
        var ok := RunSiiDecrypt(profile);
        if !ok {
          return Halted(DecryptFailed);
        }
      }
      return Restored;
    }

    /** `_create_profile_backup` then `_decrypt_if_needed`. */
    method BackupThenDecrypt(profile: Path, stamp: string) returns (backup: Path, wasEncrypted: bool, ok: bool)
      requires profile in files && profile.name == ProfileName
      modifies this
      ensures backup == BackupPath(profile, stamp)
      ensures wasEncrypted == IsEncrypted(old(files)[profile])
      ensures var (f1, d) := BackupAndDecrypt(codec, old(files), profile, stamp);
        ok == d.Some? && files == if ok then d.value else f1
    {
      backup := CreateProfileBackup(profile, stamp);
      BackupIsNotProfile(profile, stamp);
      wasEncrypted := IsEncrypted(files[profile]);
      ok := true;
      if wasEncrypted {
        ok := RunSiiDecrypt(profile);
      }
    }

    /** `action_apply(profile_file)` with `list.txt` at `listFile`, once the game is not running. */
    method Apply(profile: Path, listFile: Path, stamp: string, faults: Faults) returns (r: ApplyOutcome)
      requires profile in files && profile.name == ProfileName
      modifies this
      ensures (r, files) == ApplySpec(codec, old(files), profile, listFile, stamp, faults)
    {
      if listFile !in files {
        return ListNotFound;
      }
      var backup, wasEncrypted, ok := BackupThenDecrypt(profile, stamp);
      if !ok {
        return Halted(DecryptFailed);
      }
      var listLines := ReadFileLines(listFile);
      var loaded := LoadModsFromListFile(listLines);
      if loaded.Fatal? {
        return Halted(loaded.reason);
      }
      var newMods := loaded.value;
      // try:
      if faults.readFails {
        r := Restore(profile, backup, wasEncrypted);
        return;
      }
      var content := ReadFileLines(profile);
      var replaced := ReplaceModBlock(content, newMods);
      if replaced.Fatal? {
        // `handle_fatal` exits through SystemExit, which `except Exception` does not catch.
        return Halted(replaced.reason);
      }
      WriteFileLines(profile, replaced.value, faults.writeFault);
      if faults.writeFault.Some? {
        r := Restore(profile, backup, wasEncrypted);
        return;
      }
      if wasEncrypted {
        ok := RunSiiDecrypt(profile);
        if !ok {
          return Halted(DecryptFailed);
        }
      }
      return Applied(|newMods|, backup.name);
    }

    /** `action_extract(profile_file)` with `list.txt` at `listFile`, once the game is not running. */
    method Extract(profile: Path, listFile: Path, stamp: string) returns (r: Result<nat>)
      requires profile in files && profile.name == ProfileName
      modifies this
      ensures (r, files) == ExtractSpec(codec, old(files), profile, listFile, stamp)
    {
      var backup, wasEncrypted, ok := BackupThenDecrypt(profile, stamp);
      if !ok {
        return Fatal(DecryptFailed);
      }
      var lines := ReadFileLines(profile);
      var got := GetModsFromProfile(lines);
      if got.Fatal? {
        return Fatal(got.reason);
      }
      var mods := got.value;
      if wasEncrypted {
        ok := RunSiiDecrypt(profile);
        if !ok {
          return Fatal(DecryptFailed);
        }
      }
      WriteListFile(listFile, mods);
      return Ok(|mods|);
    }

    /** The end of `action_extract`: `list.txt` is rewritten with one mod line per line. */
    method WriteListFile(listFile: Path, mods: seq<string>)
      modifies this
      ensures files == old(files)[listFile := ListFileText(mods)]
    {
      var text := "";
      for i := 0 to |mods|
        invariant text == ListFileText(mods[..i])
        invariant files == old(files)
      {
        ListFileTextSnoc(mods, i);
        text := text + (mods[i] + "\n");
      }
      assert mods[..|mods|] == mods;
      files := files[listFile := text];
    }

    /**
     * `action_clean_backups` for the profile folder `dir`, whose file names
     * `os.listdir` yields as `listing`: the backup names found and, when the
     * user confirms, every one of them deleted except those the system
     * refuses to delete (`undeletable`), whose errors are swallowed.
     */
    method CleanBackups(dir: string, listing: seq<string>, confirmed: bool, undeletable: set<Path>)
      returns (found: seq<string>)
      modifies this
      ensures found == BackupsIn(listing)
      ensures files == if confirmed then old(files) - Attempted(dir, found, undeletable) else old(files)
    {
      found := [];
      for i := 0 to |listing|
        invariant found == BackupsIn(listing[..i])
        invariant files == old(files)
      {
        assert listing[..i + 1][..i] == listing[..i];
        if IsBackupFile(listing[i]) {
          found := found + [listing[i]];
        }
      }
      assert listing[..|listing|] == listing;
      if found == [] || !confirmed {
        return;
      }
      for i := 0 to |found|
        invariant files == old(files) - Attempted(dir, found[..i], undeletable)
      {
        assert found[..i + 1][..i] == found[..i];
        var p := Path(dir, found[i]);
        if p !in undeletable {
          files := files - {p};
        }
      }
      assert found[..|found|] == found;
    }
  }

  lemma ListFileTextSnoc(mods: seq<string>, i: nat)
    requires i < |mods|
    ensures ListFileText(mods[..i + 1]) == ListFileText(mods[..i]) + (mods[i] + "\n")
  {
    assert WithNewlines(mods[..i + 1]) == WithNewlines(mods[..i]) + [mods[i] + "\n"];
    JoinAppend(WithNewlines(mods[..i]), [mods[i] + "\n"]);
    assert Join([mods[i] + "\n"]) == mods[i] + "\n" + Join([]);
  }

  // ---------------------------------------------------------------------
  // What `action_apply` and `action_extract` promise

  /** The conditions under which the manager runs: a profile named `profile.sii` and `list.txt`. */
  predicate Setting(files: map<Path, string>, profile: Path, listFile: Path) {
    profile in files && profile.name == ProfileName && listFile.name == ListName
  }

  /**
   * Once `list.txt` is found, the backup holds the profile exactly as it was
   * before anything else happened, whatever happens next.
   */
  lemma ApplyKeepsBackup(codec: string -> Option<string>, files: map<Path, string>,
                         profile: Path, listFile: Path, stamp: string, faults: Faults)
    requires Setting(files, profile, listFile)
    ensures var (r, f) := ApplySpec(codec, files, profile, listFile, stamp, faults);
      r != ListNotFound ==> BackupPath(profile, stamp) in f && f[BackupPath(profile, stamp)] == files[profile]
  {
    DistinctFiles(profile, listFile, stamp);
    KeepsBackupBy(codec, ListedMods, RewriteProfile, files, profile, listFile, stamp, faults);
  }

  lemma KeepsBackupBy(codec: string -> Option<string>, load: string -> seq<string>,
                      rewrite: (string, seq<string>) -> Option<string>, files: map<Path, string>,
                      profile: Path, listFile: Path, stamp: string, faults: Faults)
    requires profile in files && BackupPath(profile, stamp) != profile
    ensures var (r, f) := ApplyBy(codec, load, rewrite, files, profile, listFile, stamp, faults);
      r != ListNotFound ==> BackupPath(profile, stamp) in f && f[BackupPath(profile, stamp)] == files[profile]
  {
  }

  /**
   * `action_apply` touches only the profile and its backup, and nothing at
   * all when `list.txt` is missing.
   */
  lemma ApplyFrame(codec: string -> Option<string>, files: map<Path, string>,
                   profile: Path, listFile: Path, stamp: string, faults: Faults)
    requires Setting(files, profile, listFile)
    ensures var (r, f) := ApplySpec(codec, files, profile, listFile, stamp, faults);
      && (r == ListNotFound ==> f == files)
      && profile in f
      && forall p | p != profile && p != BackupPath(profile, stamp) ::
           (p in f <==> p in files) && (p in files ==> f[p] == files[p])
  {
    FrameBy(codec, ListedMods, RewriteProfile, files, profile, listFile, stamp, faults);
    UntouchedBy(codec, ListedMods, RewriteProfile, files, profile, listFile, stamp, faults);
  }

  lemma FrameBy(codec: string -> Option<string>, load: string -> seq<string>,
                rewrite: (string, seq<string>) -> Option<string>, files: map<Path, string>,
                profile: Path, listFile: Path, stamp: string, faults: Faults)
    requires profile in files
    ensures var (r, f) := ApplyBy(codec, load, rewrite, files, profile, listFile, stamp, faults);
      && (r == ListNotFound ==> f == files)
      && profile in f
  {
  }

  lemma UntouchedBy(codec: string -> Option<string>, load: string -> seq<string>,
                    rewrite: (string, seq<string>) -> Option<string>, files: map<Path, string>,
                    profile: Path, listFile: Path, stamp: string, faults: Faults)
    requires profile in files
    ensures var f := ApplyBy(codec, load, rewrite, files, profile, listFile, stamp, faults).1;
      forall p | p != profile && p != BackupPath(profile, stamp) ::
        (p in f <==> p in files) && (p in files ==> f[p] == files[p])
  {
  }

  /**
   * Rollback: when reading or writing the profile raises, the backup is
   * copied back over the profile. The tool then runs again on the restored
   * file if the profile had been encrypted, so the profile ends as the
   * tool's output on the original contents, not as the original contents.
   */
  lemma ApplyRollsBack(codec: string -> Option<string>, files: map<Path, string>,
                       profile: Path, listFile: Path, stamp: string, faults: Faults)
    requires Setting(files, profile, listFile)
    ensures var (r, f) := ApplySpec(codec, files, profile, listFile, stamp, faults);
      r == Restored ==>
        && (faults.readFails || faults.writeFault.Some?)
        && profile in f && Decrypted(codec, files[profile]) == Some(f[profile])
  {
    DistinctFiles(profile, listFile, stamp);
    RollsBackBy(codec, ListedMods, RewriteProfile, files, profile, listFile, stamp, faults);
  }

  lemma RollsBackBy(codec: string -> Option<string>, load: string -> seq<string>,
                    rewrite: (string, seq<string>) -> Option<string>, files: map<Path, string>,
                    profile: Path, listFile: Path, stamp: string, faults: Faults)
    requires profile in files && BackupPath(profile, stamp) != profile
    ensures var (r, f) := ApplyBy(codec, load, rewrite, files, profile, listFile, stamp, faults);
      r == Restored ==>
        && (faults.readFails || faults.writeFault.Some?)
        && profile in f && Decrypted(codec, files[profile]) == Some(f[profile])
  {
  }

  /** A rollback of a profile that was not encrypted restores it exactly. */
  lemma PlainRollbackRestores(codec: string -> Option<string>, files: map<Path, string>,
                              profile: Path, listFile: Path, stamp: string, faults: Faults)
    requires Setting(files, profile, listFile)
    requires !IsEncrypted(files[profile])
    ensures var (r, f) := ApplySpec(codec, files, profile, listFile, stamp, faults);
      r == Restored ==> f == files[BackupPath(profile, stamp) := files[profile]]
  {
    DistinctFiles(profile, listFile, stamp);
    PlainRollbackBy(codec, ListedMods, RewriteProfile, files, profile, listFile, stamp, faults);
  }

  lemma PlainRollbackBy(codec: string -> Option<string>, load: string -> seq<string>,
                        rewrite: (string, seq<string>) -> Option<string>, files: map<Path, string>,
                        profile: Path, listFile: Path, stamp: string, faults: Faults)
    requires profile in files && BackupPath(profile, stamp) != profile
    requires !IsEncrypted(files[profile])
    ensures var (r, f) := ApplyBy(codec, load, rewrite, files, profile, listFile, stamp, faults);
      r == Restored ==> f == files[BackupPath(profile, stamp) := files[profile]]
  {
    var (r, f) := ApplyBy(codec, load, rewrite, files, profile, listFile, stamp, faults);
    if r == Restored {
      assert f.Keys == files[BackupPath(profile, stamp) := files[profile]].Keys;
    }
  }

  /**
   * A fatal error after decryption ends the program with no rollback: the
   * profile stays as the decryption left it. This holds for `no_mods_found`
   * from the list file and for `format_error`, which `handle_fatal` raises
   * as `SystemExit` inside the `try` block, out of reach of `except Exception`.
   */
  lemma ApplyHaltsWithoutRollback(codec: string -> Option<string>, files: map<Path, string>,
                                  profile: Path, listFile: Path, stamp: string, faults: Faults)
    requires Setting(files, profile, listFile)
    ensures var (r, f) := ApplySpec(codec, files, profile, listFile, stamp, faults);
      (r == Halted(NoModsFound) || r == Halted(FormatError)) ==>
        && profile in f && listFile in files
        && Decrypted(codec, files[profile]) == Some(f[profile])
        && (r == Halted(NoModsFound) ==> ListedMods(files[listFile]) == [])
        && (r == Halted(FormatError) ==> CountLines(SplitLines(f[profile])) == [])
  {
    DistinctFiles(profile, listFile, stamp);
    HaltsBy(codec, ListedMods, RewriteProfile, files, profile, listFile, stamp, faults);
  }

  lemma HaltsBy(codec: string -> Option<string>, load: string -> seq<string>,
                rewrite: (string, seq<string>) -> Option<string>, files: map<Path, string>,
                profile: Path, listFile: Path, stamp: string, faults: Faults)
    requires profile in files && BackupPath(profile, stamp) != profile
    requires listFile != profile && listFile != BackupPath(profile, stamp)
    ensures var (r, f) := ApplyBy(codec, load, rewrite, files, profile, listFile, stamp, faults);
      (r == Halted(NoModsFound) || r == Halted(FormatError)) ==>
        && profile in f && listFile in files
        && Decrypted(codec, files[profile]) == Some(f[profile])
        && (r == Halted(NoModsFound) ==> load(files[listFile]) == [])
        && (r == Halted(FormatError) ==> rewrite(f[profile], load(files[listFile])).None?)
  {
  }

  /**
   * Success: the profile holds the rewrite of its decrypted contents with
   * the mods of `list.txt`, passed through the tool again when it was
   * encrypted; the outcome reports their number and the backup's name.
   */
  lemma ApplySucceeds(codec: string -> Option<string>, files: map<Path, string>,
                      profile: Path, listFile: Path, stamp: string, faults: Faults)
    requires Setting(files, profile, listFile)
    ensures var (r, f) := ApplySpec(codec, files, profile, listFile, stamp, faults);
      r.Applied? ==>
        && faults == Faults(false, None)
        && listFile in files && profile in f
        && var plain := Decrypted(codec, files[profile]);
        && var listed := ListedMods(files[listFile]);
        && plain.Some?
        && r == Applied(|listed|, BackupName(stamp)) && |listed| > 0
        && CountLines(SplitLines(plain.value)) != []
        && var out := RewriteFile(plain.value, Render(listed));
        && Some(f[profile]) == if IsEncrypted(files[profile]) then codec(out) else Some(out)
  {
    DistinctFiles(profile, listFile, stamp);
    SucceedsBy(codec, ListedMods, RewriteProfile, files, profile, listFile, stamp, faults);
  }

  lemma SucceedsBy(codec: string -> Option<string>, load: string -> seq<string>,
                   rewrite: (string, seq<string>) -> Option<string>, files: map<Path, string>,
                   profile: Path, listFile: Path, stamp: string, faults: Faults)
    requires profile in files && BackupPath(profile, stamp) != profile
    requires listFile != profile && listFile != BackupPath(profile, stamp)
    ensures var (r, f) := ApplyBy(codec, load, rewrite, files, profile, listFile, stamp, faults);
      r.Applied? ==>
        && faults == Faults(false, None)
        && listFile in files && profile in f
        && var plain := Decrypted(codec, files[profile]);
        && var listed := load(files[listFile]);
        && plain.Some?
        && r == Applied(|listed|, BackupName(stamp)) && |listed| > 0
        && rewrite(plain.value, listed).Some?
        && var out := rewrite(plain.value, listed).value;
        && Some(f[profile]) == if IsEncrypted(files[profile]) then codec(out) else Some(out)
  {
  }

  /**
   * For a plaintext profile with one count line, the profile `action_apply`
   * writes lists exactly the mods of `list.txt`.
   */
  lemma ApplyWritesList(codec: string -> Option<string>, files: map<Path, string>,
                        profile: Path, listFile: Path, stamp: string, faults: Faults)
    requires Setting(files, profile, listFile)
    requires !IsEncrypted(files[profile]) && |CountLines(SplitLines(files[profile]))| == 1
    ensures var (r, f) := ApplySpec(codec, files, profile, listFile, stamp, faults);
      r.Applied? ==>
        profile in f && listFile in files && ProfilePayloads(SplitLines(f[profile])) == ListedMods(files[listFile])
  {
    ApplySucceeds(codec, files, profile, listFile, stamp, faults);
    var (r, f) := ApplySpec(codec, files, profile, listFile, stamp, faults);
    if r.Applied? {
      RewriteFileReparses(files[profile], ListedMods(files[listFile]));
    }
  }

  /**
   * `action_extract`: on success the backup holds the original profile, the
   * profile is back through the tool when it was encrypted, and `list.txt`
   * holds the renumbered mod lines of the decrypted profile, one per line.
   */
  lemma ExtractWritesList(codec: string -> Option<string>, files: map<Path, string>,
                          profile: Path, listFile: Path, stamp: string)
    requires Setting(files, profile, listFile)
    ensures var (r, f) := ExtractSpec(codec, files, profile, listFile, stamp);
      r.Ok? ==>
        var plain := Decrypted(codec, files[profile]);
        && plain.Some?
        && var found := ProfilePayloads(SplitLines(plain.value));
        && r.value == |found| > 0
        && listFile in f && profile in f && BackupPath(profile, stamp) in f
        && f[listFile] == ListFileText(Render(found))
        && f[BackupPath(profile, stamp)] == files[profile]
        && Some(f[profile]) == if IsEncrypted(files[profile]) then codec(plain.value) else plain
  {
    DistinctFiles(profile, listFile, stamp);
  }

  /**
   * `action_extract` when it fails: the backup already holds the original
   * profile and `list.txt` is untouched. On `no_mods_found` the program exits
   * before the tool runs again, so the profile stays as decryption left it.
   */
  lemma ExtractHalts(codec: string -> Option<string>, files: map<Path, string>,
                     profile: Path, listFile: Path, stamp: string)
    requires Setting(files, profile, listFile)
    ensures var (r, f) := ExtractSpec(codec, files, profile, listFile, stamp);
      r.Fatal? ==>
        && BackupPath(profile, stamp) in f && f[BackupPath(profile, stamp)] == files[profile]
        && (listFile in f <==> listFile in files)
        && (listFile in files ==> f[listFile] == files[listFile])
        && (r == Fatal(NoModsFound) ==>
              && profile in f
              && Decrypted(codec, files[profile]) == Some(f[profile])
              && ProfilePayloads(SplitLines(f[profile])) == [])
  {
    DistinctFiles(profile, listFile, stamp);
  }

  /** `action_extract` changes only the profile, its backup and `list.txt`. */
  lemma ExtractFrame(codec: string -> Option<string>, files: map<Path, string>,
                     profile: Path, listFile: Path, stamp: string)
    requires Setting(files, profile, listFile)
    ensures var (r, f) := ExtractSpec(codec, files, profile, listFile, stamp);
      && profile in f
      && forall p | p != profile && p != BackupPath(profile, stamp) && p != listFile ::
           (p in f <==> p in files) && (p in files ==> f[p] == files[p])
  {
    ExtractFrameBy(codec, ProfileMods, files, profile, listFile, stamp);
  }

  lemma ExtractFrameBy(codec: string -> Option<string>, found: string -> seq<string>,
                       files: map<Path, string>, profile: Path, listFile: Path, stamp: string)
    requires Setting(files, profile, listFile)
    ensures var (r, f) := ExtractBy(codec, found, files, profile, listFile, stamp);
      && profile in f
      && forall p | p != profile && p != BackupPath(profile, stamp) && p != listFile ::
           (p in f <==> p in files) && (p in files ==> f[p] == files[p])
  {
  }

  /**
   * Extract then apply: for a plaintext profile with one count line and no
   * empty payload, writing the extracted list back leaves the profile
   * listing the same mods.
   */
  lemma ExtractThenApply(codec: string -> Option<string>, files: map<Path, string>,
                         profile: Path, listFile: Path, stamp1: string, stamp2: string)
    requires Setting(files, profile, listFile)
    requires !IsEncrypted(files[profile]) && |CountLines(SplitLines(files[profile]))| == 1
    requires forall k | 0 <= k < |ProfilePayloads(SplitLines(files[profile]))| ::
               ProfilePayloads(SplitLines(files[profile]))[k] != []
    ensures var (r1, f1) := ExtractSpec(codec, files, profile, listFile, stamp1);
      r1.Ok? ==>
        var (r2, f2) := ApplySpec(codec, f1, profile, listFile, stamp2, Faults(false, None));
        && r2 == Applied(r1.value, BackupName(stamp2))
        && profile in f2
        && ProfilePayloads(SplitLines(f2[profile])) == ProfilePayloads(SplitLines(files[profile]))
  {
    var (r1, f1) := ExtractSpec(codec, files, profile, listFile, stamp1);
    if r1.Ok? {
      ExtractWritesList(codec, files, profile, listFile, stamp1);
      var found := ProfilePayloads(SplitLines(files[profile]));
      assert f1[profile] == files[profile];
      ListFileRoundTrip(found);
      assert ListedMods(f1[listFile]) == found;
      ApplySucceeds(codec, f1, profile, listFile, stamp2, Faults(false, None));
      ApplyWritesList(codec, f1, profile, listFile, stamp2, Faults(false, None));
    }
  }

  /** The first line of a plaintext profile is neither a mod line nor the count line. */
  lemma MarkerLineIsOther(line: string)
    requires StartsWith(line, Magic)
    ensures KindOf(line) == Other
  {
    assert line[0] == 'S';
    assert TrimStart(line) == line;
    assert !StartsWith(line, EntryKey) by { assert EntryKey[0] != line[0]; }
    assert !StartsWith(line, CountKey) by { assert CountKey[0] != line[0]; }
  }

  /** The first line of a text that starts with the marker starts with it too. */
  lemma MarkerInFirstLine(text: string)
    requires StartsWith(text, Magic)
    ensures SplitLines(text) != [] && StartsWith(SplitLines(text)[0], Magic)
    ensures SplitLines(text) == [SplitLines(text)[0]] + SplitLines(text)[1..]
  {
    var n := FirstNewline(text);
    assert forall k | 0 <= k < |Magic| :: text[k] == text[..|Magic|][k];
    assert n >= |Magic|;
    if n < |text| {
      assert text[..n + 1][..|Magic|] == text[..|Magic|];
    }
  }

  /** Rewriting the mod block leaves the marker of a plaintext profile in place. */
  lemma RewriteKeepsMarker(text: string, newMods: seq<string>)
    requires StartsWith(text, Magic)
    ensures StartsWith(RewriteFile(text, newMods), Magic)
  {
    MarkerInFirstLine(text);
    var lines := SplitLines(text);
    var head := lines[0];
    MarkerLineIsOther(head);
    RewriteByAppend(KindOf, [head], lines[1..], Block(newMods));
    SingleLine(KindOf, head, Block(newMods));
    var rest := RewriteBy(KindOf, lines[1..], Block(newMods));
    JoinAppend([head], rest);
    assert Join([head]) == head;
    assert RewriteFile(text, newMods) == head + Join(rest);
  }

  /**
   * Applying the same `list.txt` twice to a plaintext profile: the second run
   * succeeds with the same count, writes a fresh backup of the profile as the
   * first run left it, and leaves that profile unchanged.
   */
  lemma ApplyTwice(codec: string -> Option<string>, files: map<Path, string>,
                   profile: Path, listFile: Path, stamp1: string, stamp2: string)
    requires Setting(files, profile, listFile)
    requires !IsEncrypted(files[profile])
    ensures var (r1, f1) := ApplySpec(codec, files, profile, listFile, stamp1, Faults(false, None));
      r1.Applied? ==>
        ApplySpec(codec, f1, profile, listFile, stamp2, Faults(false, None))
        == (Applied(r1.count, BackupName(stamp2)), f1[BackupPath(profile, stamp2) := f1[profile]])
  {
    var (r1, f1) := ApplySpec(codec, files, profile, listFile, stamp1, Faults(false, None));
    if r1.Applied? {
      DistinctFiles(profile, listFile, stamp1);
      DistinctFiles(profile, listFile, stamp2);
      ApplySucceeds(codec, files, profile, listFile, stamp1, Faults(false, None));
      UntouchedBy(codec, ListedMods, RewriteProfile, files, profile, listFile, stamp1, Faults(false, None));
      var listed := ListedMods(files[listFile]);
      var out := f1[profile];
      assert out == RewriteFile(files[profile], Render(listed));
      EncryptedIffNoMarker(files[profile]);
      RewriteKeepsMarker(files[profile], Render(listed));
      EncryptedIffNoMarker(out);
      RenderedAreModLines(listed);
      RewriteFileLines(files[profile], Render(listed));
      ReplaceIdempotent(SplitLines(files[profile]), Render(listed));
      RewriteFileIdempotent(files[profile], Render(listed));
      assert RewriteProfile(out, listed) == Some(out);
      AgainBy(codec, ListedMods, RewriteProfile, files, profile, listFile, stamp1, stamp2);
    }
  }

  lemma AgainBy(codec: string -> Option<string>, load: string -> seq<string>,
                rewrite: (string, seq<string>) -> Option<string>, files: map<Path, string>,
                profile: Path, listFile: Path, stamp1: string, stamp2: string)
    requires profile in files && !IsEncrypted(files[profile])
    requires BackupPath(profile, stamp1) != profile && BackupPath(profile, stamp2) != profile
    requires listFile != profile && listFile != BackupPath(profile, stamp1) && listFile != BackupPath(profile, stamp2)
    ensures var (r1, f1) := ApplyBy(codec, load, rewrite, files, profile, listFile, stamp1, Faults(false, None));
      r1.Applied? && !IsEncrypted(f1[profile]) && rewrite(f1[profile], load(files[listFile])) == Some(f1[profile]) ==>
        ApplyBy(codec, load, rewrite, f1, profile, listFile, stamp2, Faults(false, None))
        == (Applied(r1.count, BackupName(stamp2)), f1[BackupPath(profile, stamp2) := f1[profile]])
  {
    var (r1, f1) := ApplyBy(codec, load, rewrite, files, profile, listFile, stamp1, Faults(false, None));
    if r1.Applied? && !IsEncrypted(f1[profile]) && rewrite(f1[profile], load(files[listFile])) == Some(f1[profile]) {
      var g := f1[BackupPath(profile, stamp2) := f1[profile]];
      assert g[profile := f1[profile]] == g;
    }
  }
}
