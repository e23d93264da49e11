# ModManager ETS2: the mod-block synchronisation core, in Dafny

This project models the part of `Manager.py` that moves the list of active
mods between a Euro Truck Simulator 2 profile (`profile.sii`) and a portable
`list.txt`, and proves what that code guarantees.

- **Parsing.** `_get_mods_from_profile` reads the `active_mods[i]: <payload>`
  lines of the profile. `_load_mods_from_list_file` reads the same lines from
  `list.txt` and skips blank, `#` and `::` lines. Both renumber what they find
  `0..N-1` (`ModList`).
- **Rewriting.** `_replace_mod_block` drops every entry line and replaces every
  `active_mods: <n>` count line with a new count line followed by the new mod
  lines (`ModBlock`).
- **Line syntax.** The regular expressions are written out as functions over
  characters (`SiiLines`). `\s` is the whitespace class of Python's
  `str.isspace`, `\d` is an ASCII digit, and `m.group(1).strip()` is `Strip`
  applied to what `(.+)` captures.
- **Text files.** A file's contents are a `string`. Iterating a text file is
  `Text.SplitLines` (each line keeps its `"\n"`), and `writelines` is
  `Text.Join`.
- **Profile files.** `_is_encrypted` checks the first eight bytes against
  `SiiNunit`. The backup is named `profile_backup_<ts>.sii`, and
  `action_clean_backups` filters file names by that prefix and suffix
  (`ProfileFiles`).
- **Actions.** `action_extract`, `action_apply` and `action_clean_backups` run
  against `Transaction.FileStore`, a class whose `files` field maps each path
  to its contents.
  - `SII_Decrypt.exe` is the uninterpreted function `codec`. On success it
    replaces a file's contents `c` with `codec(c).value`; when it fails
    (`codec(c) == None`), `handle_fatal("decrypt_failed")` exits the program.
  - `handle_fatal` ends the program where it stands. The model returns this
    as `Outcome.Fatal(reason)`, or as `Halted(reason)` for an apply.
  - The exceptions that `action_apply`'s `try` block can meet are the
    parameter `Faults`: the read raises, or the write raises after writing a
    prefix of the text.
- **Specifications.** Each action method is proved equal to a function
  (`ApplySpec`, `ExtractSpec`) over the old store. The action's properties are
  lemmas about those functions. The frame, backup, rollback and halt lemmas
  are proved once for any list loader and any rewriter (`ApplyBy`, lemmas
  ending in `By`), then applied to the real ones.

Four behaviours of the code that are easy to miss:

- Every count line in the profile is replaced, and each is followed by the
  full list, so a profile with k count lines gets k blocks. Only a profile
  with exactly one count line reads back as the list.
  (`EntriesAreReplaced`, `CountLinesAreRenewed`, `RewriteFileReparses`)
- `handle_fatal` exits through `SystemExit`, which `except Exception` does not
  catch. So `format_error` raised inside the `try` block of `action_apply` is
  not rolled back. The same holds for `no_mods_found` from `list.txt`, which
  happens after decryption. The profile stays as decryption left it.
  (`ApplyHaltsWithoutRollback`)
- The rollback copies the backup over the profile, then runs `SII_Decrypt.exe`
  again when the profile had been encrypted (`Manager.py:429`). The restored
  profile is therefore the tool's output on the original, not the original.
  Only a plaintext profile is restored byte for byte.
  (`ApplyRollsBack`, `PlainRollbackRestores`)
- In `action_extract`, `no_mods_found` exits from inside
  `_get_mods_from_profile` (`Manager.py:494`), before the tool runs again
  (`Manager.py:381-382`). An encrypted profile with no mods is left decrypted
  on disk, and `list.txt` is not written. (`ExtractHalts`)

## Model

| member | source | states |
|---|---|---|
| ProfileFiles.IsEncrypted | Manager.py:571-572 | `f.read(8) != b"SiiNunit"`: the first eight characters, or the whole file when shorter, differ from the marker |
| ProfileFiles.IsBackupFile | Manager.py:459 | the clean-up filter: the name starts with `profile_backup_` and ends with `.sii` |
| SiiLines.IsEntryLine | Manager.py:512 | `^\s*active_mods\[\d+\]` matches: after leading whitespace, the key, one or more digits and `]` |
| SiiLines.IsCountLine | Manager.py:513 | `^\s*active_mods:\s*\d+` matches: after leading whitespace, `active_mods:`, optional whitespace and a digit |
| SiiLines.IsSkipped | Manager.py:503 | the stripped list line is empty or starts with `#` or `::` |
| SiiLines.FormatEntry | Manager.py:493 | the f-string `f" active_mods[{len(mods)}]: {val}"` for position `i` and payload `val` |
| SiiLines.CountText | Manager.py:518 | the line `f" active_mods: {len(new_mods)}\n"` |
| ModList.Render | Manager.py:507 | the mod lines both parsers return: payload `k` formatted with index `k` |
| ModList.ListFileText | Manager.py:384-385 | the text of `list.txt`: each mod line followed by `"\n"` |
| ModBlock.Block | Manager.py:518-519 | what replaces one count line: the new count line, then each new mod line with `"\n"` |
| ModBlock.RewriteBy | Manager.py:515-522 | the loop over the lines for a given classification: entries dropped, count lines replaced by the block, other lines kept, in order |
| ModBlock.Select | Manager.py:515-522 | the lines of one kind, in order: never more than the input, and every selected line is an input line of that kind |
| ModBlock.Rewrite | Manager.py:515-522 | `RewriteBy` with the source's two patterns and the block for `new_mods` |
| Text.Strip | Manager.py:502 | `str.strip()`: leading and trailing `str.isspace` characters removed |
| Text.SplitLines | Manager.py:578 | `readlines()`/`for line in f`: each line keeps its `"\n"`, and an unterminated last line is yielded only when nonempty |
| Text.Join | Manager.py:581 | `writelines`: the lines one after the other |
| Transaction.RestoreSpec | Manager.py:425-431 | the `except` branch: the backup copied over the profile, then the tool run again when the profile was encrypted; `decrypt_failed` if that run fails |
| Transaction.ApplyBy | Manager.py:411-434 | the steps of `action_apply` for any list loader and rewriter: no `list.txt` leaves the store alone; backup, decrypt, load, then the `try` block with its faults and its fatal errors, then re-encryption |
| Transaction.ApplySpec | Manager.py:403-434 | `ApplyBy` with `_load_mods_from_list_file` on `list.txt` and `_replace_mod_block` written back with `writelines` |
| Transaction.ExtractSpec | Manager.py:377-385 | backup, decrypt, parse the profile (`no_mods_found` when empty), run the tool again if it was encrypted, then write `list.txt` |
| Transaction.ExtractBy | Manager.py:377-385 | the steps of `action_extract` for any profile parser: backup, decrypt, parse (`no_mods_found` when empty), the tool again if encrypted, then `list.txt` |
| Transaction.ProfileMods | Manager.py:485-495 | the payloads `_get_mods_from_profile` finds in the profile's text, in order |
| Transaction.ListedMods | Manager.py:497-509 | the payloads `_load_mods_from_list_file` finds in the text of `list.txt`, in order |
| Transaction.RewriteProfile | Manager.py:511-524 | `_replace_mod_block` on the profile's lines with the mods, joined as `writelines` writes them; `None` when no count line exists (`format_error`) |
| Transaction.Decrypted | Manager.py:560-569 | the profile's contents once `_decrypt_if_needed` has run: the tool's output when encrypted, unchanged otherwise, `None` when the tool fails |
| Transaction.Attempted | Manager.py:471-475 | the paths the delete loop tries: each found name joined to the profile folder, less those the system refuses to remove |
| ModBlock.RewriteFile | Manager.py:422-424 | the text written back: the profile read as lines, passed through `_replace_mod_block`, joined again |
| ModBlock.Image | Manager.py:516-522 | one pass of the loop: nothing for an entry line, the count line and the new entries for a count line, the line itself otherwise |
| ModList.WithNewlines | Manager.py:519 | each mod line followed by `"\n"`, as the loop appends them (and as `f.write(line + "\n")` writes `list.txt`) |
| ModList.GetModsFromProfile | Manager.py:485-495 | `no_mods_found` exactly when no line matches `^\s*active_mods\[\d+\]:\s*(.+)`; otherwise the matched payloads in file order, renumbered from 0 |
| ModList.LoadModsFromListFile | Manager.py:497-509 | skips blank, `#` and `::` lines on the stripped line and ignores lines that do not match; `no_mods_found` exactly when nothing matches; otherwise the payloads renumbered from 0 |
| ModList.Collect | Manager.py:489-493 | a line-by-line parser returns at most one payload per line |
| ModList.ProfilePayloads | Manager.py:490-492 | every payload the profile parser returns is stripped and holds no newline |
| ModList.ListPayloads | Manager.py:502-506 | every payload the list loader returns is stripped and holds no newline |
| ModList.NoProfileMods | Manager.py:494 | the profile parser finds nothing if and only if no line matches the entry pattern with a payload |
| ModList.NoListMods | Manager.py:508 | the list loader finds nothing if and only if no line is a non-comment entry with a payload |
| ModList.SkippedLineIgnored | Manager.py:502-503 | inserting a blank, `#` or `::` line anywhere in `list.txt` does not change what the loader returns |
| ModList.CollectAppend | Manager.py:489-493 | parsing a file in two parts returns the first part's payloads followed by the second's |
| ModList.RenderedLinesReparse | Manager.py:493 | the renumbered lines the parsers build parse back to the same payloads |
| ModList.RenderedLinesReload | Manager.py:498-507 | the same lines reload through the list loader when no payload is empty |
| ModList.ListFileLines | Manager.py:384-385 | reading `list.txt` as written by extract yields exactly the lines written |
| ModList.ListFileRoundTrip | Manager.py:384-385 | the list file written by extract loads back to the same payloads when none is empty |
| ModList.ExtractThenLoad | Manager.py:379 | the mod lines the profile parser returns come back unchanged through `list.txt` when no payload is empty |
| ModList.EmptyPayloadDropped | Manager.py:498 | an entry with an empty payload is read from the profile but lost on reload from `list.txt` |
| SiiLines.AfterIndex | Manager.py:486 | a match of `active_mods\[\d+\]` is the key, one or more digits and `]` |
| SiiLines.Capture | Manager.py:486 | the `\s*(.+)` part after the `:` (which `PayloadAfterIndex` matches), then `strip()`: matches if and only if the rest holds a character other than newline, and then yields a stripped one-line payload |
| SiiLines.PayloadAfterIndex | Manager.py:498 | a list-file payload is found only after an `active_mods[<digits>]` prefix |
| SiiLines.ProfileMatch | Manager.py:486-492 | a profile payload is found only on an entry line, and it is stripped and on one line |
| SiiLines.ListMatch | Manager.py:502-506 | a list payload is found only on a line whose stripped form is not blank or a comment |
| SiiLines.ListMatchStripped | Manager.py:502-504 | the list loader looks only at the stripped line |
| SiiLines.FormatEntryParses | Manager.py:493 | a built mod line, with its newline, is an entry line, is not a count line, and parses back to its payload |
| SiiLines.FormatEntryReloads | Manager.py:507 | a built mod line reloads to its payload, except when the payload is empty |
| SiiLines.CountTextIsCount | Manager.py:518 | the count line the rewriter writes matches the count pattern and not the entry pattern |
| SiiLines.CountTextIsFull | Manager.py:518 | the count line the rewriter writes is one full line |
| SiiLines.EntryIsNotCount | Manager.py:512-513 | no line matches both the entry and the count pattern |
| ModBlock.KindOf | Manager.py:516-517 | a line is classified as an entry exactly when it matches the entry pattern, and as a count line exactly when it matches the count pattern |
| ModBlock.ReplaceModBlock | Manager.py:511-524 | `format_error` exactly when no line matches the count pattern; otherwise the rewrite: entries dropped, each count line replaced by the new count line and the new mod lines, other lines kept in order |
| ModBlock.AppendBlock | Manager.py:518-519 | appends the count line for the new list, then each new mod line with its newline |
| ModBlock.NoCountLine | Manager.py:523 | `format_error` is raised if and only if no line is a count line |
| ModBlock.OtherLinesPassThrough | Manager.py:522 | the lines that are neither entries nor count lines come out unchanged and in order |
| ModBlock.EntriesAreReplaced | Manager.py:516-519 | the entry lines of the result are the new mod lines, repeated once per count line of the input |
| ModBlock.CountLinesAreRenewed | Manager.py:517-518 | the result has one count line `active_mods: <len(new_mods)>` per count line of the input |
| ModBlock.SingleCountLine | Manager.py:515-522 | with exactly one count line, the result is the other lines before it, the new block, then the other lines after it |
| ModBlock.RewriteByAppend | Manager.py:515 | the rewrite works line by line: rewriting two parts of a file is rewriting the whole |
| ModBlock.OthersKept | Manager.py:522 | for any classification, rewriting keeps the other lines |
| ModBlock.EntriesFromBlocks | Manager.py:516-519 | for any classification, the entries of the result come only from the blocks |
| ModBlock.CountsFromBlocks | Manager.py:517-518 | for any classification, the count lines of the result come only from the blocks |
| ModBlock.RewriteByIdempotent | Manager.py:511-524 | for any classification, rewriting a rewritten file with the same block changes nothing |
| ModBlock.RewriteByWithoutCount | Manager.py:515-522 | with no count line, the rewrite only removes the entries |
| ModBlock.CollectAfterRewrite | Manager.py:485-495 | parsing a rewritten file returns the block's payloads once per count line |
| ModBlock.BlockIsBlock | Manager.py:518-519 | the inserted block is a count line followed by entry lines only |
| ModBlock.BlockReparses | Manager.py:518-519 | the inserted block parses back to the new payloads |
| ModBlock.RewriteReparses | Manager.py:511-524 | the profile parser reads the rewritten profile as the new payloads repeated once per count line |
| ModBlock.RewriteThenParse | Manager.py:511-524 | with one count line, the profile parser reads the rewritten profile as exactly the new list |
| ModBlock.RenderedAreModLines | Manager.py:507 | the lines the list loader builds are one-line entries the rewriter recognises |
| ModBlock.ReplaceIdempotent | Manager.py:511-524 | a rewritten profile still has a count line, and rewriting it again with the same list changes nothing |
| ModBlock.BlockIsFull | Manager.py:518-519 | every inserted line ends with its newline |
| ModBlock.RewriteByWellFormed | Manager.py:515-522 | the rewrite of the lines of a file is again a well-formed sequence of lines |
| ModBlock.RewriteFileLines | Manager.py:422-424 | reading back the written profile yields exactly the rewritten lines |
| ModBlock.RewriteFileIdempotent | Manager.py:422-424 | writing the same list into a profile twice gives the same file as writing it once |
| ModBlock.RewriteFileReparses | Manager.py:422-424 | for a profile with one count line, the written profile parses back to exactly the new list |
| Text.FirstNewline | Manager.py:489 | the position where a line ends: no newline before it |
| Text.LeadingDigits | Manager.py:486 | what `\d+` consumes: digits only, up to the first non-digit |
| Text.StripIsStripped | Manager.py:492 | `strip()` leaves no whitespace at either end and never lengthens the text |
| Text.StrippedIsFixed | Manager.py:502 | stripping a stripped line changes nothing |
| Text.StripIsSlice | Manager.py:502 | a stripped line is a slice of the original line |
| Text.JoinSplitLines | Manager.py:577-581 | writing back the lines read from a file reproduces the file |
| Text.SplitLinesJoin | Manager.py:577-581 | reading a file written from well-formed lines yields the same lines |
| Text.SplitLinesWellFormed | Manager.py:578 | the lines read from any file are well formed: only the last may lack its newline |
| Text.JoinAppend | Manager.py:581 | writing two lists of lines writes the first list's text, then the second's |
| Text.DecimalString | Manager.py:493 | `str(n)` is a nonempty run of digits without a leading zero |
| ProfileFiles.EncryptedIffNoMarker | Manager.py:571-572 | a profile counts as encrypted if and only if it does not start with `SiiNunit` |
| ProfileFiles.ShortFileIsEncrypted | Manager.py:572 | a file shorter than eight bytes counts as encrypted |
| ProfileFiles.EncryptedByHeader | Manager.py:572 | only the first eight bytes decide |
| ProfileFiles.BackupName | Manager.py:554 | the length of a backup name is the prefix, the time stamp and the suffix |
| ProfileFiles.BackupNameIsFiltered | Manager.py:553-555 | every backup name passes the clean-up filter, whatever the time stamp |
| ProfileFiles.FilteredIsBackupName | Manager.py:459 | every name the filter keeps is the backup name of the text between prefix and suffix |
| ProfileFiles.Stamp | Manager.py:553 | `%Y%m%d_%H%M%S` is fifteen characters with `_` in the ninth place |
| ProfileFiles.StampInjective | Manager.py:553-554 | two backups share a name exactly when they were taken in the same second |
| ProfileFiles.ProfileIsNotBackup | Manager.py:459 | the filter never selects `profile.sii` |
| Transaction.BackupPath | Manager.py:555 | the backup goes next to the profile, under a name the filter keeps |
| Transaction.BackupIsNotProfile | Manager.py:555 | the backup never overwrites the profile |
| Transaction.DistinctFiles | Manager.py:555 | the profile, its backup and `list.txt` are three different files |
| Transaction.Tool | Manager.py:574-575 | the tool changes only the file it runs on, or nothing when it fails |
| Transaction.BackupAndDecrypt | Manager.py:556-569 | the backup is taken first, and decryption keeps the set of files |
| Transaction.BackupsIn | Manager.py:459 | the names found are exactly the listed names the filter keeps |
| Transaction.AttemptedAreBackups | Manager.py:471-475 | the bulk delete only removes filtered names in the profile folder, skipping those the system refuses |
| Transaction.AttemptedCovers | Manager.py:471-475 | every found backup is removed unless the system refuses to delete it |
| Transaction.CleanRemovesBackups | Manager.py:458-475 | after a confirmed clean-up, only backups the system refused to delete remain, and every other file is untouched |
| Transaction.FileStore.Copy | Manager.py:556 | `copy2` puts the source's contents at the destination and changes nothing else |
| Transaction.FileStore.RunSiiDecrypt | Manager.py:574-575 | the tool's output replaces the file on success; `decrypt_failed` otherwise |
| Transaction.FileStore.CreateProfileBackup | Manager.py:552-558 | the backup, next to the profile under the time-stamped name, holds the profile |
| Transaction.FileStore.ReadFileLines | Manager.py:577-578 | `readlines` yields the lines of the file |
| Transaction.FileStore.WriteFileLines | Manager.py:580-581 | the file becomes the lines written one after the other, or the prefix written before a fault |
| Transaction.FileStore.Restore | Manager.py:427-429 | the backup is copied over the profile, and the tool runs again when the profile was encrypted |
| Transaction.FileStore.BackupThenDecrypt | Manager.py:416-417 | a backup is taken, then the profile is decrypted when it lacks the marker |
| Transaction.FileStore.Apply | Manager.py:403-434 | `action_apply` changes the store exactly as `ApplySpec` says |
| Transaction.FileStore.Extract | Manager.py:377-385 | `action_extract` changes the store exactly as `ExtractSpec` says |
| Transaction.FileStore.WriteListFile | Manager.py:384-385 | `list.txt` becomes the mod lines, each followed by a newline |
| Transaction.FileStore.CleanBackups | Manager.py:453-479 | finds the filtered names; when confirmed, tries to delete each of them and changes nothing else |
| Transaction.ApplyKeepsBackup | Manager.py:416-427 | once `list.txt` exists, the backup holds the original profile whatever happens next |
| Transaction.ApplyFrame | Manager.py:411-434 | apply touches only the profile and its backup, and nothing when `list.txt` is missing |
| Transaction.ApplyRollsBack | Manager.py:421-431 | a rollback happens only after a read or write fault, and leaves the profile as the decryption of the original |
| Transaction.PlainRollbackRestores | Manager.py:425-431 | for a plaintext profile, a rollback leaves the store as before, plus the backup |
| Transaction.ApplyHaltsWithoutRollback | Manager.py:418-423 | `no_mods_found` and `format_error` leave the profile decrypted, with no rollback |
| Transaction.ApplySucceeds | Manager.py:416-449 | success means no fault, and a nonempty list whose length and backup name are reported; the profile is the decrypted profile rewritten with the list, passed through the tool again if it was encrypted |
| Transaction.ApplyWritesList | Manager.py:418-424 | for a plaintext profile with one count line, the applied profile lists exactly the mods of `list.txt` |
| Transaction.ApplyTwice | Manager.py:403-434 | applying the same `list.txt` twice to a plaintext profile succeeds with the same count and leaves the profile unchanged |
| Transaction.RewriteKeepsMarker | Manager.py:511-524 | rewriting a plaintext profile keeps its `SiiNunit` marker |
| Transaction.ExtractWritesList | Manager.py:377-385 | on success the backup holds the original, the profile is re-run through the tool if it was encrypted, and `list.txt` holds the renumbered mods |
| Transaction.ExtractHalts | Manager.py:377-382 | when extract fails the backup holds the original and `list.txt` is untouched; on `no_mods_found` the profile is left as decryption made it, with no mods in it |
| Transaction.ExtractFrame | Manager.py:377-385 | extract changes nothing but the profile, its backup and `list.txt`, and the profile is still there |
| Transaction.ExtractThenApply | Manager.py:377-434 | extracting and then applying leaves a plaintext profile with one count line listing the same mods, when no payload is empty |

## Left out

- The user interface is not modelled: menus, colours, localisation, the loading spinner, `input` prompts and `time.sleep`. The answer to the clean-up confirmation is the boolean `confirmed`.
- The check for a running game (`_handle_game_running`) is not modelled. Each action starts after it has returned `True`.
- The download of `SII_Decrypt.exe` is not modelled. The tool's internals are the uninterpreted `codec`, and a failed run is assumed to leave the file unchanged.
- The clock is a parameter. `_create_profile_backup` takes its time stamp as a string, and `ProfileFiles.Stamp` formats a `DateTime` whose year has four digits.
- `os.listdir` is the parameter `listing`. Failed `os.remove` calls are the set `undeletable`.
- Text is treated as characters. The model omits UTF-8 decoding, `errors="replace"` and newline translation. `\d` is taken as ASCII digits, while Python's `re` also accepts other Unicode digits.
- The model does not cover exceptions outside `action_apply`'s `try` block, such as a failing backup copy or a failing write of `list.txt` in `action_extract`. Those errors end the program in the source.
- Transaction.RestoreSpec: assumes the restore copy `shutil.copy2(backup_path, profile_file)` in the `except` handler (Manager.py:427) succeeds. In the source a failure there raises out of the handler uncaught, and that outcome is never reported; the model has no outcome for it.
- Transaction.FileStore.CleanBackups: returns without deleting when nothing is found, as the source does; the "no backups" and "deleted" messages are not modelled.
- The profile is assumed to be called `profile.sii` and `list.txt` to be called `list.txt`. Both are needed to prove that the backup, the profile and the list file are distinct files.
