/**
 * The two file-name and file-header conventions the mod manager relies on:
 * the `SiiNunit` marker that tells a plaintext profile from an encrypted one,
 * and the names of the backups `_create_profile_backup` writes next to the
 * profile, which `action_clean_backups` must recognise to delete them.
 */
module ProfileFiles {
  import opened Text

  /** The first eight bytes of a plaintext `.sii` file. */
  const Magic: string := "SiiNunit"

  /**
   * `_is_encrypted`: `f.read(8)` yields at most the first eight bytes, and the
   * file counts as encrypted whenever they are not exactly the marker.
   */
  predicate IsEncrypted(content: string) {
    var n := if |content| < |Magic| then |content| else |Magic|;
    content[..n] != Magic
  }

  /** A file is plaintext exactly when it starts with the marker. */
  lemma EncryptedIffNoMarker(content: string)
    ensures IsEncrypted(content) <==> !StartsWith(content, Magic)
  {
  }

  /** A file shorter than the marker, the empty file included, counts as encrypted. */
  lemma ShortFileIsEncrypted(content: string)
    requires |content| < |Magic|
    ensures IsEncrypted(content)
  {
    assert |content[..|content|]| != |Magic|;
  }

  /** Only the first eight bytes matter. */
  lemma EncryptedByHeader(header: string, rest: string)
    requires |header| == |Magic|
    ensures IsEncrypted(header + rest) <==> header != Magic
  {
    assert (header + rest)[..|Magic|] == header;
  }

  const BackupPrefix: string := "profile_backup_"
  const BackupSuffix: string := ".sii"

  /** The name `_create_profile_backup` gives the backup taken at time stamp `ts`. */
  function BackupName(ts: string): (name: string)
    ensures |name| == |BackupPrefix| + |ts| + |BackupSuffix|
  {
    BackupPrefix + ts + BackupSuffix
  }

  /** The filter of `action_clean_backups`: the names it offers to delete. */
  predicate IsBackupFile(name: string) {
    StartsWith(name, BackupPrefix) && EndsWith(name, BackupSuffix)
  }

  /** Every backup the tool writes is found by the clean-up filter, whatever its time stamp. */
  lemma BackupNameIsFiltered(ts: string)
    ensures IsBackupFile(BackupName(ts))
  {
    var name := BackupName(ts);
    assert name[..|BackupPrefix|] == BackupPrefix;
    assert name[|name| - |BackupSuffix|..] == BackupSuffix;
  }

  /**
   * The filter accepts nothing else: a name it accepts is long enough for the
   * prefix and the suffix not to overlap, and is the backup name of what
   * lies between them.
   */
  lemma FilteredIsBackupName(name: string)
    requires IsBackupFile(name)
    ensures |name| >= |BackupPrefix| + |BackupSuffix|
    ensures name == BackupName(name[|BackupPrefix|..|name| - |BackupSuffix|])
  {
    // The suffix starts with '.', which "profile_backup_" does not contain,
    // so the suffix cannot begin inside the prefix.
    assert name[|name| - |BackupSuffix|] == '.';
    assert forall k | 0 <= k < |BackupPrefix| :: BackupPrefix[k] != '.';
    assert forall k | 0 <= k < |BackupPrefix| :: name[k] == BackupPrefix[k];
    var ts := name[|BackupPrefix|..|name| - |BackupSuffix|];
    assert name == name[..|BackupPrefix|] + ts + name[|name| - |BackupSuffix|..];
  }

  /** A local time as `datetime.now()` yields it. */
  datatype DateTime = DateTime(year: nat, month: nat, day: nat, hour: nat, minute: nat, second: nat)

  predicate ValidDateTime(t: DateTime) {
    && 1000 <= t.year <= 9999
    && 1 <= t.month <= 12 && 1 <= t.day <= 31
    && t.hour < 24 && t.minute < 60 && t.second < 60
  }

  function DigitChar(d: nat): char
    requires d < 10
  {
    '0' + d as char
  }

  /** `n` in exactly two decimal digits, with a leading zero when needed. */
  function Pad2(n: nat): (r: string)
    requires n < 100
    ensures |r| == 2
  {
    [DigitChar(n / 10), DigitChar(n % 10)]
  }

  /** `n` in exactly four decimal digits. */
  function Pad4(n: nat): (r: string)
    requires n < 10000
    ensures |r| == 4
  {
    Pad2(n / 100) + Pad2(n % 100)
  }

  /** `strftime("%Y%m%d_%H%M%S")`. */
  function Stamp(t: DateTime): (r: string)
    requires ValidDateTime(t)
    ensures |r| == 15 && r[8] == '_'
  {
    Pad4(t.year) + Pad2(t.month) + Pad2(t.day) + "_" + Pad2(t.hour) + Pad2(t.minute) + Pad2(t.second)
  }

  lemma Pad2Injective(a: nat, b: nat)
    requires a < 100 && b < 100 && Pad2(a) == Pad2(b)
    ensures a == b
  {
    assert Pad2(a)[0] == Pad2(b)[0] && Pad2(a)[1] == Pad2(b)[1];
  }

  lemma Pad4Injective(a: nat, b: nat)
    requires a < 10000 && b < 10000 && Pad4(a) == Pad4(b)
    ensures a == b
  {
    assert Pad4(a)[..2] == Pad2(a / 100) && Pad4(b)[..2] == Pad2(b / 100);
    assert Pad4(a)[2..] == Pad2(a % 100) && Pad4(b)[2..] == Pad2(b % 100);
    Pad2Injective(a / 100, b / 100);
    Pad2Injective(a % 100, b % 100);
  }

  /**
   * Backups taken in different seconds get different names, so none
   * overwrites another; two taken within the same second share one name.
   */
  lemma StampInjective(t: DateTime, u: DateTime)
    requires ValidDateTime(t) && ValidDateTime(u)
    ensures BackupName(Stamp(t)) == BackupName(Stamp(u)) <==> t == u
  {
    if BackupName(Stamp(t)) == BackupName(Stamp(u)) {
      var s, v := Stamp(t), Stamp(u);
      assert s == BackupName(s)[|BackupPrefix|..|BackupPrefix| + 15];
      assert v == BackupName(v)[|BackupPrefix|..|BackupPrefix| + 15];
      assert s == v;
      assert s[..4] == Pad4(t.year) && v[..4] == Pad4(u.year);
      assert s[4..6] == Pad2(t.month) && v[4..6] == Pad2(u.month);
      assert s[6..8] == Pad2(t.day) && v[6..8] == Pad2(u.day);
      assert s[9..11] == Pad2(t.hour) && v[9..11] == Pad2(u.hour);
      assert s[11..13] == Pad2(t.minute) && v[11..13] == Pad2(u.minute);
      assert s[13..] == Pad2(t.second) && v[13..] == Pad2(u.second);
      Pad4Injective(t.year, u.year);
      Pad2Injective(t.month, u.month);
      Pad2Injective(t.day, u.day);
      Pad2Injective(t.hour, u.hour);
      Pad2Injective(t.minute, u.minute);
      Pad2Injective(t.second, u.second);
    }
  }

  /** The plaintext profile the manager edits is never taken for a backup by the clean-up filter. */
  lemma ProfileIsNotBackup()
    ensures !IsBackupFile("profile.sii")
  {
    assert "profile.sii"[7] != BackupPrefix[7];
  }
}
