/**
 * The `build` command of src/commands/android.ts: after `flutter build apk --<buildType>`, the
 * standard package is renamed to `prefix-buildType-<generateTimestamp()>.apk`. The directory is
 * its list of entries after the Flutter build; the clock is the `LocalTime` passed in.
 */
module Build {
  import opened Wrappers
  import opened Text
  import opened Process
  import opened Timestamp
  import opened ApkResolver
  import Install
  import Seqs

  /** The directory after the rename, and the new name. */
  datatype Built = Built(entries: seq<string>, newName: string)

  /** `renameSync(from, to)`: `from` disappears and `to` (replaced if it existed) appears. */
  function Rename(entries: seq<string>, from: string, to: string): (r: seq<string>)
    ensures to in r
    ensures from != to ==> from !in r
    ensures forall e :: e in entries && e != from ==> e in r
    ensures forall e :: e in r ==> e == to || (e in entries && e != from)
  {
    Seqs.Filter(entries, e => e != from && e != to) + [to]
  }

  /** The file name a build run at `now` produces. */
  function RenamedApk(prefix: string, buildType: string, now: LocalTime): string
  {
    TimestampedName(prefix, buildType, GenerateTimestamp(now))
  }

  /** `options.release ? 'release' : 'debug'`. */
  function BuildType(release: bool): (buildType: string)
    ensures buildType == "release" || buildType == "debug"
    ensures release <==> buildType == "release"
    ensures RegexLiteral(buildType) && Install.SupportedBuildType(buildType)
  {
    if release then "release" else "debug"
  }

  /** The build command after its options are parsed. `renameError` is the message `renameSync`
      throws, or `None` when the rename succeeds; a thrown error is caught and is fatal. */
  function BuildCommand(release: bool, name: Option<string>, flutterProject: bool, flutterBuild: Run,
                        entries: seq<string>, renameError: Option<string>, now: LocalTime): (r: Result<Built, Fatal>)
    ensures !flutterProject ==> r == Failure(NotFlutterProject)
    ensures flutterProject && flutterBuild.Threw? ==> r == Failure(CommandFailed(flutterBuild.message))
    ensures flutterProject && flutterBuild.Completed? && StandardName(Install.NamePrefix(name), BuildType(release)) !in entries ==>
      r == Failure(BuiltApkMissing(StandardName(Install.NamePrefix(name), BuildType(release))))
    ensures (flutterProject && flutterBuild.Completed? && renameError.Some?
             && StandardName(Install.NamePrefix(name), BuildType(release)) in entries) ==>
      r == Failure(CommandFailed(renameError.value))
    ensures r.Success? <==>
      && flutterProject && flutterBuild.Completed?
      && StandardName(Install.NamePrefix(name), BuildType(release)) in entries
      && renameError.None?
    ensures r.Success? ==> var buildType := BuildType(release);
      && StandardName(Install.NamePrefix(name), buildType) in entries
      && r.value.newName == RenamedApk(Install.NamePrefix(name), buildType, now)
      && r.value.entries == Rename(entries, StandardName(Install.NamePrefix(name), buildType), r.value.newName)
  {
    if !flutterProject then Failure(NotFlutterProject)
    else if flutterBuild.Threw? then Failure(CommandFailed(flutterBuild.message))
    else
      var buildType := BuildType(release);
      var prefix := Install.NamePrefix(name);
      var original := StandardName(prefix, buildType);
      if original !in entries then Failure(BuiltApkMissing(original))
      else if renameError.Some? then Failure(CommandFailed(renameError.value))
      else
        var newName := RenamedApk(prefix, buildType, now);
        Success(Built(Rename(entries, original, newName), newName))
  }

  /** The renamed file has the exact form the resolver scans for, and its sort key is the
      generated stamp. */
  lemma RenamedApkMatches(prefix: string, buildType: string, now: LocalTime)
    requires Valid(now)
    ensures IsTimestampedApk(prefix, buildType, RenamedApk(prefix, buildType, now))
    ensures CapturedTimestamp(prefix, buildType, RenamedApk(prefix, buildType, now)) == GenerateTimestamp(now)
  {
    CapturedOfTimestampedName(prefix, buildType, GenerateTimestamp(now));
  }

  /** Two timestamped names with the same stamp are the same name. */
  lemma SameStampSameName(prefix: string, buildType: string, a: string, b: string)
    requires IsTimestampedApk(prefix, buildType, a) && IsTimestampedApk(prefix, buildType, b)
    requires CapturedTimestamp(prefix, buildType, a) == CapturedTimestamp(prefix, buildType, b)
    ensures a == b
  {
    var head := StampHead(prefix, buildType);
    var k := |head|;
    CapturedStamp(prefix, buildType, a);
    CapturedStamp(prefix, buildType, b);
    assert a == a[..k] + a[k..k + 12] + a[k + 12..];
    assert b == b[..k] + b[k..k + 12] + b[k + 12..];
  }

  /** After a build at `now`, installing without `--file` finds a timestamped package whose stamp
      is no earlier than this build's; when no listed package carries a later stamp, it is exactly
      this build's. */
  lemma InstallFindsBuild(release: bool, name: Option<string>, flutterBuild: Run, entries: seq<string>,
                          now: LocalTime, built: Built)
    requires Valid(now)
    requires RegexLiteral(Install.NamePrefix(name))
    requires BuildCommand(release, name, true, flutterBuild, entries, None, now) == Success(built)
    ensures var found := FindApk(Present(built.entries, true), BuildType(release), Install.NamePrefix(name));
      && found.Some?
      && IsTimestampedApk(Install.NamePrefix(name), BuildType(release), found.value)
      && !LexLess(CapturedTimestamp(Install.NamePrefix(name), BuildType(release), found.value), GenerateTimestamp(now))
      && (NoLaterStamp(Install.NamePrefix(name), BuildType(release), entries, now) ==>
            found.value == RenamedApk(Install.NamePrefix(name), BuildType(release), now))
  {
    var buildType := BuildType(release);
    var prefix := Install.NamePrefix(name);
    var renamed := RenamedApk(prefix, buildType, now);
    var after := Rename(entries, StandardName(prefix, buildType), renamed);
    assert built.entries == after;
    RenamedApkMatches(prefix, buildType, now);
    NotFoundIff(Present(after, true), buildType, prefix);
    assert renamed in after;
    var found := FindApk(Present(after, true), buildType, prefix);
    FindsRenamed(prefix, buildType, entries, now, found.value);
  }

  /** No timestamped entry carries a stamp later than `now`'s. */
  predicate NoLaterStamp(prefix: string, buildType: string, entries: seq<string>, now: LocalTime)
  {
    forall e :: e in entries && IsTimestampedApk(prefix, buildType, e) ==>
      !LexLess(GenerateTimestamp(now), CapturedTimestamp(prefix, buildType, e))
  }

  lemma FindsRenamed(prefix: string, buildType: string, entries: seq<string>, now: LocalTime, found: string)
    requires Valid(now) && RegexLiteral(prefix) && RegexLiteral(buildType)
    requires FindApk(Present(Rename(entries, StandardName(prefix, buildType), RenamedApk(prefix, buildType, now)), true),
                     buildType, prefix) == Some(found)
    ensures IsTimestampedApk(prefix, buildType, found)
    ensures !LexLess(CapturedTimestamp(prefix, buildType, found), GenerateTimestamp(now))
    ensures NoLaterStamp(prefix, buildType, entries, now) ==> found == RenamedApk(prefix, buildType, now)
  {
    var std := StandardName(prefix, buildType);
    var renamed := RenamedApk(prefix, buildType, now);
    var after := Rename(entries, std, renamed);
    var stamp := GenerateTimestamp(now);
    RenamedApkMatches(prefix, buildType, now);
    assert |std| != |renamed|;
    assert std !in after;
    ScanFindsNewest(Present(after, true), buildType, prefix, found);
    assert renamed in after;
    if NoLaterStamp(prefix, buildType, entries, now) && found != renamed {
      var got := CapturedTimestamp(prefix, buildType, found);
      assert found in entries;
      LexTrichotomy(got, stamp);
      SameStampSameName(prefix, buildType, found, renamed);
    }
  }
}
