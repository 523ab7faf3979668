/**
 * `findApkFile` from src/commands/android.ts: pick the package to install from the build-output
 * directory. The standard name `prefix-buildType.apk` wins; otherwise the newest
 * `prefix-buildType-YYYYMMDDHHmm.apk`; otherwise nothing. Path joining is not modelled: the
 * result is the file name inside the directory.
 */
module ApkResolver {
  import opened Wrappers
  import opened Text
  import opened Decimal
  import Seqs

  /** The directory `build/app/outputs/flutter-apk` as `existsSync` and `readdirSync` see it:
      missing, or present with its entries and whether listing it succeeds. */
  datatype ApkDir = Missing | Present(entries: seq<string>, readable: bool)

  /** A timestamped file name and the stamp the resolver sorts it by. */
  datatype Candidate = Candidate(name: string, timestamp: string)

  function StandardName(prefix: string, buildType: string): string
  {
    prefix + "-" + buildType + ".apk"
  }

  function TimestampedName(prefix: string, buildType: string, stamp: string): string
  {
    prefix + "-" + buildType + "-" + stamp + ".apk"
  }

  /** The text before the stamp in a timestamped name. */
  function StampHead(prefix: string, buildType: string): string
  {
    prefix + "-" + buildType + "-"
  }

  /** No character a JavaScript regular expression treats specially outside a class, so that a
      pattern built from `s` without escaping matches `s` literally. */
  predicate RegexLiteral(s: string)
  {
    forall i :: 0 <= i < |s| ==> s[i] !in "\\^$.|?*+()[]{}"
  }

  /** The filter pattern `^prefix-buildType-\d{12}\.apk$`, prefix and build type read literally. */
  predicate IsTimestampedApk(prefix: string, buildType: string, name: string)
    ensures IsTimestampedApk(prefix, buildType, name) ==>
      var k := |StampHead(prefix, buildType)|;
      && |name| == k + 16
      && name == TimestampedName(prefix, buildType, name[k..k + 12])
      && name != StandardName(prefix, buildType)
  {
    var head := StampHead(prefix, buildType);
    assert |name| == |head| + 16 ==> name == name[..|head|] + name[|head|..|head| + 12] + name[|head| + 12..];
    && |name| == |head| + 16
    && name[..|head|] == head
    && AllDigits(name[|head|..|head| + 12])
    && name[|head| + 12..] == ".apk"
  }

  /** The filter accepts exactly the names built from twelve ASCII digits: a wrong digit count,
      an extra suffix, or another prefix or build type is never accepted. */
  lemma TimestampedApkIff(prefix: string, buildType: string, name: string)
    ensures IsTimestampedApk(prefix, buildType, name) <==>
      exists stamp :: |stamp| == 12 && AllDigits(stamp) && name == TimestampedName(prefix, buildType, stamp)
  {
    var head := StampHead(prefix, buildType);
    if IsTimestampedApk(prefix, buildType, name) {
      var stamp := name[|head|..|head| + 12];
      assert name == head + stamp + name[|head| + 12..];
      assert name == TimestampedName(prefix, buildType, stamp);
    }
    forall stamp | |stamp| == 12 && AllDigits(stamp) && name == TimestampedName(prefix, buildType, stamp)
      ensures IsTimestampedApk(prefix, buildType, name)
    {
      assert name == head + stamp + ".apk";
      assert name[|head|..|head| + 12] == stamp;
    }
  }

  /** Group 1 of the unanchored-at-start match `prefix-buildType-(\d{12})\.apk$`, or "0" when it
      does not match. A match must end the name, so the group is the twelve characters before
      the final `.apk`. */
  function CapturedTimestamp(prefix: string, buildType: string, name: string): (stamp: string)
    ensures stamp == "0" || (|stamp| == 12 && AllDigits(stamp) && |name| >= 16 && name[|name| - 16..] == stamp + ".apk")
  {
    var head := StampHead(prefix, buildType);
    var n := |name|;
    if n >= |head| + 16 && name[n - 16 - |head|..n - 16] == head && AllDigits(name[n - 16..n - 4])
       && name[n - 4..] == ".apk"
    then name[n - 16..n - 4]
    else "0"
  }

  /** For every name the filter keeps, the sort key is its twelve-digit stamp (the "0" fallback
      never applies). */
  lemma CapturedStamp(prefix: string, buildType: string, name: string)
    requires IsTimestampedApk(prefix, buildType, name)
    ensures var k := |StampHead(prefix, buildType)|;
      CapturedTimestamp(prefix, buildType, name) == name[k..k + 12]
  {
  }

  /** The stamp of a name built by `TimestampedName` is the stamp it was built from. */
  lemma CapturedOfTimestampedName(prefix: string, buildType: string, stamp: string)
    requires |stamp| == 12 && AllDigits(stamp)
    ensures IsTimestampedApk(prefix, buildType, TimestampedName(prefix, buildType, stamp))
    ensures CapturedTimestamp(prefix, buildType, TimestampedName(prefix, buildType, stamp)) == stamp
  {
    TimestampedApkIff(prefix, buildType, TimestampedName(prefix, buildType, stamp));
    var name := TimestampedName(prefix, buildType, stamp);
    var k := |StampHead(prefix, buildType)|;
    assert name == StampHead(prefix, buildType) + stamp + ".apk";
    assert name[k..k + 12] == stamp;
  }

  /** The `filter` and `map` steps: each matching entry with its stamp, in directory order. */
  function Candidates(entries: seq<string>, prefix: string, buildType: string): seq<Candidate>
  {
    Seqs.Map(Seqs.Filter(entries, name => IsTimestampedApk(prefix, buildType, name)),
             name => Candidate(name, CapturedTimestamp(prefix, buildType, name)))
  }

  lemma NewestStep(c: Candidate, r: Candidate, others: seq<Candidate>)
    requires forall i :: 0 <= i < |others| ==> !LexLess(r.timestamp, others[i].timestamp)
    requires !LexLess(c.timestamp, r.timestamp)
    ensures forall i :: 0 <= i < |others| ==> !LexLess(c.timestamp, others[i].timestamp)
  {
    LexTrichotomy(c.timestamp, r.timestamp);
    forall i | 0 <= i < |others| ensures !LexLess(c.timestamp, others[i].timestamp) {
      if LexLess(c.timestamp, others[i].timestamp) && LexLess(r.timestamp, c.timestamp) {
        LexTransitive(r.timestamp, c.timestamp, others[i].timestamp);
      }
    }
  }

  /** The first element after the descending sort on stamps: a candidate whose stamp no other
      candidate's stamp exceeds. Among equal stamps the model keeps the earliest in the list. */
  function Newest(cs: seq<Candidate>): (c: Candidate)
    requires |cs| > 0
    ensures c in cs
    ensures forall i :: 0 <= i < |cs| ==> !LexLess(c.timestamp, cs[i].timestamp)
  {
    if |cs| == 1 then
      LexIrreflexive(cs[0].timestamp);
      cs[0]
    else
      var rest := Newest(cs[1..]);
      LexTrichotomy(cs[0].timestamp, rest.timestamp);
      LexIrreflexive(cs[0].timestamp);
      if LexLess(cs[0].timestamp, rest.timestamp) then
        rest
      else
        NewestStep(cs[0], rest, cs[1..]);
        cs[0]
  }

  /** `findApkFile(buildType, namePrefix)`: `None` stands for `null`. */
  function FindApk(dir: ApkDir, buildType: string, prefix: string): (r: Option<string>)
    requires RegexLiteral(prefix) && RegexLiteral(buildType)
    ensures r.Some? ==> dir.Present? && r.value in dir.entries
    ensures r.Some? ==> r.value == StandardName(prefix, buildType) || IsTimestampedApk(prefix, buildType, r.value)
  {
    match dir
    case Missing => None
    case Present(entries, readable) =>
      if StandardName(prefix, buildType) in entries then Some(StandardName(prefix, buildType))
      else if !readable then None
      else
        var cs := Candidates(entries, prefix, buildType);
        if |cs| == 0 then None
        else
          NewestListed(entries, prefix, buildType);
          Some(Newest(cs).name)
  }

  /** The newest candidate is a listed entry that the filter keeps. */
  lemma NewestListed(entries: seq<string>, prefix: string, buildType: string)
    requires |Candidates(entries, prefix, buildType)| > 0
    ensures Newest(Candidates(entries, prefix, buildType)).name in entries
    ensures IsTimestampedApk(prefix, buildType, Newest(Candidates(entries, prefix, buildType)).name)
  {
    var kept := Seqs.Filter(entries, name => IsTimestampedApk(prefix, buildType, name));
    var cs := Candidates(entries, prefix, buildType);
    var c := Newest(cs);
    var j :| 0 <= j < |cs| && cs[j] == c;
    assert c.name == kept[j];
  }

  /** The standard name wins whatever timestamped files sit beside it. */
  lemma StandardNameFirst(dir: ApkDir, buildType: string, prefix: string)
    requires RegexLiteral(prefix) && RegexLiteral(buildType)
    requires dir.Present? && StandardName(prefix, buildType) in dir.entries
    ensures FindApk(dir, buildType, prefix) == Some(StandardName(prefix, buildType))
  {
  }

  /** A name found by the scan is a listed entry of the exact timestamped form, and its stamp is
      at least the stamp of every listed entry of that form. */
  lemma ScanFindsNewest(dir: ApkDir, buildType: string, prefix: string, name: string)
    requires RegexLiteral(prefix) && RegexLiteral(buildType)
    requires FindApk(dir, buildType, prefix) == Some(name)
    requires name != StandardName(prefix, buildType)
    ensures dir.Present? && dir.readable && StandardName(prefix, buildType) !in dir.entries
    ensures name in dir.entries && IsTimestampedApk(prefix, buildType, name)
    ensures forall other :: other in dir.entries && IsTimestampedApk(prefix, buildType, other) ==>
      !LexLess(CapturedTimestamp(prefix, buildType, name), CapturedTimestamp(prefix, buildType, other))
  {
    var p := (n: string) => IsTimestampedApk(prefix, buildType, n);
    var f := (n: string) => Candidate(n, CapturedTimestamp(prefix, buildType, n));
    var kept := Seqs.Filter(dir.entries, p);
    var cs := Candidates(dir.entries, prefix, buildType);
    assert cs == Seqs.Map(kept, f);
    var c := Newest(cs);
    var j :| 0 <= j < |cs| && cs[j] == c;
    assert c.name == kept[j];
    forall other | other in dir.entries && IsTimestampedApk(prefix, buildType, other)
      ensures !LexLess(CapturedTimestamp(prefix, buildType, name), CapturedTimestamp(prefix, buildType, other))
    {
      var i :| 0 <= i < |dir.entries| && dir.entries[i] == other;
      assert p(dir.entries[i]);
      var k :| 0 <= k < |kept| && kept[k] == other;
      assert cs[k].timestamp == CapturedTimestamp(prefix, buildType, other);
    }
  }

  /** Not found exactly when the directory is missing, or the standard name is absent and the
      listing fails or holds no timestamped name; never an error. */
  lemma NotFoundIff(dir: ApkDir, buildType: string, prefix: string)
    requires RegexLiteral(prefix) && RegexLiteral(buildType)
    ensures FindApk(dir, buildType, prefix).None? <==>
      || dir.Missing?
      || (StandardName(prefix, buildType) !in dir.entries &&
          (!dir.readable || forall e :: e in dir.entries ==> !IsTimestampedApk(prefix, buildType, e)))
  {
    if dir.Present? && dir.readable && StandardName(prefix, buildType) !in dir.entries {
      var kept := Seqs.Filter(dir.entries, n => IsTimestampedApk(prefix, buildType, n));
      if e :| e in dir.entries && IsTimestampedApk(prefix, buildType, e) {
        var i :| 0 <= i < |dir.entries| && dir.entries[i] == e;
        assert e in kept;
      }
    }
  }
}
