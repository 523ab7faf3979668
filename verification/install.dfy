/**
 * The `install` command of src/commands/android.ts: the pre-flight checks, the choice of the
 * package and of the target devices, the per-device installs and the summary. Every external
 * effect is an input: the project check, the ADB probe, the existing files, the build-output
 * directory, the output of `adb devices`, and a runner standing for `adb -s <id> install -r <apk>`.
 */
module Install {
  import opened Wrappers
  import opened Text
  import opened Process
  import opened ApkResolver
  import opened Devices
  import Seqs

  /** The command-line options `--device`, `--file` and `--name`, absent or given. */
  datatype Options = Options(device: Option<string>, file: Option<string>, name: Option<string>)

  /** JavaScript truthiness of an option: given and not the empty string. */
  predicate Given(o: Option<string>)
  {
    o.Some? && o.value != ""
  }

  /** `options.name || 'app'`. */
  function NamePrefix(name: Option<string>): (prefix: string)
    ensures prefix != ""
    ensures Given(name) ==> prefix == name.value
    ensures !Given(name) ==> prefix == "app"
  {
    if Given(name) then name.value else "app"
  }

  /** The environment the command runs in. */
  datatype Env = Env(
    flutterProject: bool,            // `pubspec.yaml` exists in the working directory
    adbVersion: Run,                 // `adb version`
    existingFiles: set<string>,      // paths `existsSync` accepts
    apkDir: ApkDir,                  // build/app/outputs/flutter-apk
    adbDevices: Run)                 // `adb devices`

  /** The build command the error message suggests when no package is found. */
  function BuildHint(buildType: string, prefix: string): (hint: string)
    ensures |hint| >= 17 && hint[..17] == "flt android build"
    ensures prefix != "app" ==> |hint| >= |prefix| + 25 && hint[|hint| - |prefix| - 8..] == " --name " + prefix
    ensures prefix != "app" ==> |hint| == 17 + (if buildType == "release" then 10 else 0) + 8 + |prefix|
    ensures (|hint| >= 27 && hint[17..27] == " --release") <==> buildType == "release"
    ensures prefix == "app" ==> hint == if buildType == "release" then "flt android build --release" else "flt android build"
  {
    var flag := if buildType == "release" then " --release" else "";
    var tail := if prefix != "app" then " --name " + prefix else "";
    HintPieces(flag, tail);
    "flt android build" + flag + tail
  }

  /** Where the optional flag and the optional `--name` part sit in the hint. */
  lemma HintPieces(flag: string, tail: string)
    requires flag == "" || flag == " --release"
    requires tail == "" || (|tail| >= 8 && tail[..8] == " --name ")
    ensures var hint := "flt android build" + flag + tail;
      |hint| == 17 + |flag| + |tail| && hint[..17] == "flt android build" && hint[|hint| - |tail|..] == tail
    ensures var hint := "flt android build" + flag + tail;
      (|hint| >= 27 && hint[17..27] == " --release") <==> flag != ""
  {
    var hint := "flt android build" + flag + tail;
    assert hint[17..] == flag + tail;
    if flag != "" {
      assert hint[17..27] == flag;
    } else if tail != "" {
      assert hint[20] == tail[3] == 'n';
    }
  }

  /** The build types the command accepts; an empty one skips the check. Each is a literal
      pattern part. */
  predicate SupportedBuildType(buildType: string)
    ensures SupportedBuildType(buildType) ==> RegexLiteral(buildType)
  {
    buildType == "" || buildType == "debug" || buildType == "release"
  }

  /** The package to install: `--file` when given (it must exist), otherwise `findApkFile`. */
  function ChooseApk(buildType: string, opts: Options, env: Env): (r: Result<string, Fatal>)
    requires SupportedBuildType(buildType) && (!Given(opts.file) ==> RegexLiteral(NamePrefix(opts.name)))
    ensures Given(opts.file) ==>
      if opts.file.value in env.existingFiles then r == Success(opts.file.value)
      else r == Failure(ApkFileMissing(opts.file.value))
    ensures !Given(opts.file) ==> (r.Success? <==> FindApk(env.apkDir, buildType, NamePrefix(opts.name)).Some?)
    ensures !Given(opts.file) && r.Success? ==> Some(r.value) == FindApk(env.apkDir, buildType, NamePrefix(opts.name))
    ensures !Given(opts.file) && r.Failure? ==>
      r.error == ApkNotFound(buildType, NamePrefix(opts.name), BuildHint(buildType, NamePrefix(opts.name)))
  {
    if Given(opts.file) then
      if opts.file.value in env.existingFiles then Success(opts.file.value)
      else Failure(ApkFileMissing(opts.file.value))
    else
      var prefix := NamePrefix(opts.name);
      var found := FindApk(env.apkDir, buildType, prefix);
      if found.Some? then Success(found.value)
      else Failure(ApkNotFound(buildType, prefix, BuildHint(buildType, prefix)))
  }

  /** Whom to install to: the one `--device`, or every connected device in parallel. */
  datatype Targets = One(device: string) | All(devices: seq<string>)

  datatype Plan = Plan(apk: string, targets: Targets)

  /** Everything the command decides before the first `adb install`. */
  function PlanInstall(buildType: string, opts: Options, env: Env): (r: Result<Plan, Fatal>)
    requires !Given(opts.file) ==> RegexLiteral(NamePrefix(opts.name))
    ensures r.Success? ==>
      && env.flutterProject && SupportedBuildType(buildType) && env.adbVersion.Completed?
      && ChooseApk(buildType, opts, env) == Success(r.value.apk)
      && env.adbDevices.Completed? && TargetDevices(env.adbDevices.stdout) != []
      && match r.value.targets
         case One(d) => Given(opts.device) && d == opts.device.value && d in TargetDevices(env.adbDevices.stdout)
         case All(ds) => !Given(opts.device) && ds == TargetDevices(env.adbDevices.stdout)
    ensures !env.flutterProject ==> r == Failure(NotFlutterProject)
    ensures env.flutterProject && !SupportedBuildType(buildType) ==> r == Failure(UnsupportedBuildType(buildType))
    ensures env.flutterProject && SupportedBuildType(buildType) && env.adbVersion.Threw? ==> r == Failure(AdbNotFound)
    ensures (env.flutterProject && SupportedBuildType(buildType) && env.adbVersion.Completed?
             && ChooseApk(buildType, opts, env).Failure?) ==>
      r == Failure(ChooseApk(buildType, opts, env).error)
    ensures (env.flutterProject && SupportedBuildType(buildType) && env.adbVersion.Completed?
             && ChooseApk(buildType, opts, env).Success? && env.adbDevices.Threw?) ==>
      r == Failure(CommandFailed(env.adbDevices.message))
    ensures (env.flutterProject && SupportedBuildType(buildType) && env.adbVersion.Completed?
             && ChooseApk(buildType, opts, env).Success? && env.adbDevices.Completed?
             && TargetDevices(env.adbDevices.stdout) == []) ==>
      r == Failure(NoDevices)
    ensures
      && env.flutterProject && SupportedBuildType(buildType) && env.adbVersion.Completed?
      && ChooseApk(buildType, opts, env).Success?
      && env.adbDevices.Completed? && TargetDevices(env.adbDevices.stdout) != []
      && (Given(opts.device) ==> opts.device.value in TargetDevices(env.adbDevices.stdout))
      ==> r.Success?
  {
    if !env.flutterProject then Failure(NotFlutterProject)
    else if !SupportedBuildType(buildType) then Failure(UnsupportedBuildType(buildType))
    else if env.adbVersion.Threw? then Failure(AdbNotFound)
    else match ChooseApk(buildType, opts, env)
      case Failure(e) => Failure(e)
      case Success(apk) =>
        match env.adbDevices
        case Threw(message) => Failure(CommandFailed(message))
        case Completed(out, _) =>
          var devices := TargetDevices(out);
          if |devices| == 0 then Failure(NoDevices)
          else if Given(opts.device) then
            if opts.device.value in devices then Success(Plan(apk, One(opts.device.value)))
            else Failure(DeviceNotConnected(opts.device.value, devices))
          else Success(Plan(apk, All(devices)))
  }

  /** An explicit `--file` that exists is the package, whatever the build-output directory holds. */
  lemma ExplicitFileOverridesResolver(buildType: string, opts: Options, env: Env, other: ApkDir)
    requires Given(opts.file) && opts.file.value in env.existingFiles
    ensures PlanInstall(buildType, opts, env) == PlanInstall(buildType, opts, env.(apkDir := other))
    ensures PlanInstall(buildType, opts, env).Success? ==> PlanInstall(buildType, opts, env).value.apk == opts.file.value
  {
  }

  /** A `--device` missing from the parsed list is a pre-flight error, reported with the list. */
  lemma UnknownDeviceAborts(buildType: string, opts: Options, env: Env)
    requires !Given(opts.file) ==> RegexLiteral(NamePrefix(opts.name))
    requires env.flutterProject && SupportedBuildType(buildType) && env.adbVersion.Completed?
    requires ChooseApk(buildType, opts, env).Success? && env.adbDevices.Completed?
    requires TargetDevices(env.adbDevices.stdout) != []
    requires Given(opts.device) && opts.device.value !in TargetDevices(env.adbDevices.stdout)
    ensures PlanInstall(buildType, opts, env) ==
      Failure(DeviceNotConnected(opts.device.value, TargetDevices(env.adbDevices.stdout)))
  {
  }

  predicate NoPerforming(line: string)
  {
    !Contains(line, "Performing")
  }

  /** `captured.split('\n').filter(l => !l.includes('Performing')).filter(l => l.trim())`. */
  function KeptLines(captured: string): (kept: seq<string>)
    ensures |kept| <= |Split(captured, '\n')|
    ensures forall i :: 0 <= i < |kept| ==>
      kept[i] in Split(captured, '\n') && NoNewline(kept[i]) && NoPerforming(kept[i]) && IsNonBlankLine(kept[i])
  {
    var lines := Split(captured, '\n');
    Seqs.FilterKeeps(lines, NoPerforming, NoNewline);
    Seqs.FilterKeeps(Seqs.Filter(lines, NoPerforming), IsNonBlankLine, NoNewline);
    Seqs.Filter(Seqs.Filter(lines, NoPerforming), IsNonBlankLine)
  }

  /** The filtered output: the kept lines joined with newlines. */
  function FilteredOutput(stdout: string, stderr: string): (output: string)
    ensures output == "" <==> KeptLines(stdout + stderr) == []
  {
    var kept := KeptLines(stdout + stderr);
    assert kept != [] ==> IsNonBlankLine(kept[0]) && kept[0] != [];
    Join(kept, '\n')
  }

  /** The lines printed under a device's label: the non-blank lines of a non-empty output. */
  function PrintedLines(output: string): (printed: seq<string>)
    ensures output == "" ==> printed == []
    ensures forall i :: 0 <= i < |printed| ==> printed[i] in Split(output, '\n') && IsNonBlankLine(printed[i])
  {
    if output == "" then [] else Seqs.Filter(Split(output, '\n'), IsNonBlankLine)
  }

  /** No kept line mentions `Performing` or is blank, and every other line of the captured output
      is kept. */
  lemma KeptLinesSpec(captured: string)
    ensures forall i :: 0 <= i < |KeptLines(captured)| ==>
      !Contains(KeptLines(captured)[i], "Performing") && !IsBlank(KeptLines(captured)[i])
    ensures forall line :: line in Split(captured, '\n') && !Contains(line, "Performing") && !IsBlank(line) ==>
      line in KeptLines(captured)
  {
    var kept := KeptLines(captured);
    var first := Seqs.Filter(Split(captured, '\n'), NoPerforming);
    forall i | 0 <= i < |kept|
      ensures !Contains(kept[i], "Performing") && !IsBlank(kept[i])
    {
      assert kept[i] in first;
    }
    forall line | line in Split(captured, '\n') && !Contains(line, "Performing") && !IsBlank(line)
      ensures line in kept
    {
      var i :| 0 <= i < |Split(captured, '\n')| && Split(captured, '\n')[i] == line;
      var j :| 0 <= j < |first| && first[j] == line;
    }
  }

  /** The filter keeps surviving lines in their original relative order. */
  lemma KeptLinesInOrder(a: string, b: string)
    ensures KeptLines(a + "\n" + b) == KeptLines(a) + KeptLines(b)
  {
    var sa := Split(a, '\n');
    JoinSplit(a, '\n');
    assert forall i :: 0 <= i < |sa| ==> '\n' !in sa[i];
    var sb := Split(b, '\n');
    JoinSplit(b, '\n');
    assert forall i :: 0 <= i < |sa + sb| ==> '\n' !in (sa + sb)[i];
    JoinAppend(sa, sb, '\n');
    SplitJoin(sa + sb, '\n');
    SplitJoin(sa, '\n');
    SplitJoin(sb, '\n');
    Seqs.FilterConcat(sa, sb, NoPerforming);
    Seqs.FilterConcat(Seqs.Filter(sa, NoPerforming), Seqs.Filter(sb, NoPerforming), IsNonBlankLine);
  }

  lemma {:induction false} JoinAppend(a: seq<string>, b: seq<string>, sep: char)
    requires |a| >= 1 && |b| >= 1
    ensures Join(a + b, sep) == Join(a, sep) + [sep] + Join(b, sep)
  {
    if |a| == 1 {
      JoinCons(a[0], b, sep);
      assert a + b == [a[0]] + b;
    } else {
      JoinAppend(a[1..], b, sep);
      assert a + b == [a[0]] + (a[1..] + b);
      JoinCons(a[0], a[1..] + b, sep);
      JoinCons(a[0], a[1..], sep);
      assert a == [a[0]] + a[1..];
    }
  }

  /** Re-splitting the joined output prints exactly the kept lines, in order, and nothing when
      no line was kept. */
  lemma PrintedAreKept(stdout: string, stderr: string)
    ensures PrintedLines(FilteredOutput(stdout, stderr)) == KeptLines(stdout + stderr)
  {
    PrintedOfJoin(KeptLines(stdout + stderr));
  }

  predicate NoNewline(line: string)
  {
    '\n' !in line
  }

  lemma PrintedOfJoin(kept: seq<string>)
    requires forall i :: 0 <= i < |kept| ==> NoNewline(kept[i]) && IsNonBlankLine(kept[i])
    ensures PrintedLines(Join(kept, '\n')) == kept
  {
    if |kept| > 0 {
      SplitJoin(kept, '\n');
      assert kept[0] != [];
      assert |Join(kept, '\n')| >= |kept[0]|;
      Seqs.FilterAll(kept, IsNonBlankLine);
    }
  }

  /** One device's result: `{ deviceId, success: true }` with the lines printed under it, or
      `{ deviceId, success: false, error }` with the error's message. */
  datatype Outcome = Succeeded(deviceId: string, output: seq<string>) | Failed(deviceId: string, message: string)

  function OutcomeOf(deviceId: string, run: Run): (o: Outcome)
    ensures o.deviceId == deviceId
    ensures o.Succeeded? <==> run.Completed?
    ensures o.Succeeded? ==> o.output == KeptLines(run.stdout + run.stderr)
    ensures o.Failed? ==> o.message == run.message
  {
    match run
    case Completed(stdout, stderr) =>
      PrintedAreKept(stdout, stderr);
      Succeeded(deviceId, PrintedLines(FilteredOutput(stdout, stderr)))
    case Threw(message) => Failed(deviceId, message)
  }

  predicate IsSuccess(o: Outcome)
  {
    o.Succeeded?
  }

  predicate IsFailure(o: Outcome)
  {
    o.Failed?
  }

  /** The final message: all devices installed, or the two counts (also when every device failed,
      which the command reports as a warning and not as a fatal exit). */
  datatype Summary = AllSucceeded | SomeFailed(successCount: nat, failCount: nat)

  function Summarize(successCount: nat, failCount: nat): (s: Summary)
    ensures s == AllSucceeded <==> failCount == 0
    ensures s.SomeFailed? ==> s.successCount == successCount && s.failCount == failCount
  {
    if failCount == 0 then AllSucceeded else SomeFailed(successCount, failCount)
  }

  /**
   * The multi-device path: one install per device with its outcome at the device's index (the
   * order `Promise.all` preserves), then `results.filter(r => r.success).length` and the rest.
   * `adbInstall(id, apk)` stands for the result of `adb -s id install -r apk`.
   */
  method InstallAll(devices: seq<string>, apk: string, adbInstall: (string, string) -> Run)
    returns (outcomes: seq<Outcome>, successCount: nat, failCount: nat)
    ensures |outcomes| == |devices|
    ensures forall i :: 0 <= i < |devices| ==>
      outcomes[i].deviceId == devices[i] && outcomes[i] == OutcomeOf(devices[i], adbInstall(devices[i], apk))
    ensures successCount == |Seqs.Filter(outcomes, IsSuccess)|
    ensures failCount == |Seqs.Filter(outcomes, IsFailure)|
    ensures successCount + failCount == |devices|
    ensures failCount == 0 <==> forall i :: 0 <= i < |devices| ==> adbInstall(devices[i], apk).Completed?
  {
    outcomes := [];
    var i := 0;
    while i < |devices|
      invariant 0 <= i <= |devices| && outcomes == Outcomes(devices[..i], apk, adbInstall)
    {
      var install := Installer(apk, adbInstall);
      assert devices[..i + 1] == devices[..i] + [devices[i]];
      Seqs.MapConcat(devices[..i], [devices[i]], install);
      outcomes := outcomes + [install(devices[i])];
      i := i + 1;
    }
    assert devices[..i] == devices;
    successCount := |Seqs.Filter(outcomes, IsSuccess)|;
    failCount := |outcomes| - successCount;
    Seqs.FilterPartition(outcomes, IsSuccess, IsFailure);
    NoFailureIff(devices, apk, adbInstall, outcomes);
  }

  /** What installing to one device yields, as a function of the device id. */
  function Installer(apk: string, adbInstall: (string, string) -> Run): string -> Outcome
  {
    deviceId => OutcomeOf(deviceId, adbInstall(deviceId, apk))
  }

  /** The outcome of each device's install, at the device's index. */
  function Outcomes(devices: seq<string>, apk: string, adbInstall: (string, string) -> Run): (r: seq<Outcome>)
    ensures |r| == |devices|
    ensures forall i :: 0 <= i < |devices| ==> r[i] == OutcomeOf(devices[i], adbInstall(devices[i], apk))
  {
    Seqs.Map(devices, Installer(apk, adbInstall))
  }

  /** No outcome is a failure exactly when every install completed. */
  lemma NoFailureIff(devices: seq<string>, apk: string, adbInstall: (string, string) -> Run, outcomes: seq<Outcome>)
    requires |outcomes| == |devices|
    requires forall i :: 0 <= i < |devices| ==> outcomes[i] == OutcomeOf(devices[i], adbInstall(devices[i], apk))
    ensures Seqs.Filter(outcomes, IsFailure) == [] <==> forall i :: 0 <= i < |devices| ==> adbInstall(devices[i], apk).Completed?
  {
    var f := Seqs.Filter(outcomes, IsFailure);
    if f != [] {
      var j :| 0 <= j < |outcomes| && outcomes[j] == f[0];
      assert !adbInstall(devices[j], apk).Completed?;
    }
  }

  /** With `k` of `n` outcomes failed, the summary reports `n - k` successes and `k` failures,
      and "all installed" exactly when `k` is zero. */
  lemma SummaryCounts(outcomes: seq<Outcome>, k: nat)
    requires |Seqs.Filter(outcomes, IsFailure)| == k
    ensures var s := |Seqs.Filter(outcomes, IsSuccess)|;
      Summarize(s, |outcomes| - s) == if k == 0 then AllSucceeded else SomeFailed(|outcomes| - k, k)
  {
    Seqs.FilterPartition(outcomes, IsSuccess, IsFailure);
  }

  /** How the command ends: a fatal error, the single-device install done, or the per-device
      outcomes of the parallel install with their summary. */
  datatype Exit = Aborted(reason: Fatal) | InstalledOne(device: string) | InstalledAll(outcomes: seq<Outcome>, summary: Summary)

  /** The whole `install` action. `attempted` lists the devices `adb install` was run for. */
  method InstallCommand(buildType: string, opts: Options, env: Env, adbInstall: (string, string) -> Run)
    returns (exit: Exit, attempted: seq<string>)
    requires !Given(opts.file) ==> RegexLiteral(NamePrefix(opts.name))
    ensures PlanInstall(buildType, opts, env).Failure? ==>
      exit == Aborted(PlanInstall(buildType, opts, env).error) && attempted == []
    ensures PlanInstall(buildType, opts, env).Success? ==>
      var plan := PlanInstall(buildType, opts, env).value;
      match plan.targets
      case One(d) =>
        attempted == [d] &&
        exit == (if adbInstall(d, plan.apk).Completed? then InstalledOne(d)
                 else Aborted(CommandFailed(adbInstall(d, plan.apk).message)))
      case All(ds) =>
        && attempted == ds && exit.InstalledAll?
        && |exit.outcomes| == |ds|
        && (forall i :: 0 <= i < |ds| ==> exit.outcomes[i] == OutcomeOf(ds[i], adbInstall(ds[i], plan.apk)))
        && (exit.summary == AllSucceeded <==> forall i :: 0 <= i < |ds| ==> adbInstall(ds[i], plan.apk).Completed?)
        && (exit.summary.SomeFailed? ==>
              exit.summary.successCount + exit.summary.failCount == |ds| &&
              exit.summary.failCount == |Seqs.Filter(exit.outcomes, IsFailure)|)
  {
    var planned := PlanInstall(buildType, opts, env);
    if planned.Failure? {
      return Aborted(planned.error), [];
    }
    var plan := planned.value;
    match plan.targets {
      case One(d) =>
        attempted := [d];
        var run := adbInstall(d, plan.apk);
        if run.Completed? {
          exit := InstalledOne(d);
        } else {
          exit := Aborted(CommandFailed(run.message));
        }
      case All(ds) =>
        attempted := ds;
        var outcomes, successCount, failCount := InstallAll(ds, plan.apk, adbInstall);
        exit := InstalledAll(outcomes, Summarize(successCount, failCount));
    }
  }
}
