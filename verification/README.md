# flutter_tool Android helper — a Dafny model

`flt android` wraps `flutter build apk` and `adb`. Its build command renames the fresh package to
`prefix-buildType-YYYYMMDDHHmm.apk`. Its install command then picks a package and installs it
on one named device or on every connected device. This project models the decisions in that flow
as functions and methods over plain data, and proves what they promise:

- the timestamp formatter (`generateTimestamp`) and its inverse;
- the APK resolver (`findApkFile`): the standard name first, otherwise the newest timestamped
  name, otherwise not found;
- the parsing of `adb devices` output, for install targets and for the `devices` listing;
- the install command's pre-flight checks and the choice of package and targets;
- the per-device install loop, the output filter and the success/failure summary;
- the build command's rename, and the fact that the resolver then finds that build's package, or one whose stamp is at least as late.

Modules, one file each:

| module | file | models |
|---|---|---|
| `Wrappers` | wrappers.dfy | `Option` (JavaScript `null`) and `Result` (a fatal exit) |
| `Seqs` | seqs.dfy | `Array.prototype.filter` and `map` |
| `Text` | text.dfy | `split`, `join`, `includes`, `trim` and ordinal comparison on strings |
| `Decimal` | decimal.dfy | `toString()` of a non-negative integer, `padStart(w, '0')`, digit values |
| `Timestamp` | timestamp.dfy | `generateTimestamp`, with the local-time fields passed in |
| `Process` | process.dfy | the outcome of an external program, and the fatal errors |
| `ApkResolver` | resolver.dfy | `findApkFile` |
| `Devices` | devices.dfy | reading `adb devices` output; the `devices` command |
| `Install` | install.dfy | the `install` command |
| `Build` | build.dfy | the `build` command's rename |

External effects are inputs:
- `Process.Run` is the result of one `execa` call: the captured streams, or the message it threw.
- `ApkResolver.ApkDir` is the build-output directory. It is either missing, or present with its
  entries and a flag for whether `readdirSync` succeeds.
- `Install.Env` holds the `pubspec.yaml` check, the ADB probe, the files that exist, the
  directory and the `adb devices` output.
- A runner function `(device, apk) -> Run` stands for `adb -s <device> install -r <apk>`.

## Behaviour as coded

The model follows the code, including:

- The install targets are the lines that contain the text `"\tdevice"`. The code does not test
  that the status equals `device`. `Devices.OnlineEntryIsTarget` proves that every device the
  listing shows as `device` is a target. The converse is not claimed.
- When every device fails in the parallel path, the command prints the counts as a warning. It
  does not exit with an error. `Install.Summarize` yields `SomeFailed(0, n)` in that case.
- The resolver's pattern is built from the prefix and build type without escaping. The model
  matches them literally. It is faithful only when neither holds a regular-expression
  metacharacter (`ApkResolver.RegexLiteral`).
- Options follow JavaScript truthiness. An empty `--device`, `--file` or `--name` counts as
  absent. An empty build type skips the build-type check (`Install.SupportedBuildType`).
- The captured `stdout` and `stderr` are concatenated with no separator before they are split
  into lines.

## Model

| member | source | states |
|---|---|---|
| `Timestamp.GenerateTimestamp` | src/utils/common.ts:16-23 | for a valid time (four-digit year, calendar ranges) the stamp is exactly 12 ASCII digits |
| `Timestamp.FieldDigits` | src/utils/common.ts:18-22 | for a valid time the year's `toString()` has 4 digits and the month (1-based), day, hour and minute each pad to 2 digits, and every piece denotes its field |
| `Timestamp.TimestampFields` | src/utils/common.ts:16-23 | the stamp of a valid time is 12 ASCII digits: characters 0-3 are the year's decimal form and 4-5, 6-7, 8-9 and 10-11 are the zero-padded 1-based month, day, hour and minute |
| `Timestamp.ParseGenerated` | src/utils/common.ts:18-22 | decoding the stamp of a valid time gives back all five fields |
| `Timestamp.GenerateParsed` | src/utils/common.ts:18-22 | a 12-character string that decodes to a valid time is that time's stamp (the other half of the round trip) |
| `Timestamp.TimestampInjective` | src/utils/common.ts:18-22 | two valid times have the same stamp only if they are the same minute |
| `Timestamp.TimestampOrder` | src/utils/common.ts:18-22 | one stamp sorts ordinally before another exactly when its local time is an earlier minute, so a build at a later local time never gets a smaller stamp |
| `Decimal.ToDecimal` | src/utils/common.ts:18-22 | `toString()` of a non-negative integer is a non-empty digit string with no leading zero whose value is the number |
| `Decimal.PadStart` | src/utils/common.ts:19-22 | `padStart(width, fill)` has length `max(len, width)`, ends with the original string, and every character before it is `fill` |
| `Decimal.ZeroPaddedDecimal` | src/utils/common.ts:19-22 | `padStart(w, '0')` of the decimal form of `n < 10^w` has exactly `w` digits and still denotes `n` |
| `Decimal.DigitsOrder` | src/commands/android.ts:45 | for digit strings of equal length, ordinal order is numeric order and equal strings are equal numbers |
| `Text.Split` | src/commands/android.ts:225 | `split` on one character gives at least one piece; no piece holds the separator; the first piece is the text before the first separator |
| `Text.Join` | src/commands/android.ts:273 | joining no pieces gives the empty string; otherwise the result starts with the first piece, followed by the separator when a second piece follows |
| `Text.JoinSplit` | src/commands/android.ts:270-273 | joining the pieces of a split gives back the original string |
| `Text.SplitJoin` | src/commands/android.ts:273-277 | splitting a join of separator-free pieces gives back the pieces |
| `Text.Contains` | src/commands/android.ts:226 | `includes` can hold only when the substring is no longer than the string |
| `Text.ContainsIff` | src/commands/android.ts:226 | `includes` holds exactly when the substring occurs at some index |
| `Text.Trim` | src/commands/android.ts:226 | `trim()` is no longer than its input; it is empty (falsy) exactly when every character is ECMAScript whitespace; a non-empty result neither starts nor ends with whitespace |
| `Text.LexTrichotomy` | src/commands/android.ts:45 | the sort's ordinal comparison is a strict total order: exactly one of less, equal, greater |
| `Text.LexTransitive` | src/commands/android.ts:45 | the ordinal comparison is transitive |
| `Seqs.Filter` | src/commands/android.ts:225-227 | `filter` keeps only elements satisfying the predicate, drawn from the input, and keeps every input element that satisfies it |
| `Seqs.Map` | src/commands/android.ts:237 | `map` keeps the length, and element i of the result is the function applied to element i of the input |
| `Seqs.FilterConcat` | src/commands/android.ts:225-227 | `filter` keeps relative order: it distributes over concatenation |
| `Seqs.FilterPartition` | src/commands/android.ts:295-296 | the elements kept by a predicate and by its negation add up to the whole length |
| `ApkResolver.IsTimestampedApk` | src/commands/android.ts:36-37 | every name the pattern accepts is `prefix-buildType-`, 12 characters and `.apk`, exactly 16 characters longer than `prefix-buildType-`, and never the standard name |
| `ApkResolver.TimestampedApkIff` | src/commands/android.ts:33-38 | a name passes the filter exactly when it is `prefix-buildType-` + 12 ASCII digits + `.apk`, so a wrong digit count, an extra suffix or another prefix or build type is rejected |
| `ApkResolver.CapturedTimestamp` | src/commands/android.ts:43 | the sort key is either the fallback `'0'` or 12 ASCII digits which, followed by `.apk`, end the name |
| `ApkResolver.CapturedStamp` | src/commands/android.ts:39-44 | for every name the filter keeps, the sort key is its 12-digit stamp; the `'0'` fallback never applies |
| `ApkResolver.CapturedOfTimestampedName` | src/commands/android.ts:36-43 | a name built from 12 digits passes the filter, and its sort key is those digits |
| `ApkResolver.Newest` | src/commands/android.ts:45-49 | the first candidate after the descending sort is a candidate whose stamp no other candidate exceeds |
| `ApkResolver.FindApk` | src/commands/android.ts:14-57 | a returned name is an entry of an existing directory, and it is either the standard name or a name the timestamp filter accepts |
| `ApkResolver.StandardNameFirst` | src/commands/android.ts:22-28 | if the directory holds `prefix-buildType.apk`, that name is returned, whatever timestamped files are beside it |
| `ApkResolver.ScanFindsNewest` | src/commands/android.ts:30-50 | any other returned name is a listed entry of the exact timestamped form, from a readable directory without the standard name, and its stamp is at least that of every matching entry |
| `ApkResolver.NotFoundIff` | src/commands/android.ts:14-57 | not found exactly when the directory is missing, or the standard name is absent and the listing fails or holds no matching name; never an error |
| `Devices.DeviceId` | src/commands/android.ts:237 | the id is the prefix of the line before its first tab (the whole line if it has none) and holds no tab |
| `Devices.TargetDevices` | src/commands/android.ts:225-237 | one id per target line, in order: id i is the text of target line i before its first tab and holds no tab; there are no more ids than lines after the header |
| `Devices.TargetDevicesSpec` | src/commands/android.ts:224-237 | one id per kept line, each kept line is a non-blank line after the header containing `"\tdevice"`, and every such line yields its id |
| `Devices.TargetsOfLines` | src/commands/android.ts:225-237 | for output made of a header and lines, the targets are the ids of the target lines in input order; the header never contributes |
| `Devices.TargetsInInputOrder` | src/commands/android.ts:225-237 | the targets of two blocks of lines are the targets of the first block followed by those of the second |
| `Devices.ListedEntry` | src/commands/android.ts:340 | `const [deviceId, status] = line.split('\t')`: the id is `DeviceId(line)`; the status is absent exactly when the line has no tab; a present status holds no tab, id, tab, status is a prefix of the line, and the status runs to the next tab or the end of the line, so it is the whole second field |
| `Devices.ListedDevices` | src/commands/android.ts:332-341 | one entry per non-blank line after the header, in order, no more than there are lines; entry i's id is that line's `DeviceId` and holds no tab |
| `Devices.ListedOfLines` | src/commands/android.ts:332-340 | for output made of a header and lines, the listing is exactly `ListedEntry` of each non-blank line, in input order; the header never contributes |
| `Devices.DevicesCommand` | src/commands/android.ts:318-350 | a failed ADB probe is fatal before any query. After a good probe the command succeeds exactly when `adb devices` completes, and a failed query is fatal with its message. On success it reports "none connected" exactly when the listing is empty, and otherwise shows every non-blank line after the header, whatever its status |
| `Devices.StatusDeviceContainsMarker` | src/commands/android.ts:338-342 | a line whose listed status is `device` contains `"\tdevice"` |
| `Devices.OnlineEntryIsTarget` | src/commands/android.ts:331-342 | every device the listing shows as `device` is also an install target |
| `Install.NamePrefix` | src/commands/android.ts:205 | `options.name` when it is given and non-empty, `app` otherwise; never empty |
| `Install.BuildHint` | src/commands/android.ts:210-214 | the suggested command starts with `flt android build`; ` --release` follows exactly for the release build type; ` --name <prefix>` ends it for a prefix other than `app`, and nothing else is in it, so the hint is exactly `flt android build[ --release] --name <prefix>`; for `app` it is exactly `flt android build` or `flt android build --release` |
| `Install.ChooseApk` | src/commands/android.ts:195-219 | with `--file`, that path if it exists and a missing-file error otherwise; without it, success exactly when the resolver finds a package, which is then the package, and otherwise a not-found error with the build type, prefix and suggested build command |
| `Install.PlanInstall` | src/commands/android.ts:172-258 | an install is planned exactly when the project, build-type, ADB, package and device checks all pass (and a `--device` is listed). Each failed check reports its own error, in the source's order: not a Flutter project, the unsupported build type, ADB not found, the package choice's error, the failed `adb devices` query, no devices. The package is the one chosen. `--device` targets exactly that listed device; otherwise every parsed target is targeted |
| `Install.ExplicitFileOverridesResolver` | src/commands/android.ts:196-202 | an existing `--file` is the package whatever the build-output directory holds and whatever `--name` says |
| `Install.UnknownDeviceAborts` | src/commands/android.ts:240-246 | a `--device` missing from the parsed list is a fatal pre-flight error carrying the available ids |
| `Install.KeptLines` | src/commands/android.ts:270-272 | every surviving line is a line of the captured output, holds no newline and no `Performing`, and is not blank; there are no more of them than lines |
| `Install.KeptLinesSpec` | src/commands/android.ts:270-273 | no surviving output line contains `Performing` or is blank, and every other line survives |
| `Install.KeptLinesInOrder` | src/commands/android.ts:270-273 | the output filter keeps surviving lines in their original relative order |
| `Install.FilteredOutput` | src/commands/android.ts:270-273 | the joined output is empty (falsy) exactly when no line survives the filter |
| `Install.PrintedLines` | src/commands/android.ts:276-282 | an empty output prints nothing; every printed line is a non-blank line of the output |
| `Install.PrintedAreKept` | src/commands/android.ts:270-282 | the lines printed under a device's label are exactly the surviving lines, in order, and none when nothing survives |
| `Install.OutcomeOf` | src/commands/android.ts:260-289 | the outcome carries the device id; it is a success exactly when the install completed; a success records the surviving output lines and a failure the thrown message |
| `Install.Outcomes` | src/commands/android.ts:260-293 | `Promise.all` over `devices.map(...)` gives one outcome per device, and outcome i is that of device i's install |
| `Install.Summarize` | src/commands/android.ts:298-302 | "all installed" exactly when no install failed; otherwise both counts are reported as given |
| `Install.InstallAll` | src/commands/android.ts:257-296 | for N devices there are N outcomes; outcome i belongs to device i and records that device's install result; the success and failure counts add up to N; the failure count is 0 exactly when every install succeeded |
| `Install.NoFailureIff` | src/commands/android.ts:293-298 | no outcome is a failure exactly when every device's install completed |
| `Install.SummaryCounts` | src/commands/android.ts:295-302 | with k of n installs failed the summary reports n-k successes and k failures, and "all installed" exactly when k is 0 |
| `Install.InstallCommand` | src/commands/android.ts:172-308 | a failed pre-flight check aborts before any install is attempted. With `--device` exactly that device is installed to, and its failure is fatal. Otherwise every target is installed to in order and summarised |
| `Build.Rename` | src/commands/android.ts:147-148 | after the rename the new name is present, the old name is gone unless it is the new name, every other entry is kept, and nothing else appears |
| `Build.BuildType` | src/commands/android.ts:129 | the build type is `release` exactly when `--release` is set and `debug` otherwise; it is a supported and literal pattern part |
| `Build.BuildCommand` | src/commands/android.ts:124-158 | each failure is reported as coded: not a Flutter project, the Flutter build's error, the missing standard package, or the error `renameSync` throws. The build succeeds exactly when none of these happens, and the standard package is then renamed to the timestamped name |
| `Build.RenamedApkMatches` | src/commands/android.ts:142-145 | the renamed file has the exact form the resolver scans for, and its sort key is the generated stamp |
| `Build.SameStampSameName` | src/commands/android.ts:36-43 | two matching names with the same stamp are the same name |
| `Build.InstallFindsBuild` | src/commands/android.ts:141-149 | after a build, the resolver finds a timestamped package whose stamp is no earlier than that build's; when no listed package has a later stamp, it finds exactly that build's package |

## Left out

- Subprocesses (`flutter build apk`, `adb version`, `adb devices`, `adb install`) are not run. Their results are inputs of type `Process.Run`.
- Streamed output is not modelled. This covers the single-device install's inherited output and the Flutter build's.
- The parallel fan-out with `Promise.all` is not modelled. `Install.InstallAll` installs one device after another and stores each outcome at its device's index, which is the order `Promise.all` returns. Completion order and interleaved console output are not modelled.
- Console output is not modelled: the coloured `success`/`error`/`info`/`warn` helpers, the `[i/N]` labels and the message texts. `Install.PrintedLines` records only which lines are printed under a device's label. A `process.exit(1)` is a `Process.Fatal` value in a `Failure` or `Aborted` result.
- File-system calls are not made. `existsSync`, `readdirSync` and `renameSync` become `ApkDir`, `Env.existingFiles` and `Build.Rename`; an error `renameSync` throws is an input of `Build.BuildCommand`. `path.resolve`, `join` and `basename` are not modelled: names and paths are compared as given.
- The clock is not read. The local-time fields are a `Timestamp.LocalTime` parameter. Time zones and years outside 1000..9999 are not covered by the lemmas.
- Install.PlanInstall: without `--file`, requires the name prefix to contain no regular-expression metacharacter (`RegexLiteral`), because the source then builds its pattern from the prefix without escaping. With `--file` the prefix is never used and any name is allowed. A prefix with a metacharacter is not modelled on the resolver path, and no injection safety is claimed.
- Install.InstallCommand, Install.ChooseApk and Install.UnknownDeviceAborts: the same requirement as `PlanInstall`, and only when `--file` is absent.
- Timestamp.TimestampOrder: orders stamps by local wall-clock time, not by when the builds ran. After a daylight-saving fall-back or a clock set back, a later build can get a smaller stamp. The resolver then returns the package with the larger stamp, which is the older build. `Build.InstallFindsBuild` promises this build's package only when no listed package has a later stamp.
- ApkResolver.Newest: the comparison `localeCompare` is modelled as ordinal comparison. That is valid only because both keys are 12 ASCII digits. Among equal stamps the model keeps the earliest entry in the listing; the source's tie-break is not claimed.
- Strings are sequences of Unicode scalar values, not UTF-16 code units. This matters only for characters outside the Basic Multilingual Plane, which never occur in the digit stamps that are compared.
- `formatHelp` (src/commands/android.ts:60-102) is presentation of help text and is not modelled. The same holds for src/bin/cli.ts (argument parsing), src/utils/version.ts (reading `package.json`) and rslib.config.ts (build configuration).
- `isFlutterProject` and `ensureFlutterProject` are not modelled: their outcome is the boolean `flutterProject` input.
