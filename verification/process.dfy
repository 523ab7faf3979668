/**
 * What the commands see of the outside world: the result of running an external program
 * (`flutter`, `adb`) and the reasons a command ends with `process.exit(1)`.
 */
module Process {

  /** An `execa` call: it resolves with the captured streams or throws with a message. */
  datatype Run = Completed(stdout: string, stderr: string) | Threw(message: string)

  /** The fatal errors a command reports before exiting with status 1. */
  datatype Fatal =
    | NotFlutterProject
    | UnsupportedBuildType(buildType: string)
    | AdbNotFound
    | ApkFileMissing(path: string)
    | ApkNotFound(buildType: string, prefix: string, hint: string)
    | BuiltApkMissing(path: string)
    | NoDevices
    | DeviceNotConnected(device: string, available: seq<string>)
    | CommandFailed(message: string)
}
