/**
 * Reading the output of `adb devices` (src/commands/android.ts): the install targets of the
 * `install` command and the listing of the `devices` command.
 */
module Devices {
  import opened Wrappers
  import opened Text
  import opened Process
  import Seqs

  /** `out.split('\n').slice(1)`: every line after the header. */
  function BodyLines(out: string): seq<string>
  {
    Split(out, '\n')[1..]
  }

  /** A line the install command keeps: `line.trim() && line.includes('\tdevice')`. */
  predicate IsTargetLine(line: string)
  {
    Trim(line) != [] && Contains(line, "\tdevice")
  }

  /** `line.split('\t')[0]`: the text before the first tab, or the whole line without one. */
  function DeviceId(line: string): (id: string)
    ensures '\t' !in id
    ensures |id| <= |line| && id == line[..|id|]
    ensures |id| == |line| || line[|id|] == '\t'
  {
    Split(line, '\t')[0]
  }

  function TargetLines(out: string): seq<string>
  {
    Seqs.Filter(BodyLines(out), IsTargetLine)
  }

  /** The device ids the install command targets, one per kept line. */
  function TargetDevices(out: string): (ids: seq<string>)
    ensures |ids| == |TargetLines(out)| <= |BodyLines(out)|
    ensures forall i :: 0 <= i < |ids| ==> '\t' !in ids[i] && ids[i] == DeviceId(TargetLines(out)[i])
  {
    Seqs.Map(TargetLines(out), DeviceId)
  }

  /** Each target id is the text before the first tab of a non-blank line after the header that
      contains "\tdevice", and every such line yields an id. */
  lemma TargetDevicesSpec(out: string)
    ensures |TargetDevices(out)| == |TargetLines(out)|
    ensures forall i :: 0 <= i < |TargetLines(out)| ==>
      && TargetLines(out)[i] in BodyLines(out)
      && !IsBlank(TargetLines(out)[i])
      && Contains(TargetLines(out)[i], "\tdevice")
      && TargetDevices(out)[i] == DeviceId(TargetLines(out)[i])
    ensures forall line :: line in BodyLines(out) && IsTargetLine(line) ==> DeviceId(line) in TargetDevices(out)
  {
    var lines := TargetLines(out);
    forall line | line in BodyLines(out) && IsTargetLine(line)
      ensures DeviceId(line) in TargetDevices(out)
    {
      TargetLineYieldsId(out, line);
    }
  }

  lemma TargetLineYieldsId(out: string, line: string)
    requires line in BodyLines(out) && IsTargetLine(line)
    ensures DeviceId(line) in TargetDevices(out)
  {
    var lines := TargetLines(out);
    var j :| 0 <= j < |BodyLines(out)| && BodyLines(out)[j] == line;
    var k :| 0 <= k < |lines| && lines[k] == line;
    assert TargetDevices(out)[k] == DeviceId(line);
  }

  /** For output made of a header and newline-free lines, the targets are the ids of the target
      lines in their input order; the header never contributes. */
  lemma TargetsOfLines(header: string, lines: seq<string>)
    requires '\n' !in header
    requires forall i :: 0 <= i < |lines| ==> '\n' !in lines[i]
    ensures TargetDevices(Join([header] + lines, '\n')) == Seqs.Map(Seqs.Filter(lines, IsTargetLine), DeviceId)
  {
    BodyOfLines(header, lines);
  }

  /** The lines after the header of a joined output are the joined lines. */
  lemma BodyOfLines(header: string, lines: seq<string>)
    requires '\n' !in header
    requires forall i :: 0 <= i < |lines| ==> '\n' !in lines[i]
    ensures BodyLines(Join([header] + lines, '\n')) == lines
  {
    var parts := [header] + lines;
    assert parts[1..] == lines;
    forall i | 0 <= i < |parts| ensures '\n' !in parts[i] {
      if i > 0 { assert parts[i] == lines[i - 1]; }
    }
    SplitJoin(parts, '\n');
  }

  /** Targets keep input order: the targets of `a` followed by `b` are those of `a`, then of `b`. */
  lemma TargetsInInputOrder(header: string, a: seq<string>, b: seq<string>)
    requires '\n' !in header
    requires forall i :: 0 <= i < |a| ==> '\n' !in a[i]
    requires forall i :: 0 <= i < |b| ==> '\n' !in b[i]
    ensures TargetDevices(Join([header] + (a + b), '\n')) ==
      TargetDevices(Join([header] + a, '\n')) + TargetDevices(Join([header] + b, '\n'))
  {
    TargetsOfLines(header, a + b);
    TargetsOfLines(header, a);
    TargetsOfLines(header, b);
    Seqs.FilterConcat(a, b, IsTargetLine);
    Seqs.MapConcat(Seqs.Filter(a, IsTargetLine), Seqs.Filter(b, IsTargetLine), DeviceId);
  }

  /** One row of the `devices` command: `const [deviceId, status] = line.split('\t')`, where a
      missing status is `undefined`. */
  datatype ListedDevice = ListedDevice(id: string, status: Option<string>)

  function ListedEntry(line: string): (d: ListedDevice)
    ensures d.id == DeviceId(line)
    ensures d.status.None? <==> '\t' !in line
    ensures d.status.Some? ==> '\t' !in d.status.value && d.id + ['\t'] + d.status.value <= line
    ensures d.status.Some? ==> var k := |d.id| + 1 + |d.status.value|; k == |line| || line[k] == '\t'
  {
    var parts := Split(line, '\t');
    if |parts| > 1 then
      SplitFirstTwo(line, '\t');
      ListedDevice(parts[0], Some(parts[1]))
    else
      JoinSplit(line, '\t');
      ListedDevice(parts[0], None)
  }

  /** With two pieces or more, the string starts with the first piece, the separator and the
      second piece, and the second piece runs up to the next separator or the end. */
  lemma SplitFirstTwo(s: string, sep: char)
    requires |Split(s, sep)| > 1
    ensures var parts := Split(s, sep);
      parts[0] + [sep] + parts[1] <= s
    ensures var parts := Split(s, sep);
      var k := |parts[0]| + 1 + |parts[1]|; k == |s| || s[k] == sep
  {
    var parts := Split(s, sep);
    JoinSplit(s, sep);
    assert parts == [parts[0]] + parts[1..];
    JoinCons(parts[0], parts[1..], sep);
    if |parts| > 2 {
      assert parts[1..] == [parts[1]] + parts[2..];
      JoinCons(parts[1], parts[2..], sep);
      var tail := Join(parts[2..], sep);
      assert s == parts[0] + [sep] + parts[1] + [sep] + tail;
      assert s[|parts[0]| + 1 + |parts[1]|] == sep;
    } else {
      assert parts[1..] == [parts[1]];
    }
  }

  /** `status === 'device'`: shown in green, every other status in yellow. */
  predicate Online(d: ListedDevice)
  {
    d.status == Some("device")
  }

  /** `line.trim()` is truthy: the line holds something besides whitespace. */
  predicate IsNonBlankLine(line: string)
  {
    Trim(line) != []
  }

  /** The lines after the header that the `devices` command lists: the non-blank ones. */
  function ListedLines(out: string): seq<string>
  {
    Seqs.Filter(BodyLines(out), IsNonBlankLine)
  }

  /** The `devices` command lists every non-blank line after the header, whatever its status. */
  function ListedDevices(out: string): (r: seq<ListedDevice>)
    ensures |r| == |ListedLines(out)| <= |BodyLines(out)|
    ensures forall i :: 0 <= i < |r| ==> r[i].id == DeviceId(ListedLines(out)[i]) && '\t' !in r[i].id
  {
    Seqs.Map(ListedLines(out), ListedEntry)
  }

  /** The outcome of the `devices` command: the ADB probe, then the listing or a warning. */
  datatype Listing = NoneConnected | Connected(devices: seq<ListedDevice>)

  function DevicesCommand(adbVersion: Run, adbDevices: Run): (r: Result<Listing, Fatal>)
    ensures adbVersion.Threw? ==> r == Failure(AdbNotFound)
    ensures adbVersion.Completed? ==> (r.Success? <==> adbDevices.Completed?)
    ensures adbVersion.Completed? && adbDevices.Threw? ==> r == Failure(CommandFailed(adbDevices.message))
    ensures r.Success? ==>
      adbDevices.Completed? && (r.value.NoneConnected? <==> ListedDevices(adbDevices.stdout) == [])
    ensures r.Success? && r.value.Connected? ==> r.value.devices == ListedDevices(adbDevices.stdout)
  {
    if adbVersion.Threw? then Failure(AdbNotFound)
    else match adbDevices
      case Threw(message) => Failure(CommandFailed(message))
      case Completed(out, _) =>
        var listed := ListedDevices(out);
        if |listed| == 0 then Success(NoneConnected) else Success(Connected(listed))
  }

  /** For output made of a header and newline-free lines, the listing shows one entry per
      non-blank line, in input order; the header is never listed. */
  lemma ListedOfLines(header: string, lines: seq<string>)
    requires '\n' !in header
    requires forall i :: 0 <= i < |lines| ==> '\n' !in lines[i]
    ensures ListedDevices(Join([header] + lines, '\n')) == Seqs.Map(Seqs.Filter(lines, IsNonBlankLine), ListedEntry)
  {
    BodyOfLines(header, lines);
  }

  lemma StatusDeviceContainsMarker(line: string)
    requires ListedEntry(line).status == Some("device")
    ensures Contains(line, "\tdevice")
  {
    var d := ListedEntry(line);
    var k := |d.id|;
    assert line[k..k + 7] == (d.id + ['\t'] + d.status.value)[k..k + 7];
    assert OccursAt(line, "\tdevice", k);
    ContainsIff(line, "\tdevice");
  }

  /** Every device the listing shows as online ("device") is also an install target. */
  lemma OnlineEntryIsTarget(out: string, i: nat)
    requires i < |ListedDevices(out)| && Online(ListedDevices(out)[i])
    ensures ListedDevices(out)[i].id in TargetDevices(out)
  {
    var lines := ListedLines(out);
    var line := lines[i];
    assert ListedDevices(out)[i] == ListedEntry(line);
    StatusDeviceContainsMarker(line);
    assert IsTargetLine(line);
    TargetLineYieldsId(out, line);
  }
}
