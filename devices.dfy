/** The `check-devices` handler (main.js:35-48): run `adb devices` and turn
    every line that holds a tab into a device record. */
module DeviceList {
  import opened JsText
  import opened AdbExec
  import opened JsArray

  /** One row of `adb devices`: the serial and the connection state, both
      as the text adb printed (trimmed), not decoded into an enumeration. */
  datatype Device = Device(id: string, status: string)

  const DevicesCommand: string := "adb devices"

  /** The error reported when the listing has no device line. */
  const NoDeviceMessage: string := "Aucun appareil connect\U{E9}"

  /** `stdout.split('\n')`. */
  function Lines(stdout: string): seq<string> {
    Split(stdout, '\n')
  }

  /** `lines.filter(line => line.includes('\t'))`. */
  function TabLines(lines: seq<string>): (r: seq<string>)
    ensures forall line <- r :: '\t' in line
  {
    Filter(HasTab, lines)
  }

  predicate HasTab(line: string) {
    '\t' in line
  }

  /** `const [id, status] = line.split('\t')` followed by the two `trim`s. */
  function DeviceOfLine(line: string): Device
    requires '\t' in line
  {
    SplitPieces(line, '\t');
    var parts := Split(line, '\t');
    Device(Trim(parts[0]), Trim(parts[1]))
  }

  /** The id is the text before the first tab, the status the text between
      the first tab and the next one (or the end of the line), both trimmed. */
  lemma DeviceOfLineSpec(line: string)
    requires '\t' in line
    ensures var i := IndexOf(line, '\t');
            var rest := line[i + 1..];
            && DeviceOfLine(line).id == Trim(line[..i])
            && DeviceOfLine(line).status == Trim(rest[..IndexOf(rest, '\t')])
  {
    SplitFirstTwo(line, '\t');
  }

  /** `tabbed.map(line => ...)`, for lines that each hold a tab. */
  function DevicesOfTabLines(tabbed: seq<string>): (r: seq<Device>)
    requires forall line <- tabbed :: '\t' in line
    ensures |r| == |tabbed|
  {
    if tabbed == [] then [] else [DeviceOfLine(tabbed[0])] + DevicesOfTabLines(tabbed[1..])
  }

  /** The filter/map pipeline of main.js:38-43. */
  function DevicesOf(lines: seq<string>): seq<Device> {
    DevicesOfTabLines(TabLines(lines))
  }

  /** The `check-devices` handler. A failed command reports the error
      message unchanged; a listing without a device line is a failure, never
      an empty success; otherwise the devices are those of the listing. */
  function CheckDevices(exec: Runner): (r: Reply<seq<Device>>)
    ensures exec(DevicesCommand).Err? ==> r == Failure(exec(DevicesCommand).message)
    ensures exec(DevicesCommand).Ok? ==>
              var lines := Lines(exec(DevicesCommand).stdout);
              && (r.Success? <==> TabLines(lines) != [])
              && (r.Failure? ==> r.error == NoDeviceMessage)
              && (r.Success? ==> r.value == DevicesOf(lines))
    ensures r.Success? ==> r.value != []
  {
    match exec(DevicesCommand)
    case Err(message) => Failure(message)
    case Ok(stdout) =>
      var lines := TabLines(Lines(stdout));
      if |lines| == 0 then Failure(NoDeviceMessage)
      else Success(DevicesOf(Lines(stdout)))
  }

  lemma {:induction false} DevicesOfTabLinesConcat(a: seq<string>, b: seq<string>)
    requires forall line <- a :: '\t' in line
    requires forall line <- b :: '\t' in line
    ensures DevicesOfTabLines(a + b) == DevicesOfTabLines(a) + DevicesOfTabLines(b)
  {
    if a == [] {
      assert a + b == b;
    } else {
      assert (a + b)[1..] == a[1..] + b;
      DevicesOfTabLinesConcat(a[1..], b);
    }
  }

  /** Device records come line by line, in the order of the lines: the
      records of a concatenation are those of each part. */
  lemma DevicesOfConcat(a: seq<string>, b: seq<string>)
    ensures DevicesOf(a + b) == DevicesOf(a) + DevicesOf(b)
  {
    FilterConcat(HasTab, a, b);
    DevicesOfTabLinesConcat(TabLines(a), TabLines(b));
  }

  /** A single line yields exactly one record when it holds a tab, and none
      otherwise. */
  lemma DevicesOfLine(line: string)
    ensures DevicesOf([line]) == if '\t' in line then [DeviceOfLine(line)] else []
  {
    FilterOne(HasTab, line);
  }

  /** At the level of adb's output: the devices of two chunks of output
      joined by a newline are the devices of the first chunk, then those of
      the second. */
  lemma DevicesOfOutputConcat(x: string, y: string)
    ensures DevicesOf(Lines(x + "\n" + y)) == DevicesOf(Lines(x)) + DevicesOf(Lines(y))
  {
    SplitConcat(x, '\n', y);
    DevicesOfConcat(Lines(x), Lines(y));
  }

  /** A listing of one device line followed by a newline yields exactly
      that device. */
  lemma OneDeviceListing(exec: Runner, d: Device)
    requires '\t' !in d.id && '\t' !in d.status && '\n' !in d.id && '\n' !in d.status
    requires d.id == [] || (!IsWhitespace(d.id[0]) && !IsWhitespace(d.id[|d.id| - 1]))
    requires d.status == [] || (!IsWhitespace(d.status[0]) && !IsWhitespace(d.status[|d.status| - 1]))
    requires exec(DevicesCommand) == Ok(d.id + "\t" + d.status + "\n")
    ensures CheckDevices(exec) == Success([d])
  {
    var line := d.id + "\t" + d.status;
    assert exec(DevicesCommand).stdout == line + "\n";
    assert '\n' !in line by {
      assert forall k :: 0 <= k < |line| ==> line[k] == if k < |d.id| then d.id[k] else if k == |d.id| then '\t' else d.status[k - |d.id| - 1];
    }
    SplitOneTerminated(line, '\n');
    DeviceLineRoundTrip(d);
    assert [line, []] == [line] + [[]];
    FilterConcat(HasTab, [line], [[]]);
    FilterOne(HasTab, line);
    FilterOne(HasTab, []);
    assert DevicesOfTabLines([line]) == [DeviceOfLine(line)];
  }

  /** `emulator-5554<TAB>device` and a newline: one emulator attached. */
  lemma OneEmulator(exec: Runner)
    requires exec(DevicesCommand) == Ok("emulator-5554\tdevice\n")
    ensures CheckDevices(exec) == Success([Device("emulator-5554", "device")])
  {
    var d := Device("emulator-5554", "device");
    assert "emulator-5554\tdevice\n" == d.id + "\t" + d.status + "\n";
    OneDeviceListing(exec, d);
  }

  /** Printing a device as adb does and parsing the line gives the device
      back, whenever neither field holds a tab or has whitespace at its ends. */
  lemma {:induction false} DeviceLineRoundTrip(d: Device)
    requires '\t' !in d.id && '\t' !in d.status
    requires d.id == [] || (!IsWhitespace(d.id[0]) && !IsWhitespace(d.id[|d.id| - 1]))
    requires d.status == [] || (!IsWhitespace(d.status[0]) && !IsWhitespace(d.status[|d.status| - 1]))
    ensures '\t' in d.id + "\t" + d.status
    ensures DeviceOfLine(d.id + "\t" + d.status) == d
  {
    var line := d.id + "\t" + d.status;
    assert line[|d.id|] == '\t';
    assert line == d.id + ['\t'] + d.status;
    SplitConcat(d.id, '\t', d.status);
    SplitPieces(d.id, '\t');
    SplitPieces(d.status, '\t');
    TrimKeepsTrimmed(d.id);
    TrimKeepsTrimmed(d.status);
  }
}
