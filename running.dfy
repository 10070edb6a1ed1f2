/** The `list-running` handler (main.js:75-91): run `adb shell ps`, take the
    process name column of every row, keep the names that look like package
    names, and drop repeated names. */
module RunningList {
  import opened JsText
  import opened AdbExec
  import opened JsArray

  const PsCommand: string := "adb shell ps"

  /** The index of the process name among the fields of a `ps` row. */
  const NameColumn: nat := 8

  /** What main.js:81-84 pushes for one row: its ninth field, when the row
      has one and it is a non-empty text holding a `.`; nothing otherwise. */
  function ProcessNameOf(line: string): (r: seq<string>)
    ensures |r| <= 1
    ensures r != [] ==> '.' in r[0] && NoWhitespace(r[0])
  {
    var parts := Fields(line);
    if |parts| > NameColumn && parts[NameColumn] != [] && '.' in parts[NameColumn]
    then [parts[NameColumn]]
    else []
  }

  /** The names pushed for the rows of `stdout`, in row order, repeats
      included. */
  function RunningNames(stdout: string): seq<string> {
    Collect(ProcessNameOf, Split(stdout, '\n'))
  }

  /** main.js:78-86: scan the rows and push each process name found. */
  method CollectRunning(stdout: string) returns (running: seq<string>)
    ensures running == RunningNames(stdout)
  {
    var lines := Split(stdout, '\n');
    running := [];
    for i := 0 to |lines|
      invariant running == Collect(ProcessNameOf, lines[..i])
    {
      var parts := Fields(lines[i]);
      if |parts| > NameColumn {
        var processName := parts[NameColumn];
        if processName != [] && '.' in processName {
          running := running + [processName];
        }
      }
      CollectSnoc(ProcessNameOf, lines, i);
    }
    assert lines[..|lines|] == lines;
  }

  /** The `list-running` handler: a failed command reports its error message
      unchanged; otherwise the names found, each once, in order of first
      appearance. */
  method ListRunning(exec: Runner) returns (r: Reply<seq<string>>)
    ensures exec(PsCommand).Err? ==> r == Failure(exec(PsCommand).message)
    ensures exec(PsCommand).Ok? ==> r == Success(Unique(RunningNames(exec(PsCommand).stdout)))
  {
    match exec(PsCommand)
    case Err(message) =>
      r := Failure(message);
    case Ok(stdout) =>
      var running := CollectRunning(stdout);
      r := Success(Unique(running));
  }

  /** The reported list holds no name twice, every name holds a `.` and no
      whitespace, and the names come in the order in which they first
      appear in the listing. */
  lemma RunningListShape(stdout: string)
    ensures var names, r := RunningNames(stdout), Unique(RunningNames(stdout));
      && (forall i, j :: 0 <= i < j < |r| ==> r[i] != r[j])
      && (forall k :: 0 <= k < |r| ==> '.' in r[k] && NoWhitespace(r[k]))
      && InFirstOccurrenceOrder(names, r)
  {
    var names, r := RunningNames(stdout), Unique(RunningNames(stdout));
    UniqueOrder(names);
    forall k | 0 <= k < |r| ensures '.' in r[k] && NoWhitespace(r[k]) {
      var name := r[k];
      assert name in names;
      CollectOrigin(ProcessNameOf, Split(stdout, '\n'), name);
      var line :| line in Split(stdout, '\n') && name in ProcessNameOf(line);
      assert ProcessNameOf(line) == [name];
    }
  }

  /** Every reported name is the ninth field of some row that has more than
      eight fields. */
  lemma RunningOrigin(stdout: string, name: string)
    requires name in Unique(RunningNames(stdout))
    ensures exists line :: line in Split(stdout, '\n') && |Fields(line)| > NameColumn
              && Fields(line)[NameColumn] == name && '.' in name
  {
    UniqueOrder(RunningNames(stdout));
    CollectOrigin(ProcessNameOf, Split(stdout, '\n'), name);
  }

  /** Conversely, the ninth field of every row, when it holds a `.`, is
      reported. */
  lemma RunningComplete(stdout: string, line: string)
    requires line in Split(stdout, '\n') && |Fields(line)| > NameColumn
    requires '.' in Fields(line)[NameColumn]
    ensures Fields(line)[NameColumn] in Unique(RunningNames(stdout))
  {
    CollectComplete(ProcessNameOf, Split(stdout, '\n'), line, Fields(line)[NameColumn]);
    UniqueOrder(RunningNames(stdout));
  }

  /** A row printed as non-empty fields separated by any whitespace runs,
      with any whitespace before and after it (as `ps` pads its columns),
      yields its ninth field exactly when it has one and that field holds a
      `.`. */
  lemma PsRow(lead: string, fields: seq<string>, gaps: seq<string>, trail: string)
    requires AllWhitespace(lead) && AllWhitespace(trail)
    requires |fields| >= 1 && forall k :: 0 <= k < |fields| ==> fields[k] != [] && NoWhitespace(fields[k])
    requires |gaps| == |fields| - 1 && forall k :: 0 <= k < |gaps| ==> IsGap(gaps[k])
    ensures ProcessNameOf(lead + Interleave(fields, gaps) + trail) ==
      if |fields| > NameColumn && '.' in fields[NameColumn] then [fields[NameColumn]] else []
  {
    FieldsOfPadded(lead, fields, gaps, trail);
  }

  /** The columns of the header row of `ps`, and the padding between them. */
  const HeaderFields: seq<string> := ["USER", "PID", "PPID", "VSZ", "RSS", "WCHAN", "ADDR", "S", "NAME"]
  const HeaderGaps: seq<string> := ["           ", "  ", "     ", "    ", " ", "            ", " ", " "]

  /** The columns of a row for an application process, and the padding
      between them. */
  const AppFields: seq<string> :=
    ["u0_a123", "12345", "678", "1234567", "89012", "0", "0", "S", "com.example.app"]
  const AppGaps: seq<string> := ["      ", "   ", " ", "  ", " ", "                   ", " ", " "]

  /** The header row of `ps`, padded as `ps` pads it and ended by a
      carriage return, names its ninth column `NAME`, which holds no `.`,
      so the header contributes nothing. */
  lemma HeaderRowSkipped()
    ensures ProcessNameOf(Interleave(HeaderFields, HeaderGaps) + "   \r") == []
  {
    ColumnsOfRow(HeaderFields, HeaderGaps);
    HeaderRow(HeaderFields, HeaderGaps);
  }

  lemma HeaderRow(fields: seq<string>, gaps: seq<string>)
    requires |fields| == 9 && fields[NameColumn] == "NAME" && |gaps| == 8
    requires forall k :: 0 <= k < |gaps| ==> IsGap(gaps[k])
    requires forall k :: 0 <= k < |fields| ==> fields[k] != [] && NoWhitespace(fields[k])
    ensures ProcessNameOf(Interleave(fields, gaps) + "   \r") == []
  {
    assert '.' !in "NAME";
    assert "" + Interleave(fields, gaps) == Interleave(fields, gaps);
    PsRow("", fields, gaps, "   \r");
  }

  /** A row for an application process, padded as `ps` pads it,
      contributes its package name. */
  lemma AppRowListed()
    ensures ProcessNameOf(Interleave(AppFields, AppGaps)) == ["com.example.app"]
  {
    ColumnsOfRow(AppFields, AppGaps);
    AppRow(AppFields, AppGaps);
  }

  lemma AppRow(fields: seq<string>, gaps: seq<string>)
    requires |fields| == 9 && fields[NameColumn] == "com.example.app" && |gaps| == 8
    requires forall k :: 0 <= k < |gaps| ==> IsGap(gaps[k])
    requires forall k :: 0 <= k < |fields| ==> fields[k] != [] && NoWhitespace(fields[k])
    ensures ProcessNameOf(Interleave(fields, gaps)) == ["com.example.app"]
  {
    assert fields[NameColumn][3] == '.';
    assert "" + Interleave(fields, gaps) + "" == Interleave(fields, gaps);
    PsRow("", fields, gaps, "");
  }

  /** The columns of the two sample rows hold no whitespace, and the
      padding between them is whitespace. */
  lemma ColumnsOfRow(fields: seq<string>, gaps: seq<string>)
    requires (fields, gaps) == (HeaderFields, HeaderGaps) || (fields, gaps) == (AppFields, AppGaps)
    ensures forall k :: 0 <= k < |gaps| ==> IsGap(gaps[k])
    ensures forall k :: 0 <= k < |fields| ==> fields[k] != [] && NoWhitespace(fields[k])
  {
    GapsOfRow(gaps);
  }

  lemma GapsOfRow(gaps: seq<string>)
    requires gaps == HeaderGaps || gaps == AppGaps
    ensures forall k :: 0 <= k < |gaps| ==> IsGap(gaps[k])
  {
  }
}
