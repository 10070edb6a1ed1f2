# adb-app-manager: the handlers' text handling, in Dafny

adb-app-manager is an Electron application that manages the packages of an
Android device through `adb`. Its main process (`main.js`) answers the
renderer's IPC requests. Each handler runs one `adb` command, turns the text
the command prints into a result record, and resolves to
`{success: true, ...}` or `{success: false, error}`.

This project models that text handling:

- `check-adb` (`adb version`): the trimmed version text, or a fixed message
  whenever `adb version` fails, whether adb is missing or exits with an
  error.
- `check-devices` (`adb devices`): keep the lines that hold a tab and split
  each into a trimmed serial and state. A listing without such a line is a
  failure.
- `list-packages` (`adb shell pm list packages -f` plus option flags): the
  command is built flag by flag. Each `package:` line is matched against
  `/package:(.+)=(.+)/` and yields a record with name, label, APK path
  and a system flag.
- `list-running` (`adb shell ps`): the ninth whitespace-separated column of
  every row whose ninth column holds a `.`, with repeats dropped in
  first-occurrence order.
- `check-app-status` (`adb shell pm list packages -d`): a package is enabled
  when its name occurs nowhere in the listing.
- The six package actions (`force-stop`, `uninstall-app`, `enable-app`,
  `disable-app`, `clear-data`, `launch-app`): each interpolates the package
  name into a fixed command.

Running a command is a parameter of every handler: a function from the
command line to `Ok(stdout)` or `Err(message)` (`AdbExec.Runner`). Every
contract therefore names the exact command the handler runs. Every handler
is a total function or method, so each one returns a reply for every
outcome rather than throwing.

Modules:

- `AdbExec` (exec.dfy): the exec outcome and the reply record.
- `JsText` (jstext.dfy): the JavaScript string operations the handlers use.
  These are `trim` with ECMAScript whitespace, `split` on one character,
  `split(/\s+/)`, `includes` and `startsWith`.
- `JsArray` (jsarray.dfy): `filter`, a push loop, and `[...new Set(xs)]`.
- `DeviceList` (devices.dfy), `PackageList` (packages.dfy), `RunningList`
  (running.dfy) and `AppActions` (actions.dfy): one module per group of
  handlers.

`list-packages` builds its command with `+=` and parses in a `for` loop that
pushes records, and `list-running` collects names the same way. These are
methods with loops, each proved equal to a specification function. The
other handlers are expressions and are modelled as functions.

A few points where the code is more specific than a summary of it would be:

- `launch-app` runs `adb shell monkey -p <name> 1`: the name is followed by
  ` 1`, not only preceded by a prefix.
- `check-adb` reports its own fixed message on failure, not the error's
  message.
- The device state is kept as the text adb printed.
- The record field main.js:66 calls `label` is `shortLabel` in the model,
  because `label` is a keyword of Dafny.
- The `list-packages` regular expression is searched anywhere in the line,
  not only at its start. Its `.` stops at `\n`, `\r`, U+2028 and U+2029.
  The greedy first group makes the path run up to the last `=` that still
  leaves a character for the name.

## Model

| member | source | states |
|---|---|---|
| `JsText.Trim` | main.js:42 | the definition of `trim`: the text left once `LeadingBlanks` and then `TrailingBlanks` are dropped; `TrimSpec` states what it means |
| `JsText.TrimSpec` | main.js:42 | `trim` removes exactly the whitespace at both ends: the result is the slice of the input between the leading and trailing whitespace runs, and it neither starts nor ends with whitespace |
| `JsText.TrimKeepsTrimmed` | main.js:29 | a string with no whitespace at either end is left unchanged by `trim` |
| `JsText.TrimAllWhitespace` | main.js:81 | `trim` gives the empty string exactly when the input is all whitespace |
| `JsText.Split` | main.js:38 | `split` on a character always yields at least one piece |
| `JsText.SplitPieces` | main.js:41 | no piece holds the separator; text without the separator is one piece, text with it is at least two |
| `JsText.SplitWithoutSep` | main.js:41 | a text without the separator splits into itself alone |
| `JsText.SplitConcat` | main.js:38 | splitting `a + sep + b` gives the pieces of `a` followed by those of `b` |
| `JsText.JoinSplit` | main.js:78 | joining the pieces with the separator gives back the split text |
| `JsText.SplitJoin` | main.js:78 | splitting a join of separator-free pieces gives back the pieces |
| `JsText.SplitAtFirst` | main.js:41 | the first piece is the text before the first separator; the rest are the pieces of the text after it |
| `JsText.SplitFirstTwo` | main.js:41 | the first two pieces are the text before the first separator and the text from there to the next separator or the end |
| `JsText.SplitLast` | main.js:64 | the last piece (`pop()`) is the suffix after the last separator, or the whole text when there is none |
| `JsText.SplitOneTerminated` | main.js:38 | a separator-free text followed by one separator splits into that text and an empty piece |
| `JsText.SplitWs` | main.js:81 | `split(/\s+/)` yields at least one piece, and no piece holds whitespace; `SplitWsDecomposes` and `SplitWsInterleave` pin the pieces down as the text between maximal whitespace runs |
| `JsText.SplitWsOfTrimmed` | main.js:81 | after `trim`, a non-empty line splits on whitespace into non-empty fields only |
| `JsText.Fields` | main.js:81 | the definition of `line.trim().split(/\s+/)`; `FieldsOfPadded` states what it yields |
| `JsText.SplitWsShape` | main.js:81 | the pieces of `split(/\s+/)` hold no whitespace, and only the first and the last can be empty |
| `JsText.SplitWsDecomposes` | main.js:81 | every text is its `split(/\s+/)` pieces with the whitespace runs between them put back |
| `JsText.FirstPiece` | main.js:81 | in a text made of a whitespace-free word, a whitespace run of any length, and a rest that starts with a non-whitespace character, the first piece is the word and the others are the pieces of the rest |
| `JsText.SplitWsInterleave` | main.js:81 | pieces of that shape, joined by whitespace runs of any length, are split back into the same pieces |
| `JsText.TrimPadded` | main.js:81 | `trim` removes any whitespace padding around a text that neither starts nor ends with whitespace |
| `JsText.FieldsOfPadded` | main.js:81 | a row of non-empty whitespace-free fields, separated by whitespace runs of any length and padded with any whitespace, has exactly those fields |
| `JsText.Contains` | main.js:96 | `includes` holds exactly when the sub-string occurs at some position |
| `JsArray.Filter` | main.js:38 | `filter` keeps only elements that pass the test and that come from the input, and never lengthens it |
| `JsArray.Collect` | main.js:60-68 | the definition of a loop that pushes what each element yields; `CollectSnoc`, `CollectOrigin` and `CollectComplete` state what it gathers |
| `JsArray.FilterConcat` | main.js:59 | filtering a concatenation filters each part, in order |
| `JsArray.FilterOne` | main.js:59 | a single element is kept exactly when it passes the test |
| `JsArray.FilterComplete` | main.js:59 | every element that passes the test is kept |
| `JsArray.CollectConcat` | main.js:60-68 | what a push loop collects over a concatenation is what it collects over each part, in order |
| `JsArray.CollectOne` | main.js:60-68 | a push loop over one element collects what that element yields |
| `JsArray.CollectSnoc` | main.js:80-86 | one more iteration of a push loop appends what that element yields |
| `JsArray.CollectOrigin` | main.js:80-86 | every collected value was yielded by some element |
| `JsArray.CollectComplete` | main.js:80-86 | every value an element yields is collected |
| `JsArray.FirstIndex` | main.js:87 | the index of the first occurrence of an element |
| `JsArray.Unique` | main.js:87 | the definition of `[...new Set(xs)]` as insertion into a set that keeps the elements not yet seen; `UniqueOrder` states what it yields |
| `JsArray.UniqueFromElements` | main.js:87 | inserting into a set already holding `seen` adds exactly the elements not in `seen` |
| `JsArray.UniqueFromOrder` | main.js:87 | a set lists its elements in the order of their first insertion |
| `JsArray.UniqueOrder` | main.js:87 | `[...new Set(xs)]` holds exactly the elements of `xs`, none twice, in the order of their first occurrence in `xs` |
| `JsArray.UniqueOfDistinct` | main.js:87 | a sequence without repeats passes through the set unchanged |
| `JsArray.UniqueIdempotent` | main.js:87 | removing duplicates twice is removing them once |
| `DeviceList.TabLines` | main.js:38 | the kept lines all hold a tab |
| `DeviceList.DeviceOfLine` | main.js:41-42 | the definition of the record of one tab line, from its first two `split('\t')` pieces; `DeviceOfLineSpec` states what they are |
| `DeviceList.DeviceOfLineSpec` | main.js:41-42 | the id is the trimmed text before the first tab; the status is the trimmed text between the first tab and the next tab or the end of the line |
| `DeviceList.DevicesOf` | main.js:38-43 | the definition of the `filter`/`map` pipeline over the lines; `DevicesOfLine` and `DevicesOfConcat` state what it yields |
| `DeviceList.DevicesOfTabLines` | main.js:40-43 | one device record per kept line |
| `DeviceList.CheckDevices` | main.js:35-48 | runs `adb devices`; a failed command reports its message unchanged; a listing without a tab line is a failure with the fixed message, never an empty success; otherwise the records of the tab lines |
| `DeviceList.DevicesOfTabLinesConcat` | main.js:40-43 | the records of concatenated tab lines are the records of each part, in order |
| `DeviceList.DevicesOfConcat` | main.js:38-43 | the records of concatenated lines are the records of each part, in order |
| `DeviceList.DevicesOfLine` | main.js:38-43 | a single line yields one record when it holds a tab and none otherwise |
| `DeviceList.DevicesOfOutputConcat` | main.js:37-43 | the devices of two chunks of output joined by a newline are those of the first chunk followed by those of the second |
| `DeviceList.OneDeviceListing` | main.js:35-48 | output holding one `<id>TAB<status>` line yields exactly that device |
| `DeviceList.OneEmulator` | main.js:35-48 | `emulator-5554<TAB>device` yields one device with that id and state |
| `DeviceList.DeviceLineRoundTrip` | main.js:41-42 | a device line printed from an id and a status without tabs or surrounding whitespace parses back to them |
| `PackageList.PackageCommand` | main.js:52-56 | the definition of the command: the base command followed by `Flags` of the options; `PackageCommandDecodes` states what it holds |
| `PackageList.BuildCommand` | main.js:52-56 | the command built with `+=` is the base command followed by the flags of the set options in the order ` -3`, ` -s`, ` -d`, ` -e` |
| `PackageList.PackageCommandDecodes` | main.js:52-56 | the command starts with the base command, and the options can be read back from what follows it: each flag appears at most once, in the fixed order, only when its option is set |
| `PackageList.FlagsDecode` | main.js:53-56 | the flag text of the options decodes back to the options |
| `PackageList.PackageCommandInjective` | main.js:52-56 | different options give different commands |
| `PackageList.RunEnd` | main.js:61 | the run of characters that `.` matches ends at the first line terminator or the end of the line |
| `PackageList.LastSplitBelow` | main.js:61 | the greedy `(.+)=` backs off to the last `=` that has a character before it and one after it |
| `PackageList.MatchAt` | main.js:61 | the definition of one attempt of the pattern at one position: the marker, then the run `.` matches split at `LastSplitBelow`; `MatchAtSpec` states what it yields |
| `PackageList.MatchAtSpec` | main.js:61-63 | a match consists of the marker, a non-empty path, `=` and a non-empty name, free of line terminators; the name reaches a terminator or the end of the line and holds no `=` except possibly last; without a match no `=` can split the run |
| `PackageList.MatchPos` | main.js:61 | the search stops at the first position from which the pattern matches; it matches at no earlier position |
| `PackageList.MatchFrom` | main.js:61 | the definition of `match`: the attempt at the first position `MatchPos` finds; `MatchFromSpec` and `RecordRoundTrip` state what it yields |
| `PackageList.MatchFromSpec` | main.js:61 | `match` finds nothing only when the pattern matches at no position of the line |
| `PackageList.RecordRoundTrip` | main.js:61-63 | the line `package:<path>=<name>` gives back path and name, even when the path holds `=`, provided the name holds none; a trailing `\r` changes nothing |
| `PackageList.LastSegment` | main.js:64 | the label is a suffix of the name with no `.`, preceded by `.` when shorter than the name |
| `PackageList.IsSystemPath` | main.js:65 | the definition of the three `includes` tests on the path; `PackageOfSpec` states it as occurrences of the markers |
| `PackageList.PackageOf` | main.js:64-66 | the definition of the record pushed for a match; `PackageOfSpec` states what its fields hold |
| `PackageList.PackageOfSpec` | main.js:64-66 | the label is the trimmed last `.`-segment (the whole trimmed name without a `.`); `system` holds exactly when the untrimmed path holds `/system/`, `/vendor/` or `/product/` |
| `PackageList.PackageLines` | main.js:59 | only lines of the output starting with `package:` are kept |
| `PackageList.PackagesOfLine` | main.js:61-67 | the definition of what one line contributes: the record of its match, or nothing; `ListingOfOneLine` states it for a whole listing of one line |
| `PackageList.PackagesOfListing` | main.js:59-68 | the definition of the listing's records: `Collect` of `PackagesOfLine` over the marked lines; `ParsePackages` is proved equal to it, and `PackageOrigin`/`PackageComplete` state what it holds |
| `PackageList.ListingConcat` | main.js:59-68 | the records of two chunks of output joined by a newline are those of the first followed by those of the second |
| `PackageList.ListingOfOneLine` | main.js:59-68 | a line yields at most one record: one exactly when it starts with `package:` and the pattern matches |
| `PackageList.PackageOrigin` | main.js:59-68 | every record comes from a line of the output that starts with `package:` and that the pattern matches |
| `PackageList.PackageComplete` | main.js:59-68 | every such line gives its record |
| `PackageList.ParsePackages` | main.js:58-68 | the push loop produces exactly the records of the listing |
| `PackageList.ListPackages` | main.js:50-73 | runs the command of the options; a failed command reports its message unchanged; otherwise the records of the listing |
| `PackageList.RecordLineIsOneLine` | main.js:59 | a record line built from terminator-free parts holds no newline |
| `PackageList.OneRecordListing` | main.js:58-68 | output of one record line and a newline yields exactly that package's record |
| `RunningList.ProcessNameOf` | main.js:81-84 | a row contributes at most one name, which holds a `.` and no whitespace |
| `RunningList.RunningNames` | main.js:79-86 | the definition of the names the loop pushes: `Collect` of `ProcessNameOf` over the lines; `RunningOrigin`/`RunningComplete` state what it holds |
| `RunningList.CollectRunning` | main.js:78-86 | the push loop collects exactly the ninth fields, in row order |
| `RunningList.ListRunning` | main.js:75-91 | runs `adb shell ps`; a failed command reports its message unchanged; otherwise the collected names with repeats removed |
| `RunningList.RunningListShape` | main.js:80-87 | the list has no duplicates, every entry holds a `.` and no whitespace, and entries come in order of first appearance |
| `RunningList.RunningOrigin` | main.js:80-87 | every entry is field 8 of some row that has more than eight fields |
| `RunningList.RunningComplete` | main.js:80-87 | field 8 of every row that has one and where it holds a `.` is listed |
| `RunningList.PsRow` | main.js:81-84 | a row of non-empty fields separated by whitespace runs of any length, with any whitespace around it, yields its ninth field exactly when it has one holding a `.` |
| `RunningList.HeaderRowSkipped` | main.js:82-84 | the column-padded `ps` header row (ninth column `NAME`) ending in `\r` contributes nothing |
| `RunningList.AppRowListed` | main.js:82-84 | an application's column-padded `ps` row contributes its package name |
| `AppActions.CheckAdb` | main.js:26-33 | runs `adb version`; success carries the printed text, which occurs in the output and neither starts nor ends with whitespace; a failure always reports the fixed message |
| `AppActions.CheckAdbVersion` | main.js:29 | the version is the output minus its leading and trailing whitespace, and already-trimmed output is reported unchanged |
| `AppActions.CheckAppStatus` | main.js:93-101 | runs `adb shell pm list packages -d`; a failed command reports its message unchanged; otherwise enabled exactly when the name occurs at no position of the listing |
| `AppActions.EmptyNameDisabled` | main.js:96-97 | the empty name is always reported disabled |
| `AppActions.PartOfDisabledNameReportedDisabled` | main.js:96-97 | a name that is only part of a disabled package's name is reported disabled too |
| `AppActions.ActionCommand` | main.js:105 | the command is the action's prefix, the package name verbatim, and the suffix (` 1` for launch, nothing otherwise) |
| `AppActions.RunAction` | main.js:103-155 | a failed command reports its message unchanged; success carries the output for uninstall and nothing for the other actions |
| `AppActions.ParseActionCommandInverts` | main.js:103-155 | the action and the package name can be read back from every action command |
| `AppActions.PrefixesDiffer` | main.js:105-150 | a command starting with one action's prefix starts with no other action's prefix |
| `AppActions.ActionCommandInjective` | main.js:103-155 | different actions or names give different commands |

## Left out

- Window creation and the application lifecycle (main.js:1-24): user interface plumbing with no text handling.
- Running the command (`child_process.exec`, `util.promisify`, the `maxBuffer` limits at main.js:57 and main.js:77): the outcome is a parameter. A listing larger than the buffer is an `Err` of that parameter like any other failure.
- `async`/`await` and the IPC dispatch by `ipcMain.handle`: concurrency and message passing. Each handler is modelled as one call from request to reply.
- preload.js is not part of this model: it only forwards names to `ipcRenderer.invoke`.
- Arguments that are not strings: `packageName` and the options object come from the renderer untyped. A `null` options object or a non-string name would be coerced or would throw inside the `try`. The model takes a string name and four booleans (a missing option is `false`).
- The output of `adb uninstall` is passed on as it is; what adb prints is not modelled.
- The accented letters of the two French messages appear in main.js as a mis-encoded pair of characters. The model writes them as U+00E9, the character the messages evidently mean.
- Exceptions thrown by the parsing itself: no parsing step can throw on string input, so each `catch` branch is reached only through a failed command.
- Strings are sequences of Unicode scalar values, while JavaScript strings are sequences of UTF-16 code units. A package name holding a lone surrogate cannot be expressed, and the model cannot show `includes` (main.js:96) matching such a name against half of a surrogate pair in the listing.
- Per-process memory values, a second `ps` output format and argument-vector invocation: the code has none of them. Commands are built by string interpolation, and `list-running` only collects names.
