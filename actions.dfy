/** The handlers of main.js that run one fixed command and report little
    more than its outcome: `check-adb` (main.js:26-33), `check-app-status`
    (main.js:93-101) and the six package actions (main.js:103-155). */
module AppActions {
  import opened JsText
  import opened AdbExec

  // ---------------------------------------------------------------------
  // check-adb

  const VersionCommand: string := "adb version"

  /** The message `check-adb` reports whenever `adb version` fails, whatever
      the error was. */
  const AdbMissingMessage: string := "ADB non trouv\U{E9}. Installez Android Platform Tools."

  /** The `check-adb` handler: the version text without the whitespace
      around it, or the fixed message when the command fails. */
  function CheckAdb(exec: Runner): (r: Reply<string>)
    ensures exec(VersionCommand).Err? ==> r == Failure(AdbMissingMessage)
    ensures exec(VersionCommand).Ok? ==>
              var out := exec(VersionCommand).stdout;
              && r.Success?
              && (exists i :: 0 <= i <= |out| && r.value <= out[i..])
              && (r.value == [] || (!IsWhitespace(r.value[0]) && !IsWhitespace(r.value[|r.value| - 1])))
  {
    match exec(VersionCommand)
    case Err(_) => Failure(AdbMissingMessage)
    case Ok(stdout) =>
      TrimSpec(stdout);
      var i := LeadingBlanks(stdout);
      assert Trim(stdout) <= stdout[i..];
      Success(Trim(stdout))
  }

  /** The reported version is the text adb printed once the whitespace at
      its ends is removed: only whitespace is dropped, and output that is
      already trimmed is reported as it is. */
  lemma CheckAdbVersion(exec: Runner)
    requires exec(VersionCommand).Ok?
    ensures var out, r := exec(VersionCommand).stdout, CheckAdb(exec);
      var i := LeadingBlanks(out);
      && r.Success?
      && r.value == out[i..i + |r.value|]
      && (forall k :: 0 <= k < i ==> IsWhitespace(out[k]))
      && (forall k :: i + |r.value| <= k < |out| ==> IsWhitespace(out[k]))
      && (out == [] || (!IsWhitespace(out[0]) && !IsWhitespace(out[|out| - 1])) ==> r.value == out)
  {
    var out := exec(VersionCommand).stdout;
    TrimSpec(out);
    if out == [] || (!IsWhitespace(out[0]) && !IsWhitespace(out[|out| - 1])) {
      TrimKeepsTrimmed(out);
    }
  }

  // ---------------------------------------------------------------------
  // check-app-status

  const DisabledCommand: string := "adb shell pm list packages -d"

  /** The `check-app-status` handler: a package counts as enabled exactly
      when its name occurs nowhere in the listing of disabled packages. */
  function CheckAppStatus(exec: Runner, packageName: string): (r: Reply<bool>)
    ensures exec(DisabledCommand).Err? ==> r == Failure(exec(DisabledCommand).message)
    ensures exec(DisabledCommand).Ok? ==>
              var out := exec(DisabledCommand).stdout;
              && r.Success?
              && (r.value <==> forall i :: 0 <= i <= |out| ==> !(packageName <= out[i..]))
  {
    match exec(DisabledCommand)
    case Err(message) => Failure(message)
    case Ok(stdout) => Success(!Contains(stdout, packageName))
  }

  /** The empty name occurs in every listing, so it is always reported
      disabled. */
  lemma EmptyNameDisabled(exec: Runner)
    requires exec(DisabledCommand).Ok?
    ensures CheckAppStatus(exec, []) == Success(false)
  {
    var out := exec(DisabledCommand).stdout;
    assert [] <= out[0..];
  }

  /** The test is a substring test, not a match on whole lines: a package
      whose name is only a part of the name of a disabled package (a prefix
      of it, for instance) is reported disabled too. */
  lemma PartOfDisabledNameReportedDisabled(exec: Runner, packageName: string, before: string, after: string)
    requires exec(DisabledCommand).Ok?
    requires Contains(exec(DisabledCommand).stdout, "package:" + before + packageName + after)
    ensures CheckAppStatus(exec, packageName) == Success(false)
  {
    var out := exec(DisabledCommand).stdout;
    var line := "package:" + before + packageName + after;
    var i :| 0 <= i <= |out| && line <= out[i..];
    var j := i + |"package:" + before|;
    assert out[j..j + |packageName|] == line[|"package:" + before|..|"package:" + before| + |packageName|];
    assert packageName <= out[j..];
  }

  // ---------------------------------------------------------------------
  // The package actions

  /** The six handlers that act on one package. */
  datatype Action = ForceStop | Uninstall | Enable | Disable | ClearData | Launch

  /** The text each action's command starts with, up to the package name. */
  function Prefix(action: Action): string {
    match action
    case ForceStop => "adb shell am force-stop "
    case Uninstall => "adb uninstall "
    case Enable => "adb shell pm enable "
    case Disable => "adb shell pm disable-user "
    case ClearData => "adb shell pm clear "
    case Launch => "adb shell monkey -p "
  }

  /** The text after the package name: `launch-app` asks `monkey` for one
      event. */
  function Suffix(action: Action): string {
    if action == Launch then " 1" else ""
  }

  /** The command a handler runs, by template interpolation: the package
      name goes in verbatim, neither quoted nor checked. */
  function ActionCommand(action: Action, packageName: string): (command: string)
    ensures |command| == |Prefix(action)| + |packageName| + |Suffix(action)|
    ensures command[..|Prefix(action)|] == Prefix(action)
    ensures command[|Prefix(action)|..|command| - |Suffix(action)|] == packageName
    ensures command[|command| - |Suffix(action)|..] == Suffix(action)
  {
    var command := Prefix(action) + packageName + Suffix(action);
    assert command[|Prefix(action)|..|command| - |Suffix(action)|] == packageName;
    command
  }

  /** The handler of an action: a failed command reports its error message
      unchanged; `uninstall-app` passes on the output of `adb uninstall`,
      and the other actions report bare success. */
  function RunAction(exec: Runner, action: Action, packageName: string): (r: Reply<Option<string>>)
    ensures var outcome := exec(ActionCommand(action, packageName));
      && (outcome.Err? ==> r == Failure(outcome.message))
      && (outcome.Ok? ==> r.Success? && (r.value.Some? <==> action == Uninstall))
      && (outcome.Ok? && action == Uninstall ==> r.value.value == outcome.stdout)
  {
    match exec(ActionCommand(action, packageName))
    case Err(message) => Failure(message)
    case Ok(stdout) => Success(if action == Uninstall then Some(stdout) else None)
  }

  /** Reads the action and the package name back from a command. */
  function ParseActionCommand(command: string): Option<(Action, string)> {
    if StartsWith(command, Prefix(ForceStop)) then Some((ForceStop, command[|Prefix(ForceStop)|..]))
    else if StartsWith(command, Prefix(Uninstall)) then Some((Uninstall, command[|Prefix(Uninstall)|..]))
    else if StartsWith(command, Prefix(Enable)) then Some((Enable, command[|Prefix(Enable)|..]))
    else if StartsWith(command, Prefix(Disable)) then Some((Disable, command[|Prefix(Disable)|..]))
    else if StartsWith(command, Prefix(ClearData)) then Some((ClearData, command[|Prefix(ClearData)|..]))
    else if StartsWith(command, Prefix(Launch)) && |command| >= |Prefix(Launch)| + 2
            && command[|command| - 2..] == Suffix(Launch) then
      Some((Launch, command[|Prefix(Launch)|..|command| - 2]))
    else None
  }

  /** The command of every action and name determines both: the prefixes
      differ within their common length, so no other action's prefix can
      start the command. */
  lemma ParseActionCommandInverts(action: Action, packageName: string)
    ensures ParseActionCommand(ActionCommand(action, packageName)) == Some((action, packageName))
  {
    var command, p := ActionCommand(action, packageName), Prefix(action);
    assert command[..|p|] == p;
    PrefixesDiffer(action, command);
    if action == Launch {
      assert command[|command| - 2..] == Suffix(Launch);
    } else {
      assert command[|p|..] == command[|p|..|command| - |Suffix(action)|];
    }
  }

  /** Whenever a command starts with the prefix of `action`, it starts with
      the prefix of no other action. */
  lemma PrefixesDiffer(action: Action, command: string)
    requires Prefix(action) <= command
    ensures forall other: Action :: other != action ==> !(Prefix(other) <= command)
  {
    assert command[..|Prefix(action)|] == Prefix(action);
    forall other: Action | other != action ensures !(Prefix(other) <= command) {
      var k := if action == Uninstall || other == Uninstall then 4
               else if action == Enable || action == Disable || action == ClearData then
                 (if other == Enable || other == Disable || other == ClearData then 13 else 10)
               else 10;
      assert k < |Prefix(action)| && k < |Prefix(other)|;
      assert Prefix(action)[k] != Prefix(other)[k];
      assert command[k] == Prefix(action)[k];
    }
  }

  /** Different actions or different names give different commands. */
  lemma ActionCommandInjective(a1: Action, n1: string, a2: Action, n2: string)
    requires ActionCommand(a1, n1) == ActionCommand(a2, n2)
    ensures a1 == a2 && n1 == n2
  {
    ParseActionCommandInverts(a1, n1);
    ParseActionCommandInverts(a2, n2);
  }
}
