/** The `list-packages` handler (main.js:50-73): build the `pm list packages`
    command from the filter options, run it, and turn every
    `package:<path>=<name>` line into a package record. */
module PackageList {
  import opened JsText
  import opened AdbExec
  import opened JsArray

  /** The renderer's filter options; a missing option is `false`. */
  datatype ListOptions = ListOptions(thirdParty: bool, system: bool, disabled: bool, enabled: bool)

  /** One installed package as the handler reports it. The field main.js:66
      calls `label` is `shortLabel` here, because `label` is a Dafny keyword. */
  datatype Package = Package(name: string, shortLabel: string, path: string, system: bool)

  const BaseCommand: string := "adb shell pm list packages -f"

  /** The prefix that marks a package record in the listing. */
  const Marker: string := "package:"

  // ---------------------------------------------------------------------
  // The command

  /** ` -<c>` when the option is set, nothing otherwise. */
  function Flag(present: bool, c: char): string {
    if present then [' ', '-', c] else []
  }

  /** The flags of the options that are set, in a fixed order. */
  function Flags(options: ListOptions): string {
    Flag(options.thirdParty, '3') + Flag(options.system, 's')
      + Flag(options.disabled, 'd') + Flag(options.enabled, 'e')
  }

  /** The command `list-packages` runs for the given options. */
  function PackageCommand(options: ListOptions): string {
    BaseCommand + Flags(options)
  }

  /** main.js:52-56: start from the base command and append each selected
      flag in turn. */
  method BuildCommand(options: ListOptions) returns (command: string)
    ensures command == PackageCommand(options)
  {
    command := BaseCommand;
    if options.thirdParty { command := command + " -3"; }
    assert command == BaseCommand + Flag(options.thirdParty, '3');
    if options.system { command := command + " -s"; }
    assert command == BaseCommand + Flag(options.thirdParty, '3') + Flag(options.system, 's');
    if options.disabled { command := command + " -d"; }
    if options.enabled { command := command + " -e"; }
  }

  /** Reads one flag `-<c>` off the front of `t`, if it is there. */
  function StripFlag(t: string, c: char): (bool, string) {
    if |t| >= 3 && t[..3] == [' ', '-', c] then (true, t[3..]) else (false, t)
  }

  /** Reads the options back from the flags that follow the base command:
      ` -3`, ` -s`, ` -d`, ` -e`, each at most once and in that order, and
      nothing else. */
  function DecodeFlags(t: string): Option<ListOptions> {
    var (thirdParty, t1) := StripFlag(t, '3');
    var (system, t2) := StripFlag(t1, 's');
    var (disabled, t3) := StripFlag(t2, 'd');
    var (enabled, t4) := StripFlag(t3, 'e');
    if t4 == [] then Some(ListOptions(thirdParty, system, disabled, enabled)) else None
  }

  lemma StripFlagOf(present: bool, c: char, rest: string)
    requires c !in rest
    ensures StripFlag(Flag(present, c) + rest, c) == (present, rest)
  {
    if present {
      assert (Flag(present, c) + rest)[3..] == rest;
    } else {
      assert Flag(present, c) + rest == rest;
      if |rest| >= 3 { assert rest[2] in rest; }
    }
  }

  /** The command is the base command followed by exactly the flags of the
      options that are set, in the fixed order, so the options can be read
      back from it. */
  lemma {:induction false} PackageCommandDecodes(options: ListOptions)
    ensures BaseCommand <= PackageCommand(options)
    ensures DecodeFlags(PackageCommand(options)[|BaseCommand|..]) == Some(options)
  {
    var f3, fs := Flag(options.thirdParty, '3'), Flag(options.system, 's');
    var fd, fe := Flag(options.disabled, 'd'), Flag(options.enabled, 'e');
    assert PackageCommand(options) == BaseCommand + Flags(options);
    assert PackageCommand(options)[|BaseCommand|..] == Flags(options);
    FlagsDecode(options);
  }

  lemma {:induction false} FlagsDecode(options: ListOptions)
    ensures DecodeFlags(Flags(options)) == Some(options)
  {
    var f3, fs := Flag(options.thirdParty, '3'), Flag(options.system, 's');
    var fd, fe := Flag(options.disabled, 'd'), Flag(options.enabled, 'e');
    assert Flags(options) == f3 + (fs + (fd + fe));
    assert '3' !in fs + (fd + fe) && 's' !in fd + fe && 'd' !in fe;
    StripFlagOf(options.thirdParty, '3', fs + (fd + fe));
    StripFlagOf(options.system, 's', fd + fe);
    StripFlagOf(options.disabled, 'd', fe);
    StripFlagOf(options.enabled, 'e', []);
    assert fe + [] == fe;
  }

  /** Different options give different commands. */
  lemma PackageCommandInjective(o1: ListOptions, o2: ListOptions)
    requires PackageCommand(o1) == PackageCommand(o2)
    ensures o1 == o2
  {
    PackageCommandDecodes(o1);
    PackageCommandDecodes(o2);
  }

  // ---------------------------------------------------------------------
  // The regular expression /package:(.+)=(.+)/

  /** The end of the run of characters that `.` matches, from `i` on. */
  function RunEnd(s: string, i: nat): (j: nat)
    requires i <= |s|
    ensures i <= j <= |s|
    ensures forall k :: i <= k < j ==> !IsLineTerminator(s[k])
    ensures j < |s| ==> IsLineTerminator(s[j])
    decreases |s| - i
  {
    if i == |s| || IsLineTerminator(s[i]) then i else RunEnd(s, i + 1)
  }

  /** Where `(.+)=(.+)` can split the run `t`: an `=` with at least one
      character before it and one after it. */
  predicate IsSplitPoint(t: string, k: int) {
    1 <= k && k + 1 < |t| && t[k] == '='
  }

  /** The greedy first group backs off from the end of the run until it
      finds a split point: the last split point below `hi`. */
  function LastSplitBelow(t: string, hi: nat): (r: Option<nat>)
    ensures r.Some? ==> r.value < hi && IsSplitPoint(t, r.value)
    ensures r.Some? ==> forall k :: r.value < k < hi ==> !IsSplitPoint(t, k)
    ensures r.None? ==> forall k :: 0 <= k < hi ==> !IsSplitPoint(t, k)
  {
    if hi == 0 then None
    else if IsSplitPoint(t, hi - 1) then Some(hi - 1)
    else LastSplitBelow(t, hi - 1)
  }

  /** The two groups when the pattern is tried at position `p` of `line`. */
  function MatchAt(line: string, p: nat): Option<(string, string)>
    requires p <= |line|
  {
    if Marker <= line[p..] then
      var start := p + |Marker|;
      var t := line[start..RunEnd(line, start)];
      match LastSplitBelow(t, |t|)
      case Some(k) => Some((t[..k], t[k + 1..]))
      case None => None
    else None
  }

  /** The first position from `p` on at which the pattern matches, or the
      end of the line when there is none. */
  function MatchPos(line: string, p: nat): (q: nat)
    requires p <= |line|
    ensures p <= q <= |line|
    ensures q < |line| ==> MatchAt(line, q).Some?
    ensures forall k :: p <= k < q ==> MatchAt(line, k).None?
    decreases |line| - p
  {
    if MatchAt(line, p).Some? || p == |line| then p else MatchPos(line, p + 1)
  }

  /** `line.match(/package:(.+)=(.+)/)` searching from position `p`: the
      groups of the first position at which the pattern matches. */
  function MatchFrom(line: string, p: nat): Option<(string, string)>
    requires p <= |line|
  {
    MatchAt(line, MatchPos(line, p))
  }

  /** A match at `p` consists of the marker, a non-empty path, `=`, and a
      non-empty name, none of which holds a line terminator; the name runs
      to the end of the line or to a line terminator, and holds no `=`
      except possibly as its last character (the path takes every `=` that
      still leaves a character after it). When there is no match at `p`,
      no `=` of the run after the marker can split it. */
  lemma MatchAtSpec(line: string, p: nat)
    requires p <= |line|
    ensures MatchAt(line, p).Some? ==>
      var (path, name) := MatchAt(line, p).value;
      var start := p + |Marker|;
      var stop := start + |path| + 1 + |name|;
      && Marker <= line[p..]
      && path != [] && name != []
      && stop <= |line|
      && line[start..stop] == path + "=" + name
      && (forall k :: 0 <= k < |path| ==> !IsLineTerminator(path[k]))
      && (forall k :: 0 <= k < |name| ==> !IsLineTerminator(name[k]))
      && (stop == |line| || IsLineTerminator(line[stop]))
      && (forall k :: 0 <= k < |name| - 1 ==> name[k] != '=')
    ensures MatchAt(line, p).None? && Marker <= line[p..] ==>
      var start := p + |Marker|;
      var t := line[start..RunEnd(line, start)];
      forall k :: 0 <= k < |t| ==> !IsSplitPoint(t, k)
  {
    if Marker <= line[p..] {
      var start := p + |Marker|;
      var stop := RunEnd(line, start);
      var t := line[start..stop];
      if LastSplitBelow(t, |t|).Some? {
        var k := LastSplitBelow(t, |t|).value;
        var path, name := t[..k], t[k + 1..];
        assert t == path + "=" + name;
        forall j | 0 <= j < |name| - 1 ensures name[j] != '=' {
          assert !IsSplitPoint(t, k + 1 + j);
        }
      }
    }
  }

  /** The search finds the first position at which the pattern matches,
      and finds nothing only when the pattern matches nowhere. */
  lemma MatchFromSpec(line: string, p: nat)
    requires p <= |line|
    ensures MatchFrom(line, p).None? ==> forall q :: p <= q <= |line| ==> MatchAt(line, q).None?
  {
    assert line[|line|..] == [];
  }

  /** The line adb prints for a package is parsed back into its path and
      name, even when the path holds `=`, provided the name holds no `=`
      and neither holds a line terminator. A trailing carriage return does
      not change the result. */
  lemma {:induction false} RecordRoundTrip(path: string, name: string, cr: bool)
    requires path != [] && name != [] && '=' !in name
    requires forall k :: 0 <= k < |path| ==> !IsLineTerminator(path[k])
    requires forall k :: 0 <= k < |name| ==> !IsLineTerminator(name[k])
    ensures MatchFrom(Marker + path + "=" + name + (if cr then "\r" else ""), 0) == Some((path, name))
  {
    var line := Marker + path + "=" + name + (if cr then "\r" else "");
    var start := |Marker|;
    var t := path + "=" + name;
    assert line[..start] == Marker && line[0..] == line;
    assert line[start..start + |t|] == t;
    var stop := RunEnd(line, start);
    forall j | 0 <= j < |t| ensures !IsLineTerminator(t[j]) {
      if j < |path| {
        assert t[j] == path[j];
      } else if j > |path| {
        assert t[j] == name[j - |path| - 1];
      }
    }
    assert forall k :: start <= k < start + |t| ==> line[k] == t[k - start];
    if cr {
      assert line[start + |t|] == '\r';
    }
    assert stop == start + |t|;
    assert line[start..stop] == t;
    assert IsSplitPoint(t, |path|);
    forall j | |path| < j < |t| ensures !IsSplitPoint(t, j) {
      assert t[j] == name[j - |path| - 1];
    }
    assert LastSplitBelow(t, |t|) == Some(|path|);
    assert t[..|path|] == path && t[|path| + 1..] == name;
  }

  // ---------------------------------------------------------------------
  // The record built from a match

  /** `packageName.split('.').pop()`: the text after the last `.` of the
      name, or the whole name when it has no `.`. */
  function LastSegment(name: string): (r: string)
    ensures |r| <= |name| && r == name[|name| - |r|..] && '.' !in r
    ensures |r| < |name| ==> name[|name| - |r| - 1] == '.'
  {
    var parts := Split(name, '.');
    SplitLast(name, '.');
    parts[|parts| - 1]
  }

  /** `apkPath.includes('/system/') || ... ('/vendor/') || ... ('/product/')`. */
  predicate IsSystemPath(path: string) {
    Contains(path, "/system/") || Contains(path, "/vendor/") || Contains(path, "/product/")
  }

  /** The record main.js:64-66 pushes for a match. */
  function PackageOf(path: string, name: string): Package {
    Package(Trim(name), Trim(LastSegment(name)), Trim(path), IsSystemPath(path))
  }

  /** The label is the trimmed text after the last `.` of the name, or the
      whole trimmed name when it has no `.`; the flag `system` holds exactly
      when the untrimmed path holds one of the three directory markers. */
  lemma PackageOfSpec(path: string, name: string)
    ensures var p, seg := PackageOf(path, name), LastSegment(name);
      && p.shortLabel == Trim(seg)
      && ('.' !in name ==> p.shortLabel == Trim(name))
      && (p.system <==> exists i :: 0 <= i <= |path| &&
                          ("/system/" <= path[i..] || "/vendor/" <= path[i..] || "/product/" <= path[i..]))
  {
    SplitLast(name, '.');
    SplitPieces(name, '.');
  }

  // ---------------------------------------------------------------------
  // The listing

  predicate IsPackageLine(line: string) {
    StartsWith(line, Marker)
  }

  /** `stdout.split('\n').filter(line => line.startsWith('package:'))`. */
  function PackageLines(stdout: string): (r: seq<string>)
    ensures forall line <- r :: StartsWith(line, Marker) && line in Split(stdout, '\n')
  {
    Filter(IsPackageLine, Split(stdout, '\n'))
  }

  /** What one line contributes: a record when the pattern matches, and
      nothing otherwise. */
  function PackagesOfLine(line: string): seq<Package> {
    match MatchFrom(line, 0)
    case Some((path, name)) => [PackageOf(path, name)]
    case None => []
  }

  /** The records of the listing `stdout`, line by line. */
  function PackagesOfListing(stdout: string): seq<Package> {
    Collect(PackagesOfLine, PackageLines(stdout))
  }

  /** Records come line by line in the order of the listing: those of two
      chunks of output joined by a newline are the records of the first
      chunk followed by those of the second. */
  lemma ListingConcat(x: string, y: string)
    ensures PackagesOfListing(x + "\n" + y) == PackagesOfListing(x) + PackagesOfListing(y)
  {
    SplitConcat(x, '\n', y);
    FilterConcat(IsPackageLine, Split(x, '\n'), Split(y, '\n'));
    CollectConcat(PackagesOfLine, PackageLines(x), PackageLines(y));
  }

  /** A single line yields at most one record: one exactly when it starts
      with the marker and the pattern matches it. */
  lemma ListingOfOneLine(line: string)
    requires '\n' !in line
    ensures PackagesOfListing(line) ==
      if StartsWith(line, Marker) && MatchFrom(line, 0).Some? then
        [PackageOf(MatchFrom(line, 0).value.0, MatchFrom(line, 0).value.1)]
      else []
  {
    SplitWithoutSep(line, '\n');
    FilterOne(IsPackageLine, line);
    CollectOne(PackagesOfLine, line);
    CollectOne(PackagesOfLine, []);
  }

  /** Every record comes from a line of the listing that starts with the
      marker and that the pattern matches. */
  lemma PackageOrigin(stdout: string, p: Package)
    requires p in PackagesOfListing(stdout)
    ensures exists line :: line in Split(stdout, '\n') && StartsWith(line, Marker)
              && MatchFrom(line, 0).Some?
              && p == PackageOf(MatchFrom(line, 0).value.0, MatchFrom(line, 0).value.1)
  {
    CollectOrigin(PackagesOfLine, PackageLines(stdout), p);
    var line :| line in PackageLines(stdout) && p in PackagesOfLine(line);
  }

  /** Conversely, every marked line the pattern matches gives its record. */
  lemma PackageComplete(stdout: string, line: string)
    requires line in Split(stdout, '\n') && StartsWith(line, Marker) && MatchFrom(line, 0).Some?
    ensures PackageOf(MatchFrom(line, 0).value.0, MatchFrom(line, 0).value.1) in PackagesOfListing(stdout)
  {
    FilterComplete(IsPackageLine, Split(stdout, '\n'), line);
    CollectComplete(PackagesOfLine, PackageLines(stdout), line,
                    PackageOf(MatchFrom(line, 0).value.0, MatchFrom(line, 0).value.1));
  }

  // ---------------------------------------------------------------------
  // The handler

  /** main.js:58-68: keep the marked lines and push one record per line the
      pattern matches. */
  method ParsePackages(stdout: string) returns (packages: seq<Package>)
    ensures packages == PackagesOfListing(stdout)
  {
    packages := [];
    var lines := PackageLines(stdout);
    for i := 0 to |lines|
      invariant packages == Collect(PackagesOfLine, lines[..i])
    {
      ghost var old_packages := packages;
      var m := MatchFrom(lines[i], 0);
      if m.Some? {
        var (apkPath, packageName) := m.value;
        var segment := LastSegment(packageName);
        var isSystem := IsSystemPath(apkPath);
        packages := packages + [Package(Trim(packageName), Trim(segment), Trim(apkPath), isSystem)];
      }
      assert packages == old_packages + PackagesOfLine(lines[i]);
      CollectSnoc(PackagesOfLine, lines, i);
    }
    assert lines[..|lines|] == lines;
  }

  /** The `list-packages` handler: it runs the command of the options; a
      failed command reports its error message unchanged, and a listing
      gives its records. */
  method ListPackages(exec: Runner, options: ListOptions) returns (r: Reply<seq<Package>>)
    ensures exec(PackageCommand(options)).Err? ==> r == Failure(exec(PackageCommand(options)).message)
    ensures exec(PackageCommand(options)).Ok? ==>
              r == Success(PackagesOfListing(exec(PackageCommand(options)).stdout))
  {
    var command := BuildCommand(options);
    match exec(command)
    case Err(message) =>
      r := Failure(message);
    case Ok(stdout) =>
      var packages := ParsePackages(stdout);
      r := Success(packages);
  }

  lemma RecordLineIsOneLine(path: string, name: string)
    requires forall k :: 0 <= k < |path| ==> !IsLineTerminator(path[k])
    requires forall k :: 0 <= k < |name| ==> !IsLineTerminator(name[k])
    ensures '\n' !in Marker + path + "=" + name
  {
    var line := Marker + path + "=" + name;
    forall k | 0 <= k < |line| ensures line[k] != '\n' {
      if k >= |Marker| + |path| + 1 {
        assert line[k] == name[k - |Marker| - |path| - 1];
      } else if |Marker| <= k < |Marker| + |path| {
        assert line[k] == path[k - |Marker|];
      }
    }
  }

  /** The listing of a single package line and its newline holds exactly
      the record of that package. */
  lemma OneRecordListing(path: string, name: string)
    requires path != [] && name != [] && '=' !in name
    requires forall k :: 0 <= k < |path| ==> !IsLineTerminator(path[k])
    requires forall k :: 0 <= k < |name| ==> !IsLineTerminator(name[k])
    ensures PackagesOfListing(Marker + path + "=" + name + "\n") == [PackageOf(path, name)]
  {
    var line := Marker + path + "=" + name;
    RecordRoundTrip(path, name, false);
    assert line + "" == line;
    RecordLineIsOneLine(path, name);
    ListingOfOneLine(line);
    ListingOfOneLine([]);
    ListingConcat(line, []);
    assert line + "\n" + [] == line + "\n";
  }
}
