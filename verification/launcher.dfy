/** Launch argument construction, executable choice and endpoint discovery
    (src/launcher.rs). Process spawning, the temporary directory root, the
    random profile suffix and the diagnostic line stream are inputs. */
module Launcher {
  import opened Common

  /** Rust's `u32` and `i32`, the widths of the numeric launch options. */
  type U32 = x: int | 0 <= x < 0x1_0000_0000
  type I32 = x: int | -0x8000_0000 <= x < 0x8000_0000

  /** The fixed hardening and automation flags every launch starts from. */
  const DefaultArgs: seq<string> := [
    "--disable-background-networking",
    "--disable-background-timer-throttling",
    "--disable-backgrounding-occluded-windows",
    "--disable-breakpad",
    "--disable-client-side-phishing-detection",
    "--disable-default-apps",
    "--disable-dev-shm-usage",
    "--disable-extensions",
    "--disable-features=site-per-process",
    "--disable-hang-monitor",
    "--disable-ipc-flooding-protection",
    "--disable-popup-blocking",
    "--disable-prompt-on-repost",
    "--disable-renderer-backgrounding",
    "--disable-sync",
    "--disable-translate",
    "--metrics-recording-only",
    "--no-first-run",
    "--safebrowsing-disable-auto-update",
    "--enable-automation",
    "--password-store=basic",
    "--use-mock-keychain"
  ]

  datatype Viewport = Viewport(
    width: I32, height: I32, deviceScaleFactor: I32,
    isMobile: bool, hasTouch: bool, isLandscape: bool)

  datatype LaunchOptions = LaunchOptions(
    ignoreHttpsErrors: bool,
    headless: bool,
    executablePath: Option<string>,
    slowMo: U32,
    defaultViewport: Option<Viewport>,
    args: seq<string>,
    ignoreDefaultArgs: bool,
    timeout: U32,
    dumpio: bool,
    userDataDir: Option<string>,
    env: map<string, string>,
    devtools: bool,
    pipe: bool)

  /** `LaunchOptions::new()`. */
  function DefaultOptions(): LaunchOptions {
    LaunchOptions(
      ignoreHttpsErrors := false,
      headless := true,
      executablePath := None,
      slowMo := 0,
      defaultViewport := None,
      args := [],
      ignoreDefaultArgs := false,
      timeout := 30000,
      dumpio := false,
      userDataDir := None,
      env := map[],
      devtools := false,
      pipe := false)
  }

  /** `has(needle, haystack)`: some argument begins with `needle`. */
  function Has(needle: string, haystack: seq<string>): (b: bool)
    ensures b <==> exists i :: 0 <= i < |haystack| && StartsWith(haystack[i], needle)
  {
    if |haystack| == 0 then false
    else if StartsWith(haystack[0], needle) then true
    else
      var b := Has(needle, haystack[1..]);
      assert forall i :: 1 <= i < |haystack| ==> haystack[i] == haystack[1..][i - 1];
      b
  }

  /** `Launcher::initial_arguments()`: a copy of the default flags. */
  method InitialArguments() returns (args: seq<string>)
    ensures args == DefaultArgs
  {
    args := [];
    var i := 0;
    while i < |DefaultArgs|
      invariant 0 <= i <= |DefaultArgs|
      invariant args == DefaultArgs[..i]
    {
      args := args + [DefaultArgs[i]];
      i := i + 1;
    }
  }

  const DebugPrefix: string := "--remote-debugging"
  const UserDataDirPrefix: string := "--user-data-dir"

  /** The flag that opens the debugging channel. */
  function DebugArgument(pipe: bool): string {
    if pipe then "--remote-debugging-pipe" else "--remote-debugging-port=0"
  }

  /** `PathBuf::push` of a relative component: a separator is inserted
      unless the base is empty or already ends with one. */
  function JoinPath(base: string, name: string): (r: string)
    ensures StartsWith(r, base)
    ensures |r| >= |base| + |name| && r[|r| - |name|..] == name
  {
    if |base| == 0 || base[|base| - 1] == '/' then base + name else base + ['/'] + name
  }

  /** The profile directory created when no `--user-data-dir` flag is
      present: `puppeteer_dev_profile-<suffix>` under the temporary root. */
  function ProfileDir(tempRoot: string, suffix: string): string {
    JoinPath(tempRoot, "puppeteer_dev_profile-" + suffix)
  }

  /** The argument-building part of `launch`: a debugging flag, then a
      user-data-dir flag, each only when no argument already has its prefix. */
  function AddLaunchFlags(args: seq<string>, pipe: bool, userDataDir: string): seq<string> {
    var withDebug := WithDebugFlag(args, pipe);
    if AddsProfileFlag(args, pipe) then withDebug + ["--user-data-dir=" + userDataDir] else withDebug
  }

  /** The first half of the flag construction: the debugging flag. */
  function WithDebugFlag(args: seq<string>, pipe: bool): seq<string> {
    if !Has(DebugPrefix, args) then args + [DebugArgument(pipe)] else args
  }

  /** Whether the second half adds a user-data-dir flag, in which case the
      launch also creates the profile directory. */
  predicate AddsProfileFlag(args: seq<string>, pipe: bool) {
    !Has(UserDataDirPrefix, WithDebugFlag(args, pipe))
  }

  /** Whether an argument list has a prefix is decided argument by argument. */
  lemma HasConcat(needle: string, a: seq<string>, b: seq<string>)
    ensures Has(needle, a + b) <==> Has(needle, a) || Has(needle, b)
  {
    var ab := a + b;
    if Has(needle, a) {
      var i :| 0 <= i < |a| && StartsWith(a[i], needle);
      assert ab[i] == a[i];
    }
    if Has(needle, b) {
      var i :| 0 <= i < |b| && StartsWith(b[i], needle);
      assert ab[|a| + i] == b[i];
    }
    if Has(needle, ab) {
      var i :| 0 <= i < |ab| && StartsWith(ab[i], needle);
      if i < |a| { assert ab[i] == a[i]; } else { assert ab[i] == b[i - |a|]; }
    }
  }

  lemma HasSingleton(needle: string, arg: string)
    ensures Has(needle, [arg]) <==> StartsWith(arg, needle)
  {
  }

  lemma DebugArgumentPrefixes(pipe: bool)
    ensures StartsWith(DebugArgument(pipe), DebugPrefix)
    ensures !StartsWith(DebugArgument(pipe), UserDataDirPrefix)
  {
    assert DebugArgument(pipe)[2] == 'r' != UserDataDirPrefix[2];
  }

  lemma UserDataDirFlagPrefixes(dir: string)
    ensures StartsWith("--user-data-dir=" + dir, UserDataDirPrefix)
  {
    assert ("--user-data-dir=" + dir)[..|UserDataDirPrefix|] == UserDataDirPrefix;
  }

  /** The flags are added by prefix, not by equality: the input is kept as a
      prefix, a debugging flag is appended exactly when no input argument
      starts with `--remote-debugging`, and a user-data-dir flag (after it)
      exactly when none starts with `--user-data-dir`; afterwards both
      prefixes are present. */
  lemma AddLaunchFlagsSpec(args: seq<string>, pipe: bool, dir: string)
    ensures var r := AddLaunchFlags(args, pipe, dir);
      var debug := if Has(DebugPrefix, args) then [] else [DebugArgument(pipe)];
      var data := if Has(UserDataDirPrefix, args) then [] else ["--user-data-dir=" + dir];
      && r == args + debug + data
      && Has(DebugPrefix, r)
      && Has(UserDataDirPrefix, r)
  {
    DebugArgumentPrefixes(pipe);
    UserDataDirFlagPrefixes(dir);
    var debug := if Has(DebugPrefix, args) then [] else [DebugArgument(pipe)];
    var data := if Has(UserDataDirPrefix, args) then [] else ["--user-data-dir=" + dir];
    HasSingleton(DebugPrefix, DebugArgument(pipe));
    HasSingleton(UserDataDirPrefix, DebugArgument(pipe));
    HasSingleton(DebugPrefix, "--user-data-dir=" + dir);
    HasSingleton(UserDataDirPrefix, "--user-data-dir=" + dir);
    HasConcat(UserDataDirPrefix, args, debug);
    HasConcat(DebugPrefix, args, debug);
    HasConcat(DebugPrefix, args + debug, data);
    HasConcat(UserDataDirPrefix, args + debug, data);
  }

  /** None of the default flags carries either prefix, so both flags are
      always added when a launch starts from the defaults. */
  lemma DefaultArgsCarryNeitherFlag()
    ensures !Has(DebugPrefix, DefaultArgs)
    ensures !Has(UserDataDirPrefix, DefaultArgs)
  {
    forall i | 0 <= i < |DefaultArgs|
      ensures !StartsWith(DefaultArgs[i], DebugPrefix)
      ensures !StartsWith(DefaultArgs[i], UserDataDirPrefix)
    {
      NotPrefixAt(DefaultArgs[i], DebugPrefix, 2);
      if DefaultArgs[i][2] == 'u' {
        NotPrefixAt(DefaultArgs[i], UserDataDirPrefix, 5);
      } else {
        NotPrefixAt(DefaultArgs[i], UserDataDirPrefix, 2);
      }
    }
  }

  lemma NotPrefixAt(a: string, p: string, k: nat)
    requires k < |a| && k < |p| && a[k] != p[k]
    ensures !StartsWith(a, p)
  {
  }

  /** The argument list of a launch: the default flags, then the debugging
      flag chosen by `pipe`, then the user-data-dir flag naming the profile. */
  function LaunchArguments(pipe: bool, profile: string): seq<string> {
    AddLaunchFlags(DefaultArgs, pipe, profile)
  }

  lemma LaunchArgumentsSpec(pipe: bool, profile: string)
    ensures LaunchArguments(pipe, profile)
      == DefaultArgs + [DebugArgument(pipe), "--user-data-dir=" + profile]
    ensures AddsProfileFlag(DefaultArgs, pipe)
  {
    DefaultArgsCarryNeitherFlag();
    FlagsAddedToCleanArguments(DefaultArgs, pipe, profile);
  }

  /** Arguments carrying neither prefix get both flags, in order. */
  lemma FlagsAddedToCleanArguments(args: seq<string>, pipe: bool, dir: string)
    requires !Has(DebugPrefix, args) && !Has(UserDataDirPrefix, args)
    ensures AddLaunchFlags(args, pipe, dir) == args + [DebugArgument(pipe), "--user-data-dir=" + dir]
    ensures AddsProfileFlag(args, pipe)
  {
    AddLaunchFlagsSpec(args, pipe, dir);
  }

  /** The part of the host a launch observes: the temporary directory, the
      random profile suffix, whether the profile directory could be created,
      the build output directory, whether the bundled browser directory
      exists there, whether the process spawns, and its diagnostic lines. */
  datatype Host = Host(
    tempDir: string,
    profileSuffix: string,
    profileDirCreated: bool,
    outDir: Option<string>,
    bundlePresent: bool,
    spawnSucceeds: bool,
    stderr: seq<LineRead>)

  /** One item of the line iterator over the diagnostic stream: a decoded
      line (without its terminator) or a line that could not be read. */
  datatype LineRead = Line(text: string) | Unreadable

  /** The failure points of `launch`, each of which aborts it. */
  datatype LaunchError =
    | ProfileDirNotCreated
    | OutDirUnset
    | ChromiumNotDownloaded
    | SpawnFailed
    | NoEndpoint

  /** `resolve_executable_path`: `<OUT_DIR>/chrome/chrome`, provided the
      build output directory is known and its `chrome` directory exists. */
  function ResolveExecutablePath(outDir: Option<string>, bundlePresent: bool): (r: Result<string, LaunchError>)
    ensures r.Ok? <==> outDir.Some? && bundlePresent
    ensures outDir.None? ==> r == Err(OutDirUnset)
    ensures outDir.Some? && !bundlePresent ==> r == Err(ChromiumNotDownloaded)
    ensures r.Ok? ==>
      StartsWith(r.value, outDir.value) && |r.value| >= |outDir.value| + 13 && r.value[|r.value| - 13..] == "chrome/chrome"
  {
    match outDir
    case None => Err(OutDirUnset)
    case Some(dir) =>
      if !bundlePresent then Err(ChromiumNotDownloaded)
      else
        var bundle := JoinPath(dir, "chrome");
        var exe := JoinPath(bundle, "chrome");
        BundledExecutableShape(dir, "chrome");
        Ok(exe)
  }

  /** Joining a name twice onto a directory ends in `<name>/<name>`. */
  lemma BundledExecutableShape(dir: string, name: string)
    requires |name| > 0 && name[|name| - 1] != '/'
    ensures var exe := JoinPath(JoinPath(dir, name), name);
      StartsWith(exe, dir) && |exe| >= |dir| + 2 * |name| + 1
      && exe[|exe| - (2 * |name| + 1)..] == name + "/" + name
  {
    var bundle := JoinPath(dir, name);
    var y := bundle[..|bundle| - |name|];
    assert bundle == y + name;
    var exe := JoinPath(bundle, name);
    assert exe == y + (name + "/" + name);
    assert exe[..|dir|] == bundle[..|dir|];
  }

  /** The executable a launch runs: the configured path when one is set
      (the bundle is then never consulted), the bundled browser otherwise. */
  function Executable(options: LaunchOptions, host: Host): (r: Result<string, LaunchError>)
    ensures r.Ok? <==> options.executablePath.Some? || (host.outDir.Some? && host.bundlePresent)
    ensures options.executablePath.Some? ==> r == Ok(options.executablePath.value)
    ensures options.executablePath.None? && r.Ok? ==>
      StartsWith(r.value, host.outDir.value) && |r.value| >= |host.outDir.value| + 13
      && r.value[|r.value| - 13..] == "chrome/chrome"
    ensures r.Err? ==> options.executablePath.None? && r.error == (if host.outDir.None? then OutDirUnset else ChromiumNotDownloaded)
  {
    match options.executablePath
    case Some(path) => Ok(path)
    case None => ResolveExecutablePath(host.outDir, host.bundlePresent)
  }

  /** The text after which the endpoint URL follows on the announcing line. */
  const ListeningPrefix: string := "DevTools listening on "

  /** The line matches `^DevTools listening on (ws://.*)$`: `.` matches
      anything but a line feed and `$` anchors at the end of the line. */
  predicate Announces(line: LineRead) {
    line.Line? && StartsWith(line.text, ListeningPrefix + "ws://") && '\n' !in line.text
  }

  /** `wait_for_ws_endpoint`: the URL on the first announcing line;
      unreadable and other lines are skipped; no such line is an error. */
  function WaitForWsEndpoint(lines: seq<LineRead>): (r: Result<string, LaunchError>)
    ensures r.Ok? <==> exists i :: 0 <= i < |lines| && Announces(lines[i])
    ensures r.Err? ==> r.error == NoEndpoint
    ensures r.Ok? ==> StartsWith(r.value, "ws://")
    ensures r.Ok? ==>
      exists i :: 0 <= i < |lines| && Announces(lines[i]) && lines[i].text == ListeningPrefix + r.value
        && forall j :: 0 <= j < i ==> !Announces(lines[j])
  {
    if |lines| == 0 then Err(NoEndpoint)
    else if Announces(lines[0]) then
      var url := lines[0].text[|ListeningPrefix|..];
      assert lines[0].text == ListeningPrefix + url;
      assert url[..5] == (ListeningPrefix + "ws://")[|ListeningPrefix|..];
      Ok(url)
    else
      var r := WaitForWsEndpoint(lines[1..]);
      assert forall i :: 1 <= i < |lines| ==> lines[i] == lines[1..][i - 1];
      if r.Ok? then
        var k :| 0 <= k < |lines[1..]| && Announces(lines[1..][k])
          && lines[1..][k].text == ListeningPrefix + r.value
          && forall j :: 0 <= j < k ==> !Announces(lines[1..][j]);
        assert forall j :: 0 <= j < k + 1 ==> !Announces(lines[j]) by {
          forall j | 0 <= j < k + 1 ensures !Announces(lines[j]) {
            if j > 0 { assert lines[j] == lines[1..][j - 1]; }
          }
        }
        r
      else
        r
  }

  /** A successful launch: the process runs `executable` with `args` and the
      caller's environment, and announced `endpoint`. */
  datatype Launched = Launched(executable: string, args: seq<string>, env: map<string, string>, endpoint: string)

  /** `Launcher::launch` up to the connection: build the arguments, create
      the profile directory when its flag was added, choose the executable,
      spawn, and wait for the endpoint, aborting at the first failure. */
  function Launch(options: LaunchOptions, host: Host): Result<Launched, LaunchError> {
    var profile := ProfileDir(host.tempDir, host.profileSuffix);
    var args := LaunchArguments(options.pipe, profile);
    if AddsProfileFlag(DefaultArgs, options.pipe) && !host.profileDirCreated then Err(ProfileDirNotCreated)
    else match Executable(options, host)
      case Err(e) => Err(e)
      case Ok(exe) =>
        if !host.spawnSucceeds then Err(SpawnFailed)
        else match WaitForWsEndpoint(host.stderr)
          case Err(e) => Err(e)
          case Ok(url) => Ok(Launched(exe, args, options.env, url))
  }

  /** What a launch yields: it succeeds exactly when the profile directory
      is created, an executable is found, the process spawns and announces
      an endpoint; the failures are reported in that order; a success runs
      the default flags plus the debugging and profile flags with the
      caller's environment. */
  lemma LaunchOutcome(options: LaunchOptions, host: Host)
    ensures var r := Launch(options, host);
      var exe := Executable(options, host);
      var url := WaitForWsEndpoint(host.stderr);
      && (r.Ok? <==> host.profileDirCreated && exe.Ok? && host.spawnSucceeds && url.Ok?)
      && (!host.profileDirCreated ==> r == Err(ProfileDirNotCreated))
      && (host.profileDirCreated && exe.Err? ==> r == Err(exe.error))
      && (host.profileDirCreated && exe.Ok? && !host.spawnSucceeds ==> r == Err(SpawnFailed))
      && (host.profileDirCreated && exe.Ok? && host.spawnSucceeds && url.Err? ==> r == Err(NoEndpoint))
      && (r.Ok? ==> r.value == Launched(exe.value,
            DefaultArgs + [DebugArgument(options.pipe), "--user-data-dir=" + ProfileDir(host.tempDir, host.profileSuffix)],
            options.env, url.value))
  {
    LaunchArgumentsSpec(options.pipe, ProfileDir(host.tempDir, host.profileSuffix));
  }

  /** The caller's extra arguments, user data directory, headless flag and
      the other unused options never reach the launched process. */
  lemma LaunchIgnoresUnusedOptions(options: LaunchOptions, host: Host, args: seq<string>,
                                   userDataDir: Option<string>, headless: bool, devtools: bool,
                                   ignoreDefaultArgs: bool, timeout: U32)
    ensures Launch(options.(args := args, userDataDir := userDataDir, headless := headless,
                            devtools := devtools, ignoreDefaultArgs := ignoreDefaultArgs,
                            timeout := timeout), host)
         == Launch(options, host)
  {
  }

  /** With the default options the browser gets a debugging port, runs the
      bundled executable and inherits no extra environment. */
  lemma DefaultOptionsLaunch(host: Host)
    ensures var r := Launch(DefaultOptions(), host);
      r.Ok? ==>
        && r.value.args == DefaultArgs + ["--remote-debugging-port=0",
             "--user-data-dir=" + ProfileDir(host.tempDir, host.profileSuffix)]
        && r.value.env == map[]
        && Ok(r.value.executable) == ResolveExecutablePath(host.outDir, host.bundlePresent)
  {
    var options := DefaultOptions();
    LaunchOutcome(options, host);
  }

  /** An announcing line after noise and an unreadable line yields the URL
      after `DevTools listening on `; a stream without one is an error. */
  lemma EndpointExample(address: string, url: string)
    requires address == "127.0.0.1:9222/devtools/browser/abc" && url == "ws://" + address
    ensures WaitForWsEndpoint([Line("[0101/000000.000:ERROR] sandbox"), Unreadable,
                               Line(ListeningPrefix + url)]) == Ok(url)
    ensures WaitForWsEndpoint([Line("[0101/000000.000:ERROR] sandbox"), Unreadable]) == Err(NoEndpoint)
  {
    var noise := Line("[0101/000000.000:ERROR] sandbox");
    var last := Line(ListeningPrefix + url);
    NoiseIsSilent(noise.text);
    AnnouncementFound(address, url);
    SkipsLine(noise, [Unreadable, last]);
    SkipsLine(Unreadable, [last]);
    SkipsLine(noise, [Unreadable]);
    SkipsLine(Unreadable, []);
  }

  lemma NoiseIsSilent(text: string)
    requires text == "[0101/000000.000:ERROR] sandbox"
    ensures !Announces(Line(text))
  {
    NotPrefixAt(text, ListeningPrefix + "ws://", 0);
  }

  lemma AnnouncementFound(address: string, url: string)
    requires '\n' !in address && url == "ws://" + address
    ensures WaitForWsEndpoint([Line(ListeningPrefix + url)]) == Ok(url)
  {
    var text := ListeningPrefix + url;
    assert StartsWith(url, "ws://") by {
      assert url[..5] == "ws://";
    }
    assert '\n' !in url by {
      assert forall i :: 5 <= i < |url| ==> url[i] == address[i - 5];
    }
    PrefixedAnnouncement(ListeningPrefix, url);
    assert text[|ListeningPrefix|..] == url;
  }

  /** The announcing prefix followed by a `ws://` URL on one line announces. */
  lemma PrefixedAnnouncement(prefix: string, url: string)
    requires prefix == ListeningPrefix
    requires StartsWith(url, "ws://") && '\n' !in url
    ensures Announces(Line(prefix + url))
  {
    var text := prefix + url;
    assert text[..|prefix| + 5] == prefix + url[..5];
    assert '\n' !in prefix;
    assert forall i :: |prefix| <= i < |text| ==> text[i] == url[i - |prefix|];
  }

  /** A line that does not announce the endpoint is passed over. */
  lemma SkipsLine(line: LineRead, rest: seq<LineRead>)
    requires !Announces(line)
    ensures WaitForWsEndpoint([line] + rest) == WaitForWsEndpoint(rest)
  {
    assert ([line] + rest)[1..] == rest;
  }
}
