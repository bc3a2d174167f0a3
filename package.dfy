// `mgu package`: which platforms to publish, the `dotnet publish` commands
// for each, and the macOS bundle built from the publish output.

module Package {
  import opened Base
  import opened Actions
  import Text
  import FileTree
  import Bundle

  /** The platform folders a game solution may have, as `{game}.{suffix}`. */
  const KnownSuffixes: seq<string> := ["DesktopGL", "Android", "iOS"]

  /** What PackageGame learns from its surroundings: the current directory,
      the names of its sub-directories in enumeration order, what the macOS
      publish command writes to standard output, and the folder of the
      running tool. */
  datatype Host = Host(cwd: Path, subdirs: seq<string>, macPublishOutput: string, toolDir: Path)

  /** `new DirectoryInfo(cwd).Name`: the last segment, or "/" for the root. */
  function GameName(cwd: Path): string {
    if |cwd| == 0 then "/" else cwd[|cwd| - 1]
  }

  /** The folder names a game's platform projects have. */
  function ExpectedNames(game: string): (names: seq<string>)
    ensures |names| == |KnownSuffixes|
    ensures forall i :: 0 <= i < |names| ==> names[i] == game + "." + KnownSuffixes[i]
  {
    [game + ".DesktopGL", game + ".Android", game + ".iOS"]
  }

  /** Position of the first occurrence of `x` in `xs`. */
  function FirstIndex(xs: seq<string>, x: string): (i: nat)
    requires x in xs
    ensures i < |xs| && xs[i] == x && x !in xs[..i]
  {
    if xs[0] == x then 0
    else
      var i := FirstIndex(xs[1..], x) + 1;
      assert xs[..i] == [xs[0]] + xs[1..][..i - 1];
      i
  }

  /** Enumerable.Intersect: the distinct elements of `xs` that occur in `ys`,
      in the order of their first occurrence in `xs`. */
  function Intersect(xs: seq<string>, ys: seq<string>): (r: seq<string>)
    ensures forall x :: x in r <==> x in xs && x in ys
    ensures forall i, k :: 0 <= i < k < |r| ==> r[i] != r[k]
  {
    if |xs| == 0 then []
    else
      var init := xs[..|xs| - 1];
      var last := xs[|xs| - 1];
      var r := Intersect(init, ys);
      assert xs == init + [last];
      if last in ys && last !in r then r + [last] else r
  }

  lemma FirstIndexInit(xs: seq<string>, x: string)
    requires |xs| > 0 && x in xs[..|xs| - 1]
    ensures FirstIndex(xs, x) == FirstIndex(xs[..|xs| - 1], x)
  {
    var init := xs[..|xs| - 1];
    var i, k := FirstIndex(xs, x), FirstIndex(init, x);
    assert xs[k] == x;
    assert i <= k;
    assert init[..i] == xs[..i];
  }

  /** The result keeps the enumeration order of `xs`. */
  lemma {:induction false} IntersectOrdered(xs: seq<string>, ys: seq<string>)
    ensures forall i, k :: 0 <= i < k < |Intersect(xs, ys)| ==>
      FirstIndex(xs, Intersect(xs, ys)[i]) < FirstIndex(xs, Intersect(xs, ys)[k])
  {
    if |xs| > 0 {
      var init := xs[..|xs| - 1];
      var last := xs[|xs| - 1];
      var r0 := Intersect(init, ys);
      IntersectOrdered(init, ys);
      assert xs == init + [last];
      var r := Intersect(xs, ys);
      forall i, k | 0 <= i < k < |r| ensures FirstIndex(xs, r[i]) < FirstIndex(xs, r[k]) {
        assert r[i] == r0[i] && r0[i] in init;
        FirstIndexInit(xs, r[i]);
        if k < |r0| {
          assert r[k] == r0[k] && r0[k] in init;
          FirstIndexInit(xs, r[k]);
          assert FirstIndex(init, r0[i]) < FirstIndex(init, r0[k]);
        } else {
          assert r[k] == last && last !in init;
          assert FirstIndex(xs, last) == |xs| - 1;
          assert FirstIndex(init, r0[i]) < |init|;
        }
      }
    }
  }

  /** The platform folders found: sub-directories named `{game}.{suffix}`. */
  function DetectTargets(host: Host): (targets: seq<string>)
  {
    Intersect(host.subdirs, ExpectedNames(GameName(host.cwd)))
  }

  /** Detected targets are exactly the expected folder names present, each once. */
  lemma DetectedTargets(host: Host, t: string)
    ensures t in DetectTargets(host) <==>
      t in host.subdirs && exists i :: 0 <= i < |KnownSuffixes| && t == GameName(host.cwd) + "." + KnownSuffixes[i]
  {
    var names := ExpectedNames(GameName(host.cwd));
    if t in names {
      var i :| 0 <= i < |names| && names[i] == t;
      assert t == GameName(host.cwd) + "." + KnownSuffixes[i];
    }
  }

  /** The flag a detected folder stands for: `"--" + Split(".").Last().ToLower()`. */
  function DefaultFlag(target: string): string {
    "--" + Text.ToLower(Text.LastSegment(target, '.'))
  }

  /** The flags PackageGame uses when none (or `--all`) is given. */
  function DefaultFlags(targets: seq<string>): (flags: seq<string>)
    ensures |flags| == |targets|
    ensures forall i :: 0 <= i < |targets| ==> flags[i] == DefaultFlag(targets[i])
  {
    if |targets| == 0 then [] else [DefaultFlag(targets[0])] + DefaultFlags(targets[1..])
  }

  /** The flag that packages each platform folder. */
  const SuffixFlags: seq<string> := ["--desktopgl", "--android", "--ios"]

  /** Each platform folder `{game}.{suffix}` stands for the flag of its
      suffix, whatever dots the game name holds. */
  lemma DefaultFlagOfFolder(game: string, i: nat)
    requires i < |KnownSuffixes|
    ensures DefaultFlag(game + "." + KnownSuffixes[i]) == SuffixFlags[i]
  {
    var suffix := KnownSuffixes[i];
    assert '.' !in suffix;
    assert game + "." + suffix == game + ['.'] + suffix;
    Text.LastSegmentAfter(game, '.', suffix);
    LowerSuffix(i);
  }

  lemma LowerSuffix(i: nat)
    requires i < |KnownSuffixes|
    ensures "--" + Text.ToLower(KnownSuffixes[i]) == SuffixFlags[i]
  {
    var suffix := KnownSuffixes[i];
    if i == 0 {
      LowerDesktopGL(suffix);
      assert "--" + "desktopgl" == SuffixFlags[0];
    } else if i == 1 {
      LowerAndroid(suffix);
      assert "--" + "android" == SuffixFlags[1];
    } else {
      LowerIOS(suffix);
      assert "--" + "ios" == SuffixFlags[2];
    }
  }

  // The three folder suffixes lower-cased; each follows by evaluation.
  lemma LowerDesktopGL(suffix: string)
    requires suffix == "DesktopGL"
    ensures Text.ToLower(suffix) == "desktopgl"
  {
  }

  lemma LowerAndroid(suffix: string)
    requires suffix == "Android"
    ensures Text.ToLower(suffix) == "android"
  {
  }

  lemma LowerIOS(suffix: string)
    requires suffix == "iOS"
    ensures Text.ToLower(suffix) == "ios"
  {
  }

  /** A detected folder always stands for a known flag. */
  lemma DefaultFlagsKnown(host: Host, k: nat)
    requires k < |DetectTargets(host)|
    ensures DefaultFlags(DetectTargets(host))[k] in SuffixFlags
    ensures var t := TargetOf(DefaultFlags(DetectTargets(host))[k]);
      t == DesktopGL || t == Android || t == IOS
  {
    var t := DetectTargets(host)[k];
    DetectedTargets(host, t);
    var i :| 0 <= i < |KnownSuffixes| && t == GameName(host.cwd) + "." + KnownSuffixes[i];
    DefaultFlagOfFolder(GameName(host.cwd), i);
    var flag := SuffixFlags[i];
    assert i == 0 ==> TargetOf(flag) == DesktopGL;
    assert i == 1 ==> TargetOf(flag) == Android;
    assert i == 2 ==> TargetOf(flag) == IOS;
  }

  /** The arguments of every `dotnet publish` the tool issues. */
  function PublishArguments(runtime: string): string {
    "publish -c Release -r " + runtime + " /p:PublishReadyToRun=false /p:TieredCompilation=false --self-contained"
  }

  /** `dotnet publish` for one runtime, run in the DesktopGL project folder. */
  function Publish(game: string, runtime: string): (cmd: Command)
    ensures cmd.program == "dotnet" && cmd.workDir == [game + ".DesktopGL"]
    ensures cmd.arguments == PublishArguments(runtime)
  {
    Dotnet([game + ".DesktopGL"], PublishArguments(runtime))
  }

  /** The publish folder named in the publish output: the text from its last
      space on, trimmed. Output without a space makes `Substring(-1)` throw,
      which is None here. */
  function PublishPath(output: string): (path: Option<string>)
    ensures path.None? <==> ' ' !in output
    ensures path.Some? ==> ' ' !in path.value
    ensures path.Some? ==> forall c :: c in path.value ==> c in output
  {
    var k := Text.LastIndexOf(output, ' ');
    if k < 0 then None
    else
      var tail := output[k..];
      Text.TrimSkipsSpace(tail);
      Text.TrimChars(tail[1..]);
      assert tail[1..] == output[k + 1..];
      Some(Text.Trim(tail))
  }

  /** The text after the last space, trimmed, is the publish path. */
  lemma PublishPathAfterSpace(prefix: string, tail: string)
    requires ' ' !in tail
    ensures PublishPath(prefix + [' '] + tail) == Some(Text.Trim(tail))
  {
    var out := prefix + [' '] + tail;
    Text.LastSegmentAfter(prefix, ' ', tail);
    var k := Text.LastIndexOf(out, ' ');
    assert k == |prefix|;
    assert out[k..] == [' '] + tail;
    Text.TrimSkipsSpace([' '] + tail);
    assert ([' '] + tail)[1..] == tail;
  }

  /** A publish output whose last space is followed by the path and then
      only line breaks or other white space yields that path, for a path
      without spaces or surrounding white space. */
  lemma PublishPathOfLine(prefix: string, path: string, ws: string)
    requires ' ' !in path
    requires |path| > 0 ==> !Text.IsSpace(path[0]) && !Text.IsSpace(path[|path| - 1])
    requires forall i :: 0 <= i < |ws| ==> Text.IsSpace(ws[i]) && ws[i] != ' '
    ensures PublishPath(prefix + " " + path + ws) == Some(path)
  {
    var tail := path + ws;
    assert ' ' !in tail by {
      forall i | 0 <= i < |tail| ensures tail[i] != ' ' {
        if i >= |path| {
          assert tail[i] == ws[i - |path|];
        } else {
          assert tail[i] == path[i];
        }
      }
    }
    assert prefix + " " + path + ws == prefix + [' '] + tail;
    PublishPathAfterSpace(prefix, tail);
    Text.TrimTrailing(path, ws);
  }

  /** PackageWindows. */
  function WindowsSteps(game: string): (plan: seq<Step>)
    ensures Commands(plan) == [Publish(game, "win-x64")]
    ensures forall i :: 0 <= i < |plan| ==> !Terminal(plan[i])
  {
    [Print("Package win"), Run(Publish(game, "win-x64"))]
  }

  /** PackageLinux. */
  function LinuxSteps(game: string): (plan: seq<Step>)
    ensures Commands(plan) == [Publish(game, "linux-x64")]
    ensures forall i :: 0 <= i < |plan| ==> !Terminal(plan[i])
  {
    [Print("Package Linux"), Run(Publish(game, "linux-x64"))]
  }

  /** The bundle job for a publish folder named in the output. */
  function MacJob(host: Host, game: string, path: string): Bundle.Job {
    Bundle.Job(Text.ParsePath(path), game, host.cwd + [game + ".DesktopGL"], host.toolDir)
  }

  /** PackageMac: publish for macOS, then build the bundle in the publish
      folder the output names, or fail when it names none. */
  function MacSteps(host: Host, game: string): (plan: seq<Step>)
    ensures Commands(plan) == [Publish(game, "osx-x64")]
    ensures StopsAtEnd(plan)
    ensures Terminal(plan[|plan| - 1]) <==> ' ' !in host.macPublishOutput
  {
    var head := [Print("Package mac"), Run(Publish(game, "osx-x64"))];
    var tail :=
      match PublishPath(host.macPublishOutput)
      case None => [Crash("ArgumentOutOfRangeException")]
      case Some(path) => Bundle.BundleSteps(MacJob(host, game, path));
    CommandsAppend(head, tail);
    CommandsNone(tail);
    StopsAtEndAppend(head, tail);
    head + tail
  }

  /** Android and iOS packaging only announce themselves. */
  function AnnounceSteps(platform: string): seq<Step> {
    [Print("Package " + platform)]
  }

  /** The flags PackageTarget knows. */
  const TargetFlags: seq<string> := ["--desktopgl", "--windows", "--linux", "--mac", "--android", "--ios"]

  /** The cases of PackageTarget's switch. */
  datatype Target = DesktopGL | Windows | Linux | Mac | Android | IOS | Unknown

  /** The case a flag selects; a flag that matches none is Unknown. */
  function TargetOf(flag: string): Target {
    if flag == "--desktopgl" then DesktopGL
    else if flag == "--windows" then Windows
    else if flag == "--linux" then Linux
    else if flag == "--mac" then Mac
    else if flag == "--android" then Android
    else if flag == "--ios" then IOS
    else Unknown
  }

  /** A flag the switch has a case for. */
  predicate Known(flag: string) {
    TargetOf(flag) != Unknown
  }

  /** The switch has a case for exactly the six flags. */
  lemma KnownFlags(flag: string)
    ensures Known(flag) <==> flag in TargetFlags
  {
    if flag in TargetFlags {
      var i :| 0 <= i < |TargetFlags| && TargetFlags[i] == flag;
      assert i == 0 || i == 1 || i == 2 || i == 3 || i == 4 || i == 5;
    }
  }

  /** PackageTarget: the steps for one flag. */
  function PackageTarget(host: Host, game: string, flag: string): (plan: seq<Step>)
    ensures StopsAtEnd(plan)
    ensures |plan| > 0
  {
    match TargetOf(flag)
    case DesktopGL =>
      var w, l, m := WindowsSteps(game), LinuxSteps(game), MacSteps(host, game);
      StopsAtEndAppend(w, l);
      StopsAtEndAppend(w + l, m);
      w + l + m
    case Windows => WindowsSteps(game)
    case Linux => LinuxSteps(game)
    case Mac => MacSteps(host, game)
    case Android => AnnounceSteps("android")
    case IOS => AnnounceSteps("ios")
    case Unknown => Usage(Mgu)
  }

  /** The flags handled one after the other; once one ends the process the
      rest are not reached. */
  function PackageSteps(host: Host, game: string, flags: seq<string>): (plan: seq<Step>)
    ensures StopsAtEnd(plan)
  {
    if |flags| == 0 then []
    else Then(PackageSteps(host, game, flags[..|flags| - 1]), PackageTarget(host, game, flags[|flags| - 1]))
  }

  const NotFound := "Expected directory structure not found."

  /** PackageGame: what `mgu package ...` does, `args` holding the whole
      command line with the verb first. */
  function PackagePlan(host: Host, args: seq<string>): (plan: seq<Step>)
    ensures StopsAtEnd(plan)
  {
    var game := GameName(host.cwd);
    var targets := DetectTargets(host);
    if |targets| == 0 then [Print(NotFound), Exit(-2)]
    else if |args| == 0 then [Crash("IndexOutOfRangeException")]
    else if |args| == 1 || args[1] == "--all" then PackageSteps(host, game, DefaultFlags(targets))
    else PackageSteps(host, game, args[1..])
  }

  /** The runtimes a flag publishes for, in order: the reference the
      plan's commands are checked against. */
  function FlagRuntimes(flag: string): seq<string> {
    match TargetOf(flag)
    case DesktopGL => ["win-x64", "linux-x64", "osx-x64"]
    case Windows => ["win-x64"]
    case Linux => ["linux-x64"]
    case Mac => ["osx-x64"]
    case _ => []
  }

  /** A flag whose block lets the next flag run: a known flag, and, when
      it packages for macOS, a publish output that names a folder. */
  predicate Proceeds(host: Host, flag: string) {
    match TargetOf(flag)
    case Unknown => false
    case DesktopGL | Mac => ' ' in host.macPublishOutput
    case _ => true
  }

  /** The publish command of each runtime, in order. */
  function Publishes(game: string, runtimes: seq<string>): (cmds: seq<Command>)
    ensures |cmds| == |runtimes|
    ensures forall i :: 0 <= i < |runtimes| ==> cmds[i] == Publish(game, runtimes[i])
  {
    if |runtimes| == 0 then [] else [Publish(game, runtimes[0])] + Publishes(game, runtimes[1..])
  }

  /** Which commands each flag starts. */
  lemma TargetCommands(host: Host, game: string, flag: string)
    ensures Commands(PackageTarget(host, game, flag)) ==
      Publishes(game, FlagRuntimes(flag))
  {
    match TargetOf(flag)
    case DesktopGL =>
      CommandsAppend(WindowsSteps(game), LinuxSteps(game));
      CommandsAppend(WindowsSteps(game) + LinuxSteps(game), MacSteps(host, game));
    case Android =>
      assert Commands(PackageTarget(host, game, flag)) == [];
    case IOS =>
      assert Commands(PackageTarget(host, game, flag)) == [];
    case Unknown =>
      assert Commands(PackageTarget(host, game, flag)) == [];
    case _ =>
  }

  /** Which blocks end the process: an unknown flag's usage text, and the
      macOS packaging when the publish output names no folder. */
  lemma TargetEnds(host: Host, game: string, flag: string)
    ensures var plan := PackageTarget(host, game, flag);
      Terminal(plan[|plan| - 1]) <==> !Proceeds(host, flag)
    ensures !Known(flag) ==> PackageTarget(host, game, flag) == Usage(Mgu)
    ensures TargetOf(flag) == Android || TargetOf(flag) == IOS ==> |PackageTarget(host, game, flag)| == 1
  {
    var plan := PackageTarget(host, game, flag);
    if TargetOf(flag) == DesktopGL {
      assert plan[|plan| - 1] == MacSteps(host, game)[|MacSteps(host, game)| - 1];
    }
  }

  /** Once a flag's block has ended the process, the flags after it are
      never reached. */
  lemma {:induction false} StopsAtFirstEnd(host: Host, game: string, flags: seq<string>, k: nat)
    requires k <= |flags|
    requires var plan := PackageSteps(host, game, flags[..k]); |plan| > 0 && Terminal(plan[|plan| - 1])
    ensures PackageSteps(host, game, flags) == PackageSteps(host, game, flags[..k])
    decreases |flags| - k
  {
    if k < |flags| {
      var init := flags[..|flags| - 1];
      assert init[..k] == flags[..k];
      StopsAtFirstEnd(host, game, init, k);
    } else {
      assert flags[..k] == flags;
    }
  }

  /** An unknown flag whose turn comes shows the usage text, and nothing
      after it runs. */
  lemma UnknownFlagStops(host: Host, game: string, flags: seq<string>, k: nat)
    requires k < |flags| && !Known(flags[k])
    requires var plan := PackageSteps(host, game, flags[..k]); |plan| == 0 || !Terminal(plan[|plan| - 1])
    ensures PackageSteps(host, game, flags) == PackageSteps(host, game, flags[..k]) + Usage(Mgu)
  {
    assert flags[..k + 1][..k] == flags[..k];
    StopsAtFirstEnd(host, game, flags, k + 1);
  }

  /** The publish commands of a list of flags, flag after flag. */
  function Published(game: string, flags: seq<string>): seq<Command> {
    if |flags| == 0 then []
    else
      Published(game, flags[..|flags| - 1]) + Publishes(game, FlagRuntimes(flags[|flags| - 1]))
  }

  /** When every flag lets the next one run, the plan starts exactly the
      publish commands of its flags, in order, and does not end early. */
  lemma {:induction false} PackageStepsCommands(host: Host, game: string, flags: seq<string>)
    requires forall i :: 0 <= i < |flags| ==> Proceeds(host, flags[i])
    ensures Commands(PackageSteps(host, game, flags)) == Published(game, flags)
    ensures var plan := PackageSteps(host, game, flags); |plan| == 0 || !Terminal(plan[|plan| - 1])
  {
    if |flags| > 0 {
      var init := flags[..|flags| - 1];
      var last := flags[|flags| - 1];
      PackageStepsCommands(host, game, init);
      TargetCommands(host, game, last);
      TargetEnds(host, game, last);
      var a := PackageSteps(host, game, init);
      var b := PackageTarget(host, game, last);
      ThenCommands(a, b);
      assert PackageSteps(host, game, flags) == a + b;
    }
  }

  /** No block of a known flag calls Environment.Exit. */
  lemma TargetExits(host: Host, game: string, flag: string)
    requires Known(flag)
    ensures forall i :: 0 <= i < |PackageTarget(host, game, flag)| ==> !PackageTarget(host, game, flag)[i].Exit?
  {
  }

  /** A plan made only of known flags never calls Environment.Exit, so it
      never shows the usage text. */
  lemma {:induction false} KnownFlagsNeverExit(host: Host, game: string, flags: seq<string>)
    requires forall i :: 0 <= i < |flags| ==> Known(flags[i])
    ensures forall i :: 0 <= i < |PackageSteps(host, game, flags)| ==> !PackageSteps(host, game, flags)[i].Exit?
  {
    if |flags| > 0 {
      var init := flags[..|flags| - 1];
      KnownFlagsNeverExit(host, game, init);
      TargetExits(host, game, flags[|flags| - 1]);
    }
  }

  /** The loop of PackageGame: each flag's steps in turn, stopping at the
      first block that ends the process. */
  method PackageEach(host: Host, game: string, flags: seq<string>) returns (plan: seq<Step>)
    ensures plan == PackageSteps(host, game, flags)
  {
    plan := [];
    for i := 0 to |flags|
      invariant plan == PackageSteps(host, game, flags[..i])
    {
      assert flags[..i + 1][..i] == flags[..i];
      plan := Then(plan, PackageTarget(host, game, flags[i]));
    }
    assert flags[..|flags|] == flags;
  }

  /** PackageGame: the folders present decide the default flags; explicit
      flags follow the verb. */
  method PackageGame(host: Host, args: seq<string>) returns (plan: seq<Step>)
    ensures plan == PackagePlan(host, args)
  {
    var game := GameName(host.cwd);
    var targets := DetectTargets(host);
    if |targets| == 0 {
      return [Print(NotFound), Exit(-2)];
    }
    if |args| == 0 {
      return [Crash("IndexOutOfRangeException")];
    }
    if |args| == 1 || args[1] == "--all" {
      plan := PackageEach(host, game, DefaultFlags(targets));
    } else {
      plan := PackageEach(host, game, args[1..]);
    }
  }

  /** Outside a game folder the tool says so and exits with -2, whatever
      the arguments, before it looks at them. */
  lemma NoTargetsExits(host: Host, args: seq<string>, fs: FileTree.Tree, fails: Command -> bool)
    requires |DetectTargets(host)| == 0
    ensures Commands(PackagePlan(host, args)) == []
    ensures FileTree.Exec(fs, PackagePlan(host, args), fails) == FileTree.Outcome(fs, 2, FileTree.Exited(-2))
  {
    var plan := PackagePlan(host, args);
    assert plan[1..] == [Exit(-2)];
    assert plan[1..][1..] == [];
  }

  /** `--all` right after the verb means the defaults, and everything after
      it is ignored. */
  lemma AllIgnoresRest(host: Host, verb: string, rest: seq<string>)
    ensures PackagePlan(host, [verb, "--all"] + rest) == PackagePlan(host, [verb])
  {
    assert ([verb, "--all"] + rest)[1] == "--all";
  }

  /** The default flags are known flags, so the default plan never shows the
      usage text or calls Environment.Exit. */
  lemma DefaultPlanNeverExits(host: Host, args: seq<string>)
    requires |DetectTargets(host)| > 0
    requires |args| == 1 || (|args| > 1 && args[1] == "--all")
    ensures forall i :: 0 <= i < |PackagePlan(host, args)| ==> !PackagePlan(host, args)[i].Exit?
  {
    var flags := DefaultFlags(DetectTargets(host));
    forall k | 0 <= k < |flags| ensures Known(flags[k]) {
      DefaultFlagsKnown(host, k);
    }
    KnownFlagsNeverExit(host, GameName(host.cwd), flags);
  }

  /** With a publish output that names a folder, the default plan publishes
      every detected folder's runtimes in the order the folders were found. */
  lemma DefaultPlanCommands(host: Host, args: seq<string>)
    requires |DetectTargets(host)| > 0 && ' ' in host.macPublishOutput
    requires |args| == 1 || (|args| > 1 && args[1] == "--all")
    ensures Commands(PackagePlan(host, args)) ==
      Published(GameName(host.cwd), DefaultFlags(DetectTargets(host)))
  {
    var flags := DefaultFlags(DetectTargets(host));
    forall k | 0 <= k < |flags| ensures Proceeds(host, flags[k]) {
      DefaultFlagsKnown(host, k);
    }
    PackageStepsCommands(host, GameName(host.cwd), flags);
  }

  /** Explicit flags are handled in the order given, from the one after
      the verb. */
  lemma ExplicitPlan(host: Host, args: seq<string>)
    requires |DetectTargets(host)| > 0 && |args| > 1 && args[1] != "--all"
    ensures PackagePlan(host, args) == PackageSteps(host, GameName(host.cwd), args[1..])
  {
  }

  /** The first unknown flag shows the usage text after the commands of
      the flags before it, and no later flag runs. */
  lemma UnknownFlagCommands(host: Host, game: string, flags: seq<string>, k: nat)
    requires k < |flags| && !Known(flags[k])
    requires forall i :: 0 <= i < k ==> Proceeds(host, flags[i])
    ensures PackageSteps(host, game, flags) == PackageSteps(host, game, flags[..k]) + Usage(Mgu)
    ensures Commands(PackageSteps(host, game, flags)) == Published(game, flags[..k])
  {
    PackageStepsCommands(host, game, flags[..k]);
    UnknownFlagStops(host, game, flags, k);
    CommandsThenUsage(PackageSteps(host, game, flags[..k]), Mgu);
  }

  /** The same on the command line: the arguments after the verb are the
      flags. */
  lemma UnknownArgumentStops(host: Host, args: seq<string>, k: nat)
    requires |DetectTargets(host)| > 0
    requires 1 <= k < |args| && args[1] != "--all" && !Known(args[k])
    requires forall i :: 1 <= i < k ==> Proceeds(host, args[i])
    ensures PackagePlan(host, args) == PackageSteps(host, GameName(host.cwd), args[1..k]) + Usage(Mgu)
    ensures Commands(PackagePlan(host, args)) == Published(GameName(host.cwd), args[1..k])
  {
    var flags := args[1..];
    assert flags[..k - 1] == args[1..k];
    assert forall i :: 0 <= i < k - 1 ==> flags[i] == args[i + 1];
    UnknownFlagCommands(host, GameName(host.cwd), flags, k - 1);
    ExplicitPlan(host, args);
  }

  /** The announcement and the publish command of PackageMac. */
  lemma MacHead(fs: FileTree.Tree, game: string, fails: Command -> bool)
    requires !fails(Publish(game, "osx-x64"))
    ensures FileTree.Exec(fs, [Print("Package mac"), Run(Publish(game, "osx-x64"))], fails)
      == FileTree.Outcome(fs, 2, FileTree.Completed)
  {
    var head := [Print("Package mac"), Run(Publish(game, "osx-x64"))];
    FileTree.ExecSucceeds([fs, fs, fs], head, fails);
  }

  /** PackageMac run on a tree: the publish command, then the bundle built
      from the folder the output names. */
  lemma MacBundles(fs: FileTree.Tree, host: Host, game: string, path: string, fails: Command -> bool)
    requires PublishPath(host.macPublishOutput) == Some(path)
    requires Bundle.Ready(fs, MacJob(host, game, path))
    requires !fails(Publish(game, "osx-x64"))
    ensures var o := FileTree.Exec(fs, MacSteps(host, game), fails);
      o.status == FileTree.Completed && o.performed == 13 &&
      forall x :: o.tree(x) == Bundle.Bundled(fs, MacJob(host, game, path), x)
  {
    var head := [Print("Package mac"), Run(Publish(game, "osx-x64"))];
    var job := MacJob(host, game, path);
    var bundle := Bundle.BundleSteps(job);
    assert MacSteps(host, game) == head + bundle;
    FileTree.ExecAppend(fs, head, bundle, fails);
    MacHead(fs, game, fails);
    Bundle.BundleRuns(fs, job, fails);
  }

  /** A failed publish stops PackageMac before the bundle touches anything;
      an output without a space makes Substring throw after it. */
  lemma MacStops(fs: FileTree.Tree, host: Host, game: string, fails: Command -> bool)
    requires fails(Publish(game, "osx-x64")) || ' ' !in host.macPublishOutput
    ensures var o := FileTree.Exec(fs, MacSteps(host, game), fails);
      o.tree == fs && o.status.Raised? &&
      (fails(Publish(game, "osx-x64")) ==> o.performed == 2) &&
      (!fails(Publish(game, "osx-x64")) ==> o.status.reason == "ArgumentOutOfRangeException")
  {
    var plan := MacSteps(host, game);
    var rest := plan[1..];
    assert rest[0] == Run(Publish(game, "osx-x64"));
    if !fails(Publish(game, "osx-x64")) {
      var last := rest[1..];
      assert last == [Crash("ArgumentOutOfRangeException")];
      assert FileTree.Exec(fs, last, fails) == FileTree.Outcome(fs, 1, FileTree.Raised("ArgumentOutOfRangeException"));
      assert FileTree.Exec(fs, rest, fails) == FileTree.Outcome(fs, 2, FileTree.Raised("ArgumentOutOfRangeException"));
    }
  }
}
