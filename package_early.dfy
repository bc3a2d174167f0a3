// The earlier `mgh package`: no folder detection, the game name left
// empty, flags read from the third argument on, and the Linux and macOS
// publishes run in the Android and iOS project folders.

module PackageEarly {
  import opened Actions
  import Package

  /** The game name is never computed: always the empty string. */
  const GameName: string := ""

  /** The project folder each runtime is published from. */
  function Folder(runtime: string): string {
    if runtime == "win-x64" then GameName + ".DesktopGL"
    else if runtime == "linux-x64" then GameName + ".Android"
    else GameName + ".iOS"
  }

  /** The publish command of PackageWindows, PackageLinux and PackageMac. */
  function Publish(runtime: string): (cmd: Command)
    ensures cmd.program == "dotnet" && cmd.arguments == Package.PublishArguments(runtime)
    ensures |cmd.workDir| == 1
  {
    Dotnet([Folder(runtime)], Package.PublishArguments(runtime))
  }

  /** PackageWindows, PackageLinux, PackageMac: one publish each, handed
      to RunCommands. */
  function PublishSteps(runtime: string): seq<Step> {
    Runs([Publish(runtime)])
  }

  /** The steps for one flag; Android and iOS do nothing. */
  function TargetSteps(flag: string): (plan: seq<Step>)
    ensures StopsAtEnd(plan)
  {
    match Package.TargetOf(flag)
    case DesktopGL => PublishSteps("win-x64") + PublishSteps("linux-x64") + PublishSteps("osx-x64")
    case Windows => PublishSteps("win-x64")
    case Linux => PublishSteps("linux-x64")
    case Mac => PublishSteps("osx-x64")
    case Android | IOS => []
    case Unknown => Usage(Mgh)
  }

  /** The flags in turn, until one shows the usage text. */
  function FlagSteps(flags: seq<string>): (plan: seq<Step>)
    ensures StopsAtEnd(plan)
  {
    if |flags| == 0 then []
    else Then(FlagSteps(flags[..|flags| - 1]), TargetSteps(flags[|flags| - 1]))
  }

  /** PackageGame, `args` holding the whole command line with the verb
      first. */
  function PackagePlan(args: seq<string>): (plan: seq<Step>)
    ensures StopsAtEnd(plan)
  {
    if |args| == 2 then []
    else if |args| < 2 then [Crash("IndexOutOfRangeException")]
    else if args[1] == "--all" then []
    else FlagSteps(args[2..])
  }

  /** PackageGame as the source writes it: a loop from the third argument. */
  method PackageGame(args: seq<string>) returns (plan: seq<Step>)
    ensures plan == PackagePlan(args)
  {
    if |args| == 2 {
      return [];
    }
    if |args| < 2 {
      return [Crash("IndexOutOfRangeException")];
    }
    if args[1] == "--all" {
      return [];
    }
    var flags := args[2..];
    plan := [];
    for i := 2 to |args|
      invariant plan == FlagSteps(flags[..i - 2])
    {
      assert flags[..i - 1][..i - 2] == flags[..i - 2];
      plan := Then(plan, TargetSteps(args[i]));
    }
    assert flags[..|args| - 2] == flags;
  }

  /** The publish command of each runtime, in order. */
  function PublishEach(runtimes: seq<string>): (cmds: seq<Command>)
    ensures |cmds| == |runtimes|
    ensures forall i :: 0 <= i < |runtimes| ==> cmds[i] == Publish(runtimes[i])
  {
    if |runtimes| == 0 then [] else [Publish(runtimes[0])] + PublishEach(runtimes[1..])
  }

  lemma PublishEachAppend(a: seq<string>, b: seq<string>)
    ensures PublishEach(a + b) == PublishEach(a) + PublishEach(b)
  {
    var l := PublishEach(a + b);
    var r := PublishEach(a) + PublishEach(b);
    assert |l| == |r|;
    forall i | 0 <= i < |l| ensures l[i] == r[i] {
      if i < |a| {
        assert (a + b)[i] == a[i];
      } else {
        assert (a + b)[i] == b[i - |a|];
        assert r[i] == PublishEach(b)[i - |a|];
      }
    }
  }

  /** The runtimes of a list of flags, flag after flag. */
  function Runtimes(flags: seq<string>): seq<string> {
    if |flags| == 0 then []
    else Runtimes(flags[..|flags| - 1]) + Package.FlagRuntimes(flags[|flags| - 1])
  }

  /** A known flag starts the publishes of its runtimes and does not end the
      process. */
  lemma TargetCommands(flag: string)
    requires Package.Known(flag)
    ensures Commands(TargetSteps(flag)) == PublishEach(Package.FlagRuntimes(flag))
  {
    var w := PublishSteps("win-x64");
    var l := PublishSteps("linux-x64");
    var m := PublishSteps("osx-x64");
    if Package.TargetOf(flag) == Package.DesktopGL {
      CommandsAppend(w, l);
      CommandsAppend(w + l, m);
    }
  }

  /** A known flag's block only runs commands. */
  lemma TargetOnlyRuns(flag: string)
    requires Package.Known(flag)
    ensures OnlyRuns(TargetSteps(flag))
  {
  }

  /** Known flags only run commands, so none of them ends the process. */
  lemma {:induction false} KnownFlagsOnlyRun(flags: seq<string>)
    requires forall i :: 0 <= i < |flags| ==> Package.Known(flags[i])
    ensures OnlyRuns(FlagSteps(flags))
  {
    if |flags| > 0 {
      var init := flags[..|flags| - 1];
      KnownFlagsOnlyRun(init);
      TargetOnlyRuns(flags[|flags| - 1]);
      var a := FlagSteps(init);
      var b := TargetSteps(flags[|flags| - 1]);
      assert |a| == 0 || a[|a| - 1].Run?;
      assert FlagSteps(flags) == a + b;
      OnlyRunsAppend(a, b);
    }
  }

  /** Known flags start exactly the publishes of their runtimes, in order. */
  lemma {:induction false} FlagCommands(flags: seq<string>)
    requires forall i :: 0 <= i < |flags| ==> Package.Known(flags[i])
    ensures Commands(FlagSteps(flags)) == PublishEach(Runtimes(flags))
  {
    if |flags| > 0 {
      var init := flags[..|flags| - 1];
      var last := flags[|flags| - 1];
      FlagCommands(init);
      KnownFlagsOnlyRun(init);
      TargetCommands(last);
      var a := FlagSteps(init);
      assert |a| == 0 || !Terminal(a[|a| - 1]);
      ThenCommands(a, TargetSteps(last));
      PublishEachAppend(Runtimes(init), Package.FlagRuntimes(last));
    }
  }

  /** The second argument is read only to compare it with `--all`: any
      other value packages the same. */
  lemma SecondArgumentIgnored(args: seq<string>, other: string)
    requires |args| > 2 && args[1] != "--all" && other != "--all"
    ensures PackagePlan(args[1 := other]) == PackagePlan(args)
  {
    assert args[1 := other][2..] == args[2..];
  }

  /** A single flag after the verb is taken for `--all`: nothing runs. */
  lemma SingleFlagDoesNothing(verb: string, flag: string)
    ensures PackagePlan([verb, flag]) == []
  {
  }

  /** The three runtimes publish with the current tool's program and
      arguments; only Windows uses the current tool's folder. */
  lemma CompareRuntime(runtime: string)
    requires runtime == "win-x64" || runtime == "linux-x64" || runtime == "osx-x64"
    ensures Publish(runtime).program == Package.Publish(GameName, runtime).program
    ensures Publish(runtime).arguments == Package.Publish(GameName, runtime).arguments
    ensures Publish(runtime).workDir == Package.Publish(GameName, runtime).workDir <==> runtime == "win-x64"
  {
    assert GameName + ".DesktopGL" == ".DesktopGL";
    assert GameName + ".Android" == ".Android" && GameName + ".iOS" == ".iOS";
    if runtime == "linux-x64" {
      assert Publish(runtime).workDir == [".Android"];
      assert |".Android"| != |".DesktopGL"|;
    } else if runtime == "osx-x64" {
      assert Publish(runtime).workDir == [".iOS"];
      assert |".iOS"| != |".DesktopGL"|;
    }
  }

  /** Against the current tool with an empty game name: the same commands
      with the same arguments, but only the Windows publish runs in the
      DesktopGL folder. */
  lemma CompareWithCurrent(host: Package.Host, flag: string)
    requires Package.Known(flag)
    ensures var early := Commands(TargetSteps(flag));
      var current := Commands(Package.PackageTarget(host, GameName, flag));
      var runtimes := Package.FlagRuntimes(flag);
      |early| == |runtimes| && |current| == |runtimes| &&
      forall i :: 0 <= i < |runtimes| ==>
        early[i].program == current[i].program &&
        early[i].arguments == current[i].arguments &&
        (early[i].workDir == current[i].workDir <==> runtimes[i] == "win-x64")
  {
    var runtimes := Package.FlagRuntimes(flag);
    TargetCommands(flag);
    Package.TargetCommands(host, GameName, flag);
    var early := PublishEach(runtimes);
    var current := Package.Publishes(GameName, runtimes);
    assert Commands(TargetSteps(flag)) == early;
    assert Commands(Package.PackageTarget(host, GameName, flag)) == current;
    Runtimes3(flag);
    forall i | 0 <= i < |runtimes|
      ensures early[i].program == current[i].program
      ensures early[i].arguments == current[i].arguments
      ensures early[i].workDir == current[i].workDir <==> runtimes[i] == "win-x64"
    {
      CompareRuntime(runtimes[i]);
    }
  }

  lemma Runtimes3(flag: string)
    ensures forall i :: 0 <= i < |Package.FlagRuntimes(flag)| ==>
      var r := Package.FlagRuntimes(flag)[i]; r == "win-x64" || r == "linux-x64" || r == "osx-x64"
  {
  }

  /** Once the usage text has ended the process, later flags are not
      reached. */
  lemma {:induction false} StopsAtFirstEnd(flags: seq<string>, k: nat)
    requires k <= |flags|
    requires var plan := FlagSteps(flags[..k]); |plan| > 0 && Terminal(plan[|plan| - 1])
    ensures FlagSteps(flags) == FlagSteps(flags[..k])
    decreases |flags| - k
  {
    if k < |flags| {
      var init := flags[..|flags| - 1];
      assert init[..k] == flags[..k];
      StopsAtFirstEnd(init, k);
    } else {
      assert flags[..k] == flags;
    }
  }

  lemma UnknownTarget(flag: string)
    requires !Package.Known(flag)
    ensures TargetSteps(flag) == Usage(Mgh)
  {
  }

  /** An unknown flag after known ones appends the usage text. */
  lemma UnknownAfterKnown(flags: seq<string>, k: nat)
    requires k < |flags| && !Package.Known(flags[k])
    requires forall i :: 0 <= i < k ==> Package.Known(flags[i])
    ensures FlagSteps(flags[..k + 1]) == FlagSteps(flags[..k]) + Usage(Mgh)
    ensures var plan := FlagSteps(flags[..k + 1]); |plan| > 0 && Terminal(plan[|plan| - 1])
  {
    var before := flags[..k];
    assert flags[..k + 1][..k] == before;
    KnownFlagsOnlyRun(before);
    var a := FlagSteps(before);
    assert |a| == 0 || !Terminal(a[|a| - 1]);
    UnknownTarget(flags[k]);
    assert flags[..k + 1][k] == flags[k];
    EndsInUsage(a, Mgh);
  }

  /** The first unknown flag shows the usage text after the publishes of
      the known flags before it; nothing after it runs. */
  lemma UnknownFlagStops(flags: seq<string>, k: nat)
    requires k < |flags| && !Package.Known(flags[k])
    requires forall i :: 0 <= i < k ==> Package.Known(flags[i])
    ensures FlagSteps(flags) == FlagSteps(flags[..k]) + Usage(Mgh)
  {
    UnknownAfterKnown(flags, k);
    StopsAtFirstEnd(flags, k + 1);
  }

  /** ... and starts only those publishes. */
  lemma UnknownFlagCommands(flags: seq<string>, k: nat)
    requires k < |flags| && !Package.Known(flags[k])
    requires forall i :: 0 <= i < k ==> Package.Known(flags[i])
    ensures Commands(FlagSteps(flags)) == PublishEach(Runtimes(flags[..k]))
  {
    UnknownFlagStops(flags, k);
    FlagCommands(flags[..k]);
    CommandsThenUsage(FlagSteps(flags[..k]), Mgh);
  }
}
