// `create <gameName> [--desktopgl] [--android] [--ios]` (Create.cs, the same
// in both versions of the tool): a solution with a shared library project,
// then one project per platform flag, each referencing the library.

module Create {
  import opened Base
  import opened Actions
  import Xml
  import FileTree

  /** A platform project: its folder-name suffix and its template. */
  datatype Platform = Platform(suffix: string, template: string)

  const DesktopGL := Platform("DesktopGL", "mgdesktopgl")
  const Android := Platform("Android", "mgandroid")
  const IOS := Platform("iOS", "mgios")

  /** The switch on a platform flag; None for a flag it does not know. */
  function PlatformOf(flag: string): Option<Platform> {
    match flag
    case "--desktopgl" => Some(DesktopGL)
    case "--android" => Some(Android)
    case "--ios" => Some(IOS)
    case _ => None
  }

  /** Each of the three flags selects its own platform; any other selects
      none. */
  lemma PlatformCases(flag: string)
    ensures PlatformOf(flag).Some? <==> flag in {"--desktopgl", "--android", "--ios"}
    ensures PlatformOf(flag) == Some(DesktopGL) <==> flag == "--desktopgl"
    ensures PlatformOf(flag) == Some(Android) <==> flag == "--android"
    ensures PlatformOf(flag) == Some(IOS) <==> flag == "--ios"
  {
  }

  /** The commands of CreateSolution(gameName), all run in folder `gameName`. */
  function SolutionCommands(gameName: string): seq<Command> {
    [ Dotnet([gameName], "new --install MonoGame.Templates.CSharp"),
      Dotnet([gameName], "new sln"),
      Dotnet([gameName], "new mgnetstandard -n " + gameName),
      Dotnet([gameName], "sln add " + gameName + "/" + gameName + ".csproj") ]
  }

  /** CreateSolution(gameName): the folder, then its four commands. */
  function SolutionSteps(gameName: string): (plan: seq<Step>)
    ensures |plan| == 5 && plan[0] == MakeDir([gameName])
    ensures Commands(plan) == SolutionCommands(gameName)
    ensures StopsAtEnd(plan) && !Terminal(plan[4])
  {
    var cmds := SolutionCommands(gameName);
    var runs := Runs(cmds);
    CommandsAppend([MakeDir([gameName])], runs);
    CommandsOfRuns(cmds);
    assert Commands([MakeDir([gameName])]) == [];
    [MakeDir([gameName])] + runs
  }

  /** `{gameName}.{suffix}`, the platform project's name. */
  function ProjectName(gameName: string, p: Platform): string {
    gameName + "." + p.suffix
  }

  /** The commands of CreateProjectTemplate: create and add the project in
      folder `gameName`, then `pwd` and the reference to the library in the
      project's own folder. */
  function ProjectCommands(gameName: string, p: Platform): seq<Command> {
    var name := ProjectName(gameName, p);
    var full := [gameName, name];
    [ Dotnet([gameName], "new " + p.template + " -n " + name),
      Dotnet([gameName], "sln add " + name + "/" + name + ".csproj"),
      Command("pwd", full, ""),
      Dotnet(full, "add " + name + ".csproj reference ../" + gameName + "/" + gameName + ".csproj") ]
  }

  /** `{gameName}/{gameName}.{suffix}`, the platform project's folder, and
      the three entries of it that CreateProjectTemplate changes. */
  function ProjectDir(gameName: string, p: Platform): Path {
    [gameName, ProjectName(gameName, p)]
  }

  function Game1File(gameName: string, p: Platform): Path {
    ProjectDir(gameName, p) + ["Game1.cs"]
  }

  function ContentDir(gameName: string, p: Platform): Path {
    ProjectDir(gameName, p) + ["Content"]
  }

  function ProjectFile(gameName: string, p: Platform): Path {
    ProjectDir(gameName, p) + [ProjectName(gameName, p) + ".csproj"]
  }

  /** CreateProjectTemplate: the commands, then the two deletions, then the
      project-file rewrite. */
  function ProjectSteps(gameName: string, p: Platform): (plan: seq<Step>)
    ensures |plan| == 7
    ensures Commands(plan) == ProjectCommands(gameName, p)
    ensures plan[..4] == Runs(ProjectCommands(gameName, p))
    ensures plan[4..] == [ DeleteFile(Game1File(gameName, p)),
                           DeleteDir(ContentDir(gameName, p)),
                           RewriteProject(ProjectFile(gameName, p), gameName) ]
    ensures StopsAtEnd(plan) && !Terminal(plan[6])
  {
    var tail := [ DeleteFile(Game1File(gameName, p)),
                  DeleteDir(ContentDir(gameName, p)),
                  RewriteProject(ProjectFile(gameName, p), gameName) ];
    var runs := Runs(ProjectCommands(gameName, p));
    CommandsAppend(runs, tail);
    CommandsOfRuns(ProjectCommands(gameName, p));
    CommandsNone(tail);
    assert (runs + tail)[..4] == runs && (runs + tail)[4..] == tail;
    runs + tail
  }

  /** A project folder the file steps of CreateProjectTemplate can work on,
      as the template commands leave it: no directory named Game1.cs, a
      Content folder, and a project file with a content reference that has
      an Include attribute. */
  ghost predicate ProjectReady(fs: FileTree.Tree, gameName: string, p: Platform) {
    && FileTree.WellFormed(fs)
    && fs(Game1File(gameName, p)) != FileTree.Dir
    && fs(ContentDir(gameName, p)) == FileTree.Dir
    && fs(ProjectFile(gameName, p)).XmlFile?
    && Xml.RewriteContentReference(fs(ProjectFile(gameName, p)).doc, gameName).Some?
  }

  /** The three entries share the project folder as parent, are distinct,
      and neither the folder nor the other two lie under Content. */
  lemma ProjectPathsApart(gameName: string, p: Platform)
    ensures var d, g, c, f := ProjectDir(gameName, p), Game1File(gameName, p), ContentDir(gameName, p), ProjectFile(gameName, p);
      && !IsPrefix(c, g) && !IsPrefix(c, f) && !IsPrefix(c, d)
      && g != f && d != g && d != f
      && FileTree.Parent(g) == d && FileTree.Parent(c) == d && FileTree.Parent(f) == d
  {
    var name := ProjectName(gameName, p) + ".csproj";
    assert name[|name| - 1] == 'j';
    assert "Content"[6] == 't' && "Game1.cs"[7] == 's';
    assert name != "Content" && name != "Game1.cs";
    var g, c := Game1File(gameName, p), ContentDir(gameName, p);
    assert g[2] != c[2] && g[..|c|] == g;
  }

  /** The tree CreateProjectTemplate leaves, point by point: Game1.cs and
      the Content folder gone, the project file rewritten. */
  ghost function Tidied(fs: FileTree.Tree, gameName: string, p: Platform, x: Path): FileTree.Entry
    requires ProjectReady(fs, gameName, p)
  {
    if x == Game1File(gameName, p) || IsPrefix(ContentDir(gameName, p), x) then FileTree.Absent
    else if x == ProjectFile(gameName, p) then
      FileTree.XmlFile(Xml.RewriteContentReference(fs(ProjectFile(gameName, p)).doc, gameName).value)
    else fs(x)
  }

  /** The three file steps succeed in turn on a ready folder. */
  lemma ProjectFileSteps(fs: FileTree.Tree, gameName: string, p: Platform, fails: Command -> bool)
    returns (t1: FileTree.Tree, t2: FileTree.Tree, t3: FileTree.Tree)
    requires ProjectReady(fs, gameName, p)
    ensures FileTree.Apply(fs, DeleteFile(Game1File(gameName, p)), fails) == Ok(t1)
    ensures FileTree.Apply(t1, DeleteDir(ContentDir(gameName, p)), fails) == Ok(t2)
    ensures FileTree.Apply(t2, RewriteProject(ProjectFile(gameName, p), gameName), fails) == Ok(t3)
    ensures forall x :: t3(x) == Tidied(fs, gameName, p, x)
  {
    var d, g, c, f := ProjectDir(gameName, p), Game1File(gameName, p), ContentDir(gameName, p), ProjectFile(gameName, p);
    ProjectPathsApart(gameName, p);
    assert fs(d) == FileTree.Dir;
    t1 := FileTree.RemoveFile(fs, g).value;
    t2 := FileTree.DeleteTree(t1, c).value;
    assert t2(f) == fs(f) && t2(d) == FileTree.Dir;
    var doc := Xml.RewriteContentReference(fs(f).doc, gameName).value;
    t3 := FileTree.WriteFile(t2, f, FileTree.XmlFile(doc)).value;
  }

  /** CreateProjectTemplate carried out on a ready folder with commands that
      succeed: all seven steps complete; Game1.cs and everything under
      Content are gone, the project file holds the rewritten document, and
      nothing else changes. */
  lemma ProjectRuns(fs: FileTree.Tree, gameName: string, p: Platform, fails: Command -> bool)
    requires ProjectReady(fs, gameName, p)
    requires forall i :: 0 <= i < 4 ==> !fails(ProjectCommands(gameName, p)[i])
    ensures var o := FileTree.Exec(fs, ProjectSteps(gameName, p), fails);
      && o.status == FileTree.Completed && o.performed == 7
      && o.tree(Game1File(gameName, p)) == FileTree.Absent
      && (forall x :: IsPrefix(ContentDir(gameName, p), x) ==> o.tree(x) == FileTree.Absent)
      && o.tree(ProjectFile(gameName, p))
         == FileTree.XmlFile(Xml.RewriteContentReference(fs(ProjectFile(gameName, p)).doc, gameName).value)
      && forall x :: x != Game1File(gameName, p) && !IsPrefix(ContentDir(gameName, p), x) && x != ProjectFile(gameName, p)
           ==> o.tree(x) == fs(x)
  {
    var plan := ProjectSteps(gameName, p);
    var runs, tail := plan[..4], plan[4..];
    assert plan == runs + tail;
    var cmds := ProjectCommands(gameName, p);
    FileTree.ExecSucceeds([fs, fs, fs, fs, fs], runs, fails);
    var t1, t2, t3 := ProjectFileSteps(fs, gameName, p, fails);
    FileTree.ExecSucceeds([fs, t1, t2, t3], tail, fails);
    FileTree.ExecAppend(fs, runs, tail, fails);
    ProjectPathsApart(gameName, p);
  }

  /** The loop over `args[2..]`: a project per known flag, in order; the first
      unknown flag shows usage, which exits. */
  function FlagSteps(tool: Tool, gameName: string, flags: seq<string>): seq<Step> {
    if |flags| == 0 then []
    else match PlatformOf(flags[0])
      case None => Usage(tool)
      case Some(p) => ProjectSteps(gameName, p) + FlagSteps(tool, gameName, flags[1..])
  }

  /** Create.CreateSolution(args). */
  function CreatePlan(tool: Tool, args: seq<string>): seq<Step> {
    if |args| < 2 then [Crash("IndexOutOfRangeException")]
    else
      var gameName := args[1];
      SolutionSteps(gameName) +
        if |args| == 2 then ProjectSteps(gameName, DesktopGL)
        else FlagSteps(tool, gameName, args[2..])
  }

  predicate AllKnown(flags: seq<string>) {
    forall i :: 0 <= i < |flags| ==> PlatformOf(flags[i]).Some?
  }

  /** The statements of Create.CreateSolution(args) in order, as a plan. */
  method CreateSolution(tool: Tool, args: seq<string>) returns (plan: seq<Step>)
    ensures plan == CreatePlan(tool, args)
  {
    if |args| < 2 {
      return [Crash("IndexOutOfRangeException")];
    }
    var gameName := args[1];
    plan := SolutionSteps(gameName);
    if |args| == 2 {
      plan := plan + ProjectSteps(gameName, DesktopGL);
      return;
    }
    var rest := CreateProjects(tool, gameName, args[2..]);
    plan := plan + rest;
  }

  /** The `for` loop of Create.CreateSolution(args) over the platform flags. */
  method CreateProjects(tool: Tool, gameName: string, flags: seq<string>) returns (plan: seq<Step>)
    ensures plan == FlagSteps(tool, gameName, flags)
  {
    plan := [];
    for k := 0 to |flags|
      invariant AllKnown(flags[..k])
      invariant plan == FlagSteps(tool, gameName, flags[..k])
    {
      match PlatformOf(flags[k])
      case None =>
        FlagStepsUnknown(tool, gameName, flags, k);
        plan := plan + Usage(tool);
        return;
      case Some(p) =>
        assert AllKnown(flags[..k + 1]) by {
          assert forall j :: 0 <= j < k ==> flags[..k + 1][j] == flags[..k][j];
        }
        FlagStepsKnownPrefix(tool, gameName, flags, k);
        plan := plan + ProjectSteps(gameName, p);
    }
    assert flags[..|flags|] == flags;
  }

  /** Processing stops at the first unknown flag: what comes before it is
      done, then usage; nothing after it. */
  lemma {:induction false} FlagStepsUnknown(tool: Tool, gameName: string, flags: seq<string>, k: nat)
    requires k < |flags| && AllKnown(flags[..k]) && PlatformOf(flags[k]).None?
    ensures FlagSteps(tool, gameName, flags) == FlagSteps(tool, gameName, flags[..k]) + Usage(tool)
  {
    if k > 0 {
      assert flags[1..][..k - 1] == flags[..k][1..];
      assert PlatformOf(flags[..k][0]).Some?;
      FlagStepsUnknown(tool, gameName, flags[1..], k - 1);
    }
  }

  /** The steps of the first `k + 1` known flags are those of the first `k`
      followed by the project of flag `k`. */
  lemma {:induction false} FlagStepsKnownPrefix(tool: Tool, gameName: string, flags: seq<string>, k: nat)
    requires k < |flags| && AllKnown(flags[..k + 1])
    ensures FlagSteps(tool, gameName, flags[..k + 1]) ==
      FlagSteps(tool, gameName, flags[..k]) + ProjectSteps(gameName, PlatformOf(flags[k]).value)
  {
    assert PlatformOf(flags[..k + 1][0]).Some?;
    if k == 0 {
      assert flags[..1][1..] == [];
    } else {
      assert flags[..k + 1][1..] == flags[1..][..k];
      assert flags[..k][1..] == flags[1..][..k - 1];
      FlagStepsKnownPrefix(tool, gameName, flags[1..], k - 1);
    }
  }

  /** With no platform flag, `create` behaves exactly as with `--desktopgl`. */
  lemma CreateDefaultIsDesktopGL(tool: Tool, verb: string, gameName: string)
    ensures CreatePlan(tool, [verb, gameName]) == CreatePlan(tool, [verb, gameName, "--desktopgl"])
  {
    assert [verb, gameName, "--desktopgl"][2..] == ["--desktopgl"];
    assert FlagSteps(tool, gameName, ["--desktopgl"]) == ProjectSteps(gameName, DesktopGL) + [];
  }

  lemma {:induction false} FlagStepsLength(tool: Tool, gameName: string, flags: seq<string>)
    requires AllKnown(flags)
    ensures |FlagSteps(tool, gameName, flags)| == 7 * |flags|
  {
    if |flags| > 0 {
      assert AllKnown(flags[1..]) by {
        assert forall j :: 0 <= j < |flags| - 1 ==> flags[1..][j] == flags[j + 1];
      }
      FlagStepsLength(tool, gameName, flags[1..]);
    }
  }

  /** Known flags are handled one after the other: the steps of `a + b`
      are those of `a`, then those of `b`. */
  lemma {:induction false} FlagStepsAppend(tool: Tool, gameName: string, a: seq<string>, b: seq<string>)
    requires AllKnown(a)
    ensures FlagSteps(tool, gameName, a + b) == FlagSteps(tool, gameName, a) + FlagSteps(tool, gameName, b)
  {
    if |a| == 0 {
      assert a + b == b;
    } else {
      assert (a + b)[0] == a[0];
      assert (a + b)[1..] == a[1..] + b;
      assert AllKnown(a[1..]) by {
        assert forall i :: 0 <= i < |a| - 1 ==> a[1..][i] == a[i + 1];
      }
      FlagStepsAppend(tool, gameName, a[1..], b);
      var head := ProjectSteps(gameName, PlatformOf(a[0]).value);
      assert FlagSteps(tool, gameName, a + b) == head + FlagSteps(tool, gameName, a[1..] + b);
      assert head + (FlagSteps(tool, gameName, a[1..]) + FlagSteps(tool, gameName, b))
        == (head + FlagSteps(tool, gameName, a[1..])) + FlagSteps(tool, gameName, b);
    }
  }

  lemma FlagStepsSingle(tool: Tool, gameName: string, flag: string)
    requires PlatformOf(flag).Some?
    ensures FlagSteps(tool, gameName, [flag]) == ProjectSteps(gameName, PlatformOf(flag).value)
  {
    assert [flag][1..] == [];
    assert ProjectSteps(gameName, PlatformOf(flag).value) + [] == ProjectSteps(gameName, PlatformOf(flag).value);
  }

  /** The steps of known flags around flag `j`. */
  lemma FlagStepsAround(tool: Tool, gameName: string, flags: seq<string>, j: nat)
    requires AllKnown(flags) && j < |flags|
    ensures FlagSteps(tool, gameName, flags) ==
      FlagSteps(tool, gameName, flags[..j]) + ProjectSteps(gameName, PlatformOf(flags[j]).value)
        + FlagSteps(tool, gameName, flags[j + 1..])
    ensures |FlagSteps(tool, gameName, flags[..j])| == 7 * j
  {
    var before, here, after := flags[..j], [flags[j]], flags[j + 1..];
    assert flags == before + (here + after);
    assert AllKnown(before) by {
      assert forall i :: 0 <= i < j ==> before[i] == flags[i];
    }
    FlagStepsAppend(tool, gameName, before, here + after);
    FlagStepsAppend(tool, gameName, here, after);
    FlagStepsSingle(tool, gameName, flags[j]);
    FlagStepsLength(tool, gameName, before);
  }

  /** With known flags only, flag `j` gets the `j`-th block of seven steps. */
  lemma FlagBlock(tool: Tool, gameName: string, flags: seq<string>, j: nat)
    requires AllKnown(flags) && j < |flags|
    ensures |FlagSteps(tool, gameName, flags)| == 7 * |flags|
    ensures FlagSteps(tool, gameName, flags)[7 * j..7 * j + 7] == ProjectSteps(gameName, PlatformOf(flags[j]).value)
  {
    FlagStepsLength(tool, gameName, flags);
    FlagStepsAround(tool, gameName, flags, j);
    var a := FlagSteps(tool, gameName, flags[..j]);
    SliceMiddle(a, ProjectSteps(gameName, PlatformOf(flags[j]).value), FlagSteps(tool, gameName, flags[j + 1..]));
  }

  /** With flags after the name: the solution, then the flags' steps. */
  lemma CreateWithFlags(tool: Tool, args: seq<string>)
    requires |args| > 2
    ensures CreatePlan(tool, args) == SolutionSteps(args[1]) + FlagSteps(tool, args[1], args[2..])
  {
  }

  /** The plan of `create` with known flags: the solution steps, then one
      block of seven project steps per flag, in the order of the flags. */
  lemma CreateKnownFlags(tool: Tool, args: seq<string>, j: nat)
    requires |args| > 2 && AllKnown(args[2..]) && j < |args| - 2
    ensures var plan := CreatePlan(tool, args);
      && |plan| == 5 + 7 * (|args| - 2)
      && plan[..5] == SolutionSteps(args[1])
      && plan[5 + 7 * j..12 + 7 * j] == ProjectSteps(args[1], PlatformOf(args[2 + j]).value)
  {
    var flags := args[2..];
    CreateWithFlags(tool, args);
    FlagBlock(tool, args[1], flags, j);
    var head := SolutionSteps(args[1]);
    var tail := FlagSteps(tool, args[1], flags);
    var k := 7 * j;
    SliceAfter(head, tail, k, k + 7);
    assert (head + tail)[..5] == head;
    assert flags[j] == args[2 + j];
  }

  /** All the project commands of a list of known flags, in order. */
  function ProjectCommandsFor(gameName: string, flags: seq<string>): seq<Command>
    requires AllKnown(flags)
  {
    if |flags| == 0 then []
    else ProjectCommands(gameName, PlatformOf(flags[0]).value) + ProjectCommandsFor(gameName, flags[1..])
  }

  /** The processes `create` starts: the four solution commands, then the
      four commands of each flag's project, flag by flag. */
  lemma {:induction false} FlagCommands(tool: Tool, gameName: string, flags: seq<string>)
    requires AllKnown(flags)
    ensures Commands(FlagSteps(tool, gameName, flags)) == ProjectCommandsFor(gameName, flags)
  {
    if |flags| > 0 {
      var p := PlatformOf(flags[0]).value;
      CommandsAppend(ProjectSteps(gameName, p), FlagSteps(tool, gameName, flags[1..]));
      FlagCommands(tool, gameName, flags[1..]);
    }
  }

  lemma CreateCommands(tool: Tool, args: seq<string>)
    requires |args| >= 2 && AllKnown(args[2..])
    ensures Commands(CreatePlan(tool, args)) ==
      SolutionCommands(args[1]) +
        ProjectCommandsFor(args[1], if |args| == 2 then ["--desktopgl"] else args[2..])
  {
    var g := args[1];
    if |args| == 2 {
      CommandsAppend(SolutionSteps(g), ProjectSteps(g, DesktopGL));
      assert ProjectCommandsFor(g, ["--desktopgl"]) == ProjectCommands(g, DesktopGL) + [];
    } else {
      CommandsAppend(SolutionSteps(g), FlagSteps(tool, g, args[2..]));
      FlagCommands(tool, g, args[2..]);
    }
  }

  /** An unknown flag at `args[k]`: the projects of the flags before it are
      created, then usage exits with -1; no later flag is looked at. */
  lemma CreateUnknownFlag(tool: Tool, args: seq<string>, k: nat)
    requires 2 <= k < |args| && AllKnown(args[2..k]) && PlatformOf(args[k]).None?
    ensures CreatePlan(tool, args) ==
      SolutionSteps(args[1]) + FlagSteps(tool, args[1], args[2..k]) + Usage(tool)
    ensures CreatePlan(tool, args)[|CreatePlan(tool, args)| - 1] == Exit(-1)
  {
    assert args[2..][..k - 2] == args[2..k];
    FlagStepsUnknown(tool, args[1], args[2..], k - 2);
  }

  /** Whatever the arguments, a create plan can only end at its last step. */
  lemma {:induction false} FlagStepsStop(tool: Tool, gameName: string, flags: seq<string>)
    ensures StopsAtEnd(FlagSteps(tool, gameName, flags))
  {
    if |flags| > 0 && PlatformOf(flags[0]).Some? {
      FlagStepsStop(tool, gameName, flags[1..]);
      StopsAtEndAppend(ProjectSteps(gameName, PlatformOf(flags[0]).value), FlagSteps(tool, gameName, flags[1..]));
    }
  }

  lemma CreateStopsAtEnd(tool: Tool, args: seq<string>)
    ensures StopsAtEnd(CreatePlan(tool, args))
  {
    if |args| >= 2 {
      var g := args[1];
      if |args| == 2 {
        StopsAtEndAppend(SolutionSteps(g), ProjectSteps(g, DesktopGL));
      } else {
        FlagStepsStop(tool, g, args[2..]);
        StopsAtEndAppend(SolutionSteps(g), FlagSteps(tool, g, args[2..]));
      }
    }
  }
}
