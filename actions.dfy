// The abstract actions the tool performs. A planner (create, package) turns
// the command line into a plan, a sequence of steps; the file-system checks
// the source makes right before acting (`if (Directory.Exists(p)) ...`)
// are part of the step, so a plan is fixed before anything runs.

module Actions {

  /** A path as its segments; relative to the current directory unless it
      was built from an absolute path. */
  type Path = seq<string>

  /** A CliWrap command: program, working directory, argument text. */
  datatype Command = Command(program: string, workDir: Path, arguments: string)

  datatype Step =
    | Run(cmd: Command)                       // start a process and wait for it
    | Print(text: string)                     // Console.WriteLine
    | MakeDir(path: Path)                     // Directory.CreateDirectory
    | DeleteFile(path: Path)                  // File.Delete
    | DeleteDir(path: Path)                   // Directory.Delete(path, true)
    | DeleteDirIfExists(path: Path)           // if (Directory.Exists) Directory.Delete(path, true)
    | MoveDir(from: Path, to: Path)           // Directory.Move
    | MoveDirIfExists(from: Path, to: Path)   // if (Directory.Exists) Directory.Move
    | CopyFileIfExists(from: Path, to: Path)  // if (File.Exists) File.Copy
    | WriteFromTemplate(template: Path, dest: Path, placeholder: string, value: string)
                                              // ReadAllText, Replace, WriteAllText
    | RewriteProject(project: Path, gameName: string)
                                              // load a .csproj, fix its content reference, save
    | Exit(code: int)                         // Environment.Exit
    | Crash(reason: string)                   // an exception that escapes Main

  /** Steps after which nothing else of the plan happens. */
  predicate Terminal(s: Step) {
    s.Exit? || s.Crash?
  }

  /** A plan stops at its first terminal step: none appears before the end. */
  predicate StopsAtEnd(plan: seq<Step>) {
    forall i :: 0 <= i < |plan| - 1 ==> !Terminal(plan[i])
  }

  /** The two command-line tools that share this code. */
  datatype Tool = Mgu | Mgh

  function ToolName(tool: Tool): string {
    match tool
    case Mgu => "mgu"
    case Mgh => "mgh"
  }

  /** Program.ShowUsage: the banner (shortened to its usage line), then
      Environment.Exit(-1). */
  function Usage(tool: Tool): (plan: seq<Step>)
    ensures |plan| == 2 && plan[1] == Exit(-1) && !Terminal(plan[0])
  {
    [Print(ToolName(tool) + " <command> [<args>]"), Exit(-1)]
  }

  /** A plan that ends with the usage text ends the process. */
  lemma EndsInUsage(a: seq<Step>, tool: Tool)
    ensures var c := a + Usage(tool); |c| > 0 && c[|c| - 1] == Exit(-1)
  {
    var c := a + Usage(tool);
    assert c[|c| - 1] == Usage(tool)[1];
  }

  /** The usage text starts no command. */
  lemma CommandsThenUsage(a: seq<Step>, tool: Tool)
    ensures Commands(a + Usage(tool)) == Commands(a)
  {
    CommandsAppend(a, Usage(tool));
    var u := Usage(tool);
    assert Commands(u) == Commands(u[1..]) == Commands(u[2..]) == [];
    assert Commands(a) + [] == Commands(a);
  }

  /** A `dotnet` invocation. */
  function Dotnet(workDir: Path, arguments: string): Command {
    Command("dotnet", workDir, arguments)
  }

  /** A command list handed to Program.RunCommands, as steps. */
  function Runs(cmds: seq<Command>): (plan: seq<Step>)
    ensures |plan| == |cmds|
    ensures forall i :: 0 <= i < |cmds| ==> plan[i] == Run(cmds[i])
  {
    if |cmds| == 0 then [] else [Run(cmds[0])] + Runs(cmds[1..])
  }

  /** The commands a plan starts, in order. */
  function Commands(plan: seq<Step>): (cmds: seq<Command>)
    ensures |cmds| <= |plan|
  {
    if |plan| == 0 then []
    else (if plan[0].Run? then [plan[0].cmd] else []) + Commands(plan[1..])
  }

  /** Every command a plan starts is one of its Run steps. */
  lemma {:induction false} CommandsAreRuns(plan: seq<Step>)
    ensures forall c :: c in Commands(plan) ==> Run(c) in plan
  {
    if |plan| > 0 {
      CommandsAreRuns(plan[1..]);
      assert forall s :: s in plan[1..] ==> s in plan;
    }
  }

  lemma {:induction false} CommandsAppend(a: seq<Step>, b: seq<Step>)
    ensures Commands(a + b) == Commands(a) + Commands(b)
  {
    if |a| == 0 {
      assert a + b == b;
    } else {
      var head := if a[0].Run? then [a[0].cmd] else [];
      assert (a + b)[0] == a[0];
      assert (a + b)[1..] == a[1..] + b;
      assert Commands(a + b) == head + Commands(a[1..] + b);
      CommandsAppend(a[1..], b);
      assert Commands(a) == head + Commands(a[1..]);
    }
  }

  /** Runs and Commands are inverse on command lists. */
  lemma {:induction false} CommandsOfRuns(cmds: seq<Command>)
    ensures Commands(Runs(cmds)) == cmds
  {
    if |cmds| > 0 {
      assert Runs(cmds)[1..] == Runs(cmds[1..]);
      CommandsOfRuns(cmds[1..]);
    }
  }

  lemma {:induction false} StopsAtEndAppend(a: seq<Step>, b: seq<Step>)
    requires StopsAtEnd(a) && StopsAtEnd(b)
    requires |a| > 0 ==> !Terminal(a[|a| - 1])
    ensures StopsAtEnd(a + b)
  {
    forall i | 0 <= i < |a + b| - 1 ensures !Terminal((a + b)[i]) {
      if i >= |a| {
        assert (a + b)[i] == b[i - |a|];
      }
    }
  }

  lemma {:induction false} CommandsNone(plan: seq<Step>)
    requires forall i :: 0 <= i < |plan| ==> !plan[i].Run?
    ensures Commands(plan) == []
  {
    if |plan| > 0 {
      CommandsNone(plan[1..]);
    }
  }

  /** A plan that only starts processes. */
  predicate OnlyRuns(plan: seq<Step>) {
    forall i :: 0 <= i < |plan| ==> plan[i].Run?
  }

  lemma OnlyRunsAppend(a: seq<Step>, b: seq<Step>)
    requires OnlyRuns(a) && OnlyRuns(b)
    ensures OnlyRuns(a + b)
  {
    forall i | 0 <= i < |a + b| ensures (a + b)[i].Run? {
      if i >= |a| {
        assert (a + b)[i] == b[i - |a|];
      }
    }
  }

  /** `a` then `b`, unless `a` has already ended the process. */
  function Then(a: seq<Step>, b: seq<Step>): (plan: seq<Step>)
    ensures StopsAtEnd(a) && StopsAtEnd(b) ==> StopsAtEnd(plan)
  {
    if |a| > 0 && Terminal(a[|a| - 1]) then a
    else
      StopsAtEndThen(a, b);
      a + b
  }

  lemma StopsAtEndThen(a: seq<Step>, b: seq<Step>)
    requires |a| > 0 ==> !Terminal(a[|a| - 1])
    ensures StopsAtEnd(a) && StopsAtEnd(b) ==> StopsAtEnd(a + b)
  {
    if StopsAtEnd(a) && StopsAtEnd(b) {
      StopsAtEndAppend(a, b);
    }
  }

  /** What the first part does is never undone or dropped: it is a prefix
      of the whole, which adds the second part exactly when the first
      does not end the process. */
  lemma ThenKeepsFirst(a: seq<Step>, b: seq<Step>)
    ensures |a| <= |Then(a, b)| && Then(a, b)[..|a|] == a
    ensures Then(a, b)[|a|..] == if |a| > 0 && Terminal(a[|a| - 1]) then [] else b
  {
    if !(|a| > 0 && Terminal(a[|a| - 1])) {
      assert (a + b)[..|a|] == a;
      assert (a + b)[|a|..] == b;
    }
  }

  lemma {:induction false} ThenAssociative(a: seq<Step>, b: seq<Step>, c: seq<Step>)
    ensures Then(Then(a, b), c) == Then(a, Then(b, c))
  {
    if !(|a| > 0 && Terminal(a[|a| - 1])) {
      if |b| > 0 && Terminal(b[|b| - 1]) {
        assert (a + b)[|a + b| - 1] == b[|b| - 1];
      } else if |b| == 0 {
        assert a + b == a;
        assert b + c == c;
      } else {
        assert (a + b)[|a + b| - 1] == b[|b| - 1];
        assert a + b + c == a + (b + c);
      }
    }
  }

  lemma ThenCommands(a: seq<Step>, b: seq<Step>)
    requires |a| == 0 || !Terminal(a[|a| - 1])
    ensures Commands(Then(a, b)) == Commands(a) + Commands(b)
  {
    CommandsAppend(a, b);
  }
}
