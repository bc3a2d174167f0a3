// The entry point of both tools: the verb switch of Main, and
// RunCommands, which starts commands one after the other until one fails.

module Program {
  import opened Actions
  import FileTree
  import Create
  import Package
  import PackageEarly

  /** Main: the help flags and unknown verbs show the usage text; `create`
      and `package` get the whole argument list. */
  function Plan(tool: Tool, host: Package.Host, args: seq<string>): (plan: seq<Step>)
    ensures StopsAtEnd(plan)
    ensures |args| > 0 && args[0] == "create" ==> plan == Create.CreatePlan(tool, args)
    ensures |args| > 0 && args[0] == "package" ==>
      plan == if tool == Mgu then Package.PackagePlan(host, args) else PackageEarly.PackagePlan(args)
  {
    if |args| == 0 || args[0] == "-h" || args[0] == "--help" then Usage(tool)
    else if args[0] == "create" then
      Create.CreateStopsAtEnd(tool, args);
      Create.CreatePlan(tool, args)
    else if args[0] == "package" then
      match tool
      case Mgu => Package.PackagePlan(host, args)
      case Mgh => PackageEarly.PackagePlan(args)
    else Usage(tool)
  }

  /** Some command of the list fails. */
  predicate AnyFails(cmds: seq<Command>, fails: Command -> bool) {
    exists i :: 0 <= i < |cmds| && fails(cmds[i])
  }

  /** How many commands RunCommands starts: all of them, or up to and
      including the first that fails. */
  function Started(cmds: seq<Command>, fails: Command -> bool): (n: nat)
    ensures n <= |cmds|
    ensures forall i :: 0 <= i < n - 1 ==> !fails(cmds[i])
    ensures n < |cmds| ==> n > 0 && fails(cmds[n - 1])
  {
    if |cmds| == 0 then 0
    else if fails(cmds[0]) then 1
    else 1 + Started(cmds[1..], fails)
  }

  /** Started picks the first failing command, and all of them when none
      fails. */
  lemma {:induction false} StartedFirstFailure(cmds: seq<Command>, fails: Command -> bool, k: nat)
    requires k <= |cmds| && forall i :: 0 <= i < k ==> !fails(cmds[i])
    ensures k < |cmds| && fails(cmds[k]) ==> Started(cmds, fails) == k + 1
    ensures k == |cmds| ==> Started(cmds, fails) == |cmds|
    decreases k
  {
    if k > 0 {
      StartedFirstFailure(cmds[1..], fails, k - 1);
    }
  }

  /** RunCommands: each command in array order; the exception of a failing
      one ends the loop. Returns how many were started and whether one
      failed. */
  method RunCommands(cmds: seq<Command>, fails: Command -> bool) returns (ran: nat, failed: bool)
    ensures ran == Started(cmds, fails)
    ensures failed <==> AnyFails(cmds, fails)
  {
    for i := 0 to |cmds|
      invariant forall k :: 0 <= k < i ==> !fails(cmds[k])
    {
      if fails(cmds[i]) {
        StartedFirstFailure(cmds, fails, i);
        return i + 1, true;
      }
    }
    StartedFirstFailure(cmds, fails, |cmds|);
    return |cmds|, false;
  }

  /** A list has a failing command when its first one fails or its rest
      has one. */
  lemma AnyFailsCons(cmds: seq<Command>, fails: Command -> bool)
    requires |cmds| > 0
    ensures AnyFails(cmds, fails) <==> fails(cmds[0]) || AnyFails(cmds[1..], fails)
  {
    if AnyFails(cmds, fails) && !fails(cmds[0]) {
      var i :| 0 <= i < |cmds| && fails(cmds[i]);
      assert cmds[1..][i - 1] == cmds[i];
    }
    if AnyFails(cmds[1..], fails) {
      var i :| 0 <= i < |cmds| - 1 && fails(cmds[1..][i]);
      assert cmds[i + 1] == cmds[1..][i];
    }
  }

  /** The commands as steps of a plan behave as RunCommands says: the tree
      is left alone, the started commands are counted, and a failure
      becomes an exception. */
  lemma {:induction false} RunsExec(fs: FileTree.Tree, cmds: seq<Command>, fails: Command -> bool)
    ensures var o := FileTree.Exec(fs, Runs(cmds), fails);
      o.tree == fs && o.performed == Started(cmds, fails) &&
      (o.status.Raised? <==> AnyFails(cmds, fails)) &&
      (!AnyFails(cmds, fails) ==> o.status == FileTree.Completed)
  {
    if |cmds| > 0 {
      var plan := Runs(cmds);
      assert plan[0] == Run(cmds[0]);
      assert plan[1..] == Runs(cmds[1..]);
      AnyFailsCons(cmds, fails);
      if !fails(cmds[0]) {
        RunsExec(fs, cmds[1..], fails);
      }
    }
  }

  /** Help and unknown verbs: the usage text, exit code -1, no command, the
      tree untouched. */
  lemma UsageExits(tool: Tool, host: Package.Host, args: seq<string>, fs: FileTree.Tree, fails: Command -> bool)
    requires |args| == 0 || args[0] !in ["create", "package"] || args[0] == "-h" || args[0] == "--help"
    ensures Commands(Plan(tool, host, args)) == []
    ensures FileTree.Exec(fs, Plan(tool, host, args), fails) == FileTree.Outcome(fs, 2, FileTree.Exited(-1))
  {
    var plan := Plan(tool, host, args);
    assert plan == Usage(tool);
    assert plan[1..] == [Exit(-1)];
    assert plan[1..][1..] == [];
  }
}
