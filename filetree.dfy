// An abstract file system and the meaning of each plan step on it, with the
// exceptions System.IO raises. A tree maps every path to what is there; the
// effect of an external command on the tree is not modelled (a Run step
// leaves it as it is), its failure is: `fails` says which commands fail.

module FileTree {
  import opened Base
  import opened Actions
  import Xml
  import Text

  datatype Entry =
    | Absent
    | Dir
    | TextFile(text: string)
    | XmlFile(doc: Xml.Node)   // a project file, as its parsed element tree
    | DataFile(bytes: seq<int>)

  predicate IsFile(e: Entry) {
    e.TextFile? || e.XmlFile? || e.DataFile?
  }

  type Tree = Path -> Entry

  function Parent(p: Path): Path {
    if |p| == 0 then [] else p[..|p| - 1]
  }

  /** No file stands where a directory of `p` (or `p` itself) would go. */
  predicate NoFileOnWay(fs: Tree, p: Path) {
    forall i :: 0 <= i <= |p| ==> !IsFile(fs(p[..i]))
  }

  /** Directory.CreateDirectory: `p` and its missing ancestors become directories. */
  function CreateDirectory(fs: Tree, p: Path): (r: Result<Tree>)
    ensures r.Ok? <==> NoFileOnWay(fs, p)
    ensures r.Ok? ==> forall q :: IsPrefix(q, p) ==> r.value(q) == Dir
    ensures r.Ok? ==> forall q :: !IsPrefix(q, p) ==> r.value(q) == fs(q)
    ensures r.Ok? ==> forall q :: fs(q) != Absent ==> r.value(q) == fs(q)
  {
    if !NoFileOnWay(fs, p) then Err("IOException")
    else
      assert forall q :: IsPrefix(q, p) ==> q == p[..|q|];
      Ok(q => if IsPrefix(q, p) && fs(q) == Absent then Dir else fs(q))
  }

  /** Directory.Delete(p, true): the directory and everything below it go. */
  function DeleteTree(fs: Tree, p: Path): (r: Result<Tree>)
    ensures r.Ok? <==> fs(p) == Dir
    ensures r.Ok? ==> forall q :: r.value(q) == if IsPrefix(p, q) then Absent else fs(q)
  {
    if fs(p) != Dir then Err("DirectoryNotFoundException")
    else Ok(q => if IsPrefix(p, q) then Absent else fs(q))
  }

  /** Directory.Move(a, b): everything below `a` now lies below `b`. */
  function MoveTree(fs: Tree, a: Path, b: Path): (r: Result<Tree>)
    ensures r.Ok? <==> fs(a) != Absent && fs(b) == Absent && fs(Parent(b)) == Dir && !IsPrefix(a, b)
    ensures r.Ok? ==> forall q ::
      r.value(q) == if IsPrefix(b, q) then fs(a + q[|b|..]) else if IsPrefix(a, q) then Absent else fs(q)
  {
    if fs(a) == Absent then Err("DirectoryNotFoundException")
    else if fs(b) != Absent then Err("IOException")
    else if fs(Parent(b)) != Dir then Err("DirectoryNotFoundException")
    else if IsPrefix(a, b) then Err("IOException")
    else Ok(q => if IsPrefix(b, q) then fs(a + q[|b|..]) else if IsPrefix(a, q) then Absent else fs(q))
  }

  /** File.Copy(a, b) without overwriting. */
  function CopyFile(fs: Tree, a: Path, b: Path): (r: Result<Tree>)
    ensures r.Ok? <==> IsFile(fs(a)) && fs(b) == Absent && fs(Parent(b)) == Dir
    ensures r.Ok? ==> forall q :: r.value(q) == if q == b then fs(a) else fs(q)
  {
    if !IsFile(fs(a)) then Err("FileNotFoundException")
    else if fs(b) != Absent then Err("IOException")
    else if fs(Parent(b)) != Dir then Err("DirectoryNotFoundException")
    else Ok(q => if q == b then fs(a) else fs(q))
  }

  /** Writing a whole file (File.WriteAllText, XmlDocument.Save). */
  function WriteFile(fs: Tree, p: Path, e: Entry): (r: Result<Tree>)
    ensures r.Ok? <==> fs(p) != Dir && fs(Parent(p)) == Dir
    ensures r.Ok? ==> forall q :: r.value(q) == if q == p then e else fs(q)
  {
    if fs(p) == Dir then Err("UnauthorizedAccessException")
    else if fs(Parent(p)) != Dir then Err("DirectoryNotFoundException")
    else Ok(q => if q == p then e else fs(q))
  }

  /** File.Delete: a missing file is no error, a missing directory is. */
  function RemoveFile(fs: Tree, p: Path): (r: Result<Tree>)
    ensures r.Ok? <==> fs(p) != Dir && fs(Parent(p)) == Dir
    ensures r.Ok? ==> forall q :: r.value(q) == if q == p then Absent else fs(q)
  {
    WriteFile(fs, p, Absent)
  }

  /** The effect of one non-terminal step. */
  function Apply(fs: Tree, s: Step, fails: Command -> bool): Result<Tree>
    requires !Terminal(s)
  {
    match s
    case Run(cmd) => if fails(cmd) then Err("command failed: " + cmd.program) else Ok(fs)
    case Print(_) => Ok(fs)
    case MakeDir(p) => CreateDirectory(fs, p)
    case DeleteFile(p) => RemoveFile(fs, p)
    case DeleteDir(p) => DeleteTree(fs, p)
    case DeleteDirIfExists(p) => if fs(p) == Dir then DeleteTree(fs, p) else Ok(fs)
    case MoveDir(a, b) => MoveTree(fs, a, b)
    case MoveDirIfExists(a, b) => if fs(a) == Dir then MoveTree(fs, a, b) else Ok(fs)
    case CopyFileIfExists(a, b) => if IsFile(fs(a)) then CopyFile(fs, a, b) else Ok(fs)
    case WriteFromTemplate(t, d, placeholder, value) =>
      if !fs(t).TextFile? then Err("FileNotFoundException")
      else if |placeholder| == 0 then Err("ArgumentException")
      else WriteFile(fs, d, TextFile(Text.Replace(fs(t).text, placeholder, value)))
    case RewriteProject(p, gameName) =>
      if !fs(p).XmlFile? then Err("FileNotFoundException")
      else match Xml.RewriteContentReference(fs(p).doc, gameName)
        case None => Err("NullReferenceException")
        case Some(doc) => WriteFile(fs, p, XmlFile(doc))
  }

  datatype Status = Completed | Exited(code: int) | Raised(reason: string)

  /** The tree afterwards, how many steps were started, and how it ended. */
  datatype Outcome = Outcome(tree: Tree, performed: nat, status: Status)

  /** Carrying out a plan: one step at a time, each finished before the next;
      Exit ends the process, an exception ends it too. */
  function Exec(fs: Tree, plan: seq<Step>, fails: Command -> bool): (o: Outcome)
    ensures o.performed <= |plan|
    ensures o.status.Completed? ==> o.performed == |plan|
    ensures !o.status.Completed? ==> o.performed > 0
    ensures forall i :: 0 <= i < o.performed - 1 ==> !Terminal(plan[i])
    ensures o.status.Completed? ==> forall i :: 0 <= i < |plan| ==> !Terminal(plan[i])
    ensures o.status.Exited? ==> plan[o.performed - 1] == Exit(o.status.code)
    ensures o.status.Raised? && plan[o.performed - 1].Run? ==> fails(plan[o.performed - 1].cmd)
  {
    if |plan| == 0 then Outcome(fs, 0, Completed)
    else if plan[0].Exit? then Outcome(fs, 1, Exited(plan[0].code))
    else if plan[0].Crash? then Outcome(fs, 1, Raised(plan[0].reason))
    else match Apply(fs, plan[0], fails)
      case Err(r) => Outcome(fs, 1, Raised(r))
      case Ok(next) =>
        var o := Exec(next, plan[1..], fails);
        Outcome(o.tree, o.performed + 1, o.status)
  }

  /** Carrying out `a + b` is carrying out `a`, then, if `a` ran to its end,
      carrying out `b` on the tree `a` left. */
  lemma {:induction false} ExecAppend(fs: Tree, a: seq<Step>, b: seq<Step>, fails: Command -> bool)
    ensures var o := Exec(fs, a, fails);
      Exec(fs, a + b, fails) ==
        if o.status.Completed? then
          var o2 := Exec(o.tree, b, fails); Outcome(o2.tree, |a| + o2.performed, o2.status)
        else o
  {
    if |a| == 0 {
      assert a + b == b;
    } else {
      assert (a + b)[0] == a[0];
      assert (a + b)[1..] == a[1..] + b;
      if !Terminal(a[0]) && Apply(fs, a[0], fails).Ok? {
        ExecAppend(Apply(fs, a[0], fails).value, a[1..], b, fails);
      }
    }
  }

  /** An outcome one started step later. */
  function Later(o: Outcome): Outcome {
    Outcome(o.tree, o.performed + 1, o.status)
  }

  /** A step that succeeds hands the rest of the plan the tree it made. */
  lemma ExecStepAt(fs: Tree, plan: seq<Step>, k: nat, t: Tree, fails: Command -> bool)
    requires k < |plan| && !Terminal(plan[k]) && Apply(fs, plan[k], fails) == Ok(t)
    ensures Exec(fs, plan[k..], fails) == Later(Exec(t, plan[k + 1..], fails))
  {
    assert plan[k..][0] == plan[k];
    assert plan[k..][1..] == plan[k + 1..];
  }

  /** Every entry below the root lies in a directory. */
  ghost predicate WellFormed(fs: Tree) {
    forall q {:trigger Parent(q)} :: |q| > 0 && fs(q) != Absent ==> fs(Parent(q)) == Dir
  }

  lemma ParentPrefix(a: Path, q: Path)
    ensures IsPrefix(q, a) ==> IsPrefix(Parent(q), a)
    ensures IsPrefix(a, Parent(q)) ==> IsPrefix(a, q)
    ensures IsPrefix(a, q) && |a| < |q| ==> IsPrefix(a, Parent(q))
  {
  }

  /** Below anything that is not a directory there is nothing. */
  lemma {:induction false} AbsentBelow(fs: Tree, x: Path, q: Path)
    requires WellFormed(fs) && fs(x) != Dir && |q| > 0
    ensures fs(x + q) == Absent
    decreases |q|
  {
    var init := q[..|q| - 1];
    assert Parent(x + q) == x + init;
    if |init| > 0 {
      AbsentBelow(fs, x, init);
    } else {
      assert x + init == x;
    }
  }

  /** Above anything that exists there are directories. */
  lemma {:induction false} DirsAbove(fs: Tree, p: Path, i: nat)
    requires WellFormed(fs) && fs(p) != Absent && i < |p|
    ensures fs(p[..i]) == Dir
    decreases |p|
  {
    var up := Parent(p);
    if i < |up| {
      DirsAbove(fs, up, i);
      assert up[..i] == p[..i];
    } else {
      assert p[..i] == up;
    }
  }

  lemma CreateDirectoryWellFormed(fs: Tree, p: Path)
    requires WellFormed(fs) && CreateDirectory(fs, p).Ok?
    ensures WellFormed(CreateDirectory(fs, p).value)
  {
    var r := CreateDirectory(fs, p).value;
    forall q | |q| > 0 && r(q) != Absent ensures r(Parent(q)) == Dir {
      ParentPrefix(p, q);
      if IsPrefix(q, p) && fs(q) == Absent {
        assert Parent(q) == p[..|Parent(q)|];
        assert !IsFile(fs(p[..|Parent(q)|]));
      }
    }
  }

  lemma DeleteTreeWellFormed(fs: Tree, p: Path)
    requires WellFormed(fs) && DeleteTree(fs, p).Ok?
    ensures WellFormed(DeleteTree(fs, p).value)
  {
    var r := DeleteTree(fs, p).value;
    forall q | |q| > 0 && r(q) != Absent ensures r(Parent(q)) == Dir {
      ParentPrefix(p, q);
    }
  }

  lemma WriteFileWellFormed(fs: Tree, p: Path, e: Entry)
    requires WellFormed(fs) && WriteFile(fs, p, e).Ok?
    ensures WellFormed(WriteFile(fs, p, e).value)
  {
    var r := WriteFile(fs, p, e).value;
    forall q | |q| > 0 && r(q) != Absent ensures r(Parent(q)) == Dir {
      assert q != p ==> fs(q) != Absent;
    }
  }

  lemma CopyFileWellFormed(fs: Tree, a: Path, b: Path)
    requires WellFormed(fs) && CopyFile(fs, a, b).Ok?
    ensures WellFormed(CopyFile(fs, a, b).value)
  {
    var r := CopyFile(fs, a, b).value;
    forall q | |q| > 0 && r(q) != Absent ensures r(Parent(q)) == Dir {
      assert q != b ==> fs(q) != Absent;
    }
  }

  lemma MoveTreeWellFormed(fs: Tree, a: Path, b: Path)
    requires WellFormed(fs) && MoveTree(fs, a, b).Ok?
    ensures WellFormed(MoveTree(fs, a, b).value)
  {
    var r := MoveTree(fs, a, b).value;
    forall q | |q| > 0 && r(q) != Absent ensures r(Parent(q)) == Dir {
      ParentPrefix(a, q);
      ParentPrefix(b, q);
      if IsPrefix(b, q) {
        if q == b {
          ParentPrefix(a, b);
          assert !IsPrefix(a, Parent(b));
        } else {
          var src := a + q[|b|..];
          assert |src| > 0 && fs(src) != Absent;
          assert Parent(src) == a + Parent(q)[|b|..];
        }
      }
    }
  }

  /** Every step keeps the tree well formed. */
  lemma ApplyWellFormed(fs: Tree, s: Step, fails: Command -> bool)
    requires WellFormed(fs) && !Terminal(s) && Apply(fs, s, fails).Ok?
    ensures WellFormed(Apply(fs, s, fails).value)
  {
    match s
    case MakeDir(p) => CreateDirectoryWellFormed(fs, p);
    case DeleteFile(p) => WriteFileWellFormed(fs, p, Absent);
    case DeleteDir(p) => DeleteTreeWellFormed(fs, p);
    case DeleteDirIfExists(p) => if fs(p) == Dir { DeleteTreeWellFormed(fs, p); }
    case MoveDir(a, b) => MoveTreeWellFormed(fs, a, b);
    case MoveDirIfExists(a, b) => if fs(a) == Dir { MoveTreeWellFormed(fs, a, b); }
    case CopyFileIfExists(a, b) => if IsFile(fs(a)) { CopyFileWellFormed(fs, a, b); }
    case WriteFromTemplate(t, d, placeholder, value) =>
      WriteFileWellFormed(fs, d, TextFile(Text.Replace(fs(t).text, placeholder, value)));
    case RewriteProject(p, g) =>
      WriteFileWellFormed(fs, p, XmlFile(Xml.RewriteContentReference(fs(p).doc, g).value));
    case _ =>
  }

  /** Carrying out a plan keeps the tree well formed, however it ends. */
  lemma {:induction false} ExecWellFormed(fs: Tree, plan: seq<Step>, fails: Command -> bool)
    requires WellFormed(fs)
    ensures WellFormed(Exec(fs, plan, fails).tree)
  {
    if |plan| > 0 && !Terminal(plan[0]) && Apply(fs, plan[0], fails).Ok? {
      ApplyWellFormed(fs, plan[0], fails);
      ExecWellFormed(Apply(fs, plan[0], fails).value, plan[1..], fails);
    }
  }

  /** A plan whose every step succeeds on the tree the previous one left
      runs to completion and leaves the last of those trees. */
  lemma {:induction false} ExecSucceeds(trees: seq<Tree>, plan: seq<Step>, fails: Command -> bool)
    requires |trees| == |plan| + 1
    requires forall i :: 0 <= i < |plan| ==> !Terminal(plan[i])
    requires forall i :: 0 <= i < |plan| ==> Apply(trees[i], plan[i], fails) == Ok(trees[i + 1])
    ensures Exec(trees[0], plan, fails) == Outcome(trees[|plan|], |plan|, Completed)
  {
    if |plan| > 0 {
      assert Apply(trees[0], plan[0], fails) == Ok(trees[1]);
      ExecSucceeds(trees[1..], plan[1..], fails);
    }
  }
}
