// The macOS application bundle PackageMac builds out of the `dotnet publish`
// output: the published folder P becomes `P/{game}.app/Contents/MacOS`, next
// to an Info.plist made from a template and a Resources folder that receives
// the game's Content folder and icon. The temporary folder `P/../temp` is where
// the bundle is assembled before it is moved into place.

module Bundle {
  import opened Base
  import opened Actions
  import opened FileTree
  import Text

  /** What PackageMac works with: the publish folder taken from the publish
      output, the game name, `{cwd}/{game}.DesktopGL` and the folder of the
      running tool, where PlistTemplate.xml lies. */
  datatype Job = Job(publish: Path, game: string, projectRoot: Path, toolDir: Path)

  /** `Path.GetFullPath(Path.Combine(publishPath, "..", "temp"))`. */
  function TempDir(j: Job): Path {
    Parent(j.publish) + ["temp"]
  }

  /** `Path.GetFullPath(Path.Combine(publishPath, $"{gameName}.app"))`. */
  function AppDir(j: Job): Path {
    j.publish + [j.game + ".app"]
  }

  function ContentsDir(j: Job): Path {
    TempDir(j) + ["Contents"]
  }

  function MacOSDir(j: Job): Path {
    ContentsDir(j) + ["MacOS"]
  }

  function ResourcesDir(j: Job): Path {
    ContentsDir(j) + ["Resources"]
  }

  function PlistFile(j: Job): Path {
    ContentsDir(j) + ["Info.plist"]
  }

  function TemplateFile(j: Job): Path {
    j.toolDir + ["PlistTemplate.xml"]
  }

  function IconFile(j: Job): Path {
    j.projectRoot + ["Icon.icns"]
  }

  const Placeholder := "{gameName}"

  /** The file-system steps of PackageMac after the publish command, in order. */
  function BundleSteps(j: Job): (plan: seq<Step>)
    ensures |plan| == 11
    ensures forall i :: 0 <= i < |plan| ==> !Terminal(plan[i]) && !plan[i].Run?
  {
    [ DeleteDirIfExists(AppDir(j)),
      DeleteDirIfExists(TempDir(j)),
      MakeDir(ContentsDir(j)),
      MoveDir(j.publish, MacOSDir(j)),
      WriteFromTemplate(TemplateFile(j), PlistFile(j), Placeholder, j.game),
      MakeDir(ResourcesDir(j)),
      MoveDirIfExists(MacOSDir(j) + ["Content"], ResourcesDir(j) + ["Content"]),
      MakeDir(ResourcesDir(j)),
      CopyFileIfExists(IconFile(j), ResourcesDir(j) + ["Icon.icns"]),
      MakeDir(j.publish),
      MoveDir(TempDir(j), AppDir(j)) ]
  }

  /** What the bundle steps need of the tree to run through: the published
      folder exists and is not itself called `temp`, nothing but a folder
      stands where the temporary folder goes, the template exists, and
      neither the template nor the icon lies inside the two folders being
      rearranged. */
  ghost predicate Ready(fs: Tree, j: Job) {
    && WellFormed(fs)
    && |j.publish| > 0 && j.publish[|j.publish| - 1] != "temp"
    && fs(j.publish) == Dir
    && !IsFile(fs(TempDir(j)))
    && fs(TemplateFile(j)).TextFile?
    && !IsPrefix(j.publish, TemplateFile(j)) && !IsPrefix(TempDir(j), TemplateFile(j))
    && !IsPrefix(j.publish, IconFile(j)) && !IsPrefix(TempDir(j), IconFile(j))
  }

  /** The published folder and the temporary folder are disjoint subtrees. */
  lemma Apart(j: Job, x: Path)
    requires |j.publish| > 0 && j.publish[|j.publish| - 1] != "temp"
    ensures !(IsPrefix(j.publish, x) && IsPrefix(TempDir(j), x))
  {
    var n := |j.publish|;
    assert IsPrefix(j.publish, x) ==> x[n - 1] == j.publish[n - 1];
    assert IsPrefix(TempDir(j), x) ==> x[n - 1] == TempDir(j)[n - 1] == "temp";
  }

  /** A prefix of a path below the temporary folder that does not reach the
      temporary folder lies above the published folder. */
  lemma AboveTemp(j: Job, x: Path, rest: Path)
    requires |j.publish| > 0
    requires IsPrefix(x, TempDir(j) + rest) && !IsPrefix(TempDir(j), x)
    ensures IsPrefix(x, Parent(j.publish)) && |x| < |j.publish|
  {
    var T := TempDir(j);
    assert IsPrefix(T, T + rest);
    PrefixesComparable(T, x, T + rest);
    assert IsPrefix(x, T);
  }

  lemma AncestorsAreDirs(fs: Tree, j: Job)
    requires WellFormed(fs) && |j.publish| > 0 && fs(j.publish) == Dir
    ensures forall x :: IsPrefix(x, Parent(j.publish)) ==> fs(x) == Dir
  {
    forall x | IsPrefix(x, Parent(j.publish)) ensures fs(x) == Dir {
      DirsAbove(fs, j.publish, |x|);
      assert x == j.publish[..|x|];
    }
  }

  /** A bundle name never collides with the Content folder. */
  lemma AppIsNotContent(game: string)
    ensures game + ".app" != "Content"
  {
    assert (game + ".app")[|game + ".app"| - 1] == 'p';
  }

  // The tree after each step, described point by point in terms of the tree
  // before the first step.

  ghost function Cleaned(fs: Tree, j: Job, x: Path): Entry {
    if IsPrefix(AppDir(j), x) && fs(AppDir(j)) == Dir then Absent else fs(x)
  }

  ghost function AfterContents(fs: Tree, j: Job, x: Path): Entry {
    if IsPrefix(x, ContentsDir(j)) then Dir
    else if IsPrefix(TempDir(j), x) then Absent
    else Cleaned(fs, j, x)
  }

  ghost function AfterMove(fs: Tree, j: Job, x: Path): Entry {
    if IsPrefix(MacOSDir(j), x) then Cleaned(fs, j, j.publish + x[|MacOSDir(j)|..])
    else if IsPrefix(j.publish, x) then Absent
    else AfterContents(fs, j, x)
  }

  /** The template with every placeholder replaced by the game name. */
  ghost function PlistEntry(fs: Tree, j: Job): Entry {
    match fs(TemplateFile(j))
    case TextFile(t) => TextFile(Text.Replace(t, Placeholder, j.game))
    case _ => Absent
  }

  ghost function AfterPlist(fs: Tree, j: Job, x: Path): Entry {
    if x == PlistFile(j) then PlistEntry(fs, j) else AfterMove(fs, j, x)
  }

  ghost function AfterResources(fs: Tree, j: Job, x: Path): Entry {
    if x == ResourcesDir(j) then Dir else AfterPlist(fs, j, x)
  }

  /** Was there a Content folder in the published output? */
  ghost predicate HasContent(fs: Tree, j: Job) {
    fs(j.publish + ["Content"]) == Dir
  }

  ghost function AfterContent(fs: Tree, j: Job, x: Path): Entry {
    var moved := ResourcesDir(j) + ["Content"];
    if HasContent(fs, j) && IsPrefix(moved, x) then fs(j.publish + ["Content"] + x[|moved|..])
    else if HasContent(fs, j) && IsPrefix(MacOSDir(j) + ["Content"], x) then Absent
    else AfterResources(fs, j, x)
  }

  ghost function AfterIcon(fs: Tree, j: Job, x: Path): Entry {
    if x == ResourcesDir(j) + ["Icon.icns"] && IsFile(fs(IconFile(j))) then fs(IconFile(j))
    else AfterContent(fs, j, x)
  }

  ghost function AfterRecreate(fs: Tree, j: Job, x: Path): Entry {
    if IsPrefix(x, j.publish) then Dir else AfterIcon(fs, j, x)
  }

  /** The tree PackageMac leaves: the assembled folder moved to `{game}.app`. */
  ghost function Bundled(fs: Tree, j: Job, x: Path): Entry {
    if IsPrefix(AppDir(j), x) then AfterRecreate(fs, j, TempDir(j) + x[|AppDir(j)|..])
    else if IsPrefix(TempDir(j), x) then Absent
    else AfterRecreate(fs, j, x)
  }

  // One lemma per step of BundleSteps, in order: the step succeeds on the
  // tree the previous one left, and the tree it leaves is the next
  // description above.

  lemma StepDeleteApp(fs: Tree, j: Job, fails: Command -> bool) returns (t1: Tree)
    ensures Apply(fs, DeleteDirIfExists(AppDir(j)), fails) == Ok(t1)
    ensures forall x :: t1(x) == Cleaned(fs, j, x)
  {
    t1 := Apply(fs, DeleteDirIfExists(AppDir(j)), fails).value;
  }

  lemma StepDeleteTemp(fs: Tree, t1: Tree, j: Job, fails: Command -> bool) returns (t2: Tree)
    requires Ready(fs, j)
    requires forall x :: t1(x) == Cleaned(fs, j, x)
    ensures Apply(t1, DeleteDirIfExists(TempDir(j)), fails) == Ok(t2)
    ensures forall x :: IsPrefix(TempDir(j), x) ==> t2(x) == Absent
    ensures forall x :: !IsPrefix(TempDir(j), x) ==> t2(x) == Cleaned(fs, j, x)
  {
    var P, T, A := j.publish, TempDir(j), AppDir(j);
    t2 := Apply(t1, DeleteDirIfExists(T), fails).value;
    forall x | IsPrefix(T, x) ensures t2(x) == Absent {
      if t1(T) != Dir {
        if IsPrefix(A, x) {
          ParentPrefix(P, A);
          Apart(j, x);
        }
        if x != T {
          AbsentBelow(fs, T, x[|T|..]);
          assert T + x[|T|..] == x;
        }
      }
    }
  }

  lemma StepMakeContents(fs: Tree, t2: Tree, j: Job, fails: Command -> bool) returns (t3: Tree)
    requires Ready(fs, j)
    requires forall x :: IsPrefix(TempDir(j), x) ==> t2(x) == Absent
    requires forall x :: !IsPrefix(TempDir(j), x) ==> t2(x) == Cleaned(fs, j, x)
    ensures Apply(t2, MakeDir(ContentsDir(j)), fails) == Ok(t3)
    ensures forall x :: t3(x) == AfterContents(fs, j, x)
  {
    var P, T, A, C := j.publish, TempDir(j), AppDir(j), ContentsDir(j);
    AncestorsAreDirs(fs, j);
    forall i | 0 <= i <= |C| ensures !IsFile(t2(C[..i])) {
      if !IsPrefix(T, C[..i]) {
        AboveTemp(j, C[..i], ["Contents"]);
        assert !IsPrefix(A, C[..i]);
      }
    }
    t3 := CreateDirectory(t2, C).value;
    forall x | !IsPrefix(T, x) && IsPrefix(x, C) ensures t3(x) == Cleaned(fs, j, x) {
      AboveTemp(j, x, ["Contents"]);
      assert !IsPrefix(A, x);
    }
  }

  lemma StepMoveOutput(fs: Tree, t3: Tree, j: Job, fails: Command -> bool) returns (t4: Tree)
    requires Ready(fs, j)
    requires forall x :: t3(x) == AfterContents(fs, j, x)
    ensures Apply(t3, MoveDir(j.publish, MacOSDir(j)), fails) == Ok(t4)
    ensures forall x :: t4(x) == AfterMove(fs, j, x)
  {
    var P, T, M := j.publish, TempDir(j), MacOSDir(j);
    Apart(j, P);
    Apart(j, M);
    assert t3(P) == Dir;
    assert t3(M) == Absent;
    assert Parent(M) == ContentsDir(j);
    t4 := MoveTree(t3, P, M).value;
    forall x | IsPrefix(M, x) ensures t4(x) == AfterMove(fs, j, x) {
      var y := P + x[|M|..];
      Apart(j, y);
      assert !IsPrefix(y, ContentsDir(j));
    }
  }

  lemma StepPlist(fs: Tree, t4: Tree, j: Job, fails: Command -> bool) returns (t5: Tree)
    requires Ready(fs, j)
    requires forall x :: t4(x) == AfterMove(fs, j, x)
    ensures Apply(t4, WriteFromTemplate(TemplateFile(j), PlistFile(j), Placeholder, j.game), fails) == Ok(t5)
    ensures forall x :: t5(x) == AfterPlist(fs, j, x)
  {
    var Tpl, I, C := TemplateFile(j), PlistFile(j), ContentsDir(j);
    AncestorsAreDirs(fs, j);
    assert !IsPrefix(MacOSDir(j), Tpl);
    if IsPrefix(Tpl, C) {
      AboveTemp(j, Tpl, ["Contents"]);
    }
    assert t4(Tpl) == fs(Tpl);
    Diverge(C, "MacOS", "Info.plist", I);
    Apart(j, I);
    assert t4(I) == Absent;
    assert Parent(I) == C;
    Apart(j, C);
    t5 := WriteFile(t4, I, PlistEntry(fs, j)).value;
  }

  lemma StepMakeResources(fs: Tree, t5: Tree, j: Job, fails: Command -> bool) returns (t6: Tree)
    requires Ready(fs, j)
    requires forall x :: t5(x) == AfterPlist(fs, j, x)
    ensures Apply(t5, MakeDir(ResourcesDir(j)), fails) == Ok(t6)
    ensures forall x :: t6(x) == AfterResources(fs, j, x)
  {
    var R := ResourcesDir(j);
    AncestorsAreDirs(fs, j);
    Diverge(ContentsDir(j), "MacOS", "Resources", R);
    Diverge(ContentsDir(j), "Info.plist", "Resources", R);
    forall x | IsPrefix(x, R) ensures t5(x) == (if x == R then Absent else Dir) {
      Apart(j, x);
      if !IsPrefix(TempDir(j), x) {
        AboveTemp(j, x, ["Contents", "Resources"]);
      } else if x != R {
        assert x == R[..|x|];
        assert IsPrefix(x, ContentsDir(j));
      }
    }
    forall i | 0 <= i <= |R| ensures !IsFile(t5(R[..i])) {
      assert IsPrefix(R[..i], R);
    }
    t6 := CreateDirectory(t5, R).value;
  }

  /** Before the move, `MacOS/Content` holds the published Content folder. */
  lemma ContentSource(fs: Tree, j: Job, rest: Path)
    requires Ready(fs, j)
    ensures AfterResources(fs, j, MacOSDir(j) + ["Content"] + rest) == fs(j.publish + ["Content"] + rest)
  {
    var P, M := j.publish, MacOSDir(j);
    var y := M + ["Content"] + rest;
    AppIsNotContent(j.game);
    assert y == M + (["Content"] + rest);
    assert y[|M|..] == ["Content"] + rest;
    var z := P + ["Content"] + rest;
    assert P + y[|M|..] == z;
    Apart(j, z);
    Diverge(P, j.game + ".app", "Content", z);
    Apart(j, y);
    Diverge(ContentsDir(j), "Resources", "MacOS", y);
    Diverge(ContentsDir(j), "Info.plist", "MacOS", y);
  }

  /** Before the move, `Resources` is an empty folder. */
  lemma ContentTarget(fs: Tree, j: Job)
    requires Ready(fs, j)
    ensures AfterResources(fs, j, ResourcesDir(j)) == Dir
    ensures AfterResources(fs, j, ResourcesDir(j) + ["Content"]) == Absent
  {
    var to := ResourcesDir(j) + ["Content"];
    Apart(j, to);
    Diverge(ContentsDir(j), "MacOS", "Resources", to);
    Diverge(ContentsDir(j), "Info.plist", "Resources", to);
  }

  /** With a Content folder in the output, the move finds both ends ready
      and carries the folder's subtree over. */
  lemma MovedContent(fs: Tree, t6: Tree, j: Job)
    requires Ready(fs, j) && HasContent(fs, j)
    requires forall x :: t6(x) == AfterResources(fs, j, x)
    ensures var r := MoveTree(t6, MacOSDir(j) + ["Content"], ResourcesDir(j) + ["Content"]);
      r.Ok? && forall x :: r.value(x) == AfterContent(fs, j, x)
  {
    var from, to := MacOSDir(j) + ["Content"], ResourcesDir(j) + ["Content"];
    ContentSource(fs, j, []);
    assert from + [] == from;
    assert j.publish + ["Content"] + [] == j.publish + ["Content"];
    ContentTarget(fs, j);
    assert Parent(to) == ResourcesDir(j);
    var t7 := MoveTree(t6, from, to).value;
    forall x ensures t7(x) == AfterContent(fs, j, x) {
      if IsPrefix(to, x) {
        ContentSource(fs, j, x[|to|..]);
      }
    }
  }

  lemma StepMoveContent(fs: Tree, t6: Tree, j: Job, fails: Command -> bool) returns (t7: Tree)
    requires Ready(fs, j)
    requires forall x :: t6(x) == AfterResources(fs, j, x)
    ensures Apply(t6, MoveDirIfExists(MacOSDir(j) + ["Content"], ResourcesDir(j) + ["Content"]), fails) == Ok(t7)
    ensures forall x :: t7(x) == AfterContent(fs, j, x)
  {
    var from, to := MacOSDir(j) + ["Content"], ResourcesDir(j) + ["Content"];
    if HasContent(fs, j) {
      MovedContent(fs, t6, j);
      ContentSource(fs, j, []);
      assert from + [] == from;
      assert j.publish + ["Content"] + [] == j.publish + ["Content"];
      t7 := MoveTree(t6, from, to).value;
    } else {
      ContentSource(fs, j, []);
      assert from + [] == from;
      assert j.publish + ["Content"] + [] == j.publish + ["Content"];
      t7 := t6;
    }
  }

  lemma StepMakeResourcesAgain(fs: Tree, t7: Tree, j: Job, fails: Command -> bool) returns (t8: Tree)
    requires Ready(fs, j)
    requires forall x :: t7(x) == AfterContent(fs, j, x)
    ensures Apply(t7, MakeDir(ResourcesDir(j)), fails) == Ok(t8)
    ensures forall x :: t8(x) == AfterContent(fs, j, x)
  {
    var R := ResourcesDir(j);
    AncestorsAreDirs(fs, j);
    forall x | IsPrefix(x, R) ensures t7(x) == Dir {
      Apart(j, x);
      if !IsPrefix(TempDir(j), x) {
        AboveTemp(j, x, ["Contents", "Resources"]);
      } else if x != R {
        assert x == R[..|x|];
        assert IsPrefix(x, ContentsDir(j));
      }
    }
    forall i | 0 <= i <= |R| ensures !IsFile(t7(R[..i])) {
      assert IsPrefix(R[..i], R);
    }
    t8 := CreateDirectory(t7, R).value;
  }

  lemma IconUntouched(fs: Tree, j: Job)
    requires Ready(fs, j)
    ensures AfterContent(fs, j, IconFile(j)) == fs(IconFile(j))
  {
    var Icon := IconFile(j);
    AncestorsAreDirs(fs, j);
    if IsPrefix(Icon, ContentsDir(j)) {
      AboveTemp(j, Icon, ["Contents"]);
    }
  }

  lemma IconDestination(fs: Tree, j: Job)
    requires Ready(fs, j)
    ensures AfterContent(fs, j, ResourcesDir(j) + ["Icon.icns"]) == Absent
    ensures AfterContent(fs, j, ResourcesDir(j)) == Dir
  {
    var C, M, R := ContentsDir(j), MacOSDir(j), ResourcesDir(j);
    var dest := R + ["Icon.icns"];
    Diverge(R, "Content", "Icon.icns", dest);
    Diverge(C, "MacOS", "Resources", dest);
    Diverge(C, "Info.plist", "Resources", dest);
    assert IsPrefix(M, M + ["Content"]);
    Apart(j, dest);
    Diverge(C, "MacOS", "Resources", R);
    Diverge(C, "MacOS", "Resources", R + ["Content"]);
    Apart(j, R);
  }

  lemma StepCopyIcon(fs: Tree, t8: Tree, j: Job, fails: Command -> bool) returns (t9: Tree)
    requires Ready(fs, j)
    requires forall x :: t8(x) == AfterContent(fs, j, x)
    ensures Apply(t8, CopyFileIfExists(IconFile(j), ResourcesDir(j) + ["Icon.icns"]), fails) == Ok(t9)
    ensures forall x :: t9(x) == AfterIcon(fs, j, x)
  {
    var dest := ResourcesDir(j) + ["Icon.icns"];
    IconUntouched(fs, j);
    IconDestination(fs, j);
    assert Parent(dest) == ResourcesDir(j);
    t9 := Apply(t8, CopyFileIfExists(IconFile(j), dest), fails).value;
  }

  lemma StepRecreateOutput(fs: Tree, t9: Tree, j: Job, fails: Command -> bool) returns (t10: Tree)
    requires Ready(fs, j)
    requires forall x :: t9(x) == AfterIcon(fs, j, x)
    ensures Apply(t9, MakeDir(j.publish), fails) == Ok(t10)
    ensures forall x :: t10(x) == AfterRecreate(fs, j, x)
  {
    var P := j.publish;
    forall i | 0 <= i <= |P| ensures !IsFile(t9(P[..i])) {
      Apart(j, P[..i]);
      if i < |P| {
        assert P[..i] == Parent(P)[..i];
        assert IsPrefix(P[..i], ContentsDir(j));
      }
    }
    t10 := CreateDirectory(t9, P).value;
  }

  /** Before the last move, the assembled folder exists and `{game}.app`
      does not. */
  lemma BundleEnds(fs: Tree, j: Job)
    requires Ready(fs, j)
    ensures AfterRecreate(fs, j, TempDir(j)) == Dir
    ensures AfterRecreate(fs, j, AppDir(j)) == Absent
    ensures AfterRecreate(fs, j, j.publish) == Dir
  {
    Apart(j, TempDir(j));
    Apart(j, AppDir(j));
    assert IsPrefix(TempDir(j), ContentsDir(j));
  }

  lemma StepMoveBundle(fs: Tree, t10: Tree, j: Job, fails: Command -> bool) returns (t11: Tree)
    requires Ready(fs, j)
    requires forall x :: t10(x) == AfterRecreate(fs, j, x)
    ensures Apply(t10, MoveDir(TempDir(j), AppDir(j)), fails) == Ok(t11)
    ensures forall x :: t11(x) == Bundled(fs, j, x)
  {
    BundleEnds(fs, j);
    assert Parent(AppDir(j)) == j.publish;
    assert !IsPrefix(TempDir(j), AppDir(j)) by {
      Apart(j, AppDir(j));
    }
    t11 := MoveTree(t10, TempDir(j), AppDir(j)).value;
  }

  /** PackageMac's file-system steps run through on a tree that is ready for
      them, and leave the tree described by Bundled. */
  lemma BundleRuns(fs: Tree, j: Job, fails: Command -> bool)
    requires Ready(fs, j)
    ensures Exec(fs, BundleSteps(j), fails).status == Completed
    ensures Exec(fs, BundleSteps(j), fails).performed == 11
    ensures forall x :: Exec(fs, BundleSteps(j), fails).tree(x) == Bundled(fs, j, x)
  {
    var t4 := BundleStart(fs, j, fails);
    var t6 := BundleOutput(fs, t4, j, fails);
    var t9 := BundleResources(fs, t6, j, fails);
    BundleFinish(fs, t9, j, fails);
  }

  /** The first four steps, up to the published output moved into MacOS. */
  lemma BundleStart(fs: Tree, j: Job, fails: Command -> bool) returns (t4: Tree)
    requires Ready(fs, j)
    ensures forall x :: t4(x) == AfterMove(fs, j, x)
    ensures Exec(fs, BundleSteps(j), fails) ==
      Later(Later(Later(Later(Exec(t4, BundleSteps(j)[4..], fails)))))
  {
    var t1 := StepDeleteApp(fs, j, fails);
    var t2 := StepDeleteTemp(fs, t1, j, fails);
    var t3 := StepMakeContents(fs, t2, j, fails);
    t4 := StepMoveOutput(fs, t3, j, fails);
    var p := BundleSteps(j);
    ExecStepAt(fs, p, 0, t1, fails);
    ExecStepAt(t1, p, 1, t2, fails);
    ExecStepAt(t2, p, 2, t3, fails);
    ExecStepAt(t3, p, 3, t4, fails);
    assert p[0..] == p;
  }

  /** The next two: the Info.plist written and the Resources folder made. */
  lemma BundleOutput(fs: Tree, t4: Tree, j: Job, fails: Command -> bool) returns (t6: Tree)
    requires Ready(fs, j)
    requires forall x :: t4(x) == AfterMove(fs, j, x)
    ensures forall x :: t6(x) == AfterResources(fs, j, x)
    ensures Exec(t4, BundleSteps(j)[4..], fails) ==
      Later(Later(Exec(t6, BundleSteps(j)[6..], fails)))
  {
    var t5 := StepPlist(fs, t4, j, fails);
    t6 := StepMakeResources(fs, t5, j, fails);
    var p := BundleSteps(j);
    ExecStepAt(t4, p, 4, t5, fails);
    ExecStepAt(t5, p, 5, t6, fails);
  }

  /** The next three: the Content folder and the icon into Resources. */
  lemma BundleResources(fs: Tree, t6: Tree, j: Job, fails: Command -> bool) returns (t9: Tree)
    requires Ready(fs, j)
    requires forall x :: t6(x) == AfterResources(fs, j, x)
    ensures forall x :: t9(x) == AfterIcon(fs, j, x)
    ensures Exec(t6, BundleSteps(j)[6..], fails) ==
      Later(Later(Later(Exec(t9, BundleSteps(j)[9..], fails))))
  {
    var t7 := StepMoveContent(fs, t6, j, fails);
    var t8 := StepMakeResourcesAgain(fs, t7, j, fails);
    t9 := StepCopyIcon(fs, t8, j, fails);
    var p := BundleSteps(j);
    ExecStepAt(t6, p, 6, t7, fails);
    ExecStepAt(t7, p, 7, t8, fails);
    ExecStepAt(t8, p, 8, t9, fails);
  }

  /** The last two: the output folder made again and the bundle moved into it. */
  lemma BundleFinish(fs: Tree, t9: Tree, j: Job, fails: Command -> bool)
    requires Ready(fs, j)
    requires forall x :: t9(x) == AfterIcon(fs, j, x)
    ensures var o := Exec(t9, BundleSteps(j)[9..], fails);
      o.status == Completed && o.performed == 2 && forall x :: o.tree(x) == Bundled(fs, j, x)
  {
    var t10 := StepRecreateOutput(fs, t9, j, fails);
    var t11 := StepMoveBundle(fs, t10, j, fails);
    var p := BundleSteps(j);
    ExecStepAt(t9, p, 9, t10, fails);
    ExecStepAt(t10, p, 10, t11, fails);
    assert p[11..] == [];
  }

  /** BundleRuns at one point. */
  lemma ExecBundled(fs: Tree, j: Job, fails: Command -> bool, x: Path)
    requires Ready(fs, j)
    ensures Exec(fs, BundleSteps(j), fails).tree(x) == Bundled(fs, j, x)
  {
    BundleRuns(fs, j, fails);
  }

  // What the bundle looks like, point by point.

  /** Inside `{game}.app` lies what was assembled in the temporary folder. */
  lemma InApp(fs: Tree, j: Job, r: Path)
    ensures Bundled(fs, j, AppDir(j) + r) == AfterRecreate(fs, j, TempDir(j) + r)
  {
    assert (AppDir(j) + r)[|AppDir(j)|..] == r;
  }

  /** Below the temporary folder nothing reaches back above it. */
  lemma TempSide(fs: Tree, j: Job, x: Path)
    requires Ready(fs, j) && IsPrefix(TempDir(j), x)
    ensures AfterRecreate(fs, j, x) == AfterIcon(fs, j, x)
    ensures AfterMove(fs, j, x) ==
      if IsPrefix(MacOSDir(j), x) then Cleaned(fs, j, j.publish + x[|MacOSDir(j)|..])
      else if IsPrefix(x, ContentsDir(j)) then Dir
      else Absent
  {
    Apart(j, x);
  }

  lemma AssembledFolders(fs: Tree, j: Job)
    requires Ready(fs, j)
    ensures AfterRecreate(fs, j, TempDir(j)) == Dir
    ensures AfterRecreate(fs, j, ContentsDir(j)) == Dir
    ensures AfterRecreate(fs, j, ResourcesDir(j)) == Dir
  {
    var C, R := ContentsDir(j), ResourcesDir(j);
    TempSide(fs, j, TempDir(j));
    TempSide(fs, j, C);
    TempSide(fs, j, R);
    Diverge(C, "MacOS", "Resources", R);
    Diverge(C, "MacOS", "Resources", R + ["Icon.icns"]);
    Diverge(C, "MacOS", "Resources", R + ["Content"]);
    assert IsPrefix(MacOSDir(j), MacOSDir(j) + ["Content"]);
    assert IsPrefix(TempDir(j), C);
  }

  lemma AssembledPlist(fs: Tree, j: Job)
    requires Ready(fs, j)
    ensures AfterRecreate(fs, j, PlistFile(j))
      == TextFile(Text.Replace(fs(TemplateFile(j)).text, Placeholder, j.game))
  {
    var C, I, R := ContentsDir(j), PlistFile(j), ResourcesDir(j);
    TempSide(fs, j, I);
    Diverge(C, "Resources", "Info.plist", I);
    Diverge(C, "MacOS", "Info.plist", I);
    assert IsPrefix(R, R + ["Icon.icns"]);
    assert IsPrefix(R, R + ["Content"]);
    assert IsPrefix(MacOSDir(j), MacOSDir(j) + ["Content"]);
  }

  /** `{game}.app/Contents/Resources` exists afterwards. */
  lemma BundleLayout(fs: Tree, j: Job, fails: Command -> bool)
    requires Ready(fs, j)
    ensures var tree := Exec(fs, BundleSteps(j), fails).tree;
      var contents := AppDir(j) + ["Contents"];
      tree(AppDir(j)) == Dir && tree(contents) == Dir && tree(contents + ["Resources"]) == Dir
  {
    var contents := AppDir(j) + ["Contents"];
    ExecBundled(fs, j, fails, AppDir(j));
    ExecBundled(fs, j, fails, contents);
    ExecBundled(fs, j, fails, contents + ["Resources"]);
    BundledFolders(fs, j);
  }

  /** `{game}.app/Contents/Info.plist` is the template with the game's name
      in place of the placeholder. */
  lemma BundlePlist(fs: Tree, j: Job, fails: Command -> bool)
    requires Ready(fs, j)
    ensures Exec(fs, BundleSteps(j), fails).tree(AppDir(j) + ["Contents", "Info.plist"])
      == TextFile(Text.Replace(fs(TemplateFile(j)).text, Placeholder, j.game))
  {
    ExecBundled(fs, j, fails, AppDir(j) + ["Contents", "Info.plist"]);
    BundledPlist(fs, j);
  }

  lemma BundledFolders(fs: Tree, j: Job)
    requires Ready(fs, j)
    ensures var contents := AppDir(j) + ["Contents"];
      && Bundled(fs, j, AppDir(j)) == Dir
      && Bundled(fs, j, contents) == Dir
      && Bundled(fs, j, contents + ["Resources"]) == Dir
  {
    var A, T := AppDir(j), TempDir(j);
    InApp(fs, j, []);
    assert A + [] == A && T + [] == T;
    InApp(fs, j, ["Contents"]);
    assert T + ["Contents"] == ContentsDir(j);
    InApp(fs, j, ["Contents", "Resources"]);
    assert A + ["Contents"] + ["Resources"] == A + ["Contents", "Resources"];
    assert T + ["Contents", "Resources"] == ResourcesDir(j);
    AssembledFolders(fs, j);
  }

  lemma BundledPlist(fs: Tree, j: Job)
    requires Ready(fs, j)
    ensures Bundled(fs, j, AppDir(j) + ["Contents", "Info.plist"])
      == TextFile(Text.Replace(fs(TemplateFile(j)).text, Placeholder, j.game))
  {
    InApp(fs, j, ["Contents", "Info.plist"]);
    assert TempDir(j) + ["Contents", "Info.plist"] == PlistFile(j);
    AssembledPlist(fs, j);
  }

  lemma AssembledMacOS(fs: Tree, j: Job, q: Path)
    requires Ready(fs, j)
    requires |q| > 0 ==> q[0] != j.game + ".app"
    requires |q| > 0 && HasContent(fs, j) ==> q[0] != "Content"
    ensures AfterRecreate(fs, j, MacOSDir(j) + q) == fs(j.publish + q)
  {
    var P, C, M, R := j.publish, ContentsDir(j), MacOSDir(j), ResourcesDir(j);
    var x := M + q;
    TempSide(fs, j, x);
    Diverge(C, "Resources", "MacOS", x);
    Diverge(C, "Info.plist", "MacOS", x);
    assert IsPrefix(R, R + ["Icon.icns"]) && IsPrefix(R, R + ["Content"]);
    assert x[|M|..] == q;
    Apart(j, P + q);
    if |q| > 0 {
      Diverge(P, j.game + ".app", q[0], P + q);
      if HasContent(fs, j) {
        Diverge(M, "Content", q[0], x);
      }
    }
  }

  /** What was published stays in `{game}.app/Contents/MacOS`, except a
      Content folder, which moves, and a stale bundle, which was removed. */
  lemma BundleKeepsOutput(fs: Tree, j: Job, fails: Command -> bool, q: Path)
    requires Ready(fs, j)
    requires |q| > 0 ==> q[0] != j.game + ".app"
    requires |q| > 0 && HasContent(fs, j) ==> q[0] != "Content"
    ensures Exec(fs, BundleSteps(j), fails).tree(AppDir(j) + ["Contents", "MacOS"] + q) == fs(j.publish + q)
  {
    ExecBundled(fs, j, fails, AppDir(j) + ["Contents", "MacOS"] + q);
    BundledKeepsOutput(fs, j, q);
  }

  lemma BundledKeepsOutput(fs: Tree, j: Job, q: Path)
    requires Ready(fs, j)
    requires |q| > 0 ==> q[0] != j.game + ".app"
    requires |q| > 0 && HasContent(fs, j) ==> q[0] != "Content"
    ensures Bundled(fs, j, AppDir(j) + ["Contents", "MacOS"] + q) == fs(j.publish + q)
  {
    InApp(fs, j, ["Contents", "MacOS"] + q);
    assert AppDir(j) + ["Contents", "MacOS"] + q == AppDir(j) + (["Contents", "MacOS"] + q);
    assert TempDir(j) + (["Contents", "MacOS"] + q) == MacOSDir(j) + q;
    AssembledMacOS(fs, j, q);
  }

  lemma AssembledContent(fs: Tree, j: Job, q: Path)
    requires Ready(fs, j) && HasContent(fs, j)
    ensures AfterRecreate(fs, j, ResourcesDir(j) + ["Content"] + q) == fs(j.publish + ["Content"] + q)
  {
    var R := ResourcesDir(j);
    var x := R + ["Content"] + q;
    TempSide(fs, j, x);
    Diverge(R, "Icon.icns", "Content", x);
    assert x[|R + ["Content"]|..] == q;
  }

  /** The published Content folder ends up in `{game}.app/Contents/Resources`. */
  lemma BundleMovesContent(fs: Tree, j: Job, fails: Command -> bool, q: Path)
    requires Ready(fs, j) && HasContent(fs, j)
    ensures Exec(fs, BundleSteps(j), fails).tree(AppDir(j) + ["Contents", "Resources", "Content"] + q)
      == fs(j.publish + ["Content"] + q)
  {
    ExecBundled(fs, j, fails, AppDir(j) + ["Contents", "Resources", "Content"] + q);
    BundledMovesContent(fs, j, q);
  }

  lemma BundledMovesContent(fs: Tree, j: Job, q: Path)
    requires Ready(fs, j) && HasContent(fs, j)
    ensures Bundled(fs, j, AppDir(j) + ["Contents", "Resources", "Content"] + q)
      == fs(j.publish + ["Content"] + q)
  {
    var r := ["Contents", "Resources", "Content"] + q;
    InApp(fs, j, r);
    assert AppDir(j) + ["Contents", "Resources", "Content"] + q == AppDir(j) + r;
    assert TempDir(j) + r == ResourcesDir(j) + ["Content"] + q;
    AssembledContent(fs, j, q);
  }

  /** The project's icon, if there is one, is copied into Resources. */
  lemma BundleIcon(fs: Tree, j: Job, fails: Command -> bool)
    requires Ready(fs, j)
    ensures Exec(fs, BundleSteps(j), fails).tree(AppDir(j) + ["Contents", "Resources", "Icon.icns"])
      == if IsFile(fs(IconFile(j))) then fs(IconFile(j)) else Absent
  {
    ExecBundled(fs, j, fails, AppDir(j) + ["Contents", "Resources", "Icon.icns"]);
    BundledIcon(fs, j);
  }

  lemma BundledIcon(fs: Tree, j: Job)
    requires Ready(fs, j)
    ensures Bundled(fs, j, AppDir(j) + ["Contents", "Resources", "Icon.icns"])
      == if IsFile(fs(IconFile(j))) then fs(IconFile(j)) else Absent
  {
    var r := ["Contents", "Resources", "Icon.icns"];
    InApp(fs, j, r);
    assert TempDir(j) + r == ResourcesDir(j) + ["Icon.icns"];
    TempSide(fs, j, ResourcesDir(j) + ["Icon.icns"]);
    IconDestination(fs, j);
  }

  /** The temporary folder is gone afterwards. */
  lemma BundleClearsTemp(fs: Tree, j: Job, fails: Command -> bool, x: Path)
    requires Ready(fs, j) && IsPrefix(TempDir(j), x)
    ensures Exec(fs, BundleSteps(j), fails).tree(x) == Absent
  {
    ExecBundled(fs, j, fails, x);
    BundledClearsTemp(fs, j, x);
  }

  lemma BundledClearsTemp(fs: Tree, j: Job, x: Path)
    requires Ready(fs, j) && IsPrefix(TempDir(j), x)
    ensures Bundled(fs, j, x) == Absent
  {
    ParentPrefix(j.publish, AppDir(j));
    Apart(j, x);
  }

  /** The publish folder holds nothing but the bundle afterwards. */
  lemma BundleOnlyInOutput(fs: Tree, j: Job, fails: Command -> bool, x: Path)
    requires Ready(fs, j) && IsPrefix(j.publish, x) && !IsPrefix(AppDir(j), x)
    ensures Exec(fs, BundleSteps(j), fails).tree(x) == if x == j.publish then Dir else Absent
  {
    ExecBundled(fs, j, fails, x);
    BundledOnlyInOutput(fs, j, x);
  }

  lemma BundledOnlyInOutput(fs: Tree, j: Job, x: Path)
    requires Ready(fs, j) && IsPrefix(j.publish, x) && !IsPrefix(AppDir(j), x)
    ensures Bundled(fs, j, x) == if x == j.publish then Dir else Absent
  {
    Apart(j, x);
    assert IsPrefix(x, j.publish) ==> x == j.publish;
  }

  /** Nothing outside the publish folder and the temporary folder changes. */
  lemma BundleElsewhere(fs: Tree, j: Job, fails: Command -> bool, x: Path)
    requires Ready(fs, j) && !IsPrefix(j.publish, x) && !IsPrefix(TempDir(j), x)
    ensures Exec(fs, BundleSteps(j), fails).tree(x) == fs(x)
  {
    ExecBundled(fs, j, fails, x);
    BundledElsewhere(fs, j, x);
  }

  lemma BundledElsewhere(fs: Tree, j: Job, x: Path)
    requires Ready(fs, j) && !IsPrefix(j.publish, x) && !IsPrefix(TempDir(j), x)
    ensures Bundled(fs, j, x) == fs(x)
  {
    AncestorsAreDirs(fs, j);
    ParentPrefix(j.publish, AppDir(j));
    if IsPrefix(x, j.publish) {
      assert IsPrefix(x, Parent(j.publish));
    }
  }
}
