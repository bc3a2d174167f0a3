# MonoGame Utils, modelled in Dafny

MonoGame Utils is a small command-line tool for MonoGame game projects. Its
current version is `mgu`; its earlier version is `mgh` (MonoGame Helpers).
It has two verbs:

- `create <gameName> [--desktopgl] [--android] [--ios]` makes a solution
  folder. The folder holds a shared .NET Standard library project and one
  platform project per flag. Each platform project references the library
  and links the library's content file.
- `package [--all | --windows | --linux | --mac | --desktopgl | --android | --ios ...]`
  runs `dotnet publish` for each platform it is asked for. For macOS it then
  rearranges the publish output into a `{game}.app` bundle.

## How the model is built

A **planner** turns the command line into a plan: a sequence of steps.
Steps are defined in `actions.dfy`. There are two kinds:

- **Run**: start an external command, such as `dotnet new` or
  `dotnet publish`.
- **File-system and process steps**: create a directory, delete a file or
  directory, move a directory, copy a file, write a file from a template,
  rewrite a project file, print a line, exit, or throw.

A check the source makes right before acting (`if (Directory.Exists(p))`)
is built into its step. So every plan is a pure function of the arguments
and of what the tool learns from its surroundings. For `mgu package` that
is a `Host` record:

- the current directory;
- the names of its sub-directories;
- what the macOS publish prints;
- the folder of the running tool.

The planners, one per source file:

- `create.dfy` covers `Create.cs`. Both versions of that file are the same.
- `package.dfy` covers the current `Package.cs`.
- `package_early.dfy` covers the earlier `Package.cs`.
- `program.dfy` covers `Program.cs`: the verb switch of `Main` and
  `RunCommands`.

Each loop of the source (the flag loops, `RunCommands`) is a `method` with
a loop. Its `ensures` ties it to the function that is the plan.

`filetree.dfy` carries a plan out (`Exec`) on an abstract file tree. The
tree is a total map from paths to entries: absent, directory, text file,
project file (a parsed XML tree) or data file.

- Each .NET call (`Directory.CreateDirectory`, `Directory.Delete`,
  `Directory.Move`, `File.Copy`, `File.WriteAllText`, `File.Delete`)
  becomes a function. It returns the new tree, or the exception the call
  throws.
- `Environment.Exit` and an escaping exception end the plan.
- Whether an external command fails is an oracle `fails`. A failed command
  raises an exception, as CliWrap does for a non-zero exit code.
- The lemmas prove that every step keeps the tree well formed: everything
  below the root lies in a directory.

`bundle.dfy` follows the eleven file-system steps of `PackageMac` one at a
time, on any tree where they can succeed. It proves where everything ends
up:

- the bundle's folders exist;
- `Info.plist` is the template with the game name filled in;
- the published files sit in `Contents/MacOS`;
- the `Content` folder sits in `Contents/Resources`, and so does the icon
  if the project has one;
- the temporary folder is gone;
- nothing else changes.

`xml.dfy` models the project-file rewrite that `create` performs:

- find the first `MonoGameContentReference` element in document order;
- point its `Include` attribute at the library's content file;
- put a `<Link>` child before its other children.

`text.dfy` holds the string operations of the .NET base library the tool
uses: `LastIndexOf`, `Trim`, `Replace`, `ToLower`, `Split(...).Last()` and
splitting a path into segments.

## Model

| member | source | states |
|---|---|---|
| Actions.Usage | MonoGameUtils/Program.cs:33-51 | the usage text is printed, then the process exits with -1; printing does not end the process |
| Actions.EndsInUsage | MonoGameUtils/Program.cs:50 | whatever came before it, a plan that ends with the usage text ends with Exit(-1) |
| Actions.CommandsThenUsage | MonoGameUtils/Program.cs:33-51 | showing the usage starts no external command |
| Actions.Runs | MonoGameUtils/Program.cs:53-59 | a command array becomes one Run step per command, in array order |
| Actions.Commands | MonoGameUtils/Program.cs:53-59 | a plan never starts more commands than it has steps; CommandsOfRuns, CommandsAppend and CommandsAreRuns tie it to the Run steps |
| Actions.CommandsAreRuns | MonoGameUtils/Program.cs:53-59 | every command a plan starts is one of its Run steps |
| Actions.CommandsAppend | MonoGameUtils/Program.cs:53-59 | the commands of two plans one after the other are the commands of each, in order |
| Actions.CommandsOfRuns | MonoGameUtils/Program.cs:53-59 | Commands undoes Runs: the plan of a command array starts exactly those commands |
| Actions.StopsAtEndAppend | MonoGameUtils/Package.cs:49-52 | gluing two plans, the first not ending the process, keeps every exit and exception at the very end |
| Actions.CommandsNone | MonoGameUtils/Package.cs:132-170 | file-system steps start no external command |
| Actions.OnlyRunsAppend | monogamehelpers/Package.cs:25-55 | two plans of command runs glued together only run commands |
| Actions.Then | MonoGameUtils/Package.cs:49-52 | a later flag's work is added only when the earlier work did not end the process, so no exit is ever followed by another step |
| Actions.StopsAtEndThen | MonoGameUtils/Package.cs:49-52 | adding a flag's work after work that did not end the process keeps every exit at the end |
| Actions.ThenKeepsFirst | MonoGameUtils/Package.cs:49-52 | the earlier work is kept as a prefix, and the later work follows it exactly when the earlier work did not exit |
| Actions.ThenAssociative | MonoGameUtils/Package.cs:49-52 | handling flags one at a time gives the same plan however the flags are grouped |
| Actions.ThenCommands | MonoGameUtils/Package.cs:49-52 | after work that did not exit, the commands started are those of the earlier work, then those of the later work |
| Text.LastIndexOf | MonoGameUtils/Package.cs:123 | -1 exactly when the character is absent; otherwise it is found there and nowhere after |
| Text.TrimStart | MonoGameUtils/Package.cs:123 | a suffix of the text that does not start with white space; everything removed was white space |
| Text.TrimEnd | MonoGameUtils/Package.cs:123 | a prefix of the text that does not end with white space; everything removed was white space |
| Text.Trim | MonoGameUtils/Package.cs:123 | a slice of the text with no white space at either end; the parts removed at the front and at the back were white space |
| Text.TrimStartSpaces | MonoGameUtils/Package.cs:123 | text made only of white space trims away at the front entirely |
| Text.TrimEndSpaces | MonoGameUtils/Package.cs:123 | trailing white space after text that does not end in white space is removed exactly |
| Text.TrimTrailing | MonoGameUtils/Package.cs:123 | trimming text followed by white space gives back the text |
| Text.TrimTrimmed | MonoGameUtils/Package.cs:123 | text with no white space at its ends is left unchanged |
| Text.TrimSkipsSpace | MonoGameUtils/Package.cs:123 | a leading space, such as the one Substring keeps, makes no difference to the trimmed text |
| Text.TrimChars | MonoGameUtils/Package.cs:123 | the trimmed text holds only characters of the original |
| Text.Replace | MonoGameUtils/Package.cs:148 | String.Replace, left to right without overlaps; ReplaceAbsent and ReplaceAround state it: text without the placeholder is unchanged, and at the first occurrence the result is the part before it, the replacement, then the rest replaced |
| Text.ReplaceAbsent | MonoGameUtils/Package.cs:148 | text without the placeholder comes back unchanged |
| Text.ReplaceHead | MonoGameUtils/Package.cs:148 | a placeholder at the front is replaced, and the rest is scanned after it |
| Text.ReplaceSkip | MonoGameUtils/Package.cs:148 | with no placeholder starting at the front, the first character is kept |
| Text.ReplaceFront | MonoGameUtils/Package.cs:148 | the same, for text on its own |
| Text.NoneBeforeTail | MonoGameUtils/Package.cs:148 | dropping the first character keeps "no placeholder starts before the one that follows" |
| Text.ReplaceAround | MonoGameUtils/Package.cs:148 | in a template with a placeholder and no earlier overlapping one, that placeholder becomes the game name and both sides are processed on their own |
| Text.ToLower | MonoGameUtils/Package.cs:42 | same length; each character lower-cased |
| Text.ToLowerIdempotent | MonoGameUtils/Package.cs:42 | no upper-case letter is left, and lower-casing again changes nothing |
| Text.LastSegment | MonoGameUtils/Package.cs:42 | a suffix of the text with no separator in it |
| Text.LastSegmentAfter | MonoGameUtils/Package.cs:42 | the last part of `a.b` is `b` when `b` has no dot, whatever dots `a` holds |
| Text.ParsePath | MonoGameUtils/Package.cs:125-126 | every segment of a parsed path is non-empty and holds no '/' |
| Text.ParseSnoc | MonoGameUtils/Package.cs:125-126 | parsing a path with one more segment at the end gives the parsed path plus that segment |
| Text.ParseJoinSnoc | MonoGameUtils/Package.cs:125-126 | if a path round-trips, it still round-trips with one more segment added |
| Text.ParseJoin | MonoGameUtils/Package.cs:125-126 | ParsePath undoes JoinPath for any list of proper segments |
| Xml.TextHasNoReference | MonoGameUtils/Create.cs:106 | a text node holds no content-reference element |
| Xml.ReferenceBelow | MonoGameUtils/Create.cs:106 | every reference inside an element that is not one itself lies in one of its children |
| Xml.FindFirst | MonoGameUtils/Create.cs:106 | None exactly when the document has no MonoGameContentReference; otherwise the position of one that comes first in document order |
| Xml.FindFirstAmong | MonoGameUtils/Create.cs:106 | the same search across siblings from a given index on |
| Xml.IncludeIndex | MonoGameUtils/Create.cs:107 | -1 exactly when no attribute is named Include; otherwise the first one that is |
| Xml.SetInclude | MonoGameUtils/Create.cs:107 | None exactly when there is no Include attribute (the source then throws); otherwise only the first Include's value changes |
| Xml.Retarget | MonoGameUtils/Create.cs:106-112 | the element keeps its tag, its attributes are the old ones with only Include set to the library's Content.mgcb, and the Link element comes before its old children |
| Xml.NoIncludeValue | MonoGameUtils/Create.cs:107 | without an Include attribute the lookup finds nothing |
| Xml.IncludeValueSet | MonoGameUtils/Create.cs:107 | after setting Include, the lookup reads the new value |
| Xml.RewriteContentReference | MonoGameUtils/Create.cs:103-113 | the rewrite fails exactly when there is no reference, or when the first one lacks an Include attribute |
| Xml.PrefixNotAfter | MonoGameUtils/Create.cs:106 | an ancestor comes before its descendants in document order |
| Xml.NotAfterAntisymmetric | MonoGameUtils/Create.cs:106 | two positions that each come no later than the other are the same, so "the first reference" is unique |
| Xml.ReplaceAt | MonoGameUtils/Create.cs:112 | the in-place edit of one node of the document; AtReplaceBelow, AtReplaceApart and AtReplaceAbove state what changes below, beside and above the position |
| Xml.AtReplaceBelow | MonoGameUtils/Create.cs:112 | after a node is replaced, what lies below its position is what lies below the new node |
| Xml.AtReplaceApart | MonoGameUtils/Create.cs:112 | replacing a node leaves every unrelated position as it was |
| Xml.AtReplaceAbove | MonoGameUtils/Create.cs:112 | replacing a node keeps its ancestors as elements with the same tags |
| Xml.AtSplit | MonoGameUtils/Create.cs:106 | navigating along `p + r` is navigating to `p`, then along `r` |
| Xml.RewriteTarget | MonoGameUtils/Create.cs:106-112 | after the rewrite, the reference at the first position has the old attributes with the new Include, and the Link as its first child |
| Xml.RetargetShifts | MonoGameUtils/Create.cs:112 | prepending the Link moves every old child one place on |
| Xml.RewriteShiftsChildren | MonoGameUtils/Create.cs:112 | in the document, the old children of the reference sit one place further on, with their content unchanged |
| Xml.RewriteElsewhere | MonoGameUtils/Create.cs:103-113 | nothing outside the reference's ancestors and subtree changes |
| Xml.RewriteAbove | MonoGameUtils/Create.cs:103-113 | the reference's ancestors keep their tags |
| Xml.RewriteKeepsFirst | MonoGameUtils/Create.cs:106 | after the rewrite, the first reference is at the same position |
| Xml.ReferencesAmongUpdate | MonoGameUtils/Create.cs:112 | replacing one child changes the siblings' reference count by the difference between the old and new child |
| Xml.ReferencesReplace | MonoGameUtils/Create.cs:112 | the same for replacing a node anywhere in the tree |
| Xml.RewriteKeepsCount | MonoGameUtils/Create.cs:103-113 | the rewrite neither adds nor removes a content reference |
| Xml.RewriteAgain | MonoGameUtils/Create.cs:103-113 | a rewritten document can be rewritten again, at the same position |
| Xml.LinkFirst | MonoGameUtils/Create.cs:109-112 | the Link is the reference's first child, and its old first child comes second |
| Xml.RewriteTwice | MonoGameUtils/Create.cs:103-113 | the rewrite is not idempotent: doing it twice leaves two Link children |
| FileTree.CreateDirectory | MonoGameUtils/Package.cs:143 | it fails exactly when a file stands on the way; otherwise every folder on the path exists afterwards, and nothing that existed changes |
| FileTree.DeleteTree | MonoGameUtils/Package.cs:134 | it fails exactly when there is no such directory; otherwise that subtree and nothing else is gone |
| FileTree.MoveTree | MonoGameUtils/Package.cs:144 | it fails unless the source exists, the target does not, the target's parent is a directory and the target is not inside the source; otherwise the subtree moves |
| FileTree.CopyFile | MonoGameUtils/Package.cs:165 | it fails unless the source is a file and the target is new in an existing folder; otherwise only the target changes |
| FileTree.WriteFile | MonoGameUtils/Package.cs:149 | it fails when the path is a directory or its folder is missing; otherwise only that path changes |
| FileTree.RemoveFile | MonoGameUtils/Create.cs:99 | a missing file is not an error, but a missing folder is; only that path changes |
| FileTree.Exec | MonoGameUtils/Package.cs:132-170 | steps run in order; the run stops at the first exit or exception; an exit reports its code; a Run that raised is a failing command |
| FileTree.ExecAppend | MonoGameUtils/Package.cs:132-170 | carrying out `a + b` is carrying out `a` and then, only if `a` ran to its end, carrying out `b` on the tree `a` left |
| FileTree.Apply | MonoGameUtils/Package.cs:132-170 | how each .NET call succeeds or throws; stated by the contracts of CreateDirectory, DeleteTree, MoveTree, CopyFile, WriteFile and RemoveFile, with ApplyWellFormed for well-formedness |
| FileTree.ExecStepAt | MonoGameUtils/Package.cs:132-170 | a step that succeeds hands the rest of the plan the tree it produced |
| FileTree.ParentPrefix | MonoGameUtils/Package.cs:125 | the parent of a path lies on its prefix chain |
| FileTree.AbsentBelow | MonoGameUtils/Package.cs:132-170 | in a well-formed tree nothing lies below a path that is not a directory |
| FileTree.DirsAbove | MonoGameUtils/Package.cs:132-170 | in a well-formed tree every ancestor of an existing path is a directory |
| FileTree.CreateDirectoryWellFormed | MonoGameUtils/Package.cs:143 | CreateDirectory keeps the tree well formed |
| FileTree.DeleteTreeWellFormed | MonoGameUtils/Package.cs:134 | Directory.Delete keeps the tree well formed |
| FileTree.WriteFileWellFormed | MonoGameUtils/Package.cs:149 | writing a file keeps the tree well formed |
| FileTree.CopyFileWellFormed | MonoGameUtils/Package.cs:165 | copying a file keeps the tree well formed |
| FileTree.MoveTreeWellFormed | MonoGameUtils/Package.cs:144 | moving a directory keeps the tree well formed |
| FileTree.ApplyWellFormed | MonoGameUtils/Package.cs:132-170 | every step that succeeds keeps the tree well formed |
| FileTree.ExecWellFormed | MonoGameUtils/Package.cs:132-170 | carrying out any plan keeps the tree well formed, however the plan ends |
| FileTree.ExecSucceeds | MonoGameUtils/Package.cs:132-170 | when each step succeeds on the tree the previous one left, the plan completes and leaves the last tree |
| Bundle.BundleSteps | MonoGameUtils/Package.cs:132-170 | eleven steps; none of them exits or starts a command |
| Bundle.Apart | MonoGameUtils/Package.cs:125-126 | the publish folder and the sibling `temp` folder are disjoint subtrees |
| Bundle.AboveTemp | MonoGameUtils/Package.cs:125 | what lies above `temp` but does not reach it lies above the publish folder |
| Bundle.AncestorsAreDirs | MonoGameUtils/Package.cs:143 | the folders above the publish folder exist as directories |
| Bundle.AppIsNotContent | MonoGameUtils/Package.cs:154-157 | the bundle folder is never named `Content` |
| Bundle.StepDeleteApp | MonoGameUtils/Package.cs:132-135 | an old `{game}.app` and all of its contents are removed, if there is one |
| Bundle.StepDeleteTemp | MonoGameUtils/Package.cs:137-140 | an old temporary folder is removed, if there is one |
| Bundle.StepMakeContents | MonoGameUtils/Package.cs:143 | `temp/Contents` is created |
| Bundle.StepMoveOutput | MonoGameUtils/Package.cs:144 | the whole publish output moves to `temp/Contents/MacOS` |
| Bundle.StepPlist | MonoGameUtils/Package.cs:147-149 | `Contents/Info.plist` is the template with the game name filled in |
| Bundle.StepMakeResources | MonoGameUtils/Package.cs:151 | `Contents/Resources` is created |
| Bundle.ContentSource | MonoGameUtils/Package.cs:154 | `MacOS/Content` holds exactly what the published Content folder held |
| Bundle.ContentTarget | MonoGameUtils/Package.cs:157 | Resources exists and has no Content in it yet |
| Bundle.MovedContent | MonoGameUtils/Package.cs:155-158 | when the output has a Content folder, the move succeeds and carries the whole subtree |
| Bundle.StepMoveContent | MonoGameUtils/Package.cs:154-158 | a Content folder moves into Resources, if the output had one |
| Bundle.StepMakeResourcesAgain | MonoGameUtils/Package.cs:161 | the second CreateDirectory of Resources changes nothing |
| Bundle.IconUntouched | MonoGameUtils/Package.cs:162 | the project's icon is still where it was when it is copied |
| Bundle.IconDestination | MonoGameUtils/Package.cs:165 | the icon's destination is free, in an existing folder |
| Bundle.StepCopyIcon | MonoGameUtils/Package.cs:162-166 | `Resources/Icon.icns` is the project's icon when there is one; otherwise nothing changes |
| Bundle.StepRecreateOutput | MonoGameUtils/Package.cs:169 | the emptied publish folder exists again |
| Bundle.BundleEnds | MonoGameUtils/Package.cs:169-170 | before the last move, `temp` and the publish folder exist, and `{game}.app` does not |
| Bundle.StepMoveBundle | MonoGameUtils/Package.cs:170 | the assembled folder becomes `{game}.app` inside the publish folder |
| Bundle.BundleRuns | MonoGameUtils/Package.cs:132-170 | on a tree where the steps can succeed, all eleven complete and leave the described bundle |
| Bundle.BundleStart | MonoGameUtils/Package.cs:132-144 | the first four steps succeed in turn |
| Bundle.BundleOutput | MonoGameUtils/Package.cs:147-151 | the next two succeed in turn |
| Bundle.BundleResources | MonoGameUtils/Package.cs:154-166 | the next three succeed in turn |
| Bundle.BundleFinish | MonoGameUtils/Package.cs:169-170 | the last two complete, and the tree is the finished bundle |
| Bundle.ExecBundled | MonoGameUtils/Package.cs:132-170 | BundleRuns, path by path |
| Bundle.InApp | MonoGameUtils/Package.cs:170 | inside `{game}.app` lies what was assembled in `temp` |
| Bundle.TempSide | MonoGameUtils/Package.cs:125 | steps on the publish side never touch what lies below `temp` |
| Bundle.AssembledFolders | MonoGameUtils/Package.cs:143-151 | `temp`, `Contents` and `Resources` exist before the last move |
| Bundle.AssembledPlist | MonoGameUtils/Package.cs:147-149 | the assembled Info.plist is the filled-in template |
| Bundle.BundleLayout | MonoGameUtils/Package.cs:143-170 | afterwards `{game}.app/Contents/Resources` exists |
| Bundle.BundlePlist | MonoGameUtils/Package.cs:147-149 | afterwards `{game}.app/Contents/Info.plist` is the template with every `{gameName}` replaced |
| Bundle.BundledFolders | MonoGameUtils/Package.cs:143-170 | the bundle's folders, on the final tree |
| Bundle.BundledPlist | MonoGameUtils/Package.cs:147-149 | the plist, on the final tree |
| Bundle.AssembledMacOS | MonoGameUtils/Package.cs:144 | `temp/Contents/MacOS` holds the publish output, except Content and an old bundle |
| Bundle.BundleKeepsOutput | MonoGameUtils/Package.cs:144-170 | every published file, except Content and an old bundle, ends up in `{game}.app/Contents/MacOS` unchanged |
| Bundle.BundledKeepsOutput | MonoGameUtils/Package.cs:144-170 | the same, on the final tree |
| Bundle.AssembledContent | MonoGameUtils/Package.cs:154-158 | the assembled Resources/Content is the published Content folder |
| Bundle.BundleMovesContent | MonoGameUtils/Package.cs:154-158 | the published Content folder ends up, unchanged, in `{game}.app/Contents/Resources` |
| Bundle.BundledMovesContent | MonoGameUtils/Package.cs:154-158 | the same, on the final tree |
| Bundle.BundleIcon | MonoGameUtils/Package.cs:162-166 | the bundle's Icon.icns is the project's icon when one exists, and absent otherwise |
| Bundle.BundledIcon | MonoGameUtils/Package.cs:162-166 | the same, on the final tree |
| Bundle.BundleClearsTemp | MonoGameUtils/Package.cs:170 | nothing is left under the temporary folder |
| Bundle.BundledClearsTemp | MonoGameUtils/Package.cs:170 | the same, on the final tree |
| Bundle.BundleOnlyInOutput | MonoGameUtils/Package.cs:132-170 | the publish folder holds nothing but the bundle afterwards |
| Bundle.BundledOnlyInOutput | MonoGameUtils/Package.cs:132-170 | the same, on the final tree |
| Bundle.BundleElsewhere | MonoGameUtils/Package.cs:132-170 | outside the publish and temporary folders nothing changes |
| Bundle.BundledElsewhere | MonoGameUtils/Package.cs:132-170 | the same, on the final tree |
| Package.GameName | MonoGameUtils/Package.cs:20-22 | `DirectoryInfo.Name` of the working folder, its last path segment; ExpectedNames, DetectedTargets and DefaultFlagOfFolder use it |
| Package.ExpectedNames | MonoGameUtils/Package.cs:26 | one name `{game}.{suffix}` per known suffix, in order |
| Package.FirstIndex | MonoGameUtils/Package.cs:27 | the first position of an element |
| Package.Intersect | MonoGameUtils/Package.cs:27 | Enumerable.Intersect: exactly the elements in both lists, each once |
| Package.FirstIndexInit | MonoGameUtils/Package.cs:27 | an element's first position does not depend on elements added after it |
| Package.IntersectOrdered | MonoGameUtils/Package.cs:27 | the intersection keeps the order of the directory enumeration |
| Package.DetectTargets | MonoGameUtils/Package.cs:20-27 | the sub-directories named `{game}.{known suffix}`; DetectedTargets states membership both ways and IntersectOrdered the enumeration order |
| Package.DetectedTargets | MonoGameUtils/Package.cs:20-27 | a name is detected exactly when it is a sub-directory named `{game}.{known suffix}` |
| Package.DefaultFlags | MonoGameUtils/Package.cs:40-44 | one flag per detected folder, in order |
| Package.DefaultFlagOfFolder | MonoGameUtils/Package.cs:42-43 | `{game}.DesktopGL`, `.Android` and `.iOS` give `--desktopgl`, `--android` and `--ios`, even when the game name has dots |
| Package.LowerSuffix | MonoGameUtils/Package.cs:42 | each suffix lower-cased with `--` in front is its flag |
| Package.LowerDesktopGL | MonoGameUtils/Package.cs:42 | `DesktopGL` lower-cases to `desktopgl` |
| Package.LowerAndroid | MonoGameUtils/Package.cs:42 | `Android` lower-cases to `android` |
| Package.LowerIOS | MonoGameUtils/Package.cs:42 | `iOS` lower-cases to `ios` |
| Package.DefaultFlagsKnown | MonoGameUtils/Package.cs:40-44 | every default flag is one of the switch's platform cases |
| Package.Publish | MonoGameUtils/Package.cs:90-91 | every publish is `dotnet publish`, run in the DesktopGL project folder |
| Package.PublishPath | MonoGameUtils/Package.cs:123 | None exactly when the output has no space (Substring(-1) throws); otherwise a space-free piece of the output |
| Package.PublishPathAfterSpace | MonoGameUtils/Package.cs:123 | after the last space, the path is the trimmed rest of the output |
| Package.PublishPathOfLine | MonoGameUtils/Package.cs:123 | an output ending in ` <path>` followed by a line break or other non-space white space yields exactly that path |
| Package.WindowsSteps | MonoGameUtils/Package.cs:85-98 | starts only the win-x64 publish and does not end the process |
| Package.LinuxSteps | MonoGameUtils/Package.cs:100-112 | starts only the linux-x64 publish and does not end the process |
| Package.MacSteps | MonoGameUtils/Package.cs:114-171 | starts only the osx-x64 publish, and ends the process exactly when the output has no space |
| Package.KnownFlags | MonoGameUtils/Package.cs:57-82 | the switch has a case for exactly the six flags |
| Package.AnnounceSteps | MonoGameUtils/Package.cs:173-185 | PackageAndroid and PackageIOS only print; TargetCommands gives them no command and TargetExits no exit |
| Package.PackageTarget | MonoGameUtils/Package.cs:55-83 | every flag does something, and any exit comes last |
| Package.PackageSteps | MonoGameUtils/Package.cs:49-52 | the flags' work never continues after an exit |
| Package.PackagePlan | MonoGameUtils/Package.cs:18-53 | a `package` plan never continues after an exit |
| Package.Publishes | MonoGameUtils/Package.cs:90-120 | one publish per runtime, in order |
| Package.TargetCommands | MonoGameUtils/Package.cs:55-83 | each flag publishes its runtimes in order; `--desktopgl` publishes Windows, Linux and macOS; the others publish nothing |
| Package.TargetEnds | MonoGameUtils/Package.cs:55-83 | a flag's work ends the process exactly when the flag is unknown, or packages macOS with an output that has no space; Android and iOS only print |
| Package.StopsAtFirstEnd | MonoGameUtils/Package.cs:49-52 | once one flag's work ends the process, later flags are never reached |
| Package.UnknownFlagStops | MonoGameUtils/Package.cs:79-81 | an unknown flag whose turn comes shows the usage text, and nothing after it runs |
| Package.PackageStepsCommands | MonoGameUtils/Package.cs:49-52 | when every flag lets the next one run, the plan starts exactly the flags' publishes, in order |
| Package.TargetExits | MonoGameUtils/Package.cs:59-78 | no known flag calls Environment.Exit |
| Package.KnownFlagsNeverExit | MonoGameUtils/Package.cs:49-52 | a list of known flags never calls Environment.Exit |
| Package.PackageEach | MonoGameUtils/Package.cs:49-52 | the loop builds the flags' plan, stopping at the first exit |
| Package.PackageGame | MonoGameUtils/Package.cs:18-53 | the method builds the `package` plan |
| Package.NoTargetsExits | MonoGameUtils/Package.cs:30-34 | outside a game folder the tool prints a message and exits with -2 before reading the arguments; nothing else happens |
| Package.AllIgnoresRest | MonoGameUtils/Package.cs:37 | `--all` right after the verb means the defaults, and anything after it is ignored |
| Package.DefaultPlanNeverExits | MonoGameUtils/Package.cs:37-47 | the default plan never shows the usage text or exits |
| Package.DefaultPlanCommands | MonoGameUtils/Package.cs:37-47 | the default plan publishes the runtimes of every detected folder, in the order the folders were found |
| Package.ExplicitPlan | MonoGameUtils/Package.cs:49-52 | explicit flags are taken in order, starting with the argument after the verb |
| Package.UnknownFlagCommands | MonoGameUtils/Package.cs:49-82 | at the first unknown flag, the usage text follows the publishes of the flags before it, and nothing else runs |
| Package.UnknownArgumentStops | MonoGameUtils/Package.cs:49-82 | the same, stated on the command line |
| Package.MacHead | MonoGameUtils/Package.cs:116-121 | a macOS publish that succeeds leaves the tree as it was |
| Package.MacBundles | MonoGameUtils/Package.cs:114-171 | a successful publish whose output names a folder is followed by the bundle: thirteen steps, and the tree is the bundle |
| Package.MacStops | MonoGameUtils/Package.cs:121-123 | a failed publish, or an output with no space, throws before any file is touched |
| PackageEarly.Folder | monogamehelpers/Package.cs:62-94 | the working folder of each early publish; `{game}.DesktopGL` for win-x64, `.Android` for linux-x64 and `.iOS` for osx-x64; CompareRuntime states that only win-x64 runs in the folder the current tool uses |
| PackageEarly.Publish | monogamehelpers/Package.cs:62-96 | each publish is `dotnet publish` with the same arguments as the current tool's, run in one folder |
| PackageEarly.TargetSteps | monogamehelpers/Package.cs:29-54 | any exit comes last in a flag's work |
| PackageEarly.FlagSteps | monogamehelpers/Package.cs:25-55 | the flags' work never continues after an exit |
| PackageEarly.PackagePlan | monogamehelpers/Package.cs:11-56 | a `package` plan never continues after an exit |
| PackageEarly.PackageGame | monogamehelpers/Package.cs:11-56 | the loop from the third argument builds the plan |
| PackageEarly.PublishEach | monogamehelpers/Package.cs:62-102 | one publish per runtime, in order |
| PackageEarly.PublishEachAppend | monogamehelpers/Package.cs:25-55 | the publishes of two runtime lists are those of each, in order |
| PackageEarly.TargetCommands | monogamehelpers/Package.cs:29-50 | each known flag publishes its runtimes, as the current tool's flags do |
| PackageEarly.TargetOnlyRuns | monogamehelpers/Package.cs:29-50 | a known flag's work is only command runs |
| PackageEarly.KnownFlagsOnlyRun | monogamehelpers/Package.cs:25-55 | known flags only run commands, so they never end the process |
| PackageEarly.FlagCommands | monogamehelpers/Package.cs:25-55 | known flags start exactly the publishes of their runtimes, in order |
| PackageEarly.SecondArgumentIgnored | monogamehelpers/Package.cs:17-25 | the argument after the verb only matters when it is `--all` |
| PackageEarly.SingleFlagDoesNothing | monogamehelpers/Package.cs:17-23 | a single flag after the verb does nothing |
| PackageEarly.CompareRuntime | monogamehelpers/Package.cs:62-96 | each publish matches the current tool's in program and arguments; only the Windows one runs in the same folder |
| PackageEarly.CompareWithCurrent | monogamehelpers/Package.cs:29-50 | for every known flag, both tools start the same number of publishes with the same arguments, but only the Windows ones agree on their folder |
| PackageEarly.Runtimes3 | monogamehelpers/Package.cs:58-104 | flags publish only win-x64, linux-x64 and osx-x64 |
| PackageEarly.StopsAtFirstEnd | monogamehelpers/Package.cs:25-55 | once the usage text has ended the process, later flags are not reached |
| PackageEarly.UnknownTarget | monogamehelpers/Package.cs:51-53 | an unknown flag shows the usage text |
| PackageEarly.UnknownAfterKnown | monogamehelpers/Package.cs:25-55 | an unknown flag after known ones adds the usage text, which ends the process |
| PackageEarly.UnknownFlagStops | monogamehelpers/Package.cs:25-55 | the first unknown flag ends the plan with the usage text |
| PackageEarly.UnknownFlagCommands | monogamehelpers/Package.cs:25-55 | only the publishes of the known flags before it run |
| Create.PlatformCases | MonoGameUtils/Create.cs:31-45 | each of the three flags selects its own platform, and any other flag selects none |
| Create.SolutionSteps | MonoGameUtils/Create.cs:50-72 | the solution folder is created first, then the four solution commands run, none of which ends the process |
| Create.ProjectSteps | MonoGameUtils/Create.cs:74-114 | seven steps: the four project commands, then the deletion of `Game1.cs`, the recursive deletion of `Content` and the rewrite of `{game}.{suffix}.csproj`, all in the project folder; nothing ends the process |
| Create.ProjectPathsApart | MonoGameUtils/Create.cs:99-113 | `Game1.cs`, `Content` and the project file are three distinct entries of the project folder |
| Create.ProjectFileSteps | MonoGameUtils/Create.cs:99-113 | on a ready project folder the deletion, the recursive deletion and the rewrite succeed in turn |
| Create.ProjectRuns | MonoGameUtils/Create.cs:74-114 | on a ready project folder with commands that succeed, all seven steps complete; `Game1.cs` and everything under `Content` are gone, the project file holds the rewritten document, and every other path is unchanged |
| Create.CreatePlan | MonoGameUtils/Create.cs:13-48 | CreateSolution's plan; CreateKnownFlags, CreateCommands, CreateUnknownFlag, CreateDefaultIsDesktopGL and CreateStopsAtEnd state it, and fewer than two arguments crash with IndexOutOfRangeException |
| Create.FlagSteps | MonoGameUtils/Create.cs:26-46 | the flag loop; FlagStepsKnownPrefix, FlagStepsUnknown, FlagBlock, FlagCommands and FlagStepsStop state it |
| Create.CreateSolution | MonoGameUtils/Create.cs:13-48 | the method builds the `create` plan |
| Create.CreateProjects | MonoGameUtils/Create.cs:26-46 | the loop creates one project per flag, up to the first unknown flag |
| Create.FlagStepsUnknown | MonoGameUtils/Create.cs:42-44 | the first unknown flag shows the usage text after the projects before it, and no later flag is looked at |
| Create.FlagStepsKnownPrefix | MonoGameUtils/Create.cs:26-41 | each known flag adds its project's steps after those of the earlier flags |
| Create.CreateDefaultIsDesktopGL | MonoGameUtils/Create.cs:19-24 | with no flag, `create` is the same as `create ... --desktopgl` |
| Create.FlagStepsLength | MonoGameUtils/Create.cs:26-46 | known flags give seven steps each |
| Create.FlagStepsAppend | MonoGameUtils/Create.cs:26-46 | known flags are handled one after the other |
| Create.FlagStepsSingle | MonoGameUtils/Create.cs:31-41 | one known flag gives exactly its project's steps |
| Create.FlagStepsAround | MonoGameUtils/Create.cs:26-46 | a flag's project steps sit between those of the flags before and after it |
| Create.FlagBlock | MonoGameUtils/Create.cs:26-46 | the `j`-th known flag gets the `j`-th block of seven steps |
| Create.CreateWithFlags | MonoGameUtils/Create.cs:13-48 | with flags, the solution comes first, then the flags' steps |
| Create.CreateKnownFlags | MonoGameUtils/Create.cs:13-48 | with known flags, the plan is the five solution steps, then one seven-step block per flag in flag order |
| Create.FlagCommands | MonoGameUtils/Create.cs:26-46 | known flags start each project's four commands, flag by flag |
| Create.CreateCommands | MonoGameUtils/Create.cs:13-96 | `create` starts the four solution commands, then the project commands of each flag, or of DesktopGL when there is none |
| Create.CreateUnknownFlag | MonoGameUtils/Create.cs:26-46 | an unknown flag creates the projects before it, then exits with -1 |
| Create.FlagStepsStop | MonoGameUtils/Create.cs:26-46 | the flags' work never continues after an exit |
| Create.CreateStopsAtEnd | MonoGameUtils/Create.cs:13-48 | a `create` plan never continues after an exit or exception |
| Program.Plan | MonoGameUtils/Program.cs:10-31 | whatever the arguments, the plan never continues after an exit or exception; `create` is CreateSolution's plan and `package` the PackageGame plan of the tool's version |
| Program.Started | MonoGameUtils/Program.cs:53-59 | the commands started are all of them, or those up to and including the first that fails |
| Program.StartedFirstFailure | MonoGameUtils/Program.cs:53-59 | Started counts up to the first failing command, or all of them when none fails |
| Program.RunCommands | MonoGameUtils/Program.cs:53-59 | the loop starts exactly Started(...) commands and reports a failure exactly when some command fails |
| Program.AnyFailsCons | MonoGameUtils/Program.cs:55-58 | a list has a failing command when its first command fails or the rest has one |
| Program.RunsExec | MonoGameUtils/Program.cs:53-59 | running a command array as steps leaves the tree alone, starts Started(...) commands, and raises exactly when one fails |
| Program.UsageExits | MonoGameUtils/Program.cs:12-29 | help flags, no arguments and unknown verbs print the usage text and exit with -1; nothing else happens |

## Left out

- Starting processes is not modelled.
  - CliWrap's command execution, piping output to the console, and what
    `dotnet` and `pwd` do are outside the model. A Run step leaves the
    file tree unchanged.
  - Whether a command fails is the parameter `fails`.
  - What the macOS publish prints is `Host.macPublishOutput`.
- The directory queries are not modelled.
  - `Directory.GetCurrentDirectory`, `DirectoryInfo.GetDirectories` and the
    entry assembly's location are inputs: `Host.cwd`, `Host.subdirs` in
    enumeration order, and `Host.toolDir`.
- XML parsing and serialisation are not modelled. A `.csproj` is stored in
  the tree as its parsed element tree, so loading and saving are the
  identity.
- Actions.Usage: the banner is shortened to its usage line. The version
  string comes from assembly metadata and is not modelled.
- Text.Trim: only ASCII white space counts as white space. .NET also
  counts the other Unicode space characters.
- Text.ToLower: ASCII only. The culture-sensitive mapping of other letters
  is not modelled. It makes no difference to the three suffixes the tool
  lower-cases.
- Text.ParsePath: the path is split at `/` and empty segments are dropped.
  - `Path.GetFullPath` would also resolve `.`, `..` and a relative path
    against the current directory; none of that is modelled.
  - `Path.Combine(publishPath, "..", "temp")` becomes the parent of the
    publish folder, followed by `temp`.
- Package.GameName: the name of the root directory is taken to be `/`.
- Create.ProjectRuns: the dotnet commands are external, and Run steps do
  not change the tree. The file steps after them are therefore proved
  only for trees that already hold what `dotnet new` would create
  (`ProjectReady`). On other trees, `Exec` reports the exception they
  would throw.
- Bundle.BundleRuns: the result is proved only for trees that satisfy
  `Ready`. On other trees, `Exec` only states that the run stops at the
  first exception.
- Create.CreateSolution: game names and paths are plain strings. A game
  name that holds `/` is not split into several folders.
- Program.Plan (earlier version): that `Program.cs` declares namespace
  `MonoGameUtils`, while its `Package.cs` is in `monogamehelpers`. The
  model takes `Package.PackageGame` there to mean the earlier
  `Package.cs`.
- Concurrency is not modelled. Every `await` is sequential in the source,
  so the model runs the steps strictly in order.

## Findings

| source | as written | input that shows it | evidently intended | confidence | as-written member | corrected member |
|---|---|---|---|---|---|---|
| monogamehelpers/Package.cs:74-104 | PackageLinux publishes from the `{gameName}.Android` folder and PackageMac from `{gameName}.iOS` | `mgh package x --linux`: `dotnet publish ... -r linux-x64` runs in `.Android` | publish every desktop runtime from the DesktopGL project, as PackageWindows does and as the current tool does | high; not executed | PackageEarly.CompareRuntime | Package.TargetCommands |
| monogamehelpers/Package.cs:17-25 | the condition `args.Length == 2` and the loop from index 2 skip the first argument after the verb | `mgh package --windows` publishes nothing; `mgh package --windows --linux` publishes only Linux | flags start right after the verb, and only the bare verb or `--all` means the defaults, as in the current tool | high; not executed | PackageEarly.SingleFlagDoesNothing | Package.ExplicitPlan |
