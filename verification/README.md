# smgr: a verified model of the source-package store manager

`smgr.rb` keeps a per-user store of unpacked RPM packages under two roots.
Debuginfo packages go to `~/.debuginfo` and source packages to `~/.srpm`.
It has four commands:

- `install <package>` classifies an archive by its name. If the package is
  already there it stops. Otherwise it makes sure the store root exists,
  unpacks the archive with `rpm2cpio | cpio`, moves the payload to
  `<root>/<name>` and links that from the working directory.
- `list [<name>]` shows the package directories whose names match a pattern
  derived from `<name>`.
- `remove <name>` selects package directories by a glob, asks once, then
  removes each of them.
- `link <name> [<dir>]` selects package directories the same way, asks once,
  then links each of them into `<dir>` (the working directory by default).
  It never replaces anything.

This project models these commands in Dafny over an abstract file system and
proves what the code promises about them.

## Modules

- **`Outcomes`** (`outcomes.dfy`) holds the error taxonomy and the
  `Option`/`Result`/`Outcome` wrappers.
  - Every `expect`/`raise` of the script is an `Error`.
  - Every `Errno` that FileUtils can raise here is `SystemCallFailed`.
- **`Names`** (`names.dfy`) covers two things:
  - `File.basename(name, ext)`;
  - the byte order in which `Dir[]` of Ruby 3.0 and later returns its results
    (a total order on strings, and the sorted sequence of a finite set).
- **`Glob`** (`glob.dfy`) is one-component glob matching with `*`, including
  `Dir[]`'s rule that hidden names need a literal leading `.`.
- **`Fs`** (`fs.dfy`) is the file system: a map from absolute paths (component
  sequences) to `File`, `Directory` or `Symlink(target)`.
  - `Exists` is `File.exist?` and `IsDirectory` is `File.directory?`. Both
    follow links at the last component, up to 40 hops.
  - A path may end in `.` or `..`, as a selected path or a store path can.
    Such a path is a directory when the path before it is one, and
    `Resolve` gives the path it stands for. No stored entry has such a name.
  - `DirGlob` is `Dir[dir/pat]`. The pattern `.` or `..` has no wildcard, so
    it is looked up literally and comes back spelled as given.
  - The class `FileSystem` is the mutable file system. Its methods are the
    FileUtils calls the script makes: `mkdir`, `ln_s`, `move` and
    `remove_entry_secure`. Each method is tied to a step function. `Create`,
    `LnStep` and `MoveStep` return the new state or the error. `RemoveStep`
    returns the outcome together with the state it leaves, because
    `remove_entry_secure` can remove part of a tree before it raises.
- **`Locator`** (`locator.dfy`) is `InstallInfo` and `get_dir_info`: from the
  archive name it derives the package kind, store root, payload path,
  directory name and store path.
- **`Install`** (`install.dfy`) is `install_main`, `expand_and_install`,
  `make_new_directory`, `make_symlink` and `installed?`.
  - Each is a module-level method that takes the `FileSystem` as a parameter.
    Each is proved equal to a specification function of the old state
    (`InstallSpec` and the functions it uses).
  - The external programs are a parameter, `Tools`. It says whether `file -b`
    reports an RPM, whether `which` finds both tools, whether the extraction
    pipe succeeds, and what tree the pipe unpacked.
- **`Selection`** (`selection.dfy`) is `collect_target_dirs` and `confirm`.
  - Standard input is a sequence of lines without their terminators.
  - `Exhausted` stands for running out of input.
- **`RemoveLink`** (`remove_link.dfy`) is `for_each_target_paths`,
  `Remove.exec` and `Link.exec`. The loop over the selected paths is a method
  proved against `ApplyAll`.
- **`List`** (`list.dfy`) is `List.exec` and `show_list`. The printed output
  is a value: the pattern echoed, then one section per root. A section has the
  `<no files>` flag and the names shown.
- **`Commands`** (`commands.dfy`) is `Command#execute` with the argument
  ranges of `CommandList.create`.

### Behaviour worth knowing

Each item below is a fact about `smgr.rb` that the model states and proves.

- **`remove ..` reaches into the home directory.** The name is glued onto
  each store root, so `Dir[]` is asked for `~/.debuginfo/..` and
  `~/.srpm/..`. With no wildcard it returns them as spelled, and both are
  directories (`Selection.DotNamesSelectRoots`). A "yes" hands the first one
  to `remove_entry_secure`. The path stands for the home directory, so it is
  walked: the home directory's entries are removed one by one, the first
  store root among them. The next path through that root is then gone, and
  the command raises `ENOENT`. This holds with `/` as home too
  (`RemoveLink.RemoveDotDotRemovesStoreRoot`).
- **`remove .` empties a store root and raises.** `~/.debuginfo/.` (or
  `~/.srpm/.` when there is no debuginfo root) is walked. Everything in the
  root is removed, then rmdir(2) refuses a path ending in `.`, and the
  command raises `EINVAL`. The root itself and the other root stay
  (`RemoveLink.RemoveDotEmptiesStoreRoot`).
- **An archive can get the directory name `.` or `..`.** `..src.rpm` and
  `...src.rpm` lose their `.src.rpm` suffix and keep `.` and `..`. The store
  path `~/.srpm/.` or `~/.srpm/..` then stands for the store root or the home
  directory. Such a package counts as installed as soon as `~/.srpm` exists
  (`Install.InstalledMeaning`). Otherwise the root is made and the whole
  extracted tree moves into the directory the store path stands for, under
  the name `expand` (`Install.ExpandAndInstall`).

- **The two name patterns overlap.** `x-debuginfo-1.src.rpm` matches both
  `\.src\.rpm\z` and `-debuginfo-.*\.rpm\z`. The name is a source package only
  because that test runs first (`Locator.SourceRpmTestedFirst`). The patterns
  are not mutually exclusive.
- **A missing payload is an error.** When the unpacked archive has no payload
  directory, `FileUtils.move` raises `ENOENT`. So it is an error, not the
  "Install: failed" report (`Install.MissingPayloadRaises`). That report
  appears only when the payload is a link that leads nowhere
  (`Install.FailedMeansDanglingPayload`).
- **A failed extraction can leave a change behind.** A missing tool or a
  failed extraction is detected after the store root has been created. The
  new, empty root stays (`Install.ExpandAndInstallSpec`).
- **`File.exist?` cannot see a dangling link.** A link that leads nowhere, at
  the place where `make_symlink` would put its link, is therefore not noticed,
  and `ln_s` raises `EEXIST` (`Install.DanglingLinkAtDestRaises`).

## Model

| member | source | states |
|---|---|---|
| Names.StripExtension | smgr.rb:47 | `File.basename(name, ext)`. The suffix is removed when the name ends with it and is longer than it; otherwise the name is kept whole. A non-empty name never becomes empty. |
| Names.SortedNames | smgr.rb:253 | The order in which `Dir[]` of Ruby 3.0 and later lists its results: byte order. The sequence holds exactly the members of the set, strictly increasing, once each. |
| Glob.StarMatchesAll | smgr.rb:242 | The pattern `*` matches every name. |
| Glob.LiteralMatch | smgr.rb:184 | A name without `*` used as a pattern matches exactly the name spelled like it. |
| Glob.PrefixMatch | smgr.rb:184 | `q*` (no other `*`) matches exactly the names starting with `q`. |
| Glob.StarThen | smgr.rb:243 | A leading `*` lets the rest of the pattern match any suffix of the name, and only a suffix. |
| Glob.SubstringMatch | smgr.rb:243 | `*q*` (no other `*`) matches exactly the names that contain `q`. |
| Fs.Follow | smgr.rb:149 | What `File.exist?`/`File.directory?` see is never a link, and only a stored path has one. |
| Fs.StatKept | smgr.rb:149 | When every entry that exists is kept, everything that existed still looks the same. |
| Fs.Resolve | smgr.rb:208 | The path that a path ending in `.` or `..` stands for, as `File.expand_path` computes it: a proper prefix of it; any other path stands for itself. |
| Fs.DirGlob | smgr.rb:184 | `Dir[dir/pat]` for a wildcard or plain name is exactly the stored `dir/n` whose `n` the pattern matches, in byte order, once each. For the name `.` or `..` it is `dir/.` or `dir/..` as spelled, exactly when `dir` is stored as a directory. |
| Fs.Create | smgr.rb:134 | mkdir/symlink succeed iff the path is new, its parent is a directory and its name is not `.` or `..`. On success exactly that one entry is added and the others are unchanged. |
| Fs.CreateKeepsTree | smgr.rb:122 | Creating an entry keeps the file system a tree and keeps every existing entry. |
| Fs.RemoveTree | smgr.rb:208 | The entries left are exactly those not under the removed path, unchanged. |
| Fs.RemoveKeepsTree | smgr.rb:208 | Removing a subtree keeps the file system a tree. |
| Fs.RemoveBelow | smgr.rb:208 | Emptying a directory: the entries left are exactly the directory itself and those not under it, unchanged. |
| Fs.RemoveBelowKeepsTree | smgr.rb:208 | Emptying a directory keeps the file system a tree. |
| Fs.RemoveStepMeaning | smgr.rb:208 | `remove_entry_secure` only ever removes entries. It completes iff the path stands for a stored non-directory, or for a stored directory other than `/` spelled without a final `.` or `..`; it then leaves exactly the entries not under that entry. A final `.` after a directory empties it and raises `EINVAL`. A final `..` after a directory `x` removes `x`'s tree and raises `ENOENT`. |
| Fs.RemoveStepKeepsTree | smgr.rb:208 | Whether `remove_entry_secure` completes or raises part-way, the file system stays a tree. |
| Fs.MoveKeepsTree | smgr.rb:97 | A successful move keeps a tree and puts the payload root at its target. Every entry outside the target is kept unchanged. When `dest` did not exist, the target is `dest`. When `dest` did not exist, or the payload is a directory, every existing entry is kept. |
| Fs.FileSystem.Mkdir | smgr.rb:134 | `FileUtils.mkdir` completes iff the path is new under a directory and not named `.` or `..`, and then adds exactly a directory there. |
| Fs.FileSystem.Ln | smgr.rb:122 | `FileUtils.ln_s` never changes or removes an existing entry. |
| Fs.FileSystem.Move | smgr.rb:97 | `FileUtils.move` places the payload at its target: `dest`, or inside `dest` when that is a directory. Into a new `dest`, or with a directory payload, it keeps every existing entry. |
| Fs.MoveTargetNamed | smgr.rb:97 | A completed move puts the payload at a path that is not `/`, is not named `.` or `..`, and was not stored as a directory. |
| Fs.FileSystem.RemoveEntrySecure | smgr.rb:208 | Equals `RemoveStep`, outcome and state alike. Completes iff the path stands for a stored non-directory, or for a stored directory other than `/` not spelled with a final `.` or `..`. It then leaves exactly the tree of that entry removed. It never adds or changes an entry, even when it raises part-way. |
| Locator.GetDirInfo | smgr.rb:54-63 | Source package iff the name ends in `.src.rpm`. Otherwise debuginfo iff it matches `-debuginfo-.*\.rpm\z`. Otherwise `UnrecognizedPackageKind`. |
| Locator.NewInstallInfo | smgr.rb:44-50 | Fails exactly for unclassifiable names. Otherwise the root is `~/.srpm` or `~/.debuginfo`, with the kind's payload path. The directory name is the base name minus the kind's suffix, non-empty. The store path is `root/name`. Only a source package can get the name `.` or `..`. |
| Locator.ClassifySourceRpm | smgr.rb:44-57 | A `.src.rpm` archive goes whole (payload `""`) to `~/.srpm/<name minus .src.rpm>`. |
| Locator.ClassifyDebugInfo | smgr.rb:44-59 | A non-`.src.rpm` `-debuginfo-…rpm` archive keeps `usr/src/debug`, in `~/.debuginfo/<name minus .rpm>`. |
| Locator.SourceRpmTestedFirst | smgr.rb:55-59 | A name matching both patterns is a source package. |
| Locator.LineBreakDefeatsDebuginfo | smgr.rb:58 | A line break between `-debuginfo-` and `.rpm` defeats the pattern (`.` does not match it). |
| Locator.BareSuffixKeepsName | smgr.rb:47 | The archive named `.src.rpm` keeps its whole name as its directory name. |
| Locator.DebugInfoExample | smgr.rb:32-39 | `…/httpd-debuginfo-1.0.rpm` installs to `~/.debuginfo/httpd-debuginfo-1.0`. |
| Install.MakeNewDirectory | smgr.rb:125-137 | An existing directory: no change. An existing non-directory: `NotADirectory`, no change. Absent: afterwards a directory is there (the trailing `expect` always holds). Existing entries are always kept. |
| Install.InstalledMeaning | smgr.rb:148-150 | `installed?` asks `File.exist?` at the store path. A non-link entry there counts as installed. A link whose target is not stored, or no entry, counts as not installed. For the name `.` or `..` the store root alone decides. |
| Install.ExpandAndInstall | smgr.rb:88-111 | Equals `ExpandAndInstallSpec`: root first, then the tool and extraction checks, then the move. Keeps every existing entry. On success the payload is at its place as extracted: the store path, or inside the directory that a store path ending in `.` or `..` names. |
| Install.MovedToPayloadPlace | smgr.rb:95-97 | A completed move of the payload puts it at the store path, or, for the name `.` or `..`, at `expand` inside the directory that path names. |
| Install.MakeSymlink | smgr.rb:113-123 | If something exists at `cwd/<name>`: no link and no change. Otherwise either exactly the link `cwd/<name> -> store path` is added, or `ln_s` raises with no change. Never alters an existing entry. |
| Install.InstallMain | smgr.rb:66-86 | Equals `InstallSpec`. A missing archive, a non-RPM or an unclassifiable name raise with no change. An installed package is reported with no change. Existing entries are always kept. |
| Install.ExpandAndLink | smgr.rb:76-85 | After the "already installed" test: a raised expansion error is raised; a store path still missing is reported as failed; otherwise success is reported and the working-directory link is made. Equals `FinishInstall` of `ExpandAndInstallSpec`. |
| Install.DestStillAbsent | smgr.rb:88-89 | For a directory name other than `.` or `..`, creating the store root cannot make the store path exist. |
| Install.ExpandAndInstallKeepsExisting | smgr.rb:88-98 | Expansion keeps the file system a tree and keeps every existing entry, whatever the outcome. |
| Install.InstallKeepsExisting | smgr.rb:66-137 | Any install, whether it completes, reports or raises, keeps a tree and never changes or removes an existing entry. |
| Install.EarlyErrorsChangeNothing | smgr.rb:66-69 | The three early errors are raised in order, before anything changes. |
| Install.AlreadyInstalledChangesNothing | smgr.rb:71-74 | An installed package is reported and nothing changes, whatever the extraction tools would do. |
| Install.InstallIdempotent | smgr.rb:71-82 | After an install that did not raise or report failure, installing the same archive again reports "already installed" and changes nothing. |
| Install.ExpandPlacesPayload | smgr.rb:95-97 | A completed expansion leaves the payload, as extracted, at its place: the store path, or `expand` inside the directory a `.` or `..` store path names. |
| Install.DotNamedExpansionInstalled | smgr.rb:76-80 | With the name `.` or `..`, a completed expansion always leaves the package installed. |
| Install.FailedMeansDanglingPayload | smgr.rb:80-85 | "Install: failed" happens only when the moved payload is a link that leads nowhere. |
| Install.MissingPayloadRaises | smgr.rb:95-97 | A payload missing from the archive makes the move raise `ENOENT`, after the root was made. |
| Install.DanglingLinkAtDestRaises | smgr.rb:117-122 | A dangling link at `cwd/<name>` is not seen by the existence test, and `ln_s` raises `EEXIST` with no change. |
| Selection.Gather | smgr.rb:183-184 | The `inject`: a path is gathered iff it is a match of some root that is a directory. |
| Selection.OnlyDirectories | smgr.rb:185 | The `find_all`: exactly the paths that are directories. |
| Selection.CollectTargetDirs | smgr.rb:180-186 | A missing or empty name selects nothing. Everything selected is a directory. |
| Selection.CollectMembers | smgr.rb:180-186 | A non-empty name selects exactly the directory entries `root/n` under a root that is a directory, with `n` matching. The name `.` or `..` selects exactly `root/.` or `root/..` for each root stored as a directory. |
| Selection.DotNamesSelectRoots | smgr.rb:180-186 | The name `.` or `..` selects `root/.` or `root/..` for each store root stored as a directory, `.debuginfo` first. With `..` each stands for the home directory; with `.` each stands for its store root. |
| Selection.CollectSplit | smgr.rb:158-185 | Over `[~/.debuginfo, ~/.srpm]` the selection is the debuginfo share followed by the srpm share. |
| Selection.CollectOrder | smgr.rb:158-185 | Every `.debuginfo` package comes before every `.srpm` package, and no path is selected twice. |
| Selection.Confirm | smgr.rb:188-196 | The first line that is y/yes/n/no, in any case, decides. It says which line. No earlier line answers. `Exhausted` iff no line answers. |
| Selection.ConfirmLoop | smgr.rb:188-196 | The prompt loop returns the first answering line and its answer, or `Exhausted` iff none answers. It equals `Confirm`. |
| Selection.ConfirmExample | smgr.rb:191-193 | `["ok","Yeah","YES","n"]` answers yes at line 3. `["","No"]` answers no. `["yess","nope"]` never answers. |
| RemoveLink.Targets | smgr.rb:158-159 | The paths acted on are never `/`. |
| RemoveLink.ApplyStep | smgr.rb:205-232 | One path: `remove_entry_secure`; or `ln_s` into the destination unless something exists there. |
| RemoveLink.ForEachTargetPaths | smgr.rb:157-178 | Equals `ForEachTargetSpec`. No targets: `NoTarget`, no change. Without a "yes": no change. With a "yes": each path is acted on in order until one raises. |
| RemoveLink.RemoveExec | smgr.rb:205-210 | `remove` is `for_each_target_paths` with removal over the selection. |
| RemoveLink.LinkExec | smgr.rb:219-234 | A destination that is not a directory raises `NotADirectory` before anything. `link` never changes or removes an existing entry. |
| RemoveLink.RemoveAllRemovesTrees | smgr.rb:206-209 | Removing stored paths not ending in `.` or `..`, none inside another, completes. It leaves exactly the entries under none of them, unchanged. |
| RemoveLink.SameLengthUnnested | smgr.rb:180-185 | Distinct paths of one length are never nested. |
| RemoveLink.RemoveConfirmedRemovesSelection | smgr.rb:157-209 | For a package name (not `.` or `..`), `remove` answered "yes" completes. It removes exactly the trees of the selected package directories and changes nothing else. |
| RemoveLink.RemoveDotEmptiesStoreRoot | smgr.rb:157-209 | `remove .` answered "yes" empties the first store root stored as a directory (`.debuginfo` first), keeps that root and everything else, and raises `EINVAL`. |
| RemoveLink.RemoveDotDotRemovesStoreRoot | smgr.rb:157-209 | `remove ..` answered "yes" removes the tree of the first store root stored as a directory and raises `ENOENT`, with `/` as home too. |
| RemoveLink.LinkNeverClobbers | smgr.rb:226-232 | Linking keeps every existing entry unchanged, even when a step raises. |
| RemoveLink.LinkMakesOnlyLinks | smgr.rb:226-232 | After a completed `link`, every selected path has something at `dest/basename`, or `dest/basename` exists as `dest/.` or `dest/..` does. Every new entry is a link `dest/basename(p) -> p` for a selected `p`. |
| RemoveLink.EmptyNameDoesNothing | smgr.rb:161-164 | A missing or empty name gives "No Target." and no change, for `remove` and `link`. |
| RemoveLink.NoAnswerChangesNothing | smgr.rb:172 | Answering no, or never answering, changes nothing. |
| List.NormalizePattern | smgr.rb:242-243 | The pattern always holds a `*`. A name holding a `*` is used as it is. |
| List.NormalizedPatternMeaning | smgr.rb:242-243 | No name: every visible name matches. A name without `*`: exactly the visible names containing it. |
| List.Basenames | smgr.rb:256 | One printed name per path, its last component. |
| List.DirectoryNames | smgr.rb:255-257 | The names printed are those of the directories among the matches, in order. |
| List.ShowList | smgr.rb:251-259 | `<no files>` iff the raw glob is empty. The names shown are those of the matching directories, in glob order. |
| List.ShownNames | smgr.rb:253-257 | For a pattern other than `.` or `..` (every pattern `list` uses holds a `*`): a name is shown iff `dir/n` is stored, the pattern matches it, and it is a directory. |
| List.NoFilesIgnoresKind | smgr.rb:254-257 | When every match is a non-directory, nothing is shown and `<no files>` is not printed either. |
| List.ListExec | smgr.rb:241-247 | The echoed pattern is the normalised one. The `.debuginfo` section comes before the `.srpm` one. Each shows exactly its matching directories and flags `<no files>` iff its glob is empty. |
| Commands.Arity | smgr.rb:281-298 | Every command takes at most two arguments. |
| Commands.Execute | smgr.rb:272-275 | Usage error iff the argument count is outside the command's range. Otherwise the command's call, with `args[i]` or nil. |
| Commands.ExecuteKeepsArguments | smgr.rb:282-299 | Every accepted argument reaches the call, in order. |
| Commands.UsageCases | smgr.rb:281-298 | `install` needs exactly 1 argument, `list` 0 or 1, `remove` exactly 1, `link` 1 or 2. |

## Left out

- Symbolic links are followed only at the last component of a path. A link
  used as an intermediate directory (a store root or destination that is a
  link to a directory) is not followed, and `Dir[]` under such a root finds
  nothing.
- Relative link targets, `File.expand_path` and the conversion of argument
  strings to paths are not modelled. Paths arrive as component sequences from
  `/`. For `link`, a nil or empty destination argument arrives as `None`.
- Glob features other than `*` (`?`, `[...]`, `{}`, `**`) and patterns
  containing `/` are not modelled.
- The scratch directory of `Dir.mktmpdir`, its `expand` subdirectory and
  their clean-up are not modelled. The extraction pipe's result is a separate
  tree in `Tools.extracted`, in which `[]` is the extraction directory.
- The external programs `file -b`, `which`, `rpm2cpio` and `cpio` are
  parameters (`Tools`), not modelled behaviour.
- `ENV['HOME']` is the parameter `home`, and the working directory is the
  parameter `cwd`.
- The top-level dispatch by command name, `OptionParser`, the debug flag,
  `rescue` and exit codes are not modelled.
- The wording of the printed messages is not modelled. Reports are values
  (`InstallReport`, `FlowReport`, `Listing`).
- Selection.Confirm: `confirm` prompts forever once standard input is at its
  end, because `gets` returns nil. The model returns `Exhausted` instead, and
  nothing is acted on.
- Selection.IsYes: only ASCII case folding is modelled. Unicode case-folding
  equivalents that Ruby's `/i` also accepts (such as `ſ` for `s`) are not.
- Fs.RemoveStep: the ownership and permission checks of
  `remove_entry_secure` are not modelled. It is plain removal of the subtree.
- Fs.RemoveStep: for a path `x/..` with `x` a directory, FileUtils removes the
  entries of `x`'s parent one by one, in directory order, and raises `ENOENT`
  once `x` is gone. The model removes only `x`'s tree. The siblings that
  directory order lists before `x` also go in the script, and they are not
  modelled because directory order is not. The model removes at most what the
  script removes.
- RemoveLink.RemoveDotDotRemovesStoreRoot: states the store root's tree gone
  and `ENOENT` raised. The home entries that directory order lists before the
  store root are removed by the script as well, and the lemma does not say so.
- Fs.FileSystem.RemoveEntrySecure: for `x/..` the model removes exactly `x`'s
  tree, while the script removes some siblings of `x` too (see
  `Fs.RemoveStep`).
- Fs.RemoveStep: for `x/..` where `x` is not stored as a directory (a file, a
  link to a directory or nothing), the model raises `ENOENT` with no change.
  The script may raise `ENOTDIR` instead, or walk through the link.
- Fs.Resolve: only a final `.` or `..` is resolved. Paths with `.` or `..`
  inside them do not arise here and are not resolved.
- Names.SortedNames: the order of `Dir[]` results is modelled as the sorted
  order of Ruby 3.0 and later. Earlier versions return directory order. The
  script calls `File.exists?`, which Ruby 3.2 removed. Only the order in which
  `list` shows names, and `remove`/`link` act within one root, depends on it.
- Fs.DirGlob: a wildcard pattern never yields `.` or `..`. Some Ruby
  versions return them for patterns such as `.*`.
- Fs.Follow: a link whose target ends in `.` or `..` is treated as leading
  nowhere; the target is not resolved.
- Fs.MoveStep: only the outcome of `FileUtils.move` is modelled (the subtree
  placed at its target). Its copy-then-delete fallback across devices and its
  lack of atomicity are not.
- Concurrency between invocations, file permissions and case-insensitive file
  systems are not modelled.
