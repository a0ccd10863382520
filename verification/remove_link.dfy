/**
 * `remove` and `link`: list the selected package directories, ask once,
 * then remove each of them (`Remove.exec`) or link each of them into a
 * destination directory (`Link.exec`), in the order they were selected.
 */
module RemoveLink {
  import opened Outcomes
  import opened Fs
  import Locator
  import opened Selection

  /** What is done to each selected path. */
  datatype Action = RemoveAction | LinkAction(destDir: Path)

  /** How `for_each_target_paths` ends when no step raises. */
  datatype FlowReport =
    | NoTarget     // "No Target.", no question asked
    | Declined     // the answer was no
    | Unanswered   // the input ran out before an answer
    | Done         // the answer was yes and every path was acted on

  /** `File.join(dest_dir, File.basename(path))`: where `link` puts the link for `p`. */
  function LinkPath(destDir: Path, p: Path): Path
  {
    destDir + [Locator.BaseName(p)]
  }

  /** The block given to `for_each_target_paths`, for one path. */
  function StepSpec(e: Entries, act: Action, p: Path): (Outcome, Entries)
    requires p != []
  {
    match act
    case RemoveAction => RemoveStep(e, p)
    case LinkAction(d) =>
      if Exists(e, LinkPath(d, p)) then (Pass, e)
      else
        var c := LnStep(e, p, LinkPath(d, p));
        (OutcomeOf(c), StateAfter(e, c))
  }

  /** `list.each`: act on every path in order; the first step that raises stops the rest. */
  function ApplyAll(e: Entries, act: Action, ps: seq<Path>): (Outcome, Entries)
    requires [] !in ps
    decreases |ps|
  {
    if ps == [] then (Pass, e)
    else
      var (o, e1) := StepSpec(e, act, ps[0]);
      if o.Fail? then (o, e1) else ApplyAll(e1, act, ps[1..])
  }

  /** One step of `ApplyAll`: the first path, then the rest from the state it leaves. */
  lemma ApplyAllUnfold(e: Entries, act: Action, ps: seq<Path>)
    requires [] !in ps && ps != []
    ensures var (o, e1) := StepSpec(e, act, ps[0]);
      ApplyAll(e, act, ps) == if o.Fail? then (o, e1) else ApplyAll(e1, act, ps[1..])
  {
  }

  /** `for_each_target_paths` once the targets are known. */
  function ForEachTargetSpec(e: Entries, act: Action, targets: seq<Path>, lines: seq<string>): (Result<FlowReport>, Entries)
    requires [] !in targets
  {
    if targets == [] then (Ok(NoTarget), e)
    else match Confirm(lines)
      case Exhausted => (Ok(Unanswered), e)
      case Answered(yes, _) =>
        if !yes then (Ok(Declined), e)
        else
          var (o, e') := ApplyAll(e, act, targets);
          (if o.Pass? then Ok(Done) else Err(o.error), e')
  }

  function Targets(e: Entries, home: Path, name: Option<string>): (r: seq<Path>)
    ensures [] !in r
  {
    CollectTargetDirs(e, SearchRoots(home), name)
  }

  /** `Remove.exec(name)`. */
  function RemoveSpec(e: Entries, home: Path, name: Option<string>, lines: seq<string>): (Result<FlowReport>, Entries)
  {
    ForEachTargetSpec(e, RemoveAction, Targets(e, home, name), lines)
  }

  /** The destination of `link`: the working directory when none (or an empty one) is given. */
  function LinkDestination(cwd: Path, destDir: Option<Path>): Path
  {
    if destDir.None? then cwd else destDir.value
  }

  /** `Link.exec(name, dest_dir)`. */
  function LinkSpec(e: Entries, home: Path, cwd: Path, name: Option<string>, destDir: Option<Path>, lines: seq<string>): (Result<FlowReport>, Entries)
  {
    var d := LinkDestination(cwd, destDir);
    if !IsDirectory(e, d) then (Err(NotADirectory), e)
    else ForEachTargetSpec(e, LinkAction(d), Targets(e, home, name), lines)
  }

  // ---------------------------------------------------------------------------
  // The commands, one file-system call at a time

  method ApplyStep(fs: FileSystem, act: Action, p: Path) returns (o: Outcome)
    requires fs.Valid() && p != []
    modifies fs
    ensures fs.Valid()
    ensures (o, fs.entries) == StepSpec(old(fs.entries), act, p)
  {
    match act
    case RemoveAction =>
      o := fs.RemoveEntrySecure(p);
    case LinkAction(d) =>
      var dest := LinkPath(d, p);
      if !Exists(fs.entries, dest) {
        o := fs.Ln(p, dest);
      } else {
        o := Pass;
      }
  }

  method ForEachTargetPaths(fs: FileSystem, act: Action, targets: seq<Path>, lines: seq<string>) returns (r: Result<FlowReport>)
    requires fs.Valid() && [] !in targets
    modifies fs
    ensures fs.Valid()
    ensures (r, fs.entries) == ForEachTargetSpec(old(fs.entries), act, targets, lines)
    ensures targets == [] ==> r == Ok(NoTarget) && fs.entries == old(fs.entries)
    ensures !(Confirm(lines).Answered? && Confirm(lines).yes) ==> fs.entries == old(fs.entries)
  {
    if |targets| == 0 {
      return Ok(NoTarget);
    }
    var answer := ConfirmLoop(lines);
    if answer.Exhausted? {
      return Ok(Unanswered);
    }
    if !answer.yes {
      return Ok(Declined);
    }
    var o := ApplyEach(fs, act, targets);
    r := if o.Pass? then Ok(Done) else Err(o.error);
  }

  /** `list.each`: act on each path in turn, stopping at the first step that raises. */
  method ApplyEach(fs: FileSystem, act: Action, targets: seq<Path>) returns (o: Outcome)
    requires fs.Valid() && [] !in targets
    modifies fs
    ensures fs.Valid()
    ensures (o, fs.entries) == ApplyAll(old(fs.entries), act, targets)
  {
    var i := 0;
    while i < |targets|
      invariant 0 <= i <= |targets|
      invariant fs.Valid()
      invariant ApplyAll(fs.entries, act, targets[i..]) == ApplyAll(old(fs.entries), act, targets)
    {
      assert targets[i..][0] == targets[i] && targets[i..][1..] == targets[i + 1..];
      ApplyAllUnfold(fs.entries, act, targets[i..]);
      o := ApplyStep(fs, act, targets[i]);
      if o.Fail? {
        return;
      }
      i := i + 1;
    }
    return Pass;
  }

  method RemoveExec(fs: FileSystem, home: Path, name: Option<string>, lines: seq<string>) returns (r: Result<FlowReport>)
    requires fs.Valid()
    modifies fs
    ensures fs.Valid()
    ensures (r, fs.entries) == RemoveSpec(old(fs.entries), home, name, lines)
  {
    var targets := Targets(fs.entries, home, name);
    r := ForEachTargetPaths(fs, RemoveAction, targets, lines);
  }

  method LinkExec(fs: FileSystem, home: Path, cwd: Path, name: Option<string>, destDir: Option<Path>, lines: seq<string>)
    returns (r: Result<FlowReport>)
    requires fs.Valid()
    modifies fs
    ensures fs.Valid()
    ensures (r, fs.entries) == LinkSpec(old(fs.entries), home, cwd, name, destDir, lines)
    ensures !old(IsDirectory(fs.entries, LinkDestination(cwd, destDir))) ==> r == Err(NotADirectory) && fs.entries == old(fs.entries)
    ensures forall k :: k in old(fs.entries) ==> k in fs.entries && fs.entries[k] == old(fs.entries)[k]
  {
    var d := LinkDestination(cwd, destDir);
    if !IsDirectory(fs.entries, d) {
      return Err(NotADirectory);
    }
    var targets := Targets(fs.entries, home, name);
    r := ForEachTargetPaths(fs, LinkAction(d), targets, lines);
    LinkNeverClobbers(old(fs.entries), d, targets);
  }

  // ---------------------------------------------------------------------------
  // Properties of remove and link

  /** No one of the paths is inside, or is, another. */
  predicate Unnested(ps: seq<Path>)
  {
    forall i, j :: 0 <= i < |ps| && 0 <= j < |ps| && i != j ==> !IsPrefix(ps[i], ps[j])
  }

  /**
   * Removing stored paths that end in no `.` or `..` and are not nested
   * completes, and leaves exactly the entries under none of them, unchanged.
   */
  lemma {:induction false} RemoveAllRemovesTrees(e: Entries, ps: seq<Path>)
    requires [] !in ps && Unnested(ps)
    requires forall p :: p in ps ==> p != [] && p in e && !DotName(p[|p| - 1])
    ensures ApplyAll(e, RemoveAction, ps).0 == Pass
    ensures var e' := ApplyAll(e, RemoveAction, ps).1;
      && (forall q :: q in e' <==> q in e && forall p :: p in ps ==> !IsPrefix(p, q))
      && (forall q :: q in e' ==> e'[q] == e[q])
    decreases |ps|
  {
    if ps != [] {
      var p0 := ps[0];
      assert Resolve(p0) == p0;
      var e1 := RemoveTree(e, p0);
      assert StepSpec(e, RemoveAction, p0) == (Pass, e1);
      var rest := ps[1..];
      assert forall k :: 0 <= k < |rest| ==> rest[k] == ps[k + 1];
      forall p | p in rest ensures p != [] && p in e1 && !DotName(p[|p| - 1]) {
        var k :| 0 <= k < |rest| && rest[k] == p;
        assert !IsPrefix(p0, ps[k + 1]);
      }
      RemoveAllRemovesTrees(e1, rest);
      forall q ensures (q in ApplyAll(e, RemoveAction, ps).1 <==> q in e && forall p :: p in ps ==> !IsPrefix(p, q)) {
        assert forall p :: p in ps <==> p == p0 || p in rest;
      }
    }
  }

  /**
   * `remove` with a "yes" and a package name removes the tree of every
   * selected package directory and nothing else; the names `.` and `..` are
   * the subject of `RemoveDotEmptiesStoreRoot` and
   * `RemoveDotDotRemovesStoreRoot`.
   */
  lemma RemoveConfirmedRemovesSelection(e: Entries, home: Path, name: Option<string>, lines: seq<string>)
    requires WellFormed(e)
    requires Targets(e, home, name) != []
    requires Confirm(lines).Answered? && Confirm(lines).yes
    ensures name != Some(".") && name != Some("..") ==> RemoveSpec(e, home, name, lines).0 == Ok(Done)
    ensures name != Some(".") && name != Some("..") ==> var e' := RemoveSpec(e, home, name, lines).1;
      && (forall q :: q in e' <==> q in e && forall p :: p in Targets(e, home, name) ==> !IsPrefix(p, q))
      && (forall q :: q in e' ==> e'[q] == e[q])
  {
    if name != Some(".") && name != Some("..") {
      StoredResolves(e);
      RemoveAllPackages(e, home, name.value);
    }
  }

  lemma RemoveAllPackages(e: Entries, home: Path, name: string)
    requires name != "" && !DotName(name)
    requires forall p :: p in e && p != [] ==> !DotName(p[|p| - 1])
    ensures var ts := Targets(e, home, Some(name));
      && ApplyAll(e, RemoveAction, ts).0 == Pass
      && (forall q :: q in ApplyAll(e, RemoveAction, ts).1 <==> q in e && forall p :: p in ts ==> !IsPrefix(p, q))
      && (forall q :: q in ApplyAll(e, RemoveAction, ts).1 ==> ApplyAll(e, RemoveAction, ts).1[q] == e[q])
  {
    var ts := Targets(e, home, Some(name));
    CollectOrder(e, home, Some(name));
    forall p | p in ts ensures p in e && p != [] && |p| == |home| + 2 {
      SelectedPackageStored(e, home, name, p);
    }
    SameLengthUnnested(ts, |home| + 2);
    RemoveAllRemovesTrees(e, ts);
  }

  /** Distinct paths of one length are never nested. */
  lemma SameLengthUnnested(ps: seq<Path>, n: nat)
    requires Distinct(ps)
    requires forall p :: p in ps ==> |p| == n
    ensures Unnested(ps)
  {
    forall i, j | 0 <= i < |ps| && 0 <= j < |ps| && i != j ensures !IsPrefix(ps[i], ps[j]) {
      assert ps[i] in ps && ps[j] in ps;
      assert ps[j][..|ps[i]|] == ps[j];
    }
  }

  lemma SelectedPackageStored(e: Entries, home: Path, name: string, p: Path)
    requires name != "" && !DotName(name)
    requires p in CollectTargetDirs(e, SearchRoots(home), Some(name))
    ensures p in e && p != [] && |p| == |home| + 2
  {
    var roots := SearchRoots(home);
    var i :| 0 <= i < |roots| && p in RootMatches(e, roots[i], name);
  }

  /** A stored entry's path has no `.` or `..` to resolve. */
  lemma StoredResolves(e: Entries)
    requires WellFormed(e)
    ensures forall p :: p in e && p != [] ==> !DotName(p[|p| - 1])
  {
  }

  /**
   * `remove .` selects `root/.` for each store root stored as a directory,
   * `.debuginfo` first. On a "yes" the first of them is walked: everything
   * in that root goes, then rmdir(2) refuses a path ending in `.` and the
   * command raises before the second root is touched.
   */
  lemma RemoveDotEmptiesStoreRoot(e: Entries, home: Path, lines: seq<string>)
    requires Targets(e, home, Some(".")) != []
    requires Confirm(lines).Answered? && Confirm(lines).yes
    ensures var roots := SearchRoots(home);
      var r := if IsPhysicalDir(e, roots[0]) then roots[0] else roots[1];
      RemoveSpec(e, home, Some("."), lines) == (Err(SystemCallFailed(EINVAL)), RemoveBelow(e, r))
  {
    var roots := SearchRoots(home);
    var r := if IsPhysicalDir(e, roots[0]) then roots[0] else roots[1];
    var ts := Targets(e, home, Some("."));
    DotNamesSelectRoots(e, home, ".");
    assert ts[0] == r + ["."] && Parent(ts[0]) == r;
    RemoveStepMeaning(e, ts[0]);
    ApplyAllUnfold(e, RemoveAction, ts);
  }

  /**
   * `remove ..` selects `root/..` for each store root stored as a directory,
   * `.debuginfo` first; each stands for the home directory. On a "yes" the
   * walk through the first of them removes that root with all it holds, and
   * the next path through it is gone, so the command raises `ENOENT`; this
   * holds for a home of `/` too.
   */
  lemma RemoveDotDotRemovesStoreRoot(e: Entries, home: Path, lines: seq<string>)
    requires WellFormed(e)
    requires Targets(e, home, Some("..")) != []
    requires Confirm(lines).Answered? && Confirm(lines).yes
    ensures var roots := SearchRoots(home);
      var r := if IsPhysicalDir(e, roots[0]) then roots[0] else roots[1];
      RemoveSpec(e, home, Some(".."), lines) == (Err(SystemCallFailed(ENOENT)), RemoveTree(e, r))
  {
    var roots := SearchRoots(home);
    var r := if IsPhysicalDir(e, roots[0]) then roots[0] else roots[1];
    assert IsPhysicalDir(e, r) by {
      DotNamesSelectRoots(e, home, "..");
    }
    ParentIsDirectory(e, r);
    RemoveDotDotFromStoredHome(e, home, lines);
  }

  lemma RemoveDotDotFromStoredHome(e: Entries, home: Path, lines: seq<string>)
    requires IsPhysicalDir(e, home)
    requires Targets(e, home, Some("..")) != []
    requires Confirm(lines).Answered? && Confirm(lines).yes
    ensures var roots := SearchRoots(home);
      var r := if IsPhysicalDir(e, roots[0]) then roots[0] else roots[1];
      RemoveSpec(e, home, Some(".."), lines) == (Err(SystemCallFailed(ENOENT)), RemoveTree(e, r))
  {
    var roots := SearchRoots(home);
    var r := if IsPhysicalDir(e, roots[0]) then roots[0] else roots[1];
    var ts := Targets(e, home, Some(".."));
    DotNamesSelectRoots(e, home, "..");
    assert ts[0] == r + [".."] && Parent(ts[0]) == r && Parent(r) == home;
    RemoveStepMeaning(e, ts[0]);
    ApplyAllUnfold(e, RemoveAction, ts);
  }

  /**
   * Linking never replaces or removes an entry, whether every link is made or
   * a step raises.
   */
  lemma {:induction false} LinkNeverClobbers(e: Entries, d: Path, ps: seq<Path>)
    requires [] !in ps
    ensures var e' := ApplyAll(e, LinkAction(d), ps).1;
      forall k :: k in e ==> k in e' && e'[k] == e[k]
    decreases |ps|
  {
    if ps != [] {
      var (o, e1) := StepSpec(e, LinkAction(d), ps[0]);
      if o.Pass? {
        LinkNeverClobbers(e1, d, ps[1..]);
      }
    }
  }

  /**
   * When linking completes, every selected path has something at its link
   * path, and every entry that was not there before is a link
   * `d/basename(p) -> p` for a selected `p`.
   */
  lemma {:induction false} LinkMakesOnlyLinks(e: Entries, d: Path, ps: seq<Path>)
    requires [] !in ps
    requires ApplyAll(e, LinkAction(d), ps).0 == Pass
    ensures var e' := ApplyAll(e, LinkAction(d), ps).1;
      && (forall p :: p in ps ==> LinkPath(d, p) in e' || Exists(e', LinkPath(d, p)))
      && (forall k :: k in e' && k !in e ==> exists p :: p in ps && k == LinkPath(d, p) && e'[k] == Symlink(p))
    decreases |ps|
  {
    if ps != [] {
      var p0 := ps[0];
      var e1 := StepSpec(e, LinkAction(d), p0).1;
      LinkMakesOnlyLinks(e1, d, ps[1..]);
      LinkNeverClobbers(e1, d, ps[1..]);
      var e' := ApplyAll(e, LinkAction(d), ps).1;
      assert forall p :: p in ps <==> p == p0 || p in ps[1..];
      assert LinkPath(d, p0) in e1 || Exists(e1, LinkPath(d, p0));
      assert LinkPath(d, p0) in e1 && LinkPath(d, p0) !in e ==> e1[LinkPath(d, p0)] == Symlink(p0);
      assert KeepsExisting(e1, e');
      if Exists(e1, LinkPath(d, p0)) {
        StatKept(e1, e', LinkPath(d, p0));
      }
      forall k | k in e' && k !in e ensures exists p :: p in ps && k == LinkPath(d, p) && e'[k] == Symlink(p) {
        if k !in e1 {
          var p :| p in ps[1..] && k == LinkPath(d, p) && e'[k] == Symlink(p);
        } else {
          assert k == LinkPath(d, p0) && e'[k] == Symlink(p0);
        }
      }
    }
  }

  /** A missing or empty name selects nothing: no question, no change. */
  lemma EmptyNameDoesNothing(e: Entries, home: Path, cwd: Path, destDir: Option<Path>, lines: seq<string>, name: Option<string>)
    requires name.None? || name.value == ""
    ensures RemoveSpec(e, home, name, lines) == (Ok(NoTarget), e)
    ensures IsDirectory(e, LinkDestination(cwd, destDir)) ==> LinkSpec(e, home, cwd, name, destDir, lines) == (Ok(NoTarget), e)
  {
  }

  /** Answering no, or never answering, changes nothing. */
  lemma NoAnswerChangesNothing(e: Entries, act: Action, targets: seq<Path>, lines: seq<string>)
    requires [] !in targets && targets != []
    requires !(Confirm(lines).Answered? && Confirm(lines).yes)
    ensures ForEachTargetSpec(e, act, targets, lines) ==
      (if Confirm(lines).Exhausted? then Ok(Unanswered) else Ok(Declined), e)
  {
  }
}
