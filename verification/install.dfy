/**
 * The installer (`Install` in smgr.rb): check the archive, classify it, stop
 * if the package is already there, make sure the store root exists, extract
 * the archive, move its payload into the store and link it from the working
 * directory.
 *
 * The external programs are parameters: `Tools` carries what `file -b`,
 * `which` and the `rpm2cpio | cpio` pipe answer for this archive, and the
 * tree the pipe leaves in the extraction directory.
 */
module Install {
  import opened Outcomes
  import opened Fs
  import opened Locator

  datatype Tools = Tools(
    isRpm: bool,               // `file -b` describes the archive as "RPM ..."
    toolsInstalled: bool,      // `which rpm2cpio` and `which cpio` both succeed
    extractionSucceeds: bool,  // the pipe exits with status 0
    extracted: Entries)        // what it unpacked; `[]` is the extraction directory

  /** What `install_main` reports when it does not raise. */
  datatype InstallReport =
    | AlreadyInstalled         // "... is already installed"
    | Completed(linked: bool)  // "Install: completed successfully", and whether "[Link]" followed
    | Failed                   // "Install: failed"

  /** `installed?`: `File.exist?` at the package's store path, whatever is there. */
  predicate Installed(e: Entries, info: InstallInfo)
  {
    Exists(e, info.destPath)
  }

  /**
   * `installed?` sees through links: anything but a link stored at the store
   * path counts, a link there counts only when it leads somewhere, and for
   * the directory name `.` or `..` only the store root itself matters.
   */
  lemma InstalledMeaning(e: Entries, info: InstallInfo)
    requires Coherent(info)
    ensures !DotName(info.pkgBasename) && info.destPath in e && !e[info.destPath].Symlink? ==> Installed(e, info)
    ensures !DotName(info.pkgBasename) && info.destPath in e && e[info.destPath].Symlink? && e[info.destPath].target !in e ==>
      !Installed(e, info)
    ensures !DotName(info.pkgBasename) && info.destPath !in e ==> !Installed(e, info)
    ensures DotName(info.pkgBasename) ==> (Installed(e, info) <==> IsPhysicalDir(e, info.destRoot))
  {
    assert info.destPath != [] && info.destPath[|info.destPath| - 1] == info.pkgBasename;
    assert Parent(info.destPath) == info.destRoot;
  }

  /**
   * Where `FileUtils.move` leaves the payload: the store path, except that a
   * directory name `.` or `..` makes the store path an existing directory,
   * into which the payload moves under its own name.
   */
  function PayloadPlace(info: InstallInfo): Path
  {
    if DotName(info.pkgBasename) then Resolve(info.destPath) + [MovedName(info.srcRoot)] else info.destPath
  }

  // ---------------------------------------------------------------------------
  // What each step does to the file system

  /** `make_new_directory(dirname)`. */
  function MakeNewDirectorySpec(e: Entries, p: Path): Result<Entries>
  {
    if Exists(e, p) then
      if IsDirectory(e, p) then Ok(e) else Err(NotADirectory)
    else
      Create(e, p, Directory)
  }

  /** `expand_and_install(info)`: the outcome and the state it leaves. */
  function ExpandAndInstallSpec(e: Entries, info: InstallInfo, tools: Tools): (Outcome, Entries)
    requires info.destPath != []
  {
    match MakeNewDirectorySpec(e, info.destRoot)
    case Err(err) => (Fail(err), e)
    case Ok(e1) =>
      if !tools.toolsInstalled then (Fail(ToolMissing), e1)
      else if !tools.extractionSucceeds then (Fail(ExtractionFailed), e1)
      else
        var m := MoveStep(e1, tools.extracted, info.srcRoot, info.destPath);
        (OutcomeOf(m), StateAfter(e1, m))
  }

  /** `make_symlink(info)`: whether a link was made, and the state it leaves. */
  function MakeSymlinkSpec(e: Entries, info: InstallInfo, cwd: Path): (Result<bool>, Entries)
  {
    var dest := cwd + [info.pkgBasename];
    if Exists(e, dest) then (Ok(false), e)
    else
      var c := LnStep(e, info.destPath, dest);
      (if c.Ok? then Ok(true) else Err(c.error), StateAfter(e, c))
  }

  /** `install_main(pkg)`: the report or the error, and the state it leaves. */
  function InstallSpec(e: Entries, home: Path, cwd: Path, pkg: Path, tools: Tools): (Result<InstallReport>, Entries)
  {
    if !Exists(e, pkg) then (Err(ArchiveNotFound), e)
    else if !tools.isRpm then (Err(NotAnArchive), e)
    else match NewInstallInfo(home, pkg)
      case Err(err) => (Err(err), e)
      case Ok(info) =>
        if Installed(e, info) then (Ok(AlreadyInstalled), e)
        else FinishInstall(ExpandAndInstallSpec(e, info, tools), info, cwd)
  }

  /** After `expand_and_install`: report failure, or report success and link. */
  function FinishInstall(expanded: (Outcome, Entries), info: InstallInfo, cwd: Path): (Result<InstallReport>, Entries)
  {
    var (o, e1) := expanded;
    if o.Fail? then (Err(o.error), e1)
    else if !Installed(e1, info) then (Ok(Failed), e1)
    else
      var (l, e2) := MakeSymlinkSpec(e1, info, cwd);
      if l.Err? then (Err(l.error), e2) else (Ok(Completed(l.value)), e2)
  }

  // ---------------------------------------------------------------------------
  // The steps, one file-system call at a time

  method MakeNewDirectory(fs: FileSystem, p: Path) returns (r: Outcome)
    requires fs.Valid()
    modifies fs
    ensures fs.Valid()
    ensures r == OutcomeOf(MakeNewDirectorySpec(old(fs.entries), p))
    ensures fs.entries == StateAfter(old(fs.entries), MakeNewDirectorySpec(old(fs.entries), p))
    ensures old(IsDirectory(fs.entries, p)) ==> r == Pass && fs.entries == old(fs.entries)
    ensures old(Exists(fs.entries, p)) && !old(IsDirectory(fs.entries, p)) ==> r == Fail(NotADirectory) && fs.entries == old(fs.entries)
    ensures !old(Exists(fs.entries, p)) && r.Pass? ==> IsDirectory(fs.entries, p) && fs.entries == old(fs.entries)[p := Directory]
    ensures KeepsExisting(old(fs.entries), fs.entries)
  {
    if Exists(fs.entries, p) {
      if !IsDirectory(fs.entries, p) {
        return Fail(NotADirectory);
      }
      return Pass;
    }
    r := fs.Mkdir(p);
    // The `expect File.exists?(dirname)` after a successful mkdir always holds.
    assert r.Pass? ==> IsDirectory(fs.entries, p);
  }

  /** The store path cannot exist once its root was absent or just created. */
  lemma DestStillAbsent(e: Entries, info: InstallInfo)
    requires WellFormed(e) && Coherent(info) && !DotName(info.pkgBasename) && !Installed(e, info)
    requires MakeNewDirectorySpec(e, info.destRoot).Ok?
    ensures !Installed(MakeNewDirectorySpec(e, info.destRoot).value, info)
  {
    var e1 := MakeNewDirectorySpec(e, info.destRoot).value;
    if e1 != e {
      assert Parent(info.destPath) == info.destRoot;
      assert info.destPath !in e1;
    }
  }

  method ExpandAndInstall(fs: FileSystem, info: InstallInfo, tools: Tools) returns (r: Outcome)
    requires fs.Valid() && WellFormed(tools.extracted)
    requires Coherent(info) && !Installed(fs.entries, info)
    modifies fs
    ensures fs.Valid()
    ensures (r, fs.entries) == ExpandAndInstallSpec(old(fs.entries), info, tools)
    ensures KeepsExisting(old(fs.entries), fs.entries)
    ensures r.Pass? ==> PayloadPlace(info) in fs.entries && fs.entries[PayloadPlace(info)] == tools.extracted[info.srcRoot]
  {
    ghost var e0 := fs.entries;
    r := MakeNewDirectory(fs, info.destRoot);
    if r.Fail? {
      return;
    }
    if !DotName(info.pkgBasename) {
      DestStillAbsent(e0, info);
    }
    ghost var e1 := fs.entries;
    ExpandAndInstallSteps(e0, e1, info, tools);
    if !tools.toolsInstalled {
      return Fail(ToolMissing);
    }
    if !tools.extractionSucceeds {
      return Fail(ExtractionFailed);
    }
    r := fs.Move(tools.extracted, info.srcRoot, info.destPath);
    if r.Pass? {
      MovedToPayloadPlace(e1, info, tools.extracted);
      KeepsExistingTransitive(e0, e1, fs.entries);
    }
  }

  /** Once the store root is in place, the rest of `expand_and_install` starts from the state it left. */
  lemma ExpandAndInstallSteps(e0: Entries, e1: Entries, info: InstallInfo, tools: Tools)
    requires info.destPath != [] && MakeNewDirectorySpec(e0, info.destRoot) == Ok(e1)
    ensures ExpandAndInstallSpec(e0, info, tools) ==
      if !tools.toolsInstalled then (Fail(ToolMissing), e1)
      else if !tools.extractionSucceeds then (Fail(ExtractionFailed), e1)
      else
        var m := MoveStep(e1, tools.extracted, info.srcRoot, info.destPath);
        (OutcomeOf(m), StateAfter(e1, m))
  {
  }

  /** A completed move of the payload leaves it at its place. */
  lemma MovedToPayloadPlace(e: Entries, info: InstallInfo, tree: Entries)
    requires Coherent(info)
    requires MoveStep(e, tree, info.srcRoot, info.destPath).Ok?
    requires !DotName(info.pkgBasename) ==> !Exists(e, info.destPath)
    ensures MoveTarget(e, info.srcRoot, info.destPath) == PayloadPlace(info)
  {
  }

  method MakeSymlink(fs: FileSystem, info: InstallInfo, cwd: Path) returns (r: Result<bool>)
    requires fs.Valid()
    modifies fs
    ensures fs.Valid()
    ensures (r, fs.entries) == MakeSymlinkSpec(old(fs.entries), info, cwd)
    ensures old(Exists(fs.entries, cwd + [info.pkgBasename])) ==> r == Ok(false) && fs.entries == old(fs.entries)
    ensures r == Ok(true) ==> fs.entries == old(fs.entries)[cwd + [info.pkgBasename] := Symlink(info.destPath)]
    ensures r.Err? ==> fs.entries == old(fs.entries)
    ensures forall k :: k in old(fs.entries) ==> k in fs.entries && fs.entries[k] == old(fs.entries)[k]
  {
    var dest := cwd + [info.pkgBasename];
    if Exists(fs.entries, dest) {
      return Ok(false);
    }
    var o := fs.Ln(info.destPath, dest);
    r := if o.Pass? then Ok(true) else Err(o.error);
  }

  method InstallMain(fs: FileSystem, home: Path, cwd: Path, pkg: Path, tools: Tools) returns (r: Result<InstallReport>)
    requires fs.Valid() && WellFormed(tools.extracted)
    modifies fs
    ensures fs.Valid()
    ensures (r, fs.entries) == InstallSpec(old(fs.entries), home, cwd, pkg, tools)
    ensures !old(Exists(fs.entries, pkg)) ==> r == Err(ArchiveNotFound) && fs.entries == old(fs.entries)
    ensures old(Exists(fs.entries, pkg)) && !tools.isRpm ==> r == Err(NotAnArchive) && fs.entries == old(fs.entries)
    ensures old(Exists(fs.entries, pkg)) && tools.isRpm && NewInstallInfo(home, pkg).Err? ==>
      r == Err(UnrecognizedPackageKind) && fs.entries == old(fs.entries)
    ensures (old(Exists(fs.entries, pkg)) && tools.isRpm && NewInstallInfo(home, pkg).Ok? &&
             old(Installed(fs.entries, NewInstallInfo(home, pkg).value))) ==>
      r == Ok(AlreadyInstalled) && fs.entries == old(fs.entries)
    ensures KeepsExisting(old(fs.entries), fs.entries)
  {
    ghost var e0 := fs.entries;
    var infoOrError := NewInstallInfo(home, pkg);
    if !Exists(fs.entries, pkg) {
      r := Err(ArchiveNotFound);
    } else if !tools.isRpm {
      r := Err(NotAnArchive);
    } else if infoOrError.Err? {
      r := Err(infoOrError.error);
    } else if Installed(fs.entries, infoOrError.value) {
      r := Ok(AlreadyInstalled);
    } else {
      r := ExpandAndLink(fs, infoOrError.value, cwd, tools);
    }
    InstallKeepsExisting(e0, home, cwd, pkg, tools);
  }

  /** The part of `install_main` after the "already installed" test. */
  method ExpandAndLink(fs: FileSystem, info: InstallInfo, cwd: Path, tools: Tools) returns (r: Result<InstallReport>)
    requires fs.Valid() && WellFormed(tools.extracted)
    requires Coherent(info) && !Installed(fs.entries, info)
    modifies fs
    ensures fs.Valid()
    ensures (r, fs.entries) == FinishInstall(ExpandAndInstallSpec(old(fs.entries), info, tools), info, cwd)
  {
    var o := ExpandAndInstall(fs, info, tools);
    if o.Fail? {
      return Err(o.error);
    }
    if Installed(fs.entries, info) {
      var linked := MakeSymlink(fs, info, cwd);
      if linked.Err? {
        return Err(linked.error);
      }
      return Ok(Completed(linked.value));
    }
    return Ok(Failed);
  }

  // ---------------------------------------------------------------------------
  // Properties of an install

  lemma ExpandAndInstallKeepsExisting(e: Entries, info: InstallInfo, tools: Tools)
    requires WellFormed(e) && WellFormed(tools.extracted)
    requires Coherent(info) && !Installed(e, info)
    ensures WellFormed(ExpandAndInstallSpec(e, info, tools).1)
    ensures KeepsExisting(e, ExpandAndInstallSpec(e, info, tools).1)
  {
    var mk := MakeNewDirectorySpec(e, info.destRoot);
    if mk.Ok? {
      if mk.value != e {
        CreateKeepsTree(e, info.destRoot, Directory);
      }
      if !DotName(info.pkgBasename) {
        DestStillAbsent(e, info);
      }
      var m := MoveStep(mk.value, tools.extracted, info.srcRoot, info.destPath);
      if tools.toolsInstalled && tools.extractionSucceeds && m.Ok? {
        MoveKeepsTree(mk.value, tools.extracted, info.srcRoot, info.destPath);
        KeepsExistingTransitive(e, mk.value, m.value);
      }
    }
  }

  /**
   * An install never changes or removes anything that existed before it,
   * whether it completes, reports or raises; the file system stays a tree.
   */
  lemma InstallKeepsExisting(e: Entries, home: Path, cwd: Path, pkg: Path, tools: Tools)
    requires WellFormed(e) && WellFormed(tools.extracted)
    ensures WellFormed(InstallSpec(e, home, cwd, pkg, tools).1)
    ensures KeepsExisting(e, InstallSpec(e, home, cwd, pkg, tools).1)
  {
    if Exists(e, pkg) && tools.isRpm && NewInstallInfo(home, pkg).Ok? {
      var info := NewInstallInfo(home, pkg).value;
      if !Installed(e, info) {
        ExpandAndInstallKeepsExisting(e, info, tools);
        FinishKeepsExisting(e, ExpandAndInstallSpec(e, info, tools), info, cwd);
      }
    }
  }

  lemma FinishKeepsExisting(e: Entries, expanded: (Outcome, Entries), info: InstallInfo, cwd: Path)
    requires WellFormed(expanded.1) && KeepsExisting(e, expanded.1)
    ensures WellFormed(FinishInstall(expanded, info, cwd).1)
    ensures KeepsExisting(e, FinishInstall(expanded, info, cwd).1)
  {
    var (o, e1) := expanded;
    if o.Pass? && Installed(e1, info) {
      SymlinkKeepsExisting(e1, info, cwd);
      KeepsExistingTransitive(e, e1, MakeSymlinkSpec(e1, info, cwd).1);
    }
  }

  lemma SymlinkKeepsExisting(e: Entries, info: InstallInfo, cwd: Path)
    requires WellFormed(e)
    ensures WellFormed(MakeSymlinkSpec(e, info, cwd).1)
    ensures KeepsExisting(e, MakeSymlinkSpec(e, info, cwd).1)
  {
    var dest := cwd + [info.pkgBasename];
    if !Exists(e, dest) && LnStep(e, info.destPath, dest).Ok? {
      CreateKeepsTree(e, dest, Symlink(info.destPath));
    }
  }

  /** Errors found before the store is touched leave the file system as it was. */
  lemma EarlyErrorsChangeNothing(e: Entries, home: Path, cwd: Path, pkg: Path, tools: Tools)
    requires !Exists(e, pkg) || !tools.isRpm || NewInstallInfo(home, pkg).Err?
    ensures InstallSpec(e, home, cwd, pkg, tools).1 == e
    ensures InstallSpec(e, home, cwd, pkg, tools).0 ==
      if !Exists(e, pkg) then Err(ArchiveNotFound)
      else if !tools.isRpm then Err(NotAnArchive)
      else Err(UnrecognizedPackageKind)
  {
  }

  /**
   * Once the package is installed, installing it again reports so and
   * changes nothing, whatever the extraction tools would have done: nothing
   * is extracted.
   */
  lemma AlreadyInstalledChangesNothing(e: Entries, home: Path, cwd: Path, pkg: Path, tools: Tools, other: Tools)
    requires Exists(e, pkg) && tools.isRpm && other.isRpm
    requires NewInstallInfo(home, pkg).Ok? && Installed(e, NewInstallInfo(home, pkg).value)
    ensures InstallSpec(e, home, cwd, pkg, tools) == (Ok(AlreadyInstalled), e)
    ensures InstallSpec(e, home, cwd, pkg, other) == InstallSpec(e, home, cwd, pkg, tools)
  {
  }

  /** Installing twice: the second install reports "already installed" and changes nothing. */
  lemma InstallIdempotent(e: Entries, home: Path, cwd: Path, cwd': Path, pkg: Path, tools: Tools, again: Tools)
    requires WellFormed(e) && WellFormed(tools.extracted) && again.isRpm
    requires InstallSpec(e, home, cwd, pkg, tools).0.Ok?
    ensures var e' := InstallSpec(e, home, cwd, pkg, tools).1;
      InstallSpec(e', home, cwd', pkg, again) == (Ok(AlreadyInstalled), e')
      || InstallSpec(e, home, cwd, pkg, tools).0 == Ok(Failed)
  {
    var (r, e') := InstallSpec(e, home, cwd, pkg, tools);
    InstallKeepsExisting(e, home, cwd, pkg, tools);
    StatKept(e, e', pkg);
    InstallOkUnfold(e, home, cwd, pkg, tools);
    var info := NewInstallInfo(home, pkg).value;
    if Installed(e, info) {
      StatKept(e, e', info.destPath);
    } else if r != Ok(Failed) {
      ExpandAndInstallKeepsExisting(e, info, tools);
      FinishStaysInstalled(ExpandAndInstallSpec(e, info, tools), info, cwd);
    }
  }

  /** A run that reports success found the archive and either found the package or went on to install it. */
  lemma InstallOkUnfold(e: Entries, home: Path, cwd: Path, pkg: Path, tools: Tools)
    requires InstallSpec(e, home, cwd, pkg, tools).0.Ok?
    ensures Exists(e, pkg) && tools.isRpm && NewInstallInfo(home, pkg).Ok?
    ensures var info := NewInstallInfo(home, pkg).value;
      !Installed(e, info) ==> InstallSpec(e, home, cwd, pkg, tools) == FinishInstall(ExpandAndInstallSpec(e, info, tools), info, cwd)
  {
  }

  /** Once the package is in place, linking it keeps it in place. */
  lemma FinishStaysInstalled(expanded: (Outcome, Entries), info: InstallInfo, cwd: Path)
    requires WellFormed(expanded.1)
    ensures FinishInstall(expanded, info, cwd).0.Ok? && FinishInstall(expanded, info, cwd).0 != Ok(Failed) ==>
      Installed(FinishInstall(expanded, info, cwd).1, info)
  {
    if expanded.0.Pass? && Installed(expanded.1, info) {
      FinishKeepsExisting(expanded.1, expanded, info, cwd);
      StatKept(expanded.1, FinishInstall(expanded, info, cwd).1, info.destPath);
    }
  }

  /** Anything stored at a path other than a link is seen by `File.exist?`. */
  lemma PlainEntryExists(e: Entries, p: Path)
    ensures p in e && !e[p].Symlink? && (p == [] || !DotName(p[|p| - 1])) ==> Exists(e, p)
  {
  }

  /** A completed expansion leaves the payload, exactly as extracted, at the store path. */
  lemma ExpandPlacesPayload(e: Entries, info: InstallInfo, tools: Tools)
    requires WellFormed(e) && WellFormed(tools.extracted)
    requires Coherent(info) && !Installed(e, info)
    requires ExpandAndInstallSpec(e, info, tools).0.Pass?
    ensures info.srcRoot in tools.extracted
    ensures var e1 := ExpandAndInstallSpec(e, info, tools).1;
      PayloadPlace(info) in e1 && e1[PayloadPlace(info)] == tools.extracted[info.srcRoot]
  {
    var mk := MakeNewDirectorySpec(e, info.destRoot);
    if mk.value != e {
      CreateKeepsTree(e, info.destRoot, Directory);
    }
    if !DotName(info.pkgBasename) {
      DestStillAbsent(e, info);
    }
    MoveKeepsTree(mk.value, tools.extracted, info.srcRoot, info.destPath);
    MovedToPayloadPlace(mk.value, info, tools.extracted);
  }

  /** With a directory name `.` or `..`, a completed expansion always counts as installed. */
  lemma DotNamedExpansionInstalled(e: Entries, info: InstallInfo, tools: Tools)
    requires WellFormed(e) && WellFormed(tools.extracted)
    requires Coherent(info) && !Installed(e, info)
    ensures DotName(info.pkgBasename) && ExpandAndInstallSpec(e, info, tools).0.Pass? ==>
      Installed(ExpandAndInstallSpec(e, info, tools).1, info)
  {
    if DotName(info.pkgBasename) && ExpandAndInstallSpec(e, info, tools).0.Pass? {
      var e1 := MakeNewDirectorySpec(e, info.destRoot).value;
      if e1 != e {
        CreateKeepsTree(e, info.destRoot, Directory);
      }
      MoveKeepsTree(e1, tools.extracted, info.srcRoot, info.destPath);
      MoveTargetNamed(e1, tools.extracted, info.srcRoot, info.destPath);
      assert IsPhysicalDir(e1, info.destRoot);
    }
  }

  /**
   * "Install: failed" is reported only when the payload that was moved is a
   * symbolic link that leads nowhere; a payload missing from the archive
   * makes the move raise instead.
   */
  lemma FailedMeansDanglingPayload(e: Entries, home: Path, cwd: Path, pkg: Path, tools: Tools)
    requires WellFormed(e) && WellFormed(tools.extracted)
    requires InstallSpec(e, home, cwd, pkg, tools).0 == Ok(Failed)
    ensures var info := NewInstallInfo(home, pkg).value;
      info.srcRoot in tools.extracted && tools.extracted[info.srcRoot].Symlink?
  {
    FailedAfterExpansion(e, home, cwd, pkg, tools);
    ExpandedButAbsent(e, NewInstallInfo(home, pkg).value, tools);
  }

  /** The report `Failed` comes only from an expansion that passed and left the package absent. */
  lemma FailedAfterExpansion(e: Entries, home: Path, cwd: Path, pkg: Path, tools: Tools)
    requires InstallSpec(e, home, cwd, pkg, tools).0 == Ok(Failed)
    ensures NewInstallInfo(home, pkg).Ok?
    ensures var info := NewInstallInfo(home, pkg).value;
      && !Installed(e, info)
      && ExpandAndInstallSpec(e, info, tools).0.Pass?
      && !Installed(ExpandAndInstallSpec(e, info, tools).1, info)
  {
  }

  /** An expansion that completes without installing moved a link that leads nowhere. */
  lemma ExpandedButAbsent(e: Entries, info: InstallInfo, tools: Tools)
    requires WellFormed(e) && WellFormed(tools.extracted)
    requires Coherent(info) && !Installed(e, info)
    ensures ExpandAndInstallSpec(e, info, tools).0.Pass? && !Installed(ExpandAndInstallSpec(e, info, tools).1, info) ==>
      info.srcRoot in tools.extracted && tools.extracted[info.srcRoot].Symlink?
  {
    var x := ExpandAndInstallSpec(e, info, tools);
    if x.0.Pass? && !Installed(x.1, info) {
      DotNamedExpansionInstalled(e, info, tools);
      ExpandPlacesPayload(e, info, tools);
      PlainEntryExists(x.1, info.destPath);
    }
  }

  lemma MissingPayloadRaises(e: Entries, home: Path, cwd: Path, pkg: Path, tools: Tools)
    requires WellFormed(e) && WellFormed(tools.extracted)
    requires Exists(e, pkg) && tools.isRpm && tools.toolsInstalled && tools.extractionSucceeds
    requires NewInstallInfo(home, pkg).Ok? && !Installed(e, NewInstallInfo(home, pkg).value)
    requires MakeNewDirectorySpec(e, NewInstallInfo(home, pkg).value.destRoot).Ok?
    requires NewInstallInfo(home, pkg).value.srcRoot !in tools.extracted
    ensures InstallSpec(e, home, cwd, pkg, tools) ==
      (Err(SystemCallFailed(ENOENT)), MakeNewDirectorySpec(e, NewInstallInfo(home, pkg).value.destRoot).value)
  {
    var info := NewInstallInfo(home, pkg).value;
    assert [] in tools.extracted;
    DestStillAbsent(e, info);
    MissingPayloadAfterMkdir(e, home, cwd, pkg, tools);
  }

  lemma MissingPayloadAfterMkdir(e: Entries, home: Path, cwd: Path, pkg: Path, tools: Tools)
    requires Exists(e, pkg) && tools.isRpm && tools.toolsInstalled && tools.extractionSucceeds
    requires NewInstallInfo(home, pkg).Ok? && !Installed(e, NewInstallInfo(home, pkg).value)
    requires MakeNewDirectorySpec(e, NewInstallInfo(home, pkg).value.destRoot).Ok?
    requires !Installed(MakeNewDirectorySpec(e, NewInstallInfo(home, pkg).value.destRoot).value, NewInstallInfo(home, pkg).value)
    requires NewInstallInfo(home, pkg).value.srcRoot !in tools.extracted
    ensures InstallSpec(e, home, cwd, pkg, tools) ==
      (Err(SystemCallFailed(ENOENT)), MakeNewDirectorySpec(e, NewInstallInfo(home, pkg).value.destRoot).value)
  {
  }

  /**
   * A link that leads nowhere, already at the link's place in the working
   * directory, is not seen by `File.exist?`, so `ln_s` is tried and raises.
   */
  lemma DanglingLinkAtDestRaises(e: Entries, info: InstallInfo, cwd: Path)
    requires cwd + [info.pkgBasename] in e && !Exists(e, cwd + [info.pkgBasename])
    ensures MakeSymlinkSpec(e, info, cwd) == (Err(SystemCallFailed(EEXIST)), e)
  {
  }
}
