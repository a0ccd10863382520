/**
 * The package locator (`Install::InstallInfo`): from the archive's file name
 * it decides the kind of package, the store root it goes to, the part of the
 * extracted tree that is kept, and the name of its directory in the store.
 */
module Locator {
  import opened Outcomes
  import opened Names
  import Fs

  datatype PackageKind = DebugInfo | SourceRpm

  /** The store directory of a kind, under the home directory. */
  function StoreDirName(kind: PackageKind): string
  {
    match kind
    case DebugInfo => ".debuginfo"
    case SourceRpm => ".srpm"
  }

  function StoreRoot(home: Fs.Path, kind: PackageKind): Fs.Path
  {
    home + [StoreDirName(kind)]
  }

  /** The part of the extracted tree that is moved into the store (`[]`: all of it). */
  function PayloadPath(kind: PackageKind): Fs.Path
  {
    match kind
    case DebugInfo => ["usr", "src", "debug"]
    case SourceRpm => []
  }

  /** The suffix removed from the archive name to obtain the package's directory name. */
  function Extension(kind: PackageKind): string
  {
    match kind
    case DebugInfo => ".rpm"
    case SourceRpm => ".src.rpm"
  }

  /** The pattern `/\.src\.rpm\z/`. */
  predicate IsSrpmName(name: string)
  {
    EndsWith(name, ".src.rpm")
  }

  /**
   * `-debuginfo-` starts at `i`, and from its end to the final `.rpm` there is
   * no line break (a regular-expression `.` does not match one).
   */
  predicate DebuginfoMarkerAt(name: string, i: int)
  {
    && 0 <= i && i + 11 <= |name| - 4
    && name[i..i + 11] == "-debuginfo-"
    && forall j :: i + 11 <= j < |name| - 4 ==> name[j] != '\n'
  }

  /** The pattern `/-debuginfo-.*\.rpm\z/`. */
  predicate IsDebuginfoName(name: string)
  {
    EndsWith(name, ".rpm") && exists i | 0 <= i <= |name| :: DebuginfoMarkerAt(name, i)
  }

  /** `get_dir_info`: the `.src.rpm` test comes first, so it decides names that match both. */
  function GetDirInfo(name: string): (r: Result<PackageKind>)
    ensures r.Ok? <==> IsSrpmName(name) || IsDebuginfoName(name)
    ensures r.Ok? ==> (r.value == SourceRpm <==> IsSrpmName(name))
    ensures r.Err? ==> r.error == UnrecognizedPackageKind
  {
    if IsSrpmName(name) then Ok(SourceRpm)
    else if IsDebuginfoName(name) then Ok(DebugInfo)
    else Err(UnrecognizedPackageKind)
  }

  /** `File.basename` of a path: `/` for the root. */
  function BaseName(p: Fs.Path): string
  {
    if p == [] then "/" else p[|p| - 1]
  }

  /** The fields of `InstallInfo` for one archive. */
  datatype InstallInfo = InstallInfo(
    kind: PackageKind,
    srcRoot: Fs.Path,      // payload, relative to the extraction directory
    destRoot: Fs.Path,     // the store root
    pkgBasename: string,   // the package's directory name in the store
    pkgFullPath: Fs.Path,  // the archive handed to the extractor
    destPath: Fs.Path)     // where the package lives once installed

  /**
   * What `InstallInfo.new` makes sure of: the store path is the directory
   * name under the store root, and a directory name `.` or `..` can only come
   * from a source package, whose payload is the whole extracted tree.
   */
  predicate Coherent(info: InstallInfo)
  {
    && info.destPath == info.destRoot + [info.pkgBasename]
    && (Fs.DotName(info.pkgBasename) ==> info.srcRoot == [])
  }

  /** `InstallInfo.new(pkg)`; raises for a name that is neither kind. */
  function NewInstallInfo(home: Fs.Path, pkg: Fs.Path): (r: Result<InstallInfo>)
    ensures r.Err? <==> !IsSrpmName(BaseName(pkg)) && !IsDebuginfoName(BaseName(pkg))
    ensures r.Err? ==> r.error == UnrecognizedPackageKind
    ensures r.Ok? ==>
      && r.value.destRoot == StoreRoot(home, r.value.kind)
      && r.value.srcRoot == PayloadPath(r.value.kind)
      && r.value.destPath == r.value.destRoot + [r.value.pkgBasename]
      && r.value.pkgFullPath == pkg
      && |r.value.pkgBasename| > 0
      && (r.value.pkgBasename + Extension(r.value.kind) == BaseName(pkg)
          || r.value.pkgBasename == BaseName(pkg) == Extension(r.value.kind))
    ensures r.Ok? ==> Coherent(r.value)
  {
    match GetDirInfo(BaseName(pkg))
    case Err(e) => Err(e)
    case Ok(kind) =>
      var name := BaseName(pkg);
      var base := StripExtension(name, Extension(kind));
      var root := StoreRoot(home, kind);
      assert kind == DebugInfo ==> |base| >= 11 by {
        if kind == DebugInfo {
          var i :| 0 <= i <= |name| && DebuginfoMarkerAt(name, i);
        }
      }
      Ok(InstallInfo(kind, PayloadPath(kind), root, base, pkg, root + [base]))
  }

  /** A `.src.rpm` archive goes whole to `~/.srpm/<name without .src.rpm>`. */
  lemma ClassifySourceRpm(home: Fs.Path, pkg: Fs.Path)
    requires IsSrpmName(BaseName(pkg))
    ensures NewInstallInfo(home, pkg).Ok?
    ensures var info := NewInstallInfo(home, pkg).value;
      && info.kind == SourceRpm
      && info.destRoot == home + [".srpm"]
      && info.srcRoot == []
      && info.destPath == home + [".srpm", info.pkgBasename]
      && (BaseName(pkg) != ".src.rpm" ==> info.pkgBasename + ".src.rpm" == BaseName(pkg))
  {
  }

  /** A `-debuginfo-...rpm` archive keeps its `usr/src/debug` in `~/.debuginfo/<name without .rpm>`. */
  lemma ClassifyDebugInfo(home: Fs.Path, pkg: Fs.Path)
    requires !IsSrpmName(BaseName(pkg)) && IsDebuginfoName(BaseName(pkg))
    ensures NewInstallInfo(home, pkg).Ok?
    ensures var info := NewInstallInfo(home, pkg).value;
      && info.kind == DebugInfo
      && info.destRoot == home + [".debuginfo"]
      && info.srcRoot == ["usr", "src", "debug"]
      && info.destPath == home + [".debuginfo", info.pkgBasename]
      && info.pkgBasename + ".rpm" == BaseName(pkg)
  {
    var name := BaseName(pkg);
    assert GetDirInfo(name) == Ok(DebugInfo);
    var i :| 0 <= i <= |name| && DebuginfoMarkerAt(name, i);
    assert name != ".rpm";
  }

  /** The two patterns overlap: the `.src.rpm` test wins because it runs first. */
  lemma SourceRpmTestedFirst()
    ensures IsSrpmName("x-debuginfo-1.src.rpm") && IsDebuginfoName("x-debuginfo-1.src.rpm")
    ensures GetDirInfo("x-debuginfo-1.src.rpm") == Ok(SourceRpm)
  {
    var name := "x-debuginfo-1.src.rpm";
    assert DebuginfoMarkerAt(name, 1);
  }

  /** A line break between `-debuginfo-` and `.rpm` keeps the name from matching. */
  lemma LineBreakDefeatsDebuginfo()
    ensures GetDirInfo("a-debuginfo-\n.rpm") == Err(UnrecognizedPackageKind)
  {
    var name := "a-debuginfo-\n.rpm";
    assert |name| == 17;
    assert !IsSrpmName(name) by { assert name[9..][0] != ".src.rpm"[0]; }
    forall i | 0 <= i <= |name| ensures !DebuginfoMarkerAt(name, i) {
      NoMarkerInExample(name, i);
    }
  }

  lemma NoMarkerInExample(name: string, i: int)
    requires name == "a-debuginfo-\n.rpm"
    ensures !DebuginfoMarkerAt(name, i)
  {
    if 0 <= i && i + 11 <= |name| - 4 {
      if i == 0 {
        assert name[i..i + 11][1] != "-debuginfo-"[1];
      } else if i == 1 {
        assert name[12] == '\n';
      } else {
        assert i == 2;
        assert name[i..i + 11][0] != '-';
      }
    }
  }

  /** The archive named `.src.rpm` keeps its whole name as its directory name. */
  lemma BareSuffixKeepsName(home: Fs.Path)
    ensures NewInstallInfo(home, [".src.rpm"]).Ok?
    ensures NewInstallInfo(home, [".src.rpm"]).value.destPath == home + [".srpm", ".src.rpm"]
  {
  }

  /** The worked example: `httpd-debuginfo-1.0.rpm` installs as `~/.debuginfo/httpd-debuginfo-1.0`. */
  lemma DebugInfoExample(home: Fs.Path, dir: Fs.Path)
    ensures NewInstallInfo(home, dir + ["httpd-debuginfo-1.0.rpm"]).Ok?
    ensures NewInstallInfo(home, dir + ["httpd-debuginfo-1.0.rpm"]).value.destPath == home + [".debuginfo", "httpd-debuginfo-1.0"]
  {
    var name := "httpd-debuginfo-1.0.rpm";
    assert BaseName(dir + [name]) == name;
    ExampleNameIsDebugInfo(name);
  }

  lemma ExampleNameIsDebugInfo(name: string)
    requires name == "httpd-debuginfo-1.0.rpm"
    ensures GetDirInfo(name) == Ok(DebugInfo)
    ensures StripExtension(name, ".rpm") == "httpd-debuginfo-1.0"
  {
    assert !IsSrpmName(name) by { assert name[15..][0] != ".src.rpm"[0]; }
    ExampleMarker(name);
    assert StripExtension(name, ".rpm") == name[..19] == "httpd-debuginfo-1.0";
  }

  lemma ExampleMarker(name: string)
    requires name == "httpd-debuginfo-1.0.rpm"
    ensures DebuginfoMarkerAt(name, 5)
  {
    var marker := "-debuginfo-";
    assert name == "httpd" + marker + "1.0.rpm";
    assert name[5..16] == marker;
    assert name[16] == '1' && name[17] == '.' && name[18] == '0';
  }
}
