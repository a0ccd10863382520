/**
 * `list`: search both store roots with a pattern derived from the name and
 * show, per root, the matching package directories.
 */
module List {
  import opened Outcomes
  import opened Fs
  import Glob
  import Locator
  import opened Selection

  /**
   * The pattern `List.exec` searches with: `*` for no name, the name itself
   * when it holds a `*`, and `*name*` otherwise.
   */
  function NormalizePattern(name: Option<string>): (pat: string)
    ensures |pat| > 0
    ensures name.Some? && '*' in name.value ==> pat == name.value
    ensures '*' in pat
  {
    if name.None? || name.value == "" then "*"
    else if '*' in name.value then name.value
    else "*" + name.value + "*"
  }

  /**
   * What the normalised pattern selects: every visible name for no name, and
   * for a name without `*`, exactly the visible names containing it.
   */
  lemma NormalizedPatternMeaning(name: Option<string>, n: string)
    ensures name.None? || name.value == "" ==> (Glob.Match(NormalizePattern(name), n) <==> !Glob.Hidden(n))
    ensures name.Some? && '*' !in name.value ==>
      (Glob.Match(NormalizePattern(name), n) <==> !Glob.Hidden(n) && Glob.IsSubstring(name.value, n))
  {
    Glob.StarMatchesAll(n);
    if name.Some? && '*' !in name.value {
      Glob.SubstringMatch(name.value, n);
      if name.value == "" {
        assert Glob.OccursAt("", n, 0);
      }
    }
  }

  /** The names printed for a glob result: the last component of each path. */
  function Basenames(ps: seq<Path>): (r: seq<string>)
    ensures |r| == |ps|
    ensures forall i :: 0 <= i < |ps| ==> r[i] == Locator.BaseName(ps[i])
  {
    seq(|ps|, i requires 0 <= i < |ps| => Locator.BaseName(ps[i]))
  }

  /** One block of `list` output: the root, the `<no files>` line, the names shown. */
  datatype Section = Section(dir: Path, noFiles: bool, shown: seq<string>)

  lemma BasenamesAppend(a: seq<Path>, b: seq<Path>)
    ensures Basenames(a + b) == Basenames(a) + Basenames(b)
  {
  }

  /** The loop of `show_list`: the name of each path that is a directory, in order. */
  method DirectoryNames(e: Entries, dirs: seq<Path>) returns (shown: seq<string>)
    ensures shown == Basenames(OnlyDirectories(e, dirs))
  {
    shown := [];
    for i := 0 to |dirs|
      invariant shown == Basenames(OnlyDirectories(e, dirs[..i]))
    {
      var p := dirs[i];
      DirectoryNamesStep(e, dirs, i);
      if IsDirectory(e, p) {
        shown := shown + [Locator.BaseName(p)];
      }
    }
    assert dirs[..|dirs|] == dirs;
  }

  /** One more path adds its name exactly when it is a directory. */
  lemma DirectoryNamesStep(e: Entries, dirs: seq<Path>, i: int)
    requires 0 <= i < |dirs|
    ensures Basenames(OnlyDirectories(e, dirs[..i + 1])) ==
      Basenames(OnlyDirectories(e, dirs[..i])) + (if IsDirectory(e, dirs[i]) then [Locator.BaseName(dirs[i])] else [])
  {
    var p := dirs[i];
    assert dirs[..i + 1] == dirs[..i] + [p];
    OnlyDirectoriesAppend(e, dirs[..i], [p]);
    assert [p][1..] == [];
    BasenamesAppend(OnlyDirectories(e, dirs[..i]), OnlyDirectories(e, [p]));
  }

  /**
   * `show_list(dir, name)`: `<no files>` exactly when the glob found nothing,
   * then the name of each match that is a directory, in glob order.
   */
  method ShowList(e: Entries, dir: Path, pat: string) returns (s: Section)
    ensures s.dir == dir
    ensures s.noFiles <==> DirGlob(e, dir, pat) == []
    ensures s.shown == Basenames(OnlyDirectories(e, DirGlob(e, dir, pat)))
  {
    var dirs := DirGlob(e, dir, pat);
    var shown := DirectoryNames(e, dirs);
    s := Section(dir, dirs == [], shown);
  }

  /**
   * A name is shown exactly when `dir/n` is a directory entry the pattern
   * matches; a pattern holding `*`, as every pattern `list` uses does, is
   * never the literal `.` or `..`.
   */
  lemma ShownNames(e: Entries, dir: Path, pat: string, n: string)
    requires !DotName(pat)
    ensures n in Basenames(OnlyDirectories(e, DirGlob(e, dir, pat))) <==>
      dir + [n] in e && Glob.Match(pat, n) && IsDirectory(e, dir + [n])
  {
    var g := DirGlob(e, dir, pat);
    var ds := OnlyDirectories(e, g);
    assert forall p :: p in ds ==> |p| == |dir| + 1 && p[..|dir|] == dir;
    BasenamesOfChildren(ds, dir, n);
    var p := dir + [n];
    assert p[..|dir|] == dir && p[|dir|] == n;
  }

  /** Among children of one directory, a base name is shown exactly when that child is listed. */
  lemma BasenamesOfChildren(ds: seq<Path>, dir: Path, n: string)
    requires forall p :: p in ds ==> |p| == |dir| + 1 && p[..|dir|] == dir
    ensures n in Basenames(ds) <==> dir + [n] in ds
  {
    var b := Basenames(ds);
    if n in b {
      var i :| 0 <= i < |b| && b[i] == n;
      assert ds[i] in ds;
      assert ds[i] == ds[i][..|dir|] + [ds[i][|dir|]];
    }
    if dir + [n] in ds {
      var i :| 0 <= i < |ds| && ds[i] == dir + [n];
      assert b[i] == n;
    }
  }

  /**
   * The `<no files>` line follows the raw glob, not what is shown: when every
   * match is a plain file or a link to one, the section shows no names and no
   * `<no files>` line either.
   */
  lemma NoFilesIgnoresKind(e: Entries, dir: Path, pat: string)
    requires DirGlob(e, dir, pat) != []
    requires forall p :: p in DirGlob(e, dir, pat) ==> !IsDirectory(e, p)
    ensures Basenames(OnlyDirectories(e, DirGlob(e, dir, pat))) == []
  {
    NoDirectoriesAmong(e, DirGlob(e, dir, pat));
  }

  lemma {:induction false} NoDirectoriesAmong(e: Entries, ps: seq<Path>)
    requires forall p :: p in ps ==> !IsDirectory(e, p)
    ensures OnlyDirectories(e, ps) == []
    decreases |ps|
  {
    if ps != [] {
      assert ps[0] in ps;
      NoDirectoriesAmong(e, ps[1..]);
    }
  }

  /** The output of `list`: the pattern echoed, then the `.debuginfo` and `.srpm` sections. */
  datatype Listing = Listing(pattern: string, debugInfo: Section, sourceRpm: Section)

  /** `List.exec(name)`. */
  method ListExec(e: Entries, home: Path, name: Option<string>) returns (l: Listing)
    ensures l.pattern == NormalizePattern(name)
    ensures l.debugInfo.dir == SearchRoots(home)[0] && l.sourceRpm.dir == SearchRoots(home)[1]
    ensures forall n :: n in l.debugInfo.shown <==>
      SearchRoots(home)[0] + [n] in e && Glob.Match(l.pattern, n) && IsDirectory(e, SearchRoots(home)[0] + [n])
    ensures forall n :: n in l.sourceRpm.shown <==>
      SearchRoots(home)[1] + [n] in e && Glob.Match(l.pattern, n) && IsDirectory(e, SearchRoots(home)[1] + [n])
    ensures l.debugInfo.noFiles <==> DirGlob(e, SearchRoots(home)[0], l.pattern) == []
    ensures l.sourceRpm.noFiles <==> DirGlob(e, SearchRoots(home)[1], l.pattern) == []
  {
    var pat := NormalizePattern(name);
    var roots := SearchRoots(home);
    assert pat != "." && pat != ".." by {
      assert '*' !in "." && '*' !in "..";
    }
    var d := ShowList(e, roots[0], pat);
    var s := ShowList(e, roots[1], pat);
    forall n ensures n in d.shown <==> roots[0] + [n] in e && Glob.Match(pat, n) && IsDirectory(e, roots[0] + [n]) {
      ShownNames(e, roots[0], pat, n);
    }
    forall n ensures n in s.shown <==> roots[1] + [n] in e && Glob.Match(pat, n) && IsDirectory(e, roots[1] + [n]) {
      ShownNames(e, roots[1], pat, n);
    }
    l := Listing(pat, d, s);
  }
}
