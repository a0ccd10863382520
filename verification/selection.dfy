/**
 * How `remove` and `link` choose what to act on (`Remove_Link_Common` in
 * smgr.rb): the package directories a name matches under the store roots,
 * and the yes/no question asked before anything happens.
 */
module Selection {
  import opened Outcomes
  import opened Fs
  import Glob
  import Locator

  /** `[DEBUGINFO_DIR, SRPM_DIR]`, in that order. */
  function SearchRoots(home: Path): seq<Path>
  {
    [Locator.StoreRoot(home, Locator.DebugInfo), Locator.StoreRoot(home, Locator.SourceRpm)]
  }

  /** What one root adds in the `inject`: its matches when it is a directory, nothing otherwise. */
  function RootMatches(e: Entries, root: Path, name: string): seq<Path>
  {
    if IsDirectory(e, root) then DirGlob(e, root, name) else []
  }

  /** The `inject` over the roots: every root's matches, root after root. */
  function Gather(e: Entries, roots: seq<Path>, name: string): (r: seq<Path>)
    ensures forall p :: p in r <==> exists i :: 0 <= i < |roots| && p in RootMatches(e, roots[i], name)
    decreases |roots|
  {
    if roots == [] then []
    else
      var rest := Gather(e, roots[1..], name);
      assert forall i :: 0 <= i < |roots| - 1 ==> roots[1..][i] == roots[i + 1];
      RootMatches(e, roots[0], name) + rest
  }

  /** The `find_all`: the directories among `ps`, in their order. */
  function OnlyDirectories(e: Entries, ps: seq<Path>): (r: seq<Path>)
    ensures forall p :: p in r <==> p in ps && IsDirectory(e, p)
    decreases |ps|
  {
    if ps == [] then []
    else (if IsDirectory(e, ps[0]) then [ps[0]] else []) + OnlyDirectories(e, ps[1..])
  }

  lemma {:induction false} OnlyDirectoriesAppend(e: Entries, a: seq<Path>, b: seq<Path>)
    ensures OnlyDirectories(e, a + b) == OnlyDirectories(e, a) + OnlyDirectories(e, b)
    decreases |a|
  {
    if a != [] {
      assert a == [a[0]] + a[1..] && a + b == [a[0]] + (a[1..] + b);
      OnlyDirectoriesCons(e, a[0], a[1..]);
      OnlyDirectoriesCons(e, a[0], a[1..] + b);
      OnlyDirectoriesAppend(e, a[1..], b);
      ConcatAssociative(if IsDirectory(e, a[0]) then [a[0]] else [], OnlyDirectories(e, a[1..]), OnlyDirectories(e, b));
    } else {
      assert a + b == b;
    }
  }

  lemma ConcatAssociative(x: seq<Path>, y: seq<Path>, z: seq<Path>)
    ensures x + (y + z) == (x + y) + z
  {
  }

  lemma OnlyDirectoriesCons(e: Entries, p: Path, ps: seq<Path>)
    ensures OnlyDirectories(e, [p] + ps) == (if IsDirectory(e, p) then [p] else []) + OnlyDirectories(e, ps)
  {
    assert ([p] + ps)[0] == p && ([p] + ps)[1..] == ps;
  }

  predicate Distinct(ps: seq<Path>)
  {
    forall i, j :: 0 <= i < j < |ps| ==> ps[i] != ps[j]
  }

  lemma {:induction false} OnlyDirectoriesDistinct(e: Entries, ps: seq<Path>)
    requires Distinct(ps)
    ensures Distinct(OnlyDirectories(e, ps))
    decreases |ps|
  {
    if ps != [] {
      assert Distinct(ps[1..]) by {
        forall i, j | 0 <= i < j < |ps| - 1 ensures ps[1..][i] != ps[1..][j] {
          assert ps[1..][i] == ps[i + 1] && ps[1..][j] == ps[j + 1];
        }
      }
      OnlyDirectoriesDistinct(e, ps[1..]);
      assert ps[0] !in ps[1..] by {
        forall k | 0 <= k < |ps| - 1 ensures ps[1..][k] != ps[0] {
          assert ps[1..][k] == ps[k + 1];
        }
      }
    }
  }

  /**
   * `collect_target_dirs(root_dirs, name)`: nothing for a missing or empty
   * name; otherwise the matches of `name` in each root that is a directory,
   * kept only when they are directories themselves.
   */
  function CollectTargetDirs(e: Entries, roots: seq<Path>, name: Option<string>): (r: seq<Path>)
    ensures name.None? || name.value == "" ==> r == []
    ensures forall p :: p in r ==> IsDirectory(e, p) && p != []
  {
    if name.None? || name.value == "" then []
    else OnlyDirectories(e, Gather(e, roots, name.value))
  }

  /**
   * A non-empty name selects exactly the directories `root/n` stored under a
   * root that is a directory, whose last component `n` the name matches; the
   * name `.` or `..` is taken literally and selects `root/.` or `root/..` of
   * every root stored as a directory.
   */
  lemma CollectMembers(e: Entries, roots: seq<Path>, name: string, p: Path)
    requires name != ""
    ensures p in CollectTargetDirs(e, roots, Some(name)) <==>
      IsDirectory(e, p) &&
      exists i :: 0 <= i < |roots| && IsDirectory(e, roots[i]) &&
        if DotName(name) then IsPhysicalDir(e, roots[i]) && p == roots[i] + [name]
        else p in e && |p| == |roots[i]| + 1 && p[..|roots[i]|] == roots[i] && Glob.Match(name, p[|roots[i]|])
  {
    if p in CollectTargetDirs(e, roots, Some(name)) {
      var i :| 0 <= i < |roots| && p in RootMatches(e, roots[i], name);
      RootMatchesMember(e, roots[i], name, p);
    }
    if IsDirectory(e, p) &&
      exists i :: 0 <= i < |roots| && IsDirectory(e, roots[i]) &&
        if DotName(name) then IsPhysicalDir(e, roots[i]) && p == roots[i] + [name]
        else p in e && |p| == |roots[i]| + 1 && p[..|roots[i]|] == roots[i] && Glob.Match(name, p[|roots[i]|])
    {
      var i :| 0 <= i < |roots| && IsDirectory(e, roots[i]) &&
        if DotName(name) then IsPhysicalDir(e, roots[i]) && p == roots[i] + [name]
        else p in e && |p| == |roots[i]| + 1 && p[..|roots[i]|] == roots[i] && Glob.Match(name, p[|roots[i]|]);
      RootMatchesMember(e, roots[i], name, p);
    }
  }

  /** What one root contributes to the selection. */
  lemma RootMatchesMember(e: Entries, root: Path, name: string, p: Path)
    ensures p in RootMatches(e, root, name) <==>
      IsDirectory(e, root) &&
      if DotName(name) then IsPhysicalDir(e, root) && p == root + [name]
      else p in e && |p| == |root| + 1 && p[..|root|] == root && Glob.Match(name, p[|root|])
  {
  }

  /**
   * Over the store roots, the name `.` or `..` selects `root/.` or `root/..`
   * for each root stored as a directory, `.debuginfo` first; with `..` every
   * selected path stands for the home directory itself.
   */
  lemma DotNamesSelectRoots(e: Entries, home: Path, name: string)
    requires DotName(name)
    ensures var roots := SearchRoots(home);
      CollectTargetDirs(e, roots, Some(name)) ==
        (if IsPhysicalDir(e, roots[0]) then [roots[0] + [name]] else []) +
        (if IsPhysicalDir(e, roots[1]) then [roots[1] + [name]] else [])
    ensures name == ".." ==> forall p :: p in CollectTargetDirs(e, SearchRoots(home), Some(name)) ==> Resolve(p) == home
    ensures name == "." ==> forall p :: p in CollectTargetDirs(e, SearchRoots(home), Some(name)) ==> Resolve(p) in SearchRoots(home)
  {
    DotSelectionShape(e, home, name);
    ResolveDotUnder(home, ".debuginfo", name);
    ResolveDotUnder(home, ".srpm", name);
  }

  lemma DotSelectionShape(e: Entries, home: Path, name: string)
    requires DotName(name)
    ensures CollectTargetDirs(e, SearchRoots(home), Some(name)) ==
      (if IsPhysicalDir(e, home + [".debuginfo"]) then [home + [".debuginfo"] + [name]] else []) +
      (if IsPhysicalDir(e, home + [".srpm"]) then [home + [".srpm"] + [name]] else [])
  {
    var roots := SearchRoots(home);
    var a, b := home + [".debuginfo"], home + [".srpm"];
    assert roots == [a, b];
    CollectSplit(e, home, name);
    RootDotShare(e, a, name);
    RootDotShare(e, b, name);
  }

  lemma ResolveDotUnder(home: Path, n: string, name: string)
    requires DotName(name)
    ensures Resolve(home + [n] + [name]) == if name == "." then home + [n] else home
  {
    var p := home + [n] + [name];
    assert p[..|p| - 1] == home + [n] && p[..|p| - 2] == home;
  }

  /** One root's share for the name `.` or `..`: the literal path when the root is stored as a directory. */
  lemma RootDotShare(e: Entries, root: Path, name: string)
    requires DotName(name) && (root == [] || !DotName(root[|root| - 1]))
    ensures OnlyDirectories(e, RootMatches(e, root, name)) == if IsPhysicalDir(e, root) then [root + [name]] else []
  {
    if IsPhysicalDir(e, root) {
      assert IsDirectory(e, root);
      var p := root + [name];
      assert Parent(p) == root && p[|p| - 1] == name;
      assert IsDirectory(e, p);
      assert OnlyDirectories(e, [p]) == [p] + OnlyDirectories(e, []);
    }
  }

  /** The store roots differ in their last component, so nothing is under both. */
  lemma RootsApart(home: Path, p: Path)
    ensures !IsPrefix(SearchRoots(home)[0], p) || !IsPrefix(SearchRoots(home)[1], p)
  {
    var a := SearchRoots(home)[0];
    var b := SearchRoots(home)[1];
    if IsPrefix(a, p) {
      assert p[|home|] == a[|home|] == ".debuginfo";
      assert p[..|b|][|home|] != b[|home|];
    }
  }

  /** One root's share of the selection: distinct directories, all under that root. */
  lemma RootShare(e: Entries, root: Path, name: string)
    ensures Distinct(OnlyDirectories(e, RootMatches(e, root, name)))
    ensures forall p :: p in OnlyDirectories(e, RootMatches(e, root, name)) ==> IsPrefix(root, p)
  {
    OnlyDirectoriesDistinct(e, RootMatches(e, root, name));
  }

  /** Over the two store roots the selection is the `.debuginfo` share followed by the `.srpm` share. */
  lemma CollectSplit(e: Entries, home: Path, name: string)
    requires name != ""
    ensures var roots := SearchRoots(home);
      CollectTargetDirs(e, roots, Some(name)) ==
        OnlyDirectories(e, RootMatches(e, roots[0], name)) + OnlyDirectories(e, RootMatches(e, roots[1], name))
  {
    var roots := SearchRoots(home);
    var a := RootMatches(e, roots[0], name);
    var b := RootMatches(e, roots[1], name);
    assert roots[1..][0] == roots[1] && roots[1..][1..] == [];
    assert Gather(e, roots[1..], name) == b + [];
    assert b + [] == b;
    OnlyDirectoriesAppend(e, a, b);
  }

  /** Two distinct runs of paths under two disjoint roots: their concatenation keeps them apart. */
  lemma ConcatApart(da: seq<Path>, db: seq<Path>, ra: Path, rb: Path)
    requires Distinct(da) && Distinct(db)
    requires forall p :: p in da ==> IsPrefix(ra, p)
    requires forall p :: p in db ==> IsPrefix(rb, p)
    requires forall p :: !IsPrefix(ra, p) || !IsPrefix(rb, p)
    ensures Distinct(da + db)
    ensures forall i, j :: (0 <= i < |da + db| && 0 <= j < |da + db| &&
      IsPrefix(ra, (da + db)[i]) && IsPrefix(rb, (da + db)[j])) ==> i < j
  {
    var r := da + db;
    assert forall k :: 0 <= k < |r| ==> (k < |da| ==> r[k] == da[k]) && (|da| <= k ==> r[k] == db[k - |da|]);
    assert forall k :: 0 <= k < |r| ==> (k < |da| ==> r[k] in da) && (|da| <= k ==> r[k] in db);
  }

  /**
   * Over the two store roots the selection lists every `.debuginfo` package
   * before every `.srpm` package, and no path twice.
   */
  lemma CollectOrder(e: Entries, home: Path, name: Option<string>)
    ensures var r := CollectTargetDirs(e, SearchRoots(home), name);
      && Distinct(r)
      && forall i, j :: (0 <= i < |r| && 0 <= j < |r| &&
           IsPrefix(SearchRoots(home)[0], r[i]) && IsPrefix(SearchRoots(home)[1], r[j])) ==> i < j
  {
    if name.Some? && name.value != "" {
      var roots := SearchRoots(home);
      CollectSplit(e, home, name.value);
      RootShare(e, roots[0], name.value);
      RootShare(e, roots[1], name.value);
      forall p ensures !IsPrefix(roots[0], p) || !IsPrefix(roots[1], p) {
        RootsApart(home, p);
      }
      ConcatApart(OnlyDirectories(e, RootMatches(e, roots[0], name.value)),
                  OnlyDirectories(e, RootMatches(e, roots[1], name.value)), roots[0], roots[1]);
    }
  }

  // ---------------------------------------------------------------------------
  // confirm

  /** ASCII case folding, as the `/i` flag applies it to `y`, `yes`, `n` and `no`. */
  function LowerAscii(c: char): char
  {
    if 'A' <= c <= 'Z' then (c as int - 'A' as int + 'a' as int) as char else c
  }

  function Lower(s: string): string
  {
    seq(|s|, i requires 0 <= i < |s| => LowerAscii(s[i]))
  }

  /** A line (without its terminator) matching `/^y$|^yes$/i`. */
  predicate IsYes(line: string)
  {
    Lower(line) == "y" || Lower(line) == "yes"
  }

  /** A line matching `/^n$|^no$/i`. */
  predicate IsNo(line: string)
  {
    Lower(line) == "n" || Lower(line) == "no"
  }

  predicate IsAnswer(line: string)
  {
    IsYes(line) || IsNo(line)
  }

  /** What `confirm` returns, and how many lines it read; `Exhausted` when the input ran out. */
  datatype Answer = Answered(yes: bool, consumed: nat) | Exhausted

  /** `confirm` over the lines still to be read: the first line that answers decides. */
  function Confirm(lines: seq<string>): (a: Answer)
    ensures a.Answered? ==>
      && 0 < a.consumed <= |lines|
      && IsAnswer(lines[a.consumed - 1])
      && (a.yes <==> IsYes(lines[a.consumed - 1]))
      && forall i :: 0 <= i < a.consumed - 1 ==> !IsAnswer(lines[i])
    ensures a.Exhausted? ==> forall i :: 0 <= i < |lines| ==> !IsAnswer(lines[i])
    decreases |lines|
  {
    if lines == [] then Exhausted
    else if IsYes(lines[0]) then Answered(true, 1)
    else if IsNo(lines[0]) then Answered(false, 1)
    else
      var rest := Confirm(lines[1..]);
      assert forall i :: 0 <= i < |lines| - 1 ==> lines[1..][i] == lines[i + 1];
      match rest
      case Exhausted => Exhausted
      case Answered(y, c) => Answered(y, c + 1)
  }

  /** The prompt loop of `confirm`: read lines until one says yes or no. */
  method ConfirmLoop(lines: seq<string>) returns (a: Answer)
    ensures a.Answered? ==>
      && 0 < a.consumed <= |lines|
      && (a.yes <==> IsYes(lines[a.consumed - 1]))
      && (!a.yes <==> IsNo(lines[a.consumed - 1]))
      && forall i :: 0 <= i < a.consumed - 1 ==> !IsAnswer(lines[i])
    ensures a.Exhausted? <==> forall i :: 0 <= i < |lines| ==> !IsAnswer(lines[i])
    ensures a == Confirm(lines)
  {
    var i := 0;
    while i < |lines|
      invariant 0 <= i <= |lines|
      invariant forall j :: 0 <= j < i ==> !IsAnswer(lines[j])
    {
      var line := lines[i];
      if IsYes(line) {
        return Answered(true, i + 1);
      }
      if IsNo(line) {
        return Answered(false, i + 1);
      }
      i := i + 1;
    }
    return Exhausted;
  }

  /** Other lines are skipped; case does not matter. */
  lemma ConfirmExample()
    ensures Confirm(["ok", "Yeah", "YES", "n"]) == Answered(true, 3)
    ensures Confirm(["", "No"]) == Answered(false, 2)
    ensures Confirm(["yess", "nope"]) == Exhausted
  {
    LowerExamples();
  }

  lemma LowerExamples()
    ensures Lower("ok") == "ok" && Lower("Yeah") == "yeah" && Lower("YES") == "yes"
    ensures Lower("No") == "no" && Lower("") == ""
    ensures Lower("yess") == "yess" && Lower("nope") == "nope"
  {
    assert Lower("ok") == "ok" && Lower("Yeah") == "yeah" && Lower("YES") == "yes";
    assert Lower("No") == "no" && Lower("") == "";
    assert Lower("yess") == "yess" && Lower("nope") == "nope";
  }
}
