/**
 * The file system the store manager works on, as a map from absolute paths
 * (component sequences, `[]` being `/`) to nodes, with the queries Ruby's
 * `File.exist?`, `File.directory?` and `Dir[]` make and the FileUtils calls
 * the store manager makes (mkdir, ln_s, move, remove_entry_secure).
 *
 * Symbolic links are followed at the last component of a path, as stat(2)
 * does, at most MaxSymlinkHops times; the other components of a path are
 * taken as they are stored. A last component `.` or `..` names the directory
 * before it or that directory's parent; no entry is ever stored under either
 * name.
 */
module Fs {
  import opened Outcomes
  import Names
  import Glob

  type Path = seq<string>

  datatype Node = File | Directory | Symlink(target: Path)

  type Entries = map<Path, Node>

  /** The number of symbolic links the kernel follows before it reports ELOOP. */
  const MaxSymlinkHops: nat := 40

  function Parent(p: Path): Path
    requires p != []
  {
    p[..|p| - 1]
  }

  predicate IsPrefix(a: Path, b: Path)
  {
    |a| <= |b| && b[..|a|] == a
  }

  /** The names every directory has for itself and for its parent. */
  predicate DotName(n: string)
  {
    n == "." || n == ".."
  }

  /**
   * The path a trailing `.` or `..` stands for, as `File.expand_path` spells
   * it: the directory before it, or that directory's parent (`/` for `/..`).
   */
  function Resolve(p: Path): (q: Path)
    ensures IsPrefix(q, p)
    ensures p == [] || !DotName(p[|p| - 1]) ==> q == p
    ensures p != [] && DotName(p[|p| - 1]) ==> |q| < |p|
  {
    if p == [] || !DotName(p[|p| - 1]) then p
    else if p[|p| - 1] == "." then Parent(p)
    else if |p| >= 2 then p[..|p| - 2]
    else []
  }

  /**
   * A tree: `/` is a directory, the parent of every other entry is a
   * directory, and no entry is stored under the name `.` or `..`.
   */
  ghost predicate WellFormed(e: Entries)
  {
    && [] in e && e[[]] == Directory
    && forall p :: p in e && p != [] ==>
         p[..|p| - 1] in e && e[p[..|p| - 1]] == Directory && !DotName(p[|p| - 1])
  }

  /** What stat(2) sees at `p` when it may still follow `hops` links: never a link. */
  function Follow(e: Entries, p: Path, hops: nat): (r: Option<Node>)
    ensures r.Some? ==> p in e && !r.value.Symlink?
    decreases hops
  {
    if p !in e then None
    else match e[p]
      case Symlink(t) => if hops == 0 then None else Follow(e, t, hops - 1)
      case n => Some(n)
  }

  /**
   * What stat(2) sees at `p`: a trailing `.` or `..` is a directory when the
   * path before it is one; any other path is looked up and its links followed.
   */
  function Stat(e: Entries, p: Path): Option<Node>
  {
    if p != [] && DotName(p[|p| - 1]) then
      if IsPhysicalDir(e, Parent(p)) then Some(Directory) else None
    else Follow(e, p, MaxSymlinkHops)
  }

  /** `File.exist?`: false for a dangling link or a loop of links. */
  predicate Exists(e: Entries, p: Path)
  {
    Stat(e, p).Some?
  }

  /** `File.directory?`: true for a link that leads to a directory. */
  predicate IsDirectory(e: Entries, p: Path)
  {
    Stat(e, p) == Some(Directory)
  }

  /** A directory stored at `p` itself, not reached through a link. */
  predicate IsPhysicalDir(e: Entries, p: Path)
  {
    p in e && e[p] == Directory
  }

  /** Following more links never loses an answer already reached. */
  lemma {:induction false} FollowMonotone(e: Entries, p: Path, h: nat, h': nat)
    requires h <= h' && Follow(e, p, h).Some?
    ensures Follow(e, p, h') == Follow(e, p, h)
    decreases h
  {
    if e[p].Symlink? {
      FollowMonotone(e, e[p].target, h - 1, h' - 1);
    }
  }

  /** `e'` keeps, as it was, every entry of `e` that stat(2) resolves in `e`. */
  ghost predicate KeepsExisting(e: Entries, e': Entries)
  {
    forall k :: k in e && Follow(e, k, MaxSymlinkHops).Some? ==> k in e' && e'[k] == e[k]
  }

  lemma {:induction false} FollowKept(e: Entries, e': Entries, p: Path, h: nat)
    requires KeepsExisting(e, e') && h <= MaxSymlinkHops && Follow(e, p, h).Some?
    ensures Follow(e', p, h) == Follow(e, p, h)
    decreases h
  {
    FollowMonotone(e, p, h, MaxSymlinkHops);
    if e[p].Symlink? {
      FollowKept(e, e', e[p].target, h - 1);
    }
  }

  /** Whatever a path resolved to stays so once every existing entry is kept. */
  lemma StatKept(e: Entries, e': Entries, p: Path)
    requires KeepsExisting(e, e') && Exists(e, p)
    ensures Stat(e', p) == Stat(e, p)
  {
    if p != [] && DotName(p[|p| - 1]) {
      assert Follow(e, Parent(p), MaxSymlinkHops).Some?;
    } else {
      FollowKept(e, e', p, MaxSymlinkHops);
    }
  }

  lemma KeepsExistingTransitive(e: Entries, e': Entries, e'': Entries)
    requires KeepsExisting(e, e') && KeepsExisting(e', e'')
    ensures KeepsExisting(e, e'')
  {
    forall k | k in e && Follow(e, k, MaxSymlinkHops).Some? ensures k in e'' && e''[k] == e[k] {
      FollowKept(e, e', k, MaxSymlinkHops);
    }
  }

  // ---------------------------------------------------------------------------
  // Dir[]

  function ChildNames(e: Entries, dir: Path): set<string>
  {
    set p | p in e && |p| == |dir| + 1 && p[..|dir|] == dir :: p[|dir|]
  }

  function MatchingNames(e: Entries, dir: Path, pat: string): (r: set<string>)
    ensures forall n :: n in r <==> n in ChildNames(e, dir) && Glob.Match(pat, n)
  {
    set n | n in ChildNames(e, dir) && Glob.Match(pat, n)
  }

  function ChildPaths(dir: Path, names: seq<string>): (r: seq<Path>)
    ensures |r| == |names|
    ensures forall i :: 0 <= i < |r| ==> r[i] == dir + [names[i]]
  {
    seq(|names|, i requires 0 <= i < |names| => dir + [names[i]])
  }

  lemma ChildPathsExact(e: Entries, dir: Path, pat: string, names: seq<string>)
    requires forall n :: n in names <==> n in ChildNames(e, dir) && Glob.Match(pat, n)
    ensures forall p :: p in ChildPaths(dir, names) <==> p in e && |p| == |dir| + 1 && p[..|dir|] == dir && Glob.Match(pat, p[|dir|])
  {
    var r := ChildPaths(dir, names);
    forall i | 0 <= i < |r| ensures r[i] in e && r[i][..|dir|] == dir && r[i][|dir|] == names[i] {
      assert names[i] in ChildNames(e, dir);
      var q :| q in e && |q| == |dir| + 1 && q[..|dir|] == dir && q[|dir|] == names[i];
      assert q == q[..|dir|] + [q[|dir|]];
    }
    forall p | p in e && |p| == |dir| + 1 && p[..|dir|] == dir && Glob.Match(pat, p[|dir|]) ensures p in r {
      assert p[|dir|] in ChildNames(e, dir);
      var i :| 0 <= i < |names| && names[i] == p[|dir|];
      assert p == dir + [names[i]];
    }
  }

  /**
   * `Dir[File.join(dir, pat)]`: the entries of `dir` whose names match, in
   * byte order. The pattern `.` or `..` holds no wildcard, so `Dir[]` only
   * checks that the path exists and returns it as spelled.
   */
  function DirGlob(e: Entries, dir: Path, pat: string): (r: seq<Path>)
    ensures DotName(pat) ==> forall p :: p in r <==> IsPhysicalDir(e, dir) && p == dir + [pat]
    ensures !DotName(pat) ==>
      forall p :: p in r <==> p in e && |p| == |dir| + 1 && p[..|dir|] == dir && Glob.Match(pat, p[|dir|])
    ensures forall i :: 0 <= i < |r| ==> |r[i]| == |dir| + 1 && r[i][..|dir|] == dir
    ensures forall i, j :: 0 <= i < j < |r| ==> Names.LexLe(r[i][|dir|], r[j][|dir|]) && r[i] != r[j]
  {
    if DotName(pat) then
      if IsPhysicalDir(e, dir) then [dir + [pat]] else []
    else
      var names := Names.SortedNames(MatchingNames(e, dir, pat));
      ChildPathsExact(e, dir, pat, names);
      ChildPathsOrdered(dir, names);
      ChildPaths(dir, names)
  }

  /** Children built from names in byte order come in the same order, one per name. */
  lemma ChildPathsOrdered(dir: Path, names: seq<string>)
    requires Names.StrictlySorted(names)
    ensures var r := ChildPaths(dir, names);
      && (forall i :: 0 <= i < |r| ==> |r[i]| == |dir| + 1 && r[i][..|dir|] == dir)
      && (forall i, j :: 0 <= i < j < |r| ==> Names.LexLe(r[i][|dir|], r[j][|dir|]) && r[i] != r[j])
  {
    var r := ChildPaths(dir, names);
    assert forall i :: 0 <= i < |r| ==> r[i][..|dir|] == dir && r[i][|dir|] == names[i];
  }

  // ---------------------------------------------------------------------------
  // System calls on the tree

  function ParentError(e: Entries, p: Path): Error
    requires p != []
  {
    SystemCallFailed(if Parent(p) in e then ENOTDIR else ENOENT)
  }

  /**
   * mkdir(2) and symlink(2): put a new node at a free path inside a
   * directory; `.` and `..` are never free.
   */
  function Create(e: Entries, p: Path, n: Node): (r: Result<Entries>)
    ensures r.Ok? <==> p != [] && p !in e && IsPhysicalDir(e, Parent(p)) && !DotName(p[|p| - 1])
    ensures r.Ok? ==> r.value.Keys == e.Keys + {p} && r.value[p] == n
    ensures r.Ok? ==> forall k :: k in e ==> r.value[k] == e[k]
  {
    if p == [] || p in e then Err(SystemCallFailed(EEXIST))
    else if !IsPhysicalDir(e, Parent(p)) then Err(ParentError(e, p))
    else if DotName(p[|p| - 1]) then Err(SystemCallFailed(EEXIST))
    else Ok(e[p := n])
  }

  lemma CreateKeepsTree(e: Entries, p: Path, n: Node)
    requires WellFormed(e) && Create(e, p, n).Ok?
    ensures WellFormed(Create(e, p, n).value)
    ensures KeepsExisting(e, Create(e, p, n).value)
  {
    AddKeepsTree(e, p, n);
  }

  lemma AddKeepsTree(e: Entries, p: Path, n: Node)
    requires WellFormed(e) && p != [] && p !in e && IsPhysicalDir(e, Parent(p)) && !DotName(p[|p| - 1])
    ensures WellFormed(e[p := n]) && KeepsExisting(e, e[p := n])
  {
    AddWellFormed(e, p, n);
    var e' := e[p := n];
    forall k | k in e && Follow(e, k, MaxSymlinkHops).Some? ensures k in e' && e'[k] == e[k] {
      assert k != p;
    }
  }

  lemma AddWellFormed(e: Entries, p: Path, n: Node)
    requires WellFormed(e) && p != [] && p !in e && IsPhysicalDir(e, Parent(p)) && !DotName(p[|p| - 1])
    ensures WellFormed(e[p := n])
  {
  }

  /** `FileUtils.ln_s(target, link)`: a link inside `link` when that is a directory. */
  function LnStep(e: Entries, target: Path, link: Path): Result<Entries>
  {
    var at := if IsDirectory(e, link) && target != [] then Resolve(link) + [target[|target| - 1]] else link;
    Create(e, at, Symlink(target))
  }

  /** The entries under `p`, `p` included. */
  function RemoveTree(e: Entries, p: Path): (r: Entries)
    ensures forall q :: q in r <==> q in e && !IsPrefix(p, q)
    ensures forall q :: q in r ==> r[q] == e[q]
  {
    map q | q in e && !IsPrefix(p, q) :: e[q]
  }

  /** The entries strictly under `p` go; `p` itself and everything else stays. */
  function RemoveBelow(e: Entries, p: Path): (r: Entries)
    ensures forall q :: q in r <==> q in e && (q == p || !IsPrefix(p, q))
    ensures forall q :: q in r ==> r[q] == e[q]
  {
    map q | q in e && (q == p || !IsPrefix(p, q)) :: e[q]
  }

  /**
   * `FileUtils.remove_entry_secure(p)`. The path is expanded as
   * `File.expand_path` does and looked up with lstat(2): nothing there raises
   * `ENOENT`, and anything but a directory (a link included) is unlinked.
   * A directory is walked as spelled: everything under it goes, then rmdir(2)
   * is asked for the spelled path. rmdir refuses `/` (`EBUSY`), a final `.`
   * (`EINVAL`) and `/..` (`ENOTEMPTY`). Walking `x/..` removes `x` itself
   * among the entries, after which the next step finds no path through `x`
   * and raises `ENOENT`.
   */
  function RemoveStep(e: Entries, p: Path): (Outcome, Entries)
  {
    var q := Resolve(p);
    if q !in e then (Fail(SystemCallFailed(ENOENT)), e)
    else if e[q] != Directory then (Pass, RemoveTree(e, q))
    else if p == [] then (Fail(SystemCallFailed(EBUSY)), RemoveBelow(e, q))
    else if p[|p| - 1] == "." then (Fail(SystemCallFailed(EINVAL)), RemoveBelow(e, q))
    else if p[|p| - 1] == ".." then
      var x := Parent(p);
      if x == [] then (Fail(SystemCallFailed(ENOTEMPTY)), RemoveBelow(e, q))
      else if IsPhysicalDir(e, x) then (Fail(SystemCallFailed(ENOENT)), RemoveTree(e, x))
      else (Fail(SystemCallFailed(ENOENT)), e)
    else (Pass, RemoveTree(e, q))
  }

  /**
   * What `remove_entry_secure` leaves: it completes exactly when the path
   * stands for a stored entry that is not a directory, or for a directory
   * other than `/` spelled without a final `.` or `..`, and then exactly that
   * entry's tree is gone. A final `.` empties the directory and raises; a
   * final `..` after a directory `x` removes `x` and raises. It only ever
   * removes entries.
   */
  lemma RemoveStepMeaning(e: Entries, p: Path)
    ensures var (o, e') := RemoveStep(e, p);
      forall k :: k in e' ==> k in e && e'[k] == e[k]
    ensures var q := Resolve(p);
      RemoveStep(e, p).0 == Pass <==>
        q in e && (e[q] != Directory || (q != [] && !DotName(p[|p| - 1])))
    ensures var q := Resolve(p);
      RemoveStep(e, p).0 == Pass ==> RemoveStep(e, p).1 == RemoveTree(e, q)
    ensures p != [] && p[|p| - 1] == "." && IsPhysicalDir(e, Parent(p)) ==>
      RemoveStep(e, p) == (Fail(SystemCallFailed(EINVAL)), RemoveBelow(e, Parent(p)))
    ensures |p| >= 2 && p[|p| - 1] == ".." && IsPhysicalDir(e, Parent(p)) && IsPhysicalDir(e, Parent(Parent(p))) ==>
      RemoveStep(e, p) == (Fail(SystemCallFailed(ENOENT)), RemoveTree(e, Parent(p)))
  {
    if |p| >= 2 && p[|p| - 1] == ".." {
      assert Resolve(p) == Parent(Parent(p));
    }
  }

  lemma RemoveKeepsTree(e: Entries, p: Path)
    requires WellFormed(e) && p != []
    ensures WellFormed(RemoveTree(e, p))
  {
    var r := RemoveTree(e, p);
    forall q | q in r && q != [] ensures q[..|q| - 1] in r {
    }
  }

  lemma RemoveBelowKeepsTree(e: Entries, p: Path)
    requires WellFormed(e)
    ensures WellFormed(RemoveBelow(e, p))
  {
    var r := RemoveBelow(e, p);
    forall q | q in r && q != [] ensures q[..|q| - 1] in r {
    }
  }

  /** Whatever `remove_entry_secure` completes or leaves half done, the tree stays well formed. */
  lemma RemoveStepKeepsTree(e: Entries, p: Path)
    requires WellFormed(e)
    ensures WellFormed(RemoveStep(e, p).1)
  {
    var q := Resolve(p);
    if q in e {
      if e[q] != Directory || (q != [] && !DotName(p[|p| - 1])) {
        RemoveKeepsTree(e, q);
      } else if p != [] && p[|p| - 1] == ".." && Parent(p) != [] {
        RemoveKeepsTree(e, Parent(p));
      } else {
        RemoveBelowKeepsTree(e, q);
      }
    }
  }

  lemma {:induction false} RerootInjective(s: Path, d: Path)
    ensures forall q1: Path, q2: Path ::
      IsPrefix(s, q1) && IsPrefix(s, q2) && d + q1[|s|..] == d + q2[|s|..] ==> q1 == q2
  {
    forall q1: Path, q2: Path | IsPrefix(s, q1) && IsPrefix(s, q2) && d + q1[|s|..] == d + q2[|s|..]
      ensures q1 == q2
    {
      assert q1[|s|..] == (d + q1[|s|..])[|d|..];
      assert q2[|s|..] == (d + q2[|s|..])[|d|..];
      assert q1 == q1[..|s|] + q1[|s|..];
      assert q2 == q2[..|s|] + q2[|s|..];
    }
  }

  /** The subtree of `tree` at `s`, placed at `d`. */
  function Reroot(tree: Entries, s: Path, d: Path): Entries
  {
    RerootInjective(s, d);
    map q | q in tree && IsPrefix(s, q) :: d + q[|s|..] := tree[q]
  }

  lemma RerootKeys(tree: Entries, s: Path, d: Path)
    ensures forall q :: q in tree && IsPrefix(s, q) ==> d + q[|s|..] in Reroot(tree, s, d) && Reroot(tree, s, d)[d + q[|s|..]] == tree[q]
    ensures forall k :: k in Reroot(tree, s, d) ==> IsPrefix(d, k) && s + k[|d|..] in tree && Reroot(tree, s, d)[k] == tree[s + k[|d|..]]
  {
    var m := Reroot(tree, s, d);
    RerootInjective(s, d);
    forall q | q in tree && IsPrefix(s, q) ensures d + q[|s|..] in m && m[d + q[|s|..]] == tree[q] {
    }
    forall k | k in m ensures IsPrefix(d, k) && s + k[|d|..] in tree && m[k] == tree[s + k[|d|..]] {
      var q :| q in tree && IsPrefix(s, q) && k == d + q[|s|..];
      assert k[|d|..] == q[|s|..];
      assert q == s + q[|s|..];
      assert s + k[|d|..] == q;
    }
  }

  /** The entry of the subtree at `q` lands at `d + q[|s|..]`. */
  lemma RerootAt(tree: Entries, s: Path, d: Path, q: Path)
    requires q in tree && IsPrefix(s, q)
    ensures d + q[|s|..] in Reroot(tree, s, d) && Reroot(tree, s, d)[d + q[|s|..]] == tree[q]
  {
    RerootInjective(s, d);
  }

  /** Where an entry of the subtree lands, its parent lands too, as a directory. */
  lemma RerootParentOf(tree: Entries, s: Path, d: Path, k: Path)
    requires IsPrefix(d, k) && |k| > |d|
    requires s + k[|d|..|k| - 1] in tree && tree[s + k[|d|..|k| - 1]] == Directory
    ensures k[..|k| - 1] in Reroot(tree, s, d) && Reroot(tree, s, d)[k[..|k| - 1]] == Directory
  {
    var pk := k[..|k| - 1];
    var tp := s + k[|d|..|k| - 1];
    assert tp[..|s|] == s && tp[|s|..] == pk[|d|..];
    RerootAt(tree, s, d, tp);
    assert pk == d + pk[|d|..];
  }

  /** Inside a tree, a subtree placed at `d` hangs from its root `d`. */
  lemma RerootParents(tree: Entries, s: Path, d: Path)
    requires WellFormed(tree) && s in tree
    ensures d in Reroot(tree, s, d) && Reroot(tree, s, d)[d] == tree[s]
    ensures forall k :: k in Reroot(tree, s, d) && k != d ==>
      |k| > |d| && k[..|k| - 1] in Reroot(tree, s, d) && Reroot(tree, s, d)[k[..|k| - 1]] == Directory
  {
    var m := Reroot(tree, s, d);
    RerootAt(tree, s, d, s);
    assert d + s[|s|..] == d;
    RerootKeys(tree, s, d);
    forall k | k in m && k != d ensures |k| > |d| && k[..|k| - 1] in m && m[k[..|k| - 1]] == Directory {
      var t := s + k[|d|..];
      assert t != [] by { assert |k| > |d|; }
      ParentIsDirectory(tree, t);
      RerootParentStep(tree, s, d, k, t);
    }
  }

  lemma RerootParentStep(tree: Entries, s: Path, d: Path, k: Path, t: Path)
    requires IsPrefix(d, k) && k != d && t == s + k[|d|..]
    requires t != [] && t[..|t| - 1] in tree && tree[t[..|t| - 1]] == Directory
    ensures |k| > |d| && k[..|k| - 1] in Reroot(tree, s, d) && Reroot(tree, s, d)[k[..|k| - 1]] == Directory
  {
    assert |k| > |d|;
    assert t[..|t| - 1] == s + k[|d|..|k| - 1];
    RerootParentOf(tree, s, d, k);
  }

  /** In a well-formed tree, every entry but the root hangs from a directory. */
  lemma ParentIsDirectory(e: Entries, p: Path)
    requires WellFormed(e) && p in e && p != []
    ensures p[..|p| - 1] in e && e[p[..|p| - 1]] == Directory
  {
  }

  /** Under a path that is not a directory, a tree holds nothing. */
  lemma {:induction false} NothingBelow(e: Entries, dest: Path, k: Path)
    requires WellFormed(e) && !IsPhysicalDir(e, dest) && k in e && IsPrefix(dest, k)
    ensures k == dest
    decreases |k|
  {
    if k != dest {
      var pk := k[..|k| - 1];
      assert pk in e && e[pk] == Directory;
      assert IsPrefix(dest, pk);
      NothingBelow(e, dest, pk);
    }
  }

  /** The name `FileUtils.move` gives a source moved into a directory. */
  function MovedName(s: Path): string
  {
    if s == [] then "expand" else s[|s| - 1]
  }

  /** Where `FileUtils.move` puts its source: inside `dest` when that is a directory. */
  function MoveTarget(e: Entries, s: Path, dest: Path): (d: Path)
    ensures d != [] || dest == []
  {
    if IsDirectory(e, dest) then Resolve(dest) + [MovedName(s)] else dest
  }

  /**
   * `FileUtils.move(srcdir, dest)` where `srcdir` is `s` inside an extracted
   * tree (`[]` being the extraction directory itself) and `dest` is in `e`.
   */
  function MoveStep(e: Entries, tree: Entries, s: Path, dest: Path): Result<Entries>
    requires dest != []
  {
    var d := MoveTarget(e, s, dest);
    if IsDirectory(e, d) then Err(SystemCallFailed(EEXIST))
    else if s !in tree then Err(SystemCallFailed(ENOENT))
    else if !IsPhysicalDir(e, Parent(d)) then Err(ParentError(e, d))
    else if d in e && tree[s] == Directory then Err(SystemCallFailed(ENOTDIR))
    else Ok(e + Reroot(tree, s, d))
  }

  /** The target of a completed move is never named `.` or `..`. */
  lemma MoveTargetNamed(e: Entries, tree: Entries, s: Path, dest: Path)
    requires WellFormed(e) && WellFormed(tree) && dest != []
    requires MoveStep(e, tree, s, dest).Ok?
    ensures var d := MoveTarget(e, s, dest); d != [] && !DotName(d[|d| - 1]) && !IsPhysicalDir(e, d)
  {
    var d := MoveTarget(e, s, dest);
    if !IsDirectory(e, dest) {
      assert d == dest;
    } else if s != [] {
      assert s in tree;
    }
  }

  /** A successful move keeps the file system a tree. */
  lemma MoveWellFormed(e: Entries, tree: Entries, s: Path, dest: Path)
    requires WellFormed(e) && WellFormed(tree) && dest != []
    requires MoveStep(e, tree, s, dest).Ok?
    ensures WellFormed(MoveStep(e, tree, s, dest).value)
  {
    var d := MoveTarget(e, s, dest);
    var m := Reroot(tree, s, d);
    assert e + m == MoveStep(e, tree, s, dest).value;
    RerootKeys(tree, s, d);
    RerootParents(tree, s, d);
    MoveTargetNamed(e, tree, s, dest);
    forall k | k in m && k != d ensures !DotName(k[|k| - 1]) {
      var t := s + k[|d|..];
      assert t in tree && t != [] && t[|t| - 1] == k[|k| - 1];
    }
    GraftWellFormed(e, m, d);
  }

  /** A tree `m` hanging from `d`, grafted where `e` has room for it, gives a tree. */
  lemma GraftWellFormed(e: Entries, m: Entries, d: Path)
    requires WellFormed(e) && d != [] && !DotName(d[|d| - 1])
    requires !IsPhysicalDir(e, d) && IsPhysicalDir(e, Parent(d))
    requires d in m && forall k :: k in m ==> IsPrefix(d, k)
    requires forall k :: k in m && k != d ==>
      |k| > |d| && k[..|k| - 1] in m && m[k[..|k| - 1]] == Directory && !DotName(k[|k| - 1])
    ensures WellFormed(e + m)
  {
    var r := e + m;
    forall q | q in r && q != [] ensures q[..|q| - 1] in r && r[q[..|q| - 1]] == Directory && !DotName(q[|q| - 1]) {
      var pq := q[..|q| - 1];
      if q in m {
        if q == d {
          assert pq !in m;
        }
      } else if pq in m {
        NothingBelow(e, d, pq);
      }
    }
  }

  /**
   * A successful move keeps the file system a tree and puts the subtree's
   * root at its target. Outside the target every entry of `e` is still there
   * and nothing else is. When `dest` did not exist the target is `dest`; when
   * `dest` did not exist or a directory was moved, every existing entry is kept.
   */
  lemma MoveKeepsTree(e: Entries, tree: Entries, s: Path, dest: Path)
    requires WellFormed(e) && WellFormed(tree) && dest != []
    requires MoveStep(e, tree, s, dest).Ok?
    ensures WellFormed(MoveStep(e, tree, s, dest).value)
    ensures var d := MoveTarget(e, s, dest);
      && d in MoveStep(e, tree, s, dest).value && MoveStep(e, tree, s, dest).value[d] == tree[s]
      && (forall k :: k in MoveStep(e, tree, s, dest).value && !IsPrefix(d, k) ==> k in e && MoveStep(e, tree, s, dest).value[k] == e[k])
      && (forall k :: k in e && !IsPrefix(d, k) ==> k in MoveStep(e, tree, s, dest).value && MoveStep(e, tree, s, dest).value[k] == e[k])
    ensures !Exists(e, dest) ==> MoveTarget(e, s, dest) == dest
    ensures !Exists(e, dest) || tree[s] == Directory ==> KeepsExisting(e, MoveStep(e, tree, s, dest).value)
  {
    var d := MoveTarget(e, s, dest);
    var m := Reroot(tree, s, d);
    assert e + m == MoveStep(e, tree, s, dest).value;
    RerootKeys(tree, s, d);
    RerootAt(tree, s, d, s);
    assert d + s[|s|..] == d;
    MoveTargetNamed(e, tree, s, dest);
    MoveWellFormed(e, tree, s, dest);
    if !Exists(e, dest) || tree[s] == Directory {
      GraftKeepsExisting(e, m, d);
    }
  }

  /** Grafting under a path where nothing resolves replaces no entry that resolves. */
  lemma GraftKeepsExisting(e: Entries, m: Entries, d: Path)
    requires WellFormed(e) && !IsPhysicalDir(e, d) && forall k :: k in m ==> IsPrefix(d, k)
    requires d !in e || Follow(e, d, MaxSymlinkHops).None?
    ensures KeepsExisting(e, e + m)
  {
    forall k | k in e && Follow(e, k, MaxSymlinkHops).Some? ensures k in e + m && (e + m)[k] == e[k] {
      if k in m {
        NothingBelow(e, d, k);
      }
    }
  }

  /** The state a step leaves: the new one when it completes, the old one when it raises. */
  function StateAfter(e: Entries, r: Result<Entries>): Entries
  {
    if r.Ok? then r.value else e
  }

  function OutcomeOf(r: Result<Entries>): Outcome
  {
    if r.Ok? then Pass else Fail(r.error)
  }

  /** The file system as the commands find it and change it, one call at a time. */
  class FileSystem {
    var entries: Entries

    ghost predicate Valid()
      reads this
    {
      WellFormed(entries)
    }

    constructor (e: Entries)
      requires WellFormed(e)
      ensures Valid() && entries == e
    {
      entries := e;
    }

    /** `FileUtils.mkdir(p)`: raises when anything, even a dangling link, is at `p`. */
    method Mkdir(p: Path) returns (r: Outcome)
      requires Valid()
      modifies this
      ensures Valid()
      ensures r == OutcomeOf(Create(old(entries), p, Directory))
      ensures entries == StateAfter(old(entries), Create(old(entries), p, Directory))
      ensures r.Pass? <==> p != [] && p !in old(entries) && IsPhysicalDir(old(entries), Parent(p)) && !DotName(p[|p| - 1])
      ensures r.Pass? ==> entries == old(entries)[p := Directory]
    {
      var c := Create(entries, p, Directory);
      if c.Ok? {
        CreateKeepsTree(entries, p, Directory);
        entries := c.value;
        r := Pass;
      } else {
        r := Fail(c.error);
      }
    }

    /** `FileUtils.ln_s(target, link)` without `force`: never replaces an entry. */
    method Ln(target: Path, link: Path) returns (r: Outcome)
      requires Valid()
      modifies this
      ensures Valid()
      ensures r == OutcomeOf(LnStep(old(entries), target, link))
      ensures entries == StateAfter(old(entries), LnStep(old(entries), target, link))
      ensures KeepsExisting(old(entries), entries)
      ensures forall k :: k in old(entries) ==> k in entries && entries[k] == old(entries)[k]
    {
      var c := LnStep(entries, target, link);
      if c.Ok? {
        var at := if IsDirectory(entries, link) && target != [] then Resolve(link) + [target[|target| - 1]] else link;
        CreateKeepsTree(entries, at, Symlink(target));
        entries := c.value;
        r := Pass;
      } else {
        r := Fail(c.error);
      }
    }

    /** `FileUtils.move(srcdir, dest)` with `srcdir` the entry `s` of an extracted tree. */
    method Move(tree: Entries, s: Path, dest: Path) returns (r: Outcome)
      requires Valid() && WellFormed(tree) && dest != []
      modifies this
      ensures Valid()
      ensures r == OutcomeOf(MoveStep(old(entries), tree, s, dest))
      ensures entries == StateAfter(old(entries), MoveStep(old(entries), tree, s, dest))
      ensures r.Pass? ==> MoveTarget(old(entries), s, dest) in entries && entries[MoveTarget(old(entries), s, dest)] == tree[s]
      ensures r.Pass? && !Exists(old(entries), dest) ==> MoveTarget(old(entries), s, dest) == dest
      ensures r.Pass? && (!Exists(old(entries), dest) || tree[s] == Directory) ==> KeepsExisting(old(entries), entries)
    {
      var c := MoveStep(entries, tree, s, dest);
      if c.Ok? {
        MoveKeepsTree(entries, tree, s, dest);
        entries := c.value;
        r := Pass;
      } else {
        r := Fail(c.error);
      }
    }

    /** `FileUtils.remove_entry_secure(p)`: removes what `p` stands for, or part of it before raising. */
    method RemoveEntrySecure(p: Path) returns (r: Outcome)
      requires Valid()
      modifies this
      ensures Valid()
      ensures (r, entries) == RemoveStep(old(entries), p)
      ensures r.Pass? <==>
        Resolve(p) in old(entries) && (old(entries)[Resolve(p)] != Directory || (Resolve(p) != [] && !DotName(p[|p| - 1])))
      ensures r.Pass? ==> entries == RemoveTree(old(entries), Resolve(p))
      ensures forall k :: k in entries ==> k in old(entries) && entries[k] == old(entries)[k]
    {
      RemoveStepMeaning(entries, p);
      RemoveStepKeepsTree(entries, p);
      var (o, e) := RemoveStep(entries, p);
      entries := e;
      r := o;
    }
  }
}
