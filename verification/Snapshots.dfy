/**
 * Snapshot trees of `src/jarn/agent/checkpoint.py`: what `_build_snapshot` captures from a
 * working tree and what `_apply_snapshot` makes of one. A tree is a finite map from path to
 * contents; HEAD, the set of paths in the real index and the ignore rules do not change.
 */
module Snapshots {
  import opened Prelude

  type Path = string
  type Blob = string
  type Tree = map<Path, Blob>

  datatype Git = Git(head: Option<Tree>, index: set<Path>, ignored: Path -> bool)

  // ---------------------------------------------------------------- excluded runtime files

  const STATE_FILES := [".jarn/state.sqlite", ".jarn/state.sqlite-wal", ".jarn/state.sqlite-shm"]
  const LOCK_DIR := ".jarn/"
  const LOCK_SUFFIX := ".lock"

  /** A literal pathspec matches the path itself and everything below it. */
  predicate MatchesLiteral(spec: string, p: Path) {
    p == spec || spec + "/" <= p
  }

  // The lock pathspec: any name under `.jarn` ending in `.lock`, as its star also crosses slashes.
  predicate MatchesLock(p: Path) {
    && |LOCK_DIR| + |LOCK_SUFFIX| <= |p|
    && LOCK_DIR <= p
    && p[|p| - |LOCK_SUFFIX|..] == LOCK_SUFFIX
  }

  predicate Excluded(p: Path) {
    (exists i :: 0 <= i < |STATE_FILES| && MatchesLiteral(STATE_FILES[i], p)) || MatchesLock(p)
  }

  // ------------------------------------------------------------------------ build and apply

  /** `git add -A` into an index seeded from HEAD: tracked there, or not ignored. */
  predicate Captured(g: Git, p: Path)
    requires g.head.Some?
  {
    p in g.head.value || !g.ignored(p)
  }

  /** The tree `_build_snapshot` writes: excluded paths are reset to HEAD. */
  function BuildTree(g: Git, w: Tree): (t: Tree)
    requires g.head.Some?
  {
    var head := g.head.value;
    map p | p in w.Keys + head.Keys && (if Excluded(p) then p in head else p in w && Captured(g, p))
      :: if Excluded(p) then head[p] else w[p]
  }

  /** Listed by `git ls-files` or by `git ls-files --others --exclude-standard`. */
  predicate Listed(g: Git, p: Path) {
    p in g.index || !g.ignored(p)
  }

  /** `git restore --source=t --worktree -- .` and then the removal of listed paths outside `t`. */
  function ApplyTree(g: Git, t: Tree, w: Tree): (r: Tree) {
    (map p | p in w && !Listed(g, p) :: w[p]) + t
  }

  // ------------------------------------------------------------------------------- notions

  /** A tree that `_build_snapshot` can write under this HEAD and these ignore rules. */
  ghost predicate SnapshotTree(g: Git, t: Tree)
    requires g.head.Some?
  {
    && (forall p :: Excluded(p) ==>
      (p in t <==> p in g.head.value) && (p in t ==> t[p] == g.head.value[p]))
    && (forall p :: p in t && !Excluded(p) ==> Captured(g, p))
  }

  /** Same contents, or absent from both. */
  predicate SameAt(a: Tree, b: Tree, p: Path) {
    (p in a <==> p in b) && (p in a ==> a[p] == b[p])
  }

  /** The two trees agree on every path that is not excluded. */
  ghost predicate SameOff(a: Tree, b: Tree) {
    forall p :: !Excluded(p) ==> SameAt(a, b, p)
  }

  /** An ignored path is in HEAD exactly when it is in the real index. */
  ghost predicate IndexAgrees(g: Git)
    requires g.head.Some?
  {
    forall p :: g.ignored(p) && !Excluded(p) ==> (p in g.head.value <==> p in g.index)
  }

  // ------------------------------------------------------------------------------ theorems

  /** Excluded are the three state files, what lies below such a name, and the lock files under `.jarn`, no others. */
  lemma ExcludedIff(p: Path)
    ensures Excluded(p) <==>
      || p in {".jarn/state.sqlite", ".jarn/state.sqlite-wal", ".jarn/state.sqlite-shm"}
      || ".jarn/state.sqlite/" <= p || ".jarn/state.sqlite-wal/" <= p || ".jarn/state.sqlite-shm/" <= p
      || (exists name: string :: p == ".jarn/" + name + ".lock")
  {
    assert STATE_FILES[0] + "/" == ".jarn/state.sqlite/" && STATE_FILES[1] + "/" == ".jarn/state.sqlite-wal/";
    assert STATE_FILES[2] + "/" == ".jarn/state.sqlite-shm/";
    assert MatchesLiteral(STATE_FILES[0], p) || MatchesLiteral(STATE_FILES[1], p) || MatchesLiteral(STATE_FILES[2], p)
           <==> exists i :: 0 <= i < |STATE_FILES| && MatchesLiteral(STATE_FILES[i], p);
    LockNames(p);
  }

  lemma LockNames(p: Path)
    ensures MatchesLock(p) <==> exists name: string :: p == ".jarn/" + name + ".lock"
  {
    if MatchesLock(p) {
      assert p == ".jarn/" + p[6..|p| - 5] + ".lock";
    }
    if name: string :| p == ".jarn/" + name + ".lock" {
      assert p[|p| - 5..] == ".lock" && p[..6] == ".jarn/";
    }
  }

  /** What a snapshot holds of a path: changed and new files as they are, unless ignored and untracked. */
  lemma BuildAt(g: Git, w: Tree, p: Path)
    requires g.head.Some?
    ensures
      var t, head := BuildTree(g, w), g.head.value;
      if Excluded(p) then SameAt(t, head, p)
      else if p in head || !g.ignored(p) then SameAt(t, w, p)
      else p !in t
  {
  }

  /** What a restore leaves of a path: what the snapshot holds, or else only an ignored file outside the index. */
  lemma ApplyAt(g: Git, t: Tree, w: Tree, p: Path)
    ensures
      var r := ApplyTree(g, t, w);
      if p in t then SameAt(r, t, p)
      else if g.ignored(p) && p !in g.index then SameAt(r, w, p)
      else p !in r
  {
  }

  lemma BuildIsSnapshotTree(g: Git, w: Tree)
    requires g.head.Some?
    ensures SnapshotTree(g, BuildTree(g, w))
  {
  }

  /** Two trees give one snapshot exactly when they agree on every captured path. */
  lemma SameSnapshotIff(g: Git, a: Tree, b: Tree)
    requires g.head.Some?
    ensures BuildTree(g, a) == BuildTree(g, b) <==>
      forall p :: !Excluded(p) && Captured(g, p) ==> SameAt(a, b, p)
  {
    var s, t := BuildTree(g, a), BuildTree(g, b);
    if s == t {
      forall p | !Excluded(p) && Captured(g, p) ensures SameAt(a, b, p) {
        assert p in s <==> p in a;
        assert p in t <==> p in b;
      }
    }
    if forall p :: !Excluded(p) && Captured(g, p) ==> SameAt(a, b, p) {
      forall p ensures SameAt(s, t, p) {
        assert !Excluded(p) && Captured(g, p) ==> SameAt(a, b, p);
      }
      assert s.Keys == t.Keys by {
        forall p ensures p in s <==> p in t { assert SameAt(s, t, p); }
      }
      forall p | p in s ensures s[p] == t[p] { assert SameAt(s, t, p); }
    }
  }

  /**
   * Restoring a snapshot and building again gives the snapshot back, exactly when the tree
   * holds no ignored file that HEAD tracks, the index has dropped and the snapshot lacks.
   */
  lemma BuildAfterApplyIff(g: Git, t: Tree, w: Tree)
    requires g.head.Some? && SnapshotTree(g, t)
    ensures BuildTree(g, ApplyTree(g, t, w)) == t <==>
      forall p :: p in w && p !in t && !Excluded(p) && g.ignored(p) && p !in g.index ==> p !in g.head.value
  {
  }

  /**
   * Restoring the snapshot just built leaves every path that is not excluded as it was,
   * exactly when no ignored file is in the index without being in HEAD. Such a file is not
   * captured by the build and yet is removed by the restore.
   */
  lemma ApplyAfterBuildIff(g: Git, w: Tree)
    requires g.head.Some?
    ensures SameOff(ApplyTree(g, BuildTree(g, w), w), w) <==>
      forall p :: p in w && !Excluded(p) && g.ignored(p) && p in g.index ==> p in g.head.value
  {
  }

  /** An ignored file that is in the index and not in HEAD is lost by restoring what was just built. */
  lemma ForceAddedFileIsLost()
    ensures
      var g, w := Git(Some(map[]), {"a"}, (_: Path) => true), map["a" := "x"];
      !Excluded("a") && BuildTree(g, w) == map[] && ApplyTree(g, BuildTree(g, w), w) == map[]
  {
    var g, w := Git(Some(map[]), {"a"}, (_: Path) => true), map["a" := "x"];
    assert BuildTree(g, w) == map[];
    assert ApplyTree(g, map[], w) == map[];
  }

  /** An ignored file that HEAD tracks and the index has dropped is found again after a restore without it. */
  lemma DroppedFileIsFoundAgain()
    ensures
      var g := Git(Some(map["a" := "x", "k" := "k"]), {"k"}, (p: Path) => p == "a");
      var t, w := map["k" := "k"], map["a" := "y", "k" := "k"];
      SnapshotTree(g, t) && BuildTree(g, ApplyTree(g, t, w)) == w
  {
    var g := Git(Some(map["a" := "x", "k" := "k"]), {"k"}, (p: Path) => p == "a");
    var t, w := map["k" := "k"], map["a" := "y", "k" := "k"];
    assert !Excluded("a") && !Excluded("k");
    assert ApplyTree(g, t, w) == w;
    assert BuildTree(g, w) == w;
  }

  /** A restore never touches an ignored path outside the index and the snapshot. */
  lemma ApplyKeepsIgnored(g: Git, t: Tree, w: Tree, p: Path)
    requires g.ignored(p) && p !in g.index && p !in t
    ensures SameAt(ApplyTree(g, t, w), w, p)
  {
  }

  /** A restore followed by a restore of the snapshot taken before it is the identity. */
  lemma ApplyUndoesApply(g: Git, t: Tree, w: Tree, w': Tree)
    requires g.head.Some? && IndexAgrees(g) && SnapshotTree(g, t)
    requires SameOff(w', ApplyTree(g, t, w))
    ensures SameOff(ApplyTree(g, BuildTree(g, w), w'), w)
  {
  }

  /** Building sees nothing of the excluded paths. */
  lemma BuildRespectsSameOff(g: Git, a: Tree, b: Tree)
    requires g.head.Some? && SameOff(a, b)
    ensures BuildTree(g, a) == BuildTree(g, b)
  {
    SameSnapshotIff(g, a, b);
  }

  /** With the index in agreement, a restored snapshot is what the next build finds. */
  lemma BuildAfterApply(g: Git, t: Tree, w: Tree)
    requires g.head.Some? && IndexAgrees(g) && SnapshotTree(g, t)
    ensures BuildTree(g, ApplyTree(g, t, w)) == t
  {
    BuildAfterApplyIff(g, t, w);
  }
}
