/**
 * What the checkpoint manager promises over whole runs: every restore can be taken back, undos
 * and redos cancel, and an undo confirmed against a preview is a compare-and-swap.
 */
module CheckpointTheorems {
  import opened Prelude
  import opened Snapshots
  import opened RefStacks
  import opened Checkpoints

  // ------------------------------------------------------------------------------------ runs

  /** One step of any session, or an edit by the user. `Store` is the locked half of a snapshot. */
  datatype Op =
    | Edit(tree: Tree)
    | Store(commit: Commit)
    | DoUndo(caller: Option<string>, expected: Option<Commit>, expectedTree: Option<Tree>, env: Env)
    | DoRedo(caller: Option<string>, env: Env)
    | DoRestore(target: Commit, env: Env)

  function Step(cfg: Config, w: World, op: Op): World {
    match op
    case Edit(tree) => w.(tree := tree)
    case Store(c) => StoreStep(cfg, w, c)
    case DoUndo(caller, expected, expectedTree, env) => UndoStep(cfg, w, caller, expected, expectedTree, env).0
    case DoRedo(caller, env) => RedoStep(cfg, w, caller, env).0
    case DoRestore(target, env) => RestoreStep(cfg, w, target, env).0
  }

  function Run(cfg: Config, w: World, ops: seq<Op>): World {
    if ops == [] then w else Step(cfg, Run(cfg, w, ops[..|ops| - 1]), ops[|ops| - 1])
  }

  /** A commit that `_build_snapshot` can have made under this HEAD and these ignore rules. */
  ghost predicate Built(cfg: Config, c: Commit) {
    cfg.git.head.Some? ==> SnapshotTree(cfg.git, c.tree)
  }

  ghost predicate ValidOp(cfg: Config, op: Op) {
    op.Store? ==> Built(cfg, op.commit)
  }

  ghost predicate Kept(cfg: Config, w: World, entries: seq<Commit>) {
    |entries| <= cfg.maxStack && forall c :: c in entries ==> c in w.pinned && Built(cfg, c)
  }

  /** Both stacks stay within the limit, and every entry is a pinned snapshot. */
  ghost predicate Inv(cfg: Config, w: World) {
    Kept(cfg, w, w.undo) && Kept(cfg, w, w.redo)
  }

  lemma BuildGivesBuilt(cfg: Config, tree: Tree, text: string, tag: Option<Tag>, env: Env)
    ensures
      var r := BuildSnapshot(cfg, tree, text, tag, env);
      r.Ok? ==> cfg.git.head.Some? && r.value.tree == BuildTree(cfg.git, tree) && Built(cfg, r.value)
  {
    if cfg.git.head.Some? {
      BuildIsSnapshotTree(cfg.git, tree);
    }
  }

  lemma StepKeeps(cfg: Config, w: World, op: Op)
    requires Inv(cfg, w) && ValidOp(cfg, op)
    ensures Inv(cfg, Step(cfg, w, op)) && w.pinned <= Step(cfg, w, op).pinned
  {
    match op
    case Edit(_) =>
    case Store(_) =>
    case DoUndo(caller, _, _, env) => BuildGivesBuilt(cfg, w.tree, "pre-undo", TagFor(caller, Some(0)), env);
    case DoRedo(caller, env) => BuildGivesBuilt(cfg, w.tree, "pre-redo", TagFor(caller, Some(0)), env);
    case DoRestore(_, env) => BuildGivesBuilt(cfg, w.tree, "pre-rewind", None, env);
  }

  /** In every run both stacks stay bounded, their entries pinned, and no pin is ever lost. */
  lemma {:induction false} RunKeeps(cfg: Config, w: World, ops: seq<Op>)
    requires Inv(cfg, w) && forall op :: op in ops ==> ValidOp(cfg, op)
    ensures Inv(cfg, Run(cfg, w, ops)) && w.pinned <= Run(cfg, w, ops).pinned
  {
    if ops != [] {
      RunKeeps(cfg, w, ops[..|ops| - 1]);
      StepKeeps(cfg, Run(cfg, w, ops[..|ops| - 1]), ops[|ops| - 1]);
    }
  }

  // ------------------------------------------------------------ when an operation is refused

  /** The session `caller` may take the commit: it is its own, or the commit or the caller has no name. */
  predicate MayTake(c: Commit, caller: Option<string>) {
    match (c.subject.tag, caller)
    case (Some(tag), Some(name)) => name == "" || name == tag.thread
    case _ => true
  }

  /** Exactly when an undo restores, what it then does, and that it otherwise does nothing. */
  lemma UndoTable(cfg: Config, w: World, caller: Option<string>, expected: Option<Commit>, expectedTree: Option<Tree>, env: Env)
    ensures
      var (w', out) := UndoStep(cfg, w, caller, expected, expectedTree, env);
      var built := cfg.git.head.Some? && env.buildFault.None?;
      && (out.Restored? <==>
            && cfg.enabled && cfg.isRepo && w.undo != []
            && (expected.Some? ==> expected.value == w.undo[0])
            && MayTake(w.undo[0], caller)
            && (cfg.git.head.Some? ==> env.buildFault != Some(false))
            && (expectedTree.Some? ==> built && BuildTree(cfg.git, w.tree) == expectedTree.value)
            && !env.applyFails)
      && (out.Refused? ==> w' == w)
      && (out.Restored? ==>
            && out.target == w.undo[0] && w'.undo == w.undo[1..]
            && w'.tree == ApplyTree(cfg.git, w.undo[0].tree, w.tree)
            && (built && cfg.maxStack > 0 ==>
                  && w'.redo != [] && w'.redo[0].tree == BuildTree(cfg.git, w.tree)
                  && w'.redo[0].subject.tag ==
                       (if caller.Some? && caller.value != "" then Some(Tag(caller.value, 0)) else None)))
  {
  }

  lemma RedoTable(cfg: Config, w: World, caller: Option<string>, env: Env)
    ensures
      var (w', out) := RedoStep(cfg, w, caller, env);
      && (out.Restored? <==>
            && cfg.enabled && cfg.isRepo && w.redo != [] && MayTake(w.redo[0], caller)
            && cfg.git.head.Some? && env.buildFault.None? && !env.applyFails)
      && (out.Refused? ==> w' == w)
      && (out.Restored? ==>
            && out.target == w.redo[0] && w'.redo == w.redo[1..]
            && w'.tree == ApplyTree(cfg.git, w.redo[0].tree, w.tree)
            && (cfg.maxStack > 0 ==>
                  && w'.undo != [] && w'.undo[0].tree == BuildTree(cfg.git, w.tree)
                  && w'.undo[0].subject.tag ==
                       (if caller.Some? && caller.value != "" then Some(Tag(caller.value, 0)) else None)))
  {
  }

  lemma RestoreTable(cfg: Config, w: World, target: Commit, env: Env)
    ensures
      var (w', out) := RestoreStep(cfg, w, target, env);
      && (out.Restored? <==> cfg.enabled && cfg.isRepo && !env.applyFails)
      && (out.Refused? ==> w' == w)
      && (out.Restored? ==> out.target == target && w'.tree == ApplyTree(cfg.git, target.tree, w.tree) && w'.redo == [])
  {
  }

  /** Exactly when a preview and the first half of a snapshot succeed, and with what. */
  lemma PreviewAndPrepareTable(cfg: Config, w: World, text: string, thread: Option<string>, turn: Option<nat>, env: Env)
    ensures
      var r := PreviewStep(cfg, w, thread, env);
      && (r.Ok? <==>
            && cfg.enabled && cfg.isRepo && w.undo != [] && MayTake(w.undo[0], thread)
            && cfg.git.head.Some? && env.buildFault.None?)
      && (r.Ok? ==> r.value == Preview(w.undo[0], BuildTree(cfg.git, w.tree)))
    ensures
      var r := PrepareStep(cfg, w, text, thread, turn, env);
      && (r.Ok? <==>
            && cfg.enabled && cfg.isRepo && cfg.git.head.Some? && env.buildFault.None?
            && (w.undo != [] ==> w.undo[0].tree != BuildTree(cfg.git, w.tree)))
      && (r.Ok? ==>
            && r.value.tree == BuildTree(cfg.git, w.tree)
            && r.value.subject.tag ==
                 if thread.Some? && thread.value != "" && turn.Some? then Some(Tag(thread.value, turn.value)) else None)
  {
  }

  /** Another session's checkpoint is neither undone, nor redone, nor shown, and nothing changes. */
  lemma SessionsStayApart(cfg: Config, w: World, owner: Tag, caller: string, expected: Option<Commit>,
                          expectedTree: Option<Tree>, env: Env)
    requires caller != "" && caller != owner.thread
    ensures w.undo != [] && w.undo[0].subject.tag == Some(owner) ==>
      && UndoStep(cfg, w, Some(caller), expected, expectedTree, env).1.Refused?
      && UndoStep(cfg, w, Some(caller), expected, expectedTree, env).0 == w
      && PreviewStep(cfg, w, Some(caller), env).Err?
    ensures w.redo != [] && w.redo[0].subject.tag == Some(owner) ==>
      && RedoStep(cfg, w, Some(caller), env).1.Refused? && RedoStep(cfg, w, Some(caller), env).0 == w
  {
    UndoTable(cfg, w, Some(caller), expected, expectedTree, env);
    RedoTable(cfg, w, Some(caller), env);
    PreviewAndPrepareTable(cfg, w, "", Some(caller), None, env);
  }

  /** Ownership refuses nothing to a caller without a name, to the owner, or of a commit without a tag. */
  lemma OwnersAreServed(cfg: Config, w: World, caller: Option<string>, expected: Option<Commit>,
                        expectedTree: Option<Tree>, env: Env)
    ensures w.undo != [] && MayTake(w.undo[0], caller) ==>
      && UndoStep(cfg, w, caller, expected, expectedTree, env).1 != Refused(ForeignOwner)
      && PreviewStep(cfg, w, caller, env) != Err(ForeignOwner)
    ensures w.redo != [] && MayTake(w.redo[0], caller) ==> RedoStep(cfg, w, caller, env).1 != Refused(ForeignOwner)
  {
  }

  /** What one session has undone no other named session can redo. */
  lemma RedoStaysWithSession(cfg: Config, w: World, caller: string, other: string, env: Env, later: Env)
    requires cfg.maxStack > 0 && cfg.git.head.Some? && env.buildFault.None?
    requires UndoStep(cfg, w, Some(caller), None, None, env).1.Restored?
    requires caller != "" && other != "" && other != caller
    ensures
      var w' := UndoStep(cfg, w, Some(caller), None, None, env).0;
      RedoStep(cfg, w', Some(other), later).1.Refused? && RedoStep(cfg, w', Some(other), later).0 == w'
  {
    UndoTable(cfg, w, Some(caller), None, None, env);
    SessionsStayApart(cfg, UndoStep(cfg, w, Some(caller), None, None, env).0, Tag(caller, 0), other, None, None, later);
  }

  // --------------------------------------------------------------------------- reversibility

  /** Checkpoints are on, HEAD exists, and the index agrees with HEAD about ignored paths. */
  ghost predicate Working(cfg: Config) {
    cfg.enabled && cfg.isRepo && cfg.git.head.Some? && IndexAgrees(cfg.git)
  }

  predicate Quiet(env: Env) {
    env.buildFault.None? && !env.applyFails
  }

  function Trees(entries: seq<Commit>): (ts: seq<Tree>)
    ensures |ts| == |entries|
    ensures forall i :: 0 <= i < |ts| ==> ts[i] == entries[i].tree
  {
    seq(|entries|, i requires 0 <= i < |entries| => entries[i].tree)
  }

  lemma TreesOfCons(c: Commit, d: Commit, cs: seq<Commit>, ds: seq<Commit>)
    requires c.tree == d.tree && Trees(cs) == Trees(ds)
    ensures Trees([c] + cs) == Trees([d] + ds)
  {
    assert Trees([c] + cs) == [c.tree] + Trees(cs);
    assert Trees([d] + ds) == [d.tree] + Trees(ds);
  }

  /** The two worlds agree up to excluded files and up to the subjects of the undo entries. */
  ghost predicate SameWorld(a: World, b: World) {
    SameOff(a.tree, b.tree) && Trees(a.undo) == Trees(b.undo) && a.redo == b.redo
  }

  /**
   * A successful undo leaves the tree it overwrote pinned and on top of the redo stack, exactly
   * when that tree could be built; a build that failed with a benign message saves nothing.
   */
  lemma UndoSavesIff(cfg: Config, w: World, caller: Option<string>, expected: Option<Commit>, expectedTree: Option<Tree>, env: Env)
    requires Inv(cfg, w) && cfg.maxStack > 0
    requires UndoStep(cfg, w, caller, expected, expectedTree, env).1.Restored?
    ensures
      var w' := UndoStep(cfg, w, caller, expected, expectedTree, env).0;
      if cfg.git.head.Some? && env.buildFault.None? then
        && w'.redo != [] && w'.redo[0].tree == BuildTree(cfg.git, w.tree) && w'.redo[0] in w'.pinned
        && w'.redo[1..] == Take(w.redo, cfg.maxStack - 1)
        && MayTake(w'.redo[0], caller)
      else
        w'.redo == w.redo && w'.pinned == w.pinned
  {
  }

  /**
   * A successful restore to a chosen snapshot leaves the tree it overwrote pinned and on top of
   * the undo stack, exactly when that tree could be built; redo is empty either way.
   */
  lemma RestoreSavesIff(cfg: Config, w: World, target: Commit, env: Env)
    requires Inv(cfg, w) && cfg.maxStack > 0
    requires RestoreStep(cfg, w, target, env).1.Restored?
    ensures
      var w' := RestoreStep(cfg, w, target, env).0;
      && w'.redo == []
      && if cfg.git.head.Some? && env.buildFault.None? then
           && w'.undo != [] && w'.undo[0].tree == BuildTree(cfg.git, w.tree) && w'.undo[0] in w'.pinned
           && w'.undo[1..] == Take(w.undo, cfg.maxStack - 1)
         else
           w'.undo == w.undo && w'.pinned == w.pinned
  {
  }

  predicate NothingIgnored(p: Path) {
    false
  }

  /** One tracked file and nothing ignored. */
  const ONE_FILE := Config(Git(Some(map["k" := "k"]), {"k"}, NothingIgnored), 1, true, true)
  const SAVED := Commit(map["k" := "k"], Subject("s", 0, None))

  lemma RestoreDropsNewFile()
    ensures ApplyTree(ONE_FILE.git, SAVED.tree, map["k" := "k", "a" := "x"]) == SAVED.tree
  {
  }

  /** A build that fails with a benign message: undo and restore overwrite a file that nothing has saved. */
  lemma OverwrittenUnsaved()
    ensures
      var w := World(map["k" := "k", "a" := "x"], [SAVED], [], {SAVED});
      var env := Env(0, Some(true), false);
      && UndoStep(ONE_FILE, w, None, None, None, env) == (World(SAVED.tree, [], [], {SAVED}), Restored(SAVED))
      && RestoreStep(ONE_FILE, w, SAVED, env) == (World(SAVED.tree, [SAVED], [], {SAVED}), Restored(SAVED))
  {
    RestoreDropsNewFile();
    assert [SAVED][1..] == [];
  }

  /** The refs of a world with one saved snapshot on the undo stack. */
  const ONE_ENTRY: Refs<Commit> := map[Slot(Stack.Undo, 0) := SAVED, Snap(SAVED) := SAVED]

  /**
   * An undo stopped after its files are restored and before its redo point is pinned: the
   * overwritten tree is not there any more and no pinned commit holds it.
   */
  lemma StoppedUndoLoses()
    ensures
      var tree := map["k" := "k", "a" := "x"];
      var gap := Popped(ONE_ENTRY, Stack.Undo);
      && Read(ONE_ENTRY, Stack.Undo) == [SAVED]
      && ApplyTree(ONE_FILE.git, SAVED.tree, tree) != tree
      && forall c :: Snap(c) in gap ==> c.tree != BuildTree(ONE_FILE.git, tree)
  {
    var tree := map["k" := "k", "a" := "x"];
    RestoreDropsNewFile();
    ReadIs(ONE_ENTRY, Stack.Undo, 0, [SAVED]);
    assert !Excluded("a");
    assert "a" in BuildTree(ONE_FILE.git, tree) && "a" !in SAVED.tree && "a" in tree;
  }

  // ------------------------------------------------------------------ after a stopped operation

  /** A pop was stopped at a gap: the next save makes the whole tail readable below the new entry. */
  lemma SaveAfterStoppedPop(cfg: Config, refs: Refs<Commit>, crashed: Refs<Commit>, s: Stack, j: nat, c: Commit)
    requires Contiguous(refs, s) && Gap(refs, crashed, s, j)
    ensures Pushed(cfg, c, Read(crashed, s), Behind(crashed, s)) == Take([c] + Read(refs, s)[1..], cfg.maxStack)
  {
    BehindGap(refs, crashed, s, j);
    var entries := Read(refs, s);
    PushedIs(cfg, c, entries[1..j + 1], entries[j + 1..]);
    assert [c] + entries[1..j + 1] + entries[j + 1..] == [c] + entries[1..];
  }

  /** A clear was stopped after one deletion: the next save brings the other entries back; after more it does not. */
  lemma SaveAfterStoppedClear(cfg: Config, refs: Refs<Commit>, s: Stack, k: nat, c: Commit)
    requires Contiguous(refs, s) && 0 < k <= |Read(refs, s)|
    ensures
      var crashed := refs - Slots(s, 0, k);
      Pushed(cfg, c, Read(crashed, s), Behind(crashed, s)) ==
        Take(if k == 1 then [c] + Read(refs, s)[1..] else [c], cfg.maxStack)
  {
    BehindStoppedClear(refs, s, k);
    PushedIs(cfg, c, [], if k == 1 then Read(refs, s)[1..] else []);
    assert [c] + [] == [c] && [c] + [] + [] == [c];
  }

  /** One redo takes back a successful undo that saved its redo point. */
  lemma RedoTakesBackUndo(cfg: Config, w: World, w0: World, caller: Option<string>, expected: Option<Commit>,
                          expectedTree: Option<Tree>, env: Env, later: Env)
    requires Working(cfg) && Inv(cfg, w) && cfg.maxStack > 0 && Quiet(env) && Quiet(later)
    requires UndoStep(cfg, w, caller, expected, expectedTree, env).1.Restored?
    requires SameWorld(w0, UndoStep(cfg, w, caller, expected, expectedTree, env).0)
    ensures
      var (w', out) := RedoStep(cfg, w0, caller, later);
      && out.Restored?
      && SameOff(w'.tree, w.tree) && Trees(w'.undo) == Trees(w.undo)
      && w'.redo == Take(w.redo, cfg.maxStack - 1)
      && |w'.undo| > 0 && MayTake(w'.undo[0], caller)
  {
    var g := cfg.git;
    var target := w.undo[0];
    var w1 := UndoStep(cfg, w, caller, expected, expectedTree, env).0;
    assert Built(cfg, target);
    var (w', _) := RedoStep(cfg, w0, caller, later);
    ApplyUndoesApply(g, target.tree, w.tree, w0.tree);
    BuildAfterApply(g, target.tree, w.tree);
    BuildRespectsSameOff(g, w0.tree, w1.tree);
    assert |w0.undo| == |Trees(w0.undo)| == |w1.undo|;
    TreesOfCons(w'.undo[0], target, w0.undo, w1.undo);
    assert w.undo == [target] + w1.undo;
  }

  lemma RedoThenUndoTree(cfg: Config, w: World, caller: Option<string>, env: Env, later: Env)
    requires Working(cfg) && Inv(cfg, w) && cfg.maxStack > 0 && Quiet(env) && Quiet(later)
    requires RedoStep(cfg, w, caller, env).1.Restored?
    ensures
      var (w2, out) := UndoStep(cfg, RedoStep(cfg, w, caller, env).0, caller, None, None, later);
      out.Restored? && SameOff(w2.tree, w.tree)
  {
    assert Built(cfg, w.redo[0]);
    ApplyUndoesApply(cfg.git, w.redo[0].tree, w.tree, RedoStep(cfg, w, caller, env).0.tree);
  }

  /** One undo takes back a successful redo. */
  lemma UndoTakesBackRedo(cfg: Config, w: World, caller: Option<string>, env: Env, later: Env)
    requires Working(cfg) && Inv(cfg, w) && cfg.maxStack > 0 && Quiet(env) && Quiet(later)
    requires RedoStep(cfg, w, caller, env).1.Restored?
    ensures
      var w1 := RedoStep(cfg, w, caller, env).0;
      var (w2, out) := UndoStep(cfg, w1, caller, None, None, later);
      && w1.undo[0].tree == BuildTree(cfg.git, w.tree) && w1.undo[0] in w1.pinned
      && out.Restored? && SameOff(w2.tree, w.tree)
      && w2.undo == Take(w.undo, cfg.maxStack - 1) && Trees(w2.redo) == Trees(w.redo)
  {
    var w2 := UndoStep(cfg, RedoStep(cfg, w, caller, env).0, caller, None, None, later).0;
    RedoThenUndoTree(cfg, w, caller, env, later);
    assert Built(cfg, w.redo[0]);
    BuildAfterApply(cfg.git, w.redo[0].tree, w.tree);
    TreesOfCons(w2.redo[0], w.redo[0], w.redo[1..], w.redo[1..]);
    assert w.redo == [w.redo[0]] + w.redo[1..];
  }

  /** One undo, by any session, takes back a restore whose pre-restore snapshot was built. */
  lemma UndoTakesBackRestore(cfg: Config, w: World, target: Commit, caller: Option<string>, env: Env, later: Env)
    requires Working(cfg) && Inv(cfg, w) && cfg.maxStack > 0 && Quiet(env) && Quiet(later) && Built(cfg, target)
    ensures
      var (w1, done) := RestoreStep(cfg, w, target, env);
      var (w2, out) := UndoStep(cfg, w1, caller, None, None, later);
      && done.Restored? && w1.redo == [] && BuildTree(cfg.git, w1.tree) == target.tree
      && w1.undo[0].tree == BuildTree(cfg.git, w.tree) && w1.undo[0] in w1.pinned
      && out.Restored? && SameOff(w2.tree, w.tree) && w2.undo == Take(w.undo, cfg.maxStack - 1)
  {
    ApplyUndoesApply(cfg.git, target.tree, w.tree, RestoreStep(cfg, w, target, env).0.tree);
    BuildAfterApply(cfg.git, target.tree, w.tree);
  }

  /**
   * A snapshot whose two halves are far apart: whatever other sessions do in between, storing it
   * leaves it pinned on top, and one undo brings back the tree of the moment it was built.
   */
  lemma LateStoreBringsBack(cfg: Config, w0: World, text: string, thread: Option<string>, turn: Option<nat>, env: Env,
                            ops: seq<Op>, edited: Tree, later: Env)
    requires Working(cfg) && cfg.maxStack > 0 && Quiet(later)
    requires Inv(cfg, w0) && forall op :: op in ops ==> ValidOp(cfg, op)
    requires PrepareStep(cfg, w0, text, thread, turn, env).Ok?
    ensures
      var c := PrepareStep(cfg, w0, text, thread, turn, env).value;
      var w1 := Run(cfg, w0, ops);
      var w2 := StoreStep(cfg, w1, c);
      var (w3, out) := UndoStep(cfg, w2.(tree := edited), None, None, None, later);
      && Inv(cfg, w2) && w2.undo[0] == c && c in w2.pinned && w2.redo == []
      && c.tree == BuildTree(cfg.git, w0.tree)
      && out.Restored? && BuildTree(cfg.git, w3.tree) == c.tree && w3.undo == Take(w1.undo, cfg.maxStack - 1)
  {
    var c := PrepareStep(cfg, w0, text, thread, turn, env).value;
    RunKeeps(cfg, w0, ops);
    BuildGivesBuilt(cfg, w0.tree, text, TagFor(thread, turn), env);
    StepKeeps(cfg, Run(cfg, w0, ops), Store(c));
    BuildAfterApply(cfg.git, c.tree, edited);
  }

  // ------------------------------------------------------------------- k undos, then k redos

  function UndoAll(cfg: Config, w: World, caller: Option<string>, envs: seq<Env>): World
    decreases |envs|
  {
    if envs == [] then w else UndoAll(cfg, UndoStep(cfg, w, caller, None, None, envs[0]).0, caller, envs[1..])
  }

  function RedoAll(cfg: Config, w: World, caller: Option<string>, envs: seq<Env>): World {
    if envs == [] then w else RedoStep(cfg, RedoAll(cfg, w, caller, envs[..|envs| - 1]), caller, envs[|envs| - 1]).0
  }

  /** As many redos as undos bring the tree and both stacks back. */
  lemma {:induction false} UndosThenRedos(cfg: Config, w: World, caller: Option<string>, undos: seq<Env>, redos: seq<Env>)
    requires Working(cfg) && Inv(cfg, w)
    requires |undos| == |redos| <= |w.undo| && |w.redo| + |undos| <= cfg.maxStack
    requires forall e :: e in undos || e in redos ==> Quiet(e)
    requires forall i :: 0 <= i < |undos| ==> MayTake(w.undo[i], caller)
    ensures SameWorld(RedoAll(cfg, UndoAll(cfg, w, caller, undos), caller, redos), w)
    decreases |undos|
  {
    if undos != [] {
      var k := |undos|;
      var op := DoUndo(caller, None, None, undos[0]);
      var w1 := Step(cfg, w, op);
      StepKeeps(cfg, w, op);
      assert Quiet(undos[0]) && MayTake(w.undo[0], caller);
      UndoSavesIff(cfg, w, caller, None, None, undos[0]);
      assert |w1.undo| == |w.undo| - 1 && |w1.redo| <= |w.redo| + 1;
      UndosThenRedos(cfg, w1, caller, undos[1..], redos[..k - 1]);
      var back := RedoAll(cfg, UndoAll(cfg, w1, caller, undos[1..]), caller, redos[..k - 1]);
      assert Quiet(redos[k - 1]);
      RedoTakesBackUndo(cfg, w, back, caller, None, None, undos[0], redos[k - 1]);
      assert Take(w.redo, cfg.maxStack - 1) == w.redo;
    }
  }

  // -------------------------------------------------------------- preview, wait, confirm, undo

  /**
   * Between a preview and the undo that quotes it any sessions may act and the user may edit.
   * The undo then restores exactly when the top entry and the captured tree are the previewed
   * ones and nothing else stands in the way; it ends at the previewed target; and otherwise
   * nothing changes.
   */
  lemma PreviewedUndo(cfg: Config, w0: World, viewer: Option<string>, env0: Env, ops: seq<Op>, caller: Option<string>, env: Env)
    requires PreviewStep(cfg, w0, viewer, env0).Ok?
    requires Inv(cfg, w0) && forall op :: op in ops ==> ValidOp(cfg, op)
    ensures
      var p := PreviewStep(cfg, w0, viewer, env0).value;
      var w1 := Run(cfg, w0, ops);
      var (w2, out) := UndoStep(cfg, w1, caller, Some(p.target), Some(p.currentTree), env);
      && (out.Restored? <==>
            && w1.undo != [] && w1.undo[0] == p.target
            && (forall q :: !Excluded(q) && Captured(cfg.git, q) ==> SameAt(w1.tree, w0.tree, q))
            && MayTake(p.target, caller) && Quiet(env))
      && (out.Restored? && IndexAgrees(cfg.git) ==>
            && BuildTree(cfg.git, w2.tree) == p.target.tree
            && w2.undo == w1.undo[1..]
            && (cfg.maxStack > 0 ==> w2.redo[0].tree == p.currentTree))
      && (out.Refused? ==> w2 == w1)
  {
    var p := PreviewStep(cfg, w0, viewer, env0).value;
    var w1 := Run(cfg, w0, ops);
    RunKeeps(cfg, w0, ops);
    BuildGivesBuilt(cfg, w0.tree, "restore preview", None, env0);
    SameSnapshotIff(cfg.git, w1.tree, w0.tree);
    if w1.undo != [] && IndexAgrees(cfg.git) {
      assert Built(cfg, w1.undo[0]);
      BuildAfterApply(cfg.git, w1.undo[0].tree, w1.tree);
    }
  }
}
