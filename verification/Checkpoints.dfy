/**
 * The checkpoint manager of `src/jarn/agent/checkpoint.py`: snapshot, undo, redo, restore and
 * preview over the working tree, the two ref stacks and the pinned snapshot commits.
 *
 * A commit is identified by its tree and its subject, as a content address is. HEAD, the index
 * and the ignore rules are fixed in the configuration. Whatever git may refuse to do in one
 * call is a field of `Env`. Every locked block is one step.
 */
module Checkpoints {
  import opened Prelude
  import opened Snapshots
  import opened RefStacks

  /** The session and turn a snapshot subject is tagged with. */
  datatype Tag = Tag(thread: string, turn: nat)

  datatype Subject = Subject(text: string, time: int, tag: Option<Tag>)

  datatype Commit = Commit(tree: Tree, subject: Subject)

  datatype Config = Config(git: Git, maxStack: nat, enabled: bool, isRepo: bool)

  /** `buildFault` is set when git fails to build a snapshot: does its message look benign? */
  datatype Env = Env(time: int, buildFault: Option<bool>, applyFails: bool)

  datatype BuildError = NoCommits | GitFailed(looksBenign: bool)

  datatype Refusal =
    | Disabled | NotARepository | StackEmpty | CheckpointChanged | ForeignOwner
    | NotSaved | TreeChanged | RestoreFailed | AlreadySaved

  datatype Outcome = Restored(target: Commit) | Refused(why: Refusal)

  datatype Preview = Preview(target: Commit, currentTree: Tree)

  /** What the operations act on: working tree, stacks with their tops first, pinned commits. */
  datatype World = World(tree: Tree, undo: seq<Commit>, redo: seq<Commit>, pinned: set<Commit>)

  // --------------------------------------------------------------------------- small pieces

  /** A subject carries a tag only for a named thread. */
  function TagFor(thread: Option<string>, turn: Option<nat>): (tag: Option<Tag>) {
    if thread.Some? && thread.value != "" && turn.Some? then Some(Tag(thread.value, turn.value)) else None
  }

  /** Owned by another session than the caller; without a tag or a caller nothing is foreign. */
  predicate Foreign(c: Commit, caller: Option<string>) {
    && caller.Some? && caller.value != ""
    && c.subject.tag.Some? && c.subject.tag.value.thread != caller.value
  }

  function BuildSnapshot(cfg: Config, tree: Tree, text: string, tag: Option<Tag>, env: Env): (r: Result<Commit, BuildError>)
  {
    if cfg.git.head.None? then Err(NoCommits)
    else if env.buildFault.Some? then Err(GitFailed(env.buildFault.value))
    else Ok(Commit(BuildTree(cfg.git, tree), Subject(text, env.time, tag)))
  }

  /** The redo point of an undo: a failure that looks benign only means there is none. */
  function RedoPoint(cfg: Config, tree: Tree, caller: Option<string>, env: Env): (r: Result<Option<Commit>, Refusal>)
  {
    match BuildSnapshot(cfg, tree, "pre-undo", TagFor(caller, Some(0)), env)
    case Ok(c) => Ok(Some(c))
    case Err(NoCommits) => Ok(None)
    case Err(GitFailed(looksBenign)) => if looksBenign then Ok(None) else Err(NotSaved)
  }

  /** A stack after a push and a prune; `behind` are entries behind a gap that a stop has left. */
  function Pushed(cfg: Config, c: Commit, entries: seq<Commit>, behind: seq<Commit> := []): (r: seq<Commit>) {
    Take(if behind == [] then [c] + entries else [c] + entries + behind, cfg.maxStack)
  }

  // The operations. `behind` stands behind a gap of the stack that is pushed to; without one it is empty.

  function UndoStep(cfg: Config, w: World, caller: Option<string>,
                    expected: Option<Commit>, expectedTree: Option<Tree>, env: Env, behind: seq<Commit> := [])
    : (r: (World, Outcome))
  {
    if !cfg.enabled then (w, Refused(Disabled))
    else if !cfg.isRepo then (w, Refused(NotARepository))
    else if w.undo == [] then (w, Refused(StackEmpty))
    else if expected.Some? && w.undo[0] != expected.value then (w, Refused(CheckpointChanged))
    else if Foreign(w.undo[0], caller) then (w, Refused(ForeignOwner))
    else match RedoPoint(cfg, w.tree, caller, env)
      case Err(why) => (w, Refused(why))
      case Ok(saved) =>
        if expectedTree.Some? && (saved.None? || saved.value.tree != expectedTree.value) then (w, Refused(TreeChanged))
        else if env.applyFails then (w, Refused(RestoreFailed))
        else
          var tree := ApplyTree(cfg.git, w.undo[0].tree, w.tree);
          var w' := if saved.None? then World(tree, w.undo[1..], w.redo, w.pinned)
                    else World(tree, w.undo[1..], Pushed(cfg, saved.value, w.redo, behind), w.pinned + {saved.value});
          (w', Restored(w.undo[0]))
  }

  function RedoStep(cfg: Config, w: World, caller: Option<string>, env: Env, behind: seq<Commit> := []): (r: (World, Outcome))
  {
    if !cfg.enabled then (w, Refused(Disabled))
    else if !cfg.isRepo then (w, Refused(NotARepository))
    else if w.redo == [] then (w, Refused(StackEmpty))
    else if Foreign(w.redo[0], caller) then (w, Refused(ForeignOwner))
    else match BuildSnapshot(cfg, w.tree, "pre-redo", TagFor(caller, Some(0)), env)
      case Err(_) => (w, Refused(NotSaved))
      case Ok(saved) =>
        if env.applyFails then (w, Refused(RestoreFailed))
        else
          var tree := ApplyTree(cfg.git, w.redo[0].tree, w.tree);
          (World(tree, Pushed(cfg, saved, w.undo, behind), w.redo[1..], w.pinned + {saved}), Restored(w.redo[0]))
  }

  /** `/rewind`: restore any snapshot; a pre-restore snapshot that cannot be built is skipped. */
  function RestoreStep(cfg: Config, w: World, target: Commit, env: Env, behind: seq<Commit> := []): (r: (World, Outcome))
  {
    if !cfg.enabled then (w, Refused(Disabled))
    else if !cfg.isRepo then (w, Refused(NotARepository))
    else if env.applyFails then (w, Refused(RestoreFailed))
    else
      var tree := ApplyTree(cfg.git, target.tree, w.tree);
      match BuildSnapshot(cfg, w.tree, "pre-rewind", None, env)
      case Ok(saved) => (World(tree, Pushed(cfg, saved, w.undo, behind), [], w.pinned + {saved}), Restored(target))
      case Err(_) => (World(tree, w.undo, [], w.pinned), Restored(target))
  }

  /** The unlocked half of a snapshot: build it, unless the undo top already holds this tree. */
  function PrepareStep(cfg: Config, w: World, text: string, thread: Option<string>, turn: Option<nat>, env: Env)
    : (r: Result<Commit, Refusal>)
  {
    if !cfg.enabled then Err(Disabled)
    else if !cfg.isRepo then Err(NotARepository)
    else match BuildSnapshot(cfg, w.tree, text, TagFor(thread, turn), env)
      case Err(_) => Err(NotSaved)
      case Ok(c) => if w.undo != [] && w.undo[0].tree == c.tree then Err(AlreadySaved) else Ok(c)
  }

  /** The locked half of a snapshot: pin it, push it, drop the redo stack. */
  function StoreStep(cfg: Config, w: World, c: Commit, behind: seq<Commit> := []): (w': World) {
    World(w.tree, Pushed(cfg, c, w.undo, behind), [], w.pinned + {c})
  }

  function PreviewStep(cfg: Config, w: World, caller: Option<string>, env: Env): (r: Result<Preview, Refusal>)
  {
    if !cfg.enabled then Err(Disabled)
    else if !cfg.isRepo then Err(NotARepository)
    else if w.undo == [] then Err(StackEmpty)
    else if Foreign(w.undo[0], caller) then Err(ForeignOwner)
    else match BuildSnapshot(cfg, w.tree, "restore preview", None, env)
      case Err(_) => Err(NotSaved)
      case Ok(current) => Ok(Preview(w.undo[0], current.tree))
  }

  // -------------------------------------------------------------- the manager over the refs

  function Pins(refs: Refs<Commit>): (cs: set<Commit>) {
    set r | r in refs && r.Snap? :: r.commit
  }

  lemma PinsOf(refs: Refs<Commit>, c: Commit)
    ensures Pins(refs[Snap(c) := c]) == Pins(refs) + {c}
  {
    var refs' := refs[Snap(c) := c];
    forall x ensures x in Pins(refs') <==> x in Pins(refs) || x == c {
      assert x in Pins(refs') <==> Snap(x) in refs';
      assert x in Pins(refs) <==> Snap(x) in refs;
    }
  }

  /** Changing the slots of one stack only: the other stack and the pins are as before. */
  lemma StackFrame(a: Refs<Commit>, b: Refs<Commit>, s: Stack, t: Stack)
    requires SameElsewhere(a, b, s) && s != t
    ensures Read(a, t) == Read(b, t) && Behind(a, t) == Behind(b, t) && (Contiguous(a, t) <==> Contiguous(b, t))
    ensures Pins(a) == Pins(b)
  {
    SameElsewhereReads(a, b, s, t);
    forall x ensures x in Pins(a) <==> x in Pins(b) {
      assert x in Pins(a) <==> Snap(x) in a;
      assert x in Pins(b) <==> Snap(x) in b;
    }
  }

  /** Pinning touches no stack. */
  lemma PinFrame(refs: Refs<Commit>, c: Commit, s: Stack)
    ensures Read(refs[Snap(c) := c], s) == Read(refs, s) && Behind(refs[Snap(c) := c], s) == Behind(refs, s)
    ensures Contiguous(refs[Snap(c) := c], s) <==> Contiguous(refs, s)
  {
    ReadIs(refs[Snap(c) := c], s, 0, Read(refs, s));
    ReadIs(refs[Snap(c) := c], s, |Read(refs, s)| + 1, Behind(refs, s));
  }

  lemma RemovalIsApply(g: Git, t: Tree, w: Tree, toRemove: set<Path>)
    requires toRemove == (g.index + set p | p in w && p !in g.index && !g.ignored(p)) - t.Keys
    ensures (w - (g.index - t.Keys)) + t - toRemove == ApplyTree(g, t, w)
  {
  }

  /** Pinning first leaves no entry without its pin. */
  lemma PinIsSecure(refs: Refs<Commit>, c: Commit)
    ensures Secure(refs) ==> Secure(refs[Snap(c) := c])
  {
  }

  lemma PoppedIsPinned(refs: Refs<Commit>, s: Stack)
    requires Read(refs, s) != []
    ensures Secure(refs) ==> Snap(Read(refs, s)[0]) in Popped(refs, s)
  {
  }

  // ----------------------------------------------------------------------------- stop points

  /** The refs and the working tree between two changes. */
  datatype Stop = Stop(refs: Refs<Commit>, tree: Tree)

  /** Neither is `tree` still there nor is its snapshot `c` pinned. */
  ghost predicate Lost(stop: Stop, tree: Tree, c: Commit) {
    stop.tree != tree && Snap(c) !in stop.refs
  }

  /** Nothing is lost, but for stops with the refs `gap`. */
  ghost predicate Covered(stop: Stop, tree: Tree, c: Commit, gap: Refs<Commit>) {
    Lost(stop, tree, c) ==> stop.refs == gap
  }

  function Other(s: Stack): Stack {
    if s.Undo? then Stack.Redo else Stack.Undo
  }

  /** At every stop since stop `n` the commit `c` is pinned. */
  ghost predicate AllPin(stops: seq<Stop>, n: nat, c: Commit) {
    |stops| <= n || (Snap(c) in stops[|stops| - 1].refs && AllPin(stops[..|stops| - 1], n, c))
  }

  ghost predicate AllTree(stops: seq<Stop>, n: nat, tree: Tree) {
    |stops| <= n || (stops[|stops| - 1].tree == tree && AllTree(stops[..|stops| - 1], n, tree))
  }

  ghost predicate AllRefs(stops: seq<Stop>, n: nat, refs: Refs<Commit>) {
    |stops| <= n || (stops[|stops| - 1].refs == refs && AllRefs(stops[..|stops| - 1], n, refs))
  }

  ghost predicate AllCovered(stops: seq<Stop>, n: nat, tree: Tree, c: Commit, gap: Refs<Commit>) {
    |stops| <= n || (Covered(stops[|stops| - 1], tree, c, gap) && AllCovered(stops[..|stops| - 1], n, tree, c, gap))
  }

  ghost predicate Shows(stops: seq<Stop>, n: nat, stop: Stop) {
    |stops| > n && (stops[|stops| - 1] == stop || Shows(stops[..|stops| - 1], n, stop))
  }

  /**
   * Since stop `n` the tree `was` has become `now` and `c` has been pinned. The stops with the
   * refs `gap`, and no others, may show neither; the last of them shows the new tree.
   */
  ghost predicate Exposed(stops: seq<Stop>, n: nat, was: Tree, now: Tree, c: Commit, gap: Refs<Commit>) {
    AllCovered(stops, n, was, c, gap) && Shows(stops, n, Stop(gap, now))
  }

  lemma {:induction false} CoveredAt(stops: seq<Stop>, n: nat, tree: Tree, c: Commit, gap: Refs<Commit>, t: nat)
    requires AllCovered(stops, n, tree, c, gap) && n <= t < |stops|
    ensures Covered(stops[t], tree, c, gap)
  {
    if t < |stops| - 1 {
      CoveredAt(stops[..|stops| - 1], n, tree, c, gap, t);
    }
  }

  lemma {:induction false} ShownAt(stops: seq<Stop>, n: nat, stop: Stop) returns (t: nat)
    requires Shows(stops, n, stop)
    ensures n <= t < |stops| && stops[t] == stop
  {
    t := |stops| - 1;
    if stops[t] != stop {
      t := ShownAt(stops[..t], n, stop);
    }
  }

  /**
   * Where an operation can be stopped with the overwritten tree lost: only while the refs are `gap`;
   * never when the snapshot was pinned before; and certainly when it was not and the tree changes.
   */
  lemma LostOnlyInGap(stops: seq<Stop>, n: nat, was: Tree, now: Tree, c: Commit, gap: Refs<Commit>)
    requires Exposed(stops, n, was, now, c, gap)
    ensures forall t :: n <= t < |stops| && Lost(stops[t], was, c) ==> stops[t].refs == gap && Snap(c) !in gap
    ensures now != was && Snap(c) !in gap ==> exists t :: n <= t < |stops| && Lost(stops[t], was, c)
  {
    forall t | n <= t < |stops| ensures Lost(stops[t], was, c) ==> stops[t].refs == gap {
      CoveredAt(stops, n, was, c, gap, t);
    }
    var t := ShownAt(stops, n, Stop(gap, now));
    assert stops[t] == Stop(gap, now);
  }

  lemma {:induction false} PinsAre(stops: seq<Stop>, n: nat, c: Commit)
    requires forall t :: n <= t < |stops| ==> Snap(c) in stops[t].refs
    ensures AllPin(stops, n, c)
  {
    if |stops| > n {
      PinsAre(stops[..|stops| - 1], n, c);
    }
  }

  lemma {:induction false} TreesAre(stops: seq<Stop>, n: nat, tree: Tree)
    requires forall t :: n <= t < |stops| ==> stops[t].tree == tree
    ensures AllTree(stops, n, tree)
  {
    if |stops| > n {
      TreesAre(stops[..|stops| - 1], n, tree);
    }
  }

  lemma {:induction false} PinOn(s0: seq<Stop>, s1: seq<Stop>, s2: seq<Stop>, c: Commit)
    requires s0 <= s1 <= s2 && AllPin(s1, |s0|, c) && AllPin(s2, |s1|, c)
    ensures AllPin(s2, |s0|, c)
  {
    if |s2| > |s1| {
      PinOn(s0, s1, s2[..|s2| - 1], c);
    } else {
      assert s2 == s1;
    }
  }

  lemma {:induction false} CoveredOn(s0: seq<Stop>, s1: seq<Stop>, tree: Tree, c: Commit, gap: Refs<Commit>, n: nat)
    requires s0 <= s1 && n <= |s0| && AllCovered(s0, n, tree, c, gap)
    requires AllTree(s1, |s0|, tree) || AllRefs(s1, |s0|, gap) || AllPin(s1, |s0|, c)
    ensures AllCovered(s1, n, tree, c, gap)
  {
    if |s1| > |s0| {
      CoveredOn(s0, s1[..|s1| - 1], tree, c, gap, n);
    } else {
      assert s1 == s0;
    }
  }

  lemma {:induction false} ShowsOn(s0: seq<Stop>, s1: seq<Stop>, n: nat, stop: Stop)
    requires s0 <= s1 && Shows(s0, n, stop)
    ensures Shows(s1, n, stop)
  {
    if |s1| > |s0| {
      ShowsOn(s0, s1[..|s1| - 1], n, stop);
    } else {
      assert s1 == s0;
    }
  }

  /** Restored and then pinned. */
  lemma ExposedHere(s1: seq<Stop>, s2: seq<Stop>, s3: seq<Stop>, was: Tree, now: Tree, c: Commit, gap: Refs<Commit>)
    requires s1 <= s2 <= s3 && Shows(s2, |s1|, Stop(gap, now)) && AllRefs(s2, |s1|, gap) && AllPin(s3, |s2|, c)
    ensures Exposed(s3, |s1|, was, now, c, gap)
  {
    CoveredOn(s1, s2, was, c, gap, |s1|);
    CoveredOn(s2, s3, was, c, gap, |s1|);
    ShowsOn(s2, s3, |s1|, Stop(gap, now));
  }

  /** After stops that still show the tree. */
  lemma ExposedLater(s0: seq<Stop>, s1: seq<Stop>, s2: seq<Stop>, was: Tree, now: Tree, c: Commit, gap: Refs<Commit>)
    requires s0 <= s1 <= s2 && AllTree(s1, |s0|, was) && Exposed(s2, |s1|, was, now, c, gap)
    ensures Exposed(s2, |s0|, was, now, c, gap)
  {
    ShowsSince(s2, |s0|, |s1|, Stop(gap, now));
    CoveredOn(s0, s1, was, c, gap, |s0|);
    CoveredSince(s1, s2, was, c, gap, |s0|);
  }

  lemma {:induction false} CoveredSince(s1: seq<Stop>, s2: seq<Stop>, tree: Tree, c: Commit, gap: Refs<Commit>, n: nat)
    requires s1 <= s2 && AllCovered(s1, n, tree, c, gap) && AllCovered(s2, |s1|, tree, c, gap)
    ensures AllCovered(s2, n, tree, c, gap)
  {
    if |s2| > |s1| {
      CoveredSince(s1, s2[..|s2| - 1], tree, c, gap, n);
    } else {
      assert s2 == s1;
    }
  }

  /** Before stops at which the commit is pinned. */
  lemma ExposedEarlier(s1: seq<Stop>, s2: seq<Stop>, n: nat, was: Tree, now: Tree, c: Commit, gap: Refs<Commit>)
    requires s1 <= s2 && n <= |s1| && Exposed(s1, n, was, now, c, gap) && AllPin(s2, |s1|, c)
    ensures Exposed(s2, n, was, now, c, gap)
  {
    CoveredOn(s1, s2, was, c, gap, n);
    ShowsOn(s1, s2, n, Stop(gap, now));
  }

  lemma {:induction false} TreeOn(s0: seq<Stop>, s1: seq<Stop>, s2: seq<Stop>, tree: Tree)
    requires s0 <= s1 <= s2 && AllTree(s1, |s0|, tree) && AllTree(s2, |s1|, tree)
    ensures AllTree(s2, |s0|, tree)
  {
    if |s2| > |s1| {
      TreeOn(s0, s1, s2[..|s2| - 1], tree);
    } else {
      assert s2 == s1;
    }
  }

  lemma {:induction false} ShowsSince(stops: seq<Stop>, m: nat, n: nat, stop: Stop)
    requires m <= n && Shows(stops, n, stop)
    ensures Shows(stops, m, stop)
  {
    if stops[|stops| - 1] != stop {
      ShowsSince(stops[..|stops| - 1], m, n, stop);
    }
  }

  lemma PushedIs(cfg: Config, c: Commit, entries: seq<Commit>, behind: seq<Commit>)
    ensures Take([c] + entries + behind, cfg.maxStack) == Pushed(cfg, c, entries, behind)
  {
    assert [c] + entries + [] == [c] + entries;
  }

  class CheckpointManager {
    const cfg: Config
    const store: RefStore<Commit>
    var tree: Tree
    /** Where the operations so far may have stopped. */
    ghost var stops: seq<Stop>

    /** Neither stack has a gap. The operations keep this, and do not rely on it. */
    ghost predicate Valid()
      reads this, store
    {
      Contiguous(store.refs, Stack.Undo) && Contiguous(store.refs, Stack.Redo)
    }

    ghost function View(): World
      reads this, store
    {
      World(tree, Read(store.refs, Stack.Undo), Read(store.refs, Stack.Redo), Pins(store.refs))
    }

    constructor (cfg: Config, store: RefStore<Commit>, tree: Tree)
      ensures this.cfg == cfg && this.store == store && this.tree == tree && stops == []
    {
      this.cfg, this.store, this.tree, stops := cfg, store, tree, [];
    }

    /** Record the ref writes since write `n`. */
    ghost method Note(n: nat)
      requires n <= |store.trail|
      modifies `stops
      ensures old(stops) <= stops && |stops| == |old(stops)| + |store.trail| - n
      ensures forall t :: |old(stops)| <= t < |stops| ==> stops[t] == Stop(store.trail[n + t - |old(stops)|], tree)
    {
      var trail, now := store.trail, tree;
      stops := stops + seq(|trail| - n, i requires 0 <= i < |trail| - n => Stop(trail[n + i], now));
    }

    /** Pin `c`, push it and prune: the three calls that follow every saved snapshot. */
    method Save(s: Stack, c: Commit)
      modifies store, `stops
      ensures old(Valid()) ==> Valid()
      ensures Read(store.refs, s) == Pushed(cfg, c, old(Read(store.refs, s)), old(Behind(store.refs, s)))
      ensures Read(store.refs, Other(s)) == old(Read(store.refs, Other(s)))
      ensures Pins(store.refs) == old(Pins(store.refs)) + {c} && Snap(c) in store.refs
      ensures Secure(old(store.refs)) ==> Secure(store.refs) && store.loose == old(store.loose)
      ensures old(stops) <= stops && AllPin(stops, |old(stops)|, c)
    {
      ghost var entries, behind, s0 := Read(store.refs, s), Behind(store.refs, s), stops;
      Pin(c);
      ghost var s1 := stops;
      Push(s, c);
      PinOn(s0, s1, stops, c);
      ghost var s2 := stops;
      Prune(s, c);
      PinOn(s0, s2, stops, c);
      PushedIs(cfg, c, entries, behind);
    }

    method Pin(c: Commit)
      modifies store, `stops
      ensures old(Valid()) ==> Valid()
      ensures forall s :: Read(store.refs, s) == old(Read(store.refs, s)) && Behind(store.refs, s) == old(Behind(store.refs, s))
      ensures Pins(store.refs) == old(Pins(store.refs)) + {c} && Snap(c) in store.refs
      ensures Secure(old(store.refs)) ==> Secure(store.refs) && store.loose == old(store.loose)
      ensures old(stops) <= stops && AllPin(stops, |old(stops)|, c)
    {
      PinsOf(store.refs, c);
      PinFrame(store.refs, c, Stack.Undo);
      PinFrame(store.refs, c, Stack.Redo);
      PinIsSecure(store.refs, c);
      store.UpdateRef(Snap(c), c);
      ghost var m := |stops|;
      Note(|store.trail| - 1);
      PinsAre(stops, m, c);
    }

    method Push(s: Stack, c: Commit)
      requires Snap(c) in store.refs
      modifies store, `stops
      ensures old(Valid()) ==> Valid()
      ensures Read(store.refs, s) == [c] + old(Read(store.refs, s)) + old(Behind(store.refs, s))
      ensures Read(store.refs, Other(s)) == old(Read(store.refs, Other(s)))
      ensures Pins(store.refs) == old(Pins(store.refs)) && Snap(c) in store.refs
      ensures Secure(old(store.refs)) ==> Secure(store.refs) && store.loose == old(store.loose)
      ensures old(stops) <= stops && AllPin(stops, |old(stops)|, c)
    {
      ghost var before, n := store.refs, |store.trail|;
      PushReads(before, s, c);
      store.StackPush(s, c);
      StackFrame(before, store.refs, s, Other(s));
      forall t | n <= t < |store.trail| ensures Snap(c) in store.trail[t] {
        if t < |store.trail| - 1 {
          StopsKeepPins(before, store.trail[t], s, 0);
        }
      }
      ghost var m := |stops|;
      Note(n);
      PinsAre(stops, m, c);
    }

    method Prune(s: Stack, ghost c: Commit)
      requires Snap(c) in store.refs
      modifies store, `stops
      ensures old(Valid()) ==> Valid()
      ensures Read(store.refs, s) == Take(old(Read(store.refs, s)), cfg.maxStack)
      ensures Read(store.refs, Other(s)) == old(Read(store.refs, Other(s)))
      ensures Pins(store.refs) == old(Pins(store.refs)) && Snap(c) in store.refs
      ensures Secure(old(store.refs)) ==> Secure(store.refs) && store.loose == old(store.loose)
      ensures old(stops) <= stops && AllPin(stops, |old(stops)|, c)
    {
      ghost var before, n := store.refs, |store.trail|;
      DropRunRefines(before, s, cfg.maxStack);
      store.PruneStack(s, cfg.maxStack);
      StackFrame(before, store.refs, s, Other(s));
      forall t | n <= t < |store.trail| ensures Snap(c) in store.trail[t] {
        StopsKeepPins(before, store.trail[t], s, cfg.maxStack);
      }
      ghost var m := |stops|;
      Note(n);
      PinsAre(stops, m, c);
    }

    /** Pop the top of `s`; the caller has seen that there is one. */
    method Pop(s: Stack) returns (top: Commit)
      requires Read(store.refs, s) != []
      modifies store, `stops
      ensures old(Valid()) ==> Valid()
      ensures top == old(Read(store.refs, s)[0]) && store.refs == Popped(old(store.refs), s)
      ensures Read(store.refs, s) == old(Read(store.refs, s))[1..]
      ensures Read(store.refs, Other(s)) == old(Read(store.refs, Other(s)))
      ensures Behind(store.refs, Other(s)) == old(Behind(store.refs, Other(s)))
      ensures Pins(store.refs) == old(Pins(store.refs))
      ensures Secure(old(store.refs)) ==> Secure(store.refs) && store.loose == old(store.loose)
      ensures Secure(old(store.refs)) ==> Snap(top) in store.refs
      ensures old(stops) <= stops && AllTree(stops, |old(stops)|, tree)
    {
      ghost var before, n := store.refs, |store.trail|;
      PopRefines(before, s);
      PoppedIsPinned(before, s);
      var popped := store.StackPop(s);
      StackFrame(before, store.refs, s, Other(s));
      ghost var m := |stops|;
      Note(n);
      TreesAre(stops, m, tree);
      top := popped.value;
    }

    /** Push back what a refused restore has popped. */
    method PutBack(ghost refs: Refs<Commit>, s: Stack, top: Commit)
      requires Read(refs, s) != [] && top == Read(refs, s)[0] && store.refs == Popped(refs, s)
      modifies store, `stops
      ensures store.refs == refs
      ensures Secure(old(store.refs)) && Snap(top) in old(store.refs) ==> store.loose == old(store.loose)
      ensures old(stops) <= stops && AllTree(stops, |old(stops)|, tree)
    {
      ghost var n := |store.trail|;
      PopThenPush(refs, s);
      store.StackPush(s, top);
      ghost var m := |stops|;
      Note(n);
      TreesAre(stops, m, tree);
    }

    /** Put a new working tree in place. */
    method SetTree(t: Tree)
      modifies `tree, `stops
      ensures tree == t && stops == old(stops) + [Stop(store.refs, t)]
    {
      tree, stops := t, stops + [Stop(store.refs, t)];
    }

    /** Remove files one by one. */
    method RemovePaths(paths: set<Path>, ghost n: nat)
      requires n < |stops| && AllRefs(stops, n, store.refs) && Shows(stops, n, Stop(store.refs, tree))
      modifies `tree, `stops
      ensures tree == old(tree) - paths && old(stops) <= stops
      ensures AllRefs(stops, n, store.refs) && Shows(stops, n, Stop(store.refs, tree))
    {
      var rest := paths;
      while rest != {}
        invariant rest <= paths && tree == old(tree) - (paths - rest) && n < |stops| && old(stops) <= stops
        invariant AllRefs(stops, n, store.refs) && Shows(stops, n, Stop(store.refs, tree))
        decreases rest
      {
        var p :| p in rest;
        ghost var removed, before := paths - rest, stops;
        SetTree(tree - {p});
        rest := rest - {p};
        assert paths - rest == removed + {p};
        assert stops[..|stops| - 1] == before;
      }
      assert paths - {} == paths;
    }

    /**
     * Restore a snapshot: write its files, drop what the index lists beyond it, then remove the
     * listed paths it lacks. A restore that git refuses leaves the tree alone.
     */
    method Apply(target: Commit, env: Env) returns (ok: bool)
      modifies `tree, `stops
      ensures ok == !env.applyFails
      ensures tree == if ok then ApplyTree(cfg.git, target.tree, old(tree)) else old(tree)
      ensures old(stops) <= stops && (!ok ==> stops == old(stops))
      ensures ok ==> AllRefs(stops, |old(stops)|, store.refs) && Shows(stops, |old(stops)|, Stop(store.refs, tree))
    {
      var untracked := set p | p in tree && p !in cfg.git.index && !cfg.git.ignored(p);
      var toRemove := (cfg.git.index + untracked) - target.tree.Keys;
      if env.applyFails { return false; }
      ghost var before, n := tree, |stops|;
      SetTree((tree - (cfg.git.index - target.tree.Keys)) + target.tree);
      RemovePaths(toRemove, n);
      RemovalIsApply(cfg.git, target.tree, before, toRemove);
      ok := true;
    }

    /**
     * Restore `target` and save `saved`, when there is one, on stack `s`. Once the files are
     * restored, and until `saved` is pinned, the overwritten tree is in no ref of the operation;
     * at every other stop it is still there or pinned.
     */
    method Overwrite(s: Stack, target: Commit, saved: Option<Commit>, env: Env) returns (ok: bool)
      modifies this, store
      ensures old(Valid()) ==> Valid()
      ensures ok == !env.applyFails
      ensures !ok ==> store.refs == old(store.refs) && store.loose == old(store.loose) && tree == old(tree) && stops == old(stops)
      ensures ok ==> tree == ApplyTree(cfg.git, target.tree, old(tree)) && Saved(store.refs, old(store.refs), s, saved)
      ensures Read(store.refs, Other(s)) == old(Read(store.refs, Other(s)))
      ensures Secure(old(store.refs)) ==> Secure(store.refs) && store.loose == old(store.loose)
      ensures old(stops) <= stops
      ensures ok && saved.Some? ==> Snap(saved.value) in store.refs
      ensures ok && saved.Some? ==> Exposed(stops, |old(stops)|, old(tree), tree, saved.value, old(store.refs))
    {
      ghost var refs, s1, was := store.refs, stops, tree;
      ok := Apply(target, env);
      if ok && saved.Some? {
        ghost var s2 := stops;
        Save(s, saved.value);
        ExposedHere(s1, s2, stops, was, tree, saved.value, refs);
      }
    }

    /** Restore the top of `s` and save `saved`, when there is one, on the other stack. */
    method Exchange(s: Stack, saved: Option<Commit>, env: Env) returns (out: Outcome)
      requires Read(store.refs, s) != []
      modifies this, store
      ensures old(Valid()) ==> Valid()
      ensures out == if env.applyFails then Refused(RestoreFailed) else Restored(old(Read(store.refs, s)[0]))
      ensures out.Refused? ==> store.refs == old(store.refs) && tree == old(tree)
      ensures out.Restored? ==>
        && tree == ApplyTree(cfg.git, old(Read(store.refs, s)[0]).tree, old(tree))
        && Read(store.refs, s) == old(Read(store.refs, s))[1..]
        && Saved(store.refs, old(store.refs), Other(s), saved)
      ensures Secure(old(store.refs)) ==> Secure(store.refs) && store.loose == old(store.loose)
      ensures old(stops) <= stops && (out.Refused? ==> AllTree(stops, |old(stops)|, old(tree)))
      ensures out.Restored? && saved.Some? ==>
        Exposed(stops, |old(stops)|, old(tree), tree, saved.value, Popped(old(store.refs), s))
    {
      ghost var refs, s0, was := store.refs, stops, tree;
      var target := Pop(s);
      ghost var s1 := stops;
      var ok := Overwrite(Other(s), target, saved, env);
      if !ok {
        PutBack(refs, s, target);
        TreeOn(s0, s1, stops, was);
        return Refused(RestoreFailed);
      }
      if saved.Some? {
        ExposedLater(s0, s1, stops, was, tree, saved.value, Popped(refs, s));
      }
      out := Restored(target);
    }

    /** Stack `s` after `saved` has been saved on it. */
    ghost predicate Saved(refs: Refs<Commit>, before: Refs<Commit>, s: Stack, saved: Option<Commit>) {
      match saved
      case None => Read(refs, s) == Read(before, s) && Pins(refs) == Pins(before)
      case Some(c) =>
        Read(refs, s) == Pushed(cfg, c, Read(before, s), Behind(before, s)) && Pins(refs) == Pins(before) + {c}
    }

    /** From any refs; where the overwritten tree is exposed, see `Exchange`. */
    method Undo(caller: Option<string>, expected: Option<Commit>, expectedTree: Option<Tree>, env: Env)
      returns (out: Outcome)
      modifies this, store
      ensures old(Valid()) ==> Valid()
      ensures (View(), out) ==
        UndoStep(cfg, old(View()), caller, expected, expectedTree, env, old(Behind(store.refs, Stack.Redo)))
      ensures out.Refused? ==> store.refs == old(store.refs) && tree == old(tree)
      ensures Secure(old(store.refs)) ==> Secure(store.refs) && store.loose == old(store.loose)
      ensures out.Restored? ==>
        var saved := RedoPoint(cfg, old(tree), caller, env);
        saved.Ok? && (saved.value.Some? ==>
          Exposed(stops, |old(stops)|, old(tree), tree, saved.value.value, Popped(old(store.refs), Stack.Undo)))
      ensures old(stops) <= stops && (out.Refused? ==> AllTree(stops, |old(stops)|, old(tree)))
    {
      if !cfg.enabled { return Refused(Disabled); }
      if !cfg.isRepo { return Refused(NotARepository); }
      var entries := store.StackRead(Stack.Undo);
      if entries == [] { return Refused(StackEmpty); }
      if expected.Some? && entries[0] != expected.value { return Refused(CheckpointChanged); }
      if Foreign(entries[0], caller) { return Refused(ForeignOwner); }
      var point := RedoPoint(cfg, tree, caller, env);
      if point.Err? { return Refused(point.error); }
      var saved := point.value;
      if expectedTree.Some? && (saved.None? || saved.value.tree != expectedTree.value) { return Refused(TreeChanged); }
      out := Exchange(Stack.Undo, saved, env);
    }

    /** From any refs; where the overwritten tree is exposed, see `Exchange`. */
    method Redo(caller: Option<string>, env: Env) returns (out: Outcome)
      modifies this, store
      ensures old(Valid()) ==> Valid()
      ensures (View(), out) == RedoStep(cfg, old(View()), caller, env, old(Behind(store.refs, Stack.Undo)))
      ensures out.Refused? ==> store.refs == old(store.refs) && tree == old(tree)
      ensures Secure(old(store.refs)) ==> Secure(store.refs) && store.loose == old(store.loose)
      ensures out.Restored? ==>
        var saved := BuildSnapshot(cfg, old(tree), "pre-redo", TagFor(caller, Some(0)), env);
        saved.Ok? && Exposed(stops, |old(stops)|, old(tree), tree, saved.value, Popped(old(store.refs), Stack.Redo))
      ensures old(stops) <= stops && (out.Refused? ==> AllTree(stops, |old(stops)|, old(tree)))
    {
      if !cfg.enabled { return Refused(Disabled); }
      if !cfg.isRepo { return Refused(NotARepository); }
      var entries := store.StackRead(Stack.Redo);
      if entries == [] { return Refused(StackEmpty); }
      if Foreign(entries[0], caller) { return Refused(ForeignOwner); }
      var saved := BuildSnapshot(cfg, tree, "pre-redo", TagFor(caller, Some(0)), env);
      if saved.Err? { return Refused(NotSaved); }
      out := Exchange(Stack.Redo, Some(saved.value), env);
    }

    /** From any refs; the overwritten tree is exposed until it is pinned, with no ref written yet. */
    method RestoreTo(target: Commit, env: Env) returns (out: Outcome)
      modifies this, store
      ensures old(Valid()) ==> Valid()
      ensures (View(), out) == RestoreStep(cfg, old(View()), target, env, old(Behind(store.refs, Stack.Undo)))
      ensures out.Refused? ==> store.refs == old(store.refs) && tree == old(tree) && stops == old(stops)
      ensures Secure(old(store.refs)) ==> Secure(store.refs) && store.loose == old(store.loose)
      ensures old(stops) <= stops
      ensures
        var saved := BuildSnapshot(cfg, old(tree), "pre-rewind", None, env);
        out.Restored? && saved.Ok? ==>
          Exposed(stops, |old(stops)|, old(tree), tree, saved.value, old(store.refs))
    {
      if !cfg.enabled { return Refused(Disabled); }
      if !cfg.isRepo { return Refused(NotARepository); }
      var saved := BuildSnapshot(cfg, tree, "pre-rewind", None, env);
      var point := if saved.Ok? then Some(saved.value) else None;
      ghost var s0, was, refs := stops, tree, store.refs;
      var ok := Overwrite(Stack.Undo, target, point, env);
      if !ok { return Refused(RestoreFailed); }
      ghost var s1 := stops;
      ClearRedo(point);
      if point.Some? {
        ExposedEarlier(s1, stops, |s0|, was, tree, point.value, refs);
      }
      out := Restored(target);
    }

    method ClearRedo(ghost c: Option<Commit>)
      modifies store, `stops
      ensures old(Valid()) ==> Valid()
      ensures Read(store.refs, Stack.Redo) == [] && Read(store.refs, Stack.Undo) == old(Read(store.refs, Stack.Undo))
      ensures Pins(store.refs) == old(Pins(store.refs))
      ensures Secure(old(store.refs)) ==> Secure(store.refs) && store.loose == old(store.loose)
      ensures old(stops) <= stops
      ensures c.Some? && Snap(c.value) in old(store.refs) ==> Snap(c.value) in store.refs && AllPin(stops, |old(stops)|, c.value)
    {
      ghost var before, n := store.refs, |store.trail|;
      DropRunRefines(before, Stack.Redo, 0);
      store.StackClear(Stack.Redo);
      StackFrame(before, store.refs, Stack.Redo, Stack.Undo);
      forall t | n <= t < |store.trail| ensures c.Some? && Snap(c.value) in before ==> Snap(c.value) in store.trail[t] {
        StopsKeepPins(before, store.trail[t], Stack.Redo, 0);
      }
      ghost var m := |stops|;
      Note(n);
      if c.Some? && Snap(c.value) in before {
        PinsAre(stops, m, c.value);
      }
    }

    method Prepare(text: string, thread: Option<string>, turn: Option<nat>, env: Env)
      returns (r: Result<Commit, Refusal>)
      ensures r == PrepareStep(cfg, View(), text, thread, turn, env)
    {
      if !cfg.enabled { return Err(Disabled); }
      if !cfg.isRepo { return Err(NotARepository); }
      var built := BuildSnapshot(cfg, tree, text, TagFor(thread, turn), env);
      if built.Err? { return Err(NotSaved); }
      var entries := store.StackRead(Stack.Undo);
      if entries != [] && entries[0].tree == built.value.tree { return Err(AlreadySaved); }
      r := Ok(built.value);
    }

    /** From any refs, in the order of the source: pin, push, clear the redo stack, and prune last. */
    method Store(c: Commit)
      modifies store, `stops
      ensures old(Valid()) ==> Valid()
      ensures View() == StoreStep(cfg, old(View()), c, old(Behind(store.refs, Stack.Undo)))
      ensures Secure(old(store.refs)) ==> Secure(store.refs) && store.loose == old(store.loose)
    {
      ghost var entries, behind := Read(store.refs, Stack.Undo), Behind(store.refs, Stack.Undo);
      PushedIs(cfg, c, entries, behind);
      Pin(c);
      Push(Stack.Undo, c);
      ClearRedo(Some(c));
      Prune(Stack.Undo, c);
    }

    /** Both halves with nothing in between; other sessions may act where the lock is not held. */
    method Snapshot(text: string, thread: Option<string>, turn: Option<nat>, env: Env)
      returns (r: Result<Commit, Refusal>)
      modifies store, `stops
      ensures old(Valid()) ==> Valid()
      ensures r == PrepareStep(cfg, old(View()), text, thread, turn, env)
      ensures View() ==
        if r.Ok? then StoreStep(cfg, old(View()), r.value, old(Behind(store.refs, Stack.Undo))) else old(View())
      ensures Secure(old(store.refs)) ==> Secure(store.refs) && store.loose == old(store.loose)
    {
      r := Prepare(text, thread, turn, env);
      if r.Ok? {
        Store(r.value);
      }
    }

    method PreviewUndo(caller: Option<string>, env: Env) returns (r: Result<Preview, Refusal>)
      ensures r == PreviewStep(cfg, View(), caller, env)
    {
      if !cfg.enabled { return Err(Disabled); }
      if !cfg.isRepo { return Err(NotARepository); }
      var entries := store.StackRead(Stack.Undo);
      if entries == [] { return Err(StackEmpty); }
      if Foreign(entries[0], caller) { return Err(ForeignOwner); }
      var current := BuildSnapshot(cfg, tree, "restore preview", None, env);
      if current.Err? { return Err(NotSaved); }
      r := Ok(Preview(entries[0], current.value.tree));
    }
  }
}
