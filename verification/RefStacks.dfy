/**
 * The undo and redo stacks of `src/jarn/agent/checkpoint.py`, kept as numbered refs in one flat
 * ref namespace and changed one ref at a time. `RefStore` keeps a trail of the ref maps it
 * has gone through, so that a contract can speak of every point at which an operation may stop.
 */
module RefStacks {
  import opened Prelude

  datatype Stack = Undo | Redo

  datatype Ref<C> = Slot(stack: Stack, index: nat) | Snap(commit: C)

  type Refs<C(==)> = map<Ref<C>, C>

  // ------------------------------------------------------------------------ reading a stack

  predicate Within<C(==,!new)>(r: Ref<C>, s: Stack, lo: nat, hi: nat) {
    r.Slot? && r.stack == s && lo <= r.index < hi
  }

  function Slots<C(==,!new)>(s: Stack, lo: nat, hi: nat): (rs: set<Ref<C>>)
    ensures forall r :: r in rs <==> Within(r, s, lo, hi)
  {
    if lo < hi then Slots(s, lo, hi - 1) + {Slot(s, hi - 1)} else {}
  }

  ghost function SlotsFrom<C(!new)>(refs: Refs<C>, s: Stack, i: nat): set<Ref<C>> {
    set r | r in refs && r.Slot? && r.stack == s && r.index >= i
  }

  function ReadFrom<C(==,!new)>(refs: Refs<C>, s: Stack, i: nat): (entries: seq<C>)
    ensures forall j :: i <= j < i + |entries| ==> Slot(s, j) in refs && refs[Slot(s, j)] == entries[j - i]
    ensures Slot(s, i + |entries|) !in refs
    decreases SlotsFrom(refs, s, i)
  {
    if Slot(s, i) in refs then
      assert Slot(s, i) in SlotsFrom(refs, s, i);
      [refs[Slot(s, i)]] + ReadFrom(refs, s, i + 1)
    else []
  }

  /** The stack as a sequence, top first: it ends at the first missing ref. */
  function Read<C(==,!new)>(refs: Refs<C>, s: Stack): seq<C> {
    ReadFrom(refs, s, 0)
  }

  lemma ReadIs<C(!new)>(refs: Refs<C>, s: Stack, i: nat, xs: seq<C>)
    requires forall j :: i <= j < i + |xs| ==> Slot(s, j) in refs && refs[Slot(s, j)] == xs[j - i]
    requires Slot(s, i + |xs|) !in refs
    ensures ReadFrom(refs, s, i) == xs
  {
    var r := ReadFrom(refs, s, i);
    assert |r| == |xs|;
    forall k | 0 <= k < |xs| ensures r[k] == xs[k] {
      assert Slot(s, i + k) in refs;
    }
  }

  /** No ref of the stack lies beyond its first gap. */
  ghost predicate Contiguous<C(!new)>(refs: Refs<C>, s: Stack) {
    forall r :: r in refs && r.Slot? && r.stack == s ==> r.index < |Read(refs, s)|
  }

  /** The entries that stand right behind the first gap of the stack. */
  function Behind<C(==,!new)>(refs: Refs<C>, s: Stack): seq<C> {
    ReadFrom(refs, s, |Read(refs, s)| + 1)
  }

  lemma NothingBehind<C(!new)>(refs: Refs<C>, s: Stack)
    requires Contiguous(refs, s)
    ensures Behind(refs, s) == []
  {
    ReadIs(refs, s, |Read(refs, s)| + 1, []);
  }

  /** The refs with the first `n` slots of stack `s` set to those of `xs`. */
  function LayFirst<C(==,!new)>(refs: Refs<C>, s: Stack, xs: seq<C>, n: nat): (l: Refs<C>)
    requires n <= |xs|
    ensures forall r :: r in l <==> r in refs || Within(r, s, 0, n)
    ensures forall r :: r in l ==> l[r] == if Within(r, s, 0, n) then xs[r.index] else refs[r]
  {
    if n == 0 then refs else LayFirst(refs, s, xs, n - 1)[Slot(s, n - 1) := xs[n - 1]]
  }

  /** The refs with slots `0 .. |xs|` of stack `s` set to `xs`. */
  function Lay<C(==,!new)>(refs: Refs<C>, s: Stack, xs: seq<C>): Refs<C> {
    LayFirst(refs, s, xs, |xs|)
  }

  /** The refs without the run of slots that starts at `i`. */
  function DropRun<C(==,!new)>(refs: Refs<C>, s: Stack, i: nat): (r: Refs<C>) {
    refs - Slots(s, i, i + |ReadFrom(refs, s, i)|)
  }

  /** The refs without the top of stack `s`, every other entry one slot up. */
  function Popped<C(==,!new)>(refs: Refs<C>, s: Stack): (r: Refs<C>)
    requires Read(refs, s) != []
  {
    var entries := Read(refs, s);
    Lay(refs, s, entries[1..]) - {Slot(s, |entries| - 1)}
  }

  // ------------------------------------------------------------------ between two ref writes

  /** A push has moved the entries from slot `i` on one slot deeper and has not written the top. */
  ghost predicate Shifted<C(!new)>(refs: Refs<C>, r: Refs<C>, s: Stack, i: nat) {
    var entries := Read(refs, s);
    && i <= |entries|
    && (forall x :: x in r <==> x in refs || (i < |entries| && x == Slot(s, |entries|)))
    && (forall x :: x in r ==> r[x] == if Within(x, s, i + 1, |entries| + 1) then entries[x.index - 1] else refs[x])
  }

  /** A pop has deleted slot `j` after moving the `j` entries below the top up. */
  ghost predicate Gap<C(!new)>(refs: Refs<C>, r: Refs<C>, s: Stack, j: nat) {
    var entries := Read(refs, s);
    && j < |entries|
    && (forall x :: x in r <==> x in refs && x != Slot(s, j))
    && (forall x :: x in r ==> r[x] == if Within(x, s, 0, j) then entries[x.index + 1] else refs[x])
  }

  /** A pop has moved `j` entries up and still has to delete slot `j`. */
  ghost predicate Moved<C(!new)>(refs: Refs<C>, r: Refs<C>, s: Stack, j: nat) {
    var entries := Read(refs, s);
    && 1 <= j < |entries|
    && (forall x :: x in r <==> x in refs)
    && (forall x :: x in r ==> r[x] == if Within(x, s, 0, j) then entries[x.index + 1] else refs[x])
  }

  /** A clear (`i == 0`) or a prune has deleted `k` entries of the run that starts at slot `i`. */
  ghost predicate Cleared<C(!new)>(refs: Refs<C>, r: Refs<C>, s: Stack, i: nat, k: nat) {
    0 < k <= |ReadFrom(refs, s, i)| && r == refs - Slots(s, i, i + k)
  }

  ghost predicate StoppedClear<C(!new)>(refs: Refs<C>, r: Refs<C>, s: Stack, i: nat) {
    exists k :: Cleared(refs, r, s, i, k)
  }

  ghost predicate StoppedPush<C(!new)>(refs: Refs<C>, r: Refs<C>, s: Stack) {
    exists i :: Shifted(refs, r, s, i)
  }

  ghost predicate StoppedPop<C(!new)>(refs: Refs<C>, r: Refs<C>, s: Stack) {
    exists j :: Gap(refs, r, s, j) || Moved(refs, r, s, j)
  }

  /** The ref maps `rs` after each write of a pop, up to the end of round `j`. */
  ghost predicate Popping<C(!new)>(refs: Refs<C>, rs: seq<Refs<C>>, s: Stack, j: nat) {
    if j == 0 then rs == [refs - {Slot(s, 0)}]
    else
      var n := |rs|;
      && n >= 3 && Popping(refs, rs[..n - 2], s, j - 1)
      && Slot(s, j) in rs[n - 3] && rs[n - 2] == rs[n - 3][Slot(s, j - 1) := rs[n - 3][Slot(s, j)]]
      && rs[n - 1] == rs[n - 2] - {Slot(s, j)}
  }

  lemma PoppingOn<C(!new)>(refs: Refs<C>, rs: seq<Refs<C>>, s: Stack, j: nat, r: Refs<C>, moved: Refs<C>, next: Refs<C>)
    requires Popping(refs, rs, s, j) && rs != [] && r == rs[|rs| - 1] && Slot(s, j + 1) in r
    requires moved == r[Slot(s, j) := r[Slot(s, j + 1)]] && next == moved - {Slot(s, j + 1)}
    ensures Popping(refs, rs + [moved, next], s, j + 1)
  {
    assert (rs + [moved, next])[..|rs|] == rs;
  }

  lemma {:induction false} PoppingGap<C(!new)>(refs: Refs<C>, rs: seq<Refs<C>>, s: Stack, j: nat)
    requires j < |Read(refs, s)| && Popping(refs, rs, s, j)
    ensures rs != [] && Gap(refs, rs[|rs| - 1], s, j)
  {
    if j > 0 {
      PoppingGap(refs, rs[..|rs| - 2], s, j - 1);
    }
  }

  lemma PoppingNext<C(!new)>(refs: Refs<C>, rs: seq<Refs<C>>, s: Stack, j: nat)
    requires j + 1 < |Read(refs, s)| && Popping(refs, rs, s, j)
    ensures rs != [] && Slot(s, j + 1) in rs[|rs| - 1]
  {
    PoppingGap(refs, rs, s, j);
  }

  /** Wherever a pop stops, it has left a gap or one entry twice. */
  lemma {:induction false} PoppingStops<C(!new)>(refs: Refs<C>, rs: seq<Refs<C>>, s: Stack, j: nat, t: nat)
    requires j < |Read(refs, s)| && Popping(refs, rs, s, j) && t < |rs|
    ensures StoppedPop(refs, rs[t], s)
  {
    PoppingGap(refs, rs, s, j);
    if j > 0 {
      var before := rs[..|rs| - 2];
      if t < |before| {
        PoppingStops(refs, before, s, j - 1, t);
      } else {
        PoppingGap(refs, before, s, j - 1);
        assert Moved(refs, rs[|rs| - 2], s, j);
      }
    }
  }

  lemma PoppingEnds<C(!new)>(refs: Refs<C>, rs: seq<Refs<C>>, s: Stack)
    requires Read(refs, s) != [] && Popping(refs, rs, s, |Read(refs, s)| - 1)
    ensures rs != [] && rs[|rs| - 1] == Popped(refs, s)
  {
    PoppingGap(refs, rs, s, |Read(refs, s)| - 1);
    PopEnds(refs, rs[|rs| - 1], s);
  }

  lemma PopEnds<C(!new)>(refs: Refs<C>, r: Refs<C>, s: Stack)
    requires Read(refs, s) != [] && Gap(refs, r, s, |Read(refs, s)| - 1)
    ensures r == Popped(refs, s)
  {
  }

  /** What is pinned in `a` is pinned in `b`. */
  ghost predicate PinsKept<C(!new)>(a: Refs<C>, b: Refs<C>) {
    forall r :: r in a && r.Snap? ==> r in b
  }

  lemma StopsKeepPins<C(!new)>(refs: Refs<C>, r: Refs<C>, s: Stack, limit: nat)
    requires StoppedPush(refs, r, s) || StoppedClear(refs, r, s, limit)
    ensures PinsKept(refs, r)
  {
    if StoppedPush(refs, r, s) {
      var i :| Shifted(refs, r, s, i);
    } else {
      var k :| Cleared(refs, r, s, limit, k);
    }
  }

  /** Every entry of both stacks, readable or not, is pinned. */
  ghost predicate Secure<C(!new)>(refs: Refs<C>) {
    forall r :: r in refs && r.Slot? ==> Snap(refs[r]) in refs
  }

  // ------------------------------------------------------------------------------ the store

  class RefStore<C(==,!new)> {
    var refs: Refs<C>
    /** The ref map after each single write so far. */
    ghost var trail: seq<Refs<C>>
    /** How many writes have left an entry of a stack without its pin. */
    ghost var loose: nat

    constructor ()
      ensures refs == map[] && trail == [] && loose == 0
    {
      refs, trail, loose := map[], [], 0;
    }

    method UpdateRef(ref: Ref<C>, c: C)
      modifies this
      ensures refs == old(refs)[ref := c] && trail == old(trail) + [refs]
      ensures loose == old(loose) + if Secure(refs) then 0 else 1
    {
      refs := refs[ref := c];
      trail, loose := trail + [refs], loose + if Secure(refs) then 0 else 1;
    }

    method DeleteRef(ref: Ref<C>)
      modifies this
      ensures refs == old(refs) - {ref} && trail == old(trail) + [refs]
      ensures loose == old(loose) + if Secure(refs) then 0 else 1
    {
      refs := refs - {ref};
      trail, loose := trail + [refs], loose + if Secure(refs) then 0 else 1;
    }

    method StackRead(s: Stack) returns (entries: seq<C>)
      ensures entries == Read(refs, s)
    {
      entries := [];
      var i := 0;
      while Slot(s, i) in refs
        invariant i == |entries|
        invariant forall k :: 0 <= k < i ==> Slot(s, k) in refs && refs[Slot(s, k)] == entries[k]
        decreases SlotsFrom(refs, s, i)
      {
        assert Slot(s, i) in SlotsFrom(refs, s, i);
        entries := entries + [refs[Slot(s, i)]];
        i := i + 1;
      }
      ReadIs(refs, s, 0, entries);
    }

    /** Prepend `c`, whatever lies beyond the first gap of the stack. */
    method StackPush(s: Stack, c: C)
      modifies this
      ensures refs == Lay(old(refs), s, [c] + Read(old(refs), s))
      ensures old(trail) < trail && trail[|trail| - 1] == refs
      ensures forall t :: |old(trail)| <= t < |trail| - 1 ==> StoppedPush(old(refs), trail[t], s)
      ensures Secure(old(refs)) && Snap(c) in old(refs) ==> Secure(refs) && loose == old(loose)
    {
      ghost var safe := Secure(refs) && Snap(c) in refs;
      var entries := StackRead(s);
      var i := |entries|;
      while i > 0
        invariant 0 <= i <= |entries|
        invariant Shifted(old(refs), refs, s, i)
        invariant safe ==> Secure(refs) && Snap(c) in refs && loose == old(loose)
        invariant old(trail) <= trail
        invariant forall t :: |old(trail)| <= t < |trail| ==> StoppedPush(old(refs), trail[t], s)
      {
        i := i - 1;
        if Slot(s, i) in refs {
          UpdateRef(Slot(s, i + 1), refs[Slot(s, i)]);
        }
        assert Shifted(old(refs), refs, s, i);
        assert StoppedPush(old(refs), refs, s);
      }
      UpdateRef(Slot(s, 0), c);
    }

    /** Remove the top and return it; an empty stack is left alone. */
    method StackPop(s: Stack) returns (top: Option<C>)
      modifies this
      ensures Read(old(refs), s) == [] ==> top == None && refs == old(refs) && trail == old(trail)
      ensures Read(old(refs), s) != [] ==> top == Some(Read(old(refs), s)[0]) && refs == Popped(old(refs), s)
      ensures Read(old(refs), s) != [] ==>
        old(trail) < trail && Popping(old(refs), trail[|old(trail)|..], s, |Read(old(refs), s)| - 1)
      ensures Secure(old(refs)) ==> Secure(refs) && loose == old(loose)
    {
      var entries := StackRead(s);
      if entries == [] {
        return None;
      }
      ghost var before, was := trail, refs;
      DeleteRef(Slot(s, 0));
      ghost var rs := [refs];
      var i := 1;
      while i < |entries|
        invariant 1 <= i <= |entries|
        invariant rs != [] && rs[|rs| - 1] == refs && trail == before + rs
        invariant Popping(was, rs, s, i - 1)
        invariant Secure(was) ==> Secure(refs) && loose == old(loose)
      {
        ghost var r := refs;
        PoppingNext(was, rs, s, i - 1);
        if Slot(s, i) in refs {
          UpdateRef(Slot(s, i - 1), refs[Slot(s, i)]);
        }
        ghost var moved := refs;
        DeleteRef(Slot(s, i));
        PoppingOn(was, rs, s, i - 1, r, moved, refs);
        rs := rs + [moved, refs];
        i := i + 1;
      }
      PoppingEnds(was, rs, s);
      assert trail[|before|..] == rs;
      top := Some(entries[0]);
    }

    /** Remove the entries one by one, top first. */
    method StackClear(s: Stack)
      modifies this
      ensures refs == DropRun(old(refs), s, 0)
      ensures old(trail) <= trail
      ensures forall t :: |old(trail)| <= t < |trail| ==> StoppedClear(old(refs), trail[t], s, 0)
      ensures Secure(old(refs)) ==> Secure(refs) && loose == old(loose)
    {
      PruneStack(s, 0);
    }

    /** Remove the run of entries from slot `limit` on. */
    method PruneStack(s: Stack, limit: nat)
      modifies this
      ensures refs == DropRun(old(refs), s, limit)
      ensures old(trail) <= trail
      ensures forall t :: |old(trail)| <= t < |trail| ==> StoppedClear(old(refs), trail[t], s, limit)
      ensures Secure(old(refs)) ==> Secure(refs) && loose == old(loose)
    {
      ghost var n := |ReadFrom(refs, s, limit)|;
      var i := limit;
      while Slot(s, i) in refs
        invariant limit <= i <= limit + n
        invariant i > limit ==> Cleared(old(refs), refs, s, limit, i - limit)
        invariant refs == old(refs) - Slots(s, limit, i)
        invariant forall j :: i <= j < limit + n ==> Slot(s, j) in refs
        invariant Secure(old(refs)) ==> Secure(refs) && loose == old(loose)
        invariant old(trail) <= trail
        invariant forall t :: |old(trail)| <= t < |trail| ==> StoppedClear(old(refs), trail[t], s, limit)
        decreases limit + n - i
      {
        DeleteRef(Slot(s, i));
        i := i + 1;
        assert Cleared(old(refs), refs, s, limit, i - limit);
      }
    }
  }

  // ------------------------------------------------------- the loops refine sequence operations

  /** Everything outside the slots of stack `s` is the same in both. */
  ghost predicate SameElsewhere<C(!new)>(a: Refs<C>, b: Refs<C>, s: Stack) {
    forall r: Ref<C> :: !(r.Slot? && r.stack == s) ==> (r in a <==> r in b) && (r in a ==> a[r] == b[r])
  }

  lemma SameElsewhereReads<C(!new)>(a: Refs<C>, b: Refs<C>, s: Stack, t: Stack)
    requires SameElsewhere(a, b, s) && s != t
    ensures Read(a, t) == Read(b, t) && Behind(a, t) == Behind(b, t) && (Contiguous(a, t) <==> Contiguous(b, t))
  {
    SameRun(a, b, s, t, 0);
    SameRun(a, b, s, t, |Read(a, t)| + 1);
  }

  lemma SameRun<C(!new)>(a: Refs<C>, b: Refs<C>, s: Stack, t: Stack, i: nat)
    requires SameElsewhere(a, b, s) && s != t
    ensures ReadFrom(a, t, i) == ReadFrom(b, t, i)
  {
    ReadIs(b, t, i, ReadFrom(a, t, i));
  }

  /** The refs `r` hold `xs` in the slots of `s`, nothing beyond, and `refs` everywhere else. */
  ghost predicate Holds<C(!new)>(refs: Refs<C>, r: Refs<C>, s: Stack, xs: seq<C>) {
    && (forall x :: x in r <==> if x.Slot? && x.stack == s then x.index < |xs| else x in refs)
    && (forall x :: x in r ==> r[x] == if x.Slot? && x.stack == s then xs[x.index] else refs[x])
  }

  lemma HoldsReads<C(!new)>(refs: Refs<C>, r: Refs<C>, s: Stack, xs: seq<C>)
    requires Holds(refs, r, s, xs)
    ensures Read(r, s) == xs && Contiguous(r, s) && SameElsewhere(refs, r, s)
  {
    ReadIs(r, s, 0, xs);
  }

  /** On any refs a push is cons, and what stood right behind the first gap is read again. */
  lemma PushReads<C(!new)>(refs: Refs<C>, s: Stack, c: C)
    ensures
      var r := Lay(refs, s, [c] + Read(refs, s));
      && Read(r, s) == [c] + Read(refs, s) + Behind(refs, s) && SameElsewhere(refs, r, s)
      && (Contiguous(refs, s) ==> Contiguous(r, s))
  {
    ReadIs(Lay(refs, s, [c] + Read(refs, s)), s, 0, [c] + Read(refs, s) + Behind(refs, s));
  }

  lemma PushRefines<C(!new)>(refs: Refs<C>, s: Stack, c: C)
    requires Contiguous(refs, s)
    ensures
      var r := Lay(refs, s, [c] + Read(refs, s));
      Read(r, s) == [c] + Read(refs, s) && Contiguous(r, s) && SameElsewhere(refs, r, s)
  {
    PushReads(refs, s, c);
    NothingBehind(refs, s);
    assert [c] + Read(refs, s) + [] == [c] + Read(refs, s);
  }

  /** On any refs a pop is tail. */
  lemma PopRefines<C(!new)>(refs: Refs<C>, s: Stack)
    requires Read(refs, s) != []
    ensures
      var r := Popped(refs, s);
      && Read(r, s) == Read(refs, s)[1..] && SameElsewhere(refs, r, s)
      && (Contiguous(refs, s) ==> Contiguous(r, s))
  {
    ReadIs(Popped(refs, s), s, 0, Read(refs, s)[1..]);
  }

  /** On any refs clearing (`limit == 0`) and pruning keep the newest `limit` entries. */
  lemma DropRunRefines<C(!new)>(refs: Refs<C>, s: Stack, limit: nat)
    ensures
      var r := DropRun(refs, s, limit);
      && Read(r, s) == Take(Read(refs, s), limit) && SameElsewhere(refs, r, s)
      && (Contiguous(refs, s) ==> Contiguous(r, s))
  {
    var entries := Read(refs, s);
    var r := DropRun(refs, s, limit);
    if |entries| <= limit {
      ReadIs(r, s, 0, entries);
      assert Contiguous(refs, s) ==> Slot(s, limit) !in refs && r == refs;
    } else {
      ReadIs(refs, s, limit, entries[limit..]);
      ReadIs(r, s, 0, entries[..limit]);
    }
  }

  /** What a failed restore relies on: pushing back what was popped restores the whole ref map. */
  lemma PopThenPush<C(!new)>(refs: Refs<C>, s: Stack)
    requires Read(refs, s) != []
    ensures Lay(Popped(refs, s), s, [Read(refs, s)[0]] + Read(Popped(refs, s), s)) == refs
  {
    ReadIs(Popped(refs, s), s, 0, Read(refs, s)[1..]);
  }

  // ---------------------------------------------------------------------------- crash points

  /** `xs` with the entry at `j` once more, right after itself. */
  function Doubled<C>(xs: seq<C>, j: nat): (r: seq<C>)
    requires j < |xs|
    ensures |r| == |xs| + 1
    ensures forall i :: 0 <= i < |r| ==> r[i] == if i <= j then xs[i] else xs[i - 1]
  {
    xs[..j + 1] + xs[j..]
  }

  /** A push stopped before its last write reads as the old stack or as the old stack with a double. */
  lemma PushCrash<C(!new)>(refs: Refs<C>, crashed: Refs<C>, s: Stack, i: nat)
    requires Contiguous(refs, s) && Shifted(refs, crashed, s, i)
    ensures Read(crashed, s) == if i == |Read(refs, s)| then Read(refs, s) else Doubled(Read(refs, s), i)
    ensures Contiguous(crashed, s) && SameElsewhere(refs, crashed, s)
  {
    HoldsReads(refs, crashed, s, if i == |Read(refs, s)| then Read(refs, s) else Doubled(Read(refs, s), i));
  }

  /** A pop stopped at a gap reads as a prefix of the tail; one later push brings the whole tail back. */
  lemma PopGapCrash<C(!new)>(refs: Refs<C>, crashed: Refs<C>, s: Stack, j: nat, y: C)
    requires Contiguous(refs, s) && Gap(refs, crashed, s, j)
    ensures
      var tail := Read(refs, s)[1..];
      var healed := Lay(crashed, s, [y] + Read(crashed, s));
      && Read(crashed, s) == tail[..j] && SameElsewhere(refs, crashed, s)
      && Read(healed, s) == [y] + tail && Contiguous(healed, s)
  {
    var tail := Read(refs, s)[1..];
    ReadIs(crashed, s, 0, tail[..j]);
    HoldsReads(refs, Lay(crashed, s, [y] + tail[..j]), s, [y] + tail);
  }

  /** What a stopped operation has left behind the gap: the next push makes it readable. */
  lemma BehindGap<C(!new)>(refs: Refs<C>, crashed: Refs<C>, s: Stack, j: nat)
    requires Contiguous(refs, s) && Gap(refs, crashed, s, j)
    ensures Read(crashed, s) == Read(refs, s)[1..j + 1] && Behind(crashed, s) == Read(refs, s)[j + 1..]
  {
    var entries := Read(refs, s);
    var before, after := entries[1..j + 1], entries[j + 1..];
    assert forall k :: 0 <= k < j ==> before[k] == entries[k + 1];
    ReadIs(crashed, s, 0, before);
    RunAfterGap(refs, crashed, s, j, after);
  }

  lemma RunAfterGap<C(!new)>(refs: Refs<C>, crashed: Refs<C>, s: Stack, j: nat, after: seq<C>)
    requires Gap(refs, crashed, s, j) && after == Read(refs, s)[j + 1..]
    ensures ReadFrom(crashed, s, j + 1) == after
  {
    assert forall k :: j + 1 <= k < j + 1 + |after| ==> after[k - j - 1] == Read(refs, s)[k];
    ReadIs(crashed, s, j + 1, after);
  }

  lemma BehindStoppedClear<C(!new)>(refs: Refs<C>, s: Stack, k: nat)
    requires Contiguous(refs, s) && 0 < k <= |Read(refs, s)|
    ensures
      var crashed := refs - Slots(s, 0, k);
      Read(crashed, s) == [] && Behind(crashed, s) == if k == 1 then Read(refs, s)[1..] else []
  {
    var crashed := refs - Slots(s, 0, k);
    ReadIs(crashed, s, 0, []);
    ReadIs(crashed, s, 1, if k == 1 then Read(refs, s)[1..] else []);
  }

  /** A pop stopped between a move and its deletion reads as the tail with a double, and stays contiguous. */
  lemma PopMovedCrash<C(!new)>(refs: Refs<C>, crashed: Refs<C>, s: Stack, j: nat, y: C)
    requires Contiguous(refs, s) && Moved(refs, crashed, s, j)
    ensures
      var tail := Read(refs, s)[1..];
      var healed := Lay(crashed, s, [y] + Read(crashed, s));
      && Read(crashed, s) == Doubled(tail, j - 1) && Contiguous(crashed, s) && SameElsewhere(refs, crashed, s)
      && Read(healed, s) == [y] + Doubled(tail, j - 1) && Contiguous(healed, s)
  {
    HoldsReads(refs, crashed, s, Doubled(Read(refs, s)[1..], j - 1));
    PushRefines(crashed, s, y);
  }

  /** The stack after pushing `ys` one by one, first element first. */
  function PushAll<C(==,!new)>(refs: Refs<C>, s: Stack, ys: seq<C>): Refs<C> {
    if ys == [] then refs
    else
      var r := PushAll(refs, s, ys[..|ys| - 1]);
      Lay(r, s, [ys[|ys| - 1]] + Read(r, s))
  }

  function Reversed<C(==,!new)>(ys: seq<C>): (r: seq<C>)
    ensures |r| == |ys|
  {
    if ys == [] then [] else [ys[|ys| - 1]] + Reversed(ys[..|ys| - 1])
  }

  /** From slot `k` on stand exactly the entries `olds`. */
  ghost predicate Beyond<C(!new)>(r: Refs<C>, s: Stack, k: nat, olds: seq<C>) {
    && (forall i :: k <= i ==> (Slot(s, i) in r <==> i < k + |olds|))
    && (forall i :: k <= i < k + |olds| ==> r[Slot(s, i)] == olds[i - k])
  }

  /**
   * A clear of `refs` was stopped after `k` deletions and `xs`, newest first, was pushed since.
   * Below `k` pushes only those are read, and the old entries still stand from slot `k` on;
   * from then on the old entries are read below the new ones.
   */
  ghost predicate AfterStoppedClear<C(!new)>(refs: Refs<C>, r: Refs<C>, s: Stack, k: nat, xs: seq<C>)
    requires k <= |Read(refs, s)|
  {
    var olds := Read(refs, s)[k..];
    if |xs| < k then
      Read(r, s) == xs && (forall i :: |xs| <= i < k ==> Slot(s, i) !in r) && Beyond(r, s, k, olds)
    else
      Read(r, s) == xs + olds && Contiguous(r, s)
  }

  /** Laying entries up to slot `k` leaves what stands from there on. */
  lemma LayKeepsBeyond<C(!new)>(r: Refs<C>, s: Stack, xs: seq<C>, k: nat, olds: seq<C>)
    requires |xs| <= k && Beyond(r, s, k, olds)
    ensures Beyond(Lay(r, s, xs), s, k, olds)
  {
  }

  lemma LayShort<C(!new)>(r: Refs<C>, s: Stack, xs: seq<C>, k: nat)
    requires |xs| < k && forall i :: |xs| <= i < k ==> Slot(s, i) !in r
    ensures Read(Lay(r, s, xs), s) == xs && forall i :: |xs| <= i < k ==> Slot(s, i) !in Lay(r, s, xs)
  {
    assert Slot(s, |xs|) !in r;
    ReadIs(Lay(r, s, xs), s, 0, xs);
  }

  lemma LayFills<C(!new)>(r: Refs<C>, s: Stack, xs: seq<C>, olds: seq<C>)
    requires Beyond(r, s, |xs|, olds)
    ensures Read(Lay(r, s, xs), s) == xs + olds && Contiguous(Lay(r, s, xs), s)
  {
    assert Slot(s, |xs| + |olds|) !in r;
    ReadIs(Lay(r, s, xs), s, 0, xs + olds);
  }

  lemma PushAfterStoppedClear<C(!new)>(refs: Refs<C>, r: Refs<C>, s: Stack, k: nat, xs: seq<C>, y: C)
    requires k <= |Read(refs, s)| && AfterStoppedClear(refs, r, s, k, xs)
    ensures AfterStoppedClear(refs, Lay(r, s, [y] + Read(r, s)), s, k, [y] + xs)
  {
    var olds := Read(refs, s)[k..];
    if |xs| + 1 < k {
      LayShort(r, s, [y] + xs, k);
      LayKeepsBeyond(r, s, [y] + xs, k, olds);
    } else if |xs| < k {
      LayFills(r, s, [y] + xs, olds);
    } else {
      PushRefines(r, s, y);
      assert [y] + (xs + olds) == [y] + xs + olds;
    }
  }

  /**
   * A clear stopped after `k` of its deletions reads as empty, but the entries it did not reach
   * come back below the new ones as soon as `k` entries have been pushed, and not before.
   */
  lemma {:induction false} ClearCrash<C(!new)>(refs: Refs<C>, s: Stack, k: nat, ys: seq<C>)
    requires Contiguous(refs, s) && 0 < k <= |Read(refs, s)|
    ensures AfterStoppedClear(refs, PushAll(refs - Slots(s, 0, k), s, ys), s, k, Reversed(ys))
  {
    if ys == [] {
      ReadIs(refs - Slots(s, 0, k), s, 0, []);
    } else {
      var less := ys[..|ys| - 1];
      ClearCrash(refs, s, k, less);
      PushAfterStoppedClear(refs, PushAll(refs - Slots(s, 0, k), s, less), s, k, Reversed(less), ys[|ys| - 1]);
    }
  }

  /** One deletion of a clear and one push: an entry that should be gone is read again. */
  lemma ClearedEntryReturns()
    ensures
      var refs: Refs<int> := map[Slot(Redo, 0) := 1, Slot(Redo, 1) := 2];
      var stopped := refs - Slots(Redo, 0, 1);
      Read(refs, Redo) == [1, 2] && Read(stopped, Redo) == [] && Read(Lay(stopped, Redo, [3]), Redo) == [3, 2]
  {
    var refs: Refs<int> := map[Slot(Redo, 0) := 1, Slot(Redo, 1) := 2];
    var stopped := refs - Slots(Redo, 0, 1);
    ReadIs(refs, Redo, 0, [1, 2]);
    ReadIs(stopped, Redo, 0, []);
    ReadIs(Lay(stopped, Redo, [3]), Redo, 0, [3, 2]);
  }
}
