/**
 * The registry of background processes, `src/jarn/agent/background.py`: records are reaped and
 * retired under the registry lock by sweeps, starts and listings of any thread. What happens
 * under one hold of the lock is one step.
 */
module Background {
  import opened Prelude
  import opened Sorting

  const RETAIN_SECS := 300.0
  const RETAIN_MAX := 20

  type Id = nat

  /** A record; `finishedAt` is set when the job has been reaped. */
  datatype Proc = Proc(id: Id, finishedAt: Option<real>)

  // ----------------------------------------------------------------- what one prune computes

  predicate Due(p: Proc, exited: set<Id>) {
    p.finishedAt.None? && p.id in exited
  }

  function Reaped(procs: seq<Proc>, exited: set<Id>): (ids: seq<Id>) {
    if procs == [] then []
    else
      Reaped(procs[..|procs| - 1], exited) + if Due(procs[|procs| - 1], exited) then [procs[|procs| - 1].id] else []
  }

  function Marked(procs: seq<Proc>, exited: set<Id>, now: real): (r: seq<Proc>)
    ensures |r| == |procs|
    ensures forall i :: 0 <= i < |r| ==> r[i] == if Due(procs[i], exited) then Proc(procs[i].id, Some(now)) else procs[i]
  {
    seq(|procs|, i requires 0 <= i < |procs| => if Due(procs[i], exited) then Proc(procs[i].id, Some(now)) else procs[i])
  }

  function Select(procs: seq<Proc>, keep: Proc -> bool): (r: seq<Proc>) {
    if procs == [] then []
    else Select(procs[..|procs| - 1], keep) + if keep(procs[|procs| - 1]) then [procs[|procs| - 1]] else []
  }

  predicate IsFinished(p: Proc) {
    p.finishedAt.Some?
  }

  function Time(p: Proc): real {
    if p.finishedAt.Some? then p.finishedAt.value else 0.0
  }

  predicate EndedBefore(a: Proc, b: Proc) {
    Time(a) < Time(b)
  }

  /** The finished records, oldest first. */
  function Done(procs: seq<Proc>): (r: seq<Proc>) {
    Sort(Select(procs, IsFinished), EndedBefore)
  }

  function Excess(n: nat): nat {
    if n > RETAIN_MAX then n - RETAIN_MAX else 0
  }

  /** The ids that are too old, and those beyond the newest twenty. */
  function Retired(done: seq<Proc>, now: real): (ids: set<Id>) {
    (set p | p in done && now - Time(p) > RETAIN_SECS :: p.id) + (set p | p in done[..Excess(|done|)] :: p.id)
  }

  function Prune(procs: seq<Proc>, exited: set<Id>, now: real): seq<Proc> {
    var marked := Marked(procs, exited, now);
    var retired := Retired(Done(marked), now);
    Select(marked, (p: Proc) => p.id !in retired)
  }

  // ------------------------------------------------------------------------ facts about prune

  ghost predicate UniqueIds(procs: seq<Proc>) {
    forall i, j :: 0 <= i < j < |procs| ==> procs[i].id != procs[j].id
  }

  lemma {:induction false} SelectHas(procs: seq<Proc>, keep: Proc -> bool)
    ensures forall p :: p in Select(procs, keep) <==> p in procs && keep(p)
  {
    if procs != [] {
      var init, last := procs[..|procs| - 1], procs[|procs| - 1];
      SelectHas(init, keep);
      assert procs == init + [last];
      forall p ensures p in Select(procs, keep) <==> p in procs && keep(p) {
        assert p in procs <==> p in init || p == last;
      }
    }
  }

  lemma {:induction false} SelectUnique(procs: seq<Proc>, keep: Proc -> bool)
    requires UniqueIds(procs)
    ensures UniqueIds(Select(procs, keep))
  {
    if procs != [] {
      var init, last := procs[..|procs| - 1], procs[|procs| - 1];
      SelectUnique(init, keep);
      SelectHas(init, keep);
      var kept := Select(init, keep);
      forall i | 0 <= i < |kept| ensures kept[i].id != last.id {
        assert kept[i] in init;
      }
    }
  }

  lemma ByTime()
    ensures WeakOrder(EndedBefore)
  {
  }

  lemma DoneHas(procs: seq<Proc>)
    ensures forall p :: p in Done(procs) <==> p in procs && IsFinished(p)
    ensures WeaklySorted(Done(procs), EndedBefore)
    ensures |Done(procs)| == |Select(procs, IsFinished)|
  {
    SelectHas(procs, IsFinished);
    ByTime();
    SortWeakly(Select(procs, IsFinished), EndedBefore);
    assert |multiset(Done(procs))| == |multiset(Select(procs, IsFinished))|;
  }

  predicate Aged(p: Proc, now: real) {
    now - Time(p) > RETAIN_SECS
  }

  /** The first position from `k` on whose record is not too old. */
  function FirstKept(done: seq<Proc>, now: real, k: nat): (r: nat)
    requires k <= |done|
    ensures k <= r <= |done|
    ensures forall i :: k <= i < r ==> Aged(done[i], now)
    ensures r < |done| ==> !Aged(done[r], now)
    decreases |done| - k
  {
    if k < |done| && Aged(done[k], now) then FirstKept(done, now, k + 1) else k
  }

  /** Both rules retire a prefix of the finished records, oldest first. */
  lemma RetiredIsPrefix(done: seq<Proc>, now: real)
    requires UniqueIds(done) && WeaklySorted(done, EndedBefore)
    ensures
      var k := FirstKept(done, now, Excess(|done|));
      && |done| - k <= RETAIN_MAX
      && forall i :: 0 <= i < |done| ==> (done[i].id in Retired(done, now) <==> i < k)
  {
  }

  lemma MarkedUnique(procs: seq<Proc>, exited: set<Id>, now: real)
    requires UniqueIds(procs)
    ensures UniqueIds(Marked(procs, exited, now))
    ensures forall id :: Proc(id, None) in Marked(procs, exited, now) <==> Proc(id, None) in procs && id !in exited
  {
    var marked := Marked(procs, exited, now);
    forall i, j | 0 <= i < j < |marked| ensures marked[i].id != marked[j].id {
      assert procs[i].id != procs[j].id;
    }
    forall id ensures Proc(id, None) in marked <==> Proc(id, None) in procs && id !in exited {
      if Proc(id, None) in procs && id !in exited {
        var i :| 0 <= i < |procs| && procs[i] == Proc(id, None);
        assert marked[i] == procs[i];
      }
    }
  }

  lemma UniqueById(procs: seq<Proc>, a: Proc, b: Proc)
    requires UniqueIds(procs) && a in procs && b in procs && a.id == b.id
    ensures a == b
  {
    var i :| 0 <= i < |procs| && procs[i] == a;
    var j :| 0 <= j < |procs| && procs[j] == b;
    assert i == j;
  }

  lemma UniqueHaveNoDuplicates(procs: seq<Proc>)
    requires UniqueIds(procs)
    ensures NoDuplicates(procs)
  {
    forall i, j | 0 <= i < j < |procs| ensures procs[i] != procs[j] {
      assert procs[i].id != procs[j].id;
    }
  }

  lemma Twice<T(!new)>(xs: seq<T>, i: nat, j: nat)
    requires i < j < |xs| && xs[i] == xs[j]
    ensures multiset(xs)[xs[i]] >= 2
  {
    assert xs == xs[..j] + [xs[j]] + xs[j + 1..];
    assert xs[i] in xs[..j];
  }

  lemma DoneUnique(procs: seq<Proc>)
    requires UniqueIds(procs)
    ensures UniqueIds(Done(procs))
  {
    var some, done := Select(procs, IsFinished), Done(procs);
    SelectUnique(procs, IsFinished);
    UniqueHaveNoDuplicates(some);
    DoneHas(procs);
    SelectHas(procs, IsFinished);
    forall i, j | 0 <= i < j < |done| ensures done[i].id != done[j].id {
      if done[i].id == done[j].id {
        assert done[i] in done && done[j] in done;
        UniqueById(procs, done[i], done[j]);
        Twice(done, i, j);
        NoDuplicatesOnce(some, done[i]);
      }
    }
  }

  lemma {:induction false} NoDuplicatesOnce<T(!new)>(xs: seq<T>, x: T)
    requires NoDuplicates(xs)
    ensures multiset(xs)[x] == if x in xs then 1 else 0
  {
    if xs != [] {
      var init, last := xs[..|xs| - 1], xs[|xs| - 1];
      NoDuplicatesOnce(init, x);
      assert xs == init + [last];
      assert last !in init;
    }
  }

  /**
   * A prune drops no running job; of the finished ones, in the order in which they ended, it
   * keeps a most recent suffix of at most twenty.
   */
  lemma PruneKeepsRecent(procs: seq<Proc>, exited: set<Id>, now: real)
    requires UniqueIds(procs)
    ensures
      var marked, after := Marked(procs, exited, now), Prune(procs, exited, now);
      var done := Done(marked);
      var k := FirstKept(done, now, Excess(|done|));
      && UniqueIds(after)
      && (forall id :: Proc(id, None) in after <==> Proc(id, None) in procs && id !in exited)
      && (forall p :: IsFinished(p) ==> (p in after <==> p in done[k..]))
      && |Select(after, IsFinished)| <= RETAIN_MAX
  {
    var marked := Marked(procs, exited, now);
    var done := Done(marked);
    var retired := Retired(done, now);
    var keep := (p: Proc) => p.id !in retired;
    var after := Select(marked, keep);
    var k := FirstKept(done, now, Excess(|done|));
    MarkedUnique(procs, exited, now);
    DoneHas(marked);
    DoneUnique(marked);
    RetiredIsPrefix(done, now);
    SelectHas(marked, keep);
    SelectUnique(marked, keep);
    forall p | IsFinished(p) ensures p in after <==> p in done[k..] {
      KeptIffLate(marked, done, retired, k, p);
    }
    forall id | Proc(id, None) in marked ensures id !in retired {
      RunningIsKept(marked, done, now, id);
    }
    LateFit(after, done, k);
  }

  /**
   * Spelled out: with the finished records in the order in which they ended, a record survives a
   * prune exactly when it is one of the last twenty and ended at most 300 seconds ago; a job that
   * has exited is recorded as finished now.
   */
  lemma PruneKeeps(procs: seq<Proc>, exited: set<Id>, now: real)
    requires UniqueIds(procs)
    ensures
      var marked, after := Marked(procs, exited, now), Prune(procs, exited, now);
      var done := Done(marked);
      && (forall p :: p in done <==> p in marked && p.finishedAt.Some?)
      && (forall i, j :: 0 <= i < j < |done| ==> Ended(done[i]) <= Ended(done[j]))
      && (forall i :: 0 <= i < |done| ==> (done[i] in after <==> |done| - i <= 20 && now - Ended(done[i]) <= 300.0))
    ensures forall i :: 0 <= i < |procs| ==>
      (Marked(procs, exited, now)[i] ==
        if procs[i].finishedAt.None? && procs[i].id in exited then Proc(procs[i].id, Some(now)) else procs[i])
  {
    var marked, after := Marked(procs, exited, now), Prune(procs, exited, now);
    var done := Done(marked);
    var k := FirstKept(done, now, Excess(|done|));
    MarkedUnique(procs, exited, now);
    DoneHas(marked);
    DoneUnique(marked);
    PruneKeepsRecent(procs, exited, now);
    forall i, j | 0 <= i < j < |done| ensures Ended(done[i]) <= Ended(done[j]) {
      assert !EndedBefore(done[j], done[i]) && done[i] in done && done[j] in done;
    }
    forall i | 0 <= i < |done| ensures done[i] in after <==> |done| - i <= 20 && now - Ended(done[i]) <= 300.0 {
      KeptAt(done, now, k, i);
      assert done[i] in done;
      assert IsFinished(done[i]);
    }
  }

  /** When a finished record ended. */
  function Ended(p: Proc): real {
    match p.finishedAt
    case Some(time) => time
    case None => 0.0
  }

  lemma KeptAt(done: seq<Proc>, now: real, k: nat, i: nat)
    requires UniqueIds(done) && WeaklySorted(done, EndedBefore) && i < |done|
    requires k == FirstKept(done, now, Excess(|done|))
    ensures done[i] in done[k..] <==> |done| - i <= 20 && now - Ended(done[i]) <= 300.0
  {
    if i >= k {
      assert done[k..][i - k] == done[i];
      assert k < i ==> !EndedBefore(done[i], done[k]);
    } else {
      forall j | k <= j < |done| ensures done[j] != done[i] {
        assert done[i].id != done[j].id;
      }
    }
  }

  lemma KeptIffLate(marked: seq<Proc>, done: seq<Proc>, retired: set<Id>, k: nat, p: Proc)
    requires UniqueIds(done) && k <= |done| && IsFinished(p)
    requires forall q :: q in done <==> q in marked && IsFinished(q)
    requires forall i :: 0 <= i < |done| ==> (done[i].id in retired <==> i < k)
    ensures p in marked && p.id !in retired <==> p in done[k..]
  {
  }

  lemma RunningIsKept(marked: seq<Proc>, done: seq<Proc>, now: real, id: Id)
    requires UniqueIds(marked) && Proc(id, None) in marked
    requires forall p :: p in done ==> p in marked && IsFinished(p)
    ensures id !in Retired(done, now)
  {
    forall p | p in done ensures p.id != id {
      if p.id == id { UniqueById(marked, p, Proc(id, None)); }
    }
    assert forall p :: p in done[..Excess(|done|)] ==> p in done;
  }

  lemma LateFit(after: seq<Proc>, done: seq<Proc>, k: nat)
    requires UniqueIds(after) && k <= |done| && |done| - k <= RETAIN_MAX
    requires forall p :: IsFinished(p) ==> (p in after <==> p in done[k..])
    requires forall p :: p in done ==> IsFinished(p)
    ensures |Select(after, IsFinished)| <= RETAIN_MAX
  {
    SelectHas(after, IsFinished);
    SelectUnique(after, IsFinished);
    UniqueHaveNoDuplicates(Select(after, IsFinished));
    SizeOfElements(Select(after, IsFinished));
    SizeOfElements(done[k..]);
    assert forall p :: p in done[k..] ==> p in done;
    assert Elements(Select(after, IsFinished)) == Elements(done[k..]);
  }

  // ------------------------------------------------------------- every interleaving of threads

  /**
   * The registry and what has happened to it. `issued` are all ids ever handed out, `pending` those
   * reserved and not yet registered, `exited` the jobs whose children have exited; `batches` are
   * the lists that prunes returned.
   */
  datatype World = World(procs: seq<Proc>, counter: nat, issued: set<Id>, pending: set<Id>, registered: set<Id>,
                         exited: set<Id>, batches: seq<seq<Id>>, now: real)
  {
    /** The registered jobs whose children have not exited. */
    function Running(): set<Id> {
      registered - exited
    }
  }

  datatype Op = Tick(d: real) | Exit(id: Id) | DoPrune | DoReserve(limit: Option<nat>) | DoRegister(id: Id) | SpawnFailed(id: Id)

  /** A reservation is refused exactly when that many registered jobs are running. */
  predicate Full(w: World, limit: Option<nat>) {
    limit.Some? && |w.Running()| >= limit.value
  }

  function Step(w: World, op: Op): World {
    match op
    case Tick(d) => if d >= 0.0 then w.(now := w.now + d) else w
    case Exit(id) => if id in w.registered + w.pending then w.(exited := w.exited + {id}) else w
    case DoPrune =>
      w.(procs := Prune(w.procs, w.exited, w.now), batches := w.batches + [Reaped(w.procs, w.exited)])
    case DoReserve(limit) =>
      if Full(w, limit) then w
      else w.(counter := w.counter + 1, issued := w.issued + {w.counter + 1}, pending := w.pending + {w.counter + 1})
    case DoRegister(id) =>
      if id in w.pending then
        w.(procs := w.procs + [Proc(id, None)], pending := w.pending - {id}, registered := w.registered + {id})
      else w
    case SpawnFailed(id) => w.(pending := w.pending - {id})
  }

  /** Full is a registry whose limit does not exceed the number of registered jobs that have not exited. */
  lemma FullIs(w: World, limit: nat)
    ensures Full(w, Some(limit)) <==> |w.registered - w.exited| >= limit
    ensures !Full(w, None)
  {
  }

  const INIT := World([], 0, {}, {}, {}, {}, [], 0.0)

  /** The steps of a run, the last one outermost. */
  datatype History = Begin | Then(before: History, op: Op)

  function Run(h: History): World {
    match h
    case Begin => INIT
    case Then(before, op) => Step(Run(before), op)
  }

  function Flat(batches: seq<seq<Id>>): seq<Id> {
    if batches == [] then [] else Flat(batches[..|batches| - 1]) + batches[|batches| - 1]
  }

  ghost predicate Inv(w: World) {
    && UniqueIds(w.procs) && NoDuplicates(Flat(w.batches))
    && w.pending !! w.registered && w.pending + w.registered <= w.issued
    && (forall id :: id in w.issued <==> 1 <= id <= w.counter)
    && (forall p :: p in w.procs ==> p.id in w.registered && (IsFinished(p) ==> p.id in w.exited))
    && (forall id :: id in Flat(w.batches) <==> id in w.registered && Proc(id, None) !in w.procs)
    && (forall id :: id in w.registered && id !in w.exited ==> Proc(id, None) in w.procs)
  }

  lemma {:induction false} ReapedHas(procs: seq<Proc>, exited: set<Id>)
    requires UniqueIds(procs)
    ensures forall id :: id in Reaped(procs, exited) <==> Proc(id, None) in procs && id in exited
    ensures NoDuplicates(Reaped(procs, exited))
  {
    if procs != [] {
      var init, last := procs[..|procs| - 1], procs[|procs| - 1];
      ReapedHas(init, exited);
      assert procs == init + [last];
      forall id ensures id in Reaped(procs, exited) <==> Proc(id, None) in procs && id in exited {
        assert Proc(id, None) in procs <==> Proc(id, None) in init || Proc(id, None) == last;
      }
      forall i | 0 <= i < |init| ensures init[i].id != last.id {
        assert procs[i].id != procs[|procs| - 1].id;
      }
      assert last.id !in Reaped(init, exited);
    }
  }

  lemma NoDuplicatesConcat(xs: seq<Id>, ys: seq<Id>)
    requires NoDuplicates(xs) && NoDuplicates(ys) && forall y :: y in ys ==> y !in xs
    ensures NoDuplicates(xs + ys)
  {
    var all := xs + ys;
    forall i, j | 0 <= i < j < |all| ensures all[i] != all[j] {
      if i < |xs| <= j {
        assert ys[j - |xs|] in ys && xs[i] in xs;
      } else if |xs| <= i {
        assert ys[i - |xs|] != ys[j - |xs|];
      }
    }
  }

  lemma FlatAppend(batches: seq<seq<Id>>, batch: seq<Id>)
    ensures Flat(batches + [batch]) == Flat(batches) + batch
  {
    assert (batches + [batch])[..|batches|] == batches;
  }

  lemma PruneStepKeeps(w: World)
    requires Inv(w)
    ensures Inv(Step(w, DoPrune))
  {
    var batch, after := Reaped(w.procs, w.exited), Prune(w.procs, w.exited, w.now);
    ReapedHas(w.procs, w.exited);
    PruneKeepsRecent(w.procs, w.exited, w.now);
    FlatAppend(w.batches, batch);
    NoDuplicatesConcat(Flat(w.batches), batch);
    forall p | p in after ensures p.id in w.registered && (IsFinished(p) ==> p.id in w.exited) {
      PrunedWas(w.procs, w.exited, w.now, p);
    }
    forall id ensures id in Flat(w.batches) + batch <==> id in w.registered && Proc(id, None) !in after {
      assert id in Flat(w.batches) + batch <==> id in Flat(w.batches) || id in batch;
    }
  }

  lemma PrunedWas(procs: seq<Proc>, exited: set<Id>, now: real, p: Proc)
    requires p in Prune(procs, exited, now)
    ensures exists q :: q in procs && q.id == p.id && (q == p || p.id in exited)
  {
    var marked := Marked(procs, exited, now);
    var retired := Retired(Done(marked), now);
    SelectHas(marked, (p: Proc) => p.id !in retired);
    var i :| 0 <= i < |marked| && marked[i] == p;
    assert procs[i] in procs;
  }

  lemma RegisterKeeps(w: World, id: Id)
    requires Inv(w)
    ensures Inv(Step(w, DoRegister(id)))
  {
    if id in w.pending {
      var w' := Step(w, DoRegister(id));
      assert forall p :: p in w'.procs <==> p in w.procs || p == Proc(id, None);
      forall i | 0 <= i < |w.procs| ensures w.procs[i].id != id {
        assert w.procs[i] in w.procs;
      }
    }
  }

  lemma StepKeeps(w: World, op: Op)
    requires Inv(w)
    ensures Inv(Step(w, op))
  {
    match op
    case DoPrune => PruneStepKeeps(w);
    case DoRegister(id) => RegisterKeeps(w, id);
    case _ =>
  }

  lemma {:induction false} RunKeeps(h: History)
    ensures Inv(Run(h))
  {
    if h.Then? {
      RunKeeps(h.before);
      StepKeeps(Run(h.before), h.op);
    }
  }

  /**
   * In every interleaving the records have distinct ids; a registered job is reaped in at most
   * one batch, and in exactly one before its record can be forgotten; and while it has not been
   * reaped, above all while it is running, its record is there.
   */
  lemma ReapedExactlyOnce(h: History, id: Id)
    ensures
      var w := Run(h);
      && UniqueIds(w.procs)
      && (id in w.registered && id !in w.exited ==> Proc(id, None) in w.procs)
      && multiset(Flat(w.batches))[id] ==
           (if id in w.registered && Proc(id, None) !in w.procs then 1 else 0)
  {
    RunKeeps(h);
    NoDuplicatesOnce(Flat(Run(h).batches), id);
  }

  /** A reservation never hands out an id a second time, whatever has become of the first. */
  lemma ReservedIsFresh(h: History, limit: Option<nat>)
    ensures
      var w, w' := Run(h), Step(Run(h), DoReserve(limit));
      var id := w.counter + 1;
      !Full(w, limit) ==> id !in w.issued && w'.issued == w.issued + {id} && w'.pending == w.pending + {id}
  {
    CounterIsFresh(h);
  }

  // ------------------------------------------------------------------------ counting the jobs

  lemma {:induction false} UniqueCount(procs: seq<Proc>, ids: set<Id>)
    requires UniqueIds(procs) && forall id :: id in ids <==> exists p :: p in procs && p.id == id
    ensures |procs| == |ids|
  {
    if procs == [] {
      assert ids == {};
    } else {
      var init, last := procs[..|procs| - 1], procs[|procs| - 1];
      assert procs == init + [last];
      forall id ensures id in ids - {last.id} <==> exists p :: p in init && p.id == id {
        if p :| p in init && p.id == id {
          assert p in procs;
        }
        if id in ids && id != last.id {
          var p :| p in procs && p.id == id;
          assert p in init;
        }
      }
      UniqueCount(init, ids - {last.id});
      assert last in procs;
    }
  }

  /** The records whose children have not exited are the running jobs, one for one. */
  lemma AliveAreRunning(w: World, keep: Proc -> bool)
    requires Inv(w) && forall p :: keep(p) <==> p.id !in w.exited
    ensures |Select(w.procs, keep)| == |w.Running()|
  {
    var alive := Select(w.procs, keep);
    SelectHas(w.procs, keep);
    SelectUnique(w.procs, keep);
    forall id ensures id in w.Running() <==> exists p :: p in alive && p.id == id {
      if id in w.Running() {
        assert Proc(id, None) in alive;
      }
    }
    UniqueCount(alive, w.Running());
  }

  lemma AliveInRun(h: History, keep: Proc -> bool)
    requires forall p :: keep(p) <==> p.id !in Run(h).exited
    ensures |Select(Run(h).procs, keep)| == |Run(h).Running()|
  {
    RunKeeps(h);
    AliveAreRunning(Run(h), keep);
  }

  lemma PendingHasNoRecord(h: History, id: Id)
    requires id in Run(h).pending
    ensures forall p :: p in Run(h).procs ==> p.id != id
  {
    RunKeeps(h);
  }

  lemma CounterIsFresh(h: History)
    ensures Run(h).counter + 1 !in Run(h).issued
  {
    RunKeeps(h);
  }

  lemma PruneKeepsJobs(h: History, limit: Option<nat>)
    ensures
      var w, w' := Run(h), Run(Then(h, DoPrune));
      (Full(w', limit) <==> Full(w, limit)) && w'.issued == w.issued && w'.counter == w.counter
  {
  }

  // ------------------------------------------------------------------------------- the class

  class ProcessManager {
    /** The records in the order of registration. */
    var procs: seq<Proc>
    var counter: nat
    /** What polling the children and reading the clock tell. */
    var exited: set<Id>
    var now: real
    /** All the steps so far, of all threads, the children and the clock. */
    ghost var history: History

    /** The registry as the run of its history leaves it. */
    ghost function View(): World
      reads this
    {
      Run(history)
    }

    ghost predicate Valid()
      reads this
    {
      && procs == View().procs && counter == View().counter
      && exited == View().exited && now == View().now
    }

    constructor ()
      ensures Valid() && history == Begin
    {
      procs, counter, exited, now, history := [], 0, {}, 0.0, Begin;
    }

    /** The loop that reaps: every exited job that was not reaped before. */
    method MarkExited() returns (newly: seq<Id>)
      modifies `procs
      ensures newly == Reaped(old(procs), exited) && procs == Marked(old(procs), exited, now)
    {
      newly := [];
      var i := 0;
      ghost var before := procs;
      ghost var marked := Marked(procs, exited, now);
      while i < |procs|
        invariant 0 <= i <= |procs| == |before|
        invariant forall j :: 0 <= j < |procs| ==> procs[j] == if j < i then marked[j] else before[j]
        invariant newly == Reaped(before[..i], exited)
      {
        assert before[..i + 1][..i] == before[..i];
        if Due(procs[i], exited) {
          newly := newly + [procs[i].id];
          procs := procs[i := Proc(procs[i].id, Some(now))];
        }
        i := i + 1;
      }
      assert before[..i] == before && procs == marked;
    }

    /** Reap exited children, then retire records. */
    method PruneExited() returns (newly: seq<Id>)
      requires Valid()
      modifies `procs, `history
      ensures Valid() && history == Then(old(history), DoPrune)
      ensures View().batches == old(View()).batches + [newly]
    {
      newly := MarkExited();
      var done := Done(procs);
      var retired := Retired(done, now);
      procs := Select(procs, (p: Proc) => p.id !in retired);
      history := Then(history, DoPrune);
    }

    /** Hand out an id never issued before, unless as many registered jobs as the limit are running. */
    method Reserve(limit: Option<nat>) returns (id: Option<Id>)
      requires Valid()
      modifies `counter, `history
      ensures Valid() && history == Then(old(history), DoReserve(limit))
      ensures id.None? <==> Full(old(View()), limit)
      ensures id.Some? ==> id.value == old(counter) + 1 && id.value !in old(View()).issued && id.value in View().pending
    {
      CounterIsFresh(history);
      var gone := exited;
      var running := (p: Proc) => p.id !in gone;
      AliveInRun(history, running);
      history := Then(history, DoReserve(limit));
      var alive := |Select(procs, running)|;
      if limit.Some? && alive >= limit.value { return None; }
      counter := counter + 1;
      id := Some(counter);
    }

    /** Record a job whose child has been spawned; no record has its id yet. */
    method Register(id: Id)
      requires Valid() && id in View().pending
      modifies `procs, `history
      ensures Valid() && history == Then(old(history), DoRegister(id))
      ensures Proc(id, None) in procs && forall p :: p in old(procs) ==> p.id != id && p in procs
    {
      PendingHasNoRecord(history, id);
      procs := procs + [Proc(id, None)];
      history := Then(history, DoRegister(id));
    }

    /** A child that could not be spawned. */
    ghost method GiveUp(id: Id)
      requires Valid()
      modifies `history
      ensures Valid() && history == Then(old(history), SpawnFailed(id))
    {
      history := Then(history, SpawnFailed(id));
    }

    /** The child of a job exits. */
    method ChildExits(id: Id)
      requires Valid() && id in View().registered + View().pending
      modifies `exited, `history
      ensures Valid() && history == Then(old(history), Exit(id))
    {
      exited, history := exited + {id}, Then(history, Exit(id));
    }

    method Elapse(d: real)
      requires Valid() && d >= 0.0
      modifies `now, `history
      ensures Valid() && history == Then(old(history), Tick(d))
    {
      now, history := now + d, Then(history, Tick(d));
    }

    /** The locked sections of one start, with nothing in between. */
    method Start(limit: Option<nat>, spawns: bool) returns (id: Option<Id>)
      requires Valid()
      modifies this
      ensures Valid() && exited == old(exited) && now == old(now)
      ensures Full(old(View()), limit) ==> history == Then(Then(old(history), DoPrune), DoReserve(limit))
      ensures !Full(old(View()), limit) ==>
        history == Then(Then(Then(old(history), DoPrune), DoReserve(limit)), Spawned(spawns, old(counter) + 1))
      ensures id.Some? <==> spawns && !Full(old(View()), limit)
      ensures id.Some? ==> id.value !in old(View()).issued && Proc(id.value, None) in procs
    {
      PruneKeepsJobs(history, limit);
      var newly := PruneExited();
      id := Reserve(limit);
      if id.Some? {
        if spawns {
          Register(id.value);
        } else {
          GiveUp(id.value);
          id := None;
        }
      }
    }
  }

  /** How a start ends whose reservation was not refused. */
  function Spawned(spawns: bool, id: Id): Op {
    if spawns then DoRegister(id) else SpawnFailed(id)
  }
}
