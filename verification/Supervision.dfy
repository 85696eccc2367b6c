/**
 * Supervision of a streaming command in `src/jarn/agent/local_backend.py`: two pump threads fill
 * their buffers and a shared queue while the calling thread drains the queue, polls the process
 * and watches the deadline. Every step that another thread can observe is a step here.
 */
module Supervision {
  import opened Prelude
  import Decoding

  datatype Stream = Stdout | Stderr

  datatype Item = Item(tag: Stream, text: Option<string>)

  /** `Holding` is a text already in the buffer and not yet in the queue. */
  datatype Phase = Reading | Holding(text: string) | Closing | Done

  /** What a pump will decode from its stream and the error, if any, it will then meet. */
  datatype Script = Script(texts: seq<string>, error: Option<Decoding.Failure>)

  datatype Pump = Pump(todo: seq<string>, error: Option<Decoding.Failure>, buf: seq<string>, phase: Phase,
                       recorded: Option<Decoding.Failure>)

  datatype Verdict = TimedOut | Raised(error: Decoding.Failure) | Outputs(stdout: string, stderr: string)

  /**
   * Where the supervisor stands: at the loop head, between the deadline test and the exit test,
   * waiting for the queue, or done.
   */
  datatype Control = Top | Polling | Waiting | Finished(verdict: Verdict)

  /** `got` is what the supervisor has taken from the queue; its texts are the progress shown. */
  datatype State = State(stdout: Pump, stderr: Pump, queue: seq<Item>, got: seq<Item>,
                         exited: bool, elapsed: nat, eofs: nat, control: Control)
  {
    function Of(s: Stream): Pump {
      if s.Stdout? then stdout else stderr
    }

    function With(s: Stream, p: Pump): State {
      if s.Stdout? then this.(stdout := p) else this.(stderr := p)
    }
  }

  datatype Action = Append(s: Stream) | Put(s: Stream) | Record(s: Stream) | Close(s: Stream)
                  | Exit | Tick(d: nat) | Check | Poll | Get | IdlePoll

  datatype Scripts = Scripts(stdout: Script, stderr: Script)
  {
    function Of(s: Stream): Script {
      if s.Stdout? then stdout else stderr
    }
  }

  function Start(script: Script): Pump {
    Pump(script.texts, script.error, [], Reading, None)
  }

  function Init(scripts: Scripts): State {
    State(Start(scripts.stdout), Start(scripts.stderr), [], [], false, 0, 0, Top)
  }

  /** The first test at the loop head: has the deadline passed? */
  function CheckStep(timeout: nat, st: State): State {
    st.(control := if st.elapsed >= timeout then Finished(TimedOut) else Polling)
  }

  /** The second test: both end markers taken and the process gone. */
  function PollStep(st: State): State {
    if st.eofs >= 2 && st.exited then
      st.(control := Finished(
        if st.stdout.recorded.Some? then Raised(st.stdout.recorded.value)
        else if st.stderr.recorded.Some? then Raised(st.stderr.recorded.value)
        else Outputs(Decoding.Concat(st.stdout.buf), Decoding.Concat(st.stderr.buf))))
    else st.(control := Waiting)
  }

  /** One step of the pump thread of stream `s` and what it puts; a step not enabled does nothing. */
  function PumpMove(p: Pump, a: Action, s: Stream): (Pump, seq<Item>) {
    match a
    case Append(_) =>
      if p.phase == Reading && p.todo != [] then
        (p.(todo := p.todo[1..], buf := p.buf + [p.todo[0]], phase := Holding(p.todo[0])), [])
      else (p, [])
    case Put(_) =>
      if p.phase.Holding? then (p.(phase := Reading), [Item(s, Some(p.phase.text))]) else (p, [])
    case Record(_) =>
      if p.phase == Reading && p.todo == [] then (p.(phase := Closing, recorded := p.error), []) else (p, [])
    case Close(_) =>
      if p.phase == Closing then (p.(phase := Done), [Item(s, None)]) else (p, [])
    case _ => (p, [])
  }

  function PumpStep(st: State, a: Action, s: Stream): State {
    var (p, items) := PumpMove(st.Of(s), a, s);
    st.With(s, p).(queue := st.queue + items)
  }

  function Step(timeout: nat, st: State, a: Action): State {
    match a
    case Exit => st.(exited := true)
    case Tick(d) => st.(elapsed := st.elapsed + d)
    case Check => if st.control == Top then CheckStep(timeout, st) else st
    case Poll => if st.control == Polling then PollStep(st) else st
    case Get =>
      if st.control != Waiting || st.queue == [] then st
      else
        st.(queue := st.queue[1..], got := st.got + [st.queue[0]], control := Top,
            eofs := if st.queue[0].text.None? then st.eofs + 1 else st.eofs)
    case IdlePoll => if st.control == Waiting && st.queue == [] then st.(control := Top) else st
    case Append(s) => PumpStep(st, a, s)
    case Put(s) => PumpStep(st, a, s)
    case Record(s) => PumpStep(st, a, s)
    case Close(s) => PumpStep(st, a, s)
  }

  function Run(timeout: nat, st: State, actions: seq<Action>): State {
    if actions == [] then st
    else Step(timeout, Run(timeout, st, actions[..|actions| - 1]), actions[|actions| - 1])
  }

  // ---------------------------------------------------------------------------- the invariant

  /** The texts of one stream among some items, in order. */
  function TextsOf(s: Stream, items: seq<Item>): seq<string> {
    if items == [] then []
    else
      var last := items[|items| - 1];
      TextsOf(s, items[..|items| - 1]) + if last.tag == s && last.text.Some? then [last.text.value] else []
  }

  function Ends(items: seq<Item>): nat {
    if items == [] then 0
    else Ends(items[..|items| - 1]) + if items[|items| - 1].text.None? then 1 else 0
  }

  lemma OneMore(s: Stream, items: seq<Item>, item: Item)
    ensures TextsOf(s, items + [item]) == TextsOf(s, items) + if item.tag == s && item.text.Some? then [item.text.value] else []
    ensures Ends(items + [item]) == Ends(items) + if item.text.None? then 1 else 0
  {
    assert (items + [item])[..|items|] == items;
  }

  lemma {:induction false} EndsGrow(a: seq<Item>, b: seq<Item>)
    ensures Ends(a) <= Ends(a + b)
  {
    if b == [] {
      assert a + b == a;
    } else {
      EndsGrow(a, b[..|b| - 1]);
      assert a + b == a + b[..|b| - 1] + [b[|b| - 1]];
      OneMore(Stdout, a + b[..|b| - 1], b[|b| - 1]);
    }
  }

  /** The last item of a stream is its end marker when its pump is done; before that there is none. */
  ghost predicate Sealed(s: Stream, items: seq<Item>, done: bool) {
    if items == [] then !done
    else
      var last, before := items[|items| - 1], items[..|items| - 1];
      if last.tag == s then done == last.text.None? && Sealed(s, before, false) else Sealed(s, before, done)
  }

  lemma SealedOn(s: Stream, items: seq<Item>, item: Item, done: bool)
    requires Sealed(s, items, done) && (item.tag == s ==> !done)
    ensures Sealed(s, items + [item], done || item == Item(s, None))
  {
    assert (items + [item])[..|items|] == items;
  }

  /** After the end marker of a stream nothing of it follows. */
  lemma {:induction false} NothingFollows(s: Stream, got: seq<Item>, queue: seq<Item>)
    requires Sealed(s, got + queue, true) && Ends(got + queue) == Ends(got)
    ensures TextsOf(s, got + queue) == TextsOf(s, got)
  {
    if queue == [] {
      assert got + queue == got;
    } else {
      var less, last := queue[..|queue| - 1], queue[|queue| - 1];
      assert got + queue == got + less + [last] && (got + queue)[..|got + queue| - 1] == got + less;
      OneMore(s, got + less, last);
      EndsGrow(got, less);
      NothingFollows(s, got, less);
    }
  }

  /** One pump: nothing is lost between its buffer and the items it has put so far. */
  ghost predicate PumpInv(s: Stream, script: Script, p: Pump, items: seq<Item>) {
    && p.error == script.error
    && p.buf + p.todo == script.texts
    && p.buf == TextsOf(s, items) + (if p.phase.Holding? then [p.phase.text] else [])
    && (p.phase.Closing? || p.phase.Done? ==> p.todo == [])
    && p.recorded == (if p.phase.Closing? || p.phase.Done? then p.error else None)
    && Sealed(s, items, p.phase.Done?)
  }

  /** Both pumps with all the items they have put, and every end marker accounted for. */
  ghost predicate Both(scripts: Scripts, o: Pump, e: Pump, items: seq<Item>) {
    && PumpInv(Stdout, scripts.stdout, o, items)
    && PumpInv(Stderr, scripts.stderr, e, items)
    && Ends(items) == (if o.phase.Done? then 1 else 0) + (if e.phase.Done? then 1 else 0)
  }

  ghost predicate Inv(scripts: Scripts, timeout: nat, st: State) {
    && Both(scripts, st.stdout, st.stderr, st.got + st.queue)
    && st.eofs == Ends(st.got)
    && (st.control.Finished? ==> Justified(scripts, timeout, st))
  }

  /** What a finished supervision has seen. */
  ghost predicate Justified(scripts: Scripts, timeout: nat, st: State)
    requires st.control.Finished?
  {
    match st.control.verdict
    case TimedOut => st.elapsed >= timeout
    case Raised(e) =>
      st.exited && Some(e) == if scripts.stdout.error.Some? then scripts.stdout.error else scripts.stderr.error
    case Outputs(stdout, stderr) =>
      && st.exited && scripts.stdout.error == scripts.stderr.error == None
      && stdout == Decoding.Concat(scripts.stdout.texts) && stderr == Decoding.Concat(scripts.stderr.texts)
      && TextsOf(Stdout, st.got) == scripts.stdout.texts && TextsOf(Stderr, st.got) == scripts.stderr.texts
  }

  /** A step of the other pump. */
  lemma OtherMove(s: Stream, script: Script, p: Pump, items: seq<Item>, more: seq<Item>)
    requires PumpInv(s, script, p, items)
    requires more == [] || (|more| == 1 && more[0].tag != s)
    ensures PumpInv(s, script, p, items + more)
  {
    if more == [] {
      assert items + more == items;
    } else {
      assert more == [more[0]];
      OneMore(s, items, more[0]);
      SealedOn(s, items, more[0], p.phase.Done?);
    }
  }

  lemma OwnText(s: Stream, script: Script, p: Pump, items: seq<Item>, text: string)
    requires PumpInv(s, script, p, items) && p.phase == Holding(text)
    ensures PumpInv(s, script, p.(phase := Reading), items + [Item(s, Some(text))])
  {
    var item := Item(s, Some(text));
    OneMore(s, items, item);
    SealedOn(s, items, item, false);
  }

  lemma OwnEnd(s: Stream, script: Script, p: Pump, items: seq<Item>)
    requires PumpInv(s, script, p, items) && p.phase.Closing?
    ensures PumpInv(s, script, p.(phase := Done), items + [Item(s, None)])
  {
    var item := Item(s, None);
    OneMore(s, items, item);
    SealedOn(s, items, item, false);
  }

  lemma OwnAppend(s: Stream, script: Script, p: Pump, items: seq<Item>)
    requires PumpInv(s, script, p, items) && p.phase == Reading && p.todo != []
    ensures PumpInv(s, script, p.(todo := p.todo[1..], buf := p.buf + [p.todo[0]], phase := Holding(p.todo[0])), items)
  {
    assert p.buf + [p.todo[0]] + p.todo[1..] == p.buf + p.todo;
  }

  lemma OwnMove(s: Stream, script: Script, p: Pump, a: Action, items: seq<Item>)
    requires PumpInv(s, script, p, items)
    ensures PumpInv(s, script, PumpMove(p, a, s).0, items + PumpMove(p, a, s).1)
  {
    assert items + [] == items;
    match a
    case Append(_) => if p.phase == Reading && p.todo != [] { OwnAppend(s, script, p, items); }
    case Put(_) => if p.phase.Holding? { OwnText(s, script, p, items, p.phase.text); }
    case Close(_) => if p.phase.Closing? { OwnEnd(s, script, p, items); }
    case _ =>
  }

  /** A step puts an end marker exactly when the pump becomes done. */
  lemma MoveEnds(p: Pump, a: Action, s: Stream, items: seq<Item>)
    ensures
      var (p', more) := PumpMove(p, a, s);
      && Ends(items + more) == Ends(items) + (if p'.phase.Done? && !p.phase.Done? then 1 else 0)
      && (p.phase.Done? ==> p'.phase.Done?)
      && (more == [] || (|more| == 1 && more[0].tag == s))
  {
    var more := PumpMove(p, a, s).1;
    if more == [] {
      assert items + more == items;
    } else {
      OneMore(s, items, more[0]);
    }
  }

  lemma BothKeep(scripts: Scripts, o: Pump, e: Pump, items: seq<Item>, a: Action, s: Stream, p: Pump, more: seq<Item>)
    requires Both(scripts, o, e, items)
    requires (p, more) == PumpMove(if s.Stdout? then o else e, a, s)
    ensures s.Stdout? ==> Both(scripts, p, e, items + more)
    ensures s.Stderr? ==> Both(scripts, o, p, items + more)
  {
    if s.Stdout? {
      MoveEnds(o, a, s, items);
      OwnMove(s, scripts.stdout, o, a, items);
      OtherMove(Stderr, scripts.stderr, e, items, more);
    } else {
      MoveEnds(e, a, s, items);
      OwnMove(s, scripts.stderr, e, a, items);
      OtherMove(Stdout, scripts.stdout, o, items, more);
    }
  }

  lemma PumpKeeps(scripts: Scripts, timeout: nat, st: State, a: Action, s: Stream)
    requires Inv(scripts, timeout, st)
    ensures Inv(scripts, timeout, PumpStep(st, a, s))
  {
    var (p, more) := PumpMove(st.Of(s), a, s);
    var st' := PumpStep(st, a, s);
    BothKeep(scripts, st.stdout, st.stderr, st.got + st.queue, a, s, p, more);
    assert st'.got + st'.queue == st.got + st.queue + more;
    assert Both(scripts, st'.stdout, st'.stderr, st'.got + st'.queue);
  }

  lemma GetKeeps(scripts: Scripts, timeout: nat, st: State)
    requires Inv(scripts, timeout, st)
    ensures Inv(scripts, timeout, Step(timeout, st, Get))
  {
    if st.control == Waiting && st.queue != [] {
      var st' := Step(timeout, st, Get);
      assert st'.got + st'.queue == st.got + st.queue;
      OneMore(Stdout, st.got, st.queue[0]);
    }
  }

  /** With every end marker taken, the whole of a stream has been taken. */
  lemma Drained(s: Stream, script: Script, p: Pump, got: seq<Item>, queue: seq<Item>)
    requires PumpInv(s, script, p, got + queue) && p.phase.Done? && Ends(got + queue) == Ends(got)
    ensures TextsOf(s, got) == p.buf == script.texts
  {
    NothingFollows(s, got, queue);
  }

  lemma PollKeeps(scripts: Scripts, timeout: nat, st: State)
    requires Inv(scripts, timeout, st)
    ensures Inv(scripts, timeout, Step(timeout, st, Poll))
  {
    if st.control == Polling && st.eofs >= 2 && st.exited {
      EndsGrow(st.got, st.queue);
      Drained(Stdout, scripts.stdout, st.stdout, st.got, st.queue);
      Drained(Stderr, scripts.stderr, st.stderr, st.got, st.queue);
    }
  }

  lemma StepKeeps(scripts: Scripts, timeout: nat, st: State, a: Action)
    requires Inv(scripts, timeout, st)
    ensures Inv(scripts, timeout, Step(timeout, st, a))
  {
    match a
    case Get => GetKeeps(scripts, timeout, st);
    case Poll => PollKeeps(scripts, timeout, st);
    case Append(s) => PumpKeeps(scripts, timeout, st, a, s);
    case Put(s) => PumpKeeps(scripts, timeout, st, a, s);
    case Record(s) => PumpKeeps(scripts, timeout, st, a, s);
    case Close(s) => PumpKeeps(scripts, timeout, st, a, s);
    case _ =>
  }

  lemma {:induction false} RunKeeps(scripts: Scripts, timeout: nat, actions: seq<Action>)
    ensures Inv(scripts, timeout, Run(timeout, Init(scripts), actions))
  {
    if actions != [] {
      RunKeeps(scripts, timeout, actions[..|actions| - 1]);
      StepKeeps(scripts, timeout, Run(timeout, Init(scripts), actions[..|actions| - 1]), actions[|actions| - 1]);
    }
  }

  // ---------------------------------------------------------------------------- the guarantee

  /** The octets one pipe delivers, in the chunks its reads return. */
  datatype Pipe = Pipe(chunks: seq<Decoding.Chunk>, readFails: bool)

  ghost predicate PumpsOf(scripts: Scripts, stdout: Pipe, stderr: Pipe) {
    && Decoding.PumpResult(stdout.chunks, stdout.readFails, scripts.stdout.texts, scripts.stdout.error)
    && Decoding.PumpResult(stderr.chunks, stderr.readFails, scripts.stderr.texts, scripts.stderr.error)
  }

  /**
   * Under every interleaving a result is returned only after the process has exited and both
   * pipes were read to their ends, and it is what the blocking path returns; a failed read or an
   * undecodable stream is raised and never becomes a success; nothing at all comes back only
   * once the deadline has passed.
   */
  lemma SupervisionIsSafe(scripts: Scripts, stdout: Pipe, stderr: Pipe, timeout: nat, actions: seq<Action>)
    requires PumpsOf(scripts, stdout, stderr)
    ensures
      var st := Run(timeout, Init(scripts), actions);
      st.control.Finished? ==> match st.control.verdict
        case TimedOut => st.elapsed >= timeout
        case Raised(_) =>
          && st.exited
          && (stdout.readFails || Decoding.BlockingText(Decoding.Octets(stdout.chunks)).Err?
              || stderr.readFails || Decoding.BlockingText(Decoding.Octets(stderr.chunks)).Err?)
        case Outputs(o, e) =>
          && st.exited && !stdout.readFails && !stderr.readFails
          && Decoding.BlockingText(Decoding.Octets(stdout.chunks)) == Ok(o)
          && Decoding.BlockingText(Decoding.Octets(stderr.chunks)) == Ok(e)
          && Decoding.Concat(TextsOf(Stdout, st.got)) == o && Decoding.Concat(TextsOf(Stderr, st.got)) == e
  {
    RunKeeps(scripts, timeout, actions);
  }

  // ------------------------------------------------------------------------------- completion

  /** What a supervision with time left has to come to. */
  function DueVerdict(scripts: Scripts): Verdict {
    if scripts.stdout.error.Some? then Raised(scripts.stdout.error.value)
    else if scripts.stderr.error.Some? then Raised(scripts.stderr.error.value)
    else Outputs(Decoding.Concat(scripts.stdout.texts), Decoding.Concat(scripts.stderr.texts))
  }

  function PumpWork(p: Pump): nat {
    match p.phase
    case Reading => 2 * |p.todo| + 2
    case Holding(_) => 2 * |p.todo| + 3
    case Closing => 1
    case Done => 0
  }

  function PumpNext(p: Pump, s: Stream): Action {
    match p.phase
    case Reading => if p.todo != [] then Append(s) else Record(s)
    case Holding(_) => Put(s)
    case _ => Close(s)
  }

  /** A step that brings the verdict nearer: the pumps first, then the exit, then the supervisor. */
  function Next(st: State): Action {
    if !st.stdout.phase.Done? then PumpNext(st.stdout, Stdout)
    else if !st.stderr.phase.Done? then PumpNext(st.stderr, Stderr)
    else if !st.exited then Exit
    else if st.control == Top then Check
    else if st.control == Polling then Poll
    else if st.queue != [] then Get
    else IdlePoll
  }

  /** Steps to the next one that takes an item, or, with nothing queued, to the verdict. */
  function SupervisorWork(st: State): nat {
    match st.control
    case Top => if st.queue != [] then 3 else 2
    case Polling => if st.queue != [] then 2 else 1
    case Waiting => if st.queue != [] then 1 else 3
    case Finished(_) => 0
  }

  function Work(st: State): (nat, nat, nat, nat) {
    (PumpWork(st.stdout) + PumpWork(st.stderr), if st.exited then 0 else 1, |st.queue|, SupervisorWork(st))
  }

  predicate Less(a: (nat, nat, nat, nat), b: (nat, nat, nat, nat)) {
    || a.0 < b.0
    || (a.0 == b.0 && a.1 < b.1)
    || (a.0 == b.0 && a.1 == b.1 && a.2 < b.2)
    || (a.0 == b.0 && a.1 == b.1 && a.2 == b.2 && a.3 < b.3)
  }

  lemma PumpLowers(timeout: nat, st: State, s: Stream)
    requires !st.Of(s).phase.Done?
    ensures
      var st' := Step(timeout, st, PumpNext(st.Of(s), s));
      PumpWork(st'.stdout) + PumpWork(st'.stderr) < PumpWork(st.stdout) + PumpWork(st.stderr)
    ensures
      var st' := Step(timeout, st, PumpNext(st.Of(s), s));
      st'.control == st.control && st'.elapsed == st.elapsed
  {
    if s.Stdout? {
      assert st.Of(s) == st.stdout;
    } else {
      assert st.Of(s) == st.stderr;
    }
  }

  /** With all items put, all end markers are taken once the queue is empty. */
  lemma AllTaken(scripts: Scripts, timeout: nat, st: State)
    requires Inv(scripts, timeout, st) && st.stdout.phase.Done? && st.stderr.phase.Done? && st.queue == []
    ensures st.eofs == 2
  {
    assert st.got + st.queue == st.got;
  }

  lemma NextLowers(scripts: Scripts, timeout: nat, st: State)
    requires Inv(scripts, timeout, st) && !st.control.Finished? && st.elapsed < timeout
    ensures
      var st' := Step(timeout, st, Next(st));
      Less(Work(st'), Work(st)) && st'.elapsed == st.elapsed
  {
    if !st.stdout.phase.Done? {
      PumpLowers(timeout, st, Stdout);
    } else if !st.stderr.phase.Done? {
      PumpLowers(timeout, st, Stderr);
    } else if st.queue == [] {
      AllTaken(scripts, timeout, st);
    }
  }

  /** From every state that a run can be in, with time left, some steps without the clock end in the due verdict. */
  lemma {:induction false} Completes(scripts: Scripts, timeout: nat, st: State) returns (actions: seq<Action>)
    requires Inv(scripts, timeout, st) && !st.control.Finished? && st.elapsed < timeout
    ensures forall a :: a in actions ==> !a.Tick?
    ensures Run(timeout, st, actions).control == Finished(DueVerdict(scripts))
    decreases Work(st).0, Work(st).1, Work(st).2, Work(st).3
  {
    var a := Next(st);
    var st' := Step(timeout, st, a);
    StepKeeps(scripts, timeout, st, a);
    NextLowers(scripts, timeout, st);
    var rest := [];
    if st'.control.Finished? {
      VerdictIsDue(scripts, timeout, st');
    } else {
      rest := Completes(scripts, timeout, st');
    }
    actions := [a] + rest;
    RunAppend(timeout, st, [a], rest);
    assert [a][..0] == [];
    assert Run(timeout, st, [a]) == st';
  }

  lemma VerdictIsDue(scripts: Scripts, timeout: nat, st: State)
    requires Inv(scripts, timeout, st) && st.control.Finished? && st.elapsed < timeout
    ensures st.control == Finished(DueVerdict(scripts))
  {
  }

  /** Every run that has neither a verdict nor passed its deadline can still end in the due verdict. */
  lemma EveryRunCanFinish(scripts: Scripts, timeout: nat, actions: seq<Action>)
    ensures
      var st := Run(timeout, Init(scripts), actions);
      !st.control.Finished? && st.elapsed < timeout ==>
        exists more: seq<Action> :: (forall a :: a in more ==> !a.Tick?) && Run(timeout, st, more).control == Finished(
          if scripts.stdout.error.Some? then Raised(scripts.stdout.error.value)
          else if scripts.stderr.error.Some? then Raised(scripts.stderr.error.value)
          else Outputs(Decoding.Concat(scripts.stdout.texts), Decoding.Concat(scripts.stderr.texts)))
  {
    RunKeeps(scripts, timeout, actions);
    var st := Run(timeout, Init(scripts), actions);
    if !st.control.Finished? && st.elapsed < timeout {
      var more := Completes(scripts, timeout, st);
      assert Run(timeout, st, more).control == Finished(DueVerdict(scripts));
    }
  }

  // ------------------------------------------------------------------------------ the deadline

  /** The supervisor has found time left and both end markers taken; only the exit test remains. */
  predicate PastCheck(st: State) {
    st.control == Polling && st.eofs >= 2
  }

  ghost predicate OnlyTimesOut(timeout: nat, st: State, actions: seq<Action>) {
    var st' := Run(timeout, st, actions);
    st'.control.Finished? ==> st'.control.verdict == TimedOut
  }

  lemma {:induction false} LateRun(timeout: nat, st: State, actions: seq<Action>)
    requires st.elapsed >= timeout && !st.control.Finished? && !PastCheck(st)
    ensures OnlyTimesOut(timeout, st, actions)
    ensures Run(timeout, st, actions).elapsed >= timeout && !PastCheck(Run(timeout, st, actions))
  {
    if actions != [] {
      LateRun(timeout, st, actions[..|actions| - 1]);
    }
  }

  /**
   * Once the deadline has passed, a supervision without a verdict can only end without a result,
   * exactly when it does not stand between its two tests with both end markers taken.
   */
  lemma DeadlineDecidesIff(timeout: nat, st: State)
    requires st.elapsed >= timeout && !st.control.Finished?
    ensures (forall actions :: OnlyTimesOut(timeout, st, actions)) <==> !PastCheck(st)
  {
    if PastCheck(st) {
      var one, two := [Exit], [Exit, Poll];
      assert one[..0] == [] && two[..1] == one;
      assert Run(timeout, st, one) == st.(exited := true);
      assert Run(timeout, st, two) == PollStep(st.(exited := true));
      assert !OnlyTimesOut(timeout, st, two);
    } else {
      forall actions ensures OnlyTimesOut(timeout, st, actions) {
        LateRun(timeout, st, actions);
      }
    }
  }

  /** A supervision about to return its result still does so when the deadline passes between its two tests. */
  lemma LateResult(timeout: nat, st: State)
    requires st.control == Top && st.eofs >= 2 && st.exited && st.elapsed < timeout
    ensures
      var st' := Run(timeout, st, [Check, Tick(timeout), Poll]);
      st'.control.Finished? && st'.control.verdict != TimedOut && st'.elapsed >= timeout
  {
    RunThree(timeout, st, Check, Tick(timeout), Poll);
  }

  lemma RunThree(timeout: nat, st: State, a: Action, b: Action, c: Action)
    ensures Run(timeout, st, [a, b, c]) == Step(timeout, Step(timeout, Step(timeout, st, a), b), c)
  {
    assert [a, b, c][..2] == [a, b] && [a, b][..1] == [a] && [a][..0] == [];
    assert Run(timeout, st, [a]) == Step(timeout, st, a);
    assert Run(timeout, st, [a, b]) == Step(timeout, Run(timeout, st, [a]), b);
  }

  lemma {:induction false} RunAppend(timeout: nat, st: State, a: seq<Action>, b: seq<Action>)
    ensures Run(timeout, st, a + b) == Run(timeout, Run(timeout, st, a), b)
  {
    if b == [] {
      assert a + b == a;
    } else {
      RunAppend(timeout, st, a, b[..|b| - 1]);
      assert (a + b)[..|a + b| - 1] == a + b[..|b| - 1];
    }
  }

  const SILENT := Script([], None)
  const CLOSED := Pump([], None, [], Done, None)
  const ENDS := [Item(Stdout, None), Item(Stderr, None)]

  /** Both pumps of a command without output run to their ends, and the process exits. */
  const DRAIN := [Record(Stdout), Close(Stdout), Exit] + [Record(Stderr), Close(Stderr), Exit]
  const ROUND := [Check, Poll, Get]

  lemma Closes(timeout: nat, st: State, s: Stream)
    requires st.Of(s) == Start(SILENT)
    ensures Run(timeout, st, [Record(s), Close(s), Exit]) ==
      st.With(s, CLOSED).(queue := st.queue + [Item(s, None)], exited := true)
  {
    var recorded := st.With(s, CLOSED.(phase := Closing));
    assert st.queue + [] == st.queue;
    assert Step(timeout, st, Record(s)) == recorded;
    assert Step(timeout, recorded, Close(s)) == st.With(s, CLOSED).(queue := st.queue + [Item(s, None)]);
    RunThree(timeout, st, Record(s), Close(s), Exit);
  }

  lemma Drains()
    ensures Run(1, Init(Scripts(SILENT, SILENT)), DRAIN) == State(CLOSED, CLOSED, ENDS, [], true, 0, 0, Top)
  {
    var s0 := Init(Scripts(SILENT, SILENT));
    var first := [Record(Stdout), Close(Stdout), Exit];
    Closes(1, s0, Stdout);
    Closes(1, Run(1, s0, first), Stderr);
    RunAppend(1, s0, first, [Record(Stderr), Close(Stderr), Exit]);
  }

  /** One round of the loop that takes an end marker. */
  lemma TakesEnd(timeout: nat, st: State)
    requires st.control == Top && st.elapsed < timeout && st.eofs < 2 && st.queue != [] && st.queue[0].text.None?
    ensures Run(timeout, st, ROUND) ==
      st.(queue := st.queue[1..], got := st.got + [st.queue[0]], eofs := st.eofs + 1)
  {
    RunThree(timeout, st, Check, Poll, Get);
  }

  /** From the start of a run: the deadline passes between the two tests, and a result comes back. */
  lemma ResultPastDeadline()
    ensures
      var st := Run(1, Init(Scripts(SILENT, SILENT)), DRAIN + ROUND + ROUND + [Check, Tick(1), Poll]);
      st.control.Finished? && st.control.verdict != TimedOut && st.elapsed >= 1
  {
    var s0 := Init(Scripts(SILENT, SILENT));
    Drains();
    RunAppend(1, s0, DRAIN, ROUND);
    TakesEnd(1, Run(1, s0, DRAIN));
    RunAppend(1, s0, DRAIN + ROUND, ROUND);
    TakesEnd(1, Run(1, s0, DRAIN + ROUND));
    RunAppend(1, s0, DRAIN + ROUND + ROUND, [Check, Tick(1), Poll]);
    LateResult(1, Run(1, s0, DRAIN + ROUND + ROUND));
  }

  /** A verdict is final. */
  lemma {:induction false} VerdictStays(timeout: nat, st: State, actions: seq<Action>)
    requires st.control.Finished?
    ensures Run(timeout, st, actions).control == st.control
  {
    if actions != [] {
      VerdictStays(timeout, st, actions[..|actions| - 1]);
    }
  }

  /**
   * Past the deadline the supervisor comes to its verdict within its next four steps, wherever it
   * stands: it gives up unless the exit test, already reached, finds everything done.
   */
  lemma DeadlineReached(timeout: nat, st: State)
    requires st.elapsed >= timeout && !st.control.Finished?
    ensures
      var st' := Run(timeout, st, [Poll, IdlePoll, Get, Check]);
      st'.control.Finished? && (st'.control.verdict == TimedOut <==> !(PastCheck(st) && st.exited))
  {
    var one, two, three := [Poll], [Poll, IdlePoll], [Poll, IdlePoll, Get];
    assert one[..0] == [] && two[..1] == one && three[..2] == two && [Poll, IdlePoll, Get, Check][..3] == three;
    assert Run(timeout, st, one) == Step(timeout, st, Poll);
    assert Run(timeout, st, two) == Step(timeout, Run(timeout, st, one), IdlePoll);
    assert Run(timeout, st, three) == Step(timeout, Run(timeout, st, two), Get);
  }
}
