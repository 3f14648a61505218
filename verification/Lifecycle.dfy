/**
 The thread lifecycle protocol of application.cpp and thread.cpp, as a state machine: one
 application thread that handles an event queue, any number of worker threads, and an environment
 that adds, starts and terminates threads and posts events.  A region the source locks is one
 step; everything else may interleave.

 `removeThread` is taken with the erase that its count of remaining threads shows is meant; module
 `ThreadsGone` compares it with the call as written.
*/
module Lifecycle {

  type Tid = nat

  /** Where `Thread::run` is: not entered, before its first test, in its loop, past the loop, past
      the reset of the worker, past `m_ready = false`, or returned after posting its removal. */
  datatype Pc = Created | Spawned | Looping | LeftLoop | NoWorker | Unready | Finished

  /** `tails` counts the earlier run functions of a thread that have still to post its removal: a
      thread that has reset `m_ready` can be started again before it does. */
  datatype Thread = Thread(
    kind: nat, pc: Pc, ready: bool, deleting: bool, terminated: bool, hasWorker: bool, tails: nat)

  datatype Event = ThreadRemove(t: Tid) | Close | ThreadsGone(restarting: bool) | Shutdown | Restart | Other

  /** The application thread: between events, in `stop` about to select the threads of a kind, in
      `stop` visiting the selected ones (and perhaps in `wait` for the next of them), or out of
      `exec`. */
  datatype App =
    Idle | Selecting(kind: nat) | Waiting(kind: nat, todo: seq<Tid>, joining: bool) | Returned(code: nat)

  /** The range of thread types, and how `stop` tests for a thread to be removed directly: as it
      evidently means it, "never started", or as it is written, `!isStarted()`. */
  datatype Config = Config(first: nat, last: nat, intended: bool)

  /** `pool` holds every thread ever added; `threads` is `m_threads`.  The last five fields record
      history: deletions in order, ThreadsGone and Close events posted, whether `stop` ever began,
      and the threads its latest call selected. */
  datatype State = State(
    pool: map<Tid, Thread>, threads: seq<Tid>, queue: seq<Event>, terminated: bool, app: App,
    deleted: seq<Tid>, gone: nat, closes: nat, stopping: bool, selected: set<Tid>)

  datatype Step =
    // the environment
    | Add(t: Tid, kind: nat, worker: bool, start: bool) | Start(t: Tid) | Terminate(t: Tid) | Post(e: Event)
    // a worker thread
    | RunTest(t: Tid) | Tick(t: Tid) | LoopExit(t: Tid) | DropWorker(t: Tid) | ClearReady(t: Tid) | PostRemove(t: Tid)
    | PostTail(t: Tid)
    // the application thread; an interruption is thrown in the loop, or found by its test
    | Pull | Select | Visit | Join | NextKind | Return | Interrupt | TestInterrupted

  const INIT := State(map[], [], [], false, Idle, [], 0, 0, false, {})

  // ---------- the code of single steps ----------

  /** `Thread::start`: a no-op on a started thread. */
  function Started(th: Thread): Thread {
    if th.ready then th
    else th.(ready := true, pc := Spawned, tails := th.tails + if th.pc.Unready? then 1 else 0)
  }

  function Without(threads: seq<Tid>, t: Tid): seq<Tid> {
    if threads == [] then []
    else (if threads[0] == t then [] else [threads[0]]) + Without(threads[1..], t)
  }

  /** The test at the head of `removeThread`: the thread is running and was not told to stop. */
  predicate Refused(th: Thread) {
    th.ready && !th.terminated
  }

  /** `Application::removeThread`: refuse a running thread, otherwise forget and delete it, and
      announce an empty list. */
  function Removed(s: State, t: Tid): State
    requires t in s.pool
  {
    if Refused(s.pool[t]) then s
    else
      var rest := Without(s.threads, t);
      var s' := s.(threads := rest, deleted := s.deleted + [t]);
      if rest == [] then s'.(queue := s.queue + [ThreadsGone(false)], gone := s.gone + 1) else s'
  }

  /** `Application::event`. */
  function Handled(c: Config, s: State, e: Event): State
    requires e.ThreadRemove? ==> e.t in s.pool
  {
    match e
    case ThreadRemove(t) => Removed(s, t)
    case Close => s.(app := Selecting(c.last), stopping := true, selected := {})
    case ThreadsGone(restarting) => s.(queue := s.queue + [if restarting then Restart else Shutdown])
    case Shutdown => s.(terminated := true)
    case Restart => s
    case Other => s
  }

  /** The `copy_if` of `stop`. */
  function OfKind(pool: map<Tid, Thread>, threads: seq<Tid>, kind: nat): seq<Tid> {
    if threads == [] then []
    else
      (if threads[0] in pool && pool[threads[0]].hasWorker && pool[threads[0]].kind == kind then [threads[0]] else []) +
      OfKind(pool, threads[1..], kind)
  }

  function TerminatedAll(pool: map<Tid, Thread>, ts: seq<Tid>): map<Tid, Thread> {
    map t | t in pool :: if t in ts then pool[t].(terminated := true) else pool[t]
  }

  /** The test in `stop` that sends a thread straight to removal. */
  predicate NotStarted(c: Config, th: Thread) {
    if c.intended then th.pc.Created? else !th.ready
  }

  /** The test of the loop in `Thread::run`, but for interruptions. */
  predicate Stays(th: Thread) {
    th.ready && !th.deleting && !th.terminated
  }

  // ---------- the step relation ----------

  ghost predicate Enabled(c: Config, s: State, step: Step) {
    match step
    case Add(t, _, worker, start) => t !in s.pool && (start ==> worker)
    case Start(t) =>
      // a first start needs a worker
      t in s.pool && t !in s.deleted && (s.pool[t].pc.Created? ==> s.pool[t].hasWorker)
    case Terminate(t) => t in s.pool
    case Post(e) => e.ThreadRemove? ==> e.t in s.pool
    case RunTest(t) => t in s.pool && s.pool[t].pc.Spawned?
    case Tick(t) => t in s.pool && s.pool[t].pc.Looping? && Stays(s.pool[t])
    case LoopExit(t) =>
      // told to, or interrupted
      t in s.pool && s.pool[t].pc.Looping?
    case DropWorker(t) => t in s.pool && s.pool[t].pc.LeftLoop?
    case ClearReady(t) => t in s.pool && s.pool[t].pc.NoWorker?
    case PostRemove(t) => t in s.pool && s.pool[t].pc.Unready?
    case PostTail(t) => t in s.pool && s.pool[t].tails > 0
    case Pull =>
      s.app.Idle? && !s.terminated && s.queue != [] && (s.queue[0].ThreadRemove? ==> s.queue[0].t in s.pool)
    case Select => s.app.Selecting?
    case Visit => s.app.Waiting? && !s.app.joining && s.app.todo != [] && s.app.todo[0] in s.pool
    case Join =>
      // `wait` returns at once when it finds `m_deleting` set, and otherwise joins; allowing it to
      // return as soon as the flag is set covers both
      s.app.Waiting? && s.app.joining && s.app.todo != [] && s.app.todo[0] in s.pool &&
      var th := s.pool[s.app.todo[0]];
      th.deleting || th.pc.Finished?
    case NextKind => s.app.Waiting? && s.app.todo == [] && s.app.kind > 0
    case Return => s.app.Idle? && s.terminated
    case Interrupt => s.app.Idle?
    case TestInterrupted => s.app.Idle? && !s.terminated
  }

  function With(s: State, t: Tid, th: Thread): State {
    s.(pool := s.pool[t := th])
  }

  ghost function Next(c: Config, s: State, step: Step): State
    requires Enabled(c, s, step)
  {
    match step
    case Add(t, kind, worker, start) =>
      var th := Thread(kind, Created, false, false, false, worker, 0);
      With(s, t, if start then Started(th) else th).(threads := s.threads + [t])
    case Start(t) => With(s, t, Started(s.pool[t]))
    case Terminate(t) => With(s, t, s.pool[t].(terminated := true))
    case Post(e) => s.(queue := s.queue + [e], closes := s.closes + if e.Close? then 1 else 0)
    case RunTest(t) => With(s, t, s.pool[t].(pc := if s.pool[t].terminated then LeftLoop else Looping))
    case Tick(t) => s
    case LoopExit(t) => With(s, t, s.pool[t].(pc := LeftLoop, deleting := true))
    case DropWorker(t) =>
      With(s, t, s.pool[t].(pc := NoWorker, hasWorker := false,
                            terminated := s.pool[t].terminated || !s.pool[t].hasWorker))
    case ClearReady(t) => With(s, t, s.pool[t].(pc := Unready, ready := false))
    case PostRemove(t) => With(s, t, s.pool[t].(pc := Finished)).(queue := s.queue + [ThreadRemove(t)])
    case PostTail(t) =>
      With(s, t, s.pool[t].(tails := s.pool[t].tails - 1)).(queue := s.queue + [ThreadRemove(t)])
    case Pull => Handled(c, s.(queue := s.queue[1..]), s.queue[0])
    case Select =>
      if s.app.kind <= c.first then s.(app := Idle)
      else
        var sel := OfKind(s.pool, s.threads, s.app.kind);
        s.(pool := TerminatedAll(s.pool, sel), app := Waiting(s.app.kind, sel, false),
           selected := s.selected + set t | t in sel)
    case Visit =>
      var t := s.app.todo[0];
      if NotStarted(c, s.pool[t]) then
        s.(app := Waiting(s.app.kind, s.app.todo[1..], false), queue := s.queue + [ThreadRemove(t)])
      else s.(app := s.app.(joining := true))
    case Join => s.(app := Waiting(s.app.kind, s.app.todo[1..], false))
    case NextKind => s.(app := Selecting(s.app.kind - 1))
    case Return => s.(app := Returned(0))
    case Interrupt => s.(queue := s.queue + [Shutdown], app := Returned(1))
    case TestInterrupted => s.(app := Returned(0))
  }

  /** A run is a sequence of steps, each enabled where it is taken. */
  ghost predicate Runs(c: Config, steps: seq<Step>)
    decreases |steps|, 0
  {
    steps == [] ||
    (Runs(c, steps[..|steps| - 1]) && Enabled(c, After(c, steps[..|steps| - 1]), steps[|steps| - 1]))
  }

  ghost function After(c: Config, steps: seq<Step>): State
    requires Runs(c, steps)
    decreases |steps|, 1
  {
    if steps == [] then INIT
    else Next(c, After(c, steps[..|steps| - 1]), steps[|steps| - 1])
  }

  lemma Extend(c: Config, steps: seq<Step>, step: Step)
    requires Runs(c, steps) && Enabled(c, After(c, steps), step)
    ensures Runs(c, steps + [step]) && After(c, steps + [step]) == Next(c, After(c, steps), step)
  {
    assert (steps + [step])[..|steps|] == steps;
  }

  lemma ExtendSafely(c: Config, steps: seq<Step>, step: Step)
    requires Runs(c, steps) && Enabled(c, After(c, steps), step)
    ensures Runs(c, steps + [step]) && After(c, steps + [step]) == Next(c, After(c, steps), step)
    ensures NoHazards(c, steps + [step]) <==> NoHazards(c, steps) && !Hazard(c, After(c, steps), step)
  {
    Extend(c, steps, step);
    assert (steps + [step])[..|steps|] == steps;
  }

  // ---------- safety ----------

  /** The run function has not been entered, or is over but for posting the removal. */
  predicate Stopped(pc: Pc) {
    pc.Created? || pc.Unready? || pc.Finished?
  }

  /** The removals of a thread: waiting in the queue, and carried out. */
  function Posted(s: State, t: Tid): nat {
    multiset(s.queue)[ThreadRemove(t)] + multiset(s.deleted)[t]
  }

  ghost predicate Distinct(ts: seq<Tid>) {
    forall i, j :: 0 <= i < j < |ts| ==> ts[i] != ts[j]
  }

  /** The removal of a running thread, or the end before it was announced. */
  predicate Early(s: State, e: Event) {
    match e
    case ThreadRemove(t) => t in s.pool && !Stopped(s.pool[t].pc)
    case ThreadsGone(_) => s.gone == 0 && s.app != Returned(1)
    case Shutdown => s.gone == 0 && s.app != Returned(1)
    case _ => false
  }

  /** An event that nobody but the application and its threads should post: an early one, or a
      removal of a thread that has one posted. */
  predicate Untimely(s: State, e: Event) {
    Early(s, e) || (e.ThreadRemove? && Posted(s, e.t) > 0)
  }

  /** A step that goes wrong: a second removal posted for a thread, a thread started whose removal
      is posted or about to be, a thread added when the application was told that none is left or
      has returned 0, an untimely event, or a loop test that finds an interruption while threads are
      left. */
  predicate Hazard(c: Config, s: State, step: Step) {
    match step
    case Add(_, _, _, _) => s.gone > 0 || s.app == Returned(0)
    case Start(t) => Posted(s, t) > 0 || (t in s.pool && s.pool[t].pc.Unready?)
    case Post(e) => Untimely(s, e)
    case PostRemove(t) => Posted(s, t) > 0
    case PostTail(t) => Posted(s, t) > 0
    case TestInterrupted => s.threads != []
    case Visit =>
      s.app.Waiting? && s.app.todo != [] && s.app.todo[0] in s.pool &&
      NotStarted(c, s.pool[s.app.todo[0]]) && Posted(s, s.app.todo[0]) > 0
    case _ => false
  }

  /** Whether a step posts the removal of a thread. */
  predicate PostsRemoval(c: Config, s: State, step: Step, t: Tid) {
    match step
    case PostRemove(x) => x == t
    case PostTail(x) => x == t
    case Post(e) => e == ThreadRemove(t)
    case Visit =>
      s.app.Waiting? && s.app.todo != [] && s.app.todo[0] == t && t in s.pool && NotStarted(c, s.pool[t])
    case _ => false
  }

  /** How many steps of a run did. */
  ghost function Postings(c: Config, steps: seq<Step>, t: Tid): nat
    requires Runs(c, steps)
  {
    if steps == [] then 0
    else
      var before, step := steps[..|steps| - 1], steps[|steps| - 1];
      Postings(c, before, t) + if PostsRemoval(c, After(c, before), step, t) then 1 else 0
  }

  ghost predicate NoHazards(c: Config, steps: seq<Step>)
    requires Runs(c, steps)
  {
    steps == [] ||
    (NoHazards(c, steps[..|steps| - 1]) && !Hazard(c, After(c, steps[..|steps| - 1]), steps[|steps| - 1]))
  }

  /** Threads are removed at most once, only when stopped, and are listed until then. */
  ghost predicate ThreadsOk(s: State) {
    && (forall t :: Posted(s, t) <= 1)
    && (forall t :: Posted(s, t) == 1 ==> t in s.pool && Stopped(s.pool[t].pc))
    && (forall t :: t in s.threads <==> t in s.pool && t !in s.deleted)
    && Distinct(s.threads)
    && (forall t :: t in s.pool ==> (s.pool[t].ready <==> !Stopped(s.pool[t].pc)) && s.pool[t].tails == 0)
  }

  /** The end is announced once, when no thread is left, and only then does the loop end by itself;
      it never returns 0 with a thread left. */
  ghost predicate EndOk(s: State) {
    && s.gone <= 1
    && (s.gone == 1 ==> s.threads == [])
    && (s.app == Returned(0) ==> s.threads == [])
    && (s.app != Returned(1) ==>
          (s.terminated || Shutdown in s.queue || ThreadsGone(false) in s.queue || ThreadsGone(true) in s.queue
           ==> s.gone == 1))
  }

  ghost predicate Inv(s: State) {
    ThreadsOk(s) && EndOk(s)
  }

  lemma HasMember(v: seq<Tid>)
    ensures v == [] || exists t :: t in v
  {
    assert v == [] || v[0] in v;
  }

  lemma HeadApart(ts: seq<Tid>)
    requires Distinct(ts) && ts != []
    ensures Distinct(ts[1..]) && ts[0] !in ts[1..]
    ensures forall x :: x in ts <==> x == ts[0] || x in ts[1..]
  {}

  lemma ConsDistinct(t: Tid, ts: seq<Tid>)
    requires Distinct(ts)
    ensures t !in ts ==> Distinct([t] + ts)
    ensures forall x :: x in [t] + ts <==> x == t || x in ts
  {}

  lemma {:induction false} WithoutIs(threads: seq<Tid>, t: Tid)
    requires Distinct(threads)
    ensures Distinct(Without(threads, t))
    ensures forall x :: x in Without(threads, t) <==> x in threads && x != t
  {
    if threads != [] {
      HeadApart(threads);
      WithoutIs(threads[1..], t);
      ConsDistinct(threads[0], Without(threads[1..], t));
    }
  }

  /** Appending an event adds a removal only if it is one. */
  lemma QueueGrows(q: seq<Event>, e: Event, t: Tid)
    ensures multiset(q + [e])[ThreadRemove(t)] == multiset(q)[ThreadRemove(t)] + if e == ThreadRemove(t) then 1 else 0
  {}

  lemma QueueShrinks(q: seq<Event>, t: Tid)
    requires q != []
    ensures multiset(q)[ThreadRemove(t)] ==
            multiset(q[1..])[ThreadRemove(t)] + if q[0] == ThreadRemove(t) then 1 else 0
  {
    assert q == [q[0]] + q[1..];
  }

  lemma DeletedGrows(d: seq<Tid>, x: Tid, t: Tid)
    ensures multiset(d + [x])[t] == multiset(d)[t] + if x == t then 1 else 0
  {}

  /** Steps that only move one thread along. */
  lemma MoveKeeps(s: State, t: Tid, th: Thread)
    requires Inv(s) && t in s.pool
    requires (th.ready <==> !Stopped(th.pc)) && th.tails == 0
    requires Posted(s, t) == 1 ==> Stopped(th.pc)
    ensures Inv(With(s, t, th))
  {
    var s' := With(s, t, th);
    assert forall x :: Posted(s', x) == Posted(s, x);
  }

  /** Steps that only post an event that is not a removal. */
  lemma PostKeeps(s: State, s': State, e: Event)
    requires Inv(s) && !e.ThreadRemove? && s'.queue == s.queue + [e]
    requires s'.pool == s.pool && s'.threads == s.threads && s'.deleted == s.deleted
    requires EndOk(s')
    ensures Inv(s')
  {
    forall x ensures Posted(s', x) == Posted(s, x) {
      QueueGrows(s.queue, e, x);
    }
  }

  /** Posting the removal of a stopped thread that has none. */
  lemma RemovalKeeps(s: State, s': State, t: Tid)
    requires Inv(s) && t in s.pool && Posted(s, t) == 0 && s'.queue == s.queue + [ThreadRemove(t)]
    requires s'.pool.Keys == s.pool.Keys && Stopped(s'.pool[t].pc) && !s'.pool[t].ready && s'.pool[t].tails == 0
    requires forall x :: x in s.pool && x != t ==> s'.pool[x] == s.pool[x]
    requires s'.threads == s.threads && s'.deleted == s.deleted && s'.gone == s.gone
    requires s'.terminated == s.terminated && (s'.app == s.app || (!s'.app.Returned? && !s.app.Returned?))
    ensures Inv(s')
  {
    forall x ensures Posted(s', x) == Posted(s, x) + if x == t then 1 else 0 {
      QueueGrows(s.queue, ThreadRemove(t), x);
    }
  }

  /** What taking and handling an event leaves alone. */
  lemma PulledFields(c: Config, s: State)
    requires Enabled(c, s, Pull)
    ensures var s' := Next(c, s, Pull);
            && s'.pool == s.pool && s'.closes == s.closes
            && s'.app == (if s.queue[0].Close? then Selecting(c.last) else Idle)
            && s'.stopping == (s.stopping || s.queue[0].Close?)
  {}

  lemma {:induction false} WithoutMembers(threads: seq<Tid>, t: Tid)
    ensures forall x :: x in Without(threads, t) <==> x in threads && x != t
  {
    if threads != [] {
      WithoutMembers(threads[1..], t);
      assert forall x :: x in threads <==> x == threads[0] || x in threads[1..];
    }
  }

  /** `removeThread` refuses a thread that is ready and was not told to stop: the event is dropped and
      nothing else changes. */
  lemma RefusesRunning(c: Config, s: State)
    requires Enabled(c, s, Pull) && s.queue[0].ThreadRemove?
    requires var th := s.pool[s.queue[0].t]; th.ready && !th.terminated
    ensures Next(c, s, Pull) == s.(queue := s.queue[1..])
  {}

  /** Any other thread is forgotten and deleted, and when the list is empty then the end is announced. */
  lemma RemovesOthers(c: Config, s: State)
    requires Enabled(c, s, Pull) && s.queue[0].ThreadRemove?
    requires var th := s.pool[s.queue[0].t]; !th.ready || th.terminated
    ensures var t, tail, s' := s.queue[0].t, s.queue[1..], Next(c, s, Pull);
            && s'.deleted == s.deleted + [t]
            && (forall x :: x in s'.threads <==> x in s.threads && x != t)
            && s'.queue == (if s'.threads == [] then tail + [ThreadsGone(false)] else tail)
            && s'.gone == s.gone + (if s'.threads == [] then 1 else 0)
            && s'.pool == s.pool && s'.app == s.app && s'.terminated == s.terminated
  {
    WithoutMembers(s.threads, s.queue[0].t);
  }

  /** In every run, with hazards or without: the only step that deletes a thread is the handling of its
      removal, and it finds the thread not ready, or told to stop. */
  lemma DeletesStopped(c: Config, s: State, step: Step)
    requires Enabled(c, s, step) && Next(c, s, step).deleted != s.deleted
    ensures step.Pull? && s.queue[0].ThreadRemove?
    ensures var t := s.queue[0].t;
            Next(c, s, step).deleted == s.deleted + [t] && (!s.pool[t].ready || s.pool[t].terminated)
  {}

  lemma PulledRemoval(s: State)
    requires Inv(s) && s.app.Idle? && !s.terminated && s.queue != [] && s.queue[0].ThreadRemove?
    ensures var t := s.queue[0].t;
            && t in s.pool && t in s.threads && t !in s.deleted && !s.pool[t].ready && Stopped(s.pool[t].pc)
            && s.gone == 0
  {
    var t := s.queue[0].t;
    QueueShrinks(s.queue, t);
    assert Posted(s, t) == 1;
  }

  /** Handling an event carries out its removal, and posts none. */
  lemma HandledPosted(c: Config, s: State, e: Event, x: Tid)
    requires e.ThreadRemove? ==> e.t in s.pool && !Refused(s.pool[e.t])
    ensures Posted(Handled(c, s, e), x) == Posted(s, x) + if e == ThreadRemove(x) then 1 else 0
  {
    match e
    case ThreadRemove(t) =>
      DeletedGrows(s.deleted, t, x);
      QueueGrows(s.queue, ThreadsGone(false), x);
    case ThreadsGone(restarting) =>
      QueueGrows(s.queue, if restarting then Restart else Shutdown, x);
    case _ =>
  }

  /** Over a whole `Pull` the removals of a thread are neither lost nor made. */
  lemma PullPosted(c: Config, s: State, x: Tid)
    requires Enabled(c, s, Pull) && (s.queue[0].ThreadRemove? ==> !Refused(s.pool[s.queue[0].t]))
    ensures Posted(Next(c, s, Pull), x) == Posted(s, x)
  {
    QueueShrinks(s.queue, x);
    HandledPosted(c, s.(queue := s.queue[1..]), s.queue[0], x);
  }

  lemma PulledPostedSame(c: Config, s: State)
    requires Inv(s) && Enabled(c, s, Pull)
    ensures forall x :: Posted(Next(c, s, Pull), x) == Posted(s, x)
  {
    if s.queue[0].ThreadRemove? {
      PulledRemoval(s);
    }
    forall x ensures Posted(Next(c, s, Pull), x) == Posted(s, x) {
      PullPosted(c, s, x);
    }
  }

  lemma PullRemoveThreads(c: Config, s: State)
    requires Inv(s) && Enabled(c, s, Pull) && s.queue[0].ThreadRemove?
    ensures ThreadsOk(Next(c, s, Pull))
    ensures Next(c, s, Pull).deleted == s.deleted + [s.queue[0].t]
  {
    var t := s.queue[0].t;
    PulledRemoval(s);
    WithoutIs(s.threads, t);
    var s' := Next(c, s, Pull);
    PulledPostedSame(c, s);
    assert forall x :: x in s'.deleted <==> x in s.deleted || x == t;
  }

  lemma PullRemoveKeeps(c: Config, s: State)
    requires Inv(s) && Enabled(c, s, Pull) && s.queue[0].ThreadRemove?
    ensures Inv(Next(c, s, Pull))
    ensures Next(c, s, Pull).deleted == s.deleted + [s.queue[0].t]
  {
    PulledRemoval(s);
    PullRemoveThreads(c, s);
    assert forall e :: e in s.queue[1..] ==> e in s.queue;
  }

  /** An event other than a removal can be taken off the queue. */
  lemma DropKeeps(s: State)
    requires Inv(s) && s.queue != [] && !s.queue[0].ThreadRemove?
    ensures Inv(s.(queue := s.queue[1..]))
  {
    var s' := s.(queue := s.queue[1..]);
    forall x ensures Posted(s', x) == Posted(s, x) {
      QueueShrinks(s.queue, x);
    }
    assert forall e :: e in s.queue[1..] ==> e in s.queue;
  }

  /** Handling an event other than a removal, which if it ends the loop was announced. */
  lemma OtherHandled(c: Config, s: State, e: Event)
    requires Inv(s) && s.app.Idle? && !e.ThreadRemove?
    requires e.ThreadsGone? || e.Shutdown? ==> s.gone == 1
    ensures Inv(Handled(c, s, e)) && Handled(c, s, e).deleted == s.deleted
  {
    var s' := Handled(c, s, e);
    if e.ThreadsGone? {
      PostKeeps(s, s', if e.restarting then Restart else Shutdown);
    } else {
      assert forall x :: Posted(s', x) == Posted(s, x);
    }
  }

  lemma PullOtherKeeps(c: Config, s: State)
    requires Inv(s) && Enabled(c, s, Pull) && !s.queue[0].ThreadRemove?
    ensures Inv(Next(c, s, Pull))
    ensures Next(c, s, Pull).deleted == s.deleted
  {
    assert s.queue[0] in s.queue;
    DropKeeps(s);
    OtherHandled(c, s.(queue := s.queue[1..]), s.queue[0]);
  }

  lemma AddKeeps(c: Config, s: State, step: Step)
    requires Inv(s) && step.Add? && Enabled(c, s, step) && !Hazard(c, s, step)
    ensures Inv(Next(c, s, step))
  {
    var s' := Next(c, s, step);
    assert forall x :: Posted(s', x) == Posted(s, x);
    assert multiset(s.deleted)[step.t] == 0;
    assert step.t !in s.threads;
  }

  lemma {:induction false} OfKindIs(pool: map<Tid, Thread>, threads: seq<Tid>, kind: nat)
    requires Distinct(threads)
    ensures Distinct(OfKind(pool, threads, kind))
    ensures forall x :: x in OfKind(pool, threads, kind) <==>
                        x in threads && x in pool && pool[x].hasWorker && pool[x].kind == kind
  {
    if threads != [] {
      HeadApart(threads);
      OfKindIs(pool, threads[1..], kind);
      ConsDistinct(threads[0], OfKind(pool, threads[1..], kind));
    }
  }

  lemma SelectKeeps(c: Config, s: State)
    requires Inv(s) && Enabled(c, s, Select)
    ensures Inv(Next(c, s, Select))
  {
    var s' := Next(c, s, Select);
    assert forall x :: Posted(s', x) == Posted(s, x);
  }

  lemma PostStepKeeps(c: Config, s: State, e: Event)
    requires Inv(s) && Enabled(c, s, Post(e)) && !Hazard(c, s, Post(e))
    ensures Inv(Next(c, s, Post(e)))
  {
    var s' := Next(c, s, Post(e));
    if e.ThreadRemove? {
      RemovalKeeps(s, s', e.t);
    } else {
      PostKeeps(s, s', e);
    }
  }

  /** A step of one thread, or of its users. */
  predicate ThreadStep(step: Step) {
    step.Start? || step.Terminate? || step.RunTest? || step.LoopExit? || step.DropWorker? || step.ClearReady?
  }

  predicate AppStep(step: Step) {
    || step.Pull? || step.Select? || step.Visit? || step.Join? || step.NextKind?
    || step.Return? || step.Interrupt? || step.TestInterrupted?
  }

  lemma ThreadStepKeeps(c: Config, s: State, step: Step)
    requires Inv(s) && ThreadStep(step) && Enabled(c, s, step) && !Hazard(c, s, step)
    ensures Inv(Next(c, s, step))
  {
    MoveKeeps(s, step.t, Next(c, s, step).pool[step.t]);
  }

  lemma AppStepKeeps(c: Config, s: State, step: Step)
    requires Inv(s) && Enabled(c, s, step) && !Hazard(c, s, step)
    requires AppStep(step)
    ensures Inv(Next(c, s, step))
  {
    var s' := Next(c, s, step);
    match step
    case Pull => PullKeeps(c, s);
    case Select => SelectKeeps(c, s);
    case Visit => VisitKeeps(c, s);
    case Interrupt => PostKeeps(s, s', Shutdown);
    case _ => AppKeeps(s, s');
  }

  lemma PullKeeps(c: Config, s: State)
    requires Inv(s) && Enabled(c, s, Pull)
    ensures Inv(Next(c, s, Pull))
  {
    if s.queue[0].ThreadRemove? {
      PullRemoveKeeps(c, s);
    } else {
      PullOtherKeeps(c, s);
    }
  }

  lemma InvStep(c: Config, s: State, step: Step)
    requires Inv(s) && Enabled(c, s, step) && !Hazard(c, s, step)
    ensures Inv(Next(c, s, step))
  {
    match step
    case Add(_, _, _, _) => AddKeeps(c, s, step);
    case Post(e) => PostStepKeeps(c, s, e);
    case PostRemove(t) => RemovalKeeps(s, Next(c, s, step), t);
    case PostTail(t) => assert false;
    case Tick(_) =>
    case _ =>
      if ThreadStep(step) {
        ThreadStepKeeps(c, s, step);
      } else {
        AppStepKeeps(c, s, step);
      }
  }

  /** Steps that only move the application thread along. */
  lemma AppKeeps(s: State, s': State)
    requires Inv(s) && s' == s.(app := s'.app) && EndOk(s')
    ensures Inv(s')
  {
    assert forall x :: Posted(s', x) == Posted(s, x);
  }

  lemma VisitKeeps(c: Config, s: State)
    requires Inv(s) && Enabled(c, s, Visit) && !Hazard(c, s, Visit)
    ensures Inv(Next(c, s, Visit))
  {
    var s' := Next(c, s, Visit);
    var t := s.app.todo[0];
    if NotStarted(c, s.pool[t]) {
      RemovalKeeps(s, s', t);
    } else {
      assert forall x :: Posted(s', x) == Posted(s, x);
    }
  }

  lemma {:induction false} InvReachable(c: Config, steps: seq<Step>)
    requires Runs(c, steps) && NoHazards(c, steps)
    ensures Inv(After(c, steps))
  {
    if steps != [] {
      InvReachable(c, steps[..|steps| - 1]);
      InvStep(c, After(c, steps[..|steps| - 1]), steps[|steps| - 1]);
    }
  }

  /** Safety: in every run without a hazard no thread is deleted twice, a deleted thread never
      started or has nothing left to do in its run function but to post its removal, the end is
      announced at most once, and `exec` returns 0 only when every thread ever added has been
      deleted. */
  lemma Safety(c: Config, steps: seq<Step>)
    requires Runs(c, steps) && NoHazards(c, steps)
    ensures var s := After(c, steps);
            && Distinct(s.deleted)
            && (forall t :: t in s.deleted ==> t in s.pool && Stopped(s.pool[t].pc))
            && s.gone <= 1
            && (s.app == Returned(0) ==> forall t :: t in s.pool ==> t in s.deleted)
  {
    InvReachable(c, steps);
    var s := After(c, steps);
    forall i, j | 0 <= i < j < |s.deleted| ensures s.deleted[i] != s.deleted[j] {
      if s.deleted[i] == s.deleted[j] {
        Twice(s.deleted, i, j);
        var twice := Posted(s, s.deleted[i]);
      }
    }
    forall t | t in s.deleted ensures t in s.pool && Stopped(s.pool[t].pc) {
      assert Posted(s, t) >= 1;
    }
  }

  /** The steps that post an event. */
  predicate PostingSteps(step: Step) {
    step.Post? || step.PostRemove? || step.PostTail? || step.Interrupt? || step.Visit?
  }

  lemma PostingStep(c: Config, s: State, step: Step, t: Tid)
    requires Enabled(c, s, step) && PostingSteps(step)
    ensures Posted(Next(c, s, step), t) == Posted(s, t) + if PostsRemoval(c, s, step, t) then 1 else 0
  {
    match step
    case Post(e) => QueueGrows(s.queue, e, t);
    case PostRemove(x) => QueueGrows(s.queue, ThreadRemove(x), t);
    case PostTail(x) => QueueGrows(s.queue, ThreadRemove(x), t);
    case Interrupt => QueueGrows(s.queue, Shutdown, t);
    case Visit => VisitPosts(c, s, t);
    case _ =>
  }

  lemma VisitPosts(c: Config, s: State, t: Tid)
    requires Enabled(c, s, Visit)
    ensures Posted(Next(c, s, Visit), t) == Posted(s, t) + if PostsRemoval(c, s, Visit, t) then 1 else 0
  {
    QueueGrows(s.queue, ThreadRemove(s.app.todo[0]), t);
  }

  lemma PostedStep(c: Config, s: State, step: Step, t: Tid)
    requires Inv(s) && Enabled(c, s, step)
    ensures Posted(Next(c, s, step), t) == Posted(s, t) + if PostsRemoval(c, s, step, t) then 1 else 0
  {
    if step.Pull? {
      PulledPostedSame(c, s);
    } else if PostingSteps(step) {
      PostingStep(c, s, step, t);
    } else {
      assert Next(c, s, step).queue == s.queue && Next(c, s, step).deleted == s.deleted;
    }
  }

  /** What the hazards speak of can be read off the run: the removals of a thread, waiting or carried
      out, are as many as the steps that posted one. */
  lemma {:induction false} PostedIsPostings(c: Config, steps: seq<Step>, t: Tid)
    requires Runs(c, steps) && NoHazards(c, steps)
    ensures Posted(After(c, steps), t) == Postings(c, steps, t)
  {
    if steps != [] {
      var before := steps[..|steps| - 1];
      PostedIsPostings(c, before, t);
      InvReachable(c, before);
      PostedStep(c, After(c, before), steps[|steps| - 1], t);
    }
  }

  lemma Twice(d: seq<Tid>, i: nat, j: nat)
    requires i < j < |d| && d[i] == d[j]
    ensures multiset(d)[d[i]] >= 2
  {
    assert d == d[..i] + [d[i]] + d[i + 1..j] + [d[j]] + d[j + 1..];
  }
}
