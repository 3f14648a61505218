/**
 What becomes of a Close event, when the application and its threads are left alone: no call from
 outside, no interruption, and a worker leaves its loop only when it is told to.  However they
 interleave, they come to a stop, but for workers that turn in their loops because nobody tells them
 to leave; and `exec` has returned 0 if and only if there is no such worker and `stop` could reach
 every thread that never started.
*/
module CloseDown {
  import opened Lifecycle
  import opened Stop
  import opened Cascade
  import opened LifecycleLimits

  /** The steps that the threads and the application take by themselves. */
  predicate Alone(s: State, step: Step) {
    || step.RunTest? || step.Tick? || step.DropWorker? || step.ClearReady? || step.PostRemove? || step.PostTail?
    || (step.LoopExit? && step.t in s.pool && !Stays(s.pool[step.t]))
    || step.Pull? || step.Select? || step.Visit? || step.Join? || step.NextKind? || step.Return?
  }

  /** `more` goes on from `steps` by such steps. */
  ghost predicate LeftAlone(c: Config, steps: seq<Step>, more: seq<Step>)
    requires Runs(c, more)
    decreases |more|
  {
    more == steps ||
    (more != [] && LeftAlone(c, steps, more[..|more| - 1]) &&
     Alone(After(c, more[..|more| - 1]), more[|more| - 1]))
  }

  /** Nothing is left to happen but turns of the loops of workers. */
  ghost predicate Stuck(c: Config, s: State) {
    forall step :: Alone(s, step) && Enabled(c, s, step) ==> step.Tick?
  }

  // ---------- it always comes to a stop ----------

  /** What a thread has still to do, its removal included. */
  function Work(th: Thread): nat {
    4 * th.tails +
    match th.pc
    case Created => 0
    case Spawned => 8
    case Looping => 7
    case LeftLoop => 6
    case NoWorker => 5
    case Unready => 4
    case Finished => 0
  }

  function WorkOf(pool: map<Tid, Thread>, ts: seq<Tid>): nat {
    if ts == [] then 0
    else (if ts[0] in pool then Work(pool[ts[0]]) else 0) + WorkOf(pool, ts[1..])
  }

  function Stage(app: App): nat {
    match app
    case Returned(_) => 0
    case Idle => 1
    case Waiting(k, _, _) => 2 * k + 2
    case Selecting(k) => 2 * k + 3
  }

  function Visits(app: App): nat {
    match app
    case Waiting(_, todo, joining) => if joining && todo != [] then 2 * |todo| - 1 else 2 * |todo|
    case _ => 0
  }

  function Closes(s: State): nat {
    multiset(s.queue)[Close]
  }

  function Left(s: State, ts: seq<Tid>): nat {
    Rank(s.queue) + WorkOf(s.pool, ts)
  }

  /** Close events come first, then how far `stop` is, then its visits, then events and threads. */
  predicate Less(s': State, s: State, ts: seq<Tid>) {
    || Closes(s') < Closes(s)
    || (Closes(s') == Closes(s) && Stage(s'.app) < Stage(s.app))
    || (Closes(s') == Closes(s) && Stage(s'.app) == Stage(s.app) && Visits(s'.app) < Visits(s.app))
    || (Closes(s') == Closes(s) && Stage(s'.app) == Stage(s.app) && Visits(s'.app) == Visits(s.app) &&
        Left(s', ts) < Left(s, ts))
  }

  lemma {:induction false} WorkDrops(pool: map<Tid, Thread>, ts: seq<Tid>, t: Tid, th: Thread)
    requires t in pool && Work(th) <= Work(pool[t])
    ensures WorkOf(pool[t := th], ts) <= WorkOf(pool, ts)
    ensures t in ts ==> WorkOf(pool[t := th], ts) + Work(pool[t]) <= WorkOf(pool, ts) + Work(th)
  {
    if ts != [] {
      WorkDrops(pool, ts[1..], t, th);
    }
  }

  lemma RankMore(q: seq<Event>, e: Event)
    ensures Rank(q + [e]) == Rank(q) + Rank([e])
    ensures !e.Close? ==> multiset(q + [e])[Close] == multiset(q)[Close]
  {
    RankAppend(q, [e]);
  }

  lemma ThreadDecreases(c: Config, s: State, step: Step, ts: seq<Tid>)
    requires Alone(s, step) && ThreadStep(step) && Enabled(c, s, step) && step.t in ts
    ensures Less(Next(c, s, step), s, ts)
  {
    WorkDrops(s.pool, ts, step.t, Next(c, s, step).pool[step.t]);
  }

  lemma PostDecreases(c: Config, s: State, step: Step, ts: seq<Tid>)
    requires (step.PostRemove? || step.PostTail?) && Enabled(c, s, step) && step.t in ts
    ensures Less(Next(c, s, step), s, ts)
  {
    WorkDrops(s.pool, ts, step.t, Next(c, s, step).pool[step.t]);
    RankMore(s.queue, ThreadRemove(step.t));
  }

  lemma PullDecreases(c: Config, s: State, ts: seq<Tid>)
    requires Enabled(c, s, Pull)
    ensures Less(Next(c, s, Pull), s, ts)
  {
    CloseCount(c, s);
    PulledFields(c, s);
    HandledRank(c, s.(queue := s.queue[1..]), s.queue[0]);
    assert s.queue == [s.queue[0]] + s.queue[1..];
  }

  lemma StopDecreases(c: Config, s: State, step: Step, ts: seq<Tid>)
    requires step.Select? || step.Visit? || step.Join? || step.NextKind? || step.Return?
    requires Enabled(c, s, step)
    ensures Less(Next(c, s, step), s, ts)
  {
    if step.Visit? {
      RankMore(s.queue, ThreadRemove(s.app.todo[0]));
    }
  }

  lemma KeysStay(c: Config, s: State, step: Step)
    requires Alone(s, step) && Enabled(c, s, step)
    ensures Next(c, s, step).pool.Keys == s.pool.Keys
  {
    if step.Pull? {
      PulledFields(c, s);
    }
  }

  /** Every step taken alone but a turn of a loop, which changes nothing, brings the end nearer; so
      none of these runs takes others for ever. */
  lemma AloneDecreases(c: Config, s: State, step: Step, ts: seq<Tid>)
    requires Alone(s, step) && Enabled(c, s, step) && forall t :: t in s.pool ==> t in ts
    ensures if step.Tick? then Next(c, s, step) == s else Less(Next(c, s, step), s, ts)
    ensures forall t :: t in Next(c, s, step).pool ==> t in ts
  {
    KeysStay(c, s, step);
    if step.Pull? {
      PullDecreases(c, s, ts);
    } else if ThreadStep(step) {
      ThreadDecreases(c, s, step, ts);
    } else if step.PostRemove? || step.PostTail? {
      PostDecreases(c, s, step, ts);
    } else if !step.Tick? {
      StopDecreases(c, s, step, ts);
    }
  }

  lemma {:induction false} Enumerated(keys: set<Tid>) returns (ts: seq<Tid>)
    ensures forall t :: t in keys ==> t in ts
  {
    if keys == {} {
      ts := [];
    } else {
      var t :| t in keys;
      var rest := Enumerated(keys - {t});
      ts := [t] + rest;
    }
  }

  lemma ExtendAlone(c: Config, steps: seq<Step>, so: seq<Step>, step: Step) returns (next: seq<Step>)
    requires Runs(c, so) && LeftAlone(c, steps, so)
    requires Alone(After(c, so), step) && Enabled(c, After(c, so), step)
    ensures Runs(c, next) && LeftAlone(c, steps, next) && After(c, next) == Next(c, After(c, so), step)
  {
    next := so + [step];
    Extend(c, so, step);
    assert next[..|so|] == so;
  }

  lemma {:induction false} GoesOn(c: Config, steps: seq<Step>, so: seq<Step>, ts: seq<Tid>) returns (more: seq<Step>)
    requires Runs(c, so) && LeftAlone(c, steps, so) && forall t :: t in After(c, so).pool ==> t in ts
    ensures Runs(c, more) && LeftAlone(c, steps, more) && Stuck(c, After(c, more))
    decreases Closes(After(c, so)), Stage(After(c, so).app), Visits(After(c, so).app), Left(After(c, so), ts)
  {
    var s := After(c, so);
    if Stuck(c, s) {
      more := so;
    } else {
      var step :| Alone(s, step) && Enabled(c, s, step) && !step.Tick?;
      var next := ExtendAlone(c, steps, so, step);
      AloneDecreases(c, s, step, ts);
      more := GoesOn(c, steps, next, ts);
    }
  }

  /** Every run, left alone, comes to where nothing is left but turns of loops. */
  lemma ComesToAStop(c: Config, steps: seq<Step>) returns (more: seq<Step>)
    requires Runs(c, steps)
    ensures Runs(c, more) && LeftAlone(c, steps, more) && Stuck(c, After(c, more))
  {
    var ts := Enumerated(After(c, steps).pool.Keys);
    more := GoesOn(c, steps, steps, ts);
  }

  // ---------- what holds on the way ----------

  /** Of a type that `stop` visits. */
  predicate InRange(c: Config, th: Thread) {
    c.first < th.kind <= c.last
  }

  /** Within reach of `stop`: it has a worker, of one of the types visited. */
  predicate InReach(c: Config, th: Thread) {
    th.hasWorker && InRange(c, th)
  }

  /** The end is on its way once it is announced, and it is announced with the last removal. */
  ghost predicate EndQueued(s: State) {
    && (s.gone > 0 ==> s.deleted != [] && (s.terminated || Shutdown in s.queue || ThreadsGone(false) in s.queue))
    && (s.threads == [] && s.deleted != [] ==> s.gone > 0)
  }

  lemma EndQueuedPull(c: Config, s: State)
    requires Inv(s) && EndQueued(s) && Enabled(c, s, Pull)
    ensures EndQueued(Next(c, s, Pull))
  {
    var e, tail, s' := s.queue[0], s.queue[1..], Next(c, s, Pull);
    assert s.queue == [e] + tail;
    match e
    case ThreadRemove(t) =>
      PulledRemoval(s);
      assert s'.deleted == s.deleted + [t];
      assert s'.threads == [] ==> s'.queue == tail + [ThreadsGone(false)];
    case ThreadsGone(restarting) =>
      assert s'.queue == tail + [if restarting then Restart else Shutdown];
    case _ =>
  }

  lemma EndQueuedStep(c: Config, s: State, step: Step)
    requires Inv(s) && EndQueued(s) && Enabled(c, s, step)
    ensures EndQueued(Next(c, s, step))
  {
    if step.Pull? {
      EndQueuedPull(c, s);
    } else {
      var s' := Next(c, s, step);
      assert forall e :: e in s.queue ==> e in s'.queue;
    }
  }

  lemma {:induction false} EndQueuedReachable(c: Config, steps: seq<Step>)
    requires Runs(c, steps) && NoHazards(c, steps)
    ensures EndQueued(After(c, steps))
  {
    if steps != [] {
      var before := steps[..|steps| - 1];
      EndQueuedReachable(c, before);
      InvReachable(c, before);
      EndQueuedStep(c, After(c, before), steps[|steps| - 1]);
    }
  }

  /** `stop` posts the removal of the threads that never started, when it passes them by, if they are
      within its reach, and of no others. */
  ghost predicate Swept(c: Config, s: State) {
    forall t :: t in s.pool && s.pool[t].pc.Created? ==>
      (Posted(s, t) > 0 <==> s.stopping && PassedBy(s, t) && InReach(c, s.pool[t]))
  }

  /** `stop` is at one of the types visited, and joins only threads that were started. */
  ghost predicate AtType(c: Config, s: State) {
    match s.app
    case Selecting(k) => k <= c.last
    case Waiting(k, todo, joining) =>
      && c.first < k <= c.last
      && (forall t :: t in todo && t in s.pool && s.pool[t].pc.Created? ==> s.pool[t].hasWorker)
      && (joining ==> todo != [] && todo[0] in s.pool && !s.pool[todo[0]].pc.Created?)
    case _ => true
  }

  /** A thread up to its leaving the loop: `m_deleting` is not set, and once started it has a worker. */
  predicate BeforeLeaving(th: Thread) {
    && (th.pc.Created? || !Quiet(th.pc) ==> !th.deleting)
    && (!Quiet(th.pc) ==> th.hasWorker)
  }

  ghost predicate Runners(s: State) {
    forall t :: t in s.pool ==> BeforeLeaving(s.pool[t])
  }

  lemma RunnersSelect(c: Config, s: State)
    requires Runners(s) && Enabled(c, s, Select)
    ensures Runners(Next(c, s, Select))
  {
    var s' := Next(c, s, Select);
    forall t | t in s'.pool ensures BeforeLeaving(s'.pool[t]) {
      assert BeforeLeaving(s.pool[t]);
    }
  }

  lemma RunnerMoves(c: Config, s: State, step: Step) returns (th: Thread)
    requires ThreadsOk(s) && Runners(s) && Enabled(c, s, step) && Disciplined(s, step)
    requires ThreadStep(step) || step.Add? || step.PostRemove? || step.PostTail?
    ensures Next(c, s, step).pool == s.pool[step.t := th] && BeforeLeaving(th)
  {
    assert step.t in s.pool ==> BeforeLeaving(s.pool[step.t]);
    th := Next(c, s, step).pool[step.t];
  }

  lemma RunnersWith(s: State, t: Tid, th: Thread)
    requires Runners(s) && BeforeLeaving(th)
    ensures Runners(With(s, t, th))
  {}

  lemma RunnersStep(c: Config, s: State, step: Step)
    requires ThreadsOk(s) && Runners(s) && Enabled(c, s, step) && Disciplined(s, step)
    ensures Runners(Next(c, s, step))
  {
    if step.Pull? {
      PulledFields(c, s);
    } else if step.Select? {
      RunnersSelect(c, s);
    } else if ThreadStep(step) || step.Add? || step.PostRemove? || step.PostTail? {
      var th := RunnerMoves(c, s, step);
      RunnersWith(s, step.t, th);
    } else {
      assert Next(c, s, step).pool == s.pool;
    }
  }

  lemma {:induction false} RunnersReachable(c: Config, steps: seq<Step>)
    requires Runs(c, steps) && AllDisciplined(c, steps) && VisitsClean(c, steps)
    ensures Runners(After(c, steps))
  {
    if steps != [] {
      var before := steps[..|steps| - 1];
      RunnersReachable(c, before);
      DisciplineReachable(c, before);
      RunnersStep(c, After(c, before), steps[|steps| - 1]);
    }
  }

  /** `stop` is at the type of a thread, or past it. */
  predicate Reached(app: App, th: Thread) {
    match app
    case Selecting(k) => th.kind > k
    case Waiting(k, _, _) => th.kind >= k
    case _ => true
  }

  /** `stop` has told the running threads to leave whose type it visits and has reached. */
  ghost predicate Told(c: Config, s: State) {
    s.stopping ==>
      forall t :: t in s.pool && !Quiet(s.pool[t].pc) && InRange(c, s.pool[t]) && Reached(s.app, s.pool[t]) ==>
                    s.pool[t].terminated
  }

  ghost predicate ClosingInv(c: Config, s: State) {
    && DisciplineInv(s) && EndQueued(s) && Swept(c, s) && AtType(c, s) && Runners(s) && Told(c, s)
    && s.closes == 1 && (s.app.Returned? ==> s.app == Returned(0) && s.gone > 0)
  }

  lemma SelectedIf(c: Config, s: State, t: Tid)
    requires ClosingInv(c, s) && Enabled(c, s, Select) && t in s.pool
    ensures var th, th' := s.pool[t], Next(c, s, Select).pool[t];
            if s.app.kind > c.first && t in s.threads && th.hasWorker && th.kind == s.app.kind
            then th' == th.(terminated := true) else th' == th
    ensures !Quiet(s.pool[t].pc) ==> t in s.threads
  {
    OfKindIs(s.pool, s.threads, s.app.kind);
    if t in s.deleted {
      assert Posted(s, t) == 1;
    }
  }

  lemma ToldSelect(c: Config, s: State)
    requires ClosingInv(c, s) && Enabled(c, s, Select)
    ensures Told(c, Next(c, s, Select)) && Runners(Next(c, s, Select))
  {
    var s' := Next(c, s, Select);
    forall t | t in s.pool
      ensures s'.pool[t] == s.pool[t] || s'.pool[t] == s.pool[t].(terminated := true)
      ensures !Quiet(s.pool[t].pc) && s.app.kind > c.first && s.pool[t].kind == s.app.kind ==> s'.pool[t].terminated
    {
      SelectedIf(c, s, t);
    }
  }

  lemma ToldPull(c: Config, s: State)
    requires ClosingInv(c, s) && Enabled(c, s, Pull)
    ensures Told(c, Next(c, s, Pull)) && Runners(Next(c, s, Pull))
  {
    PulledFields(c, s);
    CloseCount(c, s);
  }

  /** A thread that moves along by itself: it leaves its loop only when told to. */
  lemma MovesAlone(c: Config, s: State, step: Step)
    requires ClosingInv(c, s) && Alone(s, step) && Enabled(c, s, step)
    requires ThreadStep(step) || step.PostRemove? || step.PostTail?
    ensures step.t in s.pool
    ensures var s', th := Next(c, s, step), s.pool[step.t];
            var th' := s'.pool[step.t];
            && s'.pool == s.pool[step.t := th'] && s'.app == s.app && s'.stopping == s.stopping
            && th'.kind == th.kind && (th'.pc.Created? <==> th.pc.Created?)
            && (th.pc.Created? ==> th'.hasWorker == th.hasWorker)
            && (!Quiet(th'.pc) ==> !Quiet(th.pc) && th'.hasWorker && !th'.deleting && th'.terminated == th.terminated)
            && (!Quiet(th.pc) && !th.terminated ==> !Quiet(th'.pc))
  {}

  lemma ToldMoves(c: Config, s: State, step: Step)
    requires ClosingInv(c, s) && Alone(s, step) && Enabled(c, s, step)
    requires ThreadStep(step) || step.PostRemove? || step.PostTail?
    ensures Told(c, Next(c, s, step)) && Runners(Next(c, s, step))
  {
    MovesAlone(c, s, step);
  }

  lemma ToldElse(c: Config, s: State, step: Step)
    requires ClosingInv(c, s) && Enabled(c, s, step)
    requires step.Tick? || step.Visit? || step.Join? || step.NextKind? || step.Return?
    ensures Told(c, Next(c, s, step)) && Runners(Next(c, s, step))
  {
    var s' := Next(c, s, step);
    assert s'.pool == s.pool && s'.stopping == s.stopping;
    assert forall th :: Reached(s'.app, th) ==> Reached(s.app, th);
  }

  lemma ToldStep(c: Config, s: State, step: Step)
    requires ClosingInv(c, s) && Alone(s, step) && Enabled(c, s, step)
    ensures Told(c, Next(c, s, step)) && Runners(Next(c, s, step))
  {
    if step.Pull? {
      ToldPull(c, s);
    } else if step.Select? {
      ToldSelect(c, s);
    } else if ThreadStep(step) || step.PostRemove? || step.PostTail? {
      ToldMoves(c, s, step);
    } else {
      ToldElse(c, s, step);
    }
  }

  /** A step of threads, which leaves the unstarted ones and their removals alone. */
  lemma SweptSame(c: Config, s: State, s': State)
    requires Swept(c, s) && AtType(c, s) && s'.app == s.app && s'.stopping == s.stopping
    requires s'.pool.Keys == s.pool.Keys
    requires forall t :: t in s.pool ==>
               if s.pool[t].pc.Created? then s'.pool[t] == s.pool[t] && Posted(s', t) == Posted(s, t)
               else !s'.pool[t].pc.Created?
    ensures Swept(c, s') && AtType(c, s')
  {}

  lemma ThreadSwept(c: Config, s: State, step: Step)
    requires ClosingInv(c, s) && Alone(s, step) && ThreadStep(step) && Enabled(c, s, step)
    ensures Swept(c, Next(c, s, step)) && AtType(c, Next(c, s, step))
  {
    var s' := Next(c, s, step);
    assert forall t :: Posted(s', t) == Posted(s, t);
    SweptSame(c, s, s');
  }

  lemma PostSwept(c: Config, s: State, t: Tid)
    requires ClosingInv(c, s) && Enabled(c, s, PostRemove(t))
    ensures Swept(c, Next(c, s, PostRemove(t))) && AtType(c, Next(c, s, PostRemove(t)))
  {
    var s' := Next(c, s, PostRemove(t));
    forall x ensures Posted(s', x) == Posted(s, x) + if x == t then 1 else 0 {
      QueueGrows(s.queue, ThreadRemove(t), x);
    }
    SweptSame(c, s, s');
  }

  lemma PullSwept(c: Config, s: State)
    requires ClosingInv(c, s) && Enabled(c, s, Pull)
    ensures Swept(c, Next(c, s, Pull)) && AtType(c, Next(c, s, Pull))
  {
    PulledFields(c, s);
    PulledPostedSame(c, s);
    CloseCount(c, s);
  }

  lemma SelectSwept(c: Config, s: State)
    requires ClosingInv(c, s) && Enabled(c, s, Select)
    ensures Swept(c, Next(c, s, Select)) && AtType(c, Next(c, s, Select))
  {
    var s' := Next(c, s, Select);
    OfKindIs(s.pool, s.threads, s.app.kind);
    assert forall t :: Posted(s', t) == Posted(s, t);
  }

  lemma VisitAtType(c: Config, s: State)
    requires c.intended && ClosingInv(c, s) && Enabled(c, s, Visit)
    ensures AtType(c, Next(c, s, Visit))
  {
    TodoShrinks(s);
    assert s.app.todo[0] in s.app.todo;
  }

  lemma VisitSwept(c: Config, s: State)
    requires c.intended && ClosingInv(c, s) && Enabled(c, s, Visit)
    ensures Swept(c, Next(c, s, Visit)) && AtType(c, Next(c, s, Visit))
  {
    VisitAtType(c, s);
    var s', t := Next(c, s, Visit), s.app.todo[0];
    TodoShrinks(s);
    forall x ensures Posted(s', x) == Posted(s, x) + if PostsRemoval(c, s, Visit, x) then 1 else 0 {
      PostedStep(c, s, Visit, x);
    }
    assert t in s.app.todo;
  }

  lemma MoveSwept(c: Config, s: State, step: Step)
    requires ClosingInv(c, s) && (step.Join? || step.NextKind? || step.Return?) && Enabled(c, s, step)
    ensures Swept(c, Next(c, s, step)) && AtType(c, Next(c, s, step))
  {
    var s' := Next(c, s, step);
    if step.Join? {
      TodoShrinks(s);
    }
    assert forall t :: Posted(s', t) == Posted(s, t);
  }

  lemma ClosingStep(c: Config, s: State, step: Step)
    requires c.intended && ClosingInv(c, s) && Alone(s, step) && Enabled(c, s, step)
    ensures ClosingInv(c, Next(c, s, step))
  {
    DisciplineStep(c, s, step);
    EndQueuedStep(c, s, step);
    ToldStep(c, s, step);
    SweptStep(c, s, step);
    if step.Pull? {
      PulledFields(c, s);
    }
  }

  lemma SweptStep(c: Config, s: State, step: Step)
    requires c.intended && ClosingInv(c, s) && Alone(s, step) && Enabled(c, s, step)
    ensures Swept(c, Next(c, s, step)) && AtType(c, Next(c, s, step))
  {
    if step.Pull? {
      PullSwept(c, s);
    } else if step.Select? {
      SelectSwept(c, s);
    } else if step.Visit? {
      VisitSwept(c, s);
    } else if step.Join? || step.NextKind? || step.Return? {
      MoveSwept(c, s, step);
    } else if step.PostRemove? {
      PostSwept(c, s, step.t);
    } else if ThreadStep(step) {
      ThreadSwept(c, s, step);
    }
  }

  /** A thread that never started, or runs and was not told to leave, and that `stop` cannot reach. */
  predicate Stray(c: Config, th: Thread) {
    (th.pc.Created? || (!Quiet(th.pc) && !th.terminated)) && !InReach(c, th)
  }

  /** The same threads are strays. */
  ghost predicate SameStrays(c: Config, s: State, s': State) {
    s'.pool.Keys == s.pool.Keys && forall t :: t in s.pool ==> (Stray(c, s'.pool[t]) <==> Stray(c, s.pool[t]))
  }

  lemma StraysSelect(c: Config, s: State)
    requires ClosingInv(c, s) && Enabled(c, s, Select)
    ensures SameStrays(c, s, Next(c, s, Select))
  {
    var s' := Next(c, s, Select);
    forall t | t in s.pool ensures Stray(c, s'.pool[t]) <==> Stray(c, s.pool[t]) {
      SelectedIf(c, s, t);
    }
  }

  lemma StraysMove(c: Config, s: State, step: Step)
    requires ClosingInv(c, s) && Alone(s, step) && Enabled(c, s, step)
    requires ThreadStep(step) || step.PostRemove? || step.PostTail?
    ensures SameStrays(c, s, Next(c, s, step))
  {
    MovesAlone(c, s, step);
    assert BeforeLeaving(s.pool[step.t]);
    assert Stray(c, Next(c, s, step).pool[step.t]) <==> Stray(c, s.pool[step.t]);
  }

  lemma StraysStay(c: Config, s: State, step: Step)
    requires ClosingInv(c, s) && Alone(s, step) && Enabled(c, s, step)
    ensures SameStrays(c, s, Next(c, s, step))
  {
    if step.Select? {
      StraysSelect(c, s);
    } else if ThreadStep(step) || step.PostRemove? || step.PostTail? {
      StraysMove(c, s, step);
    } else if step.Pull? {
      PulledFields(c, s);
    } else {
      assert Next(c, s, step).pool == s.pool;
    }
  }

  lemma {:induction false} ClosingReachable(c: Config, steps: seq<Step>, more: seq<Step>)
    requires c.intended && Runs(c, steps) && ClosingInv(c, After(c, steps))
    requires Runs(c, more) && LeftAlone(c, steps, more)
    ensures ClosingInv(c, After(c, more)) && SameStrays(c, After(c, steps), After(c, more))
    decreases |more|
  {
    if more != steps {
      var before, step := more[..|more| - 1], more[|more| - 1];
      ClosingReachable(c, steps, before);
      ClosingStep(c, After(c, before), step);
      StraysStay(c, After(c, before), step);
    }
  }

  // ---------- where it stops ----------

  lemma StuckThreads(c: Config, s: State)
    requires Stuck(c, s)
    ensures forall t :: t in s.pool ==>
              var th := s.pool[t]; th.pc.Created? || th.pc.Finished? || (th.pc.Looping? && Stays(th))
  {
    forall t | t in s.pool
      ensures var th := s.pool[t]; th.pc.Created? || th.pc.Finished? || (th.pc.Looping? && Stays(th))
    {
      assert !Enabled(c, s, RunTest(t)) && !Enabled(c, s, DropWorker(t)) && !Enabled(c, s, ClearReady(t));
      assert !Enabled(c, s, PostRemove(t)) && (Alone(s, LoopExit(t)) ==> !Enabled(c, s, LoopExit(t)));
    }
  }

  /** As long as every thread is over, never started or turns in its loop, `stop` can go on: it waits
      for none that it did not tell to leave. */
  lemma StopMoves(c: Config, s: State) returns (step: Step)
    requires OneStop(s) && AtType(c, s) && Told(c, s) && (s.app.Selecting? || s.app.Waiting?)
    requires forall t :: t in s.pool ==>
               var th := s.pool[t]; th.pc.Created? || th.pc.Finished? || (th.pc.Looping? && Stays(th))
    ensures (step.Select? || step.NextKind? || step.Visit? || step.Join?) && Enabled(c, s, step)
  {
    if s.app.Selecting? {
      step := Select;
    } else if s.app.todo == [] {
      step := NextKind;
    } else {
      assert s.app.todo[0] in s.app.todo;
      step := if s.app.joining then Join else Visit;
    }
  }

  lemma StuckInStop(c: Config, s: State)
    requires OneStop(s) && AtType(c, s) && Told(c, s) && Stuck(c, s)
    ensures !s.app.Selecting? && !s.app.Waiting?
  {
    StuckThreads(c, s);
    if s.app.Selecting? || s.app.Waiting? {
      var step := StopMoves(c, s);
    }
  }

  lemma StuckApp(c: Config, s: State)
    requires ClosingInv(c, s) && Stuck(c, s)
    ensures s.app == Returned(0) || (s.app.Idle? && !s.terminated && s.queue == [])
  {
    StuckInStop(c, s);
    assert !Enabled(c, s, Pull) && !Enabled(c, s, Return);
    if s.queue != [] && s.queue[0].ThreadRemove? {
      assert s.queue[0] in s.queue;
      assert Posted(s, s.queue[0].t) > 0;
    }
  }

  /** Some thread was ever added, and none is a stray. */
  ghost predicate Completes(c: Config, s: State) {
    s.pool != map[] && forall t :: t in s.pool ==> !Stray(c, s.pool[t])
  }

  /** Once `exec` has returned, every thread is deleted, and none is a stray. */
  lemma ReturnedClean(c: Config, s: State)
    requires ClosingInv(c, s) && s.app == Returned(0)
    ensures Completes(c, s) && forall t :: t in s.pool ==> t in s.deleted
  {
    forall t | t in s.pool ensures t in s.deleted && !Stray(c, s.pool[t]) {
      assert t in s.deleted;
      assert Posted(s, t) == 1;
    }
    var t := s.deleted[0];
    assert t in s.deleted && Posted(s, t) == 1;
  }

  /** When nothing is left but turns of loops, every thread is over, never started, or turns in its
      loop because `stop` does not visit its type; and the application has returned 0 or waits for an
      event. */
  lemma StuckWhere(c: Config, s: State)
    requires c.intended && ClosingInv(c, s) && Stuck(c, s)
    ensures forall t :: t in s.pool ==>
              var th := s.pool[t];
              th.pc.Created? || th.pc.Finished? || (th.pc.Looping? && !th.terminated && !InRange(c, th))
    ensures s.app == Returned(0) || (s.app.Idle? && !s.terminated && s.queue == [])
  {
    StuckThreads(c, s);
    StuckApp(c, s);
    if s.app == Returned(0) {
      ReturnedClean(c, s);
      forall t | t in s.pool ensures !s.pool[t].pc.Looping? {
        assert Posted(s, t) == 1;
      }
    }
  }

  lemma StuckReturned(c: Config, s: State)
    requires c.intended && ClosingInv(c, s) && Stuck(c, s)
    ensures s.app == Returned(0) <==> Completes(c, s)
    ensures s.app == Returned(0) ==> forall t :: t in s.deleted <==> t in s.pool
  {
    StuckWhere(c, s);
    forall t | t in s.deleted ensures t in s.pool {
      assert Posted(s, t) > 0;
    }
    if s.app == Returned(0) {
      ReturnedClean(c, s);
    } else if Completes(c, s) {
      forall t | t in s.pool ensures t in s.deleted {
        assert !Stray(c, s.pool[t]);
        assert Posted(s, t) > 0;
      }
      NoneLeft(s);
    }
  }

  lemma NoneLeft(s: State)
    requires Inv(s) && EndQueued(s) && s.pool != map[] && !s.terminated
    requires forall t :: t in s.pool ==> t in s.deleted
    ensures s.queue != []
  {
    var t :| t in s.pool;
    assert t in s.deleted;
    assert forall x :: x !in s.threads;
    HasMember(s.threads);
  }

  /** A disciplined run with the test meant in `stop` and Close in the queue. */
  ghost predicate CloseQueued(c: Config, steps: seq<Step>)
    requires Runs(c, steps)
  {
    c.intended && AllDisciplined(c, steps) && After(c, steps).app.Idle? && Close in After(c, steps).queue
  }

  lemma CloseBegins(c: Config, steps: seq<Step>)
    requires Runs(c, steps) && CloseQueued(c, steps)
    ensures ClosingInv(c, After(c, steps))
  {
    IntendedClean(c, steps);
    DisciplineReachable(c, steps);
    EndQueuedReachable(c, steps);
    RunnersReachable(c, steps);
    assert Closes(After(c, steps)) >= 1;
  }

  /** What becomes of Close.  From a state that a disciplined run has reached, with the test meant in
      `stop` and Close in the queue, take any run left alone until nothing is left but turns of loops.
      It has returned 0 if and only if some thread was ever added and `stop` can reach every one that
      never started or runs untold; and then it has deleted each thread ever added, exactly once. */
  lemma CloseCompletes(c: Config, steps: seq<Step>, more: seq<Step>)
    requires Runs(c, steps) && CloseQueued(c, steps)
    requires Runs(c, more) && LeftAlone(c, steps, more) && Stuck(c, After(c, more))
    ensures After(c, more).app == Returned(0) <==> Completes(c, After(c, steps))
    ensures var s := After(c, more);
            s.app == Returned(0) ==> Distinct(s.deleted) && forall t :: t in s.deleted <==> t in s.pool
  {
    var s, s' := After(c, steps), After(c, more);
    CloseBegins(c, steps);
    ClosingReachable(c, steps, more);
    StuckReturned(c, s');
    SameCompletes(c, s, s');
    AllOnce(s'.deleted) by {
      forall t ensures multiset(s'.deleted)[t] <= 1 {
        assert Posted(s', t) <= 1;
      }
    }
  }

  lemma SameCompletes(c: Config, s: State, s': State)
    requires SameStrays(c, s, s')
    ensures Completes(c, s) <==> Completes(c, s')
  {
    assert s.pool == map[] <==> s.pool.Keys == {};
    assert s'.pool == map[] <==> s'.pool.Keys == {};
  }

  /** Otherwise `exec` is never over, however long it is left alone. */
  lemma NeverReturns(c: Config, steps: seq<Step>, more: seq<Step>)
    requires Runs(c, steps) && CloseQueued(c, steps) && !Completes(c, After(c, steps))
    requires Runs(c, more) && LeftAlone(c, steps, more)
    ensures !After(c, more).app.Returned?
  {
    CloseBegins(c, steps);
    ClosingReachable(c, steps, more);
    SameCompletes(c, After(c, steps), After(c, more));
    if After(c, more).app.Returned? {
      ReturnedClean(c, After(c, more));
    }
  }

  lemma ExtendDisciplined(c: Config, steps: seq<Step>, step: Step)
    requires Runs(c, steps) && AllDisciplined(c, steps)
    requires Enabled(c, After(c, steps), step) && Disciplined(After(c, steps), step)
    ensures Runs(c, steps + [step]) && After(c, steps + [step]) == Next(c, After(c, steps), step)
    ensures AllDisciplined(c, steps + [step])
  {
    Extend(c, steps, step);
    assert (steps + [step])[..|steps|] == steps;
  }

  /** A started thread of the lowest type, which `stop` does not visit. */
  const UNTOLD := [Add(T, 0, true, true), RunTest(T), Post(Close)]

  /** Nobody tells it to leave, and `exec` is never over. */
  lemma NobodyTells(more: seq<Step>)
    requires Runs(INTENDED, more)
    ensures Runs(INTENDED, UNTOLD) && AllDisciplined(INTENDED, UNTOLD)
    ensures LeftAlone(INTENDED, UNTOLD, more) ==> !After(INTENDED, more).app.Returned?
  {
    var c := INTENDED;
    ExtendDisciplined(c, [], Add(T, 0, true, true));
    var added := [] + [Add(T, 0, true, true)];
    ExtendDisciplined(c, added, RunTest(T));
    ExtendDisciplined(c, added + [RunTest(T)], Post(Close));
    assert added + [RunTest(T)] + [Post(Close)] == UNTOLD;
    if LeftAlone(c, UNTOLD, more) {
      assert Stray(c, After(c, UNTOLD).pool[T]);
      NeverReturns(c, UNTOLD, more);
    }
  }
}
