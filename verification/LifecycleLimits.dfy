/**
 Where the lifecycle goes wrong.  The hazards are exactly the steps that break the invariant, and
 short runs show that each rule of `Stop.Disciplined`, and the reading of the test in `stop`, is
 needed.
*/
module LifecycleLimits {
  import opened Lifecycle

  // ---------- hazards are exact ----------

  lemma AddBreaks(c: Config, s: State, step: Step)
    requires Inv(s) && step.Add? && Enabled(c, s, step) && Hazard(c, s, step)
    ensures !Inv(Next(c, s, step))
  {
    assert Next(c, s, step).threads[|s.threads|] == step.t;
  }

  lemma StartBreaks(c: Config, s: State, step: Step)
    requires Inv(s) && step.Start? && Enabled(c, s, step) && Hazard(c, s, step)
    ensures !Inv(Next(c, s, step))
  {
    var t, s' := step.t, Next(c, s, step);
    assert Posted(s', t) == Posted(s, t);
    assert s.pool[t].pc.Unready? ==> s'.pool[t].tails == 1;
  }

  lemma RepostBreaks(c: Config, s: State, step: Step)
    requires Inv(s) && (step.PostRemove? || step.Visit?) && Enabled(c, s, step) && Hazard(c, s, step)
    ensures !Inv(Next(c, s, step))
  {
    var t := if step.PostRemove? then step.t else s.app.todo[0];
    QueueGrows(s.queue, ThreadRemove(t), t);
    assert Posted(Next(c, s, step), t) == Posted(s, t) + 1;
  }

  lemma UntimelyBreaks(c: Config, s: State, e: Event)
    requires Inv(s) && Enabled(c, s, Post(e)) && Untimely(s, e)
    ensures !Inv(Next(c, s, Post(e)))
  {
    var s' := Next(c, s, Post(e));
    if e.ThreadRemove? {
      PostingStep(c, s, Post(e), e.t);
      assert Posted(s', e.t) == Posted(s, e.t) + 1;
    } else {
      assert s'.queue[|s.queue|] == e;
      assert e.ThreadsGone? ==> e == ThreadsGone(e.restarting);
    }
  }

  /** A step keeps the invariant if and only if it is no hazard. */
  lemma HazardExactly(c: Config, s: State, step: Step)
    requires Inv(s) && Enabled(c, s, step)
    ensures Inv(Next(c, s, step)) <==> !Hazard(c, s, step)
  {
    if !Hazard(c, s, step) {
      InvStep(c, s, step);
    } else if step.Add? {
      AddBreaks(c, s, step);
    } else if step.Start? {
      StartBreaks(c, s, step);
    } else if step.Post? {
      UntimelyBreaks(c, s, step.e);
    } else if !step.TestInterrupted? {
      RepostBreaks(c, s, step);
    }
  }

  /** A step at fault, going by what the run did before it: it posts the removal of a thread that a
      step posted before, starts such a thread or one that is about to post its own, adds a thread
      after the end was announced or reached, posts an event too early, or finds an interruption at
      the loop test with threads left. */
  ghost predicate AtFault(c: Config, steps: seq<Step>, step: Step)
    requires Runs(c, steps)
  {
    var s := After(c, steps);
    || (exists t :: PostsRemoval(c, s, step, t) && Postings(c, steps, t) > 0)
    || (step.Start? && (Postings(c, steps, step.t) > 0 || (step.t in s.pool && s.pool[step.t].pc.Unready?)))
    || (step.Add? && (s.gone > 0 || s.app == Returned(0)))
    || (step.Post? && Early(s, step.e))
    || (step.TestInterrupted? && s.threads != [])
  }

  ghost predicate NoFaults(c: Config, steps: seq<Step>)
    requires Runs(c, steps)
  {
    steps == [] ||
    (NoFaults(c, steps[..|steps| - 1]) && !AtFault(c, steps[..|steps| - 1], steps[|steps| - 1]))
  }

  /** After a run without a hazard the faults are the hazards. */
  lemma FaultIsHazard(c: Config, steps: seq<Step>, step: Step)
    requires Runs(c, steps) && NoHazards(c, steps) && Enabled(c, After(c, steps), step)
    ensures AtFault(c, steps, step) <==> Hazard(c, After(c, steps), step)
  {
    var s := After(c, steps);
    forall t ensures Posted(s, t) == Postings(c, steps, t) {
      PostedIsPostings(c, steps, t);
    }
    if step.PostRemove? || step.PostTail? || (step.Post? && step.e.ThreadRemove?) {
      var t := if step.Post? then step.e.t else step.t;
      assert PostsRemoval(c, s, step, t);
    } else if step.Visit? && NotStarted(c, s.pool[s.app.todo[0]]) {
      assert PostsRemoval(c, s, step, s.app.todo[0]);
    }
  }

  ghost predicate InvThroughout(c: Config, steps: seq<Step>)
    requires Runs(c, steps)
  {
    Inv(After(c, steps)) && (steps == [] || InvThroughout(c, steps[..|steps| - 1]))
  }

  /** A run keeps the invariant throughout if and only if no step is at fault, which is to be without
      a hazard. */
  lemma {:induction false} NoHazardsExactly(c: Config, steps: seq<Step>)
    requires Runs(c, steps)
    ensures InvThroughout(c, steps) <==> NoHazards(c, steps)
    ensures NoHazards(c, steps) <==> NoFaults(c, steps)
  {
    if steps != [] {
      var before, step := steps[..|steps| - 1], steps[|steps| - 1];
      NoHazardsExactly(c, before);
      if NoHazards(c, before) {
        InvReachable(c, before);
        HazardExactly(c, After(c, before), step);
        FaultIsHazard(c, before, step);
      }
    }
  }

  // ---------- runs ----------

  lemma Go(c: Config, run: seq<Step>, s: State, step: Step) returns (run': seq<Step>, s': State)
    requires Runs(c, run) && After(c, run) == s && Enabled(c, s, step)
    ensures run' == run + [step] && Runs(c, run') && s' == After(c, run') == Next(c, s, step)
    ensures NoHazards(c, run) && !Hazard(c, s, step) ==> NoHazards(c, run')
  {
    ExtendSafely(c, run, step);
    run', s' := run + [step], Next(c, s, step);
  }

  const T: Tid := 7
  const INTENDED := Config(0, 1, true)
  const AS_WRITTEN := Config(0, 1, false)

  /** Handling Close up to the first visit, when `T` is the only thread. */
  const CLOSING := [Pull, Select]
  /** The rest of `stop` after its only visit. */
  const CLOSED := [NextKind, Select]

  lemma Closing(c: Config, run: seq<Step>, s: State) returns (s': State)
    requires c.first == 0 && c.last == 1 && Runs(c, run) && After(c, run) == s
    requires s.app.Idle? && !s.terminated && s.queue != [] && s.queue[0].Close? && s.threads == [T]
    requires T in s.pool && s.pool[T].hasWorker && s.pool[T].kind == 1
    ensures Runs(c, run + CLOSING) && After(c, run + CLOSING) == s'
    ensures NoHazards(c, run) ==> NoHazards(c, run + CLOSING)
    ensures s' == s.(pool := s.pool[T := s.pool[T].(terminated := true)], queue := s.queue[1..],
                     app := Waiting(1, [T], false), stopping := true, selected := {T})
  {
    var r, s1 := Go(c, run, s, Pull);
    r, s' := Go(c, r, s1, Select);
    assert r == run + CLOSING;
    assert OfKind(s.pool, [T], 1) == [T];
    assert s'.pool == s.pool[T := s.pool[T].(terminated := true)];
    assert s'.selected == {T};
  }

  lemma Closed(c: Config, run: seq<Step>, s: State) returns (s': State)
    requires c.first == 0 && Runs(c, run) && After(c, run) == s && s.app == Waiting(1, [], false)
    ensures Runs(c, run + CLOSED) && After(c, run + CLOSED) == s' == s.(app := Idle)
    ensures NoHazards(c, run) ==> NoHazards(c, run + CLOSED)
  {
    var r, s1 := Go(c, run, s, NextKind);
    r, s' := Go(c, r, s1, Select);
    assert r == run + CLOSED;
  }

  /** The whole of `stop` for a thread that never started. */
  lemma ClosedUnstarted(c: Config, run: seq<Step>, s: State) returns (s': State)
    requires c == INTENDED && Runs(c, run) && After(c, run) == s
    requires s.app.Idle? && !s.terminated && s.queue != [] && s.queue[0].Close? && s.threads == [T]
    requires T in s.pool && s.pool[T].hasWorker && s.pool[T].kind == 1 && s.pool[T].pc.Created?
    ensures var r := run + CLOSING + [Visit] + CLOSED; Runs(c, r) && After(c, r) == s'
    ensures s' == s.(pool := s.pool[T := s.pool[T].(terminated := true)],
                     queue := s.queue[1..] + [ThreadRemove(T)], stopping := true, selected := {T})
  {
    s' := Closing(c, run, s);
    var r;
    r, s' := Go(c, run + CLOSING, s', Visit);
    s' := Closed(c, r, s');
  }

  /** The life of a thread from its loop test on. */
  const WINDING_UP := [LoopExit(T), DropWorker(T), ClearReady(T), PostRemove(T)]

  lemma LeavingLoop(c: Config, run: seq<Step>, s: State) returns (r: seq<Step>, s': State)
    requires Runs(c, run) && After(c, run) == s && T in s.pool && s.pool[T].pc.Looping?
    ensures r == run + [LoopExit(T), DropWorker(T)] && Runs(c, r) && After(c, r) == s'
    ensures var th := s.pool[T];
            s' == With(s, T, th.(pc := NoWorker, deleting := true, terminated := th.terminated || !th.hasWorker,
                                 hasWorker := false))
  {
    r, s' := Go(c, run, s, LoopExit(T));
    r, s' := Go(c, r, s', DropWorker(T));
  }

  lemma WindingUp(c: Config, run: seq<Step>, s: State) returns (s': State)
    requires Runs(c, run) && After(c, run) == s && T in s.pool && s.pool[T].pc.Looping?
    ensures Runs(c, run + WINDING_UP) && After(c, run + WINDING_UP) == s'
    ensures var th := s.pool[T];
            s' == s.(pool := s.pool[T := Thread(th.kind, Finished, false, true, th.terminated || !th.hasWorker,
                                                false, th.tails)],
                     queue := s.queue + [ThreadRemove(T)])
  {
    var r;
    r, s' := LeavingLoop(c, run, s);
    r, s' := Go(c, r, s', ClearReady(T));
    r, s' := Go(c, r, s', PostRemove(T));
    assert r == run + WINDING_UP;
  }

  /** Handling the removal of the only thread. */
  lemma LastPulled(c: Config, run: seq<Step>, s: State) returns (s': State)
    requires Runs(c, run) && After(c, run) == s && s.app.Idle? && !s.terminated && T in s.pool
    requires s.queue != [] && s.queue[0] == ThreadRemove(T) && s.threads == [T]
    requires !Refused(s.pool[T])
    ensures Runs(c, run + [Pull]) && After(c, run + [Pull]) == s'
    ensures NoHazards(c, run) ==> NoHazards(c, run + [Pull])
    ensures s' == s.(queue := s.queue[1..] + [ThreadsGone(false)], threads := [],
                     deleted := s.deleted + [T], gone := s.gone + 1)
  {
    assert Without(s.threads, T) == [] by {
      assert s.threads[1..] == [];
    }
    var r;
    r, s' := Go(c, run, s, Pull);
  }

  lemma BothPulled(c: Config, run: seq<Step>, s: State) returns (s': State)
    requires Runs(c, run) && After(c, run) == s && s.app.Idle? && !s.terminated && T in s.pool
    requires s.queue == [ThreadRemove(T), ThreadRemove(T)] && !s.pool[T].ready && s.threads == [T]
    ensures Runs(c, run + [Pull, Pull]) && After(c, run + [Pull, Pull]) == s'
    ensures s'.deleted == s.deleted + [T, T]
  {
    var s1 := LastPulled(c, run, s);
    var r;
    r, s' := Go(c, run + [Pull], s1, Pull);
    assert r == run + [Pull, Pull];
  }

  /** Two Close events: each `stop` posts the removal of a thread that never started. */
  lemma SecondClose()
    ensures var run := [Add(T, 1, true, false), Post(Close), Post(Close)] +
                       CLOSING + [Visit] + CLOSED + CLOSING + [Visit] + CLOSED + [Pull, Pull];
            Runs(INTENDED, run) && After(INTENDED, run).deleted == [T, T]
  {
    var c := INTENDED;
    var r, s := Go(c, [], INIT, Add(T, 1, true, false));
    r, s := Go(c, r, s, Post(Close));
    r, s := Go(c, r, s, Post(Close));
    s := ClosedUnstarted(c, r, s);
    r := r + CLOSING + [Visit] + CLOSED;
    s := ClosedUnstarted(c, r, s);
    r := r + CLOSING + [Visit] + CLOSED;
    s := BothPulled(c, r, s);
    assert r + [Pull, Pull] == [Add(T, 1, true, false), Post(Close), Post(Close)] +
                               CLOSING + [Visit] + CLOSED + CLOSING + [Visit] + CLOSED + [Pull, Pull];
  }

  lemma WithTwice(s: State, t: Tid, a: Thread, b: Thread)
    ensures With(With(s, t, a), t, b) == With(s, t, b)
  {}

  lemma RunToUnready(c: Config, run: seq<Step>, s: State) returns (r: seq<Step>, s': State)
    requires Runs(c, run) && After(c, run) == s && T in s.pool
    requires s.pool[T].pc.Spawned? && s.pool[T].terminated
    ensures r == run + [RunTest(T), DropWorker(T), ClearReady(T)] && Runs(c, r) && After(c, r) == s'
    ensures NoHazards(c, run) ==> NoHazards(c, r)
    ensures s' == s.(pool := s.pool[T := s.pool[T].(pc := Unready, ready := false, hasWorker := false)])
  {
    var th := s.pool[T];
    var th1, th2 := th.(pc := LeftLoop), th.(pc := NoWorker, hasWorker := false);
    r, s' := Go(c, run, s, RunTest(T));
    r, s' := Go(c, r, s', DropWorker(T));
    WithTwice(s, T, th1, th2);
    r, s' := Go(c, r, s', ClearReady(T));
    WithTwice(s, T, th2, th2.(pc := Unready, ready := false));
  }

  lemma ClosedFirst(c: Config) returns (s: State)
    ensures Runs(c, [Add(T, 1, true, true), Post(Close)]) && NoHazards(c, [Add(T, 1, true, true), Post(Close)])
    ensures After(c, [Add(T, 1, true, true), Post(Close)]) == s
    ensures s == INIT.(pool := map[T := Thread(1, Spawned, true, false, false, true, 0)], threads := [T],
                       queue := [Close], closes := 1)
  {
    var r;
    r, s := Go(c, [], INIT, Add(T, 1, true, true));
    r, s := Go(c, r, s, Post(Close));
    assert r == [Add(T, 1, true, true), Post(Close)];
  }

  const FINISHING := [Add(T, 1, true, true), Post(Close)] + CLOSING + [RunTest(T), DropWorker(T), ClearReady(T), Visit]

  /** A thread that has reset `m_ready` but not posted its removal looks unstarted to the test as
      written, and `stop` posts its removal too. */
  lemma Finishing() returns (s: State)
    ensures Runs(AS_WRITTEN, FINISHING) && NoHazards(AS_WRITTEN, FINISHING) && After(AS_WRITTEN, FINISHING) == s
    ensures s.app == Waiting(1, [], false) && !s.terminated && s.queue == [ThreadRemove(T)]
    ensures s.threads == [T] && s.deleted == [] && T in s.pool && s.pool[T].pc.Unready? && !s.pool[T].ready
  {
    var c := AS_WRITTEN;
    var r := [Add(T, 1, true, true), Post(Close)];
    s := ClosedFirst(c);
    s := Closing(c, r, s);
    r, s := RunToUnready(c, r + CLOSING, s);
    r, s := Go(c, r, s, Visit);
    assert r == FINISHING;
  }

  /** Then the thread posts it again, and is deleted twice. */
  lemma NotReadyIsNotUnstarted()
    ensures var run := FINISHING + [PostRemove(T)] + CLOSED + [Pull, Pull];
            Runs(AS_WRITTEN, run) && After(AS_WRITTEN, run).deleted == [T, T]
  {
    var c := AS_WRITTEN;
    var s := Finishing();
    var r;
    r, s := Go(c, FINISHING, s, PostRemove(T));
    s := Closed(c, r, s);
    s := BothPulled(c, r + CLOSED, s);
  }

  /** Or, without a hazard, the removal that `stop` posted is handled first, and the thread is deleted
      while it is still in its run function. */
  lemma DeletedInside()
    ensures var run := FINISHING + CLOSED + [Pull];
            && Runs(AS_WRITTEN, run) && NoHazards(AS_WRITTEN, run)
            && var s := After(AS_WRITTEN, run);
               s.deleted == [T] && T in s.pool && s.pool[T].pc == Unready
  {
    var c := AS_WRITTEN;
    var s := Finishing();
    s := Closed(c, FINISHING, s);
    s := LastPulled(c, FINISHING + CLOSED, s);
  }

  /** A thread started again after it finished posts its removal again. */
  lemma StartedTwice()
    ensures var run := [Add(T, 1, true, true), RunTest(T)] + WINDING_UP + [Start(T), RunTest(T)] +
                       WINDING_UP + [Pull, Pull];
            Runs(INTENDED, run) && After(INTENDED, run).deleted == [T, T]
  {
    var c := INTENDED;
    var r, s := Go(c, [], INIT, Add(T, 1, true, true));
    r, s := Go(c, r, s, RunTest(T));
    s := WindingUp(c, r, s);
    r, s := Go(c, r + WINDING_UP, s, Start(T));
    r, s := Go(c, r, s, RunTest(T));
    s := WindingUp(c, r, s);
    r := r + WINDING_UP;
    s := BothPulled(c, r, s);
    assert r + [Pull, Pull] == [Add(T, 1, true, true), RunTest(T)] + WINDING_UP + [Start(T), RunTest(T)] +
      WINDING_UP + [Pull, Pull];
  }

  /** A thread started after `stop` passed it by is deleted while it runs. */
  lemma StartedLate()
    ensures var run := [Add(T, 1, true, false), Post(Close)] + CLOSING + [Visit] + CLOSED + [Start(T), Pull];
            && Runs(INTENDED, run)
            && var s := After(INTENDED, run);
               s.deleted == [T] && T in s.pool && s.pool[T].pc == Spawned
  {
    var c := INTENDED;
    var r, s := Go(c, [], INIT, Add(T, 1, true, false));
    r, s := Go(c, r, s, Post(Close));
    s := ClosedUnstarted(c, r, s);
    r, s := Go(c, r + CLOSING + [Visit] + CLOSED, s, Start(T));
    r, s := Go(c, r, s, Pull);
    assert r == [Add(T, 1, true, false), Post(Close)] + CLOSING + [Visit] + CLOSED + [Start(T), Pull];
  }

  /** The end of the loop, with Shutdown next in the queue. */
  lemma Ending(c: Config, run: seq<Step>, s: State) returns (r: seq<Step>, s': State)
    requires Runs(c, run) && After(c, run) == s && s.app.Idle? && !s.terminated
    requires s.queue != [] && s.queue[0].Shutdown?
    ensures r == run + [Pull, Return] && Runs(c, r) && After(c, r) == s'
    ensures s' == s.(queue := s.queue[1..], terminated := true, app := Returned(0))
  {
    r, s' := Go(c, run, s, Pull);
    r, s' := Go(c, r, s', Return);
  }

  lemma AddThenEnd(c: Config, run: seq<Step>, s: State) returns (r: seq<Step>, s': State)
    requires Runs(c, run) && After(c, run) == s && s.app.Idle? && !s.terminated
    requires s.queue == [ThreadsGone(false)] && 8 !in s.pool
    ensures r == run + [Add(8, 1, true, false), Pull, Pull, Return] && Runs(c, r) && After(c, r) == s'
    ensures s'.app == Returned(0) && 8 in s'.pool && 8 in s'.threads && s'.deleted == s.deleted
  {
    r, s' := Go(c, run, s, Add(8, 1, true, false));
    assert s'.threads[|s.threads|] == 8;
    r, s' := Go(c, r, s', Pull);
    assert s'.queue == [Shutdown];
    r, s' := Ending(c, r, s');
  }

  /** A thread added after ThreadsGone is still there when `exec` returns 0. */
  lemma AddedLate()
    ensures var run := [Add(T, 1, true, false), Post(Close)] + CLOSING + [Visit] + CLOSED +
                       [Pull, Add(8, 1, true, false), Pull, Pull, Return];
            && Runs(INTENDED, run)
            && var s := After(INTENDED, run);
               s.app == Returned(0) && 8 in s.pool && 8 in s.threads && 8 !in s.deleted
  {
    var c := INTENDED;
    var r, s := Go(c, [], INIT, Add(T, 1, true, false));
    r, s := Go(c, r, s, Post(Close));
    s := ClosedUnstarted(c, r, s);
    s := LastPulled(c, r + CLOSING + [Visit] + CLOSED, s);
    assert s.queue == [ThreadsGone(false)];
    r, s := AddThenEnd(c, r + CLOSING + [Visit] + CLOSED + [Pull], s);
    assert r == [Add(T, 1, true, false), Post(Close)] + CLOSING + [Visit] + CLOSED +
      [Pull, Add(8, 1, true, false), Pull, Pull, Return];
  }

  /** Shutdown posted from outside, as a signal handler does, ends `exec` with a thread left. */
  lemma ShutDownEarly()
    ensures var run := [Add(T, 1, true, true), Post(Shutdown), Pull, Return];
            && Runs(INTENDED, run)
            && var s := After(INTENDED, run);
               s.app == Returned(0) && T in s.pool && T !in s.deleted
  {
    var c := INTENDED;
    var r, s := Go(c, [], INIT, Add(T, 1, true, true));
    r, s := Go(c, r, s, Post(Shutdown));
    r, s := Ending(c, r, s);
    assert r == [Add(T, 1, true, true), Post(Shutdown), Pull, Return];
  }

  /** An interruption found by the loop test ends `exec` with 0, a thread left and nothing removed. */
  lemma InterruptedAtTest()
    ensures var run := [Add(T, 1, true, true), TestInterrupted];
            && Runs(INTENDED, run)
            && var s := After(INTENDED, run);
               s.app == Returned(0) && T in s.pool && s.pool[T].pc == Spawned && s.deleted == []
  {
    var c := INTENDED;
    var r, s := Go(c, [], INIT, Add(T, 1, true, true));
    r, s := Go(c, r, s, TestInterrupted);
    assert r == [Add(T, 1, true, true), TestInterrupted];
  }

  const STARTED_AGAIN :=
    [Add(T, 1, true, true), RunTest(T), LoopExit(T), DropWorker(T), ClearReady(T), Start(T)]

  lemma LeftOnce() returns (s: State)
    ensures var run := [Add(T, 1, true, true), RunTest(T), LoopExit(T), DropWorker(T)];
            Runs(INTENDED, run) && After(INTENDED, run) == s
    ensures s == INIT.(pool := map[T := Thread(1, NoWorker, true, true, false, false, 0)], threads := [T])
  {
    var c := INTENDED;
    var r;
    r, s := Go(c, [], INIT, Add(T, 1, true, true));
    r, s := Go(c, r, s, RunTest(T));
    r, s := LeavingLoop(c, r, s);
    assert r == [Add(T, 1, true, true), RunTest(T), LoopExit(T), DropWorker(T)];
  }

  lemma StartedAgain() returns (s: State)
    ensures Runs(INTENDED, STARTED_AGAIN) && After(INTENDED, STARTED_AGAIN) == s
    ensures s.app.Idle? && !s.terminated && s.threads == [T] && s.queue == [] && s.deleted == []
    ensures s.pool == map[T := Thread(1, Spawned, true, true, false, false, 1)]
  {
    var c := INTENDED;
    s := LeftOnce();
    var r := [Add(T, 1, true, true), RunTest(T), LoopExit(T), DropWorker(T)];
    r, s := Go(c, r, s, ClearReady(T));
    r, s := Go(c, r, s, Start(T));
    assert r == STARTED_AGAIN;
  }

  /** A thread started again between resetting `m_ready` and posting its removal: the earlier run
      function posts it, and the thread is deleted inside the later one. */
  lemma StartedInside()
    ensures var run := STARTED_AGAIN + [RunTest(T), LoopExit(T), DropWorker(T), PostTail(T), Pull];
            && Runs(INTENDED, run)
            && var s := After(INTENDED, run);
               s.deleted == [T] && T in s.pool && s.pool[T].pc == NoWorker
  {
    var c := INTENDED;
    var s := StartedAgain();
    var r;
    r, s := Go(c, STARTED_AGAIN, s, RunTest(T));
    r, s := LeavingLoop(c, r, s);
    r, s := Go(c, r, s, PostTail(T));
    s := LastPulled(c, r, s);
    assert r + [Pull] == STARTED_AGAIN + [RunTest(T), LoopExit(T), DropWorker(T), PostTail(T), Pull];
  }
}
