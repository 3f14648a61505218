/**
 What `Application::stop` guarantees, and which use of the application rules every hazard of the
 lifecycle out.
*/
module Stop {
  import opened Lifecycle

  /** Never started, or past the run loop. */
  predicate Quiet(pc: Pc) {
    !pc.Spawned? && !pc.Looping?
  }

  // ---------- phases ----------

  /** No selected thread is started, but for calls that do nothing because it is ready. */
  ghost predicate SelectedStayDown(c: Config, steps: seq<Step>)
    requires Runs(c, steps)
  {
    steps == [] ||
    (SelectedStayDown(c, steps[..|steps| - 1]) &&
     StaysDown(After(c, steps[..|steps| - 1]), steps[|steps| - 1]))
  }

  predicate StaysDown(s: State, step: Step) {
    step.Start? && step.t in s.selected && step.t in s.pool ==> s.pool[step.t].ready
  }

  /** The flags of a thread say truly where it is; `m_deleting` is believed only of a thread that
      has, or was selected while it had, its worker. */
  ghost predicate FlagsOk(s: State) {
    forall t :: t in s.pool ==>
          var th := s.pool[t];
          && (th.ready <==> !Stopped(th.pc))
          && (th.pc.Created? ==> !th.deleting)
          && (Quiet(th.pc) && !th.pc.Created? && !th.pc.LeftLoop? ==> !th.hasWorker)
          && (th.deleting && (th.hasWorker || t in s.selected) ==> Quiet(th.pc))
  }

  /** Selected threads of a higher type are quiet, and so are the visited ones of this type. */
  ghost predicate PhaseOk(c: Config, s: State)
    requires s.selected <= s.pool.Keys
  {
    match s.app
    case Selecting(k) => forall t :: t in s.selected ==> s.pool[t].kind > k && Quiet(s.pool[t].pc)
    case Waiting(k, todo, _) =>
      && (forall t :: t in todo ==> t in s.selected)
      && (forall t :: t in s.selected ==> s.pool[t].kind >= k)
      && (forall t :: t in s.selected && (s.pool[t].kind > k || t !in todo) ==> Quiet(s.pool[t].pc))
      && (forall t :: t in todo ==> s.pool[t].kind == k)
    case _ => forall t :: t in s.selected ==> Quiet(s.pool[t].pc)
  }

  ghost predicate StopInv(c: Config, s: State) {
    s.selected <= s.pool.Keys && FlagsOk(s) && PhaseOk(c, s)
  }

  lemma {:induction false} KindSelected(pool: map<Tid, Thread>, threads: seq<Tid>, kind: nat)
    ensures forall t :: t in OfKind(pool, threads, kind) ==>
                        t in pool && pool[t].hasWorker && pool[t].kind == kind
  {
    if threads != [] {
      KindSelected(pool, threads[1..], kind);
    }
  }

  /** One thread moves along: its flags stay true, and if it was quiet and selected it stays so. */
  lemma ThreadMoves(c: Config, s: State, t: Tid, th: Thread)
    requires StopInv(c, s) && t in s.pool && th.kind == s.pool[t].kind
    requires th.ready <==> !Stopped(th.pc)
    requires th.pc.Created? ==> !th.deleting
    requires Quiet(th.pc) && !th.pc.Created? && !th.pc.LeftLoop? ==> !th.hasWorker
    requires th.deleting && (th.hasWorker || t in s.selected) ==> Quiet(th.pc)
    requires t in s.selected && Quiet(s.pool[t].pc) ==> Quiet(th.pc)
    ensures StopInv(c, With(s, t, th))
  {}

  lemma SelectPhase(c: Config, s: State)
    requires StopInv(c, s) && Enabled(c, s, Select)
    ensures StopInv(c, Next(c, s, Select))
  {
    KindSelected(s.pool, s.threads, s.app.kind);
  }

  lemma VisitPhase(c: Config, s: State, step: Step)
    requires (step.Visit? || step.Join?) && StopInv(c, s) && Enabled(c, s, step)
    ensures StopInv(c, Next(c, s, step))
  {
    var t := s.app.todo[0];
    assert t in s.app.todo;
    assert NotStarted(c, s.pool[t]) || step.Join? ==> Quiet(s.pool[t].pc);
    assert forall x :: x in s.app.todo <==> x == t || x in s.app.todo[1..];
  }

  lemma AddPhase(c: Config, s: State, step: Step)
    requires StopInv(c, s) && step.Add? && Enabled(c, s, step)
    ensures StopInv(c, Next(c, s, step))
  {
    assert step.t !in s.selected;
  }

  lemma PullPhase(c: Config, s: State)
    requires StopInv(c, s) && Enabled(c, s, Pull)
    ensures StopInv(c, Next(c, s, Pull))
  {
    assert Next(c, s, Pull).pool == s.pool;
  }

  lemma StopStep(c: Config, s: State, step: Step)
    requires StopInv(c, s) && Enabled(c, s, step) && StaysDown(s, step)
    ensures StopInv(c, Next(c, s, step))
  {
    match step
    case Add(_, _, _, _) => AddPhase(c, s, step);
    case Pull => PullPhase(c, s);
    case Select => SelectPhase(c, s);
    case Visit => VisitPhase(c, s, step);
    case Join => VisitPhase(c, s, step);
    case _ =>
      if ThreadStep(step) || step.PostRemove? || step.PostTail? {
        MovePhase(c, s, step);
      }
  }

  lemma MovePhase(c: Config, s: State, step: Step)
    requires ThreadStep(step) || step.PostRemove? || step.PostTail?
    requires StopInv(c, s) && Enabled(c, s, step) && StaysDown(s, step)
    ensures StopInv(c, Next(c, s, step))
  {
    ThreadMoves(c, s, step.t, Next(c, s, step).pool[step.t]);
  }

  lemma {:induction false} StopInvReachable(c: Config, steps: seq<Step>)
    requires Runs(c, steps) && SelectedStayDown(c, steps)
    ensures StopInv(c, After(c, steps))
  {
    if steps != [] {
      StopInvReachable(c, steps[..|steps| - 1]);
      StopStep(c, After(c, steps[..|steps| - 1]), steps[|steps| - 1]);
    }
  }

  /** Phased stop, however the threads interleave: when `stop` is about to terminate the threads of
      one type, every thread it selected has a higher type and never started or has left its run
      loop; once it has returned, that holds of all it selected.  The test as written does as well
      here as the one intended. */
  lemma PhasedStop(c: Config, steps: seq<Step>)
    requires Runs(c, steps) && SelectedStayDown(c, steps)
    ensures var s := After(c, steps);
            && (forall t :: t in s.selected ==> t in s.pool)
            && (s.app.Selecting? ==>
                  forall t :: t in s.selected ==> s.pool[t].kind > s.app.kind && Quiet(s.pool[t].pc))
            && (s.app.Idle? || s.app.Returned? ==> forall t :: t in s.selected ==> Quiet(s.pool[t].pc))
  {
    StopInvReachable(c, steps);
  }

  /** What a phase does: it terminates the listed threads of the type that have a worker, selects
      exactly those, and touches nothing else. */
  lemma PhaseSelects(c: Config, s: State)
    requires ThreadsOk(s) && s.app.Selecting? && s.app.kind > c.first
    ensures var s' := Next(c, s, Select);
            forall t :: t in s.pool ==>
              var hit := t !in s.deleted && s.pool[t].hasWorker && s.pool[t].kind == s.app.kind;
              && (t in s'.selected <==> t in s.selected || hit)
              && s'.pool[t] == if hit then s.pool[t].(terminated := true) else s.pool[t]
  {
    OfKindIs(s.pool, s.threads, s.app.kind);
  }

  // ---------- a discipline that rules hazards out ----------

  /** What the users of the application keep to: Close is posted once and no other event of the
      lifecycle is, threads are started once and not after `stop` began, and none is added after
      ThreadsGone. */
  ghost predicate Disciplined(s: State, step: Step) {
    match step
    case Add(_, _, _, _) => s.gone == 0 && s.app != Returned(0)
    case Start(t) => t in s.pool && (s.pool[t].ready || (s.pool[t].pc.Created? && !s.stopping))
    case Post(e) => e.Restart? || e.Other? || (e.Close? && s.closes == 0)
    case TestInterrupted => s.threads == []
    case _ => true
  }

  ghost predicate AllDisciplined(c: Config, steps: seq<Step>)
    requires Runs(c, steps)
  {
    steps == [] ||
    (AllDisciplined(c, steps[..|steps| - 1]) && Disciplined(After(c, steps[..|steps| - 1]), steps[|steps| - 1]))
  }

  /** A visit of `stop` that takes only a thread that never started for one. */
  predicate CleanVisit(c: Config, s: State, step: Step) {
    step.Visit? && s.app.Waiting? && s.app.todo != [] && s.app.todo[0] in s.pool ==>
      NotStarted(c, s.pool[s.app.todo[0]]) ==> s.pool[s.app.todo[0]].pc.Created?
  }

  ghost predicate VisitsClean(c: Config, steps: seq<Step>)
    requires Runs(c, steps)
  {
    steps == [] ||
    (VisitsClean(c, steps[..|steps| - 1]) && CleanVisit(c, After(c, steps[..|steps| - 1]), steps[|steps| - 1]))
  }

  /** With the test meant, every visit is clean. */
  lemma {:induction false} IntendedClean(c: Config, steps: seq<Step>)
    requires c.intended && Runs(c, steps)
    ensures VisitsClean(c, steps)
  {
    if steps != [] {
      IntendedClean(c, steps[..|steps| - 1]);
    }
  }

  // ---------- disciplined runs meet the assumption on phases ----------

  ghost predicate SelectedWhileStopping(s: State) {
    && (s.app.Selecting? || s.app.Waiting? ==> s.stopping)
    && (s.selected != {} ==> s.stopping)
  }

  lemma {:induction false} SelectedReachable(c: Config, steps: seq<Step>)
    requires Runs(c, steps)
    ensures SelectedWhileStopping(After(c, steps))
  {
    if steps != [] {
      SelectedReachable(c, steps[..|steps| - 1]);
      SelectedStep(c, After(c, steps[..|steps| - 1]), steps[|steps| - 1]);
    }
  }

  lemma SelectedStep(c: Config, s: State, step: Step)
    requires SelectedWhileStopping(s) && Enabled(c, s, step)
    ensures SelectedWhileStopping(Next(c, s, step))
  {}

  /** In a disciplined run no selected thread is started, so `PhasedStop` applies to it. */
  lemma {:induction false} DisciplinedStaysDown(c: Config, steps: seq<Step>)
    requires Runs(c, steps) && AllDisciplined(c, steps)
    ensures SelectedStayDown(c, steps)
  {
    if steps != [] {
      DisciplinedStaysDown(c, steps[..|steps| - 1]);
      SelectedReachable(c, steps[..|steps| - 1]);
    }
  }

  // ---------- disciplined runs are free of hazards ----------

  /** A removal is posted for every finished thread, and otherwise only by `stop` for one that never
      started, and then `stop` has already passed it by. */
  ghost predicate PostedOk(s: State) {
    && (forall t :: t in s.pool && Posted(s, t) > 0 ==>
          s.pool[t].pc.Finished? || (s.pool[t].pc.Created? && s.stopping && PassedBy(s, t)))
    && (forall t :: t in s.pool && s.pool[t].pc.Finished? ==> Posted(s, t) > 0)
  }

  ghost predicate PassedBy(s: State, t: Tid)
    requires t in s.pool
  {
    match s.app
    case Selecting(k) => s.pool[t].kind > k
    case Waiting(k, todo, _) => s.pool[t].kind >= k && t !in todo
    case _ => true
  }

  ghost predicate OneStop(s: State) {
    && multiset(s.queue)[Close] + (if s.stopping then 1 else 0) == s.closes <= 1
    && (s.app.Selecting? || s.app.Waiting? ==> s.stopping)
    && (s.app.Waiting? ==>
          Distinct(s.app.todo) && forall t :: t in s.app.todo ==> t in s.pool && s.pool[t].kind == s.app.kind)
  }

  ghost predicate DisciplineInv(s: State) {
    Inv(s) && PostedOk(s) && OneStop(s)
  }

  lemma NoHazard(c: Config, s: State, step: Step)
    requires DisciplineInv(s) && Enabled(c, s, step) && Disciplined(s, step) && CleanVisit(c, s, step)
    ensures !Hazard(c, s, step)
  {
    if step.Start? && s.pool[step.t].ready {
      assert Posted(s, step.t) <= 1;
    }
  }

  lemma CloseCount(c: Config, s: State)
    requires Enabled(c, s, Pull)
    ensures multiset(Next(c, s, Pull).queue)[Close] + (if s.queue[0].Close? then 1 else 0) == multiset(s.queue)[Close]
  {
    assert s.queue == [s.queue[0]] + s.queue[1..];
  }

  lemma PulledOneStop(c: Config, s: State)
    requires DisciplineInv(s) && Enabled(c, s, Pull)
    ensures OneStop(Next(c, s, Pull)) && PostedOk(Next(c, s, Pull))
  {
    PulledPostedSame(c, s);
    CloseCount(c, s);
    PulledFields(c, s);
  }

  lemma MovedPostedOk(s: State, t: Tid, th: Thread)
    requires DisciplineInv(s) && t in s.pool && th.kind == s.pool[t].kind
    requires Posted(s, t) > 0 ==> th.pc == s.pool[t].pc
    requires th.pc.Finished? ==> Posted(s, t) > 0
    ensures PostedOk(With(s, t, th)) && OneStop(With(s, t, th))
  {
    assert forall x :: Posted(With(s, t, th), x) == Posted(s, x);
  }

  lemma ThreadStepPostedOk(c: Config, s: State, step: Step)
    requires DisciplineInv(s) && ThreadStep(step) && Enabled(c, s, step) && Disciplined(s, step)
    ensures PostedOk(Next(c, s, step)) && OneStop(Next(c, s, step))
  {
    MovedPostedOk(s, step.t, Next(c, s, step).pool[step.t]);
  }

  lemma SelectedPassedBy(c: Config, s: State, t: Tid)
    requires DisciplineInv(s) && Enabled(c, s, Select) && t in s.pool
    ensures var s' := Next(c, s, Select);
            t in s'.pool && s'.pool[t].pc == s.pool[t].pc && (PassedBy(s, t) ==> PassedBy(s', t))
  {
    OfKindIs(s.pool, s.threads, s.app.kind);
  }

  lemma SelectedOneStop(c: Config, s: State)
    requires DisciplineInv(s) && Enabled(c, s, Select)
    ensures OneStop(Next(c, s, Select))
  {
    OfKindIs(s.pool, s.threads, s.app.kind);
  }

  lemma SelectedPostedOk(c: Config, s: State)
    requires DisciplineInv(s) && Enabled(c, s, Select)
    ensures PostedOk(Next(c, s, Select)) && OneStop(Next(c, s, Select))
  {
    var s' := Next(c, s, Select);
    SelectedOneStop(c, s);
    assert s'.pool.Keys == s.pool.Keys;
    assert forall x :: Posted(s', x) == Posted(s, x);
    forall t | t in s.pool ensures s'.pool[t].pc == s.pool[t].pc && (PassedBy(s, t) ==> PassedBy(s', t)) {
      SelectedPassedBy(c, s, t);
    }
  }

  lemma VisitedPostedOk(c: Config, s: State)
    requires DisciplineInv(s) && Enabled(c, s, Visit) && CleanVisit(c, s, Visit)
    ensures PostedOk(Next(c, s, Visit)) && OneStop(Next(c, s, Visit))
  {
    var s', t := Next(c, s, Visit), s.app.todo[0];
    TodoShrinks(s);
    if NotStarted(c, s.pool[t]) {
      forall x ensures Posted(s', x) == Posted(s, x) + if x == t then 1 else 0 {
        QueueGrows(s.queue, ThreadRemove(t), x);
      }
    } else {
      MovedOn(s, s');
    }
  }

  lemma TodoShrinks(s: State)
    requires OneStop(s) && s.app.Waiting? && s.app.todo != []
    ensures Distinct(s.app.todo[1..])
    ensures forall x :: x in s.app.todo[1..] <==> x in s.app.todo && x != s.app.todo[0]
  {
    assert forall x :: x in s.app.todo <==> x == s.app.todo[0] || x in s.app.todo[1..];
  }

  lemma PostedPostedOk(s: State, s': State, e: Event)
    requires DisciplineInv(s) && !e.ThreadRemove? && s'.queue == s.queue + [e]
    requires s'.pool == s.pool && s'.deleted == s.deleted && s'.stopping == s.stopping
    requires s'.app == s.app || s'.app.Returned?
    requires s'.closes == s.closes + (if e.Close? then 1 else 0) && s'.closes <= 1
    ensures PostedOk(s') && OneStop(s')
  {
    forall x ensures Posted(s', x) == Posted(s, x) {
      QueueGrows(s.queue, e, x);
    }
  }

  lemma FinishedPostedOk(c: Config, s: State, t: Tid)
    requires DisciplineInv(s) && Enabled(c, s, PostRemove(t))
    ensures PostedOk(Next(c, s, PostRemove(t))) && OneStop(Next(c, s, PostRemove(t)))
  {
    var s' := Next(c, s, PostRemove(t));
    forall x ensures Posted(s', x) == Posted(s, x) + if x == t then 1 else 0 {
      QueueGrows(s.queue, ThreadRemove(t), x);
    }
  }

  lemma AddedPostedOk(c: Config, s: State, step: Step)
    requires DisciplineInv(s) && step.Add? && Enabled(c, s, step)
    ensures PostedOk(Next(c, s, step)) && OneStop(Next(c, s, step))
  {
    assert forall x :: Posted(Next(c, s, step), x) == Posted(s, x);
    var before := Posted(s, step.t);
  }

  lemma MovedOn(s: State, s': State)
    requires DisciplineInv(s) && s' == s.(app := s'.app) && OneStop(s')
    requires forall t :: t in s.pool && PassedBy(s, t) ==> PassedBy(s', t)
    ensures PostedOk(s')
  {
    assert forall x :: Posted(s', x) == Posted(s, x);
  }

  lemma AppStepPostedOk(c: Config, s: State, step: Step)
    requires DisciplineInv(s) && Enabled(c, s, step) && CleanVisit(c, s, step)
    requires AppStep(step)
    ensures PostedOk(Next(c, s, step)) && OneStop(Next(c, s, step))
  {
    var s' := Next(c, s, step);
    match step
    case Pull => PulledOneStop(c, s);
    case Select => SelectedPostedOk(c, s);
    case Visit => VisitedPostedOk(c, s);
    case Join => TodoShrinks(s); MovedOn(s, s');
    case Interrupt => PostedPostedOk(s, s', Shutdown);
    case _ => MovedOn(s, s');
  }

  lemma PostedOkStep(c: Config, s: State, step: Step)
    requires DisciplineInv(s) && Enabled(c, s, step) && Disciplined(s, step) && CleanVisit(c, s, step)
    requires !Hazard(c, s, step)
    ensures PostedOk(Next(c, s, step)) && OneStop(Next(c, s, step))
  {
    match step
    case Add(_, _, _, _) => AddedPostedOk(c, s, step);
    case Post(e) => PostedPostedOk(s, Next(c, s, step), e);
    case PostRemove(t) => FinishedPostedOk(c, s, t);
    case Tick(_) =>
    case _ =>
      if ThreadStep(step) {
        ThreadStepPostedOk(c, s, step);
      } else {
        AppStepPostedOk(c, s, step);
      }
  }

  lemma DisciplineStep(c: Config, s: State, step: Step)
    requires DisciplineInv(s) && Enabled(c, s, step) && Disciplined(s, step) && CleanVisit(c, s, step)
    ensures !Hazard(c, s, step) && DisciplineInv(Next(c, s, step))
  {
    NoHazard(c, s, step);
    InvStep(c, s, step);
    PostedOkStep(c, s, step);
  }

  lemma {:induction false} DisciplineReachable(c: Config, steps: seq<Step>)
    requires Runs(c, steps) && AllDisciplined(c, steps) && VisitsClean(c, steps)
    ensures NoHazards(c, steps) && DisciplineInv(After(c, steps))
  {
    if steps != [] {
      DisciplineReachable(c, steps[..|steps| - 1]);
      DisciplineStep(c, After(c, steps[..|steps| - 1]), steps[|steps| - 1]);
    }
  }

  /** A disciplined run whose visits are clean, as all are with the test meant, is free of hazards,
      and so safe; and it deletes a thread only if that never started or has returned. */
  lemma DisciplineSafe(c: Config, steps: seq<Step>)
    requires Runs(c, steps) && AllDisciplined(c, steps) && (c.intended || VisitsClean(c, steps))
    ensures NoHazards(c, steps)
    ensures var s := After(c, steps);
            && Distinct(s.deleted)
            && (forall t :: t in s.deleted ==> t in s.pool && (s.pool[t].pc.Created? || s.pool[t].pc.Finished?))
            && (s.app == Returned(0) ==> forall t :: t in s.pool ==> t in s.deleted)
  {
    if c.intended {
      IntendedClean(c, steps);
    }
    DisciplineReachable(c, steps);
    Safety(c, steps);
    var s := After(c, steps);
    forall t | t in s.deleted ensures s.pool[t].pc.Created? || s.pool[t].pc.Finished? {
      assert Posted(s, t) > 0;
    }
  }

  // ---------- the test as written ----------

  /** A thread whose removal is posted although it has still to post its own. */
  ghost predicate Caught(s: State, t: Tid) {
    t in s.pool && Posted(s, t) > 0 && s.pool[t].pc.Unready?
  }

  /** An unclean visit posts the removal of a thread that has one, or is about to post it. */
  lemma UncleanVisit(c: Config, s: State)
    requires !c.intended && DisciplineInv(s) && Enabled(c, s, Visit) && !CleanVisit(c, s, Visit)
    ensures Hazard(c, s, Visit) || Caught(Next(c, s, Visit), s.app.todo[0])
  {
    var t := s.app.todo[0];
    if !Hazard(c, s, Visit) {
      PostingStep(c, s, Visit, t);
    }
  }

  /** A caught thread stays caught until it posts its own removal, and that is a hazard. */
  lemma CaughtStays(c: Config, s: State, step: Step, t: Tid)
    requires Inv(s) && Enabled(c, s, step) && Caught(s, t)
    ensures Hazard(c, s, step) || Caught(Next(c, s, step), t)
  {
    if !Hazard(c, s, step) {
      PostedStep(c, s, step, t);
      UnreadyStays(c, s, step, t);
    }
  }

  lemma UnreadyStays(c: Config, s: State, step: Step, t: Tid)
    requires Enabled(c, s, step) && t in s.pool && s.pool[t].pc.Unready?
    requires step != PostRemove(t) && step != Start(t)
    ensures t in Next(c, s, step).pool && Next(c, s, step).pool[t].pc.Unready?
  {
    if step.Pull? {
      PulledFields(c, s);
    }
  }

  /** An unclean visit leaves its mark on the rest of the run. */
  lemma {:induction false} UncleanShows(c: Config, steps: seq<Step>)
    requires !c.intended && Runs(c, steps) && AllDisciplined(c, steps) && !VisitsClean(c, steps)
    ensures !NoHazards(c, steps) || exists t :: Caught(After(c, steps), t)
  {
    var before, step := steps[..|steps| - 1], steps[|steps| - 1];
    var s := After(c, before);
    assert NoHazards(c, steps) ==> NoHazards(c, before) && !Hazard(c, s, step);
    if VisitsClean(c, before) {
      DisciplineReachable(c, before);
      assert step == Visit;
      UncleanVisit(c, s);
      assert Hazard(c, s, step) || Caught(After(c, steps), s.app.todo[0]);
    } else {
      UncleanShows(c, before);
      if NoHazards(c, before) {
        InvReachable(c, before);
        var t :| Caught(s, t);
        CaughtStays(c, s, step, t);
        assert Hazard(c, s, step) || Caught(After(c, steps), t);
      }
    }
  }

  /** For `stop` as written: a disciplined run has no hazard, and leaves no thread caught, if and only
      if every visit found its thread ready or never started. */
  lemma WrittenExactly(c: Config, steps: seq<Step>)
    requires !c.intended && Runs(c, steps) && AllDisciplined(c, steps)
    ensures VisitsClean(c, steps) <==> NoHazards(c, steps) && forall t :: !Caught(After(c, steps), t)
    // in particular, when every thread has posted its removal in the end
    ensures (forall t :: t in After(c, steps).pool ==> !After(c, steps).pool[t].pc.Unready?) ==>
              (VisitsClean(c, steps) <==> NoHazards(c, steps))
  {
    if VisitsClean(c, steps) {
      DisciplineReachable(c, steps);
    } else {
      UncleanShows(c, steps);
    }
  }
}
