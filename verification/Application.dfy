/**
 The application object of application.cpp and the code of thread.cpp that it calls, over the fields
 the source updates.  Every call is recorded as a run of the lifecycle machine, so what is proved of
 all runs holds of any sequence of calls.

 The threads a call waits for are run to their end by `RunThread`; how else they could interleave is
 the business of `Lifecycle`.
*/
module Application {
  import opened Wrappers
  import opened Lifecycle
  import opened Stop
  import opened Cascade

  // ---------- what holds in every run, hazards or not ----------

  /** A ready thread has entered its run function, and removals and visits are of known threads. */
  ghost predicate Sound(s: State) {
    && (forall t :: t in s.pool && s.pool[t].ready ==> !Stopped(s.pool[t].pc))
    && (forall e :: e in s.queue && e.ThreadRemove? ==> e.t in s.pool)
    && (s.app.Waiting? ==> forall t :: t in s.app.todo ==> t in s.pool)
  }

  lemma SoundPull(c: Config, s: State)
    requires Sound(s) && Enabled(c, s, Pull)
    ensures Sound(Next(c, s, Pull))
  {
    var s' := Next(c, s, Pull);
    assert s'.pool == s.pool;
    assert forall e :: e in s'.queue && e.ThreadRemove? ==> e in s.queue;
  }

  lemma SoundSelect(c: Config, s: State)
    requires Sound(s) && Enabled(c, s, Select)
    ensures Sound(Next(c, s, Select))
  {
    KindSelected(s.pool, s.threads, s.app.kind);
  }

  lemma SoundStep(c: Config, s: State, step: Step)
    requires Sound(s) && Enabled(c, s, step)
    ensures Sound(Next(c, s, step))
  {
    if step.Pull? {
      SoundPull(c, s);
    } else if step.Select? {
      SoundSelect(c, s);
    }
  }

  lemma {:induction false} SoundReachable(c: Config, steps: seq<Step>)
    requires Runs(c, steps)
    ensures Sound(After(c, steps))
  {
    if steps != [] {
      SoundReachable(c, steps[..|steps| - 1]);
      SoundStep(c, After(c, steps[..|steps| - 1]), steps[|steps| - 1]);
    }
  }

  /** What running to its end makes of a thread, whatever it still has to do: it leaves the loop
      marked as deleting unless it was terminated before its first test, it drops its worker, or
      marks itself terminated when it finds none, and it is not ready any more. */
  function Ended(th: Thread): Thread {
    var before := th.pc.Spawned? || th.pc.Looping? || th.pc.LeftLoop?;
    Thread(th.kind, Finished,
           if before || th.pc.NoWorker? then false else th.ready,
           th.deleting || th.pc.Looping? || (th.pc.Spawned? && !th.terminated),
           th.terminated || (before && !th.hasWorker),
           if before then false else th.hasWorker,
           th.tails)
  }

  // ---------- the loops of `stop` ----------

  lemma {:induction false} OfKindAppend(pool: map<Tid, Thread>, a: seq<Tid>, b: seq<Tid>, kind: nat)
    ensures OfKind(pool, a + b, kind) == OfKind(pool, a, kind) + OfKind(pool, b, kind)
  {
    if a == [] {
      assert a + b == b;
    } else {
      assert (a + b)[1..] == a[1..] + b;
      OfKindAppend(pool, a[1..], b, kind);
    }
  }

  predicate PastLoop(pc: Pc) {
    pc.LeftLoop? || pc.NoWorker? || pc.Unready?
  }

  /** Only this thread has advanced, and it has the same end before it. */
  ghost predicate Advanced(s: State, s': State, t: Tid) {
    t in s.pool && t in s'.pool && s' == With(s, t, s'.pool[t]) && Ended(s'.pool[t]) == Ended(s.pool[t])
  }

  lemma NotAdvanced(s: State, t: Tid)
    requires t in s.pool
    ensures Advanced(s, s, t)
  {}

  lemma AdvancedWith(s: State, s1: State, t: Tid, th: Thread)
    requires Advanced(s, s1, t) && Ended(th) == Ended(s1.pool[t])
    ensures Advanced(s, With(s1, t, th), t)
  {}

  lemma AdvancedTwice(s: State, s1: State, s2: State, t: Tid)
    requires Advanced(s, s1, t) && Advanced(s1, s2, t)
    ensures Advanced(s, s2, t)
  {}

  /** The last move of a thread. */
  lemma AdvancedToEnd(s: State, s1: State, t: Tid)
    requires Advanced(s, s1, t) && s1.pool[t].pc.Unready?
    ensures With(s1, t, s1.pool[t].(pc := Finished)) == With(s, t, Ended(s.pool[t]))
  {}

  /** What a turn of the loop of `exec` meets: nothing, an interruption pending at its test, or one
      thrown before it looks at the queue or while it sleeps. */
  datatype Turn = Free | Pending | Thrown | ThrownAsleep

  ghost predicate Undisturbed(turns: seq<Turn>) {
    forall i :: 0 <= i < |turns| ==> turns[i].Free?
  }

  predicate Throws(turn: Turn) {
    turn.Thrown? || turn.ThrownAsleep?
  }

  /** The first `n` turns are free, and no more. */
  ghost predicate FreeTurns(turns: seq<Turn>, n: nat) {
    n <= |turns| && (forall i :: 0 <= i < n ==> turns[i].Free?) && (n < |turns| ==> !turns[n].Free?)
  }

  /** These events were taken off the queue, from the front, and others but Close were put at its end. */
  ghost predicate Took(was: seq<Event>, seen: seq<Event>, now: seq<Event>) {
    was <= seen + now && Closes(seen) + Closes(now) == Closes(was)
  }

  function Closes(q: seq<Event>): nat {
    if q == [] then 0 else (if q[0].Close? then 1 else 0) + Closes(q[1..])
  }

  lemma {:induction false} ClosesAppend(a: seq<Event>, b: seq<Event>)
    ensures Closes(a + b) == Closes(a) + Closes(b)
  {
    if a == [] {
      assert a + b == b;
    } else {
      assert (a + b)[1..] == a[1..] + b;
      ClosesAppend(a[1..], b);
    }
  }

  lemma TookOn(was: seq<Event>, seen: seq<Event>, mid: seq<Event>, more: seq<Event>, now: seq<Event>)
    requires Took(was, seen, mid) && Took(mid, more, now)
    ensures Took(was, seen + more, now)
  {
    assert seen + more + now == seen + (more + now);
    ClosesAppend(seen, more);
  }

  /** Handling an event may put one at the end of the queue, and no Close. */
  lemma HandledQueue(c: Config, s: State, e: Event)
    requires e.ThreadRemove? ==> e.t in s.pool
    ensures s.queue <= Handled(c, s, e).queue && Closes(Handled(c, s, e).queue) == Closes(s.queue)
  {
    ClosesAppend(s.queue, [ThreadsGone(false)]);
    ClosesAppend(s.queue, [if e.ThreadsGone? && e.restarting then Restart else Shutdown]);
  }

  lemma WithoutNext(threads: seq<Tid>, i: nat, t: Tid, rest: seq<Tid>)
    requires i < |threads|
    ensures rest + Without(threads[i..], t) ==
            (if threads[i] == t then rest else rest + [threads[i]]) + Without(threads[i + 1..], t)
  {
    assert threads[i..][1..] == threads[i + 1..];
  }

  /** After `i` turns: all but the last, or all, were free and took one event each as long as there was
      one; and an interruption thrown in the last posted Shutdown. */
  ghost predicate Turned(turns: seq<Turn>, i: nat, thrown: bool, was: seq<Event>, seen: seq<Event>, now: seq<Event>) {
    && i <= |turns| && Took(was, seen, now)
    && (forall k :: 0 <= k < (if thrown then i - 1 else i) ==> turns[k].Free?)
    && (!thrown ==> |seen| == i || now == [])
    && (thrown ==> i > 0 && Throws(turns[i - 1]) && now != [] && now[|now| - 1] == Shutdown)
    && (i > 0 && turns[0].Free? && was != [] ==> seen != [])
  }

  lemma TurnedNothing(turns: seq<Turn>, was: seq<Event>)
    ensures Turned(turns, 0, false, was, [], was)
  {
    assert [] + was == was;
  }

  lemma TurnedNext(turns: seq<Turn>, i: nat, was: seq<Event>, seen: seq<Event>, mid: seq<Event>,
      more: seq<Event>, now: seq<Event>)
    requires Turned(turns, i, false, was, seen, mid) && i < |turns| && !turns[i].Pending?
    requires more == (if mid == [] || turns[i].Thrown? then [] else [mid[0]]) && Took(mid, more, now)
    requires Throws(turns[i]) ==> now != [] && now[|now| - 1] == Shutdown
    requires mid == [] && turns[i].Free? ==> now == []
    ensures Turned(turns, i + 1, Throws(turns[i]), was, seen + more, now)
  {
    TookOn(was, seen, mid, more, now);
  }

  // ---------- what a run has handled ----------

  /** The events that a run took off the queue, in order. */
  ghost function Pulled(c: Config, steps: seq<Step>): seq<Event>
    requires Runs(c, steps)
  {
    if steps == [] then []
    else
      var before := steps[..|steps| - 1];
      Pulled(c, before) + if steps[|steps| - 1].Pull? then [After(c, before).queue[0]] else []
  }

  /** The steps of a thread that runs to its end, and of `stop`. */
  predicate Within(step: Step) {
    || step.RunTest? || step.LoopExit? || step.DropWorker? || step.ClearReady? || step.PostRemove?
    || step.Select? || step.Visit? || step.Join? || step.NextKind?
  }

  /** A run goes on by such steps: it takes no event off the queue, puts no Close there, and starts no
      selected thread. */
  ghost predicate Onward(c: Config, before: seq<Step>, after: seq<Step>) {
    && before <= after && Runs(c, before) && Runs(c, after) && Pulled(c, after) == Pulled(c, before)
    && After(c, before).queue <= After(c, after).queue
    && Closes(After(c, after).queue) == Closes(After(c, before).queue)
    && (SelectedStayDown(c, before) ==> SelectedStayDown(c, after))
  }

  lemma OnwardStep(c: Config, steps: seq<Step>, step: Step)
    requires Runs(c, steps) && Enabled(c, After(c, steps), step) && Within(step)
    ensures Onward(c, steps, steps + [step])
  {
    var s := After(c, steps);
    Extend(c, steps, step);
    assert (steps + [step])[..|steps|] == steps;
    if step.PostRemove? {
      ClosesAppend(s.queue, [ThreadRemove(step.t)]);
    } else if step.Visit? {
      ClosesAppend(s.queue, [ThreadRemove(s.app.todo[0])]);
    }
  }

  lemma PulledNext(c: Config, steps: seq<Step>, step: Step)
    requires Runs(c, steps) && Enabled(c, After(c, steps), step)
    ensures Runs(c, steps + [step])
    ensures Pulled(c, steps + [step]) == Pulled(c, steps) + if step.Pull? then [After(c, steps).queue[0]] else []
  {
    Extend(c, steps, step);
    assert (steps + [step])[..|steps|] == steps;
  }

  /** `stop` has begun once a Close was taken off the queue. */
  lemma {:induction false} CloseBegan(c: Config, steps: seq<Step>)
    requires Runs(c, steps) && Close in Pulled(c, steps)
    ensures After(c, steps).stopping
  {
    var before, step := steps[..|steps| - 1], steps[|steps| - 1];
    if Close in Pulled(c, before) {
      CloseBegan(c, before);
    }
  }

  class Application {
    const c: Config
    var pool: map<Tid, Thread>
    var threads: seq<Tid>
    var queue: seq<Event>
    var terminated: bool
    ghost var state: State
    ghost var history: seq<Step>

    ghost predicate Agrees()
      reads this
    {
      state.pool == pool && state.threads == threads && state.queue == queue && state.terminated == terminated
    }

    ghost predicate Valid()
      reads this
    {
      Agrees() && Runs(c, history) && After(c, history) == state
    }

    /** This event has been taken off the queue and is not handled yet. */
    ghost predicate Taken(e: Event)
      reads this
    {
      && Agrees() && Runs(c, history) && Enabled(c, After(c, history), Pull)
      && After(c, history).queue == [e] + queue && state == After(c, history).(queue := queue)
    }

    constructor (c: Config)
      ensures Valid() && state == INIT && history == [] && this.c == c
    {
      this.c := c;
      pool, threads, queue, terminated := map[], [], [], false;
      state, history := INIT, [];
    }

    /** Records a step whose effect on the fields is in place. */
    ghost method Record(step: Step)
      requires Runs(c, history) && Enabled(c, After(c, history), step)
      modifies this`state, this`history
      ensures history == old(history) + [step] && Runs(c, history)
      ensures state == After(c, history) == Next(c, After(c, old(history)), step)
      ensures Within(step) ==> Onward(c, old(history), history)
      ensures Pulled(c, history) ==
              Pulled(c, old(history)) + if step.Pull? then [After(c, old(history)).queue[0]] else []
    {
      Extend(c, history, step);
      PulledNext(c, history, step);
      if Within(step) {
        OnwardStep(c, history, step);
      }
      history := history + [step];
      state := After(c, history);
    }

    // ---------- calls from outside ----------

    method AddThread(t: Tid, kind: nat, worker: bool, start: bool)
      requires Valid() && t !in pool && (start ==> worker)
      modifies this
      ensures Valid() && history == old(history) + [Add(t, kind, worker, start)]
      ensures threads == old(threads) + [t] && unchanged(`queue) && unchanged(`terminated)
      ensures pool == old(pool)[t := Thread(kind, if start then Spawned else Created, start, false, false, worker, 0)]
    {
      threads := threads + [t];
      pool := pool[t := Thread(kind, Created, false, false, false, worker, 0)];
      if start {
        pool := pool[t := pool[t].(ready := true, pc := Spawned)];
      }
      Record(Add(t, kind, worker, start));
    }

    method StartThread(t: Tid)
      requires Valid() && Enabled(c, state, Start(t))
      modifies this
      ensures Valid() && history == old(history) + [Start(t)]
      ensures unchanged(`threads) && unchanged(`queue) && unchanged(`terminated)
      ensures old(pool)[t].ready ==> pool == old(pool)
      ensures !old(pool)[t].ready ==> pool[t].ready && pool[t].pc == Spawned && pool == old(pool)[t := pool[t]]
    {
      if !pool[t].ready {
        var tail := if pool[t].pc.Unready? then 1 else 0;
        pool := pool[t := pool[t].(ready := true, pc := Spawned, tails := pool[t].tails + tail)];
      }
      Record(Start(t));
      assert pool == state.pool;
    }

    method TerminateThread(t: Tid)
      requires Valid() && t in pool
      modifies this
      ensures Valid() && history == old(history) + [Terminate(t)]
      ensures pool == old(pool)[t := old(pool)[t].(terminated := true)]
      ensures unchanged(`threads) && unchanged(`queue) && unchanged(`terminated)
    {
      if !pool[t].terminated {
        pool := pool[t := pool[t].(terminated := true)];
      }
      Record(Terminate(t));
      assert pool == state.pool;
    }

    method PostEvent(e: Event)
      requires Valid() && (e.ThreadRemove? ==> e.t in pool)
      modifies this
      ensures Valid() && history == old(history) + [Post(e)] && queue == old(queue) + [e]
    {
      queue := queue + [e];
      Record(Post(e));
    }

    // ---------- the run function of a thread ----------

    method Move(t: Tid, th: Thread, ghost step: Step)
      requires Valid() && t in pool && Enabled(c, state, step) && Within(step)
      requires Next(c, state, step) == With(state, t, th)
      modifies this`pool, this`state, this`history
      ensures Valid() && history == old(history) + [step] && Onward(c, old(history), history)
      ensures state == With(old(state), t, th)
    {
      pool := pool[t := th];
      Record(step);
    }

    /** The loop of `Thread::run`, from its first test. */
    method RunLoop(t: Tid)
      requires Valid() && t in pool && !pool[t].pc.Created? && !pool[t].pc.Finished?
      modifies this`pool, this`state, this`history
      ensures Valid() && Onward(c, old(history), history)
      ensures Advanced(old(state), state, t) && PastLoop(pool[t].pc)
    {
      NotAdvanced(state, t);
      if pool[t].pc.Spawned? {
        Move(t, pool[t].(pc := if pool[t].terminated then LeftLoop else Looping), RunTest(t));
        AdvancedWith(old(state), old(state), t, pool[t]);
      }
      ghost var tested := state;
      LeaveLoop(t);
      AdvancedTwice(old(state), tested, state, t);
    }

    method LeaveLoop(t: Tid)
      requires Valid() && t in pool && (pool[t].pc.Looping? || PastLoop(pool[t].pc))
      modifies this`pool, this`state, this`history
      ensures Valid() && Onward(c, old(history), history)
      ensures Advanced(old(state), state, t) && PastLoop(pool[t].pc)
    {
      NotAdvanced(state, t);
      if pool[t].pc.Looping? {
        Move(t, pool[t].(pc := LeftLoop, deleting := true), LoopExit(t));
        AdvancedWith(old(state), old(state), t, pool[t]);
      }
    }

    /** The reset of the worker. */
    method LoseWorker(t: Tid)
      requires Valid() && t in pool && PastLoop(pool[t].pc)
      modifies this`pool, this`state, this`history
      ensures Valid() && Onward(c, old(history), history)
      ensures Advanced(old(state), state, t) && (pool[t].pc.NoWorker? || pool[t].pc.Unready?)
    {
      NotAdvanced(state, t);
      if pool[t].pc.LeftLoop? {
        var th := pool[t].(pc := NoWorker, hasWorker := false);
        Move(t, if pool[t].hasWorker then th else th.(terminated := true), DropWorker(t));
        AdvancedWith(old(state), old(state), t, pool[t]);
      }
    }

    /** The reset of `m_ready`. */
    method LoseReady(t: Tid)
      requires Valid() && t in pool && (pool[t].pc.NoWorker? || pool[t].pc.Unready?)
      modifies this`pool, this`state, this`history
      ensures Valid() && Onward(c, old(history), history)
      ensures Advanced(old(state), state, t) && pool[t].pc.Unready?
    {
      NotAdvanced(state, t);
      if pool[t].pc.NoWorker? {
        Move(t, pool[t].(pc := Unready, ready := false), ClearReady(t));
        AdvancedWith(old(state), old(state), t, pool[t]);
      }
    }

    /** `Thread::run` up to the posting of the removal. */
    method RunToLast(t: Tid)
      requires Valid() && t in pool && !pool[t].pc.Created? && !pool[t].pc.Finished?
      modifies this`pool, this`state, this`history
      ensures Valid() && Onward(c, old(history), history)
      ensures Advanced(old(state), state, t) && pool[t].pc.Unready?
    {
      RunLoop(t);
      ghost var left := state;
      LoseWorker(t);
      AdvancedTwice(old(state), left, state, t);
      ghost var dropped := state;
      LoseReady(t);
      AdvancedTwice(old(state), dropped, state, t);
    }

    /** `Thread::run` from wherever the thread is, to its end: it posts its removal. */
    method RunThread(t: Tid)
      requires Valid() && t in pool && !pool[t].pc.Created? && !pool[t].pc.Finished?
      modifies this
      ensures Valid() && Onward(c, old(history), history)
      ensures state == With(old(state), t, Ended(old(pool)[t])).(queue := old(queue) + [ThreadRemove(t)])
      ensures pool[t].pc.Finished? && !pool[t].ready && (old(pool)[t].pc.Looping? ==> pool[t].deleting)
      ensures old(pool)[t].pc.Spawned? || old(pool)[t].pc.Looping? || old(pool)[t].pc.LeftLoop? ==>
                !pool[t].hasWorker && (pool[t].terminated <==> old(pool)[t].terminated || !old(pool)[t].hasWorker)
    {
      SoundReachable(c, history);
      RunToLast(t);
      AdvancedToEnd(old(state), state, t);
      pool := pool[t := pool[t].(pc := Finished)];
      queue := queue + [ThreadRemove(t)];
      Record(PostRemove(t));
    }

    /** `Thread::wait`: at once if the thread never started, is deleting or is over, and otherwise when
        it is over. */
    method Wait(t: Tid)
      requires Valid() && t in pool
      modifies this
      ensures Valid() && Onward(c, old(history), history) && state.app == old(state.app)
      ensures pool.Keys == old(pool.Keys)
      ensures old(pool)[t].pc.Created? || pool[t].deleting || pool[t].pc.Finished?
      ensures old(pool)[t].pc.Created? || old(pool)[t].deleting ==> state == old(state) && history == old(history)
    {
      if !pool[t].pc.Created? && !pool[t].deleting && !pool[t].pc.Finished? {
        RunThread(t);
      }
    }

    // ---------- stop ----------

    /** The `copy_if` of `stop`, as its loop. */
    method CopyIf(kind: nat) returns (sel: seq<Tid>)
      ensures sel == OfKind(pool, threads, kind)
    {
      sel := [];
      var i := 0;
      while i < |threads|
        invariant i <= |threads| && sel == OfKind(pool, threads[..i], kind)
      {
        var t := threads[i];
        assert threads[..i + 1] == threads[..i] + [t];
        OfKindAppend(pool, threads[..i], [t], kind);
        if t in pool && pool[t].hasWorker && pool[t].kind == kind {
          sel := sel + [t];
        }
        i := i + 1;
      }
      assert threads[..i] == threads;
    }

    /** Terminates the listed threads one by one. */
    method TerminateEach(ts: seq<Tid>)
      requires forall t :: t in ts ==> t in pool
      modifies this`pool
      ensures pool == TerminatedAll(old(pool), ts)
    {
      var i := 0;
      while i < |ts|
        invariant i <= |ts| && pool == TerminatedAll(old(pool), ts[..i])
      {
        assert ts[..i + 1] == ts[..i] + [ts[i]];
        pool := pool[ts[i] := pool[ts[i]].(terminated := true)];
        i := i + 1;
      }
      assert ts[..i] == ts;
    }

    /** The locked region of a phase. */
    method SelectThreads(kind: nat) returns (sel: seq<Tid>)
      requires Valid() && state.app == Selecting(kind) && kind > c.first
      modifies this`pool, this`state, this`history
      ensures Valid() && Onward(c, old(history), history) && state.app == Waiting(kind, sel, false)
      ensures forall t :: t in sel ==> t in pool
    {
      sel := CopyIf(kind);
      KindSelected(pool, threads, kind);
      TerminateEach(sel);
      Record(Select);
    }

    /** Removes or waits for each selected thread. */
    method VisitAll(kind: nat, sel: seq<Tid>)
      requires Valid() && state.app == Waiting(kind, sel, false)
      modifies this
      ensures Valid() && Onward(c, old(history), history) && state.app == Waiting(kind, [], false)
    {
      var i := 0;
      assert sel[0..] == sel;
      while i < |sel|
        invariant i <= |sel| && Valid() && Onward(c, old(history), history)
        invariant state.app == Waiting(kind, sel[i..], false)
      {
        VisitOne(kind, sel[i..]);
        assert sel[i..][1..] == sel[i + 1..];
        i := i + 1;
      }
      assert sel[i..] == [];
    }

    /** `Thread::quit` for a thread that did not start. */
    method QuitThread(t: Tid)
      requires Valid() && t in pool && Enabled(c, state, Visit) && state.app.todo[0] == t && NotStarted(c, pool[t])
      modifies this
      ensures Valid() && history == old(history) + [Visit] && Onward(c, old(history), history)
    {
      queue := queue + [ThreadRemove(t)];
      Record(Visit);
    }

    /** A visit: removes the thread or waits for it. */
    method VisitOne(kind: nat, todo: seq<Tid>)
      requires Valid() && state.app == Waiting(kind, todo, false) && todo != []
      modifies this
      ensures Valid() && Onward(c, old(history), history) && state.app == Waiting(kind, todo[1..], false)
    {
      var t := todo[0];
      SoundReachable(c, history);
      assert t in todo;
      if NotStarted(c, pool[t]) {
        QuitThread(t);
        assert history == old(history) + [Visit];
        Extend(c, old(history), Visit);
      } else {
        Record(Visit);
        Wait(t);
        Record(Join);
      }
    }

    /** The threads of one type. */
    method StopKind(kind: nat)
      requires Valid() && state.app == Selecting(kind) && kind > c.first
      modifies this
      ensures Valid() && Onward(c, old(history), history) && state.app == Selecting(kind - 1)
    {
      var sel := SelectThreads(kind);
      VisitAll(kind, sel);
      Record(NextKind);
    }

    /** `Application::stop`: type by type, from the last down. */
    method Stop()
      requires Valid() && state.app == Selecting(c.last)
      modifies this
      ensures Valid() && Onward(c, old(history), history) && state.app.Idle?
      ensures SelectedStayDown(c, old(history)) ==>
                forall t :: t in state.selected ==> t in pool && Quiet(pool[t].pc)
    {
      var kind: nat := c.last;
      while kind > c.first
        invariant Valid() && Onward(c, old(history), history) && state.app == Selecting(kind)
      {
        StopKind(kind);
        kind := kind - 1;
      }
      Record(Select);
      if SelectedStayDown(c, history) {
        PhasedStop(c, history);
      }
    }

    // ---------- event handling ----------

    /** `Application::removeThread`; false where the source throws. */
    method RemoveThread(t: Tid) returns (ok: bool)
      requires Agrees() && t in pool
      modifies this`threads, this`queue, this`state
      ensures Agrees() && state == Removed(old(state), t)
      // a thread that is ready and was not told to stop is left alone
      ensures ok <==> !pool[t].ready || pool[t].terminated
      ensures !ok ==> threads == old(threads) && queue == old(queue) && state == old(state)
      // any other is forgotten and deleted, and an empty list is announced
      ensures ok ==> state.deleted == old(state.deleted) + [t]
      ensures ok ==> forall x :: x in threads <==> x in old(threads) && x != t
      ensures ok ==> queue == if threads == [] then old(queue) + [ThreadsGone(false)] else old(queue)
    {
      ok := !pool[t].ready || pool[t].terminated;
      if ok {
        WithoutMembers(threads, t);
        threads := Others(t);
        if |threads| == 0 {
          queue := queue + [ThreadsGone(false)];
        }
      }
      state := Removed(state, t);
    }

    /** The `std::remove` of `removeThread`, with the erase. */
    method Others(t: Tid) returns (rest: seq<Tid>)
      ensures rest == Without(threads, t)
    {
      rest := [];
      var i := 0;
      while i < |threads|
        invariant i <= |threads| && rest + Without(threads[i..], t) == Without(threads, t)
      {
        WithoutNext(threads, i, t, rest);
        if threads[i] != t {
          rest := rest + [threads[i]];
        }
        i := i + 1;
      }
    }

    /** `Application::shutdown`. */
    method ShutDown(restarting: bool)
      requires Agrees()
      modifies this`queue, this`state
      ensures Agrees() && state == Handled(c, old(state), ThreadsGone(restarting))
      ensures queue == old(queue) + [if restarting then Restart else Shutdown]
    {
      if !restarting {
        queue := queue + [Shutdown];
      } else {
        queue := queue + [Restart];
      }
      state := Handled(c, state, ThreadsGone(restarting));
    }

    /** `Application::quit`. */
    method Quit()
      requires Agrees()
      modifies this`terminated, this`state
      ensures Agrees() && state == Handled(c, old(state), Shutdown) && terminated
    {
      terminated := true;
      state := Handled(c, state, Shutdown);
    }

    /** `Application::event`, for an event just taken off the queue. */
    method HandleEvent(e: Event)
      requires Taken(e)
      modifies this
      ensures Valid() && old(history) + [Pull] <= history && state.app.Idle?
      ensures Pulled(c, history) == Pulled(c, old(history)) + [e]
      ensures old(queue) <= queue && Closes(queue) == Closes(old(queue))
      ensures !e.Close? ==> history == old(history) + [Pull] && state == Handled(c, old(state), e)
      ensures e.Close? && SelectedStayDown(c, old(history)) ==>
                forall t :: t in state.selected ==> t in pool && Quiet(pool[t].pc)
    {
      match e
      case Close => Record(Pull); Stop();
      case _ =>
        HandledQueue(c, state, e);
        HandlePlain(e);
    }

    /** The cases other than Close. */
    method HandlePlain(e: Event)
      requires Taken(e) && !e.Close?
      modifies this
      ensures Valid() && history == old(history) + [Pull] && state == Handled(c, old(state), e)
      ensures Pulled(c, history) == Pulled(c, old(history)) + [e]
    {
      match e {
        case ThreadRemove(t) => var _ := RemoveThread(t);
        case ThreadsGone(restarting) => ShutDown(restarting);
        case Shutdown => Quit();
        case _ =>
      }
      Record(Pull);
    }

    /** One turn of the loop of `exec` that finds an event. */
    method HandleNext()
      requires Valid() && Enabled(c, state, Pull)
      modifies this
      ensures Valid() && old(history) + [Pull] <= history && state.app.Idle?
      ensures Pulled(c, history) == Pulled(c, old(history)) + [old(queue)[0]] && old(queue)[1..] <= queue
      ensures Closes(queue) == Closes(old(queue)[1..])
      ensures !old(queue)[0].Close? ==> state == Next(c, old(state), Pull)
    {
      var e := queue[0];
      assert queue == [e] + queue[1..];
      queue := queue[1..];
      state := state.(queue := queue);
      HandleEvent(e);
    }

    /** `Application::exec` for a number of turns of its loop: its code if it returns meanwhile, none
        if it is still looping.  Every turn up to the first that is interrupted takes the front event off
        the queue and handles it, or finds the queue empty; so `seen`, the events handled, are those that
        were queued, in order, and then those posted since.  Left to itself, with no Close and no running
        thread in play, it goes exactly as far along the cascade as the turns allow. */
    method Exec(turns: seq<Turn>) returns (code: Option<nat>, ghost seen: seq<Event>)
      requires Valid() && state.app.Idle?
      modifies this
      ensures Valid() && old(history) <= history
      ensures state.app == match code case None => Idle case Some(n) => Returned(n)
      // what it handles
      ensures Pulled(c, history) == Pulled(c, old(history)) + seen && Took(old(queue), seen, queue)
      ensures !old(terminated) && old(queue) != [] && turns != [] && turns[0].Free? ==> seen != []
      ensures Close in seen ==> state.stopping
      // how it ends
      ensures code == None ==> Undisturbed(turns) && !terminated && (|seen| == |turns| || queue == [])
      ensures code == Some(0) ==> terminated || exists n: nat :: n < |turns| && FreeTurns(turns, n) && turns[n].Pending?
      ensures code.Some? && code != Some(0) ==>
                code == Some(1) && queue != [] && queue[|queue| - 1] == Shutdown &&
                exists n: nat :: n < |turns| && FreeTurns(turns, n) && Throws(turns[n])
      ensures Undisturbed(turns) && Calm(old(state)) ==>
                var s := SettledIn(c, old(state), |turns|);
                if s.terminated then code == Some(0) && state == s.(app := Returned(0)) else code == None && state == s
      ensures code == Some(0) && NoHazards(c, history) ==> forall t :: t in pool <==> t in state.deleted
    {
      var i, thrown;
      i, thrown, seen := Loop(turns);
      if Close in seen {
        CloseBegan(c, history);
      }
      if thrown {
        assert FreeTurns(turns, i - 1);
        return Some(1), seen;
      }
      code := None;
      assert i < |turns| && !terminated ==> FreeTurns(turns, i);
      if terminated || i < |turns| {
        Leave();
        code := Some(0);
      }
    }

    /** The loop of `exec`: the turns taken, and whether an interruption was thrown in the last. */
    method Loop(turns: seq<Turn>) returns (i: nat, thrown: bool, ghost seen: seq<Event>)
      requires Valid() && state.app.Idle?
      modifies this
      ensures Valid() && old(history) <= history
      ensures state.app == if thrown then Returned(1) else Idle
      ensures Turned(turns, i, thrown, old(queue), seen, queue) && Pulled(c, history) == Pulled(c, old(history)) + seen
      ensures thrown || terminated || i == |turns| || turns[i].Pending?
      ensures i == 0 ==> terminated == old(terminated)
      ensures Undisturbed(turns) && Calm(old(state)) ==>
                !thrown && Calm(state) && SettledIn(c, state, |turns| - i) == SettledIn(c, old(state), |turns|)
    {
      i, thrown, seen := 0, false, [];
      ghost var was, p := queue, Pulled(c, history);
      ghost var calm := Undisturbed(turns) && Calm(state);
      ghost var end := if calm then SettledIn(c, state, |turns|) else state;
      TurnedNothing(turns, was);
      assert p + [] == p;
      while !terminated && i < |turns| && !turns[i].Pending?
        invariant i <= |turns| && Valid() && old(history) <= history && state.app.Idle? && !thrown
        invariant Turned(turns, i, false, was, seen, queue) && Pulled(c, history) == p + seen
        invariant i == 0 ==> terminated == old(terminated)
        invariant calm ==> Heading(turns, i, end)
        decreases |turns| - i
      {
        thrown, seen := NextTurn(turns, i, was, p, seen, calm, end);
        i := i + 1;
        if thrown {
          return;
        }
      }
    }

    /** Left to itself from here for the turns that are left, the loop comes to this state. */
    ghost predicate Heading(turns: seq<Turn>, i: nat, end: State)
      reads this
    {
      i <= |turns| && Undisturbed(turns) && Calm(state) && SettledIn(c, state, |turns| - i) == end
    }

    /** One more turn. */
    method NextTurn(turns: seq<Turn>, i: nat, ghost was: seq<Event>, ghost p: seq<Event>, ghost seen: seq<Event>,
        ghost calm: bool, ghost end: State) returns (thrown: bool, ghost seen': seq<Event>)
      requires Valid() && state.app.Idle? && !terminated && i < |turns| && !turns[i].Pending?
      requires Turned(turns, i, false, was, seen, queue) && Pulled(c, history) == p + seen
      requires calm ==> Heading(turns, i, end)
      modifies this
      ensures Valid() && old(history) <= history && state.app == if thrown then Returned(1) else Idle
      ensures Turned(turns, i + 1, thrown, was, seen', queue) && Pulled(c, history) == p + seen'
      ensures calm ==> !thrown && Heading(turns, i + 1, end)
    {
      ghost var before, mid, more := state, queue, [];
      thrown, more := TakeTurn(turns[i]);
      TurnedNext(turns, i, was, seen, mid, more, queue);
      seen' := seen + more;
      assert p + seen + more == p + seen';
      if calm {
        SettledInNext(c, before, |turns| - i);
      }
    }

    /** The body of the loop: whether an interruption was thrown in it, and the event handled, if any. */
    method TakeTurn(turn: Turn) returns (thrown: bool, ghost seen: seq<Event>)
      requires Valid() && state.app.Idle? && !terminated && !turn.Pending?
      modifies this
      ensures Valid() && old(history) <= history
      ensures thrown <==> Throws(turn)
      ensures state.app == if thrown then Returned(1) else Idle
      ensures seen == if old(queue) == [] || turn.Thrown? then [] else [old(queue)[0]]
      ensures Pulled(c, history) == Pulled(c, old(history)) + seen && Took(old(queue), seen, queue)
      ensures thrown ==> queue != [] && queue[|queue| - 1] == Shutdown
      ensures old(queue) == [] && turn.Free? ==> queue == [] && state == old(state)
      ensures turn.Free? && Calm(old(state)) ==> Calm(state) && state == SettledIn(c, old(state), 1)
    {
      seen := [];
      thrown := turn.Thrown?;
      if !thrown {
        seen := TryPull();
      }
      thrown := thrown || turn.ThrownAsleep?;
      if thrown {
        Throw();
      }
    }

    /** `try_pull`, and the event if there is one. */
    method TryPull() returns (ghost seen: seq<Event>)
      requires Valid() && state.app.Idle? && !terminated
      modifies this
      ensures Valid() && old(history) <= history && state.app.Idle?
      ensures seen == if old(queue) == [] then [] else [old(queue)[0]]
      ensures Pulled(c, history) == Pulled(c, old(history)) + seen && Took(old(queue), seen, queue)
      ensures old(queue) == [] ==> state == old(state)
      ensures Calm(old(state)) ==> Calm(state) && state == SettledIn(c, old(state), 1)
    {
      seen := [];
      if queue != [] {
        PullEnabled();
        if Calm(state) {
          PulledCalm(c, state);
        }
        seen := [queue[0]];
        assert queue == [queue[0]] + queue[1..];
        ClosesAppend([queue[0]], queue[1..]);
        HandleNext();
      }
    }

    /** The handler of a thrown interruption posts Shutdown. */
    method Throw()
      requires Valid() && state.app.Idle?
      modifies this
      ensures Valid() && history == old(history) + [Interrupt] && state.app == Returned(1)
      ensures queue == old(queue) + [Shutdown] && Pulled(c, history) == Pulled(c, old(history))
      ensures Closes(queue) == Closes(old(queue))
    {
      ClosesAppend(queue, [Shutdown]);
      queue := queue + [Shutdown];
      Record(Interrupt);
    }

    /** The end of `exec` after the loop: its test found `terminated`, or an interruption. */
    method Leave()
      requires Valid() && state.app.Idle?
      modifies this`state, this`history
      ensures Valid() && old(history) <= history && state == old(state).(app := Returned(0))
      ensures Pulled(c, history) == Pulled(c, old(history))
      ensures NoHazards(c, history) ==> forall t :: t in pool <==> t in state.deleted
    {
      if terminated {
        Record(Return);
      } else {
        Record(TestInterrupted);
      }
      if NoHazards(c, history) {
        Safety(c, history);
        InvReachable(c, history);
      }
    }

    lemma PullEnabled()
      requires Valid() && state.app.Idle? && !terminated && queue != []
      ensures Enabled(c, state, Pull)
    {
      SoundReachable(c, history);
      assert queue[0] in queue;
    }
  }
}
