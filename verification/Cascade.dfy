/**
 The shutdown cascade: the application loop left to itself, with no thread running, no Close queued
 and nobody posting.  A rank over the queued events bounds what is still handled.
*/
module Cascade {
  import opened Lifecycle

  /** Each handler posts at most one event, of a lower rank than the one handled. */
  function Rank(queue: seq<Event>): nat {
    if queue == [] then 0
    else (match queue[0] case ThreadRemove(_) => 3 case ThreadsGone(_) => 2 case _ => 1) + Rank(queue[1..])
  }

  /** Removals are of threads that are not running, and `stop` is not asked for. */
  ghost predicate Calm(s: State) {
    && s.app.Idle?
    && forall e :: e in s.queue ==> !e.Close? && (e.ThreadRemove? ==> e.t in s.pool && !Refused(s.pool[e.t]))
  }

  /** The loop of `exec` run until it ends or finds its queue empty, where it would wait. */
  ghost function Settled(c: Config, s: State): State
    requires Calm(s)
    decreases Rank(s.queue)
  {
    if s.terminated || s.queue == [] then s
    else
      PulledCalm(c, s);
      Settled(c, Next(c, s, Pull))
  }

  /** How many events it handles. */
  ghost function Handlings(c: Config, s: State): nat
    requires Calm(s)
    decreases Rank(s.queue)
  {
    if s.terminated || s.queue == [] then 0
    else
      PulledCalm(c, s);
      1 + Handlings(c, Next(c, s, Pull))
  }

  lemma {:induction false} RankAppend(q: seq<Event>, r: seq<Event>)
    ensures Rank(q + r) == Rank(q) + Rank(r)
  {
    if q == [] {
      assert q + r == r;
    } else {
      assert (q + r)[1..] == q[1..] + r;
      RankAppend(q[1..], r);
    }
  }

  lemma HandledRank(c: Config, s: State, e: Event)
    requires e.ThreadRemove? ==> e.t in s.pool
    ensures Rank(Handled(c, s, e).queue) < Rank([e] + s.queue)
  {
    assert ([e] + s.queue)[1..] == s.queue;
    match e
    case ThreadRemove(_) => RankAppend(s.queue, [ThreadsGone(false)]);
    case ThreadsGone(restarting) => RankAppend(s.queue, [if restarting then Restart else Shutdown]);
    case _ =>
  }

  /** What a handler posts is no removal, and no Close. */
  lemma HandledPosts(c: Config, s: State, e: Event) returns (posts: seq<Event>)
    requires e.ThreadRemove? ==> e.t in s.pool && !Refused(s.pool[e.t])
    ensures Handled(c, s, e).queue == s.queue + posts
    ensures posts == [] || (|posts| == 1 && !posts[0].ThreadRemove? && !posts[0].Close?)
    ensures Handled(c, s, e).deleted == s.deleted + if e.ThreadRemove? then [e.t] else []
  {
    match e
    case ThreadRemove(t) => posts := if Without(s.threads, t) == [] then [ThreadsGone(false)] else [];
    case ThreadsGone(restarting) => posts := [if restarting then Restart else Shutdown];
    case _ => posts := [];
  }

  lemma PulledCalm(c: Config, s: State)
    requires Calm(s) && !s.terminated && s.queue != []
    ensures Enabled(c, s, Pull)
    ensures Calm(Next(c, s, Pull)) && Rank(Next(c, s, Pull).queue) < Rank(s.queue)
  {
    var e, tail := s.queue[0], s.queue[1..];
    assert e in s.queue;
    assert s.queue == [e] + tail;
    HandledRank(c, s.(queue := tail), e);
    PulledFields(c, s);
    var posts := HandledPosts(c, s.(queue := tail), e);
    assert forall x :: x in tail + posts ==> x in s.queue || x in posts;
  }

  /** The cascade ends: it handles at most `Rank` events. */
  lemma {:induction false} CascadeEnds(c: Config, s: State)
    requires Calm(s)
    ensures Handlings(c, s) <= Rank(s.queue)
    ensures Settled(c, s).terminated || Settled(c, s).queue == []
    decreases Rank(s.queue)
  {
    if !s.terminated && s.queue != [] {
      PulledCalm(c, s);
      CascadeEnds(c, Next(c, s, Pull));
    }
  }

  /** The same loop, for a number of turns only. */
  ghost function SettledIn(c: Config, s: State, turns: nat): State
    requires Calm(s)
    decreases turns
  {
    if s.terminated || s.queue == [] || turns == 0 then s
    else
      PulledCalm(c, s);
      SettledIn(c, Next(c, s, Pull), turns - 1)
  }

  /** One turn and then the others. */
  lemma SettledInNext(c: Config, s: State, turns: nat)
    requires Calm(s) && Calm(SettledIn(c, s, 1)) && turns > 0
    ensures SettledIn(c, SettledIn(c, s, 1), turns - 1) == SettledIn(c, s, turns)
  {
    if !s.terminated && s.queue != [] {
      PulledCalm(c, s);
      assert SettledIn(c, Next(c, s, Pull), 0) == Next(c, s, Pull);
    }
  }

  /** As many turns as the rank of the queue are enough. */
  lemma {:induction false} SettledInTime(c: Config, s: State, turns: nat)
    requires Calm(s) && Rank(s.queue) <= turns
    ensures SettledIn(c, s, turns) == Settled(c, s)
    decreases turns
  {
    if !s.terminated && s.queue != [] {
      PulledCalm(c, s);
      if turns > 0 {
        SettledInTime(c, Next(c, s, Pull), turns - 1);
      }
    }
  }

  /** Whether the end of the loop is already decided: it is posted, announced, or every thread left
      has its removal posted. */
  ghost predicate Ending(s: State) {
    || Shutdown in s.queue
    || ThreadsGone(false) in s.queue
    || ((exists t :: ThreadRemove(t) in s.queue) && forall t :: t in s.threads ==> ThreadRemove(t) in s.queue)
  }

  /** Handling one event neither loses nor makes the reason to end. */
  lemma EndingKept(c: Config, s: State)
    requires Calm(s) && !s.terminated && s.queue != [] && !s.queue[0].Shutdown?
    requires Enabled(c, s, Pull)
    ensures Ending(Next(c, s, Pull)) <==> Ending(s)
    ensures Next(c, s, Pull).terminated == s.terminated
  {
    var e, tail, s' := s.queue[0], s.queue[1..], Next(c, s, Pull);
    assert s.queue == [e] + tail;
    match e
    case ThreadRemove(t) =>
      assert t in s.pool && !Refused(s.pool[t]) by { assert e in s.queue; }
      WithoutMembers(s.threads, t);
      EndingAtRemoval(s, s', t);
    case ThreadsGone(restarting) =>
      assert s'.queue == tail + [if restarting then Restart else Shutdown];
      if !restarting { assert Shutdown in s'.queue; }
    case _ =>
  }

  lemma EndingAtRemoval(s: State, s': State, t: Tid)
    requires s.queue != [] && s.queue[0] == ThreadRemove(t)
    requires forall x :: x in s'.threads <==> x in s.threads && x != t
    requires s'.queue == s.queue[1..] + if s'.threads == [] then [ThreadsGone(false)] else []
    ensures Ending(s') <==> Ending(s)
  {
    var tail := s.queue[1..];
    assert s.queue == [ThreadRemove(t)] + tail;
    if s'.threads == [] {
      assert ThreadsGone(false) in s'.queue;
      assert forall x :: x in s.threads ==> x == t;
    } else {
      assert s'.queue == tail;
      assert s'.threads[0] in s'.threads;
    }
  }

  /** The cascade sets `terminated` if and only if the end was decided when it began; so when every
      thread left has its removal queued, it does. */
  lemma {:induction false} CascadeTerminates(c: Config, s: State)
    requires Calm(s) && !s.terminated
    ensures Settled(c, s).terminated <==> Ending(s)
    decreases Rank(s.queue)
  {
    if s.queue != [] {
      PulledCalm(c, s);
      var s' := Next(c, s, Pull);
      if s.queue[0].Shutdown? {
        assert s.queue[0] in s.queue;
        assert s'.terminated;
      } else {
        EndingKept(c, s);
        CascadeTerminates(c, s');
      }
    }
  }

  /** The removals queued, in order. */
  function Removals(queue: seq<Event>): seq<Tid> {
    if queue == [] then []
    else (if queue[0].ThreadRemove? then [queue[0].t] else []) + Removals(queue[1..])
  }

  lemma {:induction false} RemovalsCount(queue: seq<Event>, t: Tid)
    ensures multiset(Removals(queue))[t] == multiset(queue)[ThreadRemove(t)]
  {
    if queue != [] {
      RemovalsCount(queue[1..], t);
      assert queue == [queue[0]] + queue[1..];
    }
  }

  /** No removal is queued behind a Shutdown. */
  ghost predicate RemovalsFirst(q: seq<Event>) {
    forall i, j :: 0 <= i < j < |q| && q[i].Shutdown? ==> !q[j].ThreadRemove?
  }

  lemma {:induction false} NoRemovals(q: seq<Event>)
    requires forall e :: e in q ==> !e.ThreadRemove?
    ensures Removals(q) == []
  {
    if q != [] {
      assert q[0] in q;
      NoRemovals(q[1..]);
    }
  }

  lemma {:induction false} RemovalsAppend(q: seq<Event>, e: Event)
    requires !e.ThreadRemove?
    ensures Removals(q + [e]) == Removals(q)
  {
    if q != [] {
      assert (q + [e])[1..] == q[1..] + [e];
      RemovalsAppend(q[1..], e);
    }
  }

  lemma RemovalsFirstAppend(q: seq<Event>, e: Event)
    requires RemovalsFirst(q) && !e.ThreadRemove?
    ensures RemovalsFirst(q + [e])
  {
    assert forall i :: 0 <= i < |q| ==> (q + [e])[i] == q[i];
  }

  lemma RemovalsFirstTail(q: seq<Event>)
    requires RemovalsFirst(q) && q != []
    ensures RemovalsFirst(q[1..])
  {
    assert forall i :: 0 <= i < |q[1..]| ==> q[1..][i] == q[i + 1];
  }

  lemma PulledRemovals(c: Config, s: State)
    requires Calm(s) && !s.terminated && s.queue != [] && Enabled(c, s, Pull)
    requires RemovalsFirst(s.queue)
    ensures var s' := Next(c, s, Pull);
            RemovalsFirst(s'.queue) && s'.deleted + Removals(s'.queue) == s.deleted + Removals(s.queue)
  {
    var e, tail := s.queue[0], s.queue[1..];
    assert e in s.queue;
    RemovalsFirstTail(s.queue);
    var posts := HandledPosts(c, s.(queue := tail), e);
    if posts != [] {
      assert posts == [posts[0]];
      RemovalsAppend(tail, posts[0]);
      RemovalsFirstAppend(tail, posts[0]);
    }
  }

  /** The cascade carries out every removal queued, in order. */
  lemma {:induction false} CascadeRemoves(c: Config, s: State)
    requires Calm(s) && !s.terminated && RemovalsFirst(s.queue)
    ensures Settled(c, s).deleted == s.deleted + Removals(s.queue)
    decreases Rank(s.queue)
  {
    if s.queue != [] {
      PulledCalm(c, s);
      PulledRemovals(c, s);
      var s' := Next(c, s, Pull);
      if s'.terminated {
        assert s.queue[0].Shutdown?;
        assert forall i :: 0 <= i < |s.queue[1..]| ==> !s.queue[1..][i].ThreadRemove?;
        NoRemovals(s'.queue);
      } else {
        CascadeRemoves(c, s');
      }
    }
  }

  /** The cascade is a run of the system, after which `exec` can return 0 if it ended the loop. */
  lemma {:induction false} CascadeRuns(c: Config, steps: seq<Step>) returns (more: seq<Step>)
    requires Runs(c, steps) && Calm(After(c, steps))
    ensures Runs(c, more) && After(c, more) == Settled(c, After(c, steps))
    ensures |more| == |steps| + Handlings(c, After(c, steps))
    ensures NoHazards(c, steps) ==> NoHazards(c, more)
    decreases Rank(After(c, steps).queue)
  {
    var s := After(c, steps);
    if s.terminated || s.queue == [] {
      more := steps;
    } else {
      PulledCalm(c, s);
      ExtendSafely(c, steps, Pull);
      more := CascadeRuns(c, steps + [Pull]);
    }
  }

  lemma AllOnce(d: seq<Tid>)
    requires forall t :: multiset(d)[t] <= 1
    ensures Distinct(d)
  {
    forall i, j | 0 <= i < j < |d| ensures d[i] != d[j] {
      if d[i] == d[j] {
        Twice(d, i, j);
      }
    }
  }

  lemma {:induction false} OnceEach(d: seq<Tid>, t: Tid)
    requires Distinct(d)
    ensures multiset(d)[t] <= 1
  {
    if d != [] {
      OnceEach(d[1..], t);
      assert d == [d[0]] + d[1..];
    }
  }

  /** A removal posted twice is carried out twice: the cascade deletes some thread twice if and only
      if, when it began, the removal of some thread had been posted twice. */
  lemma DeletedTwiceExactly(c: Config, s: State)
    requires Calm(s) && !s.terminated && RemovalsFirst(s.queue)
    ensures Distinct(Settled(c, s).deleted) <==> forall t :: Posted(s, t) <= 1
  {
    CascadeRemoves(c, s);
    var d := Settled(c, s).deleted;
    forall t ensures multiset(d)[t] == Posted(s, t) {
      RemovalsCount(s.queue, t);
    }
    if Distinct(d) {
      forall t ensures Posted(s, t) <= 1 {
        OnceEach(d, t);
      }
    } else if forall t :: Posted(s, t) <= 1 {
      AllOnce(d);
    }
  }

  lemma CalmWhenSafe(s: State)
    requires Inv(s) && s.app.Idle? && Close !in s.queue
    ensures Calm(s)
  {
    forall e | e in s.queue && e.ThreadRemove? ensures e.t in s.pool && !Refused(s.pool[e.t]) {
      assert Posted(s, e.t) >= 1;
    }
  }

  /** Shutdown completes: from a state reached without a hazard, where no Close is queued and the
      removal of every thread left is, the application handles at most `Rank` events, returns 0, and
      has then deleted each thread ever added exactly once. */
  lemma ShutdownCompletes(c: Config, steps: seq<Step>) returns (more: seq<Step>)
    requires Runs(c, steps) && NoHazards(c, steps)
    requires var s := After(c, steps);
             && s.app.Idle? && !s.terminated && s.threads != [] && Close !in s.queue
             && forall t :: t in s.threads ==> ThreadRemove(t) in s.queue
    ensures Runs(c, more) && NoHazards(c, more)
    ensures |more| <= |steps| + Rank(After(c, steps).queue) + 1
    ensures var s := After(c, more);
            s.app == Returned(0) && Distinct(s.deleted) && forall t :: t in s.deleted <==> t in s.pool
  {
    var s := After(c, steps);
    InvReachable(c, steps);
    CalmWhenSafe(s);
    assert s.threads[0] in s.threads;
    CascadeTerminates(c, s);
    CascadeEnds(c, s);
    more := CascadeRuns(c, steps);
    SettledIdle(c, s);
    ExtendSafely(c, more, Return);
    more := more + [Return];
    Safety(c, more);
  }

  lemma {:induction false} SettledIdle(c: Config, s: State)
    requires Calm(s)
    ensures Settled(c, s).app.Idle?
    decreases Rank(s.queue)
  {
    if !s.terminated && s.queue != [] {
      PulledCalm(c, s);
      SettledIdle(c, Next(c, s, Pull));
    }
  }
}
