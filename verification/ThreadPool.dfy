/** `ThreadPool` as a state machine: every lock-protected section, every unprotected read
    of `m_stop` and every condition-variable signal is one step, and steps of different
    threads interleave freely. */
module ThreadPool {

  type Task = nat

  /** Where each worker is, the shared fields, and a history of the queue.

      `starting`: about to test `m_stop` at the loop head. `entering`: about to take the
      lock. `sleeping`: inside the wait. `woken`: signalled or woken spuriously, about to
      retake the lock. `running`: executing a task; `holds[w]` is its place in `dequeued`. */
  datatype Pool = Pool(
    queue: seq<Task>, stop: bool,
    starting: set<nat>, entering: set<nat>, sleeping: set<nat>, woken: set<nat>, running: set<nat>, exited: set<nat>,
    pending: nat, broadcast: bool,
    submitted: seq<Task>, dequeued: seq<Task>, holds: map<nat, nat>, finished: set<nat>, late: seq<nat>)

  /** The constructor: one worker per thread, all at the head of their loop. */
  function Start(workers: set<nat>): Pool {
    Pool([], false, workers, {}, {}, {}, {}, {}, 0, false, [], [], map[], {}, [])
  }

  datatype Action =
    | Submit(task: Task)   // addTask: push under the lock; its notify_one is still to come
    | Notify(w: nat)       // notify_one reaches the sleeper w
    | NotifyNobody         // notify_one finds no sleeper
    | Check(w: nat)        // while (!m_stop)
    | Lock(w: nat)         // take the lock, test the wait predicate, act on it
    | Spurious(w: nat)     // a wakeup nobody asked for
    | Return(w: nat)       // the task returns
    | Stop                 // shutdown: m_stop = true
    | NotifyAll            // shutdown: notify_all

  predicate Enabled(s: Pool, a: Action) {
    match a
    case Submit(_) => true
    case Notify(w) => s.pending > 0 && w in s.sleeping
    case NotifyNobody => s.pending > 0 && s.sleeping == {}
    case Check(w) => w in s.starting
    case Lock(w) => w in s.entering || w in s.woken
    case Spurious(w) => w in s.sleeping
    case Return(w) => w in s.running
    case Stop => true
    case NotifyAll => s.stop
  }

  function Apply(s: Pool, a: Action): Pool
    requires Enabled(s, a)
  {
    match a
    case Submit(task) => s.(queue := s.queue + [task], submitted := s.submitted + [task], pending := s.pending + 1)
    case Notify(w) => s.(pending := s.pending - 1, sleeping := s.sleeping - {w}, woken := s.woken + {w})
    case NotifyNobody => s.(pending := s.pending - 1)
    case Check(w) =>
      if s.stop then s.(starting := s.starting - {w}, exited := s.exited + {w})
      else s.(starting := s.starting - {w}, entering := s.entering + {w})
    case Lock(w) =>
      var t := s.(entering := s.entering - {w}, woken := s.woken - {w});
      if !s.stop && s.queue == [] then t.(sleeping := s.sleeping + {w})
      else if s.queue == [] then t.(exited := s.exited + {w})
      else t.(queue := s.queue[1..], dequeued := s.dequeued + [s.queue[0]], running := s.running + {w},
              holds := s.holds[w := |s.dequeued|], late := if s.stop then s.late + [w] else s.late)
    case Spurious(w) => s.(sleeping := s.sleeping - {w}, woken := s.woken + {w})
    case Return(w) =>
      s.(running := s.running - {w}, starting := s.starting + {w}, holds := s.holds - {w},
         finished := s.finished + (if w in s.holds then {s.holds[w]} else {}))
    case Stop => s.(stop := true)
    case NotifyAll => s.(sleeping := {}, woken := s.woken + s.sleeping, broadcast := true)
  }

  /** The state after a list of steps, if each was possible. */
  datatype Outcome = Impossible | Reached(pool: Pool)

  function Run(workers: set<nat>, actions: seq<Action>): Outcome {
    if actions == [] then Reached(Start(workers))
    else
      var before, a := Run(workers, actions[..|actions| - 1]), actions[|actions| - 1];
      if before.Impossible? || !Enabled(before.pool, a) then Impossible else Reached(Apply(before.pool, a))
  }

  // ---- invariants ----

  /** Each worker is in exactly one place. */
  ghost predicate Placed(s: Pool, workers: set<nat>) {
    && s.starting !! s.entering !! s.sleeping !! s.woken !! s.running !! s.exited
    && s.starting + s.entering + s.sleeping + s.woken + s.running + s.exited == workers
  }

  /** The queue is first in, first out, and loses and repeats nothing: what was submitted
      is what was dequeued followed by what is queued; every dequeued task is finished or
      held by exactly one worker. */
  ghost predicate Fifo(s: Pool) {
    && s.submitted == s.dequeued + s.queue
    && s.holds.Keys == s.running
    && (forall k :: k in s.finished ==> k < |s.dequeued|)
    && (forall w :: w in s.holds ==> s.holds[w] < |s.dequeued| && s.holds[w] !in s.finished)
    && (forall v, w :: v in s.holds && w in s.holds && v != w ==> s.holds[v] != s.holds[w])
    && (forall k :: 0 <= k < |s.dequeued| ==> k in s.finished || exists w :: w in s.holds && s.holds[w] == k)
  }

  function Idle(s: Pool): nat { |s.starting| + |s.entering| + |s.woken| }

  /** No lost wakeup. */
  ghost predicate Covered(s: Pool) {
    !s.stop && s.sleeping != {} ==> |s.queue| <= s.pending + Idle(s)
  }

  /** Nobody leaves before a stop. After it, late dequeues come from distinct workers that
      never queue up again, and once notify_all has run nobody sleeps. */
  ghost predicate Stopping(s: Pool) {
    && (s.broadcast ==> s.stop && s.sleeping == {})
    && (!s.stop ==> s.late == [] && s.exited == {})
    && (forall i, j :: 0 <= i < j < |s.late| ==> s.late[i] != s.late[j])
    && (forall w :: w in s.late ==> w in s.starting || w in s.running || w in s.exited)
  }

  lemma PlacesApart(s: Pool, workers: set<nat>)
    requires Placed(s, workers)
    ensures s.starting !! s.entering && s.sleeping !! s.woken && s.entering !! s.woken && s.running !! s.starting
  {
  }

  lemma PlacedStep(s: Pool, workers: set<nat>, a: Action)
    requires Placed(s, workers) && Enabled(s, a)
    ensures Placed(Apply(s, a), workers)
  {
  }

  lemma FifoStep(s: Pool, workers: set<nat>, a: Action)
    requires Placed(s, workers) && Fifo(s) && Enabled(s, a)
    ensures Fifo(Apply(s, a))
  {
    var t := Apply(s, a);
    match a
    case Lock(w) =>
      if s.queue != [] {
        LockKeepsFifo(s, workers, w);
      }
    case Return(w) => ReturnKeepsFifo(s, workers, w);
    case _ =>
  }

  lemma LockKeepsFifo(s: Pool, workers: set<nat>, w: nat)
    requires Placed(s, workers) && Fifo(s) && Enabled(s, Lock(w)) && s.queue != []
    ensures Fifo(Apply(s, Lock(w)))
  {
    assert w !in s.running;
    var t := Apply(s, Lock(w));
    hide Placed, Enabled;
    assert t.holds == s.holds[w := |s.dequeued|] && t.finished == s.finished && t.running == s.running + {w};
    assert s.queue == [s.queue[0]] + s.queue[1..];
    assert t.dequeued == s.dequeued + [s.queue[0]] && t.queue == s.queue[1..] && t.submitted == s.submitted;
    hide Apply;
    forall k | 0 <= k < |t.dequeued| ensures k in t.finished || exists v :: v in t.holds && t.holds[v] == k {
      if k == |s.dequeued| {
        assert t.holds[w] == k;
      } else if k !in s.finished {
        var v :| v in s.holds && s.holds[v] == k;
        assert t.holds[v] == k;
      }
    }
  }

  lemma ReturnKeepsFifo(s: Pool, workers: set<nat>, w: nat)
    requires Placed(s, workers) && Fifo(s) && Enabled(s, Return(w))
    ensures Fifo(Apply(s, Return(w)))
  {
    var t := Apply(s, Return(w));
    assert t.holds == s.holds - {w} && t.finished == s.finished + {s.holds[w]} && t.running == s.running - {w};
    assert t.dequeued == s.dequeued && t.queue == s.queue && t.submitted == s.submitted;
    hide Placed, Enabled, Apply;
    forall k | 0 <= k < |t.dequeued| ensures k in t.finished || exists v :: v in t.holds && t.holds[v] == k {
      if k !in t.finished {
        var v :| v in s.holds && s.holds[v] == k;
        assert t.holds[v] == k;
      }
    }
  }

  lemma Move(from: set<nat>, to: set<nat>, w: nat)
    requires w in from && w !in to
    ensures |from - {w}| == |from| - 1 && |to + {w}| == |to| + 1
  {
  }

  lemma CoveredStep(s: Pool, a: Action)
    requires s.starting !! s.entering && s.sleeping !! s.woken && s.entering !! s.woken && s.running !! s.starting
    requires Covered(s) && Enabled(s, a)
    ensures Covered(Apply(s, a))
  {
    match a
    case Notify(w) => Move(s.sleeping, s.woken, w);
    case Spurious(w) => Move(s.sleeping, s.woken, w);
    case Check(w) => Move(s.starting, s.entering, w);
    case Return(w) => Move(s.running, s.starting, w);
    case Lock(w) => LockCovered(s, w);
    case _ =>
  }

  lemma LockCovered(s: Pool, w: nat)
    requires s.entering !! s.woken && Covered(s) && Enabled(s, Lock(w))
    ensures Covered(Apply(s, Lock(w)))
  {
    if s.queue != [] {
      if w in s.entering {
        Move(s.entering, {}, w);
        assert s.woken - {w} == s.woken;
      } else {
        Move(s.woken, {}, w);
        assert s.entering - {w} == s.entering;
      }
    }
  }

  lemma StoppingStep(s: Pool, workers: set<nat>, a: Action)
    requires Placed(s, workers) && Stopping(s) && Enabled(s, a)
    ensures Stopping(Apply(s, a))
  {
  }

  ghost predicate Inv(s: Pool, workers: set<nat>) {
    Placed(s, workers) && Fifo(s) && Covered(s) && Stopping(s)
  }

  /** The invariants hold in every reachable interleaving. */
  lemma {:induction false} Reachable(workers: set<nat>, actions: seq<Action>)
    requires Run(workers, actions).Reached?
    ensures Inv(Run(workers, actions).pool, workers)
  {
    hide Placed, Fifo, Covered, Stopping, Apply;
    if actions == [] {
      StartInv(workers);
    } else {
      var before, a := actions[..|actions| - 1], actions[|actions| - 1];
      Reachable(workers, before);
      var s := Run(workers, before).pool;
      PlacedStep(s, workers, a);
      FifoStep(s, workers, a);
      PlacesApart(s, workers);
      CoveredStep(s, a);
      StoppingStep(s, workers, a);
    }
  }

  lemma StartInv(workers: set<nat>)
    ensures Inv(Start(workers), workers)
  {
  }

  // ---- theorems ----

  /** No wakeup is lost: before a stop, while any worker sleeps, every queued task is
      matched by a signal on its way or by a worker that is awake without a task. */
  lemma NoLostWakeup(workers: set<nat>, actions: seq<Action>)
    requires Run(workers, actions).Reached?
    ensures var s := Run(workers, actions).pool;
      !s.stop && s.sleeping != {} ==> |s.queue| <= s.pending + |s.starting| + |s.entering| + |s.woken|
  {
    hide Run, Placed, Fifo, Stopping;
    Reachable(workers, actions);
  }

  /** When every signal has been delivered and every worker is asleep or busy, a task is
      left in the queue only if all workers are busy. */
  lemma QuietMeansServed(workers: set<nat>, actions: seq<Action>)
    requires Run(workers, actions).Reached?
    requires var s := Run(workers, actions).pool;
      !s.stop && s.pending == 0 && s.starting + s.entering + s.woken == {}
    ensures var s := Run(workers, actions).pool; s.queue == [] || s.running == workers
  {
    hide Run, Fifo;
    Reachable(workers, actions);
    var s := Run(workers, actions).pool;
    assert s.starting == {} && s.entering == {} && s.woken == {} && s.exited == {};
  }

  /** Tasks leave the queue in the order they were submitted, none lost or repeated. */
  lemma SubmittedIsDequeuedThenQueued(workers: set<nat>, actions: seq<Action>)
    requires Run(workers, actions).Reached?
    ensures var s := Run(workers, actions).pool;
      && s.submitted == s.dequeued + s.queue
      && (forall k :: 0 <= k < |s.dequeued| ==>
           (k in s.finished) != (exists w :: w in s.holds && s.holds[w] == k))
      && (forall v, w :: v in s.holds && w in s.holds && v != w ==> s.holds[v] != s.holds[w])
      && s.holds.Keys == s.running
  {
    hide Run, Placed, Covered, Stopping;
    Reachable(workers, actions);
  }

  /** `submitted` itself is what the `addTask` calls of the run say. */
  function SubmittedBy(actions: seq<Action>): seq<Task> {
    if actions == [] then []
    else
      var a := actions[|actions| - 1];
      SubmittedBy(actions[..|actions| - 1]) + (if a.Submit? then [a.task] else [])
  }

  lemma {:induction false} HistoryIsSubmissions(workers: set<nat>, actions: seq<Action>)
    requires Run(workers, actions).Reached?
    ensures Run(workers, actions).pool.submitted == SubmittedBy(actions)
  {
    if actions != [] {
      HistoryIsSubmissions(workers, actions[..|actions| - 1]);
    }
  }

  lemma DistinctAtMost(l: seq<nat>, workers: set<nat>)
    requires forall i, j :: 0 <= i < j < |l| ==> l[i] != l[j]
    requires forall w :: w in l ==> w in workers
    ensures |l| <= |workers|
    decreases |l|
  {
    if l != [] {
      var w, front := l[|l| - 1], l[..|l| - 1];
      assert l == front + [w];
      DistinctAtMost(front, workers - {w});
    }
  }

  lemma LateStep(s: Pool, a: Action)
    requires Enabled(s, a) && s.stop
    ensures var t := Apply(s, a);
      t.stop && |t.dequeued| - |s.dequeued| == |t.late| - |s.late| && s.dequeued <= t.dequeued
  {
  }

  lemma {:induction false} DequeuesAfterStopAreLate(workers: set<nat>, actions: seq<Action>, more: seq<Action>)
    requires Run(workers, actions).Reached? && Run(workers, actions + more).Reached? && Run(workers, actions).pool.stop
    ensures var s, t := Run(workers, actions).pool, Run(workers, actions + more).pool;
      t.stop && |t.dequeued| - |s.dequeued| == |t.late| - |s.late| && s.dequeued <= t.dequeued
  {
    var all := actions + more;
    if more == [] {
      assert all == actions;
    } else {
      assert all[..|all| - 1] == actions + more[..|more| - 1];
      hide Apply, Enabled;
      DequeuesAfterStopAreLate(workers, actions, more[..|more| - 1]);
      LateStep(Run(workers, actions + more[..|more| - 1]).pool, more[|more| - 1]);
    }
  }

  /** After a stop each worker dequeues at most one further task, so at most as many
      tasks as there are workers leave the queue. */
  lemma AtMostOneMoreEach(workers: set<nat>, actions: seq<Action>, more: seq<Action>)
    requires Run(workers, actions).Reached? && Run(workers, actions + more).Reached? && Run(workers, actions).pool.stop
    ensures var s, t := Run(workers, actions).pool, Run(workers, actions + more).pool;
      && |t.dequeued| - |s.dequeued| <= |workers|
      && forall i, j :: 0 <= i < j < |t.late| ==> t.late[i] != t.late[j]
  {
    hide Fifo, Covered, Apply, Run;
    DequeuesAfterStopAreLate(workers, actions, more);
    Reachable(workers, actions + more);
    DistinctAtMost(Run(workers, actions + more).pool.late, workers);
  }

  // ---- sleeping ----

  /** The steps that wake this worker. */
  predicate WakesUp(a: Action, w: nat) { a == Notify(w) || a == Spurious(w) || a.NotifyAll? }

  /** A worker that finds no task before a stop is asleep after its step and nowhere else;
      one that finds a task holds the oldest one. */
  lemma LockActs(workers: set<nat>, actions: seq<Action>, w: nat)
    requires Run(workers, actions + [Lock(w)]).Reached?
    ensures Run(workers, actions).Reached?
    ensures var s, t := Run(workers, actions).pool, Run(workers, actions + [Lock(w)]).pool;
      && w !in t.entering && w !in t.woken
      && (w in t.sleeping <==> s.queue == [] && !s.stop)
      && (w in t.exited <==> s.queue == [] && s.stop)
      && (w in t.running <==> s.queue != [])
      && (s.queue != [] ==> w in t.holds && t.holds[w] < |t.dequeued| && t.dequeued[t.holds[w]] == s.queue[0])
      && t.queue == if s.queue == [] then [] else s.queue[1..]
  {
    hide Run;
    OneMore(workers, actions, Lock(w));
    Reachable(workers, actions);
    hide Fifo, Covered, Stopping;
  }

  lemma SleepStep(s: Pool, a: Action, w: nat)
    requires Enabled(s, a) && w in s.sleeping && w !in s.entering && w !in s.woken
    ensures w in Apply(s, a).sleeping <==> !WakesUp(a, w)
  {
  }

  /** A sleeping worker sleeps on exactly until a signal reaches it, it is woken spuriously or
      shutdown wakes everybody. */
  lemma {:induction false} SleepsUntilWoken(workers: set<nat>, actions: seq<Action>, more: seq<Action>, w: nat)
    requires Run(workers, actions).Reached? && Run(workers, actions + more).Reached?
    requires w in Run(workers, actions).pool.sleeping
    requires forall i :: 0 <= i < |more| - 1 ==> !WakesUp(more[i], w)
    ensures w in Run(workers, actions + more).pool.sleeping <==> more == [] || !WakesUp(more[|more| - 1], w)
  {
    var all := actions + more;
    if more == [] {
      assert all == actions;
    } else {
      var front, a := more[..|more| - 1], more[|more| - 1];
      assert all[..|all| - 1] == actions + front;
      assert forall i :: 0 <= i < |front| ==> front[i] == more[i];
      hide Apply, Enabled, WakesUp, Fifo, Covered, Stopping;
      SleepsUntilWoken(workers, actions, front, w);
      Reachable(workers, actions + front);
      SleepStep(Run(workers, actions + front).pool, a, w);
    }
  }

  // ---- shutdown ----

  predicate WorkerStep(a: Action) { a.Check? || a.Lock? || a.Return? }

  function WorkerSteps(actions: seq<Action>): nat {
    if actions == [] then 0
    else WorkerSteps(actions[..|actions| - 1]) + (if WorkerStep(actions[|actions| - 1]) then 1 else 0)
  }

  /** Steps the workers can still take once nobody sleeps. */
  function Work(s: Pool): nat { 3 * |s.entering| + 3 * |s.woken| + 2 * |s.running| + |s.starting| }

  lemma WorkFalls(s: Pool, a: Action)
    requires s.entering !! s.woken && s.running !! s.entering && s.running !! s.woken && s.running !! s.starting
    requires s.broadcast && s.stop && s.sleeping == {} && Enabled(s, a)
    ensures Apply(s, a).broadcast
    ensures Work(Apply(s, a)) + (if WorkerStep(a) then 1 else 0) <= Work(s)
  {
    match a
    case Check(w) => Move(s.starting, {}, w);
    case Lock(w) => LockWork(s, w);
    case Return(w) => Move(s.running, s.starting, w);
    case NotifyAll => assert s.woken + s.sleeping == s.woken;
    case _ =>
  }

  lemma LockWork(s: Pool, w: nat)
    requires s.entering !! s.woken && s.running !! s.entering && s.running !! s.woken
    requires s.stop && Enabled(s, Lock(w))
    ensures Work(Apply(s, Lock(w))) + 1 <= Work(s)
  {
    if w in s.entering {
      Move(s.entering, s.running, w);
      assert s.woken - {w} == s.woken;
    } else {
      Move(s.woken, s.running, w);
      assert s.entering - {w} == s.entering;
    }
  }

  lemma WorkBound(s: Pool, workers: set<nat>)
    requires Placed(s, workers)
    ensures Work(s) <= 3 * |workers|
  {
    var a := s.starting + s.entering;
    var b := a + s.sleeping + s.woken;
    var c := b + s.running;
    assert |a| == |s.starting| + |s.entering|;
    assert |b| == |a| + |s.sleeping| + |s.woken|;
    assert |c| == |b| + |s.running|;
    assert workers == c + s.exited;
    assert |workers| == |c| + |s.exited|;
  }

  lemma AfterBroadcast(s: Pool, workers: set<nat>)
    requires Placed(s, workers) && Stopping(s) && s.broadcast
    ensures s.entering !! s.woken && s.running !! s.entering && s.running !! s.woken && s.running !! s.starting
    ensures s.stop && s.sleeping == {}
  {
  }

  lemma StuckMeansExited(s: Pool, workers: set<nat>)
    requires Placed(s, workers) && s.sleeping == {}
    requires forall a :: WorkerStep(a) ==> !Enabled(s, a)
    ensures s.exited == workers
  {
    forall w: nat ensures w !in s.starting + s.entering + s.woken + s.running {
      assert !Enabled(s, Check(w)) && !Enabled(s, Lock(w)) && !Enabled(s, Return(w));
    }
    assert s.starting + s.entering + s.woken + s.running == {};
  }

  lemma {:induction false} StepsSpendWork(workers: set<nat>, actions: seq<Action>, more: seq<Action>)
    requires Run(workers, actions).Reached? && Run(workers, actions + more).Reached?
    requires Run(workers, actions).pool.broadcast
    ensures var s, t := Run(workers, actions).pool, Run(workers, actions + more).pool;
      t.broadcast && WorkerSteps(more) + Work(t) <= Work(s)
  {
    hide Placed, Fifo, Covered, Stopping, Apply, Work;
    var all := actions + more;
    if more == [] {
      assert all == actions;
    } else {
      var front := more[..|more| - 1];
      assert all[..|all| - 1] == actions + front;
      StepsSpendWork(workers, actions, front);
      Reachable(workers, actions + front);
      AfterBroadcast(Run(workers, actions + front).pool, workers);
      WorkFalls(Run(workers, actions + front).pool, more[|more| - 1]);
    }
  }

  /** The steps of one worker. */
  function StepsOf(actions: seq<Action>, w: nat): nat {
    if actions == [] then 0
    else
      var a := actions[|actions| - 1];
      StepsOf(actions[..|actions| - 1], w) + (if WorkerStep(a) && a.w == w then 1 else 0)
  }

  /** Steps one worker can still take once nobody sleeps. */
  function WorkOf(s: Pool, w: nat): nat {
    if w in s.entering || w in s.woken then 3 else if w in s.running then 2 else if w in s.starting then 1 else 0
  }

  lemma WorkOfFalls(s: Pool, workers: set<nat>, a: Action, w: nat)
    requires Placed(s, workers) && s.stop && s.sleeping == {} && Enabled(s, a)
    ensures WorkOf(Apply(s, a), w) + (if WorkerStep(a) && a.w == w then 1 else 0) <= WorkOf(s, w)
  {
  }

  lemma {:induction false} StepsOfSpendWork(workers: set<nat>, actions: seq<Action>, more: seq<Action>, w: nat)
    requires Run(workers, actions).Reached? && Run(workers, actions + more).Reached?
    requires Run(workers, actions).pool.broadcast
    ensures var s, t := Run(workers, actions).pool, Run(workers, actions + more).pool;
      t.broadcast && StepsOf(more, w) + WorkOf(t, w) <= WorkOf(s, w)
  {
    hide Placed, Fifo, Covered, Stopping, Apply, WorkOf, WorkerSteps;
    StepsSpendWork(workers, actions, more);
    var all := actions + more;
    if more == [] {
      assert all == actions;
    } else {
      var front := more[..|more| - 1];
      assert all[..|all| - 1] == actions + front;
      StepsOfSpendWork(workers, actions, front, w);
      var s := Run(workers, actions + front).pool;
      Reachable(workers, actions + front);
      AfterBroadcast(s, workers);
      WorkOfFalls(s, workers, more[|more| - 1], w);
    }
  }

  /** Shutdown ends: after notify_all each worker takes at most three steps, nobody sleeps,
      and whenever no worker can take a step all of them have exited, so the joins return
      provided running tasks return. */
  lemma ShutdownEnds(workers: set<nat>, actions: seq<Action>, more: seq<Action>)
    requires Run(workers, actions).Reached? && Run(workers, actions + more).Reached?
    requires Run(workers, actions).pool.broadcast
    ensures var t := Run(workers, actions + more).pool;
      && (forall w: nat :: StepsOf(more, w) <= if w in workers then 3 else 0)
      && WorkerSteps(more) <= 3 * |workers|
      && t.sleeping == {}
      && ((forall a :: WorkerStep(a) ==> !Enabled(t, a)) ==> t.exited == workers)
  {
    hide Run, Placed, Fifo, Covered, Stopping, Work, Enabled;
    StepsSpendWork(workers, actions, more);
    Reachable(workers, actions);
    WorkBound(Run(workers, actions).pool, workers);
    forall w: nat ensures StepsOf(more, w) <= if w in workers then 3 else 0 {
      StepsOfSpendWork(workers, actions, more, w);
      OutsidersRest(Run(workers, actions).pool, workers, w);
    }
    Reachable(workers, actions + more);
    var t := Run(workers, actions + more).pool;
    AfterBroadcast(t, workers);
    if forall a :: WorkerStep(a) ==> !Enabled(t, a) {
      StuckMeansExited(t, workers);
    }
  }

  lemma OutsidersRest(s: Pool, workers: set<nat>, w: nat)
    requires Placed(s, workers)
    ensures WorkOf(s, w) <= if w in workers then 3 else 0
  {
  }

  /** The workers that will still look at the queue after a stop: one turn each. */
  function Waiting(s: Pool): nat { |s.entering| + |s.woken| + |s.sleeping| }

  /** The queued tasks beyond those turns. */
  function Excess(s: Pool): nat {
    if |s.queue| <= Waiting(s) then 0 else |s.queue| - Waiting(s)
  }

  predicate NoSubmit(actions: seq<Action>) {
    forall a :: a in actions ==> !a.Submit?
  }

  lemma LockKeepsExcess(s: Pool, w: nat)
    requires s.entering !! s.woken && s.stop && Enabled(s, Lock(w))
    ensures Excess(Apply(s, Lock(w))) == Excess(s)
  {
    if w in s.entering {
      Move(s.entering, {}, w);
      assert s.woken - {w} == s.woken;
    } else {
      Move(s.woken, {}, w);
      assert s.entering - {w} == s.entering;
    }
  }

  lemma ExcessStays(s: Pool, a: Action)
    requires s.entering !! s.woken && s.sleeping !! s.woken && s.stop && Enabled(s, a) && !a.Submit?
    ensures var t := Apply(s, a); t.stop && Excess(t) == Excess(s)
  {
    match a
    case Notify(w) => Move(s.sleeping, s.woken, w);
    case Spurious(w) => Move(s.sleeping, s.woken, w);
    case Lock(w) => LockKeepsExcess(s, w);
    case NotifyAll => assert |s.woken + s.sleeping| == |s.woken| + |s.sleeping|;
    case _ =>
  }

  lemma QueueOnlyShrinks(s: Pool, a: Action)
    requires Enabled(s, a) && !a.Submit?
    ensures var t := Apply(s, a); |t.queue| <= |s.queue| && t.queue == s.queue[|s.queue| - |t.queue|..]
  {
  }

  lemma {:induction false} ExcessStaysOverRun(workers: set<nat>, actions: seq<Action>, more: seq<Action>)
    requires Run(workers, actions).Reached? && Run(workers, actions + more).Reached? && Run(workers, actions).pool.stop
    requires NoSubmit(more)
    ensures var s, t := Run(workers, actions).pool, Run(workers, actions + more).pool;
      && t.stop && Excess(t) == Excess(s)
      && |t.queue| <= |s.queue| && t.queue == s.queue[|s.queue| - |t.queue|..]
  {
    hide Placed, Fifo, Covered, Stopping, Apply, Excess, Enabled;
    var all := actions + more;
    if more == [] {
      assert all == actions;
    } else {
      var front := more[..|more| - 1];
      assert all[..|all| - 1] == actions + front;
      ExcessStaysOverRun(workers, actions, front);
      var s := Run(workers, actions + front).pool;
      Reachable(workers, actions + front);
      PlacesApart(s, workers);
      ExcessStays(s, more[|more| - 1]);
      QueueOnlyShrinks(s, more[|more| - 1]);
    }
  }

  lemma NobodyWaitsAtTheEnd(s: Pool, workers: set<nat>)
    requires Placed(s, workers) && s.exited == workers
    ensures Excess(s) == |s.queue|
  {
    assert s.entering == {} && s.woken == {} && s.sleeping == {};
  }

  /** What shutdown drops. Once `m_stop` is set, each worker about to take the lock or
      waiting takes at most one more task, and the others leave at the loop head without a
      look at the queue. So when all have exited, the tasks dropped are exactly the last
      ones in excess of the waiting workers, and none is dropped exactly if the queue was
      no longer than their number. With submissions after the stop, this holds from the
      last of them on. */
  lemma ShutdownDropsExactly(workers: set<nat>, actions: seq<Action>, more: seq<Action>)
    requires Run(workers, actions).Reached? && Run(workers, actions + more).Reached? && Run(workers, actions).pool.stop
    requires NoSubmit(more) && Run(workers, actions + more).pool.exited == workers
    ensures var s, t := Run(workers, actions).pool, Run(workers, actions + more).pool;
      && t.queue == s.queue[|s.queue| - Excess(s)..]
      && (t.queue == [] <==> |s.queue| <= |s.entering| + |s.woken| + |s.sleeping|)
  {
    hide Run, Placed, Fifo, Covered, Stopping;
    ExcessStaysOverRun(workers, actions, more);
    Reachable(workers, actions + more);
    NobodyWaitsAtTheEnd(Run(workers, actions + more).pool, workers);
  }

  /** Shutdown may drop tasks: a worker leaves its loop on `m_stop` without looking at the
      queue. */
  lemma ShutdownCanDropTasks(task: Task)
    ensures var r := Run({0}, [Submit(task), NotifyNobody, Stop, NotifyAll, Check(0)]);
      r.Reached? && r.pool.exited == {0} && r.pool.queue == [task]
  {
    var s0 := Start({0});
    var s1 := s0.(queue := [task], submitted := [task], pending := 1);
    var s3 := s1.(pending := 0, stop := true);
    assert Run({0}, []) == Reached(s0);
    hide Run;
    OneMore({0}, [], Submit(task));
    assert [] + [Submit(task)] == [Submit(task)] && s0.queue + [task] == [task] && s0.submitted + [task] == [task];
    assert Run({0}, [Submit(task)]) == Reached(s1);
    OneMore({0}, [Submit(task)], NotifyNobody);
    assert [Submit(task)] + [NotifyNobody] == [Submit(task), NotifyNobody];
    OneMore({0}, [Submit(task), NotifyNobody], Stop);
    assert [Submit(task), NotifyNobody] + [Stop] == [Submit(task), NotifyNobody, Stop];
    assert Run({0}, [Submit(task), NotifyNobody, Stop]) == Reached(s3);
    OneMore({0}, [Submit(task), NotifyNobody, Stop], NotifyAll);
    assert [Submit(task), NotifyNobody, Stop] + [NotifyAll] == [Submit(task), NotifyNobody, Stop, NotifyAll];
    OneMore({0}, [Submit(task), NotifyNobody, Stop, NotifyAll], Check(0));
    assert [Submit(task), NotifyNobody, Stop, NotifyAll] + [Check(0)] ==
      [Submit(task), NotifyNobody, Stop, NotifyAll, Check(0)];
  }

  lemma OneMore(workers: set<nat>, actions: seq<Action>, a: Action)
    ensures var r := Run(workers, actions);
      Run(workers, actions + [a]) ==
        if r.Impossible? || !Enabled(r.pool, a) then Impossible else Reached(Apply(r.pool, a))
  {
    assert (actions + [a])[..|actions|] == actions;
  }
}
