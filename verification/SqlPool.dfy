/** `SqlConnPool` and its RAII owners as a state machine: each lock-protected section is
    one step, and the steps of different owners interleave freely. */
module SqlPool {

  type Conn = nat
  type Owner = nat

  /** `m_conn_queue`, `m_free_conn`, the owners inside `getConn` (awake or asleep in the
      wait), the connection each `SqlConnRAII` holds, every handle ever created, and the
      history of what was pushed to and taken from the queue. */
  datatype Pool = Pool(queue: seq<Conn>, free: int, awake: set<Owner>, sleeping: set<Owner>,
                       held: map<Owner, Conn>, created: set<Conn>, pushed: seq<Conn>, taken: seq<Conn>)

  const START := Pool([], 0, {}, {}, map[], {}, [], [])

  datatype Wake = Nobody | Wakes(owner: Owner)

  datatype Action =
    | Init(conns: seq<Conn>)          // init: the handles connected before it returns or throws
    | Enter(owner: Owner)             // SqlConnRAII constructor calls getConn
    | Take(owner: Owner)              // under the lock: sleep on an empty queue, else take the front
    | Spurious(owner: Owner)
    | Release(owner: Owner, wake: Wake)  // destructor: push back and notify_one, under the lock

  ghost predicate Fresh(s: Pool, conns: seq<Conn>) {
    && (forall i, j :: 0 <= i < j < |conns| ==> conns[i] != conns[j])
    && (forall c :: c in conns ==> c !in s.created)
  }

  ghost predicate Enabled(s: Pool, a: Action) {
    match a
    case Init(conns) => Fresh(s, conns)
    case Enter(o) => o !in s.awake && o !in s.sleeping && o !in s.held
    case Take(o) => o in s.awake
    case Spurious(o) => o in s.sleeping
    case Release(o, w) => o in s.held && if s.sleeping == {} then w == Nobody else w.Wakes? && w.owner in s.sleeping
  }

  ghost function Apply(s: Pool, a: Action): Pool
    requires Enabled(s, a)
  {
    match a
    case Init(conns) =>
      s.(queue := s.queue + conns, free := s.free + |conns|, created := s.created + (set c | c in conns),
         pushed := s.pushed + conns)
    case Enter(o) => s.(awake := s.awake + {o})
    case Take(o) =>
      if s.queue == [] then s.(awake := s.awake - {o}, sleeping := s.sleeping + {o})
      else s.(awake := s.awake - {o}, held := s.held[o := s.queue[0]], queue := s.queue[1..], free := s.free - 1,
              taken := s.taken + [s.queue[0]])
    case Spurious(o) => s.(awake := s.awake + {o}, sleeping := s.sleeping - {o})
    case Release(o, w) =>
      var t := s.(queue := s.queue + [s.held[o]], free := s.free + 1, held := s.held - {o},
                  pushed := s.pushed + [s.held[o]]);
      if w.Nobody? then t else t.(awake := s.awake + {w.owner}, sleeping := s.sleeping - {w.owner})
  }

  datatype Outcome = Impossible | Reached(pool: Pool)

  ghost function Run(actions: seq<Action>): Outcome {
    if actions == [] then Reached(START)
    else
      var before, a := Run(actions[..|actions| - 1]), actions[|actions| - 1];
      if before.Impossible? || !Enabled(before.pool, a) then Impossible else Reached(Apply(before.pool, a))
  }

  // ---- conservation ----

  /** Every created connection is queued exactly once or held by exactly one owner, and
      connections leave the queue in the order they entered it. */
  ghost predicate Conserved(s: Pool) {
    && s.free == |s.queue| && s.pushed == s.taken + s.queue
    && (forall i, j :: 0 <= i < j < |s.queue| ==> s.queue[i] != s.queue[j])
    && (forall o, p :: o in s.held && p in s.held && o != p ==> s.held[o] != s.held[p])
    && (forall o :: o in s.held ==> s.held[o] !in s.queue)
    && (forall c :: c in s.created <==> c in s.queue || exists o :: o in s.held && s.held[o] == c)
  }

  /** An owner is outside, waiting its turn, asleep, or holding. */
  ghost predicate Apart(s: Pool) {
    s.awake !! s.sleeping && s.awake !! s.held.Keys && s.sleeping !! s.held.Keys
  }

  lemma TakeConserves(s: Pool, o: Owner)
    requires Conserved(s) && Apart(s) && o in s.awake && s.queue != []
    ensures Conserved(Apply(s, Take(o)))
  {
    var t := Apply(s, Take(o));
    assert s.queue == [s.queue[0]] + s.queue[1..];
    assert o !in s.held;
    assert t.held[o] == s.queue[0];
    forall c ensures c in t.created <==> c in t.queue || exists p :: p in t.held && t.held[p] == c {
      if c in s.created && c !in s.queue {
        var p :| p in s.held && s.held[p] == c;
        assert t.held[p] == c;
      }
    }
  }

  lemma ReleaseConserves(s: Pool, o: Owner, w: Wake)
    requires Conserved(s) && Enabled(s, Release(o, w))
    ensures Conserved(Apply(s, Release(o, w)))
  {
    var t := Apply(s, Release(o, w));
    forall c ensures c in t.created <==> c in t.queue || exists p :: p in t.held && t.held[p] == c {
      if c in s.created && c !in s.queue && c != s.held[o] {
        var p :| p in s.held && s.held[p] == c;
        assert t.held[p] == c;
      }
    }
  }

  lemma InitConserves(s: Pool, conns: seq<Conn>)
    requires Conserved(s) && Fresh(s, conns)
    ensures Conserved(Apply(s, Init(conns)))
  {
    var t := Apply(s, Init(conns));
    forall i, j | 0 <= i < j < |t.queue| ensures t.queue[i] != t.queue[j] {
      if i < |s.queue| <= j {
        assert s.queue[i] in s.queue && conns[j - |s.queue|] in conns;
      }
    }
  }

  lemma ConservedStep(s: Pool, a: Action)
    requires Conserved(s) && Apart(s) && Enabled(s, a)
    ensures Conserved(Apply(s, a)) && Apart(Apply(s, a))
  {
    match a
    case Init(conns) => InitConserves(s, conns);
    case Take(o) => if s.queue != [] { TakeConserves(s, o); }
    case Release(o, w) => ReleaseConserves(s, o, w);
    case _ =>
  }

  /** In every interleaving each connection is queued once or held by one owner, the queue
      is first in, first out, and `getFreeConnCount` is the number of queued ones. */
  lemma {:induction false} PoolConserves(actions: seq<Action>)
    requires Run(actions).Reached?
    ensures Conserved(Run(actions).pool) && Apart(Run(actions).pool)
  {
    hide Apply;
    if actions != [] {
      hide Conserved, Apart, Enabled;
      PoolConserves(actions[..|actions| - 1]);
      ConservedStep(Run(actions[..|actions| - 1]).pool, actions[|actions| - 1]);
    }
  }

  // ---- wakeups ----

  /** No lost wakeup: while a getter sleeps, each queued connection has a getter awake. */
  ghost predicate Covered(s: Pool) {
    s.sleeping != {} ==> |s.queue| <= |s.awake|
  }

  lemma Move(from: set<Owner>, to: set<Owner>, o: Owner)
    requires o in from && o !in to
    ensures |from - {o}| == |from| - 1 && |to + {o}| == |to| + 1
  {
  }

  lemma CoveredStep(s: Pool, a: Action)
    requires s.awake !! s.sleeping && Covered(s) && Enabled(s, a) && !a.Init?
    ensures Covered(Apply(s, a))
  {
    match a
    case Take(o) => Move(s.awake, s.sleeping, o);
    case Spurious(o) => Move(s.sleeping, s.awake, o);
    case Release(o, w) => if w.Wakes? { Move(s.sleeping, s.awake, w.owner); }
    case Enter(o) => assert |s.awake + {o}| == |s.awake| + 1;
  }

  /** The `getConn` calls made so far. */
  function Calls(actions: seq<Action>): nat {
    if actions == [] then 0
    else Calls(actions[..|actions| - 1]) + (if actions[|actions| - 1].Enter? then 1 else 0)
  }

  /** The connections supplied so far, by `init` and by destructors. */
  function Supplied(actions: seq<Action>): nat {
    if actions == [] then 0
    else
      var a := actions[|actions| - 1];
      Supplied(actions[..|actions| - 1]) + (if a.Init? then |a.conns| else if a.Release? then 1 else 0)
  }

  /** There is a queued connection for every getter inside `getConn`. */
  ghost predicate Roomy(s: Pool) {
    |s.awake| + |s.sleeping| <= |s.queue|
  }

  lemma StepCounts(s: Pool, a: Action)
    requires s.awake !! s.sleeping && Enabled(s, a)
    ensures var t := Apply(s, a);
      |t.awake| + |t.sleeping| + |t.taken| == |s.awake| + |s.sleeping| + |s.taken| + (if a.Enter? then 1 else 0)
  {
    match a
    case Take(o) => Move(s.awake, s.sleeping, o);
    case Spurious(o) => Move(s.sleeping, s.awake, o);
    case Release(o, w) => if w.Wakes? { Move(s.sleeping, s.awake, w.owner); }
    case Enter(o) => Move({o}, s.awake, o);
    case Init(_) =>
  }

  lemma StepSupplies(s: Pool, a: Action)
    requires Enabled(s, a)
    ensures |Apply(s, a).pushed| == |s.pushed| + (if a.Init? then |a.conns| else if a.Release? then 1 else 0)
  {
  }

  lemma {:induction false} RunCounts(actions: seq<Action>)
    requires Run(actions).Reached?
    ensures var s := Run(actions).pool;
      |s.awake| + |s.sleeping| + |s.taken| == Calls(actions) && |s.pushed| == Supplied(actions)
  {
    if actions != [] {
      hide Apply, Enabled, Conserved;
      var before := actions[..|actions| - 1];
      RunCounts(before);
      PoolConserves(before);
      StepCounts(Run(before).pool, actions[|actions| - 1]);
      StepSupplies(Run(before).pool, actions[|actions| - 1]);
    }
  }

  /** Whether there is room can be told from the calls alone: no more `getConn` calls were
      made than connections supplied. */
  lemma RoomyIsCounting(actions: seq<Action>)
    requires Run(actions).Reached?
    ensures Roomy(Run(actions).pool) <==> Calls(actions) <= Supplied(actions)
  {
    hide Run;
    RunCounts(actions);
    PoolConserves(actions);
  }

  /** Each `init` that connects anything runs when no more `getConn` calls were made than
      connections supplied. */
  ghost predicate InitsInTime(actions: seq<Action>) {
    actions == [] ||
    var before, a := actions[..|actions| - 1], actions[|actions| - 1];
    && InitsInTime(before)
    && (a.Init? && a.conns != [] ==> Calls(before) <= Supplied(before))
  }

  /** The guarantee holds now and held after every earlier step of the run. */
  ghost predicate AlwaysCovered(actions: seq<Action>) {
    && (Run(actions).Reached? ==> Covered(Run(actions).pool))
    && (actions == [] || AlwaysCovered(actions[..|actions| - 1]))
  }

  lemma InitCovered(s: Pool, conns: seq<Conn>)
    requires Covered(s) && Fresh(s, conns) && (conns == [] || Roomy(s))
    ensures Covered(Apply(s, Init(conns)))
  {
  }

  /** If each `init` comes in time, no interleaving loses a wakeup. */
  lemma {:induction false} NoLostWakeup(actions: seq<Action>)
    requires Run(actions).Reached? && InitsInTime(actions)
    ensures AlwaysCovered(actions)
  {
    if actions != [] {
      hide Apply, Covered, Conserved, Roomy, Enabled;
      var before, a := actions[..|actions| - 1], actions[|actions| - 1];
      NoLostWakeup(before);
      PoolConserves(before);
      var s := Run(before).pool;
      if a.Init? {
        RoomyIsCounting(before);
        FreshOfInit(s, a);
        InitCovered(s, a.conns);
      } else {
        CoveredStep(s, a);
      }
    }
  }

  lemma FreshOfInit(s: Pool, a: Action)
    requires Enabled(s, a) && a.Init?
    ensures Fresh(s, a.conns)
  {
  }

  /** In particular if the pool is initialised before anybody asks it for a connection. */
  lemma {:induction false} InitFirst(actions: seq<Action>)
    requires forall i, j :: 0 <= i < j < |actions| && actions[i].Enter? ==> !actions[j].Init?
    ensures InitsInTime(actions)
  {
    if actions != [] {
      var before := actions[..|actions| - 1];
      InitFirst(before);
      if actions[|actions| - 1].Init? {
        forall a | a in before ensures !a.Enter? {
          var i :| 0 <= i < |before| && before[i] == a;
          assert actions[i] == a;
        }
        NoCalls(before);
      }
    }
  }

  predicate NobodyEnters(actions: seq<Action>) {
    forall a :: a in actions ==> !a.Enter?
  }

  lemma {:induction false} NoCalls(actions: seq<Action>)
    requires NobodyEnters(actions)
    ensures Calls(actions) == 0
  {
    if actions != [] {
      NoCalls(actions[..|actions| - 1]);
    }
  }

  /** If `init` runs after these further steps, every wakeup is still covered. */
  ghost predicate SafeAfter(actions: seq<Action>, more: seq<Action>, conns: seq<Conn>) {
    var r := Run(actions + more + [Init(conns)]); r.Reached? ==> Covered(r.pool)
  }

  lemma RoomStays(s: Pool, a: Action)
    requires s.awake !! s.sleeping && Covered(s) && Roomy(s) && Enabled(s, a) && !a.Enter?
    ensures Covered(Apply(s, a)) && Roomy(Apply(s, a))
  {
    assert s.sleeping == {};
    match a
    case Take(o) => Move(s.awake, {}, o);
    case Init(conns) => InitCovered(s, conns);
    case _ =>
  }

  lemma {:induction false} RoomStaysOverRun(actions: seq<Action>, more: seq<Action>)
    requires Run(actions).Reached? && Covered(Run(actions).pool) && Roomy(Run(actions).pool)
    requires NobodyEnters(more) && Run(actions + more).Reached?
    ensures Covered(Run(actions + more).pool) && Roomy(Run(actions + more).pool)
  {
    var all := actions + more;
    if more == [] {
      assert all == actions;
    } else {
      var front := more[..|more| - 1];
      assert all[..|all| - 1] == actions + front;
      hide Apply, Covered, Roomy, Enabled, Conserved;
      RoomStaysOverRun(actions, front);
      PoolConserves(actions + front);
      RoomStays(Run(actions + front).pool, more[|more| - 1]);
    }
  }

  lemma TakeCrowded(s: Pool, o: Owner)
    requires s.awake !! s.sleeping && Covered(s) && !Roomy(s) && o in s.awake
    ensures var t := Apply(s, Take(o));
      && Covered(t) && !Roomy(t) && t.created == s.created
      && (|t.queue| < |s.queue| || (|t.queue| == |s.queue| && |t.awake| < |s.awake|))
  {
    Move(s.awake, s.sleeping, o);
  }

  /** With more getters inside than connections queued, the getters can take every
      connection and the rest fall asleep. */
  lemma {:induction false} SomeFallAsleep(actions: seq<Action>) returns (more: seq<Action>)
    requires Run(actions).Reached? && Covered(Run(actions).pool) && !Roomy(Run(actions).pool)
    ensures NobodyEnters(more) && Run(actions + more).Reached?
    ensures var s, t := Run(actions).pool, Run(actions + more).pool;
      t.queue == [] && t.awake == {} && t.sleeping != {} && t.created == s.created
    decreases |Run(actions).pool.queue|, |Run(actions).pool.awake|
  {
    var s := Run(actions).pool;
    if s.awake == {} {
      more := [];
      assert actions + more == actions;
    } else {
      var o :| o in s.awake;
      PoolConserves(actions);
      OneMore(actions, Take(o));
      TakeCrowded(s, o);
      hide Covered, Roomy, Apply, Run;
      var rest := SomeFallAsleep(actions + [Take(o)]);
      more := [Take(o)] + rest;
      assert actions + [Take(o)] + rest == actions + more;
    }
  }

  /** And only then: `init` is safe at any later moment before the next `getConn` call
      exactly when no more `getConn` calls were made than connections supplied. Otherwise
      some interleaving of the getters already inside leaves one asleep for good beside
      the new connections. */
  lemma InitIsSafeIff(actions: seq<Action>, conns: seq<Conn>)
    requires Run(actions).Reached? && Covered(Run(actions).pool) && conns != [] && Fresh(Run(actions).pool, conns)
    ensures (forall more :: NobodyEnters(more) ==> SafeAfter(actions, more, conns)) <==>
      Calls(actions) <= Supplied(actions)
  {
    RoomyIsCounting(actions);
    if Roomy(Run(actions).pool) {
      forall more | NobodyEnters(more) ensures SafeAfter(actions, more, conns) {
        var all := more + [Init(conns)];
        assert actions + more + [Init(conns)] == actions + all;
        if Run(actions + all).Reached? {
          hide Run, Covered, Roomy;
          RoomStaysOverRun(actions, all);
        }
      }
    } else {
      var more := SomeFallAsleep(actions);
      hide Run;
      OneMore(actions + more, Init(conns));
      assert !SafeAfter(actions, more, conns);
    }
  }

  lemma OneMore(actions: seq<Action>, a: Action)
    ensures var r := Run(actions);
      Run(actions + [a]) == if r.Impossible? || !Enabled(r.pool, a) then Impossible else Reached(Apply(r.pool, a))
  {
    assert (actions + [a])[..|actions|] == actions;
  }

  /** A getter that falls asleep before `init` is never signalled by it: the connection
      waits in the queue while its getter sleeps and nobody is awake. */
  lemma SleeperBeforeInitIsStranded(o: Owner, c: Conn)
    ensures var r := Run([Enter(o), Take(o), Init([c])]);
      r.Reached? && r.pool.queue == [c] && r.pool.sleeping == {o} && r.pool.awake == {}
  {
    assert Run([]) == Reached(START);
    hide Run;
    OneMore([], Enter(o));
    assert [] + [Enter(o)] == [Enter(o)];
    assert Run([Enter(o)]) == Reached(START.(awake := {o}));
    OneMore([Enter(o)], Take(o));
    assert [Enter(o)] + [Take(o)] == [Enter(o), Take(o)];
    assert Run([Enter(o), Take(o)]) == Reached(START.(sleeping := {o}));
    OneMore([Enter(o), Take(o)], Init([c]));
    assert [Enter(o), Take(o)] + [Init([c])] == [Enter(o), Take(o), Init([c])];
  }
}
