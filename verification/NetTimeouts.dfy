/** Idle-connection timeouts in `NetServer`: the event loop and the worker threads as
    clients of one `TimerManager`, with file descriptors that are reused. */
module NetTimeouts {
  import opened TimerHeap
  import Timer

  /** The delay that `refreshTimer` asks for, in milliseconds. */
  const IDLE_TIMEOUT := 1_000_000

  datatype Accepting = Nothing | Fd(fd: int)

  /** `m_users` (descriptor to "is not closed yet"), the timer manager, and the descriptor
      that `handleNewConnection` has inserted but not refreshed yet. */
  datatype Server = Server(users: map<int, bool>, timer: Timer.State, accepting: Accepting)

  const START := Server(map[], Timer.EMPTY, Nothing)

  /** Steps of the event loop (`Insert`, `Accepted`, `TickAt`) and of the workers. */
  datatype Event =
    | Insert(fd: int)
    | Accepted(fd: int, now: int)
    | Refresh(fd: int, now: int)
    | Close(fd: int)
    | SelfClose(fd: int)
    | TickAt(now: int)

  function RefreshTimer(s: Server, fd: int, now: int): Server {
    s.(timer := Timer.AddTimer(s.timer, fd, 0, IDLE_TIMEOUT, false, now))
  }

  /** `closeConnection` on the user table: nothing for a missing or closed entry. */
  function CloseConnection(users: map<int, bool>, fd: int): map<int, bool> {
    if fd !in users || !users[fd] then users else users - {fd}
  }

  /** The callbacks that one tick runs, in firing order. */
  function CloseAll(users: map<int, bool>, fired: seq<TimerNode>): map<int, bool> {
    if fired == [] then users
    else CloseConnection(CloseAll(users, fired[..|fired| - 1]), fired[|fired| - 1].id)
  }

  /** The loop thread inserts, then refreshes, and only then can tick; workers may act
      in between. */
  predicate Enabled(s: Server, e: Event) {
    match e
    case Insert(_) => s.accepting.Nothing?
    case Accepted(fd, _) => s.accepting == Fd(fd)
    case TickAt(_) => s.accepting.Nothing?
    case _ => true
  }

  function Apply(s: Server, e: Event): Server {
    match e
    case Insert(fd) => s.(users := s.users[fd := true], accepting := Fd(fd))
    case Accepted(fd, now) => RefreshTimer(s, fd, now).(accepting := Nothing)
    case Refresh(fd, now) => RefreshTimer(s, fd, now)
    case Close(fd) => s.(users := CloseConnection(s.users, fd))
    case SelfClose(fd) => if fd in s.users then s.(users := s.users[fd := false]) else s
    case TickAt(now) =>
      var (timer, fired) := Timer.Tick(s.timer, now);
      s.(users := CloseAll(s.users, fired), timer := timer)
  }

  function Run(events: seq<Event>): Server {
    if events == [] then START else Apply(Run(events[..|events| - 1]), events[|events| - 1])
  }

  /** Every step of the run was possible when it was taken. */
  predicate Possible(events: seq<Event>) {
    events == [] ||
    (Possible(events[..|events| - 1]) && Enabled(Run(events[..|events| - 1]), events[|events| - 1]))
  }

  datatype Time = Never | At(time: int)

  /** Reference: when `refreshTimer` last ran for `fd`, read off the history alone. */
  function LastRefresh(events: seq<Event>, fd: int): Time {
    if events == [] then Never
    else match events[|events| - 1]
      case Accepted(f, now) => if f == fd then At(now) else LastRefresh(events[..|events| - 1], fd)
      case Refresh(f, now) => if f == fd then At(now) else LastRefresh(events[..|events| - 1], fd)
      case _ => LastRefresh(events[..|events| - 1], fd)
  }

  // ---- invariant ----

  /** Every timer is one-shot and due one delay after the latest refresh of its descriptor. */
  ghost predicate TimersMatch(timers: map<int, TimerNode>, events: seq<Event>) {
    forall fd :: fd in timers ==>
      && !timers[fd].repeat
      && LastRefresh(events, fd).At? && timers[fd].expire == LastRefresh(events, fd).time + IDLE_TIMEOUT
  }

  /** Every open connection has a timer, but for the one being accepted. */
  ghost predicate OpenHasTimer(s: Server) {
    forall fd :: fd in s.users && s.users[fd] && s.accepting != Fd(fd) ==> fd in s.timer.timers
  }

  ghost predicate Inv(s: Server, events: seq<Event>) {
    Timer.Inv(s.timer) && TimersMatch(s.timer.timers, events) && OpenHasTimer(s)
  }

  ghost predicate Fires(fired: seq<TimerNode>, fd: int) {
    exists n :: n in fired && n.id == fd
  }

  /** Running the callbacks closes exactly the open connections among the fired ids. */
  lemma {:induction false} CloseAllIs(users: map<int, bool>, fired: seq<TimerNode>)
    ensures CloseAll(users, fired) == map fd | fd in users && !(users[fd] && Fires(fired, fd)) :: users[fd]
  {
    if fired == [] {
      assert forall fd :: !Fires(fired, fd);
    } else {
      var n := fired[|fired| - 1];
      var front := fired[..|fired| - 1];
      assert fired == front + [n];
      CloseAllIs(users, front);
      forall fd ensures Fires(fired, fd) <==> Fires(front, fd) || fd == n.id {
        if fd == n.id { assert n in fired; }
        if Fires(front, fd) { var m :| m in front && m.id == fd; assert m in fired; }
      }
    }
  }

  lemma TickInv(s: Server, events: seq<Event>, now: int)
    requires Inv(s, events)
    ensures Timer.HarmlessMap(s.timer.timers, now)
    ensures var (timer, fired) := Timer.Tick(s.timer, now);
      && Timer.Inv(timer)
      && Timer.TickSpec(s.timer, now, timer, fired)
      && TimersMatch(timer.timers, events)
      && OpenHasTimer(s.(users := CloseAll(s.users, fired), timer := timer))
      && forall fd :: fd in s.timer.timers ==> (Fires(fired, fd) <==> s.timer.timers[fd].expire <= now)
  {
    Timer.TickMeetsSpec(s.timer, now);
    var r := Timer.Tick(s.timer, now);
    AfterTick(s, events, now, r.0, r.1);
  }

  lemma AfterTick(s: Server, events: seq<Event>, now: int, timer: Timer.State, fired: seq<TimerNode>)
    requires Inv(s, events) && Timer.TickSpec(s.timer, now, timer, fired)
    ensures TimersMatch(timer.timers, events)
    ensures OpenHasTimer(s.(users := CloseAll(s.users, fired), timer := timer))
    ensures forall fd :: fd in s.timer.timers ==> (Fires(fired, fd) <==> s.timer.timers[fd].expire <= now)
  {
    CloseAllIs(s.users, fired);
    forall fd | fd in s.timer.timers ensures Fires(fired, fd) <==> s.timer.timers[fd].expire <= now {
      if s.timer.timers[fd].expire <= now { assert s.timer.timers[fd] in fired; }
    }
  }

  /** The invariant holds after every possible run. */
  lemma {:induction false} RunInv(events: seq<Event>)
    requires Possible(events)
    ensures Inv(Run(events), events)
  {
    hide Timer.AddTimer, Timer.Tick, Timer.Inv, Timer.TickSpec;
    if events == [] {
      Timer.EmptyAgrees();
    } else {
      var before, e := events[..|events| - 1], events[|events| - 1];
      RunInv(before);
      StepInv(before, e, events);
    }
  }

  lemma StepInv(before: seq<Event>, e: Event, events: seq<Event>)
    requires events != [] && events[..|events| - 1] == before && events[|events| - 1] == e
    requires Inv(Run(before), before) && Enabled(Run(before), e)
    ensures Inv(Apply(Run(before), e), events)
  {
    hide Run, Timer.Tick, Timer.AddTimer, Timer.Inv;
    var s := Run(before);
    match e
    case Accepted(fd, now) => RefreshInv(s, before, fd, now, events);
    case Refresh(fd, now) => RefreshInv(s, before, fd, now, events);
    case TickAt(now) => TickInv(s, before, now);
    case _ =>
  }

  lemma RefreshInv(s: Server, before: seq<Event>, fd: int, now: int, events: seq<Event>)
    requires Inv(s, before)
    requires forall f :: LastRefresh(events, f) == if f == fd then At(now) else LastRefresh(before, f)
    ensures var timer := RefreshTimer(s, fd, now).timer;
      Timer.Inv(timer) && TimersMatch(timer.timers, events) && timer.timers.Keys == s.timer.timers.Keys + {fd}
  {
    hide Push, Timer.Inv;
    Timer.AddTimerInv(s.timer, fd, 0, IDLE_TIMEOUT, false, now);
  }

  // ---- theorems ----

  /** Whether this step takes `fd` out of the user table. */
  ghost predicate Removes(s: Server, e: Event, fd: int) {
    fd in s.users && fd !in Apply(s, e).users
  }

  /** A tick closes exactly the open connections whose latest refresh is at least one
      idle timeout old, whatever was accepted, refreshed or closed before on the same
      descriptor; every other table entry is left alone. */
  lemma TimeoutExact(events: seq<Event>, now: int, fd: int)
    requires Possible(events + [TickAt(now)])
    ensures var s := Run(events);
      && (Removes(s, TickAt(now), fd) <==>
          fd in s.users && s.users[fd] && LastRefresh(events, fd).At? &&
          now - LastRefresh(events, fd).time >= IDLE_TIMEOUT)
      && (fd in Apply(s, TickAt(now)).users ==> fd in s.users && Apply(s, TickAt(now)).users[fd] == s.users[fd])
  {
    var all := events + [TickAt(now)];
    assert all[..|all| - 1] == events;
    RunInv(events);
    var s := Run(events);
    TickInv(s, events, now);
    CloseAllIs(s.users, Timer.Tick(s.timer, now).1);
    FiredHasTimer(s.timer, now, Timer.Tick(s.timer, now).0, Timer.Tick(s.timer, now).1, fd);
  }

  lemma FiredHasTimer(t: Timer.State, now: int, t': Timer.State, fired: seq<TimerNode>, fd: int)
    requires Timer.TickSpec(t, now, t', fired)
    ensures Fires(fired, fd) ==> fd in t.timers
  {
  }

  /** How a descriptor stands in the user table: no entry, open, or closed by its own worker
      with the entry still there. */
  datatype Status = Gone | Open | SelfClosed

  /** Reference: the table entry of `fd` from the history alone, without any timer. */
  function StatusOf(events: seq<Event>, fd: int): Status {
    if events == [] then Gone
    else
      var before := events[..|events| - 1];
      var status := StatusOf(before, fd);
      match events[|events| - 1]
      case Insert(f) => if f == fd then Open else status
      case Close(f) => if f == fd && status == Open then Gone else status
      case SelfClose(f) => if f == fd && status != Gone then SelfClosed else status
      case TickAt(now) =>
        if status == Open && LastRefresh(before, fd).At? && now - LastRefresh(before, fd).time >= IDLE_TIMEOUT
        then Gone else status
      case _ => status
  }

  ghost predicate Stands(users: map<int, bool>, fd: int, status: Status) {
    match status
    case Gone => fd !in users
    case Open => fd in users && users[fd]
    case SelfClosed => fd in users && !users[fd]
  }

  lemma StandsAfterTick(before: seq<Event>, now: int, fd: int, events: seq<Event>)
    requires events == before + [TickAt(now)] && Possible(events)
    requires Stands(Run(before).users, fd, StatusOf(before, fd))
    ensures Stands(Apply(Run(before), TickAt(now)).users, fd, StatusOf(events, fd))
  {
    TimeoutExact(before, now, fd);
    assert events[..|events| - 1] == before;
    hide Run, Possible, Apply;
  }

  lemma StandsAfterOther(s: Server, before: seq<Event>, e: Event, fd: int, events: seq<Event>)
    requires events == before + [e] && !e.TickAt?
    requires Stands(s.users, fd, StatusOf(before, fd))
    ensures Stands(Apply(s, e).users, fd, StatusOf(events, fd))
  {
    assert events[..|events| - 1] == before;
    hide Timer.Tick, Timer.AddTimer, CloseAll, LastRefresh;
  }

  /** In every interleaving the user table is what the accepts, closes, refreshes and ticks
      of each descriptor make it. */
  lemma {:induction false} TableFromHistory(events: seq<Event>, fd: int)
    requires Possible(events)
    ensures Stands(Run(events).users, fd, StatusOf(events, fd))
  {
    hide Apply;
    if events != [] {
      var before, e := events[..|events| - 1], events[|events| - 1];
      assert events == before + [e];
      TableFromHistory(before, fd);
      RunSnoc(before, e);
      hide Run, StatusOf, Stands, Possible;
      if e.TickAt? {
        StandsAfterTick(before, e.now, fd, events);
      } else {
        StandsAfterOther(Run(before), before, e, fd, events);
      }
    }
  }

  lemma RunSnoc(before: seq<Event>, e: Event)
    ensures Run(before + [e]) == Apply(Run(before), e)
  {
    assert (before + [e])[..|before|] == before;
    hide Apply;
  }

  ghost predicate Timed(e: Event) { e.Accepted? || e.Refresh? || e.TickAt? }

  /** The clock never goes back. */
  ghost predicate Monotone(events: seq<Event>) {
    forall i, j :: 0 <= i < j < |events| && Timed(events[i]) && Timed(events[j]) ==> events[i].now <= events[j].now
  }

  lemma {:induction false} LastRefreshAfter(events: seq<Event>, i: nat)
    requires Monotone(events) && i < |events| && (events[i].Accepted? || events[i].Refresh?)
    ensures LastRefresh(events, events[i].fd).At? && LastRefresh(events, events[i].fd).time >= events[i].now
  {
    var front := events[..|events| - 1];
    if i < |front| {
      assert front[i] == events[i];
      LastRefreshAfter(front, i);
      assert Timed(events[i]);
      assert Timed(events[|events| - 1]) ==> events[i].now <= events[|events| - 1].now;
    }
  }

  /** A timer left behind by a closed connection never closes a later one on the same
      descriptor: a connection accepted at time t is not timed out before t + IDLE_TIMEOUT. */
  lemma NoEarlyTimeout(events: seq<Event>, i: nat, now: int)
    requires Possible(events + [TickAt(now)]) && Monotone(events)
    requires i < |events| && events[i].Accepted?
    requires Removes(Run(events), TickAt(now), events[i].fd)
    ensures now >= events[i].now + IDLE_TIMEOUT
  {
    TimeoutExact(events, now, events[i].fd);
    LastRefreshAfter(events, i);
  }

  /** Between ticks nothing is forgotten: an open connection that is not being accepted
      always has a refresh on record, so it will be timed out unless refreshed again. */
  lemma OpenIsWatched(events: seq<Event>, fd: int)
    requires Possible(events)
    requires var s := Run(events); fd in s.users && s.users[fd] && s.accepting != Fd(fd)
    ensures LastRefresh(events, fd).At?
  {
    RunInv(events);
  }
}

/** The parts of `NetServer` that watch idle connections, as an object. */
module NetServers {
  import opened TimerHeap
  import opened TimerManagement
  import Timer
  import opened NetTimeouts

  ghost predicate OneShot(timers: map<int, TimerNode>) {
    forall fd :: fd in timers ==> !timers[fd].repeat
  }

  lemma OneShotTick(s: Timer.State, now: int)
    requires Timer.Inv(s) && OneShot(s.timers)
    ensures Timer.HarmlessMap(s.timers, now)
    ensures Timer.Inv(Timer.Tick(s, now).0) && OneShot(Timer.Tick(s, now).0.timers)
  {
    hide Timer.Tick;
    Timer.TickMeetsSpec(s, now);
  }

  class NetServer {
    var users: map<int, bool>
    const timers: TimerManager

    ghost predicate Valid()
      reads this, timers
    {
      Timer.Inv(timers.State()) && OneShot(timers.timers)
    }

    constructor ()
      ensures Valid() && fresh(timers) && users == map[] && timers.State() == Timer.EMPTY
    {
      users := map[];
      timers := new TimerManager();
    }

    method RefreshTimer(fd: int, now: int)
      requires Valid()
      modifies timers
      ensures Valid()
      ensures timers.State() == Timer.AddTimer(old(timers.State()), fd, 0, IDLE_TIMEOUT, false, now)
    {
      hide Push;
      timers.AddTimer(fd, 0, IDLE_TIMEOUT, false, now);
    }

    method HandleNewConnection(fd: int, now: int)
      requires Valid()
      modifies this, timers
      ensures Valid()
      ensures Server(users, timers.State(), Nothing) ==
        Apply(Apply(Server(old(users), old(timers.State()), Nothing), Insert(fd)), Accepted(fd, now))
    {
      hide Push;
      users := users[fd := true];
      RefreshTimer(fd, now);
    }

    method CloseConnection(fd: int)
      modifies this`users
      ensures users == NetTimeouts.CloseConnection(old(users), fd)
    {
      if fd !in users { return; }
      if !users[fd] { return; }
      users := users - {fd};
    }

    /** The callbacks of one tick: each fired timer closes its descriptor. */
    method RunCallbacks(fired: seq<TimerNode>)
      modifies this`users
      ensures users == CloseAll(old(users), fired)
    {
      var i := 0;
      while i < |fired|
        invariant 0 <= i <= |fired|
        invariant users == CloseAll(old(users), fired[..i])
      {
        CloseConnection(fired[i].id);
        i := i + 1;
        assert fired[..i][..i - 1] == fired[..i - 1];
      }
      assert fired[..|fired|] == fired;
    }

    /** The `tick` call of the event loop. */
    method TickTimers(now: int)
      requires Valid()
      modifies this, timers
      ensures Valid()
      ensures Server(users, timers.State(), Nothing) ==
        Apply(Server(old(users), old(timers.State()), Nothing), TickAt(now))
    {
      hide Timer.Tick, Timer.TickSpec, Timer.Inv, Timer.HarmlessMap, OneShot, CloseAll;
      OneShotTick(timers.State(), now);
      var fired := timers.Tick(now);
      RunCallbacks(fired);
    }
  }
}
