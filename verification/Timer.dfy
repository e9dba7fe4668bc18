/** `TimerManager`: a heap of nodes with lazy deletion, refining a plain per-id
    record of the latest deadline. */
module Timer {
  import opened TimerHeap

  /** `m_timer_heap`, `m_timer_map` and the allocation counter. */
  datatype State = State(heap: seq<TimerNode>, timers: map<int, TimerNode>, next: nat)

  const EMPTY := State([], map[], 0)

  /** Whether `m_timer_map` still points at this very node. */
  predicate Live(s: State, n: TimerNode) {
    n.id in s.timers && s.timers[n.id] == n
  }

  /** The node that `make_shared<TimerNode>` builds at clock reading `now`. */
  function NewNode(s: State, id: int, callback: nat, timeout: int, repeat: bool, now: int): TimerNode {
    TimerNode(s.next, id, callback, now + timeout, repeat, timeout)
  }

  /** `addTimer`: the map entry is overwritten, an older node stays in the heap. */
  function AddTimer(s: State, id: int, callback: nat, timeout: int, repeat: bool, now: int): State {
    var n := NewNode(s, id, callback, timeout, repeat, now);
    State(Push(s.heap, n), s.timers[id := n], s.next + 1)
  }

  predicate Pending(s: State, now: int) {
    s.heap != [] && s.heap[0].expire <= now
  }

  /** One iteration of the loop of `tick`, with the nodes whose callback ran: a live
      top fires and is erased or re-armed, then the top is popped. */
  function Step(s: State, now: int): (State, seq<TimerNode>)
    requires Pending(s, now)
  {
    var t := s.heap[0];
    if !Live(s, t) then (State(Pop(s.heap), s.timers, s.next), [])
    else if t.repeat then
      var y := NewNode(s, t.id, t.callback, t.interval, true, now);
      (State(Pop(Push(s.heap, y)), s.timers[t.id := y], s.next + 1), [t])
    else (State(Pop(s.heap), s.timers - {t.id}, s.next), [t])
  }

  /** At most `n` iterations of the loop of `tick` at one clock reading. */
  function Iterate(s: State, now: int, n: nat): (State, seq<TimerNode>) {
    if n == 0 then (s, [])
    else
      var (a, fired) := Iterate(s, now, n - 1);
      if !Pending(a, now) then (a, fired)
      else var (b, f) := Step(a, now); (b, fired + f)
  }

  predicate IsExpired(s: State, id: int, now: int) {
    id !in s.timers || now >= s.timers[id].expire
  }

  // ---- invariant ----

  /** Facts that hold whatever the intervals are: each heap node is a distinct
      allocation, and a map entry is filed under its own id. */
  ghost predicate Distinct(bag: multiset<TimerNode>, timers: map<int, TimerNode>, next: nat) {
    && (forall n :: n in bag ==> bag[n] == 1 && n.serial < next)
    && (forall n, m :: n in bag && m in bag && n.serial == m.serial ==> n == m)
    && (forall id :: id in timers ==> timers[id].id == id && timers[id].serial < next)
  }

  ghost predicate Ordered(s: State) {
    IsHeap(s.heap) && Distinct(multiset(s.heap), s.timers, s.next)
  }

  /** Every mapped node is still in the heap. */
  ghost predicate Mapped(bag: multiset<TimerNode>, timers: map<int, TimerNode>) {
    forall id :: id in timers ==> timers[id] in bag
  }

  ghost predicate Inv(s: State) {
    Ordered(s) && Mapped(multiset(s.heap), s.timers)
  }

  /** The re-armed node of a repeating timer. */
  ghost predicate Rearmed(before: TimerNode, after: TimerNode, now: int) {
    after == before.(serial := after.serial, expire := now + before.interval)
  }

  /** What one tick promises, said without the heap: exactly the due live nodes fire,
      once per id and in deadline order; one-shot ones vanish, repeating ones are
      re-armed, the others stay; nothing due is left behind. */
  ghost predicate TickSpec(s: State, now: int, s': State, fired: seq<TimerNode>) {
    && Inv(s')
    && (forall n :: n in multiset(s'.heap) ==> n.expire > now)
    && (forall n :: n in fired <==> Live(s, n) && n.expire <= now)
    && (forall i, j :: 0 <= i < j < |fired| ==> fired[i].expire <= fired[j].expire && fired[i].id != fired[j].id)
    && (forall id :: id in s'.timers <==> id in s.timers && (s.timers[id].expire > now || s.timers[id].repeat))
    && (forall id :: id in s'.timers ==>
         if s.timers[id].expire > now then s'.timers[id] == s.timers[id]
         else Rearmed(s.timers[id], s'.timers[id], now))
  }

  lemma AddTimerInv(s: State, id: int, callback: nat, timeout: int, repeat: bool, now: int)
    ensures Ordered(s) ==> Ordered(AddTimer(s, id, callback, timeout, repeat, now))
    ensures Inv(s) ==> Inv(AddTimer(s, id, callback, timeout, repeat, now))
  {
    if Ordered(s) {
      PushSpec(s.heap, NewNode(s, id, callback, timeout, repeat, now));
    }
  }

  /** One iteration seen on the bag of heap nodes and the map only. */
  ghost predicate BagStep(bag: multiset<TimerNode>, timers: map<int, TimerNode>, next: nat, t: TimerNode, now: int,
                          bag': multiset<TimerNode>, timers': map<int, TimerNode>, next': nat, f: seq<TimerNode>) {
    t in bag &&
    if !(t.id in timers && timers[t.id] == t) then
      bag' == bag - multiset{t} && timers' == timers && next' == next && f == []
    else if !t.repeat then
      bag' == bag - multiset{t} && timers' == timers - {t.id} && next' == next && f == [t]
    else
      var y := TimerNode(next, t.id, t.callback, now + t.interval, true, t.interval);
      bag' == bag - multiset{t} + multiset{y} && timers' == timers[t.id := y] && next' == next + 1 && f == [t]
  }

  /** The deadline of a re-armed node is not before that of the node it replaces. */
  predicate Forward(t: TimerNode, now: int) { t.expire <= now + t.interval }

  /** An iteration drops the top, and adds the re-armed node of a live repeating one. */
  lemma StepOnBag(s: State, now: int)
    requires Ordered(s) && Pending(s, now)
    requires Live(s, s.heap[0]) && s.heap[0].repeat ==> Forward(s.heap[0], now)
    ensures IsHeap(Step(s, now).0.heap)
    ensures var (s', f) := Step(s, now);
      BagStep(multiset(s.heap), s.timers, s.next, s.heap[0], now, multiset(s'.heap), s'.timers, s'.next, f)
  {
    hide Push, Pop, IsHeap, Distinct;
    var t := s.heap[0];
    assert t in multiset(s.heap);
    if Live(s, t) && t.repeat {
      RearmOnBag(s, now);
    } else {
      PopSpec(s.heap);
    }
  }

  lemma RearmOnBag(s: State, now: int)
    requires IsHeap(s.heap) && Pending(s, now) && Live(s, s.heap[0]) && s.heap[0].repeat && Forward(s.heap[0], now)
    ensures var t, (s', f) := s.heap[0], Step(s, now);
      var y := NewNode(s, t.id, t.callback, t.interval, true, now);
      && IsHeap(s'.heap) && multiset(s'.heap) == multiset(s.heap) - multiset{t} + multiset{y}
      && s'.timers == s.timers[t.id := y] && s'.next == s.next + 1 && f == [t]
  {
    hide Push, Pop, IsHeap;
    PushThenPop(s.heap, NewNode(s, s.heap[0].id, s.heap[0].callback, s.heap[0].interval, true, now));
  }

  lemma RemoveDistinct(bag: multiset<TimerNode>, timers: map<int, TimerNode>, next: nat, t: TimerNode,
                       timers': map<int, TimerNode>)
    requires Distinct(bag, timers, next)
    requires forall id :: id in timers' ==> id in timers && timers'[id] == timers[id]
    ensures Distinct(bag - multiset{t}, timers', next)
  {
    var left := bag - multiset{t};
    assert forall n :: n in left ==> n in bag && left[n] <= bag[n];
  }

  lemma InsertDistinct(bag: multiset<TimerNode>, timers: map<int, TimerNode>, next: nat, y: TimerNode)
    requires Distinct(bag, timers, next) && y.serial == next
    ensures Distinct(bag + multiset{y}, timers[y.id := y], next + 1)
  {
    var more := bag + multiset{y};
    assert y !in bag;
    assert forall n :: n in more <==> n in bag || n == y;
    assert forall n :: n in bag ==> more[n] == bag[n];
  }

  lemma BagStepDistinct(bag: multiset<TimerNode>, timers: map<int, TimerNode>, next: nat, t: TimerNode, now: int,
                        bag': multiset<TimerNode>, timers': map<int, TimerNode>, next': nat, f: seq<TimerNode>)
    requires Distinct(bag, timers, next)
    requires BagStep(bag, timers, next, t, now, bag', timers', next', f)
    ensures Distinct(bag', timers', next')
  {
    hide Distinct;
    if f != [] && t.repeat {
      RemoveDistinct(bag, timers, next, t, timers);
      InsertDistinct(bag - multiset{t}, timers, next, timers'[t.id]);
    } else {
      RemoveDistinct(bag, timers, next, t, timers');
    }
  }

  /** The nodes fired so far in a tick that started with the map `timers`. */
  ghost predicate FiredSoFar(timers: map<int, TimerNode>, now: int, fired: seq<TimerNode>) {
    && (forall n :: n in fired ==> n.id in timers && timers[n.id] == n && n.expire <= now)
    && (forall i, j :: 0 <= i < j < |fired| ==> fired[i].expire <= fired[j].expire && fired[i].id != fired[j].id)
  }

  /** What became of each map entry: untouched, or fired and then erased or re-armed. */
  ghost predicate Handled(timers: map<int, TimerNode>, now: int, current: map<int, TimerNode>, fired: seq<TimerNode>) {
    && current.Keys <= timers.Keys
    && (forall id :: id in timers ==> timers[id].id == id)
    && (forall id :: id in timers && timers[id] !in fired ==> id in current && current[id] == timers[id])
    && (forall id :: id in timers && timers[id] in fired ==> (id in current <==> timers[id].repeat))
    && (forall id :: id in timers && timers[id] in fired && id in current ==> Rearmed(timers[id], current[id], now))
  }

  /** Loop invariant of `tick` on bag and map. */
  ghost predicate Progress(timers: map<int, TimerNode>, now: int,
                           bag: multiset<TimerNode>, current: map<int, TimerNode>, fired: seq<TimerNode>) {
    && Mapped(bag, current)
    && FiredSoFar(timers, now, fired)
    && Handled(timers, now, current, fired)
    && (forall n, m :: n in fired && m in bag ==> n.expire <= m.expire)
  }

  ghost predicate HarmlessMap(timers: map<int, TimerNode>, now: int) {
    forall id :: id in timers && timers[id].expire <= now && timers[id].repeat ==> timers[id].interval > 0
  }

  /** A live due top has not fired yet, so it is the node the tick started with. */
  lemma LiveTopIsOriginal(timers: map<int, TimerNode>, now: int,
                          bag: multiset<TimerNode>, current: map<int, TimerNode>, fired: seq<TimerNode>, t: TimerNode)
    requires HarmlessMap(timers, now) && Progress(timers, now, bag, current, fired)
    requires t.id in current && current[t.id] == t && t.expire <= now
    ensures t.id in timers && timers[t.id] == t && t !in fired
  {
  }

  lemma BagStepBag(timers: map<int, TimerNode>, now: int,
                   bag: multiset<TimerNode>, current: map<int, TimerNode>, next: nat, fired: seq<TimerNode>,
                   t: TimerNode, bag': multiset<TimerNode>, current': map<int, TimerNode>, next': nat,
                   f: seq<TimerNode>)
    requires HarmlessMap(timers, now) && Distinct(bag, current, next) && Progress(timers, now, bag, current, fired)
    requires BagStep(bag, current, next, t, now, bag', current', next', f)
    requires t.expire <= now && forall n :: n in bag ==> t.expire <= n.expire
    ensures forall n :: n in bag' && n.expire <= now <==> n in bag && n.expire <= now && n != t
    ensures Mapped(bag', current')
    ensures forall n, m :: n in fired + f && m in bag' ==> n.expire <= m.expire
  {
    if f != [] {
      LiveTopIsOriginal(timers, now, bag, current, fired, t);
    }
  }

  lemma ExtendFired(timers: map<int, TimerNode>, now: int, fired: seq<TimerNode>, t: TimerNode)
    requires FiredSoFar(timers, now, fired)
    requires t.id in timers && timers[t.id] == t && t !in fired && t.expire <= now
    requires forall n :: n in fired ==> n.expire <= t.expire
    ensures FiredSoFar(timers, now, fired + [t])
  {
    forall i | 0 <= i < |fired| ensures fired[i].id != t.id { assert fired[i] in fired; }
  }

  lemma ExtendHandled(timers: map<int, TimerNode>, now: int, current: map<int, TimerNode>, fired: seq<TimerNode>,
                      t: TimerNode, current': map<int, TimerNode>)
    requires Handled(timers, now, current, fired) && FiredSoFar(timers, now, fired)
    requires t.id in timers && timers[t.id] == t && t !in fired
    requires t.repeat ==> exists y :: Rearmed(t, y, now) && current' == current[t.id := y]
    requires !t.repeat ==> current' == current - {t.id}
    ensures Handled(timers, now, current', fired + [t])
  {
    forall id | id in timers ensures timers[id] in fired + [t] <==> timers[id] in fired || timers[id] == t { }
  }

  /** One iteration keeps the loop invariant of `tick`. */
  lemma StepProgress(timers: map<int, TimerNode>, now: int, a: State, fired: seq<TimerNode>)
    requires HarmlessMap(timers, now) && Ordered(a) && Pending(a, now)
    requires Progress(timers, now, multiset(a.heap), a.timers, fired)
    ensures var (b, f) := Step(a, now);
      && Ordered(b) && Progress(timers, now, multiset(b.heap), b.timers, fired + f)
      && forall n :: n in multiset(b.heap) && n.expire <= now <==>
                     n in multiset(a.heap) && n.expire <= now && n != a.heap[0]
  {
    hide Push, Pop;
    if Live(a, a.heap[0]) {
      LiveTopIsOriginal(timers, now, multiset(a.heap), a.timers, fired, a.heap[0]);
    }
    StepOnBag(a, now);
    TopIsEarliestAll(a.heap);
    var t, r := a.heap[0], Step(a, now);
    var b, f := r.0, r.1;
    ProgressOnBag(timers, now, multiset(a.heap), a.timers, a.next, fired, t, multiset(b.heap), b.timers, b.next, f);
  }

  lemma ProgressOnBag(timers: map<int, TimerNode>, now: int,
                      bag: multiset<TimerNode>, current: map<int, TimerNode>, next: nat, fired: seq<TimerNode>,
                      t: TimerNode, bag': multiset<TimerNode>, current': map<int, TimerNode>, next': nat,
                      f: seq<TimerNode>)
    requires HarmlessMap(timers, now) && Distinct(bag, current, next) && Progress(timers, now, bag, current, fired)
    requires BagStep(bag, current, next, t, now, bag', current', next', f)
    requires t.expire <= now && forall n :: n in bag ==> t.expire <= n.expire
    ensures Distinct(bag', current', next') && Progress(timers, now, bag', current', fired + f)
    ensures forall n :: n in bag' && n.expire <= now <==> n in bag && n.expire <= now && n != t
  {
    BagStepDistinct(bag, current, next, t, now, bag', current', next', f);
    BagStepBag(timers, now, bag, current, next, fired, t, bag', current', next', f);
    if f == [] {
      assert fired + f == fired;
    } else {
      LiveTopIsOriginal(timers, now, bag, current, fired, t);
      ExtendFired(timers, now, fired, t);
      if t.repeat {
        assert Rearmed(t, current'[t.id], now) && current' == current[t.id := current'[t.id]];
      }
      ExtendHandled(timers, now, current, fired, t, current');
    }
  }

  // ---- one tick ----

  lemma StartOfLoop(s: State, now: int)
    requires Inv(s)
    ensures Progress(s.timers, now, multiset(s.heap), s.timers, [])
  {
  }

  /** The count of due heap nodes falls at every iteration. */
  lemma StepShrinks(timers: map<int, TimerNode>, now: int, a: State, fired: seq<TimerNode>)
    requires HarmlessMap(timers, now) && Ordered(a) && Pending(a, now)
    requires Progress(timers, now, multiset(a.heap), a.timers, fired)
    ensures |Due(Step(a, now).0, now)| == |Due(a, now)| - 1
  {
    hide Step, Ordered, Progress, HarmlessMap;
    StepProgress(timers, now, a, fired);
    assert a.heap[0] in multiset(a.heap);
    assert Due(Step(a, now).0, now) == Due(a, now) - {a.heap[0]};
  }

  /** At most `n` iterations with no harmful timer: the loop invariant holds, and either
      the loop is over or `n` due nodes are gone. */
  lemma {:induction false} IterateProgress(s: State, now: int, n: nat)
    requires Inv(s) && HarmlessMap(s.timers, now)
    ensures var (a, fired) := Iterate(s, now, n);
      && Ordered(a) && Progress(s.timers, now, multiset(a.heap), a.timers, fired)
      && (Pending(a, now) ==> |Due(a, now)| + n <= |Due(s, now)|)
  {
    hide Push, Pop;
    if n == 0 {
      StartOfLoop(s, now);
    } else {
      IterateProgress(s, now, n - 1);
      var r := Iterate(s, now, n - 1);
      if Pending(r.0, now) {
        StepProgress(s.timers, now, r.0, r.1);
        StepShrinks(s.timers, now, r.0, r.1);
      }
    }
  }

  ghost function Due(s: State, now: int): set<TimerNode> {
    set n | n in multiset(s.heap) && n.expire <= now
  }

  lemma EndOfLoop(s: State, now: int, a: State, fired: seq<TimerNode>)
    requires Inv(s) && Ordered(a) && !Pending(a, now)
    requires Progress(s.timers, now, multiset(a.heap), a.timers, fired)
    ensures TickSpec(s, now, a, fired)
  {
    if a.heap != [] {
      TopIsEarliestAll(a.heap);
    }
    forall n ensures n in fired <==> Live(s, n) && n.expire <= now {
      if Live(s, n) && n.expire <= now {
        assert n in fired || n in multiset(a.heap);
      }
    }
  }

  lemma DueAtMostHeap(h: seq<TimerNode>, now: int)
    ensures |set n | n in multiset(h) && n.expire <= now| <= |h|
  {
    if h == [] {
      assert (set n | n in multiset(h) && n.expire <= now) == {};
    } else {
      var k := |h| - 1;
      assert h == h[..k] + [h[k]];
      DueAtMostHeap(h[..k], now);
      assert (set n | n in multiset(h) && n.expire <= now) <=
        (set n | n in multiset(h[..k]) && n.expire <= now) + {h[k]};
      SubsetSize((set n | n in multiset(h) && n.expire <= now),
                 (set n | n in multiset(h[..k]) && n.expire <= now) + {h[k]});
    }
  }

  lemma SubsetSize<T>(a: set<T>, b: set<T>)
    requires a <= b
    ensures |a| <= |b|
  {
    assert b == a + (b - a);
  }

  lemma PendingHasDue(s: State, now: int)
    ensures Pending(s, now) ==> |Due(s, now)| > 0
  {
    if Pending(s, now) {
      assert s.heap[0] in multiset(s.heap);
      assert s.heap[0] in Due(s, now);
    }
  }

  /** `tick` on a state where no due timer is harmful. */
  function Tick(s: State, now: int): (State, seq<TimerNode>) {
    Iterate(s, now, |s.heap|)
  }

  lemma TickMeetsSpec(s: State, now: int)
    requires Inv(s) && HarmlessMap(s.timers, now)
    ensures var (s', fired) := Tick(s, now); !Pending(s', now) && TickSpec(s, now, s', fired)
  {
    var r := Tick(s, now);
    IterateProgress(s, now, |s.heap|);
    DueAtMostHeap(s.heap, now);
    PendingHasDue(r.0, now);
    EndOfLoop(s, now, r.0, r.1);
  }

  lemma IterateStableBy(s: State, now: int, n: nat, k: nat)
    requires !Pending(Iterate(s, now, n).0, now)
    ensures Iterate(s, now, n + k) == Iterate(s, now, n)
  {
    hide Push, Pop;
    if k != 0 {
      IterateStableBy(s, now, n, k - 1);
    }
  }

  /** Once the loop is over, further iterations change nothing. */
  lemma IterateStable(s: State, now: int, n: nat, m: nat)
    requires !Pending(Iterate(s, now, n).0, now) && !Pending(Iterate(s, now, m).0, now)
    ensures Iterate(s, now, n) == Iterate(s, now, m)
  {
    hide *;
    if n <= m { IterateStableBy(s, now, n, m - n); } else { IterateStableBy(s, now, m, n - m); }
  }

  // ---- timers that keep the loop busy ----

  /** Every node was built by `now`: its deadline is at most its interval away. */
  ghost predicate Built(bag: multiset<TimerNode>, now: int) {
    forall n :: n in bag ==> Forward(n, now)
  }

  /** The node filed under `id` is due and re-arms itself at or before now. */
  ghost predicate Busy(bag: multiset<TimerNode>, timers: map<int, TimerNode>, now: int, id: int) {
    id in timers && timers[id] in bag && timers[id].expire <= now && timers[id].repeat && timers[id].interval <= 0
  }

  lemma BagStepBuilt(bag: multiset<TimerNode>, timers: map<int, TimerNode>, next: nat, t: TimerNode, now: int,
                     bag': multiset<TimerNode>, timers': map<int, TimerNode>, next': nat, f: seq<TimerNode>)
    requires BagStep(bag, timers, next, t, now, bag', timers', next', f) && Built(bag, now)
    ensures Built(bag', now)
  {
    assert forall n :: n in bag - multiset{t} ==> n in bag;
  }

  /** One iteration leaves such a node in place, or replaces it by another one. */
  lemma BagStaysBusy(bag: multiset<TimerNode>, timers: map<int, TimerNode>, next: nat, t: TimerNode, now: int, id: int,
                     bag': multiset<TimerNode>, timers': map<int, TimerNode>, next': nat, f: seq<TimerNode>)
    requires BagStep(bag, timers, next, t, now, bag', timers', next', f) && Busy(bag, timers, now, id)
    requires timers[id].id == id
    ensures Busy(bag', timers', now, id)
  {
    if timers[id] != t {
      assert timers[id] in bag - multiset{t};
      assert id != t.id || f == [];
    }
  }

  /** Running on from a state whose nodes were all built by now. */
  lemma StepBuilt(s: State, now: int)
    requires Ordered(s) && Built(multiset(s.heap), now) && Pending(s, now)
    ensures var s' := Step(s, now).0;
      && Ordered(s') && Built(multiset(s'.heap), now)
      && forall id :: Busy(multiset(s.heap), s.timers, now, id) ==> Busy(multiset(s'.heap), s'.timers, now, id)
  {
    assert s.heap[0] in multiset(s.heap);
    StepOnBag(s, now);
    var t, r := s.heap[0], Step(s, now);
    var bag, bag' := multiset(s.heap), multiset(r.0.heap);
    hide Step, BagStep, Built, Busy, IsHeap;
    BagStepDistinct(bag, s.timers, s.next, t, now, bag', r.0.timers, r.0.next, r.1);
    BagStepBuilt(bag, s.timers, s.next, t, now, bag', r.0.timers, r.0.next, r.1);
    forall id | Busy(bag, s.timers, now, id) ensures Busy(bag', r.0.timers, now, id) {
      BusyIsFiled(bag, s.timers, s.next, now, id);
      BagStaysBusy(bag, s.timers, s.next, t, now, id, bag', r.0.timers, r.0.next, r.1);
    }
  }

  lemma BusyIsFiled(bag: multiset<TimerNode>, timers: map<int, TimerNode>, next: nat, now: int, id: int)
    requires Distinct(bag, timers, next) && Busy(bag, timers, now, id)
    ensures id in timers && timers[id].id == id
  {
  }

  lemma {:induction false} IterateBuilt(s: State, now: int, n: nat)
    requires Ordered(s) && Built(multiset(s.heap), now)
    ensures var a := Iterate(s, now, n).0;
      && Ordered(a) && Built(multiset(a.heap), now)
      && forall id :: Busy(multiset(s.heap), s.timers, now, id) ==> Busy(multiset(a.heap), a.timers, now, id)
  {
    hide Step, Ordered, Built, Busy;
    if n != 0 {
      IterateBuilt(s, now, n - 1);
      var a := Iterate(s, now, n - 1).0;
      if Pending(a, now) {
        StepBuilt(a, now);
      }
    }
  }

  lemma BusyIsPending(s: State, now: int, id: int)
    requires Ordered(s) && Busy(multiset(s.heap), s.timers, now, id)
    ensures Pending(s, now)
  {
    assert s.timers[id] in multiset(s.heap);
    assert s.heap != [];
    TopIsEarliestAll(s.heap);
  }

  ghost predicate Ended(s: State, now: int, n: nat) { !Pending(Iterate(s, now, n).0, now) }

  /** The loop of `tick` is over after some number of iterations. */
  ghost predicate TickEnds(s: State, now: int) { exists n: nat :: Ended(s, now, n) }

  /** With a clock that does not go back, `tick` ends exactly when no live due timer repeats
      with an interval of zero or less; with such a timer it is busy for ever. */
  lemma TickEndsIff(s: State, now: int)
    requires Inv(s) && Built(multiset(s.heap), now)
    ensures TickEnds(s, now) <==> HarmlessMap(s.timers, now)
  {
    if HarmlessMap(s.timers, now) {
      TickMeetsSpec(s, now);
      assert Ended(s, now, |s.heap|);
    } else {
      var id :| id in s.timers && s.timers[id].expire <= now && s.timers[id].repeat && s.timers[id].interval <= 0;
      hide Iterate;
      forall n: nat ensures !Ended(s, now, n) {
        IterateBuilt(s, now, n);
        BusyIsPending(Iterate(s, now, n).0, now, id);
      }
    }
  }

  /** The simplest such case: one repeating timer with interval zero. */
  lemma ZeroIntervalNeverEnds(id: int, callback: nat, now: int, n: nat)
    ensures Pending(Iterate(AddTimer(EMPTY, id, callback, 0, true, now), now, n).0, now)
  {
    var s := AddTimer(EMPTY, id, callback, 0, true, now);
    var y := NewNode(EMPTY, id, callback, 0, true, now);
    EmptyAgrees();
    AddTimerInv(EMPTY, id, callback, 0, true, now);
    PushSpec(EMPTY.heap, y);
    assert multiset(s.heap) == multiset{y};
    hide Iterate, Push, IsHeap;
    IterateBuilt(s, now, n);
    assert Busy(multiset(s.heap), s.timers, now, id);
    BusyIsPending(Iterate(s, now, n).0, now, id);
  }

  // ---- whole runs ----

  datatype Event =
    | Add(id: int, callback: nat, timeout: int, repeat: bool, now: int)
    | TickAt(now: int)

  function Apply(s: State, e: Event): State {
    match e
    case Add(id, callback, timeout, repeat, now) => AddTimer(s, id, callback, timeout, repeat, now)
    case TickAt(now) => Tick(s, now).0
  }

  function Run(events: seq<Event>): State {
    if events == [] then EMPTY
    else Apply(Run(events[..|events| - 1]), events[|events| - 1])
  }

  datatype Latest = None | Timer(callback: nat, expire: int, repeat: bool, interval: int)

  /** Reference: what a run means for one id, with no heap and no other ids. The latest
      `addTimer` decides; a tick at or after its deadline uses it up or re-arms it. */
  function LatestOf(events: seq<Event>, id: int): Latest {
    if events == [] then None
    else
      var before := LatestOf(events[..|events| - 1], id);
      match events[|events| - 1]
      case Add(i, callback, timeout, repeat, now) =>
        if i == id then Timer(callback, now + timeout, repeat, timeout) else before
      case TickAt(now) =>
        if before.None? || before.expire > now then before
        else if before.repeat then before.(expire := now + before.interval)
        else None
  }

  /** No id has a latest timer that is due now and repeats with an interval of zero or less. */
  ghost predicate NoneStuck(events: seq<Event>, now: int) {
    forall id :: Prompt(LatestOf(events, id), now)
  }

  predicate Prompt(l: Latest, now: int) { l.Timer? && l.expire <= now && l.repeat ==> l.interval > 0 }

  /** Every tick of the run ended, told from the history alone. */
  ghost predicate EveryTickEnds(events: seq<Event>) {
    events == [] ||
    var before, e := events[..|events| - 1], events[|events| - 1];
    EveryTickEnds(before) && (e.TickAt? ==> NoneStuck(before, e.now))
  }

  ghost predicate Agrees(timers: map<int, TimerNode>, id: int, l: Latest) {
    if l.None? then id !in timers
    else
      && id in timers
      && timers[id].callback == l.callback && timers[id].expire == l.expire
      && timers[id].repeat == l.repeat && timers[id].interval == l.interval
  }

  /** Over every run the heap and map agree, for every id, with that id's own history. */
  lemma {:induction false} RunRefines(events: seq<Event>)
    requires EveryTickEnds(events)
    ensures Inv(Run(events))
    ensures forall id :: Agrees(Run(events).timers, id, LatestOf(events, id))
  {
    hide Push, Pop, AddTimer, Tick, Inv, TickSpec, Agrees, HarmlessMap, NoneStuck;
    if events == [] {
      EmptyAgrees();
    } else {
      var before, e := events[..|events| - 1], events[|events| - 1];
      RunRefines(before);
      var s := Run(before);
      assert events == before + [e];
      match e
      case Add(id, callback, timeout, repeat, now) =>
        AddAgrees(s, before, id, callback, timeout, repeat, now);
      case TickAt(now) =>
        HarmlessRun(before, now);
        TickMeetsSpec(s, now);
        TickAgrees(s, now, Tick(s, now).0, Tick(s, now).1, before);
    }
  }

  /** In particular every run in which repeating timers have positive intervals. */
  lemma {:induction false} PositiveRepeatsEnd(events: seq<Event>)
    requires forall i :: 0 <= i < |events| && events[i].Add? && events[i].repeat ==> events[i].timeout > 0
    ensures EveryTickEnds(events)
    ensures forall id :: LatestOf(events, id).Timer? && LatestOf(events, id).repeat ==>
      LatestOf(events, id).interval > 0
  {
    if events != [] {
      var before := events[..|events| - 1];
      assert forall i :: 0 <= i < |before| ==> before[i] == events[i];
      PositiveRepeatsEnd(before);
    }
  }

  lemma EmptyAgrees()
    ensures Inv(EMPTY)
    ensures forall id :: Agrees(EMPTY.timers, id, None)
  {
  }

  lemma AddAgrees(s: State, before: seq<Event>, id: int, callback: nat, timeout: int, repeat: bool, now: int)
    requires Inv(s)
    requires forall id :: Agrees(s.timers, id, LatestOf(before, id))
    ensures Inv(AddTimer(s, id, callback, timeout, repeat, now))
    ensures forall k :: Agrees(AddTimer(s, id, callback, timeout, repeat, now).timers, k,
                               LatestOf(before + [Add(id, callback, timeout, repeat, now)], k))
  {
    AddTimerInv(s, id, callback, timeout, repeat, now);
    hide Push, Inv;
    var after := before + [Add(id, callback, timeout, repeat, now)];
    assert after[..|after| - 1] == before;
    forall k ensures Agrees(AddTimer(s, id, callback, timeout, repeat, now).timers, k, LatestOf(after, k)) {
      assert Agrees(s.timers, k, LatestOf(before, k));
    }
  }

  lemma HarmlessRun(events: seq<Event>, now: int)
    requires forall id :: Agrees(Run(events).timers, id, LatestOf(events, id))
    ensures HarmlessMap(Run(events).timers, now) <==> NoneStuck(events, now)
  {
    hide Run, LatestOf;
    var timers := Run(events).timers;
    forall id ensures Prompt(LatestOf(events, id), now) <==>
      (id in timers && timers[id].expire <= now && timers[id].repeat ==> timers[id].interval > 0)
    {
      assert Agrees(timers, id, LatestOf(events, id));
    }
  }

  /** The clock never goes back, up to `now`. */
  ghost predicate Clocked(events: seq<Event>, now: int) {
    events == [] || (Clocked(events[..|events| - 1], events[|events| - 1].now) && events[|events| - 1].now <= now)
  }

  lemma {:induction false} RunBuilt(events: seq<Event>, now: int)
    requires EveryTickEnds(events) && Clocked(events, now)
    ensures Built(multiset(Run(events).heap), now)
  {
    if events != [] {
      hide Push, Pop, Iterate;
      var before, e := events[..|events| - 1], events[|events| - 1];
      RunBuilt(before, e.now);
      RunRefines(before);
      var s := Run(before);
      match e
      case Add(id, callback, timeout, repeat, at) =>
        PushSpec(s.heap, NewNode(s, id, callback, timeout, repeat, at));
      case TickAt(at) => IterateBuilt(s, at, |s.heap|);
    }
  }

  /** In every run whose clock does not go back and whose earlier ticks ended, the next tick
      ends exactly when no id's latest timer is due and repeats with interval zero or less. */
  lemma NextTickEndsIff(events: seq<Event>, now: int)
    requires EveryTickEnds(events) && Clocked(events, now)
    ensures TickEnds(Run(events), now) <==> NoneStuck(events, now)
  {
    hide Run, Inv, Built, HarmlessMap, NoneStuck, EveryTickEnds, Clocked, TickEnds;
    RunRefines(events);
    RunBuilt(events, now);
    HarmlessRun(events, now);
    TickEndsIff(Run(events), now);
  }

  lemma TickAgrees(s: State, now: int, s': State, fired: seq<TimerNode>, before: seq<Event>)
    requires TickSpec(s, now, s', fired)
    requires forall id :: Agrees(s.timers, id, LatestOf(before, id))
    ensures Inv(s')
    ensures forall id :: Agrees(s'.timers, id, LatestOf(before + [TickAt(now)], id))
  {
    var after := before + [TickAt(now)];
    assert after[..|after| - 1] == before;
    forall id ensures Agrees(s'.timers, id, LatestOf(after, id)) {
      assert Agrees(s.timers, id, LatestOf(before, id));
    }
  }

  ghost predicate Fires(fired: seq<TimerNode>, id: int) {
    exists n :: n in fired && n.id == id
  }

  /** In every run a tick fires exactly the ids whose latest timer is due, once each, in
      deadline order and with the latest callback; superseded nodes never fire, and no
      due node stays in the heap. */
  lemma TickFiresLatest(events: seq<Event>, now: int)
    requires EveryTickEnds(events) && NoneStuck(events, now)
    ensures var (s', fired) := Tick(Run(events), now);
      && (forall id :: Fires(fired, id) <==> LatestOf(events, id).Timer? && LatestOf(events, id).expire <= now)
      && (forall n :: n in fired ==> LatestOf(events, n.id) == Timer(n.callback, n.expire, n.repeat, n.interval))
      && (forall i, j :: 0 <= i < j < |fired| ==> fired[i].expire <= fired[j].expire && fired[i].id != fired[j].id)
      && (forall n :: n in multiset(s'.heap) ==> n.expire > now)
  {
    hide Push, Pop;
    RunRefines(events);
    HarmlessRun(events, now);
    var s := Run(events);
    TickMeetsSpec(s, now);
    var fired := Tick(s, now).1;
    forall n | n in fired ensures LatestOf(events, n.id) == Timer(n.callback, n.expire, n.repeat, n.interval) {
      assert Agrees(s.timers, n.id, LatestOf(events, n.id));
    }
    forall id ensures Fires(fired, id) <==> LatestOf(events, id).Timer? && LatestOf(events, id).expire <= now {
      assert Agrees(s.timers, id, LatestOf(events, id));
      if id in s.timers && s.timers[id].expire <= now {
        assert s.timers[id] in fired;
      }
    }
  }

  /** `isExpired` in every run: true for an id with no timer, otherwise by its latest deadline. */
  lemma IsExpiredIsLatest(events: seq<Event>, id: int, now: int)
    requires EveryTickEnds(events)
    ensures IsExpired(Run(events), id, now) <==> LatestOf(events, id).None? || now >= LatestOf(events, id).expire
  {
    RunRefines(events);
    assert Agrees(Run(events).timers, id, LatestOf(events, id));
  }
}
