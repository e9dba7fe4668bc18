/** `TimerManager` as an object: its methods change the heap and the map in place. */
module TimerManagement {
  import opened TimerHeap
  import Timer

  class TimerManager {
    var heap: seq<TimerNode>
    var timers: map<int, TimerNode>
    var next: nat

    ghost function State(): Timer.State
      reads this
    {
      Timer.State(heap, timers, next)
    }

    constructor ()
      ensures State() == Timer.EMPTY && Timer.Inv(State())
    {
      heap, timers, next := [], map[], 0;
    }

    method AddTimer(id: int, callback: nat, timeout: int, repeat: bool, now: int)
      requires Timer.Inv(State())
      modifies this
      ensures Timer.Inv(State())
      ensures State() == Timer.AddTimer(old(State()), id, callback, timeout, repeat, now)
    {
      Timer.AddTimerInv(State(), id, callback, timeout, repeat, now);
      var timer := TimerNode(next, id, callback, now + timeout, repeat, timeout);
      timers := timers[id := timer];
      heap := Push(heap, timer);
      next := next + 1;
    }

    /** The body of the loop of `tick` for a top that is due. */
    method PopDue(now: int) returns (fired: seq<TimerNode>)
      requires Timer.Pending(State(), now)
      modifies this
      ensures (State(), fired) == Timer.Step(old(State()), now)
    {
      hide Push, Pop;
      var timer := heap[0];
      var fd := timer.id;
      if fd in timers && timers[fd] == timer {
        fired := [timer];
        if timer.repeat {
          Rearm(timer, now);
        } else {
          timers := timers - {fd};
          heap := Pop(heap);
        }
      } else {
        fired := [];
        heap := Pop(heap);
      }
    }

    /** The re-armed node is pushed before the pop that follows every due top. */
    method Rearm(timer: TimerNode, now: int)
      modifies this
      ensures var s := old(State());
        var y := Timer.NewNode(s, timer.id, timer.callback, timer.interval, true, now);
        State() == Timer.State(Pop(Push(s.heap, y)), s.timers[timer.id := y], s.next + 1)
    {
      hide Push, Pop;
      var rearmed := TimerNode(next, timer.id, timer.callback, now + timer.interval, true, timer.interval);
      timers := timers[timer.id := rearmed];
      heap := Push(heap, rearmed);
      next := next + 1;
      heap := Pop(heap);
    }

    /** The precondition is exact: `Timer.TickEndsIff`. */
    method Tick(now: int) returns (fired: seq<TimerNode>)
      requires Timer.Inv(State()) && Timer.HarmlessMap(timers, now)
      modifies this
      ensures Timer.TickSpec(old(State()), now, State(), fired)
      ensures (State(), fired) == Timer.Tick(old(State()), now)
    {
      hide Timer.Step, Timer.Ordered, Timer.Progress, Timer.TickSpec, Timer.HarmlessMap, Timer.Due;
      fired := [];
      ghost var n := 0;
      Timer.StartOfLoop(State(), now);
      while heap != []
        invariant Timer.Ordered(State())
        invariant Timer.Progress(old(timers), now, multiset(heap), timers, fired)
        invariant Timer.Iterate(old(State()), now, n) == (State(), fired)
        decreases |Timer.Due(State(), now)|
      {
        if heap[0].expire > now {
          break;
        }
        Timer.StepProgress(old(timers), now, State(), fired);
        Timer.StepShrinks(old(timers), now, State(), fired);
        var ran := PopDue(now);
        fired := fired + ran;
        n := n + 1;
      }
      Timer.EndOfLoop(old(State()), now, State(), fired);
      Timer.TickMeetsSpec(old(State()), now);
      Timer.IterateStable(old(State()), now, n, |old(heap)|);
    }

    method IsExpired(id: int, now: int) returns (expired: bool)
      ensures expired == Timer.IsExpired(State(), id, now)
    {
      if id !in timers {
        return true;
      }
      return now >= timers[id].expire;
    }
  }
}
