/** `RateLimiter`: fixed windows of requests per type and key. Times are clock readings in
    nanoseconds. */
module RateLimit {

  /** `RequestInfo`. */
  datatype Info = Info(count: int, reset: int)

  /** The rule of a type: `m_typeMaxCountMap` and `m_typeTimeWindowMap` (seconds). */
  datatype Rule = Rule(maxCount: int, window: int)

  /** A type and its records; a registered type always has a rule. */
  datatype Table = Table(rule: Rule, records: map<string, Info>)

  datatype Limiter = Limiter(closed: bool, types: map<string, Table>)

  const SECOND := 1_000_000_000

  function Register(s: Limiter, kind: string, maxCount: int, window: int): Limiter {
    if s.closed then s
    else
      var records := if kind in s.types then s.types[kind].records else map[];
      s.(types := s.types[kind := Table(Rule(maxCount, window), records)])
  }

  /** `isLimit`: the new state and whether the request is refused. */
  function IsLimit(s: Limiter, kind: string, key: string, now: int): (Limiter, bool) {
    if s.closed || kind !in s.types then (s, false)
    else
      var t := s.types[kind];
      if key !in t.records then (Record(s, kind, key, Info(1, now)), false)
      else
        var info := t.records[key];
        if now - info.reset < t.rule.window * SECOND then
          if info.count >= t.rule.maxCount then (s, true)
          else (Record(s, kind, key, info.(count := info.count + 1)), false)
        else (Record(s, kind, key, Info(1, now)), false)
  }

  function Record(s: Limiter, kind: string, key: string, info: Info): Limiter
    requires kind in s.types
  {
    s.(types := s.types[kind := s.types[kind].(records := s.types[kind].records[key := info])])
  }

  function Clear(s: Limiter, kind: string, key: string): Limiter {
    if s.closed || kind !in s.types then s
    else s.(types := s.types[kind := s.types[kind].(records := s.types[kind].records - {key})])
  }

  // ---- independence of keys ----

  datatype Event =
    | RegisterEv(kind: string, maxCount: int, window: int)
    | Call(kind: string, key: string, now: int)
    | ClearEv(kind: string, key: string)

  function Apply(s: Limiter, e: Event): Limiter {
    match e
    case RegisterEv(kind, maxCount, window) => Register(s, kind, maxCount, window)
    case Call(kind, key, now) => IsLimit(s, kind, key, now).0
    case ClearEv(kind, key) => Clear(s, kind, key)
  }

  function Run(events: seq<Event>): Limiter {
    if events == [] then Limiter(false, map[]) else Apply(Run(events[..|events| - 1]), events[|events| - 1])
  }

  /** Whether an event is about this type and key. */
  predicate Concerns(e: Event, kind: string, key: string) {
    e.kind == kind && (e.RegisterEv? || e.key == key)
  }

  predicate IsCall(e: Event, kind: string, key: string) { e.Call? && e.kind == kind && e.key == key }

  function Own(events: seq<Event>, kind: string, key: string): seq<Event> {
    if events == [] then []
    else
      var rest := Own(events[..|events| - 1], kind, key);
      if Concerns(events[|events| - 1], kind, key) then rest + [events[|events| - 1]] else rest
  }

  /** What the limiter knows about one type and key. */
  datatype Slot = Unregistered | Idle(rule: Rule) | Busy(rule: Rule, info: Info)

  function SlotOf(s: Limiter, kind: string, key: string): Slot {
    if kind !in s.types then Unregistered
    else if key !in s.types[kind].records then Idle(s.types[kind].rule)
    else Busy(s.types[kind].rule, s.types[kind].records[key])
  }

  lemma SlotStep(s: Limiter, t: Limiter, e: Event, kind: string, key: string)
    requires !s.closed && !t.closed && SlotOf(s, kind, key) == SlotOf(t, kind, key)
    ensures SlotOf(Apply(s, e), kind, key) == SlotOf(if Concerns(e, kind, key) then Apply(t, e) else t, kind, key)
    ensures !Apply(s, e).closed && !Apply(t, e).closed
  {
  }

  lemma {:induction false} SlotFromOwn(events: seq<Event>, kind: string, key: string)
    ensures SlotOf(Run(events), kind, key) == SlotOf(Run(Own(events, kind, key)), kind, key)
    ensures !Run(events).closed && !Run(Own(events, kind, key)).closed
  {
    if events != [] {
      var before, e := events[..|events| - 1], events[|events| - 1];
      SlotFromOwn(before, kind, key);
      var own := Own(before, kind, key);
      assert (own + [e])[..|own|] == own;
      hide Apply;
      SlotStep(Run(before), Run(own), e, kind, key);
    }
  }

  /** The answer for a key depends only on that key's own calls and its type's rules: any
      two histories that agree on them get the same answer. */
  lemma AnswersDependOnOwnCalls(events: seq<Event>, others: seq<Event>, kind: string, key: string, now: int)
    requires Own(events, kind, key) == Own(others, kind, key)
    ensures IsLimit(Run(events), kind, key, now).1 == IsLimit(Run(others), kind, key, now).1
  {
    SlotFromOwn(events, kind, key);
    SlotFromOwn(others, kind, key);
    hide Run;
  }

  // ---- the answer from the history ----

  datatype Rules = NoRule | OneRule(rule: Rule)

  /** The rule of the latest registration of a type. */
  function LatestRule(events: seq<Event>, kind: string): Rules {
    if events == [] then NoRule
    else
      var e := events[|events| - 1];
      if e.RegisterEv? && e.kind == kind then OneRule(Rule(e.maxCount, e.window))
      else LatestRule(events[..|events| - 1], kind)
  }

  /** With these requests let through in the current window, one more is refused. */
  predicate Refuses(rule: Rule, admitted: seq<int>, now: int) {
    admitted != [] && now < admitted[0] + rule.window * SECOND && |admitted| >= rule.maxCount
  }

  /** Reference: when the requests of the current window were let through, from the history
      of one type and key. A clear ends the window, and so does a request that comes a
      window's width after its first; registering the type again does not. */
  function Current(events: seq<Event>, kind: string, key: string): seq<int> {
    if events == [] then []
    else
      var before, e := events[..|events| - 1], events[|events| - 1];
      var admitted := Current(before, kind, key);
      if !Concerns(e, kind, key) || e.RegisterEv? then admitted
      else if e.ClearEv? then []
      else match LatestRule(before, kind)
        case NoRule => []
        case OneRule(rule) =>
          if Refuses(rule, admitted, e.now) then admitted
          else if admitted != [] && e.now < admitted[0] + rule.window * SECOND then admitted + [e.now]
          else [e.now]
  }

  /** `isLimit` on what the limiter knows about one type and key. */
  function SlotCall(slot: Slot, now: int): (Slot, bool) {
    match slot
    case Unregistered => (slot, false)
    case Idle(rule) => (Busy(rule, Info(1, now)), false)
    case Busy(rule, info) =>
      if now - info.reset >= rule.window * SECOND then (Busy(rule, Info(1, now)), false)
      else if info.count >= rule.maxCount then (slot, true)
      else (Busy(rule, info.(count := info.count + 1)), false)
  }

  lemma CallOnSlot(s: Limiter, kind: string, key: string, now: int)
    requires !s.closed
    ensures var (s', refused) := IsLimit(s, kind, key, now);
      !s'.closed && (SlotOf(s', kind, key), refused) == SlotCall(SlotOf(s, kind, key), now)
  {
  }

  /** What the other own events do to it. */
  lemma OtherOnSlot(s: Limiter, e: Event, kind: string, key: string)
    requires !s.closed && !IsCall(e, kind, key)
    ensures !Apply(s, e).closed
    ensures var slot, after := SlotOf(s, kind, key), SlotOf(Apply(s, e), kind, key);
      if !Concerns(e, kind, key) then after == slot
      else if e.ClearEv? then after == (if slot.Busy? then Idle(slot.rule) else slot)
      else var rule := Rule(e.maxCount, e.window); after == if slot.Busy? then Busy(rule, slot.info) else Idle(rule)
  {
  }

  lemma {:induction false} SlotIsCurrent(events: seq<Event>, kind: string, key: string)
    ensures var admitted := Current(events, kind, key);
      SlotOf(Run(events), kind, key) ==
        match LatestRule(events, kind)
        case NoRule => Unregistered
        case OneRule(rule) => if admitted == [] then Idle(rule) else Busy(rule, Info(|admitted|, admitted[0]))
    ensures !Run(events).closed && (LatestRule(events, kind).NoRule? ==> Current(events, kind, key) == [])
  {
    if events != [] {
      var before, e := events[..|events| - 1], events[|events| - 1];
      SlotIsCurrent(before, kind, key);
      hide SlotOf, IsLimit;
      if IsCall(e, kind, key) {
        CallOnSlot(Run(before), kind, key, e.now);
      } else {
        hide Apply;
        OtherOnSlot(Run(before), e, kind, key);
      }
    }
  }

  /** In every run a request is refused exactly if its type was registered, its key's current
      window is still open, and the latest rule allows no more than it has let through. So
      an unregistered type never refuses, and the first request after a clear is let
      through and opens a window. */
  lemma RefusedFromHistory(events: seq<Event>, kind: string, key: string, now: int)
    ensures var rules := LatestRule(events, kind);
      IsLimit(Run(events), kind, key, now).1 <==> rules.OneRule? && Refuses(rules.rule, Current(events, kind, key), now)
  {
    SlotIsCurrent(events, kind, key);
    hide Run, Current, LatestRule;
  }

  /** In particular after a clear, whatever other types and keys did since. */
  lemma AdmittedAfterClear(events: seq<Event>, kind: string, key: string, now: int)
    requires Own(events, kind, key) != [] && Own(events, kind, key)[|Own(events, kind, key)| - 1] == ClearEv(kind, key)
    ensures !IsLimit(Run(events), kind, key, now).1
    ensures LatestRule(events, kind).OneRule? ==> Current(events + [Call(kind, key, now)], kind, key) == [now]
  {
    RefusedFromHistory(events, kind, key, now);
    NothingAfterClear(events, kind, key);
    var all := events + [Call(kind, key, now)];
    assert all[..|events|] == events;
  }

  lemma {:induction false} NothingAfterClear(events: seq<Event>, kind: string, key: string)
    requires Own(events, kind, key) != [] && Own(events, kind, key)[|Own(events, kind, key)| - 1] == ClearEv(kind, key)
    ensures Current(events, kind, key) == []
  {
    if !Concerns(events[|events| - 1], kind, key) {
      NothingAfterClear(events[..|events| - 1], kind, key);
    }
  }

  function RunFrom(s: Limiter, events: seq<Event>): Limiter {
    if events == [] then s else Apply(RunFrom(s, events[..|events| - 1]), events[|events| - 1])
  }

  /** A limiter that `init` closed refuses nobody, whatever is registered and called. */
  lemma {:induction false} ClosedNeverRefuses(s: Limiter, events: seq<Event>, kind: string, key: string, now: int)
    requires s.closed
    ensures RunFrom(s, events) == s && !IsLimit(RunFrom(s, events), kind, key, now).1
  {
    if events != [] {
      ClosedNeverRefuses(s, events[..|events| - 1], kind, key, now);
    }
  }

  // ---- how much a window admits ----

  /** The times at which requests of this type and key were let through. */
  function Admitted(events: seq<Event>, kind: string, key: string): seq<int> {
    if events == [] then []
    else
      var before, e := events[..|events| - 1], events[|events| - 1];
      Admitted(before, kind, key) +
      (if IsCall(e, kind, key) && !IsLimit(Run(before), kind, key, e.now).1 then [e.now] else [])
  }

  /** Whether a call at `now` opened a window. */
  function OpenedBy(before: Slot, after: Slot, now: int): seq<int> {
    if after.Busy? && after.info == Info(1, now) && after != before then [now] else []
  }

  /** The times at which a window of this type and key was opened. */
  function Opened(events: seq<Event>, kind: string, key: string): seq<int> {
    if events == [] then []
    else
      var before, e := events[..|events| - 1], events[|events| - 1];
      Opened(before, kind, key) +
      (if IsCall(e, kind, key)
       then OpenedBy(SlotOf(Run(before), kind, key), SlotOf(Run(events), kind, key), e.now) else [])
  }

  /** One more event, on the run and on both histories. */
  lemma OneMore(before: seq<Event>, e: Event, kind: string, key: string)
    ensures Run(before + [e]) == Apply(Run(before), e)
    ensures Admitted(before + [e], kind, key) == Admitted(before, kind, key) +
      (if IsCall(e, kind, key) && !IsLimit(Run(before), kind, key, e.now).1 then [e.now] else [])
    ensures Opened(before + [e], kind, key) == Opened(before, kind, key) +
      (if IsCall(e, kind, key)
       then OpenedBy(SlotOf(Run(before), kind, key), SlotOf(Run(before + [e]), kind, key), e.now) else [])
  {
    assert (before + [e])[..|before|] == before;
    hide Apply, IsLimit, SlotOf;
  }

  /** How many of these times fall in the half-open interval from `a` to `b`. */
  function Count(times: seq<int>, a: int, b: int): nat {
    if times == [] then 0
    else Count(times[..|times| - 1], a, b) + (if a <= times[|times| - 1] < b then 1 else 0)
  }

  /** How many fall in the interval of this width from `a` on. */
  function Span(times: seq<int>, a: int, width: int): nat { Count(times, a, a + width) }

  function Max(a: int, b: int): int { if a < b then b else a }

  /** Of the events that concern this type and key the first registers the type with this
      rule and the others are calls, and its clock never goes back. */
  ghost predicate FixedRule(events: seq<Event>, kind: string, key: string, rule: Rule) {
    var own := Own(events, kind, key);
    && own != [] && own[0] == RegisterEv(kind, rule.maxCount, rule.window)
    && (forall i :: 0 < i < |own| ==> own[i].Call?)
    && (forall i, j :: 0 < i < j < |own| ==> own[i].now <= own[j].now)
  }

  /** The same when there are no other events. */
  ghost predicate Alone(events: seq<Event>, kind: string, key: string, rule: Rule) {
    && events != [] && events[0] == RegisterEv(kind, rule.maxCount, rule.window)
    && (forall i :: 0 < i < |events| ==> IsCall(events[i], kind, key))
    && (forall i, j :: 0 < i < j < |events| ==> events[i].now <= events[j].now)
  }

  lemma {:induction false} CountSnoc(times: seq<int>, x: int, a: int, b: int)
    ensures Count(times + [x], a, b) == Count(times, a, b) + (if a <= x < b then 1 else 0)
  {
    assert (times + [x])[..|times|] == times;
  }

  lemma {:induction false} CountSplit(times: seq<int>, a: int, b: int, c: int)
    requires a <= b <= c
    ensures Count(times, a, c) == Count(times, a, b) + Count(times, b, c)
  {
    if times != [] { CountSplit(times[..|times| - 1], a, b, c); }
  }

  lemma {:induction false} CountWider(times: seq<int>, a: int, b: int, a': int, b': int)
    requires a' <= a && b <= b'
    ensures Count(times, a, b) <= Count(times, a', b')
  {
    if times != [] { CountWider(times[..|times| - 1], a, b, a', b'); }
  }

  lemma {:induction false} CountNone(times: seq<int>, a: int, b: int)
    requires forall i :: 0 <= i < |times| ==> times[i] < a
    ensures Count(times, a, b) == 0
  {
    if times != [] { CountNone(times[..|times| - 1], a, b); }
  }

  /** State of the counting argument: the open window has admitted `count` requests, the
      first of them at its opening; the stretch just before it holds at most `limit - 1`. */
  ghost predicate Tally(info: Info, adm: seq<int>, width: int, limit: int) {
    && 1 <= info.count <= limit
    && Count(adm, info.reset, info.reset + width) == info.count
    && Count(adm, info.reset, info.reset + 1) >= 1
    && (forall i :: 0 <= i < |adm| ==> adm[i] < info.reset + width)
    && (forall a :: info.reset - width < a ==> Count(adm, a, info.reset) <= limit - 1)
    && (forall a :: Span(adm, a, width) <= 2 * limit - 1)
  }

  lemma FirstTally(now: int, width: int, limit: int)
    requires width > 0 && limit >= 1
    ensures Tally(Info(1, now), [now], width, limit)
  {
    forall a, b ensures Count([now], a, b) == if a <= now < b then 1 else 0 {
      assert [] + [now] == [now];
      CountSnoc([], now, a, b);
    }
  }

  lemma CountOneMore(info: Info, adm: seq<int>, width: int, limit: int, now: int, a: int)
    requires width > 0 && Tally(info, adm, width, limit)
    requires info.reset <= now < info.reset + width && info.count < limit
    ensures Span(adm + [now], a, width) <= 2 * limit - 1
  {
    assert Span(adm, a, width) <= 2 * limit - 1;
    CountSnoc(adm, now, a, a + width);
    if a <= now < a + width {
      if a <= info.reset {
        CountSplit(adm, a, info.reset, a + width);
        CountWider(adm, info.reset, a + width, info.reset, info.reset + width);
      } else {
        CountSplit(adm, info.reset, a, a + width);
        CountSplit(adm, info.reset, info.reset + width, a + width);
        CountNone(adm, info.reset + width, a + width);
      }
    }
  }

  lemma TallyGrows(info: Info, adm: seq<int>, width: int, limit: int, now: int)
    requires width > 0 && Tally(info, adm, width, limit)
    requires info.reset <= now < info.reset + width && info.count < limit
    ensures Tally(info.(count := info.count + 1), adm + [now], width, limit)
  {
    CountSnoc(adm, now, info.reset, info.reset + width);
    CountSnoc(adm, now, info.reset, info.reset + 1);
    forall a | info.reset - width < a ensures Count(adm + [now], a, info.reset) <= limit - 1 {
      CountSnoc(adm, now, a, info.reset);
    }
    forall a ensures Span(adm + [now], a, width) <= 2 * limit - 1 {
      CountOneMore(info, adm, width, limit, now, a);
    }
  }

  /** Just before a new window, the tail of the old one lacks its opening request. */
  lemma CountTail(info: Info, adm: seq<int>, width: int, limit: int, now: int, a: int)
    requires width > 0 && Tally(info, adm, width, limit) && now >= info.reset + width && now - width < a
    ensures Count(adm, a, now) <= limit - 1
  {
    if a < now {
      CountSplit(adm, info.reset, info.reset + 1, now);
      CountWider(adm, a, now, info.reset + 1, now);
      CountSplit(adm, info.reset, info.reset + width, now);
      CountNone(adm, info.reset + width, now);
    } else {
      CountEmpty(adm, a, now);
    }
  }

  lemma {:induction false} CountEmpty(times: seq<int>, a: int, b: int)
    requires b <= a
    ensures Count(times, a, b) == 0
  {
    if times != [] { CountEmpty(times[..|times| - 1], a, b); }
  }

  lemma TallyRestarts(info: Info, adm: seq<int>, width: int, limit: int, now: int)
    requires width > 0 && Tally(info, adm, width, limit) && now >= info.reset + width
    ensures Tally(Info(1, now), adm + [now], width, limit)
  {
    CountSnoc(adm, now, now, now + width);
    CountSnoc(adm, now, now, now + 1);
    CountNone(adm, now, now + width);
    forall a | now - width < a ensures Count(adm + [now], a, now) <= limit - 1 {
      CountSnoc(adm, now, a, now);
      CountTail(info, adm, width, limit, now, a);
    }
    forall a ensures Span(adm + [now], a, width) <= 2 * limit - 1 {
      assert Span(adm, a, width) <= 2 * limit - 1;
      CountSnoc(adm, now, a, a + width);
      if a <= now < a + width {
        CountTail(info, adm, width, limit, now, a);
        CountSplit(adm, a, now, a + width);
        CountNone(adm, now, a + width);
      }
    }
  }

  // ---- whole runs ----

  /** The counting argument over a run: nothing yet, or a tally with every window opened
      so far within the limit. */
  ghost predicate Within(slot: Slot, adm: seq<int>, openings: seq<int>, rule: Rule) {
    var width, limit := rule.window * SECOND, Max(1, rule.maxCount);
    match slot
    case Unregistered => false
    case Idle(r) => r == rule && adm == [] && openings == []
    case Busy(r, info) =>
      && r == rule && Tally(info, adm, width, limit)
      && (forall i :: 0 <= i < |openings| ==> openings[i] <= info.reset)
      && (forall i :: 0 <= i < |openings| ==> openings[i] == info.reset || openings[i] + width <= info.reset)
      && (forall i :: 0 <= i < |openings| ==> Count(adm, openings[i], openings[i] + width) <= limit)
  }

  lemma WithinStep(s: Limiter, kind: string, key: string, now: int, adm: seq<int>, openings: seq<int>, rule: Rule)
    requires !s.closed && rule.window > 0 && Within(SlotOf(s, kind, key), adm, openings, rule)
    requires SlotOf(s, kind, key).Busy? ==> SlotOf(s, kind, key).info.reset <= now
    ensures var (s', refused) := IsLimit(s, kind, key, now);
      Within(SlotOf(s', kind, key), adm + (if refused then [] else [now]),
             openings + OpenedBy(SlotOf(s, kind, key), SlotOf(s', kind, key), now), rule)
  {
    hide Within, IsLimit, SlotOf;
    CallOnSlot(s, kind, key, now);
    SlotWithin(SlotOf(s, kind, key), now, adm, openings, rule);
  }

  lemma SlotWithin(slot: Slot, now: int, adm: seq<int>, openings: seq<int>, rule: Rule)
    requires rule.window > 0 && Within(slot, adm, openings, rule)
    requires slot.Busy? ==> slot.info.reset <= now
    ensures var (after, refused) := SlotCall(slot, now);
      Within(after, adm + (if refused then [] else [now]), openings + OpenedBy(slot, after, now), rule)
  {
    assert adm + [] == adm && openings + [] == openings;
    match slot
    case Idle(_) =>
      hide Within;
      WithinStarts(now, rule);
    case Busy(_, info) =>
      hide Within;
      if now >= info.reset + rule.window * SECOND {
        WithinRestarts(info, now, adm, openings, rule);
      } else if info.count < rule.maxCount {
        CountIsPositive(info, adm, openings, rule);
        WithinGrows(info, now, adm, openings, rule);
      }
  }

  lemma WithinStarts(now: int, rule: Rule)
    requires rule.window > 0
    ensures Within(Busy(rule, Info(1, now)), [now], [now], rule)
  {
    hide Tally, Count;
    FirstTally(now, rule.window * SECOND, Max(1, rule.maxCount));
    WindowOfTally(Info(1, now), [now], rule.window * SECOND, Max(1, rule.maxCount));
  }

  lemma CountIsPositive(info: Info, adm: seq<int>, openings: seq<int>, rule: Rule)
    requires Within(Busy(rule, info), adm, openings, rule)
    ensures info.count >= 1
  {
  }

  lemma WithinGrows(info: Info, now: int, adm: seq<int>, openings: seq<int>, rule: Rule)
    requires rule.window > 0 && Within(Busy(rule, info), adm, openings, rule)
    requires info.reset <= now < info.reset + rule.window * SECOND && info.count < rule.maxCount
    ensures Within(Busy(rule, info.(count := info.count + 1)), adm + [now], openings, rule)
  {
    hide Tally, Count;
    var width, limit := rule.window * SECOND, Max(1, rule.maxCount);
    TallyGrows(info, adm, width, limit, now);
    CountsLater(adm, now, openings, info.reset, width, limit);
    WindowOfTally(info.(count := info.count + 1), adm + [now], width, limit);
  }

  lemma WithinRestarts(info: Info, now: int, adm: seq<int>, openings: seq<int>, rule: Rule)
    requires rule.window > 0 && Within(Busy(rule, info), adm, openings, rule)
    requires now >= info.reset + rule.window * SECOND
    ensures Within(Busy(rule, Info(1, now)), adm + [now], openings + [now], rule)
  {
    hide Tally, Count;
    var width, limit := rule.window * SECOND, Max(1, rule.maxCount);
    TallyRestarts(info, adm, width, limit, now);
    CountsLater(adm, now, openings, info.reset, width, limit);
    WindowOfTally(Info(1, now), adm + [now], width, limit);
  }

  lemma WindowOfTally(info: Info, adm: seq<int>, width: int, limit: int)
    requires Tally(info, adm, width, limit)
    ensures Count(adm, info.reset, info.reset + width) <= limit
  {
  }

  /** Windows that were closed before `now` do not grow. */
  lemma CountsLater(adm: seq<int>, now: int, openings: seq<int>, reset: int, width: int, limit: int)
    requires reset <= now
    requires forall i :: 0 <= i < |openings| ==> openings[i] == reset || openings[i] + width <= reset
    requires forall i :: 0 <= i < |openings| ==> Count(adm, openings[i], openings[i] + width) <= limit
    ensures forall i :: 0 <= i < |openings| && (openings[i] != reset || reset + width <= now) ==>
      Count(adm + [now], openings[i], openings[i] + width) <= limit
  {
    forall i | 0 <= i < |openings| && (openings[i] != reset || reset + width <= now)
      ensures Count(adm + [now], openings[i], openings[i] + width) <= limit
    {
      CountSnoc(adm, now, openings[i], openings[i] + width);
    }
  }

  /** The open window was opened by a call of this run. */
  ghost predicate ResetIsACall(slot: Slot, events: seq<Event>, kind: string, key: string) {
    slot.Busy? ==> exists i :: 0 <= i < |events| && IsCall(events[i], kind, key) && events[i].now == slot.info.reset
  }

  lemma {:induction false} RunWithin(events: seq<Event>, kind: string, key: string, rule: Rule)
    requires Alone(events, kind, key, rule) && rule.window > 0
    ensures !Run(events).closed && ResetIsACall(SlotOf(Run(events), kind, key), events, kind, key)
    ensures Within(SlotOf(Run(events), kind, key), Admitted(events, kind, key), Opened(events, kind, key), rule)
  {
    hide Run, Admitted, Opened, SlotOf, ResetIsACall, IsLimit, Tally, Apply;
    var n := |events| - 1;
    if n == 0 {
      RegisteredOnly(events, kind, key, rule);
      IdleIsNoReset(SlotOf(Run(events), kind, key), events, kind, key);
    } else {
      var before, e := events[..n], events[n];
      assert events == before + [e];
      assert forall i :: 0 <= i < n ==> before[i] == events[i];
      RunWithin(before, kind, key, rule);
      assert forall i :: 0 <= i < n && IsCall(before[i], kind, key) ==> before[i].now <= e.now;
      hide Alone, Within;
      ResetBefore(before, e, kind, key, SlotOf(Run(before), kind, key));
      CallWithin(before, e, kind, key, rule);
    }
  }

  lemma IdleIsNoReset(slot: Slot, events: seq<Event>, kind: string, key: string)
    requires !slot.Busy?
    ensures ResetIsACall(slot, events, kind, key)
  {
  }

  lemma ResetBefore(before: seq<Event>, e: Event, kind: string, key: string, slot: Slot)
    requires ResetIsACall(slot, before, kind, key) && IsCall(e, kind, key)
    requires forall i :: 0 <= i < |before| && IsCall(before[i], kind, key) ==> before[i].now <= e.now
    ensures slot.Busy? ==> slot.info.reset <= e.now
  {
  }

  lemma CallWithin(before: seq<Event>, e: Event, kind: string, key: string, rule: Rule)
    requires rule.window > 0 && IsCall(e, kind, key) && !Run(before).closed
    requires Within(SlotOf(Run(before), kind, key), Admitted(before, kind, key), Opened(before, kind, key), rule)
    requires ResetIsACall(SlotOf(Run(before), kind, key), before, kind, key)
    requires SlotOf(Run(before), kind, key).Busy? ==> SlotOf(Run(before), kind, key).info.reset <= e.now
    ensures var events := before + [e];
      && !Run(events).closed && ResetIsACall(SlotOf(Run(events), kind, key), events, kind, key)
      && Within(SlotOf(Run(events), kind, key), Admitted(events, kind, key), Opened(events, kind, key), rule)
  {
    hide Run, Admitted, Opened, SlotOf, ResetIsACall, Within, IsLimit;
    OneMore(before, e, kind, key);
    WithinStep(Run(before), kind, key, e.now, Admitted(before, kind, key), Opened(before, kind, key), rule);
    assert (before + [e])[..|before|] == before;
    CallReset(Run(before), before + [e], kind, key);
    SlotStep(Run(before), Run(before), e, kind, key);
  }

  lemma RegisteredOnly(events: seq<Event>, kind: string, key: string, rule: Rule)
    requires |events| == 1 && events[0] == RegisterEv(kind, rule.maxCount, rule.window)
    ensures SlotOf(Run(events), kind, key) == Idle(rule) && !Run(events).closed
    ensures Admitted(events, kind, key) == [] && Opened(events, kind, key) == []
  {
    assert events[..0] == [];
    assert Run(events) == Apply(Run([]), events[0]);
  }

  lemma CallReset(s: Limiter, events: seq<Event>, kind: string, key: string)
    requires events != [] && IsCall(events[|events| - 1], kind, key)
    requires ResetIsACall(SlotOf(s, kind, key), events[..|events| - 1], kind, key)
    ensures ResetIsACall(SlotOf(IsLimit(s, kind, key, events[|events| - 1].now).0, kind, key), events, kind, key)
  {
    var n := |events| - 1;
    var slot, after := SlotOf(s, kind, key), SlotOf(IsLimit(s, kind, key, events[n].now).0, kind, key);
    if after.Busy? && after.info.reset != events[n].now {
      assert slot.Busy? && slot.info.reset == after.info.reset;
      var i :| 0 <= i < n && IsCall(events[..n][i], kind, key) && events[..n][i].now == slot.info.reset;
      assert events[i] == events[..n][i];
    }
  }

  /** With a fixed rule and a positive window, any half-open interval as long as the window
      admits at most `2 * max(1, maxCount) - 1` requests per type and key, and the interval
      that starts with a window opening at most `max(1, maxCount)`. */
  lemma RateBound(events: seq<Event>, kind: string, key: string, rule: Rule)
    requires FixedRule(events, kind, key, rule) && rule.window > 0
    ensures forall a :: Span(Admitted(events, kind, key), a, rule.window * SECOND) <= 2 * Max(1, rule.maxCount) - 1
    ensures forall i :: 0 <= i < |Opened(events, kind, key)| ==>
      Span(Admitted(events, kind, key), Opened(events, kind, key)[i], rule.window * SECOND) <= Max(1, rule.maxCount)
  {
    hide Run, FixedRule, Admitted, Opened, SlotOf, Own;
    var own := Own(events, kind, key);
    OwnIsAlone(events, kind, key, rule);
    HistoriesFromOwn(events, kind, key);
    RunWithin(own, kind, key, rule);
    BoundOfWithin(SlotOf(Run(own), kind, key), Admitted(own, kind, key), Opened(own, kind, key), rule);
  }

  lemma {:induction false} OwnConcerns(events: seq<Event>, kind: string, key: string)
    ensures forall i :: 0 <= i < |Own(events, kind, key)| ==> Concerns(Own(events, kind, key)[i], kind, key)
  {
    if events != [] { OwnConcerns(events[..|events| - 1], kind, key); }
  }

  lemma OwnIsAlone(events: seq<Event>, kind: string, key: string, rule: Rule)
    requires FixedRule(events, kind, key, rule)
    ensures Alone(Own(events, kind, key), kind, key, rule)
  {
    hide Own;
    OwnConcerns(events, kind, key);
  }

  /** What is let through and which windows are opened depends on the own events only. */
  lemma {:induction false} HistoriesFromOwn(events: seq<Event>, kind: string, key: string)
    ensures Admitted(events, kind, key) == Admitted(Own(events, kind, key), kind, key)
    ensures Opened(events, kind, key) == Opened(Own(events, kind, key), kind, key)
  {
    if events != [] {
      hide Run, Admitted, Opened, SlotOf, Apply, IsLimit;
      var before, e := events[..|events| - 1], events[|events| - 1];
      assert events == before + [e];
      HistoriesFromOwn(before, kind, key);
      OneMore(before, e, kind, key);
      var own := Own(before, kind, key);
      OneMore(own, e, kind, key);
      if IsCall(e, kind, key) {
        SameCall(before, own, e, kind, key);
      }
    }
  }

  lemma SameCall(before: seq<Event>, own: seq<Event>, e: Event, kind: string, key: string)
    requires IsCall(e, kind, key) && own == Own(before, kind, key)
    ensures IsLimit(Run(before), kind, key, e.now).1 == IsLimit(Run(own), kind, key, e.now).1
    ensures OpenedBy(SlotOf(Run(before), kind, key), SlotOf(Run(before + [e]), kind, key), e.now)
         == OpenedBy(SlotOf(Run(own), kind, key), SlotOf(Run(own + [e]), kind, key), e.now)
  {
    hide Run, Own, SlotOf, IsLimit, OpenedBy;
    SlotFromOwn(before, kind, key);
    OneMore(before, e, kind, key);
    OneMore(own, e, kind, key);
    CallOnSlot(Run(before), kind, key, e.now);
    CallOnSlot(Run(own), kind, key, e.now);
  }

  lemma BoundOfWithin(slot: Slot, adm: seq<int>, openings: seq<int>, rule: Rule)
    requires Within(slot, adm, openings, rule)
    ensures forall a :: Span(adm, a, rule.window * SECOND) <= 2 * Max(1, rule.maxCount) - 1
    ensures forall i :: 0 <= i < |openings| ==> Span(adm, openings[i], rule.window * SECOND) <= Max(1, rule.maxCount)
  {
    if slot.Idle? {
      forall a ensures Span(adm, a, rule.window * SECOND) == 0 { SpanOfNone(a, rule.window * SECOND); }
    }
  }

  lemma SpanOfNone(a: int, width: int)
    ensures Span([], a, width) == 0
  {
  }

  // ---- the bound is reached ----

  function Burst(kind: string, key: string, now: int, n: nat): seq<Event> {
    if n == 0 then [] else Burst(kind, key, now, n - 1) + [Call(kind, key, now)]
  }

  lemma {:induction false} BurstIsAdmitted(events: seq<Event>, kind: string, key: string, now: int, n: nat,
                                           rule: Rule, info: Info, a: int, b: int)
    requires !Run(events).closed && SlotOf(Run(events), kind, key) == Busy(rule, info)
    requires now < info.reset + rule.window * SECOND && (n == 0 || info.count + n <= rule.maxCount) && a <= now < b
    ensures var all := events + Burst(kind, key, now, n);
      && !Run(all).closed && SlotOf(Run(all), kind, key) == Busy(rule, info.(count := info.count + n))
      && Count(Admitted(all, kind, key), a, b) == Count(Admitted(events, kind, key), a, b) + n
  {
    hide Run, Admitted, IsLimit, Count, SlotOf;
    if n == 0 {
      assert events + [] == events;
    } else {
      BurstIsAdmitted(events, kind, key, now, n - 1, rule, info, a, b);
      var front := events + Burst(kind, key, now, n - 1);
      assert events + Burst(kind, key, now, n) == front + [Call(kind, key, now)];
      hide Run, Admitted, Burst, IsLimit, Count, SlotOf;
      RoomInWindow(Run(front), kind, key, now, rule, info.(count := info.count + n - 1));
      OneCall(front, kind, key, now, a, b);
    }
  }

  lemma RoomInWindow(s: Limiter, kind: string, key: string, now: int, rule: Rule, info: Info)
    requires !s.closed && SlotOf(s, kind, key) == Busy(rule, info)
    requires now < info.reset + rule.window * SECOND && info.count < rule.maxCount
    ensures var (s', refused) := IsLimit(s, kind, key, now);
      !refused && !s'.closed && SlotOf(s', kind, key) == Busy(rule, info.(count := info.count + 1))
  {
  }

  lemma OneCall(events: seq<Event>, kind: string, key: string, now: int, a: int, b: int)
    requires !Run(events).closed
    ensures var all, r := events + [Call(kind, key, now)], IsLimit(Run(events), kind, key, now);
      && Run(all) == r.0
      && (!r.1 && a <= now < b ==>
            Count(Admitted(all, kind, key), a, b) == Count(Admitted(events, kind, key), a, b) + 1)
      && (now < a ==> Count(Admitted(all, kind, key), a, b) == Count(Admitted(events, kind, key), a, b))
  {
    hide Run, Admitted, IsLimit, Opened, SlotOf, OpenedBy, Count;
    OneMore(events, Call(kind, key, now), kind, key);
    CountSnoc(Admitted(events, kind, key), now, a, b);
    assert Admitted(events, kind, key) + [] == Admitted(events, kind, key);
  }

  /** A burst at the end of one window and a burst at the start of the next. */
  function TwoBursts(kind: string, key: string, rule: Rule): seq<Event>
    requires rule.window > 0
  {
    var width, m := rule.window * SECOND, Max(1, rule.maxCount);
    [RegisterEv(kind, rule.maxCount, rule.window)] + [Call(kind, key, 0)]
    + Burst(kind, key, width - 1, m - 1)
    + [Call(kind, key, width)] + Burst(kind, key, width, m - 1)
  }

  lemma {:induction false} BurstIs(kind: string, key: string, now: int, n: nat)
    ensures |Burst(kind, key, now, n)| == n
    ensures forall i :: 0 <= i < n ==> Burst(kind, key, now, n)[i] == Call(kind, key, now)
  {
    if n > 0 { BurstIs(kind, key, now, n - 1); }
  }

  lemma {:induction false} AllAreOwn(events: seq<Event>, kind: string, key: string)
    requires forall i :: 0 <= i < |events| ==> Concerns(events[i], kind, key)
    ensures Own(events, kind, key) == events
  {
    if events != [] {
      var before := events[..|events| - 1];
      assert forall i :: 0 <= i < |before| ==> before[i] == events[i];
      AllAreOwn(before, kind, key);
      assert events == before + [events[|events| - 1]];
    }
  }

  lemma TwoBurstsAreFixed(kind: string, key: string, rule: Rule)
    requires rule.window > 0
    ensures FixedRule(TwoBursts(kind, key, rule), kind, key, rule)
  {
    var width, m := rule.window * SECOND, Max(1, rule.maxCount);
    var events := TwoBursts(kind, key, rule);
    BurstIs(kind, key, width - 1, m - 1);
    BurstIs(kind, key, width, m - 1);
    hide Burst, Own;
    assert forall i :: 0 < i < |events| ==>
      events[i] == Call(kind, key, if i == 1 then 0 else if i <= m then width - 1 else width);
    AllAreOwn(events, kind, key);
  }

  /** The limiter's windows do not slide: two bursts let `2 * max(1, maxCount) - 1` requests
      through within one width. */
  lemma BoundIsReached(kind: string, key: string, rule: Rule)
    requires rule.window > 0
    ensures var events, width := TwoBursts(kind, key, rule), rule.window * SECOND;
      && FixedRule(events, kind, key, rule)
      && Span(Admitted(events, kind, key), width - 1, width) == 2 * Max(1, rule.maxCount) - 1
  {
    var width, m := rule.window * SECOND, Max(1, rule.maxCount);
    hide Run, Admitted, Burst, Count, Opened, OpenedBy, SlotOf, IsLimit, FixedRule, Own;
    TwoBurstsAreFixed(kind, key, rule);
    var e1 := [RegisterEv(kind, rule.maxCount, rule.window)];
    RegisteredOnly(e1, kind, key, rule);
    SpanOfNone(width - 1, width);
    var e2 := e1 + [Call(kind, key, 0)];
    OneCall(e1, kind, key, 0, width - 1, 2 * width - 1);
    CallOnSlot(Run(e1), kind, key, 0);
    var e3 := e2 + Burst(kind, key, width - 1, m - 1);
    BurstIsAdmitted(e2, kind, key, width - 1, m - 1, rule, Info(1, 0), width - 1, 2 * width - 1);
    var e4 := e3 + [Call(kind, key, width)];
    OneCall(e3, kind, key, width, width - 1, 2 * width - 1);
    CallOnSlot(Run(e3), kind, key, width);
    BurstIsAdmitted(e4, kind, key, width, m - 1, rule, Info(1, width), width - 1, 2 * width - 1);
  }

  /** No interval of one window's width lets more than `maxCount` requests through. */
  ghost predicate KeepsToLimit(events: seq<Event>, kind: string, key: string, rule: Rule) {
    forall a :: Span(Admitted(events, kind, key), a, rule.window * SECOND) <= rule.maxCount
  }

  /** That is what a sliding window would promise; it holds in every run exactly when
      `maxCount` is one. */
  lemma SlidingIff(kind: string, key: string, rule: Rule)
    requires rule.window > 0
    ensures (forall events :: FixedRule(events, kind, key, rule) ==> KeepsToLimit(events, kind, key, rule)) <==>
      rule.maxCount == 1
  {
    hide FixedRule, Admitted, TwoBursts, Span;
    if rule.maxCount == 1 {
      forall events | FixedRule(events, kind, key, rule) ensures KeepsToLimit(events, kind, key, rule) {
        RateBound(events, kind, key, rule);
      }
    } else {
      BoundIsReached(kind, key, rule);
      assert !KeepsToLimit(TwoBursts(kind, key, rule), kind, key, rule);
    }
  }
}

/** The limiter as an object. */
module RateLimiters {
  import opened RateLimit

  class RateLimiter {
    var closed: bool
    var types: map<string, Table>

    ghost function State(): Limiter
      reads this
    {
      Limiter(closed, types)
    }

    constructor (closed: bool)
      ensures State() == Limiter(closed, map[])
    {
      this.closed := closed;
      types := map[];
    }

    method RegisterLimitRule(kind: string, maxCount: int, window: int)
      modifies this
      ensures State() == Register(old(State()), kind, maxCount, window)
    {
      if closed { return; }
      var records := if kind in types then types[kind].records else map[];
      types := types[kind := Table(Rule(maxCount, window), records)];
    }

    method IsLimit(kind: string, key: string, now: int) returns (limited: bool)
      modifies this
      ensures (State(), limited) == RateLimit.IsLimit(old(State()), kind, key, now)
    {
      if closed { return false; }
      if kind !in types { return false; }
      var t := types[kind];
      if key !in t.records {
        types := types[kind := t.(records := t.records[key := Info(1, now)])];
        return false;
      }
      var info := t.records[key];
      if now - info.reset < t.rule.window * SECOND {
        if info.count >= t.rule.maxCount { return true; }
        types := types[kind := t.(records := t.records[key := info.(count := info.count + 1)])];
      } else {
        types := types[kind := t.(records := t.records[key := Info(1, now)])];
      }
      return false;
    }

    method Clear(kind: string, key: string)
      modifies this
      ensures State() == RateLimit.Clear(old(State()), kind, key)
    {
      if closed { return; }
      if kind !in types { return; }
      types := types[kind := types[kind].(records := types[kind].records - {key})];
    }
  }
}
