/** `TokenManager`: issuing, refreshing and revoking tokens whose lifetime is kept by a
    `TimerManager` that nobody ticks. */
module Token {
  import opened TimerHeap
  import opened Decimal
  import opened Strings
  import Timer

  /** The two library functions; `hmac` already has the server key applied. */
  datatype Crypto = Crypto(base64: string -> string, hmac: string -> string)

  /** Base64 never prints a dot and loses nothing. */
  ghost predicate GoodBase64(c: Crypto) {
    && (forall x :: '.' !in c.base64(x))
    && (forall x, y :: c.base64(x) == c.base64(y) ==> x == y)
  }

  const FIRST_TIMER := 1_000_000

  datatype State = State(usernames: map<string, string>, timerIds: map<string, int>, timer: Timer.State, seed: int)

  const START := State(map[], map[], Timer.EMPTY, FIRST_TIMER)

  function Raw(stamp: nat, tid: string, username: string): string {
    "token_" + ToString(stamp) + "_" + tid + "_" + username
  }

  function Issue(c: Crypto, stamp: nat, tid: string, username: string): string {
    var payload := c.base64(Raw(stamp, tid, username));
    payload + "." + c.hmac(payload)
  }

  predicate IsTokenValid(c: Crypto, s: State, token: string) {
    var pos := Find(token, '.');
    pos < |token| && c.hmac(token[..pos]) == token[pos + 1..] && token in s.usernames
  }

  /** `isTokenExpired` reads `m_token_timers[token]`, which files id 0 for an unknown token. */
  function Touch(s: State, token: string): State {
    if token in s.timerIds then s else s.(timerIds := s.timerIds[token := 0])
  }

  predicate IsTokenExpired(s: State, token: string, now: int) {
    Timer.IsExpired(s.timer, if token in s.timerIds then s.timerIds[token] else 0, now)
  }

  function CreateToken(c: Crypto, s: State, username: string, timeout: int, stamp: nat, tid: string, now: int): State {
    Enter(s, Issue(c, stamp, tid, username), username, timeout, now)
  }

  /** The bookkeeping of `createToken`: both maps, a fresh timer id and its timer. */
  function Enter(s: State, token: string, username: string, timeout: int, now: int): State {
    State(s.usernames[token := username], s.timerIds[token := s.seed],
          Timer.AddTimer(s.timer, s.seed, 0, timeout, false, now), s.seed + 1)
  }

  function RemoveToken(c: Crypto, s: State, token: string): State {
    if !IsTokenValid(c, s, token) then s
    else s.(usernames := s.usernames - {token}, timerIds := s.timerIds - {token})
  }

  function RefreshToken(c: Crypto, s: State, token: string, timeout: int, now: int): State {
    if !IsTokenValid(c, s, token) then s
    else
      var t := Touch(s, token);
      if IsTokenExpired(s, token, now) || token !in t.timerIds then t
      else t.(timer := Timer.AddTimer(t.timer, t.timerIds[token], 0, timeout, false, now))
  }

  function GetUsername(c: Crypto, s: State, token: string, now: int): string {
    if !IsTokenValid(c, s, token) then ""
    else if IsTokenExpired(s, token, now) then ""
    else s.usernames[token]
  }

  // ---- runs ----

  datatype Event =
    | Create(username: string, timeout: int, stamp: nat, tid: string, now: int)
    | Refresh(token: string, timeout: int, now: int)
    | Remove(token: string)
    | AskExpired(token: string)

  function Apply(c: Crypto, s: State, e: Event): State {
    match e
    case Create(username, timeout, stamp, tid, now) => CreateToken(c, s, username, timeout, stamp, tid, now)
    case Refresh(token, timeout, now) => RefreshToken(c, s, token, timeout, now)
    case Remove(token) => RemoveToken(c, s, token)
    case AskExpired(token) => Touch(s, token)
  }

  function Run(c: Crypto, events: seq<Event>): State {
    if events == [] then START else Apply(c, Run(c, events[..|events| - 1]), events[|events| - 1])
  }

  datatype Life = Unknown | Alive(username: string, until: int)

  /** Reference: the life of one token, from its own events only. A refresh counts only
      before the deadline it extends. */
  function LifeOf(c: Crypto, events: seq<Event>, token: string): Life {
    if events == [] then Unknown
    else
      var before := LifeOf(c, events[..|events| - 1], token);
      match events[|events| - 1]
      case Create(username, timeout, stamp, tid, now) =>
        if Issue(c, stamp, tid, username) == token then Alive(username, now + timeout) else before
      case Refresh(t, timeout, now) =>
        if t == token && before.Alive? && now < before.until then before.(until := now + timeout) else before
      case Remove(t) => if t == token then Unknown else before
      case AskExpired(_) => before
  }

  // ---- the token text ----

  /** An issued token splits at its first dot into its own payload and signature. */
  lemma SplitsAtFirstDot(c: Crypto, stamp: nat, tid: string, username: string)
    requires GoodBase64(c)
    ensures var token, payload := Issue(c, stamp, tid, username), c.base64(Raw(stamp, tid, username));
      && Find(token, '.') < |token|
      && token[..Find(token, '.')] == payload
      && token[Find(token, '.') + 1..] == c.hmac(payload)
  {
    var payload := c.base64(Raw(stamp, tid, username));
    CutAt(payload, '.', c.hmac(payload));
  }

  /** Tokens for different usernames differ, whatever the clock and the thread. */
  lemma TokensTellUsersApart(c: Crypto, stamp1: nat, tid1: string, user1: string,
                             stamp2: nat, tid2: string, user2: string)
    requires GoodBase64(c) && '_' !in tid1 && '_' !in tid2
    requires Issue(c, stamp1, tid1, user1) == Issue(c, stamp2, tid2, user2)
    ensures user1 == user2 && tid1 == tid2 && stamp1 == stamp2
  {
    SplitsAtFirstDot(c, stamp1, tid1, user1);
    SplitsAtFirstDot(c, stamp2, tid2, user2);
    assert Raw(stamp1, tid1, user1) == Raw(stamp2, tid2, user2);
    RawTellsApart(stamp1, tid1, user1, stamp2, tid2, user2);
  }

  /** The parts of the raw text are found again at its underscores. */
  lemma RawParts(stamp: nat, tid: string, username: string)
    requires '_' !in tid
    ensures var rest := Raw(stamp, tid, username)[6..];
      var i := Find(rest, '_');
      i < |rest| && rest[..i] == Digits(stamp) &&
      var tail := rest[i + 1..];
      var j := Find(tail, '_');
      j < |tail| && tail[..j] == tid && tail[j + 1..] == username
  {
    hide Digits, Find;
    var tail := tid + "_" + username;
    assert Raw(stamp, tid, username) == "token_" + (Digits(stamp) + "_" + tail);
    assert Raw(stamp, tid, username)[6..] == Digits(stamp) + "_" + tail;
    CutAt(Digits(stamp), '_', tail);
    CutAt(tid, '_', username);
  }

  lemma RawTellsApart(stamp1: nat, tid1: string, user1: string, stamp2: nat, tid2: string, user2: string)
    requires '_' !in tid1 && '_' !in tid2
    requires Raw(stamp1, tid1, user1) == Raw(stamp2, tid2, user2)
    ensures user1 == user2 && tid1 == tid2 && stamp1 == stamp2
  {
    hide Digits, Find, Raw;
    RawParts(stamp1, tid1, user1);
    RawParts(stamp2, tid2, user2);
    ValueOfDigits(stamp1);
    ValueOfDigits(stamp2);
  }

  // ---- invariant over runs ----

  /** A token whose signature checks out. */
  predicate WellSigned(c: Crypto, token: string) {
    var pos := Find(token, '.');
    pos < |token| && c.hmac(token[..pos]) == token[pos + 1..]
  }

  /** Every known token is signed and has a timer id of its own with a timer behind it. */
  ghost predicate Inv(c: Crypto, s: State) {
    && FIRST_TIMER <= s.seed
    && Timer.Inv(s.timer)
    && (forall id :: id in s.timer.timers ==> FIRST_TIMER <= id < s.seed)
    && (forall t :: t in s.usernames ==> WellSigned(c, t) && t in s.timerIds && s.timerIds[t] in s.timer.timers)
    && (forall t, u :: t in s.usernames && u in s.usernames && s.timerIds[t] == s.timerIds[u] ==> t == u)
  }

  ghost predicate Agrees(s: State, token: string, l: Life) {
    match l
    case Unknown => token !in s.usernames
    case Alive(username, until) =>
      && token in s.usernames && s.usernames[token] == username
      && token in s.timerIds && s.timerIds[token] in s.timer.timers
      && s.timer.timers[s.timerIds[token]].expire == until
  }

  /** Each token's life after one more event. */
  ghost predicate LivesAgree(c: Crypto, s: State, events: seq<Event>) {
    forall t :: Agrees(s, t, LifeOf(c, events, t))
  }

  lemma EnterInv(c: Crypto, s: State, token: string, username: string, timeout: int, now: int)
    requires Inv(c, s) && WellSigned(c, token)
    ensures Inv(c, Enter(s, token, username, timeout, now))
  {
    hide WellSigned, Push, Timer.Ordered, Timer.Mapped;
    Timer.AddTimerInv(s.timer, s.seed, 0, timeout, false, now);
  }

  lemma EnterAgrees(c: Crypto, s: State, token: string, username: string, timeout: int, now: int, t: string, l: Life)
    requires Inv(c, s) && Agrees(s, t, l)
    ensures Agrees(Enter(s, token, username, timeout, now), t, if t == token then Alive(username, now + timeout) else l)
  {
    hide WellSigned, Push, Timer.Inv;
  }

  lemma IssuedIsSigned(c: Crypto, stamp: nat, tid: string, username: string)
    requires GoodBase64(c)
    ensures WellSigned(c, Issue(c, stamp, tid, username))
  {
    hide Issue;
    SplitsAtFirstDot(c, stamp, tid, username);
  }

  lemma CreateStep(c: Crypto, s: State, events: seq<Event>, e: Event)
    requires GoodBase64(c) && Inv(c, s) && LivesAgree(c, s, events) && e.Create?
    ensures Inv(c, Apply(c, s, e)) && LivesAgree(c, Apply(c, s, e), events + [e])
  {
    hide Inv, Agrees, Enter, Issue, WellSigned;
    var token := Issue(c, e.stamp, e.tid, e.username);
    IssuedIsSigned(c, e.stamp, e.tid, e.username);
    EnterInv(c, s, token, e.username, e.timeout, e.now);
    var after := events + [e];
    assert after[..|after| - 1] == events;
    forall t ensures Agrees(Apply(c, s, e), t, LifeOf(c, after, t)) {
      EnterAgrees(c, s, token, e.username, e.timeout, e.now, t, LifeOf(c, events, t));
    }
  }

  /** A known token is a valid one, so the checks before the lookups never interfere. */
  lemma ValidIsKnown(c: Crypto, s: State, token: string)
    requires Inv(c, s)
    ensures IsTokenValid(c, s, token) <==> token in s.usernames
  {
    hide Timer.Inv;
    if token in s.usernames {
      assert WellSigned(c, token);
    }
  }

  lemma RefreshInv(c: Crypto, s: State, token: string, timeout: int, now: int)
    requires Inv(c, s)
    ensures Inv(c, RefreshToken(c, s, token, timeout, now))
  {
    hide WellSigned, Push;
    ValidIsKnown(c, s, token);
    if token in s.usernames {
      Timer.AddTimerInv(s.timer, s.timerIds[token], 0, timeout, false, now);
    }
    hide Timer.Inv, IsTokenValid;
  }

  lemma RefreshAgrees(c: Crypto, s: State, token: string, timeout: int, now: int, t: string, l: Life)
    requires Inv(c, s) && Agrees(s, t, l)
    ensures Agrees(RefreshToken(c, s, token, timeout, now), t,
                   if t == token && l.Alive? && now < l.until then l.(until := now + timeout) else l)
  {
    ValidIsKnown(c, s, token);
    hide WellSigned, Push, Timer.Inv, IsTokenValid;
  }

  lemma RefreshStep(c: Crypto, s: State, events: seq<Event>, e: Event)
    requires Inv(c, s) && LivesAgree(c, s, events) && e.Refresh?
    ensures Inv(c, Apply(c, s, e)) && LivesAgree(c, Apply(c, s, e), events + [e])
  {
    hide Inv, Agrees, RefreshToken;
    RefreshInv(c, s, e.token, e.timeout, e.now);
    var after := events + [e];
    assert after[..|after| - 1] == events;
    forall t ensures Agrees(Apply(c, s, e), t, LifeOf(c, after, t)) {
      RefreshAgrees(c, s, e.token, e.timeout, e.now, t, LifeOf(c, events, t));
    }
  }

  lemma ForgetInv(c: Crypto, s: State, token: string)
    requires Inv(c, s)
    ensures Inv(c, s.(usernames := s.usernames - {token}, timerIds := s.timerIds - {token}))
    ensures Inv(c, Touch(s, token))
  {
    hide WellSigned, Timer.Inv;
  }

  lemma OtherAgrees(c: Crypto, s: State, e: Event, t: string, l: Life)
    requires Inv(c, s) && (e.Remove? || e.AskExpired?) && Agrees(s, t, l)
    ensures Agrees(Apply(c, s, e), t, if e.Remove? && e.token == t then Unknown else l)
    ensures Inv(c, Apply(c, s, e))
  {
    hide Inv, IsTokenValid;
    ValidIsKnown(c, s, e.token);
    ForgetInv(c, s, e.token);
  }

  lemma OtherStep(c: Crypto, s: State, events: seq<Event>, e: Event)
    requires Inv(c, s) && LivesAgree(c, s, events) && (e.Remove? || e.AskExpired?)
    ensures Inv(c, Apply(c, s, e)) && LivesAgree(c, Apply(c, s, e), events + [e])
  {
    hide Inv, Agrees, Apply;
    var after := events + [e];
    assert after[..|after| - 1] == events;
    forall t ensures Agrees(Apply(c, s, e), t, LifeOf(c, after, t)) {
      OtherAgrees(c, s, e, t, LifeOf(c, events, t));
    }
    OtherAgrees(c, s, e, e.token, LifeOf(c, events, e.token));
  }

  lemma {:induction false} RunAgrees(c: Crypto, events: seq<Event>)
    requires GoodBase64(c)
    ensures Inv(c, Run(c, events)) && LivesAgree(c, Run(c, events), events)
  {
    hide Apply, LifeOf;
    if events == [] {
      StartAgrees(c);
    } else {
      hide Inv, LivesAgree;
      var before, e := events[..|events| - 1], events[|events| - 1];
      RunAgrees(c, before);
      assert before + [e] == events;
      match e
      case Create(_, _, _, _, _) => CreateStep(c, Run(c, before), before, e);
      case Refresh(_, _, _) => RefreshStep(c, Run(c, before), before, e);
      case _ => OtherStep(c, Run(c, before), before, e);
    }
  }

  lemma StartAgrees(c: Crypto)
    ensures Inv(c, START) && LivesAgree(c, START, [])
  {
    Timer.EmptyAgrees();
  }

  // ---- theorems ----

  /** In every run `getUsername` answers the creating username exactly while the token is
      unremoved and the clock is before the deadline set by its latest creation or
      timely refresh, and the empty name otherwise. */
  lemma UsernameIsLife(c: Crypto, events: seq<Event>, token: string, now: int)
    requires GoodBase64(c)
    ensures var l := LifeOf(c, events, token);
      GetUsername(c, Run(c, events), token, now) == if l.Alive? && now < l.until then l.username else ""
  {
    RunAgrees(c, events);
    var s := Run(c, events);
    hide Run, LifeOf;
    ValidIsKnown(c, s, token);
    assert Agrees(s, token, LifeOf(c, events, token));
    hide Inv, IsTokenValid;
  }

  /** A token that is not on file has no timer id, or the id 0 of a query about it. */
  ghost predicate StraysAreZero(s: State) {
    forall t :: t in s.timerIds && t !in s.usernames ==> s.timerIds[t] == 0
  }

  lemma {:induction false} RunStrays(c: Crypto, events: seq<Event>)
    ensures StraysAreZero(Run(c, events))
  {
    if events != [] {
      hide Issue, IsTokenExpired, Timer.AddTimer;
      RunStrays(c, events[..|events| - 1]);
    }
  }

  /** In every run `isTokenExpired` answers no exactly while the token is unremoved and before
      its deadline; a token that was never issued, or removed, is expired. */
  lemma ExpiredIsLife(c: Crypto, events: seq<Event>, token: string, now: int)
    requires GoodBase64(c)
    ensures var l := LifeOf(c, events, token);
      IsTokenExpired(Run(c, events), token, now) <==> !(l.Alive? && now < l.until)
  {
    RunAgrees(c, events);
    RunStrays(c, events);
    var s := Run(c, events);
    hide Run, LifeOf, WellSigned, Timer.Inv;
    assert Agrees(s, token, LifeOf(c, events, token));
  }

  /** No two known tokens ever share a timer id. */
  lemma TimerIdsAreNeverShared(c: Crypto, events: seq<Event>, t: string, u: string)
    requires GoodBase64(c)
    requires var s := Run(c, events); t in s.usernames && u in s.usernames && t != u
    ensures var s := Run(c, events); t in s.timerIds && u in s.timerIds && s.timerIds[t] != s.timerIds[u]
  {
    RunAgrees(c, events);
    hide Run;
  }

  /** Whether the latest issue of a token came after its latest removal. */
  predicate Filed(c: Crypto, events: seq<Event>, token: string) {
    if events == [] then false
    else
      var e := events[|events| - 1];
      if e.Create? && Issue(c, e.stamp, e.tid, e.username) == token then true
      else e != Remove(token) && Filed(c, events[..|events| - 1], token)
  }

  lemma {:induction false} AliveIsFiled(c: Crypto, events: seq<Event>, token: string)
    ensures LifeOf(c, events, token).Alive? <==> Filed(c, events, token)
  {
    hide Issue;
    if events != [] {
      AliveIsFiled(c, events[..|events| - 1], token);
    }
  }

  /** Nothing but `removeToken` takes a token off file: in every run it is valid exactly if
      its latest issue came after its latest removal. An expired token therefore stays on
      file until it is removed, whatever the clock says. */
  lemma FiledUntilRemoved(c: Crypto, events: seq<Event>, token: string)
    requires GoodBase64(c)
    ensures IsTokenValid(c, Run(c, events), token) <==> Filed(c, events, token)
  {
    RunAgrees(c, events);
    var s := Run(c, events);
    hide Run, LifeOf, Filed;
    ValidIsKnown(c, s, token);
    AliveIsFiled(c, events, token);
    assert Agrees(s, token, LifeOf(c, events, token));
    hide Inv, IsTokenValid;
  }

  /** Reference: somebody asked whether the token had expired while it was not on file, and it
      was not issued since. */
  predicate Stray(c: Crypto, events: seq<Event>, token: string) {
    if events == [] then false
    else
      var before, e := events[..|events| - 1], events[|events| - 1];
      if e.Create? && Issue(c, e.stamp, e.tid, e.username) == token then false
      else Stray(c, before, token) || (e == AskExpired(token) && !Filed(c, before, token))
  }

  lemma StrayStep(c: Crypto, s: State, e: Event, token: string)
    requires forall t :: IsTokenValid(c, s, t) <==> t in s.usernames
    requires forall t :: t in s.usernames ==> t in s.timerIds
    ensures var r := Apply(c, s, e);
      token in r.timerIds && token !in r.usernames <==>
        !(e.Create? && Issue(c, e.stamp, e.tid, e.username) == token)
        && ((token in s.timerIds && token !in s.usernames) || (e == AskExpired(token) && token !in s.usernames))
  {
    hide IsTokenValid, IsTokenExpired, Issue;
  }

  /** Asking about a token that is not on file leaves an entry for ever: in every run the timer
      ids beyond those of the tokens on file are exactly those of such questions. */
  lemma {:induction false} StraysAreQuestions(c: Crypto, events: seq<Event>, token: string)
    requires GoodBase64(c)
    ensures var s := Run(c, events); token in s.timerIds && token !in s.usernames <==> Stray(c, events, token)
  {
    hide Apply, Issue, IsTokenValid;
    if events != [] {
      var before := events[..|events| - 1];
      StraysAreQuestions(c, before, token);
      RunAgrees(c, before);
      FiledUntilRemoved(c, before, token);
      var s := Run(c, before);
      forall t ensures IsTokenValid(c, s, t) <==> t in s.usernames {
        ValidIsKnown(c, s, t);
      }
      StrayStep(c, s, events[|events| - 1], token);
    }
  }

  /** An event that takes place at `time` or later, and is no new issue of `token`. */
  predicate AfterExpiry(c: Crypto, e: Event, token: string, time: int) {
    && (e.Create? ==> Issue(c, e.stamp, e.tid, e.username) != token)
    && (e.Refresh? ==> e.now >= time)
  }

  lemma {:induction false} DeadStaysDead(c: Crypto, events: seq<Event>, more: seq<Event>, token: string)
    requires LifeOf(c, events, token).Alive?
    requires forall i :: 0 <= i < |more| ==> AfterExpiry(c, more[i], token, LifeOf(c, events, token).until)
    ensures LifeOf(c, events + more, token) in {LifeOf(c, events, token), Unknown}
  {
    hide Issue;
    if more == [] {
      assert events + more == events;
    } else {
      var front := more[..|more| - 1];
      DeadStaysDead(c, events, front, token);
      var all := events + more;
      assert all[..|all| - 1] == events + front;
      assert AfterExpiry(c, more[|more| - 1], token, LifeOf(c, events, token).until);
    }
  }

  /** Once a token's deadline has passed, no later refresh, removal or query brings it
      back: it names nobody at any later time, until the very same text is issued again. */
  lemma ExpiredCannotBeRevived(c: Crypto, events: seq<Event>, more: seq<Event>, token: string, now: int)
    requires GoodBase64(c) && LifeOf(c, events, token).Alive? && now >= LifeOf(c, events, token).until
    requires forall i :: 0 <= i < |more| ==> AfterExpiry(c, more[i], token, LifeOf(c, events, token).until)
    ensures GetUsername(c, Run(c, events + more), token, now) == ""
  {
    hide LifeOf, Run, GetUsername, AfterExpiry;
    DeadStaysDead(c, events, more, token);
    UsernameIsLife(c, events + more, token, now);
  }
}

/** `TokenManager` as an object over a `TimerManager`. */
module TokenManagement {
  import opened TimerHeap
  import opened TimerManagement
  import opened Strings
  import Timer
  import Token

  class TokenManager {
    var usernames: map<string, string>
    var timerIds: map<string, int>
    var seed: int
    const timers: TimerManager
    const crypto: Token.Crypto

    ghost function State(): Token.State
      reads this, timers
    {
      Token.State(usernames, timerIds, timers.State(), seed)
    }

    constructor (crypto: Token.Crypto)
      ensures State() == Token.START && this.crypto == crypto && fresh(timers)
    {
      usernames, timerIds, seed := map[], map[], Token.FIRST_TIMER;
      timers := new TimerManager();
      this.crypto := crypto;
    }

    method CreateToken(username: string, timeout: int, stamp: nat, tid: string, now: int) returns (token: string)
      requires Timer.Inv(timers.State())
      modifies this, timers
      ensures Timer.Inv(timers.State())
      ensures token == Token.Issue(crypto, stamp, tid, username)
      ensures State() == Token.CreateToken(crypto, old(State()), username, timeout, stamp, tid, now)
    {
      hide Push, Timer.Inv;
      token := Token.Issue(crypto, stamp, tid, username);
      usernames := usernames[token := username];
      var id := seed;
      timerIds := timerIds[token := id];
      seed := seed + 1;
      timers.AddTimer(id, 0, timeout, false, now);
    }

    method IsTokenValid(token: string) returns (valid: bool)
      ensures valid == Token.IsTokenValid(crypto, State(), token)
    {
      var pos := Find(token, '.');
      if pos == |token| { return false; }
      if crypto.hmac(token[..pos]) != token[pos + 1..] { return false; }
      return token in usernames;
    }

    method IsTokenExpired(token: string, now: int) returns (expired: bool)
      modifies this`timerIds
      ensures expired == Token.IsTokenExpired(old(State()), token, now)
      ensures State() == Token.Touch(old(State()), token)
    {
      if token !in timerIds {
        timerIds := timerIds[token := 0];
      }
      expired := timers.IsExpired(timerIds[token], now);
    }

    method RemoveToken(token: string)
      modifies this`usernames, this`timerIds
      ensures State() == Token.RemoveToken(crypto, old(State()), token)
    {
      var valid := IsTokenValid(token);
      if !valid { return; }
      usernames := usernames - {token};
      timerIds := timerIds - {token};
    }

    method GetUsername(token: string, now: int) returns (username: string)
      modifies this`timerIds
      ensures username == Token.GetUsername(crypto, old(State()), token, now)
      ensures State() ==
        if Token.IsTokenValid(crypto, old(State()), token) then Token.Touch(old(State()), token) else old(State())
    {
      var valid := IsTokenValid(token);
      if !valid { return ""; }
      var expired := IsTokenExpired(token, now);
      if expired { return ""; }
      return usernames[token];
    }

    method RefreshToken(token: string, timeout: int, now: int)
      requires Timer.Inv(timers.State())
      modifies this`timerIds, timers
      ensures Timer.Inv(timers.State())
      ensures State() == Token.RefreshToken(crypto, old(State()), token, timeout, now)
    {
      hide Push, Timer.Inv;
      var valid := IsTokenValid(token);
      if !valid { return; }
      var expired := IsTokenExpired(token, now);
      if expired { return; }
      timers.AddTimer(timerIds[token], 0, timeout, false, now);
    }
  }
}
