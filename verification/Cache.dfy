/** `CacheAdapter` in its three modes, over the LRU list and a Redis server. */
module Cache {
  import opened Strings
  import opened Lru

  datatype Mode = LRU_ONLY | REDIS_ONLY | LRU_REDIS

  /** The adapter with its LRU entries and what the Redis server stores. */
  datatype Adapter = Adapter(
    mode: Mode, capacity: nat, lru: Entries<string, string>, connected: bool, redis: map<string, string>)

  /** What a `%s` argument or a `reply->str` keeps of a string: the part before the first NUL. */
  function CStr(s: string): (c: string)
    ensures c <= s && '\0' !in c && (c == s || s[|c|] == '\0')
  {
    s[..Find(s, '\0')]
  }

  predicate UsesLru(m: Mode) { m != REDIS_ONLY }
  predicate UsesRedis(m: Mode) { m != LRU_ONLY }

  /** `Fetch` carries what the out-parameter held before the call. */
  datatype Request =
    | Fetch(key: string, out: string)
    | Store(key: string, value: string)
    | Drop(key: string)
    | Query(key: string)
    | Flush

  datatype Answer = Got(found: bool, out: string) | Has(found: bool) | Done

  function RedisGet(a: Adapter, key: string): Maybe<string> {
    if a.connected && CStr(key) in a.redis then Hit(CStr(a.redis[CStr(key)])) else Miss
  }

  function RedisSet(a: Adapter, key: string, value: string): map<string, string> {
    if a.connected then a.redis[CStr(key) := CStr(value)] else a.redis
  }

  function RedisDel(a: Adapter, key: string): map<string, string> {
    if a.connected then a.redis - {CStr(key)} else a.redis
  }

  function Get(a: Adapter, key: string, out: string): (Adapter, Answer) {
    if UsesLru(a.mode) && Lookup(a.lru, key).Hit? then
      (a.(lru := Lru.Get(a.lru, key)), Got(true, Lookup(a.lru, key).value))
    else if !UsesRedis(a.mode) then (a, Got(false, out))
    else match RedisGet(a, key)
      case Hit(v) => (if a.mode == LRU_REDIS then a.(lru := Put(a.capacity, a.lru, key, v)) else a, Got(true, v))
      case Miss => (a, Got(false, if a.connected then "" else out))
  }

  function Apply(a: Adapter, op: Request): Adapter {
    match op
    case Fetch(k, out) => Get(a, k, out).0
    case Store(k, v) =>
      a.(lru := if UsesLru(a.mode) then Put(a.capacity, a.lru, k, v) else a.lru,
         redis := if UsesRedis(a.mode) then RedisSet(a, k, v) else a.redis)
    case Drop(k) =>
      a.(lru := if UsesLru(a.mode) then Without(a.lru, k) else a.lru,
         redis := if UsesRedis(a.mode) then RedisDel(a, k) else a.redis)
    case Query(_) => a
    case Flush => if UsesLru(a.mode) then a.(lru := []) else a
  }

  function Respond(a: Adapter, op: Request): Answer {
    match op
    case Fetch(k, out) => Get(a, k, out).1
    case Query(k) => Has((UsesLru(a.mode) && HasKey(a.lru, k)) || (UsesRedis(a.mode) && RedisGet(a, k).Hit?))
    case _ => Done
  }

  /** The answers of a sequential run. */
  function Answers(a: Adapter, ops: seq<Request>): seq<Answer>
    decreases |ops|
  {
    if ops == [] then [] else [Respond(a, ops[0])] + Answers(Apply(a, ops[0]), ops[1..])
  }

  function Fresh(mode: Mode, capacity: nat, connected: bool, redis: map<string, string>): Adapter {
    Adapter(mode, capacity, [], connected, redis)
  }

  // ---- transparency ----

  /** Distinct keys stay distinct on the wire. */
  ghost predicate Injective(keys: iset<string>) {
    forall k, l :: k in keys && l in keys && CStr(k) == CStr(l) ==> k == l
  }

  ghost predicate NulFree(values: iset<string>) {
    forall v :: v in values ==> CStr(v) == v
  }

  /** A run that uses only these keys and stores only these values. */
  ghost predicate Over(ops: seq<Request>, keys: iset<string>, values: iset<string>) {
    forall i :: 0 <= i < |ops| ==> (!ops[i].Flush? ==> ops[i].key in keys) && (ops[i].Store? ==> ops[i].value in values)
  }

  /** Every LRU entry is what Redis would answer for its key. */
  ghost predicate Coherent(a: Adapter, keys: iset<string>) {
    && DistinctKeys(a.lru) && |a.lru| <= a.capacity
    && forall e :: e in a.lru ==> e.0 in keys && CStr(e.0) in a.redis && CStr(a.redis[CStr(e.0)]) == e.1
  }

  ghost predicate Simulates(a: Adapter, b: Adapter, keys: iset<string>) {
    && a.mode == LRU_REDIS && b.mode == REDIS_ONLY && a.connected && b.connected && a.redis == b.redis
    && Coherent(a, keys)
  }

  lemma CStrTwice(s: string)
    ensures CStr(CStr(s)) == CStr(s)
  {
  }

  lemma PutMembers(capacity: nat, l: Entries<string, string>, k: string, v: string)
    requires DistinctKeys(l) && |l| <= capacity
    ensures forall e :: e in Put(capacity, l, k, v) ==> e == (k, v) || (e in l && e.0 != k)
    ensures capacity > 0 ==> (k, v) in Put(capacity, l, k, v)
    ensures DistinctKeys(Put(capacity, l, k, v)) && |Put(capacity, l, k, v)| <= capacity
  {
    WithoutMembers(l, k);
    PutDistinct(capacity, l, k, v);
    NoKey(l, k);
  }

  lemma GetMembers(l: Entries<string, string>, k: string)
    requires DistinctKeys(l)
    ensures forall e :: e in Lru.Get(l, k) ==> e in l
    ensures DistinctKeys(Lru.Get(l, k)) && |Lru.Get(l, k)| == |l|
  {
    WithoutMembers(l, k);
    LookupIs(l, k);
    GetDistinct(l, k);
  }

  lemma FetchSimulates(a: Adapter, b: Adapter, k: string, out: string, keys: iset<string>)
    requires Simulates(a, b, keys) && k in keys
    ensures Respond(a, Fetch(k, out)) == Respond(b, Fetch(k, out))
    ensures Simulates(Apply(a, Fetch(k, out)), Apply(b, Fetch(k, out)), keys)
  {
    LookupIs(a.lru, k);
    NoKey(a.lru, k);
    GetMembers(a.lru, k);
    if RedisGet(a, k).Hit? {
      PutMembers(a.capacity, a.lru, k, RedisGet(a, k).value);
    }
    hide DistinctKeys;
  }

  lemma StoreSimulates(a: Adapter, b: Adapter, k: string, v: string, keys: iset<string>)
    requires Simulates(a, b, keys) && k in keys && Injective(keys) && CStr(v) == v
    ensures Respond(a, Store(k, v)) == Respond(b, Store(k, v))
    ensures Simulates(Apply(a, Store(k, v)), Apply(b, Store(k, v)), keys)
  {
    PutMembers(a.capacity, a.lru, k, v);
    hide DistinctKeys;
  }

  lemma DropSimulates(a: Adapter, b: Adapter, k: string, keys: iset<string>)
    requires Simulates(a, b, keys) && k in keys && Injective(keys)
    ensures Respond(a, Drop(k)) == Respond(b, Drop(k)) && Simulates(Apply(a, Drop(k)), Apply(b, Drop(k)), keys)
  {
    WithoutMembers(a.lru, k);
    WithoutIs(a.lru, k);
    hide DistinctKeys;
  }

  lemma QuerySimulates(a: Adapter, b: Adapter, k: string, keys: iset<string>)
    requires Simulates(a, b, keys) && k in keys
    ensures Respond(a, Query(k)) == Respond(b, Query(k)) && Simulates(Apply(a, Query(k)), Apply(b, Query(k)), keys)
  {
    LookupIs(a.lru, k);
    NoKey(a.lru, k);
    hide DistinctKeys;
  }

  lemma SimulatesStep(a: Adapter, b: Adapter, op: Request, keys: iset<string>, values: iset<string>)
    requires Simulates(a, b, keys) && Over([op], keys, values) && Injective(keys) && NulFree(values)
    ensures Respond(a, op) == Respond(b, op) && Simulates(Apply(a, op), Apply(b, op), keys)
  {
    assert [op][0] == op;
    match op
    case Fetch(k, out) => FetchSimulates(a, b, k, out, keys);
    case Store(k, v) => StoreSimulates(a, b, k, v, keys);
    case Drop(k) => DropSimulates(a, b, k, keys);
    case Query(k) => QuerySimulates(a, b, k, keys);
    case Flush =>
  }

  lemma {:induction false} SimulatesRun(a: Adapter, b: Adapter, ops: seq<Request>,
                                        keys: iset<string>, values: iset<string>)
    requires Simulates(a, b, keys) && Over(ops, keys, values) && Injective(keys) && NulFree(values)
    ensures Answers(a, ops) == Answers(b, ops)
    decreases |ops|
  {
    if ops != [] {
      assert Over([ops[0]], keys, values) && Over(ops[1..], keys, values);
      SimulatesStep(a, b, ops[0], keys, values);
      SimulatesRun(Apply(a, ops[0]), Apply(b, ops[0]), ops[1..], keys, values);
    }
  }

  /** The LRU layer cannot be seen: on every run over these keys and values, from any
      Redis contents, both modes answer alike. */
  ghost predicate Transparent(capacity: nat, keys: iset<string>, values: iset<string>) {
    forall redis, ops :: Over(ops, keys, values) ==> SameAnswers(capacity, redis, ops)
  }

  ghost predicate SameAnswers(capacity: nat, redis: map<string, string>, ops: seq<Request>) {
    Answers(Fresh(LRU_REDIS, capacity, true, redis), ops) == Answers(Fresh(REDIS_ONLY, capacity, true, redis), ops)
  }

  /** The condition under which it cannot: no LRU, or keys that stay distinct when cut at a
      NUL and values without NUL. */
  ghost predicate Tame(capacity: nat, keys: iset<string>, values: iset<string>) {
    capacity == 0 || (Injective(keys) && (keys == iset{} || NulFree(values)))
  }

  lemma {:induction false} NoLruRun(a: Adapter, b: Adapter, ops: seq<Request>)
    requires a.mode == LRU_REDIS && b.mode == REDIS_ONLY && a.connected == b.connected && a.redis == b.redis
    requires a.capacity == 0 && a.lru == []
    ensures Answers(a, ops) == Answers(b, ops)
    decreases |ops|
  {
    if ops != [] {
      NoLruRun(Apply(a, ops[0]), Apply(b, ops[0]), ops[1..]);
    }
  }

  lemma TameIsTransparent(capacity: nat, keys: iset<string>, values: iset<string>)
    requires Tame(capacity, keys, values)
    ensures Transparent(capacity, keys, values)
  {
    forall redis: map<string, string>, ops: seq<Request> | Over(ops, keys, values)
      ensures SameAnswers(capacity, redis, ops)
    {
      var a, b := Fresh(LRU_REDIS, capacity, true, redis), Fresh(REDIS_ONLY, capacity, true, redis);
      if capacity == 0 {
        NoLruRun(a, b, ops);
      } else if keys == iset{} {
        SimulatesRun(a, b, ops, keys, iset{});
      } else {
        SimulatesRun(a, b, ops, keys, values);
      }
    }
  }

  lemma AnswersOfTwo(a: Adapter, op1: Request, op2: Request)
    ensures Answers(a, [op1, op2]) == [Respond(a, op1), Respond(Apply(a, op1), op2)]
  {
    var b := Apply(a, op1);
    assert [op1, op2][1..] == [op2] && [op2][1..] == [];
    assert Answers(b, [op2]) == [Respond(b, op2)] + Answers(Apply(b, op2), []);
  }

  lemma AnswersOfThree(a: Adapter, op1: Request, op2: Request, op3: Request)
    ensures Answers(a, [op1, op2, op3]) ==
      [Respond(a, op1), Respond(Apply(a, op1), op2), Respond(Apply(Apply(a, op1), op2), op3)]
  {
    assert [op1, op2, op3][1..] == [op2, op3];
    AnswersOfTwo(Apply(a, op1), op2, op3);
  }

  /** A value with a NUL comes back whole from the LRU list and cut from Redis. */
  lemma NulValueShows(capacity: nat, k: string, v: string)
    requires capacity > 0 && CStr(v) != v
    ensures !SameAnswers(capacity, map[], [Store(k, v), Fetch(k, "")])
  {
    var a, b := Fresh(LRU_REDIS, capacity, true, map[]), Fresh(REDIS_ONLY, capacity, true, map[]);
    AnswersOfTwo(a, Store(k, v), Fetch(k, ""));
    AnswersOfTwo(b, Store(k, v), Fetch(k, ""));
    CStrTwice(v);
    hide CStr;
    assert Apply(a, Store(k, v)).lru == [(k, v)];
    assert Respond(Apply(a, Store(k, v)), Fetch(k, "")) == Got(true, v);
    assert Respond(Apply(b, Store(k, v)), Fetch(k, "")) == Got(true, CStr(v));
  }

  /** Two keys that Redis cannot tell apart: erasing one leaves the other in the LRU list. */
  lemma ClashingKeysShow(capacity: nat, k: string, l: string)
    requires capacity > 0 && k != l && CStr(k) == CStr(l)
    ensures !SameAnswers(capacity, map[CStr(k) := ""], [Fetch(k, ""), Drop(l), Fetch(k, "")])
  {
    var redis := map[CStr(k) := ""];
    var a, b := Fresh(LRU_REDIS, capacity, true, redis), Fresh(REDIS_ONLY, capacity, true, redis);
    AnswersOfThree(a, Fetch(k, ""), Drop(l), Fetch(k, ""));
    AnswersOfThree(b, Fetch(k, ""), Drop(l), Fetch(k, ""));
    var a1 := Apply(a, Fetch(k, ""));
    assert CStr("") == "";
    hide CStr;
    assert a1.lru == [(k, "")];
    var a2 := Apply(a1, Drop(l));
    assert a2.lru == [(k, "")] by {
      var one := [(k, "")];
      assert one[1..] == [] && Without(one, l) == [one[0]] + Without(one[1..], l);
    }
    assert Respond(a2, Fetch(k, "")) == Got(true, "");
    var b2 := Apply(Apply(b, Fetch(k, "")), Drop(l));
    assert Respond(b2, Fetch(k, "")) == Got(false, "");
  }

  /** The LRU layer in front of Redis is invisible exactly for tame keys and values,
      `clear` included. */
  lemma TransparentIff(capacity: nat, keys: iset<string>, values: iset<string>)
    ensures Transparent(capacity, keys, values) <==> Tame(capacity, keys, values)
  {
    if Tame(capacity, keys, values) {
      TameIsTransparent(capacity, keys, values);
    } else if !Injective(keys) {
      var k, l :| k in keys && l in keys && CStr(k) == CStr(l) && k != l;
      var ops := [Fetch(k, ""), Drop(l), Fetch(k, "")];
      ClashingKeysShow(capacity, k, l);
      assert Over(ops, keys, values) && !SameAnswers(capacity, map[CStr(k) := ""], ops);
    } else {
      var v :| v in values && CStr(v) != v;
      var k :| k in keys;
      var ops := [Store(k, v), Fetch(k, "")];
      NulValueShows(capacity, k, v);
      assert Over(ops, keys, values) && !SameAnswers(capacity, map[], ops);
    }
  }

  // ---- answers from the history ----

  function After(a: Adapter, ops: seq<Request>): Adapter {
    if ops == [] then a else Apply(After(a, ops[..|ops| - 1]), ops[|ops| - 1])
  }

  lemma {:induction false} AfterFirst(a: Adapter, ops: seq<Request>)
    requires ops != []
    ensures After(a, ops) == After(Apply(a, ops[0]), ops[1..])
  {
    if |ops| == 1 {
      assert ops[..0] == [] && ops[1..] == [];
    } else {
      var front := ops[..|ops| - 1];
      assert front[1..] == ops[1..][..|ops| - 2];
      hide Apply;
      AfterFirst(a, front);
    }
  }

  /** Each answer of a run is that of the adapter after the requests before it. */
  lemma {:induction false} AnswerAt(a: Adapter, ops: seq<Request>, i: nat)
    requires i < |ops|
    ensures |Answers(a, ops)| == |ops| && Answers(a, ops)[i] == Respond(After(a, ops[..i]), ops[i])
    decreases |ops|
  {
    hide Apply, Respond;
    var b, rest := Apply(a, ops[0]), ops[1..];
    if rest == [] {
      assert Answers(b, rest) == [];
    } else {
      AnswerAt(b, rest, if i == 0 then 0 else i - 1);
    }
    if i > 0 {
      AfterFirst(a, ops[..i]);
      assert ops[..i][1..] == rest[..i - 1];
    }
  }

  /** Reference: what the wire key of `k` holds, from the requests alone. The latest set or
      erase of it decides; before any, the server's contents at the start. */
  function Latest(redis: map<string, string>, ops: seq<Request>, k: string): Maybe<string> {
    if ops == [] then (if CStr(k) in redis then Hit(CStr(redis[CStr(k)])) else Miss)
    else match ops[|ops| - 1]
      case Store(key, v) => if CStr(key) == CStr(k) then Hit(CStr(v)) else Latest(redis, ops[..|ops| - 1], k)
      case Drop(key) => if CStr(key) == CStr(k) then Miss else Latest(redis, ops[..|ops| - 1], k)
      case _ => Latest(redis, ops[..|ops| - 1], k)
  }

  /** The answer that fits what is held: a hit gives its value, a miss the empty string. */
  ghost predicate Tells(held: Maybe<string>, op: Request, answer: Answer) {
    match op
    case Fetch(_, _) => answer == (if held.Hit? then Got(true, held.value) else Got(false, ""))
    case Query(_) => answer == Has(held.Hit?)
    case _ => answer == Done
  }

  /** Every answer is told by the requests before it. */
  ghost predicate FromHistory(redis: map<string, string>, ops: seq<Request>, answers: seq<Answer>) {
    && |answers| == |ops|
    && forall i :: 0 <= i < |ops| ==>
         Tells(if ops[i].Flush? then Miss else Latest(redis, ops[..i], ops[i].key), ops[i], answers[i])
  }

  lemma {:induction false} RedisIsLatest(a: Adapter, ops: seq<Request>, k: string)
    requires a.mode == REDIS_ONLY && a.connected
    ensures var b := After(a, ops); b.mode == REDIS_ONLY && b.connected && RedisGet(b, k) == Latest(a.redis, ops, k)
  {
    hide CStr;
    if ops != [] {
      RedisIsLatest(a, ops[..|ops| - 1], k);
      match ops[|ops| - 1]
      case Store(key, v) => CStrTwice(v);
      case _ =>
    }
  }

  /** On a connected server REDIS_ONLY answers `get` and `contains` exactly from the latest
      set or erase of the key, whatever was asked or cleared in between. */
  lemma RedisOnlyIsHistory(capacity: nat, redis: map<string, string>, ops: seq<Request>)
    ensures FromHistory(redis, ops, Answers(Fresh(REDIS_ONLY, capacity, true, redis), ops))
  {
    hide Latest, After, Apply, CStr;
    var a := Fresh(REDIS_ONLY, capacity, true, redis);
    if ops != [] {
      AnswerAt(a, ops, 0);
    }
    forall i | 0 <= i < |ops|
      ensures Tells(if ops[i].Flush? then Miss else Latest(redis, ops[..i], ops[i].key), ops[i], Answers(a, ops)[i])
    {
      AnswerAt(a, ops, i);
      RedisIsLatest(a, ops[..i], if ops[i].Flush? then "" else ops[i].key);
    }
  }

  /** And so does LRU_REDIS for tame keys and values. */
  lemma MixedIsHistory(capacity: nat, redis: map<string, string>, ops: seq<Request>,
                       keys: iset<string>, values: iset<string>)
    requires Tame(capacity, keys, values) && Over(ops, keys, values)
    ensures FromHistory(redis, ops, Answers(Fresh(LRU_REDIS, capacity, true, redis), ops))
  {
    hide Answers, FromHistory, Tame, Over;
    TameIsTransparent(capacity, keys, values);
    assert SameAnswers(capacity, redis, ops);
    RedisOnlyIsHistory(capacity, redis, ops);
  }

  /** Without a connection REDIS_ONLY finds nothing and leaves the output alone. */
  lemma {:induction false} OfflineRedisFindsNothing(a: Adapter, ops: seq<Request>, i: nat)
    requires a.mode == REDIS_ONLY && !a.connected && i < |ops|
    ensures |Answers(a, ops)| == |ops|
    ensures ops[i].Fetch? ==> Answers(a, ops)[i] == Got(false, ops[i].out)
    ensures ops[i].Query? ==> Answers(a, ops)[i] == Has(false)
  {
    AnswerAt(a, ops, i);
    NothingChanges(a, ops[..i]);
  }

  lemma {:induction false} NothingChanges(a: Adapter, ops: seq<Request>)
    requires a.mode == REDIS_ONLY && !a.connected
    ensures After(a, ops) == a
  {
    if ops != [] {
      NothingChanges(a, ops[..|ops| - 1]);
    }
  }

  /** The operation that a request is on the LRU list. */
  function ListOp(op: Request): Op<string, string> {
    match op
    case Fetch(k, _) => GetOp(k)
    case Store(k, v) => PutOp(k, v)
    case Drop(k) => EraseOp(k)
    case Query(k) => ContainsOp(k)
    case Flush => ClearOp
  }

  function ListOps(ops: seq<Request>): (r: seq<Op<string, string>>)
    ensures |r| == |ops|
  {
    seq(|ops|, i requires 0 <= i < |ops| => ListOp(ops[i]))
  }

  lemma {:induction false} ListIsRun(a: Adapter, ops: seq<Request>)
    requires a.mode == LRU_ONLY && a.lru == []
    ensures After(a, ops) == a.(lru := Lru.Run(a.capacity, ListOps(ops)))
  {
    if ops != [] {
      var front := ops[..|ops| - 1];
      ListIsRun(a, front);
      assert ListOps(ops)[..|ops| - 1] == ListOps(front);
      hide Put, Without, Lru.Get;
      MissIsNoMove(Lru.Run(a.capacity, ListOps(front)), ops[|ops| - 1]);
    }
  }

  lemma MissIsNoMove(l: Entries<string, string>, op: Request)
    ensures op.Fetch? && Lookup(l, op.key).Miss? ==> Lru.Get(l, op.key) == l
  {
  }

  /** LRU_ONLY answers from the list of a cache run with the same operations: it finds a key
      exactly if the list has it, and then answers the latest value put for it. */
  lemma LruOnlyIsList(a: Adapter, ops: seq<Request>, i: nat)
    requires a.mode == LRU_ONLY && a.lru == [] && i < |ops|
    ensures |Answers(a, ops)| == |ops|
    ensures var before := ListOps(ops[..i]);
      var l, answer := Lru.Run(a.capacity, before), Answers(a, ops)[i];
      match ops[i]
      case Fetch(k, out) =>
        if exists e :: e in l && e.0 == k
        then LatestPut(before, k).Hit? && answer == Got(true, LatestPut(before, k).value)
        else answer == Got(false, out)
      case Query(k) => answer == Has(exists e :: e in l && e.0 == k)
      case _ => answer == Done
  {
    hide After, Lru.Run, Put, Without, Lru.Get, DistinctKeys;
    AnswerAt(a, ops, i);
    ListIsRun(a, ops[..i]);
    var before := ListOps(ops[..i]);
    var l := Lru.Run(a.capacity, before);
    if !ops[i].Flush? {
      var k := ops[i].key;
      NoKey(l, k);
      LookupIs(l, k);
      HitsAreUpToDate(a.capacity, before);
    }
  }

  /** When Redis never connects, the mixed mode answers exactly as the LRU alone. */
  lemma {:induction false} OfflineIsLruOnly(a: Adapter, b: Adapter, ops: seq<Request>)
    requires a.mode == LRU_REDIS && b.mode == LRU_ONLY && !a.connected && a.capacity == b.capacity && a.lru == b.lru
    ensures Answers(a, ops) == Answers(b, ops)
    decreases |ops|
  {
    if ops != [] {
      OfflineIsLruOnly(Apply(a, ops[0]), Apply(b, ops[0]), ops[1..]);
    }
  }
}

/** The adapter and the Redis client as objects. */
module CacheAdapters {
  import opened Strings
  import opened Lru
  import opened LruCaches
  import opened Cache

  /** The client of a Redis server whose commands succeed whenever it is connected. */
  class RedisClient {
    const connected: bool
    var store: map<string, string>

    constructor (connected: bool, store: map<string, string>)
      ensures this.connected == connected && this.store == store
    {
      this.connected := connected;
      this.store := store;
    }

    method Set(key: string, value: string) returns (ok: bool)
      modifies this
      ensures ok == connected
      ensures store == if connected then old(store)[CStr(key) := CStr(value)] else old(store)
    {
      if !connected { return false; }
      store := store[CStr(key) := CStr(value)];
      return true;
    }

    /** On a NIL reply the out-parameter is cleared. */
    method Get(key: string, out: string) returns (found: bool, value: string)
      ensures found == (connected && CStr(key) in store)
      ensures value == if found then CStr(store[CStr(key)]) else if connected then "" else out
    {
      if !connected { return false, out; }
      if CStr(key) !in store { return false, ""; }
      return true, CStr(store[CStr(key)]);
    }

    method Del(key: string) returns (deleted: bool)
      modifies this
      ensures deleted == (connected && CStr(key) in old(store))
      ensures store == if connected then old(store) - {CStr(key)} else old(store)
    {
      if !connected { return false; }
      deleted := CStr(key) in store;
      store := store - {CStr(key)};
    }

    method Exists(key: string) returns (found: bool)
      ensures found == (connected && CStr(key) in store)
    {
      return connected && CStr(key) in store;
    }
  }

  class CacheAdapter {
    const mode: Mode
    const lru: LRUCache<string, string>
    const redis: RedisClient

    ghost predicate Valid()
      reads lru
    {
      lru.Valid() && (!UsesLru(mode) ==> lru.items == [])
    }

    ghost function State(): Adapter
      requires Valid()
      reads this, lru, redis
    {
      Adapter(mode, lru.capacity, lru.Contents(), redis.connected, redis.store)
    }

    /** `init`: in a mode without one of the stores that object is there but never used. */
    constructor (mode: Mode, capacity: nat, connected: bool, store: map<string, string>)
      ensures Valid() && fresh(lru) && fresh(redis)
      ensures State() == Fresh(mode, capacity, connected, store)
    {
      this.mode := mode;
      lru := new LRUCache<string, string>(capacity);
      redis := new RedisClient(connected, store);
    }

    method Get(key: string, out: string) returns (found: bool, value: string)
      requires Valid()
      modifies lru
      ensures Valid() && (State(), Got(found, value)) == Cache.Get(old(State()), key, out)
    {
      hide CStr, Put, Lru.Get, Lookup, Consistent;
      if UsesLru(mode) {
        var r := lru.Get(key);
        MissChangesNothing(old(lru.Contents()), key);
        if r.Hit? { return true, r.value; }
      }
      found, value := false, out;
      if UsesRedis(mode) {
        found, value := redis.Get(key, out);
        if found && mode == LRU_REDIS {
          lru.Put(key, value);
        }
      }
    }

    method Set(key: string, value: string)
      requires Valid()
      modifies lru, redis
      ensures Valid() && State() == Cache.Apply(old(State()), Store(key, value))
    {
      hide CStr, Put, Consistent;
      if UsesLru(mode) {
        lru.Put(key, value);
      }
      if UsesRedis(mode) {
        var ok := redis.Set(key, value);
      }
    }

    method Erase(key: string)
      requires Valid()
      modifies lru, redis
      ensures Valid() && State() == Cache.Apply(old(State()), Drop(key))
    {
      hide CStr, Without, Consistent;
      if UsesLru(mode) {
        lru.Erase(key);
      }
      if UsesRedis(mode) {
        var deleted := redis.Del(key);
      }
    }

    method Contains(key: string) returns (found: bool)
      requires Valid()
      ensures Has(found) == Respond(State(), Query(key))
    {
      hide CStr, HasKey, Consistent;
      if UsesLru(mode) {
        found := lru.Contains(key);
        if found { return; }
      }
      found := false;
      if UsesRedis(mode) {
        found := redis.Exists(key);
      }
    }

    method Clear()
      requires Valid()
      modifies lru
      ensures Valid() && State() == Cache.Apply(old(State()), Flush)
    {
      if UsesLru(mode) {
        lru.Clear();
      }
    }
  }

  lemma MissChangesNothing(l: Entries<string, string>, k: string)
    ensures Lookup(l, k).Miss? ==> Lru.Get(l, k) == l
  {
  }
}
