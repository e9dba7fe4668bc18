/** `LRUCache`: a recency list with an index, as operations on the list of entries, most
    recently used first. */
module Lru {

  datatype Maybe<V> = Miss | Hit(value: V)

  type Entries<K, V> = seq<(K, V)>

  predicate HasKey<K(==), V>(l: Entries<K, V>, k: K) { exists i :: 0 <= i < |l| && l[i].0 == k }

  ghost predicate DistinctKeys<K, V>(l: Entries<K, V>) {
    forall i, j :: 0 <= i < j < |l| ==> l[i].0 != l[j].0
  }

  /** Taking an entry out of the list, as `erase` and `splice` do. */
  function Without<K(==), V>(l: Entries<K, V>, k: K): Entries<K, V> {
    if l == [] then [] else if l[0].0 == k then l[1..] else [l[0]] + Without(l[1..], k)
  }

  function Lookup<K(==), V>(l: Entries<K, V>, k: K): Maybe<V> {
    if l == [] then Miss else if l[0].0 == k then Hit(l[0].1) else Lookup(l[1..], k)
  }

  function Put<K(==), V>(capacity: nat, l: Entries<K, V>, k: K, v: V): Entries<K, V> {
    if capacity == 0 then l
    else if HasKey(l, k) then [(k, v)] + Without(l, k)
    else if |l| >= capacity then [(k, v)] + l[..|l| - 1]
    else [(k, v)] + l
  }

  function Get<K(==), V>(l: Entries<K, V>, k: K): Entries<K, V> {
    match Lookup(l, k)
    case Miss => l
    case Hit(v) => [(k, v)] + Without(l, k)
  }

  // ---- facts about lists ----

  lemma HasKeyTail<K, V>(l: Entries<K, V>, k: K)
    requires l != []
    ensures HasKey(l, k) <==> l[0].0 == k || HasKey(l[1..], k)
  {
    if HasKey(l, k) {
      var i :| 0 <= i < |l| && l[i].0 == k;
      if i > 0 { assert l[1..][i - 1].0 == k; }
    }
    if HasKey(l[1..], k) {
      var i :| 0 <= i < |l[1..]| && l[1..][i].0 == k;
      assert l[i + 1].0 == k;
    }
  }

  lemma {:induction false} LookupIs<K, V>(l: Entries<K, V>, k: K)
    ensures Lookup(l, k).Hit? <==> HasKey(l, k)
    ensures Lookup(l, k).Hit? ==> (k, Lookup(l, k).value) in l
  {
    if l != [] {
      LookupIs(l[1..], k);
      HasKeyTail(l, k);
    }
  }

  lemma DistinctCons<K, V>(e: (K, V), l: Entries<K, V>)
    requires DistinctKeys(l) && !HasKey(l, e.0)
    ensures DistinctKeys([e] + l)
  {
    forall j | 0 < j < |[e] + l| ensures ([e] + l)[j].0 != e.0 { assert l[j - 1].0 != e.0; }
  }

  lemma {:induction false} WithoutMembers<K, V>(l: Entries<K, V>, k: K)
    requires DistinctKeys(l)
    ensures |Without(l, k)| == if HasKey(l, k) then |l| - 1 else |l|
    ensures !HasKey(l, k) ==> Without(l, k) == l
    ensures forall e :: e in Without(l, k) ==> e in l && e.0 != k
    ensures forall e :: e in l && e.0 != k ==> e in Without(l, k)
  {
    if l != [] {
      WithoutMembers(l[1..], k);
      HasKeyTail(l, k);
      assert l == [l[0]] + l[1..];
    }
  }

  lemma NoKey<K, V>(l: Entries<K, V>, k: K)
    ensures HasKey(l, k) <==> exists e :: e in l && e.0 == k
  {
    if HasKey(l, k) { var i :| 0 <= i < |l| && l[i].0 == k; assert l[i] in l; }
  }

  lemma {:induction false} WithoutIs<K, V>(l: Entries<K, V>, k: K)
    requires DistinctKeys(l)
    ensures DistinctKeys(Without(l, k)) && !HasKey(Without(l, k), k)
    ensures |Without(l, k)| == if HasKey(l, k) then |l| - 1 else |l|
    ensures !HasKey(l, k) ==> Without(l, k) == l
  {
    WithoutMembers(l, k);
    NoKey(Without(l, k), k);
    if l != [] {
      WithoutIs(l[1..], k);
      WithoutMembers(l[1..], k);
      if l[0].0 != k {
        NoKey(Without(l[1..], k), l[0].0);
        NoKey(l[1..], l[0].0);
        assert !HasKey(l[1..], l[0].0);
        forall e | e in Without(l[1..], k) ensures e.0 != l[0].0 { assert e in l[1..]; }
        DistinctCons(l[0], Without(l[1..], k));
      }
    }
  }

  lemma PutDistinct<K, V>(capacity: nat, l: Entries<K, V>, k: K, v: V)
    requires DistinctKeys(l) && |l| <= capacity
    ensures DistinctKeys(Put(capacity, l, k, v)) && |Put(capacity, l, k, v)| <= capacity
  {
    if capacity == 0 {
    } else if HasKey(l, k) {
      WithoutIs(l, k);
      DistinctCons((k, v), Without(l, k));
    } else {
      var kept := if |l| >= capacity then l[..|l| - 1] else l;
      DistinctCons((k, v), kept);
    }
  }

  lemma GetDistinct<K, V>(l: Entries<K, V>, k: K)
    requires DistinctKeys(l)
    ensures DistinctKeys(Get(l, k)) && |Get(l, k)| == |l|
  {
    WithoutIs(l, k);
    LookupIs(l, k);
  }

  // ---- subsequences ----

  /** `a` arises from `b` by leaving entries out. */
  predicate Sub<T(==)>(a: seq<T>, b: seq<T>) {
    if a == [] then true
    else if b == [] then false
    else if a[0] == b[0] then Sub(a[1..], b[1..])
    else Sub(a, b[1..])
  }

  lemma {:induction false} SubTail<T>(a: seq<T>, b: seq<T>)
    requires Sub(a, b) && a != []
    ensures Sub(a[1..], b)
  {
    if a[0] == b[0] {
      if a[1..] != [] && a[1..][0] == b[0] {
        SubTail(a[1..], b[1..]);
      }
    } else {
      SubTail(a, b[1..]);
      if a[1..] != [] && a[1..][0] == b[0] {
        SubTail(a[1..], b[1..]);
      }
    }
  }

  lemma SubMore<T>(a: seq<T>, x: T, b: seq<T>)
    requires Sub(a, b)
    ensures Sub(a, [x] + b) && Sub([x] + a, [x] + b)
  {
    assert ([x] + b)[1..] == b && ([x] + a)[1..] == a;
    if a != [] && a[0] == x {
      SubTail(a, b);
    }
  }

  lemma {:induction false} SubMembers<T>(a: seq<T>, b: seq<T>)
    requires Sub(a, b)
    ensures |a| <= |b| && forall x :: x in a ==> x in b
  {
    if a != [] {
      assert a == [a[0]] + a[1..] && b == [b[0]] + b[1..];
      if a[0] == b[0] { SubMembers(a[1..], b[1..]); } else { SubMembers(a, b[1..]); }
    }
  }

  lemma {:induction false} SubDropLast<T>(a: seq<T>, b: seq<T>)
    requires Sub(a, b) && a != []
    ensures b != [] && Sub(a[..|a| - 1], b[..|b| - 1])
  {
    var a', b' := a[..|a| - 1], b[..|b| - 1];
    if a[0] == b[0] {
      if |a| > 1 {
        SubDropLast(a[1..], b[1..]);
        assert a'[1..] == a[1..][..|a| - 2] && b'[1..] == b[1..][..|b| - 2];
      }
    } else {
      SubDropLast(a, b[1..]);
      assert b'[1..] == b[1..][..|b| - 2];
      if a' != [] { assert a'[0] == a[0] && b'[0] == b[0]; }
    }
  }

  lemma {:induction false} SubFront<T>(a: seq<T>, b: seq<T>)
    requires Sub(a, b) && a != []
    ensures Sub(a[..|a| - 1], b)
  {
    var a' := a[..|a| - 1];
    if a' != [] {
      if a[0] == b[0] {
        SubFront(a[1..], b[1..]);
        assert a'[1..] == a[1..][..|a| - 2];
      } else {
        SubFront(a, b[1..]);
      }
    }
  }

  lemma {:induction false} SubWithout<K, V>(a: Entries<K, V>, b: Entries<K, V>, k: K)
    requires Sub(a, b) && DistinctKeys(b)
    ensures Sub(Without(a, k), Without(b, k))
  {
    if a != [] {
      if a[0] == b[0] {
        SubWithout(a[1..], b[1..], k);
        if a[0].0 != k { SubMore(Without(a[1..], k), a[0], Without(b[1..], k)); }
      } else {
        SubWithout(a, b[1..], k);
        if b[0].0 != k {
          SubMore(Without(a, k), b[0], Without(b[1..], k));
        } else {
          WithoutIs(b[1..], k);
          assert Without(b[1..], k) == b[1..] by {
            assert !HasKey(b[1..], k);
          }
        }
      }
    }
  }

  lemma SubLookup<K, V>(a: Entries<K, V>, b: Entries<K, V>, k: K)
    requires Sub(a, b) && DistinctKeys(b) && Lookup(a, k).Hit?
    ensures Lookup(b, k) == Lookup(a, k)
  {
    SubMembers(a, b);
    LookupIs(a, k);
    LookupInDistinct(b, k, Lookup(a, k).value);
  }

  lemma {:induction false} LookupInDistinct<K, V>(l: Entries<K, V>, k: K, v: V)
    requires DistinctKeys(l)
    ensures (k, v) in l <==> Lookup(l, k) == Hit(v)
  {
    if l != [] {
      LookupInDistinct(l[1..], k, v);
      assert l == [l[0]] + l[1..];
      LookupIs(l[1..], k);
    }
  }

  // ---- traces ----

  datatype Op<K, V> = PutOp(key: K, value: V) | GetOp(key: K) | ContainsOp(key: K) | EraseOp(key: K) | ClearOp

  function Apply<K(==), V>(capacity: nat, l: Entries<K, V>, op: Op<K, V>): Entries<K, V> {
    match op
    case PutOp(k, v) => Put(capacity, l, k, v)
    case GetOp(k) => Get(l, k)
    case ContainsOp(_) => l
    case EraseOp(k) => Without(l, k)
    case ClearOp => []
  }

  function Run<K(==), V>(capacity: nat, ops: seq<Op<K, V>>): Entries<K, V> {
    if ops == [] then [] else Apply(capacity, Run(capacity, ops[..|ops| - 1]), ops[|ops| - 1])
  }

  /** Keys stay distinct and the capacity is never exceeded. */
  lemma {:induction false} RunDistinct<K, V>(capacity: nat, ops: seq<Op<K, V>>)
    ensures DistinctKeys(Run(capacity, ops)) && |Run(capacity, ops)| <= capacity
  {
    if ops != [] {
      var l := Run(capacity, ops[..|ops| - 1]);
      RunDistinct(capacity, ops[..|ops| - 1]);
      match ops[|ops| - 1]
      case PutOp(k, v) => PutDistinct(capacity, l, k, v);
      case GetOp(k) => GetDistinct(l, k);
      case EraseOp(k) => WithoutIs(l, k);
      case _ =>
    }
  }

  /** What inclusion needs from step to step: the smaller list is a subsequence of the
      larger one and lacks at most the difference of the capacities. */
  ghost predicate Included<K, V>(c: nat, a: Entries<K, V>, d: nat, b: Entries<K, V>) {
    && DistinctKeys(a) && DistinctKeys(b) && |a| <= c && |b| <= d
    && Sub(a, b) && |b| - |a| <= d - c
  }

  lemma PutIncluded<K, V>(c: nat, a: Entries<K, V>, d: nat, b: Entries<K, V>, k: K, v: V)
    requires c <= d && Included(c, a, d, b)
    ensures Included(c, Put(c, a, k, v), d, Put(d, b, k, v))
  {
    PutDistinct(c, a, k, v);
    PutDistinct(d, b, k, v);
    SubKeys(a, b, k);
    WithoutIs(a, k);
    WithoutIs(b, k);
    SubWithout(a, b, k);
    if c > 0 {
      if HasKey(b, k) {
        if HasKey(a, k) || |a| < c {
          SubMore(Without(a, k), (k, v), Without(b, k));
        } else {
          SubFront(a, Without(b, k));
          SubMore(a[..|a| - 1], (k, v), Without(b, k));
        }
      } else if |b| >= d {
        SubDropLast(a, b);
        SubMore(a[..|a| - 1], (k, v), b[..|b| - 1]);
      } else if |a| >= c {
        SubFront(a, b);
        SubMore(a[..|a| - 1], (k, v), b);
      } else {
        SubMore(a, (k, v), b);
      }
    }
  }

  lemma SubKeys<K, V>(a: Entries<K, V>, b: Entries<K, V>, k: K)
    requires Sub(a, b)
    ensures HasKey(a, k) ==> HasKey(b, k)
  {
    SubMembers(a, b);
    NoKey(a, k);
    NoKey(b, k);
  }

  lemma GetIncluded<K, V>(c: nat, a: Entries<K, V>, d: nat, b: Entries<K, V>, k: K)
    requires c <= d && Included(c, a, d, b)
    ensures Included(c, Get(a, k), d, Get(b, k))
  {
    GetDistinct(a, k);
    GetDistinct(b, k);
    LookupIs(a, k);
    LookupIs(b, k);
    SubKeys(a, b, k);
    SubWithout(a, b, k);
    WithoutIs(a, k);
    if HasKey(a, k) {
      SubLookup(a, b, k);
      SubMore(Without(a, k), (k, Lookup(a, k).value), Without(b, k));
    } else if HasKey(b, k) {
      SubMore(a, (k, Lookup(b, k).value), Without(b, k));
    }
  }

  lemma EraseIncluded<K, V>(c: nat, a: Entries<K, V>, d: nat, b: Entries<K, V>, k: K)
    requires c <= d && Included(c, a, d, b)
    ensures Included(c, Without(a, k), d, Without(b, k))
  {
    WithoutIs(a, k);
    WithoutIs(b, k);
    SubKeys(a, b, k);
    SubWithout(a, b, k);
  }

  /** Inclusion over whole traces: run on two capacities, the smaller cache's list is
      always a subsequence of the larger one's, which has at most `d - c` extra entries. */
  lemma {:induction false} Inclusion<K, V>(c: nat, d: nat, ops: seq<Op<K, V>>)
    requires c <= d
    ensures Included(c, Run(c, ops), d, Run(d, ops))
  {
    if ops != [] {
      var before := ops[..|ops| - 1];
      Inclusion(c, d, before);
      var a, b := Run(c, before), Run(d, before);
      hide Included, Run;
      match ops[|ops| - 1]
      case PutOp(k, v) => PutIncluded(c, a, d, b, k, v);
      case GetOp(k) => GetIncluded(c, a, d, b, k);
      case ContainsOp(_) =>
      case EraseOp(k) => EraseIncluded(c, a, d, b, k);
      case ClearOp => EmptyIncluded<K, V>(c, d);
    }
  }

  lemma EmptyIncluded<K, V>(c: nat, d: nat)
    requires c <= d
    ensures Included<K, V>(c, [], d, [])
  {
  }

  /** Growing the capacity never turns a hit into a miss, and the values agree. */
  lemma LargerKeepsHits<K, V>(c: nat, d: nat, ops: seq<Op<K, V>>, k: K)
    requires c <= d && Lookup(Run(c, ops), k).Hit?
    ensures Lookup(Run(d, ops), k) == Lookup(Run(c, ops), k)
  {
    Inclusion(c, d, ops);
    SubLookup(Run(c, ops), Run(d, ops), k);
  }

  // ---- recency and freshness ----

  /** Whether the last operation of the trace makes `k` the most recently used key. */
  predicate Touches<K(==), V>(capacity: nat, ops: seq<Op<K, V>>, k: K)
    requires ops != []
  {
    match ops[|ops| - 1]
    case PutOp(key, _) => key == k && capacity > 0
    case GetOp(key) => key == k && Lookup(Run(capacity, ops[..|ops| - 1]), k).Hit?
    case _ => false
  }

  /** When `k` was last put or successfully read, as a position in the trace; -1 for never. */
  function LastTouch<K(==), V>(capacity: nat, ops: seq<Op<K, V>>, k: K): (t: int)
    ensures -1 <= t < |ops|
  {
    if ops == [] then -1
    else if Touches(capacity, ops, k) then |ops| - 1
    else LastTouch(capacity, ops[..|ops| - 1], k)
  }

  /** Every cached key was touched, and the list is in order of last touch. */
  ghost predicate ByRecency<K, V>(capacity: nat, ops: seq<Op<K, V>>, l: Entries<K, V>) {
    && (forall i :: 0 <= i < |l| ==> LastTouch(capacity, ops, l[i].0) >= 0)
    && (forall i, j :: 0 <= i < j < |l| ==> LastTouch(capacity, ops, l[i].0) > LastTouch(capacity, ops, l[j].0))
  }

  lemma SubByRecency<K, V>(capacity: nat, ops: seq<Op<K, V>>, a: Entries<K, V>, b: Entries<K, V>)
    requires Sub(a, b) && ByRecency(capacity, ops, b)
    ensures ByRecency(capacity, ops, a)
  {
    if a != [] {
      if a[0] == b[0] {
        SubByRecency(capacity, ops, a[1..], b[1..]);
        SubMembers(a[1..], b[1..]);
        forall j | 0 < j < |a| ensures LastTouch(capacity, ops, a[0].0) > LastTouch(capacity, ops, a[j].0) {
          assert a[j] == a[1..][j - 1] && a[j] in b[1..];
        }
        forall i | 0 < i < |a| ensures LastTouch(capacity, ops, a[i].0) >= 0 { assert a[i] == a[1..][i - 1]; }
        forall i, j | 0 < i < j < |a| ensures LastTouch(capacity, ops, a[i].0) > LastTouch(capacity, ops, a[j].0) {
          assert a[i] == a[1..][i - 1] && a[j] == a[1..][j - 1];
        }
      } else {
        SubByRecency(capacity, ops, a, b[1..]);
      }
    }
  }

  lemma {:induction false} WithoutSub<K, V>(l: Entries<K, V>, k: K)
    ensures Sub(Without(l, k), l)
  {
    if l != [] {
      SubSelf(l[1..]);
      if l[0].0 == k {
        SubMore(l[1..], l[0], l[1..]);
        assert [l[0]] + l[1..] == l;
      } else {
        WithoutSub(l[1..], k);
      }
    }
  }

  lemma {:induction false} SubSelf<T>(a: seq<T>)
    ensures Sub(a, a)
  {
    if a != [] { SubSelf(a[1..]); }
  }

  /** An operation that does not touch the keys of a list leaves its order valid. */
  lemma ByRecencyLater<K, V>(capacity: nat, ops: seq<Op<K, V>>, l: Entries<K, V>)
    requires ops != [] && ByRecency(capacity, ops[..|ops| - 1], l)
    requires forall i :: 0 <= i < |l| ==> !Touches(capacity, ops, l[i].0)
    ensures ByRecency(capacity, ops, l)
  {
    hide Touches;
    forall i | 0 <= i < |l| ensures LastTouch(capacity, ops, l[i].0) == LastTouch(capacity, ops[..|ops| - 1], l[i].0) {
    }
  }

  lemma ByRecencyFront<K, V>(capacity: nat, ops: seq<Op<K, V>>, e: (K, V), l: Entries<K, V>)
    requires ops != [] && Touches(capacity, ops, e.0) && !HasKey(l, e.0)
    requires ByRecency(capacity, ops[..|ops| - 1], l)
    requires forall k :: k != e.0 ==> !Touches(capacity, ops, k)
    ensures ByRecency(capacity, ops, [e] + l)
  {
    forall i | 0 <= i < |l| ensures l[i].0 != e.0 { }
    ByRecencyLater(capacity, ops, l);
    hide Touches;
    var m := [e] + l;
    forall j | 0 < j < |m| ensures 0 <= LastTouch(capacity, ops, m[j].0) < |ops| - 1 {
      assert m[j] == l[j - 1];
    }
    forall i, j | 0 < i < j < |m| ensures LastTouch(capacity, ops, m[i].0) > LastTouch(capacity, ops, m[j].0) {
      assert m[i] == l[i - 1] && m[j] == l[j - 1];
    }
  }

  /** Over every trace the list is in last-touch order, so what a full cache evicts, its
      last entry, is always the key whose last touch is oldest. */
  lemma {:induction false} ListIsByRecency<K, V>(capacity: nat, ops: seq<Op<K, V>>)
    ensures ByRecency(capacity, ops, Run(capacity, ops))
  {
    if ops != [] {
      var before := ops[..|ops| - 1];
      ListIsByRecency(capacity, before);
      RunDistinct(capacity, before);
      var l := Run(capacity, before);
      match ops[|ops| - 1]
      case PutOp(k, v) => PutByRecency(capacity, ops, l, k, v);
      case GetOp(k) =>
        LookupIs(l, k);
        if HasKey(l, k) {
          WithoutSub(l, k);
          SubByRecency(capacity, before, Without(l, k), l);
          WithoutIs(l, k);
          ByRecencyFront(capacity, ops, (k, Lookup(l, k).value), Without(l, k));
        } else {
          ByRecencyLater(capacity, ops, l);
        }
      case ContainsOp(_) => ByRecencyLater(capacity, ops, l);
      case EraseOp(k) =>
        WithoutSub(l, k);
        SubByRecency(capacity, before, Without(l, k), l);
        ByRecencyLater(capacity, ops, Without(l, k));
      case ClearOp =>
    }
  }

  lemma PutByRecency<K, V>(capacity: nat, ops: seq<Op<K, V>>, l: Entries<K, V>, k: K, v: V)
    requires ops != [] && ops[|ops| - 1] == PutOp(k, v)
    requires DistinctKeys(l) && ByRecency(capacity, ops[..|ops| - 1], l)
    ensures ByRecency(capacity, ops, Put(capacity, l, k, v))
  {
    var before := ops[..|ops| - 1];
    if capacity == 0 {
      ByRecencyLater(capacity, ops, l);
    } else if HasKey(l, k) {
      WithoutSub(l, k);
      SubByRecency(capacity, before, Without(l, k), l);
      WithoutIs(l, k);
      ByRecencyFront(capacity, ops, (k, v), Without(l, k));
    } else {
      var kept := if |l| >= capacity then l[..|l| - 1] else l;
      ByRecencyFront(capacity, ops, (k, v), kept);
    }
  }

  /** The eviction in particular. */
  lemma EvictsLeastRecent<K, V>(capacity: nat, ops: seq<Op<K, V>>, k: K, v: V, gone: (K, V))
    requires gone in Run(capacity, ops) && gone !in Put(capacity, Run(capacity, ops), k, v) && gone.0 != k
    ensures |Run(capacity, ops)| == capacity && !HasKey(Run(capacity, ops), k)
    ensures forall e :: e in Run(capacity, ops) && e != gone ==>
      LastTouch(capacity, ops, gone.0) < LastTouch(capacity, ops, e.0) && e in Put(capacity, Run(capacity, ops), k, v)
  {
    RunDistinct(capacity, ops);
    ListIsByRecency(capacity, ops);
    var l := Run(capacity, ops);
    EvictsLast(capacity, l, k, v, gone);
    hide Run, LastTouch, Put, HasKey, DistinctKeys;
    forall e | e in l && e != gone
      ensures LastTouch(capacity, ops, gone.0) < LastTouch(capacity, ops, e.0) && e in Put(capacity, l, k, v)
    {
      var i :| 0 <= i < |l| && l[i] == e;
      assert l[..|l| - 1][i] == e;
      assert e in l[..|l| - 1];
    }
  }

  lemma EvictsLast<K, V>(capacity: nat, l: Entries<K, V>, k: K, v: V, gone: (K, V))
    requires DistinctKeys(l) && |l| <= capacity && gone in l && gone !in Put(capacity, l, k, v) && gone.0 != k
    ensures l != [] && |l| == capacity && !HasKey(l, k) && gone == l[|l| - 1]
    ensures Put(capacity, l, k, v) == [(k, v)] + l[..|l| - 1]
  {
    if HasKey(l, k) {
      WithoutMembers(l, k);
    } else if |l| >= capacity {
      assert l == l[..|l| - 1] + [l[|l| - 1]];
    }
  }

  /** The value a key should have: that of its latest put, unless erased or cleared since. */
  function LatestPut<K(==), V>(ops: seq<Op<K, V>>, k: K): Maybe<V> {
    if ops == [] then Miss
    else match ops[|ops| - 1]
      case PutOp(key, v) => if key == k then Hit(v) else LatestPut(ops[..|ops| - 1], k)
      case EraseOp(key) => if key == k then Miss else LatestPut(ops[..|ops| - 1], k)
      case ClearOp => Miss
      case _ => LatestPut(ops[..|ops| - 1], k)
  }

  ghost predicate UpToDate<K, V>(ops: seq<Op<K, V>>, l: Entries<K, V>) {
    forall e :: e in l ==> LatestPut(ops, e.0) == Hit(e.1)
  }

  /** Whatever is cached is the latest value put for its key. */
  lemma {:induction false} HitsAreUpToDate<K, V>(capacity: nat, ops: seq<Op<K, V>>)
    ensures UpToDate(if capacity == 0 then [] else ops, Run(capacity, ops))
  {
    RunDistinct(capacity, ops);
    if ops != [] && capacity > 0 {
      var before := ops[..|ops| - 1];
      HitsAreUpToDate(capacity, before);
      RunDistinct(capacity, before);
      var l := Run(capacity, before);
      match ops[|ops| - 1]
      case PutOp(k, v) =>
        WithoutMembers(l, k);
        NoKey(l, k);
      case GetOp(k) =>
        WithoutMembers(l, k);
        LookupIs(l, k);
      case EraseOp(k) => WithoutMembers(l, k);
      case _ =>
    }
  }

  // ---- what is certainly kept ----

  /** The keys other than `k` that the operations put or read. */
  function Others<K(==), V>(ops: seq<Op<K, V>>, k: K): set<K> {
    if ops == [] then {}
    else
      var op := ops[|ops| - 1];
      Others(ops[..|ops| - 1], k) + (if (op.PutOp? || op.GetOp?) && op.key != k then {op.key} else {})
  }

  /** None of the operations writes, erases or clears `k`. */
  predicate Leaves<K(==), V>(ops: seq<Op<K, V>>, k: K) {
    forall i :: 0 <= i < |ops| ==> !ops[i].ClearOp? && (ops[i].PutOp? || ops[i].EraseOp? ==> ops[i].key != k)
  }

  /** The entry is at `i` and the keys before it are among `t`. */
  ghost predicate Behind<K, V>(l: Entries<K, V>, i: nat, e: (K, V), t: set<K>) {
    i < |l| && l[i] == e && forall j :: 0 <= j < i ==> l[j].0 in t
  }

  /** Taking another key out leaves the entry no further back. */
  lemma {:induction false} WithoutBehind<K, V>(l: Entries<K, V>, i: nat, e: (K, V), t: set<K>, k: K)
    returns (i': nat)
    requires Behind(l, i, e, t) && e.0 != k
    ensures i' <= i && Behind(Without(l, k), i', e, t)
  {
    if l[0].0 == k {
      i' := i - 1;
    } else if i == 0 {
      i' := 0;
    } else {
      assert forall j :: 0 <= j < i - 1 ==> l[1..][j].0 == l[j + 1].0;
      var m := WithoutBehind(l[1..], i - 1, e, t, k);
      i' := m + 1;
      var r := Without(l, k);
      assert forall j :: 0 < j < i' ==> r[j] == Without(l[1..], k)[j - 1];
    }
  }

  lemma ConsBehind<K, V>(l: Entries<K, V>, i: nat, e: (K, V), t: set<K>, x: (K, V))
    requires Behind(l, i, e, t)
    ensures Behind([x] + l, i + 1, e, t + {x.0})
  {
    var r := [x] + l;
    forall j | 0 <= j < i + 1 ensures r[j].0 in t + {x.0} {
      if j > 0 { assert r[j] == l[j - 1]; }
    }
  }

  /** The entries before a position are no more than the keys they are among. */
  lemma {:induction false} BehindAtMost<K, V>(l: Entries<K, V>, n: nat, t: set<K>)
    requires DistinctKeys(l) && n <= |l| && forall j :: 0 <= j < n ==> l[j].0 in t
    ensures n <= |t|
  {
    if n > 0 {
      BehindAtMost(l, n - 1, t - {l[n - 1].0});
    }
  }

  lemma PutBehind<K, V>(capacity: nat, l: Entries<K, V>, i: nat, e: (K, V), t: set<K>, k: K, v: V)
    returns (i': nat)
    requires DistinctKeys(l) && |l| <= capacity && Behind(l, i, e, t) && e.0 != k
    requires |t + {k}| < capacity
    ensures Behind(Put(capacity, l, k, v), i', e, t + {k})
  {
    if HasKey(l, k) {
      var m := WithoutBehind(l, i, e, t, k);
      ConsBehind(Without(l, k), m, e, t, (k, v));
      i' := m + 1;
    } else {
      var kept := if |l| >= capacity then l[..|l| - 1] else l;
      DistinctCons((k, v), l);
      var longer := [(k, v)] + l;
      ConsBehind(l, i, e, t, (k, v));
      BehindAtMost(longer, i + 1, t + {k});
      assert i < |kept|;
      ConsBehind(kept, i, e, t, (k, v));
      i' := i + 1;
    }
  }

  lemma GetBehind<K, V>(l: Entries<K, V>, i: nat, e: (K, V), t: set<K>, k: K) returns (i': nat)
    requires DistinctKeys(l) && Behind(l, i, e, t)
    ensures Behind(Get(l, k), i', e, if k == e.0 then t else t + {k})
  {
    i' := i;
    if k == e.0 {
      LookupInDistinct(l, k, e.1);
      i' := 0;
    } else if Lookup(l, k).Hit? {
      var m := WithoutBehind(l, i, e, t, k);
      ConsBehind(Without(l, k), m, e, t, (k, Lookup(l, k).value));
      i' := m + 1;
    }
  }

  /** Where an entry is, some operations after it was put. */
  lemma {:induction false} StillBehind<K, V>(capacity: nat, before: seq<Op<K, V>>, k: K, v: V, more: seq<Op<K, V>>)
    returns (i: nat)
    requires Leaves(more, k) && |Others(more, k)| < capacity
    ensures Behind(Run(capacity, before + [PutOp(k, v)] + more), i, (k, v), Others(more, k))
  {
    var put := before + [PutOp(k, v)];
    var all := put + more;
    if more == [] {
      assert all == put && put[..|before|] == before;
      i := 0;
    } else {
      var front, op := more[..|more| - 1], more[|more| - 1];
      assert all[..|all| - 1] == put + front && all[|all| - 1] == op;
      hide Run, Behind, DistinctKeys;
      var l := Run(capacity, put + front);
      OthersGrow(front, more, k);
      var m := StillBehind(capacity, before, k, v, front);
      RunDistinct(capacity, put + front);
      StepIs(capacity, all);
      match op
      case PutOp(x, w) => i := PutBehind(capacity, l, m, (k, v), Others(front, k), x, w);
      case GetOp(x) => i := GetBehind(l, m, (k, v), Others(front, k), x);
      case ContainsOp(_) => i := m;
      case EraseOp(x) => i := WithoutBehind(l, m, (k, v), Others(front, k), x);
    }
  }

  lemma OthersGrow<K, V>(front: seq<Op<K, V>>, more: seq<Op<K, V>>, k: K)
    requires more != [] && front == more[..|more| - 1]
    ensures Leaves(more, k) ==> Leaves(front, k)
    ensures |Others(front, k)| <= |Others(more, k)|
  {
    assert forall i :: 0 <= i < |front| ==> front[i] == more[i];
    SubsetIsSmaller(Others(front, k), Others(more, k));
  }

  lemma SubsetIsSmaller<K>(a: set<K>, b: set<K>)
    requires a <= b
    ensures |a| <= |b|
  {
    assert b == a + (b - a);
  }

  lemma StepIs<K, V>(capacity: nat, ops: seq<Op<K, V>>)
    requires ops != []
    ensures Run(capacity, ops) == Apply(capacity, Run(capacity, ops[..|ops| - 1]), ops[|ops| - 1])
  {
  }

  /** What the cache guarantees: a value that was put stays, whatever is read and written in
      between, until the key itself is written, erased or cleared or as many other keys as
      the capacity have been put or read. */
  lemma KeptWithinCapacity<K, V>(capacity: nat, before: seq<Op<K, V>>, k: K, v: V, more: seq<Op<K, V>>)
    requires Leaves(more, k) && |Others(more, k)| < capacity
    ensures Lookup(Run(capacity, before + [PutOp(k, v)] + more), k) == Hit(v)
  {
    var all := before + [PutOp(k, v)] + more;
    var i := StillBehind(capacity, before, k, v, more);
    RunDistinct(capacity, all);
    LookupInDistinct(Run(capacity, all), k, v);
  }

  function Puts<K, V>(entries: Entries<K, V>): seq<Op<K, V>> {
    if entries == [] then []
    else Puts(entries[..|entries| - 1]) + [PutOp(entries[|entries| - 1].0, entries[|entries| - 1].1)]
  }

  lemma {:induction false} WithoutKeepsFront<K, V>(l: Entries<K, V>, k: K, n: nat)
    requires n <= |l| && forall i :: 0 <= i < n ==> l[i].0 != k
    ensures n <= |Without(l, k)| && Without(l, k)[..n] == l[..n] && |l| - 1 <= |Without(l, k)|
  {
    if l != [] && l[0].0 != k {
      var m := if n == 0 then 0 else n - 1;
      assert forall i :: 0 <= i < m ==> l[1..][i] == l[i + 1];
      WithoutKeepsFront(l[1..], k, m);
      assert n > 0 ==> l[..n] == [l[0]] + l[1..][..m];
    }
  }

  /** The entries just put stand at the head, the last one first. */
  ghost predicate Headed<K, V>(l: Entries<K, V>, entries: Entries<K, V>) {
    |entries| <= |l| && forall i :: 0 <= i < |entries| ==> l[i] == entries[|entries| - 1 - i]
  }

  lemma PutHeaded<K, V>(capacity: nat, l: Entries<K, V>, entries: Entries<K, V>, e: (K, V))
    requires Headed(l, entries) && |l| <= capacity && |entries| < capacity && !HasKey(entries, e.0)
    ensures Headed(Put(capacity, l, e.0, e.1), entries + [e])
  {
    var n, all := |entries|, entries + [e];
    forall i | 0 <= i < n ensures l[i].0 != e.0 { assert l[i] == entries[n - 1 - i]; }
    WithoutKeepsFront(l, e.0, n);
    var rest := if HasKey(l, e.0) then Without(l, e.0) else if |l| >= capacity then l[..|l| - 1] else l;
    assert rest[..n] == l[..n];
    var r := [e] + rest;
    forall i | 0 <= i < |all| ensures r[i] == all[|all| - 1 - i] {
      if i > 0 { assert r[i] == rest[..n][i - 1] == l[i - 1]; }
    }
  }

  lemma {:induction false} PutsAreHead<K, V>(capacity: nat, before: seq<Op<K, V>>, entries: Entries<K, V>)
    requires |entries| <= capacity && DistinctKeys(entries)
    ensures Headed(Run(capacity, before + Puts(entries)), entries)
  {
    var all := before + Puts(entries);
    if entries != [] {
      var front, e := entries[..|entries| - 1], entries[|entries| - 1];
      assert all[..|all| - 1] == before + Puts(front) && all[|all| - 1] == PutOp(e.0, e.1);
      PutsAreHead(capacity, before, front);
      hide Run, Puts, Headed;
      RunDistinct(capacity, before + Puts(front));
      StepIs(capacity, all);
      PutHeaded(capacity, Run(capacity, before + Puts(front)), front, e);
      assert entries == front + [e];
    }
  }

  /** And no longer: as many distinct puts as the capacity leave exactly their own entries,
      so everything older is gone. */
  lemma GoneBeyondCapacity<K, V>(capacity: nat, before: seq<Op<K, V>>, entries: Entries<K, V>, k: K)
    requires |entries| == capacity && DistinctKeys(entries) && !HasKey(entries, k)
    ensures Lookup(Run(capacity, before + Puts(entries)), k) == Miss
  {
    var l := Run(capacity, before + Puts(entries));
    PutsAreHead(capacity, before, entries);
    RunDistinct(capacity, before + Puts(entries));
    LookupIs(l, k);
  }
}
