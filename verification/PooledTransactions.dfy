/** `insertUser` calls of several threads on the shared connection pool: the steps of
    `SqlPool` interleave freely with those of the transactions. */
module PooledTransactions {
  import SqlPool
  import opened Transactions

  type Handle = SqlPool.Conn
  type Owner = SqlPool.Owner

  /** Where a call that holds a connection is. `Taken`: before START TRANSACTION. `Open`:
      before the insert. `Written`: the row is inserted. `Unwinding`: about to run
      `~SqlTransaction` uncommitted; `needed` tells whether the server still has the
      transaction open. `Leaving`: about to run `~SqlConnRAII`. */
  datatype Stage = Taken | Open | Written(row: Row) | Unwinding(needed: bool) | Leaving

  /** The pool, the server's view of each connection, the committed rows, and the calls
      that hold a connection. */
  datatype State = State(pool: SqlPool.Pool, conns: map<Handle, Conn>, table: seq<Row>, stages: map<Owner, Stage>)

  const START := State(SqlPool.START, map[], [], map[])

  datatype Action =
    | PoolStep(step: SqlPool.Action)
    | BeginStep(owner: Owner, ok: bool)
    | GiveUp(owner: Owner)            // no statement, prepare fails or execute fails
    | Insert(owner: Owner, row: Row)
    | Decline(owner: Owner)           // the username is "rollback"
    | CommitStep(owner: Owner, how: Commit)
    | Unwind(owner: Owner, ok: bool)  // ~SqlTransaction

  /** A call at this stage, with its connection. */
  ghost predicate At(s: State, o: Owner, stage: Stage) {
    o in s.stages && s.stages[o] == stage && o in s.pool.held && s.pool.held[o] in s.conns
  }

  ghost predicate HasWritten(s: State, o: Owner) {
    o in s.stages && s.stages[o].Written? && At(s, o, s.stages[o])
  }

  ghost predicate Enabled(s: State, a: Action) {
    match a
    case PoolStep(p) => SqlPool.Enabled(s.pool, p) && (p.Release? ==> At(s, p.owner, Leaving))
    case BeginStep(o, _) => At(s, o, Taken)
    case GiveUp(o) => At(s, o, Open)
    case Insert(o, _) => At(s, o, Open)
    case Decline(o) => HasWritten(s, o) && s.stages[o].row.username == "rollback"
    case CommitStep(o, _) => HasWritten(s, o) && s.stages[o].row.username != "rollback"
    case Unwind(o, _) => At(s, o, Unwinding(true)) || At(s, o, Unwinding(false))
  }

  /** One step of the call of `o`: its stage and its connection change, and the table. */
  ghost function Update(s: State, o: Owner, stage: Stage, c: Conn, table: seq<Row>): State
    requires o in s.pool.held
  {
    s.(stages := s.stages[o := stage], conns := s.conns[s.pool.held[o] := c], table := table)
  }

  ghost function Apply(s: State, a: Action): State
    requires Enabled(s, a)
  {
    if a.PoolStep? then ApplyPool(s, a.step)
    else
      var o := a.owner;
      var c := s.conns[s.pool.held[o]];
      match a
      case BeginStep(_, ok) =>
        if !ok then Update(s, o, Leaving, c, s.table)
        else Update(s, o, Open, Begin(s.table, c).1, Begin(s.table, c).0)
      case GiveUp(_) => Update(s, o, Unwinding(true), c, s.table)
      case Insert(_, row) => Update(s, o, Written(row), c.(rows := c.rows + [row]), s.table)
      case Decline(_) => Update(s, o, Unwinding(true), c, s.table)
      case CommitStep(_, how) =>
        var (table, ended) := CommitOn(s.table, c, how);
        Update(s, o, if how.Committed? then Leaving else Unwinding(how.FailedOpen?), ended, table)
      case Unwind(_, ok) => Update(s, o, Leaving, Rollback(c, ok), s.table)
  }

  ghost function ApplyPool(s: State, p: SqlPool.Action): State
    requires SqlPool.Enabled(s.pool, p)
  {
    var t := s.(pool := SqlPool.Apply(s.pool, p));
    match p
    case Init(handles) => t.(conns := s.conns + map c | c in handles :: Conn(false, []))
    case Take(o) => if s.pool.queue == [] then t else t.(stages := s.stages[o := Taken])
    case Release(o, _) => t.(stages := s.stages - {o})
    case _ => t
  }

  datatype Outcome = Impossible | Reached(state: State)

  ghost function Run(actions: seq<Action>): Outcome {
    if actions == [] then Reached(START)
    else
      var before, a := Run(actions[..|actions| - 1]), actions[|actions| - 1];
      if before.Impossible? || !Enabled(before.state, a) then Impossible else Reached(Apply(before.state, a))
  }

  // ---- when every needed rollback works ----

  /** The step is a rollback that is needed and fails. */
  ghost predicate FailedRollback(s: State, a: Action) {
    a.Unwind? && !a.ok && At(s, a.owner, Unwinding(true))
  }

  ghost predicate RollbacksWork(actions: seq<Action>) {
    actions == [] ||
    var before := actions[..|actions| - 1];
    RollbacksWork(before) && !(Run(before).Reached? && FailedRollback(Run(before).state, actions[|actions| - 1]))
  }

  /** The rows whose commit the server applied, in the order of the commits. */
  ghost function Published(actions: seq<Action>): seq<Row> {
    if actions == [] then []
    else
      var before, a := actions[..|actions| - 1], actions[|actions| - 1];
      Published(before) + (if Run(before).Reached? then PublishedBy(Run(before).state, a) else [])
  }

  ghost function PublishedBy(s: State, a: Action): seq<Row> {
    if a.CommitStep? && !a.how.FailedOpen? && HasWritten(s, a.owner) then [s.stages[a.owner].row] else []
  }

  /** What the server has on a connection whose call is at this stage. */
  predicate Matches(stage: Stage, c: Conn) {
    match stage
    case Open => c == Conn(true, [])
    case Written(row) => c == Conn(true, [row])
    case Unwinding(needed) => if needed then c.open else Clean(c)
    case _ => Clean(c)
  }

  /** Queued connections are clean, and every held one is as its call's stage says. */
  ghost predicate Bound(queue: seq<Handle>, held: map<Owner, Handle>,
                        conns: map<Handle, Conn>, stages: map<Owner, Stage>) {
    && stages.Keys == held.Keys
    && (forall c :: c in queue ==> c in conns && Clean(conns[c]))
    && (forall o :: o in held ==> held[o] in conns && Matches(stages[o], conns[held[o]]))
  }

  ghost predicate Inv(s: State) {
    && SqlPool.Conserved(s.pool) && SqlPool.Apart(s.pool)
    && s.conns.Keys == s.pool.created
    && Bound(s.pool.queue, s.pool.held, s.conns, s.stages)
  }

  /** A step of one call touches no connection but its own. */
  lemma UpdateInv(s: State, o: Owner, stage: Stage, c: Conn, table: seq<Row>)
    requires Inv(s) && o in s.pool.held && Matches(stage, c)
    ensures Inv(Update(s, o, stage, c, table))
  {
    hide Matches, Clean, SqlPool.Apart;
    assert s.pool.held[o] in s.pool.created;
  }

  lemma TakeBound(queue: seq<Handle>, held: map<Owner, Handle>,
                  conns: map<Handle, Conn>, stages: map<Owner, Stage>, o: Owner)
    requires Bound(queue, held, conns, stages) && queue != []
    ensures Bound(queue[1..], held[o := queue[0]], conns, stages[o := Taken])
  {
    assert queue[0] in queue && forall c :: c in queue[1..] ==> c in queue;
  }

  lemma ReleaseBound(queue: seq<Handle>, held: map<Owner, Handle>,
                     conns: map<Handle, Conn>, stages: map<Owner, Stage>, o: Owner)
    requires Bound(queue, held, conns, stages) && o in held && stages[o] == Leaving
    ensures Bound(queue + [held[o]], held - {o}, conns, stages - {o})
  {
    assert Matches(stages[o], conns[held[o]]);
  }

  lemma InitBound(queue: seq<Handle>, held: map<Owner, Handle>, conns: map<Handle, Conn>, stages: map<Owner, Stage>,
                  handles: seq<Handle>, conns': map<Handle, Conn>)
    requires Bound(queue, held, conns, stages)
    requires forall c :: c in conns ==> c in conns' && conns'[c] == conns[c]
    requires forall c :: c in handles ==> c in conns' && Clean(conns'[c])
    ensures Bound(queue + handles, held, conns', stages)
  {
    hide Matches, Clean;
  }

  lemma InitInv(s: State, handles: seq<Handle>)
    requires Inv(s) && SqlPool.Enabled(s.pool, SqlPool.Init(handles))
    ensures Inv(ApplyPool(s, SqlPool.Init(handles)))
  {
    hide SqlPool.Conserved, SqlPool.Apart, Bound;
    SqlPool.ConservedStep(s.pool, SqlPool.Init(handles));
    var t := ApplyPool(s, SqlPool.Init(handles));
    InitBound(s.pool.queue, s.pool.held, s.conns, s.stages, handles, t.conns);
  }

  lemma PoolStepInv(s: State, p: SqlPool.Action)
    requires Inv(s) && Enabled(s, PoolStep(p))
    ensures Inv(ApplyPool(s, p)) && ApplyPool(s, p).table == s.table
  {
    hide SqlPool.Conserved, SqlPool.Apart, Bound;
    SqlPool.ConservedStep(s.pool, p);
    match p
    case Init(handles) => InitInv(s, handles);
    case Take(o) =>
      if s.pool.queue != [] {
        TakeBound(s.pool.queue, s.pool.held, s.conns, s.stages, o);
      }
    case Release(o, w) => ReleaseBound(s.pool.queue, s.pool.held, s.conns, s.stages, o);
    case _ =>
  }

  /** A step of a call leads to a stage that its connection matches. */
  lemma CallStep(s: State, a: Action)
    requires Enabled(s, a) && !a.PoolStep? && !FailedRollback(s, a)
    requires Matches(s.stages[a.owner], s.conns[s.pool.held[a.owner]])
    ensures var t, o := Apply(s, a), a.owner;
      && o in t.stages && s.pool.held[o] in t.conns && Matches(t.stages[o], t.conns[s.pool.held[o]])
      && t == Update(s, o, t.stages[o], t.conns[s.pool.held[o]], t.table)
      && t.table == s.table + PublishedBy(s, a)
  {
    assert s.table + [] == s.table;
  }

  lemma StepInv(s: State, a: Action)
    requires Inv(s) && Enabled(s, a) && !FailedRollback(s, a)
    ensures Inv(Apply(s, a)) && Apply(s, a).table == s.table + PublishedBy(s, a)
  {
    if a.PoolStep? {
      hide Inv;
      PoolStepInv(s, a.step);
    } else {
      assert Matches(s.stages[a.owner], s.conns[s.pool.held[a.owner]]);
      hide Inv, Apply, Matches;
      CallStep(s, a);
      var t := Apply(s, a);
      UpdateInv(s, a.owner, t.stages[a.owner], t.conns[s.pool.held[a.owner]], t.table);
    }
  }

  lemma StartInv()
    ensures Inv(START)
  {
  }

  /** In every interleaving in which the rollbacks that are needed work, a queued connection
      has no open transaction, each open transaction holds only its own call's row, and the
      committed rows are those of the applied commits in their order. */
  lemma {:induction false} PoolStaysClean(actions: seq<Action>)
    requires Run(actions).Reached? && RollbacksWork(actions)
    ensures Inv(Run(actions).state) && Run(actions).state.table == Published(actions)
  {
    hide Inv, Apply, Enabled;
    if actions == [] {
      StartInv();
    } else {
      var before := actions[..|actions| - 1];
      PoolStaysClean(before);
      StepInv(Run(before).state, actions[|actions| - 1]);
    }
  }

  // ---- exactly then ----

  /** Every connection that is queued or about to be is clean. */
  ghost predicate CleanOutside(s: State) {
    && (forall c :: c in s.pool.queue ==> c in s.conns && Clean(s.conns[c]))
    && (forall o :: At(s, o, Leaving) ==> Clean(s.conns[s.pool.held[o]]))
  }

  ghost predicate AlwaysCleanOutside(actions: seq<Action>) {
    && (Run(actions).Reached? ==> CleanOutside(Run(actions).state))
    && (actions == [] || AlwaysCleanOutside(actions[..|actions| - 1]))
  }

  lemma FailedRollbackShows(s: State, a: Action)
    requires Inv(s) && Enabled(s, a) && FailedRollback(s, a)
    ensures !CleanOutside(Apply(s, a))
  {
    var o := a.owner;
    assert Matches(s.stages[o], s.conns[s.pool.held[o]]);
    hide Inv;
    assert At(Apply(s, a), o, Leaving);
  }

  /** No connection is ever handed on with an open transaction exactly if every rollback
      that is needed works, whatever the threads do. */
  lemma {:induction false} AlwaysCleanOutsideIff(actions: seq<Action>)
    requires Run(actions).Reached?
    ensures AlwaysCleanOutside(actions) <==> RollbacksWork(actions)
  {
    hide Inv, Apply, Enabled, CleanOutside, FailedRollback;
    if actions == [] {
      StartInv();
      InvIsClean(START);
    } else {
      var before, a := actions[..|actions| - 1], actions[|actions| - 1];
      AlwaysCleanOutsideIff(before);
      if RollbacksWork(before) {
        PoolStaysClean(before);
        if FailedRollback(Run(before).state, a) {
          FailedRollbackShows(Run(before).state, a);
        } else {
          StepInv(Run(before).state, a);
          InvIsClean(Run(actions).state);
        }
      }
    }
  }

  lemma InvIsClean(s: State)
    requires Inv(s)
    ensures CleanOutside(s)
  {
    forall o | At(s, o, Leaving) ensures Clean(s.conns[s.pool.held[o]]) {
      assert Matches(s.stages[o], s.conns[s.pool.held[o]]);
    }
  }

  // ---- the calls are those of `insertUser` ----

  /** In every interleaving no row with the declined username is ever committed by its call. */
  lemma {:induction false} DeclinedIsNeverPublished(actions: seq<Action>)
    requires Run(actions).Reached?
    ensures forall row :: row in Published(actions) ==> row.username != "rollback"
  {
    hide Apply;
    if actions != [] {
      DeclinedIsNeverPublished(actions[..|actions| - 1]);
    }
  }

  /** What the call of `o` does between taking and giving back its connection. */
  function Body(o: Owner, row: Row, e: Env): seq<Action> {
    if !e.beginOk then [BeginStep(o, false)]
    else [BeginStep(o, true)] + Opened(o, row, e)
  }

  function Opened(o: Owner, row: Row, e: Env): seq<Action> {
    if !e.statementOk || !e.prepareOk || !e.executeOk then [GiveUp(o)] + Unwound(o, e)
    else [Insert(o, row)] + Inserted(o, row, e)
  }

  function Inserted(o: Owner, row: Row, e: Env): seq<Action> {
    if row.username == "rollback" then [Decline(o)] + Unwound(o, e)
    else [CommitStep(o, e.commit)] + if e.commit.Committed? then [] else Unwound(o, e)
  }

  function Unwound(o: Owner, e: Env): seq<Action> { [Unwind(o, e.rollbackOk)] }

  /** A whole call that nothing interrupts. */
  function Whole(o: Owner, row: Row, e: Env, w: SqlPool.Wake): seq<Action> {
    [PoolStep(SqlPool.Enter(o))] + ([PoolStep(SqlPool.Take(o))] + (Body(o, row, e) + [PoolStep(SqlPool.Release(o, w))]))
  }

  ghost function From(s: State, actions: seq<Action>): Outcome
    decreases |actions|
  {
    if actions == [] then Reached(s)
    else if !Enabled(s, actions[0]) then Impossible
    else From(Apply(s, actions[0]), actions[1..])
  }

  lemma First(s: State, a: Action, rest: seq<Action>)
    ensures From(s, [a] + rest) == if Enabled(s, a) then From(Apply(s, a), rest) else Impossible
  {
    assert ([a] + rest)[1..] == rest;
    hide Enabled, Apply;
  }

  lemma Done(s: State)
    ensures From(s, []) == Reached(s)
  {
  }

  lemma {:induction false} FromAppend(s: State, actions: seq<Action>, more: seq<Action>)
    ensures From(s, actions + more) ==
      if From(s, actions).Reached? then From(From(s, actions).state, more) else Impossible
    decreases |actions|
  {
    hide Enabled, Apply;
    if actions == [] {
      assert actions + more == more;
    } else {
      assert (actions + more)[1..] == actions[1..] + more;
      if Enabled(s, actions[0]) {
        FromAppend(Apply(s, actions[0]), actions[1..], more);
      }
    }
  }

  lemma {:induction false} RunGoesOn(before: seq<Action>, actions: seq<Action>)
    requires Run(before).Reached?
    ensures Run(before + actions) == From(Run(before).state, actions)
    decreases |actions|
  {
    hide Enabled, Apply;
    if actions == [] {
      assert before + actions == before;
    } else {
      var one := before + [actions[0]];
      assert one[..|one| - 1] == before && before + actions == one + actions[1..];
      if Enabled(Run(before).state, actions[0]) {
        RunGoesOn(one, actions[1..]);
      } else {
        Stuck(one, actions[1..]);
      }
    }
  }

  lemma {:induction false} Stuck(before: seq<Action>, actions: seq<Action>)
    requires Run(before).Impossible?
    ensures Run(before + actions).Impossible?
  {
    hide Enabled, Apply;
    if actions == [] {
      assert before + actions == before;
    } else {
      var all := before + actions;
      assert all[..|all| - 1] == before + actions[..|actions| - 1];
      Stuck(before, actions[..|actions| - 1]);
    }
  }

  /** Ends the call of `o`, leaving this table and connection. */
  ghost predicate Leaves(s: State, actions: seq<Action>, o: Owner, table: seq<Row>, c: Conn)
    requires o in s.pool.held
  {
    From(s, actions) == Reached(Update(s, o, Leaving, c, table))
  }

  lemma UpdateTwice(s: State, o: Owner, t: State, stage: Stage, c: Conn, table: seq<Row>,
                    stage': Stage, c': Conn, table': seq<Row>)
    requires o in s.pool.held && t == Update(s, o, stage, c, table)
    ensures At(t, o, stage) && t.conns[t.pool.held[o]] == c
    ensures Update(t, o, stage', c', table') == Update(s, o, stage', c', table')
  {
    var h := s.pool.held[o];
    assert t.conns[h := c'] == s.conns[h := c'] && t.stages[o := stage'] == s.stages[o := stage'];
  }

  lemma UnwoundLeaves(s: State, o: Owner, e: Env)
    requires At(s, o, Unwinding(true)) || At(s, o, Unwinding(false))
    ensures Leaves(s, Unwound(o, e), o, s.table, Rollback(s.conns[s.pool.held[o]], e.rollbackOk))
  {
    var a := Unwind(o, e.rollbackOk);
    assert Unwound(o, e) == [a] + [];
    First(s, a, []);
  }

  lemma InsertedLeaves(s: State, o: Owner, row: Row, e: Env)
    requires At(s, o, Written(row))
    ensures var c := s.conns[s.pool.held[o]];
      if row.username == "rollback" then Leaves(s, Inserted(o, row, e), o, s.table, Rollback(c, e.rollbackOk))
      else
        var (table, ended) := CommitOn(s.table, c, e.commit);
        Leaves(s, Inserted(o, row, e), o, table,
               if e.commit.Committed? then ended else Rollback(ended, e.rollbackOk))
  {
    hide From;
    var c := s.conns[s.pool.held[o]];
    if row.username == "rollback" {
      First(s, Decline(o), Unwound(o, e));
      var t := Apply(s, Decline(o));
      var c' := Rollback(c, e.rollbackOk);
      UpdateTwice(s, o, t, Unwinding(true), c, s.table, Leaving, c', s.table);
      UnwoundLeaves(t, o, e);
    } else {
      var a := CommitStep(o, e.commit);
      var t := Apply(s, a);
      var (table, ended) := CommitOn(s.table, c, e.commit);
      if e.commit.Committed? {
        First(s, a, []);
        Done(t);
      } else {
        First(s, a, Unwound(o, e));
        var c' := Rollback(ended, e.rollbackOk);
        UpdateTwice(s, o, t, Unwinding(e.commit.FailedOpen?), ended, table, Leaving, c', table);
        UnwoundLeaves(t, o, e);
      }
    }
  }

  /** The table and the connection when a call ends that began with these. */
  ghost function Ended(table: seq<Row>, c: Conn, row: Row, e: Env): (seq<Row>, Conn) {
    var after := InsertUser(Db(table, [c]), row, e).0;
    (after.table, after.pool[0])
  }

  lemma BodyLeaves(s: State, o: Owner, row: Row, e: Env)
    requires At(s, o, Taken)
    ensures var (table, c) := Ended(s.table, s.conns[s.pool.held[o]], row, e);
      Leaves(s, Body(o, row, e), o, table, c)
  {
    hide From;
    var c := s.conns[s.pool.held[o]];
    var a := BeginStep(o, e.beginOk);
    var t := Apply(s, a);
    if e.beginOk {
      First(s, a, Opened(o, row, e));
      var (table, open) := Begin(s.table, c);
      var (table', c') := Ended(s.table, c, row, e);
      UpdateTwice(s, o, t, Open, open, table, Leaving, c', table');
      OpenedLeaves(t, o, row, e);
    } else {
      assert Body(o, row, e) == [a] + [];
      First(s, a, []);
      Done(t);
    }
  }

  lemma OpenedLeaves(s: State, o: Owner, row: Row, e: Env)
    requires At(s, o, Open)
    ensures var c := s.conns[s.pool.held[o]];
      if !e.statementOk || !e.prepareOk || !e.executeOk
      then Leaves(s, Opened(o, row, e), o, s.table, Rollback(c, e.rollbackOk))
      else
        var written := c.(rows := c.rows + [row]);
        if row.username == "rollback" then Leaves(s, Opened(o, row, e), o, s.table, Rollback(written, e.rollbackOk))
        else
          var (table, ended) := CommitOn(s.table, written, e.commit);
          Leaves(s, Opened(o, row, e), o, table, if e.commit.Committed? then ended else Rollback(ended, e.rollbackOk))
  {
    hide From;
    var c := s.conns[s.pool.held[o]];
    if !e.statementOk || !e.prepareOk || !e.executeOk {
      First(s, GiveUp(o), Unwound(o, e));
      var t := Apply(s, GiveUp(o));
      UpdateTwice(s, o, t, Unwinding(true), c, s.table, Leaving, Rollback(c, e.rollbackOk), s.table);
      UnwoundLeaves(t, o, e);
    } else {
      First(s, Insert(o, row), Inserted(o, row, e));
      var t := Apply(s, Insert(o, row));
      var written := c.(rows := c.rows + [row]);
      var (table, ended) := CommitOn(s.table, written, e.commit);
      UpdateTwice(s, o, t, Written(row), written, s.table, Leaving, Rollback(written, e.rollbackOk), s.table);
      UpdateTwice(s, o, t, Written(row), written, s.table, Leaving,
                  if e.commit.Committed? then ended else Rollback(ended, e.rollbackOk), table);
      InsertedLeaves(t, o, row, e);
    }
  }

  /** The pool and the server's connections fit together, whatever rollbacks did. */
  ghost predicate Fits(s: State) {
    SqlPool.Conserved(s.pool) && SqlPool.Apart(s.pool) && s.conns.Keys == s.pool.created
  }

  lemma {:induction false} RunFits(actions: seq<Action>)
    requires Run(actions).Reached?
    ensures Fits(Run(actions).state)
  {
    hide SqlPool.Conserved, SqlPool.Apart;
    if actions == [] {
      StartInv();
    } else {
      var before, a := actions[..|actions| - 1], actions[|actions| - 1];
      RunFits(before);
      hide Run;
      StepFits(Run(before).state, a);
    }
  }

  lemma StepFits(s: State, a: Action)
    requires Fits(s) && Enabled(s, a)
    ensures Fits(Apply(s, a))
  {
    hide SqlPool.Conserved, SqlPool.Apart;
    if a.PoolStep? {
      SqlPool.ConservedStep(s.pool, a.step);
    }
  }

  /** The database as one call sees it: the table and the free connections in queue order. */
  ghost function View(s: State): Db
    requires Fits(s)
  {
    Db(s.table, seq(|s.pool.queue|, i requires 0 <= i < |s.pool.queue| => s.conns[s.pool.queue[i]]))
  }

  lemma EndedIs(db: Db, row: Row, e: Env)
    requires db.pool != []
    ensures var (table, c) := Ended(db.table, db.pool[0], row, e);
      InsertUser(db, row, e).0 == Db(table, db.pool[1..] + [c])
  {
  }

  ghost predicate CanCall(s: State, o: Owner, w: SqlPool.Wake) {
    && SqlPool.Enabled(s.pool, SqlPool.Enter(o)) && s.pool.queue != []
    && (if s.pool.sleeping == {} then w == SqlPool.Nobody else w.Wakes? && w.owner in s.pool.sleeping)
  }

  /** After the steps of a whole call. */
  lemma WholeLeaves(s: State, o: Owner, row: Row, e: Env, w: SqlPool.Wake)
    requires Fits(s) && CanCall(s, o, w)
    ensures var h := s.pool.queue[0];
      var (table, c) := Ended(s.table, s.conns[h], row, e);
      var after := From(s, Whole(o, row, e, w));
      && after.Reached? && after.state.table == table && after.state.conns == s.conns[h := c]
      && after.state.pool.queue == s.pool.queue[1..] + [h]
  {
    hide From, Body, Ended;
    assert s.pool.queue[0] in s.pool.queue;
    hide SqlPool.Conserved, SqlPool.Apart;
    var enter, take, release :=
      PoolStep(SqlPool.Enter(o)), PoolStep(SqlPool.Take(o)), PoolStep(SqlPool.Release(o, w));
    First(s, enter, [take] + (Body(o, row, e) + [release]));
    var s1 := Apply(s, enter);
    First(s1, take, Body(o, row, e) + [release]);
    var s2 := Apply(s1, take);
    FromAppend(s2, Body(o, row, e), [release]);
    BodyLeaves(s2, o, row, e);
    var (table, c) := Ended(s.table, s.conns[s.pool.queue[0]], row, e);
    var s3 := Update(s2, o, Leaving, c, table);
    assert [release] == [release] + [];
    First(s3, release, []);
    Done(Apply(s3, release));
  }

  lemma ViewAfter(s: State, t: State, c: Conn)
    requires Fits(s) && Fits(t) && s.pool.queue != []
    requires t.conns == s.conns[s.pool.queue[0] := c] && t.pool.queue == s.pool.queue[1..] + [s.pool.queue[0]]
    ensures View(t).pool == View(s).pool[1..] + [c]
  {
    var q := s.pool.queue;
    assert forall j :: 1 <= j < |q| ==> q[0] != q[j];
    hide SqlPool.Conserved, SqlPool.Apart;
    forall i | 0 <= i < |q| - 1 ensures View(t).pool[i] == View(s).pool[1..][i] {
      assert t.pool.queue[i] == q[i + 1];
    }
  }

  /** Whatever happened before, a call whose steps nothing interrupts does to the table and
      the free connections what `insertUser` does. */
  lemma AloneIsInsertUser(before: seq<Action>, o: Owner, row: Row, e: Env, w: SqlPool.Wake)
    requires Run(before).Reached? && CanCall(Run(before).state, o, w)
    ensures Fits(Run(before).state)
    ensures var after := Run(before + Whole(o, row, e, w));
      after.Reached? && Fits(after.state) && View(after.state) == InsertUser(View(Run(before).state), row, e).0
  {
    hide Run, SqlPool.Conserved, SqlPool.Apart, Enabled, Apply, Whole, Ended, InsertUser, From;
    var s := Run(before).state;
    RunFits(before);
    RunGoesOn(before, Whole(o, row, e, w));
    WholeLeaves(s, o, row, e, w);
    RunFits(before + Whole(o, row, e, w));
    EndedIs(View(s), row, e);
    ViewAfter(s, From(s, Whole(o, row, e, w)).state, Ended(s.table, View(s).pool[0], row, e).1);
  }
}
