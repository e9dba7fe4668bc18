/** `TextTxDao::insertUser`: a pooled connection, a transaction and a statement whose
    destructors run on every exit, early returns and exceptions included. */
module Transactions {

  datatype Row = Row(username: string, age: int)

  /** A connection as the server sees it: whether a transaction is open and the rows that
      it has inserted but not committed. */
  datatype Conn = Conn(open: bool, rows: seq<Row>)

  predicate Clean(c: Conn) { !c.open && c.rows == [] }

  /** The committed rows and the pool's queue of free connections. */
  datatype Db = Db(table: seq<Row>, pool: seq<Conn>)

  /** How `mysql_commit` ends; a failure may hit before or after the server applied it. */
  datatype Commit = Committed | FailedOpen | FailedApplied

  /** What the database answers during one call. */
  datatype Env = Env(beginOk: bool, statementOk: bool, prepareOk: bool, executeOk: bool,
                     commit: Commit, rollbackOk: bool)

  datatype Outcome = Returned(ok: bool) | Threw

  // ---- effects on the server ----

  /** START TRANSACTION ends an open transaction by committing it, as MySQL does. */
  function Begin(table: seq<Row>, c: Conn): (seq<Row>, Conn) {
    (table + c.rows, Conn(true, []))
  }

  function CommitOn(table: seq<Row>, c: Conn, how: Commit): (seq<Row>, Conn) {
    if how.FailedOpen? then (table, c) else (table + c.rows, Conn(false, []))
  }

  function Rollback(c: Conn, ok: bool): Conn { if ok then Conn(false, []) else c }

  /** `insertUser`, with the destructors written out: the transaction object exists once
      START TRANSACTION succeeded and rolls back unless it committed; the connection goes
      back to the queue in any case. */
  function InsertUser(db: Db, row: Row, e: Env): (Db, Outcome)
    requires db.pool != []
  {
    var c, rest := db.pool[0], db.pool[1..];
    if !e.beginOk then (Db(db.table, rest + [c]), Threw)
    else
      var (table, open) := Begin(db.table, c);
      var abandoned := Rollback(open, e.rollbackOk);
      if !e.statementOk then (Db(table, rest + [abandoned]), Threw)
      else if !e.prepareOk then (Db(table, rest + [abandoned]), Returned(false))
      else if !e.executeOk then (Db(table, rest + [abandoned]), Returned(false))
      else
        var written := open.(rows := open.rows + [row]);
        if row.username == "rollback" then (Db(table, rest + [Rollback(written, e.rollbackOk)]), Returned(false))
        else
          var (table', ended) := CommitOn(table, written, e.commit);
          if e.commit.Committed? then (Db(table', rest + [ended]), Returned(true))
          else (Db(table', rest + [Rollback(ended, e.rollbackOk)]), Threw)
  }

  // ---- one call ----

  /** The call reaches the commit. */
  predicate ReachesCommit(row: Row, e: Env) {
    e.beginOk && e.statementOk && e.prepareOk && e.executeOk && row.username != "rollback"
  }

  /** The server has ended the transaction by itself, or never opened one. */
  predicate NothingToRollBack(row: Row, e: Env) {
    !e.beginOk || (ReachesCommit(row, e) && !e.commit.FailedOpen?)
  }

  /** On every exit the connection re-enters the pool at the back, and it carries no open
      transaction exactly when there was nothing to roll back or the rollback worked. */
  lemma ConnectionReturnsClean(db: Db, row: Row, e: Env)
    requires db.pool != [] && Clean(db.pool[0])
    ensures var (after, _) := InsertUser(db, row, e);
      && |after.pool| == |db.pool|
      && after.pool[..|db.pool| - 1] == db.pool[1..]
      && (Clean(after.pool[|db.pool| - 1]) <==> NothingToRollBack(row, e) || e.rollbackOk)
  {
  }

  /** What a caller can conclude: true means exactly this row is durable; false means the
      table is as before; after an exception the row is durable only if the commit was
      applied and its reply lost. */
  lemma OutcomeTellsDurability(db: Db, row: Row, e: Env)
    requires db.pool != [] && Clean(db.pool[0])
    ensures var (after, outcome) := InsertUser(db, row, e);
      && (outcome == Returned(true) <==> ReachesCommit(row, e) && e.commit.Committed?)
      && (outcome == Returned(true) ==> after.table == db.table + [row])
      && (outcome == Returned(false) ==> after.table == db.table)
      && (outcome == Threw ==>
            after.table == db.table + (if ReachesCommit(row, e) && e.commit.FailedApplied? then [row] else []))
  {
  }

  /** How a call ends, told from the row and the database's answers alone. It throws exactly
      if one of START TRANSACTION, the statement handle and a commit that was reached fails;
      it answers false exactly if it gets past the first two and then prepare or execute
      fails or the username is "rollback". */
  ghost predicate EndsAsTold(row: Row, e: Env, outcome: Outcome) {
    && (outcome == Threw <==> !e.beginOk || !e.statementOk || (ReachesCommit(row, e) && !e.commit.Committed?))
    && (outcome == Returned(false) <==>
          e.beginOk && e.statementOk && (!e.prepareOk || !e.executeOk || row.username == "rollback"))
    && (outcome == Returned(true) <==> ReachesCommit(row, e) && e.commit.Committed?)
  }

  lemma CallEnds(db: Db, row: Row, e: Env)
    requires db.pool != []
    ensures EndsAsTold(row, e, InsertUser(db, row, e).1)
  {
  }

  // ---- sequences of calls ----

  datatype Call = Call(row: Row, env: Env)

  function RunCalls(db: Db, calls: seq<Call>): (Db, seq<Outcome>)
    requires db.pool != []
    ensures |RunCalls(db, calls).0.pool| == |db.pool| && |RunCalls(db, calls).1| == |calls|
  {
    if calls == [] then (db, [])
    else
      var (before, outcomes) := RunCalls(db, calls[..|calls| - 1]);
      var (after, o) := InsertUser(before, calls[|calls| - 1].row, calls[|calls| - 1].env);
      (after, outcomes + [o])
  }

  /** Over every sequence of calls, on whatever connections and after whatever failures, each
      call ends as its own row and answers tell. */
  lemma {:induction false} OutcomesAreTold(db: Db, calls: seq<Call>)
    requires db.pool != []
    ensures forall i :: 0 <= i < |calls| ==> EndsAsTold(calls[i].row, calls[i].env, RunCalls(db, calls).1[i])
  {
    hide EndsAsTold, InsertUser;
    if calls != [] {
      var front, c := calls[..|calls| - 1], calls[|calls| - 1];
      OutcomesAreTold(db, front);
      var before, outcomes := RunCalls(db, front).0, RunCalls(db, calls).1;
      CallEnds(before, c.row, c.env);
      forall i | 0 <= i < |front| ensures EndsAsTold(calls[i].row, calls[i].env, outcomes[i]) {
        assert front[i] == calls[i] && outcomes[i] == RunCalls(db, front).1[i];
      }
    }
  }

  /** Reference: the rows that the calls make durable, told from the calls alone. */
  function Durable(calls: seq<Call>): seq<Row> {
    if calls == [] then []
    else
      var c := calls[|calls| - 1];
      Durable(calls[..|calls| - 1]) +
      (if ReachesCommit(c.row, c.env) && !c.env.commit.FailedOpen? then [c.row] else [])
  }

  /** Rollbacks work whenever they are needed. */
  predicate RollbacksWork(calls: seq<Call>) {
    forall i :: 0 <= i < |calls| ==> NothingToRollBack(calls[i].row, calls[i].env) || calls[i].env.rollbackOk
  }

  predicate AllClean(pool: seq<Conn>) { forall i :: 0 <= i < |pool| ==> Clean(pool[i]) }

  /** Over every sequence of calls on a clean pool: if needed rollbacks work, no pooled
      connection ever carries an open transaction, the number of connections is kept, and
      the table grows by exactly the committed rows in call order. */
  lemma {:induction false} CallsKeepPoolClean(db: Db, calls: seq<Call>)
    requires db.pool != [] && AllClean(db.pool) && RollbacksWork(calls)
    ensures var (after, _) := RunCalls(db, calls);
      AllClean(after.pool) && after.table == db.table + Durable(calls)
  {
    if calls != [] {
      var front, c := calls[..|calls| - 1], calls[|calls| - 1];
      CallsKeepPoolClean(db, front);
      var before := RunCalls(db, front).0;
      ConnectionReturnsClean(before, c.row, c.env);
      OutcomeTellsDurability(before, c.row, c.env);
      var after := RunCalls(db, calls).0;
      var n := |after.pool| - 1;
      assert NothingToRollBack(c.row, c.env) || c.env.rollbackOk;
      forall i | 0 <= i <= n ensures Clean(after.pool[i]) {
        if i < n { assert after.pool[..n][i] == before.pool[1..][i]; }
      }
    }
  }

  /** The pool was clean at the start and after every call so far. */
  ghost predicate AlwaysClean(db: Db, calls: seq<Call>)
    requires db.pool != []
  {
    AllClean(RunCalls(db, calls).0.pool) && (calls == [] || AlwaysClean(db, calls[..|calls| - 1]))
  }

  /** Pooled connections never carry an open transaction exactly when every rollback that
      a call needs works. */
  lemma {:induction false} AlwaysCleanIff(db: Db, calls: seq<Call>)
    requires db.pool != [] && AllClean(db.pool)
    ensures AlwaysClean(db, calls) <==> RollbacksWork(calls)
  {
    if calls != [] {
      var front, c := calls[..|calls| - 1], calls[|calls| - 1];
      AlwaysCleanIff(db, front);
      assert RollbacksWork(calls) <==> RollbacksWork(front) && (NothingToRollBack(c.row, c.env) || c.env.rollbackOk);
      if RollbacksWork(calls) {
        CallsKeepPoolClean(db, calls);
      } else if AlwaysClean(db, front) {
        var before := RunCalls(db, front).0;
        ConnectionReturnsClean(before, c.row, c.env);
      }
    }
  }

  /** A failed rollback is not harmless: the abandoned row of a call that answered false
      is committed by the next call that gets the same connection. */
  lemma FailedRollbackLeaksRow(table: seq<Row>, e: Env, next: Row, f: Env)
    requires e.beginOk && e.statementOk && e.prepareOk && e.executeOk && !e.rollbackOk && f.beginOk && !f.statementOk
    ensures var ghostRow := Row("rollback", 1);
      var (db1, o1) := InsertUser(Db(table, [Conn(false, [])]), ghostRow, e);
      o1 == Returned(false) && db1.table == table && db1.pool != [] &&
      InsertUser(db1, next, f).0.table == table + [ghostRow]
  {
  }
}

/** The DAO, the pool and the transaction object as objects and methods. */
module TransactionObjects {
  import opened Transactions

  /** `SqlTransaction` on a connection that the caller owns. */
  class SqlTransaction {
    var conn: Conn
    var committed: bool

    constructor (conn: Conn)
      ensures this.conn == conn && !committed
    {
      this.conn := conn;
      committed := false;
    }

    /** `commit`: false stands for the exception. */
    method Commit(table: seq<Row>, how: Transactions.Commit) returns (table': seq<Row>, ok: bool)
      modifies this
      ensures (table', conn) == CommitOn(table, old(conn), how)
      ensures ok == how.Committed? && committed == (old(committed) || ok)
    {
      table' := table;
      if how.FailedOpen? { return table, false; }
      table' := table + conn.rows;
      conn := Conn(false, []);
      if how.FailedApplied? { return table', false; }
      committed := true;
      return table', true;
    }

    /** `rollback`, also run by the destructor. */
    method Rollback(ok: bool)
      modifies this
      ensures committed == old(committed)
      ensures conn == if committed then old(conn) else Transactions.Rollback(old(conn), ok)
    {
      if !committed {
        if ok {
          conn := Conn(false, []);
        }
      }
    }
  }

  class TextTxDao {
    var table: seq<Row>
    var pool: seq<Conn>

    constructor (pool: seq<Conn>)
      ensures this.pool == pool && table == []
    {
      this.pool := pool;
      table := [];
    }

    /** Takes the front of the queue, blocking while it is empty. */
    method GetConn() returns (c: Conn)
      requires pool != []
      modifies this`pool
      ensures c == old(pool)[0] && pool == old(pool)[1..]
    {
      c := pool[0];
      pool := pool[1..];
    }

    method ReleaseConn(c: Conn)
      modifies this`pool
      ensures pool == old(pool) + [c]
    {
      pool := pool + [c];
    }

    method InsertUser(username: string, age: int, e: Env) returns (outcome: Outcome)
      requires pool != []
      modifies this
      ensures (Db(table, pool), outcome) == Transactions.InsertUser(Db(old(table), old(pool)), Row(username, age), e)
    {
      var conn := GetConn();
      if !e.beginOk {
        // The transaction's constructor throws: only the connection owner is unwound.
        ReleaseConn(conn);
        return Threw;
      }
      table := table + conn.rows;
      var tx := new SqlTransaction(Conn(true, []));
      if !e.statementOk {
        outcome := Threw;
      } else if !e.prepareOk {
        outcome := Returned(false);
      } else if !e.executeOk {
        outcome := Returned(false);
      } else {
        tx.conn := tx.conn.(rows := tx.conn.rows + [Row(username, age)]);
        if username == "rollback" {
          outcome := Returned(false);
        } else {
          var table', ok := tx.Commit(table, e.commit);
          table := table';
          outcome := if ok then Returned(true) else Threw;
        }
      }
      tx.Rollback(e.rollbackOk);
      ReleaseConn(tx.conn);
    }
  }
}
