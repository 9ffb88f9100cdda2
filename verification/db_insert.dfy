/** The batch writer of util/db.go (InsertHelper): rows are added to an INSERT
    statement and the statement is sent as soon as its placeholder count passes 80%
    of PostgreSQL's limit; Finish sends what is left. */
module InsertBatch {
  import opened Common
  import Sql
  import Db

  /** 80% of the placeholder limit; Go evaluates the constant expression exactly. */
  const FlushThreshold: int := Db.PostgresPlaceholderLimit * 8 / 10

  /** The error Add returns for a row whose width differs from the column count. */
  const ArgsSizeError: Error := Plain("args size not consistent")

  lemma FlushThresholdValue()
    ensures FlushThreshold == 52428
  {
  }

  // ------------------------------------------------------------ the schedule

  /** The rows of a list of batches, batch after batch. */
  function Joined(batches: seq<seq<Sql.Row>>): (rows: seq<Sql.Row>)
    ensures batches == [] ==> rows == []
  {
    if batches == [] then [] else Joined(batches[..|batches| - 1]) + batches[|batches| - 1]
  }

  /** What a helper with rows `w` wide has done after `rows` were added, every
      statement succeeding: the batches it sent and the rows still pending. A row
      joins the pending batch; when the pending batch holds more than
      FlushThreshold placeholders it is sent and a new one is started. */
  function Run(rows: seq<Sql.Row>, w: nat): (r: (seq<seq<Sql.Row>>, seq<Sql.Row>))
    decreases |rows|
  {
    if rows == [] then ([], [])
    else
      var (sent, pending) := Run(rows[..|rows| - 1], w);
      var grown := pending + [rows[|rows| - 1]];
      if w * |grown| > FlushThreshold then (sent + [grown], []) else (sent, grown)
  }

  /** Nothing is lost or repeated: the sent batches and the pending rows are the
      added rows, in order. */
  lemma {:induction false} RunCovers(rows: seq<Sql.Row>, w: nat)
    ensures Joined(Run(rows, w).0) + Run(rows, w).1 == rows
    decreases |rows|
  {
    if rows != [] {
      var init := rows[..|rows| - 1];
      RunCovers(init, w);
      var (sent, pending) := Run(init, w);
      var grown := pending + [rows[|rows| - 1]];
      assert Joined(sent) + grown == rows;
      if w * |grown| > FlushThreshold {
        assert (sent + [grown])[..|sent|] == sent;
      }
    }
  }

  /** The number of rows in every sent batch: one more than fit under the threshold. */
  function BatchRows(w: nat): nat
    requires w > 0
  {
    FlushThreshold / w + 1
  }

  /** Every sent batch holds exactly BatchRows(w) rows, fewer than that are pending,
      and the pending batch is under the threshold. */
  lemma {:induction false} RunShape(rows: seq<Sql.Row>, w: nat)
    requires w > 0
    ensures var (sent, pending) := Run(rows, w);
      && (forall i :: 0 <= i < |sent| ==> |sent[i]| == BatchRows(w))
      && |pending| < BatchRows(w)
      && w * |pending| <= FlushThreshold
      && |sent| * BatchRows(w) + |pending| == |rows|
    decreases |rows|
  {
    var k := BatchRows(w);
    ThresholdCrossing(w);
    if rows != [] {
      var init := rows[..|rows| - 1];
      RunShape(init, w);
      var (sent, pending) := Run(init, w);
      var n := |pending| + 1;
      assert w * n == w * |pending| + w;
      MulCancel(k - 1, n, w);
      MulCancel(n, k, w);
    }
  }

  /** BatchRows(w) rows are the fewest that pass the threshold. */
  lemma ThresholdCrossing(w: nat)
    requires w > 0
    ensures w * BatchRows(w) > FlushThreshold
    ensures w * (BatchRows(w) - 1) <= FlushThreshold
  {
    var q := FlushThreshold / w;
    assert FlushThreshold == q * w + FlushThreshold % w;
    assert w * (q + 1) == q * w + w;
  }

  lemma MulLe(a: nat, b: nat, w: nat)
    requires a <= b
    ensures w * a <= w * b
  {
    assert w * b - w * a == w * (b - a);
  }

  /** w*a < w*b implies a < b. */
  lemma MulCancel(a: nat, b: nat, w: nat)
    ensures w * a < w * b ==> a < b
  {
    if b <= a {
      MulLe(b, a, w);
    }
  }

  /** A sent batch carries at most FlushThreshold + w placeholders, so rows up to
      13107 columns wide never exceed PostgreSQL's limit of 65535. */
  lemma BatchWithinLimit(w: nat)
    requires 0 < w <= 13107
    ensures w * BatchRows(w) <= FlushThreshold + w <= Db.PostgresPlaceholderLimit
  {
    ThresholdCrossing(w);
    assert w * BatchRows(w) == w * (BatchRows(w) - 1) + w;
  }

  /** Zero-width rows never fill a batch: nothing is sent. */
  lemma {:induction false} RunNoColumns(rows: seq<Sql.Row>)
    ensures Run(rows, 0) == ([], rows)
    decreases |rows|
  {
    if rows != [] {
      RunNoColumns(rows[..|rows| - 1]);
      assert rows[..|rows| - 1] + [rows[|rows| - 1]] == rows;
    }
  }

  /** 6000 rows of 10 columns: batches of 5243 rows, so one statement is sent while
      adding and 757 rows are left for Finish. */
  lemma SixThousandRows(rows: seq<Sql.Row>)
    requires |rows| == 6000
    ensures BatchRows(10) == 5243
    ensures |Run(rows, 10).0| == 1 && |Run(rows, 10).1| == 757
  {
    RunShape(rows, 10);
  }

  // ------------------------------------------------------------ the helper

  /** InsertHelper: the statement every batch starts from, the statement being
      filled, the connection, the row width and the placeholders used so far. The
      ghost fields record every added row, every batch sent, and whether a send
      has failed. */
  class InsertHelper {
    const base: Sql.Insert
    var builder: Sql.Insert
    const execer: Sql.Conn
    const lens: nat
    var cnt: int
    ghost var added: seq<Sql.Row>
    ghost var sent: seq<seq<Sql.Row>>
    ghost var failed: bool

    /** The builder is the base statement plus the pending rows, cnt counts their
        placeholders, and while no send has failed the state is the schedule of the
        added rows. */
    ghost predicate Valid()
      reads this
    {
      && base.rows == []
      && builder == base.(rows := builder.rows)
      && cnt == lens * |builder.rows|
      && (forall i :: 0 <= i < |builder.rows| ==> |builder.rows[i]| == lens)
      && (!failed ==> Run(added, lens) == (sent, builder.rows))
    }

    /** NewInsertHelper: INSERT INTO table (cols) ... with the suffix, nothing added yet. */
    constructor (table: string, cols: seq<string>, mergeStrategy: string, execer: Sql.Conn)
      ensures Valid()
      ensures base == Sql.Insert(table, cols, [], mergeStrategy) && builder == base
      ensures this.execer == execer && lens == |cols| && cnt == 0
      ensures added == [] && sent == [] && !failed
    {
      base := Sql.Insert(table, cols, [], mergeStrategy);
      builder := Sql.Insert(table, cols, [], mergeStrategy);
      this.execer := execer;
      lens := |cols|;
      cnt := 0;
      added := [];
      sent := [];
      failed := false;
    }

    /** Add: reject a row of the wrong width and change nothing; otherwise append it
        and, once more than FlushThreshold placeholders are pending, send the
        statement. A successful send starts a new batch; a failed one keeps the rows. */
    method Add(args: Sql.Row) returns (err: Option<Error>)
      requires Valid()
      modifies this, execer
      ensures Valid()
      ensures |args| != lens ==>
        err == Some(ArgsSizeError) &&
        builder == old(builder) && cnt == old(cnt) && execer.log == old(execer.log) &&
        added == old(added) && sent == old(sent) && failed == old(failed)
      ensures |args| == lens ==>
        var rows := old(builder.rows) + [args];
        var st := Sql.InsertInto(base.(rows := rows));
        added == old(added) + [args] &&
        if lens * |rows| > FlushThreshold then
          && execer.log == old(execer.log) + [st]
          && err == Sql.ErrorOf(execer.respond(|old(execer.log)|, st))
          && (err.None? ==> builder == base && cnt == 0 && sent == old(sent) + [rows] && failed == old(failed))
          && (err.Some? ==> builder == base.(rows := rows) && cnt == lens * |rows| && failed)
        else
          && execer.log == old(execer.log) && err == None
          && builder == base.(rows := rows) && cnt == lens * |rows|
          && sent == old(sent) && failed == old(failed)
      ensures err.None? ==> cnt <= FlushThreshold || |args| != lens
    {
      if |args| != lens {
        return Some(ArgsSizeError);
      }
      ghost var before := added;
      builder := builder.(rows := builder.rows + [args]);
      cnt := cnt + lens;
      added := added + [args];
      assert added[..|added| - 1] == before;
      assert cnt == lens * |builder.rows| by {
        assert lens * |builder.rows| == lens * (|builder.rows| - 1) + lens;
      }
      err := None;
      if cnt > FlushThreshold {
        err := execer.Exec(Sql.InsertInto(builder));
        if err.Some? {
          failed := true;
          return;
        }
        sent := sent + [builder.rows];
        builder := base;
        cnt := 0;
      }
    }

    /** Finish: when placeholders are pending, send the statement; a failure is
        wrapped with the first 100 characters of the query and the first 100
        arguments. The builder is left as it is. */
    method Finish() returns (err: Option<Error>)
      requires Valid()
      modifies execer
      ensures cnt == 0 ==> err == None && execer.log == old(execer.log)
      ensures cnt > 0 ==>
        var st := Sql.InsertInto(builder);
        var reply := execer.respond(|old(execer.log)|, st);
        && execer.log == old(execer.log) + [st]
        && (reply.Rows? ==> err == None)
        && (reply.Failed? ==> err == Some(Wrapped(reply.err, Prefix(Sql.InsertText(builder), 100), Prefix(builder.Args(), 100))))
    {
      err := None;
      if cnt > 0 {
        var query := Sql.InsertText(builder);
        var args := builder.Args();
        err := execer.Exec(Sql.InsertInto(builder));
        if |query| > 100 {
          query := query[..100];
        }
        if |args| > 100 {
          args := args[..100];
        }
        if err.Some? {
          err := Some(Wrapped(err.value, query, args));
        }
      }
    }
  }

  /** The first n elements, or all of them when there are fewer. */
  function Prefix<T>(s: seq<T>, n: nat): (r: seq<T>)
    ensures |r| <= n && r <= s
    ensures |s| <= n ==> r == s
  {
    if |s| > n then s[..n] else s
  }
}
