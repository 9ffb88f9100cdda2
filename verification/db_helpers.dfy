/** The statement-level helpers of util/db_helpers.go: batch upsert through the
    InsertHelper, insert with RETURNING, delete, paged list-and-count queries, lookup
    by equality map and existence checks, all on the injected connection. */
module DbHelpers {
  import opened Common
  import Strs
  import Reflect
  import Sql
  import Paging
  import Db
  import InsertBatch

  // ------------------------------------------------------------ upsert many

  /** The json-tagged values of every record: one row per record. */
  function JsonRows(toInsert: seq<Value>): (rows: seq<Sql.Row>)
    requires forall i :: 0 <= i < |toInsert| ==> toInsert[i].Record?
    ensures |rows| == |toInsert|
  {
    seq(|toInsert|, i requires 0 <= i < |toInsert| => Reflect.ExtractFields(toInsert[i].fields, "json").vals)
  }

  /** The suffix that turns the insert into an upsert on the primary keys. */
  function UpsertSuffix(pks: seq<string>, cols: seq<string>, mergeStrategy: map<string, string>): (s: string)
    ensures Strs.HasPrefix(s, "ON CONFLICT (" + Strs.Join(pks, ",") + ") DO UPDATE SET ")
  {
    var head := "ON CONFLICT (" + Strs.Join(pks, ",") + ") DO UPDATE SET ";
    var s := head + Db.SetClause(cols, pks, mergeStrategy);
    assert s[..|head|] == head;
    s
  }

  /** One INSERT statement per batch, all from the same base statement. */
  function Batches(base: Sql.Insert, bs: seq<seq<Sql.Row>>): (stmts: seq<Sql.Statement>)
    ensures |stmts| == |bs|
  {
    seq(|bs|, k requires 0 <= k < |bs| => Sql.InsertInto(base.(rows := bs[k])))
  }

  /** The rows carried by the INSERT statements of a statement list, in order. */
  function SentRows(stmts: seq<Sql.Statement>): seq<Sql.Row>
  {
    if stmts == [] then []
    else
      var last := stmts[|stmts| - 1];
      SentRows(stmts[..|stmts| - 1]) + (if last.InsertInto? then last.ins.rows else [])
  }

  /** The batch statements carry exactly the batched rows. */
  lemma {:induction false} SentRowsBatches(base: Sql.Insert, bs: seq<seq<Sql.Row>>)
    ensures SentRows(Batches(base, bs)) == InsertBatch.Joined(bs)
    decreases |bs|
  {
    if bs != [] {
      var init := bs[..|bs| - 1];
      assert Batches(base, bs)[..|bs| - 1] == Batches(base, init);
      SentRowsBatches(base, init);
    }
  }

  /** A statement was sent after the first `before` ones, and the last one sent failed. */
  ghost predicate LastFailed(respond: (nat, Sql.Statement) -> Sql.Reply, log: seq<Sql.Statement>, before: nat)
  {
    |log| > before && respond(|log| - 1, log[|log| - 1]).Failed?
  }

  /** Every statement is an INSERT made from `base` by filling in rows. */
  ghost predicate FromBase(stmts: seq<Sql.Statement>, base: Sql.Insert)
  {
    forall k :: 0 <= k < |stmts| ==> stmts[k].InsertInto? && stmts[k].ins == base.(rows := stmts[k].ins.rows)
  }

  /** Every statement sent after the first `from` ones was answered with rows. */
  ghost predicate AllAccepted(respond: (nat, Sql.Statement) -> Sql.Reply, log: seq<Sql.Statement>, from: nat)
  {
    forall k :: from <= k < |log| ==> respond(k, log[k]).Rows?
  }

  /** The helper loop of UpsertManyNoPartition against a database answering
      `respond`: with `log` sent so far and `pending` rows in the statement being
      filled, add rows[i..] one by one as InsertHelper.Add does. Gives the
      statements sent, the rows left pending and the error that ended the loop
      (None when every row was added). */
  function AddFrom(base: Sql.Insert, w: nat, respond: (nat, Sql.Statement) -> Sql.Reply, rows: seq<Sql.Row>,
                   i: nat, log: seq<Sql.Statement>, pending: seq<Sql.Row>): (res: (seq<Sql.Statement>, seq<Sql.Row>, Option<Error>))
    requires i <= |rows|
    ensures |log| <= |res.0| && res.0[..|log|] == log
    decreases |rows| - i
  {
    if i == |rows| then (log, pending, None)
    else if |rows[i]| != w then (log, pending, Some(InsertBatch.ArgsSizeError))
    else
      var grown := pending + [rows[i]];
      if w * |grown| > InsertBatch.FlushThreshold then
        var st := Sql.InsertInto(base.(rows := grown));
        var reply := respond(|log|, st);
        if reply.Failed? then (log + [st], grown, Some(reply.err))
        else
          var res := AddFrom(base, w, respond, rows, i + 1, log + [st], []);
          assert res.0[..|log|] == (res.0[..|log| + 1])[..|log|];
          res
      else AddFrom(base, w, respond, rows, i + 1, log, grown)
  }

  /** InsertHelper.Finish against `respond`: when the pending rows hold
      placeholders they go in one more statement, whose failure is wrapped with the
      first 100 characters of the query and the first 100 arguments. */
  function FinishFrom(base: Sql.Insert, w: nat, respond: (nat, Sql.Statement) -> Sql.Reply,
                      log: seq<Sql.Statement>, pending: seq<Sql.Row>): (res: (seq<Sql.Statement>, Option<Error>))
    ensures w * |pending| == 0 ==> res == (log, None)
    ensures w * |pending| > 0 ==>
      var ins := base.(rows := pending);
      var reply := respond(|log|, Sql.InsertInto(ins));
      && res.0 == log + [Sql.InsertInto(ins)]
      && (res.1.None? <==> reply.Rows?)
      && (reply.Failed? ==> res.1 == Some(Wrapped(reply.err, InsertBatch.Prefix(Sql.InsertText(ins), 100), InsertBatch.Prefix(ins.Args(), 100))))
  {
    if w * |pending| == 0 then (log, None)
    else
      var ins := base.(rows := pending);
      var reply := respond(|log|, Sql.InsertInto(ins));
      var err := if reply.Failed? then Some(Wrapped(reply.err, InsertBatch.Prefix(Sql.InsertText(ins), 100), InsertBatch.Prefix(ins.Args(), 100))) else None;
      (log + [Sql.InsertInto(ins)], err)
  }

  /** A whole upsert of `rows` after log0: the helper loop, then Finish when the
      loop got through every row. */
  function UpsertOutcome(base: Sql.Insert, w: nat, respond: (nat, Sql.Statement) -> Sql.Reply,
                         rows: seq<Sql.Row>, log0: seq<Sql.Statement>): (res: (seq<Sql.Statement>, Option<Error>))
    ensures |log0| <= |res.0| && res.0[..|log0|] == log0
  {
    var (log, pending, err) := AddFrom(base, w, respond, rows, 0, log0, []);
    if err.Some? then (log, err) else FinishFrom(base, w, respond, log, pending)
  }

  /** The statement Finish sends for the rows left pending, if any. */
  function Remainder(base: Sql.Insert, w: nat, pending: seq<Sql.Row>): (stmts: seq<Sql.Statement>)
    ensures w > 0 && pending != [] <==> stmts == [Sql.InsertInto(base.(rows := pending))]
    ensures w == 0 || pending == [] <==> stmts == []
  {
    if w * |pending| == 0 then []
    else
      assert w > 0 && pending != [];
      [Sql.InsertInto(base.(rows := pending))]
  }

  /** The helper loop only sends statements made from the base statement, and none
      at all for rows of width 0. */
  lemma {:induction false} AddFromLog(base: Sql.Insert, w: nat, respond: (nat, Sql.Statement) -> Sql.Reply, rows: seq<Sql.Row>,
                                      i: nat, log: seq<Sql.Statement>, pending: seq<Sql.Row>)
    requires i <= |rows|
    ensures var l := AddFrom(base, w, respond, rows, i, log, pending).0;
      FromBase(l[|log|..], base) && (w == 0 ==> l == log)
    decreases |rows| - i
  {
    if i < |rows| && |rows[i]| == w {
      var grown := pending + [rows[i]];
      if w * |grown| > InsertBatch.FlushThreshold {
        var st := Sql.InsertInto(base.(rows := grown));
        if respond(|log|, st).Rows? {
          AddFromLog(base, w, respond, rows, i + 1, log + [st], []);
          var l := AddFrom(base, w, respond, rows, i + 1, log + [st], []).0;
          assert l[|log|..] == [st] + l[|log| + 1..];
        }
      } else {
        AddFromLog(base, w, respond, rows, i + 1, log, grown);
      }
    }
  }

  /** The helper loop gets through every row exactly when every row has the width
      of the columns and the database accepts every statement sent. */
  lemma {:induction false} AddFromVerdict(base: Sql.Insert, w: nat, respond: (nat, Sql.Statement) -> Sql.Reply, rows: seq<Sql.Row>,
                                          i: nat, log: seq<Sql.Statement>, pending: seq<Sql.Row>)
    requires i <= |rows|
    ensures var (l, p, e) := AddFrom(base, w, respond, rows, i, log, pending);
      e.None? <==> (forall j :: i <= j < |rows| ==> |rows[j]| == w) && AllAccepted(respond, l, |log|)
    decreases |rows| - i
  {
    if i < |rows| && |rows[i]| == w {
      var grown := pending + [rows[i]];
      if w * |grown| > InsertBatch.FlushThreshold {
        var st := Sql.InsertInto(base.(rows := grown));
        if respond(|log|, st).Rows? {
          AddFromVerdict(base, w, respond, rows, i + 1, log + [st], []);
          var l := AddFrom(base, w, respond, rows, i + 1, log + [st], []).0;
          assert l[|log|] == st;
          assert AllAccepted(respond, l, |log|) <==> AllAccepted(respond, l, |log| + 1);
        } else {
          assert (log + [st])[|log|] == st;
        }
      } else {
        AddFromVerdict(base, w, respond, rows, i + 1, log, grown);
      }
    }
  }

  /** The helper loop stops at the first error: all statements but the last were
      accepted, and the error is a width mismatch or the last statement's own. */
  lemma {:induction false} AddFromStops(base: Sql.Insert, w: nat, respond: (nat, Sql.Statement) -> Sql.Reply, rows: seq<Sql.Row>,
                                        i: nat, log: seq<Sql.Statement>, pending: seq<Sql.Row>)
    requires i <= |rows|
    ensures var (l, p, e) := AddFrom(base, w, respond, rows, i, log, pending);
      && (forall k :: |log| <= k < |l| - 1 ==> respond(k, l[k]).Rows?)
      && (e.Some? ==>
            || (e == Some(InsertBatch.ArgsSizeError) && AllAccepted(respond, l, |log|))
            || (|l| > |log| && respond(|l| - 1, l[|l| - 1]).Failed? && e == Some(respond(|l| - 1, l[|l| - 1]).err)))
    decreases |rows| - i
  {
    if i < |rows| && |rows[i]| == w {
      var grown := pending + [rows[i]];
      if w * |grown| > InsertBatch.FlushThreshold {
        var st := Sql.InsertInto(base.(rows := grown));
        if respond(|log|, st).Rows? {
          AddFromStops(base, w, respond, rows, i + 1, log + [st], []);
          var l := AddFrom(base, w, respond, rows, i + 1, log + [st], []).0;
          assert l[|log|] == st;
        }
      } else {
        AddFromStops(base, w, respond, rows, i + 1, log, grown);
      }
    }
  }

  /** When the helper loop gets through, it has sent exactly the batches of the
      schedule Run and left Run's pending rows, whatever the replies were. */
  lemma {:induction false} AddFromRun(base: Sql.Insert, w: nat, respond: (nat, Sql.Statement) -> Sql.Reply, rows: seq<Sql.Row>,
                                      i: nat, log0: seq<Sql.Statement>, log: seq<Sql.Statement>, pending: seq<Sql.Row>)
    requires i <= |rows|
    requires log == log0 + Batches(base, InsertBatch.Run(rows[..i], w).0) && pending == InsertBatch.Run(rows[..i], w).1
    ensures var (l, p, e) := AddFrom(base, w, respond, rows, i, log, pending);
      e.None? ==> l == log0 + Batches(base, InsertBatch.Run(rows, w).0) && p == InsertBatch.Run(rows, w).1
    decreases |rows| - i
  {
    if i == |rows| {
      assert rows[..i] == rows;
    } else if |rows[i]| == w {
      var grown := pending + [rows[i]];
      assert rows[..i + 1][..i] == rows[..i];
      var next := InsertBatch.Run(rows[..i + 1], w);
      if w * |grown| > InsertBatch.FlushThreshold {
        var st := Sql.InsertInto(base.(rows := grown));
        BatchesSnoc(base, next.0);
        assert next.0[..|next.0| - 1] == InsertBatch.Run(rows[..i], w).0;
        AddFromRun(base, w, respond, rows, i + 1, log0, log + [st], []);
      } else {
        AddFromRun(base, w, respond, rows, i + 1, log0, log, grown);
      }
    }
  }

  /** A whole upsert only appends INSERT statements made from the base statement,
      none for rows of width 0, and every statement but the last was accepted. */
  lemma UpsertOutcomeShape(base: Sql.Insert, w: nat, respond: (nat, Sql.Statement) -> Sql.Reply,
                           rows: seq<Sql.Row>, log0: seq<Sql.Statement>)
    ensures var (log, err) := UpsertOutcome(base, w, respond, rows, log0);
      && FromBase(log[|log0|..], base)
      && (w == 0 ==> log == log0)
      && (forall k :: |log0| <= k < |log| - 1 ==> respond(k, log[k]).Rows?)
  {
    var (l, p, e) := AddFrom(base, w, respond, rows, 0, log0, []);
    AddFromLog(base, w, respond, rows, 0, log0, []);
    AddFromStops(base, w, respond, rows, 0, log0, []);
    if e.None? && w * |p| > 0 {
      var st := Sql.InsertInto(base.(rows := p));
      assert (l + [st])[|log0|..] == l[|log0|..] + [st];
      AddFromVerdict(base, w, respond, rows, 0, log0, []);
      assert forall k :: |log0| <= k < |l| ==> (l + [st])[k] == l[k];
    }
  }

  /** A whole upsert succeeds exactly when every row has the width of the columns
      and the database accepts every statement sent. */
  lemma UpsertOutcomeVerdict(base: Sql.Insert, w: nat, respond: (nat, Sql.Statement) -> Sql.Reply,
                             rows: seq<Sql.Row>, log0: seq<Sql.Statement>)
    ensures var (log, err) := UpsertOutcome(base, w, respond, rows, log0);
      err.None? <==> (forall j :: 0 <= j < |rows| ==> |rows[j]| == w) && AllAccepted(respond, log, |log0|)
  {
    var (l, p, e) := AddFrom(base, w, respond, rows, 0, log0, []);
    AddFromVerdict(base, w, respond, rows, 0, log0, []);
    if e.None? && w * |p| > 0 {
      var st := Sql.InsertInto(base.(rows := p));
      assert (l + [st])[|l|] == st;
    }
  }

  /** A failed upsert stopped at its first error: a width mismatch, or the last
      INSERT's failure, as the batch's own error or wrapped by Finish. */
  lemma UpsertOutcomeError(base: Sql.Insert, w: nat, respond: (nat, Sql.Statement) -> Sql.Reply,
                           rows: seq<Sql.Row>, log0: seq<Sql.Statement>)
    ensures var (log, err) := UpsertOutcome(base, w, respond, rows, log0);
      && (err.Some? && err != Some(InsertBatch.ArgsSizeError) ==>
            |log| > |log0| && respond(|log| - 1, log[|log| - 1]).Failed?)
      && (err.Some? ==>
            || err == Some(InsertBatch.ArgsSizeError)
            || (&& |log| > |log0|
                && var last := log[|log| - 1]; var reply := respond(|log| - 1, last);
                && last.InsertInto? && reply.Failed?
                && (err == Some(reply.err) ||
                    err == Some(Wrapped(reply.err, InsertBatch.Prefix(Sql.InsertText(last.ins), 100), InsertBatch.Prefix(last.ins.Args(), 100))))))
  {
    var (l, p, e) := AddFrom(base, w, respond, rows, 0, log0, []);
    AddFromLog(base, w, respond, rows, 0, log0, []);
    AddFromStops(base, w, respond, rows, 0, log0, []);
    if e.Some? && e != Some(InsertBatch.ArgsSizeError) {
      assert l[|log0|..][|l| - 1 - |log0|] == l[|l| - 1];
    }
  }

  /** A successful upsert sends exactly the batches of the schedule Run, then one
      statement for the rows left pending; with columns, these carry every row in
      order. Together with InsertBatch.RunShape this fixes every batch at
      BatchRows(w) rows. */
  lemma UpsertOutcomeSuccess(base: Sql.Insert, w: nat, respond: (nat, Sql.Statement) -> Sql.Reply,
                             rows: seq<Sql.Row>, log0: seq<Sql.Statement>)
    ensures var res := UpsertOutcome(base, w, respond, rows, log0); var log, err := res.0, res.1;
      var sent, pending := InsertBatch.Run(rows, w).0, InsertBatch.Run(rows, w).1;
      err.None? ==>
        && log == log0 + Batches(base, sent) + Remainder(base, w, pending)
        && (w > 0 ==> SentRows(log[|log0|..]) == rows)
  {
    var (sent, pending) := InsertBatch.Run(rows, w);
    assert rows[..0] == [];
    AddFromRun(base, w, respond, rows, 0, log0, log0, []);
    var (log, err) := UpsertOutcome(base, w, respond, rows, log0);
    if err.None? && w > 0 {
      var batches := Batches(base, sent);
      var rest := Remainder(base, w, pending);
      assert log[|log0|..] == batches + rest;
      SentRowsBatches(base, sent);
      InsertBatch.RunCovers(rows, w);
      if rest != [] {
        SentRowsSnoc(batches, rest[0]);
        assert batches + rest == batches + [rest[0]];
      }
    }
  }

  /** The helper loop of UpsertManyNoPartition: add the rows one by one and stop at
      the first error; the statements sent, the rows left pending and the error are
      those AddFrom describes. */
  method AddAll(helper: InsertBatch.InsertHelper, rows: seq<Sql.Row>) returns (err: Option<Error>)
    requires helper.Valid() && !helper.failed && helper.added == [] && helper.sent == []
    modifies helper, helper.execer
    ensures helper.Valid()
    ensures var (l, p, e) := AddFrom(helper.base, helper.lens, helper.execer.respond, rows, 0, old(helper.execer.log), []);
      helper.execer.log == l && err == e && (e.None? ==> helper.builder.rows == p)
    ensures |old(helper.execer.log)| <= |helper.execer.log|
    ensures helper.execer.log[..|old(helper.execer.log)|] == old(helper.execer.log)
    ensures FromBase(helper.execer.log[|old(helper.execer.log)|..], helper.base)
    ensures helper.lens == 0 ==> helper.execer.log == old(helper.execer.log)
    ensures err.None? ==>
      && !helper.failed && helper.added == rows
      && helper.execer.log == old(helper.execer.log) + Batches(helper.base, helper.sent)
    ensures err.Some? ==>
      err == Some(InsertBatch.ArgsSizeError) ||
      LastFailed(helper.execer.respond, helper.execer.log, |old(helper.execer.log)|)
  {
    ghost var log0 := helper.execer.log;
    ghost var spec := AddFrom(helper.base, helper.lens, helper.execer.respond, rows, 0, log0, []);
    AddFromFacts(helper.base, helper.lens, helper.execer.respond, rows, log0);
    assert helper.builder.rows == [];
    for i := 0 to |rows|
      invariant helper.Valid() && !helper.failed
      invariant helper.added == rows[..i]
      invariant helper.execer.log == log0 + Batches(helper.base, helper.sent)
      invariant spec == AddFrom(helper.base, helper.lens, helper.execer.respond, rows, i, helper.execer.log, helper.builder.rows)
    {
      assert rows[..i + 1] == rows[..i] + [rows[i]];
      ghost var sentBefore := helper.sent;
      var e := helper.Add(rows[i]);
      if e.Some? {
        assert helper.execer.log == spec.0 && e == spec.2;
        return e;
      }
      if helper.sent != sentBefore {
        BatchesSnoc(helper.base, helper.sent);
        assert helper.sent[..|helper.sent| - 1] == sentBefore;
      }
    }
    assert rows[..|rows|] == rows;
    assert helper.execer.log == spec.0 && spec.2 == None;
    err := None;
  }

  /** What AddAll reports about its statements, read off AddFrom from the start. */
  lemma AddFromFacts(base: Sql.Insert, w: nat, respond: (nat, Sql.Statement) -> Sql.Reply,
                     rows: seq<Sql.Row>, log0: seq<Sql.Statement>)
    ensures var (l, p, e) := AddFrom(base, w, respond, rows, 0, log0, []);
      && FromBase(l[|log0|..], base)
      && (w == 0 ==> l == log0)
      && (e.Some? ==> e == Some(InsertBatch.ArgsSizeError) || LastFailed(respond, l, |log0|))
  {
    AddFromLog(base, w, respond, rows, 0, log0, []);
    AddFromStops(base, w, respond, rows, 0, log0, []);
  }

  /** The ON CONFLICT clause, with the SET items built by UpdateClause. */
  method ConflictClause(pks: seq<string>, cols: seq<string>, mergeStrategy: map<string, string>) returns (merge: string)
    ensures merge == UpsertSuffix(pks, cols, mergeStrategy)
  {
    var clause := Db.UpdateClause(cols, pks, mergeStrategy);
    merge := "ON CONFLICT (" + Strs.Join(pks, ",") + ") DO UPDATE SET " + clause;
  }

  /** The statement every upsert batch starts from: the first record's `tag`-tagged
      columns and the ON CONFLICT suffix. */
  function UpsertBase(table: string, pks: seq<string>, tag: string, toInsert: seq<Value>, mergeStrategy: map<string, string>): (base: Sql.Insert)
    requires toInsert != [] && toInsert[0].Record?
    ensures base.rows == [] && base.table == table
  {
    var cols := Reflect.ExtractFields(toInsert[0].fields, tag).tags;
    Sql.Insert(table, cols, [], UpsertSuffix(pks, cols, mergeStrategy))
  }

  /** UpsertManyNoPartition: nothing to do for no records; otherwise the columns come
      from the first record's `tag` tags, every record's json-tagged values are added
      to an InsertHelper whose statements end in ON CONFLICT (pks) DO UPDATE SET ...,
      the first failing Add ends the call, and Finish sends the rest. A record type
      that is not a struct panics. */
  method UpsertManyNoPartition(con: Sql.Conn, table: string, pks: seq<string>, tag: string,
                               toInsert: seq<Value>, mergeStrategy: map<string, string>)
    returns (r: Outcome<Option<Error>>)
    requires forall i :: 0 <= i < |toInsert| ==> toInsert[i].Record? == toInsert[0].Record?
    modifies con
    ensures toInsert == [] ==> r == Returns(None) && con.log == old(con.log)
    ensures toInsert != [] && !toInsert[0].Record? ==> r.Panics? && con.log == old(con.log)
    ensures toInsert != [] && toInsert[0].Record? ==>
      var base := UpsertBase(table, pks, tag, toInsert, mergeStrategy);
      var (log, err) := UpsertOutcome(base, |base.columns|, con.respond, JsonRows(toInsert), old(con.log));
      con.log == log && r == Returns(err)
    ensures toInsert != [] && toInsert[0].Record? ==>
      var rows := JsonRows(toInsert);
      var w := |UpsertBase(table, pks, tag, toInsert, mergeStrategy).columns|;
      (r == Returns(None) <==> (forall j :: 0 <= j < |rows| ==> |rows[j]| == w) && AllAccepted(con.respond, con.log, |old(con.log)|))
    ensures |old(con.log)| <= |con.log| && con.log[..|old(con.log)|] == old(con.log)
    ensures toInsert != [] && toInsert[0].Record? ==>
      FromBase(con.log[|old(con.log)|..], UpsertBase(table, pks, tag, toInsert, mergeStrategy))
    ensures toInsert != [] && toInsert[0].Record? && UpsertBase(table, pks, tag, toInsert, mergeStrategy).columns == [] ==>
      con.log == old(con.log)
    ensures r == Returns(None) && toInsert != [] && UpsertBase(table, pks, tag, toInsert, mergeStrategy).columns != [] ==>
      SentRows(con.log[|old(con.log)|..]) == JsonRows(toInsert)
    ensures r.Returns? && r.value.Some? ==>
      r.value == Some(InsertBatch.ArgsSizeError) ||
      LastFailed(con.respond, con.log, |old(con.log)|)
  {
    if |toInsert| == 0 {
      return Returns(None);
    }
    if !toInsert[0].Record? {
      return Panics("input not a struct");
    }
    var err := UpsertRecords(con, table, pks, tag, toInsert, mergeStrategy);
    ghost var base := UpsertBase(table, pks, tag, toInsert, mergeStrategy);
    UpsertOutcomeVerdict(base, |base.columns|, con.respond, JsonRows(toInsert), old(con.log));
    return Returns(err);
  }

  /** The body of UpsertManyNoPartition once the records are known to be structs:
      it does what UpsertOutcome describes. */
  method UpsertRecords(con: Sql.Conn, table: string, pks: seq<string>, tag: string,
                       toInsert: seq<Value>, mergeStrategy: map<string, string>)
    returns (err: Option<Error>)
    requires toInsert != [] && forall i :: 0 <= i < |toInsert| ==> toInsert[i].Record?
    modifies con
    ensures var base := UpsertBase(table, pks, tag, toInsert, mergeStrategy);
      (con.log, err) == UpsertOutcome(base, |base.columns|, con.respond, JsonRows(toInsert), old(con.log))
    ensures |old(con.log)| <= |con.log| && con.log[..|old(con.log)|] == old(con.log)
    ensures FromBase(con.log[|old(con.log)|..], UpsertBase(table, pks, tag, toInsert, mergeStrategy))
    ensures UpsertBase(table, pks, tag, toInsert, mergeStrategy).columns == [] ==> con.log == old(con.log)
    ensures err == None && UpsertBase(table, pks, tag, toInsert, mergeStrategy).columns != [] ==>
      SentRows(con.log[|old(con.log)|..]) == JsonRows(toInsert)
    ensures err.Some? ==>
      err == Some(InsertBatch.ArgsSizeError) ||
      LastFailed(con.respond, con.log, |old(con.log)|)
  {
    var cols := Reflect.ExtractFields(toInsert[0].fields, tag).tags;
    var merge := ConflictClause(pks, cols, mergeStrategy);
    var helper := new InsertBatch.InsertHelper(table, cols, merge, con);
    ghost var base := UpsertBase(table, pks, tag, toInsert, mergeStrategy);
    assert helper.base == base;
    var rows := JsonRows(toInsert);
    err := AddAndFinish(helper, rows);
    UpsertEnd(base, con.respond, rows, old(con.log), con.log, err);
  }

  /** What the log and error UpsertOutcome gives amount to, as UpsertRecords
      reports them. */
  lemma UpsertEnd(base: Sql.Insert, respond: (nat, Sql.Statement) -> Sql.Reply, rows: seq<Sql.Row>,
                  log0: seq<Sql.Statement>, log: seq<Sql.Statement>, err: Option<Error>)
    requires (log, err) == UpsertOutcome(base, |base.columns|, respond, rows, log0)
    ensures |log0| <= |log| && log[..|log0|] == log0
    ensures FromBase(log[|log0|..], base)
    ensures base.columns == [] ==> log == log0
    ensures err == None && base.columns != [] ==> SentRows(log[|log0|..]) == rows
    ensures err.Some? ==>
      err == Some(InsertBatch.ArgsSizeError) || LastFailed(respond, log, |log0|)
  {
    UpsertOutcomeShape(base, |base.columns|, respond, rows, log0);
    UpsertOutcomeError(base, |base.columns|, respond, rows, log0);
    UpsertOutcomeSuccess(base, |base.columns|, respond, rows, log0);
  }

  /** Add every row, then Finish when no Add failed. */
  method AddAndFinish(helper: InsertBatch.InsertHelper, rows: seq<Sql.Row>) returns (err: Option<Error>)
    requires helper.Valid() && !helper.failed && helper.added == [] && helper.sent == []
    modifies helper, helper.execer
    ensures (helper.execer.log, err) == UpsertOutcome(helper.base, helper.lens, helper.execer.respond, rows, old(helper.execer.log))
  {
    err := AddAll(helper, rows);
    if err.None? {
      err := helper.Finish();
    }
  }

  /** Adding a batch adds its statement at the end. */
  lemma BatchesSnoc(base: Sql.Insert, bs: seq<seq<Sql.Row>>)
    requires bs != []
    ensures Batches(base, bs) == Batches(base, bs[..|bs| - 1]) + [Sql.InsertInto(base.(rows := bs[|bs| - 1]))]
  {
  }

  /** One more statement adds its rows at the end. */
  lemma SentRowsSnoc(stmts: seq<Sql.Statement>, s: Sql.Statement)
    requires s.InsertInto?
    ensures SentRows(stmts + [s]) == SentRows(stmts) + s.ins.rows
  {
    assert (stmts + [s])[..|stmts|] == stmts;
  }

  // -------------------------------------------------------- create, delete

  /** The partition function a create may run first: none, or PrepareIDPartition
      with a schema and a bucket width. */
  datatype PartitionFunc = NoPartition | IdPartition(schema: string, modulos: int)

  /** What the partition function does from log `before`: nothing for none, what
      PrepareIDPartition does otherwise. It never sends an INSERT. */
  function PartitionOutcome(before: seq<Sql.Statement>, respond: (nat, Sql.Statement) -> Sql.Reply,
                            table: string, p: PartitionFunc): (res: (seq<Sql.Statement>, Outcome<Option<Error>>))
    ensures |before| <= |res.0| && res.0[..|before|] == before
    ensures forall k :: |before| <= k < |res.0| ==> !res.0[k].InsertInto?
    ensures p.NoPartition? ==> res == (before, Returns(None))
  {
    if p.NoPartition? then (before, Returns(None))
    else Db.PrepareOutcome(before, respond, table, p.schema, p.modulos)
  }

  /** Run the partition function, if any; its panic propagates. */
  method RunPartition(con: Sql.Conn, table: string, p: PartitionFunc) returns (r: Outcome<Option<Error>>)
    modifies con
    ensures p.NoPartition? ==> r == Returns(None) && con.log == old(con.log)
    ensures |old(con.log)| <= |con.log| && con.log[..|old(con.log)|] == old(con.log)
    ensures p.IdPartition? && |Strs.Split(table, '.')| < 2 ==> r.Panics? && con.log == old(con.log)
    ensures p.IdPartition? && |Strs.Split(table, '.')| >= 2 ==>
      |con.log| > |old(con.log)| && con.log[|old(con.log)|] == Db.LastValueQuery(table)
    ensures (con.log, r) == PartitionOutcome(old(con.log), con.respond, table, p)
  {
    r := Returns(None);
    if p.IdPartition? {
      r := Db.PrepareIDPartition(con, table, p.schema, p.modulos);
    }
  }

  /** The RETURNING suffix: only when columns are asked for. */
  function ReturningSuffix(returning: seq<string>): (s: string)
    ensures returning == [] <==> s == ""
  {
    if returning == [] then "" else "RETURNING " + Strs.Join(returning, ",")
  }

  /** The multi-row INSERT CreateMany sends: columns from the first record's db tags,
      one row of db-tagged values per record. */
  function CreateManyInsert(table: string, reqs: seq<Value>, returning: seq<string>): (ins: Sql.Insert)
    requires reqs != [] && forall i :: 0 <= i < |reqs| ==> reqs[i].Record?
    ensures |ins.rows| == |reqs|
    ensures forall i :: 0 <= i < |reqs| ==> ins.rows[i] == Reflect.ExtractFields(reqs[i].fields, "db").vals
    ensures ins.columns == Reflect.ExtractFields(reqs[0].fields, "db").tags
  {
    Sql.Insert(table, Reflect.ExtractFields(reqs[0].fields, "db").tags,
               seq(|reqs|, i requires 0 <= i < |reqs| => Reflect.ExtractFields(reqs[i].fields, "db").vals),
               ReturningSuffix(returning))
  }

  /** The ids scanned from returned rows, in row order, stopping at the first row
      that is not a single integer. */
  function ScanIds(rows: seq<Sql.Row>): (r: (seq<int>, Option<Error>))
    ensures |r.0| <= |rows|
    ensures r.1.None? ==> |r.0| == |rows|
    ensures r.1.Some? ==> r.1 == Some(Driver("sql: Scan error"))
    decreases |rows|
  {
    if rows == [] then ([], None)
    else if |rows[0]| == 1 && rows[0][0].Int? then
      var (rest, e) := ScanIds(rows[1..]);
      ([rows[0][0].i] + rest, e)
    else ([], Some(Driver("sql: Scan error")))
  }

  /** The ids are the single-integer rows before the first row that is not one;
      with no such row every row gives its id. */
  lemma {:induction false} ScanIdsMeaning(rows: seq<Sql.Row>)
    ensures var (ids, err) := ScanIds(rows);
      && (forall i :: 0 <= i < |ids| ==> rows[i] == [Int(ids[i])])
      && (err.Some? ==> |ids| < |rows| && !(|rows[|ids|]| == 1 && rows[|ids|][0].Int?))
    decreases |rows|
  {
    if rows != [] && |rows[0]| == 1 && rows[0][0].Int? {
      ScanIdsMeaning(rows[1..]);
      var (ids, err) := ScanIds(rows);
      assert forall i :: 1 <= i < |ids| ==> rows[i] == rows[1..][i - 1] && ids[i] == ids[1..][i - 1];
      assert rows[0] == [Int(ids[0])];
    }
  }

  /** The rows.Next loop of CreateMany: append each scanned id, return at the first
      scan error with the ids so far. */
  method CollectIds(rows: seq<Sql.Row>) returns (ids: seq<int>, err: Option<Error>)
    ensures (ids, err) == ScanIds(rows)
  {
    ids := [];
    var i := 0;
    assert rows[0..] == rows;
    while i < |rows|
      invariant 0 <= i <= |rows|
      invariant ScanIds(rows).0 == ids + ScanIds(rows[i..]).0
      invariant ScanIds(rows).1 == ScanIds(rows[i..]).1
    {
      ScanIdsStep(rows, i);
      if !(|rows[i]| == 1 && rows[i][0].Int?) {
        assert ids + [] == ids;
        return ids, Some(Driver("sql: Scan error"));
      }
      ids := ids + [rows[i][0].i];
      i := i + 1;
    }
    err := None;
    assert rows[i..] == [];
    assert ids + [] == ids;
  }

  /** One step of the scan: a single-integer row contributes its id and the scan
      goes on; any other row stops it with no further ids. */
  lemma ScanIdsStep(rows: seq<Sql.Row>, i: nat)
    requires i < |rows|
    ensures |rows[i]| == 1 && rows[i][0].Int? ==>
      ScanIds(rows[i..]) == ([rows[i][0].i] + ScanIds(rows[i + 1..]).0, ScanIds(rows[i + 1..]).1)
    ensures !(|rows[i]| == 1 && rows[i][0].Int?) ==> ScanIds(rows[i..]) == ([], Some(Driver("sql: Scan error")))
  {
    assert rows[i..][1..] == rows[i + 1..];
  }

  /** CreateMany as written: no records is a no-op; the partition function runs
      first and its error aborts; then one INSERT of all records (RETURNING only when
      asked) is queried and the returned ids are scanned. When that query fails,
      the deferred rows.Close() runs on a nil *sql.Rows and the call panics. */
  method CreateMany(con: Sql.Conn, table: string, reqs: seq<Value>, returning: seq<string>, partition: PartitionFunc)
    returns (r: Outcome<(seq<int>, Option<Error>)>)
    requires forall i :: 0 <= i < |reqs| ==> reqs[i].Record? == reqs[0].Record?
    modifies con
    ensures reqs == [] ==> r == Returns(([], None)) && con.log == old(con.log)
    ensures reqs != [] && partition.IdPartition? && |Strs.Split(table, '.')| >= 2 ==>
      |con.log| > |old(con.log)| && con.log[|old(con.log)|] == Db.LastValueQuery(table)
    ensures reqs != [] && reqs[0].Record? && partition.NoPartition? ==>
      var st := Sql.InsertInto(CreateManyInsert(table, reqs, returning));
      var reply := con.respond(|old(con.log)|, st);
      && con.log == old(con.log) + [st]
      && (reply.Failed? ==> r.Panics?)
      && (reply.Rows? ==> r == Returns(ScanIds(reply.rows)))
    ensures reqs != [] ==>
      var (mid, pr) := PartitionOutcome(old(con.log), con.respond, table, partition);
      && (pr.Panics? || pr.value.Some? || !reqs[0].Record? ==> con.log == mid)
      && (pr.Panics? ==> r.Panics?)
      && (pr.Returns? && pr.value.Some? ==> r == Returns(([], pr.value)))
      && (pr == Returns(None) && !reqs[0].Record? ==> r.Panics?)
      && (pr == Returns(None) && reqs[0].Record? ==>
            var st := Sql.InsertInto(CreateManyInsert(table, reqs, returning));
            var reply := con.respond(|mid|, st);
            && con.log == mid + [st]
            && (reply.Failed? ==> r.Panics?)
            && (reply.Rows? ==> r == Returns(ScanIds(reply.rows))))
  {
    if |reqs| == 0 {
      return Returns(([], None));
    }
    var perr := RunPartition(con, table, partition);
    if perr.Panics? {
      return Panics(perr.reason);
    }
    if perr.value.Some? {
      return Returns(([], perr.value));
    }
    if !reqs[0].Record? {
      return Panics("input not a struct");
    }
    var ins := BuildInsert(table, reqs, returning);
    var reply := con.Query(Sql.InsertInto(ins));
    if reply.Failed? {
      return Panics("invalid memory address or nil pointer dereference");
    }
    var ids, err := CollectIds(reply.rows);
    return Returns((ids, err));
  }

  /** CreateMany with the query error checked before the deferred Close: a failing
      insert returns its error and no ids instead of panicking. */
  method CreateManyChecked(con: Sql.Conn, table: string, reqs: seq<Value>, returning: seq<string>, partition: PartitionFunc)
    returns (r: Outcome<(seq<int>, Option<Error>)>)
    requires forall i :: 0 <= i < |reqs| ==> reqs[i].Record?
    modifies con
    ensures partition.NoPartition? ==> r.Returns?
    ensures reqs == [] ==> r == Returns(([], None)) && con.log == old(con.log)
    ensures reqs != [] && partition.NoPartition? ==>
      var st := Sql.InsertInto(CreateManyInsert(table, reqs, returning));
      var reply := con.respond(|old(con.log)|, st);
      && con.log == old(con.log) + [st]
      && (reply.Failed? ==> r == Returns(([], Some(reply.err))))
      && (reply.Rows? ==> r == Returns(ScanIds(reply.rows)))
    ensures reqs != [] ==>
      var (mid, pr) := PartitionOutcome(old(con.log), con.respond, table, partition);
      && (pr.Panics? ==> r.Panics? && con.log == mid)
      && (pr.Returns? && pr.value.Some? ==> r == Returns(([], pr.value)) && con.log == mid)
      && (pr == Returns(None) ==>
            var st := Sql.InsertInto(CreateManyInsert(table, reqs, returning));
            var reply := con.respond(|mid|, st);
            && con.log == mid + [st]
            && (reply.Failed? ==> r == Returns(([], Some(reply.err))))
            && (reply.Rows? ==> r == Returns(ScanIds(reply.rows))))
  {
    if |reqs| == 0 {
      return Returns(([], None));
    }
    var perr := RunPartition(con, table, partition);
    if perr.Panics? {
      return Panics(perr.reason);
    }
    if perr.value.Some? {
      return Returns(([], perr.value));
    }
    var ins := BuildInsert(table, reqs, returning);
    var reply := con.Query(Sql.InsertInto(ins));
    if reply.Failed? {
      return Returns(([], Some(reply.err)));
    }
    var ids, err := CollectIds(reply.rows);
    return Returns((ids, err));
  }

  /** The builder loop of CreateMany: columns from the first record, then one
      Values call per record. */
  method BuildInsert(table: string, reqs: seq<Value>, returning: seq<string>) returns (ins: Sql.Insert)
    requires reqs != [] && forall i :: 0 <= i < |reqs| ==> reqs[i].Record? == reqs[0].Record?
    requires reqs[0].Record?
    ensures ins == CreateManyInsert(table, reqs, returning)
  {
    var cols := Reflect.ExtractFields(reqs[0].fields, "db").tags;
    ins := Sql.Insert(table, cols, [], "");
    if returning != [] {
      ins := ins.(suffix := "RETURNING " + Strs.Join(returning, ","));
    }
    for i := 0 to |reqs|
      invariant ins.table == table && ins.columns == cols && ins.suffix == ReturningSuffix(returning)
      invariant ins.rows == seq(i, k requires 0 <= k < i => Reflect.ExtractFields(reqs[k].fields, "db").vals)
    {
      ins := ins.(rows := ins.rows + [Reflect.ExtractFields(reqs[i].fields, "db").vals]);
    }
  }

  /** Create: the partition function first; then one INSERT of the record's db-tagged
      columns. With RETURNING the first column of the returned row is scanned as
      the id (no row is sql.ErrNoRows); without it the statement is only executed
      and the id stays 0. */
  method Create(con: Sql.Conn, table: string, req: Value, returning: seq<string>, partition: PartitionFunc)
    returns (r: Outcome<(int, Option<Error>)>)
    modifies con
    ensures partition.NoPartition? && !req.Record? ==> r.Panics?
    ensures partition.NoPartition? && req.Record? ==>
      var ex := Reflect.ExtractFields(req.fields, "db");
      var st := Sql.InsertInto(Sql.Insert(table, ex.tags, [ex.vals], ReturningSuffix(returning)));
      var reply := con.respond(|old(con.log)|, st);
      && con.log == old(con.log) + [st]
      && (returning != [] ==> r == Returns(Sql.ScanInt(reply)))
      && (returning == [] ==> r == Returns((0, Sql.ErrorOf(reply))))
    ensures
      var (mid, pr) := PartitionOutcome(old(con.log), con.respond, table, partition);
      && (pr.Panics? || pr.value.Some? || !req.Record? ==> con.log == mid)
      && (pr.Panics? ==> r.Panics?)
      && (pr.Returns? && pr.value.Some? ==> r == Returns((0, pr.value)))
      && (pr == Returns(None) && !req.Record? ==> r.Panics?)
      && (pr == Returns(None) && req.Record? ==>
            var ex := Reflect.ExtractFields(req.fields, "db");
            var st := Sql.InsertInto(Sql.Insert(table, ex.tags, [ex.vals], ReturningSuffix(returning)));
            var reply := con.respond(|mid|, st);
            && con.log == mid + [st]
            && (returning != [] ==> r == Returns(Sql.ScanInt(reply)))
            && (returning == [] ==> r == Returns((0, Sql.ErrorOf(reply)))))
  {
    var perr := RunPartition(con, table, partition);
    if perr.Panics? {
      return Panics(perr.reason);
    }
    if perr.value.Some? {
      return Returns((0, perr.value));
    }
    if !req.Record? {
      return Panics("input not a struct");
    }
    var ex := Reflect.ExtractFields(req.fields, "db");
    var ins := Sql.Insert(table, ex.tags, [ex.vals], "");
    if returning != [] {
      ins := ins.(suffix := "RETURNING " + Strs.Join(returning, ","));
      var reply := con.Query(Sql.InsertInto(ins));
      return Returns(Sql.ScanInt(reply));
    } else {
      var err := con.Exec(Sql.InsertInto(ins));
      return Returns((0, err));
    }
  }

  /** Delete: with no predicates nothing is deleted and no statement is sent;
      otherwise one DELETE with the predicates ANDed. */
  method Delete(con: Sql.Conn, table: string, wheres: seq<string>) returns (err: Option<Error>)
    modifies con
    ensures wheres == [] ==> err == None && con.log == old(con.log)
    ensures wheres != [] ==>
      var st := Sql.DeleteFrom(table, Sql.WhereText(Db.AndWhere(wheres)));
      con.log == old(con.log) + [st] && err == Sql.ErrorOf(con.respond(|old(con.log)|, st))
  {
    if |wheres| == 0 {
      return None;
    }
    err := con.Exec(Sql.DeleteFrom(table, Sql.WhereText(Db.AndWhere(wheres))));
  }

  // ------------------------------------------------------------ list, get, exist

  /** The page query and the COUNT query of a list helper. */
  function PageQuery(columns: seq<string>, table: string, where: Sql.Where, order: Option<string>, page: Paging.Page): Sql.Statement
  {
    Sql.Select(columns, table, where, order, Some(page.Offset()), Some(page.Limit()))
  }

  function CountQuery(countExpr: string, table: string, where: Sql.Where): Sql.Statement
  {
    Sql.Select([countExpr], table, where, None, None, None)
  }

  /** The outcome of a list helper that started from log `before`: the page query
      is sent; if it fails its error is returned with no rows and nothing else is
      sent; otherwise its rows are returned and the COUNT query is sent, its first
      column becoming the total. */
  ghost predicate ListedAfter(before: seq<Sql.Statement>, con: Sql.Conn, pageQuery: Sql.Statement, countQuery: Sql.Statement,
                              ret: seq<Sql.Row>, total: int, err: Option<Error>)
    reads con
  {
    var reply := con.respond(|before|, pageQuery);
    if reply.Failed? then
      con.log == before + [pageQuery] && ret == [] && total == 0 && err == Some(reply.err)
    else
      && con.log == before + [pageQuery, countQuery]
      && ret == reply.rows
      && (total, err) == Sql.ScanInt(con.respond(|before| + 1, countQuery))
  }

  /** The two-step list flow: the page query, then (only if it succeeded) the count. */
  method ListAndCount(con: Sql.Conn, pageQuery: Sql.Statement, countQuery: Sql.Statement)
    returns (ret: seq<Sql.Row>, total: int, err: Option<Error>)
    modifies con
    ensures ListedAfter(old(con.log), con, pageQuery, countQuery, ret, total, err)
  {
    var reply := con.Query(pageQuery);
    if reply.Failed? {
      return [], 0, Some(reply.err);
    }
    ret := reply.rows;
    var countReply := con.Query(countQuery);
    var scanned := Sql.ScanInt(countReply);
    total, err := scanned.0, scanned.1;
  }

  /** ListS: the columns are the db tags of T's zero value; the page query and the
      COUNT query share the ANDed WHERE text, and the order gets a trailing "1". */
  method ListS(con: Sql.Conn, page: Paging.Page, table: string, wheres: seq<string>, order: seq<string>, zero: Value)
    returns (r: Outcome<(seq<Sql.Row>, int, Option<Error>)>)
    modifies con
    ensures !zero.Record? ==> r.Panics? && con.log == old(con.log)
    ensures zero.Record? ==>
      var where := Sql.WhereText(Db.AndWhere(wheres));
      var q := PageQuery(Reflect.ExtractFields(zero.fields, "db").tags, table, where, Some(Strs.Join(order + ["1"], ",")), page);
      r.Returns? && ListedAfter(old(con.log), con, q, CountQuery("COUNT(*)", table, where), r.value.0, r.value.1, r.value.2)
  {
    var order' := order + ["1"];
    if !zero.Record? {
      return Panics("input not a struct");
    }
    var cols := Reflect.ExtractFields(zero.fields, "db").tags;
    var where := Sql.WhereText(Db.AndWhere(wheres));
    var ret, total, err := ListAndCount(con, PageQuery(cols, table, where, Some(Strs.Join(order', ",")), page),
                                        CountQuery("COUNT(*)", table, where));
    return Returns((ret, total, err));
  }

  /** ListFlex: "*" unless columns are chosen; the WHERE always ends in "1=1" and the
      order in "(SELECT NULL)"; the COUNT query uses the same WHERE text. */
  method ListFlex(con: Sql.Conn, page: Paging.Page, table: string, selects: seq<string>, wheres: seq<string>, orderby: seq<string>)
    returns (ret: seq<Sql.Row>, total: int, err: Option<Error>)
    modifies con
    ensures var w := Sql.WhereText(Strs.Join(wheres + ["1=1"], " AND "));
      var cols := if selects == [] then ["*"] else [Strs.Join(selects, ",")];
      var q := PageQuery(cols, table, w, Some(Strs.Join(orderby + ["(SELECT NULL)"], ",")), page);
      ListedAfter(old(con.log), con, q, CountQuery("COUNT(*)", table, w), ret, total, err)
  {
    var toSelect := "*";
    var where' := wheres + ["1=1"];
    var orderby' := orderby + ["(SELECT NULL)"];
    if |selects| != 0 {
      toSelect := Strs.Join(selects, ",");
    }
    var w := Strs.Join(where', " AND ");
    var o := Strs.Join(orderby', ",");
    ret, total, err := ListAndCount(con, PageQuery([toSelect], table, Sql.WhereText(w), Some(o), page),
                                    CountQuery("COUNT(*)", table, Sql.WhereText(w)));
  }

  /** ListM: WHERE only for a non-empty equality map, ORDER BY only for a non-empty
      order; the COUNT query always takes the map (an empty one selects every row). */
  method ListM(con: Sql.Conn, page: Paging.Page, table: string, where: map<string, Value>, orderBy: seq<string>)
    returns (ret: seq<Sql.Row>, total: int, err: Option<Error>)
    modifies con
    ensures var q := PageQuery(["*"], table, if |where| == 0 then Sql.NoWhere else Sql.WhereEq(where),
                               if orderBy == [] then None else Some(Strs.Join(orderBy, ",")), page);
      ListedAfter(old(con.log), con, q, CountQuery("COUNT(*)", table, Sql.WhereEq(where)), ret, total, err)
  {
    var w := Sql.NoWhere;
    var o: Option<string> := None;
    if |where| != 0 {
      w := Sql.WhereEq(where);
    }
    if |orderBy| != 0 {
      o := Some(Strs.Join(orderBy, ","));
    }
    ret, total, err := ListAndCount(con, PageQuery(["*"], table, w, o, page),
                                    CountQuery("COUNT(*)", table, Sql.WhereEq(where)));
  }

  /** GetM: the first row matching the equality map; no row becomes a 404 naming
      the Go type, any other failure is returned as it is. */
  method GetM(con: Sql.Conn, table: string, where: map<string, Value>, typeName: string)
    returns (ret: Option<Sql.Row>, err: Option<Error>)
    modifies con
    ensures var q := Sql.Select(["*"], table, Sql.WhereEq(where), None, None, None);
      var reply := con.respond(|old(con.log)|, q);
      && con.log == old(con.log) + [q]
      && (reply.Failed? ==> ret == None && err == Some(reply.err))
      && (reply.Rows? && reply.rows == [] ==>
            ret == None && err == Some(Coded(StatusNotFound, "resource not found", map["type" := typeName])))
      && (reply.Rows? && reply.rows != [] ==> ret == Some(reply.rows[0]) && err == None)
  {
    var reply := con.Query(Sql.Select(["*"], table, Sql.WhereEq(where), None, None, None));
    if reply.Failed? {
      return None, Some(reply.err);
    }
    if reply.rows == [] {
      return None, Some(Coded(StatusNotFound, "resource not found", map["type" := typeName]));
    }
    return Some(reply.rows[0]), None;
  }

  /** ExistS: count the rows matching the ANDed predicates; exists iff the count is
      positive (a failed count reads as 0). */
  method ExistS(con: Sql.Conn, table: string, wheres: seq<string>) returns (found: bool, err: Option<Error>)
    modifies con
    ensures var q := CountQuery("count(*)", table, Sql.WhereText(Db.AndWhere(wheres)));
      var (cnt, e) := Sql.ScanInt(con.respond(|old(con.log)|, q));
      con.log == old(con.log) + [q] && err == e && (found <==> cnt > 0)
  {
    var reply := con.Query(CountQuery("count(*)", table, Sql.WhereText(Db.AndWhere(wheres))));
    var scanned := Sql.ScanInt(reply);
    return scanned.0 > 0, scanned.1;
  }

  /** ExistM: the same with an equality map. */
  method ExistM(con: Sql.Conn, table: string, where: map<string, Value>) returns (ret: bool, err: Option<Error>)
    modifies con
    ensures var q := CountQuery("COUNT(*)", table, Sql.WhereEq(where));
      var (cnt, e) := Sql.ScanInt(con.respond(|old(con.log)|, q));
      con.log == old(con.log) + [q] && err == e && (ret <==> cnt > 0)
  {
    var reply := con.Query(CountQuery("COUNT(*)", table, Sql.WhereEq(where)));
    var scanned := Sql.ScanInt(reply);
    ret, err := scanned.0 > 0, scanned.1;
  }
}
