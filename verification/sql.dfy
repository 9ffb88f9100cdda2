/** SQL statements as values, and the database connection the helpers are handed
    (sqlx.Execer, squirrel.BaseRunner, *sqlx.DB). A statement keeps what the
    helpers put into it (table, columns, rows, suffix, WHERE, ORDER BY, OFFSET,
    LIMIT); the placeholder text squirrel renders is only approximated. */
module Sql {
  import opened Common
  import Strs

  /** One row of bound arguments. */
  type Row = seq<Value>

  /** The arguments of a list of rows, row after row. */
  function Flatten(rows: seq<Row>): (args: seq<Value>)
    ensures rows == [] ==> args == []
  {
    if rows == [] then [] else Flatten(rows[..|rows| - 1]) + rows[|rows| - 1]
  }

  /** Flattening distributes over concatenation of row lists. */
  lemma {:induction false} FlattenAppend(a: seq<Row>, b: seq<Row>)
    ensures Flatten(a + b) == Flatten(a) + Flatten(b)
    decreases |b|
  {
    if b == [] {
      assert a + b == a;
    } else {
      var ab := a + b;
      assert ab[..|ab| - 1] == a + b[..|b| - 1];
      FlattenAppend(a, b[..|b| - 1]);
    }
  }

  /** With every row `w` wide there are `w` arguments per row. */
  lemma {:induction false} FlattenLength(rows: seq<Row>, w: nat)
    requires forall i :: 0 <= i < |rows| ==> |rows[i]| == w
    ensures |Flatten(rows)| == w * |rows|
    decreases |rows|
  {
    if rows != [] {
      FlattenLength(rows[..|rows| - 1], w);
      assert w * |rows| == w * (|rows| - 1) + w;
    }
  }

  /** squirrel.InsertBuilder: INSERT INTO table (columns) VALUES rows suffix. An
      empty suffix stands for no Suffix call. */
  datatype Insert = Insert(table: string, columns: seq<string>, rows: seq<Row>, suffix: string)
  {
    /** The arguments ToSql binds: every row's values, in order. */
    function Args(): seq<Value>
    {
      Flatten(rows)
    }
  }

  /** "$n" placeholders for `count` arguments numbered from `first`. */
  function Placeholders(first: nat, count: nat): seq<string>
    decreases count
  {
    if count == 0 then [] else ["$" + Strs.NatToString(first)] + Placeholders(first + 1, count - 1)
  }

  /** The VALUES tuples of `rows`, numbering placeholders from `first`. */
  function Tuples(rows: seq<Row>, first: nat): seq<string>
    decreases |rows|
  {
    if rows == [] then []
    else ["(" + Strs.Join(Placeholders(first, |rows[0]|), ",") + ")"] + Tuples(rows[1..], first + |rows[0]|)
  }

  /** The statement text ToSql renders with dollar placeholders. */
  function InsertText(ins: Insert): (text: string)
    ensures Strs.HasPrefix(text, "INSERT INTO ")
  {
    var head := "INSERT INTO " + ins.table + " (" + Strs.Join(ins.columns, ",") + ") VALUES ";
    var text := head + Strs.Join(Tuples(ins.rows, 1), ",") + (if ins.suffix == "" then "" else " " + ins.suffix);
    assert text[..12] == head[..12];
    text
  }

  /** The three WHERE forms the helpers use: none, one text predicate, and
      column = value equalities (squirrel.Eq / a map). */
  datatype Where = NoWhere | WhereText(text: string) | WhereEq(eq: map<string, Value>)

  datatype Statement =
    | InsertInto(ins: Insert)
    | Select(columns: seq<string>, from: string, where: Where, orderBy: Option<string>,
             offset: Option<nat>, limit: Option<nat>)
    | DeleteFrom(from: string, where: Where)
    | Raw(text: string)

  /** What the database answers: the result rows, or an error. */
  datatype Reply = Rows(rows: seq<Row>) | Failed(err: Error)

  function ErrorOf(r: Reply): (e: Option<Error>)
    ensures e.None? <==> r.Rows?
  {
    if r.Failed? then Some(r.err) else None
  }

  /** The injected connection. Every statement sent is appended to `log`; the
      answer to the i-th statement is `respond(i, statement)`, so a run of the
      helpers is determined by the statements it sends and the database's answers. */
  class Conn {
    var log: seq<Statement>
    const respond: (nat, Statement) -> Reply

    constructor (respond: (nat, Statement) -> Reply)
      ensures log == [] && this.respond == respond
    {
      log := [];
      this.respond := respond;
    }

    /** Exec: send a statement, keep only its error. */
    method Exec(s: Statement) returns (err: Option<Error>)
      modifies this
      ensures log == old(log) + [s]
      ensures err == ErrorOf(respond(|old(log)|, s))
    {
      err := ErrorOf(respond(|log|, s));
      log := log + [s];
    }

    /** Query: send a statement, get its rows or its error. */
    method Query(s: Statement) returns (reply: Reply)
      modifies this
      ensures log == old(log) + [s]
      ensures reply == respond(|old(log)|, s)
    {
      reply := respond(|log|, s);
      log := log + [s];
    }
  }

  /** Scanning the first column of the first row into an int: sql.ErrNoRows
      without rows, a scan error unless the row is a single integer. */
  function ScanInt(r: Reply): (res: (int, Option<Error>))
    ensures res.1.None? <==> r.Rows? && |r.rows| > 0 && |r.rows[0]| == 1 && r.rows[0][0].Int?
    ensures res.1.None? ==> res.0 == r.rows[0][0].i
    ensures res.1.Some? ==> res.0 == 0
  {
    if r.Failed? then (0, Some(r.err))
    else if r.rows == [] then (0, Some(NoRows))
    else if |r.rows[0]| == 1 && r.rows[0][0].Int? then (r.rows[0][0].i, None)
    else (0, Some(Driver("sql: Scan error")))
  }
}
