/** The SQL-building helpers of util/db.go around the batch writer: the ON CONFLICT
    update clause, WHERE conjunction, placeholder budgeting, literal rendering, range
    and list partitions and the id-partition coordinator, VALUES lists, array
    literals, and the connection-pool defaults. */
module Db {
  import opened Common
  import Strs
  import Values
  import Misc
  import Functools
  import Sql
  import Paging

  /** PostgreSQL's limit on the parameters of one statement (an Int16 count in the
      Bind message of the frontend/backend protocol). */
  const PostgresPlaceholderLimit: int := 65535

  // ---------------------------------------------------------------- DBConfig

  const Second: int := 1_000_000_000

  /** Connection-pool settings; zero means "not set". Durations are nanoseconds. */
  class DBConfig {
    var maxOpenConn: int
    var maxIdelConn: int
    var connMaxIdleTime: int
    var connMaxLifetime: int

    constructor (maxOpenConn: int, maxIdelConn: int, connMaxIdleTime: int, connMaxLifetime: int)
      ensures this.maxOpenConn == maxOpenConn && this.maxIdelConn == maxIdelConn
      ensures this.connMaxIdleTime == connMaxIdleTime && this.connMaxLifetime == connMaxLifetime
    {
      this.maxOpenConn := maxOpenConn;
      this.maxIdelConn := maxIdelConn;
      this.connMaxIdleTime := connMaxIdleTime;
      this.connMaxLifetime := connMaxLifetime;
    }

    /** SetDefault: every unset field gets its default (100 open connections, 10
        idle ones, 60 s idle time, 300 s lifetime); set fields are kept. Afterwards
        no field is unset, so a second call changes nothing. */
    method SetDefault()
      modifies this
      ensures maxOpenConn == if old(maxOpenConn) == 0 then 100 else old(maxOpenConn)
      ensures maxIdelConn == if old(maxIdelConn) == 0 then 10 else old(maxIdelConn)
      ensures connMaxIdleTime == if old(connMaxIdleTime) == 0 then 60 * Second else old(connMaxIdleTime)
      ensures connMaxLifetime == if old(connMaxLifetime) == 0 then 300 * Second else old(connMaxLifetime)
      ensures maxOpenConn != 0 && maxIdelConn != 0 && connMaxIdleTime != 0 && connMaxLifetime != 0
    {
      if maxOpenConn == 0 {
        maxOpenConn := 100;
      }
      if maxIdelConn == 0 {
        maxIdelConn := 10;
      }
      if connMaxIdleTime == 0 {
        connMaxIdleTime := Second * 60;
      }
      if connMaxLifetime == 0 {
        connMaxLifetime := Second * 300;
      }
    }
  }

  // ------------------------------------------------------------- UpdateClause

  /** The key Except compares column names by: ToStr of a string. */
  function ColumnKey(s: string): string
  {
    Misc.ToStr(Text(s))
  }

  /** The headers that are not primary keys, in header order. */
  function UpdateColumns(headers: seq<string>, pks: seq<string>): (cols: seq<string>)
    ensures forall i :: 0 <= i < |cols| ==> cols[i] in headers && cols[i] !in pks
    ensures forall i :: 0 <= i < |headers| && headers[i] !in pks ==> headers[i] in cols
  {
    var cols := Functools.Without(headers, Functools.KeysOf(pks, ColumnKey), ColumnKey);
    ColumnKeysMatchNames(pks);
    cols
  }

  /** A column's key is among the keys of pks exactly when the column is among pks. */
  lemma ColumnKeysMatchNames(pks: seq<string>)
    ensures forall c :: ColumnKey(c) in Functools.KeysOf(pks, ColumnKey) <==> c in pks
  {
    forall c
      ensures ColumnKey(c) in Functools.KeysOf(pks, ColumnKey) <==> c in pks
    {
      if ColumnKey(c) in Functools.KeysOf(pks, ColumnKey) {
        var i :| 0 <= i < |pks| && ColumnKey(pks[i]) == ColumnKey(c);
        Misc.ToStrTextInjective(pks[i], c);
      }
      if c in pks {
        var i :| 0 <= i < |pks| && pks[i] == c;
        assert ColumnKey(pks[i]) in Functools.KeysOf(pks, ColumnKey);
      }
    }
  }

  /** One SET item: `col=<merge strategy>` when the map has one for the column,
      `col=excluded.col` (take the proposed row's value) otherwise. */
  function SetItem(col: string, mergeStrategy: map<string, string>): (item: string)
    ensures Strs.HasPrefix(item, col + "=")
    ensures col in mergeStrategy ==> item[|col| + 1..] == mergeStrategy[col]
    ensures col !in mergeStrategy ==> item[|col| + 1..] == "excluded." + col
  {
    var item := if col in mergeStrategy then col + "=" + mergeStrategy[col] else col + "=excluded." + col;
    assert item[..|col| + 1] == col + "=";
    item
  }

  /** The SET clause for the non-key headers, in header order, joined by ", ". */
  function SetClause(headers: seq<string>, pks: seq<string>, mergeStrategy: map<string, string>): (r: string)
    ensures (forall i :: 0 <= i < |headers| ==> headers[i] in pks) ==> r == ""
  {
    var cols := UpdateColumns(headers, pks);
    Strs.Join(seq(|cols|, i requires 0 <= i < |cols| => SetItem(cols[i], mergeStrategy)), ", ")
  }

  /** UpdateClause: compute the non-key headers with Except, then build one SET
      item per column. */
  method UpdateClause(headers: seq<string>, pks: seq<string>, mergeStrategy: map<string, string>) returns (r: string)
    ensures r == SetClause(headers, pks, mergeStrategy)
  {
    var toUpdate := Functools.Except(headers, pks, ColumnKey);
    var tmp := SetItems(toUpdate, mergeStrategy);
    r := Strs.Join(tmp, ", ");
  }

  /** The loop of UpdateClause: one SET item per column, in order. */
  method SetItems(toUpdate: seq<string>, mergeStrategy: map<string, string>) returns (tmp: seq<string>)
    ensures tmp == seq(|toUpdate|, k requires 0 <= k < |toUpdate| => SetItem(toUpdate[k], mergeStrategy))
  {
    tmp := [];
    for i := 0 to |toUpdate|
      invariant |tmp| == i
      invariant forall k :: 0 <= k < i ==> tmp[k] == SetItem(toUpdate[k], mergeStrategy)
    {
      var item;
      if toUpdate[i] in mergeStrategy {
        item := toUpdate[i] + "=" + mergeStrategy[toUpdate[i]];
      } else {
        item := toUpdate[i] + "=excluded." + toUpdate[i];
      }
      assert item == SetItem(toUpdate[i], mergeStrategy);
      tmp := tmp + [item];
    }
  }

  /** Without primary keys every header gets an item, in header order; a header that
      is a primary key never does. */
  lemma {:induction false} UpdateColumnsNoKeys(headers: seq<string>)
    ensures UpdateColumns(headers, []) == headers
  {
    Functools.WithoutNothing(headers, Functools.KeysOf([], ColumnKey), ColumnKey);
  }

  /** A primary key named again among the headers is skipped, and a header appended
      after the others adds its item at the end of the clause. */
  lemma UpdateClauseAppend(headers: seq<string>, pks: seq<string>, mergeStrategy: map<string, string>, h: string)
    requires UpdateColumns(headers, pks) != []
    ensures h in pks ==> SetClause(headers + [h], pks, mergeStrategy) == SetClause(headers, pks, mergeStrategy)
    ensures h !in pks ==> SetClause(headers + [h], pks, mergeStrategy)
                          == SetClause(headers, pks, mergeStrategy) + ", " + SetItem(h, mergeStrategy)
  {
    var hs := headers + [h];
    assert hs[..|hs| - 1] == headers;
    ColumnKeysMatchNames(pks);
    var cols := UpdateColumns(headers, pks);
    var items := seq(|cols|, i requires 0 <= i < |cols| => SetItem(cols[i], mergeStrategy));
    if h !in pks {
      var cols' := UpdateColumns(hs, pks);
      assert cols' == cols + [h];
      var items' := seq(|cols'|, i requires 0 <= i < |cols'| => SetItem(cols'[i], mergeStrategy));
      assert items' == items + [SetItem(h, mergeStrategy)];
      Strs.JoinSnoc(items, SetItem(h, mergeStrategy), ", ");
    }
  }

  /** UpsertQuery: rewrite every column name in place as `col=excluded.col` and join
      them with ", "; the result is the update clause with no keys and no merge
      strategies. */
  method UpsertQuery(cols: array<string>) returns (r: string)
    modifies cols
    ensures forall i :: 0 <= i < cols.Length ==> cols[i] == old(cols[i]) + "=excluded." + old(cols[i])
    ensures r == Strs.Join(cols[..], ", ")
    ensures r == SetClause(old(cols[..]), [], map[])
  {
    ghost var orig := cols[..];
    for i := 0 to cols.Length
      invariant forall k :: 0 <= k < i ==> cols[k] == orig[k] + "=excluded." + orig[k]
      invariant forall k :: i <= k < cols.Length ==> cols[k] == orig[k]
    {
      cols[i] := cols[i] + "=excluded." + cols[i];
    }
    r := Strs.Join(cols[..], ", ");
    assert cols[..] == Excluded(orig);
    SetClauseNoKeys(orig);
  }

  /** Every column rewritten as `col=excluded.col`. */
  function Excluded(cols: seq<string>): (r: seq<string>)
    ensures |r| == |cols|
  {
    seq(|cols|, i requires 0 <= i < |cols| => cols[i] + "=excluded." + cols[i])
  }

  /** With no keys and no merge strategies the SET clause takes every column from
      the proposed row. */
  lemma SetClauseNoKeys(cols: seq<string>)
    ensures SetClause(cols, [], map[]) == Strs.Join(Excluded(cols), ", ")
  {
    UpdateColumnsNoKeys(cols);
    var none: map<string, string> := map[];
    var items := seq(|cols|, i requires 0 <= i < |cols| => SetItem(cols[i], none));
    assert items == Excluded(cols) by {
      forall i | 0 <= i < |cols|
        ensures items[i] == Excluded(cols)[i]
      {
        assert cols[i] !in none;
      }
    }
  }

  // ------------------------------------------------- AndWhere, placeholder budget

  /** AndWhere: the predicates joined by " AND ", or the always-true "1=1" for none. */
  function AndWhere(wheres: seq<string>): (r: string)
    ensures wheres == [] ==> r == "1=1"
    ensures |wheres| == 1 ==> r == wheres[0]
  {
    Strs.Join(if wheres == [] then ["1=1"] else wheres, " AND ")
  }

  /** One more predicate is one more " AND " conjunct. */
  lemma AndWhereSnoc(wheres: seq<string>, w: string)
    requires wheres != []
    ensures AndWhere(wheres + [w]) == AndWhere(wheres) + " AND " + w
  {
    Strs.JoinSnoc(wheres, w, " AND ");
  }

  /** CloseToPlaceholderLimit: the count grown by stride while it stays within the
      limit, and 0 (start over) when it would not. */
  function CloseToPlaceholderLimit(cnt: int, stride: int): (r: int)
    ensures r <= PostgresPlaceholderLimit
    ensures r == 0 || r == cnt + stride
    ensures r != cnt + stride ==> cnt + stride > PostgresPlaceholderLimit
  {
    if PostgresPlaceholderLimit - cnt < stride then 0 else cnt + stride
  }

  // ---------------------------------------------------------------- partitions

  /** toSqlStr: integers in decimal, strings in single quotes. */
  function ToSqlStr(v: Value): (r: string)
    requires v.Int? || v.Text?
    ensures v.Text? ==> r == "'" + v.s + "'"
    ensures v.Int? && v.i >= 0 ==> Strs.AllDigits(r) && r != [] && Strs.DigitsValue(r) == v.i
    ensures v.Int? && v.i < 0 ==> |r| >= 2 && r[0] == '-' && Strs.AllDigits(r[1..]) && Strs.DigitsValue(r[1..]) == -v.i
  {
    if v.Int? then
      var r := Strs.IntToString(v.i);
      Strs.NatToStringValue(if v.i < 0 then -v.i else v.i);
      assert v.i < 0 ==> r[1..] == Strs.NatToString(-v.i);
      r
    else "'" + v.s + "'"
  }

  /** CreateRangePartition: the IF NOT EXISTS statement for a range partition; the
      lower bound is inclusive and the upper bound exclusive. */
  function CreateRangePartition(partitionName: string, parentName: string, from: Value, to: Value): (r: string)
    requires (from.Int? || from.Text?) && (to.Int? || to.Text?)
    ensures Strs.HasPrefix(r, "\n\t\tCREATE TABLE IF NOT EXISTS " + partitionName + "\n\t\tPARTITION OF " + parentName + "\n\t\t")
    ensures Strs.HasSuffix(r, "FOR VALUES FROM (" + ToSqlStr(from) + ") TO (" + ToSqlStr(to) + ")")
    ensures |r| == |"\n\t\tCREATE TABLE IF NOT EXISTS " + partitionName + "\n\t\tPARTITION OF " + parentName + "\n\t\t"| + |"FOR VALUES FROM (" + ToSqlStr(from) + ") TO (" + ToSqlStr(to) + ")"|
  {
    var head := "\n\t\tCREATE TABLE IF NOT EXISTS " + partitionName + "\n\t\tPARTITION OF " + parentName + "\n\t\t";
    var tail := "FOR VALUES FROM (" + ToSqlStr(from) + ") TO (" + ToSqlStr(to) + ")";
    var r := head + tail;
    assert r[..|head|] == head;
    assert r[|r| - |tail|..] == tail;
    r
  }

  /** CreateListPartition: the IF NOT EXISTS statement for a list partition of one value. */
  function CreateListPartition(partitionName: string, parentName: string, val: Value): (r: string)
    requires val.Int? || val.Text?
    ensures Strs.HasPrefix(r, "\n\t\tCREATE TABLE IF NOT EXISTS " + partitionName + "\n\t\tPARTITION OF " + parentName + "\n\t\t")
    ensures Strs.HasSuffix(r, "FOR VALUES IN (" + ToSqlStr(val) + ")")
    ensures |r| == |"\n\t\tCREATE TABLE IF NOT EXISTS " + partitionName + "\n\t\tPARTITION OF " + parentName + "\n\t\t"| + |"FOR VALUES IN (" + ToSqlStr(val) + ")"|
  {
    var head := "\n\t\tCREATE TABLE IF NOT EXISTS " + partitionName + "\n\t\tPARTITION OF " + parentName + "\n\t\t";
    var tail := "FOR VALUES IN (" + ToSqlStr(val) + ")";
    var r := head + tail;
    assert r[..|head|] == head;
    assert r[|r| - |tail|..] == tail;
    r
  }

  /** A range partition of parent: its name and the uint64 bounds [from, to). */
  datatype RangePartition = RangePartition(name: string, parent: string, from: nat, to: nat)

  /** The partitions PrepareIDPartition asks for when the id sequence stands at
      `next`: bucket a = next / m and the bucket after it, named
      schema.<second component of table>_<bucket>. Bucket arithmetic is uint64. */
  function IdPartitions(table: string, schema: string, m: nat, next: nat): (ps: (RangePartition, RangePartition))
    requires |Strs.Split(table, '.')| >= 2 && m > 0
  {
    var short := Strs.Split(table, '.')[1];
    var a := next / m;
    (RangePartition(schema + "." + short + "_" + Strs.NatToString(a), table,
                    Paging.U64(a * m), Paging.U64((a + 1) * m)),
     RangePartition(schema + "." + short + "_" + Strs.NatToString(Paging.U64(a + 1)), table,
                    Paging.U64((a + 1) * m), Paging.U64((a + 2) * m)))
  }

  /** The statement text of a partition. */
  function PartitionDDL(p: RangePartition): string
  {
    CreateRangePartition(p.name, p.parent, Int(p.from), Int(p.to))
  }

  /** Unless uint64 wraps, the current partition holds `next`, the second one starts
      where the first ends, both are m wide, and the next m ids are covered. */
  lemma IdPartitionsCover(table: string, schema: string, m: nat, next: nat)
    requires |Strs.Split(table, '.')| >= 2 && m > 0
    requires (next / m + 2) * m < Paging.TwoTo64
    ensures var (cur, nxt) := IdPartitions(table, schema, m, next);
      && cur.from <= next < cur.to
      && cur.to == nxt.from
      && cur.to - cur.from == m && nxt.to - nxt.from == m
      && next + m < nxt.to
      && cur.from % m == 0
      && cur.parent == table && nxt.parent == table
  {
    var a := next / m;
    BucketFacts(m, next);
    assert Paging.U64(a * m) == a * m;
    assert Paging.U64((a + 1) * m) == (a + 1) * m;
    assert Paging.U64((a + 2) * m) == (a + 2) * m;
  }

  /** The bucket of `next`: next / m spans [a*m, (a+1)*m), and a*m is a multiple of m. */
  lemma BucketFacts(m: nat, next: nat)
    requires m > 0
    ensures var a := next / m;
      && 0 <= a * m <= next < (a + 1) * m
      && (a + 1) * m == a * m + m && (a + 2) * m == (a + 1) * m + m
      && (a * m) % m == 0
  {
    var a := next / m;
    assert next == a * m + next % m;
    Step(a, m);
    Step(a + 1, m);
    DivBetween(a * m, m, a);
    assert a * m == ((a * m) / m) * m + (a * m) % m;
  }

  /** Once the sequence has moved into the second partition, the next call's current
      partition is that same partition, so the IF NOT EXISTS statements line up. */
  lemma IdPartitionsAdvance(table: string, schema: string, m: nat, next: nat, later: nat)
    requires |Strs.Split(table, '.')| >= 2 && m > 0
    requires (next / m + 2) * m < Paging.TwoTo64
    requires IdPartitions(table, schema, m, next).1.from <= later < IdPartitions(table, schema, m, next).1.to
    ensures IdPartitions(table, schema, m, later).0 == IdPartitions(table, schema, m, next).1
  {
    AdvanceBucket(m, next, later);
  }

  /** An id in [U64((a+1)*m), U64((a+2)*m)), a = next / m, lies in bucket a+1,
      which fits in uint64. */
  lemma AdvanceBucket(m: nat, next: nat, later: nat)
    requires m > 0
    requires (next / m + 2) * m < Paging.TwoTo64
    requires Paging.U64((next / m + 1) * m) <= later < Paging.U64((next / m + 2) * m)
    ensures later / m == next / m + 1 && Paging.U64(next / m + 1) == next / m + 1
  {
    var a := next / m;
    BucketFacts(m, next);
    assert Paging.U64((a + 1) * m) == (a + 1) * m;
    DivBetween(later, m, a + 1);
    FactorAtMost(a + 1, m);
  }

  /** x <= x*m for a positive m. */
  lemma FactorAtMost(x: nat, m: nat)
    requires m > 0
    ensures x <= x * m
  {
    Step(0, m);
    assert x * m == x + x * (m - 1);
    Step(x, m - 1);
  }

  /** (a+1)*m == a*m + m for non-negative a and m, and both are non-negative. */
  lemma Step(a: nat, m: nat)
    ensures a * m >= 0 && (a + 1) * m == a * m + m
  {
  }

  /** a*m < b*m implies a < b for non-negative m. */
  lemma MulLtCancel(a: nat, b: nat, m: nat)
    ensures a * m < b * m ==> a < b
  {
    if b <= a {
      assert a * m - b * m == (a - b) * m;
      Step(a - b, m);
    }
  }

  /** x lies in the q-th block of width m exactly when x / m == q. */
  lemma DivBetween(x: nat, m: nat, q: nat)
    requires m > 0 && q * m <= x < (q + 1) * m
    ensures x / m == q
  {
    var d := x / m;
    assert x == d * m + x % m;
    Step(d, m);
    Step(q, m);
    MulLtCancel(d, q + 1, m);
    MulLtCancel(q, d + 1, m);
  }

  /** Scanning a row into a uint: a single non-negative integer column that fits in 64 bits. */
  function ScanUint(row: Sql.Row): (res: (nat, Option<Error>))
    ensures res.1.None? ==> res.0 < Paging.TwoTo64
  {
    if |row| == 1 && row[0].Int? && 0 <= row[0].i < Paging.TwoTo64 then (row[0].i, None)
    else (0, Some(Driver("sql: Scan error")))
  }

  /** The rows.Next loop: scan every row into `next` (the last row wins), stop at the
      first scan error. */
  function ScanAll(rows: seq<Sql.Row>, next: nat): (res: (nat, Option<Error>))
    ensures res.1.None? && rows != [] ==> res.0 == ScanUint(rows[|rows| - 1]).0
    ensures rows == [] ==> res == (next, None)
    decreases |rows|
  {
    if rows == [] then (next, None)
    else
      var (v, e) := ScanUint(rows[0]);
      if e.Some? then (next, e) else ScanAll(rows[1..], v)
  }

  /** The query PrepareIDPartition reads the sequence with. */
  function LastValueQuery(table: string): Sql.Statement
  {
    Sql.Raw("SELECT last_value FROM " + table + "_id_seq LIMIT 1")
  }

  /** What PrepareIDPartition does against a database answering `respond`, from
      log `before`: the statements it sends and its outcome. A table name without a
      second "."-component panics before anything is sent. Otherwise the sequence
      query is sent; a failing query or scan returns its error and sends nothing
      more; a bucket width that is 0 as a uint panics (integer divide by zero);
      otherwise both partition statements go in one Exec joined by ";". */
  function PrepareOutcome(before: seq<Sql.Statement>, respond: (nat, Sql.Statement) -> Sql.Reply,
                          table: string, schema: string, modulos: int): (res: (seq<Sql.Statement>, Outcome<Option<Error>>))
    ensures |before| <= |res.0| <= |before| + 2 && res.0[..|before|] == before
    ensures forall k :: |before| <= k < |res.0| ==> res.0[k].Raw?
    ensures |Strs.Split(table, '.')| < 2 <==> res.0 == before
    ensures |res.0| > |before| ==> res.0[|before|] == LastValueQuery(table)
    ensures res.1 == Returns(None) <==>
              |res.0| == |before| + 2 && respond(|before|, res.0[|before|]).Rows? && respond(|before| + 1, res.0[|before| + 1]).Rows?
  {
    if |Strs.Split(table, '.')| < 2 then (before, Panics("index out of range"))
    else
      var q := LastValueQuery(table);
      var reply := respond(|before|, q);
      if reply.Failed? then (before + [q], Returns(Some(reply.err)))
      else
        var (next, scanErr) := ScanAll(reply.rows, 0);
        if scanErr.Some? then (before + [q], Returns(scanErr))
        else if Paging.U64(modulos) == 0 then (before + [q], Panics("integer divide by zero"))
        else
          var (cur, nxt) := IdPartitions(table, schema, Paging.U64(modulos), next);
          var ddl := Sql.Raw(PartitionDDL(cur) + ";" + PartitionDDL(nxt));
          (before + [q, ddl], Returns(Sql.ErrorOf(respond(|before| + 1, ddl))))
  }

  /** PrepareIDPartition: read the id sequence of `table`, then create (if missing)
      the partition holding its last value and the one after it. A table name
      without a "." panics before anything is sent; no row leaves the sequence value
      at 0. The bucket width is converted to uint as Go does. */
  method PrepareIDPartition(con: Sql.Conn, table: string, partitionSchema: string, modulos: int)
    returns (r: Outcome<Option<Error>>)
    modifies con
    ensures |Strs.Split(table, '.')| < 2 ==> r.Panics? && con.log == old(con.log)
    ensures (con.log, r) == PrepareOutcome(old(con.log), con.respond, table, partitionSchema, modulos)
  {
    ghost var before := con.log;
    ghost var outcome := PrepareOutcome(before, con.respond, table, partitionSchema, modulos);
    if |Strs.Split(table, '.')| < 2 {
      return Panics("index out of range");
    }
    var reply := con.Query(LastValueQuery(table));
    if reply.Failed? {
      return Returns(Some(reply.err));
    }
    var next, scanErr := ScanLast(reply.rows);
    if scanErr.Some? {
      return Returns(scanErr);
    }
    var m := Paging.U64(modulos);
    if m == 0 {
      return Panics("integer divide by zero");
    }
    var (current, following) := IdPartitions(table, partitionSchema, m, next);
    var q := LastValueQuery(table);
    var ddl := Sql.Raw(PartitionDDL(current) + ";" + PartitionDDL(following));
    assert con.log == before + [q];
    var err := con.Exec(ddl);
    assert con.log == before + [q, ddl];
    r := Returns(err);
  }

  /** The rows.Next loop of PrepareIDPartition: the last row's value, or the first
      scan error. */
  method ScanLast(rows: seq<Sql.Row>) returns (next: nat, err: Option<Error>)
    ensures (next, err) == ScanAll(rows, 0)
  {
    next, err := 0, None;
    var i := 0;
    while i < |rows|
      invariant 0 <= i <= |rows|
      invariant ScanAll(rows, 0) == ScanAll(rows[i..], next)
    {
      var scanned := ScanUint(rows[i]);
      if scanned.1.Some? {
        assert rows[i..][0] == rows[i];
        return next, scanned.1;
      }
      assert rows[i..][1..] == rows[i + 1..];
      next := scanned.0;
      i := i + 1;
    }
  }

  // ------------------------------------------------------ VALUES lists, arrays

  /** How ValueList renders an element, chosen by the static element type. */
  datatype ElemKind = KString | KTime | KOther

  /** One VALUES tuple: ('text') for strings, ('RFC 3339') for times, (text) for
      anything else; with ordering, the position is added as a second column. */
  function ValueTuple(v: Value, kind: ElemKind, i: nat, withOrder: bool): (t: string)
    requires kind == KTime ==> v.Time?
    ensures |t| >= 2 && t[0] == '(' && t[|t| - 1] == ')'
    ensures withOrder ==> Strs.HasSuffix(t, "," + Strs.NatToString(i) + ")")
  {
    var plain :=
      match kind
      case KString => "('" + Values.Sprint(v) + "')"
      case KTime => "('" + v.rfc3339 + "')"
      case KOther => "(" + Values.Sprint(v) + ")";
    if withOrder then
      var t := plain[..|plain| - 1] + "," + Strs.NatToString(i) + ")";
      var suffix := "," + Strs.NatToString(i) + ")";
      assert t[|t| - |suffix|..] == suffix;
      t
    else plain
  }

  /** The tuples of a VALUES list, element i rendered at position i. */
  function Tuples(arr: seq<Value>, kind: ElemKind, withOrder: bool): (ts: seq<string>)
    requires kind == KTime ==> forall i :: 0 <= i < |arr| ==> arr[i].Time?
    ensures |ts| == |arr|
    ensures forall i :: 0 <= i < |arr| ==> ts[i] == ValueTuple(arr[i], kind, i, withOrder)
  {
    seq(|arr|, i requires 0 <= i < |arr| => ValueTuple(arr[i], kind, i, withOrder))
  }

  /** The text of a VALUES list: `(VALUES t0,t1,...) a(alias)`, the alias extended
      with sort_order when the tuples carry their positions. */
  function ValueListText(arr: seq<Value>, alias: string, withOrder: bool, kind: ElemKind): (r: string)
    requires kind == KTime ==> forall i :: 0 <= i < |arr| ==> arr[i].Time?
    ensures Strs.HasPrefix(r, "(VALUES ")
    ensures Strs.HasSuffix(r, ") a(" + (if withOrder then alias + ",sort_order" else alias) + ")")
  {
    var lbl := if withOrder then alias + ",sort_order" else alias;
    var r := "(VALUES " + Strs.Join(Tuples(arr, kind, withOrder), ",") + ") a(" + lbl + ")";
    var tail := ") a(" + lbl + ")";
    assert r == "(VALUES " + Strs.Join(Tuples(arr, kind, withOrder), ",") + tail;
    assert r[..8] == "(VALUES ";
    assert r[|r| - |tail|..] == tail;
    r
  }

  /** ValueList: one tuple per element, built in a loop, then the list text. */
  method ValueList(arr: seq<Value>, alias: string, withOrder: bool, kind: ElemKind) returns (r: string)
    requires kind == KTime ==> forall i :: 0 <= i < |arr| ==> arr[i].Time?
    ensures r == ValueListText(arr, alias, withOrder, kind)
  {
    var tuples := RenderTuples(arr, kind, withOrder);
    var lbl := if withOrder then alias + ",sort_order" else alias;
    r := "(VALUES " + Strs.Join(tuples, ",") + ") a(" + lbl + ")";
  }

  /** The loop of ValueList: element i rendered into slot i of a fresh array. */
  method RenderTuples(arr: seq<Value>, kind: ElemKind, withOrder: bool) returns (tuples: seq<string>)
    requires kind == KTime ==> forall i :: 0 <= i < |arr| ==> arr[i].Time?
    ensures tuples == Tuples(arr, kind, withOrder)
  {
    var tmp := new string[|arr|](_ => "");
    ghost var spec := Tuples(arr, kind, withOrder);
    for i := 0 to |arr|
      invariant tmp[..i] == spec[..i]
    {
      var t := RenderTuple(arr[i], kind, i, withOrder);
      tmp[i] := t;
      assert tmp[..i + 1] == tmp[..i] + [t];
    }
    tuples := tmp[..];
    assert tuples == tmp[..|arr|];
  }

  /** The body of ValueList's loop: one tuple, written as ValueTuple describes. */
  method RenderTuple(v: Value, kind: ElemKind, i: nat, withOrder: bool) returns (t: string)
    requires kind == KTime ==> v.Time?
    ensures t == ValueTuple(v, kind, i, withOrder)
  {
    match kind {
      case KString => t := "('" + Values.Sprint(v) + "')";
      case KTime => t := "('" + v.rfc3339 + "')";
      case KOther => t := "(" + Values.Sprint(v) + ")";
    }
    if withOrder {
      t := t[..|t| - 1] + "," + Strs.NatToString(i) + ")";
    }
  }

  /** ValueListTable: a SELECT over the VALUES list. */
  method ValueListTable(arr: seq<Value>, alias: string, kind: ElemKind) returns (r: string)
    requires kind == KTime ==> forall i :: 0 <= i < |arr| ==> arr[i].Time?
    ensures Strs.HasPrefix(r, "SELECT * FROM (VALUES ")
    ensures r == "SELECT * FROM " + ValueListText(arr, alias, false, kind) + " "
  {
    var list := ValueList(arr, alias, false, kind);
    r := "SELECT * FROM " + list + " ";
    assert r[..22] == "SELECT * FROM (VALUES ";
  }

  /** How DBArrayValues writes one element of a Postgres array literal: a time as
      RFC 3339, the empty string as "", other strings as they are, anything else as
      fmt.Sprint prints it. */
  function ArrayItem(v: Value): string
  {
    match v
    case Time(rfc3339, _) => rfc3339
    case Text(s) => if s == "" then "\"\"" else s
    case _ => Values.Sprint(v)
  }

  /** The array literal `{e0,e1,...}`. */
  function ArrayLiteral(arr: seq<Value>): string
  {
    "{" + Strs.Join(seq(|arr|, i requires 0 <= i < |arr| => ArrayItem(arr[i])), ",") + "}"
  }

  /** DBArrayValues: fill one item per element, then wrap the comma-joined items in braces. */
  method DBArrayValues(items: seq<Value>) returns (r: string)
    ensures r == ArrayLiteral(items)
    ensures r[0] == '{' && r[|r| - 1] == '}'
  {
    var tmp := new string[|items|](_ => "");
    for i := 0 to |items|
      invariant forall k :: 0 <= k < i ==> tmp[k] == ArrayItem(items[k])
    {
      match items[i]
      case Time(rfc3339, _) => tmp[i] := rfc3339;
      case Text(s) => tmp[i] := if s == "" then "\"\"" else s;
      case _ => tmp[i] := Values.Sprint(items[i]);
    }
    assert tmp[..] == seq(|items|, i requires 0 <= i < |items| => ArrayItem(items[i]));
    r := "{" + Strs.Join(tmp[..], ",") + "}";
  }

  /** Range: the integers from start to end inclusive, ascending (none when end < start). */
  method Range(start: int, end: int) returns (ret: seq<int>)
    ensures |ret| == if end < start then 0 else end - start + 1
    ensures forall i :: 0 <= i < |ret| ==> ret[i] == start + i
  {
    ret := [];
    var s := start;
    while s <= end
      invariant start <= s && (s <= end + 1 || end < start)
      invariant end < start ==> s == start
      invariant |ret| == s - start
      invariant forall i :: 0 <= i < |ret| ==> ret[i] == start + i
      decreases end - s
    {
      ret := ret + [s];
      s := s + 1;
    }
  }
}
