/**
 * Loading a file into one of the fixed T&E tables: rows are checked first, then
 * inserted in chunks under savepoints, and a chunk the database refuses is
 * retried row by row.
 *
 * The database's own rules are a parameter: whether a table accepts one more row.
 */
module TeLoading {
  import opened Common
  import opened Cast
  import opened RowLoading

  type TeRow = seq<Value>

  /** `accepts` decides on one row given the rows before it; `reason` is the error's first line. */
  datatype Rules = Rules(accepts: (seq<TeRow>, TeRow) -> bool, reason: (seq<TeRow>, TeRow) -> string)

  /** A failure found by the loader, or one reported by the database. */
  datatype TeError = CellError(error: RowError) | DbError(rowNumber: nat, reason: string)

  // ---------------------------------------------------------------------
  // The simple form: insert the rows one at a time.
  // ---------------------------------------------------------------------

  datatype Inserted = Inserted(table: seq<TeRow>, count: nat, errors: seq<TeError>)

  function InsertOne(rules: Rules, r: Inserted, row: TeRow, rowNumber: nat): Inserted {
    if rules.accepts(r.table, row) then Inserted(r.table + [row], r.count + 1, r.errors)
    else r.(errors := r.errors + [DbError(rowNumber, rules.reason(r.table, row))])
  }

  /** `rows` are numbered from `first`. */
  function OneByOne(rules: Rules, r: Inserted, rows: seq<TeRow>, first: nat): Inserted {
    if rows == [] then r
    else InsertOne(rules, OneByOne(rules, r, rows[..|rows| - 1], first), rows[|rows| - 1], first + |rows| - 1)
  }

  lemma OneByOneNone(rules: Rules, r: Inserted, first: nat)
    ensures OneByOne(rules, r, [], first) == r
  {
  }

  lemma OneByOneNext(rules: Rules, r: Inserted, rows: seq<TeRow>, n: nat, first: nat)
    requires n < |rows|
    ensures OneByOne(rules, r, rows[..n + 1], first)
         == InsertOne(rules, OneByOne(rules, r, rows[..n], first), rows[n], first + n)
  {
    assert rows[..n + 1][..n] == rows[..n];
  }

  lemma {:induction false} OneByOneAppend(rules: Rules, r: Inserted, a: seq<TeRow>, b: seq<TeRow>, first: nat)
    ensures OneByOne(rules, r, a + b, first) == OneByOne(rules, OneByOne(rules, r, a, first), b, first + |a|)
  {
    if b == [] {
      assert a + b == a;
    } else {
      OneByOneAppend(rules, r, a, b[..|b| - 1], first);
      assert (a + b)[..|a + b| - 1] == a + b[..|b| - 1];
    }
  }

  lemma {:induction false} OneByOneCounts(rules: Rules, r: Inserted, rows: seq<TeRow>, first: nat)
    ensures var r' := OneByOne(rules, r, rows, first);
      && r'.count + |r'.errors| == r.count + |r.errors| + |rows|
      && r.table <= r'.table && |r'.table| - |r.table| == r'.count - r.count
  {
    if rows != [] {
      OneByOneCounts(rules, r, rows[..|rows| - 1], first);
    }
  }

  /** A statement that inserts several rows takes all of them or none. */
  predicate AllAccepted(rules: Rules, table: seq<TeRow>, rows: seq<TeRow>) {
    rows == [] || (AllAccepted(rules, table, rows[..|rows| - 1])
                   && rules.accepts(table + rows[..|rows| - 1], rows[|rows| - 1]))
  }

  lemma {:induction false} AllAcceptedAppend(rules: Rules, table: seq<TeRow>, a: seq<TeRow>, b: seq<TeRow>)
    ensures AllAccepted(rules, table, a + b) <==>
            AllAccepted(rules, table, a) && AllAccepted(rules, table + a, b)
  {
    if b == [] {
      assert a + b == a;
    } else {
      AllAcceptedAppend(rules, table, a, b[..|b| - 1]);
      assert (a + b)[..|a + b| - 1] == a + b[..|b| - 1];
      assert table + (a + b[..|b| - 1]) == table + a + b[..|b| - 1];
    }
  }

  lemma {:induction false} AcceptedBatchIsOneByOne(rules: Rules, r: Inserted, rows: seq<TeRow>, first: nat)
    requires AllAccepted(rules, r.table, rows)
    ensures OneByOne(rules, r, rows, first) == Inserted(r.table + rows, r.count + |rows|, r.errors)
  {
    if rows == [] {
      assert r.table + rows == r.table;
    } else {
      AcceptedBatchIsOneByOne(rules, r, rows[..|rows| - 1], first);
      assert r.table + rows == r.table + rows[..|rows| - 1] + [rows[|rows| - 1]];
    }
  }

  // ---------------------------------------------------------------------
  // A transaction with savepoints. In an aborted transaction every statement
  // fails, except going back to a savepoint.
  // ---------------------------------------------------------------------

  datatype Savepoint = Savepoint(name: string, table: seq<TeRow>)

  /** One more than the index of the newest savepoint of this name, or 0. */
  function Newest(saves: seq<Savepoint>, name: string): (n: nat)
    ensures n <= |saves|
    ensures n > 0 ==> saves[n - 1].name == name
  {
    if saves == [] || saves[|saves| - 1].name == name then |saves| else Newest(saves[..|saves| - 1], name)
  }

  class Transaction {
    const rules: Rules
    var table: seq<TeRow>
    var aborted: bool
    var saves: seq<Savepoint>

    constructor (rules: Rules, table: seq<TeRow>)
      ensures this.rules == rules && this.table == table && !aborted && saves == []
    {
      this.rules, this.table, aborted, saves := rules, table, false, [];
    }

    method Save(name: string) returns (ok: bool)
      modifies this
      ensures ok == !old(aborted) && aborted == old(aborted) && table == old(table)
      ensures saves == if ok then old(saves) + [Savepoint(name, old(table))] else old(saves)
    {
      ok := !aborted;
      if ok {
        saves := saves + [Savepoint(name, table)];
      }
    }

    /** Go back to the newest savepoint of this name, which stays. */
    method RollbackTo(name: string) returns (ok: bool)
      modifies this
      ensures var n := Newest(old(saves), name);
        ok == (n > 0) && saves == (if ok then old(saves)[..n] else old(saves)) && aborted == !ok
        && table == if ok then old(saves)[n - 1].table else old(table)
    {
      var n := FindSave(name);
      ok := n > 0;
      if ok {
        table, aborted, saves := saves[n - 1].table, false, saves[..n];
      } else {
        aborted := true;
      }
    }

    method FindSave(name: string) returns (n: nat)
      ensures n == Newest(saves, name)
    {
      n := |saves|;
      assert saves[..n] == saves;
      while n > 0 && saves[n - 1].name != name
        invariant n <= |saves| && Newest(saves[..n], name) == Newest(saves, name)
      {
        n := n - 1;
        assert saves[..n + 1][..n] == saves[..n];
      }
    }

    /** Forget the newest savepoint of this name and any after it. */
    method Release(name: string) returns (ok: bool)
      modifies this
      ensures var n := Newest(old(saves), name);
        ok == (!old(aborted) && n > 0) && aborted == !ok
        && table == old(table) && saves == if ok then old(saves)[..n - 1] else old(saves)
    {
      var n := FindSave(name);
      ok := !aborted && n > 0;
      if ok {
        saves := saves[..n - 1];
      } else {
        aborted := true;
      }
    }

    /** One INSERT statement with one or more rows. */
    method Insert(rows: seq<TeRow>) returns (ok: bool)
      modifies this
      ensures saves == old(saves)
      ensures ok == (!old(aborted) && AllAccepted(rules, old(table), rows)) && aborted == !ok
      ensures table == if ok then old(table) + rows else old(table)
    {
      ok := !aborted && AllAccepted(rules, table, rows);
      if ok {
        table := table + rows;
      } else {
        aborted := true;
      }
    }

    /** The driver's batch insert: one INSERT for each page of rows. */
    method ExecuteValues(rows: seq<TeRow>, pageSize: nat) returns (ok: bool)
      requires pageSize > 0 && !aborted
      modifies this
      ensures saves == old(saves)
      ensures ok == AllAccepted(rules, old(table), rows) && aborted == !ok
      ensures ok ==> table == old(table) + rows
    {
      var done := 0;
      assert table + rows[..0] == table;
      while done < |rows|
        invariant done <= |rows| && !aborted && saves == old(saves)
        invariant AllAccepted(rules, old(table), rows[..done]) && table == old(table) + rows[..done]
      {
        var end := Min(done + pageSize, |rows|);
        AllAcceptedAppend(rules, old(table), rows[..done], rows[done..end]);
        assert rows[..done] + rows[done..end] == rows[..end];
        ok := Insert(rows[done..end]);
        if !ok {
          AllAcceptedAppend(rules, old(table), rows[..end], rows[end..]);
          assert rows[..end] + rows[end..] == rows;
          return;
        }
        assert old(table) + rows[..done] + rows[done..end] == old(table) + rows[..end];
        done := end;
      }
      assert rows[..done] == rows;
      ok := true;
    }
  }

  function CappedErrors(errors: seq<TeError>, cap: nat): (shown: seq<TeError>)
    ensures shown <= errors && |shown| == Min(cap, |errors|)
  {
    errors[..Min(cap, |errors|)]
  }

  lemma CappedErrorsNext(errors: seq<TeError>, error: TeError, cap: nat)
    ensures var shown := CappedErrors(errors, cap);
            CappedErrors(errors + [error], cap) == if |shown| < cap then shown + [error] else shown
  {
  }

  lemma NewestIsLast(saves: seq<Savepoint>, s: Savepoint)
    ensures Newest(saves + [s], s.name) == |saves| + 1
    ensures (saves + [s])[..|saves|] == saves
  {
  }

  /** One INSERT under its own savepoint: the row is in, or nothing has changed. */
  method TryRow(tx: Transaction, row: TeRow) returns (inserted: bool)
    requires !tx.aborted
    modifies tx
    ensures !tx.aborted && tx.saves == old(tx.saves)
    ensures inserted == tx.rules.accepts(old(tx.table), row)
    ensures tx.table == if inserted then old(tx.table) + [row] else old(tx.table)
  {
    NewestIsLast(tx.saves, Savepoint("row_sp", tx.table));
    assert [row][..0] == [] && tx.table + [] == tx.table;
    var ok := tx.Save("row_sp");
    inserted := tx.Insert([row]);
    if !inserted {
      ok := tx.RollbackTo("row_sp");
    }
    assert tx.saves == old(tx.saves) + [Savepoint("row_sp", old(tx.table))];
    ok := tx.Release("row_sp");
  }

  /** A batch insert under a savepoint: all rows are in, or nothing has changed. */
  method TryChunk(tx: Transaction, chunk: seq<TeRow>, pageSize: nat) returns (inserted: bool)
    requires !tx.aborted && pageSize > 0
    modifies tx
    ensures !tx.aborted && tx.saves == old(tx.saves)
    ensures inserted == AllAccepted(tx.rules, old(tx.table), chunk)
    ensures tx.table == if inserted then old(tx.table) + chunk else old(tx.table)
  {
    NewestIsLast(tx.saves, Savepoint("chunk_sp", tx.table));
    var ok := tx.Save("chunk_sp");
    inserted := tx.ExecuteValues(chunk, pageSize);
    if inserted {
      ok := tx.Release("chunk_sp");
    } else {
      ok := tx.RollbackTo("chunk_sp");
      ok := tx.Release("chunk_sp");
    }
  }

  /** The fallback: one INSERT a row. */
  method InsertRowByRow(tx: Transaction, rows: seq<TeRow>, first: nat, ghost r: Inserted,
                        cap: nat, count: nat, errorCount: nat, shown: seq<TeError>)
    returns (count': nat, errorCount': nat, shown': seq<TeError>)
    requires !tx.aborted && r.table == tx.table && r.count == count
    requires |r.errors| == errorCount && shown == CappedErrors(r.errors, cap)
    modifies tx
    ensures !tx.aborted && tx.saves == old(tx.saves)
    ensures var r' := OneByOne(tx.rules, r, rows, first);
            tx.table == r'.table && count' == r'.count
            && errorCount' == |r'.errors| && shown' == CappedErrors(r'.errors, cap)
  {
    count', errorCount', shown' := count, errorCount, shown;
    ghost var now := r;
    for i := 0 to |rows|
      invariant now == OneByOne(tx.rules, r, rows[..i], first)
      invariant !tx.aborted && tx.saves == old(tx.saves) && tx.table == now.table
      invariant count' == now.count && errorCount' == |now.errors| && shown' == CappedErrors(now.errors, cap)
    {
      OneByOneNext(tx.rules, r, rows, i, first);
      var reason := tx.rules.reason(tx.table, rows[i]);
      var inserted := TryRow(tx, rows[i]);
      if inserted {
        count' := count' + 1;
      } else {
        CappedErrorsNext(now.errors, DbError(first + i, reason), cap);
        errorCount' := errorCount' + 1;
        if |shown'| < cap {
          shown' := shown' + [DbError(first + i, reason)];
        }
      }
      now := InsertOne(tx.rules, now, rows[i], first + i);
    }
    assert rows[..|rows|] == rows;
  }

  /** One chunk under a savepoint, with the fallback. */
  method InsertChunk(tx: Transaction, chunk: seq<TeRow>, first: nat, pageSize: nat, ghost r: Inserted,
                     cap: nat, count: nat, errorCount: nat, shown: seq<TeError>)
    returns (count': nat, errorCount': nat, shown': seq<TeError>)
    requires !tx.aborted && pageSize > 0 && r.table == tx.table && r.count == count
    requires |r.errors| == errorCount && shown == CappedErrors(r.errors, cap)
    modifies tx
    ensures !tx.aborted && tx.saves == old(tx.saves)
    ensures var r' := OneByOne(tx.rules, r, chunk, first);
            tx.table == r'.table && count' == r'.count
            && errorCount' == |r'.errors| && shown' == CappedErrors(r'.errors, cap)
  {
    hide OneByOne, AllAccepted, CappedErrors;
    var accepted := TryChunk(tx, chunk, pageSize);
    if accepted {
      AcceptedBatchIsOneByOne(tx.rules, r, chunk, first);
      count', errorCount', shown' := count + |chunk|, errorCount, shown;
    } else {
      count', errorCount', shown' := InsertRowByRow(tx, chunk, first, r, cap, count, errorCount, shown);
    }
  }

  /** Chunks under a savepoint, with the fallback: for any chunk and page size, the same
      table, counts and errors as inserting the rows one at a time, and afterwards the
      transaction is usable and no savepoint is left. */
  method InsertInChunks(tx: Transaction, rows: seq<TeRow>, chunkSize: nat, pageSize: nat, cap: nat,
                        ghost before: seq<TeError>, failed: nat, shown: seq<TeError>)
    returns (inserted: nat, failed': nat, shown': seq<TeError>)
    requires chunkSize > 0 && pageSize > 0
    requires !tx.aborted && tx.saves == []
    requires failed == |before| && shown == CappedErrors(before, cap)
    modifies tx
    ensures !tx.aborted && tx.saves == []
    ensures var r := OneByOne(tx.rules, Inserted(old(tx.table), 0, before), rows, 1);
            tx.table == r.table && inserted == r.count
            && failed' == |r.errors| && shown' == CappedErrors(r.errors, cap)
  {
    inserted, failed', shown' := 0, failed, shown;
    hide OneByOne, AllAccepted, CappedErrors;
    ghost var r0 := Inserted(tx.table, 0, before);
    OneByOneNone(tx.rules, r0, 1);
    assert rows[..0] == [];
    ghost var r := r0;
    var start := 0;
    while start < |rows|
      invariant start <= |rows|
      invariant r == OneByOne(tx.rules, r0, rows[..start], 1)
      invariant !tx.aborted && tx.saves == [] && tx.table == r.table
      invariant inserted == r.count && failed' == |r.errors| && shown' == CappedErrors(r.errors, cap)
    {
      var end := Min(start + chunkSize, |rows|);
      var chunk := rows[start..end];
      assert rows[..start] + chunk == rows[..end];
      OneByOneAppend(tx.rules, r0, rows[..start], chunk, 1);
      ghost var next := OneByOne(tx.rules, r, chunk, start + 1);
      inserted, failed', shown' := InsertChunk(tx, chunk, start + 1, pageSize, r, cap, inserted, failed', shown');
      r := next;
      start := end;
    }
    assert rows[..start] == rows;
  }

  // ---------------------------------------------------------------------
  // Checking the rows before any is inserted
  // ---------------------------------------------------------------------

  /** A column whose type the loader cannot check has no type here. */
  datatype TeHeader = TeHeader(columns: seq<string>, types: seq<Option<ColType>>)

  predicate WellFormedTe(h: TeHeader) {
    |h.columns| == |h.types|
  }

  function TeCell(ops: TextOps, raw: Cells, c: nat): string {
    if c < |raw| then ops.strip(raw[c]) else ""
  }

  function TeCast(ops: TextOps, raw: Cells, h: TeHeader, c: nat): CastResult
    requires c < |h.types|
  {
    var cell := TeCell(ops, raw, c);
    if cell == "" then Ok(Null)
    else if h.types[c].None? then Ok(Text(cell))
    else CastValue(ops, cell, h.types[c].value)
  }

  function TeFirstBad(ops: TextOps, raw: Cells, h: TeHeader, from: nat): (r: nat)
    requires from <= |h.types|
    ensures from <= r <= |h.types|
    ensures forall c :: from <= c < r ==> TeCast(ops, raw, h, c).Ok?
    ensures r < |h.types| ==> TeCast(ops, raw, h, r).Bad?
    decreases |h.types| - from
  {
    if from == |h.types| || TeCast(ops, raw, h, from).Bad? then from else TeFirstBad(ops, raw, h, from + 1)
  }

  datatype TeVerdict = TeFails(error: TeError) | TePasses(row: TeRow)

  function TeJudge(ops: TextOps, raw: Cells, h: TeHeader, rowNumber: nat): TeVerdict
    requires WellFormedTe(h)
  {
    var extra := ExtraCells(ops, raw, |h.columns|);
    var c := TeFirstBad(ops, raw, h, 0);
    if extra != [] then
      TeFails(CellError(RowError(rowNumber, BEYOND_HEADER, extra[0], RaggedReason(raw, |h.columns|))))
    else if c < |h.types| then
      TeFails(CellError(RowError(rowNumber, h.columns[c], TeCell(ops, raw, c), TeCast(ops, raw, h, c).reason)))
    else
      TePasses(seq(|h.types|, i requires 0 <= i < |h.types| =>
                     var r := TeCast(ops, raw, h, i); if r.Ok? then r.value else Null))
  }

  function TeJudgeAll(ops: TextOps, data: seq<Cells>, h: TeHeader): (v: seq<TeVerdict>)
    requires WellFormedTe(h)
    ensures |v| == |data|
  {
    seq(|data|, i requires 0 <= i < |data| => TeJudge(ops, data[i], h, i + 1))
  }

  datatype Checked = Checked(rows: seq<TeRow>, errors: seq<TeError>)

  function CheckNext(c: Checked, v: TeVerdict): Checked {
    match v
    case TeFails(error) => c.(errors := c.errors + [error])
    case TePasses(row) => c.(rows := c.rows + [row])
  }

  function CheckAll(v: seq<TeVerdict>): Checked {
    if v == [] then Checked([], []) else CheckNext(CheckAll(v[..|v| - 1]), v[|v| - 1])
  }

  lemma CheckAllNext(v: seq<TeVerdict>, n: nat)
    requires n < |v|
    ensures CheckAll(v[..n + 1]) == CheckNext(CheckAll(v[..n]), v[n])
  {
    assert v[..n + 1][..n] == v[..n];
  }

  lemma {:induction false} CheckAllCounts(v: seq<TeVerdict>)
    ensures |CheckAll(v).rows| + |CheckAll(v).errors| == |v|
  {
    if v != [] {
      CheckAllCounts(v[..|v| - 1]);
    }
  }

  lemma {:induction false} CheckAllGrows(v: seq<TeVerdict>, n: nat)
    requires n <= |v|
    ensures CheckAll(v[..n]).rows <= CheckAll(v).rows
    decreases |v|
  {
    if n == |v| {
      assert v[..n] == v;
    } else {
      assert v[..|v| - 1][..n] == v[..n];
      CheckAllGrows(v[..|v| - 1], n);
    }
  }

  /** Where a file's row comes among the rows that pass the check. */
  function Position(v: seq<TeVerdict>, i: nat): nat
    requires i < |v|
  {
    |CheckAll(v[..i]).rows|
  }

  lemma {:induction false} NoErrorsMeansAllPass(v: seq<TeVerdict>)
    ensures CheckAll(v).errors == [] <==> forall j :: 0 <= j < |v| ==> v[j].TePasses?
  {
    if v != [] {
      NoErrorsMeansAllPass(v[..|v| - 1]);
      assert forall j :: 0 <= j < |v| - 1 ==> v[..|v| - 1][j] == v[j];
    }
  }

  /** A row that passes is found at its position, which is its place in the file exactly
      when no earlier row failed the check. */
  lemma PositionInFile(v: seq<TeVerdict>, i: nat)
    requires i < |v| && v[i].TePasses?
    ensures Position(v, i) < |CheckAll(v).rows| && CheckAll(v).rows[Position(v, i)] == v[i].row
    ensures Position(v, i) == i <==> forall j :: 0 <= j < i ==> v[j].TePasses?
  {
    CheckAllCounts(v[..i]);
    CheckAllNext(v, i);
    CheckAllGrows(v, i + 1);
    NoErrorsMeansAllPass(v[..i]);
    assert forall j :: 0 <= j < i ==> v[..i][j] == v[j];
  }

  /** Every position belongs to a row of the file. */
  lemma {:induction false} RowAtPosition(v: seq<TeVerdict>, position: nat) returns (i: nat)
    requires position < |CheckAll(v).rows|
    ensures i < |v| && v[i].TePasses? && Position(v, i) == position
  {
    var n := |v| - 1;
    assert v[..n + 1] == v;
    CheckAllNext(v, n);
    if position < |CheckAll(v[..n]).rows| {
      i := RowAtPosition(v[..n], position);
      assert v[..n][..i] == v[..i];
    } else {
      i := n;
    }
  }

  /** The simple form of a whole load: check the rows, then insert those that pass. */
  function Load(rules: Rules, ops: TextOps, table: seq<TeRow>, data: seq<Cells>, h: TeHeader): Inserted
    requires WellFormedTe(h)
  {
    var c := CheckAll(TeJudgeAll(ops, data, h));
    OneByOne(rules, Inserted(table, 0, c.errors), c.rows, 1)
  }

  /** Every row of the file is either inserted or reported, and the table only grows. */
  lemma LoadCounts(rules: Rules, ops: TextOps, table: seq<TeRow>, data: seq<Cells>, h: TeHeader)
    requires WellFormedTe(h)
    ensures var r := Load(rules, ops, table, data, h);
      r.count + |r.errors| == |data| && table <= r.table && |r.table| == |table| + r.count
  {
    var c := CheckAll(TeJudgeAll(ops, data, h));
    CheckAllCounts(TeJudgeAll(ops, data, h));
    OneByOneCounts(rules, Inserted(table, 0, c.errors), c.rows, 1);
  }

  lemma {:induction false} CheckErrorsAreCellErrors(ops: TextOps, data: seq<Cells>, h: TeHeader, n: nat)
    requires WellFormedTe(h) && n <= |data|
    ensures forall e :: e in CheckAll(TeJudgeAll(ops, data, h)[..n]).errors ==> e.CellError?
  {
    hide TeFirstBad, TeCast, TeCell, ExtraCells, RaggedReason, CastValue;
    if n > 0 {
      CheckErrorsAreCellErrors(ops, data, h, n - 1);
      CheckAllNext(TeJudgeAll(ops, data, h), n - 1);
    }
  }

  /** The table when the row with this number is tried. */
  function TableAt(rules: Rules, table: seq<TeRow>, rows: seq<TeRow>, number: nat): seq<TeRow>
    requires 1 <= number <= |rows|
  {
    OneByOne(rules, Inserted(table, 0, []), rows[..number - 1], 1).table
  }

  /** The database refuses the row with this number, for this reason. */
  predicate Refused(rules: Rules, table: seq<TeRow>, rows: seq<TeRow>, number: nat, reason: string) {
    && 1 <= number <= |rows|
    && !rules.accepts(TableAt(rules, table, rows, number), rows[number - 1])
    && reason == rules.reason(TableAt(rules, table, rows, number), rows[number - 1])
  }

  lemma {:induction false} ErrorsDoNotMatter(rules: Rules, table: seq<TeRow>, errors: seq<TeError>, rows: seq<TeRow>)
    ensures OneByOne(rules, Inserted(table, 0, errors), rows, 1).table
         == OneByOne(rules, Inserted(table, 0, []), rows, 1).table
  {
    if rows != [] {
      ErrorsDoNotMatter(rules, table, errors, rows[..|rows| - 1]);
    }
  }

  /** The errors of inserting one row after the other are, after those already known, the
      refused rows and no others. */
  lemma {:induction false} DbErrorsAreRefusals(
      rules: Rules, table: seq<TeRow>, known: seq<TeError>, rows: seq<TeRow>, number: nat, reason: string)
    requires forall e :: e in known ==> e.CellError?
    ensures DbError(number, reason) in OneByOne(rules, Inserted(table, 0, known), rows, 1).errors
            <==> Refused(rules, table, rows, number, reason)
  {
    if rows != [] {
      var n := |rows| - 1;
      var front, r := rows[..n], OneByOne(rules, Inserted(table, 0, known), rows[..n], 1);
      DbErrorsAreRefusals(rules, table, known, front, number, reason);
      ErrorsDoNotMatter(rules, table, known, front);
      assert 1 <= number <= n ==> front[..number - 1] == rows[..number - 1];
      assert forall e :: e in (r.errors + [DbError(n + 1, reason)]) <==> e in r.errors || e == DbError(n + 1, reason);
    }
  }

  /** The row of the file that the database refused, with its reason, at the place where it
      comes among the rows that pass the check. */
  ghost predicate RefusedInFile(rules: Rules, table: seq<TeRow>, v: seq<TeVerdict>, i: nat, reason: string) {
    i < |v| && v[i].TePasses? && Refused(rules, table, CheckAll(v).rows, Position(v, i) + 1, reason)
  }

  ghost predicate DatabaseRefuses(rules: Rules, table: seq<TeRow>, v: seq<TeVerdict>, i: nat) {
    exists reason :: RefusedInFile(rules, table, v, i, reason)
  }

  lemma RefusalsAreInFile(rules: Rules, table: seq<TeRow>, v: seq<TeVerdict>, number: nat, reason: string)
    ensures Refused(rules, table, CheckAll(v).rows, number, reason)
            <==> exists i :: RefusedInFile(rules, table, v, i, reason) && number == Position(v, i) + 1
  {
    hide CheckAll, TableAt;
    if Refused(rules, table, CheckAll(v).rows, number, reason) {
      var i := RowAtPosition(v, number - 1);
      assert RefusedInFile(rules, table, v, i, reason);
    }
  }

  /** A database error is reported exactly for a row of the file that passed the check and
      was refused, under the row's number among the rows that passed. That is its number in
      the file exactly when no earlier row failed the check. */
  lemma ReportedNumberIsFileNumber(
      rules: Rules, ops: TextOps, table: seq<TeRow>, data: seq<Cells>, h: TeHeader, number: nat, reason: string)
    requires WellFormedTe(h)
    ensures var v := TeJudgeAll(ops, data, h);
            DbError(number, reason) in Load(rules, ops, table, data, h).errors
            <==> exists i :: RefusedInFile(rules, table, v, i, reason) && number == Position(v, i) + 1
    ensures var v := TeJudgeAll(ops, data, h);
            forall i :: RefusedInFile(rules, table, v, i, reason) ==>
              (Position(v, i) == i <==> forall j :: 0 <= j < i ==> v[j].TePasses?)
  {
    hide TeJudgeAll, OneByOne, CheckAll, Refused, Position;
    var v := TeJudgeAll(ops, data, h);
    assert v[..|data|] == v;
    CheckErrorsAreCellErrors(ops, data, h, |data|);
    DbErrorsAreRefusals(rules, table, CheckAll(v).errors, CheckAll(v).rows, number, reason);
    RefusalsAreInFile(rules, table, v, number, reason);
    forall i | RefusedInFile(rules, table, v, i, reason)
      ensures Position(v, i) == i <==> forall j :: 0 <= j < i ==> v[j].TePasses?
    {
      PositionInFile(v, i);
    }
  }

  lemma OneColumnVerdict(ops: TextOps, column: string, cell: string, number: nat)
    requires ops.strip(cell) == cell && cell != ""
    ensures TeJudge(ops, [cell], TeHeader([column], [Some(Int8)]), number)
         == if IsInt(cell) then TePasses([Int(IntOf(cell))])
            else TeFails(CellError(RowError(number, column, cell, Quote(cell) + " is not a whole number")))
  {
    hide IsInt, IntOf, Quote;
    var h := TeHeader([column], [Some(Int8)]);
    assert TeCast(ops, [cell], h, 0) == CastValue(ops, cell, Int8);
    assert TeFirstBad(ops, [cell], h, 1) == 1;
  }

  lemma CheckTwo(v: seq<TeVerdict>, error: TeError, row: TeRow)
    requires v == [TeFails(error), TePasses(row)]
    ensures CheckAll(v) == Checked([row], [error])
  {
    assert v[..2] == v && CheckAll(v[..0]) == Checked([], []);
    CheckAllNext(v, 0);
    CheckAllNext(v, 1);
  }

  lemma OneIsANumber()
    ensures IsInt("1") && IntOf("1") == 1
  {
    assert "1"[..0] == "";
  }

  lemma XIsNoNumber()
    ensures !IsInt("x") && Quote("x") + " is not a whole number" == "\"x\" is not a whole number"
  {
    assert !('0' <= "x"[0] <= '9');
  }

  lemma OneRefused(rules: Rules, known: seq<TeError>, row: TeRow)
    requires !rules.accepts([], row)
    ensures OneByOne(rules, Inserted([], 0, known), [row], 1).errors == known + [DbError(1, rules.reason([], row))]
  {
    assert [row][..0] == [];
    OneByOneNone(rules, Inserted([], 0, known), 1);
  }

  /** A file whose second row is refused and reported as row 1: the first one is no number. */
  lemma NumberCanBeWrong(rules: Rules, ops: TextOps)
    requires ops.strip("x") == "x" && ops.strip("1") == "1" && !rules.accepts([], [Int(1)])
    ensures Load(rules, ops, [], [["x"], ["1"]], TeHeader(["n"], [Some(Int8)])).errors
         == [CellError(RowError(1, "n", "x", "\"x\" is not a whole number")), DbError(1, rules.reason([], [Int(1)]))]
  {
    hide TeJudge, CheckAll, OneByOne, IsInt, IntOf, Quote;
    var h := TeHeader(["n"], [Some(Int8)]);
    OneColumnVerdict(ops, "n", "x", 1);
    OneColumnVerdict(ops, "n", "1", 2);
    OneIsANumber();
    XIsNoNumber();
    var error := CellError(RowError(1, "n", "x", "\"x\" is not a whole number"));
    assert TeJudge(ops, ["x"], h, 1) == TeFails(error) && TeJudge(ops, ["1"], h, 2) == TePasses([Int(1)]);
    CheckTwo(TeJudgeAll(ops, [["x"], ["1"]], h), error, [Int(1)]);
    OneRefused(rules, [error], [Int(1)]);
  }

  method CheckRow(ops: TextOps, raw: Cells, h: TeHeader, index: nat) returns (verdict: TeVerdict)
    requires WellFormedTe(h)
    ensures verdict == TeJudge(ops, raw, h, index + 1)
  {
    hide CastValue, ExtraCells, RaggedReason;
    var extra := ExtraCells(ops, raw, |h.columns|);
    if extra != [] {
      return TeFails(CellError(RowError(index + 1, BEYOND_HEADER, extra[0], RaggedReason(raw, |h.columns|))));
    }
    var values: seq<Value> := [];
    for c := 0 to |h.columns|
      invariant |values| == c
      invariant forall i :: 0 <= i < c ==> TeCast(ops, raw, h, i) == Ok(values[i])
      invariant TeFirstBad(ops, raw, h, c) == TeFirstBad(ops, raw, h, 0)
    {
      var cell := if c < |raw| then ops.strip(raw[c]) else "";
      if cell == "" {
        values := values + [Null];
        continue;
      }
      if h.types[c].None? {
        values := values + [Text(cell)];
        continue;
      }
      var r := CastValue(ops, cell, h.types[c].value);
      if r.Bad? {
        return TeFails(CellError(RowError(index + 1, h.columns[c], cell, r.reason)));
      }
      values := values + [r.value];
    }
    return TePasses(values);
  }

  /** The whole load, as the loader does it, is the simple form. */
  method LoadRows(tx: Transaction, ops: TextOps, data: seq<Cells>, h: TeHeader, cap: nat)
    returns (inserted: nat, failed: nat, shown: seq<TeError>)
    requires WellFormedTe(h) && !tx.aborted && tx.saves == []
    modifies tx
    ensures !tx.aborted && tx.saves == []
    ensures var r := Load(tx.rules, ops, old(tx.table), data, h);
            tx.table == r.table && inserted == r.count
            && failed == |r.errors| && shown == CappedErrors(r.errors, cap)
    ensures |data| == inserted + failed
  {
    failed, shown := 0, [];
    var toInsert: seq<TeRow> := [];
    ghost var v := TeJudgeAll(ops, data, h);
    ghost var c := CheckAll(v[..0]);
    for r := 0 to |data|
      invariant c == CheckAll(v[..r]) && toInsert == c.rows
      invariant failed == |c.errors| && shown == CappedErrors(c.errors, cap)
      invariant !tx.aborted && tx.saves == [] && tx.table == old(tx.table)
    {
      var verdict := CheckRow(ops, data[r], h, r);
      CheckAllNext(v, r);
      assert verdict == v[r];
      if verdict.TeFails? {
        CappedErrorsNext(c.errors, verdict.error, cap);
        if |shown| < cap {
          shown := shown + [verdict.error];
        }
        failed := failed + 1;
      } else {
        toInsert := toInsert + [verdict.row];
      }
      c := CheckNext(c, v[r]);
    }
    assert v[..|data|] == v;
    LoadCounts(tx.rules, ops, tx.table, data, h);
    inserted, failed, shown := InsertInChunks(tx, toInsert, 500, 100, cap, c.errors, failed, shown);
  }
}
