/**
 * The requests as the program carries them out: parse, check, drop, create,
 * insert and register step by step, on a copy that is published only by a commit.
 */
module Server {
  import opened Common
  import CsvText
  import Sanitize
  import opened Cast
  import opened RowLoading
  import TeLoading
  import opened Registry

  const CHUNK := 500

  /** One chunk of the insert; the rows the database returns are counted. */
  method InsertChunk(ghost table: seq<Stored>, rows: seq<Stored>, start: nat, end: nat, now: seq<Stored>)
    returns (after: seq<Stored>, returned: nat)
    requires start <= end <= |rows| && now == InsertIgnoring(table, rows, start)
    ensures after == InsertIgnoring(table, rows, end) && |after| == |now| + returned
  {
    after, returned := now, 0;
    for i := start to end
      invariant after == InsertIgnoring(table, rows, i) && |after| == |now| + returned
    {
      if !HasKey(after, rows[i].rowHash) {
        after := after + [rows[i]];
        returned := returned + 1;
      }
    }
  }

  method InsertAll(table: seq<Stored>, rows: seq<Stored>) returns (after: seq<Stored>, inserted: nat)
    ensures after == InsertIgnoring(table, rows, |rows|) && |after| == |table| + inserted
  {
    after, inserted := table, 0;
    var i := 0;
    while i < |rows|
      invariant i <= |rows| && after == InsertIgnoring(table, rows, i) && |after| == |table| + inserted
    {
      var end := Min(i + CHUNK, |rows|);
      var returned;
      after, returned := InsertChunk(table, rows, i, end, after);
      inserted := inserted + returned;
      i := end;
    }
  }

  /** Sanitise the header and choose the types, with the loader's checks in their order. */
  method CheckHeader(c: Config, header: Cells, types: Option<seq<ColType>>) returns (h: Option<Header>)
    ensures h == LoaderHeader(c, header, types)
  {
    var columns := Sanitize.Sanitize(c.norm, header);
    if columns == [] || !Sanitize.Distinct(columns) || !ValidNames(columns) {
      return None;
    }
    if types.Some? && |types.value| != |columns| {
      return None;
    }
    var colTypes := if types.Some? && types.value != [] then types.value else seq(|columns|, _ => TextType);
    if !AllowedTypes(colTypes) {
      return None;
    }
    return Some(Header(columns, colTypes));
  }

  /** Every column of the file must be one of the table; its type is looked up there. */
  method CheckTeHeader(c: Config, t: TeTable, header: Cells) returns (h: Option<TeLoading.TeHeader>)
    ensures h == TeHeaderFor(c, t, header)
  {
    hide Sanitize.SanitizeColumns;
    var columns := Sanitize.Sanitize(c.norm, header);
    if t.columns == map[] {
      return None;
    }
    var types: seq<Option<ColType>> := [];
    for i := 0 to |columns|
      invariant |types| == i
      invariant forall k :: 0 <= k < i ==> columns[k] in t.columns && types[k] == t.columns[columns[k]]
    {
      if columns[i] !in t.columns {
        return None;
      }
      types := types + [t.columns[columns[i]]];
    }
    ghost var spec := TeHeaderFor(c, t, header);
    assert spec.Some? && types == spec.value.types;
    return Some(TeLoading.TeHeader(columns, types));
  }

  class Transactions {
    const c: Config
    var files: seq<FileRow>
    var tables: map<TableName, Contents>
    var nextId: nat

    function State(): Db
      reads this
    {
      Db(files, tables, nextId)
    }

    constructor (c: Config, db: Db)
      ensures this.c == c && State() == db
    {
      this.c, files, tables, nextId := c, db.files, db.tables, db.nextId;
    }

    method Commit(db: Db)
      modifies this
      ensures State() == db
    {
      files, tables, nextId := db.files, db.tables, db.nextId;
    }

    /** Create the table, insert and register, in the transaction's copy `db`. */
    method InsertAndRegister(db: Db, fileName: string, hash: string, toInsert: seq<Stored>, failed: nat,
                             duplicates: nat, total: nat, ghost p: Pass)
      returns (outcome: Outcome, next: Option<Db>)
      requires toInsert == p.rows && failed == |p.errors| && duplicates == p.duplicates
      ensures (outcome, next) == LoadPass(c, db, fileName, hash, p, total)
    {
      var q := TableName(c.uploads, DynamicTable(hash));
      var table := UploadedRows(db, q);
      if total > 0 && failed == total {
        return Failed, None;
      }
      var rows, inserted := InsertAll(table, toInsert);
      var f := FileRow(db.nextId, fileName, hash, q.name, Dynamic, inserted, total, duplicates, failed);
      next := Register(db.(tables := db.tables[q := Uploaded(rows)]), f);
      if next.None? {
        return Duplicate(f), None;
      }
      return Loaded(f.id, f.tableName, f.totalRows, f.rowCount, f.duplicates, f.failedRows), next;
    }

    method LoadRows(db: Db, fileName: string, hash: string, h: Header, data: seq<Cells>)
      returns (outcome: Outcome, next: Option<Db>, rowErrors: seq<RowError>)
      requires WellFormed(h)
      ensures (outcome, next) == LoadInto(c, db, fileName, hash, h, data)
      ensures rowErrors == Capped(PassOver(JudgeAll(c.env, data, h)).errors, c.maxErrors)
    {
      var toInsert, failed, duplicates;
      toInsert, rowErrors, failed, duplicates := CastRows(c.env, data, h, c.maxErrors);
      ghost var p := PassOver(JudgeAll(c.env, data, h));
      outcome, next := InsertAndRegister(db, fileName, hash, toInsert, failed, duplicates, |data|, p);
    }

    /** `reported`: the columns and types named in the answer. */
    method Upload(fileName: string, content: string, types: Option<seq<ColType>>, overwrite: bool, fails: bool)
      returns (outcome: Outcome, reported: Option<Header>, rowErrors: seq<RowError>)
      modifies this
      ensures var r := UploadDynamic(fileName, content, types, overwrite, fails);
        && outcome == Handle(c, old(State()), r).0 && State() == Step(c, old(State()), r)
        && reported == ReportedHeader(c, old(State()), r)
      ensures rowErrors == if reported.None? then []
        else Capped(PassOver(JudgeAll(c.env, CsvText.Parse(content)[1..], reported.value)).errors, c.maxErrors)
    {
      hide LoaderHeader, LoadInto, JudgeAll, PassOver, Capped, ShapeProblem, RemoveWhere;
      reported, rowErrors := None, [];
      ghost var r := UploadDynamic(fileName, content, types, overwrite, fails);
      var rows := CsvText.ParseCsv(content);
      var problem := ShapeProblem(c, rows);
      if problem.Some? {
        return problem.value, None, [];
      }
      ghost var before := State();
      var hash := HashOf(c, content);
      var work := State();
      var named := Find(work.files, ByName(fileName));
      if named.Some? {
        if !overwrite {
          return Duplicate(named.value), None, [];
        }
        work := RemoveFile(c, work, named.value);
      }
      var same := Find(work.files, ByHash(hash));
      if same.Some? {
        if !overwrite {
          return Duplicate(same.value), None, [];
        }
        work := RemoveFile(c, work, same.value);
      }
      assert ClearEarlier(c, before, fileName, hash, overwrite) == Clear(work);
      var h := CheckHeader(c, rows[0], types);
      if h.None? || fails {
        assert DoUpload(c, before, r, rows) == (Failed, None);
        return Failed, None, [];
      }
      var next, errors;
      outcome, next, errors := LoadRows(work, fileName, hash, h.value, rows[1..]);
      assert DoUpload(c, before, r, rows) == (outcome, next);
      if !outcome.Duplicate? {
        reported, rowErrors := h, errors;
      }
      if next.Some? {
        Commit(next.value);
      }
    }

    method LoadTe(fileName: string, content: string, target: string, fails: bool)
      returns (outcome: Outcome, reported: Option<TeLoading.TeHeader>, rowErrors: seq<TeLoading.TeError>)
      modifies this
      ensures var r := UploadTe(fileName, content, target, fails);
        && outcome == Handle(c, old(State()), r).0 && State() == Step(c, old(State()), r)
        && reported == ReportedTe(c, old(State()), r)
      ensures rowErrors == if reported.None? then []
        else TeLoading.CappedErrors(
               TeLoading.Load(c.teTables[target].rules, c.env.ops, TeContents(old(State()), TableName(c.te, target)),
                              CsvText.Parse(content)[1..], reported.value).errors, c.maxErrors)
    {
      hide TeLoading.Load, TeLoading.CappedErrors, TeHeaderFor, FinishTe, TeContents, Sanitize.SanitizeColumns;
      reported, rowErrors := None, [];
      ghost var r := UploadTe(fileName, content, target, fails);
      ghost var before := State();
      if target !in c.teNames {
        return Failed, None, [];
      }
      var rows := CsvText.ParseCsv(content);
      if |rows| < 2 {
        return Invalid(if rows == [] then "empty" else "header_only"), None, [];
      }
      if |rows| - 1 > c.maxRows || target !in c.teTables {
        return Failed, None, [];
      }
      var t := c.teTables[target];
      var h := CheckTeHeader(c, t, rows[0]);
      if h.None? || fails {
        assert DoTe(c, before, r, rows) == (Failed, None);
        return Failed, None, [];
      }
      var q := TableName(c.te, target);
      var tx := new TeLoading.Transaction(t.rules, TeContents(State(), q));
      var inserted, failed, errors;
      inserted, failed, errors := TeLoading.LoadRows(tx, c.env.ops, rows[1..], h.value, c.maxErrors);
      ghost var loaded := TeLoading.Load(t.rules, c.env.ops, TeContents(before, q), rows[1..], h.value);
      var next;
      outcome, next := FinishLoad(fileName, content, target, fails, tx.table, inserted, failed, |rows| - 1, loaded);
      assert DoTe(c, before, r, rows) == FinishTe(c, before, r, loaded, |rows| - 1);
      if next.Some? {
        reported, rowErrors := h, errors;
        Commit(next.value);
      }
    }

    /** After the rows: forget earlier uploads of the file and register this one. */
    method FinishLoad(fileName: string, content: string, target: string, fails: bool, table: seq<TeLoading.TeRow>,
                      inserted: nat, failed: nat, total: nat, ghost loaded: TeLoading.Inserted)
      returns (outcome: Outcome, next: Option<Db>)
      requires loaded.table == table && loaded.count == inserted && |loaded.errors| == failed
      ensures (outcome, next)
           == FinishTe(c, State(), UploadTe(fileName, content, target, fails), loaded, total)
      ensures outcome.Loaded? <==> next.Some?
    {
      var hash := HashOf(c, content);
      var work := State().(tables := tables[TableName(c.te, target) := TeRows(table)]);
      work := RemoveWhere(c, work, ByNameOrHash(fileName, hash), true);
      var f := FileRow(nextId, fileName, hash, c.te + "." + target, Te, inserted, total, 0, failed);
      next := Register(work, f);
      if next.None? {
        return Failed, None;
      }
      return Loaded(f.id, f.tableName, f.totalRows, f.rowCount, 0, f.failedRows), next;
    }

    method Delete(id: nat, fails: bool) returns (outcome: Outcome)
      modifies this
      ensures outcome == Handle(c, old(State()), DeleteFile(id, fails)).0
      ensures State() == Step(c, old(State()), DeleteFile(id, fails))
    {
      if !c.destructive {
        return Forbidden;
      }
      var found := Find(files, ById(id));
      if found.None? {
        return NotFound;
      }
      if fails {
        return Failed;
      }
      Commit(RemoveWhere(c, State(), ById(id), false));
      return Deleted(id);
    }
  }
}
