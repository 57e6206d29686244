/**
 * What a load leaves in a table: the rows of the file, with the values their
 * cells mean, in file order. Said of the committed state, without the functions
 * that cast, collect and insert.
 */
module LoadedRows {
  import opened Common
  import CsvText
  import Sanitize
  import opened Cast
  import opened CellValues
  import opened RowLoading
  import TeLoading
  import opened Registry

  // ---------------------------------------------------------------------
  // One row of a dynamic upload
  // ---------------------------------------------------------------------

  /** A short row is filled up with empty cells. */
  ghost predicate RowMeans(ops: TextOps, raw: Cells, types: seq<ColType>, values: seq<Value>) {
    && |values| == |types|
    && forall c :: 0 <= c < |types| ==> Means(ops, if c < |raw| then raw[c] else "", types[c], values[c])
  }

  ghost predicate Loadable(ops: TextOps, raw: Cells, types: seq<ColType>) {
    && NothingBeyond(ops, raw, |types|)
    && forall c :: 0 <= c < |types| ==> HasMeaning(ops, if c < |raw| then raw[c] else "", types[c])
  }

  /** The row's key: SHA-256 of its cells, filled up, with U+001F between them. */
  function KeyOf(env: Env, raw: Cells, width: nat): string {
    env.sha(CsvText.Join("\U{1F}", Filled(raw, width)))
  }

  function Filled(raw: Cells, width: nat): (cells: Cells)
    ensures |cells| == width && forall c :: 0 <= c < width ==> cells[c] == if c < |raw| then raw[c] else ""
  {
    seq(width, c requires 0 <= c < width => if c < |raw| then raw[c] else "")
  }

  /** The loader passes a row exactly if it has nothing beyond the header and every cell
      means something in its column; then it stores what the cells mean. */
  lemma PassedRowMeans(env: Env, raw: Cells, h: Header, number: nat)
    requires WellFormed(h)
    ensures var v := Judge(env, raw, h, number);
      && (v.Passes? <==> Loadable(env.ops, raw, h.types))
      && (v.Passes? ==> RowMeans(env.ops, raw, h.types, v.row.values) && v.row.rowHash == KeyOf(env, raw, |h.types|))
  {
    hide CastValue, Means, ExtraCells, CsvText.Join;
    var extra := ExtraTells(env.ops, raw, |h.columns|);
    var bad := FirstBadCell(env.ops, raw, h, 0);
    forall c | 0 <= c < |h.types|
      ensures CellFails(env.ops, raw, h, c) <==> !HasMeaning(env.ops, if c < |raw| then raw[c] else "", h.types[c])
    {
      CastRefuses(env.ops, Cell(raw, c), h.types[c]);
    }
    if Judge(env, raw, h, number).Passes? {
      forall c | 0 <= c < |h.types|
        ensures Means(env.ops, if c < |raw| then raw[c] else "", h.types[c], StoredRow(env, raw, h).values[c])
      {
        assert !CellFails(env.ops, raw, h, c);
        var r := CastValue(env.ops, Cell(raw, c), h.types[c]);
        CastFindsMeaning(env.ops, Cell(raw, c), h.types[c], r.value);
      }
      assert Padded(raw, |h.types|) == Filled(raw, |h.types|);
    }
  }

  function Ragged(cells: nat, width: nat): string {
    "Row has " + Sanitize.Decimal(cells) + " cells but the header has " + Sanitize.Decimal(width)
    + "; the extra value(s) would be lost, so the row was not imported."
  }

  /** The error of a refused row: its first cell beyond the header that is not blank, or
      else its first cell that means nothing, with the reason for its type. */
  lemma FailedRowTells(env: Env, raw: Cells, h: Header, number: nat) returns (c: nat)
    requires WellFormed(h) && Judge(env, raw, h, number).Fails?
    ensures var e := Judge(env, raw, h, number).error;
      && e.rowNumber == number
      && if !NothingBeyond(env.ops, raw, |h.columns|) then
           && e.column == "(beyond header)" && |h.columns| <= c < |raw| && e.value == raw[c]
           && e.reason == Ragged(|raw|, |h.columns|)
           && (forall i :: |h.columns| <= i < c ==> env.ops.strip(raw[i]) == "") && env.ops.strip(raw[c]) != ""
         else
           && c < |h.columns| && e.column == h.columns[c] && e.value == (if c < |raw| then raw[c] else "")
           && !HasMeaning(env.ops, e.value, h.types[c]) && e.reason == Complaint(e.value, h.types[c])
           && forall i :: 0 <= i < c ==> HasMeaning(env.ops, if i < |raw| then raw[i] else "", h.types[i])
  {
    hide CastValue, Means, HasMeaning, Complaint, ExtraCells;
    c := ExtraTells(env.ops, raw, |h.columns|);
    if NothingBeyond(env.ops, raw, |h.columns|) {
      c := FirstBadCell(env.ops, raw, h, 0);
      CastRefuses(env.ops, Cell(raw, c), h.types[c]);
      forall i | 0 <= i < c ensures HasMeaning(env.ops, if i < |raw| then raw[i] else "", h.types[i]) {
        assert !CellFails(env.ops, raw, h, i);
        CastRefuses(env.ops, Cell(raw, i), h.types[i]);
      }
    }
  }

  // ---------------------------------------------------------------------
  // The table of a dynamic upload
  // ---------------------------------------------------------------------

  /** The types a request names, or text for every column. */
  function TypesFor(r: Request, width: nat): seq<ColType>
    requires r.UploadDynamic?
  {
    if r.types.Some? && r.types.value != [] then r.types.value else seq(width, _ => TextType)
  }

  /** No earlier row that can be loaded has the row's key. */
  ghost predicate FirstLoadable(env: Env, data: seq<Cells>, types: seq<ColType>, i: nat)
    requires i < |data|
  {
    Loadable(env.ops, data[i], types)
    && forall j :: 0 <= j < i && Loadable(env.ops, data[j], types) ==>
         KeyOf(env, data[j], |types|) != KeyOf(env, data[i], |types|)
  }

  /** The table's rows are, in file order, these rows of the file, with what their cells mean. */
  ghost predicate Holds(env: Env, table: seq<Stored>, data: seq<Cells>, types: seq<ColType>, kept: seq<nat>) {
    && |kept| == |table| && Increasing(kept)
    && (forall k :: 0 <= k < |kept| ==>
          && kept[k] < |data| && RowMeans(env.ops, data[kept[k]], types, table[k].values)
          && table[k].rowHash == KeyOf(env, data[kept[k]], |types|))
  }

  lemma JudgedRowsMean(env: Env, data: seq<Cells>, h: Header, i: nat)
    requires WellFormed(h) && i < |data|
    ensures var v := JudgeAll(env, data, h)[i];
      && (v.Passes? <==> Loadable(env.ops, data[i], h.types))
      && (v.Passes? ==> RowMeans(env.ops, data[i], h.types, v.row.values)
                        && v.row.rowHash == KeyOf(env, data[i], |h.types|))
  {
    hide Judge, Loadable, RowMeans, KeyOf;
    PassedRowMeans(env, data[i], h, i + 1);
  }

  lemma FirstsAreLoadable(env: Env, data: seq<Cells>, h: Header, i: nat)
    requires WellFormed(h) && i < |data|
    ensures FirstOfItsKind(JudgeAll(env, data, h), i) <==> FirstLoadable(env, data, h.types, i)
  {
    hide JudgeAll, Loadable, RowMeans, KeyOf;
    forall j | 0 <= j <= i
      ensures var v := JudgeAll(env, data, h)[j];
        && (v.Passes? <==> Loadable(env.ops, data[j], h.types))
        && (v.Passes? ==> v.row.rowHash == KeyOf(env, data[j], |h.types|))
    {
      JudgedRowsMean(env, data, h, j);
    }
  }

  lemma PassHolds(env: Env, data: seq<Cells>, h: Header)
    requires WellFormed(h)
    ensures var p := PassOver(JudgeAll(env, data, h));
      && Holds(env, p.rows, data, h.types, p.kept)
      && forall i :: 0 <= i < |data| ==> (i in p.kept <==> FirstLoadable(env, data, h.types, i))
  {
    var v := JudgeAll(env, data, h);
    var p := PassOver(v);
    PassKeepsFirsts(v);
    hide JudgeAll, PassOver, Loadable, RowMeans, KeyOf, FirstLoadable;
    forall k | 0 <= k < |p.kept|
      ensures RowMeans(env.ops, data[p.kept[k]], h.types, p.rows[k].values)
      ensures p.rows[k].rowHash == KeyOf(env, data[p.kept[k]], |h.types|)
    {
      JudgedRowsMean(env, data, h, p.kept[k]);
    }
    forall i | 0 <= i < |data| ensures i in p.kept <==> FirstLoadable(env, data, h.types, i) {
      FirstsAreKept(v, i);
      FirstsAreLoadable(env, data, h, i);
    }
  }

  lemma HeaderHasTypes(c: Config, r: Request, header: Cells)
    requires r.UploadDynamic? && LoaderHeader(c, header, r.types).Some?
    ensures LoaderHeader(c, header, r.types).value.types == TypesFor(r, |header|) && |TypesFor(r, |header|)| == |header|
  {
    hide Sanitize.SanitizeColumns;
  }

  /** A loaded dynamic upload: the committed table holds exactly the first row of each key
      among the rows that can be loaded, in file order, each cell with the value its text
      means in its column's type. */
  lemma LoadedTableHoldsValues(c: Config, db: Db, r: Request) returns (kept: seq<nat>)
    requires r.UploadDynamic? && Inv(c, db) && PrefixesDiffer(Hashes(db) + {HashOf(c, r.content)})
    requires Handle(c, db, r).0.Loaded?
    ensures var rows, o := CsvText.Parse(r.content), Handle(c, db, r).0;
            var q, tables := TableName(c.uploads, o.tableName), Step(c, db, r).tables;
      && |rows| > 1 && q in tables && tables[q].Uploaded?
      && var data, types, table := rows[1..], TypesFor(r, |rows[0]|), tables[q].rows;
         Holds(c.env, table, data, types, kept)
         && (forall i :: 0 <= i < |data| ==> (i in kept <==> FirstLoadable(c.env, data, types, i)))
         && o.insertedRows == |table| > 0 && o.totalRows == |data| && |types| == |rows[0]|
  {
    LoadedTableHoldsFirsts(c, db, r);
    var rows := CsvText.Parse(r.content);
    var h := LoaderHeader(c, rows[0], r.types).value;
    PassHolds(c.env, rows[1..], h);
    HeaderHasTypes(c, r, rows[0]);
    kept := PassOver(JudgeAll(c.env, rows[1..], h)).kept;
    hide Handle, Step, Inv, PrefixesDiffer, Hashes, LoaderHeader, PassOver, JudgeAll, Holds, FirstLoadable;
  }

  // ---------------------------------------------------------------------
  // One row of a T&E load
  // ---------------------------------------------------------------------

  /** A trimmed cell of a T&E row stands for this value; a column without a type that the
      loader knows takes the text. */
  ghost predicate TeCellMeans(ops: TextOps, cell: string, t: Option<ColType>, value: Value) {
    if cell == "" then value == Null
    else if t.None? then value == Text(cell)
    else Means(ops, cell, t.value, value)
  }

  ghost predicate TeHasMeaning(ops: TextOps, cell: string, t: Option<ColType>) {
    exists value :: TeCellMeans(ops, cell, t, value)
  }

  ghost predicate TeRowMeans(ops: TextOps, raw: Cells, types: seq<Option<ColType>>, row: TeLoading.TeRow) {
    && NothingBeyond(ops, raw, |types|) && |row| == |types|
    && forall c :: 0 <= c < |types| ==>
         TeCellMeans(ops, if c < |raw| then ops.strip(raw[c]) else "", types[c], row[c])
  }

  lemma TeCastFindsMeaning(ops: TextOps, raw: Cells, h: TeLoading.TeHeader, c: nat, value: Value)
    requires c < |h.types|
    ensures TeLoading.TeCast(ops, raw, h, c) == Ok(value)
            <==> TeCellMeans(ops, if c < |raw| then ops.strip(raw[c]) else "", h.types[c], value)
  {
    hide CastValue, Means;
    if h.types[c].Some? {
      CastFindsMeaning(ops, TeLoading.TeCell(ops, raw, c), h.types[c].value, value);
    }
  }

  /** The T&E loader's check passes a row with the values its cells mean, and no other row. */
  lemma TeRowPasses(ops: TextOps, raw: Cells, h: TeLoading.TeHeader, number: nat, row: TeLoading.TeRow)
    requires TeLoading.WellFormedTe(h)
    ensures TeLoading.TeJudge(ops, raw, h, number) == TeLoading.TePasses(row) <==> TeRowMeans(ops, raw, h.types, row)
  {
    hide TeLoading.TeCast, TeCellMeans, ExtraCells, RaggedReason;
    var extra := ExtraTells(ops, raw, |h.columns|);
    var bad := TeLoading.TeFirstBad(ops, raw, h, 0);
    if |row| == |h.types| {
      forall c | 0 <= c < |h.types|
        ensures TeLoading.TeCast(ops, raw, h, c) == Ok(row[c])
                <==> TeCellMeans(ops, if c < |raw| then ops.strip(raw[c]) else "", h.types[c], row[c])
      {
        TeCastFindsMeaning(ops, raw, h, c, row[c]);
      }
    }
  }

  /** The error of a T&E row that its loader's check refuses: as for a dynamic upload, but
      with the trimmed cell. */
  lemma TeFailedRowTells(ops: TextOps, raw: Cells, h: TeLoading.TeHeader, number: nat) returns (c: nat)
    requires TeLoading.WellFormedTe(h) && TeLoading.TeJudge(ops, raw, h, number).TeFails?
    ensures TeLoading.TeJudge(ops, raw, h, number).error.CellError?
    ensures var e := TeLoading.TeJudge(ops, raw, h, number).error.error;
      && e.rowNumber == number
      && if !NothingBeyond(ops, raw, |h.columns|) then
           && e.column == "(beyond header)" && |h.columns| <= c < |raw| && e.value == raw[c]
           && e.reason == Ragged(|raw|, |h.columns|) && ops.strip(raw[c]) != ""
           && forall i :: |h.columns| <= i < c ==> ops.strip(raw[i]) == ""
         else
           && c < |h.columns| && e.column == h.columns[c] && e.value == (if c < |raw| then ops.strip(raw[c]) else "")
           && h.types[c].Some? && e.reason == Complaint(e.value, h.types[c].value)
           && !TeHasMeaning(ops, e.value, h.types[c])
           && forall i :: 0 <= i < c ==> TeHasMeaning(ops, if i < |raw| then ops.strip(raw[i]) else "", h.types[i])
  {
    c := ExtraTells(ops, raw, |h.columns|);
    if NothingBeyond(ops, raw, |h.columns|) {
      c := TeLoading.TeFirstBad(ops, raw, h, 0);
      CastRefuses(ops, TeLoading.TeCell(ops, raw, c), h.types[c].value);
      hide CastValue, TeCellMeans, ExtraCells, Complaint;
      forall value ensures !TeCellMeans(ops, TeLoading.TeCell(ops, raw, c), h.types[c], value) {
        TeCastFindsMeaning(ops, raw, h, c, value);
      }
      forall i | 0 <= i < c
        ensures TeHasMeaning(ops, if i < |raw| then ops.strip(raw[i]) else "", h.types[i])
      {
        TeCastFindsMeaning(ops, raw, h, i, TeLoading.TeCast(ops, raw, h, i).value);
      }
    }
  }

  // ---------------------------------------------------------------------
  // The table of a T&E load
  // ---------------------------------------------------------------------

  /** The table before and after one row of the file: the row is added, with what its cells
      mean, if it means something and the database accepts it. */
  ghost predicate TakesRow(
      rules: TeLoading.Rules, ops: TextOps, types: seq<Option<ColType>>, raw: Cells,
      before: seq<TeLoading.TeRow>, after: seq<TeLoading.TeRow>)
  {
    || (exists row :: TeRowMeans(ops, raw, types, row) && rules.accepts(before, row) && after == before + [row])
    || (after == before && forall row :: TeRowMeans(ops, raw, types, row) ==> !rules.accepts(before, row))
  }

  /** The tables a load goes through, one more for each row of the file, in file order. */
  ghost predicate Fills(
      rules: TeLoading.Rules, ops: TextOps, types: seq<Option<ColType>>, data: seq<Cells>,
      tables: seq<seq<TeLoading.TeRow>>)
  {
    && |tables| == |data| + 1
    && forall i :: 0 <= i < |data| ==> TakesRow(rules, ops, types, data[i], tables[i], tables[i + 1])
  }

  /** The table after the first rows of the file, by the loader's own order of work. */
  function After(rules: TeLoading.Rules, table: seq<TeLoading.TeRow>, v: seq<TeLoading.TeVerdict>)
    : seq<TeLoading.TeRow>
  {
    TeLoading.OneByOne(rules, TeLoading.Inserted(table, 0, []), TeLoading.CheckAll(v).rows, 1).table
  }

  lemma AfterNext(rules: TeLoading.Rules, table: seq<TeLoading.TeRow>, v: seq<TeLoading.TeVerdict>, n: nat)
    requires n < |v|
    ensures var before, after := After(rules, table, v[..n]), After(rules, table, v[..n + 1]);
            if v[n].TePasses? && rules.accepts(before, v[n].row) then after == before + [v[n].row] else after == before
  {
    TeLoading.CheckAllNext(v, n);
    var rows := TeLoading.CheckAll(v[..n]).rows;
    if v[n].TePasses? {
      var more := rows + [v[n].row];
      assert more[..|rows|] == rows && more[..|rows| + 1] == more;
      TeLoading.OneByOneNext(rules, TeLoading.Inserted(table, 0, []), more, |rows|, 1);
    }
  }

  lemma VerdictTakesRow(
      rules: TeLoading.Rules, ops: TextOps, h: TeLoading.TeHeader, data: seq<Cells>, n: nat,
      before: seq<TeLoading.TeRow>, after: seq<TeLoading.TeRow>)
    requires TeLoading.WellFormedTe(h) && n < |data|
    requires var v := TeLoading.TeJudgeAll(ops, data, h)[n];
             if v.TePasses? && rules.accepts(before, v.row) then after == before + [v.row] else after == before
    ensures TakesRow(rules, ops, h.types, data[n], before, after)
  {
    var v := TeLoading.TeJudgeAll(ops, data, h)[n];
    assert v == TeLoading.TeJudge(ops, data[n], h, n + 1);
    hide TeLoading.TeJudge, TeLoading.TeJudgeAll, TeRowMeans;
    forall row ensures v == TeLoading.TePasses(row) <==> TeRowMeans(ops, data[n], h.types, row) {
      TeRowPasses(ops, data[n], h, n + 1, row);
    }
    if v.TePasses? {
      assert TeRowMeans(ops, data[n], h.types, v.row);
    }
  }

  lemma LoadFills(
      rules: TeLoading.Rules, ops: TextOps, table: seq<TeLoading.TeRow>, data: seq<Cells>, h: TeLoading.TeHeader)
    returns (tables: seq<seq<TeLoading.TeRow>>)
    requires TeLoading.WellFormedTe(h)
    ensures Fills(rules, ops, h.types, data, tables) && tables[0] == table
    ensures tables[|data|] == TeLoading.Load(rules, ops, table, data, h).table
  {
    var v := TeLoading.TeJudgeAll(ops, data, h);
    tables := seq(|data| + 1, n requires 0 <= n <= |data| => After(rules, table, v[..n]));
    assert v[..0] == [] && v[..|data|] == v;
    TeLoading.ErrorsDoNotMatter(rules, table, TeLoading.CheckAll(v).errors, TeLoading.CheckAll(v).rows);
    hide TeLoading.TeJudgeAll, TakesRow;
    forall n | 0 <= n < |data| ensures TakesRow(rules, ops, h.types, data[n], tables[n], tables[n + 1]) {
      AfterNext(rules, table, v, n);
      VerdictTakesRow(rules, ops, h, data, n, tables[n], tables[n + 1]);
    }
  }

  /** The types the loader knows of the columns a file names. */
  function TeTypes(c: Config, t: TeTable, header: Cells): (types: seq<Option<ColType>>)
    ensures |types| == |header|
  {
    var names := Sanitize.SanitizeColumns(c.norm, header);
    seq(|header|, i requires 0 <= i < |header| => if names[i] in t.columns then t.columns[names[i]] else None)
  }

  lemma TeHeaderTypes(c: Config, t: TeTable, header: Cells)
    requires TeHeaderFor(c, t, header).Some?
    ensures TeHeaderFor(c, t, header).value.types == TeTypes(c, t, header)
  {
    hide Sanitize.SanitizeColumns;
    assert forall i :: 0 <= i < |header| ==>
      TeHeaderFor(c, t, header).value.types[i] == TeTypes(c, t, header)[i];
  }

  /** The tables of the T&E schema after the last steps of a load. */
  lemma FinishTeTables(c: Config, db: Db, r: Request, loaded: TeLoading.Inserted, total: nat)
    requires r.UploadTe? && c.uploads != c.te && FinishTe(c, db, r, loaded, total).0.Loaded?
    ensures var (o, next) := FinishTe(c, db, r, loaded, total);
      && next.Some? && o.insertedRows == loaded.count && o.totalRows == total && o.failedRows == |loaded.errors|
      && o.duplicates == 0 && o.tableName == c.te + "." + r.target
      && forall q: TableName :: q.schema == c.te ==>
           if q == TableName(c.te, r.target) then q in next.value.tables && next.value.tables[q] == TeRows(loaded.table)
           else (q in next.value.tables <==> q in db.tables)
                && (q in db.tables ==> next.value.tables[q] == db.tables[q])
  {
  }

  lemma DoTeAnswers(c: Config, db: Db, r: Request, rows: seq<Cells>)
    requires r.UploadTe? && r.target in c.teTables && |rows| > 1
    ensures DoTe(c, db, r, rows).0.Loaded? || DoTe(c, db, r, rows).0.Failed?
  {
    hide TeHeaderFor, TeLoading.Load;
  }

  /** A T&E load is answered with success exactly if its table is one of the fixed ones and
      deployed, the file has data rows but not too many and names only the table's columns,
      and the database does not fail. */
  lemma TeLoadedExactly(c: Config, db: Db, r: Request)
    requires r.UploadTe? && Inv(c, db) && PrefixesDiffer(Hashes(db) + {HashOf(c, r.content)})
    ensures var rows, answer := CsvText.Parse(r.content), Handle(c, db, r).0;
            if r.target in c.teNames && rows == [] then answer == Invalid("empty")
            else if r.target in c.teNames && |rows| == 1 then answer == Invalid("header_only")
            else answer.Loaded? || answer.Failed?
    ensures var rows := CsvText.Parse(r.content);
            Handle(c, db, r).0.Loaded? <==>
              && r.target in c.teNames && 2 <= |rows| <= c.maxRows + 1 && r.target in c.teTables
              && c.teTables[r.target].columns != map[]
              && (forall name :: name in Sanitize.SanitizeColumns(c.norm, rows[0]) ==>
                    name in c.teTables[r.target].columns)
              && !r.fails
  {
    hide DoTe, Inv, PrefixesDiffer, Hashes, Sanitize.SanitizeColumns;
    var rows := CsvText.Parse(r.content);
    if r.target in c.teTables && |rows| > 1 {
      DoTeKeepsInv(c, db, r, rows);
      DoTeAnswers(c, db, r, rows);
    }
  }

  /** A loaded T&E file: its rows are in the table behind the old ones, in file order, each
      with the values its cells mean, except those that mean nothing or that the database
      refused; the answer counts them; and every other T&E table is as it was. */
  lemma TeTableFills(c: Config, db: Db, r: Request) returns (tables: seq<seq<TeLoading.TeRow>>)
    requires r.UploadTe? && Inv(c, db) && Handle(c, db, r).0.Loaded?
    ensures var rows, o, now := CsvText.Parse(r.content), Handle(c, db, r).0, Step(c, db, r).tables;
            var q := TableName(c.te, r.target);
      && |rows| > 1 && r.target in c.teTables && q in db.tables && db.tables[q].TeRows? && q in now && now[q].TeRows?
      && var t, data := c.teTables[r.target], rows[1..];
         Fills(t.rules, c.env.ops, TeTypes(c, t, rows[0]), data, tables)
         && tables[0] == db.tables[q].loaded && tables[|data|] == now[q].loaded
         && |now[q].loaded| == |db.tables[q].loaded| + o.insertedRows
         && o.totalRows == |data| == o.insertedRows + o.failedRows
    ensures var now := Step(c, db, r).tables;
            forall q: TableName :: q.schema == c.te && q != TableName(c.te, r.target) ==>
              (q in now <==> q in db.tables) && (q in now ==> now[q] == db.tables[q])
  {
    var rows, q := CsvText.Parse(r.content), TableName(c.te, r.target);
    var t := c.teTables[r.target];
    var h := TeHeaderFor(c, t, rows[0]).value;
    var table := TeContents(db, q);
    assert q in db.tables && db.tables[q].TeRows?;
    tables := LoadFills(t.rules, c.env.ops, table, rows[1..], h);
    TeHeaderTypes(c, t, rows[0]);
    TeLoading.LoadCounts(t.rules, c.env.ops, table, rows[1..], h);
    var loaded := TeLoading.Load(t.rules, c.env.ops, table, rows[1..], h);
    assert Handle(c, db, r) == FinishTe(c, db, r, loaded, |rows| - 1);
    hide Handle, FinishTe, TeLoading.Load, Fills, TeHeaderFor;
    FinishTeTables(c, db, r, loaded, |rows| - 1);
  }
}
