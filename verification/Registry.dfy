/**
 * The upload registry and its tables, with each request taken as one
 * transaction: dynamic uploads, loads into T&E tables, and deletions.
 *
 * A request works on a copy of the committed state. Only a commit publishes the
 * copy; a return or an error before the commit leaves the state as it was.
 */
module Registry {
  import opened Common
  import CsvText
  import Sanitize
  import opened Cast
  import opened RowLoading
  import RowKeys
  import TeLoading

  datatype TableName = TableName(schema: string, name: string)

  datatype Contents = Uploaded(rows: seq<Stored>) | TeRows(loaded: seq<TeLoading.TeRow>)

  datatype Mode = Dynamic | Te

  /** A row of `csv_files`. */
  datatype FileRow = FileRow(
    id: nat, fileName: string, fileHash: string, tableName: string, mode: Mode,
    rowCount: nat, totalRows: nat, duplicates: nat, failedRows: nat)

  datatype Db = Db(files: seq<FileRow>, tables: map<TableName, Contents>, nextId: nat)

  /** A deployed T&E table: the types of its columns, where the loader can check them,
      and the database's own rules. */
  datatype TeTable = TeTable(columns: map<string, Option<ColType>>, rules: TeLoading.Rules)

  datatype Config = Config(
    env: Env, norm: string -> string,
    uploads: string, te: string,               // the two schemas
    teNames: set<string>, teTables: map<string, TeTable>,
    maxRows: nat, maxErrors: nat, destructive: bool)

  datatype Request =
    | UploadDynamic(fileName: string, content: string, types: Option<seq<ColType>>, overwrite: bool, fails: bool)
    | UploadTe(fileName: string, content: string, target: string, fails: bool)
    | DeleteFile(id: nat, fails: bool)

  /** `fails`: a database error ends the request before its commit. */
  datatype Outcome =
    | Loaded(fileId: nat, tableName: string, totalRows: nat, insertedRows: nat, duplicates: nat, failedRows: nat)
    | Deleted(id: nat)
    | Duplicate(existing: FileRow)
    | Invalid(reason: string)
    | Failed
    | Forbidden
    | NotFound

  predicate Committed(o: Outcome) {
    o.Loaded? || o.Deleted?
  }

  function HashOf(c: Config, content: string): string {
    c.env.sha(content)
  }

  /** `csv_` and the first 16 characters of the content hash. */
  function DynamicTable(hash: string): string {
    "csv_" + hash[..Min(16, |hash|)]
  }

  function UploadTable(c: Config, f: FileRow): TableName {
    TableName(c.uploads, f.tableName)
  }

  predicate StartsWith(s: string, prefix: string) {
    |prefix| <= |s| && s[..|prefix|] == prefix
  }

  // ---------------------------------------------------------------------
  // Looking up and removing registry rows
  // ---------------------------------------------------------------------

  function ByName(name: string): FileRow -> bool {
    (f: FileRow) => f.fileName == name
  }

  function ByHash(hash: string): FileRow -> bool {
    (f: FileRow) => f.fileHash == hash
  }

  function ByNameOrHash(name: string, hash: string): FileRow -> bool {
    (f: FileRow) => f.fileName == name || f.fileHash == hash
  }

  function ById(id: nat): FileRow -> bool {
    (f: FileRow) => f.id == id
  }

  function Not(p: FileRow -> bool): FileRow -> bool {
    (f: FileRow) => !p(f)
  }

  function Find(files: seq<FileRow>, p: FileRow -> bool): (r: Option<FileRow>)
    ensures r.Some? ==> r.value in files && p(r.value)
    ensures r.None? ==> forall i :: 0 <= i < |files| ==> !p(files[i])
  {
    if files == [] then None else if p(files[0]) then Some(files[0]) else Find(files[1..], p)
  }

  /** Only a bare `csv_` name of a dynamic row is dropped; T&E rows name a shared table.
      Deleting a file checks the mode alone. */
  predicate Droppable(f: FileRow, checkName: bool) {
    f.mode.Dynamic? && (checkName ==> StartsWith(f.tableName, "csv_"))
  }

  function Dropped(c: Config, files: seq<FileRow>, p: FileRow -> bool, checkName: bool): set<TableName> {
    set f | f in files && p(f) && Droppable(f, checkName) :: UploadTable(c, f)
  }

  function RemoveWhere(c: Config, db: Db, p: FileRow -> bool, checkName: bool): Db {
    db.(files := Filter(Not(p), db.files), tables := db.tables - Dropped(c, db.files, p, checkName))
  }

  function RemoveFile(c: Config, db: Db, file: FileRow): Db {
    RemoveWhere(c, db, ById(file.id), true)
  }

  // ---------------------------------------------------------------------
  // A dynamic upload
  // ---------------------------------------------------------------------

  predicate HasKey(rows: seq<Stored>, key: string) {
    exists i :: 0 <= i < |rows| && rows[i].rowHash == key
  }

  /** INSERT ... ON CONFLICT (_row_hash) DO NOTHING, for the first `n` rows. */
  function InsertIgnoring(table: seq<Stored>, rows: seq<Stored>, n: nat): seq<Stored>
    requires n <= |rows|
  {
    if n == 0 then table
    else
      var before := InsertIgnoring(table, rows, n - 1);
      if HasKey(before, rows[n - 1].rowHash) then before else before + [rows[n - 1]]
  }

  /** What is wrong with the shape of a file, if anything. */
  function ShapeProblem(c: Config, rows: seq<Cells>): (r: Option<Outcome>)
    ensures r.Some? ==> r.value.Invalid? || r.value.Failed?
    ensures r.None? ==> |rows| > 1
  {
    if rows == [] then Some(Invalid("empty"))
    else if |rows| == 1 then Some(Invalid("header_only"))
    else if AllBlank(c.env.ops, rows[0]) then Some(Invalid("no_columns"))
    else if |rows| - 1 > c.maxRows then Some(Failed)
    else None
  }

  /** The header the loader works with, unless one of its checks fails. */
  function LoaderHeader(c: Config, header: Cells, types: Option<seq<ColType>>): (h: Option<Header>)
    ensures h.Some? ==> WellFormed(h.value)
  {
    var columns := Sanitize.SanitizeColumns(c.norm, header);
    if columns == [] || !Sanitize.Distinct(columns) || !ValidNames(columns) then None
    else if types.Some? && |types.value| != |columns| then None
    else
      var t := if types.Some? && types.value != [] then types.value else seq(|columns|, _ => TextType);
      if AllowedTypes(t) then Some(Header(columns, t)) else None
  }

  predicate ValidNames(columns: seq<string>) {
    forall i :: 0 <= i < |columns| ==> Sanitize.ValidIdentifier(columns[i])
  }

  predicate AllowedTypes(types: seq<ColType>) {
    forall i :: 0 <= i < |types| ==> !types[i].Other?
  }

  /** The state after the checks for an earlier upload, or that upload if it is in the way. */
  datatype Cleared = Clear(db: Db) | Taken(file: FileRow)

  function ClearOne(c: Config, db: Db, p: FileRow -> bool, overwrite: bool): Cleared {
    var found := Find(db.files, p);
    if found.None? then Clear(db)
    else if !overwrite then Taken(found.value)
    else Clear(RemoveFile(c, db, found.value))
  }

  function ClearEarlier(c: Config, db: Db, fileName: string, hash: string, overwrite: bool): Cleared {
    match ClearOne(c, db, ByName(fileName), overwrite)
    case Taken(file) => Taken(file)
    case Clear(db1) => ClearOne(c, db1, ByHash(hash), overwrite)
  }

  function UploadedRows(db: Db, q: TableName): seq<Stored> {
    if q in db.tables && db.tables[q].Uploaded? then db.tables[q].rows else []
  }

  /** INSERT into the registry; its unique indexes may refuse the row. */
  function Register(db: Db, f: FileRow): Option<Db> {
    if Find(db.files, ByNameOrHash(f.fileName, f.fileHash)).Some? then None
    else Some(db.(files := db.files + [f], nextId := db.nextId + 1))
  }

  function FileRowFor(db: Db, fileName: string, hash: string, before: nat, rows: nat, p: Pass, total: nat): FileRow {
    FileRow(db.nextId, fileName, hash, DynamicTable(hash), Dynamic,
            if rows >= before then rows - before else 0, total, p.duplicates, |p.errors|)
  }

  /** Create the table, insert what the pass kept, register. The table's columns are not modelled. */
  function LoadPass(c: Config, db: Db, fileName: string, hash: string, p: Pass, total: nat): (Outcome, Option<Db>) {
    var q := TableName(c.uploads, DynamicTable(hash));
    var before := UploadedRows(db, q);
    if total > 0 && |p.errors| == total then (Failed, None)
    else
      var rows := InsertIgnoring(before, p.rows, |p.rows|);
      var f := FileRowFor(db, fileName, hash, |before|, |rows|, p, total);
      var registered := Register(db.(tables := db.tables[q := Uploaded(rows)]), f);
      if registered.None? then (Duplicate(f), None)
      else (Loaded(f.id, f.tableName, f.totalRows, f.rowCount, f.duplicates, f.failedRows), registered)
  }

  function LoadInto(
      c: Config, db: Db, fileName: string, hash: string, h: Header, data: seq<Cells>): (Outcome, Option<Db>)
    requires WellFormed(h)
  {
    LoadPass(c, db, fileName, hash, PassOver(JudgeAll(c.env, data, h)), |data|)
  }

  function DoUpload(c: Config, db: Db, r: Request, rows: seq<Cells>): (Outcome, Option<Db>)
    requires r.UploadDynamic? && |rows| > 1
  {
    var hash := HashOf(c, r.content);
    match ClearEarlier(c, db, r.fileName, hash, r.overwrite)
    case Taken(file) => (Duplicate(file), None)
    case Clear(db1) =>
      var h := LoaderHeader(c, rows[0], r.types);
      if h.None? || r.fails then (Failed, None)
      else LoadInto(c, db1, r.fileName, hash, h.value, rows[1..])
  }

  // ---------------------------------------------------------------------
  // A load into a T&E table, and a deletion
  // ---------------------------------------------------------------------

  function TeHeaderFor(c: Config, t: TeTable, header: Cells): (h: Option<TeLoading.TeHeader>)
    ensures h.Some? ==> TeLoading.WellFormedTe(h.value)
  {
    var columns := Sanitize.SanitizeColumns(c.norm, header);
    if t.columns == map[] || exists i :: 0 <= i < |columns| && columns[i] !in t.columns then None
    else Some(TeLoading.TeHeader(columns,
           seq(|columns|, i requires 0 <= i < |columns| =>
                 if columns[i] in t.columns then t.columns[columns[i]] else None)))
  }

  function TeContents(db: Db, q: TableName): seq<TeLoading.TeRow> {
    if q in db.tables && db.tables[q].TeRows? then db.tables[q].loaded else []
  }

  /** Put the loaded rows in place, forget earlier uploads of the file, register. */
  function FinishTe(c: Config, db: Db, r: Request, loaded: TeLoading.Inserted, total: nat): (Outcome, Option<Db>)
    requires r.UploadTe?
  {
    var hash := HashOf(c, r.content);
    var db1 := db.(tables := db.tables[TableName(c.te, r.target) := TeRows(loaded.table)]);
    var db2 := RemoveWhere(c, db1, ByNameOrHash(r.fileName, hash), true);
    var f := FileRow(db.nextId, r.fileName, hash, c.te + "." + r.target, Te,
                     loaded.count, total, 0, |loaded.errors|);
    var registered := Register(db2, f);
    if registered.None? then (Failed, None)
    else (Loaded(f.id, f.tableName, f.totalRows, f.rowCount, 0, f.failedRows), registered)
  }

  function DoTe(c: Config, db: Db, r: Request, rows: seq<Cells>): (Outcome, Option<Db>)
    requires r.UploadTe? && r.target in c.teTables && |rows| > 1
  {
    var t := c.teTables[r.target];
    var h := TeHeaderFor(c, t, rows[0]);
    if h.None? || r.fails then (Failed, None)
    else
      var table := TeContents(db, TableName(c.te, r.target));
      FinishTe(c, db, r, TeLoading.Load(t.rules, c.env.ops, table, rows[1..], h.value), |rows| - 1)
  }

  function DoDelete(c: Config, db: Db, r: Request): (Outcome, Option<Db>)
    requires r.DeleteFile?
  {
    if !c.destructive then (Forbidden, None)
    else
      var found := Find(db.files, ById(r.id));
      if found.None? then (NotFound, None)
      else if r.fails then (Failed, None)
      else (Deleted(r.id), Some(RemoveWhere(c, db, ById(r.id), false)))
  }

  /** The outcome of a request, and the state it commits, if it commits. */
  function Handle(c: Config, db: Db, r: Request): (Outcome, Option<Db>) {
    match r
    case UploadDynamic(_, content, _, _, _) =>
      var rows := CsvText.Parse(content);
      var problem := ShapeProblem(c, rows);
      if problem.Some? then (problem.value, None) else DoUpload(c, db, r, rows)
    case UploadTe(_, content, target, _) =>
      var rows := CsvText.Parse(content);
      if target !in c.teNames then (Failed, None)
      else if |rows| < 2 then (Invalid(if rows == [] then "empty" else "header_only"), None)
      else if |rows| - 1 > c.maxRows || target !in c.teTables then (Failed, None)
      else DoTe(c, db, r, rows)
    case DeleteFile(_, _) => DoDelete(c, db, r)
  }

  /** The columns and types a dynamic upload's answer names: it does once the rows have been
      judged, unless the unique indexes then refuse the file. */
  function ReportedHeader(c: Config, db: Db, r: Request): (h: Option<Header>)
    requires r.UploadDynamic?
    ensures h.Some? ==> WellFormed(h.value) && |CsvText.Parse(r.content)| > 1
                        && LoaderHeader(c, CsvText.Parse(r.content)[0], r.types) == h
  {
    var rows := CsvText.Parse(r.content);
    if ShapeProblem(c, rows).Some? then None
    else
      var h := LoaderHeader(c, rows[0], r.types);
      match ClearEarlier(c, db, r.fileName, HashOf(c, r.content), r.overwrite)
      case Taken(_) => None
      case Clear(db1) =>
        if h.None? || r.fails then None
        else if LoadInto(c, db1, r.fileName, HashOf(c, r.content), h.value, rows[1..]).0.Duplicate? then None
        else h
  }

  /** A T&E load's answer names its columns if it has loaded. */
  function ReportedTe(c: Config, db: Db, r: Request): (h: Option<TeLoading.TeHeader>)
    requires r.UploadTe?
    ensures h.Some? ==> TeLoading.WellFormedTe(h.value) && |CsvText.Parse(r.content)| > 1 && r.target in c.teTables
  {
    var rows := CsvText.Parse(r.content);
    if Handle(c, db, r).0.Loaded? && |rows| > 1 && r.target in c.teTables
    then TeHeaderFor(c, c.teTables[r.target], rows[0])
    else None
  }

  function Step(c: Config, db: Db, r: Request): Db {
    var (_, next) := Handle(c, db, r);
    if next.Some? then next.value else db
  }

  function Run(c: Config, db: Db, requests: seq<Request>): Db {
    if requests == [] then db
    else Step(c, Run(c, db, requests[..|requests| - 1]), requests[|requests| - 1])
  }

  // ---------------------------------------------------------------------
  // The invariant
  // ---------------------------------------------------------------------

  predicate Unique(files: seq<FileRow>) {
    forall i, j :: 0 <= i < j < |files| ==>
      files[i].fileName != files[j].fileName && files[i].fileHash != files[j].fileHash && files[i].id != files[j].id
  }

  /** A dynamic row names a table of the uploads schema that holds `row_count` rows. */
  predicate TableMatches(c: Config, db: Db, f: FileRow) {
    && f.tableName == DynamicTable(f.fileHash)
    && UploadTable(c, f) in db.tables && db.tables[UploadTable(c, f)].Uploaded?
    && |db.tables[UploadTable(c, f)].rows| == f.rowCount > 0
  }

  predicate Named(c: Config, db: Db, q: TableName) {
    exists i :: 0 <= i < |db.files| && db.files[i].mode.Dynamic? && UploadTable(c, db.files[i]) == q
  }

  ghost predicate Inv(c: Config, db: Db) {
    && c.uploads != c.te
    && Unique(db.files)
    && (forall i :: 0 <= i < |db.files| ==> db.files[i].id < db.nextId)
    && (forall i :: 0 <= i < |db.files| && db.files[i].mode.Dynamic? ==> TableMatches(c, db, db.files[i]))
    && (forall q :: q in db.tables && q.schema == c.uploads ==> Named(c, db, q))
    && (forall t :: t in c.teTables ==>
          TableName(c.te, t) in db.tables && db.tables[TableName(c.te, t)].TeRows?)
  }

  /** No two of these content hashes share the prefix that names a table. */
  predicate PrefixesDiffer(hashes: set<string>) {
    forall x, y :: x in hashes && y in hashes && DynamicTable(x) == DynamicTable(y) ==> x == y
  }

  function Hashes(db: Db): set<string> {
    set f | f in db.files :: f.fileHash
  }

  lemma {:induction false} FilterKeepsUnique(files: seq<FileRow>, p: FileRow -> bool)
    requires Unique(files)
    ensures Unique(Filter(p, files))
  {
    if files != [] {
      var front, last := files[..|files| - 1], files[|files| - 1];
      FilterKeepsUnique(front, p);
      FilterMembers(p, front);
      assert files == front + [last];
      forall i | 0 <= i < |Filter(p, front)|
        ensures var f := Filter(p, front)[i];
                f.fileName != last.fileName && f.fileHash != last.fileHash && f.id != last.id
      {
        assert Filter(p, front)[i] in front;
      }
    }
  }

  lemma SameRow(files: seq<FileRow>, f: FileRow, g: FileRow)
    requires Unique(files) && f in files && g in files
    requires f.fileHash == g.fileHash || f.fileName == g.fileName || f.id == g.id
    ensures f == g
  {
  }

  /** Removing registry rows together with the tables they name keeps the invariant. */
  lemma RemoveKeepsInv(c: Config, db: Db, p: FileRow -> bool, checkName: bool)
    requires Inv(c, db) && PrefixesDiffer(Hashes(db))
    ensures Inv(c, RemoveWhere(c, db, p, checkName))
  {
    var db' := RemoveWhere(c, db, p, checkName);
    FilterKeepsUnique(db.files, Not(p));
    FilterMembers(Not(p), db.files);
    forall i | 0 <= i < |db'.files| ensures db'.files[i].id < db'.nextId {
      assert db'.files[i] in db.files;
    }
    forall i | 0 <= i < |db'.files| && db'.files[i].mode.Dynamic? ensures TableMatches(c, db', db'.files[i]) {
      KeptTableStays(c, db, p, checkName, db'.files[i]);
    }
    forall q | q in db'.tables && q.schema == c.uploads ensures Named(c, db', q) {
      KeptTableIsNamed(c, db, p, checkName, q);
    }
  }

  lemma KeptTableStays(c: Config, db: Db, p: FileRow -> bool, checkName: bool, f: FileRow)
    requires Inv(c, db) && PrefixesDiffer(Hashes(db)) && f in db.files && !p(f) && f.mode.Dynamic?
    ensures TableMatches(c, RemoveWhere(c, db, p, checkName), f)
  {
    assert TableMatches(c, db, f);
    forall g | g in db.files && p(g) && g.mode.Dynamic? ensures UploadTable(c, g) != UploadTable(c, f) {
      assert TableMatches(c, db, g);
      assert g.fileHash in Hashes(db) && f.fileHash in Hashes(db);
      assert g.fileHash == f.fileHash ==> g == f by {
        if g.fileHash == f.fileHash {
          SameRow(db.files, f, g);
        }
      }
    }
  }

  lemma KeptTableIsNamed(c: Config, db: Db, p: FileRow -> bool, checkName: bool, q: TableName)
    requires Inv(c, db)
    requires q in RemoveWhere(c, db, p, checkName).tables && q.schema == c.uploads
    ensures Named(c, RemoveWhere(c, db, p, checkName), q)
  {
    assert Named(c, db, q);
    var i :| 0 <= i < |db.files| && db.files[i].mode.Dynamic? && UploadTable(c, db.files[i]) == q;
    var f := db.files[i];
    assert TableMatches(c, db, f);
    assert Droppable(f, checkName);
    assert p(f) ==> q in Dropped(c, db.files, p, checkName);
    FilterMembers(Not(p), db.files);
    var rest := Filter(Not(p), db.files);
    assert f in rest;
    var j :| 0 <= j < |rest| && rest[j] == f;
  }

  // ---------------------------------------------------------------------
  // Clearing earlier uploads out of the way
  // ---------------------------------------------------------------------

  /** A property by which at most one registry row can be found. */
  ghost predicate AtMostOne(files: seq<FileRow>, p: FileRow -> bool) {
    forall f, g :: f in files && g in files && p(f) && p(g) ==> f == g
  }

  ghost predicate NoneHas(db: Db, p: FileRow -> bool) {
    forall f :: f in db.files ==> !p(f)
  }

  lemma NameAndHashAreKeys(db: Db, name: string, hash: string)
    requires Unique(db.files)
    ensures AtMostOne(db.files, ByName(name)) && AtMostOne(db.files, ByHash(hash))
  {
    forall f, g | f in db.files && g in db.files && (f.fileName == g.fileName || f.fileHash == g.fileHash)
      ensures f == g
    {
      SameRow(db.files, f, g);
    }
  }

  lemma ClearOneClears(c: Config, db: Db, p: FileRow -> bool, overwrite: bool)
    requires Inv(c, db) && PrefixesDiffer(Hashes(db)) && AtMostOne(db.files, p)
    ensures ClearOne(c, db, p, overwrite).Taken? <==> !overwrite && !NoneHas(db, p)
    ensures var r := ClearOne(c, db, p, overwrite);
            r.Clear? ==> Inv(c, r.db) && NoneHas(r.db, p) && (forall f :: f in r.db.files ==> f in db.files)
  {
    var found := Find(db.files, p);
    if found.None? {
      assert NoneHas(db, p);
    } else if overwrite {
      RemoveKeepsInv(c, db, ById(found.value.id), true);
      FilterMembers(Not(ById(found.value.id)), db.files);
    }
  }

  lemma FewerHashes(c: Config, db: Db, db': Db, hashes: set<string>)
    requires forall f :: f in db'.files ==> f in db.files
    requires PrefixesDiffer(Hashes(db) + hashes)
    ensures PrefixesDiffer(Hashes(db') + hashes) && PrefixesDiffer(Hashes(db))
  {
    assert Hashes(db') <= Hashes(db);
    assert Hashes(db') + hashes <= Hashes(db) + hashes;
  }

  /** After the checks nothing registered has the name or the content; and an upload is
      turned away exactly when something has and it may not overwrite. */
  lemma ClearEarlierClears(c: Config, db: Db, fileName: string, hash: string, overwrite: bool)
    requires Inv(c, db) && PrefixesDiffer(Hashes(db) + {hash})
    ensures var r := ClearEarlier(c, db, fileName, hash, overwrite);
      && (r.Taken? <==> !overwrite && !NoneHas(db, ByNameOrHash(fileName, hash)))
      && (r.Clear? ==> Inv(c, r.db) && NoneHas(r.db, ByNameOrHash(fileName, hash))
                       && PrefixesDiffer(Hashes(r.db) + {hash}))
  {
    FewerHashes(c, db, db, {hash});
    NameAndHashAreKeys(db, fileName, hash);
    ClearOneClears(c, db, ByName(fileName), overwrite);
    var first := ClearOne(c, db, ByName(fileName), overwrite);
    if first.Clear? {
      FewerHashes(c, db, first.db, {hash});
      NameAndHashAreKeys(first.db, fileName, hash);
      ClearOneClears(c, first.db, ByHash(hash), overwrite);
      var second := ClearOne(c, first.db, ByHash(hash), overwrite);
      if second.Clear? {
        FewerHashes(c, first.db, second.db, {hash});
      }
      if !overwrite {
        assert first.db == db;
      }
    }
  }

  lemma OtherTable(c: Config, db: Db, f: FileRow, hash: string)
    requires Inv(c, db) && PrefixesDiffer(Hashes(db) + {hash})
    requires f in db.files && f.mode.Dynamic? && f.fileHash != hash
    ensures UploadTable(c, f) != TableName(c.uploads, DynamicTable(hash))
  {
    assert TableMatches(c, db, f) && f.fileHash in Hashes(db) + {hash} && hash in Hashes(db) + {hash};
  }

  /** Once no row has the content, its table does not exist: it will be created fresh. */
  lemma TableIsFresh(c: Config, db: Db, hash: string)
    requires Inv(c, db) && PrefixesDiffer(Hashes(db) + {hash}) && NoneHas(db, ByHash(hash))
    ensures TableName(c.uploads, DynamicTable(hash)) !in db.tables
  {
    var q := TableName(c.uploads, DynamicTable(hash));
    forall i | 0 <= i < |db.files| && db.files[i].mode.Dynamic? ensures UploadTable(c, db.files[i]) != q {
      assert db.files[i] in db.files && !ByHash(hash)(db.files[i]);
      OtherTable(c, db, db.files[i], hash);
    }
    assert !Named(c, db, q);
  }

  predicate KeysDiffer(rows: seq<Stored>) {
    forall j, k :: 0 <= j < k < |rows| ==> rows[j].rowHash != rows[k].rowHash
  }

  /** On a fresh table ON CONFLICT never fires: every row kept is inserted. */
  lemma {:induction false} FreshInsertTakesAll(rows: seq<Stored>, n: nat)
    requires KeysDiffer(rows) && n <= |rows|
    ensures InsertIgnoring([], rows, n) == rows[..n]
  {
    if n > 0 {
      FreshInsertTakesAll(rows, n - 1);
      assert !HasKey(rows[..n - 1], rows[n - 1].rowHash);
    }
  }

  lemma NothingRegistered(db: Db, f: FileRow)
    requires NoneHas(db, ByNameOrHash(f.fileName, f.fileHash))
    ensures Register(db, f) == Some(db.(files := db.files + [f], nextId := db.nextId + 1))
  {
  }

  /** Adding a registry row, and its table if it is a dynamic one. */
  lemma RegisterKeepsInv(c: Config, db: Db, f: FileRow, rows: seq<Stored>)
    requires Inv(c, db) && NoneHas(db, ByNameOrHash(f.fileName, f.fileHash)) && f.id == db.nextId
    requires f.mode.Dynamic? ==>
               UploadTable(c, f) !in db.tables && |rows| == f.rowCount > 0 && f.tableName == DynamicTable(f.fileHash)
    ensures var tables := if f.mode.Dynamic? then db.tables[UploadTable(c, f) := Uploaded(rows)] else db.tables;
            Inv(c, Db(db.files + [f], tables, db.nextId + 1))
  {
    var tables := if f.mode.Dynamic? then db.tables[UploadTable(c, f) := Uploaded(rows)] else db.tables;
    var db' := Db(db.files + [f], tables, db.nextId + 1);
    forall i | 0 <= i < |db.files|
      ensures var g := db.files[i]; g.fileName != f.fileName && g.fileHash != f.fileHash && g.id != f.id
    {
      assert db.files[i] in db.files;
    }
    forall i | 0 <= i < |db'.files| && db'.files[i].mode.Dynamic? ensures TableMatches(c, db', db'.files[i]) {
      if i < |db.files| {
        assert TableMatches(c, db, db.files[i]);
      }
    }
    forall q | q in tables && q.schema == c.uploads ensures Named(c, db', q) {
      if q in db.tables {
        assert Named(c, db, q);
        var i :| 0 <= i < |db.files| && db.files[i].mode.Dynamic? && UploadTable(c, db.files[i]) == q;
        assert db'.files[i] == db.files[i];
      } else {
        assert db'.files[|db.files|] == f;
      }
    }
  }

  // ---------------------------------------------------------------------
  // Every request keeps the invariant
  // ---------------------------------------------------------------------

  lemma RegisterFresh(c: Config, db: Db, f: FileRow, rows: seq<Stored>)
    requires Inv(c, db) && NoneHas(db, ByNameOrHash(f.fileName, f.fileHash))
    requires f.id == db.nextId && f.mode.Dynamic? && f.tableName == DynamicTable(f.fileHash)
    requires UploadTable(c, f) !in db.tables && |rows| == f.rowCount > 0
    ensures var tables := db.tables[UploadTable(c, f) := Uploaded(rows)];
            var next := Db(db.files + [f], tables, db.nextId + 1);
            Register(db.(tables := tables), f) == Some(next) && Inv(c, next)
  {
    NothingRegistered(db.(tables := db.tables[UploadTable(c, f) := Uploaded(rows)]), f);
    RegisterKeepsInv(c, db, f, rows);
  }

  lemma FreshTableFor(c: Config, db: Db, fileName: string, hash: string)
    requires Inv(c, db) && PrefixesDiffer(Hashes(db) + {hash}) && NoneHas(db, ByNameOrHash(fileName, hash))
    ensures TableName(c.uploads, DynamicTable(hash)) !in db.tables
  {
    forall f | f in db.files ensures !ByHash(hash)(f) {
      assert !ByNameOrHash(fileName, hash)(f);
    }
    TableIsFresh(c, db, hash);
  }

  lemma FreshLoadInserts(c: Config, db: Db, fileName: string, hash: string, h: Header, data: seq<Cells>)
    requires WellFormed(h) && data != []
    requires TableName(c.uploads, DynamicTable(hash)) !in db.tables
    requires |PassOver(JudgeAll(c.env, data, h)).errors| != |data|
    ensures var p := PassOver(JudgeAll(c.env, data, h));
            var f := FileRowFor(db, fileName, hash, 0, |p.rows|, p, |data|);
            var registered := Register(db.(tables := db.tables[UploadTable(c, f) := Uploaded(p.rows)]), f);
            var outcome := Loaded(db.nextId, f.tableName, |data|, |p.rows|, p.duplicates, |p.errors|);
            registered.Some? ==> LoadInto(c, db, fileName, hash, h, data) == (outcome, registered)
  {
    var p := PassOver(JudgeAll(c.env, data, h));
    KeptKeysDiffer(JudgeAll(c.env, data, h));
    FreshInsertTakesAll(p.rows, |p.rows|);
    assert p.rows[..|p.rows|] == p.rows;
  }

  /** What a load of these rows does to a registry that has nothing of this name or content. */
  ghost predicate LoadsFresh(
      c: Config, db: Db, fileName: string, hash: string, p: Pass, total: nat, outcome: Outcome, next: Option<Db>)
  {
    if |p.errors| == total then outcome == Failed && next == None
    else && outcome == Loaded(db.nextId, DynamicTable(hash), total, |p.rows|, p.duplicates, |p.errors|)
         && next.Some? && Inv(c, next.value)
         && next.value.tables == db.tables[TableName(c.uploads, DynamicTable(hash)) := Uploaded(p.rows)]
         && next.value.files == db.files + [FileRowFor(db, fileName, hash, 0, |p.rows|, p, total)]
  }

  /** A load that is not a total failure, into a registry that has nothing of this name or
      content: it commits, and its table holds exactly the rows the pass keeps. */
  lemma LoadIntoCommits(c: Config, db: Db, fileName: string, hash: string, h: Header, data: seq<Cells>)
    requires WellFormed(h) && data != []
    requires Inv(c, db) && PrefixesDiffer(Hashes(db) + {hash}) && NoneHas(db, ByNameOrHash(fileName, hash))
    ensures var p := PassOver(JudgeAll(c.env, data, h));
            var (outcome, next) := LoadInto(c, db, fileName, hash, h, data);
            LoadsFresh(c, db, fileName, hash, p, |data|, outcome, next)
  {
    var p := PassOver(JudgeAll(c.env, data, h));
    PassKeepsFirsts(JudgeAll(c.env, data, h));
    if |p.errors| != |data| {
      FreshTableFor(c, db, fileName, hash);
      RegisterFresh(c, db, FileRowFor(db, fileName, hash, 0, |p.rows|, p, |data|), p.rows);
      FreshLoadInserts(c, db, fileName, hash, h, data);
    }
  }

  /** Why the prefixes matter: a committed load keeps the invariant exactly when no dynamic
      row's table has the name the new one gets. If one has, two rows end up sharing a table. */
  lemma LoadKeepsInvExactly(c: Config, db: Db, fileName: string, hash: string, p: Pass, total: nat)
    requires Inv(c, db) && NoneHas(db, ByNameOrHash(fileName, hash))
    requires KeysDiffer(p.rows) && p.rows != [] && LoadPass(c, db, fileName, hash, p, total).1.Some?
    ensures Inv(c, LoadPass(c, db, fileName, hash, p, total).1.value) <==>
              forall f :: f in db.files && f.mode.Dynamic? ==>
                UploadTable(c, f) != TableName(c.uploads, DynamicTable(hash))
  {
    var q := TableName(c.uploads, DynamicTable(hash));
    if f :| f in db.files && f.mode.Dynamic? && UploadTable(c, f) == q {
      SharedTableBreaksInv(c, db, fileName, hash, p, total, f);
    } else {
      assert !Named(c, db, q);
      FreshInsertTakesAll(p.rows, |p.rows|);
      assert p.rows[..|p.rows|] == p.rows;
      RegisterFresh(c, db, FileRowFor(db, fileName, hash, 0, |p.rows|, p, total), p.rows);
    }
  }

  lemma SharedTableBreaksInv(c: Config, db: Db, fileName: string, hash: string, p: Pass, total: nat, f: FileRow)
    requires Inv(c, db) && LoadPass(c, db, fileName, hash, p, total).1.Some?
    requires f in db.files && f.mode.Dynamic? && UploadTable(c, f) == TableName(c.uploads, DynamicTable(hash))
    ensures !Inv(c, LoadPass(c, db, fileName, hash, p, total).1.value)
  {
    var next := LoadPass(c, db, fileName, hash, p, total).1.value;
    var i :| 0 <= i < |db.files| && db.files[i] == f;
    assert TableMatches(c, db, f);
    var q := UploadTable(c, f);
    var g := next.files[|db.files|];
    assert next.files[i] == f && UploadTable(c, g) == q;
    assert !(TableMatches(c, next, f) && TableMatches(c, next, g));
  }

  lemma DoUploadKeepsInv(c: Config, db: Db, r: Request, rows: seq<Cells>)
    requires r.UploadDynamic? && |rows| > 1
    requires Inv(c, db) && PrefixesDiffer(Hashes(db) + {HashOf(c, r.content)})
    ensures var (outcome, next) := DoUpload(c, db, r, rows);
            (next.Some? <==> Committed(outcome)) && (next.Some? ==> Inv(c, next.value))
  {
    hide LoaderHeader, LoadInto, ClearEarlier, Inv, Hashes, PrefixesDiffer, PassOver, JudgeAll;
    var hash := HashOf(c, r.content);
    ClearEarlierClears(c, db, r.fileName, hash, r.overwrite);
    var cleared := ClearEarlier(c, db, r.fileName, hash, r.overwrite);
    var h := LoaderHeader(c, rows[0], r.types);
    if cleared.Clear? && h.Some? && !r.fails {
      LoadIntoCommits(c, cleared.db, r.fileName, hash, h.value, rows[1..]);
    }
  }

  lemma TeRowsKeepInv(c: Config, db: Db, target: string, loaded: seq<TeLoading.TeRow>)
    requires Inv(c, db)
    ensures Inv(c, db.(tables := db.tables[TableName(c.te, target) := TeRows(loaded)]))
  {
    var db' := db.(tables := db.tables[TableName(c.te, target) := TeRows(loaded)]);
    forall i | 0 <= i < |db.files| && db.files[i].mode.Dynamic? ensures TableMatches(c, db', db.files[i]) {
      assert TableMatches(c, db, db.files[i]);
    }
    forall q | q in db'.tables && q.schema == c.uploads ensures Named(c, db', q) {
      assert Named(c, db, q);
    }
  }

  lemma FinishTeKeepsInv(c: Config, db: Db, r: Request, loaded: TeLoading.Inserted, total: nat)
    requires r.UploadTe? && Inv(c, db) && PrefixesDiffer(Hashes(db) + {HashOf(c, r.content)})
    ensures var (outcome, next) := FinishTe(c, db, r, loaded, total);
      && outcome == Loaded(db.nextId, c.te + "." + r.target, total, loaded.count, 0, |loaded.errors|)
      && next.Some? && Inv(c, next.value)
  {
    var hash := HashOf(c, r.content);
    var db1 := db.(tables := db.tables[TableName(c.te, r.target) := TeRows(loaded.table)]);
    TeRowsKeepInv(c, db, r.target, loaded.table);
    FewerHashes(c, db, db1, {hash});
    assert Hashes(db1) == Hashes(db);
    RemoveKeepsInv(c, db1, ByNameOrHash(r.fileName, hash), true);
    var db2 := RemoveWhere(c, db1, ByNameOrHash(r.fileName, hash), true);
    FilterMembers(Not(ByNameOrHash(r.fileName, hash)), db1.files);
    var f := FileRow(db.nextId, r.fileName, hash, c.te + "." + r.target, Te,
                     loaded.count, total, 0, |loaded.errors|);
    NothingRegistered(db2, f);
    RegisterKeepsInv(c, db2, f, []);
  }

  /** A T&E load that is not stopped by an error always commits, whatever was registered. */
  lemma DoTeKeepsInv(c: Config, db: Db, r: Request, rows: seq<Cells>)
    requires r.UploadTe? && r.target in c.teTables && |rows| > 1
    requires Inv(c, db) && PrefixesDiffer(Hashes(db) + {HashOf(c, r.content)})
    ensures var (outcome, next) := DoTe(c, db, r, rows);
      && (outcome.Loaded? <==> TeHeaderFor(c, c.teTables[r.target], rows[0]).Some? && !r.fails)
      && (next.Some? <==> outcome.Loaded?) && (next.Some? ==> Inv(c, next.value))
      && (outcome.Loaded? ==> outcome.totalRows == outcome.insertedRows + outcome.failedRows)
  {
    var t := c.teTables[r.target];
    var h := TeHeaderFor(c, t, rows[0]);
    if h.Some? && !r.fails {
      var table := TeContents(db, TableName(c.te, r.target));
      var loaded := TeLoading.Load(t.rules, c.env.ops, table, rows[1..], h.value);
      assert loaded.count + |loaded.errors| == |rows| - 1 by {
        TeLoading.LoadCounts(t.rules, c.env.ops, table, rows[1..], h.value);
      }
      FinishTeKeepsInv(c, db, r, loaded, |rows| - 1);
      assert DoTe(c, db, r, rows) == FinishTe(c, db, r, loaded, |rows| - 1);
    }
  }

  function OwnHash(c: Config, r: Request): set<string> {
    if r.DeleteFile? then {} else {HashOf(c, r.content)}
  }

  lemma UploadStep(c: Config, db: Db, r: Request)
    requires r.UploadDynamic? && Inv(c, db) && PrefixesDiffer(Hashes(db) + OwnHash(c, r))
    ensures Inv(c, Step(c, db, r)) && (Handle(c, db, r).1.Some? <==> Committed(Handle(c, db, r).0))
  {
    var rows := CsvText.Parse(r.content);
    if ShapeProblem(c, rows).None? {
      DoUploadKeepsInv(c, db, r, rows);
    }
  }

  lemma TeStep(c: Config, db: Db, r: Request)
    requires r.UploadTe? && Inv(c, db) && PrefixesDiffer(Hashes(db) + OwnHash(c, r))
    ensures Inv(c, Step(c, db, r)) && (Handle(c, db, r).1.Some? <==> Committed(Handle(c, db, r).0))
  {
    var rows := CsvText.Parse(r.content);
    if |rows| >= 2 && r.target in c.teTables {
      DoTeKeepsInv(c, db, r, rows);
    }
  }

  lemma DeleteStep(c: Config, db: Db, r: Request)
    requires r.DeleteFile? && Inv(c, db) && PrefixesDiffer(Hashes(db) + OwnHash(c, r))
    ensures Inv(c, Step(c, db, r)) && (Handle(c, db, r).1.Some? <==> Committed(Handle(c, db, r).0))
  {
    assert Hashes(db) + {} == Hashes(db);
    RemoveKeepsInv(c, db, ById(r.id), false);
  }

  /** One request: names, hashes and ids stay unique, the tables of the uploads schema stay
      exactly those the dynamic rows name, and each row count stays its table's size. A
      request commits something exactly when its outcome says so. */
  lemma StepKeepsInv(c: Config, db: Db, r: Request)
    requires Inv(c, db) && PrefixesDiffer(Hashes(db) + OwnHash(c, r))
    ensures Inv(c, Step(c, db, r))
    ensures Handle(c, db, r).1.Some? <==> Committed(Handle(c, db, r).0)
    ensures !Committed(Handle(c, db, r).0) ==> Step(c, db, r) == db
  {
    if r.UploadDynamic? {
      UploadStep(c, db, r);
    } else if r.UploadTe? {
      TeStep(c, db, r);
    } else {
      DeleteStep(c, db, r);
    }
  }

  // ---------------------------------------------------------------------
  // What a request can add, and what it never takes away
  // ---------------------------------------------------------------------

  /** A T&E table is never dropped and never loses a row. */
  ghost predicate TeGrows(c: Config, db: Db, db': Db) {
    forall q :: q in db.tables && q.schema == c.te ==>
      q in db'.tables && (db.tables[q].TeRows? ==>
        db'.tables[q].TeRows? && db.tables[q].loaded <= db'.tables[q].loaded)
  }

  /** Registry rows are old ones or of these contents, and T&E tables only grow. */
  ghost predicate Evolves(c: Config, db: Db, db': Db, hashes: set<string>) {
    && (forall f :: f in db'.files ==> f in db.files || f.fileHash in hashes)
    && TeGrows(c, db, db')
  }

  lemma RemoveEvolves(c: Config, db: Db, p: FileRow -> bool, checkName: bool)
    requires c.uploads != c.te
    ensures Evolves(c, db, RemoveWhere(c, db, p, checkName), {})
  {
    FilterMembers(Not(p), db.files);
  }

  lemma ClearOneEvolves(c: Config, db: Db, p: FileRow -> bool, overwrite: bool)
    requires c.uploads != c.te && ClearOne(c, db, p, overwrite).Clear?
    ensures Evolves(c, db, ClearOne(c, db, p, overwrite).db, {})
  {
    var found := Find(db.files, p);
    if found.Some? {
      RemoveEvolves(c, db, ById(found.value.id), true);
    }
  }

  lemma EvolvesOn(c: Config, a: Db, b: Db, d: Db, hashes: set<string>)
    requires Evolves(c, a, b, {}) && Evolves(c, b, d, hashes)
    ensures Evolves(c, a, d, hashes)
  {
    forall q | q in a.tables && q.schema == c.te
      ensures q in d.tables && (a.tables[q].TeRows? ==> d.tables[q].TeRows? && a.tables[q].loaded <= d.tables[q].loaded)
    {
      assert q in b.tables;
    }
  }

  lemma ClearEarlierEvolves(c: Config, db: Db, fileName: string, hash: string, overwrite: bool)
    requires c.uploads != c.te && ClearEarlier(c, db, fileName, hash, overwrite).Clear?
    ensures Evolves(c, db, ClearEarlier(c, db, fileName, hash, overwrite).db, {})
  {
    var first := ClearOne(c, db, ByName(fileName), overwrite);
    ClearOneEvolves(c, db, ByName(fileName), overwrite);
    ClearOneEvolves(c, first.db, ByHash(hash), overwrite);
    EvolvesOn(c, db, first.db, ClearOne(c, first.db, ByHash(hash), overwrite).db, {});
  }

  lemma LoadIntoEvolves(c: Config, db: Db, fileName: string, hash: string, h: Header, data: seq<Cells>)
    requires WellFormed(h) && c.uploads != c.te
    ensures var next := LoadInto(c, db, fileName, hash, h, data).1;
            next.Some? ==> Evolves(c, db, next.value, {hash})
  {
  }

  lemma DoUploadEvolves(c: Config, db: Db, r: Request, rows: seq<Cells>)
    requires r.UploadDynamic? && |rows| > 1 && c.uploads != c.te
    ensures var next := DoUpload(c, db, r, rows).1;
            next.Some? ==> Evolves(c, db, next.value, OwnHash(c, r))
  {
    hide JudgeAll, PassOver, LoaderHeader, ClearEarlier, LoadPass, Evolves;
    var hash := HashOf(c, r.content);
    var cleared := ClearEarlier(c, db, r.fileName, hash, r.overwrite);
    var h := LoaderHeader(c, rows[0], r.types);
    if cleared.Clear? && h.Some? && !r.fails {
      ClearEarlierEvolves(c, db, r.fileName, hash, r.overwrite);
      LoadIntoEvolves(c, cleared.db, r.fileName, hash, h.value, rows[1..]);
      var next := LoadInto(c, cleared.db, r.fileName, hash, h.value, rows[1..]).1;
      if next.Some? {
        EvolvesOn(c, db, cleared.db, next.value, {hash});
      }
    }
  }

  lemma UploadEvolves(c: Config, db: Db, r: Request)
    requires r.UploadDynamic? && c.uploads != c.te
    ensures Evolves(c, db, Step(c, db, r), OwnHash(c, r))
  {
    var rows := CsvText.Parse(r.content);
    if ShapeProblem(c, rows).None? {
      DoUploadEvolves(c, db, r, rows);
    }
  }

  lemma FinishTeEvolves(c: Config, db: Db, r: Request, loaded: TeLoading.Inserted, total: nat)
    requires r.UploadTe? && c.uploads != c.te
    requires TeContents(db, TableName(c.te, r.target)) <= loaded.table
    ensures var next := FinishTe(c, db, r, loaded, total).1;
            next.Some? ==> Evolves(c, db, next.value, OwnHash(c, r))
  {
    var db1 := db.(tables := db.tables[TableName(c.te, r.target) := TeRows(loaded.table)]);
    assert Evolves(c, db, db1, {});
    RemoveEvolves(c, db1, ByNameOrHash(r.fileName, HashOf(c, r.content)), true);
    var db2 := RemoveWhere(c, db1, ByNameOrHash(r.fileName, HashOf(c, r.content)), true);
    EvolvesOn(c, db, db1, db2, {});
    var next := FinishTe(c, db, r, loaded, total).1;
    if next.Some? {
      EvolvesOn(c, db, db2, next.value, OwnHash(c, r));
    }
  }

  lemma TeEvolves(c: Config, db: Db, r: Request)
    requires r.UploadTe? && c.uploads != c.te
    ensures Evolves(c, db, Step(c, db, r), OwnHash(c, r))
  {
    var rows := CsvText.Parse(r.content);
    if |rows| >= 2 && r.target in c.teTables {
      var t := c.teTables[r.target];
      var h := TeHeaderFor(c, t, rows[0]);
      if h.Some? {
        var table := TeContents(db, TableName(c.te, r.target));
        TeLoading.LoadCounts(t.rules, c.env.ops, table, rows[1..], h.value);
        FinishTeEvolves(c, db, r, TeLoading.Load(t.rules, c.env.ops, table, rows[1..], h.value), |rows| - 1);
      }
    }
  }

  /** No request drops a T&E table or takes a row out of one, and a request registers
      nothing but its own content. */
  lemma StepEvolves(c: Config, db: Db, r: Request)
    requires c.uploads != c.te
    ensures Evolves(c, db, Step(c, db, r), OwnHash(c, r))
  {
    if r.UploadDynamic? {
      UploadEvolves(c, db, r);
    } else if r.UploadTe? {
      TeEvolves(c, db, r);
    } else {
      RemoveEvolves(c, db, ById(r.id), false);
    }
  }

  function RequestHashes(c: Config, requests: seq<Request>): set<string> {
    set r | r in requests && !r.DeleteFile? :: HashOf(c, r.content)
  }

  lemma TeGrowsOn(c: Config, a: Db, b: Db, d: Db)
    requires TeGrows(c, a, b) && TeGrows(c, b, d)
    ensures TeGrows(c, a, d)
  {
    forall q | q in a.tables && q.schema == c.te
      ensures q in d.tables && (a.tables[q].TeRows? ==> d.tables[q].TeRows? && a.tables[q].loaded <= d.tables[q].loaded)
    {
      assert q in b.tables;
    }
  }

  /** Over every run no T&E table is dropped and none loses a row. */
  lemma {:induction false} EveryRunSparesTe(c: Config, db: Db, requests: seq<Request>)
    requires c.uploads != c.te
    ensures TeGrows(c, db, Run(c, db, requests))
  {
    if requests != [] {
      hide TeGrows, Step;
      var middle := Run(c, db, requests[..|requests| - 1]);
      EveryRunSparesTe(c, db, requests[..|requests| - 1]);
      StepSparesTe(c, middle, requests[|requests| - 1]);
      TeGrowsOn(c, db, middle, Step(c, middle, requests[|requests| - 1]));
    }
  }

  lemma StepSparesTe(c: Config, db: Db, r: Request)
    requires c.uploads != c.te
    ensures TeGrows(c, db, Step(c, db, r))
  {
    StepEvolves(c, db, r);
  }

  lemma EvolvesHashes(c: Config, db: Db, db': Db, hashes: set<string>)
    requires Evolves(c, db, db', hashes)
    ensures Hashes(db') <= Hashes(db) + hashes
  {
  }

  /** Over every run of uploads, loads and deletions, with every outcome, for contents whose
      hashes do not share a table prefix. */
  lemma {:induction false} EveryRunKeepsInv(c: Config, db: Db, requests: seq<Request>)
    requires Inv(c, db) && PrefixesDiffer(Hashes(db) + RequestHashes(c, requests))
    ensures Inv(c, Run(c, db, requests))
    ensures Hashes(Run(c, db, requests)) <= Hashes(db) + RequestHashes(c, requests)
  {
    if requests != [] {
      var front, r := requests[..|requests| - 1], requests[|requests| - 1];
      assert requests == front + [r];
      var all, middle := Hashes(db) + RequestHashes(c, requests), Run(c, db, front);
      assert RequestHashes(c, front) + OwnHash(c, r) <= RequestHashes(c, requests);
      assert PrefixesDiffer(Hashes(db) + RequestHashes(c, front));
      EveryRunKeepsInv(c, db, front);
      assert Hashes(middle) + OwnHash(c, r) <= all;
      StepKeepsInv(c, middle, r);
      StepEvolves(c, middle, r);
      EvolvesHashes(c, middle, Step(c, middle, r), OwnHash(c, r));
    }
  }

  /** An upload of a well-shaped file is refused as a duplicate exactly when a registered
      file has its name or its content and it may not overwrite: the unique indexes are
      never what refuses it. */
  lemma DuplicateExactly(c: Config, db: Db, r: Request)
    requires r.UploadDynamic? && ShapeProblem(c, CsvText.Parse(r.content)).None?
    requires Inv(c, db) && PrefixesDiffer(Hashes(db) + {HashOf(c, r.content)})
    ensures Handle(c, db, r).0.Duplicate?
            <==> !r.overwrite && exists f :: f in db.files && ByNameOrHash(r.fileName, HashOf(c, r.content))(f)
  {
    hide LoaderHeader, LoadInto, ClearEarlier, Inv, Hashes, PrefixesDiffer, PassOver, JudgeAll;
    var rows := CsvText.Parse(r.content);
    var hash := HashOf(c, r.content);
    ClearEarlierClears(c, db, r.fileName, hash, r.overwrite);
    var cleared := ClearEarlier(c, db, r.fileName, hash, r.overwrite);
    var h := LoaderHeader(c, rows[0], r.types);
    if cleared.Clear? && h.Some? && !r.fails {
      LoadIntoCommits(c, cleared.db, r.fileName, hash, h.value, rows[1..]);
    }
  }

  /** What an accepted upload of these rows commits. */
  ghost predicate HoldsFirsts(c: Config, db': Db, o: Outcome, h: Header, data: seq<Cells>)
    requires WellFormed(h) && o.Loaded?
  {
    var v := JudgeAll(c.env, data, h);
    var p := PassOver(v);
    && UploadedRows(db', TableName(c.uploads, o.tableName)) == p.rows
    && KeepsOnlyFirsts(v, p) && KeepsEveryKind(v, p)
    && o.insertedRows == |p.rows| > 0
    && o.totalRows == |data| == o.insertedRows + o.duplicates + o.failedRows
  }

  lemma LoadIntoHoldsFirsts(c: Config, db: Db, fileName: string, hash: string, h: Header, data: seq<Cells>)
    requires WellFormed(h) && data != []
    requires Inv(c, db) && PrefixesDiffer(Hashes(db) + {hash}) && NoneHas(db, ByNameOrHash(fileName, hash))
    ensures var (outcome, next) := LoadInto(c, db, fileName, hash, h, data);
            (outcome.Loaded? <==> next.Some?)
            && (outcome.Loaded? ==> HoldsFirsts(c, next.value, outcome, h, data))
  {
    LoadIntoCommits(c, db, fileName, hash, h, data);
    PassKeepsFirsts(JudgeAll(c.env, data, h));
  }

  lemma DoUploadHoldsFirsts(c: Config, db: Db, r: Request, rows: seq<Cells>)
    requires r.UploadDynamic? && |rows| > 1
    requires Inv(c, db) && PrefixesDiffer(Hashes(db) + {HashOf(c, r.content)})
    requires DoUpload(c, db, r, rows).0.Loaded?
    ensures var (outcome, next) := DoUpload(c, db, r, rows);
            var h := LoaderHeader(c, rows[0], r.types);
            h.Some? && next.Some? && HoldsFirsts(c, next.value, outcome, h.value, rows[1..])
  {
    var hash := HashOf(c, r.content);
    ClearEarlierClears(c, db, r.fileName, hash, r.overwrite);
    var cleared := ClearEarlier(c, db, r.fileName, hash, r.overwrite);
    var h := LoaderHeader(c, rows[0], r.types);
    LoadIntoHoldsFirsts(c, cleared.db, r.fileName, hash, h.value, rows[1..]);
  }

  /** An accepted dynamic upload: its table holds exactly the first row of each kind, in
      file order, and the counts add up, with at least one row inserted. */
  lemma LoadedTableHoldsFirsts(c: Config, db: Db, r: Request)
    requires r.UploadDynamic? && Inv(c, db) && PrefixesDiffer(Hashes(db) + {HashOf(c, r.content)})
    requires Handle(c, db, r).0.Loaded?
    ensures var rows := CsvText.Parse(r.content);
            && |rows| > 1 && LoaderHeader(c, rows[0], r.types).Some?
            && HoldsFirsts(c, Step(c, db, r), Handle(c, db, r).0, LoaderHeader(c, rows[0], r.types).value, rows[1..])
  {
    var rows := CsvText.Parse(r.content);
    assert ShapeProblem(c, rows).None?;
    DoUploadHoldsFirsts(c, db, r, rows);
  }

  /** For a parsed header the loader's own checks of the names never fail: it is refused
      only for its types. */
  lemma HeaderRefusedOnlyForTypes(c: Config, content: string, types: Option<seq<ColType>>)
    requires var rows := CsvText.Parse(content); rows != [] && |rows[0]| < 10_000_000
    ensures LoaderHeader(c, CsvText.Parse(content)[0], types).None? <==>
              types.Some? && (|types.value| != |CsvText.Parse(content)[0]| || !AllowedTypes(types.value))
  {
    var header := CsvText.Parse(content)[0];
    CsvText.ParsedRowsHaveCells(content);
    Sanitize.SanitizedNames(c.norm, header);
    var columns := Sanitize.SanitizeColumns(c.norm, header);
    assert ValidNames(columns);
  }

  // ---------------------------------------------------------------------
  // What a request leaves alone, and what it does
  // ---------------------------------------------------------------------

  /** The registered file, and its table with the same rows, are still there. */
  ghost predicate Kept(c: Config, db: Db, db': Db, f: FileRow) {
    && f in db'.files
    && (f.mode.Dynamic? ==> UploadTable(c, f) in db'.tables && UploadTable(c, f) in db.tables
                            && db'.tables[UploadTable(c, f)] == db.tables[UploadTable(c, f)])
  }

  /** The files a request is about: the one deleted, or those of its name or content. */
  predicate Concerns(c: Config, r: Request, f: FileRow) {
    if r.DeleteFile? then f.id == r.id else f.fileName == r.fileName || f.fileHash == HashOf(c, r.content)
  }

  lemma RemoveKeepsOthers(c: Config, db: Db, p: FileRow -> bool, checkName: bool, f: FileRow)
    requires Inv(c, db) && PrefixesDiffer(Hashes(db)) && f in db.files && !p(f)
    ensures Kept(c, db, RemoveWhere(c, db, p, checkName), f)
  {
    FilterMembers(Not(p), db.files);
    if f.mode.Dynamic? {
      KeptTableStays(c, db, p, checkName, f);
    }
  }

  lemma ClearOneKeepsOthers(c: Config, db: Db, p: FileRow -> bool, overwrite: bool, f: FileRow)
    requires Inv(c, db) && PrefixesDiffer(Hashes(db)) && f in db.files && !p(f)
    requires ClearOne(c, db, p, overwrite).Clear?
    ensures Kept(c, db, ClearOne(c, db, p, overwrite).db, f)
  {
    var found := Find(db.files, p);
    if found.Some? {
      var earlier := found.value;
      assert f.id != earlier.id by {
        if f.id == earlier.id { SameRow(db.files, f, earlier); }
      }
      RemoveKeepsOthers(c, db, ById(earlier.id), true, f);
    } else if f.mode.Dynamic? {
      assert TableMatches(c, db, f);
    }
  }

  lemma ClearEarlierKeepsOthers(c: Config, db: Db, fileName: string, hash: string, overwrite: bool, f: FileRow)
    requires Inv(c, db) && PrefixesDiffer(Hashes(db) + {hash}) && f in db.files && !ByNameOrHash(fileName, hash)(f)
    requires ClearEarlier(c, db, fileName, hash, overwrite).Clear?
    ensures Kept(c, db, ClearEarlier(c, db, fileName, hash, overwrite).db, f)
  {
    FewerHashes(c, db, db, {hash});
    NameAndHashAreKeys(db, fileName, hash);
    ClearOneClears(c, db, ByName(fileName), overwrite);
    ClearOneKeepsOthers(c, db, ByName(fileName), overwrite, f);
    var first := ClearOne(c, db, ByName(fileName), overwrite);
    FewerHashes(c, db, first.db, {hash});
    ClearOneKeepsOthers(c, first.db, ByHash(hash), overwrite, f);
  }

  lemma DoUploadKeepsOthers(c: Config, db: Db, r: Request, rows: seq<Cells>, f: FileRow)
    requires r.UploadDynamic? && |rows| > 1
    requires Inv(c, db) && PrefixesDiffer(Hashes(db) + OwnHash(c, r)) && f in db.files && !Concerns(c, r, f)
    ensures var (outcome, next) := DoUpload(c, db, r, rows); next.Some? ==> Kept(c, db, next.value, f)
  {
    hide JudgeAll, PassOver, LoaderHeader, ClearEarlier, LoadPass, Inv, Hashes, PrefixesDiffer;
    var hash := HashOf(c, r.content);
    var cleared := ClearEarlier(c, db, r.fileName, hash, r.overwrite);
    var h := LoaderHeader(c, rows[0], r.types);
    if cleared.Clear? && h.Some? && !r.fails {
      ClearEarlierClears(c, db, r.fileName, hash, r.overwrite);
      ClearEarlierKeepsOthers(c, db, r.fileName, hash, r.overwrite, f);
      LoadKeepsOthers(c, cleared.db, r.fileName, hash, PassOver(JudgeAll(c.env, rows[1..], h.value)), |rows| - 1, f);
    }
  }

  lemma LoadKeepsOthers(c: Config, db: Db, fileName: string, hash: string, p: Pass, total: nat, f: FileRow)
    requires Inv(c, db) && PrefixesDiffer(Hashes(db) + {hash}) && f in db.files && f.fileHash != hash
    ensures var next := LoadPass(c, db, fileName, hash, p, total).1; next.Some? ==> Kept(c, db, next.value, f)
  {
    if f.mode.Dynamic? {
      assert TableMatches(c, db, f);
      OtherTable(c, db, f, hash);
    }
  }

  lemma FinishTeKeepsOthers(c: Config, db: Db, r: Request, loaded: TeLoading.Inserted, total: nat, f: FileRow)
    requires r.UploadTe? && Inv(c, db) && PrefixesDiffer(Hashes(db) + OwnHash(c, r))
    requires f in db.files && !Concerns(c, r, f)
    ensures var next := FinishTe(c, db, r, loaded, total).1; next.Some? ==> Kept(c, db, next.value, f)
  {
    var db1 := db.(tables := db.tables[TableName(c.te, r.target) := TeRows(loaded.table)]);
    TeRowsKeepInv(c, db, r.target, loaded.table);
    FewerHashes(c, db, db1, OwnHash(c, r));
    RemoveKeepsOthers(c, db1, ByNameOrHash(r.fileName, HashOf(c, r.content)), true, f);
  }

  lemma UploadKeepsOthers(c: Config, db: Db, r: Request, f: FileRow)
    requires r.UploadDynamic? && Inv(c, db) && PrefixesDiffer(Hashes(db) + OwnHash(c, r))
    requires f in db.files && !Concerns(c, r, f) && Kept(c, db, db, f)
    ensures Kept(c, db, Step(c, db, r), f)
  {
    hide DoUpload, ShapeProblem, Inv, PrefixesDiffer, Hashes, Kept, Concerns;
    var rows := CsvText.Parse(r.content);
    if ShapeProblem(c, rows).None? {
      DoUploadKeepsOthers(c, db, r, rows, f);
    }
  }

  lemma TeKeepsOthers(c: Config, db: Db, r: Request, f: FileRow)
    requires r.UploadTe? && Inv(c, db) && PrefixesDiffer(Hashes(db) + OwnHash(c, r))
    requires f in db.files && !Concerns(c, r, f) && Kept(c, db, db, f)
    ensures Kept(c, db, Step(c, db, r), f)
  {
    hide FinishTe, TeHeaderFor, Inv, PrefixesDiffer, Hashes, Kept, Concerns;
    var rows := CsvText.Parse(r.content);
    if |rows| >= 2 && r.target in c.teTables && TeHeaderFor(c, c.teTables[r.target], rows[0]).Some? {
      var t := c.teTables[r.target];
      var table := TeContents(db, TableName(c.te, r.target));
      var h := TeHeaderFor(c, t, rows[0]).value;
      FinishTeKeepsOthers(c, db, r, TeLoading.Load(t.rules, c.env.ops, table, rows[1..], h), |rows| - 1, f);
    }
  }

  lemma FilesAreKept(c: Config, db: Db, f: FileRow)
    requires Inv(c, db) && f in db.files
    ensures Kept(c, db, db, f)
  {
    assert f.mode.Dynamic? ==> TableMatches(c, db, f);
  }

  /** A request leaves every other registered file alone, and its table with all its rows. */
  lemma OthersAreKept(c: Config, db: Db, r: Request, f: FileRow)
    requires Inv(c, db) && PrefixesDiffer(Hashes(db) + OwnHash(c, r)) && f in db.files && !Concerns(c, r, f)
    ensures Kept(c, db, Step(c, db, r), f)
  {
    hide Inv, Kept, PrefixesDiffer, Hashes, RemoveWhere;
    FilesAreKept(c, db, f);
    if r.UploadDynamic? {
      UploadKeepsOthers(c, db, r, f);
    } else if r.UploadTe? {
      TeKeepsOthers(c, db, r, f);
    } else {
      FewerHashes(c, db, db, OwnHash(c, r));
      RemoveKeepsOthers(c, db, ById(r.id), false, f);
    }
  }

  /** A deletion succeeds exactly for a registered file, when it is allowed and meets no
      error; then the file is gone and so is its table, if it had one of its own. */
  lemma DeletionDeletes(c: Config, db: Db, id: nat)
    requires Inv(c, db)
    ensures Handle(c, db, DeleteFile(id, false)).0
         == if !c.destructive then Forbidden
            else if exists f :: f in db.files && f.id == id then Deleted(id) else NotFound
    ensures Handle(c, db, DeleteFile(id, false)).0.Deleted?
            <==> c.destructive && exists f :: f in db.files && f.id == id
    ensures Handle(c, db, DeleteFile(id, false)).0.Deleted? ==>
              forall f :: f in db.files && f.id == id ==>
                f !in Step(c, db, DeleteFile(id, false)).files
                && (f.mode.Dynamic? ==> UploadTable(c, f) !in Step(c, db, DeleteFile(id, false)).tables)
  {
    FilterMembers(Not(ById(id)), db.files);
    forall f | f in db.files && f.id == id && f.mode.Dynamic?
      ensures UploadTable(c, f) in Dropped(c, db.files, ById(id), false)
    {
      assert ById(id)(f) && Droppable(f, false);
    }
  }

  /** The file a committed load registers: the request's name and content, the rows it inserted. */
  ghost predicate Registered(c: Config, db: Db, r: Request, o: Outcome, files: seq<FileRow>)
    requires !r.DeleteFile? && o.Loaded?
  {
    exists f :: f in files && f.id == o.fileId == db.nextId && f.fileName == r.fileName
      && f.fileHash == HashOf(c, r.content) && f.tableName == o.tableName && f.rowCount == o.insertedRows
      && f.totalRows == o.totalRows && f.duplicates == o.duplicates && f.failedRows == o.failedRows
      && f.mode == if r.UploadDynamic? then Dynamic else Te
  }

  lemma ClearEarlierKeepsNextId(c: Config, db: Db, fileName: string, hash: string, overwrite: bool)
    requires ClearEarlier(c, db, fileName, hash, overwrite).Clear?
    ensures ClearEarlier(c, db, fileName, hash, overwrite).db.nextId == db.nextId
  {
  }

  lemma LoadPassRegisters(c: Config, db: Db, r: Request, p: Pass, total: nat)
    requires r.UploadDynamic?
    ensures var (o, next) := LoadPass(c, db, r.fileName, HashOf(c, r.content), p, total);
            o.Loaded? ==> next.Some? && Registered(c, db, r, o, next.value.files)
  {
    hide InsertIgnoring;
    var next := LoadPass(c, db, r.fileName, HashOf(c, r.content), p, total).1;
    if next.Some? {
      assert next.value.files[|next.value.files| - 1] in next.value.files;
    }
  }

  lemma FinishTeRegisters(c: Config, db: Db, r: Request, loaded: TeLoading.Inserted, total: nat)
    requires r.UploadTe?
    ensures var (o, next) := FinishTe(c, db, r, loaded, total);
            o.Loaded? ==> next.Some? && Registered(c, db, r, o, next.value.files)
  {
    var next := FinishTe(c, db, r, loaded, total).1;
    if next.Some? {
      assert next.value.files[|next.value.files| - 1] in next.value.files;
    }
  }

  lemma UploadRegisters(c: Config, db: Db, r: Request)
    requires r.UploadDynamic? && Handle(c, db, r).0.Loaded?
    ensures Registered(c, db, r, Handle(c, db, r).0, Step(c, db, r).files)
  {
    hide JudgeAll, PassOver, LoaderHeader, LoadPass, ClearEarlier, Registered;
    var rows, hash := CsvText.Parse(r.content), HashOf(c, r.content);
    var cleared := ClearEarlier(c, db, r.fileName, hash, r.overwrite);
    ClearEarlierKeepsNextId(c, db, r.fileName, hash, r.overwrite);
    var h := LoaderHeader(c, rows[0], r.types).value;
    LoadPassRegisters(c, cleared.db, r, PassOver(JudgeAll(c.env, rows[1..], h)), |rows| - 1);
    SameNextId(c, cleared.db, db, r, Handle(c, db, r).0, Step(c, db, r).files);
  }

  lemma TeRegisters(c: Config, db: Db, r: Request)
    requires r.UploadTe? && Handle(c, db, r).0.Loaded?
    ensures Registered(c, db, r, Handle(c, db, r).0, Step(c, db, r).files)
  {
    hide TeHeaderFor, FinishTe, Registered;
    var rows, t := CsvText.Parse(r.content), c.teTables[r.target];
    var h := TeHeaderFor(c, t, rows[0]).value;
    var table := TeContents(db, TableName(c.te, r.target));
    FinishTeRegisters(c, db, r, TeLoading.Load(t.rules, c.env.ops, table, rows[1..], h), |rows| - 1);
  }

  /** A committed load registers a new file under the request's name and content, with the
      rows it inserted. */
  lemma LoadRegisters(c: Config, db: Db, r: Request)
    requires !r.DeleteFile? && Handle(c, db, r).0.Loaded?
    ensures Registered(c, db, r, Handle(c, db, r).0, Step(c, db, r).files)
  {
    hide Handle, Step, Registered;
    if r.UploadDynamic? {
      UploadRegisters(c, db, r);
    } else {
      TeRegisters(c, db, r);
    }
  }

  lemma SameNextId(c: Config, a: Db, b: Db, r: Request, o: Outcome, files: seq<FileRow>)
    requires !r.DeleteFile? && o.Loaded? && a.nextId == b.nextId && Registered(c, a, r, o, files)
    ensures Registered(c, b, r, o, files)
  {
  }

  /** A dynamic upload whose header is accepted, that is not turned away and meets no
      database error, always reports the header its rows were judged by. */
  lemma ReportsExactly(c: Config, db: Db, r: Request)
    requires r.UploadDynamic? && Inv(c, db) && PrefixesDiffer(Hashes(db) + OwnHash(c, r))
    requires ShapeProblem(c, CsvText.Parse(r.content)).None?
    ensures ReportedHeader(c, db, r).Some?
            <==> LoaderHeader(c, CsvText.Parse(r.content)[0], r.types).Some? && !r.fails
                 && !Handle(c, db, r).0.Duplicate?
    ensures Handle(c, db, r).0.Loaded? ==> ReportedHeader(c, db, r).Some?
  {
    hide LoaderHeader, LoadInto, ClearEarlier, Inv, Hashes, PrefixesDiffer;
  }

  /** A file that is not well shaped is turned away, with the reason: it is empty, has a header
      only, has a blank header, or has too many rows. */
  lemma ShapeTells(c: Config, db: Db, r: Request)
    requires r.UploadDynamic?
    ensures var rows, answer := CsvText.Parse(r.content), Handle(c, db, r);
      && (rows == [] ==> answer == (Invalid("empty"), None))
      && (|rows| == 1 ==> answer == (Invalid("header_only"), None))
      && (|rows| > 1 && (forall cell :: cell in rows[0] ==> c.env.ops.strip(cell) == "") ==>
            answer == (Invalid("no_columns"), None))
      && (|rows| > c.maxRows + 1 && (exists cell :: cell in rows[0] && c.env.ops.strip(cell) != "") ==>
            answer == (Failed, None))
      && (answer.0.Loaded? ==>
            2 <= |rows| <= c.maxRows + 1 && exists cell :: cell in rows[0] && c.env.ops.strip(cell) != "")
    ensures var rows := CsvText.Parse(r.content);
            ShapeProblem(c, rows).None? <==>
              2 <= |rows| <= c.maxRows + 1 && exists cell :: cell in rows[0] && c.env.ops.strip(cell) != ""
  {
    hide DoUpload, CsvText.Parse;
    var rows := CsvText.Parse(r.content);
    if rows != [] {
      assert AllBlank(c.env.ops, rows[0]) <==> forall cell :: cell in rows[0] ==> c.env.ops.strip(cell) == "";
    }
  }

  /** A table is named `csv_` and the first 16 characters of the hash, so two contents share
      one exactly if their hashes begin with the same 16. */
  lemma TableNames(x: string, y: string)
    requires |x| == |y| == 64
    ensures |DynamicTable(x)| == 20 && DynamicTable(x)[..4] == "csv_" && DynamicTable(x)[4..] == x[..16]
    ensures DynamicTable(x) == DynamicTable(y) <==> forall i :: 0 <= i < 16 ==> x[i] == y[i]
  {
    assert DynamicTable(x)[4..] == x[..16] && DynamicTable(y)[4..] == y[..16];
    if forall i :: 0 <= i < 16 ==> x[i] == y[i] {
      assert x[..16] == y[..16];
    }
    if DynamicTable(x) == DynamicTable(y) {
      forall i | 0 <= i < 16 ensures x[i] == y[i] {
        assert x[..16][i] == y[..16][i];
      }
    }
  }

  /** The file a duplicate upload is told of: the one of its name, or else that of its content. */
  lemma DuplicateNames(c: Config, db: Db, r: Request)
    requires r.UploadDynamic? && ShapeProblem(c, CsvText.Parse(r.content)).None? && !r.overwrite
    requires Inv(c, db) && PrefixesDiffer(Hashes(db) + {HashOf(c, r.content)}) && Handle(c, db, r).0.Duplicate?
    ensures var f := Handle(c, db, r).0.existing;
      && f in db.files && (f.fileName == r.fileName || f.fileHash == HashOf(c, r.content))
      && ((exists g :: g in db.files && g.fileName == r.fileName) ==> f.fileName == r.fileName)
  {
    hide LoadInto, LoaderHeader, Inv, Hashes, PrefixesDiffer, ShapeProblem;
    DuplicateExactly(c, db, r);
    TakenTells(c, db, r.fileName, HashOf(c, r.content));
  }

  lemma TakenTells(c: Config, db: Db, fileName: string, hash: string)
    requires exists f :: f in db.files && ByNameOrHash(fileName, hash)(f)
    ensures var taken := ClearEarlier(c, db, fileName, hash, false);
      && taken.Taken? && taken.file in db.files && (taken.file.fileName == fileName || taken.file.fileHash == hash)
      && ((exists g :: g in db.files && g.fileName == fileName) ==> taken.file.fileName == fileName)
  {
    var named := Find(db.files, ByName(fileName));
    assert named.None? ==> forall g :: g in db.files ==> !ByName(fileName)(g);
    var same := Find(db.files, ByHash(hash));
    assert same.None? ==> forall g :: g in db.files ==> !ByHash(hash)(g);
  }

  // ---------------------------------------------------------------------
  // Uploading with the types of the preview
  // ---------------------------------------------------------------------

  lemma InferredTypesAreAccepted(c: Config, content: string)
    requires var rows := CsvText.Parse(content); |rows| > 1 && |rows[0]| < 10_000_000
    ensures var rows := CsvText.Parse(content);
            var types := RowKeys.InferredTypes(c.env.ops, rows[1..], |rows[0]|);
            LoaderHeader(c, rows[0], Some(types)) == Some(Header(Sanitize.SanitizeColumns(c.norm, rows[0]), types))
  {
    var rows := CsvText.Parse(content);
    var types := RowKeys.InferredTypes(c.env.ops, rows[1..], |rows[0]|);
    CsvText.ParsedRowsHaveCells(content);
    forall i | 0 <= i < |types| ensures !types[i].Other? {
      var sample := rows[1..][..Min(RowKeys.INFER_ROWS, |rows| - 1)];
      InferredTypeIsFirstThatCasts(c.env.ops, RowKeys.Column(sample, i), TextType);
    }
    HeaderRefusedOnlyForTypes(c, content, Some(types));
  }

  predicate Fits(ops: TextOps, raw: Cells, width: nat) {
    ExtraCells(ops, raw, width) == []
  }

  /** The request names the types the preview of its file inferred. */
  predicate AsPreviewed(c: Config, r: Request)
    requires r.UploadDynamic?
  {
    var rows := CsvText.Parse(r.content);
    ShapeProblem(c, rows).None? && |rows[0]| < 10_000_000
    && r.types == Some(RowKeys.InferredTypes(c.env.ops, rows[1..], |rows[0]|))
  }

  /** A file uploaded with the types its preview inferred: the header is accepted, and of the
      rows the preview looked at, exactly those with cells beyond the header fail. */
  lemma PreviewedUploadCasts(c: Config, r: Request)
    requires r.UploadDynamic? && AsPreviewed(c, r)
    ensures var rows := CsvText.Parse(r.content);
            var data, h := rows[1..], LoaderHeader(c, rows[0], r.types);
            && h.Some?
            && (forall i :: 0 <= i < Min(RowKeys.INFER_ROWS, |data|) ==>
                  (JudgeAll(c.env, data, h.value)[i].Fails? <==> !Fits(c.env.ops, data[i], |rows[0]|)))
  {
    hide JudgeAll, LoaderHeader, RowKeys.InferredTypes, ShapeProblem;
    var rows := CsvText.Parse(r.content);
    InferredTypesAreAccepted(c, r.content);
    var columns := Sanitize.SanitizeColumns(c.norm, rows[0]);
    var data := rows[1..];
    forall i | 0 <= i < Min(RowKeys.INFER_ROWS, |data|)
      ensures JudgeAll(c.env, data, Header(columns, r.types.value))[i].Fails? <==> !Fits(c.env.ops, data[i], |rows[0]|)
    {
      RowKeys.SampledRowsCast(c.env, data, columns, i);
    }
  }

  lemma AllFailExactly(v: seq<Verdict>)
    ensures |PassOver(v).errors| == |v| <==> forall i :: 0 <= i < |v| ==> v[i].Fails?
  {
    PassKeepsFirsts(v);
    var p := PassOver(v);
    assert p.kept != [] ==> FirstOfItsKind(v, p.kept[0]);
    forall i | 0 <= i < |v| && v[i].Passes? ensures p.kept != [] {
      assert v[i].row.rowHash in Keys(p.rows);
    }
  }

  lemma DoUploadLoadsExactly(c: Config, db: Db, r: Request, rows: seq<Cells>)
    requires r.UploadDynamic? && |rows| > 1 && Inv(c, db) && PrefixesDiffer(Hashes(db) + {HashOf(c, r.content)})
    requires !DoUpload(c, db, r, rows).0.Duplicate?
    ensures var h := LoaderHeader(c, rows[0], r.types);
            DoUpload(c, db, r, rows).0.Loaded?
            <==> h.Some? && !r.fails && |PassOver(JudgeAll(c.env, rows[1..], h.value)).errors| != |rows| - 1
  {
    hide LoaderHeader, LoadInto, ClearEarlier, Inv, Hashes, PrefixesDiffer, PassOver, JudgeAll;
    var hash := HashOf(c, r.content);
    ClearEarlierClears(c, db, r.fileName, hash, r.overwrite);
    var cleared := ClearEarlier(c, db, r.fileName, hash, r.overwrite);
    var h := LoaderHeader(c, rows[0], r.types);
    if cleared.Clear? && h.Some? && !r.fails {
      LoadIntoCommits(c, cleared.db, r.fileName, hash, h.value, rows[1..]);
    }
  }

  /** A well-shaped upload that is no duplicate is loaded exactly if its header is accepted,
      the database does not fail and one of its rows passes. */
  lemma LoadedExactly(c: Config, db: Db, r: Request)
    requires r.UploadDynamic? && ShapeProblem(c, CsvText.Parse(r.content)).None?
    requires Inv(c, db) && PrefixesDiffer(Hashes(db) + OwnHash(c, r)) && !Handle(c, db, r).0.Duplicate?
    ensures var rows := CsvText.Parse(r.content);
            var h := LoaderHeader(c, rows[0], r.types);
            Handle(c, db, r).0.Loaded?
            <==> h.Some? && !r.fails
                 && exists i :: 0 <= i < |rows| - 1 && JudgeAll(c.env, rows[1..], h.value)[i].Passes?
  {
    hide LoaderHeader, DoUpload, Inv, Hashes, PrefixesDiffer, PassOver, JudgeAll;
    var rows := CsvText.Parse(r.content);
    DoUploadLoadsExactly(c, db, r, rows);
    var h := LoaderHeader(c, rows[0], r.types);
    if h.Some? {
      AllFailExactly(JudgeAll(c.env, rows[1..], h.value));
    }
  }

  lemma SomePassesIfSomeFits(ops: TextOps, data: seq<Cells>, v: seq<Verdict>, width: nat)
    requires |v| == |data| && forall i :: 0 <= i < |data| ==> (v[i].Fails? <==> !Fits(ops, data[i], width))
    ensures (exists i :: 0 <= i < |data| && v[i].Passes?) <==> exists raw :: raw in data && Fits(ops, raw, width)
  {
    hide Fits;
    if raw :| raw in data && Fits(ops, raw, width) {
      var i :| 0 <= i < |data| && data[i] == raw;
      assert v[i].Passes?;
    }
    if i :| 0 <= i < |data| && v[i].Passes? {
      assert data[i] in data;
    }
  }

  /** So a previewed file of at most 200 data rows is loaded exactly if one of them has no
      cells beyond the header. */
  lemma PreviewedFileLoads(c: Config, db: Db, r: Request)
    requires r.UploadDynamic? && AsPreviewed(c, r) && !r.fails && |CsvText.Parse(r.content)| <= 201
    requires Inv(c, db) && PrefixesDiffer(Hashes(db) + OwnHash(c, r)) && !Handle(c, db, r).0.Duplicate?
    ensures var rows := CsvText.Parse(r.content);
            Handle(c, db, r).0.Loaded? <==> exists raw :: raw in rows[1..] && Fits(c.env.ops, raw, |rows[0]|)
  {
    var rows := CsvText.Parse(r.content);
    var data := rows[1..];
    PreviewedUploadCasts(c, r);
    LoadedExactly(c, db, r);
    var v := JudgeAll(c.env, data, LoaderHeader(c, rows[0], r.types).value);
    hide *;
    SomePassesIfSomeFits(c.env.ops, data, v, |rows[0]|);
  }

  // ---------------------------------------------------------------------
  // Where a run starts
  // ---------------------------------------------------------------------

  /** No file registered, and each deployed T&E table there with what it holds. */
  function FreshDb(c: Config, te: map<TableName, Contents>): Db {
    Db([], te, 0)
  }

  /** A platform before its first upload is in order; so is every state it comes to. */
  lemma EveryRunFromFreshKeepsInv(c: Config, te: map<TableName, Contents>, requests: seq<Request>)
    requires c.uploads != c.te && PrefixesDiffer(RequestHashes(c, requests))
    requires forall q :: q in te ==> q.schema == c.te
    requires forall t :: t in c.teTables ==> TableName(c.te, t) in te && te[TableName(c.te, t)].TeRows?
    ensures Inv(c, FreshDb(c, te)) && Inv(c, Run(c, FreshDb(c, te), requests))
  {
    assert Hashes(FreshDb(c, te)) + RequestHashes(c, requests) == RequestHashes(c, requests);
    EveryRunKeepsInv(c, FreshDb(c, te), requests);
  }
}
