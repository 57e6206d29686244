/**
 * What an upload leaves for review: every attempt is stored with its rows and
 * with the columns and types its answer named; and how far the review of those
 * rows agrees with the loader that judged them.
 */
module Originals {
  import opened Common
  import CsvText
  import Sanitize
  import opened Cast
  import RowLoading
  import TeLoading
  import LoadedRows
  import opened Registry
  import Server
  import Review

  // ---------------------------------------------------------------------
  // What is stored of an attempt
  // ---------------------------------------------------------------------

  function HeaderLine(rows: seq<Cells>): Cells {
    if rows == [] then [] else rows[0]
  }

  function DataRows(rows: seq<Cells>): seq<Cells> {
    if rows == [] then [] else rows[1..]
  }

  /** A T&E load's answer names columns and no types; an answer may name neither. */
  function Recorded(c: Config, db: Db, r: Request): Review.Upload
    requires !r.DeleteFile?
  {
    var rows := CsvText.Parse(r.content);
    if r.UploadDynamic? then
      var h := ReportedHeader(c, db, r);
      Review.Upload(r.fileName, HeaderLine(rows), DataRows(rows),
                    if h.Some? then h.value.columns else [], if h.Some? then h.value.types else [])
    else
      var h := ReportedTe(c, db, r);
      Review.Upload(r.fileName, HeaderLine(rows), DataRows(rows), if h.Some? then h.value.columns else [], [])
  }

  /** What an upload is answered; counts and errors only as far as the answer has them. */
  datatype Answer = Answer(
    outcome: Outcome, totalRows: Option<nat>, insertedRows: Option<nat>, failedRows: Option<nat>,
    rowErrors: seq<TeLoading.TeError>, columns: seq<string>, types: seq<ColType>)

  function CellErrors(errors: seq<RowLoading.RowError>): seq<TeLoading.TeError> {
    seq(|errors|, i requires 0 <= i < |errors| => TeLoading.CellError(errors[i]))
  }

  function DynamicAnswer(
      outcome: Outcome, reported: Option<RowLoading.Header>, errors: seq<RowLoading.RowError>, total: nat): Answer
  {
    if reported.None? then Answer(outcome, None, None, None, [], [], [])
    else
      var h := reported.value;
      if outcome.Loaded? then
        Answer(outcome, Some(outcome.totalRows), Some(outcome.insertedRows), Some(outcome.failedRows),
               CellErrors(errors), h.columns, h.types)
      else Answer(outcome, Some(total), None, Some(total), CellErrors(errors), h.columns, h.types)
  }

  function TeAnswer(
      outcome: Outcome, reported: Option<TeLoading.TeHeader>, errors: seq<TeLoading.TeError>): Answer
  {
    if outcome.Loaded? && reported.Some? then
      Answer(outcome, Some(outcome.totalRows), Some(outcome.insertedRows), Some(outcome.failedRows),
             errors, reported.value.columns, [])
    else Answer(outcome, None, None, None, [], [], [])
  }

  function AnswerOf(c: Config, db: Db, r: Request): Answer
    requires !r.DeleteFile?
  {
    var data := DataRows(CsvText.Parse(r.content));
    if r.UploadDynamic? then
      var reported := ReportedHeader(c, db, r);
      var errors := if reported.None? then []
                    else RowLoading.PassOver(RowLoading.JudgeAll(c.env, data, reported.value)).errors;
      DynamicAnswer(Handle(c, db, r).0, reported, RowLoading.Capped(errors, c.maxErrors), |data|)
    else
      var reported := ReportedTe(c, db, r);
      var errors := if reported.None? then []
                    else TeLoading.Load(c.teTables[r.target].rules, c.env.ops,
                                        TeContents(db, TableName(c.te, r.target)), data, reported.value).errors;
      TeAnswer(Handle(c, db, r).0, reported, TeLoading.CappedErrors(errors, c.maxErrors))
  }

  function StatusOf(o: Outcome): string {
    match o
    case Loaded(_, _, _, _, _, failedRows) => if failedRows > 0 then "partly_imported" else "imported"
    case Duplicate(_) => "duplicate"
    case Invalid(_) => "rejected"
    case _ => "failed"
  }

  /** A row of `uploads`, with the file itself and its parsed rows. */
  datatype Original = Original(
    content: string, sha256: string, status: string, totalRows: Option<nat>, importedRows: Option<nat>,
    failedRows: Option<nat>, fileId: Option<nat>, rowErrors: seq<TeLoading.TeError>, review: Review.Upload)

  function OriginalFor(c: Config, fileName: string, content: string, a: Answer): Original {
    var rows := CsvText.Parse(content);
    Original(content, HashOf(c, content), StatusOf(a.outcome), a.totalRows, a.insertedRows, a.failedRows,
             if a.outcome.Loaded? then Some(a.outcome.fileId) else None, a.rowErrors,
             Review.Upload(fileName, HeaderLine(rows), DataRows(rows), a.columns, a.types))
  }

  function OriginalOf(c: Config, db: Db, r: Request): Original
    requires !r.DeleteFile?
  {
    OriginalFor(c, r.fileName, r.content, AnswerOf(c, db, r))
  }

  lemma StoredForReview(c: Config, db: Db, r: Request)
    requires !r.DeleteFile?
    ensures OriginalOf(c, db, r).review == Recorded(c, db, r)
  {
    hide RowLoading.PassOver, RowLoading.JudgeAll, TeLoading.Load, ReportedHeader, TeHeaderFor;
  }

  // ---------------------------------------------------------------------
  // Every run keeps every original
  // ---------------------------------------------------------------------

  datatype Platform = Platform(db: Db, uploads: map<nat, Original>, nextId: nat)

  /** A request; whether storing the attempt succeeds, after the load has been committed. */
  datatype Call = Call(request: Request, stores: bool)

  predicate Stores(call: Call) {
    call.stores && !call.request.DeleteFile?
  }

  function Serve(c: Config, w: Platform, call: Call): Platform {
    var db := Registry.Step(c, w.db, call.request);
    if Stores(call) then
      Platform(db, w.uploads[w.nextId := OriginalOf(c, w.db, call.request)], w.nextId + 1)
    else w.(db := db)
  }

  function ServeAll(c: Config, w: Platform, calls: seq<Call>): Platform {
    if calls == [] then w else Serve(c, ServeAll(c, w, calls[..|calls| - 1]), calls[|calls| - 1])
  }

  predicate IdsBelow(w: Platform) {
    forall id :: id in w.uploads ==> id < w.nextId
  }

  /** Over every run of uploads, overwrites, T&E loads and deletions no original that was
      stored is lost or changed, and each stored attempt has an id of its own, in order. */
  lemma {:induction false} OriginalsAreKept(c: Config, w: Platform, calls: seq<Call>)
    requires IdsBelow(w)
    ensures var w' := ServeAll(c, w, calls);
      && IdsBelow(w') && w.nextId <= w'.nextId
      && (forall id :: id in w.uploads ==> id in w'.uploads && w'.uploads[id] == w.uploads[id])
  {
    hide OriginalOf;
    if calls != [] {
      OriginalsAreKept(c, w, calls[..|calls| - 1]);
    }
  }

  /** Each attempt of a run is there at its end, as it was answered when it was made. */
  lemma {:induction false} AttemptsAreStored(c: Config, w: Platform, calls: seq<Call>, n: nat)
    requires IdsBelow(w) && n < |calls| && Stores(calls[n])
    ensures var before, w' := ServeAll(c, w, calls[..n]), ServeAll(c, w, calls);
      && before.nextId in w'.uploads && before.nextId !in before.uploads
      && w'.uploads[before.nextId] == OriginalOf(c, before.db, calls[n].request)
    decreases |calls|
  {
    hide OriginalOf;
    var front := calls[..|calls| - 1];
    if n < |front| {
      assert front[..n] == calls[..n];
      AttemptsAreStored(c, w, front, n);
      OriginalsAreKept(c, w, front);
    } else {
      assert calls[..n] == front;
      OriginalsAreKept(c, w, front);
    }
  }

  function RequestsOf(calls: seq<Call>): (rs: seq<Request>)
    ensures |rs| == |calls|
  {
    seq(|calls|, i requires 0 <= i < |calls| => calls[i].request)
  }

  /** Storing the attempts does not touch the registry. */
  lemma {:induction false} StoringLeavesRegistry(c: Config, w: Platform, calls: seq<Call>)
    ensures ServeAll(c, w, calls).db == Registry.Run(c, w.db, RequestsOf(calls))
  {
    hide OriginalOf, Handle;
    if calls != [] {
      var front, rs := calls[..|calls| - 1], RequestsOf(calls);
      StoringLeavesRegistry(c, w, front);
      assert rs[..|rs| - 1] == RequestsOf(front);
    }
  }

  /** What is stored of any attempt: the file as it was sent, its hash and name, its rows, the
      kind of outcome, and the registered file it became, if it became one. */
  lemma AttemptTells(c: Config, db: Db, r: Request)
    requires !r.DeleteFile?
    ensures var o, rows, outcome := OriginalOf(c, db, r), CsvText.Parse(r.content), Handle(c, db, r).0;
      && o.content == r.content && o.sha256 == c.env.sha(r.content) && o.review.fileName == r.fileName
      && (if rows == [] then o.review.header == [] && o.review.rows == []
          else [o.review.header] + o.review.rows == rows)
      && (o.status in {"imported", "partly_imported"} <==> outcome.Loaded?)
      && (o.status == "duplicate" <==> outcome.Duplicate?) && (o.status == "rejected" <==> outcome.Invalid?)
      && o.status in {"imported", "partly_imported", "duplicate", "rejected", "failed"}
      && (if outcome.Loaded? then
            exists f :: f in Step(c, db, r).files && f.fileHash == o.sha256 && f.fileName == r.fileName
                        && o.fileId == Some(f.id) && o.fileId == Some(db.nextId)
          else o.fileId == None)
  {
    hide Handle, Step, ReportedHeader, ReportedTe, RowLoading.JudgeAll, RowLoading.PassOver, TeLoading.Load;
    hide CsvText.Parse, RowLoading.Capped, TeLoading.CappedErrors;
    if Handle(c, db, r).0.Loaded? {
      LoadRegisters(c, db, r);
    }
  }

  /** The rows of a file that the loader cannot load. */
  ghost function Unloadable(c: Config, data: seq<Cells>, types: seq<ColType>): set<nat> {
    set i | 0 <= i < |data| && !LoadedRows.Loadable(c.env.ops, data[i], types)
  }

  /** These are the errors of the first failing rows, one each, in file order. */
  ghost predicate FirstFailures(shown: seq<TeLoading.TeError>, failing: set<nat>) {
    && (forall k :: 0 <= k < |shown| ==> shown[k].CellError?)
    && FirstNumbers(seq(|shown|, k requires 0 <= k < |shown| =>
                          if shown[k].CellError? then shown[k].error.rowNumber else 0), failing)
  }

  /** The numbers of the first of these rows, counted from 1, in order. */
  ghost predicate FirstNumbers(numbers: seq<nat>, rows: set<nat>) {
    && RowLoading.Increasing(numbers)
    && (forall k :: 0 <= k < |numbers| ==> numbers[k] > 0 && numbers[k] - 1 in rows)
    && (forall i :: i in rows ==> i + 1 in numbers || forall k :: 0 <= k < |numbers| ==> numbers[k] <= i)
  }

  function NumbersOf(errors: seq<RowLoading.RowError>): (numbers: seq<nat>)
    ensures |numbers| == |errors|
  {
    seq(|errors|, k requires 0 <= k < |errors| => errors[k].rowNumber)
  }

  lemma FailureIsNumbered(v: seq<RowLoading.Verdict>, i: nat)
    requires RowLoading.Numbered(v) && i in RowLoading.Failing(v)
    ensures i + 1 in NumbersOf(RowLoading.PassOver(v).errors)
  {
    RowLoading.FailuresAreReported(v, i);
    hide RowLoading.PassOver;
    var errors := RowLoading.PassOver(v).errors;
    var m :| 0 <= m < |errors| && errors[m] == v[i].error;
    assert NumbersOf(errors)[m] == i + 1;
  }

  lemma ErrorsAreNumbered(v: seq<RowLoading.Verdict>)
    requires RowLoading.Numbered(v)
    ensures var numbers := NumbersOf(RowLoading.PassOver(v).errors);
      && RowLoading.Increasing(numbers)
      && forall k :: 0 <= k < |numbers| ==> numbers[k] > 0 && numbers[k] - 1 in RowLoading.Failing(v)
  {
    RowLoading.ReportedAreFailures(v);
    hide RowLoading.PassOver;
  }

  lemma ErrorsAreFirst(v: seq<RowLoading.Verdict>)
    requires RowLoading.Numbered(v)
    ensures FirstNumbers(NumbersOf(RowLoading.PassOver(v).errors), RowLoading.Failing(v))
  {
    hide RowLoading.PassOver, RowLoading.Failing, NumbersOf, RowLoading.Numbered, RowLoading.Increasing;
    ErrorsAreNumbered(v);
    forall i | i in RowLoading.Failing(v) ensures i + 1 in NumbersOf(RowLoading.PassOver(v).errors) {
      FailureIsNumbered(v, i);
    }
  }

  lemma PrefixIsFirst(numbers: seq<nat>, rows: set<nat>, n: nat)
    requires FirstNumbers(numbers, rows) && n <= |numbers|
    ensures FirstNumbers(numbers[..n], rows)
  {
    var first := numbers[..n];
    assert forall k :: 0 <= k < n ==> first[k] == numbers[k];
    assert RowLoading.Increasing(first);
    forall i | i in rows ensures i + 1 in first || forall k :: 0 <= k < n ==> first[k] <= i {
      PrefixCovers(numbers, n, i);
    }
    hide RowLoading.Increasing;
  }

  lemma PrefixCovers(numbers: seq<nat>, n: nat, i: nat)
    requires RowLoading.Increasing(numbers) && n <= |numbers|
    requires i + 1 in numbers || forall k :: 0 <= k < |numbers| ==> numbers[k] <= i
    ensures i + 1 in numbers[..n] || forall k :: 0 <= k < n ==> numbers[..n][k] <= i
  {
    if i + 1 in numbers {
      var m :| 0 <= m < |numbers| && numbers[m] == i + 1;
      if m < n {
        assert numbers[..n][m] == i + 1;
      }
    }
  }

  lemma ShownAreFirst(v: seq<RowLoading.Verdict>, cap: nat)
    requires RowLoading.Numbered(v)
    ensures var shown := CellErrors(RowLoading.Capped(RowLoading.PassOver(v).errors, cap));
            |shown| == Min(cap, |RowLoading.Failing(v)|) && FirstFailures(shown, RowLoading.Failing(v))
  {
    hide RowLoading.PassOver, FirstNumbers, RowLoading.Numbered, RowLoading.Failing;
    RowLoading.ErrorsAreCounted(v);
    ErrorsAreFirst(v);
    var errors := RowLoading.PassOver(v).errors;
    var n := Min(cap, |errors|);
    PrefixIsFirst(NumbersOf(errors), RowLoading.Failing(v), n);
    var shown := CellErrors(errors[..n]);
    assert NumbersOf(errors)[..n] == seq(|shown|, k requires 0 <= k < |shown| =>
                                       if shown[k].CellError? then shown[k].error.rowNumber else 0);
  }

  /** The counts and errors stored of a dynamic upload whose rows were judged: all data rows;
      those that cannot be loaded; those inserted, if any was; and the first failures. */
  lemma CountsTell(c: Config, db: Db, r: Request)
    requires r.UploadDynamic? && ReportedHeader(c, db, r).Some?
    ensures var o, data := OriginalOf(c, db, r), CsvText.Parse(r.content)[1..];
            var failing := Unloadable(c, data, ReportedHeader(c, db, r).value.types);
      && o.totalRows == Some(|data|) && o.failedRows == Some(|failing|)
      && o.importedRows == (if Handle(c, db, r).0.Loaded? then Some(Handle(c, db, r).0.insertedRows) else None)
      && |o.rowErrors| == Min(c.maxErrors, |failing|) && FirstFailures(o.rowErrors, failing)
  {
    var data, h := CsvText.Parse(r.content)[1..], ReportedHeader(c, db, r).value;
    ShownAreFirst(RowLoading.JudgeAll(c.env, data, h), c.maxErrors);
    RowLoading.ErrorsAreCounted(RowLoading.JudgeAll(c.env, data, h));
    FailingIsUnloadable(c, data, h);
    AnswerCounts(c, db, r);
    hide Handle, ReportedHeader, RowLoading.JudgeAll, RowLoading.PassOver, Unloadable, FirstFailures, AnswerOf;
  }

  lemma AnswerCounts(c: Config, db: Db, r: Request)
    requires r.UploadDynamic? && ReportedHeader(c, db, r).Some?
    ensures var a, data := AnswerOf(c, db, r), CsvText.Parse(r.content)[1..];
            var errors := RowLoading.PassOver(RowLoading.JudgeAll(c.env, data, ReportedHeader(c, db, r).value)).errors;
      && a.outcome == Handle(c, db, r).0 && a.totalRows == Some(|data|) && a.failedRows == Some(|errors|)
      && a.insertedRows == (if a.outcome.Loaded? then Some(a.outcome.insertedRows) else None)
      && a.rowErrors == CellErrors(RowLoading.Capped(errors, c.maxErrors))
  {
    if Handle(c, db, r).0.Loaded? {
      LoadedCounts(c, db, r);
    } else {
      RefusedCounts(c, db, r);
    }
    hide Handle, ReportedHeader, RowLoading.JudgeAll, RowLoading.PassOver, RowLoading.Capped;
  }

  /** An upload whose rows were judged and that is not loaded has lost all of them. */
  lemma RefusedCounts(c: Config, db: Db, r: Request)
    requires r.UploadDynamic? && ReportedHeader(c, db, r).Some? && !Handle(c, db, r).0.Loaded?
    ensures var data := CsvText.Parse(r.content)[1..];
            |RowLoading.PassOver(RowLoading.JudgeAll(c.env, data, ReportedHeader(c, db, r).value)).errors| == |data|
  {
    hide RowLoading.JudgeAll, RowLoading.PassOver, LoaderHeader, ClearEarlier, InsertIgnoring, Register;
  }

  lemma FailingIsUnloadable(c: Config, data: seq<Cells>, h: RowLoading.Header)
    requires RowLoading.WellFormed(h)
    ensures RowLoading.Failing(RowLoading.JudgeAll(c.env, data, h)) == Unloadable(c, data, h.types)
  {
    hide LoadedRows.Loadable, RowLoading.JudgeAll;
    forall i | 0 <= i < |data|
      ensures RowLoading.JudgeAll(c.env, data, h)[i].Fails? <==> !LoadedRows.Loadable(c.env.ops, data[i], h.types)
    {
      LoadedRows.JudgedRowsMean(c.env, data, h, i);
    }
  }

  lemma LoadedCounts(c: Config, db: Db, r: Request)
    requires r.UploadDynamic? && ReportedHeader(c, db, r).Some? && Handle(c, db, r).0.Loaded?
    ensures var data, o := CsvText.Parse(r.content)[1..], Handle(c, db, r).0;
            var p := RowLoading.PassOver(RowLoading.JudgeAll(c.env, data, ReportedHeader(c, db, r).value));
            o.totalRows == |data| && o.failedRows == |p.errors|
  {
    hide RowLoading.JudgeAll, RowLoading.PassOver, LoaderHeader, ClearEarlier, InsertIgnoring;
  }

  /** The status says whether all rows went in: a loaded file is "imported" exactly if every
      row passed the loader. */
  lemma ImportedMeansAllPass(c: Config, db: Db, r: Request)
    requires r.UploadDynamic? && Handle(c, db, r).0.Loaded?
    ensures var rows := CsvText.Parse(r.content);
      && |rows| > 1 && LoaderHeader(c, rows[0], r.types).Some?
      && var v := RowLoading.JudgeAll(c.env, rows[1..], LoaderHeader(c, rows[0], r.types).value);
         StatusOf(Handle(c, db, r).0) == "imported" <==> forall i :: 0 <= i < |v| ==> v[i].Passes?
  {
    hide RowLoading.JudgeAll, RowLoading.PassOver, LoaderHeader, ClearEarlier, InsertIgnoring;
    var rows := CsvText.Parse(r.content);
    var v := RowLoading.JudgeAll(c.env, rows[1..], LoaderHeader(c, rows[0], r.types).value);
    assert Handle(c, db, r).0.failedRows == |RowLoading.PassOver(v).errors|;
    RowLoading.PassReportsFailures(v);
    assert RowLoading.PassOver(v).errors != [] ==> RowLoading.PassOver(v).errors[0] in RowLoading.PassOver(v).errors;
  }

  /** The upload endpoint: load the file, then store the attempt whatever its outcome. */
  class UploadService {
    const server: Server.Transactions
    var uploads: map<nat, Original>
    var nextId: nat

    ghost predicate Valid()
      reads this, server
    {
      IdsBelow(State())
    }

    function State(): Platform
      reads this, server
    {
      Platform(server.State(), uploads, nextId)
    }

    constructor (server: Server.Transactions)
      ensures Valid() && this.server == server && State() == Platform(server.State(), map[], 0)
    {
      this.server, uploads, nextId := server, map[], 0;
    }

    /** Storing may fail; then nothing of the attempt is kept. */
    method RecordUpload(fileName: string, content: string, answer: Answer, stores: bool) returns (id: Option<nat>)
      requires Valid()
      modifies this
      ensures Valid() && id == if stores then Some(old(nextId)) else None
      ensures id.Some? ==> id.value !in old(uploads) && nextId == id.value + 1
      ensures id.Some? ==> uploads == old(uploads)[id.value := OriginalFor(server.c, fileName, content, answer)]
      ensures id.None? ==> uploads == old(uploads) && nextId == old(nextId)
    {
      if !stores {
        return None;
      }
      var rows := CsvText.ParseCsv(content);
      var upload := Review.Upload(fileName, HeaderLine(rows), DataRows(rows), answer.columns, answer.types);
      var fileId := if answer.outcome.Loaded? then Some(answer.outcome.fileId) else None;
      id := Some(nextId);
      uploads := uploads[nextId := Original(
        content, HashOf(server.c, content), StatusOf(answer.outcome), answer.totalRows, answer.insertedRows,
        answer.failedRows, fileId, answer.rowErrors, upload)];
      nextId := nextId + 1;
    }

    method UploadDynamicFile(fileName: string, content: string, types: Option<seq<ColType>>, overwrite: bool,
                             fails: bool, stores: bool)
      returns (outcome: Outcome, id: Option<nat>)
      requires Valid()
      modifies this, server
      ensures Valid() && id == if stores then Some(old(nextId)) else None
      ensures id.Some? ==> id.value !in old(uploads)
      ensures var r := UploadDynamic(fileName, content, types, overwrite, fails);
        outcome == Handle(server.c, old(server.State()), r).0
        && State() == Serve(server.c, old(State()), Call(r, stores))
    {
      hide Handle, ReportedHeader, RowLoading.PassOver, RowLoading.JudgeAll, OriginalFor;
      var reported, rowErrors;
      outcome, reported, rowErrors := server.Upload(fileName, content, types, overwrite, fails);
      var rows := CsvText.ParseCsv(content);
      id := RecordUpload(fileName, content, DynamicAnswer(outcome, reported, rowErrors, |DataRows(rows)|), stores);
    }

    method UploadTeFile(fileName: string, content: string, target: string, fails: bool, stores: bool)
      returns (outcome: Outcome, id: Option<nat>)
      requires Valid()
      modifies this, server
      ensures Valid() && id == if stores then Some(old(nextId)) else None
      ensures id.Some? ==> id.value !in old(uploads)
      ensures var r := UploadTe(fileName, content, target, fails);
        outcome == Handle(server.c, old(server.State()), r).0
        && State() == Serve(server.c, old(State()), Call(r, stores))
    {
      hide Handle, ReportedTe, TeLoading.Load, OriginalFor;
      var reported, rowErrors;
      outcome, reported, rowErrors := server.LoadTe(fileName, content, target, fails);
      id := RecordUpload(fileName, content, TeAnswer(outcome, reported, rowErrors), stores);
    }

    /** Deleting a file leaves its original. */
    method DeleteFile(id: nat, fails: bool) returns (outcome: Outcome)
      requires Valid()
      modifies this, server
      ensures Valid()
      ensures var r := Request.DeleteFile(id, fails);
        outcome == Handle(server.c, old(server.State()), r).0
        && State() == Serve(server.c, old(State()), Call(r, false))
    {
      hide Handle;
      outcome := server.Delete(id, fails);
    }
  }

  // ---------------------------------------------------------------------
  // Review and the loader
  // ---------------------------------------------------------------------

  /** The review of a row of this request's file, stored under this id and never edited. */
  ghost predicate Reviews(c: Config, db: Db, r: Request, env: Review.Env, log: Review.Log, upload: nat, row: nat)
    requires !r.DeleteFile?
  {
    && env.ops == c.env.ops && env.norm == c.norm
    && upload in env.uploads && env.uploads[upload] == Recorded(c, db, r)
    && Review.HasRow(env, upload, row) && 1 <= row < |CsvText.Parse(r.content)|
    && Review.Unedited(log, upload, row)
  }

  lemma RecordedRows(c: Config, db: Db, r: Request)
    requires !r.DeleteFile? && CsvText.Parse(r.content) != []
    ensures Recorded(c, db, r).rows == CsvText.Parse(r.content)[1..]
    ensures Recorded(c, db, r).header == CsvText.Parse(r.content)[0]
  {
    hide ReportedHeader, ReportedTe;
  }

  /** The header review uses for a judged dynamic upload is the loader's. */
  lemma ReviewUsesLoaderHeader(c: Config, db: Db, r: Request, env: Review.Env)
    requires r.UploadDynamic? && ReportedHeader(c, db, r).Some?
    ensures Review.Header(env, Recorded(c, db, r)) == ReportedHeader(c, db, r).value
  {
    hide ReportedHeader;
    assert ReportedHeader(c, db, r).value.columns != [];
  }

  lemma JudgeIsRowFailure(env: RowLoading.Env, data: seq<Cells>, h: RowLoading.Header, i: nat)
    requires RowLoading.WellFormed(h) && i < |data|
    ensures var v, failure := RowLoading.JudgeAll(env, data, h)[i], RowLoading.RowFailure(env.ops, data[i], h, i + 1);
            if failure.Some? then v == RowLoading.Fails(failure.value) else v.Passes?
  {
  }

  /** For a dynamic upload whose rows the loader judged, review reports problems of an
      unedited row exactly if the loader failed it; the first problem is the loader's
      error: same row number, column, value and reason. */
  lemma ReviewAgreesWithLoader(
      c: Config, db: Db, r: Request, env: Review.Env, log: Review.Log, upload: nat, row: nat)
    requires r.UploadDynamic? && ReportedHeader(c, db, r).Some? && Reviews(c, db, r, env, log, upload, row)
    ensures var v := RowLoading.JudgeAll(c.env, CsvText.Parse(r.content)[1..], ReportedHeader(c, db, r).value)[row - 1];
            var errors := Review.View(env, log, upload, row).errors;
            && (errors != [] <==> v.Fails?)
            && (v.Fails? ==> v.error.rowNumber == row
                             && errors[0] == Review.Problem(v.error.column, v.error.value, v.error.reason))
  {
    hide ReportedHeader, Recorded, CsvText.Parse, LoaderHeader, Review.Unedited;
    hide RowLoading.JudgeAll, RowLoading.RowFailure, Review.Header, Review.View;
    var data, h := CsvText.Parse(r.content)[1..], ReportedHeader(c, db, r).value;
    assert Review.Header(env, env.uploads[upload]) == h by { ReviewUsesLoaderHeader(c, db, r, env); }
    assert env.uploads[upload].rows == data by { RecordedRows(c, db, r); }
    Review.UneditedRowProblems(env, log, upload, row);
    JudgeIsRowFailure(c.env, data, h, row - 1);
  }

  /** Without stored types review takes every value as text: the only problem it can report
      of an unedited row is that it has cells beyond the header. */
  lemma UntypedReview(c: Config, db: Db, r: Request, env: Review.Env, log: Review.Log, upload: nat, row: nat)
    requires !r.DeleteFile? && Reviews(c, db, r, env, log, upload, row) && Recorded(c, db, r).types == []
    ensures var raw, width := CsvText.Parse(r.content)[row], |Review.Header(env, Recorded(c, db, r)).columns|;
            var extra, errors := ExtraCells(c.env.ops, raw, width), Review.View(env, log, upload, row).errors;
            if extra == [] then errors == []
            else errors != []
                 && errors[0] == Review.Problem(RowLoading.BEYOND_HEADER, extra[0], RowLoading.RaggedReason(raw, width))
  {
    hide Recorded, Review.View, Review.Header, ExtraCells, RowLoading.RaggedReason;
    RecordedRows(c, db, r);
    Review.UntypedRowProblems(env, log, upload, row);
  }

  /** Every cell of a T&E row can be cast to the type the loader found for its column. */
  predicate AllCellsCast(ops: TextOps, raw: Cells, h: TeLoading.TeHeader)
    requires TeLoading.WellFormedTe(h)
  {
    forall i :: 0 <= i < |h.types| ==> TeLoading.TeCast(ops, raw, h, i).Ok?
  }

  lemma TeJudgedExactly(ops: TextOps, raw: Cells, h: TeLoading.TeHeader, number: nat)
    requires TeLoading.WellFormedTe(h)
    ensures var extra := ExtraCells(ops, raw, |h.columns|);
            var v := TeLoading.TeJudge(ops, raw, h, number);
            if extra != [] then
              v == TeLoading.TeFails(TeLoading.CellError(RowLoading.RowError(
                     number, RowLoading.BEYOND_HEADER, extra[0], RowLoading.RaggedReason(raw, |h.columns|))))
            else v.TeFails? <==> !AllCellsCast(ops, raw, h)
  {
    hide ExtraCells, TeLoading.TeCast, RowLoading.RaggedReason;
    var bad := TeLoading.TeFirstBad(ops, raw, h, 0);
  }

  lemma TeColumnsAreStored(c: Config, db: Db, r: Request, env: Review.Env)
    requires r.UploadTe? && ReportedTe(c, db, r).Some?
    ensures |CsvText.Parse(r.content)| > 1
    ensures Review.Header(env, Recorded(c, db, r)).columns == ReportedTe(c, db, r).value.columns
  {
    hide Handle;
    CsvText.ParsedRowsHaveCells(r.content);
  }

  /** For a T&E load review and the loader's check agree about an unedited row exactly if the
      row has cells beyond the header, which both report alike, or all its cells can be cast
      to the types of the table: review does not know those types. */
  lemma TeReviewAgreesExactly(
      c: Config, db: Db, r: Request, env: Review.Env, log: Review.Log, upload: nat, row: nat)
    requires r.UploadTe? && ReportedTe(c, db, r).Some? && Reviews(c, db, r, env, log, upload, row)
    ensures var h, raw := ReportedTe(c, db, r).value, CsvText.Parse(r.content)[row];
            var errors, v := Review.View(env, log, upload, row).errors, TeLoading.TeJudge(c.env.ops, raw, h, row);
            && ((errors != [] <==> v.TeFails?)
                <==> ExtraCells(c.env.ops, raw, |h.columns|) != [] || AllCellsCast(c.env.ops, raw, h))
            && (errors != [] ==> v == TeLoading.TeFails(TeLoading.CellError(
                  RowLoading.RowError(row, errors[0].column, errors[0].value, errors[0].reason))))
  {
    var h, raw := ReportedTe(c, db, r).value, CsvText.Parse(r.content)[row];
    hide ReportedTe, ExtraCells, TeLoading.TeJudge, Review.Header, Review.View, AllCellsCast, RowLoading.RaggedReason;
    TeColumnsAreStored(c, db, r, env);
    UntypedReview(c, db, r, env, log, upload, row);
    TeJudgedExactly(c.env.ops, raw, h, row);
  }

  /** The database refused the row with this number in the file. */
  ghost predicate DatabaseRefused(c: Config, db: Db, r: Request, row: nat)
    requires r.UploadTe? && ReportedTe(c, db, r).Some? && 1 <= row < |CsvText.Parse(r.content)|
  {
    var v := TeLoading.TeJudgeAll(c.env.ops, CsvText.Parse(r.content)[1..], ReportedTe(c, db, r).value);
    var rules, table := c.teTables[r.target].rules, TeContents(db, TableName(c.te, r.target));
    TeLoading.DatabaseRefuses(rules, table, v, row - 1)
  }

  /** The load reports an error for the row: its own check's, or the database's. */
  ghost predicate NotImported(c: Config, db: Db, r: Request, row: nat)
    requires r.UploadTe? && ReportedTe(c, db, r).Some? && 1 <= row < |CsvText.Parse(r.content)|
  {
    TeLoading.TeJudge(c.env.ops, CsvText.Parse(r.content)[row], ReportedTe(c, db, r).value, row).TeFails?
    || DatabaseRefused(c, db, r, row)
  }

  lemma RefusedRowsHadPassed(c: Config, db: Db, r: Request, row: nat)
    requires r.UploadTe? && ReportedTe(c, db, r).Some? && 1 <= row < |CsvText.Parse(r.content)|
    requires DatabaseRefused(c, db, r, row)
    ensures TeLoading.TeJudge(c.env.ops, CsvText.Parse(r.content)[row], ReportedTe(c, db, r).value, row).TePasses?
  {
    hide ReportedTe, TeLoading.Refused, TeLoading.TeJudge, TeLoading.Position;
  }

  /** Nor does review know of rows that the database refused. */
  lemma RefusedRowLooksClean(
      c: Config, db: Db, r: Request, env: Review.Env, log: Review.Log, upload: nat, row: nat)
    requires r.UploadTe? && ReportedTe(c, db, r).Some? && Reviews(c, db, r, env, log, upload, row)
    requires DatabaseRefused(c, db, r, row)
    ensures Review.View(env, log, upload, row).errors == []
  {
    TeReviewAgreesExactly(c, db, r, env, log, upload, row);
    hide ReportedTe, DatabaseRefused, TeLoading.TeJudge, Review.View, AllCellsCast, ExtraCells;
    RefusedRowsHadPassed(c, db, r, row);
  }

  /** Review and the whole of a T&E load agree about an unedited row exactly if the row has
      cells beyond the header, or all its cells cast and the database did not refuse it. */
  lemma TeReviewTellsImportsExactly(
      c: Config, db: Db, r: Request, env: Review.Env, log: Review.Log, upload: nat, row: nat)
    requires r.UploadTe? && ReportedTe(c, db, r).Some? && Reviews(c, db, r, env, log, upload, row)
    ensures var h, raw := ReportedTe(c, db, r).value, CsvText.Parse(r.content)[row];
            (Review.View(env, log, upload, row).errors != [] <==> NotImported(c, db, r, row))
            <==> ExtraCells(c.env.ops, raw, |h.columns|) != []
                 || (AllCellsCast(c.env.ops, raw, h) && !DatabaseRefused(c, db, r, row))
  {
    var h, raw := ReportedTe(c, db, r).value, CsvText.Parse(r.content)[row];
    TeReviewAgreesExactly(c, db, r, env, log, upload, row);
    if DatabaseRefused(c, db, r, row) {
      RefusedRowsHadPassed(c, db, r, row);
    }
    hide ReportedTe, DatabaseRefused, TeLoading.TeJudge, Review.View, AllCellsCast, ExtraCells;
    TeJudgedExactly(c.env.ops, raw, h, row);
  }

  // ---------------------------------------------------------------------
  // A T&E load that review does not see failing
  // ---------------------------------------------------------------------

  lemma TwoLines()
    ensures CsvText.Parse("a\nx") == [["a"], ["x"]]
  {
    hide CsvText.Parse;
    var rows: seq<Cells> := [["a"], ["x"]];
    CsvText.PlainNamesPrintAsTheyAre(["a"]);
    CsvText.PlainNamesPrintAsTheyAre(["x"]);
    assert CsvText.PrintRow(["a"]) == "a" && CsvText.PrintRow(["x"]) == "x";
    var lines := CsvText.Map(CsvText.PrintRow, rows);
    assert lines[..1] == ["a"] && CsvText.Join("\n", lines[..1]) == "a";
    assert CsvText.Print(rows) == "a" + "\n" + "x";
    assert "a" + "\n" + "x" == "a\nx";
    CsvText.ParsePrint(rows);
    assert CsvText.Map(CsvText.GuardRow, rows) == rows;
    assert !CsvText.Blank(rows[1]) by { assert rows[1][0] != ""; }
    assert CsvText.TrimBlank(rows) == rows;
  }

  lemma OneColumn(norm: string -> string)
    requires norm("a") == "a"
    ensures Sanitize.SanitizeColumns(norm, ["a"]) == ["a"]
  {
    hide Sanitize.Stem, Sanitize.FreeName, Sanitize.FreeSuffix, Sanitize.Decimal, Sanitize.Counters;
    Sanitize.PlainStem(norm, "a", 0);
    assert Sanitize.Stems(norm, ["a"]) == ["a"];
    assert ["a"][..0] == [] && Sanitize.Unique([]) == [];
    Sanitize.UniqueNext(["a"], 0);
    assert ["a"][..1] == ["a"];
    Sanitize.FreeNameIs({}, "a", 1);
  }

  lemma OneTeColumn(c: Config, t: TeTable)
    requires Sanitize.SanitizeColumns(c.norm, ["a"]) == ["a"] && t.columns == map["a" := Some(Int8)]
    ensures TeHeaderFor(c, t, ["a"]) == Some(TeLoading.TeHeader(["a"], [Some(Int8)]))
  {
    hide Sanitize.SanitizeColumns;
    var h := TeHeaderFor(c, t, ["a"]);
    assert t.columns["a"] == Some(Int8);
    assert h.Some? && h.value.columns == ["a"] && h.value.types == [Some(Int8)];
  }

  /** The file "a, x" loaded into a table with a whole-number column a: the loader refuses
      the one row, and review shows it without a problem. */
  lemma FailedTeRowLooksClean(
      c: Config, db: Db, target: string, env: Review.Env, log: Review.Log, upload: nat)
    requires c.norm("a") == "a" && c.env.ops.strip("x") == "x" && c.maxRows > 0
    requires target in c.teNames && target in c.teTables && c.teTables[target].columns == map["a" := Some(Int8)]
    requires Inv(c, db) && PrefixesDiffer(Hashes(db) + {HashOf(c, "a\nx")})
    requires Reviews(c, db, UploadTe("f", "a\nx", target, false), env, log, upload, 1)
    ensures var r := UploadTe("f", "a\nx", target, false);
      && Handle(c, db, r).0.Loaded? && ReportedTe(c, db, r).Some?
      && TeLoading.TeJudge(c.env.ops, ["x"], ReportedTe(c, db, r).value, 1).TeFails?
      && Review.View(env, log, upload, 1).errors == []
  {
    hide DoTe, Inv, PrefixesDiffer, Hashes, HashOf, CsvText.Parse, Sanitize.SanitizeColumns, Review.View, Reviews;
    hide TeLoading.TeJudge;
    var r := UploadTe("f", "a\nx", target, false);
    TwoLines();
    OneColumn(c.norm);
    var h := TeLoading.TeHeader(["a"], [Some(Int8)]);
    OneTeColumn(c, c.teTables[target]);
    DoTeKeepsInv(c, db, r, [["a"], ["x"]]);
    TeLoading.OneColumnVerdict(c.env.ops, "a", "x", 1);
    TeLoading.XIsNoNumber();
    TeReviewAgreesExactly(c, db, r, env, log, upload, 1);
    assert ExtraCells(c.env.ops, ["x"], 1) == [];
    assert !AllCellsCast(c.env.ops, ["x"], h) by {
      TeJudgedExactly(c.env.ops, ["x"], h, 1);
    }
  }
}
