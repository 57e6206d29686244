/**
 * Uploads that race end as if they had run one after the other: the winners
 * first, in the order of their commits, then all the others.
 */
module RaceSerial {
  import opened Common
  import CsvText
  import opened RowLoading
  import opened Registry
  import Race = RegistryRace

  /** What a request brings to the race. */
  function JobOf(c: Config, r: Request): Race.Job
    requires r.UploadDynamic? && |CsvText.Parse(r.content)| > 1
  {
    var rows := CsvText.Parse(r.content);
    var hash, h := HashOf(c, r.content), LoaderHeader(c, rows[0], r.types);
    Race.Job(r.fileName, hash, DynamicTable(hash), h.Some?,
             if h.Some? then PassOver(JudgeAll(c.env, rows[1..], h.value)).rows else [])
  }

  type Requests = map<Race.TxId, Request>

  /** A well-shaped dynamic upload that may not overwrite and meets no database error. */
  predicate Plain(c: Config, r: Request) {
    r.UploadDynamic? && !r.overwrite && !r.fails && ShapeProblem(c, CsvText.Parse(r.content)).None?
  }

  predicate JobsOf(c: Config, requests: Requests, jobs: Race.Jobs) {
    && requests.Keys == jobs.Keys
    && forall t :: t in jobs ==> Plain(c, requests[t]) && jobs[t] == JobOf(c, requests[t])
  }

  predicate SameFile(f: FileRow, e: Race.Entry) {
    && f.fileName == e.fileName && f.fileHash == e.hash && f.tableName == e.table && f.rowCount == e.rowCount
    && f.mode.Te? == e.te
  }

  predicate SameTable(c: Config, db: Db, tables: Race.Tables, q: string) {
    var name := TableName(c.uploads, q);
    if q in tables then name in db.tables && db.tables[name] == Uploaded(tables[q]) else name !in db.tables
  }

  /** The serial state and the committed state of a race hold the same files, in the same
      order, and the same uploaded tables with the same rows. */
  ghost predicate Same(c: Config, db: Db, files: seq<Race.Entry>, tables: Race.Tables) {
    && |db.files| == |files|
    && (forall i :: 0 <= i < |files| ==> SameFile(db.files[i], files[i]))
    && (forall q :: SameTable(c, db, tables, q))
  }

  // ---------------------------------------------------------------------
  // A race can start from any registry that is in order.
  // ---------------------------------------------------------------------

  /** The registered files, each under a transaction number from `first` on. */
  function Entries(files: seq<FileRow>, first: nat): (entries: seq<Race.Entry>)
    ensures |entries| == |files|
  {
    seq(|files|, i requires 0 <= i < |files| =>
          Race.Entry(first + i, files[i].fileName, files[i].fileHash, files[i].tableName,
                     files[i].rowCount, files[i].mode.Te?))
  }

  function UploadedTables(c: Config, db: Db): Race.Tables {
    map q | q in db.tables && q.schema == c.uploads :: q.name := UploadedRows(db, q)
  }

  function StartOf(c: Config, db: Db, jobs: Race.Jobs, first: nat): Race.State {
    Race.State(Entries(db.files, first), UploadedTables(c, db), map t | t in jobs :: Race.Start)
  }

  lemma UploadsAreUploaded(c: Config, db: Db, q: TableName)
    requires Inv(c, db) && q in db.tables && q.schema == c.uploads
    ensures db.tables[q].Uploaded?
    ensures Race.NamesTable(Entries(db.files, 0), q.name)
  {
    assert Named(c, db, q);
    var i :| 0 <= i < |db.files| && db.files[i].mode.Dynamic? && UploadTable(c, db.files[i]) == q;
    assert TableMatches(c, db, db.files[i]);
    assert !Entries(db.files, 0)[i].te && Entries(db.files, 0)[i].table == q.name;
  }

  lemma StartIsSame(c: Config, db: Db, first: nat)
    requires Inv(c, db)
    ensures Same(c, db, Entries(db.files, first), UploadedTables(c, db))
  {
    var tables := UploadedTables(c, db);
    forall q ensures SameTable(c, db, tables, q) {
      var name := TableName(c.uploads, q);
      if name in db.tables {
        UploadsAreUploaded(c, db, name);
        assert name.name in tables;
      }
    }
  }

  lemma StartIsCommitted(c: Config, db: Db, first: nat)
    requires Inv(c, db)
    ensures Race.Committed(Entries(db.files, first), UploadedTables(c, db))
  {
    var files, tables := Entries(db.files, first), UploadedTables(c, db);
    forall i | 0 <= i < |files| ensures Race.HasTable(tables, files[i]) {
      if db.files[i].mode.Dynamic? {
        assert TableMatches(c, db, db.files[i]);
        assert UploadTable(c, db.files[i]) in db.tables;
      }
    }
    forall q | q in tables ensures Race.NamesTable(files, q) {
      UploadsAreUploaded(c, db, TableName(c.uploads, q));
      var i :| 0 <= i < |db.files| && !Entries(db.files, 0)[i].te && Entries(db.files, 0)[i].table == q;
      assert !files[i].te && files[i].table == q;
    }
  }

  lemma DynamicNamesTheirTable(c: Config, db: Db, first: nat)
    requires Inv(c, db)
    ensures forall e :: e in Entries(db.files, first) ==>
              e.tx >= first && e.hash in Hashes(db) && (e.te || e.table == DynamicTable(e.hash))
  {
    forall i | 0 <= i < |db.files|
      ensures db.files[i].fileHash in Hashes(db)
      ensures db.files[i].mode.Dynamic? ==> db.files[i].tableName == DynamicTable(db.files[i].fileHash)
    {
      assert db.files[i].mode.Dynamic? ==> TableMatches(c, db, db.files[i]);
      assert db.files[i] in db.files;
    }
  }

  /** Whatever is registered, uploads of contents that share no table prefix may race. */
  lemma EveryStartIsReady(c: Config, db: Db, requests: Requests, jobs: Race.Jobs, first: nat)
    requires Inv(c, db) && JobsOf(c, requests, jobs) && forall t :: t in jobs ==> t < first
    requires PrefixesDiffer(Hashes(db) + set t | t in jobs :: jobs[t].hash)
    ensures Race.Ready(jobs, StartOf(c, db, jobs, first))
    ensures Same(c, db, StartOf(c, db, jobs, first).files, StartOf(c, db, jobs, first).tables)
  {
    StartIsSame(c, db, first);
    StartHashes(c, db, jobs, first);
    JobsNameTables(c, requests, jobs);
    StartIsReady(c, db, jobs, first);
  }

  lemma StartHashes(c: Config, db: Db, jobs: Race.Jobs, first: nat)
    requires Inv(c, db) && PrefixesDiffer(Hashes(db) + set t | t in jobs :: jobs[t].hash)
    ensures PrefixesDiffer(Race.HashesOf(jobs, Entries(db.files, first)))
  {
    DynamicNamesTheirTable(c, db, first);
    hide PrefixesDiffer, Inv, Hashes, Entries;
    FewerPrefixes(Race.HashesOf(jobs, Entries(db.files, first)), Hashes(db) + set t | t in jobs :: jobs[t].hash);
  }

  lemma StartIsReady(c: Config, db: Db, jobs: Race.Jobs, first: nat)
    requires Inv(c, db)
    requires forall t :: t in jobs ==> t < first && jobs[t].table == DynamicTable(jobs[t].hash)
    requires PrefixesDiffer(Race.HashesOf(jobs, Entries(db.files, first)))
    ensures Race.Ready(jobs, StartOf(c, db, jobs, first))
  {
    StartIsCommitted(c, db, first);
    DynamicNamesTheirTable(c, db, first);
    hide Inv, Race.Committed, Hashes, Entries, UploadedTables, PrefixesDiffer, DynamicTable, Race.HashesOf;
    hide Race.Ready;
    ReadyFrom(jobs, StartOf(c, db, jobs, first));
  }

  lemma ReadyFrom(jobs: Race.Jobs, s: Race.State)
    requires s.phases.Keys == jobs.Keys && Race.Committed(s.files, s.tables)
    requires forall t :: t in jobs ==> s.phases[t] == Race.Start && jobs[t].table == DynamicTable(jobs[t].hash)
    requires forall e :: e in s.files ==> e.tx !in jobs && (e.te || e.table == DynamicTable(e.hash))
    requires PrefixesDiffer(Race.HashesOf(jobs, s.files))
    ensures Race.Ready(jobs, s)
  {
    hide Race.Committed, Race.HashesOf, PrefixesDiffer, DynamicTable;
  }

  lemma FewerPrefixes(some: set<string>, all: set<string>)
    requires some <= all && PrefixesDiffer(all)
    ensures PrefixesDiffer(some)
  {
  }

  lemma JobsNameTables(c: Config, requests: Requests, jobs: Race.Jobs)
    requires JobsOf(c, requests, jobs)
    ensures forall t :: t in jobs ==> jobs[t].table == DynamicTable(jobs[t].hash)
  {
  }

  // ---------------------------------------------------------------------
  // One winner
  // ---------------------------------------------------------------------

  lemma TakenAlike(c: Config, db: Db, files: seq<Race.Entry>, tables: Race.Tables, j: Race.Job)
    requires Same(c, db, files, tables)
    ensures Race.TakenBy(files, j) <==> !NoneHas(db, ByNameOrHash(j.fileName, j.hash))
  {
    if i :| 0 <= i < |files| && Race.Conflict(files[i], j) {
      assert SameFile(db.files[i], files[i]) && db.files[i] in db.files;
    }
    if f :| f in db.files && ByNameOrHash(j.fileName, j.hash)(f) {
      var i :| 0 <= i < |db.files| && db.files[i] == f;
      assert SameFile(db.files[i], files[i]) && Race.Conflict(files[i], j);
    }
  }

  lemma NothingToClear(c: Config, db: Db, fileName: string, hash: string)
    requires NoneHas(db, ByNameOrHash(fileName, hash))
    ensures ClearEarlier(c, db, fileName, hash, false) == Clear(db)
  {
    assert NoneHas(db, ByName(fileName)) && NoneHas(db, ByHash(hash)) by {
      assert forall f :: f in db.files ==> !ByNameOrHash(fileName, hash)(f);
    }
  }

  lemma SameAfterLoad(
      c: Config, db: Db, files: seq<Race.Entry>, tables: Race.Tables, t: Race.TxId, j: Race.Job, next: Db, f: FileRow)
    requires Same(c, db, files, tables) && SameFile(f, Race.NewEntry(t, j))
    requires next.files == db.files + [f]
    requires next.tables == db.tables[TableName(c.uploads, j.table) := Uploaded(j.rows)]
    ensures Same(c, next, files + [Race.NewEntry(t, j)], tables[j.table := j.rows])
  {
    var after := tables[j.table := j.rows];
    forall q ensures SameTable(c, next, after, q) {
      assert SameTable(c, db, tables, q);
    }
  }

  /** An upload that nothing stands in the way of, and that has rows, does serially what its
      commit does in the race. */
  lemma WinnerLoads(
      c: Config, db: Db, files: seq<Race.Entry>, tables: Race.Tables, t: Race.TxId, r: Request)
    requires Plain(c, r) && Inv(c, db) && PrefixesDiffer(Hashes(db) + {HashOf(c, r.content)})
    requires Same(c, db, files, tables) && !Race.TakenBy(files, JobOf(c, r))
    requires JobOf(c, r).accepted && JobOf(c, r).rows != []
    ensures Handle(c, db, r).0.Loaded?
    ensures var j := JobOf(c, r); Same(c, Step(c, db, r), files + [Race.NewEntry(t, j)], tables[j.table := j.rows])
  {
    var rows, hash, j := CsvText.Parse(r.content), HashOf(c, r.content), JobOf(c, r);
    var h := LoaderHeader(c, rows[0], r.types).value;
    var p := PassOver(JudgeAll(c.env, rows[1..], h));
    assert j.rows == p.rows && j.table == DynamicTable(hash) && j.fileName == r.fileName && j.hash == hash;
    hide JobOf, JudgeAll, PassOver, LoaderHeader, Inv, PrefixesDiffer, Hashes, Same, SameFile, LoadInto, Handle;
    TakenAlike(c, db, files, tables, j);
    NothingInTheWay(c, db, r);
    PassKeepsFirsts(JudgeAll(c.env, rows[1..], h));
    LoadIntoCommits(c, db, r.fileName, hash, h, rows[1..]);
    var f := FileRowFor(db, r.fileName, hash, 0, |p.rows|, p, |rows| - 1);
    NewFileIsSame(db, r.fileName, hash, p, |rows| - 1, t, j);
    SameAfterLoad(c, db, files, tables, t, j, Step(c, db, r), f);
  }

  lemma NothingInTheWay(c: Config, db: Db, r: Request)
    requires Plain(c, r) && NoneHas(db, ByNameOrHash(r.fileName, HashOf(c, r.content)))
    requires LoaderHeader(c, CsvText.Parse(r.content)[0], r.types).Some?
    ensures var rows := CsvText.Parse(r.content);
            var h := LoaderHeader(c, rows[0], r.types).value;
            Handle(c, db, r) == LoadInto(c, db, r.fileName, HashOf(c, r.content), h, rows[1..])
  {
    hide LoaderHeader, LoadInto, ClearEarlier;
    NothingToClear(c, db, r.fileName, HashOf(c, r.content));
  }

  lemma NewFileIsSame(db: Db, fileName: string, hash: string, p: Pass, total: nat, t: Race.TxId, j: Race.Job)
    requires j.fileName == fileName && j.hash == hash && j.table == DynamicTable(hash) && j.rows == p.rows
    ensures SameFile(FileRowFor(db, fileName, hash, 0, |p.rows|, p, total), Race.NewEntry(t, j))
  {
  }

  // ---------------------------------------------------------------------
  // A whole race
  // ---------------------------------------------------------------------

  predicate AllIn(requests: Requests, files: seq<Race.Entry>) {
    forall i :: 0 <= i < |files| ==> files[i].tx in requests
  }

  /** The requests of these files, in the order in which they were committed. */
  function InOrder(requests: Requests, files: seq<Race.Entry>): (rs: seq<Request>)
    requires AllIn(requests, files)
  {
    seq(|files|, i requires 0 <= i < |files| => requests[files[i].tx])
  }

  /** The serial run of the winners, over the files committed since `before`. */
  ghost predicate RanSerially(c: Config, db: Db, requests: Requests, before: seq<Race.Entry>, s: Race.State) {
    && before <= s.files && AllIn(requests, s.files[|before|..])
    && Same(c, Run(c, db, InOrder(requests, s.files[|before|..])), s.files, s.tables)
  }

  lemma HashesAlike(c: Config, db: Db, files: seq<Race.Entry>, tables: Race.Tables, f: FileRow)
    requires Same(c, db, files, tables) && f in db.files
    ensures exists e :: e in files && e.hash == f.fileHash
  {
    var i :| 0 <= i < |db.files| && db.files[i] == f;
    assert SameFile(db.files[i], files[i]) && files[i] in files;
  }

  /** The contents of the race and those registered before it do not share a table prefix. */
  lemma RaceHashesDiffer(
      c: Config, db: Db, requests: Requests, jobs: Race.Jobs, s: Race.State, rs: seq<Request>)
    requires Race.Ready(jobs, s) && JobsOf(c, requests, jobs) && Same(c, db, s.files, s.tables)
    requires forall r :: r in rs ==> r in requests.Values
    ensures PrefixesDiffer(Hashes(db) + RequestHashes(c, rs))
  {
    var all := Race.HashesOf(jobs, s.files);
    forall x | x in Hashes(db) + RequestHashes(c, rs) ensures x in all {
      if x in Hashes(db) {
        var f :| f in db.files && f.fileHash == x;
        HashesAlike(c, db, s.files, s.tables, f);
      } else {
        var r :| r in rs && !r.DeleteFile? && HashOf(c, r.content) == x;
        var t :| t in requests && requests[t] == r;
        assert jobs[t].hash == x;
      }
    }
  }

  lemma InOrderSnoc(requests: Requests, files: seq<Race.Entry>, e: Race.Entry)
    requires AllIn(requests, files) && e.tx in requests
    ensures AllIn(requests, files + [e])
    ensures InOrder(requests, files + [e]) == InOrder(requests, files) + [requests[e.tx]]
  {
  }

  lemma RunSnoc(c: Config, db: Db, rs: seq<Request>, r: Request)
    ensures Run(c, db, rs + [r]) == Step(c, Run(c, db, rs), r)
  {
    assert (rs + [r])[..|rs|] == rs;
  }

  /** Only a commit changes what is committed. */
  lemma OnlyCommitsPublish(jobs: Race.Jobs, s: Race.State, a: Race.Action)
    requires !(a.Advance? && a.tx in jobs && a.tx in s.phases && s.phases[a.tx].Registered?)
    ensures Race.Step(jobs, s, a).files == s.files && Race.Step(jobs, s, a).tables == s.tables
  {
  }

  lemma WhatCommits(jobs: Race.Jobs, s: Race.State, t: Race.TxId)
    requires Race.Inv(jobs, s) && t in jobs && s.phases[t].Registered?
    ensures var s', j := Race.Step(jobs, s, Race.Advance(t)), jobs[t];
            s'.files == s.files + [Race.NewEntry(t, j)] && s'.tables == s.tables[j.table := j.rows]
    ensures !Race.TakenBy(s.files, jobs[t]) && jobs[t].accepted && jobs[t].rows != []
  {
    hide Race.Step, Race.TakenBy, Race.Committed, Race.Exclusive, Race.TablesNameContents;
    assert Race.Tidy(s.files, s.tables, t, jobs[t], s.phases[t]);
    Race.CommitKeepsInv(jobs, s, t);
  }

  lemma RanOneMore(
      c: Config, db: Db, requests: Requests, before: seq<Race.Entry>, s: Race.State, s': Race.State, e: Race.Entry)
    requires RanSerially(c, db, requests, before, s)
    requires e.tx in requests && s'.files == s.files + [e]
    requires var now := Run(c, db, InOrder(requests, s.files[|before|..]));
             Same(c, Step(c, now, requests[e.tx]), s'.files, s'.tables)
    ensures RanSerially(c, db, requests, before, s')
  {
    hide Run, Step, Same;
    var since := s.files[|before|..];
    assert s'.files[|before|..] == since + [e];
    InOrderSnoc(requests, since, e);
    RunSnoc(c, db, InOrder(requests, since), requests[e.tx]);
  }

  lemma CommitRunsSerially(
      c: Config, db: Db, requests: Requests, jobs: Race.Jobs, start: Race.State, s: Race.State, t: Race.TxId)
    requires Race.Ready(jobs, start) && JobsOf(c, requests, jobs)
    requires Inv(c, db) && Same(c, db, start.files, start.tables)
    requires Race.Inv(jobs, s) && RanSerially(c, db, requests, start.files, s)
    requires t in jobs && s.phases[t].Registered?
    ensures RanSerially(c, db, requests, start.files, Race.Step(jobs, s, Race.Advance(t)))
  {
    WhatCommits(jobs, s, t);
    assert Plain(c, requests[t]) && jobs[t] == JobOf(c, requests[t]);
    hide JobsOf, Plain;
    hide Race.Ready, Race.Step, Race.Inv, Inv, Same, PrefixesDiffer, Hashes, Race.TakenBy, ShapeProblem, JobOf;
    hide Run, Step, Handle, InOrder;
    var rs := InOrder(requests, s.files[|start.files|..]);
    assert forall q :: q in rs ==> q in requests.Values by { InOrderValues(requests, s.files[|start.files|..]); }
    WinnersKeepInv(c, db, requests, jobs, start, rs, requests[t]);
    WinnerLoads(c, Run(c, db, rs), s.files, s.tables, t, requests[t]);
    RanOneMore(c, db, requests, start.files, s, Race.Step(jobs, s, Race.Advance(t)), Race.NewEntry(t, jobs[t]));
  }

  lemma InOrderValues(requests: Requests, files: seq<Race.Entry>)
    requires AllIn(requests, files)
    ensures forall q :: q in InOrder(requests, files) ==> q in requests.Values
  {
  }

  lemma HashesStay(c: Config, db: Db, rs: seq<Request>, r: Request)
    requires !r.DeleteFile? && PrefixesDiffer(Hashes(db) + RequestHashes(c, rs + [r]))
    requires Hashes(Run(c, db, rs)) <= Hashes(db) + RequestHashes(c, rs)
    ensures PrefixesDiffer(Hashes(Run(c, db, rs)) + {HashOf(c, r.content)})
  {
    assert Hashes(Run(c, db, rs)) + {HashOf(c, r.content)} <= Hashes(db) + RequestHashes(c, rs + [r]) by {
      assert r in rs + [r];
      assert RequestHashes(c, rs) <= RequestHashes(c, rs + [r]);
    }
  }

  /** Every race ends in the state that its winners reach one after the other, in the order
      of their commits. */
  lemma {:induction false} EveryRaceIsSerial(
      c: Config, db: Db, requests: Requests, jobs: Race.Jobs, s: Race.State, actions: seq<Race.Action>)
    requires Race.Ready(jobs, s) && JobsOf(c, requests, jobs)
    requires Inv(c, db) && Same(c, db, s.files, s.tables)
    ensures RanSerially(c, db, requests, s.files, Race.Run(jobs, s, actions))
  {
    hide Race.Ready, Race.Step, Inv, Same, JobsOf, RanSerially, Race.Inv;
    if actions == [] {
      assert RanSerially(c, db, requests, s.files, s) by { NothingRan(c, db, requests, s); }
    } else {
      var front, a := actions[..|actions| - 1], actions[|actions| - 1];
      EveryRaceIsSerial(c, db, requests, jobs, s, front);
      var before := Race.Run(jobs, s, front);
      Race.ReadyIsInv(jobs, s);
      Race.EveryRaceKeepsInv(jobs, s, front);
      if a.Advance? && a.tx in jobs && a.tx in before.phases && before.phases[a.tx].Registered? {
        CommitRunsSerially(c, db, requests, jobs, s, before, a.tx);
      } else {
        OnlyCommitsPublish(jobs, before, a);
        StillRanSerially(c, db, requests, s.files, before, Race.Step(jobs, before, a));
      }
    }
  }

  lemma NothingRan(c: Config, db: Db, requests: Requests, s: Race.State)
    requires Same(c, db, s.files, s.tables)
    ensures RanSerially(c, db, requests, s.files, s)
  {
    assert s.files[|s.files|..] == [];
  }

  lemma StillRanSerially(c: Config, db: Db, requests: Requests, before: seq<Race.Entry>, s: Race.State, s': Race.State)
    requires RanSerially(c, db, requests, before, s) && s'.files == s.files && s'.tables == s.tables
    ensures RanSerially(c, db, requests, before, s')
  {
  }

  // ---------------------------------------------------------------------
  // The others
  // ---------------------------------------------------------------------

  /** The state after the winners, one after the other. */
  function AfterWinners(c: Config, db: Db, requests: Requests, before: seq<Race.Entry>, s: Race.State): Db
    requires before <= s.files && AllIn(requests, s.files[|before|..])
  {
    Run(c, db, InOrder(requests, s.files[|before|..]))
  }

  /** Run after the winners, an upload that was told of a duplicate is told so again. */
  lemma LosersAreDuplicates(
      c: Config, db: Db, requests: Requests, jobs: Race.Jobs, s: Race.State, actions: seq<Race.Action>, t: Race.TxId)
    requires Race.Ready(jobs, s) && JobsOf(c, requests, jobs)
    requires Inv(c, db) && Same(c, db, s.files, s.tables)
    requires t in jobs && t in Race.Run(jobs, s, actions).phases
    requires Race.Run(jobs, s, actions).phases[t] == Race.Done(Race.Duplicate)
    ensures var e := Race.Run(jobs, s, actions);
      && s.files <= e.files && AllIn(requests, e.files[|s.files|..])
      && Handle(c, AfterWinners(c, db, requests, s.files, e), requests[t]).0.Duplicate?
  {
    hide Race.Ready, Inv, Same, Handle, Race.Run, PrefixesDiffer, Hashes, ShapeProblem, Race.TakenBy, NoneHas, Run;
    EveryRaceIsSerial(c, db, requests, jobs, s, actions);
    Race.RaceIsSettled(jobs, s, actions, t);
    var e := Race.Run(jobs, s, actions);
    WinnersKeepInv(c, db, requests, jobs, s, InOrder(requests, e.files[|s.files|..]), requests[t]);
    TakenIsDuplicate(c, AfterWinners(c, db, requests, s.files, e), e.files, e.tables, requests[t]);
  }

  lemma WinnersKeepInv(
      c: Config, db: Db, requests: Requests, jobs: Race.Jobs, s: Race.State, rs: seq<Request>, r: Request)
    requires Race.Ready(jobs, s) && JobsOf(c, requests, jobs)
    requires Inv(c, db) && Same(c, db, s.files, s.tables)
    requires r in requests.Values && !r.DeleteFile? && forall q :: q in rs ==> q in requests.Values
    ensures Inv(c, Run(c, db, rs)) && PrefixesDiffer(Hashes(Run(c, db, rs)) + {HashOf(c, r.content)})
  {
    hide Race.Ready, Inv, Same, PrefixesDiffer, Hashes, Run, JobsOf;
    RaceHashesDiffer(c, db, requests, jobs, s, rs);
    EveryRunKeepsInv(c, db, rs);
    RaceHashesDiffer(c, db, requests, jobs, s, rs + [r]);
    HashesStay(c, db, rs, r);
  }

  lemma TakenIsDuplicate(c: Config, db: Db, files: seq<Race.Entry>, tables: Race.Tables, r: Request)
    requires Plain(c, r) && Inv(c, db) && PrefixesDiffer(Hashes(db) + {HashOf(c, r.content)})
    requires Same(c, db, files, tables) && Race.TakenBy(files, JobOf(c, r))
    ensures Handle(c, db, r).0.Duplicate?
  {
    var j := JobOf(c, r);
    hide JobOf, Inv, Same, Handle, PrefixesDiffer, Hashes, ShapeProblem, Race.TakenBy, NoneHas;
    TakenAlike(c, db, files, tables, j);
    SomethingHas(db, ByNameOrHash(j.fileName, j.hash));
    DuplicateExactly(c, db, r);
  }

  lemma SomethingHas(db: Db, p: FileRow -> bool)
    requires !NoneHas(db, p)
    ensures exists f :: f in db.files && p(f)
  {
  }

  /** An upload the race has refused is never loaded, whatever is registered. */
  lemma RefusedNeverLoads(c: Config, db: Db, r: Request)
    requires Plain(c, r) && (!JobOf(c, r).accepted || JobOf(c, r).rows == [])
    requires Inv(c, db) && PrefixesDiffer(Hashes(db) + OwnHash(c, r))
    ensures !Handle(c, db, r).0.Loaded? && Step(c, db, r) == db
  {
    var rows, h := CsvText.Parse(r.content), LoaderHeader(c, CsvText.Parse(r.content)[0], r.types);
    if h.Some? {
      NoRowsMeansAllFail(JudgeAll(c.env, rows[1..], h.value));
    }
    hide Handle, Step, Inv, PrefixesDiffer, Hashes, LoaderHeader, ShapeProblem, JudgeAll, PassOver;
    if !Handle(c, db, r).0.Duplicate? {
      LoadedExactly(c, db, r);
    }
    NotLoadedNoChange(c, db, r);
  }

  lemma NoRowsMeansAllFail(v: seq<Verdict>)
    requires PassOver(v).rows == []
    ensures forall i :: 0 <= i < |v| ==> v[i].Fails?
  {
    PassKeepsFirsts(v);
    AllFailExactly(v);
  }

  lemma NotLoadedNoChange(c: Config, db: Db, r: Request)
    requires Inv(c, db) && PrefixesDiffer(Hashes(db) + OwnHash(c, r)) && r.UploadDynamic?
    requires !Handle(c, db, r).0.Loaded?
    ensures Step(c, db, r) == db
  {
    hide Handle, Step, Inv, PrefixesDiffer, Hashes;
    StepKeepsInv(c, db, r);
    UploadsDoNotDelete(c, db, r);
  }

  lemma UploadsDoNotDelete(c: Config, db: Db, r: Request)
    requires r.UploadDynamic?
    ensures !Handle(c, db, r).0.Deleted?
  {
    hide LoadPass, ClearEarlier, LoaderHeader, PassOver, JudgeAll;
    LoadsDoNotDelete(c);
  }

  lemma LoadsDoNotDelete(c: Config)
    ensures forall db, fileName, hash, p, total :: !LoadPass(c, db, fileName, hash, p, total).0.Deleted?
  {
  }
}
