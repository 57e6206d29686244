/**
 * Dynamic uploads that run at the same time, without overwriting: the checks
 * are made without a lock, and PostgreSQL's unique indexes decide who wins.
 *
 * Each step is one statement. A statement sees what is committed when it starts;
 * an insert that meets an uncommitted row or table of the same key waits for
 * that transaction to end.
 */
module RegistryRace {
  import opened Common
  import RowLoading
  import Registry

  type TxId = nat

  type Rows = seq<RowLoading.Stored>

  /** What one request wants to register: its rows that cast, without repeats, if the names
      and types of its columns are accepted. */
  datatype Job = Job(fileName: string, hash: string, table: string, accepted: bool, rows: Rows)

  /** `Refused`: by the loader itself. `Errored`: by a database error. */
  datatype Result = Won | Duplicate | Refused | Errored

  /** `own`: the transaction created the table itself; otherwise it found it. */
  datatype Phase =
    | Start                     // before the file name check
    | NameFree                  // before the content check
    | ContentFree               // before CREATE TABLE IF NOT EXISTS
    | Waiting                   // CREATE waits for another transaction's table
    | Created(own: bool)
    | Inserted(own: bool, count: nat)
    | HashEntered(own: bool, count: nat)   // in the index of hashes, not yet in that of names
    | Registered(own: bool, count: nat)
    | Done(result: Result)

  /** A registered file; a T&E row (`te`) names a shared table of another schema. */
  datatype Entry = Entry(tx: TxId, fileName: string, hash: string, table: string, rowCount: nat, te: bool)

  type Jobs = map<TxId, Job>
  type Tables = map<string, Rows>
  type Phases = map<TxId, Phase>

  datatype State = State(files: seq<Entry>, tables: Tables, phases: Phases)

  predicate Conflict(e: Entry, j: Job) {
    e.fileName == j.fileName || e.hash == j.hash
  }

  predicate TakenBy(files: seq<Entry>, j: Job) {
    exists i :: 0 <= i < |files| && Conflict(files[i], j)
  }

  predicate HasName(files: seq<Entry>, name: string) {
    exists i :: 0 <= i < |files| && files[i].fileName == name
  }

  predicate HasHash(files: seq<Entry>, hash: string) {
    exists i :: 0 <= i < |files| && files[i].hash == hash
  }

  predicate Owns(p: Phase) {
    (p.Created? || p.Inserted? || p.HashEntered? || p.Registered?) && p.own
  }

  predicate SameKey(a: Job, b: Job) {
    a.fileName == b.fileName || a.hash == b.hash
  }

  /** `u` is an open transaction that has created the job's table. */
  predicate HoldsTable(jobs: Jobs, phases: Phases, u: TxId, j: Job) {
    u in phases && u in jobs && Owns(phases[u]) && jobs[u].table == j.table
  }

  predicate TableHeld(jobs: Jobs, phases: Phases, t: TxId)
    requires t in jobs
  {
    exists u :: u in phases && u != t && HoldsTable(jobs, phases, u, jobs[t])
  }

  /** `u` is an open transaction with an entry in the index of content hashes ... */
  predicate HoldsHash(jobs: Jobs, phases: Phases, u: TxId, j: Job) {
    u in phases && u in jobs && (phases[u].HashEntered? || phases[u].Registered?) && jobs[u].hash == j.hash
  }

  predicate HashHeld(jobs: Jobs, phases: Phases, t: TxId)
    requires t in jobs
  {
    exists u :: u in phases && u != t && HoldsHash(jobs, phases, u, jobs[t])
  }

  /** ... or in that of file names, which comes second. */
  predicate HoldsName(jobs: Jobs, phases: Phases, u: TxId, j: Job) {
    u in phases && u in jobs && phases[u].Registered? && jobs[u].fileName == j.fileName
  }

  predicate NameHeld(jobs: Jobs, phases: Phases, t: TxId)
    requires t in jobs
  {
    exists u :: u in phases && u != t && HoldsName(jobs, phases, u, jobs[t])
  }

  datatype Action = Advance(tx: TxId) | Fail(tx: TxId)

  function RowsOf(tables: Tables, q: string): Rows {
    if q in tables then tables[q] else []
  }

  /** The table after the INSERT: a table of its own is empty and takes all rows. */
  function AfterInsert(tables: Tables, j: Job, own: bool): Rows {
    if own then j.rows else Registry.InsertIgnoring(RowsOf(tables, j.table), j.rows, |j.rows|)
  }

  function Added(tables: Tables, j: Job, own: bool): nat {
    if own then |j.rows| else Max(0, |AfterInsert(tables, j, own)| - |RowsOf(tables, j.table)|)
  }

  /** The next statement of a transaction, or no change while it waits. */
  function Next(jobs: Jobs, s: State, t: TxId): Phase
    requires t in jobs && t in s.phases
  {
    var j, p := jobs[t], s.phases[t];
    match p
    case Start => if HasName(s.files, j.fileName) then Done(Duplicate) else NameFree
    case NameFree => if HasHash(s.files, j.hash) then Done(Duplicate) else ContentFree
    case ContentFree =>
      if !j.accepted then Done(Refused)
      else if j.table in s.tables then Created(false)
      else if TableHeld(jobs, s.phases, t) then Waiting
      else Created(true)
    case Waiting =>
      if TableHeld(jobs, s.phases, t) then Waiting
      else if j.table in s.tables then Done(Duplicate)    // the catalog's unique index refuses
      else Created(true)
    case Created(own) =>
      if j.rows == [] then Done(Refused)                         // every row has failed
      else Inserted(own, Added(s.tables, j, own))
    case Inserted(own, count) =>
      if HashHeld(jobs, s.phases, t) then p
      else if HasHash(s.files, j.hash) then Done(Duplicate)      // a unique index of the registry refuses
      else HashEntered(own, count)
    case HashEntered(own, count) =>
      if NameHeld(jobs, s.phases, t) then p
      else if HasName(s.files, j.fileName) then Done(Duplicate)
      else Registered(own, count)
    case Registered(_, _) => Done(Won)
    case Done(_) => p
  }

  function Step(jobs: Jobs, s: State, a: Action): State {
    if a.tx !in jobs || a.tx !in s.phases then s
    else
      var j, p := jobs[a.tx], s.phases[a.tx];
      match a
      case Fail(t) => if p.Done? then s else s.(phases := s.phases[t := Done(Errored)])
      case Advance(t) =>
        var next := s.(phases := s.phases[t := Next(jobs, s, t)]);
        if !p.Registered? then next
        else
          next.(files := s.files + [Entry(t, j.fileName, j.hash, j.table, p.count, false)],
                tables := s.tables[j.table := AfterInsert(s.tables, j, p.own)])
  }

  function Run(jobs: Jobs, s: State, actions: seq<Action>): State {
    if actions == [] then s
    else Step(jobs, Run(jobs, s, actions[..|actions| - 1]), actions[|actions| - 1])
  }

  // ---------------------------------------------------------------------
  // What every interleaving keeps
  // ---------------------------------------------------------------------

  predicate Apart(a: Entry, b: Entry) {
    a.fileName != b.fileName && a.hash != b.hash && a.tx != b.tx
  }

  predicate HasTable(tables: Tables, e: Entry) {
    e.te || (e.table in tables && |tables[e.table]| == e.rowCount)
  }

  predicate NamesTable(files: seq<Entry>, q: string) {
    exists i :: 0 <= i < |files| && !files[i].te && files[i].table == q
  }

  /** The committed state: names and contents are unique, and the tables are those of the
      registered dynamic files, with as many rows as registered. */
  ghost predicate Committed(files: seq<Entry>, tables: Tables) {
    && (forall i, j :: 0 <= i < j < |files| ==> Apart(files[i], files[j]))
    && (forall i :: 0 <= i < |files| ==> HasTable(tables, files[i]))
    && (forall q :: q in tables ==> NamesTable(files, q))
  }

  /** Table names stand for contents: they are equal exactly when the contents are. */
  ghost predicate TablesNameContents(jobs: Jobs, files: seq<Entry>) {
    && (forall t, u :: t in jobs && u in jobs ==> (jobs[t].table == jobs[u].table <==> jobs[t].hash == jobs[u].hash))
    && (forall t, i :: t in jobs && 0 <= i < |files| && !files[i].te ==>
          (files[i].table == jobs[t].table <==> files[i].hash == jobs[t].hash))
  }

  /** The transaction's row is in the registry and its rows are its table. */
  ghost predicate Wins(files: seq<Entry>, tables: Tables, t: TxId, j: Job) {
    && Entry(t, j.fileName, j.hash, j.table, |j.rows|, false) in files
    && j.table in tables && tables[j.table] == j.rows
    && j.accepted && j.rows != []
  }

  predicate Absent(files: seq<Entry>, t: TxId) {
    forall i :: 0 <= i < |files| ==> files[i].tx != t
  }

  /** The loader has accepted the columns. */
  predicate Begun(p: Phase) {
    p.Waiting? || p.Created? || p.Inserted? || p.HashEntered? || p.Registered?
  }

  /** What is true of one transaction in phase `p`. */
  ghost predicate Tidy(files: seq<Entry>, tables: Tables, t: TxId, j: Job, p: Phase) {
    && (Owns(p) ==> j.table !in tables)
    && ((p.Created? || p.Inserted? || p.HashEntered?) && !p.own ==> TakenBy(files, j))
    && (p.HashEntered? ==> !HasHash(files, j.hash))
    && (p.Registered? ==> p.own && !TakenBy(files, j))
    && ((p.Inserted? || p.HashEntered? || p.Registered?) && p.own ==> p.count == |j.rows|)
    && (Begun(p) ==> j.accepted)
    && (p.Inserted? || p.HashEntered? || p.Registered? ==> j.rows != [])
    && (p == Done(Refused) ==> !j.accepted || j.rows == [])
    && (p == Done(Duplicate) ==> TakenBy(files, j))
    && (p == Done(Won) ==> Wins(files, tables, t, j))
    && (p != Done(Won) ==> Absent(files, t))
  }

  /** No two open transactions hold the same table, hash or name. */
  ghost predicate Exclusive(jobs: Jobs, phases: Phases) {
    forall t, u :: t in jobs && u in jobs && t != u ==> Disjoint(jobs, phases, t, u)
  }

  predicate Disjoint(jobs: Jobs, phases: Phases, t: TxId, u: TxId)
    requires t in jobs
  {
    && !(HoldsTable(jobs, phases, t, jobs[t]) && HoldsTable(jobs, phases, u, jobs[t]))
    && !(HoldsHash(jobs, phases, t, jobs[t]) && HoldsHash(jobs, phases, u, jobs[t]))
    && !(HoldsName(jobs, phases, t, jobs[t]) && HoldsName(jobs, phases, u, jobs[t]))
  }

  ghost predicate AllTidy(jobs: Jobs, s: State)
    requires s.phases.Keys == jobs.Keys
  {
    forall t :: t in jobs ==> Tidy(s.files, s.tables, t, jobs[t], s.phases[t])
  }

  ghost predicate Inv(jobs: Jobs, s: State) {
    && s.phases.Keys == jobs.Keys
    && TablesNameContents(jobs, s.files)
    && Committed(s.files, s.tables)
    && Exclusive(jobs, s.phases)
    && AllTidy(jobs, s)
  }

  /** A registered file with the job's table has the job's content. */
  lemma TableMeansTaken(jobs: Jobs, s: State, t: TxId)
    requires Committed(s.files, s.tables) && TablesNameContents(jobs, s.files)
    requires t in jobs && jobs[t].table in s.tables
    ensures TakenBy(s.files, jobs[t])
  {
    assert NamesTable(s.files, jobs[t].table);
    var i :| 0 <= i < |s.files| && !s.files[i].te && s.files[i].table == jobs[t].table;
    assert Conflict(s.files[i], jobs[t]);
  }

  /** A transaction may come to hold only what it held before or what no other one holds. */
  ghost predicate MayEnter(jobs: Jobs, phases: Phases, t: TxId, p: Phase)
    requires t in jobs && t in phases
  {
    && (Owns(p) ==> Owns(phases[t]) || !TableHeld(jobs, phases, t))
    && (p.HashEntered? || p.Registered? ==>
          phases[t].HashEntered? || phases[t].Registered? || !HashHeld(jobs, phases, t))
    && (p.Registered? ==> phases[t].Registered? || !NameHeld(jobs, phases, t))
  }

  lemma DisjointIsMutual(jobs: Jobs, phases: Phases, t: TxId, u: TxId)
    requires t in jobs && u in jobs
    ensures Disjoint(jobs, phases, t, u) == Disjoint(jobs, phases, u, t)
  {
  }

  lemma DisjointAfter(jobs: Jobs, phases: Phases, t: TxId, p: Phase, u: TxId)
    requires t in jobs && u in jobs && u != t && phases.Keys == jobs.Keys
    requires Disjoint(jobs, phases, t, u) && MayEnter(jobs, phases, t, p)
    ensures Disjoint(jobs, phases[t := p], t, u)
  {
    assert HoldsTable(jobs, phases, u, jobs[t]) ==> TableHeld(jobs, phases, t);
    assert HoldsHash(jobs, phases, u, jobs[t]) ==> HashHeld(jobs, phases, t);
    assert HoldsName(jobs, phases, u, jobs[t]) ==> NameHeld(jobs, phases, t);
  }

  lemma ExclusiveAfter(jobs: Jobs, phases: Phases, t: TxId, p: Phase)
    requires t in jobs && phases.Keys == jobs.Keys && Exclusive(jobs, phases) && MayEnter(jobs, phases, t, p)
    ensures Exclusive(jobs, phases[t := p])
  {
    var after := phases[t := p];
    forall a, b | a in jobs && b in jobs && a != b ensures Disjoint(jobs, after, a, b) {
      assert Disjoint(jobs, phases, a, b);
      if a == t {
        DisjointAfter(jobs, phases, t, p, b);
      } else if b == t {
        DisjointIsMutual(jobs, phases, a, t);
        DisjointAfter(jobs, phases, t, p, a);
        DisjointIsMutual(jobs, after, a, t);
      }
    }
  }

  /** A step that commits nothing keeps the invariant if its own transaction stays tidy and
      takes no table, hash or name that another one holds. */
  lemma PhaseChange(jobs: Jobs, s: State, t: TxId, p: Phase)
    requires Inv(jobs, s) && t in jobs
    requires Tidy(s.files, s.tables, t, jobs[t], p) && MayEnter(jobs, s.phases, t, p)
    ensures Inv(jobs, s.(phases := s.phases[t := p]))
  {
    hide TablesNameContents, Committed, Exclusive, MayEnter, Tidy;
    ExclusiveAfter(jobs, s.phases, t, p);
  }

  lemma FoundIsTaken(files: seq<Entry>, j: Job)
    ensures HasName(files, j.fileName) || HasHash(files, j.hash) <==> TakenBy(files, j)
  {
    if i :| 0 <= i < |files| && (files[i].fileName == j.fileName || files[i].hash == j.hash) {
      assert Conflict(files[i], j);
    }
  }

  lemma NextIsTidy(jobs: Jobs, s: State, t: TxId)
    requires t in jobs && t in s.phases && !s.phases[t].Registered?
    requires jobs[t].table in s.tables ==> TakenBy(s.files, jobs[t])
    requires Tidy(s.files, s.tables, t, jobs[t], s.phases[t])
    ensures Tidy(s.files, s.tables, t, jobs[t], Next(jobs, s, t))
  {
    FoundIsTaken(s.files, jobs[t]);
  }

  /** A statement waits for what another transaction holds. */
  lemma NextMayEnter(jobs: Jobs, s: State, t: TxId)
    requires t in jobs && t in s.phases && !s.phases[t].Registered?
    ensures MayEnter(jobs, s.phases, t, Next(jobs, s, t))
  {
    hide TableHeld, HashHeld, NameHeld;
  }

  lemma AdvanceKeepsInv(jobs: Jobs, s: State, t: TxId)
    requires Inv(jobs, s) && t in jobs && !s.phases[t].Registered?
    ensures Inv(jobs, Step(jobs, s, Advance(t)))
  {
    hide TablesNameContents, Exclusive, Committed, Tidy, Next, MayEnter, TakenBy;
    if jobs[t].table in s.tables {
      TableMeansTaken(jobs, s, t);
    }
    NextIsTidy(jobs, s, t);
    NextMayEnter(jobs, s, t);
    PhaseChange(jobs, s, t, Next(jobs, s, t));
  }

  lemma FailKeepsInv(jobs: Jobs, s: State, t: TxId)
    requires Inv(jobs, s) && t in jobs
    ensures Inv(jobs, Step(jobs, s, Fail(t)))
  {
    if !s.phases[t].Done? {
      assert Tidy(s.files, s.tables, t, jobs[t], s.phases[t]);
      PhaseChange(jobs, s, t, Done(Errored));
    }
  }

  function NewEntry(t: TxId, j: Job): Entry {
    Entry(t, j.fileName, j.hash, j.table, |j.rows|, false)
  }

  /** The state after the commit of a registered transaction. */
  function AfterCommit(jobs: Jobs, s: State, t: TxId): State
    requires t in jobs
  {
    var j := jobs[t];
    State(s.files + [NewEntry(t, j)], s.tables[j.table := j.rows], s.phases[t := Done(Won)])
  }

  lemma CommitKeepsCommitted(files: seq<Entry>, tables: Tables, t: TxId, j: Job)
    requires Committed(files, tables) && !TakenBy(files, j) && Absent(files, t) && j.table !in tables
    ensures Committed(files + [NewEntry(t, j)], tables[j.table := j.rows])
  {
    var files', tables' := files + [NewEntry(t, j)], tables[j.table := j.rows];
    forall i | 0 <= i < |files| ensures Apart(files[i], NewEntry(t, j)) {
      assert !Conflict(files[i], j);
    }
    forall i | 0 <= i < |files'| ensures HasTable(tables', files'[i]) {
      assert i < |files| ==> HasTable(tables, files[i]);
    }
    forall q | q in tables' ensures NamesTable(files', q) {
      if q == j.table {
        assert files'[|files|].table == q;
      } else {
        assert NamesTable(files, q);
        var i :| 0 <= i < |files| && !files[i].te && files[i].table == q;
        assert files'[i] == files[i];
      }
    }
  }

  lemma CommitKeepsNames(jobs: Jobs, files: seq<Entry>, t: TxId)
    requires TablesNameContents(jobs, files) && t in jobs
    ensures TablesNameContents(jobs, files + [NewEntry(t, jobs[t])])
  {
  }

  lemma MoreHashes(files: seq<Entry>, e: Entry, hash: string)
    ensures HasHash(files + [e], hash) ==> HasHash(files, hash) || e.hash == hash
  {
  }

  lemma MoreTaken(files: seq<Entry>, e: Entry, j: Job)
    ensures TakenBy(files + [e], j) <==> TakenBy(files, j) || Conflict(e, j)
  {
    if TakenBy(files, j) {
      var i :| 0 <= i < |files| && Conflict(files[i], j);
      assert (files + [e])[i] == files[i];
    }
    assert (files + [e])[|files|] == e;
  }

  /** Another transaction stays tidy: it holds neither the table nor the key just committed. */
  lemma CommitKeepsOthersTidy(files: seq<Entry>, tables: Tables, t: TxId, j: Job, u: TxId, k: Job, p: Phase)
    requires Tidy(files, tables, u, k, p) && u != t && j.table !in tables
    requires Owns(p) ==> k.table != j.table
    requires p.HashEntered? || p.Registered? ==> j.hash != k.hash
    requires p.Registered? ==> j.fileName != k.fileName
    ensures Tidy(files + [NewEntry(t, j)], tables[j.table := j.rows], u, k, p)
  {
    MoreTaken(files, NewEntry(t, j), k);
    MoreHashes(files, NewEntry(t, j), k.hash);
  }

  lemma OthersHoldOther(jobs: Jobs, phases: Phases, t: TxId, u: TxId)
    requires Exclusive(jobs, phases) && phases.Keys == jobs.Keys && t in jobs && u in jobs && t != u
    requires phases[t].Registered? && phases[t].own
    ensures Owns(phases[u]) ==> jobs[u].table != jobs[t].table
    ensures phases[u].HashEntered? || phases[u].Registered? ==> jobs[t].hash != jobs[u].hash
    ensures phases[u].Registered? ==> jobs[t].fileName != jobs[u].fileName
  {
    assert Disjoint(jobs, phases, t, u);
  }

  lemma CommitIsAfterCommit(jobs: Jobs, s: State, t: TxId)
    requires t in jobs && t in s.phases && s.phases[t].Registered?
    requires Tidy(s.files, s.tables, t, jobs[t], s.phases[t])
    ensures Step(jobs, s, Advance(t)) == AfterCommit(jobs, s, t)
  {
  }

  /** After the commit the winner is tidy too: it has won. */
  lemma WinnerIsTidy(files: seq<Entry>, tables: Tables, t: TxId, j: Job)
    requires j.accepted && j.rows != []
    ensures Tidy(files + [NewEntry(t, j)], tables[j.table := j.rows], t, j, Done(Won))
  {
    assert (files + [NewEntry(t, j)])[|files|] == NewEntry(t, j);
  }

  lemma CommitKeepsAllTidy(jobs: Jobs, s: State, t: TxId)
    requires Inv(jobs, s) && t in jobs && s.phases[t].Registered?
    ensures AllTidy(jobs, AfterCommit(jobs, s, t))
  {
    hide TablesNameContents, Committed, Exclusive, Tidy, AfterCommit;
    var j, s' := jobs[t], AfterCommit(jobs, s, t);
    assert s'.files == s.files + [NewEntry(t, j)] && s'.tables == s.tables[j.table := j.rows]
           && s'.phases == s.phases[t := Done(Won)] by { AfterCommitParts(jobs, s, t); }
    RegisteredHolds(s.files, s.tables, t, j, s.phases[t]);
    forall u | u in jobs ensures Tidy(s'.files, s'.tables, u, jobs[u], s'.phases[u]) {
      if u != t {
        OthersHoldOther(jobs, s.phases, t, u);
        CommitKeepsOthersTidy(s.files, s.tables, t, j, u, jobs[u], s.phases[u]);
      } else {
        WinnerIsTidy(s.files, s.tables, t, j);
      }
    }
  }

  lemma AfterCommitParts(jobs: Jobs, s: State, t: TxId)
    requires t in jobs
    ensures AfterCommit(jobs, s, t)
         == State(s.files + [NewEntry(t, jobs[t])], s.tables[jobs[t].table := jobs[t].rows], s.phases[t := Done(Won)])
  {
  }

  lemma RegisteredHolds(files: seq<Entry>, tables: Tables, t: TxId, j: Job, p: Phase)
    requires Tidy(files, tables, t, j, p) && p.Registered?
    ensures p.own && j.table !in tables && !TakenBy(files, j) && Absent(files, t) && j.accepted && j.rows != []
  {
  }

  lemma CommitKeepsInv(jobs: Jobs, s: State, t: TxId)
    requires Inv(jobs, s) && t in jobs && s.phases[t].Registered?
    ensures Step(jobs, s, Advance(t)) == AfterCommit(jobs, s, t)
    ensures Inv(jobs, AfterCommit(jobs, s, t))
  {
    hide TablesNameContents, Committed, Exclusive, Tidy, TakenBy, Absent, Step, MayEnter;
    var j := jobs[t];
    assert MayEnter(jobs, s.phases, t, Done(Won)) by { DoneMayEnter(jobs, s.phases, t); }
    CommitIsAfterCommit(jobs, s, t);
    RegisteredHolds(s.files, s.tables, t, j, s.phases[t]);
    CommitKeepsCommitted(s.files, s.tables, t, j);
    CommitKeepsNames(jobs, s.files, t);
    ExclusiveAfter(jobs, s.phases, t, Done(Won));
    CommitKeepsAllTidy(jobs, s, t);
  }

  lemma DoneMayEnter(jobs: Jobs, phases: Phases, t: TxId)
    requires t in jobs && t in phases
    ensures MayEnter(jobs, phases, t, Done(Won))
  {
  }

  lemma StepKeepsInv(jobs: Jobs, s: State, a: Action)
    requires Inv(jobs, s)
    ensures Inv(jobs, Step(jobs, s, a)) && s.files <= Step(jobs, s, a).files
  {
    if a.tx in jobs {
      if a.Fail? {
        FailKeepsInv(jobs, s, a.tx);
      } else if s.phases[a.tx].Registered? {
        CommitKeepsInv(jobs, s, a.tx);
      } else {
        AdvanceKeepsInv(jobs, s, a.tx);
      }
    }
  }

  /** In every interleaving the committed state stays in order, and only grows. */
  lemma {:induction false} EveryRaceKeepsInv(jobs: Jobs, s: State, actions: seq<Action>)
    requires Inv(jobs, s)
    ensures Inv(jobs, Run(jobs, s, actions)) && s.files <= Run(jobs, s, actions).files
  {
    if actions != [] {
      EveryRaceKeepsInv(jobs, s, actions[..|actions| - 1]);
      StepKeepsInv(jobs, Run(jobs, s, actions[..|actions| - 1]), actions[|actions| - 1]);
    }
  }

  // ---------------------------------------------------------------------
  // Results
  // ---------------------------------------------------------------------

  function HashesOf(jobs: Jobs, files: seq<Entry>): set<string> {
    (set t | t in jobs :: jobs[t].hash) + (set e | e in files :: e.hash)
  }

  /** All uploads about to start; some files already registered, the dynamic ones each with
      the table its content hash names; and no two contents with the same table name. */
  ghost predicate Ready(jobs: Jobs, s: State) {
    && s.phases.Keys == jobs.Keys && Committed(s.files, s.tables)
    && (forall t :: t in jobs ==> s.phases[t] == Start && jobs[t].table == Registry.DynamicTable(jobs[t].hash))
    && (forall i :: 0 <= i < |s.files| ==>
          s.files[i].tx !in jobs && (s.files[i].te || s.files[i].table == Registry.DynamicTable(s.files[i].hash)))
    && Registry.PrefixesDiffer(HashesOf(jobs, s.files))
  }

  lemma HashesNameTables(hashes: set<string>, x: string, y: string)
    requires Registry.PrefixesDiffer(hashes) && x in hashes && y in hashes
    ensures Registry.DynamicTable(x) == Registry.DynamicTable(y) <==> x == y
  {
  }

  lemma ReadyNames(jobs: Jobs, files: seq<Entry>)
    requires Registry.PrefixesDiffer(HashesOf(jobs, files))
    requires forall t :: t in jobs ==> jobs[t].table == Registry.DynamicTable(jobs[t].hash)
    requires forall i :: 0 <= i < |files| ==> files[i].te || files[i].table == Registry.DynamicTable(files[i].hash)
    ensures TablesNameContents(jobs, files)
  {
    forall t, u | t in jobs && u in jobs
      ensures jobs[t].table == jobs[u].table <==> jobs[t].hash == jobs[u].hash
    {
      HashesNameTables(HashesOf(jobs, files), jobs[t].hash, jobs[u].hash);
    }
    forall t, i | t in jobs && 0 <= i < |files| && !files[i].te
      ensures files[i].table == jobs[t].table <==> files[i].hash == jobs[t].hash
    {
      assert files[i] in files;
      HashesNameTables(HashesOf(jobs, files), files[i].hash, jobs[t].hash);
    }
  }

  lemma StartIsTidy(jobs: Jobs, s: State, t: TxId)
    requires t in jobs && t in s.phases && s.phases[t] == Start
    requires forall i :: 0 <= i < |s.files| ==> s.files[i].tx !in jobs
    ensures Tidy(s.files, s.tables, t, jobs[t], s.phases[t])
  {
  }

  lemma StartIsExclusive(jobs: Jobs, phases: Phases)
    requires phases.Keys == jobs.Keys && forall t :: t in jobs ==> phases[t] == Start
    ensures Exclusive(jobs, phases)
  {
  }

  lemma ReadyIsInv(jobs: Jobs, s: State)
    requires Ready(jobs, s)
    ensures Inv(jobs, s)
  {
    hide TablesNameContents, Exclusive, Committed, Tidy, Registry.PrefixesDiffer, HashesOf;
    ReadyNames(jobs, s.files);
    forall t | t in jobs ensures Tidy(s.files, s.tables, t, jobs[t], s.phases[t]) {
      StartIsTidy(jobs, s, t);
    }
    StartIsExclusive(jobs, s.phases);
  }

  /** A winner's row is the only one of its name and of its content. */
  lemma WinnersDiffer(files: seq<Entry>, tables: Tables, a: Entry, b: Entry)
    requires Committed(files, tables) && a in files && b in files && a.tx != b.tx
    ensures a.fileName != b.fileName && a.hash != b.hash
  {
    var i :| 0 <= i < |files| && files[i] == a;
    var k :| 0 <= k < |files| && files[k] == b;
    assert if i < k then Apart(files[i], files[k]) else Apart(files[k], files[i]);
  }

  /** An upload that meets no database error is never answered with an error. */
  lemma {:induction false} OnlyErrorsEndInError(jobs: Jobs, s: State, actions: seq<Action>, t: TxId)
    requires s.phases.Keys == jobs.Keys && t in jobs && s.phases[t] != Done(Errored) && Fail(t) !in actions
    ensures Run(jobs, s, actions).phases.Keys == jobs.Keys
    ensures Run(jobs, s, actions).phases[t] != Done(Errored)
  {
    if actions != [] {
      OnlyErrorsEndInError(jobs, s, actions[..|actions| - 1], t);
      assert actions[|actions| - 1] in actions;
    }
  }

  /** Whatever the interleaving, at its end: the committed state is in order; a winner is
      registered and its table holds its rows; anyone else has registered nothing; who is told
      of a duplicate was beaten by a committed file of that name or content, and who is refused
      has columns that are not accepted or no row to insert. Without a database error a
      finished upload has won or has one of these answers. */
  lemma RaceIsSettled(jobs: Jobs, s: State, actions: seq<Action>, t: TxId)
    requires Ready(jobs, s) && t in jobs
    ensures var e := Run(jobs, s, actions);
      && Committed(e.files, e.tables)
      && t in e.phases
      && (e.phases[t] == Done(Won) <==> NewEntry(t, jobs[t]) in e.files)
      && (e.phases[t] == Done(Won) ==> e.tables[jobs[t].table] == jobs[t].rows)
      && (e.phases[t] != Done(Won) ==> Absent(e.files, t))
      && (e.phases[t] == Done(Duplicate) ==> TakenBy(e.files, jobs[t]))
      && (e.phases[t] == Done(Won) ==> jobs[t].accepted && jobs[t].rows != [])
      && (e.phases[t] == Done(Refused) ==> !jobs[t].accepted || jobs[t].rows == [])
      && (Fail(t) !in actions && e.phases[t].Done? ==> e.phases[t].result != Errored)
  {
    hide Run, Ready, Committed, Exclusive, TablesNameContents, TakenBy;
    if Fail(t) !in actions {
      assert s.phases.Keys == jobs.Keys && s.phases[t] == Start by { ReadyStarts(jobs, s, t); }
      OnlyErrorsEndInError(jobs, s, actions, t);
    }
    ReadyIsInv(jobs, s);
    EveryRaceKeepsInv(jobs, s, actions);
    var e := Run(jobs, s, actions);
    assert Tidy(e.files, e.tables, t, jobs[t], e.phases[t]);
  }

  lemma ReadyStarts(jobs: Jobs, s: State, t: TxId)
    requires Ready(jobs, s) && t in jobs
    ensures s.phases.Keys == jobs.Keys && s.phases[t] == Start
  {
  }

  /** At most one upload of a name, and of a content, wins. */
  lemma OneWinnerForAKey(jobs: Jobs, s: State, actions: seq<Action>, t: TxId, u: TxId)
    requires Ready(jobs, s) && t in jobs && u in jobs && t != u && SameKey(jobs[t], jobs[u])
    ensures var e := Run(jobs, s, actions);
            !(NewEntry(t, jobs[t]) in e.files && NewEntry(u, jobs[u]) in e.files)
  {
    var e := Run(jobs, s, actions);
    RaceIsSettled(jobs, s, actions, t);
    if NewEntry(t, jobs[t]) in e.files && NewEntry(u, jobs[u]) in e.files {
      WinnersDiffer(e.files, e.tables, NewEntry(t, jobs[t]), NewEntry(u, jobs[u]));
    }
  }

  /** No deadlock: while any upload is open, some upload can go on. */
  lemma SomeUploadGoesOn(jobs: Jobs, s: State, open: TxId) returns (t: TxId)
    requires s.phases.Keys == jobs.Keys && open in jobs && !s.phases[open].Done?
    ensures t in jobs && Next(jobs, s, t) != s.phases[t]
  {
    if r :| r in jobs && s.phases[r].Registered? {
      t := r;
    } else {
      assert forall u :: u in jobs ==> !NameHeld(jobs, s.phases, u);
      if e :| e in jobs && s.phases[e].HashEntered? {
        t := e;
        return;
      }
      assert forall u :: u in jobs ==> !HashHeld(jobs, s.phases, u);
      if h :| h in jobs && Owns(s.phases[h]) {
        t := h;
      } else {
        assert forall u :: u in jobs ==> !TableHeld(jobs, s.phases, u);
        t := open;
      }
    }
  }
}
