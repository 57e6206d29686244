/**
 * Review of a stored upload: its rows as they are now, decisions about rows and
 * edits of cells. Decisions and edits are only ever appended; the newest wins.
 */
module Review {
  import opened Common
  import CsvText
  import Sanitize
  import opened Cast
  import opened CellValues
  import RowLoading

  /** A stored upload: its header line and data rows as parsed, and the columns and types
      the loader recorded, if it did. */
  datatype Upload = Upload(
    fileName: string, header: Cells, rows: seq<Cells>, columns: seq<string>, types: seq<ColType>)

  datatype Env = Env(ops: TextOps, norm: string -> string, uploads: map<nat, Upload>)

  datatype Decision = Decision(upload: nat, row: nat, verdict: string, reason: string, actor: string)

  datatype Edit = Edit(
    upload: nat, row: nat, column: nat, before: string, after: string, reason: string, actor: string)

  datatype AuditEntry =
    | RowDecision(fileName: string, upload: nat, row: nat, before: string, after: string, reason: string, actor: string)
    | CellEdit(fileName: string, upload: nat, row: nat, column: string, before: string, after: string,
               reason: string, actor: string)

  datatype Log = Log(decisions: seq<Decision>, edits: seq<Edit>, audit: seq<AuditEntry>)

  datatype Problem = Problem(column: string, value: string, reason: string)

  datatype RowView = RowView(
    rowNumber: nat, original: Cells, current: Cells, edited: set<nat>,
    verdict: string, reason: Option<string>, errors: seq<Problem>)

  datatype Answer = Row(view: RowView) | Refused(status: nat)

  // ---------------------------------------------------------------------
  // Reading
  // ---------------------------------------------------------------------

  function Header(env: Env, u: Upload): (h: RowLoading.Header)
    ensures RowLoading.WellFormed(h)
  {
    var columns := if u.columns != [] then u.columns else Sanitize.SanitizeColumns(env.norm, u.header);
    var types := if u.types != [] && |u.types| == |columns| then u.types else seq(|columns|, _ => TextType);
    RowLoading.Header(columns, types)
  }

  /** The newest decision about a row: `DISTINCT ON (row_number) ... ORDER BY id DESC`. */
  function LatestDecision(decisions: seq<Decision>, upload: nat, row: nat): Option<Decision> {
    if decisions == [] then None
    else
      var d := decisions[|decisions| - 1];
      if d.upload == upload && d.row == row then Some(d)
      else LatestDecision(decisions[..|decisions| - 1], upload, row)
  }

  function LatestEdit(edits: seq<Edit>, upload: nat, row: nat, column: nat): Option<string> {
    if edits == [] then None
    else
      var e := edits[|edits| - 1];
      if e.upload == upload && e.row == row && e.column == column then Some(e.after)
      else LatestEdit(edits[..|edits| - 1], upload, row, column)
  }

  function Verdict(decisions: seq<Decision>, upload: nat, row: nat): string {
    var d := LatestDecision(decisions, upload, row);
    if d.Some? then d.value.verdict else "include"
  }

  function Current(edits: seq<Edit>, upload: nat, row: nat, original: Cells): (r: Cells)
    ensures |r| == |original|
  {
    seq(|original|, c requires 0 <= c < |original| =>
          var e := LatestEdit(edits, upload, row, c); if e.Some? then e.value else original[c])
  }

  function CellProblem(ops: TextOps, column: string, value: string, t: ColType): seq<Problem> {
    var r := CastValue(ops, value, t);
    if r.Bad? then [Problem(column, value, r.reason)] else []
  }

  /** The problems of the cells from column `from` on. */
  function CellProblems(ops: TextOps, cells: Cells, h: RowLoading.Header, from: nat): seq<Problem>
    requires RowLoading.WellFormed(h) && from <= |h.columns| == |cells|
    decreases |cells| - from
  {
    if from == |cells| then []
    else CellProblem(ops, h.columns[from], cells[from], h.types[from]) + CellProblems(ops, cells, h, from + 1)
  }

  function Validate(ops: TextOps, cells: Cells, raw: Cells, h: RowLoading.Header): seq<Problem>
    requires RowLoading.WellFormed(h) && |cells| == |h.columns|
  {
    var extra := ExtraCells(ops, raw, |h.columns|);
    (if extra != [] then
       [Problem(RowLoading.BEYOND_HEADER, extra[0], RowLoading.RaggedReason(raw, |h.columns|))]
     else [])
    + CellProblems(ops, cells, h, 0)
  }

  predicate HasRow(env: Env, upload: nat, row: nat) {
    upload in env.uploads && 1 <= row <= |env.uploads[upload].rows|
  }

  function Original(env: Env, upload: nat, row: nat): Cells
    requires HasRow(env, upload, row)
  {
    var u := env.uploads[upload];
    RowLoading.Padded(u.rows[row - 1], |Header(env, u).columns|)
  }

  function EditedColumns(edits: seq<Edit>, upload: nat, row: nat): set<nat> {
    set e | e in edits && e.upload == upload && e.row == row :: e.column
  }

  function View(env: Env, log: Log, upload: nat, row: nat): RowView
    requires HasRow(env, upload, row)
  {
    var u := env.uploads[upload];
    var original := Original(env, upload, row);
    var current := Current(log.edits, upload, row, original);
    var d := LatestDecision(log.decisions, upload, row);
    RowView(row, original, current, EditedColumns(log.edits, upload, row),
            Verdict(log.decisions, upload, row), if d.Some? then Some(d.value.reason) else None,
            Validate(env.ops, current, u.rows[row - 1], Header(env, u)))
  }

  // ---------------------------------------------------------------------
  // Changing
  // ---------------------------------------------------------------------

  /** A column by its 0-based index in digits, or by its name. */
  function ColumnIndex(names: seq<string>, column: string): (r: Option<nat>)
    ensures r.Some? ==> r.value < |names|
  {
    if CsvText.Digits(column) then (if NatOf(column) < |names| then Some(NatOf(column)) else None)
    else FirstIndex(names, column, 0)
  }

  function FirstIndex(names: seq<string>, name: string, from: nat): (r: Option<nat>)
    requires from <= |names|
    ensures r.Some? ==> from <= r.value < |names| && names[r.value] == name
    ensures r.Some? ==> forall i :: from <= i < r.value ==> names[i] != name
    ensures r.None? ==> forall i :: from <= i < |names| ==> names[i] != name
    decreases |names| - from
  {
    if from == |names| then None else if names[from] == name then Some(from) else FirstIndex(names, name, from + 1)
  }

  datatype Request =
    | Decide(upload: nat, row: nat, verdict: string, reason: string, actor: string)
    | SetCell(upload: nat, row: nat, column: string, value: string, reason: string, actor: string)

  /** The HTTP status a request is refused with, if it is. */
  function Refusal(env: Env, log: Log, q: Request): Option<nat> {
    if !HasRow(env, q.upload, q.row) then Some(404)
    else
      match q
      case Decide(_, _, verdict, reason, _) =>
        if verdict != "include" && verdict != "exclude" then Some(422)
        else if env.ops.strip(reason) == "" then Some(422)
        else None
      case SetCell(u, n, column, value, reason, _) =>
        var c := ColumnIndex(Header(env, env.uploads[u]).columns, column);
        if c.None? then Some(404)
        else if env.ops.strip(reason) == "" then Some(422)
        else if value == Current(log.edits, u, n, Original(env, u, n))[c.value] then Some(422)
        else None
  }

  /** A refused request changes nothing. */
  function Step(env: Env, log: Log, q: Request): Log {
    if Refusal(env, log, q).Some? then log
    else
      var u := env.uploads[q.upload];
      var reason := env.ops.strip(q.reason);
      match q
      case Decide(_, n, verdict, _, actor) =>
        log.(decisions := log.decisions + [Decision(q.upload, n, verdict, reason, actor)],
             audit := log.audit + [RowDecision(u.fileName, q.upload, n,
               Verdict(log.decisions, q.upload, n), verdict, reason, actor)])
      case SetCell(_, n, column, value, _, actor) =>
        var names := Header(env, u).columns;
        var c := ColumnIndex(names, column).value;
        var before := Current(log.edits, q.upload, n, Original(env, q.upload, n))[c];
        log.(edits := log.edits + [Edit(q.upload, n, c, before, value, reason, actor)],
             audit := log.audit + [CellEdit(u.fileName, q.upload, n, names[c], before, value, reason, actor)])
  }

  function Run(env: Env, requests: seq<Request>): Log {
    if requests == [] then Log([], [], [])
    else Step(env, Run(env, requests[..|requests| - 1]), requests[|requests| - 1])
  }

  // ---------------------------------------------------------------------
  // What every run keeps
  // ---------------------------------------------------------------------

  /** An edit's old value is the value its cell had: the newest earlier edit's, or the
      original's; and it differs from the new one. */
  predicate Linked(env: Env, edits: seq<Edit>, i: nat)
    requires i < |edits|
  {
    var e := edits[i];
    && HasRow(env, e.upload, e.row) && e.column < |Original(env, e.upload, e.row)|
    && e.before == Current(edits[..i], e.upload, e.row, Original(env, e.upload, e.row))[e.column]
    && e.before != e.after
  }

  predicate AllLinked(env: Env, edits: seq<Edit>) {
    forall i :: 0 <= i < |edits| ==> Linked(env, edits, i)
  }

  predicate DecisionsOnRows(env: Env, decisions: seq<Decision>) {
    forall i :: 0 <= i < |decisions| ==>
      HasRow(env, decisions[i].upload, decisions[i].row) && decisions[i].verdict in {"include", "exclude"}
  }

  function EditAudit(env: Env, e: Edit): AuditEntry
    requires e.upload in env.uploads && e.column < |Header(env, env.uploads[e.upload]).columns|
  {
    var u := env.uploads[e.upload];
    CellEdit(u.fileName, e.upload, e.row, Header(env, u).columns[e.column], e.before, e.after, e.reason, e.actor)
  }

  function DecisionAudit(env: Env, decisions: seq<Decision>, i: nat): AuditEntry
    requires i < |decisions| && decisions[i].upload in env.uploads
  {
    var d := decisions[i];
    RowDecision(env.uploads[d.upload].fileName, d.upload, d.row,
                Verdict(decisions[..i], d.upload, d.row), d.verdict, d.reason, d.actor)
  }

  function AuditedEdits(audit: seq<AuditEntry>): seq<AuditEntry> {
    Filter((a: AuditEntry) => a.CellEdit?, audit)
  }

  function AuditedDecisions(audit: seq<AuditEntry>): seq<AuditEntry> {
    Filter((a: AuditEntry) => a.RowDecision?, audit)
  }

  ghost predicate EditsAudited(env: Env, audited: seq<AuditEntry>, edits: seq<Edit>)
    requires AllLinked(env, edits)
  {
    && |audited| == |edits|
    && forall i :: 0 <= i < |edits| ==> Linked(env, edits, i) && audited[i] == EditAudit(env, edits[i])
  }

  ghost predicate DecisionsAudited(env: Env, audited: seq<AuditEntry>, decisions: seq<Decision>)
    requires DecisionsOnRows(env, decisions)
  {
    && |audited| == |decisions|
    && forall i :: 0 <= i < |decisions| ==> audited[i] == DecisionAudit(env, decisions, i)
  }

  /** The audit log holds, in order, one entry for each edit and one for each decision,
      with the value or verdict before it and after it. */
  ghost predicate AuditTells(env: Env, log: Log)
    requires AllLinked(env, log.edits) && DecisionsOnRows(env, log.decisions)
  {
    && |log.audit| == |log.edits| + |log.decisions|
    && EditsAudited(env, AuditedEdits(log.audit), log.edits)
    && DecisionsAudited(env, AuditedDecisions(log.audit), log.decisions)
  }

  lemma LinkedPrefix(env: Env, edits: seq<Edit>, e: Edit)
    requires AllLinked(env, edits) && HasRow(env, e.upload, e.row)
    requires var original := Original(env, e.upload, e.row);
             e.column < |original|
             && e.before == Current(edits, e.upload, e.row, original)[e.column] && e.before != e.after
    ensures AllLinked(env, edits + [e])
  {
    forall i | 0 <= i < |edits| + 1 ensures Linked(env, edits + [e], i) {
      assert (edits + [e])[..i] == edits[..i];
      if i < |edits| {
        assert Linked(env, edits, i);
      } else {
        assert edits[..i] == edits;
      }
    }
  }

  lemma AuditNext(audit: seq<AuditEntry>, a: AuditEntry)
    ensures AuditedEdits(audit + [a]) == if a.CellEdit? then AuditedEdits(audit) + [a] else AuditedEdits(audit)
    ensures AuditedDecisions(audit + [a])
         == if a.RowDecision? then AuditedDecisions(audit) + [a] else AuditedDecisions(audit)
  {
    FilterSnoc((x: AuditEntry) => x.CellEdit?, audit, a);
    FilterSnoc((x: AuditEntry) => x.RowDecision?, audit, a);
  }

  ghost predicate Inv(env: Env, log: Log) {
    AllLinked(env, log.edits) && DecisionsOnRows(env, log.decisions) && AuditTells(env, log)
  }

  lemma DecisionNext(env: Env, audited: seq<AuditEntry>, decisions: seq<Decision>, d: Decision)
    requires DecisionsOnRows(env, decisions) && DecisionsAudited(env, audited, decisions)
    requires HasRow(env, d.upload, d.row) && d.verdict in {"include", "exclude"}
    ensures DecisionsOnRows(env, decisions + [d])
    ensures DecisionsAudited(env, audited + [DecisionAudit(env, decisions + [d], |decisions|)], decisions + [d])
    ensures (decisions + [d])[..|decisions|] == decisions
  {
    hide Verdict;
    var more := decisions + [d];
    forall i | 0 <= i < |decisions| ensures DecisionAudit(env, more, i) == DecisionAudit(env, decisions, i) {
      assert more[..i] == decisions[..i];
    }
  }

  lemma DecideKeepsInv(env: Env, log: Log, q: Request)
    requires Inv(env, log) && q.Decide? && Refusal(env, log, q).None?
    ensures Inv(env, Step(env, log, q))
  {
    hide Verdict, AllLinked, EditsAudited, AuditedEdits, AuditedDecisions, DecisionsAudited, DecisionsOnRows;
    var d := Decision(q.upload, q.row, q.verdict, env.ops.strip(q.reason), q.actor);
    DecisionNext(env, AuditedDecisions(log.audit), log.decisions, d);
    AuditNext(log.audit, DecisionAudit(env, log.decisions + [d], |log.decisions|));
  }

  lemma EditNext(env: Env, audited: seq<AuditEntry>, edits: seq<Edit>, e: Edit)
    requires AllLinked(env, edits) && EditsAudited(env, audited, edits)
    requires AllLinked(env, edits + [e])
    requires e.upload in env.uploads && e.column < |Header(env, env.uploads[e.upload]).columns|
    ensures EditsAudited(env, audited + [EditAudit(env, e)], edits + [e])
  {
    hide Current, Header;
    forall i | 0 <= i < |edits| + 1 ensures Linked(env, edits + [e], i) {
    }
  }

  /** The edit an accepted request appends, with the cell's value as it is now. */
  function NewEdit(env: Env, log: Log, q: Request): Edit
    requires q.SetCell? && Refusal(env, log, q).None?
  {
    var c := ColumnIndex(Header(env, env.uploads[q.upload]).columns, q.column).value;
    Edit(q.upload, q.row, c, Current(log.edits, q.upload, q.row, Original(env, q.upload, q.row))[c], q.value,
         env.ops.strip(q.reason), q.actor)
  }

  lemma SetCellAppends(env: Env, log: Log, q: Request)
    requires q.SetCell? && Refusal(env, log, q).None?
    ensures var e := NewEdit(env, log, q);
      && HasRow(env, e.upload, e.row) && e.column < |Header(env, env.uploads[e.upload]).columns|
      && e.before == Current(log.edits, e.upload, e.row, Original(env, e.upload, e.row))[e.column]
      && e.before != e.after
      && Step(env, log, q) == log.(edits := log.edits + [e], audit := log.audit + [EditAudit(env, e)])
  {
    hide Current, ColumnIndex, Header;
  }

  lemma SetCellKeepsInv(env: Env, log: Log, q: Request)
    requires Inv(env, log) && q.SetCell? && Refusal(env, log, q).None?
    ensures Inv(env, Step(env, log, q))
  {
    var e := NewEdit(env, log, q);
    SetCellAppends(env, log, q);
    hide AuditedEdits, AuditedDecisions, DecisionsAudited, EditsAudited, Current, Header, Step, Refusal, NewEdit;
    LinkedPrefix(env, log.edits, e);
    EditNext(env, AuditedEdits(log.audit), log.edits, e);
    AuditNext(log.audit, EditAudit(env, e));
  }

  /** Over every run: each cell's edits are linked, decisions are about rows that exist, and
      the audit log tells exactly what was done. */
  lemma {:induction false} EveryRunIsLinkedAndAudited(env: Env, requests: seq<Request>)
    ensures Inv(env, Run(env, requests))
  {
    if requests != [] {
      var front, q := requests[..|requests| - 1], requests[|requests| - 1];
      EveryRunIsLinkedAndAudited(env, front);
      var log := Run(env, front);
      if Refusal(env, log, q).None? {
        if q.Decide? {
          DecideKeepsInv(env, log, q);
        } else {
          SetCellKeepsInv(env, log, q);
        }
      }
    }
  }

  // ---------------------------------------------------------------------
  // Replaying and undoing a row's edits
  // ---------------------------------------------------------------------

  /** Apply the row's edits to its original, oldest first. */
  function Replay(edits: seq<Edit>, upload: nat, row: nat, original: Cells): (r: Cells)
    ensures |r| == |original|
  {
    if edits == [] then original
    else
      var cells, e := Replay(edits[..|edits| - 1], upload, row, original), edits[|edits| - 1];
      if e.upload == upload && e.row == row && e.column < |cells| then cells[e.column := e.after] else cells
  }

  /** Put the row's old values back, newest edit first. */
  function Undo(edits: seq<Edit>, upload: nat, row: nat, cells: Cells): Cells {
    if edits == [] then cells
    else
      var e := edits[|edits| - 1];
      Undo(edits[..|edits| - 1], upload, row,
           if e.upload == upload && e.row == row && e.column < |cells| then cells[e.column := e.before] else cells)
  }

  /** Looking up the newest value of each cell gives what replaying all edits gives. */
  lemma {:induction false} LatestWinsIsReplay(edits: seq<Edit>, upload: nat, row: nat, original: Cells)
    ensures Current(edits, upload, row, original) == Replay(edits, upload, row, original)
  {
    if edits != [] {
      LatestWinsIsReplay(edits[..|edits| - 1], upload, row, original);
    }
  }

  /** Undoing every edit of a reviewed row gives back the row as it was uploaded. */
  lemma {:induction false} UndoRestoresOriginal(env: Env, edits: seq<Edit>, upload: nat, row: nat)
    requires AllLinked(env, edits) && HasRow(env, upload, row)
    ensures var original := Original(env, upload, row);
            Undo(edits, upload, row, Current(edits, upload, row, original)) == original
  {
    var original := Original(env, upload, row);
    if edits == [] {
      assert Current(edits, upload, row, original) == original;
    } else {
      var n := |edits| - 1;
      var front, e := edits[..n], edits[n];
      forall i | 0 <= i < n ensures Linked(env, front, i) {
        assert Linked(env, edits, i) && front[..i] == edits[..i];
      }
      UndoRestoresOriginal(env, front, upload, row);
      assert Linked(env, edits, n);
      var now, before := Current(edits, upload, row, original), Current(front, upload, row, original);
      if e.upload == upload && e.row == row {
        assert now[e.column := e.before] == before;
      } else {
        assert now == before;
      }
    }
  }

  lemma OwnEdit(edits: seq<Edit>, e: Edit, original: Cells)
    requires e.column < |original|
    ensures Current(edits + [e], e.upload, e.row, original)
         == Current(edits, e.upload, e.row, original)[e.column := e.after]
  {
    assert (edits + [e])[..|edits|] == edits;
  }

  lemma OtherEdit(edits: seq<Edit>, e: Edit, upload: nat, row: nat, original: Cells)
    requires !(e.upload == upload && e.row == row)
    ensures EditedColumns(edits + [e], upload, row) == EditedColumns(edits, upload, row)
    ensures Current(edits + [e], upload, row, original) == Current(edits, upload, row, original)
  {
    assert (edits + [e])[..|edits|] == edits;
  }

  lemma NewestDecision(decisions: seq<Decision>, d: Decision, upload: nat, row: nat)
    ensures LatestDecision(decisions + [d], upload, row)
         == if d.upload == upload && d.row == row then Some(d) else LatestDecision(decisions, upload, row)
  {
    assert (decisions + [d])[..|decisions|] == decisions;
  }

  /** An accepted decision shows in its row: the verdict and the reason given; its cells
      stay as they were. */
  lemma DecisionShows(env: Env, log: Log, q: Request)
    requires q.Decide? && Refusal(env, log, q).None?
    ensures View(env, Step(env, log, q), q.upload, q.row)
         == View(env, log, q.upload, q.row).(verdict := q.verdict, reason := Some(env.ops.strip(q.reason)))
  {
    hide Validate, Header, Original, LatestDecision, Current;
    var d := Decision(q.upload, q.row, q.verdict, env.ops.strip(q.reason), q.actor);
    NewestDecision(log.decisions, d, q.upload, q.row);
  }

  /** An accepted edit shows in its row: the cell has the new value and is marked, and every
      other cell, the original and the verdict stay as they were. */
  lemma EditShows(env: Env, log: Log, q: Request)
    requires q.SetCell? && Refusal(env, log, q).None?
    ensures var before, after := View(env, log, q.upload, q.row), View(env, Step(env, log, q), q.upload, q.row);
            var c := NewEdit(env, log, q).column;
            && after.current == before.current[c := q.value] && before.current[c] != q.value
            && after.edited == before.edited + {c}
            && after.original == before.original && after.verdict == before.verdict && after.reason == before.reason
  {
    var e := NewEdit(env, log, q);
    SetCellAppends(env, log, q);
    OwnEdit(log.edits, e, Original(env, q.upload, q.row));
    hide Validate, Header, ColumnIndex, Step, Refusal, LatestDecision, Current;
    assert EditedColumns(log.edits + [e], q.upload, q.row) == EditedColumns(log.edits, q.upload, q.row) + {e.column};
  }

  /** A request leaves all other rows as they were. */
  lemma OtherRowsStay(env: Env, log: Log, q: Request, upload: nat, row: nat)
    requires HasRow(env, upload, row) && !(upload == q.upload && row == q.row)
    ensures View(env, Step(env, log, q), upload, row) == View(env, log, upload, row)
  {
    if Refusal(env, log, q).None? {
      if q.SetCell? {
        SetCellAppends(env, log, q);
        OtherEdit(log.edits, NewEdit(env, log, q), upload, row, Original(env, upload, row));
      } else {
        var d := Decision(q.upload, q.row, q.verdict, env.ops.strip(q.reason), q.actor);
        NewestDecision(log.decisions, d, upload, row);
      }
    }
    hide Validate, Header, ColumnIndex, Refusal, LatestDecision, Current, Original;
  }

  // ---------------------------------------------------------------------
  // What a view says of its row
  // ---------------------------------------------------------------------

  /** These problems are those of the columns `cols`, with the cells as they are now. */
  ghost predicate ProblemsOf(h: RowLoading.Header, current: Cells, cols: seq<nat>, problems: seq<Problem>)
    requires RowLoading.WellFormed(h) && |current| == |h.columns|
  {
    && |problems| == |cols|
    && forall k :: 0 <= k < |cols| ==> cols[k] < |current| && problems[k] == ProblemOf(h, current, cols[k])
  }

  function ProblemOf(h: RowLoading.Header, current: Cells, c: nat): Problem
    requires RowLoading.WellFormed(h) && c < |current| == |h.columns|
  {
    Problem(h.columns[c], current[c], Complaint(current[c], h.types[c]))
  }

  /** From this column on, the problems are those of exactly the columns whose cell means
      nothing in its type, in order. */
  ghost predicate Lists(
      ops: TextOps, h: RowLoading.Header, cells: Cells, from: nat, cols: seq<nat>, problems: seq<Problem>)
    requires RowLoading.WellFormed(h) && |cells| == |h.columns|
  {
    && ProblemsOf(h, cells, cols, problems) && RowLoading.Increasing(cols)
    && (forall k :: 0 <= k < |cols| ==> from <= cols[k])
    && (forall c :: from <= c < |cells| ==> (c in cols <==> !HasMeaning(ops, cells[c], h.types[c])))
  }

  lemma ListsNext(
      ops: TextOps, h: RowLoading.Header, cells: Cells, from: nat, cols: seq<nat>, problems: seq<Problem>)
    returns (cols': seq<nat>)
    requires RowLoading.WellFormed(h) && from < |cells| == |h.columns| && Lists(ops, h, cells, from + 1, cols, problems)
    ensures Lists(ops, h, cells, from, cols',
                  CellProblem(ops, h.columns[from], cells[from], h.types[from]) + problems)
  {
    CastRefuses(ops, cells[from], h.types[from]);
    if HasMeaning(ops, cells[from], h.types[from]) {
      cols' := cols;
      assert [] + problems == problems;
      hide HasMeaning, ProblemsOf;
    } else {
      cols' := [from] + cols;
      assert CellProblem(ops, h.columns[from], cells[from], h.types[from]) == [ProblemOf(h, cells, from)];
      ProblemsCons(h, cells, from, cols, problems);
      ColumnsCons(from, cols);
      hide HasMeaning, ProblemsOf, RowLoading.Increasing, CellProblem;
    }
  }

  lemma ProblemsCons(h: RowLoading.Header, cells: Cells, c: nat, cols: seq<nat>, problems: seq<Problem>)
    requires RowLoading.WellFormed(h) && c < |cells| == |h.columns| && ProblemsOf(h, cells, cols, problems)
    ensures ProblemsOf(h, cells, [c] + cols, [ProblemOf(h, cells, c)] + problems)
  {
    hide ProblemOf;
  }

  lemma ColumnsCons(c: nat, cols: seq<nat>)
    requires RowLoading.Increasing(cols) && forall k :: 0 <= k < |cols| ==> c + 1 <= cols[k]
    ensures RowLoading.Increasing([c] + cols) && forall k :: 0 <= k < |cols| + 1 ==> c <= ([c] + cols)[k]
    ensures forall i :: i in [c] + cols <==> i == c || i in cols
  {
  }

  lemma {:induction false} CellProblemsTell(ops: TextOps, cells: Cells, h: RowLoading.Header, from: nat)
    returns (cols: seq<nat>)
    requires RowLoading.WellFormed(h) && from <= |h.columns| == |cells|
    ensures Lists(ops, h, cells, from, cols, CellProblems(ops, cells, h, from))
    decreases |cells| - from
  {
    hide Lists, CellProblem, CellProblems;
    CellProblemsNext(ops, cells, h, from);
    if from == |cells| {
      cols := [];
      NothingListed(ops, h, cells);
    } else {
      cols := CellProblemsTell(ops, cells, h, from + 1);
      cols := ListsNext(ops, h, cells, from, cols, CellProblems(ops, cells, h, from + 1));
    }
  }

  lemma CellProblemsNext(ops: TextOps, cells: Cells, h: RowLoading.Header, from: nat)
    requires RowLoading.WellFormed(h) && from <= |h.columns| == |cells|
    ensures CellProblems(ops, cells, h, from)
         == if from == |cells| then []
            else CellProblem(ops, h.columns[from], cells[from], h.types[from]) + CellProblems(ops, cells, h, from + 1)
  {
    hide CellProblem;
  }

  lemma NothingListed(ops: TextOps, h: RowLoading.Header, cells: Cells)
    requires RowLoading.WellFormed(h) && |cells| == |h.columns|
    ensures Lists(ops, h, cells, |cells|, [], [])
  {
  }

  /** The view of a row: its original cells, filled up or cut to the header; and its problems,
      first that it has cells beyond the header, then one for each column whose cell, as it is
      now, means nothing in the column's type. */
  ghost predicate Tells(env: Env, u: Upload, row: nat, view: RowView, beyond: nat, cols: seq<nat>)
    requires 1 <= row <= |u.rows|
  {
    var h, raw := Header(env, u), u.rows[row - 1];
    var first := if NothingBeyond(env.ops, raw, |h.columns|) then 0 else 1;
    && view.rowNumber == row && |view.original| == |view.current| == |h.columns|
    && (forall c :: 0 <= c < |h.columns| ==> view.original[c] == if c < |raw| then raw[c] else "")
    && first <= |view.errors| && Lists(env.ops, h, view.current, 0, cols, view.errors[first..])
    && (first == 1 ==>
          && |h.columns| <= beyond < |raw| && env.ops.strip(raw[beyond]) != ""
          && (forall c :: |h.columns| <= c < beyond ==> env.ops.strip(raw[c]) == "")
          && view.errors[0]
             == Problem("(beyond header)", raw[beyond], RowLoading.RaggedReason(raw, |h.columns|)))
  }

  /** True of every row, edited or not, after any history. */
  lemma ViewTells(env: Env, log: Log, upload: nat, row: nat) returns (beyond: nat, cols: seq<nat>)
    requires HasRow(env, upload, row)
    ensures Tells(env, env.uploads[upload], row, View(env, log, upload, row), beyond, cols)
  {
    hide Header, Current, CellProblems, Lists, ExtraCells, RowLoading.RaggedReason, LatestDecision;
    var u := env.uploads[upload];
    var h, raw, view := Header(env, u), u.rows[row - 1], View(env, log, upload, row);
    beyond := ExtraTells(env.ops, raw, |h.columns|);
    cols := CellProblemsTell(env.ops, view.current, h, 0);
    var problems := CellProblems(env.ops, view.current, h, 0);
    assert [] + problems == problems;
    assert view.errors[|view.errors| - |problems|..] == problems;
  }

  lemma TellsCells(env: Env, u: Upload, row: nat, view: RowView, beyond: nat, cols: seq<nat>)
    requires 1 <= row <= |u.rows| && Tells(env, u, row, view, beyond, cols)
    ensures var h := Header(env, u);
      && |view.current| == |h.types|
      && forall c :: 0 <= c < |h.types| ==> (c in cols <==> !HasMeaning(env.ops, view.current[c], h.types[c]))
  {
    hide Header, HasMeaning, ProblemsOf;
  }

  /** A row that nobody has decided on or edited is included, without a reason, and shows its
      original cells, none of them edited. */
  lemma UntouchedRow(env: Env, log: Log, upload: nat, row: nat)
    requires HasRow(env, upload, row) && Unedited(log, upload, row)
    requires forall d :: d in log.decisions ==> !(d.upload == upload && d.row == row)
    ensures var view := View(env, log, upload, row);
      && view.verdict == "include" && view.reason == None && view.current == view.original && view.edited == {}
  {
    hide Header, Validate;
    LatestDecisionIsOne(log.decisions, upload, row);
    NoEditsNoChange(log.edits, upload, row, Original(env, upload, row));
  }

  /** After an accepted edit its cell is a problem exactly if the new value means nothing in
      the column's type, and every other cell is one exactly if it was one before. */
  lemma EditedCellTells(env: Env, log: Log, q: Request) returns (before: seq<nat>, after: seq<nat>)
    requires q.SetCell? && Refusal(env, log, q).None?
    ensures var u, c := env.uploads[q.upload], NewEdit(env, log, q).column;
      && (exists beyond :: Tells(env, u, q.row, View(env, log, q.upload, q.row), beyond, before))
      && (exists beyond :: Tells(env, u, q.row, View(env, Step(env, log, q), q.upload, q.row), beyond, after))
      && c < |Header(env, u).types|
      && (c in after <==> !HasMeaning(env.ops, q.value, Header(env, u).types[c]))
      && forall i :: 0 <= i < |Header(env, u).types| && i != c ==> (i in after <==> i in before)
  {
    EditShows(env, log, q);
    SetCellAppends(env, log, q);
    hide View, Step, Refusal, NewEdit, HasMeaning, Header, Tells;
    var u := env.uploads[q.upload];
    var was, now := View(env, log, q.upload, q.row), View(env, Step(env, log, q), q.upload, q.row);
    var beyond, beyond';
    beyond, before := ViewTells(env, log, q.upload, q.row);
    TellsCells(env, u, q.row, was, beyond, before);
    beyond', after := ViewTells(env, Step(env, log, q), q.upload, q.row);
    TellsCells(env, u, q.row, now, beyond', after);
  }

  // ---------------------------------------------------------------------
  // Pages and their totals
  // ---------------------------------------------------------------------

  const MAX_PAGE := 500

  function AllViews(env: Env, log: Log, upload: nat): (r: seq<RowView>)
    requires upload in env.uploads
    ensures |r| == |env.uploads[upload].rows|
  {
    seq(|env.uploads[upload].rows|, i requires 0 <= i < |env.uploads[upload].rows| => View(env, log, upload, i + 1))
  }

  function PageSize(limit: int): (n: nat)
    ensures 1 <= n <= MAX_PAGE
  {
    if limit < 1 then 1 else if limit > MAX_PAGE then MAX_PAGE else limit
  }

  /** `OFFSET ... LIMIT ...` */
  function Slice<T>(rows: seq<T>, offset: nat, limit: nat): seq<T> {
    rows[Min(offset, |rows|)..Min(offset + limit, |rows|)]
  }

  function PageRows(env: Env, log: Log, upload: nat, offset: int, limit: int): seq<RowView>
    requires upload in env.uploads
  {
    Slice(AllViews(env, log, upload), Max(0, offset), PageSize(limit))
  }

  /** Every page from this offset on, read one after the other. */
  function ReadPages(env: Env, log: Log, upload: nat, offset: nat, limit: int): seq<RowView>
    requires upload in env.uploads
    decreases |env.uploads[upload].rows| - offset
  {
    if offset >= |env.uploads[upload].rows| then []
    else PageRows(env, log, upload, offset, limit) + ReadPages(env, log, upload, offset + PageSize(limit), limit)
  }

  lemma SliceThenRest<T>(rows: seq<T>, offset: nat, limit: nat)
    requires offset <= |rows|
    ensures Slice(rows, offset, limit) + rows[Min(offset + limit, |rows|)..] == rows[offset..]
  {
  }

  /** Reading all pages gives every row once, in order, whatever the page size asked for. */
  lemma {:induction false} PagesCoverAllRows(env: Env, log: Log, upload: nat, offset: nat, limit: int)
    requires upload in env.uploads
    ensures ReadPages(env, log, upload, offset, limit)
         == AllViews(env, log, upload)[Min(offset, |env.uploads[upload].rows|)..]
    decreases |env.uploads[upload].rows| - offset
  {
    if offset < |env.uploads[upload].rows| {
      PagesCoverAllRows(env, log, upload, offset + PageSize(limit), limit);
      SliceThenRest(AllViews(env, log, upload), offset, PageSize(limit));
    }
  }

  /** A page has at least one and at most 500 rows as asked, as far as there are any. */
  lemma PageHolds(env: Env, log: Log, upload: nat, offset: int, limit: int)
    requires upload in env.uploads
    ensures var first, total := if offset < 0 then 0 else offset, |env.uploads[upload].rows|;
            var size := if limit < 1 then 1 else if limit > 500 then 500 else limit;
            |PageRows(env, log, upload, offset, limit)|
            == if first >= total then 0 else if first + size > total then total - first else size
  {
    hide View, Slice;
    SliceIs(AllViews(env, log, upload), Max(0, offset), PageSize(limit));
  }

  /** Its rows are those from the offset on, in order. */
  lemma PageRowIs(env: Env, log: Log, upload: nat, offset: int, limit: int, k: nat)
    requires upload in env.uploads && k < |PageRows(env, log, upload, offset, limit)|
    ensures var row := (if offset < 0 then 0 else offset) + k + 1;
            HasRow(env, upload, row) && PageRows(env, log, upload, offset, limit)[k] == View(env, log, upload, row)
  {
    hide View, Slice;
    SliceIs(AllViews(env, log, upload), Max(0, offset), PageSize(limit));
  }

  lemma SliceIs<T>(rows: seq<T>, offset: nat, limit: nat)
    ensures var page := Slice(rows, offset, limit);
      && |page| == (if offset >= |rows| then 0 else if offset + limit > |rows| then |rows| - offset else limit)
      && forall k :: 0 <= k < |page| ==> offset + k < |rows| && page[k] == rows[offset + k]
  {
  }

  /** `excludedRows`: of the rows with a decision, those whose newest one says exclude. */
  function ExcludedRows(log: Log, upload: nat): set<nat> {
    set d | d in log.decisions && d.upload == upload
            && Verdict(log.decisions, upload, d.row) == "exclude" :: d.row
  }

  /** `editedRows`: `count(DISTINCT row_number)`. */
  function EditedRows(log: Log, upload: nat): set<nat> {
    set e | e in log.edits && e.upload == upload :: e.row
  }

  function CountViews(views: seq<RowView>, test: RowView -> bool): nat {
    |Filter(test, views)|
  }

  lemma {:induction false} LatestDecisionIsOne(decisions: seq<Decision>, upload: nat, row: nat)
    ensures var d := LatestDecision(decisions, upload, row);
            if d.Some? then d.value in decisions && d.value.upload == upload && d.value.row == row
            else forall x :: x in decisions ==> !(x.upload == upload && x.row == row)
  {
    if decisions != [] {
      LatestDecisionIsOne(decisions[..|decisions| - 1], upload, row);
      assert decisions == decisions[..|decisions| - 1] + [decisions[|decisions| - 1]];
    }
  }

  predicate PassesAt(views: seq<RowView>, test: RowView -> bool, n: nat)
    requires 1 <= n <= |views|
  {
    test(views[n - 1])
  }

  /** The row numbers whose view passes the test. */
  ghost function Passing(views: seq<RowView>, test: RowView -> bool): set<nat> {
    set n | 1 <= n <= |views| && PassesAt(views, test, n)
  }

  lemma {:induction false} CountIsCardinality(views: seq<RowView>, test: RowView -> bool)
    ensures CountViews(views, test) == |Passing(views, test)|
  {
    if views == [] {
      assert Passing(views, test) == {};
    } else {
      var n := |views|;
      CountIsCardinality(views[..n - 1], test);
      var before := Passing(views[..n - 1], test);
      forall k | 1 <= k < n ensures PassesAt(views[..n - 1], test, k) == PassesAt(views, test, k) {
      }
      assert Passing(views, test) == if PassesAt(views, test, n) then before + {n} else before;
    }
  }

  predicate IsExcluded(v: RowView) {
    v.verdict == "exclude"
  }

  predicate IsEdited(v: RowView) {
    v.edited != {}
  }

  /** The totals on every page are the counts one gets by reading all pages. */
  lemma TotalsMatchPages(env: Env, requests: seq<Request>, upload: nat, limit: int)
    requires upload in env.uploads
    ensures var log := Run(env, requests);
            var views := ReadPages(env, log, upload, 0, limit);
            && CountViews(views, IsExcluded) == |ExcludedRows(log, upload)|
            && CountViews(views, IsEdited) == |EditedRows(log, upload)|
  {
    var log := Run(env, requests);
    var views := AllViews(env, log, upload);
    EveryRunIsLinkedAndAudited(env, requests);
    PagesCoverAllRows(env, log, upload, 0, limit);
    assert views[0..] == views;
    CountIsCardinality(views, IsExcluded);
    CountIsCardinality(views, IsEdited);
    ExcludedArePassing(env, log, upload);
    EditedArePassing(env, log, upload);
  }

  lemma ExcludedMeansVerdict(env: Env, log: Log, upload: nat, n: nat)
    requires DecisionsOnRows(env, log.decisions)
    ensures n in ExcludedRows(log, upload)
            <==> HasRow(env, upload, n) && Verdict(log.decisions, upload, n) == "exclude"
  {
    LatestDecisionIsOne(log.decisions, upload, n);
    if n in ExcludedRows(log, upload) {
      var d :| d in log.decisions && d.upload == upload && d.row == n;
      var i :| 0 <= i < |log.decisions| && log.decisions[i] == d;
    }
  }

  lemma ExcludedArePassing(env: Env, log: Log, upload: nat)
    requires upload in env.uploads && DecisionsOnRows(env, log.decisions)
    ensures ExcludedRows(log, upload) == Passing(AllViews(env, log, upload), IsExcluded)
  {
    hide ExcludedRows, Validate, Header, Verdict, LatestDecision, EditedColumns, Original, Current, DecisionsOnRows;
    var views := AllViews(env, log, upload);
    forall n: nat ensures n in ExcludedRows(log, upload) <==> n in Passing(views, IsExcluded) {
      ExcludedMeansVerdict(env, log, upload, n);
      if HasRow(env, upload, n) {
        assert views[n - 1].verdict == Verdict(log.decisions, upload, n);
        assert PassesAt(views, IsExcluded, n) == (views[n - 1].verdict == "exclude");
      }
    }
  }

  lemma EditedArePassing(env: Env, log: Log, upload: nat)
    requires upload in env.uploads && AllLinked(env, log.edits)
    ensures EditedRows(log, upload) == Passing(AllViews(env, log, upload), IsEdited)
  {
    hide Current, Original, Validate;
    var views := AllViews(env, log, upload);
    forall n: nat ensures n in EditedRows(log, upload) <==> n in Passing(views, IsEdited) {
      assert HasRow(env, upload, n) ==> PassesAt(views, IsEdited, n) == (EditedColumns(log.edits, upload, n) != {});
      if n in EditedRows(log, upload) {
        var e :| e in log.edits && e.upload == upload && e.row == n;
        var i :| 0 <= i < |log.edits| && log.edits[i] == e;
        assert Linked(env, log.edits, i);
        assert e.column in EditedColumns(log.edits, upload, n);
      }
    }
  }

  // ---------------------------------------------------------------------
  // Review and the loader
  // ---------------------------------------------------------------------

  lemma {:induction false} FirstProblemIsFirstBadCell(ops: TextOps, raw: Cells, h: RowLoading.Header, from: nat)
    requires RowLoading.WellFormed(h) && from <= |h.columns|
    ensures var cells := RowLoading.Padded(raw, |h.columns|);
            var bad := RowLoading.FirstBadCell(ops, raw, h, from);
            var problems := CellProblems(ops, cells, h, from);
            if bad == |h.columns| then problems == []
            else CellProblem(ops, h.columns[bad], RowLoading.Cell(raw, bad), h.types[bad]) <= problems
    decreases |h.columns| - from
  {
    hide CastValue;
    if from < |h.columns| && !RowLoading.CellFails(ops, raw, h, from) {
      FirstProblemIsFirstBadCell(ops, raw, h, from + 1);
      var cells := RowLoading.Padded(raw, |h.columns|);
      assert [] + CellProblems(ops, cells, h, from + 1) == CellProblems(ops, cells, h, from + 1);
    }
  }

  predicate Unedited(log: Log, upload: nat, row: nat) {
    forall e :: e in log.edits ==> !(e.upload == upload && e.row == row)
  }

  /** For a row that was not edited, review reports what the loader would report of it under
      the header that review uses: problems exactly if it would be refused, and as the first
      of them the loader's: same column, value and reason. */
  lemma UneditedRowProblems(env: Env, log: Log, upload: nat, row: nat)
    requires HasRow(env, upload, row) && Unedited(log, upload, row)
    ensures var u := env.uploads[upload];
            var failure := RowLoading.RowFailure(env.ops, u.rows[row - 1], Header(env, u), row);
            var errors := View(env, log, upload, row).errors;
            && (errors == [] <==> failure.None?)
            && (failure.Some? ==>
                  errors[0] == Problem(failure.value.column, failure.value.value, failure.value.reason))
  {
    var u := env.uploads[upload];
    var h, raw := Header(env, u), u.rows[row - 1];
    NoEditsNoChange(log.edits, upload, row, Original(env, upload, row));
    FirstProblemIsFirstBadCell(env.ops, raw, h, 0);
  }

  lemma TextNeverFails(ops: TextOps, raw: Cells, h: RowLoading.Header)
    requires RowLoading.WellFormed(h) && forall i :: 0 <= i < |h.types| ==> h.types[i] == TextType
    ensures RowLoading.FirstBadCell(ops, raw, h, 0) == |h.types|
  {
    var bad := RowLoading.FirstBadCell(ops, raw, h, 0);
  }

  /** Without stored types every value counts as text: the only problem of a row that was
      not edited is that it has cells beyond the header. */
  lemma UntypedRowProblems(env: Env, log: Log, upload: nat, row: nat)
    requires HasRow(env, upload, row) && Unedited(log, upload, row) && env.uploads[upload].types == []
    ensures var u := env.uploads[upload];
            var raw, width := u.rows[row - 1], |Header(env, u).columns|;
            var extra, errors := ExtraCells(env.ops, raw, width), View(env, log, upload, row).errors;
            if extra == [] then errors == []
            else errors != []
                 && errors[0] == Problem(RowLoading.BEYOND_HEADER, extra[0], RowLoading.RaggedReason(raw, width))
  {
    hide ExtraCells, RowLoading.RaggedReason, View;
    var u := env.uploads[upload];
    UneditedRowProblems(env, log, upload, row);
    TextNeverFails(env.ops, u.rows[row - 1], Header(env, u));
  }

  lemma {:induction false} NoEditsNoChange(edits: seq<Edit>, upload: nat, row: nat, original: Cells)
    requires forall e :: e in edits ==> !(e.upload == upload && e.row == row)
    ensures Current(edits, upload, row, original) == original
  {
    if edits != [] {
      assert edits[|edits| - 1] in edits;
      NoEditsNoChange(edits[..|edits| - 1], upload, row, original);
    }
  }

  /** Every column of a sanitised header can be named, by its name or by its index, and
      neither is ever taken for another column. */
  lemma ColumnsResolve(norm: string -> string, header: Cells, i: nat)
    requires i < |header|
    ensures var names := Sanitize.SanitizeColumns(norm, header);
            ColumnIndex(names, names[i]) == Some(i) && ColumnIndex(names, Sanitize.Decimal(i)) == Some(i)
  {
    var names := Sanitize.SanitizeColumns(norm, header);
    Sanitize.SanitizedNames(norm, header);
    Sanitize.NamesStartWithLetter(norm, header, i);
    NatOfDecimal(i);
  }

  /** A request names this column: by digits of its index, or by its name. */
  ghost predicate Refers(names: seq<string>, column: string, c: nat) {
    && c < |names|
    && if AllDigits(column) then exists zeros :: column == Zeros(zeros) + Sanitize.Decimal(c)
       else names[c] == column && column !in names[..c]
  }

  lemma ColumnIndexIs(names: seq<string>, column: string, c: nat)
    ensures ColumnIndex(names, column) == Some(c) <==> Refers(names, column, c)
  {
    DigitsAreDigits(column);
    hide Sanitize.Decimal, NatOf, AllDigits, CsvText.Digits, Zeros;
    if AllDigits(column) {
      var zeros := DigitsAreNumeral(column);
      if z :| column == Zeros(z) + Sanitize.Decimal(c) {
        NumeralIsDigits(z, c);
      }
    }
  }

  /** Which requests are accepted: the row exists, there is a reason, the verdict is one of
      the two, the column exists and the value is a new one. A missing row or column is 404,
      everything else that is wrong is 422. */
  lemma AcceptedExactly(env: Env, log: Log, q: Request)
    ensures Refusal(env, log, q).None? <==>
              && q.upload in env.uploads && 1 <= q.row <= |env.uploads[q.upload].rows|
              && env.ops.strip(q.reason) != ""
              && (q.Decide? ==> q.verdict in {"include", "exclude"})
              && (q.SetCell? ==> exists c: nat ::
                    Refers(Header(env, env.uploads[q.upload]).columns, q.column, c)
                    && q.value != View(env, log, q.upload, q.row).current[c])
    ensures Refusal(env, log, q) == Some(404) <==>
              !HasRow(env, q.upload, q.row)
              || (q.SetCell? && forall c: nat :: !Refers(Header(env, env.uploads[q.upload]).columns, q.column, c))
    ensures Refusal(env, log, q).Some? ==> Refusal(env, log, q).value in {404, 422}
  {
    hide Header, Current, ColumnIndex, Validate, LatestDecision;
    if q.SetCell? && HasRow(env, q.upload, q.row) {
      var names := Header(env, env.uploads[q.upload]).columns;
      forall c: nat ensures ColumnIndex(names, q.column) == Some(c) <==> Refers(names, q.column, c) {
        ColumnIndexIs(names, q.column, c);
      }
      hide Refers;
    }
  }

  /** An accepted request is recorded once, with what it asked for, who asked, the trimmed
      reason and what the row showed before; and so it is in the audit log. */
  lemma AcceptedIsRecorded(env: Env, log: Log, q: Request)
    requires Refusal(env, log, q).None?
    ensures var log', u, was := Step(env, log, q), env.uploads[q.upload], View(env, log, q.upload, q.row);
            var why := env.ops.strip(q.reason);
      if q.Decide? then
        && log'.decisions == log.decisions + [Decision(q.upload, q.row, q.verdict, why, q.actor)]
        && log'.edits == log.edits
        && log'.audit == log.audit
             + [RowDecision(u.fileName, q.upload, q.row, was.verdict, q.verdict, why, q.actor)]
      else
        exists c: nat :: Refers(Header(env, u).columns, q.column, c)
          && log'.edits == log.edits + [Edit(q.upload, q.row, c, was.current[c], q.value, why, q.actor)]
          && log'.decisions == log.decisions
          && log'.audit == log.audit + [CellEdit(u.fileName, q.upload, q.row, Header(env, u).columns[c],
                                                 was.current[c], q.value, why, q.actor)]
  {
    hide Header, Current, ColumnIndex, Validate, LatestDecision, Refers;
    if q.SetCell? {
      var names := Header(env, env.uploads[q.upload]).columns;
      ColumnIndexIs(names, q.column, ColumnIndex(names, q.column).value);
    }
  }

  /** Every decision and every edit of a run has a reason. */
  lemma {:induction false} EveryRunHasReasons(env: Env, requests: seq<Request>)
    ensures var log := Run(env, requests);
      && (forall d :: d in log.decisions ==> d.reason != "")
      && (forall e :: e in log.edits ==> e.reason != "")
  {
    hide Header, Current, ColumnIndex, Verdict;
    if requests != [] {
      EveryRunHasReasons(env, requests[..|requests| - 1]);
    }
  }

  // ---------------------------------------------------------------------
  // The tables as the program appends to them
  // ---------------------------------------------------------------------

  class ReviewTables {
    const env: Env
    var decisions: seq<Decision>
    var edits: seq<Edit>
    var audit: seq<AuditEntry>

    function State(): Log
      reads this
    {
      Log(decisions, edits, audit)
    }

    constructor (env: Env)
      ensures this.env == env && State() == Run(env, [])
    {
      this.env, decisions, edits, audit := env, [], [], [];
    }

    method DecideRow(upload: nat, row: nat, verdict: string, reason: string, actor: string) returns (answer: Answer)
      modifies this
      ensures var q := Decide(upload, row, verdict, reason, actor);
        && State() == Step(env, old(State()), q)
        && answer == (if Refusal(env, old(State()), q).Some? then Refused(Refusal(env, old(State()), q).value)
                      else Row(View(env, State(), upload, row)))
    {
      if !HasRow(env, upload, row) {
        return Refused(404);
      }
      if verdict != "include" && verdict != "exclude" {
        return Refused(422);
      }
      var why := env.ops.strip(reason);
      if why == "" {
        return Refused(422);
      }
      var before := View(env, State(), upload, row);
      decisions := decisions + [Decision(upload, row, verdict, why, actor)];
      audit := audit + [RowDecision(env.uploads[upload].fileName, upload, row, before.verdict, verdict, why, actor)];
      return Row(View(env, State(), upload, row));
    }

    method EditCell(upload: nat, row: nat, column: string, value: string, reason: string, actor: string)
      returns (answer: Answer)
      modifies this
      ensures var q := SetCell(upload, row, column, value, reason, actor);
        && State() == Step(env, old(State()), q)
        && answer == (if Refusal(env, old(State()), q).Some? then Refused(Refusal(env, old(State()), q).value)
                      else Row(View(env, State(), upload, row)))
    {
      if !HasRow(env, upload, row) {
        return Refused(404);
      }
      var u := env.uploads[upload];
      var names := Header(env, u).columns;
      var index := ColumnIndex(names, column);
      if index.None? {
        return Refused(404);
      }
      var why := env.ops.strip(reason);
      if why == "" {
        return Refused(422);
      }
      var before := View(env, State(), upload, row).current[index.value];
      if value == before {
        return Refused(422);
      }
      edits := edits + [Edit(upload, row, index.value, before, value, why, actor)];
      audit := audit + [CellEdit(u.fileName, upload, row, names[index.value], before, value, why, actor)];
      return Row(View(env, State(), upload, row));
    }
  }
}
