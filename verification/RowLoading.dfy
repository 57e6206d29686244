/**
 * The loader's pass over the data rows of a file: which rows fail and why,
 * which repeat an earlier row, and what is inserted.
 */
module RowLoading {
  import opened Common
  import CsvText
  import Sanitize
  import opened Cast

  datatype RowError = RowError(rowNumber: nat, column: string, value: string, reason: string)

  datatype Header = Header(columns: seq<string>, types: seq<ColType>)

  /** A header as the loader builds it: one type for each column. */
  predicate WellFormed(h: Header) {
    |h.columns| == |h.types|
  }

  datatype Stored = Stored(values: seq<Value>, rowHash: string)

  /** Trimming, the calendar, and SHA-256 in hex. */
  datatype Env = Env(ops: TextOps, sha: string -> string)

  const SEPARATOR := "\U{1F}"
  const BEYOND_HEADER := "(beyond header)"

  function Cell(raw: Cells, c: nat): string {
    if c < |raw| then raw[c] else ""
  }

  /** A row as wide as the header: short rows are filled up, long ones cut. */
  function Padded(raw: Cells, width: nat): (r: Cells)
    ensures |r| == width
  {
    seq(width, c requires 0 <= c < width => Cell(raw, c))
  }

  function RaggedReason(raw: Cells, width: nat): string {
    "Row has " + Sanitize.Decimal(|raw|) + " cells but the header has " + Sanitize.Decimal(width)
    + "; the extra value(s) would be lost, so the row was not imported."
  }

  predicate CellFails(ops: TextOps, raw: Cells, h: Header, c: nat)
    requires c < |h.types|
  {
    CastValue(ops, Cell(raw, c), h.types[c]).Bad?
  }

  function FirstBadCell(ops: TextOps, raw: Cells, h: Header, from: nat): (r: nat)
    requires from <= |h.types|
    ensures from <= r <= |h.types|
    ensures forall c :: from <= c < r ==> !CellFails(ops, raw, h, c)
    ensures r < |h.types| ==> CellFails(ops, raw, h, r)
    decreases |h.types| - from
  {
    if from == |h.types| || CellFails(ops, raw, h, from) then from
    else FirstBadCell(ops, raw, h, from + 1)
  }

  /** The one error reported for a row that is not imported. */
  function RowFailure(ops: TextOps, raw: Cells, h: Header, rowNumber: nat): Option<RowError>
    requires WellFormed(h)
  {
    var extra := ExtraCells(ops, raw, |h.columns|);
    var c := FirstBadCell(ops, raw, h, 0);
    if extra != [] then
      Some(RowError(rowNumber, BEYOND_HEADER, extra[0], RaggedReason(raw, |h.columns|)))
    else if c < |h.types| then
      Some(RowError(rowNumber, h.columns[c], Cell(raw, c), CastValue(ops, Cell(raw, c), h.types[c]).reason))
    else None
  }

  function Key(env: Env, raw: Cells, width: nat): string {
    env.sha(CsvText.Join(SEPARATOR, Padded(raw, width)))
  }

  function StoredRow(env: Env, raw: Cells, h: Header): Stored
    requires WellFormed(h)
  {
    Stored(seq(|h.columns|, c requires 0 <= c < |h.columns| =>
                 var r := CastValue(env.ops, Cell(raw, c), h.types[c]); if r.Ok? then r.value else Null),
           Key(env, raw, |h.columns|))
  }

  /** What the loader finds out about one row by itself. */
  datatype Verdict = Fails(error: RowError) | Passes(row: Stored)

  function Judge(env: Env, raw: Cells, h: Header, rowNumber: nat): Verdict
    requires WellFormed(h)
  {
    var failure := RowFailure(env.ops, raw, h, rowNumber);
    if failure.Some? then Fails(failure.value) else Passes(StoredRow(env, raw, h))
  }

  function JudgeAll(env: Env, data: seq<Cells>, h: Header): (v: seq<Verdict>)
    requires WellFormed(h)
    ensures |v| == |data|
    ensures forall i :: 0 <= i < |v| ==> v[i].Fails? ==> v[i].error.rowNumber == i + 1
  {
    seq(|data|, i requires 0 <= i < |data| => Judge(env, data[i], h, i + 1))
  }

  // ---------------------------------------------------------------------
  // The whole pass
  // ---------------------------------------------------------------------

  /** `kept` are the indices of the rows to insert, `rows` the rows themselves. */
  datatype Pass = Pass(kept: seq<nat>, rows: seq<Stored>, errors: seq<RowError>, duplicates: nat)

  const EMPTY_PASS := Pass([], [], [], 0)

  function Keys(rows: seq<Stored>): set<string> {
    set r | r in rows :: r.rowHash
  }

  function Extend(p: Pass, index: nat, v: Verdict): Pass {
    match v
    case Fails(error) => p.(errors := p.errors + [error])
    case Passes(row) =>
      if row.rowHash in Keys(p.rows) then p.(duplicates := p.duplicates + 1)
      else p.(kept := p.kept + [index], rows := p.rows + [row])
  }

  function PassOver(v: seq<Verdict>): Pass {
    if v == [] then EMPTY_PASS else Extend(PassOver(v[..|v| - 1]), |v| - 1, v[|v| - 1])
  }

  lemma PassNext(v: seq<Verdict>, n: nat)
    requires n < |v|
    ensures PassOver(v[..n + 1]) == Extend(PassOver(v[..n]), n, v[n])
  {
    assert v[..n + 1][..n] == v[..n];
  }

  /** Row `i` passes and no earlier row that passes has its key. */
  predicate FirstOfItsKind(v: seq<Verdict>, i: nat)
    requires i < |v|
  {
    v[i].Passes? && forall j :: 0 <= j < i && v[j].Passes? ==> v[j].row.rowHash != v[i].row.rowHash
  }

  predicate Increasing(s: seq<nat>) {
    forall i, j :: 0 <= i < j < |s| ==> s[i] < s[j]
  }

  /** The kept rows are first rows of a kind, in file order ... */
  ghost predicate KeepsOnlyFirsts(v: seq<Verdict>, p: Pass) {
    && |p.rows| == |p.kept| && Increasing(p.kept)
    && forall k :: 0 <= k < |p.kept| ==>
         p.kept[k] < |v| && FirstOfItsKind(v, p.kept[k]) && v[p.kept[k]].row == p.rows[k]
  }

  /** ... and every kind is kept. */
  ghost predicate KeepsEveryKind(v: seq<Verdict>, p: Pass) {
    forall i :: 0 <= i < |v| && v[i].Passes? ==> v[i].row.rowHash in Keys(p.rows)
  }

  lemma FirstsOfPrefix(v: seq<Verdict>, i: nat)
    requires i < |v| - 1
    ensures FirstOfItsKind(v[..|v| - 1], i) == FirstOfItsKind(v, i)
  {
    assert forall j :: 0 <= j <= i ==> v[..|v| - 1][j] == v[j];
  }

  lemma ExtendKeepsEveryKind(v: seq<Verdict>, p: Pass)
    requires v != [] && KeepsEveryKind(v[..|v| - 1], p)
    ensures KeepsEveryKind(v, Extend(p, |v| - 1, v[|v| - 1]))
  {
    var n := |v| - 1;
    var p' := Extend(p, n, v[n]);
    forall i | 0 <= i < |v| && v[i].Passes? ensures v[i].row.rowHash in Keys(p'.rows) {
      if i < n {
        assert v[..n][i] == v[i];
        var r :| r in p.rows && r.rowHash == v[i].row.rowHash;
        assert r in p'.rows;
      } else if v[n].row.rowHash !in Keys(p.rows) {
        assert p'.rows[|p.rows|] == v[n].row;
      }
    }
  }

  lemma ExtendKeepsOnlyFirsts(v: seq<Verdict>, p: Pass)
    requires v != [] && KeepsOnlyFirsts(v[..|v| - 1], p) && KeepsEveryKind(v[..|v| - 1], p)
    ensures KeepsOnlyFirsts(v, Extend(p, |v| - 1, v[|v| - 1]))
  {
    var n := |v| - 1;
    var p' := Extend(p, n, v[n]);
    forall k | 0 <= k < |p'.kept|
      ensures p'.kept[k] < |v| && FirstOfItsKind(v, p'.kept[k]) && v[p'.kept[k]].row == p'.rows[k]
    {
      if k < |p.kept| {
        FirstsOfPrefix(v, p.kept[k]);
      } else {
        assert forall j :: 0 <= j < n ==> v[..n][j] == v[j];
      }
    }
  }

  /** The rows kept are exactly the first rows of each kind, in file order. Every other
      row is counted once, as a failure or as a duplicate; if any row passes, one is kept. */
  lemma {:induction false} PassKeepsFirsts(v: seq<Verdict>)
    ensures KeepsOnlyFirsts(v, PassOver(v)) && KeepsEveryKind(v, PassOver(v))
    ensures var p := PassOver(v); |p.kept| + |p.errors| + p.duplicates == |v|
    ensures |PassOver(v).errors| < |v| <==> PassOver(v).kept != []
  {
    if v != [] {
      PassKeepsFirsts(v[..|v| - 1]);
      var p := PassOver(v[..|v| - 1]);
      ExtendKeepsEveryKind(v, p);
      ExtendKeepsOnlyFirsts(v, p);
      if v[|v| - 1].Passes? && v[|v| - 1].row.rowHash in Keys(p.rows) {
        assert p.rows != [];
      }
    }
  }

  /** A row is kept exactly if it is the first of its kind. */
  lemma FirstsAreKept(v: seq<Verdict>, i: nat)
    requires i < |v|
    ensures i in PassOver(v).kept <==> FirstOfItsKind(v, i)
  {
    PassKeepsFirsts(v);
    var p := PassOver(v);
    if FirstOfItsKind(v, i) {
      var k :| 0 <= k < |p.rows| && p.rows[k].rowHash == v[i].row.rowHash;
      assert FirstOfItsKind(v, p.kept[k]);
      assert p.kept[k] == i;
    }
  }

  /** No two kept rows have the same key. */
  lemma KeptKeysDiffer(v: seq<Verdict>)
    ensures var rows := PassOver(v).rows;
            forall j, k :: 0 <= j < k < |rows| ==> rows[j].rowHash != rows[k].rowHash
  {
    PassKeepsFirsts(v);
    var p := PassOver(v);
    forall j, k | 0 <= j < k < |p.rows| ensures p.rows[j].rowHash != p.rows[k].rowHash {
      assert FirstOfItsKind(v, p.kept[k]) && p.kept[j] < p.kept[k];
      assert FirstOfItsKind(v, p.kept[j]);
    }
  }

  lemma ErrorsNext(v: seq<Verdict>)
    requires v != []
    ensures var last := v[|v| - 1];
            PassOver(v).errors == PassOver(v[..|v| - 1]).errors + if last.Fails? then [last.error] else []
  {
    hide Keys;
  }

  lemma {:induction false} FailuresAreReported(v: seq<Verdict>, i: nat)
    requires i < |v| && v[i].Fails?
    ensures v[i].error in PassOver(v).errors
  {
    hide PassOver;
    ErrorsNext(v);
    if i < |v| - 1 {
      FailuresAreReported(v[..|v| - 1], i);
    }
  }

  ghost function Failing(v: seq<Verdict>): set<nat> {
    set i | 0 <= i < |v| && v[i].Fails?
  }

  /** As many errors as rows that fail. */
  lemma {:induction false} ErrorsAreCounted(v: seq<Verdict>)
    ensures |PassOver(v).errors| == |Failing(v)|
  {
    hide PassOver;
    if v == [] {
      assert PassOver(v) == EMPTY_PASS by { NothingPasses(); }
      assert Failing(v) == {};
    } else {
      var n := |v| - 1;
      ErrorsNext(v);
      ErrorsAreCounted(v[..n]);
      assert Failing(v) == Failing(v[..n]) + if v[n].Fails? then {n} else {};
    }
  }

  lemma NothingPasses()
    ensures PassOver([]) == EMPTY_PASS
  {
  }

  predicate Numbered(v: seq<Verdict>) {
    forall i :: 0 <= i < |v| && v[i].Fails? ==> v[i].error.rowNumber == i + 1
  }

  lemma {:induction false} ReportedAreFailures(v: seq<Verdict>)
    requires Numbered(v)
    ensures var errors := PassOver(v).errors;
      && (forall k :: 0 <= k < |errors| ==>
            1 <= errors[k].rowNumber <= |v| && v[errors[k].rowNumber - 1] == Fails(errors[k]))
      && (forall j, k :: 0 <= j < k < |errors| ==> errors[j].rowNumber < errors[k].rowNumber)
  {
    if v == [] {
      assert PassOver(v).errors == [];
    } else {
      hide PassOver;
      ErrorsNext(v);
      ReportedAreFailures(v[..|v| - 1]);
    }
  }

  /** The errors are those of the failing rows, one each, in file order. */
  lemma PassReportsFailures(v: seq<Verdict>)
    requires Numbered(v)
    ensures var errors := PassOver(v).errors;
      && (forall k :: 0 <= k < |errors| ==>
            1 <= errors[k].rowNumber <= |v| && v[errors[k].rowNumber - 1] == Fails(errors[k]))
      && (forall j, k :: 0 <= j < k < |errors| ==> errors[j].rowNumber < errors[k].rowNumber)
      && (forall i :: 0 <= i < |v| && v[i].Fails? ==> v[i].error in errors)
  {
    ReportedAreFailures(v);
    forall i | 0 <= i < |v| && v[i].Fails? ensures v[i].error in PassOver(v).errors {
      FailuresAreReported(v, i);
    }
  }

  function Capped(errors: seq<RowError>, cap: nat): (shown: seq<RowError>)
    ensures shown <= errors && |shown| == Min(cap, |errors|)
  {
    errors[..Min(cap, |errors|)]
  }

  lemma CappedNext(errors: seq<RowError>, error: RowError, cap: nat)
    ensures var shown := Capped(errors, cap);
            Capped(errors + [error], cap) == if |shown| < cap then shown + [error] else shown
  {
  }

  /** One row's cells, in column order, up to the first that does not cast. */
  method CastCells(env: Env, raw: Cells, h: Header) returns (values: seq<Value>, joined: seq<string>, bad: nat)
    requires WellFormed(h)
    ensures bad == FirstBadCell(env.ops, raw, h, 0)
    ensures bad == |h.columns| ==> values == StoredRow(env, raw, h).values && joined == Padded(raw, |h.columns|)
  {
    hide CastValue;
    values, joined, bad := [], [], 0;
    while bad < |h.columns|
      invariant bad <= |h.columns| && |values| == |joined| == bad
      invariant FirstBadCell(env.ops, raw, h, bad) == FirstBadCell(env.ops, raw, h, 0)
      invariant forall c :: 0 <= c < bad ==>
                  values[c] == StoredRow(env, raw, h).values[c] && joined[c] == Cell(raw, c)
    {
      var cell := if bad < |raw| then raw[bad] else "";
      joined := joined + [cell];
      var r := CastValue(env.ops, cell, h.types[bad]);
      if r.Bad? {
        return;
      }
      values := values + [r.value];
      bad := bad + 1;
    }
  }

  /** One turn of the cast loop, for the row with this index. */
  method CastRow(env: Env, raw: Cells, h: Header, index: nat) returns (verdict: Verdict)
    requires WellFormed(h)
    ensures verdict == Judge(env, raw, h, index + 1)
  {
    var extra := ExtraCells(env.ops, raw, |h.columns|);
    if extra != [] {
      return Fails(RowError(index + 1, BEYOND_HEADER, extra[0], RaggedReason(raw, |h.columns|)));
    }
    var values, joined, bad := CastCells(env, raw, h);
    if bad < |h.columns| {
      var cell := if bad < |raw| then raw[bad] else "";
      var reason := CastValue(env.ops, cell, h.types[bad]).reason;
      return Fails(RowError(index + 1, h.columns[bad], cell, reason));
    }
    return Passes(Stored(values, env.sha(CsvText.Join(SEPARATOR, joined))));
  }

  /** The cast loop: errors are capped, the counts are not. */
  method CastRows(env: Env, data: seq<Cells>, h: Header, cap: nat)
    returns (toInsert: seq<Stored>, rowErrors: seq<RowError>, failed: nat, duplicates: nat)
    requires WellFormed(h)
    ensures var p := PassOver(JudgeAll(env, data, h));
      && toInsert == p.rows && rowErrors == Capped(p.errors, cap)
      && failed == |p.errors| && duplicates == p.duplicates
  {
    toInsert, rowErrors, failed, duplicates := [], [], 0, 0;
    var seen: set<string> := {};
    ghost var v := JudgeAll(env, data, h);
    ghost var p := PassOver(v[..0]);
    for r := 0 to |data|
      invariant p == PassOver(v[..r])
      invariant toInsert == p.rows && seen == Keys(p.rows)
      invariant rowErrors == Capped(p.errors, cap)
      invariant failed == |p.errors| && duplicates == p.duplicates
    {
      var verdict := CastRow(env, data[r], h, r);
      PassNext(v, r);
      assert verdict == v[r];
      if verdict.Fails? {
        CappedNext(p.errors, verdict.error, cap);
      }
      p := Extend(p, r, v[r]);
      if verdict.Fails? {
        if |rowErrors| < cap {
          rowErrors := rowErrors + [verdict.error];
        }
        failed := failed + 1;
      } else if verdict.row.rowHash in seen {
        duplicates := duplicates + 1;
      } else {
        seen := seen + {verdict.row.rowHash};
        toInsert := toInsert + [verdict.row];
      }
    }
    assert v[..|data|] == v;
  }
}
