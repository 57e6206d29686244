/**
 * The append-only audit log: a hash chain written by a BEFORE INSERT trigger
 * under a transaction-scoped advisory lock, a backfill that chains older rows,
 * and the query that checks the chain.
 *
 * SHA-256 is a parameter. Nothing below assumes it has no collisions: where a
 * result depends on that, it says "or these two texts collide".
 */
module AuditChain {
  import opened Common

  type Hash = string
  type TxId = nat

  /** The columns the caller of the INSERT (or a column default) supplies. */
  datatype Content = Content(
    action: string, fileId: Option<int>, fileName: Option<string>, tableName: Option<string>,
    mode: Option<string>, performedAt: int, actor: Option<string>,
    before: Option<string>, after: Option<string>)

  datatype Row = Row(
    id: nat, tenant: Option<string>, content: Content, prev: Option<Hash>, hash: Option<Hash>)

  /** The part of a row that `jsonb_build_object` renders. */
  datatype Sealed = Sealed(id: nat, tenant: Option<string>, content: Content)

  /** SHA-256 in hex, and the text form of the JSON object. */
  datatype Hasher = Hasher(sha: string -> Hash, json: Sealed -> string)

  predicate HexDigest(s: string) {
    |s| == 64 && forall i :: 0 <= i < |s| ==> '0' <= s[i] <= '9' || 'a' <= s[i] <= 'f'
  }

  /** What PostgreSQL guarantees of the two functions: digests are 64 hex digits,
      the text is an object, and different rows have different texts. */
  ghost predicate Lawful(h: Hasher) {
    && (forall t :: HexDigest(h.sha(t)))
    && (forall s :: |h.json(s)| > 0 && h.json(s)[0] == '{')
    && (forall s, t :: h.json(s) == h.json(t) ==> s == t)
  }

  function Seal(r: Row): Sealed {
    Sealed(r.id, r.tenant, r.content)
  }

  /** The text that is hashed: the previous hash, or nothing, and then the JSON. */
  function HashInput(h: Hasher, prev: Option<Hash>, r: Row): string {
    (if prev.Some? then prev.value else "") + h.json(Seal(r))
  }

  function RowHash(h: Hasher, prev: Option<Hash>, r: Row): Hash {
    h.sha(HashInput(h, prev, r))
  }

  ghost predicate Collide(h: Hasher, x: string, y: string) {
    x != y && h.sha(x) == h.sha(y)
  }

  predicate DigestOrNull(p: Option<Hash>) {
    p.None? || HexDigest(p.value)
  }

  lemma FirstBrace(x: string, j: string)
    requires x == "" || HexDigest(x)
    requires |j| > 0 && j[0] == '{'
    ensures (x + j)[|x|] == '{' && forall i :: 0 <= i < |x| ==> (x + j)[i] != '{'
    ensures (x + j)[..|x|] == x && (x + j)[|x|..] == j
  {
  }

  /** The concatenation can be taken apart: equal texts have equal parts. */
  lemma HashInputSplits(h: Hasher, p: Option<Hash>, r: Row, q: Option<Hash>, s: Row)
    requires Lawful(h) && DigestOrNull(p) && DigestOrNull(q)
    ensures HashInput(h, p, r) == HashInput(h, q, s) <==> p == q && Seal(r) == Seal(s)
  {
    var x := if p.Some? then p.value else "";
    var y := if q.Some? then q.value else "";
    FirstBrace(x, h.json(Seal(r)));
    FirstBrace(y, h.json(Seal(s)));
    if HashInput(h, p, r) == HashInput(h, q, s) {
      assert |x| == |y|;
      assert x == y && h.json(Seal(r)) == h.json(Seal(s));
    }
  }

  // ---------------------------------------------------------------------
  // Checking a chain. A log is the table's rows in id order.
  // ---------------------------------------------------------------------

  predicate IdsIncrease(log: seq<Row>) {
    forall i, j :: 0 <= i < j < |log| ==> log[i].id < log[j].id
  }

  /** `lag(row_hash) OVER (ORDER BY id)`. */
  function ExpectedPrev(log: seq<Row>, i: nat): Option<Hash>
    requires i < |log|
  {
    if i == 0 then None else log[i - 1].hash
  }

  predicate Broken(h: Hasher, log: seq<Row>, i: nat)
    requires i < |log|
  {
    log[i].prev != ExpectedPrev(log, i) || log[i].hash != Some(RowHash(h, log[i].prev, log[i]))
  }

  predicate Intact(h: Hasher, log: seq<Row>) {
    forall i :: 0 <= i < |log| ==> !Broken(h, log, i)
  }

  /** `min(id)` over the broken rows among the first `n`. */
  function MinBrokenId(h: Hasher, log: seq<Row>, n: nat): Option<nat>
    requires n <= |log|
  {
    if n == 0 then None
    else
      var m := MinBrokenId(h, log, n - 1);
      if !Broken(h, log, n - 1) then m
      else if m.Some? && m.value <= log[n - 1].id then m
      else Some(log[n - 1].id)
  }

  lemma {:induction false} MinBrokenIdIsMin(h: Hasher, log: seq<Row>, n: nat)
    requires n <= |log|
    ensures var m := MinBrokenId(h, log, n);
      && (m.None? <==> forall i :: 0 <= i < n ==> !Broken(h, log, i))
      && (m.Some? ==> exists i :: 0 <= i < n && Broken(h, log, i) && log[i].id == m.value)
      && (m.Some? ==> forall i :: 0 <= i < n && Broken(h, log, i) ==> m.value <= log[i].id)
  {
    hide Broken;
    if n > 0 {
      MinBrokenIdIsMin(h, log, n - 1);
    }
  }

  datatype Report = Report(rows: nat, intact: bool, firstBadId: Option<nat>)

  function VerifyChain(h: Hasher, log: seq<Row>): Report {
    var bad := MinBrokenId(h, log, |log|);
    Report(|log|, bad.None?, bad)
  }

  lemma MinBrokenIsFirst(h: Hasher, log: seq<Row>, k: nat)
    requires IdsIncrease(log) && k < |log|
    ensures MinBrokenId(h, log, |log|) == Some(log[k].id)
            <==> Broken(h, log, k) && forall i :: 0 <= i < k ==> !Broken(h, log, i)
  {
    hide Broken;
    MinBrokenIdIsMin(h, log, |log|);
    var m := MinBrokenId(h, log, |log|);
    if m.Some? {
      var j :| 0 <= j < |log| && Broken(h, log, j) && log[j].id == m.value;
      assert k < j ==> log[k].id < log[j].id;
    }
  }

  /** The report names the first broken row, and is clean exactly for an intact log. */
  lemma ReportNamesFirstBrokenRow(h: Hasher, log: seq<Row>, k: nat)
    requires IdsIncrease(log) && k < |log|
    ensures VerifyChain(h, log).intact <==> Intact(h, log)
    ensures VerifyChain(h, log) == Report(|log|, false, Some(log[k].id))
            <==> Broken(h, log, k) && forall i :: 0 <= i < k ==> !Broken(h, log, i)
  {
    hide Broken;
    MinBrokenIdIsMin(h, log, |log|);
    MinBrokenIsFirst(h, log, k);
  }

  lemma IntactPrefix(h: Hasher, log: seq<Row>, n: nat)
    requires n <= |log| && Intact(h, log)
    ensures Intact(h, log[..n])
  {
    forall i | 0 <= i < n ensures !Broken(h, log[..n], i) {
      assert !Broken(h, log, i);
    }
  }

  // ---------------------------------------------------------------------
  // What an intact chain pins down.
  // ---------------------------------------------------------------------

  function Text(h: Hasher, log: seq<Row>, i: nat): string
    requires i < |log|
  {
    HashInput(h, log[i].prev, log[i])
  }

  /** In an intact log of a lawful hasher every link is null or a digest. */
  lemma LinksAreDigests(h: Hasher, log: seq<Row>, i: nat)
    requires Lawful(h) && Intact(h, log) && i < |log|
    ensures DigestOrNull(log[i].prev)
    ensures log[i].prev.None? <==> i == 0
    ensures log[i].hash == Some(h.sha(Text(h, log, i)))
  {
    assert !Broken(h, log, i);
    if i > 0 {
      assert !Broken(h, log, i - 1);
    }
  }

  /** Two intact logs that end in the same hash are the same log, row for row,
      whatever their lengths, unless two of the texts they hash collide. */
  lemma {:induction false} LastHashPinsTheLog(h: Hasher, a: seq<Row>, b: seq<Row>)
    requires Lawful(h) && Intact(h, a) && Intact(h, b)
    requires |a| > 0 && |b| > 0 && a[|a| - 1].hash == b[|b| - 1].hash
    ensures a == b || exists i, j :: 0 <= i < |a| && 0 <= j < |b| && Collide(h, Text(h, a, i), Text(h, b, j))
    decreases |a|
  {
    var i, j := |a| - 1, |b| - 1;
    LinksAreDigests(h, a, i);
    LinksAreDigests(h, b, j);
    if Text(h, a, i) == Text(h, b, j) {
      HashInputSplits(h, a[i].prev, a[i], b[j].prev, b[j]);
      assert a[i] == b[j];
      assert a == a[..i] + [a[i]] && b == b[..j] + [b[j]];
      if i > 0 {
        assert !Broken(h, a, i) && !Broken(h, b, j);
        IntactPrefix(h, a, i);
        IntactPrefix(h, b, j);
        LastHashPinsTheLog(h, a[..i], b[..j]);
        if a[..i] != b[..j] {
          var x, y :| 0 <= x < i && 0 <= y < j && Collide(h, Text(h, a[..i], x), Text(h, b[..j], y));
          assert Collide(h, Text(h, a, x), Text(h, b, y));
        }
      }
    }
  }

  /** Changing a stored row without rehashing it is reported at exactly that row,
      unless the old and the new text collide; then it is not seen at all. */
  lemma ContentChangeIsReported(h: Hasher, log: seq<Row>, k: nat, changed: Row)
    requires Lawful(h) && Intact(h, log) && IdsIncrease(log) && k < |log|
    requires changed.id == log[k].id && changed.prev == log[k].prev && changed.hash == log[k].hash
    requires changed != log[k]
    ensures var report := VerifyChain(h, log[k := changed]);
            if Collide(h, Text(h, log, k), HashInput(h, changed.prev, changed))
            then report.intact
            else report == Report(|log|, false, Some(log[k].id))
  {
    var log' := log[k := changed];
    LinksAreDigests(h, log, k);
    assert !Broken(h, log, k);
    HashInputSplits(h, log[k].prev, log[k], changed.prev, changed);
    forall i | 0 <= i < |log| && i != k ensures !Broken(h, log', i) {
      assert !Broken(h, log, i);
    }
    assert IdsIncrease(log');
    ReportNamesFirstBrokenRow(h, log', k);
  }

  /** Deleting the rows `i .. j` is reported at the first row after the gap. Only
      cutting off the end of the log goes unseen (or a collision hides it). */
  lemma RemovalIsReported(h: Hasher, log: seq<Row>, i: nat, j: nat)
    requires Lawful(h) && Intact(h, log) && IdsIncrease(log) && i < j <= |log|
    ensures var rest := log[..i] + log[j..];
            var report := VerifyChain(h, rest);
            if j == |log| || (i > 0 && Collide(h, Text(h, log, i - 1), Text(h, log, j - 1)))
            then report.intact
            else report == Report(|rest|, false, Some(log[j].id))
  {
    hide RowHash;
    var rest := log[..i] + log[j..];
    forall n | 0 <= n < |rest| && n != i ensures !Broken(h, rest, n) {
      assert !Broken(h, log, if n < i then n else n + j - i);
    }
    assert IdsIncrease(rest);
    if j < |log| {
      assert rest[i] == log[j];
      assert !Broken(h, log, j) && !Broken(h, log, j - 1);
      LinksAreDigests(h, log, j);
      LinksAreDigests(h, log, j - 1);
      if i > 0 {
        LinksAreDigests(h, log, i - 1);
        assert log[i - 1].id < log[j - 1].id;
        HashInputSplits(h, log[i - 1].prev, log[i - 1], log[j - 1].prev, log[j - 1]);
      }
      ReportNamesFirstBrokenRow(h, rest, i);
    } else if rest != [] {
      ReportNamesFirstBrokenRow(h, rest, 0);
    }
  }

  // ---------------------------------------------------------------------
  // Writers. Transactions interleave; the trigger's advisory lock is held to
  // the end of the transaction; the id sequence is never rolled back.
  // ---------------------------------------------------------------------

  datatype Db = Db(
    committed: seq<Row>,              // in commit order
    nextId: nat,                      // the sequence
    lock: Option<TxId>,               // holder of the advisory lock
    pending: map<TxId, seq<Row>>)     // rows of transactions still open

  datatype Action =
    | Insert(tx: TxId, content: Content)
    | InsertFails(tx: TxId)           // the trigger ran, then the INSERT failed
    | Commit(tx: TxId)
    | Abort(tx: TxId)

  /** An INSERT by a transaction that does not hold a taken lock waits. */
  predicate Enabled(s: Db, a: Action) {
    (a.Insert? || a.InsertFails?) ==> s.lock == None || s.lock == Some(a.tx)
  }

  function Pending(s: Db, tx: TxId): seq<Row> {
    if tx in s.pending then s.pending[tx] else []
  }

  /** `ORDER BY id DESC LIMIT 1`. */
  function NewestRow(rows: seq<Row>): (r: Option<Row>)
    ensures r.None? <==> rows == []
    ensures r.Some? ==> r.value in rows && forall x :: x in rows ==> x.id <= r.value.id
  {
    if rows == [] then None
    else
      var rest := NewestRow(rows[..|rows| - 1]);
      var x := rows[|rows| - 1];
      assert rows == rows[..|rows| - 1] + [x];
      if rest.Some? && rest.value.id > x.id then rest else Some(x)
  }

  /** The row the trigger builds for `tx`, which sees the committed rows and its own. */
  function TriggerRow(h: Hasher, tenant: string, s: Db, tx: TxId, c: Content): Row {
    var newest := NewestRow(s.committed + Pending(s, tx));
    var prev := if newest.Some? then newest.value.hash else None;
    var r := Row(s.nextId, Some(tenant), c, prev, None);
    r.(hash := Some(RowHash(h, prev, r)))
  }

  function Step(h: Hasher, tenant: string, s: Db, a: Action): Db {
    if !Enabled(s, a) then s
    else
      match a
      case Insert(tx, c) =>
        s.(lock := Some(tx), nextId := s.nextId + 1,
           pending := s.pending[tx := Pending(s, tx) + [TriggerRow(h, tenant, s, tx, c)]])
      case InsertFails(tx) =>
        s.(lock := None, nextId := s.nextId + 1, pending := s.pending - {tx})
      case Commit(tx) =>
        s.(lock := if s.lock == Some(tx) then None else s.lock,
           committed := s.committed + Pending(s, tx), pending := s.pending - {tx})
      case Abort(tx) =>
        s.(lock := if s.lock == Some(tx) then None else s.lock, pending := s.pending - {tx})
  }

  function Run(h: Hasher, tenant: string, s: Db, actions: seq<Action>): Db {
    if actions == [] then s
    else Step(h, tenant, Run(h, tenant, s, actions[..|actions| - 1]), actions[|actions| - 1])
  }

  /** Every INSERT that does not wait draws one id, whatever becomes of it: neither an abort nor
      a failed INSERT gives it back, so ids can leave gaps but are never drawn twice. */
  lemma {:induction false} IdsAreDrawnOnce(h: Hasher, tenant: string, s: Db, actions: seq<Action>)
    ensures Run(h, tenant, s, actions).nextId == s.nextId + Draws(h, tenant, s, actions)
  {
    if actions != [] {
      IdsAreDrawnOnce(h, tenant, s, actions[..|actions| - 1]);
    }
  }

  /** How many of the actions insert, or try to, without waiting. */
  function Draws(h: Hasher, tenant: string, s: Db, actions: seq<Action>): nat {
    if actions == [] then 0
    else
      var front, a := actions[..|actions| - 1], actions[|actions| - 1];
      var before := Run(h, tenant, s, front);
      var draws := (a.Insert? || a.InsertFails?) && (before.lock == None || before.lock == Some(a.tx));
      Draws(h, tenant, s, front) + (if draws then 1 else 0)
  }

  /** A chained log whose ids the sequence has already given out. */
  ghost predicate Chained(h: Hasher, log: seq<Row>, nextId: nat) {
    IdsIncrease(log) && Intact(h, log) && forall i :: 0 <= i < |log| ==> log[i].id < nextId
  }

  /** The committed rows, followed by those of the transaction that holds the lock. */
  function WholeChain(s: Db): seq<Row> {
    if s.lock.Some? then s.committed + Pending(s, s.lock.value) else s.committed
  }

  /** Only the lock holder has rows pending, and its rows continue the committed chain. */
  ghost predicate Inv(h: Hasher, s: Db) {
    && (forall tx :: tx in s.pending ==> s.lock == Some(tx))
    && Chained(h, WholeChain(s), s.nextId)
  }

  lemma {:induction false} NewestIsLast(log: seq<Row>)
    requires IdsIncrease(log) && log != []
    ensures NewestRow(log) == Some(log[|log| - 1])
  {
    var front := NewestRow(log[..|log| - 1]);
    if front.Some? {
      var i :| 0 <= i < |log| - 1 && log[i] == front.value;
      assert log[i].id < log[|log| - 1].id;
    }
  }

  lemma ChainGrows(h: Hasher, log: seq<Row>, nextId: nat, r: Row)
    requires Chained(h, log, nextId) && r.id == nextId
    requires r.prev == if log == [] then None else log[|log| - 1].hash
    requires r.hash == Some(RowHash(h, r.prev, r))
    ensures Chained(h, log + [r], nextId + 1)
  {
    forall i | 0 <= i < |log| + 1 ensures !Broken(h, log + [r], i) {
      if i < |log| {
        assert !Broken(h, log, i);
      }
    }
  }

  lemma ChainedPrefix(h: Hasher, log: seq<Row>, nextId: nat, n: nat)
    requires Chained(h, log, nextId) && n <= |log|
    ensures Chained(h, log[..n], nextId)
  {
    IntactPrefix(h, log, n);
  }

  lemma CommittedIsChained(h: Hasher, s: Db)
    requires Inv(h, s)
    ensures Chained(h, s.committed, s.nextId)
  {
    ChainedPrefix(h, WholeChain(s), s.nextId, |s.committed|);
    assert WholeChain(s)[..|s.committed|] == s.committed;
  }

  lemma TriggerLinksToLast(h: Hasher, tenant: string, s: Db, tx: TxId, c: Content)
    requires IdsIncrease(s.committed + Pending(s, tx))
    ensures var log := s.committed + Pending(s, tx);
            var r := TriggerRow(h, tenant, s, tx, c);
            && r.id == s.nextId && r.content == c && r.tenant == Some(tenant)
            && r.prev == (if log == [] then None else log[|log| - 1].hash)
            && r.hash == Some(RowHash(h, r.prev, r))
  {
    var log := s.committed + Pending(s, tx);
    if log != [] {
      NewestIsLast(log);
    }
  }

  lemma InsertKeepsInv(h: Hasher, tenant: string, s: Db, tx: TxId, c: Content)
    requires Inv(h, s) && Enabled(s, Insert(tx, c))
    ensures Inv(h, Step(h, tenant, s, Insert(tx, c)))
  {
    var log := s.committed + Pending(s, tx);
    var r := TriggerRow(h, tenant, s, tx, c);
    var s' := Step(h, tenant, s, Insert(tx, c));
    assert log == WholeChain(s);
    TriggerLinksToLast(h, tenant, s, tx, c);
    ChainGrows(h, log, s.nextId, r);
    assert WholeChain(s') == log + [r] by {
      assert Pending(s', tx) == Pending(s, tx) + [r];
    }
  }

  lemma StepKeepsInv(h: Hasher, tenant: string, s: Db, a: Action)
    requires Inv(h, s)
    ensures Inv(h, Step(h, tenant, s, a))
    ensures s.committed <= Step(h, tenant, s, a).committed
  {
    CommittedIsChained(h, s);
    if a.Insert? && Enabled(s, a) {
      InsertKeepsInv(h, tenant, s, a.tx, a.content);
    } else if Enabled(s, a) {
      var s' := Step(h, tenant, s, a);
      if s.lock != Some(a.tx) {
        assert a.tx !in s.pending;
        assert s.pending - {a.tx} == s.pending;
        assert s.committed + [] == s.committed;
      }
    }
  }

  /** Over every interleaving, including aborts that leave id gaps and inserts that
      wait for the lock: the committed rows have increasing ids and form one intact
      chain, and what was committed once stays, in place. */
  lemma {:induction false} EveryRunIsIntact(h: Hasher, tenant: string, s: Db, actions: seq<Action>)
    requires Inv(h, s)
    ensures var log := Run(h, tenant, s, actions).committed;
            && s.committed <= log
            && IdsIncrease(log) && Intact(h, log)
            && VerifyChain(h, log) == Report(|log|, true, None)
    ensures Inv(h, Run(h, tenant, s, actions))
  {
    if actions != [] {
      EveryRunIsIntact(h, tenant, s, actions[..|actions| - 1]);
      StepKeepsInv(h, tenant, Run(h, tenant, s, actions[..|actions| - 1]), actions[|actions| - 1]);
    }
    CommittedIsChained(h, Run(h, tenant, s, actions));
    MinBrokenIdIsMin(h, Run(h, tenant, s, actions).committed, |Run(h, tenant, s, actions).committed|);
  }

  // ---------------------------------------------------------------------
  // What the log says, without ids and hashes: a list to which transactions,
  // one at a time, publish their entries at commit.
  // ---------------------------------------------------------------------

  datatype Ledger = Ledger(published: seq<Content>, writer: Option<TxId>, draft: seq<Content>)

  function LedgerStep(g: Ledger, a: Action): Ledger {
    if g.writer.Some? && g.writer.value != a.tx then g
    else
      match a
      case Insert(tx, c) => g.(writer := Some(tx), draft := g.draft + [c])
      case Commit(_) => Ledger(g.published + g.draft, None, [])
      case _ => Ledger(g.published, None, [])
  }

  function LedgerRun(g: Ledger, actions: seq<Action>): Ledger {
    if actions == [] then g
    else LedgerStep(LedgerRun(g, actions[..|actions| - 1]), actions[|actions| - 1])
  }

  function Contents(rows: seq<Row>): seq<Content> {
    seq(|rows|, i requires 0 <= i < |rows| => rows[i].content)
  }

  function Told(s: Db): Ledger {
    Ledger(Contents(s.committed), s.lock, if s.lock.Some? then Contents(Pending(s, s.lock.value)) else [])
  }

  lemma ContentsAppend(a: seq<Row>, b: seq<Row>)
    ensures Contents(a + b) == Contents(a) + Contents(b)
  {
  }

  lemma InsertTells(h: Hasher, tenant: string, s: Db, tx: TxId, c: Content)
    requires Inv(h, s) && Enabled(s, Insert(tx, c))
    ensures Told(Step(h, tenant, s, Insert(tx, c))) == LedgerStep(Told(s), Insert(tx, c))
  {
    hide Chained, RowHash, NewestRow;
    var r := TriggerRow(h, tenant, s, tx, c);
    ContentsAppend(Pending(s, tx), [r]);
    assert Contents([r]) == [c];
    assert s.lock.None? ==> tx !in s.pending;
  }

  lemma StepTells(h: Hasher, tenant: string, s: Db, a: Action)
    requires Inv(h, s)
    ensures Told(Step(h, tenant, s, a)) == LedgerStep(Told(s), a)
  {
    hide Chained, TriggerRow;
    if a.Insert? && Enabled(s, a) {
      InsertTells(h, tenant, s, a.tx, a.content);
    } else if Enabled(s, a) {
      ContentsAppend(s.committed, Pending(s, a.tx));
      assert s.lock.None? ==> a.tx !in s.pending;
    }
  }

  /** Every interleaved run publishes exactly what the one-writer list publishes:
      a committed transaction's entries, all of them, in order, and an aborted one's none. */
  lemma {:induction false} RunTellsTheLedger(h: Hasher, tenant: string, s: Db, actions: seq<Action>)
    requires Inv(h, s)
    ensures Told(Run(h, tenant, s, actions)) == LedgerRun(Told(s), actions)
  {
    if actions != [] {
      var front := actions[..|actions| - 1];
      RunTellsTheLedger(h, tenant, s, front);
      EveryRunIsIntact(h, tenant, s, front);
      StepTells(h, tenant, Run(h, tenant, s, front), actions[|actions| - 1]);
    }
  }

  /** The upgrade's loop: chain the rows that already exist, oldest first. */
  method Backfill(h: Hasher, tenant: string, rows: array<Row>)
    modifies rows
    ensures Intact(h, rows[..])
    ensures forall k :: 0 <= k < rows.Length ==>
              rows[k] == old(rows[k]).(tenant := Some(tenant), prev := rows[k].prev, hash := rows[k].hash)
  {
    var prev: Option<Hash> := None;
    for k := 0 to rows.Length
      invariant prev == if k == 0 then None else rows[k - 1].hash
      invariant Intact(h, rows[..k])
      invariant forall i :: 0 <= i < k ==>
                  rows[i] == old(rows[i]).(tenant := Some(tenant), prev := rows[i].prev, hash := rows[i].hash)
      invariant forall i :: k <= i < rows.Length ==> rows[i] == old(rows[i])
    {
      ghost var done := rows[..k];
      rows[k] := rows[k].(tenant := Some(tenant), prev := prev);
      prev := Some(RowHash(h, prev, rows[k]));
      rows[k] := rows[k].(hash := prev);
      assert rows[..k + 1] == done + [rows[k]];
      ghost var now := rows[..k + 1];
      forall i | 0 <= i < k ensures !Broken(h, now, i) {
        assert !Broken(h, done, i);
      }
    }
    assert rows[..rows.Length] == rows[..];
  }

  /** A backfilled table whose sequence is past its last id is a good start for any run. */
  lemma BackfilledLogStartsARun(h: Hasher, tenant: string, legacy: seq<Row>, nextId: nat, actions: seq<Action>)
    requires Intact(h, legacy) && IdsIncrease(legacy)
    requires forall r :: r in legacy ==> r.id < nextId
    ensures var log := Run(h, tenant, Db(legacy, nextId, None, map[]), actions).committed;
            legacy <= log && IdsIncrease(log) && VerifyChain(h, log) == Report(|log|, true, None)
  {
    var s := Db(legacy, nextId, None, map[]);
    EveryRunIsIntact(h, tenant, s, actions);
  }

  /** The table as the trigger and the transactions change it, step by step. */
  class AuditTable {
    const hasher: Hasher
    const tenant: string
    var committed: seq<Row>
    var nextId: nat
    var lock: Option<TxId>
    var pending: map<TxId, seq<Row>>

    function State(): Db
      reads this
    {
      Db(committed, nextId, lock, pending)
    }

    constructor (hasher: Hasher, tenant: string, legacy: seq<Row>, nextId: nat)
      ensures this.hasher == hasher && this.tenant == tenant
      ensures State() == Db(legacy, nextId, None, map[])
    {
      this.hasher, this.tenant := hasher, tenant;
      committed, this.nextId, lock, pending := legacy, nextId, None, map[];
    }

    /** INSERT by `tx`; `waits` means that another transaction holds the lock. */
    method InsertRow(tx: TxId, c: Content) returns (waits: bool)
      modifies this
      ensures waits == !Enabled(old(State()), Insert(tx, c))
      ensures State() == Step(hasher, tenant, old(State()), Insert(tx, c))
    {
      waits := lock.Some? && lock.value != tx;
      if waits {
        return;
      }
      lock := Some(tx);
      var mine := if tx in pending then pending[tx] else [];
      var r := Row(nextId, Some(tenant), c, None, None);
      nextId := nextId + 1;
      var newest := NewestRow(committed + mine);
      if newest.Some? {
        r := r.(prev := newest.value.hash);
      }
      r := r.(hash := Some(RowHash(hasher, r.prev, r)));
      pending := pending[tx := mine + [r]];
    }

    method Finish(tx: TxId, commit: bool)
      modifies this
      ensures State() == Step(hasher, tenant, old(State()), if commit then Commit(tx) else Abort(tx))
    {
      if commit && tx in pending {
        committed := committed + pending[tx];
      }
      pending := pending - {tx};
      if lock == Some(tx) {
        lock := None;
      }
    }
  }
}
