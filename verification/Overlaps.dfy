/**
 * Sign-ins and password changes of one account that overlap. An attempt first
 * reads the lock, then checks the password, and only then updates the counter,
 * all in one transaction; its time is that of the transaction's start.
 */
module Overlaps {
  import opened Common
  import opened Accounts

  /** An attempt that has read the lock and has not ended yet. */
  datatype Attempt = Attempt(event: Event, locked: bool)

  type Open = map<nat, Attempt>

  datatype World = World(account: Lockout, open: Open)

  /** `Finish`: the update, under the row's lock, and the commit. A reset is one update. */
  datatype Move = Begin(id: nat, event: Event) | Finish(id: nat) | ResetNow(now: real)

  predicate Wrong(e: Event) {
    (e.SignIn? || e.ChangePassword?) && !e.right
  }

  /** A right password signs in if the lock was off when it was read. */
  predicate Clears(a: Attempt) {
    match a.event
    case SignIn(_, right, eligible) => right && eligible && !a.locked
    case ChangePassword(_, right) => right
    case Reset(_) => true
  }

  function Settle(p: Policy, s: Lockout, a: Attempt): Lockout {
    if Clears(a) then CLEAR else if Wrong(a.event) then RecordFailure(p, s, a.event.now) else s
  }

  function Next(p: Policy, w: World, m: Move): World {
    match m
    case Begin(id, e) =>
      if id in w.open || e.Reset? then w else w.(open := w.open[id := Attempt(e, Locked(w.account, e.now))])
    case Finish(id) =>
      if id !in w.open then w else World(Settle(p, w.account, w.open[id]), w.open - {id})
    case ResetNow(_) => w.(account := CLEAR)
  }

  function RunAll(p: Policy, w: World, moves: seq<Move>): World
    decreases |moves|
  {
    if moves == [] then w else RunAll(p, Next(p, w, moves[0]), moves[1..])
  }

  /** An attempt that nothing overlaps is the one event of the serial model. */
  lemma AloneIsSerial(p: Policy, s: Lockout, id: nat, e: Event)
    requires !e.Reset?
    ensures RunAll(p, World(s, map[]), [Begin(id, e), Finish(id)]) == World(Step(p, s, e), map[])
  {
    hide RecordFailure;
    var w := Next(p, World(s, map[]), Begin(id, e));
    assert w == World(s, map[id := Attempt(e, Locked(s, e.now))]);
    var w' := Next(p, w, Finish(id));
    assert w.open - {id} == map[];
    assert w' == World(Step(p, s, e), map[]);
    assert [Begin(id, e), Finish(id)][1..] == [Finish(id)] && [Finish(id)][1..] == [];
    assert RunAll(p, w', []) == w' && RunAll(p, w, [Finish(id)]) == w';
  }

  // ---------------------------------------------------------------------
  // How many guesses: wrong sign-in passwords begun while the lock is off
  // ---------------------------------------------------------------------

  predicate Guess(w: World, m: Move) {
    m.Begin? && m.id !in w.open && m.event.SignIn? && !m.event.right && !Locked(w.account, m.event.now)
  }

  function Guesses(p: Policy, w: World, moves: seq<Move>): nat
    decreases |moves|
  {
    if moves == [] then 0
    else (if Guess(w, moves[0]) then 1 else 0) + Guesses(p, Next(p, w, moves[0]), moves[1..])
  }

  predicate Success(w: World, m: Move) {
    m.ResetNow? || (m.Finish? && m.id in w.open && Clears(w.open[m.id]))
  }

  /** No success and no reset, attempts begun within the span, at most `k` open at a time. */
  predicate InSpan(p: Policy, w: World, moves: seq<Move>, from: real, k: nat)
    decreases |moves|
  {
    |w.open| <= k && (moves == [] ||
      (&& !Success(w, moves[0])
       && (moves[0].Begin? ==> from <= moves[0].event.now < from + p.minutes)
       && InSpan(p, Next(p, w, moves[0]), moves[1..], from, k)))
  }

  /** Open attempts with a wrong password, begun before the span or within it. */
  function Older(open: Open, from: real): set<nat> {
    set id | id in open && Wrong(open[id].event) && open[id].event.now < from
  }

  function Newer(open: Open, from: real, end: real): set<nat> {
    set id | id in open && Wrong(open[id].event) && from <= open[id].event.now < end
  }

  /** The count has begun with its window. */
  predicate Counted(s: Lockout) {
    s.failed > 0 <==> s.firstFailed.Some?
  }

  /** How many failures begun within the span suffice to lock the account for the rest of it. */
  function Needed(p: Policy, s: Lockout, from: real): int {
    if s.lockedUntil.Some? && s.lockedUntil.value >= from + p.minutes then 0
    else if s.firstFailed.None? then p.maxFailures
    else if s.firstFailed.value >= from then Max(1, p.maxFailures - s.failed)
    else p.maxFailures + Max(0, p.maxFailures - 1 - s.failed)
  }

  function MostNeeded(p: Policy): int {
    Max(p.maxFailures, 2 * p.maxFailures - 2)
  }

  lemma NeededIsBounded(p: Policy, s: Lockout, from: real)
    requires Sensible(p) && Counted(s)
    ensures 0 <= Needed(p, s, from) <= MostNeeded(p)
  {
  }

  /** Each failure begun within the span brings the lock nearer; and the lock it sets lasts. */
  lemma FailureCounts(p: Policy, s: Lockout, from: real, now: real)
    requires Sensible(p) && Counted(s) && from <= now < from + p.minutes
    ensures Counted(RecordFailure(p, s, now))
    ensures Needed(p, RecordFailure(p, s, now), from) <= Max(0, Needed(p, s, from) - 1)
  {
  }

  /** The guesses left. An older attempt that fails may shorten the lock again: then as many
      may follow as in a new span. */
  function Left(p: Policy, w: World, from: real, k: nat): int {
    var newer := |Newer(w.open, from, from + p.minutes)|;
    var most := MostNeeded(p) + k - 1;
    Rounds(|Older(w.open, from)|, most)
    + (if Needed(p, w.account, from) == 0 then 0 else Needed(p, w.account, from) - 1 + k - newer)
  }

  function Rounds(n: nat, most: int): int {
    if n == 0 then 0 else most + Rounds(n - 1, most)
  }

  lemma {:induction false} RoundsIsProduct(n: nat, most: int)
    ensures Rounds(n, most) == n * most
  {
    if n > 0 {
      RoundsIsProduct(n - 1, most);
    }
  }

  lemma NewerAreOpen(open: Open, from: real, end: real)
    ensures |Newer(open, from, end)| <= |open|
  {
    assert Newer(open, from, end) <= open.Keys;
    SubsetIsSmaller(Newer(open, from, end), open.Keys);
  }

  lemma {:induction false} SubsetIsSmaller(a: set<nat>, b: set<nat>)
    requires a <= b
    ensures |a| <= |b|
  {
    if x :| x in a {
      SubsetIsSmaller(a - {x}, b - {x});
    }
  }

  lemma OneMore(open: Open, id: nat, a: Attempt, from: real, end: real)
    requires id !in open && from <= a.event.now < end
    ensures Older(open[id := a], from) == Older(open, from)
    ensures |Newer(open[id := a], from, end)| == |Newer(open, from, end)| + (if Wrong(a.event) then 1 else 0)
  {
    var more := open[id := a];
    hide Wrong;
    assert forall i :: i in more <==> i in open || i == id;
    assert Older(more, from) == Older(open, from);
    if Wrong(a.event) {
      assert Newer(more, from, end) == Newer(open, from, end) + {id};
    } else {
      assert Newer(more, from, end) == Newer(open, from, end);
    }
  }

  lemma OneLess(open: Open, id: nat, from: real, end: real)
    requires id in open && open[id].event.now < end
    ensures var failed, early := Wrong(open[id].event), open[id].event.now < from;
      && |Older(open - {id}, from)| == |Older(open, from)| - (if failed && early then 1 else 0)
      && |Newer(open - {id}, from, end)| == |Newer(open, from, end)| - (if failed && !early then 1 else 0)
  {
    assert Older(open - {id}, from) == Older(open, from) - {id};
    assert Newer(open - {id}, from, end) == Newer(open, from, end) - {id};
  }

  lemma BeginUsesGuesses(p: Policy, w: World, m: Move, from: real, k: nat)
    requires Sensible(p) && Counted(w.account) && m.Begin? && m.id !in w.open && !m.event.Reset?
    requires from <= m.event.now < from + p.minutes && |Next(p, w, m).open| <= k
    ensures Left(p, w, from, k) >= Left(p, Next(p, w, m), from, k) + (if Guess(w, m) then 1 else 0)
  {
    hide Older, Newer, MostNeeded, Rounds;
    OneMore(w.open, m.id, Attempt(m.event, Locked(w.account, m.event.now)), from, from + p.minutes);
    NeededIsBounded(p, w.account, from);
  }

  lemma FinishUsesGuesses(p: Policy, w: World, m: Move, from: real, k: nat)
    requires Sensible(p) && Counted(w.account) && m.Finish? && m.id in w.open && !Success(w, m)
    requires w.open[m.id].event.now < from + p.minutes && |w.open| <= k
    ensures Left(p, w, from, k) >= Left(p, Next(p, w, m), from, k) && Counted(Next(p, w, m).account)
  {
    var a := w.open[m.id];
    NewerAreOpen(w.open, from, from + p.minutes);
    NewerAreOpen(w.open - {m.id}, from, from + p.minutes);
    OneLess(w.open, m.id, from, from + p.minutes);
    assert Counted(RecordFailure(p, w.account, a.event.now));
    NeededIsBounded(p, w.account, from);
    NeededIsBounded(p, RecordFailure(p, w.account, a.event.now), from);
    if Wrong(a.event) && a.event.now >= from {
      FailureCounts(p, w.account, from, a.event.now);
    }
    hide Older, Newer, MostNeeded, Needed, RecordFailure, Counted;
  }

  /** No attempt that is open began after the span. */
  predicate BegunBefore(open: Open, end: real) {
    forall id :: id in open ==> open[id].event.now < end && !open[id].event.Reset?
  }

  lemma {:induction false} RoundsNotNegative(n: nat, most: int)
    requires most >= 0
    ensures Rounds(n, most) >= 0
  {
    if n > 0 {
      RoundsNotNegative(n - 1, most);
    }
  }

  lemma LeftIsBounded(p: Policy, w: World, from: real, k: nat)
    requires Sensible(p) && Counted(w.account) && |w.open| <= k
    ensures 0 <= Left(p, w, from, k) <= Rounds(|Older(w.open, from)| + 1, MostNeeded(p) + k - 1)
  {
    NewerAreOpen(w.open, from, from + p.minutes);
    NeededIsBounded(p, w.account, from);
    RoundsNotNegative(|Older(w.open, from)|, MostNeeded(p) + k - 1);
  }

  lemma {:induction false} GuessesAreLeft(p: Policy, w: World, moves: seq<Move>, from: real, k: nat)
    requires Sensible(p) && Counted(w.account) && BegunBefore(w.open, from + p.minutes)
    requires InSpan(p, w, moves, from, k)
    ensures Guesses(p, w, moves) <= Left(p, w, from, k)
    decreases |moves|
  {
    if moves == [] {
      LeftIsBounded(p, w, from, k);
    } else {
      var m := moves[0];
      if m.Begin? && m.id !in w.open && !m.event.Reset? {
        BeginUsesGuesses(p, w, m, from, k);
      } else if m.Finish? && m.id in w.open {
        FinishUsesGuesses(p, w, m, from, k);
      }
      GuessesAreLeft(p, Next(p, w, m), moves[1..], from, k);
    }
  }

  lemma {:induction false} EveryRunIsCounted(p: Policy, w: World, moves: seq<Move>, end: real)
    requires Sensible(p) && Counted(w.account) && BegunBefore(w.open, end)
    requires forall i :: 0 <= i < |moves| && moves[i].Begin? ==> moves[i].event.now < end
    ensures Counted(RunAll(p, w, moves).account) && BegunBefore(RunAll(p, w, moves).open, end)
    decreases |moves|
  {
    if moves != [] {
      EveryRunIsCounted(p, Next(p, w, moves[0]), moves[1..], end);
    }
  }

  /** Whatever came before, in a span as long as the lockout, without a success or a reset and
      with at most `k` attempts open at a time: at most max(N, 2N - 2) + k - 1 guesses, and that
      many again for each older attempt still open at its start that fails in it. For one
      attempt at a time this is the serial bound. */
  lemma FewGuessesAtATime(p: Policy, past: seq<Move>, span: seq<Move>, from: real, k: nat)
    requires Sensible(p)
    requires forall i :: 0 <= i < |past| && past[i].Begin? ==> past[i].event.now < from + p.minutes
    requires InSpan(p, RunAll(p, World(CLEAR, map[]), past), span, from, k)
    ensures var w := RunAll(p, World(CLEAR, map[]), past);
            Guesses(p, w, span) <= (|Older(w.open, from)| + 1) * (MostNeeded(p) + k - 1)
  {
    var start := World(CLEAR, map[]);
    EveryRunIsCounted(p, start, past, from + p.minutes);
    var w := RunAll(p, start, past);
    GuessesAreLeft(p, w, span, from, k);
    LeftIsBounded(p, w, from, k);
    RoundsIsProduct(|Older(w.open, from)| + 1, MostNeeded(p) + k - 1);
  }

  // ---------------------------------------------------------------------
  // No bound in N alone
  // ---------------------------------------------------------------------

  function Together(first: nat, n: nat): seq<Move>
    decreases n
  {
    if n == 0 then [] else [Begin(first, SignIn(0.0, false, true))] + Together(first + 1, n - 1)
  }

  lemma {:induction false} TogetherAreJudged(p: Policy, w: World, first: nat, n: nat)
    requires Sensible(p) && w.account == CLEAR && |w.open| == first && forall id :: id in w.open ==> id < first
    ensures Guesses(p, w, Together(first, n)) == n && InSpan(p, w, Together(first, n), 0.0, first + n)
    decreases n
  {
    if n > 0 {
      var moves := Together(first, n);
      var w' := Next(p, w, moves[0]);
      hide Next;
      assert moves[1..] == Together(first + 1, n - 1) && moves[0] == Begin(first, SignIn(0.0, false, true));
      OneMoreOpen(p, w, first);
      TogetherAreJudged(p, w', first + 1, n - 1);
    }
  }

  lemma OneMoreOpen(p: Policy, w: World, first: nat)
    requires |w.open| == first && forall id :: id in w.open ==> id < first
    ensures var w' := Next(p, w, Begin(first, SignIn(0.0, false, true)));
            w'.account == w.account && |w'.open| == first + 1 && forall id :: id in w'.open ==> id < first + 1
  {
    var w' := Next(p, w, Begin(first, SignIn(0.0, false, true)));
    assert w'.open.Keys == w.open.Keys + {first};
  }

  /** Any number of wrong passwords that begin together are all judged, whatever the limit.
      For a limit of one this reaches the bound. */
  lemma OverlapBeatsTheLimit(p: Policy, k: nat)
    requires Sensible(p)
    ensures var w, span := World(CLEAR, map[]), Together(0, k);
            InSpan(p, w, span, 0.0, k) && Guesses(p, w, span) == k && Older(w.open, 0.0) == {}
  {
    TogetherAreJudged(p, World(CLEAR, map[]), 0, k);
  }
}
