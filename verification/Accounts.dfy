/**
 * Sign-in with lockout after repeated wrong passwords, and password changes.
 *
 * Times are in minutes. Checking a password against its hash is a parameter of
 * each event: it was right or it was wrong.
 */
module Accounts {
  import opened Common

  /** LOGIN_MAX_FAILURES and LOGIN_LOCKOUT_MINUTES. */
  datatype Policy = Policy(maxFailures: nat, minutes: real)

  predicate Sensible(p: Policy) {
    p.maxFailures > 0 && p.minutes > 0.0
  }

  datatype Lockout = Lockout(failed: nat, firstFailed: Option<real>, lockedUntil: Option<real>)

  const CLEAR := Lockout(0, None, None)

  predicate Locked(s: Lockout, now: real) {
    s.lockedUntil.Some? && s.lockedUntil.value > now
  }

  /** The counting window opened by the first failure is still running. */
  predicate Counting(p: Policy, s: Lockout, now: real) {
    s.firstFailed.Some? && s.firstFailed.value > now - p.minutes
  }

  function RecordFailure(p: Policy, s: Lockout, now: real): Lockout {
    var counted := if Counting(p, s, now) then s.(failed := s.failed + 1)
                   else s.(failed := 1, firstFailed := Some(now));
    if counted.failed >= p.maxFailures then counted.(lockedUntil := Some(now + p.minutes)) else counted
  }

  /** What can happen to one account. `eligible`: the user is active and a member. */
  datatype Event =
    | SignIn(now: real, right: bool, eligible: bool)
    | ChangePassword(now: real, right: bool)
    | Reset(now: real)

  predicate Succeeds(s: Lockout, e: Event) {
    match e
    case SignIn(now, right, eligible) => right && eligible && !Locked(s, now)
    case ChangePassword(_, right) => right
    case Reset(_) => true
  }

  function Step(p: Policy, s: Lockout, e: Event): Lockout {
    if Succeeds(s, e) then CLEAR
    else if (e.SignIn? || e.ChangePassword?) && !e.right then RecordFailure(p, s, e.now)
    else s
  }

  function Run(p: Policy, s: Lockout, events: seq<Event>): Lockout
    decreases |events|
  {
    if events == [] then s else Run(p, Step(p, s, events[0]), events[1..])
  }

  predicate InOrder(events: seq<Event>) {
    forall i, j :: 0 <= i < j < |events| ==> events[i].now <= events[j].now
  }

  /** What every run keeps: the count is open with its window, and a count that has reached
      the limit belongs to an account locked until that window is over. */
  predicate Inv(p: Policy, s: Lockout) {
    && (s.failed > 0 <==> s.firstFailed.Some?)
    && (s.failed >= p.maxFailures ==>
          s.lockedUntil.Some? && s.firstFailed.Some?
          && s.lockedUntil.value >= s.firstFailed.value + p.minutes)
  }

  lemma StepKeepsInv(p: Policy, s: Lockout, e: Event)
    requires Sensible(p) && Inv(p, s)
    requires s.firstFailed.Some? ==> s.firstFailed.value <= e.now
    ensures Inv(p, Step(p, s, e))
    ensures Step(p, s, e).firstFailed.Some? ==> Step(p, s, e).firstFailed.value <= e.now
  {
  }

  lemma {:induction false} RunKeepsInv(p: Policy, s: Lockout, events: seq<Event>)
    requires Sensible(p) && Inv(p, s) && InOrder(events)
    requires events != [] && s.firstFailed.Some? ==> s.firstFailed.value <= events[0].now
    ensures Inv(p, Run(p, s, events))
    decreases |events|
  {
    if events != [] {
      StepKeepsInv(p, s, events[0]);
      RunKeepsInv(p, Step(p, s, events[0]), events[1..]);
    }
  }

  /** An unlocked account has fewer than the limit of counted failures, or a counting
      window that is over: failures made while it was locked cannot undo this. */
  lemma UnlockedHasRoom(p: Policy, s: Lockout, now: real)
    requires Sensible(p) && Inv(p, s) && !Locked(s, now)
    ensures s.failed < p.maxFailures || !Counting(p, s, now)
  {
  }

  /** Wrong sign-in passwords, one after the other. */
  predicate AllWrong(events: seq<Event>) {
    forall i :: 0 <= i < |events| ==> events[i].SignIn? && !events[i].right
  }

  lemma {:induction false} RunNext(p: Policy, s: Lockout, events: seq<Event>)
    requires events != []
    ensures Run(p, s, events) == Step(p, Run(p, s, events[..|events| - 1]), events[|events| - 1])
    decreases |events|
  {
    if |events| > 1 {
      RunNext(p, Step(p, s, events[0]), events[1..]);
      assert events[1..][..|events| - 2] == events[..|events| - 1][1..];
    } else {
      assert events[1..] == [] && events[..0] == [];
    }
  }

  /** When the window that counts a failure at this time was opened, and what it has counted. */
  function WindowStart(p: Policy, s: Lockout, now: real): real {
    if Counting(p, s, now) then s.firstFailed.value else now
  }

  function CountedBefore(p: Policy, s: Lockout, now: real): nat {
    if Counting(p, s, now) then s.failed else 0
  }

  /** From any state: wrong passwords within the counting window are all counted, and the one
      that reaches the limit locks the account for the full time; so does each one after it. */
  lemma {:induction false} LimitLocks(p: Policy, s: Lockout, events: seq<Event>)
    requires Sensible(p) && InOrder(events) && AllWrong(events) && events != []
    requires events[|events| - 1].now < WindowStart(p, s, events[0].now) + p.minutes
    ensures var counted := CountedBefore(p, s, events[0].now) + |events|;
            Run(p, s, events) == Lockout(counted, Some(WindowStart(p, s, events[0].now)),
              if counted >= p.maxFailures then Some(events[|events| - 1].now + p.minutes) else s.lockedUntil)
    decreases |events|
  {
    RunNext(p, s, events);
    if |events| > 1 {
      LimitLocks(p, s, events[..|events| - 1]);
    } else {
      assert events[..0] == [];
    }
  }

  /** While the lock lasts no password signs in, right or wrong; from its end on a right one of
      an eligible user does, and clears the account. */
  lemma LockHolds(p: Policy, s: Lockout, events: seq<Event>, now: real, right: bool, eligible: bool)
    requires Sensible(p) && InOrder(events) && AllWrong(events) && events != []
    requires events[|events| - 1].now < WindowStart(p, s, events[0].now) + p.minutes
    requires CountedBefore(p, s, events[0].now) + |events| >= p.maxFailures
    ensures var locked, e := Run(p, s, events), SignIn(now, right, eligible);
      && (Succeeds(locked, e) <==> right && eligible && now >= events[|events| - 1].now + p.minutes)
      && (Succeeds(locked, e) ==> Step(p, locked, e) == CLEAR)
  {
    LimitLocks(p, s, events);
  }

  /** A signed-in user's right password changes it even while the account is locked, and
      clears the lock; a wrong one counts like a wrong sign-in. */
  lemma PasswordChangeIsNotLocked(p: Policy, s: Lockout, now: real)
    ensures Step(p, s, ChangePassword(now, true)) == CLEAR
    ensures Step(p, s, ChangePassword(now, false)) == Step(p, s, SignIn(now, false, true))
    ensures Step(p, s, SignIn(now, true, false)) == s
  {
  }

  // ---------------------------------------------------------------------
  // Guessing: how many wrong passwords can be tried on an unlocked account
  // ---------------------------------------------------------------------

  /** A wrong sign-in password that is judged, not refused by the lock. */
  predicate Guess(s: Lockout, e: Event) {
    e.SignIn? && !e.right && !Locked(s, e.now)
  }

  function Guesses(p: Policy, s: Lockout, events: seq<Event>): nat
    decreases |events|
  {
    if events == [] then 0
    else (if Guess(s, events[0]) then 1 else 0) + Guesses(p, Step(p, s, events[0]), events[1..])
  }

  predicate NoneSucceeds(p: Policy, s: Lockout, events: seq<Event>)
    decreases |events|
  {
    events == [] || (!Succeeds(s, events[0]) && NoneSucceeds(p, Step(p, s, events[0]), events[1..]))
  }

  /** An upper bound for the guesses left before `end`, in a span that began a lockout's
      length earlier. */
  function GuessesLeft(p: Policy, s: Lockout, end: real): int {
    if s.lockedUntil.Some? && s.lockedUntil.value >= end then 0
    else if s.firstFailed.None? then p.maxFailures
    else if s.firstFailed.value >= end - p.minutes then p.maxFailures - s.failed
    else p.maxFailures + Max(0, p.maxFailures - 1 - s.failed)
  }

  lemma StepUsesGuesses(p: Policy, s: Lockout, e: Event, end: real)
    requires Sensible(p) && Inv(p, s) && !Succeeds(s, e)
    requires s.firstFailed.Some? ==> s.firstFailed.value <= e.now
    requires end - p.minutes <= e.now < end
    ensures GuessesLeft(p, s, end) >= GuessesLeft(p, Step(p, s, e), end) + (if Guess(s, e) then 1 else 0)
  {
  }

  lemma GuessesLeftNotNegative(p: Policy, s: Lockout, end: real)
    requires Sensible(p) && Inv(p, s)
    ensures 0 <= GuessesLeft(p, s, end) <= Max(p.maxFailures, 2 * p.maxFailures - 2)
  {
  }

  lemma {:induction false} GuessesAreLeft(p: Policy, s: Lockout, events: seq<Event>, end: real)
    requires Sensible(p) && Inv(p, s) && InOrder(events) && NoneSucceeds(p, s, events)
    requires events != [] && s.firstFailed.Some? ==> s.firstFailed.value <= events[0].now
    requires forall i :: 0 <= i < |events| ==> end - p.minutes <= events[i].now < end
    ensures Guesses(p, s, events) <= GuessesLeft(p, s, end)
    decreases |events|
  {
    if events == [] {
      GuessesLeftNotNegative(p, s, end);
    } else {
      StepKeepsInv(p, s, events[0]);
      StepUsesGuesses(p, s, events[0], end);
      GuessesAreLeft(p, Step(p, s, events[0]), events[1..], end);
    }
  }

  /** Whatever came before, in a span as long as the lockout without a success or a reset
      at most max(N, 2N - 2) wrong passwords are judged while the account is unlocked. */
  lemma FewGuessesInAnySpan(p: Policy, past: seq<Event>, span: seq<Event>, from: real)
    requires Sensible(p) && InOrder(past + span)
    requires forall i :: 0 <= i < |span| ==> from <= span[i].now < from + p.minutes
    requires NoneSucceeds(p, Run(p, CLEAR, past), span)
    ensures Guesses(p, Run(p, CLEAR, past), span) <= Max(p.maxFailures, 2 * p.maxFailures - 2)
  {
    var s := Run(p, CLEAR, past);
    assert forall i :: 0 <= i < |past| ==> (past + span)[i] == past[i];
    assert forall i :: 0 <= i < |span| ==> (past + span)[|past| + i] == span[i];
    RunKeepsInv(p, CLEAR, past);
    FirstFailureIsPast(p, CLEAR, past);
    GuessesAreLeft(p, s, span, from + p.minutes);
    GuessesLeftNotNegative(p, s, from + p.minutes);
  }

  lemma {:induction false} FirstFailureIsPast(p: Policy, s: Lockout, events: seq<Event>)
    requires InOrder(events)
    requires events != [] && s.firstFailed.Some? ==> s.firstFailed.value <= events[0].now
    ensures Run(p, s, events).firstFailed.Some? ==>
              if events == [] then Run(p, s, events) == s
              else Run(p, s, events).firstFailed.value <= events[|events| - 1].now
    decreases |events|
  {
    if events != [] {
      FirstFailureIsPast(p, Step(p, s, events[0]), events[1..]);
    }
  }

  // ---------------------------------------------------------------------
  // The bound is reached.
  // ---------------------------------------------------------------------

  function WrongAt(now: real, n: nat): seq<Event> {
    seq(n, _ => SignIn(now, false, true))
  }

  /** `n` wrong passwords at one moment, all before the limit, are all judged. */
  lemma {:induction false} WrongBelowLimit(p: Policy, s: Lockout, now: real, n: nat)
    requires Sensible(p) && !Locked(s, now) && Counting(p, s, now) && s.failed + n < p.maxFailures
    ensures Run(p, s, WrongAt(now, n)) == s.(failed := s.failed + n)
    ensures Guesses(p, s, WrongAt(now, n)) == n && NoneSucceeds(p, s, WrongAt(now, n))
    decreases n
  {
    if n > 0 {
      assert WrongAt(now, n)[1..] == WrongAt(now, n - 1);
      WrongBelowLimit(p, s.(failed := s.failed + 1), now, n - 1);
    }
  }

  lemma {:induction false} GuessesAppend(p: Policy, s: Lockout, a: seq<Event>, b: seq<Event>)
    ensures Run(p, s, a + b) == Run(p, Run(p, s, a), b)
    ensures Guesses(p, s, a + b) == Guesses(p, s, a) + Guesses(p, Run(p, s, a), b)
    ensures NoneSucceeds(p, s, a + b) <==> NoneSucceeds(p, s, a) && NoneSucceeds(p, Run(p, s, a), b)
    decreases |a|
  {
    if a == [] {
      assert a + b == b;
    } else {
      GuessesAppend(p, Step(p, s, a[0]), a[1..], b);
      assert (a + b)[1..] == a[1..] + b;
    }
  }

  /** One failure just before the span, N - 2 in the old counting window, and N in a new one. */
  lemma BoundIsReached(p: Policy)
    requires Sensible(p) && p.maxFailures >= 2
    ensures var past := WrongAt(0.0, 1);
            var span := WrongAt(p.minutes / 2.0, p.maxFailures - 2) + WrongAt(p.minutes, p.maxFailures);
            && (forall i :: 0 <= i < |span| ==> p.minutes / 4.0 <= span[i].now < p.minutes / 4.0 + p.minutes)
            && NoneSucceeds(p, Run(p, CLEAR, past), span)
            && Guesses(p, Run(p, CLEAR, past), span) == 2 * p.maxFailures - 2
  {
    var n, half := p.maxFailures, p.minutes / 2.0;
    var s1 := Lockout(1, Some(0.0), None);
    assert WrongAt(0.0, 1) == [SignIn(0.0, false, true)];
    assert Run(p, CLEAR, WrongAt(0.0, 1)) == Run(p, s1, WrongAt(0.0, 1)[1..]) == s1;
    WrongBelowLimit(p, s1, half, n - 2);
    var s2 := s1.(failed := n - 1);
    var s3 := Lockout(1, Some(p.minutes), None);
    var last := WrongAt(p.minutes, n);
    assert Step(p, s2, last[0]) == s3;
    assert last[1..] == WrongAt(p.minutes, n - 2) + WrongAt(p.minutes, 1);
    WrongBelowLimit(p, s3, p.minutes, n - 2);
    GuessesAppend(p, s3, WrongAt(p.minutes, n - 2), WrongAt(p.minutes, 1));
    var s4 := s3.(failed := n - 1);
    assert Guesses(p, s4, WrongAt(p.minutes, 1)) == 1 && NoneSucceeds(p, s4, WrongAt(p.minutes, 1)) by {
      assert WrongAt(p.minutes, 1)[1..] == [];
    }
    GuessesAppend(p, s1, WrongAt(half, n - 2), last);
  }

  // ---------------------------------------------------------------------
  // The account as the program updates it, with its sessions
  // ---------------------------------------------------------------------

  class Account {
    const policy: Policy
    var failed: nat
    var firstFailed: Option<real>
    var lockedUntil: Option<real>
    /** Live sessions by token; `revoked_at` removes one. */
    var sessions: set<string>

    function State(): Lockout
      reads this
    {
      Lockout(failed, firstFailed, lockedUntil)
    }

    constructor (policy: Policy)
      ensures this.policy == policy && State() == CLEAR && sessions == {}
    {
      this.policy, failed, firstFailed, lockedUntil, sessions := policy, 0, None, None, {};
    }

    method Clear()
      modifies this`failed, this`firstFailed, this`lockedUntil
      ensures State() == CLEAR
    {
      failed, firstFailed, lockedUntil := 0, None, None;
    }

    method CountFailure(now: real)
      modifies this`failed, this`firstFailed, this`lockedUntil
      ensures State() == RecordFailure(policy, old(State()), now)
    {
      if firstFailed.Some? && firstFailed.value > now - policy.minutes {
        failed := failed + 1;
      } else {
        failed, firstFailed := 1, Some(now);
      }
      if failed >= policy.maxFailures {
        lockedUntil := Some(now + policy.minutes);
      }
    }

    /** Wrong password, ineligible user and locked account all give no session. */
    method Login(now: real, right: bool, eligible: bool, token: string) returns (ok: bool)
      modifies this
      ensures ok == Succeeds(old(State()), SignIn(now, right, eligible))
      ensures State() == Step(policy, old(State()), SignIn(now, right, eligible))
      ensures sessions == old(sessions) + if ok then {token} else {}
    {
      var locked := lockedUntil.Some? && lockedUntil.value > now;
      if !right {
        CountFailure(now);
      }
      if !(right && eligible) || locked {
        return false;
      }
      Clear();
      sessions := sessions + {token};
      return true;
    }

    /** A new hash, the lockout cleared, and every session ended except the one kept. */
    method SetPassword(keep: Option<string>)
      modifies this
      ensures State() == CLEAR
      ensures sessions == if keep.Some? then old(sessions) * {keep.value} else {}
    {
      Clear();
      sessions := if keep.Some? then sessions * {keep.value} else {};
    }

    method ChangeOwnPassword(now: real, right: bool, token: string) returns (ok: bool)
      modifies this
      ensures ok == right
      ensures State() == Step(policy, old(State()), ChangePassword(now, right))
      ensures sessions == if ok then old(sessions) * {token} else old(sessions)
    {
      if !right {
        CountFailure(now);
        return false;
      }
      SetPassword(Some(token));
      return true;
    }
  }
}
