/**
 * The sliding-window rate limiter: a deque of recent hits for each client and
 * scope, in an ordered map bounded by evicting the least recently used.
 */
module RateLimit {
  import opened Common

  datatype Key = Key(client: string, scope: string)

  const MAX_TRACKED_CLIENTS := 4096

  /** The ordered map: `order` is its key order, oldest use first. */
  datatype Limiter = Limiter(order: seq<Key>, hits: map<Key, seq<real>>)

  const EMPTY := Limiter([], map[])

  datatype Answer = Answer(allowed: bool, retryAfter: real)

  function IsNot(key: Key): Key -> bool {
    k => k != key
  }

  function Without(order: seq<Key>, key: Key): seq<Key> {
    Filter(IsNot(key), order)
  }

  lemma WithoutSnoc(order: seq<Key>, last: Key, key: Key)
    ensures Without(order + [last], key) == if last == key then Without(order, key) else Without(order, key) + [last]
  {
    FilterSnoc(IsNot(key), order, last);
  }

  /** How many hits, from `from` on, are at or before the cutoff: they leave from the front. */
  function Expired(hits: seq<real>, cutoff: real, from: nat): (n: nat)
    requires from <= |hits|
    ensures from <= n <= |hits|
    ensures forall i :: from <= i < n ==> hits[i] <= cutoff
    ensures n < |hits| ==> hits[n] > cutoff
    decreases |hits| - from
  {
    if from < |hits| && hits[from] <= cutoff then Expired(hits, cutoff, from + 1) else from
  }

  function Recent(hits: seq<real>, cutoff: real): seq<real> {
    hits[Expired(hits, cutoff, 0)..]
  }

  function Hits(l: Limiter, key: Key): seq<real> {
    if key in l.hits then l.hits[key] else []
  }

  function Newest(order: seq<Key>, n: nat): seq<Key> {
    order[|order| - Min(n, |order|)..]
  }

  /** The map without its `n` least recently used buckets. */
  function DropOldest(l: Limiter, n: nat): Limiter
    requires n <= |l.order|
  {
    Limiter(l.order[n..], map k | k in l.hits && k !in l.order[..n] :: l.hits[k])
  }

  function Evict(l: Limiter, cap: nat): Limiter {
    DropOldest(l, |l.order| - Min(cap, |l.order|))
  }

  /** The answer depends only on the key's recent hits. */
  function Answered(recent: seq<real>, budget: int, window: real, now: real): Answer {
    if recent == [] || |recent| < budget then Answer(true, 0.0)
    else
      var wait := recent[0] + window - now;
      Answer(false, if wait > 0.0 then wait else 0.0)
  }

  function Decide(l: Limiter, key: Key, budget: int, window: real, now: real): Answer {
    if budget <= 0 then Answer(true, 0.0)
    else Answered(Recent(Hits(l, key), now - window), budget, window, now)
  }

  /** The key moves to the end of the order; its bucket gets the hit, if it is allowed. */
  function Use(l: Limiter, key: Key, hits: seq<real>): Limiter {
    Limiter(Without(l.order, key) + [key], l.hits[key := hits])
  }

  function After(l: Limiter, key: Key, budget: int, window: real, now: real): Limiter {
    if budget <= 0 then l
    else
      var recent := Recent(Hits(l, key), now - window);
      if |recent| >= budget then Use(l, key, recent)
      else Evict(Use(l, key, recent + [now]), MAX_TRACKED_CLIENTS)
  }

  // ---------------------------------------------------------------------
  // Well-formedness: the order lists exactly the keys, once each, at most
  // 4096 of them.
  // ---------------------------------------------------------------------

  predicate NoRepeats(order: seq<Key>) {
    forall i, j :: 0 <= i < j < |order| ==> order[i] != order[j]
  }

  ghost predicate Tracks(l: Limiter) {
    NoRepeats(l.order) && forall k :: k in l.hits <==> k in l.order
  }

  ghost predicate Bounded(l: Limiter) {
    Tracks(l) && |l.order| <= MAX_TRACKED_CLIENTS
  }

  lemma {:induction false} WithoutKeepsOrder(order: seq<Key>, key: Key)
    requires NoRepeats(order)
    ensures NoRepeats(Without(order, key))
    ensures forall k :: k in Without(order, key) <==> k in order && k != key
    ensures key in order ==> |Without(order, key)| == |order| - 1
    ensures key !in order ==> Without(order, key) == order
  {
    if order != [] {
      var front, last := order[..|order| - 1], order[|order| - 1];
      WithoutKeepsOrder(front, key);
      assert order == front + [last];
      WithoutSnoc(front, last, key);
      assert last !in front;
    }
  }

  lemma EvictTracks(l: Limiter, cap: nat)
    requires Tracks(l)
    ensures Tracks(Evict(l, cap)) && |Evict(l, cap).order| <= cap
  {
    var n := |l.order| - Min(cap, |l.order|);
    var r := Evict(l, cap);
    forall k ensures k in r.hits <==> k in r.order {
      if k in r.order {
        var j :| n <= j < |l.order| && l.order[j] == k;
        assert k !in l.order[..n];
      } else if k in l.order {
        assert l.order == l.order[..n] + r.order;
        assert k in l.order[..n];
      }
    }
  }

  lemma EvictSparesNewest(l: Limiter, cap: nat)
    requires Tracks(l) && l.order != [] && cap > 0
    ensures var last := l.order[|l.order| - 1];
            var r := Evict(l, cap);
            && r.order != [] && r.order[|r.order| - 1] == last
            && last in r.hits && last in l.hits && r.hits[last] == l.hits[last]
  {
    EvictTracks(l, cap);
    var r := Evict(l, cap);
    assert r.order[|r.order| - 1] == l.order[|l.order| - 1];
    assert r.order[|r.order| - 1] in r.order;
  }

  /** Moving a key to the end, whether or not it was there. */
  lemma UseKeepsTracks(l: Limiter, key: Key, hits: seq<real>)
    requires Tracks(l)
    ensures var l' := Use(l, key, hits);
            Tracks(l') && |l'.order| == |l.order| + (if key in l.order then 0 else 1)
  {
    WithoutKeepsOrder(l.order, key);
  }

  /** At most 4096 buckets remain, and the key checked is the newest of them. */
  lemma CheckKeepsBound(l: Limiter, key: Key, budget: int, window: real, now: real)
    requires Bounded(l) && budget > 0
    ensures var l' := After(l, key, budget, window, now);
            Bounded(l') && l'.order != [] && l'.order[|l'.order| - 1] == key
  {
    hide Without, Expired, NoRepeats, DropOldest, Evict;
    var recent := Recent(Hits(l, key), now - window);
    if |recent| >= budget {
      UseKeepsTracks(l, key, recent);
      assert key in l.order;
    } else {
      UseKeepsTracks(l, key, recent + [now]);
      EvictTracks(Use(l, key, recent + [now]), MAX_TRACKED_CLIENTS);
      EvictSparesNewest(Use(l, key, recent + [now]), MAX_TRACKED_CLIENTS);
    }
  }

  /** Other keys keep their hits or are evicted. */
  lemma CheckKeepsOthers(l: Limiter, key: Key, budget: int, window: real, now: real, other: Key)
    requires budget > 0 && other != key && other in After(l, key, budget, window, now).hits
    ensures other in l.hits && After(l, key, budget, window, now).hits[other] == l.hits[other]
  {
  }

  // ---------------------------------------------------------------------
  // Runs: a clock that does not go back, one budget for each key.
  // ---------------------------------------------------------------------

  datatype Request = Request(key: Key, now: real)

  datatype Rules = Rules(budget: Key -> int, window: real)

  function Run(rules: Rules, trace: seq<Request>): Limiter {
    if trace == [] then EMPTY
    else
      var r := trace[|trace| - 1];
      After(Run(rules, trace[..|trace| - 1]), r.key, rules.budget(r.key), rules.window, r.now)
  }

  predicate Allows(rules: Rules, trace: seq<Request>, r: Request) {
    Decide(Run(rules, trace), r.key, rules.budget(r.key), rules.window, r.now).allowed
  }

  /** The times of a key's allowed requests. */
  function Granted(rules: Rules, trace: seq<Request>, key: Key): seq<real> {
    if trace == [] then []
    else
      var front, r := trace[..|trace| - 1], trace[|trace| - 1];
      Granted(rules, front, key) + (if r.key == key && Allows(rules, front, r) then [r.now] else [])
  }

  predicate ClockRuns(trace: seq<Request>) {
    forall i, j :: 0 <= i < j < |trace| ==> trace[i].now <= trace[j].now
  }

  /** The tracked keys that were checked, each at the place of its last check. */
  function Recency(rules: Rules, trace: seq<Request>): seq<Key> {
    if trace == [] then []
    else
      var before := Recency(rules, trace[..|trace| - 1]);
      var key := trace[|trace| - 1].key;
      if rules.budget(key) <= 0 then before else Without(before, key) + [key]
  }

  lemma WithoutAppend(a: seq<Key>, b: seq<Key>, key: Key)
    ensures Without(a + b, key) == Without(a, key) + Without(b, key)
  {
    FilterAppend(IsNot(key), a, b);
  }

  lemma NewestOfAppend(a: seq<Key>, b: seq<Key>, cap: nat)
    requires |b| >= cap || a == []
    ensures Newest(a + b, cap) == Newest(b, cap)
  {
  }

  lemma NewestNoRepeats(order: seq<Key>, cap: nat)
    requires NoRepeats(order)
    ensures NoRepeats(Newest(order, cap))
  {
  }

  lemma NewestAfterUse(order: seq<Key>, key: Key, cap: nat)
    requires NoRepeats(order)
    ensures Newest(Without(order, key) + [key], cap) == Newest(Without(Newest(order, cap), key) + [key], cap)
  {
    hide NoRepeats, Without;
    var n := |order| - Min(cap, |order|);
    var rest, newest := order[..n], Newest(order, cap);
    assert order == rest + newest;
    NewestNoRepeats(order, cap);
    WithoutKeepsOrder(newest, key);
    WithoutAppend(rest, newest, key);
    assert Without(order, key) + [key] == Without(rest, key) + (Without(newest, key) + [key]);
    if n == 0 {
      WithoutNone(key);
    }
    NewestOfAppend(Without(rest, key), Without(newest, key) + [key], cap);
  }

  lemma WithoutNone(key: Key)
    ensures Without([], key) == []
  {
    FilterNone(IsNot(key));
  }

  lemma NoBudgetNoChange(l: Limiter, key: Key, budget: int, window: real, now: real)
    requires budget <= 0
    ensures After(l, key, budget, window, now) == l
  {
  }

  lemma AfterOrder(l: Limiter, key: Key, budget: int, window: real, now: real)
    requires Bounded(l) && budget > 0
    ensures After(l, key, budget, window, now).order == Newest(Without(l.order, key) + [key], MAX_TRACKED_CLIENTS)
  {
    var recent := Recent(Hits(l, key), now - window);
    UseKeepsTracks(l, key, recent);
    assert |recent| >= budget ==> key in l.order;
  }

  /** Buckets are evicted in least-recently-checked order: the limiter tracks exactly
      the 4096 keys that were checked last. */
  lemma {:induction false} TracksNewestKeys(rules: Rules, trace: seq<Request>)
    ensures Bounded(Run(rules, trace)) && NoRepeats(Recency(rules, trace))
    ensures Run(rules, trace).order == Newest(Recency(rules, trace), 4096)
  {
    hide After, Without;
    if trace != [] {
      var front, r := trace[..|trace| - 1], trace[|trace| - 1];
      TracksNewestKeys(rules, front);
      var l := Run(rules, front);
      var before := Recency(rules, front);
      if rules.budget(r.key) > 0 {
        CheckKeepsBound(l, r.key, rules.budget(r.key), rules.window, r.now);
        AfterOrder(l, r.key, rules.budget(r.key), rules.window, r.now);
        NewestAfterUse(before, r.key, MAX_TRACKED_CLIENTS);
        WithoutKeepsOrder(before, r.key);
      } else {
        NoBudgetNoChange(l, r.key, rules.budget(r.key), rules.window, r.now);
      }
    }
  }

  /** From its first check on, the key was always among the newest. */
  predicate NeverEvicted(rules: Rules, trace: seq<Request>, key: Key) {
    forall n :: 0 <= n <= |trace| && key in Recency(rules, trace[..n]) ==>
      key in Newest(Recency(rules, trace[..n]), MAX_TRACKED_CLIENTS)
  }

  predicate Ascending(s: seq<real>) {
    forall i, j :: 0 <= i < j < |s| ==> s[i] <= s[j]
  }

  /** At time `now` the bucket holds the newest grants, and those that are no longer in it
      are older than the window. */
  ghost predicate BucketTrue(granted: seq<real>, hits: seq<real>, budget: int, window: real, now: real) {
    && Ascending(granted)
    && |hits| <= |granted| && hits == granted[|granted| - |hits|..]
    && |hits| <= budget
    && (forall i :: 0 <= i < |granted| ==> granted[i] <= now)
    && (forall i :: 0 <= i < |granted| - |hits| ==> granted[i] <= now - window)
  }

  /** Any `budget + 1` grants in a row take at least a window. */
  predicate Spaced(granted: seq<real>, budget: nat, window: real) {
    forall j :: budget <= j < |granted| ==> granted[j - budget] + window <= granted[j]
  }

  /** Whatever is not in the bucket, or leaves it now, is at or before the cutoff. */
  lemma RecentIsSuffix(granted: seq<real>, hits: seq<real>, budget: int, window: real, now: real)
    requires BucketTrue(granted, hits, budget, window, now)
    ensures var recent := Recent(hits, now - window);
            var n := |granted| - |recent|;
            && n >= 0 && recent == granted[n..] && |recent| <= budget
            && (forall i :: 0 <= i < n ==> granted[i] <= now - window)
            && (forall i :: n <= i < |granted| ==> granted[i] > now - window)
  {
    var recent := Recent(hits, now - window);
    var n, m := |granted| - |recent|, |granted| - |hits|;
    forall i | m <= i < n ensures granted[i] <= now - window {
      assert granted[i] == hits[i - m];
    }
    forall i | n <= i < |granted| ensures granted[i] > now - window {
      assert granted[n] == hits[n - m] == recent[0] && granted[n] <= granted[i];
    }
  }

  /** A check that grants nothing: the bucket only loses what is too old. */
  lemma RefusalKeepsTruth(granted: seq<real>, hits: seq<real>, budget: nat, window: real, now: real)
    requires BucketTrue(granted, hits, budget, window, now)
    ensures BucketTrue(granted, Recent(hits, now - window), budget, window, now)
  {
    RecentIsSuffix(granted, hits, budget, window, now);
  }

  lemma GrantKeepsTruth(granted: seq<real>, hits: seq<real>, budget: nat, window: real, now: real)
    requires BucketTrue(granted, hits, budget, window, now) && Spaced(granted, budget, window)
    requires |Recent(hits, now - window)| < budget
    ensures BucketTrue(granted + [now], Recent(hits, now - window) + [now], budget, window, now)
    ensures Spaced(granted + [now], budget, window)
  {
    hide Expired;
    RecentIsSuffix(granted, hits, budget, window, now);
    var g, r := granted + [now], Recent(hits, now - window) + [now];
    assert r == g[|g| - |r|..];
  }

  lemma {:induction false} GrantedMeansSeen(rules: Rules, trace: seq<Request>, key: Key)
    requires rules.budget(key) > 0
    ensures Granted(rules, trace, key) != [] ==> key in Recency(rules, trace)
    ensures key in Run(rules, trace).hits ==> key in Recency(rules, trace)
  {
    TracksNewestKeys(rules, trace);
    if trace != [] {
      var front, r := trace[..|trace| - 1], trace[|trace| - 1];
      GrantedMeansSeen(rules, front, key);
      TracksNewestKeys(rules, front);
      if rules.budget(r.key) > 0 {
        WithoutKeepsOrder(Recency(rules, front), r.key);
      }
    }
  }

  /** A check of another key leaves this key's bucket alone, unless it evicts it. */
  lemma OtherCheck(rules: Rules, front: seq<Request>, r: Request, key: Key)
    requires rules.budget(key) > 0 && r.key != key
    requires NeverEvicted(rules, front + [r], key)
    ensures Hits(Run(rules, front + [r]), key) == Hits(Run(rules, front), key)
  {
    var trace := front + [r];
    assert trace[..|front|] == front && trace[..|trace|] == trace;
    TracksNewestKeys(rules, front);
    TracksNewestKeys(rules, trace);
    GrantedMeansSeen(rules, front, key);
    GrantedMeansSeen(rules, trace, key);
    var before := Recency(rules, front);
    if rules.budget(r.key) > 0 {
      WithoutKeepsOrder(before, r.key);
      if key in before {
        assert key in Recency(rules, trace);
        assert key in Newest(Recency(rules, trace), MAX_TRACKED_CLIENTS);
        CheckKeepsOthers(Run(rules, front), r.key, rules.budget(r.key), rules.window, r.now, key);
      }
    }
  }

  /** After a check, the bucket of the key checked. */
  lemma BucketAfterCheck(l: Limiter, key: Key, budget: nat, window: real, now: real)
    requires Bounded(l) && budget > 0
    ensures var recent := Recent(Hits(l, key), now - window);
            Hits(After(l, key, budget, window, now), key) == if |recent| < budget then recent + [now] else recent
  {
    var recent := Recent(Hits(l, key), now - window);
    if |recent| < budget {
      UseKeepsTracks(l, key, recent + [now]);
      EvictSparesNewest(Use(l, key, recent + [now]), MAX_TRACKED_CLIENTS);
    }
  }

  lemma DecideByRecent(l: Limiter, key: Key, budget: nat, window: real, now: real)
    requires budget > 0
    ensures var recent := Recent(Hits(l, key), now - window);
            && Decide(l, key, budget, window, now).allowed == (|recent| < budget)
            && (|recent| >= budget ==> Decide(l, key, budget, window, now) == Answered(recent, budget, window, now))
  {
  }

  /** What the truth is about: a key's grants and its bucket, after a run. */
  ghost predicate Truth(rules: Rules, trace: seq<Request>, key: Key, now: real)
    requires rules.budget(key) > 0
  {
    && BucketTrue(Granted(rules, trace, key), Hits(Run(rules, trace), key), rules.budget(key), rules.window, now)
    && Spaced(Granted(rules, trace, key), rules.budget(key), rules.window)
  }

  lemma RunNext(rules: Rules, front: seq<Request>, r: Request, key: Key)
    ensures Run(rules, front + [r])
         == After(Run(rules, front), r.key, rules.budget(r.key), rules.window, r.now)
    ensures Granted(rules, front + [r], key)
         == Granted(rules, front, key) + (if r.key == key && Allows(rules, front, r) then [r.now] else [])
  {
    assert (front + [r])[..|front|] == front;
  }

  lemma OwnStepKeepsTruth(rules: Rules, front: seq<Request>, r: Request)
    requires rules.budget(r.key) > 0 && Truth(rules, front, r.key, r.now)
    ensures Truth(rules, front + [r], r.key, r.now)
  {
    hide Recent, After, Decide, Bounded, Newest, BucketTrue, Spaced;
    var granted, hits := Granted(rules, front, r.key), Hits(Run(rules, front), r.key);
    TracksNewestKeys(rules, front);
    BucketAfterCheck(Run(rules, front), r.key, rules.budget(r.key), rules.window, r.now);
    DecideByRecent(Run(rules, front), r.key, rules.budget(r.key), rules.window, r.now);
    RunNext(rules, front, r, r.key);
    if Allows(rules, front, r) {
      GrantKeepsTruth(granted, hits, rules.budget(r.key), rules.window, r.now);
    } else {
      RefusalKeepsTruth(granted, hits, rules.budget(r.key), rules.window, r.now);
      assert granted + [] == granted;
    }
  }

  lemma OtherStepKeepsTruth(rules: Rules, front: seq<Request>, r: Request, key: Key)
    requires rules.budget(key) > 0 && r.key != key && NeverEvicted(rules, front + [r], key)
    requires Truth(rules, front, key, r.now)
    ensures Truth(rules, front + [r], key, r.now)
  {
    OtherCheck(rules, front, r, key);
    RunNext(rules, front, r, key);
    assert Granted(rules, front, key) + [] == Granted(rules, front, key);
  }

  lemma TruthLasts(rules: Rules, trace: seq<Request>, key: Key, now: real, later: real)
    requires rules.budget(key) > 0 && Truth(rules, trace, key, now) && now <= later
    ensures Truth(rules, trace, key, later)
  {
    hide Granted, Run, Hits, Spaced;
  }

  lemma StepKeepsTruth(rules: Rules, front: seq<Request>, r: Request, key: Key)
    requires rules.budget(key) > 0 && NeverEvicted(rules, front + [r], key)
    requires Truth(rules, front, key, r.now)
    ensures Truth(rules, front + [r], key, r.now)
  {
    if r.key == key {
      OwnStepKeepsTruth(rules, front, r);
    } else {
      OtherStepKeepsTruth(rules, front, r, key);
    }
  }

  /** In every run in which the key is never evicted, its bucket tells the truth. */
  lemma {:induction false} BucketsTellTheTruth(rules: Rules, trace: seq<Request>, key: Key, now: real)
    requires rules.budget(key) > 0 && ClockRuns(trace) && NeverEvicted(rules, trace, key)
    requires trace == [] || trace[|trace| - 1].now <= now
    ensures Truth(rules, trace, key, now)
  {
    hide Truth, NeverEvicted;
    if trace != [] {
      var front, r := trace[..|trace| - 1], trace[|trace| - 1];
      assert trace == front + [r];
      NeverEvictedPrefix(rules, front, r, key);
      assert ClockRuns(front) && (front == [] || front[|front| - 1].now <= r.now);
      BucketsTellTheTruth(rules, front, key, r.now);
      StepKeepsTruth(rules, front, r, key);
      TruthLasts(rules, trace, key, r.now, now);
    } else {
      TruthAtStart(rules, key, now);
    }
  }

  lemma TruthAtStart(rules: Rules, key: Key, now: real)
    requires rules.budget(key) > 0
    ensures Truth(rules, [], key, now)
  {
  }

  lemma NeverEvictedPrefix(rules: Rules, front: seq<Request>, r: Request, key: Key)
    requires NeverEvicted(rules, front + [r], key)
    ensures NeverEvicted(rules, front, key)
  {
    forall n | 0 <= n <= |front| ensures (front + [r])[..n] == front[..n] {
    }
  }

  /** How many of the times lie after `cutoff`. */
  function CountAfter(times: seq<real>, cutoff: real): nat {
    if times == [] then 0
    else CountAfter(times[..|times| - 1], cutoff) + (if times[|times| - 1] > cutoff then 1 else 0)
  }

  lemma {:induction false} CountAfterSplit(times: seq<real>, m: nat, cutoff: real)
    requires m <= |times|
    requires forall i :: 0 <= i < m ==> times[i] <= cutoff
    requires forall i :: m <= i < |times| ==> times[i] > cutoff
    ensures CountAfter(times, cutoff) == |times| - m
  {
    if times != [] {
      CountAfterSplit(times[..|times| - 1], Min(m, |times| - 1), cutoff);
    }
  }

  lemma RecentCounts(granted: seq<real>, hits: seq<real>, budget: int, window: real, now: real)
    requires BucketTrue(granted, hits, budget, window, now)
    ensures |Recent(hits, now - window)| == CountAfter(granted, now - window)
  {
    RecentIsSuffix(granted, hits, budget, window, now);
    CountAfterSplit(granted, |granted| - |Recent(hits, now - window)|, now - window);
  }

  lemma AllowedByTruth(rules: Rules, trace: seq<Request>, r: Request)
    requires rules.budget(r.key) > 0 && Truth(rules, trace, r.key, r.now)
    ensures Allows(rules, trace, r) ==
            (CountAfter(Granted(rules, trace, r.key), r.now - rules.window) < rules.budget(r.key))
  {
    RecentCounts(Granted(rules, trace, r.key), Hits(Run(rules, trace), r.key),
                 rules.budget(r.key), rules.window, r.now);
    DecideByRecent(Run(rules, trace), r.key, rules.budget(r.key), rules.window, r.now);
  }

  /** A request is allowed exactly when fewer than the budget of the key's earlier allowed
      requests lie in the window that ends now. */
  lemma AllowedExactly(rules: Rules, trace: seq<Request>, r: Request)
    requires rules.budget(r.key) > 0 && ClockRuns(trace + [r]) && NeverEvicted(rules, trace, r.key)
    ensures Allows(rules, trace, r) <==>
            CountAfter(Granted(rules, trace, r.key), r.now - rules.window) < rules.budget(r.key)
  {
    assert trace + [r] + [] == trace + [r];
    ClockParts(trace, r, []);
    BucketsTellTheTruth(rules, trace, r.key, r.now);
    AllowedByTruth(rules, trace, r);
  }

  /** A budget of zero or less is no limit: such a key is always allowed, waits for nothing,
      and is never tracked. */
  lemma {:induction false} NoBudgetNoLimit(rules: Rules, trace: seq<Request>, r: Request)
    requires rules.budget(r.key) <= 0
    ensures Allows(rules, trace, r) && WaitAfter(rules, trace, r) == 0.0
    ensures Run(rules, trace + [r]) == Run(rules, trace)
    ensures r.key !in Run(rules, trace).order
  {
    RunNext(rules, trace, r, r.key);
    NoBudgetNoChange(Run(rules, trace), r.key, rules.budget(r.key), rules.window, r.now);
    TracksNewestKeys(rules, trace);
    NotRecent(rules, trace, r.key);
  }

  lemma {:induction false} NotRecent(rules: Rules, trace: seq<Request>, key: Key)
    requires rules.budget(key) <= 0
    ensures key !in Recency(rules, trace)
  {
    hide Without;
    if trace != [] {
      var front, last := trace[..|trace| - 1], trace[|trace| - 1];
      NotRecent(rules, front, key);
      TracksNewestKeys(rules, front);
      WithoutKeepsOrder(Recency(rules, front), last.key);
    }
  }

  /** How many of the times lie after `from` and not after `to`. */
  function CountIn(times: seq<real>, from: real, to: real): nat {
    if times == [] then 0
    else CountIn(times[..|times| - 1], from, to)
         + (if from < times[|times| - 1] <= to then 1 else 0)
  }

  lemma {:induction false} CountInFew(times: seq<real>, m: nat, from: real, to: real)
    requires m <= |times| && forall i :: 0 <= i < m ==> times[i] <= from
    ensures CountIn(times, from, to) <= |times| - m
  {
    if times != [] {
      CountInFew(times[..|times| - 1], Min(m, |times| - 1), from, to);
    }
  }

  lemma {:induction false} SpacedCount(times: seq<real>, budget: nat, window: real, from: real)
    requires budget > 0 && Ascending(times) && Spaced(times, budget, window)
    ensures CountIn(times, from, from + window) <= budget
  {
    if times != [] {
      var n := |times| - 1;
      if from < times[n] <= from + window {
        if n >= budget {
          assert times[n - budget] + window <= times[n];
          CountInFew(times, n - budget + 1, from, from + window);
        } else {
          CountInFew(times, 0, from, from + window);
        }
      } else {
        SpacedCount(times[..n], budget, window, from);
      }
    }
  }

  /** No stretch of time as long as the window contains more allowed requests of one key
      than its budget. */
  lemma NoWindowOverBudget(rules: Rules, trace: seq<Request>, key: Key, from: real)
    requires rules.budget(key) > 0 && ClockRuns(trace) && NeverEvicted(rules, trace, key)
    ensures CountIn(Granted(rules, trace, key), from, from + rules.window) <= rules.budget(key)
  {
    hide Granted, NeverEvicted, ClockRuns, Spaced, Ascending, CountIn;
    BucketsTellTheTruth(rules, trace, key, if trace == [] then 0.0 else trace[|trace| - 1].now);
    SpacedCount(Granted(rules, trace, key), rules.budget(key), rules.window, from);
  }

  /** A refused bucket, and the same bucket at a later check. */
  lemma WaitIsExact(
      l: Limiter, later: Limiter, key: Key, budget: nat, window: real, now: real, again: real, granted: seq<real>)
    requires budget > 0 && now <= again && BucketTrue(granted, Hits(l, key), budget, window, now)
    requires !Decide(l, key, budget, window, now).allowed
    requires Hits(later, key) == Recent(Hits(l, key), now - window)
    ensures var wait := Decide(l, key, budget, window, now).retryAfter;
            wait > 0.0 && (Decide(later, key, budget, window, again).allowed <==> again >= now + wait)
  {
    DecideByRecent(l, key, budget, window, now);
    DecideByRecent(later, key, budget, window, again);
    RefusedBucketWaits(granted, Hits(l, key), budget, window, now, again);
  }

  lemma OthersLeaveRefusal(rules: Rules, trace: seq<Request>, r: Request, others: seq<Request>)
    requires rules.budget(r.key) > 0 && !Allows(rules, trace, r)
    requires forall i :: 0 <= i < |others| ==> others[i].key != r.key
    requires NeverEvicted(rules, trace + [r] + others, r.key)
    ensures Hits(Run(rules, trace + [r] + others), r.key)
         == Recent(Hits(Run(rules, trace), r.key), r.now - rules.window)
    ensures NeverEvicted(rules, trace, r.key)
  {
    hide Run, Recent, NeverEvicted, Allows;
    OthersLeaveBucket(rules, trace + [r], others, r.key);
    NeverEvictedPrefix(rules, trace, r, r.key);
    BucketAfterRefusal(rules, trace, r);
  }

  /** The wait announced to a request that is refused. */
  function WaitAfter(rules: Rules, trace: seq<Request>, r: Request): real {
    Decide(Run(rules, trace), r.key, rules.budget(r.key), rules.window, r.now).retryAfter
  }

  /** After a refusal, and until the key is checked again, a check is allowed exactly from
      the announced moment on; the wait is never zero. Other keys' checks do not matter. */
  lemma RetryAfterIsExact(rules: Rules, trace: seq<Request>, r: Request, others: seq<Request>, again: Request)
    requires rules.budget(r.key) > 0 && ClockRuns(trace + [r] + (others + [again]))
    requires !Allows(rules, trace, r) && again.key == r.key
    requires forall i :: 0 <= i < |others| ==> others[i].key != r.key
    requires NeverEvicted(rules, trace + [r] + others, r.key)
    ensures var wait := WaitAfter(rules, trace, r);
            wait > 0.0 && (Allows(rules, trace + [r] + others, again) <==> again.now >= r.now + wait)
  {
    hide Run, Recent, Decide, NeverEvicted, BucketTrue, Spaced, Granted, ClockRuns;
    ClockParts(trace, r, others + [again]);
    OthersLeaveRefusal(rules, trace, r, others);
    BucketsTellTheTruth(rules, trace, r.key, r.now);
    WaitIsExact(Run(rules, trace), Run(rules, trace + [r] + others), r.key, rules.budget(r.key), rules.window,
                r.now, again.now, Granted(rules, trace, r.key));
  }

  lemma BucketAfterRefusal(rules: Rules, trace: seq<Request>, r: Request)
    requires rules.budget(r.key) > 0 && !Allows(rules, trace, r)
    ensures Hits(Run(rules, trace + [r]), r.key) == Recent(Hits(Run(rules, trace), r.key), r.now - rules.window)
  {
    hide Run, Recent, Decide, After, Bounded;
    TracksNewestKeys(rules, trace);
    RunNext(rules, trace, r, r.key);
    BucketAfterCheck(Run(rules, trace), r.key, rules.budget(r.key), rules.window, r.now);
    DecideByRecent(Run(rules, trace), r.key, rules.budget(r.key), rules.window, r.now);
  }

  lemma RefusedBucketWaits(granted: seq<real>, hits: seq<real>, budget: nat, window: real, now: real, later: real)
    requires BucketTrue(granted, hits, budget, window, now) && now <= later && budget > 0
    requires |Recent(hits, now - window)| >= budget
    ensures var recent := Recent(hits, now - window);
            recent[0] + window - now > 0.0
            && (|Recent(recent, later - window)| < budget <==> later >= recent[0] + window)
  {
    RecentIsSuffix(granted, hits, budget, window, now);
  }

  lemma ClockParts(trace: seq<Request>, r: Request, more: seq<Request>)
    requires ClockRuns(trace + [r] + more)
    ensures ClockRuns(trace) && (trace == [] || trace[|trace| - 1].now <= r.now)
    ensures more != [] ==> r.now <= more[|more| - 1].now
  {
    var whole := trace + [r] + more;
    assert forall i :: 0 <= i < |trace| ==> whole[i] == trace[i];
    assert whole[|trace|] == r;
    assert more != [] ==> whole[|whole| - 1] == more[|more| - 1];
  }

  lemma {:induction false} OthersLeaveBucket(rules: Rules, asked: seq<Request>, others: seq<Request>, key: Key)
    requires rules.budget(key) > 0 && NeverEvicted(rules, asked + others, key)
    requires forall i :: 0 <= i < |others| ==> others[i].key != key
    ensures Hits(Run(rules, asked + others), key) == Hits(Run(rules, asked), key)
    ensures NeverEvicted(rules, asked, key)
  {
    if others == [] {
      assert asked + others == asked;
    } else {
      var front, r := others[..|others| - 1], others[|others| - 1];
      assert asked + others == (asked + front) + [r];
      NeverEvictedPrefix(rules, asked + front, r, key);
      OtherCheck(rules, asked + front, r, key);
      OthersLeaveBucket(rules, asked, front, key);
    }
  }

  // ---------------------------------------------------------------------
  // The Retry-After header
  // ---------------------------------------------------------------------

  /** `max(1, int(retry_after + 0.999))` */
  function RetrySeconds(retryAfter: real): int {
    Max(1, (retryAfter + 0.999).Floor)
  }

  /** Whole seconds in the header cover the wait exactly when the wait is at most one second,
      whole, or at least a thousandth above a whole second. */
  lemma HeaderCoversWait(retryAfter: real)
    requires retryAfter >= 0.0
    ensures RetrySeconds(retryAfter) as real >= retryAfter <==>
            retryAfter <= 1.0 || retryAfter == retryAfter.Floor as real
            || retryAfter - retryAfter.Floor as real >= 0.001
  {
    var f := retryAfter.Floor;
    var above := retryAfter - f as real;
    assert (retryAfter + 0.999).Floor == if above >= 0.001 then f + 1 else f;
  }

  /** A client that waits the seconds it is told is let in exactly when the header covers the
      wait; other clients' checks in between do not matter. */
  lemma WaitingAsToldSuffices(
      rules: Rules, trace: seq<Request>, r: Request, others: seq<Request>, again: Request)
    requires rules.budget(r.key) > 0 && ClockRuns(trace + [r] + (others + [again]))
    requires !Allows(rules, trace, r) && again.key == r.key
    requires forall i :: 0 <= i < |others| ==> others[i].key != r.key
    requires NeverEvicted(rules, trace + [r] + others, r.key)
    requires again.now == r.now + RetrySeconds(WaitAfter(rules, trace, r)) as real
    ensures var wait := WaitAfter(rules, trace, r);
            Allows(rules, trace + [r] + others, again)
            <==> wait <= 1.0 || wait == wait.Floor as real || wait - wait.Floor as real >= 0.001
  {
    hide Run, Decide, NeverEvicted, ClockRuns, RetrySeconds, Allows;
    RetryAfterIsExact(rules, trace, r, others, again);
    HeaderCoversWait(WaitAfter(rules, trace, r));
  }

  lemma FirstCheck(rules: Rules, first: Request)
    requires rules.budget(first.key) == 1
    ensures Allows(rules, [], first) && Hits(Run(rules, [first]), first.key) == [first.now]
  {
    assert Run(rules, []) == EMPTY && [] + [first] == [first];
    RunNext(rules, [], first, first.key);
    BucketAfterCheck(EMPTY, first.key, 1, rules.window, first.now);
  }

  lemma SecondCheck(rules: Rules, first: Request, r: Request)
    requires rules.budget(first.key) == 1 && r.key == first.key && first.now <= r.now < first.now + rules.window
    ensures !Allows(rules, [first], r) && WaitAfter(rules, [first], r) == first.now + rules.window - r.now
  {
    hide Run, Recent, Decide;
    FirstCheck(rules, first);
    OneIsRecent(first.now, r.now - rules.window);
    DecideByRecent(Run(rules, [first]), r.key, 1, rules.window, r.now);
  }

  lemma OneIsRecent(hit: real, cutoff: real)
    requires hit > cutoff
    ensures Recent([hit], cutoff) == [hit]
  {
  }

  lemma OneKeyRecency(rules: Rules, trace: seq<Request>, key: Key)
    requires forall i :: 0 <= i < |trace| ==> trace[i].key == key
    ensures Recency(rules, trace) == [] || Recency(rules, trace) == [key]
  {
    if trace != [] {
      OneKeyRecency(rules, trace[..|trace| - 1], key);
      WithoutNone(key);
      WithoutSnoc([], key, key);
      assert [] + [key] == [key];
    }
  }

  lemma OneKeyIsNeverEvicted(rules: Rules, trace: seq<Request>, key: Key)
    requires forall i :: 0 <= i < |trace| ==> trace[i].key == key
    ensures NeverEvicted(rules, trace, key)
  {
    hide Recency;
    forall n | 0 <= n <= |trace| && key in Recency(rules, trace[..n])
      ensures key in Newest(Recency(rules, trace[..n]), MAX_TRACKED_CLIENTS)
    {
      OneKeyRecency(rules, trace[..n], key);
    }
  }

  /** With one request a minute: a client refused 1.0005 seconds too early is told to wait one
      second, does so, and is refused again. */
  lemma HeaderMayBeShort(rules: Rules, key: Key)
    requires rules.budget(key) == 1 && rules.window == 60.0
    ensures var first, early, again := Request(key, 0.0), Request(key, 58.9995), Request(key, 59.9995);
      && Allows(rules, [], first) && !Allows(rules, [first], early)
      && again.now == early.now + RetrySeconds(WaitAfter(rules, [first], early)) as real
      && !Allows(rules, [first, early], again)
  {
    hide Run, Allows, WaitAfter, NeverEvicted, Recency;
    var first, early, again := Request(key, 0.0), Request(key, 58.9995), Request(key, 59.9995);
    FirstCheck(rules, first);
    SecondCheck(rules, first, early);
    assert (1.9995).Floor == 1 && (1.0005).Floor == 1;
    assert [first] + [early] + [] == [first, early];
    OneKeyIsNeverEvicted(rules, [first, early], key);
    WaitingAsToldSuffices(rules, [first], early, [], again);
  }

  // ---------------------------------------------------------------------
  // The limiter as the program keeps it
  // ---------------------------------------------------------------------

  lemma DropNone(l: Limiter)
    ensures DropOldest(l, 0) == l
  {
  }

  /** Dropping one more: the oldest key that is left, and its bucket. */
  lemma DropNext(l: Limiter, n: nat)
    requires n < |l.order|
    ensures var d := DropOldest(l, n);
            d.order == l.order[n..] && DropOldest(l, n + 1) == Limiter(d.order[1..], d.hits - {d.order[0]})
  {
    assert l.order[..n + 1] == l.order[..n] + [l.order[n]];
  }

  class SlidingWindowLimiter {
    var order: seq<Key>
    var buckets: map<Key, seq<real>>

    function State(): Limiter
      reads this
    {
      Limiter(order, buckets)
    }

    constructor ()
      ensures State() == EMPTY
    {
      order, buckets := [], map[];
    }

    /** `popleft` while the oldest hit is at or before the cutoff. */
    static method PopOld(all: seq<real>, cutoff: real) returns (hits: seq<real>)
      ensures hits == Recent(all, cutoff)
    {
      hits := all;
      ghost var n := 0;
      while hits != [] && hits[0] <= cutoff
        invariant n <= |all| && hits == all[n..] && Expired(all, cutoff, n) == Expired(all, cutoff, 0)
        decreases |hits|
      {
        hits := hits[1..];
        n := n + 1;
      }
    }

    /** `popitem(last=False)` while there are too many buckets. */
    method EvictOldest()
      modifies this
      ensures State() == Evict(old(State()), MAX_TRACKED_CLIENTS)
    {
      hide DropOldest;
      ghost var full, n := State(), 0;
      DropNone(full);
      while |order| > MAX_TRACKED_CLIENTS
        invariant n <= Max(0, |full.order| - MAX_TRACKED_CLIENTS) && State() == DropOldest(full, n)
        invariant |order| == |full.order| - n
        decreases |order|
      {
        DropNext(full, n);
        order, buckets := order[1..], buckets - {order[0]};
        n := n + 1;
      }
    }

    method CheckRequest(key: Key, maxRequests: int, window: real, now: real) returns (allowed: bool, retryAfter: real)
      modifies this
      ensures State() == After(old(State()), key, maxRequests, window, now)
      ensures Answer(allowed, retryAfter) == Decide(old(State()), key, maxRequests, window, now)
    {
      hide Recent, Without, Evict;
      if maxRequests <= 0 {
        return true, 0.0;
      }
      var hits := PopOld(if key in buckets then buckets[key] else [], now - window);
      order := Without(order, key) + [key];
      if |hits| >= maxRequests {
        buckets := buckets[key := hits];
        var wait := hits[0] + window - now;
        return false, if wait > 0.0 then wait else 0.0;
      }
      buckets := buckets[key := hits + [now]];
      EvictOldest();
      return true, 0.0;
    }

    method Reset()
      modifies this
      ensures State() == EMPTY
    {
      order, buckets := [], map[];
    }
  }
}
