/**
 * Header names to column names: the server's version, which looks for a free
 * suffix, and the browser's, which only counts.
 *
 * `norm` stands for lower-casing and trimming; nothing is assumed about it.
 */
module Sanitize {

  const RESERVED: set<string> := {"_id", "_row_hash", "_created_at"}
  const MAX_BASE := 55

  // ---------------------------------------------------------------------
  // Decimal numerals
  // ---------------------------------------------------------------------

  function Digit(d: nat): char
    requires d < 10
  {
    "0123456789"[d]
  }

  function Decimal(n: nat): string {
    (if n < 10 then "" else Decimal(n / 10)) + [Digit(n % 10)]
  }

  function Pow10(k: nat): nat {
    if k == 0 then 1 else 10 * Pow10(k - 1)
  }

  lemma {:induction false} DecimalLength(n: nat, k: nat)
    requires k > 0
    ensures |Decimal(n)| <= k <==> n < Pow10(k)
    ensures forall i :: 0 <= i < |Decimal(n)| ==> '0' <= Decimal(n)[i] <= '9'
  {
    if n < 10 {
      assert Pow10(k) >= 10 by { PowGrows(k); }
    } else if k > 1 {
      DecimalLength(n / 10, k - 1);
    } else {
      DecimalLength(n / 10, 1);
      assert Pow10(1) == 10 * Pow10(0);
    }
  }

  lemma PowGrows(k: nat)
    requires k > 0
    ensures Pow10(k) >= 10
  {
    if k > 1 {
      PowGrows(k - 1);
    } else {
      assert Pow10(1) == 10 * Pow10(0);
    }
  }

  lemma SnocInjective(a: string, x: char, b: string, y: char)
    requires a + [x] == b + [y]
    ensures a == b && x == y
  {
    assert (a + [x])[..|a|] == a && (b + [y])[..|b|] == b;
    assert (a + [x])[|a|] == x && (b + [y])[|b|] == y;
  }

  lemma DecimalNotEmpty(n: nat)
    ensures Decimal(n) != ""
  {
  }

  lemma DigitInjective(d: nat, e: nat)
    requires d < 10 && e < 10 && Digit(d) == Digit(e)
    ensures d == e
  {
  }

  lemma {:induction false} DecimalInjective(m: nat, n: nat)
    requires Decimal(m) == Decimal(n)
    ensures m == n
  {
    hide Digit;
    DecimalNotEmpty(m / 10);
    DecimalNotEmpty(n / 10);
    SnocInjective(if m < 10 then "" else Decimal(m / 10), Digit(m % 10),
                  if n < 10 then "" else Decimal(n / 10), Digit(n % 10));
    DigitInjective(m % 10, n % 10);
    if m >= 10 {
      DecimalInjective(m / 10, n / 10);
    }
  }

  // ---------------------------------------------------------------------
  // The stem of a header
  // ---------------------------------------------------------------------

  predicate WordChar(c: char) {
    'a' <= c <= 'z' || '0' <= c <= '9' || c == '_'
  }

  /** Replace every run of other characters by one underscore. */
  function Collapse(s: string): (r: string)
    ensures forall i :: 0 <= i < |r| ==> WordChar(r[i])
  {
    if s == "" then ""
    else
      var front := Collapse(s[..|s| - 1]);
      var c := s[|s| - 1];
      if WordChar(c) then front + [c]
      else if |s| > 1 && !WordChar(s[|s| - 2]) then front
      else front + "_"
  }

  function StripUnderscores(s: string): (r: string)
    ensures r != "" ==> r[0] != '_' && r[|r| - 1] != '_'
    ensures (forall i :: 0 <= i < |s| ==> WordChar(s[i])) ==> forall i :: 0 <= i < |r| ==> WordChar(r[i])
  {
    if s != "" && s[0] == '_' then StripUnderscores(s[1..])
    else if s != "" && s[|s| - 1] == '_' then StripUnderscores(s[..|s| - 1])
    else s
  }

  predicate GoodStem(s: string) {
    && 0 < |s| <= MAX_BASE && 'a' <= s[0] <= 'z'
    && forall i :: 0 <= i < |s| ==> WordChar(s[i])
  }

  predicate WordChars(s: string) {
    forall i :: 0 <= i < |s| ==> WordChar(s[i])
  }

  lemma DecimalIsWord(n: nat)
    ensures WordChars(Decimal(n)) && Decimal(n) != ""
  {
    DecimalLength(n, 1);
  }

  /** The text of a header that has none. */
  function Fallback(index: nat): (r: string)
    ensures WordChars(r) && r != "" && r[0] == 'c'
  {
    DecimalIsWord(index + 1);
    "column_" + Decimal(index + 1)
  }

  /** Reserved names are recognised before their underscore is stripped. */
  function Strip(base: string): (r: string)
    requires WordChars(base)
    ensures WordChars(r) && (r != "" ==> r[0] != '_')
  {
    StripUnderscores(if base in RESERVED then base + "_col" else base)
  }

  /** A name does not start with a digit and has at most 55 characters. */
  function Trim(base: string): (r: string)
    requires WordChars(base) && base != "" && base[0] != '_'
    ensures GoodStem(r)
  {
    var named := if '0' <= base[0] <= '9' then "col_" + base else base;
    if |named| > MAX_BASE then named[..MAX_BASE] else named
  }

  function Stem(norm: string -> string, header: string, index: nat): (r: string)
    ensures GoodStem(r)
  {
    var base := Strip(Collapse(norm(if header == "" then Fallback(index) else header)));
    Trim(if base == "" then Fallback(index) else base)
  }

  lemma {:induction false} WordsStay(s: string)
    requires WordChars(s)
    ensures Collapse(s) == s
  {
    if s != "" {
      WordsStay(s[..|s| - 1]);
      assert s == s[..|s| - 1] + [s[|s| - 1]];
    }
  }

  /** A short name with a letter in front and no underscore behind is its own stem. */
  lemma PlainStem(norm: string -> string, header: string, index: nat)
    requires header != "" && GoodStem(norm(header)) && norm(header)[|norm(header)| - 1] != '_'
    ensures Stem(norm, header, index) == norm(header)
  {
    hide StripUnderscores;
    var base := norm(header);
    WordsStay(base);
    assert base !in RESERVED;
    assert StripUnderscores(base) == base by { NothingToStrip(base); }
  }

  lemma NothingToStrip(s: string)
    requires s != "" && s[0] != '_' && s[|s| - 1] != '_'
    ensures StripUnderscores(s) == s
  {
  }

  function Stems(norm: string -> string, headers: seq<string>): (stems: seq<string>)
    ensures |stems| == |headers|
    ensures forall i :: 0 <= i < |stems| ==> GoodStem(stems[i])
  {
    seq(|headers|, i requires 0 <= i < |headers| => Stem(norm, headers[i], i))
  }

  // ---------------------------------------------------------------------
  // Free names
  // ---------------------------------------------------------------------

  /** The names tried for a stem, in order: itself, then with suffixes 2, 3, ... */
  function Candidate(base: string, k: nat): string
    requires k > 0
  {
    if k == 1 then base else base + "_" + Decimal(k)
  }

  lemma CandidateInjective(base: string, j: nat, k: nat)
    requires j > 0 && k > 0 && Candidate(base, j) == Candidate(base, k)
    ensures j == k
  {
    if j > 1 && k > 1 {
      assert Decimal(j) == Candidate(base, j)[|base| + 1..];
      assert Decimal(k) == Candidate(base, k)[|base| + 1..];
      DecimalInjective(j, k);
    }
  }

  ghost predicate AllTaken(taken: set<string>, base: string, k: nat) {
    forall j :: 1 <= j <= k ==> Candidate(base, j) in taken
  }

  /** Only so many candidates can be taken: the reason why every search ends. */
  lemma {:induction false} TakenFit(taken: set<string>, base: string, k: nat)
    requires AllTaken(taken, base, k)
    ensures k <= |taken|
  {
    if k > 0 {
      var rest := taken - {Candidate(base, k)};
      forall j | 1 <= j <= k - 1 ensures Candidate(base, j) in rest {
        if Candidate(base, j) == Candidate(base, k) {
          CandidateInjective(base, j, k);
        }
      }
      TakenFit(rest, base, k - 1);
    }
  }

  /** The first suffix, from `k` on, that gives a free name. */
  function FreeSuffix(taken: set<string>, base: string, k: nat): (r: nat)
    requires k > 0 && AllTaken(taken, base, k - 1)
    ensures r > 0 && Candidate(base, r) !in taken
    ensures AllTaken(taken, base, r - 1)
    ensures r <= |taken| + 1
    decreases |taken| + 1 - k
  {
    TakenFit(taken, base, k - 1);
    if Candidate(base, k) !in taken then k
    else
      TakenFit(taken, base, k);
      FreeSuffix(taken, base, k + 1)
  }

  function FreeName(taken: set<string>, base: string): (name: string)
    ensures name !in taken
  {
    Candidate(base, FreeSuffix(taken, base, 1))
  }

  lemma FreeNameIs(taken: set<string>, base: string, k: nat)
    requires k > 0 && AllTaken(taken, base, k - 1) && Candidate(base, k) !in taken
    ensures FreeSuffix(taken, base, 1) == k && FreeName(taken, base) == Candidate(base, k)
  {
    var r := FreeSuffix(taken, base, 1);
    assert r < k ==> 1 <= r <= k - 1;
    assert k < r ==> 1 <= k <= r - 1;
  }

  function Names(s: seq<string>): set<string> {
    set x | x in s
  }

  lemma {:induction false} NamesCount(s: seq<string>)
    ensures |Names(s)| <= |s|
  {
    if s != [] {
      NamesCount(s[..|s| - 1]);
      assert Names(s) == Names(s[..|s| - 1]) + {s[|s| - 1]};
    }
  }

  // ---------------------------------------------------------------------
  // The server's version
  // ---------------------------------------------------------------------

  /** Each stem in turn takes its first free candidate. */
  function Unique(stems: seq<string>): (out: seq<string>)
    ensures |out| == |stems|
  {
    if stems == [] then []
    else
      var before := Unique(stems[..|stems| - 1]);
      before + [FreeName(Names(before), stems[|stems| - 1])]
  }

  lemma UniqueNext(stems: seq<string>, n: nat)
    requires n < |stems|
    ensures Unique(stems[..n + 1]) == Unique(stems[..n]) + [FreeName(Names(Unique(stems[..n])), stems[n])]
    ensures Counters(stems[..n + 1])
         == CounterAfter(Counters(stems[..n]), stems[n], FreeSuffix(Names(Unique(stems[..n])), stems[n], 1))
  {
    assert stems[..n + 1][..n] == stems[..n];
  }

  function SanitizeColumns(norm: string -> string, headers: seq<string>): (out: seq<string>)
    ensures |out| == |headers|
  {
    Unique(Stems(norm, headers))
  }

  /** What the per-stem counters remember: suffixes up to `counter[b] + 1` are in use. */
  ghost predicate CountersTrue(used: set<string>, counter: map<string, nat>) {
    forall b :: b in counter ==> counter[b] > 0 && AllTaken(used, b, counter[b] + 1)
  }

  /** A stem's counter is touched only if the stem itself is taken. */
  function CounterAfter(counter: map<string, nat>, base: string, suffix: nat): map<string, nat>
    requires suffix > 0
  {
    if suffix == 1 then counter else counter[base := suffix - 1]
  }

  function Counters(stems: seq<string>): map<string, nat> {
    if stems == [] then map[]
    else
      var front, last := stems[..|stems| - 1], stems[|stems| - 1];
      CounterAfter(Counters(front), last, FreeSuffix(Names(Unique(front)), last, 1))
  }

  function Get(counter: map<string, nat>, base: string): nat {
    if base in counter then counter[base] else 0
  }

  /** The inner loop: bump the stem's counter until its name is free. */
  method TakeName(used: set<string>, counter: map<string, nat>, base: string)
    returns (name: string, counter': map<string, nat>)
    requires CountersTrue(used, counter)
    ensures name == FreeName(used, base)
    ensures CountersTrue(used + {name}, counter')
    ensures counter' == CounterAfter(counter, base, FreeSuffix(used, base, 1))
  {
    hide Decimal, FreeSuffix, FreeName;
    name := base;
    counter' := counter;
    ghost var k := 1;
    while name in used
      invariant k > 0 && name == Candidate(base, k)
      invariant AllTaken(used, base, k - 1)
      invariant if k == 1 then counter' == counter else counter' == counter[base := k - 1]
      decreases |used| + 1 - k
    {
      assert AllTaken(used, base, k);
      var c := (if base in counter' then counter'[base] else 0) + 1;
      counter' := counter'[base := c];
      name := base + "_" + Decimal(c + 1);
      assert AllTaken(used, base, c);
      TakenFit(used, base, c);
      k := c + 1;
    }
    FreeNameIs(used, base, k);
    assert k > 1 ==> AllTaken(used + {name}, base, k);
  }

  method Sanitize(norm: string -> string, headers: seq<string>) returns (out: seq<string>)
    ensures out == SanitizeColumns(norm, headers)
  {
    var counter;
    out, counter := SanitizeAndCount(norm, headers);
  }

  method SanitizeAndCount(norm: string -> string, headers: seq<string>)
    returns (out: seq<string>, counter: map<string, nat>)
    ensures out == SanitizeColumns(norm, headers) && counter == Counters(Stems(norm, headers))
  {
    hide Stem, FreeName, FreeSuffix, CounterAfter;
    ghost var stems := Stems(norm, headers);
    var used: set<string> := {};
    counter := map[];
    out := [];
    for idx := 0 to |headers|
      invariant out == Unique(stems[..idx])
      invariant used == Names(out)
      invariant CountersTrue(used, counter) && counter == Counters(stems[..idx])
    {
      var base := Stem(norm, headers[idx], idx);
      var name;
      name, counter := TakeName(used, counter, base);
      UniqueNext(stems, idx);
      used := used + {name};
      out := out + [name];
    }
    assert stems[..|headers|] == stems;
  }

  predicate Distinct(s: seq<string>) {
    forall i, j :: 0 <= i < j < |s| ==> s[i] != s[j]
  }

  /** `^[a-z_][a-z0-9_]{0,62}$` */
  predicate ValidIdentifier(s: string) {
    && 0 < |s| <= 63
    && ('a' <= s[0] <= 'z' || s[0] == '_')
    && forall i :: 0 <= i < |s| ==> WordChar(s[i])
  }

  /** The suffix of each name, with 1 for none: at most the number of columns so far. */
  lemma {:induction false} SuffixesAreSmall(stems: seq<string>) returns (suffixes: seq<nat>)
    ensures |suffixes| == |stems|
    ensures forall i :: 0 <= i < |stems| ==>
              0 < suffixes[i] <= i + 1 && Unique(stems)[i] == Candidate(stems[i], suffixes[i])
  {
    hide Candidate;
    suffixes := [];
    if stems != [] {
      var front, last := stems[..|stems| - 1], stems[|stems| - 1];
      suffixes := SuffixesAreSmall(front);
      NamesCount(Unique(front));
      suffixes := suffixes + [FreeSuffix(Names(Unique(front)), last, 1)];
    }
  }

  lemma {:induction false} UniqueIsDistinct(stems: seq<string>)
    ensures Distinct(Unique(stems))
  {
    if stems != [] {
      var before := Unique(stems[..|stems| - 1]);
      UniqueIsDistinct(stems[..|stems| - 1]);
      assert forall i :: 0 <= i < |before| ==> before[i] in Names(before);
    }
  }

  lemma CandidateShape(base: string, k: nat)
    requires GoodStem(base) && k > 0
    ensures Candidate(base, k) !in RESERVED
    ensures ValidIdentifier(Candidate(base, k)) <==> |Candidate(base, k)| <= 63
    ensures |base| == MAX_BASE ==> (ValidIdentifier(Candidate(base, k)) <==> k < 10_000_000)
    ensures k < 10_000_000 ==> ValidIdentifier(Candidate(base, k))
  {
    DecimalLength(k, 7);
    TenMillion();
    assert Candidate(base, k)[0] == base[0];
  }

  lemma TenMillion()
    ensures Pow10(7) == 10_000_000
  {
    assert Pow10(1) == 10 && Pow10(2) == 100 && Pow10(3) == 1000 && Pow10(4) == 10_000;
    assert Pow10(5) == 100_000 && Pow10(6) == 1_000_000;
  }

  /** Names are distinct and never one of the three system columns; up to 9,999,999
      columns each is an identifier, so the loader's guards cannot fire. */
  lemma SanitizedNames(norm: string -> string, headers: seq<string>)
    ensures Distinct(SanitizeColumns(norm, headers))
    ensures forall i :: 0 <= i < |headers| ==> SanitizeColumns(norm, headers)[i] !in RESERVED
    ensures |headers| < 10_000_000 ==>
              forall i :: 0 <= i < |headers| ==> ValidIdentifier(SanitizeColumns(norm, headers)[i])
  {
    var stems := Stems(norm, headers);
    UniqueIsDistinct(stems);
    var suffixes := SuffixesAreSmall(stems);
    forall i | 0 <= i < |headers|
      ensures Unique(stems)[i] !in RESERVED
      ensures |headers| < 10_000_000 ==> ValidIdentifier(Unique(stems)[i])
    {
      CandidateShape(stems[i], suffixes[i]);
    }
  }

  lemma NamesStartWithLetter(norm: string -> string, headers: seq<string>, i: nat)
    requires i < |headers|
    ensures var name := SanitizeColumns(norm, headers)[i]; name != "" && 'a' <= name[0] <= 'z'
  {
    var stems := Stems(norm, headers);
    var suffixes := SuffixesAreSmall(stems);
    assert Candidate(stems[i], suffixes[i])[0] == stems[i][0];
  }

  lemma {:induction false} RepeatedStem(stems: seq<string>, stem: string)
    requires forall i :: 0 <= i < |stems| ==> stems[i] == stem
    ensures forall i :: 0 <= i < |stems| ==> Unique(stems)[i] == Candidate(stem, i + 1)
  {
    hide Candidate;
    if stems != [] {
      var n := |stems| - 1;
      RepeatedStem(stems[..n], stem);
      var before := Unique(stems[..n]);
      forall j | 1 <= j <= n ensures Candidate(stem, j) in Names(before) {
        assert before[j - 1] == Candidate(stem, j);
      }
      forall i | 0 <= i < n ensures before[i] != Candidate(stem, n + 1) {
        if before[i] == Candidate(stem, n + 1) {
          CandidateInjective(stem, i + 1, n + 1);
        }
      }
      FreeNameIs(Names(before), stem, n + 1);
    }
  }

  /** The limit is sharp: the ten-millionth copy of a header with a full-length stem
      gets a name that is too long. */
  lemma LimitIsSharp(norm: string -> string, headers: seq<string>, stem: string)
    requires |headers| == 10_000_000 && |stem| == MAX_BASE
    requires forall i :: 0 <= i < |headers| ==> Stems(norm, headers)[i] == stem
    ensures !ValidIdentifier(SanitizeColumns(norm, headers)[9_999_999])
  {
    RepeatedStem(Stems(norm, headers), stem);
    assert Stems(norm, headers)[9_999_999] == stem;
    CandidateShape(stem, 10_000_000);
  }

  // ---------------------------------------------------------------------
  // The browser's version
  // ---------------------------------------------------------------------

  /** How many of the stems are this one. */
  function Count(stems: seq<string>, base: string): nat {
    if stems == [] then 0
    else Count(stems[..|stems| - 1], base) + (if stems[|stems| - 1] == base then 1 else 0)
  }

  function Numbered(stems: seq<string>): (out: seq<string>)
    ensures |out| == |stems|
  {
    if stems == [] then []
    else
      var front, last := stems[..|stems| - 1], stems[|stems| - 1];
      Numbered(front) + [Candidate(last, Count(front, last) + 1)]
  }

  function BrowserColumns(norm: string -> string, headers: seq<string>): (out: seq<string>)
    ensures |out| == |headers|
  {
    Numbered(Stems(norm, headers))
  }

  lemma NumberedNext(stems: seq<string>, n: nat)
    requires n < |stems|
    ensures Numbered(stems[..n + 1])
         == Numbered(stems[..n]) + [Candidate(stems[n], Count(stems[..n], stems[n]) + 1)]
    ensures forall b :: Count(stems[..n + 1], b) == Count(stems[..n], b) + (if stems[n] == b then 1 else 0)
  {
    assert stems[..n + 1][..n] == stems[..n];
  }

  lemma EmptyNumbered()
    ensures Numbered([]) == [] && forall b :: Count([], b) == 0
  {
  }

  method BrowserSanitize(norm: string -> string, headers: seq<string>)
    returns (out: seq<string>, seen: map<string, nat>)
    ensures out == BrowserColumns(norm, headers)
    ensures forall b :: Get(seen, b) == Count(Stems(norm, headers), b)
  {
    hide Stem, Count, Numbered;
    EmptyNumbered();
    ghost var stems := Stems(norm, headers);
    seen := map[];
    out := [];
    for idx := 0 to |headers|
      invariant out == Numbered(stems[..idx])
      invariant forall b :: Get(seen, b) == Count(stems[..idx], b)
    {
      var base := Stem(norm, headers[idx], idx);
      var name := base;
      var count := Get(seen, base);
      assert count == Count(stems[..idx], base);
      if count > 0 {
        name := base + "_" + Decimal(count + 1);
      }
      NumberedNext(stems, idx);
      ghost var before := seen;
      seen := seen[base := count + 1];
      forall b ensures Get(seen, b) == Count(stems[..idx + 1], b) {
        assert Get(before, b) == Count(stems[..idx], b);
      }
      out := out + [name];
    }
    assert stems[..|headers|] == stems;
  }

  /** Earlier headers with the same stem have taken all smaller suffixes. */
  lemma {:induction false} SmallerSuffixTaken(stems: seq<string>, base: string, j: nat) returns (i: nat)
    requires 1 <= j <= Count(stems, base)
    ensures i < |stems| && stems[i] == base && Numbered(stems)[i] == Candidate(base, j)
  {
    hide Candidate;
    var front, last := stems[..|stems| - 1], stems[|stems| - 1];
    if j <= Count(front, base) {
      i := SmallerSuffixTaken(front, base, j);
    } else {
      i := |front|;
    }
  }

  lemma {:induction false} DistinctNumbersAreFree(stems: seq<string>)
    requires Distinct(Numbered(stems))
    ensures Numbered(stems) == Unique(stems)
  {
    if stems != [] {
      var front, last := stems[..|stems| - 1], stems[|stems| - 1];
      var shown := Numbered(stems);
      assert shown[..|front|] == Numbered(front);
      assert forall i, j :: 0 <= i < j < |front| ==> shown[i] != shown[j];
      DistinctNumbersAreFree(front);
      var k := Count(front, last) + 1;
      forall j | 1 <= j <= k - 1 ensures Candidate(last, j) in Names(Numbered(front)) {
        var i := SmallerSuffixTaken(front, last, j);
      }
      assert Candidate(last, k) == shown[|front|];
      FreeNameIs(Names(Numbered(front)), last, k);
    }
  }

  // ---------------------------------------------------------------------
  // When the two versions agree
  // ---------------------------------------------------------------------

  /** No stem looks like a repeated stem with one of the numbers its repeats get. */
  predicate NoLookalike(stems: seq<string>) {
    forall s, n :: s in stems && 2 <= n <= Count(stems, s) ==> Candidate(s, n) !in stems
  }

  lemma {:induction false} CountOfPrefix(stems: seq<string>, base: string, n: nat)
    requires n < |stems|
    ensures Count(stems[..n], base) + (if stems[n] == base then 1 else 0) <= Count(stems, base)
  {
    var front := stems[..|stems| - 1];
    if n == |front| {
      assert stems[..n] == front;
    } else {
      assert front[..n] == stems[..n];
      CountOfPrefix(front, base, n);
    }
  }

  lemma {:induction false} NumberedAt(stems: seq<string>, i: nat)
    requires i < |stems|
    ensures Numbered(stems)[i] == Candidate(stems[i], Count(stems[..i], stems[i]) + 1)
  {
    hide Candidate;
    var front := stems[..|stems| - 1];
    if i == |front| {
      assert stems[..i] == front;
    } else {
      assert front[..i] == stems[..i];
      NumberedAt(front, i);
    }
  }

  lemma {:induction false} DecimalDigits(n: nat, i: nat)
    requires i < |Decimal(n)|
    ensures '0' <= Decimal(n)[i] <= '9'
  {
    DecimalLength(n, |Decimal(n)|);
  }

  /** The last underscore of a numbered candidate is the one before its number. */
  lemma SameCandidate(a: string, m: nat, b: string, n: nat)
    requires m >= 2 && n >= 2 && Candidate(a, m) == Candidate(b, n)
    ensures a == b && m == n
  {
    var s := Candidate(a, m);
    assert s[|a|] == '_' && s[|b|] == '_';
    if |a| < |b| {
      assert s[|b|] == Decimal(m)[|b| - |a| - 1];
      DecimalDigits(m, |b| - |a| - 1);
    } else if |b| < |a| {
      assert s[|a|] == Decimal(n)[|a| - |b| - 1];
      DecimalDigits(n, |a| - |b| - 1);
    }
    assert s[..|a|] == a && s[..|b|] == b;
    CandidateInjective(a, m, n);
  }

  /** Later columns of one stem have larger numbers. */
  lemma CountGrows(stems: seq<string>, i: nat, j: nat)
    requires i < j < |stems| && stems[i] == stems[j]
    ensures Count(stems[..i], stems[i]) < Count(stems[..j], stems[j])
  {
    CountOfPrefix(stems[..j], stems[i], i);
    assert stems[..j][..i] == stems[..i];
  }

  lemma NumbersDiffer(stems: seq<string>, i: nat, j: nat)
    requires NoLookalike(stems) && i < j < |stems|
    ensures Numbered(stems)[i] != Numbered(stems)[j]
  {
    hide Count, Numbered, Candidate, NoLookalike;
    var a, b := stems[i], stems[j];
    var m, n := Count(stems[..i], a) + 1, Count(stems[..j], b) + 1;
    NumberedAt(stems, i);
    NumberedAt(stems, j);
    CountOfPrefix(stems, a, i);
    CountOfPrefix(stems, b, j);
    if Candidate(a, m) == Candidate(b, n) {
      CandidatesDiffer(stems, a, m, b, n);
      CountGrows(stems, i, j);
    }
  }

  /** Without a lookalike a numbered name tells its stem and its number. */
  lemma CandidatesDiffer(stems: seq<string>, a: string, m: nat, b: string, n: nat)
    requires NoLookalike(stems) && a in stems && b in stems
    requires 1 <= m <= Count(stems, a) && 1 <= n <= Count(stems, b) && Candidate(a, m) == Candidate(b, n)
    ensures a == b && m == n
  {
    hide Count, Decimal;
    if m >= 2 && n >= 2 {
      SameCandidate(a, m, b, n);
    }
  }

  lemma LookalikeRepeats(stems: seq<string>, s: string, n: nat)
    requires s in stems && 2 <= n <= Count(stems, s) && Candidate(s, n) in stems
    ensures !Distinct(Numbered(stems))
  {
    hide Count, Numbered, Decimal;
    var t := Candidate(s, n);
    var i := SmallerSuffixTaken(stems, s, n);
    var k :| 0 <= k < |stems| && stems[k] == t;
    CountOfPrefix(stems, t, k);
    var j := SmallerSuffixTaken(stems, t, 1);
    assert stems[i] != stems[j];
  }

  lemma DistinctExactly(stems: seq<string>)
    ensures Distinct(Numbered(stems)) <==> NoLookalike(stems)
  {
    if NoLookalike(stems) {
      forall i, j | 0 <= i < j < |stems| ensures Numbered(stems)[i] != Numbered(stems)[j] {
        NumbersDiffer(stems, i, j);
      }
    } else {
      var s, n :| s in stems && 2 <= n <= Count(stems, s) && Candidate(s, n) in stems;
      LookalikeRepeats(stems, s, n);
    }
  }

  /** Browser and server give the same names exactly when no header's stem looks like a
      repeated stem with a number; otherwise the browser shows a name twice. The two
      languages may trim differently, as long as the headers have the same stems. */
  lemma VersionsAgree(server: string -> string, browser: string -> string, headers: seq<string>)
    requires Stems(server, headers) == Stems(browser, headers)
    ensures BrowserColumns(browser, headers) == SanitizeColumns(server, headers)
            <==> NoLookalike(Stems(server, headers))
    ensures NoLookalike(Stems(server, headers)) <==> Distinct(BrowserColumns(browser, headers))
  {
    var stems := Stems(server, headers);
    DistinctExactly(stems);
    UniqueIsDistinct(stems);
    if Distinct(Numbered(stems)) {
      DistinctNumbersAreFree(stems);
    }
  }

  lemma CountSnoc(stems: seq<string>, last: string, b: string)
    ensures Count(stems + [last], b) == Count(stems, b) + (if last == b then 1 else 0)
  {
    assert (stems + [last])[..|stems|] == stems;
  }

  lemma RepeatsLookAlike(stems: seq<string>)
    requires stems == ["a", "a", "a_2"]
    ensures Numbered(stems) == ["a", "a_2", "a_2"]
  {
    hide Count, Numbered, Decimal;
    assert stems[..0] == [] && stems[..1] == ["a"] && stems[..2] == ["a", "a"];
    EmptyNumbered();
    assert [] + ["a"] == ["a"] && ["a"] + ["a"] == ["a", "a"];
    CountSnoc([], "a", "a");
    CountSnoc([], "a", "a_2");
    CountSnoc(["a"], "a", "a_2");
    assert Candidate("a", 2) == "a_2" by { TwoIsADigit(); }
    NumberedAt(stems, 0);
    NumberedAt(stems, 1);
    NumberedAt(stems, 2);
  }

  lemma NumberedSnoc(front: seq<string>, last: string)
    ensures Numbered(front + [last]) == Numbered(front) + [Candidate(last, Count(front, last) + 1)]
    ensures Counters(front + [last])
         == CounterAfter(Counters(front), last, FreeSuffix(Names(Unique(front)), last, 1))
  {
    hide FreeSuffix, CounterAfter, Candidate, Numbered, Unique, Counters, Count;
    var stems := front + [last];
    assert stems[..|front|] == front && stems[..|stems|] == stems;
    NumberedNext(stems, |front|);
    UniqueNext(stems, |front|);
  }

  lemma DistinctSnoc(names: seq<string>, name: string)
    requires Distinct(names + [name])
    ensures Distinct(names) && name !in names
  {
    assert forall i :: 0 <= i < |names| ==> (names + [name])[i] == names[i];
    assert (names + [name])[|names|] == name;
  }

  /** While the two versions agree, the next name is the one with the stem's next number. */
  lemma NextIsCounted(front: seq<string>, last: string)
    requires Distinct(Numbered(front + [last]))
    ensures Distinct(Numbered(front))
    ensures FreeSuffix(Names(Unique(front)), last, 1) == Count(front, last) + 1
  {
    hide Candidate, Count, Numbered, Unique, FreeSuffix, FreeName;
    var k := Count(front, last) + 1;
    NumberedSnoc(front, last);
    DistinctSnoc(Numbered(front), Candidate(last, k));
    DistinctNumbersAreFree(front);
    forall j | 1 <= j <= k - 1 ensures Candidate(last, j) in Names(Unique(front)) {
      var i := SmallerSuffixTaken(front, last, j);
    }
    FreeNameIs(Names(Unique(front)), last, k);
  }

  /** While the two versions agree, the server's counter of each stem is one behind the
      number of its columns so far, which is the browser's. */
  lemma {:induction false} ServerIsOneBehind(stems: seq<string>, b: string)
    requires Distinct(Numbered(stems))
    ensures Get(Counters(stems), b) == if Count(stems, b) == 0 then 0 else Count(stems, b) - 1
  {
    hide Numbered, Unique, FreeSuffix, Candidate;
    if stems != [] {
      var front, last := stems[..|stems| - 1], stems[|stems| - 1];
      assert stems == front + [last];
      NextIsCounted(front, last);
      NumberedSnoc(front, last);
      ServerIsOneBehind(front, b);
      ServerIsOneBehind(front, last);
    }
  }

  /** Headers on which they differ: the browser names both of the last two columns a_2. */
  lemma VersionsDiffer(norm: string -> string)
    requires norm("a") == "a" && norm("a_2") == "a_2"
    ensures BrowserColumns(norm, ["a", "a", "a_2"]) == ["a", "a_2", "a_2"]
    ensures SanitizeColumns(norm, ["a", "a", "a_2"]) != ["a", "a_2", "a_2"]
  {
    hide Stem, Numbered, Unique;
    var stems := ["a", "a", "a_2"];
    assert Stems(norm, stems) == stems by {
      PlainStem(norm, "a", 0);
      PlainStem(norm, "a", 1);
      PlainStem(norm, "a_2", 2);
    }
    RepeatsLookAlike(stems);
    UniqueIsDistinct(stems);
    assert Unique(stems)[1] != Unique(stems)[2];
  }

  lemma TwoIsADigit()
    ensures Decimal(2) == "2"
  {
  }
}
