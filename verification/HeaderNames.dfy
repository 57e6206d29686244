/**
 * Which column name a header gets: its words joined by underscores, with the
 * rules for reserved names, empty names, a digit in front and the length.
 */
module HeaderNames {
  import CsvText
  import opened Sanitize

  /** Characters that cannot stand in a name. */
  predicate Run(s: string) {
    s != "" && forall i :: 0 <= i < |s| ==> !WordChar(s[i])
  }

  /** Words with runs of other characters between them; only the outer words may be empty. */
  predicate Woven(words: seq<string>, runs: seq<string>) {
    && |words| == |runs| + 1
    && (forall i :: 0 <= i < |words| ==> WordChars(words[i]))
    && (forall i :: 0 <= i < |runs| ==> Run(runs[i]))
    && (forall i :: 0 < i < |words| - 1 ==> words[i] != "")
  }

  function Weave(words: seq<string>, runs: seq<string>): string
    requires |words| == |runs| + 1
  {
    if runs == [] then words[0]
    else Weave(words[..|words| - 1], runs[..|runs| - 1]) + runs[|runs| - 1] + words[|words| - 1]
  }

  lemma {:induction false} CollapseWord(s: string, word: string)
    requires WordChars(word)
    ensures Collapse(s + word) == Collapse(s) + word
  {
    if word == "" {
      assert s + word == s && Collapse(s) + word == Collapse(s);
    } else {
      var n := |word| - 1;
      CollapseWord(s, word[..n]);
      assert (s + word)[..|s + word| - 1] == s + word[..n] && (s + word)[|s + word| - 1] == word[n];
      assert word == word[..n] + [word[n]];
      assert Collapse(s) + word == Collapse(s) + word[..n] + [word[n]];
    }
  }

  lemma CollapseNext(s: string, ch: char)
    requires !WordChar(ch)
    ensures Collapse(s + [ch]) == if s != "" && !WordChar(s[|s| - 1]) then Collapse(s) else Collapse(s) + "_"
  {
    hide WordChar;
    assert (s + [ch])[..|s|] == s;
  }

  /** A whole run becomes one underscore. */
  lemma {:induction false} CollapseRun(s: string, run: string)
    requires Run(run) && (s == "" || WordChar(s[|s| - 1]))
    ensures Collapse(s + run) == Collapse(s) + "_"
  {
    hide Collapse, WordChar;
    var n := |run| - 1;
    var front := run[..n];
    assert run == front + [run[n]] && s + run == (s + front) + [run[n]];
    CollapseNext(s + front, run[n]);
    if n == 0 {
      assert s + front == s;
    } else {
      assert (s + front)[|s + front| - 1] == run[n - 1];
      CollapseRun(s, front);
    }
  }

  lemma FrontIsWoven(words: seq<string>, runs: seq<string>)
    requires Woven(words, runs) && runs != []
    ensures Woven(words[..|words| - 1], runs[..|runs| - 1])
  {
  }

  /** A woven text ends with its last word. */
  lemma WeaveEnds(words: seq<string>, runs: seq<string>)
    requires Woven(words, runs)
    ensures var text, last := Weave(words, runs), words[|words| - 1];
            if last == "" then runs == [] ==> text == "" else text != "" && WordChar(text[|text| - 1])
  {
  }

  /** Cleaning joins the words by underscores. */
  lemma {:induction false} CollapseJoinsWords(words: seq<string>, runs: seq<string>)
    requires Woven(words, runs)
    ensures Collapse(Weave(words, runs)) == CsvText.Join("_", words)
  {
    if runs == [] {
      WordsStay(words[0]);
    } else {
      var front, last, run := words[..|words| - 1], words[|words| - 1], runs[|runs| - 1];
      var rest := runs[..|runs| - 1];
      FrontIsWoven(words, runs);
      CollapseJoinsWords(front, rest);
      WeaveEnds(front, rest);
      hide Collapse, WordChars, WordChar;
      CollapseRun(Weave(front, rest), run);
      CollapseWord(Weave(front, rest) + run, last);
    }
  }

  /** Every text is woven. */
  lemma {:induction false} EveryTextIsWoven(text: string) returns (words: seq<string>, runs: seq<string>)
    ensures Woven(words, runs) && Weave(words, runs) == text
  {
    if text == "" {
      words, runs := [""], [];
    } else {
      var n, ch := |text| - 1, text[|text| - 1];
      words, runs := EveryTextIsWoven(text[..n]);
      assert text == text[..n] + [ch];
      if WordChar(ch) {
        words, runs := AddToWord(words, runs, ch);
      } else if words[|words| - 1] == "" && runs != [] {
        words, runs := AddToRun(words, runs, ch);
      } else {
        words, runs := StartRun(words, runs, ch);
      }
    }
  }

  lemma AddToWord(words: seq<string>, runs: seq<string>, ch: char) returns (words': seq<string>, runs': seq<string>)
    requires Woven(words, runs) && WordChar(ch)
    ensures Woven(words', runs') && Weave(words', runs') == Weave(words, runs) + [ch]
  {
    var n := |words| - 1;
    words', runs' := words[n := words[n] + [ch]], runs;
    assert words'[..n] == words[..n];
  }

  lemma AddToRun(words: seq<string>, runs: seq<string>, ch: char) returns (words': seq<string>, runs': seq<string>)
    requires Woven(words, runs) && !WordChar(ch) && words[|words| - 1] == "" && runs != []
    ensures Woven(words', runs') && Weave(words', runs') == Weave(words, runs) + [ch]
  {
    var n := |runs| - 1;
    words', runs' := words, runs[n := runs[n] + [ch]];
    assert runs'[..n] == runs[..n];
  }

  lemma StartRun(words: seq<string>, runs: seq<string>, ch: char) returns (words': seq<string>, runs': seq<string>)
    requires Woven(words, runs) && !WordChar(ch) && (words[|words| - 1] != "" || runs == [])
    ensures Woven(words', runs') && Weave(words', runs') == Weave(words, runs) + [ch]
  {
    words', runs' := words + [""], runs + [[ch]];
    assert words'[..|words|] == words && runs'[..|runs|] == runs;
    assert Weave(words, runs) + [ch] + "" == Weave(words, runs) + [ch];
  }

  // ---------------------------------------------------------------------
  // Underscores at the ends
  // ---------------------------------------------------------------------

  function Underscores(n: nat): (s: string)
    ensures |s| == n
  {
    seq(n, _ => '_')
  }

  predicate Bare(core: string) {
    core != "" ==> core[0] != '_' && core[|core| - 1] != '_'
  }

  function Between(left: nat, core: string, right: nat): string {
    Underscores(left) + (core + Underscores(right))
  }

  lemma BetweenEnds(left: nat, core: string, right: nat)
    requires Bare(core)
    ensures left > 0 ==> Between(left, core, right) != "" && Between(left, core, right)[0] == '_'
                         && Between(left, core, right)[1..] == Between(left - 1, core, right)
    ensures core == "" && right > 0 ==> Between(0, core, right) == Between(right, core, 0)
    ensures core != "" && right > 0 ==>
              var s := Between(0, core, right);
              s != "" && s[0] != '_' && s[|s| - 1] == '_' && s[..|s| - 1] == Between(0, core, right - 1)
    ensures Between(0, core, 0) == core
  {
    assert core != "" ==> Between(0, core, right)[0] == core[0];
  }

  lemma StripOnce(s: string)
    requires s != ""
    ensures s[0] == '_' ==> StripUnderscores(s) == StripUnderscores(s[1..])
    ensures s[0] != '_' && s[|s| - 1] == '_' ==> StripUnderscores(s) == StripUnderscores(s[..|s| - 1])
  {
  }

  lemma StripNothing(core: string)
    requires Bare(core)
    ensures StripUnderscores(core) == core
  {
  }

  lemma {:induction false} StripBetween(left: nat, core: string, right: nat)
    requires Bare(core)
    ensures StripUnderscores(Between(left, core, right)) == core
    decreases left + right, right
  {
    hide StripUnderscores, Between, Bare;
    BetweenEnds(left, core, right);
    if left > 0 {
      StripBetween(left - 1, core, right);
      StripOnce(Between(left, core, right));
    } else if right == 0 {
      StripNothing(core);
    } else if core == "" {
      StripBetween(right, core, 0);
    } else {
      StripBetween(0, core, right - 1);
      StripOnce(Between(0, core, right));
    }
  }

  /** Every text has a core. */
  lemma {:induction false} EveryTextHasCore(s: string) returns (left: nat, core: string, right: nat)
    ensures Bare(core) && Between(left, core, right) == s
    decreases |s|
  {
    if s != "" && s[0] == '_' {
      left, core, right := EveryTextHasCore(s[1..]);
      left := left + 1;
      assert s == [s[0]] + s[1..];
    } else if s != "" && s[|s| - 1] == '_' {
      left, core, right := EveryTextHasCore(s[..|s| - 1]);
      right := right + 1;
      assert s == s[..|s| - 1] + [s[|s| - 1]];
    } else {
      left, core, right := 0, s, 0;
    }
  }

  // ---------------------------------------------------------------------
  // The name
  // ---------------------------------------------------------------------

  function NumberedColumn(index: nat): string {
    "column_" + Decimal(index + 1)
  }

  /** The words joined, with a suffix if that is the name of a system column. */
  function Joined(words: seq<string>): string {
    var base := CsvText.Join("_", words);
    if base in {"_id", "_row_hash", "_created_at"} then base + "_col" else base
  }

  /** The name for this core: never empty, never starting with a digit, at most 55 long. */
  function NameFor(core: string, index: nat): string {
    var name := if core == "" then NumberedColumn(index) else core;
    var full := if '0' <= name[0] <= '9' then "col_" + name else name;
    if |full| > 55 then full[..55] else full
  }

  /** The stem of a header: its words joined by underscores, without underscores at the ends,
      with the rules for reserved, empty, numeric and long names. */
  lemma StemIs(norm: string -> string, header: string, index: nat,
               words: seq<string>, runs: seq<string>, left: nat, core: string, right: nat)
    requires Woven(words, runs) && norm(if header == "" then NumberedColumn(index) else header) == Weave(words, runs)
    requires Bare(core) && Joined(words) == Between(left, core, right)
    ensures Stem(norm, header, index) == NameFor(core, index)
  {
    hide Decimal, Collapse, StripUnderscores, WordChars, Bare, Between, Woven, Weave;
    CollapseJoinsWords(words, runs);
    StripBetween(left, core, right);
  }

  lemma FreeStem(taken: set<string>, stem: string)
    requires stem !in taken
    ensures FreeName(taken, stem) == stem
  {
    hide FreeSuffix, FreeName;
    FreeNameIs(taken, stem, 1);
  }

  lemma UniqueSnoc(front: seq<string>, last: string)
    ensures Unique(front + [last]) == Unique(front) + [FreeName(Names(Unique(front)), last)]
  {
    hide Unique, FreeName;
    var stems := front + [last];
    assert stems[..|front|] == front && stems[..|front| + 1] == stems;
    UniqueNext(stems, |front|);
  }

  lemma NothingUnique()
    ensures Unique([]) == []
  {
  }

  /** Headers with different stems are named by their stems. */
  lemma {:induction false} DistinctStemsAreNames(stems: seq<string>)
    requires Distinct(stems)
    ensures Unique(stems) == stems
  {
    hide FreeSuffix, FreeName, Unique, Candidate, Distinct;
    if stems == [] {
      NothingUnique();
    } else {
      var front, last := stems[..|stems| - 1], stems[|stems| - 1];
      assert stems == front + [last];
      DistinctSnoc(front, last);
      DistinctStemsAreNames(front);
      FreeStem(Names(front), last);
      UniqueSnoc(front, last);
    }
  }

  /** What `StemIs` says of one header. */
  ghost predicate Named(norm: string -> string, header: string, index: nat, name: string) {
    exists words, runs, left, core, right ::
      && Woven(words, runs) && norm(if header == "" then NumberedColumn(index) else header) == Weave(words, runs)
      && Bare(core) && Joined(words) == Between(left, core, right) && name == NameFor(core, index)
  }

  /** Every header has exactly one such name; and if the names of all headers differ, they
      are the columns. */
  lemma ColumnsAreNamed(norm: string -> string, headers: seq<string>, names: seq<string>)
    requires |names| == |headers| && forall i :: 0 <= i < |headers| ==> Named(norm, headers[i], i, names[i])
    requires Distinct(names)
    ensures SanitizeColumns(norm, headers) == names
  {
    forall i | 0 <= i < |headers| ensures Stem(norm, headers[i], i) == names[i] {
      NamedOnce(norm, headers[i], i, names[i]);
    }
    assert Stems(norm, headers) == names;
    DistinctStemsAreNames(names);
  }

  lemma NamedOnce(norm: string -> string, header: string, index: nat, name: string)
    ensures Named(norm, header, index, name) <==> name == Stem(norm, header, index)
  {
    hide NameFor, Run, WordChars, Weave, Bare, Between, Joined, Stem;
    if Named(norm, header, index, name) {
      var words, runs, left, core, right :|
        && Woven(words, runs) && norm(if header == "" then NumberedColumn(index) else header) == Weave(words, runs)
        && Bare(core) && Joined(words) == Between(left, core, right) && name == NameFor(core, index);
      StemIs(norm, header, index, words, runs, left, core, right);
    }
    var words, runs := EveryTextIsWoven(norm(if header == "" then NumberedColumn(index) else header));
    var left, core, right := EveryTextHasCore(Joined(words));
    StemIs(norm, header, index, words, runs, left, core, right);
    assert Named(norm, header, index, NameFor(core, index));
  }

  /** A header of two words becomes one name. */
  lemma FirstNameIsFirstName(norm: string -> string)
    requires norm("First Name") == "first name"
    ensures SanitizeColumns(norm, ["First Name"]) == ["first_name"]
  {
    hide Stem, Woven, Weave, Between, NameFor, Joined, SanitizeColumns;
    assert Woven(["first", "name"], [" "]) && Weave(["first", "name"], [" "]) == "first name" by {
      TwoWords("first", " ", "name");
    }
    assert Joined(["first", "name"]) == Between(0, "first_name", 0) && Bare("first_name") by { FirstNameIsCore(); }
    assert NameFor("first_name", 0) == "first_name" by { FirstNameIsShort(); }
    assert Named(norm, "First Name", 0, "first_name");
    ColumnsAreNamed(norm, ["First Name"], ["first_name"]);
  }

  lemma FirstNameIsCore()
    ensures Joined(["first", "name"]) == Between(0, "first_name", 0) && Bare("first_name")
  {
    TwoWords("first", " ", "name");
    assert Joined(["first", "name"]) == "first_name";
    BetweenEnds(0, "first_name", 0);
  }

  lemma FirstNameIsShort()
    ensures NameFor("first_name", 0) == "first_name"
  {
  }

  lemma TwoWords(a: string, run: string, b: string)
    requires WordChars(a) && Run(run) && WordChars(b)
    ensures Woven([a, b], [run]) && Weave([a, b], [run]) == a + run + b && CsvText.Join("_", [a, b]) == a + "_" + b
  {
    assert [a, b][..1] == [a] && [run][..0] == [];
  }

  lemma ReservedStem(norm: string -> string, header: string, index: nat, rest: string)
    requires header != "" && norm(header) == "_" + rest && WordChars(rest)
    requires "_" + rest in {"_id", "_row_hash", "_created_at"}
    requires 0 < |rest| < 20 && rest[0] != '_' && !('0' <= rest[0] <= '9')
    ensures Stem(norm, header, index) == rest + "_col"
  {
    var name, core := "_" + rest, rest + "_col";
    assert Woven([name], []) && Weave([name], []) == name && Joined([name]) == name + "_col";
    assert name + "_col" == "_" + (core + "");
    assert Underscores(1) == "_" && Underscores(0) == "";
    assert core[0] == rest[0] && core[|core| - 1] == 'l';
    hide Stem, Woven, Weave, Joined, Underscores;
    assert Between(1, core, 0) == name + "_col" by { assert Underscores(1) + (core + Underscores(0)) == name + "_col"; }
    StemIs(norm, header, index, [name], [], 1, core, 0);
  }

  /** A system column's name is not taken over: `_id` becomes `id_col`, and so on. */
  lemma ReservedNames(norm: string -> string, header: string, index: nat)
    requires header != "" && norm(header) in {"_id", "_row_hash", "_created_at"}
    ensures Stem(norm, header, index)
         == if norm(header) == "_id" then "id_col"
            else if norm(header) == "_row_hash" then "row_hash_col" else "created_at_col"
  {
    hide Stem;
    if norm(header) == "_id" {
      ReservedStem(norm, header, index, "id");
    } else if norm(header) == "_row_hash" {
      ReservedStem(norm, header, index, "row_hash");
    } else {
      ReservedStem(norm, header, index, "created_at");
    }
  }
}
