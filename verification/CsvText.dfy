/**
 * The CSV dialect: the quoted-field parser shared by the server and the
 * browser, the browser's truncating preview, and the export's printer.
 *
 * The parser reads with one character of lookahead. Its specification here is
 * a machine without lookahead that reads one character at a time.
 */
module CsvText {
  import opened Common

  type Cells = seq<string>

  const BOM := '\U{FEFF}'

  // ---------------------------------------------------------------------
  // The machine
  // ---------------------------------------------------------------------

  /** `QuoteSeen`: a quote was read inside quotes, and its meaning depends on the next character. */
  datatype Mode = Plain | Quoted | QuoteSeen

  datatype Machine = Machine(rows: seq<Cells>, row: Cells, field: string, mode: Mode)

  const START := Machine([], [], "", Plain)

  function Feed(m: Machine, ch: char): Machine {
    if m.mode == Quoted then
      if ch == '"' then m.(mode := QuoteSeen) else m.(field := m.field + [ch])
    else if ch == '"' then
      if m.mode == QuoteSeen then m.(field := m.field + "\"", mode := Quoted) else m.(mode := Quoted)
    else if ch == ',' then
      Machine(m.rows, m.row + [m.field], "", Plain)
    else if ch == '\r' then
      m.(mode := Plain)
    else if ch == '\n' then
      Machine(m.rows + [m.row + [m.field]], [], "", Plain)
    else
      m.(field := m.field + [ch], mode := Plain)
  }

  function FeedAll(m: Machine, text: string): Machine {
    if text == "" then m else Feed(FeedAll(m, text[..|text| - 1]), text[|text| - 1])
  }

  lemma {:induction false} FeedAllAppend(m: Machine, a: string, b: string)
    ensures FeedAll(m, a + b) == FeedAll(FeedAll(m, a), b)
  {
    if b == "" {
      assert a + b == a;
    } else {
      FeedAllAppend(m, a, b[..|b| - 1]);
      assert (a + b)[..|a + b| - 1] == a + b[..|b| - 1];
    }
  }

  predicate Blank(row: Cells) {
    forall i :: 0 <= i < |row| ==> row[i] == ""
  }

  /** Blank rows at the end are dropped; blank rows elsewhere stay. */
  function TrimBlank(rows: seq<Cells>): (r: seq<Cells>)
    ensures r <= rows
    ensures r != [] ==> !Blank(r[|r| - 1])
    ensures forall i :: |r| <= i < |rows| ==> Blank(rows[i])
  {
    if rows != [] && Blank(rows[|rows| - 1]) then TrimBlank(rows[..|rows| - 1]) else rows
  }

  /** The last line need not end in a newline. */
  function AllRows(m: Machine): seq<Cells> {
    if m.field != "" || m.row != [] then m.rows + [m.row + [m.field]] else m.rows
  }

  function StripBom(text: string): string {
    if text != "" && text[0] == BOM then text[1..] else text
  }

  function Parse(text: string): seq<Cells> {
    TrimBlank(AllRows(FeedAll(START, StripBom(text))))
  }

  method PopBlankRows(all: seq<Cells>) returns (rows: seq<Cells>)
    ensures rows == TrimBlank(all)
  {
    rows := all;
    while rows != [] && Blank(rows[|rows| - 1])
      invariant TrimBlank(rows) == TrimBlank(all)
      decreases |rows|
    {
      rows := rows[..|rows| - 1];
    }
  }

  lemma FeedNone()
    ensures FeedAll(START, "") == START
  {
  }

  lemma FeedNext(src: string, i: nat)
    requires i < |src|
    ensures FeedAll(START, src[..i + 1]) == Feed(FeedAll(START, src[..i]), src[i])
  {
    assert src[..i + 1][..i] == src[..i];
  }

  /** The loop both programs run, with its one character of lookahead. */
  method ParseCsv(text: string) returns (rows: seq<Cells>)
    ensures rows == Parse(text)
  {
    hide TrimBlank, Blank, FeedAll;
    rows := [];
    var field: string := "";
    var row: Cells := [];
    var inQuotes := false;
    var src := if text != "" && text[0] == BOM then text[1..] else text;
    var i := 0;
    var n := |src|;
    FeedNone();
    while i < n
      invariant 0 <= i <= n
      invariant var m := FeedAll(START, src[..i]);
                && m.rows == rows && m.row == row && m.field == field
                && inQuotes == (m.mode == Quoted)
                && (m.mode == QuoteSeen ==> i == n || src[i] != '"')
    {
      var ch := src[i];
      FeedNext(src, i);
      if inQuotes {
        if ch == '"' {
          if i + 1 < n && src[i + 1] == '"' {
            FeedNext(src, i + 1);
            field := field + "\"";
            i := i + 2;
            continue;
          }
          inQuotes := false;
          i := i + 1;
          continue;
        }
        field := field + [ch];
        i := i + 1;
        continue;
      }
      if ch == '"' {
        inQuotes := true;
        i := i + 1;
        continue;
      }
      if ch == ',' {
        row := row + [field];
        field := "";
        i := i + 1;
        continue;
      }
      if ch == '\r' {
        i := i + 1;
        continue;
      }
      if ch == '\n' {
        row := row + [field];
        rows := rows + [row];
        row := [];
        field := "";
        i := i + 1;
        continue;
      }
      field := field + [ch];
      i := i + 1;
    }
    assert src[..n] == src;
    if field != "" || row != [] {
      row := row + [field];
      rows := rows + [row];
    }
    rows := PopBlankRows(rows);
  }

  /** Every parsed row has a cell, and the last one is not blank. */
  lemma ParsedRowsHaveCells(text: string)
    ensures forall i :: 0 <= i < |Parse(text)| ==> |Parse(text)[i]| > 0
  {
    MachineRowsHaveCells(START, StripBom(text));
  }

  lemma {:induction false} MachineRowsHaveCells(m: Machine, text: string)
    requires forall i :: 0 <= i < |m.rows| ==> |m.rows[i]| > 0
    ensures forall i :: 0 <= i < |FeedAll(m, text).rows| ==> |FeedAll(m, text).rows[i]| > 0
  {
    if text != "" {
      MachineRowsHaveCells(m, text[..|text| - 1]);
    }
  }

  // ---------------------------------------------------------------------
  // The preview reads only the beginning of a file.
  // ---------------------------------------------------------------------

  /** The row being read. Nothing that follows can make it blank again. */
  function OpenRow(m: Machine): Cells {
    m.row + [m.field]
  }

  lemma StepKeepsOpenRow(m: Machine, ch: char)
    ensures m.rows <= Feed(m, ch).rows
    ensures !Blank(OpenRow(m)) ==>
              if |Feed(m, ch).rows| > |m.rows| then !Blank(Feed(m, ch).rows[|m.rows|])
              else !Blank(OpenRow(Feed(m, ch)))
  {
    if !Blank(OpenRow(m)) {
      var k :| 0 <= k < |OpenRow(m)| && OpenRow(m)[k] != "";
      var m' := Feed(m, ch);
      if |m'.rows| == |m.rows| {
        assert k < |OpenRow(m')| && OpenRow(m')[k] != "";
      } else {
        assert m'.rows[|m.rows|] == OpenRow(m);
      }
    }
  }

  lemma {:induction false} ReadingOnKeepsRows(m: Machine, text: string)
    ensures m.rows <= FeedAll(m, text).rows
    ensures !Blank(OpenRow(m)) ==>
              if |FeedAll(m, text).rows| > |m.rows| then !Blank(FeedAll(m, text).rows[|m.rows|])
              else !Blank(OpenRow(FeedAll(m, text)))
  {
    if text != "" {
      var before := FeedAll(m, text[..|text| - 1]);
      ReadingOnKeepsRows(m, text[..|text| - 1]);
      StepKeepsOpenRow(before, text[|text| - 1]);
    }
  }

  lemma RowSurvivesTrim(rows: seq<Cells>, i: nat)
    requires i < |rows| && !Blank(rows[i])
    ensures i < |TrimBlank(rows)| && rows[..i + 1] <= TrimBlank(rows)
  {
  }

  /** Rows that agree up to a row that is not blank stay when blank rows are dropped. */
  lemma AgreeingRowsSurvive(a: seq<Cells>, b: seq<Cells>, n: nat)
    requires n < |a| && n < |b| && a[..n] == b[..n] && !Blank(b[n])
    ensures n < |TrimBlank(b)| && a[..n] <= TrimBlank(b)
    ensures a[n] == b[n] ==> a[..n + 1] <= TrimBlank(b)
  {
    hide Blank;
    RowSurvivesTrim(b, n);
    assert b[..n + 1][..n] == b[..n];
    assert a[n] == b[n] ==> a[..n + 1] == b[..n + 1];
  }

  lemma AllRowsAre(m: Machine)
    ensures m.rows <= AllRows(m) && |AllRows(m)| <= |m.rows| + 1
    ensures |AllRows(m)| > |m.rows| ==> AllRows(m)[|m.rows|] == OpenRow(m)
    ensures !Blank(OpenRow(m)) ==> |AllRows(m)| > |m.rows|
  {
  }

  /** A row kept by the trim at a cut is still there, or has grown, when reading goes on. */
  lemma ReadingOnKeepsCut(m: Machine, tail: string)
    ensures var cut, whole := TrimBlank(AllRows(m)), TrimBlank(AllRows(FeedAll(m, tail)));
            && (cut != [] ==> |cut| <= |whole| && cut[..|cut| - 1] <= whole)
            && (|cut| <= |m.rows| ==> cut <= whole)
  {
    hide FeedAll, Blank, AllRows, OpenRow;
    var w := FeedAll(m, tail);
    var a, b := AllRows(m), AllRows(w);
    var cut := TrimBlank(a);
    ReadingOnKeepsRows(m, tail);
    AllRowsAre(m);
    AllRowsAre(w);
    if cut != [] {
      var n := |cut| - 1;
      assert a[..n + 1] == cut && !Blank(a[n]);
      assert a[..n] == m.rows[..n] == w.rows[..n] == b[..n];
      AgreeingRowsSurvive(a, b, n);
      assert cut[..n] == a[..n];
    }
  }

  /** How many lines of the text are complete: their newline was read outside quotes. */
  function LinesEnded(text: string): nat {
    |FeedAll(START, StripBom(text)).rows|
  }

  /** Whatever the cut hits, all rows of the cut text but its last are rows of the
      whole text; the last one is too if its line had ended. */
  lemma CutKeepsRows(text: string, k: nat)
    requires k <= |text|
    ensures var cut := Parse(text[..k]);
            && (cut != [] ==> |cut| <= |Parse(text)| && cut[..|cut| - 1] <= Parse(text))
            && (|cut| <= LinesEnded(text[..k]) ==> cut <= Parse(text))
  {
    var src := StripBom(text);
    var part := StripBom(text[..k]);
    assert src == part + src[|part|..];
    FeedAllAppend(START, part, src[|part|..]);
    ReadingOnKeepsCut(FeedAll(START, part), src[|part|..]);
  }

  /** The rows a preview shows of the text it has read: not the last one if the file goes
      on, unless it is the only one. */
  function Shown(cut: string, truncated: bool): (shown: seq<Cells>)
    ensures shown <= Parse(cut)
    ensures |Parse(cut)| - |shown| == if truncated && |Parse(cut)| > 1 then 1 else 0
  {
    var rows := Parse(cut);
    if truncated && |rows| > 1 then rows[..|rows| - 1] else rows
  }

  /** The rows the preview shows for a file cut after `k` characters. */
  method PreviewRows(text: string, k: nat) returns (rows: seq<Cells>)
    requires k <= |text|
    ensures rows == Shown(text[..k], k < |text|)
    ensures |rows| <= |Parse(text)|
    ensures k == |text| ==> rows == Parse(text)
    ensures |Parse(text[..k])| != 1 || LinesEnded(text[..k]) > 0 ==> rows <= Parse(text)
  {
    var truncated := |text| > k;
    rows := ParseCsv(text[..k]);
    CutKeepsRows(text, k);
    assert text[..|text|] == text;
    if truncated && |rows| > 1 {
      rows := rows[..|rows| - 1];
    }
  }

  /** Of a single line that has not ended, one more letter changes the row. */
  lemma UnfinishedLineGrows(cut: string)
    requires |Parse(cut)| == 1 && LinesEnded(cut) == 0
    ensures !(Shown(cut, true) <= Parse(cut + "a"))
  {
    var m := FeedAll(START, StripBom(cut));
    assert StripBom(cut + "a") == StripBom(cut) + "a";
    FeedAllAppend(START, StripBom(cut), "a");
    FeedOne(m, 'a');
    var row, longer := OpenRow(m), OpenRow(Feed(m, 'a'));
    assert AllRows(m) == [row] && Parse(cut) == [row];
    assert longer == m.row + [m.field + "a"];
    assert !Blank(longer) by {
      assert longer[|m.row|] != "";
    }
    assert AllRows(Feed(m, 'a')) == [longer];
    assert row[|m.row|] != longer[|m.row|];
  }

  /** The rows shown of a truncated file are rows of the file, however it goes on, exactly
      when the text read has no row, more than one, or a complete line. */
  lemma ShownAreRowsExactly(cut: string)
    ensures (forall tail :: tail != "" ==> Shown(cut, true) <= Parse(cut + tail))
            <==> |Parse(cut)| != 1 || LinesEnded(cut) > 0
  {
    if |Parse(cut)| == 1 && LinesEnded(cut) == 0 {
      UnfinishedLineGrows(cut);
    } else {
      forall tail | tail != "" ensures Shown(cut, true) <= Parse(cut + tail) {
        CutKeepsRows(cut + tail, |cut|);
        assert (cut + tail)[..|cut|] == cut;
      }
    }
  }

  // ---------------------------------------------------------------------
  // The printer
  // ---------------------------------------------------------------------

  predicate Digits(s: string) {
    s != "" && forall i :: 0 <= i < |s| ==> '0' <= s[i] <= '9'
  }

  /** `\d+(\.\d+)?` */
  predicate IsDecimal(s: string) {
    Digits(s) || exists i :: 0 <= i < |s| && s[i] == '.' && Digits(s[..i]) && Digits(s[i + 1..])
  }

  predicate PlainNumber(s: string) {
    IsDecimal(if s != "" && (s[0] == '+' || s[0] == '-') then s[1..] else s)
  }

  predicate FormulaStart(s: string) {
    s != "" && s[0] in {'=', '+', '-', '@', '\t', '\r'}
  }

  predicate Dangerous(s: string) {
    FormulaStart(s) && !PlainNumber(s)
  }

  function Guard(s: string): string {
    if Dangerous(s) then "'" + s else s
  }

  predicate NeedsQuotes(s: string) {
    exists i :: 0 <= i < |s| && s[i] in {'"', ',', '\n', '\r'}
  }

  function DoubleQuotes(s: string): string {
    if s == "" then ""
    else DoubleQuotes(s[..|s| - 1]) + (if s[|s| - 1] == '"' then "\"\"" else [s[|s| - 1]])
  }

  function Escape(cell: string): string {
    var s := Guard(cell);
    if NeedsQuotes(s) then "\"" + DoubleQuotes(s) + "\"" else s
  }

  function Join(separator: string, parts: seq<string>): string {
    if parts == [] then ""
    else if |parts| == 1 then parts[0]
    else Join(separator, parts[..|parts| - 1]) + separator + parts[|parts| - 1]
  }

  function Map<A, B>(f: A -> B, s: seq<A>): (r: seq<B>)
    ensures |r| == |s| && forall i :: 0 <= i < |s| ==> r[i] == f(s[i])
  {
    seq(|s|, i requires 0 <= i < |s| => f(s[i]))
  }

  function PrintRow(cells: Cells): string {
    Join(",", Map(Escape, cells))
  }

  function Print(rows: seq<Cells>): string {
    Join("\n", Map(PrintRow, rows))
  }

  function GuardRow(cells: Cells): Cells {
    Map(Guard, cells)
  }

  lemma {:induction false} FeedDoubled(m: Machine, s: string)
    requires m.mode == Quoted
    ensures FeedAll(m, DoubleQuotes(s)) == m.(field := m.field + s)
  {
    if s == "" {
      assert m.field + s == m.field;
    } else {
      var front, last := s[..|s| - 1], s[|s| - 1];
      FeedDoubled(m, front);
      assert s == front + [last];
      var q := FeedAll(m, DoubleQuotes(front));
      var tail: string := if last == '"' then "\"\"" else [last];
      hide FeedAll;
      FeedAllAppend(m, DoubleQuotes(front), tail);
      FeedOne(q, last);
      if last == '"' {
        FeedTwo(q, '"', '"');
      }
    }
  }

  lemma FeedTwo(m: Machine, a: char, b: char)
    ensures FeedAll(m, [a, b]) == Feed(Feed(m, a), b)
  {
    assert [a, b][..1] == [a];
    FeedOne(m, a);
  }

  lemma FeedOne(m: Machine, ch: char)
    ensures FeedAll(m, [ch]) == Feed(m, ch)
  {
    assert [ch][..0] == "";
  }

  lemma JoinSnoc(separator: string, parts: seq<string>, last: string)
    requires parts != []
    ensures Join(separator, parts + [last]) == Join(separator, parts) + separator + last
  {
    assert (parts + [last])[..|parts|] == parts;
  }

  lemma MapSnoc<A, B>(f: A -> B, s: seq<A>)
    requires s != []
    ensures Map(f, s) == Map(f, s[..|s| - 1]) + [f(s[|s| - 1])]
  {
  }

  // ---------------------------------------------------------------------
  // The dialect: how rows may be spelled, and what each spelling says
  // ---------------------------------------------------------------------

  /** A cell is spelled in pieces, outside quotes or in quotes. */
  datatype Piece = Loose(text: string) | InQuotes(text: string)

  function NotCr(): char -> bool {
    ch => ch != '\r'
  }

  function PrintPiece(p: Piece): string {
    match p
    case Loose(text) => text
    case InQuotes(text) => "\"" + DoubleQuotes(text) + "\""
  }

  /** Outside quotes carriage returns say nothing; in quotes everything is itself. */
  function Says(p: Piece): string {
    match p
    case Loose(text) => Filter(NotCr(), text)
    case InQuotes(text) => text
  }

  function Spell(pieces: seq<Piece>): string {
    if pieces == [] then "" else Spell(pieces[..|pieces| - 1]) + PrintPiece(pieces[|pieces| - 1])
  }

  function Content(pieces: seq<Piece>): string {
    if pieces == [] then "" else Content(pieces[..|pieces| - 1]) + Says(pieces[|pieces| - 1])
  }

  predicate LooseText(s: string) {
    forall i :: 0 <= i < |s| ==> s[i] !in {'"', ',', '\n'}
  }

  /** Two pieces in quotes do not meet: their quotes would be read as a doubled one. */
  predicate CellSpelling(pieces: seq<Piece>) {
    && (forall i :: 0 <= i < |pieces| && pieces[i].Loose? ==> LooseText(pieces[i].text))
    && (forall i :: 0 <= i < |pieces| - 1 && pieces[i].InQuotes? ==> pieces[i + 1].Loose? && pieces[i + 1].text != "")
  }

  predicate RowSpelling(cells: seq<seq<Piece>>) {
    cells != [] && forall i :: 0 <= i < |cells| ==> CellSpelling(cells[i])
  }

  predicate Spelling(rows: seq<seq<seq<Piece>>>) {
    forall i :: 0 <= i < |rows| ==> RowSpelling(rows[i])
  }

  function SpellRow(cells: seq<seq<Piece>>): string {
    Join(",", Map(Spell, cells))
  }

  /** The rows with this line end between them. */
  function SpellRows(rows: seq<seq<seq<Piece>>>, end: string): string {
    Join(end, Map(SpellRow, rows))
  }

  function ContentRow(cells: seq<seq<Piece>>): Cells {
    Map(Content, cells)
  }

  const LINE_ENDS: set<string> := {"\n", "\r\n"}

  lemma {:induction false} FeedLoose(m: Machine, s: string)
    requires m.mode != Quoted && LooseText(s)
    ensures FeedAll(m, s) == m.(field := m.field + Filter(NotCr(), s), mode := if s == "" then m.mode else Plain)
  {
    if s == "" {
      assert m.field + Filter(NotCr(), s) == m.field;
    } else {
      FeedLoose(m, s[..|s| - 1]);
      assert m.field + (Filter(NotCr(), s[..|s| - 1]) + [s[|s| - 1]])
          == m.field + Filter(NotCr(), s[..|s| - 1]) + [s[|s| - 1]];
    }
  }

  lemma FeedQuoted(m: Machine, s: string)
    requires m.mode == Plain
    ensures FeedAll(m, PrintPiece(InQuotes(s))) == m.(field := m.field + s, mode := QuoteSeen)
  {
    var inside := "\"" + DoubleQuotes(s);
    hide FeedAll;
    FeedAllAppend(m, inside, "\"");
    FeedAllAppend(m, "\"", DoubleQuotes(s));
    FeedOne(m, '"');
    FeedDoubled(m.(mode := Quoted), s);
    FeedOne(m.(mode := Quoted, field := m.field + s), '"');
  }

  lemma FeedPiece(m: Machine, p: Piece)
    requires m.mode != Quoted && (p.Loose? ==> LooseText(p.text)) && (p.InQuotes? ==> m.mode == Plain)
    ensures var q := FeedAll(m, PrintPiece(p));
      && q.rows == m.rows && q.row == m.row && q.field == m.field + Says(p) && q.mode != Quoted
      && (q.mode == QuoteSeen ==> p.InQuotes? || (p.text == "" && m.mode == QuoteSeen))
  {
    hide FeedAll, LooseText;
    if p.Loose? {
      FeedLoose(m, p.text);
    } else {
      FeedQuoted(m, p.text);
    }
  }

  lemma FrontIsSpelling(pieces: seq<Piece>)
    requires CellSpelling(pieces) && pieces != []
    ensures var front, last := pieces[..|pieces| - 1], pieces[|pieces| - 1];
      && CellSpelling(front) && (last.Loose? ==> LooseText(last.text))
      && (front != [] && front[|front| - 1].InQuotes? ==> last.Loose? && last.text != "")
      && Spell(pieces) == Spell(front) + PrintPiece(last) && Content(pieces) == Content(front) + Says(last)
  {
    hide LooseText, PrintPiece, Says;
  }

  lemma JoinFields(a: string, b: string, c: string)
    ensures a + (b + c) == a + b + c
  {
  }

  /** Reading a cell's pieces adds what they say to the field. */
  lemma {:induction false} FeedPieces(m: Machine, pieces: seq<Piece>)
    requires m.mode == Plain && CellSpelling(pieces)
    ensures var p := FeedAll(m, Spell(pieces));
      && p.mode != Quoted && p.rows == m.rows && p.row == m.row && p.field == m.field + Content(pieces)
      && (p.mode == QuoteSeen ==> pieces != [] && pieces[|pieces| - 1].InQuotes?)
  {
    if pieces == [] {
      assert m.field + Content(pieces) == m.field;
    } else {
      hide FeedAll, CellSpelling, LooseText, PrintPiece, Says, Spell, Content;
      var front, last := pieces[..|pieces| - 1], pieces[|pieces| - 1];
      FrontIsSpelling(pieces);
      FeedPieces(m, front);
      FeedAllAppend(m, Spell(front), PrintPiece(last));
      FeedPiece(FeedAll(m, Spell(front)), last);
      JoinFields(m.field, Content(front), Says(last));
    }
  }

  lemma FeedNextCell(m: Machine, printed: string, pieces: seq<Piece>)
    requires FeedAll(m, printed).mode != Quoted && CellSpelling(pieces)
    ensures var p, q := FeedAll(m, printed), FeedAll(m, printed + "," + Spell(pieces));
            q.mode != Quoted && q.rows == p.rows && OpenRow(q) == OpenRow(p) + [Content(pieces)]
  {
    hide FeedAll, Spell, Content;
    var p := FeedAll(m, printed);
    FeedAllAppend(m, printed, ",");
    FeedOne(p, ',');
    FeedAllAppend(m, printed + ",", Spell(pieces));
    FeedPieces(Feed(p, ','), pieces);
    assert "" + Content(pieces) == Content(pieces);
  }

  lemma {:induction false} FeedSpelledRow(m: Machine, cells: seq<seq<Piece>>)
    requires m.mode == Plain && m.field == "" && m.row == [] && RowSpelling(cells)
    ensures var p := FeedAll(m, SpellRow(cells));
            p.mode != Quoted && p.rows == m.rows && OpenRow(p) == ContentRow(cells)
  {
    hide FeedAll, Spell, Content, CellSpelling;
    var n := |cells| - 1;
    MapSnoc(Spell, cells);
    MapSnoc(Content, cells);
    if n == 0 {
      FeedPieces(m, cells[0]);
      assert "" + Content(cells[0]) == Content(cells[0]) && [] + [Content(cells[0])] == ContentRow(cells);
    } else {
      FeedSpelledRow(m, cells[..n]);
      JoinSnoc(",", Map(Spell, cells[..n]), Spell(cells[n]));
      FeedNextCell(m, SpellRow(cells[..n]), cells[n]);
    }
  }

  /** Outside quotes either line end closes the row. */
  lemma FeedLineEnd(m: Machine, end: string)
    requires m.mode != Quoted && end in LINE_ENDS
    ensures FeedAll(m, end) == Machine(m.rows + [OpenRow(m)], [], "", Plain)
  {
    hide FeedAll;
    if end == "\n" {
      FeedOne(m, '\n');
    } else {
      FeedTwo(m, '\r', '\n');
    }
  }

  lemma FeedNextRow(printed: string, end: string, cells: seq<seq<Piece>>)
    requires FeedAll(START, printed).mode != Quoted && end in LINE_ENDS && RowSpelling(cells)
    ensures var p, q := FeedAll(START, printed), FeedAll(START, printed + end + SpellRow(cells));
            q.mode != Quoted && q.rows == p.rows + [OpenRow(p)] && OpenRow(q) == ContentRow(cells)
  {
    hide FeedAll, SpellRow, ContentRow, RowSpelling;
    var p := FeedAll(START, printed);
    FeedAllAppend(START, printed, end);
    FeedLineEnd(p, end);
    FeedAllAppend(START, printed + end, SpellRow(cells));
    FeedSpelledRow(FeedAll(p, end), cells);
  }

  lemma {:induction false} FeedSpelledRows(rows: seq<seq<seq<Piece>>>, end: string)
    requires rows != [] && Spelling(rows) && end in LINE_ENDS
    ensures var p := FeedAll(START, SpellRows(rows, end));
            p.mode != Quoted && p.rows + [OpenRow(p)] == Map(ContentRow, rows)
  {
    hide FeedAll, SpellRow, ContentRow, RowSpelling;
    var n := |rows| - 1;
    MapSnoc(SpellRow, rows);
    MapSnoc(ContentRow, rows);
    if n == 0 {
      FeedSpelledRow(START, rows[0]);
    } else {
      FeedSpelledRows(rows[..n], end);
      JoinSnoc(end, Map(SpellRow, rows[..n]), SpellRow(rows[n]));
      FeedNextRow(SpellRows(rows[..n], end), end, rows[n]);
    }
  }

  /** The rows of a text, once its last line is closed. */
  lemma RowsWhenClosed(m: Machine)
    ensures TrimBlank(AllRows(m)) == TrimBlank(m.rows + [OpenRow(m)])
  {
    if m.field == "" && m.row == [] {
      assert Blank(OpenRow(m));
      assert (m.rows + [OpenRow(m)])[..|m.rows|] == m.rows;
    }
  }

  /** A line end behind the last row adds nothing. */
  lemma FinalLineEnd(text: string, end: string)
    requires (text == "" || text[0] != BOM) && end in LINE_ENDS && FeedAll(START, text).mode != Quoted
    ensures var p := FeedAll(START, text);
            Parse(text) == TrimBlank(p.rows + [OpenRow(p)]) && Parse(text + end) == Parse(text)
  {
    hide FeedAll, TrimBlank, OpenRow, Blank;
    var p := FeedAll(START, text);
    assert StripBom(text) == text && StripBom(text + end) == text + end;
    RowsWhenClosed(p);
    FeedAllAppend(START, text, end);
    FeedLineEnd(p, end);
  }

  /** Whatever its mix of loose and quoted pieces, carriage returns, either line end, and a
      line end behind the last row or none: a text says its rows, without blank ones at the
      end. */
  lemma ParseSpelled(rows: seq<seq<seq<Piece>>>, end: string)
    requires rows != [] && Spelling(rows) && end in LINE_ENDS
    requires var text := SpellRows(rows, end); text == "" || text[0] != BOM
    ensures Parse(SpellRows(rows, end)) == TrimBlank(Map(ContentRow, rows))
    ensures Parse(SpellRows(rows, end) + end) == TrimBlank(Map(ContentRow, rows))
  {
    hide Parse, SpellRows, TrimBlank, FeedAll, Spelling, OpenRow, ContentRow;
    FeedSpelledRows(rows, end);
    FinalLineEnd(SpellRows(rows, end), end);
  }

  /** A byte order mark in front is not part of the file. */
  lemma BomIsDropped(text: string)
    requires text == "" || text[0] != BOM
    ensures Parse([BOM] + text) == Parse(text)
  {
    assert ([BOM] + text)[1..] == text;
  }

  /** Without quotes, carriage returns are not part of the file. */
  lemma {:induction false} FeedWithoutCr(m: Machine, text: string)
    requires m.mode == Plain && '"' !in text
    ensures FeedAll(m, text) == FeedAll(m, Filter(NotCr(), text)) && FeedAll(m, text).mode == Plain
  {
    if text != "" {
      var front, last := text[..|text| - 1], text[|text| - 1];
      assert text == front + [last];
      FeedWithoutCr(m, front);
      FilterSnoc(NotCr(), front, last);
      FeedAllAppend(m, Filter(NotCr(), front), [last]);
      FeedOne(FeedAll(m, Filter(NotCr(), front)), last);
    }
  }

  lemma CrIsDropped(text: string)
    requires '"' !in text && (text == "" || text[0] != '\r')
    ensures Parse(text) == Parse(Filter(NotCr(), text))
  {
    var src := StripBom(text);
    FeedWithoutCr(START, src);
    assert StripBom(Filter(NotCr(), text)) == Filter(NotCr(), src) by {
      FilterKeepsFirst(text);
    }
  }

  lemma {:induction false} FilterKeepsFirst(text: string)
    requires text == "" || text[0] != '\r'
    ensures text == "" ==> Filter(NotCr(), text) == ""
    ensures text != "" ==> Filter(NotCr(), text) == [text[0]] + Filter(NotCr(), text[1..])
  {
    if text != "" {
      FilterNone(NotCr());
      FilterSnoc(NotCr(), "", text[0]);
      assert "" + [text[0]] == [text[0]] && text == [text[0]] + text[1..];
      FilterAppend(NotCr(), [text[0]], text[1..]);
    }
  }

  /** A quote that is never closed ends with the text. */
  lemma UnclosedQuote(text: string)
    requires text != "" && FeedAll(START, StripBom(text)).mode == Quoted
    ensures Parse(text + "\"") == Parse(text)
  {
    var src := StripBom(text);
    assert StripBom(text + "\"") == src + "\"";
    FeedAllAppend(START, src, "\"");
    FeedOne(FeedAll(START, src), '"');
  }

  // ---------------------------------------------------------------------
  // Reading what was printed
  // ---------------------------------------------------------------------

  /** How the printer spells a cell. */
  function PiecesOf(cell: string): seq<Piece> {
    [if NeedsQuotes(Guard(cell)) then InQuotes(Guard(cell)) else Loose(Guard(cell))]
  }

  function PieceRow(cells: Cells): seq<seq<Piece>> {
    Map(PiecesOf, cells)
  }

  lemma {:induction false} NothingFiltered(s: string)
    requires '\r' !in s
    ensures Filter(NotCr(), s) == s
  {
    if s != "" {
      NothingFiltered(s[..|s| - 1]);
      assert s == s[..|s| - 1] + [s[|s| - 1]];
    }
  }

  lemma PrintedCellIsSpelled(cell: string)
    ensures CellSpelling(PiecesOf(cell))
    ensures Spell(PiecesOf(cell)) == Escape(cell) && Content(PiecesOf(cell)) == Guard(cell)
  {
    hide Guard;
    var pieces := PiecesOf(cell);
    assert pieces[..0] == [] && Spell([]) == "" && Content([]) == "";
    if !NeedsQuotes(Guard(cell)) {
      NothingFiltered(Guard(cell));
    }
    assert "" + PrintPiece(pieces[0]) == Escape(cell) && "" + Says(pieces[0]) == Guard(cell);
  }

  lemma PrintedRowIsSpelled(cells: Cells)
    ensures SpellRow(PieceRow(cells)) == PrintRow(cells) && ContentRow(PieceRow(cells)) == GuardRow(cells)
    ensures cells != [] ==> RowSpelling(PieceRow(cells))
  {
    hide Guard, Spell, Content, Escape, PiecesOf, CellSpelling;
    forall i | 0 <= i < |cells|
      ensures var pieces := PiecesOf(cells[i]);
        CellSpelling(pieces) && Spell(pieces) == Escape(cells[i]) && Content(pieces) == Guard(cells[i])
    {
      PrintedCellIsSpelled(cells[i]);
    }
    assert Map(Spell, PieceRow(cells)) == Map(Escape, cells);
  }

  /** Parsing printed rows gives back every cell, guarded, for any mix of commas,
      quotes, carriage returns and newlines; only blank rows at the end are lost. */
  lemma ParsePrint(rows: seq<Cells>)
    requires forall i :: 0 <= i < |rows| ==> rows[i] != []
    requires Print(rows) == "" || Print(rows)[0] != BOM
    ensures Parse(Print(rows)) == TrimBlank(Map(GuardRow, rows))
  {
    var spelled := Map(PieceRow, rows);
    forall i | 0 <= i < |rows|
      ensures SpellRow(spelled[i]) == PrintRow(rows[i]) && ContentRow(spelled[i]) == GuardRow(rows[i])
      ensures RowSpelling(spelled[i])
    {
      PrintedRowIsSpelled(rows[i]);
    }
    hide Parse, TrimBlank, SpellRow, PrintRow, ContentRow, GuardRow, RowSpelling;
    assert Map(SpellRow, spelled) == Map(PrintRow, rows) && Map(ContentRow, spelled) == Map(GuardRow, rows);
    if rows != [] {
      ParseSpelled(spelled, "\n");
    } else {
      NothingSaysNothing();
    }
  }

  lemma NothingSaysNothing()
    ensures Parse("") == [] && TrimBlank([]) == []
  {
  }

  /** A header name that needs neither quotes nor a guard. */
  predicate PlainName(h: string) {
    h != "" && h[0] != BOM && !NeedsQuotes(h) && !FormulaStart(h)
  }

  function Pick(headers: Cells, record: map<string, string>): (r: Cells)
    ensures |r| == |headers|
  {
    Map(h => if h in record then record[h] else "", headers)
  }

  function PickAll(headers: Cells, records: seq<map<string, string>>): (r: seq<Cells>)
    ensures forall i :: 0 <= i < |r| ==> |r[i]| == |headers|
  {
    seq(|records|, i requires 0 <= i < |records| => Pick(headers, records[i]))
  }

  /** The text of an export: the header line is joined as it is, cells are escaped. */
  function ToCsv(headers: Cells, records: seq<map<string, string>>): string {
    Join("\n", [Join(",", headers)] + Map(PrintRow, PickAll(headers, records)))
  }

  lemma {:induction false} JoinStartsWithFirst(separator: string, parts: seq<string>)
    requires parts != [] && parts[0] != ""
    ensures Join(separator, parts) != "" && Join(separator, parts)[0] == parts[0][0]
  {
    if |parts| > 1 {
      JoinStartsWithFirst(separator, parts[..|parts| - 1]);
    }
  }

  lemma PlainNamesPrintAsTheyAre(headers: Cells)
    requires forall i :: 0 <= i < |headers| ==> PlainName(headers[i])
    ensures Map(Escape, headers) == headers && GuardRow(headers) == headers
  {
  }

  lemma MapCons<A, B>(f: A -> B, x: A, s: seq<A>)
    ensures Map(f, [x] + s) == [f(x)] + Map(f, s)
  {
  }

  lemma ToCsvPrintsHeaderAndRecords(headers: Cells, records: seq<map<string, string>>)
    requires Map(Escape, headers) == headers
    ensures ToCsv(headers, records) == Print([headers] + PickAll(headers, records))
  {
    hide PickAll, Join, Map, Escape;
    MapCons(PrintRow, headers, PickAll(headers, records));
  }

  lemma ToCsvHasNoBom(headers: Cells, records: seq<map<string, string>>)
    requires headers != [] && PlainName(headers[0])
    ensures ToCsv(headers, records) != "" && ToCsv(headers, records)[0] != BOM
  {
    JoinStartsWithFirst(",", headers);
    JoinStartsWithFirst("\n", [Join(",", headers)] + Map(PrintRow, PickAll(headers, records)));
  }

  lemma RecordsRoundTrip(headers: Cells, records: seq<map<string, string>>)
    requires headers != [] && GuardRow(headers) == headers
    requires var rows := [headers] + PickAll(headers, records);
             ToCsv(headers, records) == Print(rows) && Print(rows) != "" && Print(rows)[0] != BOM
    ensures Parse(ToCsv(headers, records))
         == TrimBlank([headers] + Map(GuardRow, PickAll(headers, records)))
  {
    hide Parse, Print, ToCsv, TrimBlank, PickAll;
    var rows := [headers] + PickAll(headers, records);
    ParsePrint(rows);
    assert Map(GuardRow, rows) == [headers] + Map(GuardRow, PickAll(headers, records));
  }

  /** An exported report, read back by the parser, is the header and the guarded records. */
  lemma ExportRoundTrip(headers: Cells, records: seq<map<string, string>>)
    requires headers != [] && forall i :: 0 <= i < |headers| ==> PlainName(headers[i])
    ensures Parse(ToCsv(headers, records))
         == TrimBlank([headers] + Map(GuardRow, PickAll(headers, records)))
  {
    PlainNamesPrintAsTheyAre(headers);
    ToCsvPrintsHeaderAndRecords(headers, records);
    ToCsvHasNoBom(headers, records);
    RecordsRoundTrip(headers, records);
  }

  /** Every cell that is read back is the record's own value under its header, guarded. */
  lemma ExportedCellsReadBack(headers: Cells, records: seq<map<string, string>>, i: nat, j: nat)
    requires headers != [] && forall k :: 0 <= k < |headers| ==> PlainName(headers[k])
    requires i < |records| && j < |headers| && i + 1 < |Parse(ToCsv(headers, records))|
    ensures Parse(ToCsv(headers, records))[0] == headers && |Parse(ToCsv(headers, records))[i + 1]| == |headers|
    ensures Parse(ToCsv(headers, records))[i + 1][j]
         == Guard(if headers[j] in records[i] then records[i][headers[j]] else "")
  {
    hide Parse, ToCsv, Guard, PlainName;
    ExportRoundTrip(headers, records);
    var rows := [headers] + Map(GuardRow, PickAll(headers, records));
    assert Parse(ToCsv(headers, records)) <= rows;
    assert rows[i + 1] == GuardRow(Pick(headers, records[i]));
  }

  const ERROR_HEADERS: Cells :=
    ["file", "row_number", "column", "value", "reason", "plain_english", "header_mapping"]

  const AUDIT_HEADERS: Cells :=
    ["file", "status", "imported_at", "total_rows", "inserted_rows", "duplicate_rows_skipped",
     "failed_rows", "table_name", "header_mapping", "cancellation_reason"]

  predicate Letters(h: string) {
    h != "" && forall i :: 0 <= i < |h| ==> 'a' <= h[i] <= 'z' || h[i] == '_'
  }

  lemma LettersArePlain(headers: Cells)
    requires forall i :: 0 <= i < |headers| ==> Letters(headers[i])
    ensures forall i :: 0 <= i < |headers| ==> PlainName(headers[i])
  {
    forall i | 0 <= i < |headers| ensures PlainName(headers[i]) {
      assert Letters(headers[i]);
    }
  }

  lemma ErrorHeadersArePlain()
    ensures forall i :: 0 <= i < |ERROR_HEADERS| ==> PlainName(ERROR_HEADERS[i])
  {
    hide PlainName;
    LettersArePlain(ERROR_HEADERS);
  }

  lemma AuditHeadersArePlain()
    ensures forall i :: 0 <= i < |AUDIT_HEADERS| ==> PlainName(AUDIT_HEADERS[i])
  {
    hide PlainName;
    LettersArePlain(AUDIT_HEADERS[..5]);
    LettersArePlain(AUDIT_HEADERS[5..]);
    assert AUDIT_HEADERS == AUDIT_HEADERS[..5] + AUDIT_HEADERS[5..];
  }

  /** Both reports, read back by the parser, are their header and their guarded records. A
      record with a file name is never among the blank rows that are lost. */
  lemma ReportsRoundTrip(records: seq<map<string, string>>)
    ensures Parse(ToCsv(ERROR_HEADERS, records))
         == TrimBlank([ERROR_HEADERS] + Map(GuardRow, PickAll(ERROR_HEADERS, records)))
    ensures Parse(ToCsv(AUDIT_HEADERS, records))
         == TrimBlank([AUDIT_HEADERS] + Map(GuardRow, PickAll(AUDIT_HEADERS, records)))
    ensures (forall i :: 0 <= i < |records| ==> "file" in records[i] && records[i]["file"] != "") ==>
              && Parse(ToCsv(ERROR_HEADERS, records))
                 == [ERROR_HEADERS] + Map(GuardRow, PickAll(ERROR_HEADERS, records))
              && Parse(ToCsv(AUDIT_HEADERS, records))
                 == [AUDIT_HEADERS] + Map(GuardRow, PickAll(AUDIT_HEADERS, records))
  {
    hide Parse, ToCsv, PlainName, TrimBlank;
    ErrorHeadersArePlain();
    AuditHeadersArePlain();
    ExportRoundTrip(ERROR_HEADERS, records);
    ExportRoundTrip(AUDIT_HEADERS, records);
    if forall i :: 0 <= i < |records| ==> "file" in records[i] && records[i]["file"] != "" {
      NamedRecordsStay(ERROR_HEADERS, records);
      NamedRecordsStay(AUDIT_HEADERS, records);
    }
  }

  lemma NamedRecordsStay(headers: Cells, records: seq<map<string, string>>)
    requires headers != [] && headers[0] == "file"
    requires forall i :: 0 <= i < |records| ==> "file" in records[i] && records[i]["file"] != ""
    ensures var rows := [headers] + Map(GuardRow, PickAll(headers, records)); TrimBlank(rows) == rows
  {
    var rows := [headers] + Map(GuardRow, PickAll(headers, records));
    var last := |rows| - 1;
    if last > 0 {
      assert rows[last] == GuardRow(Pick(headers, records[last - 1]));
      assert rows[last][0] == Guard(records[last - 1]["file"]);
    } else {
      assert rows[last][0] == "file";
    }
  }

  /** What the guard promises and what it costs: no guarded cell starts like a formula
      unless it is a plain number, and two cells become the same text exactly when
      they are equal or one is the other, dangerous, with the quote already typed in. */
  lemma GuardIsSafeAndAlmostInjective(a: string, b: string)
    ensures !Dangerous(Guard(a))
    ensures Guard(a) == Guard(b) <==>
              a == b || (Dangerous(b) && a == "'" + b) || (Dangerous(a) && b == "'" + a)
  {
    if Dangerous(a) && Dangerous(b) {
      assert ("'" + a)[1..] == a && ("'" + b)[1..] == b;
    }
  }
}
