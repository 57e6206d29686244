/**
 * What the loader's row key and the preview's inferred types promise about a
 * file: which rows count as repeats, and which rows can fail.
 */
module RowKeys {
  import opened Common
  import CsvText
  import opened Cast
  import opened RowLoading

  // ---------------------------------------------------------------------
  // Counting separators
  // ---------------------------------------------------------------------

  function Seps(s: string): nat {
    if s == "" then 0 else Seps(s[..|s| - 1]) + (if s[|s| - 1] == SEPARATOR[0] then 1 else 0)
  }

  lemma {:induction false} SepsAppend(a: string, b: string)
    ensures Seps(a + b) == Seps(a) + Seps(b)
  {
    if b == "" {
      assert a + b == a;
    } else {
      SepsAppend(a, b[..|b| - 1]);
      assert (a + b)[..|a + b| - 1] == a + b[..|b| - 1];
    }
  }

  function SepsIn(cells: Cells): nat {
    if cells == [] then 0 else SepsIn(cells[..|cells| - 1]) + Seps(cells[|cells| - 1])
  }

  function KeyText(cells: Cells): string {
    CsvText.Join(SEPARATOR, cells)
  }

  lemma KeyTextSnoc(cells: Cells)
    requires |cells| > 1
    ensures KeyText(cells) == KeyText(cells[..|cells| - 1]) + SEPARATOR + cells[|cells| - 1]
  {
  }

  lemma OneSep()
    ensures Seps(SEPARATOR) == 1
  {
    assert SEPARATOR[..0] == "";
  }

  lemma {:induction false} SepsInKeyText(cells: Cells)
    requires cells != []
    ensures Seps(KeyText(cells)) == |cells| - 1 + SepsIn(cells)
  {
    var front, last := cells[..|cells| - 1], cells[|cells| - 1];
    if front != [] {
      SepsInKeyText(front);
      KeyTextSnoc(cells);
      SepsAppend(KeyText(front) + SEPARATOR, last);
      SepsAppend(KeyText(front), SEPARATOR);
      OneSep();
    } else {
      assert SepsIn(front) == 0;
    }
  }

  lemma {:induction false} NoSeps(s: string, i: nat)
    requires Seps(s) == 0 && i < |s|
    ensures s[i] != SEPARATOR[0]
  {
    if i < |s| - 1 {
      NoSeps(s[..|s| - 1], i);
    }
  }

  lemma LastCellsEqual(x: string, a: string, y: string, b: string)
    requires Seps(a) == 0 && Seps(b) == 0 && x + SEPARATOR + a == y + SEPARATOR + b
    ensures x == y && a == b
  {
    var s := x + SEPARATOR + a;
    assert s[|x|] == SEPARATOR[0] && s[|y|] == SEPARATOR[0];
    if |x| < |y| {
      assert s[|y|] == a[|y| - |x| - 1];
      NoSeps(a, |y| - |x| - 1);
    } else if |y| < |x| {
      assert s[|x|] == b[|x| - |y| - 1];
      NoSeps(b, |x| - |y| - 1);
    }
    assert s[..|x|] == x && s[..|y|] == y && s[|x| + 1..] == a && s[|y| + 1..] == b;
  }

  lemma {:induction false} KeyTextInjective(a: Cells, b: Cells)
    requires a != [] && |a| == |b| && SepsIn(a) == 0 && SepsIn(b) == 0
    requires KeyText(a) == KeyText(b)
    ensures a == b
  {
    var n := |a| - 1;
    if n > 0 {
      KeyTextSnoc(a);
      KeyTextSnoc(b);
      LastCellsEqual(KeyText(a[..n]), a[n], KeyText(b[..n]), b[n]);
      KeyTextInjective(a[..n], b[..n]);
      assert a == a[..n] + [a[n]] && b == b[..n] + [b[n]];
    }
  }

  // ---------------------------------------------------------------------
  // Another row with the same key text
  // ---------------------------------------------------------------------

  lemma {:induction false} FirstSep(s: string) returns (p: nat)
    requires Seps(s) > 0
    ensures p < |s| && s[p] == SEPARATOR[0]
  {
    if s[|s| - 1] == SEPARATOR[0] {
      p := |s| - 1;
    } else {
      p := FirstSep(s[..|s| - 1]);
    }
  }

  lemma SplitAt(s: string, p: nat)
    requires p < |s| && s[p] == SEPARATOR[0]
    ensures s == s[..p] + SEPARATOR + s[p + 1..]
  {
  }

  lemma {:induction false} KeyTextMoves(front: Cells, x: string, y: string)
    ensures KeyText(front + [x, y]) == KeyText(front + [x + SEPARATOR + y])
  {
    var two, one := front + [x, y], front + [x + SEPARATOR + y];
    assert two[..|two| - 1] == front + [x] && one[..|one| - 1] == front;
    KeyTextSnoc(two);
    if front != [] {
      assert (front + [x])[..|front|] == front;
      KeyTextSnoc(front + [x]);
      KeyTextSnoc(one);
      var k := KeyText(front);
      assert k + SEPARATOR + x + SEPARATOR + y == k + SEPARATOR + (x + SEPARATOR + y);
    }
  }

  /** A cell boundary can be moved to any separator inside a neighbouring cell. */
  lemma {:induction false} AnotherRow(cells: Cells) returns (other: Cells)
    requires |cells| > 1 && SepsIn(cells) > 0
    ensures |other| == |cells| && other != cells && KeyText(other) == KeyText(cells)
  {
    var n := |cells| - 1;
    var front, x, y := cells[..n - 1], cells[n - 1], cells[n];
    assert cells == front + [x, y];
    KeyTextMoves(front, x, y);
    if Seps(y) > 0 {
      var p := FirstSep(y);
      SplitAt(y, p);
      var x', y' := x + SEPARATOR + y[..p], y[p + 1..];
      assert x' + SEPARATOR + y' == x + SEPARATOR + y;
      other := front + [x', y'];
      KeyTextMoves(front, x', y');
      assert other[n] != cells[n];
    } else if Seps(x) > 0 {
      var p := FirstSep(x);
      SplitAt(x, p);
      var x', y' := x[..p], x[p + 1..] + SEPARATOR + y;
      assert x' + SEPARATOR + y' == x + SEPARATOR + y;
      other := front + [x', y'];
      KeyTextMoves(front, x', y');
      assert other[n - 1] != cells[n - 1];
    } else {
      assert cells[..n][..n - 1] == front;
      assert SepsIn(cells) == SepsIn(cells[..n]) + Seps(y) && SepsIn(cells[..n]) == SepsIn(front) + Seps(x);
      assert front != [];
      var inner := AnotherRow(cells[..n]);
      other := inner + [y];
      KeyTextSnoc(cells);
      assert other[..n] == inner;
      KeyTextSnoc(other);
      assert cells == cells[..n] + [y];
    }
  }

  /** The joined text identifies a row of its width, except when the row has two or more
      cells and one of them contains the separator: then it never does. */
  lemma KeyTextIdentifiesRow(cells: Cells)
    requires cells != []
    ensures (exists other :: |other| == |cells| && other != cells && KeyText(other) == KeyText(cells))
            <==> |cells| > 1 && SepsIn(cells) > 0
  {
    if |cells| > 1 && SepsIn(cells) > 0 {
      var other := AnotherRow(cells);
    }
    forall other | |other| == |cells| && KeyText(other) == KeyText(cells) && !(|cells| > 1 && SepsIn(cells) > 0)
      ensures other == cells
    {
      SepsInKeyText(cells);
      SepsInKeyText(other);
      if |cells| > 1 {
        KeyTextInjective(cells, other);
      }
    }
  }

  function TextHeader(columns: seq<string>): (h: Header)
    ensures WellFormed(h)
  {
    Header(columns, seq(|columns|, _ => TextType))
  }

  lemma TextRowPasses(env: Env, data: seq<Cells>, columns: seq<string>, i: nat)
    requires i < |data| && |data[i]| == |columns|
    ensures var v := JudgeAll(env, data, TextHeader(columns))[i];
            v.Passes? && v.row.rowHash == env.sha(KeyText(data[i]))
  {
    hide RaggedReason, CsvText.Join;
    var bad := FirstBadCell(env.ops, data[i], TextHeader(columns), 0);
    assert Padded(data[i], |columns|) == data[i];
  }

  /** So to every such row there is a different one that the loader takes for its repeat: in
      a file of the two, as text, the second one is skipped. */
  lemma DifferentRowsMerge(env: Env, cells: Cells, columns: seq<string>) returns (other: Cells)
    requires |columns| == |cells| > 1 && SepsIn(cells) > 0
    ensures |other| == |cells| && other != cells
    ensures var v := JudgeAll(env, [cells, other], TextHeader(columns));
            v[1].Passes? && !FirstOfItsKind(v, 1) && PassOver(v).kept == [0] && PassOver(v).duplicates == 1
  {
    other := AnotherRow(cells);
    hide JudgeAll, PassOver;
    var v := JudgeAll(env, [cells, other], TextHeader(columns));
    TextRowPasses(env, [cells, other], columns, 0);
    TextRowPasses(env, [cells, other], columns, 1);
    TwoRowsPass(v);
  }

  lemma TwoRowsPass(v: seq<Verdict>)
    requires |v| == 2 && v[0].Passes? && v[1].Passes? && v[0].row.rowHash == v[1].row.rowHash
    ensures PassOver(v).kept == [0] && PassOver(v).duplicates == 1
  {
    assert v[..0] == [] && v[..2] == v;
    PassNext(v, 0);
    PassNext(v, 1);
    assert v[0].row in [v[0].row];
  }

  /** Rows are merged as repeats only if they are equal after padding, for files without
      the separator character, unless two of their key texts have the same SHA-256. */
  lemma RepeatsAreEqualRows(env: Env, data: seq<Cells>, h: Header, i: nat)
    requires WellFormed(h) && h.columns != [] && i < |data|
    requires forall j :: 0 <= j < |data| ==> SepsIn(Padded(data[j], |h.columns|)) == 0
    requires forall j, k | 0 <= j < |data| && 0 <= k < |data| ::
               Key(env, data[j], |h.columns|) == Key(env, data[k], |h.columns|)
               ==> KeyText(Padded(data[j], |h.columns|)) == KeyText(Padded(data[k], |h.columns|))
    ensures var v := JudgeAll(env, data, h);
            FirstOfItsKind(v, i) <==>
              v[i].Passes? && forall j :: 0 <= j < i && v[j].Passes? ==>
                Padded(data[j], |h.columns|) != Padded(data[i], |h.columns|)
  {
    var width := |h.columns|;
    forall j | 0 <= j < i
      ensures Key(env, data[j], width) == Key(env, data[i], width) <==> Padded(data[j], width) == Padded(data[i], width)
    {
      if Key(env, data[j], width) == Key(env, data[i], width) {
        KeyTextInjective(Padded(data[j], width), Padded(data[i], width));
      }
    }
    var v := JudgeAll(env, data, h);
    forall j | 0 <= j <= i && v[j].Passes? ensures v[j].row.rowHash == Key(env, data[j], width) {
    }
  }

  // ---------------------------------------------------------------------
  // Types a preview infers
  // ---------------------------------------------------------------------

  const INFER_ROWS := 200

  function Column(data: seq<Cells>, c: nat): seq<string> {
    seq(|data|, i requires 0 <= i < |data| => Cell(data[i], c))
  }

  function InferredTypes(ops: TextOps, data: seq<Cells>, width: nat): (types: seq<ColType>)
    ensures |types| == width
  {
    seq(width, c requires 0 <= c < width => InferType(ops, Column(data[..Min(INFER_ROWS, |data|)], c)))
  }

  /** The preview infers a column's type from the cells of the first 200 rows. */
  lemma PreviewLooksAt200(ops: TextOps, data: seq<Cells>, width: nat, c: nat)
    requires c < width
    ensures var n := if |data| < 200 then |data| else 200;
            exists cells :: |cells| == n
              && (forall i :: 0 <= i < n ==> cells[i] == if c < |data[i]| then data[i][c] else "")
              && InferredTypes(ops, data, width)[c] == InferType(ops, cells)
  {
    hide InferType;
    var n := if |data| < 200 then |data| else 200;
    var cells := Column(data[..n], c);
    assert forall i :: 0 <= i < n ==> cells[i] == if c < |data[i]| then data[i][c] else "";
  }

  /** With the types its preview inferred, a row of the sample fails exactly when it has
      cells beyond the header. A file of at most 200 rows is all sample. */
  lemma SampledRowsCast(env: Env, data: seq<Cells>, columns: seq<string>, i: nat)
    requires i < Min(INFER_ROWS, |data|)
    ensures var h := Header(columns, InferredTypes(env.ops, data, |columns|));
            JudgeAll(env, data, h)[i].Fails? <==> ExtraCells(env.ops, data[i], |columns|) != []
  {
    var h := Header(columns, InferredTypes(env.ops, data, |columns|));
    var sample := data[..Min(INFER_ROWS, |data|)];
    forall c | 0 <= c < |columns| ensures !CellFails(env.ops, data[i], h, c) {
      InferredTypeCasts(env.ops, Column(sample, c));
      assert Column(sample, c)[i] == Cell(data[i], c);
    }
    var bad := FirstBadCell(env.ops, data[i], h, 0);
  }
}
