/**
 * `arrange_by_widthes` and `pad_rows_to_width` of visualize/visualize.py:
 * cutting the pixel sequence into rows by a width list whose last width
 * repeats, and right-padding the rows into a rectangle.
 */
module Layout {
  import opened Sequences

  /**
   * The nominal width of row i: the i-th listed width, or the repeated last
   * width once the list is used up.
   */
  function Nominal(ws: seq<nat>, last: nat, i: nat): nat
  {
    if i < |ws| then ws[i] else last
  }

  /** The width list after one row has used its first width. */
  function Next(ws: seq<nat>): seq<nat>
  {
    if ws == [] then [] else ws[1..]
  }

  /**
   * The cutting ends: either the repeated width is positive, or the listed
   * widths already cover every pixel. Otherwise the source's second loop never
   * ends.
   */
  predicate Ends(pixelCount: nat, ws: seq<nat>, last: nat)
  {
    last >= 1 || pixelCount <= Sum(ws)
  }

  /** The rows cut from p: each takes min(nominal width, what is left); nothing is cut from no pixels. */
  function RowsFrom<T>(p: seq<T>, ws: seq<nat>, last: nat): seq<seq<T>>
    requires Ends(|p|, ws, last)
    decreases |ws|, |p|
  {
    if p == [] then []
    else
      var k := Min(Nominal(ws, last, 0), |p|);
      assert ws != [] ==> Sum(ws) == ws[0] + Sum(ws[1..]);
      [p[..k]] + RowsFrom(p[k..], Next(ws), last)
  }

  /** The domain on which `arrange_by_widthes` returns: a last width, and an end to the cutting. */
  predicate CanArrange(pixelCount: nat, ws: seq<nat>)
  {
    |ws| > 0 && Ends(pixelCount, ws, ws[|ws| - 1])
  }

  /** `list(arrange_by_widthes(p, ws))` as a function. */
  function Arrange<T>(p: seq<T>, ws: seq<nat>): seq<seq<T>>
    requires CanArrange(|p|, ws)
  {
    RowsFrom(p, ws, ws[|ws| - 1])
  }

  /**
   * What a correct cutting is: the rows concatenate to p, every row but the
   * last has exactly its nominal width, and the last row is non-empty and no
   * longer than its nominal width.
   */
  ghost predicate IsArrangement<T>(p: seq<T>, ws: seq<nat>, last: nat, rows: seq<seq<T>>)
  {
    && Flatten(rows) == p
    && (forall i :: 0 <= i < |rows| - 1 ==> |rows[i]| == Nominal(ws, last, i))
    && (rows != [] ==> 0 < |rows[|rows| - 1]| <= Nominal(ws, last, |rows| - 1))
  }

  lemma NominalNext(ws: seq<nat>, last: nat, i: nat)
    ensures Nominal(Next(ws), last, i) == Nominal(ws, last, i + 1)
  {
  }

  /** The cut rows are an arrangement of p. */
  lemma {:induction false} RowsFromIsArrangement<T>(p: seq<T>, ws: seq<nat>, last: nat)
    requires Ends(|p|, ws, last)
    ensures IsArrangement(p, ws, last, RowsFrom(p, ws, last))
    decreases |ws|, |p|
  {
    if p != [] {
      var k := Min(Nominal(ws, last, 0), |p|);
      assert ws != [] ==> Sum(ws) == ws[0] + Sum(ws[1..]);
      var rest := RowsFrom(p[k..], Next(ws), last);
      RowsFromIsArrangement(p[k..], Next(ws), last);
      var rows := [p[..k]] + rest;
      assert rows[1..] == rest;
      assert Flatten(rows) == p[..k] + Flatten(rest) == p;
      forall i | 0 <= i < |rows| - 1 ensures |rows[i]| == Nominal(ws, last, i) {
        if i == 0 {
          assert p[k..] != [];
        } else {
          NominalNext(ws, last, i - 1);
        }
      }
      if rest != [] {
        NominalNext(ws, last, |rest| - 1);
      } else {
        assert k == |p|;
      }
    }
  }

  /** An arrangement of p is the cut rows: the properties above pin the rows down completely. */
  lemma {:induction false} ArrangementIsRowsFrom<T>(p: seq<T>, ws: seq<nat>, last: nat, rows: seq<seq<T>>)
    requires Ends(|p|, ws, last)
    requires IsArrangement(p, ws, last, rows)
    ensures rows == RowsFrom(p, ws, last)
    decreases |rows|
  {
    if rows == [] {
      assert p == [];
    } else {
      var w := Nominal(ws, last, 0);
      var rest := rows[1..];
      assert rows == [rows[0]] + rest;
      assert Flatten(rows) == rows[0] + Flatten(rest);
      assert p != [] by {
        if |rows| == 1 {
          assert rest == [];
        } else {
          FlattenAppend(rest[..|rest| - 1], [rest[|rest| - 1]]);
          assert rest[..|rest| - 1] + [rest[|rest| - 1]] == rest;
          assert |Flatten(rest)| >= |rest[|rest| - 1]| > 0;
        }
      }
      var k := Min(w, |p|);
      assert |rows[0]| == k by {
        if |rows| > 1 {
          FlattenAppend(rest[..|rest| - 1], [rest[|rest| - 1]]);
          assert rest[..|rest| - 1] + [rest[|rest| - 1]] == rest;
          assert |Flatten(rest)| >= |rest[|rest| - 1]| > 0;
        }
      }
      assert rows[0] == p[..k] && Flatten(rest) == p[k..];
      assert ws != [] ==> Sum(ws) == ws[0] + Sum(ws[1..]);
      forall i | 0 <= i < |rest| - 1 ensures |rest[i]| == Nominal(Next(ws), last, i) {
        NominalNext(ws, last, i);
      }
      if rest != [] {
        NominalNext(ws, last, |rest| - 1);
      }
      ArrangementIsRowsFrom(p[k..], Next(ws), last, rest);
    }
  }

  /**
   * `arrange_by_widthes`: a cursor walks the width list, cutting a row for each
   * width while pixels remain, then keeps cutting rows of the last width until
   * the pixels run out.
   */
  method ArrangeByWidths<T>(pixels: seq<T>, widths: seq<nat>) returns (rows: seq<seq<T>>)
    requires CanArrange(|pixels|, widths)
    ensures rows == Arrange(pixels, widths)
  {
    var last := widths[|widths| - 1];
    var n := |pixels|;
    var index: nat := 0;
    ghost var target := Arrange(pixels, widths);
    rows := [];
    assert Cutting(pixels, widths[0..], last, index, rows, target) by {
      assert pixels[0..] == pixels && widths[0..] == widths;
    }
    for i := 0 to |widths|
      invariant Cutting(pixels, widths[i..], last, index, rows, target)
    {
      var width := widths[i];
      assert Next(widths[i..]) == widths[i + 1..];
      if index < n {
        CutStep(pixels, widths[i..], last, index, rows, target);
        rows := rows + [pixels[index..Min(index + width, n)]];
        index := index + width;
      } else {
        SkipStep(pixels, widths[i..], last, index, rows, target);
      }
    }
    assert widths[|widths|..] == [];
    rows := CutByLast(pixels, last, index, rows);
  }

  /** The second loop of `arrange_by_widthes`: rows of the last width from the cursor until the pixels run out. */
  method CutByLast<T>(pixels: seq<T>, last: nat, start: nat, done: seq<seq<T>>) returns (rows: seq<seq<T>>)
    requires Ends(|pixels| - Min(start, |pixels|), [], last)
    ensures rows == done + RowsFrom(pixels[Min(start, |pixels|)..], [], last)
  {
    var n := |pixels|;
    var index := start;
    ghost var target := done + RowsFrom(pixels[Min(start, n)..], [], last);
    rows := done;
    while index < n
      invariant Cutting(pixels, [], last, index, rows, target)
      decreases n - index
    {
      CutStep(pixels, [], last, index, rows, target);
      rows := rows + [pixels[index..Min(index + last, n)]];
      index := index + last;
    }
    CutDone(pixels, last, index, rows, target);
  }

  /** The loops' invariant: the rows cut so far, then the rows still to cut from the cursor on, are the target. */
  ghost predicate Cutting<T>(p: seq<T>, ws: seq<nat>, last: nat, index: nat, rows: seq<seq<T>>, target: seq<seq<T>>)
  {
    && Ends(|p| - Min(index, |p|), ws, last)
    && rows + RowsFrom(p[Min(index, |p|)..], ws, last) == target
  }

  /** One step of the cursor: the next row is the slice from the cursor, and the cursor moves by the width. */
  lemma CutStep<T>(p: seq<T>, ws: seq<nat>, last: nat, index: nat, rows: seq<seq<T>>, target: seq<seq<T>>)
    requires index < |p| && Cutting(p, ws, last, index, rows, target)
    ensures Cutting(p, Next(ws), last, index + Nominal(ws, last, 0),
                    rows + [p[index..Min(index + Nominal(ws, last, 0), |p|)]], target)
  {
    var w := Nominal(ws, last, 0);
    var k := Min(w, |p| - index);
    var row := p[index..Min(index + w, |p|)];
    assert ws != [] ==> Sum(ws) == ws[0] + Sum(ws[1..]);
    assert p[index..][..k] == row;
    assert p[index..][k..] == p[Min(index + w, |p|)..];
    var rest := RowsFrom(p[Min(index + w, |p|)..], Next(ws), last);
    assert RowsFrom(p[index..], ws, last) == [row] + rest;
    assert rows + ([row] + rest) == (rows + [row]) + rest;
  }

  /** Past the end, a listed width cuts nothing. */
  lemma SkipStep<T>(p: seq<T>, ws: seq<nat>, last: nat, index: nat, rows: seq<seq<T>>, target: seq<seq<T>>)
    requires index >= |p| && Cutting(p, ws, last, index, rows, target)
    ensures Cutting(p, Next(ws), last, index, rows, target)
  {
  }

  lemma CutDone<T>(p: seq<T>, last: nat, index: nat, rows: seq<seq<T>>, target: seq<seq<T>>)
    requires index >= |p| && Cutting(p, [], last, index, rows, target)
    ensures rows == target
  {
  }

  /** Lossless repacking: the rows concatenate back to the pixel sequence. */
  lemma ArrangeLossless<T>(p: seq<T>, ws: seq<nat>)
    requires CanArrange(|p|, ws)
    ensures Flatten(Arrange(p, ws)) == p
  {
    RowsFromIsArrangement(p, ws, ws[|ws| - 1]);
  }

  /**
   * Row shapes: every row is at most its nominal width, only the last row may
   * be shorter, and no pixels give no rows.
   */
  lemma ArrangeRowShapes<T>(p: seq<T>, ws: seq<nat>)
    requires CanArrange(|p|, ws)
    ensures var rows := Arrange(p, ws);
      && (forall i :: 0 <= i < |rows| ==> |rows[i]| <= Nominal(ws, ws[|ws| - 1], i))
      && (forall i :: 0 <= i < |rows| - 1 ==> |rows[i]| == Nominal(ws, ws[|ws| - 1], i))
      && (rows == [] <==> p == [])
  {
    var rows := Arrange(p, ws);
    RowsFromIsArrangement(p, ws, ws[|ws| - 1]);
    if rows != [] {
      FlattenAppend(rows[..|rows| - 1], [rows[|rows| - 1]]);
      assert rows[..|rows| - 1] + [rows[|rows| - 1]] == rows;
    }
  }

  /** `row + delta * [pad]` for a short row; a long row is left as it is, never cut. */
  function PadRow<T>(row: seq<T>, width: nat, pad: T): (r: seq<T>)
    ensures |r| == Max(|row|, width)
    ensures r[..|row|] == row
    ensures forall k :: |row| <= k < |r| ==> r[k] == pad
  {
    if |row| < width then row + Repeat(pad, width - |row|) else row
  }

  /** `pad_rows_to_width`: the rows, in order, each padded on the right to `width`. */
  function PadRows<T>(rows: seq<seq<T>>, width: nat, pad: T): (r: seq<seq<T>>)
    ensures |r| == |rows|
    ensures forall i :: 0 <= i < |rows| && |rows[i]| < width ==> r[i] == rows[i] + Repeat(pad, width - |rows[i]|)
    ensures forall i :: 0 <= i < |rows| && |rows[i]| >= width ==> r[i] == rows[i]
  {
    if rows == [] then []
    else [PadRow(rows[0], width, pad)] + PadRows(rows[1..], width, pad)
  }

  /**
   * Padding to the longest row gives a rectangle of that width, and each
   * padded row starts with the row it came from.
   */
  lemma PadToLongestIsRectangular<T>(rows: seq<seq<T>>, pad: T)
    ensures var padded := PadRows(rows, MaxLen(rows), pad);
      && |padded| == |rows|
      && (forall i :: 0 <= i < |padded| ==> |padded[i]| == MaxLen(rows))
      && (forall i :: 0 <= i < |padded| ==> padded[i][..|rows[i]|] == rows[i])
  {
  }

  /** 7 pixels cut by widths [3, 2] give rows of 3, 2 and 2. */
  lemma ArrangeSevenByThreeTwo()
    ensures Arrange([10, 20, 30, 40, 50, 60, 70], [3, 2]) == [[10, 20, 30], [40, 50], [60, 70]]
  {
    var p := [10, 20, 30, 40, 50, 60, 70];
    var p1, p2: seq<int> := [40, 50, 60, 70], [60, 70];
    assert p[..3] == [10, 20, 30] && p[3..] == p1;
    assert p1[..2] == [40, 50] && p1[2..] == p2;
    assert p2[..2] == p2 && p2[2..] == [];
    assert RowsFrom(p2, [], 2) == [p2] + RowsFrom([], [], 2);
    assert RowsFrom(p1, [2], 2) == [[40, 50]] + RowsFrom(p2, [], 2);
    assert RowsFrom(p, [3, 2], 2) == [[10, 20, 30]] + RowsFrom(p1, [2], 2);
  }

  /** Those rows padded to 3 with a sentinel s gain one s each on the two short rows. */
  lemma PadSevenToThree(s: int)
    ensures PadRows([[10, 20, 30], [40, 50], [60, 70]], 3, s) == [[10, 20, 30], [40, 50, s], [60, 70, s]]
  {
    assert Repeat(s, 1) == Repeat(s, 0) + [s] == [s];
    var rows: seq<seq<int>> := [[10, 20, 30], [40, 50], [60, 70]];
    assert rows[1..] == [[40, 50], [60, 70]] && rows[1..][1..] == [[60, 70]];
    assert PadRow([60, 70], 3, s) == [60, 70] + [s] == [60, 70, s];
    assert PadRow([40, 50], 3, s) == [40, 50] + [s] == [40, 50, s];
    assert |rows[1..][1..][1..]| == 0;
    assert PadRows(rows[1..][1..], 3, s) == [[60, 70, s]] + PadRows([], 3, s);
    assert PadRows(rows[1..], 3, s) == [[40, 50, s], [60, 70, s]];
    assert PadRows(rows, 3, s) == [[10, 20, 30]] + PadRows(rows[1..], 3, s);
  }

  /** 10 pixels with the single width 4 give rows of 4, 4 and 2. */
  lemma ArrangeTenByFour()
    ensures Arrange([0, 1, 2, 3, 4, 5, 6, 7, 8, 9], [4]) == [[0, 1, 2, 3], [4, 5, 6, 7], [8, 9]]
  {
    var p := [0, 1, 2, 3, 4, 5, 6, 7, 8, 9];
    var p1, p2: seq<int> := [4, 5, 6, 7, 8, 9], [8, 9];
    assert p[..4] == [0, 1, 2, 3] && p[4..] == p1;
    assert p1[..4] == [4, 5, 6, 7] && p1[4..] == p2;
    assert p2[..2] == p2 && p2[2..] == [];
    assert RowsFrom(p2, [], 4) == [p2] + RowsFrom([], [], 4);
    assert RowsFrom(p1, [], 4) == [[4, 5, 6, 7]] + RowsFrom(p2, [], 4);
    assert RowsFrom(p, [4], 4) == [[0, 1, 2, 3]] + RowsFrom(p1, [], 4);
  }
}
