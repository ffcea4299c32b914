/** A closed-form description of the text `BFFormatter.format` builds
    (bfformatter.py lines 58-74) over the ink mask of a raster of `height`
    rows of `width` cells, stored row-major: cell `k` is row `k / width`,
    column `k % width`. The scan itself, with its running cursor, is
    `Formatter.ScanRaster`; this module says what it must produce and proves
    the properties of that output. Cells past the end of the mask count as
    blank, which keeps every definition total. */
module Layout {
  import opened Basics

  /** The smaller of two counts. */
  function Min(a: nat, b: nat): nat
  {
    if a <= b then a else b
  }

  /** Number of ink cells among the first `k` cells. */
  function InkCount(ink: seq<bool>, k: nat): (r: nat)
    ensures r <= k
  {
    if k == 0 then 0 else InkCount(ink, k - 1) + (if k - 1 < |ink| && ink[k - 1] then 1 else 0)
  }

  /** The value of the cursor `c` when the scan reaches cell `k`, with `n`
      tokens to place: every ink cell before `k` took a token until they ran
      out. */
  function Cursor(n: nat, ink: seq<bool>, k: nat): (c: nat)
    ensures c <= n && c <= k
  {
    Min(n, InkCount(ink, k))
  }

  /** Cell `k` receives a token: it is ink and a token is still left. */
  predicate Placed(n: nat, ink: seq<bool>, k: nat)
    ensures Placed(n, ink, k) <==> Cursor(n, ink, k + 1) > Cursor(n, ink, k)
  {
    k < |ink| && ink[k] && Cursor(n, ink, k) < n
  }

  /** The character written for cell `k`: the next token or a space. */
  function Glyph(s: string, ink: seq<bool>, k: nat): (g: char)
    ensures Placed(|s|, ink, k) ==> 0 < Cursor(|s|, ink, k + 1) <= |s|
    ensures Placed(|s|, ink, k) ==> g == s[Cursor(|s|, ink, k + 1) - 1]
    ensures !Placed(|s|, ink, k) ==> g == ' '
  {
    if Placed(|s|, ink, k) then s[Cursor(|s|, ink, k)] else ' '
  }

  /** The characters of the `count` cells from cell `k` on. */
  function Line(s: string, ink: seq<bool>, k: nat, count: nat): (line: string)
  {
    seq(count, i requires 0 <= i => Glyph(s, ink, k + i))
  }

  /** `rows` rows of `width` cells from cell `k` on, each ended by `'\n'`. */
  function Rows(s: string, ink: seq<bool>, width: nat, k: nat, rows: nat): string
    decreases rows
  {
    if rows == 0 then [] else Line(s, ink, k, width) + "\n" + Rows(s, ink, width, k + width, rows - 1)
  }

  /** The tokens no cell took (lines 73-74). */
  function Overflow(s: string, ink: seq<bool>): (r: string)
    ensures |r| == |s| - Min(|s|, InkCount(ink, |ink|))
  {
    s[Cursor(|s|, ink, |ink|)..]
  }

  /** The whole output: the raster, then the overflow with no line break
      around it. */
  function Render(s: string, ink: seq<bool>, width: nat, height: nat): (r: string)
    requires |ink| == width * height
    ensures |r| == height * (width + 1) + |s| - Min(|s|, InkCount(ink, |ink|))
  {
    RowsLength(s, ink, width, 0, height);
    Rows(s, ink, width, 0, height) + Overflow(s, ink)
  }

  /** The cursor starts at 0, never exceeds the token count, and rises by
      exactly one at a cell that takes a token and by nothing elsewhere. */
  lemma CursorStep(n: nat, ink: seq<bool>, k: nat)
    ensures Cursor(n, ink, 0) == 0
    ensures Cursor(n, ink, k + 1) == Cursor(n, ink, k) + (if Placed(n, ink, k) then 1 else 0)
    ensures Cursor(n, ink, k + 1) <= n
  {
  }

  /** The cursor never moves backwards. */
  lemma {:induction false} CursorMonotone(n: nat, ink: seq<bool>, j: nat, k: nat)
    requires j <= k
    ensures Cursor(n, ink, j) <= Cursor(n, ink, k)
    decreases k - j
  {
    if j < k {
      CursorStep(n, ink, j);
      CursorMonotone(n, ink, j + 1, k);
    }
  }

  /** Over a mask that is ink everywhere the cursor counts the cells, up to
      the number of tokens. */
  lemma {:induction false} AllInkCursor(n: nat, ink: seq<bool>, k: nat)
    requires forall i :: 0 <= i < |ink| ==> ink[i]
    requires k <= |ink|
    ensures Cursor(n, ink, k) == Min(n, k)
  {
    if k > 0 {
      AllInkCursor(n, ink, k - 1);
      CursorStep(n, ink, k - 1);
    }
  }

  /** Over a mask that is ink everywhere, cell `k` shows token `k` while
      tokens last and a space after. */
  lemma AllInkGlyph(s: string, ink: seq<bool>, k: nat)
    requires forall i :: 0 <= i < |ink| ==> ink[i]
    requires k < |ink|
    ensures Glyph(s, ink, k) == if k < |s| then s[k] else ' '
  {
    AllInkCursor(|s|, ink, k);
  }

  /** Number of cells among the first `k` that take a token. */
  ghost function PlacedCount(n: nat, ink: seq<bool>, k: nat): (r: nat)
    ensures r <= k
  {
    if k == 0 then 0 else PlacedCount(n, ink, k - 1) + (if Placed(n, ink, k - 1) then 1 else 0)
  }

  /** Greedy placement: the cells that take tokens are as many as the tokens
      or the ink cells, whichever is fewer, and the overflow holds the rest. */
  lemma {:induction false} GreedyCount(s: string, ink: seq<bool>, k: nat)
    ensures PlacedCount(|s|, ink, k) == Min(|s|, InkCount(ink, k))
    ensures k == |ink| ==> |Overflow(s, ink)| == |s| - PlacedCount(|s|, ink, k)
  {
    if k > 0 {
      GreedyCount(s, ink, k - 1);
      CursorStep(|s|, ink, k - 1);
    }
  }

  /** Reads the tokens back out of the cells of one line whose first cell is
      `k`: the characters of the cells that take a token, in order. */
  ghost function ReadLine(line: string, n: nat, ink: seq<bool>, k: nat): string
  {
    if line == [] then [] else (if Placed(n, ink, k) then [line[0]] else []) + ReadLine(line[1..], n, ink, k + 1)
  }

  /** Reads the tokens back out of a text laid out as `rows` rows of `width`
      cells from cell `k` on, each row followed by one terminator character,
      and keeps whatever follows the last row. */
  ghost function ReadRows(out: string, n: nat, ink: seq<bool>, width: nat, k: nat, rows: nat): string
    decreases rows
  {
    if rows == 0 then out
    else
      var line := if |out| < width then out else out[..width];
      var rest := if |out| < width + 1 then [] else out[width + 1..];
      ReadLine(line, n, ink, k) + ReadRows(rest, n, ink, width, k + width, rows - 1)
  }

  /** Reads back a whole output text laid out for `n` tokens: the cells
      that take a token in scan order, then everything after the raster. */
  ghost function Readback(out: string, n: nat, ink: seq<bool>, width: nat, height: nat): string
  {
    ReadRows(out, n, ink, width, 0, height)
  }

  /** Reading a line of cells back yields the tokens the scan placed in
      them. */
  lemma {:induction false} ReadLineLine(s: string, ink: seq<bool>, k: nat, count: nat)
    ensures Cursor(|s|, ink, k) <= Cursor(|s|, ink, k + count)
    ensures ReadLine(Line(s, ink, k, count), |s|, ink, k)
            == s[Cursor(|s|, ink, k)..Cursor(|s|, ink, k + count)]
    decreases count
  {
    CursorMonotone(|s|, ink, k, k + count);
    if count > 0 {
      var line := Line(s, ink, k, count);
      assert line[0] == Glyph(s, ink, k);
      assert line[1..] == Line(s, ink, k + 1, count - 1);
      ReadLineLine(s, ink, k + 1, count - 1);
      CursorStep(|s|, ink, k);
      if Placed(|s|, ink, k) {
        var a := Cursor(|s|, ink, k);
        var b := Cursor(|s|, ink, k + count);
        assert s[a..b] == [s[a]] + s[a + 1..b];
      }
    }
  }

  /** The cell just past `rows` rows of `width` cells from cell `k`. */
  ghost function RowsEnd(k: nat, width: nat, rows: nat): (end: nat)
    ensures end >= k
    decreases rows
  {
    if rows == 0 then k else RowsEnd(k + width, width, rows - 1)
  }

  /** Row ends in closed form: `rows` rows of `width` cells span
      `rows * width` cells. */
  lemma {:induction false} RowsEndIsProduct(k: nat, width: nat, rows: nat)
    ensures RowsEnd(k, width, rows) == k + rows * width
    decreases rows
  {
    if rows > 0 {
      RowsEndIsProduct(k + width, width, rows - 1);
      assert (k + width) + (rows - 1) * width == k + rows * width;
    }
  }

  /** Appending one more row after `rows` rows gives `rows + 1` rows; the
      new row starts where the old ones end, and the end moves on by
      `width` cells. */
  lemma {:induction false} RowsSnoc(s: string, ink: seq<bool>, width: nat, k: nat, rows: nat, written: string, out: string)
    requires written == Rows(s, ink, width, k, rows)
    requires out == written + Line(s, ink, RowsEnd(k, width, rows), width) + "\n"
    ensures out == Rows(s, ink, width, k, rows + 1)
    ensures RowsEnd(k, width, rows + 1) == RowsEnd(k, width, rows) + width
    decreases rows
  {
    var last := Line(s, ink, RowsEnd(k, width, rows), width);
    if rows == 0 {
      assert Rows(s, ink, width, k, 1) == last + "\n" + [];
    } else {
      var head := Line(s, ink, k, width) + "\n";
      var later := Rows(s, ink, width, k + width, rows - 1);
      assert written == head + later;
      RowsSnoc(s, ink, width, k + width, rows - 1, later, later + last + "\n");
      AppendAssoc(written, last, "\n");
      AppendAssoc(head, later, last + "\n");
      AppendAssoc(later, last, "\n");
    }
  }

  /** Reading a nonempty block of rows back takes its first line, skips the
      terminator and reads on from the next row. */
  lemma RowsUnfold(s: string, ink: seq<bool>, width: nat, k: nat, rows: nat, tail: string)
    requires rows > 0
    ensures ReadRows(Rows(s, ink, width, k, rows) + tail, |s|, ink, width, k, rows)
            == ReadLine(Line(s, ink, k, width), |s|, ink, k)
               + ReadRows(Rows(s, ink, width, k + width, rows - 1) + tail, |s|, ink, width, k + width, rows - 1)
  {
    var line := Line(s, ink, k, width);
    var later := Rows(s, ink, width, k + width, rows - 1);
    var out := Rows(s, ink, width, k, rows) + tail;
    assert out == line + ("\n" + later + tail);
    assert out[..width] == line;
    assert out[width + 1..] == later + tail;
  }

  /** Reading rows back yields the tokens the scan placed in them, followed
      by whatever follows the rows. */
  lemma {:induction false} ReadRowsRows(s: string, ink: seq<bool>, width: nat, k: nat, rows: nat, tail: string)
    ensures Cursor(|s|, ink, k) <= Cursor(|s|, ink, RowsEnd(k, width, rows))
    ensures ReadRows(Rows(s, ink, width, k, rows) + tail, |s|, ink, width, k, rows)
            == s[Cursor(|s|, ink, k)..Cursor(|s|, ink, RowsEnd(k, width, rows))] + tail
    decreases rows
  {
    var n := |s|;
    if rows == 0 {
      assert Rows(s, ink, width, k, rows) + tail == tail;
      assert s[Cursor(n, ink, k)..Cursor(n, ink, k)] == [];
    } else {
      var e := RowsEnd(k + width, width, rows - 1);
      assert RowsEnd(k, width, rows) == e;
      var a, b, c := Cursor(n, ink, k), Cursor(n, ink, k + width), Cursor(n, ink, e);
      RowsUnfold(s, ink, width, k, rows, tail);
      ReadLineLine(s, ink, k, width);
      ReadRowsRows(s, ink, width, k + width, rows - 1, tail);
      SliceJoin(s, a, b, c);
      JoinParts(ReadRows(Rows(s, ink, width, k, rows) + tail, n, ink, width, k, rows),
                ReadLine(Line(s, ink, k, width), n, ink, k),
                ReadRows(Rows(s, ink, width, k + width, rows - 1) + tail, n, ink, width, k + width, rows - 1),
                s[a..b], s[b..c], tail);
    }
  }

  /** Token conservation: reading the token-taking cells in scan order and
      then the overflow gives back the token string exactly, so nothing is
      dropped, duplicated or reordered. */
  lemma ReadbackRender(s: string, ink: seq<bool>, width: nat, height: nat)
    requires |ink| == width * height
    ensures Readback(Render(s, ink, width, height), |s|, ink, width, height) == s
  {
    ReadRowsRows(s, ink, width, 0, height, Overflow(s, ink));
    RowsEndIsProduct(0, width, height);
    var c := Cursor(|s|, ink, |ink|);
    assert s == s[..c] + s[c..];
  }

  /** Each row takes its `width` cells plus one terminator. */
  lemma {:induction false} RowsLength(s: string, ink: seq<bool>, width: nat, k: nat, rows: nat)
    ensures |Rows(s, ink, width, k, rows)| == rows * (width + 1)
    decreases rows
  {
    if rows > 0 {
      RowsLength(s, ink, width, k + width, rows - 1);
      assert (rows - 1) * (width + 1) + (width + 1) == rows * (width + 1);
    }
  }

  /** Starting `d` cells later ends `d` cells later. */
  lemma {:induction false} RowsEndShift(k: nat, d: nat, width: nat, rows: nat)
    ensures RowsEnd(k + d, width, rows) == RowsEnd(k, width, rows) + d
    decreases rows
  {
    if rows > 0 {
      RowsEndShift(k + width, d, width, rows - 1);
    }
  }

  /** Row `y` of a block of rows from cell `k` starts at text position
      `RowsEnd(0, width + 1, y)`, holds the cells from `RowsEnd(k, width, y)`
      on and ends with `'\n'`. */
  lemma {:induction false} RowsAt(s: string, ink: seq<bool>, width: nat, k: nat, rows: nat, y: nat)
    requires y < rows
    ensures RowsEnd(0, width + 1, y) + width < |Rows(s, ink, width, k, rows)|
    ensures Rows(s, ink, width, k, rows)[RowsEnd(0, width + 1, y)..RowsEnd(0, width + 1, y) + width]
            == Line(s, ink, RowsEnd(k, width, y), width)
    ensures Rows(s, ink, width, k, rows)[RowsEnd(0, width + 1, y) + width] == '\n'
    decreases rows
  {
    var head := Line(s, ink, k, width) + "\n";
    var later := Rows(s, ink, width, k + width, rows - 1);
    RowsSplit(s, ink, width, k, rows);
    if y == 0 {
      SliceBefore(head, later, width);
    } else {
      var t, at := RowsEnd(0, width + 1, y), RowsEnd(0, width + 1, y - 1);
      RowsEndShift(0, width + 1, width + 1, y - 1);
      assert t == |head| + at;
      RowsAt(s, ink, width, k + width, rows - 1, y - 1);
      SliceAfter(head, later, t, at, width);
    }
  }

  /** A nonempty block of rows is its first line, a line break and the
      remaining rows. */
  lemma RowsSplit(s: string, ink: seq<bool>, width: nat, k: nat, rows: nat)
    requires rows > 0
    ensures Rows(s, ink, width, k, rows)
            == (Line(s, ink, k, width) + "\n") + Rows(s, ink, width, k + width, rows - 1)
    ensures |Line(s, ink, k, width) + "\n"| == width + 1
    ensures (Line(s, ink, k, width) + "\n")[width] == '\n'
    ensures (Line(s, ink, k, width) + "\n")[..width] == Line(s, ink, k, width)
  {
  }

  /** The `y`-th line of the output: the cells of raster row `y`, then
      `'\n'`. */
  lemma RenderRow(s: string, ink: seq<bool>, width: nat, height: nat, y: nat)
    requires |ink| == width * height
    requires y < height
    ensures y * (width + 1) + width < |Render(s, ink, width, height)|
    ensures Render(s, ink, width, height)[y * (width + 1)..y * (width + 1) + width]
            == Line(s, ink, y * width, width)
    ensures Render(s, ink, width, height)[y * (width + 1) + width] == '\n'
  {
    var rows := Rows(s, ink, width, 0, height);
    var t, c := RowOffsets(width, y);
    RowsEndIsProduct(0, width + 1, y);
    RowsEndIsProduct(0, width, y);
    RowsAt(s, ink, width, 0, height, y);
    assert Render(s, ink, width, height)[t..t + width] == rows[t..t + width];
  }

  /** Cell `(y, x)` of the raster (line 69 or 71): the next token when the
      cell is ink and tokens remain, a space otherwise. */
  lemma RenderCell(s: string, ink: seq<bool>, width: nat, height: nat, y: nat, x: nat)
    requires |ink| == width * height
    requires y < height && x < width
    ensures y * (width + 1) + x < |Render(s, ink, width, height)|
    ensures y * width + x < |ink|
    ensures Render(s, ink, width, height)[y * (width + 1) + x]
            == if ink[y * width + x] && Cursor(|s|, ink, y * width + x) < |s|
               then s[Cursor(|s|, ink, y * width + x)] else ' '
  {
    var t, c := RowOffsets(width, y);
    RowBound(width, height, y);
    RenderRow(s, ink, width, height, y);
    var r := Render(s, ink, width, height);
    assert r[t + x] == r[t..t + width][x] == Line(s, ink, c, width)[x];
    assert r[t + x] == Glyph(s, ink, c + x);
  }

  /** Over a mask that is ink everywhere (a uniformly dark image), cell
      `(y, x)` shows token `y * width + x` while tokens last and a space
      after: the tokens fill the raster row by row from its top-left cell. */
  lemma AllInkCell(s: string, ink: seq<bool>, width: nat, height: nat, y: nat, x: nat)
    requires |ink| == width * height
    requires forall i :: 0 <= i < |ink| ==> ink[i]
    requires y < height && x < width
    ensures y * (width + 1) + x < |Render(s, ink, width, height)|
    ensures Render(s, ink, width, height)[y * (width + 1) + x]
            == if y * width + x < |s| then s[y * width + x] else ' '
  {
    RenderCell(s, ink, width, height, y, x);
    var _, c := RowOffsets(width, y);
    AllInkCursor(|s|, ink, c + x);
  }

  /** Where row `y` starts: at character `t` of the text and at cell `c`
      of the raster. */
  lemma RowOffsets(width: nat, y: nat) returns (t: nat, c: nat)
    ensures t == y * (width + 1) && c == y * width
  {
    t, c := y * (width + 1), y * width;
  }

  /** A row `y < height` lies inside a raster of `height` rows. */
  lemma RowBound(width: nat, height: nat, y: nat)
    requires y < height
    ensures y * width + width <= height * width
  {
    MulSucc(y, width);
    MulMonotone(y + 1, height, width);
  }

  /** The raster takes exactly `height` lines of `width + 1` characters, the
      last of them ended by `'\n'`; the unplaced tokens follow directly
      after, and there are some exactly when the string has more tokens than
      the raster has ink cells. */
  lemma OverflowPlacement(s: string, ink: seq<bool>, width: nat, height: nat)
    requires |ink| == width * height
    ensures height * (width + 1) <= |Render(s, ink, width, height)|
    ensures |Render(s, ink, width, height)|
            == height * (width + 1) + (|s| - PlacedCount(|s|, ink, |ink|))
    ensures Render(s, ink, width, height)[height * (width + 1)..]
            == s[PlacedCount(|s|, ink, |ink|)..]
    ensures |Render(s, ink, width, height)| > height * (width + 1)
            <==> InkCount(ink, |ink|) < |s|
    ensures height > 0 ==> Render(s, ink, width, height)[height * (width + 1) - 1] == '\n'
  {
    var t, _ := RowOffsets(width, height);
    RowsLength(s, ink, width, 0, height);
    GreedyCount(s, ink, |ink|);
    var r := Render(s, ink, width, height);
    assert r[t..] == Overflow(s, ink);
    if height > 0 {
      var last, _ := RowOffsets(width, height - 1);
      MulPred(height, width + 1);
      RenderRow(s, ink, width, height, height - 1);
      assert last + width == t - 1;
      assert r[t - 1] == '\n';
    }
  }

  /** Inside the raster, when no token is itself a line break, position
      `x` of line `y` holds `'\n'` exactly when it is the position after the
      row's `width` cells. */
  lemma RasterBreak(s: string, ink: seq<bool>, width: nat, height: nat, y: nat, x: nat)
    requires |ink| == width * height
    requires '\n' !in s
    requires y < height && x <= width
    ensures y * (width + 1) + x < |Render(s, ink, width, height)|
    ensures Render(s, ink, width, height)[y * (width + 1) + x] == '\n' <==> x == width
  {
    var t, k := RowOffsets(width, y);
    var r := Render(s, ink, width, height);
    if x < width {
      RenderCell(s, ink, width, height, y, x);
      var c := Cursor(|s|, ink, k + x);
      assert r[t + x] == ' ' || (c < |s| && r[t + x] == s[c]);
    } else {
      RenderRow(s, ink, width, height, y);
      assert r[t + width] == '\n';
    }
  }

  /** Past the raster the output holds only unplaced tokens, so when no
      token is a line break there is none there either. */
  lemma OverflowBreakFree(s: string, ink: seq<bool>, width: nat, height: nat, i: nat)
    requires |ink| == width * height
    requires '\n' !in s
    requires height * (width + 1) <= i < |Render(s, ink, width, height)|
    ensures Render(s, ink, width, height)[i] != '\n'
  {
    var rows, _ := RowOffsets(width, height);
    RowsLength(s, ink, width, 0, height);
    var c := Cursor(|s|, ink, |ink|);
    assert Render(s, ink, width, height)[i] == Overflow(s, ink)[i - rows] == s[c + (i - rows)];
  }

  /** Inside the raster, position `i` holds `'\n'` exactly when it is the
      last position of its line. */
  lemma RasterBreakAt(s: string, ink: seq<bool>, width: nat, height: nat, i: nat)
    requires |ink| == width * height
    requires '\n' !in s
    requires i < height * (width + 1)
    ensures i < |Render(s, ink, width, height)|
    ensures Render(s, ink, width, height)[i] == '\n' <==> i % (width + 1) == width
  {
    var y, x := DivSplit(i, width + 1, height);
    RasterBreak(s, ink, width, height, y, x);
  }

  /** When no token is itself a line break, the output breaks lines exactly
      at the end of each raster row: position `i` holds `'\n'` if and only
      if it is the last position of one of the `height` lines. */
  lemma LineBreaks(s: string, ink: seq<bool>, width: nat, height: nat, i: nat)
    requires |ink| == width * height
    requires '\n' !in s
    requires i < |Render(s, ink, width, height)|
    ensures Render(s, ink, width, height)[i] == '\n'
            <==> i < height * (width + 1) && i % (width + 1) == width
  {
    if i < height * (width + 1) {
      RasterBreakAt(s, ink, width, height, i);
    } else {
      OverflowBreakFree(s, ink, width, height, i);
    }
  }
}
