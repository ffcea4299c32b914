/** `BFFormatter` (bfformatter.py): building the token stream from a
    string or a file's contents, and `format`, which lays the tokens out over
    a thresholded luminance raster. Reading and writing files and decoding
    and resizing the image are left to the caller: a file is given by its
    contents and the image by its resized `width`, `height` and row-major
    luminance `luma`. */
module Formatter {
  import opened Normalise
  import opened Threshold
  import opened Layout
  import opened Basics

  datatype Option<T> = None | Some(value: T)

  /** The two `ValueError`s the class raises (lines 28 and 46). */
  datatype Error = MissingSource | FractionOutOfRange

  datatype Result<T> = Ok(value: T) | Err(error: Error)

  /** The token stream built by `__init__` (lines 22-30): a literal string
      takes precedence over a file, a file's line breaks are dropped, and
      comment stripping, when asked for, applies to either. The arguments
      default as on line 13. */
  function Load(bfString: Option<string> := None, bfFileContents: Option<string> := None,
                stripComments: bool := false): (r: Result<string>)
    ensures r.Err? <==> bfString.None? && bfFileContents.None?
    ensures r.Err? ==> r.error == MissingSource
    ensures r.Ok? && bfString.Some? ==> IsSubsequence(r.value, bfString.value)
    ensures r.Ok? && bfString.Some? && !stripComments ==> r.value == bfString.value
    ensures r.Ok? && bfString.Some? ==>
              forall ch :: IsCodeChar(ch) ==> multiset(r.value)[ch] == multiset(bfString.value)[ch]
    ensures r.Ok? && bfString.None? ==>
              IsSubsequence(r.value, bfFileContents.value) && '\n' !in r.value
    ensures r.Ok? && bfString.None? ==>
              forall ch :: ch != '\n' && (stripComments ==> IsCodeChar(ch)) ==>
                multiset(r.value)[ch] == multiset(bfFileContents.value)[ch]
    ensures r.Ok? && stripComments ==> forall i :: 0 <= i < |r.value| ==> IsCodeChar(r.value[i])
  {
    if bfString.Some? then
      SubsequenceReflexive(bfString.value);
      Ok(if stripComments then StripComments(bfString.value) else bfString.value)
    else if bfFileContents.Some? then
      var lines := RemoveNewlines(bfFileContents.value);
      if stripComments then
        SubsequenceTransitive(StripComments(lines), lines, bfFileContents.value);
        assert !IsCodeChar('\n');
        Ok(StripComments(lines))
      else
        Ok(lines)
    else
      Err(MissingSource)
  }

  /** The guard of line 45: a whitespace fraction lies in [0, 1). */
  predicate ValidFraction(wsFraction: real)
    ensures ValidFraction(wsFraction) <==> 0.0 <= wsFraction < 1.0
  {
    !(wsFraction >= 1.0 || wsFraction < 0.0)
  }

  /** One cell of the scan, at index `idx`: when `c` has its closed-form
      value, the source's test `c < n and inv*Y[idx] < inv*0.5` (line 67,
      with `inv` set as on lines 59-62) holds exactly when the cell takes a
      token, the character appended is the next token or a space, and the
      cursor advances by one exactly when a token was taken. */
  lemma ScanCell(s: string, luma: seq<real>, invert: bool, inv: real, idx: nat, c: nat)
    requires idx < |luma|
    requires inv == Orientation(invert)
    requires c == Cursor(|s|, InkMask(luma, invert), idx)
    ensures (c < |s| && inv * luma[idx] < inv * 0.5) == Placed(|s|, InkMask(luma, invert), idx)
    ensures Cursor(|s|, InkMask(luma, invert), idx + 1)
            == if c < |s| && inv * luma[idx] < inv * 0.5 then c + 1 else c
    ensures Glyph(s, InkMask(luma, invert), idx)
            == if c < |s| && inv * luma[idx] < inv * 0.5 then s[c] else ' '
  {
    CursorStep(|s|, InkMask(luma, invert), idx);
  }

  /** One row of the scan (lines 64-72), row `y` whose first cell is
      `rowStart = y * width`: it appends the row's cells and a line break to
      the output and advances the cursor past the tokens it placed. */
  method ScanRow(s: string, luma: seq<real>, invert: bool, inv: real, width: nat, y: nat,
                 ghost rowStart: nat, c0: nat, out0: string) returns (c: nat, out: string)
    requires inv == Orientation(invert)
    requires rowStart == y * width && rowStart + width <= |luma|
    requires c0 == Cursor(|s|, InkMask(luma, invert), rowStart)
    ensures c == Cursor(|s|, InkMask(luma, invert), rowStart + width)
    ensures out == out0 + Line(s, InkMask(luma, invert), rowStart, width) + "\n"
  {
    ghost var ink := InkMask(luma, invert);
    var n := |s|;
    c, out := c0, out0;
    var x := 0;
    ghost var k := rowStart;
    while x < width
      invariant x <= width && k == rowStart + x
      invariant c == Cursor(n, ink, k)
      invariant out + Line(s, ink, k, width - x) == out0 + Line(s, ink, rowStart, width)
    {
      var idx: int := y * width + x;
      assert idx == k;
      ScanCell(s, luma, invert, inv, idx, c);
      var cell: char;
      if c < n && inv * luma[idx] < inv * 0.5 {
        cell := s[c];
        c := c + 1;
      } else {
        cell := ' ';
      }
      assert Line(s, ink, k, width - x) == [cell] + Line(s, ink, k + 1, width - (x + 1));
      AppendAssoc(out, [cell], Line(s, ink, k + 1, width - (x + 1)));
      out := out + [cell];
      x, k := x + 1, k + 1;
    }
    out := out + "\n";
  }

  /** The scan of lines 58-74 as the source writes it, row by row with a
      running cursor `c`, then the unplaced tokens; it produces `Render`. */
  method ScanRaster(s: string, luma: seq<real>, invert: bool, width: nat, height: nat) returns (out: string)
    requires |luma| == width * height
    ensures out == Render(s, InkMask(luma, invert), width, height)
  {
    ghost var ink := InkMask(luma, invert);
    var n := |s|;
    var inv := Orientation(invert);
    var c := 0;
    out := "";
    var y := 0;
    ghost var rowStart := 0;
    while y < height
      invariant y <= height
      invariant rowStart == RowsEnd(0, width, y)
      invariant c == Cursor(n, ink, rowStart)
      invariant out == Rows(s, ink, width, 0, y)
    {
      RowsEndIsProduct(0, width, y);
      RowBound(width, height, y);
      ghost var written := out;
      c, out := ScanRow(s, luma, invert, inv, width, y, rowStart, c, out);
      RowsSnoc(s, ink, width, 0, y, written, out);
      y, rowStart := y + 1, rowStart + width;
    }
    RowsEndIsProduct(0, width, height);
    if c < n {
      out := out + s[c..];
    } else {
      assert s[c..] == [];
    }
  }

  /** `format` (lines 32-77) on a resized image: the fraction is checked
      before anything else (lines 45-46), then the tokens are laid out. The
      returned text is the layout `Render` describes: it holds every token
      once and in order, it opens with `height` lines of `width + 1`
      characters, and the tokens that found no ink cell follow them. As on
      line 32, the image is not inverted and the fraction is one half unless
      the caller says otherwise. */
  method Format(source: string, luma: seq<real>, width: nat, height: nat,
                invert: bool := false, wsFraction: real := 0.5)
    returns (r: Result<string>)
    requires |luma| == width * height
    ensures r.Err? <==> wsFraction >= 1.0 || wsFraction < 0.0
    ensures r.Err? ==> r.error == FractionOutOfRange
    ensures r.Ok? ==> r.value == Render(source, InkMask(luma, invert), width, height)
    ensures r.Ok? ==> Readback(r.value, |source|, InkMask(luma, invert), width, height) == source
    ensures r.Ok? ==> |r.value| == height * (width + 1) + (|source| - Min(|source|, InkCount(InkMask(luma, invert), |luma|)))
  {
    if !ValidFraction(wsFraction) {
      return Err(FractionOutOfRange);
    }
    var out := ScanRaster(source, luma, invert, width, height);
    ReadbackRender(source, InkMask(luma, invert), width, height);
    OverflowPlacement(source, InkMask(luma, invert), width, height);
    GreedyCount(source, InkMask(luma, invert), |luma|);
    r := Ok(out);
  }

  /** A cell whose luminance is exactly 0.5 is a space in either
      orientation: the comparison on line 67 is strict. */
  lemma MidpointCellBlank(s: string, luma: seq<real>, invert: bool, width: nat, height: nat, y: nat, x: nat)
    requires |luma| == width * height
    requires y < height && x < width
    requires y * width + x < |luma| && luma[y * width + x] == 0.5
    ensures y * (width + 1) + x < |Render(s, InkMask(luma, invert), width, height)|
    ensures Render(s, InkMask(luma, invert), width, height)[y * (width + 1) + x] == ' '
  {
    RenderCell(s, InkMask(luma, invert), width, height, y, x);
    MidpointIsBlank(invert);
  }
}
