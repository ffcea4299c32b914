# BFFormatter in Dafny

`bfformatter.py` lays a Brainfuck program out as ASCII art. Its `BFFormatter` class
builds a token string, either a literal string or a file with its line breaks removed.
When asked, it also strips every character other than the eight commands and `^`. `format` then walks a resized,
thresholded image row by row. Each cell that is dark enough takes the next token, or a
light enough cell when the image is inverted. Every other cell becomes a space, and
each row ends with a line break. Any tokens left over are appended verbatim after the
last row.

This project models that core and proves its properties:

- `basics.dfy` (`Basics`): small facts about sequence concatenation and
  slicing, and about natural-number multiplication and division.
- `normalise.dfy` (`Normalise`): the two character filters of the constructor.
  - Newline removal, line 26.
  - Comment stripping, line 30.
  - Both are built on one `Filter`. Its three promises (subsequence, only kept
    characters, every kept character kept as often) determine it uniquely.
- `threshold.dfy` (`Threshold`): the per-cell test `inv*Y[idx] < inv*0.5`,
  lines 59-67, over exact reals.
- `layout.dfy` (`Layout`): a closed-form reference definition `Render` of the
  text the scan produces. It is built from a cursor function
  `Cursor = min(n, ink cells so far)`. The module proves:
  - token conservation, through a readback function;
  - the raster shape and where line breaks fall;
  - greedy placement;
  - the overflow suffix.
- `formatter.dfy` (`Formatter`): the class itself.
  - `Load` is the constructor, with its `ValueError` as an `Err`.
  - `ScanRow` and `ScanRaster` are the nested loop of lines 58-74, written as
    the source writes it, with a running cursor `c`. They are proved to
    produce `Render`.
  - `Format` is the guard of lines 45-46 followed by the scan.

The image library is replaced by parameters. The caller passes the resized `width`
and `height`, and the row-major luminance `luma`, with `|luma| == width * height`.
That equality is what `resize` followed by `getdata` gives in the source. File
contents are passed as strings.

Line 30's regular expression is `[^\[^\]^<^>^\.^,^\+^-]`. Inside a character class,
every `^` after the first is a literal. So the code keeps `^` along with
`[ ] < > . , + -`, although the docstring at line 19 lists only the eight commands.
The model follows the code (`Normalise.IsCodeChar`, `Normalise.StripCommentsKeepsCaret`).

## Model

| member | source | states |
|---|---|---|
| `Normalise.RemoveNewlines` | bfformatter.py:26 | the file contents lose every `'\n'` and nothing else: no line break is left, every other character occurs as often as before, and the result is a subsequence of the input |
| `Normalise.IsCodeChar` | bfformatter.py:30 | the negated class keeps exactly the eight commands `[]<>.,+-` and `^`; it never keeps a line break or a space |
| `Normalise.StripComments` | bfformatter.py:30 | the stripped source holds only `[]<>.,+-^`, keeps each of those characters as often as the input has it, and keeps their order (it is a subsequence) |
| `Normalise.FilterUnique` | bfformatter.py:26-30 | the three promises of the filters pin the result down: any subsequence of the input with only kept characters, each as often as in the input, is the filtered string |
| `Normalise.StripCommentsIdempotent` | bfformatter.py:30 | stripping an already stripped source changes nothing |
| `Normalise.StripCommentsAppend` | bfformatter.py:30 | stripping distributes over concatenation: stripping two pieces and joining them is stripping the joined text, since the class decides each character on its own |
| `Normalise.StripCommentsKeepsCaret` | bfformatter.py:30 | `^` survives stripping, while the docstring at line 19 omits it; a line break does not survive |
| `Formatter.Load` | bfformatter.py:22-30 | a literal string wins over a file; with neither, the `ValueError` of line 28; file contents lose their line breaks; stripping keeps only code characters, each as often as the input has it, in order; without stripping a literal string is kept as is |
| `Formatter.ValidFraction` | bfformatter.py:45 | a fraction passes the guard exactly when it lies in [0, 1) |
| `Threshold.Orientation` | bfformatter.py:59-62 | `inv` is -1 exactly for an inverted image and +1 otherwise |
| `Threshold.IsInk` | bfformatter.py:67 | a cell takes a token only if its luminance is below 0.5, or above 0.5 when inverted |
| `Threshold.InkMask` | bfformatter.py:64-67 | the mask has one entry per cell, and each entry is the threshold test of that cell's luminance |
| `Threshold.MidpointIsBlank` | bfformatter.py:67 | luminance exactly 0.5 is never ink, in either orientation |
| `Threshold.InvertIsNegative` | bfformatter.py:59-67 | inverting selects exactly the cells the plain test selects on the photographic negative |
| `Layout.Cursor` | bfformatter.py:63-69 | the closed form of the cursor `c` on reaching cell `k`: `min(n, ink cells before k)`, so it never exceeds the token count or the cells passed |
| `Layout.Placed` | bfformatter.py:67-69 | a cell takes a token exactly when the cursor advances past it |
| `Layout.Glyph` | bfformatter.py:67-71 | a cell that takes a token shows the token the cursor has just passed; any other cell shows a space |
| `Layout.Overflow` | bfformatter.py:73-74 | the suffix holds `n - min(n, ink cells)` tokens, those no cell took |
| `Layout.Render` | bfformatter.py:58-74 | the output is `height * (width + 1)` characters of raster plus the unplaced tokens long |
| `Layout.CursorStep` | bfformatter.py:63-69 | the cursor starts at 0, rises by exactly one at a cell that takes a token and otherwise stays put, and never exceeds the token count |
| `Layout.CursorMonotone` | bfformatter.py:63-69 | the cursor never moves backwards |
| `Layout.AllInkCursor` | bfformatter.py:63-69 | over a mask that is ink everywhere, the cursor at cell `k` is `min(n, k)` |
| `Layout.GreedyCount` | bfformatter.py:67-74 | the number of cells that take a token is `min(n, number of ink cells)`, and the overflow holds the other tokens |
| `Layout.ReadLineLine` | bfformatter.py:65-71 | reading back the token-taking cells of one row gives the tokens between the cursor at its first cell and the cursor after its last |
| `Layout.ReadRowsRows` | bfformatter.py:64-72 | reading back a block of rows gives the tokens placed in them, in order, followed by whatever comes after the rows |
| `Layout.ReadbackRender` | bfformatter.py:63-74 | token conservation: the token-taking cells in scan order, followed by the overflow, give back the token string exactly |
| `Layout.RowsLength` | bfformatter.py:64-72 | `rows` rows take exactly `rows * (width + 1)` characters |
| `Layout.RenderRow` | bfformatter.py:64-72 | line `y` of the output is the `width` cells of raster row `y` followed by `'\n'` |
| `Layout.RenderCell` | bfformatter.py:66-71 | cell `(y, x)` shows the next token when it is ink and tokens remain, and a space otherwise |
| `Layout.AllInkCell` | bfformatter.py:63-71 | on a uniformly dark image the tokens fill the raster row-major from the top-left cell, and spaces follow once they run out |
| `Layout.OverflowPlacement` | bfformatter.py:72-74 | the raster takes exactly `height * (width + 1)` characters and ends with `'\n'`; the unplaced tokens follow it directly, with no added line break; there are some exactly when there are more tokens than ink cells |
| `Layout.LineBreaks` | bfformatter.py:64-74 | when no token is a line break, the output holds `'\n'` exactly at the last position of each of the `height` raster lines |
| `Formatter.ScanCell` | bfformatter.py:66-71 | the source's test `c < n and inv*Y[idx] < inv*0.5` holds exactly when the cell takes a token; the character written and the cursor's next value match the closed form |
| `Formatter.ScanRow` | bfformatter.py:64-72 | one pass of the inner loop appends the row's cells and a `'\n'`, and leaves the cursor just past the tokens it placed |
| `Formatter.ScanRaster` | bfformatter.py:58-74 | the nested loop and the overflow suffix, as written, produce exactly `Render` |
| `Formatter.Format` | bfformatter.py:45-74 | a fraction outside [0, 1) is rejected before any work; otherwise the result is `Render`, gives the token string back on readback, and is `height * (width + 1)` characters plus the unplaced tokens long |
| `Formatter.MidpointCellBlank` | bfformatter.py:67 | a cell of luminance exactly 0.5 is a space in the output, whatever the orientation |

## Left out

- Image decoding, resizing and `getdata` (lines 47, 55, 57) belong to an external
  image library. The model takes the resized `width`, `height` and the luminance
  raster as parameters, with `|luma| == width * height`. The loops of lines 64-65 run
  over `img.size`, which after the resize equals `(width, height)`. The model uses
  `width` and `height` for both, as line 66 does.
- Luminance from RGB (line 57) and the raster sizing (lines 48-54) are floating-point
  computations (`//`, `**0.5`, `ceil`), so they are not modelled. Nothing is claimed
  about how `width` and `height` are derived. In particular, an empty token string
  makes line 52 divide by zero. The model accepts any `width` and `height`, including
  zero, and so says nothing about that failure.
- Reading the source file and writing the output file (lines 25, 75-76) are I/O. The
  file is given by its contents, and the model returns the string that line 77 returns.
- The command-line interface (lines 79-98) is glue around the class.
- The class attribute default `bf_string = None` (line 11) has no role in an immutable
  model.
- `invert is True` (line 59) treats every value other than the boolean `True` as not
  inverted. The model takes a boolean.
- `ws_fraction` is a real here, so a NaN fraction, which passes the guard of line 45 in
  the source, cannot be expressed.
- `Layout.LineBreaks` requires that no token is `'\n'`. A literal `bf_string` without
  comment stripping keeps its line breaks (file contents lose them at line 26, and
  stripping at line 30 drops them too), and such a token breaks the line shape
  wherever it lands. `Layout.RenderRow` and `Layout.OverflowPlacement` state
  the shape by position and hold for every token string.
- The source is Python 2 code, so `f.read()` and `len` at line 48 work on byte strings.
  A `char` here stands for one byte of the source, so a non-ASCII comment character
  is several tokens there. The model works the same for any alphabet.
