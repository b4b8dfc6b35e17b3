# Visualizing bytes and source shapes, in Dafny

This project models the core of a small tool set that turns data into
pictures.

`visualize/visualize.py` turns a file's bytes into a PNG:
- every byte becomes an opaque gray pixel;
- the pixels are cut into rows, using either a width pattern such as
  `3,2*5,1` or the smallest near-square width;
- the rows are padded on the right to the longest row, with transparent
  black or opaque green;
- each row is flattened into channel values (gray and alpha, or RGB) and
  handed to the PNG writer.

`shape/shape.py` draws the "shape" of a source file. It expands each line's
tabs, then paints a white grid as wide as the longest line and as tall as the
line count, with a black cell for every non-whitespace character.

Modules, one file each:
- `Wrappers` (`wrappers.dfy`): `Option` and `Result`.
- `Sequences` (`sequences.dfy`): `Repeat`, `Flatten`, `MaxLen` (`max(map(len, rows))`), `Sum`.
- `Pixels` (`pixels.dfy`): the `Pixel` value, the interning cache as a class with a `map` field, `as_grayscale`, `as_rgb`, `load_pixels`.
- `WidthSpec` (`width_spec.dfy`): the width-pattern grammar and `parse_widthes` as a loop over the comma-separated pieces.
- `WidthSearch` (`width_search.dfy`): `optimal_width` as a loop, proved to return the least width `w` with `total / w <= w`.
- `Layout` (`layout.dfy`): `arrange_by_widthes` as its two loops, proved equal to a recursive specification `Arrange`; `pad_rows_to_width`.
- `Encoding` (`encoding.dfy`): `rows_as_grayscale` and `rows_as_rgb` as nested loops.
- `Visualize` (`visualize.dfy`): the rendering pipeline of `main`, from the padding policy to the image given to the writer, with the errors the source stops on.
- `Shape` (`shape.dfy`): `convert_tabs` as a loop, and the drawing rule as loops over a two-dimensional array.

Behaviour follows the code where it differs from the design description of
the tool:
- The width grammar `((\d+)\*)?(\d+)` accepts zeros. `"0"` gives the width
  list `[0]`, `"0*5"` gives no widths, and the empty pattern fails because
  its single piece `""` does not match.
- `optimal_width(0)` returns 1; the code does not reject zero pixels at that
  point. No pixels only fail later, at `max` of no rows, modelled as
  `EmptyInput`.
- A zero width is not rejected. A zero width before the end of the list
  gives an empty row while pixels remain. A zero last width with pixels
  still uncut makes the second loop of `arrange_by_widthes` run forever.
  `Ends` states exactly when the loop stops, and the pipeline reports the
  other case as `NeverEnds` instead of hanging.
- An empty width list makes `widthes[-1]` raise; it is modelled as
  `NoWidths`.
- Gray of a colour pixel is the truncated mean `(r + g + b) // 3`.

## Model

| member | source | states |
|---|---|---|
| Pixels.PixelCache.Grayscale | visualize/visualize.py:25-34 | returns the gray pixel `(v, a)` and records it under its key; the cache keeps every key mapped to the pixel it names |
| Pixels.PixelCache.Color | visualize/visualize.py:36-45 | returns the colour pixel `(r, g, b, a)` and records it under its key, keeping the cache consistent |
| Pixels.PixelCache.Load | visualize/visualize.py:102-104 | loads through the cache: returns `LoadPixels(bytes)`, keeps the cache consistent, and adds exactly the opaque gray key of every byte to the keys it held before |
| Pixels.AsGrayscale | visualize/visualize.py:47-56 | one value, or two with alpha, the alpha last |
| Pixels.AsRgb | visualize/visualize.py:58-67 | three values, or four with alpha, the alpha last |
| Pixels.GrayscaleIsTruncatedMeanOfRgb | visualize/visualize.py:47-67 | for every pixel, its gray value is the floor of the mean of its three RGB values, and both carry the same alpha |
| Pixels.GrayRoundTrip | visualize/visualize.py:47-67 | a gray pixel reads back its own value as gray and as each of R, G, B |
| Pixels.GrayscaleTruncates | visualize/visualize.py:51 | colour (200, 100, 50) becomes gray 116: the mean is rounded down |
| Pixels.LoadPixels | visualize/visualize.py:102-104 | one opaque gray pixel per byte, in order, with the byte as its value |
| WidthSpec.Decimal | visualize/visualize.py:82 | the inverse of the `int()` reading (`str(n)`): every natural number has a digit string that `DigitsValue` reads back as that number |
| WidthSpec.DigitsValue | visualize/visualize.py:82-85 | `int()` of a digit run; its contract is stated by its partners `Decimal` (every number is read back from its spelling) and `LeadingZeroIgnored` |
| WidthSpec.LeadingZeroIgnored | visualize/visualize.py:82-85 | like `int`, the reading ignores leading zeros: a `0` in front leaves the value unchanged |
| WidthSpec.Split | visualize/visualize.py:77 | `split(",")`: at least one piece, no piece holds a comma, and the pieces joined by commas give back the input |
| WidthSpec.SplitJoin | visualize/visualize.py:77 | joining comma-free pieces and splitting again gives the same pieces |
| WidthSpec.ParseToken | visualize/visualize.py:78-87 | `re.fullmatch` of one piece, with the count defaulting to 1; what it accepts and returns is stated by `ParseTokenDenotes` |
| WidthSpec.ParseTokenDenotes | visualize/visualize.py:78-87 | a piece parses to a token exactly when the piece is `N*W` or a bare `W` in decimal digits and the token holds those numbers, with count 1 for a bare width |
| WidthSpec.ParseTokenFails | visualize/visualize.py:78-80 | a piece is refused exactly when no token is written by it |
| WidthSpec.ZeroAndEmptyTokens | visualize/visualize.py:78-87 | `0` and `0*5` are accepted; the empty piece, `2*` and `2**5` are refused |
| WidthSpec.ExpandLength | visualize/visualize.py:89 | the expanded width list is as long as the sum of the repeat counts |
| WidthSpec.ParseWidths | visualize/visualize.py:74-91 | the loop's result equals the specification `ParseSpec`: the first refused piece as the error, otherwise every token's copies in order |
| WidthSpec.ParseTokensFailure | visualize/visualize.py:77-80 | parsing fails exactly when some piece is refused, and the error names the first refused piece |
| WidthSpec.ParseTokensSuccess | visualize/visualize.py:77-91 | when every piece is accepted, the result is the tokens expanded in order, and its length is the sum of their counts |
| WidthSpec.FormatTokenRoundTrip | visualize/visualize.py:78-87 | writing a token as `N*W` and parsing it gives the token back |
| WidthSpec.BareTokenRoundTrip | visualize/visualize.py:84-87 | a bare width parses with repeat count 1 |
| WidthSpec.FormatTokensRoundTrip | visualize/visualize.py:77-91 | written tokens are accepted, hold no comma, and parse to the tokens' expansion |
| WidthSpec.SpecRoundTrip | visualize/visualize.py:74-91 | a nonempty token list, written as a comma-separated pattern, parses to its expansion |
| WidthSpec.ExpandAppend | visualize/visualize.py:89 | expansion distributes over concatenation of token lists |
| WidthSearch.OptimalWidth | visualize/visualize.py:93-98 | the result is the least width `w >= 1` with `total // w <= w`, and it is at most `total` (at most 1 for no pixels) |
| WidthSearch.WideEnoughUpward | visualize/visualize.py:95 | once a width is wide enough, every larger width is too |
| WidthSearch.DivAntitone | visualize/visualize.py:95 | `total // w` does not grow as `w` grows |
| WidthSearch.SmallestWidthUnique | visualize/visualize.py:93-98 | there is only one least wide-enough width, so the search result is determined |
| WidthSearch.SmallestWidthNearSquare | visualize/visualize.py:93-98 | the width found is near the square root: `total < (w + 1) * w`, and `(w - 1)^2 < total` unless `w` is 1 |
| WidthSearch.TwelvePixels | visualize/visualize.py:93-98 | 12 pixels give width 4 |
| WidthSearch.NoPixels | visualize/visualize.py:93-98 | no pixels give width 1 |
| Layout.RowsFromIsArrangement | visualize/visualize.py:106-119 | the cut rows concatenate to the pixels; every row but the last has exactly its nominal width (the listed width, then the last one reused); the last row is nonempty and no wider |
| Layout.ArrangementIsRowsFrom | visualize/visualize.py:106-119 | any rows with those properties are the cut rows: the arrangement is unique |
| Layout.ArrangeByWidths | visualize/visualize.py:106-119 | the two loops (a row per listed width while pixels remain, then rows of the last width) give `Arrange`, on exactly the inputs for which the source's loop stops |
| Layout.CutByLast | visualize/visualize.py:115-119 | the second loop appends the rows of the last width cut from the cursor to the end |
| Layout.ArrangeLossless | visualize/visualize.py:106-119 | the rows concatenate back to the pixel sequence |
| Layout.ArrangeRowShapes | visualize/visualize.py:106-119 | every row is at most its nominal width, all but the last exactly that, and there are no rows exactly when there are no pixels |
| Layout.ArrangeSevenByThreeTwo | visualize/visualize.py:106-119 | 7 pixels with widths `[3, 2]` give rows of 3, 2 and 2 |
| Layout.ArrangeTenByFour | visualize/visualize.py:106-119 | 10 pixels with width `[4]` give rows of 4, 4 and 2 |
| Layout.PadRow | visualize/visualize.py:123-127 | a row shorter than the width gets pad pixels up to the width after its own pixels; a longer row is left as it is |
| Layout.PadRows | visualize/visualize.py:121-127 | one output row per row, in order, each padded as above |
| Layout.PadToLongestIsRectangular | visualize/visualize.py:121-127 | padded to the longest row, every row has that length and starts with the row it came from |
| Layout.PadSevenToThree | visualize/visualize.py:121-127 | rows of 3, 2 and 2 padded to 3 gain one pad pixel on each short row |
| Sequences.MaxLen | visualize/visualize.py:185 | `max(map(len, rows))`: no row is longer, and some row has exactly that length; no rows give 0 (where the source raises, see `RenderWithWidths`) |
| Encoding.EncodeRow | visualize/visualize.py:129-141 | a row's values are its pixel count times the channel count |
| Encoding.EncodeRowAt | visualize/visualize.py:129-141 | channel `j` of pixel `k` is value `k * c + j` of the row, `c` the channel count |
| Encoding.EncodeRowAppend | visualize/visualize.py:132-133 | adding a pixel adds its values at the end |
| Encoding.RowsAsGrayscale | visualize/visualize.py:129-134 | the nested loops give, for each row, its pixels' gray (and alpha) values in order |
| Encoding.RowsAsRgb | visualize/visualize.py:136-141 | the nested loops give, for each row, its pixels' RGB (and alpha) values in order |
| Encoding.GrayAlphaRoundTrip | visualize/visualize.py:129-134 | gray pixels written as gray and alpha read back unchanged |
| Visualize.PolicyFor | visualize/visualize.py:158-165 | `--transparent` picks gray with alpha padded with transparent black, otherwise RGB without alpha padded with opaque green; `PaddingIsDistinguishable` states what the choice guarantees |
| Visualize.PaddingIsDistinguishable | visualize/visualize.py:158-165 | in both policies the padding pixel's values differ from those of every input byte |
| Visualize.RenderIsRectangular | visualize/visualize.py:184-195 | the image has width and height at least 1, `height` rows each holding `width` times the channel count values, and room for every byte |
| Visualize.DropPaddingOfPadded | visualize/visualize.py:121-127 | trailing transparent padding can be removed from a row that does not end in a transparent pixel |
| Visualize.ValuesOfLoaded | visualize/visualize.py:102-104 | the loaded pixels' values are the bytes |
| Visualize.ReadBackPadded | visualize/visualize.py:121-134 | opaque gray rows padded with transparent black and encoded as gray and alpha read back as the rows' values |
| Visualize.TransparentRoundTrip | visualize/visualize.py:158-195 | with `--transparent`, dropping the transparent padding and reading the gray values of the image gives back exactly the input bytes |
| Visualize.Visualize | visualize/visualize.py:158-195 | a refused width token fails with that token; otherwise the result is the outcome for the chosen widths (the parsed list, or the one least near-square width) |
| Visualize.RenderWithWidths | visualize/visualize.py:180-195 | for known widths: no widths, a cut that never ends and no pixels fail in that order; otherwise the rows are cut, padded to the longest and encoded in the policy's mode |
| Shape.Spaces | shape/shape.py:8 | `" " * n`: `n` spaces, none when `n` is not positive |
| Shape.ExpandTabsAppend | shape/shape.py:4-11 | expansion distributes over concatenation |
| Shape.ConvertTabs | shape/shape.py:4-11 | the loop gives every character's expansion in order: a tab becomes `tabwidth` spaces and anything else stays |
| Shape.ExpandTabsHasNoTab | shape/shape.py:4-11 | no tab survives expansion |
| Shape.ExpandTabsWithoutTabs | shape/shape.py:4-11 | a line without tabs comes back unchanged |
| Shape.ExpandTabsLength | shape/shape.py:4-11 | the expanded line is as long as the line plus `tabwidth - 1` per tab |
| Shape.ExpandTabsAt | shape/shape.py:4-11 | character `k` expands at the length of the expanded prefix before it |
| Shape.ExpandLines | shape/shape.py:28 | one expanded line per source line, in order |
| Shape.IsSpace | shape/shape.py:37 | `str.isspace()` on the ASCII and Latin-1 range, as limited under Left out; `DrawShape` and `ShapeOfSourceLine` state the rule it decides |
| Shape.DrawShape | shape/shape.py:28-38 | the grid is as wide as the longest expanded line and as tall as the line count, and cell `(x, y)` is black exactly when line `y` has a non-whitespace character at `x`, white otherwise |
| Shape.PaintLine | shape/shape.py:36-38 | blackens line `y`'s non-whitespace cells and leaves every other cell as it was |
| Shape.ShapeOfSourceLine | shape/shape.py:28-38 | in terms of the source line, a tab's cells are white, and any other character's cell, at its expanded position, is black exactly when the character is not whitespace |

## Left out

- Command-line parsing, reading the input file, the progress messages and writing the PNG: `png.Writer` is not part of this model. The pipeline ends with the image it would be given: width, height, mode flags and value rows.
- The `--upscale` step: the `convert` subprocess in `visualize.py` and the PIL resize in `shape.py`. Both are external image operations.
- Saving the shape image: PIL's `Image.new`, `putpixel` and `save` become a two-dimensional array of RGB triples.
- Splitting the shape input into lines (`str.splitlines`): the model takes the list of lines.
- Pixels.PixelCache.Grayscale: object identity of cached pixels is not modelled. Pixels are values, so a cached and a fresh pixel are the same; the class keeps the cache's contents. The pipeline loads through a fresh cache, not the process-wide one that already holds the two padding pixels.
- The generators' laziness: each generator is modelled as the list it yields.
- Python's `\d` also matches non-ASCII decimal digits; the model accepts ASCII digits only.
- Shape.IsSpace: `str.isspace` is modelled on the ASCII and Latin-1 range only; other Unicode whitespace counts as dark.
- Shape.DrawShape: requires at least one line, because `max` of no lines raises in the source.
- Visualize.Visualize: a zero last width with pixels left over loops forever in the source; the model returns `NeverEnds`. An empty width list raises `IndexError` and `max` of no rows raises `ValueError`; the model returns `NoWidths` and `EmptyInput`.
- Bytes are modelled as channels in 0..255; the PNG bit depth is fixed at 8.
