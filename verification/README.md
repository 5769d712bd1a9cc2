# Sky chart data and Doodle Fit solver, modelled in Dafny

This project models two small programs from the same site.

**The sky chart (`downloads/code/ti/ti.js`).** It reads a tab-separated star catalog and space-separated planet ephemerides, and draws planets moving over the stars. The model covers its data logic:

- the sexagesimal reader `fromBase60`, with JavaScript's `split` and unary `+`;
- the catalog state machine `parseStars`: constellations, stars, links, ignored sections;
- the mapping of an ephemeris line to a sample;
- the right-ascension offset and wrap-around;
- the sample lookup `ratioOf` and its interpolating variant `interpolateRatioOf`.

JavaScript numbers are exact reals plus NaN (`JsNumber.Num`).

**The Doodle Fit solver (`downloads/code/doodle-fit.py`).** It reads a shape and blocks as text grids and finds every offset where each block fits. It then writes an exact-cover integer program, or draws a solution of that program with one label per placed block. The model covers:

- the grid conversion;
- the fit test and the placement search;
- the covered squares of a placement;
- the structure of the generated constraints, including the names they carry;
- the painting and printing of a solution.

Module layout:

- `Results`: `Option` and `Result`.
- `Decimal`: digit strings, and the decimal text of a natural number.
- `JsNumber`: `Num`, arithmetic with NaN, JavaScript's `%`, and unary `+` on strings.
- `Sexagesimal`: `split` and `fromBase60`.
- `Catalog`: `parseStars`.
- `Ephemeris`: ephemeris lines.
- `ChartOffset`: the `ra` accessor of the chart.
- `Interpolation`: `ratioOf` and `interpolateRatioOf`.
- `Grids`: `width`, `height` and `getblock`'s grid conversion.
- `Placement`: `canplaceat`, `place` and `coverat`.
- `Constraints`: the variable and constraint structure of `gen`.
- `LpNames`: the names `gen` writes.
- `Solution`: `fill` and `show`.

## Model

| member | source | states |
|---|---|---|
| `Sexagesimal.Split` | downloads/code/ti/ti.js:200 | `split` on one separator yields at least one piece; no piece contains the separator; joining the pieces gives the input back |
| `Sexagesimal.SplitJoin` | downloads/code/ti/ti.js:200 | splitting separator-free pieces joined by the separator returns exactly those pieces |
| `Sexagesimal.FromBase60` | downloads/code/ti/ti.js:199-202 | fewer than three space-separated fields give NaN, because a missing field reads as `undefined` |
| `Sexagesimal.FromBase60OfFields` | downloads/code/ti/ti.js:199-202 | three fields with values x, y, z give x*3600 + y*60 + z; each field converts on its own, so a sign on the first does not carry to the others |
| `Sexagesimal.FromBase60OfTriple` | downloads/code/ti/ti.js:199-202 | the text "D M S" of natural numbers reads as exactly D*3600 + M*60 + S seconds |
| `JsNumber.ToNumber` | downloads/code/ti/ti.js:103-104 | definition of unary `+` on a field; characterised by `JsNumber.ToNumberOfShow` (a natural's decimal text, signed or not, reads back as that number) and `JsNumber.UnsignedToNumber` (an unsigned decimal literal reads as its value, with "-" in front as its negation) |
| `JsNumber.FieldNumber` | downloads/code/ti/ti.js:201 | `+arr[i]` past the end of the array is NaN |
| `JsNumber.ToNumberOfShow` | downloads/code/ti/ti.js:201 | unary `+` on the decimal text of n (optionally with a minus sign) gives n (or -n) |
| `JsNumber.Rem` | downloads/code/ti/ti.js:110 | JavaScript `%` by a positive modulus: NaN in, NaN out; the result lies in [0, m) for a non-negative dividend and in (-m, 0] for a negative one |
| `Catalog.Resolve` | downloads/code/ti/ti.js:82-84 | a link row maps to one endpoint per field; an endpoint is defined exactly when the name is in the star map, and then it is that star |
| `Catalog.Step` | downloads/code/ti/ti.js:48-86 | per row: a blank first field resets to state 0; a "---" field increments the state; an unknown constellation starts an ignored section; ignored or past-links states change nothing; a constellation or star row with fewer than three fields is the only failure; ra is 15 times the first coordinate and dec the second; a "#" star is dropped from both list and map; other stars are appended and recorded under their name; a link row appends one polyline; outputs are only ever extended |
| `Catalog.StepConsistent` | downloads/code/ti/ti.js:57-86 | each step keeps the invariant: constellations are members; stars are named, not "#", and in the map; map entries are stars under their own name; resolved link endpoints are stars |
| `Catalog.AddStarConsistent` | downloads/code/ti/ti.js:76-79 | recording a named, non-"#" star in both the list and the map keeps the invariant |
| `Catalog.Run` | downloads/code/ti/ti.js:48-87 | definition of the row callback applied to every row in order, stopping at the first row that throws; characterised by `Catalog.RunConsistent` (the parser invariant holds after any successful run) and `Catalog.SkipIgnoredRow` |
| `Catalog.RunConsistent` | downloads/code/ti/ti.js:44-93 | the invariant holds after any sequence of rows |
| `Catalog.ParseStars` | downloads/code/ti/ti.js:44-93 | a successful parse keeps only member constellations, only named non-"#" stars, and link endpoints that are returned stars or undefined |
| `Catalog.ConstellationSection` | downloads/code/ti/ti.js:57-68 | in state 0, a run of member constellation rows with coordinates appends one constellation per row, in order, with ra 15 times the first coordinate, and changes nothing else |
| `Catalog.StarSection` | downloads/code/ti/ti.js:69-80 | in state 1, a run of star rows with coordinates appends exactly the stars whose name does not start with "#", in row order; afterwards each name looks up the star of the last such row with that name, or what it looked up before if no row of the run records it |
| `Catalog.LinkSection` | downloads/code/ti/ti.js:81-85 | in state 2, a run of link rows appends one polyline per row, each endpoint resolved against the star map, and changes nothing else |
| `Catalog.CatalogOfFile` | downloads/code/ti/ti.js:44-93 | a file of member constellations, a "---" row, star rows, a "---" row and link rows parses without error to those constellations, the non-"#" stars in row order, and one polyline per link row whose endpoint j is the star of the last non-"#" star row named by field j, or undefined if there is none |
| `Catalog.SkipIgnoredRow` | downloads/code/ti/ti.js:57-62 | a data row read in an ignored section leaves the parse unchanged |
| `Catalog.IgnoredSectionSkipped` | downloads/code/ti/ti.js:57-62 | once a section is ignored, any number of data rows leave the parse unchanged |
| `Ephemeris.NonEmpty` | downloads/code/ti/ti.js:100 | the filter keeps exactly the non-empty tokens, and yields nothing exactly when every token is empty |
| `Ephemeris.NonEmptyConcat` | downloads/code/ti/ti.js:100 | filtering a line piecewise equals filtering it whole |
| `Ephemeris.NonEmptyKeeps` | downloads/code/ti/ti.js:100 | a line without empty tokens passes the filter unchanged |
| `Ephemeris.SampleOfRow` | downloads/code/ti/ti.js:99-105 | the time is undefined exactly when the line has no tokens, and otherwise is its first non-empty token; fewer than three tokens make ra NaN, fewer than four make dec NaN |
| `Ephemeris.ParseEphemeris` | downloads/code/ti/ti.js:98-107 | one sample per line |
| `Ephemeris.ParseEphemerisLines` | downloads/code/ti/ti.js:98-107 | sample i is the conversion of line i alone |
| `Ephemeris.UsualLine` | downloads/code/ti/ti.js:101-105 | for a line "time x ra dec ...", the sample is the time, ra*3600 and dec*3600; the second token is skipped |
| `Ephemeris.WholeCoordinates` | downloads/code/ti/ti.js:103-104 | whole-degree right ascension and declination (the ephemeris gives both in degrees) become exact multiples of 3600 seconds of arc |
| `Ephemeris.WordDeclination` | downloads/code/ti/ti.js:103-104 | "2024-01-01 10.0 5.0 ignored" gives ra 18000 from the third token and a NaN dec from the word |
| `Ephemeris.BlankFieldIgnored` | downloads/code/ti/ti.js:100 | an extra empty field, such as from doubled spaces, changes nothing |
| `Ephemeris.SecondTokenUnread` | downloads/code/ti/ti.js:101-105 | the second token never reaches the sample |
| `ChartOffset.RaAsWritten` | downloads/code/ti/ti.js:109-111 | the reduction with JavaScript `%`: NaN iff the input is NaN; in [0, full circle) whenever the shifted value is non-negative |
| `ChartOffset.AsWrittenStaysNegative` | downloads/code/ti/ti.js:110 | a shifted value in (-full circle, 0) comes back unchanged and negative |
| `ChartOffset.AsWrittenNegativeOffset` | downloads/code/ti/ti.js:110 | an offset of -30 degrees sends a star at 36000 to -72000 |
| `ChartOffset.AsWrittenTranslates` | downloads/code/ti/ti.js:109-111 | for ra in [0, full circle) and an offset in (-360, 0] degrees, the result as written is exactly ra + offset*3600: nothing wraps |
| `ChartOffset.AsWrittenKeepsDistances` | downloads/code/ti/ti.js:109-111 | with such an offset, the distance between any two stars is unchanged, so the chart, whose horizontal domain is the extent of the same values (line 125), looks as it does with offset 0 |
| `ChartOffset.RaWrapsNegativeOffset` | downloads/code/ti/ti.js:109-111 | with an offset of -30 degrees, the corrected reduction puts a star at 10 degrees after a star at 350 degrees, while the code as written keeps it before |
| `ChartOffset.AsWrittenPeriodic` | downloads/code/ti/ti.js:109-111 | for a non-negative shifted value, adding a full circle to ra leaves the result as written unchanged |
| `ChartOffset.Ra` | downloads/code/ti/ti.js:109-111 | the corrected reduction: NaN iff the input is NaN, otherwise always in [0, full circle) |
| `ChartOffset.RaCharacterised` | downloads/code/ti/ti.js:110 | the corrected result is the unique value in [0, full circle) that differs from ra + offset*3600 by whole circles |
| `ChartOffset.RaPeriodic` | downloads/code/ti/ti.js:110 | whole turns of the input do not change the result |
| `ChartOffset.RaOffsetPeriodic` | downloads/code/ti/ti.js:110 | offsets that differ by multiples of 360 degrees give the same result |
| `ChartOffset.RaAgreesWhenNonNegative` | downloads/code/ti/ti.js:110 | where the shifted value is non-negative, the code as written and the correction agree |
| `ChartOffset.RaNegativeOffset` | downloads/code/ti/ti.js:110 | with the correction, the star at 36000 with offset -30 degrees lands at 1224000 |
| `Interpolation.Index` | downloads/code/ti/ti.js:205 | definition of `Math.floor(ratio * (arr.length - 1))`; characterised by `Interpolation.IndexInRange` and `Interpolation.IndexMonotone` |
| `Interpolation.IndexInRange` | downloads/code/ti/ti.js:205 | every ratio in [0, 1] selects an index of a non-empty array |
| `Interpolation.IndexMonotone` | downloads/code/ti/ti.js:205 | a larger ratio never selects an earlier sample |
| `Interpolation.RatioOf` | downloads/code/ti/ti.js:204-206 | a sample is returned exactly when the floor index is in range, and it is an element of the array |
| `Interpolation.RatioOfEmpty` | downloads/code/ti/ti.js:204-206 | an empty array yields undefined at every ratio |
| `Interpolation.RatioOfEnds` | downloads/code/ti/ti.js:204-206 | ratio 0 is the first sample and ratio 1 the last |
| `Interpolation.RatioOfSingleSample` | downloads/code/ti/ti.js:204-215 | with one sample, every ratio picks it, and the interpolation is its position |
| `Interpolation.RatioOfReachesEverySample` | downloads/code/ti/ti.js:204-206 | sample k is selected at ratio k/(n-1), which lies in [0, 1] |
| `Interpolation.Lerp` | downloads/code/ti/ti.js:214 | the numeric blend is NaN iff either end is |
| `Interpolation.LerpBetween` | downloads/code/ti/ti.js:214 | a blend with weight in [0, 1] lies between its ends; weight 0 gives the first end |
| `Interpolation.Weight` | downloads/code/ti/ti.js:209-214 | `idx - lo` lies in [0, 1) |
| `Interpolation.InterpolateRatioOf` | downloads/code/ti/ti.js:208-215 | defined exactly where `ratioOf` is; at the last index it is the last sample's position |
| `Interpolation.InterpolationBetweenNeighbours` | downloads/code/ti/ti.js:208-215 | the interpolated position lies, coordinate by coordinate, between the sample `ratioOf` picks and the next one |
| `Interpolation.InterpolationAtSample` | downloads/code/ti/ti.js:208-215 | at ratio k/(n-1) the interpolated position is sample k's own, NaN coordinates included, when the next sample's coordinates are finite (a NaN next sample spoils it, see `Interpolation.InterpolationNaNNeighbour`) |
| `Interpolation.InterpolationAtEnd` | downloads/code/ti/ti.js:211-212 | at ratio 1 the interpolation returns the last sample's position unblended |
| `Interpolation.InterpolationNaNNeighbour` | downloads/code/ti/ti.js:211-214 | a NaN ra in the following sample makes the interpolated ra NaN |
| `Grids.Width` | downloads/code/doodle-fit.py:10 | definition, the length of the first row; for the grids `Grids.ToGrid` builds it is the longest line's length (its contract) |
| `Grids.Height` | downloads/code/doodle-fit.py:11 | definition, the number of rows; `Grids.ToGrid` states it equals the line count |
| `Grids.MaxLen` | downloads/code/doodle-fit.py:25 | the width is at least every line's length and equal to some line's length |
| `Grids.CellOf` | downloads/code/doodle-fit.py:27 | definition of `int(not c == ' ')`; characterised by `Grids.GridLine` (a square is 1 iff its character is not a space) |
| `Grids.GridLine` | downloads/code/doodle-fit.py:27-28 | a padded row has the grid width; a square is filled iff the line has a non-space character there |
| `Grids.ToGrid` | downloads/code/doodle-fit.py:22-29 | no lines give None; otherwise the grid is rectangular, as tall as the line count, as wide as the longest line, and filled exactly at non-space characters |
| `Grids.ToGridOfDraw` | downloads/code/doodle-fit.py:24-29 | reading back a drawn rectangular grid gives the grid |
| `Placement.Drop` | downloads/code/doodle-fit.py:33 | `s[k:]` has length max(0, len - k) and holds the elements from k on |
| `Placement.Mask` | downloads/code/doodle-fit.py:34 | the zipped AND is as long as the shorter row and is 1 exactly where both rows are 1 |
| `Placement.RowFits` | downloads/code/doodle-fit.py:34-35 | definition, masking leaves the block row unchanged; characterised by `Placement.RowFitsIff` |
| `Placement.FitRows` | downloads/code/doodle-fit.py:32-37 | definition of the row loop over the zipped rows; characterised by `Placement.FitRowsAll` and `Placement.FitRowsOverhang` |
| `Placement.CanPlaceAt` | downloads/code/doodle-fit.py:32-37 | definition of `canplaceat`; characterised by `Placement.CanPlaceAtIff` |
| `Placement.RowFitsIff` | downloads/code/doodle-fit.py:34-35 | a block row fits iff the shape row is at least as long and is filled under every filled block square |
| `Placement.FitRowsAll` | downloads/code/doodle-fit.py:32-37 | with enough shape rows, the fit test is the conjunction of the row tests |
| `Placement.CanPlaceAtIff` | downloads/code/doodle-fit.py:32-37 | for rectangular grids and an in-bounds offset, the test holds iff every filled block square lands on a filled shape square |
| `Placement.FitRowsOverhang` | downloads/code/doodle-fit.py:33 | block rows below the shape's last row are never examined |
| `Placement.Place` | downloads/code/doodle-fit.py:40-46 | the offsets are strictly row-major, and an offset is listed iff it is in the loop ranges and the fit test passes there |
| `Placement.Scan` | downloads/code/doodle-fit.py:41-46 | the nested loops list, in row-major order, exactly the in-range offsets that pass the test |
| `Placement.CoverLine` | downloads/code/doodle-fit.py:52-54 | one covered square per filled square of a row, exactly at the filled positions, left to right |
| `Placement.CoverAt` | downloads/code/doodle-fit.py:49-55 | one covered square per filled block square, exactly the shifted filled squares, in row-major order |
| `Placement.PlacedCellsInShape` | downloads/code/doodle-fit.py:40-55 | a block at a returned offset covers only filled squares inside the shape |
| `Constraints.BlockVars` | downloads/code/doodle-fit.py:64-65 | a block gets one variable per offset, exactly for its own offsets |
| `Constraints.Candidates` | downloads/code/doodle-fit.py:63-65 | each variable belongs to a block of the plan, at one of that block's offsets |
| `Constraints.CandidatesComplete` | downloads/code/doodle-fit.py:63-65 | every offset of every block of the plan has its variable among the candidates |
| `Constraints.AddCellsEffect` | downloads/code/doodle-fit.py:74-75 | `setdefault(cell, []).append` adds the variable once to each covered square's list and leaves other squares alone |
| `Constraints.UsersComplete` | downloads/code/doodle-fit.py:73-75 | a variable whose placement covers a square is in that square's list |
| `Constraints.Coverset` | downloads/code/doodle-fit.py:73-75 | definition of the `setdefault(...).append(...)` loop; characterised by `Constraints.CoversetIsUsers` (a square is a key iff some candidate covers it, and its list is those candidates in order) |
| `Constraints.CoversetIsUsers` | downloads/code/doodle-fit.py:73-75 | the coverset has a key exactly for covered squares, and each list holds, in variable order, exactly the variables whose placement covers the square |
| `Constraints.Insert` | downloads/code/doodle-fit.py:79 | inserting into a sorted duplicate-free list keeps it so and adds exactly the new square |
| `Constraints.SortCells` | downloads/code/doodle-fit.py:79 | sorting the keys gives a strictly row-major list of exactly the keys |
| `Constraints.AllCovered` | downloads/code/doodle-fit.py:73-75 | the squares met while building the coverset are exactly the squares some variable covers |
| `Constraints.UsersOfPlan` | downloads/code/doodle-fit.py:63-75 | a variable is in a square's coverage list exactly when it names a block of the plan at one of its offsets whose covered squares include the square |
| `Constraints.CellRowsExact` | downloads/code/doodle-fit.py:73-80 | the cell constraints are strictly row-major, one per square some candidate covers, each over exactly that square's users |
| `Constraints.Gen` | downloads/code/doodle-fit.py:58-82 | one block constraint per block over exactly its variables; one cell constraint per covered square in row-major order, each over exactly the variables covering it |
| `Constraints.GenCellsExact` | downloads/code/doodle-fit.py:58-80 | a square has a cell constraint exactly when some placement of the plan covers it, and the constraint ranges over exactly the placements of the plan that cover it |
| `LpNames.BlockName` | downloads/code/doodle-fit.py:71 | a block constraint name is "b" and digits, with no underscore |
| `LpNames.VarNameAsWritten` | downloads/code/doodle-fit.py:60 | definition of the source's variable name format; characterised by `LpNames.VarNamesCollide` and `LpNames.NamesDistinctAsWritten` |
| `LpNames.CellNameAsWritten` | downloads/code/doodle-fit.py:80 | definition of the source's cell constraint name format; characterised by `LpNames.CellNamesCollide` and `LpNames.NamesDistinctAsWritten` |
| `LpNames.VarNamesCollide` | downloads/code/doodle-fit.py:60 | block 0 at (1, 11) and at (11, 1) are distinct variables with the same name |
| `LpNames.CellNamesCollide` | downloads/code/doodle-fit.py:80 | squares (1, 11) and (11, 1) get the same constraint name |
| `LpNames.VarNameInjective` | downloads/code/doodle-fit.py:60 | with a separator between row and column, equal variable names mean equal variables |
| `LpNames.CellNameInjective` | downloads/code/doodle-fit.py:80 | with a separator, equal cell names mean equal squares |
| `LpNames.NamesDistinctAsWritten` | downloads/code/doodle-fit.py:60-80 | with the names as the program writes them, a block constraint name, a variable name and a cell constraint name never coincide, though names of one kind can |
| `LpNames.NamesDistinct` | downloads/code/doodle-fit.py:60-80 | with the corrected names, which put a separator between row and column, block, variable and cell constraint names never coincide either |
| `Solution.FillRow` | downloads/code/doodle-fit.py:86-88 | painting one block row keeps the line's length; exactly the squares under its filled squares take the label |
| `Solution.Fill` | downloads/code/doodle-fit.py:84-88 | painting keeps the board's dimensions; exactly the squares the placement covers take the label, and every other square keeps its content |
| `Solution.LastN` | downloads/code/doodle-fit.py:94 | `tokens[-n:]` keeps the last n tokens, or all of them when n is 0 or at least the length |
| `Solution.Select` | downloads/code/doodle-fit.py:96-103 | fails exactly when a nonzero value has no key or the label counter would pass `chr`'s range; otherwise one selection per nonzero value, with keys from the key list |
| `Solution.SelectPicks` | downloads/code/doodle-fit.py:96-103 | the selection for a nonzero value is its own key, labelled '0' plus the number of nonzero values before it |
| `Solution.LastCover` | downloads/code/doodle-fit.py:97-102 | a square has a label exactly when some selected placement covers it |
| `Solution.PaintAll` | downloads/code/doodle-fit.py:97-102 | after all fills, every square holds the label of the last selection covering it, or its original content |
| `Solution.Glyph` | downloads/code/doodle-fit.py:105 | definition of `c or ' '`; characterised by `Solution.RenderLine` (each printed code is the glyph of its square) |
| `Solution.RenderLine` | downloads/code/doodle-fit.py:105 | a line prints iff no filled square is left unlabelled; labels print as themselves and empty squares as spaces |
| `Solution.Render` | downloads/code/doodle-fit.py:104-106 | the whole board prints iff no line holds an unlabelled filled square; one printed line per board line |
| `Solution.Printed` | downloads/code/doodle-fit.py:104-106 | the lines written before the output stops: each written line is that board line printed, and when not every line is written, the next line holds an unlabelled filled square |
| `Solution.PrintedRender` | downloads/code/doodle-fit.py:104-106 | the board prints whole exactly when every line is written, and then what is written is the whole board |
| `Solution.PrintedPainted` | downloads/code/doodle-fit.py:104-106 | of a painted shape, the lines written are those before the first row with an unlabelled filled square, each with spaces on empty squares and labels on filled ones |
| `Solution.KeyCellsInShape` | downloads/code/doodle-fit.py:91-93 | every square a key of a valid plan covers is a filled square of the shape |
| `Solution.SelectionsInShape` | downloads/code/doodle-fit.py:91-102 | selections cover only filled squares, so an empty square is never labelled |
| `Solution.RenderPainted` | downloads/code/doodle-fit.py:104-106 | a painted shape prints whole iff every filled square got a label; empty squares print as spaces and filled ones as their label |
| `Solution.Show` | downloads/code/doodle-fit.py:90-106 | when labelling fails, nothing is written; otherwise the whole board prints iff every filled square is covered, and what is written is every line before the first row with an uncovered filled square, with spaces on empty squares and the last covering label on filled ones |

## Left out

- Reading input is not modelled: `getblock`'s stdin loop, the `rstrip`, and the "---" block separator. Grids are built from already-split lines. `main`, argv and logging are also out.
- The text of the integer program (`var … binary;`, `s.t. … = 1;`, `end;`) is not modelled. `Constraints.Gen` yields its structure, and `LpNames` the names it uses.
- `show` reads the solver's output with `split()` and keeps only the last `len(keys)` tokens before calling `int()` on them. The model takes those integer values directly, so a non-integer token among the kept tokens, which raises in the source, is not modelled; earlier tokens are never converted and cannot raise.
- `show` prints characters. The model prints character codes, and a label is the code `ord('0') + k`. Only Python 2 `chr`, which is limited to 255, is modelled.
- `ti.load`, the d3 scales and SVG drawing, `ti.move` and the attribute closures are not part of this model. `coordgen.c` is not part of this model either.
- The d3 TSV/DSV tokenizers are not modelled, including quoting. Rows arrive as sequences of fields.
- Floating-point rounding and the infinities are not modelled. Numbers are exact reals plus NaN.
- JsNumber.ToNumber: unary `+` is modelled for an optional sign, digits, an optional fraction, and "" (which is 0). Exponents, hexadecimal, "Infinity" and whitespace trimming read as NaN here, unlike JavaScript. This is because catalog and ephemeris fields are plain decimals.
- Interpolation.InterpolateRatioOf: d3's interpolation of the `time` strings is not modelled; the chart never reads the interpolated time. A negative index, where d3 would interpolate from `undefined`, is treated as no position.
- Catalog.ParseStars: its own contract states only the invariant. Content over several rows is stated for files of the usual layout, constellations, "---", stars, "---", links, by `Catalog.CatalogOfFile`; other layouts rely on the per-row `Catalog.Step` contract.
- Catalog.Resolve: `starMap` is a plain JavaScript object (ti.js:45), and the model uses a map with no predefined keys. In the source, a link field such as "constructor", "toString" or "hasOwnProperty" resolves to an inherited `Object.prototype` member instead of `undefined` (ti.js:83). A star named "__proto__" is not recorded as a key by `starMap[n.name] = n` (ti.js:77): the assignment replaces the object's prototype, so later lookups of that star's property names, such as "name" or "ra", return its fields. It is still pushed to `stars`. Neither prototype behaviour is modelled.
- Catalog.Step: the same prototype keys are not modelled when a star is recorded (ti.js:77).
- A "#" star row is dropped from both `starMap` and `stars`, because the `n.name[0] != '#'` guard at ti.js:76-79 covers both assignments.
- An ignored section does not end only at a blank row: a "---" row moves its state from -1 to 0. Values above 2 are reachable too and emit nothing. The model keeps the code's integer counter.
- Grids.GridLine: the grid is built from characters. doodle-fit.py is Python 2 code, and it reads stdin lines as byte strings (`for line in sys.stdin`, line 17) and iterates their bytes (`for c in e`, line 27). So a character that takes several bytes in UTF-8 becomes several filled squares in the source, but one square here. Byte decoding is not modelled.
- An ephemeris sample takes ra and dec from the third and fourth tokens, `d[2]` and `d[3]` at ti.js:103-104. The second token is never read.

## Findings

| source | as written | input that shows it | evidently intended | confidence | as-written member | corrected member |
|---|---|---|---|---|---|---|
| downloads/code/ti/ti.js:110 | `(d.ra + conf.offset.ra * 3600) % (360 * 3600)` uses JavaScript `%`, whose result keeps the dividend's sign | a star at 36000 with a -30 degree offset gives -72000 instead of 1224000; every star in [0, 1296000) with an offset in (-360, 0] is only shifted, and the x domain is the extent of the same values (line 125), so a negative offset has no visible effect | a wrap into [0, 1296000), so that -30 degrees turns the sky like +330 does | not executed | `ChartOffset.AsWrittenNegativeOffset` | `ChartOffset.RaCharacterised` |
| downloads/code/doodle-fit.py:60 | the variable name "b%s_%s%s" runs the row and column digits together, and so does the cell name "c%s%s" at line 80 | block 0 at (1, 11) and at (11, 1) both become "b0_111"; squares (1, 11) and (11, 1) both become "c111" | names that determine the variable and the square, e.g. with a separator between row and column | not executed | `LpNames.VarNamesCollide` | `LpNames.VarNameInjective` |
