# simplestroke: a verified model of the gesture matcher and its text encoders

simplestroke records a mouse gesture, compares it against stored gesture
templates and runs the command of the best match. This project models its
core in Dafny and proves properties of the model:

- **Strokes** (`stroke.h`, `stroke.c`): the fixed-capacity stroke buffer
  (`Strokes.Stroke`), `stroke_add_point`, and `stroke_finish` as five in-place
  passes over the buffer. The passes are proved to produce `Geometry.Canonical`:
  arc-length time in [0, 1], a bounding box centred at (0.5, 0.5) and scaled
  into the unit square, and per-segment `dt` and `alpha`. `angle_difference`
  and `stroke_angle_difference` are modelled too.
- **Comparison** (`step`, `stroke_compare`): the dynamic programme over the
  M×N grid, with its `dist`, `prev_x` and `prev_y` tables, the bounded
  forward search (`k < 4`), the slope guard 2.2 and the walk that integrates
  the squared angle difference. It is proved that the returned cost is at
  most `stroke_infinity` and that, when it is below, the predecessor tables
  hold a route from (m, n) back to (0, 0) whose cost is exactly the returned
  value. The search is also proved to try exactly its window: every reached
  cell has tried every cell the `k < 4` loop reaches from it, and no other
  cell changes. On strokes whose times never decrease it follows that the
  cost is the cheapest over all routes whose steps stay inside those
  windows, that a stroke whose segments each span at least epsilon scores 0
  against itself, and that a vertical line matches neither its reverse nor
  a horizontal line. The path arrays receive the route, and only when both
  are given.
- **UTF-8 and JSON** (`src/util.c`): `utf8_check_first`, `utf8_check_full`,
  `utf8_iterate`, `dump_string` and `json_dump_string`. The decoder accepts
  exactly the encodings of Unicode scalar values (RFC 3629, section 3).
  A JSON string reader for section 7 of RFC 8259 (`JsonRead`) is written as
  the serialiser's partner: what the corrected `json_dump_string` (see
  Findings) writes for valid UTF-8 reads back as the input's code points.
- **Bounded string building** (`util.c`): `strlcpy`/`strlcat` over character
  arrays, `config_home`, `config_dir` and the manual page name of
  `exec_man_for_subcommand`. The heap-built `config_dir` of `src/util.c`
  appears as a function, and the buffer version is proved to agree with it
  whenever the path fits.
- **Export** (`simplestroke_export.c`): `json_escape_string`, with its
  inverse, and the `"points":[...]` layout of `simplestroke_export_json`.
- **Detection** (`src/simplestroke_detect.c`, `simplestroke_detect.c`): the
  best-match fold of `load_gestures_cb` over the rows that
  `database_load_gestures` hands it, and the accept/reject decision. Every
  score is tied to the comparison's promise, so a captured stroke equal to a
  stored template is accepted. The
  newer front end keeps heap strings. The older one copies into 2048-character
  buffers and so keeps the texts cut to 2047 characters.

`double` is modelled as `real`. `hypot` and `atan2` are the fields of a
`Geometry.Libm` value, and `Geometry.Sound` states what is assumed of them:
lengths are never negative and angles lie in [-π, π]. `pow(d, 2)` is `d * d`.
Environment variables, the output stream, the number formatter of `%f` and
the rows of the gesture table are parameters.

Files: `wrappers.dfy` (Option), `geometry.dfy`, `stroke.dfy`, `compare.dfy`,
`utf8.dfy`, `jsondump.dfy`, `jsonread.dfy`, `cstrings.dfy`, `paths.dfy`,
`export.dfy`, `detect.dfy`.

## Model

| member | source | states |
|---|---|---|
| Strokes.Stroke.constructor | stroke.h:32-36 | A zeroed stroke: a buffer of MAX_STROKE_POINTS (512) points, all fields 0, count 0, not finished. |
| Strokes.Stroke.AddPoint | stroke.c:34-43 | Requires room and an unfinished stroke. Point n gets the new x and y and keeps its other fields. The count grows by one and no other point changes. |
| Strokes.Stroke.FromPoints | src/db.c:234-239 | A zeroed stroke into which a stored row's points are copied: it holds exactly those points, zeros past them, and is not finished. |
| Strokes.Stroke.Finish | stroke.c:45-84 | On a finished stroke nothing changes, so a second call is the same as one. On an empty stroke only p[0].t becomes 0. Otherwise the points in use become `Canonical` of the raw samples, and the points past n are untouched. |
| Strokes.Stroke.Canonicalise | stroke.c:51-83 | The five passes together leave point j equal to `CanonicalPoint(raw, j)` for every j < n, and leave the rest of the buffer alone. |
| Strokes.Stroke.PlaceAll | stroke.c:51-78 | The first four passes leave every point in use with its normalised x, y and t, and the rest of the buffer alone. |
| Strokes.Stroke.LengthPass | stroke.c:51-58 | Every t becomes the arc length of the polyline up to that point, and the returned total is the whole length. |
| Strokes.Stroke.TimePass | stroke.c:60-61 | Every t is divided by the total length. |
| Strokes.Stroke.BoxPass | stroke.c:63-69 | The four running minima and maxima equal the smallest and largest raw x and y. |
| Strokes.Stroke.PlacePass | stroke.c:71-78 | Every coordinate is moved so the box centre lands at 0.5 and is divided by the scale. |
| Strokes.Stroke.SegmentPass | stroke.c:80-83 | Every point but the last gets the time to the next point as dt and the direction to it over π as alpha. The last point is unchanged. |
| Strokes.CanonicalBySegments | stroke.c:80-83 | Applied to the placed points, the segment pass yields exactly the canonical points. |
| Strokes.AngleDifference | stroke.c:86-97 | The result is alpha − beta shifted by at most one turn (±2). It lies in [-1, 1] whenever the difference lies in [-3, 3]. |
| Strokes.AngleDifferenceShortest | stroke.c:86-97 | For directions in [-1, 1], no other representative of alpha − beta modulo 2 is closer to 0. |
| Strokes.AngleDifferenceAntisymmetric | stroke.c:86-97 | Swapping the arguments negates the result, and a direction differs from itself by 0. |
| Strokes.AngleDifferenceWraps | stroke.c:86-97 | (0.9, -0.9) gives -0.2, with absolute value 0.2. |
| Strokes.StrokeAngleDifference | stroke.c:99-107 | The result is never negative, and it is at most 1 for directions in [-1, 1]. |
| Strokes.StrokeAngleDifferenceSymmetric | stroke.c:99-107 | The result does not depend on which stroke comes first. |
| Geometry.Min | stroke.c:65-68 | The result is a lower bound of both arguments and is one of them. |
| Geometry.Canonical | stroke.c:51-83 | The finished stroke has as many points as the raw one, and each is the canonical point: normalised x and y, arc-length time, and dt and alpha of the segment it starts. |
| Geometry.TimeEnds | stroke.c:60-61 | Dividing by the total length gives time 0 at the first point and 1 at the last. |
| Geometry.TimeOrdered | stroke.c:51-61 | Normalised times are never negative and never decrease along the stroke. |
| Geometry.ScalePositive | stroke.c:71-74 | The chosen scale is at least 0.001, so the division in the fourth pass is defined. |
| Geometry.ArcLengthMonotone | stroke.c:55-58 | With lengths that are never negative, the running total never decreases and is never negative. |
| Geometry.CanonicalTimes | stroke.c:51-81 | After finishing, t[0] = 0, t[n-1] = 1, t never decreases, and every dt is t[i+1] − t[i] ≥ 0. |
| Geometry.CanonicalAngles | stroke.c:80-83 | Every segment direction lies in [-1, 1]. |
| Geometry.LowestUpToBounds | stroke.c:63-69 | The running minimum is at most every value seen and equals one of them. |
| Geometry.HighestUpToBounds | stroke.c:63-69 | The running maximum is at least every value seen and equals one of them. |
| Geometry.ExtentWithinScale | stroke.c:71-74 | Both box extents lie between 0 and the chosen scale, in either branch of the 0.001 rule. |
| Geometry.NormalisedExtremes | stroke.c:75-78 | Normalising puts the smallest and largest value symmetrically around 0.5, and divides their distance by the scale. |
| Geometry.NormaliseUpTo | stroke.c:63-78 | Normalising every coordinate maps the running minimum and maximum to the normalised ones, because it is increasing. |
| Geometry.CanonicalInUnitSquare | stroke.c:63-78 | After finishing, every x and y lies in [0, 1]. |
| Geometry.CanonicalCentred | stroke.c:63-78 | After finishing, the box is centred at (0.5, 0.5). When the larger side of the raw box is at least 0.001 (the stroke is not a dot), the finished box's larger side is exactly 1. |
| Geometry.TranslateNormalised | stroke.c:63-78 | Moving all samples by (dx, dy) changes neither the scale nor any normalised coordinate. |
| Geometry.CanonicalTranslationInvariant | stroke.c:51-83 | Moving all raw samples by (dx, dy) does not change the finished stroke. |
| Geometry.MagnifyTimes | stroke.c:51-61 | Magnifying all samples by k > 0 leaves every normalised time unchanged, given hypot(k·dx, k·dy) = k·hypot(dx, dy). |
| Geometry.MagnifyNormalised | stroke.c:63-78 | Magnifying by k > 0 leaves every normalised coordinate unchanged when neither the stroke nor its magnified copy is a dot (larger side below 0.001). |
| Geometry.CanonicalScaleInvariant | stroke.c:51-83 | Magnifying all raw samples by k > 0 does not change the finished stroke when neither the stroke nor its magnified copy is a dot (larger side below 0.001). |
| Compare.Square | stroke.c:137 | pow(d, 2) is never negative. |
| Compare.SquareAtMostOne | stroke.c:137 | The square of an angle difference in [-1, 1] is at most 1. |
| Compare.FractionAtEnd | stroke.c:132-153 | The target point of a step sits at fraction 1 of its time span, so the walk ends there. |
| Compare.CanonicalComparable | stroke.c:51-61 | A finished stroke has times that never decrease, which is what the comparison relies on. |
| Compare.WalkBounds | stroke.c:130-153 | On such strokes the walk from fraction curT adds between 0 and 1 − curT. Each piece is a weight times a squared difference of at most 1. |
| Compare.WalkParallel | stroke.c:136-153 | Where the two strokes point the same way throughout the window, the walk adds nothing. |
| Compare.EdgeCostBounds | stroke.c:130-155 | A step costs between 0 and the sum of its two time spans. |
| Compare.Walk | stroke.c:130-153 | The walk loop computes the integral `WalkFrom` from the start of the window. It reads only points x..x2 of a and y..y2 of b. |
| Compare.Step | stroke.c:109-163 | A step whose spans fail the guard (either span below epsilon, or one at least 2.2 times the other) leaves k and all three tables unchanged. Otherwise k grows by one. (x2, y2) takes the distance through (x, y) together with both back-pointers when that is strictly smaller, and keeps all three otherwise. Every other cell keeps its distance and both back-pointers, and the table invariant is kept. |
| Compare.Relax | stroke.c:155-162 | The improving update writes the distance and both back-pointers of (x2, y2) together and nothing else. |
| Compare.StepAcross | stroke.c:212-214 | The steps from (x, y) to every cell of a new row of the window are tried: each viable one has been relaxed, and k grows by the number of viable steps. Cells off that stretch of the row keep their distance and both back-pointers, and distances only go down. |
| Compare.StepDown | stroke.c:221-223 | The same for every cell of a new column of the window: each viable step has been relaxed, k counts them, and cells off that stretch of the column keep all three table entries. |
| Compare.Expand | stroke.c:199-225 | The k < 4 loop from a reached cell tries exactly the cells of its window (`Window`). Each viable step from (x, y) into the window has been relaxed, and every cell outside the window keeps its distance and both back-pointers, so the search is neither narrower nor wider than the loop. The loop terminates, keeps the table invariant, and only lowers distances. |
| Compare.Round | stroke.c:205-224 | One pass of the k < 4 loop body moves max_x or max_y on, so the loop terminates. The cells tried so far and the rest of the window make up the whole window, or all of it once the pass stops at (m, n). Only tried cells change. |
| Compare.WidenY | stroke.c:206-214 | A round in which b lags moves max_y on by one. On the last column it tries the step to (m, n) and stops; otherwise it tries the new row of the window and adds its viable steps to k. No cell outside the cells tried changes. |
| Compare.WidenX | stroke.c:215-224 | A round in which a lags, or neither does, moves max_x on by one. On the last row it tries the step to (m, n) and stops; otherwise it tries the new column and adds its viable steps to k. No cell outside the cells tried changes. |
| Compare.AheadY | stroke.c:206-214 | Before a round in which b lags, the cells it is about to try lie in the window: (m, n) on the last column, the new row otherwise. |
| Compare.AheadX | stroke.c:215-224 | The same before a round in which a lags: (m, n) on the last row, the new column otherwise. |
| Compare.WindowY | stroke.c:206-214 | The window from (max_x, max_y) in a round where b lags is (m, n) alone on the last column, and otherwise the new row followed by the window one column on. |
| Compare.WindowX | stroke.c:215-224 | The same for a round where a lags: (m, n) alone on the last row, otherwise the new column followed by the window one row on. |
| Compare.RoundY | stroke.c:205-214 | After such a round, the cells tried so far and the rest of the window together make up the whole window of (x, y). |
| Compare.RoundX | stroke.c:205-224 | The same after a round in which a lags. |
| Compare.RelaxedAdd | stroke.c:155-162 | A tried step keeps every earlier relaxation and adds its own cell. |
| Compare.Visit | stroke.c:195-225 | One cell of the inner loop: an unreached cell is skipped and changes none of the three tables; a reached one is expanded and changes only cells of its window. Either way it is settled (its whole window has been tried), and the cells before it stay settled. |
| Compare.SettledNext | stroke.c:195 | A settled cell extends the settled prefix of the row order by one. |
| Compare.SettledRow | stroke.c:194-195 | A row whose cells are all settled lets the settled prefix move to the next row. |
| Compare.Fill | stroke.c:194-227 | After both loops, the table invariant holds for every row, and every cell (x, y) with x < m and y < n that was reached has had its whole window tried. With a one-point stroke, (m, n) keeps its initial value. |
| Compare.DiagonalTried | stroke.c:205-224 | Comparing with itself a stroke whose segments each span at least epsilon, the window of a diagonal cell (x, x) contains (x + 1, x + 1). |
| Compare.DiagonalZero | stroke.c:186-227 | Comparing such a stroke with itself, when it is also comparable, every diagonal cell ends at distance 0: it is reached from the one before along equal directions, which costs nothing. |
| Compare.NewTables | stroke.c:186-192 | Before the search, every cell is stroke_infinity except (0, 0), which is 0. |
| Compare.Outcome | stroke.c:186-228 | From the filled tables, the final cell satisfies `Scored`: at most stroke_infinity; 0 for two one-point strokes and stroke_infinity when exactly one has one point; at least 0 on comparable strokes; below stroke_infinity, the cost of some route whose every step lies in its source cell's window; on comparable strokes no more than any such route costs; and 0 when a comparable stroke whose segments each span at least epsilon is compared with itself. When reached, the recorded route is such a route of exactly its distance and a chain of back-pointers. |
| Compare.CheapestFound | stroke.c:194-228 | On comparable strokes, once every reached cell is settled, the final cell costs no more than any route through windows from (0, 0) to (m, n). |
| Compare.WindowRouteBound | stroke.c:194-227 | On comparable strokes with every reached cell settled, each cell costs no more than any route through windows to it that costs less than stroke_infinity: each step of the route was tried from a cell already no dearer. |
| Compare.Tables | stroke.c:182-227 | The freshly allocated tables end with a final cell that satisfies `Scored`, so it is the cheapest cost over routes through windows, with every reached cell settled. When the final cell is below stroke_infinity, the recorded route is such a route of that cost. |
| Compare.Trace | stroke.c:231-241 | The back-pointer chain from a reached cell starts at that cell and has at most i + 1 and j + 1 entries, so it ends. |
| Compare.TraceChain | stroke.c:231-241 | The recorded route ends at (0, 0), and each of its cells is the back-pointer of the one before. |
| Compare.TraceStep | stroke.c:234-240 | Following one back-pointer from a reached cell other than (0, 0) strictly decreases both indices and lands on a reached cell. |
| Compare.TraceRoute | stroke.c:228-241 | The recorded chain is a route to (0, 0) of viable steps, each inside the window of the cell it leaves, and its cost is exactly the distance recorded for its first cell. |
| Compare.RouteCostBounds | stroke.c:155-162 | On comparable strokes a route costs between 0 and the time it spans on both strokes. |
| Compare.RouteParallel | stroke.c:165-168 | Strokes pointing the same way everywhere cost 0 along any route. |
| Compare.RouteAtLeast | stroke.c:130-162 | Where every squared angle difference between the strokes is at least c, a route costs at least c times the time it spans on both strokes. |
| Compare.EdgeAtLeast | stroke.c:130-155 | Where every squared angle difference in its window is at least c, a step costs at least c times its two time spans together. |
| Compare.StraightRoutesCost | stroke.c:130-162 | Between two straight three-point strokes (times 0, 1/2, 1), every route to the last points costs at least twice the squared difference of their directions. |
| Compare.StraightStrokesApart | stroke.c:169-249 | Two straight strokes whose directions differ so much that twice the squared difference exceeds stroke_infinity score exactly stroke_infinity. |
| Compare.OppositeStrokesDoNotMatch | stroke.c:169-249 | A vertical line drawn top to bottom against the same line drawn bottom to top scores stroke_infinity: every route costs at least 2. |
| Compare.OrthogonalStrokesDoNotMatch | stroke.c:169-249 | A vertical line against a horizontal one scores stroke_infinity: every route costs at least 1/2. |
| Compare.SameStrokeMatches | stroke.c:169-249 | A straight three-point line against itself scores 0. |
| Compare.WritePath | stroke.c:230-241 | Following the back-pointers from (m, n) until (0, 0) writes every cell of the chain after the first to the path arrays, in order, and leaves the rest of both arrays unchanged. |
| Compare.Report | stroke.c:229-246 | With either path array null, neither array changes. Otherwise, when the cost is below stroke_infinity the arrays get the route and nothing past it changes; at stroke_infinity only path[0] = (0, 0) is written. |
| Compare.Compare | stroke.c:169-249 | The cost satisfies `Scored`: at most stroke_infinity, at least 0 on comparable strokes, 0 for two one-point strokes and stroke_infinity when exactly one has one point, and 0 for a comparable stroke compared with itself when each of its segments spans at least epsilon. Below stroke_infinity it is the cost of a route from (m, n) to (0, 0) whose every step lies in the k < 4 window of the cell it leaves, and on comparable strokes no such route costs less, so it is the cheapest the search can find. With either path array null, neither is touched; with both, they hold that route, or (0, 0) at stroke_infinity, and nothing else in them changes. |
| Utf8.CheckFirst | src/util.c:103-129 | A lead byte announces at most 4 bytes. |
| Utf8.CheckFirstOfEncode | src/util.c:103-129 | The first byte of every encoding is accepted and announces the encoding's length. |
| Utf8.CheckFirstExact | src/util.c:103-129 | Every accepted byte starts the encoding of some scalar value of the announced length, so the check admits nothing else. |
| Utf8.Accumulate | src/util.c:144-151 | Shifting continuation bytes into a non-negative value keeps it non-negative. |
| Utf8.CheckFull | src/util.c:131-167 | The loop accepts exactly when `Full` does (right size, continuation bytes, at most 0x10FFFF, no surrogate, not overlong) and reports the same value. |
| Utf8.Iterate | src/util.c:169-188 | An empty buffer is the end. A step advances between 1 and the remaining length and reads a scalar value. |
| Utf8.IterateEncode | src/util.c:169-188 | Reading the encoding of a scalar value, whatever follows it, gives that value and consumes exactly its bytes. |
| Utf8.IterateDecodes | src/util.c:169-188 | Whatever a step accepts is exactly the encoding of the value it reports. |
| Utf8.DecodeAll | src/util.c:200-208 | Repeated reading yields only scalar values. |
| Utf8.DecodeEncodeAll | src/util.c:169-188 | Every sequence of scalar values is read back from its encoding. |
| Utf8.EncodeDecodeAll | src/util.c:169-188 | Every byte string read successfully is the encoding of what was read. |
| JsonDump.EscapeTextReached | src/util.c:216-259 | Only short escapes are used: the solidus case and the surrogate-pair case lie outside what the scan stops at. |
| JsonDump.Run | src/util.c:200-208 | The scan covers at most the input and holds no control bytes. At the end it covers all of it, and an escape stop lies within the input and reads a scalar value. |
| JsonDump.Hex4 | src/util.c:245 | `%04X` gives four upper-case hexadecimal digits. |
| JsonDump.EscapeText | src/util.c:216-259 | Every escape starts with a backslash, is 2 to 12 bytes long and is printable ASCII. |
| JsonDump.Dump | src/util.c:196-265 | The status is 0 or -1, and the output contains no control byte. |
| JsonDump.DumpCons | src/util.c:196-264 | Read one code point at a time, the output escapes a stop and copies an ordinary code point, and the status is that of the rest. |
| JsonDump.DumpStatus | src/util.c:196-265 | The status is 0 or -1, and it is 0 exactly on valid UTF-8. |
| JsonDump.DumpValid | src/util.c:196-265 | On valid UTF-8 the output is each code point's escape or its own bytes, in order. |
| JsonDump.Scan | src/util.c:200-208 | The inner loop stops at the end, at an invalid sequence (reported) or at a code point to escape (the backslash, the quotation mark or a control character), exactly as `Run` says. |
| JsonDump.Emit | src/util.c:209-262 | A round writes the pending run, then the escape. On a failing stream it writes nothing and fails when it had something to write. |
| JsonDump.DumpStep | src/util.c:209-263 | One round is the pending run, the escape, then the output of the rest. |
| JsonDump.Round | src/util.c:196-264 | One round of the outer loop writes its share of `Dump` and leaves the status to the rest. |
| JsonDump.DumpString | src/util.c:190-266 | On a working stream, appends `Dump(s).out` and returns its status. On a failing stream, writes nothing and returns 0 only for the empty string. |
| JsonDump.AsWrittenStatus | src/util.c:209-262 | As written, success is reported only for a string of at most one byte that needs no escape. |
| JsonDump.DumpAsWritten | src/util.c:209-262 | As written, the output is a prefix of the corrected output, and equals it, status included, whenever the status is 0. |
| JsonDump.AsWrittenDropsTail | src/util.c:261-262 | For `a"b`, the code as written stops after `a\"` with -1, while the corrected serialiser writes `a\"b` and returns 0. |
| JsonDump.JsonDumpString | src/util.c:268-273 | Writes one quotation mark, the escaped body of the corrected dump_string (see Findings) and one more quotation mark, whatever the status. |
| JsonRead.Hex4Inverse | src/util.c:245 | `%04X` reads back as its value. |
| JsonRead.EscapeTextReadsBack | src/util.c:216-259 | Every escape of the switch, including the surrogate pair, reads back as its code point. |
| JsonRead.PairEscape | src/util.c:249-256 | A code point past the Basic Multilingual Plane becomes a 12-byte surrogate pair that reads back as that code point. |
| JsonRead.EscapeCpReadsBack | src/util.c:200-259 | What the serialiser writes for one code point reads back as that code point. |
| JsonRead.UnescapeEscapeAll | src/util.c:196-265 | The escaped form of a sequence of code points reads back as that sequence. |
| JsonRead.JsonDumpReadsBack | src/util.c:268-273 | For valid UTF-8, the corrected json_dump_string (see Findings) writes a quoted JSON string whose body reads back as the input's code points. |
| CStrings.StrLen | util.c:54-55 | The length of a C string in a buffer: no NUL before it, and a NUL at it unless the buffer ends. |
| CStrings.Truncate | util.c:46-47 | What fits in a buffer of `size`: fewer than `size` characters, a prefix of the string, and the whole string when it is short enough. |
| CStrings.TruncateAppend | util.c:46-55 | Cutting, appending and cutting again is cutting once, so a chain of strlcpy and strlcat leaves the cut concatenation. |
| CStrings.Strlcpy | util.c:39 | Returns the source length. With size 0 nothing changes. Otherwise the buffer holds the source cut to size − 1 characters and a NUL, and nothing after them changes. |
| CStrings.StrEnd | util.c:47 | The end strlcat finds is the length of the C string in the first size characters. |
| CStrings.AppendAt | util.c:47 | The appending loop leaves the old string and the source, cut to the buffer, with a NUL, and nothing after them changes. |
| CStrings.Strlcat | util.c:47 | Returns the old length plus the source length. With no NUL in the first size characters nothing changes. Otherwise the buffer holds the old string and the source, cut to the buffer, and nothing after them changes. |
| Paths.ConfigDirRule | src/util.c:28-50 | A directory exists exactly when XDG_CONFIG_HOME is set and non-empty or HOME is set. It is `$XDG_CONFIG_HOME/simplestroke` in the first case and `$HOME/.config/simplestroke` otherwise. |
| Paths.XdgOverridesHome | src/util.c:36-40 | An empty XDG_CONFIG_HOME counts as unset, and a non-empty one makes HOME irrelevant. |
| Paths.ConfigDir | src/util.c:28-50 | A directory exists exactly when XDG_CONFIG_HOME is non-empty or HOME is set, and every directory ends in `/simplestroke`. |
| Paths.WriteConfigHome | util.c:30-49 | Aborts exactly when XDG_CONFIG_HOME is unusable and HOME is unset, before writing. Otherwise the buffer holds the configuration home cut to len. |
| Paths.WriteConfigDir | util.c:51-56 | Aborts exactly as above. The buffer holds the configuration directory cut to len, and the whole path when it fits. |
| Paths.ManPageName | util.c:58-71 | With no subcommand, `simplestroke`. Otherwise `simplestroke_<subcommand>` cut to 63 characters, a prefix of the whole name, and the whole name when the subcommand has at most 50 characters. |
| Export.Specials | simplestroke_export.c:29-41 | There are no more backslashed characters than characters. |
| Export.Escape | simplestroke_export.c:29-43 | The output length is the input length plus the number of quotation marks and backslashes. No NUL is introduced. |
| Export.EscapeAppend | simplestroke_export.c:29-41 | Escaping works piece by piece, so order is preserved. |
| Export.DropEscapesInverse | simplestroke_export.c:29-41 | Dropping the backslash before each escaped character restores the input. |
| Export.QuotesEscaped | simplestroke_export.c:30-40 | In the output, every quotation mark has a backslash just before it. |
| Export.Put | simplestroke_export.c:30-40 | One input character is written at p, after a backslash if it is a quotation mark or a backslash. |
| Export.EscapeInto | simplestroke_export.c:28-42 | The loop reads up to the NUL and leaves the escaped string, NUL-terminated, in a buffer of at least n + specials + 1 characters. |
| Export.JsonEscapeString | simplestroke_export.c:25-45 | Returns a new buffer holding the escaped string and its NUL, with the allocation corrected to 2n + 1. |
| Export.AllocationAsWrittenTooSmall | simplestroke_export.c:27-42 | As written, the loop writes specials + 1 characters more than malloc(n) provides. |
| Export.AllocationAsWrittenExample | simplestroke_export.c:27-42 | `a"b` gets 3 characters but needs 5 for `a\"b` and the NUL. |
| Export.CorrectedAllocationSuffices | simplestroke_export.c:27-42 | 2n + 1 characters always suffice. |
| Export.Pairs | simplestroke_export.c:63-68 | One `[x,y]` item per point, in order. |
| Export.PrintPoints | simplestroke_export.c:62-69 | The loop prints `"points":[`, the pairs joined by commas with none after the last, and `]}` and a newline. |
| Export.JoinPairs | simplestroke_export.c:62-69 | With a number format that prints no comma, n ≥ 1 points give exactly 2n − 1 commas and the list ends with `]`, so there is no trailing comma. |
| Detect.Consider | src/simplestroke_detect.c:42-53 | The score never increases. A template scoring at or above stroke_infinity, or not strictly below the current score, changes nothing. A change installs that template with its score. |
| Detect.SelectFirstMinimum | src/simplestroke_detect.c:38-56 | After the fold, the choice is the first template of lowest score below stroke_infinity, with that score, or no choice at stroke_infinity when none scores below it. |
| Detect.FirstMinimumUnique | src/simplestroke_detect.c:43-44 | Ties keep the earlier template: the first minimum is unique. |
| Detect.SelectMonotone | src/simplestroke_detect.c:44-45 | The best score never increases as templates are added. |
| Detect.AcceptIffMatch | src/simplestroke_detect.c:105-113 | Detection succeeds exactly when some template scores below stroke_infinity, which is exactly when a gesture was chosen. |
| Detect.Selection.constructor | src/simplestroke_detect.c:88-90 | The state starts at stroke_infinity with no command and no description. |
| Detect.Selection.LoadGesture | src/simplestroke_detect.c:38-56 | Compares the template (as a) with the captured stroke (as b); the score satisfies `Scored` for that pair, and the state is updated by `Consider`. |
| Detect.Selection.LoadRow | src/db.c:256-273 | The next row's points are copied into a zeroed stroke and handed to the callback: its score is `Scored` against the captured stroke, and the state is the fold of all scores so far. |
| Detect.Selection.LoadAll | src/db.c:249-281 | Every row is loaded in order: there is one score per template, each `Scored` for that template against the captured stroke, and the state is `Select` of all of them. |
| Detect.Detect | src/simplestroke_detect.c:97-113 | Every template gets a score `Scored` against the captured stroke. The exit status is 0 exactly when the fold chose a gesture, whose command is returned; otherwise it is 1 with no command. A comparable captured stroke whose segments each span at least epsilon and that equals a stored template gives status 0. |
| Detect.ScoredAppend | src/db.c:256-273 | A further template's score joins the scores already collected. |
| Detect.CopyAccepted | src/simplestroke_detect.c:105-113 | When every template is scored and the captured stroke is a stored template (comparable, each segment at least epsilon long), the status is 0. |
| Detect.FixedSelection.constructor | simplestroke_detect.c:91-94 | Score stroke_infinity and two empty 2048-character buffers. |
| Detect.FixedSelection.LoadGesture | simplestroke_detect.c:40-55 | The same score and update. The buffers hold the chosen texts cut to 2047 characters and a NUL. |
| Detect.FixedSelection.LoadRow | db.c:215-232 | The same row step for the older front end, keeping the buffers in step with the choice. |
| Detect.FixedSelection.LoadAll | db.c:208-236 | Every row in order: one `Scored` score per template, and the choice is `Select` of all of them. |
| Detect.FixedSelection.Command | simplestroke_detect.c:109-113 | The command buffer reads back as the chosen command cut to 2047 characters, or as empty. |
| Detect.FixedDetect | simplestroke_detect.c:101-118 | The same scores and decision as the newer front end, including status 0 for a stored copy. On success the command is the chosen command cut to 2047 characters. |

## Left out

- I/O is replaced by parameters and values: getenv (an `Option` per variable), `record_stroke` (the captured stroke is given), the rows of the gesture table (a sequence of `Template` values in query order), `exec_commandline`, `execvp`, and the printf of the command and description.
- The SQLite layer (db.c, src/db.c, db.h) is modelled only as far as `database_load_gestures` and the stroke part of `_database_load_gesture`: each row's points are copied into a zeroed stroke and handed to the callback. The query, the decoding of the blob, the id, statement errors and the other database functions are not part of this model. Neither are pointer capture (recorder-x11.c, tracker*.c, recorder-sysmouse.c, simplestroke-daemon.c) and the command-line front ends beyond the detection decision.
- Floating point: IEEE rounding, NaN and infinities are not modelled; doubles are reals. `hypot` and `atan2` are only assumed to satisfy `Geometry.Sound`, and `pow(d, 2)` is `d * d`.
- The flat `x*N + y` tables of `stroke_compare` are two-dimensional arrays indexed `[x, y]`. Cell (m, n) is the flat `M*N - 1`.
- MAX_STROKE_POINTS is fixed at its default, 512. The compile-time override is not modelled.
- Strokes.Stroke.Finish: requires, for an unfinished stroke with points, at least two samples and a positive total length. With one sample or a zero-length polyline the C divides by zero.
- Compare.Compare: requires both strokes to have at least one point. With an empty stroke the C indexes the tables at -1. It also requires the two path arrays to be distinct and long enough for the route, which the C leaves to its callers.
- Compare.Compare: the cost is proved non-negative, and the cheapest over routes through windows, only for strokes whose times never decrease, as finished strokes' do (`Compare.CanonicalComparable`). It is the cheapest over the routes the `k < 4` windows allow, not over every monotone reparametrisation with slope in [1/2, 2], because the bounded search is itself an approximation.
- Compare.Compare: a stroke compared with itself is proved to score 0 only when every segment spans at least epsilon of time. The proof walks the diagonal, and the step guard rejects a diagonal step over a shorter segment. The search can still reach (m, n) around such a segment, but that case is not proved.
- Detect.Detect: requires each stored row to hold between 1 and 512 points. The C copies the blob without checking it against the buffer, and an empty row indexes the tables at -1.
- Geometry.CanonicalScaleInvariant: holds only for a `hypot` that is homogeneous and when neither the stroke nor its magnified copy is a dot, that is, has a larger side below 0.001. A dot's scale is replaced by 1, which does not scale.
- Utf8.CheckFull: nothing is stated about the code point out-parameter when the check fails.
- JsonDump.DumpString: a stream either accepts every write or fails every write. A stream that fails part-way is not modelled, and fwrite writes all or nothing.
- JsonDump.JsonDumpString: calls the corrected dump_string (see Findings). The code as written stops after the first escape, so its output does not read back as the input.
- JsonDump.DumpAsWritten: the code as written is modelled as a function of the input and is not run against a failing stream.
- Detect.Selection.LoadGesture: the texts are values. The strdup copies, the frees of the old texts and of the callback's own arguments, and an allocation failure are not modelled.
- Paths.WriteConfigHome: abort() and err() are modelled as an aborted result or None. Failure of asprintf in the newer config_dir is not modelled.
- Export.PrintPoints: `%f` is an abstract number format. The first printf of simplestroke_export_json (description, command, id) and the frees of the escaped strings are not modelled.
- Export.JsonEscapeString: uses the corrected allocation of 2n + 1 characters (see Findings). The scan ignores n, as the C does.

## Findings

| source | as written | input that shows it | evidently intended | confidence | as-written member | corrected member |
|---|---|---|---|---|---|---|
| src/util.c:210 | `fwrite(str, pos - str, 1, file) != (size_t)(pos - str)` and, at src/util.c:261, `fwrite(text, length, 1, file) != length`: fwrite returns the number of items (1), which is compared with the byte count | `a"b`: the run `a` passes (1 == 1), the escape `\"` fails (1 != 2), so the output is `a\"` and the result -1 | compare with 1 (items), so a valid string is written whole with status 0 | high (not executed) | JsonDump.DumpAsWritten, JsonDump.AsWrittenDropsTail | JsonDump.DumpString |
| simplestroke_export.c:27 | `malloc(n)` with n the input length, while the loop writes n + (quotes and backslashes) + 1 characters | `a"b`: 3 characters are allocated and 5 are written (`a\"b` and the NUL) | allocate at least n + specials + 1, for example 2n + 1 | high (not executed) | Export.AllocationAsWrittenExample | Export.JsonEscapeString |
