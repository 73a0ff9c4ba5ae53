# VLC network planner: a Dafny model of its core

VLCNetPlanner plans visible-light-communication networks. Light sources and
receivers are placed on a rectangular floor plan. The core this project
models has four parts:

- **Coverage analyser** (`analyze_coverage`). It scans a 0.1 m grid. At each
  grid point it adds up the direct (Lambertian) and wall-reflected power of
  every light source that reaches the point. It adds up the interference
  from other sources whose spectra overlap. It derives the SINR in dB. It
  then reduces the three maps to a coverage percentage, a count of
  interference points and the average, minimum and maximum SINR.
- **Placement optimiser** (`optimize_placement`). It scores a candidate
  layout with a coarse 100 x 100 coverage grid and a pairwise separation
  penalty. It hands the flattened positions and per-coordinate bounds to a
  solver, then writes the solver's result back into the components.
- **DXF importer geometry.** This covers the drawing's bounding box, the
  padded SVG canvas around it, and the large-arc flag of an arc path.
- **Component manager.** It appends components to the session's list. Each
  new component is numbered by its position and gets default properties
  chosen by its type tag.

Modules, one per source file, plus shared vocabulary:

- `VlcTypes` (`vlc_types.dfy`): points, floor plans, components, the
  light-source filter, and the `Numerics` record of numpy primitives.
- `VlcComponents` (`vlc_components.dfy`): the component manager. The session
  store is a class whose `vlcComponents` field is updated in place.
- `CadImporter` (`cad_importer.dfy`): bounds, canvas and arc path.
- `Optimization` (`optimization.dfy`): coverage score, penalty, objective,
  bounds and write-back.
- `CoverageSignal` (`coverage_signal.dfy`): the per-point physics of the
  analyser.
- `CoverageAnalysis` (`coverage_analysis.dfy`): the grid scan into three
  `array2` maps and the reduction to the report.

Loops in the source are methods with loop invariants. Each such method is
proved against a specification:
- most are proved equal to a recursive function (the coverage score, the
  penalty, the reflected power, the point totals), about which the
  properties are then proved as lemmas;
- `GetDrawingBounds` and `WidenByPoints` are proved to produce a box
  satisfying the predicate `BoundsOf` (containing and tight), which fixes it
  uniquely (`BoundsUnique`);
- `OptimizePlacement` is proved to leave the components equal to
  `WithPositions`, a sequence comprehension over the solver's result;
- `AnalyzeCoverage` is proved to fill its maps with the values of `Cell`
  and to return the summary of the scan-order fold `GridStats`.

The transcendental functions (exp, log, log10, cos, sin, arccos, arctan2,
power, square root) and the result of a float division by zero are fields
of a `Numerics` value passed as a parameter. So every property holds for any
choice of them. The few lemmas that need facts about `exp` (exp(0) = 1,
positivity, at most 1 on non-positive arguments) take them as the hypothesis
`ExpSound`.

Where the code behaves differently from what one might expect, the model follows the code:

- An empty component list, or one with no light source, does not give zero
  coverage. No SINR entry is written, and `np.min` of the empty selection
  raises. `NoLightSourceFails` proves the model fails there.
- `max_sinr` is taken over the whole SINR map, including the 0 dB sentinels
  of unsignalled points. `ReportExtremes` states that every entry, zeros
  included, is at most the reported maximum, and that the maximum is the
  entry of some grid point.
- Interference is charged only while processing a source that itself
  reaches the point. This is because the interference loop is nested inside
  the coverage-radius test (`CoverageSignal.SourceInterference`).

## Model

| member | source | states |
|---|---|---|
| VlcTypes.LightSources | utils/coverage_analysis.py:21 | the selected list keeps exactly the components tagged "Light Source" (membership both ways) and is no longer than the input |
| VlcTypes.LightSourcesAppend | utils/coverage_analysis.py:21 | selecting from a concatenation is concatenating the selections |
| VlcTypes.WellFormedLightSources | utils/coverage_analysis.py:21 | when every "Light Source" component carries light-source properties, so does every selected component |
| VlcComponents.DefaultProperties | components/vlc_components.py:19-35 | light-source defaults (20 W, 120 degrees, 550 nm, 3 m) exactly for the tag "Light Source"; receiver defaults (-30 dBm, 60 degrees, 1e-4 m^2) for every other tag |
| VlcComponents.Appended | components/vlc_components.py:10-17 | the list grows by one, the old entries are kept, and the new entry has id = old length, the given type and position (0, 0) |
| VlcComponents.AppendedKeepsInvariants | components/vlc_components.py:10-17 | appending keeps "id equals index" and keeps every light source carrying light properties |
| VlcComponents.AddAllFromEmpty | components/vlc_components.py:5-17 | adding tags one by one to an empty list yields one component per tag, in order, with ids 0..n-1, at the origin, with the tag's defaults |
| VlcComponents.AddAllExtends | components/vlc_components.py:5-17 | repeated adds keep the existing prefix and number the new components consecutively from the old length |
| VlcComponents.SessionState.constructor | components/vlc_components.py:7 | a fresh session has no component list |
| VlcComponents.SessionState.AddComponent | components/vlc_components.py:5-17 | creates the list when absent, then the list becomes the old list with the new component appended; ids stay equal to indices |
| CadImporter.Widen | utils/cad_importer.py:82-85 | the widened box holds the new point and every point the old box held |
| CadImporter.WidenKeepsBounds | utils/cad_importer.py:81-85 | widening a box that tightly bounds a point set by a new point gives a box that tightly bounds the extended set |
| CadImporter.FirstPointBounds | utils/cad_importer.py:79-80 | the degenerate box of the first point tightly bounds that point |
| CadImporter.GetDrawingBounds | utils/cad_importer.py:72-86 | no bounds exactly when no entity offers a point; otherwise an ordered box containing every visited point, each of whose four sides is attained by some point |
| CadImporter.WidenByPoints | utils/cad_importer.py:77-85 | the per-entity loop keeps the bounds list tight over all points seen so far and starts it at the first point |
| CadImporter.BoundsUnique | utils/cad_importer.py:72-86 | a point set has at most one containing box whose four sides are all attained, so the bounds are determined by the points |
| CadImporter.BoundsOrdered | utils/cad_importer.py:72-86 | a box bounding a non-empty point set has min <= max on both axes |
| CadImporter.CanvasFor | utils/cad_importer.py:17-27 | missing bounds fail with "Empty or invalid DXF file"; otherwise the canvas is the drawing plus the 10-unit padding on each side |
| CadImporter.ConvertDxfCanvas | utils/cad_importer.py:7-33 | fails exactly for a drawing without points; otherwise the canvas is the one built on the drawing's tight bounding box (width max_x - min_x, height max_y - min_y, the padding around it, shift padding - min), the width and height are non-negative, and every translated point lies at least the padding inside the canvas |
| CadImporter.CreateArcPath | utils/cad_importer.py:88-108 | the large-arc flag is set exactly when the start and end angles differ by more than 180 degrees; the path's radius is the arc's |
| CadImporter.LargeArcInDegrees | utils/cad_importer.py:93-103 | comparing the radian span with pi is comparing the degree span with 180 |
| Optimization.LinPoint | utils/optimization.py:38-41 | definition only: grid point (i, j) of the 100 x 100 `linspace`/`meshgrid` grid, (j W / 99, i H / 99); its uses are `NearCountPositive` and `FullCoverage` |
| Optimization.NearCountPositive | utils/optimization.py:44-48 | the accumulated mask count at a grid point is positive exactly when some location is closer than 3.0 m |
| Optimization.CoveredInRow | utils/optimization.py:48 | a row prefix of j points has at most j covered points |
| Optimization.CoveredRows | utils/optimization.py:48 | i rows hold at most 100 i covered points |
| Optimization.CoverageFraction | utils/optimization.py:36-48 | the coverage score lies in [0, 1] |
| Optimization.CalculateCoverageScore | utils/optimization.py:36-48 | the mask-summing loops over a 100 x 100 array return the covered fraction of the grid |
| Optimization.CoveredRowsMonotone | utils/optimization.py:44-48 | a location set containing another covers at least as many grid points, row by row |
| Optimization.CoveredInRowMonotone | utils/optimization.py:44-48 | the same within a row prefix |
| Optimization.CoverageScoreGrows | utils/optimization.py:36-48 | adding a location never lowers the score |
| Optimization.CoverageScoreOrderFree | utils/optimization.py:36-48 | two location lists with the same members have the same score |
| Optimization.CoverageScoreEmpty | utils/optimization.py:36-48 | no locations give score 0 |
| Optimization.NoLocationsNoRows | utils/optimization.py:44-48 | no locations cover no point in any row |
| Optimization.NoLocationsNoRow | utils/optimization.py:44-48 | no locations cover no point in a row prefix |
| Optimization.FullCoverage | utils/optimization.py:36-48 | the score is 1 exactly when every grid point is within 3.0 m of a location |
| Optimization.FullRows | utils/optimization.py:44-48 | i rows are fully covered exactly when the count is 100 i |
| Optimization.FullRow | utils/optimization.py:44-48 | a row prefix is fully covered exactly when its count equals its length |
| Optimization.PairTerm | utils/optimization.py:58-60 | a pair's term is non-negative, and zero exactly when the pair is at least 2.0 apart |
| Optimization.RowPenalty | utils/optimization.py:57-60 | the inner-loop sum is non-negative |
| Optimization.PenaltyRows | utils/optimization.py:56-60 | the outer-loop sum is non-negative |
| Optimization.CalculateInterferencePenalty | utils/optimization.py:50-62 | the nested i < j loop, with the early 0 for fewer than two locations, returns the sum of (2.0 - d)^2 over close pairs |
| Optimization.Penalty | utils/optimization.py:50-62 | the penalty over all unordered pairs, 0 for fewer than two locations, is never negative |
| Optimization.PenaltyZeroIffSeparated | utils/optimization.py:50-62 | the penalty is non-negative, and zero exactly when every pair of locations is at least 2.0 apart |
| Optimization.PenaltyRowsZero | utils/optimization.py:56-60 | the rows below i contribute nothing exactly when each of their pairs is separated |
| Optimization.RowPenaltyZero | utils/optimization.py:57-60 | one row contributes nothing exactly when each of its pairs is separated |
| Optimization.PenaltyOfFewLocations | utils/optimization.py:52-53 | fewer than two locations give penalty 0 and are trivially separated |
| Optimization.Flatten | utils/optimization.py:19 | the flat vector has two entries per position |
| Optimization.Reshape | utils/optimization.py:8 | an even-length vector reshapes into half as many points |
| Optimization.FlattenAt | utils/optimization.py:19 | entries 2k and 2k+1 of the flat vector are point k's x and y |
| Optimization.ReshapeAt | utils/optimization.py:8 | point k of the reshaped vector is (v[2k], v[2k+1]) |
| Optimization.ReshapeFlatten | utils/optimization.py:8-19 | reshaping undoes flattening |
| Optimization.FlattenReshape | utils/optimization.py:8-19 | flattening undoes reshaping |
| Optimization.Bounds | utils/optimization.py:22-23 | one interval per coordinate of the start vector |
| Optimization.BoundsMeanOnFloor | utils/optimization.py:22-23 | a vector respects the bounds exactly when every (x, y) pair it encodes lies in [0, width] x [0, height] |
| Optimization.Objective | utils/optimization.py:6-16 | minus the coverage score plus the penalty of the reshaped vector, never below -1 |
| Optimization.ObjectiveLowerBound | utils/optimization.py:6-16 | the objective equals its bound -1 exactly when the layout covers the whole coarse grid and no two locations are closer than 2.0 |
| Optimization.Positions | utils/optimization.py:19 | one position per component |
| Optimization.WithPositions | utils/optimization.py:29-32 | write-back keeps the list's length |
| Optimization.WriteBackShape | utils/optimization.py:29-32 | component i gets coordinates 2i and 2i+1 of the result, keeps its id, type and properties; writing back the start vector changes nothing |
| Optimization.WriteBackKeepsIdsAndTypes | utils/optimization.py:29-32 | write-back keeps ids equal to indices and light sources well formed |
| Optimization.WriteBackOnFloor | utils/optimization.py:22-32 | a result within the bounds places every component on the floor, and conversely |
| Optimization.OptimizePlacement | utils/optimization.py:4-34 | the solver is called on the objective, the flattened start positions and the bounds; the caller's components are updated in place to the result's positions, and the returned list is those components |
| CoverageSignal.AxisCount | utils/coverage_analysis.py:6-8 | definition of the number of `np.arange(0, extent, 0.1)` samples, the ceiling of extent / 0.1 (0 for a non-positive extent); its property is `AxisCountSamples` |
| CoverageSignal.GridPoint | utils/coverage_analysis.py:26 | definition of the grid point (x[j], y[i]) = (0.1 j, 0.1 i); its property is `GridPointOnFloor` |
| CoverageSignal.AxisCountSamples | utils/coverage_analysis.py:6-8 | the axis has a sample k exactly when k times 0.1 is below the extent |
| CoverageSignal.GridPointOnFloor | utils/coverage_analysis.py:7-9 | every analysis grid point lies in [0, width) x [0, height) |
| CoverageSignal.WavelengthAttenuation | utils/coverage_analysis.py:99-106 | 0.5 outside the visible band 380-780 nm |
| CoverageSignal.AttenuationShape | utils/coverage_analysis.py:99-106 | in the visible band the factor lies in (0, 1], it is 1 at 550 nm, and it is symmetric about 550 nm for offsets up to 170 nm |
| CoverageSignal.WavelengthOverlap | utils/coverage_analysis.py:108-113 | the Gaussian overlap equals exp(0) for equal wavelengths and lies in (0, 1] under `ExpSound`, so the `overlap > 0` test always passes |
| CoverageSignal.OverlapSymmetric | utils/coverage_analysis.py:108-113 | the overlap does not depend on the order of the two wavelengths |
| CoverageSignal.LambertianOrder | utils/coverage_analysis.py:40 | definition only: m = -ln 2 / ln(cos(beam_angle / 2)); no property is claimed about it |
| CoverageSignal.DirectPower | utils/coverage_analysis.py:36-50 | definition only: power times the Lambertian pattern at arctan2(distance, 2.0) times exp(-distance / radius) times the wavelength attenuation; it enters the signal only in range (`SourceSignal`) |
| CoverageSignal.WallPoints | utils/coverage_analysis.py:122-127 | four wall points: the source's feet on the bottom, top, left and right walls, in that order |
| CoverageSignal.ReflectionAt | utils/coverage_analysis.py:140-149 | definition only: power * 0.3 * cos(angle) / (d_in * d_out) times the wavelength attenuation, the angle taken between the incident vector and the y axis; it counts only for walls in reach (`WallTerm`) |
| CoverageSignal.WallTerm | utils/coverage_analysis.py:137-151 | a wall contributes only when both legs of the path through it are within the coverage radius |
| CoverageSignal.ReflectionNeedsReach | utils/coverage_analysis.py:137-138 | with no wall point in reach there is no reflected power |
| CoverageSignal.CalculateReflectedPower | utils/coverage_analysis.py:115-153 | the loop over the four wall points returns the sum of their terms |
| CoverageSignal.InRange | utils/coverage_analysis.py:33-35 | definition of the range test: the distance from the point to the source is at most its coverage radius; `InRangeSourcesMembers` and `NothingInReach` are stated with it |
| CoverageSignal.SourceSignal | utils/coverage_analysis.py:35-57 | a source out of range contributes no signal |
| CoverageSignal.OtherTerm | utils/coverage_analysis.py:60-72 | another source adds interference only when it differs from the processed source and reaches the point |
| CoverageSignal.TotalSignal | utils/coverage_analysis.py:27-57 | definition of the signal sum over the light sources; its properties are `SignalFromInRangeSources` and `NothingInReach`, and `PointTotals` is proved equal to it |
| CoverageSignal.SourceInterference | utils/coverage_analysis.py:35-72 | definition of the interference charged while processing one source: the inner loop's sum when that source reaches the point, else 0; its properties are `InterferenceFromInRange` and `LoneSourceNoInterference` |
| CoverageSignal.InterferenceSum | utils/coverage_analysis.py:30-72 | definition of the nested interference sum; its properties are `InterferenceSumInRange` and `NoInterferenceSum` |
| CoverageSignal.TotalInterference | utils/coverage_analysis.py:28-72 | definition of the interference at a point as the nested sum over all sources; its properties are `InterferenceFromInRangeSources`, `LoneSourceNoInterference` and `NothingInReach` |
| CoverageSignal.PointTotals | utils/coverage_analysis.py:27-72 | the loops at one point return the total signal and the total interference |
| CoverageSignal.AddInterference | utils/coverage_analysis.py:60-72 | the innermost loop adds the interference from all other sources to its running total |
| CoverageSignal.InRangeSources | utils/coverage_analysis.py:35 | the in-range selection keeps light-source properties |
| CoverageSignal.InRangeSourcesMembers | utils/coverage_analysis.py:35 | the in-range selection keeps exactly the sources whose coverage radius reaches the point |
| CoverageSignal.InRangeSourcesStep | utils/coverage_analysis.py:35 | the in-range selection steps at the last source |
| CoverageSignal.SignalFromInRangeSources | utils/coverage_analysis.py:30-57 | the signal at a point equals that of the sources reaching it alone |
| CoverageSignal.InterferenceFromInRange | utils/coverage_analysis.py:60-72 | sources out of range add nothing to the interference charged to a source |
| CoverageSignal.InterferenceSumInRange | utils/coverage_analysis.py:30-72 | the nested interference sum equals that over in-range sources on both sides |
| CoverageSignal.InterferenceFromInRangeSources | utils/coverage_analysis.py:30-72 | the interference at a point equals that of the sources reaching it alone |
| CoverageSignal.InRangeSourcesIdempotent | utils/coverage_analysis.py:35 | selecting in-range sources twice is selecting once |
| CoverageSignal.NoInterferenceFrom | utils/coverage_analysis.py:60-68 | sources that equal the processed one or do not reach the point charge it nothing |
| CoverageSignal.NoInterferenceSum | utils/coverage_analysis.py:30-72 | no interference when all in-range sources are the same source |
| CoverageSignal.NothingInReach | utils/coverage_analysis.py:30-72 | a point that no light source reaches receives neither signal nor interference |
| CoverageSignal.LoneSourceNoInterference | utils/coverage_analysis.py:60-61 | a source never interferes with itself, so a point reached by at most one distinct source sees no interference |
| CoverageSignal.SingleSourceNoInterference | utils/coverage_analysis.py:60-61 | a single light source sees no interference anywhere |
| CoverageAnalysis.Sinr | utils/coverage_analysis.py:75-77 | points without positive signal keep SINR 0 |
| CoverageAnalysis.Cell | utils/coverage_analysis.py:26-80 | a grid point's three map entries: total signal, total interference, and SINR, which is 0 where the signal is not positive |
| CoverageAnalysis.CellOutOfReach | utils/coverage_analysis.py:26-80 | a grid point no light source reaches has all three entries 0 |
| CoverageAnalysis.AnalyzeCoverage | utils/coverage_analysis.py:3-97 | the three maps have the grid's shape and hold each point's signal, interference and SINR; the result is the reduction of those maps |
| CoverageAnalysis.ScanRow | utils/coverage_analysis.py:25-80 | one row of the scan fills that row of all three maps and leaves the other rows untouched |
| CoverageAnalysis.FillPoint | utils/coverage_analysis.py:26-80 | one point's three entries are written (the SINR only for positive signal) and nothing else changes |
| CoverageAnalysis.AddCell | utils/coverage_analysis.py:83-96 | one more point: the covered, interference and non-zero counts each grow by one exactly when the point passes the source's test (signal above 1e-9, interference above a tenth of the signal, SINR non-zero); the new maximum is the larger of the old maximum and the new entry, so it covers the new entry, never falls and is one of the two; the new minimum is the smaller of the old minimum and a non-zero new entry, is one of the two, and is unchanged by a zero entry |
| CoverageAnalysis.AddCellConsistent | utils/coverage_analysis.py:83-96 | adding a point keeps the running counts, minimum, maximum and sum consistent |
| CoverageAnalysis.GridStats | utils/coverage_analysis.py:83-96 | the reduction in scan order has seen rows times columns plus j points and is consistent: counts within the point count, sum of non-zero SINR between their count times minimum and times maximum |
| CoverageAnalysis.Summarize | utils/coverage_analysis.py:83-96 | fails exactly when no SINR entry is non-zero, where the minimum of an empty selection raises |
| CoverageAnalysis.AllCoveredSees | utils/coverage_analysis.py:84 | the covered count equals the point count exactly when every scanned point's signal exceeds the noise power |
| CoverageAnalysis.NoneCoveredSees | utils/coverage_analysis.py:84 | the covered count is 0 exactly when no scanned point is covered |
| CoverageAnalysis.NoSinrSees | utils/coverage_analysis.py:86 | no SINR enters the statistics exactly when every scanned SINR entry is 0 |
| CoverageAnalysis.ExtremesSee | utils/coverage_analysis.py:95-96 | every scanned SINR entry is at most the running maximum, and every non-zero one at least the running minimum |
| CoverageAnalysis.AnalysisFailsIffNoSinr | utils/coverage_analysis.py:86-95 | the analysis fails exactly when every SINR entry of the grid is 0 |
| CoverageAnalysis.ReportBounds | utils/coverage_analysis.py:83-96 | a report has coverage percentage in [0, 100], at most one interference point per grid point, and minimum <= average <= maximum SINR |
| CoverageAnalysis.ExtremesAttained | utils/coverage_analysis.py:95-96 | the running maximum is the SINR entry of some scanned point, and the running minimum the entry of some scanned point whose entry is non-zero |
| CoverageAnalysis.ReportExtremes | utils/coverage_analysis.py:86-96 | every SINR entry, zeros included, is at most the reported maximum, and every non-zero entry is at least the reported minimum; the maximum is the entry of some grid point and the minimum the non-zero entry of some grid point, so they are `np.max` of the map and `np.min` of its non-zero entries |
| CoverageAnalysis.CoverageExtremes | utils/coverage_analysis.py:84-89 | the coverage percentage is 100 exactly when every grid point's signal exceeds 1e-9, and 0 exactly when none does |
| CoverageAnalysis.NonLightComponentsIgnored | utils/coverage_analysis.py:21-22 | components not tagged "Light Source", wherever they sit in the list, do not change the analysis |
| CoverageAnalysis.NoLightSourceFails | utils/coverage_analysis.py:21-95 | without a light source every SINR entry is 0 and the analysis fails |

## Left out

- Floating point: all arithmetic is on exact reals. Rounding, overflow to infinity and NaN are not modelled. A float division by zero goes through `Numerics.divByZero`, a real-valued parameter, so the model cannot represent the NaN or infinity the source gets there; the next line says where that changes the outcome.
- CoverageSignal.ReflectionAt: a light source on a wall (every new component starts at (0, 0), `components/vlc_components.py:13`) has incident distance 0 to that wall's point, so `utils/coverage_analysis.py:141-146` divides 0 by 0 and the reflected power is NaN at every grid point within the coverage radius of the source (a grid point lying exactly on a wall point divides by a zero reflected distance as well). In the source such a point's total signal is NaN: it gets no SINR entry (line 75, NaN > 0 is false), is not covered (line 84) and is not an interference point (line 85). When every light source sits on a wall, no SINR entry is written and `np.min` at line 95 raises, so the analysis of freshly added, unoptimised lights fails although the light-source list is not empty. The model gives a real there instead, so it does not show this failure: `NoLightSourceFails` covers only the empty light-source list, and `AnalysisFailsIffNoSinr` characterises failure only in terms of the model's real-valued cells.
- Transcendental functions: exp, log, log10, cos, sin, arccos, arctan2, power and square root are parameters. Only `ExpSound` (exp(0) = 1, positive, at most 1 on non-positive arguments) is ever assumed, as an explicit hypothesis.
- The solver: scipy's SLSQP `minimize` is a function parameter. `OptimizePlacement` requires only that its result has the start vector's length. That the result respects the bounds is not assumed; `WriteBackOnFloor` states what follows when it does.
- Optimization.OptimizePlacement: the result vector is taken as the solver's exact output. The solver's convergence and optimality are not modelled.
- DXF parsing, SVG drawing, base64 encoding and the SVG size and path strings belong to the ezdxf and svgwrite libraries. The model keeps only the numbers the strings are built from (`Canvas`, `ArcPath`). Drawing LINE and CIRCLE entities is not modelled.
- CadImporter.ConvertDxfCanvas: the outer `try`/`except` that re-wraps every error as "Error converting DXF to SVG" is not modelled. The only error of the modelled steps is the empty drawing.
- CadImporter.CreateArcPath: the bare `except` returning `None` is not modelled, because the modelled arc always has the fields it reads.
- VlcComponents.SessionState.AddComponent: `components/vlc_components.py` imports only numpy (line 1) and never imports streamlit as `st`, so `add_component` as written raises NameError at line 7 before touching any list. The model gives the evidently intended append on an explicit `SessionState` object instead.
- The Streamlit session store is reduced to its `vlc_components` entry in `SessionState`. The UI, `main.py`, `components/floor_plan.py`, `components/visualization.py` and `utils/data_handler.py` are not part of this model.
- Components passed to the analyser must satisfy `LightsWellFormed`: every "Light Source" carries light-source properties. Otherwise the source fails with a missing key, which is not modelled. The component manager always satisfies it (`VlcComponents.AppendedKeepsInvariants`).
- The `responsivity` constant and the receiver list of `analyze_coverage` are computed but never used by the source. They are not modelled.
- CoverageAnalysis.AnalyzeCoverage: the report is computed from the grid's cell values, which the maps are proved to hold, rather than by re-reading the arrays. The `average_sinr` of numpy's mean over an empty selection (NaN) is not modelled, because the minimum raises there first.
- CoverageSignal.AttenuationShape: the symmetry about 550 nm is stated only for offsets up to 170 nm. The visible band 380-780 nm is not symmetric about 550, so beyond 170 nm one side is attenuated by the exponential and the other by the flat 0.5.
- Monotonicity of the analyser's coverage in the number of light sources is not claimed. For a source above the bottom wall, the bottom-wall reflection term has the factor cos(arccos(-1)) = -1 under the real functions, so a source's contribution is not known to be non-negative.
- Component positions are reals. The source's lists of two numbers become `Point`; integer-valued defaults such as `[0, 0]` become 0.0.
