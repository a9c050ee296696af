# Traffic ETL for Cajicá road segments, modelled in Dafny

`etl_cajica_routes.py` reads a road network of GeoJSON LineStrings and cuts each line into subsegments of about `subsegment_m` metres. It asks the Google Routes distance-matrix service for the driving time of every subsegment, in batches of `batch_size`. Each subsegment is written back as a feature with:

- its speed in km/h;
- its distance and duration;
- a timestamp;
- a display colour.

This project models that pipeline, apart from its network and file plumbing, and proves properties of the model.

The modules follow the program's parts:

- `Wrappers`: `Option` (Python's `None`, a missing key, or a NaN speed) and `Result` (an uncaught exception).
- `Geometry`: points in (longitude, latitude) order as in section 3.1.1 of RFC 7946; the leg lengths and length of a vertex chain (`linestring_length_m`); and linear interpolation along a leg (`interpolate_point`). The haversine distance is a parameter `dist` of type `DistFn`: any function that is non-negative and zero on coincident points.
- `Densify`: `densify_linestring`. The walk is stated twice:
  - as a function of its cursor (`Step`, `Final`, `Run`, `DensifySpec`);
  - as the source writes it, two nested loops that update the cursor (`WalkCuts`, `Densify`), proved equal to the function.

  The lemmas cover the piece count, the shape of every piece, when the walk divides by zero, and the exact-arithmetic case.
- `TailDrop`: one concrete line on which the walk as written drops the end of the line (see Findings).
- `Speed`: `estimate_speed_kmh` over a decimal parser for the `"<seconds>s"` duration, `grade_color`, and `round(x, 1)`.
- `Batching`: the batch loop of `run_once` with the request and the per-item output as parameters. It covers consecutive slices, one output per item in order, and the batch and position of every item.
- `Pipeline`: `run_once` from its input features to its output features:
  - the feature loop, with the `CollectSubsegments` method and the `SubsOf` function;
  - the matching of each subsegment to its self-paired cell, with fallbacks (`Emit`);
  - the batch loop (`Reconcile`);
  - the whole run (`RunOnce`).

  The routing service is a parameter `upstream(b, origins, destinations)`: the reply to the `b`-th request, `Failed` when the request raises. The clock is a parameter `clock(j)`: the timestamp read for the `j`-th output feature.

## Model

| member | source | states |
|---|---|---|
| Geometry.Legs | etl_cajica_routes.py:41 | one leg per pair of consecutive vertices, none for fewer than two; each is the distance between its two ends and is non-negative |
| Geometry.ChainLengthNonNegative | etl_cajica_routes.py:29-30 | a chain's length is never negative |
| Geometry.ChainLengthDegenerate | etl_cajica_routes.py:29-30 | a chain of fewer than two points, or of one point repeated, has length 0 |
| Geometry.LegsJoin | etl_cajica_routes.py:29-30 | the legs of two chains joined at a shared point are the legs of the first followed by those of the second |
| Geometry.ChainLengthJoin | etl_cajica_routes.py:29-30 | length is additive: `len(a ++ b[1..]) == len(a) + len(b)` when `a`'s last point is `b`'s first |
| Geometry.Interpolate | etl_cajica_routes.py:32-34 | the point at `t = 0` is the first endpoint and at `t = 1` the second |
| Densify.Ceil | etl_cajica_routes.py:46 | `math.ceil`: the least integer not below `x` |
| Densify.PieceCount | etl_cajica_routes.py:46 | at least one piece |
| Densify.PieceCountBounds | etl_cajica_routes.py:46 | for a positive target, `n` pieces of the line are each at most the target long, and `n - 1` would be longer; a negative target gives one piece |
| Densify.CutPositions | etl_cajica_routes.py:49 | `n + 1` cut positions, from 0 to the total length |
| Densify.CutsIncrease | etl_cajica_routes.py:49 | the cut positions strictly increase on a line of positive length |
| Densify.Proper | etl_cajica_routes.py:89 | the filter keeps no more pieces than it is given, each of at least two points |
| Densify.ProperKeepsProper | etl_cajica_routes.py:89 | the filter returns its input unchanged when every piece has at least two points |
| Densify.Step | etl_cajica_routes.py:57-83 | one iteration of the walk keeps every leg and cut index in bounds, and moves to a later cut, a later leg, or onto the sought cut (the termination measure) |
| Densify.Final | etl_cajica_routes.py:57-84 | the walk ends having sought every cut position |
| Densify.StartInv | etl_cajica_routes.py:51-56 | the starting cursor satisfies the walk invariant |
| Densify.StepKeepsInv | etl_cajica_routes.py:57-83 | an iteration keeps the invariant: subsegments are chained from the first vertex, the open one holds its first point and then the vertices walked past, and at most one is closed per cut position |
| Densify.StepForward | etl_cajica_routes.py:57-83 | an iteration keeps the closed subsegments moving forward: each interior is a run of original vertices starting at or after the end of the one before, and all stop before the vertices of the open subsegment |
| Densify.CutForward | etl_cajica_routes.py:63-77 | closing a subsegment at a cut point keeps the closed subsegments moving forward, whether or not the walk snaps to the next leg |
| Densify.StepCutKeepsInv | etl_cajica_routes.py:63-77 | the cut branch of an iteration keeps the invariant |
| Densify.NextCutKeepsInv | etl_cajica_routes.py:57-58 | moving on to the next cut position, once the sought one is reached or the legs have run out, keeps the invariant |
| Densify.AdvancingAppend | etl_cajica_routes.py:68-70 | a closed subsegment whose interior is the next run of vertices keeps the closed subsegments moving forward along the line |
| Densify.CutKeepsInv | etl_cajica_routes.py:63-77 | closing a subsegment at a cut point keeps the invariant, whether or not the walk snaps to the next leg |
| Densify.SkipKeepsInv | etl_cajica_routes.py:78-83 | moving past the rest of a leg keeps the invariant and appends that leg's end vertex to the open subsegment |
| Densify.FinalKeepsInv | etl_cajica_routes.py:57-84 | the invariant, and the forward order of the closed subsegments, hold at the end of the walk |
| Densify.InvShaped | etl_cajica_routes.py:57-84 | the closed subsegments of such a cursor are chained from the first vertex, and their interior vertices are runs of original vertices that move forward without overlap (where the cut ends lie is stated by `Densify.DensifyCutsOnLegs` and `Densify.DensifyExactPlaced`) |
| Densify.FilterRemovesNone | etl_cajica_routes.py:69-70 | every subsegment the walk closes has at least two points, so the filter at line 89 removes none |
| Densify.RunShaped | etl_cajica_routes.py:57-89 | a walk that succeeds returns at most one subsegment per cut position after the first, chained, and with interiors that are runs of original vertices moving forward along the line without overlap |
| Densify.DensifyShaped | etl_cajica_routes.py:36-90 | no subsegments for fewer than two points or a line of length 0; otherwise at most `n = max(1, ceil(total / target))`, the first starting at the first vertex, each later one at the end of the one before, and their interior points consecutive original vertices, each piece's run starting at or after the end of the one before, never the first or last vertex of the line; and they tile the line with no gap: the first run starts at vertex 1, each piece ends on the leg after its run, and each later run starts where the one before ended, or one vertex later only where that piece's cut snapped to the end vertex of its leg |
| Densify.ShapedNoBacktrack | etl_cajica_routes.py:37 | a second subsegment that walks back over a vertex inside the first is not a division of the line the walk can return |
| Densify.FinalFailsOnZeroLeg | etl_cajica_routes.py:63-65 | the walk raises only on a leg of length 0, and names it |
| Densify.DensifyFailsOnZeroLeg | etl_cajica_routes.py:65 | `densify_linestring` raises only when some leg between consecutive vertices has length 0 |
| Densify.ExactStep | etl_cajica_routes.py:57-83 | with no slack and exact arithmetic, an iteration never raises and keeps the distance walked equal to the last cut position |
| Densify.ExactCut | etl_cajica_routes.py:63-77 | with no slack, closing at the last cut ends the subsegment at the end vertex of its leg |
| Densify.FinalExact | etl_cajica_routes.py:57-84 | with no slack the walk never raises and closes a subsegment at every cut position |
| Densify.RunExactFromStart | etl_cajica_routes.py:51-89 | with no slack the walk returns one subsegment per cut position after the first, the last ending where the line has no length left |
| Densify.RunExactOnCuts | etl_cajica_routes.py:46-89 | the same over the cut positions of `n` pieces: exactly `n` subsegments |
| Densify.DensifyExact | etl_cajica_routes.py:36-90 | with no slack and exact arithmetic, exactly `n` subsegments, the last ending at a vertex after which the line has no length left |
| Densify.AtDistanceUnique | etl_cajica_routes.py:48-72 | the point at a distance along the line, located on the leg whose stretch of cumulative lengths holds that distance and interpolated by the fraction reached into that leg, is unique on legs of non-negative length |
| Densify.SameLeg | etl_cajica_routes.py:41 | on non-negative legs, no distance lies in the stretches of two different legs |
| Densify.SumPrefixMono | etl_cajica_routes.py:41-42 | the cumulative leg lengths never decrease |
| Densify.AtDistanceExists | etl_cajica_routes.py:41-48 | every distance in `(0, total]` has a point at that distance along the line |
| Densify.AtDistanceOnPrefix | etl_cajica_routes.py:41-48 | a point at a distance along the first legs of the line is at that distance along the whole line |
| Densify.AtDistanceOnLastLeg | etl_cajica_routes.py:41-48 | a distance past the first legs but within the total lies on the last leg |
| Densify.CutStep | etl_cajica_routes.py:63-77 | an iteration that reaches the sought cut on a leg of positive length closes the open subsegment with the cut point interpolated at `(into + needed) / seg_len` on that leg |
| Densify.CutAtDistance | etl_cajica_routes.py:60-68 | that cut point is the point at distance `cut_abs` along the line, when the distance walked equals the cumulative length before the leg plus the distance into it and the cut does not pass the leg's end |
| Densify.PlacedAppend | etl_cajica_routes.py:69-70 | a subsegment ending at the point of the next cut position keeps every subsegment ending at its own cut position |
| Densify.ExactCutPlaced | etl_cajica_routes.py:63-77 | with no slack, the subsegment closed while seeking cut position `k` ends at the point at distance `cut_positions[k]` along the line |
| Densify.ExactStepPlaced | etl_cajica_routes.py:57-83 | with no slack, every iteration keeps each closed subsegment `i` ending at the point at distance `cut_positions[i + 1]` |
| Densify.FinalExactPlaced | etl_cajica_routes.py:57-84 | the same holds at the end of the walk |
| Densify.RunExactPlaced | etl_cajica_routes.py:51-89 | with no slack, the walk from the start returns one subsegment per cut position after the first, subsegment `i` ending at the point at distance `cut_positions[i + 1]` |
| Densify.DensifyExactPlaced | etl_cajica_routes.py:36-90 | with no slack and exact arithmetic, exactly `n` subsegments, subsegment `i` ending at the point at distance `(i + 1) * total / n` along the line (the last at `total`) |
| Densify.LegPointOnLeg | etl_cajica_routes.py:64-68 | a cut `reach` metres into a leg of positive length, `0 < reach <= seg_len + eps`, is interpolated at a fraction `t > 0` with `t * seg_len <= seg_len + eps` |
| Densify.EndsOnLegsAppend | etl_cajica_routes.py:69-70 | a subsegment ending on a leg keeps every subsegment ending on a leg |
| Densify.CutOnLeg | etl_cajica_routes.py:63-77 | for any slack, the cut point of an iteration that closes a subsegment lies on the current leg, of positive length, at most the slack past its end |
| Densify.StepOnLegs | etl_cajica_routes.py:57-83 | every iteration keeps each closed subsegment ending on a leg, and the distance into the leg non-negative |
| Densify.FinalOnLegs | etl_cajica_routes.py:57-84 | the same holds at the end of the walk |
| Densify.DensifyCutsOnLegs | etl_cajica_routes.py:36-90 | for any slack, every subsegment of `densify_linestring` ends at a cut point interpolated on a leg of positive length, a positive fraction along it and at most the slack past its far end |
| Densify.TilesAppend | etl_cajica_routes.py:69-72 | a closed subsegment whose run starts where the next run may start, and which ends on the leg after its run, extends a tiling |
| Densify.CutStepCursor | etl_cajica_routes.py:63-77 | an iteration that closes a subsegment starts the open one afresh at the cut point, on the next leg exactly when the cut lies within `eps` of the leg's end |
| Densify.CutReach | etl_cajica_routes.py:63-77 | the cut branch closes the open subsegment at the point `dist_into_seg + needed` metres into the current leg, more than 0 and at most the slack past its end, and moves to the next leg exactly when that point snaps to the leg's end |
| Densify.TilingAfterCut | etl_cajica_routes.py:63-77 | closing the open subsegment (first point, the vertices walked past, the cut point) extends the tiling, and the next run starts after the leg's end vertex exactly when the cut snapped |
| Densify.TilingIntro | etl_cajica_routes.py:57-84 | closed subsegments that tile the line, with a next run starting where the open one starts, make a tiling walk |
| Densify.CutTiling | etl_cajica_routes.py:63-77 | the cut branch of an iteration keeps the walk tiling |
| Densify.StepTiling | etl_cajica_routes.py:59-83 | every iteration keeps the walk tiling: a cut extends the tiling, a skip to the next leg adds the passed vertex to the open run |
| Densify.FinalTiling | etl_cajica_routes.py:57-84 | the walk stays tiling to its end |
| Densify.DensifyTiled | etl_cajica_routes.py:36-90 | for any slack, the subsegments of `densify_linestring` tile the line from vertex 1: each run starts where the one before ended, or one vertex later only where that piece's cut snapped to the end vertex of its leg |
| Densify.TilesExactContiguous | etl_cajica_routes.py:75 | with no slack no cut snaps, so the runs of a tiling are contiguous |
| Densify.DensifyExactTiled | etl_cajica_routes.py:36-90 | in exact arithmetic with no slack, each subsegment is the previous cut point, every original vertex up to the leg of its own cut, and its cut point, the first run starting at vertex 1 |
| Densify.Close | etl_cajica_routes.py:86-87 | the fix-up adds at most the last vertex to the open subsegment, which then ends at the line's last vertex |
| Densify.FinalBegun | etl_cajica_routes.py:57-84 | once the walk has moved, it has closed a subsegment or walked past a vertex |
| Densify.ClosedPieces | etl_cajica_routes.py:85-89 | the corrected end of the walk gives between one and `n` subsegments, the last ending at the last vertex |
| Densify.FinishPieces | etl_cajica_routes.py:85-89 | the corrected end of a walk that closed at most `n` subsegments gives between one and `n`, the last ending at the last vertex |
| Densify.ExtendLast | etl_cajica_routes.py:85-89 | extending the last closed subsegment by the fixed-up open one keeps the count and ends it at the last vertex |
| Densify.ProperAppendShort | etl_cajica_routes.py:89 | a degenerate piece appended at the end is removed by the filter |
| Densify.ClosedFrom | etl_cajica_routes.py:57-89 | the corrected walk from an invariant cursor that has begun returns between one subsegment and one per cut position after the first, the last ending at the last vertex |
| Densify.ClosedEndsAtLastVertex | etl_cajica_routes.py:85-89 | the same for the corrected walk over increasing cut positions from the start |
| Densify.DensifyClosedEndsAtLastVertex | etl_cajica_routes.py:85-89 | corrected densifier: a line of positive length yields between 1 and `n` subsegments, and the last ends at the line's last vertex |
| Densify.WalkCuts | etl_cajica_routes.py:51-89 | the walk's two nested loops, with their cursor updates, compute the walk function, and every index they read is in bounds |
| Densify.Densify | etl_cajica_routes.py:36-90 | `densify_linestring` computes `DensifySpec`: at most `n` chained subsegments whose interior vertices are runs of original vertices moving forward without overlap, each ending at a cut point interpolated on a leg of positive length at most `1e-6` m past that leg's end, tiling the line from vertex 1 with no original vertex skipped except the end vertex of a leg whose cut snapped to it within `1e-6` m; or an error naming a zero-length leg |
| TailDrop.DriftLineCuts | etl_cajica_routes.py:41-49 | the drifting line has legs 1.0000009, 1.0000009 and 0.9999982, length 3 and cut positions 0, 1, 2, 3 at a target of 1 |
| TailDrop.DriftFirstCut | etl_cajica_routes.py:63-77 | the first cut lands within the slack of the first leg's end, and the walk snaps to the second leg |
| TailDrop.DriftSecondCut | etl_cajica_routes.py:63-77 | the second cut does the same on the second leg, and its cut point falls short of the last vertex |
| TailDrop.DriftRunsOut | etl_cajica_routes.py:78-83 | the third cut needs more than the last leg holds, and the walk runs out of legs |
| TailDrop.DriftWalk | etl_cajica_routes.py:57-84 | the walk ends with two closed subsegments and an open one that reaches the last vertex |
| TailDrop.DriftRuns | etl_cajica_routes.py:36-49 | both densifiers run the walk over the drifting line's legs and cut positions |
| TailDrop.TailDropped | etl_cajica_routes.py:85-89 | as written, 2 subsegments where `n` is 3, the last stopping short of the last vertex; corrected, 3 ending there |
| Speed.DigitsOfShow | etl_cajica_routes.py:118 | reading back the decimal digits of a natural number gives the number |
| Speed.ParseShow | etl_cajica_routes.py:118 | `float` on a whole number written in decimal, with or without a minus sign, gives that number |
| Speed.UnsignedAtPoint | etl_cajica_routes.py:118 | a numeral whose first point follows at least one digit and is followed by digits parses to the whole digits plus the fraction digits over their power of ten |
| Speed.UnsignedPoint | etl_cajica_routes.py:118 | the same for one or more digits, a point and fraction digits written side by side |
| Speed.ParseShowPoint | etl_cajica_routes.py:118 | `float` on a whole number written in decimal, a point and fraction digits (`"12.50"`, `"3."`), with or without a minus sign, gives the whole number plus the fraction |
| Speed.IndexOf | etl_cajica_routes.py:118 | finds the first occurrence of a character, or says there is none |
| Speed.ParseUnsigned | etl_cajica_routes.py:118 | an unsigned numeral parses to a non-negative value |
| Speed.ParseDecimal | etl_cajica_routes.py:118 | only a numeral with a leading minus sign parses to a negative value |
| Speed.Seconds | etl_cajica_routes.py:115-118 | a duration has seconds only if it ends in `s` |
| Speed.EstimateSpeed | etl_cajica_routes.py:114-122 | there is a speed exactly when the duration is present, ends in `s`, its numeral parses and the seconds are positive; otherwise none (NaN) |
| Speed.SpeedTimesTime | etl_cajica_routes.py:120 | the speed times the seconds is the distance times 3.6 |
| Speed.SpeedMonotone | etl_cajica_routes.py:120 | a longer distance over the same duration gives a speed at least as high; no distance gives speed 0 |
| Speed.SpeedExample | etl_cajica_routes.py:114-122 | 350 m in `"67.2s"` is 18.75 km/h |
| Speed.GradeColor | etl_cajica_routes.py:124-129 | always one of the five codes, and grey exactly when there is no speed |
| Speed.GradeBands | etl_cajica_routes.py:126-129 | each colour holds exactly the speeds from its lower bound, inclusive, to the next band's |
| Speed.GradeMonotone | etl_cajica_routes.py:124-129 | a higher speed never gets a slower band |
| Speed.Round1Bounds | etl_cajica_routes.py:168 | `round(x, 1)` is a whole number of tenths, at most half a tenth from `x` |
| Speed.Round1Idempotent | etl_cajica_routes.py:188 | rounding an already rounded value changes nothing |
| Batching.BatchStartIsProduct | etl_cajica_routes.py:154-156 | the `b`-th batch starts at `b * batch_size` |
| Batching.Batch | etl_cajica_routes.py:156 | a batch has at most `batch_size` items: exactly that many when enough are left, otherwise the rest |
| Batching.BatchesTile | etl_cajica_routes.py:155-156 | the batches are consecutive slices: laid end to end they give back every subsegment in order |
| Batching.BatchOf | etl_cajica_routes.py:155-156 | the batch holding item `j` starts at or before `j` and ends after it |
| Batching.BatchOfUnique | etl_cajica_routes.py:155-156 | an item belongs to no other batch |
| Batching.PositionAt | etl_cajica_routes.py:176 | an item's position within its batch is below `batch_size` |
| Batching.BatchOfIsDivision | etl_cajica_routes.py:155-176 | item `j` is in batch `j / batch_size`, at position `j % batch_size` |
| Batching.BatchExpected | etl_cajica_routes.py:176 | the batch's item at its position is item `j`, answered by the batch's reply |
| Batching.BatchOutputs | etl_cajica_routes.py:163-192 | one output per item of a batch |
| Batching.BatchOutputsAt | etl_cajica_routes.py:176-192 | output `k` of a batch is the output of its `k`-th item at position `k` |
| Batching.ReconciledFrom | etl_cajica_routes.py:155-193 | the outputs from a batch on number the items from that batch's start on |
| Batching.Reconciled | etl_cajica_routes.py:155-193 | one output per item |
| Batching.ReconciledFromHead | etl_cajica_routes.py:176-192 | the first outputs from batch `b` on are batch `b`'s |
| Batching.ReconciledFromTail | etl_cajica_routes.py:155-193 | past batch `b`, the outputs from `b` on are those from `b + 1` on |
| Batching.ReconciledFromInBatch | etl_cajica_routes.py:176-192 | within a batch, each item's output comes from that batch's reply at the item's position |
| Batching.ReconciledFromAt | etl_cajica_routes.py:155-193 | from any batch on, each item's output comes from its own batch's reply |
| Batching.ReconciledAt | etl_cajica_routes.py:155-193 | output `j` of a run is the output of item `j` from its own batch's reply at its position |
| Batching.BatchIsolated | etl_cajica_routes.py:159-192 | two requests that agree on every other batch give the same output for every item outside batch `b` |
| Pipeline.MakeSub | etl_cajica_routes.py:149 | a subsegment's origin and destination are its first and last points, and it carries its piece and the feature's properties |
| Pipeline.PiecesToSubs | etl_cajica_routes.py:148-149 | one subsegment per piece, in order |
| Pipeline.FeatureSubs | etl_cajica_routes.py:141-149 | every subsegment of a feature is well formed, is one of the pieces of that LineString feature's densified line, and carries the feature's properties; an error names the feature |
| Pipeline.SubsOfSound | etl_cajica_routes.py:140-149 | every collected subsegment is well formed, is one of the pieces of the densified line of a LineString feature of the input, and carries that feature's properties |
| Pipeline.SubsOfFailure | etl_cajica_routes.py:142-147 | a run stops only at a feature whose geometry is `null`, or at a LineString with a zero-length leg |
| Pipeline.SubsOfStops | etl_cajica_routes.py:140-147 | once a feature stops the run, the run stops there |
| Pipeline.PiecesSubsegments | etl_cajica_routes.py:148-149 | the loop appending one subsegment per piece computes `PiecesToSubs` |
| Pipeline.FeatureSubsegments | etl_cajica_routes.py:141-149 | the feature loop body computes `FeatureSubs`: non-objects and non-LineStrings give nothing, a `null` geometry raises |
| Pipeline.LineSubsegments | etl_cajica_routes.py:145-149 | a LineString's line is densified and one subsegment appended per piece, or the densifier's error is the feature's error |
| Pipeline.CollectSubsegments | etl_cajica_routes.py:140-149 | the feature loop computes `SubsOf`, stopping at the first feature that raises |
| Pipeline.FirstSelfPaired | etl_cajica_routes.py:177 | finds the first cell with `originIndex == destinationIndex == idx`, or reports that none has |
| Pipeline.EmitBatch | etl_cajica_routes.py:159-192 | the outputs of one batch, falling back for all of them when the request raised |
| Pipeline.ReconcileRound | etl_cajica_routes.py:156-193 | one round sends the batch's origins and destinations and appends the batch's outputs |
| Pipeline.Reconcile | etl_cajica_routes.py:153-193 | the batch loop computes the outputs of the whole run, batch after batch |
| Pipeline.AnnotateKeeps | etl_cajica_routes.py:168-170 | the output properties are the parent's with the five keys added or overridden, nothing else changed |
| Pipeline.EmitKeepsProps | etl_cajica_routes.py:163-192 | every output keeps its subsegment's points and every parent property except the five keys |
| Pipeline.EmitFallback | etl_cajica_routes.py:159-180 | a raised request, a missing self-paired cell or a non-`OK` status gives no speed, no duration, the geometric length and grey |
| Pipeline.EmitReported | etl_cajica_routes.py:181-191 | an `OK` cell gives the reported distance when present, even 0, and the geometric length only when absent; its duration; and the speed and colour estimated from them |
| Pipeline.ReconciledOneForOne | etl_cajica_routes.py:155-193 | output `j` is subsegment `j`'s own output from its batch's reply, with its points and its parent properties, and the fallback when its batch's request raised |
| Pipeline.BatchIsolated | etl_cajica_routes.py:159-173 | a batch's reply, a failure included, changes no output outside that batch |
| Pipeline.RunOnce | etl_cajica_routes.py:140-193 | the run collects the subsegments and then reconciles them, or stops with the feature's error |
| Pipeline.RunOutputs | etl_cajica_routes.py:140-193 | a run completes exactly when collecting the subsegments does, with one output per subsegment; each output's points are a piece of the densified line of a LineString feature of the input, and its properties are that feature's, every key other than the five keeping its value |

## Left out

- `haversine_m` (etl_cajica_routes.py:22-27): sine, cosine and arcsine on floats. Distance is a parameter that is non-negative and zero on coincident points.
- `payload_matrix` and `request_matrix` (etl_cajica_routes.py:92-112): the HTTP request, its timeout, `raise_for_status` and the parsing of the response lines. They are a parameter whose reply is `Failed` for any exception, or the parsed cells.
- `departureTime` and the `updated_at` timestamps (etl_cajica_routes.py:100, 169, 190) read the wall clock. The timestamp of the `j`-th output feature is the parameter `clock(j)`.
- The API key check, `sys.exit(2)`, reading the input file, writing the output file and the final message (etl_cajica_routes.py:132-138, 195-199). The model takes the input `features` array and returns the output features. The `FeatureCollection` wrapper and the constant `"type"` and `"geometry"` members of each output feature are not modelled.
- `app.py` is not part of this model: it is a user interface around `run_once`.
- Floating point: all arithmetic is exact on reals. NaN speeds are `None`. The 1e-6 slack of the walk is kept. `TailDrop` shows the drift it allows with exact values.
- Speed.Round1Bounds: `round(x, 1)` is on the exact value, ties to the even tenth. Binary floating-point representation is not modelled.
- Speed.ParseDecimal: accepts an optional sign, digits and one decimal point. Python's `float` also accepts exponents, surrounding whitespace, underscores, `inf` and `nan`, and those are not modelled.
- The cells of a reply have typed fields, each possibly absent. Several JSON cases are not modelled:
  - a JSON `null` `distanceMeters`, on which `float` raises;
  - a non-string `duration`, on which `endswith` raises;
  - an index given as `true` or `0.0`, which Python compares equal to 1 or 0.
- Input features: a `geometry` that is neither absent, `null` nor an object is not modelled, nor are `coordinates` entries that are not pairs of numbers; on these the source raises.
- Input features: a `properties` member that is truthy but not an object (a list, a string, a number) is not modelled. It passes line 143, and `{**props, ...}` then raises at line 168 or 188, outside the `try`, so the run stops.
- Reply lines that are not JSON objects are not modelled. `c.get` raises on them at line 177, outside the `try`, so the run stops.
- A `distanceMeters` given as a string is not modelled. `float` at line 183 converts a numeral such as `"350"` to 350.0 and raises on any other string, which stops the run.
- Densify.Close compares points by value. In the source a cut point is a tuple (line 34) and a vertex read from JSON is a list, and the two never compare equal at line 86. As written, the open subsegment is never emitted, so this does not change any output.
- Densify.Densify: requires a non-zero target length. At 0 the source raises `ZeroDivisionError` at line 46 on any line of positive length; `run_once` is called with 300 by default.
- Densify.Densify: the cut at distance `i * total / n` is proved only for no slack (`Densify.DensifyExactPlaced`). With the 1e-6 slack a snap to the next leg lets later cuts drift behind their distances (`TailDrop` shows one such line), so for the source's slack the model states only that each cut point lies on a leg of positive length, at most the slack past its end.
- Pipeline.Reconcile: requires `batch_size > 0`; with `batch_size <= 0` and at least one subsegment, the loop at line 155 never ends (a negative size moves the index away from the bound; with no subsegments the source returns at once).
- Output properties are a map, so the key order of the output JSON object is not modelled.
- Property values are JSON scalars (null, booleans, numbers, strings). The source copies nested arrays and objects in `properties` through unchanged at lines 168 and 188; the model does not represent them, so it does not show that they are carried over.

## Findings

| source | as written | input that shows it | evidently intended | confidence | as-written member | corrected member |
|---|---|---|---|---|---|---|
| etl_cajica_routes.py:85-89 | The fix-up after the walk appends the last vertex to the open subsegment. That subsegment is never added to `out`. When slack has accumulated, the walk runs out of legs short of the last cut position, and the rest of the line is lost. | Vertices at longitude 0, 1.0000009, 2.0000018 and 3 (latitude 0), with a planar distance, at a target of 1 m. The legs are 1.0000009, 1.0000009 and 0.9999982, and `n` is 3. The first two cuts snap to the next leg within the 1e-6 slack, so the walk falls 1.8e-6 behind. It returns 2 subsegments, and the second ends at longitude 2.0000009, short of the vertex at 3. | The fixed-up open subsegment is kept, so the subsegments reach the line's last vertex: as the missing last piece when fewer than `n` were closed, otherwise as the end of the last one. | not executed | TailDrop.TailDropped | Densify.DensifyClosedEndsAtLastVertex |

`Pipeline` keeps `densify_linestring` as written (`Densify.Densify`), so the outputs it models are those the source produces. The corrected densifier is `Densify.DensifyClosed`: the same walk, with the fixed-up open subsegment kept before the filter (`Densify.Finish`). When the walk closed fewer than `n` subsegments, it is the missing last one. Otherwise it extends the last one, so that no subsegment is added after the last cut. For a line of positive length, the corrected densifier is proved to yield between 1 and `n` subsegments, and the last one ends at the line's last vertex.
