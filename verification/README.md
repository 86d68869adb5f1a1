# Radar nowcasting core, modelled in Dafny

This project models the rain-nowcasting core of the radar-pro web application, which serves Bureau of
Meteorology (BOM) radar loops for Australian cities. The model covers:

- **The full-field motion tracker** (`lib/radar/motion-tracker.ts`). It classifies the pixels of a
  decoded radar frame as rain, extracts 4-connected rain cells with a stack-driven flood fill, and
  matches cells between consecutive frames greedily. The velocity is the area-weighted mean cell
  displacement, with a 16-point compass label.
- **The point forecaster** (`lib/weather/rain-predictor.ts`). It has its own classifier and
  three-level intensity. It scans a disk around the target pixel for rain and estimates a
  two-point velocity from the first and last tracked centroids. An 8-point compass labels the
  heading. `predictRain` is a first-match cascade: no data, rain overhead, rain approaching at one
  of five search radii, or clear.
- **The frame extrapolator** (`lib/radar/frame-renderer.ts`). It moves every opaque pixel rigidly
  by the velocity scaled to the horizon and drops pixels that leave the image. The confidence
  falls with the horizon, and there is one predicted frame per multiple of the interval.
- **The string and lookup helpers.**
  - Radar ids: a five-character station id plus a range digit (`data/radars.ts`,
    `lib/bom/client.ts`).
  - The six frame timestamps behind "now", their `YYYYMMDDHHMM` text and its parse back into a
    time, and the frame list (`lib/bom/client.ts`).
  - The station table and its lookups (`data/radars.ts`).
  - The city table, sorted by population, its first eight entries, and the lookups by slug and by
    position (`data/cities.ts`).

How the source is represented:

- JavaScript numbers are exact `real`s, or `int`s where the source only ever holds integers.
- A decoded frame is a grid of RGBA samples, `rows[y][x]`. This is the sample at byte offset
  `(y * width + x) * 4` of the source's buffer.
- `Math.round` is `floor(x + 0.5)`, so halves go toward positive infinity. JavaScript's `%` is the
  truncating remainder (`JsMath.RemInt`, `JsMath.Rem360`).
- `Math.sqrt` and `Math.atan2` come in as a `JsMath.Host` record of functions. Predicates state the
  laws a proof may use: `sqrt` is the non-negative square root, and `atan2` lies in [-180, 180]
  degrees and is 0 at the origin approached from a positive zero second argument
  (`atan2(±0, +0)` is ±0). Signed zeros are not otherwise modelled; the one place a negative
  zero decides the answer, `velocityToDirection` of a zero drift, is a case of its own.
- Where the source only compares distances, the model compares squared distances
  (`Lookup.SquaredOrderAgrees` and `RainScan.CircleTestAgrees` justify this).
- Times are integer milliseconds since 1970-01-01T00:00Z. The UTC calendar fields follow section
  21.4.1 of ECMA-262 (module `UtcCalendar`). "Now" is a parameter.
- The frames and the target pixel of the point forecaster are parameters. The decoded frames of
  the tracker and the renderer are parameters too.

## Model

| member | source | states |
|---|---|---|
| MotionPixels.TranslucentIsNotRain | lib/radar/motion-tracker.ts:25-26 | a sample with alpha below 128 is never rain, whatever its colour |
| MotionPixels.RainIntensity | lib/radar/motion-tracker.ts:41-47 | the score is one of 255, 200, 150, 100, 50; it is 255 exactly when red > 200 and green < 100 |
| CellExtractor.FloodFillSound | lib/radar/motion-tracker.ts:77-94 | the stack-driven fill only extends the member list and keeps its invariant: members are distinct, unvisited before the fill, rain, each adjacent to an earlier one, and every rain neighbour of a member is a member |
| RainCells.SeedFill | lib/radar/motion-tracker.ts:74-94 | the fill from an unvisited rain seed yields a non-empty component that starts at the seed and holds only pixels not visited before |
| RainCells.ComponentsPartition | lib/radar/motion-tracker.ts:66-94 | the scan's components are closed 4-connected sets of rain pixels; no two share a pixel; their first pixels come in raster order; a pixel is rain exactly when some component holds it |
| RainCells.ComponentsArea | lib/radar/motion-tracker.ts:66-94 | the components hold at most width × height pixels between them, because each pixel joins at most one |
| RainCells.FindRainCells | lib/radar/motion-tracker.ts:50-108 | every cell has area above 50; its centroid lies in the frame and its mean score in [50, 255]; the total area is at most width × height |
| RainCells.BigCellsExact | lib/radar/motion-tracker.ts:96-103 | the cells are exactly the summaries (centroid, mean score, pixel count) of the components of more than 50 pixels |
| RainCells.SummaryInFrame | lib/radar/motion-tracker.ts:96-102 | the centroid of an in-frame component lies in the frame, and its mean score lies in [50, 255] |
| RainCells.CoveredCard | lib/radar/motion-tracker.ts:66-94 | disjoint duplicate-free components cover exactly as many pixels as they list |
| CellMatcher.Best | lib/radar/motion-tracker.ts:119-137 | the choice for one previous cell is the unused current cell of least score, lowest index on ties, provided its score is below the maximum distance; otherwise none |
| CellMatcher.IsBestUnique | lib/radar/motion-tracker.ts:119-137 | at most one candidate satisfies the choice rule |
| CellMatcher.MatchCells | lib/radar/motion-tracker.ts:111-146 | every key is below the previous count and every value below the current count; keys increase; no current cell is used twice |
| CellMatcher.MatchCellsGreedy | lib/radar/motion-tracker.ts:111-146 | each match is the choice for its previous cell given the current cells already taken; a previous cell with no match had no acceptable unused candidate |
| MotionTracker.SampleOf | lib/radar/motion-tracker.ts:167-170 | a match's weight is the smaller of the two areas over 1000, positive for cells of positive area |
| MotionTracker.MatchSamples | lib/radar/motion-tracker.ts:166-175 | one sample per match, in the matching's order, from the matched pair of cells |
| MotionTracker.FramesSamples | lib/radar/motion-tracker.ts:161-176 | every sample over all consecutive frame pairs has positive weight; the total weight is positive exactly when some match exists |
| MotionTracker.WeightedSumBounds | lib/radar/motion-tracker.ts:172-174 | a positively weighted sum of displacements within [lo, hi] lies within lo and hi times the total weight |
| MotionTracker.MeanWithinRange | lib/radar/motion-tracker.ts:182-183 | the weighted mean displacement lies between the least and the greatest matched displacement |
| MotionTracker.FramesTotals | lib/radar/motion-tracker.ts:159-176 | the accumulation loop yields the weighted x and y sums and the total weight of all samples |
| MotionTracker.CalculateVelocity | lib/radar/motion-tracker.ts:149-194 | the result is zero for fewer than two frames or no matches. Otherwise vx and vy are the weighted mean displacements (`MeanAlong`) and lie between the least and the greatest matched displacement. The direction is the bearing `(atan2(-vx, vy) + 360) % 360`, within [0, 360). For a first frame of positive width the speed is `SpeedKmh` of the mean. The speed is never negative |
| MotionTracker.Bearing | lib/radar/motion-tracker.ts:190-191 | the bearing of any displacement lies in [0, 360), and a zero displacement has bearing 0, as `(atan2(-0, 0) + 360) % 360` is 0 |
| MotionTracker.DirectionToCompass | lib/radar/motion-tracker.ts:196-201 | from -11.25 degrees up the result is one of the sixteen labels; lower indices read past the array |
| MotionTracker.CompassSector | lib/radar/motion-tracker.ts:196-201 | an angle within half a sector of 22.5·k gets label k |
| MotionTracker.CompassWrapsAtNorth | lib/radar/motion-tracker.ts:190-201 | angles near 0 and near 360 both give "N" |
| MotionTracker.VelocityHasCompass | lib/radar/motion-tracker.ts:190-201 | every normalised direction has a compass label |
| RainScan.FaintOrDarkIsNotRain | lib/weather/rain-predictor.ts:17-20 | a sample with alpha below 50, or with red, green and blue all below 30, is not rain |
| RainScan.PixelIntensity | lib/weather/rain-predictor.ts:43-58 | heavy exactly for red, magenta or orange; moderate exactly for yellow that is none of those; light otherwise |
| RainScan.RainPixels | lib/weather/rain-predictor.ts:94-113 | the collected pixels are exactly the rain pixels within the radius that lie on the 512 × 512 image, each once, in raster order |
| RainScan.CountedInSquare | lib/weather/rain-predictor.ts:94-98 | every counted pixel lies in the square the loops visit |
| RainScan.CircleTestAgrees | lib/weather/rain-predictor.ts:97-98 | the square-root circle test agrees with the squared comparison |
| RainScan.Dominant | lib/weather/rain-predictor.ts:128-133 | heavy exactly when more than a tenth are heavy; moderate exactly when not heavy and more than a fifth are moderate |
| RainScan.ScanForRain | lib/weather/rain-predictor.ts:86-136 | found exactly when some pixel is counted, and the not-found result is all zero and light. The count is the number of counted pixels. The centroid is the mean x and mean y of the counted pixels, and it lies in the scanned square and on the image. The intensity is heavy when more than a tenth of them are heavy, else moderate when more than a fifth are moderate, else light |
| RainScan.CentroidBounds | lib/weather/rain-predictor.ts:119-121 | the mean position of counted pixels lies in the scanned square and on the image |
| RainPredictor.PositionsMembers | lib/weather/rain-predictor.ts:147-151 | a centroid is among the positions exactly when some frame is tracked there, so tracking is a filter followed by a map |
| RainPredictor.TrackedFrames | lib/weather/rain-predictor.ts:145-151 | a position is tracked exactly when some frame's scan at that radius holds more than five pixels, and it is that scan's centroid at that frame's time |
| RainPredictor.PositionsStartAtFirstTracked | lib/weather/rain-predictor.ts:147-157 | the first position is the first tracked frame's centroid |
| RainPredictor.PositionsEndAtLastTracked | lib/weather/rain-predictor.ts:147-158 | the last position is the last tracked frame's centroid |
| RainPredictor.DriftOf | lib/weather/rain-predictor.ts:154-166 | a velocity exists exactly when two or more frames are tracked and the first and last differ in time; it carries the first centroid onto the last over dt minutes |
| RainPredictor.TwoPointVelocity | lib/weather/rain-predictor.ts:139-167 | no velocity from zero or one frame |
| RainPredictor.StillRainHasZeroVelocity | lib/weather/rain-predictor.ts:154-166 | identical scans in every frame give no velocity or a zero velocity |
| RainPredictor.Direction8 | lib/weather/rain-predictor.ts:172-175 | from -540 degrees up the label is one of the eight points |
| RainPredictor.VelocityToDirection | lib/weather/rain-predictor.ts:169-176 | the label is always one of the eight points, and a zero drift comes from "N", because `atan2(±0, -0)` is ±180 degrees |
| RainPredictor.HalfTurnIsNorth | lib/weather/rain-predictor.ts:172-175 | both half turns, +180 and -180 degrees, name "N" |
| RainPredictor.Direction8Sector | lib/weather/rain-predictor.ts:172-175 | an angle whose value plus 180 is within half a sector of 45·k gets label k |
| RainPredictor.Direction8WrapsAtNorth | lib/weather/rain-predictor.ts:172-175 | rain moving due south (angles near ±180) comes from "N" |
| RainPredictor.Judge | lib/weather/rain-predictor.ts:236-281 | an approach is reported exactly when every test passes: the scan has at least five pixels, a velocity exists, the speed is at least 0.3, the heading is toward the target, the alignment is at least 0.3 and the ETA is at most 90. The report then carries the scan's intensity and the 8-point heading of the velocity. Its minutes are the rounded ETA, and its confidence is `Confidence` of the ETA and the alignment |
| RainPredictor.MinutesUntil | lib/weather/rain-predictor.ts:260-277 | the announced minutes are the ETA rounded, within [0, 90] |
| RainPredictor.Confidence | lib/weather/rain-predictor.ts:270-280 | with raw the rounded mean of `max(0, 100 - eta)` and `100 * alignment`: a raw score below 40 gives 40, a raw score above 90 gives 90, and anything between is kept as it is |
| RainPredictor.ConfidenceFallsWithEta | lib/weather/rain-predictor.ts:270-280 | a later arrival never gets a higher confidence |
| RainPredictor.DistanceFromHeading | lib/weather/rain-predictor.ts:247-253 | rain heading toward the target is at a positive distance, so the alignment division is defined |
| RainPredictor.ZeroDriftNeverApproaches | lib/weather/rain-predictor.ts:243-244 | a zero velocity is always rejected as too slow |
| RainPredictor.Assess | lib/weather/rain-predictor.ts:234-281 | one pass accepts exactly when the latest frame's scan and the two-point velocity at that radius pass every test |
| RainPredictor.Approach | lib/weather/rain-predictor.ts:232-292 | the search yields clear or an approach prediction |
| RainPredictor.PredictRain | lib/weather/rain-predictor.ts:186-292 | confidence 0 exactly for no frames or a target off the image, and the result is then the no-data result. It is overhead exactly when the latest frame has rain within 8 pixels, with minutes 0, confidence 95 and that scan's intensity. Otherwise it is the first-match approach search over the five radii (`Approach`), which gives an approach or clear |
| RainPredictor.PredictOnImage | lib/weather/rain-predictor.ts:215-292 | with frames and the target on the image the result never has confidence 0. It is overhead exactly when rain lies within 8 pixels, carrying that scan's intensity. Otherwise it is the approach search over the five radii |
| RainPredictor.OneFrameNeverApproaches | lib/weather/rain-predictor.ts:154 | with a single frame rain is only ever reported overhead |
| RainPredictor.StillRadarNeverApproaches | lib/weather/rain-predictor.ts:154-166 | with identical frames rain is only ever reported overhead |
| FrameRenderer.Shift | lib/radar/frame-renderer.ts:31-33 | the shift is the velocity times the horizon in frame intervals, rounded half up |
| FrameRenderer.ShiftRoundsHalfUp | lib/radar/frame-renderer.ts:32-33 | -0.5 rounds to 0, -1.5 to -1, 1.5 to 2 |
| FrameRenderer.StillShiftsNothing | lib/radar/frame-renderer.ts:31-33 | a zero velocity shifts nothing |
| FrameRenderer.Shifted | lib/radar/frame-renderer.ts:26-56 | the reference frame has the source's size, and each pixel is the opaque source pixel that lands on it, else transparent |
| FrameRenderer.Translate | lib/radar/frame-renderer.ts:26-56 | the copy loop over a blank canvas produces the reference frame |
| FrameRenderer.TranslateRow | lib/radar/frame-renderer.ts:36-55 | one row of the copy loop extends the partial result by that row |
| FrameRenderer.ShiftedMovesOpaquePixels | lib/radar/frame-renderer.ts:43-54 | each opaque source pixel reappears unchanged at its target when that is on the image; every output pixel is transparent or opaque |
| FrameRenderer.OpaqueCount | lib/radar/frame-renderer.ts:35-56 | the opaque output pixels are exactly the kept source pixels moved, as many as there are kept pixels and no more than the opaque source pixels |
| FrameRenderer.OpaqueAt | lib/radar/frame-renderer.ts:35-56 | an output pixel is opaque exactly when some kept source pixel lands on it |
| FrameRenderer.TranslatedCard | lib/radar/frame-renderer.ts:45-46 | translation is injective: a moved set has the size of the original |
| FrameRenderer.FrameConfidence | lib/radar/frame-renderer.ts:78-83 | always at least 20, and at most 100 for a horizon from now on. Up to 133⅓ minutes it is 100 − 0.6·m rounded; from there on it is 20 |
| FrameRenderer.ConfidenceNonIncreasing | lib/radar/frame-renderer.ts:78-83 | a later horizon never has a higher confidence |
| FrameRenderer.RenderPredictedFrame | lib/radar/frame-renderer.ts:11-85 | the predicted frame is the source shifted by the velocity scaled to the horizon, with that horizon and its confidence |
| FrameRenderer.HorizonCount | lib/radar/frame-renderer.ts:96 | the number of horizons is the greatest n with n·interval within the maximum, and 0 when the maximum is below the interval |
| FrameRenderer.DefaultHorizonCount | lib/radar/frame-renderer.ts:91-96 | the defaults 120 and 10 give 12 frames |
| FrameRenderer.GeneratePredictedFrames | lib/radar/frame-renderer.ts:88-106 | frame k is the render at horizon (k+1)·interval, all within the maximum, and there are exactly as many as horizons fit; a maximum below the interval gives none |
| RadarIds.SuffixRoundTrip | data/radars.ts:218-230 | every range's digit reads back as that range |
| RadarIds.RangesDistinct | data/radars.ts:20-22 | different ranges have different kilometre values and digits |
| RadarIds.CreateRanges | data/radars.ts:21-27 | one entry per offered range, in order, each the base id plus that range's digit |
| RadarIds.RadarIdForRange | data/radars.ts:209-214 | a six-character id keeps its first five characters, any other id keeps all of them, and the range digit is appended |
| RadarIds.ParseRadarId | data/radars.ts:217-236 | a six-character id splits into five characters and a range, 256 km for an unknown digit; every other id is a base at 256 km |
| RadarIds.ParseAfterEncode | data/radars.ts:209-236 | parsing the id built for a five-character base gives the base and the range back |
| RadarIds.ParseAfterReencode | data/radars.ts:209-236 | a six-character id re-pointed at a range parses to its own station at that range |
| RadarIds.EncodeAfterParse | data/radars.ts:209-236 | a six-character id ending in a range digit is rebuilt exactly from its parse |
| RadarIds.ReencodeIdempotent | data/radars.ts:209-214 | for five- and six-character ids, asking again for the same range changes nothing |
| RadarIds.ReencodeGrowsOtherIds | data/radars.ts:209-214 | for other lengths, asking again appends another digit |
| RadarIds.CreateRangesParse | data/radars.ts:21-27 | each listed id of a five-character station parses back to that station and range |
| Radars.StationIdsWellFormed | data/radars.ts:29-196 | every base id has five characters and names one station |
| Radars.GetStationById | data/radars.ts:199-201 | the result is a station with that id, and nothing exactly when no station has it |
| Radars.GetStationByRadarId | data/radars.ts:263-266 | the result is the station whose id is the parsed base id, and nothing exactly when none has it |
| Radars.StationByRangeId | data/radars.ts:263-266 | every id in a station's range list leads back to that station |
| Radars.GetRadarForLocation | data/radars.ts:242-260 | the result is the earliest station at least distance |
| Radars.GoldCoastNeverNearest | data/radars.ts:242-260 | the Gold Coast entry stands where the Brisbane entry does and after it, so it is never the nearest |
| Lookup.FindFirst | data/radars.ts:199-201 | the first index passing the test, or nothing exactly when none passes |
| Lookup.Nearest | data/radars.ts:242-260 | nothing exactly for an empty list; otherwise the earliest place at least distance |
| Lookup.EarliestNearestUnique | data/radars.ts:246-256 | only one index is the earliest nearest |
| Lookup.SquaredOrderAgrees | data/radars.ts:250-252 | comparing square roots of squared distances is comparing squared distances |
| BomClient.RoundedNowIsFrameBoundary | lib/bom/client.ts:42-45 | rounding cuts now down to a multiple of six minutes, within six minutes before now |
| BomClient.FrameTimesSpacing | lib/bom/client.ts:42-54 | the frames are on six-minute boundaries, six minutes apart, oldest first, the last at the rounded now |
| BomClient.FrameMinutes | lib/bom/client.ts:43-49 | each frame's minute is a multiple of six |
| BomClient.FrameTimestampsRead | lib/bom/client.ts:47-52 | in four-digit years each generated timestamp reads back as the time of its frame |
| BomClient.TimestampShape | lib/bom/client.ts:57-64 | in a four-digit year the timestamp is twelve digits |
| BomClient.FormattedSlices | lib/bom/client.ts:57-72 | the five slices of a timestamp parse as its year, month from 1, day, hour and minute |
| BomClient.Slice | lib/bom/client.ts:68-72 | `slice` cuts its bounds to the text's length |
| BomClient.UtcTime | lib/bom/client.ts:74 | for valid fields the time is the time of those fields, and it exists exactly when it is within the range of a Date |
| BomClient.ReadFields | lib/bom/client.ts:66-75 | a timestamp whose slices read as fields names the time `Date.UTC` makes of them |
| BomClient.TruncatedTimestamp | lib/bom/client.ts:66-75 | a timestamp of ten characters or fewer names no time |
| BomClient.UnreadableYear | lib/bom/client.ts:68-74 | a timestamp that starts with neither white space, a digit nor a sign names no time |
| BomClient.HexMonthUnreadable | lib/bom/client.ts:69-74 | `"20240x010000"` names no time: its month field `0x` is a hexadecimal prefix with no digit after it |
| BomClient.UnreadableField | lib/bom/client.ts:69-74 | a month field that `parseInt` cannot read leaves the timestamp naming no time |
| BomClient.FourDigitYearsInRange | lib/bom/client.ts:74 | a time in a four-digit year lies within the range of a Date |
| BomClient.TimestampRoundTrip | lib/bom/client.ts:57-75 | reading the timestamp of a time in a four-digit year gives the start of that time's minute |
| BomClient.WholeMinuteRoundTrip | lib/bom/client.ts:57-75 | a whole minute in a four-digit year reads back from its timestamp exactly |
| BomClient.FrameLocalTimes | lib/bom/client.ts:111-116 | each frame's time is the frame time its timestamp was made from |
| BomClient.LatestTimestampReadsNow | lib/bom/client.ts:117-121 | the latest timestamp of the list names "now" cut down to a six-minute boundary |
| BomClient.UrlNamesTimestamp | lib/bom/client.ts:114 | the timestamp can be read back out of a frame's address |
| BomClient.GetRadarIdWithRange | lib/bom/client.ts:247-266 | a six-character id keeps its first five characters and stays six long. Any other id is kept whole with one character more. The last character is the range digit |
| BomClient.RadarIdBuildersAgree | lib/bom/client.ts:247-266 | the client's builder and the station table's builder give the same id |
| UtcCalendar.FieldsOf | lib/bom/client.ts:58-62 | the UTC fields of a time are a valid month, day, hour and minute |
| UtcCalendar.TimeOfFields | lib/bom/client.ts:58-62 | the fields of a time name the minute the time falls in |
| UtcCalendar.FieldsOfTime | lib/bom/client.ts:74 | the fields of the time that valid fields name are those fields |
| UtcCalendar.MinuteFields | lib/bom/client.ts:45 | zeroing seconds and milliseconds keeps the fields |
| UtcCalendar.YearAndDay | lib/bom/client.ts:58 | the year and day of the year holding a day count, with the day inside that year |
| UtcCalendar.MonthOf | lib/bom/client.ts:59 | the month holding a day of the year |
| Decimal.ValueOfPad2 | lib/bom/client.ts:59-62 | a padded number below 100 reads back as itself |
| Decimal.ParseInt | lib/bom/client.ts:68-72 | `parseInt` without a radix reads NaN when the first character after the white space is neither a digit nor a sign |
| Decimal.ParseAllDigits | lib/bom/client.ts:68-72 | a non-empty run of decimal digits reads as its value |
| Decimal.ParseNegative | lib/bom/client.ts:68-72 | a minus sign before a run of digits reads as minus its value |
| Decimal.ParseSkipsSpace | lib/bom/client.ts:68-72 | white space before the text does not change what is read |
| Decimal.ParseStopsAtNonDigit | lib/bom/client.ts:68-72 | digits followed by a non-digit read as the digits alone, unless they are `0` followed by `x` or `X` |
| Decimal.ParseHexPrefix | lib/bom/client.ts:68-72 | after a `0x` prefix the digits are hexadecimal; with no hexadecimal digit after the prefix the result is NaN |
| Decimal.DigitsBounds | lib/bom/client.ts:58-63 | the text of n has as many digits as the bounds of n demand |
| Decimal.ParseDigits | lib/bom/client.ts:58-68 | the decimal text of a number parses back to the number |
| Decimal.DigitsLength | lib/bom/client.ts:58-63 | the text of a number has k digits exactly when k is 1 and the number is below 10, or 10^(k-1) ≤ n < 10^k |
| Cities.SortByPopulation | data/cities.ts:55 | the sorted list is a permutation of the city list |
| Cities.SortedByPopulation | data/cities.ts:55 | the sorted list never increases in population |
| Cities.SortIsStable | data/cities.ts:55 | cities of equal population keep their original order |
| Cities.PopularOutrankRest | data/cities.ts:55-57 | every popular city is at least as populous as every other city |
| Cities.GetCityBySlug | data/cities.ts:59-61 | the result is the first listed city with that slug, and nothing exactly when no city has it |
| Cities.CityByOwnSlug | data/cities.ts:59-61 | every listed city is found by its own slug, since no two cities share one |
| Cities.SlugsDistinct | data/cities.ts:14-53 | no two listed cities share a slug |
| Cities.GetNearestCity | data/cities.ts:63-78 | the result is the earliest city at least distance |
| JsMath.Round | lib/radar/frame-renderer.ts:32-33 | `Math.round` gives the integer within half of x, halves rounding up |
| JsMath.Rem360 | lib/radar/motion-tracker.ts:191 | JavaScript's `% 360` keeps the sign of its operand and is within one turn |
| JsMath.RemInt | lib/radar/motion-tracker.ts:199 | JavaScript's integer `%` agrees with the Euclidean one on non-negative numbers and is never positive on negative ones |

## Left out

- Network, cache and image codecs are left out: the Redis cache in front of `getRadarFrames`, fetching from BOM, `clearRadarCache`, `bufferToFrameData`, `loadImage` and `toBuffer`. Decoded frames and image sizes are parameters.
- The blur passes of `renderPredictedFrame` (lib/radar/frame-renderer.ts:61-76) are canvas compositing. The predicted frame is the image before the blur.
- `coordsToPixel` is cosine geometry in floating point. The target pixel of the point forecaster is an input, and the "outside radar range" test is made on that pixel.
- Floating-point rounding error is left out. Numbers are exact reals, and the exact values of `sqrt` and `atan2` stay abstract behind their laws.
- The clock (`new Date()`), `console` logging and the `try`/`catch` of `predictRain` are left out. "Now" is a parameter, and no modelled operation throws.
- `getStationByCity` compares lower-cased names. Case folding is not modelled, so that lookup is left out.
- Decimal.ParseInt: values are exact integers. JavaScript reads a run of more than 15 or so digits as the nearest double, and `-0` as negative zero; the slices read here are at most four characters.
- BomClient.UtcTime: the day, hour and minute are added linearly, as `Date.UTC` does for out-of-range values. The month carries into the year. The NaN result of a non-finite field cannot arise from a parse, so it is not modelled.
- BomClient.TimestampRoundTrip: stated only for years 1000 to 9999. Other years print with another number of digits, and the fixed slices then misread them.
- BomClient.TimestampToLocalTime: its comment speaks of Australian local time, but the code builds the UTC instant the timestamp names. The model follows the code. Its properties are in the rows above rather than on the function.
- MotionTracker.SpeedKmh: states only that the speed is non-negative, since the km/h value is the abstract `sqrt` of the mean displacement scaled.
- MotionTracker.CalculateVelocity: `radarRangeKm` and the frame width enter only the speed. When the first frame has width zero the source divides by zero and reports an infinite or NaN speed; the model leaves the speed unspecified then.
- RainScan.ScanForRain: frames are taken to be 512 × 512 (`IsRadarImage`). The source indexes any buffer as if it were that size, and reads `undefined` past the end of a smaller one, which then never counts as rain; such buffers are not modelled.
- FrameRenderer.RenderPredictedFrame: requires a non-zero frame interval. The source divides by it, and every caller passes the default 6.
- FrameRenderer.GeneratePredictedFrames: requires a positive interval, or a maximum below the interval (which gives no frames). With an interval of zero or less and a maximum at or above it, the source loop never ends. Its only caller (app/api/radar/predict/route.ts:76-81) passes 120 and 10.
- RainPredictor.Approach: its own contract states only the shape of the result. The first-match order is stated by `ApproachClear` and `ApproachFirst`.
- RainPredictor.VelocityToDirection: a zero drift is taken to come from a last frame later than the first, so `vy` is +0 and `atan2(±0, -0)` gives "N". With the frames in the other order `vy` is -0, the source takes `atan2(±0, +0)` and reads "S". The source asks for a direction only once the speed is at least 0.3, so a zero drift never reaches it there.
- Strings are sequences of Unicode characters, while JavaScript's `length` and `slice` count UTF-16 code units. Every id, slug and timestamp handled here is ASCII, where the two agree.
- RadarIds.ReencodeIdempotent: holds only for ids of five or six characters, as `ReencodeGrowsOtherIds` shows.
