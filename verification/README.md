# Kinect depth to LED grid: a Dafny model

Four small C programs read depth frames from a Kinect camera (640 x 480 raw readings per
frame) and turn them into colours for a grid of LED strips.

- `play.c` converts each frame to millimetres and rotates it by quarter turns. It colours
  the frame with a four-band ramp and draws 25 x 50 LED pixels through a pixel map
  (`g_draw_pixels`; its display loop `g_display` does not call it, and lights the LEDs
  through the particles or the invitation pattern instead). It
  finds the altitude of the nearest depth edge in each of 25 column strips. Particles
  fall along the strips and are emitted where an edge moves. Keys tune a table of 16
  parameters.
- `record.c` stores up to 300 frames, drawing each with a six-band ramp.
- `avgdepth.c` averages the readings of each block of the lower half of the frame into
  one dimmed colour per LED.
- `particles.c` finds the top edge of each screen column, averages it per LED column and
  emits and advances particles.

The model covers the pure computations: the depth ramps, the LED wiring, the geometry
passes, the particle pool and the key handlers. It also covers the two-buffer handoff
between the camera thread and the display thread, as a sequence of steps. C's
truncating `/` and `%` and float-to-int truncation are written out in `CArith`. Floating
values are `real`.

Modules, one per file:

| module | file | models |
|---|---|---|
| `CArith` | carith.dfy | C division, remainder and truncation |
| `Pixels` | pixels.dfy | `hue_pixel`, `clamp_byte` |
| `Ramps` | ramps.dfy | the depth-to-colour ramps of all four programs |
| `Layout` | layout.dfy | serpentine wiring, play.c's mirrored pixel map |
| `LedFrame` | ledframe.dfy | `g_draw_pixels`, `g_put_pixel_ranges` |
| `Columns` | columns.dfy | `g_analyze_columns` |
| `Stats`, `Slices` | stats.dfy, slices.dfy | integer means, `k*total/parts` slicing |
| `TopEdges` | edges.dfy | the geometry pass of particles.c `depth_cb` |
| `Blocks` | blocks.dfy | avgdepth.c `depth_cb` |
| `Rotation` | rotation.dfy | the rotation switch of play.c `f_depth_callback` |
| `Handoff` | handoff.dfy | the double buffer and ready flag of play.c and record.c |
| `Recorder` | recorder.dfy | record.c `f_draw`, `f_depth_callback` |
| `ParticlePool` | particles.dfy | advancing and emitting particles in play.c and particles.c |
| `Params` | params.dfy | play.c's parameter table, `g_keypress`, `g_special` |
| `Keys` | keys.dfy | `keyPressed` of avgdepth.c and particles.c |

## Model

| member | source | states |
|---|---|---|
| Pixels.HuePixel | play.c:127-144 | the colour of a hue is a valid pixel whose channels add up to 255 |
| Pixels.Wheel | play.c:129-142 | a valid pixel whose channels add up to 255, one channel always 0 |
| Pixels.WheelIndex | play.c:129-142 | every colour of that shape comes from the wheel position it names |
| Pixels.WheelRoundTrip | play.c:129-142 | the wheel position is recovered from the colour, so the 765 positions give distinct colours |
| Pixels.WheelInjective | play.c:129-142 | two wheel positions with the same colour are the same position |
| Pixels.WheelContinuous | play.c:129-142 | one step along the wheel, including the wrap back to red, moves each channel by at most one |
| Pixels.HuePeriodic | play.c:129 | hues that differ by one give the same colour |
| Pixels.ClampByte | play.c:123-125 | the result is a byte: 0 for values at or below 0, 255 at or above 255, otherwise the value truncated |
| Pixels.ClampByteMonotone | play.c:123-125 | a larger value never gives a smaller byte |
| Pixels.ClampByteKeepsBytes | play.c:123-125 | every byte value passes through unchanged |
| Ramps.PlayLevel | play.c:489-490 | the level is in [0, 1024]: 0 at or before the near limit, 1024 exactly at or beyond the far limit, and for crossed limits only 0 or 1024 |
| Ramps.PlayLevelMonotone | play.c:489-490 | a nearer depth never gets a higher level |
| Ramps.PlayBand | play.c:491-498 | a valid pixel, never the grey fallback; white exactly at level 0 and black exactly at level 1024 |
| Ramps.PlayBandContinuous | play.c:491-498 | inside the ramp, neighbouring levels differ by at most one in each channel |
| Ramps.PlayRamp | play.c:249-259 | a valid pixel, never grey; white for every depth at or before the near limit; black exactly for depths at or beyond the far limit |
| Ramps.SixBand | record.c:149-155 | the six-band table: white exactly at level 0, black exactly from level 1535 on |
| Ramps.SixBandContinuous | record.c:149-155 | neighbouring levels differ by at most one in each channel, through the fade to black |
| Ramps.RecordLevelRange | record.c:146 | depths from 1090 leave the table, nearer depths stay below its last step, positive depths give positive levels |
| Ramps.RecordColor | record.c:146-155 | black exactly for depths of 1090 and more, white exactly for depth 0 |
| Ramps.AvgDepthLevel | avgdepth.c:231-232 | the scaled gamma level always lies inside the six bands |
| Ramps.AvgDepthColor | avgdepth.c:224-274 | depth 0 is black; otherwise the six-band colour of the level with every channel divided by 4, so at most 63 |
| Ramps.AvgDepthBlackOnlyAtBandEnd | avgdepth.c:231-273 | a nonzero depth renders black exactly when its level is in the last four steps of band 5 |
| Ramps.ParticlesColor | particles.c:261-301 | gamma values past the table render black; others render the six-band colour |
| Layout.SerpentineIndex | avgdepth.c:49 | cell (r, c) is wired into column c's block of `rows` LEDs |
| Layout.SerpentineRoundTrip | avgdepth.c:49 | the cell is recovered from its LED index |
| Layout.SerpentineInRange | particles.c:54 | every cell of a rows x cols grid maps into [0, rows*cols) |
| Layout.SerpentineOnto | particles.c:54 | every LED index of the grid is wired to some cell, so the wiring is a bijection |
| Layout.SerpentineInjective | avgdepth.c:49 | distinct cells get distinct LEDs |
| Layout.SerpentineContiguous | avgdepth.c:49 | consecutive LEDs sit in neighbouring cells |
| Layout.MirrorColumn | play.c:299 | the mirrored column stays in [0, 25) and is 24 - c exactly when flipped |
| Layout.MirrorInvolution | play.c:299 | mirroring twice restores the column |
| Layout.PlayFlipMirrors | play.c:299 | with the flip, cell c addresses what cell 24 - c addresses without it |
| LedFrame.SampleIndex | play.c:488 | the sample under every grid cell lies in the frame |
| LedFrame.DrawPixels | play.c:477-506 | 1250 pixels, all valid, for any float `r_shift`; `g_display` (play.c:578-637) never calls this function |
| LedFrame.DrawPixelsPlaced | play.c:486-503 | with a map that gives every cell its own LED, the LED in row trunc(r + r_shift) of column c shows the ramp colour of cell (r, c) when r is the last row of the column landing there |
| LedFrame.DrawPixelsRowDark | play.c:485-503 | an LED row that no cell row lands on stays black |
| LedFrame.DrawPixelsWholeShift | play.c:499-502 | with a whole shift k, the LED of cell (r + k, c) shows the sample under cell (r, c) |
| LedFrame.DrawPixelsTenthBelow | play.c:499-502 | with `r_shift` = -0.1, rows 0 and 1 both land on LED row 0, which shows row 1, and LED row 49 stays black |
| LedFrame.DrawPixelsUnmappedDark | play.c:485-503 | an LED the map assigns to no cell stays black |
| LedFrame.PutPixelRanges | play.c:301-323 | with no ranges the 1250 pixels go out unchanged; otherwise the output is as long as all spans together, at most 5000 |
| LedFrame.OffsetBound | play.c:307-318 | each range ends within the output |
| LedFrame.Segment | play.c:310-316 | a range contributes as many pixels as its span |
| LedFrame.Composite | play.c:307-318 | the output is as long as all spans together |
| LedFrame.CompositePixel | play.c:307-318 | position k of range i's segment sits at output position Offset(i) + k |
| LedFrame.CompositePlacement | play.c:307-318 | range i occupies output positions [Offset(i), Offset(i) + span) and holds its segment there |
| LedFrame.RangePixel | play.c:310-316 | output position Offset(i) + k holds pixels[start + k] for a forward range and black for any other |
| Columns.WindowFits | play.c:516-533 | the window lies in the frame; each strip lies in the window and spans at most 28 columns, so the 50-entry sample array cannot overflow |
| Columns.StripsAbut | play.c:533 | neighbouring strips leave no gap and share at most one column |
| Columns.StripsCoverWindow | play.c:533 | the first strip starts at the window's left edge and the last ends at its right edge |
| Columns.FirstOutOfRange | play.c:534-537 | every row before the result is in range, and the result is out of range unless it is `max_y` |
| Columns.ScanFrom | play.c:538-551 | any result is a row before `max_y`, and a newly found one is at or after the scan start with its depth in range |
| Columns.Candidate | play.c:538-551 | a candidate is a row strictly inside the window whose depth is in range |
| Columns.CandidateNearest | play.c:533-554 | the candidate is a jump, no jump is nearer, earlier jumps are strictly farther, and there is none exactly when no row jumps |
| Columns.StripSamples | play.c:533-555 | at most one sample per screen column, each with altitude in [0, 479] and depth in range |
| Columns.SortByAltitude | play.c:557 | sorted by altitude, and a permutation of the samples |
| Columns.Discard | play.c:529-530 | at least 1, and otherwise the truncation of x_width / 250 |
| Columns.Summarize | play.c:556-571 | too few samples give the all-zero record; otherwise the altitude lies between the first and last kept altitude, and depth_mm is the depth in metres times 1000, truncated |
| Columns.SummaryInRange | play.c:556-566 | valid samples average to altitude in [0, 479] and depth strictly inside (min_depth, max_depth) |
| Columns.AnalyzeColumn | play.c:531-572 | a strip record has altitude in [0, 479]; it is the all-zero record or has depth strictly inside (min_depth, max_depth); depth 0 exactly for the all-zero record |
| Columns.AnalyzeColumns | play.c:514-573 | 25 records, each altitude in [0, 479] |
| Slices.SliceStart | particles.c:417 | the boundary is the quotient of k*total by parts, rounded down, and no boundary up to the last passes the total |
| Slices.SliceEnds | avgdepth.c:302 | the slices start at 0 and the last ends at the total |
| Slices.Owner | particles.c:417 | every item lies in some slice |
| Slices.OwnerUnique | particles.c:417 | and in no other |
| TopEdges.TopEdge | particles.c:400-410 | a row of the frame |
| TopEdges.TopEdgeIsLast | particles.c:397-411 | the top is the largest edge row; it is 0 exactly when the column has no edge |
| TopEdges.TopYs | particles.c:397-411 | one top per screen column, each a frame row |
| TopEdges.TopYsLastEdge | particles.c:397-411 | each column's top is its last edge row, and 0 exactly when it has none |
| TopEdges.PairScanAgrees | particles.c:401-410 | from any row on, the loop that stores `top_ys[x]` and `top_depths[x]` together finds the same top as the scan over metres, and its depth is the raw reading at that top, 0 when there is none |
| TopEdges.ColumnPassAgrees | particles.c:398-410 | one column of the pass: its top is the column's last edge row and its depth the raw reading there |
| TopEdges.TopPassMatches | particles.c:397-411 | the pass as written yields exactly `top_ys` = TopYs and `top_depths` = the raw reading at each top, 0 without one |
| TopEdges.Counted | particles.c:417-423 | exactly the counted columns of the slice, in increasing order |
| TopEdges.AverageSlice | particles.c:413-428 | the slice's top is a frame row; 0, with depth 0, exactly when no column of the slice counts |
| TopEdges.AverageSliceWithin | particles.c:413-428 | any bounds that hold for every counted top hold for the average |
| TopEdges.SlicesPartitionColumns | particles.c:417 | a column lies in slice c exactly when c is its owner |
| Blocks.PreviewFrame | avgdepth.c:289-295 | readings at or past `max_depth`, and reading 0, are black; the others get their dimmed six-band colour |
| Blocks.BlockOf | avgdepth.c:302-303 | every block lies in the lower half of the frame |
| Blocks.BlocksPartition | avgdepth.c:302-303 | a pixel of the lower half lies in block (r, c) exactly when r and c own its row and column |
| Blocks.BlockVisitsEveryPixel | avgdepth.c:302-305 | each pixel of a block is visited, at position (x - x0) * h + (y - y0) |
| Blocks.Below | avgdepth.c:304-308 | every kept reading is below `max_depth` and every reading below it is kept |
| Blocks.BelowCounts | avgdepth.c:304-308 | each reading below `max_depth` is kept as many times as it occurs, and no other reading is kept |
| Blocks.BlockAverage | avgdepth.c:300-314 | 0 when nothing counts; otherwise a reading nearer than `max_depth` that indexes the gamma table |
| Blocks.BlockAverageWithin | avgdepth.c:300-312 | any bounds that hold for every counted reading hold for the average |
| Blocks.BlockColor | avgdepth.c:314 | a dimmed valid colour, black when the block has no reading nearer than `max_depth` |
| Rotation.SourceIndex | play.c:754-789 | for every rotation and allowed y_shift, the source index lies in the frame |
| Rotation.Rotate | play.c:754-789 | rotation 0 converts in place, rotation 2 reverses the frame, the quarter turns zero the columns outside [80, 560), and an unhandled rotation leaves the buffer as it was |
| Rotation.QuarterTurnSource | play.c:761-768 | inside the square, rotation 1 reads raw row x - 80 from right to left |
| Rotation.HalfTurnSource | play.c:770-777 | pixel (x, y) of rotation 2 reads raw pixel (639 - x, 479 - y) |
| Rotation.HalfTurnInvolution | play.c:770-777 | the half turn applied twice gives back the frame |
| Rotation.QuarterTurnInjective | play.c:761-786 | the quarter turns never read one raw sample for two destinations |
| Rotation.ThreeQuarters | play.c:779-786 | rotation 3 equals rotation 1 followed by the half turn |
| Rotation.DepthCallback | play.c:746-792 | paused, nothing changes; otherwise the display keeps its frame until it swaps, and after the swap it shows the remapped frame |
| Rotation.UnknownRotationHandsOverStale | play.c:754-790 | an unhandled rotation still raises the flag, so the display is handed the stale buffer |
| Handoff.Start | play.c:24-37 | the two buffers are distinct and nothing is ready |
| Handoff.Produce | record.c:170-171 | the camera side's buffer holds the new frame, the flag is up, and the displayed frame is unchanged |
| Handoff.Consume | record.c:67-73 | with a frame ready the pointers swap and the flag drops; with none, nothing changes |
| Handoff.ConsumeShowsProduced | play.c:587-594 | after a swap the display reads the frame just produced |
| Handoff.LatestWins | play.c:587-594 | of two frames produced before the display looks, only the later is shown |
| Handoff.ReplayKeepsBuffersApart | record.c:66-73 | under any interleaving the pointers keep naming the two different buffers, and the flag is down after a consumption |
| Recorder.DrawFrame | record.c:144-158 | every pixel is valid; black exactly where the reading is 1090 or more, white exactly where it is 0 |
| Recorder.DrawFramePointwise | record.c:144-158 | pixel i depends on reading i alone |
| Recorder.Callback | record.c:160-174 | a frame is stored while fewer than 300 are held, otherwise quitting is requested; either way it is drawn and handed to the display |
| Recorder.Capture | record.c:160-168 | after any run of callbacks the store holds at most 300 frames and the two buffers stay distinct |
| Recorder.CaptureKeepsFirstFrames | record.c:160-174 | the store is the first frames up to the free room, and quitting is requested exactly when more frames arrived than fit |
| Recorder.RecordingFromStart | record.c:160-168 | from an empty store, the recording is the first 300 frames, and quitting is requested exactly when more arrived |
| Recorder.CaptureShowsLast | record.c:170-171 | the display is handed the drawing of the last frame, stored or not |
| ParticlePool.Friction | particles.c:328-330 | for a nonnegative friction: no sign change and no speed-up, a velocity within the friction stops, a faster one slows by exactly the friction |
| ParticlePool.FrictionForms | play.c:289 | play.c's single-increment friction equals particles.c's three-way form |
| ParticlePool.Step | particles.c:326-330 | with nonnegative friction the speed never grows and the direction never flips; with a decay in [0, 1] a nonnegative brightness stays in [0, val]; column and colour unchanged |
| ParticlePool.Survivors | particles.c:331-335 | no more particles than before, all alive |
| ParticlePool.SurvivorsConcat | play.c:283-296 | the survivors of a concatenation are the concatenation of the survivors |
| ParticlePool.SurvivorsPermutation | play.c:283-296 | pools with the same contents have the same survivors |
| ParticlePool.Advance | play.c:283-296 | the swap-with-last walk leaves exactly the survivors, in some order, all alive |
| ParticlePool.EmitCapped | play.c:460-461 | the pool is kept as a prefix and never grows past 2000 |
| ParticlePool.EmitCappedTakesPrefix | play.c:456-474 | the capped emission appends the first offers, in column order, as many as the free slots allow |
| ParticlePool.EmitUncappedAppendsAll | particles.c:370-385 | without the capacity check every offer is appended |
| ParticlePool.PlayOffer | play.c:457-469 | a particle exactly when both frames saw the column and the speed exceeds `emit_min_v`; its row is 40 - altitude*20/480 and its brightness grows with the speed |
| ParticlePool.PlayEmit | play.c:449-475 | the pool is kept as a prefix and never grows past 2000 |
| ParticlePool.AnalyzeColumnsReady | play.c:556-571 | every record of `g_analyze_columns` with a set altitude has a positive depth, so it can feed the emission |
| ParticlePool.EmitFromFrame | play.c:597-600 | the emission fed by this frame's records keeps the pool as a prefix and within 2000 |
| ParticlePool.ParticlesOfferAsWritten | particles.c:371-382 | a particle exactly when both frames saw the column and the motion exceeds `min_emit_vr`; the brightness is the signed motion times `emit_value` |
| ParticlePool.ParticlesOffer | particles.c:371-382 | the same gate; the particle starts at the bottom row, and its brightness is the speed times `emit_value`, never negative |
| ParticlePool.ParticlesEmitAsWritten | particles.c:366-387 | every offer is appended, with no capacity check |
| ParticlePool.ParticlesEmit | particles.c:366-387 | the corrected emission appends the first offers that fit and never grows the pool past 2000 |
| ParticlePool.EmitOverflowWitness | particles.c:373-374 | a full pool and one moving column push the pool past 2000 |
| ParticlePool.NegativeBrightnessWitness | particles.c:381 | an edge that moved up emits a particle with negative brightness, which the next advance removes |
| ParticlePool.PositiveBrightness | particles.c:381 | with the brightness taken from the speed, the same particle survives the advance |
| Params.InitialWellFormed | play.c:55-76 | 16 parameters, each with its value in bounds and each cyclic one whole and within its cycle |
| Params.Magnitude | play.c:681 | the step is scaled by 10 with shift, by 0.1 with control, by 1 with both or neither |
| Params.StepUp | play.c:683-688 | only the value changes, and it never exceeds the maximum |
| Params.StepDown | play.c:689-695 | only the value changes, and it never drops below the minimum |
| Params.StepsKeepWellFormed | play.c:683-695 | stepping either way keeps a well-formed parameter well formed, so within its bounds |
| Params.CyclicSteps | play.c:684-693 | a cyclic parameter at k steps to (k + 1) mod m and (k - 1) mod m |
| Params.CyclicInverse | play.c:684-693 | on a cyclic parameter, up and down undo each other |
| Params.CyclicOrbit | play.c:684-685 | n presses of up from k reach (k + n) mod m |
| Params.SelectPrevious | play.c:696-698 | the previous parameter, wrapping from the first to the last |
| Params.SelectNext | play.c:699-701 | the next parameter, wrapping from the last to the first |
| Params.SelectionInverse | play.c:696-701 | left and right undo each other |
| Params.PressSpecial | play.c:677-704 | only the selected parameter changes, and only its value; left and right change only the selection |
| Params.Press | play.c:641-675 | escape requests quitting, space toggles the pause, and only `= + - _ [ ]` touch the parameters |
| Params.EqualDepthLimitsReachable | play.c:56-57 | nine shift-`+` presses on `min_depth`, `]`, and seven on `max_depth` leave both at 9.0, so the ramp's limits can be equal |
| Params.KeysKeepParamsInRange | play.c:677-704 | from the initial table, any keys keep every parameter in bounds, so cam_rot is a whole number in [0, 3] and y_shift is in [-80, 80] |
| Keys.Tilt | avgdepth.c:124-138 | `w` and `x` move the tilt by one, clamped at ±30; `s` levels it; other keys leave it |
| Keys.AvgDepthPress | avgdepth.c:115-168 | escape quits; otherwise tilt, and `[` / `]` move the depth cut-off by one |
| Keys.AvgDepthRunInvariant | avgdepth.c:115-168 | the tilt stays in [-30, 30]; without escape, the cut-off moves by the count of `]` minus the count of `[` |
| Keys.AvgDepthTiltBounded | avgdepth.c:124-138 | from the start, any keys keep the tilt in [-30, 30] |
| Keys.Tune | particles.c:182-199 | keys outside the tuning set change nothing; `s` and `x` raise and lower the friction |
| Keys.ParticlesPress | particles.c:134-205 | escape quits; otherwise tilt and then the knob switch |
| Keys.ParticlesRunTilt | particles.c:134-180 | any keys keep the tilt in [-30, 30] |
| Keys.ParticlesTiltBounded | particles.c:134-180 | from the start, any keys keep the tilt in [-30, 30] |
| Keys.FrictionGoesNegative | particles.c:188-189 | six presses of `x` make the friction negative, and a negative friction speeds particles up |

## Left out

- Window, OpenGL drawing, GLUT callbacks and the preview textures are left out. They only display data.
- pthread mutexes and condition variables are left out. The handoff is modelled as a sequence of steps, not as threads.
- libfreenect setup, LED colour keys and tilt commands are left out. They are device I/O.
- The OPC network sink is left out. The model stops at the pixels handed to `opc_put_pixels`.
- Reading `map.txt` and `ranges.txt`, and saving and loading `.params` files (the digit keys of `g_keypress`), are left out. They are file I/O. A loaded file could hold values outside the bounds; `Params.KeysKeepParamsInRange` covers only the keys.
- record.c writing the frames to disk and the time stamp stored with each frame are left out. Both are I/O and the clock.
- The playback loop that feeds recorded frames back in is left out.
- Frame-rate timing and the status printing are left out.
- `depth_to_mm` (play.c) and `depth_m` (particles.c) are floating point. They are parameters.
- The `t_gamma` table is a parameter, since it is built with `pow`.
- The hue formula of play.c's emission is a parameter.
- play.c's full-frame preview drawn by `g_draw_frame`, its dimming outside the window, the brightness falloff and the texture upload are left out. They are display only. The ramp `g_draw_frame` applies to each reading is modelled (`Ramps.PlayRamp`).
- The idle invitation pattern is left out. It is display only.
- particles.c `draw_particles` and play.c's particle drawing are left out. They blend floating colours into pixels; `Pixels.ClampByte` and `Pixels.HuePixel` cover the byte conversions they use.
- avgdepth.c's blend of each block colour with the previous frame's is left out. It is floating point.
- Float rounding is left out: floats are `real`, so float values are exact. For example, `hue - floor(hue)` rounding up to 1.0 is not modelled.
- Rotation.DepthCallback: `y_shift` is a `float` parameter in the source; it is modelled as an `int` within [-80, 80].
- ParticlePool.Friction: its properties assume a nonnegative friction. particles.c lets the friction go negative (`Keys.FrictionGoesNegative`).
- Columns.Summarize: `qsort` is not stable and `compare_samples` compares altitudes only. The model sorts with one stable order. The kept altitudes, and so the altitude, are the same in every order. `depth_m` and `depth_mm` are not: when samples with equal altitudes straddle a discard boundary, `qsort` may keep a different one. For example, with discard 1 and two lowest samples (altitude 1, 1.0 m) and (altitude 1, 2.0 m), either may be dropped. The model's depth is that of the stable order only.
- Columns.AnalyzeColumn: assumes the parameters are within their table bounds (play.c:56-67). Only loaded parameter files can break that.
- Blocks.BlockAverage: the float running sum `avg` is taken as exact. A float sums 11-bit readings exactly only up to 8192 of them (2^24 / 2048). A coarse grid makes larger blocks, whose sum the source would round.
- Ramps.PlayLevel, Ramps.PlayRamp and LedFrame.DrawPixels require `min_mm != max_mm`. play.c does not ensure it. `g_draw_frame` (play.c:251) and `g_draw_pixels` (play.c:490) divide by `max_mm - min_mm`, so equal limits divide by zero. The keys can make the limits equal (`Params.EqualDepthLimitsReachable`), and `g_display` draws the frame on every pass (play.c:620). The model says nothing about that case.
- LedFrame.DrawPixels: requires the pixel map to name LEDs in [0, 1250). play.c does not check the entries of `map.txt`.
- LedFrame.PutPixelRanges: requires each range to stay inside the 1250 pixels and all spans to fit the 5000-pixel output. play.c does not check `ranges.txt`.
- particles.c reads `val_decay` from the keys but never uses it. The advance uses the literal 0.95 (`ParticlePool.ParticlesDecay`).

## Findings

| source | as written | input that shows it | evidently intended | confidence | as-written member | corrected member |
|---|---|---|---|---|---|---|
| particles.c:373-374 | `emit_particles` pushes a particle without checking `num_particles < MAX_PARTICLES` | a pool of 2000 particles and one column whose edge moved by 100 rows | push only while the pool has room, as play.c:460 does | high; not executed | ParticlePool.EmitOverflowWitness | ParticlePool.ParticlesEmit |
| particles.c:381 | the brightness is `vr*emit_value`, negative when the edge moved up | an edge moving from row 200 to row 100 gives brightness -3, and `advance_particles` removes the particle before it is drawn | brightness from the speed, `fabs(vr)*emit_value`, as play.c:467 does | medium; not executed | ParticlePool.NegativeBrightnessWitness | ParticlePool.PositiveBrightness |
