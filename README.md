# stcal ramp-fitting utilities and two-point jump detection, in Dafny

This project models the core of stcal's ramp fitting and jump detection
for JWST up-the-ramp data, and proves properties of that model:

- the segment bookkeeping of `calc_slope_vars`:
  - the read scan that measures each pixel's segment lengths;
  - the cut to `max_seg` slots;
  - `remove_bad_singles`;
  - the floor of 1 used for the Poisson variance;
- the cosmic-ray magnitude compression `OptRes.shrink_crmag`;
- the DQ combinations `dq_compress_final`, `dq_compress_sect`,
  `reset_bad_gain` and `fix_sat_ramps`;
- the array helpers `shift_z` and `compute_slices`;
- from the two-point difference jump detector:
  - the median of first differences `calc_med_first_diffs`;
  - the whole of `find_crs`: its per-pixel iterative clipping, the
    write-back of the jump flags and the flagging of the four neighbours.

The model uses these representations:

- **DQ word.** A DQ word (an unsigned 32-bit flag word) is a `set<nat>` of
  its set bit positions. Bitwise OR is union, and "flag set" is membership.
- **NaN.** A floating-point value that may be NaN is an `Option`, where
  `None` is NaN. Numeric values are `real`.
- **Arrays.** numpy arrays are sequences. Each pixel's vector along the
  group or segment axis is one element of an outer sequence of pixels,
  taken in row-major order. The mutated segment cube of
  `remove_bad_singles` is an `array` of per-pixel vectors. The group DQ
  cube of `find_crs` and its two extra rows are Dafny arrays updated in
  place.
- **Flag positions.** The bit positions of the named flags are carried in a
  `DqFlags` value. This is the flag dictionary `ramp_data.flags_*` and
  `dqflags` of the source.
- **Supplied operations.** The square root used for the noise estimate
  `sigma` is a function supplied with the configuration, `JumpSpec.Config`.
  No property of it is assumed.
- **Infinite ratios.** Inside the clipping loop of `find_crs`, a ratio
  over a zero `sigma` is +inf for a difference off the median. The loop's
  ratios are `JumpClip.LoopRatio` values, finite or infinite, with NaN as
  `None`.

Modules, one per file:

| file | module | models |
|---|---|---|
| common.dfy | Common | Option, DQ words, flag positions, sums |
| segments.dfy | Segments | the read loop of `calc_slope_vars` |
| slope_segments.dfy | SlopeSegments | the cut, the floor and the whole segment step of `calc_slope_vars` |
| bad_singles.dfy | BadSingles | `remove_bad_singles` |
| opt_res.dfy | OptResults | the `OptRes` class and `shrink_crmag` |
| cr_magnitudes.dfy | CrMagnitudes | the compression of `shrink_crmag` as a function, and its defect |
| dq_combine.dfy | DqCombine | `dq_compress_final`, `dq_compress_sect`, `reset_bad_gain`, `fix_sat_ramps` |
| ramp_utils.dfy | RampUtils | `compute_slices`, `shift_z` |
| jump_median.dfy | JumpMedian | `calc_med_first_diffs`, the median, `nanargmax` |
| jump_clip.dfy | JumpClip | the per-pixel clipping loop of `find_crs` |
| jump_spec.dfy | JumpSpec | what `find_crs` computes, as functions of its inputs |
| jump_detect.dfy | JumpDetect | `find_crs` as an in-place method over the group DQ cube |

## Model

| member | source | states |
|---|---|---|
| Segments.ScanPixel | src/stcal/ramp_fitting/utils.py:518-554 | After any number of reads a pixel's segment vector has one slot per read. The index of the segment being filled never passes the number of reads scanned and stays inside the vector. |
| Segments.ScanStep | src/stcal/ramp_fitting/utils.py:528-550 | One read of one pixel. A good group lengthens the current segment, and a jump before the last read opens the next segment and counts there. Any other group changes nothing. `Segments.ScanStepSum` states the effect on the total. |
| Segments.ScanStepSum | src/stcal/ramp_fitting/utils.py:528-543 | One read adds exactly 1 to the pixel's total length when the group is good (DQ 0) or opens a new segment, and adds nothing otherwise. |
| Segments.ScanSum | src/stcal/ramp_fitting/utils.py:518-554 | The segment lengths of a pixel add up to the number of reads the scan counts: good groups plus segment-opening jumps. |
| Segments.ScanShape | src/stcal/ramp_fitting/utils.py:522-543 | The segment index equals the number of segment-opening jumps so far. Every segment opened by a jump has length at least 1. The slots after the current one are still 0. |
| Segments.ScanSumBound | src/stcal/ramp_fitting/utils.py:518-554 | The lengths never add up to more than the reads scanned. |
| Segments.ScanIgnoresSaturatedTail | src/stcal/ramp_fitting/utils.py:547-550 | When saturation is sticky, the reads after a pixel's first saturated group leave its scan state unchanged. |
| Segments.StopRead | src/stcal/ramp_fitting/utils.py:527 | The loop stops at a read between the start and the last read. |
| Segments.StopReadAllDone | src/stcal/ramp_fitting/utils.py:527 | A stop before the last read means every pixel has met a saturated group. |
| Segments.DoneStep | src/stcal/ramp_fitting/utils.py:547-550 | A pixel is done after read i exactly when it was done before or group i is saturated. |
| Segments.ScanRead | src/stcal/ramp_fitting/utils.py:528-550 | The vectorised statements of one read, applied to one pixel, perform exactly one step of the scan. The pixel's not-done mark is cleared exactly when the group is saturated (NaN). |
| Segments.ScanReadAll | src/stcal/ramp_fitting/utils.py:528-552 | One pass of the loop body moves every pixel's state from read i to read i+1 of its scan. |
| Segments.NotDoneMeansNotAllDone | src/stcal/ramp_fitting/utils.py:527 | `np.any(pix_not_done)` holds exactly when some pixel has not yet met a saturated group. |
| Segments.ScanStart | src/stcal/ramp_fitting/utils.py:519-525 | The zero lengths, zero indices and all-true not-done marks are the loop state before any read. |
| Segments.ScanRound | src/stcal/ramp_fitting/utils.py:527-554 | One round of the loop, taken while some pixel is not done, keeps the loop state exact for the next read. |
| Segments.ScanExit | src/stcal/ramp_fitting/utils.py:527 | When the loop condition fails, the current read is where the scan stops, so the vectors are the scan up to that read. |
| Segments.ScanSegments | src/stcal/ramp_fitting/utils.py:518-554 | The read loop returns, for every pixel, the segment lengths of its scan up to the read where the loop stops: the last read, or the first read by which every pixel is saturated. |
| Segments.ScanStopsEarly | src/stcal/ramp_fitting/utils.py:527 | For a pixel with sticky saturation, stopping early gives the same state as scanning every read. |
| Segments.ScanStopsEarlyAll | src/stcal/ramp_fitting/utils.py:527 | When every pixel's saturation is sticky, the early stop of the loop changes no pixel's segments. |
| SlopeSegments.Truncate | src/stcal/ramp_fitting/utils.py:557 | `segs[:max_seg]` keeps exactly the first `max_seg` slots. |
| SlopeSegments.TruncateKeepsAll | src/stcal/ramp_fitting/utils.py:557 | When the pixel opened fewer segments than `max_seg`, the cut loses no counted read. |
| SlopeSegments.TruncateBound | src/stcal/ramp_fitting/utils.py:557 | The cut never adds groups. |
| SlopeSegments.LessOne | src/stcal/ramp_fitting/utils.py:565-568 | Each length greater than 1 is lowered by one, and every other length becomes the floor of 1. |
| SlopeSegments.CalcSegments | src/stcal/ramp_fitting/utils.py:518-568 | The reshape to `max_seg` slots fails exactly when `max_seg` exceeds the reads and some pixel exists. Otherwise every pixel's vector has `max_seg` slots and no bad single. Its long segments are those of the cut, in order, and its total has not grown. A total of at most 1 leaves the vector unchanged. An all-single pixel keeps exactly one single. The entries other than 1 keep their order, with one zero at the end per deleted single. A pixel with a long segment is exactly its cut's entries other than 1 followed by zeros. The floored copy is `LessOne` of the result. |
| BadSingles.RemoveAtShape | src/stcal/ramp_fitting/utils.py:1171-1175 | Deleting slot k keeps the earlier slots, moves each later slot left by one and zeroes the last slot. |
| BadSingles.RemoveAtSum | src/stcal/ramp_fitting/utils.py:1171-1175 | Deleting a one-group slot lowers the pixel's total by exactly 1. |
| BadSingles.RemoveAtLong | src/stcal/ramp_fitting/utils.py:1171-1175 | Deleting a one-group slot keeps the long segments, in order. |
| BadSingles.RemoveAtOnes | src/stcal/ramp_fitting/utils.py:1171-1175 | Deleting a one-group slot leaves exactly one fewer one-group segment. |
| BadSingles.BadSingleWitness | src/stcal/ramp_fitting/utils.py:1148-1164 | A pixel counts towards `tot_num_single_grp_ramps` exactly when it has a one-group slot and a different non-empty slot, which is the pair condition the loop tests. This holds in both directions. |
| BadSingles.PairStepReduces | src/stcal/ramp_fitting/utils.py:1164-1175 | One comparison keeps the invariant of the removal relative to the original vector. When it fires, it strictly lowers the pixel's total. |
| BadSingles.NoBadEntries | src/stcal/ramp_fitting/utils.py:1148-1151 | A count of zero means that no pixel has a one-group segment while its total exceeds 1. |
| BadSingles.SomeBadEntry | src/stcal/ramp_fitting/utils.py:1148-1151 | A positive count names a pixel that still needs a removal. |
| BadSingles.TotalSumDrops | src/stcal/ramp_fitting/utils.py:1151 | When no pixel's total grows the overall total does not grow, and when one pixel's total drops the overall total drops. This is the termination measure of the `while` loop. |
| BadSingles.RemovePair | src/stcal/ramp_fitting/utils.py:1160-1175 | One comparison of slot `ii_0` with slot `ii_1` deletes slot `ii_0` in exactly the pixels where it is 1 and slot `ii_1` is positive. `found` is true exactly when some pixel matched (`len(wh_y) != 0`). |
| BadSingles.PairKeepsReduced | src/stcal/ramp_fitting/utils.py:1164-1175 | A comparison over every pixel keeps each pixel a reduction of its original and grows no pixel's total. |
| BadSingles.PairDropsTotal | src/stcal/ramp_fitting/utils.py:1164-1175 | A comparison that fires in some pixel lowers the overall total. |
| BadSingles.PairProgress | src/stcal/ramp_fitting/utils.py:1164-1180 | After one comparison the pass state holds again. The count is recomputed only when something was removed, and a comparison that removed nothing changes nothing. |
| BadSingles.PairFound | src/stcal/ramp_fitting/utils.py:1170-1180 | A comparison that fires keeps the pass state, with the recomputed count and a lowered total. |
| BadSingles.PairNone | src/stcal/ramp_fitting/utils.py:1166-1168 | A comparison that fires nowhere leaves every pixel unchanged. |
| BadSingles.CheckedPair | src/stcal/ramp_fitting/utils.py:1156-1168 | A pass that has changed nothing extends its record of checked slot pairs by one. |
| BadSingles.CheckedRow | src/stcal/ramp_fitting/utils.py:1153-1156 | Checking every `ii_1` for one `ii_0` completes that row of pairs. |
| BadSingles.CheckedAll | src/stcal/ramp_fitting/utils.py:1151-1156 | A pass in which every pair was checked without any removal leaves a count of zero. |
| BadSingles.RemoveSlot | src/stcal/ramp_fitting/utils.py:1153-1180 | The inner loop over `ii_1` for one `ii_0` keeps the pass state and the slot count. If nothing changed, every pair in that row has been checked. |
| BadSingles.RemoveBadSingles | src/stcal/ramp_fitting/utils.py:1123-1182 | Every pixel ends `Cleaned` relative to its old vector. No one-group segment remains while the total exceeds 1, and the long segments are kept in order. The total has not grown, and a total of at most 1 leaves the vector unchanged. An all-single pixel keeps exactly one single. The entries other than 1 keep their order, with one empty slot at the end per deleted single. A pixel with a long segment therefore ends as exactly its entries other than 1, followed by zeros. |
| BadSingles.RemovePass | src/stcal/ramp_fitting/utils.py:1151-1180 | One pass of the `while` loop keeps the invariant and lowers the overall total when the count was positive, so the loop ends. |
| BadSingles.PairTurn | src/stcal/ramp_fitting/utils.py:1156-1180 | One `ii_1` turn keeps the pass state. If nothing has changed, it extends the checked pairs by one. |
| BadSingles.RemoveAtReduces | src/stcal/ramp_fitting/utils.py:1164-1175 | Deleting a one-group slot that has another non-empty slot beside it keeps the invariant relative to the original vector, and lowers the total. |
| BadSingles.PairNeedsTwo | src/stcal/ramp_fitting/utils.py:1164 | When the pair condition fires, the total is at least 2. Without a long segment there are at least two singles. |
| BadSingles.RemoveAtZeros | src/stcal/ramp_fitting/utils.py:1171-1175 | Each deletion turns one more single into a trailing empty slot. The other entries stay in their original order. |
| BadSingles.FinalVector | src/stcal/ramp_fitting/utils.py:1151-1182 | A pixel that keeps the removal's invariant and has no bad single left is `Cleaned`. In particular, a pixel with a long segment is its original entries other than 1, in order, followed by one zero per original single. For example, `[0, 3, 1]` becomes `[0, 3, 0]`. |
| BadSingles.RemoveAtNonOnes | src/stcal/ramp_fitting/utils.py:1171-1175 | Deleting a one-group slot keeps every other entry in order and adds one empty slot at the end. |
| BadSingles.NonOnesNoOnes | src/stcal/ramp_fitting/utils.py:1151-1182 | A vector without one-group segments is its own list of entries other than 1. |
| BadSingles.FinalOnes | src/stcal/ramp_fitting/utils.py:1151-1180 | At the end of the removal a pixel keeps exactly one one-group segment if it had only one-group segments, and none otherwise. |
| DqCombine.CompressFinal | src/stcal/ramp_fitting/utils.py:1413 | The combined DQ image has the shape of one integration's image: one word per pixel. |
| DqCombine.FinalPixel | src/stcal/ramp_fitting/utils.py:1413-1430 | The final word of one pixel: the OR over the first `max(n_int, 1)` integrations, with DO_NOT_USE cleared unless every integration has it. `DqCombine.FinalKeepsOtherBits` and `DqCombine.FinalDoNotUse` state both parts. |
| DqCombine.OrPrefixHas | src/stcal/ramp_fitting/utils.py:1413-1417 | A flag is set in the OR over the first k integrations exactly when some one of them has it. |
| DqCombine.DnuCountAll | src/stcal/ramp_fitting/utils.py:1424-1427 | The per-pixel DO_NOT_USE count is at most the integrations counted. It equals their number exactly when every one of them has DO_NOT_USE. |
| DqCombine.FinalKeepsOtherBits | src/stcal/ramp_fitting/utils.py:1413-1432 | Every flag other than DO_NOT_USE is set in a pixel's final DQ exactly when one of the first `max(n_int, 1)` integrations has it. |
| DqCombine.FinalDoNotUse | src/stcal/ramp_fitting/utils.py:1419-1430 | When every integration is combined, DO_NOT_USE survives exactly when every integration has it. One good integration clears it. |
| DqCombine.DqCompressFinal | src/stcal/ramp_fitting/utils.py:1393-1432 | The IndexError case (empty cube, or `n_int` beyond the cube) gives `None` and leaves the cube alone. Otherwise the result is `CompressFinal` of the input cube. With `n_int <= 1` the first integration's image, a view, is overwritten with the result. With more integrations the cube is unchanged. |
| DqCombine.SectPixelBits | src/stcal/ramp_fitting/utils.py:1462-1471 | The section update never clears a bit. SATURATED ends up set exactly when the pixel had it or some group is saturated, and JUMP_DET likewise for jumps. Every other bit is unchanged. |
| DqCombine.DqCompressSect | src/stcal/ramp_fitting/utils.py:1435-1473 | Every pixel of the section's pixel DQ becomes its one-pixel update from that pixel's group DQ. |
| DqCombine.SectPixel | src/stcal/ramp_fitting/utils.py:1462-1471 | The section update of one pixel. `DqCombine.SectPixelBits` states which bits it sets. |
| DqCombine.GainPixelBits | src/stcal/ramp_fitting/utils.py:1108-1118 | A pixel ends up with NO_GAIN_VALUE, and with DO_NOT_USE, exactly when its gain is non-positive or NaN or it had the flag already. A pixel with a usable gain keeps its word, and no bit is cleared. |
| DqCombine.ResetBadGain | src/stcal/ramp_fitting/utils.py:1084-1120 | Every pixel of the pixel DQ image becomes its one-pixel gain update. |
| DqCombine.GainPixel | src/stcal/ramp_fitting/utils.py:1108-1118 | The gain update of one pixel. `DqCombine.GainPixelBits` states which bits it sets. |
| DqCombine.FixSatRamps | src/stcal/ramp_fitting/utils.py:1185-1243 | Where the initial group is saturated, both variances become LARGE_VARIANCE, the slope 0 and the DQ word gains DO_NOT_USE. Every other pixel keeps all four values. |
| RampUtils.ComputeSlices | src/stcal/ramp_fitting/utils.py:1360-1390 | The number of slices is at least 1 and at most the number of cores. |
| RampUtils.ComputeSlicesCases | src/stcal/ramp_fitting/utils.py:1377-1389 | Gives 1 for 'none', `max(cores // 4, 1)` for 'quarter', `max(cores // 2, 1)` for 'half' and every core for 'all'. Any other setting gives 1. |
| RampUtils.ComputeSlicesMonotone | src/stcal/ramp_fitting/utils.py:1377-1389 | A larger fraction never gives fewer slices, and a setting never gives more slices on a machine with fewer cores. |
| RampUtils.NormSlice | src/stcal/ramp_fitting/utils.py:902 | numpy's slice-bound normalisation: a bound inside the axis is kept, one past the end is clipped to the length, and a negative one counts from the end and is clipped at 0. |
| RampUtils.SliceAssign | src/stcal/ramp_fitting/utils.py:902 | numpy's `b[lo:hi] = src`: it succeeds exactly when the source has the slice's length or has length 1, which numpy broadcasts over the slice (an empty one included). On success the result keeps the target's length, holds the source (or its one entry repeated) inside the normalised slice, and keeps `b` outside it. |
| RampUtils.ShiftZ | src/stcal/ramp_fitting/utils.py:874-904 | A shifted cube, when the slice assignment succeeds, has the input's length along the group axis. |
| RampUtils.ShiftZInRange | src/stcal/ramp_fitting/utils.py:895-902 | For an offset of at most the cube's length, `shift_z` succeeds. Entry i of the result is entry i+off of the input when that exists, and zero otherwise. |
| RampUtils.ShiftZUp | src/stcal/ramp_fitting/utils.py:895-902 | For 0 <= off <= length, the result is the input without its first `off` groups followed by `off` zero groups. |
| RampUtils.ShiftZDown | src/stcal/ramp_fitting/utils.py:895-902 | For -length <= off < 0, the result is `-off` zero groups followed by the input without its last `-off` groups. |
| RampUtils.ShiftZFar | src/stcal/ramp_fitting/utils.py:895-902 | An offset of at least twice the length, either way, gives only zeros. |
| RampUtils.ShiftZDefined | src/stcal/ramp_fitting/utils.py:895-902 | `shift_z` fails exactly for offsets whose size lies strictly between the cube's length and twice that length, except `off = 1 - 2n`. |
| RampUtils.ShiftZFails | src/stcal/ramp_fitting/utils.py:895-902 | An offset strictly between the length and twice the length, either way, makes the assignment fail, except `off = 1 - 2n`. In the failing cases the source slice's length is neither 1 nor the target slice's length. At `off = 1 - 2n` the source slice holds one group and the target slice is empty (see `RampUtils.ShiftZBroadcast`). |
| RampUtils.ShiftZBroadcast | src/stcal/ramp_fitting/utils.py:895-902 | With n ≥ 2 groups and `off = 1 - 2n`, the source slice holds one group and the target slice is empty. numpy broadcasts it, so `shift_z` returns the zero cube. |
| RampUtils.ShiftedTwice | src/stcal/ramp_fitting/utils.py:874-904 | Moving by `off` and then by `-off` restores every group that stayed inside the cube. |
| RampUtils.ShiftZBack | src/stcal/ramp_fitting/utils.py:874-904 | `shift_z(shift_z(a, off), -off)` succeeds and restores every group of `a` that stayed inside the cube on the way. |
| OptResults.OptRes.constructor | src/stcal/ramp_fitting/utils.py:58 | The magnitude cube starts as zeros: one plane per read for every pixel of every integration. |
| OptResults.OptRes.ShrinkCrmag | src/stcal/ramp_fitting/utils.py:184-250 | When the source would raise, `ok` is false and the cube is left as it was. Otherwise the cube is replaced by the compression as written (`CrMagnitudes.ShrinkAsWritten`) of its old value. |
| OptResults.Compress | src/stcal/ramp_fitting/utils.py:215-250 | The two loops of `shrink_crmag`, run on values, give exactly `ShrinkAsWritten`, failures included. |
| OptResults.MaxFlagged | src/stcal/ramp_fitting/utils.py:217-222 | The first loop finds the most jump-flagged groups of any pixel in any integration. |
| OptResults.PackRead | src/stcal/ramp_fitting/utils.py:241-243 | One read of one pixel writes a positive magnitude of a pixel with a cosmic ray to its next free plane. Running past the last plane (the IndexError) happens only when the pixel has more positive magnitudes than planes. |
| OptResults.PackReadAll | src/stcal/ramp_fitting/utils.py:238-243 | One read of every pixel extends every pixel's partial packing by that read. An overflow means that some pixel does not fit. |
| OptResults.PackReads | src/stcal/ramp_fitting/utils.py:236-243 | The reads loop leaves every pixel's plane holding the packing of all its reads, unless some pixel overflows. |
| OptResults.PackedStart | src/stcal/ramp_fitting/utils.py:225-234 | Zero planes and zero counts are the packing of no reads. |
| OptResults.PackedDone | src/stcal/ramp_fitting/utils.py:236-245 | After the last read every pixel fits, its plane is its packed magnitudes padded with zeros, and `end_cr` holds the packed counts. |
| OptResults.PackIntegration | src/stcal/ramp_fitting/utils.py:230-243 | The packing of one integration succeeds exactly when every pixel fits. Its planes then hold each pixel's packed magnitudes, and its counts are the packed counts. |
| OptResults.CrFlags | src/stcal/ramp_fitting/utils.py:231 | `cr_int_has_cr` marks exactly the pixels whose magnitudes do not sum to zero. |
| OptResults.PackAll | src/stcal/ramp_fitting/utils.py:229-243 | The second loop succeeds exactly when every pixel of every integration fits. Every integration is then packed, and `end_cr` is the last integration's counts. |
| OptResults.CubeFits | src/stcal/ramp_fitting/utils.py:229-243 | A cube packed in every integration fits. |
| OptResults.CubeOverflow | src/stcal/ramp_fitting/utils.py:242 | One integration that overflows makes the whole cube overflow. |
| OptResults.CutPlanes | src/stcal/ramp_fitting/utils.py:250 | `cr_com[:, :max_num_crs]` keeps exactly the first planes of every pixel of every integration. |
| OptResults.CubeDepth | src/stcal/ramp_fitting/utils.py:225 | Every packed plane has depth `max_cr`. |
| OptResults.ShrinkMatches | src/stcal/ramp_fitting/utils.py:245-250 | Cutting the packed cube to the last integration's depth is `ShrinkAsWritten`. |
| OptResults.ShrinkFails | src/stcal/ramp_fitting/utils.py:218-243 | No integration, no pixel, or a pixel with more magnitudes than `max_cr` makes the compression fail. |
| OptResults.ShrinkZero | src/stcal/ramp_fitting/utils.py:245-248 | When the last integration packs nothing, the result is one plane of zeros. |
| OptResults.PositivesPrefix | src/stcal/ramp_fitting/utils.py:241-243 | Packing one more read appends its magnitude exactly when it is positive. |
| OptResults.PadToPush | src/stcal/ramp_fitting/utils.py:242-243 | Writing a value at `end_cr` of a zero-padded plane is padding the packing extended by that value. |
| CrMagnitudes.Positives | src/stcal/ramp_fitting/utils.py:241 | The kept magnitudes of a column are no more than its reads. |
| CrMagnitudes.PositivesExact | src/stcal/ramp_fitting/utils.py:241 | Every kept magnitude is positive, and their number is the number of positive reads. |
| CrMagnitudes.PadTo | src/stcal/ramp_fitting/utils.py:225 | Padding to a depth keeps the values in front and puts only zeros after them. |
| CrMagnitudes.JumpCount | src/stcal/ramp_fitting/utils.py:220-221 | A pixel has no more jump-flagged groups than groups. |
| CrMagnitudes.MaxOf | src/stcal/ramp_fitting/utils.py:221 | `.max()` bounds every entry and is attained by one of them. An empty sequence gives 0, but the compression fails before it uses that value. |
| CrMagnitudes.JumpCounts | src/stcal/ramp_fitting/utils.py:220-221 | Each pixel's entry is its count of jump-flagged groups. |
| CrMagnitudes.PackedCounts | src/stcal/ramp_fitting/utils.py:243 | Each pixel's count is the number of its packed magnitudes. |
| CrMagnitudes.ZeroCube | src/stcal/ramp_fitting/utils.py:248 | `np.zeros((n_int, 1) + imshape)`: a single zero for every pixel of every integration. |
| CrMagnitudes.DepthAllBound | src/stcal/ramp_fitting/utils.py:189-191 | The depth over all integrations bounds every pixel's count. |
| CrMagnitudes.DepthAllWitness | src/stcal/ramp_fitting/utils.py:189-191 | A positive depth over all integrations is reached by some pixel. |
| CrMagnitudes.ShrinkAsWritten | src/stcal/ramp_fitting/utils.py:215-250 | `shrink_crmag` as written. It fails where the source raises. Otherwise every pixel is cut to the packed depth of the last integration, or becomes a single zero plane when that depth is 0. `OptResults.Compress` is proved equal to it. |
| CrMagnitudes.ShrinkIntended | src/stcal/ramp_fitting/utils.py:184-250 | `shrink_crmag` as the docstring describes it: the common depth is the most packed magnitudes of any pixel in any integration. The lemmas below state what it keeps. |
| CrMagnitudes.ShrinkIntendedFails | src/stcal/ramp_fitting/utils.py:215-243 | The intended compression fails exactly where the source raises. |
| CrMagnitudes.ShrinkIntendedKeepsAll | src/stcal/ramp_fitting/utils.py:186-191 | The intended compression keeps every packed magnitude of every pixel of every integration, in read order, followed only by zeros. |
| CrMagnitudes.ShrinkIntendedUniform | src/stcal/ramp_fitting/utils.py:189-191 | Every pixel of every integration has the same depth: the most packed magnitudes of any pixel, and at least 1. |
| CrMagnitudes.ShrinkIntendedTight | src/stcal/ramp_fitting/utils.py:189-191 | The depth is no larger than needed: it is 1, or some pixel fills it. |
| CrMagnitudes.ExamplePacked | src/stcal/ramp_fitting/utils.py:231-243 | On the example cube the first integration packs 5 and 7 and the second packs nothing. |
| CrMagnitudes.ExampleJumps | src/stcal/ramp_fitting/utils.py:217-222 | On the example, `max_cr` is 2. |
| CrMagnitudes.ExampleCounts | src/stcal/ramp_fitting/utils.py:234-243 | On the example the counts are 2 and 0, and the cube fits in 2 planes. |
| CrMagnitudes.LastIntegrationLosesMagnitudes | src/stcal/ramp_fitting/utils.py:245-250 | On the example the code as written returns one plane of zeros for both integrations, so it loses the magnitudes 5 and 7. |
| CrMagnitudes.IntendedKeepsExample | src/stcal/ramp_fitting/utils.py:186-191 | On the same example the intended compression keeps 5 and 7. |
| CrMagnitudes.PadCut | src/stcal/ramp_fitting/utils.py:250 | Cutting a padded plane to a smaller depth is padding to that depth. |
| CrMagnitudes.AgreePixel | src/stcal/ramp_fitting/utils.py:245-250 | When the last integration is the deepest, each pixel of the written and of the intended compression agree. |
| CrMagnitudes.AsWrittenAgreesWhenLastDeepest | src/stcal/ramp_fitting/utils.py:245-250 | The code as written equals the intended compression whenever the last integration reaches the greatest depth of all. |
| JumpMedian.AbsR | src/stcal/jump/twopoint_difference.py:262 | `np.abs` of a value is non-negative and is the value or its negation. |
| JumpMedian.Insert | src/stcal/jump/twopoint_difference.py:263 | Inserting into a sorted list adds exactly one entry. |
| JumpMedian.InsertSorted | src/stcal/jump/twopoint_difference.py:263 | Inserting into an ascending list keeps it ascending. |
| JumpMedian.InsertPerm | src/stcal/jump/twopoint_difference.py:263 | Inserting adds exactly the inserted value to the list's values. |
| JumpMedian.SortKeeps | src/stcal/jump/twopoint_difference.py:263 | The sort behind the median gives an ascending permutation of its input. |
| JumpMedian.SortedUnique | src/stcal/jump/twopoint_difference.py:263 | Two ascending lists with the same values are equal, so the sorted order is determined by the values. |
| JumpMedian.MedianOrderFree | src/stcal/jump/twopoint_difference.py:263-265 | `nanmedian` depends only on the values, not on their order. |
| JumpMedian.MedianBetween | src/stcal/jump/twopoint_difference.py:263-265 | The median lies between the smallest and the largest value. |
| JumpMedian.MedianOfThree | src/stcal/jump/twopoint_difference.py:264-265 | The median of three values is the one between the other two. |
| JumpMedian.NanArgMax | src/stcal/jump/twopoint_difference.py:262 | `nanargmax`, when it finds an index, points at a non-NaN entry. |
| JumpMedian.NanArgMaxSpec | src/stcal/jump/twopoint_difference.py:262 | `nanargmax` finds an index exactly when some entry is not NaN. The entry found is a largest one, and no earlier entry is as large. |
| JumpMedian.AbsAll | src/stcal/jump/twopoint_difference.py:262 | `np.abs` keeps NaN where it is and takes the absolute value of every other entry. |
| JumpMedian.UsableZero | src/stcal/jump/twopoint_difference.py:259 | The usable count is zero exactly when every difference is NaN. |
| JumpMedian.UsableClip | src/stcal/jump/twopoint_difference.py:261-262 | Masking a usable difference lowers the usable count by exactly one. |
| JumpMedian.ValuesClip | src/stcal/jump/twopoint_difference.py:261-263 | Masking a usable difference removes exactly its value from the values `nanmedian` sees. |
| JumpMedian.MedFirstDiffsNaN | src/stcal/jump/twopoint_difference.py:257-269 | The result is NaN exactly when fewer than two differences are usable. |
| JumpMedian.MedFirstDiffsClips | src/stcal/jump/twopoint_difference.py:260-263 | With 4 or more usable differences the result is the median of all usable differences but one whose absolute value is largest. |
| JumpMedian.MedFirstDiffsThree | src/stcal/jump/twopoint_difference.py:264-265 | With exactly 3 usable differences the result is their median, the middle one. |
| JumpMedian.MedFirstDiffsTwo | src/stcal/jump/twopoint_difference.py:266-267 | With exactly 2 usable differences the result is the smaller absolute value: non-negative, at most each absolute value and equal to one of them. |
| JumpMedian.MedFirstDiffsThreeOrderFree | src/stcal/jump/twopoint_difference.py:264-265 | With 3 usable differences the result ignores their order. |
| JumpMedian.MinOf | src/stcal/jump/twopoint_difference.py:294 | The minimum of a non-empty list is one of its entries and at most each of them. |
| JumpMedian.MedFirstDiffs | src/stcal/jump/twopoint_difference.py:257-269 | The one-pixel branch of `calc_med_first_diffs`. The `MedFirstDiffs*` lemmas state each case. |
| JumpMedian.MedFirstDiffsArrayAsWritten | src/stcal/jump/twopoint_difference.py:273-301 | The array branch as written gives one result per pixel. |
| JumpMedian.MedFirstDiffsArray | src/stcal/jump/twopoint_difference.py:273-301 | The array branch as intended applies the one-pixel rule to every pixel. |
| JumpMedian.TwoSliceHas | src/stcal/jump/twopoint_difference.py:292-293 | Each pixel with 2 usable differences contributes both of them to `two_slice`. |
| JumpMedian.ArrayAsWrittenShape | src/stcal/jump/twopoint_difference.py:273-301 | As written, every pixel whose usable count is not 2 gets the one-pixel result. All pixels with 2 usable differences share one value, which is at most each of their signed differences. |
| JumpMedian.ExampleValues | src/stcal/jump/twopoint_difference.py:291 | The example pixels [5, 7] and [-100, 3] have 2 usable differences each. |
| JumpMedian.ExampleTwoSlice | src/stcal/jump/twopoint_difference.py:293 | On the example, `two_slice` holds 5, 7, -100 and 3. |
| JumpMedian.ExampleMin | src/stcal/jump/twopoint_difference.py:294 | On the example, `nanmin(two_slice)` is -100. |
| JumpMedian.SharedTwoValueExample | src/stcal/jump/twopoint_difference.py:290-294 | As written, both example pixels get -100, a negative value taken from another pixel. The one-pixel rule gives 5 and 3. |
| JumpClip.SelectThreshold | src/stcal/jump/twopoint_difference.py:114-120 | A pixel has a threshold for the first detection exactly when at least 2 differences are usable. |
| JumpClip.ThresholdsAgree | src/stcal/jump/twopoint_difference.py:114-120 | The first detection and the loop choose the same threshold for every usable count of 2 or more: the normal one for 4 or more, and the three- and two-difference ones for 3 and 2. |
| JumpClip.LoopThreshold | src/stcal/jump/twopoint_difference.py:164-169 | The loop's threshold: `three_diff_rej_thresh` for 3 usable differences, `two_diff_rej_thresh` for 2, and `normal_rej_thresh` otherwise. `JumpClip.ThresholdsAgree` relates it to the first pass. |
| JumpClip.ClipMasked | src/stcal/jump/twopoint_difference.py:156 | `pix_first_diffs[~pix_cr_mask] = nan` keeps every unmarked difference and makes every marked one NaN. |
| JumpClip.Ratios | src/stcal/jump/twopoint_difference.py:162 | A ratio is a number only where both the difference and the median are numbers. |
| JumpClip.Step | src/stcal/jump/twopoint_difference.py:153-175 | One pass of the loop body keeps the shape of the loop variables. |
| JumpClip.FirstInf | src/stcal/jump/twopoint_difference.py:170 | A found index holds a +inf ratio. |
| JumpClip.FirstInfSpec | src/stcal/jump/twopoint_difference.py:170 | Nothing is found exactly when no ratio is +inf. Otherwise no earlier ratio is +inf. |
| JumpClip.FiniteParts | src/stcal/jump/twopoint_difference.py:170 | The finite ratios keep their values, and every other entry becomes NaN. |
| JumpClip.LoopArgMax | src/stcal/jump/twopoint_difference.py:170 | `nanargmax` over the loop's ratios: a found index holds a ratio that is not NaN. |
| JumpClip.LoopArgMaxSpec | src/stcal/jump/twopoint_difference.py:170 | `nanargmax` raises exactly when every ratio is NaN. Otherwise it finds a ratio that no ratio exceeds, with +inf above every finite value, and every earlier ratio is strictly smaller. |
| JumpClip.LiveClip | src/stcal/jump/twopoint_difference.py:156 | After clipping, the usable count is the number of usable unmarked differences. |
| JumpClip.LiveMark | src/stcal/jump/twopoint_difference.py:175 | Marking a usable unmarked difference lowers that number by one. |
| JumpClip.StepMarksOne | src/stcal/jump/twopoint_difference.py:153-175 | A pass clips the marked differences. It marks exactly one usable, unmarked difference when it finds a new jump, and marks nothing otherwise. Either way the loop measure drops, so the loop ends. |
| JumpClip.ClipLoop | src/stcal/jump/twopoint_difference.py:151-175 | The `while` loop keeps the shape of the loop variables. |
| JumpClip.AllTrue | src/stcal/jump/twopoint_difference.py:139 | `np.ones(..., dtype=bool)`: every entry is true. |
| JumpClip.ClipStart | src/stcal/jump/twopoint_difference.py:139-143 | The state before the loop is well shaped. |
| JumpClip.ClipMask | src/stcal/jump/twopoint_difference.py:134-175 | The final jump mask has one entry per difference. |
| JumpClip.ClipLoopGrows | src/stcal/jump/twopoint_difference.py:151-175 | The loop never removes a mark and only clips differences. Every new mark is on a usable difference. |
| JumpClip.ClipLoopStops | src/stcal/jump/twopoint_difference.py:151 | The loop ends only when the last pass found no new jump or at most two differences are usable. |
| JumpClip.StepCounted | src/stcal/jump/twopoint_difference.py:151-175 | A pass taken while more than two differences are usable keeps the counting invariant: some usable difference stays unmarked. |
| JumpClip.ClipLoopCounted | src/stcal/jump/twopoint_difference.py:151-175 | The whole loop keeps that counting invariant. |
| JumpClip.LiveWitness | src/stcal/jump/twopoint_difference.py:151 | A positive count of usable unmarked differences names one of them. |
| JumpClip.LiveStart | src/stcal/jump/twopoint_difference.py:139-142 | After the first mark, the usable unmarked differences are all usable differences but one. |
| JumpClip.LiveAll | src/stcal/jump/twopoint_difference.py:139 | With nothing marked, every usable difference is unmarked. |
| JumpClip.ClipMaskSpec | src/stcal/jump/twopoint_difference.py:134-175 | For a selected pixel, the difference with the largest initial ratio is marked, and every mark is on a usable difference. At least one usable difference is never marked. |
| JumpClip.ClipFewDiffs | src/stcal/jump/twopoint_difference.py:142-151 | A pixel with at most two usable differences gets only its first mark, because the loop body never runs. |
| JumpClip.ClipPixel | src/stcal/jump/twopoint_difference.py:131-175 | The `while` loop computes `ClipMask`. It fails exactly when `nanargmax` meets only NaN ratios. |
| JumpSpec.Sample | src/stcal/jump/twopoint_difference.py:88-89 | A sample is NaN where its group is SATURATED or DO_NOT_USE, and is the data value otherwise. |
| JumpSpec.PixelDiffs | src/stcal/jump/twopoint_difference.py:93 | `np.diff` along the group axis gives one difference fewer than the groups. |
| JumpSpec.PixelDiffsSpec | src/stcal/jump/twopoint_difference.py:88-93 | A difference is usable exactly when both of its samples are, and it then takes the earlier sample to the later one. |
| JumpSpec.RatioOf | src/stcal/jump/twopoint_difference.py:99-107 | The first ratio is NaN exactly when sigma is 0, which line 102 resets to NaN. Otherwise the ratio times sigma is `|d - median|`. |
| JumpSpec.LoopRatioOf | src/stcal/jump/twopoint_difference.py:158-162 | The loop's ratio has no reset. Over a zero sigma it is NaN exactly when the difference equals the median, and +inf otherwise. Over any other sigma it is finite, and the ratio times sigma is `|d - median|`. |
| JumpSpec.LoopPassFails | src/stcal/jump/twopoint_difference.py:155-170 | A loop pass raises exactly when every remaining usable difference has a NaN ratio: the median is NaN, or sigma is 0 and the difference equals the median. |
| JumpSpec.ZeroSigmaPassMarks | src/stcal/jump/twopoint_difference.py:158-175 | A pass over a zero sigma with some difference off the median succeeds. It marks the first remaining difference off the median, which is no later than any such difference, and the loop goes on. |
| JumpSpec.PixelRatios | src/stcal/jump/twopoint_difference.py:107 | The pixel's ratios have one entry per difference. |
| JumpSpec.SelectedIff | src/stcal/jump/twopoint_difference.py:110-124 | A pixel is selected exactly when at least 2 differences are usable and some ratio exceeds the threshold for that usable count. |
| JumpSpec.Selected | src/stcal/jump/twopoint_difference.py:110-124 | The selection test of one pixel. `JumpSpec.SelectedIff` states when it holds. |
| JumpSpec.PixelMask | src/stcal/jump/twopoint_difference.py:131-175 | A pixel's jump mask, when the loop completes, has one entry per difference. |
| JumpSpec.MaskOf | src/stcal/jump/twopoint_difference.py:131-175 | The mask used for the write-back has one entry per difference. |
| JumpSpec.WriteBack | src/stcal/jump/twopoint_difference.py:178-180 | The write-back adds at most JUMP_DET. Group g gets it exactly when it had it or difference g-1 is marked. |
| JumpSpec.WbCell | src/stcal/jump/twopoint_difference.py:178-180 | The group DQ of one cell after the write-back. `JumpSpec.WriteBackSkips` and `JumpSpec.SelectedPixelJumps` state what it holds. |
| JumpSpec.RatioAt | src/stcal/jump/twopoint_difference.py:187-190 | The first-pass ratio that decides a candidate: that of difference g-1, or the last difference for group 0 (numpy's index -1). |
| JumpSpec.Cand | src/stcal/jump/twopoint_difference.py:183-190 | A candidate: JUMP_DET after the write-back, and a ratio strictly between the two limits. |
| JumpSpec.Hit | src/stcal/jump/twopoint_difference.py:199-226 | Some in-grid neighbour, up, down, left or right, is a candidate. |
| JumpSpec.FinalCell | src/stcal/jump/twopoint_difference.py:178-226 | The returned group DQ of one cell: the write-back plus JUMP_DET where neighbour flagging hits it. `JumpSpec.FinalOnlyAddsJump` and `JumpSpec.NewJumpHasCause` state its properties. |
| JumpSpec.BelowCell | src/stcal/jump/twopoint_difference.py:200-206 | `row_below_gdq` of one column. `JumpSpec.EdgeRows` states it. |
| JumpSpec.AboveCell | src/stcal/jump/twopoint_difference.py:208-214 | `row_above_gdq` of one column. `JumpSpec.EdgeRows` states it. |
| JumpSpec.Mark | src/stcal/jump/twopoint_difference.py:201-226 | The neighbour mark is JUMP_DET or nothing. |
| JumpSpec.FinalOnlyAddsJump | src/stcal/jump/twopoint_difference.py:178-226 | `find_crs` only ever adds JUMP_DET. Every input flag stays set, and no other flag appears. |
| JumpSpec.WriteBackSkips | src/stcal/jump/twopoint_difference.py:123-180 | The first group gets no jump from the write-back, and a pixel that is not selected gets none at all. |
| JumpSpec.SelectedPixelJumps | src/stcal/jump/twopoint_difference.py:131-180 | On a selected pixel, the group after the largest initial ratio gets JUMP_DET, and jumps land only after usable differences. At least one usable difference is left without a jump. |
| JumpSpec.HitFlagged | src/stcal/jump/twopoint_difference.py:182-226 | A cell next to a candidate gets JUMP_DET when neighbour flagging is on. |
| JumpSpec.CandHitsRowAfter | src/stcal/jump/twopoint_difference.py:208-211 | A candidate makes the in-grid cell in the next row a neighbour hit. |
| JumpSpec.CandFlagsUp | src/stcal/jump/twopoint_difference.py:200-203 | The cell in the row before a candidate's gets JUMP_DET. |
| JumpSpec.CandFlagsDown | src/stcal/jump/twopoint_difference.py:208-211 | The in-grid cell in the row after a candidate's gets JUMP_DET. |
| JumpSpec.CandFlagsLeft | src/stcal/jump/twopoint_difference.py:218-221 | The cell in the column before a candidate's gets JUMP_DET. |
| JumpSpec.CandFlagsRight | src/stcal/jump/twopoint_difference.py:223-226 | The in-grid cell in the column after a candidate's gets JUMP_DET. |
| JumpSpec.EdgeRows | src/stcal/jump/twopoint_difference.py:200-214 | `row_below_gdq` holds JUMP_DET exactly under candidates of the first row, and `row_above_gdq` exactly above candidates of the last row. Both are zero elsewhere. |
| JumpSpec.NoNeighbourFlags | src/stcal/jump/twopoint_difference.py:182 | Without neighbour flagging the result is the write-back alone, and both extra rows stay zero. |
| JumpSpec.NewJumpHasCause | src/stcal/jump/twopoint_difference.py:182-226 | A cell that lacks JUMP_DET after the write-back ends with it exactly when neighbour flagging is on and an in-grid neighbour is a candidate. |
| JumpDetect.WriteColumn | src/stcal/jump/twopoint_difference.py:178-180 | Group g ≥ 1 of the pixel gains JUMP_DET exactly where mask entry g-1 is false. Every other cell keeps its value. |
| JumpDetect.ClipAt | src/stcal/jump/twopoint_difference.py:131-180 | One pixel's clipping and write-back. The result is false exactly when the clipping loop raises. Otherwise the pixel's column becomes its `WriteBack` cells, and all other cells are unchanged. |
| JumpDetect.ClipRow | src/stcal/jump/twopoint_difference.py:131-180 | The same for every pixel of one row. |
| JumpDetect.ClipAll | src/stcal/jump/twopoint_difference.py:131-180 | The selected-pixel loop of one integration. It succeeds exactly when every pixel's clipping ends, and then the integration holds `WbCell` everywhere. |
| JumpDetect.FlagOne | src/stcal/jump/twopoint_difference.py:200-226 | One in-range jump: the up and down neighbours gain JUMP_DET, or the matching extra row is set to JUMP_DET when the jump is on the first or last row. In-grid left and right neighbours gain JUMP_DET. Nothing else changes. |
| JumpDetect.FlagRow | src/stcal/jump/twopoint_difference.py:185-226 | The candidate scan over one row keeps `PlaneAt`: every cell is its earlier value plus JUMP_DET where a neighbour already handled is a candidate. Other groups and integrations are unchanged. |
| JumpDetect.FlagPlane | src/stcal/jump/twopoint_difference.py:185-226 | The scan over every row of a group ends with each cell flagged exactly when some neighbour in the group is a candidate. |
| JumpDetect.FlagNeighbours | src/stcal/jump/twopoint_difference.py:182-226 | The `flag_4_neighbors` block of one integration ORs JUMP_DET onto the write-back exactly at neighbours of candidates. The extra rows mark the first-row and last-row candidates, and other integrations are untouched. |
| JumpDetect.ScanMatchesSpec | src/stcal/jump/twopoint_difference.py:182-226 | The cells flagged by the scan are exactly the cells of `JumpSpec.Hit`. |
| JumpDetect.ScanMatchesCell | src/stcal/jump/twopoint_difference.py:182-214 | An in-grid cell counts as a candidate in the scan exactly when it satisfies `JumpSpec.Cand`. |
| JumpDetect.ScanGivesFinal | src/stcal/jump/twopoint_difference.py:178-226 | The scan over the write-back gives `JumpSpec.FinalCell` on every cell. |
| JumpDetect.ScanGivesBelow | src/stcal/jump/twopoint_difference.py:200-206 | The scan gives `JumpSpec.BelowCell` in `row_below_gdq`. |
| JumpDetect.ScanGivesAbove | src/stcal/jump/twopoint_difference.py:208-214 | The scan gives `JumpSpec.AboveCell` in `row_above_gdq`. |
| JumpDetect.DoneWithoutNeighbours | src/stcal/jump/twopoint_difference.py:178-182 | Without neighbour flagging, the write-back and zero extra rows are the finished integration. |
| JumpDetect.DoneWithNeighbours | src/stcal/jump/twopoint_difference.py:182-226 | With neighbour flagging, the scan's outputs are the finished integration. |
| JumpDetect.ProcessInteg | src/stcal/jump/twopoint_difference.py:81-226 | One turn of the integration loop succeeds exactly when every clipping loop of the integration ends. It then leaves the integration as `find_crs` defines it, and the other integrations unchanged. |
| JumpDetect.FindStep | src/stcal/jump/twopoint_difference.py:81-226 | The loop over integrations keeps the earlier integrations finished and the later ones untouched. |
| JumpDetect.FindCrs | src/stcal/jump/twopoint_difference.py:4-227 | `find_crs` works on fresh copies. It succeeds exactly when every integration's clipping ends, and each returned group DQ cell and extra row cell is then `FinalCell`, `BelowCell` or `AboveCell` of its integration. |

## Left out

- The rest of `ramp_fitting/utils.py` (the variance and slope arithmetic, the output products, the logging helpers) and the ramp-fitting drivers that call these utilities are not part of this model. Only the functions listed above are modelled.
- `calc_slope_vars` computes `den_r3`, `den_p3` and `num_r3` from the segment lengths with floating-point arithmetic. These are left out. The model stops at `segs_beg_3` and its floored copy, which is where all the integer bookkeeping happens.
- Floating point in general: values are exact `real`s and NaN is `None`. Rounding, infinities, and NaN propagation through arithmetic are not modelled.
- `calc_slope_vars` converts the group DQ words to float32 and then back to int32 before testing JUMP_DET. A DQ word at or above 2^24 can lose low bits in that round trip. The model tests the flag bits of the exact word.
- `Segments.ScanSegments`: `segs` and `sr_index` are uint8 in the source, so a segment longer than 255 reads or more than 255 segments would wrap around. The model counts with unbounded naturals.
- `BadSingles.RemoveBadSingles`: for a pixel made only of empty and one-group slots, with a total above 1, the contract says only that exactly one single survives and every other slot is empty. It does not say which slot the survivor ends in. That depends on the order of the pair comparisons: `[1, 1, 1, 0, 1]` ends as `[1, 0, 0, 0, 0]`, but `[0, 1, 1, 0, 1]` ends as `[0, 0, 1, 0, 0]`. `SlopeSegments.CalcSegments` inherits the same gap.
- `OptResults.OptRes`: only the cosmic-ray magnitude cube and its shape are fields. The class's other result arrays are filled by code outside this model.
- OptResults.OptRes.constructor always allocates the magnitude cube. The source allocates `cr_mag_seg` only when `save_opt` is true (utils.py:58). The model covers only the `save_opt` case.
- `DqCombine.FixSatRamps` requires its three variance and slope arrays to be distinct objects. The source receives three separate numpy arrays, so aliasing between them is not modelled.
- `RampUtils.ShiftZ` builds its zero-filled result as `a * 0`. In floating point that gives NaN where `a` holds NaN or an infinity. The model pads with an explicit `zero` value throughout.
- `RampUtils.ComputeSlices`: the machine's core count from `multiprocessing.cpu_count()` is a parameter.
- `JumpSpec.Sigma`: the square root of the noise estimate is a function supplied in `JumpSpec.Config`, with no property assumed. Floating-point rounding of `sigma` and of the ratios is not modelled.
- `JumpSpec.Shaped`: `find_crs` is modelled for inputs with at least 3 groups. With 2 groups no pixel has the 2 usable differences that selection needs, so the source only copies its inputs. With 1 group the difference axis is empty, and the source raises ValueError from the zero-size reductions `np.nanmax(ratio, axis=0)` (twopoint_difference.py:110) and the median. Neither case is modelled. `nframes` is at least 1.
- `JumpDetect.FindCrs`: numpy raises a ValueError from `nanargmax` when every ratio of a pixel has become NaN. The model returns `ok == false` there, and the contents of the outputs are then unspecified.
- `JumpDetect.FindCrs`: the source visits the selected pixels as the concatenation of its 4-, 3- and 2-difference lists. The model visits them in row-major order. Pixels are independent in the write-back, so the order does not change the result.
- `JumpDetect.FindCrs` uses the corrected array median `JumpMedian.MedFirstDiffsArray` (see Findings) rather than the shared minimum of the code as written.
- `JumpSpec.BelowCell`: `row_below_gdq` is a uint8 array (twopoint_difference.py:79), and the source stores the JUMP_DET value in it. The model stores JUMP_DET at whatever bit position the configuration gives. The real JUMP_DET is bit 2 and fits. A JUMP_DET at bit 8 or above would be wrapped to 0 by numpy 1.x and would raise OverflowError in numpy 2. Neither outcome is modelled.
- `JumpSpec.AboveCell`: the same uint8 limit applies to `row_above_gdq` (twopoint_difference.py:78). It is not modelled either.
- `JumpDetect.FlagOne`: it writes JUMP_DET into the two extra rows at any bit position. The uint8 wrap or overflow of those rows is not modelled.
- `JumpDetect.FindCrs`: its extra-row outputs inherit the same gap. The wrap or overflow of a JUMP_DET at bit 8 or above in the uint8 rows is not modelled.
- `JumpSpec.RatioAt`: a JUMP_DET flag already set on group 0 is judged by `ratio[-1]`, which numpy reads as the last difference. The model does the same.
- Logging, timing and the multiprocessing split of the data into slices are left out. The `row_below_gdq` and `row_above_gdq` arrays that carry flags across slices are modelled, but their recombination is not.

## Findings

| source | as written | input that shows it | evidently intended | confidence | as-written member | corrected member |
|---|---|---|---|---|---|---|
| src/stcal/jump/twopoint_difference.py:290-294 | All pixels with exactly 2 usable differences get one shared value, `np.nanmin(two_slice)`: the signed minimum over every difference of all those pixels. | Two such pixels with differences [5, 7] and [-100, 3]. Both get -100. | Each pixel gets the smaller absolute value of its own two differences, as the one-pixel branch at lines 266-267 does: 5 and 3. | not executed | JumpMedian.MedFirstDiffsArrayAsWritten, JumpMedian.SharedTwoValueExample | JumpMedian.MedFirstDiffsArray, JumpMedian.MedFirstDiffsTwo |
| src/stcal/ramp_fitting/utils.py:245-250 | The depth of the compressed cube is `end_cr.max()` (1 when that is 0), and `end_cr` holds only the counts of the last integration. | Two integrations of one pixel and two reads, magnitudes [[5, 7]] and [[0, 0]], with both reads flagged as jumps in the first integration only. The result is one plane of zeros, and 5 and 7 are lost. | As the docstring at lines 189-191 says, the depth is the most packed positive magnitudes of any pixel in any integration (at least 1). This keeps every magnitude: [[5, 7]] and [[0, 0]]. | not executed | CrMagnitudes.ShrinkAsWritten, CrMagnitudes.LastIntegrationLosesMagnitudes | CrMagnitudes.ShrinkIntended, CrMagnitudes.ShrinkIntendedKeepsAll |
