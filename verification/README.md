# nite_fx effect core, modelled in Dafny

nite_fx turns the frames of a depth camera into live visual effects. Each frame
brings a colour image, a depth map and a user-label mask (0 for background, a
user index elsewhere). An `EffectCollection` holds the registered effects and
runs the active one. Keys switch the active effect and the user-detection
strategy, and the mouse goes to the active effect.

This project models the stateful and geometric core of that pipeline:

- `UserAccelerations`: the contour motion estimator of `ComputeUserAccelerations`.
  It concatenates the long contours, simplifies the result in place with an
  unsigned erase-and-rewind loop, and emits acceleration samples against the
  previous tick's simplified contour (the baseline).
- `Particles`: `ParticleThrower`. Samples above a threshold spawn particles.
  Particles fall under a mass-proportional gravity with semi-implicit Euler
  steps, and are removed once they are below the image.
- `DepthBackground`: `DepthBackgroundRemover`, a running per-pixel maximum of
  depth with a foreground mask of the pixels noticeably closer than it.
- `ColorBackground`: `BackgroundRemover`, a grey-level background learnt on a
  left click as an exponential moving average, and a thresholded foreground.
- `UserEdge`: which pixels `draw_users_contour` marks as user edges.
- `CloneUser`: click-to-select, click-to-paste user clones. Each label keeps a
  list of translations sorted by y. Also `center_of_mass`.
- `Helices`: a grid of spinning bars that speed up over a user and fall back
  to a shared idle rotation.
- `Blur`: the Gaussian blur whose deviation the mouse changes.
- `SkeletonUtils`: joint lookup, the joint id / name converter, and joint
  projection into the image.
- `EffectCollection`: the registry, key and mouse routing, the choice of user
  mask, and one call of the active effect.

Shared modules:

- `Geometry`: points and vectors.
- `Subsequences`: order-preserving subsequences.
- `Unsigned`: 32- and 64-bit wrap-around of the index arithmetic.
- `Events`: mouse events.
- `Optional`: an option type.

OpenCV calls and helpers whose code is not part of this model are function-typed
parameters. These are `findContours`, morphology, `cvtColor`, the
`geometry_utils` distance and angle helpers, `sqrt`/`cos`/`sin`/`fmod`, timers
and `drand48`. Frames are flat row-major sequences where the source walks them
with a pointer. They are sequences of rows where the source indexes rows and
columns. Floating point is modelled over the reals.

## Model

| member | source | states |
|---|---|---|
| Unsigned.RewindThenAdvance | src/dancer/compute_user_accelerations.h:65-68 | the rewind `pt_idx--` followed by the loop's `++pt_idx` re-examines the same unsigned index, also at 0 where the decrement wraps to 2^32 - 1 |
| UserAccelerations.SurvivorsAreLongContours | src/dancer/compute_user_accelerations.h:106-113 | the contours kept for concatenation are, in order, contours of the input with at least 10 points, and every such contour is kept |
| UserAccelerations.SurvivorCounts | src/dancer/compute_user_accelerations.h:106-113 | each contour of at least 10 points is kept as often as it occurs, every shorter one is dropped; with the order this fixes the kept contours exactly |
| UserAccelerations.ConcatenateContours | src/dancer/compute_user_accelerations.h:98-113 | the concatenation loop appends the points of every kept contour, contour after contour, and skips the short ones |
| UserAccelerations.ConcatenationAppends | src/dancer/compute_user_accelerations.h:106-113 | one more contour appends its points exactly when it has at least 10 of them |
| UserAccelerations.ConcatenationSize | src/dancer/compute_user_accelerations.h:98-124 | the concatenation never grows beyond the total point count; it is empty exactly when every contour is short, and otherwise it has at least 10 points |
| UserAccelerations.BoundUnderflows | src/dancer/compute_user_accelerations.h:51 | with fewer than two points, the `size_t` bound `contour.size() - 2` wraps to at least 2^64 - 2 |
| UserAccelerations.SimplifyLoop | src/dancer/compute_user_accelerations.h:50-70 | on two or more points, the loop keeps the first and last points and returns an order-preserving subsequence; consecutive kept points (except the last pair) are at least 15 px apart |
| UserAccelerations.SimplifyAsWritten | src/dancer/compute_user_accelerations.h:50-51 | simplify_contour as written has no defined result exactly on contours of fewer than two points |
| UserAccelerations.Simplify | src/dancer/compute_user_accelerations.h:50-70 | corrected simplify_contour: a short contour is returned unchanged; otherwise as SimplifyLoop. The result is empty only for an empty contour |
| UserAccelerations.SamplesSound | src/dancer/compute_user_accelerations.h:159-170 | every emitted sample has a norm above MIN_ACC_NORM and starts at a point of the simplified contour |
| UserAccelerations.SamplesInOrder | src/dancer/compute_user_accelerations.h:135-173 | the samples' origins follow the contour order, at most one sample per point |
| UserAccelerations.SamplesComplete | src/dancer/compute_user_accelerations.h:159-170 | every point whose distance times depth exceeds MIN_ACC_NORM produces its sample; the samples are the points' candidates above MIN_ACC_NORM, in order and with multiplicity, so a point visited twice gives two samples |
| UserAccelerations.SamplesFilterCandidates | src/dancer/compute_user_accelerations.h:159-170 | the sample loop is a filter of the per-point candidates: it keeps, in order, each candidate whose norm exceeds MIN_ACC_NORM as often as it occurs, and no other |
| UserAccelerations.SamplesProperties | src/dancer/compute_user_accelerations.h:135-173 | soundness, order and completeness with multiplicity together, and there are at most as many samples as points |
| UserAccelerations.EmitAccelerations | src/dancer/compute_user_accelerations.h:135-173 | the emission loop produces exactly the reference sample sequence Samples |
| UserAccelerations.Tick | src/dancer/compute_user_accelerations.h:74-179 | one fn call: nothing changes without contours; the simplified contour is a spaced subsequence of the concatenation; the baseline is replaced only by a non-empty simplified contour; samples are emitted only against a non-empty baseline |
| UserAccelerations.TickAsWritten | src/dancer/compute_user_accelerations.h:93-124 | fn as written reaches the underflow exactly when contours exist and all are shorter than 10 points |
| UserAccelerations.OnePixelBlobUnderflows | src/dancer/compute_user_accelerations.h:98-124 | a single one-point contour makes the concatenation empty and the loop bound wrap |
| Particles.Qualifying | src/dancer/particle_thrower.h:52-55 | the samples that spawn a particle keep their order; every sample with norm / 25 > 1 is among them and no other is |
| Particles.QualifyingCounts | src/dancer/particle_thrower.h:52-55 | each sample with norm / 25 > 1 is kept as often as it occurs, every other is dropped; with the order this fixes the spawning samples exactly |
| Particles.NewParticle | src/dancer/particle_thrower.h:56-63 | a new particle has a mass in [15, 30) and gravity mass * 9.81 along y |
| Particles.Spawn | src/dancer/particle_thrower.h:52-65 | one particle per qualifying sample, in sample order, the i-th with the i-th random draw |
| Particles.SpawnedParticles | src/dancer/particle_thrower.h:56-63 | a spawned particle starts at its sample's origin with speed 10 * norm along the sample's direction |
| Particles.Update | src/dancer/particle_thrower.h:104-109 | semi-implicit Euler: the speed first gains dt * accel, then the position advances by dt times the new speed (dt * speed + dt^2 * accel); mass and accel are unchanged |
| Particles.Advance | src/dancer/particle_thrower.h:69-74 | every particle, in place and in order, gets its new speed and position for the same time step; a particle is well-formed after exactly when it was before |
| Particles.SpeedsAccumulate | src/dancer/particle_thrower.h:69-74 | two updates of dt1 then dt2 give each particle the speed of one update by dt1 + dt2, keeping mass and accel |
| Particles.AliveProperties | src/dancer/particle_thrower.h:76-82 | the survivors are, in order, exactly the particles with y <= rows, each as often as it occurs |
| Particles.AliveInOrder | src/dancer/particle_thrower.h:76-82 | the survivors keep their order, lie inside the image, and include every input particle with y <= rows |
| Particles.AliveCounts | src/dancer/particle_thrower.h:76-82 | the cull keeps each particle with y <= rows as often as it occurs and drops every other |
| Particles.Cull | src/dancer/particle_thrower.h:76-82 | the erase-and-rewind kill loop leaves exactly the reference survivors Alive |
| Particles.Step | src/dancer/particle_thrower.h:50-82 | spawn, update, cull: every remaining particle is inside the image, at most the old plus the spawned ones remain, and well-formed particles stay well-formed |
| Particles.ThrowerTick | src/dancer/particle_thrower.h:47-95 | one ParticleThrower fn: the estimator's tick gives the samples and the next baseline (no samples while the baseline is empty, otherwise exactly the samples of the simplified contour against it); the particles become the survivors of the old and spawned particles after one update |
| DepthBackground.Tick | src/dancer/depth_background_remover.h:55-96 | foreground is a defined depth closer than 0.9 times the background from before the tick (seeded by the first frame); the background becomes the per-pixel maximum |
| DepthBackground.FirstTickHasNoForeground | src/dancer/depth_background_remover.h:58-77 | the first frame is compared with itself: no foreground, and it becomes the background |
| DepthBackground.ZeroDepthIsInert | src/dancer/depth_background_remover.h:69-95 | a pixel without a reading is never foreground and leaves the background as it is |
| DepthBackground.SameFrameTwiceIsStable | src/dancer/depth_background_remover.h:86-95 | the background update is idempotent on a repeated frame |
| DepthBackground.BackgroundNeverDecreases | src/dancer/depth_background_remover.h:58-95 | from a fresh remover or a seeded one, over any frame sequence, the background never decreases, ends at least every reading seen, and each pixel equals its seed or one of the readings: it is the running maximum |
| ColorBackground.RoundHalfEven | src/dancer/background_remover.h:90 | the 8-bit conversion rounds to the nearest integer, a tie to the even one |
| ColorBackground.RoundHalfEvenUnique | src/dancer/background_remover.h:90 | that nearest-with-ties-to-even integer is unique, so any such rounding agrees with the model |
| ColorBackground.AverageTiesRoundToEven | src/dancer/background_remover.h:85-90 | a learnt average of 100 and 101 (100.5) is stored as 100, one of 101 and 102 (101.5) as 102 |
| ColorBackground.ThresholdMask | src/dancer/background_remover.h:60-61 | a 0/255 mask of the frame's size, 255 exactly where the grey difference to the background exceeds 30 |
| ColorBackground.Subtract | src/dancer/background_remover.h:55-74 | all black while nothing is learnt; otherwise a pixel keeps the frame's colour where the closed mask is non-zero and is black where it is zero |
| ColorBackground.SubtractKeepsForeground | src/dancer/background_remover.h:60-68 | with a closing that keeps every set pixel set, a pixel more than 30 grey levels off the background keeps its colour |
| ColorBackground.Update | src/dancer/background_remover.h:79-91 | the learnt background keeps the frame size, and every pixel of its 8-bit copy is the rounded, saturated accumulator value |
| ColorBackground.ToByte | src/dancer/background_remover.h:91 | convertTo(CV_8U) gives a byte, and on in-range values it rounds to nearest, ties to even |
| ColorBackground.Tick | src/dancer/background_remover.h:43-51 | fn subtracts with the current model first, then learns only if a click asked for it, and clears the request |
| ColorBackground.Mouse | src/dancer/background_remover.h:101-105 | only a left click requests an update |
| ColorBackground.FirstUpdateSeeds | src/dancer/background_remover.h:81-84 | the first update copies the grey frame into the accumulator and the 8-bit background |
| ColorBackground.UpdateHalvesGap | src/dancer/background_remover.h:85-89 | each later update with learning rate 0.5 halves the gap to the new frame and stays in byte range |
| ColorBackground.EqualFrameIsAllBackground | src/dancer/background_remover.h:55-68 | a frame equal to the background gives an empty mask and a black output |
| ColorBackground.ThresholdIsStrict | src/dancer/background_remover.h:39-63 | a grey difference of exactly 30 is background, 31 is foreground |
| ColorBackground.UpdateAfterSubtraction | src/dancer/background_remover.h:43-51 | the first click's tick outputs black and only then learns the frame |
| UserEdge.EdgeIffNeighbourDiffers | src/dancer/copy_color_to_out_and_user_edge.h:51-55 | the edge test holds exactly when an in-image 4-neighbour carries another label |
| UserEdge.MarkedAsWritten | src/dancer/copy_color_to_out_and_user_edge.h:36-68 | as written, marked pixels are in the image and pass the lower label bound |
| UserEdge.Marked | src/dancer/copy_color_to_out_and_user_edge.h:36-68 | corrected: marked pixels are in the image with labels within [min, max] |
| UserEdge.UniformMaskHasNoEdges | src/dancer/copy_color_to_out_and_user_edge.h:51-55 | a single-label mask has no edge pixels |
| UserEdge.FullRangeBoundsAgree | src/dancer/copy_color_to_out_and_user_edge.h:49-80 | with bounds (1, 255) and rows wider than 255 both readings mark the same pixels, never label 0 |
| UserEdge.EdgesAreSymmetric | src/dancer/copy_color_to_out_and_user_edge.h:49-55 | edges come in pairs across a label change when both labels are in bounds |
| UserEdge.SelectedUserContourLeaks | src/dancer/copy_color_to_out_and_user_edge.h:49 | as written, a pixel of user 2 is marked when user 1 is selected |
| CloneUser.ResetIsIdle | src/dancer/clone_user.h:78-118 | after a reset the next frame creates nothing and changes nothing, and resetting twice is resetting once |
| CloneUser.Mouse | src/dancer/clone_user.h:148-159 | only a middle click changes the clones (it forgets them all); only a left click changes the selection, to the clicked point with its label cleared; only a right click moves the paste position |
| CloneUser.LeftClickRereadsLabel | src/dancer/clone_user.h:88-89 | after a left click the next frame reads the label under the clicked point, whatever was selected before |
| CloneUser.SelectThenPaste | src/dancer/clone_user.h:86-118 | a left click on label l, a right click at column > 0, then a frame: l's list gains the translation q - p (and (0, 0) on l's first clone), stays sorted, no other label changes, and the selection is reset |
| CloneUser.ComesBeforeIsStrictWeakOrder | src/dancer/clone_user.h:65-68 | pts_compare is a strict weak order, as std::sort requires |
| CloneUser.InsertByY | src/dancer/clone_user.h:108 | insertion into a y-sorted list keeps it sorted and adds exactly one element |
| CloneUser.SortByY | src/dancer/clone_user.h:108 | sorting by y returns a y-sorted permutation |
| CloneUser.SortedIsUnchanged | src/dancer/clone_user.h:107-108 | std::sort promises no order among equal y; the model's insertion sort returns a y-sorted list unchanged, so ties keep their input order |
| CloneUser.TiesKeepInputOrder | src/dancer/clone_user.h:66-108 | two translations at the same height come out in the order they were stored |
| CloneUser.Insert | src/dancer/clone_user.h:99-111 | a new clone adds its label, changes no other label's list, keeps that list sorted and resets the selection |
| CloneUser.Process | src/dancer/clone_user.h:86-118 | a clone is inserted exactly when the selected label is non-zero and the paste column is positive; otherwise the clones are unchanged |
| CloneUser.UnlabelledSelectionResets | src/dancer/clone_user.h:88-97 | a click on a background pixel resets the selection |
| CloneUser.PasteAtColumnZeroIsIgnored | src/dancer/clone_user.h:100 | a paste position in column 0 makes no clone; the contour is drawn instead |
| CloneUser.InsertionContents | src/dancer/clone_user.h:101-108 | the new list holds the prior translations plus the new one, plus (0, 0) on a label's first clone, sorted by y |
| CloneUser.ClickAndPaste | src/dancer/clone_user.h:148-159 | select then paste 100 px to the right: label 1 gets translations (100, 0) and (0, 0) |
| CloneUser.RowStats | src/dancer/clone_user.h:38-44 | one row's count and coordinate sums of the pixels not carrying the label, bounded by the row's width |
| CloneUser.GridStatsBounds | src/dancer/clone_user.h:35-45 | the coordinate sums stay within the image's bounding box times the count |
| CloneUser.GridCountZero | src/dancer/clone_user.h:35-45 | nothing is counted exactly when every pixel carries the label |
| CloneUser.CenterOfMassInsideImage | src/dancer/clone_user.h:34-47 | the centre is undefined (division by zero) exactly when every pixel carries the label, and otherwise lies inside the image |
| Helices.Refresh | src/dancer/helices.h:65-103 | refresh_angle, per branch. On the user: the angle advances by elapsed * speed and the speed becomes min(15, speed + 0.5). Off the user at idle speed or slower: shared angle, idle speed. In the slow band (0.8, 2.3]: the shared angle at idle speed when fmod(advanced - shared, pi) < 0.3, otherwise the advanced angle at 1.8. Faster: the advanced angle at max(0, speed - 0.5) |
| Helices.RefreshKeepsBand | src/dancer/helices.h:65-103 | every refresh keeps the speed within [0.8, 15] |
| Helices.OffUserSlowsDown | src/dancer/helices.h:77-102 | off the user, a fast helix loses 0.5 per refresh; a slower one ends at most at the slowdown speed |
| Helices.IdleHelixFollowsShared | src/dancer/helices.h:77-82 | an idle helix off the user follows the shared angle |
| Helices.OffUserWindsDown | src/dancer/helices.h:65-103 | n frames off the user bring a helix down to the slowdown speed, 0.5 per frame |
| Helices.RowCount | src/dancer/helices.h:141-144 | a grid row has ceil(cols / 50) centres |
| Helices.GridCount | src/dancer/helices.h:136-146 | the grid has ceil(rows / 30) * ceil(cols / 50) centres |
| Helices.RowCentresPlaced | src/dancer/helices.h:141-144 | a row's centres lie on that row, every 50 columns, shifted |
| Helices.GridCentresPlaced | src/dancer/helices.h:138-145 | centres lie on rows multiple of 30 inside the image; the first row and every other one after it are shifted by 25, so x may reach cols + 24 |
| Helices.CreateGrid | src/dancer/helices.h:136-146 | the first frame creates one helix per grid centre at the shared angle and idle speed |
| Helices.Tick | src/dancer/helices.h:128-156 | fn creates the grid on the first frame, keeps the helices' number and centres, and refreshes every helix with the mask lookup at its centre and its own elapsed time |
| Helices.TickKeepsBand | src/dancer/helices.h:152-155 | every frame keeps every helix's speed within [0.8, 15] |
| Helices.MaskAtAgreesInside | src/dancer/helices.h:71 | for a centre inside the image, the unchecked buffer read and the bounds-checked lookup see the same pixel |
| Helices.ShiftedCentreReadsNextRow | src/dancer/helices.h:71 | as written, on a 320-pixel-wide frame the grid's centre (325, 0) lies outside the image and its lookup reads pixel (5, 1) of the next row |
| Helices.ShiftedCentreReadsPastMask | src/dancer/helices.h:71 | as written, on a 320 x 61 frame the grid's centre (325, 60) reads past the end of the mask |
| Helices.TickOnMask | src/dancer/helices.h:128-156 | corrected fn: the helices keep their number and centres; a helix is refreshed as on the user exactly when its centre is inside the image on a non-zero mask pixel, and a centre outside the image is always off the user |
| Blur.KernelSize | src/dancer/blur.h:48-49 | the kernel side is odd, at least 5, and 4 or 5 more than the deviation (5 for an even deviation) |
| Blur.KernelMonotone | src/dancer/blur.h:49 | a larger deviation never gives a smaller kernel |
| Blur.Fn | src/dancer/blur.h:42-53 | a copy exactly at deviation 0, otherwise an odd kernel larger than sigma |
| Blur.Mouse | src/dancer/blur.h:63-73 | left click blurs more; right click blurs less, never below 0 |
| Blur.RunStaysInRange | src/dancer/blur.h:63-73 | any click sequence keeps the deviation non-negative and moves it by at most the clicks' count |
| Blur.ClicksCancel | src/dancer/blur.h:63-73 | n left clicks followed by n right clicks restore the deviation |
| Blur.RunAppend | src/dancer/blur.h:63-73 | a concatenated click sequence acts as its parts in turn |
| SkeletonUtils.IndexInSkeleton | src/skeleton_utils.h:60-73 | the index of the first joint whose stored `short` id equals the `int8_t` id, -1 exactly when none has it |
| SkeletonUtils.WideStoredIdNeverFound | src/skeleton_utils.h:64-73 | a joint stored under an id outside the `int8_t` range is never found |
| SkeletonUtils.ToJointId | src/skeleton_utils.h:60 | passing an integer as a JointId keeps its low byte, signed: in [-128, 128) and congruent modulo 256 |
| SkeletonUtils.Lookup | src/skeleton_utils.h:109-114 | direct search finds the table entry for the id, None exactly when there is none |
| SkeletonUtils.ReverseLookup | src/skeleton_utils.h:119-124 | reverse search finds an entry with the name, None exactly when there is none |
| SkeletonUtils.EntryFoundBothWays | src/skeleton_utils.h:109-124 | in a table with distinct ids and names both searches find each entry |
| SkeletonUtils.TableShape | src/skeleton_utils.h:79-104 | the converter holds ids 1..24 in order under distinct names, none of them "ERROR" |
| SkeletonUtils.DirectSearch | src/skeleton_utils.h:109-114 | direct_search answers "ERROR" exactly for `int8_t` ids outside 1..24 |
| SkeletonUtils.NarrowedIdsWrap | src/skeleton_utils.h:60-114 | an int argument is narrowed first: 257 and -255 name the head, 128 gives "ERROR" |
| SkeletonUtils.ReverseSearch | src/skeleton_utils.h:119-124 | reverse_search answers -1 or a joint id 1..24 |
| SkeletonUtils.IdRoundTrip | src/skeleton_utils.h:79-124 | reverse_search(direct_search(id)) == id for every joint id |
| SkeletonUtils.NameRoundTrip | src/skeleton_utils.h:79-124 | direct_search(reverse_search(name)) == name for every known name |
| SkeletonUtils.UnknownNames | src/skeleton_utils.h:119-124 | a name maps to -1 exactly when no joint has it; "ERROR" maps to -1 |
| SkeletonUtils.Trunc | src/skeleton_utils.h:140-141 | the double-to-int conversion truncates toward zero |
| SkeletonUtils.GetPointInSkeleton | src/skeleton_utils.h:133-145 | a found point lies within [-w, 2w] x [-h, 2h]; a missing joint gives none |
| SkeletonUtils.GetPointCharacterised | src/skeleton_utils.h:133-145 | the point is found exactly when some joint has the id and its scaled pose is near the image, and then it is that projection |
| SkeletonUtils.ProjectionExamples | src/skeleton_utils.h:133-145 | (0.5, 0.5) on 640 x 480 projects to (320, 240); x = 2.5 is rejected; a missing joint is rejected |
| EffectCollection.DetectionName | src/dancer/effect_collection.h:210-220 | the name is "unknown" exactly for codes other than 0, 1, 2 |
| EffectCollection.Init | src/dancer/effect_collection.h:51-69 | after init effect 0 (CopyColorToOut) is active under NITE detection and its first_call ran once |
| EffectCollection.NextIndex | src/dancer/effect_collection.h:154-155 | next is (i + 1) mod 20, wrapping to the first |
| EffectCollection.PreviousIndex | src/dancer/effect_collection.h:156-157 | previous is (i + 20 - 1) mod 20 in size_t, wrapping to the last |
| EffectCollection.KeyChar | src/dancer/effect_collection.h:152 | the key code cut to a signed char: in [-128, 128) and congruent to the code modulo 256 |
| EffectCollection.OnKey | src/dancer/effect_collection.h:141-173 | keys are read only with display; 'n' and space select the next effect and 'p' and backspace the previous one; 'u' moves to the next detection strategy and only 'u' changes it; the exit happens exactly on escape's low byte; the index stays valid; effects' states are untouched |
| EffectCollection.OnlyLowByteMatters | src/dancer/effect_collection.h:152 | key codes that differ by a multiple of 256 act alike; no key (-1) does nothing |
| EffectCollection.ModifierFlagsIgnored | src/dancer/effect_collection.h:152-155 | 'n' with a modifier flag above the low byte still selects the next effect |
| EffectCollection.NavigationWraps | src/dancer/effect_collection.h:154-157 | next from the last effect goes to the first; previous from the first goes to Helices |
| EffectCollection.PreviousUndoesNext | src/dancer/effect_collection.h:154-157 | previous undoes next and next undoes previous |
| EffectCollection.DetectionCycles | src/dancer/effect_collection.h:158-167 | 'u' changes the strategy, and three presses restore it |
| EffectCollection.HeadlessIgnoresKeys | src/dancer/effect_collection.h:142-143 | without display no key sequence changes anything |
| EffectCollection.KeysKeepIndexValid | src/dancer/effect_collection.h:152-173 | any key sequence keeps the index valid and the states unchanged, with at most one first_call per key |
| EffectCollection.OnMouse | src/dancer/effect_collection.h:178-182 | a mouse event reaches the active effect only |
| EffectCollection.ClickReachesActiveEffectOnly | src/dancer/effect_collection.h:178-182 | a left click under Blur raises the deviation and changes nothing else |
| EffectCollection.DetectUsers | src/dancer/effect_collection.h:108-128 | NITE passes the sensor mask; depth blob passes the blob mask; the depth remover passes its opened foreground and its background becomes exactly that of one remover step on the depth frame |
| EffectCollection.DepthRemoverIdlesUnlessSelected | src/dancer/effect_collection.h:108-128 | under the other strategies the depth background never moves |
| EffectCollection.RunActive | src/dancer/effect_collection.h:108-128 | one call of the active effect changes that effect's state only; the accelerations baseline becomes non-empty once a long contour is seen |

## Left out

- Drawing: circles, lines, text, arrows, the skeleton overlay, the clone pasting pass (`paste_img` of each translation), and `draw_img_out`. They write pixels only and change no state.
- The OpenCV operations `findContours`, `morphologyEx`, `erode`, `cvtColor`, `absdiff` and `GaussianBlur`. They are parameters or left to the caller. Blur.Fn describes the filter it requests, not the blurred image.
- The `geometry_utils` helpers (closest point on a polygon, open angle, oriented angle), `sqrt`, `cos`, `sin` and `fmod`. Their code is not part of this model, so they are parameters.
- Timers and `drand48`. Elapsed times and random draws are parameters.
- Float and double precision. Values are reals; `float` rounding of the helices' angles and the particles' positions is not modelled.
- The effects not named above (CopyColorToOut, Calibrator, the inpainting and fill effects, KeepOnlyUserColorBackground, KeepOnlyUserVideoBackground, and others). They are entries of the registry with no state in this model. `get_depth_blobs.h` is not part of this model; its mask is an input of EffectCollection.DetectUsers.
- The display itself: window creation, `imshow`, the resize by `_resize_scale`, the text overlay, and `exit(0)` on escape, modelled as the `Exit` result of EffectCollection.OnKey.
- EffectCollection.OnMouse: takes the point already divided by `_resize_scale`. The division and its truncation are not modelled.
- UserAccelerations.SimplifyLoop: the open-angle rule is the parameter `straight`. Only the 15-pixel spacing is guaranteed on the result, because a later erase can undo an earlier angle test. The loop needs fewer than 2^32 points, the range of its `unsigned int` index.
- Particles.Cull: needs fewer than 2^32 particles, the range of the `unsigned int` index.
- UserAccelerations.Tick: when the simplified contour is empty, fn returns early and the baseline keeps its old value; the model does the same.
- CloneUser.Process: requires the clicked pixel to lie inside the mask. The source's `user.at` outside the image is undefined.
- UserEdge.MarkedAsWritten: requires the read of column `max_user_idx` to stay inside the row. Past the row end the source reads the next row's memory.
- Blur.Mouse: `blur_std_dev` is an `int`; the overflow after 2^31 - 1 left clicks is not modelled.
- SkeletonUtils.GetPointInSkeleton: the source writes `pt_out` even when it then returns false. The model returns no point in that case.
- Helices.Tick: the mask lookup is a parameter `onUser`; EffectCollection.RunActive passes the bounds-checked lookup of Helices.TickOnMask, not the unchecked read (see Findings).
- DepthBackground.Tick: requires the frame to have the size of the learnt background. The source walks the new frame with the background's pointer: a smaller frame updates only a prefix, and a larger one reads and writes past the background's end.
- ColorBackground.Tick: requires the frame to have the size of the learnt background. `cv::absdiff` and `accumulateWeighted` fail on a size mismatch, which is not modelled.
- CloneUser.CenterOfMassInsideImage: the centre is the integer quotient of the sums. The source divides in `float` and then truncates, which can round a large sum to one pixel less.
- EffectCollection.OnKey: the key is cut to its low byte as a signed `char`. Whether `char` is signed does not matter, since every key compared with is below 128.
- Particle colours and the helices' colours are not modelled.

## Findings

| source | as written | input that shows it | evidently intended | confidence | as-written member | corrected member |
|---|---|---|---|---|---|---|
| src/dancer/compute_user_accelerations.h:51 | the loop bound `contour.size() - 2` is computed in `size_t`. fn calls simplify_contour on an empty concatenation whenever every contour has fewer than 10 points. The bound then wraps, and the first iteration reads `contour[0]` and `contour[1]` of an empty vector | one contour of one point (a one-pixel blob), `[[Point(0, 0)]]`, shown by UserAccelerations.OnePixelBlobUnderflows | a contour of fewer than two points is left as it is; fn then takes its existing "simplified contour empty" branch | high; not executed | UserAccelerations.TickAsWritten | UserAccelerations.Simplify |
| src/dancer/copy_color_to_out_and_user_edge.h:49 | the upper label bound is tested on `user_data[max_user_idx]`, the pixel at column max_user_idx, instead of `user_data[col]`. CloneUser passes min = max = the selected label, so other users' edges are drawn too | mask `[[2, 1]]`, bounds (1, 1): pixel (0, 0) of user 2 is marked | the visited pixel's label is tested against both bounds | high; not executed | UserEdge.SelectedUserContourLeaks | UserEdge.Marked |
| src/dancer/helices.h:71 | `user.at<uchar>(_center)` reads the mask at every centre without a bounds check. The shifted rows' last centres have x up to cols + 24, so the read lands on the next row's first pixels, or past the buffer on the last row | a 320-pixel-wide frame: the centre (325, 0) reads pixel (5, 1); on 320 x 61 the centre (325, 60) reads past the mask's end | a centre outside the image is off the user | medium; not executed | Helices.ShiftedCentreReadsNextRow | Helices.TickOnMask |
