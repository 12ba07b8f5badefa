# OMAP4 camera, display and heap components: models and proofs

A Dafny model of six pieces of the OMAP4 hardware support code, each proved against what the code is for. The
project verifies with `dafny verify dfyconfig.toml`.

| files | what they model |
|---|---|
| `Common` | an optional value and the size of a machine word |
| `HwcLayers`, `HwcAllocator`, `HwcPicture`, `HwcCounting`, `HwcFrame`, `HwcAllotment`, `HwcColours`, `HwcExternal`, `HwcCloning`, `HwcRuns`, `HwcSettings`, `HwcHandover`, `HwcClashes`, `HwcRefusedPost`, `HwcDevice` | the hardware composer: splitting a layer list between DSS overlays and the GPU (SGX) framebuffer, cloning to an external display, and handing pipelines over from frame to frame |
| `HwcCrop`, `HwcOrientation`, `HwcModes`, `HwcAspect` | cropping an overlay under rotation and mirror; choosing an HDMI mode by a packed score |
| `HeapLists`, `HeapTracker`, `HeapLedger` | the heap tracker's live list and backlog of freed blocks |
| `CameraStates`, `CameraActivities`, `CameraBuffers`, `CameraHolders`, `CameraAdapter` | the camera adapter's state transactions and its shared buffer counts |
| `DisplayBuffers`, `DisplayAdapter` | ownership of preview buffers between camera, display adapter and window |
| `ThreadSlots`, `ThreadDepths` | the lock-free table of per-thread call depths |
| `Planes`, `ColorConvert`, `ChromaPlanes`, `Resizer`, `ResizedChroma` | planar and semi-planar conversions; the bilinear resizer |

Code that changes state step by step is written as classes and loops (`Device`, `OverlayConfig`, `HdrList`, `Tracker`,
the two `Adapter`s, `Debug`, the byte-buffer methods). Each of their methods is proved equal to a function on values,
or to make one step of a transition system; the main results are lemmas about those functions and about every run.

## What is established

**Composer.** A pixel is any value with an associative "over", a neutral element and values that hide what is below
(`HwcPicture.Compositor`; premultiplied blending in reals is an instance). For a list of any length, the DSS stack with
the framebuffer at its z-order shows what painting every layer in list order shows, whenever SGX composes
(`FrameShowsList`). Without SGX that holds exactly when the one-dimensional memory is strictly below the TILER slot and
no BGR layer meets a TV with the RGB-order check off: the counting test accepts a list that fills the slot exactly, and
such a BGR layer, but the allocation loop drops the layer. With red and blue taken into account a frame shows its list
in its colours exactly when moreover every overlay's byte order matches the manager's exchange of the two, which the
check for consistent byte orders always brings about (`FrameShowsColours`). Which layers get an overlay, which frames do
without SGX and what is sent to the external display are said of the list, the settings and the answers alone
(`OverlayExactlyWhen`, `SgxExactlyWhen`, `ClonesExactlyWhen`). A mirrored external display shows exactly what the
overlays of the internal one show, a docked one the docked overlay alone, and neither changes the internal display
(`ExternalShows`). Z-orders of both displays are always a permutation of `0..num_ovls-1`; pipeline indices are distinct
and below four except exactly when two layers that both need a video pipeline are mirrored with two external overlays
free (`PipesClashExactlyWhen`, on prepare's inputs).

Over every run of prepare, set, hotplug and idle events, failing swaps and refused posts included, no unsigned
subtraction wraps, what is prepared stays within four overlays together with the counters of the last frame, and the
guard against a fifth overlay never fires. The counters are updated even when the post was refused. Handover is safe
when every frame that can be prepared before the next set, whatever is plugged and listed, stays within four overlays
together with what is really on the screen. That is so exactly when the counters cover the screen, two internal overlays
apart (`HandoverSafeExactlyWhen`); it survives a set exactly when the post is not refused or the old composition has no
more external overlays than the new one reserves and no more internal ones than two or the new one's number
(`SetKeepsHandoverExactlyWhen`, and `RunsAreHandoverSafeExactlyWhen` for runs). `RefusedPostFromStart` is a run from the
start whose one refused post leads to a frame that takes a pipeline still shown. Even with every post accepted the
reservation counts overlays, not pipelines: a scaled GFX layer moves to the pipeline above the counted ones. In any
state a pipeline is taken from the other display exactly when overlays do not fit or such a layer meets an exact fit
(`StealsExactlyWhenTooMany`); while handover is safe, `PrepareStealsExactlyWhen` says in terms of the list, the settings
and the screen when a frame does that, and `DockingStealsFromThreeVideoLayers` reaches such a state. In every run the
external display is turned as its last plugging says (`TransformIsAsPlugged`), and an idle screen is composed with SGX
until two frames are posted (`TwoForcedFrames`).

**Crop and modes.** On success a crop is the intersection of window and visible rectangle, its source is non-empty and
inside the original source, and its edges are within one and two source pixels of exact proportion; the overlays it
refuses are characterised exactly. With places in the buffer defined by quarter turns and one reflection, every place of
the cropped window shows the source place it showed before, to less than two pixels, in all eight orientations
(`CropShowsSamePlaces`); the orientation given to a layer is its transform's, and combining it with the display's
transform is applying both (the comment at `hwc/hwc.c:684` names the wrong exponent for the mirror, the code is right).
HDMI scores compare lexicographically by their fields, each field measures what it is there for, the fitted picture
keeps its aspect ratio to half a pixel outside the tolerance, and the loop keeps the first best mode. An empty timing is
refused before the 640x480 default is looked at, so the default is never used.

**Heap tracker.** Both intrusive lists stay well formed; every block ever handed out is in exactly one place; the
backlog is the end of the freeing order with at most 50 entries. A failed system `realloc` leaves its block in neither
list: `lost` with its tag still saying live, or `leaked` without a tag if it came from the backlog. Passing a leaked
block again changes nothing; passing a lost one unlinks it a second time with stale links, after which the counter is
one below the number of live blocks and the live list is intact exactly when those links still fit (`Tracker.Free`,
`Tracker.Realloc`). `LosesALiveBlock` is a run of five calls after which a live block is in no list. In every run that
never passes a lost block again the lists agree with a ledger kept from the calls alone: a block is live exactly when
malloc or a granting realloc handed it out and it was not since freed, moved away from or refused (`PlacesMatchLedger`);
and draining releases no block twice, and every block ever handed out exactly when no realloc failed
(`DrainReleasesEverythingExactlyWhen`; `FailedReallocLosesBlock` is the shortest run with a lost block,
`PassedLostIsReleased` shows that the condition is needed).

**Camera adapter.** Whenever the state lock is free no transition is pending, the recording flag says exactly whether
the state is a video state, and `BRACKETING_ZOOM` is never reached. A rejected command moves nothing, but four buffer
registrations run their hook regardless and report its success (`RejectedReportsSuccessExactlyWhen`; for video buffers
that happens in every state, `RejectedRegistrationSucceeds`). Each state stands for a set of activities; the table
accepts a command exactly when the activities allow it, an accepted command starts and ends its own ones, and in every
run the camera zooms, focuses and records exactly when the last such command that succeeded started it
(`CameraActivities`). Registering preview buffers outside a recording makes stored counts equal outstanding holders,
they stay equal in every run, and to the holders counted from deliveries and returns, and each delivered frame is
refilled exactly once; stopping a recording strands a buffer exactly when the encoder alone holds it more than once
(`StoppingEarlyStrands` is such a run).

**Display adapter.** In every interleaving of the two threads a dequeue leaves the window its minimum. A buffer is lost
exactly when a frame is posted between the return of its buffer to the camera and the removal of the buffer's old type,
or when no window is left (`RunsSoundExactlyWhen`): the return comes before the removal, so the removal can take away
the new frame's type. Displayed are exactly the frames posted, while a window is left, after the display was last
started and last not paused, snapshots even then (`ShownExactly`). A buffer that is not lost comes back with the type of
its last frame, whatever the interleaving (`ReturnsAsLastShown`).

**Thread slots.** Under any interleaving of scans, claims, growths, updates and releases no slot is shared, no thread
has two, and a slot holds its owner's nesting depth, counted from the calls it began; a thread left alone finishes its
search and grows the table at most once. Reading the depth outside any function keeps a slot afterwards
(`StrayReadingKeepsSlot`).

**Planes.** Conversion to the encoder's layout and back returns every byte of an even-sized picture, whatever the
padding; a crop takes the right chroma exactly when it starts at an even place, and both chroma planes can come out
whole for every source exactly when width and height are even (`PlanesWholeExactlyWhen`). The resizer's weight table is
the bilinear one, its 16-bit sum cannot overflow, outputs stay in the range of their inputs, and a linear ramp is
sampled exactly. Its chroma half uses the luma's positions on a plane half the size; all its taps are inside exactly
when the last position leaves room for the next pair (`ChromaTapsInsideExactlyWhen`), in which case each channel stays
in its range and a ramp is sampled exactly; that fails for 4 rows enlarged to 64 and holds for 4 enlarged to 5.

## Assumptions

- Composer: layers' clear hints arrive as the caller set them and are only added to; the GPU draws into the framebuffer in
  list order and clears it under overlays with the hint; a refused post leaves the old composition on the screen, and an
  accepted one shows the new one; whether the DSS can scale a layer is an opaque property of the layer; setting up an
  HDMI mode is a success or failure plus a TV flag; a NULL list is an empty one; switching the screen off frees the
  pipelines.
- Colours: the DSS reads every RGB buffer in one byte order, the manager exchanges red and blue of the whole screen, and the
  display driver prepares the conversion of NV12 for that setting.
- Crop: 32-bit overflow is not modelled. Modes: sizes are reals where the code uses floats; resolutions are below 8192.
- Heap tracker: callers pass only blocks the tracker gave them and has not given back to the system. Tracing, guard bytes and locks play no part.
- Camera adapter: `mNextState` starts equal to `mAdapterState`; commands run one at a time; hooks answer anything; a
  missing key reads as count 0; every delivered frame has a subscriber.
- Display adapter: apart from a refused or abandoned dequeue the window and the buffer mapper do not fail; posting a
  frame is one step with respect to the display thread; `mSuspend`, which nothing ever sets, is false.
- Thread slots: thread ids are not 0 and distinct; memory is sequentially consistent; growing is atomic under its mutex.
- Planes: buffers are distinct; offsets do not wrap.

## Model

| member | source | states |
|---|---|---|
| HwcLayers.Mem1dCovers | hwc/hwc.c:379-387 | unless the product wraps, the slot bytes of a buffer have room for every pixel and for less than 32 more per row |
| HwcLayers.GatherLayerStatistics | hwc/hwc.c:958-992 | the counting loop computes the recursive statistics of the list |
| HwcLayers.StatsMeaning | hwc/hwc.c:958-992 | every layer is counted exactly when all are valid; NV12 layers are among the scaled, the scaled among the counted |
| HwcLayers.MemNeverWraps | hwc/hwc.c:989-989 | the unsigned memory counter is the true total while at most four layers count |
| HwcAllocator.AllocateZ | hwc/hwc.c:1254-1301 | overlays keep list order, the framebuffer fills the one gap, and z-orders are a permutation |
| HwcAllocator.AssignSources | hwc/hwc.c:1222-1276 | overlays carry exactly the layers marked for the DSS, in list order, within the limit |
| HwcAllocator.ChosenAreMarked | hwc/hwc.c:1222-1287 | exactly the layers answered as overlays have one, once each and in list order |
| HwcAllocator.AllocatePipes | hwc/hwc.c:1257-1291 | internal pipelines are distinct, fill one range, and pipeline 0 never carries a scaled or NV12 layer |
| HwcAllocator.DockingPicksLargest | hwc/hwc.c:1268-1272 | the docked overlay is the first largest dockable one, and there is one whenever an overlay is dockable |
| HwcPicture.PremultipliedOverIsLawful | hwc/hwc.c:1302-1307 | premultiplied blending is an instance of the assumed algebra |
| HwcPicture.AssignKeepsPicture | hwc/hwc.c:1222-1287 | while the list is processed, lower stack, framebuffer and upper stack show the painted prefix |
| HwcPicture.LeaveKeepsPicture | hwc/hwc.c:1277-1286 | raising the framebuffer by lowering overlays keeps the picture |
| HwcPicture.TakeKeepsPicture | hwc/hwc.c:1226-1276 | giving a layer an overlay, with the clear hint if opaque, keeps the picture |
| HwcPicture.SgxShowsWholeList | hwc/hwc.c:1209-1310 | the screen of a frame composed with SGX is the list painted in order |
| HwcCounting.CountingRefinesGreedy | hwc/hwc.c:1050-1090 | an accepted list is placed whole exactly when its memory is strictly below the slot and no BGR layer is on a TV |
| HwcCounting.DssShowsWholeList | hwc/hwc.c:1222-1276 | without SGX a list placed whole shows the painted list |
| HwcCounting.LeftOutLayerIsInvisible | hwc/hwc.c:1277-1287 | without SGX a layer left out is not on the screen |
| HwcCounting.PipesWithinLimit | hwc/hwc.c:1047-1064 | without mirroring, internal overlays and the pipeline of a scaled GFX layer stay within the granted number |
| HwcCounting.SlotBoundary | hwc/hwc.c:1064-1064 | any unscaled layer that fills the slot exactly is accepted and then dropped |
| HwcCounting.SlotBoundaryLosesLayer | hwc/hwc.c:1229-1229 | a 2048 by 2048 layer of four bytes per pixel is such a layer |
| HwcCounting.BgrOnTvDropped | hwc/hwc.c:1068-1089 | any unscaled BGR layer below the slot, on a TV without the order check, is accepted and then dropped |
| HwcCounting.BgrOnTvLosesLayer | hwc/hwc.c:1086-1089 | a concrete such layer |
| HwcFrame.ReservationSafe | hwc/hwc.c:994-1048 | no subtraction wraps; both displays stay within what the last frame leaves free; at least one overlay is granted |
| HwcFrame.PlanWithinLimits | hwc/hwc.c:1179-1376 | every frame's overlays and clones stay within four and within the reservation |
| HwcFrame.PlanZOrders | hwc/hwc.c:1254-1365 | z-orders of both displays are a permutation of 0..num_ovls-1 |
| HwcFrame.PipesOkIffTheyFit | hwc/hwc.c:1290-1365 | pipelines are distinct and below four exactly when overlays, clones and the GFX gap number at most four |
| HwcClashes.PipesClashExactlyWhen | hwc/hwc.c:1097-1117 | pipelines clash exactly when two layers that both need a video pipeline are accepted whole and mirrored with two external overlays free |
| HwcFrame.FrameShowsList | hwc/hwc.c:1179-1310 | a prepared frame shows its whole list with SGX always, without SGX exactly under the stated condition |
| HwcColours.FrameShowsColours | hwc/hwc.c:1197-1365 | a prepared frame shows its list in its colours exactly when it shows its list and every overlay's byte order matches the manager's setting; the RGB-order check makes them match |
| HwcColours.MismatchIsSeen | hwc/hwc.c:1365-1365 | a layer whose byte order does not match is seen with red and blue exchanged |
| HwcColours.RgbaIsLawful | hwc/hwc.c:1302-1307 | premultiplied blending of three colours, with red and blue exchanged, is an instance of the assumed algebra |
| HwcAllotment.OverlayExactlyWhen | hwc/hwc.c:1068-1234 | a layer gets an overlay exactly when the settings, its own format, transform and blending, and the answers before it say so: byte order, rotation, TV, NV12-only, forced SGX, number and memory |
| HwcAllotment.SgxExactlyWhen | hwc/hwc.c:1050-1066 | SGX stays out exactly when every layer is presentable and number, scaling, memory, transform and byte orders let the DSS show all |
| HwcAllotment.SwapFollows | hwc/hwc.c:1197-1207 | red and blue are exchanged for the framebuffer's format with SGX, without it exactly when a presentable layer is BGR |
| HwcAllotment.BlendingExactlyWhen | hwc/hwc.c:1236-1242 | blending is remembered exactly when a blended layer other than the backmost has an overlay |
| HwcAllotment.DockableExactlyWhen | hwc/hwc.c:958-992 | a list counts as dockable exactly when a presentable layer is |
| HwcExternal.ExternalShows | hwc/hwc.c:1312-1365 | a mirrored display shows the internal overlays in their order, a docked one the docked overlay alone, and the internal display is as without clones |
| HwcCloning.ClonesExactlyWhen | hwc/hwc.c:1312-1376 | what each frame sends to the external display and reserves there, on settings, list and HDMI outcome; a failed docking mode switches it off |
| HwcCloning.DockedIsLargest | hwc/hwc.c:1267-1272 | the overlay to dock is that of the first dockable layer covering most of the display |
| HwcCloning.PrepareRemembers | hwc/hwc.c:1312-1350 | the next frame knows how this one was shown outside; the TV flag is set exactly when docking, or mirroring after docking, set up a mode for a TV |
| HwcHandover.HandoverSafeExactlyWhen | hwc/hwc.c:994-1048 | every frame that can be prepared before the next set fits beside the screen exactly when the counters cover the screen, two internal overlays apart |
| HwcHandover.RunsAreHandoverSafeExactlyWhen | hwc/hwc.c:1421-1484 | after every event of every run no subtraction wraps and counts stay within four; every frame that can follow fits beside the screen exactly when the last set that took effect was not refused or left a composition that fits |
| HwcHandover.RunsAreHandoverSafe | hwc/hwc.c:1312-1376 | handover stays safe throughout every run whose posts succeed |
| HwcRuns.PrepareKeepsCounts | hwc/hwc.c:1179-1376 | preparing any list grants at least one overlay and keeps the counts safe |
| HwcHandover.SetKeepsHandoverExactlyWhen | hwc/hwc.c:1421-1484 | handover survives a set exactly when the post is not refused or the screen has no more external overlays than the new frame reserves and no more internal ones than two or the new frame's number |
| HwcRuns.HotplugKeepsCounts | hwc/hwc.c:1677-1743 | plugging and unplugging keep the counts safe and what they cover |
| HwcRuns.MirroringBySecondFrame | hwc/hwc.c:1010-1046 | with mirroring kept on and modes succeeding, the second frame copies every internal overlay |
| HwcSettings.SharesHoldNothingBack | hwc/hwc.c:994-1048 | docking comes before mirroring when there is something to dock; each display is granted all that the last frame leaves free |
| HwcSettings.TransformIsAsPlugged | hwc/hwc.c:1677-1715 | after every run the next frame enables, docks, turns and mirrors the external display as its last plugging says |
| HwcSettings.TwoForcedFrames | hwc/hwc.c:1792-1801 | after an idle timeout with blended overlays every frame uses SGX until two are posted, and nothing is forced afterwards |
| HwcSettings.TvIsRemembered | hwc/hwc.c:938-939 | the display is taken for a TV only after a mode was set up for one, and for good |
| HwcClashes.StealsExactlyWhenTooMany | hwc/hwc.c:1289-1291 | in any state, after refused posts too, a pipeline still shown is taken exactly when overlays do not fit, or fit exactly with a scaled GFX layer among them |
| HwcClashes.PrepareStealsExactlyWhen | hwc/hwc.c:1289-1291 | while handover is safe, preparing a list takes a pipeline still shown exactly when a mirrored video pair follows two external overlays, or new clones meet a scaled composition |
| HwcClashes.SomeTakenExactlyWhen | hwc/hwc.c:1222-1276 | with SGX some layer gets an overlay exactly when there is a second overlay and a layer that passes the tests with nothing used yet, blended ones only in first place |
| HwcClashes.DockingStealsFromThreeVideoLayers | hwc/hwc.c:1124-1163 | three video layers, then docking: the dock takes pipeline 3 from them |
| HwcClashes.MirroredVideoPairClashes | hwc/hwc.c:1108-1117 | mirroring any two video layers clashes |
| HwcClashes.RefusedPostLosesTrack | hwc/hwc.c:1458-1473 | four plain layers shown, the next post refused, mirroring plugged in: it takes a pipeline that is still shown |
| HwcRefusedPost.RefusedPostFromStart | hwc/hwc.c:1458-1473 | six events from a freshly opened composer that do so |
| HwcDevice.LayerList.Answer | hwc/hwc.c:1232-1237 | writes one layer's composition type and adds its hint |
| HwcDevice.LayerList.CarriedHintsCover | hwc/hwc.c:1232-1241 | the hints a list ends up with, whatever it came with, are ones the picture holds for |
| HwcDevice.Device.DecideSupportedCloning | hwc/hwc.c:994-1048 | computes the pipeline shares in place |
| HwcDevice.Device.RaiseFramebuffer | hwc/hwc.c:1282-1285 | the lowering loop moves the framebuffer to the top |
| HwcDevice.Device.PlaceLayer | hwc/hwc.c:1230-1276 | one layer gets the next overlay |
| HwcDevice.Device.LeaveToSgx | hwc/hwc.c:1277-1286 | one layer is left to SGX |
| HwcDevice.Device.AllocateOverlays | hwc/hwc.c:1209-1310 | the loop computes the allocation and writes its answers into the list |
| HwcDevice.Device.ComposeWith | hwc/hwc.c:1190-1207 | SGX is used exactly when the counting test rejects the frame |
| HwcDevice.Device.CloneLayer | hwc/hwc.c:1097-1122 | copies an overlay with its z-order and pipeline; refuses only when all four are used |
| HwcDevice.Device.MirrorAll | hwc/hwc.c:1343-1348 | every internal overlay is copied; the guard never fires |
| HwcDevice.Device.Dock | hwc/hwc.c:1317-1335 | the docked overlay or the dock image goes to the external display |
| HwcDevice.Device.Prepare | hwc/hwc.c:1179-1391 | the device's new state, overlays and list are those of the frame function, and the invariant is kept |
| HwcDevice.Device.Set | hwc/hwc.c:1421-1484 | the new state is the run model's; another frame is asked for exactly when external overlays are missing |
| HwcDevice.Device.HandleHotplug | hwc/hwc.c:1677-1743 | the new settings are the run model's |
| HwcDevice.Device.IdleTimeout | hwc/hwc.c:1792-1801 | blended overlays are composed with SGX for two frames |
| HwcCrop.CropIsFaithful | hwc/hwc.c:589-659 | success yields the intersection, a non-empty source inside the original that keeps uncut edges, edges within one and two pixels |
| HwcOrientation.CropShowsSamePlaces | hwc/hwc.c:589-659 | in all eight orientations every place of the cropped window shows the source place it showed before, to less than two pixels |
| HwcOrientation.AlignedAxesShowSource | hwc/hwc.c:608-615 | the aligned axes read the buffer where quarter turns and a reflection say |
| HwcOrientation.LayerShowsItsTransform | hwc/hwc.c:461-471 | the rotation and mirror of a layer show its flips followed by its quarter turn |
| HwcOrientation.CombinedShowsBoth | hwc/hwc.c:684-689 | a copy's combined rotation and mirror show what the display's transform makes of the overlay |
| HwcOrientation.UnscaledExactlyWhen | hwc/hwc.c:311-320 | a layer counts as unscaled exactly when both display axes show as many source pixels as they have |
| HwcCrop.RefusedExactlyWhen | hwc/hwc.c:619-648 | refused exactly when an axis is outside or its right cut leaves under one source pixel |
| HwcCrop.VisibleIsUnchanged | hwc/hwc.c:600-659 | a visible window is left as it was: the flips undo each other |
| HwcCrop.CropIsIdempotent | hwc/hwc.c:589-659 | cropping twice is cropping once |
| HwcCrop.OverlayConfig.CropTo | hwc/hwc.c:589-659 | the in-place crop is the functional one; a refusal changes nothing |
| HwcModes.FitsScreen | hwc/hwc.c:532-557 | the fitted size never exceeds the screen and fills it in one direction |
| HwcAspect.FitKeepsAspect | hwc/hwc.c:532-557 | outside the tolerance the fitted size has the picture's aspect ratio to half a pixel; within it, it is the whole screen |
| HwcAspect.ModeKeepsAspect | hwc/hwc.c:861-879 | so has each candidate's, on a screen shaped by the mode's own flag or the display |
| HwcAspect.FieldsMeasure | hwc/hwc.c:796-826 | field by field what a score is made of: standard, no shrinking, mode in use, scaling and filling in sixteenths, rate |
| HwcModes.ScoreIsDigits | hwc/hwc.c:791-827 | the packed score is the number whose digits are the fields |
| HwcModes.ScoresCompareLexicographically | hwc/hwc.c:902-902 | comparing scores is comparing fields in order of preference |
| HwcModes.FieldsFit | hwc/hwc.c:796-824 | every field of an ordinary mode fits its place, no product leaves the word, and no score is 0 |
| HwcModes.SelectBest | hwc/hwc.c:853-910 | the loop returns the first lexicographic best of the eligible modes, or none if there is none |
| HwcAspect.ChosenIsUsable | hwc/hwc.c:875-887 | the chosen mode is usable, and when none is chosen none is |
| HwcModes.SelectMode | hwc/hwc.c:829-930 | an empty picture or timing is refused; else the best mode is used, or the current timing if it is driven, progressive and can be scaled to |
| HeapLists.HdrList.Add | heaptracker.c:162-171 | appending keeps a well-formed list and puts the block last |
| HeapLists.HdrList.Del | heaptracker.c:173-184 | unlinking keeps a well-formed list without the block; stale links rewrite the ends and neighbours they name |
| HeapLists.HdrList.SeveredSurvives | heaptracker.c:173-184 | a list from which a block is unlinked that it has no more survives exactly when the block's old links still fit |
| HeapTracker.Tracker.AddLive | heaptracker.c:186-196 | the block joins the live list with its tag and count |
| HeapTracker.Tracker.DelLive | heaptracker.c:198-208 | a block is unlinked exactly when tagged as live, so a lost one a second time |
| HeapTracker.Tracker.DelFromBacklog | heaptracker.c:291-302 | a backlog block is unlinked even when corrupt |
| HeapTracker.Tracker.EvictOldest | heaptracker.c:331-345 | the oldest blocks are really freed until 50 are left |
| HeapTracker.Tracker.Malloc | heaptracker.c:347-359 | a granted block becomes the newest live one, tagged, of its size; otherwise nothing changes |
| HeapTracker.Tracker.Calloc | heaptracker.c:461-474 | the size is the product in an unsigned word |
| HeapTracker.Tracker.Free | heaptracker.c:361-400 | a live block moves to the backlog; NULL, double frees and untagged blocks change nothing; lists and counters survive a block whose realloc failed exactly when it is not tagged live, else the counter is one too low |
| HeapTracker.Tracker.Realloc | heaptracker.c:402-459 | a block is taken out of its place and put back as the system decides, an untagged one is left alone for untracked memory; what is granted is the newest live block, tagged, of the size asked for, and another block than the old one only if that went back to the system; the tag a failure leaves; the same survival condition as for free |
| HeapTracker.Tracker.FreeLeakedMemory | heaptracker.c:476-503 | terminates with both lists empty, every block released newest first, whatever the tags and the live counter |
| HeapTracker.NextKeepsSound | heaptracker.c:331-459 | one event keeps every block in one place and the backlog the end of the freeing order |
| HeapTracker.RunsConserveBlocks | heaptracker.c:331-474 | in every run that never passes a lost block again the places hold exactly the blocks handed out, the backlog stays bounded, and a block is lost exactly when a realloc failed |
| HeapLedger.PlacesMatchLedger | heaptracker.c:347-459 | in every such run each block is where the calls alone say: live, freed, moved away from, refused as a live or as a freed one, or unknown |
| HeapLedger.LiveListIsLedger | heaptracker.c:347-459 | the live list is exactly the blocks handed out and not since freed, moved or refused, each once |
| HeapLedger.BacklogIsLatestFreed | heaptracker.c:331-345 | in every such run the backlog holds exactly the latest blocks freed and not taken back by a realloc, in order, up to 50 |
| HeapLedger.DrainOrder | heaptracker.c:476-503 | draining releases live blocks newest first, then the backlog oldest first |
| HeapTracker.DrainReleasesEverythingExactlyWhen | heaptracker.c:476-503 | draining after any such run releases no block twice, and every block ever handed out exactly when no realloc failed |
| HeapTracker.FailedReallocLosesBlock | heaptracker.c:451-458 | one allocation and one failing realloc: the block is in neither list and never drained |
| HeapTracker.PassedLostIsReleased | heaptracker.c:361-400 | a run that frees a lost block: everything is released although a realloc failed |
| HeapTracker.LosesALiveBlock | heaptracker.c:173-208 | five calls after which a live block whose own realloc never failed is in no list and the counter is one too low |
| HeapTracker.DoubleFreeIsHarmless | heaptracker.c:361-400 | freeing a backlog block changes nothing |
| CameraStates.SendSettles | camera/BaseCameraAdapter.cpp:406-1139 | after a command no transition is pending and recording matches the state |
| CameraStates.VideoCommandsSucceed | camera/BaseCameraAdapter.cpp:725-779 | starting and stopping video never fail once the table allows them |
| CameraStates.RejectedMovesNothing | camera/BaseCameraAdapter.cpp:2544-2557 | a rejected or failed command changes neither state nor recording |
| CameraStates.RejectedRegistrationSucceeds | camera/BaseCameraAdapter.cpp:1069-1112 | in every settled state registering video buffers is rejected, moves nothing and reports success |
| CameraStates.RunsStaySettled | camera/BaseCameraAdapter.cpp:406-1139 | the same after every run, whatever hooks answer |
| CameraActivities.AcceptedExactlyWhen | camera/BaseCameraAdapter.cpp:1882-2441 | the table accepts a command exactly when the activities the state combines allow it |
| CameraActivities.CommandMovesActivities | camera/BaseCameraAdapter.cpp:1882-2441 | after any run an accepted, successful command starts and ends its own activities and no others; anything else leaves the state |
| CameraActivities.StatesDiffer | camera/inc/CameraHal.h:881-900 | no two states combine the same activities |
| CameraActivities.RunsRememberModes | camera/BaseCameraAdapter.cpp:406-1139 | in every run the camera zooms, focuses and records exactly when the last such command that succeeded started it |
| CameraActivities.RunsAnswer | camera/BaseCameraAdapter.cpp:406-1139 | after any run the answer to a command is decided by its arguments, the table and its hook, in the stated order |
| CameraActivities.RollBackUndoesLast | camera/BaseCameraAdapter.cpp:2458-2525 | one step back ends zoom, focus, bracketing, capture, video or preview, in this order of preference; loaded states have none |
| CameraStates.UndoLeadsDown | camera/BaseCameraAdapter.cpp:2458-2525 | the undo command is allowed and leads one rank down |
| CameraStates.RollBack | camera/BaseCameraAdapter.cpp:2443-2456 | at most three commands; ends INITIALIZED unless a hook fails; LOADED states fail at once unchanged |
| CameraBuffers.StepAgrees | camera/BaseCameraAdapter.cpp:332-404 | counts stay equal to holders and a buffer is filled exactly when its last holder gives it up |
| CameraBuffers.RunsAgree | camera/BaseCameraAdapter.cpp:1424-1484 | the same in every run of deliveries, returns and recordings |
| CameraBuffers.FilledOncePerDelivery | camera/BaseCameraAdapter.cpp:384-402 | every delivered frame is filled exactly once |
| CameraHolders.CountsAreHolders | camera/BaseCameraAdapter.cpp:332-404 | in every run a count is the subscribers of that kind the last delivery named, less the returns since |
| CameraHolders.FilledByLastReturn | camera/BaseCameraAdapter.cpp:368-402 | after any run a return fills the buffer exactly when it was the last frame of it held by anyone |
| CameraAdapter.RegistrationAgrees | camera/BaseCameraAdapter.cpp:429-447 | registered counts equal the holders: queueable buffers with the camera, the others out with their provider |
| CameraBuffers.StoppingStrandsExactlyWhen | camera/BaseCameraAdapter.cpp:1621-1651 | stopping strands a buffer exactly when the encoder alone holds it more than once |
| CameraBuffers.StoppingEarlyStrands | camera/BaseCameraAdapter.cpp:1621-1651 | a legal run that strands a buffer: two or more video subscribers alone, stopped before they return it |
| CameraBuffers.OnlyStoppingStrands | camera/BaseCameraAdapter.cpp:1590-1619 | no other event strands a buffer |
| CameraBuffers.StrandedForGood | camera/BaseCameraAdapter.cpp:350-390 | a stranded buffer never returns to the camera |
| CameraAdapter.Adapter.ReturnFrame | camera/BaseCameraAdapter.cpp:332-404 | the counts and fills after a return |
| CameraAdapter.Adapter.SetInitFrameRefCount | camera/BaseCameraAdapter.cpp:1424-1484 | a delivered frame's counts |
| CameraAdapter.Adapter.StartVideoCapture | camera/BaseCameraAdapter.cpp:1590-1619 | video counts of all preview buffers start at 0; refused while recording |
| CameraAdapter.Adapter.StopVideoCapture | camera/BaseCameraAdapter.cpp:1621-1651 | one hold per buffer is returned, the rest written off |
| CameraAdapter.Adapter.SetState | camera/BaseCameraAdapter.cpp:1882-2441 | takes the lock even when the table rejects the command |
| CameraAdapter.Adapter.RegisterPreview | camera/BaseCameraAdapter.cpp:429-447 | queueable buffers start at 0, the provider's at 1, which agrees with their holders |
| CameraAdapter.Adapter.SendCommand | camera/BaseCameraAdapter.cpp:406-1139 | the exact move, one lock and one unlock per transaction, and counts that stay non-negative |
| CameraAdapter.Adapter.RollbackToPreviousState | camera/BaseCameraAdapter.cpp:2458-2525 | one step back |
| CameraAdapter.Adapter.RollbackToInitializedState | camera/BaseCameraAdapter.cpp:2443-2456 | the loop is the recursive roll back, with as many commands |
| DisplayBuffers.StepStaysConsistent | camera/ANativeWindowDisplayAdapter.cpp:957-981 | camera map and window split the buffers; the window has its minimum plus the tokens |
| DisplayBuffers.StepSoundExactlyWhen | camera/ANativeWindowDisplayAdapter.cpp:1102-1205 | a step loses a buffer exactly when its frame overtakes the removal of its type, or has no window |
| DisplayBuffers.LostForGood | camera/ANativeWindowDisplayAdapter.cpp:1284-1291 | a lost buffer stays lost |
| DisplayBuffers.RunsSoundExactlyWhen | camera/ANativeWindowDisplayAdapter.cpp:1278-1297 | the same for every run of both threads |
| DisplayBuffers.SoundReturnsWithType | camera/ANativeWindowDisplayAdapter.cpp:1284-1297 | in a sound state a returned buffer has a type and reaches the camera, and types are exactly those of the window's buffers |
| DisplayBuffers.ReturnsAsLastShown | camera/ANativeWindowDisplayAdapter.cpp:1102-1296 | in any interleaving a buffer of the window that is not lost has the kind of its last frame as its type, and comes back with it |
| DisplayBuffers.TokensExactly | camera/ANativeWindowDisplayAdapter.cpp:936-1068 | the tokens waiting are the frames given to the window less the turns taken, and only stopping flushes them |
| DisplayBuffers.CameraHasTheRest | camera/ANativeWindowDisplayAdapter.cpp:1102-1205 | the camera has all buffers but the minimum and the tokens |
| DisplayBuffers.ShownExactly | camera/ANativeWindowDisplayAdapter.cpp:1104-1106 | in any interleaving exactly the frames posted with a window left, last started and last not paused are displayed, in order, snapshots despite a pause |
| DisplayBuffers.FrameOvertakesForgetting | camera/ANativeWindowDisplayAdapter.cpp:1296-1297 | a run of three steps that loses a buffer |
| DisplayAdapter.Adapter.AllocateBufferList | camera/ANativeWindowDisplayAdapter.cpp:525-684 | shares the buffers out soundly, exactly when they number at least the minimum |
| DisplayAdapter.Adapter.PostFrame | camera/ANativeWindowDisplayAdapter.cpp:1071-1208 | shown or not, the buffer goes to the window and a token asks for one |
| DisplayAdapter.Adapter.PauseDisplay | camera/ANativeWindowDisplayAdapter.cpp:491-505 | a pause decides about the preview frames posted from then on |
| DisplayAdapter.Adapter.ReturnToCamera | camera/ANativeWindowDisplayAdapter.cpp:1211-1296 | a dequeued buffer joins the camera map and goes back, with its type, if it has one |
| DisplayAdapter.Adapter.HandleFrameReturn | camera/ANativeWindowDisplayAdapter.cpp:1211-1300 | the whole return, undisturbed |
| DisplayAdapter.Adapter.ServeToken | camera/ANativeWindowDisplayAdapter.cpp:936-992 | one turn of the display thread with a token waiting |
| DisplayAdapter.Adapter.ProcessHalMsg | camera/ANativeWindowDisplayAdapter.cpp:995-1068 | a command sets the state; stopping flushes the tokens |
| ThreadSlots.StepKeepsInv | libtiutils/DebugUtils.h:253-306 | one atomic action of one thread keeps the invariant |
| ThreadSlots.RunsKeepInv | libtiutils/DebugUtils.cpp:54-91 | so does every interleaving |
| ThreadSlots.SlotsAreExclusive | libtiutils/DebugUtils.h:253-289 | at most one slot per thread, free slots at offset 0, taken ones at their owner's depth |
| ThreadSlots.QueryReadsDepth | libtiutils/DebugUtils.h:309-319 | reading the depth gives the thread's own nesting depth |
| ThreadDepths.SlotHoldsNesting | libtiutils/DebugUtils.h:291-319 | in every interleaving a slot holds, and a reading finds, the functions its owner entered and has not left, counted from its calls |
| ThreadDepths.NestedOwnsSlot | libtiutils/DebugUtils.h:253-306 | a thread inside n functions owns a slot with offset n |
| ThreadSlots.LeavingNeverClaims | libtiutils/DebugUtils.h:291-306 | leaving a function never claims a slot |
| ThreadSlots.SlotKeptExactlyWhen | libtiutils/DebugUtils.h:300-306 | between operations a slot is kept exactly inside a function or after a stray reading |
| ThreadSlots.StrayReadingKeepsSlot | libtiutils/DebugUtils.h:309-319 | a run of any one thread that reads its depth once, outside any function, and keeps slot 0 |
| ThreadSlots.AloneFinds | libtiutils/DebugUtils.h:253-289 | an undisturbed search ends at the thread's slot, a free one, or a grown table's first |
| ThreadSlots.Debug.Grow | libtiutils/DebugUtils.cpp:54-77 | the new table has every older slot in place and 16 free ones |
| ThreadSlots.Debug.RegisterThread | libtiutils/DebugUtils.cpp:79-91 | claims the first free slot |
| ThreadSlots.Debug.FindCurrentThreadInfo | libtiutils/DebugUtils.h:253-289 | the retry loop ends where the undisturbed search does |
| ThreadSlots.Debug.AddOffsetForCurrentThread | libtiutils/DebugUtils.h:291-306 | the depth moves by the offset and the slot is given up at zero |
| ColorConvert.ConvertDecoderOutputToI420 | libI420colorconvert/ColorConvert.cpp:25-59 | luma rows always, both chroma planes for an even size, are those of the cropped source |
| ColorConvert.ConvertI420ToEncoderInput | libI420colorconvert/ColorConvert.cpp:65-90 | the destination holds the planar picture, whatever its padding |
| ColorConvert.ChromaAlignedExactlyWhen | libI420colorconvert/ColorConvert.cpp:28-31 | chroma is read from the crop's first pair exactly when it starts at an even place |
| ChromaPlanes.PlanesWholeExactlyWhen | libI420colorconvert/ColorConvert.cpp:33-57 | for every source both chroma planes can stand where they are written, exactly for even width and height |
| ColorConvert.CropTakesPixels | libI420colorconvert/ColorConvert.cpp:43-57 | output pixel (x, y) is source pixel (left + x, top + y), luma and chroma |
| ColorConvert.EncoderShowsPixels | libI420colorconvert/ColorConvert.cpp:71-88 | the encoder's layout moves no pixel |
| ColorConvert.PlanesFollow | libI420colorconvert/ColorConvert.cpp:33-41 | in the planar layout luma takes a byte for each pixel, then u and v follow with one for each whole block of four |
| ColorConvert.SamePicture | libI420colorconvert/ColorConvert.cpp:25-90 | a planar picture is determined byte for byte by its semi-planar form |
| ColorConvert.RoundTrip | libI420colorconvert/ColorConvert.cpp:25-90 | there and back returns every byte of an even-sized picture |
| Resizer.WeightsAreBilinear | camera/inc/NV12_resize.h:59-83 | every entry of the weight table is the bilinear weight |
| Resizer.Filter | camera/NV12_resize.cpp:125-174 | the weighted 16-bit sum is the interpolation and cannot overflow |
| Resizer.PositionInside | camera/NV12_resize.cpp:104-137 | every tap lies inside and products stay below 512 times the size |
| Resizer.TapsInsideExactlyWhen | camera/NV12_resize.cpp:116-166 | taps lie inside exactly when the input is at least two pixels across |
| Resizer.PositionIsProportional | camera/NV12_resize.cpp:104-105 | positions lag exact proportion by less than a 512th of a pixel per step |
| Resizer.ResizeLuma | camera/NV12_resize.cpp:74-180 | every output pixel is the interpolation at its position; refusals write nothing |
| Resizer.ResizedStaysInRange | camera/NV12_resize.cpp:116-179 | outputs stay between the darkest and brightest inputs |
| Resizer.ResizedRampIsSampled | camera/NV12_resize.cpp:104-179 | a linear ramp comes out as its value at the position, to an eighth of a pixel |
| Resizer.BilinearMonotone | camera/NV12_resize.cpp:141-174 | brighter inputs give brighter outputs |
| Resizer.CropPlacedExactlyWhen | camera/NV12_resize.cpp:113-113 | a crop lands on its rows exactly when it starts in the first row or rows have no padding |
| Resizer.ResizeChroma | camera/NV12_resize.cpp:182-283 | every output pair is the interpolation of the pairs at the luma's position |
| ResizedChroma.ChromaTaps | camera/NV12_resize.cpp:195-240 | each channel is interpolated between four neighbouring pairs of its own |
| ResizedChroma.ChromaStaysInRange | camera/NV12_resize.cpp:195-283 | no channel leaves the range it has in the plane |
| ResizedChroma.ChromaRampIsSampled | camera/NV12_resize.cpp:188-283 | a channel that is a linear ramp comes out as its value at the position, to an eighth of a pair |
| Resizer.ResizeFrame | camera/NV12_resize.cpp:74-287 | both halves together; refusals write neither plane |
| Resizer.ChromaTapsInsideExactlyWhen | camera/NV12_resize.cpp:188-205 | all pairs needed are inside the half-size plane exactly when the last position leaves room for the next pair |
| Resizer.PlaneIsEnough | camera/NV12_resize.cpp:195-240 | under that condition for rows and columns the chroma half reads only the plane's own bytes |
| Resizer.ChromaReadsPastItsPlane | camera/NV12_resize.cpp:188-205 | enlarging 4 rows to 64 needs a third of two chroma rows; enlarging them to 5 does not |

## Left out

- Composer: ioctl, EGL, Post2 beyond its result, the wait for the vertical sync, uevent and PNG code; the pixels of the
  dock image; the scaling limits of the DSS; float matrices of the external display, so a clone's area and position; the
  buffer array; contents of overlay configurations other than z-order, pipeline, manager, source, area and orientation; races on
  `force_dock`, which is written without the lock.
- HwcRuns.MirroringBySecondFrame: for the mirroring choice; docking also needs a dockable layer in the list.
- HwcCrop.OverlayConfig.CropTo: does not model 32-bit overflow of the products.
- HwcModes.SelectMode: covers ordinary resolutions (below 8192); the display query and the mode switch are not modelled,
  nor which modes the DSS can scale to.
- HwcClashes.PrepareStealsExactlyWhen: for states in which handover is safe; for those a refused post leaves, the condition
  is on the two compositions (`StealsExactlyWhenTooMany`), with a run that reaches one.
- HeapTracker.RunsConserveBlocks: what a run does after it has passed a lost block again; the lists may then lead anywhere.
- HeapLedger.PlacesMatchLedger: the same.
- Heap tracker: guard bytes, backtraces, mutexes and the scanner thread; its reports only read.
- Camera adapter: the parameters, subscriber lists and hardware behind the hooks; image, raw, snapshot, measurement and
  reprocess counts; the debugging counters; events and frames sent while a command runs.
- Display adapter: allocation failures, teardown and restart of the window; the crop rectangle; interleavings inside
  PostFrame itself.
- ThreadSlots: weak memory effects of reading `mData` and `threadId` without a lock; log formatting.
- ColorConvert.ConvertDecoderOutputToI420: for odd sizes, where the chroma planes overlap, which of two bytes stays at a
  shared place is not described.
- Resizer.ResizeLuma: inputs one pixel across, whose second tap is outside.
- Resizer.ResizeChroma: what it computes when its taps leave the plane is stated for the bytes that lie there.
- The YUYV branches of `copy2Dto1D` and `yuyv_to_yuv`; all ARM assembly.
- `CameraHal`, the OMX components, parameter tables, message queues, semaphores, memory managers and sensor glue: thin
  wrappers over parts that are not in the repository.
