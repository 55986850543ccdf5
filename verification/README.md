# Verified models of the compositor, the clipboard bridge and the package index

This Dafny project models the parts of the repository whose correctness is an
argument rather than a look, and proves it.

* **Incremental repaint** of the `iosc` compositor. A bounded, in-place merged
  list of damage rectangles, three frames of damage history replayed by buffer
  age, a rotating output queue, occlusion by rectangle subtraction, and a direct
  scan-out path, all against one reference: paint every layer over the whole
  output, back to front. `Compositor.Compositor.Run` is the result: in every run
  each published frame is that full repaint, pixel for pixel, except at pixels
  that an event changed without recording them as damage and that nothing has
  repainted since, and after every repaint for which a buffer was free it is on
  screen. Which events change pixels so, requests about one surface and changes of
  the cursor among them, and exactly when, is proved case by case, down to the
  texels the linear filter mixes (`RequestLoss`, `ViewportLoss`, `DirtyLoss`,
  `RedrawLoss`, `OverlayLoss`); a run of events that meet those conditions has no
  wrong pixel in any frame (`Compositor.Compositor.RunSafely`).
  Files: `Geometry`, `Texture`, `Scene`, `Painter`, `Damage`, `OutputQueue`,
  `FrameLog`, `SceneChange`, `Stretch`, `Scaled`, `AtOnce`, `Requests`, `RequestLoss`,
  `ViewportLoss`, `DirtyLoss`, `RedrawLoss`, `SafeRequests`, `OverlayLoss`, `Events`,
  `Session`, `SceneLaws`, `Compositor`, `StaleScreen`, `CursorRuns`.
* **Window state.** The band-sorted z-order with transient raise (`ZOrder`,
  `Transients`); popup grabs, keyboard focus and surface teardown under requests
  that re-enter each other (`SeatState`, `SeatTrace`, `Forest`, `Seat`, `SeatLaws`,
  `LostKeyboard`); presentation feedback (`Presentation`, `Presenter`, `PresentTrace`).
* **The clipboard bridge.** Wire format (`ClipWire`), resumable framing
  (`ClipFrame`, `ClipReceive`), the bounded transmit queue (`ClipSend`), what a run
  leaves in the store (`ClipTrace`) and convergence of every listening host, whose
  queue is that one, to it (`ClipHosts`, `ClipBridge`).
* **Debian versions and the APT index.** Three comparison loops against one
  order and its laws (`VersionOrder`, `VersionPorts`, `Versions`, `VersionLaws`), the
  merge driver against
  regeneration (`Sorting`, `IndexMerge`, `MergeRegenerate`, `MergeLaws`), and the `ar`
  container (`Ar`).

Pixels are integer points; a surface is a rectangle, a stacking role and a buffer
of texels, each output pixel the filter's mix of the texels around its sample
position, written or blended; texels, filter arithmetic and blending are arbitrary
functions. Drawing is a clipped assignment or blend on a pixel map. Objects the
program mutates are classes; what their methods must do is stated with functions
over the old state, and the theorems are lemmas about those functions. In the
compositor, the seat, presentation and the bridge the whole state also appears as one
value (`View`): `Step` says of every event how it takes one to the next, `Run` returns
the views of a run, and what holds along runs is proved about those. Where a method
and its specification share a definition, a law states it without that name
(`SeatLaws`, `SceneLaws`, `VersionLaws`).

`dafny verify dfyconfig.toml` checks everything.

## What the proofs found

Each of these is the program's behaviour, kept as it is; the condition under
which the promise holds is proved beside it.

* A buffer commit that shrinks a surface damages only the new rectangle
  (x11/wayland/iosc.c:3424-3448), and so does any commit on the cursor, the drag
  icon or the lock surface. It is safe exactly when the old content did not show at
  the pixels given up (`RequestLoss.CommitExactly`, `ShrinkExactly`); otherwise,
  repainted into the buffer of the latest frame, the screen is right exactly on the
  new rectangle and where old and new picture agree (`StaleScreen.CommitAndRepaint`),
  and a run that ends with a wrong screen and nothing left to draw is given
  (`StaleScreen.ShrinkStaysWrong`).
* Damage declared on a buffer is rounded outward to logical pixels without a margin
  for the linear filter (x11/wayland/iosc.c:1448-1459; x11/wayland/iosc_gl.c:598-599).
  That is enough exactly if every output pixel of the window that is on the output
  mixes only texels of its own logical pixel (`DirtyLoss.HonestExactly`). For a window
  wholly on the output, with n logical pixels along an axis, that is: n = 1 or the
  buffer has at least n * S + 2 * S * (n - 1) * (n * s - size) texels, for buffer scale
  s and output scale S (`DirtyLoss.HonestOnOutput`, `Scaled.AxisFits`); for whole
  multiples of the buffer scale: n = 1 or s >= S (`Scaled.FitsWhole`). A fullscreen
  window, whose mapping has a margin, loses nothing (`DirtyLoss.StretchedSafe`).
* Damage for a redraw of the attached buffer is recorded with origin and size divided
  apart, and unstretched also for a fullscreen window (x11/wayland/iosc.c:3545-3557):
  enough exactly if the shown pixels mix only texels of their own logical pixel, and
  beyond the first of them only its last texel (`RedrawLoss.RedrawExactly`). For a
  window wholly on the output and not stretched: if it is one logical pixel along the
  axis or neither scale is above 1 (`RedrawLoss.RedrawOnOutput`).
* A new opaque region or viewport takes effect without damage
  (x11/wayland/iosc.c:3329-3353, x11/wayland/iosc_viewport.c:44-97), and a window that
  leaves fullscreen damages only its new size (x11/wayland/iosc.c:4178-4203); exactly
  when each is harmless is `RequestLoss.OpaqueExactly`, `ViewportLoss.ViewportExactly`
  and `RequestLoss.WindowedExactly`.
* A step of an interactive move or resize also moves the cursor but damages only the
  window (x11/wayland/iosc.c:5083-5102, 4390-4434). With the cursor drawn by the
  compositor that is harmless exactly if old and new cursor draw alike outside the
  window's two places (`OverlayLoss.DragExactly`, `DragApart`); a drag against the edge
  of the work area leaves a cursor behind (`CursorRuns.ClampedDragStaysWrong`).
* The cursor passing between compositor and app (x11/wayland/iosc.c:2207-2226,
  2246-2338) damages nothing: harmless exactly if it does not show
  (`OverlayLoss.HandoverExactly`; a run is `CursorRuns.HandoverStaysWrong`). The end of
  its surface damages the place it would have without its viewport
  (x11/wayland/iosc.c:3589-3619; `OverlayLoss.CursorGoneExactly`). Releasing a locked
  pointer moves a drag icon too but damages only the cursor's places
  (x11/wayland/iosc_pointer_ext.c:243-263; `OverlayLoss.WarpExactly`).
* A lock surface that has its buffer already, and one whose buffer is destroyed, change
  the locked screen without damage: harmless exactly if it is black
  (`OverlayLoss.LockSurfaceExactly`, `RequestLoss.DetachExactly`).
* When a popup chain ends and the window focused before it was destroyed, or none was
  focused, nothing gets the keyboard although the design asks for the topmost
  focusable window (`SeatTrace.RuleKeptExactly`; a run is
  `LostKeyboard.NobodyFocused`).
* Locking with a popup chain open and no lock surface leaves the keyboard on the
  popup (`Seat.Seat.Lock` says exactly when).
* The walk along parent links gives up after 64 of them, so the check that refuses
  cycles admits a longer one (`Forest.LadderExactly`); no shorter one can be closed.
* An age test on 32-bit milliseconds lets a batch look young for the 100 ms after
  every multiple of 2^32 ms and block younger ones (`Presentation.DueExactly`; a run is
  `Presenter.OldestBlocks`). The source re-arms the timer every millisecond while
  batches are out, so this takes a timer that does not run for weeks.
* The merge driver gives the same index whichever side is called ours exactly if no
  package's stanza was edited on both sides (`MergeLaws.SwapExactly`).
* After 2^32-1 copy events that a host did not hear of, the next item merges into
  its old set (`ClipHosts.CycleMerges` says exactly when that shows).
* `check-repo-solvable.py` strips whitespace around a version, the other scripts
  do not (`Versions.SpaceDisagrees`); on stripped versions they agree.

## Model

| member | source | states |
|---|---|---|
| Geometry.PiecesExact | x11/wayland/iosc.c:1273-1296 | cutting one rectangle out of another leaves at most four disjoint pieces that are exactly the pixels outside the cut |
| Geometry.ListPiecesExact | x11/wayland/iosc.c:1298-1313 | cutting a rectangle out of a disjoint list keeps exactly the list's pixels outside it, each once |
| Geometry.ListSubtractOne | x11/wayland/iosc.c:1298-1313 | the in-place rebuild gives up exactly when the pieces do not fit the buffer, and otherwise returns all of them |
| Geometry.TouchExactly | x11/wayland/iosc.c:1049-1054 | rectangles touch exactly when, borders included, they share a point |
| Scene.PaintAbove | x11/wayland/iosc.c:1031-1034 | what is painted above cannot tell two equal backgrounds apart |
| Scene.PaintWithout | x11/wayland/iosc.c:941-984 | a surface that does not reach a pixel can be left out of the stack there |
| Texture.SampleAlike | x11/wayland/iosc_gl.c:530-556 | buffers that agree on the texels a pixel mixes look the same at that pixel |
| Painter.GlTarget.SetDamage | x11/wayland/iosc_gl.c:501-515 | the scissor is the damage rectangle cut to the output |
| Painter.GlTarget.Draw | x11/wayland/iosc.c:941-984 | drawing touches only pixels in the scissor that the surface hits, and composes it over what was there |
| Painter.VisibleDamageRects | x11/wayland/iosc.c:1315-1339 | the pieces are disjoint, inside the damage, hold every damaged pixel of the surface that no opaque surface above covers, and either no covered pixel or, after overflow, one rectangle |
| Painter.DrawnOnce | x11/wayland/iosc.c:2632-2636 | disjoint pieces draw a blended surface once per pixel |
| Painter.DrawWindow | x11/wayland/iosc.c:2609-2637 | drawing one window in its visible pieces leaves pixels outside the damage alone and, where nothing opaque is above, equals drawing it whole, also after the piece list overflowed |
| Painter.DrawWindows | x11/wayland/iosc.c:2609-2637 | drawing all windows in pieces equals painting every one of them whole, inside the damage |
| Painter.PaintRect | x11/wayland/iosc.c:2587-2646 | one damage rectangle of a repaint, locked or not, holds the full repaint and nothing else changes |
| Painter.PaintDamage | x11/wayland/iosc.c:2587-2646 | overlapping damage rectangles repaint exactly their union |
| Damage.MergedGrows | x11/wayland/iosc.c:1129-1150 | merging an entry into another and closing the gap uncovers nothing |
| Damage.MergedBounds | x11/wayland/iosc.c:1129-1150 | and keeps the bounding box the least one |
| Damage.OutputDamage.SetCoarseUnion | x11/wayland/iosc.c:1087-1096 | the coarse fallback keeps everything covered in one rectangle |
| Damage.OutputDamage.MergeEntry | x11/wayland/iosc.c:1133-1146 | the shifting merge on the array is the list merge, and the index follows its entry |
| Damage.OutputDamage.AddPx | x11/wayland/iosc.c:1112-1155 | the list still covers what it covered and now the clipped rectangle; it stays within capacity, output and bounding box, and the box grows by exactly that rectangle |
| Damage.OutputDamage.AddRect | x11/wayland/iosc.c:1112-1155 | the list gives way to its bounding box only if it had before or is full and the rectangle touches nothing in it; a rectangle that touches nothing becomes an entry of its own; otherwise the list does not get longer, and what grew stays within every box around the rectangle that no old entry reaches into |
| Damage.OutputDamage.AddFull | x11/wayland/iosc.c:1157-1160 | every output pixel is covered |
| Damage.OutputDamage.Consume | x11/wayland/iosc.c:1162-1191 | hands out exactly the recorded cover, or the whole output when nothing is recorded, and empties the list |
| Damage.OutputDamage.HistoryReset | x11/wayland/iosc.c:1193-1197 | forgets every remembered frame |
| Damage.OutputDamage.HistoryRecord | x11/wayland/iosc.c:1227-1240 | the ring remembers the last three frames' damage, latest first; no remembered slot is overwritten early |
| Damage.OutputDamage.HistoryApply | x11/wayland/iosc.c:1199-1225 | for a buffer of age a, every pixel that one of the a-1 missed frames damaged, or that they are no longer remembered for, is covered; age 0 and ages past a reset damage everything, and while all missed frames are remembered nothing beyond their damage is added |
| OutputQueue.Queue.Acquire | x11/linux-build/patches/xios/xios_output_queue.h:52-89 | takes the first free buffer of the rotation in turn, if it has one, with its honest age; otherwise none is free; no other slot changes |
| OutputQueue.TurnsRound | x11/linux-build/patches/xios/xios_output_queue.h:68-75 | while every buffer is free they are handed out round robin |
| OutputQueue.Queue.Cancel | x11/linux-build/patches/xios/xios_output_queue.h:91-96 | gives the buffer back with its age and content unchanged |
| OutputQueue.Queue.Publish | x11/linux-build/patches/xios/xios_output_queue.h:103-115 | the slot holds the newest frame and is owned by its consumers |
| OutputQueue.Queue.Release | x11/linux-build/patches/xios/xios_output_queue.h:121-134 | only a consumer of that very frame can release it |
| OutputQueue.Queue.DropClient | x11/linux-build/patches/xios/xios_output_queue.h:136-148 | a leaving consumer frees or abandons what it held and nothing else |
| OutputQueue.Queue.RecoverAbandoned | x11/linux-build/patches/xios/xios_output_queue.h:156-163 | abandoned buffers become free again and nothing else changes |
| FrameLog.KeptAcross | x11/wayland/iosc.c:1199-1225 | a pixel no frame in between changed is the same in the buffer's frame and the latest |
| FrameLog.BufferCurrent | x11/wayland/iosc.c:1199-1225 | a buffer of age a holds the latest frame at every pixel that no missed frame damaged |
| FrameLog.HistoryExtended | x11/wayland/iosc.c:1227-1240 | recording a frame's damage keeps the history truthful about what every frame changed |
| SceneChange.RaiseChanges | x11/wayland/iosc.c:5151-5166 | raising a surface changes the picture only where its own rectangle is damaged |
| SceneChange.MapChanges | x11/wayland/iosc.c:3088-3096 | mapping or unmapping changes it only there too |
| SceneChange.ReplaceChanges | x11/wayland/iosc.c:1476-1490 | minimising or moving changes it only in the old and the new rectangle |
| SceneChange.OverlayChanges | x11/wayland/iosc.c:2105-2117 | the cursor and the drag icon change it only in their old and new rectangles |
| SceneChange.VacatedNone | x11/wayland/iosc.c:3424-3448 | no shown pixel is given up exactly when the new rectangle still covers the old one on the output |
| Compositor.Compositor.AcquireOutput | x11/wayland/iosc.c:2524-2573 | leaving direct scan-out and replaying history leave damage that covers everything the acquired buffer lacks |
| Compositor.Compositor.Render | x11/wayland/iosc.c:2575-2646 | rendering only the planned damage gives the full repaint at every tracked pixel and repeats the latest frame elsewhere |
| Compositor.Compositor.Publish | x11/wayland/iosc.c:2648-2652 | the published frame joins the log, the buffer and history invariants hold again, and painted pixels are tracked again |
| Compositor.Compositor.PresentDirect | x11/wayland/iosc.c:2418-2467 | scanning out the one opaque fullscreen buffer shows the full repaint at every output pixel |
| Compositor.Compositor.RecompositeNow | x11/wayland/iosc.c:2504-2652 | direct scan-out happens exactly when allowed; unless every buffer of the rotation is owned, the screen then shows the current scene at every tracked pixel; a published frame is right exactly at the pixels it painted and those at which the frame before was right already |
| Compositor.Compositor.SkippedRequestIsSafe | x11/wayland/iosc.c:2575-2586 | with no recorded damage the screen is already right |
| Compositor.Compositor.Raise | x11/wayland/iosc.c:5193-5210 | the recursive raise of a window and its transients, each damaging itself, keeps the screen accountable and yields the transient order |
| Compositor.Compositor.Lower | x11/wayland/iosc.c:5171-5186 | lowering keeps the screen accountable |
| Compositor.Compositor.Map | x11/wayland/iosc.c:3088-3096 | mapping at the top of the band keeps the screen accountable and the order banded |
| Compositor.Compositor.Unmap | x11/wayland/iosc.c:3158-3175 | unmapping keeps the screen accountable |
| Compositor.Compositor.SetMinimized | x11/wayland/iosc.c:1476-1490 | minimising and restoring do |
| Compositor.Compositor.MoveTo | x11/wayland/iosc.c:5566-5579 | a placement by request, of a popup, a subsurface or a maximised window, does |
| Compositor.Compositor.Record | x11/wayland/iosc.c:1397-1461 | the damage recorded for a request holds its rectangles and does not reach beyond any box around them |
| Compositor.Compositor.Act | x11/wayland/iosc.c:3368-3494 | an event that records damage for part of what it changes, a request about one surface or an undamaged cursor change, keeps the screen accountable, except at the pixels that change outside the recorded damage |
| Compositor.Compositor.Rescale | x11/wayland/iosc.c:4265-4317 | a new output scale keeps buffers and history and the screen accountable |
| Compositor.Compositor.Resize | x11/wayland/iosc.c:4236-4264 | a new output size starts a new frame log with everything damaged and no pixel given up |
| Compositor.Compositor.Step | x11/wayland/iosc.c:2504-2652 | one event does all it should: a repaint scans out exactly when it may, waits exactly when every buffer is owned, and else publishes exactly one frame in a free buffer, which shows the scene and uses up the damage, or skips it only if nothing was damaged and the screen is right; releases, leaving clients and recovery change exactly their slots; anything else leaves screen and frames alone and gives up no pixel but those it loses |
| Compositor.Compositor.Run | x11/wayland/iosc.c:2504-2652 | over any run every published frame is a full repaint of its scene at every output pixel that no event had changed without recording it and nothing has repainted since, and after every repaint for which a buffer was free, the last one included, so is the screen |
| Compositor.Compositor.RunSafely | x11/wayland/iosc.c:2504-2652 | in a run of safe events every frame, and the screen after every repaint for which a buffer was free, is the full repaint at every output pixel |
| Session.RepaintShows | x11/wayland/iosc.c:2504-2652 | a repaint for which a buffer was free leaves the scene on screen, no damage, no damaged pixel given up, and exactly one frame more if anything was damaged and the buffer was not scanned out |
| Session.RunShows | x11/wayland/iosc.c:2504-2652 | at any point of any run that scene is the one its events so far have made |
| Session.MissedAlong | x11/wayland/iosc.c:3368-3494 | along a run no more pixels are given up than its events lose |
| Session.FramesAlong | x11/wayland/iosc.c:2648-2652 | frames are only added along a run, each wrong at most at those pixels |
| Session.DirectExactly | x11/wayland/iosc.c:2377-2402 | direct scan-out is for a lone opaque fullscreen window with its own buffer and no viewport, unlocked and with nothing drawn above it |
| SceneLaws.HiddenUnseen | x11/wayland/iosc.c:2612-2614 | a minimised window, or a surface without a buffer at a pixel, can be left out of the picture |
| SceneLaws.TopSeen | x11/wayland/iosc.c:2609-2637 | the topmost opaque window at a pixel that is not minimised is what is seen there |
| SceneLaws.LockedPicture | x11/wayland/iosc.c:2587-2608 | while locked only the lock surface is seen, or black |
| SceneLaws.RequestMeans | x11/wayland/iosc.c:3368-3494 | a request changes the surface it is about and no other |
| SceneLaws.RequestSets | x11/wayland/iosc.c:3368-3494 | every kind of request sets the fields it is for and keeps the rest |
| SceneLaws.RequestPlaces | x11/wayland/iosc.c:480-537 | after a request that sizes it a fullscreen surface lies on the whole output, any other at its corner with its logical size, what the viewport asks for or shows, else the least number of logical pixels that hold the buffer |
| SceneLaws.MoveMeans | x11/wayland/iosc.c:5083-5102 | a placement moves that window and keeps its size; a step of a drag moves the cursor too |
| SceneLaws.CursorMeans | x11/wayland/iosc.c:2207-2226 | cursor hand-over, its end, and the end of a pointer lock change cursor and icon only, to the given place |
| SceneLaws.LockSurfaceMeans | x11/wayland/iosc_session_lock.c:61-92 | a locked session without a lock surface shows the one it is given |
| Events.SafeRunLosesNothing | x11/wayland/iosc.c:1397-1461 | safe events give up no pixel, in any scene and any order |
| Requests.AlikeRepaint | x11/wayland/iosc.c:2587-2646 | where a surface draws as before over every background, the whole picture stays |
| Requests.LosesExactly | x11/wayland/iosc.c:2587-2646 | a request loses no pixel in any surroundings exactly when, outside its damage, the surface draws as before over every background |
| RequestLoss.OpaqueExactly | x11/wayland/iosc.c:3329-3353 | a changed opaque region, which records nothing, is harmless exactly when blending stays or every shown pixel hides what is below |
| ViewportLoss.ViewportExactly | x11/wayland/iosc_viewport.c:44-97 | whatever a window shows and however it is blended, a changed viewport, which records nothing, loses nothing exactly when the window covers the same output pixels, is blended as before and samples its buffer at the same spots |
| ViewportLoss.SameSizesSafe | x11/wayland/iosc.c:480-576 | so it loses nothing while size, sampled part of the buffer and blending stay |
| RequestLoss.CommitExactly | x11/wayland/iosc.c:3424-3448 | a commit that damages only the new rectangle is harmless exactly when the old content did not show outside it |
| RequestLoss.ShrinkExactly | x11/wayland/iosc.c:3424-3448 | for an unblended window: exactly when the new rectangle still covers the old one on the output |
| RequestLoss.WindowedExactly | x11/wayland/iosc.c:4178-4203 | leaving fullscreen is harmless exactly when the damaged new size covers the output |
| RequestLoss.WindowedAtCorner | x11/wayland/iosc.c:4178-4203 | at the output corner: exactly when the window is at least as large as the output |
| RequestLoss.RescaleSafe | x11/wayland/iosc.c:3388-3396 | a changed buffer scale of a window loses no pixel |
| RequestLoss.FullscreenSafe | x11/wayland/iosc.c:4178-4203 | going fullscreen loses no pixel |
| RequestLoss.DetachExactly | x11/wayland/iosc.c:2864-2876 | a destroyed buffer damages what the surface covered; on the lock surface, where it damages nothing, it is harmless exactly if that was black |
| OverlayLoss.SlotLosesExactly | x11/wayland/iosc.c:2105-2117 | a change of cursor, drag icon or lock surface loses no pixel in any surroundings exactly when, outside its damage, both draw alike over every background |
| OverlayLoss.DragExactly | x11/wayland/iosc.c:4390-4434 | a step of an interactive move or resize loses no pixel in any surroundings exactly when old and new cursor draw alike outside the window before and after |
| OverlayLoss.DragApart | x11/wayland/iosc.c:5083-5102 | for a cursor that moved clear of its old place: exactly when it does not show at either place outside the window before and after |
| OverlayLoss.HandoverExactly | x11/wayland/iosc.c:2207-2226 | the hand-over of the cursor is harmless exactly if it does not show on the output |
| OverlayLoss.CursorGoneExactly | x11/wayland/iosc.c:3589-3619 | the end of the cursor surface is harmless exactly if the cursor does not show outside its place without a viewport |
| OverlayLoss.WarpExactly | x11/wayland/iosc_pointer_ext.c:243-263 | putting the pointer elsewhere at the end of its lock is harmless exactly if a drag icon draws alike outside the cursor before and after |
| OverlayLoss.LockSurfaceExactly | x11/wayland/iosc_session_lock.c:61-92 | a new lock surface is harmless exactly if it is black on the output |
| DirtyLoss.StretchedSafe | x11/wayland/iosc.c:1403-1446 | honest damage of a fullscreen window loses no pixel, for all sizes |
| DirtyLoss.ScaledSafe | x11/wayland/iosc.c:1447-1461 | honest damage of a window whose shown pixels mix only texels of their own logical pixel loses no pixel |
| DirtyLoss.HonestExactly | x11/wayland/iosc.c:1447-1461 | no honest damage of windows of a size and scale at a place, also partly off the output, loses a pixel exactly when their shown pixels mix only texels of their own logical pixel |
| DirtyLoss.HonestOnOutput | x11/wayland/iosc.c:1447-1461 | for a window wholly on the output: exactly when the sizes fit along both axes |
| RedrawLoss.RedrawSafe | x11/wayland/iosc.c:3545-3557 | an honest redraw of a window, stretched or not, loses no pixel if its shown pixels mix only such texels as the divided damage holds |
| RedrawLoss.RedrawExactly | x11/wayland/iosc.c:3545-3557 | no honest redraw of windows of a buffer size and scale over a place, fullscreen or not, partly off the output or not, loses a pixel exactly in that case |
| RedrawLoss.RedrawOnOutput | x11/wayland/iosc.c:3545-3557 | for an unstretched window wholly on the output: exactly when along both axes there is one logical pixel or nothing is scaled |
| SafeRequests.SafeIsLossless | x11/wayland/iosc.c:3368-3494 | a request that meets the condition of its kind loses no pixel, whatever else is on screen |
| StaleScreen.ActAndRepaint | x11/wayland/iosc.c:3368-3494 | after such an event and its repaint the screen is right exactly where it was painted or the event changed nothing, and all recorded damage was painted |
| StaleScreen.CommitAndRepaint | x11/wayland/iosc.c:3424-3448 | after a commit and its repaint into the buffer of the latest frame, the screen is right exactly on the new rectangle and where old and new picture agree |
| StaleScreen.GiveUp | x11/wayland/iosc.c:3424-3448 | every pixel that such an event changes outside a box around its damage is wrong on screen with nothing left to draw |
| StaleScreen.ShrinkStaysWrong | x11/wayland/iosc.c:3424-3448 | a run from an empty session that ends with such a pixel |
| CursorRuns.ClampedDragStaysWrong | x11/wayland/iosc.c:4390-4434 | a run in which a drag that the work area stops leaves the old cursor on screen and the new one missing |
| CursorRuns.HandoverStaysWrong | x11/wayland/iosc.c:2207-2226 | a run in which the app takes the cursor over and the painted one stays |
| Stretch.AxisCovers | x11/wayland/iosc.c:1418-1443 | along one axis the padded range holds every pixel whose bilinear sample reads a dirty texel, for all sizes |
| Stretch.PadNeeded | x11/wayland/iosc.c:1418-1425 | without the padding a reading pixel is missed |
| Stretch.StretchedCovers | x11/wayland/iosc.c:1426-1443 | the mapped rectangle holds every output pixel that mixes in a texel of the dirty rectangle |
| Stretch.DamageStretched | x11/wayland/iosc.c:1403-1446 | after the loop every such pixel of every dirty rectangle is damaged and nothing beyond the mapped rectangles is; a degenerate source damages everything |
| Stretch.MappedCovers | x11/wayland/iosc.c:1426-1443 | the mapped rectangles of a dirty list hold every output pixel that reads any of its texels |
| Scaled.ScaledExactly | x11/wayland/iosc.c:1448-1459 | at an integer buffer scale the outward rounding is exactly the logical pixels of the dirty buffer pixels |
| Scaled.AxisExactly | x11/wayland/iosc.c:1448-1459 | every output pixel mixes only texels of its own logical pixel, along an axis, exactly when the sizes fit |
| Scaled.FitsWhole | x11/wayland/iosc.c:1448-1459 | a buffer of whole logical pixels fits exactly when its scale is at least the output scale or it is one logical pixel |
| Scaled.EnoughExactly | x11/wayland/iosc.c:1448-1459 | the mapped rectangle holds every pixel that mixes in a dirty texel, for all dirty rectangles, exactly when the sizes fit along both axes |
| AtOnce.AtOnceExactly | x11/wayland/iosc.c:3552-3556 | with origin and size divided apart, the damage of whole logical pixels is enough along an axis exactly when there is one or nothing is scaled |
| AtOnce.EdgesHold | x11/wayland/iosc.c:3552-3556 | any declared range with a texel a pixel mixes damages the pixel, if it mixes only texels of its own logical pixel that are the last of it or in the first one |
| AtOnce.EdgesWitness | x11/wayland/iosc.c:3552-3556 | and otherwise some range within the buffer does not |
| ZOrder.MapStacked | x11/wayland/iosc.c:3088-3096 | mapping a new surface keeps the list duplicate-free and sorted by band |
| ZOrder.RaisedStacked | x11/wayland/iosc.c:5151-5166 | so does raising |
| ZOrder.LoweredStacked | x11/wayland/iosc.c:5171-5186 | so does lowering |
| ZOrder.RemoveAtStacked | x11/wayland/iosc.c:3169-3175 | so does unmapping |
| SceneLaws.LevelsInOrder | x11/wayland/iosc.c:328-340 | in a sorted list background panels lie below bottom panels, these below windows, these below top panels, these below overlays |
| ZOrder.RaisedOrder | x11/wayland/iosc.c:5151-5166 | a raised surface is above all others of its band, which keep their relative order, and the same surfaces are mapped |
| ZOrder.ShiftUp | x11/wayland/iosc.c:5151-5166 | the index-shifting loop performs that raise |
| ZOrder.ShiftDown | x11/wayland/iosc.c:5171-5186 | and its mirror that lower |
| ZOrder.FindBandEnd | x11/wayland/iosc.c:3088-3092 | the scan finds the end of the band |
| ZOrder.CollectKids | x11/wayland/iosc.c:5193-5205 | the collected list is the mapped transient toplevels of the surface, in stacking order |
| Transients.DepthCapEnough | x11/wayland/iosc.c:5193-5210 | the recursion cap is never reached in an acyclic forest of mapped windows |
| Transients.RaiseTreeOrder | x11/wayland/iosc.c:5193-5205 | raising a tree lifts its whole family, each member above its parent, and moves nobody else |
| Transients.RaiseBringsFamily | x11/wayland/iosc.c:5187-5210 | after a raise every mapped transient reachable through mapped toplevels lies above its parent and the windows outside the family keep their order |
| SeatState.NewPopupIsNew | x11/wayland/iosc.c:2943-2952 | a popup whose parent is the top of the chain cannot be in the chain already |
| SeatState.TopmostHighest | x11/wayland/iosc.c:421-431 | the topmost focusable surface is the highest mapped one that is a window not minimised or a panel that asks for keys, or none |
| SeatState.DismissedToEffect | x11/wayland/iosc.c:3009-3017 | dismissing the popups above one removes exactly them from chain and z-order |
| SeatState.GrabGoneEffect | x11/wayland/iosc.c:3002-3030 | a lost grabbing popup takes those above it along and the keyboard goes to the popup below, or back at the end of the chain |
| SeatState.UnmappedInChain | x11/wayland/iosc.c:3123-3190 | unmapping a popup of the chain, through all re-entrant calls, cuts the chain there and settles the keyboard |
| SeatState.UnmappedOutside | x11/wayland/iosc.c:3123-3190 | unmapping anything else leaves the chain, its saved focus and every other window alone |
| SeatState.UnmappedSound | x11/wayland/iosc.c:3123-3190 | an unmapped surface is out of the z-order, of drags, moves and the lock, and does not keep the keyboard |
| SeatState.UnmappedValid | x11/wayland/iosc.c:3123-3190 | every unmap keeps the grab invariant |
| SeatState.DismissedAllEffect | x11/wayland/iosc.c:2970-2994 | dismissing everything ends the chain as losing its first popup would |
| SeatState.DestroyedClean | x11/wayland/iosc.c:3573-3656 | from any sound state, after teardown no z-order slot, focus, cursor, grab entry, saved focus, drag, move, touch point, lock surface or parent link refers to the surface |
| SeatState.DestroyedValid | x11/wayland/iosc.c:3573-3656 | and the grab invariant still holds |
| SeatTrace.SavedDuring | x11/wayland/iosc.c:4091-4094 | while a chain lasts the saved focus is that of its start until the surface is destroyed |
| SeatTrace.ChainEnds | x11/wayland/iosc.c:3018-3027 | in any run, when a chain ends the keyboard goes to the surface focused at its start if mapped, to the topmost focusable one if it is alive and unmapped, and to nothing if there was none or it was destroyed |
| SeatTrace.RuleKeptExactly | x11/wayland/iosc.c:3018-3027 | so the old surface or else the topmost focusable one gets it exactly unless there is no old surface left while some window could take it |
| SeatTrace.DestroyedTracked | x11/wayland/iosc.c:3573-3656 | a teardown, through all re-entrant calls, treats the chain and its saved focus so |
| SeatLaws.FocusMovesDown | x11/wayland/iosc.c:1476-1490 | when the focused window is minimised, unmapped, loses its role or is destroyed without a chain, the keyboard leaves it for the highest mapped surface that takes keys, or nothing |
| SeatLaws.UnlockGivesBack | x11/wayland/iosc_session_lock.c:106-121 | unlocking gives the keyboard to the chain, or else to that surface |
| SeatLaws.ChainEndsAtHighest | x11/wayland/iosc.c:3018-3027 | so does the end of a chain whose start was focused on a surface alive but no longer mapped |
| SeatLaws.OthersKeepInput | x11/wayland/iosc.c:3123-3190 | a surface that leaves takes only its own input along; a drag ends only with its origin or its icon |
| LostKeyboard.LoseKeyboard | x11/wayland/iosc.c:5257-5263 | from any state with a chain: destroying the surface focused before it and pressing outside leaves the keyboard to nobody while a focusable window is mapped |
| LostKeyboard.NobodyFocused | x11/wayland/iosc.c:5257-5263 | a run from an empty seat that ends so |
| Forest.IsAncestor | x11/wayland/iosc.c:449-454 | the walk finds an ancestor exactly when there is one less than 64 links up |
| Forest.LinkKeeps | x11/wayland/iosc.c:4452-4468 | a link the ancestor check admits closes no cycle of 64 links or fewer |
| Forest.LadderExactly | x11/wayland/iosc.c:443-454 | a chain of parents can be closed to a cycle exactly from 64 links on |
| Forest.WithinGrab | x11/wayland/iosc.c:2957-2966 | a press is inside the chain exactly when it hit a popup of it or a descendant less than 64 links below one, or there is no chain |
| Seat.Seat.SetFocus | x11/wayland/iosc.c:4901-4938 | a focus request ends at the lock surface, the top of the chain, or where it asked |
| Seat.Seat.FindTopmost | x11/wayland/iosc.c:421-431 | finds the highest mapped surface that is a window not minimised or a panel that asks for keys |
| Seat.Seat.Unmap | x11/wayland/iosc.c:3123-3190 | the mutually recursive unmap terminates with the specified state and keeps the grab invariant |
| Seat.Seat.GrabGone | x11/wayland/iosc.c:3002-3030 | the hook's in-place pops and re-entrant unmaps amount to the specified cut |
| Seat.Seat.DismissAll | x11/wayland/iosc.c:2970-2994 | blanking entries while unmapping ends with an empty chain, no saved focus, and the keyboard handed back |
| Seat.Seat.Press | x11/wayland/iosc.c:5257-5263 | a press outside the whole chain ends it, any other leaves it |
| Seat.Seat.Grab | x11/wayland/iosc.c:4077-4096 | a grab is granted exactly from a window or panel for a new chain and from the top of the chain otherwise; it is a new entry that takes the keyboard; an error or a full chain changes nothing |
| Seat.Seat.GiveRole | x11/wayland/iosc.c:4559-4594 | a role is given exactly to a surface without one that the walk from its new parent does not find |
| Seat.Seat.SetParent | x11/wayland/iosc.c:4452-4468 | a parent is set exactly when the walk from it does not find the toplevel |
| Seat.Seat.DropRole | x11/wayland/iosc.c:4062-4073 | losing its role object takes a surface out of chain and z-order, mapped or not |
| Seat.Seat.DropLockSurface | x11/wayland/iosc_session_lock.c:47-59 | the lock surface role goes, and the keyboard only if the surface had it: to the top of the chain if there is one, else to nothing |
| Seat.Seat.MapAt | x11/wayland/iosc.c:3035-3122 | a mapped surface enters the z-order once, up to capacity, and the chain keeps the keyboard |
| Seat.Seat.SetMinimized | x11/wayland/iosc.c:1476-1490 | minimising moves the keyboard exactly if the window had it, off the window to the highest mapped one that takes keys, and never away from a chain |
| Seat.Seat.SetWantsKeys | x11/wayland/iosc.c:6931-6934 | a panel that asks for keys or stops asking moves nobody's focus and keeps the grab invariant |
| Seat.Seat.Lock | x11/wayland/iosc_session_lock.c:142-165 | locking ends every pointer, pen, touch and drag and leaves chain and windows alone; the keyboard is then with the lock surface or nothing exactly when no chain is open or there is a lock surface |
| Seat.Seat.SetLockSurface | x11/wayland/iosc_session_lock.c:61-92 | one lock surface at a time, only while locked, only on a surface without a role; it gets the keyboard exactly when no chain is open |
| Seat.Seat.Unlock | x11/wayland/iosc_session_lock.c:106-121 | the keyboard returns to the top of the chain if there is one, else to the highest mapped surface that takes keys |
| Seat.Seat.Destroy | x11/wayland/iosc.c:3573-3656 | teardown ends with the surface gone, nothing referring to it, and every other surface as it was but for cleared parent links |
| Seat.Seat.Step | x11/wayland/iosc.c:2927-3190 | each of the seventeen requests and inputs has exactly its effect on the whole seat, and what is turned away has none |
| Seat.Seat.Run | x11/wayland/iosc.c:2927-3030 | in every run each state is what the event makes of the one before, the chain is distinct and nested, holds the keyboard of an unlocked session, and nothing refers to a surface that is gone; the states form a trace to which `ChainEnds` applies |
| Presentation.DueExactly | x11/wayland/iosc.c:821-825 | a due batch is presented or 100 ms old, and such a batch is due exactly unless its age is within 100 ms after a multiple of 2^32 ms |
| Presentation.DueSplit | x11/wayland/iosc.c:819-828 | stopping at the first batch that is not due answers exactly the presented or 100 ms old ones if and only if no age is hidden so |
| Presentation.RequestConserves | x11/wayland/iosc.c:3749-3768 | a new feedback comes last among its surface's and reorders nobody |
| Presentation.DiscardConserves | x11/wayland/iosc.c:702-709 | discarding a destroyed surface's list loses nothing and reorders no other surface |
| Presentation.DropConserves | x11/wayland/iosc.c:604-610 | a feedback that dies with its client leaves the one place it was in |
| Presenter.Presenter.PresentList | x11/wayland/iosc.c:661-695 | a list is answered in order under one new counter value, which never goes back |
| Presenter.Presenter.Tick | x11/wayland/iosc.c:813-839 | a tick answers a prefix of the batches, all presented or 100 ms old, and all of those exactly if no age is hidden |
| Presenter.Presenter.FrameClock | x11/wayland/iosc.c:741-758 | listed feedback is answered exactly when no repaint is scheduled and no batch is out |
| Presenter.Presenter.AfterRepaint | x11/wayland/iosc.c:792-811 | everything outstanding is answered, batches before lists |
| Presenter.Presenter.AfterPresent | x11/wayland/iosc.c:841-883 | with an app to wait for, all listed feedback becomes the youngest batch, otherwise all is answered |
| Presenter.Presenter.Request | x11/wayland/iosc.c:3749-3768 | a request on a live surface is taken once, at the end of its list |
| Presenter.Presenter.DestroySurface | x11/wayland/iosc.c:3648-3648 | a destroyed surface's list is discarded and nobody else's answers change |
| Presenter.Presenter.Step | x11/wayland/iosc.c:741-883 | one event does all it should: a tick answers the presented or 100 ms old batches and, if no age is hidden, all of them; publishing to an app answers nothing; the frame clock answers the lists exactly when nothing is scheduled or out; only those and a destroyed surface answer anything |
| Presenter.Presenter.Run | x11/wayland/iosc.c:741-883 | in every run each feedback is in exactly one list, batch or answer, none is answered twice, and a live surface's are answered in request order; each state is what its event makes of the one before |
| PresentTrace.WaitingStep | x11/wayland/iosc.c:813-883 | in one step a batched feedback goes on waiting in its batch, is answered in time, or is taken back by its client |
| PresentTrace.NotBeforePresented | x11/wayland/iosc.c:813-883 | in every run a feedback published with an app to wait for is answered only by a tick at which the app has presented that generation or 100 ms have passed since, or by a repaint without an app |
| Presenter.WrapHidesAge | x11/wayland/iosc.c:821-825 | a batch just past 2^32 ms blocks a younger due one |
| Presenter.OldestBlocks | x11/wayland/iosc.c:813-839 | a run that reaches that state, in which a tick answers neither |
| ClipWire.HeaderRoundTrip | x11/apps/shared/XiosProtocol.h:14-27 | a header that is written is the header that is read |
| ClipWire.RecordRoundTrip | x11/wayland/iosc-clipboard-bridge.c:172-184 | a record that is sent is the record that is read |
| ClipWire.StreamRoundTrip | x11/wayland/iosc-clipboard-bridge.c:172-191 | so is a hello followed by any number of records |
| ClipWire.OnlyStreamsRead | x11/wayland/iosc-clipboard-bridge.c:250-344 | a stream that is read without a violation is a hello, the encoding of exactly the records it was read as, all of them valid, and the unread rest |
| ClipWire.RecordRefused | x11/wayland/iosc-clipboard-bridge.c:250-281 | any other record is a violation when it arrives |
| ClipFrame.ParseOn | x11/wayland/iosc-clipboard-bridge.c:283-344 | after a complete prefix reading goes on where it stopped |
| ClipFrame.ViolationFinal | x11/wayland/iosc-clipboard-bridge.c:283-344 | after a violation later bytes change nothing |
| ClipFrame.PartOfStream | x11/wayland/iosc-clipboard-bridge.c:283-344 | any part of a stream of records reads without a violation as its first records |
| ClipReceive.Receiver.FinishHeader | x11/wayland/iosc-clipboard-bridge.c:296-322 | the read that completes a header rejects it, finishes the handshake or makes room for the payload, as the reference reading does |
| ClipReceive.Receiver.FinishRecord | x11/wayland/iosc-clipboard-bridge.c:250-281 | a complete record is dispatched or drops the client, as the reference reading says |
| ClipReceive.Receiver.Dispatch | x11/wayland/iosc-clipboard-bridge.c:283-344 | the resumable loop consumes everything, in reads of any sizes, and stays at the reference reading of all bytes so far |
| ClipReceive.Serve | x11/wayland/iosc-clipboard-bridge.c:283-344 | however a stream is split, the same records are dispatched and the same streams drop the client |
| ClipSend.TxQueue.Compact | x11/wayland/iosc-clipboard-bridge.c:139-143 | compaction keeps the pending bytes |
| ClipSend.TxQueue.Grow | x11/wayland/iosc-clipboard-bridge.c:144-151 | growth keeps them and makes room |
| ClipSend.TxQueue.Queue | x11/wayland/iosc-clipboard-bridge.c:135-156 | bytes are appended exactly when pending plus new stays within 64 MiB, else nothing changes |
| ClipSend.TxQueue.Flush | x11/wayland/iosc-clipboard-bridge.c:158-170 | exactly the bytes the socket takes go out, the client survives exactly while it does not fail, and written plus pending is always what was queued |
| ClipSend.Sender.Send | x11/wayland/iosc-clipboard-bridge.c:172-184 | a live client's queued bytes are the hello and whole records in order, and it stays live exactly when the record fits and the socket does not fail |
| ClipHosts.ItemSent | x11/wayland/iosc-clipboard-bridge.c:221-232 | sending an item keeps a listening host's fold equal to the store |
| ClipHosts.CycleMerges | x11/wayland/iosc-clipboard-bridge.c:214-219 | after a whole unseen cycle of generations the next item leaves the host right exactly when it held nothing else |
| ClipBridge.Bridge.Snapshot | x11/wayland/iosc-clipboard-bridge.c:193-202 | replaying the store to a new host folds to the store |
| ClipBridge.Bridge.Handshake | x11/wayland/iosc-clipboard-bridge.c:186-202 | a new host gets the hello and one record per stored kind and listens, or is dropped exactly if they do not fit or its socket fails |
| ClipBridge.Bridge.Flush | x11/wayland/iosc-clipboard-bridge.c:158-170 | a writable socket takes more of the backlog or the host is dropped |
| ClipBridge.Bridge.SelectionBegin | x11/wayland/iosc-clipboard-bridge.c:214-219 | a new copy empties the store and keeps every host converged that is less than a cycle behind |
| ClipBridge.Bridge.Broadcast | x11/wayland/iosc-clipboard-bridge.c:204-212 | every handshaken host but the skipped one gets the record, or is dropped exactly if its backlog would exceed 64 MiB or its socket fails, and listeners then follow the new store |
| ClipBridge.Bridge.Publish | x11/wayland/iosc-clipboard-bridge.c:221-232 | a representation is stored and sent on exactly when valid; a duplicate sends nothing and harms nothing |
| ClipBridge.Bridge.SelectionClear | x11/wayland/iosc-clipboard-bridge.c:234-238 | clearing reaches every listener |
| ClipBridge.Bridge.ReceiveFrom | x11/wayland/iosc-clipboard-bridge.c:250-281 | a host's record replaces or joins the store by its generation and is relayed to everybody else |
| ClipBridge.Bridge.HostConverges | x11/wayland/iosc-clipboard-bridge.c:172-238 | a listening host that reads its bytes and folds the records has the stored set, or the store is empty and it was sent nothing of the current copy |
| ClipBridge.Bridge.HostReads | x11/wayland/iosc-clipboard-bridge.c:158-184 | whatever part of its bytes a host has got reads as the first records it was sent |
| ClipBridge.CarriedStream | x11/wayland/iosc-clipboard-bridge.c:135-170 | what the transmit queue wrote and what still waits in it are the stream of the client |
| ClipBridge.PostOn | x11/wayland/iosc-clipboard-bridge.c:172-184 | sending on the transmit queue has the effect the bridge counts with, also about who is dropped |
| ClipBridge.Bridge.Step | x11/wayland/iosc-clipboard-bridge.c:204-281 | one event does all it should to store, generation and hosts: a valid representation of a copy that has begun is stored and sent on unless it is there, a copy or clear empties the store, a host's record starts a new set or joins, each with exactly the records sent and the hosts dropped; and a listener stays one unless it leaves, sends, is dropped, or a new copy finds it a cycle behind |
| ClipBridge.Bridge.Run | x11/wayland/iosc-clipboard-bridge.c:172-281 | in every run, with connects, records, clears and copies also between a copy and its representations, the store ends with what was copied last by the events, and all listening hosts have converged to it |
| ClipTrace.StoreIsCopied | x11/wayland/iosc-clipboard-bridge.c:204-281 | the store holds of each kind exactly the last valid data since the last copy, clear, or first record of a host's new generation |
| ClipTrace.HeardIs | x11/wayland/iosc-clipboard-bridge.c:250-263 | the generation remembered for a host is that of its last record since it connected |
| ClipTrace.BegunExactly | x11/wayland/iosc-clipboard-bridge.c:214-219 | the generation is no longer 0 exactly once a new set has started |
| VersionOrder.LexPadPreorder | bin/lib/make-repo.py:294-335 | comparing zero-padded key lists is a total preorder |
| VersionOrder.EqualsCompareAlike | bin/lib/make-repo.py:342-371 | in a total preorder, equal elements compare alike to everything |
| VersionLaws.CommonPrefix | bin/lib/make-repo.py:303-335 | what two parts have in common does not matter, unless it ends within a number |
| VersionLaws.SuffixOrder | bin/lib/make-repo.py:294-301 | whatever follows, a part with a tilde appended sorts before it, with any other non-digit after it |
| VersionLaws.CharacterOrder | bin/lib/make-repo.py:294-301 | after the same beginning a tilde sorts first, then letters by code, then everything else by code |
| VersionLaws.NumberOrOther | bin/lib/make-repo.py:305-314 | a tilde sorts before a number, any other non-digit after it |
| VersionLaws.NumericOrder | bin/lib/make-repo.py:316-333 | numbers compare without leading zeros by length, then by the first different digit, then by what follows |
| VersionPorts.VerRevCmp | bin/lib/make-repo.py:303-335 | the loop terminates and returns the order of the parts' keys |
| VersionPorts.SolvableVerRevCmp | bin/lib/check-repo-solvable.py:109-136 | this loop has the same sign |
| VersionPorts.FoldinVerRevCmp | x11/linux-build/repo-foldin.py:59-80 | so has this one |
| Versions.CompareDebVersions | bin/lib/make-repo.py:342-371 | the vendored comparison is the order on epoch, upstream and revision keys |
| Versions.VersionCompare | bin/lib/check-repo-solvable.py:139-160 | so is this one, on stripped versions and with an empty missing revision |
| Versions.DebCmp | x11/linux-build/repo-foldin.py:81-91 | and this one, which fails exactly on an unreadable epoch |
| VersionLaws.SplitGivesParts | bin/lib/make-repo.py:349-362 | each script splits a version at the first colon and the last hyphen into the epoch, upstream part and revision it was put together from |
| VersionLaws.StripsExactly | bin/lib/check-repo-solvable.py:139-140 | stripping takes off exactly the whitespace around a version |
| VersionLaws.VersionsByParts | bin/lib/make-repo.py:342-371 | all three scripts order versions by epoch as a number, then upstream part, then revision |
| VersionLaws.PreReleaseFirst | bin/lib/make-repo.py:342-371 | in all three, whatever the revisions, a pre-release marked by a tilde sorts before its release, and any other continuation after it |
| VersionLaws.BackportFirst | bin/lib/make-repo.py:342-371 | so it is with revisions |
| VersionLaws.CharacterDecides | bin/lib/make-repo.py:342-371 | the order of characters decides between whole versions in all three |
| VersionLaws.ReleaseCandidate | bin/lib/make-repo.py:294-301 | 1~rc1 sorts before 1 in all three |
| Versions.VersionPreorder | bin/lib/make-repo.py:342-371 | whole-version comparison is a total preorder on all ASCII strings |
| Versions.FillerIrrelevant | bin/lib/check-repo-solvable.py:139-150 | a missing revision compares the same as "" and as "0" |
| Versions.FoldinAgrees | x11/linux-build/repo-foldin.py:81-91 | with no colon or an all-digit epoch it never fails and agrees with make-repo |
| Versions.SolvableAgrees | bin/lib/check-repo-solvable.py:139-160 | with such epochs check-repo-solvable decides as make-repo on the stripped versions |
| Versions.SpaceDisagrees | bin/lib/check-repo-solvable.py:139-140 | surrounding whitespace tells the two apart |
| Versions.ConstraintLaws | bin/lib/check-repo-solvable.py:163-175 | the relation operators are complementary, mirror each other and chain |
| VersionLaws.RelationsMean | bin/lib/check-repo-solvable.py:163-175 | what each relation asks of the order of two versions |
| Versions.FileNamePreorder | bin/lib/make-repo.py:373-390 | the file-name comparison is a total preorder |
| VersionLaws.FileNamesByParts | bin/lib/make-repo.py:373-390 | package file names are ordered by package, then version, then architecture |
| Sorting.SortCorrect | bin/lib/merge-packages.py:125-132 | sorting by a total preorder is sorted and keeps every element |
| Sorting.ListingUnique | bin/lib/merge-packages.py:125-132 | two strict listings of the same elements are the same |
| IndexMerge.Generate | bin/lib/make-repo.py:1571-1582 | the index lists, in file-name order, one newest deb of every package and nothing else |
| IndexMerge.FindLatest | bin/lib/make-repo.py:1571-1577 | the scan ends with a newest deb for every package |
| IndexMerge.Merge | bin/lib/merge-packages.py:80-134 | the driver keeps the decided stanzas, once each and in order, and reports exactly the conflicting packages |
| MergeLaws.NeverOlder | bin/lib/merge-packages.py:80-134 | a package on both sides has exactly one stanza in the merged index, one of the two, at a version at least as new as both |
| MergeLaws.RetiredExactly | bin/lib/merge-packages.py:83-94 | a package on one side is missing from the merged index exactly when that side has the stanza of the ancestor |
| MergeLaws.ConflictsExactly | bin/lib/merge-packages.py:96-123 | the reported packages are exactly those both sides publish at one version with different payloads |
| MergeLaws.BothSidesExactly | bin/lib/merge-packages.py:96-123 | a package on both sides is listed as the newer side has it, at one version with one payload as the side that edited it has it (ours if both did), in a conflict as ours |
| MergeLaws.LastStanzaRead | bin/lib/merge-packages.py:45-65 | of several stanzas of a package the last one is read |
| MergeLaws.FromASide | bin/lib/merge-packages.py:80-134 | every listed stanza is one of the two sides |
| MergeLaws.SwapExactly | bin/lib/merge-packages.py:80-134 | without conflicts and name ties the driver writes the same index with the sides swapped exactly if no stanza of one payload was edited on both sides |
| MergeLaws.MergeBothWays | bin/lib/merge-packages.py:80-134 | so do two runs of the driver |
| MergeRegenerate.ChoosesNewest | bin/lib/merge-packages.py:80-123 | for branches that only add debs the decision is the newest deb of the union |
| MergeRegenerate.MergeIsRegenerate | bin/lib/merge-packages.py:80-134 | merging two generated indexes is the index of the union pool, in the same order, without conflicts |
| MergeRegenerate.NamesApart | bin/lib/make-repo.py:373-390 | file names that start with their package's name never tie across packages |
| MergeRegenerate.MergeOrRegenerate | bin/lib/merge-packages.py:80-134 | the real comparisons: generate twice and merge, or pool and generate, give one index |
| Ar.Write | x11/linux-build/resign-graphics-packages.py:382-402 | the stream is the magic and every member's padded image, or an error exactly when a name is too long |
| Ar.HeaderLayout | x11/linux-build/resign-graphics-packages.py:390-399 | the header is the padded name, time, owner and group 0, mode 100644, the padded size and the end mark, each in its place |
| Ar.Read | x11/linux-build/resign-graphics-packages.py:362-379 | the offset loop returns the scan of the archive, or its error |
| Ar.ReadIndex | bin/lib/make-repo.py:96-104 | the dictionary keeps each name's last entry of the scan; repo-foldin.py has the same reader |
| Ar.ScanWritten | x11/linux-build/resign-graphics-packages.py:362-402 | whatever follows earlier bytes, every written member comes back with its bytes, across odd lengths |
| Ar.RoundTrip | x11/linux-build/resign-graphics-packages.py:362-402 | reading what was written gives back the list if and only if no name ends in whitespace or a slash |
| Ar.PlainKept | bin/lib/make-repo.py:100-100 | make-repo's reader keeps a name if and only if it is also free of leading whitespace |
| Ar.IndexRecovers | bin/lib/make-repo.py:96-104 | with distinct plain names it recovers exactly the written members |

## Left out

- GL, IOSurface, fences, Mach ports, sockets, timers and libwayland: drawing is a clipped write, reads and writes take any size, time only advances, allocation succeeds. A failed fence or frame notification terminates the compositor and so ends a run.
- Compositor.Compositor.Run: pixels that a request changed without recording them are excluded until repainted, because the source never damages them; how many those are is computed, not assumed. A run lies between two changes of the output size.
- DirtyLoss.HonestExactly: honest means that texels outside the damage still on record at the commit are unchanged and so is the need to blend; a composite between declaring and committing clears that record (x11/wayland/iosc.c:982-983), and the texture upload is not modelled apart from the buffer.
- A viewport whose source rectangle rounds to no buffer pixel, which draws nothing but still hides what is below; the synchronized-subsurface cache, which only delays a commit.
- A surface that is at once a window and the cursor or a drag icon, which the source does not refuse and whose commits damage only the overlay; buffer contents that change without any request.
- Fullscreen surfaces whose origin is not (0,0), which are drawn and measured at different places.
- Native (rootless) mode, rootless Xwayland windows and their adoption, screencopy and the debugging probes.
- Raw C `int` overflow of coordinates; pixel arithmetic is unbounded here.
- Seat.Seat.MapAt: any place in the z-order is allowed; the place the band gives is the subject of `ZOrder`. `layer_surface_set_layer` on a mapped surface, which changes the band without re-sorting, is left out of both.
- Seat.Seat.Point: pointer, pen, touch, cursor, drag and move may come to refer to any live surfaces; which ones (hit testing) is not modelled, only that they are let go.
- Seat.Seat.Run: no invariant says where the keyboard is while the session is locked, only what each event does to it; `keyboard_set_focus` falls through to the grab rule when the lock surface itself is requested.
- Forest.LinkKeeps: `layer_surface_get_popup`, which links a popup without the ancestor check, is left out.
- Popup placement and its flip adjustment.
- Presenter.Presenter.Run: no claim that every feedback is eventually answered; a repaint with an empty plan answers nothing. Frame callbacks, which move through the same places, are not modelled separately.
- ClipBridge.Bridge.Publish: a copy must have begun, as every caller does first; before the first one the generation would be 0, which hosts reject.
- Single-origin claims for a clipboard set: a host's late record of an old generation can join a newer selection.
- ClipSend.Sender.Send: a refused payload leaves its header queued; the client is dropped then, so only live clients have whole records.
- The sync tool's comparison (x11/tools/sync-packages-to-repo.py:34-103) is the same code as make-repo's and shares its model; `apt_pkg`, when importable, replaces both and is outside the model.
- Non-ASCII versions, and Python's limit of 4300 digits in `int`.
- MergeRegenerate.MergeIsRegenerate: assumes no two debs of a package compare version-equal and no file names of different packages compare equal; the second follows from file names that start with the package name (`NamesApart`). Stanza texts are compared as whole values; parsing their lines is not modelled.
- Ar.Read: a negative size field, which Python's `int` accepts and which would move the original backwards (with -60 for ever), is an error here; member names are ASCII.
- Ar.ReadIndex: as `Ar.Read`, a negative size field is an error here where the original goes on.
- Site generation, icons, HTML, network fetches, signing and the test clients.
- `ios-inputd.c` framing, which has the clipboard bridge's shape.
