# Orion Viewer: render cache, selection automaton and pixel allocator

This project models three sequential cores of the Orion Viewer document reader and proves their properties in Dafny.

- **`RenderThreads`** (`render_thread.dfy`) models the background renderer:
  - the least-recently-used tile cache `cachedBitmaps`, at most `CACHE_SIZE` = 4 entries;
  - `invalidateCache`, `cleanCache`, `stopRenderer`, `onPause`, `onResume` and `render`;
  - one iteration of the `run()` loop.

  The loop's control state (`lastEvent`, `currentPosition`, `curPos`, `futureIndex`, `paused`, `stopped`) is also described by the pure function `Advance`. Lemmas about `Advance` state two properties. Coalescing: the latest request wins. Look-ahead: after a request for `p`, the loop serves `p` and hands it off, then serves `FUTURE_COUNT` pages ahead of it, then waits. `RenderThread.Step` is proved to move the control state exactly as `Advance` does. It also keeps the cache bounded, duplicate-free and owning distinct bitmaps.
- **`Selection`** (`selection.dfy`) models the four-state text-selection automaton: `START`, `MOVING`, `END` and `CANCELED`.
  - It covers `onTouch`, `startSelection`, `inSelection`, `isSuccessful` and the getters that widen a single-word selection.
  - The dialog and controller calls that a touch triggers are reduced to an `Effect` value and a `Reaction` value.
- **`IntBitmaps`** (`int_bitmap.dfy`) models the shared pixel-buffer allocator.
  - `IntBitmap` slices are `[offset, endOffset)` ranges of one array holding five screens of pixels.
  - `Cache.createBitmap` places a slice after the last one or, wrapping around, before the first one. If neither fits, it sweeps dead slices once and fails when there is still no room.
  - The list is proved to stay ordered, disjoint and inside the array. This invariant is `Packed`.
- `Wrappers` (`wrappers.dfy`) holds the `Option` type.

## Model

| member | source | states |
|---|---|---|
| RenderThreads.Bitmap.constructor | src/com/google/code/orion_viewer/RenderThread.java:239 | a freshly created bitmap has the requested width and height |
| RenderThreads.CacheInfo.constructor | src/com/google/code/orion_viewer/RenderThread.java:304-314 | a new entry holds the given key and bitmap and starts out valid |
| RenderThreads.MoveToTail | src/com/google/code/orion_viewer/RenderThread.java:211-213 | relocating a hit puts it last, keeps every other entry in its relative order, and keeps the same elements (multiset) |
| RenderThreads.MoveToTailDistinct | src/com/google/code/orion_viewer/RenderThread.java:211-213 | relocation keeps a duplicate-free list duplicate-free |
| RenderThreads.IsHit | src/com/google/code/orion_viewer/RenderThread.java:209 | an entry is returned by a lookup only if its key equals the target, and an invalid entry never is |
| RenderThreads.FirstHit | src/com/google/code/orion_viewer/RenderThread.java:207-210 | the index found is a valid entry with an equal key, and no earlier entry is one; or it is the length when there is none |
| RenderThreads.AllInvalidMisses | src/com/google/code/orion_viewer/RenderThread.java:103-111 | once every entry is invalid, a lookup of any position finds nothing |
| RenderThreads.Reusable | src/com/google/code/orion_viewer/RenderThread.java:229 | a reusable bitmap has the tile's two sides, possibly swapped; without rotation it is reusable exactly when width and height match |
| RenderThreads.Request | src/com/google/code/orion_viewer/RenderThread.java:296-302 | `render` sets the request slot to the new position and changes nothing else |
| RenderThreads.Advance | src/com/google/code/orion_viewer/RenderThread.java:156-203 | one loop iteration: it exits iff stopped; stopped or paused changes nothing, and paused only waits; a pending request is consumed, adopted and served with handoff; a served target becomes `curPos`, and handoff holds iff the counter was 0; a wait means no current position or the counter is past `FUTURE_COUNT`; the control invariant is kept |
| RenderThreads.LookAheadFrom | src/com/google/code/orion_viewer/RenderThread.java:186-201 | from counter `j` >= 1, the next iterations serve the pages `j`, `j+1`, … past the adopted position, without handoff, up to `FUTURE_COUNT`, and then only wait |
| RenderThreads.LookAhead | src/com/google/code/orion_viewer/RenderThread.java:176-201 | after `render(p)` the k-th iteration serves `k` pages past `p` for k <= `FUTURE_COUNT`, with handoff only at k = 0, and waits from then on |
| RenderThreads.LatestRequestWins | src/com/google/code/orion_viewer/RenderThread.java:296-302 | two requests before the loop runs leave only the later one; it is the one served and handed off |
| RenderThreads.RenderThread.constructor | src/com/google/code/orion_viewer/RenderThread.java:40-74 | empty cache, no request, no current position, counter 0, neither paused nor stopped |
| RenderThreads.RenderThread.InvalidateCache | src/com/google/code/orion_viewer/RenderThread.java:103-111 | every entry becomes invalid, so every later lookup misses; list, keys and bitmaps are unchanged |
| RenderThreads.RenderThread.CleanCache | src/com/google/code/orion_viewer/RenderThread.java:114-133 | every cached bitmap is released, the list is empty and the current position is cleared; the other control fields are unchanged |
| RenderThreads.RenderThread.StopRenderer | src/com/google/code/orion_viewer/RenderThread.java:135-141 | sets `stopped` and cleans the cache, so the next iteration exits; the request slot, `curPos`, the counter, `paused` and the logs are unchanged |
| RenderThreads.RenderThread.OnPause | src/com/google/code/orion_viewer/RenderThread.java:143-147 | pausing does not change `paused` |
| RenderThreads.RenderThread.OnResume | src/com/google/code/orion_viewer/RenderThread.java:149-154 | clears `paused` and changes nothing else |
| RenderThreads.RenderThread.Render | src/com/google/code/orion_viewer/RenderThread.java:296-302 | the control state becomes `Request(old, position)`; the cache is unchanged |
| RenderThreads.RenderThread.LookUp | src/com/google/code/orion_viewer/RenderThread.java:207-210 | returns the index of the first hit, or the list length if there is none |
| RenderThreads.RenderThread.Resolve | src/com/google/code/orion_viewer/RenderThread.java:205-271 | a hit moves the first hit to the tail with nothing rendered and no entry changed; a miss renders the target, drops the head only when the cache is full, reuses its bitmap exactly when it fits, and appends the new entry while the other entries keep order, flags and bitmaps; either way the target's entry is valid and at the tail, and the cache invariant holds |
| RenderThreads.RenderThread.RenderMiss | src/com/google/code/orion_viewer/RenderThread.java:219-270 | when the cache is full the head is dropped first; its bitmap is reused exactly when the tile's size fits it, turned under rotation, and is otherwise released and replaced by a fresh view-sized one; the new entry is valid and appended |
| RenderThreads.RenderThread.AppendRendered | src/com/google/code/orion_viewer/RenderThread.java:236-269 | the new entry is valid, keyed by the target and appended; it holds the reused bitmap when there is one, and a fresh view-sized bitmap otherwise |
| RenderThreads.RenderThread.Append | src/com/google/code/orion_viewer/RenderThread.java:269 | appends at the tail and keeps the bound and distinctness |
| RenderThreads.RenderThread.Relocate | src/com/google/code/orion_viewer/RenderThread.java:211-213 | the hit moves to the tail and the cache invariant holds |
| RenderThreads.RenderThread.EvictHead | src/com/google/code/orion_viewer/RenderThread.java:225-235 | removes the oldest entry and marks it valid; its bitmap is returned iff `Reusable`, and is otherwise detached |
| RenderThreads.RenderThread.ServeTarget | src/com/google/code/orion_viewer/RenderThread.java:205-291 | the target ends valid at the tail, and it is logged as handed off iff requested; a hit (the first hit exists) only moves it to the tail; a miss drops the head only from a full cache and appends one new entry; entries that stay keep their flags and bitmaps |
| RenderThreads.RenderThread.Adopt | src/com/google/code/orion_viewer/RenderThread.java:176-181 | the pending request becomes the current position and `curPos`, the slot is emptied, and the counter is reset to 0 |
| RenderThreads.RenderThread.ServeNext | src/com/google/code/orion_viewer/RenderThread.java:195-292 | with a current position, no pending request and look-ahead left, the iteration serves as `Advance` says, with the cache changes of `ServeTarget` |
| RenderThreads.RenderThread.MarkServed | src/com/google/code/orion_viewer/RenderThread.java:198-201 | `curPos` becomes the served target and the counter grows by one, as `futureIndex++` at line 292 does; the control invariant is kept |
| RenderThreads.RenderThread.Step | src/com/google/code/orion_viewer/RenderThread.java:156-293 | the control state and action are exactly `Advance`'s; without a serve the cache, its entries' flags and bitmaps, and the logs are unchanged; a served target is valid at the tail and handed off iff it is served at counter 0, right after adoption; a hit only moves the first hit to the tail, and a miss drops the oldest entry only from a full cache and appends one new entry, rendering the target once; the cache stays within `CACHE_SIZE`, with distinct entries and bitmaps |
| Selection.NextState | orion-viewer/src/universe/constellation/orion/viewer/selection/SelectionAutomata.java:71-98 | START goes to MOVING on ACTION_DOWN and to CANCELED otherwise; MOVING goes to END on ACTION_UP and stays otherwise; END and CANCELED are absorbing; START is never re-entered |
| Selection.RunAbsorbing | orion-viewer/src/universe/constellation/orion/viewer/selection/SelectionAutomata.java:97 | no sequence of touches leaves END or CANCELED |
| Selection.RunFromMoving | orion-viewer/src/universe/constellation/orion/viewer/selection/SelectionAutomata.java:85-95 | from MOVING a gesture ends in END iff it contains ACTION_UP |
| Selection.RunFromStart | orion-viewer/src/universe/constellation/orion/viewer/selection/SelectionAutomata.java:72-95 | a selection succeeds iff the gesture opens with ACTION_DOWN and later has an ACTION_UP; any other first action cancels it |
| Selection.ReactToSelectedText | orion-viewer/src/universe/constellation/orion/viewer/selection/SelectionAutomata.java:106-117 | null or empty text gives a warning; otherwise the dictionary is used iff in single-word mode, on exactly that text; the dialog stays open only for non-empty text in free-text mode |
| Selection.SelectionAutomata.constructor | orion-viewer/src/universe/constellation/orion/viewer/selection/SelectionAutomata.java:41-53 | starts CANCELED, not in single-word mode |
| Selection.SelectionAutomata.OnTouch | orion-viewer/src/universe/constellation/orion/viewer/selection/SelectionAutomata.java:65-122 | the touch is handled iff the old state was START or MOVING; the state moves by `NextState`; ACTION_DOWN in START records the start and zeroes the size; in MOVING the size becomes end minus start; nothing else changes; a change to CANCELED dismisses, and a change to END selects the widened rectangle |
| Selection.SelectionAutomata.StartSelection | orion-viewer/src/universe/constellation/orion/viewer/selection/SelectionAutomata.java:124-132 | the state becomes START with the given mode, and the rectangle is untouched |
| Selection.SelectionAutomata.InSelection | orion-viewer/src/universe/constellation/orion/viewer/selection/SelectionAutomata.java:136-138 | true iff the state is neither END nor CANCELED |
| Selection.SelectionAutomata.IsSuccessful | orion-viewer/src/universe/constellation/orion/viewer/selection/SelectionAutomata.java:140-142 | a successful selection is no longer in progress |
| Selection.SelectionAutomata.GetStartX | orion-viewer/src/universe/constellation/orion/viewer/selection/SelectionAutomata.java:144-146 | widening moves the left edge but not the right edge; outside single-word mode it is the raw field |
| Selection.SelectionAutomata.GetStartY | orion-viewer/src/universe/constellation/orion/viewer/selection/SelectionAutomata.java:148-150 | widening moves the top edge but not the bottom edge; outside single-word mode it is the raw field |
| Selection.SelectionAutomata.GetWidth | orion-viewer/src/universe/constellation/orion/viewer/selection/SelectionAutomata.java:152-154 | outside single-word mode it is the raw width |
| Selection.SelectionAutomata.GetHeight | orion-viewer/src/universe/constellation/orion/viewer/selection/SelectionAutomata.java:156-158 | outside single-word mode it is the raw height |
| Selection.SelectionAutomata.SingleWordWidening | orion-viewer/src/universe/constellation/orion/viewer/selection/SelectionAutomata.java:144-158 | in single-word mode the start moves back and the size grows by the margin; with a non-negative margin the rectangle only grows |
| IntBitmaps.IntBitmap.constructor | orion-viewer/kotlin/universe/constellation/orion/viewer/view/IntBitmap.kt:9-16 | a new bitmap is alive and has the given size, offset and cache |
| IntBitmaps.IntBitmap.IntCounts | orion-viewer/kotlin/universe/constellation/orion/viewer/view/IntBitmap.kt:11-18 | the pixel count is exactly the length of the slice `[offset, endOffset)` |
| IntBitmaps.IntBitmap.Destroy | orion-viewer/kotlin/universe/constellation/orion/viewer/view/IntBitmap.kt:29-32 | marks the bitmap dead and may change nothing else |
| IntBitmaps.ScreenCap | orion-viewer/kotlin/universe/constellation/orion/viewer/view/IntBitmap.kt:74 | the cap is 11/10 of the screen dimension, truncated toward zero |
| IntBitmaps.CalcDim | orion-viewer/kotlin/universe/constellation/orion/viewer/view/IntBitmap.kt:73-75 | the result is at most the request and at most the cap, and it equals one of them |
| IntBitmaps.FreeOffset | orion-viewer/kotlin/universe/constellation/orion/viewer/view/IntBitmap.kt:77-88 | a found offset lies after the last slice or before the first; on a packed list it lies inside the array and overlaps no slice |
| IntBitmaps.Live | orion-viewer/kotlin/universe/constellation/orion/viewer/view/IntBitmap.kt:50-55 | keeps exactly the live bitmaps of the list, as a subsequence, so in their original order |
| IntBitmaps.LivePacked | orion-viewer/kotlin/universe/constellation/orion/viewer/view/IntBitmap.kt:50-55 | sweeping dead slices keeps the list packed |
| IntBitmaps.Placed | orion-viewer/kotlin/universe/constellation/orion/viewer/view/IntBitmap.kt:64-68 | the new slice is added once, either in front or at the end |
| IntBitmaps.PlacedPacked | orion-viewer/kotlin/universe/constellation/orion/viewer/view/IntBitmap.kt:43-68 | a slice found by `FreeOffset` and inserted as `createBitmap` does keeps the list ordered, disjoint and in bounds |
| IntBitmaps.Cache.constructor | orion-viewer/kotlin/universe/constellation/orion/viewer/view/IntBitmap.kt:36-41 | the array holds five screens of pixels, and the list is empty and packed |
| IntBitmaps.Cache.RemoveDead | orion-viewer/kotlin/universe/constellation/orion/viewer/view/IntBitmap.kt:50-55 | removes exactly the dead slices, keeps the order of the rest, and keeps the list packed |
| IntBitmaps.Cache.CreateBitmap | orion-viewer/kotlin/universe/constellation/orion/viewer/view/IntBitmap.kt:44-71 | sweeps only when the first search fails; fails iff the search after the sweep fails; otherwise the new live bitmap of the capped size lies inside the array at the offset found and is inserted as `Placed` says; the list stays packed |
| IntBitmaps.CacheCompanion.constructor | orion-viewer/kotlin/universe/constellation/orion/viewer/view/IntBitmap.kt:92 | there is no cache before the first call |
| IntBitmaps.CacheCompanion.Create | orion-viewer/kotlin/universe/constellation/orion/viewer/view/IntBitmap.kt:94-99 | the first call creates an empty cache for the given size; every later call returns that same cache and ignores its argument |

## Left out

- Threads are not modelled: `synchronized`, `wait`/`notify`, `InterruptedException` and the one-second `CountDownLatch` handoff through `runOnUiThread`. Each public method is one atomic step. A `wait()` is a `Wait` step that makes no progress. The handoff is an entry appended to the ghost log `handedOff`.
- Rendering and drawing are not modelled: `doc.renderPage`, `layout.convertToPoint`, the `Canvas` rotate, translate and draw calls, and the pixel contents of bitmaps. A render is recorded in the ghost log `rendered`. `Bitmap.createBitmap` is a fresh `Bitmap` of the view's size. `recycle` is modelled as detaching the bitmap from its entry.
- `layout.nextPage` is a function given at construction. `layout.getRotation` and the view size are the `Geometry` passed to each step. The clone before `nextPage` is implicit, because positions are values.
- `LayoutPosition.java` is not part of this model. Positions are values compared field by field, over the page, the integer zoom, the offsets and the piece size.
- The pixel-format switch in the `RenderThread` constructor is left out, and so is `rotationShift`. They only affect drawing.
- Logging is left out (`Common.d`, `Debug` heap sizes, `println`).
- The dialog and controller calls that `onTouch` makes on a state change are reduced to `Effect` and `Reaction` values. The `selectionView.reset` and `updateView` calls (SelectionAutomata.java:79, 93) only redraw the view and are dropped. The UI calls of `startSelection` are dropped too: `selectionView.reset()`, `initDialogSize()`, `dialog.show()` and `activity.showFastMessage(msg)` (SelectionAutomata.java:125-129).
  - `SINGLE_WORD_AREA` is a constructor parameter, because it comes from screen density.
  - Touch coordinates arrive as integers, so the `(int)` casts of float coordinates are already applied.
  - `MotionEvent` action codes are the integers 0 (down) and 1 (up).
- The `Canvas.drawBitmap` extension functions of `IntBitmap` are drawing helpers and are left out.
- Arithmetic is unbounded: 32-bit overflow of `width * height` and of the array size is not modelled.
- IntBitmaps.ScreenCap: the `1.1 * screenDim` double product is modelled as the integer `11 * screenDim / 10`, truncated toward zero. For non-negative values this is the truncated double, because the double nearest 1.1 lies above 1.1.
- IntBitmaps.Cache.CreateBitmap requires non-negative requested sizes. The source accepts negative ones, and a negative pixel count would let a slice overlap others.
- IntBitmaps.Cache.constructor requires a non-negative screen size. A negative screen size is meaningless, so it is excluded.
- IntBitmaps.CacheCompanion.Create has the same requirement on its first call.
- `render` only stores the request. The look-ahead counter is reset when the loop adopts it (RenderThread.java:176-181, 296-302).
