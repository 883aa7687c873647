# unagi compositor core, modelled in Dafny

unagi is a compositing manager for X. It keeps a stacking-ordered list of the
windows it manages, with an AVL tree indexing that list by window id. It
accumulates the damage X reports for each window and repaints the damaged
windows on a timer derived from the screen refresh rate. Event hooks and
paint lists can be supplied by plugins. This project models that
bookkeeping as immutable data and pure functions, and proves what the code
promises about it:

- `ITree` (src/util.c): the id index, an AVL tree with insert, get, remove
  and size. Balance is restored on the way back up, as the source's
  parent-pointer walk does. The invariant is the one `util_itree_check`
  tests: ordering, |balance| <= 1 and correct stored heights.
- `Window` (include/window.h, src/window.c): the `window_t` record and the
  per-window helpers. These are the damaged-ratio accumulator, the
  border-width sums with their 16-bit truncation, the visibility predicate,
  the cached shape test and pixmap release.
- `Render` (rendering/render.c): the reference-counted, opacity-keyed
  alpha-picture cache, the operator and size choice of `render_paint_window`,
  and the bounds-checked label tables.
- `Registry` (src/window.c): the window list (bottom of the stack first),
  the index and the alpha cache together. It covers append, remove, restack,
  add, the paint pass and the management of pre-existing windows. Its
  invariant ties every index entry to a listed window and every cache
  counter to the windows referencing it.
- `Event` (src/event.c): every handler as a transition on a `Conf` record,
  with a `Crash` outcome where the source dereferences a NULL pointer. It
  also covers the error-label lookup, the start-up error handler and the
  response-type dispatch.
- `Scheduler` (src/unagi.c): the paint callback, the paint-time average and
  next interval, the two event-drain modes, the order of `main`'s start-up
  steps and the teardown order.
- `Keys` (src/key.c): the lock-mask scan of the modifier mapping and the
  keysym selection rules of section 5 (Keyboards) of the X Window System
  Protocol.
- `Plugin` (include/plugin.h, src/plugin_common.c): the plugin records, the
  `PLUGINS_EVENT_HANDLE` dispatch rule and the path `plugin_common_dlopen`
  builds.
- `XTypes` and `Wrappers`: fixed-width integers with explicit wrap-around,
  the X records used, and `Option`.

Object identity (a `window_t *`) is a `Handle` drawn from a counter, so
the list can hold two windows with the same id. The source allows this
when a managed window is reparented to the root. The list and the index
may then disagree, and the model keeps that visible.

Behaviour of the code worth knowing, which the model follows:

- Adding an id that is already indexed appends a second window, but the
  index keeps pointing at the older one (`Registry.AppendDuplicateKeepsOlder`).
- Restacking with no sibling puts the window at the head of the list, which
  is the bottom of the stack.
- `window_add` fails when either reply is missing. The window it appended is
  then removed, and so is the index entry for that id, even when the entry
  belonged to an older window (`Registry.AddFailureUnindexesExisting`).
- The compositing-manager window is listed without attributes or geometry.
  The Map, Unmap and Configure handlers dereference those, so they crash on
  it. The model returns `Crash` in those cases.
- `window_manage_existing` and the PropertyNotify pass call their plugin
  hooks whether or not the plugin is enabled.
- A ReparentNotify whose parent is not the root still adds the window when
  it is not yet managed.
- CirculateNotify with PlaceOnTop on a one-window list whose tail id is not
  NONE crashes on the empty list inside `window_restack`.
- A window's width and height are never 0 in the X protocol, so `Dim`
  (1..65535) takes the place of a `width * height > 0` precondition on the
  damaged ratio.
- `window_add_requests` sends GetGeometry whatever its `get_geometry`
  argument says, so a CreateNotify also fails when that reply is missing,
  even though the event's own geometry is used afterwards.
- Lock acting as CapsLock yields the second keysym of the group, with or
  without Shift.

## Model

| member | source | states |
|---|---|---|
| XTypes.ToU16 | include/window.h:94-102 | the `(uint16_t)` cast: the result is congruent to the input modulo 2^16 and equals it when it is in range |
| XTypes.ToI16 | src/event.c:279 | the `(int16_t)` wrap of a `short` field: congruent modulo 2^16, and the identity on -32768..32767 |
| ITree.New | src/util.c:103-106 | the new tree is a valid AVL tree with an empty key map |
| ITree.GetOnNew | src/util.c:286-294 | `get` on the new tree finds nothing, and its size is 0 |
| ITree.Get | src/util.c:241-256 | on an ordered tree, a value is found exactly when the key is in the tree's map, and it is the mapped value |
| ITree.Size | src/util.c:366-372 | on an ordered tree, the node count is the number of keys |
| ITree.Rebalance | src/util.c:142-232 | after fixing heights and rotating where the balance is ±2, the node again has correct stored heights |
| ITree.RebalanceValid | src/util.c:164-232 | rebalancing a node whose children are valid and differ in height by at most 2 gives a valid AVL tree with the same key map, whose height grows by at most one over the taller child |
| ITree.RotationsKeepInorder | src/util.c:164-203 | a left or right rotation keeps the in-order key sequence |
| ITree.RotationsKeepContents | src/util.c:164-203 | a rotation of an ordered tree keeps its key map |
| ITree.SingleRight | src/util.c:164-203 | a single right rotation of a left-heavy node gives a valid tree with the same map |
| ITree.SingleLeft | src/util.c:164-203 | a single left rotation of a right-heavy node gives a valid tree with the same map |
| ITree.DoubleRight | src/util.c:207-232 | the left-right double rotation gives a valid tree with the same map and the left child's height |
| ITree.DoubleLeft | src/util.c:207-232 | the right-left double rotation gives a valid tree with the same map and the right child's height |
| ITree.InsertNew | src/util.c:263-279 | inserting a key that is not present gives a non-empty tree with correct heights |
| ITree.InsertNewValid | src/util.c:263-279 | inserting a fresh key into a valid tree gives a valid tree mapping the key to the value, with height grown by at most one |
| ITree.Insert | src/util.c:263-279 | insert keeps validity; a key already present leaves the tree untouched; a fresh key is added with its value and nothing else changes |
| ITree.InsertFresh | src/util.c:272-278 | after inserting a fresh key, `get` returns the value, other keys are unaffected and the size grows by one |
| ITree.InsertPresent | src/util.c:265-270 | inserting a key that is present returns the tree unchanged, so the old value stays |
| ITree.RemoveMax | src/util.c:321-341 | detaching the in-order predecessor keeps correct heights |
| ITree.RemoveMaxValid | src/util.c:321-341 | detaching the greatest key of a valid tree gives a valid tree without that key, all of whose keys are smaller |
| ITree.Delete | src/util.c:301-348 | deleting a key keeps correct heights |
| ITree.DeleteValid | src/util.c:301-348 | deleting a present key from a valid tree gives a valid tree whose map lacks exactly that key, with the height reduced by at most one |
| ITree.DeletePredecessor | src/util.c:321-347 | deleting a node with two children, replacing it by its in-order predecessor, removes exactly that key and keeps the tree valid |
| ITree.Remove | src/util.c:301-348 | remove keeps validity, removes exactly the key from the map, and an absent key leaves the tree untouched |
| ITree.RemoveAbsent | src/util.c:304-308 | removing an absent key returns the tree unchanged |
| ITree.RemovePresent | src/util.c:310-347 | after removing a present key, `get` finds nothing for it, every other key keeps its value and the size drops by one |
| Window.DamagedRatio | include/window.h:85-92 | `window_get_damaged_ratio` changes only the ratio, never lowers it, and adds exactly the damaged area divided by the window's area |
| Window.DamagedRatioCoverage | include/window.h:85-92 | a damaged rectangle no larger than the window adds at most 1 to the ratio; one at least as large adds at least 1 |
| Window.WidthWithBorder | include/window.h:94-102 | width plus twice the border, reduced modulo 2^16, exact when it fits |
| Window.HeightWithBorder | include/window.h:94-102 | height plus twice the border, reduced modulo 2^16, exact when it fits |
| Window.VisibleIffOverlap | src/window.c:367-374 | the visibility test holds exactly when the window has a geometry and some pixel of the screen lies inside the window's rectangle |
| Window.IsRectangular | src/window.c:297-317 | without a pending fetch the cached answer is returned; otherwise at most one rectangle, or no reply, means rectangular, and the answer is cached |
| Window.IsRectangularCached | src/window.c:297-317 | asking again after an answer returns the same answer whatever the server would reply |
| Window.FreePixmap | src/window.c:163-174 | the pixmap becomes NONE, the backend picture is dropped only when there was a pixmap, and nothing else changes |
| Window.FreePixmapIdempotent | src/window.c:163-174 | freeing the pixmap twice is the same as once |
| Render.Find | rendering/render.c:543-551 | the search returns the first cache entry with the opacity, and none only when no entry has it |
| Render.FindAt | rendering/render.c:543-551 | with distinct opacities, every entry is found at its own position |
| Render.Create | rendering/render.c:430-479 | a new entry with counter 1 is put at the head; the cache stays well formed and the other opacities are unaffected |
| Render.Unref | rendering/render.c:489-514 | the window loses its reference, the counter drops by one, and the entry is unlinked exactly when that was the last reference |
| Render.Share | rendering/render.c:544-551 | an existing entry gains one reference, and no other entry changes |
| Render.Release | rendering/render.c:529-534 | a changed opacity first releases the window's old reference, lowering only that counter |
| Render.Acquire | rendering/render.c:537-554 | opaque yields NONE and no reference; otherwise the cached entry is shared or a new head entry with counter 1 is created, and the picture returned is that entry's |
| Render.GetAlpha | rendering/render.c:524-555 | the same opacity returns the held picture with no counter change; otherwise counters move by exactly the old and new references, the window refers to the new opacity, and opaque yields NONE |
| Render.RemoveProps | rendering/render.c:491-508 | unlinking an entry keeps the cache well formed and every other opacity's entry |
| Render.UpdateProps | rendering/render.c:509-513 | changing one entry's counter changes nothing else |
| Render.FreeWindowPixmap | rendering/render.c:723-732 | the window picture is dropped and the record kept, if there is one |
| Render.FreeWindowPixmapIdempotent | rendering/render.c:723-732 | dropping the picture twice is the same as once |
| Render.FreeWindow | rendering/render.c:739-747 | the window's alpha reference, if any, is released; with none the cache is unchanged |
| Render.FreeWindowKeepsAccounting | rendering/render.c:739-747 | freeing one window's record keeps every counter equal to the number of remaining windows referencing it |
| Render.PaintWindow | rendering/render.c:573-657 | no pixmap means no paint; the operator is SRC exactly when the window is not ARGB and has no mask; the mask is NONE exactly when there is no opacity or it is opaque; the size includes both borders, truncated to 16 bits; the counters move by the old and new references |
| Render.PaintWindowKeepsAccounting | rendering/render.c:573-657 | painting one window keeps every counter equal to the number of windows referencing it |
| Render.AccountedHolds | rendering/render.c:524-555 | when counters match the windows, every window's alpha reference points into the cache |
| Render.RequestLabel | rendering/render.c:693-697 | a label exists exactly for minor codes below 37, and it is the table entry |
| Render.ErrorLabel | rendering/render.c:707-716 | a label exists exactly when the code minus the first error code is in 0..4, and it is that table entry |
| Registry.Empty | src/window.c:48-72 | the starting state satisfies the invariant, with no windows and an empty index |
| Registry.ListGet | include/window.h:66-67 | lookup by id finds a window exactly when the index has the id, and it is the indexed window |
| Registry.Append | src/window.c:48-72 | the zeroed window goes at the tail; a new id is indexed, and an indexed id keeps its old entry |
| Registry.AppendThenGet | src/window.c:48-72 | after appending a new id, lookup by that id finds the new tail |
| Registry.AppendDuplicateKeepsOlder | src/util.c:265-270 | appending an id that is already indexed adds a second window while lookup still finds the older one |
| Registry.RemoveWindow | src/window.c:80-133 | an unlisted window leaves the state unchanged; a listed one is unlinked with the others kept in order, its id is unindexed and its alpha reference released |
| Registry.RemoveThenGet | src/window.c:113-133 | after removing a window, lookup by its id finds nothing |
| Registry.IdPosition | src/window.c:641-645 | the search finds the first window carrying the id, or none when no window carries it |
| Registry.Restack | src/window.c:612-650 | only the window moves: with no sibling it becomes the head, otherwise it goes right after the first window with the sibling's id, or at the tail; length, index and cache are unchanged |
| Registry.SetWindow | src/event.c:566-592 | replacing a window's fields in place, keeping its identity and references, keeps the invariant |
| Registry.Add | src/window.c:586-601 | the window is kept exactly when both replies arrived, with its attributes, geometry and damage (none for an input-only window); otherwise it is removed again together with its id's index entry |
| Registry.AddFailureUnindexesExisting | src/window.c:586-601 | a failed add of an already indexed id leaves the list as it was but drops the older window's index entry |
| Registry.PaintOne | rendering/render.c:573-657 | painting a window changes only its backend record and shape cache; with no pixmap nothing changes |
| Registry.PaintAt | src/window.c:667-693 | one step of the paint pass paints only a damaged window, resets its ratio, and resets the counter only when the ratio was non-zero |
| Registry.PaintAll | src/window.c:658-697 | the pass paints exactly the damaged windows in list order, resets every non-zero ratio with its counter, and keeps the invariant, list length and index |
| Registry.DamagedHandlesMembers | src/window.c:667-673 | a window is in the painted list exactly when it is listed and damaged |
| Registry.ManagedWindow | src/window.c:540-568 | the CM window is kept bare; another window is kept exactly when both replies arrived |
| Registry.Kept | src/window.c:540-552 | which existing windows survive, by position |
| Registry.ManageExisting | src/window.c:523-574 | every id is appended; the windows whose replies failed are removed again, and the CM window is kept; the index ends with exactly the kept ids when the ids are distinct |
| Registry.AppendAll | src/window.c:534-538 | appending the ids in order into an empty index gives consecutive zeroed windows and indexes every id |
| Registry.FinaliseAll | src/window.c:540-569 | the finalisation pass keeps or drops each fresh window as its replies decide, and unindexes exactly the dropped ids |
| Event.Translate | src/event.c:297-298 | the damaged area is moved by the event geometry's origin, each sum stored back into a 16-bit field, with its size unchanged |
| Event.DamageWindow | src/event.c:262-305 | a fully damaged window is ignored; a first damage marks the whole window with ratio 1.0; otherwise the counter goes up, and the whole window is marked when the counter already exceeded 24 or the accumulated ratio reached 0.9, else the translated area |
| Event.DamageWindowKeepsOk | src/event.c:279-280 | the damage counter stays within 0..26, so the 16-bit counter never wraps |
| Event.DamageNotify | src/event.c:238-310 | an unknown or invisible window changes nothing; otherwise only that window and one new damaged region change, and the damage hooks are called |
| Event.FirstDamagePaintsWhole | src/event.c:264-269 | the first damage of a visible window marks it damaged with ratio 1.0 and adds its whole region |
| Event.FullyDamagedIgnores | src/event.c:271-275 | a window already at ratio 0.9 or more ignores further damage entirely |
| Event.CounterForcesWhole | src/event.c:279-292 | a counter above 24 adds the whole region with ratio 1.0, without accumulating the ratio |
| Event.RatioDecidesWhole | src/event.c:279-305 | otherwise the accumulated ratio decides: at 0.9 or more the whole region and ratio 1.0, below it the translated area and the accumulated ratio |
| Event.DamageIfVisible | src/event.c:445-449 | a visible window adds its region as a temporary damage and gets ratio 1.0; an invisible one changes nothing |
| Event.Reconfigured | src/event.c:451-481 | the geometry and override-redirect flag are taken from the event; the region is renewed when the window is visible afterwards; the pixmap is renewed only when the window is viewable, its size or border changed, and it is visible afterwards; the damage object and the shape state are left alone |
| Event.ConfigureNotify | src/event.c:408-487 | the root window only updates the screen size and requests a background reset; an unknown window changes nothing; a managed one crashes without geometry or attributes, or when it names a sibling while it is the only window; otherwise it is reconfigured, restacked and the hooks called |
| Event.ConfigureManaged | src/event.c:445-484 | the window is damaged if visible and reconfigured; with no sibling it goes to the head, otherwise right after the first other window carrying the sibling's id, or at the tail when none does; the others keep their order and the index is unchanged |
| Event.CreateNotify | src/event.c:497-531 | the window is added with the event's geometry; on failure nothing else happens, on success the create hooks are called |
| Event.Created | src/event.c:514-528 | the new window carries the event's geometry, and its region is fetched and the shape queried only when it is visible |
| Event.DestroyNotify | src/event.c:539-558 | an unknown window changes nothing; a known one is removed from the list and the index, and the destroy hooks are called |
| Event.MapNotify | src/event.c:566-592 | an unknown window changes nothing; without attributes it crashes; otherwise it becomes viewable and undamaged, a visible one gets a new region, shape query and pixmap, and the map hooks are called |
| Event.Mapped | src/event.c:578-589 | mapping changes only the map state, the damaged flag and, when visible, the region, shape cache and pixmap |
| Event.UnmapNotify | src/event.c:629-654 | an unknown window changes nothing; without attributes it crashes; otherwise it becomes unmapped and undamaged, and a visible one adds its region with ratio 1.0 |
| Event.ReparentNotify | src/event.c:602-621 | a window reparented to the root, or not yet managed, is added; a managed window reparented elsewhere is removed; the hooks are called in both cases |
| Event.CirculateNotify | src/event.c:376-400 | it crashes exactly for an unknown window, or on top of a one-window list with a non-NONE tail; PlaceOnBottom moves the window to the head; PlaceOnTop restacks it above the tail's id |
| Event.CirculateOnTopEndsAtTail | src/event.c:388-397 | with distinct ids and two or more windows, PlaceOnTop leaves the window at the tail |
| Event.TailIdPosition | src/event.c:388-395 | once the window is unlinked, the tail's id is found at the new tail, or nowhere when the window was the tail |
| Event.PropertyPass | src/event.c:684-691 | every plugin with the property hook is called whether enabled or not, in list order; a disabled plugin with the hook and a requirements check becomes enabled exactly when its check succeeds |
| Event.PropertyNotify | src/event.c:662-694 | the background is reset exactly on a root background-atom change, and the registry and damage are unchanged |
| Event.ForwardOnly | src/event.c:318-367 | RandR, key and button events only call the enabled plugins with the hook |
| Event.MappingNotify | src/event.c:702-719 | a pointer mapping change does nothing; any other change recomputes all four lock masks from the new modifier mapping |
| Event.ExtensionRequestLabel | src/event.c:110-111 | an extension's request label exists exactly for minor codes below its table's length |
| Event.ExtensionLabelBounds | src/event.c:40-100 | the Composite, XFixes and Damage tables have 11, 31 and 5 labels |
| Event.RequestLabelOf | src/event.c:124-144 | the major code picks the RENDER, Composite, XFixes or Damage table in that order, falling back to the core label |
| Event.ErrorLabelOf | src/event.c:160-187 | the backend's label wins, then BadRegion, then BadDamage, then the core label |
| Event.StartupHandle | src/event.c:197-227 | every start-up error is fatal, reported as another manager running exactly when it is Composite's RedirectSubwindows; a PropertyNotify sets the owner property; anything else is ignored |
| Event.CoreHandler | src/event.c:749-765 | core event codes never pick the error, Damage or RandR handler, and a handler picked is the one serving that X event code |
| Event.CoreHandlerIsEventCode | src/event.c:749-765 | the switch agrees with the protocol's event-code table in both directions, and exactly the twelve handled codes pick a handler |
| Event.Classify | src/event.c:726-766 | with the send-event bit masked off, 0 is an error, then the Damage event code, then RandR's, and anything else goes to the core handlers |
| Event.ValidRestack | src/window.c:612-650 | restacking keeps the handler invariant |
| Event.ValidRemove | src/window.c:113-133 | removing keeps the handler invariant |
| Scheduler.NextInterval | src/unagi.c:299-308 | the next interval is refresh minus average when that is at least 0.01, otherwise the refresh interval |
| Scheduler.IntervalAtLeastMinimum | src/unagi.c:299-308 | with a refresh interval of at least 0.01 the next interval is never below 0.01 |
| Scheduler.Record | src/unagi.c:291-308 | a paint adds its time to the sum and counts first, and the interval is derived from sum / counter |
| Scheduler.RecordAllIsMean | src/unagi.c:291-308 | from the initial timing, after n paints the counter is n, the sum is the total paint time and the interval follows the mean |
| Scheduler.RecordAllCounts | src/unagi.c:291-295 | the counter counts paints and the sum adds their times |
| Scheduler.SelectedUnique | src/unagi.c:259-266 | the paint-list choice is a function of the plugins and their answers |
| Scheduler.SelectPaintList | src/unagi.c:259-266 | the first enabled plugin supplying a list wins and later plugins are not asked; with none the registry list is used |
| Scheduler.PaintedValid | src/window.c:667-692 | the paint pass keeps the handler invariant |
| Scheduler.PaintCallback | src/unagi.c:241-336 | with no damage nothing changes; otherwise the list is chosen and painted, the damage and background flag are cleared, the timing records the paint and the drain is re-run in steady mode |
| Scheduler.FirstLate | src/unagi.c:365 | the first event after which the repaint interval is reached |
| Scheduler.Drain | src/unagi.c:339-377 | a connection in error exits before any event is handled; otherwise the start-up drain handles every event, and the steady drain stops polling after the first late event but still handles the events already queued; the count handled is `DrainCount` |
| Scheduler.StartupDrainsMost | src/unagi.c:356-375 | over the same events, a steady drain handles no more events than a start-up drain, as long as no more events are queued than remain |
| Scheduler.FirstFatal | src/event.c:197-227 | the reason of the first event `event_handle_startup` finds fatal, no earlier event being fatal, and none exactly when no event is fatal |
| Scheduler.Plan | src/unagi.c:408-577 | the start-up steps in order, without repetition, with the owner check right before the CM registration |
| Scheduler.Main | src/unagi.c:380-583 | each failure ends the run right after its step; the run reaches the loop exactly when all checks pass; the refresh interval is RandR's or 0.02, and the first repaint interval equals it |
| Scheduler.RegisterFollowsOwnerCheck | src/unagi.c:471-480 | the CM is registered only as the step right after the owner check, and only when no live owner was found |
| Scheduler.LiveOwnerIsFatal | src/unagi.c:472-477 | a live owner stops the run before anything is registered |
| Scheduler.Cleanup | src/unagi.c:191-229 | plugins, then windows, then the backend go first; the CM window goes before the disconnect and only when connected; the loop is destroyed last |
| Keys.Bit | src/key.c:65 | `1 << i` is never 0 |
| Keys.Contains | src/key.c:62-63 | the keycode scan finds a keycode exactly when it is in the list |
| Keys.LookFor | src/key.c:60-67 | a mask already set is kept; an unset one becomes `1 << i` exactly when the slot's keycode is one of the lock keysym's keycodes |
| Keys.LockMaskReply | src/key.c:39-81 | each of the four masks is the bit of the lowest modifier row holding one of its keycodes, or 0 |
| Keys.MaskOfLowest | src/key.c:52-73 | a mask is 0 exactly when no row holds the keycodes, and otherwise the bit of the lowest such row |
| Keys.Group | src/key.c:102-115 | Mode_switch picks columns 2 and 3, otherwise 0 and 1, and a missing second keysym repeats the first |
| Keys.GetKeysym | src/key.c:92-160 | the result is always one of the group's two keysyms or NoSymbol |
| Keys.KeypadRule | src/key.c:119-128 | with Numlock on a keypad keysym, Shift or ShiftLock gives the first keysym and otherwise the second |
| Keys.UnshiftedRule | src/key.c:132-133 | with neither Shift nor Lock the first keysym is used |
| Keys.ShiftRule | src/key.c:146-157 | Shift gives the second keysym |
| Keys.CapsLockRule | src/key.c:135-151 | Lock acting as CapsLock gives the second keysym whether or not Shift is held |
| Keys.ShiftLockRule | src/key.c:153-157 | Lock acting as ShiftLock gives the second keysym |
| Keys.NoSymbolIffLockUninterpreted | src/key.c:119-160 | NoSymbol comes out exactly when Lock is held alone and acts as neither CapsLock nor ShiftLock |
| Plugin.Select | include/plugin.h:117-123 | the positions of the plugins satisfying a test, every one of them, increasing |
| Plugin.EventHandle | include/plugin.h:117-123 | every enabled plugin with the hook is called, in list order, with no short-circuit, and no other |
| Plugin.EventHandleIsListOrder | include/plugin.h:117-123 | any call order that visits exactly those plugins once each, in list order, is the dispatch |
| Plugin.IncreasingUnique | include/plugin.h:117-123 | two increasing call sequences over the same plugins are equal |
| Plugin.ManageExistingCalls | src/window.c:571-573 | the manage-existing hook is called on every plugin that has it, enabled or not |
| Plugin.Snprintf | src/plugin_common.c:44-45 | `snprintf` keeps at most size - 1 characters of its input, as a prefix |
| Plugin.DlopenPath | src/plugin_common.c:38-48 | the path is the directory verbatim, then the name, then ".so", of length |dir| + |name| + 3, never truncated |

## Left out

- Window.DamagedRatio: the two `int` products `width * height` are taken as exact; the source's signed overflow above 2^31-1 (an area or window of 46341x46341 or more), which can make the added term negative, is not modelled.
- X protocol traffic: requests, replies, regions, pictures and pixmaps. New server ids and reply contents are parameters of the operations, and damaged regions are recorded as opaque ids in a sequence.
- The libev loop, timers, signals and clocks. Paint times and per-event elapsed times are inputs to `PaintCallback` and `Drain`.
- Floating point: ratios, paint times and intervals are reals, without float rounding. The `__DEBUG__` statistics are left out.
- Render.Share: the alpha cache's `reference_counter` is an unbounded count, without the 32-bit unsigned wrap-around that would need 2^32 references to one opacity.
- Scheduler.Record: `paint_counter` is an unbounded count, without the 32-bit unsigned wrap-around that would need 2^32 paints.
- Scheduler.PaintCallback: a plugin-supplied paint list is not tracked, so the registry is left unchanged in that case and nothing is reported as painted.
- Plugin hooks are foreign code. A dispatch is the sequence of positions of the plugins called, and hooks are assumed not to change the compositor's state.
- Command-line parsing, the configuration file, `dlopen`/`dlsym` plugin loading and logging. `fatal` is an `Exited` or `Crash` outcome.
- Event.PropertyNotify: the `_NET_SUPPORTED` update (`atoms_update_supported`, src/event.c:677-678) is not modelled; the supported-atom list belongs to the atom set-up, which is not part of this model.
- The display.c functions (the damage accumulator, CM registration and the ownership handshake), atom set-up, the RandR refresh-rate computation and `render_init*`: display.c is not part of this model. Only their order in `main` and their success or failure are modelled.
- Root-background pixmaps and pictures in render.c, and the pixel work of painting: only the RenderComposite operator, source, mask and size of a window paint are modelled.
- Allocation failure (`util_itree_new_node` or `calloc` returning NULL) is not modelled: memory is unbounded.
- The RandR screen-change handler's refresh-rate update is a display.c function; the handler is modelled only as forwarding to the plugins (`ForwardOnly`).
- `xcb_key_symbols_get_keysym` and `xcb_is_keypad_key`: the key's four columns and the keypad test are parameters of `GetKeysym`.
- `util_itree_print`, `util_itree_free` and `window_list_cleanup`: they print or free memory only. The teardown order in `Cleanup` names the list cleanup as one step.
- The two-child case of `util_itree_remove` rebalances from the predecessor's old parent upwards. The model computes the same tree by rebalancing on the way back out of `RemoveMax`, then at the node itself.
