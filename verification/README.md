# Persistent windows: a Dafny model of the window-state reconciliation

This project models the core of `bevy-persistent-windows`, a Bevy plugin that keeps a
window's mode, display, size, scale and position in sync with a persisted
`WindowState` record. The windowing runtime is replaced by plain descriptor records
(`Platform`), persistence by a value/stored-copy/write-count record (`Persistence`), and
the engine's systems by pure step functions over a map from window identity to
window-and-record (`Systems`).

Modules:

- `Types`: 32-bit integer newtypes (`U32` pixel sizes and refresh rates, `I32` positions),
  an opaque `Scale`, and `Option`.
- `Components`: the unified `WindowState` record with `mode`, `monitor`, `resolution`,
  `scale`, `position`, `autoScaled` and `sync`. Also its constructors (`fullscreen`,
  `windowed`, `at`, `Default`).
- `Platform`: the engine `Window` (mode, resolution with scale override, position, reported
  scale), a display `Monitor` (name, size, refresh rate, native scale, best video mode), and
  a `NativeWindow` with its live readings (current display, inner size, fallible outer position).
- `Persistence`: `Persistent(value, stored, writes)`. `Set` replaces and writes the record.
  `Persist` writes the current one. `Saved` says storage holds the record up to the
  transient `sync` flag.
- `Monitors`: `available_monitors` as a filter into a catalogue, and the `best_monitor`
  left fold over an iteration order of that catalogue.
- `Reconcile`: `apply_state_to_window`, `apply_window_to_state` and `adjust_to_monitor`.
- `Systems`: `auto_scale`, the three capture systems, `on_persistent_window_state_changed`,
  and a frame that runs capture before propagation.

Design points:

- **The selection rule.** The code's replacement rule in `best_monitor` is a product
  preorder, not the lexicographic order its doc comment describes. A candidate replaces the
  selection exactly when all three hold: it is at least as wide, it is at least as tall, and
  its (refresh rank, smaller index) pair is no worse. `Monitors.Replaces` proves the code's
  branches equal to this reference order (`AtLeastAsGood`).
- **Order dependence.** It follows that the selected display depends on the hash map's
  iteration order. A strictly wider display is not always chosen (`WiderButShorterDependsOnOrder`).
  When one display is at least as good as every other, the order does not matter
  (`DominantMonitorOrderIndependent`). Otherwise, every display loses when some display that
  beats it comes first (`NotDominantNotSelected`).
- **The sync protocol.** It is a two-state machine per window. `sync == false` means "the
  record was just written by a capture, so its change notification is an echo".
  `Consistent` says that while an echo is pending, storage already holds the record.
  Captures, auto-scaling, adjustment and propagation preserve it. An edit by application code
  does not preserve it when it lands while an echo is pending. Application systems run between
  the captures and the propagation, so such an edit is absorbed together with the echo and is
  lost (see "## Findings").
- **Scale read-back.** The engine reports a window's scale as its resolution's override when
  one is set, and otherwise as the platform's scale (`Platform.ScaleFactor`). So a record shown
  with `scale = Some(x)` is read back as `x` by the next capture.
- **Missing fields.** `WindowState` in src/components.rs has no `scale` or `auto_scaled`
  field, although src/utils.rs and src/systems.rs use both. The model has one record with
  both fields. The constructors set `scale = None` and `autoScaled = true`, so the one-shot
  auto-scale step still has to run. The record literals in src/utils.rs do not mention
  `auto_scaled`, and the model copies it from the current record.
- **Two-argument calls.** `apply_state_to_window` takes a monitor index (src/utils.rs:130),
  but src/systems.rs:114 and src/plugins.rs:23 call it with two arguments. Those calls are
  modelled as passing no index.
- **The three capture systems.** Moved, resized and scale-factor-changed behave identically.
  They are one `WindowEvent` datatype with three variants, handled by `CaptureEvent` and
  folded by `OnWindowEvents`.
- **Record equality.** The "write only on change" comparisons use full record equality. The
  candidate record always copies `sync` from the current one, so `sync` never decides a write.

## Model

| member | source | states |
|---|---|---|
| Components.FullscreenState | src/components.rs:30-38 | fullscreen mode; no monitor, resolution or position; `sync` set |
| Components.WindowedState | src/components.rs:41-49 | windowed mode with the given resolution; no monitor or position; `sync` set |
| Components.PlacedAt | src/components.rs:54-59 | sets the position only for a windowed state, returns a non-windowed state unchanged, and never changes mode, monitor, resolution, scale or `sync` |
| Components.DefaultState | src/components.rs:62-66 | the default record is the fullscreen record |
| Components.FullscreenRefusesPosition | src/components.rs:54-66 | placing a fullscreen or default state leaves it without a position |
| Components.PlacedAtLastWins | src/components.rs:54-59 | of two placements the last one wins, so placing twice at one point equals placing once |
| Monitors.Collect | src/utils.rs:13-17 | the catalogue's keys are exactly the names that occur; each maps to the last display carrying it, with its enumeration index |
| Monitors.AvailableMonitors | src/utils.rs:10-20 | None exactly when no display has a name; otherwise a non-empty catalogue of the enumeration |
| Monitors.IterationIndicesDistinct | src/utils.rs:13-17 | any iteration of an enumerated catalogue has pairwise distinct indices |
| Monitors.Replaces | src/utils.rs:51-83 | a narrower or shorter candidate never replaces the selection; a candidate without a rate or with a lower rate never displaces a rated selection; with equal rates the smaller-or-equal index replaces; overall, replacement happens exactly when the candidate is at least as good in the reference product order |
| Monitors.Scan | src/utils.rs:44-85 | the fold returns the starting selection or a later entry, and the result is at least as good (so at least as wide and tall) as the starting selection |
| Monitors.BestMonitor | src/utils.rs:38-86 | on a non-empty iteration, the result is one of its entries and is at least as good as the first |
| Monitors.BestMonitorInCatalog | src/utils.rs:41-43 | on an iteration of a non-empty catalogue, the selected entry is a catalogue entry |
| Monitors.ScanReachesDominant | src/utils.rs:44-85 | once a display that is at least as good as every entry is selected or still ahead, the fold ends on it |
| Monitors.DominantMonitorWins | src/utils.rs:38-86 | a display at least as good as every other is selected, whatever the iteration order |
| Monitors.DominantMonitorOrderIndependent | src/utils.rs:38-86 | two iterations of one catalogue that has a dominant display select the same display |
| Monitors.RefreshRateTieBreak | src/utils.rs:58-71 | among equal sizes, 144 Hz beats 60 Hz and beats a display with no rate |
| Monitors.IndexTieBreak | src/utils.rs:73-80 | among identical displays, the smaller enumeration index wins |
| Monitors.WiderButShorterDependsOnOrder | src/utils.rs:51-56 | a strictly wider but shorter display is skipped, so the result depends on iteration order |
| Monitors.NotDominantNotSelected | src/utils.rs:44-85 | an entry that is beaten on some axis by the entry placed before it is not selected, so without a dominant display every display loses under some order |
| Monitors.LexScan | src/utils.rs:22-29 | the documented priority order's scan ends on an entry at least as good as the start and every remaining entry |
| Monitors.LexBestMonitor | src/utils.rs:22-29 | the documented selection is a greatest entry in the width, height, refresh, smaller-index priority order |
| Monitors.LexBestOrderIndependent | src/utils.rs:22-29 | under the documented order, every iteration of a catalogue selects the same display |
| Monitors.LexWiderWins | src/utils.rs:24-29 | under the documented order the wider display wins in either iteration order |
| Reconcile.ApplyStateToWindow | src/utils.rs:127-151 | copies mode and resolution; the record's scale becomes the override, so the window reports it as its scale; position is At, else centred on the given display index, else automatic |
| Reconcile.ApplyStateToWindowIdempotent | src/utils.rs:127-151 | projecting the same record twice gives the same window as projecting it once |
| Reconcile.CapturedPosition | src/utils.rs:163-171 | live outer position, else the window's explicit position, else the recorded position; a known position is never lost |
| Reconcile.ApplyWindowToState | src/utils.rs:154-178 | captures mode, inner size, the window's reported scale and current display name; position by the three-level fallback; either changes nothing or writes once, saves, and clears `sync`; it writes exactly when the record changes |
| Reconcile.ApplyWindowToStateKeepsSaved | src/utils.rs:173-177 | after a capture, a record whose echo is pending is saved |
| Reconcile.ApplyRoundTrip | src/utils.rs:127-178 | if the live surface reports the requested size and either the requested position or none, capture gives back the record's mode, resolution, position and any recorded scale |
| Reconcile.WindowedRoundTrip | src/components.rs:41-49 | any windowed state, shown and reported back at its size and some position, captures as windowed at that size and position, with one write and its echo pending |
| Reconcile.WindowedRoundTripExample | src/utils.rs:127-178 | windowed 1280x720, shown and reported back at (10, 10), captures as windowed 1280x720 at (10, 10) |
| Reconcile.EchoedCaptureWritesNothing | src/utils.rs:173-177 | if the live surface echoes every field of the shown record, the capture writes nothing |
| Reconcile.AdjustToMonitor | src/utils.rs:94-124 | targets the recorded display if the catalogue knows its name, else the best one; monitor, resolution and scale become concrete, and existing ones are kept; mode, position, `autoScaled` and `sync` are kept; writes exactly when the record changes; the window is centred on the target unless the record has a position, and its scale override is the record's scale |
| Reconcile.AdjustToMonitorIdempotent | src/utils.rs:100-123 | a second adjustment with the same catalogue neither writes nor changes the window |
| Reconcile.AdjustToMonitorKeepsSaved | src/utils.rs:119-121 | an adjustment keeps the record saved whenever its echo is pending |
| Systems.AutoScaleWindow | src/systems.rs:15-21 | acts only if `autoScaled` is set and the native window and its display are known; it then clears `autoScaled`, records the display's scale and persists; otherwise nothing changes |
| Systems.AutoScaleOneShot | src/systems.rs:15-21 | once auto-scale has acted, later runs change nothing, whatever the live scale |
| Systems.AutoScale | src/systems.rs:6-26 | the system applies the per-window step to changed windows only and keeps every record consistent |
| Systems.CaptureEvent | src/systems.rs:39-47 | an event for a window without persistent state changes nothing; otherwise that window's record gets the capture |
| Systems.CaptureEventCaptures | src/systems.rs:39-47 | one event changes no window, and any record it writes is saved, concrete and has its echo pending |
| Systems.OnWindowEvents | src/systems.rs:29-50 | a stream of events never touches a window, leaves untargeted windows alone, and any written record ends saved with its echo pending |
| Systems.CapturesPreserve | src/systems.rs:39-47 | captures keep a record consistent and showable |
| Systems.StateChangedWindow | src/systems.rs:107-115 | with `sync` clear, sets `sync` and neither persists nor touches the window; with `sync` set, persists and projects the record onto the window; afterwards `sync` is set |
| Systems.AbsorbedEchoIsSaved | src/systems.rs:108-111 | absorbing an echo of a consistent record leaves storage holding the record |
| Systems.OnStateChanged | src/systems.rs:101-116 | only changed windows are handled, each ends with `sync` set, and consistency is preserved |
| Systems.Edit | examples/controlling.rs:97-105 | application code replaces the record's fields, keeps `sync`, and neither writes nor touches the window |
| Systems.Frame | src/plugins.rs:26-35 | capture, then application edits, then propagation; every changed window ends re-armed; a record stays consistent unless it was edited while its echo was pending |
| Systems.NoFeedbackLoop | src/systems.rs:107-115 | a window whose record a capture wrote and nobody edited keeps its window untouched through the frame; the record is not persisted again, stays saved, and is re-armed if notified |
| Systems.EditWhileArmedIsPropagated | src/systems.rs:113-114 | an edit made in a frame whose record is still armed after capture is persisted and shown on the window |
| Systems.EditDuringEchoIsDropped | src/systems.rs:108-111 | an edit made in a frame whose capture wrote the record is absorbed: the window is untouched, storage keeps the captured record, and the edit is left unsaved |
| Systems.DroppedEditExample | src/systems.rs:108-111 | a move captured in the same frame as a switch to fullscreen: the switch is neither shown nor stored |
| Systems.StateChangedWindowCorrected | src/systems.rs:107-115 | the intended handler absorbs only an echo whose record storage still holds; any other change is persisted and shown; afterwards the record is armed and saved |
| Systems.CorrectedFrame | src/systems.rs:101-116 | with the intended handler every changed window ends armed and saved |
| Systems.CorrectedFramePropagatesEdits | src/systems.rs:107-115 | with the intended handler, an edit that differs from storage is persisted and shown, and a capture-written record nobody edited is not shown again |

## Findings

| source | as written | input that shows it | evidently intended | confidence | as-written member | corrected member |
|---|---|---|---|---|---|---|
| src/utils.rs:51-56 | a candidate that is shorter than the selection is skipped even when it is wider, contrary to the width-first priority of the doc comment at src/utils.rs:24-29 | displays "tall" 100x200 (index 0) then "wide" 200x100 (index 1), neither with a rate: "tall" is selected, and in the other order "wide" is | width decides first, then height, refresh rate and index, so "wide" wins in both orders | medium, not executed | Monitors.WiderButShorterDependsOnOrder | Monitors.LexBestMonitor |
| src/systems.rs:108-111 | any change notification that arrives while `sync` is clear is absorbed, including one that merges a capture's echo with an edit by an application system that runs between the captures and this handler | a window is moved (capture writes, `sync` cleared) and in the same frame application code switches the record to fullscreen: the handler absorbs the change, so the switch is neither shown nor stored | absorb only a pure echo, where the record is still what storage holds; persist and show anything else | medium, not executed | Systems.EditDuringEchoIsDropped | Systems.StateChangedWindowCorrected |

The corrected members sit beside the as-written ones. The rest of the model keeps the code's
behaviour. `Reconcile.AdjustToMonitor` takes the best display as an argument, so it works
with either selection. `Systems.Frame` models the program as written, and `Systems.CorrectedFrame`
is the same frame with the intended handler.

## Left out

- The winit and Bevy handles (event loop, display handles, native windows, the best-video-mode
  query, scale-factor queries) are foreign calls. They are replaced by the descriptor records
  in `Platform`, whose fields are the values those calls return.
- The floating-point conversions are not modelled. These are `WindowResolution::new` taking
  `f32` and the `f64`/`f32` scale casts. A scale is an exact opaque value, so NaN and rounding
  are not modelled either.
- The durable persistence layer is not modelled: files, format, revert policy, and write
  errors discarded by `.ok()`. Every write is taken to succeed.
- ECS plumbing is not modelled: queries, `Changed<>` change detection, the thread-local
  native-window registry, and the main-thread marker. The windows whose records changed are
  an explicit input set.
- System scheduling and the plugin's startup projection in src/plugins.rs are not modelled.
  Only the order within one frame is modelled, in `Systems.Frame`: captures, then application edits, then propagation.
- Hash-map iteration order is not modelled. It is an arbitrary input sequence of entries,
  and no order independence is claimed beyond `DominantMonitorOrderIndependent`.
- src/bundles.rs, src/lib.rs, src/prelude.rs and examples/*.rs are declarations, re-exports
  and application setup.
- Monitors.BestMonitor: requires a non-empty iteration, because the source unwraps the first
  entry and panics on an empty catalogue (src/utils.rs:43).
- Reconcile.ApplyStateToWindow: requires a concrete resolution, because the source unwraps it
  and panics on None (src/utils.rs:134-135). The plugin shows every record before any
  adjustment (src/plugins.rs:22-24), so a record whose resolution is None, such as the
  fullscreen default at examples/controlling.rs:34, reaches that unwrap. Startup through
  src/plugins.rs is not modelled.
- Systems.StateChangedWindow: requires `Showable`, a concrete resolution whenever `sync` is
  set, because it shows the record through the same unwrap (src/systems.rs:114).
- Systems.OnStateChanged: requires `Showable` for every changed window, for the same panic.
- Systems.Frame: requires `Showable` for every changed window after capture and edits, for the
  same panic.
- Systems.CaptureEvent: requires a native window for an event's persistent window, because the
  source indexes the native-window registry and panics when it is missing
  (src/systems.rs:43-44, 67-68, 91-92).
- Systems.OnWindowEvents: requires `EventsResolvable`, the same registry lookup for every event.
- Systems.Edit: `fullscreen_toggle` in examples/controlling.rs also persists its edit. The model's
  edit writes nothing, so a dropped toggle is stored there but still not shown.
- The per-variant monitor-selection payload that some fullscreen modes carry in newer engine
  versions is not modelled. src/components.rs uses plain `WindowMode::Fullscreen`.
