/** Event orchestration: one-shot auto-scaling, capture of window events into
    the record, and propagation of record changes to the window, guarded by
    the `sync` flag so that a captured change is not echoed back. */
module Systems {
  import opened Types
  import opened Components
  import opened Platform
  import opened Persistence
  import opened Reconcile

  /** Identity of a window entity. */
  type WindowId = nat

  /** A persistent window: its engine window and its persisted record. */
  datatype Managed = Managed(window: Window, state: Persistent)

  /** Every persistent window, by identity; one record per window. */
  type World = map<WindowId, Managed>

  /** The native windows the runtime has created, by identity. */
  type Natives = map<WindowId, NativeWindow>

  /** The echo of a capture is pending only while the record is saved. */
  predicate Consistent(m: Managed) {
    m.state.value.sync || Saved(m.state)
  }

  /** The record can be shown on the window whenever it is not an echo. */
  predicate Showable(m: Managed) {
    m.state.value.sync ==> m.state.value.resolution.Some?
  }

  // ---------------------------------------------------------------- auto-scale

  /** The one-shot auto-scale step of one window: while the record still
      awaits its first real scale and the native window knows its display,
      records that display's scale and persists. */
  function AutoScaleWindow(m: Managed, native: Option<NativeWindow>): (r: Managed)
    ensures !m.state.value.autoScaled ==> r == m
    ensures native.None? || native.value.currentMonitor.None? ==> r == m
    ensures m.state.value.autoScaled && native.Some? && native.value.currentMonitor.Some? ==>
      && r.state.value == m.state.value.(autoScaled := false, scale := Some(native.value.currentMonitor.value.scaleFactor))
      && r.state.writes == m.state.writes + 1
      && r.state.stored == r.state.value
    ensures r.window == m.window
  {
    if m.state.value.autoScaled && native.Some? && native.value.currentMonitor.Some? then
      var s := m.state.value.(autoScaled := false, scale := Some(native.value.currentMonitor.value.scaleFactor));
      Managed(m.window, Persist(m.state.(value := s)))
    else m
  }

  /** Auto-scaling is one-shot: once it has acted, later runs leave the
      scale alone whatever the live display reports. */
  lemma AutoScaleOneShot(m: Managed, first: Option<NativeWindow>, later: Option<NativeWindow>)
    ensures var a := AutoScaleWindow(m, first);
      a != m ==> AutoScaleWindow(a, later) == a && !a.state.value.autoScaled
  {
  }

  /** The auto-scale system over every window whose record changed. */
  function AutoScale(world: World, natives: Natives, changed: set<WindowId>): (r: World)
    ensures r.Keys == world.Keys
    ensures forall id :: id in world && id !in changed ==> r[id] == world[id]
    ensures forall id :: id in world && id in changed ==>
      r[id] == AutoScaleWindow(world[id], if id in natives then Some(natives[id]) else None)
    ensures forall id :: id in world && Consistent(world[id]) ==> Consistent(r[id])
  {
    map id | id in world ::
      if id in changed then AutoScaleWindow(world[id], if id in natives then Some(natives[id]) else None)
      else world[id]
  }

  // ------------------------------------------------------------------ capture

  /** A window event: moved, resized or scale factor changed. Each of the
      three capture systems reacts to its own kind in the same way. */
  datatype WindowEvent = Moved(window: WindowId) | Resized(window: WindowId) | ScaleFactorChanged(window: WindowId)

  /** Handles one window event: a window without persistent state is
      ignored, otherwise its live readings are captured into its record. */
  function CaptureEvent(world: World, natives: Natives, e: WindowEvent): (r: World)
    requires e.window in world ==> e.window in natives
    ensures e.window !in world ==> r == world
    ensures e.window in world ==>
      r == world[e.window := Managed(world[e.window].window,
                   ApplyWindowToState(world[e.window].window, world[e.window].state, natives[e.window]))]
  {
    if e.window in world then
      var m := world[e.window];
      world[e.window := Managed(m.window, ApplyWindowToState(m.window, m.state, natives[e.window]))]
    else world
  }

  /** Every persistent window an event targets has a native window. */
  ghost predicate EventsResolvable(world: World, natives: Natives, events: seq<WindowEvent>) {
    forall i :: 0 <= i < |events| && events[i].window in world ==> events[i].window in natives
  }

  /** How a capture may evolve one window: the window is never touched, and
      the record is either left alone or written (more writes), in which case
      it has a concrete resolution, is saved, and has its echo pending. */
  predicate Captures(before: Managed, after: Managed) {
    && after.window == before.window
    && after.state.writes >= before.state.writes
    && (after.state.writes == before.state.writes ==> after == before)
    && (after.state.writes > before.state.writes ==>
          !after.state.value.sync && after.state.value.resolution.Some? && Saved(after.state))
  }

  lemma CapturesTransitive(a: Managed, b: Managed, c: Managed)
    requires Captures(a, b) && Captures(b, c)
    ensures Captures(a, c)
  {
  }

  /** One event evolves every window as a capture may. */
  lemma CaptureEventCaptures(world: World, natives: Natives, e: WindowEvent)
    requires e.window in world ==> e.window in natives
    ensures var r := CaptureEvent(world, natives, e);
      r.Keys == world.Keys && forall id :: id in world ==> Captures(world[id], r[id])
  {
  }

  /** Handles a stream of window events in order. */
  function OnWindowEvents(world: World, natives: Natives, events: seq<WindowEvent>): (r: World)
    requires EventsResolvable(world, natives, events)
    ensures r.Keys == world.Keys
    ensures forall id :: id in world ==> Captures(world[id], r[id])
    ensures forall id :: id in world && (forall i :: 0 <= i < |events| ==> events[i].window != id) ==> r[id] == world[id]
    decreases |events|
  {
    if |events| == 0 then world
    else
      var next := CaptureEvent(world, natives, events[0]);
      CaptureEventCaptures(world, natives, events[0]);
      assert EventsResolvable(next, natives, events[1..]) by {
        forall i | 0 <= i < |events[1..]| && events[1..][i].window in next
          ensures events[1..][i].window in natives
        {
          assert events[1..][i] == events[i + 1];
        }
      }
      var r := OnWindowEvents(next, natives, events[1..]);
      forall id | id in world
        ensures Captures(world[id], r[id])
      {
        CapturesTransitive(world[id], next[id], r[id]);
      }
      forall id | id in world && (forall i :: 0 <= i < |events| ==> events[i].window != id)
        ensures r[id] == world[id]
      {
        assert events[0].window != id;
        forall i | 0 <= i < |events[1..]|
          ensures events[1..][i].window != id
        {
          assert events[1..][i] == events[i + 1];
        }
      }
      r
  }

  /** A capture keeps every window consistent and showable. */
  lemma CapturesPreserve(before: Managed, after: Managed)
    requires Captures(before, after)
    ensures Consistent(before) ==> Consistent(after)
    ensures Showable(before) ==> Showable(after)
  {
  }

  // ------------------------------------------------------------ state changed

  /** Handles a change notification for one window's record: an echo of a
      capture is absorbed by re-arming `sync`; any other change is persisted
      and shown on the window. */
  function StateChangedWindow(m: Managed): (r: Managed)
    requires Showable(m)
    ensures !m.state.value.sync ==>
      && r.window == m.window
      && r.state == m.state.(value := m.state.value.(sync := true))
    ensures m.state.value.sync ==>
      && r.state == Persist(m.state)
      && r.window == ApplyStateToWindow(m.window, m.state.value, None)
    ensures r.state.value.sync
    ensures Durable(r.state.value) == Durable(m.state.value)
  {
    if !m.state.value.sync then
      Managed(m.window, m.state.(value := m.state.value.(sync := true)))
    else
      Managed(ApplyStateToWindow(m.window, m.state.value, None), Persist(m.state))
  }

  /** Absorbing an echo loses nothing: when the record was consistent, what
      durable storage holds afterwards is the record's durable part. */
  lemma {:induction false} AbsorbedEchoIsSaved(m: Managed)
    requires Consistent(m) && Showable(m)
    ensures Saved(StateChangedWindow(m).state)
    ensures StateChangedWindow(m).state.value.sync
  {
    if !m.state.value.sync {
      assert Saved(m.state);
    }
  }

  /** The state-changed system over every window whose record changed. */
  function OnStateChanged(world: World, changed: set<WindowId>): (r: World)
    requires forall id :: id in world && id in changed ==> Showable(world[id])
    ensures r.Keys == world.Keys
    ensures forall id :: id in world && id !in changed ==> r[id] == world[id]
    ensures forall id :: id in world && id in changed ==> r[id].state.value.sync && Saved(r[id].state) == (world[id].state.value.sync || Saved(world[id].state))
    ensures forall id :: id in world && Consistent(world[id]) ==> Consistent(r[id])
  {
    map id | id in world :: if id in changed then StateChangedWindow(world[id]) else world[id]
  }

  // -------------------------------------------------------------- edits

  /** A programmatic change made by application code between capture and
      propagation: it replaces the record's durable fields, keeps `sync`
      (which application code cannot reach) and writes nothing. */
  function Edit(m: Managed, v: WindowState): (r: Managed)
    ensures Durable(r.state.value) == Durable(v)
    ensures r.state.value.sync == m.state.value.sync
    ensures r.window == m.window && r.state.stored == m.state.stored && r.state.writes == m.state.writes
  {
    Managed(m.window, m.state.(value := v.(sync := m.state.value.sync)))
  }

  /** Applies the edits of one frame, at most one per window. */
  function ApplyEdits(world: World, edits: map<WindowId, WindowState>): World {
    map id | id in world :: if id in edits then Edit(world[id], edits[id]) else world[id]
  }

  // -------------------------------------------------------------------- frame

  /** One frame: window events are captured first, application code then
      edits records, and changed records are propagated last. */
  function Frame(world: World, natives: Natives, events: seq<WindowEvent>,
                 edits: map<WindowId, WindowState>, changed: set<WindowId>): (r: World)
    requires EventsResolvable(world, natives, events)
    requires forall id :: id in world && id in changed ==>
      Showable(ApplyEdits(OnWindowEvents(world, natives, events), edits)[id])
    ensures r.Keys == world.Keys
    ensures forall id ::
      (&& id in world && Consistent(world[id])
       && (id in edits ==> OnWindowEvents(world, natives, events)[id].state.value.sync))
      ==> Consistent(r[id])
    ensures forall id :: id in world && id in changed ==> r[id].state.value.sync
  {
    var captured := OnWindowEvents(world, natives, events);
    forall id | id in world
      ensures Consistent(world[id]) ==> Consistent(captured[id])
    {
      CapturesPreserve(world[id], captured[id]);
    }
    OnStateChanged(ApplyEdits(captured, edits), changed)
  }

  /** No feedback loop: a window whose record a capture wrote in this frame,
      and that application code left alone, keeps its window untouched
      through the frame's propagation step, and the captured record is
      written exactly once and ends re-armed. */
  lemma {:induction false} NoFeedbackLoop(world: World, natives: Natives, events: seq<WindowEvent>,
                                         edits: map<WindowId, WindowState>, changed: set<WindowId>, id: WindowId)
    requires EventsResolvable(world, natives, events)
    requires forall k :: k in world && k in changed ==>
      Showable(ApplyEdits(OnWindowEvents(world, natives, events), edits)[k])
    requires id in world && id !in edits
    requires OnWindowEvents(world, natives, events)[id].state.writes > world[id].state.writes
    ensures var captured := OnWindowEvents(world, natives, events)[id];
      var after := Frame(world, natives, events, edits, changed)[id];
      && after.window == world[id].window
      && after.state.writes == captured.state.writes
      && Durable(after.state.value) == Durable(captured.state.value)
      && Saved(after.state)
      && (id in changed ==> after.state.value.sync)
  {
    var captured := OnWindowEvents(world, natives, events);
    assert !captured[id].state.value.sync;
    var edited := ApplyEdits(captured, edits);
    assert edited[id] == captured[id];
    if id in changed {
      assert StateChangedWindow(edited[id]).window == captured[id].window;
    }
  }

  /** What the protocol guarantees for application code: an edit made in a
      frame whose capture left the record armed is persisted and shown. */
  lemma {:induction false} EditWhileArmedIsPropagated(world: World, natives: Natives, events: seq<WindowEvent>,
                                                     edits: map<WindowId, WindowState>, changed: set<WindowId>, id: WindowId)
    requires EventsResolvable(world, natives, events)
    requires forall k :: k in world && k in changed ==>
      Showable(ApplyEdits(OnWindowEvents(world, natives, events), edits)[k])
    requires id in world && id in edits && id in changed
    requires OnWindowEvents(world, natives, events)[id].state.value.sync
    ensures var edited := Edit(OnWindowEvents(world, natives, events)[id], edits[id]);
      var after := Frame(world, natives, events, edits, changed)[id];
      && Durable(after.state.stored) == Durable(edits[id])
      && Durable(after.state.value) == Durable(edits[id])
      && after.state.writes == OnWindowEvents(world, natives, events)[id].state.writes + 1
      && after.window == ApplyStateToWindow(world[id].window, edited.state.value, None)
  {
    var captured := OnWindowEvents(world, natives, events);
    var edited := ApplyEdits(captured, edits);
    assert edited[id] == Edit(captured[id], edits[id]);
    assert Showable(edited[id]);
  }

  /** The source's handler drops an edit made in a frame whose capture wrote
      the record: the merged change notification is absorbed as an echo, so
      the edit is neither persisted nor shown, and storage keeps the captured
      record. */
  lemma {:induction false} EditDuringEchoIsDropped(world: World, natives: Natives, events: seq<WindowEvent>,
                                                  edits: map<WindowId, WindowState>, changed: set<WindowId>, id: WindowId)
    requires EventsResolvable(world, natives, events)
    requires forall k :: k in world && k in changed ==>
      Showable(ApplyEdits(OnWindowEvents(world, natives, events), edits)[k])
    requires id in world && id in edits && id in changed
    requires OnWindowEvents(world, natives, events)[id].state.writes > world[id].state.writes
    requires Durable(edits[id]) != Durable(OnWindowEvents(world, natives, events)[id].state.value)
    ensures var after := Frame(world, natives, events, edits, changed)[id];
      && after.window == world[id].window
      && after.state.writes == OnWindowEvents(world, natives, events)[id].state.writes
      && Durable(after.state.stored) == Durable(OnWindowEvents(world, natives, events)[id].state.value)
      && Durable(after.state.value) == Durable(edits[id])
      && !Saved(after.state)
  {
    var captured := OnWindowEvents(world, natives, events);
    assert !captured[id].state.value.sync && Saved(captured[id].state);
    var edited := ApplyEdits(captured, edits);
    assert edited[id] == Edit(captured[id], edits[id]);
  }

  /** A frame with one window whose move a capture writes while application
      code switches it to fullscreen: the switch is dropped. */
  lemma DroppedEditExample(w: Window, native: NativeWindow)
    requires native.outerPosition == Some((10, 10)) && native.innerSize == (800, 600)
    requires w.mode == Windowed
    ensures var s := WindowedState(800, 600);
      var world := map[0 := Managed(w, Persistent(s, s, 0))];
      var edit := FullscreenState().(resolution := Some((800, 600)));
      var after := Frame(world, map[0 := native], [Moved(0)], map[0 := edit], {0})[0];
      after.window == w && after.state.value.mode == Fullscreen && after.state.stored.mode == Windowed
  {
    var s := WindowedState(800, 600);
    var world := map[0 := Managed(w, Persistent(s, s, 0))];
    var natives := map[0 := native];
    var captured := OnWindowEvents(world, natives, [Moved(0)]);
    assert captured[0].state.value.position == Some((10, 10));
    assert captured[0].state.writes == 1;
    EditDuringEchoIsDropped(world, natives, [Moved(0)], map[0 := FullscreenState().(resolution := Some((800, 600)))], {0}, 0);
  }

  // ----------------------------------------------------- corrected handler

  /** The record can be shown whenever the corrected handler shows it. */
  predicate ShowableCorrected(m: Managed) {
    m.state.value.sync || !Saved(m.state) ==> m.state.value.resolution.Some?
  }

  /** The state-changed handler as evidently intended: only an echo whose
      record is still what storage holds is absorbed; any other change,
      including an edit that arrived during the echo, is persisted and shown. */
  function StateChangedWindowCorrected(m: Managed): (r: Managed)
    requires ShowableCorrected(m)
    ensures !m.state.value.sync && Saved(m.state) ==>
      && r.window == m.window
      && r.state == m.state.(value := m.state.value.(sync := true))
    ensures m.state.value.sync || !Saved(m.state) ==>
      && r.state.writes == m.state.writes + 1
      && Durable(r.state.stored) == Durable(m.state.value)
      && r.window == ApplyStateToWindow(m.window, m.state.value, None)
    ensures r.state.value.sync && Saved(r.state)
    ensures Durable(r.state.value) == Durable(m.state.value)
  {
    var armed := m.state.(value := m.state.value.(sync := true));
    if !m.state.value.sync && Saved(m.state) then Managed(m.window, armed)
    else Managed(ApplyStateToWindow(m.window, m.state.value, None), Persist(armed))
  }

  /** One frame with the corrected handler. */
  function CorrectedFrame(world: World, natives: Natives, events: seq<WindowEvent>,
                          edits: map<WindowId, WindowState>, changed: set<WindowId>): (r: World)
    requires EventsResolvable(world, natives, events)
    requires forall id :: id in world && id in changed ==>
      ShowableCorrected(ApplyEdits(OnWindowEvents(world, natives, events), edits)[id])
    ensures r.Keys == world.Keys
    ensures forall id :: id in world && id in changed ==> r[id].state.value.sync && Saved(r[id].state)
  {
    var edited := ApplyEdits(OnWindowEvents(world, natives, events), edits);
    map id | id in world :: if id in changed then StateChangedWindowCorrected(edited[id]) else edited[id]
  }

  /** With the corrected handler no edit is lost and the feedback loop stays
      closed: a notified edit that differs from storage is persisted and
      shown, while a capture-written record nobody edited is not shown again. */
  lemma {:induction false} CorrectedFramePropagatesEdits(world: World, natives: Natives, events: seq<WindowEvent>,
                                                        edits: map<WindowId, WindowState>, changed: set<WindowId>, id: WindowId)
    requires EventsResolvable(world, natives, events)
    requires forall k :: k in world && k in changed ==>
      ShowableCorrected(ApplyEdits(OnWindowEvents(world, natives, events), edits)[k])
    requires id in world && id in changed
    ensures var captured := OnWindowEvents(world, natives, events)[id];
      var after := CorrectedFrame(world, natives, events, edits, changed)[id];
      && (id in edits && Durable(edits[id]) != Durable(captured.state.stored) ==>
            && Durable(after.state.stored) == Durable(edits[id])
            && after.window == ApplyStateToWindow(world[id].window, Edit(captured, edits[id]).state.value, None))
      && (id !in edits && captured.state.writes > world[id].state.writes ==>
            after.window == world[id].window && after.state.writes == captured.state.writes)
  {
    var captured := OnWindowEvents(world, natives, events);
    var edited := ApplyEdits(captured, edits);
    if id in edits {
      assert edited[id] == Edit(captured[id], edits[id]);
    } else {
      assert edited[id] == captured[id];
    }
  }
}
