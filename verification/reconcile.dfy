/** The two directional transforms between the persisted record and the
    window, and the startup adjustment to a display. */
module Reconcile {
  import opened Types
  import opened Components
  import opened Platform
  import opened Persistence
  import opened Monitors

  /** Where the window should go when the record gives no explicit position. */
  function Placement(s: WindowState, monitorIndex: Option<nat>): WindowPosition {
    match s.position
    case Some(p) => At(p.0, p.1)
    case None =>
      match monitorIndex
      case Some(i) => Centered(Index(i))
      case None => Automatic
  }

  /** Projects the record onto the window. The record must already carry a
      concrete resolution. */
  function ApplyStateToWindow(w: Window, s: WindowState, monitorIndex: Option<nat>): (r: Window)
    requires s.resolution.Some?
    ensures r.mode == s.mode
    ensures (r.resolution.width, r.resolution.height) == s.resolution.value
    ensures r.resolution.scaleOverride == s.scale
    ensures s.position.Some? ==> r.position == At(s.position.value.0, s.position.value.1)
    ensures s.position.None? && monitorIndex.Some? ==> r.position == Centered(Index(monitorIndex.value))
    ensures s.position.None? && monitorIndex.None? ==> r.position == Automatic
    ensures r.baseScaleFactor == w.baseScaleFactor
    ensures ScaleFactor(r) == s.scale.GetOr(w.baseScaleFactor)
  {
    var res := WindowResolution(s.resolution.value.0, s.resolution.value.1, s.scale);
    w.(mode := s.mode, resolution := res, position := Placement(s, monitorIndex))
  }

  /** The projection reads nothing from the window but the platform's scale,
      so applying it again changes nothing. */
  lemma ApplyStateToWindowIdempotent(w: Window, s: WindowState, monitorIndex: Option<nat>)
    requires s.resolution.Some?
    ensures ApplyStateToWindow(ApplyStateToWindow(w, s, monitorIndex), s, monitorIndex)
         == ApplyStateToWindow(w, s, monitorIndex)
  {
  }

  /** The position captured from a window: the live outer position, else the
      window's explicit position, else the position already recorded. */
  function CapturedPosition(w: Window, s: WindowState, native: NativeWindow): (r: Option<(I32, I32)>)
    ensures native.outerPosition.Some? ==> r == native.outerPosition
    ensures native.outerPosition.None? && w.position.At? ==> r == Some((w.position.x, w.position.y))
    ensures native.outerPosition.None? && !w.position.At? ==> r == s.position
    ensures s.position.Some? ==> r.Some?
  {
    match native.outerPosition
    case Some(p) => Some(p)
    case None =>
      match w.position
      case At(x, y) => Some((x, y))
      case _ => s.position
  }

  /** The record the window's live readings describe. */
  function Captured(w: Window, s: WindowState, native: NativeWindow): WindowState {
    var monitor := match native.currentMonitor
      case Some(m) => m.name
      case None => None;
    WindowState(
      w.mode, monitor, Some(native.innerSize), Some(ScaleFactor(w)),
      CapturedPosition(w, s, native), s.autoScaled, s.sync)
  }

  /** Captures the window's live readings into the record; writes, and marks
      the write as self-inflicted, only when the record changes. */
  function ApplyWindowToState(w: Window, p: Persistent, native: NativeWindow): (r: Persistent)
    ensures r.value.mode == w.mode
    ensures r.value.resolution == Some(native.innerSize)
    ensures r.value.scale == Some(ScaleFactor(w))
    ensures r.value.monitor == (if native.currentMonitor.Some? then native.currentMonitor.value.name else None)
    ensures native.outerPosition.Some? ==> r.value.position == native.outerPosition
    ensures native.outerPosition.None? && w.position.At? ==> r.value.position == Some((w.position.x, w.position.y))
    ensures native.outerPosition.None? && !w.position.At? ==> r.value.position == p.value.position
    ensures p.value.position.Some? ==> r.value.position.Some?
    ensures r.value.autoScaled == p.value.autoScaled
    ensures r == p || (r.writes == p.writes + 1 && !r.value.sync && Saved(r))
    ensures r == p <==> r.value == p.value
  {
    var next := Captured(w, p.value, native);
    if next != p.value then
      var q := Set(p, next);
      q.(value := q.value.(sync := false))
    else p
  }

  /** A capture never leaves an unsaved record with its echo pending. */
  lemma ApplyWindowToStateKeepsSaved(w: Window, p: Persistent, native: NativeWindow)
    requires p.value.sync || Saved(p)
    ensures var r := ApplyWindowToState(w, p, native); r.value.sync || Saved(r)
  {
  }

  /** Round trip: when the live surface reports the size and position the
      record asked for (or no position), capturing gives back the record's
      mode, resolution and position, and a recorded scale is read back from
      the override the projection set. */
  lemma {:induction false} ApplyRoundTrip(w: Window, p: Persistent, monitorIndex: Option<nat>, native: NativeWindow)
    requires p.value.resolution.Some?
    requires native.innerSize == p.value.resolution.value
    requires native.outerPosition.None? || native.outerPosition == p.value.position
    ensures var r := ApplyWindowToState(ApplyStateToWindow(w, p.value, monitorIndex), p, native);
      && r.value.mode == p.value.mode
      && r.value.resolution == p.value.resolution
      && r.value.position == p.value.position
      && (p.value.scale.Some? ==> r.value.scale == p.value.scale)
  {
    var w' := ApplyStateToWindow(w, p.value, monitorIndex);
    if native.outerPosition.None? {
      match p.value.position
      case Some(q) => assert w'.position == At(q.0, q.1);
      case None => assert !w'.position.At?;
    }
  }

  /** A windowed state of any size, shown and then reported back at its size
      and some position, captures as windowed at that size and position, and
      the write marks its echo. */
  lemma WindowedRoundTrip(w: Window, width: U32, height: U32, x: I32, y: I32, index: Option<nat>, native: NativeWindow)
    requires native.innerSize == (width, height) && native.outerPosition == Some((x, y))
    ensures var s := WindowedState(width, height);
      var r := ApplyWindowToState(ApplyStateToWindow(w, s, index), Persistent(s, s, 0), native);
      && r.value.mode == Windowed && r.value.resolution == Some((width, height))
      && r.value.position == Some((x, y))
      && r.writes == 1 && !r.value.sync
  {
  }

  /** The 1280x720 example: shown, then reported back at (10, 10). */
  lemma WindowedRoundTripExample(w: Window, native: NativeWindow)
    requires native.innerSize == (1280, 720) && native.outerPosition == Some((10, 10))
    ensures var s := WindowedState(1280, 720);
      var r := ApplyWindowToState(ApplyStateToWindow(w, s, None), Persistent(s, s, 0), native);
      r.value.mode == Windowed && r.value.resolution == Some((1280, 720)) && r.value.position == Some((10, 10))
  {
    WindowedRoundTrip(w, 1280, 720, 10, 10, None, native);
  }

  /** When the live surface echoes every field of the record, the capture
      writes nothing: showing a record and reading it back is a fixed point. */
  lemma EchoedCaptureWritesNothing(w: Window, p: Persistent, monitorIndex: Option<nat>, native: NativeWindow)
    requires p.value.resolution.Some?
    requires native.innerSize == p.value.resolution.value
    requires native.outerPosition == p.value.position
    requires p.value.scale.Some?
    requires native.currentMonitor.Some? && native.currentMonitor.value.name == p.value.monitor
    ensures ApplyWindowToState(ApplyStateToWindow(w, p.value, monitorIndex), p, native) == p
  {
    ApplyRoundTrip(w, p, monitorIndex, native);
  }

  /** The display the adjustment targets: the recorded one when the
      catalogue knows its name, else the best display. */
  function TargetMonitor(catalog: Catalog, best: Entry, s: WindowState): Entry {
    if s.monitor.Some? && s.monitor.value in catalog then
      Entry(s.monitor.value, catalog[s.monitor.value].0, catalog[s.monitor.value].1)
    else best
  }

  /** The window and record after an adjustment. */
  datatype Adjusted = Adjusted(window: Window, state: Persistent)

  /** Resolves the target display, fills in every placeholder of the record
      from it, writes the record only if that changed it, and shows it on the
      window centred on the target display unless it has a position. */
  function AdjustToMonitor(catalog: Catalog, best: Entry, w: Window, p: Persistent): (r: Adjusted)
    ensures var s := p.value;
      var known := s.monitor.Some? && s.monitor.value in catalog;
      var name := if known then s.monitor.value else best.name;
      var target := if known then catalog[s.monitor.value].1 else best.handle;
      var index := if known then catalog[s.monitor.value].0 else best.index;
      && r.state.value.monitor == Some(name)
      && r.state.value.resolution == Some(s.resolution.GetOr(target.bestVideoMode))
      && r.state.value.scale == Some(s.scale.GetOr(target.scaleFactor))
      && r.window.resolution.scaleOverride == r.state.value.scale
      && (s.position.None? ==> r.window.position == Centered(Index(index)))
    ensures r.state.value.mode == p.value.mode && r.state.value.position == p.value.position
    ensures r.state.value.autoScaled == p.value.autoScaled && r.state.value.sync == p.value.sync
    ensures r.state == p || r.state == Set(p, r.state.value)
    ensures r.state == p <==> r.state.value == p.value
    ensures r.window.mode == p.value.mode
    ensures p.value.position.Some? ==> r.window.position == At(p.value.position.value.0, p.value.position.value.1)
    ensures (r.window.resolution.width, r.window.resolution.height) == r.state.value.resolution.value
  {
    var s := p.value;
    var target := TargetMonitor(catalog, best, s);
    var next := WindowState(
      s.mode,
      Some(target.name),
      Some(s.resolution.GetOr(target.handle.bestVideoMode)),
      Some(s.scale.GetOr(target.handle.scaleFactor)),
      s.position, s.autoScaled, s.sync);
    var q := if next != s then Set(p, next) else p;
    Adjusted(ApplyStateToWindow(w, q.value, Some(target.index)), q)
  }

  /** The best display agrees with the catalogue on its own name. */
  predicate Agrees(catalog: Catalog, best: Entry) {
    best.name in catalog ==> catalog[best.name] == (best.index, best.handle)
  }

  /** Adjusting twice with the same catalogue is adjusting once: the second
      call neither writes nor moves the window. */
  lemma {:induction false} AdjustToMonitorIdempotent(catalog: Catalog, best: Entry, w: Window, p: Persistent)
    requires Agrees(catalog, best)
    ensures var a := AdjustToMonitor(catalog, best, w, p);
      AdjustToMonitor(catalog, best, a.window, a.state) == a
  {
    var a := AdjustToMonitor(catalog, best, w, p);
    var t1 := TargetMonitor(catalog, best, p.value);
    var t2 := TargetMonitor(catalog, best, a.state.value);
    assert t2 == t1;
  }

  /** An adjustment leaves the record saved whenever its echo is pending. */
  lemma AdjustToMonitorKeepsSaved(catalog: Catalog, best: Entry, w: Window, p: Persistent)
    requires p.value.sync || Saved(p)
    ensures var r := AdjustToMonitor(catalog, best, w, p).state; r.value.sync || Saved(r)
  {
  }
}
