/** The persisted window-state record and its constructors. */
module Components {
  import opened Types

  /** How the window occupies its display. */
  datatype WindowMode = Windowed | BorderlessFullscreen | SizedFullscreen | Fullscreen

  /** The record kept in sync with a live window.
      - `monitor`: display name; None means "pick the best display".
      - `resolution`: physical size; None means "use the display's best video mode".
      - `scale`: scale factor; None means "use the display's native scale".
      - `position`: outer position; None means "centred".
      - `autoScaled`: true until the one-shot auto-scale step has captured a real scale.
      - `sync`: false right after the record was written from the window side, so
        the next state-changed notification is recognised as an echo. */
  datatype WindowState = WindowState(
    mode: WindowMode,
    monitor: Option<string>,
    resolution: Option<(U32, U32)>,
    scale: Option<Scale>,
    position: Option<(I32, I32)>,
    autoScaled: bool,
    sync: bool)

  /** A fullscreen state with every placement choice left to the best display. */
  function FullscreenState(): (s: WindowState)
    ensures s.mode == Fullscreen
    ensures s.monitor == None && s.resolution == None && s.position == None
    ensures s.scale == None && s.autoScaled && s.sync
  {
    WindowState(Fullscreen, None, None, None, None, true, true)
  }

  /** A windowed state of the given size, centred on the best display. */
  function WindowedState(width: U32, height: U32): (s: WindowState)
    ensures s.mode == Windowed
    ensures s.resolution == Some((width, height))
    ensures s.monitor == None && s.position == None
    ensures s.scale == None && s.autoScaled && s.sync
  {
    WindowState(Windowed, None, Some((width, height)), None, None, true, true)
  }

  /** Adds an explicit position, which only a windowed state accepts. */
  function PlacedAt(s: WindowState, x: I32, y: I32): (r: WindowState)
    ensures s.mode == Windowed ==> r.position == Some((x, y))
    ensures s.mode != Windowed ==> r == s
    ensures r.mode == s.mode && r.monitor == s.monitor && r.resolution == s.resolution
    ensures r.scale == s.scale && r.autoScaled == s.autoScaled && r.sync == s.sync
  {
    if s.mode == Windowed then s.(position := Some((x, y))) else s
  }

  /** The state used when nothing is stored yet. */
  function DefaultState(): (s: WindowState)
    ensures s == FullscreenState()
  {
    FullscreenState()
  }

  /** A fullscreen state refuses a position: it stays unplaced. */
  lemma FullscreenRefusesPosition(x: I32, y: I32)
    ensures PlacedAt(FullscreenState(), x, y).position == None
    ensures PlacedAt(DefaultState(), x, y) == DefaultState()
  {
  }

  /** Placing twice at the same point is the same as placing once, and the
      last placement of a windowed state wins. */
  lemma PlacedAtLastWins(s: WindowState, x1: I32, y1: I32, x2: I32, y2: I32)
    ensures PlacedAt(PlacedAt(s, x1, y1), x2, y2) == PlacedAt(s, x2, y2)
  {
  }
}
