/** Abstract descriptors standing in for the windowing runtime: the engine's
    window component, a display, and a native window's live readings. */
module Platform {
  import opened Types
  import opened Components

  /** Which display a centred window is centred on. */
  datatype MonitorSelection = Current | Primary | Index(index: nat)

  /** Where the engine places a window. */
  datatype WindowPosition = Automatic | Centered(selection: MonitorSelection) | At(x: I32, y: I32)

  /** Requested window size, with an optional scale factor that overrides the
      one the platform reports. */
  datatype WindowResolution = WindowResolution(width: U32, height: U32, scaleOverride: Option<Scale>)

  /** The engine's window component. `baseScaleFactor` is the scale the
      platform reports for the window's surface. */
  datatype Window = Window(
    mode: WindowMode,
    resolution: WindowResolution,
    position: WindowPosition,
    baseScaleFactor: Scale)

  /** The scale the engine reports for a window: the resolution's override
      when one is set, else the platform's scale. */
  function ScaleFactor(w: Window): Scale {
    w.resolution.scaleOverride.GetOr(w.baseScaleFactor)
  }

  /** A display as enumerated by the platform. `bestVideoMode` is the size of
      its best video mode and `scaleFactor` its native scale. */
  datatype Monitor = Monitor(
    name: Option<string>,
    width: U32,
    height: U32,
    refreshMillihertz: Option<U32>,
    scaleFactor: Scale,
    bestVideoMode: (U32, U32))

  /** The live readings of a native window: the display it is on (if the
      platform can tell), its inner pixel size and its outer position (a
      failed read is None). */
  datatype NativeWindow = NativeWindow(
    currentMonitor: Option<Monitor>,
    innerSize: (U32, U32),
    outerPosition: Option<(I32, I32)>)
}
