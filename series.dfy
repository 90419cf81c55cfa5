/** The data shared by the analysis and the export: a channel's frame-to-sample series and
    the (frame, magnitude) events that the derivative scans report. */
module Series {

  /** One channel's samples, keyed by frame number (a JavaScript `Map` from frame to value). */
  type FrameSeries = map<nat, real>

  /** `series.get(frame) ?? 0`: a frame with no sample reads as 0. */
  function ValueOrZero(series: FrameSeries, frame: nat): (r: real)
    ensures frame in series ==> r == series[frame]
    ensures frame !in series ==> r == 0.0
  {
    if frame in series then series[frame] else 0.0
  }

  /** A `[frame, magnitude]` pair. */
  datatype Event = Event(frame: int, magnitude: real)

  /** The last element of a non-empty sequence. */
  function Last<T>(s: seq<T>): T
    requires |s| > 0
  {
    s[|s| - 1]
  }
}
