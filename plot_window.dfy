/**
 * Model of the prefix of `plot_taps_with_beats` (TP2/script.py, repeated in
 * TP2/final_script.py) that validates the requested start time and duration
 * against the length of the beat channel before the plotted slice is taken.
 * Times are seconds, modelled as exact reals.
 */
module PlotWindow {
  import opened Wrappers

  /** Default `start` of `plot_taps_with_beats`; the default `duration` is
      `None`. */
  const DefaultStart: real := 0.0

  /** A plotted window of the recording: where it starts and how long it is. */
  datatype Window = Window(start: real, duration: real)

  /** Length of a channel of `sampleCount` samples, in seconds. */
  function BeatsDuration(sampleCount: nat, sampleRate: nat): (seconds: real)
    requires sampleRate > 0
    ensures seconds * sampleRate as real == sampleCount as real
  {
    sampleCount as real / sampleRate as real
  }

  /** The window the validation settles on, stated by what it means: a start
      inside the recording is kept (any other becomes 0), and a requested
      duration is kept when it is non-negative and fits after the start;
      otherwise the window runs to the end of the recording. */
  function Fitted(beatsDuration: real, duration: Option<real>, start: real): (w: Window)
    requires beatsDuration >= 0.0
    ensures 0.0 <= w.start && (beatsDuration > 0.0 ==> w.start < beatsDuration)
    ensures 0.0 <= w.duration && w.start + w.duration <= beatsDuration
  {
    var s := if 0.0 <= start < beatsDuration then start else 0.0;
    var fits := duration.Some? && 0.0 <= duration.value && s + duration.value <= beatsDuration;
    Window(s, if fits then duration.value else beatsDuration - s)
  }

  /** The start/duration validation of `plot_taps_with_beats`, step by step as
      the source performs it. */
  method ClampWindow(beats: seq<real>, sampleRate: nat, duration: Option<real>, start: real)
    returns (windowStart: real, windowDuration: real)
    requires sampleRate > 0
    ensures Window(windowStart, windowDuration) == Fitted(BeatsDuration(|beats|, sampleRate), duration, start)
    ensures var total := BeatsDuration(|beats|, sampleRate);
      (windowStart == 0.0 || windowStart == start) &&
      (start < 0.0 || start >= total ==> windowStart == 0.0) &&
      (0.0 <= start < total ==> windowStart == start)
    ensures var total := BeatsDuration(|beats|, sampleRate);
      0.0 <= windowDuration && windowStart + windowDuration <= total &&
      (duration.None? ==> windowDuration == total - windowStart) &&
      (duration.Some? && 0.0 <= duration.value && windowStart + duration.value <= total ==> windowDuration == duration.value)
  {
    var beatsDuration := |beats| as real / sampleRate as real;
    windowStart := start;
    if windowStart < 0.0 || windowStart >= beatsDuration {
      windowStart := 0.0;
    }
    if duration.None? || duration.value > beatsDuration || duration.value < 0.0 {
      windowDuration := if windowStart > 0.0 then beatsDuration - windowStart else beatsDuration;
    } else {
      windowDuration := duration.value;
    }
    if windowStart + windowDuration > beatsDuration {
      windowDuration := beatsDuration - windowStart;
    }
  }

  /** Validation is idempotent: validating a validated window changes nothing. */
  lemma FittedIdempotent(beatsDuration: real, duration: Option<real>, start: real)
    requires beatsDuration >= 0.0
    ensures var w := Fitted(beatsDuration, duration, start);
      Fitted(beatsDuration, Some(w.duration), w.start) == w
  {
  }

  /** A call with neither `start` nor `duration` plots the whole recording. */
  lemma DefaultsPlotWhole(beatsDuration: real)
    requires beatsDuration >= 0.0
    ensures Fitted(beatsDuration, None, DefaultStart) == Window(0.0, beatsDuration)
  {
  }

  /** The sample slice `[int(start * sample_rate), int((start + duration) * sample_rate))`
      that the plot then takes lies inside the channel, for every request. */
  lemma SliceWithinChannel(sampleCount: nat, sampleRate: nat, duration: Option<real>, start: real)
    requires sampleRate > 0
    ensures var w := Fitted(BeatsDuration(sampleCount, sampleRate), duration, start);
      0 <= (w.start * sampleRate as real).Floor <= ((w.start + w.duration) * sampleRate as real).Floor <= sampleCount
  {
    var rate := sampleRate as real;
    var total := BeatsDuration(sampleCount, sampleRate);
    var w := Fitted(total, duration, start);
    assert (w.start + w.duration) * rate <= total * rate;
  }
}
