# Tap and beat analysis scripts: verified model of their sequential logic

The repository holds experiment scripts for a sensorimotor synchronisation
study. Participants tap along with a beat, and a two-channel WAV file records
the beats and the taps. Most of the code reads audio, loads Praat TextGrids,
plots, or calls `scipy.signal.find_peaks`. This project models the parts
that are plain sequential logic:

- `detect_fast_increases` (TP2/script.py): takes the first difference of a
  signal and selects the indices where it rises above an increase threshold
  ("starts") or falls below a decrease threshold ("ends"). It then emits one
  pattern for each start that has an end after it. Module `FastIncreases`,
  file `fast_increases.dfy`.
- `extractInfosFromTier` (TP2/script.py, repeated unchanged in
  TP2/final_script.py): splits the entries of a TextGrid interval tier into
  three parallel lists of starts, ends and labels. Module `TextGridTier`,
  file `tier.dfy`.
- The start/duration validation at the top of `plot_taps_with_beats` (both
  files): checks the requested plot window against the length of the beat
  channel. Module `PlotWindow`, file `plot_window.dfy`.
- The constants `SUBJECT_GROUPS`, `CONDITIONS` and `DATAFILE_HEADER`
  (TP2/final_script.py). The header is modelled as its column names joined
  by tabs. A splitting function, the inverse partner of that join, shows
  that the column names can be recovered from the header line. None of the four
  scripts (TP2/script.py, TP2/final_script.py, TP1/script.py, script.py)
  splits a data-file line. Module `Datafile`, file
  `datafile.dfy`.
- `Wrappers` (`wrappers.dfy`) holds the `Option` type used for Python's
  `None` default.

Loops that build lists by appending are methods with loop invariants:
`FastIncreases.CollectPatterns` and `TextGridTier.ExtractInfosFromTier`.
`PlotWindow.ClampWindow` is a method that reassigns `start` and `duration`
step by step, as the source does. Each method is proved equal to a specification
function (`Patterns`, `Split`, `Fitted`). The lemmas state what those
functions mean, each beside an independent partner: `Integrate` undoes
`Diff`, `Zip` undoes `Split`, `SplitFields` undoes `Join`, and `Fitted` is
idempotent. Signal samples, thresholds and times are exact `real`s.

The two copies of `extractInfosFromTier` and of the plot-window validation
are identical. Each is modelled once, and the table cites both copies.

## Model

| member | source | states |
|---|---|---|
| `FastIncreases.Diff` | TP2/script.py:76 | The derivative has one element fewer than the signal (none for an empty signal), and element i is `signal[i+1] - signal[i]`. |
| `FastIncreases.Integrate` | TP2/script.py:76 | A running sum starting from a given first sample has one more element than the differences and starts with that sample. This is the inverse used by `IntegrateDiff`. |
| `FastIncreases.IntegrateDiff` | TP2/script.py:76 | The derivative loses only the first sample: summing it up from `signal[0]` gives the signal back. |
| `FastIncreases.Where` | TP2/script.py:79-81 | `np.where(derivative > t)[0]` and `np.where(derivative < t)[0]` are strictly ascending indices into the derivative. An index is listed exactly when its sample passes the strict comparison. |
| `FastIncreases.After` | TP2/script.py:88 | `end_indices[end_indices > start]` holds exactly the end indices greater than `start`. |
| `FastIncreases.Patterns` | TP2/script.py:85-91 | The loop emits at most one pattern per start index. |
| `FastIncreases.PatternsSnoc` | TP2/script.py:86-91 | One more start adds `(start, start)` when some end index follows it, and adds nothing otherwise. |
| `FastIncreases.PatternsMembership` | TP2/script.py:86-91 | Both components of every pattern are equal. `(x, x)` is emitted if and only if x is a start index and some end index is strictly greater than x. |
| `FastIncreases.AllStartsEmit` | TP2/script.py:86-91 | When every start has a later end, the patterns are exactly `(s, s)` for each start s, in order. |
| `FastIncreases.PatternsArePrefix` | TP2/script.py:79-91 | With ascending start indices, the k-th pattern is `(starts[k], starts[k])`. So the emitted starts are a prefix of the start indices: if a start emits, every smaller start emits too. |
| `FastIncreases.PatternsMeaning` | TP2/script.py:76-91 | In terms of the derivative: every pattern has equal components. `(i, i)` is emitted if and only if `derivative[i] > up` and some later `derivative[j] < down`. Patterns are strictly increasing, and there are at most `len(signal) - 1` of them. |
| `FastIncreases.CollectPatterns` | TP2/script.py:85-91 | The `for start in start_indices` loop appends `(start, start)` whenever the filtered ends are non-empty, and so computes `Patterns(starts, ends)`. |
| `FastIncreases.DetectFastIncreases` | TP2/script.py:67-93 | Returns the derivative `Diff(signal)` and the patterns. Each pattern is `(i, i)`. A pattern exists exactly at the indices of a rise above the increase threshold that some fall below the decrease threshold follows. Patterns come in strictly increasing order, and there are no more of them than derivative samples. |
| `FastIncreases.FirstAfterIsLeast` | TP2/script.py:88-90 | With ascending end indices, `possible_ends[0]` is the smallest end index after the start. |
| `FastIncreases.Regions` | TP2/script.py:88-91 | Corrected loop (see Findings): every region `(start, end)` has `start < end`, and `end` is an end index. Completeness is `RegionsComplete`. |
| `FastIncreases.RegionsMatchPatterns` | TP2/script.py:86-91 | The corrected loop emits as many regions as the loop as written emits patterns, with the same starts in the same order. The code as written is the corrected loop with each end replaced by its start. |
| `FastIncreases.RegionsComplete` | TP2/script.py:86-91 | Every start index that has a later end index gets a region starting there. With `RegionsStartsAreEmitted`, a region starts exactly at such starts. |
| `FastIncreases.RegionsStartsAreEmitted` | TP2/script.py:86-91 | Each corrected region starts at a start index that has a later end. Its second component is `possible_ends[0]` for that start. |
| `FastIncreases.RegionsSpanToFirstEnd` | TP2/script.py:88-91 | Each corrected region runs from a rise above the increase threshold to the first later index where the derivative falls below the decrease threshold. No index in between falls below it. |
| `FastIncreases.PatternIsEmptySpan` | TP2/script.py:90-91 | On the signal `[0.0, 1.0, 0.0]` with the default thresholds 0.5 and -0.5, the starts are `[0]` and the ends `[1]`. The code as written emits `[(0, 0)]`, and the corrected loop emits `[(0, 1)]`. The helper lemmas `ExampleStartsAndEnds`, `ExampleWhere` and `ExamplePatterns` prove the three steps; the thresholds are the constants `DefaultThresholdIncrease` and `DefaultThresholdDecrease` (TP2/script.py:67). |
| `TextGridTier.Split` | TP2/final_script.py:46-55 | The three columns are equally long, and as long as the tier. |
| `TextGridTier.SplitAt` | TP2/final_script.py:51-54 | The i-th element of `xmi`, `xma` and `lab` is the start, end and label of the i-th entry. |
| `TextGridTier.Zip` | TP2/script.py:40-43 | Zipping three parallel lists gives one entry per position. |
| `TextGridTier.ZipSplit` | TP2/script.py:40-43 | Splitting a tier loses nothing: zipping its columns gives the tier back. |
| `TextGridTier.SplitZip` | TP2/final_script.py:51-54 | Three parallel lists are the columns of the entries they zip into. |
| `TextGridTier.SplitCons` | TP2/script.py:40-43 | A tier with one more entry in front has that entry's start, end and label in front of its columns. |
| `TextGridTier.SplitAppend` | TP2/final_script.py:51-54 | Entry order is kept: the columns of two consecutive runs of entries are the columns of the first run followed by those of the second. |
| `TextGridTier.ExtractInfosFromTier` | TP2/script.py:35-44 | Returns three lists as long as the tier, with `xmi[i]`, `xma[i]` and `lab[i]` taken from the i-th entry. An empty tier gives three empty lists. The lists zip back into the tier. |
| `PlotWindow.BeatsDuration` | TP2/script.py:8 | `len(beats) / sample_rate` seconds, times the sample rate, is the sample count. |
| `PlotWindow.Fitted` | TP2/final_script.py:20-30 | The validated window starts at a non-negative time, before the end of the recording when the recording is not empty. Its duration is non-negative, and it ends no later than the recording. |
| `PlotWindow.ClampWindow` | TP2/script.py:7-18 | `start` is reset to 0 exactly when it is negative or at least `len(beats)/sample_rate`; otherwise it is kept. Afterwards `duration >= 0` and `start + duration <= beats_duration`. A `None` duration becomes `beats_duration - start`. A supplied duration that is non-negative and fits after the start is kept. |
| `PlotWindow.FittedIdempotent` | TP2/final_script.py:22-30 | Validating an already validated window changes nothing. |
| `PlotWindow.DefaultsPlotWhole` | TP2/script.py:7-18 | With the defaults (`start` 0.0, the constant `DefaultStart`, and `duration` `None`), the window is the whole recording: it starts at 0 and lasts `len(beats)/sample_rate`. |
| `PlotWindow.SliceWithinChannel` | TP2/script.py:21-26 | For every request, the sample slice `[int(start*sample_rate), int((start+duration)*sample_rate))` that the plot takes is an ordered pair of indices within `[0, len(beats)]`. |
| `Datafile.CodeTables` | TP2/final_script.py:11-15 | `SUBJECT_GROUPS` maps exactly "PWS" to 1 and "PNS" to 2. `CONDITIONS` maps exactly "Aperiodic" to 1 and "PeriodicAlong" to 2. Neither table gives two labels the same code. These are the constants `SubjectGroups` and `Conditions`. |
| `Datafile.SplitFields` | TP2/final_script.py:17 | Inverse partner of `Join`, the tab joining of the header's columns (none of the four scripts splits a line): splitting always gives at least one field. |
| `Datafile.SplitFieldsSeparatorFree` | TP2/final_script.py:17 | Inverse partner of `Join`: no field produced by the split contains the separator. |
| `Datafile.SplitFieldsSnoc` | TP2/final_script.py:17 | Inverse partner of `Join`: when the text grows by a separator, a new empty field starts. Any other character extends the last field. |
| `Datafile.SplitBeforeWord` | TP2/final_script.py:17 | Inverse partner of `Join`: a separator-free word at the end of the text is added to the last field. |
| `Datafile.SplitBeforeChar` | TP2/final_script.py:17 | One step of `SplitBeforeWord`: a non-separator character stays in the current field. |
| `Datafile.SplitWord` | TP2/final_script.py:17 | Inverse partner of `Join`: a separator-free word is a single field. |
| `Datafile.SplitJoin` | TP2/final_script.py:17 | Splitting on a separator undoes joining with it whenever no field contains the separator. This is what shows the header's columns can be recovered. |
| `Datafile.HeaderFirstColumns` | TP2/final_script.py:17 | The header begins with Sujet, Groupe, Condition and File, joined by tabs. |
| `Datafile.HeaderLayout` | TP2/final_script.py:17 | `DATAFILE_HEADER` is the eight column names Sujet, Groupe, Condition, File, Train, BeatNb, BeatInstant and TapInstant, joined by tabs and ended by a newline. This is the constant `DatafileHeader`. |
| `Datafile.HeaderColumnsRecovered` | TP2/final_script.py:17 | Splitting the header line, without its newline, on tabs gives the eight column names back in order. |

## Left out

- `open_datafile` (TP2/final_script.py:58-67) is file I/O and is not modelled. As written it calls `os.path.file_exists`, which does not exist. The resulting exception always lands in the `except` branch, so the function prints the error and returns `None`.
- The matplotlib calls of `plot_taps_with_beats` and all of `plot_detected_patterns` are drawing only. `SliceWithinChannel` covers the slice bounds that the plot uses.
- `scipy.signal.find_peaks` and the `max(...)` normalisation around it (TP2/script.py:55-60) belong to a library whose peak-selection rules are not part of this model.
- The top-level script code is I/O and driver code and is not modelled: the WAV reading, the TextGrid loading, the slicing of the first trial and the commented-out globbing (TP2/script.py:46-60, 116-129), and the `__main__` block of TP2/final_script.py.
- TP1/script.py and script.py are not modelled. They play and record audio, sleep and write WAV files. The `Signal` enum in TP1/script.py holds no logic.
- The two `print` calls in `detect_fast_increases` are side effects and are not modelled.
- Floating point is modelled as exact `real` arithmetic. The model covers neither IEEE rounding in `np.diff`, in the threshold comparisons or in `start + duration`, nor float64 overflow. `int(...)` on a non-negative time in samples is modelled as `Floor`, which equals truncation there.
- `PlotWindow.ClampWindow`: requires a positive sample rate. With a rate of 0, `len(beats) / sample_rate` raises `ZeroDivisionError` before any validation. WAV sample rates are positive integers. The source's default `start` of 0.0 is the constant `DefaultStart`; the default `duration` of `None` is the `Option` value `None`, which callers pass explicitly.
- `FastIncreases.DetectFastIncreases`: the thresholds are explicit parameters. The source's defaults (0.5 and -0.5) are the constants `DefaultThresholdIncrease` and `DefaultThresholdDecrease`. Indices are unbounded naturals rather than numpy `int64`.
- `TextGridTier.ExtractInfosFromTier`: entries are `Interval` values with a start, an end and a label, so the model only takes interval tiers. An entry of a point tier has two fields, and unpacking it into three names raises `ValueError`; the type rules that case out.
- Beat onset detection with greedy peak suppression, beat-to-tap matching under the periodic and aperiodic policies, and trial windowing are not modelled. None of the four scripts modelled here (TP2/script.py, TP2/final_script.py, TP1/script.py, script.py) implements them beyond the `find_peaks` calls.

## Findings

| source | as written | input that shows it | evidently intended | confidence | as-written member | corrected member |
|---|---|---|---|---|---|---|
| TP2/script.py:90-91 | `detect_fast_increases` finds the first end after each start, stores it in `end` and then appends `(start, start)`, discarding it. Every pattern is an empty span. | signal `[0.0, 1.0, 0.0]` with the default thresholds: derivative `[1.0, -1.0]`, starts `[0]`, ends `[1]`, output `[(0, 0)]` | `(start, end)`: the region from the rise to the first later fall. The docstring speaks of regions, and `plot_detected_patterns` shades `axvspan(start, end)` (TP2/script.py:106-107). | medium, not executed | `FastIncreases.PatternIsEmptySpan` (over `FastIncreases.Patterns`, which `DetectFastIncreases` computes) | `FastIncreases.Regions`, with `FastIncreases.RegionsSpanToFirstEnd`, `FastIncreases.RegionsMatchPatterns` and `FastIncreases.RegionsComplete` |

`DetectFastIncreases` keeps the behaviour as written. `Regions` is the
corrected loop, proved to emit a region for exactly the qualifying starts and
to span from each of them to its first later end.
