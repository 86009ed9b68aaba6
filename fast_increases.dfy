/**
 * Model of `detect_fast_increases` (TP2/script.py): the signal's first
 * difference, the indices where it rises above an increase threshold
 * ("starts") or falls below a decrease threshold ("ends"), and the loop that
 * emits one pattern per start that has an end after it.
 */
module FastIncreases {

  /** Default thresholds of `detect_fast_increases`. */
  const DefaultThresholdIncrease: real := 0.5
  const DefaultThresholdDecrease: real := -0.5

  /** The first difference of a signal, as `np.diff` computes it: one element
      fewer than the signal, and nothing for an empty signal. */
  function Diff(signal: seq<real>): (d: seq<real>)
    ensures |d| == if |signal| == 0 then 0 else |signal| - 1
    ensures forall i :: 0 <= i < |d| ==> d[i] == signal[i + 1] - signal[i]
    decreases |signal|
  {
    if |signal| < 2 then [] else [signal[1] - signal[0]] + Diff(signal[1..])
  }

  /** The running sum of the differences, starting from `first`: the inverse
      of `Diff`. */
  function Integrate(first: real, d: seq<real>): (signal: seq<real>)
    ensures |signal| == |d| + 1 && signal[0] == first
    decreases |d|
  {
    if d == [] then [first] else [first] + Integrate(first + d[0], d[1..])
  }

  /** The derivative loses only the first sample: summing it up from there
      gives the signal back. */
  lemma {:induction false} IntegrateDiff(signal: seq<real>)
    requires signal != []
    ensures Integrate(signal[0], Diff(signal)) == signal
    decreases |signal|
  {
    if |signal| >= 2 {
      IntegrateDiff(signal[1..]);
      assert Diff(signal)[1..] == Diff(signal[1..]);
      assert signal == [signal[0]] + signal[1..];
    }
  }

  /** A strict comparison of a derivative sample against a threshold. */
  datatype Test = Above(bound: real) | Below(bound: real)

  predicate Passes(test: Test, x: real)
  {
    match test
    case Above(b) => x > b
    case Below(b) => x < b
  }

  predicate StrictlyIncreasing(s: seq<nat>)
  {
    forall i, j :: 0 <= i < j < |s| ==> s[i] < s[j]
  }

  /** `np.where(test(d))[0]`: the indices of `d` whose sample passes `test`. */
  function Where(d: seq<real>, test: Test): (r: seq<nat>)
    ensures StrictlyIncreasing(r)
    ensures forall k :: 0 <= k < |r| ==> r[k] < |d|
    ensures forall i: nat :: i in r <==> i < |d| && Passes(test, d[i])
    decreases |d|
  {
    if d == [] then []
    else
      var init := Where(d[..|d| - 1], test);
      if Passes(test, d[|d| - 1]) then init + [|d| - 1] else init
  }

  /** `end_indices[end_indices > start]`: the ends after `start`, in order. */
  function After(ends: seq<nat>, start: nat): (r: seq<nat>)
    ensures forall e: nat :: e in r <==> e in ends && e > start
    decreases |ends|
  {
    if ends == [] then []
    else (if ends[0] > start then [ends[0]] else []) + After(ends[1..], start)
  }

  /** Some end index comes strictly after `start`. */
  predicate HasEndAfter(ends: seq<nat>, start: nat)
  {
    exists e :: e in ends && e > start
  }

  /** What the loop of `detect_fast_increases` appends, start by start: the
      pair `(start, start)` for every start with an end after it. */
  function Patterns(starts: seq<nat>, ends: seq<nat>): (p: seq<(nat, nat)>)
    ensures |p| <= |starts|
    decreases |starts|
  {
    if starts == [] then []
    else
      var start := starts[|starts| - 1];
      Patterns(starts[..|starts| - 1], ends) + (if After(ends, start) != [] then [(start, start)] else [])
  }

  /** One more start adds at most its own pattern. */
  lemma PatternsSnoc(starts: seq<nat>, start: nat, ends: seq<nat>)
    ensures Patterns(starts + [start], ends) ==
      Patterns(starts, ends) + if After(ends, start) != [] then [(start, start)] else []
  {
    assert (starts + [start])[..|starts|] == starts;
  }

  /** A pattern is emitted for derivative index `i` exactly when the
      derivative rises above `up` there and falls below `down` somewhere later. */
  predicate EmitsAt(d: seq<real>, up: real, down: real, i: nat)
  {
    i < |d| && d[i] > up && exists j :: i < j < |d| && d[j] < down
  }

  /** Both components of every pattern are the same start index, and a start
      index is emitted if and only if some end index comes after it. */
  lemma {:induction false} PatternsMembership(starts: seq<nat>, ends: seq<nat>)
    ensures forall k :: 0 <= k < |Patterns(starts, ends)| ==> Patterns(starts, ends)[k].0 == Patterns(starts, ends)[k].1
    ensures forall x: nat :: (x, x) in Patterns(starts, ends) <==> x in starts && HasEndAfter(ends, x)
    decreases |starts|
  {
    if starts != [] {
      var init, start := starts[..|starts| - 1], starts[|starts| - 1];
      PatternsMembership(init, ends);
      assert starts == init + [start];
      forall x: nat
        ensures (x, x) in Patterns(starts, ends) <==> x in starts && HasEndAfter(ends, x)
      {
        assert x in starts <==> x in init || x == start;
        if x == start && HasEndAfter(ends, x) {
          var e :| e in ends && e > x;
          assert e in After(ends, start);
        }
        if x == start && After(ends, start) != [] {
          assert After(ends, start)[0] in After(ends, start);
        }
      }
    }
  }

  /** When every start has an end after it, every start is emitted, in order. */
  lemma {:induction false} AllStartsEmit(starts: seq<nat>, ends: seq<nat>)
    requires forall x :: x in starts ==> HasEndAfter(ends, x)
    ensures |Patterns(starts, ends)| == |starts|
    ensures forall k :: 0 <= k < |starts| ==> Patterns(starts, ends)[k] == (starts[k], starts[k])
    decreases |starts|
  {
    if starts != [] {
      var init, start := starts[..|starts| - 1], starts[|starts| - 1];
      assert starts == init + [start];
      forall x | x in init ensures HasEndAfter(ends, x) {
        assert x in starts;
      }
      AllStartsEmit(init, ends);
      assert start in starts;
      var e :| e in ends && e > start;
      assert e in After(ends, start);
    }
  }

  /** With ascending starts the emitted starts are a prefix of the starts: if a
      start is emitted, every smaller start is emitted before it. */
  lemma {:induction false} PatternsArePrefix(starts: seq<nat>, ends: seq<nat>)
    requires StrictlyIncreasing(starts)
    ensures forall k :: 0 <= k < |Patterns(starts, ends)| ==> Patterns(starts, ends)[k] == (starts[k], starts[k])
    decreases |starts|
  {
    if starts != [] {
      var init, start := starts[..|starts| - 1], starts[|starts| - 1];
      if After(ends, start) != [] {
        var e := After(ends, start)[0];
        assert e in After(ends, start);
        forall x | x in init ensures HasEndAfter(ends, x) {
          assert e in ends && e > x;
        }
        AllStartsEmit(init, ends);
      } else {
        PatternsArePrefix(init, ends);
      }
    }
  }

  /** `detect_fast_increases` without its two `print` calls: returns the
      patterns and the derivative. */
  method DetectFastIncreases(signal: seq<real>, thresholdIncrease: real, thresholdDecrease: real)
    returns (patterns: seq<(nat, nat)>, derivative: seq<real>)
    ensures derivative == Diff(signal)
    ensures patterns == Patterns(Where(derivative, Above(thresholdIncrease)), Where(derivative, Below(thresholdDecrease)))
    ensures forall k :: 0 <= k < |patterns| ==> patterns[k].0 == patterns[k].1
    ensures forall i: nat :: (i, i) in patterns <==> EmitsAt(derivative, thresholdIncrease, thresholdDecrease, i)
    ensures forall k, l :: 0 <= k < l < |patterns| ==> patterns[k].0 < patterns[l].0
    ensures |patterns| <= |derivative|
  {
    derivative := Diff(signal);
    var startIndices := Where(derivative, Above(thresholdIncrease));
    var endIndices := Where(derivative, Below(thresholdDecrease));
    patterns := CollectPatterns(startIndices, endIndices);
    PatternsMeaning(derivative, thresholdIncrease, thresholdDecrease);
  }

  /** The `for start in start_indices` loop of `detect_fast_increases`: for
      each start, the ends after it are selected, and when there is one the
      pair `(start, start)` is appended; the first end itself is not kept. */
  method CollectPatterns(startIndices: seq<nat>, endIndices: seq<nat>) returns (patterns: seq<(nat, nat)>)
    ensures patterns == Patterns(startIndices, endIndices)
  {
    patterns := [];
    for i := 0 to |startIndices|
      invariant patterns == Patterns(startIndices[..i], endIndices)
    {
      var start := startIndices[i];
      var possibleEnds := After(endIndices, start);
      if |possibleEnds| > 0 {
        var end := possibleEnds[0];
        patterns := patterns + [(start, start)];
      }
      assert startIndices[..i + 1] == startIndices[..i] + [start];
      PatternsSnoc(startIndices[..i], start, endIndices);
    }
    assert startIndices[..|startIndices|] == startIndices;
  }

  /** The meaning of the emitted patterns in terms of the derivative: pairs of
      equal indices, emitted exactly at the indices of a fast increase that is
      followed by a fast decrease, in ascending order, at most one per index. */
  lemma PatternsMeaning(d: seq<real>, up: real, down: real)
    ensures var p := Patterns(Where(d, Above(up)), Where(d, Below(down)));
      (forall k :: 0 <= k < |p| ==> p[k].0 == p[k].1) &&
      (forall i: nat :: (i, i) in p <==> EmitsAt(d, up, down, i)) &&
      (forall k, l :: 0 <= k < l < |p| ==> p[k].0 < p[l].0) &&
      |p| <= |d|
  {
    var starts, ends := Where(d, Above(up)), Where(d, Below(down));
    var p := Patterns(starts, ends);
    PatternsMembership(starts, ends);
    PatternsArePrefix(starts, ends);
    forall i: nat
      ensures (i, i) in p <==> EmitsAt(d, up, down, i)
    {
      if EmitsAt(d, up, down, i) {
        var j :| i < j < |d| && d[j] < down;
        assert j in ends;
      }
      if (i, i) in p {
        var e :| e in ends && e > i;
      }
    }
    IndicesBounded(starts, |d|);
  }

  /** An ascending sequence of indices below `n` has at most `n` elements. */
  lemma {:induction false} IndicesBounded(s: seq<nat>, n: nat)
    requires StrictlyIncreasing(s)
    requires forall k :: 0 <= k < |s| ==> s[k] < n
    ensures |s| <= n
    decreases |s|
  {
    if s != [] {
      var init := s[..|s| - 1];
      forall k | 0 <= k < |init| ensures init[k] < s[|s| - 1] { }
      IndicesBounded(init, s[|s| - 1]);
    }
  }

  /** With ascending ends, the first end after `start` is the least one. */
  lemma {:induction false} FirstAfterIsLeast(ends: seq<nat>, start: nat)
    requires StrictlyIncreasing(ends)
    requires After(ends, start) != []
    ensures forall e :: e in ends && e > start ==> After(ends, start)[0] <= e
    decreases |ends|
  {
    if ends[0] <= start {
      assert After(ends, start) == After(ends[1..], start);
      forall e | e in ends && e > start ensures e in ends[1..] { }
      FirstAfterIsLeast(ends[1..], start);
    } else {
      forall e | e in ends ensures ends[0] <= e { }
    }
  }

  /** The regions the loop evidently means to emit: `(start, end)` with `end`
      the first end index after `start`. */
  function Regions(starts: seq<nat>, ends: seq<nat>): (r: seq<(nat, nat)>)
    ensures forall k :: 0 <= k < |r| ==> r[k].0 < r[k].1 && r[k].1 in ends
    decreases |starts|
  {
    if starts == [] then []
    else
      var start := starts[|starts| - 1];
      var possibleEnds := After(ends, start);
      Regions(starts[..|starts| - 1], ends) +
        if possibleEnds != [] then assert possibleEnds[0] in possibleEnds; [(start, possibleEnds[0])] else []
  }

  /** Every corrected region runs from a start at which the derivative rises
      above `up` to the first later index at which it falls below `down`. */
  lemma {:induction false} RegionsSpanToFirstEnd(d: seq<real>, up: real, down: real)
    ensures forall k :: 0 <= k < |Regions(Where(d, Above(up)), Where(d, Below(down)))| ==>
      var (s, e) := Regions(Where(d, Above(up)), Where(d, Below(down)))[k];
      EmitsAt(d, up, down, s) && s < e < |d| && d[e] < down && forall j :: s < j < e ==> d[j] >= down
  {
    RegionsStartsAreEmitted(Where(d, Above(up)), Where(d, Below(down)));
    forall k | 0 <= k < |Regions(Where(d, Above(up)), Where(d, Below(down)))|
      ensures var (s, e) := Regions(Where(d, Above(up)), Where(d, Below(down)))[k];
        EmitsAt(d, up, down, s) && s < e < |d| && d[e] < down && forall j :: s < j < e ==> d[j] >= down
    {
      var (s, e) := Regions(Where(d, Above(up)), Where(d, Below(down)))[k];
      var ends := Where(d, Below(down));
      assert e in ends;
      FirstAfterIsLeast(ends, s);
    }
  }

  /** Each region starts at a start index that has the region's end as the
      first end after it. */
  lemma {:induction false} RegionsStartsAreEmitted(starts: seq<nat>, ends: seq<nat>)
    ensures forall k :: 0 <= k < |Regions(starts, ends)| ==>
      Regions(starts, ends)[k].0 in starts && After(ends, Regions(starts, ends)[k].0) != [] &&
      Regions(starts, ends)[k].1 == After(ends, Regions(starts, ends)[k].0)[0]
    decreases |starts|
  {
    if starts != [] {
      RegionsStartsAreEmitted(starts[..|starts| - 1], ends);
    }
  }

  /** The corrected loop emits a region for exactly the starts the loop as
      written emits a pattern for, in the same order: the code as written is
      the corrected loop with each region's end replaced by its start. */
  lemma {:induction false} RegionsMatchPatterns(starts: seq<nat>, ends: seq<nat>)
    ensures |Regions(starts, ends)| == |Patterns(starts, ends)|
    ensures forall k :: 0 <= k < |Regions(starts, ends)| ==>
      Regions(starts, ends)[k].0 == Patterns(starts, ends)[k].0 == Patterns(starts, ends)[k].1
    decreases |starts|
  {
    if starts != [] {
      RegionsMatchPatterns(starts[..|starts| - 1], ends);
    }
  }

  /** Every start that has a later end gets its region. */
  lemma RegionsComplete(starts: seq<nat>, ends: seq<nat>, x: nat)
    requires x in starts && HasEndAfter(ends, x)
    ensures exists k :: 0 <= k < |Regions(starts, ends)| && Regions(starts, ends)[k].0 == x
  {
    PatternsMembership(starts, ends);
    RegionsMatchPatterns(starts, ends);
    var p := Patterns(starts, ends);
    assert (x, x) in p;
    var k :| 0 <= k < |p| && p[k] == (x, x);
    assert Regions(starts, ends)[k].0 == x;
  }

  /** The discrepancy on the smallest signal that rises and falls, with the
      default thresholds: the derivative is [1.0, -1.0], index 0 is the only
      start and index 1 the only end, and the code as written yields the empty
      span (0, 0) where the region (0, 1) is meant. */
  lemma PatternIsEmptySpan()
    ensures var d := Diff([0.0, 1.0, 0.0]);
      var starts, ends := Where(d, Above(DefaultThresholdIncrease)), Where(d, Below(DefaultThresholdDecrease));
      starts == [0] && ends == [1] && Patterns(starts, ends) == [(0, 0)] && Regions(starts, ends) == [(0, 1)]
  {
    assert Diff([0.0, 1.0, 0.0]) == [1.0, -1.0];
    ExampleStartsAndEnds();
    ExamplePatterns();
  }

  /** The start and end indices of the derivative [1.0, -1.0] with the
      default thresholds. */
  lemma ExampleStartsAndEnds()
    ensures Where([1.0, -1.0], Above(DefaultThresholdIncrease)) == [0]
    ensures Where([1.0, -1.0], Below(DefaultThresholdDecrease)) == [1]
  {
    ExampleWhere(Above(DefaultThresholdIncrease));
    ExampleWhere(Below(DefaultThresholdDecrease));
  }

  /** `Where` on the two-sample derivative [1.0, -1.0], for any test. */
  lemma ExampleWhere(test: Test)
    ensures var first := if Passes(test, 1.0) then [0] else [];
      Where([1.0, -1.0], test) == if Passes(test, -1.0) then first + [1] else first
  {
    assert [1.0, -1.0][..1] == [1.0];
    assert [1.0][..0] == [];
  }

  /** One start at 0 with one end at 1: the pattern as written and the
      region as meant. */
  lemma ExamplePatterns()
    ensures Patterns([0], [1]) == [(0, 0)]
    ensures Regions([0], [1]) == [(0, 1)]
  {
    assert After([1], 0) == [1];
    assert [0][..0] == [];
  }
}
