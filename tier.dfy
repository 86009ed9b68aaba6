/**
 * Model of `extractInfosFromTier` (TP2/script.py, repeated in
 * TP2/final_script.py): an interval tier of a TextGrid is split into three
 * parallel lists of interval starts, interval ends and labels.
 */
module TextGridTier {

  /** One entry of an interval tier: its start and end times and its text (the label). */
  datatype Interval = Interval(start: real, end: real, text: string)

  /** The three parallel lists `xmi`, `xma`, `lab`. */
  datatype Columns = Columns(xmi: seq<real>, xma: seq<real>, lab: seq<string>)

  predicate Parallel(c: Columns)
  {
    |c.xmi| == |c.xma| == |c.lab|
  }

  /** The columns of a tier: three lists as long as the tier. */
  function Split(entries: seq<Interval>): (c: Columns)
    ensures Parallel(c) && |c.xmi| == |entries|
    decreases |entries|
  {
    if entries == [] then Columns([], [], [])
    else
      Prepend(entries[0], Split(entries[1..]))
  }

  /** The columns with one entry put in front. */
  function Prepend(head: Interval, c: Columns): Columns
  {
    Columns([head.start] + c.xmi, [head.end] + c.xma, [head.text] + c.lab)
  }

  /** Each column of `c` followed by the same column of `d`. */
  function Concat(c: Columns, d: Columns): Columns
  {
    Columns(c.xmi + d.xmi, c.xma + d.xma, c.lab + d.lab)
  }

  /** The i-th element of each column comes from the i-th entry: its start,
      its end and its label. */
  lemma {:induction false} SplitAt(entries: seq<Interval>, i: nat)
    requires i < |entries|
    ensures Split(entries).xmi[i] == entries[i].start
    ensures Split(entries).xma[i] == entries[i].end
    ensures Split(entries).lab[i] == entries[i].text
    decreases |entries|
  {
    if i > 0 {
      SplitAt(entries[1..], i - 1);
    }
  }

  /** The inverse of `Split`: the entries rebuilt from three parallel lists. */
  function Zip(c: Columns): (entries: seq<Interval>)
    requires Parallel(c)
    ensures |entries| == |c.xmi|
    decreases |c.xmi|
  {
    if c.xmi == [] then []
    else [Interval(c.xmi[0], c.xma[0], c.lab[0])] + Zip(Columns(c.xmi[1..], c.xma[1..], c.lab[1..]))
  }

  /** Splitting a tier loses nothing: zipping the columns gives the tier back. */
  lemma {:induction false} ZipSplit(entries: seq<Interval>)
    ensures Zip(Split(entries)) == entries
    decreases |entries|
  {
    if entries != [] {
      var c := Split(entries);
      assert Columns(c.xmi[1..], c.xma[1..], c.lab[1..]) == Split(entries[1..]);
      ZipSplit(entries[1..]);
    }
  }

  /** And three parallel lists are the columns of the entries they zip into. */
  lemma {:induction false} SplitZip(c: Columns)
    requires Parallel(c)
    ensures Split(Zip(c)) == c
    decreases |c.xmi|
  {
    if c.xmi != [] {
      var rest := Columns(c.xmi[1..], c.xma[1..], c.lab[1..]);
      SplitZip(rest);
      var z := Zip(c);
      assert z[1..] == Zip(rest);
      assert c.xmi == [c.xmi[0]] + rest.xmi;
      assert c.xma == [c.xma[0]] + rest.xma;
      assert c.lab == [c.lab[0]] + rest.lab;
    }
  }

  /** Entry order is kept: the columns of two consecutive runs of entries are
      the columns of the first run followed by those of the second. */
  lemma {:induction false} SplitAppend(a: seq<Interval>, b: seq<Interval>)
    ensures Split(a + b) == Concat(Split(a), Split(b))
    decreases |a|
  {
    if a == [] {
      assert a + b == b;
      var cb := Split(b);
      assert [] + cb.xmi == cb.xmi && [] + cb.xma == cb.xma && [] + cb.lab == cb.lab;
    } else {
      var h, t := a[0], a[1..];
      var ct, cb := Split(t), Split(b);
      calc {
        Split(a + b);
        { assert a + b == [h] + (t + b); SplitCons(h, t + b); }
        Prepend(h, Split(t + b));
        { SplitAppend(t, b); }
        Prepend(h, Concat(ct, cb));
        { PrependConcat(h, ct, cb); }
        Concat(Prepend(h, ct), cb);
        { assert a == [h] + t; SplitCons(h, t); }
        Concat(Split(a), cb);
      }
    }
  }

  lemma SplitCons(h: Interval, t: seq<Interval>)
    ensures Split([h] + t) == Prepend(h, Split(t))
  {
    assert ([h] + t)[1..] == t;
  }

  lemma PrependConcat(h: Interval, c: Columns, d: Columns)
    ensures Prepend(h, Concat(c, d)) == Concat(Prepend(h, c), d)
  {
    assert [h.start] + (c.xmi + d.xmi) == ([h.start] + c.xmi) + d.xmi;
    assert [h.end] + (c.xma + d.xma) == ([h.end] + c.xma) + d.xma;
    assert [h.text] + (c.lab + d.lab) == ([h.text] + c.lab) + d.lab;
  }

  /** `extractInfosFromTier`: appends each entry's start, end and label to
      three lists, in entry order. */
  method ExtractInfosFromTier(entries: seq<Interval>) returns (xmi: seq<real>, xma: seq<real>, lab: seq<string>)
    ensures Columns(xmi, xma, lab) == Split(entries)
    ensures |xmi| == |xma| == |lab| == |entries|
    ensures forall k :: 0 <= k < |entries| ==>
      xmi[k] == entries[k].start && xma[k] == entries[k].end && lab[k] == entries[k].text
    ensures Zip(Columns(xmi, xma, lab)) == entries
  {
    xmi, xma, lab := [], [], [];
    for i := 0 to |entries|
      invariant |xmi| == |xma| == |lab| == i
      invariant forall k :: 0 <= k < i ==>
        xmi[k] == entries[k].start && xma[k] == entries[k].end && lab[k] == entries[k].text
    {
      var Interval(start, end, text) := entries[i];
      xmi := xmi + [start];
      xma := xma + [end];
      lab := lab + [text];
    }
    forall k | 0 <= k < |entries|
      ensures xmi[k] == Split(entries).xmi[k] && xma[k] == Split(entries).xma[k] && lab[k] == Split(entries).lab[k]
    {
      SplitAt(entries, k);
    }
    ZipSplit(entries);
  }
}
