/**
 * The constants of TP2/final_script.py that describe the exported data file:
 * the codes of the subject groups and of the conditions, and the header line
 * of the tab-separated data file, modelled as its column names joined by
 * tabs, with the inverse of that join showing the column names come back.
 */
module Datafile {

  /** `SUBJECT_GROUPS`: people who stutter and people who do not. */
  const SubjectGroups: map<string, int> := map["PWS" := 1, "PNS" := 2]

  /** `CONDITIONS`: free (aperiodic) tapping and tapping along a periodic beat. */
  const Conditions: map<string, int> := map["Aperiodic" := 1, "PeriodicAlong" := 2]

  /** `DATAFILE_HEADER`, as written in the source. */
  const DatafileHeader: string := "Sujet\tGroupe\tCondition\tFile\tTrain\tBeatNb\tBeatInstant\tTapInstant\n"

  /** The eight column names of the data file, in order. */
  const HeaderColumns: seq<string> := ["Sujet", "Groupe", "Condition", "File", "Train", "BeatNb", "BeatInstant", "TapInstant"]

  const Tab: char := '\t'

  /** A code table that maps exactly two labels, the first to 1 and the
      second to 2. */
  predicate CodesOneAndTwo(table: map<string, int>, first: string, second: string)
  {
    table.Keys == {first, second} && first != second && table[first] == 1 && table[second] == 2
  }

  /** No two labels of a table share a code, so a code names one label. */
  predicate Injective(table: map<string, int>)
  {
    forall a, b :: a in table && b in table && table[a] == table[b] ==> a == b
  }

  lemma CodeTables()
    ensures CodesOneAndTwo(SubjectGroups, "PWS", "PNS") && Injective(SubjectGroups)
    ensures CodesOneAndTwo(Conditions, "Aperiodic", "PeriodicAlong") && Injective(Conditions)
  {
  }

  /** The fields joined by `sep`, as a line of the data file is built. */
  function Join(fields: seq<string>, sep: char): string
    requires fields != []
    decreases |fields|
  {
    if |fields| == 1 then fields[0]
    else Join(fields[..|fields| - 1], sep) + [sep] + fields[|fields| - 1]
  }

  /** The fields of a line separated by `sep`, the inverse of `Join`: never
      no field at all. */
  function SplitFields(line: string, sep: char): (fields: seq<string>)
    ensures |fields| >= 1
    decreases |line|
  {
    if line == [] then [""]
    else
      var rest := SplitFields(line[..|line| - 1], sep);
      var last := line[|line| - 1];
      if last == sep then rest + [""] else Extend(rest, [last])
  }

  /** The fields with `w` added to the end of the last one. */
  function Extend(fields: seq<string>, w: string): (r: seq<string>)
    requires |fields| >= 1
    ensures |r| == |fields|
  {
    fields[..|fields| - 1] + [fields[|fields| - 1] + w]
  }

  lemma ExtendTwice(fields: seq<string>, u: string, v: string)
    requires |fields| >= 1
    ensures Extend(Extend(fields, u), v) == Extend(fields, u + v)
  {
    var g := Extend(fields, u);
    assert g[..|g| - 1] == fields[..|fields| - 1];
    assert g[|g| - 1] + v == fields[|fields| - 1] + (u + v);
  }

  /** No field of a split line holds the separator. */
  lemma {:induction false} SplitFieldsSeparatorFree(line: string, sep: char)
    ensures forall k :: 0 <= k < |SplitFields(line, sep)| ==> sep !in SplitFields(line, sep)[k]
    decreases |line|
  {
    if line != [] {
      var rest := SplitFields(line[..|line| - 1], sep);
      SplitFieldsSeparatorFree(line[..|line| - 1], sep);
      var last := line[|line| - 1];
      if last != sep {
        assert sep !in rest[|rest| - 1] + [last];
      }
    }
  }

  /** Appending one character either starts a new field (the separator) or
      extends the last field. */
  lemma SplitFieldsSnoc(line: string, c: char, sep: char)
    ensures SplitFields(line + [c], sep) ==
      if c == sep then SplitFields(line, sep) + [""] else Extend(SplitFields(line, sep), [c])
  {
    assert (line + [c])[..|line|] == line;
  }

  /** Splitting a line that ends with a separator-free word `w` glues `w`
      onto the last field of what comes before it. */
  lemma {:induction false} SplitBeforeWord(t: string, w: string, sep: char)
    requires sep !in w
    ensures SplitFields(t + w, sep) == Extend(SplitFields(t, sep), w)
    decreases |w|
  {
    if w == [] {
      var f := SplitFields(t, sep);
      assert t + w == t && f[|f| - 1] + w == f[|f| - 1];
      assert f[..|f| - 1] + [f[|f| - 1]] == f;
    } else {
      var init, c := w[..|w| - 1], w[|w| - 1];
      assert w == init + [c];
      assert sep !in init && c != sep;
      SplitBeforeWord(t, init, sep);
      SplitBeforeChar(t, init, c, sep);
    }
  }

  /** One step of `SplitBeforeWord`: a non-separator character after the
      word goes onto the same field. */
  lemma SplitBeforeChar(t: string, init: string, c: char, sep: char)
    requires c != sep
    requires SplitFields(t + init, sep) == Extend(SplitFields(t, sep), init)
    ensures SplitFields(t + (init + [c]), sep) == Extend(SplitFields(t, sep), init + [c])
  {
    var f := SplitFields(t, sep);
    calc {
      SplitFields(t + (init + [c]), sep);
      { assert t + (init + [c]) == (t + init) + [c]; }
      SplitFields((t + init) + [c], sep);
      { SplitFieldsSnoc(t + init, c, sep); }
      Extend(SplitFields(t + init, sep), [c]);
      Extend(Extend(f, init), [c]);
      { ExtendTwice(f, init, [c]); }
      Extend(f, init + [c]);
    }
  }

  /** A separator-free word is a single field. */
  lemma SplitWord(w: string, sep: char)
    requires sep !in w
    ensures SplitFields(w, sep) == [w]
  {
    SplitBeforeWord([], w, sep);
    assert [] + w == w && "" + w == w;
  }

  /** Splitting undoes joining whenever no field contains the separator. */
  lemma {:induction false} SplitJoin(fields: seq<string>, sep: char)
    requires fields != []
    requires forall k :: 0 <= k < |fields| ==> sep !in fields[k]
    ensures SplitFields(Join(fields, sep), sep) == fields
    decreases |fields|
  {
    var last := fields[|fields| - 1];
    assert sep !in last;
    if |fields| == 1 {
      SplitWord(last, sep);
    } else {
      var init := fields[..|fields| - 1];
      var j := Join(init, sep);
      calc {
        SplitFields(Join(fields, sep), sep);
        { assert Join(fields, sep) == (j + [sep]) + last; }
        SplitFields((j + [sep]) + last, sep);
        { SplitBeforeWord(j + [sep], last, sep); }
        Extend(SplitFields(j + [sep], sep), last);
        { SplitFieldsSnoc(j, sep, sep); }
        Extend(SplitFields(j, sep) + [""], last);
        { SplitJoin(init, sep); }
        Extend(init + [""], last);
        { assert (init + [""])[..|init|] == init && "" + last == last; }
        init + [last];
        fields;
      }
    }
  }

  /** The header is the eight column names joined by tabs and ended by a
      newline. */
  lemma HeaderLayout()
    ensures DatafileHeader == Join(HeaderColumns, Tab) + "\n"
  {
    var c := HeaderColumns;
    HeaderFirstColumns();
    assert c[..5][..4] == c[..4];
    assert Join(c[..5], Tab) == "Sujet\tGroupe\tCondition\tFile\tTrain";
    assert c[..6][..5] == c[..5];
    assert Join(c[..6], Tab) == "Sujet\tGroupe\tCondition\tFile\tTrain\tBeatNb";
    assert c[..7][..6] == c[..6];
    assert Join(c[..7], Tab) == "Sujet\tGroupe\tCondition\tFile\tTrain\tBeatNb\tBeatInstant";
    assert c[..8][..7] == c[..7] && c[..8] == c;
  }

  /** The first four column names joined by tabs. */
  lemma HeaderFirstColumns()
    ensures Join(HeaderColumns[..4], Tab) == "Sujet\tGroupe\tCondition\tFile"
  {
    var c := HeaderColumns;
    assert Join(c[..1], Tab) == "Sujet";
    assert c[..2][..1] == c[..1];
    assert Join(c[..2], Tab) == "Sujet\tGroupe";
    assert c[..3][..2] == c[..2];
    assert Join(c[..3], Tab) == "Sujet\tGroupe\tCondition";
    assert c[..4][..3] == c[..3];
  }

  /** Splitting the header line on tabs, the inverse of `Join`, gives the
      eight column names back, in order. */
  lemma HeaderColumnsRecovered()
    ensures SplitFields(DatafileHeader[..|DatafileHeader| - 1], Tab) == HeaderColumns
  {
    HeaderLayout();
    assert DatafileHeader[..|DatafileHeader| - 1] == Join(HeaderColumns, Tab);
    SplitJoin(HeaderColumns, Tab);
  }
}
