/**
 The totals behind `createChart`: each of eleven annotation columns of the
 uploaded data file is looked up by name and summed, and the sums become the
 bars of a horizontal bar chart labelled by `headers`. Drawing and encoding
 the picture are not modelled; the bars are returned instead.
 */
module Chart {

  /** The annotation columns read by `createChart`, in the order they are read. */
  const Columns: seq<string> := [
    "Abusive", "HS_Individual", "HS_Group", "HS_Religion", "HS_Race",
    "HS_Physical", "HS_Gender", "HS_Other", "HS_Weak", "HS_Moderate", "HS_Strong"]

  /** The bar labels, `headers`, aligned with `Columns`. */
  const Headers: seq<string> := [
    "Abusive", "Individual", "Group", "Religion", "Race",
    "Physical", "Gender", "Other", "Weak", "Moderate", "Strong"]

  /** A data frame: integer columns by name. */
  type Frame = map<string, seq<int>>

  /** `.sum()` of an integer column. */
  function Sum(xs: seq<int>): (r: int)
    ensures (forall i :: 0 <= i < |xs| ==> xs[i] >= 0) ==> r >= 0
    decreases |xs|
  {
    if |xs| == 0 then 0 else xs[0] + Sum(xs[1..])
  }

  /** Why a column cannot be totalled: `df[name]` raises for a missing column,
      and `pd.DataFrame([]).sum()[0]` raises for a column without rows. */
  datatype Failure = MissingColumn(name: string) | EmptyColumn(name: string)

  datatype Outcome<T> = Done(value: T) | Failed(failure: Failure)

  datatype Bar = Bar(header: string, count: int)

  /** Column `c` can be looked up and summed. */
  predicate Summable(df: Frame, c: string) {
    c in df && |df[c]| > 0
  }

  /** The failure raised for a column that is not summable. */
  function FailureFor(df: Frame, c: string): Failure {
    if c in df then EmptyColumn(c) else MissingColumn(c)
  }

  /** Column `cols[i]` is the first one that cannot be totalled. */
  predicate FirstFailing(df: Frame, cols: seq<string>, i: int) {
    && 0 <= i < |cols|
    && !Summable(df, cols[i])
    && forall j :: 0 <= j < i ==> Summable(df, cols[j])
  }

  /** Totals the columns one after another, stopping at the first failure. */
  function ColumnTotals(df: Frame, cols: seq<string>): (r: Outcome<seq<int>>)
    ensures r.Done? <==> forall i :: 0 <= i < |cols| ==> Summable(df, cols[i])
    ensures r.Done? ==> |r.value| == |cols|
    ensures r.Done? ==> forall i :: 0 <= i < |cols| ==> r.value[i] == Sum(df[cols[i]])
    ensures r.Failed? ==> exists i :: FirstFailing(df, cols, i) && r.failure == FailureFor(df, cols[i])
    decreases |cols|
  {
    if |cols| == 0 then Done([])
    else if !Summable(df, cols[0]) then
      assert FirstFailing(df, cols, 0);
      Failed(FailureFor(df, cols[0]))
    else
      match ColumnTotals(df, cols[1..])
      case Done(rest) => Done([Sum(df[cols[0]])] + rest)
      case Failed(f) =>
        ShiftFirstFailing(df, cols);
        Failed(f)
  }

  /** A first failure in the tail is a first failure of the whole list when the
      head is summable. */
  lemma ShiftFirstFailing(df: Frame, cols: seq<string>)
    requires |cols| > 0 && Summable(df, cols[0])
    ensures forall i :: FirstFailing(df, cols[1..], i) ==> FirstFailing(df, cols, i + 1)
  {
    forall i | FirstFailing(df, cols[1..], i)
      ensures FirstFailing(df, cols, i + 1)
    {
      assert cols[1..][i] == cols[i + 1];
      forall j | 0 < j < i + 1
        ensures Summable(df, cols[j])
      {
        assert cols[1..][j - 1] == cols[j];
      }
    }
  }

  /** The bars for `headers`, the i-th counting column `cols[i]`; or the
      failure of the first column that cannot be totalled. */
  function Bars(df: Frame, cols: seq<string>, headers: seq<string>): (r: Outcome<seq<Bar>>)
    requires |cols| == |headers|
    ensures r.Done? <==> forall i :: 0 <= i < |cols| ==> Summable(df, cols[i])
    ensures r.Done? ==> |r.value| == |headers|
    ensures r.Done? ==> forall i :: 0 <= i < |headers| ==> r.value[i] == Bar(headers[i], Sum(df[cols[i]]))
    ensures r.Failed? ==> exists i :: FirstFailing(df, cols, i) && r.failure == FailureFor(df, cols[i])
  {
    match ColumnTotals(df, cols)
    case Done(values) => Done(seq(|headers|, i requires 0 <= i < |headers| => Bar(headers[i], values[i])))
    case Failed(f) => Failed(f)
  }

  /** `createChart(df)`: the bars of the eleven annotation columns. */
  function CreateChart(df: Frame): (r: Outcome<seq<Bar>>)
    ensures r.Done? <==> forall i :: 0 <= i < |Columns| ==> Summable(df, Columns[i])
    ensures r.Done? ==> |r.value| == 11
    ensures r.Done? ==> forall i :: 0 <= i < 11 ==> r.value[i] == Bar(Headers[i], Sum(df[Columns[i]]))
    ensures r.Failed? ==> exists i :: FirstFailing(df, Columns, i) && r.failure == FailureFor(df, Columns[i])
  {
    Bars(df, Columns, Headers)
  }

  // ---------------------------------------------------------------------------
  // Frames read from rows

  /** Column `k` of a table of rows. */
  function Column(rows: seq<seq<int>>, k: nat): (c: seq<int>)
    requires forall j :: 0 <= j < |rows| ==> k < |rows[j]|
    ensures |c| == |rows|
    ensures forall j :: 0 <= j < |rows| ==> c[j] == rows[j][k]
    decreases |rows|
  {
    if |rows| == 0 then [] else [rows[0][k]] + Column(rows[1..], k)
  }

  /** Every row holds `width` values. */
  predicate WellFormed(rows: seq<seq<int>>, width: nat) {
    forall j :: 0 <= j < |rows| ==> |rows[j]| == width
  }

  /** Each column `cols[i]` of `df` was read from position `i` of the rows. */
  predicate ReadFrom(df: Frame, rows: seq<seq<int>>, cols: seq<string>)
    requires WellFormed(rows, |cols|)
  {
    forall i :: 0 <= i < |cols| ==> cols[i] in df && df[cols[i]] == Column(rows, i)
  }

  /** A file with at least one row gives each header the total of its column;
      a file without rows fails on the first column, as an empty one. */
  lemma BarsOfRows(df: Frame, rows: seq<seq<int>>, cols: seq<string>, headers: seq<string>)
    requires WellFormed(rows, |cols|) && ReadFrom(df, rows, cols) && |cols| == |headers|
    ensures var c := Bars(df, cols, headers);
      && (|rows| > 0 ==> c.Done? && forall i :: 0 <= i < |headers| ==> c.value[i] == Bar(headers[i], Sum(Column(rows, i))))
      && (|rows| == 0 && |cols| > 0 ==> c == Failed(EmptyColumn(cols[0])))
  {
    if |rows| == 0 && |cols| > 0 {
      var c := Bars(df, cols, headers);
      assert !Summable(df, cols[0]);
      var i :| FirstFailing(df, cols, i) && c.failure == FailureFor(df, cols[i]);
      assert i == 0;
    }
  }

  /** The same for the eleven annotation columns of `createChart`. */
  lemma ChartOfRows(df: Frame, rows: seq<seq<int>>)
    requires WellFormed(rows, |Columns|) && ReadFrom(df, rows, Columns)
    ensures var c := CreateChart(df);
      && (|rows| > 0 ==> c.Done? && forall i :: 0 <= i < |Headers| ==> c.value[i] == Bar(Headers[i], Sum(Column(rows, i))))
      && (|rows| == 0 ==> c == Failed(EmptyColumn("Abusive")))
  {
    BarsOfRows(df, rows, Columns, Headers);
  }

  // ---------------------------------------------------------------------------
  // Properties of the totals

  /** Appending rows adds their totals. */
  lemma {:induction false} SumAppend(xs: seq<int>, ys: seq<int>)
    ensures Sum(xs + ys) == Sum(xs) + Sum(ys)
    decreases |xs|
  {
    if |xs| == 0 {
      assert xs + ys == ys;
    } else {
      SumAppend(xs[1..], ys);
      assert (xs + ys)[1..] == xs[1..] + ys;
    }
  }

  /** A column holding `v` in every row totals `v` times the number of rows. */
  lemma {:induction false} SumOfConstant(xs: seq<int>, v: int)
    requires forall j :: 0 <= j < |xs| ==> xs[j] == v
    ensures Sum(xs) == |xs| * v
    decreases |xs|
  {
    if |xs| > 0 {
      SumOfConstant(xs[1..], v);
      assert xs[0] == v;
      assert |xs| * v == v + |xs[1..]| * v;
    }
  }

  /** A column of 0/1 flags totals to the number of rows flagged 1, which is at
      most the number of rows. */
  lemma {:induction false} SumOfFlags(xs: seq<int>)
    requires forall j :: 0 <= j < |xs| ==> xs[j] == 0 || xs[j] == 1
    ensures Sum(xs) == multiset(xs)[1]
    ensures 0 <= Sum(xs) <= |xs|
    decreases |xs|
  {
    if |xs| > 0 {
      SumOfFlags(xs[1..]);
      assert xs == [xs[0]] + xs[1..];
      assert multiset(xs) == multiset{xs[0]} + multiset(xs[1..]);
    }
  }

  /** A column of two tables read one after the other. */
  lemma ColumnAppend(a: seq<seq<int>>, b: seq<seq<int>>, k: nat)
    requires forall j :: 0 <= j < |a| ==> k < |a[j]|
    requires forall j :: 0 <= j < |b| ==> k < |b[j]|
    ensures forall j :: 0 <= j < |a + b| ==> k < |(a + b)[j]|
    ensures Column(a + b, k) == Column(a, k) + Column(b, k)
  {
    assert forall j :: 0 <= j < |a + b| ==> (a + b)[j] == if j < |a| then a[j] else b[j - |a|];
  }

  /** The chart of two files read one after the other adds their bars. */
  lemma BarsOfConcatenatedRows(dfa: Frame, a: seq<seq<int>>, dfb: Frame, b: seq<seq<int>>,
                                df: Frame, cols: seq<string>, headers: seq<string>)
    requires |cols| == |headers|
    requires WellFormed(a, |cols|) && WellFormed(b, |cols|) && |a| > 0 && |b| > 0
    requires ReadFrom(dfa, a, cols) && ReadFrom(dfb, b, cols)
    requires WellFormed(a + b, |cols|) && ReadFrom(df, a + b, cols)
    ensures var ca := Bars(dfa, cols, headers);
            var cb := Bars(dfb, cols, headers);
            var c := Bars(df, cols, headers);
      && ca.Done? && cb.Done? && c.Done?
      && forall i :: 0 <= i < |headers| ==> c.value[i].count == ca.value[i].count + cb.value[i].count
  {
    BarsOfRows(dfa, a, cols, headers);
    BarsOfRows(dfb, b, cols, headers);
    BarsOfRows(df, a + b, cols, headers);
    forall i | 0 <= i < |cols|
      ensures Sum(Column(a + b, i)) == Sum(Column(a, i)) + Sum(Column(b, i))
    {
      ColumnAppend(a, b, i);
      SumAppend(Column(a, i), Column(b, i));
    }
  }

  /** With 0/1 flags, every bar counts the rows flagged, at most all of them. */
  lemma BarsOfFlags(df: Frame, rows: seq<seq<int>>, cols: seq<string>, headers: seq<string>)
    requires |cols| == |headers|
    requires WellFormed(rows, |cols|) && ReadFrom(df, rows, cols) && |rows| > 0
    requires forall j, k :: 0 <= j < |rows| && 0 <= k < |rows[j]| ==> rows[j][k] == 0 || rows[j][k] == 1
    ensures var c := Bars(df, cols, headers);
      && c.Done?
      && forall i :: 0 <= i < |headers| ==>
           c.value[i].count == multiset(Column(rows, i))[1] && 0 <= c.value[i].count <= |rows|
  {
    BarsOfRows(df, rows, cols, headers);
    forall i | 0 <= i < |cols|
      ensures Sum(Column(rows, i)) == multiset(Column(rows, i))[1] <= |rows|
    {
      SumOfFlags(Column(rows, i));
    }
  }

  /** A column holding `v` in every row gives its bar `v` times the number of
      rows: 0 for an all-zero column, the number of rows for an all-one one. */
  lemma BarsOfUniformColumn(df: Frame, rows: seq<seq<int>>, cols: seq<string>, headers: seq<string>, k: nat, v: int)
    requires |cols| == |headers| && k < |cols|
    requires WellFormed(rows, |cols|) && ReadFrom(df, rows, cols) && |rows| > 0
    requires forall j :: 0 <= j < |rows| ==> rows[j][k] == v
    ensures var c := Bars(df, cols, headers);
      c.Done? && c.value[k] == Bar(headers[k], |rows| * v)
  {
    BarsOfRows(df, rows, cols, headers);
    SumOfConstant(Column(rows, k), v);
  }
}
