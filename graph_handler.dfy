/**
 * The chart page's data handling: the guard that sends a query only when a
 * station, a measure and a time range are all selected; `parseDateString`,
 * which splits a stored "YYYY-MM-DD HH:MM:SS" stamp on '-', ' ' and ':' and
 * builds a date from its first six fields; the loop that turns the response
 * rows into two parallel arrays of labels and values, dropping every row
 * whose date or value does not parse; and the single chart instance the page
 * keeps, destroyed before a new one is drawn and on a "no data" response.
 *
 * JavaScript's `parseInt`, `parseFloat` and `Date` construction are foreign
 * behaviour and enter as the partial functions of a `Parsers` value; None
 * stands for NaN and for an invalid date.
 */
module GraphHandler {
  import opened Wrappers

  // ---------------------------------------------------------------------------
  // Splitting on the separator characters, as `split(/[- :]/)` does
  // ---------------------------------------------------------------------------

  /** The characters of the regular expression `[- :]`. */
  const DateSeparators: set<char> := {'-', ' ', ':'}

  predicate NoSeparator(w: string, seps: set<char>) {
    forall i :: 0 <= i < |w| ==> w[i] !in seps
  }

  /** The separator characters of `s`, in order. */
  function SeparatorsIn(s: string, seps: set<char>): seq<char> {
    if |s| == 0 then []
    else (if s[0] in seps then [s[0]] else []) + SeparatorsIn(s[1..], seps)
  }

  /**
   * The pieces of `s` between separator characters; adjacent separators
   * give an empty piece, and the empty string gives one empty piece.
   */
  function Split(s: string, seps: set<char>): (parts: seq<string>)
    ensures |parts| == |SeparatorsIn(s, seps)| + 1
    ensures forall k :: 0 <= k < |parts| ==> NoSeparator(parts[k], seps)
  {
    if |s| == 0 then [""]
    else
      var rest := Split(s[1..], seps);
      if s[0] in seps then [""] + rest
      else [[s[0]] + rest[0]] + rest[1..]
  }

  /** The pieces with one delimiter character between neighbours: the inverse of `Split`. */
  function Interleave(parts: seq<string>, delims: seq<char>): string
    requires |parts| == |delims| + 1
  {
    if |delims| == 0 then parts[0]
    else parts[0] + [delims[0]] + Interleave(parts[1..], delims[1..])
  }

  /** Splitting and putting the separators back gives the original string. */
  lemma {:induction false} SplitThenInterleave(s: string, seps: set<char>)
    ensures Interleave(Split(s, seps), SeparatorsIn(s, seps)) == s
  {
    if |s| > 0 {
      SplitThenInterleave(s[1..], seps);
      var rest := Split(s[1..], seps);
      var ds := SeparatorsIn(s[1..], seps);
      if s[0] in seps {
        assert Split(s, seps) == [""] + rest;
        assert SeparatorsIn(s, seps) == [s[0]] + ds;
        assert ([""] + rest)[1..] == rest;
        assert s == [s[0]] + s[1..];
      } else {
        assert SeparatorsIn(s, seps) == ds;
        InterleaveConsFirst([s[0]], rest, ds);
        assert s == [s[0]] + s[1..];
      }
    }
  }

  /** Prefixing the first piece prefixes the interleaving. */
  lemma InterleaveConsFirst(w: string, parts: seq<string>, delims: seq<char>)
    requires |parts| == |delims| + 1
    ensures Interleave([w + parts[0]] + parts[1..], delims) == w + Interleave(parts, delims)
  {
    var ps := [w + parts[0]] + parts[1..];
    assert ps[1..] == parts[1..];
  }

  /** Splitting a separator-free word followed by `s` glues the word to the first piece of `s`. */
  lemma {:induction false} SplitWordPrefix(w: string, s: string, seps: set<char>)
    requires NoSeparator(w, seps)
    ensures Split(w + s, seps) == [w + Split(s, seps)[0]] + Split(s, seps)[1..]
    ensures SeparatorsIn(w + s, seps) == SeparatorsIn(s, seps)
  {
    var parts := Split(s, seps);
    if |w| > 0 {
      SplitWordPrefix(w[1..], s, seps);
      var ws := w + s;
      assert ws[1..] == w[1..] + s;
      assert ws[0] == w[0] && ws[0] !in seps;
      var rest := Split(ws[1..], seps);
      assert rest == [w[1..] + parts[0]] + parts[1..];
      assert Split(ws, seps) == [[w[0]] + rest[0]] + rest[1..];
      assert rest[0] == w[1..] + parts[0];
      assert rest[1..] == parts[1..];
      assert [w[0]] + (w[1..] + parts[0]) == w + parts[0];
    } else {
      assert w + s == s;
      assert parts == [parts[0]] + parts[1..];
      assert w + parts[0] == parts[0];
    }
  }

  /** Interleaving separator-free pieces with separators and splitting gives the pieces back. */
  lemma {:induction false} InterleaveThenSplit(parts: seq<string>, delims: seq<char>, seps: set<char>)
    requires |parts| == |delims| + 1
    requires forall k :: 0 <= k < |parts| ==> NoSeparator(parts[k], seps)
    requires forall k :: 0 <= k < |delims| ==> delims[k] in seps
    ensures Split(Interleave(parts, delims), seps) == parts
    ensures SeparatorsIn(Interleave(parts, delims), seps) == delims
  {
    if |delims| == 0 {
      SplitWordPrefix(parts[0], "", seps);
      assert Split("", seps) == [""];
      assert parts[0] + "" == parts[0];
      assert parts == [parts[0]];
    } else {
      var tail := Interleave(parts[1..], delims[1..]);
      InterleaveThenSplit(parts[1..], delims[1..], seps);
      var s := [delims[0]] + tail;
      assert s[1..] == tail;
      assert Split(s, seps) == [""] + parts[1..];
      assert SeparatorsIn(s, seps) == [delims[0]] + delims[1..];
      assert Interleave(parts, delims) == parts[0] + s;
      SplitWordPrefix(parts[0], s, seps);
      assert parts[0] + "" == parts[0];
      assert [parts[0]] + parts[1..] == parts;
      assert [delims[0]] + delims[1..] == delims;
    }
  }

  // ---------------------------------------------------------------------------
  // parseDateString
  // ---------------------------------------------------------------------------

  /** Milliseconds since the epoch, the value of `Date.getTime()`. */
  type Instant = int

  /** The six numbers passed to `new Date(...)`; `month` is already 0-based. */
  datatype DateParts = DateParts(year: int, month: int, day: int, hour: int, minute: int, second: int)

  /** The foreign conversions the page relies on; None stands for NaN or an invalid date. */
  datatype Parsers = Parsers(
    parseInt: string -> Option<int>,
    parseFloat: string -> Option<real>,
    makeDate: DateParts -> Option<Instant>)

  /**
   * The date fields taken from parts 0 to 5 by `parseInt(parts[k], 10)`, with
   * the month made 0-based; a part past the end is `undefined`, which parses
   * to NaN.
   */
  function DateFields(parts: seq<string>, ps: Parsers): (r: Option<DateParts>)
    ensures r.Some? <==> |parts| >= 6 && forall k :: 0 <= k < 6 ==> ps.parseInt(parts[k]).Some?
    ensures r.Some? ==>
      r.value == DateParts(ps.parseInt(parts[0]).value, ps.parseInt(parts[1]).value - 1, ps.parseInt(parts[2]).value,
                           ps.parseInt(parts[3]).value, ps.parseInt(parts[4]).value, ps.parseInt(parts[5]).value)
  {
    if |parts| < 6 then None
    else
      var year :- ps.parseInt(parts[0]);
      var month :- ps.parseInt(parts[1]);
      var day :- ps.parseInt(parts[2]);
      var hour :- ps.parseInt(parts[3]);
      var minute :- ps.parseInt(parts[4]);
      var second :- ps.parseInt(parts[5]);
      Some(DateParts(year, month - 1, day, hour, minute, second))
  }

  /** `parseDateString`: None when a field is NaN or the date is invalid. */
  function ParseDateString(dateString: string, ps: Parsers): (r: Option<Instant>)
    ensures |SeparatorsIn(dateString, DateSeparators)| < 5 ==> r.None?
    ensures DateFields(Split(dateString, DateSeparators), ps).None? ==> r.None?
    ensures DateFields(Split(dateString, DateSeparators), ps).Some? ==>
      r == ps.makeDate(DateFields(Split(dateString, DateSeparators), ps).value)
  {
    match DateFields(Split(dateString, DateSeparators), ps)
    case None => None
    case Some(fields) => ps.makeDate(fields)
  }

  /** A stored stamp "Y-M-D h:m:s" built from six separator-free fields. */
  function StoredStamp(y: string, mo: string, d: string, h: string, mi: string, s: string): string {
    y + "-" + mo + "-" + d + " " + h + ":" + mi + ":" + s
  }

  /** A stored stamp is its six fields interleaved with the delimiters "--  ::" in order. */
  lemma StoredStampInterleaves(y: string, mo: string, d: string, h: string, mi: string, s: string)
    ensures Interleave([y, mo, d, h, mi, s], ['-', '-', ' ', ':', ':']) == StoredStamp(y, mo, d, h, mi, s)
  {
    var parts := [y, mo, d, h, mi, s];
    var delims := ['-', '-', ' ', ':', ':'];
    var t4 := Interleave(parts[4..], delims[4..]);
    assert parts[4..] == [mi, s] && delims[4..] == [':'];
    assert [mi, s][1..] == [s] && [':'][1..] == [];
    assert Interleave([s], []) == s;
    assert Interleave([mi, s], [':']) == mi + [':'] + s;
    assert t4 == mi + ":" + s;
    var t3 := Interleave(parts[3..], delims[3..]);
    assert parts[3..][1..] == parts[4..] && delims[3..][1..] == delims[4..];
    assert t3 == h + ":" + t4;
    var t2 := Interleave(parts[2..], delims[2..]);
    assert parts[2..][1..] == parts[3..] && delims[2..][1..] == delims[3..];
    assert t2 == d + " " + t3;
    var t1 := Interleave(parts[1..], delims[1..]);
    assert parts[1..][1..] == parts[2..] && delims[1..][1..] == delims[2..];
    assert t1 == mo + "-" + t2;
    assert Interleave(parts, delims) == y + "-" + t1;
    assert y + "-" + (mo + "-" + (d + " " + (h + ":" + (mi + ":" + s)))) == StoredStamp(y, mo, d, h, mi, s);
  }

  /** `split(/[- :]/)` cuts a stored stamp into exactly its six fields. */
  lemma StoredStampSplits(y: string, mo: string, d: string, h: string, mi: string, s: string)
    requires NoSeparator(y, DateSeparators) && NoSeparator(mo, DateSeparators) && NoSeparator(d, DateSeparators)
    requires NoSeparator(h, DateSeparators) && NoSeparator(mi, DateSeparators) && NoSeparator(s, DateSeparators)
    ensures Split(StoredStamp(y, mo, d, h, mi, s), DateSeparators) == [y, mo, d, h, mi, s]
  {
    var parts := [y, mo, d, h, mi, s];
    var delims := ['-', '-', ' ', ':', ':'];
    StoredStampInterleaves(y, mo, d, h, mi, s);
    InterleaveThenSplit(parts, delims, DateSeparators);
  }

  /**
   * On a stored stamp `parseDateString` reads the six fields in order as
   * year, month minus one, day, hour, minute and second.
   */
  lemma ParseStoredStamp(y: string, mo: string, d: string, h: string, mi: string, s: string, ps: Parsers)
    requires NoSeparator(y, DateSeparators) && NoSeparator(mo, DateSeparators) && NoSeparator(d, DateSeparators)
    requires NoSeparator(h, DateSeparators) && NoSeparator(mi, DateSeparators) && NoSeparator(s, DateSeparators)
    ensures ParseDateString(StoredStamp(y, mo, d, h, mi, s), ps) ==
      if ps.parseInt(y).Some? && ps.parseInt(mo).Some? && ps.parseInt(d).Some?
        && ps.parseInt(h).Some? && ps.parseInt(mi).Some? && ps.parseInt(s).Some?
      then ps.makeDate(DateParts(ps.parseInt(y).value, ps.parseInt(mo).value - 1, ps.parseInt(d).value,
                                 ps.parseInt(h).value, ps.parseInt(mi).value, ps.parseInt(s).value))
      else None
  {
    StoredStampSplits(y, mo, d, h, mi, s);
  }

  // ---------------------------------------------------------------------------
  // The series assembly loop
  // ---------------------------------------------------------------------------

  /** One row of the query response: its `date_time` string and its other columns. */
  datatype DataRow = DataRow(dateTime: string, fields: map<string, string>)

  /** One plotted point: a label and a value. */
  datatype Point = Point(time: Instant, value: real)

  /** `parseFloat(row[measure])`; a missing column is `undefined`, which parses to NaN. */
  function MeasureValue(row: DataRow, measure: string, ps: Parsers): Option<real> {
    if measure in row.fields then ps.parseFloat(row.fields[measure]) else None
  }

  /** The point a row contributes: defined exactly when both its date and its value parse. */
  function PointOf(row: DataRow, measure: string, ps: Parsers): Option<Point> {
    var date := ParseDateString(row.dateTime, ps);
    var value := MeasureValue(row, measure, ps);
    if date.Some? && value.Some? then Some(Point(date.value, value.value)) else None
  }

  /** The values `f` gives to the elements of `xs` it is defined on, in order. */
  function FilterMap<T, U>(xs: seq<T>, f: T -> Option<U>): (r: seq<U>)
    ensures |r| <= |xs|
  {
    if |xs| == 0 then []
    else
      var init := FilterMap(xs[..|xs| - 1], f);
      match f(xs[|xs| - 1])
      case Some(y) => init + [y]
      case None => init
  }

  /** The positions of the elements `f` is defined on, in increasing order. */
  function FilterIndices<T, U>(xs: seq<T>, f: T -> Option<U>): seq<nat> {
    if |xs| == 0 then []
    else
      var init := FilterIndices(xs[..|xs| - 1], f);
      if f(xs[|xs| - 1]).Some? then init + [|xs| - 1] else init
  }

  /**
   * `FilterMap` keeps an order-preserving subsequence: its j-th value comes
   * from position `FilterIndices[j]`, and the positions increase.
   */
  lemma {:induction false} FilterIsSubsequence<T, U>(xs: seq<T>, f: T -> Option<U>)
    ensures |FilterIndices(xs, f)| == |FilterMap(xs, f)|
    ensures forall j :: 0 <= j < |FilterIndices(xs, f)| ==>
      FilterIndices(xs, f)[j] < |xs| && f(xs[FilterIndices(xs, f)[j]]) == Some(FilterMap(xs, f)[j])
    ensures forall j1, j2 :: 0 <= j1 < j2 < |FilterIndices(xs, f)| ==>
      FilterIndices(xs, f)[j1] < FilterIndices(xs, f)[j2]
  {
    if |xs| > 0 {
      var n := |xs| - 1;
      var init := xs[..n];
      FilterIsSubsequence(init, f);
      var idx0, ys0 := FilterIndices(init, f), FilterMap(init, f);
      var idx, ys := FilterIndices(xs, f), FilterMap(xs, f);
      var last := f(xs[n]);
      if last.Some? {
        assert idx == idx0 + [n] && ys == ys0 + [last.value];
      } else {
        assert idx == idx0 && ys == ys0;
      }
      forall j | 0 <= j < |idx|
        ensures idx[j] < |xs| && f(xs[idx[j]]) == Some(ys[j])
      {
        if j < |idx0| {
          assert idx[j] == idx0[j] && ys[j] == ys0[j];
          assert init[idx0[j]] == xs[idx0[j]];
        }
      }
    }
  }

  /** A position is among `FilterIndices` exactly when `f` is defined there. */
  lemma {:induction false} FilterIndicesExactly<T, U>(xs: seq<T>, f: T -> Option<U>)
    ensures forall i :: 0 <= i < |xs| ==> (i in FilterIndices(xs, f) <==> f(xs[i]).Some?)
  {
    if |xs| > 0 {
      var n := |xs| - 1;
      var init := xs[..n];
      FilterIndicesExactly(init, f);
      FilterIsSubsequence(init, f);
      var idx0, idx := FilterIndices(init, f), FilterIndices(xs, f);
      assert idx == idx0 + [n] || idx == idx0;
      forall i | 0 <= i < |xs|
        ensures i in idx <==> f(xs[i]).Some?
      {
        if i < n {
          assert init[i] == xs[i];
          assert i in idx <==> i in idx0;
        } else {
          assert n !in idx0;
        }
      }
    }
  }

  /** Filtering a concatenation filters each part: one element never affects another's value. */
  lemma {:induction false} FilterMapConcat<T, U>(a: seq<T>, b: seq<T>, f: T -> Option<U>)
    ensures FilterMap(a + b, f) == FilterMap(a, f) + FilterMap(b, f)
  {
    if |b| == 0 {
      assert a + b == a;
    } else {
      var n := |b| - 1;
      FilterMapConcat(a, b[..n], f);
      assert (a + b)[..|a + b| - 1] == a + b[..n];
      assert (a + b)[|a + b| - 1] == b[n];
    }
  }

  /** `PointOf` for one query, as a function of the row. */
  function PointFn(measure: string, ps: Parsers): DataRow -> Option<Point> {
    row => PointOf(row, measure, ps)
  }

  /** The points of the rows that parse, in row order. */
  function KeptPoints(rows: seq<DataRow>, measure: string, ps: Parsers): seq<Point> {
    FilterMap(rows, PointFn(measure, ps))
  }

  /** The positions of the rows that parse. */
  function KeptIndices(rows: seq<DataRow>, measure: string, ps: Parsers): seq<nat> {
    FilterIndices(rows, PointFn(measure, ps))
  }

  function Labels(points: seq<Point>): (r: seq<Instant>)
    ensures |r| == |points| && forall k :: 0 <= k < |points| ==> r[k] == points[k].time
  {
    seq(|points|, k requires 0 <= k < |points| => points[k].time)
  }

  function Values(points: seq<Point>): (r: seq<real>)
    ensures |r| == |points| && forall k :: 0 <= k < |points| ==> r[k] == points[k].value
  {
    seq(|points|, k requires 0 <= k < |points| => points[k].value)
  }

  /**
   * The kept points are an order-preserving subsequence of the rows, no
   * longer than the rows: the j-th kept point comes from row
   * `KeptIndices[j]`, the indices increase, and a row's index is among them
   * exactly when both its date and its value parse.
   */
  lemma KeptIsParsedSubsequence(rows: seq<DataRow>, measure: string, ps: Parsers)
    ensures |KeptIndices(rows, measure, ps)| == |KeptPoints(rows, measure, ps)| <= |rows|
    ensures forall j :: 0 <= j < |KeptIndices(rows, measure, ps)| ==>
      && KeptIndices(rows, measure, ps)[j] < |rows|
      && PointOf(rows[KeptIndices(rows, measure, ps)[j]], measure, ps) == Some(KeptPoints(rows, measure, ps)[j])
      && KeptPoints(rows, measure, ps)[j] ==
           Point(ParseDateString(rows[KeptIndices(rows, measure, ps)[j]].dateTime, ps).value,
                 MeasureValue(rows[KeptIndices(rows, measure, ps)[j]], measure, ps).value)
    ensures forall j1, j2 :: 0 <= j1 < j2 < |KeptIndices(rows, measure, ps)| ==>
      KeptIndices(rows, measure, ps)[j1] < KeptIndices(rows, measure, ps)[j2]
    ensures forall i :: 0 <= i < |rows| ==>
      (i in KeptIndices(rows, measure, ps) <==>
        ParseDateString(rows[i].dateTime, ps).Some? && MeasureValue(rows[i], measure, ps).Some?)
  {
    FilterIsSubsequence(rows, PointFn(measure, ps));
    FilterIndicesExactly(rows, PointFn(measure, ps));
  }

  /**
   * A row whose date or value does not parse is dropped and the rows after
   * it are still assembled; a row that parses contributes its point in place.
   */
  lemma RowKeptExactlyWhenParsed(before: seq<DataRow>, row: DataRow, after: seq<DataRow>, measure: string, ps: Parsers)
    ensures PointOf(row, measure, ps).None? ==>
      KeptPoints(before + [row] + after, measure, ps) == KeptPoints(before, measure, ps) + KeptPoints(after, measure, ps)
    ensures PointOf(row, measure, ps).Some? ==>
      KeptPoints(before + [row] + after, measure, ps) ==
        KeptPoints(before, measure, ps) + [PointOf(row, measure, ps).value] + KeptPoints(after, measure, ps)
  {
    FilterMapConcat(before + [row], after, PointFn(measure, ps));
    FilterMapConcat(before, [row], PointFn(measure, ps));
    assert [row][..0] == [];
  }

  /**
   * The loop of the success handler: for each row, parse its date and its
   * value and push both onto the two arrays only when both parse.
   */
  method AssembleSeries(rows: seq<DataRow>, measure: string, ps: Parsers) returns (labels: seq<Instant>, values: seq<real>)
    ensures |labels| == |values| == |KeptPoints(rows, measure, ps)|
    ensures forall k :: 0 <= k < |labels| ==> KeptPoints(rows, measure, ps)[k] == Point(labels[k], values[k])
  {
    labels, values := [], [];
    var i := 0;
    while i < |rows|
      invariant 0 <= i <= |rows|
      invariant |labels| == |values| == |KeptPoints(rows[..i], measure, ps)|
      invariant forall k :: 0 <= k < |labels| ==> KeptPoints(rows[..i], measure, ps)[k] == Point(labels[k], values[k])
    {
      var dateStr := rows[i].dateTime;
      var dateObj := ParseDateString(dateStr, ps);
      var valueNum := MeasureValue(rows[i], measure, ps);
      assert rows[..i + 1][..i] == rows[..i];
      if dateObj.Some? && valueNum.Some? {
        labels := labels + [dateObj.value];
        values := values + [valueNum.value];
      }
      i := i + 1;
    }
    assert rows[..|rows|] == rows;
  }

  // ---------------------------------------------------------------------------
  // The request guard
  // ---------------------------------------------------------------------------

  /** The query the page posts (the `fetch_weather_data_for_graph` action). */
  datatype Request = Request(stationId: string, measure: string, timeRange: string)

  /** JavaScript truthiness of a select's value: neither null nor the empty string. */
  predicate Truthy(v: Option<string>) {
    v.Some? && v.value != ""
  }

  /** The request sent for the three selections, or None when one is unselected. */
  function RequestFor(stationId: Option<string>, measure: Option<string>, timeRange: Option<string>): Option<Request> {
    if !Truthy(stationId) || !Truthy(measure) || !Truthy(timeRange) then None
    else Some(Request(stationId.value, measure.value, timeRange.value))
  }

  // ---------------------------------------------------------------------------
  // The page's chart instance
  // ---------------------------------------------------------------------------

  /** The response envelope: its success flag and its rows. */
  datatype Response = Response(success: bool, data: seq<DataRow>)

  /** A drawn line chart of one measure; `destroyed` once `destroy()` was called on it. */
  datatype Chart = Chart(measure: string, labels: seq<Instant>, values: seq<real>, destroyed: bool)

  predicate HasData(response: Response) {
    response.success && |response.data| > 0
  }

  /**
   * `if (window.myChart) window.myChart.destroy()`: the reference stays and
   * the chart is destroyed; its measure and data are kept as they were.
   */
  function DestroyIfAny(chart: Option<Chart>): (r: Option<Chart>)
    ensures r.Some? <==> chart.Some?
    ensures r.Some? ==> r.value.destroyed
    ensures r.Some? ==> r.value.measure == chart.value.measure
    ensures r.Some? ==> r.value.labels == chart.value.labels && r.value.values == chart.value.values
  {
    if chart.Some? then Some(chart.value.(destroyed := true)) else None
  }

  /**
   * The chart the page holds after handling `response` for `measure`. A
   * response with rows always leaves a live chart of that measure whose k-th
   * label and value are the k-th kept point; an empty or failed one leaves no
   * live chart and draws nothing new.
   */
  function AfterResponse(prior: Option<Chart>, response: Response, measure: string, ps: Parsers): (c: Option<Chart>)
    ensures HasData(response) ==>
      && c.Some? && !c.value.destroyed && c.value.measure == measure
      && |c.value.labels| == |c.value.values| == |KeptPoints(response.data, measure, ps)| <= |response.data|
      && forall k :: 0 <= k < |c.value.labels| ==>
           Point(c.value.labels[k], c.value.values[k]) == KeptPoints(response.data, measure, ps)[k]
    ensures !HasData(response) ==>
      && (c.None? || c.value.destroyed)
      && (c.Some? <==> prior.Some?)
      && (c.Some? ==> c.value.labels == prior.value.labels && c.value.values == prior.value.values)
      && (c.Some? ==> c.value.measure == prior.value.measure)
  {
    if HasData(response) then
      var points := KeptPoints(response.data, measure, ps);
      Some(Chart(measure, Labels(points), Values(points), false))
    else DestroyIfAny(prior)
  }

  class GraphView {
    /** `window.myChart`. */
    var myChart: Option<Chart>
    /** The charts destroyed to make way for a new one, oldest first. */
    ghost var replaced: seq<Chart>

    constructor ()
      ensures myChart == None && replaced == []
    {
      myChart := None;
      replaced := [];
    }

    /** The chart `OnResponse` destroys before drawing a new one, if any. */
    ghost function ReplacedBy(prior: Option<Chart>, response: Response): seq<Chart> {
      if HasData(response) && prior.Some? then [DestroyIfAny(prior).value] else []
    }

    /** The AJAX success handler for a query about `measure`. */
    method OnResponse(response: Response, measure: string, ps: Parsers)
      modifies this
      ensures myChart == AfterResponse(old(myChart), response, measure, ps)
      ensures replaced == old(replaced) + ReplacedBy(old(myChart), response)
    {
      if response.success && |response.data| > 0 {
        var labels, values := AssembleSeries(response.data, measure, ps);
        var points := KeptPoints(response.data, measure, ps);
        assert labels == Labels(points) && values == Values(points);
        if myChart.Some? {
          myChart := DestroyIfAny(myChart);
          replaced := replaced + [myChart.value];
        }
        myChart := Some(Chart(measure, labels, values, false));
      } else {
        if myChart.Some? {
          myChart := DestroyIfAny(myChart);
        }
      }
    }

    /**
     * `fetchWeatherDataAndRenderGraph`: no request and no change unless all
     * three selections are made; an AJAX error (the server gives None) only
     * logs; a delivered response is handled by `OnResponse`.
     */
    method Refresh(stationId: Option<string>, measure: Option<string>, timeRange: Option<string>,
                   server: Request -> Option<Response>, ps: Parsers)
      modifies this
      ensures !(Truthy(stationId) && Truthy(measure) && Truthy(timeRange)) ==>
        myChart == old(myChart) && replaced == old(replaced)
      ensures Truthy(stationId) && Truthy(measure) && Truthy(timeRange) ==>
        var request := Request(stationId.value, measure.value, timeRange.value);
        myChart == match server(request)
          case None => old(myChart)
          case Some(response) => AfterResponse(old(myChart), response, request.measure, ps)
      ensures Truthy(stationId) && Truthy(measure) && Truthy(timeRange) ==>
        var request := Request(stationId.value, measure.value, timeRange.value);
        replaced == old(replaced) + match server(request)
          case None => []
          case Some(response) => ReplacedBy(old(myChart), response)
    {
      var request := RequestFor(stationId, measure, timeRange);
      if request.None? {
        return;
      }
      var response := server(request.value);
      if response.Some? {
        OnResponse(response.value, request.value.measure, ps);
      }
    }
  }
}
