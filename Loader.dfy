/**
 * load_series: one delimited file turned into a monthly series.  The header
 * names are cleaned, the date cells stripped, textual values converted from
 * decimal-comma notation, Spanish month abbreviations translated when the
 * dates are written "mmm-yy", the dates parsed, the first row of each date
 * kept, the rows sorted by date, the series reindexed onto every day between
 * its first and last date, forward filled, and reduced to the median of each
 * calendar month.
 *
 * Reading the file and parsing dates and numbers are not modelled here: the
 * table arrives already split into columns, and the two parsers are
 * parameters.
 */
module Loader {
  import opened Results
  import opened Calendar
  import opened Text
  import opened TimeSeries

  // ---------------------------------------------------------------------------
  // The table as read from the file

  /**
   * A column as the reader types it: a numeric column, or an object column of
   * text cells.  None is an empty cell (NaN).
   */
  datatype Column = NumberColumn(numbers: seq<Option<real>>) | TextColumn(texts: seq<Option<string>>)

  function Height(c: Column): nat {
    match c
    case NumberColumn(xs) => |xs|
    case TextColumn(ts) => |ts|
  }

  /** Header names (already made unique by the reader), one column per name, all of one height. */
  datatype RawTable = RawTable(headers: seq<string>, columns: seq<Column>, height: nat)

  predicate WellFormed(t: RawTable) {
    |t.headers| == |t.columns| && forall c :: 0 <= c < |t.columns| ==> Height(t.columns[c]) == t.height
  }

  type Table = t: RawTable | WellFormed(t) witness RawTable([], [], 0)

  /** Why loading fails: each is an exception raised by the source. */
  datatype LoadError =
    | MissingColumn(name: string)       // the column is not in the table
    | AmbiguousColumn(name: string)     // several columns carry the name after cleaning
    | NotTextColumn(name: string)       // the date column has no text cells to strip or match
    | NotNumber(cell: string)           // a textual value does not convert to a number
    | NoValidDates                      // no date parsed, so the daily range has no ends

  /** to_datetime with an optional format; None is NaT (the parse was coerced). */
  type DateParser = (Option<string>, string) -> Option<Date>

  /** float() of a text; None when it raises. */
  type FloatParser = string -> Option<real>

  // ---------------------------------------------------------------------------
  // Header names and column lookup

  /** A header name with each line break turned into a space. */
  function CleanHeader(h: string): (r: string)
    ensures |r| == |h|
    ensures forall i :: 0 <= i < |h| ==> r[i] == if h[i] == '\n' then ' ' else h[i]
    ensures forall i :: 0 <= i < |r| ==> r[i] != '\n'
  {
    ReplaceCharAt(h, "\n", " ");
    ReplaceAll(h, "\n", " ")
  }

  function CleanHeaders(hs: seq<string>): (r: seq<string>)
    ensures |r| == |hs| && forall i :: 0 <= i < |hs| ==> r[i] == CleanHeader(hs[i])
  {
    seq(|hs|, i requires 0 <= i < |hs| => CleanHeader(hs[i]))
  }

  /** The positions holding `name`, in increasing order. */
  function Positions(hs: seq<string>, name: string): (ps: seq<nat>)
    ensures forall k :: 0 <= k < |ps| ==> ps[k] < |hs| && hs[ps[k]] == name
    ensures forall i :: 0 <= i < |hs| && hs[i] == name ==> i in ps
    ensures forall k, l :: 0 <= k < l < |ps| ==> ps[k] < ps[l]
    decreases |hs|
  {
    if hs == [] then []
    else
      var init := hs[..|hs| - 1];
      var p := Positions(init, name);
      if hs[|hs| - 1] == name then p + [|hs| - 1] else p
  }

  /**
   * Selecting a column by name: the position of the one column with that
   * name, an error naming it when there is none, and an error when several
   * columns share it.
   */
  function FindColumn(hs: seq<string>, name: string): (r: Result<nat, LoadError>)
    ensures r.Ok? ==> r.value < |hs| && hs[r.value] == name
    ensures r.Ok? ==> forall j :: 0 <= j < |hs| && j != r.value ==> hs[j] != name
    ensures r == Err(MissingColumn(name)) <==> name !in hs
    ensures r == Err(AmbiguousColumn(name)) <==> exists i, j :: 0 <= i < j < |hs| && hs[i] == name && hs[j] == name
    ensures r.Err? ==> r.error == MissingColumn(name) || r.error == AmbiguousColumn(name)
  {
    var ps := Positions(hs, name);
    if |ps| == 0 then
      Err(MissingColumn(name))
    else if |ps| == 1 then
      assert forall j :: 0 <= j < |hs| && hs[j] == name ==> j == ps[0];
      Ok(ps[0])
    else
      assert hs[ps[0]] == name && hs[ps[1]] == name;
      Err(AmbiguousColumn(name))
  }

  // ---------------------------------------------------------------------------
  // Values

  /** A textual value with its decimal comma turned into a point; nothing else changes. */
  function Decimalize(s: string): (r: string)
    ensures |r| == |s|
    ensures forall i :: 0 <= i < |s| ==> r[i] == if s[i] == ',' then '.' else s[i]
    ensures forall i :: 0 <= i < |r| ==> r[i] != ','
  {
    ReplaceCharAt(s, ",", ".");
    ReplaceAll(s, ",", ".")
  }

  /**
   * Converting an object column to numbers: empty cells stay NaN, every text
   * is decimalised and converted, and the conversion fails on the first text
   * that is no number.
   */
  function ConvertCells(ts: seq<Option<string>>, toFloat: FloatParser): (r: Result<seq<Option<real>>, LoadError>)
    ensures r.Ok? <==> forall i :: 0 <= i < |ts| && ts[i].Some? ==> toFloat(Decimalize(ts[i].value)).Some?
    ensures r.Ok? ==> |r.value| == |ts|
    ensures r.Ok? ==> forall i :: 0 <= i < |ts| ==>
      r.value[i] == if ts[i].None? then None else toFloat(Decimalize(ts[i].value))
    ensures r.Err? ==> exists i :: 0 <= i < |ts| && ts[i].Some? &&
                                   toFloat(Decimalize(ts[i].value)).None? && r.error == NotNumber(ts[i].value)
  {
    if ts == [] then Ok([])
    else
      var head := if ts[0].None? then Ok(None)
        else match toFloat(Decimalize(ts[0].value))
          case None => Err(NotNumber(ts[0].value))
          case Some(x) => Ok(Some(x));
      if head.Err? then head.PropagateFailure()
      else
        var rest := ConvertCells(ts[1..], toFloat);
        assert forall i :: 1 <= i < |ts| ==> ts[i] == ts[1..][i - 1];
        if rest.Err? then
          var i :| 0 <= i < |ts[1..]| && ts[1..][i].Some? && toFloat(Decimalize(ts[1..][i].value)).None? &&
            rest.error == NotNumber(ts[1..][i].value);
          assert ts[i + 1] == ts[1..][i];
          rest
        else
          Ok([head.value] + rest.value)
  }

  /** The value column as numbers: a numeric column as it is, an object column converted. */
  function ValuesOf(c: Column, toFloat: FloatParser): (r: Result<seq<Option<real>>, LoadError>)
    ensures r.Ok? ==> |r.value| == Height(c)
    ensures c.NumberColumn? ==> r == Ok(c.numbers)
  {
    match c
    case NumberColumn(xs) => Ok(xs)
    case TextColumn(ts) => ConvertCells(ts, toFloat)
  }

  // ---------------------------------------------------------------------------
  // Dates

  /** The date column's text cells; a numeric column has none. */
  function TextCells(c: Column, name: string): (r: Result<seq<Option<string>>, LoadError>)
    ensures r.Ok? <==> c.TextColumn?
    ensures r.Ok? ==> r.value == c.texts
    ensures r.Err? ==> r.error == NotTextColumn(name)
  {
    match c
    case NumberColumn(_) => Err(NotTextColumn(name))
    case TextColumn(ts) => Ok(ts)
  }

  /** Every text cell stripped of surrounding white space; empty cells stay empty. */
  function StripCells(ts: seq<Option<string>>): (r: seq<Option<string>>)
    ensures |r| == |ts|
    ensures forall i :: 0 <= i < |ts| ==> r[i].Some? == ts[i].Some?
    ensures forall i :: 0 <= i < |ts| && ts[i].Some? ==>
      (r[i].value == [] || (!IsSpace(r[i].value[0]) && !IsSpace(r[i].value[|r[i].value| - 1])))
    ensures forall i :: 0 <= i < |ts| && ts[i].Some? ==>
      exists a, b :: 0 <= a <= b <= |ts[i].value| && r[i].value == ts[i].value[a..b] &&
        AllSpace(ts[i].value[..a]) && AllSpace(ts[i].value[b..])
  {
    seq(|ts|, i requires 0 <= i < |ts| => if ts[i].None? then None else Some(Strip(ts[i].value)))
  }

  /** Some date cell reads as a Spanish month abbreviation, a dash and a two-digit year. */
  predicate HasMonthYear(ts: seq<Option<string>>) {
    exists i :: 0 <= i < |ts| && ts[i].Some? && MatchesMonthYear(ts[i].value, Keys(SpanishMonths))
  }

  function TranslateCells(ts: seq<Option<string>>): (r: seq<Option<string>>)
    ensures |r| == |ts|
  {
    SpanishMonthsLetterKeyed();
    seq(|ts|, i requires 0 <= i < |ts| => if ts[i].None? then None else Some(Translate(ts[i].value, SpanishMonths)))
  }

  /** The month names are translated in every cell, but only when some cell is a Spanish "mmm-yy" date. */
  function Localize(ts: seq<Option<string>>): (r: seq<Option<string>>)
    ensures |r| == |ts|
  {
    if HasMonthYear(ts) then TranslateCells(ts) else ts
  }

  /** Without a Spanish "mmm-yy" date in the column, no cell is touched. */
  lemma LocalizeUntouched(ts: seq<Option<string>>)
    requires forall i :: 0 <= i < |ts| && ts[i].Some? ==> !MatchesMonthYear(ts[i].value, Keys(SpanishMonths))
    ensures Localize(ts) == ts
  {
  }

  /**
   * With one, every cell that is a Spanish abbreviation followed by text
   * without lower-case letters gets the English abbreviation, and cells
   * without lower-case letters (dd/mm/yyyy dates, say) are left as they are.
   */
  lemma LocalizeTranslates(ts: seq<Option<string>>, i: int)
    requires HasMonthYear(ts) && 0 <= i < |ts|
    ensures forall k, rest :: k in Keys(SpanishMonths) && NoKeyChar(rest) && ts[i] == Some(k + rest) ==>
      Localize(ts)[i] == Some(Lookup(k, SpanishMonths) + rest)
    ensures ts[i].Some? && NoKeyChar(ts[i].value) ==> Localize(ts)[i] == ts[i]
  {
    SpanishMonthsLetterKeyed();
    assert Localize(ts)[i] == if ts[i].None? then None else Some(Translate(ts[i].value, SpanishMonths));
    forall k, rest | k in Keys(SpanishMonths) && NoKeyChar(rest) && ts[i] == Some(k + rest)
      ensures Localize(ts)[i] == Some(Lookup(k, SpanishMonths) + rest)
    {
      KeyDateTranslated(SpanishMonths, k, rest);
    }
    if ts[i].Some? && NoKeyChar(ts[i].value) {
      TranslateKeyFree(ts[i].value, SpanishMonths);
    }
  }

  /** to_datetime over the column: an empty cell is NaT, a text is parsed with the format. */
  function ParseDates(ts: seq<Option<string>>, fmt: Option<string>, parseDate: DateParser): (r: seq<Option<Date>>)
    ensures |r| == |ts|
    ensures forall i :: 0 <= i < |ts| && ts[i].None? ==> r[i].None?
    ensures forall i :: 0 <= i < |ts| && ts[i].Some? ==> r[i] == parseDate(fmt, ts[i].value)
  {
    seq(|ts|, i requires 0 <= i < |ts| => if ts[i].None? then None else parseDate(fmt, ts[i].value))
  }

  function Records(dates: seq<Option<Date>>, values: seq<Option<real>>): (rs: seq<Record>)
    requires |dates| == |values|
    ensures |rs| == |dates|
  {
    seq(|dates|, i requires 0 <= i < |dates| => Record(dates[i], values[i]))
  }

  // ---------------------------------------------------------------------------
  // From rows to the monthly series

  /** The calendar of the observations: every day from the first to the last. */
  function DailyDays(ps: seq<Point>): (days: seq<Date>)
    requires Increasing(ps) && |ps| > 0
    ensures Consecutive(days) && |days| > 0
    ensures days[0] == ps[0].day && days[|days| - 1] == ps[|ps| - 1].day
  {
    assert |ps| > 1 ==> Before(ps[0].day, ps[|ps| - 1].day);
    DateRange(ps[0].day, ps[|ps| - 1].day)
  }

  /**
   * The rows after de-duplication, sorting, daily reindexing, forward
   * filling and monthly median resampling; an error when no date parsed.
   */
  function Series(rs: seq<Record>): (r: Result<seq<MonthValue>, LoadError>)
    ensures r.Err? ==> r.error == NoValidDates
  {
    var ps := Observations(rs);
    if ps == [] then Err(NoValidDates) else Ok(DailyToMonthly(ps))
  }

  /** The dated observations of the rows: the first row of each date, sorted, without NaT. */
  function Observations(rs: seq<Record>): (ps: seq<Point>)
    ensures Increasing(ps)
  {
    var sorted := SortByDate(KeepFirst(rs));
    ObservedIncreasing(sorted);
    Observed(sorted)
  }

  /** Observations on increasing days reindexed daily, filled, and resampled monthly. */
  function DailyToMonthly(ps: seq<Point>): seq<MonthValue>
    requires Increasing(ps) && |ps| > 0
  {
    var days := DailyDays(ps);
    ConsecutiveMonthSteps(days);
    MonthlyMedians(days, Filled(Reindexed(ps, days)))
  }

  /**
   * The months of a daily-to-monthly series: consecutive, from the first
   * observation's month to the last one's, with an entry for the month of
   * every observation.
   */
  lemma DailyToMonthlyMonths(ps: seq<Point>, k: int)
    requires Increasing(ps) && 0 <= k < |ps|
    ensures var r := DailyToMonthly(ps);
      r[0].month == MonthOf(ps[0].day) && r[|r| - 1].month == MonthOf(ps[|ps| - 1].day) &&
      |r| == MonthIndex(r[|r| - 1].month) - MonthIndex(r[0].month) + 1 &&
      (forall m :: 0 < m < |r| ==> MonthIndex(r[m].month) == MonthIndex(r[m - 1].month) + 1) &&
      0 <= MonthNo(ps[k].day) - MonthIndex(r[0].month) < |r| &&
      r[MonthNo(ps[k].day) - MonthIndex(r[0].month)].month == MonthOf(ps[k].day)
  {
    var days := DailyDays(ps);
    ConsecutiveMonthSteps(days);
    var vals := Filled(Reindexed(ps, days));
    assert DailyToMonthly(ps) == MonthlyMedians(days, vals);
    var t := DailyDaysCover(ps, k);
    MonthlyMediansMonths(days, vals, t);
  }

  /** Every observation's day has its place in the daily calendar. */
  lemma DailyDaysCover(ps: seq<Point>, k: int) returns (t: int)
    requires Increasing(ps) && 0 <= k < |ps|
    ensures 0 <= t < |DailyDays(ps)| && DailyDays(ps)[t] == ps[k].day
  {
    var d := ps[k].day;
    assert k > 0 ==> Before(ps[0].day, d);
    assert k < |ps| - 1 ==> Before(d, ps[|ps| - 1].day);
    DateRangeCovers(ps[0].day, ps[|ps| - 1].day, d);
    var days := DailyDays(ps);
    t :| 0 <= t < |days| && days[t] == d;
  }

  /**
   * The cleaned date cells and the numeric values of a table, once the
   * headers are cleaned, the date cells stripped and localised, and the
   * value column converted.
   */
  function Columns(t: Table, dateCol: string, valueCol: string, toFloat: FloatParser):
    (r: Result<(seq<Option<string>>, seq<Option<real>>), LoadError>)
    ensures r.Ok? ==> |r.value.0| == |r.value.1| == t.height
  {
    var headers := CleanHeaders(t.headers);
    var di :- FindColumn(headers, dateCol);
    var raw :- TextCells(t.columns[di], dateCol);
    var stripped := StripCells(raw);
    var vi :- FindColumn(headers, valueCol);
    var values :- ValuesOf(if vi == di then TextColumn(stripped) else t.columns[vi], toFloat);
    if vi == di then
      // the date column now holds numbers, which have no text to match
      Err(NotTextColumn(dateCol))
    else
      Ok((Localize(stripped), values))
  }

  /** The whole of load_series over a table already read. */
  function LoadSpec(t: Table, dateCol: string, valueCol: string, fmt: Option<string>,
                    parseDate: DateParser, toFloat: FloatParser): Result<seq<MonthValue>, LoadError>
  {
    var cv :- Columns(t, dateCol, valueCol, toFloat);
    Series(Records(ParseDates(cv.0, fmt, parseDate), cv.1))
  }

  /**
   * The rows' way to the monthly series, step by step: de-duplicate, sort,
   * take the dated observations, build the daily calendar, reindex onto it,
   * forward fill a buffer of the daily values in place, and resample.
   */
  method SeriesOf(rs: seq<Record>) returns (r: Result<seq<MonthValue>, LoadError>)
    ensures r == Series(rs)
  {
    var deduped := DropDuplicates(rs);
    var sorted := SortByDate(deduped);
    ObservedIncreasing(sorted);
    var ps := Observed(sorted);
    if ps == [] {
      return Err(NoValidDates);
    }
    assert |ps| > 1 ==> Before(ps[0].day, ps[|ps| - 1].day);
    var days := DailyCalendar(ps[0].day, ps[|ps| - 1].day);
    var vals := Reindex(ps, days);
    var daily := new Option<real>[|vals|](i requires 0 <= i < |vals| => vals[i]);
    assert daily[..] == vals;
    ForwardFill(daily);
    ConsecutiveMonthSteps(days);
    var monthly := ResampleMonthlyMedian(days, daily);
    return Ok(monthly);
  }

  /**
   * Lines 26-43 of load_series: the header names are cleaned, then the date
   * and value columns are reassigned in turn, as the source does.
   */
  method CleanColumns(t: Table, dateCol: string, valueCol: string, toFloat: FloatParser)
    returns (r: Result<(seq<Option<string>>, seq<Option<real>>), LoadError>)
    ensures r == Columns(t, dateCol, valueCol, toFloat)
  {
    var headers := CleanHeaders(t.headers);
    var columns := t.columns;
    var di :- FindColumn(headers, dateCol);
    var raw :- TextCells(columns[di], dateCol);
    columns := columns[di := TextColumn(StripCells(raw))];
    var vi :- FindColumn(headers, valueCol);
    if columns[vi].TextColumn? {
      var converted :- ConvertCells(columns[vi].texts, toFloat);
      columns := columns[vi := NumberColumn(converted)];
    }
    var cells :- TextCells(columns[di], dateCol);
    if HasMonthYear(cells) {
      columns := columns[di := TextColumn(TranslateCells(cells))];
    }
    return Ok((columns[di].texts, columns[vi].numbers));
  }

  /** load_series over a table already read. */
  method LoadSeries(t: Table, dateCol: string, valueCol: string, fmt: Option<string>,
                    parseDate: DateParser, toFloat: FloatParser) returns (r: Result<seq<MonthValue>, LoadError>)
    ensures r == LoadSpec(t, dateCol, valueCol, fmt, parseDate, toFloat)
  {
    var cv :- CleanColumns(t, dateCol, valueCol, toFloat);
    var dates := ParseDates(cv.0, fmt, parseDate);
    r := SeriesOf(Records(dates, cv.1));
  }

  // ---------------------------------------------------------------------------
  // What loading promises

  /** A name missing from the cleaned headers is reported, the date column first. */
  lemma LoadMissingDateColumn(t: Table, dateCol: string, valueCol: string, fmt: Option<string>,
                              parseDate: DateParser, toFloat: FloatParser)
    requires dateCol !in CleanHeaders(t.headers)
    ensures LoadSpec(t, dateCol, valueCol, fmt, parseDate, toFloat) == Err(MissingColumn(dateCol))
  {
  }

  /**
   * What the cleaned columns hold: the date cells are the date column's text
   * stripped and localised; a numeric value column is taken as it is, and a
   * textual one has each text decimalised and converted.
   */
  lemma ColumnsContents(t: Table, dateCol: string, valueCol: string, toFloat: FloatParser)
    requires Columns(t, dateCol, valueCol, toFloat).Ok?
    ensures var hs := CleanHeaders(t.headers);
      var cv := Columns(t, dateCol, valueCol, toFloat).value;
      exists di, vi :: 0 <= di < |hs| && 0 <= vi < |hs| && di != vi && hs[di] == dateCol && hs[vi] == valueCol &&
        t.columns[di].TextColumn? && cv.0 == Localize(StripCells(t.columns[di].texts)) &&
        (t.columns[vi].NumberColumn? ==> cv.1 == t.columns[vi].numbers) &&
        (t.columns[vi].TextColumn? ==>
           |cv.1| == |t.columns[vi].texts| &&
           forall i :: 0 <= i < |cv.1| ==>
             cv.1[i] == if t.columns[vi].texts[i].None? then None else toFloat(Decimalize(t.columns[vi].texts[i].value)))
  {
    var hs := CleanHeaders(t.headers);
    var di := FindColumn(hs, dateCol).value;
    var vi := FindColumn(hs, valueCol).value;
    assert di != vi;
    var cv := Columns(t, dateCol, valueCol, toFloat).value;
    assert cv.1 == ValuesOf(t.columns[vi], toFloat).value;
  }

  /**
   * The observations behind a series are the parsed dates of the rows: every
   * row with a parsed date has its day among them, and every day among them
   * is the parsed date of some row.
   */
  lemma ObservedOfRows(rs: seq<Record>)
    ensures var ps := Observations(rs);
      forall i :: 0 <= i < |rs| && rs[i].date.Some? ==> exists k :: 0 <= k < |ps| && ps[k].day == rs[i].date.value
    ensures var ps := Observations(rs);
      forall k :: 0 <= k < |ps| ==> exists j :: 0 <= j < |rs| && rs[j].date == Some(ps[k].day)
  {
    var ps := Observations(rs);
    forall i | 0 <= i < |rs| && rs[i].date.Some?
      ensures exists k :: 0 <= k < |ps| && ps[k].day == rs[i].date.value
    {
      RowDateObserved(rs, i);
    }
    forall k | 0 <= k < |ps| ensures exists j :: 0 <= j < |rs| && rs[j].date == Some(ps[k].day) {
      ObservedDateOfRow(rs, k);
    }
  }

  lemma RowDateObserved(rs: seq<Record>, i: int)
    requires 0 <= i < |rs| && rs[i].date.Some?
    ensures var ps := Observations(rs);
      exists k :: 0 <= k < |ps| && ps[k].day == rs[i].date.value
  {
    var deduped := KeepFirst(rs);
    var sorted := SortByDate(deduped);
    assert rs[i].date in DatesOf(rs);
    assert DatesOf(sorted) == DatesOf(rs);
    ObservedHasDate(sorted, rs[i].date.value);
    var ps := Observed(sorted);
    var k :| 0 <= k < |ps| && ps[k].day == rs[i].date.value;
    assert ps == Observations(rs);
    assert exists k' :: 0 <= k' < |ps| && ps[k'].day == rs[i].date.value;
  }

  lemma ObservedDateOfRow(rs: seq<Record>, k: int)
    requires 0 <= k < |Observations(rs)|
    ensures var ps := Observations(rs);
      exists j :: 0 <= j < |rs| && rs[j].date == Some(ps[k].day)
  {
    var sorted := SortByDate(KeepFirst(rs));
    ObservedDayIsDate(sorted, k);
  }

  /**
   * De-duplication keeps the first row of each date: every observation is a
   * row of the file, and no earlier row carries its date.
   */
  lemma ObservationIsFirstRow(rs: seq<Record>, k: int)
    requires 0 <= k < |Observations(rs)|
    ensures var p := Observations(rs)[k];
      exists j :: 0 <= j < |rs| && rs[j] == Record(Some(p.day), p.value) &&
        forall i :: 0 <= i < j ==> rs[i].date != Some(p.day)
  {
    var deduped := KeepFirst(rs);
    var sorted := SortByDate(deduped);
    var p := Observed(sorted)[k];
    assert p == Observations(rs)[k];
    var x := Record(Some(p.day), p.value);
    assert x in sorted;
    assert x in multiset(deduped) by { assert x in multiset(sorted); }
    var m :| 0 <= m < |deduped| && deduped[m] == x;
    var j := FirstIndex(rs, x.date);
    assert rs[j] == x;
  }

  /** The series fails with NoValidDates exactly when no row's date parsed. */
  lemma SeriesNoDates(rs: seq<Record>)
    ensures Series(rs).Err? <==> forall i :: 0 <= i < |rs| ==> rs[i].date.None?
  {
    var ps := Observations(rs);
    assert Series(rs).Err? <==> ps == [];
    if ps == [] {
      forall i | 0 <= i < |rs| ensures rs[i].date.None? {
        if rs[i].date.Some? {
          RowDateObserved(rs, i);
        }
      }
    } else {
      ObservedDateOfRow(rs, 0);
    }
  }

  /**
   * A loaded series runs month by month, without gaps, and the month of every
   * row with a parsed date has its entry.
   */
  lemma SeriesMonths(rs: seq<Record>, i: int)
    requires Series(rs).Ok? && 0 <= i < |rs| && rs[i].date.Some?
    ensures var r := Series(rs).value;
      |r| > 0 && |r| == MonthIndex(r[|r| - 1].month) - MonthIndex(r[0].month) + 1 &&
      (forall k :: 0 < k < |r| ==> MonthIndex(r[k].month) == MonthIndex(r[k - 1].month) + 1) &&
      MonthIndex(r[0].month) <= MonthNo(rs[i].date.value) <= MonthIndex(r[|r| - 1].month) &&
      r[MonthNo(rs[i].date.value) - MonthIndex(r[0].month)].month == MonthOf(rs[i].date.value)
  {
    var ps := Observations(rs);
    RowDateObserved(rs, i);
    var k :| 0 <= k < |ps| && ps[k].day == rs[i].date.value;
    DailyToMonthlyMonths(ps, k);
  }

  /** The series starts at the month of the earliest parsed date and ends at the month of the latest one. */
  lemma SeriesEnds(rs: seq<Record>)
    requires Series(rs).Ok?
    ensures var r := Series(rs).value;
      |r| > 0 &&
      (exists j :: 0 <= j < |rs| && rs[j].date.Some? && MonthOf(rs[j].date.value) == r[0].month) &&
      (exists j :: 0 <= j < |rs| && rs[j].date.Some? && MonthOf(rs[j].date.value) == r[|r| - 1].month)
  {
    var ps := Observations(rs);
    var r := DailyToMonthly(ps);
    assert Series(rs).value == r;
    DailyToMonthlyMonths(ps, 0);
    ObservedDateOfRow(rs, 0);
    var j0 :| 0 <= j0 < |rs| && rs[j0].date == Some(ps[0].day);
    assert MonthOf(rs[j0].date.value) == r[0].month;
    ObservedDateOfRow(rs, |ps| - 1);
    var j1 :| 0 <= j1 < |rs| && rs[j1].date == Some(ps[|ps| - 1].day);
    assert MonthOf(rs[j1].date.value) == r[|r| - 1].month;
  }

  /** Months numbered one after the other are strictly increasing. */
  lemma {:induction false} ConsecutiveMonthsIncrease(r: seq<MonthValue>, i: int, j: int)
    requires forall k :: 0 < k < |r| ==> MonthIndex(r[k].month) == MonthIndex(r[k - 1].month) + 1
    requires 0 <= i <= j < |r|
    ensures MonthIndex(r[j].month) == MonthIndex(r[i].month) + (j - i)
    decreases j - i
  {
    if i < j {
      ConsecutiveMonthsIncrease(r, i, j - 1);
    }
  }

  /** A loaded series is in strictly increasing month order. */
  lemma LoadIncreasing(t: Table, dateCol: string, valueCol: string, fmt: Option<string>,
                       parseDate: DateParser, toFloat: FloatParser)
    requires LoadSpec(t, dateCol, valueCol, fmt, parseDate, toFloat).Ok?
    ensures var r := LoadSpec(t, dateCol, valueCol, fmt, parseDate, toFloat).value;
      forall i, j :: 0 <= i < j < |r| ==> MonthIndex(r[i].month) < MonthIndex(r[j].month)
  {
    var cv := Columns(t, dateCol, valueCol, toFloat).value;
    var rs := Records(ParseDates(cv.0, fmt, parseDate), cv.1);
    var r := Series(rs).value;
    assert LoadSpec(t, dateCol, valueCol, fmt, parseDate, toFloat).value == r;
    DailyToMonthlyMonths(Observations(rs), 0);
    forall i, j | 0 <= i < j < |r| ensures MonthIndex(r[i].month) < MonthIndex(r[j].month) {
      ConsecutiveMonthsIncrease(r, i, j);
    }
  }
}
