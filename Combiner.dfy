/**
 * get_series: the registry of nine datasets, each loaded into a monthly
 * series and keyed by its file's stem and its value column; the series
 * placed side by side on the union of their months, the columns renamed to
 * nine fixed labels, the months with a missing value dropped; and the
 * choice of the output path, with a timestamp when the default one exists.
 *
 * The files' contents, the set of existing paths and the timestamp are
 * parameters; writing the file and printing are not modelled.
 */
module Combiner {
  import opened Results
  import opened Calendar
  import opened Text
  import opened TimeSeries
  import opened Panel
  import opened Loader

  // ---------------------------------------------------------------------------
  // POSIX paths

  /** os.path.join of two parts: an absolute second part replaces the first. */
  function Join(a: string, b: string): (r: string)
    ensures |b| <= |r| && r[|r| - |b|..] == b
    ensures |b| > 0 && b[0] == '/' ==> r == b
    ensures (|b| == 0 || b[0] != '/') && |a| > 0 && a[|a| - 1] != '/' ==> r == a + "/" + b
  {
    if |b| > 0 && b[0] == '/' then b
    else if a == [] || a[|a| - 1] == '/' then a + b
    else a + "/" + b
  }

  predicate NoSlash(s: string) {
    forall i :: 0 <= i < |s| ==> s[i] != '/'
  }

  /** os.path.basename: the text after the last slash (all of it when there is none). */
  function Basename(p: string): (r: string)
    ensures |r| <= |p| && p[|p| - |r|..] == r
    ensures NoSlash(r)
    ensures |r| < |p| ==> p[|p| - |r| - 1] == '/'
    decreases |p|
  {
    if p == [] || p[|p| - 1] == '/' then []
    else Basename(p[..|p| - 1]) + [p[|p| - 1]]
  }

  /** The name after a directory ending in a slash is the base name. */
  lemma BasenameAfterDir(dir: string, name: string)
    requires |dir| > 0 && dir[|dir| - 1] == '/' && NoSlash(name)
    ensures Basename(dir + name) == name
  {
    var p := dir + name;
    assert p[|p| - |name|..] == name;
  }

  /** Position of the last dot, or -1. */
  function LastDot(s: string): (d: int)
    ensures -1 <= d < |s|
    ensures d >= 0 ==> s[d] == '.'
    ensures forall j :: d < j < |s| ==> s[j] != '.'
    decreases |s|
  {
    if s == [] then -1
    else if s[|s| - 1] == '.' then |s| - 1
    else LastDot(s[..|s| - 1])
  }

  /**
   * os.path.splitext(name)[0] for a name without slashes: the name up to its
   * last dot, unless only dots come before that dot (".bashrc", "..x"), when
   * there is no extension to split off.
   */
  function Stem(name: string): (r: string)
    ensures |r| <= |name| && name[..|r|] == r
  {
    var d := LastDot(name);
    if d > 0 && exists i :: 0 <= i < d && name[i] != '.' then name[..d] else name
  }

  /** A name made of a base that does not start with a dot and one dotted extension loses exactly the extension. */
  lemma StemOf(base: string, ext: string)
    requires |base| > 0 && base[0] != '.'
    requires |ext| > 0 && ext[0] == '.' && forall i :: 0 < i < |ext| ==> ext[i] != '.'
    ensures Stem(base + ext) == base
  {
    var name := base + ext;
    var d := LastDot(name);
    assert name[|base|] == '.';
    assert forall j :: |base| < j < |name| ==> name[j] == ext[j - |base|];
    assert d == |base|;
    assert name[0] == base[0];
    assert name[..d] == base;
  }

  // ---------------------------------------------------------------------------
  // The registry

  /** The keyword arguments load_series receives for one dataset. */
  datatype Descriptor = Descriptor(filePath: string, dateCol: string, valueCol: string, dateFormat: string)

  const BaseDir: string := "data"

  /** The path of the CSV file `stem.csv` under the raw-data directory. */
  function RawCsv(stem: string): string {
    Join(BaseDir, "raw/" + stem + ".csv")
  }

  const Registry: seq<Descriptor> := [
    Descriptor(RawCsv("exchange_rate"), "Mes", "Tipo de cambio nominal promedio mensual", "%b-%y"),
    Descriptor(RawCsv("informal_exchange_rate"), "Fecha", "Venta", "%d/%m/%Y"),
    Descriptor(RawCsv("inflation_data"), "Fecha", "Valor", "%d/%m/%Y"),
    Descriptor(RawCsv("M2_variation"), "Fecha", "Valor", "%d/%m/%Y"),
    Descriptor(RawCsv("interest_rate"), "Fecha", "Valor", "%d/%m/%Y"),
    Descriptor(RawCsv("IPMP"), "Período", "IPMP (dic-01=100)", "%b-%y"),
    Descriptor(RawCsv("IPMP"), "Período", "IPMP Agropecuario (dic-01=100)", "%b-%y"),
    Descriptor(RawCsv("IPMP"), "Período", "IPMP Metales (dic-01=100)", "%b-%y"),
    Descriptor(RawCsv("IPMP"), "Período", "IPMP Petróleo (dic-01=100)", "%b-%y")
  ]

  /** The column labels of the combined table, in registry order. */
  const Labels: seq<string> := [
    "Official Exchange Rate", "Informal Exchange Rate", "Inflation", "Monetary Supply (M2)", "Interest Rate",
    "General IPMP", "Agriculture IPMP", "Metals IPMP", "Crude Oil IPMP"
  ]

  /** The key of a dataset: its file's stem, an underscore, and its value column. */
  function Key(ds: Descriptor): string {
    Stem(Basename(ds.filePath)) + "_" + ds.valueCol
  }

  /** The path of a raw CSV file is the raw-data directory followed by the file name. */
  lemma RawCsvPath(stem: string)
    ensures RawCsv(stem) == "data/raw/" + (stem + ".csv")
  {
    var b := "raw/" + stem + ".csv";
    assert b[0] == 'r';
    assert Join(BaseDir, b) == BaseDir + "/" + b;
    assert BaseDir + "/" + b == "data/raw/" + (stem + ".csv");
  }

  /** The key of a raw CSV file is its stem, an underscore and the value column. */
  lemma RawCsvKey(stem: string, ds: Descriptor)
    requires ds.filePath == RawCsv(stem)
    requires NoSlash(stem) && |stem| > 0 && stem[0] != '.'
    ensures Key(ds) == stem + "_" + ds.valueCol
  {
    var name := stem + ".csv";
    assert NoSlash(name) by {
      forall i | 0 <= i < |name| ensures name[i] != '/' {
        if i < |stem| { assert name[i] == stem[i]; }
      }
    }
    RawCsvPath(stem);
    BasenameAfterDir("data/raw/", name);
    StemOf(stem, ".csv");
  }

  /** The lengths of the nine keys, in registry order: nine different numbers. */
  const KeyLengths: seq<nat> := [53, 28, 20, 18, 19, 22, 35, 30, 31]

  lemma KeyLengthsDistinct(i: int, j: int)
    requires 0 <= i < j < |KeyLengths|
    ensures KeyLengths[i] != KeyLengths[j]
  {
  }

  lemma RegistryKeyLength(i: int)
    requires 0 <= i < |Registry|
    ensures |Key(Registry[i])| == KeyLengths[i]
  {
    if i < 5 { RegistryKeyLengthSingle(i); } else { RegistryKeyLengthPrices(i); }
  }

  /** The five datasets that have a file of their own. */
  lemma RegistryKeyLengthSingle(i: int)
    requires 0 <= i < 5
    ensures |Key(Registry[i])| == KeyLengths[i]
  {
    var ds := Registry[i];
    if i == 0 { RawCsvKeyLength("exchange_rate", ds, 53); }
    else if i == 1 { RawCsvKeyLength("informal_exchange_rate", ds, 28); }
    else if i == 2 { RawCsvKeyLength("inflation_data", ds, 20); }
    else if i == 3 { RawCsvKeyLength("M2_variation", ds, 18); }
    else { RawCsvKeyLength("interest_rate", ds, 19); }
  }

  /** The four price indices read from the one IPMP file. */
  lemma RegistryKeyLengthPrices(i: int)
    requires 5 <= i < |Registry|
    ensures |Key(Registry[i])| == KeyLengths[i]
  {
    var ds := Registry[i];
    if i == 5 { RawCsvKeyLength("IPMP", ds, 22); }
    else if i == 6 { RawCsvKeyLength("IPMP", ds, 35); }
    else if i == 7 { RawCsvKeyLength("IPMP", ds, 30); }
    else { RawCsvKeyLength("IPMP", ds, 31); }
  }

  lemma RawCsvKeyLength(stem: string, ds: Descriptor, n: nat)
    requires ds.filePath == RawCsv(stem)
    requires NoSlash(stem) && |stem| > 0 && stem[0] != '.'
    requires |stem| + 1 + |ds.valueCol| == n
    ensures |Key(ds)| == n
  {
    RawCsvKey(stem, ds);
  }

  /**
   * The nine keys are pairwise distinct, so no loaded series overwrites
   * another in the dictionary of series.
   */
  lemma RegistryKeysDistinct()
    ensures forall i, j :: 0 <= i < j < |Registry| ==> Key(Registry[i]) != Key(Registry[j])
  {
    forall i, j | 0 <= i < j < |Registry| ensures Key(Registry[i]) != Key(Registry[j]) {
      RegistryKeyLength(i);
      RegistryKeyLength(j);
      KeyLengthsDistinct(i, j);
    }
  }

  // ---------------------------------------------------------------------------
  // The dictionary of series

  /** A loaded series under its name, the value column it was read from. */
  datatype Named = Named(name: string, months: seq<MonthValue>)

  type Entry = (string, Named)

  function KeysOf(d: seq<Entry>): (ks: seq<string>)
    ensures |ks| == |d| && forall i :: 0 <= i < |d| ==> ks[i] == d[i].0
  {
    seq(|d|, i requires 0 <= i < |d| => d[i].0)
  }

  predicate Distinct<T(==)>(s: seq<T>) {
    forall i, j :: 0 <= i < j < |s| ==> s[i] != s[j]
  }

  /**
   * Storing into a dict: a new key goes at the end; an existing key keeps its
   * place and takes the new value.
   */
  function Insert(d: seq<Entry>, k: string, v: Named): (r: seq<Entry>)
    ensures k !in KeysOf(d) ==> r == d + [(k, v)]
    ensures k in KeysOf(d) ==> KeysOf(r) == KeysOf(d)
    ensures k in KeysOf(d) ==> |r| == |d| && forall i :: 0 <= i < |d| ==> r[i] == (if d[i].0 == k then (k, v) else d[i])
    ensures forall x :: x in KeysOf(r) <==> x in KeysOf(d) || x == k
    ensures Distinct(KeysOf(d)) ==> Distinct(KeysOf(r))
  {
    if k in KeysOf(d) then
      var r := seq(|d|, i requires 0 <= i < |d| => if d[i].0 == k then (k, v) else d[i]);
      assert KeysOf(r) == KeysOf(d);
      r
    else
      assert KeysOf(d + [(k, v)]) == KeysOf(d) + [k];
      d + [(k, v)]
  }

  /** The dict comprehension: the entries stored one after the other, later ones overwriting earlier ones. */
  function DictOf(entries: seq<Entry>): (d: seq<Entry>)
    ensures Distinct(KeysOf(d))
    ensures forall x :: x in KeysOf(d) <==> x in KeysOf(entries)
    decreases |entries|
  {
    if entries == [] then []
    else
      var init := entries[..|entries| - 1];
      var last := entries[|entries| - 1];
      assert KeysOf(entries) == KeysOf(init) + [last.0];
      Insert(DictOf(init), last.0, last.1)
  }

  /** With distinct keys, the dict holds every entry, in order. */
  lemma {:induction false} DictOfDistinct(entries: seq<Entry>)
    requires Distinct(KeysOf(entries))
    ensures DictOf(entries) == entries
    decreases |entries|
  {
    if entries != [] {
      var init := entries[..|entries| - 1];
      var last := entries[|entries| - 1];
      DistinctSnoc(entries);
      DictOfDistinct(init);
      assert DictOf(entries) == Insert(init, last.0, last.1);
      assert init + [last] == entries;
    }
  }

  /** Distinct keys stay distinct without the last entry, whose key is then new. */
  lemma DistinctSnoc(entries: seq<Entry>)
    requires entries != [] && Distinct(KeysOf(entries))
    ensures var init := entries[..|entries| - 1];
      Distinct(KeysOf(init)) && entries[|entries| - 1].0 !in KeysOf(init)
  {
    var init := entries[..|entries| - 1];
    var last := entries[|entries| - 1];
    assert KeysOf(entries) == KeysOf(init) + [last.0];
    assert Distinct(KeysOf(init)) by {
      forall i, j | 0 <= i < j < |init| ensures KeysOf(init)[i] != KeysOf(init)[j] {
        assert KeysOf(init)[i] == KeysOf(entries)[i] && KeysOf(init)[j] == KeysOf(entries)[j];
      }
    }
    forall i | 0 <= i < |init| ensures KeysOf(init)[i] != last.0 {
      assert KeysOf(entries)[i] == KeysOf(init)[i];
      assert KeysOf(entries)[|entries| - 1] == last.0;
    }
  }

  /** No entry after position `j` has the key of entry `j`. */
  predicate LastWithKey(entries: seq<Entry>, j: int) {
    0 <= j < |entries| && forall j' :: j < j' < |entries| ==> entries[j'].0 != entries[j].0
  }

  /** Every entry of `d` is an entry of `entries` that no later entry's key overrides. */
  predicate HoldsLast(entries: seq<Entry>, d: seq<Entry>) {
    forall i :: 0 <= i < |d| ==> exists j :: 0 <= j < |entries| && LastWithKey(entries, j) && entries[j] == d[i]
  }

  /** Every entry the dict holds is the last entry stored under its key: a later store overwrites an earlier one. */
  lemma {:induction false} DictOfLast(entries: seq<Entry>)
    ensures HoldsLast(entries, DictOf(entries))
    decreases |entries|
  {
    if entries != [] {
      var init := entries[..|entries| - 1];
      var last := entries[|entries| - 1];
      assert KeysOf(entries) == KeysOf(init) + [last.0];
      assert DictOf(entries) == Insert(DictOf(init), last.0, last.1);
      DictOfLast(init);
      InsertHoldsLast(init, DictOf(init), last);
      assert init + [last] == entries;
    }
  }

  /** Storing one more entry keeps every held entry the last of its key. */
  lemma InsertHoldsLast(init: seq<Entry>, d0: seq<Entry>, e: Entry)
    requires HoldsLast(init, d0)
    ensures HoldsLast(init + [e], Insert(d0, e.0, e.1))
  {
    var es := init + [e];
    var d := Insert(d0, e.0, e.1);
    forall i | 0 <= i < |d| ensures exists j :: 0 <= j < |es| && LastWithKey(es, j) && es[j] == d[i] {
      if d[i].0 == e.0 {
        assert d[i] == e;
        assert LastWithKey(es, |es| - 1) && es[|es| - 1] == d[i];
      } else {
        assert i < |d0| && d[i] == d0[i];
        var j :| 0 <= j < |init| && LastWithKey(init, j) && init[j] == d0[i];
        assert es[j] == d[i];
        forall j' | j < j' < |es| ensures es[j'].0 != es[j].0 {
          if j' < |init| {
            assert es[j'] == init[j'];
          }
        }
        assert LastWithKey(es, j);
      }
    }
  }

  /** A repeated key costs a series: the dict then holds fewer series than were loaded. */
  lemma {:induction false} DictOfRepeated(entries: seq<Entry>)
    requires !Distinct(KeysOf(entries))
    ensures |DictOf(entries)| < |entries|
    decreases |entries|
  {
    var init := entries[..|entries| - 1];
    var last := entries[|entries| - 1];
    assert KeysOf(entries) == KeysOf(init) + [last.0];
    DictOfAtMost(init);
    if last.0 !in KeysOf(init) {
      assert !Distinct(KeysOf(init)) by {
        var i, j :| 0 <= i < j < |entries| && KeysOf(entries)[i] == KeysOf(entries)[j];
        assert KeysOf(entries)[i] == KeysOf(init)[i];
        assert j < |entries| - 1;
        assert KeysOf(init)[i] == KeysOf(init)[j];
      }
      DictOfRepeated(init);
    }
  }

  lemma {:induction false} DictOfAtMost(entries: seq<Entry>)
    ensures |DictOf(entries)| <= |entries|
    decreases |entries|
  {
    if entries != [] {
      DictOfAtMost(entries[..|entries| - 1]);
    }
  }

  // ---------------------------------------------------------------------------
  // Side by side on the union of the months

  function MonthsOf(s: seq<MonthValue>): (ms: seq<YearMonth>)
    ensures |ms| == |s| && forall i :: 0 <= i < |s| ==> ms[i] == s[i].month
  {
    seq(|s|, i requires 0 <= i < |s| => s[i].month)
  }

  /** The months of `ms` not yet in `acc`, appended in order of first appearance. */
  function AddNew(acc: seq<YearMonth>, ms: seq<YearMonth>): (r: seq<YearMonth>)
    ensures acc <= r
    ensures forall m :: m in r <==> m in acc || m in ms
    ensures Distinct(acc) ==> Distinct(r)
    decreases |ms|
  {
    if ms == [] then acc
    else AddNew(if ms[0] in acc then acc else acc + [ms[0]], ms[1..])
  }

  /** Months already distinct are appended as they are. */
  lemma {:induction false} AddNewDistinct(acc: seq<YearMonth>, ms: seq<YearMonth>)
    requires Distinct(acc + ms)
    ensures AddNew(acc, ms) == acc + ms
    decreases |ms|
  {
    if ms != [] {
      assert (acc + ms)[|acc|] == ms[0];
      assert ms[0] !in acc by {
        forall i | 0 <= i < |acc| ensures acc[i] != ms[0] {
          assert (acc + ms)[i] == acc[i];
        }
      }
      assert acc + ms == (acc + [ms[0]]) + ms[1..];
      AddNewDistinct(acc + [ms[0]], ms[1..]);
    }
  }

  /** The index of the concatenation: the first series' months, then each later series' new months. */
  function UnionMonths(ns: seq<Named>): seq<YearMonth>
    decreases |ns|
  {
    if ns == [] then []
    else AddNew(UnionMonths(ns[..|ns| - 1]), MonthsOf(ns[|ns| - 1].months))
  }

  /** The index of the concatenation has no repeated month. */
  lemma {:induction false} UnionMonthsDistinct(ns: seq<Named>)
    ensures Distinct(UnionMonths(ns))
    decreases |ns|
  {
    if ns != [] {
      UnionMonthsDistinct(ns[..|ns| - 1]);
    }
  }

  /** A month is in the union exactly when some series has it. */
  lemma {:induction false} UnionMonthsMembers(ns: seq<Named>, m: YearMonth)
    ensures m in UnionMonths(ns) <==> exists c :: 0 <= c < |ns| && m in MonthsOf(ns[c].months)
    decreases |ns|
  {
    if ns != [] {
      var init := ns[..|ns| - 1];
      UnionMonthsMembers(init, m);
      assert UnionMonths(ns) == AddNew(UnionMonths(init), MonthsOf(ns[|ns| - 1].months));
      SomeSeriesSnoc(ns, m);
    }
  }

  ghost predicate SomeHas(ns: seq<Named>, m: YearMonth) {
    exists c :: 0 <= c < |ns| && m in MonthsOf(ns[c].months)
  }

  /** Some series has the month iff one of all but the last has it, or the last has it. */
  lemma SomeSeriesSnoc(ns: seq<Named>, m: YearMonth)
    requires ns != []
    ensures SomeHas(ns, m) <==> SomeHas(ns[..|ns| - 1], m) || m in MonthsOf(ns[|ns| - 1].months)
  {
    var init := ns[..|ns| - 1];
    assert forall c :: 0 <= c < |init| ==> init[c] == ns[c];
  }

  /** The union begins with the first series' months when those are distinct. */
  lemma {:induction false} UnionMonthsFirst(ns: seq<Named>)
    requires |ns| > 0 && Distinct(MonthsOf(ns[0].months))
    ensures MonthsOf(ns[0].months) <= UnionMonths(ns)
    decreases |ns|
  {
    if |ns| == 1 {
      assert ns[..0] == [];
      assert [] + MonthsOf(ns[0].months) == MonthsOf(ns[0].months);
      AddNewDistinct([], MonthsOf(ns[0].months));
    } else {
      var init := ns[..|ns| - 1];
      assert init[0] == ns[0];
      UnionMonthsFirst(init);
    }
  }

  /** The value a series has for a month: NaN when it has no such month. */
  function ValueAt(s: seq<MonthValue>, m: YearMonth): (v: Option<real>)
    ensures v.Some? ==> m in MonthsOf(s)
    ensures Distinct(MonthsOf(s)) ==> forall k :: 0 <= k < |s| && s[k].month == m ==> v == s[k].value
    decreases |s|
  {
    if s == [] then None
    else if s[0].month == m then s[0].value
    else
      var v := ValueAt(s[1..], m);
      assert MonthsOf(s) == [s[0].month] + MonthsOf(s[1..]);
      v
  }

  /** One row of the concatenation: the month and each series' value for it. */
  function RowAt(ns: seq<Named>, m: YearMonth): (r: Row)
    ensures r.month == m && |r.cells| == |ns|
    ensures forall c :: 0 <= c < |ns| ==> r.cells[c] == ValueAt(ns[c].months, m)
  {
    Row(m, seq(|ns|, c requires 0 <= c < |ns| => ValueAt(ns[c].months, m)))
  }

  function RowsAt(ns: seq<Named>, ms: seq<YearMonth>): (rows: seq<Row>)
    ensures |rows| == |ms| && forall i :: 0 <= i < |ms| ==> rows[i] == RowAt(ns, ms[i])
  {
    seq(|ms|, i requires 0 <= i < |ms| => RowAt(ns, ms[i]))
  }

  /** concat(axis=1): one column per series, named by it, one row per month of the union. */
  function Concat(ns: seq<Named>): Frame {
    Frame(seq(|ns|, c requires 0 <= c < |ns| => ns[c].name), RowsAt(ns, UnionMonths(ns)))
  }

  /** Why get_series fails: a missing file, a failed load, or a label list of the wrong length. */
  datatype Failure =
    | NoSuchFile(path: string)
    | LoadFailed(path: string, error: LoadError)
    | LengthMismatch(columns: nat, labels: nat)

  /** Assigning the column labels: their number must be the number of columns. */
  function Rename(f: Frame, labels: seq<string>): (r: Result<Frame, Failure>)
    ensures r.Ok? <==> |labels| == |f.columns|
    ensures r.Ok? ==> r.value == Frame(labels, f.rows)
  {
    if |labels| != |f.columns| then Err(LengthMismatch(|f.columns|, |labels|))
    else Ok(Frame(labels, f.rows))
  }

  /** The series side by side, relabelled, without the months where any series is missing. */
  function Combine(ns: seq<Named>, labels: seq<string>): Result<Frame, Failure> {
    var f :- Rename(Concat(ns), labels);
    Ok(Frame(f.columns, DropIncomplete(f.rows)))
  }

  /**
   * The combined table is the inner join of the series on their months: a
   * month is a row exactly when every series has a value for it, and the
   * cells are those values, column by column.
   */
  lemma CombineJoin(ns: seq<Named>, labels: seq<string>, m: YearMonth)
    requires |ns| > 0 && Combine(ns, labels).Ok?
    ensures Combine(ns, labels).value.columns == labels
    ensures forall r :: r in Combine(ns, labels).value.rows ==> r == RowAt(ns, r.month) && Complete(r)
    ensures (exists r :: r in Combine(ns, labels).value.rows && r.month == m) <==>
      forall c :: 0 <= c < |ns| ==> ValueAt(ns[c].months, m).Some?
  {
    var rows := RowsAt(ns, UnionMonths(ns));
    assert Combine(ns, labels).value.rows == DropIncomplete(rows);
    JoinedRows(ns, UnionMonths(ns));
    JoinedMonth(ns, m);
  }

  /** The rows kept from the concatenation are each the full row of their month, without a gap. */
  lemma JoinedRows(ns: seq<Named>, ms: seq<YearMonth>)
    ensures forall r :: r in DropIncomplete(RowsAt(ns, ms)) ==> r == RowAt(ns, r.month) && Complete(r)
  {
    var rows := RowsAt(ns, ms);
    forall r | r in DropIncomplete(rows) ensures r == RowAt(ns, r.month) {
      var i :| 0 <= i < |rows| && rows[i] == r;
    }
  }

  /** A month has a kept row exactly when every series has a value there. */
  lemma JoinedMonth(ns: seq<Named>, m: YearMonth)
    requires |ns| > 0
    ensures (exists r :: r in DropIncomplete(RowsAt(ns, UnionMonths(ns))) && r.month == m) <==>
      forall c :: 0 <= c < |ns| ==> ValueAt(ns[c].months, m).Some?
  {
    var u := UnionMonths(ns);
    var rows := RowsAt(ns, u);
    if forall c :: 0 <= c < |ns| ==> ValueAt(ns[c].months, m).Some? {
      assert m in MonthsOf(ns[0].months);
      UnionMonthsMembers(ns, m);
      var i :| 0 <= i < |u| && u[i] == m;
      assert rows[i] == RowAt(ns, m);
      assert Complete(rows[i]);
      assert rows[i] in rows;
    }
    if exists r :: r in DropIncomplete(rows) && r.month == m {
      var r :| r in DropIncomplete(rows) && r.month == m;
      JoinedRows(ns, u);
      forall c | 0 <= c < |ns| ensures ValueAt(ns[c].months, m).Some? {
        assert r.cells[c].Some?;
      }
    }
  }

  /**
   * When the first series runs in increasing month order, so do the rows of
   * the combined table: every month that is not the first series' own comes
   * after them and is dropped, since the first series is missing there.
   */
  lemma CombineChronological(ns: seq<Named>, labels: seq<string>)
    requires |ns| > 0 && Combine(ns, labels).Ok?
    requires forall i, j :: 0 <= i < j < |ns[0].months| ==>
      MonthIndex(ns[0].months[i].month) < MonthIndex(ns[0].months[j].month)
    ensures Chronological(Combine(ns, labels).value.rows)
  {
    var first := MonthsOf(ns[0].months);
    assert Distinct(first) by {
      forall i, j | 0 <= i < j < |first| ensures first[i] != first[j] {
        assert MonthIndex(first[i]) < MonthIndex(first[j]);
      }
    }
    CombineFirstRows(ns, labels);
    var rows := RowsAt(ns, first);
    assert Chronological(rows) by {
      forall i, j | 0 <= i < j < |rows| ensures MonthIndex(rows[i].month) < MonthIndex(rows[j].month) {
        assert rows[i].month == first[i] && rows[j].month == first[j];
      }
    }
    DropIncompleteChronological(rows);
  }

  /** Only the first series' own months can make a complete row of the combined table. */
  lemma CombineFirstRows(ns: seq<Named>, labels: seq<string>)
    requires |ns| > 0 && Combine(ns, labels).Ok? && Distinct(MonthsOf(ns[0].months))
    ensures Combine(ns, labels).value.rows == DropIncomplete(RowsAt(ns, MonthsOf(ns[0].months)))
  {
    UnionFirstRows(ns);
    assert Combine(ns, labels).value.rows == DropIncomplete(RowsAt(ns, UnionMonths(ns)));
  }

  /** Of the rows at the joined months, only those at the first series' months can be complete. */
  lemma UnionFirstRows(ns: seq<Named>)
    requires |ns| > 0 && Distinct(MonthsOf(ns[0].months))
    ensures DropIncomplete(RowsAt(ns, UnionMonths(ns))) == DropIncomplete(RowsAt(ns, MonthsOf(ns[0].months)))
  {
    var first := MonthsOf(ns[0].months);
    var u := UnionMonths(ns);
    UnionMonthsRest(ns);
    var rest := u[|first|..];
    assert u == first + rest;
    RowsAtAppend(ns, first, rest);
    DropIncompleteAppend(RowsAt(ns, first), RowsAt(ns, rest));
    DropOtherMonths(ns, rest);
    assert DropIncomplete(RowsAt(ns, first)) + [] == DropIncomplete(RowsAt(ns, first));
  }

  /** The months the other series add come after the first series' own and are none of them. */
  lemma UnionMonthsRest(ns: seq<Named>)
    requires |ns| > 0 && Distinct(MonthsOf(ns[0].months))
    ensures var first := MonthsOf(ns[0].months); var u := UnionMonths(ns);
      |first| <= |u| && u == first + u[|first|..] &&
      forall t :: |first| <= t < |u| ==> u[t] !in first
  {
    var first := MonthsOf(ns[0].months);
    var u := UnionMonths(ns);
    UnionMonthsFirst(ns);
    UnionMonthsDistinct(ns);
    forall t | |first| <= t < |u| ensures u[t] !in first {
      forall i | 0 <= i < |first| ensures first[i] != u[t] {
        assert first[i] == u[i];
      }
    }
  }

  lemma RowsAtAppend(ns: seq<Named>, a: seq<YearMonth>, b: seq<YearMonth>)
    ensures RowsAt(ns, a + b) == RowsAt(ns, a) + RowsAt(ns, b)
  {
  }

  /** Rows of months the first series does not have are all incomplete. */
  lemma DropOtherMonths(ns: seq<Named>, ms: seq<YearMonth>)
    requires |ns| > 0 && forall t :: 0 <= t < |ms| ==> ms[t] !in MonthsOf(ns[0].months)
    ensures DropIncomplete(RowsAt(ns, ms)) == []
  {
    var rows := RowsAt(ns, ms);
    forall i | 0 <= i < |rows| ensures !Complete(rows[i]) {
      assert rows[i].cells[0] == ValueAt(ns[0].months, ms[i]);
    }
    DropIncompleteNone(rows);
  }

  // ---------------------------------------------------------------------------
  // Loading the registry

  /** load_series(**ds) on a file that is present. */
  function Loaded(files: map<string, Table>, ds: Descriptor, parseDate: DateParser, toFloat: FloatParser):
    Result<seq<MonthValue>, LoadError>
    requires ds.filePath in files
  {
    LoadSpec(files[ds.filePath], ds.dateCol, ds.valueCol, Some(ds.dateFormat), parseDate, toFloat)
  }

  /** One load of the comprehension: a missing file fails, and so does a failed load. */
  function LoadEntry(files: map<string, Table>, ds: Descriptor, parseDate: DateParser, toFloat: FloatParser):
    (r: Result<Entry, Failure>)
    ensures r.Ok? <==> ds.filePath in files && Loaded(files, ds, parseDate, toFloat).Ok?
    ensures r.Ok? ==> r.value == (Key(ds), Named(ds.valueCol, Loaded(files, ds, parseDate, toFloat).value))
  {
    if ds.filePath !in files then Err(NoSuchFile(ds.filePath))
    else
      match Loaded(files, ds, parseDate, toFloat)
      case Err(e) => Err(LoadFailed(ds.filePath, e))
      case Ok(s) => Ok((Key(ds), Named(ds.valueCol, s)))
  }

  /** One load of the comprehension, from a descriptor to its entry. */
  type LoadStep = Descriptor -> Result<Entry, Failure>

  /** The loads of the comprehension, in registry order; the first failure ends it. */
  function LoadAll(load: LoadStep, dss: seq<Descriptor>): (r: Result<seq<Entry>, Failure>)
    ensures r.Ok? ==> |r.value| == |dss|
    decreases |dss|
  {
    if dss == [] then Ok([])
    else
      var e :- load(dss[0]);
      var rest :- LoadAll(load, dss[1..]);
      Ok([e] + rest)
  }

  /** The comprehension succeeds when every load does, with each entry the load of its descriptor. */
  lemma {:induction false} LoadAllOk(load: LoadStep, dss: seq<Descriptor>)
    ensures LoadAll(load, dss).Ok? <==> forall i :: 0 <= i < |dss| ==> load(dss[i]).Ok?
    ensures LoadAll(load, dss).Ok? ==> forall i :: 0 <= i < |dss| ==> LoadAll(load, dss).value[i] == load(dss[i]).value
    decreases |dss|
  {
    if dss != [] {
      LoadAllOk(load, dss[1..]);
      assert forall i :: 1 <= i < |dss| ==> dss[i] == dss[1..][i - 1];
    }
  }

  /** A failing comprehension reports the failure of the first load that fails. */
  lemma {:induction false} LoadAllErr(load: LoadStep, dss: seq<Descriptor>) returns (i: int)
    requires LoadAll(load, dss).Err?
    ensures 0 <= i < |dss| && load(dss[i]).Err? && LoadAll(load, dss).error == load(dss[i]).error
    ensures forall j :: 0 <= j < i ==> load(dss[j]).Ok?
    decreases |dss|
  {
    if load(dss[0]).Err? {
      i := 0;
    } else {
      var k := LoadAllErr(load, dss[1..]);
      i := k + 1;
      assert forall j :: 1 <= j < |dss| ==> dss[j] == dss[1..][j - 1];
    }
  }

  function Values(d: seq<Entry>): (ns: seq<Named>)
    ensures |ns| == |d| && forall i :: 0 <= i < |d| ==> ns[i] == d[i].1
  {
    seq(|d|, i requires 0 <= i < |d| => d[i].1)
  }

  // ---------------------------------------------------------------------------
  // The output path

  const ProcessedDir: string := "data/processed/"

  const OutputStem: string := "combined_cleaned_data"

  /** The path of the CSV file `stem.csv` under the processed-data directory. */
  function ProcessedCsv(stem: string): string {
    Join(BaseDir, "processed/" + stem + ".csv")
  }

  /**
   * Where the table is written: the default path, or, when a file exists
   * there already, the default path with "_<timestamp>" before ".csv".
   */
  function OutputPath(existing: set<string>, timestamp: string): string {
    var path := ProcessedCsv(OutputStem);
    if path in existing then ReplaceAll(path, ".csv", "_" + timestamp + ".csv") else path
  }

  lemma ProcessedCsvPath(stem: string)
    ensures ProcessedCsv(stem) == (ProcessedDir + stem) + ".csv"
  {
    var b := "processed/" + stem + ".csv";
    assert b[0] == 'p';
    assert Join(BaseDir, b) == BaseDir + "/" + b;
  }

  /**
   * The default path is kept when nothing exists there; otherwise the
   * timestamp goes before the extension, so the existing file is not the
   * one written.
   */
  lemma OutputPathChoice(existing: set<string>, timestamp: string)
    ensures ProcessedCsv(OutputStem) !in existing ==> OutputPath(existing, timestamp) == ProcessedCsv(OutputStem)
    ensures ProcessedCsv(OutputStem) in existing ==>
      OutputPath(existing, timestamp) == (ProcessedDir + OutputStem) + ("_" + timestamp + ".csv") &&
      OutputPath(existing, timestamp) != ProcessedCsv(OutputStem)
  {
    var w := ProcessedDir + OutputStem;
    ProcessedCsvPath(OutputStem);
    assert forall i :: 0 <= i < |w| ==> w[i] != '.' by {
      forall i | 0 <= i < |w| ensures w[i] != '.' {
        if i < |ProcessedDir| { assert w[i] == ProcessedDir[i]; }
        else { assert w[i] == OutputStem[i - |ProcessedDir|]; }
      }
    }
    ReplaceSuffix(w, ".csv", "_" + timestamp + ".csv");
  }

  // ---------------------------------------------------------------------------
  // get_series

  /**
   * get_series over the files present, the paths that exist, and the time
   * of the call: the combined table and the path it is written to.
   */
  function GetSeries(files: map<string, Table>, existing: set<string>, timestamp: string,
                     parseDate: DateParser, toFloat: FloatParser): Result<(Frame, string), Failure>
  {
    var entries :- LoadAll(ds => LoadEntry(files, ds, parseDate, toFloat), Registry);
    var series := DictOf(entries);
    var table :- Combine(Values(series), Labels);
    Ok((table, OutputPath(existing, timestamp)))
  }

  /**
   * get_series fails exactly when one of the nine loads fails, and then with
   * the failure of the first one in registry order.
   */
  lemma GetSeriesFails(files: map<string, Table>, existing: set<string>, timestamp: string,
                       parseDate: DateParser, toFloat: FloatParser)
    ensures GetSeries(files, existing, timestamp, parseDate, toFloat).Err? <==>
      exists i :: 0 <= i < |Registry| && LoadEntry(files, Registry[i], parseDate, toFloat).Err?
    ensures GetSeries(files, existing, timestamp, parseDate, toFloat).Err? ==>
      exists i :: 0 <= i < |Registry| && LoadEntry(files, Registry[i], parseDate, toFloat).Err? &&
        GetSeries(files, existing, timestamp, parseDate, toFloat).error == LoadEntry(files, Registry[i], parseDate, toFloat).error &&
        forall j :: 0 <= j < i ==> LoadEntry(files, Registry[j], parseDate, toFloat).Ok?
  {
    var load: LoadStep := ds => LoadEntry(files, ds, parseDate, toFloat);
    LoadAllOk(load, Registry);
    var all := LoadAll(load, Registry);
    if all.Err? {
      var i := LoadAllErr(load, Registry);
      assert GetSeries(files, existing, timestamp, parseDate, toFloat) == Err(all.error);
    } else {
      LoadedSeries(files, parseDate, toFloat);
    }
  }

  /**
   * With every load done and the keys distinct, the dictionary holds every
   * loaded series, in registry order.
   */
  lemma {:induction false} LoadedDict(load: LoadStep, dss: seq<Descriptor>)
    requires forall i :: 0 <= i < |dss| ==> load(dss[i]).Ok? && load(dss[i]).value.0 == Key(dss[i])
    requires forall i, j :: 0 <= i < j < |dss| ==> Key(dss[i]) != Key(dss[j])
    ensures LoadAll(load, dss).Ok?
    ensures var ns := Values(DictOf(LoadAll(load, dss).value));
      |ns| == |dss| && forall c :: 0 <= c < |dss| ==> ns[c] == load(dss[c]).value.1
  {
    LoadAllOk(load, dss);
    var entries := LoadAll(load, dss).value;
    assert forall i :: 0 <= i < |dss| ==> KeysOf(entries)[i] == Key(dss[i]);
    DictOfDistinct(entries);
  }

  /** With every load done, the nine series are combined under the nine labels. */
  lemma LoadedSeries(files: map<string, Table>, parseDate: DateParser, toFloat: FloatParser)
    requires forall i :: 0 <= i < |Registry| ==> LoadEntry(files, Registry[i], parseDate, toFloat).Ok?
    ensures var load: LoadStep := ds => LoadEntry(files, ds, parseDate, toFloat);
      LoadAll(load, Registry).Ok? &&
      var ns := Values(DictOf(LoadAll(load, Registry).value));
      |ns| == |Registry| && Combine(ns, Labels).Ok? &&
      forall c :: 0 <= c < |Registry| ==> ns[c] == LoadEntry(files, Registry[c], parseDate, toFloat).value.1
  {
    var load: LoadStep := ds => LoadEntry(files, ds, parseDate, toFloat);
    RegistryKeysDistinct();
    LoadedDict(load, Registry);
  }

  /**
   * The table get_series returns: the nine labels as columns, in registry
   * order; exactly the months for which all nine series have a value, in
   * increasing order; each cell the value of its column's series for the
   * row's month; and the output path chosen for it.
   */
  lemma GetSeriesTable(files: map<string, Table>, existing: set<string>, timestamp: string,
                       parseDate: DateParser, toFloat: FloatParser, m: YearMonth) returns (ns: seq<Named>)
    requires GetSeries(files, existing, timestamp, parseDate, toFloat).Ok?
    ensures |ns| == |Registry| && forall c :: 0 <= c < |Registry| ==>
      LoadEntry(files, Registry[c], parseDate, toFloat).Ok? && ns[c] == LoadEntry(files, Registry[c], parseDate, toFloat).value.1
    ensures var out := GetSeries(files, existing, timestamp, parseDate, toFloat).value;
      out.0.columns == Labels && Chronological(out.0.rows) && out.1 == OutputPath(existing, timestamp)
    ensures var out := GetSeries(files, existing, timestamp, parseDate, toFloat).value;
      forall r :: r in out.0.rows ==>
        Complete(r) && |r.cells| == |Registry| &&
        forall c :: 0 <= c < |Registry| ==> r.cells[c] == ValueAt(ns[c].months, r.month)
    ensures var out := GetSeries(files, existing, timestamp, parseDate, toFloat).value;
      (exists r :: r in out.0.rows && r.month == m) <==> forall c :: 0 <= c < |Registry| ==> ValueAt(ns[c].months, m).Some?
  {
    ns := GetSeriesOk(files, existing, timestamp, parseDate, toFloat);
    CombineJoin(ns, Labels, m);
    LoadIncreasing(files[Registry[0].filePath], Registry[0].dateCol, Registry[0].valueCol, Some(Registry[0].dateFormat), parseDate, toFloat);
    CombineChronological(ns, Labels);
  }

  /** A successful get_series combines the nine loaded series, in registry order. */
  lemma GetSeriesOk(files: map<string, Table>, existing: set<string>, timestamp: string,
                    parseDate: DateParser, toFloat: FloatParser) returns (ns: seq<Named>)
    requires GetSeries(files, existing, timestamp, parseDate, toFloat).Ok?
    ensures |ns| == |Registry| && Combine(ns, Labels).Ok?
    ensures forall c :: 0 <= c < |Registry| ==>
      LoadEntry(files, Registry[c], parseDate, toFloat).Ok? && ns[c] == LoadEntry(files, Registry[c], parseDate, toFloat).value.1
    ensures GetSeries(files, existing, timestamp, parseDate, toFloat).value == (Combine(ns, Labels).value, OutputPath(existing, timestamp))
  {
    var load: LoadStep := ds => LoadEntry(files, ds, parseDate, toFloat);
    LoadAllOk(load, Registry);
    LoadedSeries(files, parseDate, toFloat);
    ns := Values(DictOf(LoadAll(load, Registry).value));
  }
}
