# BasicMLOpsProject data preparation, modelled in Dafny

This project models the data-preparation core of BasicMLOpsProject, a small
forecasting pipeline for Argentine macro-economic series:

- `load_series` (`src/data/data_processing.py`) reads one raw table and turns
  one of its columns into a monthly series. Step by step, it:
  - replaces line breaks in the header names with spaces;
  - strips whitespace from the date texts;
  - turns decimal commas in a textual value column into points and converts
    the texts to numbers;
  - translates Spanish month abbreviations (`ene` … `dic`) when some date
    looks like `mmm-yy`;
  - parses the dates, with failures becoming NaT;
  - drops rows whose date was already seen, keeping the first;
  - sorts by date;
  - reindexes onto the full daily calendar between the first and last date;
  - forward-fills the gaps;
  - takes the median of each calendar month.
- `get_series` loads the nine registered series. It does three more things:
  - It stores them in a dictionary keyed by `<file stem>_<value column>`.
  - It joins them on their months, renames the columns and drops every month
    that lacks a value in some series.
  - It picks the output path: the default one, or a timestamped one when a
    file is already there.
- `make_stationary` (`src/features/stationarity.py`) takes first
  differences of every column and drops the rows that have a missing cell.

Modules:

| module | models |
|---|---|
| `Results` | `Option` and `Result`, for missing cells and raised errors. |
| `Calendar` | Gregorian days, the day after a day, the daily range from one day to another, and months numbered consecutively. |
| `Text` | Python's `str.strip` whitespace set, literal `str.replace`, the `mmm-yy` pattern and the Spanish month table. |
| `Statistics` | The median of a non-empty list of numbers, characterised by counting. |
| `TimeSeries` | Dropping duplicate dates, sorting by date with NaT last, reindexing onto a daily calendar, forward filling in place on an array, and the monthly median resampling. |
| `Loader` | `load_series`: the method `LoadSeries` is proved equal to the function `LoadSpec`, and the properties of the series are proved about that function. |
| `Panel` | Month-indexed tables, and dropping incomplete rows. |
| `Combiner` | `get_series`: paths, keys, the dictionary, the join on months and the output path. |
| `Stationarity` | `make_stationary`. |

Calls into code that cannot be seen here are parameters:

- `pd.to_datetime` is a `DateParser`.
- `float` is a `FloatParser`.
- `os.path.exists` is a set of existing paths.
- `datetime.now` is a timestamp string.

Missing values (NaN, NaT) are `None`.

With at least one column, `diff().dropna()` on a panel of zero or one rows
returns an empty table (`Stationarity.StationaryShort`).

With no column at all, `dropna` has no cell to miss and keeps every row,
including the first, all-NaN one. The model keeps that case too
(`Stationarity.StationaryNoColumns`). The differencing law is stated for
panels with at least one column.

## Model

| member | source | states |
|---|---|---|
| Calendar.DaysInMonth | src/data/data_processing.py:56 | A month has 28 to 31 days. It has 29 exactly when it is February of a leap year. |
| Calendar.NextDay | src/data/data_processing.py:56 | The next day of the daily frequency is strictly later than the day. |
| Calendar.NextDayIsSuccessor | src/data/data_processing.py:56 | No day lies strictly between a day and the next day. |
| Calendar.DateRange | src/data/data_processing.py:56 | The daily range starts at the start and ends at the end. Each element is the day after the one before. |
| Calendar.ConsecutiveIncreasing | src/data/data_processing.py:56 | In a daily range, a later position holds a later day. |
| Calendar.DateRangeCovers | src/data/data_processing.py:56 | Every day between the start and the end is in the daily range. |
| Calendar.MonthAtIndex | src/data/data_processing.py:66 | Numbering the months consecutively loses no month: the month with a month's number is that month. |
| Calendar.NextDayMonth | src/data/data_processing.py:63 | Moving one day forward moves the month number by 0 or 1. |
| Calendar.BeforeMonthIndex | src/data/data_processing.py:63 | A day that is not later has a month number that is not larger. |
| Text.ReplaceAll | src/data/data_processing.py:31 | `str.replace` of a literal pattern, left to right and without overlaps. What it does is stated by `Text.ReplaceCharAt`, `Text.ReplaceSuffix` and `Text.ReplaceKeyFree`. |
| Text.Strip | src/data/data_processing.py:27 | The stripped text is a slice of the input with only whitespace cut at both ends. It neither starts nor ends with whitespace. |
| Text.ReplaceCharAt | src/data/data_processing.py:31 | Replacing one character with another changes exactly the occurrences of that character. |
| Text.ReplaceSuffix | src/data/data_processing.py:117 | When the pattern occurs only at the end of a text, only that occurrence is replaced. |
| Text.ReplaceKeyFree | src/data/data_processing.py:40 | A text without the pattern's first character is left as it is. |
| Text.MatchesMonthYear | src/data/data_processing.py:38-39 | The `mmm-yy` pattern, anchored at both ends. `Text.MatchesMonthYearSpec` states exactly which texts it matches. |
| Text.MatchesMonthYearSpec | src/data/data_processing.py:38-39 | The date pattern matches exactly the texts of this shape: spaces, a month key, spaces, `-`, spaces, two digits, and optionally one final newline. |
| Text.SpanishMonthsLetterKeyed | src/data/data_processing.py:34-37 | All twelve keys are three lower-case letters. All twelve values are three characters that start with a non-lower-case letter. |
| Text.Translate | src/data/data_processing.py:40 | `Series.replace` with the month table as regular expressions. An entry applies to a cell when its key occurs in the original cell, and then replaces the key everywhere in the cell as the earlier entries left it. Its meaning is stated by the five lemmas below. |
| Text.KeyDateTranslated | src/data/data_processing.py:40 | A month key followed by text without lower-case letters becomes the English abbreviation followed by the same text. |
| Text.TranslateToken | src/data/data_processing.py:40 | In a three-character token surrounded by text without lower-case letters, only the token is translated. |
| Text.TranslateValueStable | src/data/data_processing.py:40 | An English abbreviation already in place is not translated again. |
| Text.TranslateKeyFree | src/data/data_processing.py:40 | A text without lower-case letters is not changed by the translation. |
| Text.TranslateUnmatched | src/data/data_processing.py:40 | A cell in which no key occurs is left as it is, whatever the replacements of other entries would make of it. |
| Text.TranslateNoCascade | src/data/data_processing.py:40 | Replacements do not cascade: `eneov` becomes `Janov`, although replacing `ene` makes `nov` appear. |
| Statistics.SortReals | src/data/data_processing.py:63 | Sorting gives an ascending permutation of the values. |
| Statistics.CountPermutation | src/data/data_processing.py:63 | The counts of values at most, or at least, a bound do not depend on the order of the values. |
| Statistics.MiddleCounts | src/data/data_processing.py:63 | The middle of a sorted list lies between its two central elements. At least half of the elements are at most it, and at least half are at least it. |
| Statistics.Median | src/data/data_processing.py:63 | At least half of the values are at most the median, and at least half are at least it. The median lies between the smallest and the largest value. For an odd count it is one of the values. |
| Statistics.MedianConstant | src/data/data_processing.py:63 | The median of a constant list is that constant. |
| Statistics.MedianOf | src/data/data_processing.py:63 | A month without values has a NaN median. Otherwise its median is the median of its values. |
| TimeSeries.KeepFirst | src/data/data_processing.py:46 | Dropping duplicate dates keeps the same set of dates, each date once. Each kept row is the first row carrying its date, and the kept rows are in input order. |
| TimeSeries.DropDuplicates | src/data/data_processing.py:46 | The loop keeps exactly the rows of `KeepFirst`. |
| TimeSeries.KeepFirstDuplicate | src/data/data_processing.py:46 | A row whose date was already seen is dropped. |
| TimeSeries.KeepFirstDistinct | src/data/data_processing.py:46 | Rows whose dates are all distinct are kept as they are. |
| TimeSeries.InsertByDateSorted | src/data/data_processing.py:47 | Inserting a row into date-sorted rows keeps them sorted, with NaT last. Inserting a new date into strictly sorted rows keeps them strictly sorted. |
| TimeSeries.SortByDate | src/data/data_processing.py:47 | Sorting by date gives a permutation ordered by date, with NaT last. It keeps the set of dates. Distinct dates come out strictly increasing. |
| TimeSeries.Observed | src/data/data_processing.py:50-57 | The calendar sees exactly the rows that have a parsed date, with their values. |
| TimeSeries.ObservedIncreasing | src/data/data_processing.py:46-57 | After deduplication and sorting, the observed days are strictly increasing. |
| TimeSeries.Reindexed | src/data/data_processing.py:57 | The value of each calendar day is the value observed on that day, or NaN. `TimeSeries.ValueOnAt` states that an observed day gets its own value. |
| TimeSeries.ValueOnAt | src/data/data_processing.py:57 | Reindexing gives an observed day its own value. |
| TimeSeries.DailyCalendar | src/data/data_processing.py:56 | The loop builds exactly the daily range from the first day to the last. |
| TimeSeries.Reindex | src/data/data_processing.py:57 | Each calendar day gets the value observed on that day, or NaN when no row has that day. |
| TimeSeries.Filled | src/data/data_processing.py:60 | Forward filling keeps present values and the first slot. A missing value takes the filled value of the slot before. |
| TimeSeries.FilledIsLastPresent | src/data/data_processing.py:60 | A filled slot holds the last present value at or before it. A slot stays NaN only when nothing before it is present. |
| TimeSeries.ForwardFill | src/data/data_processing.py:60 | Filling the array in place leaves it equal to `Filled` of its old contents. |
| TimeSeries.LatestPresent | src/data/data_processing.py:56-60 | The latest value observed at or before a day. A present result is the value of some observation not after the day. `TimeSeries.DailyIsLatestPresent` states that reindexing and filling give exactly this. |
| TimeSeries.DailyIsLatestPresent | src/data/data_processing.py:56-60 | After reindexing and filling, each day of the calendar holds the latest value observed at or before that day. |
| TimeSeries.ConsecutiveMonthSteps | src/data/data_processing.py:56-63 | In a daily calendar, the month of one day and the month of the next differ by 0 or 1. |
| TimeSeries.Bucket | src/data/data_processing.py:63 | The values of one month before a position, the group `resample` hands to `median`. Its contents are stated by `TimeSeries.BucketMembers` and `TimeSeries.BucketCount`. |
| TimeSeries.BucketMembers | src/data/data_processing.py:63 | A month's bucket holds exactly the present values of the days in that month. |
| TimeSeries.BucketCount | src/data/data_processing.py:63 | Each value occurs in a month's bucket once for each day of that month that carries it, so the median is taken over every daily value of the month, repetitions included. |
| TimeSeries.MonthlyMedians | src/data/data_processing.py:63-66 | One entry per consecutive month from the first day's month to the last day's. Its months and values are stated by `TimeSeries.MonthlyMediansMonths` and `TimeSeries.MonthlyMedianValue`. |
| TimeSeries.MonthlyMediansMonths | src/data/data_processing.py:63-66 | The monthly series runs from the month of the first day to the month of the last, one entry per consecutive month. Each day's month has its entry. |
| TimeSeries.MonthlyMedianValue | src/data/data_processing.py:63 | A month's value is present exactly when some day of that month has a value. It is then the median of that month's bucket, which holds each daily value as often as it occurs (`TimeSeries.BucketCount`). |
| TimeSeries.GatherMonth | src/data/data_processing.py:63 | The inner loop collects the whole bucket of the current month and stops at the first day of the next month. |
| TimeSeries.ResampleMonthlyMedian | src/data/data_processing.py:63 | The resampling loop produces exactly `MonthlyMedians` of the daily values. |
| Loader.CleanHeader | src/data/data_processing.py:26 | The cleaned name has the same length. Every line break becomes a space, and no line break is left. |
| Loader.FindColumn | src/data/data_processing.py:27-31 | A name is found when exactly one column carries it. It is missing exactly when no column carries it, and ambiguous exactly when two do. |
| Loader.TextCells | src/data/data_processing.py:27 | The date column has text cells exactly when it is a text column. Otherwise stripping it fails. |
| Loader.StripCells | src/data/data_processing.py:27 | Missing cells stay missing. Every present text becomes itself with only its leading and trailing whitespace cut: a slice of the input with whitespace on both sides of it, neither starting nor ending with whitespace. |
| Loader.Decimalize | src/data/data_processing.py:31 | Every decimal comma becomes a point, and nothing else changes. |
| Loader.ConvertCells | src/data/data_processing.py:30-31 | Conversion succeeds exactly when every present text converts once its commas become points. Missing cells stay missing. On failure, the error names a text that does not convert. |
| Loader.ValuesOf | src/data/data_processing.py:30-31 | A numeric value column is used as it is. |
| Loader.Localize | src/data/data_processing.py:38-40 | The translation of the date cells, done only when some cell matches `mmm-yy`. Stated by `Loader.LocalizeUntouched` and `Loader.LocalizeTranslates`. |
| Loader.LocalizeUntouched | src/data/data_processing.py:38-40 | When no date matches `mmm-yy`, the dates are not translated. |
| Loader.LocalizeTranslates | src/data/data_processing.py:38-40 | When some date matches, a key followed by text without lower-case letters is translated to English. Text without lower-case letters stays as it is. |
| Loader.ParseDates | src/data/data_processing.py:43 | One result per cell. A missing date text parses to NaT, and a present text gives the parser's result for that text and format. |
| Loader.Columns | src/data/data_processing.py:25-40 | The cleaned date texts and numeric values, one of each per row, or the error that stops cleaning. Stated by `Loader.ColumnsContents` and `Loader.CleanColumns`. |
| Loader.ColumnsContents | src/data/data_processing.py:25-40 | After cleaning, the date and value columns are two different columns of the cleaned headers. The dates are stripped and localised. The values are either the numbers or the converted texts. |
| Loader.CleanColumns | src/data/data_processing.py:25-40 | The cleaning steps, run in order, give exactly `Columns`. |
| Loader.LoadMissingDateColumn | src/data/data_processing.py:27 | Loading fails with a missing-column error when no cleaned header is the date column. |
| Loader.ObservedOfRows | src/data/data_processing.py:43-57 | Every row with a parsed date has its day observed. Every observed day is the date of some row. |
| Loader.ObservationIsFirstRow | src/data/data_processing.py:46-57 | Each observed day carries the value of the first row with that date. |
| Loader.DailyDays | src/data/data_processing.py:56 | The daily index is consecutive and runs from the earliest observed day to the latest. |
| Loader.DailyDaysCover | src/data/data_processing.py:56 | Every observed day is in the daily index. |
| Loader.DailyToMonthly | src/data/data_processing.py:56-66 | The daily calendar, filled and resampled to monthly medians. Stated by `Loader.DailyToMonthlyMonths` and `TimeSeries.DailyIsLatestPresent`. |
| Loader.DailyToMonthlyMonths | src/data/data_processing.py:56-66 | The monthly series runs over consecutive months, from the earliest observed month to the latest, and has an entry for each observed day's month. |
| Loader.Series | src/data/data_processing.py:45-66 | From the parsed rows to the monthly series. It fails only with the no-dates error. Stated by `Loader.SeriesNoDates`, `Loader.SeriesMonths`, `Loader.SeriesEnds` and `Loader.SeriesOf`. |
| Loader.SeriesNoDates | src/data/data_processing.py:56 | Building the series fails exactly when no row has a parsed date, because the daily range would have no ends. |
| Loader.SeriesMonths | src/data/data_processing.py:56-66 | The series covers consecutive months, and the month of every dated row is among them. |
| Loader.SeriesEnds | src/data/data_processing.py:56-66 | The first and the last month of the series are months of some dated rows. |
| Loader.SeriesOf | src/data/data_processing.py:45-66 | The imperative pipeline gives exactly `Series`. |
| Loader.LoadSpec | src/data/data_processing.py:8-68 | `load_series` as one function of the parsed table. `Loader.LoadSeries` proves the step-by-step loader equal to it, and `Loader.LoadIncreasing` and `Loader.SeriesMonths` state what its series is. |
| Loader.LoadSeries | src/data/data_processing.py:8-68 | The whole loader, run step by step, gives exactly `LoadSpec`. |
| Loader.LoadIncreasing | src/data/data_processing.py:8-68 | The months of a loaded series are strictly increasing. |
| Combiner.Join | src/data/data_processing.py:73 | Joining paths ends with the second path. An absolute second path replaces the first. Otherwise a slash is inserted when the first path lacks one. |
| Combiner.Basename | src/data/data_processing.py:97 | The base name is the part of the path after its last slash. |
| Combiner.BasenameAfterDir | src/data/data_processing.py:97 | The base name of a directory followed by a slash-free name is that name. |
| Combiner.Stem | src/data/data_processing.py:97 | The stem is a prefix of the name. |
| Combiner.StemOf | src/data/data_processing.py:97 | Splitting off an extension returns the name without it. |
| Combiner.RawCsvPath | src/data/data_processing.py:73 | A raw file lives at `data/raw/<stem>.csv`. |
| Combiner.RawCsvKey | src/data/data_processing.py:97 | The key of a raw file's dataset is its stem, an underscore and its value column. |
| Combiner.RegistryKeysDistinct | src/data/data_processing.py:72-99 | The nine dataset keys are pairwise distinct, so no series overwrites another. |
| Combiner.Insert | src/data/data_processing.py:96-99 | Storing a new key appends it. Storing an existing key keeps the order of keys, and that key's entry takes the new value while every other entry stays as it was. |
| Combiner.DictOf | src/data/data_processing.py:96-99 | The dictionary's keys are distinct. They are exactly the keys of the entries. |
| Combiner.DictOfDistinct | src/data/data_processing.py:96-99 | With distinct keys, the dictionary holds every entry, in order. |
| Combiner.DictOfLast | src/data/data_processing.py:95-99 | Every entry the dictionary holds is the last entry stored under its key: a later series with the same key overwrites an earlier one. |
| Combiner.DictOfRepeated | src/data/data_processing.py:95-99 | A repeated key makes the dictionary lose an entry. |
| Combiner.LoadEntry | src/data/data_processing.py:97 | A dataset loads when its file exists and `load_series` succeeds. The entry is then its key and its series. |
| Combiner.LoadAll | src/data/data_processing.py:96-98 | Loading the datasets in order, stopping at the first failure. One entry per dataset on success. Stated by `Combiner.LoadAllOk` and `Combiner.LoadAllErr`. |
| Combiner.LoadAllOk | src/data/data_processing.py:96-98 | Loading all datasets succeeds exactly when each one does. The results come in registry order. |
| Combiner.LoadAllErr | src/data/data_processing.py:96-98 | A failure is the error of the first dataset that fails. Every dataset before it loaded. |
| Combiner.AddNew | src/data/data_processing.py:102 | Adding months keeps those already there, in order. The result holds exactly the old and the new months, each once. |
| Combiner.UnionMonths | src/data/data_processing.py:102 | The index of `concat(axis=1)`: the months of all series. Stated by `Combiner.UnionMonthsDistinct`, `Combiner.UnionMonthsMembers` and `Combiner.UnionMonthsFirst`. |
| Combiner.UnionMonthsDistinct | src/data/data_processing.py:102 | The joined index holds each month once. |
| Combiner.UnionMonthsMembers | src/data/data_processing.py:102 | A month is in the joined index exactly when some series has it. |
| Combiner.UnionMonthsFirst | src/data/data_processing.py:102 | The joined index starts with the first series' months, in their order. |
| Combiner.UnionMonthsRest | src/data/data_processing.py:102 | The months the later series add come after the first series' months and are none of them. |
| Combiner.ValueAt | src/data/data_processing.py:102 | A series' value at a month is that month's entry, and NaN when the series lacks the month. |
| Combiner.RowAt | src/data/data_processing.py:102 | A joined row has one cell per series, holding that series' value at the row's month. |
| Combiner.Concat | src/data/data_processing.py:102 | One column per series, named by it, and one row per month of the joined index. Its rows are stated by `Combiner.RowAt` and `Combiner.CombineJoin`. |
| Combiner.Rename | src/data/data_processing.py:105-106 | Relabelling succeeds exactly when there are as many labels as columns. It changes only the labels. |
| Combiner.Combine | src/data/data_processing.py:102-109 | Joining, relabelling and dropping incomplete rows. Stated by `Combiner.CombineJoin` and `Combiner.CombineChronological`. |
| Combiner.CombineJoin | src/data/data_processing.py:102-109 | The combined table is the inner join on months. A month is a row exactly when every series has a value there, and its cells are those values. |
| Combiner.CombineChronological | src/data/data_processing.py:102-109 | The combined rows are in strictly increasing month order. |
| Combiner.CombineFirstRows | src/data/data_processing.py:102-109 | The combined rows are the complete rows at the first series' own months. |
| Combiner.DropOtherMonths | src/data/data_processing.py:102-109 | Months missing from the first series never survive the row drop. |
| Combiner.ProcessedCsvPath | src/data/data_processing.py:112 | The default output path is `data/processed/combined_cleaned_data.csv`. |
| Combiner.OutputPath | src/data/data_processing.py:112-117 | The default output path, or the timestamped one when a file is already there. Stated by `Combiner.OutputPathChoice`. |
| Combiner.OutputPathChoice | src/data/data_processing.py:112-117 | The output path is the default one when nothing is there. Otherwise it is the default path with `_<timestamp>` before `.csv`, which is a different path. |
| Combiner.GetSeries | src/data/data_processing.py:70-123 | `get_series`: the combined table of the nine loaded series and the chosen output path. Stated by `Combiner.GetSeriesFails`, `Combiner.GetSeriesOk` and `Combiner.GetSeriesTable`. |
| Combiner.GetSeriesFails | src/data/data_processing.py:70-99 | `get_series` fails exactly when some dataset fails to load. Its error is that of the first dataset that fails. |
| Combiner.LoadedSeries | src/data/data_processing.py:96-106 | When every dataset loads, the dictionary holds the nine series in registry order, and the relabelling succeeds. |
| Combiner.GetSeriesOk | src/data/data_processing.py:70-123 | A successful `get_series` is the combination of the nine loaded series, together with the output path. |
| Combiner.GetSeriesTable | src/data/data_processing.py:70-123 | The result has the nine labels and chronological, complete rows. Each cell is its series' value at that month. A month is a row exactly when all nine series have a value there. The path is the one chosen for output. |
| Panel.DropIncomplete | src/data/data_processing.py:109 | Dropping incomplete rows keeps exactly the complete rows. |
| Panel.DropIncompleteAppend | src/data/data_processing.py:109 | Dropping distributes over concatenation, so the kept rows stay in their relative order. |
| Panel.DropIncompleteKeepsComplete | src/data/data_processing.py:109 | A table without missing cells is unchanged. |
| Panel.DropIncompleteChronological | src/data/data_processing.py:109 | Dropping rows keeps month order. |
| Panel.DropIncompleteNone | src/data/data_processing.py:109 | A table whose every row misses a cell loses all its rows. |
| Stationarity.DiffRow | src/features/stationarity.py:15 | A differenced row keeps its month and has one cell per column. |
| Stationarity.Diff | src/features/stationarity.py:15 | Differencing keeps the row count. Row i is the difference of input rows i-1 and i. |
| Stationarity.MakeStationary | src/features/stationarity.py:3-17 | The result keeps the columns, in order. Each row has one cell per column, and there are never more rows than in the input. |
| Stationarity.StationaryTail | src/features/stationarity.py:15 | On a table without missing cells and with at least one column, exactly the first, all-NaN, differenced row goes. |
| Stationarity.DiffChanges | src/features/stationarity.py:15 | Between complete rows, every differenced cell is present and is the change from the row before. |
| Stationarity.StationaryLaw | src/features/stationarity.py:15 | On a complete table with at least one column: n rows give n-1. Row i is input row i+1 minus input row i, cell by cell, under the month of input row i+1. |
| Stationarity.StationaryShort | src/features/stationarity.py:15 | With at least one column, zero or one rows give an empty table. |
| Stationarity.StationaryRows | src/features/stationarity.py:15 | A month's difference survives exactly when that month's row and the row before are complete. |
| Stationarity.StationaryRowOrigin | src/features/stationarity.py:15 | Every result row is the difference of two consecutive complete input rows. |
| Stationarity.StationaryChronological | src/features/stationarity.py:15 | Differencing a chronological table gives a chronological table. |
| Stationarity.StationaryNoColumns | src/features/stationarity.py:15 | A table without columns keeps every row, month for month. |

## Left out

- Reading the CSV file (`pd.read_csv`, the `sep` argument): a table is given already parsed.
  - It is a list of unique header names and one column per name.
  - A column holds either numbers or optional texts.
  - Type inference by the reader is not modelled.
- A missing file (`FileNotFoundError`) is the absence of its path from the given map of files.
- `pd.to_datetime` with its format and `errors="coerce"` is the `DateParser` parameter.
  - The model does not interpret format strings.
  - It only knows that a missing text gives NaT.
- `float` conversion of the value texts is the `FloatParser` parameter.
- Loader.ConvertCells: a text converts to a real number or fails. The texts that `astype(float)` reads as NaN or infinity (`nan`, `inf`, `-inf`, line 31) are not represented, so the model would have them fail or give a number.
- Text.MatchesMonthYear: `\d` (lines 38-39) is modelled as the ASCII digits only. Python's `\d` also matches the decimal digits of other scripts.
- Floating point: values are real numbers.
  - The median of an even count and the differences are exact.
  - Rounding is not modelled.
- Pandas' month-end labels of `resample("M")`, and `to_period('M')` (line 66): months are year–month pairs directly.
- The order of the joined index before `dropna` is modelled as the first series' months followed by the new months of later series. After `dropna` the rows are the common months in chronological order (`Combiner.CombineChronological`), so the result does not depend on this choice.
- Writing the table (`to_csv`) and the message (`print`), lines 120-121: the model returns the chosen output path instead.
- `os.path.exists` is a set of existing paths.
- `datetime.now().strftime(...)` is a timestamp string parameter; its format is not modelled.
- `warnings.filterwarnings` (lines 5-6) and the `__main__` entry point (lines 125-126) have no effect on the data.
- An object-typed value column whose cells are not all strings: pandas' `.str` accessor would give NaN for non-string cells. The model has text cells only.
- Loader.LocalizeTranslates: states the translated value only for cells that are a month key followed by text without lower-case letters (the `mmm-yy` dates), and for cells without lower-case letters. Any other cell's translation is given by `Text.Translate`'s definition.
- Statistics.Median: characterises the median by the halving property, by its bounds and, for an odd count, by being one of the values. That the even-count median is the mean of the two central sorted values is fixed by its definition, and `Statistics.MiddleCounts` only bounds it between them.
- Feature engineering, model training, the project scaffolding script and `setup.py` are not part of this model.
