# Lifecycle CSV reshaper — a Dafny model

`TransformApplicationLifecycle` reads CSV records that carry an identifier column
(`UniqueID`) and one compound column (`string_agg`) holding segments
`STATUS]timestamp|STATUS]timestamp|…`. Its `fetch_data` scan turns every segment into a
column of its own, named `STATUS_n` where `n` counts the earlier occurrences of the same
status in the same row, and stores the timestamp re-rendered as `May 01 2019, 13:48:28`.
The scan also grows a header list that starts with the id column and lists every
generated column once, at its first discovery. `transform` then lays the collected rows
out under that header list, or under a caller-forced order that must be a permutation
of it, filling the gaps with `''`.

This project models that core as pure functions over immutable values:

- `results.dfy`: `Option` and `Result` with the `:-` failure propagation used for the
  exceptions.
- `decimal.dfy`: `str(n)` and the zero-padded fields of `strftime`, with their parses.
- `text.dfy`: `str.split` on one character, and its inverse `join`.
- `ordering.dfy`: Python's `sorted()` on strings (code-point order, as an insertion
  sort). Comparing two sorted copies is proved to decide "is a permutation of".
- `ordered_set.dfy`: lists used as insertion-ordered sets. This covers the header scan
  (`append` unless already listed) and the key order of a `dict` built from a list
  that may repeat keys.
- `timestamps.dfy`: `strptime('%Y-%m-%d %H:%M:%S.%f%z')` on a cell value with `:00`
  appended, and `strftime('%b %d %Y, %H:%M:%S')`, each with a writer or reader as
  partner.
- `column_names.dfy`: `unique_column_name` and the per-row counter.
- `lifecycle.dfy`: the object state, the constructor, the per-row parse, the scan, the
  projection, and the whole run. A run builds the object, calls `fetch_data`, calls
  `transform`, and yields the table that `output_result` would write.

The exceptions of the source become values of `Lifecycle.Error`:

- `MissingColumn` is the `KeyError` for an absent id or compound column.
- `MalformedSegment` is the `IndexError` for a segment without `]`.
- `BadTimestamp` is the `ValueError` from `strptime`.
- `HeaderMismatch` is the exception for a forced header list that is not a permutation
  of the found one.

A value such as `2019-05-01T13:48:28.0+0000` is rejected by the code's format string,
and the model follows the code:

- The separator between date and time must be a space (`' '` in the format), not `T`.
- After the `:00` append the offset reads `+0000:00`. The `%z` pattern matches that text,
  but converting its seconds field `':0'` with `int` raises `ValueError`.

A cell passes only when its offset is written `+HH` or `+HH:MM`, which `:00` turns into
`+HH:00` or `+HH:MM:00`.

## Model

| member | source | states |
|---|---|---|
| `Lifecycle.Init` | task_1/t_application_lifecycle.py:22-30 | A new object has headers `[id_column]`, no data, and the table `[[id_column]]`. That state is consistent: no duplicate headers, the id column among them. |
| `Lifecycle.ParseSegment` | task_1/t_application_lifecycle.py:60 | Taking `key]raw` apart fails exactly when the segment has no `]`. The error then names that segment. |
| `Lifecycle.ParseSegmentAt` | task_1/t_application_lifecycle.py:60 | A parsed segment's key is the text before its first `]`. Its raw value runs from there to the second `]` or the end; anything after a second `]` is dropped. |
| `Lifecycle.ParseWrittenSegment` | task_1/t_application_lifecycle.py:57-60 | Writing `key]raw` (optionally followed by more `]`-led text) and parsing it gives back `key` and `raw`. |
| `Lifecycle.ParseSegments` | task_1/t_application_lifecycle.py:60 | The list comprehension succeeds exactly when every segment has a `]`, giving one pair per segment. Otherwise it fails at the first segment without one. |
| `Lifecycle.Traverse` | task_1/t_application_lifecycle.py:63-67 | Converting values one by one succeeds exactly when every conversion succeeds, keeping order and length. Otherwise it stops at the first failure. |
| `Lifecycle.RowFields` | task_1/t_application_lifecycle.py:55-69 | The data row's keys are the id column and the generated names. The id value survives unless a generated name equals the id column. With distinct names, each name holds its own value. |
| `Lifecycle.ParseCompound` | task_1/t_application_lifecycle.py:56-67 | A parsed compound value yields one sub-key and one stored timestamp per segment. |
| `Lifecycle.ParseCompoundSucceeds` | task_1/t_application_lifecycle.py:56-67 | The compound value goes through without an exception exactly when every segment has a `]` and every timestamp parses. |
| `Lifecycle.MalformedSegmentFirst` | task_1/t_application_lifecycle.py:60 | The first segment without `]` decides the error, even when earlier segments hold bad timestamps: the comprehension splits all segments before any timestamp is read. |
| `Lifecycle.EmptyCompoundFails` | task_1/t_application_lifecycle.py:56-60 | An empty compound value is rejected as a malformed (empty) segment. |
| `Lifecycle.BadTimestampFirst` | task_1/t_application_lifecycle.py:63-67 | With every segment well formed, the first unparsable timestamp decides the error. The error carries that value with `:00` appended. |
| `Lifecycle.CompoundContents` | task_1/t_application_lifecycle.py:60-67 | Segment `j` yields the sub-key before its first `]` and the rendering of its timestamp. |
| `Lifecycle.ParseRow` | task_1/t_application_lifecycle.py:52-72 | The body of the row loop: check the id and compound columns, take the compound value apart, name the columns, build the data row. Its behaviour is stated by `Lifecycle.ParseRowShape` and `Lifecycle.ParseRowContents`. |
| `Lifecycle.ParseRowShape` | task_1/t_application_lifecycle.py:53-72 | A row's errors come in the code's order: missing id column, then missing compound column, then the compound value's error. A row succeeds exactly when none applies. A parsed row has distinct column names, and its keys are the id column and those names. |
| `Lifecycle.ParseRowContents` | task_1/t_application_lifecycle.py:53-69 | Segment `j` becomes the column `{key}_{n}`, where `n` counts earlier occurrences of the key in the same row, and holds that segment's stored timestamp. The id value stays unless a generated column has the id column's name. |
| `Lifecycle.FirstOccurrenceIsZero` | task_1/t_application_lifecycle.py:53-64 | The counter restarts with every row: the first occurrence of a sub-key within a row is always numbered 0. |
| `Lifecycle.Scan` | task_1/t_application_lifecycle.py:51-73 | The row loop succeeds exactly when every row parses. It changes only the headers and the data. |
| `Lifecycle.ScanHeaders` | task_1/t_application_lifecycle.py:71-72 | The header list after the loop is the one before it, with every discovered column appended at its first discovery, across rows. |
| `Lifecycle.ScanData` | task_1/t_application_lifecycle.py:73 | The loop keeps the earlier data rows and appends one data row per input row, in input order. |
| `Lifecycle.ScanFirstError` | task_1/t_application_lifecycle.py:51-73 | The first row that fails ends the scan with that row's error. |
| `Lifecycle.FetchData` | task_1/t_application_lifecycle.py:48-73 | `fetch_data` succeeds exactly when every record parses. It changes only the headers and the data. |
| `Lifecycle.FetchDataFirstError` | task_1/t_application_lifecycle.py:51-67 | The first record that raises decides `fetch_data`'s exception. |
| `Lifecycle.ScanConsistent` | task_1/t_application_lifecycle.py:63-73 | A scan whose rows only use the id column and their own columns keeps the state consistent. |
| `Lifecycle.FetchDataConsistent` | task_1/t_application_lifecycle.py:51-73 | After `fetch_data` the header list is still duplicate-free and contains the id column, and every key of every data row is a header. |
| `Lifecycle.FetchDataRows` | task_1/t_application_lifecycle.py:73 | After `fetch_data` the data holds the earlier rows, then the data row of each record, in input order. |
| `Lifecycle.ScanFromInit` | task_1/tests/test_transformation.py:5-16 | On a new object, the headers are the first occurrences of `[id] + discovered columns`: the id first, then each column once, at its first discovery. The state is consistent, with one data row per record. |
| `Lifecycle.Entries` | task_1/t_application_lifecycle.py:85 | The comprehension's entries: exactly the headers are keys, each mapped to the row's value for it or `''`. |
| `Lifecycle.NewRow` | task_1/t_application_lifecycle.py:85 | The dict comprehension holds, for every header, the row's value or `''`. Its key order is the headers' first occurrences: a repeated header keeps its first position. |
| `Lifecycle.ProjectRow` | task_1/t_application_lifecycle.py:85-86 | One output line: the dict comprehension's values in key order. Its cells are stated by `Lifecycle.ProjectRowCells`. |
| `Lifecycle.ProjectRowCells` | task_1/t_application_lifecycle.py:85-86 | An output line has one cell per distinct header, in header order, holding the row's value or `''`. For a duplicate-free header list that is exactly one cell per header. |
| `Lifecycle.SelectHeaders` | task_1/t_application_lifecycle.py:77-81 | The header check fails exactly when a forced list is given that is not a permutation of the found headers. The error is the header mismatch. |
| `Lifecycle.Transform` | task_1/t_application_lifecycle.py:75-87 | `transform` fails exactly on a forced list that is not a permutation of the found one. On success the headers become the forced list (or stay), there is one output line per data row, the table's first line is the header list, and nothing else changes. |
| `Lifecycle.TransformTable` | task_1/t_application_lifecycle.py:82-87 | With duplicate-free headers, the table has one more line than there are data rows. Line `i + 1` is as wide as the header line and holds data row `i`'s value for each header in turn, or `''`. |
| `Lifecycle.TransformLine` | task_1/t_application_lifecycle.py:84-87 | With a duplicate-free header list, output line `i + 1` has one cell per header, holding data row `i`'s value for it or `''`. |
| `Lifecycle.TransformConsistent` | task_1/t_application_lifecycle.py:77-81 | An accepted forced list keeps the state consistent: it has no duplicates, contains the id column and covers every data key. |
| `Lifecycle.TransformIdempotent` | task_1/t_application_lifecycle.py:75-87 | Calling `transform` a second time gives the same object. |
| `Lifecycle.Run` | task_1/t_application_lifecycle.py:134-142 | `main`'s call sequence without the I/O: construct, `fetch_data`, `transform`, and the table `output_result` would write. Its result is stated by `Lifecycle.RunHeader` and `Lifecycle.RunLine`. |
| `Lifecycle.RunHeader` | task_1/t_application_lifecycle.py:71-82 | The header line of a successful run has no duplicates and holds the id column. It is a permutation of the found columns: exactly those in first-discovery order when no order is forced, and the forced list itself when one is given. The table has one line per record plus the header line. |
| `Lifecycle.RunLine` | task_1/tests/test_transformation.py:43-73 | Line `i + 1` of a successful run belongs to record `i`. It is as wide as the header line and holds that record's stored value under each header, or `''`. |
| `ColumnNames.UniqueColumnName` | task_1/t_application_lifecycle.py:43-46 | The counter of `name` becomes 0 if it was missing, otherwise one more; other counters are untouched. The returned name is `{name}_{count}` and parses back into the name and the count. |
| `ColumnNames.UniqueColumnNameExamples` | task_1/tests/test_transformation.py:87-102 | `{'test1': 0}` gives `test1_1` and `{'test1': 1}`. An empty map gives `test1_0` and `{'test1': 0}`. |
| `ColumnNames.ColumnName` | task_1/t_application_lifecycle.py:46 | The f-string `{name}_{n}`. That it can be taken apart again is stated by `ColumnNames.ParseColumnNameOf` and `ColumnNames.ColumnNameInjective`. |
| `ColumnNames.ParseColumnNameOf` | task_1/t_application_lifecycle.py:46 | A generated name splits at its last `_` back into the sub-key and the count. |
| `ColumnNames.ColumnNameInjective` | task_1/t_application_lifecycle.py:46 | Different (sub-key, count) pairs never produce the same column name. |
| `ColumnNames.NameColumns` | task_1/t_application_lifecycle.py:53-64 | The `j`-th segment of a row is named after its key and the number of earlier occurrences of that key in the row. The final counters are the occurrence counts minus one. |
| `ColumnNames.NamesDistinct` | task_1/t_application_lifecycle.py:63-64 | The names generated within one row are pairwise distinct, even when sub-keys repeat. |
| `ColumnNames.RepeatedKey` | task_1/t_application_lifecycle.py:58-62 | Sub-keys `A, B, A` become `A_0, B_0, A_1`. |
| `Timestamps.ParseTimestamp` | task_1/t_application_lifecycle.py:67 | Whatever `strptime` accepts is a real calendar date and time, with an offset strictly inside one day. |
| `Timestamps.FractionOfWritten` | task_1/t_application_lifecycle.py:67 | `%f` reads a fraction of one to six digits as the digits scaled to microseconds, so `5` is 500000. A fraction written with its trailing zeros left off reads back to the same microseconds. |
| `Timestamps.ParseWritten` | task_1/t_application_lifecycle.py:67 | Every valid aware time written as `YYYY-MM-DD HH:MM:SS.f±HH:MM:SS` is read back exactly. This holds for any fraction of one to six digits that leaves off only zeros. |
| `Timestamps.ParseWrittenShort` | task_1/t_application_lifecycle.py:67 | The same holds for the `±HH:MM` offset form, for offsets in whole minutes, with any such fraction width. |
| `Timestamps.Render` | task_1/t_application_lifecycle.py:67 | `strftime('%b %d %Y, %H:%M:%S')`, 21 characters long. What it keeps is stated by `Timestamps.ReadRender`, `Timestamps.NormalizeRawWithMinutes` and `Timestamps.NormalizeRawWithHours`. |
| `Timestamps.ReadRender` | task_1/t_application_lifecycle.py:67 | `strftime('%b %d %Y, %H:%M:%S')` keeps every wall-clock field, with no zone conversion, and drops only the fraction of a second. |
| `Timestamps.Normalize` | task_1/t_application_lifecycle.py:65-67 | A cell is stored exactly when it parses with `:00` appended. The stored text is 21 characters long and reads back as the parsed wall-clock time without its fraction. |
| `Timestamps.NormalizeRawWithMinutes` | task_1/t_application_lifecycle.py:65-67 | A valid cell written with a `±HH:MM` offset and one to six fraction digits is stored as the rendering of its own wall-clock fields. An example is `2019-05-01 13:48:28.5+00:00`, stored as `May 01 2019, 13:48:28`. |
| `Timestamps.NormalizeRawWithHours` | task_1/t_application_lifecycle.py:65-67 | A valid cell written with a `±HH` offset and one to six fraction digits is stored as the rendering of its own wall-clock fields. An example is `2019-05-01 13:48:28.5+00`, stored as `May 01 2019, 13:48:28`. |
| `Ordering.Sort` | task_1/t_application_lifecycle.py:79 | `sorted()` returns an ordered permutation of its argument. |
| `Ordering.SortEqualIffSameMultiset` | task_1/t_application_lifecycle.py:79 | Two lists have equal sorted copies exactly when one is a permutation of the other. |
| `OrderedSet.Firsts` | task_1/t_application_lifecycle.py:85 | The first occurrences of a list have no duplicates and hold exactly its elements. |
| `OrderedSet.AppendIfAbsent` | task_1/t_application_lifecycle.py:71-72 | One header step keeps the old list as a prefix and adds the name. A duplicate-free list stays duplicate-free. |
| `OrderedSet.AppendAll` | task_1/t_application_lifecycle.py:71-72 | The append-if-absent header step over a list of names. Its result is stated by `OrderedSet.AppendAllMembers` and `OrderedSet.AppendAllIsFirsts`. |
| `OrderedSet.AppendAllMembers` | task_1/t_application_lifecycle.py:71-72 | Scanning names into a header list lists exactly the old headers and the names, keeps the old list as a prefix, and adds no duplicates. |
| `OrderedSet.AppendAllIsFirsts` | task_1/t_application_lifecycle.py:71-72 | Scanning names into a duplicate-free header list yields the first occurrences of the old list followed by the names. |
| `OrderedSet.AppendAllConcat` | task_1/t_application_lifecycle.py:51-72 | Scanning two rows' names one after the other is scanning their concatenation. |
| `OrderedSet.NoDupPermutation` | task_1/t_application_lifecycle.py:79-81 | A permutation of a duplicate-free list is duplicate-free. |
| `Text.Split` | task_1/t_application_lifecycle.py:56-60 | `split` yields at least one piece, no piece contains the separator, and joining the pieces gives the input back. |
| `Text.SplitJoin` | task_1/t_application_lifecycle.py:60 | Splitting a join of separator-free pieces gives the pieces back. |
| `Decimal.NatToDecimal` | task_1/t_application_lifecycle.py:46 | `str(n)` is a non-empty digit string with value `n` and no leading zero. |
| `Decimal.ZeroPadded` | task_1/t_application_lifecycle.py:67 | A zero-padded field has exactly the given width, and it denotes `n` whenever `n` fits that width. |
| `Decimal.ZeroPaddedUnique` | task_1/t_application_lifecycle.py:67 | A digit string is the zero-padded rendering of its own value at its own width. |

## Left out

- File I/O: opening the input, `csv.DictReader` (lines 48-51) and `output_result`
  (lines 89-92). Records are given as maps from column name to text, and the result
  is the table as a value. A missing input file is therefore not modelled.
- `csv.DictReader` gives `None` for the cells of a short record and collects a long
  record's extra cells under the key `None`. Records are modelled as maps from strings
  to strings, so neither case arises.
- `eval_forced_headers` (lines 95-104) evaluates arbitrary Python text with `eval`.
  Forced headers are given as a list value.
- `main` (lines 107-142): argument parsing and the call sequence. `Lifecycle.Run` is
  that call sequence without the I/O. `main` also overwrites the `--header` argument
  with a hard-coded header list (lines 130-132); the model takes the forced headers as
  a parameter.
- `unique_column_name` on something other than a dict raises `AttributeError`. The
  types rule that call out.
- Partial mutation on an exception. When a row fails mid-way, Python has already
  appended that row's earlier columns to `self.headers`, and the data of the earlier
  rows stays. The model returns only the error: a failed scan yields no state.
- Aliasing. After `transform` with forced headers, `self.headers` is the caller's
  forced list, so a later `fetch_data` would also grow the caller's list. The model
  keeps forced headers as a value. As a consequence, in Python a later `fetch_data`
  followed by `transform` always passes the `sorted` check, since both sides are the
  same list. The model rejects that sequence with `HeaderMismatch` once the second scan
  has found new columns.
- `HeaderMismatch` carries no text; the source raises a plain `Exception` with a fixed
  message.
- `Timestamps.ParseTimestamp`: accepts only the fixed-width, ASCII-digit form of the
  format. Python's `strptime` also accepts:
  - one-digit month, day, hour, minute and second fields;
  - a space-padded day;
  - one or more whitespace characters of any kind where the format has its space,
    where the model accepts exactly one `' '`;
  - non-ASCII decimal digits.

  A cell using those forms is rejected by the model but stored by the source.
- `Timestamps.Render`: writes years below 1000 with four digits. The C library under
  `strftime` may print them unpadded.
- `Lifecycle.ParseCompound`: its own contract states only the lengths of the parsed
  lists. What each entry holds is stated by `Lifecycle.CompoundContents`,
  `Lifecycle.ParseCompoundSucceeds` and the two `…First` lemmas.
- `Lifecycle.RunLine`: stated for one line at a time; all lines follow by
  instantiating `i`. Each line is as wide as the header line.
- A forced header list that contains a name twice is accepted only if the found
  headers repeat it too, which never happens. The projection's collapse of repeated
  headers (`NewRow`) is modelled for completeness.
- The stub modules of the second exercise in the same repository are not part of
  this model.
