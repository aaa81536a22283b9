# Attendance and performance store: a Dafny model

The program reads a workbook of worker records and keeps per-day work data in a
SQLite database with one table per day of the month. This project models two parts of it:

- **the workbook readers** of `ExcelOperator` (`libs/xls_oprt.py`, module `XlsOprt`).
  They build
  - the `(id, name)` pairs of a sheet;
  - those pairs with the row number;
  - the attendance counts, joined to the ids through the inverted id/name dictionary;
  - the work performance of every id.

  Each result is a dictionary's items sorted by the integer value of the key.
- **the day-table store** `SQLiteOperator` (`libs/sqlite_writer.py`, module `SqliteWriter`).
  It covers:
  - the 25 data columns `_db_keys`;
  - creating and seeding a day table with one row per worker;
  - writing a worker's row, or only its `labor_hour_aux_to`;
  - retrieving a row and testing whether it is empty;
  - listing the stored days in the order 28, ..., n, 1, ..., 27;
  - summing a worker's day;
  - iterating a worker over the month.

A sheet is given as its columns, as sequences of `Cell` values (text, or a number).
The database is a value `map<string, Table>`: table name to rows. A row (`Record`) holds
25 nullable integers, keyed by `worker_id`.

Pure code is modelled as functions with lemmas. Loops that build results are methods
proved against those functions. The operator is a class whose `tables` field every method
that calls `create_table` updates. This includes `retrieve`, `is_empty_row` and
`get_data_per_day`, because `create_table` also seeds the table.

The helpers `sort_dict_keys_numerically`, `invert_dict` and `take` live in `libs/misc.py`.
That file is not part of this model. They are specified by what their callers rely on
(module `Misc`):
- `SortDictKeysNumerically` is a selection sort.
- `InvertDict` picks some key for each value.
- `Take2` pairs consecutive elements.

Module `Numbers` models Python's `isdigit`, `int()` and `unicode(int)` on ASCII decimal
strings.

## Model

| member | source | states |
|---|---|---|
| Numbers.IntOfString | libs/xls_oprt.py:60 | computes Python's `int()` on a string: surrounding white space, an optional sign, white space again, then decimal digits; none where `int()` raises |
| Numbers.SignedWithSpaces | libs/xls_oprt.py:60 | `int()` reads `"- 5"` as -5 and `" +\t42 "` as 42, and rejects `"-"` and `"5 5"` |
| Numbers.Trunc | libs/xls_oprt.py:38 | `int(x)` of a float truncates toward zero: it lies within 1 of `x` on the side of zero |
| Numbers.IntOfDigits | libs/xls_oprt.py:59-60 | `int()` accepts every string `isdigit()` accepts, with its decimal value |
| Numbers.ShowNatRoundTrip | libs/xls_oprt.py:60 | `unicode(n)` is a digit string whose value is `n`; it starts with `0` only when it is `"0"` |
| Numbers.ShowNatOfDigits | libs/xls_oprt.py:60 | `unicode(int(id))` of a digit string is the string with its leading zeros removed |
| Numbers.CanonicalRoundTrip | libs/xls_oprt.py:60 | a digit string without leading zeros is unchanged by `unicode(int(.))` |
| Numbers.SameValueIffSameStripped | libs/xls_oprt.py:60 | two digit strings have the same value exactly when they agree once leading zeros are removed |
| Misc.Take2 | libs/sqlite_writer.py:137 | `take(xs, by=2)` gives `len(xs)/2` pairs, the i-th being `(xs[2i], xs[2i+1])` |
| Misc.DictOfKeys | libs/xls_oprt.py:23-25 | a dictionary built from filtered entries has a key exactly when some entry assigns it |
| Misc.DictOfLast | libs/xls_oprt.py:23-25 | the value of a key is the one its last entry assigns |
| Misc.DictOfHasLast | libs/xls_oprt.py:23-25 | every key's value comes from a last entry for that key |
| Misc.DictOfExtended | libs/xls_oprt.py:72-74 | entries that extend another list's values pointwise build a dictionary with the same keys whose values extend the same way |
| Misc.InvertDict | libs/xls_oprt.py:33 | `invert_dict(d)` has exactly `d`'s values as keys, each mapped to a key of `d` that holds it |
| Misc.SortedKeys | libs/xls_oprt.py:22-25 | some listing of the keys is distinct, complete and ascending by `int(key)` |
| Misc.SortedItems | libs/xls_oprt.py:22-25 | the items of `d` listed once each, in that key order, each with `d`'s value |
| Misc.SortDictKeysNumerically | libs/xls_oprt.py:46 | for keys that are all integers: every item of the dictionary exactly once, keys ascending by integer value |
| Misc.NumericOrderUnique | libs/sqlite_writer.py:124 | when no two keys stand for the same integer, the numeric order is unique |
| XlsOprt.DigitKeysAreNumeric | libs/xls_oprt.py:22-25 | digit-string keys are all accepted by `int()`, so the numeric sort cannot fail; each key's sort value is its decimal value |
| XlsOprt.SortedDigitItems | libs/xls_oprt.py:22-25 | sorted items with digit-string keys have distinct keys ascending by decimal value |
| XlsOprt.IdNamePairs | libs/xls_oprt.py:16-25 | computes `get_id_name_pairs`: the filtered id/name dictionary's items in numeric order of the ids |
| XlsOprt.IdNamePairsWithRowNumber | libs/xls_oprt.py:65-74 | computes `get_id_name_pairs_with_row_number`: the filtered `(name, row + 1)` dictionary's items in numeric order |
| XlsOprt.IdNameEntryIsRow | libs/xls_oprt.py:23-25 | an entry assigns id `k` exactly when its row has text id `k` made of digits and a truthy name |
| XlsOprt.LastIdNameEntryIsRow | libs/xls_oprt.py:23-25 | the last entry for `k` is the last row passing the filter with id `k` |
| XlsOprt.IdNameDictSpec | libs/xls_oprt.py:23-25 | an id is a key exactly when some row passes `id.isdigit() and name` with that id; its name is that of the last such row |
| XlsOprt.IdNamePairsSpec | libs/xls_oprt.py:21-25 | `get_id_name_pairs` lists exactly the filtered ids, each with the name of its last row |
| XlsOprt.IdNamePairsSorted | libs/xls_oprt.py:21-25 | its ids are distinct digit strings in ascending order of value |
| XlsOprt.NumberedDictSpec | libs/xls_oprt.py:70-74 | same keys as the filter; the value is the last such row's name and that row's 1-based number |
| XlsOprt.NumberedDictMatches | libs/xls_oprt.py:72-74 | the numbered dictionary has the id/name dictionary's keys and names |
| XlsOprt.RowNumberPairsMatchIdNamePairs | libs/xls_oprt.py:65-74 | `get_id_name_pairs_with_row_number` lists the same ids in the same order, with the same names, as `get_id_name_pairs` |
| XlsOprt.AttendanceDict | libs/xls_oprt.py:39-44 | computes the dictionary the attendance loop builds: each row with a text name found in the inverted map assigns that id its coerced counts, later rows overwriting earlier ones |
| XlsOprt.AttendanceDictSpec | libs/xls_oprt.py:36-44 | an id is a key exactly when some row's text name maps to it; its value is the last such row's counts, with text counting 0 and numbers truncated |
| XlsOprt.AttendanceJoin | libs/xls_oprt.py:33-44 | through the inverted id/name map, a row joins exactly when its name is text and a name of sheet 0; a joined id is an id of sheet 0 with that name |
| XlsOprt.AttendedDaysCountPairs | libs/xls_oprt.py:28-46 | the returned map inverts sheet 0's id/name dictionary; the result is the joined dictionary's items in numeric order, and every id in it is an id of sheet 0 |
| XlsOprt.PerformanceDictOf | libs/xls_oprt.py:57-60 | computes the dictionary the performance loop builds, row by row, or none as soon as a kept row's `int(performance)` raises |
| XlsOprt.SignedPerformanceCell | libs/xls_oprt.py:57-60 | a kept row (`"7"`, `"- 5"`) stores -5 under `"7"` rather than raising |
| XlsOprt.PerformanceFailure | libs/xls_oprt.py:57-60 | the reader raises exactly when some kept row has a truthy performance cell that `int()` rejects |
| XlsOprt.PerformanceSuccess | libs/xls_oprt.py:55-60 | when it does not raise, its dictionary is the one the kept rows assign in order |
| XlsOprt.PerformanceDictSpec | libs/xls_oprt.py:55-60 | a key is `unicode(int(id))` of some kept row; its value is the last such row's performance, 0 when the cell is falsy |
| XlsOprt.PerformanceKeyNormalises | libs/xls_oprt.py:60 | the key is the id without leading zeros; two ids share a key exactly when they have the same value |
| XlsOprt.PerformanceFailureSticks | libs/xls_oprt.py:57-60 | once a prefix of the rows raises, the whole sheet raises |
| XlsOprt.WorkPerformance | libs/xls_oprt.py:49-62 | `get_work_performance` fails exactly when the dictionary's loop raises; otherwise it returns that dictionary's items in numeric order |
| SqliteWriter.DbKeys | libs/sqlite_writer.py:10-23 | the 25 data columns: `labor_hour_k` and `real_amount_k` at 2(k-1) and 2(k-1)+1 for k = 1..9, then `waste_1..3`, `assist_1..2`, `worker_id_aux`, `labor_hour_aux_to` |
| SqliteWriter.SchemaShape | libs/sqlite_writer.py:10-23 | 25 data names after the key `worker_id`, 26 columns in all; no data column is named `worker_id`; `labor_hour_aux_to` is column 24 alone; column 23 is `worker_id_aux` |
| SqliteWriter.Seeded | libs/sqlite_writer.py:44-52 | computes the table after one insert per worker id, an insert of an existing key changing nothing |
| SqliteWriter.SeededSpec | libs/sqlite_writer.py:41-52 | seeding adds a key-only row for each missing worker id and keeps every existing row (the `IntegrityError` path) |
| SqliteWriter.SeededTwice | libs/sqlite_writer.py:44-52 | seeding twice equals seeding once |
| SqliteWriter.EnsureTable | libs/sqlite_writer.py:55-78 | computes the store after `create_table(name)`: the named table, empty if new, seeded with the worker ids |
| SqliteWriter.EnsureTableSpec | libs/sqlite_writer.py:55-78 | `create_table` adds at most the named table; it keeps other tables and existing rows; a new table holds exactly one empty row per worker; repeating it changes nothing |
| SqliteWriter.WriteBackState | libs/sqlite_writer.py:81-86 | computes the store after `write_back`: the created table with the columns `dumped` names replaced in the row keyed `dumped['worker_id']` |
| SqliteWriter.WriteBackSingleState | libs/sqlite_writer.py:89-95 | computes the store after `write_back_single`: the created table with `labor_hour_aux_to` replaced in the matching row |
| SqliteWriter.WriteBackFrame | libs/sqlite_writer.py:81-86 | after `create_table(day)`, the update changes only the columns `dumped` names in the row keyed `dumped['worker_id']`; it adds no rows or tables beyond those `create_table` adds |
| SqliteWriter.SingleIsWriteBack | libs/sqlite_writer.py:89-95 | `write_back_single` equals `write_back` of `{worker_id, labor_hour_aux_to}` |
| SqliteWriter.RetrieveAfterWriteBack | libs/sqlite_writer.py:98-108 | after `write_back`, `retrieve` of a worker with a row finds it, with the written values in the named columns and earlier values elsewhere |
| SqliteWriter.RecordIsEmpty | libs/sqlite_writer.py:119 | computes `not any(row[key] for key in _db_keys[:-1])`: no column before `labor_hour_aux_to` is truthy |
| SqliteWriter.EmptinessSkipsAuxTo | libs/sqlite_writer.py:119 | the emptiness test ignores `labor_hour_aux_to` but no other column; a truthy value in any other column makes the row non-empty |
| SqliteWriter.Rotated | libs/sqlite_writer.py:125-126 | computes `l[27:] + l[:27]` when there are more than 27 names, `l` otherwise |
| SqliteWriter.RotatedIsPermutation | libs/sqlite_writer.py:125-126 | the rotation reorders without loss and is undone by rotating back |
| SqliteWriter.RotatedIndex | libs/sqlite_writer.py:125-126 | up to 27 names nothing moves; beyond that, sorted name 27 comes first and sorted name 0 follows the last |
| SqliteWriter.MonthDaysAreNames | libs/sqlite_writer.py:122-128 | the days listed are exactly the table names |
| SqliteWriter.DayNamesInOrder | libs/sqlite_writer.py:124 | tables "1" to "n" sort as 1, 2, ..., n, and no two stand for the same day |
| SqliteWriter.FullMonthDays | libs/sqlite_writer.py:122-128 | for tables "1" to "n" with n > 27 the days are 28, ..., n, 1, ..., 27 |
| SqliteWriter.DataOfRecord | libs/sqlite_writer.py:135-156 | computes the four sums of a non-empty row: 8 × the sum of the labour ratios (not rounded), aux-to, waste and assist, null as 0 |
| SqliteWriter.DataOfRecordFields | libs/sqlite_writer.py:145-156 | waste sums columns 18-20 and assist columns 21-22, null as 0; aux-to is `labor_hour_aux_to` or 0 |
| SqliteWriter.LaborPairContribution | libs/sqlite_writer.py:137-143 | each labour pair adds 8 × `real_amount / labor_hour` when both are truthy, and nothing else |
| SqliteWriter.RatioSumPermutation | libs/sqlite_writer.py:137-142 | the labour-ratio sum does not depend on the order of the pairs |
| SqliteWriter.LaborPairsPermutation | libs/sqlite_writer.py:135-156 | records whose nine labour pairs agree up to order have the same labour-hour sum, and the same four sums when their other columns agree |
| SqliteWriter.BlankRowsGiveZeros | libs/sqlite_writer.py:134-158 | a missing row, a key-only row and a row holding only `labor_hour_aux_to` all give `(0, 0, 0, 0)` |
| SqliteWriter.DemoRecordSums | libs/sqlite_writer.py:135-156 | 100 hours and 600 amount, waste 20, aux id 101, aux-to 10 give `(48, 10, 20, 0)` |
| SqliteWriter.SumRecord | libs/sqlite_writer.py:135-156 | the three summing loops compute the row's sums |
| SqliteWriter.DataPerDayAsWritten | libs/sqlite_writer.py:131-158 | computes `get_data_per_day` as written: the store and sums, or none where a missing row sends `is_empty_row` to the unset default day |
| SqliteWriter.DataPerDay | libs/sqlite_writer.py:131-158 | computes `get_data_per_day` as intended: the store after `create_table(day)` and the sums of the worker's row, zeros when it is empty or missing |
| SqliteWriter.DataPerDayAsWrittenFails | libs/sqlite_writer.py:133-134 | as written, the call fails exactly when the worker has no row that day and no default day is set; otherwise it gives the intended sums; when the default day's table exists and is already seeded, it gives the intended store as well |
| SqliteWriter.ReadOnlyMissingRowRaises | libs/sqlite_writer.py:133-134 | a read-only operator asking for worker 7 on an empty day "1" fails where zeros are intended |
| SqliteWriter.EnsureTablesSpec | libs/sqlite_writer.py:164-165 | visiting stored days adds no table, seeds each visited table and leaves the others |
| SqliteWriter.EnsureTablesNext | libs/sqlite_writer.py:164-165 | each step of the month loop is `get_data_per_day` on the store the earlier steps left, and yields the worker's sums in that day's seeded table |
| SqliteWriter.SqliteOperator.constructor | libs/sqlite_writer.py:25-35 | with a day, that table is created and seeded and becomes the default; without one the store is unchanged and there is no default |
| SqliteWriter.SqliteOperator.InitTable | libs/sqlite_writer.py:38-52 | the table gains a row for each worker it lacked; nothing else changes, and nothing at all without workers |
| SqliteWriter.SqliteOperator.CreateTable | libs/sqlite_writer.py:55-78 | a falsy name resolves to the default day; the store becomes `EnsureTable` of that name |
| SqliteWriter.SqliteOperator.WriteBack | libs/sqlite_writer.py:81-86 | the store becomes the created table with the matching row's named columns replaced |
| SqliteWriter.SqliteOperator.WriteBackSingle | libs/sqlite_writer.py:89-95 | the same with only `labor_hour_aux_to` replaced |
| SqliteWriter.SqliteOperator.Retrieve | libs/sqlite_writer.py:98-108 | the table is created or seeded, and the row with that key is returned, or none |
| SqliteWriter.SqliteOperator.IsEmptyRow | libs/sqlite_writer.py:111-119 | a given row is tested without touching the store; otherwise the retrieved row; a missing row is empty |
| SqliteWriter.SqliteOperator.MonthDaysInDb | libs/sqlite_writer.py:122-128 | the table names in numeric order, rotated by 27 when there are more than 27 |
| SqliteWriter.SqliteOperator.GetDataPerDay | libs/sqlite_writer.py:131-158 | the store after creating the day's table, and the sums of the worker's row, zeros for an empty or missing row |
| SqliteWriter.SqliteOperator.IterateWorker | libs/sqlite_writer.py:161-165 | one result per stored day in month-days order; each is the worker's sums in that day's seeded table, and every visited table is seeded. Built on the corrected `get_data_per_day` (see Findings): a day without the worker's row gives zeros, where the code as written raises on an operator without a default day |

## Left out

- The SQLAlchemy engine, metadata reflection, connections and `__del__` are not modelled; the database is the value `tables`.
- The `self.table` attribute that `create_table` caches is left out; `CreateTable` returns the resolved name instead.
- The `DEBUG` branches of `create_table` are left out, because `DEBUG` is always `False`.
- The `__main__` demonstrations are left out; `DemoRecordSums` states the sums of the demonstration's row.
- xlrd and the workbook file are left out: sheets are given as columns of `Cell` values.
- `libs/misc.py` is not part of this model. Its helpers are specified by their contracts, not by their bodies.
- SqliteWriter.DataOfRecord: the labour-hour sum is kept as an exact `real`; the `round(., 1)` of line 143 and float division are not modelled.
- Numbers.IntOfString: `int()`, `isdigit()` and `unicode()` are modelled on ASCII digits and ASCII white space (space and `\t` to `\r`) only. Unicode digits are not modelled, nor the further white space Python 2 skips in a unicode string (`\x1c` to `\x1f`, non-ASCII spaces). This affects the performance cells, the `int(worker_id)` of `init_table` (`AllInts`) and the numeric sort keys (`NumericKey`).
- XlsOprt.IdNameDict, XlsOprt.NumberedDict, XlsOprt.AttendedDaysCountPairs: a numeric cell in column 0 raises `AttributeError` on `id.isdigit()` (lines 25 and 74, and through line 33 in the attendance reader). The model skips the row, as it does any other non-digit id.
- XlsOprt.AttendedDaysCountPairs: when two ids share a name, which id `invert_dict` keeps is left open, as the helper's body is not modelled.
- Misc.SortDictKeysNumerically: keys with the same integer value (`"7"`, `"07"`) may come in either order. Python's order there depends on dictionary order.
- `worker_dict` is modelled as the sequence of its keys; `None` is the empty sequence. A falsy `day` or name is modelled as `""`.
- SqliteWriter.SqliteOperator.constructor: requires every worker key to be accepted by `int()`. With a day, `init_table` would raise `ValueError` inside the constructor. Without a day, the source builds the operator and raises only at its first `create_table`. Neither path is modelled.
- SqliteWriter.SqliteOperator.CreateTable: requires a default day when the name is falsy. The source's `AttributeError` there is excluded, except in `DataPerDayAsWritten`, which models it.
- SqliteWriter.SqliteOperator.WriteBack: requires `dumped` to hold `worker_id` and to name only columns of the table. Otherwise the source raises after `create_table` has already changed the store: a `KeyError` on `dumped['worker_id']`, or SQLAlchemy's error for an unknown column name. Neither error path is modelled.
- SqliteWriter.SqliteOperator.MonthDaysInDb: requires every table name to be accepted by `int()`, because the sort raises otherwise.
- SqliteWriter.SqliteOperator.IterateWorker: the generator is modelled as a method returning the list of everything it yields.
- The unused `_` helper at `libs/xls_oprt.py:56` is not modelled.
- The emptiness test follows line 119: it skips the last key of `_db_keys`, `labor_hour_aux_to`, and tests `worker_id_aux` like every other column.

## Findings

| source | as written | input that shows it | evidently intended | confidence | as-written member | corrected member |
|---|---|---|---|---|---|---|
| libs/sqlite_writer.py:133-134 | a missing row is passed on as `row=None`, so `is_empty_row` retrieves again with no day, and `create_table(None)` reads `self.default_name` | an operator built without a day (no `default_name`), a stored empty table "1", `get_data_per_day(7, "1")`: raises `AttributeError` | a worker with no row that day gets `(0, 0, 0, 0)`, as `BlankRowsGiveZeros` states | not executed | SqliteWriter.DataPerDayAsWritten, SqliteWriter.ReadOnlyMissingRowRaises | SqliteWriter.DataPerDay, SqliteWriter.SqliteOperator.GetDataPerDay, SqliteWriter.SqliteOperator.IterateWorker |
