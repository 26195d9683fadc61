# Ocean-to-Database, modelled in Dafny

Ocean-to-Database takes external sea-surface temperature (`sst`) and salinity
(`sss`/`sal`) series and writes them into a mooring's per-deployment
"engineering" tables. Each row of an engineering table is keyed by its
header time (`hdrtime`). The project models these parts:

- **Aligner** (`aligner.dfy`, module `Aligner`, from `align_arrays.py`). For
  every pivot it picks the closest value of a sorted search array. The search
  array is sorted first. With a tolerance, a value too far away gives an
  empty slot. The model shows that the result is the *least nearest* value:
  nearest to the pivot, and the lower one on a tie. It follows that the
  result does not depend on the order of the search array. An empty search
  array raises an `IndexError`.
- **SQL builders** (`sql_query.dfy`, module `SqlQuery`, from
  `generate_sql_query.py`).
  - The engineering-table name is `eng_<4-digit system number>_<station,
    lower-cased>_<start date>`. Distinct deployments of one station give
    distinct names, for every system number and station name.
  - The two `UPDATE` statements are kept as structured values.
  - The `run_update_sql` loop pairs header times with values. A `Cursor` class
    records every `execute` it receives.
- **Uploader** (`uploader.dfy`, module `Uploader`, from
  `external_data_to_database.py`). The class `DatabaseUploader` works over a
  `Store`. The store's three functions stand for the database's answers: the
  deployments of a station, the header times of a table, and whether a table
  exists.
  - `update_table` takes the date range of the data.
  - It builds and filters the table names.
  - For every table and parameter, it drops the non-positive rows. It then
    shifts the header times by 17 minutes and aligns them with a 20-minute
    tolerance. It writes one `UPDATE` per matched header time.
  - It returns metadata.

  The whole run is proved equal to a specification, `Reconciliation`. That
  specification gives both the returned result and the exact log of executed
  statements. One unit of work (one table, one parameter) is proved equal to
  an independent definition, `ReferenceUpdates`. That definition does not use
  the aligner: it names the least nearest sample within tolerance of each
  shifted header time.
- **NDBC parser** (`ndbc_parser.dfy`, module `NdbcParser`, from
  `parse_NDBC_temperature_and_salinity.py`).
  - Splits lines on whitespace runs.
  - Recognises data and header lines.
  - Applies the length rules of the timestamp tokens.
  - Drops rows with a repeated timestamp, keeping the first.
  - Takes the parameter and station from the file name.

Python exceptions become `Result` values (`outcomes.dfy`). Their `Error` cases
are `IndexError`, `KeyError`, `AssertionError` and `ValueError`. Times are whole minutes
(`int`). Sensor values are `real`. Text helpers and the subsequence relation
are in `strings.dfy`.

Where the code's own docstrings and the code disagree, and where the code
does something a reader might not expect, the model follows the code:

- **No valid rows.** When a parameter has no positive rows, `find_closest`
  (align_arrays.py:4-24) indexes the empty search array. So when the table
  has header times, `update_table` raises `IndexError` instead of making no
  updates (`Uploader.UnitOutcomes`).
- **Testing mode.** The constructor's docstring
  (external_data_to_database.py:35) says testing mode makes no updates. The
  code stores the `testing` flag and never reads it, so updates are executed
  either way.
- **Existence filter.** The docstring of `_test_for_eng_table_existence`
  (external_data_to_database.py:93) says non-existent tables are removed. The
  code removes items from the list it is iterating over, so the entry right
  after a removed one is never checked (`Uploader.SweepSkipsNext`). For a
  list without repeats, the filter is proved equal to that skipping
  behaviour (`Uploader.SweepIsSurvivors`).
- **Sharing sensor points.** Two header times can be matched to the same
  sample: each pivot picks its nearest sample on its own, and nothing in the
  alignment stops two pivots from picking the same one. The model keeps that
  behaviour.

## Model

| member | source | states |
|---|---|---|
| Aligner.SearchSorted | align_arrays.py:17 | `np.searchsorted(side='left')`: everything before the index is below the pivot, everything from it on is at or above it |
| Aligner.ArgMin | align_arrays.py:21 | `np.argmin`: the index of a smallest distance, the first one on a tie |
| Aligner.WindowLeastNearest | align_arrays.py:17-22 | the closer of the two values around the insertion point is the least nearest value of the whole array |
| Aligner.FindClosest | align_arrays.py:4-24 | fails (IndexError) exactly on an empty array; otherwise returns the least nearest value to the pivot |
| Aligner.ClosestWithinDistance | align_arrays.py:27-41 | fails exactly on an empty array; empty slot exactly when every value is farther than the tolerance; otherwise the least nearest value |
| Aligner.LeastNearestUnique | align_arrays.py:4-24 | the least nearest value is determined by the set of values and the pivot alone |
| Aligner.LeastNearestExists | align_arrays.py:4-24 | a non-empty array always has a least nearest value |
| Aligner.ClampsBelow | align_arrays.py:23-24 | a pivot at or below the first value gets the first value |
| Aligner.ClampsAbove | align_arrays.py:18-22 | a pivot above the last value gets the last value |
| Aligner.ExactHit | align_arrays.py:4-24 | a pivot present in the array is returned itself |
| Aligner.TieGoesLow | align_arrays.py:21-22 | a pivot halfway between two neighbours gets the lower one |
| Aligner.StrictlyNearest | align_arrays.py:4-24 | a value strictly nearer than all others is the one returned |
| Aligner.Insert | align_arrays.py:61 | inserting keeps the sequence sorted and adds exactly one occurrence |
| Aligner.Sort | align_arrays.py:61 | the sorted copy is sorted and a permutation of its input |
| Aligner.SortedUnique | align_arrays.py:61 | two sorted permutations of the same values are equal, so any stable sort gives the same array |
| Aligner.MatchPivot | align_arrays.py:63 | one output slot fails exactly when the sorted array is empty |
| Aligner.AlignArrays | align_arrays.py:44-64 | the loop fills every slot with the sorted-array match of its pivot, in pivot order |
| Aligner.Aligned | align_arrays.py:44-64 | the output of `align_arrays`: the search array is sorted once and every pivot gets its match in the sorted copy, in pivot order; with at least one pivot, an empty search array is an IndexError (its meaning is `Aligner.AlignedSlots` and `Aligner.AlignedFailure`) |
| Aligner.AlignedSlots | align_arrays.py:44-64 | one slot per pivot, each empty or the least nearest value, empty only with a tolerance and only when nothing is within it |
| Aligner.AlignedFailure | align_arrays.py:60-64 | alignment fails exactly when the search array is empty and there is at least one pivot, always with IndexError |
| Aligner.AlignedMembers | align_arrays.py:60-64 | every filled slot holds a value of the search array |
| Aligner.SlotDependsOnPivotOnly | align_arrays.py:62-63 | a slot depends on its own pivot only, not on the other pivots or its position |
| Aligner.PermutationInvariant | align_arrays.py:61 | reordering the search array does not change the output |
| Aligner.AlignedOnSorted | align_arrays.py:60-64 | on an already sorted array the output is the slot-by-slot match |
| Aligner.UnboundedExample | align_arrays.py:44-64 | search [10,20,30], pivots [5,15,25,100], no tolerance: [10,10,20,30] |
| Aligner.BoundedExample | align_arrays.py:44-64 | search [10,20,30], pivots [11,25], tolerance 3: [10, empty] |
| SqlQuery.PadSystemNumber | generate_sql_query.py:45 | the padded number is at least four characters, ends with the decimal digits and is zero-filled in front |
| SqlQuery.IntToString | generate_sql_query.py:45 | `str(system_num)`: the decimal digits, with a `-` in front of a negative number |
| SqlQuery.Zeros | generate_sql_query.py:45 | `'0' * k`: k zeros, and none when k is zero or negative, as Python's repetition gives |
| SqlQuery.DecimalRoundTrip | generate_sql_query.py:45 | the decimal text of a non-negative number reads back as that number |
| SqlQuery.DecimalLength | generate_sql_query.py:45 | a number below 10^k has between 1 and k decimal digits |
| SqlQuery.LeadingZeros | generate_sql_query.py:45 | zeros in front do not change the value of a digit string |
| SqlQuery.PaddedValue | generate_sql_query.py:45 | a system number in 0..9999 pads to exactly four digits that read back as the number |
| SqlQuery.IntToStringInjective | generate_sql_query.py:45 | different integers have different `str` texts |
| SqlQuery.PadHasNoSeparator | generate_sql_query.py:45 | the padded system number never contains `_` |
| SqlQuery.PadInjective | generate_sql_query.py:45 | different system numbers, of any size or sign, pad to different texts |
| SqlQuery.SameStationInjective | generate_sql_query.py:35-47 | two names built for the same station are equal only when the system numbers and the start dates are |
| SqlQuery.TableNameInjective | generate_sql_query.py:35-47 | with no `_` in either station name, equal table names have the same number, the same lower-cased station and the same start date; without that condition a `_` in a station can move into the date |
| SqlQuery.StationSeparatorCollision | generate_sql_query.py:47 | stations `a_b` with date `c` and `a` with date `b_c` give the same name, so the condition in `SqlQuery.TableNameInjective` is needed |
| SqlQuery.EngineeringTableName | generate_sql_query.py:35-47 | `eng_`, the padded system number, `_`, the lower-cased station, `_`, the start date (injective by `SqlQuery.TableNameInjective`) |
| SqlQuery.GenerateUpdateSql | generate_sql_query.py:83-95 | AssertionError unless the column is `sst` or `sal`; otherwise sets the column from a placeholder, the flag to 0, keyed on one header time |
| SqlQuery.IsParameterColumn | generate_sql_query.py:78 | the column the statements may write is `sst` or `sal`; the assertion at generate_sql_query.py:93 tests the same |
| SqlQuery.GenerateParamResetSql | generate_sql_query.py:66-80 | AssertionError unless the column is `sst` or `sal`; otherwise sets the column to -99 and the flag to 11 for header times between the two rendered dates |
| SqlQuery.Cursor.Execute | generate_sql_query.py:111 | the cursor records the one statement with its value and key, and nothing else changes |
| SqlQuery.ZipAt | generate_sql_query.py:110 | `zip` stops at the shorter input; entry k pairs the k-th value with the k-th time |
| SqlQuery.Zip | generate_sql_query.py:110 | one execution of the update statement per pair of `zip(dtimes, param_data)`, in order (its meaning is `SqlQuery.ZipAt`) |
| SqlQuery.RunUpdateSql | generate_sql_query.py:98-111 | the cursor receives exactly the pairs of `zip(dtimes, param_data)`, in order |
| Uploader.MappingsAgree | external_data_to_database.py:14-22 | every mapped parameter is an updatable column; the inverse mapping covers exactly those columns and maps each back to a name that maps to it |
| Uploader.DateRangeOf | external_data_to_database.py:57-59 | IndexError exactly on empty data |
| Uploader.DateRangeCovers | external_data_to_database.py:49-59 | for sorted data the range runs from the first time to the last plus 10 minutes, and covers every time with 10 minutes to spare |
| Uploader.RemoveFirstCounts | external_data_to_database.py:102 | `list.remove` takes away exactly one occurrence |
| Uploader.RemoveFirst | external_data_to_database.py:102 | `list.remove`: the first equal entry is taken out, so the list is one shorter; a list without the name is unchanged (the loop only removes names it holds) |
| Uploader.RemoveFirstSubseq | external_data_to_database.py:102 | `list.remove` keeps the order of the other entries |
| Uploader.SweepSubseq | external_data_to_database.py:97-102 | the existence filter keeps the order and only removes entries |
| Uploader.Sweep | external_data_to_database.py:98-102 | the `for` loop over a list it shrinks: position i is checked, a missing table is removed and the position still moves on by one |
| Uploader.SweepRemovesOnlyMissing | external_data_to_database.py:97-102 | no name that exists is removed |
| Uploader.SweepSkipsNext | external_data_to_database.py:98-102 | after a removal the next entry is not checked: two missing tables in a row leave the second in the list |
| Uploader.RemoveFirstAfter | external_data_to_database.py:102 | removing a name not in the checked prefix takes it out at the current position |
| Uploader.SweepIsSurvivorsFrom | external_data_to_database.py:97-102 | from any point of the loop, the rest of the filter keeps what is checked and present and every entry that follows a removal |
| Uploader.SweepIsSurvivors | external_data_to_database.py:97-102 | for a list without repeats the filter equals that rule |
| Uploader.TableNames | external_data_to_database.py:78-85 | one table name per deployment returned by the query |
| Uploader.TableNamesDistinct | external_data_to_database.py:71-85 | distinct deployments of the station give distinct table names, with no condition on the system numbers or the station name |
| Uploader.SweptNamesComeFromDeployments | external_data_to_database.py:71-88 | every table kept is named after one of the station's deployments |
| Uploader.PositiveRowsExact | external_data_to_database.py:122 | a sample is kept exactly when its row has a value above zero |
| Uploader.PositiveRows | external_data_to_database.py:122 | `data[data[p] > 0]`: the rows whose value is above zero, in frame order (its meaning is `Uploader.PositiveRowsExact`) |
| Uploader.Positive | external_data_to_database.py:122 | KeyError exactly when the parameter is not a column |
| Uploader.ValueAt | external_data_to_database.py:131 | a found value is the one stored at that time; a missing time is a KeyError |
| Uploader.ValueAtFound | external_data_to_database.py:131 | a time present in the samples is found |
| Uploader.Shift | external_data_to_database.py:182 | every header time plus 17 minutes, one per header time |
| Uploader.Times | external_data_to_database.py:183 | the `datetime` column of the sample rows as an array, one time per row, in row order |
| Uploader.MatchedKeys | external_data_to_database.py:128 | the header times whose aligned slot is filled, in order |
| Uploader.MatchedValues | external_data_to_database.py:131 | the values at the filled slots' times, in order; the first missing time is a KeyError |
| Uploader.MatchedValuesFound | external_data_to_database.py:128-131 | when every aligned time is a sample time, every lookup succeeds |
| Uploader.MatchedValue | external_data_to_database.py:131 | the value read for a matched header time is that of its least nearest sample |
| Uploader.ReferenceEntries | external_data_to_database.py:119-135 | each reference update uses the table's statement and a header time that matches, with the value of the least nearest sample within tolerance |
| Uploader.ReferenceKeysInOrder | external_data_to_database.py:128 | the updated header times keep their query order |
| Uploader.MatchedHeaderTimesMembers | external_data_to_database.py:128 | a header time is kept exactly when a sample lies within 20 minutes of it shifted by 17 |
| Uploader.ReferenceKeysFiltered | external_data_to_database.py:128 | the reference updates are keyed by exactly those header times |
| Uploader.ReferenceKeysMatched | external_data_to_database.py:128 | a header time is updated exactly when a sample lies within 20 minutes of it shifted by 17 |
| Uploader.PairsMatchReference | external_data_to_database.py:128-135 | pairing the header times of filled slots with the looked-up values gives the reference updates |
| Uploader.UnitMatchesReference | external_data_to_database.py:120-135 | a successful table/parameter step issues exactly the reference updates for the positive rows |
| Uploader.Unit | external_data_to_database.py:120-135 | one table and one parameter, in the code's order: column lookup, positive rows, header times, alignment, value lookups, mapping lookup, statement, then the updates (its meaning is `Uploader.UnitOutcomes`, `Uploader.UnitMatchesReference` and `Uploader.UnitWrites`) |
| Uploader.UnitOutcomes | external_data_to_database.py:120-135 | missing column: KeyError; no positive rows but header times: IndexError; otherwise success exactly when the parameter is mapped; no header times: no updates |
| Uploader.UnitWrites | external_data_to_database.py:119-135 | every update of a step goes to its table, a parameter column, flag 0, one of the table's header times, and a positive value |
| Uploader.ParamsStep | external_data_to_database.py:120-135 | a successful parameter extends the log by its updates |
| Uploader.ParamsRun | external_data_to_database.py:120-135 | the inner loop over the parameters: the updates of each in turn, stopping at the first exception |
| Uploader.TablesRun | external_data_to_database.py:119-135 | the outer loop over the tables: each table's parameter run in turn, stopping at the first exception |
| Uploader.ParamsStepLog | external_data_to_database.py:120-135 | the cursor log after a successful parameter is the prefix log plus the run so far |
| Uploader.ParamsStop | external_data_to_database.py:120-135 | a failing parameter ends the run with its error |
| Uploader.ParamsFailureSticks | external_data_to_database.py:120-135 | once a parameter fails, later ones change nothing |
| Uploader.TablesStepLog | external_data_to_database.py:119-135 | each table adds its parameters' updates to the log; its failure ends the run |
| Uploader.TablesFailureSticks | external_data_to_database.py:119-135 | once a table fails, later tables change nothing |
| Uploader.ParamsRunWrites | external_data_to_database.py:120-135 | every update of one table's run stays within that table's bounds |
| Uploader.TablesRunWrites | external_data_to_database.py:119-135 | every update of the whole run goes to a listed table, within bounds |
| Uploader.MapParameters | external_data_to_database.py:140 | KeyError naming an unmapped parameter exactly when one exists; otherwise each parameter's column, in order |
| Uploader.ReconciliationMetadata | external_data_to_database.py:138-145 | metadata holds the station, the date range, the mapped columns, and tables kept in order from the station's deployments |
| Uploader.TablesFor | external_data_to_database.py:116 | the table names of the station's deployments in the range, after the existence filter |
| Uploader.Reconciliation | external_data_to_database.py:105-145 | `update_table`: IndexError on empty data; otherwise the table loops, then the metadata, with the log of every update executed before any exception (its meaning is `Uploader.ReconciliationMetadata` and `Uploader.ReconciliationWrites`) |
| Uploader.ReconciliationWrites | external_data_to_database.py:105-145 | empty data: IndexError and no updates; otherwise every update goes to a kept table within bounds |
| Uploader.DatabaseUploader.constructor | external_data_to_database.py:27-47 | a fresh cursor with nothing executed |
| Uploader.DatabaseUploader.TestForEngTableExistence | external_data_to_database.py:91-102 | the loop computes the existence filter as written, skip included |
| Uploader.DatabaseUploader.GetEngineeringTableNames | external_data_to_database.py:61-88 | the table names of the station's deployments in the date range, filtered by existence |
| Uploader.DatabaseUploader.GetHdrtimesAndAlignedTimes | external_data_to_database.py:163-184 | the table's header times, and their alignment after the 17-minute shift with a 20-minute tolerance |
| Uploader.DatabaseUploader.UpdateUnit | external_data_to_database.py:120-136 | one table/parameter step: on failure nothing is executed; on success exactly its updates are |
| Uploader.DatabaseUploader.UpdateParameters | external_data_to_database.py:120-136 | the inner loop executes the parameters' updates in order, stopping at the first failure |
| Uploader.DatabaseUploader.UpdateTable | external_data_to_database.py:105-145 | returns the reconciliation result and executes exactly its log |
| NdbcParser.LStrip | parse_NDBC_temperature_and_salinity.py:28 | what remains starts with a non-space, and everything dropped was whitespace |
| NdbcParser.LStripSuffix | parse_NDBC_temperature_and_salinity.py:28 | what remains is the unchanged rest of the line |
| NdbcParser.SplitNoSpace | parse_NDBC_temperature_and_salinity.py:30 | no token contains whitespace |
| NdbcParser.SplitFirstPiece | parse_NDBC_temperature_and_salinity.py:30 | a stripped, non-empty line splits into a non-empty first token |
| NdbcParser.SplitInnerPieces | parse_NDBC_temperature_and_salinity.py:30 | every token but the first and the last is non-empty |
| NdbcParser.Split | parse_NDBC_temperature_and_salinity.py:30 | `re.split(r'[\s\t]+', line)`: the pieces between maximal whitespace runs, at least one |
| NdbcParser.SplitRoundTrip | parse_NDBC_temperature_and_salinity.py:30 | the pieces joined with the non-empty whitespace runs they were cut at give the line back |
| NdbcParser.SplitUnique | parse_NDBC_temperature_and_salinity.py:30 | any cut of a line into whitespace-free pieces, non-empty except at the ends, separated by non-empty whitespace runs, is the one `Split` returns |
| NdbcParser.NonEmpty | parse_NDBC_temperature_and_salinity.py:32-33 | keeps exactly the non-empty tokens |
| NdbcParser.Take | parse_NDBC_temperature_and_salinity.py:31 | `line[:2]`: the first two tokens, or all of them when there are fewer, as a prefix of the tokens |
| NdbcParser.Drop | parse_NDBC_temperature_and_salinity.py:32 | `line[2:]`: the tokens after the first two, empty when there are at most two; it and `Take` together give the tokens back |
| NdbcParser.NonEmptyKeepsOrder | parse_NDBC_temperature_and_salinity.py:32-33 | the kept tokens are a subsequence of the tokens, in their original order |
| NdbcParser.NonEmptyKeepsCounts | parse_NDBC_temperature_and_salinity.py:32-33 | each non-empty token is kept as often as it occurs, and no empty one |
| NdbcParser.ParseTimestamp | parse_NDBC_temperature_and_salinity.py:73-86 | IndexError for a missing token; AssertionError unless the date has 8 characters and the time 6 or 4; a 4-character time gets zero seconds |
| NdbcParser.DataRowsFailureSticks | parse_NDBC_temperature_and_salinity.py:27-39 | a bad data line ends the parse with its exception |
| NdbcParser.NdbcFileToList | parse_NDBC_temperature_and_salinity.py:12-46 | the loop gives the first header line's header and one row per data line, or the first failure, or AssertionError when header and first row differ in length |
| NdbcParser.DataRowsPerLine | parse_NDBC_temperature_and_salinity.py:27-39 | the parse fails exactly when some data line fails; otherwise one row per data line, in order |
| NdbcParser.ParseDataLine | parse_NDBC_temperature_and_salinity.py:30-38 | a data line's row: the timestamp of its first two tokens, then its non-empty tokens from the third on, in order |
| NdbcParser.IsDataLine | parse_NDBC_temperature_and_salinity.py:29 | a stripped line is a data line exactly when its first character is `1` or `2` |
| NdbcParser.DataRows | parse_NDBC_temperature_and_salinity.py:27-39 | the rows of the data lines in file order, or the first data line's exception (its meaning is `NdbcParser.DataRowsPerLine`) |
| NdbcParser.FirstHeader | parse_NDBC_temperature_and_salinity.py:40-43 | the header of the first header line not taken for data, or empty (its meaning is `NdbcParser.FirstHeaderIsFirst` and `NdbcParser.NoHeaderYet`) |
| NdbcParser.ParseLines | parse_NDBC_temperature_and_salinity.py:12-46 | what `ndbc_file_to_list` returns: the data rows' exception, AssertionError when a header and a first row differ in length, or the header and the rows |
| NdbcParser.RowShape | parse_NDBC_temperature_and_salinity.py:30-38 | a row has an 8-character date, a 6-character time, and non-empty fields without whitespace |
| NdbcParser.FirstHeaderIsFirst | parse_NDBC_temperature_and_salinity.py:40-43 | the first header line sets the header, whatever follows |
| NdbcParser.NoHeaderYet | parse_NDBC_temperature_and_salinity.py:40 | without a header line the header stays empty |
| NdbcParser.HeaderShape | parse_NDBC_temperature_and_salinity.py:42 | the header starts with `datetime` and its other names are non-empty and lower-case |
| NdbcParser.HeaderOf | parse_NDBC_temperature_and_salinity.py:41-42 | `datetime`, then the lower-cased non-empty tokens from the third on (its shape is `NdbcParser.HeaderShape`) |
| NdbcParser.IsHeaderLine | parse_NDBC_temperature_and_salinity.py:40 | a stripped line is a header line exactly when it starts with four `Y` characters |
| NdbcParser.LowerAll | parse_NDBC_temperature_and_salinity.py:42 | one name per name, each of the same length and without an upper-case letter |
| NdbcParser.LineKindsDisjoint | parse_NDBC_temperature_and_salinity.py:29-40 | no line is both a data line and a header line |
| NdbcParser.DropDuplicatesStamps | parse_NDBC_temperature_and_salinity.py:100 | dropping duplicates keeps every timestamp |
| NdbcParser.DropDuplicates | parse_NDBC_temperature_and_salinity.py:100 | keep-first on the timestamp: a row is kept unless an earlier kept row has its timestamp (its meaning is `NdbcParser.DropDuplicatesKeepsFirst`) |
| NdbcParser.DropDuplicatesKeepsFirst | parse_NDBC_temperature_and_salinity.py:100 | exactly the first row of each timestamp is kept, in order |
| NdbcParser.DropDuplicatesDistinct | parse_NDBC_temperature_and_salinity.py:100 | the kept rows are in order with no repeated timestamp |
| NdbcParser.NdbcFileToDataframe | parse_NDBC_temperature_and_salinity.py:89-102 | the list parse's exception; with no header, KeyError for the missing `datetime` column when there are no rows and ValueError from the frame constructor when there are; otherwise the same header and rows in order, timestamps unique and none lost |
| NdbcParser.EmptyFileHasNoFrame | parse_NDBC_temperature_and_salinity.py:98-101 | an empty file gives KeyError for the `datetime` column |
| NdbcParser.BaseName | parse_NDBC_temperature_and_salinity.py:113 | the base name holds no `/` |
| NdbcParser.BeforeUnderscore | parse_NDBC_temperature_and_salinity.py:114 | `f.split('_')[0]`: the text before the first `_`, which holds no `_` |
| NdbcParser.BaseNameAfterSlash | parse_NDBC_temperature_and_salinity.py:113 | the base name of `dir/name` is `name` |
| NdbcParser.BeforeFirstUnderscore | parse_NDBC_temperature_and_salinity.py:114 | the first `_`-field of `prefix_rest` is `prefix` |
| NdbcParser.MetadataRoundTrip | parse_NDBC_temperature_and_salinity.py:105-117 | `dir/<3-char parameter><station>_<rest>` yields the lower-cased parameter and the station |
| NdbcParser.MetadataFromNdbcFilename | parse_NDBC_temperature_and_salinity.py:105-117 | the first three characters of the base name's first `_`-field, lower-cased, and the rest of that field (its meaning is `NdbcParser.MetadataRoundTrip`) |
| Strings.Lower | generate_sql_query.py:47 | `str.lower()` on ASCII: upper-case letters become lower-case, every other character is kept (`Strings.LowerKeepsNonLetters`) |

## Left out

- `SOFS_scrape.py` is not part of this model.
- The database connection is left out: psycopg2's `connect`, `commit`,
  `close_db_connection` and `reestablish_db_connection`. The database's
  answers are parameters (`Store`). The cursor records executed updates only.
  The `SELECT` queries (`datasetinfo_query_from_datetime`,
  `generate_hdrtime_query`, the existence query) are modelled only by their
  answers, not as SQL text.
- `datasetinfo_query_from_deployment` is not used by the core. Its
  `int`-type assertion is enforced by Dafny's type system.
- The `testing` flag is stored and never read, as in the code. The
  `test_copy_upload` argument of `update_table` is never read and is not
  modelled.
- `_preset_parameter_column` is left out: nothing in the core calls it. The
  statement it executes is modelled (`SqlQuery.GenerateParamResetSql`).
- Reading files (`gzip_generator`, `text_generator`) is left out. The parser
  takes the file's lines.
- `NdbcParser.ParseTimestamp` checks the token lengths only. `strptime`'s
  checks of digits and calendar values (its `ValueError`) are not modelled. A
  timestamp stays as its date and time text. For well-formed digit strings,
  comparing the text is the same as comparing the datetimes.
- `NdbcParser.NdbcFileToList` keeps fields as text: the `float` conversion is
  not modelled.
- `NdbcParser.NdbcFileToDataframe` models the parse, the failure of a frame
  without columns, and the keep-first drop of repeated timestamps. It does not
  model the other checks pandas makes when it builds the frame: a later row
  wider than the header raises `ValueError` in pandas, and a shorter one is
  padded with missing values.
- Lower-casing and whitespace are ASCII only. Non-ASCII letters and Unicode
  spaces are not modelled.
- Sensor values are `real`. The source's floats can also be NaN or infinite.
  Those are not modelled, so the model does not capture that `data[p] > 0`
  (external_data_to_database.py:122) silently drops NaN rows.
- Dates are whole minutes. `strftime` renderings of dates in SQL text are
  left out. So are the `timedelta` and `datetime64` types.
- `Uploader.Unit` treats an aligned slot as empty exactly when it is `None`.
  In the code, `if atime` would also reject a `datetime64` at the epoch,
  which is falsy. That case is not modelled.
- The `np.ndarray` type assertions of `align_arrays.py` are enforced by the
  types.
- The frame's `datetime` index is assumed unique (`Uploader.WellFormed`), as
  the NDBC loader makes it. So `sub_data[p][dtime]` is one value. A frame
  with repeated times, where pandas returns a series, is not modelled.
- `update_table` records the `hdrtime` queries' answers but not the query
  text. Its `testing_queries` dictionary is never filled and is left out.
- Integer widths: times and system numbers are unbounded integers. Nothing
  in the core wraps.
