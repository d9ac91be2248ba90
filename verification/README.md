# A Dafny model of the OpossumDB storage engine and table scan

OpossumDB keeps tables in horizontal chunks. A chunk holds one segment per column: a
value segment (values and NULL flags), a dictionary segment (sorted dictionary and an
array of value ids, made by compressing a value segment), or a reference segment
(positions in another table, made by a scan). This project models that engine and its
scan operator in Dafny and proves that they compute what they are for:

- for any run of appends, new chunks and safe compressions and any chain of scans, the
  result is the appended rows filtered by all queries, in order and each once;
- dictionary compression preserves a column exactly when the column has no NULL or all its
  values are greater than its type's default value; every scan of a run's table answers from
  the appended rows if and only if every compression was safe in this sense;
- a scan result reads the same after any later operations on its table if and only if none
  of its rows is one that a compression since has lost; unless one is, operations between the
  scans of a session make no difference to its result;
- every interleaving of the per-column compression threads gives the sequential result.

## How it is organised

Two layers. The lower one describes the contents of segments, chunks and tables as values
(`StoredSegment`, `ChunkData`, `TableData`) and the operations as functions on them; all
theorems about runs, scans and threads are stated there. The upper one has the classes of
the engine, with fields updated in place, loops and shared objects; each object carries its
contents in a ghost `model`, and each method proves that the new contents are what the
specification of the operation gives for the old ones.

| file | content |
|---|---|
| `Types.dfy`, `Segments.dfy` | column types, order, cells, row ids; stored segments and how they read |
| `FixedWidthIntegerVector.dfy`, `ValueSegment.dfy`, `DictionarySegment.dfy` | the segment classes |
| `Encoding.dfy`, `DictionaryScan.dfy` | dictionary encoding and decoding; bounds and the id-only scan |
| `AppendedColumns.dfy` | columns as appending builds them, and when compression keeps them |
| `TableModel.dfy`, `Storage.dfy` | table operations on values; chunks, reference segments and tables as objects |
| `ScanModel.dfy`, `TableScan.dfy` | the scan on values; the scan operator over objects |
| `ScanTheorems.dfy`, `ScanChains.dfy`, `ScanAlgebra.dfy` | what every scan and every chain of scans guarantees |
| `ScanComparisons.dfy` | what a scan shows, in the arithmetic of each column type |
| `Runs.dfy`, `RunTheorems.dfy`, `UnsafeRuns.dfy` | runs of operations, and scans of the tables they reach |
| `Layout.dfy` | where the rows of a run are, and which operations complete |
| `Stability.dfy`, `Sessions.dfy` | scan results while their table changes; scans and operations in any order |
| `Engine.dfy` | tables created, filled, compressed and scanned through their methods |
| `FailedAppends.dfy` | appends that throw, and appends that are dropped |
| `CompressionThreads.dfy` | `compress_chunk` as a protocol of threads |

Choices that matter when comparing with the C++:

- `Cell` stands for `AllTypeVariant` and for `std::optional<T>`. The five column types share
  one `Value` type with one strict total order that is `operator<` on each of them; floating
  point is modelled by reals, so NaN does not occur.
- `type_cast` is a parameter: any deterministic partial function, which `Typed` says returns
  values of the column type where a result depends on that. Where the original throws,
  a method returns `false` or `None` and its contract says what has changed by then.
- `dynamic_pointer_cast` on a segment is a match on the `Segment` datatype.
- `Scannable` and `KnownAs` say which tables can be scanned: each chunk has readable stored
  segments of one length, or reference segments that share one position list, sit at their own
  column id and point at existing rows. Every base table and every scan result is one. The
  scan reads referenced columns by its own column id and does not look for the NULL row id;
  on such tables both are right.
- `store` maps each table that references can point to, by identity, to its contents.

Where the code and its comments disagree, the model follows the code. `dictionary_segment.hpp`
says that `operator[]` returns the value at a position; at a NULL it reads past the dictionary
(`Storage.Table.Subscript`, `Engine.SubscriptLosesNull`). `table.hpp` calls the target chunk size
a maximum; the chunks of a run stay within it exactly when it is at least one or nothing is
appended (`RunTheorems.ChunksWithinTargetIff`). Compression is meant to keep a
column; `Encoding.SmallValuesBesideNullAreLost` gives two columns that it changes, and
`Encoding.RoundTripIffPlaceholderSafe` says exactly when it does.

## Model

| member | source | states |
|---|---|---|
| Types.LessInEachType | src/lib/storage/dictionary_segment.cpp:39-41 | the order of sorting and scanning is `<` on the numbers of each column type, and dictionary order on strings |
| Encoding.SortedDistinctIsAscendingSet | src/lib/storage/dictionary_segment.cpp:37-41 | sort, unique and erase keep exactly the set of values, in strictly ascending order, never more than there were |
| Encoding.AscendingSetIsUnique | src/lib/storage/dictionary_segment.cpp:37-41 | only one strictly ascending sequence has a given set of elements, so any correct sort and unique give this dictionary |
| Encoding.DictionaryErasesSmallest | src/lib/storage/dictionary_segment.cpp:36-55 | the dictionary holds exactly the stored values, placeholders included, without the smallest of them if a NULL is present |
| Encoding.DictionaryAscendsInItsType | src/lib/storage/dictionary_segment.cpp:37-41 | the entries of a column's dictionary ascend in the arithmetic of its own type, strings in dictionary order |
| Encoding.Lookup | src/lib/storage/dictionary_segment.cpp:63-67 | a known value gets the id of its entry, a missing one id 0 by default insertion |
| Encoding.NarrowingIsLossless | src/lib/storage/fixed_width_integer_vector.cpp:13-23 | every id, the NULL id included, survives narrowing `set` then `get` in the chosen width, for every value segment |
| Encoding.WidthIsMinimal | src/lib/storage/dictionary_segment.cpp:20-33 | any narrower width would change some id that is stored |
| Encoding.WidthByDistinctValues | src/lib/storage/dictionary_segment.cpp:20-33 | one byte per id up to 256 distinct stored values, two up to 65536, four beyond, and every id is below that |
| Encoding.NullIdIsNeverMistaken | src/lib/storage/dictionary_segment.cpp:120-123 | without a NULL no stored id equals the NULL id, even if that id would not fit the width |
| Encoding.DecodesWronglyExactly | src/lib/storage/dictionary_segment.cpp:46-51 | the entries that decode to something else are exactly the non-NULL ones that hold the smallest stored value of a segment with a NULL |
| Encoding.DecodingDiffersWhereMisread | src/lib/storage/dictionary_segment.cpp:76-82 | the same in terms of cells: beside a NULL, a value not greater than the default and not greater than any other value |
| Encoding.RoundTripIffPlaceholderSafe | src/lib/storage/dictionary_segment.cpp:97-108 | decoding gives back all cells if and only if there is no NULL or every value is greater than `T{}` |
| Encoding.SmallValuesBesideNullAreLost | src/lib/storage/dictionary_segment.cpp:46-51 | concrete columns that do not round-trip: 0 beside a NULL reads as NULL, -5 beside a NULL reads as 0 |
| Encoding.MisreadDecodesToNext | src/lib/storage/dictionary_segment.cpp:63-80 | a wrongly decoded entry becomes the next greater stored value, placeholder included, or NULL if there is none |
| Encoding.DictionaryIsNonNullSet | src/lib/storage/dictionary_segment.cpp:36-55 | in a safe column the dictionary is exactly the set of non-NULL values |
| Encoding.IdsPreserveOrder | src/lib/storage/dictionary_segment.cpp:57-83 | in a safe column ids compare, by < and by =, as the values do |
| DictionaryScan.BoundsSplitDictionary | src/lib/storage/dictionary_segment.cpp:131-155 | the two bound ids split the entries into less, equal and greater; they coincide iff the value is absent, else the equal block is the one entry at the lower bound; the sentinel is above every real id |
| DictionaryScan.BoundIndexIsUnique | src/lib/storage/dictionary_segment.cpp:133-150 | whatever search finds an index that splits the dictionary has found the specified bound |
| DictionaryScan.SentinelMeansPastTheEnd | src/lib/storage/dictionary_segment.cpp:131-155 | the bounds are 0xFFFFFFFF exactly when every entry is less than the value, or none is greater |
| DictionaryScan.IdComparisonIsValueComparison | src/lib/operators/table_scan.cpp:88-121 | for all six scan types, present and absent search values, comparing an id with the bounds is comparing its value with the search value |
| DictionaryScan.IdScanIsFilter | src/lib/operators/table_scan.cpp:82-132 | on every dictionary segment the id-only scan finds exactly the positions of the matching decoded cells |
| DictionaryScan.CompressedScanAgrees | src/lib/operators/table_scan.cpp:82-152 | on a safe column the id-only scan after compression finds the positions that the value scan found before |
| DictionaryScan.UnsafeColumnIsScannedWrongly | src/lib/operators/table_scan.cpp:82-152 | on every unsafe column the two scans differ for some search value |
| DictionaryScan.MatchPositionsExactly | src/lib/operators/table_scan.cpp:143-149 | the filter consists of the positions of the chunk whose cell is non-NULL and compares true, of nothing else, in ascending order and each once |
| FixedWidth.FixedWidthIntegerVector.Set | src/lib/storage/fixed_width_integer_vector.cpp:19-23 | one element becomes the narrowed id, the others stay |
| ValueSegments.ValueSegment.Append | src/lib/storage/value_segment.cpp:48-66 | appends a NULL with the zero of its type or the empty string in its slot, or the cast value; fails, changing nothing, exactly on a NULL without NULL flags or a failed cast |
| AppendedColumns.NullSlotHoldsZero | src/lib/storage/value_segment.cpp:49-56 | in a column built by appends the slot of each NULL holds 0, 0.0 or the empty string |
| AppendedColumns.AppendedColumnRoundTripsIff | src/lib/storage/dictionary_segment.cpp:46-51 | compressing a column built by appends keeps all its cells iff it has no NULL, or all its numbers are above zero, or all its strings non-empty |
| ValueSegments.ValueSegment.GetTypedValue | src/lib/storage/value_segment.cpp:39-46 | reads the cell of the segment's contents |
| DictionarySegments.Sort | src/lib/storage/dictionary_segment.cpp:39 | ascending permutation of the values |
| DictionarySegments.Unique | src/lib/storage/dictionary_segment.cpp:40-41 | strictly ascending, with the same elements |
| DictionarySegments.FillDictionary | src/lib/storage/dictionary_segment.cpp:36-55 | the loops compute the specified dictionary and the distinct count with the placeholder |
| DictionarySegments.Invert | src/lib/storage/dictionary_segment.cpp:63-67 | the inverted dictionary has exactly the entries as keys, each with its id |
| DictionarySegments.LookupOrInsert | src/lib/storage/dictionary_segment.cpp:80 | gives the specified id, also for a missing key, and stays a correct inverse |
| DictionarySegments.FillAttributesVector | src/lib/storage/dictionary_segment.cpp:57-83 | every element of the array becomes the narrowed id of its entry |
| DictionarySegments.DictionarySegment.constructor | src/lib/storage/dictionary_segment.cpp:9-17 | the new segment is the specified encoding of the value segment |
| DictionarySegments.DictionarySegment.GetTypedValue | src/lib/storage/dictionary_segment.cpp:97-108 | reads the decoded cell, NULL for the in-band id |
| DictionarySegments.DictionarySegment.Subscript | src/lib/storage/dictionary_segment.cpp:85-88 | `operator[]` stays within the dictionary exactly at the non-NULL entries, and there gives their value |
| DictionarySegments.DictionarySegment.LowerBound | src/lib/storage/dictionary_segment.cpp:131-138 | binary search returns the specified lower bound id, and 0xFFFFFFFF exactly when every entry is less |
| DictionarySegments.DictionarySegment.UpperBound | src/lib/storage/dictionary_segment.cpp:148-155 | binary search returns the specified upper bound id, and 0xFFFFFFFF exactly when no entry is greater |
| Storage.ReferenceSegment.Subscript | src/lib/storage/reference_segment.cpp:12-22 | NULL for the NULL row id, else what the referenced table holds now at the position; undefined exactly at a NULL of a dictionary segment |
| Storage.Table.Subscript | src/lib/storage/dictionary_segment.cpp:85-88 | reading a stored cell by `operator[]` agrees with the typed value except at a NULL of a dictionary segment |
| Storage.Chunk.AddSegment | src/lib/storage/chunk.cpp:7-9 | one more column at the right; only a value segment must not be in the chunk already |
| Storage.Chunk.Size | src/lib/storage/chunk.cpp:45-49 | the length of the first column, 0 without columns |
| Storage.Chunk.Append | src/lib/storage/chunk.cpp:22-35 | each value segment takes its cell in turn, other segments are skipped, and a throw leaves the later columns alone |
| Storage.Table.constructor | src/lib/storage/table.cpp:11-14 | a table without columns and with one empty chunk |
| Storage.Table.AddColumnDefinition | src/lib/storage/table.cpp:46-56 | a new definition unless the name is taken |
| Storage.Table.AddColumn | src/lib/storage/table.cpp:58-66 | a new definition and empty segment, or nothing when the name is taken |
| Storage.Table.CreateNewChunk | src/lib/storage/table.cpp:68-79 | one more chunk with an empty value segment per column |
| Storage.Table.Append | src/lib/storage/table.cpp:81-93 | new contents and outcome are those of the specified append, also when a cell throws; a chunk is added exactly when the last one has the target size or its first column is compressed |
| Storage.Table.RowCount | src/lib/storage/table.cpp:99-106 | the loop computes the sum of the chunk sizes |
| Storage.Table.CompressChunk | src/lib/storage/table.cpp:165-189 | the chunk is replaced by the encodings of its columns in schema order; nothing else changes |
| Storage.Table.FromReferences | src/lib/storage/table.cpp:16-44 | one chunk per reference segment with all columns sharing its position list, or one empty chunk |
| TableScans.TableScan.TablescanValueSegment | src/lib/operators/table_scan.cpp:134-152 | the loop returns the filter of the segment's cells, or fails on an uncastable search value |
| TableScans.TableScan.TablescanDictSegment | src/lib/operators/table_scan.cpp:82-132 | the loop over ids returns the same filter of the decoded cells |
| TableScans.TableScan.TablescanReferenceSegment | src/lib/operators/table_scan.cpp:154-202 | the loop keeps exactly the positions whose referenced row passes the comparison |
| TableScans.StoredSelection | src/lib/operators/table_scan.cpp:46-69 | on a stored chunk, selecting rows by one column is filtering the cells of its segment |
| TableScans.TableScan.CollectReferences | src/lib/operators/table_scan.cpp:43-77 | the chunk loop collects one reference segment per chunk with matches, pointing at the scanned table or through to the referenced one |
| TableScans.TableScan.OnExecute | src/lib/operators/table_scan.cpp:27-80 | returns a fresh table with exactly the contents of the specified scan, over any mix of segment kinds |
| Engine.CreateTable | src/lib/storage/table.cpp:46-66 | a new table and its columns: the empty table of the schema, unless a name repeats |
| Engine.Execute | src/lib/storage/table.cpp:68-189 | the methods of a table object, called in turn, take it through the specified run |
| Engine.ExecuteScans | src/lib/operators/table_scan.cpp:27-80 | scan operators chained over objects give a table that shows the rows satisfying all queries |
| Engine.Perform | src/lib/storage/reference_segment.cpp:12-22 | one operation on the base object or one scan of the latest result object is one event of a session, the result object itself being untouched |
| Engine.ScanWhileChanging | src/lib/operators/table_scan.cpp:27-80 | a table object is scanned, then changed in place while its results are scanned again: the last result, read through the changed object, shows the rows appended before the first scan that satisfy all queries, if the compressions of their chunks were safe |
| Engine.SubscriptLosesNull | src/lib/storage/dictionary_segment.cpp:85-88 | a concrete table whose only cell, a NULL, is read by `operator[]` before compression and past the dictionary after it |
| ScanTheorems.ScanIsFilter | src/lib/operators/table_scan.cpp:27-80 | every castable scan of every scannable table shows exactly the rows that pass, in order and each once, and its result is scannable again |
| ScanComparisons.ScanComparesNumbers | src/lib/operators/table_scan.cpp:205-228 | on any scannable table and for all six operators a scan shows an entry, as often as the table does, iff its number x and the cast search value y satisfy x == y, x != y, x < y, x <= y, x > y or x >= y; a NULL is never shown |
| ScanComparisons.ScanComparesStrings | src/lib/operators/table_scan.cpp:205-228 | the same for string columns, in dictionary order |
| ScanComparisons.ScanShowsOnlyEntries | src/lib/operators/table_scan.cpp:27-80 | a scan shows nothing that is not in its input |
| ScanTheorems.ScanSelects | src/lib/operators/table_scan.cpp:67-79 | chunk by chunk the result shows the non-empty selections of the input chunks, and holds only references |
| ScanTheorems.OutputShowsMatches | src/lib/storage/table.cpp:16-44 | reading a result table through its references gives back the matches it was built from |
| ScanTheorems.ScanThrowsExactly | src/lib/operators/table_scan.cpp:46-51 | a scan throws iff the search value cannot be cast and the table has a row |
| ScanChains.Chain | src/lib/operators/table_scan.cpp:27-80 | any number of castable scans in a row succeeds and gives a scannable table of references over the same schema |
| ScanChains.ChainIsConjunction | src/lib/operators/table_scan.cpp:27-80 | a chain of scans shows the rows that satisfy all its queries |
| ScanChains.ChainRefersToBase | src/lib/operators/table_scan.cpp:71-75 | a chain's result refers straight to the base table, at existing rows, strictly ascending, never by the NULL row id |
| ScanAlgebra.ScansCommute | src/lib/operators/table_scan.cpp:27-80 | two scans in either order give the same chunks and position lists, also with empty intermediate results and NULL search values |
| ScanAlgebra.ScanIsIdempotent | src/lib/operators/table_scan.cpp:154-202 | repeating a scan on its own result returns the same table |
| ScanAlgebra.ComplementsPartition | src/lib/operators/table_scan.cpp:205-228 | a comparison and its complement split the rows with a non-NULL cell, as multisets and without overlap |
| ScanAlgebra.NullFindsNothing | src/lib/operators/table_scan.cpp:35-38 | a search for NULL shows no row |
| ScanAlgebra.OutputShape | src/lib/storage/table.cpp:16-44 | one chunk per input chunk with a match, all its columns sharing one position list at their own column ids; without a match, NULL searches included, one chunk with an empty value segment per column that takes no NULL |
| ScanAlgebra.StableReads | src/lib/storage/reference_segment.cpp:12-22 | references read and scan the same as long as the rows they point at do |
| Runs.AddColumnsGivesInitial | src/lib/storage/table.cpp:46-66 | adding the columns of a schema one by one succeeds iff no name repeats, and gives the empty table of that schema |
| Runs.StepStores | src/lib/storage/table.cpp:68-93 | one operation on the table of a log gives the table of the log's next state: append adds one row to all columns, the others none |
| Runs.RunStoresLog | src/lib/storage/table.cpp:68-189 | every run of operations leads to the table determined by its log of appended rows and compressed chunks |
| Layout.AppendLayout | src/lib/storage/table.cpp:81-93 | on every reachable table an append starts a chunk of one row iff the last chunk has exactly the target size or the run has compressed it, and else makes the last chunk one row longer; all other chunks stay |
| Layout.NewChunkLayout | src/lib/storage/table.cpp:68-79 | on every reachable table a new chunk comes last, empty and uncompressed; all other chunks stay |
| Layout.CompressLayout | src/lib/storage/table.cpp:165-189 | on every reachable table compression turns one uncompressed chunk into a compressed one of the same size; all other chunks stay |
| Layout.ChunkCompressedIff | src/lib/storage/table.cpp:165-189 | after any run a chunk is made of dictionary segments iff some operation of the run has compressed it |
| Layout.ClosedChunksAreFull | src/lib/storage/table.cpp:89-91 | after any run every chunk but the last has exactly the target size, unless a new chunk or a compression closed it while it was the last |
| Layout.AppendsLayout | src/lib/storage/table.cpp:81-93 | after appends only, row k is at offset k % target of chunk k / target, stored cell by cell |
| Layout.AppendsChunkCount | src/lib/storage/table.cpp:89-91 | n appends make (n - 1) / target + 1 chunks |
| Layout.AppendCompletesIff | src/lib/storage/chunk.cpp:22-35 | a run can go on with appending a row iff it has one cell per column, each a NULL where one is allowed or a castable value, and the last chunk has a 32-bit offset left or is full or compressed |
| Layout.CompressCompletesIff | src/lib/storage/table.cpp:165-189 | a run can go on with compressing a chunk iff it exists and has not been compressed, and with a new chunk always |
| Layout.AppendedRowsAreStored | src/lib/storage/value_segment.cpp:48-66 | the rows of a run are those its append operations name, in order, each cell its NULL or its cast value |
| Layout.CellsHaveColumnType | src/lib/storage/value_segment.cpp:58-62 | every cell that a run's table shows has the type of its column, compressed or not, misread or not |
| RunTheorems.RunKeepsWellFormed | src/lib/storage/table.cpp:68-189 | after every run: at least one chunk, one readable segment per column, equal lengths, one kind per chunk |
| RunTheorems.ChunksWithinTargetIff | src/lib/storage/table.cpp:89-92 | every chunk of a run stays within the target size if and only if that is at least one or the run appends nothing |
| RunTheorems.LogHoldsAppendedRows | src/lib/storage/table.cpp:81-93 | the log of any run holds the appended rows in order; new chunks and compressions add and lose none |
| RunTheorems.RunShowsAppendedRowsIffSafe | src/lib/storage/table.cpp:68-189 | the table of a run shows exactly the appended rows iff every column of every compressed chunk was safe |
| RunTheorems.RunCountsAppends | src/lib/storage/table.cpp:99-106 | the row count after any run is the number of its append operations, each of which added one row |
| RunTheorems.ScansOfRunsFilterAppendedRows | src/lib/operators/table_scan.cpp:27-80 | end to end: any chain of scans of the table of any run with safe compressions shows the appended rows filtered by all queries, referring straight into that table |
| UnsafeRuns.UnsafeRunLosesMatches | src/lib/storage/dictionary_segment.cpp:46-51 | after an unsafe compression some castable equality scan, for a value that was appended, shows fewer rows than the appended ones that match |
| UnsafeRuns.ScansAnswerRightIffSafe | src/lib/operators/table_scan.cpp:27-80 | every castable scan of the table of a run succeeds and shows what the query asks for of the appended rows iff every compression was safe |
| Stability.RowStaysUnlessMisread | src/lib/storage/table.cpp:81-93 | a row position keeps its row through any later operations, and reads differently iff its chunk was compressed since and the row is misread |
| Stability.ResultReadsSameIff | src/lib/storage/reference_segment.cpp:12-22 | after any later operations a scan result can still be read, and reads the same iff none of its rows has been compressed since and is misread |
| Stability.ScanResultsStayStable | src/lib/operators/table_scan.cpp:154-202 | under that condition every further scan of the result also gives the same table |
| Sessions.SessionCompletesIff | src/lib/operators/table_scan.cpp:27-80 | operations on a table and scans of the latest result in any order complete iff the operations alone do: no castable scan of a result ever throws, safe or not |
| Sessions.SessionResultIsRefined | src/lib/operators/table_scan.cpp:154-202 | unless the first result shows a row misread since, operations between the scans make no difference: the last result is the one the scans give on their own |
| Sessions.SessionFiltersAppendedRows | src/lib/operators/table_scan.cpp:27-80 | end to end with operations between the scans: the last result, read at the end, shows the rows appended before the first scan that satisfy all queries, if the compressions of their chunks were safe |
| FailedAppends.AppendWritesToOpenChunk | src/lib/storage/table.cpp:81-92 | looking at the first column of the last chunk suffices: append always writes to a chunk of value segments, so no value is dropped |
| FailedAppends.FailedAppendTearsRow | src/lib/storage/chunk.cpp:28-34 | append completes iff every cell can be stored; when it throws the table stays well formed iff the first cell is the bad one |
| FailedAppends.NullInSecondColumnTears | src/lib/storage/chunk.cpp:28-34 | a concrete two-column table that a rejected row leaves torn |
| FailedAppends.AppendToReferencesDropsRow | src/lib/storage/chunk.cpp:28-31 | appending to a table whose last chunk holds references reports success and drops the row, iff that chunk does not have exactly the target size |
| FailedAppends.BuiltFromReferencesDropsRow | src/lib/storage/table.cpp:16-44 | the public constructor for position lists makes such a table: with one position in it, an append is lost iff the target size is not one |
| CompressionThreads.ScheduleKeepsInvariant | src/lib/storage/table.cpp:170-188 | between any two steps of any schedule: each thread holds its own column id and only its own column, slots are filled by finished threads only, the live chunk is the old one until published |
| CompressionThreads.EveryInterleavingCompressesOnce | src/lib/storage/table.cpp:165-189 | in every interleaving the live chunk is the old one until all threads are joined and then the sequential result, after exactly 5n + 1 steps |
| CompressionThreads.NeverStuck | src/lib/storage/table.cpp:180-188 | until the chunk is published some thread can always take a step |
| CompressionThreads.SlotsHaveOneWriter | src/lib/storage/table.cpp:170-178 | threads write at the column id they were started with, and so a slot changes only by a step of its own column's thread, once, to that column's encoding |

## Left out

- `Print`, `StorageManager`, `GetTable`, `TableWrapper` and the operator life cycle: formatting and thin wrappers with only easy claims.
- `load_table` and the string utilities: file input and string splitting.
- The inside of `type_cast`, `resolve_type` and the variant: conversions between numbers and text are a parameter; the cast of a value that already has the target type is left out as the identity it is.
- NaN, negative zero and hashing: floating point is modelled by reals with a total order.
- Memory estimates, reference counting, and the getters for names, types and ids, with their errors for ids out of range.
- The variant overloads of `lower_bound` and `upper_bound`: a NULL gives the sentinel, anything else is cast first.
- Chunk ids are unbounded; segment lengths and chunk offsets are kept within 32 bits by `Readable` and `HasRoom`.
- Compressing a chunk that is already compressed, adding columns to a table with rows, and hand-built position lists that do not name existing rows: the original asserts or is undefined there, and the model requires otherwise.
- Storage.Chunk.AddSegment: adding one value segment twice to a chunk is not modelled; an append would then write to it once per column.
- Sessions: one base table changes; results that refer to several changing tables are not stated.
- Runs: an operation that throws ends a run; what a failed append leaves behind is stated separately in `FailedAppends`.
- Memory order and scheduling of threads: the protocol takes loading a column, encoding it and writing its slot as atomic steps.
