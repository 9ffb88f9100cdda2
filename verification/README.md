# causalfoundry/utils — a Dafny model of the Postgres batch-write layer

This project models the `util` package of causalfoundry/utils: the PostgreSQL
write and query helpers of `util/db.go` and `util/db_helpers.go`, and the pure
helpers they use. Those helpers cover pagination (`util/page.go`), slice
utilities (`util/functools.go`), camel-to-snake conversion and small string
helpers (`util/misc.go`), struct-tag flattening (`util/reflect.go`), the
application root path (`util/fs.go`) and JWT parser chaining
(`util/jwt_parser_util.go`).

SQL statements are values (`Sql.Statement`: an INSERT with table, columns, rows
and suffix; a SELECT with WHERE, ORDER BY, OFFSET and LIMIT; a DELETE; raw text).
The database is an injected connection (`Sql.Conn`). It records every statement
sent in `log`, and the answer to the i-th statement is `respond(i, statement)`.
A helper's run is therefore stated as the statements it sends and what it does
with the answers. A Go panic is the `Panics` case of `Common.Outcome`. Go's
`any` is the closed variant `Common.Value`, and a struct is a `Record` of
tagged fields.

The batch writer `InsertHelper` is a class whose fields the methods update, as
in Go. Ghost fields record the added rows and the sent batches. Its invariant
ties the builder and the placeholder count to `InsertBatch.Run`, the schedule
of batches sent for the rows added so far. The statements `UpsertManyNoPartition` sends
are fixed by `DbHelpers.UpsertOutcome`: it adds the records row by row and stops at
the first error, then sends the remainder. When no error occurs the statements are
exactly the batches of `InsertBatch.Run` followed by one INSERT of the pending rows.
Each sent batch holds threshold/width+1 rows (`InsertBatch.RunShape`).

Modules, one or more per Go file:

| module | file | models |
|---|---|---|
| `Common` | common.dfy | Option, Outcome (return or panic), Value, errors |
| `Strs` | strs.dfy | strings.Join/Split/Trim, ASCII case, strconv.Itoa/Atoi |
| `Values` | values.dfy | fmt.Sprint and reflect type names of a Value |
| `Sql` | sql.dfy | statements, the connection, row scanning |
| `Paging` | page.dfy | util/page.go |
| `Misc` | misc.dfy | util/misc.go |
| `Functools` | functools.dfy | util/functools.go |
| `Reflect` | reflect.dfy | util/reflect.go |
| `Db` | db.dfy | util/db.go except the batch writer and array parsing |
| `InsertBatch` | db_insert.dfy | util/db.go InsertHelper |
| `DbArray` | db_array.dfy | util/db.go allTokens / ParseDBArray |
| `DbHelpers` | db_helpers.dfy | util/db_helpers.go |
| `Fs` | fs.dfy | util/fs.go |
| `Jwt` | jwt.dfy | util/jwt_parser_util.go |

## Model

| member | source | states |
|---|---|---|
| Strs.JoinSplit | util/fs.go:13-16 | Joining the "/"-parts of a string with "/" gives the string back. |
| Strs.SplitJoin | util/db.go:385 | Splitting a join of separator-free parts gives exactly those parts back. |
| Strs.SplitAvoids | util/fs.go:13 | No part produced by strings.Split contains the separator. |
| Strs.JoinPrefix | util/fs.go:15-16 | Joining the first k parts gives a prefix of joining all parts. |
| Strs.JoinSnoc | util/db.go:166 | One more part adds the separator and that part at the end of the joined text. |
| Strs.TrimLeftSuffix | util/db.go:380 | TrimLeft removes exactly a leading run of the cut character and keeps the rest unchanged. |
| Strs.TrimRightPrefix | util/db.go:383 | TrimRight removes exactly a trailing run of the cut character and keeps the rest unchanged. |
| Strs.TrimEnds | util/db.go:387 | After Trim neither end of the result is the cut character. |
| Strs.LowerStr | util/misc.go:79 | Lower-casing keeps the length and lower-cases each character in its place. |
| Strs.NatToStringValue | util/db.go:488 | The decimal text of a natural number denotes that number. |
| Strs.AtoiIntToString | util/page.go:70-79 | strconv.Atoi accepts the decimal text of every int64 and returns that number with no error. |
| Sql.Conn.constructor | util/db.go:223 | A fresh connection has sent nothing and answers with the given responder. |
| Sql.Conn.Exec | util/db.go:247 | Exec appends exactly its statement to the log; its error is present iff the database answered with a failure. |
| Sql.Conn.Query | util/db.go:526 | Query appends exactly its statement to the log and returns the database's answer to it. |
| Sql.ErrorOf | util/db.go:247-248 | The error of an answer is absent exactly when the answer carries rows. |
| Sql.FlattenAppend | util/db.go:242 | The arguments bound for two runs of rows are the first run's followed by the second's. |
| Sql.FlattenLength | util/db.go:242-243 | Rows of width w bind w arguments each. |
| Sql.ScanInt | util/db_helpers.go:68-69 | Scanning a count succeeds iff the answer has a first row that is a single integer, and then gives that integer; otherwise there is an error and the count is 0. |
| Paging.I64 | util/page.go:33 | Go int arithmetic: identity inside int64 and congruent to the true value modulo 2^64. |
| Paging.U64 | util/page.go:40 | Conversion to uint64: below 2^64, identity on [0, 2^64), congruent modulo 2^64. |
| Paging.Page.Offset | util/page.go:29-34 | 0 with Off; otherwise Page*PerPage when that product is a non-negative int64. |
| Paging.Page.Limit | util/page.go:36-41 | math.MaxInt64 with Off; otherwise PerPage when it is non-negative. |
| Paging.Page.DBSliceBounds | util/page.go:48 | For a non-negative page without int64 overflow the bounds are Page*PerPage and (Page+1)*PerPage, that is Offset() and Offset()+Limit(). |
| Paging.Page.DBSlice | util/page.go:44-49 | `col[0:]` with Off; otherwise `col[lo:hi]` with the decimal texts of DBSliceBounds. |
| Paging.PgSlicePositions | util/page.go:43-48 | The 1-based positions a Postgres slice `a[lo:hi]` of an n-element array selects: exactly those k with 1 <= k <= n and lo <= k <= hi, in increasing order. |
| Paging.DBSliceOverlap | util/page.go:48 | As written, position (Page+1)*PerPage is selected by both page Page and page Page+1, and page Page+1 selects PerPage+1 elements. |
| Paging.Page.DBSliceFixedBounds | util/page.go:48 | The corrected bounds are Offset()+1 and Offset()+Limit(). |
| Paging.Page.DBSliceFixed | util/page.go:44-49 | `col[0:]` with Off; otherwise `col[lo:hi]` with the corrected bounds. |
| Paging.DBSliceFixedIsPage | util/page.go:43-48 | The corrected slice selects 1-based position k iff the 0-based row k-1 lies in [Offset(), Offset()+Limit()), the rows OFFSET/LIMIT select. |
| Paging.DBSliceFixedDisjoint | util/page.go:43-48 | With the corrected slice, consecutive pages select no common position. |
| Paging.NoPaginationWhole | util/page.go:11 | NoPagination has offset 0 and limit MaxInt64, slices a Go slice to (0, len) and a Postgres array to `col[0:]`. |
| Paging.Page.GoSliceStartEnd | util/page.go:51-67 | `(0, slen)` with Off; otherwise neither bound exceeds slen. |
| Paging.GoSliceStartEndBounds | util/page.go:51-67 | For non-negative inputs without overflow, 0 <= start <= end <= slen, end-start <= PerPage, start = min(offset, slen) and end = min(start+PerPage, slen). |
| Paging.GetPagination | util/page.go:69-88 | A 400 error and the zero page exactly when either parameter fails Atoi; -1/-1 gives NoPagination; any other pair is copied into the page. |
| Paging.GetPaginationRoundTrip | util/page.go:69-88 | Printing an int64 page and size and parsing them back gives that page, or NoPagination for -1/-1, with no error. |
| Misc.CamelToSnake | util/misc.go:116-125 | The result is the snake form of the input: no upper-case letter remains, and it is one underscore per non-initial upper-case letter longer. |
| Misc.SnakeShape | util/misc.go:116-125 | The snake form has no upper-case letter and grows by exactly the number of upper-case letters after the first character. |
| Misc.SnakeOfLower | util/misc.go:116-125 | Text without upper-case letters is its own snake form. |
| Misc.BoundaryFrom | util/misc.go:91-108 | The first group boundary at or after j: every position before it is not a boundary, and it is one unless it is the end. |
| Misc.GroupEnd | util/misc.go:83-114 | For ASCII text: the first group of a non-empty string is non-empty and no longer than the string; "" has an empty group. |
| Misc.FindNextGroup | util/misc.go:83-114 | For ASCII text: the group is a prefix of the input, at least one character long when the input is non-empty, and ends exactly at the first group boundary after its first character. |
| Misc.GroupsConcat | util/misc.go:68-81 | The groups CamelToSnake2 cuts concatenate back to the input. |
| Misc.CamelToSnake2 | util/misc.go:68-81 | For ASCII text: the result is the lower-cased groups joined by "_"; on such text each group is non-empty, so the loop ends. |
| Misc.InBracket | util/misc.go:31-33 | True iff the text starts with the left bracket and ends with the right one; then it is at least as long as each. |
| Misc.InBracketWrap | util/misc.go:31-33 | Text wrapped in the two brackets is in brackets. |
| Misc.InBracketSplit | util/misc.go:31-33 | Bracketed text long enough for both brackets is left + middle + right. |
| Misc.OrDefault | util/misc.go:35-40 | The value unless it is empty; the result is empty only if both are. |
| Misc.OrDefaultIdempotent | util/misc.go:35-40 | Applying the default twice changes nothing. |
| Misc.ToStr | util/misc.go:199-208 | A string is wrapped in single quotes around the unchanged text; a time is its RFC 3339 text. |
| Misc.ToStrTextInjective | util/misc.go:203-204 | Two strings with the same ToStr key are equal, so Except on strings compares the strings themselves. |
| Misc.ArrGet | util/misc.go:153-158 | Returns iff every index is inside the slice, and then result k is arr[idx[k]], one per index; otherwise it panics. |
| Misc.ContainInt | util/misc.go:127-134 | True iff the element occurs in the slice. |
| Misc.PivotRecords | util/misc.go:188-196 | No records panics; a record longer than the header panics; otherwise the result is the header-keyed pivot of the later records. |
| Misc.PivotColumns | util/misc.go:188-196 | With distinct headers and full rows, each header maps to its column, top to bottom. |
| Misc.AppendRowEffect | util/misc.go:191-194 | Appending a row adds cell j under header j and leaves the entries of headers not yet reached unchanged. |
| Reflect.TagGet | util/reflect.go:34 | A key absent from the tag reads as "". |
| Reflect.ExtractFields | util/reflect.go:21-39 | As many tags as values. |
| Reflect.ExtractDBTags | util/reflect.go:9-11 | Panics exactly when the input is not a struct; otherwise the db-tagged columns of its fields, as many tags as values. |
| Reflect.ExtractTags | util/reflect.go:13-40 | Panics exactly when the input is not a struct; otherwise the tags and values have equal length. |
| Reflect.ExtractFieldsAppend | util/reflect.go:21-37 | The columns of two consecutive field lists are the first list's followed by the second's, so declaration order is kept. |
| Reflect.LeafFieldColumn | util/reflect.go:33-36 | A field that is not flattened contributes exactly its tag value (possibly "") and its own value. |
| Reflect.FlattenedIsRecord | util/reflect.go:25-29 | A flattened field always holds a struct other than time.Time. |
| Reflect.FlattenedFieldColumns | util/reflect.go:25-32 | An untagged nested struct is replaced by its own columns, in place. |
| Reflect.AnonymousStructIsLeaf | util/reflect.go:26 | An untagged field of an anonymous struct type is one column: "" is a substring of "Time". |
| Reflect.ValsIndependentOfTag | util/reflect.go:21-37 | The values do not depend on the tag name, so columns and values taken with different tags line up. |
| Reflect.NonEmptyTags | util/reflect.go:63-70 | The listed tag values are all non-empty. |
| Reflect.StructTags | util/reflect.go:58-74 | Nothing for a non-struct; no listed tag is "". |
| Reflect.FieldTags | util/reflect.go:62-72 | No listed tag is ""; when no field's tag value is excepted, the list is the non-empty tag values in field order. |
| Reflect.StructTagsNoExcept | util/reflect.go:58-74 | With nothing excepted, StructTags lists the non-empty tag values in field order. |
| Reflect.ExceptedFieldTags | util/reflect.go:66-67 | A field whose tag value is excepted is replaced by the tags of its substitute. |
| Reflect.StructDataType | util/reflect.go:42-56 | Nil for a non-struct; otherwise one label per field, in order, with no upper-case letter: "_" and the lower-cased element type name for a slice, the lower-cased type name otherwise. |
| Reflect.StructDataTypeExample | util/reflect.go:42-56 | The package's own test struct gets the labels string, int, time, _int, _time, string. |
| Functools.Paginate | util/functools.go:183-193 | Empty when the offset is at or past the end; otherwise a returned window is the contiguous run of the slice starting at the offset. |
| Functools.PaginateWindow | util/functools.go:183-193 | Everything with Off; empty when the offset is at or past the end; otherwise Go panics exactly when offset+limit overflows int64, which includes every negative page size. |
| Functools.PaginateAgreesWithSliceBounds | util/functools.go:183-193 | For non-negative pages without overflow, Paginate returns the window GoSliceStartEnd computes. |
| Functools.SumWrap | util/functools.go:190 | offset+limit in int64 is the true sum when it fits and the sum less 2^64 otherwise. |
| Functools.LimitOfNegative | util/page.go:40 | A negative page size becomes a uint64 limit above the int64 range. |
| Functools.Without | util/functools.go:270-274 | The kept elements come from base and have keys outside the set; every base element with such a key is kept. |
| Functools.WithoutNothing | util/functools.go:264-276 | When no key is excluded, base comes back unchanged, in order. |
| Functools.Except | util/functools.go:264-276 | The result is base without the elements whose key matches an element of except, in base order. |
| Functools.FirstByKey | util/functools.go:63-73 | The kept elements have pairwise distinct keys, come from the input, and cover every key of the input. |
| Functools.FirstByKeyKeepsFirst | util/functools.go:63-73 | An element whose key did not occur earlier is kept. |
| Functools.UniqueBy | util/functools.go:63-73 | The result is the first element of each key, in input order. |
| Functools.Dedup | util/functools.go:11-21 | The first element of each fmt.Sprint text, in order; no two results print alike. |
| Functools.Unique | util/functools.go:75-94 | The first of each key, where times compare by RFC 3339 text; the keys are pairwise distinct. |
| Functools.UniqueOf | util/functools.go:50-61 | The first of each printed image, in order; every result is the image of some input. |
| Functools.MapInPlace | util/functools.go:145-149 | Every slot holds the image of its old value. |
| Functools.FirstFailure | util/functools.go:136-143 | The position of the first element whose image reports an error: all earlier ones succeed. |
| Functools.MapInPlaceE | util/functools.go:136-143 | Slots up to and including the first failing one hold their images (the failing slot the value returned with the error), later slots are untouched, and the first error is returned. |
| Functools.Map | util/functools.go:161-167 | Same length, and element i is the image of input i. |
| Functools.MapE | util/functools.go:151-159 | Same length; images up to and including the first failure, zero values after it, and the first error. |
| Functools.Filtered | util/functools.go:225-232 | Every kept element satisfies the predicate, and the result is no longer than the input. |
| Functools.FilteredMembers | util/functools.go:225-232 | Kept elements come from the input, and every input element satisfying the predicate is kept. |
| Functools.AllSatisfy | util/functools.go:225-232 | Nothing is dropped when every element satisfies the predicate. |
| Functools.FilteredIdempotent | util/functools.go:225-232 | Filtering twice by the same predicate is filtering once. |
| Functools.Filter | util/functools.go:225-232 | The loop computes the elements satisfying the predicate, in order. |
| Functools.IndexOf | util/functools.go:195-202 | The least index satisfying the predicate, or -1 iff none does. |
| Functools.FirstN | util/functools.go:243-245 | A prefix of length min(n, len). |
| Functools.LastN | util/functools.go:247-249 | A suffix of length min(n, len). |
| Functools.FirstNLastN | util/functools.go:243-249 | The first n and the last len-n elements make up the slice. |
| Functools.Min | util/functools.go:343-348 | One of the two arguments, and no larger than either. |
| Functools.Max | util/functools.go:350-355 | One of the two arguments, and no smaller than either. |
| Functools.Head | util/functools.go:169-174 | The first element, or the zero value for an empty slice. |
| Functools.Last | util/functools.go:23-29 | The last element, or the zero value for an empty slice. |
| Functools.HeadLastOfWindows | util/functools.go:243-249 | For n >= 1 the head of FirstN is the head and the last of LastN is the last. |
| Functools.Contains | util/functools.go:433-441 | True iff some element of b has a's key. |
| Functools.ContainsAny | util/functools.go:393-403 | True iff some element of a occurs in b; false when either is empty. |
| Functools.ContainsAll | util/functools.go:406-420 | True iff a is non-empty and either b is empty or every element of a occurs in b; so with b empty it is true while nothing of a occurs in b. |
| Functools.AllOccur | util/functools.go:414-419 | True iff every element of a occurs in b. |
| Functools.ContainsAllFixed | util/functools.go:405-420 | True iff a is non-empty and every element of a occurs in b, so b is then non-empty. |
| Functools.ContainsBy | util/functools.go:422-429 | True iff some element of b is related to a. |
| Functools.KeptIn | util/functools.go:485-489 | Kept elements are in b and in the set; every such element of b is kept with all its duplicates. |
| Functools.Intersect | util/functools.go:479-491 | The elements of b that occur in a, in b's order and with b's duplicates. |
| Functools.Matches | util/functools.go:375-380 | Valid indexes of super holding x's key; none exactly when x does not occur. |
| Functools.FirstUnmatched | util/functools.go:373-386 | The position of the first element of sub that has no match; all earlier ones have one. |
| Functools.MatchesIn | util/functools.go:374-381 | The inner loop collects every matching index and reports whether there was one. |
| Functools.IndexesOf | util/functools.go:372-390 | The matches of each element of sub in turn, up to the first unmatched element; valid iff every element matched. |
| Db.DBConfig.constructor | util/db.go:51-56 | A configuration holds the four given settings. |
| Db.DBConfig.SetDefault | util/db.go:58-71 | Every zero field gets its default (100, 10, 60 s, 300 s) and set fields are kept, so afterwards no field is zero. |
| Db.UpdateColumns | util/db.go:157 | The update columns are headers that are not primary keys, and every non-key header is one. |
| Db.ColumnKeysMatchNames | util/db.go:157 | A column's ToStr key is among the keys' ToStr keys iff the column is a key. |
| Db.SetItem | util/db.go:160-164 | `col=` followed by the merge strategy for col when there is one, and by `excluded.col` otherwise. |
| Db.SetClause | util/db.go:156-167 | The clause is empty when every header is a primary key. |
| Db.UpdateClause | util/db.go:156-167 | The loop computes the SET clause: one item per non-key header, in header order, joined by ", ". |
| Db.SetItems | util/db.go:158-165 | The loop yields one SET item per column, in order. |
| Db.UpdateColumnsNoKeys | util/db.go:156-167 | Without primary keys every header is updated, in header order. |
| Db.UpdateClauseAppend | util/db.go:156-167 | Appending a header that is a key leaves the clause unchanged; appending any other header adds ", " and its item at the end. |
| Db.UpsertQuery | util/db.go:321-326 | Rewrites every column in place as `col=excluded.col`; the result is the update clause with no keys and no merge strategies. |
| Db.SetClauseNoKeys | util/db.go:321-326 | With no keys and no strategies every column takes the proposed row's value. |
| Db.AndWhere | util/db.go:471-476 | "1=1" for no predicates; one predicate is itself. |
| Db.AndWhereSnoc | util/db.go:471-476 | Each further predicate is one more " AND " conjunct. |
| Db.CloseToPlaceholderLimit | util/db.go:274-279 | The result is 0 or cnt+stride and never exceeds 65535; it differs from cnt+stride only when cnt+stride is over the limit. |
| Db.ToSqlStr | util/db.go:485-493 | A string is wrapped in single quotes; a non-negative integer is a non-empty run of decimal digits denoting it; a negative one is "-" and the digits of its absolute value. |
| Db.CreateRangePartition | util/db.go:499-509 | The statement is `CREATE TABLE IF NOT EXISTS partition PARTITION OF parent` (with its line breaks) directly followed by `FOR VALUES FROM (from) TO (to)`, nothing in between. |
| Db.CreateListPartition | util/db.go:511-520 | The statement is `CREATE TABLE IF NOT EXISTS partition PARTITION OF parent` directly followed by `FOR VALUES IN (v)`, nothing in between. |
| Db.IdPartitionsCover | util/db.go:539-545 | Without uint64 wrap-around the current partition is `[a*m, (a+1)*m)` and holds the sequence value; the next one starts where it ends; both are m wide; both belong to the table. |
| Db.IdPartitionsAdvance | util/db.go:539-545 | Once the sequence enters the second partition, the next call's current partition is that same partition. |
| Db.ScanUint | util/db.go:534 | A successful scan gives a value that fits in uint64. |
| Db.ScanAll | util/db.go:533-537 | Without a scan error the value is the last row's; no rows leave the starting value. |
| Db.ScanLast | util/db.go:531-537 | The rows.Next loop computes the last row's value or the first scan error. |
| Db.PrepareOutcome | util/db.go:523-548 | At most two raw statements are sent after the log. None iff the table name has no "."; otherwise the sequence query comes first. The result is a nil error iff both statements were sent and both were answered with rows. |
| Db.PrepareIDPartition | util/db.go:523-548 | The statements sent and the result are PrepareOutcome's: a table name without "." panics before sending anything; a failed query or scan returns its error and sends nothing more; a zero bucket width panics; otherwise the two partition statements go in one Exec and its error is returned. |
| Db.ValueTuple | util/db.go:297-308 | Each tuple is parenthesised; with ordering it ends in `,i)`. |
| Db.Tuples | util/db.go:296-309 | One tuple per element, element i rendered at position i. |
| Db.RenderTuple | util/db.go:297-308 | The loop body renders the tuple of one element. |
| Db.ValueListText | util/db.go:293-315 | Starts with `(VALUES ` and ends with `) a(alias)`, with `,sort_order` added to the alias exactly when the tuples carry their positions. |
| Db.RenderTuples | util/db.go:296-309 | The loop renders the tuple of each element, in order. |
| Db.ValueList | util/db.go:293-315 | The method builds exactly ValueListText. |
| Db.ValueListTable | util/db.go:289-291 | Exactly `SELECT * FROM ` + the VALUES list without ordering + " ". |
| Db.DBArrayValues | util/db.go:358-375 | The array literal of the elements, in braces. |
| Db.Range | util/db.go:351-356 | end-start+1 integers start, start+1, ..., end; none when end < start. |
| DbArray.Tokens | util/db.go:378-390 | There is always at least one token. |
| DbArray.AllTokens | util/db.go:378-390 | allTokens computes the tokens: commas stripped, then braces, split at commas, spaces trimmed. |
| DbArray.TokensOfLiteral | util/db.go:378-390 | Tokenising `{p0,...,pn}` of clean elements gives the elements back. |
| DbArray.ParseInts | util/db.go:401-408 | One Atoi value per token; the error left is the LAST token's. |
| DbArray.ParseIntsStrict | util/db.go:401-408 | One Atoi value per token. |
| DbArray.ParseIntsStrictError | util/db.go:401-408 | The corrected parse reports an error iff some token is not an int64. |
| DbArray.ParseIntsStrictFirstError | util/db.go:401-408 | The error the corrected parse reports is the first malformed token's. |
| DbArray.ParseIntsDropsEarlyError | util/db.go:404-407 | `{x,1}` reads as [0, 1] with no error as written, while the corrected parse reports x. |
| DbArray.ParseBools | util/db.go:409-423 | No error iff every token is "t" or "f", and then element i is whether token i is "t"; an error leaves no elements. |
| DbArray.BoolsFirstBad | util/db.go:412-420 | The error names the first token that is neither "t" nor "f". |
| DbArray.Convert | util/db.go:398-468 | Strings pass through with no error; an unsupported element type gives "error type assertion" and no elements. |
| DbArray.ParseDBArray | util/db.go:394-469 | ParseDBArray is tokenising followed by the conversion for the element type. |
| DbArray.ReadInts | util/db.go:401-408 | The int loop computes the int conversion. |
| DbArray.ReadBools | util/db.go:409-423 | The bool loop computes the bool conversion. |
| DbArray.IntArrayRoundTrip | util/db.go:394-408 | A non-empty int64 array written by DBArrayValues parses back to the same integers with no error. |
| DbArray.StringArrayRoundTrip | util/db.go:399-400 | A non-empty string array of clean non-empty elements written by DBArrayValues parses back to the same strings. |
| DbArray.BoolArrayRoundTrip | util/db.go:409-423 | A non-empty literal of t/f tokens parses back to those booleans. |
| DbArray.EmptyArrayDoesNotRoundTrip | util/db.go:374-390 | The empty array is written as `{}`, whose one token is "": as int it reads [0] with Atoi's syntax error, as string [""], as bool the error "unrecognised token  in bool array". |
| DbArray.TokensFixed | util/db.go:378-390 | The corrected tokenizer gives no tokens iff nothing is left inside the braces, and allTokens's tokens otherwise. |
| DbArray.FixedOfEmpty | util/db.go:378-390 | The corrected parse reads `{}` as no elements and no error for every supported element type. |
| DbArray.FixedOfLiteral | util/db.go:378-390 | On a literal of clean elements whose first is non-empty, the corrected parse agrees with the parse as written. |
| DbArray.IntArrayRoundTripFixed | util/db.go:394-408 | With the corrected tokenizer every int64 array, the empty one included, parses back to the same integers with no error. |
| DbArray.StringArrayRoundTripFixed | util/db.go:394-400 | With the corrected tokenizer every array of clean non-empty strings, the empty one included, parses back unchanged. |
| DbArray.BoolArrayRoundTripFixed | util/db.go:409-423 | With the corrected tokenizer every t/f literal, the empty one included, parses back to those booleans. |
| InsertBatch.FlushThresholdValue | util/db.go:245 | 80% of 65535 is 52428 in Go's exact constant arithmetic. |
| InsertBatch.RunCovers | util/db.go:238-255 | The sent batches followed by the pending rows are the added rows, in order: none lost or repeated. |
| InsertBatch.RunShape | util/db.go:242-253 | Every sent batch holds exactly threshold/width+1 rows, fewer are pending, and the pending placeholders are at most 52428. |
| InsertBatch.ThresholdCrossing | util/db.go:245 | threshold/width+1 rows are the fewest whose placeholders pass 52428. |
| InsertBatch.BatchWithinLimit | util/db.go:245 | A sent batch of rows up to 13107 wide binds at most 52428+width <= 65535 parameters. |
| InsertBatch.RunNoColumns | util/db.go:243-245 | Rows of width 0 never trigger a send. |
| InsertBatch.SixThousandRows | util/db.go:238-255 | 6000 rows of 10 columns: one batch of 5243 rows is sent while adding and 757 rows are left for Finish. |
| InsertBatch.InsertHelper.constructor | util/db.go:228-236 | A new helper starts from INSERT INTO table (cols) with the suffix, with width len(cols) and count 0. |
| InsertBatch.InsertHelper.Add | util/db.go:238-255 | A row of the wrong width gives "args size not consistent" and changes nothing. Otherwise the row is appended and cnt grows by the width. Past 52428 the statement is sent. A successful send resets the builder and cnt; a failed one returns the error and resets neither. A nil result leaves cnt <= 52428. |
| InsertBatch.InsertHelper.Finish | util/db.go:257-272 | Sends the builder only when cnt > 0 and leaves builder and cnt as they are. An error is wrapped with the first 100 characters of the query and the first 100 arguments. |
| InsertBatch.Prefix | util/db.go:261-266 | At most n elements, a prefix, and the whole when it is short enough. |
| DbHelpers.JsonRows | util/db_helpers.go:25-26 | One row of json-tagged values per record. |
| DbHelpers.UpsertSuffix | util/db_helpers.go:19-21 | The suffix begins `ON CONFLICT (pks joined by ",") DO UPDATE SET `. |
| DbHelpers.ConflictClause | util/db_helpers.go:19-21 | The suffix is built with UpdateClause from the first record's columns. |
| DbHelpers.UpsertBase | util/db_helpers.go:18-23 | The statement every batch starts from has no rows and targets the table. |
| DbHelpers.AddFrom | util/db_helpers.go:25-31 | The statements the Add loop sends from row i on extend the log. |
| DbHelpers.FinishFrom | util/db_helpers.go:32-34 | Nothing pending (or width 0) sends nothing and returns nil. Otherwise one INSERT of the pending rows is sent; the error is nil iff it is answered with rows, and a failure comes back wrapped with the first 100 characters of the query and the first 100 arguments. |
| DbHelpers.UpsertOutcome | util/db_helpers.go:25-35 | The statements of the Add loop and Finish extend the log. |
| DbHelpers.Remainder | util/db_helpers.go:32-34 | One INSERT of the pending rows iff the width is positive and rows are pending; nothing otherwise. |
| DbHelpers.AddFromLog | util/db_helpers.go:25-31 | Every statement the Add loop sends is an INSERT from the base; width 0 sends nothing. |
| DbHelpers.AddFromVerdict | util/db_helpers.go:25-31 | The Add loop ends with no error iff every remaining row has the base's width and every statement it sent was answered with rows. |
| DbHelpers.AddFromStops | util/db_helpers.go:25-31 | The loop stops at the first error: every statement before the last was accepted; the error is "args size not consistent" with all statements accepted, or the last statement's own failure. |
| DbHelpers.AddFromRun | util/db_helpers.go:25-31 | Without error the loop sends exactly the batches of InsertBatch.Run for all rows, and the pending rows are Run's. |
| DbHelpers.UpsertOutcomeShape | util/db_helpers.go:25-35 | Every statement is an INSERT from the base; width 0 sends nothing; every statement but the last was accepted. |
| DbHelpers.UpsertOutcomeVerdict | util/db_helpers.go:25-35 | The error is nil iff all rows have the width and every statement was accepted. |
| DbHelpers.UpsertOutcomeError | util/db_helpers.go:25-35 | An error is "args size not consistent", or the last statement is an INSERT whose failure is the error, plain from Add or wrapped by Finish. |
| DbHelpers.UpsertOutcomeSuccess | util/db_helpers.go:25-35 | Without error the statements are exactly the batches of InsertBatch.Run followed by the remainder, and they carry every row, in order. |
| DbHelpers.UpsertEnd | util/db_helpers.go:25-35 | The same facts read off the outcome: sent statements extend the log and come from the base; no columns sends nothing; success carries every row; an error is a width mismatch or a failure of the last statement. |
| DbHelpers.AddFromFacts | util/db_helpers.go:25-31 | From the start, the Add loop sends only INSERTs from the base, nothing at width 0, and its error is a width mismatch or the last statement's failure. |
| DbHelpers.AddAll | util/db_helpers.go:25-31 | The Add loop on the helper: its statements and error are AddFrom's, and without error the builder holds AddFrom's pending rows and the sent batches are the log's new part. |
| DbHelpers.AddAndFinish | util/db_helpers.go:25-35 | The loop followed by Finish when it succeeded: the statements and error are UpsertOutcome's. |
| DbHelpers.UpsertManyNoPartition | util/db_helpers.go:14-36 | No records sends nothing and returns nil. A non-struct record type panics. Otherwise the statements and the error are UpsertOutcome's for the json rows. The error is nil iff every row has the column count and every statement was accepted. Every statement is an INSERT from the base with the ON CONFLICT suffix, and on success they carry every record's json values in order. |
| DbHelpers.UpsertRecords | util/db_helpers.go:18-35 | For struct records: the statements and error are UpsertOutcome's; no statement when the records have no columns. |
| DbHelpers.PartitionOutcome | util/db_helpers.go:247-251 | The partition step only extends the log and never sends an INSERT; with no partition function it sends nothing and returns nil. |
| DbHelpers.RunPartition | util/db_helpers.go:247-251 | The statements and result are PartitionOutcome's. No partition function sends nothing. The id-partition function sends the sequence query first, or panics on a table name without ".". |
| DbHelpers.ReturningSuffix | util/db_helpers.go:256-258 | The RETURNING suffix is empty iff no returning columns are asked for. |
| DbHelpers.CreateManyInsert | util/db_helpers.go:253-262 | One row of db-tagged values per record, in order, under the first record's db tags. |
| DbHelpers.BuildInsert | util/db_helpers.go:253-262 | The builder loop builds that statement. |
| DbHelpers.ScanIds | util/db_helpers.go:271-277 | At most one id per row, one for every row when there is no error; an error is the driver's scan error. |
| DbHelpers.ScanIdsMeaning | util/db_helpers.go:271-277 | The ids are the single-integer rows, in order, before the first row that is not one. |
| DbHelpers.CollectIds | util/db_helpers.go:270-277 | The rows.Next loop computes those ids and error. |
| DbHelpers.CreateMany | util/db_helpers.go:243-279 | No records is a no-op. The partition function runs first; its panic propagates, and its error is returned with no ids and no INSERT. After it succeeds, exactly one INSERT of all records follows its statements, with RETURNING only when asked. Its ids come back in scan order. A failing INSERT panics in the deferred Close. |
| DbHelpers.CreateManyChecked | util/db_helpers.go:243-279 | The same partition step; with the query error checked before Close, a failing INSERT returns its error and no ids. |
| DbHelpers.Create | util/db_helpers.go:281-302 | The partition step runs first; its panic propagates and its error is returned with id 0 and no INSERT. After it, one INSERT of the record's db-tagged columns. With RETURNING the returned row is scanned as the id and no row is sql.ErrNoRows. Without it the statement is executed and the id is 0. A non-struct panics. |
| DbHelpers.Delete | util/db_helpers.go:110-118 | No predicates sends nothing and returns nil; otherwise one DELETE with the predicates ANDed. |
| DbHelpers.ListAndCount | util/db_helpers.go:63-73 | The page query is sent first. If it fails, its error is returned and no count is sent. Otherwise its rows are returned and the count query is scanned. |
| DbHelpers.ListS | util/db_helpers.go:50-74 | The page and COUNT queries share the same ANDed WHERE text ("1=1" when empty); the order ends in "1"; columns are the db tags. |
| DbHelpers.ListFlex | util/db_helpers.go:120-156 | The WHERE always ends in "1=1" and is the same for both queries; the order ends in "(SELECT NULL)"; "*" unless columns are chosen. |
| DbHelpers.ListM | util/db_helpers.go:158-186 | WHERE only for a non-empty map and ORDER BY only for a non-empty order; the COUNT query uses the map. |
| DbHelpers.GetM | util/db_helpers.go:315-330 | No row becomes a 404 "resource not found" naming the type; other errors are passed on; otherwise the first row. |
| DbHelpers.ExistS | util/db_helpers.go:99-108 | Exists iff the counted rows are positive; a failed count reads as 0 with its error. |
| DbHelpers.ExistM | util/db_helpers.go:332-343 | The same with an equality map. |
| Fs.Index | util/fs.go:14 | The first position holding the folder, or -1 iff it is not a component. |
| Fs.AppRootPath | util/fs.go:10-17 | "" when the folder is not a component of the working directory. |
| Fs.AppRootPathIsPrefix | util/fs.go:13-16 | The root path is always a prefix of the working directory. |
| Fs.AppRootPathFirstOccurrence | util/fs.go:13-16 | The root path's components are a prefix of the working directory's, end with the folder, and contain no earlier occurrence of it. |
| Fs.RootComponents | util/fs.go:15-16 | Re-splitting the root path gives back the kept components. |
| Jwt.FirstAccepting | util/jwt_parser_util.go:6-11 | The first parser that accepts the token; every earlier one rejects it. |
| Jwt.FirstAcceptingIs | util/jwt_parser_util.go:6-11 | A parser that accepts after all earlier ones rejected is the first accepting one. |
| Jwt.FirstAcceptingNone | util/jwt_parser_util.go:12-13 | When every parser rejects, none is the first accepting one. |
| Jwt.ParseJwtToken | util/jwt_parser_util.go:5-14 | Returns the first accepting parser's payload with no error, and no later parser is invoked. If none accepts, or there are none, the error is 401 "all parser failed" with the last parser's payload, or the zero payload. The error is absent iff some parser accepts. |

## Left out

- util/db.go: `NewDB`, `NewTestDB` and `SetupLocalStorage` open connections, run migrations and read the environment and files.
- util/db.go: `EQx`, `INx`, `SelectStr`, `ToPqStrArray`, `TimePointsFiller`, `timeArrayToStrArray`, `dbArrayStr` and `EitherRunner` are formatting and runner selection outside the batch-write core.
- util/db.go: `MultipleJsonbSet` depends on Go's random map iteration order.
- util/db_helpers.go: `UpdateS`, `GetS`, `GetManyS`, `UpdateMore`, `UpdateM`, `UpdateWithID`, `SetDelete`, `SetActive` and `GetManyM` are single statements without the batching, early-exit or count logic modelled here.
- util/functools.go: not modelled.
  - Maps and randomness: `Filterm`, `Mapm`, `ToMap`, `SetIntersect`, `SetDifference`, `SetValues`, `CollectBy`, `PickRandom`, `Shuffle`.
  - Floats: `Sum`, `Avg`, `SimpleFloatEqual`.
  - Reflection or type assertion: `NotNullCount`, `FromAnys`, `ToAnys`.
  - Side effects: `ForEach`.
  - Helpers outside the core: `MaxBy`, `FlatMap`, `Flatten`, `Tail`, `FilterMap`, `In`, `OneOf`, `IndexesExcept`, `SliceEqual`, `HasIntersect`.
- util/misc.go: not modelled.
  - JSON libraries: `ParseJSONToStruct`, `ToObj`, `DBJsonScan`.
  - Floats: `ToFloat64`.
  - Output: `Print`.
  - Randomness: `NewRand`, `RandomAlphanumeric`.
  - fmt wrapper: `JoinByComma`.
  - `ReadCSVFile`'s file opening and CSV decoding; its parsed records are the input of `Misc.PivotRecords`.
- util/err.go `NewErr` and the package's `ErrBadRequest` are the `Coded` error value; util/jwt_parser.go `UserPayload` is `Jwt.UserPayload`. The concrete JWT parsers (Microsoft, Firebase) are not part of this model; each parser is a function from the token to its answer.
- Logging through zerolog is left out, including `ListFlex`'s extra log line for `common.product`.
- SQL text: statements are values. Squirrel's rendering of SELECT, DELETE and WHERE maps is not modelled; the `$n` text of an INSERT is approximated by `Sql.InsertText`.
- Scanning into Go structs (`con.Select`, `StructScan`) is modelled as returning the raw rows, so column-to-field mapping errors are not modelled.
- `ParseDBArray`'s float64/float32 and time.Time branches: float and time parsing are not modelled, and `DbArray.ElemType` has no member for them.
- Time values carry their RFC 3339 and `time.String` renderings as data; formatting and parsing of times is not modelled.
- Fs.AppRootPath: `os.Getwd` is replaced by the working directory as a parameter; its error path (`Panic(err)`) is not modelled.
- Paging.GetPagination: the echo context is replaced by the two query-parameter strings.
- Functools.FirstN: requires n >= 0; for a negative n Go's slice expression panics, and that panic is not modelled.
- Functools.LastN: requires n >= 0 for the same reason.
- Functools.Min: modelled on int only; Go's version is generic over floats and uint64 as well.
- Db.Range: integers are unbounded. In Go, `end == math.MaxInt64` makes `s++` wrap and the loop never ends; that case is not modelled.
- InsertBatch.InsertHelper.Finish: the query is cut to 100 characters, while Go cuts 100 bytes. They differ only for non-ASCII table or column names.
- Misc.CamelToSnake: letter case is ASCII only. Go's unicode.IsUpper and ToLower also change non-ASCII letters.
- Misc.CamelToSnake2: modelled for ASCII letter case only, so its termination holds only for ASCII text. Go tests the first BYTE with unicode.IsUpper but, on the lower-case branch, ranges over decoded runes from position 0. For a string whose first character is an upper-case letter of three or more UTF-8 bytes ("Ḁ", "aḀ" after its first group, fullwidth "Ａ"), findNextGroup returns ("", 0) and CamelToSnake2 loops forever. The model cannot express that.
- Misc.FindNextGroup: the same restriction. In Go the group is empty whenever the first byte, read as a rune, is not upper-case while the first decoded rune is; that never happens for ASCII text.
- Misc.GroupEnd: the same restriction; Go's group of "Ḁ" is empty.
- Functools.Max: modelled on int only, like Functools.Min; Go's version is generic over floats and uint64 as well.
- Reflect.ExtractFields: whether a field is flattened is decided on the value it holds, while Go decides on the field's declared type. An `any`-typed field that holds a struct is one column in Go but is flattened here.
- Reflect.ExtractTags: Go's `va.Interface()` panics on an unexported field; fields here carry no export flag, so that panic is not modelled.
- Reflect.IsFlattened: decided on the held value's kind and type name, not the declared field type, for the reason above.
- Reflect.StructDataType: the label comes from the held value. For an `any`-typed field Go gets the declared type's name, which is "", whatever the field holds.
- DbHelpers.PartitionFunc: the partition function is closed: none (Go's nil) or PrepareIDPartition with a schema and a bucket width. Go accepts any function of the connection and the table, and other functions are not modelled.
- Reflect.StructTags: lists the direct fields of the struct. reflect.VisibleFields also lists the promoted fields of embedded structs.
- Reflect.StructDataType: lists direct fields only, for the same reason.
- Reflect.TagGet: takes the tag already split into key/value pairs. Parsing the raw `key:"value"` text is not modelled.
- DbArray.IntArrayRoundTrip: requires a non-empty array, because the empty array does not round-trip as written (see Findings); DbArray.IntArrayRoundTripFixed drops that requirement.
- DbArray.BoolArrayRoundTrip: requires a non-empty array for the same reason; DbArray.BoolArrayRoundTripFixed drops it.
- DbArray.StringArrayRoundTrip: requires a non-empty array for the same reason, and non-empty elements. DBArrayValues writes "" as the two characters `""`, and ParseDBArray[string] keeps those quotes.
- Db.PrepareIDPartition: a sequence value that does not fit a uint is treated as a scan error. The bucket arithmetic is uint64 with explicit wrap-around. Db.IdPartitionsCover states the partition ranges only when no wrap-around occurs.

## Findings

| source | as written | input that shows it | evidently intended | confidence | as-written member | corrected member |
|---|---|---|---|---|---|---|
| util/db.go:401-408 | The int branch of ParseDBArray overwrites `err` with every token's Atoi result, so only the last token's error survives. | `ParseDBArray[int]("{x,1}")` returns `[0 1]` and a nil error. | Report the first malformed token, as the bool branch does. | medium; not executed | DbArray.ParseIntsDropsEarlyError | DbArray.ParseIntsStrictFirstError |
| util/functools.go:406-420 | ContainsAll returns true when `b` is empty and `a` is not. | `ContainsAll([1], [])` is true although 1 is not in `[]`. | "b contains all elements in a" is false when b is empty and a is not. | medium; not executed | Functools.ContainsAll | Functools.ContainsAllFixed |
| util/db_helpers.go:264-265 | `defer rows.Close()` is registered before the query error is checked. On a failed INSERT, `rows` is nil and the deferred Close panics. | Any INSERT that the database rejects, e.g. a duplicate key. | Return the query error with no ids. | medium; not executed | DbHelpers.CreateMany | DbHelpers.CreateManyChecked |
| util/page.go:44-49 | DBSlice renders `col[Page*PerPage:(Page+1)*PerPage]`. Postgres array slices are 1-based with both bounds inclusive, so from the second page on the slice holds PerPage+1 elements, and the last element of every page is also the first of the next one. | Page 0 and page 1 with PerPage 2 over a 4-element array give `a[0:2]` and `a[2:4]`; both hold position 2. | `col[Page*PerPage+1:(Page+1)*PerPage]`, the rows OFFSET/LIMIT select. | medium; not executed | Paging.DBSliceOverlap | Paging.DBSliceFixedDisjoint |
| util/db.go:374-390 | DBArrayValues writes an empty array as `{}`, and allTokens turns `{}` into the one token "". | `ParseDBArray[int]("{}")` gives `[0]` and Atoi's syntax error; `ParseDBArray[string]("{}")` gives `[""]`; `ParseDBArray[bool]("{}")` gives the error "unrecognised token  in bool array". | An empty array reads back as an empty array with no error. | high; not executed | DbArray.EmptyArrayDoesNotRoundTrip | DbArray.IntArrayRoundTripFixed |
