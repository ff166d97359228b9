# Verified model of the murphy data paths

Murphy is a resource policy daemon with an embedded in-memory database (murphy-db),
an object-pool allocator and a message transport. This project models five of its
components in Dafny and proves what they are for. Where the code does not do what it
is for, the failing input and the exact condition under which it does are proved
instead.

- **The table engine of murphy-db** (`Keys`, `Sequence`, `HashFn`, `Hash`, `Store`,
  `Runs`, `Order`, `Table`, `Log`, `Database`, `Sweep`, `TableLoops`, `Columns`,
  `Updates`). Rows are heap objects on a list; a chained hash and a sorted array
  lead from keys to rows; an undo log is threaded by table and by transaction. A
  table's abstract state is a `Store`: the allocated rows by address, and the
  addresses that are linked. `TransactionRuns` proves on this abstraction that
  rollback is the inverse of every run and exactly when it is memory-safe; the class
  `Table` refines it with both indexes in agreement, and the class `Database` keeps,
  through every operation, the store that a rollback would bring back (`Origin`),
  tied to the recorded history of all tables.
- **The condition evaluator** (`CondSyntax`, `CondMachine`, `CondCorrectness`,
  `CondWhole`). A shift/reduce machine over a fixed stack is proved equal to the
  recursive reading of a condition, and exactly when its stack suffices.
  Parenthesised groups are decided wrongly by the code; what the code answers
  instead is proved for leading groups, nested groups, a group behind an operator
  and a group alone, and for a leading group the condition, operator by operator,
  under which the answer is right all the same.
- **The message codec and the byte stream** (`Octets`, `Wire`, `MsgBuf`, `Codec`,
  `CustomData`, `Stream`, `Transport`). A growing buffer, the default and the
  custom-data codec, and the reassembly of frames from arbitrary reads, composed
  into: received messages are sent messages.
- **The object pool** (`PoolSizing`, `Pool`). A two-level bitmap refines a set of
  live objects; sizing, addressing, shrinking and the walk over all objects.
- **The handle map** (`Handle`). A bitmap free list and use counters; exactly which
  handles resolve, and that no handle is ever given out twice.

`Common` holds lists, an option type and arithmetic shared by all files. Memory is
modelled by addresses (`Ptr`, 0 for NULL) and maps from addresses to contents;
allocation always succeeds at an address not in use. Row data are byte strings.
Integer widths are written out where the code depends on them.

In the source the entries of both indexes point at the key bytes inside the rows;
here an `Entry` holds the key by value. The calls into an index are made while it
agrees with the rows (the row to be added aside), and then a lookup through the rows
and one by value are the same (`RowTable.Table.ReachesIff`). Agreement ends only
with an update that changes a key behind the back of the index: what comes of that
is stated for the lookup through the rows (`RowTable.Table.ReachesMissed`,
`ColumnUpdates.StaleIndex`).

## What does not hold

These are proved, each with the exact condition under which the code is right:

- An index holds 16 keys. With the 17th, the sorted array is enlarged and memory far
  behind it is zeroed (src/murphy-db/mdb/sequence.c:158); what is said about indexed
  tables is said up to there, and the 17th key is where it ends
  (`SortedSequence.FillInsideIff`, `RowTable.Table.IndexAdd`,
  `Transactions.Database.Insert`).
- An update that changes a key, but no more columns than precede the first key
  column, leaves the index stale (`ColumnUpdates.Update`,
  `ColumnUpdates.StaleIndex`).
- A rollback touches freed memory after a row inserted, updated or put in place of
  another in the transaction is replaced (`TransactionRuns.RollbackSafeIff`), and
  after an update that collides in a transaction (`Transactions.CollidedFaults`).
- A rollback brings back the rows of a table but not always their order, since a
  deleted row comes back as the last (`RowOrder.OrderRestoredIff`).
- A group in a condition takes no part in it, or decides it alone, or makes the
  evaluation run behind its end (`CondCorrectness.LeadingGroupCorrectIff`,
  `CondWhole.OperatorThenGroup`, `CondWhole.GroupAlone`).
- A message with an array is decoded only if the shared loop counter allows it
  (`MessageFormat.RoundTripIff`); a blob in custom data has its address for a length
  (`CustomData.BlobBackIff`); a frame of which the socket takes a part breaks the
  stream (`StreamFraming.CutFrameIff`).
- The hash of table names shifts by more than the width of an int
  (`HashFunctions.NamesUndefined`).
- An object that a setup callback refuses is counted off (`ObjectPool.Pool.Alloc`);
  deleting the handle that empties the last of several buckets leaves a bucket in
  the count whose memory is given back (`HandleMap.LosesIff`); the number of rows
  deleted from a whole table starts from an uninitialised variable
  (`TableLoops.DeleteAll`).

## Model

| member | source | states |
|---|---|---|
| Keys.UnsigndTotal | src/murphy-db/mdb/mqi-types.c:61-79 | unsigned keys are totally ordered and equal only if identical, on all 4-byte keys |
| Keys.BlobTotal | src/murphy-db/mdb/mqi-types.c:106-112 | blob keys are totally ordered, for every length |
| Keys.VarcharTotal | src/murphy-db/mdb/mqi-types.c:81-104 | non-empty zero-padded strings are totally ordered and equal only if identical |
| Keys.VarcharTellsApartIff | src/murphy-db/mdb/mqi-types.c:88 | two different strings compare as different exactly if neither is empty |
| Keys.CompareMeans | src/murphy-db/mdb/mqi-types.c:61-112 | unsigned keys are ordered by value, lowest first; blobs, and strings that are not empty, by the first byte in which they differ |
| Keys.IntegerOrderedIff | src/murphy-db/mdb/mqi-types.c:46-59 | signed keys compare as their values do exactly if the difference fits 32 bits |
| Keys.IntegerTotal | src/murphy-db/mdb/mqi-types.c:46-59 | signed keys are totally ordered on every set whose differences fit |
| SortedSequence.Sequence.InsertionPoint | src/murphy-db/mdb/sequence.c:166-180 | the binary search stays in bounds, ends, and finds a place below which no key is greater and above which none is smaller |
| SortedSequence.Sequence.Grow | src/murphy-db/mdb/sequence.c:148-158 | enlarges the array by one step keeping its entries; the zero-fill leaves the array exactly if it was not empty |
| SortedSequence.FillInsideIff | src/murphy-db/mdb/sequence.c:158 | the zero-fill, whose offset in bytes is taken as a number of entries, stays inside the enlarged array exactly if there was no array before |
| SortedSequence.SeventeenthEntry | src/murphy-db/mdb/index.c:49 | for an index the 17th entry makes an array of 512 bytes and zeroes memory from byte 4096 on |
| SortedSequence.Sequence.Add | src/murphy-db/mdb/sequence.c:139-197 | inserts one entry and keeps the array sorted; it stays inside its memory exactly if no array in use has to be enlarged for it |
| SortedSequence.Sequence.Find | src/murphy-db/mdb/sequence.c:211-233 | the search stays in bounds, ends, and finds an entry with the key exactly if there is one |
| SortedSequence.Sequence.Delete | src/murphy-db/mdb/sequence.c:199-265 | removes exactly one entry with the key and returns its data, keeping order; for an absent key it returns nothing and changes nothing |
| SortedSequence.Sequence.Reset | src/murphy-db/mdb/sequence.c:103-114 | leaves an empty sequence |
| SortedSequence.Sequence.Snapshot | src/murphy-db/mdb/sequence.c:269-309 | the cursor holds a copy of all data pointers in key order |
| ChainedHash.Hash.Lookup | src/murphy-db/mdb/hash.c:345-350 | the walk along a chain finds the entry of a key, or the end if the key is absent |
| ChainedHash.Hash.Add | src/murphy-db/mdb/hash.c:254-295 | adds the pair to the finite map unless the key has another value; chains partition the entry list |
| ChainedHash.Hash.Delete | src/murphy-db/mdb/hash.c:297-332 | removes the key from the map and returns its value, or 0 and no change |
| ChainedHash.Hash.Get | src/murphy-db/mdb/hash.c:334-352 | returns the value that the map has for the key, or 0 |
| ChainedHash.Hash.Reset | src/murphy-db/mdb/hash.c:472-497 | walks the entry list and empties every chain |
| HashFunctions.TableSize | src/murphy-db/mdb/hash.c:499-535 | returns the smallest of the 169 listed sizes that is large enough, for every request from 2 to 65535, and what it returns outside; the size has at most 8 bits exactly for requests up to 251 |
| HashFunctions.SizesListed | src/murphy-db/mdb/hash.c:87-121 | the listed sizes increase, and each lies in the range of the bits listed with it |
| HashFunctions.ChainOf | src/murphy-db/mdb/hash.c:355-469 | the hash of every key of every type lies in the range of the chains, for every listed size for which its function is defined |
| HashFunctions.IndexSizeDefined | src/murphy-db/mdb/index.c:48 | the size of an index is one of these for every type of key |
| HashFunctions.NamesUndefined | src/murphy-db/mdb/table.c:96 | the hash of table names is not: it gets a size of 9 bits, for which a shift by 33 is computed on an int |
| HashFunctions.ShiftTooWide | src/murphy-db/mdb/hash.c:402-406 | beyond 8 bits the first shift of the string and blob hash exceeds the width of an int, for every listed size but powers of two |
| HashFunctions.StringHash | src/murphy-db/mdb/hash.c:376-413 | the loop over a string folds the sum of its mapped characters times powers of 33, modulo 2^64, into the range of the chains |
| HashFunctions.BlobHash | src/murphy-db/mdb/hash.c:435-469 | the same for the bytes of a blob; the empty blob goes to chain 0 |
| HashFunctions.WideIsPolynomial | src/murphy-db/mdb/hash.c:389-397 | the accumulated word is the polynomial in 33 over the numbers of the characters, the first one highest, modulo 2^64 |
| ChainedHash.Hash.constructor | src/murphy-db/mdb/hash.c:147-184 | an empty table with the number of chains for the size asked for, 101 for an index |
| TableStore.StepGood | src/murphy-db/mdb/table.c:285-331 | every operation keeps rows well formed, keys of linked rows distinct and their number within what an index holds |
| TableStore.StepMeans | src/murphy-db/mdb/table.c:285-331 | for every row, whether it is linked and allocated after an operation and which bytes it has |
| TableStore.UndoInvertsStep | src/murphy-db/mdb/transaction.c:181-222 | undoing the logged change of an insert, update or delete restores the store, addresses included |
| TableStore.UndoReplace | src/murphy-db/mdb/transaction.c:210-222 | undoing a replacement restores the content, with the new row in the place of the replaced one |
| TableStore.UndoOwns | src/murphy-db/mdb/transaction.c:188-222 | undoing the newest change hands its before-image back or frees a row: every allocated row stays owned by the list or by one log entry |
| TableStore.StepOwns | src/murphy-db/mdb/table.c:737-807 | every operation leaves each allocated row either linked or the before-image of exactly one log entry |
| TableStore.RenameRecoverable | src/murphy-db/mdb/index.c:230-256 | a log stays recoverable when a row it does not mention is exchanged for another with the same bytes |
| TransactionRuns.RollbackRestores | src/murphy-db/mdb/transaction.c:123-149 | after every run that replaces no row touched before in the transaction, each undo step is enabled and keeps keys distinct, and the content is as before the run |
| TransactionRuns.RollbackIsInverse | src/murphy-db/mdb/transaction.c:123-149 | without replacements, undoing the log of any run yields the very store before it, addresses included |
| TransactionRuns.RollbackSafeIff | src/murphy-db/mdb/index.c:230-256 | undoing a run touches freed memory exactly if the run replaced a row that it had itself inserted, updated or put in place of another |
| TransactionRuns.ReplaceCounterexample | src/murphy-db/mdb/transaction.c:138-140 | inserting a row and replacing it in the same transaction makes the rollback fault |
| TransactionRuns.RunOwns | src/murphy-db/mdb/log.c:98-133 | after every run each allocated row is linked, a before-image of the run's log, or kept by an outer log |
| TransactionRuns.DrainIsReverseOrder | src/murphy-db/mdb/log.c:135-241 | draining the log table by table, newest change first in each, in any order of the tables, equals undoing all changes in reverse order, for any interleaving |
| TransactionRuns.CommitFreesOwned | src/murphy-db/mdb/transaction.c:60-121 | commit frees each before-image exactly once while it is allocated and unlinked, keeps all linked rows and leaves no garbage |
| RowTable.Table.constructor | src/murphy-db/mdb/table.c:173-194 | a new table is empty and its indexes agree with it |
| RowTable.Table.CreateIndex | src/murphy-db/mdb/table.c:230-258 | the first row with each key enters the index and stays, in the order of the list, later ones are freed, and the result tells whether any was; the table is sound afterwards exactly if there are at most 16 different keys |
| RowTable.EarlierStays | src/murphy-db/mdb/table.c:243-248 | of two rows with one key the later in the list goes when it is indexed; the earlier stays exactly if none before it has the key |
| RowTable.IndexAfterInsertions | src/murphy-db/mdb/table.c:230-331 | of two rows inserted with one key that no other row has, the one inserted first survives the creation of an index on it and the other is freed |
| RowTable.Table.IndexFirst | src/murphy-db/mdb/index.c:196-263 | one turn of the indexing loop: a row stays exactly if no earlier row has its key, up to the 17th key |
| RowTable.Table.IndexInsert | src/murphy-db/mdb/index.c:196-263 | a row with a free key enters both indexes; a duplicate is replaced with `ignore` inside a transaction, refused with `ignore` outside, and otherwise makes the new row go; the row list in each case; memory stays intact exactly if the key is known or there is room |
| RowTable.Table.IndexAdd | src/murphy-db/mdb/index.c:221-224 | hash and sequence gain the same entry; memory stays intact exactly for the first 16 |
| RowTable.Table.IndexDelete | src/murphy-db/mdb/index.c:265-293 | hash and sequence lose the same entry and both yield the row |
| RowTable.Table.IndexReset | src/murphy-db/mdb/index.c:181-193 | empties hash and sequence |
| RowTable.Table.ReplaceInIndex | src/murphy-db/mdb/index.c:230-256 | the old row leaves index and list but stays allocated, the new row takes its key; the other rows keep their order |
| RowTable.Table.RowCreate | src/murphy-db/mdb/row.c:48-62 | a fresh row with the given bytes, the last of the list, the others keeping their order, and not yet in the index |
| RowTable.Table.RowDuplicate | src/murphy-db/mdb/row.c:64-79 | a fresh unlinked row with the same bytes |
| RowTable.Table.RowDelete | src/murphy-db/mdb/row.c:81-104 | the row leaves the list, whose other rows keep their order, the index if asked for, and the memory if asked for |
| RowTable.Table.RowUpdate | src/murphy-db/mdb/row.c:106-138 | new bytes in place with the index following, where another row with the new key makes the row go; without the index, agreement is lost exactly if the key bytes change |
| RowTable.Table.RowCopyOver | src/murphy-db/mdb/row.c:140-153 | a before-image is copied over its row and both indexes agree again; if another row has its key, the row goes |
| RowTable.Table.Insert | src/murphy-db/mdb/table.c:285-331 | the outcome of inserting one row, for a free and a taken key, with and without `ignore` and transaction: the list is the old one, or the old one without the replaced row, with the new row as the last; the table stays sound exactly if there is room and no refused duplicate is left in the list |
| RowTable.Table.UpdateRow | src/murphy-db/mdb/table.c:737-758 | a logged copy of the old bytes inside a transaction, then the update, for every new key, taken or not, told to the index or not |
| RowTable.Table.DeleteRow | src/murphy-db/mdb/table.c:799-807 | the row leaves list and index; it stays allocated exactly inside a transaction |
| RowTable.Table.Clear | src/murphy-db/mdb/table.c:782-797 | all rows leave list and index, in list order; the count starts from an uninitialised variable, and stays there if that is negative |
| RowTable.Table.RemoveRow | src/murphy-db/mdb/transaction.c:188-199 | undoes an insertion; the other rows keep their order |
| RowTable.Table.AddRow | src/murphy-db/mdb/transaction.c:201-208 | undoes a deletion and returns 1; the row comes back as the last of the list |
| RowTable.Table.CopyRow | src/murphy-db/mdb/transaction.c:210-222 | undoes an update in place and frees the before-image; the list stays |
| RowTable.Table.DestroyRow | src/murphy-db/mdb/transaction.c:181-186 | frees an unlinked row and nothing else |
| RowTable.Table.ValidIsGood | src/murphy-db/mdb/index.c:196-293 | agreement of list and index implies that keys are unique and at most 16 |
| RowTable.Table.ReachesIff | src/murphy-db/mdb/index.c:216-224 | while list and index agree, a lookup that reads the keys in the rows, where the entries point, finds what the index holds by value |
| RowTable.Table.ReachesMissed | src/murphy-db/mdb/table.c:406-413 | once the index has missed a new key, the row is found under no old key, and under the new one exactly if both have the same hash |
| UndoLog.Log.OpenLog | src/murphy-db/mdb/log.c:385-426 | finds or opens the logs of the depth in both threads without changing any list of changes |
| UndoLog.Log.Append | src/murphy-db/mdb/log.c:98-133 | a change becomes the newest of its table at its depth, and of the history of the transaction; at depth 0 nothing is logged; both threads stay consistent and tell the history |
| UndoLog.Log.DeleteLog | src/murphy-db/mdb/log.c:367-373 | a drained log leaves both threads; the transaction's thread gets shorter |
| UndoLog.Log.Next | src/murphy-db/mdb/log.c:135-241 | each call delivers the newest or the oldest change that is left of the table whose turn it is, once, and takes it out of the history, or ends when the transaction has no changes |
| UndoLog.ToldTake | src/murphy-db/mdb/log.c:135-241 | what is left in the lists after taking a change off one of them tells the history without that change |
| Transactions.Database.constructor | src/murphy-db/mdb/transaction.c:55-58 | tables without unlinked rows and an empty log make a consistent database at depth 0 |
| Transactions.Database.Begin | src/murphy-db/mdb/transaction.c:55-58 | a fresh depth whose origin is the present state of every table |
| Transactions.Database.OriginsOfHistory | src/murphy-db/mdb/log.c:98-241 | in every consistent state the origins of all tables are what undoing the recorded history in reverse order yields, however the changes of the tables are interleaved |
| Transactions.Database.Insert | src/murphy-db/mdb/table.c:285-331 | the new state of the table, its bytes and the order of its list for each outcome; the database stays consistent exactly if there is room for a new key, or the duplicate is given without `ignore`, or it is replaced inside a transaction that has not touched it; then the other tables are unchanged and the origin is kept (its content, for a replacement) |
| Transactions.Database.Update | src/murphy-db/mdb/table.c:737-758 | the new state of the table for every key, in place in the list, with the before-image logged and the other tables unchanged; the database stays consistent exactly if the index notices the key and, inside a transaction, no other row has it; then the origin is kept |
| Transactions.Database.Delete | src/murphy-db/mdb/table.c:799-807 | the store without the row, the row kept for the log, the other tables unchanged, the origin kept |
| Transactions.Database.UndoOne | src/murphy-db/mdb/transaction.c:132-146 | one turn of the rollback loop undoes one change of one table |
| Transactions.Database.Rollback | src/murphy-db/mdb/transaction.c:123-149 | every table is back at its origin, which is the undoing of the whole history in reverse order, and its list is what undoing its log does to a list; its indexes agree, its log of the depth is empty; a wrong depth is refused without effect |
| Transactions.Database.CommitOne | src/murphy-db/mdb/transaction.c:75-113 | one turn of the commit loop frees the before-image of one change |
| Transactions.Database.Commit | src/murphy-db/mdb/transaction.c:60-121 | linked rows and their order unchanged, every before-image of the depth freed, those of outer depths kept, the log of the depth empty; a wrong depth is refused without effect |
| Transactions.StepAccounted | src/murphy-db/mdb/log.c:98-133 | one logged operation keeps ownership and recoverability of the whole log and the store a rollback would restore |
| Transactions.ReturnStep | src/murphy-db/mdb/transaction.c:123-149 | taking the newest change and undoing it is possible and leads towards the same origin |
| Transactions.SettleStep | src/murphy-db/mdb/transaction.c:60-121 | the before-image of the oldest change is allocated and unlinked, and freeing it keeps the rest accounted for |
| Transactions.TouchedFaults | src/murphy-db/mdb/index.c:230-256 | replacing a row that the transaction has inserted, updated or put in place of another makes the log refer to a row that a rollback will have freed |
| Transactions.CollidedFaults | src/murphy-db/mdb/row.c:128-134 | an update that collides inside a transaction frees the row that the log entry just written refers to |
| RowOrder.OrderRestoredIff | src/murphy-db/mdb/transaction.c:123-149 | a rollback brings the rows back in the order they had exactly if the transaction, of the rows that were there before it, deleted the last one each time; for every run without replacements |
| RowOrder.OrderCounterexample | src/murphy-db/mdb/transaction.c:201-208 | deleting the first of two rows and rolling back exchanges them |
| TableLoops.NextRow | src/murphy-db/mdb/table.c:541-565 | the cursor yields the first row still to come and moves past it before the caller sees it, on a snapshot or along the list |
| TableLoops.OrderOfRows | src/murphy-db/mdb/table.c:541-565 | the rows are visited in the order of the list, or, in an indexed table, in ascending order of their keys |
| TableLoops.IndexVisitsAll | src/murphy-db/mdb/table.c:541-565 | both ways of iterating visit every linked row exactly once |
| UpdateSweep.NoClash | src/murphy-db/mdb/table.c:690-712 | if the keys after the whole update are distinct, no turn of it collides, whichever rows are done already |
| UpdateSweep.SweepAtOnceIff | src/murphy-db/mdb/table.c:690-735 | updating one row after the other, where a collision loses the row, equals updating all at once exactly if the final keys are distinct or the index is not told, in whatever order the rows come |
| TableLoops.UpdateWhere | src/murphy-db/mdb/table.c:690-735 | for all inputs the loop equals the sweep over the rows at the start, each row having one turn even when its key moves; the index stays in agreement exactly if no selected row gets an unnoticed key; the database stays consistent, and the origin is kept, exactly if inside a transaction, besides, the final keys are distinct |
| TableLoops.DeleteWhere | src/murphy-db/mdb/table.c:760-779 | the loop equals a one-shot filter over the rows at the start; the count and the origin are right |
| TableLoops.DeleteAll | src/murphy-db/mdb/table.c:782-797 | the table is empty, and the origin is kept inside a transaction; the count is off by what an uninitialised variable holds |
| Columns.LayOut | src/murphy-db/mdb/table.c:148-170 | every column lies at the first aligned place behind the one before it; columns do not overlap and fit the row |
| Columns.PlacedMeans | src/murphy-db/mdb/table.c:148-170 | a string takes one byte more than its length and starts where the column before it ends; a number takes 4 bytes, or 8 with a point, and starts at the next multiple of 4 |
| Columns.WriteColumn | src/murphy-db/mdb/column.c:49-85 | the column holds the canonical bytes of the value, for numbers their four bytes in memory, and no other byte changes; floating-point columns are not written |
| Columns.ReadColumn | src/murphy-db/mdb/column.c:88-120 | yields the number in the column, signed or unsigned, or the characters from its first byte to the first NUL |
| Columns.ReadBack | src/murphy-db/mdb/column.c:49-120 | what was written is read back: every number of both integer types, and of a string as much as the column has room for beside the NUL |
| Columns.NumbersApart | src/murphy-db/mdb/column.c:67-73 | two numbers are stored alike exactly if they are the same |
| Columns.SameCanonicalIff | src/murphy-db/mdb/column.c:60-63 | two strings are stored alike exactly if they agree as far as the column reaches |
| Columns.SpanIff | src/murphy-db/mdb/index.c:59-133 | columns have a common range exactly if each one named starts where those before it end, or ends where they start; the range reaches from the lowest byte to the highest |
| Columns.CreateIndex | src/murphy-db/mdb/index.c:59-133 | succeeds exactly if the columns, in the order given, keep extending one range of at most 8192 bytes; the sorted columns then tile the range; one floating-point column is a success without an index |
| Columns.MatchesIffKey | src/murphy-db/mdb/table.c:368-387 | the key bytes of a row are those a lookup builds exactly if every key column holds its value |
| Columns.BuildKey | src/murphy-db/mdb/table.c:355-387 | refuses values of other types and otherwise fills the whole key |
| Columns.SelectByIndex | src/murphy-db/mdb/table.c:355-390 | finds a row exactly if a scan over the key columns would, and that row is the only one |
| ColumnUpdates.WriteColumns | src/murphy-db/mdb/row.c:106-126 | writing the columns one after the other overlays the row with one patch, in which the last value given to a column stays |
| ColumnUpdates.ColumnPatched | src/murphy-db/mdb/row.c:106-126 | every column holds afterwards the canonical bytes of the last value given to it, or what it held if it was given none |
| ColumnUpdates.KeyKeptIff | src/murphy-db/mdb/table.c:394-424 | an update leaves the key of a row alone exactly if every key column that it writes holds already the value it is given last |
| ColumnUpdates.Update | src/murphy-db/mdb/table.c:394-424 | the index stays in agreement exactly if it is told, which it is if more columns are updated than precede the first key column, whichever they are, or if no selected row gets other key bytes |
| ColumnUpdates.StaleIndex | src/murphy-db/mdb/table.c:406-413 | a table with one row whose key, its second column, is updated alone: afterwards the index disagrees and the row is found under neither key |
| CondSyntax.RelationLaws | src/murphy-db/mdb/cond.c:282-337 | the relational operators are the relations of one total order on data of one type, NULL strings first, and 0 on data that cannot be compared |
| CondSyntax.RelationMeans | src/murphy-db/mdb/cond.c:282-337 | which way the order goes: numbers by value, strings as in a dictionary with NULL in front; no others can be compared |
| CondSyntax.LogicMeans | src/murphy-db/mdb/cond.c:338-390 | `and`, `or` and `not` on numbers of one type are those of logic; `not` tells whether a string is NULL or empty; 0 on anything else |
| CondSyntax.GroupingRule | src/murphy-db/mdb/cond.c:81-92 | the grouping of a reading in full: `not` takes a datum or another `not`; relations come before `or`, and `or` before `and`; of two operators of one kind the right one comes first |
| CondSyntax.FlattenOfParse | src/murphy-db/mdb/cond.c:79-167 | the reading of a well-formed condition is properly grouped and is written as the condition |
| CondSyntax.ReadingIsUnique | src/murphy-db/mdb/cond.c:79-167 | every properly grouped expression is the reading of what it is written as: the reading is unique |
| CondMachine.PreviousOperator | src/murphy-db/mdb/cond.c:261-264 | the scan finds the operator below the one just applied |
| CondMachine.CodesAgree | src/murphy-db/include/murphy-db/mqi-types.h:71-95 | a cell read as an operator shows the operator whose code is the code of the type of the datum in it |
| CondMachine.ApplyOperator | src/murphy-db/mdb/cond.c:221-279 | one reduction of the stack array, whatever its cells hold, is one step of the exact machine |
| CondMachine.CondEval | src/murphy-db/mdb/cond.c:221-279 | the loop over the stack array leaves exactly what the machine leaves, cells above the stack pointer included |
| CondMachine.Evaluate | src/murphy-db/mdb/cond.c:79-167 | the loop with its array stack, pointers and recursion computes what the exact machine computes, for every condition on which that stays inside the array |
| CondCorrectness.EvaluatesReading | src/murphy-db/mdb/cond.c:79-167 | for every parenthesis-free condition the machine answers the truth of the recursive reading exactly if the fixed stack suffices, and stops behind the end marker |
| CondCorrectness.WhereClause | src/murphy-db/mdb/cond.c:79-167 | every well-formed condition of fewer than 256 entries is evaluated to the truth of its reading |
| CondCorrectness.TwoOperators | src/murphy-db/mdb/cond.c:81-92 | `a op b op c` for all data and operators: the left operator is applied first exactly if it is a relation and the right one is not, or if it is `or` and the right one `and` |
| CondCorrectness.NotFirst | src/murphy-db/mdb/cond.c:81-92 | `not a op b` negates `a` first, for all data and operators |
| CondCorrectness.ReduceResidue | src/murphy-db/mdb/cond.c:221-279 | reducing what a shifted expression left on the stack yields its value |
| CondCorrectness.Shift | src/murphy-db/mdb/cond.c:94-150 | reading an expression leaves its residue on the stack, or overflows exactly if its height does not fit |
| CondCorrectness.LeadingGroupDecides | src/murphy-db/mdb/cond.c:109-117 | a leading group decides the answer; the entry behind its end marker is skipped and the rest has no influence |
| CondCorrectness.LeadingGroupCorrectIff | src/murphy-db/mdb/cond.c:109-117 | a leading group followed by an operator and an expression is answered as it reads exactly if what follows is harmless to the truth of the group, a condition on each operator and operand |
| CondCorrectness.HarmlessIff | src/murphy-db/mdb/cond.c:221-337 | harmless means harmless: joining an expression to a truth value leaves it as it is exactly under the condition given operator by operator, for any nesting of tighter and looser operators |
| CondCorrectness.KeepsIff | src/murphy-db/mdb/cond.c:282-337 | the condition for one operator and one operand of any type |
| CondCorrectness.GroupsDecide | src/murphy-db/mdb/cond.c:109-117 | a condition that starts with a group, however deep, is decided by the innermost expression of that group alone |
| CondCorrectness.WholeGroup | src/murphy-db/mdb/cond.c:109-117 | a condition that is one group makes the evaluation run behind its end |
| CondCorrectness.GroupCounterexample | src/murphy-db/mdb/cond.c:109-117 | `( 1 ) and 0` selects the row |
| CondWhole.ExactlyIs | src/murphy-db/mdb/cond.c:79-167 | wherever the evaluation needs only what is live on the stack, the array with all its stale cells gives the same answer |
| CondWhole.OperatorThenGroup | src/murphy-db/mdb/cond.c:109-150 | a group behind an operator: the operator is applied to its left operand and a stale cell, the result is joined with the next datum, and the group has no influence; the exact answer for all operands and operators |
| CondWhole.GroupLast | src/murphy-db/mdb/cond.c:109-117 | a condition that ends with a group behind an operator makes the evaluation run behind its end |
| CondWhole.GroupAlone | src/murphy-db/mdb/cond.c:109-117 | so does a group alone, on the array as well |
| CondWhole.OperatorGroupCounterexample | src/murphy-db/mdb/cond.c:109-150 | `1 and ( 1 ) or 1` selects nothing |
| Octets.NumberOfBigEndian | src/common/msg.c:578-628 | conversion to and from network byte order are inverse for numbers that fit the width |
| Octets.DigitAt | src/common/msg.c:578-628 | the octets of a number are its digits to the base 256, the highest in front, for every width |
| Octets.BigEndianOfNumber | src/common/msg.c:578-628 | octets are the network form of the number they stand for |
| MessageFormat.TypeCodes | src/common/msg.h:48-66 | the type code of every value |
| MessageFormat.ScalarOctets | src/common/msg.c:587-640 | the octets of every scalar: strings with their length and a NUL, booleans as 32-bit numbers, numbers digit by digit, negative ones in two's complement |
| MessageFormat.CountOctets | src/common/msg.c:634-645 | a blob and an array start with their length in four octets, the highest in front |
| MessageFormat.FieldOctets | src/common/msg.c:584-586 | a field starts with two octets for its tag and two for its type code, the higher in front |
| MessageFormat.MessageOctets | src/common/msg.c:578-579 | a message starts with two octets 0 and two for the number of its fields, the higher in front |
| MessageFormat.FieldPlace | src/common/msg.c:581-705 | every field lies behind those before it and in front of those after it |
| MessageFormat.ScalarBack | src/common/msg.c:744-812 | every scalar is decoded from its encoding, whatever follows |
| MessageFormat.FieldBack | src/common/msg.c:737-935 | every field, arrays and blobs included, is decoded from its encoding, whatever follows |
| MessageFormat.FieldsBack | src/common/msg.c:736-935 | the decoding loop yields exactly the fields that its counter lets it take |
| MessageFormat.DecodedOfEncoded | src/common/msg.c:718-941 | what decoding the encoding of any message yields, for every message |
| MessageFormat.RoundTripIff | src/common/msg.c:736-839 | a message is decoded to itself exactly if the loop counter, which reading an array overwrites, stays below the announced count until the last field |
| MessageFormat.PlainRoundTripIff | src/common/msg.c:718-941 | a message without arrays is decoded to itself exactly if it has fewer than 65536 fields |
| MessageFormat.LastArrayRoundTripIff | src/common/msg.c:839 | a message with one array at its end is decoded to itself exactly if the array has at least as many items as there are fields before it |
| MessageFormat.ArrayCounterexample | src/common/msg.c:839 | a boolean followed by an empty array cannot be decoded |
| MessageFormat.TruncatedRefused | src/common/msg.c:718-941 | what is decoded to its end is not decoded once any of its last octets are missing |
| MessageBuffer.MsgBuf.Ensure | src/common/msg.c:1769-1792 | grows by what is missing, but at least 32 octets, and keeps what was written and p + l == size; there is room afterwards exactly if what is missing fits a C int |
| MessageBuffer.MsgBuf.Reserve | src/common/msg.c:1795-1824 | pads with zeroes up to the alignment and makes room, keeping what was written |
| MessageBuffer.MsgBuf.Push | src/common/msg.h:331-354 | appends the padding and the octets |
| MessageBuffer.MsgBuf.Pull | src/common/msg.c:1827-1853 | yields the aligned place exactly if the octets are there, and changes nothing otherwise |
| MessageBuffer.PullsBackPushed | src/common/msg.c:1795-1853 | reserve and pull pad alike: any series of items with any alignments is pulled back as pushed |
| MessageCodec.AddField | src/common/msg.c:580-705 | appends exactly the encoding of a field, through any growth of the buffer |
| MessageCodec.Encode | src/common/msg.c:566-715 | the octets are the encoding of the message, with 0 and the number of fields in the first four |
| MessageCodec.TakeScalar | src/common/msg.c:744-812 | decodes a scalar as specified, consuming the same octets |
| MessageCodec.TakeItems | src/common/msg.c:839-906 | decodes the items of an array and leaves their number in the counter |
| MessageCodec.TakeValue | src/common/msg.c:741-935 | decodes a value by its type; an array overwrites the counter |
| MessageCodec.Decode | src/common/msg.c:718-941 | the decoding loop computes the specified outcome for every input |
| CustomData.Register | src/common/msg.c:1060-1147 | succeeds exactly if the count of every counted array is an earlier member of a count type, and links the arrays to their counts |
| CustomData.Types.RegisterType | src/common/msg.c:1093-1146 | succeeds exactly if the tag is not the default one, the type is well formed, and the tag is new or a large one; no other type changes, and of two types with one large tag the older is found |
| CustomData.Types.FindType | src/common/msg.c:1149-1166 | finds the type registered first for a tag, in the table or the list |
| CustomData.SizeOfArray | src/common/msg.c:944-1018 | the size of an array is the number of its items, except that the first member has no size |
| CustomData.Encode | src/common/msg.c:1178-1340 | encoding succeeds exactly if the first member is not an array, and yields tag and value of every member |
| CustomData.CountIsThere | src/common/msg.c:1457-1460 | the decoder's check of an announced size succeeds because the count was decoded before |
| CustomData.WrongCountRefused | src/common/msg.c:1457-1460 | an array that announces another number of items than its count member says is refused |
| CustomData.WrongTagRefused | src/common/msg.c:1378-1384 | tags that no member has are refused |
| CustomData.DataRoundTrip | src/common/msg.c:1357-1566 | decoding the encoding yields the same data and consumes exactly its octets |
| CustomData.BlobBackIff | src/common/msg.c:1250-1258 | the encoder writes the low word of the address of a blob for its length; the blob survives exactly if they are equal |
| CustomData.Decode | src/common/msg.c:1357-1584 | the decoding loop computes the specified outcome and the number of octets left, for every type and every input, blobs included |
| StreamFraming.FramesSplit | src/common/stream-transport.c:427-463 | parsing does not depend on how the octets are cut up into reads |
| StreamFraming.FramesOfFramed | src/common/stream-transport.c:568-602 | unframing is the inverse of framing |
| StreamFraming.FrameOctets | src/common/stream-transport.c:578-586 | a frame is the length of the payload in four octets, the highest in front, and the payload |
| StreamFraming.ArrivedPart | src/common/stream-transport.c:427-463 | what has arrived of a series of frames is its first payloads and a proper beginning of the next frame |
| StreamFraming.FirstPayloadIff | src/common/stream-transport.c:427-463 | a payload is the first to be delivered exactly if the octets start with its frame |
| StreamFraming.CutFrameIff | src/common/stream-transport.c:568-602 | a frame of which only a part was written is delivered all the same exactly if the octets written next happen to be those missing |
| StreamFraming.CutSeries | src/common/stream-transport.c:568-602 | until then what is on the way is a beginning of the series sent, so that nothing wrong is delivered before |
| StreamFraming.GrowthIff | src/common/stream-transport.c:403-408 | the new buffer size exceeds the data it must hold exactly for payloads of up to 2^32 - 5 octets |
| StreamFraming.Stream.Grow | src/common/stream-transport.c:401-421 | a full buffer grows strictly and keeps its data |
| StreamFraming.UpToRefusedMeans | src/common/stream-transport.c:430-458 | the payloads delivered are the first ones, all accepted but perhaps the last, which was refused if any is left |
| StreamFraming.Stream.Extract | src/common/stream-transport.c:430-458 | every whole frame leaves the buffer and is delivered in order, up to the first refused one, which closes the connection |
| StreamFraming.Stream.Receive | src/common/stream-transport.c:375-475 | for every way the socket hands out its octets: all frames read are delivered once and in order, the rest stays buffered, every read has room, nothing is lost |
| MessageTransport.Send | src/common/stream-transport.c:568-602 | puts on the wire the part of the framed encoding that the socket takes, and succeeds exactly if that is the whole |
| MessageTransport.SendableAccepted | src/common/transport.c:567-592 | the payload of a message that survives the codec is accepted and decoded to it |
| MessageTransport.AcceptedIff | src/common/transport.c:567-592 | a payload is accepted exactly if its first two octets are 0 and the rest can be decoded; the error for others |
| MessageTransport.Refusals | src/common/transport.c:567-592 | a message with any of its last octets missing is refused, and so is one with another transport tag |
| MessageTransport.ReceivedIsSent | src/common/stream-transport.c:375-475 | at any time a receiver has been given the first messages sent, each decoded to what was sent; and all of them once all octets are read |
| Masks.FindFirst | src/common/mm.c:605-619 | ffs yields the lowest set bit, or 0 if there is none |
| Masks.Covers | src/common/mm.c:907-915 | masking with the first bits tells whether all of them are set |
| PoolSizing.SizesFit | src/common/mm.c:772-793 | for every chunk size and object size that yield at least one object, the checked total and the layout used fit the chunk: the error branch is unreachable |
| PoolSizing.SizesTight | src/common/mm.c:772-785 | two more objects would not fit, not even without padding |
| PoolSizing.EstimateIff | src/common/mm.c:772-785 | the estimate is the largest number of objects that leaves room for their status bits, rounding included |
| PoolSizing.SizesExact | src/common/mm.c:772-793 | a chunk gets that number, or one less exactly if padding is needed and makes the total exceed the chunk |
| PoolSizing.AlignedIff | src/common/mm.c:621-625 | the computed padding is not used in placing objects: they are 8-aligned exactly if the number of status words is odd |
| PoolSizing.CacheWordSuffices | src/common/mm.c:111 | with 8192-byte chunks at most 16 status words are needed, so one cache word suffices |
| ObjectPool.InitChunk | src/common/mm.c:922-949 | all slots of a new chunk are free, bits behind the last slot are reserved, the cache agrees |
| ObjectPool.SpaceIff | src/common/mm.c:605-611 | a chunk has a free slot exactly if its cache word is not zero |
| ObjectPool.ChunkEmpty | src/common/mm.c:899-919 | recognises a chunk exactly if all its slots are free and it has 16 status words |
| ObjectPool.AddressInverse | src/common/mm.c:665-671 | from the address of an object, free computes the chunk and the slot it was made from |
| ObjectPool.Apart | src/common/mm.c:621-625 | objects of a chunk do not overlap |
| ObjectPool.BehindStatusWords | src/common/mm.c:621-625 | no byte of an object belongs to the header of its chunk, the cache word included, or to a status word |
| ObjectPool.ClaimSlot | src/common/mm.c:630-641 | clearing a status bit adds exactly that object to the live ones and keeps cache and status words in step |
| ObjectPool.ReleaseSlot | src/common/mm.c:690-691 | setting a status bit removes exactly that object |
| ObjectPool.Pool.constructor | src/common/mm.c:531-568 | an empty pool with the chunks for the preallocation and the limit rounded up to whole chunks |
| ObjectPool.Pool.Grow | src/common/mm.c:804-822 | adds chunks without changing the live objects |
| ObjectPool.Pool.Alloc | src/common/mm.c:591-651 | fails exactly at the limit or if the setup callback refuses, and otherwise returns an object that was not live and adds it to the live ones: the lowest free slot of the first chunk with space, inside the chunk and behind its header and status words; a refused object is counted off although it was never counted, so that the counter agrees afterwards exactly if nothing was refused |
| ObjectPool.Pool.Release | src/common/mm.c:654-702 | removes the object from the live ones; a double free changes nothing |
| ObjectPool.Pool.Shrink | src/common/mm.c:825-847 | no chunk with a live object goes, and when fewer chunks went than asked for, none is left that the test for empty chunks recognises |
| ObjectPool.Pool.ReleaseChunk | src/common/mm.c:869-896 | the walk over a chunk, which skips free words, releases each of its objects once |
| ObjectPool.Pool.ReleaseAll | src/common/mm.c:850-866 | every live object is released exactly once although full chunks change lists under the walk |
| HandleMap.Unpack | src/murphy-db/mdb/handle.c:43-56 | a handle has the low 16 bits of the use counter in its high half and the index in its low half |
| HandleMap.FindIff | src/murphy-db/mdb/handle.c:154-181 | a handle resolves exactly if it is live, its use counter did not wrap to 0 and it is not the invalid handle |
| HandleMap.UsableIff | src/murphy-db/mdb/handle.c:243-248 | a live handle can be used exactly if its slot was given out fewer than 65536 times, but for the last but one use of the last slot |
| HandleMap.Map.FreemapAlloc | src/murphy-db/mdb/handle.c:293-331 | gives out the lowest free index, or the first of a new bucket, and clears only its bit |
| HandleMap.Map.FreemapFree | src/murphy-db/mdb/handle.c:334-369 | sets only the bit of the index, or drops the only bucket once it is empty; the number of buckets agrees with the room for them exactly if that is not the last of several |
| HandleMap.Map.Add | src/murphy-db/mdb/handle.c:119-130 | a handle that was never given out before resolves to the data, unless there is no data or all 65536 indexes are taken |
| HandleMap.Map.IndexAlloc | src/murphy-db/mdb/handle.c:208-252 | extends the table, starts the next use of the slot and keeps all other handles |
| HandleMap.Map.GetData | src/murphy-db/mdb/handle.c:154-181 | yields the data a live usable handle was added with, and nothing for any other |
| HandleMap.Map.Delete | src/murphy-db/mdb/handle.c:132-152 | returns the data and kills exactly that handle, and others, and handles that do not resolve, have no effect; the map stays sound exactly if the last of several buckets does not become empty |
| HandleMap.LosesIff | src/murphy-db/mdb/handle.c:344-362 | which it does exactly if the index freed is the only one taken of that bucket |
| HandleMap.LosingInput | src/murphy-db/mdb/handle.c:344-362 | as it is after 65 additions, when the last handle is deleted |

## Left out

- SortedSequence.Sequence.Delete: for an absent key it requires that the search does not look at the cell behind the last entry, which it does if the key is greater than all others or fewer than two entries are there; the index checks the hash first.
- RowTable.Table.Insert: nothing is said about a table once a 17th key has come to its index, since the source is undefined from there on; CreateIndex, IndexAdd and Transactions.Database.Insert likewise.
- RowOrder.OrderRestoredIff: speaks of runs without replacements, after which a row has another address.
- TableLoops.UpdateWhere: takes the condition as a predicate on row bytes; reading columns into the evaluator is not modelled. DeleteWhere likewise.
- HashFunctions.ChainOf: sizes beyond 8 bits, for which the string and blob hash shift by more than the width of an int, are given no chain; the pointer hash is not modelled.
- Columns.SelectByIndex: requires key values in the set on which the comparator is a total order (Keys), and no floating-point key column, whose bytes are never written.
- CondMachine.Evaluate: requires a run on which the exact machine does not reach outside its array or the condition, or read a word of a pending slot as a datum; CondCorrectness and CondWhole say for which conditions that is so.
- CondWhole.OperatorThenGroup: requires operands that fit the stack, and an operator that binds looser than its left operand.
- MessageBuffer.MsgBuf.Reserve: requires requests below 2 GiB; beyond that Ensure says that there is no room.
- MessageBuffer.MsgBuf.Push: requires data below 2 GiB, for the same reason.
- MessageCodec.Decode: the arrays on the C stack, as long as the sender says, are unbounded here; a string without NUL is reported as a read behind the buffer.
- CustomData.Encode: leaves out blobs, whose size is looked up by offset instead of index (BlobBackIff says what becomes of one that is written), guarded arrays of strings, whose sentinel is compared as a pointer, and the room reserved for headers.
- CustomData.DataRoundTrip: leaves out the same.
- CustomData.Types.RegisterType: that a refused descriptor has its members numbered is not modelled.
- CustomData.Decode: members out of order whose size check would scan an array not yet decoded find no sentinel there.
- MessageTransport.ReceivedIsSent: payloads shorter than the transport tag are not given a meaning, since the code reads behind them; every frame is taken as written whole, which StreamFraming.CutFrameIff shows to be needed.
- StreamFraming.Stream.Receive: requires announced payloads of at most 2^32 - 5 octets; beyond that the buffer size wraps around (StreamFraming.GrowthIff).
- ObjectPool.Pool.constructor: requires at most 31 status words to a chunk, which holds for the page sizes the code was written for (PoolSizing.CacheWordSuffices); status words are modelled as 32 truth values instead of machine words.
- ObjectPool.Pool.Release: requires an address of the pool whose chunk was not given back.
- Committing or rolling back an outer transaction after an inner one: the depth counter is never decremented, so only the newest depth can be ended.
- The row counter of a table, trigger callbacks, dropping tables, results of select statements, printing and statistics.
- Creating an index while a transaction has logged changes of the table.
- Doubles as numbers (they are 8 octets), allocation failure, sockets beyond reading and writing octets, the other transports, and destruction of a transport from within a callback.
- The hash table of src/common/hashtbl.c, timers, D-Bus, configuration and console code.
