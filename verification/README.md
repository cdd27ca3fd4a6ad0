# High-throughput counter chaincode: a Dafny model

This project models the core of a Hyperledger Fabric chaincode library.
The core is a "high throughput" counter that never updates a value in
place. Every update is a write-once delta row instead. The model also
covers the keyed table-row helpers, the data-access wrappers built on them,
the array-backed query iterator and the peer response helpers.

The counter exists in two versions:

- `akchtc/main.go` (module `Akchtc`). Operators are `OP_ADD` and `OP_SUB`.
  The sub-key is optional, and `Get` and `Prune` answer with one decimal
  text per sub-key.
- `akc-htc/main.go` (module `AkcHtc`). Operators are `+` and `-`. Every
  call names one exact (name, key) pair and answers with a scalar.

Both versions share the store model of module `Ledger`. The store is a
`map<Key, Payload>`. A delta row sits under the composite key
`varName~key~op~value~txID` and holds the byte 0x00. A scan of a prefix
returns the matching rows in key order. Every operation returns the store
as it was after its last successful write, together with its result. An
error part-way through an operation therefore leaves the earlier writes in
place, as it does on the peer.

The value of a variable is defined once, in module `Aggregates`, as a sum
over the set of its rows. This definition does not depend on scan order.
Both packages' folds are proved against it.

The other modules are:

- `TableRows` (`util/util.go`): rows of named tables, as JSON text under
  the composite key (table, row keys), with the failure options of each
  operation.
- `Dao` and `LegacyDao` (`util/daoHandle.go`, `util/dao_Handle.go`):
  create, change and read a record, and answer a read as a peer response.
- `QueryIterator` (`util/akcqueryiterator.go`).
- `MsgResponse` (`common/msgResponse.go`): the response codes, the success
  and error responses, and the JSON array built from a rich query.
- `Numeral`: a concrete numeral system, signed integers in unary. It shows
  that the numeric premises of the namespace counter's value lemmas can
  hold.

The following are parameters, not modelled behaviour:

- Numeric text. `Numerals` stands for `strconv.ParseFloat`, the `%v` and
  `%f` verbs, and `strconv.FormatFloat(f, 'f', -1, 64)`. Values are reals.
- JSON encoding of table values. `Codec` gives a type's nil test, its
  encoding and its decoding.
- Store failures. `Faults` and `StoreFaults` list the keys whose read,
  write or delete the store refuses, and whether a scan can be opened.
- The transaction id, which is a field of `Env`.

Lemmas that need a numeric round trip state it as a precondition. For the
namespace counter this is `Akchtc.GeneralReadsBack`. It requires that 0 is
a number some text reads as, and that the `%v` text of the sum or
difference of two such numbers reads back as that sum or difference. A
fold's running value is always such a sum, so this is all the value
lemmas need. Decimal texts with exact arithmetic meet it.
`Numeral.UnaryMeetsPremises` proves that a concrete numeral system
(signed integers in unary) meets it together with
`Akchtc.NumeralsAreAttributes`, so the premises can hold.

## Model

| member | source | states |
|---|---|---|
| Ledger.InsertRow | akchtc/main.go:48-87 | Insert succeeds iff there are exactly 4 arguments, the value parses as a number, the operator is one of the package's two, the key attributes are valid and the store accepts the write. On success exactly one key (name, key, op, value, txID) is added with payload 0x00. On failure nothing changes, and each validation failure gives its own error. |
| Ledger.DeleteVariable | akchtc/main.go:377-414 | Delete needs exactly 2 arguments. It succeeds exactly when the scan opens, the pair has rows and the store deletes every one of them. An empty scan gives "no such variable". Success removes exactly the rows under (name, key) and returns true. Nothing outside the pair changes. |
| Ledger.Scan | akchtc/main.go:115-119 | The partial-composite-key scan yields exactly the stored delta rows under the prefix, strictly sorted by key, one per row. It fails when the scan cannot be opened or a prefix attribute is invalid. |
| Ledger.DeleteRows | akc-htc/main.go:253-265 | Deleting rows one by one removes exactly the rows before the first one the store refuses, and reports that row's failure. |
| Ledger.DeleteRowsOk | akc-htc/main.go:253-265 | Deleting the rows succeeds exactly when the store refuses none of them. |
| Aggregates.ScanSumIsAggregate | akc-htc/main.go:104-141 | Folding the scanned rows of a pair in scan order gives the variable's value, defined as a sum over its set of rows that ignores order. |
| Aggregates.ScanOfSubSumIsAggregate | akchtc/main.go:133-181 | Within a scan of a whole name, the rows of one sub-key, taken in scan order, sum to that sub-key's value. |
| AkcHtc.Insert | akc-htc/main.go:31-70 | Insert with operators "+" and "-": it succeeds iff the arguments are valid and the write is accepted, and then it writes exactly the one delta row; otherwise the store is unchanged. |
| AkcHtc.Fold | akc-htc/main.go:104-141 | The scalar fold succeeds iff every row has a numeric value and a known operator, and then it returns the start value plus the signed sum of the rows. |
| AkcHtc.Get | akc-htc/main.go:84-142 | Get needs exactly 2 arguments. An empty scan gives "no such variable". It succeeds iff the scan opens, the variable has rows and every row is well formed, and its value is then the variable's aggregate. |
| AkcHtc.DrainAndFold | akc-htc/main.go:184-225 | The first FAST loop succeeds iff every row is well formed and deletable; it then deletes exactly the rows and returns their signed sum. Whatever happens, it only deletes scanned rows and keeps every other key. |
| AkcHtc.DrainAndFoldStops | akc-htc/main.go:184-225 | A failing first FAST loop stops at some row i. Every row before i was well formed and deletable, and the error names row i. A value that is not a number, or a refused deletion, leaves row i and deletes exactly the rows before it. An unknown operator is found only after row i's deletion, so exactly the rows up to and including i are gone. |
| AkcHtc.PruneFast | akc-htc/main.go:178-233 | FAST as written. An empty scan writes nothing. A successful re-insert of the total is reported as the error "variable no longer exists", with the rows replaced by one "+" row carrying the total. A refused re-insert is reported as success, with every row deleted. |
| AkcHtc.PruneSafe | akc-htc/main.go:234-281 | SAFE aborts with no write when Get fails. On success the pair holds exactly one "+" row, carrying the "%f" text of its value, and the backup is gone. If the final insert fails, the pair has no rows and the backup row holds the shortest text of the pre-prune value. Nothing else changes apart from the backup key. |
| AkcHtc.Prune | akc-htc/main.go:159-285 | Prune needs exactly 3 arguments. It opens the scan before it examines the type. An unknown type or a failed scan writes nothing, and the two known types dispatch to FAST and SAFE. |
| AkcHtc.Delete | akc-htc/main.go:298-335 | Delete of a pair: exactly 2 arguments. It succeeds exactly when the scan opens, the pair has rows and each of them can be deleted. An empty scan is an error. Success removes exactly the pair's rows and returns true. |
| AkcHtc.DeleteThenGet | akc-htc/main.go:298-335 | After a successful Delete, Get on the pair answers "no such variable". |
| AkcHtc.InsertMovesAggregate | akc-htc/main.go:31-70 | An Insert under a fresh key moves the variable's value by plus or minus the inserted amount. |
| AkcHtc.InsertThenGet | akc-htc/akchtc_test.go:23-38 | The first "+" insertion of a variable makes Get answer the inserted amount. |
| AkcHtc.SameTransactionInsertsOnce | akc-htc/main.go:57-69 | Two identical Inserts in one transaction write the same key, so the second changes nothing and the delta counts once. |
| AkcHtc.PruneFastReportsSuccessAsError | akc-htc/main.go:228-233 | As written, a FAST prune that did its job keeps the variable's value, yet returns PruneLostVariable naming the very total it kept. |
| AkcHtc.PruneFastReportsLossAsSuccess | akc-htc/main.go:228-233 | As written, a FAST prune whose re-insert is refused reports success although the variable no longer exists. |
| AkcHtc.PruneFastIntended | akc-htc/main.go:178-233 | FAST with the check the right way round: success leaves exactly one "+" row carrying the total, and a refused re-insert is reported as the loss of the variable. |
| AkcHtc.PruneFastIntendedKeepsValue | akc-htc/main.go:178-233 | A successful corrected FAST prune keeps the value Get answers, provided the shortest text of the total reads back as the total. |
| AkcHtc.PruneSafeKeepsValue | akc-htc/main.go:234-281 | A successful SAFE prune keeps the value Get answers, provided the "%f" text of the value reads back as the value. |
| AkcHtc.PruneSafeFailureKeepsBackup | akc-htc/main.go:267-273 | When SAFE's final insert fails, the backup row still holds text that reads back as the pre-prune value. |
| AkcHtc.SafeFinishSucceeds | akc-htc/main.go:266-281 | The final insert and the removal of the backup both succeed exactly when the final "+" row is accepted and the backup key can be deleted. |
| AkcHtc.SafeDrainSucceeds | akc-htc/main.go:253-281 | After the backup is written, SAFE returns true exactly when every row of the pair can be deleted, the final row is accepted and the backup can be deleted. |
| AkcHtc.PruneSafeSucceeds | akc-htc/main.go:234-281 | Once Get answers, SAFE returns true exactly when the backup row is written, every row of the pair is deleted, the final "%f" row is accepted and the backup row is removed. |
| AkcHtc.PruneFastIntendedSucceeds | akc-htc/main.go:178-233 | Once Get answers and every row of the pair can be deleted, the corrected FAST returns true exactly when the final row is accepted. It reports the variable lost, with its total, exactly when that row is refused. |
| Akchtc.ValueByOperator | akchtc/main.go:466-477 | getValueByOperator succeeds iff the operator is OP_ADD or OP_SUB, and an unknown operator is an error. When the current value and the amount were read from text and `GeneralReadsBack` holds, its text reads back as the current value plus or minus the amount. |
| Numeral.UnaryMeetsPremises | akchtc/main.go:466-477 | The read-back premise of the "%v" text that getValueByOperator returns can hold: signed integers written in unary meet `GeneralReadsBack` and `NumeralsAreAttributes`, so the value lemmas that assume them are not vacuous. |
| Akchtc.Step | akchtc/main.go:133-181 | One fold step adds exactly the row's sub-key to the response map. |
| Akchtc.FoldKeys | akchtc/main.go:133-181 | A successful fold has an entry for every sub-key of the rows and for no other sub-key. |
| Akchtc.IntendedFoldOk | akchtc/main.go:133-181 | Under `GeneralReadsBack`, the membership-tested fold from a readable map succeeds iff every row has a numeric value and a known operator. |
| Akchtc.IntendedFoldValue | akchtc/main.go:133-181 | Under `GeneralReadsBack`, the membership-tested fold from a readable map gives each sub-key text that reads as its start value plus the signed sum of that sub-key's rows. |
| Akchtc.GetFoldAgrees | akchtc/main.go:155-180 | When no row has the empty sub-key, the fold as written equals the membership-tested fold. |
| Akchtc.GetFoldOkAgrees | akchtc/main.go:155-180 | Whenever the fold as written succeeds, it agrees with the membership-tested fold. |
| Akchtc.Query | akchtc/main.go:101-187 | Get fails with no arguments. It scans (name, key) with exactly 2 arguments and (name) otherwise. An empty scan gives "no such variable". A success answers with exactly the sub-keys that have rows under the prefix. |
| Akchtc.QueryIntendedGivesAggregates | akchtc/main.go:133-181 | Under `GeneralReadsBack`, the membership-tested Get succeeds iff the scan opens, has rows and every row is well formed. It then maps every sub-key to text that reads back as that sub-key's value. |
| Akchtc.QueryGetOkAgrees | akchtc/main.go:101-187 | Whenever Get as written answers, it gives the same answer as the membership-tested Get. |
| Akchtc.GetAgreesWithoutEmptySubKey | akchtc/main.go:155-180 | Get as written and the membership-tested Get agree on every store without an empty sub-key under the prefix. |
| Akchtc.GetPanicsOnEmptySubKey | akchtc/main.go:155-156 | With a row whose sub-key is "" under the prefix and well-formed rows, Get as written indexes a nil slice. |
| Akchtc.Drain | akchtc/main.go:249-299 | The first FAST loop succeeds iff the fold succeeds and no row is undeletable. It then returns the fold's map and deletes exactly the rows. |
| Akchtc.FastUpdates | akchtc/main.go:302-311 | pruneFastUpdate per entry: on success every sub-key holds its final OP_ADD row. No existing key is removed or altered except by a final row. A failure names the refused sub-key. |
| Akchtc.PruneFast | akchtc/main.go:237-314 | FAST as written. An empty scan writes nothing. On success the answer's sub-keys are those under the prefix, and the answer is the FAST fold. Each sub-key then holds exactly one OP_ADD row carrying its entry, and no other row stays under the prefix. Nothing outside the prefix changes. |
| Akchtc.PruneFastDropsFirstOperator | akchtc/main.go:288-291 | A variable held in one OP_SUB row of v has value -v. FAST as written answers v and leaves the variable at v. |
| Akchtc.PruneFastOneRow | akchtc/main.go:249-311 | As written, FAST over a sub-key held in one row answers that row's text whatever its operator, and leaves exactly one OP_ADD row carrying that text. |
| Akchtc.PruneFastIntendedKeepsValues | akchtc/main.go:237-314 | Under `GeneralReadsBack`, a successful FAST prune with the membership-tested fold keeps the value of every sub-key it answers for. |
| Akchtc.FastUpdatesSucceeds | akchtc/main.go:302-311 | FAST's second loop completes exactly when the final OP_ADD row of every sub-key it visits is accepted. |
| Akchtc.FastUpdatesOverMap | akchtc/main.go:302-311 | Over all sub-keys of the map, the second loop completes exactly when every sub-key's final row is accepted. |
| Akchtc.PruneFastSucceeds | akchtc/main.go:237-314 | Once the fold answers a map, FAST answers that map exactly when every row under the prefix can be deleted and every sub-key's final OP_ADD row is accepted. This holds for every fold rule. |
| Akchtc.SafeOne | akchtc/main.go:329-358 | One SAFE entry: pruneSafeBackup, the deletions, then pruneSafeUpdate. A refused backup changes nothing. Any later failure leaves the backup holding the value. Success leaves the final row, no backup and none of the deleted rows. |
| Akchtc.SafeEachFrame | akchtc/main.go:329-358 | About `SafeEach`, the loop as written. A completed loop has removed every scanned row that is not a final row of the map. Any run writes only final rows and the backups of the sub-keys it visits, and removes only scanned rows and those backups. |
| Akchtc.SafeEachCompletes | akchtc/main.go:329-358 | When SAFE's loop completes, every sub-key holds its final row and has no backup. |
| Akchtc.SafeOneSucceeds | akchtc/main.go:329-357 | One entry of SAFE's loop succeeds exactly when its rows can be deleted, its backup row is written, its final row is accepted and its backup row is removed. |
| Akchtc.SafeEachStep | akchtc/main.go:329-358 | The loop as written completes exactly when its first entry succeeds and the rest of the loop completes from the store that entry leaves. |
| Akchtc.SafeEachSucceeds | akchtc/main.go:329-358 | The loop as written completes exactly when the rows its first entry deletes can all be deleted and every entry's backup, final row and backup removal are accepted. |
| Akchtc.SafeLoop | akchtc/main.go:329-358 | On success, SAFE's loop leaves each sub-key of Get's map with exactly its final row and no backup. Keys outside the prefix that are not backup keys are unchanged. |
| Akchtc.PruneSafe | akchtc/main.go:315-360 | SAFE as written. An empty scan or a failed Get writes nothing. On success it answers Get's map, and each sub-key holds exactly one OP_ADD row with its entry and no backup. |
| Akchtc.PruneSafeSucceeds | akchtc/main.go:315-360 | Once Get answers a map, SAFE answers that map exactly when every row under the prefix can be deleted and, for every sub-key, the backup row, the final row and the removal of the backup are accepted. |
| Akchtc.GetAnswersWellFormed | akchtc/main.go:101-202 | Under `GeneralReadsBack`, Get as written answers a variable whose rows are well formed and have no "" sub-key, with one readable text for each sub-key under the prefix. |
| Akchtc.SafeWritesAccepted | akchtc/main.go:431-455 | When the store refuses no key of the name and every number text is a valid key attribute, every backup, final row and backup removal of the loop is accepted. |
| Akchtc.PruneSafeCompletes | akchtc/main.go:315-360 | Under `GeneralReadsBack` and `NumeralsAreAttributes`, SAFE succeeds on a variable whose rows are well formed and have no "" sub-key when the store accepts its writes. It answers every sub-key under the prefix. |
| Akchtc.PruneSafeKeepsValues | akchtc/main.go:315-360 | Under `GeneralReadsBack`, a successful SAFE prune keeps the value of every sub-key it answers for. |
| Akchtc.PruneSafeLosesOtherSubKeys | akchtc/main.go:341-351 | As written, SAFE over a whole name drains every sub-key's rows in its first entry. If that entry's final insert is refused, a second sub-key ends with no rows and no backup, so its value reads 0. |
| Akchtc.PruneSafeIntended | akchtc/main.go:315-360 | SAFE as evidently intended: each entry deletes only its own sub-key's rows. A success answers Get's map. |
| Akchtc.PruneSafeIntendedFails | akchtc/main.go:315-320 | The corrected SAFE refuses a variable with no rows under the prefix, with the read-before-prune error and no write. When Get fails it writes nothing and fails. |
| Akchtc.PruneSafeIntendedOutside | akchtc/main.go:315-360 | The corrected SAFE leaves every key outside the prefix that is not a backup key of the name as it was. |
| Akchtc.PruneSafeIntendedRecoverable | akchtc/main.go:315-360 | Whatever the store refuses, the corrected SAFE leaves every sub-key recoverable. Either its rows are untouched, or it holds its final row, or its backup holds the value. On success every sub-key holds exactly its final row and no backup. |
| Akchtc.PruneSafeIntendedKeepsValues | akchtc/main.go:315-360 | Under `GeneralReadsBack`, a successful corrected SAFE prune keeps the value of every sub-key it answers for. |
| Akchtc.SafeEachIntendedStep | akchtc/main.go:329-358 | The corrected loop completes exactly when its first entry deletes its own rows, its other writes are accepted, and the rest of the loop completes. |
| Akchtc.SafeEachIntendedSucceeds | akchtc/main.go:329-358 | The corrected loop completes exactly when, for every sub-key it visits, that sub-key's rows can be deleted and its other writes are accepted. |
| Akchtc.DeletableBySub | akchtc/main.go:341-351 | No row under the prefix is undeletable exactly when no row of any of its sub-keys is. |
| Akchtc.PruneSafeIntendedSucceeds | akchtc/main.go:315-360 | Once the intended Get answers a map, the corrected SAFE answers that map exactly when every row under the prefix can be deleted and every sub-key's other writes are accepted. |
| Akchtc.Prune | akchtc/main.go:204-364 | Prune rejects fewer than 2 arguments and an unknown type before any scan or write. The sub-key is used only with exactly 3 arguments. A failed scan writes nothing, and the two known types dispatch to FAST and SAFE. |
| Akchtc.PruneIntended | akchtc/main.go:204-364 | Prune with every correction applied: the same argument checks, dispatching to the membership-tested FAST and the corrected SAFE. |
| Akchtc.Insert | akchtc/main.go:48-87 | Insert with operators OP_ADD and OP_SUB: success iff the arguments are valid and the write is accepted, and then exactly the one delta row is written; otherwise the store is unchanged. |
| Akchtc.Delete | akchtc/main.go:377-414 | Delete of a pair: exactly 2 arguments. It succeeds exactly when the scan opens, the pair has rows and each of them can be deleted. An empty scan is an error. Success removes exactly the pair's rows and returns true. |
| Akchtc.DeleteThenGet | akchtc/main.go:377-414 | After a successful Delete, Get on (name, key) answers "no such variable", under either fold rule. |
| Akchtc.InsertMovesAggregate | akchtc/main.go:48-87 | An Insert under a fresh key moves the variable's value by plus or minus the inserted amount. |
| Akchtc.InsertThenGet | akchtc/main.go:48-187 | Under `GeneralReadsBack`, the first OP_ADD insertion of a variable with a non-empty sub-key makes Get answer that sub-key alone, with text that reads as the amount. |
| Akchtc.SameTransactionInsertsOnce | akchtc/main.go:71-75 | Two identical Inserts in one transaction share one key, so the second changes nothing and the delta counts once. |
| Akchtc.TransferThenPruneSafe | akc-htc/example/balance-transfer/balance_transfer_test.go:47-66 | A transfer of v from sub-key a to sub-key b, followed by a SAFE prune of the whole name in a later transaction with its own txid, on well-formed rows with no "" sub-key, numerals meeting `GeneralReadsBack` and a store that accepts the prune's writes. The prune succeeds, answers a and b, and leaves a lowered by v and b raised by v. With balances of 100 and a transfer of 10 this gives 90 and 110. |
| Akchtc.TransferMovesValues | akc-htc/example/balance-transfer/balance_transfer_test.go:47-49 | A transfer in one transaction adds its two rows under the name and moves v from a to b. |
| Akchtc.TransferRows | akc-htc/example/balance-transfer/balance_transfer_test.go:47-49 | After the transfer, the name's rows are those before plus the two new rows. They stay well formed, valid as keys, and free of the "" sub-key. |
| TableRows.CheckChaincodeFunctionCallWellFormedness | util/util.go:19-25 | The check passes iff the argument count equals the expected count, and otherwise names both counts. |
| TableRows.GetTableRowAndCompositeKey | util/util.go:41-97 | An invalid key is an error. A row is found iff its key holds readable bytes, and a found row that is to be decoded must decode. With FAIL_IF_MISSING a missing or unreadable row is an error. Without it, both are reported as not found. |
| TableRows.GetTableRow | util/util.go:101-110 | A read reports found iff the row is there and readable. With FAIL_IF_MISSING a success is always found. Without it a missing row gives (false, nil). |
| TableRows.InsertTableRow | util/util.go:155-205 | A nil or zero value is refused. FAIL_BEFORE_OVERWRITE refuses a found row and FAIL_UNLESS_OVERWRITE a missing one. Success writes exactly the encoded value at the row's key and reports whether the row was found. Every failure leaves the state unchanged. |
| TableRows.UpdateTableRow | util/util.go:208-246 | After the nil check and key validation, the value is written whether or not the row exists. Only the row's key changes. |
| TableRows.DeleteTableRow | util/util.go:249-282 | FAIL_IF_MISSING refuses a missing row without deleting. Otherwise the key is deleted, which does nothing when it is absent, and the result says whether the row was found. |
| TableRows.InsertThenGet | util/util.go:155-205 | A row read right after a successful insert is found and holds the inserted value, for a value the codec reads back. |
| TableRows.DeleteThenGet | util/util.go:249-282 | A row read right after a successful delete is missing: an error with FAIL_IF_MISSING, and (false, nil) without it. |
| TableRows.InsertTwiceKeepsFirst | util/util.go:180-186 | A second FAIL_BEFORE_OVERWRITE insert of a key fails and keeps the first value. |
| TableRows.UpdateIsUncheckedInsert | util/util.go:208-246 | An update leaves the same state as an insert with DONT_FAIL_UPON_OVERWRITE that does not decode the old row, and it succeeds exactly when that insert does. |
| TableRows.InsertOverwritesUnreadableRow | util/util.go:62-71 | With FAIL_BEFORE_OVERWRITE, an existing row whose read fails is overwritten and reported as not found. |
| TableRows.InsertTableRowChecked | util/util.go:173-186 | The corrected insert reports a failed read as an error. FAIL_BEFORE_OVERWRITE then never replaces an existing row, FAIL_UNLESS_OVERWRITE never creates one, and "found" is always truthful. |
| Dao.Changeinfo | util/daoHandle.go:15-18 | Change succeeds iff the row exists and is readable, the value is non-nil, valid and encodable, and the write is accepted. It then overwrites exactly that row; otherwise nothing changes. |
| Dao.UpdateExistingData | util/daoHandle.go:23-26 | The record is written whether or not it exists. Success is independent of existence, and only the row's key changes. |
| Dao.Createdata | util/daoHandle.go:29-39 | Create succeeds iff no readable row is there and the value can be written. It then writes exactly that row. The wrapper's own "already exists" error is never the one returned. |
| Dao.CreateTwiceKeepsFirst | util/daoHandle.go:29-39 | A second Createdata on the same readable key fails and keeps the first value. |
| Dao.CreateThenRead | util/daoHandle.go:29-54 | A record read by id right after it was created is the created value. |
| Dao.CreateThenChange | util/daoHandle.go:15-54 | Changing a created record succeeds, and reading it back gives the change. |
| Dao.Getdatabyrowkeys | util/daoHandle.go:57-69 | A read by row keys succeeds iff the key is valid and the row is there, readable and decodable. It then returns the decoded value. |
| Dao.Getdatabyid | util/daoHandle.go:42-54 | A read by id succeeds iff the key is valid and the row is there, readable and decodable. It then returns the decoded value. |
| Dao.Respond | util/daoHandle.go:83-102 | A failed read is answered with status 500 and code AKC0004, and a record that does not encode with AKC0003. Status 200 is given iff the read succeeded and the record encodes, and the payload is then its JSON. |
| Dao.Failure | util/daoHandle.go:84-87 | An error response has status 500, and its message starts with the given code. |
| Dao.GetDataByID | util/daoHandle.go:81-103 | A missing row gives status 500 with AKC0004. Status 200 is given iff the row is there, decodes and re-encodes. |
| Dao.GetDataByRowKeys | util/daoHandle.go:106-128 | The same status mapping for a read by row keys. |
| LegacyDao.GetDataByID | util/dao_Handle.go:76-93 | In the older copy a missing or unreadable row is answered with status 200 and payload "null". Status 500 arises only for a record that does not encode. |
| LegacyDao.MissingRowAnswersNull | util/dao_Handle.go:76-93 | For a missing record, the older GetDataByID answers 200 with "null", while the newer one answers 500. |
| QueryIterator.Next | util/akcqueryiterator.go:26-43 | An exhausted iterator errors and does not move. Otherwise the position advances by exactly one, also past a nil entry, which gives "empty query result". A value is handed out under an empty key. `Length` is unchanged. |
| QueryIterator.DrainRemaining | util/akcqueryiterator.go:18-43 | A loop of `HasNext` (lines 18-20) and `Next` makes exactly `Length` (lines 22-24) minus the position calls, each handing out the next entry in order. |
| QueryIterator.Close | util/akcqueryiterator.go:45-47 | Closing always succeeds. |
| QueryIterator.Collect | util/akcqueryiterator.go:56-78 | The collected rows are the results' members in order, up to the first nil, with nothing missing before it; otherwise the answer is an error the results produced. |
| QueryIterator.FromResultsIterator | util/akcqueryiterator.go:50-79 | The built iterator holds exactly the collected rows and starts at position 0. It fails iff the collection fails, and then with the first error. |
| QueryIterator.FromResultsRoundTrip | util/akcqueryiterator.go:26-79 | Reading back an iterator built from the results hands out every member's value in the database's order. |
| MsgResponse.EveryCodeDescribed | common/msgResponse.go:16-58 | Every code constant AKC0001 to AKC0018, and "200", has an entry in the code dictionary, and no two constants coincide. |
| MsgResponse.RespondSuccess | common/msgResponse.go:77-86 | A success response has status 200. Its payload and message are equal and never empty, and a non-empty payload is kept as given. |
| MsgResponse.RespondError | common/msgResponse.go:88-94 | An error response has status 500, no payload, and the message `{"status":"<code>", "msg":"<msg>"}` with nothing escaped. |
| MsgResponse.SuccessIsNotError | common/msgResponse.go:77-94 | A success response and an error response always differ in status and payload. |
| MsgResponse.RespondErrorAmbiguous | common/msgResponse.go:88-94 | Two different errors, one with a quote in its code and one with a quote in its message, give the same message. |
| MsgResponse.PlainEnvelopeRoundTrip | common/msgResponse.go:88-94 | When neither field holds a quote, a backslash or a control character, the message parses back to the code and message. |
| MsgResponse.RespondErrorEscaped | common/msgResponse.go:88-94 | With both fields escaped as JSON strings, the message always parses back to the error. |
| MsgResponse.EscapedEnvelopeInjective | common/msgResponse.go:88-94 | Different errors give different escaped messages. |
| MsgResponse.ReadEscape | common/msgResponse.go:88-94 | Reading an escaped JSON string back gives the original text and the rest of the input. |
| MsgResponse.JoinSnoc | common/msgResponse.go:115-121 | A comma is written before every member except the first. |
| MsgResponse.QueryArray | common/msgResponse.go:96-127 | An empty result gives "[]", and a failed query gives its error. |
| MsgResponse.GetQueryResultForQueryString | common/msgResponse.go:96-127 | The loop builds exactly `[` + the members joined by `,` + `]`. A query or Next error returns the error with no partial output. |

## Left out

- Fabric shim and CouchDB are not modelled. The store is a map, and a composite key is a tuple. MVCC and transaction buffering are out.
- A `Next` or `SplitCompositeKey` error during a scan is not modelled. A scan is a snapshot taken when it is opened.
- Float64 arithmetic and text formatting are out. Values are reals, and `ParseFloat`, `%v`, `%f` and `FormatFloat` are the parameters of `Numerals`.
- JSON encoding of rows and of the response map is a parameter (`Codec`), or the map is answered directly. `mapstructure.Decode` into the caller's struct is out: the read value is answered directly.
- The caller's source position in error messages (`GetLine`) is a parameter of `Dao.Texts`.
- Go map iteration order in the akchtc `Prune` loops is modelled as ascending sub-key order. On success the final store does not depend on the order. `Akchtc.PruneSafeLosesOtherSubKeys` names the least sub-key as the first entry.
- `GetTableRows` is left out because it is a goroutine and channel producer. So are `Getalldata` and `GetAllData`, which rest on it.
- The older copies of `Changeinfo`, `Createdata`, `Getdatabyid` and `Getdatabyrowkeys` (util/dao_Handle.go:18-64) have no rows of their own. They are the same functions as in util/daoHandle.go, and the same `Dao` members model them.
- The older `GetDataByRowKeys` (util/dao_Handle.go:96-112) is not modelled. Its mapping is that of the older `GetDataByID`.
- Also out: the `hstx/` packages, the mock stub and iterator, `MockInvokeTransaction`, `MockQueryTransaction`, `MockInitTransaction` and `genTxID` (util/util.go:284-321). These are test and application code outside the library core.
- The dispatch in akc-htc/chaincode.go and the example chaincode are out. The balance example is stated generally by `Akchtc.TransferThenPruneSafe`.
- TransferThenPruneSafe: the balance example runs on a mock store that refuses nothing. The lemma states this as its premises: the store accepts every write and deletion of the prune's transaction under the name, the rows are well formed with no "" sub-key, and every number text is a valid key attribute. The numerals meet `GeneralReadsBack`, which `Numeral.UnaryMeetsPremises` shows can hold.
- Surrogate-pair escapes (`\uD800` to `\uDFFF`) are refused by `MsgResponse.ReadString` and not decoded.
- MsgResponse.QueryArray: the contract states only the empty and the failing query. `MsgResponse.GetQueryResultForQueryString` is proved equal to it.
- GeneralReadsBack: values are reals with exact arithmetic. Go adds float64 values, and `+=` rounds. The premise states the round trip the package relies on, but the model does not follow float64 rounding.
- GetPanicsOnEmptySubKey: Go's runtime panic from indexing a nil `Data` slice (akchtc/main.go:156 and 289) is modelled as the ordinary error result `Err(NilSliceIndex)`. The model returns that error with the store as it stood when the fold reached the row.

## Findings

| source | as written | input that shows it | evidently intended | confidence | as-written member | corrected member |
|---|---|---|---|---|---|---|
| akc-htc/main.go:228-233 | FAST returns (true, nil) when the final Insert fails, and an error when it succeeds | any variable whose rows delete and whose final row is written | success when the final row is written; an error saying the variable was lost otherwise | high; not executed | AkcHtc.PruneFastReportsSuccessAsError | AkcHtc.PruneFastIntendedSucceeds |
| akchtc/main.go:288-291 | FAST stores the first row of each sub-key as its raw value text, ignoring its operator | one row (n, k, OP_SUB, 5): value -5, pruned to +5 | apply the operator to 0, as Get does | high; not executed | Akchtc.PruneFastDropsFirstOperator | Akchtc.PruneFastIntendedKeepsValues |
| akchtc/main.go:155-156 | `responseMap[key].Key == key` holds for an absent entry when the sub-key is "", so Get indexes a nil Data slice | any row with sub-key "" under the scanned prefix | test membership in the map | high; not executed | Akchtc.GetPanicsOnEmptySubKey | Akchtc.QueryIntendedGivesAggregates |
| akchtc/main.go:341-351 | SAFE's first entry drains the shared scan, deleting every sub-key's rows | a name with sub-keys a and b, where a's final row is refused | each entry deletes only its own sub-key's rows | medium; not executed | Akchtc.PruneSafeLosesOtherSubKeys | Akchtc.PruneSafeIntendedRecoverable |
| common/msgResponse.go:88-94 | the code and message are placed between quotes without escaping | codes `a", "msg":"b` with message `c`, and `a` with `b", "msg":"c` | escape both fields as JSON strings (section 7 of RFC 8259) | high; not executed | MsgResponse.RespondErrorAmbiguous | MsgResponse.RespondErrorEscaped |
| util/util.go:62-71 | under DONT_FAIL_IF_MISSING a read error is dropped, so InsertTableRow with FAIL_BEFORE_OVERWRITE overwrites a row it could not read | an existing row whose GetState fails | report the read error | low; not executed | TableRows.InsertOverwritesUnreadableRow | TableRows.InsertTableRowChecked |
| util/dao_Handle.go:76-93 | GetDataByID ignores the read's error and answers 200 with "null" | a missing record id | answer AKC0004, as util/daoHandle.go:81-103 does | medium; not executed | LegacyDao.MissingRowAnswersNull | Dao.GetDataByID |
