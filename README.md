# miniob: the DATE type and the UPDATE pipeline

This project models two parts of the miniob observer.

The first is the `DATE` attribute type, `DateType`:
- calendar validation, with years 1900 to 2100 and leap years;
- the packed `YYYYMMDD` integer a date is stored as;
- the literal grammar `YYYY-M[M]-D[D]` and its `YYYY-MM-DD` display text;
- the bare-integer storage text read by `set_value_from_str`;
- the comparison, against another date or against a string literal;
- the cast to text;
- the arithmetic, which is all unsupported.

The second is the single-column `UPDATE t SET f = v WHERE …` pipeline:
- the bind step `UpdateStmt::create`, which resolves the table and the field and compiles the filter;
- the logical plan node, which carries table, field and value;
- the physical operator, whose `open` opens its child, casts the value once, up front, when its type is not the field's, rewrites the target cell of every row the child yields, and closes the child.

Files:
- `common.dfy` (`Common`): result codes, type tags, the `Value` carrier, the 32-bit `int`, and C++'s truncating `/` and `%`.
- `date_type.dfy` (`DateTypes`): `DateType` and its helper functions. `is_valid_date`, `parse_date_string` and `set_value_from_str` are methods.
  - `IsValidDate` is proved equal to the independent calendar predicate `ValidDate`.
  - `MatchDateLiteral` models the regular expression with `stoi`, and `ParseIntToken` models `>>` with the `eof` test. `ParseDateString` and `SetValueFromStr` are stated in terms of them.
  - `MatchJoin` and `MatchSplit` tie the matcher to the grammar `WellFormedGroups`/`JoinGroups`, in both directions.
  - `StorageTextRoundTrip` ties `ParseIntToken` to the decimal printer `IntToText`.
- `storage.dfy` (`Storage`): the table as `update` sees it. It is a class whose records map RIDs to cell sequences, with the `visit_record` primitive and `set_cell_at`.
- `update_stmt.dfy` (`UpdateStmts`): the bind chain as the function `Bind`, the `UpdateStmt` class, and `Create`.
- `update_operators.dfy` (`UpdateOperators`): the logical node; the child operator; the physical operator class. Its drive loop is proved against the specification function `ApplyUpdates`, and `ApplyUpdates` is proved equal to the order-free description `UpdatedRows`.
- `update_scenario.dfy` (`UpdateScenario`): a client that binds and runs a statement updating one of two rows, and an update whose child yields no rows.

`UpdateStmt::create` tests `table_name` for null, but the name comes from `c_str()` and is never null. An empty relation name is therefore not rejected as an invalid argument; it is looked up and reported as a missing table (`Bind`, `TableCheckedFirst`).

## Model

| member | source | states |
|---|---|---|
| DateTypes.NewDateType | src/observer/common/type/date_type.h:28 | the strategy object carries the `Dates` tag |
| DateTypes.IsLeapYear | src/observer/common/type/date_type.cpp:27-29 | the Gregorian rule case by case: multiples of 400 are leap years, the other centuries are not, the other multiples of 4 are, and no other year is |
| DateTypes.DaysInMonth | src/observer/common/type/date_type.cpp:36-39 | every month has 28 to 31 days; 29 exactly for February of a leap year |
| DateTypes.IsValidDate | src/observer/common/type/date_type.cpp:31-42 | the array-table check answers true exactly for `ValidDate`: year 1900..2100, month 1..12, day 1..month length |
| DateTypes.LeapDay | src/observer/common/type/date_type.cpp:27-42 | February 29 is valid iff the year is in range and a Gregorian leap year (2000, 2024 valid; 1900, 2023 not) |
| DateTypes.DateToInt | src/observer/common/type/date_type.cpp:44-46 | every valid date packs into 19000101..21001231 |
| DateTypes.IntToDate | src/observer/common/type/date_type.cpp:48-52 | the truncating split of any integer packs back to it; year, month and day carry the integer's sign, and month and day are below 100 in magnitude |
| DateTypes.UniqueTruncSplit100 | src/observer/common/type/date_type.cpp:50-51 | a split by 100 whose remainder has the dividend's sign and is below 100 in magnitude is C++'s `%` |
| DateTypes.UnpackUnique | src/observer/common/type/date_type.cpp:48-52 | a non-negative packed value has exactly one split with month and day in 0..99, and `int_to_date` finds it |
| DateTypes.PackUnpack | src/observer/common/type/date_type.cpp:44-52 | unpacking the packed form of a valid date gives the date back |
| DateTypes.PackIsChronological | src/observer/common/type/date_type.cpp:44-46 | on valid dates the packed order is the calendar order, and packing is injective |
| DateTypes.DigitsValue | src/observer/common/type/date_type.cpp:64-66 | a group of at most one, two, three or four digits has a value below 10, 100, 1000 or 10000, so `stoi` of a group always fits an `int` and never throws |
| DateTypes.MatchDateLiteral | src/observer/common/type/date_type.cpp:56-66 | a match has 8 to 10 characters with `-` after the four year digits, and yields a year below 10000 with month and day below 100 |
| DateTypes.MatchJoin | src/observer/common/type/date_type.cpp:56-66 | every string of four, one-or-two and one-or-two digit groups joined by `-` matches, giving the groups' decimal values |
| DateTypes.MatchSplit | src/observer/common/type/date_type.cpp:56-66 | every matching string is such a join, so nothing else matches |
| DateTypes.ParseDate | src/observer/common/type/date_type.cpp:54-72 | success means the literal matched and the date is valid; failure means no match or a match that is not a valid date |
| DateTypes.ParseDateString | src/observer/common/type/date_type.cpp:54-72 | answers true iff `ParseDate` succeeds, with its date in the out-parameters; after a match the out-parameters hold the groups even for an invalid date; without a match they are unchanged |
| DateTypes.ParseDateAcceptsShortForm | src/observer/common/type/date_type.cpp:56 | `2025-2-3` is accepted as 2025-02-03 |
| DateTypes.ParseDateRejectsMonth13 | src/observer/common/type/date_type.cpp:33 | `2025-13-01` matches the grammar but is rejected |
| DateTypes.ParseDateRejectsFebruary30 | src/observer/common/type/date_type.cpp:36-41 | `2025-02-30` is rejected |
| DateTypes.ParseDateRejectsShortYear | src/observer/common/type/date_type.cpp:56 | the text `25-01-01`, whose year has two digits, does not match |
| DateTypes.NatToText | src/observer/common/type/date_type.cpp:179 | `<<` of a natural number writes at least one digit and nothing else |
| DateTypes.NatToTextValue | src/observer/common/type/date_type.cpp:179 | the digits written read back as the number |
| DateTypes.NatToTextLength | src/observer/common/type/date_type.cpp:179 | numbers below 10, 100, 1000 and 10000 take 1, 2, 3 and 4 digits |
| DateTypes.IntToText | src/observer/common/type/date_type.cpp:179 | `<<` of an integer: a negative one is written as `-` followed by the digits of its magnitude, any other as its digits alone; the text starts with `-` exactly when the integer is negative |
| DateTypes.PadTwo | src/observer/common/type/date_type.cpp:179 | a part below 10 gets a `0` written in front of its `<<` text, any other is written as is; so a negative part comes out as `0-` and its digits |
| DateTypes.PadTwoDigits | src/observer/common/type/date_type.cpp:179 | any number from 0 to 99, zero-padded, is exactly two digits reading back as it |
| DateTypes.DateToString | src/observer/common/type/date_type.cpp:174-179 | for any non-negative integer, valid date or not, the text is the year digits, a two-digit month group and a two-digit day group joined by `-`, and the groups read back pack to the integer |
| DateTypes.ToString | src/observer/common/type/date_type.cpp:172-182 | `to_string` has no failure path: it always succeeds, with the display text of the packed payload |
| DateTypes.DisplayShape | src/observer/common/type/date_type.cpp:172-182 | the display text of a valid date is ten characters: four year digits and two-digit month and day groups reading back as its parts |
| DateTypes.DisplayParsesBack | src/observer/common/type/date_type.cpp:172-182 | the display text of every valid date is accepted by `parse_date_string` and gives that date back |
| DateTypes.DisplayExamples | src/observer/common/type/date_type.cpp:179 | 20250917 renders as `2025-09-17` and 20250101 as `2025-01-01` |
| DateTypes.Compare | src/observer/common/type/date_type.cpp:74-92 | against a date, the sign of the payload comparison; against a string, `INT32_MAX` iff the string does not parse, otherwise the sign against the parsed date's packed value |
| DateTypes.CompareIsTotalOrder | src/observer/common/type/date_type.cpp:79-80 | between dates the comparison is antisymmetric and transitive, and zero exactly on equal payloads |
| DateTypes.CompareIsChronological | src/observer/common/type/date_type.cpp:79-80 | on packed valid dates, negative iff earlier in the calendar and zero iff the same date |
| DateTypes.CompareWithDisplayText | src/observer/common/type/date_type.cpp:81-88 | comparing with a valid date's display text equals comparing with the date |
| DateTypes.CompareWithMalformedLiteral | src/observer/common/type/date_type.cpp:83-85 | `2025-13-40` yields the `INT32_MAX` sentinel |
| DateTypes.CompareColumns | src/observer/common/type/date_type.cpp:94-101 | the sign of the two slot values, the same as the value comparison on those payloads |
| DateTypes.CastCost | src/observer/common/type/date_type.h:42-48 | cost zero exactly to `Dates`, `INT32_MAX` to every other tag |
| DateTypes.CastTo | src/observer/common/type/date_type.cpp:103-119 | a cast to `Chars` succeeds with a `Chars` value holding the display text; any other target is unimplemented and leaves the result unwritten |
| DateTypes.CastCostDisagreesWithCastTo | src/observer/common/type/date_type.h:42-48 | the cost table calls the cast to `Chars` impossible, yet `cast_to` performs it |
| DateTypes.Add | src/observer/common/type/date_type.cpp:121-126 | unsupported; result not written |
| DateTypes.Subtract | src/observer/common/type/date_type.cpp:128-133 | unsupported; result not written |
| DateTypes.Multiply | src/observer/common/type/date_type.cpp:135-140 | unsupported; result not written |
| DateTypes.Divide | src/observer/common/type/date_type.cpp:142-147 | unsupported; result not written |
| DateTypes.Negative | src/observer/common/type/date_type.cpp:149-154 | unsupported; result not written |
| DateTypes.LeadingSpaces | src/observer/common/type/date_type.cpp:163 | `>>` skips a maximal run of white space |
| DateTypes.IsSpace | src/observer/common/type/date_type.cpp:163 | the white space `>>` skips in the C locale: exactly space, tab, newline, vertical tab, form feed and carriage return |
| DateTypes.ParseIntToken | src/observer/common/type/date_type.cpp:159-164 | a blank text is rejected; any character other than white space, a sign or a digit rejects the text; an accepted text ends with a digit |
| DateTypes.SetValueFromStr | src/observer/common/type/date_type.cpp:156-170 | a whole-text integer token sets the integer payload; anything else is a type mismatch that leaves the value unchanged |
| DateTypes.StorageTextRoundTrip | src/observer/common/type/date_type.cpp:156-170 | the decimal text of every 32-bit integer is accepted and gives that integer back |
| DateTypes.StorageTextRejectsDisplayText | src/observer/common/type/date_type.cpp:163-166 | the display text of a valid date is never accepted as storage text |
| DateTypes.StorageTextRejectsInnerMinus | src/observer/common/type/date_type.cpp:163-165 | a text starting with a digit and holding a `-` later is rejected |
| DateTypes.StorageTextOfDigits | src/observer/common/type/date_type.cpp:163-167 | a digit string within `int` range is accepted with its decimal value |
| DateTypes.StorageTextAcceptsPackedDate | src/observer/common/type/date_type.cpp:156-170 | `20250917` is accepted as 20250917 |
| DateTypes.StorageTextRejectsTrailingText | src/observer/common/type/date_type.cpp:164 | `2025-09-17` and `20250917x` are rejected because the token does not reach the end |
| DateTypes.StorageTextAcceptsSpaceAndPlus | src/observer/common/type/date_type.cpp:163-164 | leading white space and a `+` sign are accepted (` \t+7` reads as 7); trailing white space is not (`7 `) |
| DateTypes.StorageTextAcceptsNonDate | src/observer/common/type/date_type.cpp:156-170 | `99999999` is accepted although it unpacks to no valid date |
| Common.CompareInt | src/observer/common/type/date_type.cpp:80 | −1, 0 or 1, with the sign of `a - b` |
| Common.TruncDiv | src/observer/common/type/date_type.cpp:49-50 | C++ `/` by a positive divisor: the quotient of a non-negative dividend is non-negative, that of a negative dividend is at most zero (TruncMod's row gives the full division identity) |
| Common.TruncMod | src/observer/common/type/date_type.cpp:49-51 | C++ `%`: dividend = divisor × quotient + remainder, with the remainder taking the dividend's sign and below the divisor in magnitude |
| Common.SetString | src/observer/common/type/date_type.cpp:112 | the result is a `Chars` value holding the text |
| Common.SetInt | src/observer/common/type/date_type.cpp:167 | the integer payload becomes the given `int` |
| UpdateStmts.FilterScope | src/observer/sql/stmt/update_stmt.cpp:54 | the tables the conditions may name are exactly the resolved table, under the statement's relation name |
| UpdateStmts.CompileFilter | src/observer/sql/stmt/update_stmt.cpp:54-56 | the compiler is given the database, the resolved table, the one-table scope and all the conditions |
| UpdateStmts.Bind | src/observer/sql/stmt/update_stmt.cpp:32-63 | no database gives invalid-argument; an unknown table gives table-not-exist; an unknown field gives field-not-exist; otherwise the compiler's code decides; success holds the table, the field's meta, the literal value and the compiled filter |
| UpdateStmts.TableCheckedFirst | src/observer/sql/stmt/update_stmt.cpp:40-45 | a missing table is reported whatever the field name and the filter compiler |
| UpdateStmts.CompilerOnlyAfterSchema | src/observer/sql/stmt/update_stmt.cpp:47-60 | the filter compiler cannot affect the result unless table and field resolve |
| UpdateStmts.BoundValueIsUncast | src/observer/sql/stmt/update_stmt.cpp:61 | the bound value is the literal as written, not cast to the field's type |
| UpdateStmts.Create | src/observer/sql/stmt/update_stmt.cpp:32-63 | on failure, the first failing check's code with `stmt` unwritten; on success, a fresh statement holding the bind result |
| UpdateStmts.UpdateStmt.constructor | src/observer/sql/stmt/update_stmt.cpp:19-22 | stores table, meta, value and filter |
| UpdateStmts.UpdateStmt.Default | src/observer/sql/stmt/update_stmt.h:30 | the default statement has no table |
| UpdateStmts.UpdateStmt.Type | src/observer/sql/stmt/update_stmt.h:38 | the statement type is `UPDATE` |
| UpdateStmts.UpdateStmt.Destroy | src/observer/sql/stmt/update_stmt.cpp:24-30 | the owned filter is released and the pointer cleared; the other fields are unchanged |
| UpdateOperators.UpdateOne | src/observer/sql/operator/update_physical_operator.cpp:29-31 | the visit of one record id: the table keeps its record ids, the visited record (when present) gets the value in the target cell, and every other record is unchanged |
| Storage.SetCellAt | src/observer/sql/operator/update_physical_operator.cpp:31 | the record keeps its length, gets the value in the target cell and keeps every other cell |
| Storage.SetCellAtIdempotent | src/observer/sql/operator/update_physical_operator.cpp:31 | writing the same cell twice is writing it once |
| Storage.Table.VisitRecord | src/observer/sql/operator/update_physical_operator.cpp:29-38 | the mutator's record is stored when it answers true; a RID without a record changes nothing |
| UpdateOperators.NewUpdateLogicalOperator | src/observer/sql/operator/update_logical_operator.h:9-18 | the accessors `table()`, `field_meta()` and `value()` give back exactly the constructor's arguments, and the node type is `UPDATE` |
| UpdateOperators.UpdateLogicalOperator.Type | src/observer/sql/operator/update_logical_operator.h:15 | the logical node type is `UPDATE` |
| UpdateOperators.ApplyUpdates | src/observer/sql/operator/update_physical_operator.cpp:24-39 | the drive loop never adds or removes a record |
| UpdateOperators.ApplyUpdatesStep | src/observer/sql/operator/update_physical_operator.cpp:24-39 | one more yielded row extends the loop's effect by one visit |
| UpdateOperators.ApplyUpdatesIsUpdatedRows | src/observer/sql/operator/update_physical_operator.cpp:24-39 | the loop's end state: the target cell rewritten in exactly the records whose RID was yielded, all others unchanged |
| UpdateOperators.TouchedSnoc | src/observer/sql/operator/update_physical_operator.cpp:24-25 | the RIDs of a sequence with one more row are those of the shorter sequence plus that row's RID |
| UpdateOperators.UpdateOneExtendsTouched | src/observer/sql/operator/update_physical_operator.cpp:29-31 | one more visit adds its RID to the set of rewritten records |
| UpdateOperators.UpdateLeavesOtherRows | src/observer/sql/operator/update_physical_operator.cpp:24-39 | a record the child never yields is not written |
| UpdateOperators.UpdateWritesOnlyTargetCell | src/observer/sql/operator/update_physical_operator.cpp:29-31 | a yielded record gets the value in its target cell and keeps its length and every other cell |
| UpdateOperators.UpdateIgnoresOrder | src/observer/sql/operator/update_physical_operator.cpp:24-39 | neither the order of the yielded rows nor repetitions change the end state |
| UpdateOperators.WorkingValue | src/observer/sql/operator/update_physical_operator.cpp:14-22 | a value already of the field's type is used as it is; any other value is replaced by its cast, or fails when the cast fails |
| UpdateOperators.NoCastOnMatchingType | src/observer/sql/operator/update_physical_operator.cpp:14 | when the types already agree the cast is never consulted, so no cast can fail the update or change its value |
| UpdateOperators.DriveResult | src/observer/sql/operator/update_physical_operator.cpp:41-43 | end of stream becomes success; any other stop code is returned |
| UpdateOperators.UpdatePhysicalOperator.constructor | src/observer/sql/operator/update_physical_operator.h:11-14 | stores table, field meta and value |
| UpdateOperators.UpdatePhysicalOperator.Type | src/observer/sql/operator/update_physical_operator.h:18 | the physical operator type is `UPDATE` |
| UpdateOperators.UpdatePhysicalOperator.CurrentTuple | src/observer/sql/operator/update_physical_operator.h:24 | the operator yields no tuple |
| UpdateOperators.UpdatePhysicalOperator.Open | src/observer/sql/operator/update_physical_operator.cpp:5-47 | a failed child open is returned with nothing changed; a failed cast gives invalid-argument with nothing changed and the child left open; otherwise the value is stored cast, every yielded record is rewritten (`ApplyUpdates`), each RID is visited once in order, the result is `DriveResult` of the child's stop code, and the child is closed |
| UpdateOperators.UpdatePhysicalOperator.DriveChild | src/observer/sql/operator/update_physical_operator.cpp:24-39 | the loop runs until the child stops, leaves the table as `ApplyUpdates` of the yielded RIDs, and returns the child's stop code; the code `visit_record` returns is overwritten |
| UpdateOperators.UpdatePhysicalOperator.VisitRow | src/observer/sql/operator/update_physical_operator.cpp:29-38 | one visit with the update callback, which always answers true, so the rewritten record is kept |
| UpdateOperators.UpdatePhysicalOperator.Next | src/observer/sql/operator/update_physical_operator.cpp:51 | always end of stream |
| UpdateOperators.UpdatePhysicalOperator.Close | src/observer/sql/operator/update_physical_operator.cpp:49 | always success |
| UpdateScenario.BindUpdate | src/observer/sql/stmt/update_stmt.cpp:32-63 | binding `UPDATE t SET d = '2025-03-04' WHERE id = 1` yields a statement on `t`, field `d` and the uncast literal |
| UpdateScenario.SetUp | src/observer/sql/stmt/update_stmt.cpp:61 | a fresh two-row table `t(id, d)` and the statement bound against it |
| UpdateScenario.ParseScenarioLiteral | src/observer/common/type/date_type.cpp:54-72 | `2025-03-04` parses to 2025-03-04, the value the scenario's cast writes |

## Left out

- Logging (`LOG_WARN`) and the `ASSERT`s on the argument tags of `compare`. The asserted tags are preconditions of `Compare` and `CompareColumns`.
- The transaction argument of `open`: the child is opened without it.
- `std::regex` and `std::stoi` themselves. The match is modelled as the grammar `MatchDateLiteral`. `stoi` of at most four digits cannot throw, so the `catch` branch is unreachable.
- `stringstream >> int` is modelled as the token rule `ParseIntToken`, following libstdc++: skip white space, optional sign, a maximal digit run that must reach the end of the text, and a value within `int` range.
- `Table::update_index` and the indexes themselves. In the source its code is only logged and never changes the result or the record.
- `Value` is reduced to its tag, its integer payload and its text payload. The other payloads and the text length are not modelled.
- The accessors of `UpdateStmt` and of both plan nodes are the fields themselves. The mutable reference returned by `UpdateStmt::value()` is not modelled.
- Common.SetInt: `Value::set_int` is not part of this model. The stand-in keeps the value's tag and text, which is an assumption: the real setter may retag the value as `INTS`. Through `SetValueFromStr` the model therefore leaves a date value tagged `Dates` after reading storage text, which the source does not establish.
- UpdateStmts.UpdateStmt.Default: the default constructor sets only `table`. Field meta, value and the uninitialised filter pointer are left unconstrained.
- Ownership and `delete`. `Destroy` only clears the filter field, and `Create` does not release a statement already held in `stmt`.
- The physical operator's child is passed to its constructor. In the source it is `children_[0]`, attached by the planner, which is not part of this model. `ChildOperator` stands for that child: an already filtered scan with a fixed `open` code, a fixed RID sequence and a fixed stop code. The filter's evaluation is not modelled.
- `FilterStmt::create` and `Value::cast_to` are callers' parameters (`FilterCompiler`, `CastFn`); they are not part of this model.
- The `dynamic_cast` of the child's tuple to `RowTuple` and its assert: the child yields RIDs directly.
- Storage.SetCellAt: a field id past the end of the record leaves the record unchanged. The source writes through a raw offset there.
- Storage.Table.VisitRecord: the code for a RID without a record is `RecordNotExist`. `Table::visit_record` is not part of this model, and the drive loop overwrites this code anyway.
- Concurrency, latches and the record's byte layout.
- The other `DataType` variants and the dispatch from tags to them.
