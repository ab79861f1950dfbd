# Medical record core, modelled in Dafny

The system keeps hospital medical records in a SQLite database. Five
parts of it are modelled here.

- **The field validator.** `MedicalRecordValidator` holds a catalog of rules
  per field name: required, date format, length and number ranges, enums,
  regular expressions, and a custom "visit date is not in the future" check.
  It runs a field's rules in order and stops after a failing "required"
  rule. Each violation is stamped with the field name. Any exception a rule
  raises (a `TypeError` from `re.match` on an int, a `ValueError` from
  `strptime`) propagates to the caller. Records and their child entities are
  validated field by field.
- **The versioned record store.** `MedicalRecordAgent` writes into six
  tables defined by the initialisation script:
  - `medical_records` and its versions table `record_versions`;
  - the child tables `examination_results`, `prescriptions`,
    `operation_records` and `record_attachments`.

  `create_record` stamps the caller's dict with an id, audit times and the
  draft status. It then inserts the record and version 1 in one
  transaction. `update_record` re-reads the record and stamps the caller's
  dict. It then rewrites the named columns and appends a version.
  `get_record` returns the record with its children and, on request, its
  versions ordered by number. The `add_*` methods stamp and insert one child
  each. `search_records` filters, orders and pages the records.
  `export_records` picks the output file from the format.
- **The analyzer.** `MedicalRecordAnalyzer` computes the numbers behind its
  reports:
  - visit trends over a date window: the total, per day, per department and
    per record type, the busiest day and the three busiest departments;
  - the diagnosis distribution and the most common diagnoses per
    department;
  - examination, prescription and operation counts over the join with the
    records, with department cross-tabs;
  - blood-loss extremes;
  - the layout of the summary report.
- **The document chunker.** `DataProcessor.chunk_document` slides a window
  over a text. Beside the loop as written, the model has the loop that
  stops after the window reaching the end of the text (see Findings).

The modules follow that structure:
- `Common` (values, dicts, string and SQL orders);
- `Sorting`;
- `Dates` (strptime and strftime);
- `Validator`;
- `Tables` (schemas, INSERT, UPDATE, SELECT);
- `Records` (the store's transactions as functions on a `Db` value);
- `Search`;
- `Counting` (pandas and `Counter` aggregates);
- `Analyzer`;
- `Chunker`;
- `Agent` (the agent as a class whose fields are the tables, and the
  caller's dict as an object its methods stamp in place).

The validator's loops, the chunker's loop and the agent's methods are
imperative methods, proved against the functions that specify them.

Where the comments of the source and its code disagree, the model follows
the code. Five cases stand out:
- the operation-level enum accepts `四级` but not `四级手术`;
- `update_record` fetches the record without its versions, so every update
  is stored as version 1;
- the `$` of `re.match` also accepts a final newline;
- strptime accepts unpadded months and days;
- `chunk_document` never returns for an overlap at least the chunk size, or
  for a positive overlap (see Findings).

## Model

| member | source | states |
|---|---|---|
| Validator.CodeName | agents/new_agents/medical_record_validator.py:16-23 | a violation's code string is one of the `ValidationType` values |
| Validator.CodeNameInjective | agents/new_agents/medical_record_validator.py:16-23 | different codes carry different strings |
| Validator.ValidateField | agents/new_agents/medical_record_validator.py:172-201 | is the rule-by-rule outcome of the field; an unregistered field yields no violations; every violation names the field |
| Validator.RunFieldRules | agents/new_agents/medical_record_validator.py:180-196 | the loop over a field's rules equals the recursive rule run: a violation of a Required rule stops it, an exception exits it |
| Validator.StampErrors | agents/new_agents/medical_record_validator.py:198-199 | each violation is relabelled with the field name and keeps everything else |
| Validator.StampAll | agents/new_agents/medical_record_validator.py:198-199 | stamping keeps the length and changes only the field of each violation |
| Validator.ValidateFields | agents/new_agents/medical_record_validator.py:203-212 | the field loop collects the violations of each listed field the data holds, in order; the first exception wins; every violation names a listed, present field |
| Validator.FieldsOutcomeNamesPresentFields | agents/new_agents/medical_record_validator.py:205-210 | every collected violation names a listed field present in the data |
| Validator.FieldsRaisePropagates | agents/new_agents/medical_record_validator.py:208-209 | once an earlier field raises, the whole validation raises the same exception |
| Validator.ValidateRecord | agents/new_agents/medical_record_validator.py:203-212 | validates every key of the record in insertion order |
| Validator.ValidateExamination | agents/new_agents/medical_record_validator.py:214-224 | validates exactly `exam_type`, `exam_date`, `exam_result`, when present |
| Validator.ValidatePrescription | agents/new_agents/medical_record_validator.py:226-236 | validates exactly `medication_name`, `dosage`, `frequency`, `duration`, when present |
| Validator.ValidateOperation | agents/new_agents/medical_record_validator.py:238-248 | validates exactly `operation_name`, `operation_date`, `surgeon`, `operation_level`, when present |
| Validator.ValidateAttachment | agents/new_agents/medical_record_validator.py:250-265 | validates `file_name`, `file_type`, then `file_size`, when present |
| Validator.MissingValues | agents/new_agents/medical_record_validator.py:125-129 | the required test `not v and v != 0` holds exactly for None and the empty string |
| Validator.DecimalLength | agents/new_agents/medical_record_validator.py:140-151 | `len(str(n))` of an int is at least one character |
| Validator.LeadingDigits | agents/new_agents/medical_record_validator.py:159-163 | counts the maximal run of leading ASCII digits |
| Validator.CheckRange | agents/new_agents/medical_record_validator.py:140-151 | each of the four bounds is checked on its own, so there are at most four violations |
| Validator.ApplyRuleReports | agents/new_agents/medical_record_validator.py:125-170 | every violation a rule reports carries that rule's code and message |
| Validator.RunRulesReports | agents/new_agents/medical_record_validator.py:180-196 | every violation the rule loop adds comes from one of the field's rules |
| Validator.FieldOutcomeReports | agents/new_agents/medical_record_validator.py:172-201 | every violation of a field names it and is explained by one of its registered rules |
| Validator.RunRulesLeaveFieldEmpty | agents/new_agents/medical_record_validator.py:125-170 | rules report violations with an empty field name until they are stamped |
| Validator.RequiredShortCircuits | agents/new_agents/medical_record_validator.py:194-196 | a missing value under a leading Required rule yields exactly that rule's one violation |
| Validator.CatalogRequiredFirst | agents/new_agents/medical_record_validator.py:30-123 | every catalog field except `file_size` starts with a Required rule |
| Validator.PresentPassesRequired | agents/new_agents/medical_record_validator.py:125-129 | a present value passes the Required rule and the loop continues with the next rule |
| Validator.LastRule | agents/new_agents/medical_record_validator.py:180-196 | the loop over a single rule is that rule's outcome |
| Validator.SecondRuleDecides | agents/new_agents/medical_record_validator.py:180-196 | for a present value, a field with a Required rule plus one more rule gets the second rule's outcome |
| Validator.PatientIdAccepted | agents/new_agents/medical_record_validator.py:32-35 | `P12345678` is a valid patient id |
| Validator.PatientIdTooShort | agents/new_agents/medical_record_validator.py:32-35 | seven digits is a regex violation with the catalog's message |
| Validator.PatientIdNotString | agents/new_agents/medical_record_validator.py:159-163 | an int id makes `re.match` raise TypeError |
| Validator.PatientIdTrailingNewline | agents/new_agents/medical_record_validator.py:32-35 | `$` also matches before a final newline, so such an id is accepted |
| Validator.ChiefComplaintLength | agents/new_agents/medical_record_validator.py:53-56 | 2 to 500 characters pass; 1 or more than 500 give one range violation |
| Validator.FileSizeBounds | agents/new_agents/medical_record_validator.py:120-122 | an int in 0..100 MiB passes, one outside gives a range violation, anything else raises TypeError |
| Validator.RecordTypeEnum | agents/new_agents/medical_record_validator.py:36-39 | a record type passes iff it is one of the four names, and otherwise gives the enum violation |
| Validator.OperationLevelLongForm | agents/new_agents/medical_record_validator.py:103-106 | `四级手术` is rejected by the enum, `四级` accepted |
| Validator.VisitDateRun | agents/new_agents/medical_record_validator.py:40-44 | a present visit date runs the format check and then, whatever the format check found, the custom check, which carries the format's violations |
| Validator.VisitDateNotLater | agents/new_agents/medical_record_validator.py:165-170 | a parsable visit date not after today passes |
| Validator.VisitDateLater | agents/new_agents/medical_record_validator.py:165-170 | a visit date after today is one custom violation |
| Validator.VisitDateUnparsable | agents/new_agents/medical_record_validator.py:131-138 | a non-empty string strptime rejects makes the field raise ValueError |
| Validator.DosageAccepts | agents/new_agents/medical_record_validator.py:81-84 | the dosage pattern accepts `0.3g` and `10mg` |
| Validator.DosageRejects | agents/new_agents/medical_record_validator.py:81-84 | the dosage pattern rejects `0.3` and `g` |
| Validator.DosageRules | agents/new_agents/medical_record_validator.py:81-84 | the dosage field has exactly a Required rule and the regex |
| Validator.RegexFieldOutcome | agents/new_agents/medical_record_validator.py:159-163 | a present string in a Required-plus-regex field passes iff it matches, and otherwise reports the regex violation |
| Validator.DosageAccepted | agents/new_agents/medical_record_validator.py:81-84 | `0.3g` is a valid dosage |
| Validator.DosageIntegerAccepted | agents/new_agents/medical_record_validator.py:81-84 | `10mg` is a valid dosage |
| Validator.DosageRejected | agents/new_agents/medical_record_validator.py:81-84 | `0.3` and `g` are regex violations |
| Validator.FileNameExamples | agents/new_agents/medical_record_validator.py:109-112 | CJK word characters are accepted in file names, a slash is not |
| Dates.DaysInMonth | agents/new_agents/medical_record_validator.py:131-138 | a month has 28 to 31 days |
| Dates.ParseYmd | agents/new_agents/medical_record_validator.py:131-138 | every date strptime accepts is a real calendar date |
| Dates.MonthMatches | agents/new_agents/medical_record_validator.py:131-138 | each candidate of the month pattern is a month 1..12 ending inside the string |
| Dates.DayMatch | agents/new_agents/medical_record_validator.py:131-138 | the day pattern reads a day 1..31 ending inside the string |
| Dates.MatchMonthDay | agents/new_agents/medical_record_validator.py:131-138 | backtracking over month candidates yields a month and day in range |
| Dates.FormatThenParse | agents/new_agents/medical_record_validator.py:131-138 | strptime reads back every zero-padded ISO date |
| Dates.FormatYmd | agents/new_agents/medical_record_validator.py:165-170 | an ISO date is ten characters |
| Dates.Pad2 | agents/new_agents/medical_record_agent.py:57 | two digits whose value is the number |
| Dates.Pad4 | agents/new_agents/medical_record_agent.py:57 | four digits whose value is the number |
| Dates.PaddedMonth | agents/new_agents/medical_record_validator.py:131-138 | a zero-padded month is the first candidate of the month pattern |
| Dates.PaddedDay | agents/new_agents/medical_record_validator.py:131-138 | a zero-padded day is what the day pattern reads |
| Dates.ParseUnpadded | agents/new_agents/medical_record_validator.py:131-138 | strptime also accepts unpadded months and days |
| Dates.ParseLeapDay | agents/new_agents/medical_record_validator.py:131-138 | February 29th parses in leap years only |
| Dates.ParseBadMonth | agents/new_agents/medical_record_validator.py:131-138 | month 13 fails |
| Dates.ParseTrailingSpace | agents/new_agents/medical_record_validator.py:131-138 | trailing characters fail |
| Dates.CompactStamp | agents/new_agents/medical_record_agent.py:53 | `%Y%m%d%H%M%S` is fourteen digits |
| Dates.ClockStamp | agents/new_agents/medical_record_agent.py:57 | `%Y-%m-%d %H:%M:%S` is nineteen characters |
| Common.Update | agents/new_agents/medical_record_agent.py:58-65 | `dict.update`: the old keys keep their order, new keys follow, the new values win and the rest are kept |
| Common.NewKeys | agents/new_agents/medical_record_agent.py:58-65 | the keys a dict update appends, in order, without repeats |
| Common.Set | agents/new_agents/medical_record_agent.py:209-212 | `d[k] = v` sets one key and keeps the others |
| Common.StrLeTotal | agents/new_agents/medical_record_agent.py:344-346 | the binary string order compares any two strings |
| Common.StrLeTransitive | agents/new_agents/medical_record_agent.py:344-346 | the binary string order is transitive |
| Common.StrLeAntisymmetric | agents/new_agents/medical_record_agent.py:344-346 | the binary string order is antisymmetric |
| Common.ValueLeTotal | agents/new_agents/medical_record_agent.py:344-346 | ORDER BY's order on values compares any two values |
| Common.ValueLeTransitive | agents/new_agents/medical_record_agent.py:344-346 | ORDER BY's order on values is transitive |
| Sorting.SortBy | agents/new_agents/medical_record_agent.py:344-346 | sorting keeps the length and the multiset of elements |
| Sorting.SortBySorted | agents/new_agents/medical_record_agent.py:344-346 | on a total preorder the result is sorted |
| Sorting.SortByMembers | agents/new_agents/medical_record_agent.py:344-346 | sorting keeps exactly the elements it was given |
| Sorting.Take | agents/new_agents/medical_record_analyzer.py:79 | `head(n)` is the first `n` elements, or all of them |
| Tables.MedicalRecordsWellFormed | scripts/init_database.py:25-44 | the record schema's columns are distinct and include its key and NOT NULL columns |
| Tables.ChildSchemasWellFormed | scripts/init_database.py:47-126 | the child schemas are well formed and each has a `record_id` column |
| Tables.PrescriptionsWellFormed | scripts/init_database.py:63-80 | the prescription schema is well formed |
| Tables.OperationsWellFormed | scripts/init_database.py:83-101 | the operation schema is well formed |
| Tables.ExaminationsWellFormed | scripts/init_database.py:47-60 | the examination schema is well formed |
| Tables.AttachmentsWellFormed | scripts/init_database.py:116-126 | the attachment schema is well formed |
| Tables.FirstUnknown | agents/new_agents/medical_record_agent.py:67-74 | the first named key that is not a column, or none iff every key is a column |
| Tables.FirstNullColumn | scripts/init_database.py:25-44 | the first NOT NULL column left NULL, or none iff every NOT NULL column has a value |
| Tables.NewRow | agents/new_agents/medical_record_agent.py:67-74 | the inserted row has every column, taking the dict's values and NULL elsewhere |
| Tables.InsertRow | agents/new_agents/medical_record_agent.py:67-74 | INSERT fails on an unknown column, a NULL in a NOT NULL column or a taken key, and otherwise appends the new row |
| Tables.InsertKeepsValid | agents/new_agents/medical_record_agent.py:67-74 | a successful INSERT keeps every row fitting and the keys distinct |
| Tables.UpdatedRow | agents/new_agents/medical_record_agent.py:172-178 | the updated columns take the new values, the rest keep theirs |
| Tables.UpdateAt | agents/new_agents/medical_record_agent.py:172-178 | UPDATE fails on an unknown column, a NULL constraint or a key clash, and otherwise changes only the row at `i` |
| Tables.UpdateAtSucceeds | agents/new_agents/medical_record_agent.py:172-178 | an UPDATE naming only columns, setting no NOT NULL column to NULL and keeping the key, succeeds |
| Tables.InsertRowSucceeds | agents/new_agents/medical_record_agent.py:67-74 | an INSERT naming only columns, filling every NOT NULL column and bringing a new key, succeeds |
| Tables.UpdateKeepsValid | agents/new_agents/medical_record_agent.py:172-178 | a successful UPDATE keeps the table valid |
| Tables.UpdateAtEffect | agents/new_agents/medical_record_agent.py:172-178 | the UPDATE rewrites the named columns of one row and leaves every other row unchanged |
| Tables.KeyIdentifiesRow | scripts/init_database.py:25-44 | in a valid table a non-NULL key identifies one row |
| Tables.AsDict | agents/new_agents/medical_record_agent.py:115-117 | `SELECT *` yields the columns in declaration order with the row's values |
| Tables.AsDictNewRow | agents/new_agents/medical_record_agent.py:67-74 | an inserted dict reads back with each value it gave |
| Tables.SelectByRecord | agents/new_agents/medical_record_agent.py:119-141 | one dict per stored child of the record, in storage order |
| Tables.SelectByRecordMembers | agents/new_agents/medical_record_agent.py:119-141 | a selected child is exactly a stored row of that record |
| Tables.SelectByRecordNone | agents/new_agents/medical_record_agent.py:119-141 | no row with that record id selects nothing |
| Tables.SelectByRecordAppendOther | agents/new_agents/medical_record_agent.py:119-141 | appending a row of another record leaves a selection unchanged |
| Records.RecordTypesAgree | agents/new_agents/medical_record_agent.py:12-17 | the record types the validator accepts are exactly the names of the enum |
| Records.StatusNamesDistinct | agents/new_agents/medical_record_agent.py:19-25 | distinct statuses have distinct names |
| Records.EmptyDbValid | scripts/init_database.py:25-126 | a freshly initialised database is valid |
| Records.AppendFreshVersion | scripts/init_database.py:104-113 | a version with a new id keeps the version ids distinct |
| Records.FindRecord | agents/new_agents/medical_record_agent.py:106-113 | the first record with the id, or none iff no record has it |
| Records.VersionsOf | agents/new_agents/medical_record_agent.py:144-149 | exactly the versions of the record, in storage order |
| Records.Lookup | agents/new_agents/medical_record_agent.py:102-156 | fails iff no record has the id; otherwise the row is that record, with versions iff asked for |
| Records.LookupChildren | agents/new_agents/medical_record_agent.py:119-141 | the children in a view are exactly the stored children of that record |
| Records.LookupVersions | agents/new_agents/medical_record_agent.py:144-149 | the versions are sorted by number and are exactly that record's versions |
| Records.LookupRowAt | agents/new_agents/medical_record_agent.py:106-117 | the row of a view is the first stored record with that id |
| Records.CreateStamps | agents/new_agents/medical_record_agent.py:58-65 | the six audit keys with the id, the time, the author and the draft status |
| Records.RecordIdAt | agents/new_agents/medical_record_agent.py:53 | `R` followed by fourteen digits |
| Records.CreateStampsCallerDict | agents/new_agents/medical_record_agent.py:58-65 | the caller's dict keeps its keys first and takes the id, draft status, equal creation and update times, and the author |
| Records.CreateTx | agents/new_agents/medical_record_agent.py:67-94 | succeeds iff the INSERT succeeds and the version id is free; a failing INSERT carries its error, a taken version id a UNIQUE failure; a success appends the record and its version 1, with all stamped keys as changed fields |
| Records.CreateSucceeds | agents/new_agents/medical_record_agent.py:67-94 | a dict naming only columns, filling every NOT NULL column, with a new record id and a free version id, is created |
| Records.CreateKeepsValid | agents/new_agents/medical_record_agent.py:67-94 | a successful create keeps the database valid |
| Records.FindAppended | agents/new_agents/medical_record_agent.py:106-113 | a row appended with a new id is the one found for it |
| Records.CreateThenFind | agents/new_agents/medical_record_agent.py:49-113 | after a create, `get_record` finds the new row |
| Records.CreateThenLookup | agents/new_agents/medical_record_agent.py:49-156 | a created record reads back with every stamped value, version 1 among its versions, and as children the rows already stored under its id |
| Records.CreateThenLookupFresh | agents/new_agents/medical_record_agent.py:49-156 | when nothing refers to the new id, the created record reads back with no children and version 1 as its only version |
| Records.UnreferencedNoChildren | agents/new_agents/medical_record_agent.py:119-141 | a record no child row refers to has no children |
| Records.VersionsOfFresh | agents/new_agents/medical_record_agent.py:144-149 | a version appended for a record without versions is its only one |
| Records.VersionsOfNone | agents/new_agents/medical_record_agent.py:144-149 | a record no version row refers to has no versions |
| Records.CreateThenLookupRow | agents/new_agents/medical_record_agent.py:49-117 | the read-back row holds each stamped value |
| Records.CreateThenLookupVersion | agents/new_agents/medical_record_agent.py:77-90 | version 1, with the stamped content, is among the created record's versions |
| Records.CreateReusedIdFails | agents/new_agents/medical_record_agent.py:67-74 | a stored record id cannot be created again, and the store is unchanged |
| Records.UpdateStamps | agents/new_agents/medical_record_agent.py:165-169 | the update time and author keys |
| Records.UpdateRecordTx | agents/new_agents/medical_record_agent.py:158-203 | fails on an unknown id; a success is the UPDATE plus one version row, with a free version id |
| Records.UpdateRecordTxOutcome | agents/new_agents/medical_record_agent.py:158-203 | on a stored record, succeeds iff the UPDATE succeeds and the version id is free; a failing UPDATE carries its error, a taken version id a UNIQUE failure |
| Records.UpdateSucceeds | agents/new_agents/medical_record_agent.py:172-194 | an update of a stored record naming only columns, setting no NOT NULL column to NULL, keeping its id and with a free version id, succeeds |
| Records.UpdateKeepsOtherRecords | agents/new_agents/medical_record_agent.py:172-178 | an update leaves every other record unchanged |
| Records.UpdateRewritesColumns | agents/new_agents/medical_record_agent.py:172-178 | in the updated record exactly the named columns take the new values |
| Records.UpdateAppendsVersionOne | agents/new_agents/medical_record_agent.py:181-194 | an update appends one version, numbered 1, with the merged content and the dict's keys as changed fields, and touches no child table |
| Records.UpdateRecordKeepsValid | agents/new_agents/medical_record_agent.py:158-203 | a successful update keeps the database valid |
| Records.ChildTableWellFormed | scripts/init_database.py:47-126 | each child table is well formed with a `record_id` column |
| Records.WithChildRows | agents/new_agents/medical_record_agent.py:205-316 | replaces one child table and keeps the rest of the database |
| Records.ChildStamps | agents/new_agents/medical_record_agent.py:209-212 | the id, time and author keys each `add_*` method writes |
| Records.ChildIdAt | agents/new_agents/medical_record_agent.py:209 | the kind's prefix followed by fourteen digits |
| Records.AddChildTx | agents/new_agents/medical_record_agent.py:214-226 | succeeds iff the INSERT into the kind's table does, carrying its error otherwise; a success changes nothing else |
| Records.AddChildSucceeds | agents/new_agents/medical_record_agent.py:214-226 | a child dict naming only columns, filling every NOT NULL column, with a new id, is inserted |
| Records.AddChildKeepsValid | agents/new_agents/medical_record_agent.py:214-226 | a successful child insert keeps the database valid |
| Records.ChildListOf | agents/new_agents/medical_record_agent.py:119-141 | the child list of a kind in a view is that record's selection from the kind's table |
| Records.AddChildKeepsOtherViews | agents/new_agents/medical_record_agent.py:205-231 | a child of one record leaves the view of every other record unchanged |
| Records.ChildrenAppendOther | agents/new_agents/medical_record_agent.py:119-141 | a row of another record appended to a child table leaves a record's children unchanged |
| Records.AddChildShowsInView | agents/new_agents/medical_record_agent.py:205-231 | a child added to a record shows up last in that record's list of its kind |
| Records.FirstMissing | agents/new_agents/medical_record_agent.py:374 | the first id with no record, or none iff all exist |
| Records.ExportDispatch | agents/new_agents/medical_record_agent.py:369-412 | the first missing record fails as missing; with all present, the json file iff `json`, the excel file iff `excel` without attachments, a zip iff `excel` with them, and any other format fails as unsupported |
| Search.Where | agents/new_agents/medical_record_agent.py:325-336 | exactly the records meeting every given filter |
| Search.RowLeTotalPreorder | agents/new_agents/medical_record_agent.py:344-346 | the ORDER BY order is a total preorder in either direction |
| Search.LimitOffset | agents/new_agents/medical_record_agent.py:349-351 | at most `limit` rows; none past the end |
| Search.LimitOffsetSlice | agents/new_agents/medical_record_agent.py:349-351 | LIMIT and OFFSET keep one contiguous run |
| Search.Search | agents/new_agents/medical_record_agent.py:318-367 | fails iff the sort key is not one of the column names as written; otherwise at most a page of results |
| Search.PageStart | agents/new_agents/medical_record_agent.py:351 | the offset of page one or later is not negative |
| Search.SearchIsPageRows | agents/new_agents/medical_record_agent.py:359-360 | each result is the dict of the corresponding row of the page |
| Search.SearchSound | agents/new_agents/medical_record_agent.py:325-360 | every result is a stored record meeting every filter |
| Search.SearchOrdered | agents/new_agents/medical_record_agent.py:344-346 | the page comes in the requested order of the sort column, by default `created_at` descending |
| Search.LimitOffsetSorted | agents/new_agents/medical_record_agent.py:349-351 | LIMIT and OFFSET keep the order |
| Search.PageSlice | agents/new_agents/medical_record_agent.py:349-351 | page `n` of size `s` is the slice from `(n-1)*s`, clipped at the end |
| Search.SearchPage | agents/new_agents/medical_record_agent.py:344-351 | page `n` is that slice of the ordered matches, and empty past the end |
| Search.SearchFirstPageComplete | agents/new_agents/medical_record_agent.py:344-351 | a first page at least as large as the matches holds each match once |
| Counting.Filter | agents/new_agents/medical_record_analyzer.py:40-44 | exactly the elements that pass, in order |
| Counting.FilterNested | agents/new_agents/medical_record_analyzer.py:98-105 | filtering by a stricter test after a weaker one is filtering by the stricter one |
| Counting.NonNull | agents/new_agents/medical_record_analyzer.py:105 | exactly the non-NULL values |
| Counting.NonNullAll | agents/new_agents/medical_record_analyzer.py:105 | without NULLs nothing is dropped |
| Counting.Tally | agents/new_agents/medical_record_analyzer.py:110 | `Counter`: distinct keys, and each entry is a value with its number of occurrences |
| Counting.BumpFacts | agents/new_agents/medical_record_analyzer.py:110 | counting one more value adds one to the total, to its entry only |
| Counting.BumpSpec | agents/new_agents/medical_record_analyzer.py:110 | counting a sequence one value at a time gives the tally of the whole |
| Counting.TallyEntry | agents/new_agents/medical_record_analyzer.py:110 | a tally entry is a value that occurs, with its count |
| Counting.TotalSortBy | agents/new_agents/medical_record_analyzer.py:53 | reordering a tally keeps its total |
| Counting.ByCountDescPreorder | agents/new_agents/medical_record_analyzer.py:53 | ranking by count is a total preorder |
| Counting.ByKeyPreorder | agents/new_agents/medical_record_analyzer.py:50 | ordering by key is a total preorder |
| Counting.ValueCountsSpec | agents/new_agents/medical_record_analyzer.py:105 | `value_counts` ranks the non-NULL values by frequency, with exact counts adding up to the non-NULL values |
| Counting.GroupSizesSpec | agents/new_agents/medical_record_analyzer.py:50-56 | `groupby().size()`: the non-NULL values in key order with their sizes, adding up to the non-NULL values |
| Counting.GroupSizesMember | agents/new_agents/medical_record_analyzer.py:50-56 | a group is a non-NULL value of the column with its number of occurrences |
| Counting.GroupKeysSpec | agents/new_agents/medical_record_analyzer.py:108 | the keys of `groupby` are the distinct non-NULL values in key order |
| Counting.MostCommonSpec | agents/new_agents/medical_record_analyzer.py:110 | at most `n` entries, most frequent first, each with its exact count |
| Counting.MostCommonOmitted | agents/new_agents/medical_record_analyzer.py:110 | a value left out is no more frequent than any kept |
| Counting.PeakIndex | agents/new_agents/medical_record_analyzer.py:77 | `idxmax`: the first entry with the largest count |
| Analyzer.Column | agents/new_agents/medical_record_analyzer.py:46 | the column's value of each row, in order |
| Analyzer.ColumnCount | agents/new_agents/medical_record_analyzer.py:105 | the occurrences of a value in a column are the rows holding it |
| Analyzer.WindowDates | agents/new_agents/medical_record_analyzer.py:40-50 | no visit date in the window is NULL |
| Analyzer.VisitTrendsTotals | agents/new_agents/medical_record_analyzer.py:35-91 | fails iff the window is empty (the daily average divides by the days); the total and the daily counts are the number of visits in the window |
| Analyzer.VisitTrendsDaily | agents/new_agents/medical_record_analyzer.py:50 | each day counted lies in the window, with its number of visits |
| Analyzer.VisitTrendsPeak | agents/new_agents/medical_record_analyzer.py:53-79 | the busiest day has the most visits; departments are ranked most first; the top three are a prefix of the ranking |
| Analyzer.FilteredNotNull | scripts/init_database.py:25-44 | a NOT NULL column has no NULL in any selection of a valid table |
| Analyzer.VisitTrendsBreakdowns | agents/new_agents/medical_record_analyzer.py:53-56 | the department and record-type breakdowns add up to the total |
| Analyzer.TopByGroupSpec | agents/new_agents/medical_record_analyzer.py:108-112 | groups are the non-NULL keys in order; each has at most `n` values, ranked, counted within the group |
| Analyzer.DiagnosisCounts | agents/new_agents/medical_record_analyzer.py:98-105 | diagnoses ranked by frequency, each counted over the records with it, adding up to the records with a diagnosis |
| Analyzer.ExtendGet | agents/new_agents/medical_record_analyzer.py:154-158 | a joined row takes the record's extra columns and the child's others |
| Analyzer.JoinOne | agents/new_agents/medical_record_analyzer.py:154-158 | the joined rows of one child are its extensions by each linked record |
| Analyzer.JoinMembers | agents/new_agents/medical_record_analyzer.py:154-158 | the join holds exactly the children with a linked record, extended by it |
| Analyzer.JoinOneSize | agents/new_agents/medical_record_analyzer.py:154-158 | with unique record ids a child joins once or not at all |
| Analyzer.JoinSize | agents/new_agents/medical_record_analyzer.py:154-158 | the join has one row per child whose record exists |
| Analyzer.TabRow | agents/new_agents/medical_record_analyzer.py:164 | one cell per column key |
| Analyzer.TabCells | agents/new_agents/medical_record_analyzer.py:164 | one row of cells per row key |
| Analyzer.PresentColumn | agents/new_agents/medical_record_analyzer.py:164 | a value occurs in the column, among rows with both keys present, iff some such row holds it |
| Analyzer.PresentColumnSound | agents/new_agents/medical_record_analyzer.py:164 | a value of the filtered column occurs on a row with both keys present |
| Analyzer.PresentColumnComplete | agents/new_agents/medical_record_analyzer.py:164 | a value on such a row occurs in the filtered column |
| Analyzer.PresentKeys | agents/new_agents/medical_record_analyzer.py:164 | the keys of a cross-tab axis are the present non-NULL values, in key order |
| Analyzer.TabulateSpec | agents/new_agents/medical_record_analyzer.py:164 | the cross-tab's axes are the present values in key order, and it is full |
| Analyzer.TabulateCell | agents/new_agents/medical_record_analyzer.py:164 | each cell counts the rows with its pair, and is 0 iff no row has it |
| Analyzer.ChildAnalysesCountJoined | agents/new_agents/medical_record_analyzer.py:149-279 | each child analysis counts exactly the children whose record exists |
| Analyzer.JoinedNotNull | agents/new_agents/medical_record_analyzer.py:266-279 | a NOT NULL child column is never NULL after the join |
| Analyzer.OperationLevelsSum | agents/new_agents/medical_record_analyzer.py:279 | the level counts add up to the number of joined operations |
| Analyzer.Ints | agents/new_agents/medical_record_analyzer.py:293-297 | exactly the integers among the values |
| Analyzer.MaxOf | agents/new_agents/medical_record_analyzer.py:295 | none iff empty; otherwise a member at least every member |
| Analyzer.MinOf | agents/new_agents/medical_record_analyzer.py:296 | none iff empty; otherwise a member at most every member |
| Analyzer.BloodLossBounds | agents/new_agents/medical_record_analyzer.py:293-297 | the extremes exist together, are recorded blood losses, and the minimum does not exceed the maximum |
| Analyzer.SectionTexts | agents/new_agents/medical_record_analyzer.py:352-357 | one section per analysis, in order |
| Analyzer.SectionHeading | agents/new_agents/medical_record_analyzer.py:353 | a section begins with its heading |
| Analyzer.SectionInReport | agents/new_agents/medical_record_analyzer.py:346-357 | each section sits at its offset in the report |
| Analyzer.HeadingInReport | agents/new_agents/medical_record_analyzer.py:346-357 | each section's heading sits at its offset |
| Analyzer.NextSectionOffset | agents/new_agents/medical_record_analyzer.py:352-357 | the next section starts where one ends |
| Analyzer.SummaryReportLayout | agents/new_agents/medical_record_analyzer.py:330-359 | the report is the header followed by the five sections in order, each starting with its heading |
| Chunker.SliceBound | knowledge_base/data_processor.py:27 | a Python slice bound is clipped into the string |
| Chunker.PySlice | knowledge_base/data_processor.py:27 | a slice is no longer than the string |
| Chunker.ChunkDocument | knowledge_base/data_processor.py:19-29 | the loop, when it stops, returns the window at `k*(size-overlap)` for each `k` with that start inside the text |
| Chunker.LoopNeverExits | knowledge_base/data_processor.py:23-28 | outside the terminating arguments the start stays below the length forever |
| Chunker.ChunkCountSpec | knowledge_base/data_processor.py:23-28 | window `k` exists iff its start lies inside the text |
| Chunker.EmptyTextNoChunks | knowledge_base/data_processor.py:21-22 | empty text has no windows |
| Chunker.ChunkIsSlice | knowledge_base/data_processor.py:24-27 | window `k` is the slice from its start, at most `chunk_size` long |
| Chunker.ConcatPrefix | knowledge_base/data_processor.py:23-28 | without overlap the first `k` windows spell out the first `k*size` characters |
| Chunker.ChunksConcatenate | knowledge_base/data_processor.py:19-29 | without overlap the windows give back the text, and there are `ceil(len/size)` of them |
| Chunker.LastChunkEndsText | knowledge_base/data_processor.py:25-26 | without overlap the last window ends at the end of the text |
| Chunker.GapsExample | knowledge_base/data_processor.py:23-28 | a negative overlap leaves gaps and can drop the tail |
| Chunker.NoOverlapExample | knowledge_base/data_processor.py:23-28 | without overlap the last window takes what is left |
| Chunker.NegativeSizeExample | knowledge_base/data_processor.py:27 | a negative size reads the end bound from the back |
| Chunker.PositiveOverlapStalls | knowledge_base/data_processor.py:23-28 | ten characters in windows of 4 overlapping by 1: the start sticks at 9 |
| Chunker.CoverCountSpec | knowledge_base/data_processor.py:23-28 | in the stopping loop, window `k` is not the last iff it ends before the text does |
| Chunker.ChunkDocumentStopping | knowledge_base/data_processor.py:19-29 | the loop left after the window that reaches the end returns the covering windows, for every overlap in `[0, chunk_size)` |
| Chunker.LastWindowCount | knowledge_base/data_processor.py:23-28 | the first window to reach the end is the last |
| Chunker.CoveringFromWindows | knowledge_base/data_processor.py:23-28 | that many windows, each at its start, are the covering windows |
| Chunker.ChunkAtSlice | knowledge_base/data_processor.py:24-27 | a window starting inside the text is the slice from its start, clipped at the end |
| Chunker.CoveringChunksSlice | knowledge_base/data_processor.py:24-27 | each covering window is the slice from a start inside the text |
| Chunker.CoveringChunksEnds | knowledge_base/data_processor.py:25-28 | every covering window but the last ends before the text, and the last reaches its end |
| Chunker.CoveringChunksOverlap | knowledge_base/data_processor.py:28 | each covering window starts `overlap` characters before the previous one ends |
| Chunker.CoveringChunksCover | knowledge_base/data_processor.py:19-29 | every character lies in some covering window |
| Chunker.FirstWindowPast | knowledge_base/data_processor.py:23-28 | the last window start at or before a position |
| Chunker.CoveringAgreesWithoutOverlap | knowledge_base/data_processor.py:19-29 | without overlap the stopping loop returns the windows of the original |
| Chunker.CoverCountIsChunkCount | knowledge_base/data_processor.py:23-28 | without overlap both loops make the same number of windows |
| Agent.MutableDict.constructor | agents/new_agents/medical_record_agent.py:49 | a caller's dict holding the given contents |
| Agent.MedicalRecordAgent.constructor | scripts/init_database.py:25-126 | an agent over an empty, valid database |
| Agent.MedicalRecordAgent.Commit | agents/new_agents/medical_record_agent.py:92 | the tables become those of the transaction |
| Agent.MedicalRecordAgent.CreateRecord | agents/new_agents/medical_record_agent.py:49-100 | stamps the caller's dict even when the INSERT fails; commits the create transaction or changes nothing; keeps validity; a created record can be fetched |
| Agent.MedicalRecordAgent.GetRecord | agents/new_agents/medical_record_agent.py:102-156 | the view of the store; its row has the requested id |
| Agent.MedicalRecordAgent.UpdateRecord | agents/new_agents/medical_record_agent.py:158-203 | an unknown id fails before the dict is touched; otherwise stamps the dict, commits the update or changes nothing, and keeps validity |
| Agent.MedicalRecordAgent.AddChild | agents/new_agents/medical_record_agent.py:205-231 | stamps the id, time and author into the caller's dict, then commits the insert and returns nothing, or changes nothing and fails with its error; keeps validity |
| Agent.MedicalRecordAgent.AddExamination | agents/new_agents/medical_record_agent.py:205-231 | the examination insert, with an `E` id stamped into the caller's dict; nothing is returned |
| Agent.MedicalRecordAgent.AddPrescription | agents/new_agents/medical_record_agent.py:233-260 | the prescription insert, with a `P` id stamped into the caller's dict; nothing is returned |
| Agent.MedicalRecordAgent.AddOperationRecord | agents/new_agents/medical_record_agent.py:262-288 | the operation insert, with an `O` id stamped into the caller's dict; nothing is returned |
| Agent.MedicalRecordAgent.AddAttachment | agents/new_agents/medical_record_agent.py:290-316 | the attachment insert, with an `A` id stamped into the caller's dict; nothing is returned |
| Agent.MedicalRecordAgent.SearchRecords | agents/new_agents/medical_record_agent.py:318-367 | the search over the stored records; each result is a stored record meeting every filter |
| Agent.MedicalRecordAgent.ExportRecords | agents/new_agents/medical_record_agent.py:369-412 | the export dispatch on the store; success means every record exists |

## Left out

- Regular expressions: `\d` is read as an ASCII digit, and `\w` as ASCII letters, digits, `_` and the CJK Unified Ideographs block. Python's full Unicode classes are not modelled.
- `LIKE '%x%'` is read as a case-sensitive substring test. SQLite's ASCII case folding and any `%` or `_` inside the search term are not modelled.
- SQLite type affinity is not modelled: values are stored as given. ORDER BY compares by storage class (NULL, then integers, then text in binary order).
- Sort ties: ORDER BY, `sort_values` and `value_counts` are modelled as stable insertion sorts, while SQLite and pandas leave the order of ties unspecified. The contracts state only sortedness and contents, so they do not depend on the tie order.
- `pd.to_datetime` on visit dates is not modelled. Days are grouped by their stored text, which matches for ISO dates.
- `sort_order` is a two-valued enum. The source pastes any text into the SQL, and that injection path is not modelled.
- Search.Search: `sort_by` is read as one of the column names exactly as the schema writes them. The source pastes it into `ORDER BY`, where SQLite also accepts the same name in other letter case, `rowid`, a column number, surrounding spaces or any expression; those spellings fail in the model as an unknown column.
- SearchRecords (Agent.MedicalRecordAgent.SearchRecords): inherits Search.Search's reading of `sort_by`, so a sort key SQLite would accept in another spelling fails as an unknown column.
- The JSON text of a version's `content` and `changed_fields` is modelled as the structured value it encodes. The encoding itself is not modelled.
- Floating point is left out: the daily average and the mean blood loss are not computed, and a non-integer blood loss is skipped by the extremes.
- Chart drawing, description and table text, and all file I/O are left out. That covers the export writers, the attachment zip, the report file and the charts. The model stops at the report text and at the choice of export target.
- `datetime.now()` and `uuid.uuid4()` are inputs: the clock readings and the version id are parameters.
- Database connections, logging, concurrency, and connections left open on an exception are not modelled. A failed transaction leaves the store as it was.
- The validator's domain is scalars: None, strings and ints. Lists, floats and other Python objects are not modelled.
- The visit-date rule takes today's date as a parameter, because it reads the clock.
- Clock readings before the year 1000 are excluded, where `strftime('%Y')` would not write four digits.
- The other files of the repository are not part of this model: crawlers, the knowledge base and vector store, training, the hospital interface, the user interface and the CLI scripts.
- Chunker.ChunkDocument: requires the arguments on which the loop stops (empty text, or an overlap of at most zero with a positive step). Chunker.LoopNeverExits proves that the loop never stops on any other arguments.
- Chunker.LastChunkEndsText: proved for overlap 0 only. With a negative overlap the windows can leave the tail uncovered, as Chunker.GapsExample shows.
- Chunker.ChunkIsSlice: proved for `chunk_size >= 0` only. A negative size makes Python count the end bound from the back, as Chunker.NegativeSizeExample shows.
- Chunker.ChunksConcatenate: proved for overlap 0 only. A positive overlap never terminates, and a negative one leaves gaps.
- Chunker.ChunkDocumentStopping: covers overlaps in `[0, chunk_size)` only, the ones for which the windows move forward and overlap.

## Findings

| source | as written | input that shows it | evidently intended | confidence | as-written member | corrected member |
|---|---|---|---|---|---|---|
| knowledge_base/data_processor.py:23-28 | `start = end - overlap` also runs after the window that reaches the end, so with a positive overlap `start` falls back below `len(text)` and the loop never stops | ten characters, `chunk_size` 4, `overlap` 1: the start goes 0, 3, 6, 9, 9, ... | leave the loop after the window that reaches the end | not executed | Chunker.PositiveOverlapStalls | Chunker.ChunkDocumentStopping |
