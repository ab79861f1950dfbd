/** The record store as a value: the six tables, the record view
    `get_record` assembles, and the transaction each write commits. The
    `MedicalRecordAgent` class applies these to its fields. */
module Records {
  import opened Common
  import opened Dates
  import opened Sorting
  import opened Tables
  import Validator

  datatype RecordType = Outpatient | Inpatient | Emergency | Physical

  function RecordTypeName(t: RecordType): string {
    match t
    case Outpatient => "门诊"
    case Inpatient => "住院"
    case Emergency => "急诊"
    case Physical => "体检"
  }

  datatype RecordStatus = Draft | Submitted | Reviewed | Signed | Archived

  function StatusName(s: RecordStatus): string {
    match s
    case Draft => "草稿"
    case Submitted => "已提交"
    case Reviewed => "已审核"
    case Signed => "已签名"
    case Archived => "已归档"
  }

  /** The record types the validator accepts are exactly the names of the
      record type enumeration. */
  lemma RecordTypesAgree(s: string)
    ensures s in Validator.RecordTypeValues <==> exists t :: RecordTypeName(t) == s
  {
    if s in Validator.RecordTypeValues {
      if s == "门诊" { assert RecordTypeName(Outpatient) == s; }
      else if s == "住院" { assert RecordTypeName(Inpatient) == s; }
      else if s == "急诊" { assert RecordTypeName(Emergency) == s; }
      else { assert RecordTypeName(Physical) == s; }
    }
  }

  /** Distinct statuses have distinct names. */
  lemma StatusNamesDistinct(a: RecordStatus, b: RecordStatus)
    ensures StatusName(a) == StatusName(b) <==> a == b
  {
    if a != b {
      assert StatusName(a)[..2] != StatusName(b)[..2] || StatusName(a)[2..] != StatusName(b)[2..];
    }
  }

  /** The child lists `get_record` attaches to a record. */
  datatype Children = Children(examinations: seq<Dict>, prescriptions: seq<Dict>,
                               operations: seq<Dict>, attachments: seq<Dict>)

  /** What a version's `content` column holds, as the JSON text encodes it:
      the record's fields, and the child lists when the snapshot was taken
      from a record view. */
  datatype Content = Content(fields: Dict, children: Option<Children>)

  /** A row of `record_versions`; `changed_fields` is a JSON list of keys. */
  datatype VersionRow = VersionRow(versionId: string, recordId: string, version: int, content: Content,
                                   changedFields: seq<string>, changedAt: string, changedBy: string)

  /** The dict `get_record` returns: the record's columns, its children and,
      when asked for, its versions. */
  datatype RecordView = RecordView(row: Dict, children: Children, versions: Option<seq<VersionRow>>)

  datatype Db = Db(records: seq<Row>, versions: seq<VersionRow>, examinations: seq<Row>,
                   prescriptions: seq<Row>, operations: seq<Row>, attachments: seq<Row>)

  predicate VersionIdsDistinct(vs: seq<VersionRow>) {
    forall i, j :: 0 <= i < j < |vs| ==> vs[i].versionId != vs[j].versionId
  }

  predicate DbValid(db: Db) {
    TableValid(MedicalRecords, db.records) && VersionIdsDistinct(db.versions)
    && TableValid(ExaminationResults, db.examinations) && TableValid(Prescriptions, db.prescriptions)
    && TableValid(OperationRecords, db.operations) && TableValid(RecordAttachments, db.attachments)
  }

  /** A version with a new id keeps the version ids distinct. */
  lemma AppendFreshVersion(vs: seq<VersionRow>, v: VersionRow)
    requires VersionIdsDistinct(vs) && forall i :: 0 <= i < |vs| ==> vs[i].versionId != v.versionId
    ensures VersionIdsDistinct(vs + [v])
  {
    var ws := vs + [v];
    forall i, j | 0 <= i < j < |ws| ensures ws[i].versionId != ws[j].versionId {
      if j == |vs| {
        assert ws[i] == vs[i];
      }
    }
  }

  const EmptyDb: Db := Db([], [], [], [], [], [])

  lemma EmptyDbValid()
    ensures DbValid(EmptyDb)
  {
  }

  // ---------------------------------------------------------------------
  // get_record

  /** The index of the first record whose id is `recordId`. */
  function FindRecord(rows: seq<Row>, recordId: string): (r: Option<nat>)
    ensures r.Some? ==> r.value < |rows| && Get(rows[r.value], "record_id") == Str(recordId)
    ensures r.Some? ==> forall i :: 0 <= i < r.value ==> Get(rows[i], "record_id") != Str(recordId)
    ensures r.None? ==> forall i :: 0 <= i < |rows| ==> Get(rows[i], "record_id") != Str(recordId)
  {
    if rows == [] then None
    else if Get(rows[0], "record_id") == Str(recordId) then Some(0)
    else match FindRecord(rows[1..], recordId)
      case None => None
      case Some(i) => Some(i + 1)
  }

  /** The versions of one record, in storage order. */
  function VersionsOf(vs: seq<VersionRow>, recordId: string): (r: seq<VersionRow>)
    ensures forall v :: v in r <==> v in vs && v.recordId == recordId
    decreases |vs|
  {
    if vs == [] then []
    else
      var rest := VersionsOf(vs[..|vs| - 1], recordId);
      assert forall v :: v in vs <==> v in vs[..|vs| - 1] || v == vs[|vs| - 1];
      if vs[|vs| - 1].recordId == recordId then rest + [vs[|vs| - 1]] else rest
  }

  /** `ORDER BY version`. */
  function ByVersion(a: VersionRow, b: VersionRow): bool {
    a.version <= b.version
  }

  function ChildrenOf(db: Db, recordId: string): Children {
    Children(SelectByRecord(ExaminationResults, db.examinations, recordId),
             SelectByRecord(Prescriptions, db.prescriptions, recordId),
             SelectByRecord(OperationRecords, db.operations, recordId),
             SelectByRecord(RecordAttachments, db.attachments, recordId))
  }

  /** `get_record(record_id, include_versions)`. */
  function Lookup(db: Db, recordId: string, includeVersions: bool): (r: Result<RecordView, DbError>)
    ensures r.Err? <==> forall i :: 0 <= i < |db.records| ==> Get(db.records[i], "record_id") != Str(recordId)
    ensures r.Err? ==> r.error == NoSuchRecord(recordId)
    ensures r.Ok? ==> WfDict(r.value.row) && r.value.row.keys == MedicalRecords.columns
    ensures r.Ok? ==> "record_id" in r.value.row.vals && r.value.row.vals["record_id"] == Str(recordId)
    ensures r.Ok? ==> (r.value.versions.Some? <==> includeVersions)
  {
    MedicalRecordsWellFormed();
    match FindRecord(db.records, recordId)
    case None => Err(NoSuchRecord(recordId))
    case Some(i) =>
      var vs := if includeVersions then Some(SortBy(VersionsOf(db.versions, recordId), ByVersion)) else None;
      Ok(RecordView(AsDict(MedicalRecords, db.records[i]), ChildrenOf(db, recordId), vs))
  }

  /** The examinations of a view are exactly the stored examinations of that
      record (and likewise the other three child lists). */
  lemma LookupChildren(db: Db, recordId: string, includeVersions: bool, d: Dict)
    requires Lookup(db, recordId, includeVersions).Ok?
    ensures var c := Lookup(db, recordId, includeVersions).value.children;
      && (d in c.examinations <==> StoredRowOf(ExaminationResults, db.examinations, recordId, d))
      && (d in c.prescriptions <==> StoredRowOf(Prescriptions, db.prescriptions, recordId, d))
      && (d in c.operations <==> StoredRowOf(OperationRecords, db.operations, recordId, d))
      && (d in c.attachments <==> StoredRowOf(RecordAttachments, db.attachments, recordId, d))
  {
    SelectByRecordMembers(ExaminationResults, db.examinations, recordId, d);
    SelectByRecordMembers(Prescriptions, db.prescriptions, recordId, d);
    SelectByRecordMembers(OperationRecords, db.operations, recordId, d);
    SelectByRecordMembers(RecordAttachments, db.attachments, recordId, d);
  }

  /** With versions asked for, the view lists exactly that record's versions,
      ordered by version number. */
  lemma LookupVersions(db: Db, recordId: string, v: VersionRow)
    requires Lookup(db, recordId, true).Ok?
    ensures var vs := Lookup(db, recordId, true).value.versions.value;
      && Sorted(vs, ByVersion)
      && (v in vs <==> v in db.versions && v.recordId == recordId)
  {
    var vs := VersionsOf(db.versions, recordId);
    SortBySorted(vs, ByVersion);
    SortByMembers(vs, ByVersion, v);
  }

  // ---------------------------------------------------------------------
  // create_record

  /** The audit keys `create_record` writes into the caller's dict. */
  function CreateStamps(recordId: string, now: string, author: string): (d: Dict)
    ensures WfDict(d)
  {
    Dict(["record_id", "created_at", "updated_at", "created_by", "updated_by", "record_status"],
         map["record_id" := Str(recordId), "created_at" := Str(now), "updated_at" := Str(now),
             "created_by" := Str(author), "updated_by" := Str(author), "record_status" := Str(StatusName(Draft))])
  }

  /** `R` and the fourteen digits of the clock reading. */
  function RecordIdAt(idClock: DateTime): (id: string)
    requires ValidClock(idClock)
    ensures |id| == 15 && id[0] == 'R' && forall i :: 1 <= i < 15 ==> IsDigit(id[i])
  {
    "R" + CompactStamp(idClock)
  }

  predicate VersionIdTaken(db: Db, versionId: string) {
    exists i :: 0 <= i < |db.versions| && db.versions[i].versionId == versionId
  }

  /** The two INSERTs of `create_record`, committed together: the stamped
      record, then its version 1 whose content is the stamped dict and whose
      changed fields are all of its keys. A failure of either rolls both back. */
  function CreateTx(db: Db, stamped: Dict, recordId: string, now: string, author: string, versionId: string): (r: Result<Db, DbError>)
    requires WfDict(stamped)
    ensures r.Ok? ==> r.value.records == db.records + [NewRow(MedicalRecords, stamped)]
    ensures r.Ok? ==> r.value.versions == db.versions + [VersionRow(versionId, recordId, 1, Content(stamped, None), stamped.keys, now, author)]
    ensures r.Ok? ==> r.value.(records := db.records, versions := db.versions) == db
    ensures r.Ok? ==> !KeyTaken(MedicalRecords, db.records, Get(NewRow(MedicalRecords, stamped), "record_id"), -1)
    ensures r.Ok? ==> !VersionIdTaken(db, versionId)
    ensures r.Ok? ==> forall k :: k in stamped.keys ==> k in MedicalRecords.columns
    ensures (MedicalRecordsWellFormed();
      && (r.Ok? <==> InsertRow(MedicalRecords, db.records, stamped).Ok? && !VersionIdTaken(db, versionId))
      && (InsertRow(MedicalRecords, db.records, stamped).Err? ==> r == Err(InsertRow(MedicalRecords, db.records, stamped).error))
      && (InsertRow(MedicalRecords, db.records, stamped).Ok? && VersionIdTaken(db, versionId) ==> r == Err(UniqueFailed)))
  {
    MedicalRecordsWellFormed();
    match InsertRow(MedicalRecords, db.records, stamped)
    case Err(e) => Err(e)
    case Ok(rows) =>
      if VersionIdTaken(db, versionId) then Err(UniqueFailed)
      else
        var v := VersionRow(versionId, recordId, 1, Content(stamped, None), stamped.keys, now, author);
        Ok(db.(records := rows, versions := db.versions + [v]))
  }

  lemma CreateKeepsValid(db: Db, stamped: Dict, recordId: string, now: string, author: string, versionId: string)
    requires DbValid(db) && WfDict(stamped)
    requires CreateTx(db, stamped, recordId, now, author, versionId).Ok?
    ensures DbValid(CreateTx(db, stamped, recordId, now, author, versionId).value)
  {
    MedicalRecordsWellFormed();
    InsertKeepsValid(MedicalRecords, db.records, stamped);
    AppendFreshVersion(db.versions, VersionRow(versionId, recordId, 1, Content(stamped, None), stamped.keys, now, author));
  }

  /** The caller's dict after `create_record` stamps it: its own keys keep
      their places, and the record is a draft whose creation and update
      times agree and whose creator is its last editor. */
  lemma CreateStampsCallerDict(data: Dict, recordId: string, now: string, author: string)
    requires WfDict(data)
    ensures var d := Update(data, CreateStamps(recordId, now, author));
      && d.keys[..|data.keys|] == data.keys
      && d.vals["record_id"] == Str(recordId)
      && d.vals["record_status"] == Str("草稿")
      && d.vals["created_at"] == d.vals["updated_at"] == Str(now)
      && d.vals["created_by"] == d.vals["updated_by"] == Str(author)
      && forall k :: k in data.vals && k !in CreateStamps(recordId, now, author).vals ==> d.vals[k] == data.vals[k]
  {
    var e := CreateStamps(recordId, now, author);
    assert e.vals["record_id"] == Str(recordId);
    assert e.vals["record_status"] == Str("草稿");
    assert e.vals["created_at"] == e.vals["updated_at"] == Str(now);
    assert e.vals["created_by"] == e.vals["updated_by"] == Str(author);
  }

  /** A row appended with an id no earlier row has is the one found for it. */
  lemma FindAppended(rows: seq<Row>, row: Row, recordId: string)
    requires Get(row, "record_id") == Str(recordId)
    requires forall i :: 0 <= i < |rows| ==> Get(rows[i], "record_id") != Str(recordId)
    ensures FindRecord(rows + [row], recordId) == Some(|rows|)
  {
    assert (rows + [row])[|rows|] == row;
    assert forall i :: 0 <= i < |rows| ==> (rows + [row])[i] == rows[i];
  }

  /** After a successful create, the new row is the one `get_record` finds
      for its id. */
  lemma CreateThenFind(db: Db, stamped: Dict, recordId: string, now: string, author: string, versionId: string)
    requires WfDict(stamped) && "record_id" in stamped.vals && stamped.vals["record_id"] == Str(recordId)
    requires CreateTx(db, stamped, recordId, now, author, versionId).Ok?
    ensures FindRecord(CreateTx(db, stamped, recordId, now, author, versionId).value.records, recordId) == Some(|db.records|)
  {
    var row := NewRow(MedicalRecords, stamped);
    assert Get(row, "record_id") == Str(recordId);
    assert !KeyTaken(MedicalRecords, db.records, Str(recordId), -1);
    FindAppended(db.records, row, recordId);
  }

  /** A created record reads back with every value of the stamped dict, its
      version 1 among its versions, and as children the child rows already
      stored under its id (no foreign key keeps such rows out). */
  lemma CreateThenLookup(db: Db, stamped: Dict, recordId: string, now: string, author: string, versionId: string)
    requires WfDict(stamped) && "record_id" in stamped.vals && stamped.vals["record_id"] == Str(recordId)
    requires CreateTx(db, stamped, recordId, now, author, versionId).Ok?
    ensures var view := Lookup(CreateTx(db, stamped, recordId, now, author, versionId).value, recordId, true);
      && view.Ok?
      && (forall c :: c in stamped.vals ==> c in view.value.row.vals && view.value.row.vals[c] == stamped.vals[c])
      && VersionRow(versionId, recordId, 1, Content(stamped, None), stamped.keys, now, author) in view.value.versions.value
      && view.value.children == ChildrenOf(db, recordId)
  {
    CreateThenLookupRow(db, stamped, recordId, now, author, versionId);
    CreateThenLookupVersion(db, stamped, recordId, now, author, versionId);
    var db' := CreateTx(db, stamped, recordId, now, author, versionId).value;
    assert db'.(records := db.records, versions := db.versions) == db;
    assert ChildrenOf(db', recordId) == ChildrenOf(db, recordId);
  }

  /** No stored row of any child table or of `record_versions` names `recordId`. */
  predicate Unreferenced(db: Db, recordId: string) {
    && (forall i :: 0 <= i < |db.examinations| ==> Get(db.examinations[i], "record_id") != Str(recordId))
    && (forall i :: 0 <= i < |db.prescriptions| ==> Get(db.prescriptions[i], "record_id") != Str(recordId))
    && (forall i :: 0 <= i < |db.operations| ==> Get(db.operations[i], "record_id") != Str(recordId))
    && (forall i :: 0 <= i < |db.attachments| ==> Get(db.attachments[i], "record_id") != Str(recordId))
    && (forall i :: 0 <= i < |db.versions| ==> db.versions[i].recordId != recordId)
  }

  /** When nothing in the store refers to the new id yet, the created record
      reads back with no children and version 1 as its only version. */
  lemma CreateThenLookupFresh(db: Db, stamped: Dict, recordId: string, now: string, author: string, versionId: string)
    requires WfDict(stamped) && "record_id" in stamped.vals && stamped.vals["record_id"] == Str(recordId)
    requires CreateTx(db, stamped, recordId, now, author, versionId).Ok?
    requires Unreferenced(db, recordId)
    ensures var view := Lookup(CreateTx(db, stamped, recordId, now, author, versionId).value, recordId, true);
      && view.Ok?
      && view.value.children == Children([], [], [], [])
      && view.value.versions.value == [VersionRow(versionId, recordId, 1, Content(stamped, None), stamped.keys, now, author)]
  {
    CreateThenLookup(db, stamped, recordId, now, author, versionId);
    UnreferencedNoChildren(db, recordId);
    var db' := CreateTx(db, stamped, recordId, now, author, versionId).value;
    var v := VersionRow(versionId, recordId, 1, Content(stamped, None), stamped.keys, now, author);
    VersionsOfFresh(db.versions, v, recordId);
    assert SortBy(VersionsOf(db'.versions, recordId), ByVersion) == [v];
  }

  /** A record nothing refers to has no children. */
  lemma UnreferencedNoChildren(db: Db, recordId: string)
    requires Unreferenced(db, recordId)
    ensures ChildrenOf(db, recordId) == Children([], [], [], [])
  {
    SelectByRecordNone(ExaminationResults, db.examinations, recordId);
    SelectByRecordNone(Prescriptions, db.prescriptions, recordId);
    SelectByRecordNone(OperationRecords, db.operations, recordId);
    SelectByRecordNone(RecordAttachments, db.attachments, recordId);
  }

  /** A version appended for a record with no versions is its only one. */
  lemma VersionsOfFresh(vs: seq<VersionRow>, v: VersionRow, recordId: string)
    requires forall i :: 0 <= i < |vs| ==> vs[i].recordId != recordId
    requires v.recordId == recordId
    ensures VersionsOf(vs + [v], recordId) == [v]
  {
    assert (vs + [v])[..|vs|] == vs;
    VersionsOfNone(vs, recordId);
  }

  /** A record no version row refers to has no versions. */
  lemma {:induction false} VersionsOfNone(vs: seq<VersionRow>, recordId: string)
    requires forall i :: 0 <= i < |vs| ==> vs[i].recordId != recordId
    ensures VersionsOf(vs, recordId) == []
    decreases |vs|
  {
    if vs != [] {
      var init := vs[..|vs| - 1];
      assert forall i :: 0 <= i < |init| ==> init[i] == vs[i];
      VersionsOfNone(init, recordId);
    }
  }

  lemma CreateThenLookupRow(db: Db, stamped: Dict, recordId: string, now: string, author: string, versionId: string)
    requires WfDict(stamped) && "record_id" in stamped.vals && stamped.vals["record_id"] == Str(recordId)
    requires CreateTx(db, stamped, recordId, now, author, versionId).Ok?
    ensures var view := Lookup(CreateTx(db, stamped, recordId, now, author, versionId).value, recordId, true);
      && view.Ok?
      && (forall c :: c in stamped.vals ==> c in view.value.row.vals && view.value.row.vals[c] == stamped.vals[c])
  {
    var db' := CreateTx(db, stamped, recordId, now, author, versionId).value;
    CreateThenFind(db, stamped, recordId, now, author, versionId);
    var row := NewRow(MedicalRecords, stamped);
    assert db'.records[|db.records|] == row;
    LookupRowAt(db', recordId, true, |db.records|);
    AsDictNewRow(MedicalRecords, stamped);
  }

  /** The row of a view is the first stored record with that id. */
  lemma LookupRowAt(db: Db, recordId: string, includeVersions: bool, i: nat)
    requires FindRecord(db.records, recordId) == Some(i)
    ensures Lookup(db, recordId, includeVersions).Ok?
    ensures Lookup(db, recordId, includeVersions).value.row == AsDict(MedicalRecords, db.records[i])
  {
  }

  lemma CreateThenLookupVersion(db: Db, stamped: Dict, recordId: string, now: string, author: string, versionId: string)
    requires WfDict(stamped) && "record_id" in stamped.vals && stamped.vals["record_id"] == Str(recordId)
    requires CreateTx(db, stamped, recordId, now, author, versionId).Ok?
    ensures var view := Lookup(CreateTx(db, stamped, recordId, now, author, versionId).value, recordId, true);
      && view.Ok?
      && VersionRow(versionId, recordId, 1, Content(stamped, None), stamped.keys, now, author) in view.value.versions.value
  {
    var db' := CreateTx(db, stamped, recordId, now, author, versionId).value;
    CreateThenFind(db, stamped, recordId, now, author, versionId);
    var v := VersionRow(versionId, recordId, 1, Content(stamped, None), stamped.keys, now, author);
    assert db'.versions[|db.versions|] == v;
    LookupVersions(db', recordId, v);
  }

  /** A record id that is already stored cannot be created again. */
  lemma CreateReusedIdFails(db: Db, stamped: Dict, recordId: string, now: string, author: string, versionId: string)
    requires WfDict(stamped) && "record_id" in stamped.vals && stamped.vals["record_id"] == Str(recordId)
    requires Lookup(db, recordId, false).Ok?
    ensures CreateTx(db, stamped, recordId, now, author, versionId).Err?
  {
    MedicalRecordsWellFormed();
    var i := FindRecord(db.records, recordId).value;
    assert Get(db.records[i], "record_id") == NewRow(MedicalRecords, stamped)["record_id"];
    assert KeyTaken(MedicalRecords, db.records, NewRow(MedicalRecords, stamped)["record_id"], -1);
  }

  /** A create succeeds when the dict names only columns and fills every
      NOT NULL column, and neither its record id nor the version id is
      stored yet. */
  lemma CreateSucceeds(db: Db, stamped: Dict, recordId: string, now: string, author: string, versionId: string)
    requires WfDict(stamped) && "record_id" in stamped.vals && stamped.vals["record_id"] == Str(recordId)
    requires forall k :: k in stamped.keys ==> k in MedicalRecords.columns
    requires forall c :: c in MedicalRecords.notNull ==> c in stamped.vals && stamped.vals[c] != Null
    requires Lookup(db, recordId, false).Err? && !VersionIdTaken(db, versionId)
    ensures CreateTx(db, stamped, recordId, now, author, versionId).Ok?
  {
    MedicalRecordsWellFormed();
    assert NewRow(MedicalRecords, stamped)[MedicalRecords.key] == Str(recordId);
    InsertRowSucceeds(MedicalRecords, db.records, stamped);
  }

  // ---------------------------------------------------------------------
  // update_record

  /** The audit keys `update_record` writes into the caller's dict. */
  function UpdateStamps(now: string, author: string): (d: Dict)
    ensures WfDict(d)
  {
    Dict(["updated_at", "updated_by"], map["updated_at" := Str(now), "updated_by" := Str(author)])
  }

  /** `len(current_record.get("versions", [])) + 1`. */
  function NextVersion(current: RecordView): int {
    (if current.versions.Some? then |current.versions.value| else 0) + 1
  }

  /** The version row `update_record` appends after fetching `current`. */
  function UpdateVersion(recordId: string, current: RecordView, stamped: Dict, now: string, author: string, versionId: string): VersionRow
    requires WfDict(stamped) && WfDict(current.row)
  {
    VersionRow(versionId, recordId, NextVersion(current),
               Content(Update(current.row, stamped), Some(current.children)), stamped.keys, now, author)
  }

  /** The whole of `update_record` on the store: fetch the view without its
      versions (failing for an unknown id before anything is written), then
      the UPDATE and the version INSERT, committed together. */
  function UpdateRecordTx(db: Db, recordId: string, stamped: Dict, now: string, author: string, versionId: string): (r: Result<Db, DbError>)
    requires WfDict(stamped)
    ensures Lookup(db, recordId, false).Err? <==> FindRecord(db.records, recordId).None?
    ensures Lookup(db, recordId, false).Err? ==> r == Err(NoSuchRecord(recordId))
    ensures r.Ok? ==> FindRecord(db.records, recordId).Some? && WfTable(MedicalRecords)
    ensures r.Ok? ==>
      var i := FindRecord(db.records, recordId).value;
      && UpdateAt(MedicalRecords, db.records, i, stamped).Ok?
      && r.value == db.(records := UpdateAt(MedicalRecords, db.records, i, stamped).value,
                       versions := db.versions + [UpdateVersion(recordId, Lookup(db, recordId, false).value, stamped, now, author, versionId)])
      && !VersionIdTaken(db, versionId)
  {
    MedicalRecordsWellFormed();
    match FindRecord(db.records, recordId)
    case None => Err(NoSuchRecord(recordId))
    case Some(i) =>
      var current := Lookup(db, recordId, false).value;
      match UpdateAt(MedicalRecords, db.records, i, stamped)
      case Err(e) => Err(e)
      case Ok(rows) =>
        if VersionIdTaken(db, versionId) then Err(UniqueFailed)
        else Ok(db.(records := rows, versions := db.versions + [UpdateVersion(recordId, current, stamped, now, author, versionId)]))
  }

  /** On a stored record the update succeeds exactly when its UPDATE does and
      the version id is free; otherwise it fails with the UPDATE's error, or
      with a UNIQUE failure for a taken version id. */
  lemma UpdateRecordTxOutcome(db: Db, recordId: string, stamped: Dict, now: string, author: string, versionId: string, i: nat)
    requires WfDict(stamped) && FindRecord(db.records, recordId) == Some(i)
    ensures (MedicalRecordsWellFormed();
      var r, u := UpdateRecordTx(db, recordId, stamped, now, author, versionId), UpdateAt(MedicalRecords, db.records, i, stamped);
      && (r.Ok? <==> u.Ok? && !VersionIdTaken(db, versionId))
      && (u.Err? ==> r == Err(u.error))
      && (u.Ok? && VersionIdTaken(db, versionId) ==> r == Err(UniqueFailed)))
  {
  }

  /** A successful update leaves every other record as it was. */
  lemma UpdateKeepsOtherRecords(db: Db, recordId: string, stamped: Dict, now: string, author: string, versionId: string)
    requires TableValid(MedicalRecords, db.records) && WfDict(stamped)
    requires UpdateRecordTx(db, recordId, stamped, now, author, versionId).Ok?
    ensures var db' := UpdateRecordTx(db, recordId, stamped, now, author, versionId).value;
      && |db'.records| == |db.records|
      && (forall i :: 0 <= i < |db.records| && Get(db.records[i], "record_id") != Str(recordId) ==> db'.records[i] == db.records[i])
  {
    var k := FindRecord(db.records, recordId).value;
    var rows := UpdateAt(MedicalRecords, db.records, k, stamped).value;
    assert UpdateRecordTx(db, recordId, stamped, now, author, versionId).value.records == rows;
    assert RowFits(MedicalRecords, db.records[k]);
    UpdateAtEffect(MedicalRecords, db.records, k, stamped);
    assert forall i :: 0 <= i < |db.records| && i != k ==> rows[i] == db.records[i];
  }

  /** In the updated record, exactly the columns the update names take the
      update's values; every other column keeps its value. */
  lemma UpdateRewritesColumns(db: Db, recordId: string, stamped: Dict, now: string, author: string, versionId: string)
    requires TableValid(MedicalRecords, db.records) && WfDict(stamped)
    requires UpdateRecordTx(db, recordId, stamped, now, author, versionId).Ok?
    ensures var db' := UpdateRecordTx(db, recordId, stamped, now, author, versionId).value;
      forall i :: 0 <= i < |db.records| && Get(db.records[i], "record_id") == Str(recordId) ==>
        forall c :: c in MedicalRecords.columns ==>
          Get(db'.records[i], c) == (if c in stamped.vals then stamped.vals[c] else Get(db.records[i], c))
  {
    var k := FindRecord(db.records, recordId).value;
    assert RowFits(MedicalRecords, db.records[k]);
    UpdateAtEffect(MedicalRecords, db.records, k, stamped);
    forall i | 0 <= i < |db.records| && Get(db.records[i], "record_id") == Str(recordId)
      ensures i == k
    {
      KeyIdentifiesRow(MedicalRecords, db.records, k, i);
    }
  }

  /** A successful update appends one version, numbered 1 because the view
      was fetched without versions, whose content is that view merged with
      the update and whose changed fields are the update's keys; the child
      tables do not change. */
  lemma UpdateAppendsVersionOne(db: Db, recordId: string, stamped: Dict, now: string, author: string, versionId: string)
    requires WfDict(stamped)
    requires UpdateRecordTx(db, recordId, stamped, now, author, versionId).Ok?
    ensures var db' := UpdateRecordTx(db, recordId, stamped, now, author, versionId).value;
      var current := Lookup(db, recordId, false).value;
      && var v := UpdateVersion(recordId, current, stamped, now, author, versionId);
      && db'.versions == db.versions + [v]
      && v.version == 1 && v.changedFields == stamped.keys
      && v.content == Content(Update(current.row, stamped), Some(current.children))
      && db'.(records := db.records, versions := db.versions) == db
  {
    assert Lookup(db, recordId, false).value.versions.None?;
  }

  /** An update of a stored record succeeds when it names only columns, sets
      no NOT NULL column to NULL, keeps the record id, and the version id is
      not stored yet. */
  lemma UpdateSucceeds(db: Db, recordId: string, stamped: Dict, now: string, author: string, versionId: string)
    requires TableValid(MedicalRecords, db.records) && WfDict(stamped)
    requires Lookup(db, recordId, false).Ok?
    requires forall k :: k in stamped.keys ==> k in MedicalRecords.columns
    requires forall c :: c in stamped.vals && c in MedicalRecords.notNull ==> stamped.vals[c] != Null
    requires "record_id" in stamped.vals ==> stamped.vals["record_id"] == Str(recordId)
    requires !VersionIdTaken(db, versionId)
    ensures UpdateRecordTx(db, recordId, stamped, now, author, versionId).Ok?
  {
    MedicalRecordsWellFormed();
    var i := FindRecord(db.records, recordId).value;
    UpdateAtSucceeds(MedicalRecords, db.records, i, stamped);
  }

  lemma UpdateRecordKeepsValid(db: Db, recordId: string, stamped: Dict, now: string, author: string, versionId: string)
    requires DbValid(db) && WfDict(stamped)
    requires UpdateRecordTx(db, recordId, stamped, now, author, versionId).Ok?
    ensures DbValid(UpdateRecordTx(db, recordId, stamped, now, author, versionId).value)
  {
    MedicalRecordsWellFormed();
    var k := FindRecord(db.records, recordId).value;
    Tables.UpdateKeepsValid(MedicalRecords, db.records, k, stamped);
    AppendFreshVersion(db.versions, UpdateVersion(recordId, Lookup(db, recordId, false).value, stamped, now, author, versionId));
  }

  // ---------------------------------------------------------------------
  // the add_* appenders

  /** The kind of child an `add_*` method inserts, with the keys it stamps. */
  datatype ChildKind = Examination | Prescription | Operation | Attachment

  function ChildTable(k: ChildKind): Table {
    match k
    case Examination => ExaminationResults
    case Prescription => Prescriptions
    case Operation => OperationRecords
    case Attachment => RecordAttachments
  }

  lemma ChildTableWellFormed(k: ChildKind)
    ensures WfTable(ChildTable(k)) && ChildTable(k).key != "record_id" && "record_id" in ChildTable(k).columns
  {
    match k
    case Examination => ExaminationsWellFormed();
    case Prescription => PrescriptionsWellFormed();
    case Operation => OperationsWellFormed();
    case Attachment => AttachmentsWellFormed();
  }

  function ChildRows(db: Db, k: ChildKind): seq<Row> {
    match k
    case Examination => db.examinations
    case Prescription => db.prescriptions
    case Operation => db.operations
    case Attachment => db.attachments
  }

  function WithChildRows(db: Db, k: ChildKind, rows: seq<Row>): (r: Db)
    ensures ChildRows(r, k) == rows
    ensures r.records == db.records && r.versions == db.versions
    ensures forall o :: o != k ==> ChildRows(r, o) == ChildRows(db, o)
  {
    match k
    case Examination => db.(examinations := rows)
    case Prescription => db.(prescriptions := rows)
    case Operation => db.(operations := rows)
    case Attachment => db.(attachments := rows)
  }

  /** The id prefix of each kind: E, P, O, A. */
  function IdPrefix(k: ChildKind): char {
    match k
    case Examination => 'E'
    case Prescription => 'P'
    case Operation => 'O'
    case Attachment => 'A'
  }

  /** The assignments an `add_*` method makes to the caller's dict, in order:
      the id, the time, the author, and for a prescription its status. */
  function ChildStamps(k: ChildKind, childId: string, now: string, author: string): (d: Dict)
    ensures WfDict(d)
    ensures ChildTable(k).key in d.vals && d.vals[ChildTable(k).key] == Str(childId)
  {
    match k
    case Examination =>
      Dict(["exam_id", "created_at", "created_by"],
           map["exam_id" := Str(childId), "created_at" := Str(now), "created_by" := Str(author)])
    case Prescription =>
      Dict(["prescription_id", "prescribed_at", "prescribed_by", "status"],
           map["prescription_id" := Str(childId), "prescribed_at" := Str(now),
               "prescribed_by" := Str(author), "status" := Str("已开具")])
    case Operation =>
      Dict(["operation_id", "created_at", "created_by"],
           map["operation_id" := Str(childId), "created_at" := Str(now), "created_by" := Str(author)])
    case Attachment =>
      Dict(["attachment_id", "uploaded_at", "uploaded_by"],
           map["attachment_id" := Str(childId), "uploaded_at" := Str(now), "uploaded_by" := Str(author)])
  }

  /** The child id: its prefix and the fourteen digits of the clock reading. */
  function ChildIdAt(k: ChildKind, idClock: DateTime): (id: string)
    requires ValidClock(idClock)
    ensures |id| == 15 && id[0] == IdPrefix(k) && forall i :: 1 <= i < 15 ==> IsDigit(id[i])
  {
    [IdPrefix(k)] + CompactStamp(idClock)
  }

  /** The one INSERT of an `add_*` method. */
  function AddChildTx(db: Db, k: ChildKind, stamped: Dict): (r: Result<Db, DbError>)
    requires WfDict(stamped)
    ensures r.Ok? ==> ChildRows(r.value, k) == ChildRows(db, k) + [NewRow(ChildTable(k), stamped)]
    ensures r.Ok? ==> r.value.records == db.records && r.value.versions == db.versions
    ensures r.Ok? ==> forall o :: o != k ==> ChildRows(r.value, o) == ChildRows(db, o)
    ensures (ChildTableWellFormed(k);
      && (r.Ok? <==> InsertRow(ChildTable(k), ChildRows(db, k), stamped).Ok?)
      && (InsertRow(ChildTable(k), ChildRows(db, k), stamped).Err? ==> r == Err(InsertRow(ChildTable(k), ChildRows(db, k), stamped).error)))
  {
    ChildTableWellFormed(k);
    match InsertRow(ChildTable(k), ChildRows(db, k), stamped)
    case Err(e) => Err(e)
    case Ok(rows) => Ok(WithChildRows(db, k, rows))
  }

  /** A child insert succeeds when the dict names only columns of its table,
      fills every NOT NULL column, and its id is not stored yet. */
  lemma AddChildSucceeds(db: Db, k: ChildKind, stamped: Dict)
    requires WfDict(stamped)
    requires forall c :: c in stamped.keys ==> c in ChildTable(k).columns
    requires forall c :: c in ChildTable(k).notNull ==> c in stamped.vals && stamped.vals[c] != Null
    requires forall i :: 0 <= i < |ChildRows(db, k)| ==>
      Get(ChildRows(db, k)[i], ChildTable(k).key) != Get(NewRow(ChildTable(k), stamped), ChildTable(k).key)
    ensures AddChildTx(db, k, stamped).Ok?
  {
    ChildTableWellFormed(k);
  }

  lemma AddChildKeepsValid(db: Db, k: ChildKind, stamped: Dict)
    requires DbValid(db) && WfDict(stamped) && AddChildTx(db, k, stamped).Ok?
    ensures DbValid(AddChildTx(db, k, stamped).value)
  {
    ChildTableWellFormed(k);
    InsertKeepsValid(ChildTable(k), ChildRows(db, k), stamped);
  }

  /** The child list of one kind in a record's view is that record's
      selection from the table of that kind. */
  lemma ChildListOf(db: Db, k: ChildKind, recordId: string)
    ensures ChildList(ChildrenOf(db, recordId), k) == SelectByRecord(ChildTable(k), ChildRows(db, k), recordId)
  {
  }

  /** A child appended to one record leaves the view of every other record
      exactly as it was. */
  lemma AddChildKeepsOtherViews(db: Db, k: ChildKind, stamped: Dict, other: string, includeVersions: bool)
    requires WfDict(stamped) && AddChildTx(db, k, stamped).Ok?
    requires Get(NewRow(ChildTable(k), stamped), "record_id") != Str(other)
    ensures Lookup(AddChildTx(db, k, stamped).value, other, includeVersions) == Lookup(db, other, includeVersions)
  {
    var db' := AddChildTx(db, k, stamped).value;
    ChildrenAppendOther(db, db', k, NewRow(ChildTable(k), stamped), other);
    assert db'.records == db.records && db'.versions == db.versions;
  }

  /** Appending a row of another record to one child table leaves a
      record's children unchanged. */
  lemma ChildrenAppendOther(db: Db, db': Db, k: ChildKind, row: Row, other: string)
    requires ChildRows(db', k) == ChildRows(db, k) + [row]
    requires forall o :: o != k ==> ChildRows(db', o) == ChildRows(db, o)
    requires Get(row, "record_id") != Str(other)
    ensures ChildrenOf(db', other) == ChildrenOf(db, other)
  {
    SelectByRecordAppendOther(ChildTable(k), ChildRows(db, k), row, other);
    assert forall o :: o != k ==> ChildRows(db', o) == ChildRows(db, o);
    assert ChildRows(db', Examination) == ChildRows(db, Examination) || k == Examination;
    assert ChildRows(db', Prescription) == ChildRows(db, Prescription) || k == Prescription;
    assert ChildRows(db', Operation) == ChildRows(db, Operation) || k == Operation;
    assert ChildRows(db', Attachment) == ChildRows(db, Attachment) || k == Attachment;
  }

  /** A child appended to an existing record shows up last in that record's
      child list of its kind. */
  lemma AddChildShowsInView(db: Db, k: ChildKind, stamped: Dict, recordId: string)
    requires WfDict(stamped) && AddChildTx(db, k, stamped).Ok?
    requires Get(NewRow(ChildTable(k), stamped), "record_id") == Str(recordId)
    ensures var db' := AddChildTx(db, k, stamped).value;
      && (Lookup(db', recordId, false).Ok? <==> Lookup(db, recordId, false).Ok?)
      && ChildList(ChildrenOf(db', recordId), k)
           == ChildList(ChildrenOf(db, recordId), k) + [AsDict(ChildTable(k), NewRow(ChildTable(k), stamped))]
  {
    var db' := AddChildTx(db, k, stamped).value;
    var row := NewRow(ChildTable(k), stamped);
    ChildListOf(db, k, recordId);
    ChildListOf(db', k, recordId);
    var n := |ChildRows(db, k)|;
    assert ChildRows(db', k) == ChildRows(db, k) + [row];
    assert ChildRows(db', k)[..n] == ChildRows(db, k);
  }

  function ChildList(c: Children, k: ChildKind): seq<Dict> {
    match k
    case Examination => c.examinations
    case Prescription => c.prescriptions
    case Operation => c.operations
    case Attachment => c.attachments
  }

  // ---------------------------------------------------------------------
  // export_records

  datatype ExportTarget = JsonFile | ExcelFile | ZipArchive

  /** The first of `recordIds` with no record. */
  function FirstMissing(db: Db, recordIds: seq<string>): (r: Option<string>)
    ensures r.None? <==> forall id :: id in recordIds ==> Lookup(db, id, false).Ok?
    ensures r.Some? ==> r.value in recordIds && Lookup(db, r.value, false).Err?
  {
    if recordIds == [] then None
    else if Lookup(db, recordIds[0], false).Err? then Some(recordIds[0])
    else FirstMissing(db, recordIds[1..])
  }

  /** What `export_records` writes, or why it fails: every record is fetched
      before the format is looked at. */
  function ExportDispatch(db: Db, recordIds: seq<string>, format: string, includeAttachments: bool): (r: Result<ExportTarget, DbError>)
    ensures (forall id :: id in recordIds ==> Lookup(db, id, false).Ok?) ==>
      (r.Ok? <==> format == "json" || format == "excel")
    ensures r.Ok? && r.value == ZipArchive <==>
      (forall id :: id in recordIds ==> Lookup(db, id, false).Ok?) && format == "excel" && includeAttachments
    ensures r.Err? && !r.error.UnsupportedFormat? ==> exists id :: id in recordIds && r.error == NoSuchRecord(id)
    ensures FirstMissing(db, recordIds).Some? ==> r == Err(NoSuchRecord(FirstMissing(db, recordIds).value))
    ensures r == Ok(JsonFile) <==> FirstMissing(db, recordIds).None? && format == "json"
    ensures r == Ok(ExcelFile) <==> FirstMissing(db, recordIds).None? && format == "excel" && !includeAttachments
    ensures FirstMissing(db, recordIds).None? && format != "json" && format != "excel" ==> r == Err(UnsupportedFormat(format))
  {
    match FirstMissing(db, recordIds)
    case Some(id) => Err(NoSuchRecord(id))
    case None =>
      if format == "json" then Ok(JsonFile)
      else if format == "excel" then Ok(if includeAttachments then ZipArchive else ExcelFile)
      else Err(UnsupportedFormat(format))
  }
}
