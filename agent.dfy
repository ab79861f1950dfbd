/** `MedicalRecordAgent`: the object through which records are created,
    read, updated, given children, searched and exported. Its fields stand
    for the six tables of the database file; each method runs its SQL as
    one transaction over them. The dicts callers pass in are objects the
    methods stamp in place. */
module Agent {
  import opened Common
  import opened Dates
  import opened Tables
  import opened Records
  import opened Search

  /** A caller's `dict`, which the `create_record`, `update_record` and
      `add_*` methods write audit keys into. */
  class MutableDict {
    var d: Dict

    constructor (init: Dict)
      requires WfDict(init)
      ensures d == init
    {
      d := init;
    }
  }

  class MedicalRecordAgent {
    var records: seq<Row>
    var versions: seq<VersionRow>
    var examinations: seq<Row>
    var prescriptions: seq<Row>
    var operations: seq<Row>
    var attachments: seq<Row>

    /** The database file as it stands. */
    function State(): Db
      reads this
    {
      Db(records, versions, examinations, prescriptions, operations, attachments)
    }

    /** Every table holds rows of its schema with distinct keys. */
    predicate Valid()
      reads this
    {
      DbValid(State())
    }

    /** An agent over a freshly initialised, empty database. */
    constructor ()
      ensures State() == EmptyDb && Valid()
    {
      records, versions := [], [];
      examinations, prescriptions, operations, attachments := [], [], [], [];
      EmptyDbValid();
    }

    /** Replaces every table by the one in `db`. */
    method Commit(db: Db)
      modifies this
      ensures State() == db
    {
      records, versions := db.records, db.versions;
      examinations, prescriptions := db.examinations, db.prescriptions;
      operations, attachments := db.operations, db.attachments;
    }

    /** `create_record(record_data, created_by)`. The id is read from
        `idClock`, the audit times from `clock`, the version id is the uuid.
        The caller's dict is stamped before the INSERT, so it stays stamped
        when the INSERT fails. */
    method CreateRecord(data: MutableDict, createdBy: string, idClock: DateTime, clock: DateTime, versionId: string)
      returns (r: Result<string, DbError>)
      requires ValidClock(idClock) && ValidClock(clock) && WfDict(data.d)
      modifies this, data
      ensures data.d == Update(old(data.d), CreateStamps(RecordIdAt(idClock), ClockStamp(clock), createdBy))
      ensures var tx := CreateTx(old(State()), data.d, RecordIdAt(idClock), ClockStamp(clock), createdBy, versionId);
        && (tx.Ok? ==> r == Ok(RecordIdAt(idClock)) && State() == tx.value)
        && (tx.Err? ==> r == Err(tx.error) && State() == old(State()))
      ensures old(Valid()) ==> Valid()
      ensures r.Ok? ==> Lookup(State(), r.value, true).Ok?
    {
      var db := State();
      var recordId := RecordIdAt(idClock);
      var now := ClockStamp(clock);
      data.d := Update(data.d, CreateStamps(recordId, now, createdBy));
      assert State() == db;
      CreateStampsCallerDict(old(data.d), recordId, now, createdBy);
      var tx := CreateTx(db, data.d, recordId, now, createdBy, versionId);
      if tx.Ok? {
        if DbValid(db) {
          CreateKeepsValid(db, data.d, recordId, now, createdBy, versionId);
        }
        CreateThenLookup(db, data.d, recordId, now, createdBy, versionId);
        Commit(tx.value);
        r := Ok(recordId);
      } else {
        r := Err(tx.error);
      }
    }

    /** `get_record(record_id, include_versions)`. */
    method GetRecord(recordId: string, includeVersions: bool) returns (r: Result<RecordView, DbError>)
      ensures r == Lookup(State(), recordId, includeVersions)
      ensures r.Ok? ==> r.value.row.vals["record_id"] == Str(recordId)
    {
      r := Lookup(State(), recordId, includeVersions);
    }

    /** `update_record(record_id, update_data, updated_by)`. An unknown id
        fails before the caller's dict is touched; otherwise the dict is
        stamped, and the UPDATE and the version INSERT commit together. */
    method UpdateRecord(recordId: string, data: MutableDict, updatedBy: string, clock: DateTime, versionId: string)
      returns (r: Result<(), DbError>)
      requires ValidClock(clock) && WfDict(data.d)
      modifies this, data
      ensures Lookup(old(State()), recordId, false).Err? ==>
        r == Err(NoSuchRecord(recordId)) && data.d == old(data.d) && State() == old(State())
      ensures Lookup(old(State()), recordId, false).Ok? ==>
        data.d == Update(old(data.d), UpdateStamps(ClockStamp(clock), updatedBy))
      ensures var tx := UpdateRecordTx(old(State()), recordId, data.d, ClockStamp(clock), updatedBy, versionId);
        && (tx.Ok? ==> r == Ok(()) && State() == tx.value)
        && (tx.Err? ==> r == Err(tx.error) && State() == old(State()))
      ensures old(Valid()) ==> Valid()
    {
      var db := State();
      var current := GetRecord(recordId, false);
      if current.Err? {
        assert Lookup(db, recordId, false).Err?;
        r := Err(current.error);
        return;
      }
      assert Lookup(db, recordId, false).Ok?;
      var now := ClockStamp(clock);
      data.d := Update(data.d, UpdateStamps(now, updatedBy));
      assert State() == db;
      var tx := UpdateRecordTx(db, recordId, data.d, now, updatedBy, versionId);
      if tx.Ok? {
        if DbValid(db) {
          UpdateRecordKeepsValid(db, recordId, data.d, now, updatedBy, versionId);
        }
        Commit(tx.value);
        r := Ok(());
      } else {
        r := Err(tx.error);
      }
    }

    /** The body shared by the four `add_*` methods: stamp the id (from
        `idClock`), the time (from `clock`) and the author into the caller's
        dict, then INSERT it into the table of its kind. Like the source
        methods it returns nothing on success: the caller reads the new id
        from its own dict. */
    method AddChild(k: ChildKind, data: MutableDict, author: string, idClock: DateTime, clock: DateTime)
      returns (r: Result<(), DbError>)
      requires ValidClock(idClock) && ValidClock(clock) && WfDict(data.d)
      modifies this, data
      ensures data.d == Update(old(data.d), ChildStamps(k, ChildIdAt(k, idClock), ClockStamp(clock), author))
      ensures var tx := AddChildTx(old(State()), k, data.d);
        && (tx.Ok? ==> r == Ok(()) && State() == tx.value)
        && (tx.Err? ==> r == Err(tx.error) && State() == old(State()))
      ensures old(Valid()) ==> Valid()
    {
      var db := State();
      var childId := ChildIdAt(k, idClock);
      data.d := Update(data.d, ChildStamps(k, childId, ClockStamp(clock), author));
      assert State() == db;
      var tx := AddChildTx(db, k, data.d);
      if tx.Ok? {
        if DbValid(db) {
          AddChildKeepsValid(db, k, data.d);
        }
        Commit(tx.value);
        r := Ok(());
      } else {
        r := Err(tx.error);
      }
    }

    /** `add_examination(exam_data, created_by)`. */
    method AddExamination(data: MutableDict, createdBy: string, idClock: DateTime, clock: DateTime)
      returns (r: Result<(), DbError>)
      requires ValidClock(idClock) && ValidClock(clock) && WfDict(data.d)
      modifies this, data
      ensures data.d == Update(old(data.d), ChildStamps(Examination, ChildIdAt(Examination, idClock), ClockStamp(clock), createdBy))
      ensures var tx := AddChildTx(old(State()), Examination, data.d);
        && (tx.Ok? ==> r == Ok(()) && State() == tx.value)
        && (tx.Err? ==> r == Err(tx.error) && State() == old(State()))
      ensures old(Valid()) ==> Valid()
    {
      r := AddChild(Examination, data, createdBy, idClock, clock);
    }

    /** `add_prescription(prescription_data, prescribed_by)`. */
    method AddPrescription(data: MutableDict, prescribedBy: string, idClock: DateTime, clock: DateTime)
      returns (r: Result<(), DbError>)
      requires ValidClock(idClock) && ValidClock(clock) && WfDict(data.d)
      modifies this, data
      ensures data.d == Update(old(data.d), ChildStamps(Prescription, ChildIdAt(Prescription, idClock), ClockStamp(clock), prescribedBy))
      ensures var tx := AddChildTx(old(State()), Prescription, data.d);
        && (tx.Ok? ==> r == Ok(()) && State() == tx.value)
        && (tx.Err? ==> r == Err(tx.error) && State() == old(State()))
      ensures old(Valid()) ==> Valid()
    {
      r := AddChild(Prescription, data, prescribedBy, idClock, clock);
    }

    /** `add_operation_record(operation_data, created_by)`. */
    method AddOperationRecord(data: MutableDict, createdBy: string, idClock: DateTime, clock: DateTime)
      returns (r: Result<(), DbError>)
      requires ValidClock(idClock) && ValidClock(clock) && WfDict(data.d)
      modifies this, data
      ensures data.d == Update(old(data.d), ChildStamps(Operation, ChildIdAt(Operation, idClock), ClockStamp(clock), createdBy))
      ensures var tx := AddChildTx(old(State()), Operation, data.d);
        && (tx.Ok? ==> r == Ok(()) && State() == tx.value)
        && (tx.Err? ==> r == Err(tx.error) && State() == old(State()))
      ensures old(Valid()) ==> Valid()
    {
      r := AddChild(Operation, data, createdBy, idClock, clock);
    }

    /** `add_attachment(attachment_data, uploaded_by)`. */
    method AddAttachment(data: MutableDict, uploadedBy: string, idClock: DateTime, clock: DateTime)
      returns (r: Result<(), DbError>)
      requires ValidClock(idClock) && ValidClock(clock) && WfDict(data.d)
      modifies this, data
      ensures data.d == Update(old(data.d), ChildStamps(Attachment, ChildIdAt(Attachment, idClock), ClockStamp(clock), uploadedBy))
      ensures var tx := AddChildTx(old(State()), Attachment, data.d);
        && (tx.Ok? ==> r == Ok(()) && State() == tx.value)
        && (tx.Err? ==> r == Err(tx.error) && State() == old(State()))
      ensures old(Valid()) ==> Valid()
    {
      r := AddChild(Attachment, data, uploadedBy, idClock, clock);
    }

    /** `search_records(search_params)`: a page of the matching records, in
        the requested order, each a stored record meeting every filter. */
    method SearchRecords(p: SearchParams) returns (r: Result<seq<Dict>, DbError>)
      ensures r == Search.Search(p, records)
      ensures r.Ok? ==> forall d :: d in r.value ==>
        exists row :: row in records && Matches(p, row) && d == AsDict(MedicalRecords, row)
    {
      r := Search.Search(p, records);
      if r.Ok? {
        forall d | d in r.value
          ensures exists row :: row in records && Matches(p, row) && d == AsDict(MedicalRecords, row)
        {
          SearchSound(p, records, d);
        }
      }
    }

    /** `export_records(record_ids, format, include_attachments)`: which file
        is written, or why nothing is. */
    method ExportRecords(recordIds: seq<string>, format: string, includeAttachments: bool)
      returns (r: Result<ExportTarget, DbError>)
      ensures r == ExportDispatch(State(), recordIds, format, includeAttachments)
      ensures r.Ok? ==> forall id :: id in recordIds ==> Lookup(State(), id, false).Ok?
    {
      r := ExportDispatch(State(), recordIds, format, includeAttachments);
    }
  }
}
