/** The SQLite tables behind the record store, as in-memory rows, and what
    INSERT and UPDATE do to them: the column check made when a statement is
    prepared, then NOT NULL column by column, then the primary key. */
module Tables {
  import opened Common

  /** A table's schema: its columns in declaration order, its TEXT PRIMARY
      KEY (which, as SQLite allows, may hold NULL) and its NOT NULL columns. */
  datatype Table = Table(name: string, columns: seq<string>, key: string, notNull: set<string>)

  /** A stored row: a value for every column. */
  type Row = map<string, Value>

  const MedicalRecords: Table := Table("medical_records",
    ["record_id", "patient_id", "record_type", "visit_date", "department", "doctor",
     "chief_complaint", "present_illness", "past_history", "allergic_history",
     "physical_examination", "diagnosis", "treatment_plan", "record_status",
     "created_at", "updated_at", "created_by", "updated_by"],
    "record_id",
    {"patient_id", "record_type", "visit_date", "department", "doctor", "diagnosis",
     "record_status", "created_at", "updated_at", "created_by", "updated_by"})

  const ExaminationResults: Table := Table("examination_results",
    ["exam_id", "record_id", "exam_type", "exam_date", "exam_department", "exam_doctor",
     "exam_result", "exam_conclusion", "notes", "created_at", "created_by"],
    "exam_id",
    {"record_id", "exam_type", "exam_date", "exam_department", "exam_doctor", "exam_result",
     "created_at", "created_by"})

  const Prescriptions: Table := Table("prescriptions",
    ["prescription_id", "record_id", "prescription_type", "medication_name", "specification",
     "dosage", "frequency", "duration", "usage", "quantity", "unit", "notes", "status",
     "prescribed_at", "prescribed_by"],
    "prescription_id",
    {"record_id", "prescription_type", "medication_name", "specification", "dosage",
     "frequency", "duration", "usage", "quantity", "unit", "status", "prescribed_at",
     "prescribed_by"})

  const OperationRecords: Table := Table("operation_records",
    ["operation_id", "record_id", "operation_name", "operation_date", "preoperative_diagnosis",
     "postoperative_diagnosis", "operation_level", "surgeon", "assistant", "anesthesiologist",
     "anesthesia_method", "operation_description", "blood_loss", "notes", "created_at",
     "created_by"],
    "operation_id",
    {"record_id", "operation_name", "operation_date", "preoperative_diagnosis",
     "postoperative_diagnosis", "operation_level", "surgeon", "created_at", "created_by"})

  const RecordAttachments: Table := Table("record_attachments",
    ["attachment_id", "record_id", "file_name", "file_type", "file_path", "file_size",
     "uploaded_at", "uploaded_by"],
    "attachment_id",
    {"record_id", "file_name", "file_type", "file_path", "file_size", "uploaded_at",
     "uploaded_by"})

  /** The schemas themselves are well formed. */
  predicate WfTable(t: Table) {
    Distinct(t.columns) && t.key in t.columns && forall c :: c in t.notNull ==> c in t.columns
  }

  /** Each column from `lo` up to `hi` differs from every later one. */
  predicate ColumnsDistinctFrom(cs: seq<string>, lo: nat, hi: nat) {
    forall i, j :: lo <= i < hi && i < j < |cs| ==> cs[i] != cs[j]
  }

  lemma MedicalRecordsWellFormed()
    ensures WfTable(MedicalRecords)
  {
    MedicalRecordsColumnsFirst();
    MedicalRecordsColumnsMiddle();
    MedicalRecordsColumnsLast();
  }

  lemma MedicalRecordsColumnsFirst()
    ensures ColumnsDistinctFrom(MedicalRecords.columns, 0, 3)
  {
  }

  lemma MedicalRecordsColumnsMiddle()
    ensures ColumnsDistinctFrom(MedicalRecords.columns, 3, 7)
  {
  }

  lemma MedicalRecordsColumnsLast()
    ensures ColumnsDistinctFrom(MedicalRecords.columns, 7, |MedicalRecords.columns|)
  {
  }

  lemma ChildSchemasWellFormed()
    ensures WfTable(ExaminationResults) && WfTable(Prescriptions)
    ensures WfTable(OperationRecords) && WfTable(RecordAttachments)
    ensures "record_id" in ExaminationResults.columns && "record_id" in Prescriptions.columns
    ensures "record_id" in OperationRecords.columns && "record_id" in RecordAttachments.columns
  {
    ExaminationsWellFormed();
    PrescriptionsWellFormed();
    OperationsWellFormed();
    AttachmentsWellFormed();
  }

  lemma ExaminationsWellFormed()
    ensures WfTable(ExaminationResults)
  {
  }

  lemma PrescriptionsWellFormed()
    ensures WfTable(Prescriptions)
  {
    PrescriptionsColumnsFirst();
    PrescriptionsColumnsMiddle();
    PrescriptionsColumnsLast();
  }

  lemma PrescriptionsColumnsFirst()
    ensures ColumnsDistinctFrom(Prescriptions.columns, 0, 3)
  {
  }

  lemma PrescriptionsColumnsMiddle()
    ensures ColumnsDistinctFrom(Prescriptions.columns, 3, 7)
  {
  }

  lemma PrescriptionsColumnsLast()
    ensures ColumnsDistinctFrom(Prescriptions.columns, 7, |Prescriptions.columns|)
  {
  }

  lemma OperationsWellFormed()
    ensures WfTable(OperationRecords)
  {
    OperationsColumnsFirst();
    OperationsColumnsMiddle();
    OperationsColumnsLast();
  }

  lemma OperationsColumnsFirst()
    ensures ColumnsDistinctFrom(OperationRecords.columns, 0, 3)
  {
  }

  lemma OperationsColumnsMiddle()
    ensures ColumnsDistinctFrom(OperationRecords.columns, 3, 7)
  {
  }

  lemma OperationsColumnsLast()
    ensures ColumnsDistinctFrom(OperationRecords.columns, 7, |OperationRecords.columns|)
  {
  }

  lemma AttachmentsWellFormed()
    ensures WfTable(RecordAttachments)
  {
  }

  /** The errors a statement on the store can raise. */
  datatype DbError =
    | NoSuchRecord(recordId: string)       // get_record's ValueError
    | NoSuchColumn(column: string)         // "table ... has no column named ..."
    | NotNullFailed(column: string)        // "NOT NULL constraint failed"
    | UniqueFailed                         // "UNIQUE constraint failed" on the primary key
    | UnsupportedFormat(format: string)    // export_records' ValueError

  function Get(r: Row, c: string): Value {
    if c in r then r[c] else Null
  }

  /** `r` has exactly the columns of `t`, and no NOT NULL column holds NULL. */
  predicate RowFits(t: Table, r: Row) {
    (forall c :: c in r ==> c in t.columns)
    && (forall c :: c in t.columns ==> c in r)
    && (forall c :: c in t.notNull ==> Get(r, c) != Null)
  }

  /** No two rows share a non-NULL primary key. */
  predicate KeysDistinct(t: Table, rows: seq<Row>) {
    forall i, j :: 0 <= i < j < |rows| && Get(rows[i], t.key) != Null ==> Get(rows[i], t.key) != Get(rows[j], t.key)
  }

  predicate TableValid(t: Table, rows: seq<Row>) {
    (forall i :: 0 <= i < |rows| ==> RowFits(t, rows[i])) && KeysDistinct(t, rows)
  }

  /** Some row other than the one at `except` holds `v` as its key. */
  predicate KeyTaken(t: Table, rows: seq<Row>, v: Value, except: int) {
    v != Null && exists i :: 0 <= i < |rows| && i != except && Get(rows[i], t.key) == v
  }

  /** The first of `keys` that is not a column of `t`. */
  function FirstUnknown(keys: seq<string>, t: Table): (r: Option<string>)
    ensures r.None? <==> forall k :: k in keys ==> k in t.columns
    ensures r.Some? ==> r.value in keys && r.value !in t.columns
  {
    if keys == [] then None
    else if keys[0] !in t.columns then Some(keys[0])
    else FirstUnknown(keys[1..], t)
  }

  /** The first NOT NULL column, in declaration order, that `r` leaves NULL. */
  function FirstNullColumn(cols: seq<string>, notNull: set<string>, r: Row): (c: Option<string>)
    ensures c.None? <==> forall k :: k in cols && k in notNull ==> Get(r, k) != Null
    ensures c.Some? ==> c.value in cols && c.value in notNull && Get(r, c.value) == Null
  {
    if cols == [] then None
    else if cols[0] in notNull && Get(r, cols[0]) == Null then Some(cols[0])
    else FirstNullColumn(cols[1..], notNull, r)
  }

  /** The row an INSERT naming the keys of `d` stores: the named columns take
      `d`'s values, the others NULL. */
  function NewRow(t: Table, d: Dict): (r: Row)
    ensures forall c :: c in r <==> c in t.columns
    ensures forall c :: c in t.columns ==> r[c] == (if c in d.vals then d.vals[c] else Null)
  {
    map c | c in t.columns :: if c in d.vals then d.vals[c] else Null
  }

  /** `INSERT INTO t (<keys of d>) VALUES (<values of d>)`. */
  function InsertRow(t: Table, rows: seq<Row>, d: Dict): (r: Result<seq<Row>, DbError>)
    requires WfTable(t) && WfDict(d)
    ensures r.Ok? <==>
      (forall k :: k in d.keys ==> k in t.columns)
      && (forall c :: c in t.notNull ==> Get(NewRow(t, d), c) != Null)
      && !KeyTaken(t, rows, NewRow(t, d)[t.key], -1)
    ensures r.Ok? ==> r.value == rows + [NewRow(t, d)]
    ensures (exists k :: k in d.keys && k !in t.columns) ==> r.Err? && r.error.NoSuchColumn?
  {
    var row := NewRow(t, d);
    match FirstUnknown(d.keys, t)
    case Some(k) => Err(NoSuchColumn(k))
    case None =>
      match FirstNullColumn(t.columns, t.notNull, row)
      case Some(c) => Err(NotNullFailed(c))
      case None =>
        if KeyTaken(t, rows, row[t.key], -1) then Err(UniqueFailed)
        else Ok(rows + [row])
  }

  lemma {:induction false} InsertKeepsValid(t: Table, rows: seq<Row>, d: Dict)
    requires WfTable(t) && WfDict(d) && TableValid(t, rows)
    requires InsertRow(t, rows, d).Ok?
    ensures TableValid(t, InsertRow(t, rows, d).value)
  {
    var row := NewRow(t, d);
    var rs := rows + [row];
    assert RowFits(t, row);
    forall i, j | 0 <= i < j < |rs| && Get(rs[i], t.key) != Null
      ensures Get(rs[i], t.key) != Get(rs[j], t.key)
    {
      if j == |rows| {
        assert rs[i] == rows[i];
        assert !KeyTaken(t, rows, row[t.key], -1);
      } else {
        assert rs[i] == rows[i] && rs[j] == rows[j];
      }
    }
  }

  /** The row at `i` after `SET k = v` for each key of `upd`. */
  function UpdatedRow(r: Row, upd: Dict): (n: Row)
    ensures forall c :: c in n <==> c in r
    ensures forall c :: c in r ==> n[c] == (if c in upd.vals then upd.vals[c] else r[c])
  {
    map c | c in r :: if c in upd.vals then upd.vals[c] else r[c]
  }

  /** `UPDATE t SET <k = v for each key of upd> WHERE <key> = ?` when the row
      at `i` is the one matched. */
  function UpdateAt(t: Table, rows: seq<Row>, i: nat, upd: Dict): (r: Result<seq<Row>, DbError>)
    requires WfTable(t) && WfDict(upd) && i < |rows|
    ensures r.Ok? <==>
      (forall k :: k in upd.keys ==> k in t.columns)
      && (forall c :: c in t.notNull ==> Get(UpdatedRow(rows[i], upd), c) != Null)
      && !KeyTaken(t, rows, Get(UpdatedRow(rows[i], upd), t.key), i)
    ensures r.Ok? ==> r.value == rows[i := UpdatedRow(rows[i], upd)]
  {
    var row := UpdatedRow(rows[i], upd);
    match FirstUnknown(upd.keys, t)
    case Some(k) => Err(NoSuchColumn(k))
    case None =>
      match FirstNullColumn(t.columns, t.notNull, row)
      case Some(c) => Err(NotNullFailed(c))
      case None =>
        if KeyTaken(t, rows, Get(row, t.key), i) then Err(UniqueFailed)
        else Ok(rows[i := row])
  }

  lemma {:induction false} UpdateKeepsValid(t: Table, rows: seq<Row>, i: nat, upd: Dict)
    requires WfTable(t) && WfDict(upd) && i < |rows| && TableValid(t, rows)
    requires UpdateAt(t, rows, i, upd).Ok?
    ensures TableValid(t, UpdateAt(t, rows, i, upd).value)
  {
    var row := UpdatedRow(rows[i], upd);
    var rs := rows[i := row];
    assert RowFits(t, rows[i]);
    assert RowFits(t, row);
    forall a, b | 0 <= a < b < |rs| && Get(rs[a], t.key) != Null
      ensures Get(rs[a], t.key) != Get(rs[b], t.key)
    {
      if a == i {
        assert !KeyTaken(t, rows, Get(row, t.key), i);
        assert rs[b] == rows[b];
      } else if b == i {
        assert rs[a] == rows[a];
        assert !KeyTaken(t, rows, Get(row, t.key), i);
      } else {
        assert rs[a] == rows[a] && rs[b] == rows[b];
      }
    }
  }

  /** An UPDATE of the row at `i` rewrites the updated columns of that row
      and nothing else. */
  lemma UpdateAtEffect(t: Table, rows: seq<Row>, i: nat, upd: Dict)
    requires WfTable(t) && WfDict(upd) && i < |rows| && RowFits(t, rows[i])
    requires UpdateAt(t, rows, i, upd).Ok?
    ensures var rs := UpdateAt(t, rows, i, upd).value;
      && |rs| == |rows|
      && (forall j :: 0 <= j < |rows| && j != i ==> rs[j] == rows[j])
      && (forall c :: c in t.columns ==> Get(rs[i], c) == (if c in upd.vals then upd.vals[c] else Get(rows[i], c)))
  {
  }

  /** In a valid table a non-NULL key identifies one row. */
  lemma KeyIdentifiesRow(t: Table, rows: seq<Row>, i: nat, j: nat)
    requires TableValid(t, rows) && i < |rows| && j < |rows|
    requires Get(rows[i], t.key) != Null && Get(rows[i], t.key) == Get(rows[j], t.key)
    ensures i == j
  {
  }

  /** An INSERT succeeds when it names only columns, fills every NOT NULL
      column and brings a key no stored row has. */
  lemma InsertRowSucceeds(t: Table, rows: seq<Row>, d: Dict)
    requires WfTable(t) && WfDict(d)
    requires forall k :: k in d.keys ==> k in t.columns
    requires forall c :: c in t.notNull ==> c in d.vals && d.vals[c] != Null
    requires forall i :: 0 <= i < |rows| ==> Get(rows[i], t.key) != NewRow(t, d)[t.key]
    ensures InsertRow(t, rows, d).Ok?
  {
  }

  /** An UPDATE of a fitting row succeeds when it names only columns, sets no
      NOT NULL column to NULL and leaves the primary key as it was. */
  lemma UpdateAtSucceeds(t: Table, rows: seq<Row>, i: nat, upd: Dict)
    requires WfTable(t) && WfDict(upd) && TableValid(t, rows) && i < |rows|
    requires forall k :: k in upd.keys ==> k in t.columns
    requires forall c :: c in upd.vals && c in t.notNull ==> upd.vals[c] != Null
    requires t.key in upd.vals ==> upd.vals[t.key] == Get(rows[i], t.key)
    ensures UpdateAt(t, rows, i, upd).Ok?
  {
    var row := UpdatedRow(rows[i], upd);
    assert RowFits(t, rows[i]);
    assert Get(row, t.key) == Get(rows[i], t.key);
    forall j | 0 <= j < |rows| && j != i
      ensures Get(rows[j], t.key) != Get(row, t.key) || Get(row, t.key) == Null
    {
      if Get(row, t.key) != Null && Get(rows[j], t.key) == Get(row, t.key) {
        KeyIdentifiesRow(t, rows, i, j);
      }
    }
  }

  /** `SELECT *` returns the columns in declaration order. */
  function AsDict(t: Table, r: Row): (d: Dict)
    ensures d.keys == t.columns
    ensures forall c :: c in d.vals <==> c in t.columns
    ensures WfTable(t) ==> WfDict(d)
    ensures forall c :: c in t.columns ==> d.vals[c] == Get(r, c)
  {
    Dict(t.columns, map c | c in t.columns :: Get(r, c))
  }

  /** A dict whose keys are all columns reads back unchanged from the row
      it inserts. */
  lemma AsDictNewRow(t: Table, d: Dict)
    requires WfDict(d) && forall k :: k in d.keys ==> k in t.columns
    ensures forall c :: c in d.vals ==> c in AsDict(t, NewRow(t, d)).vals && AsDict(t, NewRow(t, d)).vals[c] == d.vals[c]
  {
    var r := NewRow(t, d);
    forall c | c in d.vals ensures c in AsDict(t, r).vals && AsDict(t, r).vals[c] == d.vals[c] {
      assert c in d.keys;
      assert Get(r, c) == d.vals[c];
    }
  }

  /** `SELECT * FROM t WHERE record_id = ?`, in storage order. */
  function SelectByRecord(t: Table, rows: seq<Row>, recordId: string): (r: seq<Dict>)
    ensures |r| <= |rows|
    decreases |rows|
  {
    if rows == [] then []
    else
      var rest := SelectByRecord(t, rows[..|rows| - 1], recordId);
      var last := rows[|rows| - 1];
      if Get(last, "record_id") == Str(recordId) then rest + [AsDict(t, last)] else rest
  }

  /** `d` is how `SELECT *` shows a stored row of record `recordId`. */
  predicate StoredRowOf(t: Table, rows: seq<Row>, recordId: string, d: Dict)
  {
    exists i :: 0 <= i < |rows| && Get(rows[i], "record_id") == Str(recordId) && d == AsDict(t, rows[i])
  }

  /** A selected child is exactly a stored row of that record. */
  lemma {:induction false} SelectByRecordMembers(t: Table, rows: seq<Row>, recordId: string, d: Dict)
    ensures d in SelectByRecord(t, rows, recordId) <==> StoredRowOf(t, rows, recordId, d)
    decreases |rows|
  {
    if rows != [] {
      var init := rows[..|rows| - 1];
      SelectByRecordMembers(t, init, recordId, d);
      if d in SelectByRecord(t, rows, recordId) {
        if d in SelectByRecord(t, init, recordId) {
          var i :| 0 <= i < |init| && Get(init[i], "record_id") == Str(recordId) && d == AsDict(t, init[i]);
          assert rows[i] == init[i];
        }
      } else {
        forall i | 0 <= i < |rows| && Get(rows[i], "record_id") == Str(recordId)
          ensures d != AsDict(t, rows[i])
        {
          if i < |init| {
            assert rows[i] == init[i];
          }
        }
      }
    }
  }

  /** A record no stored row refers to selects nothing. */
  lemma SelectByRecordNone(t: Table, rows: seq<Row>, recordId: string)
    requires forall i :: 0 <= i < |rows| ==> Get(rows[i], "record_id") != Str(recordId)
    ensures SelectByRecord(t, rows, recordId) == []
  {
    var sel := SelectByRecord(t, rows, recordId);
    if sel != [] {
      SelectByRecordMembers(t, rows, recordId, sel[0]);
    }
  }

  /** Appending a row of another record leaves a selection as it was. */
  lemma SelectByRecordAppendOther(t: Table, rows: seq<Row>, row: Row, recordId: string)
    requires Get(row, "record_id") != Str(recordId)
    ensures SelectByRecord(t, rows + [row], recordId) == SelectByRecord(t, rows, recordId)
  {
    assert (rows + [row])[..|rows|] == rows;
  }
}
