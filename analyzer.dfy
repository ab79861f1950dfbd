/** `MedicalRecordAnalyzer`: the aggregates its five analyses compute over
    the tables, and the layout of the summary report that gathers them.
    Charts, float averages and the text of the descriptions are not part
    of this model. */
module Analyzer {
  import opened Common
  import opened Sorting
  import opened Tables
  import opened Records
  import opened Counting

  /** One column of a result set, as a pandas Series. */
  function Column(rows: seq<Row>, c: string): (r: seq<Value>)
    ensures |r| == |rows| && forall i :: 0 <= i < |rows| ==> r[i] == Get(rows[i], c)
  {
    seq(|rows|, i requires 0 <= i < |rows| => Get(rows[i], c))
  }

  /** The row test `row[c] == v`. */
  function HasValue(c: string, v: Value): Row -> bool {
    (r: Row) => Get(r, c) == v
  }

  /** How often a value occurs in a column is the number of rows holding it. */
  lemma {:induction false} ColumnCount(rows: seq<Row>, c: string, v: Value)
    ensures multiset(Column(rows, c))[v] == |Filter(rows, HasValue(c, v))|
    decreases |rows|
  {
    if rows != [] {
      var init := rows[..|rows| - 1];
      var last := rows[|rows| - 1];
      ColumnCount(init, c, v);
      ColumnSnoc(rows, c);
      var f := HasValue(c, v);
      assert |Filter(rows, f)| == |Filter(init, f)| + (if f(last) then 1 else 0);
    }
  }

  lemma ColumnSnoc(rows: seq<Row>, c: string)
    requires rows != []
    ensures multiset(Column(rows, c)) == multiset(Column(rows[..|rows| - 1], c)) + multiset{Get(rows[|rows| - 1], c)}
  {
    assert Column(rows, c) == Column(rows[..|rows| - 1], c) + [Get(rows[|rows| - 1], c)];
  }

  // ---------------------------------------------------------------------
  // analyze_visit_trends

  /** `visit_date BETWEEN start AND end`. */
  function InWindow(start: string, end: string): Row -> bool {
    (r: Row) => SqlLe(Str(start), Get(r, "visit_date")) && SqlLe(Get(r, "visit_date"), Str(end))
  }

  function Window(rows: seq<Row>, start: string, end: string): seq<Row> {
    Filter(rows, InWindow(start, end))
  }

  datatype AnalysisError = ZeroDivision

  /** The numbers behind the visit-trend analysis: total visits, visits per
      day in date order, per department from most to fewest, per record
      type in key order, the busiest day and the three busiest departments. */
  datatype VisitTrends = VisitTrends(total: nat, daily: Counts, departments: Counts, types: Counts,
                                     peak: (Value, nat), topDepartments: Counts)

  /** `analyze_visit_trends(start_date, end_date)`; an empty window fails,
      as the daily average divides by the number of days. */
  function AnalyzeVisitTrends(rows: seq<Row>, start: string, end: string): Result<VisitTrends, AnalysisError> {
    var w := Window(rows, start, end);
    var daily := GroupSizes(Column(w, "visit_date"));
    if daily == [] then Err(ZeroDivision)
    else
      var departments := SortBy(GroupSizes(Column(w, "department")), ByCountDesc);
      Ok(VisitTrends(|w|, daily, departments, GroupSizes(Column(w, "record_type")),
                     daily[PeakIndex(daily)], Take(departments, 3)))
  }

  lemma WindowDates(rows: seq<Row>, start: string, end: string)
    ensures |NonNull(Column(Window(rows, start, end), "visit_date"))| == |Window(rows, start, end)|
  {
    var w := Window(rows, start, end);
    var dates := Column(w, "visit_date");
    forall v | v in dates ensures v != Null {
      var i :| 0 <= i < |w| && dates[i] == v;
      assert w[i] in w;
    }
    NonNullAll(dates);
  }

  /** The analysis fails exactly when no visit falls in the window, and
      otherwise the daily counts add up to the number of visits in it. */
  lemma VisitTrendsTotals(rows: seq<Row>, start: string, end: string)
    ensures AnalyzeVisitTrends(rows, start, end).Err? <==> Window(rows, start, end) == []
    ensures AnalyzeVisitTrends(rows, start, end).Ok? ==>
      AnalyzeVisitTrends(rows, start, end).value.total == |Window(rows, start, end)|
      && Total(AnalyzeVisitTrends(rows, start, end).value.daily) == |Window(rows, start, end)|
  {
    GroupSizesSpec(Column(Window(rows, start, end), "visit_date"));
    WindowDates(rows, start, end);
  }

  /** Each day counted is a date inside the window, with the number of
      visits on it. */
  lemma VisitTrendsDaily(rows: seq<Row>, start: string, end: string, e: (Value, nat))
    requires AnalyzeVisitTrends(rows, start, end).Ok?
    requires e in AnalyzeVisitTrends(rows, start, end).value.daily
    ensures SqlLe(Str(start), e.0) && SqlLe(e.0, Str(end))
    ensures e.1 == |Filter(Window(rows, start, end), HasValue("visit_date", e.0))|
  {
    var w := Window(rows, start, end);
    GroupSizesMember(Column(w, "visit_date"), e);
    var i :| 0 <= i < |w| && Column(w, "visit_date")[i] == e.0;
    assert w[i] in w;
    assert InWindow(start, end)(w[i]);
    ColumnCount(w, "visit_date", e.0);
  }

  /** The busiest day has at least as many visits as any day, and the
      department ranking goes from most to fewest visits. */
  lemma VisitTrendsPeak(rows: seq<Row>, start: string, end: string)
    requires AnalyzeVisitTrends(rows, start, end).Ok?
    ensures var v := AnalyzeVisitTrends(rows, start, end).value;
      && v.peak in v.daily
      && (forall e :: e in v.daily ==> e.1 <= v.peak.1)
      && Sorted(v.departments, ByCountDesc)
      && |v.topDepartments| <= 3 && v.topDepartments == v.departments[..|v.topDepartments|]
  {
    var w := Window(rows, start, end);
    ByCountDescPreorder();
    SortBySorted(GroupSizes(Column(w, "department")), ByCountDesc);
  }

  /** A NOT NULL column has no NULL among any selection of a valid table's rows. */
  lemma FilteredNotNull(t: Table, rows: seq<Row>, f: Row -> bool, col: string)
    requires TableValid(t, rows) && col in t.notNull
    ensures forall v :: v in Column(Filter(rows, f), col) ==> v != Null
  {
    var w := Filter(rows, f);
    forall v | v in Column(w, col) ensures v != Null {
      var i :| 0 <= i < |w| && Column(w, col)[i] == v;
      assert w[i] in w;
      var k :| 0 <= k < |rows| && rows[k] == w[i];
      assert RowFits(t, rows[k]);
    }
  }

  /** In a table whose rows fit the schema, department and record type are
      never NULL, so both breakdowns also add up to the number of visits. */
  lemma VisitTrendsBreakdowns(rows: seq<Row>, start: string, end: string)
    requires TableValid(MedicalRecords, rows)
    requires AnalyzeVisitTrends(rows, start, end).Ok?
    ensures var v := AnalyzeVisitTrends(rows, start, end).value;
      Total(v.departments) == v.total && Total(v.types) == v.total
  {
    var w := Window(rows, start, end);
    var ds := Column(w, "department");
    var ts := Column(w, "record_type");
    assert "department" in MedicalRecords.notNull && "record_type" in MedicalRecords.notNull;
    FilteredNotNull(MedicalRecords, rows, InWindow(start, end), "department");
    FilteredNotNull(MedicalRecords, rows, InWindow(start, end), "record_type");
    NonNullAll(ds);
    NonNullAll(ts);
    GroupSizesSpec(ds);
    GroupSizesSpec(ts);
    TotalSortBy(GroupSizes(ds), ByCountDesc);
  }

  // ---------------------------------------------------------------------
  // analyze_diagnosis_distribution, and the per-group rankings

  /** The row test `row[c] IS NOT NULL`. */
  function NonNullAt(c: string): Row -> bool {
    (r: Row) => Get(r, c) != Null
  }

  /** For each group of `groupCol` in key order, the `n` most common values
      of `valCol` in that group: `groupby(g)[v].agg(list)` followed by
      `Counter(...).most_common(n)`. */
  function TopByGroup(rows: seq<Row>, groupCol: string, valCol: string, n: nat): seq<(Value, Counts)> {
    var ks := GroupKeys(Column(rows, groupCol));
    seq(|ks|, i requires 0 <= i < |ks| =>
      (ks[i], MostCommon(Column(Filter(rows, HasValue(groupCol, ks[i])), valCol), n)))
  }

  /** The groups are the non-NULL values of the group column, in key order;
      each ranking has at most `n` entries, from most to least common, counted
      only within its group. */
  lemma TopByGroupSpec(rows: seq<Row>, groupCol: string, valCol: string, n: nat)
    ensures var t := TopByGroup(rows, groupCol, valCol, n);
      && (forall k :: k in GroupNames(t) <==> k != Null && k in Column(rows, groupCol))
      && (forall i, j :: 0 <= i < j < |t| ==> ValueLe(t[i].0, t[j].0))
      && forall i :: 0 <= i < |t| ==>
           var group := Column(Filter(rows, HasValue(groupCol, t[i].0)), valCol);
           && |t[i].1| <= n
           && Sorted(t[i].1, ByCountDesc)
           && forall e :: e in t[i].1 ==> e.0 in group && e.1 == multiset(group)[e.0]
  {
    var t := TopByGroup(rows, groupCol, valCol, n);
    var ks := GroupKeys(Column(rows, groupCol));
    GroupKeysSpec(Column(rows, groupCol));
    assert GroupNames(t) == ks;
    forall i | 0 <= i < |t| ensures
      var group := Column(Filter(rows, HasValue(groupCol, t[i].0)), valCol);
      && |t[i].1| <= n
      && Sorted(t[i].1, ByCountDesc)
      && forall e :: e in t[i].1 ==> e.0 in group && e.1 == multiset(group)[e.0]
    {
      MostCommonSpec(Column(Filter(rows, HasValue(groupCol, t[i].0)), valCol), n);
    }
  }

  /** The group keys of a per-group table. */
  function GroupNames(t: seq<(Value, Counts)>): (ks: seq<Value>)
    ensures |ks| == |t| && forall i :: 0 <= i < |t| ==> ks[i] == t[i].0
  {
    seq(|t|, i requires 0 <= i < |t| => t[i].0)
  }

  datatype DiagnosisDistribution = DiagnosisDistribution(total: nat, counts: Counts, byDepartment: seq<(Value, Counts)>)

  /** `analyze_diagnosis_distribution()` over the records with a diagnosis. */
  function AnalyzeDiagnosisDistribution(rows: seq<Row>): DiagnosisDistribution {
    var d := Filter(rows, NonNullAt("diagnosis"));
    DiagnosisDistribution(|d|, ValueCounts(Column(d, "diagnosis")), TopByGroup(d, "department", "diagnosis", 3))
  }

  /** Diagnoses are ranked from most to least frequent, each counted over
      the records that carry it, and the counts add up to the number of
      records with a diagnosis. */
  lemma DiagnosisCounts(rows: seq<Row>)
    ensures var a := AnalyzeDiagnosisDistribution(rows);
      && a.total == |Filter(rows, NonNullAt("diagnosis"))|
      && Sorted(a.counts, ByCountDesc)
      && Total(a.counts) == a.total
      && forall e :: e in a.counts ==> e.0 != Null && e.1 == |Filter(rows, HasValue("diagnosis", e.0))|
  {
    var d := Filter(rows, NonNullAt("diagnosis"));
    var ds := Column(d, "diagnosis");
    ValueCountsSpec(ds);
    forall v | v in ds ensures v != Null {
      var i :| 0 <= i < |d| && ds[i] == v;
      assert d[i] in d;
    }
    NonNullAll(ds);
    forall e | e in ValueCounts(ds) ensures e.1 == |Filter(rows, HasValue("diagnosis", e.0))| {
      ColumnCount(d, "diagnosis", e.0);
      FilterNested(rows, NonNullAt("diagnosis"), HasValue("diagnosis", e.0));
    }
  }

  // ---------------------------------------------------------------------
  // The inner joins of the child analyses

  /** `child.record_id = record.record_id`, which NULL never satisfies. */
  predicate Linked(c: Row, r: Row) {
    Get(c, "record_id") != Null && Get(c, "record_id") == Get(r, "record_id")
  }

  /** A joined row: the child's columns and the record's `extra` columns. */
  function Extend(c: Row, r: Row, extra: set<string>): Row {
    c + map k | k in extra :: Get(r, k)
  }

  lemma ExtendGet(c: Row, r: Row, extra: set<string>, k: string)
    ensures Get(Extend(c, r, extra), k) == if k in extra then Get(r, k) else Get(c, k)
  {
  }

  /** The joined rows of one child, in record order. */
  function JoinOne(c: Row, records: seq<Row>, extra: set<string>): (j: seq<Row>)
    ensures forall x :: x in j <==> exists r :: r in records && Linked(c, r) && x == Extend(c, r, extra)
    decreases |records|
  {
    if records == [] then []
    else
      var init := records[..|records| - 1];
      var last := records[|records| - 1];
      assert forall r :: r in records <==> r in init || r == last;
      JoinOne(c, init, extra) + (if Linked(c, last) then [Extend(c, last, extra)] else [])
  }

  /** `SELECT c.*, r.extra FROM children c JOIN medical_records r ON
      c.record_id = r.record_id`, in child order. */
  function Join(children: seq<Row>, records: seq<Row>, extra: set<string>): seq<Row>
    decreases |children|
  {
    if children == [] then []
    else Join(children[..|children| - 1], records, extra) + JoinOne(children[|children| - 1], records, extra)
  }

  /** The join holds exactly the children whose record exists, each
      extended with that record's columns. */
  lemma {:induction false} JoinMembers(children: seq<Row>, records: seq<Row>, extra: set<string>, x: Row)
    ensures x in Join(children, records, extra) <==>
      exists c, r :: c in children && r in records && Linked(c, r) && x == Extend(c, r, extra)
    decreases |children|
  {
    if children != [] {
      var init := children[..|children| - 1];
      var last := children[|children| - 1];
      JoinMembers(init, records, extra, x);
      assert forall c :: c in children <==> c in init || c == last;
    }
  }

  /** Record ids are unique, so a child joins once if its record exists and
      not at all otherwise. */
  lemma {:induction false} JoinOneSize(c: Row, records: seq<Row>, extra: set<string>)
    requires KeysDistinct(MedicalRecords, records)
    ensures |JoinOne(c, records, extra)| == if exists r :: r in records && Linked(c, r) then 1 else 0
    decreases |records|
  {
    if records != [] {
      var init := records[..|records| - 1];
      var last := records[|records| - 1];
      assert KeysDistinct(MedicalRecords, init) by {
        forall i, j | 0 <= i < j < |init| && Get(init[i], "record_id") != Null
          ensures Get(init[i], "record_id") != Get(init[j], "record_id")
        {
          assert init[i] == records[i] && init[j] == records[j];
        }
      }
      JoinOneSize(c, init, extra);
      assert forall r :: r in records <==> r in init || r == last;
      if Linked(c, last) {
        forall r | r in init ensures !Linked(c, r) {
          var i :| 0 <= i < |init| && init[i] == r;
          assert records[i] == r;
        }
      }
    }
  }

  /** The number of joined rows is the number of children whose record exists. */
  lemma {:induction false} JoinSize(children: seq<Row>, records: seq<Row>, extra: set<string>)
    requires KeysDistinct(MedicalRecords, records)
    ensures |Join(children, records, extra)| == |Filter(children, HasRecord(records))|
    decreases |children|
  {
    if children != [] {
      var init := children[..|children| - 1];
      var last := children[|children| - 1];
      JoinSize(init, records, extra);
      JoinOneSize(last, records, extra);
    }
  }

  /** The child test "its record exists". */
  function HasRecord(records: seq<Row>): Row -> bool {
    (c: Row) => exists r :: r in records && Linked(c, r)
  }

  // ---------------------------------------------------------------------
  // Department-by-category tables

  /** `df.groupby([a, b]).size().unstack(fill_value=0)`: the rows are the
      values of `a`, the columns the values of `b`, both in key order among
      the rows where both are present; a cell counts the rows with that pair. */
  datatype CrossTab = CrossTab(rowKeys: seq<Value>, colKeys: seq<Value>, cells: seq<seq<nat>>)

  function BothPresent(a: string, b: string): Row -> bool {
    (r: Row) => Get(r, a) != Null && Get(r, b) != Null
  }

  function PairAt(a: string, x: Value, b: string, y: Value): Row -> bool {
    (r: Row) => Get(r, a) == x && Get(r, b) == y
  }

  /** The number of rows with `a == x` and `b == y`. */
  function Cell(rows: seq<Row>, a: string, x: Value, b: string, y: Value): nat {
    |Filter(rows, PairAt(a, x, b, y))|
  }

  function TabRow(rows: seq<Row>, a: string, x: Value, b: string, ck: seq<Value>): (r: seq<nat>)
    ensures |r| == |ck|
  {
    seq(|ck|, j requires 0 <= j < |ck| => Cell(rows, a, x, b, ck[j]))
  }

  /** The keys of column `c` among the rows where `a` and `b` are both present. */
  function PresentKeysOf(rows: seq<Row>, a: string, b: string, c: string): seq<Value> {
    GroupKeys(Column(Filter(rows, BothPresent(a, b)), c))
  }

  function Tabulate(rows: seq<Row>, a: string, b: string): CrossTab {
    var rk := PresentKeysOf(rows, a, b, a);
    var ck := PresentKeysOf(rows, a, b, b);
    CrossTab(rk, ck, TabCells(rows, a, rk, b, ck))
  }

  function TabCells(rows: seq<Row>, a: string, rk: seq<Value>, b: string, ck: seq<Value>): (r: seq<seq<nat>>)
    ensures |r| == |rk|
  {
    seq(|rk|, i requires 0 <= i < |rk| => TabRow(rows, a, rk[i], b, ck))
  }

  /** A value `x` of column `c` on some row where both `a` and `b` are present. */
  predicate PresentWith(rows: seq<Row>, a: string, b: string, c: string, x: Value) {
    exists r :: r in rows && Get(r, a) != Null && Get(r, b) != Null && Get(r, c) == x
  }

  lemma PresentColumn(rows: seq<Row>, a: string, b: string, c: string, x: Value)
    ensures x in Column(Filter(rows, BothPresent(a, b)), c) <==> PresentWith(rows, a, b, c, x)
  {
    if x in Column(Filter(rows, BothPresent(a, b)), c) {
      PresentColumnSound(rows, a, b, c, x);
    }
    if PresentWith(rows, a, b, c, x) {
      PresentColumnComplete(rows, a, b, c, x);
    }
  }

  lemma PresentColumnSound(rows: seq<Row>, a: string, b: string, c: string, x: Value)
    requires x in Column(Filter(rows, BothPresent(a, b)), c)
    ensures PresentWith(rows, a, b, c, x)
  {
    var both := Filter(rows, BothPresent(a, b));
    var col := Column(both, c);
    var i :| 0 <= i < |both| && col[i] == x;
    assert both[i] in both;
    assert both[i] in rows && BothPresent(a, b)(both[i]);
  }

  lemma PresentColumnComplete(rows: seq<Row>, a: string, b: string, c: string, x: Value)
    requires PresentWith(rows, a, b, c, x)
    ensures x in Column(Filter(rows, BothPresent(a, b)), c)
  {
    var both := Filter(rows, BothPresent(a, b));
    var col := Column(both, c);
    var r :| r in rows && Get(r, a) != Null && Get(r, b) != Null && Get(r, c) == x;
    assert BothPresent(a, b)(r);
    assert r in both;
    var i :| 0 <= i < |both| && both[i] == r;
    assert col[i] == x;
  }

  lemma PresentKeys(rows: seq<Row>, a: string, b: string, c: string)
    ensures forall x :: x in PresentKeysOf(rows, a, b, c) <==> x != Null && PresentWith(rows, a, b, c, x)
    ensures forall i, j :: 0 <= i < j < |PresentKeysOf(rows, a, b, c)| ==>
      ValueLe(PresentKeysOf(rows, a, b, c)[i], PresentKeysOf(rows, a, b, c)[j])
  {
    GroupKeysSpec(Column(Filter(rows, BothPresent(a, b)), c));
    forall x ensures x in PresentKeysOf(rows, a, b, c) <==> x != Null && PresentWith(rows, a, b, c, x) {
      PresentColumn(rows, a, b, c, x);
    }
  }

  /** The table's rows and columns are the values present (in key order),
      it is full, and each cell counts the rows with its pair, being 0
      exactly when no row has it. */
  lemma TabulateSpec(rows: seq<Row>, a: string, b: string)
    ensures var t := Tabulate(rows, a, b);
      && (forall x :: x in t.rowKeys <==> x != Null && PresentWith(rows, a, b, a, x))
      && (forall y :: y in t.colKeys <==> y != Null && PresentWith(rows, a, b, b, y))
      && (forall i, j :: 0 <= i < j < |t.rowKeys| ==> ValueLe(t.rowKeys[i], t.rowKeys[j]))
      && (forall i, j :: 0 <= i < j < |t.colKeys| ==> ValueLe(t.colKeys[i], t.colKeys[j]))
      && |t.cells| == |t.rowKeys|
      && forall i :: 0 <= i < |t.rowKeys| ==> |t.cells[i]| == |t.colKeys|
  {
    PresentKeys(rows, a, b, a);
    PresentKeys(rows, a, b, b);
  }

  lemma TabulateCell(rows: seq<Row>, a: string, b: string, i: nat, j: nat)
    requires i < |Tabulate(rows, a, b).rowKeys| && j < |Tabulate(rows, a, b).colKeys|
    ensures var t := Tabulate(rows, a, b);
      && t.cells[i][j] == Cell(rows, a, t.rowKeys[i], b, t.colKeys[j])
      && (t.cells[i][j] == 0 <==> forall r :: r in rows ==> !(Get(r, a) == t.rowKeys[i] && Get(r, b) == t.colKeys[j]))
  {
    var t := Tabulate(rows, a, b);
    var f := Filter(rows, PairAt(a, t.rowKeys[i], b, t.colKeys[j]));
    if f != [] {
      assert f[0] in f;
    }
  }

  // ---------------------------------------------------------------------
  // analyze_examination_statistics, analyze_prescription_patterns,
  // analyze_operation_statistics

  datatype ExamStats = ExamStats(total: nat, typeCounts: Counts, byDepartment: CrossTab)

  function AnalyzeExaminations(db: Db): ExamStats {
    var j := Join(db.examinations, db.records, {"department"});
    ExamStats(|j|, ValueCounts(Column(j, "exam_type")), Tabulate(j, "department", "exam_type"))
  }

  datatype PrescriptionStats = PrescriptionStats(total: nat, medicationCounts: Counts, byDepartment: CrossTab,
                                                 byDiagnosis: seq<(Value, Counts)>)

  function AnalyzePrescriptions(db: Db): PrescriptionStats {
    var j := Join(db.prescriptions, db.records, {"department", "diagnosis"});
    PrescriptionStats(|j|, ValueCounts(Column(j, "medication_name")), Tabulate(j, "department", "medication_name"),
                      TopByGroup(j, "diagnosis", "medication_name", 3))
  }

  datatype OperationStats = OperationStats(total: nat, operationCounts: Counts, levelCounts: Counts,
                                           byDepartment: CrossTab, maxBloodLoss: Option<int>, minBloodLoss: Option<int>)

  function AnalyzeOperations(db: Db): OperationStats {
    var j := Join(db.operations, db.records, {"department"});
    var loss := Ints(Column(j, "blood_loss"));
    OperationStats(|j|, ValueCounts(Column(j, "operation_name")), ValueCounts(Column(j, "operation_level")),
                   Tabulate(j, "department", "operation_name"), MaxOf(loss), MinOf(loss))
  }

  /** Only children of existing records are counted: with unique record ids,
      each analysis covers exactly the children whose record exists. */
  lemma ChildAnalysesCountJoined(db: Db)
    requires KeysDistinct(MedicalRecords, db.records)
    ensures AnalyzeExaminations(db).total == |Filter(db.examinations, HasRecord(db.records))|
    ensures AnalyzePrescriptions(db).total == |Filter(db.prescriptions, HasRecord(db.records))|
    ensures AnalyzeOperations(db).total == |Filter(db.operations, HasRecord(db.records))|
  {
    JoinSize(db.examinations, db.records, {"department"});
    JoinSize(db.prescriptions, db.records, {"department", "diagnosis"});
    JoinSize(db.operations, db.records, {"department"});
  }

  /** A joined row keeps every column of its child outside `extra`, so a
      NOT NULL column of the child table is never NULL after the join. */
  lemma JoinedNotNull(children: seq<Row>, records: seq<Row>, extra: set<string>, col: string, t: Table)
    requires TableValid(t, children) && col in t.notNull && col !in extra
    ensures forall v :: v in Column(Join(children, records, extra), col) ==> v != Null
  {
    var j := Join(children, records, extra);
    forall v | v in Column(j, col) ensures v != Null {
      var i :| 0 <= i < |j| && Column(j, col)[i] == v;
      JoinMembers(children, records, extra, j[i]);
      var c, r :| c in children && r in records && Linked(c, r) && j[i] == Extend(c, r, extra);
      var k :| 0 <= k < |children| && children[k] == c;
      assert RowFits(t, children[k]);
      ExtendGet(c, r, extra, col);
    }
  }

  /** Operation levels are never NULL in a valid table, so the level counts
      add up to the number of joined operations. */
  lemma OperationLevelsSum(db: Db)
    requires TableValid(OperationRecords, db.operations)
    ensures Total(AnalyzeOperations(db).levelCounts) == AnalyzeOperations(db).total
  {
    var j := Join(db.operations, db.records, {"department"});
    var levels := Column(j, "operation_level");
    JoinedNotNull(db.operations, db.records, {"department"}, "operation_level", OperationRecords);
    ValueCountsSpec(levels);
    NonNullAll(levels);
  }

  /** The integers among a column's values (pandas' `max` and `min` skip NULL). */
  function Ints(xs: seq<Value>): (r: seq<int>)
    ensures forall n :: n in r <==> Int(n) in xs
    decreases |xs|
  {
    if xs == [] then []
    else
      var init := xs[..|xs| - 1];
      assert forall v :: v in xs <==> v in init || v == xs[|xs| - 1];
      Ints(init) + (match xs[|xs| - 1] case Int(n) => [n] case _ => [])
  }

  function MaxOf(s: seq<int>): (m: Option<int>)
    ensures m.None? <==> s == []
    ensures m.Some? ==> m.value in s && forall x :: x in s ==> x <= m.value
  {
    if s == [] then None
    else match MaxOf(s[1..])
      case None => Some(s[0])
      case Some(k) =>
        assert forall x :: x in s ==> x == s[0] || x in s[1..];
        Some(if s[0] >= k then s[0] else k)
  }

  function MinOf(s: seq<int>): (m: Option<int>)
    ensures m.None? <==> s == []
    ensures m.Some? ==> m.value in s && forall x :: x in s ==> m.value <= x
  {
    if s == [] then None
    else match MinOf(s[1..])
      case None => Some(s[0])
      case Some(k) =>
        assert forall x :: x in s ==> x == s[0] || x in s[1..];
        Some(if s[0] <= k then s[0] else k)
  }

  /** The blood-loss extremes exist together, are recorded values, and the
      minimum does not exceed the maximum. */
  lemma BloodLossBounds(db: Db)
    ensures var s := AnalyzeOperations(db);
      && (s.maxBloodLoss.Some? <==> s.minBloodLoss.Some?)
      && (s.maxBloodLoss.Some? ==>
            s.minBloodLoss.value <= s.maxBloodLoss.value
            && Int(s.maxBloodLoss.value) in Column(Join(db.operations, db.records, {"department"}), "blood_loss")
            && Int(s.minBloodLoss.value) in Column(Join(db.operations, db.records, {"department"}), "blood_loss"))
  {
  }

  // ---------------------------------------------------------------------
  // generate_summary_report

  /** What each analysis hands the report: title, description text and the
      path of its chart. */
  datatype AnalysisResult = AnalysisResult(title: string, description: string, chartPath: Option<string>)

  /** The titles of the five analyses, in the order the report lists them. */
  const Titles: seq<string> := ["就诊趋势分析", "诊断分布分析", "检查统计分析", "处方模式分析", "手术统计分析"]

  /** The heading line of a section, without its line break. */
  function Heading(a: AnalysisResult): string {
    "## " + a.title
  }

  /** One section: heading, description, and a chart link when a chart path
      is set and non-empty. */
  function Section(a: AnalysisResult): string {
    Heading(a) + "\n\n" + a.description + "\n\n"
    + (if a.chartPath.Some? && a.chartPath.value != "" then "![" + a.title + "](" + a.chartPath.value + ")\n\n" else "")
  }

  function SectionTexts(rs: seq<AnalysisResult>): (ss: seq<string>)
    ensures |ss| == |rs| && forall i :: 0 <= i < |rs| ==> ss[i] == Section(rs[i])
  {
    seq(|rs|, i requires 0 <= i < |rs| => Section(rs[i]))
  }

  function ReportHeader(start: string, end: string, generatedAt: string): string {
    "# 医疗记录分析报告\n\n" + "报告生成时间: " + generatedAt + "\n" + "分析周期: " + start + " 至 " + end + "\n\n"
  }

  /** The text `generate_summary_report` writes: the header, then the
      sections of the five analyses in a fixed order. */
  function SummaryReport(start: string, end: string, generatedAt: string,
                         visit: AnalysisResult, diagnosis: AnalysisResult, exam: AnalysisResult,
                         prescription: AnalysisResult, operation: AnalysisResult): string {
    ReportHeader(start, end, generatedAt) + Concat(SectionTexts([visit, diagnosis, exam, prescription, operation]))
  }

  /** A section begins with its heading. */
  lemma SectionHeading(a: AnalysisResult)
    ensures |Section(a)| >= |Heading(a)| && Section(a)[..|Heading(a)|] == Heading(a)
  {
  }

  /** Where the section of analysis `k` starts in the report. */
  function SectionOffset(header: string, rs: seq<AnalysisResult>, k: nat): nat
    requires k <= |rs|
  {
    |header| + |Concat(SectionTexts(rs)[..k])|
  }

  /** After a header, the section of `rs[k]` sits at its offset. */
  lemma SectionInReport(h: string, rs: seq<AnalysisResult>, k: nat)
    requires k < |rs|
    ensures var o, report := SectionOffset(h, rs, k), h + Concat(SectionTexts(rs));
      && o + |Section(rs[k])| <= |report|
      && report[o..o + |Section(rs[k])|] == Section(rs[k])
  {
    ConcatAtAfter(h, SectionTexts(rs), k);
  }

  /** The section of `rs[k]` starts with its heading. */
  lemma HeadingInReport(h: string, rs: seq<AnalysisResult>, k: nat)
    requires k < |rs|
    ensures var o, report := SectionOffset(h, rs, k), h + Concat(SectionTexts(rs));
      && o + |Heading(rs[k])| <= |report|
      && report[o..o + |Heading(rs[k])|] == Heading(rs[k])
  {
    var report, sec, t := h + Concat(SectionTexts(rs)), Section(rs[k]), Heading(rs[k]);
    var o := SectionOffset(h, rs, k);
    SectionInReport(h, rs, k);
    SectionHeading(rs[k]);
    PrefixOfSlice(report, o, |sec|, |t|);
  }

  /** The next section starts where the section of `rs[k]` ends. */
  lemma NextSectionOffset(h: string, rs: seq<AnalysisResult>, k: nat)
    requires k + 1 < |rs|
    ensures SectionOffset(h, rs, k + 1) == SectionOffset(h, rs, k) + |Section(rs[k])|
  {
    ConcatAt(SectionTexts(rs), k);
  }

  /** The report is the header and then, one after another, the section of
      each analysis in the order visit, diagnosis, examination, prescription,
      operation, each starting with its heading. */
  lemma SummaryReportLayout(start: string, end: string, generatedAt: string,
                            visit: AnalysisResult, diagnosis: AnalysisResult, exam: AnalysisResult,
                            prescription: AnalysisResult, operation: AnalysisResult, k: nat)
    requires k < 5
    ensures var rs := [visit, diagnosis, exam, prescription, operation];
      var h := ReportHeader(start, end, generatedAt);
      var report := SummaryReport(start, end, generatedAt, visit, diagnosis, exam, prescription, operation);
      var o := SectionOffset(h, rs, k);
      && report[..|h|] == h
      && o + |Section(rs[k])| <= |report|
      && report[o..o + |Section(rs[k])|] == Section(rs[k])
      && report[o..o + |Heading(rs[k])|] == Heading(rs[k])
      && (k + 1 < 5 ==> SectionOffset(h, rs, k + 1) == o + |Section(rs[k])|)
  {
    var rs := [visit, diagnosis, exam, prescription, operation];
    var h := ReportHeader(start, end, generatedAt);
    SectionInReport(h, rs, k);
    HeadingInReport(h, rs, k);
    if k + 1 < 5 {
      NextSectionOffset(h, rs, k);
    }
  }
}
