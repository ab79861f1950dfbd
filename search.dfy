/** `search_records`: the WHERE conditions it builds from the parameters
    present, ORDER BY one column, then LIMIT and OFFSET of one page. */
module Search {
  import opened Common
  import opened Sorting
  import opened Tables

  datatype SortOrder = Asc | Desc

  /** The keys `search_params` may hold; an absent key is None. */
  datatype SearchParams = SearchParams(
    department: Option<Value>,
    dateRange: Option<(Value, Value)>,
    diagnosis: Option<string>,
    sortBy: Option<string>,
    sortOrder: Option<SortOrder>,
    page: Option<int>,
    pageSize: Option<int>)

  /** The AND of the conditions for the parameters present: department
      equality, `visit_date BETWEEN start AND end`, and `diagnosis LIKE
      '%x%'` read as a substring test. Any comparison with NULL is false. */
  predicate Matches(p: SearchParams, r: Row) {
    && (p.department.Some? ==> Get(r, "department") != Null && Get(r, "department") == p.department.value)
    && (p.dateRange.Some? ==>
          SqlLe(p.dateRange.value.0, Get(r, "visit_date")) && SqlLe(Get(r, "visit_date"), p.dateRange.value.1))
    && (p.diagnosis.Some? ==> Get(r, "diagnosis").Str? && IsSubstring(p.diagnosis.value, Get(r, "diagnosis").s))
  }

  /** The records the WHERE clause keeps, in storage order. */
  function Where(p: SearchParams, rows: seq<Row>): (r: seq<Row>)
    ensures forall x :: x in r <==> x in rows && Matches(p, x)
    ensures |r| <= |rows|
    decreases |rows|
  {
    if rows == [] then []
    else
      var init := rows[..|rows| - 1];
      assert forall x :: x in rows <==> x in init || x == rows[|rows| - 1];
      Where(p, init) + (if Matches(p, rows[|rows| - 1]) then [rows[|rows| - 1]] else [])
  }

  function SortColumn(p: SearchParams): string {
    if p.sortBy.Some? then p.sortBy.value else "created_at"
  }

  function Order(p: SearchParams): SortOrder {
    if p.sortOrder.Some? then p.sortOrder.value else Desc
  }

  /** The row order ORDER BY uses: the column's values, NULL first ascending
      and last descending. */
  function RowLe(col: string, order: SortOrder): (Row, Row) -> bool {
    (a: Row, b: Row) =>
      if order == Asc then ValueLe(Get(a, col), Get(b, col)) else ValueLe(Get(b, col), Get(a, col))
  }

  lemma RowLeTotalPreorder(col: string, order: SortOrder)
    ensures TotalPreorder(RowLe(col, order))
  {
    forall a: Row, b: Row { ValueLeTotal(Get(a, col), Get(b, col)); }
    forall a: Row, b: Row, c: Row | RowLe(col, order)(a, b) && RowLe(col, order)(b, c)
      ensures RowLe(col, order)(a, c)
    {
      if order == Asc {
        ValueLeTransitive(Get(a, col), Get(b, col), Get(c, col));
      } else {
        ValueLeTransitive(Get(c, col), Get(b, col), Get(a, col));
      }
    }
  }

  /** `LIMIT limit OFFSET offset` as SQLite evaluates it: a negative limit
      means no limit, a negative offset counts as zero. */
  function LimitOffset<T>(s: seq<T>, limit: int, offset: int): (r: seq<T>)
    ensures limit >= 0 ==> |r| <= limit
    ensures offset >= |s| ==> r == []
  {
    var start := if offset < 0 then 0 else if offset > |s| then |s| else offset;
    if limit < 0 then s[start..] else Take(s[start..], limit)
  }

  /** LIMIT and OFFSET keep one contiguous run of their input. */
  lemma LimitOffsetSlice<T>(s: seq<T>, limit: int, offset: int)
    requires limit >= 0 && offset >= 0
    ensures var lo := if offset < |s| then offset else |s|;
      var hi := if offset + limit < |s| then offset + limit else |s|;
      LimitOffset(s, limit, offset) == s[lo..hi]
  {
  }

  /** The matching rows in the requested order. */
  function Ordered(p: SearchParams, rows: seq<Row>): seq<Row> {
    SortBy(Where(p, rows), RowLe(SortColumn(p), Order(p)))
  }

  function Page(p: SearchParams): int {
    if p.page.Some? then p.page.value else 1
  }

  function PageSize(p: SearchParams): int {
    if p.pageSize.Some? then p.pageSize.value else 10
  }

  /** The result of `search_records`: the page of ordered matches, each as
      a dict in column order; ordering by something that is not a column fails. */
  function Search(p: SearchParams, rows: seq<Row>): (r: Result<seq<Dict>, DbError>)
    ensures r.Err? <==> SortColumn(p) !in MedicalRecords.columns
    ensures r.Ok? && PageSize(p) >= 0 ==> |r.value| <= PageSize(p)
  {
    var col := SortColumn(p);
    if col !in MedicalRecords.columns then Err(NoSuchColumn(col))
    else
      var size := PageSize(p);
      var page := LimitOffset(Ordered(p, rows), size, PageStart(Page(p), size));
      Ok(seq(|page|, i requires 0 <= i < |page| => AsDict(MedicalRecords, page[i])))
  }

  /** The rows on the page, before they become dicts. */
  function PageRows(p: SearchParams, rows: seq<Row>): seq<Row> {
    LimitOffset(Ordered(p, rows), PageSize(p), PageStart(Page(p), PageSize(p)))
  }

  /** The OFFSET of a page: `(page - 1) * page_size`. */
  function PageStart(page: int, size: int): (o: int)
    ensures page >= 1 && size >= 0 ==> o >= 0
  {
    (page - 1) * size
  }

  lemma SearchIsPageRows(p: SearchParams, rows: seq<Row>)
    requires Search(p, rows).Ok?
    ensures |Search(p, rows).value| == |PageRows(p, rows)|
    ensures forall i :: 0 <= i < |PageRows(p, rows)| ==> Search(p, rows).value[i] == AsDict(MedicalRecords, PageRows(p, rows)[i])
  {
  }

  /** Every result is a stored record that satisfies every filter given. */
  lemma SearchSound(p: SearchParams, rows: seq<Row>, d: Dict)
    requires Search(p, rows).Ok? && d in Search(p, rows).value
    ensures exists r :: r in rows && Matches(p, r) && d == AsDict(MedicalRecords, r)
  {
    SearchIsPageRows(p, rows);
    var i :| 0 <= i < |Search(p, rows).value| && Search(p, rows).value[i] == d;
    var pr := PageRows(p, rows);
    var ordered := Ordered(p, rows);
    var r := pr[i];
    assert r in ordered by {
      var size := PageSize(p);
      var off := PageStart(Page(p), size);
      var start := if off < 0 then 0 else if off > |ordered| then |ordered| else off;
      assert pr == (if size < 0 then ordered[start..] else Take(ordered[start..], size));
      assert r in ordered[start..];
    }
    SortByMembers(Where(p, rows), RowLe(SortColumn(p), Order(p)), r);
  }

  /** The results come in the requested order of the sort column. */
  lemma SearchOrdered(p: SearchParams, rows: seq<Row>)
    requires Search(p, rows).Ok?
    ensures Sorted(PageRows(p, rows), RowLe(SortColumn(p), Order(p)))
  {
    var le := RowLe(SortColumn(p), Order(p));
    RowLeTotalPreorder(SortColumn(p), Order(p));
    SortBySorted(Where(p, rows), le);
    LimitOffsetSorted(Ordered(p, rows), PageSize(p), PageStart(Page(p), PageSize(p)), le);
  }

  /** LIMIT and OFFSET keep the order of their input. */
  lemma LimitOffsetSorted<T>(s: seq<T>, limit: int, offset: int, le: (T, T) -> bool)
    requires Sorted(s, le)
    ensures Sorted(LimitOffset(s, limit, offset), le)
  {
    var start := if offset < 0 then 0 else if offset > |s| then |s| else offset;
    var r := LimitOffset(s, limit, offset);
    assert r == s[start..start + |r|];
    forall i, j | 0 <= i < j < |r| ensures le(r[i], r[j]) {
      assert r[i] == s[start + i] && r[j] == s[start + j];
    }
  }

  /** Page `n` of size `s` of a sequence is its slice `[(n-1)*s, n*s)`,
      clipped at the end; a page past the end is empty. */
  lemma PageSlice<T>(s: seq<T>, page: int, size: int)
    requires page >= 1 && size >= 0
    ensures var lo := PageStart(page, size);
      && lo >= 0
      && (lo >= |s| ==> LimitOffset(s, size, lo) == [])
      && (lo + size <= |s| ==> LimitOffset(s, size, lo) == s[lo..lo + size])
      && (lo < |s| < lo + size ==> LimitOffset(s, size, lo) == s[lo..])
  {
    LimitOffsetSlice(s, size, PageStart(page, size));
  }

  /** Page `n` of size `s` is the slice `[(n-1)*s, n*s)` of the ordered
      matches, and a page past the end is empty. */
  lemma SearchPage(p: SearchParams, rows: seq<Row>)
    requires Page(p) >= 1 && PageSize(p) >= 0
    ensures var ordered := Ordered(p, rows);
      var lo := PageStart(Page(p), PageSize(p));
      && lo >= 0
      && (lo >= |ordered| ==> PageRows(p, rows) == [])
      && (lo + PageSize(p) <= |ordered| ==> PageRows(p, rows) == ordered[lo..lo + PageSize(p)])
      && (lo < |ordered| < lo + PageSize(p) ==> PageRows(p, rows) == ordered[lo..])
  {
    PageSlice(Ordered(p, rows), Page(p), PageSize(p));
  }

  /** A first page at least as large as the number of matches holds every
      match, each once. */
  lemma SearchFirstPageComplete(p: SearchParams, rows: seq<Row>)
    requires Page(p) == 1 && PageSize(p) >= |Where(p, rows)|
    ensures multiset(PageRows(p, rows)) == multiset(Where(p, rows))
  {
    SearchPage(p, rows);
    var ordered := Ordered(p, rows);
    assert ordered[0..] == ordered;
    assert PageRows(p, rows) == ordered by {
      if PageSize(p) <= |ordered| {
        assert ordered[0..PageSize(p)] == ordered;
      }
    }
  }
}
