/**
  The report store of db_manager.py (`ReportDatabase`): one `reports` table keyed by a text id,
  with an upsert, a lookup, a recency listing and a delete. The table is a sequence of rows in
  insertion order; `CURRENT_TIMESTAMP` is a logical clock that each save advances; the JSON
  column holding the answers is the answer map itself.
 */
module ReportDatabase {
  import opened Wrappers
  import opened Text
  import opened PyDict

  // ---------------------------------------------------------------------------
  // Report ids

  predicate IsHexDigit(c: char) {
    '0' <= c <= '9' || 'a' <= c <= 'f'
  }

  predicate IsHex(s: string) {
    forall i :: 0 <= i < |s| ==> IsHexDigit(s[i])
  }

  /** What `hashlib.md5(...).hexdigest()` returns: 32 lower-case hex digits. */
  type Md5Hex = s: string | |s| == 32 && IsHex(s)
    witness "00000000000000000000000000000000"

  /** generate_report_id: the first 8 hex digits of the MD5 of "{child}_{type}_{timestamp}". The
      hash and the clock reading are parameters. */
  function GenerateReportId(childName: string, reportType: string, timestamp: string, md5: string -> Md5Hex): (id: string)
    ensures |id| == 8 && IsHex(id)
    ensures id == md5(childName + "_" + reportType + "_" + timestamp)[..8]
  {
    md5(childName + "_" + reportType + "_" + timestamp)[..8]
  }

  // ---------------------------------------------------------------------------
  // Table

  /** One row of the `reports` table. */
  datatype Row = Row(
    id: string,
    reportType: string,
    childName: string,
    data: Dict,
    currentSection: int,
    isCompleted: bool,
    createdAt: nat,
    updatedAt: nat)

  /** The rows in insertion order, and the clock `CURRENT_TIMESTAMP` reads. */
  datatype Db = Db(rows: seq<Row>, clock: nat)

  /** The empty table that init_database creates. */
  const Empty := Db([], 0)

  /** What SQLite maintains: the id is a primary key, and no time stamp is ahead of the clock. */
  predicate Valid(db: Db) {
    UniqueIds(db.rows)
    && (forall i :: 0 <= i < |db.rows| ==> db.rows[i].createdAt <= db.rows[i].updatedAt <= db.clock)
  }

  /** The table init_database creates keeps the invariant and holds no report. */
  lemma EmptyStore(id: string, limit: int)
    ensures Valid(Empty)
    ensures LoadReport(Empty, id).None? && ListReports(Empty, limit) == []
  {
  }

  predicate HasId(rows: seq<Row>, id: string) {
    exists i :: 0 <= i < |rows| && rows[i].id == id
  }

  /** Position of the first row with this id, or -1. */
  function IndexOfId(rows: seq<Row>, id: string): (i: int)
    ensures -1 <= i < |rows|
    ensures 0 <= i ==> rows[i].id == id
    ensures forall j :: 0 <= j < |rows| && (i < 0 || j < i) ==> rows[j].id != id
  {
    if |rows| == 0 then -1
    else if rows[0].id == id then 0
    else
      var j := IndexOfId(rows[1..], id);
      if j < 0 then -1 else j + 1
  }

  // ---------------------------------------------------------------------------
  // save_report

  /** save_report: an existing id gets new data, section, completion flag and update time, and
      keeps its type, child name and creation time; an unknown id is inserted with both time
      stamps set to now. `elapsed` is how far the clock moved since the previous write (0 when
      both fall in the same second). The id passed in is returned. */
  function SaveReport(db: Db, reportId: string, reportType: string, childName: string, data: Dict,
                      currentSection: int, isCompleted: bool, elapsed: nat): (r: (Db, string))
    ensures r.1 == reportId
    ensures r.0.clock == db.clock + elapsed
    ensures HasId(db.rows, reportId) ==> |r.0.rows| == |db.rows|
    ensures !HasId(db.rows, reportId) ==>
      r.0.rows == db.rows + [Row(reportId, reportType, childName, data, currentSection, isCompleted, r.0.clock, r.0.clock)]
    ensures Valid(db) ==> Valid(r.0)
  {
    var now := db.clock + elapsed;
    var i := IndexOfId(db.rows, reportId);
    if i >= 0 then
      var prev := db.rows[i];
      var updated := prev.(data := data, currentSection := currentSection, updatedAt := now, isCompleted := isCompleted);
      (Db(db.rows[i := updated], now), reportId)
    else
      (Db(db.rows + [Row(reportId, reportType, childName, data, currentSection, isCompleted, now, now)], now), reportId)
  }

  /** An update rewrites only the four mutable columns of the saved row. */
  lemma SaveUpdatesInPlace(db: Db, reportId: string, reportType: string, childName: string, data: Dict,
                           currentSection: int, isCompleted: bool, elapsed: nat)
    requires HasId(db.rows, reportId)
    ensures var db' := SaveReport(db, reportId, reportType, childName, data, currentSection, isCompleted, elapsed).0;
      var i := IndexOfId(db.rows, reportId);
      0 <= i && db'.rows[i].id == reportId
      && db'.rows[i].reportType == db.rows[i].reportType
      && db'.rows[i].childName == db.rows[i].childName
      && db'.rows[i].createdAt == db.rows[i].createdAt
      && db'.rows[i].data == data && db'.rows[i].currentSection == currentSection
      && db'.rows[i].isCompleted == isCompleted && db'.rows[i].updatedAt == db'.clock
      && forall j :: 0 <= j < |db.rows| && j != i ==> db'.rows[j] == db.rows[j]
  {
  }

  // ---------------------------------------------------------------------------
  // load_report

  /** The dictionary load_report returns. */
  datatype Report = Report(
    reportType: string,
    childName: string,
    data: Dict,
    currentSection: int,
    isCompleted: bool,
    updatedAt: nat)

  /** load_report: the first row with this id (`fetchone`), or None. */
  function LoadReport(db: Db, reportId: string): (r: Option<Report>)
    ensures r.None? <==> !HasId(db.rows, reportId)
  {
    var i := IndexOfId(db.rows, reportId);
    if i < 0 then None
    else
      var row := db.rows[i];
      Some(Report(row.reportType, row.childName, row.data, row.currentSection, row.isCompleted, row.updatedAt))
  }

  /** Loading what was just saved gives back the data map, section and completion flag; the type
      and child name are the ones given when the report was first saved. */
  lemma LoadAfterSave(db: Db, reportId: string, reportType: string, childName: string, data: Dict,
                                         currentSection: int, isCompleted: bool, elapsed: nat)
    ensures var db' := SaveReport(db, reportId, reportType, childName, data, currentSection, isCompleted, elapsed).0;
      var before := LoadReport(db, reportId);
      LoadReport(db', reportId) == Some(Report(
        if before.Some? then before.value.reportType else reportType,
        if before.Some? then before.value.childName else childName,
        data, currentSection, isCompleted, db'.clock))
  {
    var db' := SaveReport(db, reportId, reportType, childName, data, currentSection, isCompleted, elapsed).0;
    var i := IndexOfId(db.rows, reportId);
    if i >= 0 {
      IndexOfIdSameIds(db'.rows, db.rows, reportId);
    } else {
      IndexOfIdAppend(db.rows, db'.rows[|db.rows|], reportId);
    }
  }

  /** Saving one report leaves every other report as it was. */
  lemma SaveKeepsOthers(db: Db, reportId: string, reportType: string, childName: string, data: Dict,
                        currentSection: int, isCompleted: bool, elapsed: nat, other: string)
    requires other != reportId
    ensures LoadReport(SaveReport(db, reportId, reportType, childName, data, currentSection, isCompleted, elapsed).0, other)
      == LoadReport(db, other)
  {
    var db' := SaveReport(db, reportId, reportType, childName, data, currentSection, isCompleted, elapsed).0;
    if HasId(db.rows, reportId) {
      IndexOfIdSameIds(db'.rows, db.rows, other);
    } else {
      IndexOfIdOther(db.rows, db'.rows[|db.rows|], other);
    }
  }

  lemma IndexOfIdSameIds(a: seq<Row>, b: seq<Row>, id: string)
    requires |a| == |b|
    requires forall k :: 0 <= k < |a| ==> a[k].id == b[k].id
    ensures IndexOfId(a, id) == IndexOfId(b, id)
  {
  }

  lemma IndexOfIdAppend(rows: seq<Row>, row: Row, id: string)
    requires !HasId(rows, id) && row.id == id
    ensures IndexOfId(rows + [row], id) == |rows|
  {
    assert (rows + [row])[|rows|] == row;
  }

  lemma IndexOfIdOther(rows: seq<Row>, row: Row, id: string)
    requires row.id != id
    ensures IndexOfId(rows + [row], id) == IndexOfId(rows, id)
  {
    assert forall k :: 0 <= k < |rows| ==> (rows + [row])[k] == rows[k];
  }

  // ---------------------------------------------------------------------------
  // delete_report

  /** The rows without the given id. */
  function Without(rows: seq<Row>, id: string): (r: seq<Row>)
    ensures |r| <= |rows|
    ensures |r| < |rows| <==> HasId(rows, id)
    ensures forall k :: 0 <= k < |r| ==> r[k].id != id
    ensures forall row :: row in r <==> row in rows && row.id != id
  {
    if |rows| == 0 then []
    else
      var rest := Without(rows[1..], id);
      HasIdCons(rows, id);
      MembersCons(rows);
      if rows[0].id == id then rest else [rows[0]] + rest
  }

  lemma HasIdCons(rows: seq<Row>, id: string)
    requires |rows| > 0
    ensures HasId(rows, id) <==> rows[0].id == id || HasId(rows[1..], id)
  {
    if HasId(rows, id) && rows[0].id != id {
      var k :| 0 <= k < |rows| && rows[k].id == id;
      assert rows[1..][k - 1].id == id;
    }
    if HasId(rows[1..], id) {
      var k :| 0 <= k < |rows| - 1 && rows[1..][k].id == id;
      assert rows[k + 1].id == id;
    }
  }

  lemma MembersCons<T>(s: seq<T>)
    requires |s| > 0
    ensures forall x :: x in s <==> x == s[0] || x in s[1..]
  {
    assert s == [s[0]] + s[1..];
  }

  predicate UniqueIds(rows: seq<Row>) {
    forall i, j :: 0 <= i < j < |rows| ==> rows[i].id != rows[j].id
  }

  /** delete_report: every row with the id is removed; the result says whether any was. */
  function DeleteReport(db: Db, reportId: string): (r: (Db, bool))
    ensures r.1 <==> HasId(db.rows, reportId)
    ensures r.0.clock == db.clock
    ensures LoadReport(r.0, reportId).None?
    ensures Valid(db) ==> Valid(r.0)
  {
    var rows := Without(db.rows, reportId);
    WithoutUnique(db.rows, reportId);
    (Db(rows, db.clock), |rows| < |db.rows|)
  }

  /** Removing rows cannot make two ids clash. */
  lemma {:induction false} WithoutUnique(rows: seq<Row>, id: string)
    ensures UniqueIds(rows) ==> UniqueIds(Without(rows, id))
  {
    if |rows| > 0 && UniqueIds(rows) {
      WithoutUnique(rows[1..], id);
      var rest := Without(rows[1..], id);
      if rows[0].id != id {
        forall k | 0 <= k < |rest|
          ensures rest[k].id != rows[0].id
        {
          assert rest[k] in rows[1..];
          var m :| 0 <= m < |rows| - 1 && rows[1..][m] == rest[k];
          assert rows[m + 1] == rest[k];
        }
        assert Without(rows, id) == [rows[0]] + rest;
      }
    }
  }

  /** Deleting a report leaves every other report as it was, when ids are unique. */
  lemma DeleteKeepsOthers(db: Db, reportId: string, other: string)
    requires Valid(db) && other != reportId
    ensures LoadReport(DeleteReport(db, reportId).0, other) == LoadReport(db, other)
  {
    var rows := Without(db.rows, reportId);
    var i := IndexOfId(db.rows, other);
    var k := IndexOfId(rows, other);
    if i >= 0 {
      assert db.rows[i] in rows;
      assert k >= 0;
      assert rows[k] in db.rows;
      var m :| 0 <= m < |db.rows| && db.rows[m] == rows[k];
      assert m == i;
    }
  }

  /** A second delete of the same id finds nothing. */
  lemma DeleteTwice(db: Db, reportId: string)
    ensures !DeleteReport(DeleteReport(db, reportId).0, reportId).1
  {
  }

  // ---------------------------------------------------------------------------
  // list_reports

  /** The dictionary list_reports returns for each row. */
  datatype Summary = Summary(id: string, reportType: string, childName: string, updatedAt: nat, isCompleted: bool)

  function SummaryOf(row: Row): Summary {
    Summary(row.id, row.reportType, row.childName, row.updatedAt, row.isCompleted)
  }

  predicate SortedByRecency(rows: seq<Row>) {
    forall i, j :: 0 <= i < j < |rows| ==> rows[i].updatedAt >= rows[j].updatedAt
  }

  /** Places `row` before the first row that is not more recent. */
  function Insert(row: Row, sorted: seq<Row>): (r: seq<Row>)
    requires SortedByRecency(sorted)
    ensures SortedByRecency(r)
    ensures forall k :: 0 <= k < |r| ==> r[k] == row || r[k] in sorted
  {
    if |sorted| == 0 || sorted[0].updatedAt <= row.updatedAt then
      [row] + sorted
    else
      var rest := Insert(row, sorted[1..]);
      assert forall k :: 0 <= k < |rest| ==> rest[k].updatedAt <= sorted[0].updatedAt by {
        forall k | 0 <= k < |rest|
          ensures rest[k].updatedAt <= sorted[0].updatedAt
        {
          if rest[k] != row {
            var m :| 0 <= m < |sorted| - 1 && sorted[1..][m] == rest[k];
            assert sorted[m + 1] == rest[k];
          }
        }
      }
      [sorted[0]] + rest
  }

  /** Inserting adds exactly the one row. */
  lemma {:induction false} InsertPermutes(row: Row, sorted: seq<Row>)
    requires SortedByRecency(sorted)
    ensures multiset(Insert(row, sorted)) == multiset(sorted) + multiset{row}
  {
    if |sorted| > 0 && sorted[0].updatedAt > row.updatedAt {
      InsertPermutes(row, sorted[1..]);
      assert sorted == [sorted[0]] + sorted[1..];
    }
  }

  /** `ORDER BY updated_at DESC`: most recently updated first. SQL leaves the order of equal time
      stamps open; this sort keeps table order among them. */
  function SortByRecency(rows: seq<Row>): (r: seq<Row>)
    ensures SortedByRecency(r)
    ensures multiset(r) == multiset(rows)
  {
    if |rows| == 0 then []
    else
      var rest := SortByRecency(rows[1..]);
      InsertPermutes(rows[0], rest);
      assert rows == [rows[0]] + rows[1..];
      Insert(rows[0], rest)
  }

  /** A reordering has the same length and the same members. */
  lemma SameMembers(a: seq<Row>, b: seq<Row>)
    requires multiset(a) == multiset(b)
    ensures |a| == |b|
    ensures forall k :: 0 <= k < |a| ==> a[k] in b
    ensures forall k :: 0 <= k < |b| ==> b[k] in a
  {
    assert |a| == |multiset(a)| == |multiset(b)| == |b|;
    forall k | 0 <= k < |a|
      ensures a[k] in b
    {
      assert a[k] in multiset(a);
    }
    forall k | 0 <= k < |b|
      ensures b[k] in a
    {
      assert b[k] in multiset(b);
    }
  }

  /** `LIMIT n`: at most n rows; a negative limit means no limit in SQLite. */
  function Limit<T>(s: seq<T>, limit: int): (r: seq<T>)
    ensures limit < 0 || limit >= |s| ==> r == s
    ensures 0 <= limit < |s| ==> r == s[..limit]
  {
    if limit < 0 || limit >= |s| then s else s[..limit]
  }

  function Summaries(rows: seq<Row>): (r: seq<Summary>)
    ensures |r| == |rows|
    ensures forall i :: 0 <= i < |rows| ==> r[i] == SummaryOf(rows[i])
  {
    if |rows| == 0 then [] else [SummaryOf(rows[0])] + Summaries(rows[1..])
  }

  lemma SummariesAppend(a: seq<Row>, b: seq<Row>)
    ensures Summaries(a + b) == Summaries(a) + Summaries(b)
  {
    var l, r := Summaries(a + b), Summaries(a) + Summaries(b);
    forall i | 0 <= i < |l|
      ensures l[i] == r[i]
    {
      if i < |a| {
        assert (a + b)[i] == a[i];
      } else {
        assert (a + b)[i] == b[i - |a|];
      }
    }
  }

  lemma Cancel<T>(x: multiset<T>, y: multiset<T>, e: T)
    requires x + multiset{e} == y + multiset{e}
    ensures x == y
  {
    forall z
      ensures x[z] == y[z]
    {
      assert (x + multiset{e})[z] == (y + multiset{e})[z];
    }
  }

  /** Taking the first element off one of two reorderings, and a matching element off the
      other, leaves two reorderings. */
  lemma RemoveMatched<T>(a: seq<T>, b: seq<T>, k: nat)
    requires multiset(a) == multiset(b) && |a| > 0 && k < |b| && b[k] == a[0]
    ensures multiset(a[1..]) == multiset(b[..k] + b[k + 1..])
  {
    assert a == [a[0]] + a[1..];
    assert b == b[..k] + [b[k]] + b[k + 1..];
    var rest := b[..k] + b[k + 1..];
    assert multiset(b) == multiset(rest) + multiset{a[0]};
    assert multiset(a) == multiset(a[1..]) + multiset{a[0]};
    Cancel(multiset(a[1..]), multiset(rest), a[0]);
  }

  lemma SpliceAt<T>(b: seq<T>, k: nat)
    requires k < |b|
    ensures b == b[..k] + [b[k]] + b[k + 1..]
  {
  }

  lemma SummariesHead(rows: seq<Row>)
    requires |rows| > 0
    ensures multiset(Summaries(rows)) == multiset{SummaryOf(rows[0])} + multiset(Summaries(rows[1..]))
  {
  }

  /** The summaries of rows around one row: those before, its own, those after. */
  lemma SummariesSplice(front: seq<Row>, x: Row, back: seq<Row>)
    ensures multiset(Summaries(front + [x] + back))
      == multiset(Summaries(front)) + multiset{SummaryOf(x)} + multiset(Summaries(back))
  {
    SummariesAppend(front + [x], back);
    SummariesAppend(front, [x]);
    assert Summaries([x]) == [SummaryOf(x)];
  }

  /** Rows that are a reordering of each other have summaries that are a reordering too. */
  lemma {:induction false} SummariesPermute(a: seq<Row>, b: seq<Row>)
    requires multiset(a) == multiset(b)
    ensures multiset(Summaries(a)) == multiset(Summaries(b))
    decreases |a|
  {
    if |a| == 0 {
      assert |b| == |multiset(b)| == 0;
    } else {
      var x := a[0];
      assert x in multiset(b);
      var k :| 0 <= k < |b| && b[k] == x;
      var front, back := b[..k], b[k + 1..];
      RemoveMatched(a, b, k);
      SummariesPermute(a[1..], front + back);
      SummariesAppend(front, back);
      SummariesHead(a);
      SpliceAt(b, k);
      SummariesSplice(front, x, back);
    }
  }

  /** Limiting keeps some of the summaries. */
  lemma LimitSummaries(rows: seq<Row>, limit: int)
    ensures multiset(Summaries(Limit(rows, limit))) <= multiset(Summaries(rows))
  {
    if 0 <= limit < |rows| {
      var all := Summaries(rows);
      assert Summaries(rows[..limit]) == all[..limit];
      assert all == all[..limit] + all[limit..];
    }
  }

  /** Sorting keeps the number of rows. */
  lemma SortedLength(rows: seq<Row>)
    ensures |SortByRecency(rows)| == |rows|
  {
    var sorted := SortByRecency(rows);
    assert |sorted| == |multiset(sorted)| == |multiset(rows)| == |rows|;
  }

  /** The summaries of the first rows of a sorted table are newest first. */
  lemma ListedInOrder(sorted: seq<Row>, limit: int)
    requires SortedByRecency(sorted)
    ensures var r := Summaries(Limit(sorted, limit));
      forall i, j :: 0 <= i < j < |r| ==> r[i].updatedAt >= r[j].updatedAt
  {
    var listed := Limit(sorted, limit);
    var r := Summaries(listed);
    forall i, j | 0 <= i < j < |r|
      ensures r[i].updatedAt >= r[j].updatedAt
    {
      assert r[i] == SummaryOf(listed[i]) && r[j] == SummaryOf(listed[j]);
      assert listed[i] == sorted[i] && listed[j] == sorted[j];
    }
  }

  /** list_reports: the `limit` most recently updated reports, newest first. */
  function ListReports(db: Db, limit: int): (r: seq<Summary>)
    ensures |r| <= |db.rows|
    ensures limit >= 0 ==> |r| <= limit
    ensures limit < 0 || limit >= |db.rows| ==> |r| == |db.rows|
    ensures 0 <= limit < |db.rows| ==> |r| == limit
    ensures forall i, j :: 0 <= i < j < |r| ==> r[i].updatedAt >= r[j].updatedAt
    ensures multiset(r) <= multiset(Summaries(db.rows))
    ensures limit < 0 || limit >= |db.rows| ==> multiset(r) == multiset(Summaries(db.rows))
  {
    var sorted := SortByRecency(db.rows);
    SortedLength(db.rows);
    ListedInOrder(sorted, limit);
    SummariesPermute(sorted, db.rows);
    LimitSummaries(sorted, limit);
    Summaries(Limit(sorted, limit))
  }

  /** Every report left out of the listing is no more recent than any report in it. */
  lemma ListedAreMostRecent(db: Db, limit: int, k: int)
    requires 0 <= k < |db.rows|
    ensures var listing := ListReports(db, limit);
      SummaryOf(db.rows[k]) in listing
      || forall i :: 0 <= i < |listing| ==> listing[i].updatedAt >= db.rows[k].updatedAt
  {
    var sorted := SortByRecency(db.rows);
    SameMembers(sorted, db.rows);
    assert db.rows[k] in sorted;
    var m :| 0 <= m < |sorted| && sorted[m] == db.rows[k];
    LeftOutNoNewer(sorted, limit, m);
  }

  /** In a sorted table, a row outside the first `limit` is no newer than any row inside. */
  lemma LeftOutNoNewer(sorted: seq<Row>, limit: int, m: int)
    requires SortedByRecency(sorted) && 0 <= m < |sorted|
    ensures var listing := Summaries(Limit(sorted, limit));
      SummaryOf(sorted[m]) in listing
      || forall i :: 0 <= i < |listing| ==> listing[i].updatedAt >= sorted[m].updatedAt
  {
    var listed := Limit(sorted, limit);
    var listing := Summaries(listed);
    if m < |listed| {
      assert listed[m] == sorted[m];
      assert listing[m] == SummaryOf(sorted[m]);
    } else {
      forall i | 0 <= i < |listing|
        ensures listing[i].updatedAt >= sorted[m].updatedAt
      {
        assert listing[i] == SummaryOf(listed[i]) && listed[i] == sorted[i];
      }
    }
  }

  /** With the clock moving on, the report just saved heads the listing. */
  lemma SavedReportListedFirst(db: Db, reportId: string, reportType: string, childName: string, data: Dict,
                               currentSection: int, isCompleted: bool, elapsed: nat, limit: int)
    requires Valid(db) && elapsed > 0 && limit != 0
    ensures var db' := SaveReport(db, reportId, reportType, childName, data, currentSection, isCompleted, elapsed).0;
      |ListReports(db', limit)| > 0 && ListReports(db', limit)[0].id == reportId
  {
    var db' := SaveReport(db, reportId, reportType, childName, data, currentSection, isCompleted, elapsed).0;
    LoadAfterSave(db, reportId, reportType, childName, data, currentSection, isCompleted, elapsed);
    var i := IndexOfId(db'.rows, reportId);
    forall k | 0 <= k < |db'.rows| && db'.rows[k].id != reportId
      ensures db'.rows[k].updatedAt < db'.clock
    {
      OnlySavedRowIsNew(db, reportId, reportType, childName, data, currentSection, isCompleted, elapsed, k);
    }
    NewestHeadsSort(db'.rows, i, db'.clock);
    var sorted := SortByRecency(db'.rows);
    assert Limit(sorted, limit)[0] == sorted[0];
  }

  /** When one row is strictly newer than every row with another id, sorting puts a row with
      its id first. */
  lemma NewestHeadsSort(rows: seq<Row>, i: int, t: nat)
    requires 0 <= i < |rows| && rows[i].updatedAt >= t
    requires forall k :: 0 <= k < |rows| && rows[k].id != rows[i].id ==> rows[k].updatedAt < t
    ensures |SortByRecency(rows)| == |rows|
    ensures SortByRecency(rows)[0].id == rows[i].id
  {
    var sorted := SortByRecency(rows);
    SameMembers(sorted, rows);
    assert rows[i] in sorted;
    var m :| 0 <= m < |sorted| && sorted[m] == rows[i];
    assert sorted[0].updatedAt >= t;
    assert sorted[0] in rows;
  }

  /** After a save that advanced the clock, every other row is older than the clock. */
  lemma OnlySavedRowIsNew(db: Db, reportId: string, reportType: string, childName: string, data: Dict,
                          currentSection: int, isCompleted: bool, elapsed: nat, k: int)
    requires Valid(db) && elapsed > 0
    requires var db' := SaveReport(db, reportId, reportType, childName, data, currentSection, isCompleted, elapsed).0;
      0 <= k < |db'.rows| && db'.rows[k].id != reportId
    ensures var db' := SaveReport(db, reportId, reportType, childName, data, currentSection, isCompleted, elapsed).0;
      db'.rows[k].updatedAt < db'.clock
  {
    var i := IndexOfId(db.rows, reportId);
    if i >= 0 {
      assert k != i;
    }
  }
}
