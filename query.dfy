/**
 * The query behind `GET /api/records` and `GET /api/records/csv`: the WHERE
 * clause built from the optional `start_date` / `end_date` bounds, and
 * `ORDER BY date(record_date) DESC, id DESC`.
 */
module Query {
  import opened JsValues
  import opened Dates
  import opened Records

  /** The two query parameters; None when a parameter is absent or empty (falsy). */
  datatype DateRange = DateRange(start: Option<CalendarDate>, end: Option<CalendarDate>)

  /** The clauses the filter builder can push, in typed form. */
  datatype Clause = OnOrAfter | OnOrBefore

  /** The SQL text of a clause; its `?` is bound to the matching parameter. */
  function ClauseText(c: Clause): string {
    match c
    case OnOrAfter => "date(record_date) >= date(?)"
    case OnOrBefore => "date(record_date) <= date(?)"
  }

  /** `clauses.join(" AND ")` over the texts of non-empty `clauses`. */
  function JoinAnd(clauses: seq<Clause>): string
    requires clauses != []
  {
    if |clauses| == 1 then ClauseText(clauses[0])
    else JoinAnd(clauses[..|clauses| - 1]) + " AND " + ClauseText(clauses[|clauses| - 1])
  }

  /** The `where` fragment: nothing without clauses, else `WHERE` and the joined clauses. */
  function WhereText(clauses: seq<Clause>): string {
    if clauses == [] then "" else "WHERE " + JoinAnd(clauses)
  }

  /** What SQLite decides for one clause bound to `bound`, on a row dated `d`. */
  predicate Holds(c: Clause, bound: CalendarDate, d: CalendarDate) {
    match c
    case OnOrAfter => NotAfter(bound, d)
    case OnOrBefore => NotAfter(d, bound)
  }

  /** The WHERE condition: every clause holds with its own parameter. */
  predicate SatisfiesAll(clauses: seq<Clause>, params: seq<CalendarDate>, d: CalendarDate)
    requires |clauses| == |params|
  {
    forall i :: 0 <= i < |clauses| ==> Holds(clauses[i], params[i], d)
  }

  /** The inclusive date range the request asks for, each bound optional. */
  predicate InRange(q: DateRange, d: CalendarDate) {
    (q.start.Some? ==> NotAfter(q.start.value, d))
    && (q.end.Some? ==> NotAfter(d, q.end.value))
  }

  /**
   * The filter builder: one clause and one parameter per supplied bound,
   * the start bound first. The clauses it builds select exactly the dates in
   * the requested range.
   */
  method BuildFilter(q: DateRange) returns (clauses: seq<Clause>, params: seq<CalendarDate>)
    ensures |clauses| == |params| == (if q.start.Some? then 1 else 0) + (if q.end.Some? then 1 else 0)
    ensures q.start.Some? ==> clauses[0] == OnOrAfter && params[0] == q.start.value
    ensures q.end.Some? ==> clauses[|clauses| - 1] == OnOrBefore && params[|params| - 1] == q.end.value
    ensures forall d :: SatisfiesAll(clauses, params, d) <==> InRange(q, d)
    ensures WhereText(clauses) == "" <==> q.start.None? && q.end.None?
    ensures q.start.Some? && q.end.Some? ==> clauses == [OnOrAfter, OnOrBefore]
  {
    clauses, params := [], [];
    if q.start.Some? {
      clauses := clauses + [OnOrAfter];
      params := params + [q.start.value];
    }
    if q.end.Some? {
      clauses := clauses + [OnOrBefore];
      params := params + [q.end.value];
    }
  }

  /** With both bounds the WHERE fragment joins the start and end clauses with AND. */
  lemma WhereTextBothBounds()
    ensures WhereText([OnOrAfter, OnOrBefore])
      == "WHERE " + ClauseText(OnOrAfter) + " AND " + ClauseText(OnOrBefore)
  {
    var cs := [OnOrAfter, OnOrBefore];
    assert cs[..1] == [OnOrAfter];
    assert JoinAnd(cs) == ClauseText(OnOrAfter) + " AND " + ClauseText(OnOrBefore);
  }

  /** The rows of `rows` that pass the WHERE condition, as SQLite evaluates it. */
  function Where(rows: seq<Row>, clauses: seq<Clause>, params: seq<CalendarDate>): (r: seq<Row>)
    requires |clauses| == |params|
  {
    if rows == [] then []
    else
      (if SatisfiesAll(clauses, params, rows[0].recordDate) then [rows[0]] else [])
      + Where(rows[1..], clauses, params)
  }

  /** The rows of `rows` dated within `q`, in table order. */
  function Matching(rows: seq<Row>, q: DateRange): seq<Row> {
    if rows == [] then []
    else
      (if InRange(q, rows[0].recordDate) then [rows[0]] else [])
      + Matching(rows[1..], q)
  }

  /** `Matching` keeps every row in range, as often as the table holds it, and nothing else. */
  lemma {:induction false} MatchingCount(rows: seq<Row>, q: DateRange, x: Row)
    ensures multiset(Matching(rows, q))[x] == if InRange(q, x.recordDate) then multiset(rows)[x] else 0
  {
    if rows != [] {
      MatchingCount(rows[1..], q, x);
      assert rows == [rows[0]] + rows[1..];
    }
  }

  /** Every row `Matching` keeps comes from the table. */
  lemma {:induction false} MatchingSubset(rows: seq<Row>, q: DateRange)
    ensures forall x :: x in Matching(rows, q) ==> x in rows
  {
    if rows != [] {
      MatchingSubset(rows[1..], q);
    }
  }

  /** Filtering keeps ids unique. */
  lemma {:induction false} MatchingUnique(rows: seq<Row>, q: DateRange)
    requires UniqueIds(rows)
    ensures UniqueIds(Matching(rows, q))
  {
    if rows != [] {
      MatchingUnique(rows[1..], q);
      MatchingSubset(rows[1..], q);
      var rest := Matching(rows[1..], q);
      forall x | x in rest ensures x.id != rows[0].id {
        var k :| 0 <= k < |rows[1..]| && rows[1..][k] == x;
        assert rows[k + 1] == x;
      }
    }
  }

  /** Clauses that select exactly the range `q` filter the table as `Matching` does. */
  lemma {:induction false} WhereIsMatching(rows: seq<Row>, clauses: seq<Clause>, params: seq<CalendarDate>, q: DateRange)
    requires |clauses| == |params|
    requires forall d :: SatisfiesAll(clauses, params, d) <==> InRange(q, d)
    ensures Where(rows, clauses, params) == Matching(rows, q)
  {
    if rows != [] {
      WhereIsMatching(rows[1..], clauses, params, q);
    }
  }

  /** No two rows share an id. */
  predicate UniqueIds(s: seq<Row>) {
    forall i, j :: 0 <= i < j < |s| ==> s[i].id != s[j].id
  }

  /** `a` comes strictly before `b` under `ORDER BY date(record_date) DESC, id DESC`. */
  predicate ListedBefore(a: Row, b: Row) {
    Before(b.recordDate, a.recordDate) || (a.recordDate == b.recordDate && a.id > b.id)
  }

  /** No row is listed after one that the order puts after it. */
  predicate Ordered(s: seq<Row>) {
    forall i, j :: 0 <= i < j < |s| ==> !ListedBefore(s[j], s[i])
  }

  /** Rows with different ids are always ordered one way or the other. */
  lemma ListedBeforeTotal(a: Row, b: Row)
    requires a.id != b.id
    ensures ListedBefore(a, b) != ListedBefore(b, a)
  {
  }

  /** Inserts `x` into the ordered `s` in front of the first row it is not listed after. */
  function Insert(x: Row, s: seq<Row>): seq<Row> {
    if s == [] || !ListedBefore(s[0], x) then [x] + s
    else [s[0]] + Insert(x, s[1..])
  }

  /** Insertion adds `x` and keeps the rest. */
  lemma {:induction false} InsertMultiset(x: Row, s: seq<Row>)
    ensures multiset(Insert(x, s)) == multiset(s) + multiset{x}
  {
    if s != [] && ListedBefore(s[0], x) {
      InsertMultiset(x, s[1..]);
      assert s == [s[0]] + s[1..];
    }
  }

  /** Every row of `Insert(x, s)` is `x` or a row of `s`. */
  lemma InsertMembers(x: Row, s: seq<Row>, y: Row)
    requires y in Insert(x, s)
    ensures y == x || y in s
  {
    InsertMultiset(x, s);
    assert y in multiset(Insert(x, s));
  }

  /** Insertion keeps the list order. */
  lemma {:induction false} InsertOrdered(x: Row, s: seq<Row>)
    requires Ordered(s)
    ensures Ordered(Insert(x, s))
  {
    if s != [] && ListedBefore(s[0], x) {
      InsertOrdered(x, s[1..]);
      var rest := Insert(x, s[1..]);
      forall y | y in rest ensures !ListedBefore(y, s[0]) {
        InsertMembers(x, s[1..], y);
        if y != x {
          var k :| 0 <= k < |s[1..]| && s[1..][k] == y;
          assert s[k + 1] == y;
        }
      }
    }
  }

  /** Insertion of a row with a fresh id keeps ids unique. */
  lemma {:induction false} InsertUnique(x: Row, s: seq<Row>)
    requires UniqueIds(s) && forall y :: y in s ==> y.id != x.id
    ensures UniqueIds(Insert(x, s))
  {
    if s != [] && ListedBefore(s[0], x) {
      InsertUnique(x, s[1..]);
      var rest := Insert(x, s[1..]);
      forall y | y in rest ensures y.id != s[0].id {
        InsertMembers(x, s[1..], y);
        if y != x {
          var k :| 0 <= k < |s[1..]| && s[1..][k] == y;
          assert s[k + 1] == y;
        }
      }
    }
  }

  /** The rows of `s` in list order: an insertion sort standing for SQLite's ORDER BY. */
  function Order(s: seq<Row>): seq<Row> {
    if s == [] then [] else Insert(s[0], Order(s[1..]))
  }

  /** Sorting keeps exactly the rows it is given. */
  lemma {:induction false} OrderMultiset(s: seq<Row>)
    ensures multiset(Order(s)) == multiset(s)
  {
    if s != [] {
      OrderMultiset(s[1..]);
      InsertMultiset(s[0], Order(s[1..]));
      assert s == [s[0]] + s[1..];
    }
  }

  /** Sorting yields the list order. */
  lemma {:induction false} OrderOrdered(s: seq<Row>)
    ensures Ordered(Order(s))
  {
    if s != [] {
      OrderOrdered(s[1..]);
      InsertOrdered(s[0], Order(s[1..]));
    }
  }

  /** Sorting keeps ids unique. */
  lemma {:induction false} OrderUnique(s: seq<Row>)
    requires UniqueIds(s)
    ensures UniqueIds(Order(s))
  {
    if s != [] {
      OrderUnique(s[1..]);
      OrderMultiset(s[1..]);
      forall y | y in Order(s[1..]) ensures y.id != s[0].id {
        assert y in multiset(Order(s[1..]));
        var k :| 0 <= k < |s[1..]| && s[1..][k] == y;
        assert s[k + 1] == y;
      }
      InsertUnique(s[0], Order(s[1..]));
    }
  }

  /** Of two ordered arrangements of the same rows with distinct ids, the first rows agree. */
  lemma OrderedHeads(s: seq<Row>, t: seq<Row>)
    requires UniqueIds(s) && Ordered(s) && Ordered(t)
    requires multiset(s) == multiset(t) && s != []
    ensures t != [] && s[0] == t[0]
  {
    assert s[0] in multiset(t);
    assert t[0] in multiset(s);
    var i :| 0 <= i < |s| && s[i] == t[0];
    var j :| 0 <= j < |t| && t[j] == s[0];
    if i != 0 {
      ListedBeforeTotal(s[0], s[i]);
    }
  }

  /**
   * Two ordered arrangements of the same rows with distinct ids are equal:
   * `ORDER BY date DESC, id DESC` leaves no freedom.
   */
  lemma {:induction false} OrderedUnique(s: seq<Row>, t: seq<Row>)
    requires UniqueIds(s) && Ordered(s) && Ordered(t)
    requires multiset(s) == multiset(t)
    ensures s == t
  {
    assert |t| == |multiset(t)| == |s|;
    if s != [] {
      OrderedHeads(s, t);
      assert s == [s[0]] + s[1..];
      assert t == [t[0]] + t[1..];
      assert multiset(s[1..]) == multiset(s) - multiset{s[0]};
      assert multiset(t[1..]) == multiset(t) - multiset{t[0]};
      OrderedUnique(s[1..], t[1..]);
    }
  }

  /**
   * The rows the list returns: exactly those dated within `q`, each once per
   * table row, ordered by date descending and then id descending. With no
   * bound at all, every row of the table.
   */
  function Select(rows: seq<Row>, q: DateRange): (r: seq<Row>)
    ensures Ordered(r)
    ensures forall x :: multiset(r)[x] == if InRange(q, x.recordDate) then multiset(rows)[x] else 0
    ensures forall x :: x in r <==> x in rows && InRange(q, x.recordDate)
    ensures q.start.None? && q.end.None? ==> multiset(r) == multiset(rows)
  {
    var m := Matching(rows, q);
    var r := Order(m);
    OrderOrdered(m);
    OrderMultiset(m);
    forall x ensures multiset(r)[x] == if InRange(q, x.recordDate) then multiset(rows)[x] else 0 {
      MatchingCount(rows, q, x);
    }
    assert forall x :: x in r <==> x in multiset(r);
    assert forall x :: x in rows <==> x in multiset(rows);
    r
  }

  /**
   * When ids are unique the list order is fully determined: any ordered
   * arrangement of the rows in range is the list.
   */
  lemma SelectDetermined(rows: seq<Row>, q: DateRange, t: seq<Row>)
    requires UniqueIds(rows)
    requires Ordered(t)
    requires forall x :: multiset(t)[x] == if InRange(q, x.recordDate) then multiset(rows)[x] else 0
    ensures t == Select(rows, q)
  {
    var m := Matching(rows, q);
    MatchingUnique(rows, q);
    OrderUnique(m);
    OrderMultiset(m);
    OrderOrdered(m);
    forall x ensures multiset(t)[x] == multiset(Order(m))[x] {
      MatchingCount(rows, q, x);
    }
    OrderedUnique(Order(m), t);
  }
}
