/**
 * The record service of server-sqlite/index.js over an in-memory
 * `diesel_records` table: create, list, CSV export and delete, each with the
 * HTTP outcome its handler sends. A storage failure is an input flag of the
 * operation that can fail; SQLite itself is not part of this model.
 */
module Store {
  import opened JsValues
  import opened Dates
  import opened Records
  import opened Query
  import opened Csv

  /** The body of a successful delete, `{ success: true, id }`. */
  datatype Deletion = Deletion(success: bool, id: int)

  /** What a handler sends back. */
  datatype Response<T> =
    | Created(value: T)
    | Ok(value: T)
    | Invalid(errors: seq<string>)
    | BadRequest(error: string)
    | NotFound(error: string)
    | Failed(error: string)
  {
    /** The HTTP status code of the response. */
    function Status(): int {
      match this
      case Created(_) => 201
      case Ok(_) => 200
      case Invalid(_) => 400
      case BadRequest(_) => 400
      case NotFound(_) => 404
      case Failed(_) => 500
    }
  }

  /** Ids strictly increase along the table. */
  predicate IdsIncreasing(rows: seq<Row>) {
    forall i, j :: 0 <= i < j < |rows| ==> rows[i].id < rows[j].id
  }

  /** Increasing ids are distinct ids. */
  lemma IncreasingUnique(rows: seq<Row>)
    requires IdsIncreasing(rows)
    ensures UniqueIds(rows)
  {
  }

  /** The table after `DELETE ... WHERE id = k`: every row with id `k` removed. */
  function RemoveId(rows: seq<Row>, k: int): seq<Row> {
    if rows == [] then []
    else (if rows[0].id == k then [] else [rows[0]]) + RemoveId(rows[1..], k)
  }

  /** A row survives the delete exactly when it was in the table and has another id. */
  lemma {:induction false} RemoveIdMembers(rows: seq<Row>, k: int, x: Row)
    ensures x in RemoveId(rows, k) <==> x in rows && x.id != k
  {
    if rows != [] {
      RemoveIdMembers(rows[1..], k, x);
      assert rows == [rows[0]] + rows[1..];
    }
  }

  /** Deleting an id no row has changes nothing. */
  lemma {:induction false} RemoveAbsentId(rows: seq<Row>, k: int)
    requires forall x :: x in rows ==> x.id != k
    ensures RemoveId(rows, k) == rows
  {
    if rows != [] {
      RemoveAbsentId(rows[1..], k);
      assert rows == [rows[0]] + rows[1..];
    }
  }

  /** Some row of `rows` has id `k`. */
  predicate HasId(rows: seq<Row>, k: int) {
    exists x :: x in rows && x.id == k
  }

  /** The delete removes a row exactly when some row has the id. */
  lemma {:induction false} RemoveIdLength(rows: seq<Row>, k: int)
    ensures |RemoveId(rows, k)| <= |rows|
    ensures |RemoveId(rows, k)| == |rows| <==> !HasId(rows, k)
  {
    if rows != [] {
      RemoveIdLength(rows[1..], k);
      assert rows == [rows[0]] + rows[1..];
    }
  }

  /**
   * With distinct ids, deleting the id of row `i` removes that row and no
   * other, and keeps the others in their order.
   */
  lemma {:induction false} RemoveIdExact(rows: seq<Row>, k: int, i: nat)
    requires UniqueIds(rows)
    requires i < |rows| && rows[i].id == k
    ensures RemoveId(rows, k) == rows[..i] + rows[i + 1..]
  {
    if i == 0 {
      forall x | x in rows[1..] ensures x.id != k {
        var j :| 0 <= j < |rows[1..]| && rows[1..][j] == x;
        assert rows[j + 1] == x;
      }
      RemoveAbsentId(rows[1..], k);
    } else {
      RemoveIdExact(rows[1..], k, i - 1);
      assert rows[1..][..i - 1] == rows[1..i];
      assert rows[1..][i..] == rows[i + 1..];
      assert rows[..i] == [rows[0]] + rows[1..i];
    }
  }

  /** The delete keeps the rows it does not remove in their order. */
  lemma {:induction false} RemoveIdIncreasing(rows: seq<Row>, k: int)
    requires IdsIncreasing(rows)
    ensures IdsIncreasing(RemoveId(rows, k))
  {
    if rows != [] {
      RemoveIdIncreasing(rows[1..], k);
      var rest := RemoveId(rows[1..], k);
      forall x | x in rest ensures rows[0].id < x.id {
        RemoveIdMembers(rows[1..], k, x);
        var j :| 0 <= j < |rows[1..]| && rows[1..][j] == x;
        assert rows[j + 1] == x;
      }
    }
  }

  /**
   * Ids are positive and below the counter, every row's id was handed out,
   * ids increase in insertion order, and every row satisfies what validation
   * guarantees.
   */
  ghost predicate TableInvariant(rows: seq<Row>, nextId: int, issued: set<int>) {
    && nextId >= 1
    && (forall id :: id in issued ==> 1 <= id < nextId)
    && (forall r :: r in rows ==> r.id in issued && WellFormedRow(r))
    && IdsIncreasing(rows)
  }

  /** Appending a well-formed row under the counter's id and advancing the counter keeps the invariant. */
  lemma AppendKeepsInvariant(rows: seq<Row>, nextId: int, issued: set<int>, row: Row)
    requires TableInvariant(rows, nextId, issued)
    requires row.id == nextId && WellFormedRow(row)
    ensures forall id :: id in issued ==> id < nextId
    ensures forall x :: x in rows ==> x.id < row.id
    ensures TableInvariant(rows + [row], nextId + 1, issued + {nextId})
  {
    var rows', issued' := rows + [row], issued + {nextId};
    forall x | x in rows ensures x.id < row.id {
      assert x.id in issued;
    }
    forall x | x in rows' ensures x.id in issued' && WellFormedRow(x) {
      if x != row {
        assert x in rows;
      }
    }
    forall i, j | 0 <= i < j < |rows'| ensures rows'[i].id < rows'[j].id {
      if j < |rows| {
        assert rows'[i] == rows[i] && rows'[j] == rows[j];
      } else {
        assert rows'[i] in rows;
      }
    }
  }

  /** Deleting by id keeps the invariant. */
  lemma RemoveKeepsInvariant(rows: seq<Row>, nextId: int, issued: set<int>, k: int)
    requires TableInvariant(rows, nextId, issued)
    ensures TableInvariant(RemoveId(rows, k), nextId, issued)
  {
    forall x | x in RemoveId(rows, k) ensures x in rows {
      RemoveIdMembers(rows, k, x);
    }
    RemoveIdIncreasing(rows, k);
  }

  /** The `diesel_records` table and its AUTOINCREMENT counter. */
  class RecordTable {
    /** The rows, in insertion order. */
    var rows: seq<Row>
    /** The id the next insert receives. */
    var nextId: int
    /** Every id ever handed out, including those of deleted rows. */
    ghost var issued: set<int>

    /** The table invariant on the current state. */
    ghost predicate Valid()
      reads this
    {
      TableInvariant(rows, nextId, issued)
    }

    /** `CREATE TABLE IF NOT EXISTS` on a fresh database: no rows, counter at 1. */
    constructor ()
      ensures Valid()
      ensures rows == [] && nextId == 1 && issued == {}
    {
      rows := [];
      nextId := 1;
      issued := {};
    }

    /**
     * `POST /api/records`. An invalid body gets every validation message and
     * leaves the table alone; so does a failed insert. Otherwise exactly one
     * row is appended: the trimmed lorry number and the given date, price and
     * volume, under an id above every id handed out before. A failure to read
     * the row back is reported, but the row stays inserted.
     */
    method Create(body: Body, now: string, insertFails: bool, fetchFails: bool) returns (r: Response<Row>)
      requires Valid()
      modifies this
      ensures Valid()
      ensures !Acceptable(body) ==>
        r == Invalid(ValidationErrors(body)) && unchanged(this)
      ensures Acceptable(body) && insertFails ==>
        r == Failed("Failed to create record") && unchanged(this)
      ensures Acceptable(body) && !insertFails ==>
        && (forall id :: id in old(issued) ==> id < old(nextId))
        && rows == old(rows) + [NewRow(body, old(nextId), now)]
        && nextId == old(nextId) + 1
        && issued == old(issued) + {old(nextId)}
        && r == if fetchFails then Failed("Failed to fetch created record") else Created(NewRow(body, old(nextId), now))
    {
      var failed := Validate(body);
      if failed != [] {
        return Invalid(Messages(failed));
      }
      if insertFails {
        return Failed("Failed to create record");
      }
      var row := NewRow(body, nextId, now);
      AppendKeepsInvariant(rows, nextId, issued, row);
      rows := rows + [row];
      issued := issued + {nextId};
      nextId := nextId + 1;
      if fetchFails {
        return Failed("Failed to fetch created record");
      }
      r := Created(row);
    }

    /**
     * `DELETE /api/records/:id`. An id that is not an integer is refused and
     * a failed delete is reported, both without change. Otherwise the rows
     * with that id go: if there were none the answer is not-found and the
     * table is as before, else the answer is `{ success: true, id }`.
     */
    method Delete(id: Num, deleteFails: bool) returns (r: Response<Deletion>)
      requires Valid()
      modifies this
      ensures Valid()
      ensures nextId == old(nextId) && issued == old(issued)
      ensures !IsInteger(id) ==> r == BadRequest("Invalid id") && rows == old(rows)
      ensures IsInteger(id) && deleteFails ==> r == Failed("Failed to delete record") && rows == old(rows)
      ensures IsInteger(id) && !deleteFails ==> rows == RemoveId(old(rows), id.value.Floor)
      ensures IsInteger(id) && !deleteFails && HasId(old(rows), id.value.Floor) ==>
        r == Ok(Deletion(true, id.value.Floor))
      ensures IsInteger(id) && !deleteFails && !HasId(old(rows), id.value.Floor) ==>
        r == NotFound("Record not found")
    {
      if !IsInteger(id) {
        r := BadRequest("Invalid id");
      } else if deleteFails {
        r := Failed("Failed to delete record");
      } else {
        var k := id.value.Floor;
        var kept := RemoveId(rows, k);
        var changes := |rows| - |kept|;
        RemoveIdLength(rows, k);
        RemoveKeepsInvariant(rows, nextId, issued, k);
        rows := kept;
        if changes == 0 {
          r := NotFound("Record not found");
        } else {
          r := Ok(Deletion(true, k));
        }
      }
    }

    /**
     * `GET /api/records`: the rows dated within the requested bounds, newest
     * date first and, on the same date, highest id first.
     */
    method List(q: DateRange, fails: bool) returns (r: Response<seq<Row>>)
      ensures fails ==> r == Failed("Failed to fetch records")
      ensures !fails ==> r == Ok(Select(rows, q))
    {
      var clauses, params := BuildFilter(q);
      if fails {
        return Failed("Failed to fetch records");
      }
      WhereIsMatching(rows, clauses, params, q);
      r := Ok(Order(Where(rows, clauses, params)));
    }

    /**
     * `GET /api/records/csv`: the same filter and order as the list, written
     * under the fixed six-column header.
     */
    method ExportCsv(q: DateRange, fails: bool) returns (r: Response<Document>)
      ensures fails ==> r == Failed("Failed to export CSV")
      ensures !fails ==> r.Ok? && r.value.header == Header() && Rows(r.value.records) == Some(Select(rows, q))
    {
      var clauses, params := BuildFilter(q);
      if fails {
        return Failed("Failed to export CSV");
      }
      WhereIsMatching(rows, clauses, params, q);
      var doc := Stringify(Order(Where(rows, clauses, params)));
      r := Ok(doc);
    }
  }

  /**
   * A fresh table: create one record, list everything, delete the record by
   * its id, list again. The record gets id 1 and holds the submitted fields,
   * the first list holds just that record, the delete answers
   * `{ success: true, id: 1 }`, and the second list is empty. A delete
   * succeeds only once: deleting id 1 again answers not-found.
   */
  method CreateListDelete(body: Body, now: string)
    returns (created: Response<Row>, listed: Response<seq<Row>>, deleted: Response<Deletion>,
             after: Response<seq<Row>>, deletedAgain: Response<Deletion>)
    requires Acceptable(body)
    ensures created == Created(NewRow(body, 1, now)) && created.Status() == 201
    ensures listed == Ok([created.value])
    ensures deleted == Ok(Deletion(true, 1))
    ensures after == Ok([])
    ensures deletedAgain == NotFound("Record not found") && deletedAgain.Status() == 404
  {
    var table := new RecordTable();
    created := table.Create(body, now, false, false);
    var row := NewRow(body, 1, now);
    assert table.rows == [row];
    var all := DateRange(None, None);
    listed := table.List(all, false);
    SelectAllSingle(row);
    var id := Finite(1.0);
    OneIsInteger();
    assert row in table.rows && row.id == 1;
    var before := table.rows;
    deleted := table.Delete(id, false);
    assert !deleted.NotFound?;
    RemoveOnlyRow(row);
    assert table.rows == RemoveId(before, 1) == [];
    after := table.List(all, false);
    SelectAllEmpty();
    deletedAgain := table.Delete(id, false);
  }

  /** Deleting the id of the only row empties the table. */
  lemma RemoveOnlyRow(row: Row)
    ensures RemoveId([row], row.id) == []
  {
    assert [row][1..] == [];
  }

  /** `Number("1")` is the integer 1. */
  lemma OneIsInteger()
    ensures IsInteger(Finite(1.0)) && Finite(1.0).value.Floor == 1
  {
  }

  /** Listing a one-row table without bounds gives that row. */
  lemma SelectAllSingle(row: Row)
    ensures Select([row], DateRange(None, None)) == [row]
  {
    var r := Select([row], DateRange(None, None));
    assert multiset(r) == multiset{row};
    assert |r| == 1 && r[0] in multiset(r);
  }

  /** Listing an empty table gives nothing. */
  lemma SelectAllEmpty()
    ensures Select([], DateRange(None, None)) == []
  {
    var r := Select([], DateRange(None, None));
    assert |r| == |multiset(r)| == 0;
  }

  /** The sample record of the service's documentation. */
  function SampleBody(): Body {
    Body(Some("KA01AB1234"), Some(Date(2024, 3, 1)), Finite(100.5), Finite(25.0))
  }

  /** The sample lorry number has no white space to trim. */
  lemma SampleLorryUnspaced()
    ensures Trim("KA01AB1234") == "KA01AB1234" && NonBlank("KA01AB1234")
  {
    var lorry := "KA01AB1234";
    assert !IsSpace(lorry[0]) && !IsSpace(lorry[|lorry| - 1]);
    TrimUnspaced(lorry);
  }

  /** The sample record passes validation and is stored with the fields as submitted. */
  lemma SampleRecordStoredAsSubmitted(now: string)
    ensures Acceptable(SampleBody())
    ensures NewRow(SampleBody(), 1, now) == Row(1, "KA01AB1234", Date(2024, 3, 1), Finite(100.5), Finite(25.0), now)
  {
    SampleLorryUnspaced();
  }
}
