/**
 * The `diesel_records` row and the validation of a create request
 * (`validate` in server-sqlite/index.js).
 */
module Records {
  import opened JsValues
  import opened Dates

  /**
   * One row of `diesel_records`. `price` and `liters` hold the number the
   * REAL column stores; `createdAt` is the opaque `datetime('now')` text.
   */
  datatype Row = Row(
    id: int,
    lorryNumber: string,
    recordDate: CalendarDate,
    price: Num,
    liters: Num,
    createdAt: string)

  /**
   * The JSON body of `POST /api/records` as `validate` sees it.
   * `lorryNumber` is `String(lorry_number)`, None when the field is falsy
   * (absent, null, empty, 0, false); `recordDate` is None when the field is
   * falsy; `price` and `liters` are `Number(price)` and `Number(liters)`.
   */
  datatype Body = Body(lorryNumber: Option<string>, recordDate: Option<CalendarDate>, price: Num, liters: Num)

  /** The four checked fields. */
  datatype Field = LorryNumber | RecordDate | Price | Liters

  /** The position of `f` in the order `validate` checks the fields. */
  function Index(f: Field): nat {
    match f
    case LorryNumber => 0
    case RecordDate => 1
    case Price => 2
    case Liters => 3
  }

  /** The fields in check order. */
  const CheckOrder: seq<Field> := [LorryNumber, RecordDate, Price, Liters]

  /** The message pushed when the check on `f` fails. */
  function Message(f: Field): string {
    match f
    case LorryNumber => "lorry_number is required"
    case RecordDate => "record_date is required (YYYY-MM-DD)"
    case Price => "price must be a positive number"
    case Liters => "liters must be a positive number"
  }

  /** Distinct fields have distinct messages. */
  lemma MessageInjective(f: Field, g: Field)
    ensures Message(f) == Message(g) <==> f == g
  {
    if f != g {
      assert |Message(f)| != |Message(g)|;
    }
  }

  /** The outcome of the four checks of `validate`: true where a check fails. */
  datatype Checks = Checks(lorryNumber: bool, recordDate: bool, price: bool, liters: bool)

  /** Whether the check on `f` failed. */
  predicate CheckFailed(c: Checks, f: Field) {
    match f
    case LorryNumber => c.lorryNumber
    case RecordDate => c.recordDate
    case Price => c.price
    case Liters => c.liters
  }

  /** The four checks as the source writes them. */
  function Check(b: Body): Checks {
    Checks(
      b.lorryNumber.None? || b.lorryNumber.value == "" || Trim(b.lorryNumber.value) == "",
      b.recordDate.None?,
      AtMostZero(b.price) || IsNaN(b.price),
      AtMostZero(b.liters) || IsNaN(b.liters))
  }

  /** A body the record store accepts, stated without the source's tests. */
  predicate Acceptable(b: Body) {
    && b.lorryNumber.Some? && NonBlank(b.lorryNumber.value)
    && b.recordDate.Some?
    && Positive(b.price)
    && Positive(b.liters)
  }

  /**
   * No check fails exactly when the body is acceptable: a non-blank lorry
   * number, a date, and a price and a volume that are numbers above zero.
   */
  lemma NoCheckFailsIffAcceptable(b: Body)
    ensures (forall f :: !CheckFailed(Check(b), f)) <==> Acceptable(b)
  {
    RejectedIffNotPositive(b.price);
    RejectedIffNotPositive(b.liters);
    if b.lorryNumber.Some? {
      TrimBlank(b.lorryNumber.value);
    }
    var c := Check(b);
    assert !CheckFailed(c, LorryNumber) && !CheckFailed(c, RecordDate) && !CheckFailed(c, Price) && !CheckFailed(c, Liters)
      ==> forall f :: !CheckFailed(c, f);
  }

  /** The fields of `fs` whose check failed, in the order of `fs`. */
  function FailedAmong(c: Checks, fs: seq<Field>): seq<Field> {
    if fs == [] then []
    else
      FailedAmong(c, fs[..|fs| - 1])
      + (if CheckFailed(c, fs[|fs| - 1]) then [fs[|fs| - 1]] else [])
  }

  /** The fields whose checks failed, in check order. */
  function FailingFields(c: Checks): seq<Field> {
    FailedAmong(c, CheckOrder)
  }

  /** The message of each field of `fs`, in order. */
  function Messages(fs: seq<Field>): (ms: seq<string>)
    ensures |ms| == |fs| && forall i :: 0 <= i < |fs| ==> ms[i] == Message(fs[i])
  {
    if fs == [] then [] else [Message(fs[0])] + Messages(fs[1..])
  }

  /** The list `validate` builds from the outcome of its checks. */
  function ErrorList(c: Checks): seq<string> {
    Messages(FailingFields(c))
  }

  /** The list `validate` returns for a body. */
  function ValidationErrors(b: Body): seq<string> {
    ErrorList(Check(b))
  }

  /** `[f]` when `failed` holds, else nothing: one check's contribution. */
  function Report(failed: bool, f: Field): seq<Field> {
    if failed then [f] else []
  }

  /** The failing fields, one check at a time. */
  lemma FailingFieldsByCheck(c: Checks)
    ensures FailingFields(c)
      == Report(c.lorryNumber, LorryNumber) + Report(c.recordDate, RecordDate)
      + Report(c.price, Price) + Report(c.liters, Liters)
  {
    var o := CheckOrder;
    assert o[..1][..0] == [] && o[..2][..1] == o[..1] && o[..3][..2] == o[..2] && o[..4][..3] == o[..3];
    assert FailedAmong(c, o[..1]) == Report(c.lorryNumber, LorryNumber);
    assert FailedAmong(c, o[..2]) == FailedAmong(c, o[..1]) + Report(c.recordDate, RecordDate);
    assert FailedAmong(c, o[..3]) == FailedAmong(c, o[..2]) + Report(c.price, Price);
    assert o[..4] == o;
  }

  /**
   * `validate`: runs all four checks in order, recording each one that fails.
   * It never stops at the first failure, and it reports nothing exactly when
   * the body is acceptable. It records the field of each failed check; the
   * messages the source pushes are `Messages(failed)` (see `ValidationErrors`).
   */
  method Validate(b: Body) returns (failed: seq<Field>)
    ensures failed == FailingFields(Check(b))
    ensures failed == [] <==> Acceptable(b)
  {
    ghost var c := Check(b);
    failed := [];
    if b.lorryNumber.None? || b.lorryNumber.value == "" || Trim(b.lorryNumber.value) == "" {
      failed := failed + [LorryNumber];
    }
    assert failed == Report(c.lorryNumber, LorryNumber);
    if b.recordDate.None? {
      failed := failed + [RecordDate];
    }
    assert failed == Report(c.lorryNumber, LorryNumber) + Report(c.recordDate, RecordDate);
    if AtMostZero(b.price) || IsNaN(b.price) {
      failed := failed + [Price];
    }
    assert failed == Report(c.lorryNumber, LorryNumber) + Report(c.recordDate, RecordDate)
      + Report(c.price, Price);
    if AtMostZero(b.liters) || IsNaN(b.liters) {
      failed := failed + [Liters];
    }
    FailingFieldsByCheck(c);
    FailingFieldsEmptyIff(c);
    NoCheckFailsIffAcceptable(b);
  }

  /** A field is among the failed ones exactly when it is listed and its check failed. */
  lemma {:induction false} FailedAmongMembers(c: Checks, fs: seq<Field>, f: Field)
    ensures f in FailedAmong(c, fs) <==> f in fs && CheckFailed(c, f)
  {
    if fs != [] {
      FailedAmongMembers(c, fs[..|fs| - 1], f);
      assert fs == fs[..|fs| - 1] + [fs[|fs| - 1]];
    }
  }

  /** Indices strictly increase along `fs`: check order, each field at most once. */
  predicate InCheckOrder(fs: seq<Field>) {
    forall i, j :: 0 <= i < j < |fs| ==> Index(fs[i]) < Index(fs[j])
  }

  /** Appending a field that comes later in the check order keeps the order. */
  lemma InCheckOrderAppend(fs: seq<Field>, g: Field, k: nat)
    requires InCheckOrder(fs) && forall f :: f in fs ==> Index(f) < k
    requires Index(g) >= k
    ensures InCheckOrder(fs + [g])
  {
    forall i, j | 0 <= i < j < |fs| + 1 ensures Index((fs + [g])[i]) < Index((fs + [g])[j]) {
      if j == |fs| {
        assert (fs + [g])[i] in fs;
      }
    }
  }

  /** Filtering keeps the check order. */
  lemma {:induction false} FailedAmongInOrder(c: Checks, fs: seq<Field>)
    requires InCheckOrder(fs)
    ensures InCheckOrder(FailedAmong(c, fs)) && |FailedAmong(c, fs)| <= |fs|
  {
    if fs != [] {
      var init := fs[..|fs| - 1];
      var last := fs[|fs| - 1];
      FailedAmongInOrder(c, init);
      if CheckFailed(c, last) {
        forall f | f in FailedAmong(c, init) ensures Index(f) < Index(last) {
          FailedAmongMembers(c, init, f);
          var k :| 0 <= k < |init| && init[k] == f;
        }
        InCheckOrderAppend(FailedAmong(c, init), last, Index(last));
      }
    }
  }

  /** No field fails exactly when no message is pushed. */
  lemma FailingFieldsEmptyIff(c: Checks)
    ensures FailingFields(c) == [] <==> forall f :: !CheckFailed(c, f)
  {
    forall f ensures f in FailingFields(c) <==> CheckFailed(c, f) {
      FailedAmongMembers(c, CheckOrder, f);
    }
    if FailingFields(c) != [] {
      assert FailingFields(c)[0] in FailingFields(c);
    }
  }

  /** Not fail-fast: the message of every failed check is in the list, and no other message. */
  lemma ErrorListReportsEveryFailure(c: Checks, f: Field)
    ensures Message(f) in ErrorList(c) <==> CheckFailed(c, f)
  {
    var fs := FailingFields(c);
    var e := ErrorList(c);
    FailedAmongMembers(c, CheckOrder, f);
    if Message(f) in e {
      var i :| 0 <= i < |e| && e[i] == Message(f);
      MessageInjective(fs[i], f);
    }
    if f in fs {
      var i :| 0 <= i < |fs| && fs[i] == f;
      assert e[i] == Message(f);
    }
  }

  /**
   * The messages come in the fixed check order lorry_number, record_date,
   * price, liters: every entry is one of the four messages, each at most
   * once and in that order, so there are at most four.
   */
  lemma ErrorListOrdered(c: Checks)
    ensures forall i :: 0 <= i < |ErrorList(c)| ==> exists f :: ErrorList(c)[i] == Message(f)
    ensures forall i, j, f, g ::
      0 <= i < j < |ErrorList(c)| && ErrorList(c)[i] == Message(f) && ErrorList(c)[j] == Message(g)
      ==> Index(f) < Index(g)
    ensures |ErrorList(c)| <= 4
  {
    var fs := FailingFields(c);
    FailedAmongInOrder(c, CheckOrder);
    MessagesInOrder(fs);
    assert ErrorList(c) == Messages(fs);
  }

  /** The messages of fields in check order are in check order too. */
  lemma MessagesInOrder(fs: seq<Field>)
    requires InCheckOrder(fs)
    ensures forall i :: 0 <= i < |fs| ==> exists f :: Messages(fs)[i] == Message(f)
    ensures forall i, j, f, g ::
      0 <= i < j < |fs| && Messages(fs)[i] == Message(f) && Messages(fs)[j] == Message(g)
      ==> Index(f) < Index(g)
  {
    var ms := Messages(fs);
    forall i | 0 <= i < |fs| ensures exists f :: ms[i] == Message(f) {
      assert ms[i] == Message(fs[i]);
    }
    forall i, j, f, g | 0 <= i < j < |fs| && ms[i] == Message(f) && ms[j] == Message(g)
      ensures Index(f) < Index(g)
    {
      MessageInjective(fs[i], f);
      MessageInjective(fs[j], g);
    }
  }

  /** A stored row satisfies the column constraints `validate` guarantees. */
  predicate WellFormedRow(r: Row) {
    && NonBlank(r.lorryNumber)
    && Unpadded(r.lorryNumber)
    && Positive(r.price)
    && Positive(r.liters)
  }

  /** The row the INSERT stores for an accepted body: the lorry number trimmed, the rest as given. */
  function NewRow(b: Body, id: int, createdAt: string): (r: Row)
    requires Acceptable(b)
    ensures WellFormedRow(r)
    ensures r.id == id && r.createdAt == createdAt && r.lorryNumber == Trim(b.lorryNumber.value)
    ensures r.recordDate == b.recordDate.value && r.price == b.price && r.liters == b.liters
  {
    TrimBlank(b.lorryNumber.value);
    Row(id, Trim(b.lorryNumber.value), b.recordDate.value, b.price, b.liters, createdAt)
  }
}
