/**
 * The CSV export of `GET /api/records/csv`: a header line naming six columns,
 * then one record per selected row holding those six fields in the same
 * order. The quoting done by the CSV library is not part of this model;
 * a record is the sequence of its typed cells.
 */
module Csv {
  import opened JsValues
  import opened Dates
  import opened Records

  /** The exported columns. */
  datatype Column = IdColumn | LorryNumberColumn | RecordDateColumn | PriceColumn | LitersColumn | CreatedAtColumn

  /** The columns in the order the export lists them. */
  const Columns: seq<Column> :=
    [IdColumn, LorryNumberColumn, RecordDateColumn, PriceColumn, LitersColumn, CreatedAtColumn]

  /** The name of a column, as the header writes it and as the row object keys it. */
  function Name(c: Column): string {
    match c
    case IdColumn => "id"
    case LorryNumberColumn => "lorry_number"
    case RecordDateColumn => "record_date"
    case PriceColumn => "price"
    case LitersColumn => "liters"
    case CreatedAtColumn => "created_at"
  }

  /** One field of an exported record, before the library renders it as text. */
  datatype Cell = IntCell(i: int) | TextCell(text: string) | DateCell(date: CalendarDate) | NumCell(num: Num)

  /** The value a row holds under a column. */
  function ColumnValue(r: Row, c: Column): Cell {
    match c
    case IdColumn => IntCell(r.id)
    case LorryNumberColumn => TextCell(r.lorryNumber)
    case RecordDateColumn => DateCell(r.recordDate)
    case PriceColumn => NumCell(r.price)
    case LitersColumn => NumCell(r.liters)
    case CreatedAtColumn => TextCell(r.createdAt)
  }

  /** The names of `cs`, in order. */
  function Names(cs: seq<Column>): (ns: seq<string>)
    ensures |ns| == |cs| && forall k :: 0 <= k < |cs| ==> ns[k] == Name(cs[k])
  {
    if cs == [] then [] else [Name(cs[0])] + Names(cs[1..])
  }

  /** The header record. */
  function Header(): seq<string> {
    Names(Columns)
  }

  /** The header names the six columns, in this fixed order. */
  lemma HeaderNames()
    ensures Header() == ["id", "lorry_number", "record_date", "price", "liters", "created_at"]
  {
    var h := Header();
    assert |h| == 6;
    assert h[0] == "id" && h[1] == "lorry_number" && h[2] == "record_date";
    assert h[3] == "price" && h[4] == "liters" && h[5] == "created_at";
  }

  /** The record written for a row: the row's fields, column by column. */
  function Record(r: Row): (cells: seq<Cell>)
    ensures |cells| == |Columns|
  {
    [ColumnValue(r, IdColumn), ColumnValue(r, LorryNumberColumn), ColumnValue(r, RecordDateColumn),
     ColumnValue(r, PriceColumn), ColumnValue(r, LitersColumn), ColumnValue(r, CreatedAtColumn)]
  }

  /** Reads a row back from a record; None when the record has another shape. */
  function ParseRecord(cells: seq<Cell>): (r: Option<Row>)
    ensures r.Some? ==> |cells| == |Columns|
  {
    if |cells| == 6 && cells[0].IntCell? && cells[1].TextCell? && cells[2].DateCell?
      && cells[3].NumCell? && cells[4].NumCell? && cells[5].TextCell?
    then Some(Row(cells[0].i, cells[1].text, cells[2].date, cells[3].num, cells[4].num, cells[5].text))
    else None
  }

  /**
   * Every record holds each column's field at that column's position, and
   * nothing of the row is lost: reading the record back gives the row.
   */
  lemma RecordColumns(r: Row)
    ensures forall k :: 0 <= k < |Columns| ==> Record(r)[k] == ColumnValue(r, Columns[k])
    ensures ParseRecord(Record(r)) == Some(r)
  {
  }

  /** An exported document: the header, then one record per row. */
  datatype Document = Document(header: seq<string>, records: seq<seq<Cell>>)

  /** The rows a document's records stand for; None if one of them is not a row record. */
  function Rows(records: seq<seq<Cell>>): (rows: Option<seq<Row>>)
    ensures rows.Some? ==> |rows.value| == |records|
  {
    if records == [] then Some([])
    else
      match (Rows(records[..|records| - 1]), ParseRecord(records[|records| - 1]))
      case (Some(init), Some(last)) => Some(init + [last])
      case _ => None
  }

  /**
   * The export stream: the header, then each row written in turn. The
   * document it returns carries the fixed header and reads back as exactly
   * `rows`, in their order.
   */
  method Stringify(rows: seq<Row>) returns (doc: Document)
    ensures doc.header == Header()
    ensures |doc.records| == |rows|
    ensures Rows(doc.records) == Some(rows)
  {
    var records: seq<seq<Cell>> := [];
    var i := 0;
    while i < |rows|
      invariant 0 <= i <= |rows|
      invariant |records| == i
      invariant Rows(records) == Some(rows[..i])
    {
      RecordColumns(rows[i]);
      assert (records + [Record(rows[i])])[..i] == records;
      records := records + [Record(rows[i])];
      assert rows[..i + 1] == rows[..i] + [rows[i]];
      i := i + 1;
    }
    assert rows[..i] == rows;
    doc := Document(Header(), records);
  }
}
