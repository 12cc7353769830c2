/**
 * The booking sheet's row layout (lib/sheets.js): `addBooking` appends one
 * row of eight cells, `getAllBookings` reads rows back into records.
 *
 * Cells are read back as the text the sheet shows, so a number written to
 * a cell comes back as its decimal spelling. The sheet omits empty cells at
 * the end of a row, so reading past the end of a row gives `undefined`,
 * here `None`.
 */
module Sheets {
  import opened Wrappers
  import opened Text

  /** What `addBooking` is given. */
  datatype NewBooking = NewBooking(
    serviceId: JsValue,
    date: string,
    start: string,
    end: string,
    name: string,
    phone: string,
    email: string)

  /** One decoded row; `None` is a missing cell, and a `serviceId` of `None` is `NaN`. */
  datatype BookingRecord = BookingRecord(
    serviceId: Option<int>,
    date: Option<string>,
    start: Option<string>,
    end: Option<string>,
    name: Option<string>,
    phone: Option<string>,
    email: Option<string>,
    timestamp: Option<string>)

  type Row = seq<string>

  /** The column count of a booking row (A..H). */
  const RowWidth: int := 8

  /** The row `addBooking` appends: service, date, start, end, name, phone, email, timestamp. */
  function EncodeRow(b: NewBooking, timestamp: string): (row: Row)
    ensures |row| == RowWidth
    ensures row[1] == b.date && row[2] == b.start && row[3] == b.end
    ensures row[4] == b.name && row[5] == b.phone && row[6] == b.email && row[7] == timestamp
    ensures row[0] == ToJsString(b.serviceId)
  {
    [ToJsString(b.serviceId), b.date, b.start, b.end, b.name, b.phone, b.email, timestamp]
  }

  /** `row[k]`, `undefined` past the end. */
  function Cell(row: Row, k: nat): (cell: Option<string>)
    ensures cell.Some? <==> k < |row|
    ensures cell.Some? ==> cell.value == row[k]
  {
    if k < |row| then Some(row[k]) else None
  }

  /** `Number(row[0])`: `Number(undefined)` is `NaN`. */
  function CellNumber(row: Row, k: nat): (n: Option<int>)
    ensures k < |row| ==> n == ParseNumber(row[k])
    ensures k >= |row| ==> n.None?
  {
    if k < |row| then ParseNumber(row[k]) else None
  }

  /** One row of `getAllBookings`. */
  function DecodeRow(row: Row): (r: BookingRecord)
    ensures r.serviceId == CellNumber(row, 0)
    ensures r.date == Cell(row, 1) && r.start == Cell(row, 2) && r.end == Cell(row, 3)
    ensures r.name == Cell(row, 4) && r.phone == Cell(row, 5) && r.email == Cell(row, 6)
    ensures r.timestamp == Cell(row, 7)
  {
    BookingRecord(CellNumber(row, 0), Cell(row, 1), Cell(row, 2), Cell(row, 3),
                  Cell(row, 4), Cell(row, 5), Cell(row, 6), Cell(row, 7))
  }

  /** `getAllBookings()`: no `values` reads as no rows; otherwise one record per row, in order. */
  function DecodeRows(values: Option<seq<Row>>): (records: seq<BookingRecord>)
    ensures values.None? ==> records == []
    ensures values.Some? ==> |records| == |values.value|
    ensures values.Some? ==> forall i :: 0 <= i < |records| ==> records[i] == DecodeRow(values.value[i])
  {
    if values.None? then []
    else seq(|values.value|, i requires 0 <= i < |values.value| => DecodeRow(values.value[i]))
  }

  /**
   * Reading back a row `addBooking` wrote returns every text field as it
   * was written and the service id as a number: a numeric id unchanged, a
   * string id as `Number` reads it.
   */
  lemma DecodeEncodeRow(b: NewBooking, timestamp: string)
    ensures var r := DecodeRow(EncodeRow(b, timestamp));
      r.date == Some(b.date) && r.start == Some(b.start) && r.end == Some(b.end) &&
      r.name == Some(b.name) && r.phone == Some(b.phone) && r.email == Some(b.email) &&
      r.timestamp == Some(timestamp) &&
      r.serviceId == ParseNumber(ToJsString(b.serviceId)) &&
      (b.serviceId.Num? ==> r.serviceId == Some(b.serviceId.n))
  {
    if b.serviceId.Num? {
      ParseNumberOfIntToString(b.serviceId.n);
    }
  }

  /** Re-encoding a decoded complete row gives the row back when its first
      cell is the canonical spelling of its number. */
  lemma EncodeDecodeRow(row: Row)
    requires |row| == RowWidth
    requires exists n :: row[0] == IntToString(n)
    ensures var r := DecodeRow(row);
      r.serviceId.Some? &&
      EncodeRow(NewBooking(Num(r.serviceId.value), r.date.value, r.start.value, r.end.value,
                           r.name.value, r.phone.value, r.email.value), r.timestamp.value) == row
  {
    var n :| row[0] == IntToString(n);
    ParseNumberOfIntToString(n);
    var r := DecodeRow(row);
    assert r.serviceId == Some(n);
    var b := NewBooking(Num(n), row[1], row[2], row[3], row[4], row[5], row[6]);
    assert ToJsString(b.serviceId) == row[0];
    var e := EncodeRow(b, row[7]);
    assert forall k :: 0 <= k < 8 ==> e[k] == row[k];
  }
}
