/** The spreadsheet service as the application sees it: a range read returns
    a list of rows, and a row can be overwritten or appended. */
module Sheet {
  import opened Wrappers
  import opened Text
  import opened Tables

  /** A row as a range read returns it: trailing empty cells are omitted, so
      rows may be shorter than the header. */
  type Row = seq<string>

  /** A cell stripped, or `""` when the row is too short to hold it. */
  function Cell(r: Row, i: nat): (c: string)
    ensures Strip(c) == c
  {
    if i < |r| then
      StripIdempotent(r[i]);
      Strip(r[i])
    else ""
  }

  /** A write request: overwrite the row with the given 1-based sheet row
      number, or append a row after the last one. */
  datatype SheetWrite = UpdateRow(rowNumber: nat, values: Row) | AppendRow(values: Row)

  /** The rows a later read returns once the write has been applied. */
  function ApplyWrite(rows: seq<Row>, w: SheetWrite): seq<Row> {
    match w
    case UpdateRow(n, values) => if 1 <= n <= |rows| then rows[n - 1 := values] else rows
    case AppendRow(values) => rows + [values]
  }

  // ----- reading a table of records -----

  /** The items of a row-by-row parse of the rows after the header: item `i`
      comes from row `i`, and item 0 (the header) assigns nothing. */
  function ParseBody<V>(rows: seq<Row>, parse: Row -> Option<(string, V)>): (items: seq<Option<(string, V)>>)
    ensures |items| == |rows|
  {
    if |rows| == 0 then []
    else if |rows| == 1 then [None]
    else ParseBody(rows[..|rows| - 1], parse) + [parse(rows[|rows| - 1])]
  }

  lemma {:induction false} ParseBodyAt<V>(rows: seq<Row>, parse: Row -> Option<(string, V)>, i: nat)
    requires i < |rows|
    ensures ParseBody(rows, parse)[i] == if i == 0 then None else parse(rows[i])
  {
    if 1 < |rows| && i < |rows| - 1 {
      ParseBodyAt(rows[..|rows| - 1], parse, i);
    }
  }

  lemma ParseBodyAll<V>(rows: seq<Row>, parse: Row -> Option<(string, V)>)
    ensures forall i :: 0 <= i < |rows| ==> ParseBody(rows, parse)[i] == if i == 0 then None else parse(rows[i])
  {
    forall i | 0 <= i < |rows| ensures ParseBody(rows, parse)[i] == if i == 0 then None else parse(rows[i]) {
      ParseBodyAt(rows, parse, i);
    }
  }

  /** Reading back a table after a row is appended: the appended row's
      assignment comes last, so it wins. */
  lemma CollectBodyAppend<V>(rows: seq<Row>, parse: Row -> Option<(string, V)>, row: Row, k: string, v: V)
    requires |rows| > 0 && parse(row) == Some((k, v))
    ensures Collect(ParseBody(rows + [row], parse)) == Put(Collect(ParseBody(rows, parse)), k, v)
  {
    assert (rows + [row])[..|rows|] == rows;
  }

  /** Reading back a table after the only data row that assigns `k` is
      overwritten by another row assigning `k`: `k` gets the new value and no
      other key changes. */
  lemma CollectBodyUpdate<V>(rows: seq<Row>, parse: Row -> Option<(string, V)>, i: nat, row: Row, k: string, v: V)
    requires 1 <= i < |rows| && parse(rows[i]).Some? && parse(rows[i]).value.0 == k
    requires forall j :: 1 <= j < |rows| && j != i && parse(rows[j]).Some? ==> parse(rows[j]).value.0 != k
    requires parse(row) == Some((k, v))
    ensures Get(Collect(ParseBody(rows[i := row], parse)), k) == Some(v)
    ensures forall d :: d != k ==> Get(Collect(ParseBody(rows[i := row], parse)), d) == Get(Collect(ParseBody(rows, parse)), d)
  {
    ParseBodyAll(rows, parse);
    ParseBodyAll(rows[i := row], parse);
    CollectReplace(ParseBody(rows, parse), ParseBody(rows[i := row], parse), i, k, v);
  }
}
