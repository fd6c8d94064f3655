/** The per-designer settings sheet (`user_keys!A:C`, columns
    designer | tracker key | tracker column): reading it into a dictionary
    (`load_user_keys`) and choosing the write that saves one designer's row
    (`save_user_key`). */
module UserKeys {
  import opened Wrappers
  import opened Text
  import opened Tables
  import opened Sheet

  datatype UserKey = UserKey(key: string, col: string)

  /** A data row filed under its normalised designer handle, or `None` when
      the row is empty or its first cell is blank. */
  function UserRow(r: Row): Option<(string, UserKey)> {
    if |r| > 0 && Strip(r[0]) != "" then Some((Normalize(r[0]), UserKey(Cell(r, 1), Cell(r, 2))))
    else None
  }

  /** `load_user_keys` after the sheet has been read: a dictionary
      comprehension over the rows after the header, so a later row for the
      same handle overwrites an earlier one. */
  function LoadUserKeys(rows: seq<Row>): Table<UserKey> {
    Collect(ParseBody(rows, UserRow))
  }

  /** Sheet row `i` (0-based, 0 is the header) is filed under `name`. */
  predicate UserRowNamed(rows: seq<Row>, i: int, name: string) {
    1 <= i < |rows| && UserRow(rows[i]).Some? && UserRow(rows[i]).value.0 == name
  }

  /** The header row is ignored; a designer is present exactly when some
      later row has a non-blank first cell that normalises to the handle. */
  lemma LoadUserKeysKeys(rows: seq<Row>, name: string)
    ensures Get(LoadUserKeys(rows), name).None? <==> forall i :: 1 <= i < |rows| ==> !UserRowNamed(rows, i, name)
  {
    var items := ParseBody(rows, UserRow);
    ParseBodyAll(rows, UserRow);
    CollectLastWins(items, name);
    assert forall i :: 0 <= i < |items| ==> (Binds(items, i, name) <==> UserRowNamed(rows, i, name));
  }

  /** A designer's key and column come from the LAST row filed under the
      handle, stripped, and `""` where the row is too short. */
  lemma LoadUserKeysLastRowWins(rows: seq<Row>, name: string, i: nat)
    requires UserRowNamed(rows, i, name)
    requires forall j :: i < j < |rows| ==> !UserRowNamed(rows, j, name)
    ensures Get(LoadUserKeys(rows), name) == Some(UserKey(Cell(rows[i], 1), Cell(rows[i], 2)))
  {
    var items := ParseBody(rows, UserRow);
    ParseBodyAll(rows, UserRow);
    assert forall j :: i < j < |items| ==> !Binds(items, j, name) by {
      forall j | i < j < |items| ensures !Binds(items, j, name) {
        assert !UserRowNamed(rows, j, name);
      }
    }
    CollectLast(items, name, i);
  }

  // ----- saving -----

  /** `IndexError` raised by `rows[0]` on an empty sheet, or by `r[0]` on an
      empty data row met before the designer's row (its sheet row number). */
  datatype SaveError = NoHeaderRow | EmptyRow(rowNumber: nat)

  /** Sheet row `i` (0-based, 0 is the header) is looked at by the search
      and passed over: it has a first cell, and that cell lower-cased is not
      the handle. */
  predicate PassedOver(rows: seq<Row>, i: int, name: string) {
    0 <= i < |rows| && |rows[i]| > 0 && Lower(rows[i][0]) != name
  }

  /** `next(i for i, r in enumerate(rows[1:]) if r[0].lower() == name)`,
      scanning from sheet row `from` (0-based) and answering with 0-based
      sheet positions: the first row whose first cell lower-cased is the
      handle (no stripping), `None` when there is none, and an error at the
      first empty row met before a match. */
  function FindDesigner(rows: seq<Row>, name: string, from: nat): (r: Result<Option<nat>, SaveError>)
    requires from <= |rows|
    ensures r.Ok? && r.value.Some? ==>
      var i := r.value.value;
      && from <= i < |rows| && |rows[i]| > 0 && Lower(rows[i][0]) == name
      && forall j :: from <= j < i ==> PassedOver(rows, j, name)
    ensures r.Ok? && r.value.None? ==> forall j :: from <= j < |rows| ==> PassedOver(rows, j, name)
    ensures r.Err? ==>
      && r.error.EmptyRow?
      && from + 1 <= r.error.rowNumber <= |rows|
      && rows[r.error.rowNumber - 1] == []
      && forall j :: from <= j < r.error.rowNumber - 1 ==> PassedOver(rows, j, name)
    decreases |rows| - from
  {
    if from == |rows| then Ok(None)
    else if |rows[from]| == 0 then Err(EmptyRow(from + 1))
    else if Lower(rows[from][0]) == name then Ok(Some(from))
    else FindDesigner(rows, name, from + 1)
  }

  /** `save_user_key` after the sheet has been read: the row written is
      always `[name, key, col]`; it overwrites the designer's row (sheet row
      numbers are 1-based, so 0-based position `i` is row `i + 1`, the
      source's `idx + 2` for data index `idx`), and is appended otherwise. */
  function SaveUserKey(rows: seq<Row>, name: string, key: string, col: string): Result<SheetWrite, SaveError> {
    if |rows| == 0 then Err(NoHeaderRow)
    else
      var found :- FindDesigner(rows, name, 1);
      match found
      case None => Ok(AppendRow([name, key, col]))
      case Some(i) => Ok(UpdateRow(i + 1, [name, key, col]))
  }

  /** Which write `save_user_key` chooses: an update of the first data row
      whose first cell lower-cased equals the handle, at that row's sheet row
      number (the header is row 1); an append when every data row has a
      first cell and none matches; an error on an empty sheet or at the
      first empty row met before a match. The row written is always
      `[name, key, col]`, unstripped. */
  lemma SaveUserKeyTarget(rows: seq<Row>, name: string, key: string, col: string)
    ensures |rows| == 0 ==> SaveUserKey(rows, name, key, col) == Err(NoHeaderRow)
    ensures SaveUserKey(rows, name, key, col) == Err(NoHeaderRow) ==> |rows| == 0
    ensures SaveUserKey(rows, name, key, col).Ok? ==> SaveUserKey(rows, name, key, col).value.values == [name, key, col]
    ensures forall n: nat :: SaveUserKey(rows, name, key, col) == Ok(UpdateRow(n, [name, key, col])) ==>
      && 2 <= n <= |rows|
      && |rows[n - 1]| > 0 && Lower(rows[n - 1][0]) == name
      && forall i :: 1 <= i < n - 1 ==> PassedOver(rows, i, name)
    ensures SaveUserKey(rows, name, key, col) == Ok(AppendRow([name, key, col])) <==>
      |rows| > 0 && forall i :: 1 <= i < |rows| ==> PassedOver(rows, i, name)
    ensures forall n: nat :: SaveUserKey(rows, name, key, col) == Err(EmptyRow(n)) ==>
      && 2 <= n <= |rows| && rows[n - 1] == []
      && forall i :: 1 <= i < n - 1 ==> PassedOver(rows, i, name)
  {
    if |rows| > 0 {
      match FindDesigner(rows, name, 1)
      case Ok(None) =>
      case Ok(Some(i)) =>
        assert !PassedOver(rows, i, name);
      case Err(e) =>
        assert !PassedOver(rows, e.rowNumber - 1, name);
    }
  }

  // ----- saving then loading -----

  /** The sheet shape under which a save followed by a load round-trips: a
      header, then rows whose first cells are non-empty, normalised handles,
      each handle on one row only. The application does not enforce it: a
      handle typed with surrounding spaces is saved lower-cased but not
      stripped, and such a row is not normal. */
  predicate Canonical(rows: seq<Row>) {
    && |rows| > 0
    && (forall i :: 1 <= i < |rows| ==> |rows[i]| > 0 && rows[i][0] != "" && IsNormal(rows[i][0]))
    && (forall i, j :: 1 <= i < j < |rows| && |rows[i]| > 0 && |rows[j]| > 0 ==> rows[i][0] != rows[j][0])
  }

  /** A row whose first cell is a non-empty normalised handle is filed under
      that cell as written, and lower-casing leaves the cell alone. */
  lemma CanonicalRow(r: Row)
    requires |r| > 0 && r[0] != "" && IsNormal(r[0])
    ensures Lower(r[0]) == r[0]
    ensures UserRow(r) == Some((r[0], UserKey(Cell(r, 1), Cell(r, 2))))
  {
    NormalIsLower(r[0]);
    NormalizeIsNormal(r[0]);
  }

  /** Appending a row filed under `name` assigns its value to `name`, and
      only to `name`. */
  lemma AppendThenLoad(rows: seq<Row>, row: Row, name: string, v: UserKey)
    requires |rows| > 0 && UserRow(row) == Some((name, v))
    ensures LoadUserKeys(rows + [row]) == Put(LoadUserKeys(rows), name, v)
  {
    CollectBodyAppend(rows, UserRow, row, name, v);
  }

  /** Overwriting the one data row filed under `name` with another row filed
      under `name` replaces `name`'s value and no other. */
  lemma UpdateThenLoad(rows: seq<Row>, k: nat, row: Row, name: string, v: UserKey)
    requires UserRowNamed(rows, k, name)
    requires forall j :: 1 <= j < |rows| && j != k ==> !UserRowNamed(rows, j, name)
    requires UserRow(row) == Some((name, v))
    ensures Get(LoadUserKeys(rows[k := row]), name) == Some(v)
    ensures forall d :: d != name ==> Get(LoadUserKeys(rows[k := row]), d) == Get(LoadUserKeys(rows), d)
  {
    assert forall j :: 1 <= j < |rows| && j != k && UserRow(rows[j]).Some? ==> UserRow(rows[j]).value.0 != name by {
      forall j | 1 <= j < |rows| && j != k && UserRow(rows[j]).Some? ensures UserRow(rows[j]).value.0 != name {
        assert !UserRowNamed(rows, j, name);
      }
    }
    CollectBodyUpdate(rows, UserRow, k, row, name, v);
  }

  /** In a canonical sheet every data row is filed under its first cell,
      which lower-casing leaves alone. */
  lemma CanonicalRows(rows: seq<Row>)
    requires Canonical(rows)
    ensures forall i :: 1 <= i < |rows| ==> Lower(rows[i][0]) == rows[i][0]
    ensures forall i :: 1 <= i < |rows| ==> UserRow(rows[i]).Some? && UserRow(rows[i]).value.0 == rows[i][0]
  {
    forall i | 1 <= i < |rows| ensures Lower(rows[i][0]) == rows[i][0] && UserRow(rows[i]).Some? && UserRow(rows[i]).value.0 == rows[i][0] {
      CanonicalRow(rows[i]);
    }
  }

  /** Appending a row under a handle no row has keeps a sheet canonical. */
  lemma CanonicalAppend(rows: seq<Row>, row: Row)
    requires Canonical(rows)
    requires |row| > 0 && row[0] != "" && IsNormal(row[0])
    requires forall i :: 1 <= i < |rows| ==> rows[i][0] != row[0]
    ensures Canonical(rows + [row])
  {
    var after := rows + [row];
    forall i, j | 1 <= i < j < |after| && |after[i]| > 0 && |after[j]| > 0 ensures after[i][0] != after[j][0] {
      if j == |rows| {
        assert after[i] == rows[i];
      }
    }
  }

  /** Overwriting a row with one under the same handle keeps a sheet
      canonical. */
  lemma CanonicalUpdate(rows: seq<Row>, k: nat, row: Row)
    requires Canonical(rows)
    requires 1 <= k < |rows| && |row| > 0 && row[0] == rows[k][0]
    ensures Canonical(rows[k := row])
  {
  }

  /** Saving a handle no row has: the appended row keeps the sheet
      canonical and gives the handle its stripped key and column. */
  lemma SaveNewDesigner(rows: seq<Row>, name: string, key: string, col: string)
    requires Canonical(rows)
    requires name != "" && IsNormal(name)
    requires forall i :: 1 <= i < |rows| ==> PassedOver(rows, i, name)
    ensures Canonical(rows + [[name, key, col]])
    ensures LoadUserKeys(rows + [[name, key, col]]) == Put(LoadUserKeys(rows), name, UserKey(Strip(key), Strip(col)))
  {
    var row := [name, key, col];
    CanonicalRow(row);
    CanonicalRows(rows);
    forall i | 1 <= i < |rows| ensures rows[i][0] != row[0] {
      assert PassedOver(rows, i, name);
    }
    CanonicalAppend(rows, row);
    AppendThenLoad(rows, row, name, UserKey(Strip(key), Strip(col)));
  }

  /** Saving a handle that sheet row `k` holds: the overwritten row keeps the
      sheet canonical, gives the handle its stripped key and column, and
      changes no other designer. */
  lemma SaveKnownDesigner(rows: seq<Row>, name: string, key: string, col: string, k: nat)
    requires Canonical(rows)
    requires name != "" && IsNormal(name)
    requires 1 <= k < |rows| && Lower(rows[k][0]) == name
    ensures Canonical(rows[k := [name, key, col]])
    ensures Get(LoadUserKeys(rows[k := [name, key, col]]), name) == Some(UserKey(Strip(key), Strip(col)))
    ensures forall d :: d != name ==> Get(LoadUserKeys(rows[k := [name, key, col]]), d) == Get(LoadUserKeys(rows), d)
  {
    var row := [name, key, col];
    CanonicalRow(row);
    CanonicalRows(rows);
    assert rows[k][0] == name;
    CanonicalUpdate(rows, k, row);
    forall j | 1 <= j < |rows| && j != k ensures !UserRowNamed(rows, j, name) {
      assert rows[j][0] != rows[k][0];
    }
    UpdateThenLoad(rows, k, row, name, UserKey(Strip(key), Strip(col)));
  }

  /** In a canonical sheet `save_user_key` never meets an empty row: it
      appends when no data row holds the handle, and otherwise overwrites
      data row `k` (sheet row `k + 1`), whose handle it is. */
  lemma SaveWriteChosen(rows: seq<Row>, name: string, key: string, col: string) returns (k: nat)
    requires Canonical(rows)
    ensures k == 0 ==> SaveUserKey(rows, name, key, col) == Ok(AppendRow([name, key, col]))
    ensures k == 0 ==> forall i :: 1 <= i < |rows| ==> PassedOver(rows, i, name)
    ensures k != 0 ==> SaveUserKey(rows, name, key, col) == Ok(UpdateRow(k + 1, [name, key, col]))
    ensures k != 0 ==> 1 <= k < |rows| && Lower(rows[k][0]) == name
  {
    SaveUserKeyTarget(rows, name, key, col);
    var w := SaveUserKey(rows, name, key, col);
    if forall i :: 1 <= i < |rows| ==> PassedOver(rows, i, name) {
      k := 0;
    } else {
      assert w.Ok?;
      k := w.value.rowNumber - 1;
    }
  }

  /** Saving a designer's key and column into a canonical sheet and reading
      it back gives the saved (stripped) values for that designer, leaves
      every other designer's entry as it was, and keeps the sheet canonical. */
  lemma SaveThenLoad(rows: seq<Row>, name: string, key: string, col: string)
    requires Canonical(rows)
    requires name != "" && IsNormal(name)
    ensures SaveUserKey(rows, name, key, col).Ok?
    ensures var after := ApplyWrite(rows, SaveUserKey(rows, name, key, col).value);
      && Canonical(after)
      && Get(LoadUserKeys(after), name) == Some(UserKey(Strip(key), Strip(col)))
      && forall d :: d != name ==> Get(LoadUserKeys(after), d) == Get(LoadUserKeys(rows), d)
  {
    var row := [name, key, col];
    var k := SaveWriteChosen(rows, name, key, col);
    if k == 0 {
      assert ApplyWrite(rows, AppendRow(row)) == rows + [row];
      SaveNewDesigner(rows, name, key, col);
    } else {
      assert ApplyWrite(rows, UpdateRow(k + 1, row)) == rows[k := row];
      SaveKnownDesigner(rows, name, key, col, k);
    }
  }
}
