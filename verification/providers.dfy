/** The provider-credentials sheet (`get_provider_credentials`): a header row
    naming the columns, then one row per provider. The parse turns the rows
    into a dictionary from lower-cased provider name to login details. */
module Providers {
  import opened Wrappers
  import opened Text
  import opened Tables
  import opened Sheet

  datatype ProviderInfo = ProviderInfo(url: string, username: string, password: string, aliases: seq<string>)

  /** Positions of the named columns in the header row. */
  datatype Columns = Columns(name: nat, url: nat, username: nat, password: nat, aliases: Option<nat>)

  /** `list.index` raising `ValueError` for a required column. */
  datatype SheetError = MissingColumn(header: string)

  const NameHeader := "provider name"
  const UrlHeader := "url"
  const UsernameHeader := "username"
  const PasswordHeader := "password"
  const AliasesHeader := "aliases"

  /** The header cells as the parse compares them: stripped and lower-cased. */
  function NormalizedHeader(header: Row): seq<string> {
    NormalizeEach(header)
  }

  /** Python's `xs.index(x)`: the first position of `x`, `None` where
      `index` raises. */
  function Position(xs: seq<string>, x: string): Option<nat> {
    if |xs| == 0 then None
    else if xs[0] == x then Some(0)
    else
      match Position(xs[1..], x)
      case None => None
      case Some(i) => Some(i + 1)
  }

  lemma {:induction false} PositionFirst(xs: seq<string>, x: string)
    ensures Position(xs, x).None? <==> x !in xs
    ensures Position(xs, x).Some? ==> Position(xs, x).value < |xs| && xs[Position(xs, x).value] == x
    ensures Position(xs, x).Some? ==> forall j :: 0 <= j < Position(xs, x).value ==> xs[j] != x
  {
    if |xs| > 0 && xs[0] != x {
      PositionFirst(xs[1..], x);
    }
  }

  function Required(hdr: seq<string>, column: string): Result<nat, SheetError> {
    match Position(hdr, column)
    case None => Err(MissingColumn(column))
    case Some(i) => Ok(i)
  }

  /** Locates the columns; the four required ones are looked up in this
      order, so the error names the first one missing. */
  function HeaderColumns(header: Row): Result<Columns, SheetError> {
    var hdr := NormalizedHeader(header);
    var name :- Required(hdr, NameHeader);
    var url :- Required(hdr, UrlHeader);
    var username :- Required(hdr, UsernameHeader);
    var password :- Required(hdr, PasswordHeader);
    Ok(Columns(name, url, username, password, Position(hdr, AliasesHeader)))
  }

  /** Header lookup fails exactly when a required column is missing, naming
      the first one missing; otherwise each column is the first header cell
      that normalises to its name, and the aliases column is optional. */
  lemma HeaderColumnsFound(header: Row)
    ensures var hdr := NormalizedHeader(header);
      HeaderColumns(header).Err? <==>
        (NameHeader !in hdr || UrlHeader !in hdr || UsernameHeader !in hdr || PasswordHeader !in hdr)
    ensures var hdr := NormalizedHeader(header);
      HeaderColumns(header).Err? ==> HeaderColumns(header).error == MissingColumn(
        if NameHeader !in hdr then NameHeader
        else if UrlHeader !in hdr then UrlHeader
        else if UsernameHeader !in hdr then UsernameHeader
        else PasswordHeader)
    ensures var hdr := NormalizedHeader(header);
      var r := HeaderColumns(header);
      r.Ok? ==>
        && Position(hdr, NameHeader) == Some(r.value.name)
        && Position(hdr, UrlHeader) == Some(r.value.url)
        && Position(hdr, UsernameHeader) == Some(r.value.username)
        && Position(hdr, PasswordHeader) == Some(r.value.password)
        && r.value.aliases == Position(hdr, AliasesHeader)
  {
    var hdr := NormalizedHeader(header);
    PositionFirst(hdr, NameHeader);
    PositionFirst(hdr, UrlHeader);
    PositionFirst(hdr, UsernameHeader);
    PositionFirst(hdr, PasswordHeader);
  }

  /** The provider name a row is filed under, or `None` when the row is
      skipped because its name cell is missing or blank. */
  function RowName(r: Row, cols: Columns): Option<string> {
    if |r| <= cols.name || Strip(r[cols.name]) == "" then None
    else Some(Normalize(r[cols.name]))
  }

  /** The aliases cell split on commas, each piece normalised; `[]` when there
      is no aliases column or the cell is missing or blank. */
  function Aliases(r: Row, cols: Columns): seq<string> {
    match cols.aliases
    case None => []
    case Some(a) =>
      if a < |r| && Strip(r[a]) != "" then
        NormalizeEach(Split(r[a], ","))
      else []
  }

  function Record(r: Row, cols: Columns): ProviderInfo {
    ProviderInfo(Cell(r, cols.url), Cell(r, cols.username), Cell(r, cols.password), Aliases(r, cols))
  }

  function ParseRow(r: Row, cols: Columns): Option<(string, ProviderInfo)> {
    match RowName(r, cols)
    case None => None
    case Some(key) => Some((key, Record(r, cols)))
  }

  /** The data rows (everything after the header) parsed one by one. */
  function ParsedRows(rows: seq<Row>, cols: Columns): (items: seq<Option<(string, ProviderInfo)>>)
    requires |rows| > 0
    ensures |items| == |rows| - 1
    ensures forall i :: 0 <= i < |items| ==> items[i] == ParseRow(rows[i + 1], cols)
  {
    seq(|rows| - 1, i requires 0 <= i < |rows| - 1 => ParseRow(rows[i + 1], cols))
  }

  /** `get_provider_credentials` after the sheet has been read. */
  function ParseProviders(rows: seq<Row>): Result<Table<ProviderInfo>, SheetError> {
    if |rows| == 0 then Ok([])
    else
      var cols :- HeaderColumns(rows[0]);
      Ok(Collect(ParsedRows(rows, cols)))
  }

  // ----- properties -----

  /** An empty sheet gives an empty dictionary; otherwise the parse fails
      exactly when a required column is missing from the header, and the
      error names the first one missing. The aliases column is optional. */
  lemma ParseProvidersErrors(rows: seq<Row>)
    ensures |rows| == 0 ==> ParseProviders(rows) == Ok([])
    ensures |rows| > 0 ==>
      var hdr := NormalizedHeader(rows[0]);
      && (ParseProviders(rows).Err? <==>
            (NameHeader !in hdr || UrlHeader !in hdr || UsernameHeader !in hdr || PasswordHeader !in hdr))
      && (ParseProviders(rows).Err? ==> ParseProviders(rows).error == MissingColumn(
            if NameHeader !in hdr then NameHeader
            else if UrlHeader !in hdr then UrlHeader
            else if UsernameHeader !in hdr then UsernameHeader
            else PasswordHeader))
  {
    if |rows| > 0 {
      HeaderColumnsFound(rows[0]);
    }
  }

  /** Data row `i` (1-based, after the header) is filed under `key`. */
  predicate RowNamed(rows: seq<Row>, cols: Columns, i: int, key: string) {
    1 <= i < |rows| && RowName(rows[i], cols) == Some(key)
  }

  /** With the columns found, the parse collects the parsed data rows. */
  lemma ParseProvidersCollects(rows: seq<Row>, cols: Columns)
    requires |rows| > 0 && HeaderColumns(rows[0]) == Ok(cols)
    ensures ParseProviders(rows) == Ok(Collect(ParsedRows(rows, cols)))
  {
  }

  /** Parsed item `j` assigns `key` exactly when data row `j + 1` is filed
      under `key`. */
  lemma ParsedRowsBind(rows: seq<Row>, cols: Columns, key: string)
    requires |rows| > 0
    ensures forall j :: 0 <= j < |rows| - 1 ==>
      (Binds(ParsedRows(rows, cols), j, key) <==> RowNamed(rows, cols, j + 1, key))
    ensures forall i :: 1 <= i < |rows| ==>
      (RowNamed(rows, cols, i, key) <==> Binds(ParsedRows(rows, cols), i - 1, key))
  {
  }

  /** A provider is present exactly when some data row with a non-blank name
      cell normalises to its key. */
  lemma ParseProvidersKeys(rows: seq<Row>, cols: Columns, key: string)
    requires |rows| > 0 && HeaderColumns(rows[0]) == Ok(cols)
    ensures Get(ParseProviders(rows).value, key).None? <==> forall i :: 1 <= i < |rows| ==> !RowNamed(rows, cols, i, key)
  {
    var items := ParsedRows(rows, cols);
    ParseProvidersCollects(rows, cols);
    CollectLastWins(items, key);
    ParsedRowsBind(rows, cols, key);
  }

  /** A provider's record is the one built from the LAST data row filed under
      its key: later rows overwrite earlier ones. */
  lemma ParseProvidersLastRowWins(rows: seq<Row>, cols: Columns, key: string, i: nat)
    requires |rows| > 0 && HeaderColumns(rows[0]) == Ok(cols)
    requires RowNamed(rows, cols, i, key)
    requires forall j :: i < j < |rows| ==> !RowNamed(rows, cols, j, key)
    ensures Get(ParseProviders(rows).value, key) == Some(Record(rows[i], cols))
  {
    var items := ParsedRows(rows, cols);
    ParseProvidersCollects(rows, cols);
    ParsedRowsBind(rows, cols, key);
    CollectLast(items, key, i - 1);
  }

  /** The shape of every parsed entry: the key is non-empty and normalised,
      the stored fields carry no surrounding whitespace, and every alias is
      normalised. */
  predicate GoodEntry(kv: (string, ProviderInfo)) {
    && kv.0 != "" && IsNormal(kv.0)
    && Strip(kv.1.url) == kv.1.url
    && Strip(kv.1.username) == kv.1.username
    && Strip(kv.1.password) == kv.1.password
    && (forall a :: 0 <= a < |kv.1.aliases| ==> IsNormal(kv.1.aliases[a]))
  }

  /** The shape every parsed dictionary has: distinct keys and good entries. */
  predicate WellFormed(t: Table<ProviderInfo>) {
    DistinctKeys(t) && forall kv :: kv in t ==> GoodEntry(kv)
  }

  lemma ItemWellFormed(r: Row, cols: Columns)
    requires ParseRow(r, cols).Some?
    ensures GoodEntry(ParseRow(r, cols).value)
  {
    NormalizeIsNormal(r[cols.name]);
    var al := Aliases(r, cols);
    forall a | 0 <= a < |al| ensures IsNormal(al[a]) {
      var pieces := Split(r[cols.aliases.value], ",");
      NormalizeIsNormal(pieces[a]);
    }
  }

  /** Every dictionary the parse returns is well formed. */
  lemma ParseProvidersWellFormed(rows: seq<Row>)
    requires ParseProviders(rows).Ok?
    ensures WellFormed(ParseProviders(rows).value)
  {
    if |rows| > 0 {
      var cols := HeaderColumns(rows[0]).value;
      var items := ParsedRows(rows, cols);
      forall i | 0 <= i < |items| && items[i].Some? ensures GoodEntry(items[i].value) {
        ItemWellFormed(rows[i + 1], cols);
      }
      CollectGood(items);
    }
  }

  lemma {:induction false} CollectGood(items: seq<Option<(string, ProviderInfo)>>)
    requires forall i :: 0 <= i < |items| && items[i].Some? ==> GoodEntry(items[i].value)
    ensures WellFormed(Collect(items))
  {
    if |items| > 0 {
      var n := |items| - 1;
      var t := Collect(items[..n]);
      CollectGood(items[..n]);
      match items[n]
      case None =>
      case Some(kv) =>
        forall e | e in Put(t, kv.0, kv.1) ensures GoodEntry(e) {
          PutEntry(t, kv.0, kv.1, e);
        }
    }
  }

  /** Every pair of an assigned table is either the new pair or an old one. */
  lemma {:induction false} PutEntry<V>(t: Table<V>, k: string, v: V, e: (string, V))
    requires e in Put(t, k, v)
    ensures e == (k, v) || e in t
  {
    if |t| > 0 && t[0].0 != k && e != t[0] {
      assert Put(t, k, v) == [t[0]] + Put(t[1..], k, v);
      PutEntry(t[1..], k, v, e);
    }
  }
}
