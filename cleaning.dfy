/**
 * The cleaning steps of pfr_url_to_df in nfl_data.py, applied to the table
 * that the HTML extraction produces: the per-column converters (which keep
 * the original text when a value does not parse), the removal of rows that
 * repeat the header (Player == 'Player'), and the removal of the column
 * 'Unnamed: 7'.
 *
 * The numeric and date parsers are parameters: each returns None when the
 * text does not parse.
 */
module Cleaning {
  import opened Wrappers

  /** A cell: the text extracted from the page, or the value a converter parsed from it. */
  datatype Cell<V> = Raw(text: string) | Parsed(value: V)

  /** A row as extracted: column label to text. */
  type RawRow = map<string, string>

  /** A row after conversion. */
  type Row<V> = map<string, Cell<V>>

  /** A table: its column labels, in order, and its rows. */
  datatype RawTable = RawTable(columns: seq<string>, rows: seq<RawRow>)

  datatype Table<V> = Table(columns: seq<string>, rows: seq<Row<V>>)

  /** The two kinds of converter the source uses. */
  datatype Kind = Numeric | Datetime

  /** The parsers behind pd.to_numeric and pd.to_datetime. */
  datatype Parsers<V> = Parsers(toNumeric: string -> Option<V>, toDatetime: string -> Option<V>)

  /** What pandas raises in these steps. */
  datatype CleanError =
    | AttributeError(name: string)  // `df.Player` on a frame with no such column
    | KeyError(name: string)        // `df.drop` of a label that is not a column

  /** The converters table: sixteen columns, all numeric except Date. */
  const Converters: map<string, Kind> := map[
    "Rk" := Numeric, "Age" := Numeric, "Date" := Datetime, "G#" := Numeric,
    "Week" := Numeric, "Cmp" := Numeric, "Att" := Numeric, "Cmp%" := Numeric,
    "Yds" := Numeric, "TD" := Numeric, "Int" := Numeric, "Rate" := Numeric,
    "Sk" := Numeric, "Yds.1" := Numeric, "Y/A" := Numeric, "AY/A" := Numeric]

  const PlayerColumn: string := "Player"

  /** The extraneous column the source markup produces. */
  const BadColumn: string := "Unnamed: 7"

  function ColumnSet(columns: seq<string>): set<string> {
    set c | c in columns
  }

  predicate Distinct(columns: seq<string>) {
    forall i, j :: 0 <= i < j < |columns| ==> columns[i] != columns[j]
  }

  /** Column labels are distinct and every row has exactly the table's columns. */
  predicate RawWellFormed(t: RawTable) {
    Distinct(t.columns) && forall i :: 0 <= i < |t.rows| ==> t.rows[i].Keys == ColumnSet(t.columns)
  }

  predicate WellFormed<V>(t: Table<V>) {
    Distinct(t.columns) && forall i :: 0 <= i < |t.rows| ==> t.rows[i].Keys == ColumnSet(t.columns)
  }

  // ---------------------------------------------------------------------------
  // Converters

  function Parse<V>(parsers: Parsers<V>, kind: Kind, text: string): Option<V> {
    match kind
    case Numeric => parsers.toNumeric(text)
    case Datetime => parsers.toDatetime(text)
  }

  /**
   * A converter called with errors='ignore': it never fails; a text that
   * does not parse comes back unchanged.
   */
  function Coerce<V>(parsers: Parsers<V>, kind: Kind, text: string): (c: Cell<V>)
    ensures c == Raw(text) <==> Parse(parsers, kind, text).None?
    ensures c.Parsed? ==> Parse(parsers, kind, text) == Some(c.value)
    ensures Parse(parsers, kind, text).Some? ==> c == Parsed(Parse(parsers, kind, text).value)
  {
    match Parse(parsers, kind, text)
    case Some(v) => Parsed(v)
    case None => Raw(text)
  }

  /** One row through the converters: a column with a converter is coerced, any other keeps its text. */
  function ConvertRow<V>(parsers: Parsers<V>, row: RawRow): (r: Row<V>)
    ensures r.Keys == row.Keys
  {
    map c | c in row :: if c in Converters then Coerce(parsers, Converters[c], row[c]) else Raw(row[c])
  }

  /** The converters applied to every row of the extracted table. */
  function ApplyConverters<V>(parsers: Parsers<V>, t: RawTable): (r: Table<V>)
    ensures r.columns == t.columns && |r.rows| == |t.rows|
    ensures forall i :: 0 <= i < |t.rows| ==> r.rows[i] == ConvertRow(parsers, t.rows[i])
  {
    Table(t.columns, seq(|t.rows|, i requires 0 <= i < |t.rows| => ConvertRow(parsers, t.rows[i])))
  }

  /**
   * Conversion is permissive: every cell either still holds the row's text,
   * or holds what the column's converter parsed from that text; it holds the
   * text exactly when the column has no converter or the text does not parse.
   */
  lemma ConvertedCell<V>(parsers: Parsers<V>, row: RawRow, c: string)
    requires c in row
    ensures c in ConvertRow(parsers, row)
    ensures ConvertRow(parsers, row)[c] == Raw(row[c])
      <==> c !in Converters || Parse(parsers, Converters[c], row[c]).None?
    ensures ConvertRow(parsers, row)[c].Parsed?
      ==> c in Converters && Parse(parsers, Converters[c], row[c]) == Some(ConvertRow(parsers, row)[c].value)
    ensures c in Converters && Parse(parsers, Converters[c], row[c]).Some?
      ==> ConvertRow(parsers, row)[c] == Parsed(Parse(parsers, Converters[c], row[c]).value)
  {
  }

  lemma ApplyConvertersWellFormed<V>(parsers: Parsers<V>, t: RawTable)
    requires RawWellFormed(t)
    ensures WellFormed(ApplyConverters(parsers, t))
  {
  }

  // ---------------------------------------------------------------------------
  // Header-row filter

  /** A row that repeats the header: its Player cell is the text 'Player'. */
  predicate IsHeaderRow<V>(row: Row<V>) {
    PlayerColumn in row && row[PlayerColumn].Raw? && row[PlayerColumn].text == PlayerColumn
  }

  predicate IsRawHeaderRow(row: RawRow) {
    PlayerColumn in row && row[PlayerColumn] == PlayerColumn
  }

  /** The rows that do not repeat the header, in their original order. */
  function KeepNonHeader<V>(rows: seq<Row<V>>): (kept: seq<Row<V>>)
    ensures |kept| <= |rows|
    ensures forall i :: 0 <= i < |kept| ==> !IsHeaderRow(kept[i])
  {
    if |rows| == 0 then []
    else if IsHeaderRow(rows[0]) then KeepNonHeader(rows[1..])
    else [rows[0]] + KeepNonHeader(rows[1..])
  }

  /** `df.loc[df.Player != 'Player']`; `df.Player` fails when there is no Player column. */
  function FilterHeaderRows<V>(t: Table<V>): (r: Result<Table<V>, CleanError>)
    ensures r.Failure? <==> PlayerColumn !in t.columns
    ensures r.Failure? ==> r.error == AttributeError(PlayerColumn)
    ensures r.Success? ==> r.value.columns == t.columns
    ensures r.Success? ==> r.value.rows == KeepNonHeader(t.rows)
    ensures r.Success? ==> forall i :: 0 <= i < |r.value.rows| ==> !IsHeaderRow(r.value.rows[i])
  {
    if PlayerColumn !in t.columns then Failure(AttributeError(PlayerColumn))
    else Success(Table(t.columns, KeepNonHeader(t.rows)))
  }

  /** `xs` is `ys` with some elements left out, the rest in the same order. */
  ghost predicate IsSubsequence<T>(xs: seq<T>, ys: seq<T>)
    decreases |ys|
  {
    if |xs| == 0 then true
    else if |ys| == 0 then false
    else (xs[0] == ys[0] && IsSubsequence(xs[1..], ys[1..])) || IsSubsequence(xs, ys[1..])
  }

  /** The number of rows that repeat the header. */
  function HeaderCount<V>(rows: seq<Row<V>>): (n: nat)
    ensures n <= |rows|
    ensures n == 0 <==> forall i :: 0 <= i < |rows| ==> !IsHeaderRow(rows[i])
  {
    if |rows| == 0 then 0
    else (if IsHeaderRow(rows[0]) then 1 else 0) + HeaderCount(rows[1..])
  }

  /**
   * The filter keeps the other rows unchanged and in their relative order,
   * and removes exactly the header rows.
   */
  lemma {:induction false} KeepNonHeaderSpec<V>(rows: seq<Row<V>>)
    ensures IsSubsequence(KeepNonHeader(rows), rows)
    ensures |KeepNonHeader(rows)| == |rows| - HeaderCount(rows)
  {
    if |rows| > 0 {
      KeepNonHeaderSpec(rows[1..]);
      var kept := KeepNonHeader(rows);
      if !IsHeaderRow(rows[0]) {
        assert kept[0] == rows[0] && kept[1..] == KeepNonHeader(rows[1..]);
      }
    }
  }

  /** Every row that is not a header row is kept. */
  lemma {:induction false} KeepNonHeaderKeepsRows<V>(rows: seq<Row<V>>, i: nat)
    requires i < |rows| && !IsHeaderRow(rows[i])
    ensures rows[i] in KeepNonHeader(rows)
  {
    if i == 0 {
      assert KeepNonHeader(rows)[0] == rows[0];
    } else {
      KeepNonHeaderKeepsRows(rows[1..], i - 1);
      assert rows[1..][i - 1] == rows[i];
    }
  }

  /** Filtering twice is filtering once. */
  lemma {:induction false} KeepNonHeaderIdempotent<V>(rows: seq<Row<V>>)
    ensures KeepNonHeader(KeepNonHeader(rows)) == KeepNonHeader(rows)
  {
    if |rows| > 0 {
      KeepNonHeaderIdempotent(rows[1..]);
      if !IsHeaderRow(rows[0]) {
        var kept := KeepNonHeader(rows);
        assert kept[0] == rows[0] && kept[1..] == KeepNonHeader(rows[1..]);
      }
    }
  }

  /**
   * Conversion neither hides nor creates header rows: the Player column has
   * no converter, so a converted row repeats the header exactly when its
   * extracted text does.
   */
  lemma ConvertedHeaderRow<V>(parsers: Parsers<V>, row: RawRow)
    ensures IsHeaderRow(ConvertRow(parsers, row)) <==> IsRawHeaderRow(row)
  {
    assert PlayerColumn !in Converters;
  }

  // ---------------------------------------------------------------------------
  // Column drop

  /** The labels of `columns` other than `name`, in order. */
  function RemoveLabel(columns: seq<string>, name: string): (r: seq<string>)
    ensures ColumnSet(r) == ColumnSet(columns) - {name}
    ensures Distinct(columns) ==> Distinct(r)
    ensures IsSubsequence(r, columns)
  {
    if |columns| == 0 then []
    else if columns[0] == name then
      assert ColumnSet(columns) == {columns[0]} + ColumnSet(columns[1..]);
      assert Distinct(columns) ==> Distinct(columns[1..]);
      RemoveLabel(columns[1..], name)
    else
      var rest := RemoveLabel(columns[1..], name);
      var r := [columns[0]] + rest;
      assert ColumnSet(columns) == {columns[0]} + ColumnSet(columns[1..]);
      assert ColumnSet(r) == {columns[0]} + ColumnSet(rest);
      assert Distinct(columns) ==> Distinct(columns[1..]) && columns[0] !in ColumnSet(columns[1..]);
      assert forall k :: 0 <= k < |rest| ==> rest[k] in ColumnSet(rest);
      r
  }

  /**
   * `df.drop(name, axis='columns')`: every row loses that column and keeps
   * all the others unchanged; a KeyError when `name` is not a column.
   */
  function DropColumn<V>(t: Table<V>, name: string): (r: Result<Table<V>, CleanError>)
    ensures r.Failure? <==> name !in t.columns
    ensures r.Failure? ==> r.error == KeyError(name)
    ensures r.Success? ==> |r.value.rows| == |t.rows| && name !in r.value.columns
    ensures r.Success? ==> ColumnSet(r.value.columns) == ColumnSet(t.columns) - {name}
    ensures r.Success? ==> IsSubsequence(r.value.columns, t.columns)
    ensures r.Success? ==> forall i :: 0 <= i < |t.rows| ==> r.value.rows[i].Keys == t.rows[i].Keys - {name}
    ensures r.Success? ==> forall i, c :: 0 <= i < |t.rows| && c in r.value.rows[i] ==> r.value.rows[i][c] == t.rows[i][c]
  {
    if name !in t.columns then Failure(KeyError(name))
    else Success(Table(RemoveLabel(t.columns, name), seq(|t.rows|, i requires 0 <= i < |t.rows| => t.rows[i] - {name})))
  }

  lemma DropColumnWellFormed<V>(t: Table<V>, name: string)
    requires WellFormed(t) && DropColumn(t, name).Success?
    ensures WellFormed(DropColumn(t, name).value)
  {
  }

  // ---------------------------------------------------------------------------
  // The whole cleaning

  /**
   * The cleaning of pfr_url_to_df after extraction: the converters, then the
   * header-row filter, then the drop of 'Unnamed: 7'. It fails exactly
   * when a column it needs is missing: first the Player column
   * (AttributeError), then 'Unnamed: 7' (KeyError).
   */
  function CleanTable<V>(parsers: Parsers<V>, raw: RawTable): (r: Result<Table<V>, CleanError>)
    ensures r.Failure? <==> PlayerColumn !in raw.columns || BadColumn !in raw.columns
    ensures PlayerColumn !in raw.columns ==> r == Failure(AttributeError(PlayerColumn))
    ensures PlayerColumn in raw.columns && BadColumn !in raw.columns ==> r == Failure(KeyError(BadColumn))
    ensures r.Success? ==> BadColumn !in r.value.columns && |r.value.rows| <= |raw.rows|
  {
    var converted := ApplyConverters(parsers, raw);
    var filtered :- FilterHeaderRows(converted);
    DropColumn(filtered, BadColumn)
  }

  /** The number of extracted rows that repeat the header. */
  function RawHeaderCount(rows: seq<RawRow>): (n: nat)
    ensures n <= |rows|
    ensures n == 0 <==> forall i :: 0 <= i < |rows| ==> !IsRawHeaderRow(rows[i])
  {
    if |rows| == 0 then 0
    else (if IsRawHeaderRow(rows[0]) then 1 else 0) + RawHeaderCount(rows[1..])
  }

  lemma {:induction false} ConvertedHeaderCount<V>(parsers: Parsers<V>, raw: RawTable)
    ensures HeaderCount(ApplyConverters(parsers, raw).rows) == RawHeaderCount(raw.rows)
    decreases |raw.rows|
  {
    if |raw.rows| > 0 {
      var rest := RawTable(raw.columns, raw.rows[1..]);
      ConvertedHeaderCount(parsers, rest);
      ConvertedHeaderRow(parsers, raw.rows[0]);
      assert ApplyConverters(parsers, raw).rows[1..] == ApplyConverters(parsers, rest).rows;
    }
  }

  /**
   * On success: no header row is left, 'Unnamed: 7' is gone from the columns
   * and from every row, the other columns are kept in order, the row count
   * is the extracted count less the header rows, each surviving row is its
   * converted original less 'Unnamed: 7', and a well-formed table stays well
   * formed.
   */
  lemma CleanTableSpec<V>(parsers: Parsers<V>, raw: RawTable)
    requires CleanTable(parsers, raw).Success?
    ensures var t := CleanTable(parsers, raw).value;
      var kept := KeepNonHeader(ApplyConverters(parsers, raw).rows);
      && ColumnSet(t.columns) == ColumnSet(raw.columns) - {BadColumn}
      && IsSubsequence(t.columns, raw.columns)
      && (forall i :: 0 <= i < |t.rows| ==> !IsHeaderRow(t.rows[i]) && BadColumn !in t.rows[i])
      && |t.rows| == |raw.rows| - RawHeaderCount(raw.rows)
      && |t.rows| == |kept|
      && (forall i :: 0 <= i < |t.rows| ==> t.rows[i] == kept[i] - {BadColumn})
      && (RawWellFormed(raw) ==> WellFormed(t))
  {
    var converted := ApplyConverters(parsers, raw);
    var filtered := FilterHeaderRows(converted).value;
    var t := CleanTable(parsers, raw).value;
    assert t == DropColumn(filtered, BadColumn).value;
    KeepNonHeaderSpec(converted.rows);
    ConvertedHeaderCount(parsers, raw);
    forall i | 0 <= i < |t.rows| ensures !IsHeaderRow(t.rows[i]) {
      assert !IsHeaderRow(filtered.rows[i]);
      assert t.rows[i].Keys == filtered.rows[i].Keys - {BadColumn};
    }
    if RawWellFormed(raw) {
      ApplyConvertersWellFormed(parsers, raw);
      assert WellFormed(filtered) by {
        KeepNonHeaderWellFormed(converted.columns, converted.rows);
      }
      DropColumnWellFormed(filtered, BadColumn);
    }
  }

  lemma {:induction false} KeepNonHeaderWellFormed<V>(columns: seq<string>, rows: seq<Row<V>>)
    requires forall i :: 0 <= i < |rows| ==> rows[i].Keys == ColumnSet(columns)
    ensures forall i :: 0 <= i < |KeepNonHeader(rows)| ==> KeepNonHeader(rows)[i].Keys == ColumnSet(columns)
  {
    if |rows| > 0 {
      KeepNonHeaderWellFormed(columns, rows[1..]);
    }
  }
}
