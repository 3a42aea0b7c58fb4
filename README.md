# Pro Football Reference query builder and table cleaning, in Dafny

This project models `nfl_data.py`, a small module that fetches NFL game
statistics from Pro Football Reference's game finder. It has two parts.

- **Query-URL builder.** `Position` (QB, RB, REC) carries a comparison-stat
  key and a sort key. `build_pfr_url(year=2019, position=Position.QB)` builds
  a dictionary of eighteen query parameters. It serialises them with
  `urllib.parse.urlencode`, which applies `str` to every value and then
  `quote_plus` with an empty safe set. The result is appended to the
  game-finder base URL after `/?`.
- **Row cleaning of `pfr_url_to_df`.** The steps after the HTML table has
  been extracted:
  - sixteen per-column converters (`pd.to_numeric` / `pd.to_datetime` with
    `errors='ignore'`) that keep the original text when a value does not
    parse;
  - removal of rows that repeat the header (`Player == 'Player'`);
  - removal of the column `'Unnamed: 7'`.

Files:

- `wrappers.dfy`: `Option` and `Result`.
- `decimal.dfy`: Python's `str(int)` (`IntToString`) and the reading back of
  such a rendering (`ParseInt`).
- `form_encoding.dfy`: `urlencode` / `quote_plus`. It covers UTF-8 encoding,
  the unreserved set of section 2.3 of RFC 3986, `+` for space and `%XX`
  escapes. It also gives a reference decoder (`UnquotePlus`, `ParseQuery`),
  which is used to prove the encoder injective.
- `pfr_url.dfy`: `Position`, `CStat`, `OrderBy`, the query dictionary
  `PfrQuery`, `BuildPfrUrl` with the source's default arguments, and
  `ReadPfrUrl`, which recovers `(year, position)` from a URL.
- `cleaning.dfy`: cells `Raw(text) | Parsed(value)`, tables as column labels
  plus rows of `map<string, Cell>`, the converters, the header-row filter, the
  column drop and the whole cleaning `CleanTable`. The pandas errors are
  modelled as a `Result`: `df.Player` raises `AttributeError` when there is
  no Player column, and `df.drop` raises `KeyError` when the label is missing.

The week is fixed at 1 (nfl_data.py:58-59). The code raises when the Player column or the `'Unnamed: 7'`
column is missing, so the model returns an error in those cases.

## Model

| member | source | states |
|---|---|---|
| `Decimal.IntToString` | nfl_data.py:49-50 | `str(year)` of any integer is non-empty and made of digits, with a leading '-' exactly when the year is negative |
| `Decimal.NatToString` | nfl_data.py:49-50 | the decimal digits of a natural number have no leading zero unless the number is 0 |
| `Decimal.ParseIntToString` | nfl_data.py:49-50 | reading the rendering of any integer back gives that integer |
| `Decimal.IntToStringInjective` | nfl_data.py:49-50 | two years render to the same text exactly when they are equal |
| `FormEncoding.Stringify` | nfl_data.py:66 | `str` of a query value: a string is kept, and an integer's rendering reads back as that integer |
| `FormEncoding.QuotePlus` | nfl_data.py:66 | every character `quote_plus` produces is unreserved, '+' or '%' |
| `FormEncoding.Utf8RoundTrip` | nfl_data.py:66 | decoding the UTF-8 bytes of any string gives the string back |
| `FormEncoding.QuotePlusRoundTrip` | nfl_data.py:66 | unquoting the quoted form of any string gives the string back, so quoting loses nothing |
| `FormEncoding.QuotePlusInjective` | nfl_data.py:66 | two strings quote to the same text exactly when they are equal |
| `FormEncoding.QuotePlusIdentity` | nfl_data.py:66 | a string passes through `quote_plus` unchanged exactly when all its characters are in the unreserved set of RFC 3986 |
| `FormEncoding.SplitJoin` | nfl_data.py:66 | splitting the '&'-join of parts that contain no '&' gives back the parts |
| `FormEncoding.JoinSplit` | nfl_data.py:66 | joining the pieces of a split gives back the string, and no piece holds the separator |
| `FormEncoding.UrlEncode` | nfl_data.py:66 | `urlencode` of a query is empty exactly when the query is, and holds only unreserved characters, '+', '%', '=' and '&' |
| `FormEncoding.UrlEncodeRoundTrip` | nfl_data.py:66 | parsing the output of `urlencode` gives back every pair, as strings, in insertion order |
| `FormEncoding.UrlEncodeInjective` | nfl_data.py:66 | queries with the same encoding have the same pairs once every value is rendered with `str` |
| `FormEncoding.UrlEncodePlain` | nfl_data.py:66 | when all keys and values are unreserved, the encoding is exactly `k1=v1&k2=v2&...` |
| `PfrUrl.CStat` | nfl_data.py:12-14 | the comparison-stat key of a position is a plain word and determines the position |
| `PfrUrl.OrderBy` | nfl_data.py:12-14 | the sort key of a position is a plain word and determines the position |
| `PfrUrl.CStatIdentifiesPosition` | nfl_data.py:12-14 | the comparison-stat key determines the position (QB pass_att, RB rush_att, REC rec); all keys and sort keys are plain words |
| `PfrUrl.PfrQuery` | nfl_data.py:46-65 | the query dictionary has eighteen entries |
| `PfrUrl.PfrQueryKeys` | nfl_data.py:46-65 | the dictionary's keys are distinct and each is one of the eighteen parameter names |
| `PfrUrl.PfrQueryUnreserved` | nfl_data.py:46-65 | every key and rendered value of the query dictionary is made of unreserved characters |
| `PfrUrl.BuildPfrUrl` | nfl_data.py:17-66 | `build_pfr_url` (defaults 2019 and QB) gives the game-finder prefix followed by a non-empty encoded query of unreserved characters, '+', '%', '=' and '&' |
| `PfrUrl.UrlQuery` | nfl_data.py:24-66 | the URL starts with `https://www.pro-football-reference.com/play-index/pgl_finder.cgi/?`; the query that follows reads back as exactly the eighteen pairs, in order: year_min and year_max are the year, c1stat and order_by come from the position, and the rest are the constants |
| `PfrUrl.UrlText` | nfl_data.py:46-66 | encoding changes no pair: the URL is the prefix followed by `key=value` pairs joined by '&' |
| `PfrUrl.ConstantParameters` | nfl_data.py:46-65 | the keys, and every value except year_min, year_max, c1stat and order_by, are the same for every argument |
| `PfrUrl.ReadBuildPfrUrl` | nfl_data.py:17-66 | reading a built URL back gives the year and position it was built from |
| `PfrUrl.BuildPfrUrlInjective` | nfl_data.py:17-66 | two (year, position) arguments give the same URL exactly when they are equal |
| `PfrUrl.DefaultUrl` | nfl_data.py:17 | the URL built with the default arguments reads back as (2019, QB) |
| `PfrUrl.DefaultPairs` | nfl_data.py:17 | with the default arguments, year_min and year_max are "2019", c1stat is pass_att and order_by is pass_rating |
| `Cleaning.Coerce` | nfl_data.py:86-103 | a converter never fails: its cell holds the original text exactly when the parser rejects it, and when the parser accepts the text it holds exactly the parsed value |
| `Cleaning.ConvertRow` | nfl_data.py:86-104 | conversion keeps the row's columns |
| `Cleaning.ConvertedCell` | nfl_data.py:86-104 | every converted cell holds either the row's text or what that column's converter parsed from it; it holds the text exactly when the column has no converter or the text does not parse, and it holds the parsed value whenever the column's converter accepts the text |
| `Cleaning.ApplyConverters` | nfl_data.py:104 | every extracted row is converted; the columns and the row count are unchanged |
| `Cleaning.ApplyConvertersWellFormed` | nfl_data.py:104 | conversion keeps a table well formed: distinct labels, every row having exactly the table's columns |
| `Cleaning.KeepNonHeader` | nfl_data.py:107 | no kept row has Player == 'Player' |
| `Cleaning.FilterHeaderRows` | nfl_data.py:107 | fails with AttributeError exactly when there is no Player column; otherwise keeps the columns and leaves no header row, the rows being exactly those `KeepNonHeader` keeps |
| `Cleaning.HeaderCount` | nfl_data.py:107 | the number of rows that repeat the header is zero exactly when no row does |
| `Cleaning.KeepNonHeaderSpec` | nfl_data.py:107 | the kept rows are the original rows, unchanged and in their relative order, and their number is the row count less the header rows |
| `Cleaning.KeepNonHeaderKeepsRows` | nfl_data.py:107 | every row that does not repeat the header is kept |
| `Cleaning.KeepNonHeaderIdempotent` | nfl_data.py:107 | filtering twice is the same as filtering once |
| `Cleaning.KeepNonHeaderWellFormed` | nfl_data.py:107 | filtering keeps every row's columns equal to the table's columns |
| `Cleaning.ConvertedHeaderRow` | nfl_data.py:86-107 | Player has no converter, so a converted row repeats the header exactly when its extracted text does |
| `Cleaning.ConvertedHeaderCount` | nfl_data.py:86-107 | the converted table has exactly as many header rows as the extracted one |
| `Cleaning.RemoveLabel` | nfl_data.py:114 | the remaining labels are the old ones less the dropped one, still distinct and in their order |
| `Cleaning.DropColumn` | nfl_data.py:114 | fails with KeyError exactly when the label is not a column; otherwise the label is gone from the columns and from every row, and every other cell is unchanged |
| `Cleaning.DropColumnWellFormed` | nfl_data.py:114 | dropping a column keeps a table well formed |
| `Cleaning.CleanTable` | nfl_data.py:104-116 | the cleaning fails exactly when Player (AttributeError) or else 'Unnamed: 7' (KeyError) is missing; on success 'Unnamed: 7' is not a column and no rows are added |
| `Cleaning.CleanTableSpec` | nfl_data.py:104-116 | on success no header row is left, 'Unnamed: 7' is gone from the columns and every row, the other columns keep their order, the row count is the extracted count less the header rows, each surviving row is its converted original (the non-header rows in order) less 'Unnamed: 7', and well-formedness is kept |

## Left out

- The HTTP GET with its fixed User-Agent header (nfl_data.py:78-84) is network I/O. The model starts from the extracted table.
- `pd.read_html(text, skiprows=1, header=0, ...)` (nfl_data.py:104) is a foreign HTML-table parser. Its output is taken as the `RawTable` input, with the converters applied to it by `ApplyConverters`.
- `Cleaning.ConvertedCell`: does not model pandas' missing-value step inside `read_html` (nfl_data.py:104). After a converter returns a text unchanged, pandas replaces a text in its default NA set ("NA", "N/A", "n/a", "null", "NULL", "#N/A", "<NA>" and others) by NaN; the model keeps such a text as `Raw(text)`. `Cleaning.Coerce`, `Cleaning.ConvertRow`, `Cleaning.ApplyConverters` and `Cleaning.CleanTableSpec` inherit this gap.
- pandas' own type inference for the columns that have no converter happens inside `read_html`. In the model those cells keep their text (`Raw`).
- The real parsing of `pd.to_numeric` and `pd.to_datetime` is left out: floating-point columns and timestamps. The parsers are parameters that return `None` when the text does not parse. Only the "parsed or unchanged" contract is modelled.
- `df.infer_objects()` (nfl_data.py:111) changes pandas dtypes, not values. The model has no dtypes, so this step is the identity and is not written out.
- The `__main__` block (nfl_data.py:119-120) prints to the console.
- `onepiece-filler.py` is not part of this model. It is a separate script that fetches a page, extracts a table, counts with pandas and draws a pie chart. It has no logic of its own and shares nothing with `nfl_data.py`.
- `quote_plus` is modelled by its net effect on each UTF-8 byte (space becomes '+'). The source first quotes with ' ' safe and then replaces spaces, which gives the same result.
- `urlencode`'s handling of `bytes` keys and values and its `doseq` option are not used by the source and are not modelled.
- `UnquotePlus` and `ParseQuery` are a reference decoder used to prove injectivity. Unlike Python's `unquote_plus`, they accept only the characters the encoder produces.
- Strict UTF-8 encoding errors (lone surrogates) are not modelled. Dafny characters are Unicode scalar values, so they cannot occur.
- `Decimal.IntToString`: does not model CPython's limit on integer-to-string conversion (since 3.11, and in 3.7.14, 3.8.14, 3.9.14 and 3.10.7, `str` raises `ValueError` for an integer with more than 4300 digits, so `urlencode` at nfl_data.py:66 raises for such a year). `ParseInt` ignores the same limit for `int()`. `BuildPfrUrl`, `ReadBuildPfrUrl` and `BuildPfrUrlInjective` hold for every integer year.
- The DataFrame row index is not modelled. `df.loc[...]` at nfl_data.py:107 keeps the original row labels, so the returned frame has gaps where header rows were; a `Table` has only the ordered rows.
- `PfrUrl.DefaultUrl`: does not state the full literal default URL. It states that the URL reads back as (2019, QB). `UrlText` and `DefaultPairs` together give its text pair by pair.
