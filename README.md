# getStockInfo — a verified model of its decision logic

`getStockInfo.py` fetches, for a list of Tokyo Stock Exchange security codes,
the latest price, EPS, BPS and dividend history from a market-data provider,
prints them, and can export the scalar attributes as CSV. This project models
the logic of that script once the provider is replaced by abstract data:

- **Provider key** (`LowLevel.YfTicker`): a code becomes the ticker
  `code + ".T"`. Nothing else is done to the code, and nothing is checked.
- **Attribute queries** (`LowLevel`): price is the last close of the history,
  or None when the history is empty. EPS and BPS are the first field of an
  ordered key table whose value is not None (`Fallback.FirstPresent`, written
  once and used with both tables). Dividends are the series reshaped into
  (PayDate, Dividend) rows.
- **Record assembly** (`HighLevel.Fetch`): a record holds `Code` and then
  exactly the requested attributes, in the order Price, EPS, BPS, Dividends.
  The Python dict is modelled by `OrderedDict.Dict`, an insertion order next
  to a key-to-value map. Its keys are the enumeration `HighLevel.Key`, whose
  `Name` gives the spelling the script uses ("Code", "Price", "EPS", "BPS",
  "Dividends").
- **Driver** (`Cli.Run`): a run with no attribute flag exits with a message.
  Otherwise it fetches one record per code, in input order, and keeps each
  record without its `Dividends` entry as that code's CSV row.

The provider is a `LowLevel.Provider` value. For each ticker it supplies the
Close column of the one-day history, the descriptive-field map and the
dividend series, fixed for the whole run. Each query looks up `YfTicker(code)`
again, as the script does.
A field map is a `map<string, Option<V>>`, so a missing key and a key stored
as None are both representable; `Fallback.Lookup` treats both as `info.get`
does. Prices, EPS/BPS figures, dividend amounts and dates are the abstract
types `LowLevel.Value` and `LowLevel.Date`, because the script does no
arithmetic on them.

Every ticker is `code + ".T"`, whatever the code. Codes are handled in the
order given, with duplicates kept. A provider error is not caught anywhere:
it propagates and ends the run, so the model has no error path for it.

Files: `wrappers.dfy` (Option), `fallback.dfy`, `lowlevel.dfy`,
`ordereddict.dfy`, `highlevel.dfy`, `cli.dfy`. They are verified together.

## Model

| member | source | states |
|---|---|---|
| `Fallback.FirstPresent` | getStockInfo.py:46-49 | the search yields a value exactly when some key of the table has a non-None value, and the value it yields is the value of one of those keys |
| `Fallback.FirstPresentIsEarliest` | getStockInfo.py:46-48 | if key i has a value and every earlier key has none, the search returns key i's value, whatever later keys hold |
| `Fallback.FindFirstPresent` | getStockInfo.py:46-49 | the loop that probes keys in order and returns early agrees with the first-present search for every map and key table |
| `LowLevel.YfTicker` | getStockInfo.py:32-34 | the ticker symbol is the code followed by exactly ".T", two characters longer, for every string including the empty one |
| `LowLevel.YfTickerInjective` | getStockInfo.py:32-34 | two codes with the same ticker are the same code |
| `LowLevel.LastClose` | getStockInfo.py:40 | price is None exactly when the history is empty; otherwise it is the last close |
| `LowLevel.LatestClose` | getStockInfo.py:37-40 | `_latest_close(code)` is LastClose of the provider's history for `YfTicker(code)`: None exactly when that history is empty, otherwise its last close |
| `LowLevel.LastCloseOfAppended` | getStockInfo.py:40 | a close appended to any history becomes the price |
| `LowLevel.Eps` | getStockInfo.py:43-49 | `_eps` is the first-present search over the EPS key table applied to the ticker's field map |
| `LowLevel.Bps` | getStockInfo.py:52-58 | `_bps` is the first-present search over the BPS key table applied to the ticker's field map |
| `LowLevel.EpsPrefersTrailing` | getStockInfo.py:46-48 | when trailingEps has a value, EPS is that value even if the other two fields have values too |
| `LowLevel.EpsFallsBackToTwelveMonths` | getStockInfo.py:46-48 | when trailingEps is None or missing and epsTrailingTwelveMonths has a value, EPS is that value |
| `LowLevel.EpsFallsBackToForward` | getStockInfo.py:46-49 | when the first two EPS fields have no value, EPS is whatever forwardEps holds, None included |
| `LowLevel.EpsNoneIff` | getStockInfo.py:46-49 | EPS is None if and only if none of trailingEps, epsTrailingTwelveMonths, forwardEps has a value |
| `LowLevel.BpsPrefersPerShare` | getStockInfo.py:55-57 | when bookValuePerShare has a value, BPS is that value even if bookValue has one |
| `LowLevel.BpsFallsBackToBookValue` | getStockInfo.py:55-58 | when bookValuePerShare has no value, BPS is whatever bookValue holds, None included |
| `LowLevel.BpsNoneIff` | getStockInfo.py:55-58 | BPS is None if and only if neither bookValuePerShare nor bookValue has a value |
| `LowLevel.ZeroIsNotSkipped` | getStockInfo.py:46-57 | a stored 0 counts as present: it stops the EPS or BPS search and is returned rather than skipped |
| `LowLevel.DividendTable` | getStockInfo.py:64-67 | the table has no rows for an empty series; otherwise it has one row per series entry, in series order, with PayDate the entry's date and Dividend its amount |
| `LowLevel.Dividends` | getStockInfo.py:61-67 | `_dividends(code)` is DividendTable of the provider's series for `YfTicker(code)`: one row per entry of that series, in its order, with its date and amount |
| `LowLevel.DividendTableRoundTrip` | getStockInfo.py:66 | reshaping loses nothing: reading the columns back gives the original series |
| `OrderedDict.PutSemantics` | getStockInfo.py:84-94 | after `d[k] = v`, k maps to v and every other key is unchanged; a new key is appended at the end of the key order, and an existing key keeps its position; the order stays duplicate-free and in step with the map |
| `OrderedDict.Without` | getStockInfo.py:145 | the comprehension that drops key k leaves no k, keeps every other key and its value, and leaves a dict without k as it was |
| `HighLevel.NameInjective` | getStockInfo.py:81-94 | the five key spellings "Code", "Price", "EPS", "BPS", "Dividends" are pairwise different, so no assignment can overwrite another key |
| `HighLevel.ScalarOrder` | getStockInfo.py:81-91 | the keys assigned before the dividend table are Code, then the requested Price, EPS, BPS in that order, each once, and never Dividends |
| `HighLevel.Fetch` | getStockInfo.py:73-96 | the record built by assigning the requested attributes one by one equals the record written out as Code, then each requested attribute in order, each holding its query's answer |
| `HighLevel.RecordKeys` | getStockInfo.py:81-96 | the record's keys are Code, then Price, EPS, BPS and Dividends, each present if and only if its flag is set, in that insertion order, with no other key and no key twice |
| `HighLevel.RecordValues` | getStockInfo.py:81-96 | Code always holds the input code; each requested attribute holds its query's answer (None included); an attribute not requested is absent |
| `Cli.Run` | getStockInfo.py:120-145 | the run exits with the fixed message if and only if all four flags are false; otherwise it yields exactly one row per input code, in input order with duplicates kept, each the fetched record without Dividends |
| `Cli.CsvRow` | getStockInfo.py:145 | the row of a record has no Dividends entry, holds every other key of the record with its value unchanged, and is a valid dict when the record is |
| `Cli.CsvRowColumns` | getStockInfo.py:144-145 | a CSV row's columns are Code then the requested Price, EPS, BPS in that order, never Dividends, each holding the record's value unchanged |

## Left out

- Network calls to the market-data library (creating a ticker, `history`, `info`, `dividends`): each query's answer comes from the `Provider` argument instead. Provider errors are not modelled, because the script does not catch them.
- DataFrame and Series mechanics: the history is modelled by its Close column, the dividend series by a sequence of (date, amount) pairs, and the dividend table by a sequence of rows. An empty table, which has no columns, is the empty sequence.
- The provider's answers are fixed for the whole run: every query for a ticker gets the same answer. The script sends a new request for each query, so the two `.info` reads of `_eps` and `_bps` (getStockInfo.py:45, 54) and the queries for a duplicated code could see different data; the model does not capture that, and a duplicated code gets an identical row.
- `float(...)` conversions: values are opaque, so each conversion is the identity.
- Argument parsing (`build_parser`, getStockInfo.py:102-114). `Cli.Run` receives the codes and flags already parsed. It does not require at least one code, although the parser does.
- Console output (getStockInfo.py:134-142) and the CSV file write with its path expansion (getStockInfo.py:147-152): these are I/O. The rows that would be written are `Cli.Run`'s result.
- `SystemExit`: modelled as the `Cli.Outcome.Exit` result carrying the message.
