/**
  The low-level API of getStockInfo.py: one query per attribute against the
  market-data provider, each keyed by the Tokyo Stock Exchange ticker of a
  security code. The provider is not called here; it is an argument that
  supplies, per ticker, what its three queries would return.
 */
module LowLevel {
  import opened Wrappers
  import opened Fallback

  /** A number the provider returns (a close, an EPS or BPS figure, a
      dividend amount). No arithmetic is done on it, so it stays opaque. */
  type Value

  /** The index of one entry of the provider's dividend series. */
  type Date

  /** A provider handle, identified by its ticker symbol. */
  datatype Ticker = Ticker(symbol: string)

  /** What the provider answers for a ticker: the Close column of its
      one-day daily history (oldest first), its descriptive-field map,
      and its dividend series (date, amount) in series order. */
  datatype Provider = Provider(
    history: Ticker -> seq<Value>,
    info: Ticker -> map<string, Option<Value>>,
    dividends: Ticker -> seq<(Date, Value)>)

  // ---------------------------------------------------------------
  // Provider key

  /** The ticker of a security code: the code followed by ".T", with no
      other transformation and no validation of the code. */
  function YfTicker(code: string): (t: Ticker)
    ensures |t.symbol| == |code| + 2
    ensures t.symbol[..|code|] == code
    ensures t.symbol[|code|..] == ".T"
  {
    Ticker(code + ".T")
  }

  /** Distinct codes never share a ticker. */
  lemma YfTickerInjective(a: string, b: string)
    requires YfTicker(a) == YfTicker(b)
    ensures a == b
  {
    assert a == YfTicker(a).symbol[..|a|];
  }

  // ---------------------------------------------------------------
  // Price

  /** The latest close: None when the history is empty, otherwise the
      last close of the series. */
  function LastClose(closes: seq<Value>): (r: Option<Value>)
    ensures r.None? <==> closes == []
    ensures r.Some? ==> r.value == closes[|closes| - 1]
  {
    if |closes| == 0 then None else Some(closes[|closes| - 1])
  }

  /** A close appended to the history becomes the latest close, whatever
      came before it. */
  lemma LastCloseOfAppended(closes: seq<Value>, c: Value)
    ensures LastClose(closes + [c]) == Some(c)
  {
  }

  /** `_latest_close(code)`: the latest close of the history the provider
      holds for the code's ticker. */
  function LatestClose(p: Provider, code: string): (r: Option<Value>)
    ensures r.None? <==> p.history(YfTicker(code)) == []
    ensures r.Some? ==> r.value == p.history(YfTicker(code))[|p.history(YfTicker(code))| - 1]
  {
    LastClose(p.history(YfTicker(code)))
  }

  // ---------------------------------------------------------------
  // EPS and BPS

  /** The EPS field names, most authoritative first. */
  const EpsKeys: seq<string> := ["trailingEps", "epsTrailingTwelveMonths", "forwardEps"]

  /** The BPS field names, most authoritative first. */
  const BpsKeys: seq<string> := ["bookValuePerShare", "bookValue"]

  function EpsOf<V>(info: map<string, Option<V>>): Option<V>
  {
    FirstPresent(info, EpsKeys)
  }

  function BpsOf<V>(info: map<string, Option<V>>): Option<V>
  {
    FirstPresent(info, BpsKeys)
  }

  /** `_eps(code)`: the fallback search over the EPS keys. */
  method Eps(p: Provider, code: string) returns (r: Option<Value>)
    ensures r == EpsOf(p.info(YfTicker(code)))
  {
    var info := p.info(YfTicker(code));
    r := FindFirstPresent(info, EpsKeys);
  }

  /** `_bps(code)`: the fallback search over the BPS keys. */
  method Bps(p: Provider, code: string) returns (r: Option<Value>)
    ensures r == BpsOf(p.info(YfTicker(code)))
  {
    var info := p.info(YfTicker(code));
    r := FindFirstPresent(info, BpsKeys);
  }

  /** A trailing EPS wins, whatever the other two fields hold. */
  lemma EpsPrefersTrailing<V>(info: map<string, Option<V>>)
    requires Lookup(info, "trailingEps").Some?
    ensures EpsOf(info) == Lookup(info, "trailingEps")
  {
    FirstPresentIsEarliest(info, EpsKeys, 0);
  }

  /** Without a trailing EPS, the twelve-month EPS is used when it has a value. */
  lemma EpsFallsBackToTwelveMonths<V>(info: map<string, Option<V>>)
    requires Lookup(info, "trailingEps").None?
    requires Lookup(info, "epsTrailingTwelveMonths").Some?
    ensures EpsOf(info) == Lookup(info, "epsTrailingTwelveMonths")
  {
    FirstPresentIsEarliest(info, EpsKeys, 1);
  }

  /** Without either, the forward EPS decides, and it may itself be None. */
  lemma EpsFallsBackToForward<V>(info: map<string, Option<V>>)
    requires Lookup(info, "trailingEps").None?
    requires Lookup(info, "epsTrailingTwelveMonths").None?
    ensures EpsOf(info) == Lookup(info, "forwardEps")
  {
    if Lookup(info, "forwardEps").Some? {
      FirstPresentIsEarliest(info, EpsKeys, 2);
    }
  }

  /** EPS is None exactly when none of its three fields has a value. */
  lemma EpsNoneIff<V>(info: map<string, Option<V>>)
    ensures EpsOf(info).None? <==>
      Lookup(info, "trailingEps").None? &&
      Lookup(info, "epsTrailingTwelveMonths").None? &&
      Lookup(info, "forwardEps").None?
  {
    if EpsOf(info).None? {
      assert Lookup(info, EpsKeys[0]).None?;
      assert Lookup(info, EpsKeys[1]).None?;
      assert Lookup(info, EpsKeys[2]).None?;
    }
  }

  /** A BPS per share wins over the book value. */
  lemma BpsPrefersPerShare<V>(info: map<string, Option<V>>)
    requires Lookup(info, "bookValuePerShare").Some?
    ensures BpsOf(info) == Lookup(info, "bookValuePerShare")
  {
    FirstPresentIsEarliest(info, BpsKeys, 0);
  }

  /** Without a BPS per share, the book value decides, and it may be None. */
  lemma BpsFallsBackToBookValue<V>(info: map<string, Option<V>>)
    requires Lookup(info, "bookValuePerShare").None?
    ensures BpsOf(info) == Lookup(info, "bookValue")
  {
    if Lookup(info, "bookValue").Some? {
      FirstPresentIsEarliest(info, BpsKeys, 1);
    }
  }

  /** BPS is None exactly when neither of its two fields has a value. */
  lemma BpsNoneIff<V>(info: map<string, Option<V>>)
    ensures BpsOf(info).None? <==>
      Lookup(info, "bookValuePerShare").None? && Lookup(info, "bookValue").None?
  {
    if BpsOf(info).None? {
      assert Lookup(info, BpsKeys[0]).None?;
      assert Lookup(info, BpsKeys[1]).None?;
    }
  }

  /** The test is "is not None", not truthiness: a stored zero stops the
      search and is returned, even when a later field holds a number. */
  lemma ZeroIsNotSkipped(info: map<string, Option<real>>)
    ensures Lookup(info, "trailingEps") == Some(0.0) ==> EpsOf(info) == Some(0.0)
    ensures Lookup(info, "trailingEps").None? && Lookup(info, "epsTrailingTwelveMonths") == Some(0.0)
      ==> EpsOf(info) == Some(0.0)
    ensures Lookup(info, "bookValuePerShare") == Some(0.0) ==> BpsOf(info) == Some(0.0)
  {
    if Lookup(info, "trailingEps") == Some(0.0) {
      EpsPrefersTrailing(info);
    } else if Lookup(info, "trailingEps").None? && Lookup(info, "epsTrailingTwelveMonths") == Some(0.0) {
      EpsFallsBackToTwelveMonths(info);
    }
    if Lookup(info, "bookValuePerShare") == Some(0.0) {
      BpsPrefersPerShare(info);
    }
  }

  // ---------------------------------------------------------------
  // Dividends

  /** One row of the dividend table: its PayDate and Dividend columns. */
  datatype DividendRow = DividendRow(payDate: Date, dividend: Value)

  /** The dividend series reshaped into a table: no rows for an empty
      series, otherwise one row per series entry, in series order. */
  function DividendTable(series: seq<(Date, Value)>): (rows: seq<DividendRow>)
    ensures |rows| == |series|
    ensures forall i :: 0 <= i < |rows| ==>
      rows[i].payDate == series[i].0 && rows[i].dividend == series[i].1
  {
    if |series| == 0 then []
    else seq(|series|, i requires 0 <= i < |series| => DividendRow(series[i].0, series[i].1))
  }

  /** The series read back from a dividend table, column by column. */
  function SeriesOf(rows: seq<DividendRow>): (series: seq<(Date, Value)>)
  {
    seq(|rows|, i requires 0 <= i < |rows| => (rows[i].payDate, rows[i].dividend))
  }

  /** Reshaping loses nothing: the series is recovered from the table. */
  lemma DividendTableRoundTrip(series: seq<(Date, Value)>)
    ensures SeriesOf(DividendTable(series)) == series
  {
  }

  /** `_dividends(code)`: the table of the dividend series the provider
      holds for the code's ticker. */
  function Dividends(p: Provider, code: string): (rows: seq<DividendRow>)
    ensures |rows| == |p.dividends(YfTicker(code))|
    ensures forall i :: 0 <= i < |rows| ==>
      && rows[i].payDate == p.dividends(YfTicker(code))[i].0
      && rows[i].dividend == p.dividends(YfTicker(code))[i].1
  {
    DividendTable(p.dividends(YfTicker(code)))
  }
}
