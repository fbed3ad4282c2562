/**
  The command-line driver of getStockInfo.py: refuse a run that asks for
  no attribute, fetch one record per code, and keep for the CSV export
  each record without its dividend table.
 */
module Cli {
  import opened Wrappers
  import opened LowLevel
  import opened OrderedDict
  import opened HighLevel

  /** The message the run exits with when no attribute flag is set. */
  const NoOptionMessage: string := "少なくとも 1 つの取得オプションを指定してください"

  /** A run either exits with a message, or yields its CSV rows. */
  datatype Outcome = Exit(message: string) | Rows(rows: seq<Record>)

  /** The CSV row of a record: every entry but the dividend table. */
  function CsvRow(record: Record): (row: Record)
    ensures Valid(record) ==> Valid(row)
    ensures Get(row, DividendsKey).None?
    ensures forall k :: k != DividendsKey ==> Get(row, k) == Get(record, k)
    ensures forall k :: k in row.order <==> k in record.order && k != DividendsKey
  {
    Without(record, DividendsKey)
  }

  /** `main()` after argument parsing: the flag check, then one fetch per
      code in input order, duplicates included. */
  method Run(p: Provider, codes: seq<string>, req: Request) returns (out: Outcome)
    ensures out.Exit? <==> !(req.price || req.eps || req.bps || req.div)
    ensures out.Exit? ==> out.message == NoOptionMessage
    ensures out.Rows? ==> |out.rows| == |codes|
    ensures out.Rows? ==> forall i :: 0 <= i < |codes| ==>
      out.rows[i] == CsvRow(RecordOf(p, codes[i], req))
  {
    if !(req.price || req.eps || req.bps || req.div) {
      return Exit(NoOptionMessage);
    }
    var rows: seq<Record> := [];
    for i := 0 to |codes|
      invariant |rows| == i
      invariant forall j :: 0 <= j < i ==> rows[j] == CsvRow(RecordOf(p, codes[j], req))
    {
      var data := Fetch(p, codes[i], req);
      rows := rows + [Without(data, DividendsKey)];
    }
    return Rows(rows);
  }

  /** A CSV row has the columns Code, then the requested scalar attributes
      in the order Price, EPS, BPS, never a Dividends column, and every
      column holds the record's value unchanged. */
  lemma CsvRowColumns(p: Provider, code: string, req: Request)
    ensures CsvRow(RecordOf(p, code, req)).order ==
      [CodeKey] + (if req.price then [PriceKey] else []) + (if req.eps then [EpsKey] else [])
      + (if req.bps then [BpsKey] else [])
    ensures Get(CsvRow(RecordOf(p, code, req)), DividendsKey).None?
    ensures forall k :: k != DividendsKey ==>
      Get(CsvRow(RecordOf(p, code, req)), k) == Get(RecordOf(p, code, req), k)
  {
    ScalarOrder(req);
    if req.div {
      RemoveLast(ScalarKeys(req), DividendsKey);
    }
  }
}
