/**
  The high-level API of getStockInfo.py: `fetch` assembles one record per
  security code from the requested low-level queries.
 */
module HighLevel {
  import opened Wrappers
  import opened LowLevel
  import opened OrderedDict

  /** The keys a record can hold. */
  datatype Key = CodeKey | PriceKey | EpsKey | BpsKey | DividendsKey

  /** The key as the record and the CSV header spell it. */
  function Name(k: Key): string
  {
    match k
    case CodeKey => "Code"
    case PriceKey => "Price"
    case EpsKey => "EPS"
    case BpsKey => "BPS"
    case DividendsKey => "Dividends"
  }

  /** Distinct keys are spelled differently, so naming the keys by this
      enumeration loses nothing. */
  lemma NameInjective(a: Key, b: Key)
    requires Name(a) == Name(b)
    ensures a == b
  {
    assert Name(EpsKey)[0] != Name(BpsKey)[0];
  }

  /** A value stored in a record: the code itself, a scalar attribute that
      may be None, or the dividend table. */
  datatype Field = CodeField(code: string) | Number(value: Option<Value>) | Frame(rows: seq<DividendRow>)

  /** A record as `fetch` returns it. */
  type Record = Dict<Key, Field>

  /** The four attribute flags of a run. */
  datatype Request = Request(price: bool, eps: bool, bps: bool, div: bool)

  /** `s` with `x` appended when `cond` holds: one guarded assignment of `fetch`. */
  function When<T>(s: seq<T>, cond: bool, x: T): seq<T>
  {
    if cond then s + [x] else s
  }

  /** The keys before the dividend table that a request asks for. */
  function ScalarKeys(req: Request): seq<Key>
  {
    When(When(When([CodeKey], req.price, PriceKey), req.eps, EpsKey), req.bps, BpsKey)
  }

  /** The keys a request asks for, in the order `fetch` assigns them. */
  function RequestedKeys(req: Request): seq<Key>
  {
    When(ScalarKeys(req), req.div, DividendsKey)
  }

  /** The answer `fetch` stores under a key. */
  function Answer(p: Provider, code: string, k: Key): Field
  {
    match k
    case CodeKey => CodeField(code)
    case PriceKey => Number(LatestClose(p, code))
    case EpsKey => Number(EpsOf(p.info(YfTicker(code))))
    case BpsKey => Number(BpsOf(p.info(YfTicker(code))))
    case DividendsKey => Frame(Dividends(p, code))
  }

  /** The dict holding exactly `keys`, in that order, each with its answer. */
  function Answers(p: Provider, code: string, keys: seq<Key>): Record
  {
    Dict(keys, map k | k in keys :: Answer(p, code, k))
  }

  /** The record `fetch` returns: the requested keys, each with its answer. */
  function RecordOf(p: Provider, code: string, req: Request): Record
  {
    Answers(p, code, RequestedKeys(req))
  }

  /** Assigning the next key its answer extends the dict of answers by that key. */
  lemma PutAnswer(p: Provider, code: string, keys: seq<Key>, k: Key)
    requires k !in keys
    ensures Put(Answers(p, code, keys), k, Answer(p, code, k)) == Answers(p, code, keys + [k])
  {
    var m := map k' | k' in keys + [k] :: Answer(p, code, k');
    assert Answers(p, code, keys).values[k := Answer(p, code, k)] == m;
  }

  /** None of the guarded assignments of `fetch` meets a key already assigned. */
  lemma AssignedKeysFresh(req: Request)
    ensures PriceKey !in [CodeKey]
    ensures EpsKey !in When([CodeKey], req.price, PriceKey)
    ensures BpsKey !in When(When([CodeKey], req.price, PriceKey), req.eps, EpsKey)
    ensures DividendsKey !in ScalarKeys(req)
  {
  }

  /** `fetch(code, ...)`: start from the code, then assign each requested
      attribute in turn. */
  method Fetch(p: Provider, code: string, req: Request) returns (result: Record)
    ensures result == RecordOf(p, code, req)
  {
    AssignedKeysFresh(req);
    result := Dict([CodeKey], map[CodeKey := CodeField(code)]);
    assert result == Answers(p, code, [CodeKey]);
    if req.price {
      PutAnswer(p, code, [CodeKey], PriceKey);
      result := Put(result, PriceKey, Number(LatestClose(p, code)));
    }
    ghost var keys := When([CodeKey], req.price, PriceKey);
    assert result == Answers(p, code, keys);
    if req.eps {
      var v := Eps(p, code);
      PutAnswer(p, code, keys, EpsKey);
      result := Put(result, EpsKey, Number(v));
    }
    keys := When(keys, req.eps, EpsKey);
    assert result == Answers(p, code, keys);
    if req.bps {
      var v := Bps(p, code);
      PutAnswer(p, code, keys, BpsKey);
      result := Put(result, BpsKey, Number(v));
    }
    keys := When(keys, req.bps, BpsKey);
    assert result == Answers(p, code, keys);
    if req.div {
      PutAnswer(p, code, keys, DividendsKey);
      result := Put(result, DividendsKey, Frame(Dividends(p, code)));
    }
  }

  /** A guarded append is an append of zero or one element. */
  lemma WhenIsConcat<T>(s: seq<T>, cond: bool, x: T)
    ensures When(s, cond, x) == s + (if cond then [x] else [])
  {
    if !cond {
      assert s + [] == s;
    }
  }

  /** A guarded assignment of a key not yet assigned keeps the keys distinct. */
  lemma WhenFresh(s: seq<Key>, cond: bool, x: Key)
    requires Distinct(s) && x !in s
    ensures Distinct(When(s, cond, x))
    ensures forall y :: y in When(s, cond, x) <==> y in s || (cond && y == x)
  {
    if cond {
      var r := s + [x];
      forall i, j | 0 <= i < j < |r| ensures r[i] != r[j] {
        if j == |s| {
          assert r[i] == s[i];
        }
      }
    }
  }

  /** The keys before the dividend table: Code, then the requested Price,
      EPS, BPS in that order, each once. */
  lemma ScalarOrder(req: Request)
    ensures ScalarKeys(req) ==
      [CodeKey] + (if req.price then [PriceKey] else []) + (if req.eps then [EpsKey] else [])
      + (if req.bps then [BpsKey] else [])
    ensures Distinct(ScalarKeys(req)) && DividendsKey !in ScalarKeys(req)
  {
    AssignedKeysFresh(req);
    var s1 := When([CodeKey], req.price, PriceKey);
    var s2 := When(s1, req.eps, EpsKey);
    WhenFresh([CodeKey], req.price, PriceKey);
    WhenFresh(s1, req.eps, EpsKey);
    WhenFresh(s2, req.bps, BpsKey);
    WhenIsConcat([CodeKey], req.price, PriceKey);
    WhenIsConcat(s1, req.eps, EpsKey);
    WhenIsConcat(s2, req.bps, BpsKey);
  }

  /** The record holds Code and then exactly the requested attributes, in
      the insertion order Code, Price, EPS, BPS, Dividends, each once. */
  lemma RecordKeys(p: Provider, code: string, req: Request)
    ensures RecordOf(p, code, req).order ==
      [CodeKey] + (if req.price then [PriceKey] else []) + (if req.eps then [EpsKey] else [])
      + (if req.bps then [BpsKey] else []) + (if req.div then [DividendsKey] else [])
    ensures forall k :: k in RecordOf(p, code, req).order <==>
      k == CodeKey || (k == PriceKey && req.price) || (k == EpsKey && req.eps)
      || (k == BpsKey && req.bps) || (k == DividendsKey && req.div)
    ensures Valid(RecordOf(p, code, req))
  {
    ScalarOrder(req);
    WhenFresh(ScalarKeys(req), req.div, DividendsKey);
    WhenIsConcat(ScalarKeys(req), req.div, DividendsKey);
  }

  /** Each key holds what its query returned: Code is always the input
      code, and a requested attribute holds its query's answer, None
      included; an attribute that was not requested is no key at all. */
  lemma RecordValues(p: Provider, code: string, req: Request)
    ensures Get(RecordOf(p, code, req), CodeKey) == Some(CodeField(code))
    ensures Get(RecordOf(p, code, req), PriceKey) ==
      if req.price then Some(Number(LatestClose(p, code))) else None
    ensures Get(RecordOf(p, code, req), EpsKey) ==
      if req.eps then Some(Number(EpsOf(p.info(YfTicker(code))))) else None
    ensures Get(RecordOf(p, code, req), BpsKey) ==
      if req.bps then Some(Number(BpsOf(p.info(YfTicker(code))))) else None
    ensures Get(RecordOf(p, code, req), DividendsKey) ==
      if req.div then Some(Frame(Dividends(p, code))) else None
  {
    RecordKeys(p, code, req);
    forall k ensures Get(RecordOf(p, code, req), k) ==
      if k in RequestedKeys(req) then Some(Answer(p, code, k)) else None
    {
    }
  }
}
