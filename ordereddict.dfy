/**
  A Python dict as getStockInfo.py uses it: a mapping from keys to values that
  also remembers the order in which its keys were first inserted.
  Assigning to a new key appends it to that order; assigning to an
  existing key replaces its value and keeps its position.
 */
module OrderedDict {
  import opened Wrappers

  /** `order` lists the keys in insertion order; `values` holds the mapping. */
  datatype Dict<K, T> = Dict(order: seq<K>, values: map<K, T>)

  /** The invariant of a dict: every key occurs once in the order, and the
      order lists exactly the keys of the mapping. */
  ghost predicate Valid<K(!new), T>(d: Dict<K, T>)
  {
    && Distinct(d.order)
    && (forall k :: k in d.order <==> k in d.values)
  }

  /** No element occurs twice. */
  ghost predicate Distinct<K>(s: seq<K>)
  {
    forall i, j :: 0 <= i < j < |s| ==> s[i] != s[j]
  }

  /** `d.get(k)`: the value stored under `k`, None when `k` is not a key. */
  function Get<K, T>(d: Dict<K, T>, k: K): Option<T>
  {
    if k in d.values then Some(d.values[k]) else None
  }

  /** `d[k] = v`. */
  function Put<K(==), T>(d: Dict<K, T>, k: K, v: T): Dict<K, T>
  {
    Dict(if k in d.order then d.order else d.order + [k], d.values[k := v])
  }

  /** After `d[k] = v`, `k` maps to `v` and every other key keeps its value;
      a new key goes to the end of the order, an existing one keeps its
      place, and the dict stays valid. */
  lemma PutSemantics<K(!new), T>(d: Dict<K, T>, k: K, v: T)
    requires Valid(d)
    ensures Valid(Put(d, k, v))
    ensures Get(Put(d, k, v), k) == Some(v)
    ensures forall k' :: k' != k ==> Get(Put(d, k, v), k') == Get(d, k')
    ensures k in d.order ==> Put(d, k, v).order == d.order
    ensures k !in d.order ==> Put(d, k, v).order == d.order + [k]
  {
    var r := Put(d, k, v);
    if k !in d.order {
      forall i, j | 0 <= i < j < |r.order| ensures r.order[i] != r.order[j] {
        if j == |d.order| {
          assert r.order[i] == d.order[i];
        }
      }
    }
  }

  /** The order with every occurrence of `x` taken out. */
  function Remove<K(==, !new)>(s: seq<K>, x: K): (r: seq<K>)
    ensures forall y :: y in r <==> y in s && y != x
    ensures Distinct(s) ==> Distinct(r)
    ensures x !in s ==> r == s
    decreases |s|
  {
    if |s| == 0 then []
    else
      var rest := Remove(s[1..], x);
      assert forall y :: y in s[1..] ==> y in s;
      assert Distinct(s) ==> Distinct(s[1..]) && s[0] !in s[1..] by {
        if Distinct(s) {
          forall i, j | 0 <= i < j < |s[1..]| ensures s[1..][i] != s[1..][j] {
            assert s[1..][i] == s[i + 1] && s[1..][j] == s[j + 1];
          }
        }
      }
      if s[0] == x then rest
      else
        assert s == [s[0]] + s[1..];
        [s[0]] + rest
  }

  /** `{key: value for key, value in d.items() if key != k}`. */
  function Without<K(==, !new), T>(d: Dict<K, T>, k: K): (r: Dict<K, T>)
    ensures Valid(d) ==> Valid(r)
    ensures Get(r, k).None?
    ensures forall k' :: k' != k ==> Get(r, k') == Get(d, k')
    ensures forall k' :: k' in r.order <==> k' in d.order && k' != k
    ensures k !in d.order ==> r.order == d.order
  {
    Dict(Remove(d.order, k), d.values - {k})
  }

  /** Taking out a key that was appended last gives back the order before it. */
  lemma {:induction false} RemoveLast<K(!new)>(s: seq<K>, x: K)
    requires x !in s
    ensures Remove(s + [x], x) == s
    decreases |s|
  {
    if |s| == 0 {
      assert (s + [x])[1..] == [];
    } else {
      assert (s + [x])[1..] == s[1..] + [x];
      RemoveLast(s[1..], x);
      assert [s[0]] + s[1..] == s;
    }
  }
}
