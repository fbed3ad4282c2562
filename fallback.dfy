/**
  Ordered fallback-key resolution over a descriptive-field map: the search
  that the EPS and BPS queries of getStockInfo.py both perform, stated once.
  The provider's field map is partial (a key may be missing) and a present
  key may still hold `None`; both count as "no value".
 */
module Fallback {
  import opened Wrappers

  /** `info.get(k)`: the stored value, or None when the key is missing. */
  function Lookup<V>(info: map<string, Option<V>>, k: string): Option<V>
  {
    if k in info then info[k] else None
  }

  /** The value of the first key of `keys` whose lookup is not None. */
  function FirstPresent<V>(info: map<string, Option<V>>, keys: seq<string>): (r: Option<V>)
    ensures r.Some? <==> exists i :: 0 <= i < |keys| && Lookup(info, keys[i]).Some?
    ensures r.Some? ==> exists i :: 0 <= i < |keys| && Lookup(info, keys[i]) == r
    decreases |keys|
  {
    if |keys| == 0 then None
    else if Lookup(info, keys[0]).Some? then Lookup(info, keys[0])
    else
      var r := FirstPresent(info, keys[1..]);
      assert forall i :: 1 <= i < |keys| ==> keys[i] == keys[1..][i - 1];
      r
  }

  /** The key that wins is the earliest one with a value: every key before
      it is skipped, and no key after it is consulted. */
  lemma {:induction false} FirstPresentIsEarliest<V>(info: map<string, Option<V>>, keys: seq<string>, i: nat)
    requires i < |keys|
    requires Lookup(info, keys[i]).Some?
    requires forall j :: 0 <= j < i ==> Lookup(info, keys[j]).None?
    ensures FirstPresent(info, keys) == Lookup(info, keys[i])
  {
    if i > 0 {
      assert Lookup(info, keys[0]).None?;
      forall j | 0 <= j < i - 1
        ensures Lookup(info, keys[1..][j]).None?
      {
        assert keys[1..][j] == keys[j + 1];
      }
      FirstPresentIsEarliest(info, keys[1..], i - 1);
    }
  }

  /** The key loop of `_eps` and `_bps`: probe the keys in order and return at the
      first value that is not None; None once every key was probed. */
  method FindFirstPresent<V>(info: map<string, Option<V>>, keys: seq<string>) returns (r: Option<V>)
    ensures r == FirstPresent(info, keys)
  {
    for i := 0 to |keys|
      invariant FirstPresent(info, keys[i..]) == FirstPresent(info, keys)
    {
      var v := Lookup(info, keys[i]);
      assert keys[i..][0] == keys[i] && keys[i..][1..] == keys[i + 1..];
      if v.Some? {
        return v;
      }
    }
    assert keys[|keys|..] == [];
    return None;
  }
}
