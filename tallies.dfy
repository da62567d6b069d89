/**
  Counting dictionaries, the `obj[key] = (obj[key] || 0) + n` idiom the
  dashboard uses for every aggregate it builds in memory.
*/
module Tallies {

  /**
    Adds `amount` to the entry for `key`, creating it at 0 first. The source's
    `if (!m[k]) m[k] = 0; m[k] += c` resets a falsy entry (absent or 0) to 0,
    which for an entry that is already 0 changes nothing.
  */
  function AddTo(m: map<string, int>, key: string, amount: int): (r: map<string, int>)
    ensures r.Keys == m.Keys + {key}
    ensures r[key] == (if key in m then m[key] else 0) + amount
    ensures forall k | k in m && k != key :: r[k] == m[k]
  {
    m[key := (if key in m then m[key] else 0) + amount]
  }

  /** `if (!m[key]) m[key] = 0; m[key] += amount;` as a statement sequence. */
  method Accumulate(m: map<string, int>, key: string, amount: int) returns (r: map<string, int>)
    ensures r == AddTo(m, key, amount)
  {
    r := m;
    if key !in r || r[key] == 0 {
      r := r[key := 0];
    }
    r := r[key := r[key] + amount];
  }

  /** The sum of all values of `m`. */
  ghost function SumMap(m: map<string, int>): int
    decreases |m|
  {
    if |m| == 0 then 0
    else
      var k := PickKey(m);
      m[k] + SumMap(m - {k})
  }

  /** Some key of the non-empty map `m`. */
  ghost function PickKey(m: map<string, int>): (k: string)
    requires |m| != 0
    ensures k in m
  {
    assert m.Keys != {} by {
      assert |m.Keys| == |m|;
    }
    var k :| k in m.Keys;
    k
  }

  /** Any entry can be taken out of the sum first. */
  lemma {:induction false} SumMapRemove(m: map<string, int>, key: string)
    requires key in m
    ensures SumMap(m) == m[key] + SumMap(m - {key})
    decreases |m|
  {
    var k := PickKey(m);
    if k != key {
      var mk, mkey := m - {k}, m - {key};
      assert mk - {key} == mkey - {k};
      SumMapRemove(mk, key);
      SumMapRemove(mkey, k);
    }
  }

  /** Adding `amount` to one entry adds `amount` to the sum. */
  lemma SumMapAddTo(m: map<string, int>, key: string, amount: int)
    ensures SumMap(AddTo(m, key, amount)) == SumMap(m) + amount
  {
    var r := AddTo(m, key, amount);
    SumMapRemove(r, key);
    if key in m {
      assert r - {key} == m - {key};
      SumMapRemove(m, key);
    } else {
      assert r - {key} == m;
    }
  }
}
