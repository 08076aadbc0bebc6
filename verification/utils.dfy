/** `subtract_hashmaps` from src/utils.rs: the per-key difference of two score maps. */
module Utils {
  import opened Numeric

  /**
   * Every key held by both maps has a value in `newer` at least as large as in `older`.
   * The source subtracts with `u64 -=`, which underflows otherwise; scores in the game
   * are cumulative, so a newer snapshot always dominates an older one.
   */
  predicate Dominates<K>(newer: map<K, U64>, older: map<K, U64>) {
    forall k :: k in newer && k in older ==> older[k] <= newer[k]
  }

  /** The value that `k` has after the subtraction loop and before the filter. */
  function Delta<K>(newer: map<K, U64>, older: map<K, U64>, k: K): int
    requires k in newer
  {
    if k in older then newer[k] as int - older[k] as int else newer[k]
  }

  /** Keep only the strictly positive values of a map. */
  function Positive<K>(m: map<K, U64>): (r: map<K, U64>)
    ensures r.Keys <= m.Keys
    ensures forall k :: k in r ==> r[k] > 0 && r[k] == m[k]
    ensures forall k :: k in m && m[k] > 0 ==> k in r
  {
    map k | k in m && m[k] > 0 :: m[k]
  }

  /** The specification of `subtract_hashmaps(newer, older)`. */
  function Subtract<K>(newer: map<K, U64>, older: map<K, U64>): (r: map<K, U64>)
    requires Dominates(newer, older)
    ensures forall k :: k in r ==> r[k] > 0
    ensures r.Keys <= newer.Keys
  {
    map k | k in newer && Delta(newer, older, k) > 0 :: Delta(newer, older, k)
  }

  /**
   * The source: clone `newer`, subtract the value of every key of `older` that the clone
   * holds (a key only in `older` is skipped with a warning), then retain the positive values.
   */
  method SubtractHashmaps<K>(newer: map<K, U64>, older: map<K, U64>) returns (result: map<K, U64>)
    requires Dominates(newer, older)
    ensures result == Subtract(newer, older)
  {
    result := newer;
    var pending := older.Keys;
    while pending != {}
      invariant pending <= older.Keys
      invariant result.Keys == newer.Keys
      invariant forall k :: k in result ==>
                  result[k] == if k in older && k !in pending then newer[k] - older[k] else newer[k]
      decreases pending
    {
      var key :| key in pending;
      if key in result {
        result := result[key := result[key] - older[key]];
      }
      pending := pending - {key};
    }
    result := map k | k in result && result[k] > 0 :: result[k];
  }

  /** A key in both maps holds the difference exactly when that difference is positive. */
  lemma SubtractShared<K>(newer: map<K, U64>, older: map<K, U64>, k: K)
    requires Dominates(newer, older)
    requires k in newer && k in older
    ensures k in Subtract(newer, older) <==> older[k] < newer[k]
    ensures k in Subtract(newer, older) ==> Subtract(newer, older)[k] == newer[k] - older[k]
  {
  }

  /** A key only in `newer` passes through unchanged when positive. */
  lemma SubtractFresh<K>(newer: map<K, U64>, older: map<K, U64>, k: K)
    requires Dominates(newer, older)
    requires k in newer && k !in older
    ensures k in Subtract(newer, older) <==> newer[k] > 0
    ensures k in Subtract(newer, older) ==> Subtract(newer, older)[k] == newer[k]
  {
  }

  /** A key only in `older` is never inserted. */
  lemma SubtractStale<K>(newer: map<K, U64>, older: map<K, U64>, k: K)
    requires Dominates(newer, older)
    requires k !in newer
    ensures k !in Subtract(newer, older)
  {
  }

  /** Subtracting a map from itself leaves nothing. */
  lemma SubtractSelf<K>(x: map<K, U64>)
    ensures Dominates(x, x)
    ensures Subtract(x, x) == map[]
  {
    assert forall k :: k in x ==> Delta(x, x, k) == 0;
  }

  /** Subtracting the empty map keeps the positive values. */
  lemma SubtractEmpty<K>(x: map<K, U64>)
    ensures Dominates(x, map[])
    ensures Subtract(x, map[]) == Positive(x)
  {
  }
}
