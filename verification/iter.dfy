/**
 * The `iter().filter(..).max_by_key(..).map(|(id, _)| id)` chain the shell strategies run over
 * an `im::HashMap`. The map's iteration order is an input, since the hash decides it.
 */
module Iter {
  import opened Wrappers
  import opened Numeric

  /** `order` lists the keys of `m` as iteration visits them: nothing else and none missed. */
  predicate Enumerates(order: seq<string>, m: map<string, U64>) {
    && (forall i :: 0 <= i < |order| ==> order[i] in m)
    && (forall k :: k in m ==> k in order)
  }

  /** `k` is not excluded and no other such key of `m` has a larger value. */
  predicate IsTop(m: map<string, U64>, excluded: set<string>, k: string) {
    && k in m && k !in excluded
    && forall j :: j in m && j !in excluded ==> m[j] <= m[k]
  }

  /** `k` is the only key of highest value among the non-excluded keys of `m`. */
  predicate IsUniqueTop(m: map<string, U64>, excluded: set<string>, k: string) {
    && IsTop(m, excluded, k)
    && forall j :: j in m && j !in excluded && j != k ==> m[j] < m[k]
  }

  /**
   * The key of greatest value among those of `order` not in `excluded`; `Iterator::max_by_key`
   * returns the last of several equal maxima, so a later key replaces an equal earlier one.
   */
  function MaxByKey(order: seq<string>, m: map<string, U64>, excluded: set<string>): (r: Option<string>)
    requires forall i :: 0 <= i < |order| ==> order[i] in m
    ensures r.None? <==> forall i :: 0 <= i < |order| ==> order[i] in excluded
    ensures r.Some? ==> r.value in order && r.value in m && r.value !in excluded
    ensures r.Some? ==> forall i :: 0 <= i < |order| && order[i] !in excluded ==> m[order[i]] <= m[r.value]
    decreases |order|
  {
    if order == [] then None
    else
      var best := MaxByKey(order[..|order| - 1], m, excluded);
      var k := order[|order| - 1];
      if k in excluded then best
      else if best.None? || m[best.value] <= m[k] then Some(k)
      else best
  }

  /**
   * Over a full enumeration, the arg-max exists iff some key is eligible, it is a top key,
   * and a unique top key is returned whatever the iteration order.
   */
  lemma MaxByKeyOfMap(order: seq<string>, m: map<string, U64>, excluded: set<string>)
    requires Enumerates(order, m)
    ensures MaxByKey(order, m, excluded).None? <==> m.Keys <= excluded
    ensures MaxByKey(order, m, excluded).Some? ==> IsTop(m, excluded, MaxByKey(order, m, excluded).value)
    ensures forall k :: IsUniqueTop(m, excluded, k) ==> MaxByKey(order, m, excluded) == Some(k)
  {
    var r := MaxByKey(order, m, excluded);
    if r.None? {
      forall k | k in m ensures k in excluded {
        var i :| 0 <= i < |order| && order[i] == k;
      }
    } else {
      forall j | j in m && j !in excluded ensures m[j] <= m[r.value] {
        var i :| 0 <= i < |order| && order[i] == j;
      }
    }
  }


  /** Ties go to the later key: an eligible key visited last that ties the best is returned. */
  lemma MaxByKeyLastWins(order: seq<string>, m: map<string, U64>, excluded: set<string>)
    requires forall i :: 0 <= i < |order| ==> order[i] in m
    requires order != [] && order[|order| - 1] !in excluded
    requires forall i :: 0 <= i < |order| && order[i] !in excluded ==> m[order[i]] <= m[order[|order| - 1]]
    ensures MaxByKey(order, m, excluded) == Some(order[|order| - 1])
  {
    var best := MaxByKey(order[..|order| - 1], m, excluded);
    if best.Some? {
      var i :| 0 <= i < |order| - 1 && order[..|order| - 1][i] == best.value;
      assert order[i] == best.value;
    }
  }

  /**
   * The general tie rule: an eligible maximal key is returned when every eligible key visited
   * after it is strictly smaller, whatever excluded or smaller keys follow it.
   */
  lemma {:induction false} MaxByKeyLastMaxWins(order: seq<string>, m: map<string, U64>, excluded: set<string>, i: nat)
    requires forall j :: 0 <= j < |order| ==> order[j] in m
    requires i < |order| && order[i] !in excluded
    requires forall j :: 0 <= j < |order| && order[j] !in excluded ==> m[order[j]] <= m[order[i]]
    requires forall j :: i < j < |order| && order[j] !in excluded ==> m[order[j]] < m[order[i]]
    ensures MaxByKey(order, m, excluded) == Some(order[i])
    decreases |order|
  {
    if i == |order| - 1 {
      MaxByKeyLastWins(order, m, excluded);
    } else {
      var prefix := order[..|order| - 1];
      assert forall j :: 0 <= j < |prefix| ==> prefix[j] == order[j];
      MaxByKeyLastMaxWins(prefix, m, excluded, i);
    }
  }
}
