/** `State<N>` of src/main.rs: the rolling window of snapshots and the diff across it. */
module AppState {
  import opened Numeric
  import opened Utils
  import opened GameStats

  /** `COOLDOWN_TIME`, ten minutes, in milliseconds. */
  const COOLDOWN_MS: nat := 600_000

  /** A copy of the state, as `app_state.clone()` sends it over the channel. */
  datatype StateValue = StateValue(stats: seq<Stats>, diff: map<string, U64>)

  /** Scores are cumulative: `s` dominates every snapshot already in the window. */
  predicate Cumulative(window: seq<Stats>, s: Stats) {
    forall i :: 0 <= i < |window| ==> Dominates(s.userTimes, window[i].userTimes)
  }

  /** `push_stats`'s change test: the window is empty or its newest scores differ from `s`'s. */
  predicate IsChange(window: seq<Stats>, s: Stats) {
    window == [] || window[|window| - 1].userTimes != s.userTimes
  }

  /** No two neighbouring snapshots in a window have the same scores. */
  predicate NoRepeats(window: seq<Stats>) {
    forall i :: 0 < i < |window| ==> window[i - 1].userTimes != window[i].userTimes
  }

  /** `CircularBuffer::push_back`: append `s`, evicting the oldest element when full. */
  function PushBack(window: seq<Stats>, s: Stats, capacity: nat): (r: seq<Stats>)
    requires 1 <= capacity && |window| <= capacity
    ensures |r| == if |window| < capacity then |window| + 1 else capacity
    ensures r == (window + [s])[|window| + 1 - |r|..]
  {
    if |window| < capacity then window + [s] else window[1..] + [s]
  }

  /** The basis of the diff: the oldest snapshot, or an empty map when the window holds one. */
  function Basis(window: seq<Stats>): map<string, U64>
    requires window != []
  {
    if |window| == 1 then map[] else window[0].userTimes
  }

  /** The diff that `push_stats` stores: newest minus basis. */
  function WindowDiff(window: seq<Stats>): (d: map<string, U64>)
    requires window != [] ==> Dominates(window[|window| - 1].userTimes, Basis(window))
    ensures forall k :: k in d ==> d[k] > 0
    ensures window != [] ==> d.Keys <= window[|window| - 1].userTimes.Keys
  {
    if window == [] then map[] else Subtract(window[|window| - 1].userTimes, Basis(window))
  }

  class State {
    const capacity: nat
    /** The ring buffer, oldest first. */
    var stats: seq<Stats>
    var diff: map<string, U64>

    ghost predicate Valid()
      reads this
    {
      && 1 <= capacity
      && |stats| <= capacity
      && NoRepeats(stats)
      && (stats != [] ==> Dominates(stats[|stats| - 1].userTimes, Basis(stats)))
      && diff == WindowDiff(stats)
    }

    /** `State::<N>::default()`; a capacity of zero panics on the first push, so it is excluded. */
    constructor (capacity: nat)
      requires 1 <= capacity
      ensures Valid()
      ensures this.capacity == capacity && stats == [] && diff == map[]
    {
      this.capacity := capacity;
      stats := [];
      diff := map[];
    }

    function Value(): (v: StateValue)
      reads this
      ensures v.stats == stats && v.diff == diff
    {
      StateValue(stats, diff)
    }

    /** `push_stats`: push only a snapshot whose scores changed, then recompute the diff. */
    method PushStats(s: Stats) returns (changed: bool)
      requires Valid()
      requires Cumulative(stats, s)
      modifies this
      ensures Valid()
      ensures changed == IsChange(old(stats), s)
      ensures stats == if changed then PushBack(old(stats), s, capacity) else old(stats)
      ensures !changed ==> diff == old(diff)
    {
      changed := if |stats| > 0 then stats[|stats| - 1].userTimes != s.userTimes else true;
      if changed {
        PushKeepsInvariant(stats, s, capacity);
        stats := PushBack(stats, s, capacity);
        if |stats| == 1 {
          SubtractEmpty(stats[0].userTimes);
          diff := SubtractHashmaps(stats[0].userTimes, map[]);
        } else {
          diff := SubtractHashmaps(stats[|stats| - 1].userTimes, stats[0].userTimes);
        }
      }
    }
  }

  /** A change pushed into a repeat-free window of cumulative scores keeps both properties. */
  lemma PushKeepsInvariant(window: seq<Stats>, s: Stats, capacity: nat)
    requires 1 <= capacity && |window| <= capacity
    requires NoRepeats(window) && IsChange(window, s) && Cumulative(window, s)
    ensures var w := PushBack(window, s, capacity);
      && NoRepeats(w)
      && w[|w| - 1] == s
      && Dominates(s.userTimes, Basis(w))
  {
    var w := PushBack(window, s, capacity);
    var kept := if |window| < capacity then window else window[1..];
    assert w == kept + [s];
    assert NoRepeats(kept);
    forall i | 0 < i < |w|
      ensures w[i - 1].userTimes != w[i].userTimes
    {
      if i < |kept| {
        assert w[i - 1] == kept[i - 1] && w[i] == kept[i];
      } else {
        assert w[i - 1] == window[|window| - 1];
      }
    }
    if |w| >= 2 {
      assert w[0] in window;
    }
  }

  /** The first snapshot's diff is its own positive scores, as if subtracted from an empty map. */
  lemma FirstPushDiff(s: Stats)
    ensures WindowDiff([s]) == Positive(s.userTimes)
  {
    SubtractEmpty(s.userTimes);
  }

  /** Pushing the same scores twice: the second push is not a change (flag or names may differ). */
  lemma RepeatPushIgnored(window: seq<Stats>, s: Stats, t: Stats, capacity: nat)
    requires 1 <= capacity && |window| <= capacity
    requires t.userTimes == s.userTimes
    ensures !IsChange(PushBack(window, s, capacity), t)
  {
    var w := PushBack(window, s, capacity);
    assert w[|w| - 1] == (window + [s])[|window|];
  }

  /** Past the first push, the diff is the newest scores minus the oldest retained ones. */
  lemma DiffSpansWindow(window: seq<Stats>)
    requires |window| >= 2
    requires Dominates(window[|window| - 1].userTimes, window[0].userTimes)
    ensures WindowDiff(window) == Subtract(window[|window| - 1].userTimes, window[0].userTimes)
  {
  }
}
