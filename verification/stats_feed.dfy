/** `stats_to_state` of src/stats.rs: push a fetched snapshot and forward the state iff it changed. */
module StatsFeed {
  import opened Wrappers
  import opened Errors
  import opened GameStats
  import opened AppState

  /** The sending half of the unbounded channel, as the sequence of values sent so far. */
  class Channel {
    var sent: seq<StateValue>
    /** False once the receiving half is dropped; `send` then fails. */
    var receiverAlive: bool

    constructor ()
      ensures sent == [] && receiverAlive
    {
      sent := [];
      receiverAlive := true;
    }

    method Send(v: StateValue) returns (r: Result<(), Error>)
      modifies this
      ensures receiverAlive == old(receiverAlive)
      ensures r.Ok? <==> receiverAlive
      ensures r.Err? ==> r.error == ChannelClosed
      ensures sent == if receiverAlive then old(sent) + [v] else old(sent)
    {
      if receiverAlive {
        sent := sent + [v];
        r := Ok(());
      } else {
        r := Err(ChannelClosed);
      }
    }
  }

  /**
   * One round of the stats task. `cached` and `flag` are the outcomes of the two requests
   * made by `fetch_stats`.
   */
  method StatsToState(appState: State, tx: Channel, cached: Result<Stats, Error>, flag: Result<StatsFlag, Error>)
    returns (r: Result<(), Error>)
    requires appState.Valid()
    requires FetchStats(cached, flag).Ok? ==> Cumulative(appState.stats, FetchStats(cached, flag).value)
    modifies appState, tx
    ensures appState.Valid()
    ensures tx.receiverAlive == old(tx.receiverAlive)
    // a failed fetch pushes nothing and sends nothing
    ensures FetchStats(cached, flag).Err? ==>
              && r == Err(FetchStats(cached, flag).error)
              && appState.stats == old(appState.stats) && appState.diff == old(appState.diff)
              && tx.sent == old(tx.sent)
    ensures FetchStats(cached, flag).Ok? ==>
              var s := FetchStats(cached, flag).value;
              var changed := IsChange(old(appState.stats), s);
              && appState.stats == (if changed then PushBack(old(appState.stats), s, appState.capacity) else old(appState.stats))
              && (!changed ==> appState.diff == old(appState.diff))
              // the state is sent exactly when the push changed it, and what is sent is the new state
              && tx.sent == (if changed && tx.receiverAlive then old(tx.sent) + [appState.Value()] else old(tx.sent))
              && (r.Err? <==> changed && !tx.receiverAlive)
  {
    var fetched := FetchStats(cached, flag);
    if fetched.Err? {
      return Err(fetched.error);
    }
    var changed := appState.PushStats(fetched.value);
    if changed {
      var snapshot := appState.Value();
      r := tx.Send(snapshot);
    } else {
      r := Ok(());
    }
  }
}
