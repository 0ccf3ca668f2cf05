/** Polling log filters: the event loop, one goroutine per filter, and polls, as interleaved
    atomic steps (rpc/api/filters/geth_filter_system.go, rpc/api/filters/filter_api.go). */
module Polling {
  import opened Words
  import opened LogFilter

  type ID = nat

  // One log filter, from its subscription on.
  datatype Sub = Sub(
    criteria: Criteria,
    installedAt: nat,           // number of events taken before it was installed
    running: bool,              // NewFilter has registered it and started its goroutine
    inHand: Option<seq<Log>>,   // received from the channel, not yet appended
    buffer: seq<Log>,           // filter.logs
    polled: seq<Log>)           // everything returned by GetFilterChanges so far

  datatype State = State(
    events: seq<seq<Log>>,      // log events the event loop has taken
    pending: set<ID>,           // filters the loop has still to serve the last event
    index: set<ID>,             // filters installed in the event loop
    api: set<ID>,               // keys of filterAPI.filters
    subs: map<ID, Sub>)         // every filter ever made

  datatype Action =
    | Subscribe(id: ID, criteria: Criteria)   // the loop takes an install request
    | Register(id: ID)                        // NewFilter adds the filter and starts the goroutine
    | TakeEvent(event: seq<Log>)              // the loop takes an event
    | Serve(id: ID)                           // the loop serves one filter
    | Append(id: ID)                          // the goroutine appends under the mutex
    | Poll(id: ID)                            // GetFilterChanges
    | Uninstall(id: ID)                       // UninstallFilter removes the filter under the mutex
    | Drain(id: ID)                           // Unsubscribe consumes a batch
    | Remove(id: ID)                          // the loop takes an uninstall request

  function Batch(s: State, id: ID): seq<Log>
    requires s.events != [] && id in s.subs
  {
    FilterLogs(s.subs[id].criteria, s.events[|s.events| - 1])
  }

  // When a step is possible: the loop takes requests and events only between two broadcasts,
  // ids are fresh, and a non-empty batch needs a goroutine that is ready to receive.
  predicate Enabled(s: State, a: Action) {
    match a
    case Subscribe(id, criteria) => s.pending == {} && id !in s.subs
    case Register(id) => id in s.index && id in s.subs && !s.subs[id].running
    case TakeEvent(event) => s.pending == {}
    case Serve(id) =>
      id in s.pending && id in s.subs && s.events != []
      && (Batch(s, id) == [] || (s.subs[id].running && s.subs[id].inHand.None?))
    case Append(id) => id in s.subs && s.subs[id].inHand.Some?
    case Poll(id) => id in s.subs
    case Uninstall(id) => id in s.api && id in s.subs
    case Drain(id) => id in s.pending && id in s.subs && id !in s.api && s.subs[id].running
    case Remove(id) => s.pending == {} && id !in s.api && id in s.subs && s.subs[id].running
  }

  function Next(s: State, a: Action): State
    requires Enabled(s, a)
  {
    match a
    case Subscribe(id, criteria) =>
      s.(index := s.index + {id}, subs := s.subs[id := Sub(criteria, |s.events|, false, None, [], [])])
    case Register(id) => s.(api := s.api + {id}, subs := s.subs[id := s.subs[id].(running := true)])
    case TakeEvent(event) => s.(events := s.events + [event], pending := if event == [] then {} else s.index)
    case Serve(id) =>
      var hand := if Batch(s, id) == [] then s.subs[id].inHand else Some(Batch(s, id));
      s.(pending := s.pending - {id}, subs := s.subs[id := s.subs[id].(inHand := hand)])
    case Append(id) =>
      var f := s.subs[id];
      var buffer := if id in s.api then f.buffer + f.inHand.value else f.buffer;
      s.(subs := s.subs[id := f.(inHand := None, buffer := buffer)])
    case Poll(id) =>
      var f := s.subs[id];
      if id in s.api then s.(subs := s.subs[id := f.(buffer := [], polled := f.polled + f.buffer)]) else s
    case Uninstall(id) => s.(api := s.api - {id})
    case Drain(id) => s.(pending := s.pending - {id})
    case Remove(id) => s.(index := s.index - {id})
  }

  function Start(): State {
    State([], {}, {}, {}, map[])
  }

  function Run(actions: seq<Action>): Option<State> {
    if actions == [] then Some(Start())
    else
      var s := Run(actions[..|actions| - 1]);
      if s.None? || !Enabled(s.value, actions[|actions| - 1]) then None
      else Some(Next(s.value, actions[|actions| - 1]))
  }

  // ----- What a filter has been served -----

  function InHand(f: Sub): seq<Log> {
    if f.inHand.None? then [] else f.inHand.value
  }

  // Polled, buffered, or in the goroutine's hand.
  function Collected(f: Sub): seq<Log> {
    f.polled + f.buffer + InHand(f)
  }

  // The events since installation, without the one that is still being broadcast to it.
  function Delivered(s: State, id: ID): seq<seq<Log>>
    requires id in s.subs && s.subs[id].installedAt <= |s.events|
    requires id in s.pending ==> s.subs[id].installedAt < |s.events|
  {
    s.events[s.subs[id].installedAt..if id in s.pending then |s.events| - 1 else |s.events|]
  }

  // A filter that nobody has uninstalled: registered, or about to be.
  predicate Live(s: State, id: ID) {
    id in s.subs && (s.subs[id].running ==> id in s.api)
  }

  ghost predicate FilterOk(s: State, id: ID)
    requires id in s.subs
  {
    && s.subs[id].installedAt <= |s.events|
    && (id in s.pending ==> s.subs[id].installedAt < |s.events|)
    && (id in s.api ==> s.subs[id].running)
    && (!s.subs[id].running ==> s.subs[id].inHand.None? && s.subs[id].buffer == s.subs[id].polled == [])
    && (Live(s, id) ==> id in s.index && Collected(s.subs[id]) == FilterLogs(s.subs[id].criteria, Flatten(Delivered(s, id))))
  }

  ghost predicate Inv(s: State) {
    && s.pending <= s.index <= s.subs.Keys
    && s.api <= s.subs.Keys
    && (s.pending != {} ==> s.events != [])
    && forall id {:trigger FilterOk(s, id)} :: id in s.subs ==> FilterOk(s, id)
  }

  lemma FlattenAppend(lists: seq<seq<Log>>, list: seq<Log>)
    ensures Flatten(lists + [list]) == Flatten(lists) + list
  {
    assert (lists + [list])[..|lists|] == lists;
  }

  // An event that is taken is not delivered yet where it has to be broadcast.
  lemma TakeEventOk(s: State, event: seq<Log>, id: ID)
    requires Inv(s) && s.pending == {} && id in s.subs
    ensures FilterOk(Next(s, TakeEvent(event)), id)
  {
    assert FilterOk(s, id);
    var s', f := Next(s, TakeEvent(event)), s.subs[id];
    if Live(s, id) {
      if event == [] {
        assert Delivered(s', id) == Delivered(s, id) + [event];
        FlattenAppend(Delivered(s, id), event);
        assert Flatten(Delivered(s, id)) + event == Flatten(Delivered(s, id));
      } else {
        assert Delivered(s', id) == Delivered(s, id);
      }
    }
  }

  lemma ServeOk(s: State, id: ID)
    requires Inv(s) && Enabled(s, Serve(id))
    ensures FilterOk(Next(s, Serve(id)), id)
  {
    assert FilterOk(s, id);
    var s', f, event := Next(s, Serve(id)), s.subs[id], s.events[|s.events| - 1];
    if Live(s, id) {
      var i, n := f.installedAt, |s.events|;
      assert s.events[i..n] == s.events[i..n - 1] + [event];
      OneMoreDelivered(f.criteria, s.events[i..n - 1], event);
      ServedCollected(f, Batch(s, id));
      assert Collected(s'.subs[id]) == Collected(f) + Batch(s, id);
    }
  }

  lemma OneMoreDelivered(c: Criteria, events: seq<seq<Log>>, event: seq<Log>)
    ensures FilterLogs(c, Flatten(events + [event])) == FilterLogs(c, Flatten(events)) + FilterLogs(c, event)
  {
    FlattenAppend(events, event);
    FilterLogsConcat(c, Flatten(events), event);
  }

  lemma ServedCollected(f: Sub, batch: seq<Log>)
    requires batch == [] || f.inHand.None?
    ensures Collected(f.(inHand := if batch == [] then f.inHand else Some(batch))) == Collected(f) + batch
  {
    assert f.polled + f.buffer + [] + batch == f.polled + f.buffer + batch;
  }

  lemma OwnStepOk(s: State, a: Action)
    requires Inv(s) && Enabled(s, a) && (a.Register? || a.Append? || a.Poll? || a.Uninstall? || a.Drain? || a.Remove?)
    ensures FilterOk(Next(s, a), a.id)
  {
    assert FilterOk(s, a.id);
    var s', f := Next(s, a), s.subs[a.id];
    if Live(s', a.id) {
      assert Delivered(s', a.id) == Delivered(s, a.id);
      assert Collected(s'.subs[a.id]) == Collected(f);
    }
  }

  lemma SubscribeOk(s: State, id: ID, criteria: Criteria)
    requires Inv(s) && Enabled(s, Subscribe(id, criteria))
    ensures FilterOk(Next(s, Subscribe(id, criteria)), id)
  {
    var s' := Next(s, Subscribe(id, criteria));
    assert Delivered(s', id) == [];
  }

  // Steps of one filter do not touch another.
  lemma OtherFilterOk(s: State, a: Action, id: ID)
    requires Inv(s) && Enabled(s, a) && !a.TakeEvent? && id != a.id && id in s.subs
    ensures FilterOk(Next(s, a), id)
  {
    assert FilterOk(s, id);
    var s' := Next(s, a);
    assert s'.subs[id] == s.subs[id] && s'.events == s.events;
    assert id in s'.pending <==> id in s.pending;
    assert Delivered(s', id) == Delivered(s, id);
  }

  lemma NextOk(s: State, a: Action)
    requires Inv(s) && Enabled(s, a)
    ensures Inv(Next(s, a))
  {
    var s' := Next(s, a);
    forall id | id in s'.subs ensures FilterOk(s', id) {
      if a.TakeEvent? {
        TakeEventOk(s, a.event, id);
      } else if id != a.id {
        OtherFilterOk(s, a, id);
      } else {
        match a
        case Subscribe(id, criteria) => SubscribeOk(s, id, criteria);
        case Serve(id) => ServeOk(s, id);
        case _ => OwnStepOk(s, a);
      }
    }
  }

  lemma {:induction false} RunOk(actions: seq<Action>)
    requires Run(actions).Some?
    ensures Inv(Run(actions).value)
  {
    if actions != [] {
      RunOk(actions[..|actions| - 1]);
      NextOk(Run(actions[..|actions| - 1]).value, actions[|actions| - 1]);
    }
  }

  /** Nothing is lost, nothing comes twice: on every interleaving, what a filter that nobody has
      uninstalled has returned to polls, holds in its buffer, and has received without appending
      it yet, is in this order the plain filter over all log events delivered to it since its
      installation. */
  lemma PollingLosesNothing(actions: seq<Action>, id: ID)
    requires Run(actions).Some? && Live(Run(actions).value, id)
    ensures LosesNothing(Run(actions).value, id)
  {
    RunOk(actions);
    var s := Run(actions).value;
    assert FilterOk(s, id);
    var f := s.subs[id];
    assert f.polled + f.buffer + [] == f.polled + f.buffer;
    assert s.events[f.installedAt..|s.events|] == s.events[f.installedAt..];
  }

  ghost predicate LosesNothing(s: State, id: ID)
    requires id in s.subs
  {
    var f := s.subs[id];
    && f.installedAt <= |s.events| && (id in s.pending ==> f.installedAt < |s.events|)
    && f.polled + f.buffer + InHand(f) == FilterLogs(f.criteria, Flatten(Delivered(s, id)))
    && (s.pending == {} && f.inHand.None? ==>
          f.polled + f.buffer == FilterLogs(f.criteria, Flatten(s.events[f.installedAt..])))
  }

  /** A poll leaves nothing behind: after it, all that was delivered is polled or still in the
      goroutine's hand. */
  lemma PollReturnsAll(actions: seq<Action>, id: ID)
    requires Run(actions + [Poll(id)]).Some? && id in Run(actions + [Poll(id)]).value.api
    ensures var s := Run(actions + [Poll(id)]).value;
      && LosesNothing(s, id) && s.subs[id].buffer == []
      && s.subs[id].polled + InHand(s.subs[id]) == FilterLogs(s.subs[id].criteria, Flatten(Delivered(s, id)))
  {
    var all := actions + [Poll(id)];
    assert all[..|actions|] == actions;
    RunOk(actions);
    var s := Run(all).value;
    PollingLosesNothing(all, id);
    assert s.subs[id].polled + [] + InHand(s.subs[id]) == s.subs[id].polled + InHand(s.subs[id]);
  }

  // Registered once, and uninstalled.
  ghost predicate Uninstalled(s: State, id: ID) {
    id in s.subs && s.subs[id].running && id !in s.api
  }

  lemma StaysSilent(s: State, a: Action, id: ID)
    requires Inv(s) && Enabled(s, a) && Uninstalled(s, id)
    ensures Uninstalled(Next(s, a), id)
    ensures Next(s, a).subs[id].buffer == s.subs[id].buffer && Next(s, a).subs[id].polled == s.subs[id].polled
  {
  }

  /** Once a filter is uninstalled, nothing is ever added to its buffer or returned for it. */
  lemma {:induction false} UninstalledStaysSilent(actions: seq<Action>, more: seq<Action>, id: ID)
    requires Run(actions + more).Some? && Run(actions).Some? && Uninstalled(Run(actions).value, id)
    ensures var s, s' := Run(actions).value, Run(actions + more).value;
      Uninstalled(s', id) && s'.subs[id].buffer == s.subs[id].buffer && s'.subs[id].polled == s.subs[id].polled
  {
    if more == [] {
      assert actions + more == actions;
    } else {
      var n := |more| - 1;
      assert (actions + more)[..|actions| + n] == actions + more[..n];
      UninstalledStaysSilent(actions, more[..n], id);
      RunOk(actions + more[..n]);
      StaysSilent(Run(actions + more[..n]).value, more[n], id);
    }
  }

  // ----- The mutex-guarded part of the API as it runs -----

  class FilterApi {
    var logs: map<ID, seq<Log>>   // the buffers of the registered filters

    // The object is what the state machine says it is.
    ghost predicate Agrees(s: State)
      reads this
    {
      logs.Keys == s.api <= s.subs.Keys && forall id :: id in s.api ==> logs[id] == s.subs[id].buffer
    }

    constructor ()
      ensures Agrees(Start())
    {
      logs := map[];
    }

    // What NewFilter does under the mutex.
    method NewFilter(id: ID, ghost s: State)
      requires Agrees(s) && Inv(s) && Enabled(s, Register(id))
      modifies this
      ensures Agrees(Next(s, Register(id)))
    {
      assert FilterOk(s, id);
      logs := logs[id := []];
    }

    // The goroutine's body for one received batch.
    method Receive(id: ID, batch: seq<Log>, ghost s: State)
      requires Agrees(s) && Enabled(s, Append(id)) && s.subs[id].inHand == Some(batch)
      modifies this
      ensures Agrees(Next(s, Append(id)))
    {
      if id in logs {
        logs := logs[id := logs[id] + batch];
      }
    }

    // None is the error for an id that is not registered.
    method GetFilterChanges(id: ID, ghost s: State) returns (result: Option<seq<Log>>)
      requires Agrees(s)
      modifies this
      ensures result.Some? <==> id in s.api
      ensures Agrees(if result.Some? then Next(s, Poll(id)) else s)
      ensures result.Some? ==> Enabled(s, Poll(id)) && Next(s, Poll(id)).subs[id].polled == s.subs[id].polled + result.value
    {
      if id !in logs {
        return None;
      }
      result := Some(logs[id]);
      logs := logs[id := []];
    }

    method UninstallFilter(id: ID, ghost s: State) returns (found: bool)
      requires Agrees(s)
      modifies this
      ensures found <==> id in s.api
      ensures Agrees(if found then Next(s, Uninstall(id)) else s)
    {
      found := id in logs;
      logs := logs - {id};
    }
  }
}
