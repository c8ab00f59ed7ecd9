/** The reactor: a table of callback lists indexed by event id, a FIFO
    queue of immediate events and a priority queue of delayed events, and
    the `update` step that hands queued events to their callbacks. Events
    are identified by a handle (the pointer `create_event` returns); a
    callback's behaviour is a parameter. */
module Reactor {
  import opened Values

  /** A subscribed callback, by identity. */
  type Callback = nat

  /** An immediate event: its id and its handle. */
  datatype Tagged = Tagged(id: nat, event: nat)

  /** A delayed event: the time it is due, its id and its handle. */
  datatype Timed = Timed(timeout: int, id: nat, event: nat)

  /** What a call to a callback does: it returns `finished` or throws a
      `runtime_error`. */
  datatype CallResult = Returned(finished: bool) | Threw

  /** A call's result together with the ids of the immediate events the
      callback notifies while it runs. */
  datatype Reaction = Reaction(result: CallResult, notified: seq<nat>)

  /** How every callback reacts to every event. */
  type Behaviour = (Callback, Tagged) -> Reaction

  /** One entry of the callback table (`callback_list`): the callbacks in
      subscription order and the destructor, named by the event type it
      was registered for. */
  datatype Slot = Slot(callbacks: seq<Callback>, destructor: Option<nat>)

  /** A callback stays subscribed only when it returns `false`; one that
      returns `true` or throws is removed. */
  predicate Keeps(r: Reaction)
  {
    r.result == Returned(false)
  }

  /** The callbacks of `cbs` that stay after `e` has been handed to all
      of them, in their order. */
  function Survivors(cbs: seq<Callback>, e: Tagged, run: Behaviour): seq<Callback>
  {
    if cbs == [] then []
    else
      var last := cbs[|cbs| - 1];
      Survivors(cbs[..|cbs| - 1], e, run) + (if Keeps(run(last, e)) then [last] else [])
  }

  /** The ids the callbacks of `cbs` notify while handling `e`, in order. */
  function Raised(cbs: seq<Callback>, e: Tagged, run: Behaviour): seq<nat>
  {
    if cbs == [] then []
    else Raised(cbs[..|cbs| - 1], e, run) + run(cbs[|cbs| - 1], e).notified
  }

  /** The calls made while handing `e` to `cbs`: each callback once, in
      list order. */
  function Calls(cbs: seq<Callback>, e: Tagged): (r: seq<(Callback, Tagged)>)
    ensures |r| == |cbs| && forall k | 0 <= k < |r| :: r[k] == (cbs[k], e)
  {
    seq(|cbs|, k requires 0 <= k < |cbs| => (cbs[k], e))
  }

  /** The events created for the ids `ids`, with handles from `next` on. */
  function Spawn(ids: seq<nat>, next: nat): (r: seq<Tagged>)
    ensures |r| == |ids| && forall k | 0 <= k < |r| :: r[k] == Tagged(ids[k], next + k)
  {
    seq(|ids|, k requires 0 <= k < |ids| => Tagged(ids[k], next + k))
  }

  function Handles(q: seq<Tagged>): (r: seq<nat>)
    ensures |r| == |q| && forall k | 0 <= k < |r| :: r[k] == q[k].event
  {
    seq(|q|, k requires 0 <= k < |q| => q[k].event)
  }

  /** A released delayed event as `consume` receives it. */
  function Untimed(q: seq<Timed>): (r: seq<Tagged>)
    ensures |r| == |q| && forall k | 0 <= k < |q| :: r[k] == Tagged(q[k].id, q[k].event)
  {
    seq(|q|, k requires 0 <= k < |q| => Tagged(q[k].id, q[k].event))
  }

  /** A callback stays exactly when it was subscribed and returned
      `false`. */
  lemma {:induction false} SurvivorsMembership(cbs: seq<Callback>, e: Tagged, run: Behaviour, c: Callback)
    ensures c in Survivors(cbs, e, run) <==> c in cbs && Keeps(run(c, e))
  {
    if cbs != [] {
      var init := cbs[..|cbs| - 1];
      SurvivorsMembership(init, e, run, c);
      assert cbs == init + [cbs[|cbs| - 1]];
    }
  }

  /** The callbacks that stay keep their relative order: they form a
      subsequence of the list. */
  lemma {:induction false} SurvivorsAreSubsequence(cbs: seq<Callback>, e: Tagged, run: Behaviour)
    ensures |Survivors(cbs, e, run)| <= |cbs|
    ensures Survivors(cbs, e, run) == cbs <==> forall k | 0 <= k < |cbs| :: Keeps(run(cbs[k], e))
  {
    if cbs != [] {
      var init := cbs[..|cbs| - 1];
      SurvivorsAreSubsequence(init, e, run);
      if Survivors(cbs, e, run) == cbs {
        if !Keeps(run(cbs[|cbs| - 1], e)) {
          assert false;
        }
        assert Survivors(cbs, e, run)[..|cbs| - 1] == Survivors(init, e, run);
        forall k | 0 <= k < |cbs|
          ensures Keeps(run(cbs[k], e))
        {
          if k < |cbs| - 1 {
            assert cbs[k] == init[k];
          }
        }
      }
    }
  }

  /** Handing the same event to the callbacks that stayed keeps them all. */
  lemma {:induction false} SurvivorsIdempotent(cbs: seq<Callback>, e: Tagged, run: Behaviour)
    ensures Survivors(Survivors(cbs, e, run), e, run) == Survivors(cbs, e, run)
  {
    var s := Survivors(cbs, e, run);
    forall k | 0 <= k < |s|
      ensures Keeps(run(s[k], e))
    {
      SurvivorsMembership(cbs, e, run, s[k]);
    }
    SurvivorsAreSubsequence(s, e, run);
  }

  /** `callbacks_.size() >= id + 1 && callbacks_[id].destructor != nullptr`. */
  predicate Registered(slots: seq<Slot>, id: nat)
  {
    id < |slots| && slots[id].destructor.Some?
  }

  /** `register_event`: grow the table to `id + 1` entries, then set the
      destructor unless one is already set. */
  function Register(slots: seq<Slot>, id: nat, kind: nat): seq<Slot>
  {
    var grown := if |slots| < id + 1 then slots + seq(id + 1 - |slots|, _ => Slot([], None)) else slots;
    if grown[id].destructor == None then grown[id := grown[id].(destructor := Some(kind))] else grown
  }

  /** After registration the id is registered, the table has at least
      `id + 1` entries, a destructor already set is kept, and every other
      entry's callbacks and registration are as before. */
  lemma RegisterEffect(slots: seq<Slot>, id: nat, kind: nat)
    ensures var r := Register(slots, id, kind);
      Registered(r, id)
      && |r| == (if |slots| < id + 1 then id + 1 else |slots|)
      && (Registered(slots, id) ==> r == slots)
      && (!Registered(slots, id) ==> r[id].destructor == Some(kind))
      && (forall j | 0 <= j < |r| && j != id ::
            Registered(r, j) <==> Registered(slots, j))
      && (forall j | 0 <= j < |slots| :: r[j].callbacks == slots[j].callbacks)
  {
    var r := Register(slots, id, kind);
    if |slots| < id + 1 {
      var grown := slots + seq(id + 1 - |slots|, _ => Slot([], None));
      assert forall j | |slots| <= j < |grown| :: grown[j] == Slot([], None);
      assert forall j | 0 <= j < |slots| :: grown[j] == slots[j];
    }
  }

  /** Registering an id twice, for any types, is registering it once. */
  lemma RegisterIdempotent(slots: seq<Slot>, id: nat, kind: nat, kind': nat)
    ensures Register(Register(slots, id, kind), id, kind') == Register(slots, id, kind)
  {
    RegisterEffect(slots, id, kind);
  }

  /** Every id in `q` is registered. */
  predicate AllRegistered(slots: seq<Slot>, ids: seq<nat>)
  {
    forall k | 0 <= k < |ids| :: Registered(slots, ids[k])
  }

  /** The two tables register the same ids with the same destructors. */
  predicate SameRegistration(s: seq<Slot>, s': seq<Slot>)
  {
    |s| == |s'| && forall j | 0 <= j < |s| :: s[j].destructor == s'[j].destructor
  }

  /** Callbacks only notify registered events (`notify` asserts it). */
  ghost predicate Closed(run: Behaviour, slots: seq<Slot>)
  {
    forall c: Callback, e: Tagged :: AllRegistered(slots, run(c, e).notified)
  }

  /** Handing the event to one more callback of the list. */
  lemma ConsumeStep(cbs: seq<Callback>, j: nat, e: Tagged, run: Behaviour)
    requires j < |cbs|
    ensures Survivors(cbs[..j + 1], e, run)
      == Survivors(cbs[..j], e, run) + (if Keeps(run(cbs[j], e)) then [cbs[j]] else [])
    ensures Raised(cbs[..j + 1], e, run) == Raised(cbs[..j], e, run) + run(cbs[j], e).notified
    ensures Calls(cbs[..j + 1], e) == Calls(cbs[..j], e) + [(cbs[j], e)]
  {
    assert cbs[..j + 1][..j] == cbs[..j];
  }

  lemma ClosedStable(run: Behaviour, s: seq<Slot>, s': seq<Slot>)
    requires Closed(run, s) && SameRegistration(s, s')
    ensures Closed(run, s')
  {
    forall c: Callback, e: Tagged
      ensures AllRegistered(s', run(c, e).notified)
    {
      assert AllRegistered(s, run(c, e).notified);
    }
  }

  lemma {:induction false} RaisedRegistered(cbs: seq<Callback>, e: Tagged, run: Behaviour, slots: seq<Slot>)
    requires Closed(run, slots)
    ensures AllRegistered(slots, Raised(cbs, e, run))
  {
    if cbs != [] {
      RaisedRegistered(cbs[..|cbs| - 1], e, run, slots);
      assert AllRegistered(slots, run(cbs[|cbs| - 1], e).notified);
    }
  }

  /** The delayed queue in the order it releases events: earliest first,
      and in notification order among equal timeouts. */
  predicate Ascending(q: seq<Timed>)
  {
    forall i, j | 0 <= i < j < |q| :: q[i].timeout <= q[j].timeout
  }

  /** The delayed queue in the order the source's comparer releases it:
      latest first. */
  predicate Descending(q: seq<Timed>)
  {
    forall i, j | 0 <= i < j < |q| :: q[i].timeout >= q[j].timeout
  }

  /** Every timeout in the queue after the push is at least the bound when
      every pushed and queued timeout is. */
  lemma {:induction false} PushEarliestFirstBounded(q: seq<Timed>, t: Timed, b: int)
    requires (forall j | 0 <= j < |q| :: b <= q[j].timeout) && b <= t.timeout
    ensures forall j | 0 <= j < |q| + 1 :: b <= PushEarliestFirst(q, t)[j].timeout
  {
    if !(q == [] || t.timeout < q[0].timeout) {
      PushEarliestFirstBounded(q[1..], t, b);
    }
  }

  /** `delayed_events_.push` with the comparer `lhs.timeout > rhs.timeout`,
      under which `top()` is the earliest timeout. */
  function PushEarliestFirst(q: seq<Timed>, t: Timed): (r: seq<Timed>)
    ensures |r| == |q| + 1
  {
    if q == [] || t.timeout < q[0].timeout then [t] + q
    else [q[0]] + PushEarliestFirst(q[1..], t)
  }

  /** Pushing adds exactly the new event. */
  lemma {:induction false} PushEarliestFirstAdds(q: seq<Timed>, t: Timed)
    ensures multiset(PushEarliestFirst(q, t)) == multiset(q) + multiset{t}
  {
    if !(q == [] || t.timeout < q[0].timeout) {
      var rest := PushEarliestFirst(q[1..], t);
      PushEarliestFirstAdds(q[1..], t);
      assert q == [q[0]] + q[1..];
      calc {
        multiset(PushEarliestFirst(q, t));
        multiset([q[0]] + rest);
        multiset{q[0]} + multiset(rest);
        multiset{q[0]} + multiset(q[1..]) + multiset{t};
        multiset(q) + multiset{t};
      }
    }
  }

  /** Pushing keeps the queue in earliest-first order. */
  lemma {:induction false} PushEarliestFirstKeepsOrder(q: seq<Timed>, t: Timed)
    requires Ascending(q)
    ensures Ascending(PushEarliestFirst(q, t))
  {
    if !(q == [] || t.timeout < q[0].timeout) {
      var rest := PushEarliestFirst(q[1..], t);
      PushEarliestFirstKeepsOrder(q[1..], t);
      PushEarliestFirstBounded(q[1..], t, q[0].timeout);
      var r := PushEarliestFirst(q, t);
      forall i, j | 0 <= i < j < |r|
        ensures r[i].timeout <= r[j].timeout
      {
        if i > 0 {
          assert r[i] == rest[i - 1] && r[j] == rest[j - 1];
        }
      }
    }
  }

  /** Every timeout in the queue after the push is at most the bound when
      every pushed and queued timeout is. */
  lemma {:induction false} PushLatestFirstBounded(q: seq<Timed>, t: Timed, b: int)
    requires (forall j | 0 <= j < |q| :: b >= q[j].timeout) && b >= t.timeout
    ensures forall j | 0 <= j < |q| + 1 :: b >= PushLatestFirst(q, t)[j].timeout
  {
    if !(q == [] || t.timeout > q[0].timeout) {
      PushLatestFirstBounded(q[1..], t, b);
    }
  }

  /** `delayed_events_.push` with the comparer as written,
      `lhs.timeout < rhs.timeout`, under which `top()` is the latest
      timeout. */
  function PushLatestFirst(q: seq<Timed>, t: Timed): (r: seq<Timed>)
    ensures |r| == |q| + 1
  {
    if q == [] || t.timeout > q[0].timeout then [t] + q
    else [q[0]] + PushLatestFirst(q[1..], t)
  }

  /** Pushing adds exactly the new event. */
  lemma {:induction false} PushLatestFirstAdds(q: seq<Timed>, t: Timed)
    ensures multiset(PushLatestFirst(q, t)) == multiset(q) + multiset{t}
  {
    if !(q == [] || t.timeout > q[0].timeout) {
      var rest := PushLatestFirst(q[1..], t);
      PushLatestFirstAdds(q[1..], t);
      assert q == [q[0]] + q[1..];
      calc {
        multiset(PushLatestFirst(q, t));
        multiset([q[0]] + rest);
        multiset{q[0]} + multiset(rest);
        multiset{q[0]} + multiset(q[1..]) + multiset{t};
        multiset(q) + multiset{t};
      }
    }
  }

  /** Pushing keeps the queue in latest-first order. */
  lemma {:induction false} PushLatestFirstKeepsOrder(q: seq<Timed>, t: Timed)
    requires Descending(q)
    ensures Descending(PushLatestFirst(q, t))
  {
    if !(q == [] || t.timeout > q[0].timeout) {
      var rest := PushLatestFirst(q[1..], t);
      PushLatestFirstKeepsOrder(q[1..], t);
      PushLatestFirstBounded(q[1..], t, q[0].timeout);
      var r := PushLatestFirst(q, t);
      forall i, j | 0 <= i < j < |r|
        ensures r[i].timeout >= r[j].timeout
      {
        if i > 0 {
          assert r[i] == rest[i - 1] && r[j] == rest[j - 1];
        }
      }
    }
  }

  /** How many events the delayed phase releases: it pops the top while
      the top is due. */
  function Released(q: seq<Timed>, now: int): (k: nat)
    ensures k <= |q|
  {
    if q == [] || q[0].timeout > now then 0 else 1 + Released(q[1..], now)
  }

  /** With the queue in earliest-first order the delayed phase releases
      exactly the events that are due. */
  lemma {:induction false} ReleasesExactlyDue(q: seq<Timed>, now: int)
    requires Ascending(q)
    ensures forall j | 0 <= j < |q| :: j < Released(q, now) <==> q[j].timeout <= now
  {
    if q != [] && q[0].timeout <= now {
      ReleasesExactlyDue(q[1..], now);
      forall j | 1 <= j < |q|
        ensures j < Released(q, now) <==> q[j].timeout <= now
      {
        assert q[1..][j - 1] == q[j];
      }
    }
  }

  /** With the queue in latest-first order the delayed phase releases
      every pending event or none: one event not yet due holds back all
      the others. */
  lemma {:induction false} ReleasesAllOrNothing(q: seq<Timed>, now: int)
    requires Descending(q)
    ensures Released(q, now) == (if q != [] && q[0].timeout <= now then |q| else 0)
  {
    if q != [] && q[0].timeout <= now {
      ReleasesAllOrNothing(q[1..], now);
      if |q| > 1 {
        assert q[1..][0] == q[1];
      }
    }
  }

  /** An event due at 1 and one due at 5, queued with the comparer as
      written: at time 3 nothing is released although the first is due.
      Queued earliest first, the due event is released. */
  lemma DueEventHeldBack()
    ensures var q := PushLatestFirst(PushLatestFirst([], Timed(1, 0, 0)), Timed(5, 0, 1));
      Timed(1, 0, 0) in q && Released(q, 3) == 0
    ensures var q := PushEarliestFirst(PushEarliestFirst([], Timed(1, 0, 0)), Timed(5, 0, 1));
      q[..Released(q, 3)] == [Timed(1, 0, 0)]
  {
    var late := PushLatestFirst(PushLatestFirst([], Timed(1, 0, 0)), Timed(5, 0, 1));
    assert late == [Timed(5, 0, 1), Timed(1, 0, 0)];
    var early := PushEarliestFirst(PushEarliestFirst([], Timed(1, 0, 0)), Timed(5, 0, 1));
    assert early == [Timed(1, 0, 0), Timed(5, 0, 1)];
    assert Released(early[1..], 3) == 0;
  }

  /** After the loop of `consume` has handled the first `j` callbacks:
      the list holds the survivors among them, at positions before `i`,
      followed by the callbacks not yet called. */
  ghost predicate Scanned(cbs: seq<Callback>, e: Tagged, run: Behaviour, j: nat,
                          list: seq<Callback>, i: nat, raised: seq<nat>)
  {
    j <= |cbs| && i == |Survivors(cbs[..j], e, run)|
    && list == Survivors(cbs[..j], e, run) + cbs[j..]
    && raised == Raised(cbs[..j], e, run)
  }

  /** One iteration of the loop of `consume`. */
  lemma ScanStep(cbs: seq<Callback>, e: Tagged, run: Behaviour, j: nat,
                 list: seq<Callback>, i: nat, raised: seq<nat>)
    requires Scanned(cbs, e, run, j, list, i, raised) && i < |list|
    ensures j < |cbs| && list[i] == cbs[j]
    ensures var r := run(list[i], e);
      Scanned(cbs, e, run, j + 1,
              if Keeps(r) then list else list[..i] + list[i + 1..],
              if Keeps(r) then i + 1 else i,
              raised + r.notified)
  {
    var done := Survivors(cbs[..j], e, run);
    assert cbs[j..] == [cbs[j]] + cbs[j + 1..];
    ConsumeStep(cbs, j, e, run);
    if Keeps(run(cbs[j], e)) {
      assert list == (done + [cbs[j]]) + cbs[j + 1..];
    } else {
      assert list[..i] == done && list[i + 1..] == cbs[j + 1..];
    }
  }

  /** When the loop of `consume` stops, every callback has been called. */
  lemma ScanDone(cbs: seq<Callback>, e: Tagged, run: Behaviour, j: nat,
                 list: seq<Callback>, i: nat, raised: seq<nat>)
    requires Scanned(cbs, e, run, j, list, i, raised) && i >= |list|
    ensures list == Survivors(cbs, e, run) && raised == Raised(cbs, e, run)
  {
    assert j == |cbs|;
    assert cbs[..j] == cbs;
  }

  /** The loop of `callback_list::consume`: calls each callback in list
      order, erasing those that finished or threw, and collects the ids
      they notify. */
  method RunCallbacks(cbs: seq<Callback>, node: Tagged, run: Behaviour) returns (kept: seq<Callback>, raised: seq<nat>)
    ensures kept == Survivors(cbs, node, run) && raised == Raised(cbs, node, run)
  {
    var list := cbs;
    var i := 0;
    ghost var j := 0;
    raised := [];
    while i < |list|
      invariant Scanned(cbs, node, run, j, list, i, raised)
      decreases |list| - i
    {
      ScanStep(cbs, node, run, j, list, i, raised);
      var reaction := run(list[i], node);
      raised := raised + reaction.notified;
      if Keeps(reaction) {
        i := i + 1;
      } else {
        list := list[..i] + list[i + 1..];
      }
      j := j + 1;
    }
    ScanDone(cbs, node, run, j, list, i, raised);
    kept := list;
  }

  /** What an update phase changes: the callback table, the event queue,
      the next handle, the callback calls and the destructor calls. */
  datatype ReactorState = ReactorState(slots: seq<Slot>, events: seq<Tagged>, next: nat,
                                       calls: seq<(Callback, Tagged)>, destroyed: seq<nat>)

  /** One `consume` of `node`; it keeps every registration, and what else
      it does is `ConsumeOneEffect`. */
  function ConsumeOne(st: ReactorState, node: Tagged, run: Behaviour): (r: ReactorState)
    requires node.id < |st.slots|
    ensures SameRegistration(st.slots, r.slots)
  {
    var cbs := st.slots[node.id].callbacks;
    var raised := Raised(cbs, node, run);
    ReactorState(st.slots[node.id := Slot(Survivors(cbs, node, run), st.slots[node.id].destructor)],
                 st.events + Spawn(raised, st.next), st.next + |raised|,
                 st.calls + Calls(cbs, node), st.destroyed + [node.event])
  }

  /** In one `consume` of `node` its callbacks are called once each, in
      list order; only those that returned `false` stay, and every other
      slot is untouched; the events they notify are queued after the
      existing ones with consecutive fresh handles; the event is destroyed
      once. */
  lemma ConsumeOneEffect(st: ReactorState, node: Tagged, run: Behaviour)
    requires node.id < |st.slots|
    ensures var r := ConsumeOne(st, node, run);
      && (forall j | 0 <= j < |r.slots| && j != node.id :: r.slots[j] == st.slots[j])
      && (forall c :: c in r.slots[node.id].callbacks <==>
                        c in st.slots[node.id].callbacks && Keeps(run(c, node)))
      && |r.events| >= |st.events| && r.events[..|st.events|] == st.events
      && r.next == st.next + (|r.events| - |st.events|)
      && (forall k | |st.events| <= k < |r.events| :: r.events[k].event == st.next + (k - |st.events|))
      && r.calls == st.calls + Calls(st.slots[node.id].callbacks, node)
      && r.destroyed == st.destroyed + [node.event]
  {
    var cbs := st.slots[node.id].callbacks;
    forall c
      ensures c in Survivors(cbs, node, run) <==> c in cbs && Keeps(run(c, node))
    {
      SurvivorsMembership(cbs, node, run, c);
    }
  }

  /** `consume` of every event of `q`, in queue order. The registrations
      stay; what else it does is stated by `DispatchSpawns`,
      `DispatchDestroys` and `DispatchCalls`. */
  function Dispatch(st: ReactorState, q: seq<Tagged>, run: Behaviour): (r: ReactorState)
    requires forall k | 0 <= k < |q| :: q[k].id < |st.slots|
    ensures SameRegistration(st.slots, r.slots)
    decreases |q|
  {
    if q == [] then st
    else ConsumeOne(Dispatch(st, q[..|q| - 1], run), q[|q| - 1], run)
  }

  /** Dispatching `q` only adds events, at the end of the queue, with
      consecutive fresh handles. */
  lemma {:induction false} DispatchSpawns(st: ReactorState, q: seq<Tagged>, run: Behaviour)
    requires forall k | 0 <= k < |q| :: q[k].id < |st.slots|
    ensures var r := Dispatch(st, q, run);
      && |r.events| >= |st.events| && r.events[..|st.events|] == st.events
      && r.next == st.next + (|r.events| - |st.events|)
      && (forall k | |st.events| <= k < |r.events| :: r.events[k].event == st.next + (k - |st.events|))
    decreases |q|
  {
    if q != [] {
      var init := q[..|q| - 1];
      DispatchSpawns(st, init, run);
      var d := Dispatch(st, init, run);
      ConsumeOneEffect(d, q[|q| - 1], run);
      var r := ConsumeOne(d, q[|q| - 1], run);
      assert r.events[..|st.events|] == d.events[..|d.events|][..|st.events|];
    }
  }

  /** Dispatching `q` destroys each of its events once, in queue order. */
  lemma {:induction false} DispatchDestroys(st: ReactorState, q: seq<Tagged>, run: Behaviour)
    requires forall k | 0 <= k < |q| :: q[k].id < |st.slots|
    ensures Dispatch(st, q, run).destroyed == st.destroyed + Handles(q)
    decreases |q|
  {
    if q != [] {
      var init := q[..|q| - 1];
      DispatchDestroys(st, init, run);
      assert Handles(q) == Handles(init) + [q[|q| - 1].event];
    }
  }

  /** Every callback call that dispatching `q` makes hands over one of the
      events of `q`, and the calls made before are kept. */
  lemma {:induction false} DispatchCalls(st: ReactorState, q: seq<Tagged>, run: Behaviour)
    requires forall k | 0 <= k < |q| :: q[k].id < |st.slots|
    ensures var r := Dispatch(st, q, run);
      && |r.calls| >= |st.calls| && r.calls[..|st.calls|] == st.calls
      && (forall k | |st.calls| <= k < |r.calls| :: r.calls[k].1 in q)
    decreases |q|
  {
    if q != [] {
      var init := q[..|q| - 1];
      DispatchCalls(st, init, run);
      var d := Dispatch(st, init, run);
      var r := ConsumeOne(d, q[|q| - 1], run);
      assert r.calls[..|st.calls|] == d.calls[..|d.calls|][..|st.calls|];
      assert forall k | |st.calls| <= k < |d.calls| :: r.calls[k] == d.calls[k];
      assert forall x | x in init :: x in q;
    }
  }

  /** Events still queued ahead of those a phase has spawned do not change
      what `consume` does; its own events go after both. */
  lemma ConsumeBehindPending(st: ReactorState, pending: seq<Tagged>, node: Tagged, run: Behaviour)
    requires node.id < |st.slots|
    ensures var r := ConsumeOne(st, node, run);
      ConsumeOne(st.(events := pending + st.events), node, run) == r.(events := pending + r.events)
  {
    var raised := Raised(st.slots[node.id].callbacks, node, run);
    assert (pending + st.events) + Spawn(raised, st.next) == pending + (st.events + Spawn(raised, st.next));
  }

  /** Dispatching one more event of the queue. */
  lemma DispatchStep(st: ReactorState, q: seq<Tagged>, i: nat, run: Behaviour)
    requires i < |q| && forall k | 0 <= k < |q| :: q[k].id < |st.slots|
    ensures Dispatch(st, q[..i + 1], run) == ConsumeOne(Dispatch(st, q[..i], run), q[i], run)
  {
    var q' := q[..i + 1];
    assert q' != [] && q'[..|q'| - 1] == q[..i] && q'[|q'| - 1] == q[i];
  }

  /** `basic_reactor`. `calls` and `destroyed` record the callback calls
      and the destructor calls, in order. */
  class Reactor {
    var slots: seq<Slot>
    var events: seq<Tagged>
    var delayed: seq<Timed>
    /** The handle the next created event gets. */
    var nextEvent: nat
    ghost var calls: seq<(Callback, Tagged)>
    ghost var destroyed: seq<nat>

    /** Every queued event has a registered id, and the delayed queue is
        kept earliest first. */
    ghost predicate Valid()
      reads this
    {
      Ascending(delayed)
      && (forall k | 0 <= k < |events| :: Registered(slots, events[k].id))
      && (forall k | 0 <= k < |delayed| :: Registered(slots, delayed[k].id))
    }

    /** The part of the reactor an update phase changes. */
    ghost function Snapshot(): ReactorState
      reads this
    {
      ReactorState(slots, events, nextEvent, calls, destroyed)
    }

    /** The reactor is in state `st` with the events `pending` still
        queued ahead of `st`'s own. */
    ghost predicate Behind(pending: seq<Tagged>, st: ReactorState)
      reads this
    {
      Snapshot() == st.(events := pending + st.events)
    }

    constructor()
      ensures Valid() && slots == [] && events == [] && delayed == [] && nextEvent == 0
      ensures calls == [] && destroyed == []
    {
      slots := [];
      events := [];
      delayed := [];
      nextEvent := 0;
      calls := [];
      destroyed := [];
    }

    method RegisterEvent(id: nat, kind: nat)
      requires Valid()
      modifies this
      ensures Valid()
      ensures slots == Register(old(slots), id, kind)
      ensures events == old(events) && delayed == old(delayed) && nextEvent == old(nextEvent)
      ensures calls == old(calls) && destroyed == old(destroyed)
    {
      RegisterEffect(slots, id, kind);
      if |slots| < id + 1 {
        slots := slots + seq(id + 1 - |slots|, _ => Slot([], None));
      }
      if slots[id].destructor == None {
        slots := slots[id := slots[id].(destructor := Some(kind))];
      }
    }

    /** `subscribe`: appends a callback to a registered id's list. */
    method Subscribe(id: nat, c: Callback)
      requires Valid() && Registered(slots, id)
      modifies this
      ensures Valid()
      ensures slots == old(slots)[id := Slot(old(slots)[id].callbacks + [c], old(slots)[id].destructor)]
      ensures events == old(events) && delayed == old(delayed) && nextEvent == old(nextEvent)
      ensures calls == old(calls) && destroyed == old(destroyed)
    {
      slots := slots[id := slots[id].(callbacks := slots[id].callbacks + [c])];
    }

    /** `notify(event)`: creates the event and queues it last. */
    method Notify(id: nat) returns (h: nat)
      requires Valid() && Registered(slots, id)
      modifies this
      ensures Valid()
      ensures h == old(nextEvent) && nextEvent == h + 1
      ensures events == old(events) + [Tagged(id, h)]
      ensures slots == old(slots) && delayed == old(delayed)
      ensures calls == old(calls) && destroyed == old(destroyed)
    {
      h := nextEvent;
      nextEvent := nextEvent + 1;
      events := events + [Tagged(id, h)];
    }

    /** `notify(event, delay)`: `timeout` is the current time plus the
        delay. The queue keeps the corrected earliest-first order; the
        comparer as written is `PushLatestFirst`. */
    method NotifyDelayed(id: nat, timeout: int) returns (h: nat)
      requires Valid() && Registered(slots, id)
      modifies this
      ensures Valid()
      ensures h == old(nextEvent) && nextEvent == h + 1
      ensures delayed == PushEarliestFirst(old(delayed), Timed(timeout, id, h))
      ensures slots == old(slots) && events == old(events)
      ensures calls == old(calls) && destroyed == old(destroyed)
    {
      h := nextEvent;
      nextEvent := nextEvent + 1;
      var t := Timed(timeout, id, h);
      var q := PushEarliestFirst(delayed, t);
      PushEarliestFirstAdds(delayed, t);
      PushEarliestFirstKeepsOrder(delayed, t);
      forall k | 0 <= k < |q|
        ensures Registered(slots, q[k].id)
      {
        assert q[k] in multiset(q);
        if q[k] != t {
          var m :| 0 <= m < |delayed| && delayed[m] == q[k];
        }
      }
      delayed := q;
    }

    function IsEmpty(): bool
      reads this
    {
      events == [] && delayed == []
    }

    /** `callback_list::consume`: hands the event to each callback of its
        id in list order, removes those that finished or threw, then
        destroys the event once. Events the callbacks notify are queued
        after the existing ones. */
    method Consume(node: Tagged, run: Behaviour)
      requires node.id < |slots|
      modifies this
      ensures var cbs := old(slots)[node.id].callbacks;
        slots == old(slots)[node.id := Slot(Survivors(cbs, node, run), old(slots)[node.id].destructor)]
        && events == old(events) + Spawn(Raised(cbs, node, run), old(nextEvent))
        && nextEvent == old(nextEvent) + |Raised(cbs, node, run)|
        && calls == old(calls) + Calls(cbs, node)
      ensures destroyed == old(destroyed) + [node.event] && delayed == old(delayed)
    {
      var kept, raised := RunCallbacks(slots[node.id].callbacks, node, run);
      slots := slots[node.id := slots[node.id].(callbacks := kept)];
      events := events + Spawn(raised, nextEvent);
      nextEvent := nextEvent + |raised|;
      calls := calls + Calls(old(slots)[node.id].callbacks, node);
      destroyed := destroyed + [node.event];
    }

    /** The event and delayed-event phases of `update`. */
    method Update(run: Behaviour, now: int)
      requires Valid() && Closed(run, slots)
      modifies this
      ensures Valid() && SameRegistration(old(slots), slots)
      ensures var released := Released(old(delayed), now);
        delayed == old(delayed)[released..]
        && Snapshot() == Dispatch(Dispatch(ReactorState(old(slots), [], old(nextEvent), old(calls), old(destroyed)),
                                           old(events), run),
                                  Untimed(old(delayed)[..released]), run)
      ensures var released := Released(old(delayed), now);
        destroyed == old(destroyed) + Handles(old(events)) + Handles(Untimed(old(delayed)[..released]))
      ensures forall k | 0 <= k < |events| :: events[k].event >= old(nextEvent)
    {
      ghost var st0 := ReactorState(slots, [], nextEvent, calls, destroyed);
      ghost var events0 := events;
      EventPhase(run);
      ghost var st1 := Snapshot();
      ghost var q := Untimed(delayed[..Released(delayed, now)]);
      DelayedPhase(run, now);
      DispatchSpawns(st0, events0, run);
      DispatchSpawns(st1, q, run);
      DispatchDestroys(st0, events0, run);
      DispatchDestroys(st1, q, run);
      forall k | 0 <= k < |events|
        ensures events[k].event >= st0.next
      {
        if k < |st1.events| {
          assert events[k] == events[..|st1.events|][k] == st1.events[k];
        }
      }
    }

    /** The event phase handles as many events as were queued when it
        started (`event_count`), oldest first; the events their callbacks
        notify wait for the next `update`. */
    method EventPhase(run: Behaviour)
      requires Valid() && Closed(run, slots)
      modifies this
      ensures Valid() && SameRegistration(old(slots), slots) && Closed(run, slots)
      ensures delayed == old(delayed)
      ensures Snapshot() == Dispatch(ReactorState(old(slots), [], old(nextEvent), old(calls), old(destroyed)),
                                     old(events), run)
    {
      ghost var slots0, events0 := slots, events;
      ghost var init := ReactorState(slots, [], nextEvent, calls, destroyed);
      assert Behind(events0, init);
      var count := |events|;
      var i := 0;
      while i < count
        invariant 0 <= i <= count
        invariant SameRegistration(slots0, slots) && delayed == old(delayed)
        invariant forall k | 0 <= k < |events| :: Registered(slots, events[k].id)
        invariant Behind(events0[i..], Dispatch(init, events0[..i], run))
      {
        HandleFirst(run, slots0, init, events0, i);
        i := i + 1;
      }
      assert events0[..count] == events0;
      ClosedStable(run, slots0, slots);
      forall k | 0 <= k < |delayed|
        ensures Registered(slots, delayed[k].id)
      {
        assert Registered(slots0, delayed[k].id);
      }
    }

    /** One iteration of the event phase: pops the oldest event and
        consumes it. */
    method HandleFirst(run: Behaviour, ghost slots0: seq<Slot>, ghost init: ReactorState,
                       ghost events0: seq<Tagged>, ghost i: nat)
      requires i < |events0| && Closed(run, slots0) && SameRegistration(slots0, slots)
      requires forall k | 0 <= k < |events0| :: events0[k].id < |init.slots|
      requires forall k | 0 <= k < |events| :: Registered(slots, events[k].id)
      requires Behind(events0[i..], Dispatch(init, events0[..i], run))
      modifies this
      ensures SameRegistration(slots0, slots) && delayed == old(delayed)
      ensures forall k | 0 <= k < |events| :: Registered(slots, events[k].id)
      ensures Behind(events0[i + 1..], Dispatch(init, events0[..i + 1], run))
    {
      ghost var d := Dispatch(init, events0[..i], run);
      assert events0[i..] == [events0[i]] + events0[i + 1..];
      var node := events[0];
      events := events[1..];
      assert events == events0[i + 1..] + d.events;
      Handle(node, run, slots0);
      ConsumeBehindPending(d, events0[i + 1..], node, run);
      DispatchStep(init, events0, i, run);
    }

    /** The delayed phase pops the top of the queue while it is due, and
        stops at the first one that is not. */
    method DelayedPhase(run: Behaviour, now: int)
      requires Valid() && Closed(run, slots)
      modifies this
      ensures Valid() && SameRegistration(old(slots), slots)
      ensures var released := Released(old(delayed), now);
        delayed == old(delayed)[released..]
        && Snapshot() == Dispatch(old(Snapshot()), Untimed(old(delayed)[..released]), run)
    {
      ghost var slots0, delayed0, init := slots, delayed, Snapshot();
      ghost var k := 0;
      while delayed != []
        invariant 0 <= k <= |delayed0| && delayed == delayed0[k..]
        invariant Released(delayed0, now) == k + Released(delayed, now)
        invariant SameRegistration(slots0, slots)
        invariant forall m | 0 <= m < |events| :: Registered(slots, events[m].id)
        invariant Snapshot() == Dispatch(init, Untimed(delayed0[..k]), run)
        decreases |delayed|
      {
        var node := delayed[0];
        if node.timeout > now {
          break;
        }
        HandleDue(run, slots0, init, delayed0, k);
        k := k + 1;
      }
      assert Released(delayed, now) == 0;
      forall m | 0 <= m < |delayed|
        ensures Registered(slots, delayed[m].id)
      {
        assert delayed[m] == delayed0[k + m] && Registered(slots0, delayed0[k + m].id);
      }
    }

    /** One iteration of the delayed phase: pops the top of the queue,
        which is due, and consumes it. */
    method HandleDue(run: Behaviour, ghost slots0: seq<Slot>, ghost init: ReactorState,
                     ghost delayed0: seq<Timed>, ghost k: nat)
      requires k < |delayed0| && delayed == delayed0[k..]
      requires Closed(run, slots0) && SameRegistration(slots0, slots)
      requires forall m | 0 <= m < |delayed0| :: delayed0[m].id < |init.slots|
      requires Registered(slots, delayed0[k].id)
      requires forall m | 0 <= m < |events| :: Registered(slots, events[m].id)
      requires Snapshot() == Dispatch(init, Untimed(delayed0[..k]), run)
      modifies this
      ensures delayed == delayed0[k + 1..] && SameRegistration(slots0, slots)
      ensures forall m | 0 <= m < |events| :: Registered(slots, events[m].id)
      ensures Snapshot() == Dispatch(init, Untimed(delayed0[..k + 1]), run)
    {
      var node := delayed[0];
      delayed := delayed[1..];
      Handle(Tagged(node.id, node.event), run, slots0);
      assert Untimed(delayed0[..k + 1])[..k] == Untimed(delayed0[..k]);
    }

    /** One `consume` call of an update phase: the slot is in range since
        the id is registered, and the notified events are registered. */
    method Handle(node: Tagged, run: Behaviour, ghost slots0: seq<Slot>)
      requires Registered(slots, node.id) && Closed(run, slots0) && SameRegistration(slots0, slots)
      requires forall m | 0 <= m < |events| :: Registered(slots, events[m].id)
      modifies this
      ensures Snapshot() == ConsumeOne(old(Snapshot()), node, run) && delayed == old(delayed)
      ensures SameRegistration(slots0, slots)
      ensures forall m | 0 <= m < |events| :: Registered(slots, events[m].id)
    {
      ghost var cbs := slots[node.id].callbacks;
      Consume(node, run);
      RaisedRegistered(cbs, node, run, slots0);
      assert events[..|old(events)|] == old(events);
    }
  }
}
