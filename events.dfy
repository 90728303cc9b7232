/** The event broker and the task scheduler of `modern_python_demo/events.py`.

    The registry is a map from event name to the ordered list of handlers.
    An emission is modelled by what it schedules: one invocation per handler
    of the snapshot, in subscription order, each either awaited directly (a
    coroutine function) or handed to the loop's executor (anything else). The
    event loop, `gather`, the executor threads and the sleeps are not modelled;
    a scheduled task is an abstract handle that can be asked to cancel. */
module Events {
  import opened PyList

  // ---------------------------------------------------------------------------
  // Handlers and the registry
  // ---------------------------------------------------------------------------

  /** Whether `asyncio.iscoroutinefunction(h)` holds. */
  datatype HandlerKind = Sync | Async

  /** A handler reference; two references are equal exactly when they denote
      the same callable (Python compares functions by identity). */
  datatype Handler = Handler(id: string, kind: HandlerKind)

  type Registry = map<string, seq<Handler>>

  /** `subscribers.get(event, [])`. */
  function HandlersOf(subs: Registry, event: string): (r: seq<Handler>) {
    if event in subs then subs[event] else []
  }

  /** `subscribers.setdefault(event, []).append(handler)`. */
  function Subscribed(subs: Registry, event: string, h: Handler): (r: Registry) {
    subs[event := HandlersOf(subs, event) + [h]]
  }

  /** `if handlers and handler in handlers: handlers.remove(handler)`. */
  function Unsubscribed(subs: Registry, event: string, h: Handler): (r: Registry) {
    if event in subs && h in subs[event] then subs[event := RemoveFirst(subs[event], h)]
    else subs
  }

  /** `subscribe` appends at the end of the event's list, creating it when
      absent, and leaves every other event's list as it was. */
  lemma SubscribeAppends(subs: Registry, event: string, h: Handler)
    ensures event in Subscribed(subs, event, h)
    ensures HandlersOf(Subscribed(subs, event, h), event) == HandlersOf(subs, event) + [h]
    ensures forall e :: e != event ==>
      (e in Subscribed(subs, event, h) <==> e in subs) &&
      HandlersOf(Subscribed(subs, event, h), e) == HandlersOf(subs, e)
  {
  }

  /** No deduplication: subscribing the same handler twice adds two entries. */
  lemma SubscribeTwiceCountsTwice(subs: Registry, event: string, h: Handler)
    ensures var twice := Subscribed(Subscribed(subs, event, h), event, h);
      multiset(HandlersOf(twice, event))[h] == multiset(HandlersOf(subs, event))[h] + 2
  {
    var l := HandlersOf(subs, event);
    assert HandlersOf(Subscribed(Subscribed(subs, event, h), event, h), event) == l + [h] + [h];
  }

  /** `unsubscribe` of a present handler removes its first occurrence only:
      one copy fewer, nothing else lost, and the order of what remains is
      the order it had. */
  lemma UnsubscribeRemovesFirst(subs: Registry, event: string, h: Handler, before: seq<Handler>, after: seq<Handler>)
    requires HandlersOf(subs, event) == before + [h] + after && h !in before
    ensures event in Unsubscribed(subs, event, h)
    ensures HandlersOf(Unsubscribed(subs, event, h), event) == before + after
    ensures forall e :: e != event ==>
      (e in Unsubscribed(subs, event, h) <==> e in subs) &&
      HandlersOf(Unsubscribed(subs, event, h), e) == HandlersOf(subs, e)
  {
    assert h in HandlersOf(subs, event);
    RemoveFirstSplit(before, h, after);
  }

  /** With the handler absent, or the event unknown, nothing changes and no
      key is created. */
  lemma UnsubscribeAbsentIsNoOp(subs: Registry, event: string, h: Handler)
    requires h !in HandlersOf(subs, event)
    ensures Unsubscribed(subs, event, h) == subs
  {
  }

  /** Removing the last handler leaves the event mapped to an empty list. */
  lemma UnsubscribeLastKeepsKey(subs: Registry, event: string, h: Handler)
    requires HandlersOf(subs, event) == [h]
    ensures event in Unsubscribed(subs, event, h)
    ensures Unsubscribed(subs, event, h)[event] == []
  {
  }

  /** Subscribing a handler that was not yet subscribed and unsubscribing it
      again gives back the event's list (the key now exists, possibly empty). */
  lemma SubscribeThenUnsubscribe(subs: Registry, event: string, h: Handler)
    requires h !in HandlersOf(subs, event)
    ensures Unsubscribed(Subscribed(subs, event, h), event, h) == subs[event := HandlersOf(subs, event)]
  {
    var l := HandlersOf(subs, event);
    var s1 := Subscribed(subs, event, h);
    assert s1[event] == l + [h] + [];
    RemoveFirstSplit(l, h, []);
    assert RemoveFirst(s1[event], h) == l;
    assert Unsubscribed(s1, event, h) == s1[event := l];
  }

  // ---------------------------------------------------------------------------
  // What an emission schedules
  // ---------------------------------------------------------------------------

  /** How `emit` runs a handler: a coroutine is awaited through `gather`,
      anything else goes through `loop.run_in_executor`. */
  datatype Route = Direct | Executor

  function RouteOf(kind: HandlerKind): (r: Route) {
    match kind
    case Async => Direct
    case Sync => Executor
  }

  /** One scheduled call `h(event, *payload)`. */
  datatype Invocation<P> = Invocation(handler: Handler, route: Route, event: string, payload: P)

  /** The handlers an invocation list calls, in order. */
  function Targets<P>(plan: seq<Invocation<P>>): (hs: seq<Handler>)
    ensures |hs| == |plan|
    ensures forall i :: 0 <= i < |plan| ==> hs[i] == plan[i].handler
  {
    if plan == [] then [] else [plan[0].handler] + Targets(plan[1..])
  }

  /** The `tasks` list `emit` gathers for the handler list `handlers`. */
  function Plan<P>(handlers: seq<Handler>, event: string, payload: P): (plan: seq<Invocation<P>>)
    ensures |plan| == |handlers|
    ensures forall i :: 0 <= i < |plan| ==>
      plan[i] == Invocation(handlers[i], RouteOf(handlers[i].kind), event, payload)
  {
    if handlers == [] then []
    else
      [Invocation(handlers[0], RouteOf(handlers[0].kind), event, payload)]
        + Plan(handlers[1..], event, payload)
  }

  /** Every handler of the snapshot is called exactly once, in subscription
      order, each with the event name and the payload passed unchanged. */
  lemma {:induction false} PlanCallsEachOnce<P>(handlers: seq<Handler>, event: string, payload: P)
    ensures Targets(Plan(handlers, event, payload)) == handlers
    ensures forall inv :: inv in Plan(handlers, event, payload) ==> inv.event == event && inv.payload == payload
  {
    var plan := Plan(handlers, event, payload);
    assert Targets(plan) == handlers;
  }

  lemma {:induction false} PlanAppend<P>(a: seq<Handler>, b: seq<Handler>, event: string, payload: P)
    ensures Plan(a + b, event, payload) == Plan(a, event, payload) + Plan(b, event, payload)
  {
    assert Plan(a + b, event, payload) == Plan(a, event, payload) + Plan(b, event, payload);
  }

  /** After one more `subscribe`, an emission schedules the same calls as
      before plus one call of the new handler at the end. */
  lemma EmitAfterSubscribe<P>(subs: Registry, event: string, h: Handler, payload: P)
    ensures Plan(HandlersOf(Subscribed(subs, event, h), event), event, payload)
      == Plan(HandlersOf(subs, event), event, payload) + [Invocation(h, RouteOf(h.kind), event, payload)]
  {
    PlanAppend(HandlersOf(subs, event), [h], event, payload);
  }

  /** A handler that was subscribed once and then unsubscribed is not called
      by a later emission. */
  lemma EmitAfterUnsubscribe<P>(subs: Registry, event: string, h: Handler, payload: P)
    requires multiset(HandlersOf(subs, event))[h] == 1
    ensures h !in Targets(Plan(HandlersOf(Unsubscribed(subs, event, h), event), event, payload))
  {
    var l := HandlersOf(subs, event);
    assert h in multiset(l);
    var r := HandlersOf(Unsubscribed(subs, event, h), event);
    RemoveFirstCount(l, h);
    assert multiset(r)[h] == 0;
    PlanCallsEachOnce(r, event, payload);
  }

  /** In general `unsubscribe` takes away exactly one call of the handler from
      later emissions: a handler registered `k` times is still called `k - 1`
      times, and every other handler as often as before. An unregistered
      handler changes nothing. */
  lemma UnsubscribeDropsOneCall<P>(subs: Registry, event: string, h: Handler, payload: P)
    ensures multiset(Targets(Plan(HandlersOf(Unsubscribed(subs, event, h), event), event, payload)))
      == multiset(Targets(Plan(HandlersOf(subs, event), event, payload))) - multiset{h}
  {
    var l := HandlersOf(subs, event);
    var r := HandlersOf(Unsubscribed(subs, event, h), event);
    PlanCallsEachOnce(l, event, payload);
    PlanCallsEachOnce(r, event, payload);
    if h in l {
      RemoveFirstCount(l, h);
    } else {
      assert r == l;
      assert multiset(l)[h] == 0;
    }
  }

  /** A handler subscribed twice and unsubscribed once is still called by the
      next emission. One might expect an unsubscribed handler never to be
      called again, but `subscribe` keeps duplicates and `unsubscribe` removes
      one copy, so that holds only for a handler registered once. */
  lemma DuplicateStillCalled<P>(h: Handler, payload: P)
    ensures var subs := Unsubscribed(Subscribed(Subscribed(map[], "e", h), "e", h), "e", h);
      Targets(Plan(HandlersOf(subs, "e"), "e", payload)) == [h]
  {
    var twice := Subscribed(Subscribed(map[], "e", h), "e", h);
    assert HandlersOf(twice, "e") == [h, h];
    assert RemoveFirst([h, h], h) == [h];
    PlanCallsEachOnce([h], "e", payload);
  }

  // ---------------------------------------------------------------------------
  // The broker object
  // ---------------------------------------------------------------------------

  class EventBroker {
    var subscribers: Registry

    constructor ()
      ensures subscribers == map[]
    {
      subscribers := map[];
    }

    method Subscribe(event: string, handler: Handler)
      modifies this
      ensures subscribers == Subscribed(old(subscribers), event, handler)
    {
      var handlers := if event in subscribers then subscribers[event] else [];
      subscribers := subscribers[event := handlers + [handler]];
    }

    method Unsubscribe(event: string, handler: Handler)
      modifies this
      ensures subscribers == Unsubscribed(old(subscribers), event, handler)
    {
      if event in subscribers {
        var handlers := subscribers[event];
        if |handlers| > 0 && handler in handlers {
          subscribers := subscribers[event := RemoveFirst(handlers, handler)];
        }
      }
    }

    /** `emit(event, *payload)`: snapshot the list, then build the task list
        one handler at a time. The registry is only read. */
    method Emit<P>(event: string, payload: P) returns (tasks: seq<Invocation<P>>, gathered: bool)
      ensures tasks == Plan(HandlersOf(subscribers, event), event, payload)
      ensures gathered <==> |HandlersOf(subscribers, event)| > 0
    {
      var handlers := if event in subscribers then subscribers[event] else [];
      tasks := [];
      var i := 0;
      while i < |handlers|
        invariant 0 <= i <= |handlers|
        invariant tasks == Plan(handlers[..i], event, payload)
      {
        var h := handlers[i];
        if h.kind == Async {
          tasks := tasks + [Invocation(h, Direct, event, payload)];
        } else {
          tasks := tasks + [Invocation(h, Executor, event, payload)];
        }
        PlanAppend(handlers[..i], [h], event, payload);
        assert handlers[..i + 1] == handlers[..i] + [h];
        i := i + 1;
      }
      assert handlers[..|handlers|] == handlers;
      gathered := |tasks| > 0;
    }
  }

  /** The broker test: a sync handler and an async handler on `"e"` are both
      called once by `emit("e", payload)`, the first through the executor and
      the second directly. */
  method BrokerEmitExample<P>(payload: P) returns (tasks: seq<Invocation<P>>)
    ensures |tasks| == 2
    ensures tasks[0] == Invocation(Handler("h", Sync), Executor, "e", payload)
    ensures tasks[1] == Invocation(Handler("ah", Async), Direct, "e", payload)
  {
    var broker := new EventBroker();
    broker.Subscribe("e", Handler("h", Sync));
    broker.Subscribe("e", Handler("ah", Async));
    var gathered;
    tasks, gathered := broker.Emit("e", payload);
  }

  // ---------------------------------------------------------------------------
  // The scheduler
  // ---------------------------------------------------------------------------

  /** What a task runs: `runner()` of `schedule_periodic` (call, swallow and
      print any exception, sleep `interval`, forever) or of `schedule_once`
      (sleep `delay`, then call once). The callback is named by its id. */
  datatype TaskKind = Periodic(callback: string, interval: real) | Once(callback: string, delay: real)

  /** An `asyncio.Task`, reduced to what the scheduler does with it. */
  class TaskHandle {
    const kind: TaskKind
    var cancelRequested: bool

    constructor (kind: TaskKind)
      ensures this.kind == kind && !cancelRequested
    {
      this.kind := kind;
      cancelRequested := false;
    }

    /** `task.cancel()`: request cancellation. */
    method Cancel()
      modifies this
      ensures cancelRequested
    {
      cancelRequested := true;
    }
  }

  class Scheduler {
    var tasks: seq<TaskHandle>

    constructor ()
      ensures tasks == []
    {
      tasks := [];
    }

    method SchedulePeriodic(callback: string, interval: real) returns (task: TaskHandle)
      modifies this
      ensures fresh(task) && task.kind == Periodic(callback, interval) && !task.cancelRequested
      ensures tasks == old(tasks) + [task]
    {
      task := new TaskHandle(Periodic(callback, interval));
      tasks := tasks + [task];
    }

    method ScheduleOnce(delay: real, callback: string) returns (task: TaskHandle)
      modifies this
      ensures fresh(task) && task.kind == Once(callback, delay) && !task.cancelRequested
      ensures tasks == old(tasks) + [task]
    {
      task := new TaskHandle(Once(callback, delay));
      tasks := tasks + [task];
    }

    /** `cancel_all()`: cancel every tracked task, then forget them all. */
    method CancelAll()
      modifies this, tasks
      ensures tasks == []
      ensures forall t :: t in old(tasks) ==> t.cancelRequested
    {
      var i := 0;
      while i < |tasks|
        invariant 0 <= i <= |tasks|
        invariant tasks == old(tasks)
        invariant forall j :: 0 <= j < i ==> tasks[j].cancelRequested
      {
        tasks[i].Cancel();
        i := i + 1;
      }
      tasks := [];
    }
  }
}
