/**
  The state that `@Listener` gives an object: the listener registry
  `_listeners` and the documentation store `_listener_docs`, with the
  methods the decorator attaches (`addListener`, `_call`, `_addListenerDoc`,
  `buildListenerDocs`, `on`). The decorator's rebinding of `__init__` and
  its attaching of functions to the class are modelled as an ordinary class.
 */
module Registry {
  import opened Wrappers
  import opened Dispatch
  import opened DocStore
  import Render

  /**
    What `on(event_name, is_async, once, on_error)` returns: a decorator
    closing over all four arguments, applied later by `Decorate`.
   */
  datatype Decorator = Decorator(event: string, isAsync: bool, once: bool, onError: Option<HandlerId>)

  /** The record the decorator registers, as written: `on_error` is not passed on. */
  function DecoratedRecord(d: Decorator, func: Handler): Record {
    Record(func, d.isAsync, d.once, None)
  }

  /** The record the decorator evidently means to register: with its `on_error`. */
  function ForwardedRecord(d: Decorator, func: Handler): Record {
    Record(func, d.isAsync, d.once, d.onError)
  }

  /**
    A decorated handler that raises never reaches the `on_error` given to
    `on`; registering the forwarded record reports the error to it.
   */
  lemma DecoratorDropsOnError(d: Decorator, func: Handler)
    requires d.onError.Some? && func.outcome.Raised?
    ensures DispatchTrace([DecoratedRecord(d, func)]) == [Invoked(func, d.isAsync)]
    ensures DispatchTrace([ForwardedRecord(d, func)])
      == [Invoked(func, d.isAsync), Reported(d.onError.value, func.outcome.error)]
  {
    assert [DecoratedRecord(d, func)][..0] == [];
    assert [ForwardedRecord(d, func)][..0] == [];
  }

  class Listener {
    /** `cls.__name__`, used in the document titles. */
    const className: string
    /** `self._listeners`. */
    var listeners: ListenerMap
    /** `self._listener_docs`. */
    var listenerDocs: Store

    ghost predicate Valid()
      reads this
    {
      listenerDocs.WellFormed()
    }

    /** `new_init`: both dicts start empty. */
    constructor (className: string)
      ensures Valid()
      ensures this.className == className && listeners == map[] && listenerDocs == Empty
    {
      this.className := className;
      listeners := map[];
      listenerDocs := Empty;
    }

    /** `addListener`: append one record to the event's list, creating the list first if absent. */
    method AddListener(event: string, func: Handler, isAsync: bool, once: bool, onError: Option<HandlerId>)
      requires Valid()
      modifies this
      ensures Valid() && listenerDocs == old(listenerDocs)
      ensures listeners == Register(old(listeners), event, Record(func, isAsync, once, onError))
    {
      if event !in listeners {
        listeners := listeners[event := []];
      }
      listeners := listeners[event := listeners[event] + [Record(func, isAsync, once, onError)]];
    }

    /**
      `_call(event)`: a pass over a snapshot of the event's list. Each `once`
      record is deleted from the live list, at the snapshot index less the
      number of deletions so far, before its handler runs; then the handler
      is invoked (for an async record, its thread is started) and, if that
      raises an `Exception` and `on_error` is set, `on_error` gets it. An
      exception that is not an `Exception` ends the pass and leaves `_call`:
      it is returned in `escaped`. The calls made are returned in order.
     */
    method Call(event: string) returns (trace: seq<Effect>, escaped: Option<string>)
      requires Valid()
      modifies this
      ensures Valid() && listenerDocs == old(listenerDocs)
      ensures listeners == Fired(old(listeners), event)
      ensures trace == CallTrace(old(listeners), event)
      ensures escaped == Escaping(old(listeners), event)
    {
      trace := [];
      escaped := None;
      if event in listeners {
        var snapshot := listeners[event];
        var delCount := 0;
        PassStart(listeners, event);
        for i := 0 to |snapshot|
          invariant listenerDocs == old(listenerDocs)
          invariant delCount == DeletedBefore(snapshot, i)
          invariant listeners == old(listeners)[event := Live(snapshot, i)]
          invariant trace == TraceBefore(snapshot, i)
          invariant ClearBefore(snapshot, i)
        {
          var info := snapshot[i];
          delCount := Retire(event, snapshot, i, delCount, old(listeners));
          trace := trace + Step(info);
          if info.func.outcome.Escaped? {
            PassEscape(old(listeners), event, snapshot, i);
            escaped := Some(info.func.outcome.error);
            return;
          }
        }
        PassEnd(old(listeners), event, snapshot);
      }
    }

    /**
      The first half of one iteration of `_call`: a `once` record is deleted
      from the live list at `i - del_count`, and `del_count` goes up.
     */
    method Retire(event: string, snapshot: seq<Record>, i: nat, delCount: nat, ghost start: ListenerMap) returns (delCount': nat)
      requires Valid() && i < |snapshot|
      requires listeners == start[event := Live(snapshot, i)] && delCount == DeletedBefore(snapshot, i)
      modifies this
      ensures Valid() && listenerDocs == old(listenerDocs)
      ensures listeners == start[event := Live(snapshot, i + 1)] && delCount' == DeletedBefore(snapshot, i + 1)
    {
      delCount' := delCount;
      if snapshot[i].once {
        DeleteOnce(listeners, start, event, snapshot, i, delCount);
        var live := listeners[event];
        listeners := listeners[event := live[..i - delCount] + live[i - delCount + 1..]];
        DeletedStep(old(listeners), listeners, start, event, snapshot, i, delCount);
        delCount' := delCount + 1;
      } else {
        KeepStep(start, event, snapshot, i);
      }
    }

    /** `_addListenerDoc(event, desc, *cpd)`: store the event's documentation, overwriting any earlier one. */
    method AddListenerDoc(event: string, desc: string, cpd: seq<string>)
      requires Valid()
      modifies this
      ensures Valid() && listeners == old(listeners)
      ensures listenerDocs == Put(old(listenerDocs), event, Doc(desc, cpd))
    {
      listenerDocs := Put(listenerDocs, event, Doc(desc, cpd));
    }

    /** `buildListenerDocs(model)`: the Markdown document for "markdown" or "md", the HTML one otherwise. */
    method BuildListenerDocs(model: string) returns (doc: string)
      requires Valid()
      ensures doc == Render.ListenerDocs(className, listenerDocs, model)
    {
      doc := Render.BuildListenerDocs(className, listenerDocs, model);
    }

    /** Applying the decorator returned by `on`: registers the function as written, then returns it. */
    method Decorate(d: Decorator, func: Handler) returns (f: Handler)
      requires Valid()
      modifies this
      ensures Valid() && listenerDocs == old(listenerDocs)
      ensures f == func
      ensures listeners == Register(old(listeners), d.event, DecoratedRecord(d, func))
    {
      AddListener(d.event, func, d.isAsync, d.once, None);
      f := func;
    }

    /** The decorator as evidently intended: the `on_error` given to `on` is passed to `addListener`. */
    method DecorateForwarding(d: Decorator, func: Handler) returns (f: Handler)
      requires Valid()
      modifies this
      ensures Valid() && listenerDocs == old(listenerDocs)
      ensures f == func
      ensures listeners == Register(old(listeners), d.event, ForwardedRecord(d, func))
    {
      AddListener(d.event, func, d.isAsync, d.once, d.onError);
      f := func;
    }
  }

  /** Two builds with no annotation in between give the same document. */
  method BuildTwice(l: Listener, model: string) returns (first: string, second: string)
    requires l.Valid()
    ensures first == second
  {
    first := l.BuildListenerDocs(model);
    second := l.BuildListenerDocs(model);
  }
}
