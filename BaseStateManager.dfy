/** The abstract base of the generic undo/redo manager: the configured history
    bound and the table of event callbacks. */
module BaseState {
  import opened Wrappers

  /** A value stored in the callback table. The model does not run callbacks;
      it only records whether one is callable, which handler it is, and
      whether calling it raises. */
  datatype Callback = Callable(handler: nat, raises: bool) | NotCallable

  /** What `trigger_callback` did: nothing, or it called a handler (and, if
      the handler raised, caught the exception). */
  datatype Dispatch = NotInvoked | Invoked(handler: nat, raised: bool)

  /** A history record: the snapshot, the operation dict and the save time. */
  datatype StateRecord<T> = StateRecord(state: T, operation: map<string, string>, timestamp: real)

  /** The snapshots of a history, record by record. */
  function Snapshots<T>(records: seq<StateRecord<T>>): (s: seq<T>)
    ensures |s| == |records|
    ensures forall i :: 0 <= i < |records| ==> s[i] == records[i].state
  {
    if records == [] then [] else Snapshots(records[..|records| - 1]) + [records[|records| - 1].state]
  }

  /** The events the table knows about. */
  function Events(): set<string> {
    {"on_state_change", "on_undo", "on_redo", "on_state_applied"}
  }

  class BaseStateManager {
    const maxStates: int
    var callbacks: map<string, Option<Callback>>

    /** The table always has exactly the four known events as keys. */
    predicate Valid()
      reads this
    {
      callbacks.Keys == Events()
    }

    constructor(maxStates: int)
      ensures Valid()
      ensures this.maxStates == maxStates
      ensures forall e :: e in Events() ==> callbacks[e] == None
    {
      this.maxStates := maxStates;
      callbacks := map["on_state_change" := None, "on_undo" := None,
                       "on_redo" := None, "on_state_applied" := None];
    }

    /** `set_callback`: a known event gets the new entry (possibly `None`);
        an unknown event only logs a warning. */
    method SetCallback(event: string, callback: Option<Callback>)
      requires Valid()
      modifies this
      ensures Valid()
      ensures event in Events() ==> callbacks == old(callbacks)[event := callback]
      ensures event !in Events() ==> callbacks == old(callbacks)
    {
      if event in callbacks {
        callbacks := callbacks[event := callback];
      }
    }

    /** `trigger_callback`: the handler is called only when the event is in
        the table and its entry is callable; an exception it raises is caught
        here and never reaches the caller. */
    method TriggerCallback(event: string) returns (d: Dispatch)
      ensures d.Invoked? <==>
        event in callbacks && callbacks[event].Some? && callbacks[event].value.Callable?
      ensures d.Invoked? ==>
        d.handler == callbacks[event].value.handler && d.raised == callbacks[event].value.raises
    {
      if event in callbacks && callbacks[event].Some? && callbacks[event].value.Callable? {
        var c := callbacks[event].value;
        d := Invoked(c.handler, c.raises);
      } else {
        d := NotInvoked;
      }
    }
  }
}
