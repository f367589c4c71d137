/**
 * ConsoleTracer (src/infrastructure/tracer/console_tracer.py): an in-memory
 * log of trace events grouped by trace id. Each group keeps its events in the
 * order they were recorded; an id that was never recorded has no events.
 *
 * The ISO timestamp of an event is the `stamp` parameter; the console line
 * printed for each event is not modelled.
 */
module Tracer {
  import opened Wrappers
  import opened Dicts
  import opened Values
  import opened Types

  /** One recorded event: `{"timestamp", "event_type", "payload", "trace_id"}`. */
  datatype Event = Event(timestamp: string, eventType: TraceEventType, payload: Fields, traceId: string)

  /** The events of `log` that belong to trace `id`, in the order of `log`. */
  function OnTrace(log: seq<Event>, id: string): (r: seq<Event>)
    ensures |r| <= |log|
    ensures forall k :: 0 <= k < |r| ==> r[k].traceId == id
  {
    if log == [] then []
    else
      var last := log[|log| - 1];
      OnTrace(log[..|log| - 1], id) + (if last.traceId == id then [last] else [])
  }

  /** Recording one more event extends its own trace by that event and no other trace. */
  lemma OnTraceAppend(log: seq<Event>, e: Event, id: string)
    ensures OnTrace(log + [e], id) == OnTrace(log, id) + (if e.traceId == id then [e] else [])
  {
    assert (log + [e])[..|log|] == log;
  }

  /** Events recorded on `id` one after another come back in that order, after the earlier ones. */
  lemma {:induction false} OnTraceRecorded(log: seq<Event>, es: seq<Event>, id: string)
    requires forall k :: 0 <= k < |es| ==> es[k].traceId == id
    ensures OnTrace(log + es, id) == OnTrace(log, id) + es
    decreases |es|
  {
    if es != [] {
      var init, last := es[..|es| - 1], es[|es| - 1];
      assert init + [last] == es;
      assert last.traceId == id;
      calc {
        OnTrace(log + es, id);
        { assert log + es == (log + init) + [last]; }
        OnTrace((log + init) + [last], id);
        { OnTraceAppend(log + init, last, id); }
        OnTrace(log + init, id) + [last];
        { OnTraceRecorded(log, init, id); }
        OnTrace(log, id) + init + [last];
        OnTrace(log, id) + es;
      }
    } else {
      assert log + es == log;
    }
  }

  /** Events recorded on other ids leave the trace of `id` as it was. */
  lemma {:induction false} OnTraceElsewhere(log: seq<Event>, es: seq<Event>, id: string)
    requires forall k :: 0 <= k < |es| ==> es[k].traceId != id
    ensures OnTrace(log + es, id) == OnTrace(log, id)
    decreases |es|
  {
    if es != [] {
      var init, last := es[..|es| - 1], es[|es| - 1];
      assert last.traceId != id;
      calc {
        OnTrace(log + es, id);
        { assert log + es == (log + init) + [last]; }
        OnTrace((log + init) + [last], id);
        { OnTraceAppend(log + init, last, id); }
        OnTrace(log + init, id);
        { OnTraceElsewhere(log, init, id); }
        OnTrace(log, id);
      }
    } else {
      assert log + es == log;
    }
  }

  class ConsoleTracer {
    /** `_events`: trace id -> its events, ids in the order of their first event. */
    var events: Dict<string, seq<Event>>
    /** Every event recorded so far, in order, on whatever trace. */
    ghost var log: seq<Event>

    /** Each id present holds exactly its events from the log, and only ids with events are present. */
    ghost predicate Valid()
      reads this
    {
      && Dicts.Valid(events)
      && forall id :: Get(events, id) == (if OnTrace(log, id) == [] then None else Some(OnTrace(log, id)))
    }

    constructor ()
      ensures Valid()
      ensures events == [] && log == []
    {
      events := [];
      log := [];
    }

    /** `record_event(event_type, payload, trace_id)`: append the new event to the list of its trace. */
    method RecordEvent(eventType: TraceEventType, payload: Fields, traceId: string, stamp: string)
      requires Valid()
      modifies this
      ensures Valid()
      ensures log == old(log) + [Event(stamp, eventType, payload, traceId)]
      ensures Get(events, traceId) == Some(Get(old(events), traceId).GetOr([]) + [Event(stamp, eventType, payload, traceId)])
      ensures forall id :: id != traceId ==> Get(events, id) == Get(old(events), id)
      ensures Keys(events) == if traceId in Keys(old(events)) then Keys(old(events)) else Keys(old(events)) + [traceId]
    {
      var event := Event(stamp, eventType, payload, traceId);
      ghost var earlier := OnTrace(log, traceId);
      assert Get(events, traceId) == if earlier == [] then None else Some(earlier);
      if Get(events, traceId).None? {
        PutValid(events, traceId, []);
        events := Put(events, traceId, []);
      }
      var previous := Get(events, traceId).value;
      assert previous == earlier;
      PutValid(events, traceId, previous + [event]);
      events := Put(events, traceId, previous + [event]);
      log := log + [event];
      forall id ensures Get(events, id) == (if OnTrace(log, id) == [] then None else Some(OnTrace(log, id))) {
        OnTraceAppend(old(log), event, id);
        if id == traceId {
          assert OnTrace(log, id) == earlier + [event];
          assert Get(events, id) == Some(earlier + [event]);
        } else {
          assert Get(events, id) == Get(old(events), id);
          assert OnTrace(log, id) == OnTrace(old(log), id);
          assert old(Get(events, id) == (if OnTrace(log, id) == [] then None else Some(OnTrace(log, id))));
        }
      }
    }

    /** `get_trace(trace_id)`: the events of that trace in recording order, `[]` for an unknown id. */
    function GetTrace(traceId: string): (r: seq<Event>)
      reads this
      requires Valid()
      ensures r == OnTrace(log, traceId)
      ensures traceId !in Keys(events) ==> r == []
    {
      Get(events, traceId).GetOr([])
    }
  }
}
