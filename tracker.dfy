/** The `HandoffTracker` object: its log sink is a field that each call
    appends to, line by line, as the methods of the Python class do. */
module Handoffs {
  import opened Text
  import opened HandoffLog

  class HandoffTracker {
    /** The `handoffs` list the constructor creates. No method adds to it,
        so the type of its elements is not fixed by its use; `Event` is a
        stand-in, and the list never holds log lines. */
    var handoffs: seq<Event>
    /** The lines sent to the "handoff_logger" logger, oldest first. */
    var log: seq<Event>

    ghost predicate Valid()
      reads this
    {
      handoffs == []
    }

    constructor ()
      ensures Valid() && log == []
    {
      handoffs := [];
      log := [];
    }

    /** `track_run`: logs the agent's name, then the request. */
    method TrackRun(agentName: string, request: string)
      modifies this`log
      ensures log == old(log) + RunEvents(agentName, request)
    {
      log := log + [StartAgent(agentName)];
      log := log + [StartRequest(request)];
    }

    /** `track_response`: the header, the analysis of a present non-empty
        trace, the responder check and the separator. A `SplitIndexError`
        status is the `IndexError` the analysis raised: the call stops there,
        with the lines logged so far kept. */
    method TrackResponse(response: RunResult, agentName: string) returns (status: Status)
      modifies this`log
      ensures log == old(log) + ResponseEmission(response, agentName).events
      ensures status == ResponseEmission(response, agentName).status
    {
      log := log + [Header(agentName)];
      status := Done;
      if response.trace.Some? && response.trace.value != [] {
        status := AnalyzeTrace(response.trace.value);
      }
      ghost var analysis := TraceEmissionOf(response);
      AppendAssoc(old(log), [Header(agentName)], analysis.events);
      if status == SplitIndexError {
        return;
      }
      ghost var analysed := log;
      match response.agentName {
        case Some(n) =>
          if n != TriageAgentName {
            log := log + [Mismatch(n)];
          }
        case None =>
      }
      log := log + [Separator];
      AppendAssoc(analysed, MismatchEvents(response), [Separator]);
      AppendAssoc(old(log), [Header(agentName)] + analysis.events, MismatchEvents(response) + [Separator]);
    }

    /** `analyze_trace`: for each step in order, the scan and the reason
        extraction of `AnalyzeStep`; returns at the first message whose split
        yields a single piece. */
    method AnalyzeTrace(trace: seq<Step>) returns (status: Status)
      modifies this`log
      ensures log == old(log) + TraceEmission(trace).events
      ensures status == TraceEmission(trace).status
    {
      status := Done;
      if trace == [] {
        return;
      }
      var i := 0;
      while i < |trace|
        invariant 0 <= i <= |trace|
        invariant log == old(log) + TraceEmission(trace[..i]).events
        invariant status == TraceEmission(trace[..i]).status == Done
      {
        TraceNext(trace, i);
        status := AnalyzeStep(trace[i], i);
        assert TraceEmission(trace[..i + 1]).events == TraceEmission(trace[..i]).events + StepEmission(trace[i], i).events;
        AppendAssoc(old(log), TraceEmission(trace[..i]).events, StepEmission(trace[i], i).events);
        if status == SplitIndexError {
          TraceStopsAtError(trace, i + 1);
          return;
        }
        i := i + 1;
      }
      assert trace[..i] == trace;
    }

    /** One pass of the loop of `analyze_trace` over the step at `index`:
        the case-insensitive scan of its rendering, then, for a dictionary
        with a `messages` entry, the reason extraction over its messages. */
    method AnalyzeStep(step: Step, index: nat) returns (status: Status)
      modifies this`log
      ensures log == old(log) + StepEmission(step, index).events
      ensures status == StepEmission(step, index).status
    {
      status := Done;
      if IsHit(step) {
        log := log + [TraceHit(index)];
      }
      if step.DictStep? && step.messages.Some? {
        status := ExtractReasons(step.messages.value);
        AppendAssoc(old(log), HitEmission(step, index).events, MessagesEmission(step.messages.value).events);
      } else {
        assert StepEmission(step, index).events == HitEmission(step, index).events + [];
      }
    }

    /** The inner loop of `analyze_trace` over the messages of one step: for
        each message whose content has "HANDOFF REASON", the stripped second
        piece of its split on "HANDOFF REASON:"; returns at the first message
        whose split yields a single piece. */
    method ExtractReasons(messages: seq<Message>) returns (status: Status)
      modifies this`log
      ensures log == old(log) + MessagesEmission(messages).events
      ensures status == MessagesEmission(messages).status
    {
      status := Done;
      var j := 0;
      while j < |messages|
        invariant 0 <= j <= |messages|
        invariant log == old(log) + MessagesEmission(messages[..j]).events
        invariant status == MessagesEmission(messages[..j]).status == Done
      {
        MessagesNext(messages, j);
        ghost var done := MessagesEmission(messages[..j]).events;
        var content := ContentOf(messages[j]);
        if Contains(content, ReasonProbe) {
          var pieces := Split(content, ReasonMarker);
          if |pieces| < 2 {
            status := SplitIndexError;
            assert MessagesEmission(messages[..j + 1]).events == done + [];
            MessagesStopAtError(messages, j + 1);
            return;
          }
          var reason := Strip(pieces[1]);
          assert MessageEmission(messages[j]).events == [Reason(reason)];
          log := log + [Reason(reason)];
          AppendAssoc(old(log), done, [Reason(reason)]);
        } else {
          assert MessageEmission(messages[j]).events == [];
          assert done + [] == done;
        }
        j := j + 1;
      }
      assert messages[..j] == messages;
    }
  }

  /** A client of the tracker: a run announcement followed by one response,
      as `handle_customer_request` issues them; the lines of the two calls
      follow one another in the log and `handoffs` is left as it was. */
  method TrackRequest(tracker: HandoffTracker, agentName: string, request: string, response: RunResult)
    returns (status: Status)
    requires tracker.Valid()
    modifies tracker`log
    ensures tracker.Valid()
    ensures tracker.log == old(tracker.log) + RunEvents(agentName, request) + ResponseEmission(response, agentName).events
    ensures status == ResponseEmission(response, agentName).status
  {
    tracker.TrackRun(agentName, request);
    status := tracker.TrackResponse(response, agentName);
  }
}
