/** The decision logic of the handoff tracker, as pure functions: which log
    lines one call emits, in which order, and where a call stops because
    `content.split('HANDOFF REASON:')[1]` raised an `IndexError`. */
module HandoffLog {
  import opened Text

  /** The substring the step scan looks for in the lower-cased rendering. */
  const TraceKeyword := "handoff"
  /** The text whose presence in a message content starts reason extraction. */
  const ReasonProbe := "HANDOFF REASON"
  /** The separator the content is then split on. */
  const ReasonMarker := "HANDOFF REASON:"
  /** The name the final responder is compared with. */
  const TriageAgentName := "Customer Service"

  // ---------------------------------------------------------------------------
  // Data
  // ---------------------------------------------------------------------------

  /** A message of a trace step; `content` is `None` when the key is absent. */
  datatype Message = Message(content: Option<string>)

  /** A trace step: a dictionary, with its `str()` rendering and its
      `messages` entry if it has one, or any other kind of object. */
  datatype Step =
    | DictStep(rendering: string, messages: Option<seq<Message>>)
    | OtherStep

  /** What the tracker reads of a run result: its trace and the name of the
      agent that answered, each `None` when the attribute is absent. */
  datatype RunResult = RunResult(trace: Option<seq<Step>>, agentName: Option<string>)

  /** One line of the log sink. */
  datatype Event =
    | StartAgent(agent: string)     // "Starting request with agent: ..."
    | StartRequest(request: string) // "Request: ..."
    | Header(agent: string)         // "Response from ...:"
    | TraceHit(stepIndex: nat)      // "HANDOFF TRACE: ..." for the step at this index
    | Reason(text: string)          // "HANDOFF REASON: ..."
    | Mismatch(agent: string)       // "HANDOFF DETECTED: Final response from ..."
    | Separator                     // fifty '=' characters

  /** Whether a call ran to its end or was cut short by the `IndexError`. */
  datatype Status = Done | SplitIndexError

  /** The lines a call logs, and how it ended. */
  datatype Emission = Emission(events: seq<Event>, status: Status)

  /** Runs `b` after `a`, unless `a` already raised. */
  function Then(a: Emission, b: Emission): Emission
  {
    if a.status == SplitIndexError then a else Emission(a.events + b.events, b.status)
  }

  /** Appending to a log is associative. */
  lemma AppendAssoc(a: seq<Event>, b: seq<Event>, c: seq<Event>)
    ensures (a + b) + c == a + (b + c)
  {
  }

  /** `message.get('content', '')`. */
  function ContentOf(m: Message): string
  {
    match m.content
    case Some(c) => c
    case None => ""
  }

  // ---------------------------------------------------------------------------
  // The two checks on one step
  // ---------------------------------------------------------------------------

  /** The case-insensitive scan: a dictionary step whose lower-cased
      rendering contains "handoff". */
  predicate IsHit(step: Step)
  {
    step.DictStep? && Contains(Lower(step.rendering), TraceKeyword)
  }

  /** A content that passes the reason check but lacks the colon, so that
      the split yields a single piece and `[1]` fails. */
  predicate Unsplittable(m: Message)
  {
    Contains(ContentOf(m), ReasonProbe) && !Contains(ContentOf(m), ReasonMarker)
  }

  /** The marker contains the probe, so every content with the marker passes
      the reason check. */
  lemma MarkerHasProbe(c: string)
    ensures Contains(c, ReasonMarker) ==> Contains(c, ReasonProbe)
  {
    if Contains(c, ReasonMarker) {
      assert OccursAt(ReasonMarker, ReasonProbe, 0);
      ContainsOccurs(ReasonMarker, ReasonProbe);
      ContainsTransitive(c, ReasonMarker, ReasonProbe);
    }
  }

  /** The reason a message names: the stripped text after its first marker,
      up to the next marker or the end; `None` when there is no marker. */
  function ReasonOf(m: Message): (r: Option<string>)
    ensures r.Some? <==> Contains(ContentOf(m), ReasonMarker)
  {
    var c := ContentOf(m);
    if Contains(c, ReasonMarker) then
      SplitMany(c, ReasonMarker);
      Some(Strip(Split(c, ReasonMarker)[1]))
    else None
  }

  /** The reason is the stripped text that follows the first marker and
      runs up to the next marker or to the end of the content. */
  lemma ReasonIsNextSegment(m: Message)
    requires Contains(ContentOf(m), ReasonMarker)
    ensures var c := ContentOf(m);
      var start := IndexOf(c, ReasonMarker).value + |ReasonMarker|;
      exists p :: ReasonOf(m) == Some(Strip(p)) && SegmentAt(c, ReasonMarker, start, p)
  {
    var c := ContentOf(m);
    SecondPieceSegment(c, ReasonMarker);
    var p := Split(c, ReasonMarker)[1];
    assert ReasonOf(m) == Some(Strip(p));
  }

  /** What the inner loop body does for one message, as the code does it:
      test for the probe, split on the marker, take the second piece. */
  function MessageEmission(m: Message): (e: Emission)
    ensures e.status == SplitIndexError <==> Unsplittable(m)
    ensures e.status == SplitIndexError ==> e.events == []
    ensures e.status == Done ==> e.events == match ReasonOf(m) case Some(x) => [Reason(x)] case None => []
  {
    var c := ContentOf(m);
    SplitMany(c, ReasonMarker);
    MarkerHasProbe(c);
    if !Contains(c, ReasonProbe) then Emission([], Done)
    else
      var pieces := Split(c, ReasonMarker);
      if |pieces| < 2 then Emission([], SplitIndexError)
      else Emission([Reason(Strip(pieces[1]))], Done)
  }

  /** The inner loop over the messages of one step, in order; it stops at
      the first message whose split fails. */
  function MessagesEmission(ms: seq<Message>): Emission
    decreases |ms|
  {
    if ms == [] then Emission([], Done)
    else Then(MessagesEmission(ms[..|ms| - 1]), MessageEmission(ms[|ms| - 1]))
  }

  /** The scan's line for the step at `index`, if any. */
  function HitEmission(step: Step, index: nat): Emission
  {
    if IsHit(step) then Emission([TraceHit(index)], Done) else Emission([], Done)
  }

  /** One iteration of the outer loop: the scan, then the reason extraction
      over the step's messages when it is a dictionary with a `messages` key. */
  function StepEmission(step: Step, index: nat): (e: Emission)
    ensures step.OtherStep? ==> e == Emission([], Done)
  {
    Then(HitEmission(step, index),
      match step
      case DictStep(_, Some(ms)) => MessagesEmission(ms)
      case _ => Emission([], Done))
  }

  /** `analyze_trace`: the outer loop over the steps, in order. */
  function TraceEmission(t: seq<Step>): Emission
    decreases |t|
  {
    if t == [] then Emission([], Done)
    else Then(TraceEmission(t[..|t| - 1]), StepEmission(t[|t| - 1], |t| - 1))
  }

  // ---------------------------------------------------------------------------
  // The two public calls
  // ---------------------------------------------------------------------------

  /** `track_run`: the agent's name, then the request. */
  function RunEvents(agentName: string, request: string): (ev: seq<Event>)
    ensures |ev| == 2 && ev[0].StartAgent? && ev[1].StartRequest?
    ensures ev[0].agent == agentName && ev[1].request == request
  {
    [StartAgent(agentName), StartRequest(request)]
  }

  /** The trace analysis `track_response` performs: none unless the result
      has a non-empty trace. */
  function TraceEmissionOf(r: RunResult): Emission
  {
    match r.trace
    case Some(t) => if t != [] then TraceEmission(t) else Emission([], Done)
    case None => Emission([], Done)
  }

  /** The responder check, against the literal triage agent name. */
  function MismatchEvents(r: RunResult): seq<Event>
  {
    match r.agentName
    case Some(n) => if n != TriageAgentName then [Mismatch(n)] else []
    case None => []
  }

  /** `track_response`: the header, the trace analysis, the responder check
      and the separator; an `IndexError` in the analysis ends the call. */
  function ResponseEmission(r: RunResult, agentName: string): Emission
  {
    Then(Then(Emission([Header(agentName)], Done), TraceEmissionOf(r)),
         Emission(MismatchEvents(r) + [Separator], Done))
  }

  // ---------------------------------------------------------------------------
  // Reference views of the log
  // ---------------------------------------------------------------------------

  /** The step indices of the `TraceHit` lines, in log order. */
  function HitIndices(ev: seq<Event>): seq<nat>
  {
    if ev == [] then []
    else (if ev[0].TraceHit? then [ev[0].stepIndex] else []) + HitIndices(ev[1..])
  }

  /** The texts of the `Reason` lines, in log order. */
  function ReasonTexts(ev: seq<Event>): seq<string>
  {
    if ev == [] then []
    else (if ev[0].Reason? then [ev[0].text] else []) + ReasonTexts(ev[1..])
  }

  /** The reason a message names, as a list of zero or one texts. */
  function NamedReason(m: Message): seq<string>
  {
    match ReasonOf(m)
    case Some(x) => [x]
    case None => []
  }

  /** The reasons named by a list of messages, first message first. */
  function MessageReasons(ms: seq<Message>): seq<string>
    decreases |ms|
  {
    if ms == [] then []
    else MessageReasons(ms[..|ms| - 1]) + NamedReason(ms[|ms| - 1])
  }

  function StepReasons(step: Step): seq<string>
  {
    match step
    case DictStep(_, Some(ms)) => MessageReasons(ms)
    case _ => []
  }

  /** The reasons named anywhere in a trace, first step first. */
  function ExpectedReasons(t: seq<Step>): seq<string>
    decreases |t|
  {
    if t == [] then [] else ExpectedReasons(t[..|t| - 1]) + StepReasons(t[|t| - 1])
  }

  /** A step whose reason extraction raises. */
  predicate StepFails(step: Step)
  {
    match step
    case DictStep(_, Some(ms)) => exists j :: 0 <= j < |ms| && Unsplittable(ms[j])
    case _ => false
  }

  // ---------------------------------------------------------------------------
  // Lemmas on the filters
  // ---------------------------------------------------------------------------

  lemma {:induction false} HitIndicesAppend(a: seq<Event>, b: seq<Event>)
    ensures HitIndices(a + b) == HitIndices(a) + HitIndices(b)
    decreases |a|
  {
    if a != [] {
      assert (a + b)[1..] == a[1..] + b;
      HitIndicesAppend(a[1..], b);
    } else {
      assert a + b == b;
    }
  }

  lemma {:induction false} HitIndicesOfReasons(a: seq<Event>)
    requires forall x :: x in a ==> x.Reason?
    ensures HitIndices(a) == []
    decreases |a|
  {
    if a != [] {
      assert a[0] in a;
      HitIndicesOfReasons(a[1..]);
    }
  }

  lemma {:induction false} ReasonTextsAppend(a: seq<Event>, b: seq<Event>)
    ensures ReasonTexts(a + b) == ReasonTexts(a) + ReasonTexts(b)
    decreases |a|
  {
    if a != [] {
      assert (a + b)[1..] == a[1..] + b;
      ReasonTextsAppend(a[1..], b);
    } else {
      assert a + b == b;
    }
  }

  /** Some element of a non-empty list satisfies `p` exactly when some
      element before the last one does, or the last one does. */
  lemma ExistsSnoc<T>(xs: seq<T>, init: seq<T>, p: T -> bool)
    requires xs != [] && init == xs[..|xs| - 1]
    ensures (exists j :: 0 <= j < |xs| && p(xs[j])) <==>
      (exists j :: 0 <= j < |init| && p(init[j])) || p(xs[|xs| - 1])
  {
    var n := |xs| - 1;
    if exists j :: 0 <= j < n && p(init[j]) {
      var j :| 0 <= j < n && p(init[j]);
      assert xs[j] == init[j];
    }
    if exists j :: 0 <= j < |xs| && p(xs[j]) {
      var j :| 0 <= j < |xs| && p(xs[j]);
      if j < n {
        assert init[j] == xs[j];
      }
    }
  }

  // ---------------------------------------------------------------------------
  // Properties of the trace analysis
  // ---------------------------------------------------------------------------

  /** The inner loop logs only `Reason` lines. */
  lemma {:induction false} MessagesKinds(ms: seq<Message>)
    ensures forall x :: x in MessagesEmission(ms).events ==> x.Reason?
    decreases |ms|
  {
    if ms != [] {
      MessagesKinds(ms[..|ms| - 1]);
    }
  }

  /** One step logs its own `TraceHit` line and `Reason` lines only. */
  lemma StepKinds(step: Step, index: nat)
    ensures forall x :: x in StepEmission(step, index).events ==> x == TraceHit(index) || x.Reason?
  {
    match step
    case DictStep(_, Some(ms)) => MessagesKinds(ms);
    case _ =>
  }

  /** The analysis logs only `TraceHit` lines for steps of the trace, and
      `Reason` lines. */
  lemma {:induction false} TraceKinds(t: seq<Step>)
    ensures forall x :: x in TraceEmission(t).events ==> (x.TraceHit? && x.stepIndex < |t|) || x.Reason?
    decreases |t|
  {
    if t != [] {
      TraceKinds(t[..|t| - 1]);
      StepKinds(t[|t| - 1], |t| - 1);
    }
  }

  /** The `TraceHit` lines of one step: one for a matched step, none else. */
  lemma StepHits(step: Step, index: nat)
    ensures HitIndices(StepEmission(step, index).events) == if IsHit(step) then [index] else []
  {
    var hit := HitEmission(step, index);
    HitLine(step, index);
    match step
    case DictStep(_, Some(ms)) =>
      var msgs := MessagesEmission(ms);
      MessagesKinds(ms);
      HitIndicesOfReasons(msgs.events);
      HitIndicesAppend(hit.events, msgs.events);
    case _ =>
      assert hit.events + [] == hit.events;
  }

  lemma HitLine(step: Step, index: nat)
    ensures HitIndices(HitEmission(step, index).events) == if IsHit(step) then [index] else []
  {
    if IsHit(step) {
      assert HitIndices([TraceHit(index)]) == [index] + HitIndices([]);
    }
  }

  /** The indices of the steps the scan matches, in increasing order. */
  function MatchedSteps(t: seq<Step>): seq<nat>
    decreases |t|
  {
    if t == [] then []
    else MatchedSteps(t[..|t| - 1]) + (if IsHit(t[|t| - 1]) then [|t| - 1] else [])
  }

  /** Every index `MatchedSteps` lists is an index of the trace. */
  lemma {:induction false} MatchedStepsBounded(t: seq<Step>)
    ensures forall k :: 0 <= k < |MatchedSteps(t)| ==> MatchedSteps(t)[k] < |t|
    decreases |t|
  {
    if t != [] {
      var n := |t| - 1;
      MatchedStepsBounded(t[..n]);
      var h', h := MatchedSteps(t[..n]), MatchedSteps(t);
      var tail := if IsHit(t[n]) then [n] else [];
      assert h == h' + tail;
      forall k | 0 <= k < |h|
        ensures h[k] < |t|
      {
        if k >= |h'| {
          assert h[k] == tail[k - |h'|];
        }
      }
    }
  }

  /** `MatchedSteps` lists its indices in strictly increasing order. */
  lemma {:induction false} MatchedStepsIncreasing(t: seq<Step>)
    ensures forall k, l :: 0 <= k < l < |MatchedSteps(t)| ==> MatchedSteps(t)[k] < MatchedSteps(t)[l]
    decreases |t|
  {
    if t != [] {
      var n := |t| - 1;
      MatchedStepsIncreasing(t[..n]);
      MatchedStepsBounded(t[..n]);
      var h', h := MatchedSteps(t[..n]), MatchedSteps(t);
      var tail := if IsHit(t[n]) then [n] else [];
      assert h == h' + tail;
      forall k, l | 0 <= k < l < |h|
        ensures h[k] < h[l]
      {
        assert h[k] == h'[k];
        if l < |h'| {
          assert h[l] == h'[l];
        } else {
          assert h[l] == n;
        }
      }
    }
  }

  /** `MatchedSteps` lists exactly the indices of the matched steps. */
  lemma {:induction false} MatchedStepsMembers(t: seq<Step>)
    ensures forall i :: 0 <= i < |t| ==> (i in MatchedSteps(t) <==> IsHit(t[i]))
    decreases |t|
  {
    if t != [] {
      var n := |t| - 1;
      var pre := t[..n];
      MatchedStepsMembers(pre);
      MatchedStepsBounded(pre);
      var h', h := MatchedSteps(pre), MatchedSteps(t);
      var tail := if IsHit(t[n]) then [n] else [];
      assert h == h' + tail;
      forall i | 0 <= i < |t|
        ensures i in h <==> IsHit(t[i])
      {
        if i < n {
          assert pre[i] == t[i];
          assert i in h <==> i in h';
        } else {
          assert n !in h';
        }
      }
    }
  }

  /** `MatchedSteps` lists each matched index once, in increasing order, and
      no other index. */
  lemma MatchedStepsExact(t: seq<Step>)
    ensures var h := MatchedSteps(t);
      && (forall k :: 0 <= k < |h| ==> h[k] < |t|)
      && (forall k, l :: 0 <= k < l < |h| ==> h[k] < h[l])
      && (forall i :: 0 <= i < |t| ==> (i in h <==> IsHit(t[i])))
  {
    MatchedStepsBounded(t);
    MatchedStepsIncreasing(t);
    MatchedStepsMembers(t);
  }

  /** The `TraceHit` lines of a completed analysis are the matched steps. */
  lemma {:induction false} HitsAreMatchedSteps(t: seq<Step>)
    requires TraceEmission(t).status == Done
    ensures HitIndices(TraceEmission(t).events) == MatchedSteps(t)
    decreases |t|
  {
    if t != [] {
      var n := |t| - 1;
      var p := TraceEmission(t[..n]);
      assert p.status == Done;
      HitsAreMatchedSteps(t[..n]);
      StepHits(t[n], n);
      HitIndicesAppend(p.events, StepEmission(t[n], n).events);
    }
  }

  /** When the analysis runs to its end, there is exactly one `TraceHit` per
      step the scan matches, none for any other step, in step order. */
  lemma HitsExact(t: seq<Step>)
    requires TraceEmission(t).status == Done
    ensures var h := HitIndices(TraceEmission(t).events);
      && (forall k :: 0 <= k < |h| ==> h[k] < |t|)
      && (forall k, l :: 0 <= k < l < |h| ==> h[k] < h[l])
      && (forall i :: 0 <= i < |t| ==> (i in h <==> IsHit(t[i])))
  {
    HitsAreMatchedSteps(t);
    MatchedStepsExact(t);
  }

  /** The line one completed message step logs is the reason it names. */
  lemma MessageReasonText(m: Message)
    requires MessageEmission(m).status == Done
    ensures ReasonTexts(MessageEmission(m).events) == NamedReason(m)
  {
    var r := ReasonOf(m);
    if r.Some? {
      ReasonTextsOfOne(r.value);
    }
  }

  lemma ReasonTextsOfOne(x: string)
    ensures ReasonTexts([Reason(x)]) == [x]
  {
    assert ReasonTexts([Reason(x)]) == [x] + ReasonTexts([]);
  }

  /** When the inner loop runs to its end, it logs the reasons of the
      messages in order. */
  lemma {:induction false} MessagesReasonsInOrder(ms: seq<Message>)
    requires MessagesEmission(ms).status == Done
    ensures ReasonTexts(MessagesEmission(ms).events) == MessageReasons(ms)
    decreases |ms|
  {
    if ms != [] {
      var n := |ms| - 1;
      var p := MessagesEmission(ms[..n]);
      assert p.status == Done;
      MessagesReasonsInOrder(ms[..n]);
      MessageReasonText(ms[n]);
      ReasonTextsAppend(p.events, MessageEmission(ms[n]).events);
    }
  }

  /** The reason lines of one completed step are the reasons of its messages. */
  lemma StepReasonTexts(step: Step, index: nat)
    requires StepEmission(step, index).status == Done
    ensures ReasonTexts(StepEmission(step, index).events) == StepReasons(step)
  {
    var hit := HitEmission(step, index);
    assert ReasonTexts(hit.events) == [];
    match step
    case DictStep(_, Some(ms)) =>
      MessagesReasonsInOrder(ms);
      ReasonTextsAppend(hit.events, MessagesEmission(ms).events);
    case _ =>
      assert hit.events + [] == hit.events;
  }

  /** When the analysis runs to its end, it logs one `Reason` line for each
      message carrying the marker, in step order and message order, with the
      reason that message names. */
  lemma {:induction false} ReasonsInOrder(t: seq<Step>)
    requires TraceEmission(t).status == Done
    ensures ReasonTexts(TraceEmission(t).events) == ExpectedReasons(t)
    decreases |t|
  {
    if t != [] {
      var n := |t| - 1;
      var p := TraceEmission(t[..n]);
      assert p.status == Done;
      ReasonsInOrder(t[..n]);
      StepReasonTexts(t[n], n);
      ReasonTextsAppend(p.events, StepEmission(t[n], n).events);
    }
  }

  /** The inner loop raises exactly when some message is unsplittable. */
  lemma {:induction false} MessagesFailIff(ms: seq<Message>)
    ensures MessagesEmission(ms).status == SplitIndexError <==> exists j :: 0 <= j < |ms| && Unsplittable(ms[j])
    decreases |ms|
  {
    if ms != [] {
      var n := |ms| - 1;
      MessagesFailIff(ms[..n]);
      ExistsSnoc(ms, ms[..n], Unsplittable);
    }
  }

  /** One step raises exactly when its reason extraction does. */
  lemma StepFailsIff(step: Step, index: nat)
    ensures StepEmission(step, index).status == SplitIndexError <==> StepFails(step)
  {
    match step
    case DictStep(_, Some(ms)) => MessagesFailIff(ms);
    case _ =>
  }

  /** `analyze_trace` raises exactly when some dictionary step has a message
      whose content passes the reason check but lacks the colon. */
  lemma {:induction false} TraceFailsIff(t: seq<Step>)
    ensures TraceEmission(t).status == SplitIndexError <==> exists i :: 0 <= i < |t| && StepFails(t[i])
    decreases |t|
  {
    if t != [] {
      var n := |t| - 1;
      TraceFailsIff(t[..n]);
      StepFailsIff(t[n], n);
      ExistsSnoc(t, t[..n], StepFails);
    }
  }

  /** Once the inner loop has raised on a prefix, later messages add nothing. */
  lemma {:induction false} MessagesStopAtError(ms: seq<Message>, k: nat)
    requires k <= |ms| && MessagesEmission(ms[..k]).status == SplitIndexError
    ensures MessagesEmission(ms) == MessagesEmission(ms[..k])
    decreases |ms| - k
  {
    if k < |ms| {
      MessagesNext(ms, k);
      MessagesStopAtError(ms, k + 1);
    } else {
      assert ms[..k] == ms;
    }
  }

  /** Once the outer loop has raised on a prefix, later steps add nothing. */
  lemma {:induction false} TraceStopsAtError(t: seq<Step>, k: nat)
    requires k <= |t| && TraceEmission(t[..k]).status == SplitIndexError
    ensures TraceEmission(t) == TraceEmission(t[..k])
    decreases |t| - k
  {
    if k < |t| {
      TraceNext(t, k);
      TraceStopsAtError(t, k + 1);
    } else {
      assert t[..k] == t;
    }
  }

  /** Lines are only ever appended: whatever the analysis of a prefix of the
      trace logs is logged, first, by the analysis of the whole trace, even
      when a later step raises. */
  lemma {:induction false} TraceLogGrows(t: seq<Step>, k: nat)
    requires k <= |t| && TraceEmission(t[..k]).status == Done
    ensures TraceEmission(t[..k]).events <= TraceEmission(t).events
    decreases |t| - k
  {
    if k < |t| {
      TraceNext(t, k);
      var here, next := TraceEmission(t[..k]), TraceEmission(t[..k + 1]);
      assert next.events == here.events + StepEmission(t[k], k).events;
      if next.status == Done {
        TraceLogGrows(t, k + 1);
      } else {
        TraceStopsAtError(t, k + 1);
      }
    } else {
      assert t[..k] == t;
    }
  }

  /** One more step of the outer loop. */
  lemma TraceNext(t: seq<Step>, i: nat)
    requires i < |t|
    ensures TraceEmission(t[..i + 1]) == Then(TraceEmission(t[..i]), StepEmission(t[i], i))
  {
    assert t[..i + 1][..i] == t[..i];
  }

  /** One more message of the inner loop. */
  lemma MessagesNext(ms: seq<Message>, j: nat)
    requires j < |ms|
    ensures MessagesEmission(ms[..j + 1]) == Then(MessagesEmission(ms[..j]), MessageEmission(ms[j]))
  {
    assert ms[..j + 1][..j] == ms[..j];
  }

  // ---------------------------------------------------------------------------
  // Case sensitivity
  // ---------------------------------------------------------------------------

  /** The scan is case-insensitive: a step is matched exactly when the same
      step with its rendering lower-cased is. */
  lemma ScanIgnoresCase(rendering: string, ms: Option<seq<Message>>)
    ensures IsHit(DictStep(rendering, ms)) <==> IsHit(DictStep(Lower(rendering), ms))
  {
    LowerIdempotent(rendering);
  }

  /** Any spelling of "handoff" in any mix of cases ("HandOff", "HANDOFF",
      ...) in the rendering of a dictionary step makes it a match. */
  lemma KeywordInAnyCase(step: Step, t: string)
    requires step.DictStep? && Lower(t) == TraceKeyword && Contains(step.rendering, t)
    ensures IsHit(step)
  {
    LowerKeepsContains(step.rendering, t);
  }

  /** The reason check is case-sensitive: a content with no upper-case letter
      (such as "handoff reason: ...") yields no `Reason` line and no error. */
  lemma ReasonCheckHonoursCase(m: Message)
    requires Lower(ContentOf(m)) == ContentOf(m)
    ensures MessageEmission(m) == Emission([], Done)
  {
    var c := ContentOf(m);
    LowerHasNoProbe(c);
    MarkerHasProbe(c);
  }

  /** A text that lower-casing leaves unchanged does not contain the probe. */
  lemma LowerHasNoProbe(c: string)
    ensures Lower(c) == c ==> !Contains(c, ReasonProbe)
  {
    ContainsOccurs(c, ReasonProbe);
    forall i: nat | OccursAt(c, ReasonProbe, i)
      ensures Lower(c) != c
    {
      ProbeIsNotLower(c, i);
    }
  }

  /** Where the probe occurs, lower-casing changes its leading `H`. */
  lemma ProbeIsNotLower(c: string, i: nat)
    requires OccursAt(c, ReasonProbe, i)
    ensures Lower(c) != c
  {
    assert c[i] == c[i..i + |ReasonProbe|][0];
    assert Lower(c)[i] == LowerChar(c[i]);
  }

  /** A message with no `content` key is treated as empty and yields nothing. */
  lemma MissingContentYieldsNothing(m: Message)
    requires m.content.None?
    ensures MessageEmission(m) == Emission([], Done)
  {
    assert !OccursAt("", ReasonProbe, 0);
    ContainsOccurs("", ReasonProbe);
    ContainsOccurs("", ReasonMarker);
  }

  /** Python's `repr` of a string escapes only quotes, backslashes and
      non-printable characters, so a dictionary whose `messages` is a list
      or tuple of plain dictionaries, one of them with a `str` content that
      passes the reason check, has the probe in its rendering. Such a step
      is also matched by the scan: the reason line comes with a trace line. */
  lemma ReasonStepIsHit(step: Step)
    requires step.DictStep? && Contains(step.rendering, ReasonProbe)
    ensures IsHit(step)
  {
    var r := step.rendering;
    ContainsOccurs(r, ReasonProbe);
    ContainsOccurs(Lower(r), TraceKeyword);
    var i: nat :| OccursAt(r, ReasonProbe, i);
    KeywordWhereProbe(r, i);
  }

  /** Where the probe "HANDOFF REASON" occurs, the lower-cased text has
      "handoff". */
  lemma KeywordWhereProbe(s: string, i: nat)
    requires OccursAt(s, ReasonProbe, i)
    ensures OccursAt(Lower(s), TraceKeyword, i)
  {
    var l := Lower(s);
    forall k | 0 <= k < |TraceKeyword|
      ensures l[i..i + |TraceKeyword|][k] == TraceKeyword[k]
    {
      assert s[i + k] == s[i..i + |ReasonProbe|][k];
    }
  }

  // ---------------------------------------------------------------------------
  // Properties of track_response
  // ---------------------------------------------------------------------------

  /** An absent or empty trace is not analysed: the call logs the header,
      the responder check and the separator, and nothing from the trace. */
  lemma NoTraceNoAnalysis(r: RunResult, agentName: string)
    requires r.trace.None? || r.trace == Some([])
    ensures var e := ResponseEmission(r, agentName);
      && e.status == Done
      && e.events == [Header(agentName)] + MismatchEvents(r) + [Separator]
      && forall x :: x in e.events ==> !x.TraceHit? && !x.Reason?
  {
  }

  /** The call logs a `Mismatch` line naming `n` exactly when it completes and
      the result was answered by `n`, an agent other than "Customer Service". */
  lemma MismatchIff(r: RunResult, agentName: string, n: string)
    ensures var e := ResponseEmission(r, agentName);
      Mismatch(n) in e.events <==> e.status == Done && r.agentName == Some(n) && n != TriageAgentName
  {
    var t := TraceEmissionOf(r);
    if r.trace.Some? {
      TraceKinds(r.trace.value);
    }
    assert Mismatch(n) !in t.events;
  }

  /** The order of `track_response`'s lines: the header first, then the
      trace's lines, then at most one `Mismatch`, then the separator; when
      the analysis raises, the header and the trace lines logged so far. */
  lemma ResponseOrder(r: RunResult, agentName: string)
    ensures var e, t := ResponseEmission(r, agentName), TraceEmissionOf(r);
      && e.status == t.status
      && |e.events| >= 1 && e.events[0] == Header(agentName)
      && e.events[1..1 + |t.events|] == t.events
      && (forall x :: x in t.events ==> x.TraceHit? || x.Reason?)
      && (e.status == SplitIndexError ==> |e.events| == 1 + |t.events|)
      && (e.status == Done ==>
            var rest := e.events[1 + |t.events|..];
            && 1 <= |rest| <= 2
            && rest[|rest| - 1] == Separator
            && (|rest| == 2 ==> rest[0].Mismatch?))
  {
    var e, t := ResponseEmission(r, agentName), TraceEmissionOf(r);
    if r.trace.Some? {
      TraceKinds(r.trace.value);
    }
    assert e.events[1..1 + |t.events|] == t.events;
  }

  /** The `agent_name` argument only names the header: two calls that differ
      in it log the same lines after the header and end the same way. */
  lemma HeaderOnlyUsesName(r: RunResult, name1: string, name2: string)
    ensures var e1, e2 := ResponseEmission(r, name1), ResponseEmission(r, name2);
      && e1.status == e2.status
      && e1.events[0] == Header(name1) && e2.events[0] == Header(name2)
      && e1.events[1..] == e2.events[1..]
  {
    var t := TraceEmissionOf(r);
    var rest := if t.status == Done then t.events + (MismatchEvents(r) + [Separator]) else t.events;
    AppendAssoc([Header(name1)], t.events, MismatchEvents(r) + [Separator]);
    AppendAssoc([Header(name2)], t.events, MismatchEvents(r) + [Separator]);
    assert ResponseEmission(r, name1).events == [Header(name1)] + rest;
    assert ResponseEmission(r, name2).events == [Header(name2)] + rest;
  }

  /** The call raises exactly when the result has a trace with a step whose
      reason extraction raises. */
  lemma ResponseFailsIff(r: RunResult, agentName: string)
    ensures ResponseEmission(r, agentName).status == SplitIndexError <==>
      r.trace.Some? && exists i :: 0 <= i < |r.trace.value| && StepFails(r.trace.value[i])
  {
    if r.trace.Some? {
      TraceFailsIff(r.trace.value);
    }
  }
}
