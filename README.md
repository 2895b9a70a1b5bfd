# Handoff tracker

This project models the `HandoffTracker` class of the customer-service agent example (`handoffs.py`) and proves properties of the model. The tracker watches agent runs and writes lines to the `handoff_logger` logger:

- `track_run` logs the agent's name and then the request.
- `track_response` does four things in order:
  1. It logs a header naming the agent.
  2. It analyses the result's trace, if the result has a non-empty one.
  3. It reports a different final responder: any answering agent other than "Customer Service".
  4. It logs a separator of fifty `=`.
- `analyze_trace` runs two checks on each step of the trace, in order:
  - A case-insensitive scan. A dictionary step whose rendering contains `handoff` once lower-cased gets a "HANDOFF TRACE" line.
  - A case-sensitive extraction. Every message content that contains `HANDOFF REASON` is split on `HANDOFF REASON:`. The stripped second piece is logged as the reason.

The project has three modules:

- `Text` (`text.dfy`) holds the Python string operations the tracker relies on, as pure functions:
  - `t in s` (`Contains`, via `IndexOf`);
  - `s.lower()` (`Lower`);
  - `s.split(sep)` (`Split`, with `Join` as its inverse);
  - `s.strip()` (`Strip`).
- `HandoffLog` (`handoff_log.dfy`) holds the data and the specification.
  - The data: messages, steps, run results and log lines (`Event`).
  - The specification: for each call, the lines it logs and how it ends (`Emission`).
  - Independent reference views of the log: which steps are matched, which reasons are named, and when a call fails.
  - The lemmas that connect the two.
- `Handoffs` (`tracker.dfy`) holds the `HandoffTracker` class itself.
  - Its log sink is a field `log: seq<Event>` that every method appends to, one line at a time.
  - `handoffs` is the list the constructor creates. No method changes it.
  - The two loops of `analyze_trace` are `while` loops whose invariants tie `log` to the specification functions.
  - `TrackRequest` is the caller in `handle_customer_request`: a `track_run` followed by a `track_response` on the same tracker.

## How the model reads the source

- **The `IndexError` is an error outcome.**
  - The reason check looks for `HANDOFF REASON`, without the colon, but the split is on `HANDOFF REASON:`.
  - A content with the probe but no colon therefore makes `split(...)[1]` raise `IndexError`.
  - The model returns this as `Status.SplitIndexError`. Lines logged before the error stay in the log.
  - The rest of `track_response` does not run: no mismatch line and no separator.
- **The reference name is a literal.** The responder check compares with the literal `"Customer Service"` (`handoffs.py:61`), not with the `agent_name` argument. The model does the same.
- **A reason runs to the next marker.** The logged reason is the text after the first marker, up to the next marker or the end of the content. This is what `split(...)[1]` yields.
- **Whitespace is Python's.** `Strip` removes exactly the characters Python's `str.isspace` accepts, written out by code point.

## Model

| member | source | states |
|---|---|---|
| Text.IndexOf | handoffs.py:73-80 | The definition of Python's `s.find(t)`. It reports an occurrence, and `Text.IndexOfLeftmost` proves no occurrence lies before it. |
| Text.Contains | handoffs.py:73-80 | The definition of `t in s`. `Text.ContainsOccurs` proves it holds exactly when `t` occurs at some position of `s`. |
| Text.Lower | handoffs.py:73 | The definition of `s.lower()`: the same length, and each character lower-cased in place. `LowerKeepsContains` and `LowerIdempotent` characterise it. |
| Text.Split | handoffs.py:81 | The definition of `s.split(sep)`: at least one piece. `SplitMany`, `SplitPiecesFree`, `JoinSplit` and `SecondPieceSegment` characterise it. |
| Text.SplitMany | handoffs.py:81 | `split` yields a second piece exactly when the separator occurs. This is the condition under which `[1]` does not raise. |
| Text.SplitPiecesFree | handoffs.py:81 | No piece of a split contains the separator. |
| Text.JoinSplit | handoffs.py:81 | Joining the pieces back with the separator gives the original string: the split loses nothing. |
| Text.SecondPieceSegment | handoffs.py:81 | The second piece is the text that starts right after the first separator and runs up to the next separator or the end. No occurrence of the separator starts inside it. |
| Text.SegmentUnique | handoffs.py:81 | At most one such segment starts at a given position, even for a separator that overlaps itself. So the second piece is the only text with that description. |
| Text.Strip | handoffs.py:81 | The stripped text is no longer than the input and has no white space at either end. |
| Text.StripSlice | handoffs.py:81 | The stripped text is a contiguous slice of the input, and everything before and after that slice is white space. |
| Text.StripPadded | handoffs.py:81 | Stripping a string padded with white space gives back the string, for any string without white space at either end. With `StripSlice`, this fixes the result uniquely. |
| Text.LowerKeepsContains | handoffs.py:73 | Lower-casing keeps every substring occurrence, now as the lower-cased substring. |
| Text.LowerIdempotent | handoffs.py:73 | Lower-casing twice is the same as lower-casing once. |
| HandoffLog.ContentOf | handoffs.py:79 | The definition of `message.get('content', '')`. `MissingContentYieldsNothing` gives its consequence for a message without the key. |
| HandoffLog.IsHit | handoffs.py:73 | The definition of the step scan. `ScanIgnoresCase`, `KeywordInAnyCase`, `ReasonStepIsHit` and `HitsExact` characterise it. |
| HandoffLog.Unsplittable | handoffs.py:80-81 | The definition of the failing case: the probe without the marker. `MessageEmission` and `MessagesFailIff` prove it is exactly when the split raises. |
| HandoffLog.HitEmission | handoffs.py:73-74 | The definition of the scan's line for one step. `HitsExact` characterises the lines over a whole trace. |
| HandoffLog.MessagesEmission | handoffs.py:78-82 | The definition of the inner loop. `MessagesReasonsInOrder`, `MessagesFailIff` and `MessagesStopAtError` characterise it. |
| HandoffLog.TraceEmission | handoffs.py:72-82 | The definition of the outer loop. `HitsExact`, `ReasonsInOrder`, `TraceFailsIff`, `TraceStopsAtError` and `TraceLogGrows` characterise it. |
| HandoffLog.TraceEmissionOf | handoffs.py:57-58 | The definition of the guard on the analysis: it runs only for a present, non-empty trace. `NoTraceNoAnalysis` characterises it. |
| HandoffLog.MismatchEvents | handoffs.py:61-62 | The definition of the responder check. `MismatchIff` characterises it. |
| HandoffLog.ResponseEmission | handoffs.py:53-64 | The definition of `track_response`'s lines. `ResponseOrder`, `MismatchIff`, `HeaderOnlyUsesName` and `ResponseFailsIff` characterise it. |
| HandoffLog.RunEvents | handoffs.py:49-51 | `track_run` logs exactly two lines: the agent's name, then the request. |
| HandoffLog.ReasonOf | handoffs.py:80-81 | A message names a reason exactly when its content contains the marker `HANDOFF REASON:`. |
| HandoffLog.ReasonIsNextSegment | handoffs.py:81 | The named reason is the stripped text after the first marker, up to the next marker or the end of the content. |
| HandoffLog.MessageEmission | handoffs.py:79-82 | One message raises exactly when its content has the probe but not the marker, and then logs nothing. Otherwise it logs exactly the reason it names, or nothing if it names none. |
| HandoffLog.MissingContentYieldsNothing | handoffs.py:79 | A message with no `content` key is read as `''`: it logs nothing and does not raise. |
| HandoffLog.ReasonCheckHonoursCase | handoffs.py:80 | The reason check is case-sensitive: a content already in lower case never yields a reason and never raises. |
| HandoffLog.ScanIgnoresCase | handoffs.py:73 | The step scan ignores case: a rendering matches exactly when its lower-cased form matches. |
| HandoffLog.KeywordInAnyCase | handoffs.py:73 | A dictionary step whose rendering contains `handoff` in any mix of cases (`HandOff`, `HANDOFF`, ...) is matched by the scan. |
| HandoffLog.StepEmission | handoffs.py:72-77 | A step that is not a dictionary logs nothing from either check and never raises. |
| HandoffLog.ReasonStepIsHit | handoffs.py:73-80 | A dictionary step whose rendering contains the probe `HANDOFF REASON` is also matched by the scan, because `handoff` is the lower case of the probe's first word. Python's `repr` keeps the probe as written inside a string value. So when `messages` is a list or tuple of plain dictionaries with `str` contents, a step holding a message that passes the reason check is always such a step. |
| HandoffLog.HitsExact | handoffs.py:72-74 | A completed analysis logs exactly one `TraceHit` per matched step, none for any other step, in increasing step order. |
| HandoffLog.ReasonsInOrder | handoffs.py:72-82 | The reasons a completed analysis logs are exactly the reasons named by the messages, message by message and step by step. |
| HandoffLog.MessagesFailIff | handoffs.py:78-81 | The message loop raises exactly when some message has the probe but not the marker. |
| HandoffLog.TraceFailsIff | handoffs.py:72-81 | The analysis raises exactly when some step has such a message. |
| HandoffLog.TraceStopsAtError | handoffs.py:72-82 | Once a prefix of the trace has raised, the steps after it change nothing: the analysis ends there. |
| HandoffLog.TraceLogGrows | handoffs.py:72-82 | While no error has occurred, the lines logged for a prefix of the trace are a prefix of the lines logged for the whole trace. |
| HandoffLog.NoTraceNoAnalysis | handoffs.py:57-58 | An absent or empty trace gives no trace or reason lines. The call still logs the header, the responder check and the separator, and it completes. |
| HandoffLog.MismatchIff | handoffs.py:61-62 | A `Mismatch` naming `n` is logged exactly when the call completes and the result was answered by `n`, an agent other than "Customer Service". |
| HandoffLog.ResponseOrder | handoffs.py:53-64 | `track_response` logs the header first, then exactly the trace's lines, then at most one `Mismatch`, then the separator. If the call raises, it logs only the header and the trace lines. |
| HandoffLog.HeaderOnlyUsesName | handoffs.py:54 | The `agent_name` argument is used only in the header. Two calls that differ in it log the same lines after the header and end the same way. |
| HandoffLog.ResponseFailsIff | handoffs.py:53-64 | `track_response` raises exactly when the result has a trace with a step whose reason extraction raises. |
| Handoffs.HandoffTracker.constructor | handoffs.py:46-47 | A new tracker has an empty `handoffs` list and an empty log. |
| Handoffs.HandoffTracker.TrackRun | handoffs.py:49-51 | Only `log` changes: the two lines of `RunEvents` are appended to it. |
| Handoffs.HandoffTracker.TrackResponse | handoffs.py:53-64 | Only `log` changes. It gains exactly the lines of `ResponseEmission`, and the returned status is how the call ended. |
| Handoffs.HandoffTracker.AnalyzeTrace | handoffs.py:66-82 | The outer loop appends exactly the lines of `TraceEmission` for the trace and returns its status. A loop invariant holds this step by step, and the loop stops at the first error. |
| Handoffs.HandoffTracker.AnalyzeStep | handoffs.py:72-82 | One pass of the outer loop appends exactly the lines of `StepEmission` for that step. |
| Handoffs.HandoffTracker.ExtractReasons | handoffs.py:77-82 | The inner loop appends exactly the lines of `MessagesEmission` and returns at the first message whose split has one piece. |
| Handoffs.TrackRequest | handoffs.py:84-95 | The tracker calls of `handle_customer_request`: the run lines, then the response lines. `handoffs` is left unchanged. |

Calls are deterministic because each method's new `log` is a function of its arguments and the old `log`. So two `track_response` calls on the same result append identical lines. The result is a value, so nothing can alter it.

## Left out

- The agent definitions, `Runner().run(...)` and `asyncio`. They call an external language-model library whose routing decisions cannot be stated. `TrackRequest` takes the run result as a parameter.
- `load_dotenv`, the logging configuration and the timestamps in the log format. These are environment and I/O plumbing. The logger is the `log` field.
- The `print("trace", trace)` debug output (`handoffs.py:70`). It is console output with no effect on the log.
- The exact `str(step)` rendering and the `json.dumps(step, indent=2)` payload. A step's rendering is an abstract string, and a `TraceHit` line carries the step's index instead of the JSON text.
- HandoffLog.ReasonStepIsHit: it does not connect a step's messages to its rendering. When `messages` is an iterator or another object whose `repr` does not show its items, the rendering lacks the content. The loop still logs the reason, but the step gets no trace line.
- A `json.dumps` failure. For a matched step with a value JSON cannot encode, the source raises `TypeError`, or `ValueError` on a circular reference, before the trace line is logged. This ends `analyze_trace`. The model assumes every matched step can be encoded: `HitEmission` always logs `TraceHit(index)` and never fails.
- `hasattr` checks on the library's result object. The trace and the agent name are `Option` fields of `RunResult`.
- Truthiness of a trace that is not a list. The trace is a sequence, empty or not.
- A `messages` entry that is not iterable (such as `None` or a number), and messages that are not dictionaries. In the source these raise `TypeError` or `AttributeError`. In the model `messages` is a sequence, and every message is a record with an optional content.
- A `content` value that is not a string. The model's `content` is either absent, read as `''`, or a string. In the source a `content` key holding `None` makes `'HANDOFF REASON' in content` raise `TypeError`, and a list or other container turns it into a membership test. That failure path is not modelled, so `MessagesFailIff`, `TraceFailsIff` and `ResponseFailsIff` cover string contents only.
- Text.Lower: it lower-cases only the ASCII letters `A`-`Z`. Python's `str.lower` folds all of Unicode. The case-insensitive scan is for the ASCII word `handoff`, and the reason probe is ASCII.
- `analyze_trace`'s nested loop is split across `AnalyzeTrace`, `AnalyzeStep` and `ExtractReasons`, one method per loop body. The order of the appended lines is the same.
- main.py is not part of this model. It only hands work to the language model and prints the results.
