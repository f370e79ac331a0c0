/**
 * The body of the `/query` endpoint: the agent executor's terminal result
 * is turned into `{"response": <text>}` by a fixed priority order, and an
 * exception raised on the way becomes an HTTP 500 error.
 *
 * Python's `str(...)` is not modelled: every function here takes it as a
 * parameter (`show` for values, `showResult` for whole results), so each
 * property holds whatever text `str` produces.
 */
module Server {
  import opened Wrappers

  /** A Python value as far as the selection inspects it: only tuples are looked into. */
  datatype Value =
    | Str(text: string)
    | Tuple(items: seq<Value>)
    | Object(typeName: string)

  /**
   * The executor's terminal result: either an `AgentFinish` with its
   * `return_values`, or the output dictionary, whose `intermediate_steps`
   * entry is `None` when the key is absent; `others` holds the remaining keys.
   * A Python dict has each key once, so `others` is taken never to hold the
   * key "intermediate_steps" itself; no property below depends on that.
   */
  datatype AgentResult =
    | Finish(returnValues: map<string, string>, log: string)
    | Dict(intermediateSteps: Option<seq<Value>>, others: map<string, Value>)

  /** What the executor's `invoke` did: returned a result or raised an exception with text `message`. */
  datatype Outcome = Returned(result: AgentResult) | Raised(message: string)

  /** The endpoint's answer: a JSON object, or an `HTTPException`. */
  datatype Reply = Ok(body: map<string, string>) | HttpError(status: int, detail: string)

  const ResponseKey := "response"
  const OutputKey := "output"
  const NoOutput := "No output"
  const ErrorPrefix := "Internal error: "

  /** A step the endpoint can read an observation from: a tuple of at least two items. */
  predicate IsObservationStep(step: Value) {
    step.Tuple? && |step.items| > 1
  }

  /**
   * The text of the response for a result, by the endpoint's if-chain: it
   * is the first candidate the three priority rules offer.
   */
  function SelectResponse(result: AgentResult, show: Value -> string, showResult: AgentResult -> string): (text: string)
    ensures Some(text) == FirstPresent(Candidates(result, show, showResult))
  {
    var cs := Candidates(result, show, showResult);
    assert cs[1..][1..] == [cs[2]];
    if result.Finish? then
      if OutputKey in result.returnValues then result.returnValues[OutputKey] else NoOutput
    else if result.intermediateSteps.Some? && |result.intermediateSteps.value| > 0
         && IsObservationStep(result.intermediateSteps.value[|result.intermediateSteps.value| - 1]) then
      show(result.intermediateSteps.value[|result.intermediateSteps.value| - 1].items[1])
    else
      showResult(result)
  }

  /** `query_finance` after the executor has run. */
  function QueryFinance(outcome: Outcome, show: Value -> string, showResult: AgentResult -> string): (reply: Reply)
    ensures reply.Ok? <==> outcome.Returned?
    ensures reply.Ok? ==> reply.body.Keys == {ResponseKey}
    ensures reply.Ok? ==> reply.body[ResponseKey] == SelectResponse(outcome.result, show, showResult)
    ensures outcome.Raised? ==> reply.HttpError? && reply.status == 500
    ensures outcome.Raised? ==> |reply.detail| == |ErrorPrefix| + |outcome.message|
    ensures outcome.Raised? ==> reply.detail[..|ErrorPrefix|] == ErrorPrefix
    ensures outcome.Raised? ==> reply.detail[|ErrorPrefix|..] == outcome.message
  {
    match outcome
    case Returned(result) => Ok(map[ResponseKey := SelectResponse(result, show, showResult)])
    case Raised(message) => HttpError(500, ErrorPrefix + message)
  }

  // An independent statement of the priority order: each rule offers a
  // candidate or nothing, and the first rule that offers one decides.

  /** Rule 1: a finished result offers its output, or "No output" without one. */
  function FinishedOutput(result: AgentResult): (r: Option<string>)
    ensures r.Some? <==> result.Finish?
  {
    match result
    case Finish(values, _) => Some(if OutputKey in values then values[OutputKey] else NoOutput)
    case Dict(_, _) => None
  }

  /** Rule 2: the second item of the last step, when that step is a tuple of two or more items. */
  function LastObservation(result: AgentResult): (r: Option<Value>)
    ensures r.Some? ==> result.Dict? && result.intermediateSteps.Some?
  {
    match result
    case Finish(_, _) => None
    case Dict(steps, _) =>
      if steps.Some? && |steps.value| > 0 && IsObservationStep(steps.value[|steps.value| - 1])
      then Some(steps.value[|steps.value| - 1].items[1])
      else None
  }

  /** The candidates of the three rules, in priority order; the last rule always offers one. */
  function Candidates(result: AgentResult, show: Value -> string, showResult: AgentResult -> string): (cs: seq<Option<string>>)
    ensures |cs| == 3 && cs[2].Some?
  {
    [ FinishedOutput(result),
      match LastObservation(result) case Some(v) => Some(show(v)) case None => None,
      Some(showResult(result)) ]
  }

  /** The first candidate present, scanning left to right. */
  function FirstPresent(cs: seq<Option<string>>): (r: Option<string>)
    ensures r.Some? <==> exists i :: 0 <= i < |cs| && cs[i].Some?
    ensures r.Some? ==> exists i :: 0 <= i < |cs| && cs[i] == r && forall j :: 0 <= j < i ==> cs[j].None?
  {
    if cs == [] then None
    else if cs[0].Some? then cs[0]
    else
      var r := FirstPresent(cs[1..]);
      assert forall i :: 1 <= i < |cs| ==> cs[i] == cs[1..][i - 1];
      r
  }

  /** A finished result is answered from its return values alone; no step or `str` is consulted. */
  lemma FinishTakesPriority(values: map<string, string>, log: string,
                            show: Value -> string, showResult: AgentResult -> string,
                            show': Value -> string, showResult': AgentResult -> string)
    ensures SelectResponse(Finish(values, log), show, showResult) == SelectResponse(Finish(values, log), show', showResult')
    ensures OutputKey in values ==> SelectResponse(Finish(values, log), show, showResult) == values[OutputKey]
    ensures OutputKey !in values ==> SelectResponse(Finish(values, log), show, showResult) == NoOutput
  {
  }

  /** A last step that is a tuple of two or more items is answered with `str` of its second item. */
  lemma LastStepAnswers(earlier: seq<Value>, last: Value, others: map<string, Value>,
                        show: Value -> string, showResult: AgentResult -> string)
    requires IsObservationStep(last)
    ensures SelectResponse(Dict(Some(earlier + [last]), others), show, showResult) == show(last.items[1])
  {
  }

  /**
   * Python's `str` of a string is that string, so a string observation in
   * the last step is answered exactly.
   */
  lemma StringObservationAnswersExactly(earlier: seq<Value>, action: Value, observation: string,
                                        others: map<string, Value>,
                                        show: Value -> string, showResult: AgentResult -> string)
    requires forall t :: show(Str(t)) == t
    ensures SelectResponse(Dict(Some(earlier + [Tuple([action, Str(observation)])]), others), show, showResult)
         == observation
  {
    LastStepAnswers(earlier, Tuple([action, Str(observation)]), others, show, showResult);
  }

  /** Only the last step matters: the steps before it can be anything. */
  lemma OnlyLastStepMatters(earlier: seq<Value>, earlier': seq<Value>, last: Value, others: map<string, Value>,
                            show: Value -> string, showResult: AgentResult -> string)
    requires IsObservationStep(last)
    ensures SelectResponse(Dict(Some(earlier + [last]), others), show, showResult)
         == SelectResponse(Dict(Some(earlier' + [last]), others), show, showResult)
  {
  }

  /**
   * A dictionary without `intermediate_steps`, with an empty step list, or
   * whose last step is not a tuple of two or more items is answered with
   * `str` of the whole result.
   */
  lemma FallsBackToWholeResult(result: AgentResult, show: Value -> string, showResult: AgentResult -> string)
    requires result.Dict?
    requires || result.intermediateSteps.None?
             || result.intermediateSteps.value == []
             || !IsObservationStep(result.intermediateSteps.value[|result.intermediateSteps.value| - 1])
    ensures SelectResponse(result, show, showResult) == showResult(result)
  {
  }


}
