/**
 * The static tool list handed to the agent: each tool has a name, a
 * description and the function the agent calls with its single string
 * input. Tools are looked up by exact name.
 */
module Tools {
  import opened Wrappers
  import Clock
  import Concepts

  /** The Python function behind a tool. */
  datatype Handler = TimeHandler | ConceptHandler

  datatype Tool = Tool(name: string, handler: Handler, description: string)

  const Registry: seq<Tool> := [
    Tool("Time", TimeHandler, "Useful for when you need to know the current time"),
    Tool("Concept Explainer", ConceptHandler, "Explain a finance concept simply.")
  ]

  /** No two tools of the list share a name. */
  predicate DistinctNames(tools: seq<Tool>) {
    forall i, j :: 0 <= i < j < |tools| ==> tools[i].name != tools[j].name
  }

  /**
   * A tool called exactly `name`, or `None` when no tool has that name.
   * With duplicate names it would be the first; the registry has none.
   */
  function Find(tools: seq<Tool>, name: string): (r: Option<nat>)
    ensures r.Some? ==> r.value < |tools| && tools[r.value].name == name
    ensures r.Some? ==> forall j :: 0 <= j < r.value ==> tools[j].name != name
    ensures r.None? <==> forall j :: 0 <= j < |tools| ==> tools[j].name != name
  {
    if tools == [] then None
    else if tools[0].name == name then Some(0)
    else match Find(tools[1..], name)
      case None => None
      case Some(k) => Some(k + 1)
  }

  /** The registered names are pairwise different. */
  lemma RegistryNamesDistinct()
    ensures DistinctNames(Registry)
  {
  }

  /** With distinct names, looking a tool up by its own name finds that very tool. */
  lemma FindIsUnambiguous(tools: seq<Tool>, i: nat)
    requires DistinctNames(tools) && i < |tools|
    ensures Find(tools, tools[i].name) == Some(i)
  {
  }

  /** Both registered names resolve, each to its own tool. */
  lemma RegistryLookup()
    ensures Find(Registry, "Time") == Some(0)
    ensures Find(Registry, "Concept Explainer") == Some(1)
  {
  }

  /**
   * Running a tool on the agent's input: the input is passed as the one
   * positional argument; the time tool ignores it and formats the clock
   * reading `now`.
   */
  function Run(tool: Tool, input: string, now: Clock.Reading): (out: string)
    ensures tool.handler == TimeHandler ==> Clock.IsTwelveHourTime(out)
    ensures tool.handler == TimeHandler ==> Clock.ParseTime(out) == Some(now)
    ensures tool.handler == ConceptHandler ==>
      out in {Concepts.CompoundInterestText, Concepts.DiversificationText, Concepts.NoExplanation}
  {
    Clock.ParseFormat(now);
    match tool.handler
    case TimeHandler => Clock.FormatTime(now)
    case ConceptHandler => Concepts.ExplainConcept(Concepts.Call([input], map[]))
  }

  /** The time tool's answer does not depend on what the agent passed it. */
  lemma TimeIgnoresInput(a: string, b: string, now: Clock.Reading)
    ensures Run(Registry[0], a, now) == Run(Registry[0], b, now)
  {
  }

  /** The concept tool answers the lookup of exactly the text it was given. */
  lemma ConceptToolExplainsInput(input: string, now: Clock.Reading)
    ensures Run(Registry[1], input, now) == Concepts.Explain(input)
  {
  }
}
