/**
 * `explain_concept`: a case-insensitive lookup of a question in an ordered
 * table of phrases. The first phrase that occurs in the lower-cased
 * question picks the explanation; no occurrence gives a fixed fallback.
 */
module Concepts {
  import opened Wrappers
  import opened Text

  /** One row of the table: a trigger phrase and the text it returns. */
  datatype Entry = Entry(phrase: string, explanation: string)

  const CompoundInterestPhrase := "compound interest"
  const DiversificationPhrase := "diversification"

  const CompoundInterestText := "Compound interest is interest on both principal and accumulated interest."
  const DiversificationText := "Diversification mixes different investments to reduce risk."
  const NoExplanation := "No explanation available."

  /** The table, in the order a Python dict literal iterates it. */
  const Mapping: seq<Entry> := [
    Entry(CompoundInterestPhrase, CompoundInterestText),
    Entry(DiversificationPhrase, DiversificationText)
  ]

  /** How the function is called: positional arguments and keyword arguments. */
  datatype Call = Call(positional: seq<string>, keywords: map<string, string>)

  /** The query: the first positional argument, else the `query` keyword, else "". */
  function QueryOf(call: Call): (q: string)
    ensures |call.positional| > 0 ==> q == call.positional[0]
    ensures |call.positional| == 0 && "query" in call.keywords ==> q == call.keywords["query"]
    ensures |call.positional| == 0 && "query" !in call.keywords ==> q == ""
  {
    if |call.positional| > 0 then call.positional[0]
    else if "query" in call.keywords then call.keywords["query"]
    else ""
  }

  predicate Matches(e: Entry, q: string) {
    Contains(q, e.phrase)
  }

  /**
   * The index of the first row whose phrase occurs in `q`: every earlier
   * row fails to match; `None` when no row matches.
   */
  function FirstMatch(table: seq<Entry>, q: string): (r: Option<nat>)
    ensures r.Some? ==> r.value < |table| && Matches(table[r.value], q)
    ensures r.Some? ==> forall j :: 0 <= j < r.value ==> !Matches(table[j], q)
    ensures r.None? <==> forall j :: 0 <= j < |table| ==> !Matches(table[j], q)
  {
    if table == [] then None
    else if Matches(table[0], q) then Some(0)
    else match FirstMatch(table[1..], q)
      case None => None
      case Some(k) => Some(k + 1)
  }

  /** The lookup on an already extracted query string. */
  function Explain(query: string): (r: string)
    ensures r == CompoundInterestText || r == DiversificationText || r == NoExplanation
  {
    match FirstMatch(Mapping, Lower(query))
    case None => NoExplanation
    case Some(k) => Mapping[k].explanation
  }

  /** `explain_concept(*args, **kwargs)`. */
  function ExplainConcept(call: Call): (r: string)
    ensures r == CompoundInterestText || r == DiversificationText || r == NoExplanation
  {
    Explain(QueryOf(call))
  }

  /** The result is the explanation of the first row that matches. */
  lemma ExplainIsFirstMatch(query: string, k: nat)
    requires k < |Mapping| && Matches(Mapping[k], Lower(query))
    requires forall j :: 0 <= j < k ==> !Matches(Mapping[j], Lower(query))
    ensures Explain(query) == Mapping[k].explanation
  {
  }

  /** "compound interest" is the first row: it wins even if "diversification" also occurs. */
  lemma CompoundInterestWins(query: string)
    requires Contains(Lower(query), CompoundInterestPhrase)
    ensures Explain(query) == CompoundInterestText
  {
  }

  /** "diversification" answers only when "compound interest" does not occur. */
  lemma DiversificationWhenNoCompoundInterest(query: string)
    requires Contains(Lower(query), DiversificationPhrase)
    requires !Contains(Lower(query), CompoundInterestPhrase)
    ensures Explain(query) == DiversificationText
  {
    ExplainIsFirstMatch(query, 1);
  }

  /** The fallback is returned exactly when no phrase occurs in the lower-cased query. */
  lemma FallbackIffNoPhrase(query: string)
    ensures Explain(query) == NoExplanation <==>
      !Contains(Lower(query), CompoundInterestPhrase) && !Contains(Lower(query), DiversificationPhrase)
  {
    var r := FirstMatch(Mapping, Lower(query));
    if r.Some? {
      assert Explain(query) != NoExplanation;
      assert Matches(Mapping[r.value], Lower(query));
    } else {
      assert !Matches(Mapping[0], Lower(query));
      assert !Matches(Mapping[1], Lower(query));
    }
  }

  /** The answer does not depend on letter case: `q` and `q.lower()` get the same answer. */
  lemma {:induction false} CaseInsensitive(query: string)
    ensures Explain(Lower(query)) == Explain(query)
  {
    LowerIdempotent(query);
  }

  /** Called with no positional argument and no `query` keyword, the answer is the fallback. */
  lemma DefaultQueryFallsBack(call: Call)
    requires |call.positional| == 0 && "query" !in call.keywords
    ensures ExplainConcept(call) == NoExplanation
  {
  }

  /** A positional argument takes precedence over the `query` keyword. */
  lemma PositionalBeatsKeyword(q: string, rest: seq<string>, keywords: map<string, string>)
    ensures ExplainConcept(Call([q] + rest, keywords)) == Explain(q)
  {
  }

  /** Mentioning the phrase anywhere, whatever surrounds it, selects compound interest. */
  lemma CompoundInterestAnywhere(before: string, after: string)
    ensures Explain(before + CompoundInterestPhrase + after) == CompoundInterestText
  {
    FoundAfterLowering(before, CompoundInterestPhrase, after);
    CompoundInterestWins(before + CompoundInterestPhrase + after);
  }

  /** The question from the agent's prompt template gets the compound-interest text. */
  lemma PromptExample()
    ensures Explain("What is compound interest?") == CompoundInterestText
  {
    assert "What is compound interest?" == "What is " + CompoundInterestPhrase + "?";
    CompoundInterestAnywhere("What is ", "?");
  }

  /** A question that mentions the phrase mid-sentence gets the compound-interest text. */
  lemma CompoundInterestExample()
    ensures Explain("Tell me about compound interest please") == CompoundInterestText
  {
    assert "Tell me about compound interest please" == "Tell me about " + CompoundInterestPhrase + " please";
    CompoundInterestAnywhere("Tell me about ", " please");
  }

  /** A query shorter than every phrase gets the fallback. */
  lemma ShortQueryFallsBack(query: string)
    requires |query| < |DiversificationPhrase|
    ensures Explain(query) == NoExplanation
  {
    FallbackIffNoPhrase(query);
  }

  /** The three-letter query "xyz" gets the fallback. */
  lemma ShortQueryExample()
    ensures Explain("xyz") == NoExplanation
  {
    ShortQueryFallsBack("xyz");
  }
}
