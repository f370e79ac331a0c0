# Personal financial advisor: the decision rules, modelled in Dafny

The repository puts a web endpoint in front of a ReAct agent. The agent has
two tools. Almost everything else is an imported agent framework, a local
language model and a web server. This project models the small deterministic
rules the repository itself contains, and proves properties of them:

- **Concept lookup** (`explain_concept` in `agent.py`). The query is the first
  positional argument, else the `query` keyword, else `""`. It is
  lower-cased and checked against an ordered table of phrases. The first
  phrase that occurs as a substring picks the explanation. No match gives
  "No explanation available." (module `Concepts`, with `Text` for
  lower-casing and the substring test).
- **Time formatting** (`get_current_time` in `agent.py`). `strftime("%I:%M %p")`
  turns an hour 0-23 and a minute 0-59 into `HH:MM AM` or `HH:MM PM`. `%I`,
  `%M` and `%p` follow section 7.23.3.5 of the ISO C99 standard, in the C
  locale (module `Clock`).
- **The tool list** (`tools` in `agent.py`). The two registered tools each
  have a name, a handler and a description. Lookup by name is exact (module
  `Tools`).
- **Response selection** (the body of `query_finance` in `main.py`). The
  executor's terminal result becomes `{"response": text}` by a strict
  priority order: the finished output, then the last step's observation, then
  `str` of the whole result. An exception becomes an HTTP 500 error whose
  detail is `"Internal error: "` followed by the exception text (module
  `Server`).

Files: `wrappers.dfy` (`Option`), `text.dfy`, `concepts.dfy`, `clock.dfy`,
`tools.dfy`, `server.dfy`.

Modelling choices:

- Python's `str(...)` is unknown here. Every function of `Server` takes it as
  a parameter (`show` for values, `showResult` for whole results), so each
  property holds whatever text `str` produces.
- Lower-casing covers the 26 ASCII capitals only.
- The clock reading is a parameter (`Clock.Reading`): only the formatting is
  modelled.
- The docstring of `get_current_time` says "H:MM", but `%I` pads the hour to
  two digits ("09:05 AM"). The model follows the code.
- The endpoint reads an observation only when the last step is a tuple of
  more than one item, and then returns `str` of its second item; otherwise
  it returns `str` of the whole result.

## Model

| member | source | states |
|---|---|---|
| Text.LowerChar | agent.py:30 | one character lower-cased: the result is never an ASCII capital, a capital moves to its small letter, and every other character is unchanged |
| Text.Lower | agent.py:30 | `query.lower()` keeps the length and lower-cases each character in place (ASCII) |
| Text.LowerIdempotent | agent.py:30 | lower-casing an already lower-cased string changes nothing |
| Text.Contains | agent.py:30 | `key in s`: a key that is a prefix of `s` is found, a key longer than `s` is not; `Text.ContainsCorrect` gives the full characterisation |
| Text.ContainsCorrect | agent.py:30 | the substring search `key in s` succeeds exactly when the key occurs at some index of `s` |
| Text.FoundAfterLowering | agent.py:30 | a phrase without capitals is found in the lower-cased form of any text that embeds it |
| Concepts.QueryOf | agent.py:24 | the query is the first positional argument, else the `query` keyword, else the empty string |
| Concepts.FirstMatch | agent.py:29-31 | the returned row is one whose phrase occurs in the query, and no earlier row's phrase does; `None` exactly when no row matches |
| Concepts.Explain | agent.py:25-32 | the answer is always one of the two table explanations or the fallback text |
| Concepts.ExplainConcept | agent.py:22-32 | `explain_concept` on any call answers one of the three fixed texts |
| Concepts.ExplainIsFirstMatch | agent.py:29-31 | when row k is the first row whose phrase occurs in the lower-cased query, the answer is row k's explanation |
| Concepts.CompoundInterestWins | agent.py:25-31 | a query that contains "compound interest" gets the compound-interest text, even if it also contains "diversification" |
| Concepts.DiversificationWhenNoCompoundInterest | agent.py:26-31 | a query that contains "diversification" but not "compound interest" gets the diversification text |
| Concepts.FallbackIffNoPhrase | agent.py:29-32 | the answer is "No explanation available." if and only if neither phrase occurs in the lower-cased query |
| Concepts.CaseInsensitive | agent.py:30 | a query and its lower-cased form get the same answer |
| Concepts.DefaultQueryFallsBack | agent.py:24-32 | with no positional argument and no `query` keyword the answer is the fallback |
| Concepts.PositionalBeatsKeyword | agent.py:24 | a positional argument is used even when a `query` keyword is also given |
| Concepts.CompoundInterestAnywhere | agent.py:29-31 | "compound interest" embedded in any text, in any surrounding case, selects the compound-interest text |
| Concepts.PromptExample | agent.py:63-67 | the prompt template's example question "What is compound interest?" gets the compound-interest text, as the example's observation shows |
| Concepts.CompoundInterestExample | agent.py:25-31 | a question mentioning the phrase mid-sentence, "Tell me about compound interest please", gets the compound-interest text |
| Concepts.ShortQueryFallsBack | agent.py:29-32 | a query shorter than every phrase gets "No explanation available." |
| Concepts.ShortQueryExample | agent.py:29-32 | "xyz" gets "No explanation available." |
| Clock.TwoDigits | agent.py:20 | `%I` and `%M` write the number with exactly two decimal digits that read back as that number |
| Clock.Hour12 | agent.py:20 | `%I` is the hour in 1..12 that agrees with the 24-hour value modulo 12 |
| Clock.Meridiem | agent.py:20 | `%p` is "AM" exactly when the hour is below 12, and "PM" otherwise |
| Clock.FormatTime | agent.py:16-20 | the text has the shape `HH:MM AM` or `HH:MM PM` with HH in 01..12 and MM in 00..59; HH agrees with the hour modulo 12, MM is the minute, and the marker is "AM" exactly before noon |
| Clock.ParseTime | agent.py:20 | (reference inverse) a text is read back into a 24-hour reading exactly when it has the 12-hour shape |
| Clock.ParseFormat | agent.py:20 | formatting loses nothing: reading the formatted text back gives the original hour and minute |
| Clock.FormatParse | agent.py:20 | every text of the 12-hour shape is the formatted form of the reading parsed from it |
| Clock.MidnightAndNoon | agent.py:20 | hour 0 prints as "12 … AM" and hour 12 as "12 … PM" |
| Tools.Find | agent.py:35-46 | lookup by exact name returns a tool with that name, and `None` exactly when no tool has it; with duplicate names it would be the first, and the registry has none |
| Tools.RegistryNamesDistinct | agent.py:35-46 | the registered names "Time" and "Concept Explainer" are distinct |
| Tools.FindIsUnambiguous | agent.py:35-46 | when names are distinct, looking up a tool's own name finds that very tool |
| Tools.RegistryLookup | agent.py:35-46 | "Time" resolves to the first tool and "Concept Explainer" to the second |
| Tools.Run | agent.py:15-46 | the time tool answers a 12-hour time text that reads back as exactly the clock reading `now`; the concept tool answers one of the three fixed texts |
| Tools.TimeIgnoresInput | agent.py:15-20 | the time tool's answer does not depend on its input |
| Tools.ConceptToolExplainsInput | agent.py:22-45 | the concept tool looks up exactly the text it is given, passed as the positional argument |
| Server.QueryFinance | main.py:13-35 | a reply is a success exactly when the executor returned; a success has the single key "response" holding the selected text; an exception gives status 500 with detail "Internal error: " followed by the exception text |
| Server.FirstPresent | main.py:21-32 | the first candidate present, with every earlier candidate absent; absent only when no candidate is present |
| Server.SelectResponse | main.py:21-32 | the endpoint's if-chain answers the first candidate that the three priority rules offer, in order; `Server.FinishTakesPriority`, `Server.LastStepAnswers` and `Server.FallsBackToWholeResult` state each rule |
| Server.FinishTakesPriority | main.py:21-22 | a finished result is answered with its "output" value, or "No output" without one, whatever the steps and `str` would give |
| Server.LastStepAnswers | main.py:25-30 | a non-finished result whose last step is a tuple of more than one item is answered with `str` of that step's second item |
| Server.StringObservationAnswersExactly | main.py:28-30 | since `str` of a string is that string, a string observation in the last step is the response exactly |
| Server.OnlyLastStepMatters | main.py:28-30 | changing the steps before that last step does not change the response |
| Server.FallsBackToWholeResult | main.py:25-32 | no `intermediate_steps`, an empty list, or a last step that is not a tuple of more than one item gives `str` of the whole result |

## Left out

- Building the LlamaCpp model, the prompt template, `create_react_agent` and `AgentExecutor` (agent.py:49-100): these are calls into a foreign framework and a language model.
- The framework's own dispatch of a tool name chosen by the model, including what it reports for an unknown name. That code is not part of this model. `Tools.Find` and `Tools.Run` model only the exact-name lookup and the call of the handler.
- `load_dotenv` and reading the environment (agent.py:11): process I/O.
- Reading the wall clock with `datetime.now()` (agent.py:19): the reading is a parameter.
- The FastAPI application, the pydantic request model and the `run_in_executor` offload (main.py:1-19): HTTP and concurrency plumbing. The executor's outcome is the parameter `Server.Outcome`.
- Server.QueryFinance: exceptions raised inside the selection itself, such as by `str`, are not modelled; only an exception from the executor's `invoke` is. The exception's own text `str(e)` is the given message.
- Server.QueryFinance: `return_values` values and step items are taken to be strings and Python values of three shapes (string, tuple, other object). A non-string "output" value, or an `intermediate_steps` entry that is not a list, is not modelled.
- Concepts.ExplainConcept: arguments are strings. A non-string query, whose `.lower()` would raise, is not modelled.
- The Unicode lower-case mapping of `str.lower()`: only ASCII capitals are lower-cased.
- The `%p` marker in a locale other than C: the model uses "AM"/"PM".
- The exact text `str()` gives for dicts and tuples: `str` is a parameter.
- No tool other than "Time" and "Concept Explainer" appears in `agent.py` or `main.py`, so no other tool is modelled.
