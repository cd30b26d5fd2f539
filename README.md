# Policy chatbot core, modelled in Dafny

`app.py` is a chat page that answers employees' questions about company rules from one
Google Sheet. On every run of the script it loads the sheet as text, and for each
question it cuts that text to 50,000 characters and places it in a fixed prompt. It
sends the prompt to a hosted model, then logs the answer or shows an error banner
chosen by looking for "404" or "429" in the error text.

This project models that logic and proves its properties:

- `pystr.dfy`, module `PyStr`: Python's `p in s`, `s.replace(p, r)` (every occurrence,
  found left to right without overlap; an empty pattern matches before every character and
  at the end)
  and `s.rstrip(c)`, on strings as sequences of code points, with lemmas about them.
- `sheet.dfy`, module `Sheet`: `load_gsheet_data`. The URL rewrite is `CsvUrl`. The
  whole call is `LoadSheetData`, where the download is a function parameter that returns
  the sheet's text or an error text.
- `prompt.dfy`, module `Prompt`: the 50,000-character budget (`SafeContext`) and the
  prompt template (`FullQuery`), whose Korean text is copied character for character.
- `errors.dfy`, module `Errors`: the ordered `404` / `429` / other classification and
  the banners.
- `chat.dfy`, module `Chat`: the session's message log as a class `Conversation` with a
  `seq` field. `HandleTurn` appends the question, builds the query, calls the generation
  outcome (a function parameter) and appends the answer only on success.
- `app.dfy`, module `App`: one run of the script from top to bottom, and two scenarios.
- `wrappers.dfy`: `Option` and `Result`.

A URL that contains "edit" but not the fragment `/edit#gid=` is not rewritten in place.
This is the usual case for a share link ending in `/edit?usp=sharing`. Such a URL gets
`/export?format=csv` appended after the query string, as `CsvUrlAppendsSuffix` states.
A failed sheet fetch is reported with a banner (app.py:31), and `LoadSheetData` models
that banner. No fallback model is tried on a 404: the script makes a
single generation attempt per question.

## Model

| member | source | states |
|---|---|---|
| `PyStr.Contains` | app.py:23-24 | Python's `in`: the empty string occurs in every string, a prefix occurs in its string, and nothing longer than the string occurs in it |
| `PyStr.Replace` | app.py:23 | Python's `replace`, as lengths: an empty pattern gives length `len(s) + (len(s) + 1) * len(r)`; a same-length replacement keeps the length; a longer one never shortens the string |
| `PyStr.RStrip` | app.py:25 | `rstrip('/')` returns a prefix of its input that does not end in `/`, and everything it removed is `/` |
| `PyStr.RStripUnique` | app.py:25 | those three facts determine the result: any string that meets them is `RStrip`'s result |
| `PyStr.ReplaceAbsent` | app.py:23 | `replace` with a pattern that does not occur returns the string unchanged |
| `PyStr.ReplaceRemoves` | app.py:23 | after `replace`, the pattern occurs nowhere, if the replacement cannot combine with its neighbours into a new occurrence |
| `PyStr.ReplaceSkips` | app.py:23 | a prefix in which no occurrence starts is copied through `replace` unchanged |
| `PyStr.ReplaceOnlyOccurrence` | app.py:23 | in `base + p + id`, where neither `base` nor `id` contains `p` and `p`'s first character appears nowhere else in `p`, `replace` rewrites that one occurrence and nothing else |
| `PyStr.ContainsConcat` | app.py:78 | a substring of either part is a substring of the concatenation |
| `PyStr.OccursAtConcat` | app.py:65-71 | two adjacent occurrences form one occurrence of their concatenation |
| `Sheet.RewrittenHasNoFragment` | app.py:23 | the URL tested for the marker has no `/edit#gid=` on either side of the conditional: the replacement removes every one, and a URL without "edit" has none |
| `Sheet.CsvUrl` | app.py:23-25 | whichever branch runs, the rewritten URL contains `export?format=csv` and no `/edit#gid=` |
| `Sheet.SuffixedIsExport` | app.py:25 | stripping trailing slashes from a fragment-free URL and appending `/export?format=csv` gives the marker and no fragment |
| `Sheet.CsvUrlFixedPoint` | app.py:23-25 | the rewrite returns a URL unchanged exactly when it has the marker and no edit fragment |
| `Sheet.CsvUrlIdempotent` | app.py:23-25 | rewriting an already rewritten URL returns it unchanged |
| `Sheet.CsvUrlAppendsSuffix` | app.py:24-25 | a URL with neither the marker nor the fragment becomes `rstrip('/')` of it followed by exactly `/export?format=csv` |
| `Sheet.CsvUrlEditView` | app.py:23-25 | `base/edit#gid=id` becomes `base/export?format=csv&gid=id` |
| `Sheet.CsvUrlExample` | app.py:23-25 | a concrete sheet link ending in `/edit#gid=0` becomes its `/export?format=csv&gid=0` link |
| `Sheet.LoadSheetData` | app.py:18-32 | an empty URL gives `""` with no fetch and no banner; otherwise the rewritten URL is fetched; a failure gives `""` plus the error banner; a success gives the fetched text |
| `Prompt.SafeContext` | app.py:63 | the result is the first `min(len, 50000)` characters of the knowledge base |
| `Prompt.FullQuery` | app.py:65-71 | the prompt is the fixed instructions, then the context at a known offset, then the question label, then the question at the end |
| `Prompt.QueryFor` | app.py:63-71 | the query as sent: its length is fixed by `min(len, 50000)` and the question; it starts with the instructions, holds the first `min(len, 50000)` characters of the knowledge base right after them, then the question label, and ends with the question |
| `Prompt.QueryHoldsContextThenQuestion` | app.py:63-71 | the query contains the budgeted context and the question verbatim, and the context ends before the `질문: ` line that holds the question |
| `Prompt.QueryLengthBounded` | app.py:62-71 | the query's length is bounded by the budget whatever the knowledge base's length; a knowledge base within budget is sent whole |
| `Prompt.FullQueryInjective` | app.py:65-71 | given the context's length, the prompt determines both the context and the question |
| `Errors.Classify` | app.py:78-83 | "404" anywhere means model-not-found; "429" without "404" means rate-limited; anything else is other and keeps the text |
| `Errors.Banner` | app.py:79-83 | the "other" banner is the fixed prefix followed by the raw error text |
| `Errors.NotFoundWins` | app.py:78-81 | an error text with "404" in it is model-not-found, even when it also holds "429" |
| `Errors.NotFoundStable` | app.py:78 | adding text before or after a model-not-found error keeps its class |
| `Errors.BannerDistinguishes` | app.py:78-83 | different classes show different banners, and the other banner gives back the error text |
| `Chat.AfterTurn` | app.py:53-75 | a turn keeps every earlier message, adds the user message, and adds the assistant message only on success |
| `Chat.AfterTurnAlternating` | app.py:53-75 | a turn keeps every assistant message directly after a user message |
| `Chat.AfterTurnCounts` | app.py:53-83 | one turn adds exactly one user message; it adds one assistant message on success and none on failure |
| `Chat.CountRoleAppend` | app.py:53 | appending to the log adds the counts of each role |
| `Chat.ReplayShape` | app.py:43-83 | from an empty log, n turns leave n user messages, one assistant message per success, each right after a user message |
| `Chat.ReplayPositions` | app.py:43-83 | the log has one entry per turn plus one per success; turn `k`'s question sits at index `k` plus the earlier successes, and a successful turn's answer directly after its own question |
| `Chat.Conversation.constructor` | app.py:43-44 | a new session log is empty |
| `Chat.Conversation.HandleTurn` | app.py:52-83 | an empty input changes nothing; otherwise the budgeted query is sent, the log becomes `AfterTurn` of the old log, and a failure returns its classified banner |
| `App.ScriptRun` | app.py:39-83 | one run loads the sheet, reuses or creates the session log, handles the input against the loaded text, and returns the generation-failure banner exactly when generation failed, as `Banner(Classify(error))` |
| `App.LeaveScenario` | app.py:41-75 | a sheet holding "Annual leave: 15 days." gives a query with both the text and the question, and the answer becomes the only assistant message |
| `App.LeaveRun` | app.py:39-75 | a first run with no session, a sheet holding the leave rule and the leave question leaves the log holding exactly the question and the answer, and shows no banner |
| `App.EmptySheetScenario` | app.py:19-20 | with no sheet configured the knowledge base is empty and the prompt is still built, with an empty context block |

## Left out

- Reading the secrets and configuring the model (app.py:7-15): foreign calls. The sheet URL and the knowledge base are parameters; without secrets the script passes the empty URL, which `LoadSheetData` covers.
- `pd.read_csv` and `df.to_string(index=False)` (app.py:27-29): network I/O and a library serialiser. They appear as one fetch function that returns the sheet's text or the exception's text.
- `genai.GenerativeModel(...)` and `generate_content` (app.py:60, 73): foreign calls. They are modelled as a function from the query to an outcome. An exception at any of these steps, or when reading `response.text`, is a `Failed` outcome carrying `str(e)`.
- Streamlit presentation (page config, title, info box, spinner, chat bubbles, the replay of the log at app.py:47-49, rendering banners): output only. Banners are returned as values.
- Streamlit session mechanics beyond the log: the session object is the `Conversation` passed from run to run, and `ScriptRun` creates it when it is absent.
- Python strings are modelled as code points; UTF-16 and normalisation do not arise.

