# DataTalk and Inline-DV, modelled in Dafny

This project models two AppGini plugins.

- **DataTalk** (`plugins/datatalk/DataTalk.php`) answers a member's question about the
  application database in plain language.
  - A question is answered from a stored question record when one matches: the posted id
    is tried first, then the question text.
  - Otherwise the chat completion service is asked for a SQL query. The prompt lists every
    application table with its fields.
  - The query is checked to be a `SELECT` and run against the database. If it fails, the
    alternative query is run instead (unchecked in the code; see Findings). All fetched
    rows become the answer.
  - A fresh, successful answer is stored as a new question record owned by the member.
  - The member's questions can be listed (most recent first) and deleted. The service key
    is kept in a settings table.
- **Inline-DV** (`plugins/inline-dv/index.php`) is bound to one application table. It
  finds that table's hook file and extracts the text of one hook function from it: from
  the function's `function <name>(` declaration to the next declaration. It reports itself
  installed when the `<table>_init` hook holds its marker comment.

Files:

- `wrappers.dfy`: `Option` and `Result`.
- `php_text.dfy` (module `PhpText`): the PHP string built-ins the plugins rely on.
  - `trim` with its default character set.
  - PCRE's `\s` and the ASCII case folding of the `/i` flag.
  - `implode`, `explode` and `strpos`.
  - PHP truthiness of a string (`null`, `""` and `"0"` are falsy).
- `datatalk_prompt.dfy` (module `DataTalkPrompt`): `getTables` and `preparePrompt`.
- `datatalk_query.dfy` (module `DataTalkQuery`): the reply object and `executeQuery`.
  - `ExecuteAsWritten` is the code as written. The imperative method `ExecuteQuery` is
    proved to compute it, and the answer pipeline uses it.
  - `Execute` is the corrected version (see Findings). It is proved to differ from the code
    only by not running an alternative that fails the checks.
- `datatalk.dfy` (module `DataTalk`):
  - `replyFromQuestion` and the reply built from the chat service's response.
  - The class `DataTalkStore`: the questions table keyed by id, the next auto-increment
    id, the settings table and the logged-in member. Its operations are `getQuestionById`,
    `getQuestion`, `getRecentQuestions`, `storeQuestion`, `deleteQuestion`, `setting`,
    `getAnswer` and `handleUserQuestion`.
- `inline_dv.dfy` (module `InlineDV`): the constructor's table check, `getFileName`,
  `getHookCode` and `is_installed`.
  - The two regular expressions `/function\s+NAME\s*\(/i` are explicit matchers.
  - Each matcher is proved equal to a declarative reading of its pattern.

The services the plugins use are oracles, passed in as functions:

- the database (SQL text to rows or an error message);
- the chat completion service (request to completion or failure);
- the collation's `LIKE`;
- the file system (path to contents, or nothing when the file is unreadable).

While a question is answered, every chat request and every candidate query run against
the database is recorded in order. That is how properties such as "a reused record never
reaches the chat service" are stated. The question and setting lookups, the key read and
the `INSERT` of a new record are not recorded in this trace; they are reads and writes of
the modelled tables.

Where the code and the documented design differ, the model follows the code:

- `deleteQuestion` reports success whenever the `DELETE` statement runs, even when no
  row matched (`DataTalk.DataTalkStore.DeleteQuestion`: `ok == dbUp`).
- A reply whose query is rejected carries an error, so it is never stored.
  `handleUserQuestion` always passes `is_error = false`. The code therefore never stores
  a record flagged as an error.
- The request asks for no second completion (no `n` is sent). `alternativeQuery` is set
  only when the response nevertheless has a second choice.
- A stored record flagged as an error is returned with error `"1"` (the raw `is_error`
  column), not with a message.
- A posted id that matches no record of the member falls back to the question-text
  lookup. It is not a miss.
- The check for a missing chat service key lives in `route` (`checkChatGptApiKey`,
  DataTalk.php:11 and 648-656): an ajax request without a key gets status 500 and "ChatGPT
  API key is not set" before `handleUserQuestion` runs. `route` is not part of this model,
  so `getAnswer` itself accepts an empty key and sends it; that case cannot be reached
  through the entry point.
- The text lookup is SQL `LIKE` against the trimmed question. It is modelled as an oracle,
  not as case- or whitespace-normalised equality.

## Model

| member | source | states |
|---|---|---|
| DataTalkPrompt.GetTables | plugins/datatalk/DataTalk.php:327-336 | the table list rewritten in place holds, in table order, one `name: (field1, field2, ...)` line per table |
| DataTalkPrompt.PreparePrompt | plugins/datatalk/DataTalk.php:304-320 | the user message is the question, unchanged; the system message's lines are given by `PromptListsOneLinePerTable` |
| DataTalkPrompt.PromptListsOneLinePerTable | plugins/datatalk/DataTalk.php:304-320 | read line by line, the system message is `MySQL tables:`, a blank line, one `- name: (...)` line per table (a lone `- ` when there is none), then the closing instructions; the user message is the question |
| DataTalkQuery.SelectMatcherAgrees | plugins/datatalk/DataTalk.php:263 | the explicit matcher accepts exactly the texts `/^\s*SELECT\s+/i` matches: optional leading whitespace, `SELECT` in any case, then whitespace |
| DataTalkQuery.ExecuteQuery | plugins/datatalk/DataTalk.php:261-294 | the step-by-step executeQuery (early returns, fallback, fetch loop) yields exactly the reply and database calls of the code as written |
| DataTalkQuery.ExecuteAsWritten | plugins/datatalk/DataTalk.php:261-294 | at most two texts are run; the first is the primary query and passed both checks; a second is run only after the first failed, and it is the (truthy) alternative, unchecked |
| DataTalkQuery.Execute | plugins/datatalk/DataTalk.php:261-294 | the corrected execution differs from the code as written only when the alternative is truthy and fails the checks: then only the primary query is run, where the code runs both |
| DataTalkQuery.FetchAll | plugins/datatalk/DataTalk.php:291-292 | the dataset holds every fetched row, in fetch order |
| DataTalkQuery.ExecuteKeepsQueries | plugins/datatalk/DataTalk.php:261-294 | executing a reply changes only its `answer` and `error`; id, prompt, both queries and token usage are kept |
| DataTalkQuery.ExecuteRunsOnlyAcceptable | plugins/datatalk/DataTalk.php:263-287 | with the correction, at most two texts reach the database and each passed both checks; the primary query is first, and the alternative runs only after the primary failed |
| DataTalkQuery.ExecuteLastCallDecides | plugins/datatalk/DataTalk.php:276-293 | the last text run decides the reply (its rows become the answer, or its error message the error); when nothing ran, the error is one of the two rejections and the answer is untouched |
| DataTalkQuery.RejectsNonSelect | plugins/datatalk/DataTalk.php:263-266 | a query the regular expression does not match gets "Query must begin with SELECT." and nothing is run |
| DataTalkQuery.RejectsBareSelect | plugins/datatalk/DataTalk.php:269-272 | a query that trims to exactly `SELECT` is never run; with the prefix present it gets the empty-query error |
| DataTalkQuery.LowerCaseSelectIsRun | plugins/datatalk/DataTalk.php:263-272 | `select ` passes both checks (the pattern ignores case, the emptiness test does not) and is sent to the database |
| DataTalkQuery.UpperCaseSelectIsEmpty | plugins/datatalk/DataTalk.php:269-272 | `SELECT ` is rejected as empty without any database call |
| DataTalkQuery.FailureWithoutAlternative | plugins/datatalk/DataTalk.php:276-281 | a failing query without a (truthy) alternative runs once and reports the database's message |
| DataTalkQuery.FallbackToAlternative | plugins/datatalk/DataTalk.php:278-293 | after a failure any truthy alternative is run, whatever its text; its rows become the answer or its message the error, and `query` still holds the primary text |
| DataTalkQuery.AlternativeBypassesSelectCheck | plugins/datatalk/DataTalk.php:283-284 | as written, a failing `SELECT` followed by the alternative `DROP TABLE users` sends the `DROP` to the database |
| DataTalk.ReplyFromQuestion | plugins/datatalk/DataTalk.php:143-150 | the reply's error is truthy exactly when the record is flagged; id and query come from the record, the prompt's user message is its question, and there is no answer yet |
| DataTalk.ReplyFromChat | plugins/datatalk/DataTalk.php:197-214 | a failed request yields only its error message; a completion yields the prompt, the first and second choices as query and alternative, the usage when the response has one, and no error |
| DataTalk.DataTalkStore.GetQuestionById | plugins/datatalk/DataTalk.php:1179-1184 | the result is the member's row with that id; nothing when no row has both that id and that member |
| DataTalk.DataTalkStore.GetQuestion | plugins/datatalk/DataTalk.php:1192-1197 | the result is a row of the member whose question is LIKE the trimmed text, the lowest id among them; nothing when no row matches |
| DataTalk.DataTalkStore.FirstMatch | plugins/datatalk/DataTalk.php:1195 | the first matching row at or after an id, with no matching row between the start and it |
| DataTalk.DataTalkStore.GetRecentQuestions | plugins/datatalk/DataTalk.php:1161-1171 | the collected list is the first `n` of the member's rows, newest first (all of them when fewer, none when `n` is below one) |
| DataTalk.OwnedDescSorted | plugins/datatalk/DataTalk.php:1164 | the listed rows all belong to the member, are rows of the table, and come in strictly descending id order |
| DataTalk.OwnedDescComplete | plugins/datatalk/DataTalk.php:1164 | every row of the member is listed |
| DataTalk.DataTalkStore.StoreQuestion | plugins/datatalk/DataTalk.php:1140-1153 | a successful insert adds one row under the next id with the trimmed question and query, the count, the flag and the member, and returns that id; a failed one changes nothing and returns false |
| DataTalk.DataTalkStore.DeleteQuestion | plugins/datatalk/DataTalk.php:1205-1210 | only the member's row with that id is removed; the result is true whenever the statement ran |
| DataTalk.DataTalkStore.SettingValue | plugins/datatalk/DataTalk.php:1127-1128 | a setting reads back trimmed (no trim character at either end), and a missing one as the empty string |
| DataTalk.DataTalkStore.Setting | plugins/datatalk/DataTalk.php:1118-1129 | a given value (the empty string included) is written, and the result is the stored value trimmed |
| DataTalk.DataTalkStore.CachedRecord | plugins/datatalk/DataTalk.php:230-232 | a truthy posted id that names a row of the member wins; otherwise the result is the text lookup's; a reused record is a row of the member, and when none is found no row of the member matches the text |
| DataTalk.DataTalkStore.GetAnswer | plugins/datatalk/DataTalk.php:225-251 | at most three calls are made and only the first can be a chat request; the reply carries the reused record's id, and no id when the answer is fresh |
| DataTalk.DataTalkStore.HandleUserQuestion | plugins/datatalk/DataTalk.php:94-117 | the answer (of the code as written) is stored exactly when no id was posted, the reply has no id and no error; the new id goes into the reply and the next id advances by one only then; status is 500 exactly when the reply has an error |
| DataTalk.CacheHitSkipsChatService | plugins/datatalk/DataTalk.php:229-240 | a reused record makes only database calls, and its answer is never stored again |
| DataTalk.FlaggedRecordShortCircuits | plugins/datatalk/DataTalk.php:234-236 | a flagged record is returned with error `"1"`; no candidate query is run and no chat request is made |
| DataTalk.CacheHitRunsStoredQuery | plugins/datatalk/DataTalk.php:234-239 | an unflagged record has no alternative, so its stored query is the only text that can run, and it runs exactly when it passes the checks; the reply keeps the record's id and query |
| DataTalk.PostedIdIsReplayed | plugins/datatalk/DataTalk.php:230-239 | re-asking with the id of one of the member's records returns that record's id and stored query, never asks the chat service, and runs at most the stored query |
| DataTalk.MissAsksChatServiceOnce | plugins/datatalk/DataTalk.php:243-250 | without a reusable record the chat service is asked exactly once, first, with the stored key and a prompt for the question; every later call goes to the database |
| DataTalk.ChatFailureStopsBeforeDatabase | plugins/datatalk/DataTalk.php:243-266 | a failed chat request, whatever its message, makes no database call; a non-empty message is the reply's only content, and an empty one leaves the null query to be rejected as not a SELECT |
| DataTalk.AnswerIsLastQueryResult | plugins/datatalk/DataTalk.php:225-293 | whatever the route, when the last call is to the database its rows are the reply's answer (with no error) or its message is the error; when no query ran there is no answer |
| DataTalk.MissRunsCompletion | plugins/datatalk/DataTalk.php:197-250 | on a miss answered by a completion, the reply holds the completion's query, alternative and usage and the prepared prompt, and the first choice is run right after the chat request exactly when it passes the checks |
| DataTalk.FailedPrimaryIsStored | plugins/datatalk/DataTalk.php:106-111 | as written, a fresh answer whose primary query failed and whose alternative `SHOW TABLES` (no SELECT) returned rows is stored, with the failed primary text as its query and the alternative's rows as its answer |
| DataTalk.StoredAnswersAreFresh | plugins/datatalk/DataTalk.php:106-111 | when the store decision holds, no id was posted, no record was reused, the chat service was asked first and the reply has no error |
| InlineDV.NewPlugin | plugins/inline-dv/index.php:23-31 | a missing or empty table list fails with "Unable to get table list", an unlisted or empty table with "Unknown table"; otherwise the plugin records the table and its entry |
| InlineDV.FileName | plugins/inline-dv/index.php:64-67 | the path is the application path, the separator, then `hooks/<table>.php` |
| InlineDV.FileNameInjective | plugins/inline-dv/index.php:64-67 | two tables of one application never share a hook file |
| InlineDV.DeclMatcherAgrees | plugins/inline-dv/index.php:48-56 | the explicit matcher agrees with `/function\s+NAME\s*\(/i` at every position, for an identifier hook name and for `[a-z0-9_]+` |
| InlineDV.FindDecl | plugins/inline-dv/index.php:48-56 | the search returns the leftmost declaration at or after the offset, and nothing only when there is none |
| InlineDV.HookEnd | plugins/inline-dv/index.php:55-57 | the end is the first declaration at or after start + 10, or the end of the file when there is none |
| InlineDV.GetHookCode | plugins/inline-dv/index.php:41-62 | unreadable or falsy contents give "Unable to access hook file"; a missing declaration gives "Could not determine correct function location"; no other error |
| InlineDV.HookCodeIsFunctionSlice | plugins/inline-dv/index.php:52-60 | the code is the file from the first hook declaration up to the end found, with no declaration from ten characters in up to that end |
| InlineDV.HookCodeBeginsWithFunction | plugins/inline-dv/index.php:52-60 | the extracted code begins with `function`, in some case |
| InlineDV.IsInstalled | plugins/inline-dv/index.php:34-39 | installed exactly when the `<table>_init` code was extracted and contains `// DO NOT DELETE THIS LINE` |
| InlineDV.InstalledMarkerInsideInitHook | plugins/inline-dv/index.php:34-39 | when installed, the marker lies in the hook file inside the `<table>_init` function's text |
| InlineDV.NoInitHookMeansNotInstalled | plugins/inline-dv/index.php:36-39 | a hook file without an `<table>_init` declaration is never reported installed |
| PhpText.TrimShape | plugins/datatalk/DataTalk.php:1128 | `trim` removes a run of trim characters at each end and nothing else |
| PhpText.StrPos | plugins/inline-dv/index.php:38 | `strpos` finds the leftmost occurrence, and finds none only when the needle does not occur |

## Left out

- The HTTP call to the chat completion service is left out: `curl`, the JSON request body
  (model, temperature, token limit, stop sequences) and JSON decoding. The service is an
  oracle from the request (key and prompt) to a completion or a failure message.
- The database engine, `sql()`, `makeSafe` escaping and `db_fetch_assoc` are not modelled
  beyond their effect: the database is an oracle from SQL text to rows or an error message.
  The question store is a map of rows.
- Reading the question and settings tables is assumed to succeed. Failed writes (`INSERT`,
  `DELETE`, `REPLACE`) are modelled by a flag.
- The posted id is taken as already converted by `intval`. The truthiness of the raw
  string (`"abc"` is truthy but converts to 0) is not modelled.
- Member ids are compared exactly. The SQL compares `memberID` under the table's
  case-insensitive collation, which also ignores trailing spaces; member ids are taken as
  already normalised.
- The `date` column is not modelled. Insertion order stands in for it.
- `getLoggedMemberID`, `getTableList` and `get_table_fields` are parameters: the member
  and the schema.
- Request routing, the JSON response and headers, and the HTML/JavaScript pages (question
  form, history, settings form, key check) are left out. They are output and UI.
- `AppGiniPlugin` (the base class providing `app_path` and `error()`) is not part of this
  model. `error()` is taken to return a value that is not an extracted hook text.
- Inline-DV's `install`, `uninstall` and `replace_to_hook`, and the admin page, are left
  out: they write hook files through code not part of this model.
- Strings are sequences of single-byte characters. Multibyte text and PCRE's UTF mode are
  left out.
- DataTalk.DataTalkStore.GetRecentQuestions: orders by descending id instead of by `date`,
  so rows inserted with out-of-order dates are not modelled.
- DataTalk.DataTalkStore.GetQuestion: `LIMIT 1` without `ORDER BY` leaves the choice among
  several matching rows to the database. The model takes the lowest id.
- InlineDV.DeclMatcherAgrees: the hook name is placed into the pattern unescaped. The
  model matches it literally, and the agreement is proved for identifier names only.
- The corrected execution (`DataTalkQuery.Execute`) is not wired into a pipeline of its
  own: `getAnswer` and `handleUserQuestion` follow the code as written, and the correction
  is stated and proved for one execution at a time.
- DataTalk.DataTalkStore.StoreQuestion: a failed insert returns `false`, modelled as
  `None`. The JSON reply would show `false` where the model has no id.

## Findings

| source | as written | input that shows it | evidently intended | confidence | as-written member | corrected member |
|---|---|---|---|---|---|---|
| plugins/datatalk/DataTalk.php:283-284 | when the primary query fails, the alternative query is run with neither the `SELECT` check nor the empty-query check | query `SELECT * FROM missing` (fails: unknown table), alternative `DROP TABLE users`: both texts are sent to the database | the alternative is held to the same checks as the primary query, so only read-only `SELECT` queries reach the database | not executed | DataTalkQuery.AlternativeBypassesSelectCheck | DataTalkQuery.ExecuteRunsOnlyAcceptable |
