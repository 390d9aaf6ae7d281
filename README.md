# StudyBuddy task core in Dafny

StudyBuddy is a study assistant. A student chats with a language model, and
the model may assign a study task. It does so by ending its reply with a JSON
object between the markers `$$TASK_JSON$$` and `$$END_TASK_JSON$$`. The
server cuts that directive out of the displayed reply and stores the task. The
dashboard lists open and completed tasks, and each task card counts down to its
deadline.

This project models that core and proves its properties:

- **`TaskExtraction`** (`extraction.dfy`): the chat handler's marker search,
  the hand-off of the parsed payload to the store, and the removal and trimming
  of the matched span. `JSON.parse` and the database's verdict on a row are
  parameters of the model.
- **`Storage`** (`storage.dfy`): the task table as a class. It holds a
  `seq<Task>` of rows in creation order and a `nextId` counter standing for the
  serial primary key. Its methods are `getTasks`, `createTask`, `completeTask`
  and `deleteTask`.
- **`Schema`** (`schema.dfy`): the `tasks` row and the insert shape.
- **`ServerRoutes`** (`server_routes.dfy`): the task handlers with their
  status codes, the chat handler, and the seeding of an empty table.
- **`SharedRoutes`** (`shared_routes.dfy`): the route paths, the chat reply's
  `task` shape, and `buildUrl`.
- **`TaskCard`** (`task_card.dfy`): the countdown arithmetic and the visibility
  of the timer chip and the complete button.
- **`Dashboard`** (`dashboard.dfy`): the split of the task list into open
  and completed tasks.
- **`JsString`** (`jsstring.dfy`): the JavaScript string built-ins the core
  uses (`trim`, `indexOf`, `includes`, `replace` with a string pattern, and
  `String(n)`), written on `seq<char>`.
- **`Wrappers`** (`wrappers.dfy`): `Option`.

Times are integer milliseconds passed in as parameters (`now`). Nullable
columns are `Option`s.

Behaviours of the code that the model states explicitly:

- **Storage failure in a chat turn.** The `createTask` call of the chat
  handler sits inside the inner `try` (server/routes.ts:86-99), so a storage
  failure is caught there. The reply is a 200 carrying the raw completion and
  no task (`ChatRoute`, `ExtractFailure`).
- **Text after the first directive.** The `replace` of server/routes.ts:96
  removes only the matched span, so the text after the end marker stays in the
  message, later marker pairs included (`ExtractSuccess`).
- **Idempotence.** Extraction is not idempotent: a second directive stays in
  the message and a second pass extracts it (`SecondDirectiveSurvives`). A
  reply with a single directive and no other `$` is left alone by a second
  pass (`SecondPassHarmless`).
- **Empty title.** The code relies only on the NOT NULL column of
  shared/schema.ts, so an empty title is stored (`RowOf`).
- **The payload's keys and types.** They are not validated: only
  `JSON.parse` and the store decide.

## Model

| member | source | states |
|---|---|---|
| Schema.NewRow | shared/schema.ts:5-17 | the stored row gives back exactly the caller's title, description and time limit; its id and creation time are the store's; its `completed` is the column default `false`; the insert shape has no id, createdAt or completed |
| Schema.InsertOf | shared/schema.ts:14 | the insert shape of a row: the `.omit` of `id`, `createdAt` and `completed`, keeping the caller's title, description and time limit |
| Schema.IsCompleted | client/src/pages/Dashboard.tsx:11-12 | JavaScript truthiness of the nullable `completed` column, the test every filter and guard of the dashboard and the task card applies |
| Schema.NewRowInjective | shared/schema.ts:14 | two inserts give the same row iff they supply the same columns |
| Storage.FindIndex | server/storage.ts:25 | the index of the first row with the given id, or none iff no row has it |
| Storage.MarkCompleted | server/storage.ts:23-26 | `UPDATE … SET completed = true WHERE id = …` on the rows: the same number of rows, each keeping its id |
| Storage.DeleteRows | server/storage.ts:31 | `DELETE … WHERE id = …` on the rows: the rows with another id, in order, never more than before |
| Storage.WellFormedUnique | shared/schema.ts:6 | a table whose ids are increasing serial values has pairwise distinct ids |
| Storage.TaskTable.constructor | server/storage.ts:12 | an empty table whose serial starts at 1 |
| Storage.TaskTable.GetTasks | server/storage.ts:13-15 | every row, in creation (insertion) order |
| Storage.TaskTable.CreateTask | server/storage.ts:17-20 | appends exactly one row whose id differs from every existing id; earlier rows are unchanged; the returned row is `NewRow` of the input; ids stay increasing; no completed row reopens |
| Storage.TaskTable.CompleteTask | server/storage.ts:22-28 | for an unknown id: returns none and leaves the table unchanged; otherwise sets that row's completed to true, returns the updated row and changes nothing else; no completed row reopens |
| Storage.TaskTable.DeleteTask | server/storage.ts:30-32 | removes exactly the row with that id and keeps the rest in order; an unknown id is a no-op; the table stays well formed |
| Storage.MarkCompletedAt | server/storage.ts:23-26 | the update touches the rows with the matching id, sets only their completed field, and keeps the length |
| Storage.MarkCompletedLength | server/storage.ts:23-26 | the update keeps the number of rows |
| Storage.MarkCompletedUnknown | server/storage.ts:22-28 | an update matching no row changes nothing |
| Storage.MarkCompletedIdempotent | server/storage.ts:22-28 | completing twice is completing once |
| Storage.MarkCompletedNeverReopens | server/storage.ts:22-28 | after completing, every row that was completed still is |
| Storage.DeleteRowsAppend | server/storage.ts:30-32 | the delete distributes over concatenation, so the surviving rows keep their order |
| Storage.DeleteRowsMembers | server/storage.ts:31 | a row survives the delete iff it was there and has another id |
| Storage.DeleteRowsUnknown | server/storage.ts:30-32 | a delete matching no row changes nothing |
| Storage.DeleteRowsSplit | server/storage.ts:30-32 | deleting the id of the only matching row leaves the rows before and after it, joined |
| Storage.DeleteRowsAt | server/storage.ts:30-32 | with unique ids, deleting the id of row k removes exactly row k |
| Storage.DeleteRowsNeverReopens | server/storage.ts:30-32 | no row that survives a delete loses its completed flag |
| Storage.DeleteRowsOrder | server/storage.ts:30-32 | the ids of the rows left by a delete are still increasing |
| SharedRoutes.SubstituteFirst | shared/routes.ts:65-66 | one step replaces the first occurrence of `:key` by `String(value)` |
| SharedRoutes.ValueString | shared/routes.ts:66 | `String(value)` of a string or whole-number parameter |
| SharedRoutes.Placeholder | shared/routes.ts:65 | the placeholder `:key` of a parameter |
| SharedRoutes.Substitute | shared/routes.ts:65-67 | one step of the `forEach`: when the url includes `:key`, the result is as long as the url with `:key` swapped for `String(value)`; with no occurrence the url is unchanged |
| SharedRoutes.Substituted | shared/routes.ts:64-68 | the url after the entries were applied left to right, each to the url the earlier ones produced |
| SharedRoutes.SubstitutedUntouched | shared/routes.ts:64-68 | a path holding none of the entries' placeholders comes back unchanged |
| SharedRoutes.SubstituteAbsent | shared/routes.ts:65 | one step leaves the url unchanged when `:key` does not occur in it |
| SharedRoutes.BuildUrl | shared/routes.ts:61-71 | returns the path unchanged when params are absent; otherwise the path with the entries applied in order, each to the url the earlier ones produced |
| SharedRoutes.SubstitutedAppend | shared/routes.ts:64-68 | applying `a` then `b` is applying `a + b`: each entry sees the earlier substitutions |
| SharedRoutes.SubstitutedAbsentKey | shared/routes.ts:65 | a key whose placeholder is not in the path leaves it unchanged |
| SharedRoutes.SubstitutedSingle | shared/routes.ts:64-68 | a single entry is a single step |
| SharedRoutes.SubstituteAfter | shared/routes.ts:65-66 | a placeholder after a prefix without `:` is replaced in place |
| SharedRoutes.SubstituteOtherKey | shared/routes.ts:65 | another key of the same length does not match a lone placeholder |
| SharedRoutes.CompleteUrlExample | shared/routes.ts:44 | `buildUrl("/api/tasks/:id/complete", {id: 7})` is `"/api/tasks/7/complete"` |
| SharedRoutes.PrefixKeyExample | shared/routes.ts:65-66 | matching is by substring: `id` also rewrites the start of `:idx` |
| SharedRoutes.FirstOccurrenceExample | shared/routes.ts:66 | only the first occurrence of a repeated placeholder is replaced |
| SharedRoutes.OrderExample | shared/routes.ts:64-68 | a value that writes a later key's placeholder is filled in by that key |
| SharedRoutes.ReorderedExample | shared/routes.ts:64-68 | the same entries in the other order give a different url |
| JsString.LeadingWhitespace | server/routes.ts:96 | the longest all-whitespace prefix |
| JsString.IsWhitespace | server/routes.ts:96 | the ECMAScript WhiteSpace and LineTerminator code points that `trim` strips |
| JsString.TrailingWhitespace | server/routes.ts:96 | the longest all-whitespace suffix |
| JsString.Trim | server/routes.ts:87 | the result is empty iff the input is all whitespace; otherwise it is the slice whose two ends are not whitespace, with only whitespace outside it |
| JsString.LeadingWhitespaceIs | server/routes.ts:96 | a whitespace prefix followed by a non-whitespace character is the leading whitespace |
| JsString.TrailingWhitespaceIs | server/routes.ts:96 | a whitespace suffix preceded by a non-whitespace character is the trailing whitespace |
| JsString.TrimPadded | server/routes.ts:96 | trimming a core with non-whitespace ends, padded with whitespace, gives back the core |
| JsString.TrimIdempotent | server/routes.ts:96 | trimming twice is trimming once |
| JsString.IndexFrom | shared/routes.ts:65 | the first occurrence at or after the start position, or none iff there is none |
| JsString.IndexOf | shared/routes.ts:65 | the first occurrence, or none iff the pattern occurs nowhere |
| JsString.Includes | shared/routes.ts:65 | `String.prototype.includes`, a search that finds an occurrence |
| JsString.IncludesIff | shared/routes.ts:65 | `includes` holds iff the pattern occurs somewhere |
| JsString.IndexFromIsFirst | shared/routes.ts:65 | a search returns the first occurrence after its start |
| JsString.IndexFromAfter | server/routes.ts:84 | a search in `a + pat + b` stops at `pat` when `a` holds no first character of `pat` past the start |
| JsString.Replace | shared/routes.ts:66 | replaces only the first occurrence; without one the string is unchanged |
| JsString.DigitChar | shared/routes.ts:66 | a decimal digit character |
| JsString.NatToString | client/src/components/TaskCard.tsx:34 | decimal digits only, at least one, no leading zero |
| JsString.NatToStringInjective | client/src/components/TaskCard.tsx:34 | different natural numbers have different decimal digits |
| JsString.IntToStringSign | shared/routes.ts:66 | `String(n)` starts with a minus sign iff n is negative |
| JsString.IntToString | shared/routes.ts:66 | `String(n)` is never empty |
| JsString.NatToStringRoundTrip | client/src/components/TaskCard.tsx:34 | reading the digits back gives the number |
| JsString.IntToStringInjective | shared/routes.ts:66 | different numbers give different `String(n)` |
| TaskExtraction.HasDirective | server/routes.ts:84 | the pattern matches somewhere: a begin marker followed, later, by an end marker |
| TaskExtraction.IsDirectiveMatch | server/routes.ts:84 | the match of the lazy pattern: the first begin marker, and the nearest end marker after it |
| TaskExtraction.FindDirective | server/routes.ts:84 | a found span is the first begin marker and the nearest end marker after it |
| TaskExtraction.FindDirectiveComplete | server/routes.ts:84-85 | nothing is found iff no begin marker is followed later by an end marker |
| TaskExtraction.DirectiveMatchUnique | server/routes.ts:84 | the leftmost shortest match is unique |
| TaskExtraction.MatchedText | server/routes.ts:84 | group 0 of the match: the whole span, starting with the begin marker and ending with the end marker |
| TaskExtraction.Payload | server/routes.ts:84 | group 1 of the match: the span is the begin marker, this text and the end marker |
| TaskExtraction.RowOf | server/routes.ts:89-94 | the row handed to `createTask`: none exactly when the title is missing (NOT NULL); otherwise it carries the payload's three fields, so the payload is recovered from it |
| TaskExtraction.RemovesMatchedSpan | server/routes.ts:96 | replacing the matched text removes exactly the matched span (prefix followed by suffix) |
| TaskExtraction.Extract | server/routes.ts:79-100 | without a task the message is the completion, null read as ""; a task is produced only when the store accepted it |
| TaskExtraction.ExtractWithoutDirective | server/routes.ts:80-85 | without a begin marker followed by an end marker, the text is returned as is and no task is made |
| TaskExtraction.ExtractNullContent | server/routes.ts:79 | a null completion is the empty message and no task |
| TaskExtraction.ExtractEmptyPayload | server/routes.ts:85 | markers with nothing between them give no task and the text unchanged |
| TaskExtraction.ExtractSuccess | server/routes.ts:86-96 | when parse and store succeed, the row carries the payload's title, description and time limit, and the message is prefix plus suffix of the matched span, trimmed |
| TaskExtraction.ExtractFailure | server/routes.ts:86-99 | a payload that does not parse, a row without a title, or a row the store refuses leaves the text, markers included, and makes no task |
| TaskExtraction.MarkerAfter | server/routes.ts:84 | a marker after a `$`-free stretch is found at its position |
| TaskExtraction.DirectiveOf | server/routes.ts:84 | the match in `pre + begin + payload + end + post` is the span between `pre` and `post` |
| TaskExtraction.ExtractOf | server/routes.ts:84-96 | extraction of `pre + begin + payload + end + post` gives `trim(pre + post)` and the payload's row |
| TaskExtraction.ScenarioDirectiveAtEnd | server/routes.ts:59-68 | a reply ending in a directive shows the text before it, trimmed, and yields the task its payload describes |
| TaskExtraction.SecondDirectiveSurvives | server/routes.ts:84-96 | with two directives the second stays in the message verbatim and a second pass extracts it, so extraction is not idempotent |
| TaskExtraction.SecondPassHarmless | server/routes.ts:84-96 | a reply with one directive and no other `$` displays `trim(pre + post)`, and a second pass over that text returns it unchanged and makes no task |
| ServerRoutes.ChatTaskOf | server/routes.ts:104-108 | the reply echoes the stored title, the description or "", and the time limit or 0 |
| ServerRoutes.OrString | server/routes.ts:106 | the JavaScript or-fallback for a nullable string: the fallback for null; with "" as fallback, the value or "" for null |
| ServerRoutes.OrInt | server/routes.ts:107 | the JavaScript or-fallback for a nullable number: the fallback for null; with 0 as fallback, the value or 0 for null |
| ServerRoutes.ListTasks | server/routes.ts:15-18 | 200 with every row in order |
| ServerRoutes.CreateTaskRoute | server/routes.ts:20-32 | 400 "Invalid input" on a validation failure, 500 "Internal server error" when the store fails, both with no change; otherwise 201 with the new row appended and the serial advanced by one |
| ServerRoutes.CompleteTaskRoute | server/routes.ts:34-38 | 404 "Task not found" with no change for an unknown id; otherwise 200 with the row marked completed and only that row changed |
| ServerRoutes.DeleteTaskRoute | server/routes.ts:40-43 | always 204; the row with that id is removed |
| ServerRoutes.ChatRoute | server/routes.ts:46-115 | 500 "Failed to process chat" with no change when the request or the model call fails; otherwise 200 with the extraction's message; at most one row is added, with completed false and the payload's fields, the serial advancing by one, and the reply's task is that row's |
| ServerRoutes.Seed | server/routes.ts:117-131 | an empty table receives exactly the two fixed tasks, in order, each stamped with its own clock reading, and the serial advances by two; a non-empty one is left alone |
| TaskCard.CalculateTimeLeft | client/src/components/TaskCard.tsx:24-35 | "time's up" iff now is at or past created + limit × 60000; otherwise the minutes and seconds lie in 0..59 and are the whole minutes and seconds of the time left past whole hours |
| TaskCard.Deadline | client/src/components/TaskCard.tsx:26 | creation time plus the limit in minutes; not before the creation time exactly when the limit is not negative |
| TaskCard.ClockDigits | client/src/components/TaskCard.tsx:32-33 | minutes `(diff div 60000) mod 60` and seconds `(diff div 1000) mod 60` account for the time left past whole hours to within a second |
| TaskCard.RenderTimesUpIff | client/src/components/TaskCard.tsx:30 | the text is "Time's up!" iff the deadline has passed, so the chip's warning colour (line 71) marks exactly that state |
| TaskCard.Render | client/src/components/TaskCard.tsx:30-34 | `${minutes}m ${seconds}s` or the time's-up text; never empty, and a countdown ends in `s` |
| TaskCard.RenderInjective | client/src/components/TaskCard.tsx:34 | different minutes or seconds never render alike |
| TaskCard.DigitPrefix | client/src/components/TaskCard.tsx:34 | the digits before the `m` separator are determined by the whole text |
| TaskCard.NinetyMinutesLeft | client/src/components/TaskCard.tsx:32-34 | ninety minutes left display as "30m 0s" |
| TaskCard.TimerText | client/src/components/TaskCard.tsx:19-37 | no countdown iff the time limit is null or 0, the creation time is missing, or the task is completed; otherwise the rendered time left |
| TaskCard.HasTimeLimit | client/src/components/TaskCard.tsx:19 | JavaScript truthiness of the nullable time limit: neither null nor 0 |
| TaskCard.ShowsTimerChip | client/src/components/TaskCard.tsx:68 | the chip's condition, a truthy time limit on an open task; a card with the chip also has the complete button |
| TaskCard.ShowsCompleteButton | client/src/components/TaskCard.tsx:80 | the complete button is shown for open tasks |
| TaskCard.ChipAndTimer | client/src/components/TaskCard.tsx:68-80 | with the guard of lines 19-22: a countdown runs only under a shown chip and on a card with a complete button; a shown chip with a creation time has one |
| TaskCard.TimerSlotAsWritten | client/src/components/TaskCard.tsx:68 | the slot as written: the chip exactly under the chip's condition, and printed text only for a time limit of 0, where it is "0" |
| TaskCard.TimerSlotPrintsZero | client/src/components/TaskCard.tsx:68 | as written, a time limit of 0 makes the card print "0" |
| TaskCard.TimerSlot | client/src/components/TaskCard.tsx:68-76 | the slot shows the chip iff the time limit is truthy and the task is open, and otherwise nothing |
| TaskCard.TimerSlotAgrees | client/src/components/TaskCard.tsx:68 | apart from a zero time limit, the slot as written renders what is intended |
| Dashboard.KeepMembers | client/src/pages/Dashboard.tsx:11-12 | a task is kept by the filter iff it is in the list with the chosen completion |
| Dashboard.Keep | client/src/pages/Dashboard.tsx:11-12 | the `filter`: no longer than the list, and every kept task has the chosen truthiness of `completed` |
| Dashboard.ActiveTasks | client/src/pages/Dashboard.tsx:11 | `tasks?.filter(t => !t.completed)` with the `[]` fallback: no longer than the loaded list, every task in it open |
| Dashboard.CompletedTasks | client/src/pages/Dashboard.tsx:12 | `tasks?.filter(t => t.completed)` with the `[]` fallback: no longer than the loaded list, every task in it completed |
| Dashboard.ActiveTasksMembers | client/src/pages/Dashboard.tsx:11 | the open list is exactly the tasks whose completed is false or null |
| Dashboard.CompletedTasksMembers | client/src/pages/Dashboard.tsx:12 | the completed list is exactly the tasks whose completed is true |
| Dashboard.ExactlyOneList | client/src/pages/Dashboard.tsx:11-12 | every task lies in exactly one of the two lists |
| Dashboard.PartitionCounts | client/src/pages/Dashboard.tsx:11-12 | the two lists together are the task list as a multiset, and their lengths add up |
| Dashboard.KeepPartition | client/src/pages/Dashboard.tsx:11-12 | the two filters together keep every task exactly once, as a multiset |
| Dashboard.KeepAppend | client/src/pages/Dashboard.tsx:11-12 | the filter distributes over concatenation, so each list keeps the input's order |
| Dashboard.NotLoaded | client/src/pages/Dashboard.tsx:11-12 | before the list has loaded, both lists are empty |
| Dashboard.ActiveCount | client/src/pages/Dashboard.tsx:33 | the counter beside the current tasks: at most the number of loaded tasks, 0 before loading |
| Dashboard.ShowsCompletedSection | client/src/pages/Dashboard.tsx:59 | the completed section's condition; it holds only for a loaded, non-empty list |
| Dashboard.ShowsCompletedSectionIff | client/src/pages/Dashboard.tsx:59 | the completed section renders iff some task is completed |
| Dashboard.ActiveCountComplement | client/src/pages/Dashboard.tsx:33 | the counter shows the number of tasks minus the completed ones |

## Left out

- The language-model call and its configuration: its answer is the `Completion` parameter of `ChatRoute` (a failed call or a reply with nullable content). The system prompt is not modelled.
- `JSON.parse` and zod validation: `parse` is a parameter returning `Option`, and a validated request body stands as `Option<InsertTask>` or `requestValid`. The response schemas are not modelled.
- The payload's field types: a `title`, `description` or `timeLimit` of the wrong JSON type is left to the store's verdict (`storeAccepts`). Only a missing title is refused explicitly, by the NOT NULL column.
- The regular-expression engine: the lazy pattern's semantics are stated directly on sequences (`IsDirectiveMatch`).
- drizzle, Postgres and `db`: replaced by the in-memory table. `getTasks` orders by `createdAt`; the table keeps insertion order, and equal timestamps and a clock running backward are not modelled. `Seed` takes the two clock readings of its inserts as separate parameters, but the table does not re-sort when they tie or run backward.
- Storage.TaskTable.CreateTask: the serial counter is an unbounded integer; overflow of the 32-bit serial is not modelled.
- The database's other failures (connection loss and the like): in `CreateTaskRoute` and `ChatRoute` an insert that fails is the `storeAccepts` verdict and leaves the rows unchanged. A database failure in the list, complete and delete handlers (server/routes.ts:15-18 and 34-43, which have no `catch`) and in the seeding (server/routes.ts:118-131) is not modelled: those operations always succeed in the model.
- CreateTaskRoute and ChatRoute: a refused insert (for example a NOT NULL violation for a missing title) keeps `nextId` unchanged, whereas Postgres has already drawn the serial value by then, so the next stored id in the source is larger than `NewRow(…, old(nextId), …)`. Ids are still fresh and increasing; only their exact values after a refusal differ.
- JsString.IntToString: every integer is written as plain decimal digits; JavaScript's `String(n)` switches to exponent notation from 1e21 on, which is not modelled.
- Strings are sequences of Unicode scalar values (`char`), while JavaScript strings are UTF-16 code units: lone surrogates and the index positions of characters outside the Basic Multilingual Plane are not modelled.
- `Number(req.params.id)`: the route gets an integer id. A path segment that is not a number (`NaN`) is not modelled.
- `console.error` logging.
- `setInterval`, `new Date()` and floating-point division in the task card: times are integer milliseconds given as parameters, and the React state updates are not modelled.
- The JSX, styling and animation of the dashboard and the task card, except the visibility conditions modelled in `TaskCard` and `Dashboard`.
- client/src/components/ChatInterface.tsx, client/src/hooks/use-chat.ts, client/src/components/DigitalClock.tsx and client/src/pages/not-found.tsx are not part of this model. They are UI, fetch, local storage and wall-clock formatting.
- SharedRoutes.BuildUrl: the `$` patterns of `String.prototype.replace` replacement strings are not modelled, and values are taken literally. Numbers are integers (`String` of a fractional number is not modelled). `Object.entries` order is the given sequence of pairs.

## Findings

| source | as written | input that shows it | evidently intended | confidence | as-written member | corrected member |
|---|---|---|---|---|---|---|
| client/src/components/TaskCard.tsx:68 | `{task.timeLimit && !task.completed && (…)}` yields the number 0 when the time limit is 0, and React prints it | a task with `timeLimit: 0` (as a chat directive may produce) shows a stray "0" on its card | the slot renders the chip when the limit is truthy and the task is open, and nothing otherwise | not executed | TaskCard.TimerSlotPrintsZero | TaskCard.TimerSlot |
