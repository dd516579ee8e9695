# Casa do Estudante task dashboard — model of the list logic

The dashboard shows the board's tasks (`Task` records with a status, a
priority, a deadline, an assignee, a board role, a title and notes). Beyond the
calls to the hosted store and the AI service, its own logic is three pure
computations in `App.tsx`. This project models them in Dafny and proves what
they promise:

- **the task filter** (`filteredTasks`). A task is shown when the lower-cased
  search term is a substring of its lower-cased title or of its lower-cased
  assignee, and the selected role is the `Todos` sentinel or the task's own role.
  The shown list is the input list with the other tasks removed, in the same order;
- **the summary counters** (`stats`). These are the total, and the number of
  tasks with each of the three statuses;
- **the CSV text** (`exportCSV`, the string it builds). It is a U+FEFF byte-order
  mark, the fixed header record and one record per task, joined by line feeds.
  The title and notes are written in double quotes with inner quotes doubled.
  The other five fields are written as they are.

Modules:

- `types.dfy`, module `TaskTypes`: the enumerations, their string values, and
  the `Task` and `AppStats` records.
- `text.dfy`, module `JsText`: `toLowerCase` (ASCII letters) and `includes`.
- `filter.dfy`, module `TaskFilter`: the filter and its lemmas.
- `stats.dfy`, module `TaskStats`: the counters and their lemmas.
- `csv.dfy`, module `CsvExport`: the encoder, plus an independent reader for
  the same format. The reader splits lines, then splits fields on commas. A
  field that opens with a quote runs to its closing quote, and a doubled quote
  inside it stands for one quote. The lemmas show that the reader recovers the
  header names and every task's values.

The code has no notion of a recurring-task visibility window. `Task` declares
three optional recurrence fields (types.ts:33-35), but nothing in App.tsx reads
them: `fetchTasks` selects `*` (App.tsx:84), the filter tests only the search
term and the role (App.tsx:143-150), and the CSV header has seven columns, none
of them about recurrence (App.tsx:213). The model keeps the three fields in
`Task` and, like the code, never reads them.

In the source, the header is a one-element array. `[headers, ...rows].join("\n")`
turns that array into text by joining its single element, which gives the header
string itself. So the model's first record is the header string.

## Model

| member | source | states |
|---|---|---|
| `TaskTypes.StatusText` | types.ts:2-6 | each status has its string value (`Pendente`, `Em Andamento`, `Concluído`), never empty |
| `TaskTypes.PriorityText` | types.ts:8-12 | each priority has its string value (`Baixa`, `Média`, `Alta`), never empty |
| `TaskTypes.RoleText` | types.ts:14-21 | each role, including the `Todos` sentinel, has its string value, never empty |
| `JsText.Lower` | App.tsx:145-146 | lower-casing keeps the length, turns each ASCII upper-case letter into its lower-case letter, keeps every other character, and leaves no upper-case letter |
| `JsText.LowerIdempotent` | App.tsx:145-146 | a lower-cased text holds no upper-case letter, and lower-casing it again changes nothing |
| `JsText.Includes` | App.tsx:145-146 | the empty term is included in every text; a term longer than the text is never included |
| `JsText.IncludesIffOccurs` | App.tsx:145-146 | `includes` holds exactly when the term occurs at some position of the text |
| `TaskFilter.MatchesSearch` | App.tsx:145-146 | the search test holds exactly when the lower-cased term occurs at some position of the lower-cased title or of the lower-cased assignee; the empty term matches every task |
| `TaskFilter.MatchesRole` | App.tsx:147 | the `Todos` sentinel matches every task; any other role matches exactly the tasks with that role |
| `TaskFilter.Keep` | App.tsx:144-148 | an empty term under `Todos` keeps every task, and a kept task has the selected role unless `Todos` is selected |
| `TaskFilter.FilterTasks` | App.tsx:143-150 | the shown list is never longer than the task list |
| `TaskFilter.KeptPositionsSelect` | App.tsx:144-149 | each shown task is the task at its kept position of the input |
| `TaskFilter.KeptPositionsIncreasing` | App.tsx:144-149 | the kept positions strictly increase, so the input order is kept |
| `TaskFilter.KeptPositionsExact` | App.tsx:144-149 | a position is kept if and only if its task passes both the search test and the role test |
| `TaskFilter.FilterIsSubsequence` | App.tsx:143-150 | the shown list is the subsequence of the task list at exactly the positions whose task passes, in input order |
| `TaskFilter.FilterMembership` | App.tsx:144-148 | a task is shown iff it is in the list, and the lower-cased term occurs in its lower-cased title or lower-cased assignee, and the role filter is `Todos` or equals its role |
| `TaskFilter.SpecificRoleOnly` | App.tsx:147-148 | with a role other than `Todos` selected, every shown task has that role and matches the search term |
| `TaskFilter.EmptySearchAllRolesIsIdentity` | App.tsx:145-147 | an empty search term with `Todos` shows the whole list unchanged |
| `TaskFilter.FilterIdempotent` | App.tsx:143-150 | filtering the shown list again with the same term and role returns it unchanged |
| `TaskFilter.FilterBySearchThenRole` | App.tsx:145-148 | the filter equals the search-only filter (role `Todos`) followed by the role-only filter (empty term), so `Todos` is the same as no role filter |
| `TaskFilter.SearchIgnoresTermCase` | App.tsx:145-146 | lower-casing the search term first does not change the shown list |
| `TaskFilter.SearchFindsAssigneeIgnoringCase` | App.tsx:146 | the term `ana` finds a task assigned to `Ana Silva` |
| `TaskStats.WithStatus` | App.tsx:138-140 | the status-filtered list holds only tasks of that status and is never longer than the task list |
| `TaskStats.WithStatusMembers` | App.tsx:138-140 | the status-filtered list holds exactly the tasks of the list that have that status |
| `TaskStats.WithStatusCount` | App.tsx:138-140 | the length of the status-filtered list is the number of occurrences of the status in the list of statuses |
| `TaskStats.Stats` | App.tsx:136-141 | `total` is the number of tasks; `pending`, `inProgress` and `completed` are each the number of tasks with that status; `pending + inProgress + completed == total`, and each counter is at most `total` |
| `TaskStats.StatusCountsPartition` | App.tsx:138-140 | the three status-filtered lists together are exactly as long as the task list |
| `TaskStats.WithStatusConcat` | App.tsx:138-140 | filtering by status distributes over list concatenation |
| `TaskStats.StatsOfConcat` | App.tsx:136-141 | the counters of `a + b` are the field-wise sums of those of `a` and `b` |
| `CsvExport.EscapeQuotes` | App.tsx:214 | doubling the quotes never shortens the text |
| `CsvExport.QuoteField` | App.tsx:214 | a title or notes field opens and closes with a quote and is at least two characters longer than the text |
| `CsvExport.EscapeAppend` | App.tsx:214 | quote doubling distributes over concatenation |
| `CsvExport.EscapeWithoutQuotes` | App.tsx:214 | a text without quotes is written unchanged |
| `CsvExport.UnescapeEscape` | App.tsx:214 | collapsing `""` back to `"` recovers the original text |
| `CsvExport.UnquoteQuoteField` | App.tsx:214 | stripping the outer quotes of a title or notes field and collapsing `""` recovers the original text |
| `CsvExport.EscapeExample` | App.tsx:214 | in the title `a "b"` each quote is doubled, giving `a ""b""` |
| `CsvExport.QuoteFieldExample` | App.tsx:214 | the title `a "b"` is written as `"a ""b"""` |
| `CsvExport.ReadQuotedEscaped` | App.tsx:214 | a quoted field reads back as its text, whatever it holds, when the next character is not a quote |
| `CsvExport.EnumTextsPlainSafe` | App.tsx:214 | the status, priority and role values hold no comma and do not start with a quote, so writing them as they are is safe |
| `CsvExport.Row` | App.tsx:214 | a task's record is status, priority, deadline, assignee and role as they are, then the quoted title and the quoted notes, joined by commas in header order |
| `CsvExport.RowReadsBack` | App.tsx:214 | a task's record reads back as status, priority, deadline, assignee, role, title and notes, when deadline and assignee hold no comma and do not start with a quote |
| `CsvExport.AssigneeCommaShiftsColumns` | App.tsx:214 | the assignee is written without quotes, so a comma in it makes the record read as eight values with the later columns shifted |
| `CsvExport.HeaderIsJoinedNames` | App.tsx:213 | the header is the seven column names joined by commas |
| `CsvExport.HeaderReadsBack` | App.tsx:213 | the header reads back as `Status, Prioridade, Prazo, Responsável, Diretoria, Tarefa, Observações` |
| `CsvExport.Records` | App.tsx:213-215 | before joining there are `tasks.length + 1` records: the header, then task `i`'s record at position `i + 1` |
| `CsvExport.Join` | App.tsx:215 | the joined text is never shorter than the number of gaps between parts; where the separators go is pinned by `SplitJoin`, which splits the text back into the parts |
| `CsvExport.SplitJoin` | App.tsx:215 | splitting the joined text at line feeds recovers the records when none holds a line feed |
| `CsvExport.HeaderHasNoLineFeed` | App.tsx:213 | the header holds no line feed |
| `CsvExport.PlainLineFeedSplitsRecord` | App.tsx:214 | deadline and assignee are written without quotes, so a line feed in either puts a line feed into the record, which then splits into more than one line |
| `CsvExport.RowHasNoLineFeed` | App.tsx:214 | a task's record holds no line feed when none of its text fields does |
| `CsvExport.RecordsHaveNoLineFeed` | App.tsx:213-215 | no record holds a line feed when no task's text field does |
| `CsvExport.RecordsReadBack` | App.tsx:213-214 | every record reads back: the header as its column names, each task's record as its seven values, when every task's deadline and assignee hold no comma and do not start with a quote (title and notes may hold anything) |
| `CsvExport.CsvText` | App.tsx:215 | the text opens with U+FEFF and the exact header; a line feed follows when there are tasks, and nothing follows when there are none |
| `CsvExport.CsvReadsBack` | App.tsx:212-215 | after the BOM the text reads back as `tasks.length + 1` records: the header names, then each task's seven values in list order. Deadline and assignee must hold no comma and not start with a quote, and no text field may hold a line feed |

## Left out

- Sign-in, sign-up, session tracking and sign-out (App.tsx:66-76, 100-133) are calls into the hosted store's authentication client.
- Fetching, inserting, updating and deleting tasks, and re-fetching after each change (App.tsx:79-97, 184-209), are remote store calls with `alert`/`confirm` dialogs. The deadline ordering of the list is applied by the store, so the model takes the list as given.
- The AI action plan, communication draft and summary (App.tsx:152-181) call services/geminiService.ts, a foreign network API.
- The Blob, object URL and link click that download the CSV, and the locale date in its file name (App.tsx:216-221), are browser APIs. The model stops at the text.
- All markup, icons and style-class switches (App.tsx:224-588), the modal and stats-card components, and constants.ts (static sample data) are presentation only.
- `useMemo` caching and the React state setters are left out. The filter and the counters are modelled as functions of the current task list, term and role.
- JsText.Lower: lower-cases the ASCII letters `A`-`Z` only. JavaScript's `toLowerCase` also lower-cases other letters (such as `Á`), so searches that differ only in the case of non-ASCII letters are not modelled.
- The recurrence fields of `Task` (types.ts:33-35) are carried but not read, as in the code.
- `AppStats` counters are unbounded naturals. JavaScript numbers are exact for any list the page can hold.
- CsvExport.CsvReadsBack: the reader splits lines at every line feed. So a title or notes that holds a line feed, although written validly inside quotes, falls outside what that lemma covers.
