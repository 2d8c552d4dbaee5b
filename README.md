# Daily-report backlog pipeline, modelled in Dafny

The pipeline turns chat-style daily reports into backlog rows, then writes those rows to a spreadsheet. This project models its three core files:

- **`converters/task_converter.py`** (`task_converter.dfy`, module `TaskConverter`). This is the report parser. It is a line-by-line state machine that carries the current date and the current PIC (the person in charge) and emits one six-field task record per task line. The date, PIC and task patterns are written as greedy scanners. `process_telegram_text` is a method with a loop, proved against a specification function `Run` over the classified lines. `create_canonical_text` and `parse_date_to_string` are functions.
- **`converters/backlog_converter.py`** (`backlog_converter.dfy`, module `BacklogConverter`). This covers four things:
  - month-name substitution in dates;
  - the `BacklogProcessor` class with its round-robin API-key index;
  - the rendering of the known Epics in the prompt;
  - reading the language model's pipe-separated reply into rows, and the gates in `get_epics_for_new_tasks`.

  The language-model call is a function parameter `llm` that returns the reply text, or `None` when the call fails.
- **`google_sheets.py`** (`google_sheets.dfy`, module `GoogleSheets`). This covers the list of existing Epics and the append-and-merge arithmetic. A worksheet is a class holding its rows and the merges issued on it. The client holds the worksheets by name.

Shared pieces:

- `strings.dfy` (module `Strings`): the Python `str` operations the code uses. These are `strip`, `lower`, `capitalize`, `split`, `join`, `count`, `replace` and code-point ordering. Whitespace is Python's full Unicode whitespace set. Case mapping and the digit and letter classes cover ASCII only.
- `months.dfy` (module `Months`): the Indonesian month table.
- `wrappers.dfy`: `Option` and `Result`.

Two places where the model follows the code:

- Task records end with the empty string as end date; the code writes `''`.
- With at least two keys, the first call to the model already uses key number 2 (index 1), because the index is rotated before each call and starts at 0. With a single key every call uses that key.

## Model

| member | source | states |
|---|---|---|
| TaskConverter.CanonicalText | converters/task_converter.py:6-10 | a non-string gives ""; any result is stripped and no longer than its input |
| TaskConverter.CanonicalTextSpec | converters/task_converter.py:6-10 | the key of a string is its lower-cased, stripped form and holds no upper-case letter |
| TaskConverter.CanonicalTextIdempotent | converters/task_converter.py:6-10 | canonicalising a canonical text changes nothing |
| TaskConverter.CanonicalTextInsensitive | converters/task_converter.py:6-10 | texts equal up to letter case and surrounding whitespace have the same key |
| TaskConverter.LowerStripCommute | converters/task_converter.py:10 | lower-casing and stripping commute |
| TaskConverter.MonthName | converters/task_converter.py:31-32 | the month looked up in the table, else kept, then capitalised; stated by MonthNameTranslates and MonthNameKept |
| TaskConverter.MonthNameTranslates | converters/task_converter.py:31-32 | each Indonesian month name gives its English name |
| TaskConverter.MonthNameKept | converters/task_converter.py:32 | a name that is not in the table is only capitalised |
| TaskConverter.FormatDate | converters/task_converter.py:34 | "day Month year" built from a header's pieces; stated by ParseDateOfHeader and ParseDateTranslates |
| TaskConverter.ParseDateToString | converters/task_converter.py:26-36 | gives None (the caught IndexError) exactly when the text has fewer than two hyphens, otherwise a non-empty date |
| TaskConverter.DateHeaderSplit | converters/task_converter.py:29 | `split('-')` cuts a date header into its day, month and year pieces with their whitespace |
| TaskConverter.ParseDateOfHeader | converters/task_converter.py:26-34 | a well-formed header parses to "day Month year", the month looked up in the table (else kept) and capitalised |
| TaskConverter.ParseDateTranslates | converters/task_converter.py:26-34 | a well-formed header naming an Indonesian month in any letter case parses to the date with the English month, day and year kept |
| TaskConverter.DateHeaderPieces | converters/task_converter.py:29-33 | stripping each piece of a header gives the bare day, month and year |
| TaskConverter.Leading | converters/task_converter.py:48-53 | the greedy scan of one character class: every character it takes is in the class, and the next one is not |
| TaskConverter.LeadingStops | converters/task_converter.py:48 | a greedy scan of a character class stops exactly where the class ends |
| TaskConverter.MatchSep | converters/task_converter.py:48 | the scan for whitespace, a hyphen and whitespace between the date's pieces; stated by MatchSepSound and MatchSepComplete |
| TaskConverter.MatchSepSound | converters/task_converter.py:48 | a matched `\s*-\s*` is whitespace, a hyphen and whitespace, and rebuilds the scanned text |
| TaskConverter.MatchSepComplete | converters/task_converter.py:48 | any whitespace-hyphen-whitespace prefix is matched with exactly its own pieces |
| TaskConverter.MatchDateHeaderSound | converters/task_converter.py:48 | a line the date pattern accepts is a well-formed header (1-2 digits, letters, 4 digits) that spells out the line |
| TaskConverter.MatchDateHeaderOf | converters/task_converter.py:48 | once the digit scan, the two separator scans and the letter scan succeed and four digits remain, the date pattern accepts the line with exactly those pieces |
| TaskConverter.DateHeaderComplete | converters/task_converter.py:48 | every well-formed date header is accepted, with its own pieces |
| TaskConverter.DateHeaderParses | converters/task_converter.py:48-50 | an accepted date header always parses, to the date built from its pieces |
| TaskConverter.MatchPicHeaderSound | converters/task_converter.py:53 | a line the PIC pattern accepts is digits, a dot and at least one more character, and spells out the line |
| TaskConverter.PicHeaderComplete | converters/task_converter.py:53 | every well-formed PIC header is accepted, with its own pieces |
| TaskConverter.PicHeaderIsNotDate | converters/task_converter.py:48-56 | no line is both a PIC header and a date header |
| TaskConverter.MatchTaskLine | converters/task_converter.py:58-60 | the task pattern on a trimmed line, with the matched rest stripped as description; stated by MatchTaskLineSound and MatchTaskLineComplete |
| TaskConverter.MatchTaskLineSound | converters/task_converter.py:58-60 | a line is accepted exactly when it is a hyphen, whitespace and a non-empty rest, and the description is that rest stripped |
| TaskConverter.MatchTaskLineComplete | converters/task_converter.py:58-60 | every hyphen, whitespace and non-empty rest is accepted, with the rest stripped as description |
| TaskConverter.MatchDateHeader | converters/task_converter.py:48 | the greedy scan for the date pattern (1-2 digits, a hyphen, letters, a hyphen, 4 digits, with optional whitespace around the hyphens); its meaning is stated by MatchDateHeaderSound and DateHeaderComplete |
| TaskConverter.MatchPicHeader | converters/task_converter.py:53 | the greedy scan for the PIC pattern (digits, a dot, optional whitespace, then at least one character); its meaning is stated by MatchPicHeaderSound and PicHeaderComplete |
| TaskConverter.Classify | converters/task_converter.py:44-59 | the branch one trimmed line takes; its cases are stated by ClassifyCases, ClassifyDateHeader, ClassifyPicHeader, ClassifyTaskLine and ClassifySound |
| TaskConverter.Step | converters/task_converter.py:43-68 | one pass of the loop body over a classified line; what it emits and changes is stated by StepEmits |
| TaskConverter.Run | converters/task_converter.py:43-68 | the loop over the classified lines emits at most one record per line; its behaviour over blocks is stated by RunAppend, RunWellFormed and SectionRun |
| TaskConverter.ClassifyCases | converters/task_converter.py:44-59 | the branch a line takes: blank or '=' skipped, then date header, then PIC header, then task line, first match wins |
| TaskConverter.ClassifyDateHeader | converters/task_converter.py:48-51 | a date header sets the date from its pieces |
| TaskConverter.ClassifyPicHeader | converters/task_converter.py:53-56 | a PIC header sets the PIC to its stripped name, which is never empty |
| TaskConverter.ClassifyTaskLine | converters/task_converter.py:58-63 | a task line is a task with its stripped description and that description's key |
| TaskConverter.ClassifySound | converters/task_converter.py:44-63 | headers carry non-empty values; task descriptions are stripped and non-empty |
| TaskConverter.Kinds | converters/task_converter.py:43-44 | one classified line per line; stated by KindsAt and KindsAppend |
| TaskConverter.KindsAt | converters/task_converter.py:43-44 | each line is classified on its own |
| TaskConverter.KindsAppend | converters/task_converter.py:43 | classifying two blocks of lines is classifying each |
| TaskConverter.StepEmits | converters/task_converter.py:43-68 | only a task line emits, exactly when date and PIC are both set, one record with the current date and PIC and no state change; only a date header changes the date, only a PIC header the PIC |
| TaskConverter.ProcessLine | converters/task_converter.py:44-68 | the loop body computes the new date, the new PIC and the record emitted, as one step of `Run` |
| TaskConverter.RunNextLine | converters/task_converter.py:43 | the run over one more line is one more step after the run so far |
| TaskConverter.Lines | converters/task_converter.py:38 | the text stripped and split on '\n'; JoinSplit states that the lines rebuild the stripped text |
| TaskConverter.ProcessTelegramText | converters/task_converter.py:38-74 | the records are those of the run over the stripped text's lines, and every record is well formed (stripped non-empty description, its key, non-empty PIC, "InProgress", non-empty date, "") |
| TaskConverter.KindsSound | converters/task_converter.py:43-63 | every line of a text classifies soundly |
| TaskConverter.RunWellFormed | converters/task_converter.py:60-68 | lines that classify soundly only ever emit well-formed records |
| TaskConverter.RunAppend | converters/task_converter.py:43-68 | running two blocks of lines is running the first, then the second from where it left off; records keep line order |
| TaskConverter.NoDateNoRecords | converters/task_converter.py:58-59 | with no date set and no date header, nothing is emitted and the date stays unset |
| TaskConverter.TasksUnderHeaders | converters/task_converter.py:58-68 | under a set date and PIC, task lines emit one record each, in order, and leave the state unchanged |
| TaskConverter.SectionRun | converters/task_converter.py:43-68 | a date, a PIC and N task lines give N records carrying that date and PIC |
| TaskConverter.OneSectionReport | converters/task_converter.py:38-68 | a report of a date header, a PIC header and N task lines gives exactly N records, in order, each with its stripped description, its key, the PIC's name, "InProgress", the parsed date and "" |
| Months.Lookup | converters/task_converter.py:32 | `month_map.get` on the month table; stated through LookupIn, LookupDistinct and TableNamesDistinct |
| Months.LookupIn | converters/task_converter.py:32 | `month_map.get`: a found value comes from the first pair with that name, and no earlier pair has the name; None means the name is not in the table |
| Months.LookupDistinct | converters/task_converter.py:32 | in a table whose names are all different, each name looks up its own value |
| Months.TableNamesDistinct | converters/task_converter.py:19-24 | no Indonesian month name appears twice in the table, so it reads as the dictionary |
| Months.EnglishNamesTitled | converters/task_converter.py:19-24 | every English month name is a capital letter followed by lower-case letters |
| BacklogConverter.ConvertMixedLanguageDate | converters/backlog_converter.py:7-22 | the loop computes `MixedLanguageDate`: None for a non-string or blank value, else the lower-cased text with the twelve month names substituted in table order |
| BacklogConverter.MixedLanguageDateNone | converters/backlog_converter.py:7-9 | the result is None exactly for a non-string or a whitespace-only string |
| BacklogConverter.MixedLanguageDate | converters/backlog_converter.py:7-20 | the value of `convert_mixed_language_date`; stated by MixedLanguageDateNone, MonthNameReplaced and NoMonthIsLowered |
| BacklogConverter.ReplaceEach | converters/backlog_converter.py:18-19 | the replacements applied one after the other in table order; stated by ReplaceEachStep, ReplaceEachAbsent, ReplaceEachInWord and ReplaceEachIsolated |
| BacklogConverter.ReplaceEachStep | converters/backlog_converter.py:18-19 | the chain from row i on is row i's replacement followed by the chain from row i + 1, as one turn of the loop |
| BacklogConverter.ReplaceEachInWord | converters/backlog_converter.py:18-19 | on "day month year" with digit day and year, the chain of replacements only touches the month word |
| BacklogConverter.ReplaceEachIsolated | converters/backlog_converter.py:18-19 | a table row whose pattern no earlier pattern occurs in, and whose replacement no later pattern occurs in, maps its pattern to its replacement |
| BacklogConverter.MonthsIsolated | converters/backlog_converter.py:10-15 | each of the twelve rows of the month table is isolated in that sense |
| BacklogConverter.MonthNameReplaced | converters/backlog_converter.py:7-20 | "d m y" with digit day and year and any letter case of the i-th Indonesian month name becomes "d M y" with the i-th English name |
| BacklogConverter.UpperCaseMonth | converters/backlog_converter.py:16-20 | "d SEPTEMBER y" becomes "d September y" |
| BacklogConverter.ReplaceEachAbsent | converters/backlog_converter.py:18-19 | replacements whose patterns do not occur change nothing |
| BacklogConverter.NoMonthIsLowered | converters/backlog_converter.py:16-20 | a date with no Indonesian month name comes back lower-cased, not unchanged |
| BacklogConverter.ApiKeys | converters/backlog_converter.py:29 | there is one key per comma-separated piece |
| BacklogConverter.ApiKeysClean | converters/backlog_converter.py:29 | every key is stripped and holds no comma |
| BacklogConverter.ApiKeysRoundTrip | converters/backlog_converter.py:29 | stripped comma-free keys joined with ',' read back as the same list |
| BacklogConverter.NewBacklogProcessor | converters/backlog_converter.py:25-30 | fails with the "not found" message exactly for the empty string; otherwise a processor whose keys are the stripped comma-separated pieces |
| BacklogConverter.BacklogProcessor.constructor | converters/backlog_converter.py:25-30 | keys from the string, index 0, no rotation yet |
| BacklogConverter.IndexAfter | converters/backlog_converter.py:36 | after any number of rotations the index is below the number of keys |
| BacklogConverter.IndexAfterIsMod | converters/backlog_converter.py:36 | after k rotations over n keys the index is k mod n |
| BacklogConverter.RoundRobin | converters/backlog_converter.py:36 | n more rotations come back to the same key |
| BacklogConverter.ModSucc | converters/backlog_converter.py:36 | one more rotation adds one modulo n |
| BacklogConverter.BacklogProcessor.RotateAndConfigureApiKey | converters/backlog_converter.py:33-40 | the index becomes (index + 1) mod n, one more rotation is counted, and the key returned is the one now selected |
| BacklogConverter.BacklogProcessor.CallLlm | converters/backlog_converter.py:71-85 | rotates once, then returns the reply stripped, or "" when the call fails |
| BacklogConverter.LlmResult | converters/backlog_converter.py:82-85 | the reply text stripped, or "" for a failed call; stated by CallLlm and EpicsForFailedCall |
| BacklogConverter.Quote | converters/backlog_converter.py:43 | one Epic between double quotes; stated by EpicListReadsBack |
| BacklogConverter.EpicListString | converters/backlog_converter.py:43 | the quoted Epics joined by a comma and a space; stated by EpicListReadsBack, EpicListUnfold and EpicListStartsWithQuote |
| BacklogConverter.CreatePrompt | converters/backlog_converter.py:42-69 | the parts of the prompt that vary, the Epic list and the tasks; used by GetEpicsForNewTasks |
| BacklogConverter.EpicListReadsBack | converters/backlog_converter.py:43 | the rendered Epic list, split on '"', holds each Epic in order between the quotes, when no Epic contains a quote |
| BacklogConverter.EpicListUnfold | converters/backlog_converter.py:43 | a list of several Epics is the first one quoted, ", ", and the list of the rest |
| BacklogConverter.EpicListStartsWithQuote | converters/backlog_converter.py:43 | a non-empty list renders as text that opens with a quote |
| BacklogConverter.RemoveFences | converters/backlog_converter.py:91 | removing fences never lengthens the reply |
| BacklogConverter.RemoveFencesPlain | converters/backlog_converter.py:91 | a reply without a backtick is left as it is |
| BacklogConverter.RemoveFencesCount | converters/backlog_converter.py:91 | removing fences keeps every other character, so the count of '\|' is unchanged |
| BacklogConverter.RemoveFencesPrefix | converters/backlog_converter.py:91 | text before the first backtick is kept and removal continues after it |
| BacklogConverter.RemoveFencesFenced | converters/backlog_converter.py:91 | a reply fenced as three backticks and `csv`, a newline, the text, a newline and three backticks loses both fences and keeps the text between its line breaks |
| BacklogConverter.FencedSameLines | converters/backlog_converter.py:91-92 | a fenced stripped text without backticks gives the same response lines as the bare text |
| BacklogConverter.ResponseLines | converters/backlog_converter.py:91-92 | the reply with fences removed, stripped and split on '\n'; stated by FencedSameLines and RenderAllLines |
| BacklogConverter.DataLines | converters/backlog_converter.py:93-96 | every line kept has exactly five '\|' |
| BacklogConverter.DataLinesKeepsClean | converters/backlog_converter.py:96 | stripped lines with five separators are all kept, unchanged and in order |
| BacklogConverter.DataLinesDropsOthers | converters/backlog_converter.py:96-99 | lines without exactly five separators are all dropped, leaving the empty table |
| BacklogConverter.ParseLlmResponseToDf | converters/backlog_converter.py:87-111 | the column-by-column stripping loop computes `ParseLlmResponse`: empty for an empty reply or no data line, else one six-cell row per data line |
| BacklogConverter.RenderLine | converters/backlog_converter.py:96-106 | a clean row written with '\|' is one stripped data line whose cells read back as the row |
| BacklogConverter.RowFromLine | converters/backlog_converter.py:100-106 | a data line split on '\|' into six stripped cells; stated by RowFromRender and RenderLine |
| BacklogConverter.RowFromRender | converters/backlog_converter.py:100-106 | a clean row, written and read back, is the same row |
| BacklogConverter.RenderAllLines | converters/backlog_converter.py:91-96 | the data lines of clean rows written one per line are exactly those rows' lines |
| BacklogConverter.ParseRendered | converters/backlog_converter.py:87-106 | clean rows written one per line parse back to exactly those rows |
| BacklogConverter.ParseLlmResponse | converters/backlog_converter.py:87-106 | the value of `_parse_llm_response_to_df`; stated by ParseRendered, ParseFencedRendered, DataLinesKeepsClean and DataLinesDropsOthers |
| BacklogConverter.ParseFencedRendered | converters/backlog_converter.py:87-106 | clean rows written one per line inside csv fences parse back to exactly those rows |
| BacklogConverter.Finish | converters/backlog_converter.py:122-131 | a model row with the task's canonical text and both dates converted; stated by EpicsForCleanReply and EpicsForKeepsTasks |
| BacklogConverter.EpicsFor | converters/backlog_converter.py:113-133 | the value of `get_epics_for_new_tasks` for a reply; stated by EpicsForFailedCall, EpicsForKeepsTasks, EpicsForCleanReply, EpicsForFencedReply and EpicsForCountMismatch |
| BacklogConverter.BacklogProcessor.GetEpicsForNewTasks | converters/backlog_converter.py:113-133 | rotates once and returns `EpicsFor` of the model's reply to the prompt built from the tasks and the known Epics |
| BacklogConverter.EpicsForFailedCall | converters/backlog_converter.py:116-117 | a failed call gives no result |
| BacklogConverter.EpicsForKeepsTasks | converters/backlog_converter.py:122-123 | a result has one row per task, each with that task's canonical text |
| BacklogConverter.EpicsForCleanReply | converters/backlog_converter.py:119-133 | a clean reply with one row per task gives those rows in order, each with its task's canonical text and both dates converted |
| BacklogConverter.EpicsForFencedReply | converters/backlog_converter.py:113-133 | the same rows arriving inside csv fences are taken whole just the same |
| BacklogConverter.EpicsForCountMismatch | converters/backlog_converter.py:122-126 | a clean reply whose row count differs from the number of tasks gives no result |
| GoogleSheets.ColValues | google_sheets.py:22 | one value per row |
| GoogleSheets.NonEmpty | google_sheets.py:24 | the cells that are not empty, in order; stated by NonEmptySpec |
| GoogleSheets.NonEmptySpec | google_sheets.py:24 | keeps exactly the non-empty values |
| GoogleSheets.Insert | google_sheets.py:24 | one value put into a sorted list of distinct values; stated by InsertSpec |
| GoogleSheets.InsertSpec | google_sheets.py:24 | inserting keeps the list strictly increasing and adds just the new value |
| GoogleSheets.SortedSet | google_sheets.py:24 | `sorted(set(...))`, built by insertion; stated by SortedSetSpec and StrictlySortedUnique |
| GoogleSheets.SortedSetSpec | google_sheets.py:24 | `sorted(set(...))` is strictly increasing with exactly the input's members |
| GoogleSheets.StrictlySortedUnique | google_sheets.py:24 | two strictly increasing lists with the same members are equal |
| GoogleSheets.AfterHeader | google_sheets.py:24 | the column without its first cell, the header; stated through ExistingEpicsSpec |
| GoogleSheets.ExistingEpics | google_sheets.py:22-24 | `sorted(set(...))` of the non-empty cells below the header; stated by ExistingEpicsSpec and ExistingEpicsUnique |
| GoogleSheets.ExistingEpicsSpec | google_sheets.py:22-24 | the Epics read are strictly increasing and are exactly the non-empty cells below the header |
| GoogleSheets.ExistingEpicsUnique | google_sheets.py:22-24 | any strictly increasing list of exactly those cells is the list read |
| GoogleSheets.GoogleSheetsClient.GetExistingEpics | google_sheets.py:16-32 | a missing worksheet or a column below 1 gives []; otherwise the Epics of that column |
| GoogleSheets.Key | google_sheets.py:54-56 | the value a row is grouped by, its first cell (the Epic column); used through Keys |
| GoogleSheets.Keys | google_sheets.py:54-56 | one key per appended row, in row order |
| GoogleSheets.GroupOrder | google_sheets.py:56 | the Epics in the order `groupby(sort=False)` yields them; stated by GroupOrderSpec |
| GoogleSheets.FirstIndex | google_sheets.py:56 | the position where an Epic first appears, or the row count when it does not appear |
| GoogleSheets.GroupOrderSpec | google_sheets.py:56 | the groups are distinct, are exactly the Epics that occur, and come in the order of each Epic's first appearance |
| GoogleSheets.GroupOrderExample | google_sheets.py:56 | Epics B, A, B give the groups B, A |
| GoogleSheets.Occurrences | google_sheets.py:57 | the size of an Epic's group, the rows that hold it; stated by OccurrencesAbsent and GroupsTile |
| GoogleSheets.OccurrencesAbsent | google_sheets.py:57 | an Epic that does not occur has no rows |
| GoogleSheets.Offset | google_sheets.py:70 | how far the cursor has moved after the given groups; stated by OffsetSnoc and GroupsTile |
| GoogleSheets.OffsetSnoc | google_sheets.py:70 | one more row moves the cursor one further when its Epic is among the groups |
| GoogleSheets.GroupsTile | google_sheets.py:53-70 | the group sizes add up to the number of rows appended |
| GoogleSheets.PlanConcat | google_sheets.py:56-70 | merges in two adjacent blocks of rows stay within the rows and in order |
| GoogleSheets.RunMerge | google_sheets.py:57-68 | one merge from the cursor over a group of more than one row, none for a single row; stated through MergePlanBounds |
| GoogleSheets.MergePlan | google_sheets.py:56-70 | the merges the group loop issues, one per group of two or more rows, from the cursor; stated by MergePlanBounds and MergeSpansOtherEpic |
| GoogleSheets.MergePlanBounds | google_sheets.py:56-70 | every merge lies in the rows the groups take from the start row, spans at least two rows, is in the given column, and comes after the merges before it |
| GoogleSheets.MergesWithinAppended | google_sheets.py:42-70 | every merge lies within the appended block, and no two overlap |
| GoogleSheets.Worksheet.AppendRows | google_sheets.py:49 | the new rows go after the existing ones |
| GoogleSheets.Worksheet.MergeCells | google_sheets.py:68 | the merge is recorded; the rows do not change |
| GoogleSheets.GoogleSheetsClient.AppendAndMergeData | google_sheets.py:34-80 | fails with WorksheetNotFound exactly for a missing worksheet; otherwise appends the rows from row len(rows)+1, issues the merges of the group loop, and returns the number of rows |
| GoogleSheets.MergeSpansOtherEpic | google_sheets.py:56-70 | for Epics A, B, A the group loop merges rows 1 and 2, which hold different Epics |
| GoogleSheets.RunLength | google_sheets.py:56-57 | the corrected group size: how many leading rows share the first row's Epic; stated by RunLengthSpec and RunLengthIs |
| GoogleSheets.Runs | google_sheets.py:56-70 | the corrected merges, one per run of two or more consecutive rows with one Epic; stated by RunsWithin, RunsSameKey and RunsJoinNeighbours |
| GoogleSheets.RunLengthSpec | google_sheets.py:56-57 | a run is exactly the leading rows that share the first row's Epic |
| GoogleSheets.RunLengthIs | google_sheets.py:56-57 | any such block of leading rows is the run |
| GoogleSheets.RunsWithin | google_sheets.py:56-70 | the corrected merges lie within the appended rows and do not overlap |
| GoogleSheets.RunsSameKey | google_sheets.py:56-70 | no corrected merge covers rows of two Epics |
| GoogleSheets.RunsJoinNeighbours | google_sheets.py:56-70 | any two neighbouring rows with the same Epic end up in one corrected merge |
| GoogleSheets.RunEnd | google_sheets.py:56-57 | the scan stops at the first row with another Epic, or at the end |
| GoogleSheets.Worksheet.MergeRuns | google_sheets.py:56-70 | issues exactly the corrected merges and leaves the rows alone |
| GoogleSheets.GoogleSheetsClient.AppendAndMergeRuns | google_sheets.py:34-80 | the corrected append: the same errors, rows and result, with the merges over runs of consecutive rows with one Epic |
| Strings.IsSpace | converters/task_converter.py:44 | the characters `strip` removes and `\s` matches: Python's whitespace set; used by TrimStartSpec and TrimEndSpec |
| Strings.Lower | converters/task_converter.py:10 | `lower` on ASCII letters; stated by LowerSpec and LowerAppend |
| Strings.LowerSpec | converters/task_converter.py:10 | `lower` leaves no upper-case letter, keeps each whitespace character where it was, and leaves a lower-case text unchanged |
| Strings.LowerAppend | converters/task_converter.py:10 | lower-casing works character by character, so it distributes over concatenation |
| Strings.Capitalize | converters/task_converter.py:32 | `capitalize` keeps the length, upper-cases the first character and lower-cases the rest; CapitalizeTitle states it leaves a capitalised word unchanged |
| Strings.CapitalizeTitle | converters/task_converter.py:32 | a word that is one capital and then lower case is left unchanged |
| Strings.StripEmpty | converters/backlog_converter.py:8 | `strip` gives the empty string exactly for a whitespace-only text |
| Strings.StrippedIsFixpoint | converters/task_converter.py:44 | a stripped text strips to itself |
| Strings.TrimStart | converters/task_converter.py:44 | the leading whitespace removed; stated by TrimStartSpec |
| Strings.TrimEnd | converters/task_converter.py:44 | the trailing whitespace removed; stated by TrimEndSpec |
| Strings.Strip | converters/task_converter.py:44 | `strip` gives a stripped text no longer than its input; TrimStartSpec and TrimEndSpec state what is removed |
| Strings.Split | converters/task_converter.py:38 | `split` at a one-character separator gives one piece more than the separator's count |
| Strings.ReplaceAll | converters/backlog_converter.py:18-19 | `replace` of every non-overlapping occurrence, left to right; stated by ReplaceFirst, ReplaceSkip and ReplaceConcat |
| Strings.ReplaceAbsent | converters/backlog_converter.py:18-19 | replacing a pattern that does not occur changes nothing |
| Strings.ReplaceSkip | converters/backlog_converter.py:18-19 | a stretch in which no occurrence starts is copied through unchanged |
| Strings.ReplaceFirst | converters/backlog_converter.py:18-19 | the first occurrence of the pattern is replaced, and replacing goes on after it |
| Strings.ReplaceConcat | converters/backlog_converter.py:18-19 | two texts are replaced separately when the second starts with a character foreign to the pattern |
| Strings.ReplaceInWord | converters/backlog_converter.py:18-19 | in "day word year" with digit day and year, a pattern without spaces that starts with a non-digit is replaced only inside the word |
| Strings.TrimStartSpec | converters/task_converter.py:44 | `lstrip` keeps a suffix of the text and removes only whitespace before it |
| Strings.TrimEndSpec | converters/task_converter.py:44 | `rstrip` keeps a prefix of the text and removes only whitespace after it |
| Strings.StripPadded | converters/task_converter.py:44 | a stripped text surrounded by whitespace strips back to itself |
| Strings.Join | converters/backlog_converter.py:100 | the pieces with the separator between neighbours; stated by JoinSplit and SplitJoin |
| Strings.JoinSplit | converters/task_converter.py:38 | joining the pieces of a split with the separator gives back the text |
| Strings.SplitJoin | converters/backlog_converter.py:100 | splitting pieces joined by a separator they do not contain gives back the pieces |
| Strings.Count | converters/backlog_converter.py:96 | the occurrences of one character; stated by CountAppend and by Split's piece count |
| Strings.CountAppend | converters/backlog_converter.py:96 | counting a character in two texts adds the counts |
| Strings.Less | google_sheets.py:24 | the string order `sorted` uses, by code point with a proper prefix first; stated by LessTransitive and LessTotal |
| Strings.LessTransitive | google_sheets.py:24 | the string order that `sorted` uses is transitive |
| Strings.LessTotal | google_sheets.py:24 | any two different strings are ordered one way or the other |

## Left out

- Printing and logging, and the DataFrame construction around the records. A table is a sequence of rows.
- The Gemini call, `genai.configure` and the model settings. The reply is the parameter `llm`, with `None` standing for any failed call.
- The prose of the prompt. `CreatePrompt` keeps only the parts that vary: the rendered Epic list and the task rows.
- The tab-separated `to_csv` text of the tasks in the prompt. The prompt carries the task records themselves.
- pandas `read_csv` quoting, NaN handling and dtype inference. Each data line is split on '|' into six cells and every cell is stripped, as if every column were text. A cell the reader would turn into a number or NaN is not modelled.
- gspread and oauth2client (connection, `worksheet`, `col_values`, `append_rows`, `merge_cells`, the A1 notation of `rowcol_to_a1`). A worksheet is an in-memory list of rows plus the list of merges issued.
- Full Unicode case mapping. `lower` and `capitalize` change ASCII letters only. `strip` and the regex class `\s` use Python's full whitespace set.
- Non-ASCII digits in the patterns. Python's `\d` also matches other Unicode decimal digits, but the model's `Digits` class is '0'-'9' only. A header such as "١٢-Juni-2025" (Arabic-Indic digits) is a date header to the code, while the model classifies it as something else.
- `.` and `$` meeting a newline. The lines come from a split on '\n', so they contain none.
- Backlog reconciliation against a previous snapshot, batch deduplication, end-date stamping and snapshot sorting. No code in the modelled files does them.
- GoogleSheets.GoogleSheetsClient.GetExistingEpics: the only errors modelled are a missing worksheet and a column number below 1. Other library errors, which the code also turns into [], are not modelled.
- GoogleSheets.GoogleSheetsClient.AppendAndMergeData: a merge column below 1 is not rejected. Write errors, which the code re-raises after printing them, are not modelled.
- GoogleSheets.Worksheet.MergeCells: the range is recorded as the code requests it. The row-wise merge type it passes, and what the sheet then visibly joins, are not modelled.
- GoogleSheets.GroupOrder: the rows are the filled-in strings, so an empty Epic cell forms a group of its own. `groupby` on the original table drops rows whose Epic is missing (NaN).
- BacklogConverter.BacklogProcessor.RotateAndConfigureApiKey: returns the key instead of configuring the library with it.
- BacklogConverter.ConvertMixedLanguageDate: the `except` branch, which gives back the input, is not modelled. No operation in the `try` can raise on a string.

## Findings

| source | as written | input that shows it | evidently intended | confidence | as-written member | corrected member |
|---|---|---|---|---|---|---|
| google_sheets.py:56-70 | `groupby(sort=False)` gathers each Epic's rows wherever they are, but the cursor treats each group as consecutive rows from where the previous group ended | rows whose Epics are A, B, A appended from row 1: group A has two rows, so the code issues a merge of the range rows 1-2, and row 2 holds B (what the sheet then shows under the row-wise merge type is not modelled) | each merge range the code issues covers only rows that hold the same Epic | high (proved; not executed) | GoogleSheets.MergeSpansOtherEpic | GoogleSheets.GoogleSheetsClient.AppendAndMergeRuns |
