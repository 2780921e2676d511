# Daily task report of the runrun.it Telegram bot — a Dafny model

This project models the report builder in `main()` of `runrun_telegram_report.py`.
The builder receives the day's tasks from the runrun.it API as a list of records.
It turns that list into one Telegram message, or one fixed sentence when there are no tasks.

- **Sort** (line 9). The list is sorted in place by project name. A missing or empty name sorts as `""`. Python's sort is stable.
- **No tasks** (lines 12-14). The fixed sentence "✅ Nenhuma tarefa agendada para hoje." goes to both chats through `send_to_telegram`. Then the run ends.
- **Blocks** (lines 23-45). Each task becomes a text block holding its title, responsible people, project, status and link. Every field has a fallback.
- **Buckets** (lines 47-51). A block is appended either to the "Prazo Solicitado" accumulator or to the "Outras" accumulator. It goes to the first one exactly when the lower-cased status *equals* `"prazo solicitado"`.
- **Message** (lines 54-63). A bucket appears only when it received a block. A `"\n"` separates the two buckets when both appear. The stripped result goes to both chats through `split_and_send_message`.

Modules:

- `Wrappers` (`wrappers.dfy`): `Option`, used for dictionary fields that may be missing.
- `PyStr` (`pystr.dfy`): the Python string built-ins the builder uses. These are `strip`, `lower` (as far as the status test needs it), `join`, `str(int)` with its inverse, and the string order `<=`.
- `Tasks` (`tasks.dfy`): the task record, the field fallbacks, the bucket test and the block text.
- `ProjectSort` (`sorting.dfy`): the sort of line 9. It has an in-place stable insertion sort on an array and the specification function `SortByProject`. Lemmas prove that `SortByProject` is a permutation, is ordered, is stable, and is the only list with those properties.
- `Report` (`report.dfy`): the loop that fills the two accumulators (`BuildBuckets`) and the joining of lines 54-60 (`JoinBuckets`). `RunReport` is the whole of `main()` from line 9 on. It returns the one delivery call that `main()` makes, as a `Delivery` value.

## Model

| member | source | states |
|---|---|---|
| `ProjectSort.SortKey` | runrun_telegram_report.py:9 | The key is the project name when it is truthy, and `""` otherwise |
| `ProjectSort.SortTasksInPlace` | runrun_telegram_report.py:9 | The array after the in-place sort is `SortByProject` of the array before it |
| `ProjectSort.SortByProject` | runrun_telegram_report.py:9 | The sorted list is exactly as long as the input; the lemmas below give its contents, order and stability |
| `ProjectSort.InsertAt` | runrun_telegram_report.py:9 | One insertion step places `a[i]` into the sorted prefix after every task whose key is not greater; the rest of the array is unchanged |
| `ProjectSort.SortPermutes` | runrun_telegram_report.py:9 | The sorted list holds the same tasks as the input, each as often (multiset equality) |
| `ProjectSort.SortIsSorted` | runrun_telegram_report.py:9 | The sorted list is in non-decreasing order of project key under Python's string order |
| `ProjectSort.SortIsStable` | runrun_telegram_report.py:9 | For every key, the tasks with that key keep their input order |
| `ProjectSort.SortIsTheStableSort` | runrun_telegram_report.py:9 | Any key-ordered list that keeps every key's tasks in input order equals `SortByProject` of the input, so it is the result of Python's stable `list.sort` |
| `PyStr.LexLeTotal` | runrun_telegram_report.py:9 | Any two keys are comparable under Python's `<=` on strings |
| `PyStr.LexLeTransitive` | runrun_telegram_report.py:9 | Python's `<=` on strings is transitive |
| `PyStr.LexLeAntisymmetric` | runrun_telegram_report.py:9 | Two strings that are each `<=` the other are equal |
| `PyStr.LexLe` | runrun_telegram_report.py:9 | Python's `<=` on strings puts every prefix of a string before that string, the empty key `""` first of all |
| `Report.NoTasksReport` | runrun_telegram_report.py:12-14 | The delivery is `send_to_telegram` of the fixed "no tasks" sentence to `[CHAT_ID, CHAT_ID_SECUNDARIO]` exactly when the task list is empty |
| `Tasks.Title` | runrun_telegram_report.py:23 | The title is the task's title when it is truthy, and "Sem título" otherwise; it is never empty |
| `PyStr.Join` | runrun_telegram_report.py:28 | `", ".join` is as long as all the parts plus one separator between each pair of neighbours |
| `PyStr.JoinEndsWith` | runrun_telegram_report.py:28 | The last part closes the joined string |
| `Tasks.AssigneeNames` | runrun_telegram_report.py:28 | There is one name per assignment, in order: its `assignee_name`, or "Desconhecido" when the key is absent |
| `Tasks.Responsible` | runrun_telegram_report.py:26-30 | A non-empty assignment list gives the names joined by ", ". Otherwise the result is `responsible_name`, else `user_name`, else "Desconhecido", never empty |
| `Tasks.SingleAssignee` | runrun_telegram_report.py:26-28 | With one assignment, the responsible string is that assignee's name, or "Desconhecido" |
| `Tasks.ResponsibleLength` | runrun_telegram_report.py:28 | With assignments, the responsible string is as long as all names plus one ", " between each pair of neighbours |
| `Tasks.Project` | runrun_telegram_report.py:33 | The project is the project name when it is truthy, and "Projeto não identificado" otherwise |
| `Tasks.IdTruthy` | runrun_telegram_report.py:35 | An id that passes the `if task_id` test is present and renders as a non-empty text |
| `Tasks.IdText` | runrun_telegram_report.py:35 | A text id is put into the URL as it is; a numeric id as decimal text that reads back as the same number |
| `PyStr.IntToDecimal` | runrun_telegram_report.py:35 | The f-string text of a number is never empty and starts with '-' exactly when the number is negative |
| `Tasks.Link` | runrun_telegram_report.py:34-35 | The link is "https://runrun.it/tasks/" followed by the id's text when the id is truthy (not missing, 0 or ""), and "URL indisponível" otherwise |
| `Tasks.LinkIsUrlIff` | runrun_telegram_report.py:34-35 | The link starts with the task-URL prefix if and only if the id is truthy |
| `Tasks.DistinctNumericIdsDistinctLinks` | runrun_telegram_report.py:34-35 | Different non-zero numeric ids give different links |
| `PyStr.IntToDecimalRoundTrip` | runrun_telegram_report.py:35 | Reading back the decimal text that the f-string gives a numeric id yields that id |
| `Tasks.Status` | runrun_telegram_report.py:36 | The status is the status key's value when the key is present, even when empty; "Status desconhecido" is used only when the key is absent |
| `Tasks.BlockParts` | runrun_telegram_report.py:40-44 | The block is made of fifteen pieces, the pin and bold tag first and the anchor's end and the blank line last |
| `Tasks.RenderBlock` | runrun_telegram_report.py:39-45 | Every block opens with a non-whitespace character and ends with ">\n\n" |
| `Tasks.BlockOpensWithTitle` | runrun_telegram_report.py:40 | The block begins with the pin, then the title in bold, then a line break |
| `Tasks.BlockClosesWithLink` | runrun_telegram_report.py:44-45 | The block ends with the link line: the link as the anchor's target, then a blank line |
| `Tasks.IsUrgent` | runrun_telegram_report.py:36-48 | A task is urgent exactly when its status key is present and its value lower-cases to "prazo solicitado"; the default "Status desconhecido" never is |
| `PyStr.Lower` | runrun_telegram_report.py:48 | `lower()` keeps the length of the status |
| `PyStr.LowerAt` | runrun_telegram_report.py:48 | `lower()` maps each character of the status on its own |
| `Tasks.UrgentHasMarkerLength` | runrun_telegram_report.py:48 | The bucket test is an equality test, so an urgent status has exactly the marker's length; a longer status that contains the marker is not urgent |
| `Tasks.UrgentIgnoresCase` | runrun_telegram_report.py:48 | Two statuses that are equal once lower-cased go to the same bucket |
| `Tasks.UrgentExamples` | runrun_telegram_report.py:48 | "Prazo Solicitado" and "PRAZO SOLICITADO" are urgent; "Prazo Solicitado (cliente)" is not |
| `Report.Select` | runrun_telegram_report.py:47-51 | A bucket's tasks all have the urgency the bucket asks for, and the bucket is no longer than the list |
| `Report.Blocks` | runrun_telegram_report.py:49-51 | The blocks of a bucket are empty exactly when the bucket is empty; otherwise they open with a non-space character and end with ">\n\n" |
| `Report.BuildBuckets` | runrun_telegram_report.py:18-51 | After the loop, each accumulator holds its heading followed by the blocks of exactly the tasks of its bucket, in list order |
| `Report.SelectAppend` | runrun_telegram_report.py:22-51 | Bucket order follows list order: the bucket of a concatenation is the concatenation of the buckets |
| `Report.BucketsPartition` | runrun_telegram_report.py:47-51 | Every task lands in exactly one bucket: the two buckets' multisets add up to the list's multiset |
| `Report.BucketMembership` | runrun_telegram_report.py:47-51 | A task is in the "Prazo Solicitado" bucket if and only if it is in the list and urgent, and in the "Outras" bucket if and only if it is in the list and not urgent |
| `Report.BucketHasBlocksIff` | runrun_telegram_report.py:55-57 | A stripped accumulator differs from its bare title if and only if it received a block |
| `PyStr.LStrip` | runrun_telegram_report.py:55-57 | `lstrip` removes a leading run of whitespace, all of it, and keeps the rest unchanged |
| `PyStr.RStrip` | runrun_telegram_report.py:55-57 | `rstrip` removes a trailing run of whitespace, all of it, and keeps the rest unchanged |
| `PyStr.Strip` | runrun_telegram_report.py:55-63 | The stripped text is empty or has non-whitespace characters at both ends |
| `Report.JoinBuckets` | runrun_telegram_report.py:54-60 | The joined message holds each non-empty bucket under its heading, in order, with "\n" between them only when both are present |
| `Report.Stitch` | runrun_telegram_report.py:54-60 | The joined text is empty only when both buckets are; the "Prazo Solicitado" heading and its blocks open it, and the "Outras" heading and its blocks close it |
| `Report.Assembled` | runrun_telegram_report.py:47-60 | The joined text of the two buckets is empty exactly when both buckets are empty |
| `Report.StitchCases` | runrun_telegram_report.py:54-60 | The joined message case by case: nothing, one bucket alone, or both buckets separated by "\n" |
| `Report.StitchOpening` | runrun_telegram_report.py:54-60 | The stripped message opens with the "Prazo Solicitado" title exactly when that bucket has blocks, and with the "Outras" title otherwise |
| `Report.MessageOpening` | runrun_telegram_report.py:54-63 | Applied to task buckets: the message opens with the "Prazo Solicitado" title if and only if some task is urgent |
| `Report.StitchMessage` | runrun_telegram_report.py:54-63 | When some bucket has blocks, stripping the joined text removes exactly the final blank line, and the result is not empty |
| `Report.MessageIsAssembledText` | runrun_telegram_report.py:54-63 | The message passed on is the assembled text of the two buckets without its final blank line, and it is not empty |
| `Report.RunReport` | runrun_telegram_report.py:9-63 | The task array ends up sorted as line 9 sorts it, and the one delivery made is `Delivered` of the sorted list |
| `Report.Delivered` | runrun_telegram_report.py:12-63 | The delivery always goes to `[CHAT_ID, CHAT_ID_SECUNDARIO]`; it is `send_to_telegram` of the fixed sentence exactly when the sorted list is empty, and `split_and_send_message` otherwise |
| `Report.TasksReport` | runrun_telegram_report.py:54-63 | For a non-empty task list, the one delivery is `split_and_send_message` to `[CHAT_ID, CHAT_ID_SECUNDARIO]`, and its text is not empty |
| `Report.ReportHoldsEveryTask` | runrun_telegram_report.py:9-51 | Every input task is in exactly one bucket of the sorted list, with multiplicity |

## Left out

- `get_users` and `get_today_tasks` (lines 3 and 6) are not part of this model. The task list is the input of `RunReport`. The user dictionary of line 3 is never used, so it is dropped.
- `send_to_telegram` and `split_and_send_message` (lines 13 and 63) are not part of this model. The call each receives is recorded as a `Delivery` value. Splitting into Telegram-sized chunks and the HTTP sends are not modelled.
- `CHAT_ID` and `CHAT_ID_SECUNDARIO` are module constants defined outside these files. They become a `Config` parameter.
- `PyStr.Lower`: lower-cases only A-Z, not Python's full Unicode `str.lower`. For the one use made of it, comparison with the ASCII text "prazo solicitado", it decides as Python does. The only other characters whose lower case is an ASCII letter are U+0130, which lowers to two characters, and U+212A, which lowers to `k`. Neither can make a status equal to the marker.
- A status or `assignee_name` key that is present but holds null is not representable. Python raises at line 48 (`.lower()` on `None`) or at line 28 (`join` of `None`). The model treats only absent keys as `None` there.
- Non-string values are not modelled: titles, names or project names that are numbers or other objects, and ids that are floats or booleans. Ids are a whole number or a text.
- `ProjectSort.SortTasksInPlace`: Python's `list.sort` is Timsort, not insertion sort. `SortIsTheStableSort` proves that any ordered, stable result equals `SortByProject`, so the resulting order is the same.
- Emoji and HTML markup in the block and headings are opaque literal text. Telegram's rendering of them is not modelled.
- `main()` resolves no leader tags, does no chunking of its own, no date filtering, no paging and no retry, and adds no partial-failure notice. The model has none of these either.
- `print_first_task.py` is an environment read, an HTTP GET and console output, with no logic to model.
