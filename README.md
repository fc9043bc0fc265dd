# To-do tracker core in Dafny

This project models the core of a small C++ to-do tracker. It covers:

- the task record and its three kinds: simple, deadline, recurring;
- the one-line text format a task is saved in, and the parser that reads it back;
- the string helpers the format depends on (`trim`, `toLower`, `split`,
  `escapePipes`, `unescapePipes`, `isValidDateYYYYMMDD`);
- the `TaskManager` store: add, remove, find, search, toggle, the two sorts,
  save to a file and load from a file.

Layout, one module per file:

- `Wrappers.dfy`: `Option`.
- `Ascii.dfy`: the `<cctype>` classes in the C locale.
- `Numbers.dfy`: decimal output of an `int` (`operator<<`) and `std::stoi`.
- `Utils.dfy`: the `utils` namespace.
- `Task.dfy` (module `Tasks`): `Priority` and the `Task` record.
- `TaskCodec.dfy`: `serialize`, `detailsLine` and `Task::deserialize`.
- `TaskOrder.dfy`: the two sort comparators and a sort proved to return a
  sorted permutation.
- `TaskStore.dfy`: the `TaskManager` class, and the save/load specification
  with its round-trip lemmas.

Modelling choices:

- **Task values.** A task is a value: `datatype Task` with a `Variant` for the
  three subclasses. The C++ setters become functions that return the updated
  task.
- **The store.** `TaskManager` is a class. Its fields are `tasks: seq<Task>`
  and `nextId: int`, and its methods update them in place as the C++ members
  do.
- **Helper loops.** Every helper in the `utils` namespace that loops is a
  method. Each is proved equal to a specification function, and the
  properties are proved about those functions.
- **`std::stoi`.** It is modelled in full: leading whitespace, an optional
  sign, the longest run of digits, trailing text ignored, and `int` range.
  Its exceptions become `None`.
- **`deserialize`.** It returns `Produced(task)`, `NoTask` (the null pointer)
  or `ParseError` (a `stoi` exception).
- **Files.** A file is its text. Whether it can be opened is a parameter.

Proved properties:

- **Escaping.** `unescapePipes(escapePipes(s)) == s` for every string.
- **Split and join.** Splitting on `|` undoes joining pipe-free fields, except
  that `std::getline` loses an empty last field.
- **One task.** `deserialize(serialize(t)) == t` holds for a deadline task with
  a due date and for a recurring task, when the id and the interval fit an
  `int` and the texts hold no `|`.
- **Save then load.** A save followed by a load restores `nextId` and gives
  back the saved tasks that keep a non-empty last field, in order. After any
  load that completes, `nextId` exceeds every id.
- **Sorts.** Both sorts return a sorted permutation. Both comparators are
  strict weak orders.
- **Search.** The search is case-insensitive.
- **Remove and toggle.** `removeById` keeps the others in order and reports
  whether anything went. `toggleDone` flips exactly one flag.

Where the format's documentation and the code disagree, the model follows the
code, and lemmas state what the code does:

- **Lost trailing field.** The code writes a simple task, or a deadline task
  with an empty due date, with an empty last field. The line then ends in `|`.
  When the task's texts hold no `|`, `std::getline` then yields six pieces, so
  `deserialize` produces no task. Such tasks do not survive a save and a load.
  A store holding a simple task and a deadline task, whose texts hold no `|`,
  reloads with the deadline task alone. (A `|` in a text shifts the fields
  instead; see the escaped pipe below.)
  - `TaskCodec.DeserializeSerializeDropsEmptyExtra`
  - `TaskStore.SaveLoadLosesSimpleTasks`
  - `TaskStore.SaveLoadRoundTrip`
- **Empty interval.** A hand-written line `RECURRING|9|0|2|Water plants||` also
  splits into six pieces. It gives no task; it does not give a task with the
  default interval of 7 days (`TaskCodec.LineWithEmptyLastField`).
- **Escaped pipe.** `escapePipes` turns `|` into `\|`, but `split` does not
  honour the escape. A `|` in a title still splits the line, and the fields
  after it shift. Only pipe-free texts round-trip
  (`TaskCodec.EscapedPipeShiftsFields`).
- **Escaped due date.** The due date is escaped on output and unescaped on
  input, not written raw.

## Model

| member | source | states |
|---|---|---|
| Ascii.LowerChar | Utils.h:19-23 | `tolower` maps an upper-case letter to its lower-case partner and leaves every other character as it is; the result is never upper-case |
| Numbers.IntToString | Task.cpp:34-37 | an `int` is written as an optional minus sign followed by digits, with no whitespace at either end and a digit last |
| Numbers.StoI | Task.cpp:81-83 | `stoi` succeeds only with a value that fits an `int` |
| Numbers.StoIOfDigits | Utils.h:95-97 | a non-empty run of digits whose value fits an `int` reads back as that value |
| Numbers.StoIOfIntToString | Task.cpp:35-37 | writing an `int` in decimal and reading it back with `stoi` gives the same value |
| Utils.FirstNonSpace | Utils.h:14 | the forward `find_if` stops at the first non-whitespace character, and everything before it is whitespace |
| Utils.EndOfNonSpace | Utils.h:15 | the reverse `find_if` stops just after the last non-whitespace character, and everything after it is whitespace |
| Utils.Trimmed | Utils.h:12-17 | the trimmed string is no longer than the input and starts and ends with a non-whitespace character unless it is empty |
| Utils.Trim | Utils.h:12-17 | the two erasing scans produce exactly the trimmed string |
| Utils.TrimmedRemovesOnlyEdgeSpace | Utils.h:12-17 | `trim` returns the contiguous middle of the string between an all-whitespace prefix and an all-whitespace suffix |
| Utils.TrimmedUnchanged | Utils.h:12-17 | a string with no whitespace at either end is returned unchanged |
| Utils.TrimmedIdempotent | Utils.h:12-17 | trimming twice is trimming once |
| Utils.TrimmedAllSpace | Utils.h:12-17 | an all-whitespace string trims to the empty string |
| Utils.Lowered | Utils.h:19-23 | the lower-cased string has the same length, and each character is the `tolower` of the input's character at that position |
| Utils.ToLower | Utils.h:19-23 | the in-place `transform` over the copied buffer produces the lower-cased string |
| Utils.LoweredChangesOnlyUpper | Utils.h:19-23 | only upper-case letters change, the length is kept, and lowering is idempotent |
| Utils.IndexOf | Utils.h:29 | `getline` stops at the first delimiter, and no delimiter comes before it |
| Utils.Pieces | Utils.h:25-31 | the pieces of the empty string are none, a non-empty string gives at least one piece, and no piece holds the delimiter |
| Utils.Split | Utils.h:25-31 | the `getline` loop, which gathers characters and pushes a piece at each delimiter and a non-empty piece at the end, produces exactly the pieces |
| Utils.JoinPieces | Utils.h:25-31 | joining the pieces with the delimiter gives back the string, less a final delimiter |
| Utils.PiecesOfJoin | Utils.h:25-31 | splitting delimiter-free fields joined with the delimiter gives the fields back, except an empty last field, which is lost |
| Utils.JoinHolds | Utils.h:25-31 | a non-delimiter character occurs in joined fields exactly when some field holds it |
| Utils.EscapePipes | Utils.h:34-43 | the character loop produces the escaped string, in which each pipe and each backslash is preceded by a backslash |
| Utils.UnescapePipes | Utils.h:45-56 | the index loop, which collapses an escaped pipe or backslash and keeps any other backslash, produces the unescaped string |
| Utils.EscapedLength | Utils.h:34-43 | escaping adds exactly one character per pipe and per backslash |
| Utils.EscapedConcat | Utils.h:34-43 | escaping works character by character, so it distributes over concatenation |
| Utils.UnescapeEscape | Utils.h:34-56 | unescaping undoes escaping for every string |
| Utils.UnescapedAfterEscaped | Utils.h:34-56 | unescaping reads an escaped text back whatever text follows it |
| Utils.UnescapedWithoutBackslash | Utils.h:45-56 | a string without a backslash is not changed by unescaping |
| Utils.EscapedKeepsCharsAndLast | Utils.h:34-43 | any character other than a backslash occurs in the escaped text exactly when it occurs in the input, and the last character is kept |
| Utils.IsValidDateYYYYMMDD | Utils.h:87-102 | the checks accept exactly the strings of the form `YYYY-MM-DD` in digits, with year 1900-3000, month 1-12 and day 1-31 |
| Utils.FixedWidthDigits | Utils.h:95-97 | `stoi` on up to four digits cannot throw and gives their decimal value |
| Utils.IsValidDateOfDateString | Utils.h:87-102 | a zero-padded date is accepted exactly when its year, month and day are in range |
| Utils.NoMonthLengthCheck | Utils.h:98-101 | the check does not consult month lengths: `2026-02-31` is accepted |
| Tasks.Priority.ToInt | Task.h:5-9 | the cast of a priority to `int` is 1, 2 or 3, with 1 exactly for Low and 3 exactly for High |
| Tasks.PriorityToString | Task.h:11-18 | each priority has its own label, Low, Medium or High |
| Tasks.IntToPriority | Task.h:20-24 | an integer in 1..3 maps to the priority with that value, anything below to Low and anything above to High |
| Tasks.IntToPriorityOfToInt | Task.h:20-24 | a priority cast to `int` and mapped back is the same priority |
| Tasks.Task.TypeName | Task.h:61-94 | the label names the kind: Simple, Deadline or Recurring, one for each |
| Tasks.Task.WithTitle | Task.h:45 | `setTitle` sets the title and changes nothing else |
| Tasks.Task.WithDescription | Task.h:46 | `setDescription` sets the description and changes nothing else |
| Tasks.Task.WithPriority | Task.h:47 | `setPriority` sets the priority and changes nothing else |
| Tasks.Task.WithDone | Task.h:48 | `setDone` sets the flag and changes nothing else |
| Tasks.Task.Toggled | Task.h:49 | `toggleDone` negates the flag and changes nothing else |
| Tasks.Task.WithDueDate | Task.h:76 | `setDueDate` replaces the due date of a deadline task and changes nothing else |
| Tasks.Task.WithIntervalDays | Task.h:90 | `setIntervalDays` replaces the interval of a recurring task and changes nothing else |
| Tasks.ToggledTwice | Task.h:49 | toggling twice restores the task |
| Tasks.SettersKeepIdAndKind | Task.h:45-49 | no setter changes the id or the kind of a task |
| Tasks.Default | Task.h:28-32 | a default-constructed task has id 0, empty texts, Medium priority, is not done, and has an empty due date or a 7-day interval |
| TaskCodec.DetailsLine | Task.cpp:11-27 | the details text is fixed for a simple task and is `due: ` plus the date for a deadline task; for a recurring task it is `every `, the interval and ` day(s)`, and the number reads back as the interval |
| TaskCodec.HeaderFieldsPipeFree | Task.cpp:34-37 | the tag and the three numbers of a record never hold a pipe |
| TaskCodec.FieldsPipeFree | Task.cpp:32-74 | when the texts of a task hold no pipe, no field of its record does |
| TaskCodec.Serialize | Task.cpp:29-74 | the line starts with the tag and a pipe; when the texts hold no pipe, splitting the line gives back the seven fields, or the first six when the last field is empty |
| TaskCodec.KindOfTag | Task.cpp:88-99 | a tag names a kind exactly when it is one of the three tags, compared exactly |
| TaskCodec.DeserializeCases | Task.cpp:76-100 | fewer than seven pieces give no task; a produced task takes its kind from piece 0, its id, flag and priority from `stoi` of pieces 1-3, its texts unescaped from pieces 4-5, and its due date or interval from piece 6, with 7 days for an empty one; no task otherwise means an unknown tag after three good integers; an error means an integer or a non-empty interval did not parse |
| TaskCodec.ExtraEmptyIff | Task.cpp:40-72 | the last field is empty exactly for a simple task and for a deadline task with an empty due date |
| TaskCodec.ReadRecord | Task.cpp:76-100 | a line whose pieces hold a task's tag, numbers and escaped texts is read back as that task |
| TaskCodec.DeserializeSerialize | Task.cpp:32-100 | a deadline task with a due date, or a recurring task, whose id and interval fit an `int` and whose texts hold no pipe, is read back exactly from its line |
| TaskCodec.DeserializeSerializeDropsEmptyExtra | Task.cpp:32-42 | the line of a simple task, or of a deadline task with an empty due date, whose texts hold no pipe, is read back as no task |
| TaskCodec.LineWithEmptyLastField | Task.cpp:76-98 | a seven-field line whose last field is empty gives no task, so the 7-day default for an empty interval cannot be reached from such a line |
| TaskCodec.SerializeEnds | Task.cpp:32-74 | the line starts with the tag's first letter and ends with the last character of the last field, or with a pipe before an empty one |
| TaskCodec.SerializeNewlineFree | Task.cpp:32-74 | a line holds a line break only if a text of the task does |
| TaskCodec.JoinSplice | Task.cpp:32-42 | a pipe inside a field joins exactly like a boundary between two fields |
| TaskCodec.UnescapeEscapeThenBackslash | Utils.h:45-56 | a lone backslash at the end of a piece is kept by unescaping |
| TaskCodec.SplitOfPipeInTitle | Task.cpp:32-42 | the line of a simple task whose title holds one pipe splits into the shifted pieces |
| TaskCodec.EscapedPipeShiftsFields | Task.cpp:77-89 | a pipe in the title of a simple task still splits the line; the title reads back as the part before it plus a backslash, and the description as the part after it |
| TaskOrder.LexLessIrreflexive | TaskManager.cpp:95 | no string is less than itself |
| TaskOrder.LexLessTransitive | TaskManager.cpp:95 | string order is transitive |
| TaskOrder.LexLessTotal | TaskManager.cpp:95 | of two different strings, one is less than the other |
| TaskOrder.BeforeAsymmetric | TaskManager.cpp:81-95 | each comparator is asymmetric |
| TaskOrder.NotBeforeTransitive | TaskManager.cpp:81-95 | not going after is transitive, so each comparator is a strict weak order, as `std::sort` requires |
| TaskOrder.InsertPermutes | TaskManager.cpp:79-97 | an insertion adds exactly the inserted task |
| TaskOrder.InsertSorted | TaskManager.cpp:79-97 | inserting into a sorted sequence keeps it sorted |
| TaskOrder.SortBySortsAndPermutes | TaskManager.cpp:79-97 | the sort returns a permutation of its input in which no later task goes before an earlier one |
| TaskStore.WithoutIdKeepsOthers | TaskManager.cpp:13-19 | removal keeps exactly the tasks with another id, and shortens the sequence exactly when some task carries the id |
| TaskStore.WithoutIdConcat | TaskManager.cpp:13-19 | removal works element by element, so the kept tasks stay in order |
| TaskStore.WithoutIdKeepsUnique | TaskManager.cpp:13-19 | removal keeps ids unique |
| TaskStore.RemovalKeeps | TaskManager.cpp:13-19 | removal shortens the sequence exactly when the id was present, and keeps both an id bound and uniqueness of ids |
| TaskStore.FirstWithId | TaskManager.cpp:21-26 | the position found carries the id and no earlier task does; no position is found only when no task carries the id |
| TaskStore.ContainsIff | TaskManager.cpp:34 | `find` succeeds exactly when the query occurs at some position |
| TaskStore.MatchingSelects | TaskManager.cpp:28-37 | the search result holds exactly the tasks whose lower-cased title contains the query |
| TaskStore.MatchingConcat | TaskManager.cpp:31-35 | the search filters task by task, so the tasks found keep their store order |
| TaskStore.MatchingEmptyQuery | TaskManager.cpp:28-37 | an empty query matches every task, in order |
| TaskStore.LoweredContains | TaskManager.cpp:30-34 | lower-casing keeps an occurrence an occurrence |
| TaskStore.SearchIgnoresCase | TaskManager.cpp:28-37 | a task whose title holds any text that lower-cases to the lower-cased trimmed query, in whatever mix of cases, is found |
| TaskStore.SearchFindsOtherCase | TaskManager.cpp:28-37 | the query `mile` finds a task titled `Milestone Review` |
| TaskStore.AddTo | TaskManager.cpp:7-11 | the task is appended, and `nextId` does not decrease and ends above the task's id |
| TaskStore.SerializeAll | TaskManager.cpp:105-108 | one line per task, in store order, each the task's serialization |
| TaskStore.FileTextAppend | TaskManager.cpp:104-107 | writing one more line appends it and a line break to the text |
| TaskStore.LinesOfFileText | TaskManager.cpp:119-120 | reading the text back line by line gives the lines written, when none holds a line break |
| TaskStore.MaxId | TaskManager.cpp:135-136 | the largest id is at least 0 and no smaller than any task's id |
| TaskStore.LoadSpecIdsBelowNextId | TaskManager.cpp:134-137 | after a load that completes, `nextId` is positive and exceeds every loaded id, whatever the header said |
| TaskStore.Survivors | TaskManager.cpp:131-132 | the tasks a load gets back are no more than were saved, and each keeps its last field |
| TaskStore.SurvivorsOfSaved | TaskManager.cpp:131-132 | every task a load gets back was saved, and when every saved task keeps its last field, all come back |
| TaskStore.LoadLineOfHeader | TaskManager.cpp:125-129 | the header line written by a save sets `nextId` back |
| TaskStore.SerializedLineIsRecord | TaskManager.cpp:121-125 | a saved task line survives trimming and is not taken for a header |
| TaskStore.LoadLineOfSerialized | TaskManager.cpp:121-132 | a saved task line adds the task back when it keeps its last field, and is skipped otherwise |
| TaskStore.LoadLinesChain | TaskManager.cpp:120-133 | lines each taken without an exception, from one state to the next, end the load in the last state |
| TaskStore.LoadSavedLines | TaskManager.cpp:120-133 | taking the saved lines from an empty store restores `nextId` and the surviving tasks in order |
| TaskStore.SavedFileLines | TaskManager.cpp:99-120 | the saved file reads back as the lines written, when no text holds a line break |
| TaskStore.SaveLoadRoundTrip | TaskManager.cpp:99-140 | a save and a load restore `nextId` and give back exactly the saved tasks that keep their last field, in order |
| TaskStore.SaveLoadKeepsAll | TaskManager.cpp:99-140 | when every task keeps its last field, a save and a load restore the store exactly |
| TaskStore.SaveLoadLosesSimpleTasks | TaskManager.cpp:99-140 | no reloadable simple task (texts without pipe or line break, id in `int` range) comes back from a save and a load, and every task that comes back was saved |
| TaskStore.TaskManager.constructor | TaskManager.h:8-9 | a new store is empty, with `nextId` 1 |
| TaskStore.TaskManager.NextId | TaskManager.h:28 | in a valid store, `nextId` is positive and no task carries it |
| TaskStore.TaskManager.All | TaskManager.h:15 | the tasks, in store order |
| TaskStore.TaskManager.Add | TaskManager.cpp:7-11 | a null task changes nothing; otherwise the task is appended and `nextId` becomes the larger of itself and the id plus one; validity is kept, and ids stay unique when the new id is at least `nextId` |
| TaskStore.TaskManager.RemoveById | TaskManager.cpp:13-19 | the tasks carrying the id go and the rest keep their order; the answer is whether any task carried the id; `nextId`, validity and uniqueness of ids are kept |
| TaskStore.TaskManager.FindById | TaskManager.cpp:21-26 | the position of the first task carrying the id, or none when no task does |
| TaskStore.TaskManager.SearchByTitle | TaskManager.cpp:28-37 | the tasks whose lower-cased title contains the trimmed, lower-cased query, in store order |
| TaskStore.TaskManager.ToggleDone | TaskManager.cpp:72-77 | the first task carrying the id has its flag flipped and nothing else changes; the answer is whether there was one |
| TaskStore.TaskManager.SortByPriorityThenId | TaskManager.cpp:79-88 | the tasks are permuted so that priorities do not increase, and ids do not decrease within a priority |
| TaskStore.TaskManager.SortByTitle | TaskManager.cpp:90-97 | the tasks are permuted so that lower-cased titles do not decrease |
| TaskStore.TaskManager.SaveToFile | TaskManager.cpp:99-110 | when the file opens, the text is the header line followed by one line per task; when it does not, nothing is written and the answer is false |
| TaskStore.TaskManager.MaxLoadedId | TaskManager.cpp:135-136 | the loop computes the largest id held, and at least 0 |
| TaskStore.TaskManager.TakeLine | TaskManager.cpp:121-132 | one line moves the store to the next state, or reports the `stoi` exception and changes nothing |
| TaskStore.TaskManager.ReadLines | TaskManager.cpp:119-133 | the read loop reaches the state the load specification gives, and reports whether an exception ended it |
| TaskStore.TaskManager.LoadFromFile | TaskManager.cpp:112-140 | a file that does not open changes nothing; otherwise the store becomes what the load specification gives from the file's lines; a completed load leaves a valid store |

## Left out

- `TaskManager::list` (TaskManager.cpp:39-70) prints a table to the console and has no other effect; console output is not modelled. `TaskCodec.DetailsLine` models the text it prints per task.
- `utils::readInt` and `utils::readLine` (Utils.h:59-85) read from the console and retry; they are I/O and not modelled. `main.cpp` is not part of this model.
- File handles: a file is modelled as its text together with a flag for whether it can be opened. Truncation, partial writes and I/O errors while writing are not modelled.
- Characters are taken in the C locale: `isspace`, `isdigit` and `tolower` act on ASCII only. Characters are Dafny `char`s, not bytes.
- `TaskStore.TaskManager.LoadFromFile`: a `stoi` exception escapes `loadFromFile` in the C++ code. Here it becomes the status `Aborted`, with the store left as the exception left it: cleared, plus the lines taken before it.
- `TaskStore.TaskManager.Add`: `nextId` and `id + 1` are mathematical integers, so the signed overflow at `INT_MAX` is not modelled.
- `TaskStore.TaskManager.LoadFromFile`: ids and the header value read from the file go through `add` (`id + 1`) and the final `maxId + 1`; `stoi` accepts 2147483647, so a file can force signed overflow in the C++ code. Here integers are unbounded, and `status == Loaded ==> Valid()` holds only because of that.
- `TaskStore.TaskManager.Add`: the C++ code does not check that ids are unique, and neither does the model. Uniqueness is proved only for a task whose id is at least `nextId`.
- `TaskStore.TaskManager.SortByPriorityThenId`, `TaskStore.TaskManager.SortByTitle`: `std::sort` is library code. The model sorts by insertion and promises only what `std::sort` promises: a sorted permutation. The order of equivalent tasks is not modelled.
- The `nullptr` entries of the task vector, which the loops skip, are not modelled. Every task the store holds exists. `add` of a null task is modelled by `Option`.
- Tasks are values. Updating a task through the pointer that `findById` returns is modelled by the value setters, and `toggleDone` by replacing the task at its position. Aliasing of `Task*` is not modelled.
- `Tasks.PriorityToString`: the `"Unknown"` default branch is unreachable for the three enumerators and is not modelled.
- `TaskCodec.DeserializeSerialize`: the round trip is proved only for tasks whose texts hold no `|`, because the C++ format does not round-trip the others (see `TaskCodec.EscapedPipeShiftsFields`). It is proved only for tasks with a non-empty last field, because the others do not round-trip either (see `TaskCodec.DeserializeSerializeDropsEmptyExtra`).
- `TaskStore.SaveLoadRoundTrip`: it also assumes no line break in any text, and no whitespace at the end of a due date. The loader trims lines, so other tasks can change on reload.
