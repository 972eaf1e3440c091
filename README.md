# Voice to-do list: command parser and task table

This project models the two sequential cores of a voice-driven to-do list
application, and proves properties of them.

- **The "add task" command parser** (`task_parsing.py`, `parse_add_task_command`).
  It turns an utterance such as "remind me to submit report with high priority
  by tomorrow in school category" into a task name, a priority level (1 low,
  2 medium, 3 high), a category and an optional due date. The steps are:
  1. drop leading helper phrases;
  2. apply the priority keyword rules;
  3. find the `in X category` phrase;
  4. find the `by ...` due-date phrases;
  5. remove standalone time words;
  6. fall back to the classifiers when no rule fired;
  7. tidy the name.

  `TaskParsing.Parse` is the specification of the whole pipeline, built from one
  function per stage (`Trace`). `TaskParsing.ParseAddTaskCommand` is the
  step-by-step procedure, with its two loops, and is proved to compute `Parse`.
  The lemmas in the section "What the parser promises" state the parser's
  guarantees about name, priority, category and due date.

- **The task table behind the web routes** (`app.py`). `TaskStore.Task` is the
  stored row and `ToDict` its JSON form. `TaskStore.TaskTable` holds the rows in
  a `seq<Task>` field. Its methods are the routes that change the table: add,
  mark by name, delete by name, toggle, delete, clear completed and clear all.
  Each returns a `Reply` with the route's HTTP status and message. The pure read
  `GetTasks` filters and orders the rows.

Files:
- `wrappers.dfy`: `Option`.
- `text.dfy`: ASCII text helpers, plus models of Python's `str.strip`, `str.lower`
  and the three shapes of regular-expression substitution the parser uses.
- `task_parsing.dfy`: the parser.
- `parse_laws.dfy`: what the parser promises about whole words and the final
  name: the time words and "by" do not come back, the clean-up is idempotent,
  and worked commands ("remind me to buy milk", "by tomorrow").
- `task_store.dfy`: the task table.

Modelling decisions:
- **Text.**
  - Text is ASCII. Whitespace is Python's `isspace` on ASCII (codes 9–13, 28–31
    and 32), a word character is `[A-Za-z0-9_]`, and lower-casing maps A–Z only.
- **Regular expressions.**
  - A substitution scans the positions of the original text, so word boundaries
    are judged against the original neighbours, as Python's `re.sub` does.
  - Python's `.` does not match a line feed, and `$` matches at the end of the
    text or just before a final line feed. The model follows both rules.
- **Inputs from outside the parser.** The clock, the fuzzy date reader and the
  two optional classifiers are parameters (`TaskParsing.Env`):
  - a classifier of `None` was not loaded;
  - a prediction of `None` stands for one that raised;
  - times are local wall-clock instants in microseconds.
- **Names and ids.**
  - Name matching (SQL `ilike` on a name without wildcards) is equality up to
    ASCII case.
  - The "first" match is the first in table order. In a well-formed table it is
    the only one (`NameMatchUnique`).
  - A random UUID is replaced by an id longer than every id present
    (`TaskTable.FreshId`).
- **Sorting.**
  - Ordering follows what the database promises: the result is sorted by the
    key and is a permutation of the filtered rows.
  - For the due-date sort, the comment at app.py:91 says tasks without a due
    date come last. SQLite sorts NULL before every value in ascending order, so
    the code puts them first, and the model follows the code.

## Model

| member | source | states |
|---|---|---|
| Text.Lower | task_parsing.py:92 | lower-casing keeps the length and maps each character by ASCII case folding |
| Text.Strip | task_parsing.py:62 | `strip()` never lengthens the text and only removes characters |
| Text.TrimBoth | task_parsing.py:247 | `strip(" ,.")` keeps exactly the slice between the leading and the trailing run of dropped characters, and that slice neither starts nor ends with one |
| Text.StripStripped | task_parsing.py:62 | the result of `strip()` has no whitespace at either end, stripped text is left alone, and stripping is idempotent |
| Text.TrimBothKept | task_parsing.py:247 | text that starts and ends with kept characters is left alone by the trim |
| Text.Remove | task_parsing.py:102-105 | removing every match of a pattern never lengthens the text and only removes characters; what it keeps is pinned by the step lemmas below |
| Text.RemoveFromMultiset | task_parsing.py:102-105 | the scan from any position keeps no character the rest of the text lacks |
| Text.RemoveFromNoMatch | task_parsing.py:102-105 | where no match starts, the substitution gives back the text unchanged |
| Text.RemoveFromStep | task_parsing.py:102-105 | the substitution keeps the text up to the next match, drops the match, and goes on after it; with `RemoveFromNoMatch` this determines the result |
| Text.RemoveFromNextMatch | task_parsing.py:102-105 | the same step, taken at the position the scan finds next |
| Text.RemoveFirst | task_parsing.py:129-134 | when the first match is at `j`, the result is the text before `j` followed by what the scan leaves after the match |
| Text.RemoveWordNoWhole | task_parsing.py:217-218 | when every whole occurrence of `v` is one of the removed word `w`, none is left after `w` is removed: the removal joins no new one together (with `v` = `w`, the word itself is gone) |
| Text.Collapse | task_parsing.py:247 | whitespace runs become one plain space: no two adjacent whitespace characters, no whitespace but the space, starts with whitespace exactly when the input does, the non-space characters unchanged and in order |
| Text.CollapseWord | task_parsing.py:247 | a run of non-space characters at the front is kept as it is |
| Text.CollapseRun | task_parsing.py:247 | a whitespace run at the front becomes exactly one space |
| Text.CollapseSpaced | task_parsing.py:247 | text with single plain spaces is left as it is |
| Text.CollapseNoWhole | task_parsing.py:247 | collapsing whitespace creates no whole single word |
| TaskParsing.DropHelper | task_parsing.py:85 | one helper phrase: the result is stripped and only removes characters; the phrase and its whitespace go when the text starts with them; stripped text that does not start with the phrase is unchanged |
| TaskParsing.DropHelperSuffix | task_parsing.py:85 | on stripped text a helper phrase is removed from the front only: the result is a suffix of the input |
| TaskParsing.RemoveHelpers | task_parsing.py:84-85 | the helper-phrase loop yields stripped text and only removes characters |
| TaskParsing.HelpersRemovePrefix | task_parsing.py:84-85 | all helper phrases together remove only a prefix of the stripped command, and leave stripped text |
| TaskParsing.HelpersUnchanged | task_parsing.py:84-85 | text that starts with none of the phrases passes through the loop unchanged |
| TaskParsing.HelpersConcat | task_parsing.py:84-85 | running the phrases `a` and then `b` is the same as running `a + b`: each phrase is tried once, in order |
| TaskParsing.HelpersOneFits | task_parsing.py:84-85 | when exactly phrase `n` applies, the loop's result is what that phrase leaves |
| TaskParsing.RemindMeTo | task_parsing.py:68-85 | the helper stage turns "remind me to " followed by a task that starts with no later phrase into exactly the task |
| TaskParsing.DropHelperPhrases | task_parsing.py:84-85 | the loop over the helper phrases computes `RemoveHelpers` over all of them |
| TaskParsing.RemovePhrases | task_parsing.py:102-115 | removing a level's phrases in turn only removes characters |
| TaskParsing.PriorityRule | task_parsing.py:97-117 | a rule's level is 1, 2 or 3; without a rule the text is only stripped; the text only loses characters and is stripped |
| TaskParsing.PriorityRuleText | task_parsing.py:99-117 | high, then medium, then low: the first rule that fires gives its level and the text with that level's phrases removed in order, then stripped |
| TaskParsing.PhrasesUnchanged | task_parsing.py:102-115 | text in which none of the phrases occurs (ignoring case) is left unchanged by their removal |
| TaskParsing.ParsedPriority | task_parsing.py:97-115 | priority is always 1..3; "high priority"/"urgent"/"very important" give 3 whatever else is present, otherwise "medium priority" gives 2, otherwise "low priority" gives 1, otherwise the classifier decides |
| TaskParsing.ModelPriority | task_parsing.py:226-234 | the classifier's lower-cased guess looked up in the priority map; 1 without a classifier, when it raises or when the guess is not in the map |
| TaskParsing.LazyGroup | task_parsing.py:125 | the lazy group is the shortest group length that completes the phrase, and none exists when it returns nothing |
| TaskParsing.CategorySearch | task_parsing.py:125 | the search returns the leftmost phrase start and there the shortest group; nothing means no phrase anywhere |
| TaskParsing.CategorySearchFirst | task_parsing.py:125 | the first phrase (leftmost start, then shortest group) is exactly what the search returns |
| TaskParsing.CategoryRule | task_parsing.py:123-136 | a category is found exactly when some phrase matches; it is stripped and made of word and space characters; the text is stripped and only loses characters |
| TaskParsing.CategoryFound | task_parsing.py:125-128 | the category is stripped, made of word and space characters, and present exactly when the search finds a phrase |
| TaskParsing.CategoryCut | task_parsing.py:129-136 | the text after the phrase is removed is stripped and only loses characters; without a phrase it is only stripped |
| TaskParsing.CategoryCutText | task_parsing.py:129-134 | with a phrase, the text is every occurrence of the first match's phrase removed, then stripped |
| TaskParsing.CategoryPhrase | task_parsing.py:130 | the removed literal is twelve characters longer than the group and holds the group as the text writes it, after "in " |
| TaskParsing.CategoryPhraseAt | task_parsing.py:125-134 | the removed phrase occurs at the match, and wherever it occurs the category pattern matches with a group as long |
| TaskParsing.FirstPhraseAt | task_parsing.py:125-134 | the first match's phrase is matched in full there and nowhere before, so (by `Text.RemoveFirst`) the text before it is kept |
| TaskParsing.CategoryName | task_parsing.py:127 | the stripped group has no whitespace at either end and only word and space characters |
| TaskParsing.CategoryRuleFirst | task_parsing.py:125-127 | the rule's category is the stripped group of the first phrase |
| TaskParsing.ParsedCategoryFound | task_parsing.py:123-134 | the parsed category is the stripped group of the first `in X category` phrase in the text left after the priority rule |
| TaskParsing.ParsedCategoryDefault | task_parsing.py:236-242 | without a phrase the classifier decides, and without a classifier the category is "general" |
| TaskParsing.ModelCategory | task_parsing.py:236-242 | the classifier's guess as it is; "general" without a classifier or when it raises |
| TaskParsing.FirstKeyword | task_parsing.py:145 | the alternation takes the first listed keyword that matches at a position |
| TaskParsing.RelativeSearch | task_parsing.py:144-147 | the relative search returns the leftmost `by KEYWORD` phrase and the first keyword that matches there; nothing means no phrase anywhere |
| TaskParsing.RelativeSearchFirst | task_parsing.py:144-147 | the first relative phrase is exactly what the search returns |
| TaskParsing.RelativeDue | task_parsing.py:150-162 | each of the six keywords gives a date and nothing else does: today is now, tomorrow a day later, next week seven days, tonight/this evening 20:00 and this afternoon 15:00 of the same day |
| TaskParsing.ByDueFirstRelative | task_parsing.py:144-162 | the first relative phrase decides the due date by its keyword |
| TaskParsing.ByDueRelativeText | task_parsing.py:144-188 | with a relative phrase the due date is its keyword's, and the text is every `by KEYWORD` removed, stripped, cut from the first "by" on and stripped again |
| TaskParsing.DateTail | task_parsing.py:175 | the group `(.+)$` tried from the longest down: a non-empty span within one line that ends where `$` holds |
| TaskParsing.DateAt | task_parsing.py:175 | `\bby\s+(.+)$` at a position: "by" at a word start, at least one whitespace character, then a non-empty group ending where `$` holds |
| TaskParsing.DateSearch | task_parsing.py:175 | the general `by` search returns the leftmost position where the pattern matches, and nothing only when no position matches |
| TaskParsing.ByDueDateText | task_parsing.py:173-188 | without a relative phrase the date reader gets the stripped group at the first general match; when it reads a date the text is cut from the first "by" on, otherwise it is left alone |
| TaskParsing.ByDueNoBy | task_parsing.py:143-188 | text with no "by" at a word start gets no due date and is left alone |
| TaskParsing.CutSearch | task_parsing.py:187 | the cut search returns the leftmost position where the cut pattern matches |
| TaskParsing.CutBy | task_parsing.py:187 | the cut only removes characters and changes nothing without a match; on single-line text it leaves a prefix containing no whole word "by" |
| TaskParsing.CutPrefixHasNoBy | task_parsing.py:187 | the text before the leftmost cut holds no whole word "by" |
| TaskParsing.ByDue | task_parsing.py:143-188 | any `by KEYWORD` phrase gives a due date; without a due date the text is unchanged; with one, single-line text keeps no whole word "by" |
| TaskParsing.ByWordIsWhole | task_parsing.py:187 | "by" as a whole word is the whole-word match of the single word "by" |
| TaskParsing.DueFromBy | task_parsing.py:143-188 | the due-date procedure computes the due-date stage `ByDue` |
| TaskParsing.StandaloneDue | task_parsing.py:190-198 | a date exactly when the command mentions "tomorrow" or "today" at its start or after a space: a day from now for "tomorrow", now for "today" alone |
| TaskParsing.ParsedDue | task_parsing.py:144-198 | a `by KEYWORD` phrase always yields a due date; otherwise the standalone words of the whole command decide |
| TaskParsing.ParsedRelativeDue | task_parsing.py:144-162 | the parsed due date is the one the first relative phrase's keyword names |
| TaskParsing.DueTextHasNoBy | task_parsing.py:184-188 | once a "by" phrase gave a due date, nothing from a whole word "by" onwards remains after the due-date stage (single-line commands) |
| TaskParsing.RemoveTimeWords | task_parsing.py:217-218 | the time-word loop only removes characters |
| TaskParsing.DropTimeWords | task_parsing.py:217-218 | the loop over the time words computes `RemoveTimeWords` over all of them |
| TaskParsing.Tidy | task_parsing.py:247 | the clean-up leaves single plain spaces between words and no whitespace, comma or period at either end |
| TaskParsing.TidyShape | task_parsing.py:247 | the clean-up's result is always a tidy name |
| TaskParsing.Trace | task_parsing.py:62-221 | each stage only shortens the text, and the category stage only removes characters |
| TaskParsing.Parse | task_parsing.py:226-256 | the assembled result's priority is 1..3; its name, category and due date are stated by the `Parsed...` lemmas |
| TaskParsing.ParseAddTaskCommand | task_parsing.py:47-256 | the procedure with its loops and rule flags returns exactly `Parse`: the tidied name or the stripped command, the rule or classifier priority and category, and the due date |
| TaskParsing.ParsedNameNonEmpty | task_parsing.py:247-249 | the name is empty exactly when the command is blank; when the clean-up leaves nothing the name is the stripped command |
| TaskParsing.ParsedNameShape | task_parsing.py:247-249 | when anything is left after the clean-up, the name is that tidy text; otherwise it is the stripped command |
| TaskParsing.ByDueIgnoresModels | task_parsing.py:143-188 | the due-date stage reads only the clock and the date reader |
| TaskParsing.TraceIgnoresModels | task_parsing.py:62-221 | the rule stages read nothing of the classifiers |
| TaskParsing.ModelsOnlyWithoutRule | task_parsing.py:226-242 | a classifier is consulted only when its rule did not fire: with a rule's answer, any other classifier gives the same priority/category |
| ParseLaws.TimeWordsUnchanged | task_parsing.py:217-218 | text in which no time word stands as a whole word passes the loop unchanged |
| ParseLaws.TimeWordsKeepNoWhole | task_parsing.py:217-218 | the loop creates no whole word the text did not have |
| ParseLaws.TimeWordsGone | task_parsing.py:217-218 | after the loop none of its words stands anywhere as a whole word |
| ParseLaws.StripNoWhole | task_parsing.py:220 | `strip()` creates no whole word |
| ParseLaws.TidyFixed | task_parsing.py:247 | a name that is already tidy is left as it is |
| ParseLaws.TidyIdempotent | task_parsing.py:247 | cleaning up twice is cleaning up once |
| ParseLaws.TidyNoWhole | task_parsing.py:247 | the clean-up creates no whole single word |
| ParseLaws.TimelessHasNoTimeWord | task_parsing.py:200-220 | after the time-word stage no time word stands anywhere as a whole word |
| ParseLaws.NameHasNoTimeWord | task_parsing.py:200-249 | a cleaned name holds none of the single-word time words as a whole word |
| ParseLaws.NameHasNoBy | task_parsing.py:184-249 | when a "by" phrase gave the due date and the clean-up leaves a name, the name holds no whole word "by" (single-line commands) |
| ParseLaws.ByPhraseOnly | task_parsing.py:144-249 | a command that is only "by KEYWORD" is due when the keyword says, but its name is the whole command, "by" included, because every stage empties the text |
| ParseLaws.RulesPass | task_parsing.py:97-136 | without keywords or a category phrase the rules find nothing and leave the text |
| ParseLaws.NameFallsBack | task_parsing.py:247-249 | when the due-date stage leaves nothing, the name is the stripped command |
| ParseLaws.PlainTextPassesThrough | task_parsing.py:62-256 | text that no rule touches and that is already tidy is the name as it stands; the classifiers and the standalone words decide the rest |
| ParseLaws.RemindBuyMilk | task_parsing.py:47-256 | the parsed name of "remind me to buy milk" is "buy milk" |
| TaskStore.ToDict | app.py:47-59 | the JSON form has exactly the seven keys, and the due date is null exactly when there is none |
| TaskStore.DictRoundTrip | app.py:47-59 | reading a task back from its JSON form gives the task |
| TaskStore.FindByName | app.py:173 | the lookup returns the first task whose name equals the given one up to case, and nothing only when none does |
| TaskStore.FindById | app.py:214 | the lookup returns a task with that id, and nothing only when none has it |
| TaskStore.NameMatchUnique | app.py:133-136 | in a well-formed table any task matching a name is the one the lookup returns |
| TaskStore.IdMatchUnique | app.py:38 | in a well-formed table any task with an id is the one the lookup returns |
| TaskStore.DoneFilter | app.py:78-86 | "true" and "false" select done and not-done tasks; any other value or none keeps all |
| TaskStore.Select | app.py:83-86 | the filtered rows hold each passing task exactly as often as the table, and no other |
| TaskStore.SortKeyOf | app.py:79-96 | anything but "priority", "due" and "category" orders by creation time |
| TaskStore.LexTotal | app.py:93-94 | any two categories are ordered one way or the other |
| TaskStore.LexTrans | app.py:93-94 | the category order is transitive |
| TaskStore.OrderTotal | app.py:88-96 | every sort key orders any two tasks |
| TaskStore.OrderTrans | app.py:88-96 | every sort key is transitive |
| TaskStore.Insert | app.py:88-96 | inserting into a sorted sequence keeps it sorted and adds exactly that task |
| TaskStore.SortBy | app.py:88-98 | the ordered rows are sorted by the key and are a permutation of the input |
| TaskStore.AddedMessage | app.py:148-155 | the confirmation begins "Task '<name>' added", is exactly that for no priority word and no due date, and ends " due <date>" when there is a due date |
| TaskStore.AddedMessageNamesPriority | app.py:148-153 | for levels 1..3 the confirmation begins "Task '<name>' added with <low/medium/high> priority" |
| TaskStore.AppendKeeps | app.py:133-146 | a task with a new id and an untaken name keeps the table well-formed |
| TaskStore.SetDoneKeeps | app.py:177 | changing a done flag keeps the table well-formed |
| TaskStore.RemoveKeeps | app.py:199 | removing one task keeps the table well-formed |
| TaskStore.SelectKeeps | app.py:250 | keeping only some tasks keeps the table well-formed |
| TaskStore.ToggleTwice | app.py:218 | flipping the same task twice restores the table |
| TaskStore.RemoveOne | app.py:239 | removing position i takes out exactly that task |
| TaskStore.TaskTable.constructor | app.py:28-30 | the table starts empty and well-formed |
| TaskStore.TaskTable.FreshId | app.py:139 | the new id is not used by any task |
| TaskStore.TaskTable.GetTasks | app.py:72-99 | the listing is a permutation of the tasks passing the done filter, sorted by the requested key; reading changes nothing |
| TaskStore.TaskTable.AddTask | app.py:102-157 | blank text gives 400 and a name taken up to case gives 409, both leaving the table unchanged. Otherwise exactly one task is appended: fresh id, not done, the parsed name (never empty), priority, category and due date, and the creation time. The reply is 201 with the confirmation. Well-formedness is kept. |
| TaskStore.TaskTable.MarkByName | app.py:160-179 | blank name gives 400 and no match gives 404, both leaving the table unchanged; otherwise only the first matching task becomes done (so marking a done task changes nothing) |
| TaskStore.TaskTable.DeleteByName | app.py:182-201 | blank name gives 400 and no match gives 404, both leaving the table unchanged; otherwise exactly the matching task is removed, the others stay in order |
| TaskStore.TaskTable.Toggle | app.py:204-222 | missing id gives 400 and an unknown id gives 404, both leaving the table unchanged; otherwise only that task's done flag flips, and the message says done or undone |
| TaskStore.TaskTable.Delete | app.py:225-241 | missing id gives 400 and an unknown id gives 404, both leaving the table unchanged; otherwise exactly that task is removed |
| TaskStore.TaskTable.ClearCompleted | app.py:244-255 | exactly the tasks not done remain, in order |
| TaskStore.TaskTable.ClearAll | app.py:258-265 | the table is empty |

## Left out

- Flask routing, JSON request decoding, `render_template`, the service-worker routes and the database session are not modelled. Each route is a method on the in-memory table. A missing `name` or `id` field is the empty string.
- The 500 reply of clear-completed, which only a database failure produces, is not modelled.
- SQL `ilike` wildcards (`%`, `_`) are not modelled: names compare by ASCII case-insensitive equality. Unicode case folding is left out throughout.
- `uuid4` is not modelled: a fresh id is any string longer than every id present. The 36-character id and the 200-character name column limits are not modelled either.
- Clocks and date formatting are parameters or abstract:
  - `datetime.now` is the `now` field of `Env`, and `datetime.utcnow` is the `utcNow` parameter of `AddTask`;
  - `isoformat` is abstract (`JTime`);
  - the "%b %d, %Y" formatting is the `formatDate` parameter.
- Python's `datetime.replace(hour=...)` is modelled as arithmetic on local wall-clock microseconds. Time zones and daylight saving are not modelled.
- `dateutil`'s fuzzy parser is an oracle (`Env.fuzzyDate`).
- The joblib classifiers (`PRIORITY_MODEL`, `CATEGORY_MODEL`) are oracles in `Env`. `INTENT_MODEL` in app.py only prints a prediction and is left out, as are all printed messages.
- The voice front end (wake word, speech recognition and output, confirmation dialog) is browser code and is not part of this model.
- TaskStore.TaskTable.GetTasks: the order of rows with equal sort keys is not stated, because the database does not promise one.
- TaskParsing.CategoryRule: does not claim that the category phrase is gone from the name. Removing every occurrence can splice a new one together: "iin g categoryn g category" loses "in g category" and becomes "in g category".
- TaskParsing.CategoryCut: its own contract states only the shape; the text it keeps is stated in parts: `CategoryCutText` (every occurrence of the first phrase removed, then stripped), `FirstPhraseAt` (that phrase matches at the first match and nowhere before) and `Text.RemoveFirst` (the text before the first match is kept).
- TaskParsing.DueTextHasNoBy: is stated for commands without line feeds, because Python's `.` stops at a line feed and a "by" on an earlier line is not cut. It is stated for the text after the due-date stage; for the final name it holds only when the clean-up leaves something (`ParseLaws.NameHasNoBy`). When every stage empties the text, the name falls back to the whole command: "by tomorrow" is due tomorrow and keeps the name "by tomorrow" (`ParseLaws.ByPhraseOnly` with keyword 1).
- ParseLaws.NameHasNoTimeWord: is stated for the single-word time words only. The clean-up can join "next" and "week" into the time word "next week" when more than one space stood between them, so the two-word time words can reappear in the name.
- TaskParsing.ParsedDue: states the standalone fallback as `StandaloneDue` of the stripped command; the "tomorrow" and "today" values are in the contract of `StandaloneDue` itself.
- TaskParsing.Parse: its own contract states only the priority range. The name, priority, category and due date it assembles are stated by `ParsedNameNonEmpty`, `ParsedNameShape`, `ParsedPriority`, `ParsedCategoryFound`, `ParsedCategoryDefault`, `ParsedDue`, `ParsedRelativeDue` and the lemmas of `ParseLaws`.
- TaskParsing.RemindMeTo: is stated for the helper stage and for any task that starts with none of the later phrases; the parsed name of "remind me to buy milk" is `ParseLaws.RemindBuyMilk`.
