# Handoff core, modelled in Dafny

Handoff is a small Django application that runs a print-on-demand shop's
daily routine. A task is one day's listing job, with a checklist of steps
seeded from a template, a design file in Google Drive, mockup images and
one publication per store. Recurring tasks turn into dated tasks. Designs
are scheduled per day and per store, and several commands keep that
schedule filled. This project models the decision logic inside those
pieces and proves what it promises:

- **Tasks and steps** (`Models`): a task's status follows its checklist,
  seeding steps from a template, the mockup slots, toggling a step, and
  recurring tasks that create at most one task per day.
- **Drive ids** (`DriveIds`, `FixDriveIds`, `Forms`): the rule that turns a
  pasted Drive link into a bare file or folder id, applied on every save, in
  the form cleaners and by the `fix_drive_ids` command. The rule is
  idempotent. The branch that looks for an `?id=` or `&id=` query parameter
  can never match, because the value has already been cut before its first
  `?` and its first `&`. A link without a `/d/` or `/folders/` id therefore
  keeps its text up to the `?`, and the model proves this.
- **Scheduling** (`Records`, `Admin`, `ScheduleSync`, `IntakeDesigns`,
  `DesignWorkflow`): the admin calendar and its month navigation, and the
  schedule form's remove-or-save POST. Also covered: the "Apply today's
  scheduled design" action, the backfill of scheduled designs from design
  files, the intake of dropped designs onto the next free dates, and the
  emergency design picked when a day has none.
- **Mockups** (`Views`, `MockupService`, `MockupGenerator`): the order of
  the mockup cards and unique names in the mockup zip. Also covered: the
  design-box string of the template editor, the in-memory job table and its
  expiry, the generation run, and box clamping and layer order in
  rendering.
- **Etsy listings** (`Etsy`, `Views`, `Ai`): tag lists, the thirteen-tag
  validation, the suggested title, the listing save and reading the tag
  generator's reply.
- **Context and start-up** (`ContextProcessors`, `Manage`): the store
  picker, the design runway, guide matching, and the requirements check
  `manage.py` runs before Django starts.

Shared helper modules give Python's string operations (`Text`), calendar
dates as (year, month, day) triples (`Dates`), decoded JSON values (`Json`),
a stable sort (`Sorting`) and Option/Result values (`Wrappers`). ORM tables
are sequences in primary-key order, and a queryset's `.first()` is the
first matching row in the model's ordering: primary-key order, except for
stores, which the `Store` model orders by (order, name, id). Objects that the source updates field by field (tasks, steps,
templates, listings, the job table) are classes. Loops that mutate them are
methods proved against specification functions.

## Model

| member | source | states |
|---|---|---|
| Models.NormaliseId | handoff/models.py:129-134 | an empty id is left empty; any other is replaced by its `extract_drive_id` |
| Models.NormaliseIdIdempotent | handoff/models.py:128-135 | saving twice gives the same ids as saving once |
| Models.DoneCount | handoff/models.py:85-87 | never more than the number of steps |
| Models.DoneCountAll | handoff/models.py:93-96 | the done count equals the step count exactly when every step is done |
| Models.DoneCountNone | handoff/models.py:101-104 | the done count is zero exactly when no step is done |
| Models.StatusForMeaning | handoff/models.py:93-105 | `StatusFor`, the status `refresh_status` picks, is DONE exactly when there are steps and all are done, NEW exactly when none is done, IN_PROGRESS exactly when some are and some are not |
| Models.AllStepsDone | handoff/models.py:92-95 | `all_steps_done` holds exactly when there is a step and every step is done |
| Models.NoStepsIsNew | handoff/models.py:93-104 | a task without steps is NEW, not DONE |
| Models.SeedRows | handoff/models.py:113-123 | at most one step per item, each numbered by a position in the list, not done and without a done time |
| Models.SeedRowsCount | handoff/models.py:113-126 | one step per truthy item, so the count returned is the number of truthy items |
| Models.SeedRowsSource | handoff/models.py:114-122 | each step comes from the truthy item at its position and carries that item's stripped text |
| Models.SeedRowsIncreasing | handoff/models.py:114 | the orders strictly increase |
| Models.SeedRowsComplete | handoff/models.py:114-123 | every truthy item gives a step numbered by its position |
| Models.SeedRowsGap | handoff/models.py:114-116 | a falsy item is skipped but keeps its number, so [a, "", b] gives orders 1 and 3 |
| Models.SeedRowsTexts | handoff/models.py:114-122 | the seeded texts are exactly the truthy items' stripped texts, in order |
| Models.CollectSeed | handoff/models.py:113-123 | the loop collects exactly the seeded steps |
| Models.NewSlots | handoff/models.py:147-150 | empty slots numbered `existing + 1` .. `count` |
| Models.Task.Save | handoff/models.py:128-135 | both Drive ids are normalised and nothing else changes |
| Models.Task.RefreshStatus | handoff/models.py:98-105 | the status is the one the step counts give, then the task is saved |
| Models.Task.SeedStepsFromTemplate | handoff/models.py:107-126 | no template, falsy or non-list `default_steps` add nothing; otherwise the seeded steps are added and counted |
| Models.Task.EnsureMockupSlots | handoff/models.py:143-151 | with enough slots nothing changes; otherwise new empty slots are numbered on from the existing count up to `count` |
| Models.EnsureSlotsCount | handoff/models.py:143-151 | afterwards there are at least `count` slots (exactly `count` if there were fewer), the new ones numbered by position |
| Models.Toggled | handoff/models.py:175-178 | `done` flips; a done time is present exactly when done, and is then now |
| Models.ToggleTwice | handoff/models.py:175-178 | toggling twice restores `done`, with the time cleared or refreshed |
| Models.TaskStep.Toggle | handoff/models.py:175-178 | the step's state becomes the toggled state; order and text are kept |
| Models.StepList | handoff/models.py:376-381 | a non-empty own list wins, else a template list; each as its truthy stripped texts |
| Models.StepListEmpty | handoff/models.py:376-381 | with neither list there are no steps |
| Models.Numbered | handoff/models.py:401-405 | steps numbered 1, 2, ... with the texts in order, not done |
| Models.FindTask | handoff/models.py:386-388 | the task of that recurring task on that day, `None` when there is none |
| Models.TaskTable.CreateTaskForDate | handoff/models.py:383-409 | an inactive or not yet started recurring task gives nothing; an existing task for the day is returned unchanged; otherwise one task is created with the recurring task's fields and its steps, or else the template's |
| Models.TaskTable.GenerateForDate | handoff/models.py:411-421 | a task is created for each selected recurring task that has none for the day, and the count is the number created |
| Models.SelectedMeaning | handoff/models.py:413-415 | every selected recurring task is active, started by the day, and assigned to the assignee when one is given |
| Models.SelectedDistinct | handoff/models.py:413-417 | the selection keeps distinct ids distinct |
| Models.FindTaskAfterNew | handoff/models.py:417-420 | tasks created earlier in the loop never make a later recurring task look done, given distinct ids |
| Models.FindTaskPrefix | handoff/models.py:386-388 | a task found in a table is found first in any extension of it |
| Models.IneligibleNotSelected | handoff/models.py:384-413 | an inactive or not yet started recurring task never gets a task for the day |
| Records.FindSchedule | handoff/views.py:382-393 | `filter(due_date, recurring_task, store).first()`: the position of the first row with exactly that key (a `None` part matches only `None`), with no earlier row of the key; `None` only when no row has it |
| Records.ScheduledIdMeaning | handoff/admin.py:194-204 | the design id of the first row with exactly that key; `None` exactly when no row has the key |
| Records.UpsertSchedule | handoff/admin.py:127-132 | `update_or_create` on the key: the table keeps its length when the key exists and grows by one otherwise, and afterwards the key's first row holds the normalised id |
| Records.UpsertScheduleOthers | handoff/admin.py:127-132 | rows of other keys are untouched by the upsert |
| Records.EntryLabel | handoff/admin.py:134-136 | the label starts with the task title or "All tasks", is exactly that without a store, and ends with " · " and the store name with one (also lines 164-166) |
| Records.UpsertDesign | handoff/management/commands/intake_designs.py:154-161 | `DesignFile.objects.update_or_create(drive_file_id=...)`: the table keeps its length when the Drive id exists and grows by one otherwise |
| Records.UpsertDesignOthers | handoff/management/commands/intake_designs.py:154-161 | designs with other Drive ids are unchanged by the upsert |
| Records.UpsertDesignSets | handoff/management/commands/intake_designs.py:154-161 | afterwards some design with that Drive id carries the given filename, status, extension and store, and the given date when one is given |
| Records.StoreById | handoff/management/commands/intake_designs.py:113 | `Store.objects.get(pk=...)`: a found store is in the table with that id; `None` only when no store has it |
| Records.StoreByName | handoff/management/commands/intake_designs.py:115 | `filter(name__iexact=…).first()`: `None` exactly when no store's name equals the given name ignoring case; otherwise a stored match that comes first by (order, name, id) among all matches |
| Records.StoreKeyLeTotal | handoff/migrations/0015_stores_and_publications.py:23 | the (order, name, id) ordering of stores compares every pair and is transitive |
| Records.FindScheduleAppend | handoff/views.py:382-393 | a key missing from a table is found at the end once a row of it is appended |
| Records.NextId | handoff/management/commands/intake_designs.py:154-161 | a new row's id is larger than every stored id |
| Records.FindDesign | handoff/management/commands/intake_designs.py:154 | the first design with the Drive id, `None` only when there is none |
| DriveIds.IdRun | handoff/models.py:37 | the longest prefix made of `[a-zA-Z0-9_-]` characters: all id characters, and the next character is not one |
| DriveIds.SearchId | handoff/models.py:37-42 | a found group is a non-empty run of id characters |
| DriveIds.SearchQueryId | handoff/models.py:43-45 | a found group is a non-empty run of id characters |
| DriveIds.SearchIdAbsent | handoff/models.py:37-42 | a marker whose first character does not occur is never found |
| DriveIds.SearchQueryIdAbsent | handoff/models.py:43 | without `?` or `&` the query pattern never matches |
| DriveIds.Cut | handoff/models.py:32-35 | the result holds no cut character and stays stripped |
| DriveIds.Prepare | handoff/models.py:31-35 | after stripping and both cuts the value has no `?`, no `&` and no surrounding whitespace |
| DriveIds.Decide | handoff/models.py:36-46 | the value itself, or a non-empty id made of id characters |
| DriveIds.ExtractDriveId | handoff/models.py:28-46 | "" for "", and otherwise a stripped value without `?` or `&` |
| DriveIds.ExtractDriveIdIdempotent | handoff/models.py:28-46 | extracting from an extracted id changes nothing, so repeated saves agree |
| DriveIds.PrepareFixes | handoff/models.py:31-35 | a stripped value without `?` or `&` is left as it is |
| DriveIds.DecideOfId | handoff/models.py:36-46 | a bare id is returned unchanged |
| DriveIds.QueryIdBranchUnreachable | handoff/models.py:32-45 | since everything from the first `?` or `&` is cut first, the `[?&]id=` search can never match |
| DriveIds.NonHttpOnlyCut | handoff/models.py:36-46 | a value not starting with "http" is only stripped and cut |
| DriveIds.FileIdPreferred | handoff/models.py:37-39 | in a link the id after "/d/" wins |
| DriveIds.FolderIdSecond | handoff/models.py:40-42 | the id after "/folders/" is used only when there is no "/d/" id |
| DriveIds.OpenLinkGivesPrefix | handoff/models.py:28-46 | an `open?id=` link without "/d/" or "/folders/" gives back the link up to `?`, not the id it carries |
| Admin.CurrentMonth | handoff/admin.py:64-68 | with no (or a blank) `month` parameter the 1st of today's month; otherwise the 1st of the parsed month, with `None` for a value that is not two integers joined by "-" or not a real month; a result is always a valid 1st of a month |
| Admin.MonthValueRoundTrip | handoff/admin.py:64-66 | the `YYYY-MM` value `MonthValue` writes for a month (line 209) reads back as the 1st of that month |
| Admin.MonthWithoutDash | handoff/admin.py:64-66 | a non-blank parameter with no "-" is rejected |
| Admin.PrevMonth | handoff/admin.py:190 | the 1st of the previous calendar month, wrapping January to December of the year before |
| Admin.NextMonth | handoff/admin.py:191 | the 1st of the next calendar month, wrapping December to January of the year after |
| Admin.MonthNavigationInverse | handoff/admin.py:190-191 | previous-of-next and next-of-previous both return to the 1st of the month shown |
| Admin.TaskById | handoff/admin.py:85-89 | `get(pk=...)`: a found task is in the table with that id; `None` only when no task has that id |
| Admin.PostedTask | handoff/admin.py:85-89 | a missing, blank, non-integer or unknown `recurring_task_id` gives no task; a found task has the posted id |
| Admin.PostedStore | handoff/admin.py:90-94 | the same for `store_id` and the store table |
| Admin.RemoveKey | handoff/admin.py:113-115 | `filter(key).delete()`: no row of the key survives, every row of another key survives, nothing is added |
| Admin.RemoveKeyKeepsCount | handoff/admin.py:113-115 | every row of another key survives as often as it occurs in the table |
| Admin.RemoveKeyAbsent | handoff/admin.py:113-115 | a table without a row of the key is left exactly as it is |
| Admin.RemoveKeyAppend | handoff/admin.py:113-115 | the deletion works row by row in table order: deleting from `a + b` is deleting from `a`, then from `b`, and concatenating |
| Admin.ScheduleRedirect | handoff/admin.py:151-153 | the redirect always goes back to `/admin/handoff/schedule/?date=` |
| Admin.RedirectQuery | handoff/admin.py:151-153 | the query string of the redirect is `date=` and the posted date, then `&task=` and the task id when a task is given, then `&store=` and the store id when a store is given |
| Admin.RedirectParts | handoff/admin.py:151-153 | split at `&`, that query is the date part followed by the task part and the store part that are given |
| Admin.QueryOf | handoff/admin.py:153 | the query string of a URL is a proper suffix of it after its first `?`, and empty without one |
| Admin.ParamIn | handoff/admin.py:153 | the value read for a parameter comes from a `name=value` part; no value only when no part starts with `name=` |
| Admin.ScheduleRedirectReadBack | handoff/admin.py:151-153 | reading the redirect's query gives back the posted date as `date`, the task id as `task` exactly when a task is given, and the store id as `store` exactly when a store is given |
| Admin.PostedTaskId | handoff/admin.py:85-89 | the id of the posted task, which names a task in the table |
| Admin.PostedStoreId | handoff/admin.py:90-94 | the id of the posted store, which names a store in the table |
| Admin.PostedTable | handoff/admin.py:112-132 | with the remove flag no row of the key remains, every row of another key remains as often as before and nothing is added; otherwise a non-empty design id becomes the key's normalised id; otherwise the table is unchanged |
| Admin.HandleSchedulePost | handoff/admin.py:77-153 | a missing date only redirects; an unparsable date is the `ValueError`; otherwise the table is `PostedTable` (remove wins over upsert), an AJAX save answers with the ISO date, normalised id, ids and label, and a non-AJAX post always redirects |
| Admin.DriveIdsOf | handoff/admin.py:126 | the upserted id is a fixed point of the model's `save()` normalisation |
| Admin.ItemsOnNonEmpty | handoff/admin.py:162-177 | a day has entries exactly when some shown row is dated that day |
| Admin.ItemsOn | handoff/admin.py:162-177 | a day never has more entries than there are shown rows |
| Admin.ScheduledMap | handoff/admin.py:157-177 | the map's days are exactly the days of the shown rows, and each day holds the entries of that day's shown rows in table order |
| Admin.SelectedDesignId | handoff/admin.py:193-204 | "" without a selected date; otherwise the design id of the first row for (date, task or no task, store), or "" when there is none |
| Admin.MovedUp | handoff/admin.py:602-603 | the order drops by one when above 1 and is never taken below 1 |
| Admin.MovedDown | handoff/admin.py:609 | the order always rises |
| Admin.MoveInverse | handoff/admin.py:599-610 | move down then move up restores every order from 1 on; order 0 comes back as 1; move up then move down restores orders above 1 |
| Admin.MoveUp | handoff/admin.py:599-604 | each selected template's order becomes `MovedUp` of its old order; no other field is written |
| Admin.MoveDown | handoff/admin.py:606-610 | each selected template's order becomes `MovedDown` of its old order; no other field is written |
| Admin.Pick | handoff/admin.py:677-690 | the store-less entry for the task's recurring task when there is one, else the global entry (no task, no store); nothing only when neither exists |
| Admin.CountApplied | handoff/admin.py:680-706 | the number of tasks due today that get an entry, never more than the number of tasks |
| Admin.CountAppliedPositive | handoff/admin.py:706-708 | one task that gets an entry makes the count positive |
| Admin.AppliedIdsAt | handoff/admin.py:681-692 | a task not due today or without an entry keeps its id; a task that gets one ends with an already-normalised id |
| Admin.ApplyTwiceChangesNothing | handoff/admin.py:681-692 | running the action again leaves every id as the first run left it |
| Admin.ApplyOne | handoff/admin.py:681-692 | one task takes the normalised picked id exactly when it is due today and an entry is picked; only its design id is written |
| Admin.ApplyAt | handoff/admin.py:681-692 | the `k`th task changes as `ApplyOne` says and no other task's design id, due date or recurring task changes |
| Admin.ApplyAll | handoff/admin.py:681-706 | every task's design id becomes `AppliedIds` of the keys and ids before, and `applied` is `CountApplied` |
| Admin.ApplyToday | handoff/admin.py:669-710 | every task due today whose recurring task has an entry for today, or else for which the entry for all tasks exists, takes that entry's normalised design id and is counted, every other task keeps its id; "No tasks for today." with nothing counted when no task is due; "Applied to N task(s)." when N > 0; otherwise "No matching scheduled designs for today." |
| Admin.NoneDueCountsZero | handoff/admin.py:674-676 | with no task due today the count is 0 |
| Views.DigitRun | handoff/views.py:319 | the longest digit prefix: all digits, and the next character is not one |
| Views.FirstNumber | handoff/views.py:319-322 | `None` exactly when the text has no digit |
| Views.ExtractNumericOrder | handoff/views.py:312-325 | the loop returns the number of the first value that has one |
| Views.ValueNumberIff | handoff/views.py:313-322 | a value gives a number exactly when it is present and contains a digit |
| Views.NumericOrderNoneIff | handoff/views.py:312-325 | `NumericOrder` is `None` exactly when no value contains a digit |
| Views.NumericOrderFirst | handoff/views.py:312-325 | otherwise `NumericOrder` is the number of the first value with a digit |
| Views.SlotCount | handoff/views.py:282 | at least 6, the image count and the template count, and equal to one of them |
| Views.CardLeTotalPreorder | handoff/views.py:354-361 | the card key order compares every pair and is transitive |
| Views.SlotCards | handoff/views.py:329-341 | at most one card per slot, each a slot card |
| Views.SlotCardsIff | handoff/views.py:330-332 | a slot has a card exactly when it has a file, a folder image at its position, or is required |
| Views.ExtraCards | handoff/views.py:343-352 | one card per extra, numbered from its label, else its file name |
| Views.MockupCardsSorted | handoff/views.py:328-361 | `MockupCards` is exactly the slot and extra cards, sorted by their key |
| Views.SlotBeforeExtra | handoff/views.py:354-361 | a slot card sorts before an extra card with the same number |
| Views.UnnumberedExtraLast | handoff/views.py:349-361 | an extra without a number sorts after every slot numbered below 999999 |
| Views.Renamed | handoff/views.py:739-743 | a renaming is always longer than the base |
| Views.RenamedInjective | handoff/views.py:739-743 | different indices give different renamings |
| Views.CandidateInjective | handoff/views.py:735-744 | the names tried are pairwise different |
| Views.ZipNames.UniqueName | handoff/views.py:735-746 | the name returned was not given out before and is recorded; it is the first candidate not given out |
| Views.CandidateNew | handoff/views.py:738-744 | the next candidate has not been tried yet, so the loop ends |
| Views.FirstCollisionExample | handoff/views.py:739-741 | a name with two dots is renamed before its last dot: "a.b.png" becomes "a.b-2.png" |
| Views.IntOf | handoff/views.py:962 | `int()` of a float truncates toward zero, and raises for infinities and NaN |
| Views.ParsePart | handoff/views.py:959-963 | a part with neither 4 nor 5 fields is skipped and only then; a box gets the given order; a 4-field box has rotation 0 |
| Views.ParsePartBoxIff | handoff/views.py:959-972 | a part of 4 or 5 fields creates a box exactly when x, y, width and height convert through `int(float(·))` to non-negative integers and a fifth field, if any, to a float; otherwise it raises |
| Views.ParsePartsRaisesIff | handoff/views.py:957-973 | the loop raises exactly when some part raises; without one, every box part creates a box |
| Views.NonBlank | handoff/views.py:956 | only parts that are not blank after stripping are kept |
| Views.ParseParts | handoff/views.py:957-973 | the boxes created are numbered consecutively without gaps |
| Views.CreateBoxes | handoff/views.py:957-973 | the loop creates the boxes the parts give and stops at the first part that raises |
| Views.ParseBoxes | handoff/views.py:952-973 | the non-blank `;`-separated parts raise exactly when one of them does; otherwise every box part becomes a box; the boxes are numbered from 1 without gaps |
| Views.FiveFieldRotation | handoff/views.py:963 | a five-field part keeps the rotation it gives |
| Views.PostedPlacementFields | handoff/views.py:936-939 | the post parses exactly when every given field is an integer; absent fields keep their values; a given field takes its integer |
| Views.PostedInt | handoff/views.py:936-939 | an absent field keeps its value; a present one is saved exactly when it is a non-negative integer, and then as that integer |
| Views.PostedOverlay | handoff/views.py:940-942 | the overlay position changes only to "OVER" or "UNDER" |
| Views.MockupTemplate.PositionSave | handoff/views.py:930-976 | an integer that does not parse saves nothing; otherwise the placement and overlay are saved, and a non-empty boxes string replaces the boxes with those created before any part raises |
| Views.ParseSteps | handoff/views.py:979-983 | every step is non-empty and stripped |
| Views.ParseStepsOfLines | handoff/views.py:979-983 | steps written one per line are read back unchanged |
| Views.ScheduledForTask | handoff/views.py:382-393 | a result is an entry of that day and store, for the task's recurring task or for all tasks |
| Views.TaskEntryPreferred | handoff/views.py:385-388 | the task's own entry wins over the entry for all tasks |
| Views.GlobalEntryFallback | handoff/views.py:389-393 | without a task entry the entry for all tasks is used, and without it there is none |
| Views.Updated | handoff/views.py:646-656 | the URL is taken, the status only when it is QUEUED or LISTED, and the row changes exactly when one of them differs |
| Views.Publications.SaveAll | handoff/views.py:628-661 | the loop leaves the publications and the count the items give |
| Views.Publications.SaveItem | handoff/views.py:629-659 | one item updates the publications and says whether it was counted |
| Views.PubStepSkips | handoff/views.py:630-642 | a non-object, an unparsable store id or an unknown store changes nothing |
| Views.PubStepApplies | handoff/views.py:636-659 | an item for a known store sets that store's URL and known status, creating the publication if needed, is counted exactly when it changed it, and touches no other store |
| Views.PubStepStatuses | handoff/views.py:648 | statuses stay QUEUED or LISTED |
| Views.PubItemsStatuses | handoff/views.py:628-661 | that holds after any list of items, and the count is at most the number of items |
| Views.Listing.Save | handoff/views.py:523-552 | a non-empty tag list failing validation is rejected with nothing saved; otherwise the stripped title and description are stored, and the tags are cleared by an empty field, replaced by a non-empty list, or kept |
| Views.ReadTags | handoff/views.py:523-526 | the tags normalised from the field, and whether they may be saved |
| Views.CommasKeepTags | handoff/views.py:523-549 | a field of only commas is not empty, yet gives no tags, so the saved tags are kept |
| Etsy.NormalizeTagsCsv | handoff/etsy.py:11-19 | the loop keeps exactly the stripped, non-empty comma-separated parts, in order |
| Etsy.NormalizedTagsClean | handoff/etsy.py:11-19 | every tag read is non-empty, stripped and free of commas |
| Etsy.JoinCommaSpace | handoff/etsy.py:26 | joining with ", " is joining with "," after giving each part but the first a leading space |
| Etsy.CleanSpaceAfterFirst | handoff/etsy.py:11-26 | stripping undoes the spaces the join added |
| Etsy.NormalizeFormatRoundTrip | handoff/etsy.py:11-26 | formatting tags as text and reading them back gives the clean tags, for tags without commas |
| Etsy.FormatTagsCsv | handoff/etsy.py:22-26 | the text is empty exactly when no tag is non-blank, and is stripped |
| Etsy.NormalizeTagsExample | handoff/tests.py:28-30 | " one, two , ,three " reads as the tags "one", "two" and "three" |
| Etsy.MatchesTagPatternStripped | handoff/etsy.py:8 | on a stripped tag `^[A-Za-z0-9 ]+$` holds exactly for a non-empty string of those characters |
| Etsy.ErrorListsAt | handoff/etsy.py:49-61 | the errors of tag `i` are those the loop computes for it |
| Etsy.KeyedEntries | handoff/etsy.py:60-61 | `per_tag_errors` holds exactly the one-based positions of tags with errors, with those errors |
| Etsy.TagErrorsEmptyIff | handoff/etsy.py:50-60 | a tag has no error exactly when it is at most 19 characters, matches the pattern and repeats no earlier tag ignoring case |
| Etsy.ValidateTags | handoff/etsy.py:40-63 | the clean tags, the count error unless there are 13, and every tag's errors keyed by position |
| Etsy.PerTagLoop | handoff/etsy.py:48-61 | the loop fills `per_tag_errors` with every tag's errors |
| Etsy.TagStep | handoff/etsy.py:49-61 | one iteration keeps `seen` the lower-cased earlier tags and the map the errors so far |
| Etsy.CheckTag | handoff/etsy.py:50-59 | the checks in reporting order (length, pattern, duplicate), and `seen` gains the lower-cased tag |
| Etsy.SeenIsRepeat | handoff/etsy.py:55-59 | membership in `seen` is exactly repeating an earlier tag ignoring case |
| Etsy.ValidationOkIff | handoff/etsy.py:35-63 | `Validation` is ok exactly when there are thirteen clean tags, each at most 19 pattern characters, no two equal ignoring case |
| Etsy.SpecialCharacterReported | handoff/etsy.py:53-54 | a tag with a character outside the pattern is reported at its position |
| Etsy.TwoTagsRejected | handoff/etsy.py:45-46 | two tags give "Expected exactly 13 tags, got 2." and are not ok |
| Etsy.ReplaceChar | handoff/etsy.py:74 | every underscore becomes a space, nothing else changes |
| Etsy.CollapseSpaces | handoff/etsy.py:74 | `re.sub(r"\s+", " ", ·)`: single-spaced, no longer, empty only for empty input, starting with whitespace exactly when the input does |
| Etsy.CollapseKeepsNonSpaces | handoff/etsy.py:74 | collapsing keeps every non-whitespace character, in order |
| Etsy.CollapseStripped | handoff/etsy.py:74 | collapsing keeps a stripped string stripped |
| Etsy.CollapseSingleSpaced | handoff/etsy.py:74 | collapsing is the identity on single-spaced text, so applying it twice is applying it once |
| Etsy.TitleStem | handoff/etsy.py:67-72 | the stripped name, or "Design" when blank, with its last extension cut unless that leaves nothing; never empty |
| Etsy.TitleBaseStripped | handoff/etsy.py:74 | `TitleBase`, the base of a title, is stripped |
| Etsy.TitleBaseShape | handoff/etsy.py:74 | `TitleBase` has no underscore and no whitespace but single spaces |
| Etsy.TitleBaseExample | handoff/etsy.py:67-74 | the base of "my_design_file.png" is "my design file" |
| Etsy.Truncate | handoff/etsy.py:77 | `s[:n]`: a prefix of at most `n` characters, the whole string when short enough |
| Etsy.SuggestTitle | handoff/etsy.py:66-77 | a title is at most 140 characters |
| Etsy.SuggestTitleWithoutSuffix | handoff/etsy.py:66-77 | without a suffix the title is a prefix of the base and has no underscore |
| Etsy.SuggestTitleKeepsSuffix | handoff/etsy.py:75-77 | when both fit, the base and the stripped suffix are joined by exactly one space |
| Etsy.FullTitleJoins | handoff/etsy.py:76 | a stripped base and a non-blank stripped suffix are joined by exactly one space, and the suffix stands alone after an empty base |
| Etsy.SuggestTitleExample | handoff/tests.py:32-33 | "my_design_file.png" with the suffix "T-Shirt" gives "my design file T-Shirt" |
| IntakeDesigns.FindDate | handoff/management/commands/intake_designs.py:17 | the leftmost position at or after `i` where `20\d{2}-\d{2}-\d{2}` matches, with no match before it; `None` only when there is no match |
| IntakeDesigns.ParseDateFromName | handoff/management/commands/intake_designs.py:52-59 | a result is a valid calendar date read from a match in the name; no match gives `None` |
| IntakeDesigns.ParseDateFirstMatchOnly | handoff/management/commands/intake_designs.py:52-59 | only the first match is read: the result is that match parsed as a date, whatever follows |
| IntakeDesigns.InvalidFirstMatch | handoff/management/commands/intake_designs.py:52-59 | "2024-13-01 2024-01-05.png" gives no date, although its second match is a real date |
| IntakeDesigns.FileExt | handoff/management/commands/intake_designs.py:69-77 | the lower-cased extension when it is .png/.jpg/.jpeg, else ".jpg" for a JPEG MIME type, else ".png" for PNG, else "" |
| IntakeDesigns.FileExtIffValid | handoff/management/commands/intake_designs.py:62-77 | `_is_valid_image` holds exactly when `_file_ext` gives an image extension, and otherwise `_file_ext` gives "" |
| IntakeDesigns.LStripChar | handoff/management/commands/intake_designs.py:160 | `lstrip(".")`: a suffix of the input that does not start with the character |
| IntakeDesigns.RoundHalfUp | handoff/management/commands/intake_designs.py:80-82 | the size in hundredths of a MiB rounded to nearest, with halves rounded up |
| IntakeDesigns.SizeCents | handoff/management/commands/intake_designs.py:80-82 | `_size_mb` in hundredths: within half a hundredth of the exact size, halves rounded away from zero |
| IntakeDesigns.MaxBytesCents | handoff/management/commands/intake_designs.py:16 | the 20 MiB limit is recorded as 20.00 MB |
| IntakeDesigns.ResolveStore | handoff/management/commands/intake_designs.py:111-117 | an integer naming a stored primary key gives that store; otherwise `None` exactly when no store name matches the stripped value ignoring case, else the first match by (order, name, id); a result is always a stored store |
| IntakeDesigns.ResolveStoreNameTie | handoff/management/commands/intake_designs.py:115 | with store 1 "shop" of order 2 and store 2 "SHOP" of order 1, the value "shop" resolves to store 2 |
| IntakeDesigns.RootId | handoff/management/commands/intake_designs.py:20-27 | the settings row's root id when set, else the Django setting, else the environment variable |
| IntakeDesigns.NameDates | handoff/management/commands/intake_designs.py:129-130 | the date each Scheduled name gives, in listing order |
| IntakeDesigns.LatestStep | handoff/management/commands/intake_designs.py:131-132 | replacing the latest date when a later one is found keeps it the latest of the names so far |
| IntakeDesigns.LatestDate | handoff/management/commands/intake_designs.py:127-132 | the loop ends with the latest date any Scheduled name gives, or `None` when none gives one |
| IntakeDesigns.FirstDate | handoff/management/commands/intake_designs.py:134 | the first date handed out is the day after the latest scheduled date (so strictly after it), or today when there is none |
| IntakeDesigns.Classify | handoff/management/commands/intake_designs.py:147-181 | a file is scheduled exactly when it is not a folder, is a valid image (`IsValidImage`: an accepted MIME type or a `.png`, `.jpg` or `.jpeg` extension in any case) and is at most 20 MiB |
| IntakeDesigns.DateAfter | handoff/management/commands/intake_designs.py:206 | only a scheduled file uses up a date |
| IntakeDesigns.Plan | handoff/management/commands/intake_designs.py:141-206 | one action per listed file |
| IntakeDesigns.PlanAt | handoff/management/commands/intake_designs.py:141-206 | action `i` is the action for file `i` on the date as many days after the first as there are scheduled files before it |
| IntakeDesigns.PlanDates | handoff/management/commands/intake_designs.py:141-206 | folders are skipped, rejected files go to Error, and a scheduled file gets the date `m` days after the first, `m` being the scheduled files before it, and is renamed to that ISO date plus its extension |
| IntakeDesigns.CountGrows | handoff/management/commands/intake_designs.py:206 | a scheduled file counts towards every later prefix |
| IntakeDesigns.AssignedDatesIncrease | handoff/management/commands/intake_designs.py:141-206 | two scheduled files get different dates, the earlier file the earlier date |
| IntakeDesigns.MoveOf | handoff/management/commands/intake_designs.py:153-186 | a folder is not moved; every other file is moved once |
| IntakeDesigns.MovesCount | handoff/management/commands/intake_designs.py:141-186 | every file but the folders is moved exactly once |
| IntakeDesigns.ScheduledEntryNamesFile | handoff/management/commands/intake_designs.py:199-205 | a scheduled file leaves the store's all-tasks entry for its date naming it |
| IntakeDesigns.Intake.Apply | handoff/management/commands/intake_designs.py:147-206 | one file: its move (none on a dry run), its design-file upsert, and its scheduled-design upsert unless dry |
| IntakeDesigns.Intake.ProcessAll | handoff/management/commands/intake_designs.py:141-206 | the loop leaves the design files, scheduled designs and moves that the plan gives; on a dry run no move and no scheduled design is written |
| IntakeDesigns.Intake.Handle | handoff/management/commands/intake_designs.py:107-209 | an unknown store, an unset root folder or an empty Dump_Zone ends the run with nothing changed; otherwise the first date follows the latest scheduled name and the records are as `ProcessAll` says |
| ScheduleSync.Filtered | handoff/schedule_sync.py:14-27 | exactly the designs that are scheduled or active, dated, with a Drive id, of the store and within the inclusive range when those are given |
| ScheduleSync.DesignLeTotalPreorder | handoff/schedule_sync.py:20 | the order by date, update time and id is total and transitive |
| ScheduleSync.QuerysetRows | handoff/schedule_sync.py:14-27 | `Queryset` holds only wanted designs, and every wanted design of the table is among them |
| ScheduleSync.IndexOfKey | handoff/schedule_sync.py:29-31 | the position of a key in the dict, `None` when it is not a key |
| ScheduleSync.PutSpec | handoff/schedule_sync.py:31 | `desired[k] = v` keeps keys distinct, adds `k`, maps it to `v` and leaves other keys alone |
| ScheduleSync.DesiredSpec | handoff/schedule_sync.py:29-31 | the keys of `Desired` are exactly the rows' (date, store) keys, and each key maps to the Drive id of its last row |
| ScheduleSync.CollectDesired | handoff/schedule_sync.py:29-31 | the loop builds that dict |
| ScheduleSync.WinnerIsLatest | handoff/schedule_sync.py:20-31 | the design that wins a key comes last in (date, update time, id) order among the wanted designs of the key |
| ScheduleSync.LastOfKeyIsGreatest | handoff/schedule_sync.py:20-31 | in the sorted rows, the last row of a key is not before any row of that key |
| ScheduleSync.ExistingMeaning | handoff/schedule_sync.py:36-51 | for a desired key, being in `Existing` means exactly that a task-less entry with that date and store (store-less against store-less) exists |
| ScheduleSync.ToCreate | handoff/schedule_sync.py:53-65 | no more rows than dict entries |
| ScheduleSync.CollectToCreate | handoff/schedule_sync.py:53-65 | the loop builds the `to_create` list |
| ScheduleSync.ToCreateSpec | handoff/schedule_sync.py:53-65 | the rows to create are exactly the entries whose keys are not in `existing`, each once, with distinct keys |
| ScheduleSync.AllKeysPresentAfter | handoff/schedule_sync.py:53-70 | after the rows are added every desired key is present |
| ScheduleSync.CreatedWereMissing | handoff/schedule_sync.py:53-65 | no created row repeats a key that was already present |
| ScheduleSync.NothingWhenAllPresent | handoff/schedule_sync.py:53-68 | with every key present nothing is created |
| ScheduleSync.ScheduleTable.Backfill | handoff/schedule_sync.py:8-71 | the missing task-less entries are appended and counted; an empty query changes nothing and returns 0 |
| ScheduleSync.BackfillSpec | handoff/schedule_sync.py:8-71 | afterwards every wanted design's key has an entry, no created entry duplicates an existing one, and a second backfill creates nothing |
| DesignWorkflow.ExtFromDesign | handoff/design_workflow.py:12-18 | a result is empty or starts with a dot; a non-blank stored extension is kept, dotted; a blank one falls back to the extension of the Drive name, or of the stored filename when that name is empty |
| DesignWorkflow.ExtRoundTrip | handoff/design_workflow.py:12-18 | an extension stored without its dot (line 87) reads back as the same extension |
| DesignWorkflow.ScheduledIdsExcluding | handoff/design_workflow.py:21-26 | exactly the design ids scheduled on some other day |
| DesignWorkflow.Candidates | handoff/design_workflow.py:39-45 | exactly the posted designs, of the store when one is given, whose id is not in the excluded set |
| DesignWorkflow.CandidateMeaning | handoff/design_workflow.py:38-45 | a candidate is a posted design of the store whose Drive id is scheduled on no day but this one |
| DesignWorkflow.RecycledDesign | handoff/design_workflow.py:81-90 | the new design file is named by the ISO date and extension, dated that day, RECYCLED, with the copy's id, the store, the source's size, the extension without dot and folder "Scheduled" |
| DesignWorkflow.DesignRecords.EnsureEmergencyDesign | handoff/design_workflow.py:29-97 | nothing happens when the day already has a scheduled design (for the store, or for any store without one) or there is no candidate; an unset root raises; otherwise a candidate is copied under the date's name, recorded as RECYCLED and made the day's task-less scheduled design; an empty copy id changes nothing |
| ContextProcessors.DesignDates | handoff/context_processors.py:13-21 | the dates of exactly the design files that are scheduled or active, dated today or later, and of the store when one is given |
| ContextProcessors.ScheduleDates | handoff/context_processors.py:24-30 | the due dates of exactly the task-less scheduled designs due today or later, of the store when one is given |
| ContextProcessors.Distinct | handoff/context_processors.py:20 | `.distinct()`: no duplicates, and the same values as the input |
| ContextProcessors.NoDuplicatesCard | handoff/context_processors.py:32 | a list without duplicates is as long as the set of its values, so `len(dates)` counts distinct days |
| ContextProcessors.Latest | handoff/context_processors.py:33 | `max(dates)`: a member not before any other, and `None` exactly for no dates |
| ContextProcessors.RunwaySpec | handoff/context_processors.py:9-39 | in `ComputeRunway`, days remaining is the number of distinct counted design-file dates, or of scheduled-design dates only when there are none; the exhaustion date is their latest; the threshold defaults to 5; below threshold exactly when fewer days remain; every counted day is today or later |
| ContextProcessors.RouteMatchesIsSubstring | handoff/context_processors.py:45-51 | the slash-prefix test of `RouteMatches` adds nothing: a guide matches exactly when its stripped route is non-blank and occurs in the path ignoring case |
| ContextProcessors.ActiveSops | handoff/context_processors.py:44 | exactly the active guides |
| ContextProcessors.FirstMatch | handoff/context_processors.py:44-51 | the first guide passing the test, with none before it; `None` when none passes |
| ContextProcessors.MatchActiveSop | handoff/context_processors.py:42-52 | a result is an active guide whose route matches and that comes first by (name, id) among those; `None` only when no active guide matches |
| ContextProcessors.SopLeTotalPreorder | handoff/context_processors.py:44 | the (name, id) order of guides compares every pair and is transitive |
| ContextProcessors.FirstMatchIsLeast | handoff/context_processors.py:44-51 | in a sorted list the first matching guide precedes every other matching guide |
| ContextProcessors.BuildSopEmbedUrl | handoff/context_processors.py:55-61 | empty exactly for a blank value; an http(s) URL is kept stripped; anything else becomes a Scribe embed URL, so the result is always http(s) |
| ContextProcessors.BuildSopEmbedUrlIdempotent | handoff/context_processors.py:55-61 | building the URL again changes nothing |
| ContextProcessors.CurrentStore | handoff/context_processors.py:83-90 | the listed store with the integer id of the `store` parameter; a missing, empty or non-integer parameter gives `None` |
| ContextProcessors.VisibleStores | handoff/context_processors.py:67-81 | staff see every active store, other users the active stores they have an active membership of, anonymous users none |
| ContextProcessors.StoreLeTotalPreorder | handoff/context_processors.py:69-78 | the (order, name) order of stores compares every pair and is transitive |
| ContextProcessors.HandoffContext | handoff/context_processors.py:64-111 | the options are exactly the visible stores, sorted by (order, name); the current store is among them; the runway is for that store; the guide and its embed URL are set together, and only when a guide matches |
| Forms.StepsToText | handoff/forms.py:9-12 | "" for anything but a list, and exactly when no step is non-blank; otherwise the stripped steps one per line, with no surrounding whitespace |
| Forms.ToPython | handoff/forms.py:16-30 | blank input gives no steps; a JSON list gives its stripped non-empty items; other text gives its stripped non-empty lines; every step is non-empty and stripped |
| Forms.StepsRoundTrip | handoff/forms.py:9-30 | the text shown for stored steps is read back as those steps, cleaned (steps without line breaks) |
| Forms.LinesRoundTrip | handoff/forms.py:16-30 | steps typed one per line are read back as typed |
| Forms.JoinEnds | handoff/forms.py:11 | a newline-join of non-empty lines starts with the first line and ends with the last |
| Forms.CleanDriveId | handoff/forms.py:70-76 | "" stays ""; a cleaned id is stripped and has no `?` or `&` |
| Forms.CleanDriveIdStable | handoff/forms.py:145-147 | a cleaned id is kept by the model's save and by cleaning it again |
| MockupService.Applied | handoff/mockup_service.py:43-45 | the given fields are set, the others kept, the id and task kept, and `updated_at` is now |
| MockupService.JobTable.SetJob | handoff/mockup_service.py:33-35 | the job is stored under its id, replacing any job there |
| MockupService.JobTable.UpdateJob | handoff/mockup_service.py:38-45 | an unknown id changes nothing; a known job gets the update; no id is added or removed |
| MockupService.JobTable.GetJob | handoff/mockup_service.py:48-65 | an unknown id gives `None`; a done or failed job idle for more than 900 seconds is dropped and gives `None`; any other job is returned as stored |
| MockupService.JobTable.StartJob | handoff/mockup_service.py:68-71 | a new running job with no progress is stored under the new id, which is returned |
| MockupService.SlotIndex | handoff/mockup_service.py:106 | the first slot with the order, `None` when there is none |
| MockupService.Fill | handoff/mockup_service.py:106-113 | the slot of the template's order exists afterwards (created at the end if missing) and holds the normalised file id and the filename; slots of other orders are untouched |
| MockupService.FillKeepsOthers | handoff/mockup_service.py:106-113 | storing one template's mockup leaves the slot of every other order where and as it was |
| MockupService.FillAllCovers | handoff/mockup_service.py:104-120 | after the loop each template that produced a mockup has a slot of its order holding that mockup, when no two templates share an order |
| MockupService.Ordered | handoff/mockup_service.py:98 | the templates reordered: the same templates, as many |
| MockupService.OrderedAscending | handoff/mockup_service.py:98 | the templates are run in ascending `order` |
| MockupService.Progress | handoff/mockup_service.py:121-122 | the callback sees (1, total), ..., (n, total) |
| MockupService.FirstFailure | handoff/mockup_service.py:104-105 | the first template whose generation raises, with every earlier one succeeding; `None` when all succeed |
| MockupService.FirstFailureAt | handoff/mockup_service.py:104-105 | a failing template with only successes before it is the first failure |
| MockupService.Max6 | handoff/mockup_service.py:100 | at least 6 and the template count, and equal to one of them |
| MockupService.RunMockupGeneration | handoff/mockup_service.py:92-127 | nothing happens without a template, mockup templates or a design; otherwise the slots are padded to `max(6, n)`, the templates up to the first exception are stored with their attachments and progress calls, and only a run without exception records the design id and refreshes the status |
| MockupService.GenerateAll | handoff/mockup_service.py:103-122 | the loop stores, attaches and reports every template before the first failure, and stops with that failure's message |
| MockupService.MockupAttachments | handoff/mockup_service.py:114-119 | no more attachments than templates, each of kind "MOCKUP" |
| MockupService.MockupAttachmentsAllOk | handoff/mockup_service.py:104-119 | when every generation succeeds, the i-th attachment holds the i-th upload's raw id and file name |
| MockupService.MaybeAutogenerate | handoff/mockup_service.py:130-144 | the setting off, no design, no template, no mockup templates or an up-to-date design do nothing and leave the task unchanged; otherwise the run reports an error exactly when some template (in run order) fails, and the error is the message of the first failing template, with 0 generated and the recorded design id kept; without an error every template is generated and the design id is recorded as the generated one |
| MockupService.ReportProgress | handoff/mockup_service.py:78-79 | `progress_cb`: other jobs are untouched, and after the last report the job carries that report's done and total |
| MockupService.RunJob | handoff/mockup_service.py:73-87 | other jobs are untouched; a missing task fails the job with Django's message; otherwise the job is done exactly when the run raises nothing, and then has done = total = the number of templates |
| MockupGenerator.EnsureSize | handoff/mockup_generator.py:40-44 | the result is 4000 x 4000; an image of that size is kept, any other is resized from it |
| MockupGenerator.ConvertSvg | handoff/mockup_generator.py:21-34 | a non-SVG (by name and by MIME type) is returned unchanged; an SVG is rasterised; only a ".svg" name is renamed, keeping its stem, to ".png" |
| MockupGenerator.ChooseBoxes | handoff/mockup_generator.py:61 | never empty: the design boxes when there are any, else the single design box, else the full canvas |
| MockupGenerator.ClampSide | handoff/mockup_generator.py:68-69 | a side in 1..4000, unchanged when already in range |
| MockupGenerator.ClampOffset | handoff/mockup_generator.py:70-71 | a non-negative offset that keeps an extent that fits on the canvas, 0 for one that does not, unchanged when already fitting |
| MockupGenerator.FirstClamp | handoff/mockup_generator.py:68-71 | the clamped box lies on the canvas, and a box already on it is unchanged |
| MockupGenerator.Place | handoff/mockup_generator.py:63-78 | the paste corner is non-negative, the sides are in 1..4000, the rotation is the box's, and the pasted image stays on the canvas whenever it fits (else it sits at 0) |
| MockupGenerator.UnrotatedIsFirstClamp | handoff/mockup_generator.py:68-78 | an unrotated box is pasted at its first clamp, at its own size |
| MockupGenerator.Box4IsFirstClamp | handoff/mockup_generator.py:63-73 | a four-field box is never rotated |
| MockupGenerator.InBoundsBoxUnchanged | handoff/mockup_generator.py:68-78 | an unrotated box already on the canvas is pasted exactly as given |
| MockupGenerator.PlacementsAt | handoff/mockup_generator.py:62-78 | the `i`-th paste is the placement of the `i`-th box |
| MockupGenerator.DesignLayer.Paste | handoff/mockup_generator.py:78 | a paste is added on top of the earlier ones |
| MockupGenerator.Stack | handoff/mockup_generator.py:87-95 | the background at the bottom and the design layer once; an overlay only when given, and under the design exactly when the position is "UNDER" |
| MockupGenerator.PositionIrrelevantWithoutOverlay | handoff/mockup_generator.py:87-95 | without an overlay the position flag changes nothing |
| MockupGenerator.StackImagesSized | handoff/mockup_generator.py:57-94 | every image layer of the stack is 4000 x 4000 |
| MockupGenerator.RenderMockup | handoff/mockup_generator.py:47-99 | the layers are the resized background, one design layer holding the placements of the chosen boxes in order and cut by the resized mask if any, and the overlay placed as `Stack` says |
| MockupGenerator.MockupFilename | handoff/mockup_generator.py:134-135 | ends in ".png"; a label is kept as the name's stem |
| MockupGenerator.UnlabelledFilenamesDistinct | handoff/mockup_generator.py:134-135 | unlabelled templates of different order get different names |
| MockupGenerator.LabelledFilenamesDistinct | handoff/mockup_generator.py:134-135 | templates with different labels get different names |
| FixDriveIds.NormalisedColumn | handoff/management/commands/fix_drive_ids.py:12-47 | each row of a column after the pass is the normalised id of its old value, empty values untouched |
| FixDriveIds.ChangedRows | handoff/management/commands/fix_drive_ids.py:12-47 | the rows that differ, in increasing order |
| FixDriveIds.ChangedRowsComplete | handoff/management/commands/fix_drive_ids.py:12-47 | every row that differs is listed |
| FixDriveIds.NoChangedRows | handoff/management/commands/fix_drive_ids.py:12-47 | a column unchanged has no changed rows |
| FixDriveIds.SecondPassSavesNothing | handoff/management/commands/fix_drive_ids.py:9-49 | the pass is idempotent: run again it changes and saves nothing |
| FixDriveIds.FixColumn | handoff/management/commands/fix_drive_ids.py:12-17 | the loop normalises the column in place and saves exactly the rows that changed |
| FixDriveIds.FixRow | handoff/management/commands/fix_drive_ids.py:13-17 | a non-empty id whose extracted id differs is rewritten, and reported as saved exactly then |
| FixDriveIds.NormalisedStep | handoff/management/commands/fix_drive_ids.py:12-17 | each row the loop visits extends the normalised prefix by that row's `extract_drive_id` |
| FixDriveIds.ChangedStep | handoff/management/commands/fix_drive_ids.py:12-17 | each row the loop visits extends the saved list by that row exactly when its value changed |
| FixDriveIds.Message | handoff/management/commands/fix_drive_ids.py:49 | the report reads "Updated N record(s)." |
| FixDriveIds.Handle | handoff/management/commands/fix_drive_ids.py:9-49 | all five columns are normalised; the count is the total number of saves, one per changed value |
| Manage.Requirements | manage.py:16-20 | only stripped, non-empty lines not starting with `#` are kept, at most one per line |
| Manage.RequirementKept | manage.py:16-20 | every such line is kept |
| Manage.RequirementsOfClean | manage.py:16-20 | a file of requirement lines only is read back whole |
| Manage.RequirementsRoundTrip | manage.py:12-21 | requirements written one per line are read back as written |
| Manage.ParseRequirements | manage.py:12-21 | no file gives no requirements; otherwise the loop keeps the requirement lines |
| Manage.BeforeOperator | manage.py:27 | the longest prefix without `<`, `=`, `>`, `!` or `~` |
| Manage.DistributionName | manage.py:24-27 | with an `@`, the stripped text before the first `@`; otherwise the stripped text before the first operator character (`<`, `=`, `>`, `!`, `~`), or the whole stripped text without one |
| Manage.DistributionNameOfSpecifier | manage.py:24-27 | `name` followed by an operator and a version gives `name` |
| Manage.DistributionNameOfReference | manage.py:25-26 | `name @ url` gives `name` for a stripped name without `@` |
| Manage.AltName | manage.py:41-44 | dashes become underscores when there is a dash, otherwise underscores become dashes; other characters stay |
| Manage.AltNameInverse | manage.py:41-44 | for a name that does not mix both, the alternative name of the alternative name is the name |
| Manage.IndexOfPin | manage.py:49-50 | the first `==` in the requirement, present exactly when it contains `==` |
| Manage.PinnedVersion | manage.py:49-50 | present exactly when the requirement contains `==`; then the stripped text after the first `==` |
| Manage.PinnedVersionOf | manage.py:49-50 | `name==v` pins the stripped `v` |
| Manage.InstalledVersion | manage.py:38-48 | the version under the name, or else under the alternative name |
| Manage.IsInstalled | manage.py:30-52 | false without `importlib.metadata`; true for an empty name; otherwise installed under either name and, when pinned, at exactly that version |
| Manage.PinnedRequirement | manage.py:49-51 | a pinned requirement is installed exactly when the installed version equals the pin |
| Manage.Missing | manage.py:62 | exactly the requirements not installed |
| Manage.EnsureRequirements | manage.py:55-67 | `DAD_SKIP_PIP` of 1/true/yes skips and only it does; pip runs only for a file with missing requirements, which are reported; otherwise nothing is missing |
| Manage.NoMetadataAllMissing | manage.py:31-34 | without `importlib.metadata` every requirement is missing |
| Ai.FirstOutputText | handoff/ai.py:29-31 | the first part whose type is `output_text` and whose text is truthy, with none before it; `None` exactly when no part qualifies |
| Ai.ExtractOutputText | handoff/ai.py:25-35 | the first qualifying part's text in output order, else the truthy top-level `output_text`, else "" |
| Ai.NestedScanIsFlatScan | handoff/ai.py:27-31 | the loop over outputs and then their parts finds the same part as one scan over all parts concatenated |
| Ai.FirstTextAppend | handoff/ai.py:27-31 | the first match in `a + b` is the first match of `a`, or failing that of `b` |
| Ai.FallbackOnlyWithoutParts | handoff/ai.py:32-35 | with no qualifying part anywhere, the result is the top-level `output_text` or "" |
| Ai.BracketSpan | handoff/ai.py:50 | the greedy match runs from the first `[` to the last `]`; there is none exactly when there is no `[` or no `]` after it |
| Ai.BracketSpanOfWrapped | handoff/ai.py:50 | a bracketed block in prose with no `[` before it and no `]` after it is the span found |
| Ai.ParseJsonArray | handoff/ai.py:38-56 | empty after strip raises "Empty model response." and only then; a JSON list is returned as its stripped non-empty strings; with no list and no bracket span "Model did not return a JSON array."; the last two errors come only from a bracket span |
| Ai.ErrorMessage | handoff/ai.py:41-55 | an empty reply gives "Empty model response.", a reply without a bracketed block "Model did not return a JSON array." and a non-list block "Model JSON was not a list.", each exactly for its error |
| Ai.ParseWrappedList | handoff/ai.py:49-56 | a list wrapped in prose gives that list's clean items |

## Left out

- Pixel work in `render_mockup` (resizing, rotation by a float angle, alpha pasting and compositing, PNG encoding) and SVG rasterisation: an image is its origin and size, and the caller supplies a rotated design's size.
- Google Drive and OAuth calls (listing, copying, moving, uploading, metadata) are function parameters or recorded calls, and always succeed unless a parameter says otherwise. `_list_files` pagination is not modelled: the listing is one given sequence.
- The OpenAI HTTP request, `json.loads`, `float()` and `importlib.metadata.version` are abstract partial functions passed in. The pip subprocess in `manage.py` is a returned list of requirements to install.
- The worker thread, the lock and `close_old_connections` of the mockup job table: the run is sequential, and one timestamp is used for a whole job update.
- Django rendering, messages, redirects, permissions and ORM query mechanics: querysets are sequences, and `update_or_create` is an upsert on a sequence.
- Floating-point rounding: a posted float is a real number or a non-finite value, and `int()` truncates it toward zero. Box geometry is integers.
- Python's date year limits (1..9999) and the leniency of `strptime` beyond the formats the code uses.
- The admin calendar's week grid layout. The model covers only the month parameter, the navigation and the entries per day.
- Admin.ApplyToday: does not model the design attachment that `apply_today` adds when the latest one differs, or the call to `maybe_autogenerate_mockups` (handoff/admin.py:693-705).
- The primary key of the scheduled design returned in the schedule form's AJAX response.
- `MultipleObjectsReturned` when two mockup slots share an order: the first one is taken.
- Exceptions inside `handoff_context` (the store query, the runway and guide lookups) are not modelled: each step succeeds.
- Models.Task.RefreshStatus: follows the code, which ignores `manual_done`; the tests in handoff/tests.py:58-65 expect `manual_done` to force DONE. `ensure_publications`, `mark_listed_if_needed` and `listed_at` are not part of this model, because their bodies are not available.
- `preview_mockup_for_template` and the preview views, which render one mockup for display only.
- `_store_query_suffix`, which builds a `?store=` query string for redirects.
- `random.choice` in `ensure_emergency_design` is a nondeterministic choice among the candidates. Its default date, today, is a parameter.
- The lookup of the Drive root folder (the settings row or the environment) is a parameter.
- Ai.ErrorMessage: the message text of a JSON decoding error is the decoder's own; the model gives invalid JSON a single error value with a fixed stand-in message.
- Views.PostedInt: a posted placement integer is accepted from 0 upwards with no upper limit; the upper end of a PositiveIntegerField column (handoff/models.py:254-257) is set by the database backend, so a value beyond it, which makes the save raise, is not modelled.
- Views.ParsePart: a box field is accepted from 0 upwards with no upper limit; the backend-dependent upper end of the PositiveIntegerField columns x, y, width and height (handoff/models.py:285-288), past which `MockupDesignBox.objects.create` raises, is not modelled.
- Views.ParsePart: a non-finite rotation (a fifth field that `float()` reads as NaN or infinity) is stored as given; whether the database accepts it is not modelled.
- Percent-decoding of query strings: the redirect's query is read back as raw text, which is exact for the date, task and store values the redirect writes when the date has no `&`.
- FixDriveIds.Handle: each of the five table columns is an array of id values, not a set of model rows; the effect of `save()` on other fields is not modelled.
- ASCII only for `lower()`/`upper()`; `\d` matches ASCII digits; `str.isspace` is the full Python whitespace set.
