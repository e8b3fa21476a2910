# Studyflow: the study-plan generator and the components' list, tree and set rules

Studyflow is a study-recovery web application. A student enters the subjects
they fell behind in, with the number of classes missed in each, how many hours
a day they can study and on which weekdays. The local generator
(`generateStudyPlanLocal`) turns this into a plan:

- the total number of missed classes;
- an estimate of the weeks needed;
- for each selected weekday, up to three sessions of equal length for the
  most-behind subjects, each with a priority label, a study technique and a
  tip taken in rotation from fixed catalogues;
- up to four weekly milestones, six general tips and a motivational quote.

Around it, the React components keep small pieces of state, and the same
rules are modelled for each:

- the planner form: subject rows, the study-day toggle, and the guard that
  refuses to generate without a named subject;
- the course page: the course-unit tree built from flat rows, the kanban
  "organise" view (drag a unit onto a column, save the order), the
  expand/collapse and completion toggles, and a unit's link list;
- the course editor: its unit form and the record it saves;
- the useful-links page: grouping by category, the category list, edit, save
  and delete;
- the dashboard: the checklist of study-plan items, its progress percentage
  and status label, and resetting the plan.

The Dafny modules follow the source file by file:

- `PlanCalculator` (`services/planCalculator.ts`) has the generator as a method
  with the source's loops. Its day loop is `FillDay`, its week loop
  `BuildWeeklySchedule`, and both are proved against the specification
  functions `DayTopics`, `ExpectedSchedule` and `ExpectedPlan`. The lemmas
  about those functions state what a plan looks like.
- `PlannerPage` (`components/PlannerPage.tsx`) covers the row and day updates
  and the generate buttons.
- `CourseUnits` holds `buildTree` and `toggleExpand`. `CoursePage.tsx` and
  `CourseEditor.tsx` carry identical copies of both, so they are modelled
  once. `BuildTree` is a method with the source's two passes over the rows.
- `CoursePage` (`components/CoursePage.tsx`) covers the drop handler, the
  save-order loop (`HandleSaveOrder`, a method with the nested loops), the
  completion toggle and the link list.
- `CourseEditor` (`components/CourseEditor.tsx`) covers the unit form and
  `handleSave`.
- `LinksPage` (`components/LinksPage.tsx`) covers the links page, with the
  group-by `reduce` as a method.
- `DashboardPage` (`components/DashboardPage.tsx`) covers the dashboard.
- `Text` holds ECMAScript `String.prototype.trim`, which strips the
  WhiteSpace and LineTerminator code points of ECMA-262, and the decimal rendering of numbers in
  template literals, with a parser that undoes it.
- `Wrappers` holds `Option`.

The generator's catalogues (techniques, tips, general tips, quotes) are a
`Catalogue` parameter. `PlanCalculator.SourceCatalogue` holds the source's
tables verbatim, and `SourceCatalogueIsValid` shows that they meet the
generator's requirements. The hours-per-day slider runs from 0.5 to 12 in
steps of 0.5, so the model takes the daily budget in whole minutes
(`minutesPerDay`, a multiple of 30, at least 30).

## Model

| member | source | states |
|---|---|---|
| PlanCalculator.DurationRoundTrip | services/planCalculator.ts:138-143 | formatDuration's text is read back by ParseDuration to the same number of minutes: `"{m}min"` below an hour, `"{h}h"` on whole hours, `"{h}h {r}min"` otherwise, with 60h + r the minutes |
| PlanCalculator.ParseHoursAndMinutes | services/planCalculator.ts:142 | a text `"{h}h {m}min"` stands for 60h + m minutes |
| PlanCalculator.PriorityThresholds | services/planCalculator.ts:145-150 | getPriority gives Alta exactly when 10·left > 6·max, Média exactly when 3·max < 10·left ≤ 6·max, and Baixa otherwise; the boundaries fall to the lower bucket |
| PlanCalculator.PriorityMonotone | services/planCalculator.ts:145-150 | for a fixed maximum, more classes left never gives a less urgent priority |
| PlanCalculator.ValidSubjects | services/planCalculator.ts:157 | the kept subjects are exactly those whose trimmed name is non-empty |
| PlanCalculator.ValidSubjectsAppend | services/planCalculator.ts:157 | the filter keeps the named rows in their order and with their repetitions: filtering `a + b` gives the kept rows of `a` followed by those of `b` |
| PlanCalculator.ValidSubjectsSingle | services/planCalculator.ts:157 | a single row is kept exactly when its trimmed name is non-empty |
| PlanCalculator.ValidSubjectsIdempotent | services/planCalculator.ts:157 | filtering an already filtered list changes nothing |
| PlanCalculator.SumMissedAppend | services/planCalculator.ts:158 | the missed-class total of two lists is the sum of their totals |
| PlanCalculator.MaxClasses | services/planCalculator.ts:160 | `maxClasses` is at least 1, bounds every subject's count and is 1 or some subject's count |
| PlanCalculator.InsertDesc | services/planCalculator.ts:163 | inserting into a list sorted by missed classes, descending, keeps it sorted and adds exactly that subject |
| PlanCalculator.SortByMissedDesc | services/planCalculator.ts:163 | the sorted subjects are in descending order of missed classes and a permutation of the input |
| PlanCalculator.SortIsStable | services/planCalculator.ts:163 | the sort is stable: subjects with equal counts keep their input order |
| PlanCalculator.CeilDiv | services/planCalculator.ts:168-169 | `Math.ceil(a / b)` is the q with (q-1)·b < a ≤ q·b |
| PlanCalculator.EstimateIsFewestWeeks | services/planCalculator.ts:166-169 | with study days selected, `estimatedWeeks` is at least 1 and is the fewest weeks whose study minutes cover 45 minutes per missed class |
| PlanCalculator.EstimateWithoutStudyDays | services/planCalculator.ts:169 | with no study day the estimate divides by zero: Infinity when classes are missed, NaN when the days needed come to 0 (0/0), and 1 when a negative total makes them negative |
| PlanCalculator.FirstUnfilledSlot | services/planCalculator.ts:186 | the loop's exit index lies between its start and the number of slots |
| PlanCalculator.FirstUnfilledSlotStops | services/planCalculator.ts:186 | every session started had at least 30 minutes left, and the loop stops early only when fewer than 30 remain |
| PlanCalculator.TopicCountIsStopRule | services/planCalculator.ts:183-186 | a day's topic count is the number of the min(n, 3) slots reached while 30 minutes or more remain |
| PlanCalculator.TopicCountBounds | services/planCalculator.ts:183-186 | a day has no topic exactly when there is no subject, and never more than min(n, 3) |
| PlanCalculator.SessionsFitBudget | services/planCalculator.ts:184-204 | a day's sessions together last at most the daily budget |
| PlanCalculator.TopicMinutesOfEqualDurations | services/planCalculator.ts:189-197 | topics that all carry the same duration text, reading d minutes, take the number of topics times d minutes |
| PlanCalculator.ScheduledDayFitsBudget | services/planCalculator.ts:180-204 | every day of the emitted schedule fits the daily budget: the minutes read back from its topics' duration texts add up to at most `minutesPerDay` |
| PlanCalculator.FullDays | services/planCalculator.ts:183-186 | with 90 minutes or more a day, every day has min(n, 3) topics |
| PlanCalculator.HalfHourDay | services/planCalculator.ts:184-186 | with 30 minutes a day and 3 or more subjects, a day has one 10-minute topic |
| PlanCalculator.SlotFits | services/planCalculator.ts:184-189 | the first i+1 sessions of floor(budget / slots) minutes fit in the budget |
| PlanCalculator.SlotIsFull | services/planCalculator.ts:189-204 | each session reached lasts the full floor(budget / slots), and the remaining minutes drop by that much |
| PlanCalculator.TopicCountBelowSubjects | services/planCalculator.ts:183 | the topics of a day never outnumber the subjects |
| PlanCalculator.SlotTopicIsMakeTopic | services/planCalculator.ts:187-201 | the block pushed for slot i is the topic of subject i with technique and tip number base + i |
| PlanCalculator.TopicsUpToNext | services/planCalculator.ts:186-205 | one more turn of the inner loop appends exactly that slot's topic |
| PlanCalculator.FillDay | services/planCalculator.ts:179-205 | the day loop produces DayTopics for the counters it starts from, and advances both counters by the number of topics, not resetting them |
| PlanCalculator.DayTopicsContent | services/planCalculator.ts:183-203 | topic i of a day names sorted subject i with its priority, a session of floor(budget / min(n,3)) minutes, the tip number base + i modulo the tips and the technique number base + i modulo the techniques |
| PlanCalculator.StudyDaysBelow | services/planCalculator.ts:176-177 | the selected day indices below d are all below d |
| PlanCalculator.StudyDaysBelowNext | services/planCalculator.ts:176-177 | one more turn of the day loop adds day d exactly when it is selected |
| PlanCalculator.StudyDaysBelowSpec | services/planCalculator.ts:176-177 | the days visited are in increasing index order, each once, and are exactly the selected indices in 0..6 |
| PlanCalculator.ScheduleForSnoc | services/planCalculator.ts:207-212 | a day with topics adds one entry named after it, whose topics continue the counters |
| PlanCalculator.BuildWeeklySchedule | services/planCalculator.ts:172-213 | the week loop produces the expected schedule |
| PlanCalculator.ScheduleShape | services/planCalculator.ts:176-212 | with no subject the schedule is empty (days without topics are left out); otherwise it has one entry per selected day, in index order, named `dayNames[d]`, whose topics start from counter p·t |
| PlanCalculator.ScheduleTopics | services/planCalculator.ts:173-203 | topic i of the p-th scheduled day names sorted subject i and gets technique and tip number p·t + i in rotation, so every day has the same subject sequence and the counters run across the whole week |
| PlanCalculator.MilestoneLines | services/planCalculator.ts:216-218 | entry i is the milestone text for week w + i and subject i |
| PlanCalculator.Milestones | services/planCalculator.ts:216-218 | there are min(4, n) milestones, entry i reading `"Semana {i+1}: …"` for sorted subject i |
| PlanCalculator.GenerateStudyPlanLocal | services/planCalculator.ts:152-235 | the generator returns the expected plan: total missed classes of the named subjects, their count, the number of study days, the schedule, quote number quoteIndex, the first six general tips and the milestones |
| PlanCalculator.SourceCatalogueIsValid | services/planCalculator.ts:31-136 | the source's tables have techniques and tips to rotate through and at least six general tips |
| PlanCalculator.QuoteCount | services/planCalculator.ts:110-136 | there are 25 motivational quotes |
| PlannerPage.Without | components/PlannerPage.tsx:49 | `prev.filter(d => d !== dayIndex)` keeps exactly the other days |
| PlannerPage.WithoutAppend | components/PlannerPage.tsx:49 | removal keeps the other days in their order: removing from `a + b` gives what remains of `a` followed by what remains of `b` |
| PlannerPage.WithoutSingle | components/PlannerPage.tsx:49 | a single day stays exactly when it is not the removed one |
| PlannerPage.ToggleStudyDaySpec | components/PlannerPage.tsx:47-51 | toggleStudyDay flips the given day only and never introduces a duplicate |
| PlannerPage.ToggleTwice | components/PlannerPage.tsx:47-51 | toggling an absent day twice restores the list; toggling any day twice restores the set of days |
| PlannerPage.WithoutKeepsNoDuplicates | components/PlannerPage.tsx:49 | removing a day keeps a duplicate-free list duplicate-free |
| PlannerPage.HandleSubjectChange | components/PlannerPage.tsx:35-37 | only the named field of the rows with that id changes; every other row and field is kept |
| PlannerPage.AddSubject | components/PlannerPage.tsx:39-41 | a row with an empty name and 0 missed classes is appended |
| PlannerPage.AddSubjectIsIgnored | components/PlannerPage.tsx:23-41 | the new blank row changes neither the named subjects nor the displayed total |
| PlannerPage.RemoveSubject | components/PlannerPage.tsx:43-45 | exactly the rows with that id are dropped |
| PlannerPage.RemoveSubjectAppend | components/PlannerPage.tsx:43-45 | removal keeps the other rows in their order: removing from `a + b` gives what remains of `a` followed by what remains of `b` |
| PlannerPage.RemoveSubjectSingle | components/PlannerPage.tsx:43-45 | a single row stays exactly when it has another id |
| PlannerPage.RemoveClickKeepsARow | components/PlannerPage.tsx:190-193 | with the button disabled for a single row, removing never empties the list |
| PlannerPage.ClicksKeepCountsNatural | components/PlannerPage.tsx:160-183 | the minus button lowers a positive count by exactly 1 and leaves a zero or negative count unchanged, so a non-negative count stays non-negative; the plus button adds exactly 1 |
| PlannerPage.IncrementThenDecrement | components/PlannerPage.tsx:160-183 | plus then minus gives back the rows |
| PlannerPage.TotalSplits | components/PlannerPage.tsx:23-25 | the displayed total is the generator's total over named subjects plus the classes of blank-named rows |
| PlannerPage.PlanOfNamedSubjects | components/PlannerPage.tsx:55-89 | generating from the filtered subjects gives the same plan as from all rows |
| PlannerPage.GenerateNeedsANamedSubject | components/PlannerPage.tsx:55-100 | both buttons alert exactly when no row has a non-blank name; a signed-in user's named subjects are saved, a guest gets the generated plan with at least one subject |
| CourseUnits.BuildTree | components/CoursePage.tsx:88-101 | the two passes fill the node map (the last row of an id wins) and push each row's id onto its parent's children when `parent_id` names a node, onto the roots otherwise |
| CourseUnits.NodesKeys | components/CoursePage.tsx:91 | the map has a node for exactly the ids of the rows |
| CourseUnits.NodeIsLastRow | components/CoursePage.tsx:91 | of several rows with the same id, the last one supplies the node |
| CourseUnits.NodeOfUniqueRow | components/CoursePage.tsx:91 | with unique ids each row is its own node |
| CourseUnits.PlacedMembers | components/CourseEditor.tsx:72-79 | a list holds exactly the ids of the rows the second pass sends to it |
| CourseUnits.PlacedInInputOrder | components/CoursePage.tsx:92-99 | with unique ids, the roots and each children list keep the input order |
| CourseUnits.PlacedHasNoDuplicates | components/CourseEditor.tsx:72-79 | with unique ids no list of the forest repeats an id |
| CourseUnits.EachRowPlacedOnce | components/CoursePage.tsx:94-98 | with unique ids, a row is a root exactly when its `parent_id` is null, empty or unknown, and otherwise is in its parent's children and in no other list |
| CourseUnits.ForestHoldsOnlyRows | components/CourseEditor.tsx:64-82 | every id in the forest is the id of an input row |
| CourseUnits.ToggleExpand | components/CourseEditor.tsx:84-94 | toggleExpand flips membership of the given id only |
| CourseUnits.ToggleExpandTwice | components/CoursePage.tsx:288-295 | two toggles of the same id are the identity |
| CoursePage.FindIndex | components/CoursePage.tsx:1083-1097 | `findIndex`/`find` by id return the first node carrying the id, or nothing when none does |
| CoursePage.RemoveItemSpec | components/CoursePage.tsx:1082-1092 | removeItem fails exactly when the id is nowhere in the forest; otherwise it takes out a node with that id, and the forest's ids are the remaining ids with the moved subtree put back in one place |
| CoursePage.RemoveBelowSpec | components/CoursePage.tsx:1088-1091 | the same for the search below a level that does not hold the id itself |
| CoursePage.DropWithoutItem | components/CoursePage.tsx:1071-1094 | with no dragged id, or an id not in the view, the drop changes nothing |
| CoursePage.DropMovesUnderTarget | components/CoursePage.tsx:1077-1103 | when the dragged unit is found: without a target column nothing changes; otherwise the target column gains the unit, its `parent_id` set to the target, as its last child, every other column is as removeItem left it, and the ids before and after are the same remaining ids with the moved subtree in one place |
| CoursePage.DropKeepsUnits | components/CoursePage.tsx:1077-1103 | a drop never loses or duplicates a unit |
| CoursePage.AppendChildIds | components/CoursePage.tsx:1099-1101 | pushing a child onto a column inserts the child's subtree ids in one place |
| CoursePage.HandleSaveOrder | components/CoursePage.tsx:254-275 | the nested loops produce the update records of the columns in order |
| CoursePage.OrderUpdatesLength | components/CoursePage.tsx:254-275 | there is one record per column and one per direct child |
| CoursePage.SaveOrderRecords | components/CoursePage.tsx:257-273 | column c's record `{id, order_index: c}` comes first, followed by `{child id, order_index: j, parent_id: column id}` for each child j |
| CoursePage.SaveOrderCoversTwoLevels | components/CoursePage.tsx:254-275 | when no child has children, the records name every unit of the view, in pre-order; grandchildren get no record |
| CoursePage.MarkCompletion | components/CoursePage.tsx:304-309 | marking sets the id's membership to the new status and keeps every other id |
| CoursePage.OptimisticCompletionFlips | components/CoursePage.tsx:300-309 | the optimistic update flips the unit's membership, as toggleExpand does |
| CoursePage.RevertRestores | components/CoursePage.tsx:316-321 | the error-path revert gives back the set as it was before the click |
| CoursePage.AddLink | components/CoursePage.tsx:208-213 | no update when the title or the url is empty; otherwise the links (none counting as empty) with the new link appended |
| CoursePage.HandleAddLink | components/CoursePage.tsx:208-224 | with an empty field or a failed `updateUnitLinks` nothing changes; once the longer list is stored the unit shows its links with the new one last, the new-link form is emptied and the modal closes |
| CoursePage.DeleteLinkRemovesIndex | components/CoursePage.tsx:226-230 | exactly the link at the index is removed, and an index outside the list removes nothing |
| CoursePage.HandleDeleteLink | components/CoursePage.tsx:226-238 | a cancelled confirmation or a failed `updateUnitLinks` changes nothing; otherwise only the unit's links change, to the list without that index |
| CoursePage.AddThenDeleteRestores | components/CoursePage.tsx:208-238 | adding a link and then deleting the last one gives back the links the unit had |
| CourseEditor.OrEmpty | components/CourseEditor.tsx:112-116 | a nullable text shown in the form: the text itself, or the empty string for null |
| CourseEditor.EmptyToNull | components/CourseEditor.tsx:130-134 | a form text as stored: null exactly for the empty string, the text otherwise |
| CourseEditor.OpenAddForm | components/CourseEditor.tsx:96-106 | the form opens under the given parent with nothing being edited, every text empty and type `'unit'` |
| CourseEditor.OpenEditForm | components/CourseEditor.tsx:108-118 | the form opens on the unit's own values, null shown as `''` |
| CourseEditor.SaveNeedsATitle | components/CourseEditor.tsx:122 | a request is sent exactly when the title has a non-whitespace character; otherwise nothing changes |
| CourseEditor.SavedData | components/CourseEditor.tsx:120-158 | the request updates the edited unit or inserts; the record has the form's parent, the number of root units as order index, a trimmed title, trimmed description and instructor fields that are null when empty, the duration or null, and the form closes |
| CourseEditor.CleanOrNullRoundTrip | components/CourseEditor.tsx:112-134 | a null-or-trimmed text shown in the form and saved again is unchanged |
| CourseEditor.EditAndSaveUnchanged | components/CourseEditor.tsx:108-141 | opening a stored unit already in this form and saving it unchanged writes back exactly its own values, apart from the order index |
| Text.TrimIsPiece | components/CourseEditor.tsx:129 | `trim` returns a piece of the text with only whitespace cut before and after it |
| Text.TrimIdempotent | components/CourseEditor.tsx:129-134 | trimming twice is trimming once |
| Text.TrimEmptyIffBlank | services/planCalculator.ts:157 | `s.trim() !== ''` exactly when some character is not whitespace |
| Text.DigitsValueOfNatToString | services/planCalculator.ts:139 | the decimal digits of a number read back to that number |
| LinksPage.LinksByCategory | components/LinksPage.tsx:158-162 | the reduce into `{}` as written, which throws when a category is a name every object inherits |
| LinksPage.PlainObjectGroupsSpec | components/LinksPage.tsx:158-162 | the reduce as written fails exactly when some link's category is new and an Object.prototype name; otherwise it gives the intended grouping |
| LinksPage.ConstructorCategoryThrows | components/LinksPage.tsx:159-160 | a single link in category `"constructor"` makes the reduce throw |
| LinksPage.PlainObjectFailureStays | components/LinksPage.tsx:158-162 | once the reduce has thrown, no later link recovers it |
| LinksPage.GroupByCategory | components/LinksPage.tsx:158-162 | the corrected grouping loop produces Groups |
| LinksPage.CategoriesOfGroups | components/LinksPage.tsx:158-162 | there is a group for exactly the categories that occur |
| LinksPage.GroupsAreCategoryFilters | components/LinksPage.tsx:158-162 | each group is the links of its category, in input order, so every link is in exactly the group of its own category |
| LinksPage.InCategory | components/LinksPage.tsx:158-162 | the filter keeps exactly the links of the category |
| LinksPage.InCategoryAppend | components/LinksPage.tsx:158-162 | the category filter keeps its links in their order and with their repetitions: the links of `a + b` in the category are those of `a` followed by those of `b` |
| LinksPage.InCategorySingle | components/LinksPage.tsx:158-162 | a single link stays exactly when it is in the category |
| LinksPage.CategoriesUpTo | components/LinksPage.tsx:165 | the category list holds each occurring category exactly once |
| LinksPage.CategoriesAreGroupKeys | components/LinksPage.tsx:158-165 | the categories offered are exactly the group keys |
| LinksPage.EditLink | components/LinksPage.tsx:58-69 | editing loads the link's fields, a null author as `''`, and records its id |
| LinksPage.CancelEdit | components/LinksPage.tsx:71-81 | cancel empties the form (icon `'link'`) and clears the edited id |
| LinksPage.Payload | components/LinksPage.tsx:88-95 | the payload copies the form, an empty author becoming null |
| LinksPage.EditThenPayload | components/LinksPage.tsx:58-95 | editing a link and saving it unchanged sends the link's own fields |
| LinksPage.ReplaceById | components/LinksPage.tsx:109 | the rows with the edited id become the returned row, all others stay |
| LinksPage.ReplaceOneLink | components/LinksPage.tsx:109 | with unique ids the update replaces exactly one position |
| LinksPage.SaveLinkSpec | components/LinksPage.tsx:83-137 | saving is refused when title, url or category is empty, and a failed request changes nothing; otherwise the form resets, an update replaces the edited id's rows, a create appends the returned row |
| LinksPage.RemoveById | components/LinksPage.tsx:149 | exactly the links with that id are dropped |
| LinksPage.RemoveByIdAppend | components/LinksPage.tsx:149 | removal keeps the other links in their order: removing from `a + b` gives what remains of `a` followed by what remains of `b` |
| LinksPage.RemoveByIdSingle | components/LinksPage.tsx:149 | a single link stays exactly when it has another id |
| LinksPage.RemoveAbsentId | components/LinksPage.tsx:149 | deleting an absent id changes nothing |
| LinksPage.RemoveByIdIdempotent | components/LinksPage.tsx:149 | deleting the same id twice is deleting it once |
| LinksPage.DeleteLink | components/LinksPage.tsx:139-155 | after a delete the id's links are gone, and the form resets exactly when that link was being edited; a failed delete changes nothing |
| DashboardPage.ToggleTask | components/DashboardPage.tsx:34-43 | only the items with the id change: `is_completed` becomes `!currentStatus` and status is `completed` exactly when it is true; a failed request changes nothing |
| DashboardPage.CompletedCount | components/DashboardPage.tsx:73 | the completed count never exceeds the number of items |
| DashboardPage.CompletedCountUpdate | components/DashboardPage.tsx:73 | replacing one item moves the count by that item's change |
| DashboardPage.ToggleMovesCountByOne | components/DashboardPage.tsx:34-73 | ticking an item's box, with ids unique, moves the completed count by exactly one |
| DashboardPage.Remaining | components/DashboardPage.tsx:117 | the remaining figure plus the completed count is the number of items, so it is never negative |
| DashboardPage.RoundedPercent | components/DashboardPage.tsx:70 | `Math.round(c / t * 100)` lies in [0, 100] |
| DashboardPage.RoundsToHundred | components/DashboardPage.tsx:70 | the rounded share is 100 exactly when at most one item in 200 is open |
| DashboardPage.RoundsToZero | components/DashboardPage.tsx:70 | the rounded share is 0 exactly when fewer than one item in 200 is done |
| DashboardPage.ProgressExtremes | components/DashboardPage.tsx:69-74 | the progress lies in [0, 100]; it is 100 for a complete plan and 0 for one with nothing done |
| DashboardPage.StatusOfPlan | components/DashboardPage.tsx:122 | the label reads 'Finalizado' exactly for progress 100, 'Não iniciado' for an empty plan or progress 0, and 'Em progresso' in between |
| DashboardPage.ResetPlan | components/DashboardPage.tsx:216-221 | a reset the server accepted empties the checklist, so the progress is 0 |

## Left out

- services/pdfService.ts, services/geminiService.ts, services/dataService.ts and services/supabaseClient.ts are not part of this model. They are PDF layout, an LLM call and database I/O. Every server call is reduced to its outcome, which is a parameter: `stored`, `deleted`, a `Reply`, or whether the request is sent at all.
- Everything asynchronous is left out: effects, `setTimeout`, loading and saving flags, `alert`, `confirm`, `console`, `window.scrollTo`, and re-fetching after a save. When a `confirm` is declined, nothing happens.
- The user and session guards (`if (!user) return`, `if (!selectedUnit || !user)`) are left out; each model starts after them.
- The random choice of the motivational quote is an index parameter, `quoteIndex`.
- The catalogue tables are a `Catalogue` parameter, and `SourceCatalogue` is the source's own tables. This keeps the long string tables out of every proof.
- PlanCalculator.GenerateStudyPlanLocal: `hoursPerDay` is a float. The model takes whole minutes, a multiple of 30 and at least 30, as the slider produces them. The summary's `hoursPerDay` is `minutesPerDay / 60` as a real.
- PlanCalculator.GetPriority: the source divides two floats. The model compares the exact ratio with 0.6 and 0.3. The two agree unless a count is larger than about 10^14.
- PlanCalculator.EstimateWithoutStudyDays: JavaScript's Infinity and NaN are modelled only as the two values `estimatedWeeks` can take; nothing else about float arithmetic is modelled.
- `Number(x) || 0` and `parseInt(...) || 0` on the missed-classes input are not modelled. The model's counts are integers, so NaN cannot arise. Negative counts are kept.
- `Subject.priority` and the other database fields that no modelled rule reads are left out.
- CoursePage.Drop works on tree values. The source splices the children arrays in place, and those arrays are shared with the state it copied. So a drop that removes a nested item and then finds no target column has already changed the shown tree in the source, while the model returns the view unchanged. The model also does not capture aliasing between nodes.
- CoursePage.handleDragStart and `draggingItem` being set or cleared are not modelled. The dragged id is a parameter.
- CoursePage `progressPercentage` (components/CoursePage.tsx:579) is left out: it is the same expression as the dashboard's progress.
- CourseUnits.BuildTree: acyclicity of the parent relation is not modelled. Nodes are identified by id, so a unit that is its own parent lands in its own children list, and cycles make some rows unreachable from the roots. The lemmas state where each row is pushed, not which nodes are reachable.
- `Object.entries` render order of the link groups is not modelled. The model's groups are a map.
- Concurrent clicks are not modelled: React's functional `setState` updaters are taken one at a time.
- LinksPage.SaveLink: the row the server returns is a parameter, and so is whether the request failed.
- DashboardPage.RoundedPercent: the source computes `c / t * 100` in floating point before rounding. The model rounds the exact ratio, which can differ by one on inputs such as 29 of 200 (exactly 14.5, rounded to 15, while the float product is slightly below 14.5 and rounds to 14).

## Findings

| source | as written | input that shows it | evidently intended | confidence | as-written member | corrected member |
|---|---|---|---|---|---|---|
| components/LinksPage.tsx:158-162 | the links are grouped into a plain object `{}`; `!acc[link.category]` is false for any name every object inherits (`constructor`, `toString`, `__proto__`, …), so no array is created and `acc[link.category].push(link)` throws a TypeError while the page renders | one link whose category is `"constructor"` | each category, whatever its text, gets its own array of links in input order (a `Map` or `Object.create(null)` accumulator) | not executed | LinksPage.LinksByCategory, LinksPage.PlainObjectGroupsSpec, LinksPage.ConstructorCategoryThrows | LinksPage.GroupByCategory, LinksPage.GroupsAreCategoryFilters, LinksPage.CategoriesOfGroups |
