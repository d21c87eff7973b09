# ScheduleBuilder, modelled in Dafny

ScheduleBuilder is a desktop timetable planner. A user keeps a collection of
courses; each course has one or more *week options*, and each option is a
5 x 13 grid of integers (five weekdays, thirteen hourly slots). A nonzero cell
means the slot is taken. From the collection the program builds every
conflict-free timetable that picks one option per course. A results window
then filters these timetables by weekday, by the longest day and by the number
of days. It sorts what is left by total hours or by number of days with a
stable insertion sort. A table view paints the week being edited or viewed.

The model follows the program's classes. Classes whose fields the program
updates are Dafny classes: `Week` over a 5 x 13 `array2`, `Course`,
`UserCollection`, and the three controllers. The value-level meaning of each
operation is written as pure functions on grids, and those functions carry
the proofs.

| file | models |
|---|---|
| `common.dfy` | nullable strings, Java's decimal rendering of an int, and that it is injective |
| `grid.dfy` | the grid as a value, a day's span, and the metrics longest day, total hours and total days |
| `week.dfy` | `Week` |
| `course.dfy` | `Course` |
| `user_collection.dfy` | `UserCollection`; the random generator takes its draws as parameters |
| `combination.dfy` | what the results engine computes, as a pure function, and what its timetables are |
| `ranking.dfy` | the filter and the stable insertion sort, as pure functions |
| `results_engine.dfy` | the week-by-week loops of `processUserCollection` |
| `results_filter.dfy` | the loops of `filterAndUpdateList` |
| `results_window.dfy` | the results window controller |
| `table_view.dfy` | the table view controller and its colours |
| `build_tree.dfy` | the build tree controller: the course overlay, the empty-week check, the renumbered deep copy, and the edits |

Two behaviours of the program are easy to miss, and the model keeps both:
- When no timetable passes the filters, the list shows two placeholder weeks ("No valid timetables!" and "Please double check the filters."). It is not left empty.
- A duplicated week or course is named "+Copy of " followed by the old name.

## Model

| member | source | states |
|---|---|---|
| Common.NatToStringInjective | schedulebuilder/FXMLBuildTreeController.java:300 | two numbers with the same decimal text are equal, so labels "Week n" built from distinct numbers differ |
| Common.LabelsDistinct | schedulebuilder/FXMLBuildTreeController.java:300 | a prefix followed by two distinct numbers gives two distinct strings |
| TimeGrid.SpanIsFirstToLast | schedulebuilder/Week.java:119-135 | a day whose first occupied hour is f and whose last is l spans l - f + 1 hours, gaps included |
| TimeGrid.LongestDayIsMaximum | schedulebuilder/Week.java:115-143 | the longest day is between 0 and 13, no day spans more, and some day attains it |
| TimeGrid.TotalHoursBounds | schedulebuilder/Week.java:150-172 | the longest day <= total hours <= 5 x the longest day <= 65, and the number of days <= total hours |
| TimeGrid.TotalDaysIsOccupiedDays | schedulebuilder/Week.java:179-190 | the number of days is the size of the set of weekdays with a nonzero cell, so it is at most 5 |
| TimeGrid.MetricsZeroIffEmpty | schedulebuilder/Week.java:115-190 | each of the three metrics is 0 exactly when every cell is 0 |
| Weeks.Week.constructor | schedulebuilder/Week.java:17-30 | a new week is named "Week", owns a fresh array, and every cell is 0 |
| Weeks.Week.GetName | schedulebuilder/Week.java:38-48 | returns the week's name |
| Weeks.Week.SetName | schedulebuilder/Week.java:54-56 | the name becomes the argument |
| Weeks.Week.SetOne | schedulebuilder/Week.java:64-66 | exactly one cell takes the new value; every other cell keeps its value |
| Weeks.Week.GetOne | schedulebuilder/Week.java:74-76 | returns the value of the cell |
| Weeks.Week.GetCopy | schedulebuilder/Week.java:99-108 | a new week with its own array holds the same cells, named "+Copy of " followed by the old name |
| Weeks.Week.DaySpan | schedulebuilder/Week.java:119-135 | the two scans of one day give the day's span: first to last occupied hour inclusive, 0 for a free day |
| Weeks.Week.GetLongestDay | schedulebuilder/Week.java:115-143 | the result is the maximum span over the five days |
| Weeks.Week.GetTotalHours | schedulebuilder/Week.java:150-172 | the result is the sum of the five day spans |
| Weeks.Week.GetTotalDays | schedulebuilder/Week.java:179-190 | the result is the number of days with some nonzero cell |
| Courses.HoldsGridsOf | schedulebuilder/Course.java:65-67 | options holding a list of grids are valid, and that list is exactly their grids |
| Courses.Course.constructor | schedulebuilder/Course.java:16-19 | a new course has no name (null) and no options |
| Courses.Course.SetName | schedulebuilder/Course.java:25-27 | the name changes; the options do not |
| Courses.Course.GetName | schedulebuilder/Course.java:36-46 | returns the course's name |
| Courses.Course.AddOption | schedulebuilder/Course.java:73-75 | the option is appended at the end; the name does not change |
| Courses.Course.ReplaceOption | schedulebuilder/Course.java:82-84 | only the option at the index is replaced |
| Courses.Course.GetCopy | schedulebuilder/Course.java:52-59 | a fresh course with no name; option k is a fresh, distinct week with the cells of option k, named "+Copy of " followed by its name |
| Courses.CopyIsIndependent | schedulebuilder/Course.java:52-59 | editing a cell of the copy leaves every option of the original unchanged |
| UserCollections.UserCollection.constructor | schedulebuilder/UserCollection.java:21 | a new collection has no courses |
| UserCollections.UserCollection.AddCourse | schedulebuilder/UserCollection.java:35-37 | the course is appended at the end |
| UserCollections.UserCollection.NewCourse | schedulebuilder/UserCollection.java:44-51 | one fresh course "Course n+1" is appended, with one empty option "Week 1"; earlier courses stay |
| UserCollections.UserCollection.NewWeek | schedulebuilder/UserCollection.java:57-66 | one fresh empty option "Week m+1" is appended, m being the old count; the renaming test never fires, because `==` compares String references |
| UserCollections.DrawDay | schedulebuilder/UserCollection.java:80-84 | the retry loop returns the first draw different from the previous day; every draw it skips equals that day |
| UserCollections.PaintBlock | schedulebuilder/UserCollection.java:86-88 | three consecutive hours of the day become 1; no other cell changes |
| UserCollections.PaintBlocksCells | schedulebuilder/UserCollection.java:79-89 | every cell of a generated option is 0 or 1, and it is 1 exactly when one of its blocks covers it |
| UserCollections.GenerateOption | schedulebuilder/UserCollection.java:78-89 | a fresh week "Week" holding exactly `ndays` painted blocks, each in range; no block is on the day of the block before it, including the last block of the previous option |
| UserCollections.AppendOption | schedulebuilder/UserCollection.java:78-91 | the option is appended and named after its position; the earlier options stay generated |
| UserCollections.ChainStep | schedulebuilder/UserCollection.java:74-84 | lastDay carries over from one option to the next, so the day rule holds across option boundaries |
| UserCollections.GenerateCourse | schedulebuilder/UserCollection.java:72-92 | a fresh course "Course n" with three generated options "Week 1".."Week 3" |
| UserCollections.UserCollection.Generate | schedulebuilder/UserCollection.java:72-94 | one generated course is appended, with 1 + the drawn count of days per option; earlier courses stay |
| Combination.PairsMember | schedulebuilder/FXMLResultsWindowController.java:146-177 | for one option, the timetables kept are exactly the merges of that option with each earlier timetable it does not clash with |
| Combination.StepMember | schedulebuilder/FXMLResultsWindowController.java:144-179 | for one course, the timetables kept are exactly the merges of an earlier timetable with a non-clashing option |
| Combination.CombineFromMember | schedulebuilder/FXMLResultsWindowController.java:129-181 | a timetable is produced exactly when it realizes a starting timetable plus one option per course, each fitting what came before |
| Combination.CombineMember | schedulebuilder/FXMLResultsWindowController.java:129-181 | from the empty week: the results are exactly the conflict-free choices of one option per course |
| Combination.CompatibleIffPairwise | schedulebuilder/FXMLResultsWindowController.java:147-159 | fitting the options in one by one succeeds exactly when no two chosen options share an hour, so course order does not change which choices survive |
| Combination.RealizeCell | schedulebuilder/FXMLResultsWindowController.java:163-176 | a cell of a result holds i + 1 when course i's chosen option occupies it, and 0 when no option does |
| Combination.CombineTags | schedulebuilder/FXMLResultsWindowController.java:168 | every cell of a result lies between 0 and the number of courses |
| Combination.CombineFromLength | schedulebuilder/FXMLResultsWindowController.java:144-146 | there are at most (starting timetables) x (product of the option counts) results |
| Combination.PairsAll | schedulebuilder/FXMLResultsWindowController.java:146-178 | when no earlier timetable clashes with the option, the inner loop keeps every one of them |
| Combination.StepAll | schedulebuilder/FXMLResultsWindowController.java:144-179 | when no pair clashes, one course yields (its options) x (earlier timetables) results |
| Combination.CombinedDisjoint | schedulebuilder/FXMLResultsWindowController.java:133-179 | a built timetable clashes with no option that is free of the starting timetables and of every course folded in |
| Combination.CombineFromExact | schedulebuilder/FXMLResultsWindowController.java:129-181 | when no option clashes with a starting timetable or with an option of another course, there are exactly (starting timetables) x (product of the option counts) results |
| Combination.CombineExact | schedulebuilder/FXMLResultsWindowController.java:129-181 | from the empty week, when no two options of different courses share an hour, there is exactly one result per choice of options |
| Combination.CourseWithoutOptions | schedulebuilder/FXMLResultsWindowController.java:144 | a course with no options leaves no result |
| Ranking.KeptMember | schedulebuilder/FXMLResultsWindowController.java:200-225 | a timetable is kept exactly when it has no class on an unticked day and both its longest day and its number of days fit the sliders |
| Ranking.KeptMonotone | schedulebuilder/FXMLResultsWindowController.java:204-220 | loosening the filters never drops a kept timetable |
| Ranking.InsertPosUnique | schedulebuilder/FXMLResultsWindowController.java:236-243 | the insertion point (before the first strictly greater key) is the only point with keys <= v before it and a key > v after it |
| Ranking.SortOrderPermutation | schedulebuilder/FXMLResultsWindowController.java:229-262 | the insertion sort lists every position exactly once |
| Ranking.SortOrderSortedStable | schedulebuilder/FXMLResultsWindowController.java:229-262 | the sorted list ascends by key, and equal keys keep their filter order |
| Ranking.DisplayedCorrect | schedulebuilder/FXMLResultsWindowController.java:190-278 | the list shown holds exactly the kept timetables, each once, ascending by key, and stable on ties |
| ResultsEngine.IsValidPair | schedulebuilder/FXMLResultsWindowController.java:147-159 | true exactly when the option and the earlier timetable share no occupied hour |
| ResultsEngine.BuildMerged | schedulebuilder/FXMLResultsWindowController.java:164-175 | a fresh week holding the merge: the earlier timetable's value where it is occupied, else the course number where the option is occupied, else 0 |
| ResultsEngine.AppendIfValid | schedulebuilder/FXMLResultsWindowController.java:147-177 | the merge is appended, named "Week k+1" after its position, exactly when the pair does not clash |
| ResultsEngine.AppendPairs | schedulebuilder/FXMLResultsWindowController.java:146-178 | one pass over the earlier timetables appends exactly the merges, in order, as fresh distinct weeks |
| ResultsEngine.CopyAll | schedulebuilder/FXMLResultsWindowController.java:135-137 | the copies are fresh weeks holding the same grids |
| ResultsEngine.StepWeeks | schedulebuilder/FXMLResultsWindowController.java:139-179 | one course's pass produces exactly that course's step of the pure engine, numbered "Week 1", "Week 2", ... |
| ResultsEngine.CourseStep | schedulebuilder/FXMLResultsWindowController.java:133-179 | copy, then combine: the new list is the step of the pure engine on the old one |
| ResultsEngine.RunEngine | schedulebuilder/FXMLResultsWindowController.java:131-180 | the final list holds exactly the pure engine's result, as distinct weeks; with no course it is the input list |
| ResultsFilter.Passes | schedulebuilder/FXMLResultsWindowController.java:202-220 | includeInResults is true exactly when the week passes the filters |
| ResultsFilter.FilterWeeks | schedulebuilder/FXMLResultsWindowController.java:200-225 | tempList is the kept weeks, in their original order |
| ResultsFilter.SortKey | schedulebuilder/FXMLResultsWindowController.java:238-254 | the key is total hours in hours mode and total days otherwise |
| ResultsFilter.IndexOf | schedulebuilder/FXMLResultsWindowController.java:239-255 | returns the first position of the week, or -1 when it is absent |
| ResultsFilter.InsertionIndex | schedulebuilder/FXMLResultsWindowController.java:236-242 | higherIndex has keys <= key before it and a key > key at it |
| ResultsFilter.InsertSorted | schedulebuilder/FXMLResultsWindowController.java:233-244 | inserting week t at higherIndex advances the list to the sort of the first t + 1 keys |
| ResultsFilter.Relabel | schedulebuilder/FXMLResultsWindowController.java:231-232 | the week is renamed "Timetable c" with its hours and days |
| ResultsFilter.HoursStep | schedulebuilder/FXMLResultsWindowController.java:230-244 | one pass of the hours loop renames one week and inserts it in order |
| ResultsFilter.SortByHours | schedulebuilder/FXMLResultsWindowController.java:228-245 | the result is the stable sort by total hours, and week t is named "Timetable t+1 ..." |
| ResultsFilter.SortByDays | schedulebuilder/FXMLResultsWindowController.java:247-262 | the result is the stable sort by total days; no week is renamed |
| ResultsFilter.SortWeeks | schedulebuilder/FXMLResultsWindowController.java:228-262 | the radio button chooses the key; only hours mode renames |
| ResultsFilter.FilterAndSort | schedulebuilder/FXMLResultsWindowController.java:198-262 | the sorted list is the shown list of the pure ranking; only kept weeks are renamed, and only in hours mode |
| ResultsWindow.Notices | schedulebuilder/FXMLResultsWindowController.java:266-272 | two fresh weeks named "No valid timetables!" and "Please double check the filters." |
| ResultsWindow.ShowResults | schedulebuilder/FXMLResultsWindowController.java:198-277 | the items are the shown list when it is not empty, else the two notices |
| ResultsWindow.ResultsWindowController.constructor | schedulebuilder/FXMLResultsWindowController.java:49-54 | no collection and no timetables yet |
| ResultsWindow.ResultsWindowController.ProcessUserCollection | schedulebuilder/FXMLResultsWindowController.java:129-181 | the timetables become the pure engine's result on the old list plus one empty week; with no course, the empty week "Week" is just appended |
| ResultsWindow.ResultsWindowController.FilterAndUpdateList | schedulebuilder/FXMLResultsWindowController.java:190-278 | the list shown is as ShowResults says; the timetables keep their grids; names change only for kept weeks in hours mode |
| TableView.ColourAsWritten | schedulebuilder/FXMLTableViewController.java:119-123 | the colour index is the value when it is at most 6, else the value mod 6 |
| TableView.ColourAsWrittenHidesTwelve | schedulebuilder/FXMLTableViewController.java:119-124 | a cell holding 12 is painted colour 0, the grey of a free slot |
| TableView.ColourOf | schedulebuilder/FXMLTableViewController.java:119-124 | colour 0 exactly for a free cell; occupied values cycle through colours 1..6; equal to the as-written colour except at multiples of 6 above 6 |
| TableView.Toggle | schedulebuilder/FXMLTableViewController.java:100-106 | a click makes 0 into 1 and any other value into 0 |
| TableView.ToggleTwice | schedulebuilder/FXMLTableViewController.java:100-106 | on a 0/1 cell two clicks restore the cell |
| TableView.TableViewController.constructor | schedulebuilder/FXMLTableViewController.java:24-69 | not editable, no active week, every slot grey |
| TableView.TableViewController.SetEditable | schedulebuilder/FXMLTableViewController.java:85-87 | isEditable becomes the argument; the active week stays |
| TableView.TableViewController.SetActiveWeek | schedulebuilder/FXMLTableViewController.java:75-78 | the week becomes active and the grid shows its colours; the week's cells do not change |
| TableView.TableViewController.ResetRects | schedulebuilder/FXMLTableViewController.java:133-139 | every slot is grey |
| TableView.TableViewController.UpdateRects | schedulebuilder/FXMLTableViewController.java:114-127 | every slot shows the colour of its cell |
| TableView.TableViewController.RectClicked | schedulebuilder/FXMLTableViewController.java:93-109 | when editable, exactly the clicked cell toggles and the grid still shows the week; when editing is off (also before any week is shown) nothing changes; a table that showed its week still does |
| BuildTree.OverlayCell | schedulebuilder/FXMLBuildTreeController.java:224-232 | a cell of the overlay is 0 when no option occupies it, else the last occupying option's value plus that option's index |
| BuildTree.OverlayNonNegative | schedulebuilder/FXMLBuildTreeController.java:224-232 | options without negative cells give an overlay without negative cells |
| BuildTree.OverlayOption | schedulebuilder/FXMLBuildTreeController.java:225-231 | the inner loops write option n's occupied cells, plus count, over the week |
| BuildTree.CourseOverlay | schedulebuilder/FXMLBuildTreeController.java:220-234 | a fresh week "Week" holding the overlay of all of the course's options |
| BuildTree.ScanWeek | schedulebuilder/FXMLBuildTreeController.java:261-269 | the flag is true exactly when every cell of the week is 0; the break leaves only the hour loop |
| BuildTree.ScanOptionsAsWritten | schedulebuilder/FXMLBuildTreeController.java:260-270 | after a course the flag is the verdict on its last option, or unchanged when it has none |
| BuildTree.ScanCoursesAsWritten | schedulebuilder/FXMLBuildTreeController.java:258-271 | the flag after every course is the verdict on the last option scanned |
| BuildTree.EmptyWeekFlagAsWritten | schedulebuilder/FXMLBuildTreeController.java:258-271 | the check as written returns the verdict on the last option scanned, true when there is no option |
| BuildTree.AsWrittenFlagSound | schedulebuilder/FXMLBuildTreeController.java:258-271 | when the as-written flag is set, some option is indeed empty, or there is none |
| BuildTree.AsWrittenFlagMissesEarlierEmpty | schedulebuilder/FXMLBuildTreeController.java:258-271 | an empty first course option followed by an occupied one leaves the flag false |
| BuildTree.ScanOptions | schedulebuilder/FXMLBuildTreeController.java:260-270 | found is true exactly when some option of the course is empty |
| BuildTree.EmptyWeekFlag | schedulebuilder/FXMLBuildTreeController.java:257-273 | the flag is set exactly when some option is empty, or no option exists |
| BuildTree.CopyLabelInjective | schedulebuilder/FXMLBuildTreeController.java:300 | distinct copy numbers give distinct names |
| BuildTree.CopyCells | schedulebuilder/FXMLBuildTreeController.java:302-306 | the copy holds the old week's cells |
| BuildTree.CopyWeek | schedulebuilder/FXMLBuildTreeController.java:299-306 | a fresh week with the given name and the old week's cells |
| BuildTree.CopyNextWeek | schedulebuilder/FXMLBuildTreeController.java:299-307 | one more option is copied as a fresh week "Week n+1" and appended |
| BuildTree.CopyCourse | schedulebuilder/FXMLBuildTreeController.java:296-308 | a fresh course with the same name; option k is a fresh week "Week first+k+1" holding option k's grid, and the options are distinct |
| BuildTree.CopyNextCourse | schedulebuilder/FXMLBuildTreeController.java:296-309 | one more course is copied and added, and the week count moves on by its option count; the new course is none of the original courses and its weeks none of the original weeks |
| BuildTree.CopyCourses | schedulebuilder/FXMLBuildTreeController.java:293-310 | after the loop every course is copied, numbered on from the courses before it; no copied course is an original course and no copied week an original week |
| BuildTree.CopiedWeeksApart | schedulebuilder/FXMLBuildTreeController.java:293-310 | copied weeks kept apart from the original weeks, course by course, leave no week of any copied course among the originals |
| BuildTree.DeepCopy | schedulebuilder/FXMLBuildTreeController.java:293-310 | a fresh collection with the same course names, whose options hold the same grids and are named "Week 1", "Week 2", ... across the whole collection; it shares no course and no week with the original, so the results window works on independent instances |
| BuildTree.RenumberedLabelsDistinct | schedulebuilder/FXMLBuildTreeController.java:294-300 | in the copy, no two options of the collection share a name |
| BuildTree.RenumberedGrids | schedulebuilder/FXMLBuildTreeController.java:293-310 | the copy's options are valid and hold exactly the original's grids, course by course |
| BuildTree.RemoveFirst | schedulebuilder/FXMLBuildTreeController.java:150-152 | removes the first occurrence of the item; a list without it is unchanged |
| BuildTree.BuildTreeController.constructor | schedulebuilder/FXMLBuildTreeController.java:43-47 | a new empty collection and the given table and task label |
| BuildTree.BuildTreeController.ShowWeek | schedulebuilder/FXMLBuildTreeController.java:214-217 | the week becomes the table's editable week, unchanged, with the label "Editing: course, week" |
| BuildTree.BuildTreeController.ShowCourse | schedulebuilder/FXMLBuildTreeController.java:220-236 | a fresh overlay of the course's options becomes the table's read-only week, with the label "Viewing: course" |
| BuildTree.BuildTreeController.ChangeActiveWeek | schedulebuilder/FXMLBuildTreeController.java:207-239 | a week is shown for editing; a course is shown as its overlay, read-only; with nothing selected, nothing changes |
| BuildTree.BuildTreeController.ViewResults | schedulebuilder/FXMLBuildTreeController.java:248-324 | "Insufficient Courses" exactly when there is at most one course; "Week Contains No Data" exactly when some option is empty; otherwise the window opens on a renumbered deep copy that shares no course and no week with the collection |
| BuildTree.BuildTreeController.DuplicateSelectedItem | schedulebuilder/FXMLBuildTreeController.java:123-138 | a course's copy, named "+Copy of " and the old name, is appended to the collection; its options are fresh weeks with the same cells, each named "+Copy of " and that week's name. A week's copy, named "+Copy of " and its name, is appended to its course. With nothing selected, nothing changes |
| BuildTree.BuildTreeController.NewWeek | schedulebuilder/FXMLBuildTreeController.java:97-116 | the warning shows exactly when nothing is selected; otherwise the selected course, or the course of the selected week, gets one fresh empty "Week m+1" |
| BuildTree.BuildTreeController.RemoveSelectedItem | schedulebuilder/FXMLBuildTreeController.java:146-156 | a course leaves the collection, or a week leaves its course, first occurrence only |
| BuildTree.BuildTreeController.RenameSelectedItem | schedulebuilder/FXMLBuildTreeController.java:162-179 | the entered name replaces the course's or the week's name; a cancelled dialog changes nothing |

## Left out

- The JavaFX user interface is not part of this model: windows, dialogs, the tree widget and its `updateTree` refresh, the legend that `setCollection` builds, the table's `initialize` layout, and the list selection `setTableToSelection`. The table's rectangles become a 5 x 13 array of colour indices, and `RECT_COLORS` becomes the indices 0..6.
- The `TableRect` class is not part of this model.
- `FXMLEditorWindowController.java`, `ScheduleBuilder.java` and `DataNode.java` are not part of this model.
- File input and output are left out: `newCollection`, `loadCollection` and `saveCollection`. Serialization is left out too.
- The `IOException` branch of `viewResults` is left out: loading the results window's layout is I/O.
- The build tree's `newCourse` and `generateCourse` are left out. They only call `UserCollection.newCourse` and `generate`, which are modelled, and then refresh the tree.
- `Math.random()` is not modelled as randomness. `Generate` takes the day-count draw, plus one stream of day draws and one of start-hour draws, as parameters. The day stream must never become constant, so that the retry loop ends.
- The sliders hold doubles. The model keeps their integer part: an integer metric exceeds a slider value exactly when it exceeds that value's integer part.
- `Week.setAll` and `Week.getAll` are left out. Without them a week's array is never replaced, so the model keeps it as a constant field.
- `Course.getWeekOptions` and `UserCollection.getCourses` return the live lists. The model reads and updates the fields directly.
- Integers are unbounded. Java's 32-bit wrap-around of cell values is not modelled; cells hold course numbers, 0/1 and overlay sums far below the bound.
- The table only colours cells that are not negative. A negative cell would index `RECT_COLORS` out of bounds in the program. So these members require every week they show to have no negative cell: TableView.TableViewController.SetActiveWeek, TableView.TableViewController.UpdateRects, BuildTree.BuildTreeController.ShowWeek, BuildTree.BuildTreeController.ShowCourse and BuildTree.BuildTreeController.ChangeActiveWeek.
- UserCollections.UserCollection.NewWeek: Java's `==` on two Strings compares object identity. The name just built is always a new object, so the renaming branch never fires. The model states this as a comparison that is always false, not as string equality.
- BuildTree.DeepCopy: it states that the copy shares no course and no week with the original collection, not that the copied courses and weeks are newly allocated. The collection itself is stated fresh, and so is each week `CopyCourse` makes.
- BuildTree.BuildTreeController.ViewResults: it inherits the independence of `DeepCopy` as disjointness from the collection, not as newly allocated courses and weeks.
- BuildTree.BuildTreeController.ViewResults: the opened branch uses the corrected empty-week check (see Findings). The as-written check is modelled beside it.
- TableView.TableViewController.UpdateRects: it paints with the corrected colour `ColourOf` (see Findings), not the as-written colour of FXMLTableViewController.java:119-123. The two differ at 12, 18, 24 and so on. The as-written colour is modelled beside it as `ColourAsWritten`.
- TableView.TableViewController.SetActiveWeek: the colours it promises follow the corrected mapping `ColourOf`, through UpdateRects.
- TableView.TableViewController.RectClicked: the colours it promises follow the corrected mapping `ColourOf`. An editable table with no week, where the program would throw, is excluded.
- BuildTree.BuildTreeController.ShowWeek: the colours it promises follow the corrected mapping `ColourOf`.
- BuildTree.BuildTreeController.ShowCourse: the colours it promises follow the corrected mapping `ColourOf`.
- BuildTree.BuildTreeController.ChangeActiveWeek: the colours it promises follow the corrected mapping `ColourOf`.

## Findings

| source | as written | input that shows it | evidently intended | confidence | as-written member | corrected member |
|---|---|---|---|---|---|---|
| schedulebuilder/FXMLTableViewController.java:119-124 | a value above 6 is reduced mod 6, so 12 and every multiple of 6 above 6 get colour 0, the grey of a free slot | a results timetable where the twelfth course occupies a slot: the cell holds 12 and is painted grey | occupied cells cycle through colours 1..6 and are never painted as free | not executed | TableView.ColourAsWritten (shown by TableView.ColourAsWrittenHidesTwelve) | TableView.ColourOf |
| schedulebuilder/FXMLBuildTreeController.java:258-271 | the flag is reset to true for every option and overwritten by that option's scan, so only the last option scanned decides it | two courses, the first with one empty option, the second with one option holding a class on Monday at the first hour: the flag ends false and no warning is shown | warn when any option of any course is empty | not executed | BuildTree.EmptyWeekFlagAsWritten (shown by BuildTree.AsWrittenFlagMissesEarlierEmpty) | BuildTree.EmptyWeekFlag |
