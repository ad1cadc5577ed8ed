# SplitsBrowser: SI CSV reader and cumulative-time repair

SplitsBrowser shows orienteering results split by split. This project models two of its
parts in Dafny and proves properties of the model.

- The **SI reader** (`js/si-reader.js`) reads the delimited text that SportIdent software
  exports and builds an event from it. It finds the delimiter and the column layout from
  the first data line. It then reads each line into a competitor of an age class and
  records the class's course. Finally it turns the many-to-many relation between classes
  and courses into one course per connected component of the class–course graph.
- The **repairer** (`js/data-repair.js`) cleans one competitor's cumulative times in three
  passes:
  - it removes times equal to the previous one;
  - it runs a bounded local search that removes the times causing negative splits;
  - for a competitor who did not complete the course, it drops an absurd finish time.

  Per-class and per-event drivers run these passes. A `madeAnyChanges` flag records
  whether anything changed, and a class where something changed is marked as having
  dubious data. A pass-through copies the original times unchanged.

A cumulative-time sequence is a `seq<Time>`, where `Time = Num(int) | Missing | Invalid`
stands for a JavaScript number, `null` or `NaN`. Index 0 is the start, the middle entries
are the controls and the last entry is the finish. The two exceptions of the system,
wrong file format and invalid data, become the `Error` kinds of a `Result`, together with
the one TypeError the reader can raise.

Each file of the model has one job:

| File | Contents |
|---|---|
| `wrappers.dfy` | Option, Result and Outcome |
| `times.dfy` | the Time datatype and ascent and invalidation predicates |
| `model.dfy` | the Competitor, AgeClass and Course classes and the Event datatype |
| `repair_spec.dfy` | each repair pass as a function, with lemmas saying what it means |
| `data_repair.dfy` | the Repairer class; its array methods are proved equal to those functions |
| `si_format.dfy` | `$.trim`, `split`, `dequote`, `parseInt`, control codes and the three column layouts |
| `si_rows.dfy` | what one row gives: class name, start time, number of controls, cumulative times, course details, competitor |
| `si_state.dfy` | the reader's accumulated state as a value, and what reading one line does to it |
| `si_detect.dfy` | delimiter and layout detection as functions |
| `si_sort.dfy` | string order and sorted insertion, for the sorted class names |
| `si_courses.dfy` | the two class/course maps and the connected components of the graph |
| `si_linking.dfy` | the worklist search that collects a component |
| `si_reader.dfy` | the Reader class, whose methods change its fields as the source does, and the entry point |

The imperative parts of the source are imperative here:
- the Repairer's flag and its passes that write `NaN` into an array;
- the Reader's fields, updated line by line;
- the cumulative-times loop;
- the backward scans of layout detection;
- the worklist search.

Each method is proved against a function of its inputs or of its old state. The
properties the source promises are lemmas about those functions.

The source has some edge cases that look odd. The model keeps them as written.
- `dequote` on a field that is a lone `"` returns `"`. `substring` swaps its arguments,
  so the field comes back unchanged (`SiFormat.DequoteLoneQuote`).
- When the non-ascending pair starts at index 0 and trial 1 makes no progress, trial 2
  invalidates the zero start. The re-scan then throws invalid data, and the whole
  repair fails (`RepairSpec.NegativeSplitsRemovedCanFail`).
- In `identifyFormatVariation`, a column looked up before the start of the row reads as
  `undefined`. The control-code test accepts the text "undefined", so the model counts
  such a column as holding a control code.

## Model

| member | source | states |
|---|---|---|
| RepairSpec.FirstNonAscending | js/data-repair.js:50-71 | Fails with invalid data exactly when the times are empty or do not start with zero. Otherwise the result is None exactly when the present times ascend strictly. A pair found has both entries present, no present entry between them, second not later than first, and everything before second ascending. |
| DataRepair.GetFirstNonAscendingIndexes | js/data-repair.js:50-71 | The scanning loop over the array returns exactly FirstNonAscending of its contents. |
| DataRepair.Repairer.constructor | js/data-repair.js:34-36 | A new repairer has not made any changes. |
| RepairSpec.EqualToPreviousRemovedSpec | js/data-repair.js:79-89 | Duplicate removal keeps the length, the start and the finish. At every interior index it writes NaN exactly when the time there is present and equal to the most recent time it kept. |
| RepairSpec.EqualToPreviousRemovedOnlyInvalidates | js/data-repair.js:79-89 | Duplicate removal only replaces present times by NaN, and never the first or the last. |
| DataRepair.Repairer.RemoveCumulativeTimesEqualToPrevious | js/data-repair.js:79-89 | Rewrites the array in place to EqualToPreviousRemoved of its old contents. The flag becomes set exactly when it was set before or the array changed. |
| RepairSpec.TryAttempts | js/data-repair.js:129-155 | An accepted trial gives times of the same length whose re-scan succeeds and progresses past the old pair. |
| RepairSpec.AcceptedTrialIsFirstProgressing | js/data-repair.js:129-155 | The accepted trial is the first of trials 1, 2 and 3, in that order, that can be made and whose re-scan progresses. Every earlier trial either could not be made or re-scanned without progress. Trial 3 is skipped when first is 1 or the time before first is not present. |
| RepairSpec.NoProgressIsNoTrialProgressing | js/data-repair.js:129-155 | No trial is accepted exactly when every trial that can be made re-scans without an error and without progress. |
| RepairSpec.TrialOnlyInvalidates | js/data-repair.js:129-155 | An accepted trial only replaces present times by NaN and leaves the finish alone. |
| RepairSpec.FailuresAreInvalidData | js/data-repair.js:145-146 | A trial sequence can only fail with invalid data, raised by a re-scan. |
| RepairSpec.AcceptedTrialChanges | js/data-repair.js:137-153 | An accepted trial always changes the times. |
| DataRepair.Repairer.RunTrials | js/data-repair.js:129-155 | Running trials 1–3 on fresh copies gives TryAttempts. The accepted copy is fresh and holds the trial's times. |
| RepairSpec.NegativeSplitsRemovedSpec | js/data-repair.js:103-163 | The search fails only with invalid data, and always fails when the times do not start with zero. When it succeeds it has only replaced present times by NaN and kept the zero start and the finish. If it stops on a pair before the finish, no trial progresses on that pair. |
| RepairSpec.SearchMakesProgressSpec | js/data-repair.js:103-163 | A successful search changed the times exactly when it accepted at least one trial. |
| RepairSpec.NegativeSplitsRemovedAscending | js/data-repair.js:106-160 | When the search is not stuck, every present time before the finish ascends strictly. |
| RepairSpec.NegativeSplitsRemovedAscendingUnchanged | js/data-repair.js:103-106 | The search leaves times that already ascend strictly unchanged. |
| RepairSpec.NegativeSplitsRemovedCanFail | js/data-repair.js:133-146 | On the times 0, -, 0, -, 0, 10, trial 2 invalidates the zero start and the search fails with invalid data. |
| DataRepair.Repairer.RemoveCumulativeTimesCausingNegativeSplits | js/data-repair.js:103-163 | The search loop returns exactly what NegativeSplitsRemoved gives for the input. It never writes to the input array, and a changed result is a fresh array. The flag becomes set exactly when it was set or a trial was accepted. The loop's termination measure is the advance of the pair's second index. |
| RepairSpec.FinishDroppedIfAbsurdSpec | js/data-repair.js:174-181 | Only the finish can change, and only from present to NaN. It changes exactly when the finish and the time before it are present and the finish is at least five minutes before it. No absurd finish remains, and applying the pass twice gives the same result. |
| DataRepair.Repairer.RemoveFinishTimeIfAbsurd | js/data-repair.js:174-181 | Rewrites the array to FinishDroppedIfAbsurd of its old contents. The flag becomes set exactly when it was set or the finish was absurd. |
| RepairSpec.RepairedCumTimesPasses | js/data-repair.js:190-202 | The repair is duplicate removal, then the search, then (only for a competitor who did not complete) the absurd-finish drop. It stops at a failure. |
| RepairSpec.RepairedCumTimesSpec | js/data-repair.js:190-202 | The repair fails only with invalid data, and always fails when the original times do not start with zero. A successful repair only replaces present times by NaN, keeps the zero start, and keeps the finish of a competitor who completed. |
| RepairSpec.RepairReportsChangeSpec | js/data-repair.js:190-202 | For a successful repair, the flag conditions of the three passes hold exactly when the repaired times differ from the original ones. |
| RepairSpec.RepairedCumTimesAscendingUnchanged | js/data-repair.js:190-202 | Repairing times that already ascend strictly returns them unchanged. |
| RepairSpec.AbsurdFinishScenarios | js/data-repair.js:174-181 | A non-finisher whose finish is 400 s before the last control loses the finish. One whose finish is 200 s before it keeps it. |
| DataRepair.Repairer.RepairCompetitor | js/data-repair.js:190-202 | Passes exactly when RepairedCumTimes of the original times succeeds, and then stores the result as the repaired times. On failure the competitor keeps its repaired times and the error is invalid data. The flag also records changes made by the passes completed before a failure. |
| DataRepair.FirstUnrepairable | js/data-repair.js:208-217 | Returns the index of the first competitor whose repair fails. Every earlier one can be repaired. The result is the length when none fails. |
| DataRepair.AnyReportsChangeSpec | js/data-repair.js:214-216 | The prefix-wise change predicate holds exactly when some competitor's repair reports a change. |
| DataRepair.Repairer.RepairAgeClass | js/data-repair.js:208-217 | Resets the flag and repairs the competitors in order, stopping at the first failure. Competitors before it hold their repaired times and later ones are unchanged. The class is marked dubious exactly when it was already marked, or the whole class passed and some repair changed something. |
| DataRepair.FirstUnrepairableClass | js/data-repair.js:223-227 | Returns the index of the first class holding a competitor whose repair fails. Every earlier class can be repaired entirely. |
| DataRepair.AllRepairableFirst | js/data-repair.js:223-227 | Every competitor of every class can be repaired exactly when no class has a failing competitor. |
| DataRepair.Repairer.RepairEventData | js/data-repair.js:223-227 | Repairs the classes in order, stopping at the first failure. Every class before it is repaired, and each is marked dubious exactly when it was already marked or some repair in it changed something. The failing class has its competitors before the failing one repaired and keeps its mark, as do the later classes. Every competitor outside those reached keeps its repaired times. |
| DataRepair.RepairEvent | js/data-repair.js:233-236 | Passes exactly when every competitor can be repaired. Then every competitor holds its repaired times, and exactly the classes with a changed competitor are newly marked dubious. It fails only with invalid data. On failure, the classes before the failing one are repaired and marked as on success, while the failing class and the later ones keep their marks. The failing class has its competitors before the failing one repaired, and every competitor not reached keeps its repaired times. |
| DataRepair.TransferCompetitorData | js/data-repair.js:246-252 | Every competitor's repaired times become its original times. |
| SiDetect.DelimiterFromSpec | js/si-reader.js:132-139 | Returns the first delimiter in the list that splits the line into more than 37 fields. When none does, it fails with the wrong format. |
| SiDetect.DelimiterSpec | js/si-reader.js:126-140 | With at most one line the format is wrong. Otherwise the delimiter is the first of `;`, `,`, tab and backslash that splits the first data line into more than 37 fields, and when none does the format is wrong. |
| SiReader.Reader.IdentifyDelimiter | js/si-reader.js:126-140 | The loop over the delimiters returns exactly Delimiter of the reader's lines. |
| SiDetect.EndPositionSpec | js/si-reader.js:157-161 | The end position is at or before the last field. The field there does not trim to empty unless it is field 0, and every field after it does. |
| SiReader.Reader.SkipTrailingBlanks | js/si-reader.js:157-161 | The loop returns exactly EndPosition of the first line's fields. |
| SiDetect.StepBackSpec | js/si-reader.js:175-178 | Stepping back ends an even number of columns back. Every column passed holds a control code, and the column two before the end does not (or none exists). |
| SiReader.Reader.StepBackToFirstControl | js/si-reader.js:175-178 | The loop returns exactly StepBack from the last control column. |
| SiDetect.FormatVariationSpec | js/si-reader.js:152-189 | A layout found puts control 1 in column 44, 46 or 60. Every second column from it up to the last control holds a control code, and the column two before it does not. Failures are always the wrong format. There is one exactly when neither of the last two columns holds a control code or stepping back from the last control code ends at a column with no layout; otherwise the layout is the one for that column. |
| SiReader.Reader.IdentifyFormatVariation | js/si-reader.js:152-189 | Sets the column indexes to FormatVariation of the first data line, or fails with its error and leaves them as they were. |
| SiFormat.ColumnIndexesFor | js/si-reader.js:39-73 | A layout exists exactly for control-1 columns 44, 46 and 60, and puts control 1 there. |
| SiFormat.ColumnLayout | js/si-reader.js:39-73 | The course columns are the seven just before control 1 and start at column 37 or later. Every competitor column is before column 37. Only the 60-column layout has fallbacks. Only the 44-column layout lacks separate forename and surname columns. |
| SiFormat.TrimSpec | js/si-reader.js:380 | Trimming cuts the text into white space, a middle part that does not start or end with white space, and white space, and returns the middle part. |
| SiFormat.TrimPadded | js/si-reader.js:380 | Trimming white space around a middle part that has no white space at either end returns that part. |
| SiFormat.TrimIdempotent | js/si-reader.js:380 | Trimming twice is the same as trimming once. |
| SiFormat.TrimBlank | js/si-reader.js:375 | A text trims to empty exactly when it is all white space. |
| SiFormat.Split | js/si-reader.js:380 | Splitting gives one more piece than there are delimiters, and no piece holds the delimiter. |
| SiFormat.JoinSplit | js/si-reader.js:380 | Joining the pieces of a split with the delimiter gives back the text. |
| SiFormat.SplitJoin | js/si-reader.js:380 | Splitting a join of delimiter-free pieces gives back the pieces. |
| SiFormat.CollapseEscape | js/si-reader.js:85 | Collapsing `""` to `"` undoes doubling every quote. |
| SiFormat.Dequote | js/si-reader.js:83-89 | A value that does not both start and end with a quote is unchanged. |
| SiFormat.DequoteQuote | js/si-reader.js:83-89 | Dequoting a quoted, quote-escaped text gives that text trimmed. |
| SiFormat.DequoteLoneQuote | js/si-reader.js:83-89 | A lone quote dequotes to itself. |
| SiFormat.ParseRow | js/si-reader.js:380 | A row has one field per piece of the split line. |
| SiFormat.ParseRowOfQuoted | js/si-reader.js:380 | A line of quoted cells joined by the delimiter reads back as the trimmed cells. |
| SiFormat.QuotedFieldReadsBack | js/si-reader.js:380 | A quoted cell holds no delimiter and reads back as the trimmed cell. |
| SiFormat.ParseIntOfDecimal | js/si-reader.js:232 | `parseInt` of a decimal numeral followed by a non-digit gives its value. |
| SiFormat.ParseIntNaN | js/si-reader.js:232 | `parseInt` gives NaN exactly when no digit follows the leading white space and an optional sign. |
| SiRows.AgeClassName | js/si-reader.js:196-203 | The class name is the class column, or the fallback column when the class column is there but blank and the layout has one. It is blank only if the class column is. |
| SiRows.StartTime | js/si-reader.js:210-217 | Parses the start column, or the start fallback column when the start column is there but blank and the layout has one. A start column past the end of the row takes no fallback. |
| SiRows.NumControls | js/si-reader.js:225-234 | A blank class name is invalid data. A class already seen keeps its number of controls. Otherwise the control-count column is read with `parseInt`. |
| SiRows.ControlCount | js/si-reader.js:247 | A loop to the number of controls runs that many times, or not at all when it is NaN or not positive. |
| SiRows.ControlTime | js/si-reader.js:247-252 | A control's time is the parsed column after its code, or missing when the row is shorter than that. |
| SiRows.TotalTime | js/si-reader.js:254-264 | The total is the time column when it parses, else finish minus start when both parse, else missing. |
| SiRows.CumulativeTimes | js/si-reader.js:243-268 | There are two more times than controls, starting with zero and ending with the total time. |
| SiRows.CumulativeTimesControls | js/si-reader.js:243-268 | Time i+1 is control i's time, read from column control1 + 2i + 1, or missing past the end of the row. |
| SiReader.Reader.ReadCumulativeTimes | js/si-reader.js:243-268 | The push loop returns exactly CumulativeTimes for the row and its control count. |
| SiState.WithClass | js/si-reader.js:276-281 | Adds the class with the given number of controls and no competitors when it is new. Existing classes are unchanged. |
| SiReader.Reader.CreateAgeClassIfNecessary | js/si-reader.js:276-281 | The classes become WithClass of the old classes for the row's class. |
| SiRows.CourseDetailsOf | js/si-reader.js:289-299 | The length and climb are parsed from their columns. The control codes are read from columns control1 + 2i, one per control. |
| SiState.WithCourse | js/si-reader.js:289-299 | Adds the course details when the course is new. Existing courses keep theirs. |
| SiReader.Reader.CreateCourseIfNecessary | js/si-reader.js:289-299 | The course details become WithCourse of the old ones with the row's course details. |
| SiState.WithPair | js/si-reader.js:306-313 | Appends the pair exactly when it is not there yet. |
| SiReader.Reader.CreateClassCoursePairIfNecessary | js/si-reader.js:306-313 | The pairs become WithPair of the old pairs with the row's class and course. |
| SiRows.Club | js/si-reader.js:325-329 | The club is the club column, or the fallback club column when the club column is there but blank and the layout has one. |
| SiRows.NameWithoutPlacing | js/si-reader.js:333-347 | A non-numeric placing at the end of the surname is removed before forename and surname are joined and trimmed. |
| SiRows.NameWithPlacing | js/si-reader.js:333-347 | With a numeric or blank placing, the name is forename and surname joined and trimmed. |
| SiRows.CourseName | js/si-reader.js:289-311 | The course column, or "undefined", the key d3.map makes of an undefined name, when the row is too short to hold one. |
| SiRows.CompetitorOf | js/si-reader.js:321-363 | The competitor has the given order and cumulative times, the row's club, start time and name, and the completed flag of its times. It is non-competitive exactly when the placing is non-numeric and it completed; a placing past the end of the row counts as non-numeric. |
| SiReader.Reader.ReadName | js/si-reader.js:335-352 | The steps that build the name give exactly the row's competitor name, or the TypeError exactly when the layout has forename and surname and the placing lies past the end of the row. |
| SiReader.Reader.ReadCompetitor | js/si-reader.js:321-361 | The competitor built from the row's cells is exactly CompetitorOf for the row, or the TypeError exactly when the layout has forename and surname and the placing lies past the end of the row. |
| SiReader.Reader.AddCompetitor | js/si-reader.js:321-363 | Appends the row's competitor to its class, numbered one more than the class's competitors so far, and changes nothing else. Raises the TypeError, changing nothing, exactly when the layout has forename and surname and the placing lies past the end of the row. |
| SiState.ReadLineFailure | js/si-reader.js:373-398 | A line fails exactly when it is not blank and has fewer than 37 fields, a blank class name, or a forename and surname but no placing column. The first two are invalid data, the last is the TypeError, and no other error arises. |
| SiState.ReadBlankLine | js/si-reader.js:375-377 | A blank line changes nothing. |
| SiState.ReadLineEffect | js/si-reader.js:373-398 | A line that is read appends one competitor, numbered one more than its class's competitors so far, to the end of its class. A class seen before keeps its number of controls, and other classes are unchanged. |
| SiState.ReadLineRecords | js/si-reader.js:373-398 | A line that is read records its class, course and pair, and that competitors were read. A course seen before keeps its details, and a new course gets the row's. |
| SiState.ReadLinePreserves | js/si-reader.js:373-398 | Reading a line keeps the state invariant and extends the state: nothing is lost and competitors are only appended. The invariant requires distinct pairs naming exactly the known classes and courses, competitors numbered 1, 2, … per class, and competitors present exactly when there is a pair. |
| SiReader.Reader.ReadLine | js/si-reader.js:373-398 | Updates the reader's fields to ReadLine of the old state, or fails with its error. Invalid data leaves the fields unchanged; the TypeError leaves the row's class, course and pair recorded without its competitor. |
| SiState.InitialValid | js/si-reader.js:98-118 | The empty initial state satisfies the invariant. |
| SiReader.Reader.constructor | js/si-reader.js:98-118 | A new reader has no lines, no layout and the empty initial state. |
| SiState.ReadLinesPreserves | js/si-reader.js:571-573 | Reading all the lines keeps the invariant and extends the state. |
| SiState.ExtendsTransitive | js/si-reader.js:571-573 | Extending the state is transitive. |
| SiState.ReadLinesSnoc | js/si-reader.js:571-573 | Reading one more line is reading the lines and then that line. |
| SiState.ReadLinesStops | js/si-reader.js:571-573 | After a failing line, no further line is read. |
| SiState.ReadLinesFailure | js/si-reader.js:571-573 | Reading lines never fails with the wrong format: only with invalid data or the TypeError. |
| SiState.ReadBlankLines | js/si-reader.js:571-577 | Blank lines change nothing. In particular, data with only blank lines after the header has no competitors. |
| SiReader.Reader.ReadLines | js/si-reader.js:571-573 | The loop over the lines updates the fields to ReadLines of the old state, or fails with its error. |
| SiReader.ReadEventDataSpec | js/si-reader.js:560-577 | The format is wrong exactly when no delimiter or no layout is found. A successful read keeps the invariant, has competitors and has at least one pair. |
| SiReader.LaidOutNotBlank | js/si-reader.js:373-378 | A line in which a layout is identified holds a control code. So it is not blank, and readLine does not skip it. |
| SiReader.DetectedLinesReadCompetitors | js/si-reader.js:560-577 | Once the delimiter and the layout are found, reading the lines either fails or reads a competitor. Then the whole read is the state of the lines read, so the final check for no competitors never fails by itself. |
| SiReader.Reader.ReadData | js/si-reader.js:560-577 | Reading the data sets the fields to ReadEventData of the text, or fails with its error. |
| SiCourses.GroupSpec | js/si-reader.js:411-426 | Each key's group lists exactly the values paired with it, is not empty, and has no repeats when the pairs are distinct. |
| SiCourses.KeyOrderSpec | js/si-reader.js:546 | The key order lists each group key once and nothing else. |
| SiCourses.MapsSpec | js/si-reader.js:406-429 | The two maps are linked both ways. Each course lists exactly the classes paired with it and each class exactly the courses paired with it, and no list is empty. |
| SiReader.Reader.GetMapsBetweenClassesAndCourses | js/si-reader.js:406-429 | The loop over the pairs builds exactly the two maps and the course order. |
| SiCourses.ClosedPairs | js/si-reader.js:468-505 | A set of courses and a set of classes are closed under the maps exactly when every pair has both names inside or both outside. |
| SiCourses.ComponentExists | js/si-reader.js:468-505 | The component of a course, the least closed sets holding it, exists. |
| SiCourses.ComponentUnique | js/si-reader.js:468-505 | The component of a course is unique. |
| SiCourses.ComponentsDisjoint | js/si-reader.js:528-554 | The components of two courses, one outside the other's, share no course and no class. |
| SiCourses.ComponentOfMember | js/si-reader.js:545-551 | A course in another's component has the same component. |
| SiLinking.PushNew | js/si-reader.js:481-486 | Keeps `todo` as a prefix. Adds each name that is neither queued nor already related, and only names given. Nothing is repeated. |
| SiLinking.Drain | js/si-reader.js:479-490 | Moves the whole queue onto the related list and queues every name it leads to that is not already related or queued. |
| SiLinking.LinkedNames | js/si-reader.js:470-505 | The two nested worklist loops give the courses and the classes of the component of the initial course, each once, the initial course first. |
| SiReader.AddAll | js/si-reader.js:507-509 | The done set gains exactly the related course names. |
| SiReader.SetCourses | js/si-reader.js:515-517 | Every class of the course points at it. |
| SiReader.Reader.CreateCourseFromLinkedClassesAndCourses | js/si-reader.js:468-520 | The new course is named after the initial course and carries its details and the classes of its component, each once. Each of those classes points at it, other classes are unchanged, and the done set gains the component's courses. |
| SiReader.MapOfClasses | js/si-reader.js:537-543 | The map holds each class under its own name and nothing else. |
| SiReader.Reader.VisitCourse | js/si-reader.js:545-551 | A course already done is skipped: the courses and the done set are unchanged. Otherwise one course named after that key is appended for its component, and that key is the first key of its component. The done set stays the union of the components covered. |
| SiReader.Reader.CreateCourses | js/si-reader.js:545-553 | The loop over the course names covers every name. Each course resolves to its component, no two courses share a component, and each class of a course points back at it. Each course is named after the first key of its component, in the key order of the course map, and the courses come in that order. |
| SiReader.CoursesCover | js/si-reader.js:545-553 | Courses covering every course name of the pairs are resolved against the reader state. |
| SiReader.EveryClassOnCourse | js/si-reader.js:545-551 | With resolved courses, every class points at one of the courses. |
| SiReader.Reader.ResolveCourses | js/si-reader.js:528-554 | The courses are one per component of the class–course graph, each with its classes pointing back at it. Each is named after the first course name of its component in key order, with that course's details, and the courses come in key order. |
| SiReader.Reader.DetermineCourses | js/si-reader.js:528-554 | Every course name is in exactly one course, which holds exactly the classes of its component. The course is named after the first course name of its component in key order and has that course's details. The courses come in key order. Every class points at its course. |
| SiReader.KeyedMeans | js/si-reader.js:545-551 | Courses built in key order are each named after the first key of their component and come in strictly increasing key order. |
| SiReader.ResolvedCoursesNamedFirst | js/si-reader.js:511-512 | Resolved courses are named after the first course name of their component, carry that course's length, climb and controls, and come in key order. |
| SiReader.NewCourseFirst | js/si-reader.js:545-551 | A key not yet covered, after keys that all are, is the first key of its component. |
| SiSort.StrLessIrreflexive | js/si-reader.js:437 | No name sorts before itself. |
| SiSort.StrLessTransitive | js/si-reader.js:437 | The string order is transitive. |
| SiSort.StrLessTotal | js/si-reader.js:437 | Of two different names, one sorts before the other. |
| SiSort.Insert | js/si-reader.js:437 | Inserting a new name into a sorted list keeps it sorted and adds exactly that name. |
| SiSort.SortedUnique | js/si-reader.js:437 | Two sorted lists with the same names are equal, so the sorted class list is determined. |
| SiReader.SortNames | js/si-reader.js:436-437 | Returns the class names, each once, in sorted order. |
| SiReader.MakeAgeClass | js/si-reader.js:439-440 | A new class with the entry's name, number of controls and competitors. It has no course and is not dubious. |
| SiReader.MakeAgeClasses | js/si-reader.js:438-441 | One new class per name, in order, each made from its entry. |
| SiReader.MakeCompetitors | js/si-reader.js:355-360 | One new competitor per record, in order, each carrying its record's order, name, club, start time, times, completed and non-competitive flags, and not repaired. |
| SiReader.Reader.CreateAgeClasses | js/si-reader.js:435-442 | The classes are the reader's classes, sorted by name, each carrying its number of controls and its competitors in reading order. |
| SiReader.Reader.BuildEvent | js/si-reader.js:579-581 | The event's classes are made from the state. Its courses are resolved against it: one per component, each named after the first course name of its component in key order and carrying its details, in key order. Every class is on a course and none is dubious. |
| SiReader.Reader.ParseEventData | js/si-reader.js:560-582 | Fails with the error of ReadEventData. When that succeeds, it returns the event built from the state it reads, with its courses resolved and named as in BuildEvent. |
| SiReader.ParseSiEventData | js/si-reader.js:591-594 | A reader over the data parses it: the result fails as ReadEventData does, or is the event built from its state, with its courses resolved and named as in BuildEvent. |

## Left out

- The helpers `parseTime`, `parseCourseLength`, `parseCourseClimb` and
  `Competitor.completed()` are defined outside the core. Here they are parameters, in the
  `Helpers` datatype of functions.
- `normaliseLineEndings` is called before the reader and is not part of this model. The
  text the reader gets is taken as already normalised.
- The error messages and the line numbers in them are left out. Only the error kinds
  are kept.
- Localisation and every caller of the core are left out, as are the comparison, ranking
  and chart code.
- SiFormat.Cell: a cell past the end of a row is `undefined` in JavaScript and reads as
  the empty string here. The model tells the two apart wherever the source's behaviour
  does: a fallback column is taken only for a cell that is there and blank
  (`SiRows.BlankCell`), a missing placing counts as non-numeric, a missing placing with
  forename and surname columns raises the TypeError (`SiRows.PlacingUndefined`), and a
  missing course is named "undefined" (`SiRows.CourseName`). Only the course and
  control columns can lie past the end of a row of the minimum length
  (`SiFormat.ColumnLayout`).
- SiRows.StartTime: for a start column past the end of the row, the `parseTime`
  parameter receives "" where the source passes `undefined`. The same holds for the
  finish column in `SiRows.TotalTime`.
- SiRows.CourseDetailsOf: a control code past the end of the row is stored as "" where
  the source stores `undefined`, and the length and climb parsers receive "" for a
  missing column.
- SiRows.CourseName: a row with no course column and a row whose course is the text
  "undefined" share one course, as they do under the source's `d3.map` keys. The source
  keeps two class–course pairs for them where the model keeps one; the courses built
  are the same.
- SiReader.Reader.ReadLine: the TypeError stands for the exception the source raises
  when it takes the length of an undefined placing. Its message is not modelled.
- SiSort.StrLess: orders strings by code point. JavaScript's default sort compares
  UTF-16 code units, and the two orders differ only for characters outside the Basic
  Multilingual Plane.
- Keys of `d3.map` are taken in insertion order. The course names are visited in the
  order in which each first appears in a pair. For names that look like integers, the
  object key order JavaScript uses differs from this.
- SiReader.Reader.CreateCourseFromLinkedClassesAndCourses: states the classes of the new
  course as a set, each once. The source lists them in the order its worklist search
  reaches them (`SiLinking.LinkedNames`), and that order is not stated.
- SiReader.Reader.DetermineCourses: requires the reader state invariant that every read
  establishes (`SiReader.ReadEventDataSpec`). The source calls it only after reading.
- Competitor objects are made when the classes are built, from records kept while
  reading. In the source the objects are made while reading. Their fields are the same.
- The model classes `Competitor`, `AgeClass` and `Course` keep only the fields the core
  reads or writes. `Event` is a value.
- In `createCourseFromLinkedClassesAndCourses`, `doneCourseNames` is a set the caller
  passes and the method adds to. Here the method returns the new set.
- Some loops of the source are split into their own methods:
  - the body of the event loop (`RepairClassAt`, `RepairClassMarks`);
  - the body of the class loop (`RepairCompetitorAt`);
  - the trial loop (`RunTrials`);
  - the loop over lines (`ReadNextLine`);
  - the loop over course names (`VisitCourse`);
  - building the classes (`MakeAgeClasses`);
  - inside `addCompetitor` (`ReadCompetitor`, `ReadName`);
  - the two loops of `identifyFormatVariation` (`SkipTrailingBlanks`, `StepBackToFirstControl`).

  Each of these methods does what the source's loop body does.
- After a repair fails, the source lets the exception propagate. Here the repair returns
  its failure, and the contracts state what has been repaired by then. Callers that
  catch the exception are not part of this model.
- JavaScript numbers are modelled as integers of seconds (`Time.Num`). Fractional
  seconds are left out.
