# Smart registration timetable engine, modelled in Dafny

This project models the two pieces of logic in the Smart Registration browser
extension and its portal prototype.

The first piece is the popup's timetable search and ranking engine
(`extension/popup/popup.js`):

- Times written as `"HH:MM"` are encoded as `H*100+M`.
- A section passes the day/time filter only when every one of its slots does.
- Selected, open, fitting sections are grouped by course, and selected courses
  with no candidate are reported as excluded.
- Generation either runs at once or waits for the user to confirm the exclusions.
- The generation pipeline runs in order:
  - counts combinations and, over the cap of 50000, cuts every group to a prefix
    of 8, 7, …, 3 sections;
  - enumerates choices depth first, up to 50000;
  - collects at most 100 conflict-free schedules;
  - scores each by the number of distinct days;
  - keeps the ten best after a stable sort, highest score first.
- The day selection never becomes empty, and course selection toggles.

The second piece is the prototype portal's enrollment cart (`prototype/app.js`):

- Enrolling in a section that is already in the cart removes it.
- Enrolling in any other open section replaces the course's earlier section.
- Removal filters out a section.
- The cart keeps at most one entry per course.

Modules follow the program's structure:

| module | contents |
|---|---|
| `SeqUtil` | slices, `splice(i, 1)`, `Set.delete` over duplicate-free sequences |
| `TimeCode` | time encoding and parsing |
| `Sections` | the section record, the filter record and the section filter |
| `Grouping` | grouping by course and exclusion detection |
| `Combinations` | product, truncation and bounded enumeration |
| `Conflicts` | overlap and conflict detection |
| `Ranking` | day count, score, collection of valid schedules, stable sort, top ten |
| `Engine` | `processGeneration`, the selection toggles and the popup session |
| `Cart` | the enrollment cart |

The loops that build state are methods with loop invariants, proved against
reference functions: the grouping, exclusion, counting, collection and enumeration
loops. The state updates of `handleEnroll`, `removeFromCart` and the popup's
handlers are methods of the two classes below. Read-only scans and the library
calls that iterate are written as functions:

- the early-exit `for…of` of `sectionFitsTimeFilter` is the recursive `Sections.SlotsFit`;
- `scannedData.filter` is the recursive `Sections.Qualifying`;
- `scannedData.find` is `Grouping.FirstSectionOf`, used by `Grouping.CourseName`;
- the cart's `findIndex` and the catalog's `find` are the recursive `Cart.FindIndex`;
- the nested `forEach` of `countDays` is the set comprehension `Ranking.DaysOf`;
- `.sort` is the insertion sort `Ranking.SortByScore`, stable as the source's sort is.

The mutable state lives in two classes:

- `Engine.Session` holds `scannedData`, the two selection sets, `excludedCourses`
  and `filteredScheduleData`.
- `Cart.EnrollmentCart` holds the cart and the catalog.

JavaScript `Set`s are duplicate-free sequences in insertion order. The order
matters because `[...selectedDays]` and `[...selectedCourses]` are iterated.

## Model

| member | source | states |
|---|---|---|
| TimeCode.EncodePreservesOrder | extension/popup/popup.js:157-158 | for zero-padded times with minutes below 60, the encoded integers compare exactly as the times of day do, and equal codes mean equal times |
| TimeCode.DecodeEncode | extension/popup/popup.js:157-158 | the encoding loses nothing: hour and minute are recovered by division by 100 |
| TimeCode.DeleteFirstColon | extension/popup/popup.js:157-158 | `replace(':', '')` deletes the first colon and keeps the characters before and after it in order; text without a colon is unchanged |
| TimeCode.ParseTimeText | extension/popup/popup.js:157-158 | parsing the `"HH:MM"` text of a well-formed time (colon deleted, decimal digits read) yields `H*100+M` |
| TimeCode.EncodingExamples | extension/popup/popup.js:157-158 | `"09:00"` parses to 900 and `"14:30"` to 1430 |
| Sections.SectionFitsTimeFilter | extension/popup/popup.js:156-173 | a section passes iff every slot is on a selected day, starts no earlier than the window start and ends no later than the window end |
| Sections.SlotsFit | extension/popup/popup.js:160-171 | the early-exit scan over slots is true iff every slot passes |
| Sections.EmptyScheduleFits | extension/popup/popup.js:156-173 | a section with no slots passes, whatever the filter |
| Sections.FitsBoundaryCases | extension/popup/popup.js:156-173 | one slot on an unselected day rejects the whole section |
| Sections.Qualifying | extension/popup/popup.js:189-193 | the filtered list holds only selected, open, fitting sections of the scan, and every such scanned section is in it |
| Sections.QualifyingAppend | extension/popup/popup.js:189-193 | the filter keeps a single section exactly when it qualifies, and filtering two pieces of the scan joins their results, so kept sections stay in scan order |
| Grouping.GroupIndex | extension/popup/popup.js:197 | the lookup is negative exactly when no group has the course code, and otherwise finds that group |
| Grouping.SectionsOfCode | extension/popup/popup.js:196-202 | every section collected for a course has that course's code |
| Grouping.GroupedCorrect | extension/popup/popup.js:196-202 | grouping gives distinct keys in first-appearance order; each group holds exactly its course's filtered sections in scan order and is non-empty; a code has a group iff some filtered section has it |
| Grouping.GroupByCourse | extension/popup/popup.js:196-202 | the `forEach`/`push` loop builds exactly that grouping |
| Grouping.FirstSectionOf | extension/popup/popup.js:197 | gives the position of a course's first section, or the list length when there is none |
| Grouping.CourseName | extension/popup/popup.js:207 | the shown name is the first scanned section's name for the code; the code itself when that name is empty or no scanned section has the code |
| Grouping.ExcludedCorrect | extension/popup/popup.js:205-210 | a selected code is excluded iff it has no group or an empty one, named by the first scanned section's name or, failing that, the code; with a duplicate-free selection no code is listed twice |
| Grouping.ExcludedAppend | extension/popup/popup.js:205-210 | the exclusions of two pieces of the selection are joined, so exclusions come in selection order |
| Grouping.ExcludedSingle | extension/popup/popup.js:205-210 | a single selected course is listed exactly when it has no candidates, with its shown name |
| Grouping.FindExcluded | extension/popup/popup.js:205-210 | the loop over the selected codes pushes exactly those exclusions |
| Grouping.QualifyingHasCourse | extension/popup/popup.js:189-193 | the filtered list has a section of a course iff the scan has a selected, open, fitting section of it |
| Grouping.GroupCandidates | extension/popup/popup.js:189-210 | filtering and grouping give one non-empty group per course that has a qualifying section, holding exactly those sections; a selected course is excluded iff it has none |
| Combinations.ProductZero | extension/popup/popup.js:256-257 | the product of group sizes is zero iff some group is empty |
| Combinations.CountCombinations | extension/popup/popup.js:256-257 | the `totalCombinations *= group.length` loop computes the product of the group sizes |
| Combinations.TruncateIsPrefix | extension/popup/popup.js:268 | each cut group is the prefix of its original of length `min(size, k)`; empty groups stay empty and others stay non-empty |
| Combinations.TruncateProduct | extension/popup/popup.js:267-269 | cutting never increases the number of combinations |
| Combinations.CeilingFrom | extension/popup/popup.js:265-273 | counting down from k, the loop settles on the first k whose cut product fits the cap, and on 3 if none does; every larger k is over the cap |
| Combinations.LimitGroups | extension/popup/popup.js:262-273 | under the cap the groups are unchanged; over it they are cut to the largest k in 8..3 that fits, or to 3 |
| Combinations.CombosCount | extension/popup/popup.js:311-332 | the full enumeration has exactly the product of the group sizes entries |
| Combinations.CombosAreChoices | extension/popup/popup.js:311-332 | an enumerated combination is exactly a sequence with one element drawn from each group, in group order |
| Combinations.CombosAt | extension/popup/popup.js:316-328 | entry `q*P+r` is the q-th item of the first group followed by entry r of the rest; this is lexicographic depth-first order |
| Combinations.Generate | extension/popup/popup.js:316-328 | the recursive `generate` appends to the result, in order, the leaves below `current` until the limit is reached |
| Combinations.GenerateCombinationsLimited | extension/popup/popup.js:311-332 | no groups gives `[[]]`; otherwise the result is the first `limit` combinations in depth-first order, `min(limit, product)` of them |
| Conflicts.TimesOverlapMeansSharedInstant | extension/popup/popup.js:353-357 | for proper ranges, `start1 < end2 && start2 < end1` holds iff the ranges share an instant; touching ranges do not overlap |
| Conflicts.SectionsOverlap | extension/popup/popup.js:344-351 | the nested scan is true iff some slot of one section and some slot of the other are on the same day at overlapping times |
| Conflicts.HasConflict | extension/popup/popup.js:335-342 | the pair scan is true iff some pair i < j of members overlaps; fewer than two members never conflict |
| Conflicts.OverlappingSymmetric | extension/popup/popup.js:344-351 | section overlap does not depend on argument order |
| Conflicts.ConflictFreeMeansPairwiseApart | extension/popup/popup.js:335-351 | in a conflict-free schedule no two different members have clashing slots, in either order |
| Conflicts.WednesdayExamples | extension/popup/popup.js:335-357 | Wednesday 09:00-10:00 conflicts with 09:30-10:30 and not with 10:00-11:00 |
| Ranking.CountDaysWithinFilter | extension/popup/popup.js:359-363 | the distinct days of a schedule of fitting sections are among the selected days, so the day count is at most their number |
| Ranking.FewerDaysScoreHigher | extension/popup/popup.js:369-374 | a schedule on fewer days always scores strictly higher, whatever the preferred gap |
| Ranking.InsertSorted | extension/popup/popup.js:300 | inserting after every entry with at least the same score keeps the list highest-first |
| Ranking.InsertMultiset | extension/popup/popup.js:300 | insertion adds exactly the one entry |
| Ranking.InsertStable | extension/popup/popup.js:300 | insertion puts the new entry after every earlier entry with the same score |
| Ranking.SortByScoreCorrect | extension/popup/popup.js:300 | the sort is highest-first, a permutation of its input, and stable: for every score, the entries with that score keep their order |
| Ranking.TopRankedCorrect | extension/popup/popup.js:295-300 | the output has `min(10, valid)` entries, sorted, each a valid schedule with its own day count, gap 0 and score, and none scores below a valid schedule it left out |
| Ranking.NonConflictingMembers | extension/popup/popup.js:284-290 | the conflict-free combinations are exactly the combinations without a conflict |
| Ranking.NonConflictingPrefix | extension/popup/popup.js:284-290 | the conflict-free schedules of a prefix of the combinations are a prefix of those of all of them |
| Ranking.CollectValid | extension/popup/popup.js:284-290 | the loop keeps the first 100 conflict-free combinations in enumeration order, and only conflict-free combinations |
| Engine.GetFiltersParsesWindow | extension/popup/popup.js:145-158 | the window bounds are what parsing the form's `"HH:MM"` texts yields |
| Engine.LimitedShape | extension/popup/popup.js:262-273 | limiting keeps the number of groups, cuts each to a prefix and keeps empty groups empty and the others non-empty |
| Engine.CandidatesEmpty | extension/popup/popup.js:276-281 | no combination is generated iff some group is empty |
| Engine.CandidatesAreChoices | extension/popup/popup.js:276 | every generated combination takes one section from each original group, in group order |
| Engine.OutcomeCorrect | extension/popup/popup.js:247-308 | "no courses" iff there are no groups; "no combinations" iff some group is empty; "no conflict-free schedule" only when every generated combination conflicts; otherwise 1 to 10 results, highest score first, each a conflict-free choice of one section per group with its day count and score |
| Engine.OutcomeNoConflictFree | extension/popup/popup.js:284-293 | "no conflict-free schedule" happens iff there are groups, none is empty, and every generated combination has a conflict |
| Engine.ChoiceCodes | extension/popup/popup.js:196-202 | a choice of one section per group takes its i-th member from the i-th group's course, so no course appears twice and the courses are exactly the group keys |
| Engine.ChoiceOnePerCourse | extension/popup/popup.js:189-202 | such a choice over the scan's groups holds exactly one section of each selected course that has a qualifying section, and of no other course |
| Engine.GeneratedOnePerCourse | extension/popup/popup.js:189-308 | every generated combination and every ranked schedule holds exactly one section of each selected course that has a qualifying section, and of no other course |
| Engine.ProcessGeneration | extension/popup/popup.js:247-308 | the pipeline method reaches exactly that outcome |
| Engine.ToggledDays | extension/popup/popup.js:66-77 | a selected day is dropped only while other days remain selected, and the rest keep their order; an unselected day is appended |
| Engine.ToggledCourses | extension/popup/popup.js:134-142 | a selected course is spliced out at its position and the rest keep their insertion order; an unselected one is appended |
| Engine.ToggledKeepsShape | extension/popup/popup.js:66-77 | toggles keep both selections duplicate-free and the day selection non-empty |
| Engine.ToggleDayTwice | extension/popup/popup.js:66-77 | toggling a day twice gives back the same set of days |
| Engine.ToggleCourseTwice | extension/popup/popup.js:134-142 | toggling a course twice gives back the same set of courses |
| Engine.NoExclusionMeansCombinations | extension/popup/popup.js:204-220 | when no selected course is excluded, generation from the groups always gets past the "no courses" and "no combinations" outcomes |
| Engine.Session.constructor | extension/popup/popup.js:6-10 | the initial session has no course selected, Monday to Friday selected, no exclusions and nothing pending |
| Engine.Session.ReceiveScan | extension/popup/popup.js:87-88 | a scan replaces the scanned data and keeps the selections |
| Engine.Session.ToggleDay | extension/popup/popup.js:66-77 | the day selection becomes the toggled one, stays non-empty and duplicate-free, and nothing else changes |
| Engine.Session.ToggleCourse | extension/popup/popup.js:134-142 | the course selection becomes the toggled one and nothing else changes |
| Engine.Session.GenerateTimetables | extension/popup/popup.js:176-226 | with nothing selected, nothing changes; otherwise the exclusions are recomputed; if there are any, the groups and filters are kept and nothing is generated; if not, the generation outcome comes from exactly those groups and filters |
| Engine.Session.ContinueWithExclusions | extension/popup/popup.js:240-244 | with retained groups, the outcome is the generation from exactly those groups and filters; without, nothing happens |
| Cart.FindIndex | prototype/app.js:120 | `findIndex` gives the first index satisfying the test, or -1 when none does |
| Cart.SectionIndex | prototype/app.js:120 | finds the first cart entry of the section, or -1 |
| Cart.SectionSchedule | prototype/app.js:145-150 | gives the schedule of the first matching section of the first course with the code, and no meetings when the course or the section is missing |
| Cart.DropCourse | prototype/app.js:126-129 | exactly the first entry of the course is spliced out and every other entry kept in order; a cart without the course is unchanged; under one entry per course, no entry of the course remains |
| Cart.RemoveAtFacts | prototype/app.js:123-128 | splicing one entry out keeps only cart entries, keeps one entry per course, and leaves no other entry of that course |
| Cart.EnrollClosedUnchanged | prototype/app.js:118 | a section that is not open leaves the cart unchanged |
| Cart.EnrollTogglesOff | prototype/app.js:120-124 | a section already in the cart has its first entry removed and nothing added |
| Cart.EnrollAdds | prototype/app.js:125-136 | otherwise the course's first entry, if any, is removed, and the section is appended last with its catalog schedule |
| Cart.EnrollKeepsOnePerCourse | prototype/app.js:117-136 | enrolling keeps at most one entry per course |
| Cart.EnrollShape | prototype/app.js:117-136 | the length changes by at most one, and untouched entries keep their relative order |
| Cart.EnrollTwice | prototype/app.js:117-136 | enrolling twice in a new open section leaves the cart without the course's earlier entry and without the section |
| Cart.WithoutSection | prototype/app.js:253-254 | the filtered cart is no longer, and holds exactly the entries of other sections |
| Cart.WithoutSectionAppend | prototype/app.js:254 | filtering works piece by piece, so it keeps the relative order of what it keeps |
| Cart.WithoutSectionAbsent | prototype/app.js:254 | removing a section that is not in the cart changes nothing |
| Cart.WithoutSectionIdempotent | prototype/app.js:254 | removing a section twice is the same as removing it once |
| Cart.WithoutSectionKeepsOnePerCourse | prototype/app.js:253-254 | removal keeps at most one entry per course |
| Cart.EnrollmentCart.HandleEnroll | prototype/app.js:117-141 | the splice/push update leaves the cart as the enrollment rule says, one entry per course |
| Cart.EnrollmentCart.RemoveFromCart | prototype/app.js:253-254 | the cart is reassigned to its filtered copy, one entry per course |
| SeqUtil.RemoveAt | prototype/app.js:123 | `splice(i, 1)` removes exactly the entry at i and shifts the later entries down by one |
| SeqUtil.Without | extension/popup/popup.js:70 | deleting from a set removes exactly that element; in a duplicate-free sequence it splices out its one occurrence, so the others keep their order and the length drops by one; an absent element changes nothing |

## Left out

- DOM, rendering and I/O are not modelled. This covers `updateStatus`, `showStep`, `displayCourseSelection`, `showExclusionWarning`, `displayResults`, `viewTimetable`, `createTimetableHTML` and the prototype's rendering, search, toast and modal functions.
- `scanCourses` and `applySchedule` use asynchronous `chrome.tabs` messaging and timers; the scan result arrives as a parameter (`Engine.Session.constructor`, `Engine.Session.ReceiveScan`). `extension/content/content.js` is not part of this model.
- Engine.Session.constructor: `scannedData` starts as `null` before the first scan; the model starts from a scan result, so generating before any scan is not modelled.
- Engine.GetFilters: the time inputs are taken as clock times, not raw text. Text that is not a zero-padded `"HH:MM"`, and the `NaN` that `parseInt` then yields (and parsing `maxDays` from text), are not modelled.
- Slot times are taken already split into start and end codes. The `split(' - ')` of the time text in `timesOverlap` and `sectionFitsTimeFilter` is not modelled; `TimeCode.ParseTimeText` covers the per-time parse.
- `courseGroups` is a plain object: `Object.values` lists integer-like keys first in ascending order, then the others in insertion order. The model keeps insertion order for every key, which matches only when no course code looks like an array index.
- The `try`/`catch` around generation is not modelled. The model has no step that throws; see the next line for the one way the source can throw.
- Course codes are assumed not to name `Object.prototype` properties such as `"constructor"`, `"toString"` or `"__proto__"`. For such a code, `courseGroups[code]` finds the inherited property, so the grouping `push` throws and the source reports an error. The model groups that section like any other.
- `generateCombinationsLimited` shares one `current` array through `push`/`pop`; the model passes `current` by value, which yields the same copies pushed.
- `Engine.Session.GenerateTimetables` returns the outcome for display instead of writing status messages.
- Cart.EnrollmentCart.constructor: the catalog (`coursesData`) and the initial cart are declared outside the shown files; the model starts from an empty cart over a given catalog.
- `confirmEnrollment` only shows a toast and is not modelled.
