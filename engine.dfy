/** The popup's generation pipeline and its session state: the day and course
    selections, the exclusion list and the generation held back for confirmation. */
module Engine {
  import opened SeqUtil
  import opened TimeCode
  import opened Sections
  import opened Grouping
  import opened Combinations
  import opened Conflicts
  import opened Ranking

  datatype Option<T> = None | Some(value: T)

  /** How one run of `processGeneration` ends: one of its three error messages, or
      the ranked list it displays. */
  datatype Generation =
    | NoCourses
    | NoCombinations
    | NoConflictFree
    | Ranked(results: seq<RankedResult>)

  /** The candidate groups and filters kept while the exclusion warning is shown. */
  datatype Pending = Pending(groups: seq<Group>, filters: Filters)

  /** What pressing "generate" leads to. */
  datatype Response =
    | NothingSelected
    | MustConfirm(excluded: seq<ExcludedCourse>)
    | Generated(outcome: Generation)

  /** The values of the filter form other than the days: the time window and the
      preferred number of days and gap. */
  datatype Preferences = Preferences(startTime: ClockTime, endTime: ClockTime, maxDays: int, maxGap: int)

  /** `getFilters`: the selected days in selection order and the window bounds as the
      filter compares them. */
  function GetFilters(days: seq<string>, prefs: Preferences): (f: Filters)
    ensures f.days == days && f.maxDays == prefs.maxDays && f.maxGap == prefs.maxGap
  {
    Filters(days, Encode(prefs.startTime), Encode(prefs.endTime), prefs.maxDays, prefs.maxGap)
  }

  /** The window bounds are what parsing the form's "HH:MM" texts yields. */
  lemma GetFiltersParsesWindow(days: seq<string>, prefs: Preferences)
    requires WellFormed(prefs.startTime) && WellFormed(prefs.endTime)
    ensures IsDecimal(DeleteFirstColon(TimeText(prefs.startTime)))
    ensures IsDecimal(DeleteFirstColon(TimeText(prefs.endTime)))
    ensures GetFilters(days, prefs).startLimit == ParseTime(TimeText(prefs.startTime))
    ensures GetFilters(days, prefs).endLimit == ParseTime(TimeText(prefs.endTime))
  {
    ParseTimeText(prefs.startTime);
    ParseTimeText(prefs.endTime);
  }

  /** `Object.values(courseGroups)`: the section lists, in group order. */
  function SectionLists(groups: seq<Group>): (r: seq<seq<Section>>)
    ensures |r| == |groups|
    ensures forall i :: 0 <= i < |groups| ==> r[i] == groups[i].sections
  {
    seq(|groups|, i requires 0 <= i < |groups| => groups[i].sections)
  }

  /** The combinations the pipeline enumerates, capped. */
  function Candidates(lists: seq<seq<Section>>): seq<seq<Section>> {
    Take(Combos(Limited(lists)), MaxCombinations)
  }

  /** Reference definition of `processGeneration`'s outcome. */
  ghost function Outcome(groups: seq<Group>, filters: Filters): Generation {
    var lists := SectionLists(groups);
    if lists == [] then NoCourses
    else
      var candidates := Candidates(lists);
      if candidates == [] then NoCombinations
      else
        var valid := Take(NonConflicting(candidates), MaxValid);
        if valid == [] then NoConflictFree else Ranked(TopRanked(valid, filters))
  }

  /** Limiting keeps every group's length positive or zero as it was, and yields a
      prefix of each group. */
  lemma LimitedShape(lists: seq<seq<Section>>)
    ensures |Limited(lists)| == |lists|
    ensures forall i :: 0 <= i < |lists| ==> Limited(lists)[i] <= lists[i]
    ensures (exists i :: 0 <= i < |lists| && Limited(lists)[i] == []) <==> exists i :: 0 <= i < |lists| && lists[i] == []
  {
    if Product(lists) > MaxCombinations {
      TruncateIsPrefix(lists, Ceiling(lists));
    }
  }

  /** There are candidates exactly when no group is empty. */
  lemma CandidatesEmpty(lists: seq<seq<Section>>)
    ensures Candidates(lists) == [] <==> exists i :: 0 <= i < |lists| && lists[i] == []
  {
    LimitedShape(lists);
    CombosCount(Limited(lists));
    ProductZero(Limited(lists));
  }

  /** Every candidate takes one section from each group, in group order. */
  lemma CandidatesAreChoices(lists: seq<seq<Section>>, c: seq<Section>)
    requires c in Candidates(lists)
    ensures |c| == |lists| && forall i :: 0 <= i < |c| ==> c[i] in lists[i]
  {
    var limited := Limited(lists);
    CombosAreChoices(limited, c);
    LimitedShape(lists);
    forall i | 0 <= i < |c| ensures c[i] in lists[i] {
      assert c[i] in limited[i];
    }
  }

  /** What `processGeneration` promises: the error outcomes happen exactly when they
      should, and a ranked outcome lists at most ten conflict-free schedules, one
      section from each group, best score first, each at least as good as any valid
      schedule left out. */
  lemma OutcomeCorrect(groups: seq<Group>, filters: Filters)
    ensures Outcome(groups, filters) == NoCourses <==> groups == []
    ensures Outcome(groups, filters) == NoCombinations <==>
      groups != [] && exists i :: 0 <= i < |groups| && groups[i].sections == []
    ensures Outcome(groups, filters) == NoConflictFree ==>
      forall c :: c in Candidates(SectionLists(groups)) ==> Conflicting(c)
    ensures Outcome(groups, filters).Ranked? ==>
      var results := Outcome(groups, filters).results;
      && 1 <= |results| <= MaxResults
      && SortedByScore(results)
      && forall k :: 0 <= k < |results| ==>
        && |results[k].schedule| == |groups|
        && (forall i :: 0 <= i < |groups| ==> results[k].schedule[i] in groups[i].sections)
        && !Conflicting(results[k].schedule)
        && results[k] == Rank(results[k].schedule, filters)
  {
    var lists := SectionLists(groups);
    CandidatesEmpty(lists);
    if lists != [] {
      var candidates := Candidates(lists);
      var valid := Take(NonConflicting(candidates), MaxValid);
      NonConflictingMembers(candidates);
      if valid == [] {
        assert NonConflicting(candidates) == [];
      } else if candidates != [] {
        TopRankedCorrect(valid, filters);
        var results := TopRanked(valid, filters);
        forall k | 0 <= k < |results|
          ensures |results[k].schedule| == |groups|
          ensures forall i :: 0 <= i < |groups| ==> results[k].schedule[i] in groups[i].sections
          ensures !Conflicting(results[k].schedule)
        {
          var c := results[k].schedule;
          assert c in NonConflicting(candidates);
          CandidatesAreChoices(lists, c);
        }
      }
    }
  }

  /** The "no conflict-free schedule" outcome happens exactly when there are groups,
      none of them empty, and every generated combination has a conflict. */
  lemma OutcomeNoConflictFree(groups: seq<Group>, filters: Filters)
    ensures Outcome(groups, filters) == NoConflictFree <==>
      && groups != []
      && (forall i :: 0 <= i < |groups| ==> groups[i].sections != [])
      && forall c :: c in Candidates(SectionLists(groups)) ==> Conflicting(c)
  {
    var lists := SectionLists(groups);
    var candidates := Candidates(lists);
    CandidatesEmpty(lists);
    assert (forall i :: 0 <= i < |groups| ==> groups[i].sections != []) <==> candidates != [];
    if lists != [] && candidates != [] {
      var nc := NonConflicting(candidates);
      NonConflictingMembers(candidates);
      assert nc == [] <==> forall c :: c in candidates ==> Conflicting(c) by {
        if nc != [] {
          assert nc[0] in nc;
        }
      }
      assert Take(nc, MaxValid) == [] <==> nc == [];
    }
  }

  // ---- one section per course -----------------------------------------------

  /** The selected courses with a qualifying section: those that get a group. */
  ghost function QualifyingCourses(scanned: seq<Section>, selected: seq<string>, filters: Filters): set<string> {
    set d | d in selected && HasQualifying(scanned, selected, filters, d)
  }

  /** A schedule takes exactly one section of every selected course that has a
      qualifying section, and of no other course. */
  ghost predicate OneSectionPerCourse(schedule: seq<Section>, scanned: seq<Section>, selected: seq<string>, filters: Filters) {
    && (forall i, j :: 0 <= i < j < |schedule| ==> schedule[i].courseCode != schedule[j].courseCode)
    && (set i | 0 <= i < |schedule| :: schedule[i].courseCode) == QualifyingCourses(scanned, selected, filters)
  }

  /** A choice of one section per group takes the i-th member from the i-th group's
      course, so its courses are distinct and are exactly the group keys. */
  lemma ChoiceCodes(filtered: seq<Section>, groups: seq<Group>, schedule: seq<Section>)
    requires GroupsOf(filtered, groups)
    requires |schedule| == |groups| && forall i :: 0 <= i < |schedule| ==> schedule[i] in groups[i].sections
    ensures forall i :: 0 <= i < |schedule| ==> schedule[i].courseCode == groups[i].code
    ensures forall i, j :: 0 <= i < j < |schedule| ==> schedule[i].courseCode != schedule[j].courseCode
    ensures forall d :: d in (set i | 0 <= i < |schedule| :: schedule[i].courseCode) <==> GroupIndex(groups, d) >= 0
  {
    forall i | 0 <= i < |schedule| ensures schedule[i].courseCode == groups[i].code {
      SectionsOfCode(filtered, groups[i].code);
    }
    forall d | GroupIndex(groups, d) >= 0 ensures d in (set i | 0 <= i < |schedule| :: schedule[i].courseCode) {
      var k := GroupIndex(groups, d);
      assert schedule[k].courseCode == d;
    }
  }

  /** Drawing one section from each group of the scan's candidates gives a schedule
      whose i-th member belongs to the i-th group's course, one per course. */
  lemma ChoiceOnePerCourse(scanned: seq<Section>, selected: seq<string>, filters: Filters, schedule: seq<Section>)
    requires var groups := Grouped(Qualifying(scanned, selected, filters));
      |schedule| == |groups| && forall i :: 0 <= i < |schedule| ==> schedule[i] in groups[i].sections
    ensures var groups := Grouped(Qualifying(scanned, selected, filters));
      forall i :: 0 <= i < |schedule| ==> schedule[i].courseCode == groups[i].code
    ensures OneSectionPerCourse(schedule, scanned, selected, filters)
  {
    var filtered := Qualifying(scanned, selected, filters);
    var groups := Grouped(filtered);
    GroupedCorrect(filtered);
    ChoiceCodes(filtered, groups, schedule);
    var codes := set i | 0 <= i < |schedule| :: schedule[i].courseCode;
    var wanted := QualifyingCourses(scanned, selected, filters);
    forall d ensures d in codes <==> d in wanted {
      KeysCoverMeans(filtered, groups, d);
      QualifyingHasCourse(scanned, selected, filters, d);
      if HasQualifying(scanned, selected, filters, d) {
        var s :| s in scanned && s.courseCode == d && Qualifies(s, selected, filters);
      }
    }
  }

  /** Every generated combination, and every schedule a ranked outcome lists, holds
      exactly one section of each selected course that has a qualifying section. */
  lemma GeneratedOnePerCourse(scanned: seq<Section>, selected: seq<string>, filters: Filters)
    ensures var groups := Grouped(Qualifying(scanned, selected, filters));
      forall c :: c in Candidates(SectionLists(groups)) ==> OneSectionPerCourse(c, scanned, selected, filters)
    ensures var groups := Grouped(Qualifying(scanned, selected, filters));
      Outcome(groups, filters).Ranked? ==>
        forall k :: 0 <= k < |Outcome(groups, filters).results| ==>
          OneSectionPerCourse(Outcome(groups, filters).results[k].schedule, scanned, selected, filters)
  {
    var groups := Grouped(Qualifying(scanned, selected, filters));
    var lists := SectionLists(groups);
    forall c | c in Candidates(lists) ensures OneSectionPerCourse(c, scanned, selected, filters) {
      CandidatesAreChoices(lists, c);
      ChoiceOnePerCourse(scanned, selected, filters, c);
    }
    OutcomeCorrect(groups, filters);
    if Outcome(groups, filters).Ranked? {
      var results := Outcome(groups, filters).results;
      forall k | 0 <= k < |results| ensures OneSectionPerCourse(results[k].schedule, scanned, selected, filters) {
        ChoiceOnePerCourse(scanned, selected, filters, results[k].schedule);
      }
    }
  }

  /** `processGeneration(courseGroups, filters)`. */
  method ProcessGeneration(groups: seq<Group>, filters: Filters) returns (outcome: Generation)
    ensures outcome == Outcome(groups, filters)
  {
    var lists := SectionLists(groups);
    if |lists| == 0 {
      return NoCourses;
    }
    var limited := LimitGroups(lists);
    var combinations := GenerateCombinationsLimited(limited, MaxCombinations);
    if |combinations| == 0 {
      return NoCombinations;
    }
    var valid := CollectValid(combinations);
    if |valid| == 0 {
      return NoConflictFree;
    }
    return Ranked(TopRanked(valid, filters));
  }

  // ---- the selections --------------------------------------------------------

  /** `toggleDay`: a selected day is dropped unless it is the only one left; an
      unselected day is added at the end. */
  function ToggledDays(days: seq<string>, day: string): (r: seq<string>)
    ensures day in days && |days| > 1 ==> day !in r && forall d :: d != day ==> (d in r <==> d in days)
    ensures day in days && |days| > 1 && Distinct(days) ==> r == RemoveAt(days, IndexOf(days, day))
    ensures day in days && |days| <= 1 ==> r == days
    ensures day !in days ==> r == days + [day]
  {
    if day in days then (if |days| > 1 then Without(days, day) else days) else days + [day]
  }

  /** `toggleCourse`: a selected course is dropped, an unselected one added at the end. */
  function ToggledCourses(courses: seq<string>, code: string): (r: seq<string>)
    ensures code in courses ==> code !in r && forall c :: c != code ==> (c in r <==> c in courses)
    ensures code in courses && Distinct(courses) ==> r == RemoveAt(courses, IndexOf(courses, code))
    ensures code !in courses ==> r == courses + [code]
  {
    if code in courses then Without(courses, code) else courses + [code]
  }

  /** Toggling keeps a selection duplicate-free and the day selection non-empty. */
  lemma ToggledKeepsShape(days: seq<string>, day: string, courses: seq<string>, code: string)
    requires Distinct(days) && |days| > 0 && Distinct(courses)
    ensures Distinct(ToggledDays(days, day)) && |ToggledDays(days, day)| > 0
    ensures Distinct(ToggledCourses(courses, code))
  {
    WithoutDistinct(days, day);
    WithoutDistinct(courses, code);
    if day !in days {
      AppendFreshDistinct(days, day);
    }
    if code !in courses {
      AppendFreshDistinct(courses, code);
    }
  }

  /** Toggling the same course twice restores the same selection as a set (the
      re-added course moves to the end of the order). */
  lemma ToggleCourseTwice(courses: seq<string>, code: string)
    ensures forall c :: c in ToggledCourses(ToggledCourses(courses, code), code) <==> c in courses
  {
  }

  /** Toggling a day twice restores the selection as a set; when it was the only
      selected day both toggles keep it. */
  lemma ToggleDayTwice(days: seq<string>, day: string)
    requires |days| > 0
    ensures forall d :: d in ToggledDays(ToggledDays(days, day), day) <==> d in days
  {
    var once := ToggledDays(days, day);
    if day !in days {
      assert |once| > 1 && day in once;
    }
  }

  /** The popup's state: the scan result, both selections, the last exclusion list
      and the generation waiting for the user to continue. */
  class Session {
    var scanned: seq<Section>
    var selectedCourses: seq<string>
    var selectedDays: seq<string>
    var excluded: seq<ExcludedCourse>
    var pending: Option<Pending>

    /** The selections behave as sets and at least one day stays selected. */
    ghost predicate Valid()
      reads this
    {
      Distinct(selectedCourses) && Distinct(selectedDays) && |selectedDays| > 0
    }

    /** The state after a successful scan: no course selected, Monday to Friday. */
    constructor (data: seq<Section>)
      ensures Valid()
      ensures scanned == data && selectedCourses == [] && excluded == [] && pending == None
      ensures selectedDays == ["Mon", "Tue", "Wed", "Thu", "Fri"]
    {
      scanned := data;
      selectedCourses := [];
      selectedDays := ["Mon", "Tue", "Wed", "Thu", "Fri"];
      excluded := [];
      pending := None;
    }

    /** A later scan replaces the data and keeps everything else. */
    method ReceiveScan(data: seq<Section>)
      modifies this
      ensures scanned == data
      ensures selectedCourses == old(selectedCourses) && selectedDays == old(selectedDays)
      ensures excluded == old(excluded) && pending == old(pending)
    {
      scanned := data;
    }

    method ToggleDay(day: string)
      requires Valid()
      modifies this
      ensures Valid()
      ensures selectedDays == ToggledDays(old(selectedDays), day)
      ensures scanned == old(scanned) && selectedCourses == old(selectedCourses)
      ensures excluded == old(excluded) && pending == old(pending)
    {
      ToggledKeepsShape(selectedDays, day, selectedCourses, "");
      selectedDays := ToggledDays(selectedDays, day);
    }

    method ToggleCourse(code: string)
      requires Valid()
      modifies this
      ensures Valid()
      ensures selectedCourses == ToggledCourses(old(selectedCourses), code)
      ensures scanned == old(scanned) && selectedDays == old(selectedDays)
      ensures excluded == old(excluded) && pending == old(pending)
    {
      ToggledKeepsShape(selectedDays, "", selectedCourses, code);
      selectedCourses := ToggledCourses(selectedCourses, code);
    }

    /** `generateTimetables`: nothing happens without a selected course; otherwise
        the exclusion list is rebuilt, and either the generation is held back for
        confirmation or it runs at once. */
    method GenerateTimetables(prefs: Preferences) returns (response: Response)
      requires Valid()
      modifies this
      ensures Valid()
      ensures scanned == old(scanned) && selectedCourses == old(selectedCourses)
      ensures selectedDays == old(selectedDays)
      ensures response == NothingSelected <==> old(selectedCourses) == []
      ensures response == NothingSelected ==> excluded == old(excluded) && pending == old(pending)
      ensures response != NothingSelected ==>
        var filters := GetFilters(selectedDays, prefs);
        var groups := Grouped(Qualifying(scanned, selectedCourses, filters));
        && excluded == Excluded(selectedCourses, groups, scanned)
        && ExcludesExactly(scanned, selectedCourses, filters, excluded)
        && (response.MustConfirm? ==> excluded != [] && response.excluded == excluded && pending == Some(Pending(groups, filters)))
        && (response.Generated? ==> excluded == [] && pending == old(pending) && response.outcome == Outcome(groups, filters))
    {
      if |selectedCourses| == 0 {
        return NothingSelected;
      }
      var filters := GetFilters(selectedDays, prefs);
      excluded := [];
      var groups, found := GroupCandidates(scanned, selectedCourses, filters);
      excluded := found;
      if |excluded| > 0 {
        pending := Some(Pending(groups, filters));
        return MustConfirm(excluded);
      }
      var outcome := ProcessGeneration(groups, filters);
      return Generated(outcome);
    }

    /** `continueWithExclusions`: run the held-back generation, if there is one. */
    method ContinueWithExclusions() returns (result: Option<Generation>)
      ensures pending == None ==> result == None
      ensures pending.Some? ==> result == Some(Outcome(pending.value.groups, pending.value.filters))
    {
      if pending.Some? {
        var outcome := ProcessGeneration(pending.value.groups, pending.value.filters);
        return Some(outcome);
      }
      return None;
    }
  }

  /** When every selected course has a candidate the generation always reaches at
      least the combination stage: no group is empty. */
  lemma NoExclusionMeansCombinations(scanned: seq<Section>, selected: seq<string>, filters: Filters)
    requires selected != []
    requires forall c :: c in selected ==> HasQualifying(scanned, selected, filters, c)
    ensures var groups := Grouped(Qualifying(scanned, selected, filters));
      Outcome(groups, filters) != NoCourses && Outcome(groups, filters) != NoCombinations
  {
    var filtered := Qualifying(scanned, selected, filters);
    var groups := Grouped(filtered);
    GroupedCorrect(filtered);
    OutcomeCorrect(groups, filters);
    KeysCoverMeans(filtered, groups, selected[0]);
    QualifyingHasCourse(scanned, selected, filters, selected[0]);
    assert groups != [];
  }
}
