/** Candidate grouping: the qualifying sections are bucketed by course code in the
    order the codes are first met, and the selected courses that end up with no
    bucket are reported as excluded. */
module Grouping {
  import opened SeqUtil
  import opened Sections

  /** One entry of `courseGroups`: a course code and its candidate sections. */
  datatype Group = Group(code: string, sections: seq<Section>)

  /** A selected course with no qualifying section, with the name shown for it. */
  datatype ExcludedCourse = ExcludedCourse(code: string, name: string)

  /** The position of the group keyed `code`, or -1 when there is none. */
  function GroupIndex(groups: seq<Group>, code: string): (r: int)
    ensures -1 <= r < |groups|
    ensures r >= 0 ==> groups[r].code == code
    ensures r < 0 <==> forall i :: 0 <= i < |groups| ==> groups[i].code != code
  {
    if groups == [] then -1
    else if groups[0].code == code then 0
    else
      var r := GroupIndex(groups[1..], code);
      if r < 0 then -1 else r + 1
  }

  /** One step of the grouping loop: push onto the course's group, creating it if new. */
  function AddSection(groups: seq<Group>, s: Section): seq<Group> {
    var k := GroupIndex(groups, s.courseCode);
    if k >= 0 then groups[k := groups[k].(sections := groups[k].sections + [s])]
    else groups + [Group(s.courseCode, [s])]
  }

  /** The groups after the loop has consumed `filtered`. */
  function Grouped(filtered: seq<Section>): seq<Group> {
    if filtered == [] then []
    else AddSection(Grouped(filtered[..|filtered| - 1]), filtered[|filtered| - 1])
  }

  /** Reference definition: the sections of course `code`, in order. */
  function SectionsOf(xs: seq<Section>, code: string): seq<Section> {
    if xs == [] then []
    else SectionsOf(xs[..|xs| - 1], code) + (if xs[|xs| - 1].courseCode == code then [xs[|xs| - 1]] else [])
  }

  /** Every section collected for a course has that course's code. */
  lemma {:induction false} SectionsOfCode(xs: seq<Section>, code: string)
    ensures forall s :: s in SectionsOf(xs, code) ==> s.courseCode == code
  {
    if xs != [] {
      SectionsOfCode(xs[..|xs| - 1], code);
    }
  }

  /** Position of the first section of course `code`; `|xs|` when there is none. */
  function FirstSectionOf(xs: seq<Section>, code: string): (r: nat)
    ensures r <= |xs|
    ensures r < |xs| ==> xs[r].courseCode == code
    ensures forall k :: 0 <= k < r ==> xs[k].courseCode != code
  {
    if xs == [] then 0
    else if xs[0].courseCode == code then 0
    else 1 + FirstSectionOf(xs[1..], code)
  }

  ghost predicate HasCourse(xs: seq<Section>, code: string) {
    exists k :: 0 <= k < |xs| && xs[k].courseCode == code
  }

  lemma {:induction false} SectionsOfAbsent(xs: seq<Section>, code: string)
    requires !HasCourse(xs, code)
    ensures SectionsOf(xs, code) == []
  {
    if xs != [] {
      var p := xs[..|xs| - 1];
      assert !HasCourse(p, code) by {
        forall k | 0 <= k < |p| ensures p[k].courseCode != code {
          assert p[k] == xs[k];
        }
      }
      SectionsOfAbsent(p, code);
    }
  }

  lemma {:induction false} FirstSectionOfSnoc(p: seq<Section>, x: Section, code: string)
    ensures FirstSectionOf(p, code) < |p| ==> FirstSectionOf(p + [x], code) == FirstSectionOf(p, code)
    ensures FirstSectionOf(p, code) == |p| && x.courseCode == code ==> FirstSectionOf(p + [x], code) == |p|
  {
    if p != [] && p[0].courseCode != code {
      assert (p + [x])[1..] == p[1..] + [x];
      FirstSectionOfSnoc(p[1..], x, code);
    }
  }

  /** Appending a group leaves the lookup of every other key alone. */
  lemma {:induction false} GroupIndexSnoc(g: seq<Group>, h: Group, d: string)
    ensures d != h.code ==> GroupIndex(g + [h], d) == GroupIndex(g, d)
    ensures d == h.code && GroupIndex(g, d) < 0 ==> GroupIndex(g + [h], d) == |g|
  {
    if g != [] && g[0].code != d {
      assert (g + [h])[1..] == g[1..] + [h];
      GroupIndexSnoc(g[1..], h, d);
    }
  }

  /** The lookup only depends on the keys. */
  lemma {:induction false} GroupIndexSameKeys(g: seq<Group>, g': seq<Group>, d: string)
    requires |g| == |g'| && forall i :: 0 <= i < |g| ==> g[i].code == g'[i].code
    ensures GroupIndex(g, d) == GroupIndex(g', d)
  {
    if g != [] && g[0].code != d {
      GroupIndexSameKeys(g[1..], g'[1..], d);
    }
  }

  /** What the grouping loop builds: one group per course met, keys distinct and in
      first-appearance order, and each group exactly that course's sections in order. */
  ghost predicate GroupsOf(filtered: seq<Section>, groups: seq<Group>) {
    && KeysDistinct(groups)
    && KeysInFirstOrder(filtered, groups)
    && GroupsExact(filtered, groups)
    && KeysCover(filtered, groups)
  }

  ghost predicate KeysDistinct(groups: seq<Group>) {
    forall i, j :: 0 <= i < j < |groups| ==> groups[i].code != groups[j].code
  }

  ghost predicate KeysInFirstOrder(filtered: seq<Section>, groups: seq<Group>) {
    forall i, j :: 0 <= i < j < |groups| ==>
      FirstSectionOf(filtered, groups[i].code) < FirstSectionOf(filtered, groups[j].code)
  }

  ghost predicate GroupsExact(filtered: seq<Section>, groups: seq<Group>) {
    forall i :: 0 <= i < |groups| ==>
      groups[i].sections == SectionsOf(filtered, groups[i].code) && groups[i].sections != []
  }

  /** Every key comes from a section, and every section's course has a key. */
  ghost predicate KeysCover(filtered: seq<Section>, groups: seq<Group>) {
    && (forall i :: 0 <= i < |groups| ==> HasCourse(filtered, groups[i].code))
    && (forall k :: 0 <= k < |filtered| ==> GroupIndex(groups, filtered[k].courseCode) >= 0)
  }

  lemma KeysCoverMeans(filtered: seq<Section>, groups: seq<Group>, c: string)
    requires KeysCover(filtered, groups)
    ensures GroupIndex(groups, c) >= 0 <==> HasCourse(filtered, c)
  {
    if GroupIndex(groups, c) >= 0 {
      assert HasCourse(filtered, groups[GroupIndex(groups, c)].code);
    }
    if HasCourse(filtered, c) {
      var k :| 0 <= k < |filtered| && filtered[k].courseCode == c;
    }
  }

  lemma {:induction false} GroupedCorrect(filtered: seq<Section>)
    ensures GroupsOf(filtered, Grouped(filtered))
  {
    if filtered != [] {
      var p := filtered[..|filtered| - 1];
      var x := filtered[|filtered| - 1];
      assert filtered == p + [x];
      GroupedCorrect(p);
      var g := Grouped(p);
      assert Grouped(filtered) == AddSection(g, x);
      var k := GroupIndex(g, x.courseCode);
      if k >= 0 {
        var g' := g[k := g[k].(sections := g[k].sections + [x])];
        assert AddSection(g, x) == g';
        ExistingKeys(p, x, g);
        ExistingExact(p, x, g);
        ExistingCover(p, x, g);
      } else {
        var g' := g + [Group(x.courseCode, [x])];
        assert AddSection(g, x) == g';
        NewKeys(p, x, g);
        NewExact(p, x, g);
        NewCover(p, x, g);
      }
    }
  }

  lemma SnocSections(p: seq<Section>, x: Section, d: string)
    ensures SectionsOf(p + [x], d) == SectionsOf(p, d) + (if x.courseCode == d then [x] else [])
  {
    assert (p + [x])[..|p|] == p;
  }

  lemma SnocHasCourse(p: seq<Section>, x: Section, d: string)
    ensures HasCourse(p + [x], d) <==> HasCourse(p, d) || d == x.courseCode
  {
    if HasCourse(p, d) {
      var j :| 0 <= j < |p| && p[j].courseCode == d;
      assert (p + [x])[j] == p[j];
    }
    if HasCourse(p + [x], d) && d != x.courseCode {
      var j :| 0 <= j < |p| + 1 && (p + [x])[j].courseCode == d;
      assert j < |p| && p[j] == (p + [x])[j];
    }
    assert (p + [x])[|p|] == x;
  }

  lemma SnocFirst(p: seq<Section>, x: Section, d: string)
    requires HasCourse(p, d)
    ensures FirstSectionOf(p + [x], d) == FirstSectionOf(p, d) < |p|
  {
    var j :| 0 <= j < |p| && p[j].courseCode == d;
    FirstSectionOfSnoc(p, x, d);
  }

  lemma ExistingKeys(p: seq<Section>, x: Section, g: seq<Group>)
    requires KeysDistinct(g) && KeysInFirstOrder(p, g) && KeysCover(p, g)
    requires 0 <= GroupIndex(g, x.courseCode)
    ensures var k := GroupIndex(g, x.courseCode);
      var g' := g[k := g[k].(sections := g[k].sections + [x])];
      KeysDistinct(g') && KeysInFirstOrder(p + [x], g')
  {
    var k := GroupIndex(g, x.courseCode);
    var g' := g[k := g[k].(sections := g[k].sections + [x])];
    forall i | 0 <= i < |g| ensures g'[i].code == g[i].code && FirstSectionOf(p + [x], g'[i].code) == FirstSectionOf(p, g[i].code) {
      SnocFirst(p, x, g[i].code);
    }
  }

  lemma ExistingExact(p: seq<Section>, x: Section, g: seq<Group>)
    requires KeysDistinct(g) && GroupsExact(p, g)
    requires 0 <= GroupIndex(g, x.courseCode)
    ensures var k := GroupIndex(g, x.courseCode);
      var g' := g[k := g[k].(sections := g[k].sections + [x])];
      GroupsExact(p + [x], g')
  {
    var k := GroupIndex(g, x.courseCode);
    var g' := g[k := g[k].(sections := g[k].sections + [x])];
    forall i | 0 <= i < |g'|
      ensures g'[i].sections == SectionsOf(p + [x], g'[i].code) && g'[i].sections != []
    {
      SnocSections(p, x, g[i].code);
      if i != k {
        assert g[i].code != x.courseCode;
      }
    }
  }

  lemma ExistingCover(p: seq<Section>, x: Section, g: seq<Group>)
    requires KeysCover(p, g)
    requires 0 <= GroupIndex(g, x.courseCode)
    ensures var k := GroupIndex(g, x.courseCode);
      var g' := g[k := g[k].(sections := g[k].sections + [x])];
      KeysCover(p + [x], g')
  {
    var k := GroupIndex(g, x.courseCode);
    var g' := g[k := g[k].(sections := g[k].sections + [x])];
    var xs := p + [x];
    forall i | 0 <= i < |g'| ensures HasCourse(xs, g'[i].code) {
      SnocHasCourse(p, x, g[i].code);
    }
    forall j | 0 <= j < |xs| ensures GroupIndex(g', xs[j].courseCode) >= 0 {
      GroupIndexSameKeys(g, g', xs[j].courseCode);
      if j < |p| {
        assert xs[j] == p[j];
      }
    }
  }

  lemma NewKeys(p: seq<Section>, x: Section, g: seq<Group>)
    requires KeysDistinct(g) && KeysInFirstOrder(p, g) && KeysCover(p, g)
    requires GroupIndex(g, x.courseCode) < 0
    ensures var g' := g + [Group(x.courseCode, [x])];
      KeysDistinct(g') && KeysInFirstOrder(p + [x], g')
  {
    var c := x.courseCode;
    var g' := g + [Group(c, [x])];
    KeysCoverMeans(p, g, c);
    FirstSectionOfSnoc(p, x, c);
    var last := FirstSectionOf(p + [x], c);
    assert last == |p|;
    forall i | 0 <= i < |g|
      ensures FirstSectionOf(p + [x], g[i].code) == FirstSectionOf(p, g[i].code) < |p|
    {
      SnocFirst(p, x, g[i].code);
    }
    forall i, j | 0 <= i < j < |g'|
      ensures g'[i].code != g'[j].code
      ensures FirstSectionOf(p + [x], g'[i].code) < FirstSectionOf(p + [x], g'[j].code)
    {
      assert g'[i] == g[i];
      if j < |g| {
        assert g'[j] == g[j];
      } else {
        assert g'[j].code == c;
      }
    }
  }

  lemma NewExact(p: seq<Section>, x: Section, g: seq<Group>)
    requires GroupsExact(p, g) && KeysCover(p, g)
    requires GroupIndex(g, x.courseCode) < 0
    ensures GroupsExact(p + [x], g + [Group(x.courseCode, [x])])
  {
    var c := x.courseCode;
    var g' := g + [Group(c, [x])];
    KeysCoverMeans(p, g, c);
    SectionsOfAbsent(p, c);
    forall i | 0 <= i < |g'|
      ensures g'[i].sections == SectionsOf(p + [x], g'[i].code) && g'[i].sections != []
    {
      SnocSections(p, x, g'[i].code);
      if i < |g| {
        assert g'[i] == g[i];
      }
    }
  }

  lemma NewCover(p: seq<Section>, x: Section, g: seq<Group>)
    requires KeysCover(p, g)
    requires GroupIndex(g, x.courseCode) < 0
    ensures KeysCover(p + [x], g + [Group(x.courseCode, [x])])
  {
    var c := x.courseCode;
    var h := Group(c, [x]);
    var g' := g + [h];
    var xs := p + [x];
    forall i | 0 <= i < |g'| ensures HasCourse(xs, g'[i].code) {
      SnocHasCourse(p, x, g'[i].code);
      if i < |g| {
        assert g'[i] == g[i];
      }
    }
    forall j | 0 <= j < |xs| ensures GroupIndex(g', xs[j].courseCode) >= 0 {
      GroupIndexSnoc(g, h, xs[j].courseCode);
      if j < |p| {
        assert xs[j] == p[j];
      }
    }
  }

  /** The grouping loop of `generateTimetables` (`courseGroups[code].push(section)`). */
  method GroupByCourse(filtered: seq<Section>) returns (groups: seq<Group>)
    ensures groups == Grouped(filtered)
    ensures GroupsOf(filtered, groups)
  {
    groups := [];
    var i := 0;
    while i < |filtered|
      invariant 0 <= i <= |filtered|
      invariant groups == Grouped(filtered[..i])
    {
      var s := filtered[i];
      ghost var before := groups;
      var k := GroupIndex(groups, s.courseCode);
      if k < 0 {
        groups := groups + [Group(s.courseCode, [])];
        k := |groups| - 1;
        assert groups[k] == Group(s.courseCode, []);
        groups := groups[k := groups[k].(sections := groups[k].sections + [s])];
        assert groups[k] == Group(s.courseCode, [s]);
        assert groups == before + [Group(s.courseCode, [s])];
      } else {
        groups := groups[k := groups[k].(sections := groups[k].sections + [s])];
      }
      assert groups == AddSection(before, s);
      assert filtered[..i + 1][..i] == filtered[..i];
      i := i + 1;
    }
    assert filtered[..i] == filtered;
    GroupedCorrect(filtered);
  }

  /** `scannedData.find(s => s.courseCode === code)?.courseName || code`. */
  function CourseName(scanned: seq<Section>, code: string): (name: string)
    ensures !HasCourse(scanned, code) ==> name == code
    ensures HasCourse(scanned, code) ==>
      var s := scanned[FirstSectionOf(scanned, code)];
      name == if s.courseName == "" then code else s.courseName
  {
    var k := FirstSectionOf(scanned, code);
    if k == |scanned| then code
    else if scanned[k].courseName == "" then code
    else scanned[k].courseName
  }

  /** A course whose bucket is missing (or empty) has no candidates. */
  predicate NoCandidates(groups: seq<Group>, code: string) {
    var k := GroupIndex(groups, code);
    k < 0 || groups[k].sections == []
  }

  /** The excluded list built by scanning the selection in order. */
  function Excluded(selected: seq<string>, groups: seq<Group>, scanned: seq<Section>): seq<ExcludedCourse> {
    if selected == [] then []
    else
      var p := Excluded(selected[..|selected| - 1], groups, scanned);
      var c := selected[|selected| - 1];
      if NoCandidates(groups, c) then p + [ExcludedCourse(c, CourseName(scanned, c))] else p
  }

  /** Exactly the selected courses without candidates are excluded, each with its shown name. */
  lemma {:induction false} ExcludedCorrect(selected: seq<string>, groups: seq<Group>, scanned: seq<Section>)
    ensures var r := Excluded(selected, groups, scanned);
      && |r| <= |selected|
      && (forall i :: 0 <= i < |r| ==>
            r[i].code in selected && NoCandidates(groups, r[i].code) && r[i].name == CourseName(scanned, r[i].code))
      && (forall c :: c in selected && NoCandidates(groups, c) ==> exists i :: 0 <= i < |r| && r[i].code == c)
      && (Distinct(selected) ==> forall i, j :: 0 <= i < j < |r| ==> r[i].code != r[j].code)
  {
    if selected != [] {
      var q := selected[..|selected| - 1];
      var c := selected[|selected| - 1];
      ExcludedCorrect(q, groups, scanned);
      var p := Excluded(q, groups, scanned);
      var r := Excluded(selected, groups, scanned);
      assert forall d :: d in selected <==> d in q || d == c;
      assert forall i :: 0 <= i < |p| ==> r[i] == p[i];
      forall d | d in selected && NoCandidates(groups, d) ensures exists i :: 0 <= i < |r| && r[i].code == d {
        if d in q {
          var i :| 0 <= i < |p| && p[i].code == d;
          assert r[i].code == d;
        } else {
          assert r[|p|].code == d;
        }
      }
      if Distinct(selected) {
        assert Distinct(q);
        assert c !in q;
        forall i, j | 0 <= i < j < |r| ensures r[i].code != r[j].code {
          if j == |p| {
            assert r[i].code in q;
          }
        }
      }
    }
  }

  /** Exclusion scans the selection in order: the lists of two pieces of the
      selection are joined, so the excluded courses keep their selection order. */
  lemma {:induction false} ExcludedAppend(a: seq<string>, b: seq<string>, groups: seq<Group>, scanned: seq<Section>)
    ensures Excluded(a + b, groups, scanned) == Excluded(a, groups, scanned) + Excluded(b, groups, scanned)
    decreases |b|
  {
    if b == [] {
      assert a + b == a;
    } else {
      var b' := b[..|b| - 1];
      var c := b[|b| - 1];
      assert (a + b)[..|a + b| - 1] == a + b';
      assert (a + b)[|a + b| - 1] == c;
      ExcludedAppend(a, b', groups, scanned);
      var tail := if NoCandidates(groups, c) then [ExcludedCourse(c, CourseName(scanned, c))] else [];
      assert Excluded(a + b, groups, scanned) == Excluded(a + b', groups, scanned) + tail;
      assert Excluded(b, groups, scanned) == Excluded(b', groups, scanned) + tail;
    }
  }

  /** A single selected course is listed exactly when it has no candidates. */
  lemma ExcludedSingle(c: string, groups: seq<Group>, scanned: seq<Section>)
    ensures Excluded([c], groups, scanned) ==
      (if NoCandidates(groups, c) then [ExcludedCourse(c, CourseName(scanned, c))] else [])
  {
    assert [c][..0] == [];
  }

  /** The exclusion loop of `generateTimetables` (`excludedCourses.push(...)`). */
  method FindExcluded(selected: seq<string>, groups: seq<Group>, scanned: seq<Section>)
    returns (excluded: seq<ExcludedCourse>)
    ensures excluded == Excluded(selected, groups, scanned)
    ensures forall i :: 0 <= i < |excluded| ==>
      excluded[i].code in selected && NoCandidates(groups, excluded[i].code)
      && excluded[i].name == CourseName(scanned, excluded[i].code)
    ensures forall c :: c in selected && NoCandidates(groups, c) ==>
      exists i :: 0 <= i < |excluded| && excluded[i].code == c
  {
    excluded := [];
    var i := 0;
    while i < |selected|
      invariant 0 <= i <= |selected|
      invariant excluded == Excluded(selected[..i], groups, scanned)
    {
      var code := selected[i];
      var k := GroupIndex(groups, code);
      if k < 0 || groups[k].sections == [] {
        excluded := excluded + [ExcludedCourse(code, CourseName(scanned, code))];
      }
      assert selected[..i + 1][..i] == selected[..i];
      i := i + 1;
    }
    assert selected[..i] == selected;
    ExcludedCorrect(selected, groups, scanned);
  }

  /** Some scanned section of course `code` passes the candidate filter. */
  ghost predicate HasQualifying(scanned: seq<Section>, selected: seq<string>, filters: Filters, code: string) {
    exists s :: s in scanned && s.courseCode == code && Qualifies(s, selected, filters)
  }

  lemma QualifyingHasCourse(scanned: seq<Section>, selected: seq<string>, filters: Filters, code: string)
    ensures HasCourse(Qualifying(scanned, selected, filters), code) <==> HasQualifying(scanned, selected, filters, code)
  {
    var filtered := Qualifying(scanned, selected, filters);
    if HasCourse(filtered, code) {
      var k :| 0 <= k < |filtered| && filtered[k].courseCode == code;
      assert filtered[k] in filtered;
    }
    if HasQualifying(scanned, selected, filters, code) {
      var s :| s in scanned && s.courseCode == code && Qualifies(s, selected, filters);
      var k :| 0 <= k < |filtered| && filtered[k] == s;
    }
  }

  /** A selected course is listed as excluded iff no scanned section of it qualifies. */
  ghost predicate ExcludesExactly(scanned: seq<Section>, selected: seq<string>, filters: Filters, excluded: seq<ExcludedCourse>) {
    forall c :: c in selected ==>
      ((exists i :: 0 <= i < |excluded| && excluded[i].code == c) <==> !HasQualifying(scanned, selected, filters, c))
  }

  /** Filtering, grouping and exclusion detection together, as `generateTimetables`
      performs them before deciding whether to generate. */
  method GroupCandidates(scanned: seq<Section>, selected: seq<string>, filters: Filters)
    returns (groups: seq<Group>, excluded: seq<ExcludedCourse>)
    ensures groups == Grouped(Qualifying(scanned, selected, filters))
    ensures KeysDistinct(groups)
    ensures forall i :: 0 <= i < |groups| ==>
      && groups[i].code in selected
      && groups[i].sections != []
      && groups[i].sections == SectionsOf(Qualifying(scanned, selected, filters), groups[i].code)
    ensures forall c :: GroupIndex(groups, c) >= 0 <==> HasQualifying(scanned, selected, filters, c)
    ensures excluded == Excluded(selected, groups, scanned)
    ensures ExcludesExactly(scanned, selected, filters, excluded)
  {
    var filtered := Qualifying(scanned, selected, filters);
    groups := GroupByCourse(filtered);
    excluded := FindExcluded(selected, groups, scanned);
    forall c ensures GroupIndex(groups, c) >= 0 <==> HasQualifying(scanned, selected, filters, c) {
      KeysCoverMeans(filtered, groups, c);
      QualifyingHasCourse(scanned, selected, filters, c);
    }
    forall i | 0 <= i < |groups| ensures groups[i].code in selected {
      assert GroupIndex(groups, groups[i].code) >= 0;
      var s :| s in scanned && s.courseCode == groups[i].code && Qualifies(s, selected, filters);
    }
  }
}
