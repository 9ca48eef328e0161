/** The scanned section records and the day/time filter that decides, section by
    section, whether it can be attended under the user's preferences. */
module Sections {
  import opened TimeCode

  /** One scanned section: the course it belongs to, its status text ("open",
      "closed", "unknown") and its weekly slots with encoded times. */
  datatype Section = Section(
    courseCode: string,
    courseName: string,
    sectionId: string,
    status: string,
    schedule: seq<Slot>)

  /** The user's preferences: the selected days (in selection order), the encoded
      bounds of the time window, the preferred number of days and the (unused)
      preferred gap. */
  datatype Filters = Filters(
    days: seq<string>,
    startLimit: int,
    endLimit: int,
    maxDays: int,
    maxGap: int)

  /** One slot passes when it is on an allowed day and lies inside the window. */
  predicate SlotFits(slot: Slot, filters: Filters) {
    && slot.day in filters.days
    && !(slot.time.start < filters.startLimit || slot.time.end > filters.endLimit)
  }

  /** The scan over a section's slots that gives up at the first slot that fails. */
  function SectionFitsTimeFilter(section: Section, filters: Filters): (fits: bool)
    ensures fits <==> forall i :: 0 <= i < |section.schedule| ==>
      && section.schedule[i].day in filters.days
      && section.schedule[i].time.start >= filters.startLimit
      && section.schedule[i].time.end <= filters.endLimit
  {
    SlotsFit(section.schedule, filters)
  }

  function SlotsFit(slots: seq<Slot>, filters: Filters): (fits: bool)
    ensures fits <==> forall i :: 0 <= i < |slots| ==> SlotFits(slots[i], filters)
  {
    if slots == [] then true
    else if !SlotFits(slots[0], filters) then false
    else SlotsFit(slots[1..], filters)
  }

  /** A section with no slots passes vacuously, whatever the filter. */
  lemma EmptyScheduleFits(section: Section, filters: Filters)
    ensures SectionFitsTimeFilter(section.(schedule := []), filters)
  {
  }

  /** One slot on an unselected day rejects the whole section. */
  lemma FitsBoundaryCases(section: Section, filters: Filters, k: nat)
    requires k < |section.schedule| && section.schedule[k].day !in filters.days
    ensures !SectionFitsTimeFilter(section, filters)
  {
  }

  /** The qualifying test of the candidate filter: selected course, open, fitting. */
  predicate Qualifies(section: Section, selected: seq<string>, filters: Filters) {
    && section.courseCode in selected
    && section.status == "open"
    && SectionFitsTimeFilter(section, filters)
  }

  /** `scannedData.filter(...)`: the qualifying sections in scan order. */
  function Qualifying(sections: seq<Section>, selected: seq<string>, filters: Filters): (r: seq<Section>)
    ensures |r| <= |sections|
    ensures forall i :: 0 <= i < |r| ==> Qualifies(r[i], selected, filters)
    ensures forall s :: s in sections && Qualifies(s, selected, filters) ==> s in r
    ensures forall s :: s in r ==> s in sections
  {
    if sections == [] then []
    else
      var rest := Qualifying(sections[1..], selected, filters);
      if Qualifies(sections[0], selected, filters) then [sections[0]] + rest else rest
  }

  /** The filter works piece by piece: it keeps a single section exactly when it
      qualifies, and the kept sections of two pieces stay in their scan order. */
  lemma {:induction false} QualifyingAppend(a: seq<Section>, b: seq<Section>, selected: seq<string>, filters: Filters)
    ensures Qualifying(a + b, selected, filters) == Qualifying(a, selected, filters) + Qualifying(b, selected, filters)
    ensures forall s :: Qualifying([s], selected, filters) == if Qualifies(s, selected, filters) then [s] else []
  {
    if a != [] {
      assert (a + b)[1..] == a[1..] + b;
      QualifyingAppend(a[1..], b, selected, filters);
    } else {
      assert a + b == b;
    }
    forall s ensures Qualifying([s], selected, filters) == if Qualifies(s, selected, filters) then [s] else [] {
      assert [s][1..] == [];
    }
  }
}
