/** Pairwise time-conflict detection over a schedule (one section per course). */
module Conflicts {
  import opened TimeCode
  import opened Sections

  /** `timesOverlap`: two half-open ranges overlap when each starts before the other ends. */
  predicate TimesOverlap(a: TimeRange, b: TimeRange) {
    a.start < b.end && b.start < a.end
  }

  predicate Covers(range: TimeRange, t: int) {
    range.start <= t < range.end
  }

  /** For proper ranges, overlapping means sharing an instant; so ranges that only
      touch (one ends where the other starts) never overlap. */
  lemma TimesOverlapMeansSharedInstant(a: TimeRange, b: TimeRange)
    requires a.start < a.end && b.start < b.end
    ensures TimesOverlap(a, b) <==> exists t :: Covers(a, t) && Covers(b, t)
    ensures a.end == b.start ==> !TimesOverlap(a, b)
  {
    if TimesOverlap(a, b) {
      var t := if a.start < b.start then b.start else a.start;
      assert Covers(a, t) && Covers(b, t);
    }
  }

  /** Two slots clash when they fall on the same day at overlapping times. */
  predicate SlotsClash(t1: Slot, t2: Slot) {
    t1.day == t2.day && TimesOverlap(t1.time, t2.time)
  }

  /** Reference definition of `sectionsOverlap`: some pair of their slots clashes. */
  ghost predicate Overlapping(s1: Section, s2: Section) {
    exists i, j :: 0 <= i < |s1.schedule| && 0 <= j < |s2.schedule| && SlotsClash(s1.schedule[i], s2.schedule[j])
  }

  /** Reference definition of `hasConflict`: some earlier/later pair of members overlaps. */
  ghost predicate Conflicting(schedule: seq<Section>) {
    exists i, j :: 0 <= i < j < |schedule| && Overlapping(schedule[i], schedule[j])
  }

  /** `sectionsOverlap`: the nested scan over both slot lists, returning at the first clash. */
  method SectionsOverlap(s1: Section, s2: Section) returns (overlap: bool)
    ensures overlap <==> Overlapping(s1, s2)
  {
    var i := 0;
    while i < |s1.schedule|
      invariant 0 <= i <= |s1.schedule|
      invariant forall a, b :: 0 <= a < i && 0 <= b < |s2.schedule| ==> !SlotsClash(s1.schedule[a], s2.schedule[b])
    {
      var j := 0;
      while j < |s2.schedule|
        invariant 0 <= j <= |s2.schedule|
        invariant forall b :: 0 <= b < j ==> !SlotsClash(s1.schedule[i], s2.schedule[b])
      {
        var t1, t2 := s1.schedule[i], s2.schedule[j];
        if t1.day == t2.day && TimesOverlap(t1.time, t2.time) {
          return true;
        }
        j := j + 1;
      }
      i := i + 1;
    }
    return false;
  }

  /** `hasConflict`: every pair i < j is checked, returning at the first overlap. */
  method HasConflict(schedule: seq<Section>) returns (conflict: bool)
    ensures conflict <==> Conflicting(schedule)
    ensures |schedule| < 2 ==> !conflict
  {
    var i := 0;
    while i < |schedule|
      invariant 0 <= i <= |schedule|
      invariant forall a, b :: 0 <= a < i && a < b < |schedule| ==> !Overlapping(schedule[a], schedule[b])
    {
      var j := i + 1;
      while j < |schedule|
        invariant i + 1 <= j <= |schedule|
        invariant forall b :: i < b < j ==> !Overlapping(schedule[i], schedule[b])
      {
        var o := SectionsOverlap(schedule[i], schedule[j]);
        if o {
          return true;
        }
        j := j + 1;
      }
      i := i + 1;
    }
    return false;
  }

  lemma OverlappingSymmetric(s1: Section, s2: Section)
    ensures Overlapping(s1, s2) <==> Overlapping(s2, s1)
  {
    if Overlapping(s1, s2) {
      var i, j :| 0 <= i < |s1.schedule| && 0 <= j < |s2.schedule| && SlotsClash(s1.schedule[i], s2.schedule[j]);
      assert SlotsClash(s2.schedule[j], s1.schedule[i]);
    }
    if Overlapping(s2, s1) {
      var i, j :| 0 <= i < |s2.schedule| && 0 <= j < |s1.schedule| && SlotsClash(s2.schedule[i], s1.schedule[j]);
      assert SlotsClash(s1.schedule[j], s2.schedule[i]);
    }
  }

  /** In a conflict-free schedule no two distinct members meet at the same time,
      whichever order they are taken in. */
  lemma ConflictFreeMeansPairwiseApart(schedule: seq<Section>, i: nat, j: nat, a: nat, b: nat)
    requires !Conflicting(schedule)
    requires i < |schedule| && j < |schedule| && i != j
    requires a < |schedule[i].schedule| && b < |schedule[j].schedule|
    ensures !SlotsClash(schedule[i].schedule[a], schedule[j].schedule[b])
  {
    if i < j {
      assert !Overlapping(schedule[i], schedule[j]);
    } else {
      assert !Overlapping(schedule[j], schedule[i]);
      OverlappingSymmetric(schedule[j], schedule[i]);
    }
  }

  /** Two Wednesday sections at 09:00-10:00 and 09:30-10:30 conflict; at 09:00-10:00
      and 10:00-11:00 they do not. */
  lemma WednesdayExamples(code1: string, code2: string)
    ensures var nine := Section(code1, code1, "A", "open", [Slot("Wed", TimeRange(900, 1000))]);
      var half := Section(code2, code2, "B", "open", [Slot("Wed", TimeRange(930, 1030))]);
      var ten := Section(code2, code2, "C", "open", [Slot("Wed", TimeRange(1000, 1100))]);
      Conflicting([nine, half]) && !Conflicting([nine, ten])
  {
    var nine := Section(code1, code1, "A", "open", [Slot("Wed", TimeRange(900, 1000))]);
    var half := Section(code2, code2, "B", "open", [Slot("Wed", TimeRange(930, 1030))]);
    assert SlotsClash(nine.schedule[0], half.schedule[0]);
    assert Overlapping([nine, half][0], [nine, half][1]);
  }
}
