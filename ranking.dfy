/** Collecting conflict-free schedules, scoring them by day compactness and ranking
    them: a stable sort by score, highest first, cut to the best ten. */
module Ranking {
  import opened SeqUtil
  import opened Sections
  import opened Conflicts

  /** Collection stops once this many conflict-free schedules are held. */
  const MaxValid: nat := 100
  /** Number of ranked results kept. */
  const MaxResults: nat := 10

  /** The distinct day values touched by any slot of any member. */
  function DaysOf(schedule: seq<Section>): set<string> {
    set i, j | 0 <= i < |schedule| && 0 <= j < |schedule[i].schedule| :: schedule[i].schedule[j].day
  }

  /** `countDays`: the size of the set the nested `forEach` fills. */
  function CountDays(schedule: seq<Section>): nat {
    |DaysOf(schedule)|
  }

  /** Sections that pass the filter only meet on filter days, so the day count is at
      most the number of distinct selected days. */
  lemma CountDaysWithinFilter(schedule: seq<Section>, filters: Filters)
    requires forall i :: 0 <= i < |schedule| ==> SectionFitsTimeFilter(schedule[i], filters)
    ensures DaysOf(schedule) <= set d | d in filters.days
    ensures CountDays(schedule) <= |set d | d in filters.days|
  {
    var allowed := set d | d in filters.days;
    forall d | d in DaysOf(schedule) ensures d in allowed {
      var i, j :| 0 <= i < |schedule| && 0 <= j < |schedule[i].schedule| && schedule[i].schedule[j].day == d;
      assert SectionFitsTimeFilter(schedule[i], filters);
    }
    SubsetCard(DaysOf(schedule), allowed);
  }

  lemma SubsetCard<T>(a: set<T>, b: set<T>)
    requires a <= b
    ensures |a| <= |b|
  {
    assert b == a + (b - a);
  }

  /** `calculateTotalGap`: the gap metric is a constant zero. */
  function TotalGap(schedule: seq<Section>): int {
    0
  }

  /** `calculateScore`: 100 points for each day fewer than six, plus 200 when the
      day count is within the preferred maximum; the preferred gap plays no part. */
  function CalculateScore(schedule: seq<Section>, maxDays: int, maxGap: int): int {
    var days := CountDays(schedule);
    (6 - days) * 100 + (if days <= maxDays then 200 else 0)
  }

  /** A schedule on fewer days always scores strictly higher, and the score does not
      depend on the preferred gap. */
  lemma FewerDaysScoreHigher(s1: seq<Section>, s2: seq<Section>, maxDays: int, gap1: int, gap2: int)
    requires CountDays(s1) < CountDays(s2)
    ensures CalculateScore(s1, maxDays, gap1) > CalculateScore(s2, maxDays, gap2)
  {
  }

  datatype RankedResult = RankedResult(schedule: seq<Section>, days: nat, gaps: int, score: int)

  /** The record `processGeneration` builds for each conflict-free schedule. */
  function Rank(schedule: seq<Section>, filters: Filters): RankedResult {
    RankedResult(schedule, CountDays(schedule), TotalGap(schedule),
                 CalculateScore(schedule, filters.maxDays, filters.maxGap))
  }

  function RankAll(schedules: seq<seq<Section>>, filters: Filters): (r: seq<RankedResult>)
    ensures |r| == |schedules|
  {
    seq(|schedules|, i requires 0 <= i < |schedules| => Rank(schedules[i], filters))
  }

  // ---- stable sort by score, highest first ----------------------------------

  ghost predicate SortedByScore(rs: seq<RankedResult>) {
    forall i, j :: 0 <= i < j < |rs| ==> rs[i].score >= rs[j].score
  }

  /** The results with score `v`, in order: a stable sort keeps this for every `v`. */
  function WithScore(rs: seq<RankedResult>, v: int): seq<RankedResult> {
    if rs == [] then []
    else WithScore(rs[..|rs| - 1], v) + (if rs[|rs| - 1].score == v then [rs[|rs| - 1]] else [])
  }

  /** Insert `x` after every entry scoring at least as much. */
  function Insert(sorted: seq<RankedResult>, x: RankedResult): seq<RankedResult> {
    if sorted == [] then [x]
    else if sorted[|sorted| - 1].score >= x.score then sorted + [x]
    else Insert(sorted[..|sorted| - 1], x) + [sorted[|sorted| - 1]]
  }

  /** `sort((a, b) => b.score - a.score)`, which is stable. */
  function SortByScore(rs: seq<RankedResult>): seq<RankedResult> {
    if rs == [] then [] else Insert(SortByScore(rs[..|rs| - 1]), rs[|rs| - 1])
  }

  lemma WithScoreSnoc(rs: seq<RankedResult>, x: RankedResult, v: int)
    ensures WithScore(rs + [x], v) == WithScore(rs, v) + (if x.score == v then [x] else [])
  {
    assert (rs + [x])[..|rs|] == rs;
  }

  lemma {:induction false} InsertMultiset(sorted: seq<RankedResult>, x: RankedResult)
    ensures multiset(Insert(sorted, x)) == multiset(sorted) + multiset{x}
  {
    if sorted != [] {
      var init := sorted[..|sorted| - 1];
      assert sorted == init + [sorted[|sorted| - 1]];
      InsertMultiset(init, x);
    }
  }

  lemma {:induction false} InsertStable(sorted: seq<RankedResult>, x: RankedResult, v: int)
    ensures WithScore(Insert(sorted, x), v) == WithScore(sorted, v) + (if x.score == v then [x] else [])
  {
    if sorted == [] {
      WithScoreSnoc([], x, v);
    } else {
      var init := sorted[..|sorted| - 1];
      var last := sorted[|sorted| - 1];
      assert sorted == init + [last];
      if last.score >= x.score {
        WithScoreSnoc(sorted, x, v);
      } else {
        InsertStable(init, x, v);
        WithScoreSnoc(Insert(init, x), last, v);
        WithScoreSnoc(init, last, v);
      }
    }
  }

  lemma {:induction false} InsertSorted(sorted: seq<RankedResult>, x: RankedResult)
    requires SortedByScore(sorted)
    ensures SortedByScore(Insert(sorted, x))
  {
    if sorted != [] {
      var init := sorted[..|sorted| - 1];
      var last := sorted[|sorted| - 1];
      if last.score < x.score {
        assert SortedByScore(init);
        InsertSorted(init, x);
        InsertMultiset(init, x);
        var mid := Insert(init, x);
        forall y | y in mid ensures y.score >= last.score {
          assert y in multiset(mid);
          if y != x {
            assert y in multiset(init);
            var k :| 0 <= k < |init| && init[k] == y;
            assert sorted[k] == y;
          }
        }
        InsertAfterBound(mid, last);
      }
    }
  }

  /** Appending an entry no higher than anything before keeps the order. */
  lemma InsertAfterBound(mid: seq<RankedResult>, last: RankedResult)
    requires SortedByScore(mid)
    requires forall y :: y in mid ==> y.score >= last.score
    ensures SortedByScore(mid + [last])
  {
    var r := mid + [last];
    forall i, j | 0 <= i < j < |r| ensures r[i].score >= r[j].score {
      assert r[i] == mid[i];
      if j < |mid| {
        assert r[j] == mid[j];
      }
    }
  }

  /** The ranking sort is sorted, a permutation of its input, and stable. */
  lemma {:induction false} SortByScoreCorrect(rs: seq<RankedResult>)
    ensures SortedByScore(SortByScore(rs))
    ensures multiset(SortByScore(rs)) == multiset(rs)
    ensures forall v :: WithScore(SortByScore(rs), v) == WithScore(rs, v)
  {
    if rs != [] {
      var init := rs[..|rs| - 1];
      var last := rs[|rs| - 1];
      assert rs == init + [last];
      SortByScoreCorrect(init);
      InsertSorted(SortByScore(init), last);
      InsertMultiset(SortByScore(init), last);
      forall v ensures WithScore(SortByScore(rs), v) == WithScore(rs, v) {
        InsertStable(SortByScore(init), last, v);
        WithScoreSnoc(init, last, v);
      }
    }
  }

  /** The ranked output: the first ten of the stable sort. */
  function TopRanked(valid: seq<seq<Section>>, filters: Filters): seq<RankedResult> {
    Take(SortByScore(RankAll(valid, filters)), MaxResults)
  }

  lemma TopRankedCorrect(valid: seq<seq<Section>>, filters: Filters)
    ensures var top := TopRanked(valid, filters);
      && |top| == Min(MaxResults, |valid|)
      && SortedByScore(top)
      && (forall i :: 0 <= i < |top| ==>
            && top[i].schedule in valid
            && top[i] == Rank(top[i].schedule, filters)
            && top[i].gaps == 0)
      && (forall r, v :: r in RankAll(valid, filters) && r !in top && v in top ==> v.score >= r.score)
  {
    var all := RankAll(valid, filters);
    var sorted := SortByScore(all);
    SortByScoreCorrect(all);
    var top := TopRanked(valid, filters);
    assert |sorted| == |all| by {
      assert |multiset(sorted)| == |multiset(all)|;
    }
    forall i | 0 <= i < |top| ensures top[i].schedule in valid && top[i] == Rank(top[i].schedule, filters) {
      assert top[i] == sorted[i];
      assert sorted[i] in multiset(all);
      var k :| 0 <= k < |all| && all[k] == sorted[i];
    }
    forall r, v | r in all && r !in top && v in top ensures v.score >= r.score {
      assert r in multiset(sorted);
      var a :| 0 <= a < |sorted| && sorted[a] == r;
      var b :| 0 <= b < |top| && top[b] == v;
      assert sorted[b] == v;
    }
  }

  // ---- collecting conflict-free schedules ------------------------------------

  /** Reference definition: the conflict-free combinations, in enumeration order. */
  ghost function NonConflicting(combos: seq<seq<Section>>): seq<seq<Section>> {
    if combos == [] then []
    else
      var last := combos[|combos| - 1];
      NonConflicting(combos[..|combos| - 1]) + (if !Conflicting(last) then [last] else [])
  }

  lemma {:induction false} NonConflictingMembers(combos: seq<seq<Section>>)
    ensures forall c :: c in NonConflicting(combos) <==> c in combos && !Conflicting(c)
  {
    if combos != [] {
      var init := combos[..|combos| - 1];
      NonConflictingMembers(init);
      assert combos == init + [combos[|combos| - 1]];
    }
  }

  lemma {:induction false} NonConflictingPrefix(combos: seq<seq<Section>>, i: nat)
    requires i <= |combos|
    ensures NonConflicting(combos[..i]) <= NonConflicting(combos)
    decreases |combos| - i
  {
    if i < |combos| {
      NonConflictingPrefix(combos, i + 1);
      assert combos[..i + 1][..i] == combos[..i];
    } else {
      assert combos[..i] == combos;
    }
  }

  /** The collection loop of `processGeneration`: keep conflict-free combinations in
      order and break as soon as 100 are held. */
  method CollectValid(combos: seq<seq<Section>>) returns (valid: seq<seq<Section>>)
    ensures valid == Take(NonConflicting(combos), MaxValid)
    ensures |valid| <= MaxValid
    ensures forall c :: c in valid ==> c in combos && !Conflicting(c)
  {
    valid := [];
    var i := 0;
    while i < |combos|
      invariant 0 <= i <= |combos|
      invariant valid == NonConflicting(combos[..i]) && |valid| < MaxValid
    {
      var conflict := HasConflict(combos[i]);
      assert combos[..i + 1] == combos[..i] + [combos[i]];
      assert combos[..i + 1][..i] == combos[..i];
      if !conflict {
        valid := valid + [combos[i]];
        if |valid| >= MaxValid {
          NonConflictingPrefix(combos, i + 1);
          TakeOfPrefix(valid, NonConflicting(combos), MaxValid);
          break;
        }
      }
      i := i + 1;
    }
    if |valid| < MaxValid {
      assert combos[..i] == combos;
    }
    NonConflictingMembers(combos);
  }
}
